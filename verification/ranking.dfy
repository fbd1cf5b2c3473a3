/** Top-posts ranking: the posts of one campaign with at least a minimum number
    of votes, most votes first, and on equal votes the earlier stamp first.
    The ordering is stated as an explicit two-key comparison, so it never
    depends on the order in which the index happens to store its entries. */
module Ranking {

  /** A post as the ranking sees it: which campaign it belongs to, how many
      votes it has and the time it was last stamped (set by its latest vote). */
  datatype Post = Post(id: nat, campaignId: nat, votes: nat, stamp: int)

  /** `a` ranks at or above `b`: more votes, or as many votes and a stamp
      no later than `b`'s. */
  predicate RanksAbove(a: Post, b: Post) {
    a.votes > b.votes || (a.votes == b.votes && a.stamp <= b.stamp)
  }

  /** `a` ranks strictly above `b` on the two keys. */
  predicate StrictlyAbove(a: Post, b: Post) {
    a.votes > b.votes || (a.votes == b.votes && a.stamp < b.stamp)
  }

  /** `a` and `b` are indistinguishable to the ranking keys. */
  predicate SameKey(a: Post, b: Post) {
    a.votes == b.votes && a.stamp == b.stamp
  }

  /** Every post ranks at or above every post after it. */
  predicate Sorted(s: seq<Post>) {
    forall i, j :: 0 <= i < j < |s| ==> RanksAbove(s[i], s[j])
  }

  /** No post id occurs twice. */
  predicate UniqueIds(s: seq<Post>) {
    forall i, j :: 0 <= i < j < |s| ==> s[i].id != s[j].id
  }

  /** A post qualifies for a query on `campaignId` with threshold `minVotes`. */
  predicate Eligible(p: Post, campaignId: nat, minVotes: int) {
    p.campaignId == campaignId && p.votes >= minVotes
  }

  /** No two different posts of the campaign share both keys, so the two-key
      order leaves no tie to chance. */
  predicate TieFree(s: seq<Post>, campaignId: nat) {
    forall p, q ::
      (p in s && q in s && p.campaignId == campaignId && q.campaignId == campaignId && SameKey(p, q))
      ==> p == q
  }

  /** The two-key order is a total preorder. */
  lemma RanksAboveIsTotalPreorder(a: Post, b: Post, c: Post)
    ensures RanksAbove(a, a)
    ensures RanksAbove(a, b) || RanksAbove(b, a)
    ensures RanksAbove(a, b) && RanksAbove(b, c) ==> RanksAbove(a, c)
    ensures RanksAbove(a, b) && RanksAbove(b, a) ==> SameKey(a, b)
    ensures StrictlyAbove(a, b) <==> !RanksAbove(b, a)
  {
  }

  /** Dropping the head keeps ids unique, and the head's id is not reused. */
  lemma UniqueIdsTail(s: seq<Post>)
    requires s != []
    ensures UniqueIds(s) ==> UniqueIds(s[1..])
    ensures UniqueIds(s) ==> forall p :: p in s[1..] ==> p.id != s[0].id
  {
    if !UniqueIds(s) { return; }
    forall i, j | 0 <= i < j < |s[1..]|
      ensures s[1..][i].id != s[1..][j].id
    {
      assert s[1..][i] == s[i + 1] && s[1..][j] == s[j + 1];
    }
    forall p | p in s[1..]
      ensures p.id != s[0].id
    {
      var k :| 0 <= k < |s[1..]| && s[1..][k] == p;
      assert s[k + 1] == p;
    }
  }

  /** The posts of `s` that qualify, in storage order, each as often as stored. */
  function Select(s: seq<Post>, campaignId: nat, minVotes: int): (r: seq<Post>)
    ensures forall p :: multiset(r)[p] == if Eligible(p, campaignId, minVotes) then multiset(s)[p] else 0
  {
    if s == [] then []
    else
      assert s == [s[0]] + s[1..];
      (if Eligible(s[0], campaignId, minVotes) then [s[0]] else []) + Select(s[1..], campaignId, minVotes)
  }

  lemma {:induction false} SelectKeepsIdsUnique(s: seq<Post>, campaignId: nat, minVotes: int)
    requires UniqueIds(s)
    ensures UniqueIds(Select(s, campaignId, minVotes))
  {
    if s != [] {
      UniqueIdsTail(s);
      SelectKeepsIdsUnique(s[1..], campaignId, minVotes);
      var rest := Select(s[1..], campaignId, minVotes);
      forall p | p in rest
        ensures p.id != s[0].id
      {
        assert multiset(rest)[p] > 0;
        assert p in s[1..];
      }
      if Eligible(s[0], campaignId, minVotes) {
        ConsKeepsIdsUnique(s[0], rest);
      }
    }
  }

  /** Putting a post with a fresh id in front keeps ids unique. */
  lemma ConsKeepsIdsUnique(x: Post, s: seq<Post>)
    requires UniqueIds(s)
    requires forall p :: p in s ==> p.id != x.id
    ensures UniqueIds([x] + s)
  {
    var r := [x] + s;
    forall i, j | 0 <= i < j < |r|
      ensures r[i].id != r[j].id
    {
      assert r[j] == s[j - 1];
      if i > 0 { assert r[i] == s[i - 1]; }
    }
  }

  /** Insert `x` into a ranked sequence, after every post that ranks at or
      above it and before the first post it strictly outranks. */
  function Insert(x: Post, s: seq<Post>): (r: seq<Post>)
    requires Sorted(s)
    ensures Sorted(r)
    ensures multiset(r) == multiset(s) + multiset{x}
  {
    if s == [] then [x]
    else if StrictlyAbove(x, s[0]) then
      assert forall k :: 0 <= k < |s| ==> RanksAbove(s[0], s[k]);
      [x] + s
    else
      var rest := Insert(x, s[1..]);
      assert s == [s[0]] + s[1..];
      assert forall k :: 0 <= k < |rest| ==> RanksAbove(s[0], rest[k]) by {
        forall k | 0 <= k < |rest|
          ensures RanksAbove(s[0], rest[k])
        {
          assert rest[k] in multiset(rest);
          if rest[k] != x {
            assert rest[k] in multiset(s[1..]);
            var m :| 0 <= m < |s[1..]| && s[1..][m] == rest[k];
            assert s[m + 1] == rest[k];
          }
        }
      }
      [s[0]] + rest
  }

  lemma {:induction false} InsertKeepsIdsUnique(x: Post, s: seq<Post>)
    requires Sorted(s) && UniqueIds(s)
    requires forall p :: p in s ==> p.id != x.id
    ensures UniqueIds(Insert(x, s))
  {
    if s == [] {
    } else if StrictlyAbove(x, s[0]) {
      ConsKeepsIdsUnique(x, s);
    } else {
      UniqueIdsTail(s);
      assert forall p :: p in s[1..] ==> p in s;
      InsertKeepsIdsUnique(x, s[1..]);
      var rest := Insert(x, s[1..]);
      forall p | p in rest
        ensures p.id != s[0].id
      {
        assert p in multiset(rest);
        assert p == x || p in s[1..];
      }
      ConsKeepsIdsUnique(s[0], rest);
    }
  }

  /** Arrange `s` by the two-key order. */
  function Sort(s: seq<Post>): (r: seq<Post>)
    ensures Sorted(r)
    ensures multiset(r) == multiset(s)
  {
    if s == [] then []
    else
      assert s == [s[0]] + s[1..];
      Insert(s[0], Sort(s[1..]))
  }

  lemma {:induction false} SortKeepsIdsUnique(s: seq<Post>)
    requires UniqueIds(s)
    ensures UniqueIds(Sort(s))
  {
    if s != [] {
      UniqueIdsTail(s);
      SortKeepsIdsUnique(s[1..]);
      var rest := Sort(s[1..]);
      forall p | p in rest
        ensures p.id != s[0].id
      {
        assert p in multiset(s[1..]);
      }
      InsertKeepsIdsUnique(s[0], rest);
    }
  }

  /** The campaign's posts with at least `minVotes` votes, most votes first,
      earlier stamp first among equal votes. */
  function TopPosts(s: seq<Post>, campaignId: nat, minVotes: int := 0): (r: seq<Post>)
    ensures forall p :: p in r <==> p in s && Eligible(p, campaignId, minVotes)
    ensures forall p :: multiset(r)[p] == if Eligible(p, campaignId, minVotes) then multiset(s)[p] else 0
    ensures Sorted(r)
  {
    Sort(Select(s, campaignId, minVotes))
  }

  /** In a store where every id occurs once, the ranking lists no post twice. */
  lemma TopPostsListsEachPostOnce(s: seq<Post>, campaignId: nat, minVotes: int)
    requires UniqueIds(s)
    ensures UniqueIds(TopPosts(s, campaignId, minVotes))
  {
    SelectKeepsIdsUnique(s, campaignId, minVotes);
    SortKeepsIdsUnique(Select(s, campaignId, minVotes));
  }

  /** In a ranked sequence more votes always come first, and on equal votes
      the earlier stamp comes first. */
  lemma SortedRespectsKeys(r: seq<Post>)
    requires Sorted(r)
    ensures forall i, j :: 0 <= i < |r| && 0 <= j < |r| && r[i].votes > r[j].votes ==> i < j
    ensures forall i, j ::
      (0 <= i < |r| && 0 <= j < |r| && r[i].votes == r[j].votes && r[i].stamp < r[j].stamp) ==> i < j
  {
  }

  /** Removing the head of a sequence removes one copy of it from the multiset. */
  lemma TailMultiset(a: seq<Post>)
    requires a != []
    ensures multiset(a[1..]) == multiset(a) - multiset{a[0]}
  {
    assert a == [a[0]] + a[1..];
  }

  /** Two ranked arrangements of the same posts start with the same post
      when no two posts share both keys. */
  lemma SortedHeadsAgree(a: seq<Post>, b: seq<Post>)
    requires Sorted(a) && Sorted(b) && a != []
    requires multiset(a) == multiset(b)
    requires forall p, q :: p in a && q in a && SameKey(p, q) ==> p == q
    ensures b != [] && a[0] == b[0]
  {
    assert a[0] in multiset(b);
    assert b[0] in multiset(a);
    var i :| 0 <= i < |b| && b[i] == a[0];
    var j :| 0 <= j < |a| && a[j] == b[0];
    assert RanksAbove(b[0], a[0]) by { if i > 0 { assert RanksAbove(b[0], b[i]); } }
    assert RanksAbove(a[0], b[0]) by { if j > 0 { assert RanksAbove(a[0], a[j]); } }
    assert SameKey(a[0], b[0]);
  }

  /** Two ranked arrangements of the same posts are identical when no tie
      is left to chance. */
  lemma {:induction false} SortedArrangementUnique(a: seq<Post>, b: seq<Post>)
    requires Sorted(a) && Sorted(b)
    requires multiset(a) == multiset(b)
    requires forall p, q :: p in a && q in a && SameKey(p, q) ==> p == q
    ensures a == b
  {
    if a == [] {
      assert |b| == |multiset(b)| == 0;
    } else {
      SortedHeadsAgree(a, b);
      TailMultiset(a);
      TailMultiset(b);
      forall p, q | p in a[1..] && q in a[1..] && SameKey(p, q)
        ensures p == q
      {
        assert p in a && q in a;
      }
      SortedArrangementUnique(a[1..], b[1..]);
      assert a == [a[0]] + a[1..];
      assert b == [b[0]] + b[1..];
    }
  }

  /** The ranking is the only ranked arrangement of the qualifying posts when
      the campaign has no exact ties: any ranked sequence holding exactly the
      qualifying posts is the query's result. */
  lemma RankingIsCanonical(s: seq<Post>, campaignId: nat, minVotes: int, r: seq<Post>)
    requires TieFree(s, campaignId)
    requires Sorted(r)
    requires forall p :: multiset(r)[p] == if Eligible(p, campaignId, minVotes) then multiset(s)[p] else 0
    ensures r == TopPosts(s, campaignId, minVotes)
  {
    var t := TopPosts(s, campaignId, minVotes);
    assert multiset(r) == multiset(t);
    forall p, q | p in r && q in r && SameKey(p, q)
      ensures p == q
    {
      assert multiset(r)[p] > 0 && multiset(r)[q] > 0;
    }
    SortedArrangementUnique(r, t);
  }

  /** Storage order inside the index cannot change a query's answer: two
      stores holding the same posts rank them identically. */
  lemma IndexOrderIrrelevant(s1: seq<Post>, s2: seq<Post>, campaignId: nat, minVotes: int)
    requires multiset(s1) == multiset(s2)
    requires TieFree(s1, campaignId)
    ensures TopPosts(s1, campaignId, minVotes) == TopPosts(s2, campaignId, minVotes)
  {
    RankingIsCanonical(s1, campaignId, minVotes, TopPosts(s2, campaignId, minVotes));
  }

  /** Raising the threshold only drops posts: the stricter result is contained
      in the looser one and is never longer. */
  lemma RaisingThresholdShrinks(s: seq<Post>, campaignId: nat, lo: int, hi: int)
    requires lo <= hi
    ensures multiset(TopPosts(s, campaignId, hi)) <= multiset(TopPosts(s, campaignId, lo))
    ensures |TopPosts(s, campaignId, hi)| <= |TopPosts(s, campaignId, lo)|
  {
    var a := multiset(TopPosts(s, campaignId, hi));
    var b := multiset(TopPosts(s, campaignId, lo));
    assert a <= b;
    assert b == a + (b - a);
  }

  /** When no post of the campaign reaches the threshold the result is empty. */
  lemma NoneQualifyMeansEmpty(s: seq<Post>, campaignId: nat, minVotes: int)
    requires forall p :: p in s && p.campaignId == campaignId ==> p.votes < minVotes
    ensures TopPosts(s, campaignId, minVotes) == []
  {
    var r := TopPosts(s, campaignId, minVotes);
    assert multiset(r) == multiset{};
  }

  /** One vote for `p` at time `t`: one more vote, stamped `t`. */
  function Vote(p: Post, t: int): (r: Post)
    ensures r.id == p.id && r.campaignId == p.campaignId
    ensures r.votes == p.votes + 1 && r.stamp == t
    ensures StrictlyAbove(r, p)
  {
    p.(votes := p.votes + 1, stamp := t)
  }

  /** Apply a vote for the post with id `id` to the store; every other post is
      left as it was. */
  function VoteFor(s: seq<Post>, id: nat, t: int): (r: seq<Post>)
    ensures |r| == |s|
    ensures forall i :: 0 <= i < |s| ==> r[i].id == s[i].id && r[i].campaignId == s[i].campaignId
    ensures forall i :: 0 <= i < |s| && s[i].id != id ==> r[i] == s[i]
    ensures forall i :: 0 <= i < |s| && s[i].id == id ==>
      r[i].votes == s[i].votes + 1 && r[i].stamp == t
    ensures UniqueIds(s) ==> UniqueIds(r)
  {
    seq(|s|, i requires 0 <= i < |s| => if s[i].id == id then Vote(s[i], t) else s[i])
  }

  /** A vote lifts a post strictly above every post with no more votes than
      it, whatever the stamps. */
  lemma VoteOvertakes(p: Post, q: Post, t: int)
    requires p.votes >= q.votes
    ensures StrictlyAbove(Vote(p, t), q)
  {
  }

  /** A post that reaches an equal count with a later vote stays behind the
      post that got there first. */
  lemma LaterVoteStaysBehind(p: Post, q: Post, t: int)
    requires q.votes == p.votes + 1 && q.stamp < t
    ensures StrictlyAbove(q, Vote(p, t))
  {
  }

  /** In a store with unique ids, after a vote for `p` the store holds the
      voted post, and every other post in it was already there. */
  lemma VoteForContents(s: seq<Post>, p: Post, t: int)
    requires UniqueIds(s) && p in s
    ensures Vote(p, t) in VoteFor(s, p.id, t)
    ensures p !in VoteFor(s, p.id, t)
    ensures forall q :: q in VoteFor(s, p.id, t) && q.id != p.id ==> q in s
    ensures forall q :: q in s && q.id != p.id ==> q in VoteFor(s, p.id, t)
    ensures forall q :: q in VoteFor(s, p.id, t) && q.id == p.id ==> q == Vote(p, t)
  {
    var r := VoteFor(s, p.id, t);
    var k :| 0 <= k < |s| && s[k] == p;
    assert r[k] == Vote(p, t);
    forall q | q in r && q.id == p.id
      ensures q == Vote(p, t)
    {
      var i :| 0 <= i < |r| && r[i] == q;
      assert s[i].id == s[k].id;
    }
    forall q | q in s && q.id != p.id
      ensures q in r
    {
      var i :| 0 <= i < |s| && s[i] == q;
      assert r[i] == q;
    }
    forall q | q in r && q.id != p.id
      ensures q in s
    {
      var i :| 0 <= i < |r| && r[i] == q;
      assert s[i] == q;
    }
  }
}
