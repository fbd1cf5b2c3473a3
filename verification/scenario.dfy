/** The top-posts test replayed as pure state transitions: a campaign whose
    posts all start without votes, one vote for `leader`, one later vote for
    `leader2`, then a second vote for `leader2`. */
module TopPostsScenario {
  import opened Ranking

  /** The starting store: ids are unique, both leaders belong to the campaign,
      and no post of the campaign has a vote yet. */
  predicate Fixture(s: seq<Post>, campaignId: nat, leader: Post, leader2: Post) {
    && UniqueIds(s)
    && leader in s && leader2 in s
    && leader.campaignId == campaignId && leader2.campaignId == campaignId
    && leader.id != leader2.id
    && forall p :: p in s && p.campaignId == campaignId ==> p.votes == 0
  }

  /** A post that strictly outranks every other-id post of a ranked sequence
      is its first entry. */
  lemma LeaderFirst(r: seq<Post>, x: Post)
    requires Sorted(r) && x in r
    requires forall y :: y in r && y.id != x.id ==> StrictlyAbove(x, y)
    ensures r != [] && r[0].id == x.id
  {
    var k :| 0 <= k < |r| && r[k] == x;
    if k > 0 {
      assert RanksAbove(r[0], r[k]);
    }
  }

  /** With `x` strictly above `y`, and `y` strictly above every other post,
      a ranked sequence listing no id twice starts with `x` then `y`. */
  lemma RunnerUpSecond(r: seq<Post>, x: Post, y: Post)
    requires Sorted(r) && UniqueIds(r) && x in r && y in r
    requires x.id != y.id && StrictlyAbove(x, y)
    requires forall z :: z in r && z.id != x.id && z.id != y.id ==> StrictlyAbove(y, z)
    ensures |r| >= 2 && r[0].id == x.id && r[1].id == y.id
  {
    LeaderFirst(r, x);
    var k :| 0 <= k < |r| && r[k] == y;
    assert k >= 1;
    assert r[1].id != r[0].id;
  }

  /** A sequence listing no id twice whose every post has the id of `x`,
      and which holds `x`, is exactly `[x]`. */
  lemma SingleIdSingleton(r: seq<Post>, x: Post)
    requires UniqueIds(r) && x in r
    requires forall q :: q in r ==> q.id == x.id
    ensures r == [x]
  {
    assert |r| > 1 ==> r[0].id != r[1].id;
    assert r[0] in r;
  }

  /** Before any vote no post clears a threshold of one (test/unit/campaign_test.rb:58-59). */
  lemma NoVotesNoResults(s: seq<Post>, campaignId: nat, leader: Post, leader2: Post)
    requires Fixture(s, campaignId, leader, leader2)
    ensures TopPosts(s, campaignId, 1) == []
  {
    NoneQualifyMeansEmpty(s, campaignId, 1);
  }

  /** After one vote for `leader` it heads the ranking and is the only post
      with at least one vote (test/unit/campaign_test.rb:61-69). */
  lemma {:induction false} FirstVoteLeads(s: seq<Post>, campaignId: nat, leader: Post, leader2: Post, t1: int)
    requires Fixture(s, campaignId, leader, leader2)
    ensures var r := TopPosts(VoteFor(s, leader.id, t1), campaignId);
      r != [] && r[0].id == leader.id
    ensures TopPosts(VoteFor(s, leader.id, t1), campaignId, 1) == [Vote(leader, t1)]
  {
    var s1 := VoteFor(s, leader.id, t1);
    var l1 := Vote(leader, t1);
    VoteForContents(s, leader, t1);
    var r := TopPosts(s1, campaignId);
    LeaderFirst(r, l1);
    var r1 := TopPosts(s1, campaignId, 1);
    TopPostsListsEachPostOnce(s1, campaignId, 1);
    SingleIdSingleton(r1, l1);
  }

  /** The store after the first two votes, `leader` at `t1` and `leader2` at `t2`. */
  function AfterTwoVotes(s: seq<Post>, leader: Post, leader2: Post, t1: int, t2: int): seq<Post> {
    VoteFor(VoteFor(s, leader.id, t1), leader2.id, t2)
  }

  /** Facts about the store after the first two votes. */
  lemma AfterTwoVotesContents(s: seq<Post>, campaignId: nat, leader: Post, leader2: Post, t1: int, t2: int)
    requires Fixture(s, campaignId, leader, leader2)
    ensures UniqueIds(AfterTwoVotes(s, leader, leader2, t1, t2))
    ensures Vote(leader, t1) in AfterTwoVotes(s, leader, leader2, t1, t2)
    ensures Vote(leader2, t2) in AfterTwoVotes(s, leader, leader2, t1, t2)
    ensures forall q ::
      (q in AfterTwoVotes(s, leader, leader2, t1, t2) && q.id != leader.id && q.id != leader2.id)
      ==> q in s
  {
    var s1 := VoteFor(s, leader.id, t1);
    VoteForContents(s, leader, t1);
    assert leader2 in s1;
    VoteForContents(s1, leader2, t2);
  }

  /** On equal counts the post upvoted first keeps first place (test/unit/campaign_test.rb:71-83). */
  lemma EarlierVoteKeepsLead(s: seq<Post>, campaignId: nat, leader: Post, leader2: Post, t1: int, t2: int)
    requires Fixture(s, campaignId, leader, leader2)
    requires t1 < t2
    ensures var r := TopPosts(AfterTwoVotes(s, leader, leader2, t1, t2), campaignId);
      |r| >= 2 && r[0].id == leader.id && r[1].id == leader2.id
  {
    var s2 := AfterTwoVotes(s, leader, leader2, t1, t2);
    AfterTwoVotesContents(s, campaignId, leader, leader2, t1, t2);
    var r := TopPosts(s2, campaignId);
    TopPostsListsEachPostOnce(s2, campaignId, 0);
    RunnerUpSecond(r, Vote(leader, t1), Vote(leader2, t2));
  }

  /** A second vote for `leader2` lets it overtake `leader`, whatever the
      stamps (test/unit/campaign_test.rb:87-93). */
  lemma SecondVoteOvertakes(s: seq<Post>, campaignId: nat, leader: Post, leader2: Post, t1: int, t2: int, t3: int)
    requires Fixture(s, campaignId, leader, leader2)
    ensures var r := TopPosts(VoteFor(AfterTwoVotes(s, leader, leader2, t1, t2), leader2.id, t3), campaignId);
      |r| >= 2 && r[0].id == leader2.id && r[1].id == leader.id
  {
    var s2 := AfterTwoVotes(s, leader, leader2, t1, t2);
    AfterTwoVotesContents(s, campaignId, leader, leader2, t1, t2);
    var l2 := Vote(leader2, t2);
    var s3 := VoteFor(s2, leader2.id, t3);
    VoteForContents(s2, l2, t3);
    var r := TopPosts(s3, campaignId);
    TopPostsListsEachPostOnce(s3, campaignId, 0);
    RunnerUpSecond(r, Vote(l2, t3), Vote(leader, t1));
  }
}
