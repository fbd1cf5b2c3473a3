# Campaign validation and top-posts ranking

A model of the two pieces of pure behaviour behind maple's campaigns:

- **Campaign validation** (`campaign.dfy`, module `Campaigns`): a proposed
  campaign (`Draft`) has optional `title`, `description`, `company_id`,
  `starttime` and `endtime`. Validation at the instant `now` accepts it only
  when all five are present, `starttime >= now`, and `endtime > starttime`.
  Every broken rule is reported as a `Violation`; an accepted draft becomes a
  `Campaign` whose fields are exactly the draft's.
- **Top posts** (`ranking.dfy`, module `Ranking`): `TopPosts(store, campaign,
  minVotes := 0)` keeps the campaign's posts with at least `minVotes` votes and
  orders them by vote count, descending, then by stamp, ascending. The stamp
  is the time of a post's latest vote: `Vote(post, t)` adds one vote and
  stamps the post with `t`, and `VoteFor(store, id, t)` applies it to the store.
  The ordering is an explicit two-key comparison. When no two posts of a
  campaign share both keys, the result is the only ranked arrangement of the
  qualifying posts (`RankingIsCanonical`). So the order in which the search
  index stores its entries cannot change an answer (`IndexOrderIrrelevant`).
- **The test scenario** (`scenario.dfy`, module `TopPostsScenario`) replays
  the "verify top posts" test as pure state transitions. The first vote puts
  `leader` first. A later vote that brings `leader2` level leaves it second.
  A second vote for `leader2` lets it overtake.

`wrappers.dfy` holds the `Option` and `Result` types.

Time is a plain integer (seconds, UTC). The current time is the parameter
`now`; the vote times are parameters `t1`, `t2`, `t3`.

The ranking's second key is the time of a post's latest vote. The test
indicates this reading: its sleeps sit between votes rather than between
post creations (test/unit/campaign_test.rb:73, 85), and its comment speaks of
the "oldest upvoted posts" keeping their position
(test/unit/campaign_test.rb:80-81). The model therefore stamps a post on
every vote.

## Model

| member | source | states |
|---|---|---|
| Campaigns.Violations | test/unit/campaign_test.rb:26-54 | each rule is reported exactly when it is broken: the missing-field reason of every absent field, start before `now`, end not after start; no reason is listed twice; no violation exactly when the draft is well formed |
| Campaigns.Validate | test/unit/campaign_test.rb:26-54 | a draft is accepted iff all five fields are present, `now <= starttime < endtime`; an accepted campaign carries the draft's fields unchanged; a rejected one lists every violation and yields no campaign |
| Campaigns.OmittingAnyFieldRejects | test/unit/campaign_test.rb:26-42 | leaving out any one of title, description, company_id, starttime or endtime from any draft is rejected and names the missing field, whatever the other fields hold (so also when they are all valid) |
| Campaigns.RetroactiveStartRejects | test/unit/campaign_test.rb:44-49 | a start earlier than `now` (such as `now - 120`) is always rejected, reporting the retroactive start |
| Campaigns.EmptyWindowRejects | test/unit/campaign_test.rb:51-54 | an end at or before the start is always rejected, reporting the empty window |
| Campaigns.ValidateRoundTrip | test/unit/campaign_test.rb:44-54 | a stored campaign validates back to itself exactly when its texts are non-empty and its window is non-retroactive with positive length |
| Ranking.Select | test/unit/campaign_test.rb:68-69 | the filter keeps every qualifying post as often as stored and no other post |
| Ranking.Sort | test/unit/campaign_test.rb:79-93 | the result is ranked by votes descending then stamp ascending and is a permutation of the input |
| Ranking.TopPosts | test/unit/campaign_test.rb:57-93 | the result holds exactly the campaign's posts with at least `minVotes` votes, each as often as stored, ranked by the two keys |
| Ranking.SortedRespectsKeys | test/unit/campaign_test.rb:80-93 | in a ranked result more votes always come first, and on equal votes the earlier stamp comes first |
| Ranking.SortedArrangementUnique | test/unit/campaign_test.rb:71-72 | two ranked arrangements of the same posts are equal when no two posts share both keys |
| Ranking.RankingIsCanonical | test/unit/campaign_test.rb:71-72 | with no exact ties in the campaign, any ranked sequence holding exactly the qualifying posts is the query's result |
| Ranking.IndexOrderIrrelevant | test/unit/campaign_test.rb:71-72 | when no two posts of the campaign share both vote count and stamp, two stores holding the same posts answer every query identically, whatever order the index keeps them in |
| Ranking.RaisingThresholdShrinks | test/unit/campaign_test.rb:65-69 | raising `minVotes` only drops posts: the stricter result is contained in the looser one and is never longer |
| Ranking.NoneQualifyMeansEmpty | test/unit/campaign_test.rb:58-59 | when no post of the campaign reaches the threshold the result is empty, not an error |
| Ranking.TopPostsListsEachPostOnce | test/unit/campaign_test.rb:66-93 | in a store with unique ids the ranking never lists a post twice |
| Ranking.Vote | test/unit/campaign_test.rb:61-62 | a vote keeps the post's identity and campaign, adds exactly one vote, stamps it with the vote time and lifts it strictly above its former self |
| Ranking.VoteFor | test/unit/campaign_test.rb:75-76 | voting for one id changes only the posts with that id, adding one vote and the new stamp; ids stay unique |
| Ranking.VoteForContents | test/unit/campaign_test.rb:61-62 | after a vote the store holds the voted post in place of the old one and every other post unchanged |
| Ranking.VoteOvertakes | test/unit/campaign_test.rb:87-93 | a vote lifts a post strictly above every post with no more votes than it, whatever the stamps |
| Ranking.LaterVoteStaysBehind | test/unit/campaign_test.rb:75-83 | a post that reaches an equal count with a later vote stays behind the post that got there first |
| Ranking.RanksAboveIsTotalPreorder | test/unit/campaign_test.rb:71-72 | the two-key order is reflexive, total and transitive, and ties in both directions only between posts with equal keys |
| TopPostsScenario.NoVotesNoResults | test/unit/campaign_test.rb:58-59 | before any vote, a threshold of one yields no posts |
| TopPostsScenario.FirstVoteLeads | test/unit/campaign_test.rb:61-69 | after one vote `leader` is first, and it is the only post with at least one vote |
| TopPostsScenario.EarlierVoteKeepsLead | test/unit/campaign_test.rb:71-83 | when `leader2` reaches the same count later, `leader` stays first and `leader2` is second |
| TopPostsScenario.SecondVoteOvertakes | test/unit/campaign_test.rb:85-93 | after a second vote `leader2` is first and `leader` second, whatever the stamps |

## Left out

- Elasticsearch index setup, naming, deletion, import and `refresh`
  (test/unit/campaign_test.rb:5-14, 63, 77, 89). The query reads the current
  post state directly. Writes that are not yet visible, a refresh that
  never completes and connectivity failures are therefore not modelled.
- The `sleep(1)` calls and the wall clock: times are integer parameters. The
  scenario states the gap between the two vote times as `t1 < t2`.
- Persistence (`save`), fixtures and the company/campaign and campaign/post
  association counts (test/unit/campaign_test.rb:17-24). These are database
  plumbing with fixture-dependent numbers.
- Voter identity and vote de-duplication in `vote_for`. Only the count
  increment and the stamp affect the ranking.
- Campaigns.Validate: `company_id` is checked only for presence. Whether it names an
  existing company needs a database lookup.
- Campaigns.Validate: a text counts as present when it is set and non-empty. A
  whitespace-only text, which Rails' presence check also rejects, is
  accepted by the model.
- Campaigns.Validate: the tolerance the application allows between the creation
  instant and the real clock is not visible. The model checks
  `starttime >= now` for the `now` it is given.
- A query for a campaign that does not exist is not an error: a campaign id
  with no posts yields an empty ranking, since the store has no campaign
  table.
- Ranking.TopPosts: when two posts of a campaign have the same vote count and
  the same stamp, they come out in reverse storage order. The
  determinism lemmas assume no such exact tie. The test avoids such ties with
  its sleeps.
- Whether an expired campaign may still be ranked: nothing in maple's test
  decides it, so the query ignores the campaign's window.
