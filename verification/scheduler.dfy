/** `MainTimerService`: the curation round. It picks the contributor checked
    longest ago, ranks that contributor's latest tweets, and merges the best
    ones into the contributor's selected tweets. It also seeds the
    contributor table on first start. The Twitter fetches are inputs
    (`None` for a failed or faulted request) and the clock is a parameter. */
module Scheduler {
  import opened Wrappers
  import opened Text
  import opened Models
  import Sorting
  import OAuth

  /** How many of the latest tweets `CheckTweets` asks for. */
  const LastNTweets: nat := 50
  const HowManyBestTweets: nat := 5

  // ---------------------------------------------------------------- ranking

  /** C# `int` addition in an unchecked context: wraps modulo 2^32. */
  function Wrap32(x: int): (r: int)
    ensures MinInt32 <= r <= MaxInt32
    ensures (r - x) % 0x1_0000_0000 == 0
    ensures MinInt32 <= x <= MaxInt32 ==> r == x
  {
    (x - MinInt32) % 0x1_0000_0000 + MinInt32
  }

  /** `favorite_count + retweet_count` on `int?`: null when either counter is null. */
  function Score(t: Tweet): (r: Option<int>)
    ensures r.Some? <==> t.favoriteCount.Some? && t.retweetCount.Some?
    ensures r.Some? ==> (MinInt32 <= r.value <= MaxInt32
      && (r.value - (t.favoriteCount.value + t.retweetCount.value)) % 0x1_0000_0000 == 0)
    ensures r.Some? && MinInt32 <= t.favoriteCount.value + t.retweetCount.value <= MaxInt32 ==>
      r.value == t.favoriteCount.value + t.retweetCount.value
  {
    if t.favoriteCount.Some? && t.retweetCount.Some? then
      Some(Wrap32(t.favoriteCount.value + t.retweetCount.value))
    else None
  }

  /** The sort key of `OrderByDescending` on `int?`: null sorts below every number. */
  function RankKey(t: Tweet): int {
    match Score(t)
    case None => MinInt32 - 1
    case Some(s) => s
  }

  /** The `Where` of the ranking: a lifted `> 0`, false on null. */
  predicate Positive(t: Tweet) {
    Score(t).Some? && Score(t).value > 0
  }

  predicate ByScoreDesc(a: Tweet, b: Tweet) {
    RankKey(a) >= RankKey(b)
  }

  lemma ByScoreDescIsTotalPreorder()
    ensures Sorting.TotalPreorder(ByScoreDesc)
  {
  }

  lemma PositiveByKey(t: Tweet)
    ensures Positive(t) <==> RankKey(t) > 0
  {
  }

  function TakeAtMost<T>(s: seq<T>, n: nat): (r: seq<T>)
    ensures |r| <= n && r <= s
    ensures |s| <= n ==> r == s
    ensures |s| > n ==> |r| == n
  {
    if |s| <= n then s else s[..n]
  }

  /** The positive-score tweets in descending score order (stable). */
  function RankedCandidates(tweets: seq<Tweet>): (r: seq<Tweet>)
    ensures Sorting.Sorted(r, ByScoreDesc)
    ensures forall i :: 0 <= i < |r| ==> Positive(r[i])
    ensures multiset(r) <= multiset(tweets)
    ensures forall t :: t in tweets && Positive(t) ==> t in r
  {
    ByScoreDescIsTotalPreorder();
    var sorted := Sorting.Sort(tweets, ByScoreDesc);
    Sorting.SortSorted(tweets, ByScoreDesc);
    Sorting.FilterSorted(sorted, Positive, ByScoreDesc);
    forall t | t in tweets
      ensures t in sorted
    {
      assert t in multiset(sorted);
    }
    Sorting.Filter(sorted, Positive)
  }

  /** `OrderByDescending(score).Where(score > 0).Take(5)`. */
  function Rank(tweets: seq<Tweet>): (best: seq<Tweet>)
    ensures |best| <= HowManyBestTweets
    ensures forall i :: 0 <= i < |best| ==> Positive(best[i])
    ensures forall i, j :: 0 <= i < j < |best| ==> RankKey(best[i]) >= RankKey(best[j])
    ensures multiset(best) <= multiset(tweets)
  {
    var kept := RankedCandidates(tweets);
    var best := TakeAtMost(kept, HowManyBestTweets);
    RankedPrefix(kept, best);
    best
  }

  lemma RankedPrefix(kept: seq<Tweet>, best: seq<Tweet>)
    requires best <= kept && Sorting.Sorted(kept, ByScoreDesc)
    requires forall i :: 0 <= i < |kept| ==> Positive(kept[i])
    ensures forall i :: 0 <= i < |best| ==> Positive(best[i])
    ensures forall i, j :: 0 <= i < j < |best| ==> RankKey(best[i]) >= RankKey(best[j])
    ensures multiset(best) <= multiset(kept)
  {
    assert kept == best + kept[|best|..];
    assert multiset(kept) == multiset(best) + multiset(kept[|best|..]);
    forall i, j | 0 <= i < j < |best|
      ensures RankKey(best[i]) >= RankKey(best[j])
    {
      assert ByScoreDesc(kept[i], kept[j]);
    }
  }

  /** Tweets with equal scores keep the order in which they were fetched. */
  lemma RankKeepsFetchOrderOfTies(tweets: seq<Tweet>, y: Tweet)
    requires Positive(y)
    ensures Sorting.Ties(Rank(tweets), y, ByScoreDesc) <= Sorting.Ties(tweets, y, ByScoreDesc)
  {
    ByScoreDescIsTotalPreorder();
    var sorted := Sorting.Sort(tweets, ByScoreDesc);
    Sorting.SortStable(tweets, y, ByScoreDesc);
    forall a | ByScoreDesc(a, y) && ByScoreDesc(y, a)
      ensures Positive(a) == Positive(y)
    {
      PositiveByKey(a);
      PositiveByKey(y);
    }
    Sorting.FilterTies(sorted, Positive, y, ByScoreDesc);
    var kept := RankedCandidates(tweets);
    Sorting.TakeTies(kept, |Rank(tweets)|, y, ByScoreDesc);
  }

  /** A positive-score tweet left out of the ranking lost to five tweets that score at least as much. */
  lemma RankDominates(tweets: seq<Tweet>, t: Tweet)
    requires t in tweets && Positive(t)
    requires t !in Rank(tweets)
    ensures |Rank(tweets)| == HowManyBestTweets
    ensures forall r :: r in Rank(tweets) ==> RankKey(r) >= RankKey(t)
  {
    var kept := RankedCandidates(tweets);
    var best := Rank(tweets);
    var k :| 0 <= k < |kept| && kept[k] == t;
    if |kept| <= HowManyBestTweets {
      assert false;
    }
    assert best == kept[..HowManyBestTweets];
    forall r | r in best
      ensures RankKey(r) >= RankKey(t)
    {
      var i :| 0 <= i < |best| && best[i] == r;
      if k < HowManyBestTweets {
        assert false;
      }
      assert ByScoreDesc(kept[i], kept[k]);
    }
  }

  // ---------------------------------------------------------------- merge

  function IdsOf(tweets: seq<Tweet>): set<Str> {
    set i | 0 <= i < |tweets| :: tweets[i].id
  }

  /** `c.SelectedTweets.First(x => x.TweetId == id)`: the contributor's first row for the tweet. */
  function FindOwned(rows: seq<SelectedTweet>, owner: Str, id: Str): (i: nat)
    requires id in OwnedIds(rows, owner)
    ensures i < |rows| && rows[i].owner == owner && rows[i].tweetId == id
    ensures forall j :: 0 <= j < i ==> !(rows[j].owner == owner && rows[j].tweetId == id)
  {
    if rows[0].owner == owner && rows[0].tweetId == id then 0
    else
      assert id in OwnedIds(rows[1..], owner) by {
        var k :| 0 <= k < |rows| && rows[k].owner == owner && rows[k].tweetId == id;
        assert rows[1..][k - 1] == rows[k];
      }
      1 + FindOwned(rows[1..], owner, id)
  }

  /** How a row may change in a merge: untouched, or re-stamped while still `Unchecked`. */
  predicate Refreshed(before: SelectedTweet, after: SelectedTweet, now: Time) {
    after == before || (before.state == Unchecked && after == before.(selectedAt := Some(now)))
  }

  /** Whether a merge over the ranked ids `ids` re-stamps old row `j`: it is
      `owner`'s first row for its tweet, the tweet is among `ids`, and the row
      is still `Unchecked`. */
  predicate RestampedBy(rows: seq<SelectedTweet>, j: nat, owner: Str, ids: set<Str>)
    requires j < |rows|
  {
    && rows[j].owner == owner && rows[j].tweetId in ids && rows[j].state == Unchecked
    && forall k :: 0 <= k < j ==> !(rows[k].owner == owner && rows[k].tweetId == rows[j].tweetId)
  }

  /** The old rows after a merge: the rows `RestampedBy` picks get `SelectedAt`
      set to `now`, and every other old row is left as it was. */
  predicate RestampsOnly(before: seq<SelectedTweet>, after: seq<SelectedTweet>, owner: Str, ids: set<Str>, now: Time) {
    && |before| <= |after|
    && forall j :: 0 <= j < |before| ==>
         after[j] == if RestampedBy(before, j, owner, ids) then before[j].(selectedAt := Some(now)) else before[j]
  }

  /** Whether merging the tweet `id` stores its fresh counters (`context.Update(t)`
      or the insert of a new row): the tweet is new to the contributor, or the
      contributor's row for it is still `Unchecked`. */
  predicate StoresTweet(rows: seq<SelectedTweet>, owner: Str, existing: set<Str>, id: Str) {
    id !in existing || (id in OwnedIds(rows, owner) && rows[FindOwned(rows, owner, id)].state == Unchecked)
  }

  /** Two versions of a row that agree on everything a merge decides by. */
  predicate SameKeys(x: SelectedTweet, y: SelectedTweet) {
    x.owner == y.owner && x.tweetId == y.tweetId && x.state == y.state
  }

  lemma RestampsOnlyKeys(before: seq<SelectedTweet>, after: seq<SelectedTweet>, owner: Str, ids: set<Str>, now: Time)
    requires RestampsOnly(before, after, owner, ids, now)
    ensures forall k :: 0 <= k < |before| ==> SameKeys(before[k], after[k])
  {
    forall k | 0 <= k < |before| ensures SameKeys(before[k], after[k]) {
      assert after[k] == if RestampedBy(before, k, owner, ids) then before[k].(selectedAt := Some(now)) else before[k];
    }
  }

  /** Re-stamping the first row of `id` while it is `Unchecked` re-stamps exactly the rows `RestampedBy` picks for `{id}`. */
  lemma RestampFirst(rows: seq<SelectedTweet>, owner: Str, id: Str, now: Time)
    requires id in OwnedIds(rows, owner)
    ensures var i := FindOwned(rows, owner, id);
      RestampsOnly(rows, if rows[i].state == Unchecked then rows[i := rows[i].(selectedAt := Some(now))] else rows, owner, {id}, now)
  {
    var i := FindOwned(rows, owner, id);
    var after := if rows[i].state == Unchecked then rows[i := rows[i].(selectedAt := Some(now))] else rows;
    forall j | 0 <= j < |rows|
      ensures after[j] == if RestampedBy(rows, j, owner, {id}) then rows[j].(selectedAt := Some(now)) else rows[j]
    {
    }
  }

  /** Two merges in a row re-stamp the rows either one picks. */
  lemma RestampsCompose(a: seq<SelectedTweet>, b: seq<SelectedTweet>, c: seq<SelectedTweet>,
                        owner: Str, ids1: set<Str>, ids2: set<Str>, now: Time)
    requires RestampsOnly(a, b, owner, ids1, now) && RestampsOnly(b, c, owner, ids2, now)
    ensures RestampsOnly(a, c, owner, ids1 + ids2, now)
  {
    RestampsOnlyKeys(a, b, owner, ids1, now);
    forall j | 0 <= j < |a|
      ensures c[j] == if RestampedBy(a, j, owner, ids1 + ids2) then a[j].(selectedAt := Some(now)) else a[j]
    {
      assert RestampedBy(b, j, owner, ids2) == RestampedBy(a, j, owner, ids2) by {
        assert forall k :: 0 <= k <= j ==> SameKeys(a[k], b[k]);
      }
      assert b[j] == if RestampedBy(a, j, owner, ids1) then a[j].(selectedAt := Some(now)) else a[j];
      assert c[j] == if RestampedBy(b, j, owner, ids2) then b[j].(selectedAt := Some(now)) else b[j];
    }
  }

  /** The contributor's first row for a tweet, and its state, survive a merge step. */
  lemma FindOwnedStable(a: seq<SelectedTweet>, b: seq<SelectedTweet>, owner: Str, id: Str)
    requires id in OwnedIds(a, owner) && |a| <= |b|
    requires forall k :: 0 <= k < |a| ==> SameKeys(a[k], b[k])
    ensures id in OwnedIds(b, owner)
    ensures FindOwned(b, owner, id) == FindOwned(a, owner, id)
    ensures b[FindOwned(a, owner, id)].state == a[FindOwned(a, owner, id)].state
  {
    var i := FindOwned(a, owner, id);
    assert SameKeys(a[i], b[i]);
  }

  lemma StoresTweetStable(a: seq<SelectedTweet>, b: seq<SelectedTweet>, owner: Str, existing: set<Str>, id: Str)
    requires existing <= OwnedIds(a, owner) && |a| <= |b|
    requires forall k :: 0 <= k < |a| ==> SameKeys(a[k], b[k])
    ensures StoresTweet(b, owner, existing, id) == StoresTweet(a, owner, existing, id)
  {
    if id in existing {
      FindOwnedStable(a, b, owner, id);
    }
  }

  /** The tweets a merge of `best` leaves alone: every stored tweet that the
      merge does not store again keeps its counters. */
  predicate KeepsTweets(db: Db, r: Db, owner: Str, existing: set<Str>, best: seq<Tweet>) {
    forall k :: k in db.tweets && !(k in IdsOf(best) && StoresTweet(db.selected, owner, existing, k)) ==>
      k in r.tweets && r.tweets[k] == db.tweets[k]
  }

  /** The tweets a merge of `best` stores: each holds the counters of its last
      occurrence in `best`. */
  predicate StoresLast(db: Db, r: Db, owner: Str, existing: set<Str>, best: seq<Tweet>) {
    forall m :: (0 <= m < |best| && StoresTweet(db.selected, owner, existing, best[m].id)
                 && forall m' :: m < m' < |best| ==> best[m'].id != best[m].id) ==>
      best[m].id in r.tweets && r.tweets[best[m].id] == best[m]
  }

  /** What one merge step decides about the tweets table. */
  ghost predicate TweetStep(db: Db, db1: Db, owner: Str, existing: set<Str>, t: Tweet) {
    && (forall id :: StoresTweet(db1.selected, owner, existing, id) == StoresTweet(db.selected, owner, existing, id))
    && db1.tweets == if StoresTweet(db.selected, owner, existing, t.id) then db.tweets[t.id := t] else db.tweets
  }

  lemma MergeOneTweetStep(db: Db, owner: Str, existing: set<Str>, t: Tweet, now: Time)
    requires existing <= OwnedIds(db.selected, owner)
    ensures TweetStep(db, MergeOne(db, owner, existing, t, now), owner, existing, t)
  {
    var db1 := MergeOne(db, owner, existing, t, now);
    RestampsOnlyKeys(db.selected, db1.selected, owner, {t.id} * existing, now);
    forall id ensures StoresTweet(db1.selected, owner, existing, id) == StoresTweet(db.selected, owner, existing, id) {
      StoresTweetStable(db.selected, db1.selected, owner, existing, id);
    }
  }

  lemma KeepsTweetsStep(db: Db, db1: Db, r: Db, owner: Str, existing: set<Str>, best: seq<Tweet>)
    requires best != [] && TweetStep(db, db1, owner, existing, best[0])
    requires IdsOf(best) == {best[0].id} + IdsOf(best[1..])
    requires KeepsTweets(db1, r, owner, existing, best[1..])
    ensures KeepsTweets(db, r, owner, existing, best)
  {
    forall k | k in db.tweets && !(k in IdsOf(best) && StoresTweet(db.selected, owner, existing, k))
      ensures k in r.tweets && r.tweets[k] == db.tweets[k]
    {
      assert k in db1.tweets && db1.tweets[k] == db.tweets[k];
      assert !(k in IdsOf(best[1..]) && StoresTweet(db1.selected, owner, existing, k));
    }
  }

  /** The first ranked tweet, when it does not come again, keeps the counters its step stored. */
  lemma StoresLastHead(db: Db, db1: Db, r: Db, owner: Str, existing: set<Str>, best: seq<Tweet>)
    requires best != [] && TweetStep(db, db1, owner, existing, best[0])
    requires StoresTweet(db.selected, owner, existing, best[0].id)
    requires forall m' :: 0 < m' < |best| ==> best[m'].id != best[0].id
    requires KeepsTweets(db1, r, owner, existing, best[1..])
    ensures best[0].id in r.tweets && r.tweets[best[0].id] == best[0]
  {
    assert best[0].id !in IdsOf(best[1..]);
    assert best[0].id in db1.tweets && db1.tweets[best[0].id] == best[0];
  }

  /** A later ranked tweet is the last occurrence of its id in the rest of the list too. */
  lemma StoresLastTail(db: Db, db1: Db, r: Db, owner: Str, existing: set<Str>, best: seq<Tweet>, m: nat)
    requires 0 < m < |best| && TweetStep(db, db1, owner, existing, best[0])
    requires StoresTweet(db.selected, owner, existing, best[m].id)
    requires forall m' :: m < m' < |best| ==> best[m'].id != best[m].id
    requires StoresLast(db1, r, owner, existing, best[1..])
    ensures best[m].id in r.tweets && r.tweets[best[m].id] == best[m]
  {
    var rest := best[1..];
    assert rest[m - 1] == best[m];
    forall m' | m - 1 < m' < |rest| ensures rest[m'].id != rest[m - 1].id {
      assert rest[m'] == best[m' + 1];
    }
  }

  lemma StoresLastStep(db: Db, db1: Db, r: Db, owner: Str, existing: set<Str>, best: seq<Tweet>)
    requires best != [] && TweetStep(db, db1, owner, existing, best[0])
    requires KeepsTweets(db1, r, owner, existing, best[1..]) && StoresLast(db1, r, owner, existing, best[1..])
    ensures StoresLast(db, r, owner, existing, best)
  {
    forall m | (0 <= m < |best| && StoresTweet(db.selected, owner, existing, best[m].id)
                && forall m' :: m < m' < |best| ==> best[m'].id != best[m].id)
      ensures best[m].id in r.tweets && r.tweets[best[m].id] == best[m]
    {
      if m == 0 {
        StoresLastHead(db, db1, r, owner, existing, best);
      } else {
        StoresLastTail(db, db1, r, owner, existing, best, m);
      }
    }
  }

  lemma {:induction false} OwnedIdsAppend(rows: seq<SelectedTweet>, s: SelectedTweet, owner: Str)
    ensures OwnedIds(rows + [s], owner) == OwnedIds(rows, owner) + (if s.owner == owner then {s.tweetId} else {})
  {
    var r := rows + [s];
    forall x | x in OwnedIds(r, owner)
      ensures x in OwnedIds(rows, owner) + (if s.owner == owner then {s.tweetId} else {})
    {
      var i :| 0 <= i < |r| && r[i].owner == owner && r[i].tweetId == x;
      if i < |rows| {
        assert rows[i] == r[i];
      }
    }
    forall x | x in OwnedIds(rows, owner)
      ensures x in OwnedIds(r, owner)
    {
      var i :| 0 <= i < |rows| && rows[i].owner == owner && rows[i].tweetId == x;
      assert r[i] == rows[i];
    }
    if s.owner == owner {
      assert r[|rows|] == s;
    }
  }

  lemma {:induction false} OwnedIdsRestamp(rows: seq<SelectedTweet>, i: nat, now: Time, owner: Str)
    requires i < |rows|
    ensures OwnedIds(rows[i := rows[i].(selectedAt := Some(now))], owner) == OwnedIds(rows, owner)
  {
    var r := rows[i := rows[i].(selectedAt := Some(now))];
    forall x | x in OwnedIds(r, owner)
      ensures x in OwnedIds(rows, owner)
    {
      var k :| 0 <= k < |r| && r[k].owner == owner && r[k].tweetId == x;
      assert rows[k].owner == owner && rows[k].tweetId == x;
    }
    forall x | x in OwnedIds(rows, owner)
      ensures x in OwnedIds(r, owner)
    {
      var k :| 0 <= k < |rows| && rows[k].owner == owner && rows[k].tweetId == x;
      assert r[k].owner == owner && r[k].tweetId == x;
    }
  }

  /** One ranked tweet: re-stamp the contributor's row while it is `Unchecked`
      (and store the fresh counters), leave a checked row alone, or add a new row. */
  function MergeOne(db: Db, owner: Str, existing: set<Str>, t: Tweet, now: Time): (r: Db)
    requires existing <= OwnedIds(db.selected, owner)
    ensures r.users == db.users && r.contributors == db.contributors
    ensures OwnedIds(r.selected, owner) == OwnedIds(db.selected, owner) + {t.id}
    ensures |db.selected| <= |r.selected| <= |db.selected| + 1
    ensures forall i :: 0 <= i < |db.selected| ==> Refreshed(db.selected[i], r.selected[i], now)
    ensures t.id in existing ==> |r.selected| == |db.selected|
    ensures t.id !in existing ==> r.selected == db.selected + [NewSelection(t, owner, now)]
    ensures db.tweets.Keys <= r.tweets.Keys <= db.tweets.Keys + {t.id}
    ensures RestampsOnly(db.selected, r.selected, owner, {t.id} * existing, now)
    ensures r.tweets == if StoresTweet(db.selected, owner, existing, t.id) then db.tweets[t.id := t] else db.tweets
  {
    if t.id in existing then
      var i := FindOwned(db.selected, owner, t.id);
      RestampFirst(db.selected, owner, t.id, now);
      assert {t.id} * existing == {t.id};
      if db.selected[i].state == Unchecked then
        OwnedIdsRestamp(db.selected, i, now, owner);
        db.(selected := db.selected[i := db.selected[i].(selectedAt := Some(now))], tweets := db.tweets[t.id := t])
      else
        db
    else
      OwnedIdsAppend(db.selected, NewSelection(t, owner, now), owner);
      assert {t.id} * existing == {};
      db.(selected := db.selected + [NewSelection(t, owner, now)], tweets := db.tweets[t.id := t])
  }

  /** How a merge changes the selected-tweet rows: every old row untouched or
      re-stamped while `Unchecked`, and every appended row a fresh `Unchecked`
      selection, stamped `now`, of `owner` for one of the tweet ids `added`. */
  predicate Extends(before: seq<SelectedTweet>, after: seq<SelectedTweet>, owner: Str, added: set<Str>, now: Time) {
    && |before| <= |after|
    && (forall i :: 0 <= i < |before| ==> Refreshed(before[i], after[i], now))
    && (forall i :: |before| <= i < |after| ==>
          after[i].state == Unchecked && after[i].selectedAt == Some(now)
          && after[i].owner == owner && after[i].tweetId in added)
  }

  lemma {:induction false} ExtendsTransitive(a: seq<SelectedTweet>, b: seq<SelectedTweet>, c: seq<SelectedTweet>,
                                             owner: Str, added1: set<Str>, added2: set<Str>, now: Time)
    requires Extends(a, b, owner, added1, now) && Extends(b, c, owner, added2, now)
    ensures Extends(a, c, owner, added1 + added2, now)
  {
    forall i | 0 <= i < |a|
      ensures Refreshed(a[i], c[i], now)
    {
      assert Refreshed(a[i], b[i], now);
      assert Refreshed(b[i], c[i], now);
    }
    forall i | |a| <= i < |c|
      ensures c[i].state == Unchecked && c[i].selectedAt == Some(now) && c[i].owner == owner
        && c[i].tweetId in added1 + added2
    {
      if i < |b| {
        assert Refreshed(b[i], c[i], now);
      }
    }
  }

  /** The loop over the ranked tweets, against the snapshot `existing` of the
      contributor's tweet ids taken before the loop. */
  function Merge(db: Db, owner: Str, existing: set<Str>, best: seq<Tweet>, now: Time): (r: Db)
    requires existing <= OwnedIds(db.selected, owner)
    ensures r.users == db.users && r.contributors == db.contributors
    ensures OwnedIds(r.selected, owner) == OwnedIds(db.selected, owner) + IdsOf(best)
    ensures Extends(db.selected, r.selected, owner, IdsOf(best) - existing, now)
    ensures IdsOf(best) <= existing ==> |r.selected| == |db.selected|
    ensures db.tweets.Keys <= r.tweets.Keys <= db.tweets.Keys + IdsOf(best)
    decreases |best|
  {
    if best == [] then
      db
    else
      var db1 := MergeOne(db, owner, existing, best[0], now);
      var r := Merge(db1, owner, existing, best[1..], now);
      IdsOfCons(best);
      MergeOneExtends(db, owner, existing, best[0], now);
      ExtendsTransitive(db.selected, db1.selected, r.selected, owner,
                        {best[0].id} - existing, IdsOf(best[1..]) - existing, now);
      r
  }

  /** The old rows a merge changes are exactly the contributor's first rows
      for the ranked tweets it already had, while still `Unchecked`; each of
      them gets `SelectedAt = now`. */
  lemma {:induction false} MergeRestamps(db: Db, owner: Str, existing: set<Str>, best: seq<Tweet>, now: Time)
    requires existing <= OwnedIds(db.selected, owner)
    ensures RestampsOnly(db.selected, Merge(db, owner, existing, best, now).selected, owner, IdsOf(best) * existing, now)
    decreases |best|
  {
    if best != [] {
      var db1 := MergeOne(db, owner, existing, best[0], now);
      var r := Merge(db1, owner, existing, best[1..], now);
      assert r == Merge(db, owner, existing, best, now);
      MergeRestamps(db1, owner, existing, best[1..], now);
      RestampsCompose(db.selected, db1.selected, r.selected, owner,
                      {best[0].id} * existing, IdsOf(best[1..]) * existing, now);
      IdsOfCons(best);
      assert IdsOf(best) * existing == {best[0].id} * existing + IdsOf(best[1..]) * existing;
    } else {
      assert IdsOf(best) == {};
    }
  }

  /** A merge stores the fresh counters of every ranked tweet that is new to
      the contributor or whose row is still `Unchecked` (the last occurrence
      wins), and keeps every other tweet as it was. */
  lemma {:induction false} MergeStoresTweets(db: Db, owner: Str, existing: set<Str>, best: seq<Tweet>, now: Time)
    requires existing <= OwnedIds(db.selected, owner)
    ensures KeepsTweets(db, Merge(db, owner, existing, best, now), owner, existing, best)
    ensures StoresLast(db, Merge(db, owner, existing, best, now), owner, existing, best)
    decreases |best|
  {
    if best != [] {
      var db1 := MergeOne(db, owner, existing, best[0], now);
      var r := Merge(db1, owner, existing, best[1..], now);
      assert r == Merge(db, owner, existing, best, now);
      MergeStoresTweets(db1, owner, existing, best[1..], now);
      MergeOneTweetStep(db, owner, existing, best[0], now);
      IdsOfCons(best);
      KeepsTweetsStep(db, db1, r, owner, existing, best);
      StoresLastStep(db, db1, r, owner, existing, best);
    } else {
      assert IdsOf(best) == {};
    }
  }

  lemma MergeOneExtends(db: Db, owner: Str, existing: set<Str>, t: Tweet, now: Time)
    requires existing <= OwnedIds(db.selected, owner)
    ensures Extends(db.selected, MergeOne(db, owner, existing, t, now).selected, owner, {t.id} - existing, now)
  {
    var after := MergeOne(db, owner, existing, t, now).selected;
    if t.id !in existing {
      assert after[|db.selected|] == NewSelection(t, owner, now);
    }
  }

  lemma IdsOfCons(best: seq<Tweet>)
    requires best != []
    ensures IdsOf(best) == {best[0].id} + IdsOf(best[1..])
  {
    forall x | x in IdsOf(best) ensures x in {best[0].id} + IdsOf(best[1..]) {
      var i :| 0 <= i < |best| && best[i].id == x;
      if i > 0 { assert best[1..][i - 1] == best[i]; }
    }
    forall x | x in IdsOf(best[1..]) ensures x in IdsOf(best) {
      var i :| 0 <= i < |best[1..]| && best[1..][i].id == x;
      assert best[i + 1] == best[1..][i];
    }
  }

  /** Distinct tweet ids in a contributor's rows stay distinct after a merge of distinct-id ranked tweets. */
  lemma {:induction false} MergeKeepsOwnedIdsDistinct(db: Db, owner: Str, best: seq<Tweet>, now: Time)
    requires UniqueTweetIds(db.selected)
    requires forall i, j :: 0 <= i < j < |best| ==> best[i].id != best[j].id
    requires forall i :: 0 <= i < |best| ==> best[i].id in OwnedIds(db.selected, owner) || best[i].id !in TweetIds(db.selected)
    ensures UniqueTweetIds(Merge(db, owner, OwnedIds(db.selected, owner), best, now).selected)
  {
    MergeDistinct(db, owner, OwnedIds(db.selected, owner), best, now);
  }

  function TweetIds(rows: seq<SelectedTweet>): set<Str> {
    set i | 0 <= i < |rows| :: rows[i].tweetId
  }

  lemma {:induction false} MergeDistinct(db: Db, owner: Str, existing: set<Str>, best: seq<Tweet>, now: Time)
    requires existing <= OwnedIds(db.selected, owner)
    requires UniqueTweetIds(db.selected)
    requires forall i, j :: 0 <= i < j < |best| ==> best[i].id != best[j].id
    requires forall i :: 0 <= i < |best| ==> best[i].id in existing || best[i].id !in TweetIds(db.selected)
    ensures UniqueTweetIds(Merge(db, owner, existing, best, now).selected)
    decreases |best|
  {
    if best != [] {
      var t := best[0];
      var db1 := MergeOne(db, owner, existing, t, now);
      assert TweetIds(db1.selected) <= TweetIds(db.selected) + {t.id} by {
        forall x | x in TweetIds(db1.selected) ensures x in TweetIds(db.selected) + {t.id} {
          var k :| 0 <= k < |db1.selected| && db1.selected[k].tweetId == x;
          if k < |db.selected| {
            assert Refreshed(db.selected[k], db1.selected[k], now);
          }
        }
      }
      assert UniqueTweetIds(db1.selected) by {
        forall i, j | 0 <= i < j < |db1.selected|
          ensures db1.selected[i].tweetId != db1.selected[j].tweetId
        {
          assert Refreshed(db.selected[i], db1.selected[i], now);
          if j < |db.selected| {
            assert Refreshed(db.selected[j], db1.selected[j], now);
          } else {
            assert db.selected[i].tweetId in TweetIds(db.selected);
          }
        }
      }
      forall i | 0 <= i < |best[1..]|
        ensures best[1..][i].id in existing || best[1..][i].id !in TweetIds(db1.selected)
      {
        assert best[1..][i] == best[i + 1];
      }
      MergeDistinct(db1, owner, existing, best[1..], now);
    }
  }

  // ---------------------------------------------------------------- contributors

  /** `contributor?.TwitterUser?.screen_name`. */
  function ScreenNameOf(db: Db, c: Contributor): Option<Str> {
    if c.userId in db.users then db.users[c.userId].screenName else None
  }

  datatype CheckError = NoContributors | NullScreenName

  /** `CheckTweets`: throws before touching anything when the screen name is null;
      otherwise stamps `LastUpdate` with `now` whatever the fetch gave, and merges
      the five best tweets when the fetch returned at least one tweet. */
  function CheckTweets(db: Db, ci: nat, fetched: Option<seq<Tweet>>, now: Time): (r: Result<Db, CheckError>)
    requires ci < |db.contributors|
    ensures r.Failure? <==> ScreenNameOf(db, db.contributors[ci]).None?
    ensures r.Success? ==> r.value.users == db.users
    ensures r.Success? ==> r.value.contributors == db.contributors[ci := db.contributors[ci].(lastUpdate := Some(now))]
    ensures r.Success? && (fetched.None? || fetched.value == []) ==>
      r.value.selected == db.selected && r.value.tweets == db.tweets
    ensures r.Success? && fetched.Some? ==>
      OwnedIds(r.value.selected, db.contributors[ci].userId)
        == OwnedIds(db.selected, db.contributors[ci].userId) + IdsOf(Rank(fetched.value))
    ensures r.Success? ==> |db.selected| <= |r.value.selected|
    ensures r.Success? ==> forall i :: 0 <= i < |db.selected| ==> Refreshed(db.selected[i], r.value.selected[i], now)
    ensures r.Success? ==> forall i :: |db.selected| <= i < |r.value.selected| ==>
      r.value.selected[i].state == Unchecked && r.value.selected[i].selectedAt == Some(now)
      && r.value.selected[i].owner == db.contributors[ci].userId
      && r.value.selected[i].tweetId !in OwnedIds(db.selected, db.contributors[ci].userId)
  {
    var c := db.contributors[ci];
    if ScreenNameOf(db, c).None? then
      Failure(NullScreenName)
    else
      var db1 := db.(contributors := db.contributors[ci := c.(lastUpdate := Some(now))]);
      if fetched.Some? && |fetched.value| > 0 then
        Success(Merge(db1, c.userId, OwnedIds(db1.selected, c.userId), Rank(fetched.value), now))
      else
        assert fetched.Some? ==> IdsOf(Rank(fetched.value)) == {};
        Success(db1)
  }

  /** The tweets a check merges: the ranked fetch, or none when nothing came back. */
  function Ranked(fetched: Option<seq<Tweet>>): seq<Tweet> {
    if fetched.Some? then Rank(fetched.value) else []
  }

  /** Restricting the ids to those the contributor already owns changes no
      re-stamping decision: a row the contributor owns names such an id. */
  lemma RestampsOwned(before: seq<SelectedTweet>, after: seq<SelectedTweet>, owner: Str, ids: set<Str>, now: Time)
    requires RestampsOnly(before, after, owner, ids * OwnedIds(before, owner), now)
    ensures RestampsOnly(before, after, owner, ids, now)
  {
    forall j | 0 <= j < |before|
      ensures RestampedBy(before, j, owner, ids * OwnedIds(before, owner)) == RestampedBy(before, j, owner, ids)
    {
      if before[j].owner == owner { assert before[j].tweetId in OwnedIds(before, owner); }
    }
  }

  /** A check re-stamps exactly the contributor's first `Unchecked` row of
      every ranked tweet it already had, stores the fresh counters of every
      ranked tweet that is new or still `Unchecked`, and leaves every other
      row and tweet as it was. */
  lemma CheckTweetsRefreshes(db: Db, ci: nat, fetched: Option<seq<Tweet>>, now: Time)
    requires ci < |db.contributors|
    requires CheckTweets(db, ci, fetched, now).Success?
    ensures var r := CheckTweets(db, ci, fetched, now).value;
      var owner := db.contributors[ci].userId;
      && RestampsOnly(db.selected, r.selected, owner, IdsOf(Ranked(fetched)), now)
      && KeepsTweets(db, r, owner, OwnedIds(db.selected, owner), Ranked(fetched))
      && StoresLast(db, r, owner, OwnedIds(db.selected, owner), Ranked(fetched))
  {
    var c := db.contributors[ci];
    var db1 := db.(contributors := db.contributors[ci := c.(lastUpdate := Some(now))]);
    var existing := OwnedIds(db.selected, c.userId);
    var best := Ranked(fetched);
    if fetched.Some? && |fetched.value| > 0 {
      MergeRestamps(db1, c.userId, existing, best, now);
      RestampsOwned(db.selected, CheckTweets(db, ci, fetched, now).value.selected, c.userId, IdsOf(best), now);
      MergeStoresTweets(db1, c.userId, existing, best, now);
    } else {
      assert IdsOf(best) == {};
    }
  }

  /** Checking the same fetch twice adds nothing the second time. */
  lemma CheckTweetsTwiceAddsNothing(db: Db, ci: nat, fetched: Option<seq<Tweet>>, now: Time, later: Time)
    requires ci < |db.contributors|
    requires CheckTweets(db, ci, fetched, now).Success?
    ensures var db1 := CheckTweets(db, ci, fetched, now).value;
      && CheckTweets(db1, ci, fetched, later).Success?
      && |CheckTweets(db1, ci, fetched, later).value.selected| == |db1.selected|
      && OwnedIds(CheckTweets(db1, ci, fetched, later).value.selected, db.contributors[ci].userId)
         == OwnedIds(db1.selected, db.contributors[ci].userId)
  {
    var db1 := CheckTweets(db, ci, fetched, now).value;
    var owner := db.contributors[ci].userId;
    assert db1.contributors[ci].userId == owner;
    assert ScreenNameOf(db1, db1.contributors[ci]) == ScreenNameOf(db, db.contributors[ci]);
    if fetched.Some? && |fetched.value| > 0 {
      var best := Rank(fetched.value);
      var db2 := db1.(contributors := db1.contributors[ci := db1.contributors[ci].(lastUpdate := Some(later))]);
      assert IdsOf(best) <= OwnedIds(db2.selected, owner);
    }
  }

  /** The key of `OrderBy(x => x.LastUpdate)`: a null date sorts first. */
  function UpdateKey(c: Contributor): int {
    match c.lastUpdate
    case None => -1
    case Some(t) => t
  }

  /** `OrderBy(x => x.LastUpdate).First()`: the contributor checked longest ago,
      a never-checked one first; no contributor is an error. */
  function NextContributor(cs: seq<Contributor>): (r: Option<nat>)
    ensures r.Some? <==> |cs| > 0
    ensures r.Some? ==> r.value < |cs|
    ensures r.Some? ==> forall j :: 0 <= j < |cs| ==> UpdateKey(cs[r.value]) <= UpdateKey(cs[j])
    ensures r.Some? && cs[r.value].lastUpdate.Some? ==> forall j :: 0 <= j < |cs| ==> cs[j].lastUpdate.Some?
  {
    if cs == [] then None else Some(Sorting.FirstMin(cs, UpdateKey))
  }

  /** `CheckNextContributor`: the picked contributor and the database after its check.
      A contributor whose user has no screen name makes every round fail without
      stamping it, so it stays first in line. */
  function CheckNext(db: Db, fetched: Option<seq<Tweet>>, now: Time): (r: Result<(nat, Db), CheckError>)
    ensures r.Failure? <==> (|db.contributors| == 0
      || ScreenNameOf(db, db.contributors[NextContributor(db.contributors).value]).None?)
    ensures r.Success? ==> r.value.0 == NextContributor(db.contributors).value
    ensures r.Success? ==> r.value.0 < |r.value.1.contributors|
    ensures r.Success? ==> r.value.1.contributors[r.value.0].lastUpdate == Some(now)
  {
    match NextContributor(db.contributors)
    case None => Failure(NoContributors)
    case Some(ci) =>
      var after :- CheckTweets(db, ci, fetched, now);
      Success((ci, after))
  }

  /** With the clock past every stamp, the contributor just checked is not picked
      again while there are others: the rounds go through the contributors in turn. */
  lemma NextSkipsJustChecked(db: Db, fetched: Option<seq<Tweet>>, now: Time)
    requires CheckNext(db, fetched, now).Success?
    requires |db.contributors| > 1
    requires forall j :: 0 <= j < |db.contributors| ==> UpdateKey(db.contributors[j]) < now
    ensures NextContributor(CheckNext(db, fetched, now).value.1.contributors).value
         != CheckNext(db, fetched, now).value.0
  {
    var (ci, after) := CheckNext(db, fetched, now).value;
    var cs := after.contributors;
    assert cs == db.contributors[ci := db.contributors[ci].(lastUpdate := Some(now))];
    var other := if ci == 0 then 1 else 0;
    assert UpdateKey(cs[other]) < now == UpdateKey(cs[ci]);
  }

  // ---------------------------------------------------------------- seeding

  function UserIds(users: seq<TwitterUser>): set<Str> {
    set i | 0 <= i < |users| :: users[i].id
  }

  function ContributorIds(cs: seq<Contributor>): set<Str> {
    set i | 0 <= i < |cs| :: cs[i].userId
  }

  /** Contributors enrolled in one import: one per new user id, none twice, all stamped `now`. */
  predicate Enrolled(added: seq<Contributor>, ids: set<Str>, now: Time) {
    && ContributorIds(added) == ids
    && (forall i :: 0 <= i < |added| ==> added[i].lastUpdate == Some(now))
    && (forall i, j :: 0 <= i < j < |added| ==> added[i].userId != added[j].userId)
  }

  lemma {:induction false} EnrolledCons(c: Contributor, rest: seq<Contributor>, ids: set<Str>, now: Time)
    requires Enrolled(rest, ids, now) && c.userId !in ids && c.lastUpdate == Some(now)
    ensures Enrolled([c] + rest, {c.userId} + ids, now)
  {
    var a := [c] + rest;
    forall x | x in ContributorIds(a) ensures x in {c.userId} + ids {
      var i :| 0 <= i < |a| && a[i].userId == x;
      if i > 0 { assert a[i] == rest[i - 1]; }
    }
    forall x | x in {c.userId} + ids ensures x in ContributorIds(a) {
      if x == c.userId {
        assert a[0].userId == x;
      } else {
        var i :| 0 <= i < |rest| && rest[i].userId == x;
        assert a[i + 1] == rest[i];
      }
    }
    forall i, j | 0 <= i < j < |a| ensures a[i].userId != a[j].userId {
      assert a[j] == rest[j - 1];
      if i > 0 {
        assert a[i] == rest[i - 1];
      } else {
        assert rest[j - 1].userId in ContributorIds(rest);
      }
    }
  }

  lemma UserIdsCons(users: seq<TwitterUser>)
    requires users != []
    ensures UserIds(users) == {users[0].id} + UserIds(users[1..])
  {
    forall x | x in UserIds(users) ensures x in {users[0].id} + UserIds(users[1..]) {
      var i :| 0 <= i < |users| && users[i].id == x;
      if i > 0 { assert users[1..][i - 1] == users[i]; }
    }
    forall x | x in UserIds(users[1..]) ensures x in UserIds(users) {
      var i :| 0 <= i < |users[1..]| && users[1..][i].id == x;
      assert users[i + 1] == users[1..][i];
    }
  }

  /** `users[i]` is the first user of the batch with id `k`. */
  predicate FirstOfId(users: seq<TwitterUser>, i: int, k: Str) {
    0 <= i < |users| && users[i].id == k && forall j :: 0 <= j < i ==> users[j].id != k
  }

  /** Every user that `r` has and `db` lacks is the batch's first user with that id. */
  ghost predicate StoresFirstOfId(db: Db, r: Db, users: seq<TwitterUser>) {
    forall k :: k in r.users && k !in db.users ==> exists i :: FirstOfId(users, i, k) && r.users[k] == users[i]
  }

  /** `AddTweetUsersToDB`: adds each user whose id is not yet stored (earlier
      additions in the same batch count as stored) and one contributor for it,
      stamped with `now`. */
  function AddTweetUsers(db: Db, users: seq<TwitterUser>, now: Time): (r: Db)
    ensures r.selected == db.selected && r.tweets == db.tweets
    ensures r.users.Keys == db.users.Keys + UserIds(users)
    ensures forall k :: k in db.users ==> r.users[k] == db.users[k]
    ensures |db.contributors| <= |r.contributors| && r.contributors[..|db.contributors|] == db.contributors
    ensures Enrolled(r.contributors[|db.contributors|..], UserIds(users) - db.users.Keys, now)
    ensures StoresFirstOfId(db, r, users)
    decreases |users|
  {
    if users == [] then
      assert db.contributors[|db.contributors|..] == [];
      db
    else
      var u := users[0];
      var db1 := if u.id in db.users then db
        else db.(users := db.users[u.id := u], contributors := db.contributors + [Contributor(u.id, Some(now))]);
      var r := AddTweetUsers(db1, users[1..], now);
      UserIdsCons(users);
      AddTweetUsersStep(db, db1, r, u, users[1..], now);
      StoresFirstOfIdStep(db, db1, r, users);
      r
  }

  lemma StoresFirstOfIdStep(db: Db, db1: Db, r: Db, users: seq<TwitterUser>)
    requires users != []
    requires db1.users == if users[0].id in db.users then db.users else db.users[users[0].id := users[0]]
    requires forall k :: k in db1.users ==> k in r.users && r.users[k] == db1.users[k]
    requires StoresFirstOfId(db1, r, users[1..])
    ensures StoresFirstOfId(db, r, users)
  {
    forall k | k in r.users && k !in db.users
      ensures exists i :: FirstOfId(users, i, k) && r.users[k] == users[i]
    {
      if k == users[0].id {
        assert FirstOfId(users, 0, k);
      } else {
        var i :| FirstOfId(users[1..], i, k) && r.users[k] == users[1..][i];
        assert FirstOfId(users, i + 1, k);
      }
    }
  }

  lemma {:induction false} AddTweetUsersStep(db: Db, db1: Db, r: Db, u: TwitterUser, rest: seq<TwitterUser>, now: Time)
    requires db1 == if u.id in db.users then db
      else db.(users := db.users[u.id := u], contributors := db.contributors + [Contributor(u.id, Some(now))])
    requires |db1.contributors| <= |r.contributors| && r.contributors[..|db1.contributors|] == db1.contributors
    requires Enrolled(r.contributors[|db1.contributors|..], UserIds(rest) - db1.users.Keys, now)
    ensures r.contributors[..|db.contributors|] == db.contributors
    ensures Enrolled(r.contributors[|db.contributors|..], ({u.id} + UserIds(rest)) - db.users.Keys, now)
  {
    var n := |db.contributors|;
    if u.id in db.users {
      assert ({u.id} + UserIds(rest)) - db.users.Keys == UserIds(rest) - db1.users.Keys;
    } else {
      var c := Contributor(u.id, Some(now));
      assert r.contributors[..n] == db.contributors by {
        assert r.contributors[..n] == r.contributors[..n + 1][..n];
      }
      assert r.contributors[n..] == [c] + r.contributors[n + 1..] by {
        assert r.contributors[n] == db1.contributors[n];
      }
      EnrolledCons(c, r.contributors[n + 1..], UserIds(rest) - db1.users.Keys, now);
      assert ({u.id} + UserIds(rest)) - db.users.Keys == {u.id} + (UserIds(rest) - db1.users.Keys);
    }
  }

  /** Importing the same users again changes nothing. */
  lemma AddTweetUsersIdempotent(db: Db, users: seq<TwitterUser>, now: Time, later: Time)
    ensures var once := AddTweetUsers(db, users, now);
      AddTweetUsers(once, users, later) == once
  {
    KnownUsersSkipped(AddTweetUsers(db, users, now), users, later);
  }

  lemma {:induction false} KnownUsersSkipped(db: Db, users: seq<TwitterUser>, now: Time)
    requires UserIds(users) <= db.users.Keys
    ensures AddTweetUsers(db, users, now) == db
    decreases |users|
  {
    if users != [] {
      UserIdsCons(users);
      KnownUsersSkipped(db, users[1..], now);
    }
  }

  /** The screen names seeded on first start, as written: all but the first
      end in the invisible right-to-left mark U+200F. */
  const SeedNameTextsAsWritten: seq<string> := [
    "DiogoBataguas", "DiogoBeja\U{200F}", "bifeahcasa\U{200F}", "danielcarapeto\U{200F}",
    "TiagoCCaetano\U{200F}", "ogajo_\U{200F}", "FernandaFreitas\U{200F}", "OPauloAlmeida\U{200F}",
    "JoannaAzevedo\U{200F}", "RitaDaNova\U{200F}", "raminhoseffect\U{200F}", "catarinamatos\U{200F}",
    "hugosousacomedy\U{200F}", "guilhermefon\U{200F}", "RuiHCruz\U{200F}", "cvazmarques\U{200F}",
    "RuiSinelCordes\U{200F}", "pmnribeiro\U{200F}", "fhf\U{200F}", "Manzarra\U{200F}",
    "SalvasMartinha\U{200F}", "O_Unas\U{200F}", "Corpodormente\U{200F}", "fernandoalvim\U{200F}",
    "JoseDePina\U{200F}"]

  /** The same names without the mark. */
  const SeedNameTexts: seq<string> := [
    "DiogoBataguas", "DiogoBeja", "bifeahcasa", "danielcarapeto",
    "TiagoCCaetano", "ogajo_", "FernandaFreitas", "OPauloAlmeida",
    "JoannaAzevedo", "RitaDaNova", "raminhoseffect", "catarinamatos",
    "hugosousacomedy", "guilhermefon", "RuiHCruz", "cvazmarques",
    "RuiSinelCordes", "pmnribeiro", "fhf", "Manzarra",
    "SalvasMartinha", "O_Unas", "Corpodormente", "fernandoalvim",
    "JoseDePina"]

  const SeedNamesAsWritten: seq<Str> := LitAll(SeedNameTextsAsWritten)
  const SeedNames: seq<Str> := LitAll(SeedNameTexts)

  /** A Twitter screen name: 1 to 15 ASCII letters, digits or '_'. */
  predicate IsScreenNameUnit(c: CodeUnit) {
    (0x41 <= c <= 0x5A) || (0x61 <= c <= 0x7A) || (0x30 <= c <= 0x39) || c == 0x5F
  }

  predicate ValidScreenName(s: Str) {
    1 <= |s| <= 15 && forall i :: 0 <= i < |s| ==> IsScreenNameUnit(s[i])
  }

  predicate IsScreenNameChar(c: char) {
    ('A' <= c <= 'Z') || ('a' <= c <= 'z') || ('0' <= c <= '9') || c == '_'
  }

  lemma LitScreenName(s: string)
    requires ScreenNameText(s)
    ensures ValidScreenName(Lit(s))
  {
  }

  /** A name of screen-name characters, as a literal of the program. */
  predicate ScreenNameText(s: string) {
    1 <= |s| <= 15 && forall k :: 0 <= k < |s| ==> IsScreenNameChar(s[k])
  }

  // The table is checked five names at a time, which keeps each proof small.
  lemma SeedNameTexts0To4()
    ensures forall i :: 0 <= i < 5 ==> ScreenNameText(SeedNameTexts[i])
  {
  }

  lemma SeedNameTexts5To9()
    ensures forall i :: 5 <= i < 10 ==> ScreenNameText(SeedNameTexts[i])
  {
  }

  lemma SeedNameTexts10To14()
    ensures forall i :: 10 <= i < 15 ==> ScreenNameText(SeedNameTexts[i])
  {
  }

  lemma SeedNameTexts15To19()
    ensures forall i :: 15 <= i < 20 ==> ScreenNameText(SeedNameTexts[i])
  {
  }

  lemma SeedNameTexts20To24()
    ensures forall i :: 20 <= i < 25 ==> ScreenNameText(SeedNameTexts[i])
  {
  }

  /** Every corrected seed name is a well-formed screen name. */
  lemma SeedNamesAreScreenNames()
    ensures forall i :: 0 <= i < |SeedNames| ==> ValidScreenName(SeedNames[i])
  {
    SeedNameTexts0To4();
    SeedNameTexts5To9();
    SeedNameTexts10To14();
    SeedNameTexts15To19();
    SeedNameTexts20To24();
    forall i | 0 <= i < |SeedNames|
      ensures ValidScreenName(SeedNames[i])
    {
      LitScreenName(SeedNameTexts[i]);
    }
  }

  /** Only the first seed name as written is a screen name: the second already
      carries the mark after the name. */
  lemma SeedNamesAsWrittenCarryMark()
    ensures ValidScreenName(SeedNamesAsWritten[0])
    ensures !ValidScreenName(SeedNamesAsWritten[1])
    ensures SeedNamesAsWritten[1] == SeedNames[1] + [0x200F]
  {
    SeedNamesAreScreenNames();
    assert SeedNamesAsWritten[0] == SeedNames[0];
    var w := SeedNameTextsAsWritten[1];
    assert |w| == 10 && w[9] == '\U{200F}' && w[..9] == SeedNameTexts[1];
    assert SeedNamesAsWritten[1][9] == 0x200F;
  }

  /** The user lookup `AddSeedContributors` issues: one request for all seed
      names, as written. */
  const SeedLookupUrl: Str := OAuth.LookupUrl(Lit("screen_name"), SeedNamesAsWritten)

  /** The lookup sends the names as written, so the mark reaches the request. */
  lemma SeedLookupCarriesMark()
    ensures (0x200F as CodeUnit) in SeedLookupUrl
  {
    SeedNamesAsWrittenCarryMark();
    assert SeedNamesAsWritten[1][|SeedNames[1]|] == 0x200F;
    OAuth.LookupUrlContains(Lit("screen_name"), SeedNamesAsWritten, 1, 0x200F);
  }

  /** `AddSeedContributors`: a no-op once any contributor exists or when the
      lookup fails; otherwise the looked-up users are imported. */
  function AddSeedContributors(db: Db, fetched: Option<seq<TwitterUser>>, now: Time): (r: Db)
    ensures |db.contributors| > 0 || fetched.None? ==> r == db
    ensures |db.contributors| == 0 && fetched.Some? ==>
      && r.users.Keys == db.users.Keys + UserIds(fetched.value)
      && Enrolled(r.contributors, UserIds(fetched.value) - db.users.Keys, now)
    ensures r.selected == db.selected && r.tweets == db.tweets
    ensures forall k :: k in db.users ==> k in r.users && r.users[k] == db.users[k]
    ensures StoresFirstOfId(db, r, if fetched.Some? then fetched.value else [])
  {
    if |db.contributors| > 0 then db
    else match fetched
      case None => db
      case Some(users) =>
        var r := AddTweetUsers(db, users, now);
        assert r.contributors[0..] == r.contributors;
        r
  }
}
