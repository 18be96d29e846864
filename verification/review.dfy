/** `AppService`: the review pages of selected tweets. A page holds at most
    eight rows that match a criterion and whose numeric tweet id is below a
    cursor, newest (largest id) first. */
module Review {
  import opened Wrappers
  import opened Text
  import opened Models
  import Sorting

  const TweetsPerRequest: nat := 8

  /** The two filters of the manager pages. */
  datatype Criterion = StateIs(state: PublishingState) | OwnerNamed(screenName: Str)

  /** `x.Contributor.TwitterUser.screen_name`. */
  function OwnerScreenName(db: Db, row: SelectedTweet): Option<Str> {
    if row.owner in db.users then db.users[row.owner].screenName else None
  }

  predicate Selects(db: Db, c: Criterion, row: SelectedTweet) {
    match c
    case StateIs(s) => row.state == s
    case OwnerNamed(n) => OwnerScreenName(db, row) == Some(n)
  }

  /** A matching row whose tweet id `ulong.Parse` rejects makes the query throw. */
  datatype QueryError = UnparsableTweetId(id: Str)

  /** A row together with its tweet id read as a number. */
  type Keyed = (nat, SelectedTweet)

  /** The filter of the query, row by row in table order: the criterion first,
      then `ulong.Parse(TweetId) < bound`, which is evaluated only when the
      criterion holds. */
  function Candidates(db: Db, rows: seq<SelectedTweet>, c: Criterion, bound: nat): (r: Result<seq<Keyed>, QueryError>)
    ensures r.Failure? <==> exists i :: 0 <= i < |rows| && Selects(db, c, rows[i]) && ParseULong(rows[i].tweetId).None?
    ensures r.Success? ==> forall k :: 0 <= k < |r.value| ==>
      r.value[k].1 in rows && Selects(db, c, r.value[k].1)
      && ParseULong(r.value[k].1.tweetId) == Some(r.value[k].0) && r.value[k].0 < bound
    ensures r.Success? ==> forall row ::
      row in rows && Selects(db, c, row) && ParseULong(row.tweetId).Some? && ParseULong(row.tweetId).value < bound
      ==> (ParseULong(row.tweetId).value, row) in r.value
  {
    if rows == [] then Success([])
    else
      var row := rows[0];
      assert forall i :: 1 <= i < |rows| ==> rows[i] == rows[1..][i - 1];
      var rest :- Candidates(db, rows[1..], c, bound);
      if !Selects(db, c, row) then Success(rest)
      else match ParseULong(row.tweetId)
        case None => Failure(UnparsableTweetId(row.tweetId))
        case Some(n) => if n < bound then Success([(n, row)] + rest) else Success(rest)
  }

  predicate NewerOrSame(a: Keyed, b: Keyed) {
    a.0 >= b.0
  }

  lemma NewerOrSameIsTotalPreorder()
    ensures Sorting.TotalPreorder(NewerOrSame)
  {
  }

  /** `OrderByDescending(ulong.Parse(TweetId)).Take(8)` over the candidates. */
  function PageRows(db: Db, c: Criterion, bound: nat): (r: Result<seq<Keyed>, QueryError>)
    ensures r.Success? <==> Candidates(db, db.selected, c, bound).Success?
    ensures r.Success? ==> |r.value| <= TweetsPerRequest
    ensures r.Success? ==> multiset(r.value) <= multiset(Candidates(db, db.selected, c, bound).value)
    ensures r.Success? ==> forall k :: 0 <= k < |r.value| ==>
      r.value[k].1 in db.selected && Selects(db, c, r.value[k].1)
      && ParseULong(r.value[k].1.tweetId) == Some(r.value[k].0) && r.value[k].0 < bound
    ensures r.Success? ==> forall i, j :: 0 <= i < j < |r.value| ==> r.value[i].0 >= r.value[j].0
  {
    var cands :- Candidates(db, db.selected, c, bound);
    var page := NewestFirst(cands);
    Success(page)
  }

  /** The first eight of the candidates sorted newest first (a stable sort). */
  function NewestFirst(cands: seq<Keyed>): (page: seq<Keyed>)
    ensures |page| <= TweetsPerRequest
    ensures multiset(page) <= multiset(cands)
    ensures forall k :: 0 <= k < |page| ==> page[k] in cands
    ensures forall i, j :: 0 <= i < j < |page| ==> page[i].0 >= page[j].0
  {
    NewerOrSameIsTotalPreorder();
    var sorted := Sorting.Sort(cands, NewerOrSame);
    Sorting.SortSorted(cands, NewerOrSame);
    var n := if |sorted| <= TweetsPerRequest then |sorted| else TweetsPerRequest;
    Sorting.PrefixOfPermutation(cands, sorted, n);
    sorted[..n]
  }

  /** `TweetIdAndStateVM`: the id and the state as its decimal number. */
  datatype View = View(tweetId: Str, state: Str)

  function ViewOf(row: SelectedTweet): (v: View)
    ensures v.tweetId == row.tweetId
    ensures ParseInt32(v.state) == Some(row.state as int)
  {
    ParseInt32OfFormatInt(row.state as int);
    View(row.tweetId, FormatInt(row.state as int))
  }

  function Views(page: seq<Keyed>): (r: seq<View>)
    ensures |r| == |page| && forall k :: 0 <= k < |r| ==> r[k] == ViewOf(page[k].1)
  {
    seq(|page|, k requires 0 <= k < |page| => ViewOf(page[k].1))
  }

  /** `GetSelectedTweetsByState` / `GetSelectedTweetsByScreenName`. */
  function Query(db: Db, c: Criterion, bound: nat): (r: Result<seq<View>, QueryError>)
    ensures r.Success? <==> PageRows(db, c, bound).Success?
    ensures r.Success? ==> r.value == Views(PageRows(db, c, bound).value)
    ensures r.Success? ==> |r.value| <= TweetsPerRequest
  {
    var page :- PageRows(db, c, bound);
    Success(Views(page))
  }

  /** The page holds the newest matches: a matching row below the cursor that
      is not on the page lost to eight rows with ids at least as large. */
  lemma PageIsNewest(db: Db, c: Criterion, bound: nat, row: SelectedTweet)
    requires PageRows(db, c, bound).Success?
    requires row in db.selected && Selects(db, c, row)
    requires ParseULong(row.tweetId).Some? && ParseULong(row.tweetId).value < bound
    requires (ParseULong(row.tweetId).value, row) !in PageRows(db, c, bound).value
    ensures |PageRows(db, c, bound).value| == TweetsPerRequest
    ensures forall k :: 0 <= k < TweetsPerRequest ==> PageRows(db, c, bound).value[k].0 >= ParseULong(row.tweetId).value
  {
    var cands := Candidates(db, db.selected, c, bound).value;
    var x := (ParseULong(row.tweetId).value, row);
    assert x in cands;
    assert PageRows(db, c, bound).value == NewestFirst(cands);
    LeftOutOfNewestFirst(cands, x);
  }

  /** A candidate the page leaves out lost to a full page of ids at least as large. */
  lemma LeftOutOfNewestFirst(cands: seq<Keyed>, x: Keyed)
    requires x in cands && x !in NewestFirst(cands)
    ensures |NewestFirst(cands)| == TweetsPerRequest
    ensures forall k :: 0 <= k < TweetsPerRequest ==> NewestFirst(cands)[k].0 >= x.0
  {
    NewerOrSameIsTotalPreorder();
    var sorted := Sorting.Sort(cands, NewerOrSame);
    Sorting.SortSorted(cands, NewerOrSame);
    var n := if |sorted| <= TweetsPerRequest then |sorted| else TweetsPerRequest;
    var page := NewestFirst(cands);
    assert page == sorted[..n];
    assert x in multiset(sorted);
    var m :| 0 <= m < |sorted| && sorted[m] == x;
    assert n <= m;
    forall k | 0 <= k < n
      ensures page[k].0 >= x.0
    {
      assert NewerOrSame(sorted[k], sorted[m]);
    }
  }

  /** Numeric tweet ids that differ from row to row. */
  predicate DistinctNumericIds(rows: seq<SelectedTweet>) {
    forall i, j :: 0 <= i < j < |rows| && ParseULong(rows[i].tweetId).Some? && ParseULong(rows[j].tweetId).Some?
      ==> ParseULong(rows[i].tweetId) != ParseULong(rows[j].tweetId)
  }

  lemma {:induction false} CandidatesOnce(db: Db, rows: seq<SelectedTweet>, c: Criterion, bound: nat, x: Keyed)
    requires DistinctNumericIds(rows)
    requires Candidates(db, rows, c, bound).Success?
    ensures multiset(Candidates(db, rows, c, bound).value)[x] <= 1
  {
    if rows != [] {
      DistinctNumericIdsTail(rows);
      CandidatesOnce(db, rows[1..], c, bound, x);
      var rest := Candidates(db, rows[1..], c, bound).value;
      if Selects(db, c, rows[0]) && ParseULong(rows[0].tweetId).value < bound {
        var head := (ParseULong(rows[0].tweetId).value, rows[0]);
        HeadNotLater(db, rows, c, bound);
        assert Candidates(db, rows, c, bound).value == [head] + rest;
      }
    }
  }

  /** With distinct ids, the first row is not among the candidates of the later rows. */
  lemma HeadNotLater(db: Db, rows: seq<SelectedTweet>, c: Criterion, bound: nat)
    requires rows != [] && DistinctNumericIds(rows)
    requires Candidates(db, rows[1..], c, bound).Success? && ParseULong(rows[0].tweetId).Some?
    ensures (ParseULong(rows[0].tweetId).value, rows[0]) !in Candidates(db, rows[1..], c, bound).value
  {
    var rest := Candidates(db, rows[1..], c, bound).value;
    forall k | 0 <= k < |rest|
      ensures rest[k].1 != rows[0]
    {
      var j :| 0 <= j < |rows[1..]| && rows[1..][j] == rest[k].1;
      assert rows[j + 1] == rest[k].1;
    }
  }

  lemma DistinctNumericIdsTail(rows: seq<SelectedTweet>)
    requires rows != [] && DistinctNumericIds(rows)
    ensures DistinctNumericIds(rows[1..])
  {
    forall i, j | 0 <= i < j < |rows[1..]| ensures
      ParseULong(rows[1..][i].tweetId).Some? && ParseULong(rows[1..][j].tweetId).Some?
      ==> ParseULong(rows[1..][i].tweetId) != ParseULong(rows[1..][j].tweetId)
    {
      assert rows[1..][i] == rows[i + 1] && rows[1..][j] == rows[j + 1];
    }
  }

  lemma KeysDiffer(rows: seq<SelectedTweet>, page: seq<Keyed>, i: nat, j: nat)
    requires DistinctNumericIds(rows)
    requires 0 <= i < j < |page|
    requires forall k :: 0 <= k < |page| ==> page[k].1 in rows && ParseULong(page[k].1.tweetId) == Some(page[k].0)
    requires multiset(page)[page[i]] <= 1
    ensures page[i].0 != page[j].0
  {
    if page[i] == page[j] {
      Sorting.MultiplicityOfRepeat(page, i, j);
    } else {
      var p :| 0 <= p < |rows| && rows[p] == page[i].1;
      var q :| 0 <= q < |rows| && rows[q] == page[j].1;
      if p < q {
        assert ParseULong(rows[p].tweetId) != ParseULong(rows[q].tweetId);
      } else if q < p {
        assert ParseULong(rows[q].tweetId) != ParseULong(rows[p].tweetId);
      }
    }
  }

  /** When no two rows share a numeric id, the page is strictly newest first. */
  lemma PageStrictlyDescending(db: Db, c: Criterion, bound: nat)
    requires DistinctNumericIds(db.selected)
    requires PageRows(db, c, bound).Success?
    ensures var page := PageRows(db, c, bound).value;
      forall i, j :: 0 <= i < j < |page| ==> page[i].0 > page[j].0
  {
    var page := PageRows(db, c, bound).value;
    var cands := Candidates(db, db.selected, c, bound).value;
    assert multiset(page) <= multiset(cands);
    forall i, j | 0 <= i < j < |page|
      ensures page[i].0 > page[j].0
    {
      CandidatesOnce(db, db.selected, c, bound, page[i]);
      KeysDiffer(db.selected, page, i, j);
    }
  }

  /** `ParseOlderThanThis`: the numeric cursor for "older than this tweet".
      No cursor means no bound (`ulong.MaxValue`). A cursor `TryParse` rejects
      reads as 0. A cursor that no selected tweet has as its id is also no bound. */
  function ParseOlderThanThis(db: Db, older: Option<Str>): (r: nat)
    ensures r <= MaxULong
    ensures older.None? ==> r == MaxULong
    ensures r < MaxULong ==> older.Some? && (exists i :: 0 <= i < |db.selected| && db.selected[i].tweetId == older.value)
    ensures r < MaxULong ==> ParseULong(older.value) == Some(r) || (ParseULong(older.value).None? && r == 0)
    ensures older.Some? && ParseULong(older.value).Some? && ParseULong(older.value).value < MaxULong
      && (exists i :: 0 <= i < |db.selected| && db.selected[i].tweetId == older.value)
      ==> r == ParseULong(older.value).value
    ensures older.Some? && ParseULong(older.value).None?
      && (exists i :: 0 <= i < |db.selected| && db.selected[i].tweetId == older.value)
      ==> r == 0
    ensures older.Some? && !(exists i :: 0 <= i < |db.selected| && db.selected[i].tweetId == older.value)
      ==> r == MaxULong
  {
    match older
    case None => MaxULong
    case Some(s) =>
      var n := match ParseULong(s) case Some(v) => v case None => 0;
      if n != MaxULong && !(exists i :: 0 <= i < |db.selected| && db.selected[i].tweetId == s) then MaxULong
      else n
  }

  /** With every stored id numeric, a bounded cursor is the id of a stored row. */
  lemma CursorIsStoredId(db: Db, older: Option<Str>)
    requires forall i :: 0 <= i < |db.selected| ==> ParseULong(db.selected[i].tweetId).Some?
    requires ParseOlderThanThis(db, older) < MaxULong
    ensures exists i :: (0 <= i < |db.selected| && db.selected[i].tweetId == older.value
      && ParseULong(db.selected[i].tweetId) == Some(ParseOlderThanThis(db, older)))
  {
  }
}
