/** `ManagerController`: request validation for the review pages and the
    manager's bulk change of publishing states. */
module Manager {
  import opened Wrappers
  import opened Text
  import opened Models
  import opened Review
  import Scheduler

  /** The longest screen name the page accepts. */
  const MaxScreenNameLength: nat := 50

  /** The outcome of an action: 400, 200 with a page of views, 200 with no
      body, or an exception escaping from the query. */
  datatype Reply = BadRequest | Ok(views: seq<View>) | Updated | Faulted(error: QueryError)

  const UncheckedName: Str := Lit("Unchecked")
  const ApprovedName: Str := Lit("Approved")
  const RejectedName: Str := Lit("Rejected")
  const StandByName: Str := Lit("StandBy")
  const PublishedName: Str := Lit("Published")
  const OldName: Str := Lit("Old")

  /** The member of `PublishingState` named exactly `s`. */
  function StateNamed(s: Str): (r: Option<PublishingState>)
    ensures r.Some? ==> 0 <= r.value <= 5
  {
    if s == UncheckedName then Some(Unchecked)
    else if s == ApprovedName then Some(Approved)
    else if s == RejectedName then Some(Rejected)
    else if s == StandByName then Some(StandBy)
    else if s == PublishedName then Some(Published)
    else if s == OldName then Some(Old)
    else None
  }

  predicate LooksNumeric(s: Str) {
    |s| > 0 && (IsDigit(s[0]) || s[0] == 0x2D || s[0] == 0x2B)
  }

  /** `Enum.TryParse(typeof(PublishingState), s, ...)`: text that starts like a
      number is read as an `int`, any `int` being accepted; other text must be a
      member name, case-sensitively. */
  function ParseState(s: Str): (r: Option<PublishingState>)
    ensures LooksNumeric(s) ==> (r.Some? <==> ParseInt32(s).Some?)
    ensures LooksNumeric(s) && r.Some? ==> r.value as int == ParseInt32(s).value
    ensures !LooksNumeric(s) ==> r == StateNamed(s)
    ensures r.Some? && !LooksNumeric(s) ==> 0 <= r.value <= 5
  {
    if LooksNumeric(s) then
      match ParseInt32(s)
      case Some(v) => Some(v as PublishingState)
      case None => None
    else StateNamed(s)
  }

  /** The decimal text of any `int` parses to the state with that number,
      whether or not the enum names it: `Enum.TryParse` has no range check. */
  lemma ParseStateOfFormatInt(i: int)
    requires MinInt32 <= i <= MaxInt32
    ensures ParseState(FormatInt(i)) == Some(i as PublishingState)
  {
    ParseInt32OfFormatInt(i);
    if i < 0 {
      assert FormatInt(i)[0] == 0x2D;
    } else {
      assert IsDigit(FormatNat(i)[0]);
    }
  }

  /** The number a page shows for a state reads back as that state. */
  lemma ParseStateOfView(row: SelectedTweet)
    ensures ParseState(ViewOf(row).state) == Some(row.state)
  {
    assert ViewOf(row).state == FormatInt(row.state as int);
    ParseStateOfFormatInt(row.state as int);
  }

  lemma NamesStartWithLetters()
    ensures UncheckedName[0] == 0x55 && ApprovedName[0] == 0x41 && RejectedName[0] == 0x52
    ensures StandByName[0] == 0x53 && PublishedName[0] == 0x50 && OldName[0] == 0x4F
  {
  }

  /** Every member name reads back as its member. */
  lemma ParseStateOfName()
    ensures ParseState(UncheckedName) == Some(Unchecked)
    ensures ParseState(ApprovedName) == Some(Approved)
    ensures ParseState(RejectedName) == Some(Rejected)
    ensures ParseState(StandByName) == Some(StandBy)
    ensures ParseState(PublishedName) == Some(Published)
    ensures ParseState(OldName) == Some(Old)
  {
    NamesStartWithLetters();
    assert UncheckedName != ApprovedName && UncheckedName != RejectedName && UncheckedName != StandByName;
    assert ApprovedName != RejectedName && ApprovedName != StandByName;
    assert RejectedName != StandByName;
    assert |PublishedName| == 9 && |OldName| == 3 && |UncheckedName| == 9 && |ApprovedName| == 8;
    assert |RejectedName| == 8 && |StandByName| == 7;
  }

  /** `older` given but not accepted by `ParseOlderThanThis`. */
  predicate InvalidOlder(db: Db, older: Option<Str>) {
    older.Some? && ParseOlderThanThis(db, older) == MaxULong
  }

  function Respond(r: Result<seq<View>, QueryError>): Reply {
    match r
    case Success(v) => Ok(v)
    case Failure(e) => Faulted(e)
  }

  /** `MoreByState`. */
  function MoreByState(db: Db, state: Str, older: Option<Str>): (r: Reply)
    ensures r == BadRequest <==> InvalidOlder(db, older) || ParseState(state).None?
    ensures r.Ok? ==> |r.views| <= TweetsPerRequest
    ensures r.Ok? ==> forall k :: 0 <= k < |r.views| ==> ParseState(r.views[k].state) == ParseState(state)
    ensures r.Ok? ==> forall k :: 0 <= k < |r.views| ==>
      ParseULong(r.views[k].tweetId).Some? && ParseULong(r.views[k].tweetId).value < ParseOlderThanThis(db, older)
    ensures r != BadRequest ==> (ParseState(state).Some?
      && r == Respond(Query(db, StateIs(ParseState(state).value), ParseOlderThanThis(db, older))))
  {
    var bound := ParseOlderThanThis(db, older);
    var ps := ParseState(state);
    if InvalidOlder(db, older) || ps.None? then BadRequest
    else
      var r := Respond(Query(db, StateIs(ps.value), bound));
      assert r.Ok? ==> forall k :: 0 <= k < |r.views| ==> ParseState(r.views[k].state) == ps by {
        if r.Ok? {
          var page := PageRows(db, StateIs(ps.value), bound).value;
          forall k | 0 <= k < |r.views|
            ensures ParseState(r.views[k].state) == ps
          {
            ParseStateOfView(page[k].1);
          }
        }
      }
      r
  }

  /** Some contributor's user has exactly this screen name. */
  predicate KnownScreenName(db: Db, name: Str) {
    exists i :: 0 <= i < |db.contributors| && Scheduler.ScreenNameOf(db, db.contributors[i]) == Some(name)
  }

  /** `MoreByScreenName`. */
  function MoreByScreenName(db: Db, screenName: Option<Str>, older: Option<Str>): (r: Reply)
    ensures r == BadRequest <==> (InvalidOlder(db, older) || screenName.None? || screenName.value == []
      || |screenName.value| > MaxScreenNameLength || !KnownScreenName(db, screenName.value))
    ensures r.Ok? ==> |r.views| <= TweetsPerRequest
    ensures r.Ok? ==> forall k :: 0 <= k < |r.views| ==>
      ParseULong(r.views[k].tweetId).Some? && ParseULong(r.views[k].tweetId).value < ParseOlderThanThis(db, older)
    ensures r.Ok? ==> (screenName.Some?
      && Query(db, OwnerNamed(screenName.value), ParseOlderThanThis(db, older)) == Success(r.views))
    ensures r != BadRequest ==> (screenName.Some?
      && r == Respond(Query(db, OwnerNamed(screenName.value), ParseOlderThanThis(db, older))))
  {
    var bound := ParseOlderThanThis(db, older);
    if InvalidOlder(db, older) || screenName.None? || screenName.value == []
      || |screenName.value| > MaxScreenNameLength || !KnownScreenName(db, screenName.value)
    then BadRequest
    else Respond(Query(db, OwnerNamed(screenName.value), bound))
  }

  /** `FirstOrDefault(x => x.TweetId == id)` over the selected tweets. */
  function FirstWithId(rows: seq<SelectedTweet>, id: Str): (r: Option<nat>)
    ensures r.None? <==> forall k :: 0 <= k < |rows| ==> rows[k].tweetId != id
    ensures r.Some? ==> (r.value < |rows| && rows[r.value].tweetId == id
      && forall k :: 0 <= k < r.value ==> rows[k].tweetId != id)
  {
    if rows == [] then None
    else if rows[0].tweetId == id then Some(0)
    else match FirstWithId(rows[1..], id)
      case None => None
      case Some(k) => Some(k + 1)
  }

  /** `MoreById`: the single selected tweet with this id. */
  function MoreById(db: Db, id: Option<Str>): (r: Reply)
    ensures r == BadRequest <==> id.None? || id.value == [] || forall k :: 0 <= k < |db.selected| ==> db.selected[k].tweetId != id.value
    ensures r != BadRequest ==> r.Ok? && |r.views| == 1 && r.views[0].tweetId == id.value
    ensures r != BadRequest ==> exists k :: 0 <= k < |db.selected| && r.views[0] == ViewOf(db.selected[k])
  {
    if id.None? || id.value == [] then BadRequest
    else match FirstWithId(db.selected, id.value)
      case None => BadRequest
      case Some(k) => Ok([ViewOf(db.selected[k])])
  }

  /** `UpdatedStateBM`: one entry of the manager's bulk update. */
  datatype StateChange = StateChange(tweetId: Str, newState: PublishingState)

  /** The state the last entry for `id` asks for, if any entry names it. */
  function LastNewState(changes: seq<StateChange>, id: Str): (r: Option<PublishingState>)
    ensures r.Some? <==> exists k :: 0 <= k < |changes| && changes[k].tweetId == id
    ensures r.Some? ==> exists k :: (0 <= k < |changes| && changes[k].tweetId == id && changes[k].newState == r.value
      && forall m :: k < m < |changes| ==> changes[m].tweetId != id)
  {
    if changes == [] then None
    else
      var last := changes[|changes| - 1];
      if last.tweetId == id then Some(last.newState)
      else
        var r := LastNewState(changes[..|changes| - 1], id);
        assert forall k :: 0 <= k < |changes| - 1 ==> changes[..|changes| - 1][k] == changes[k];
        r
  }

  /** Row `k` after the bulk update: only the first row carrying a listed id
      changes; it takes the last state listed for that id and is stamped checked. */
  function Expected(rows: seq<SelectedTweet>, changes: seq<StateChange>, k: nat, now: Time): SelectedTweet
    requires k < |rows|
  {
    match LastNewState(changes, rows[k].tweetId)
    case Some(s) =>
      if FirstWithId(rows, rows[k].tweetId) == Some(k) then rows[k].(state := s, checkedAt := Some(now)) else rows[k]
    case None => rows[k]
  }

  /** Appending one entry changes only the first row carrying its id. */
  lemma ExpectedStep(rows: seq<SelectedTweet>, prefix: seq<StateChange>, c: StateChange, k: nat, now: Time)
    requires k < |rows|
    ensures Expected(rows, prefix + [c], k, now) ==
      if FirstWithId(rows, c.tweetId) == Some(k)
      then Expected(rows, prefix, k, now).(state := c.newState, checkedAt := Some(now))
      else Expected(rows, prefix, k, now)
  {
    var cs := prefix + [c];
    assert cs[..|cs| - 1] == prefix;
  }

  /** No lifecycle guard: an entry for a stored id sets that row to the requested
      state, `Unchecked` included, whatever the row held, and it is the last entry
      for the id that counts, whatever entries for other ids follow it. */
  lemma LastEntryWins(rows: seq<SelectedTweet>, prefix: seq<StateChange>, id: Str, s: PublishingState,
                      suffix: seq<StateChange>, k: nat, now: Time)
    requires FirstWithId(rows, id) == Some(k)
    requires forall m :: 0 <= m < |suffix| ==> suffix[m].tweetId != id
    ensures Expected(rows, prefix + [StateChange(id, s)] + suffix, k, now).state == s
    ensures Expected(rows, prefix + [StateChange(id, s)] + suffix, k, now).checkedAt == Some(now)
  {
    var changes := prefix + [StateChange(id, s)] + suffix;
    assert changes[|prefix|] == StateChange(id, s);
    assert LastNewState(changes, id).Some?;
    var j :| 0 <= j < |changes| && changes[j].tweetId == id && changes[j].newState == LastNewState(changes, id).value
      && forall m :: j < m < |changes| ==> changes[m].tweetId != id;
    assert j == |prefix|;
  }

  lemma {:induction false} FirstWithIdSameIds(a: seq<SelectedTweet>, b: seq<SelectedTweet>, id: Str)
    requires |a| == |b| && forall k :: 0 <= k < |a| ==> a[k].tweetId == b[k].tweetId
    ensures FirstWithId(a, id) == FirstWithId(b, id)
  {
    if a != [] && a[0].tweetId != id {
      FirstWithIdSameIds(a[1..], b[1..], id);
    }
  }

  /** One entry of the loop: the first row with the entry's id takes the new state and is stamped checked. */
  function ApplyChange(rows: seq<SelectedTweet>, c: StateChange, now: Time): (r: seq<SelectedTweet>)
    ensures |r| == |rows|
    ensures forall k :: 0 <= k < |rows| ==> r[k].tweetId == rows[k].tweetId
  {
    match FirstWithId(rows, c.tweetId)
    case Some(k) => rows[k := rows[k].(state := c.newState, checkedAt := Some(now))]
    case None => rows
  }

  lemma ApplyChangeExpected(rows0: seq<SelectedTweet>, rows: seq<SelectedTweet>, prefix: seq<StateChange>,
                            c: StateChange, next: seq<StateChange>, now: Time)
    requires |rows| == |rows0| && next == prefix + [c]
    requires forall k :: 0 <= k < |rows0| ==> rows[k] == Expected(rows0, prefix, k, now)
    ensures forall k :: 0 <= k < |rows0| ==> ApplyChange(rows, c, now)[k] == Expected(rows0, next, k, now)
  {
    assert forall k :: 0 <= k < |rows| ==> rows[k].tweetId == rows0[k].tweetId;
    FirstWithIdSameIds(rows, rows0, c.tweetId);
    forall k | 0 <= k < |rows0|
      ensures ApplyChange(rows, c, now)[k] == Expected(rows0, prefix + [c], k, now)
    {
      ExpectedStep(rows0, prefix, c, k, now);
    }
  }

  /** `Update`: rejects a missing or empty list; otherwise applies the entries in
      order, with no check of the transition, and saves after each. */
  method Update(db: Db, changes: Option<seq<StateChange>>, now: Time) returns (reply: Reply, after: Db)
    ensures reply == BadRequest <==> changes.None? || changes.value == []
    ensures reply != BadRequest ==> reply == Updated
    ensures after.users == db.users && after.contributors == db.contributors && after.tweets == db.tweets
    ensures |after.selected| == |db.selected|
    ensures reply == BadRequest ==> after == db
    ensures reply == Updated ==> forall k :: 0 <= k < |db.selected| ==>
      after.selected[k] == Expected(db.selected, changes.value, k, now)
  {
    if changes.None? || changes.value == [] {
      return BadRequest, db;
    }
    var cs := changes.value;
    var rows := db.selected;
    var i := 0;
    while i < |cs|
      invariant 0 <= i <= |cs|
      invariant |rows| == |db.selected|
      invariant forall k :: 0 <= k < |db.selected| ==> rows[k] == Expected(db.selected, cs[..i], k, now)
    {
      assert cs[..i + 1] == cs[..i] + [cs[i]];
      ApplyChangeExpected(db.selected, rows, cs[..i], cs[i], cs[..i + 1], now);
      rows := ApplyChange(rows, cs[i], now);
      i := i + 1;
    }
    assert cs[..|cs|] == cs;
    after := db.(selected := rows);
    reply := Updated;
  }
}
