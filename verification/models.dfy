/** The entities of the site (the `Models` folder), with the database reduced to
    sequences and maps. Entity-framework keys that are generated GUIDs are
    dropped: a contributor is identified by its Twitter user id, which the
    one-to-one mapping of `MyDbContext` makes unique. */
module Models {
  import opened Wrappers
  import opened Text

  /** `DateTime` as a tick count: 100 ns units since 0001-01-01 00:00 UTC. */
  type Time = nat

  /** `DateTime.MinValue`. */
  const MinTime: Time := 0

  /** `PublishingState`, an `int`-backed enum: casts and JSON binding admit any
      `int`, not only the six named members. */
  newtype PublishingState = x: int | -0x8000_0000 <= x < 0x8000_0000

  const Unchecked: PublishingState := 0
  const Approved: PublishingState := 1
  const Rejected: PublishingState := 2
  const StandBy: PublishingState := 3
  const Published: PublishingState := 4
  const Old: PublishingState := 5

  /** `Tweet`; the counters are nullable `int`s as they come from the API. */
  datatype Tweet = Tweet(
    id: Str,
    createdAt: Str,
    text: Str,
    quoteCount: Option<int>,
    replyCount: Option<int>,
    retweetCount: Option<int>,
    favoriteCount: Option<int>)

  /** `TwitterUser`, reduced to the fields the core reads. */
  datatype TwitterUser = TwitterUser(id: Str, screenName: Option<Str>)

  /** `Contributor`: the Twitter user it stands for and when its tweets were last checked. */
  datatype Contributor = Contributor(userId: Str, lastUpdate: Option<Time>)

  /** `SelectedTweet`: a tweet chosen for review, owned by one contributor. */
  datatype SelectedTweet = SelectedTweet(
    tweetId: Str,
    owner: Str,
    state: PublishingState,
    publishingAt: Option<Time>,
    selectedAt: Option<Time>,
    checkedAt: Option<Time>)

  /** `Quote`. */
  datatype Quote = Quote(author: Str, text: Str, source: Option<Str>, likes: Option<int>, tweetedAt: Option<Time>)

  /** `WeatherReport`. */
  datatype WeatherReport = WeatherReport(date: Time, location: Str, tempMin: Str, tempMax: Str, weatherType: Str)

  /** The tables the core reads and writes. */
  datatype Db = Db(
    users: map<Str, TwitterUser>,
    contributors: seq<Contributor>,
    selected: seq<SelectedTweet>,
    tweets: map<Str, Tweet>)

  /** Ids of the tweets a contributor has selected. */
  function OwnedIds(rows: seq<SelectedTweet>, owner: Str): set<Str> {
    set i | 0 <= i < |rows| && rows[i].owner == owner :: rows[i].tweetId
  }

  /** The one-to-one `Tweet`/`SelectedTweet` mapping makes tweet ids unique among rows. */
  predicate UniqueTweetIds(rows: seq<SelectedTweet>) {
    forall i, j :: 0 <= i < j < |rows| ==> rows[i].tweetId != rows[j].tweetId
  }

  /** The row a freshly selected tweet gets: state `Unchecked` by the column default. */
  function NewSelection(t: Tweet, owner: Str, now: Time): (s: SelectedTweet)
    ensures s.state == Unchecked && s.selectedAt == Some(now)
    ensures s.tweetId == t.id && s.owner == owner
    ensures s.publishingAt.None? && s.checkedAt.None?
  {
    SelectedTweet(t.id, owner, Unchecked, None, Some(now), None)
  }
}
