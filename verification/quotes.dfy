/** `QuoteService`: tweets the quote tweeted longest ago (never-tweeted quotes
    first) as an image. Rendering the image, uploading it and posting the
    tweet are inputs: the rendered bytes (`None` for null), the media id the
    upload returned, and whether the post succeeded. */
module Quotes {
  import opened Wrappers
  import opened Text
  import opened Models
  import Sorting
  import OAuth
  import PercentEncoding

  /** The key of `OrderBy(x => x.TweetedAt ?? DateTime.MinValue)`. */
  function TweetedKey(q: Quote): int {
    q.tweetedAt.GetOr(MinTime)
  }

  /** `First` on an empty table throws. */
  datatype QuoteError = NoQuotes

  /** `GetNextQuote`: the first quote, in table order, with the least key. */
  function NextQuote(quotes: seq<Quote>): (r: Result<nat, QuoteError>)
    ensures r.Failure? <==> quotes == []
    ensures r.Success? ==> r.value < |quotes|
    ensures r.Success? ==> forall j :: 0 <= j < |quotes| ==> TweetedKey(quotes[r.value]) <= TweetedKey(quotes[j])
    ensures r.Success? ==> forall j :: 0 <= j < r.value ==> TweetedKey(quotes[j]) > TweetedKey(quotes[r.value])
    ensures r.Success? && quotes[r.value].tweetedAt.Some? && quotes[r.value].tweetedAt.value > MinTime ==>
      forall j :: 0 <= j < |quotes| ==> quotes[j].tweetedAt.Some?
  {
    if quotes == [] then Failure(NoQuotes) else Success(Sorting.FirstMin(quotes, TweetedKey))
  }

  /** Records that quote `i` was tweeted at `now`. */
  function Stamp(quotes: seq<Quote>, i: nat, now: Time): (r: seq<Quote>)
    requires i < |quotes|
    ensures |r| == |quotes| && r[i].tweetedAt == Some(now)
    ensures forall j :: 0 <= j < |quotes| && j != i ==> r[j] == quotes[j]
    ensures r[i] == quotes[i].(tweetedAt := Some(now))
  {
    quotes[i := quotes[i].(tweetedAt := Some(now))]
  }

  /** `SendQuoteTweet`: posts a status with empty text and the uploaded media id;
      a failed upload (null id) still posts, without media. */
  function QuoteTweetRequest(cred: OAuth.Credentials, mediaId: Option<Str>,
                             hmac: (seq<Byte>, seq<Byte>) -> seq<Byte>, base64: seq<Byte> -> Str)
    : (r: Result<OAuth.SignedRequest, OAuth.SignError>)
    ensures r.Success? && mediaId.None? ==> r.value.body == OAuth.StatusKey + [OAuth.Equals]
    ensures r.Success? && mediaId.Some? ==> (r.value.body ==
      (OAuth.MediaIdsKey + [OAuth.Equals] + PercentEncoding.PercentEncode(mediaId.value)) + [OAuth.Amp] + (OAuth.StatusKey + [OAuth.Equals]))
  {
    var status := OAuth.StatusKey + [OAuth.Equals];
    assert status + PercentEncoding.PercentEncode([]) == status;
    OAuth.SendTweetRequest(cred, [], mediaId, hmac, base64)
  }

  /** `Act`: false, with nothing stamped, when no image was rendered or the
      post failed; otherwise the chosen quote alone is stamped with `now`. */
  function Act(quotes: seq<Quote>, image: Option<seq<Byte>>, sent: bool, now: Time): (r: Result<(bool, seq<Quote>), QuoteError>)
    ensures r.Failure? <==> quotes == []
    ensures r.Success? ==> (r.value.0 <==> image.Some? && image.value != [] && sent)
    ensures r.Success? && !r.value.0 ==> r.value.1 == quotes
    ensures r.Success? && r.value.0 ==> r.value.1 == Stamp(quotes, NextQuote(quotes).value, now)
  {
    var i :- NextQuote(quotes);
    if image.None? || image.value == [] then Success((false, quotes))
    else if !sent then Success((false, quotes))
    else Success((true, Stamp(quotes, i, now)))
  }

  /** The quote picked at each of a run of successful `Act`s at the given times. */
  function Picks(quotes: seq<Quote>, times: seq<Time>): (r: seq<nat>)
    requires |quotes| > 0
    ensures |r| == |times|
    ensures forall k :: 0 <= k < |r| ==> r[k] < |quotes|
    decreases |times|
  {
    if times == [] then []
    else
      var i := NextQuote(quotes).value;
      [i] + Picks(Stamp(quotes, i, times[0]), times[1..])
  }

  predicate NonDecreasing(times: seq<Time>) {
    forall a, b :: 0 <= a < b < |times| ==> times[a] <= times[b]
  }

  function Range(n: nat): (r: set<int>)
    ensures forall j :: j in r <==> 0 <= j < n
  {
    if n == 0 then {} else Range(n - 1) + {n - 1}
  }

  lemma {:induction false} RangeSize(n: nat)
    ensures |Range(n)| == n
  {
    if n == 0 {
      assert Range(n) == {};
    } else {
      RangeSize(n - 1);
      var prev := Range(n - 1);
      assert n - 1 !in prev;
      assert Range(n) == prev + {n - 1};
      assert |prev + {n - 1}| == |prev| + 1;
      assert |Range(n)| == |prev| + 1;
    }
  }

  lemma SomeUnused(n: nat, used: set<int>)
    requires used <= Range(n) && |used| < n
    ensures exists j :: 0 <= j < n && j !in used
  {
    RangeSize(n);
    assert |Range(n) - used| > 0;
    var j :| j in Range(n) - used;
    assert 0 <= j < n && j !in used;
  }

  /** The invariant of a run: quotes already picked carry later stamps than
      every quote not yet picked, and the next time is not earlier than any stamp. */
  predicate PickedLater(quotes: seq<Quote>, used: set<int>, t: Time) {
    && (forall u :: u in used ==> 0 <= u < |quotes| && TweetedKey(quotes[u]) <= t)
    && (forall v :: 0 <= v < |quotes| && v !in used ==> TweetedKey(quotes[v]) < t)
    && (forall u, v :: u in used && 0 <= v < |quotes| && v !in used ==> 0 <= u < |quotes| && TweetedKey(quotes[v]) < TweetedKey(quotes[u]))
  }

  /** Stamping an unpicked quote with a time not earlier than any stamp keeps the invariant. */
  lemma StampKeepsPickedLater(quotes: seq<Quote>, used: set<int>, i: nat, t: Time, t': Time)
    requires PickedLater(quotes, used, t) && i < |quotes| && i !in used && t <= t'
    requires forall j :: 0 <= j < |quotes| ==> TweetedKey(quotes[i]) <= TweetedKey(quotes[j])
    ensures PickedLater(Stamp(quotes, i, t), used + {i}, t')
  {
    var next := Stamp(quotes, i, t);
    var used' := used + {i};
    forall u, v | u in used' && 0 <= v < |next| && v !in used'
      ensures 0 <= u < |next| && TweetedKey(next[v]) < TweetedKey(next[u])
    {
      assert next[v] == quotes[v];
      if u != i {
        assert next[u] == quotes[u];
      }
    }
    forall u | u in used'
      ensures 0 <= u < |next| && TweetedKey(next[u]) <= t'
    {
      if u != i {
        assert next[u] == quotes[u];
      }
    }
    forall v | 0 <= v < |next| && v !in used'
      ensures TweetedKey(next[v]) < t'
    {
      assert next[v] == quotes[v];
    }
  }

  /** The first pick of a run is a quote not picked before. */
  lemma NextIsUnused(quotes: seq<Quote>, used: set<int>, t: Time)
    requires |quotes| > 0 && |used| < |quotes| && PickedLater(quotes, used, t)
    ensures NextQuote(quotes).value !in used
  {
    var i := NextQuote(quotes).value;
    assert used <= Range(|quotes|);
    SomeUnused(|quotes|, used);
    var j :| 0 <= j < |quotes| && j !in used;
    assert TweetedKey(quotes[i]) <= TweetedKey(quotes[j]);
  }

  lemma NonDecreasingTail(times: seq<Time>)
    requires times != [] && NonDecreasing(times)
    ensures NonDecreasing(times[1..])
  {
    var rest := times[1..];
    forall a, b | 0 <= a < b < |rest| ensures rest[a] <= rest[b] {
      assert rest[a] == times[a + 1] && rest[b] == times[b + 1];
    }
  }

  lemma {:induction false} PicksAvoid(quotes: seq<Quote>, times: seq<Time>, used: set<int>)
    requires |quotes| > 0 && NonDecreasing(times)
    requires |used| + |times| <= |quotes|
    requires times != [] ==> PickedLater(quotes, used, times[0])
    ensures forall k :: 0 <= k < |times| ==> Picks(quotes, times)[k] !in used
    ensures forall a, b :: 0 <= a < b < |times| ==> Picks(quotes, times)[a] != Picks(quotes, times)[b]
    decreases |times|
  {
    if times != [] {
      var t := times[0];
      var i := NextQuote(quotes).value;
      NextIsUnused(quotes, used, t);
      var next := Stamp(quotes, i, t);
      var rest := times[1..];
      assert |used + {i}| == |used| + 1;
      if rest != [] {
        StampKeepsPickedLater(quotes, used, i, t, rest[0]);
      }
      NonDecreasingTail(times);
      PicksAvoid(next, rest, used + {i});
      var p := Picks(quotes, times);
      var q := Picks(next, rest);
      assert p == [i] + q;
      forall k | 0 <= k < |times|
        ensures p[k] !in used
      {
        if k > 0 {
          assert p[k] == q[k - 1];
        }
      }
      forall a, b | 0 <= a < b < |times|
        ensures p[a] != p[b]
      {
        assert p[b] == q[b - 1];
        if a > 0 {
          assert p[a] == q[a - 1];
        }
      }
    }
  }

  /** With a clock that never goes back and starts after every recorded tweet,
      successive successful `Act`s tweet pairwise different quotes until every
      quote has been tweeted once. */
  lemma NoRepeatBeforeAllTweeted(quotes: seq<Quote>, times: seq<Time>)
    requires |quotes| > 0 && |times| <= |quotes| && NonDecreasing(times)
    requires times != [] ==> forall j :: 0 <= j < |quotes| ==> TweetedKey(quotes[j]) < times[0]
    ensures forall a, b :: 0 <= a < b < |times| ==> Picks(quotes, times)[a] != Picks(quotes, times)[b]
  {
    PicksAvoid(quotes, times, {});
  }
}
