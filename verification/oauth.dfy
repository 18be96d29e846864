/** OAuth 1.0a request signing as `TwitterService` does it
    (`getAuthenticationHeaderValue`, `AggregateParameters`), and the request
    parameters of `SendTweet`, `UploadMedia` and `GetMultipleUsers`.
    HMAC-SHA1 and Base64 are opaque functions handed in by the caller; the
    OAuth parameter dictionary and the two secrets come from configuration. */
module OAuth {
  import opened Wrappers
  import opened Text
  import opened PercentEncoding
  import Sorting

  const Amp: CodeUnit := 0x26
  const Equals: CodeUnit := 0x3D
  const Quote: CodeUnit := 0x22
  const Comma: CodeUnit := 0x2C

  /** A `Dictionary<string, string>` enumerated in insertion order. */
  type Dict = seq<(Str, Str)>

  function Keys(d: Dict): set<Str> {
    set i | 0 <= i < |d| :: d[i].0
  }

  predicate DistinctKeys(d: Dict) {
    forall i, j :: 0 <= i < j < |d| ==> d[i].0 != d[j].0
  }

  /** The value stored under `k`, if any. */
  function Lookup(d: Dict, k: Str): Option<Str> {
    if d == [] then None else if d[0].0 == k then Some(d[0].1) else Lookup(d[1..], k)
  }

  datatype SignError = DuplicateKey(key: Str)

  /** `Dictionary.Add`, which throws when the key is already present. */
  function Add(d: Dict, k: Str, v: Str): Result<Dict, SignError> {
    if k in Keys(d) then Failure(DuplicateKey(k)) else Success(d + [(k, v)])
  }

  function EncodePair(p: (Str, Str)): (Str, Str) {
    (PercentEncode(p.0), PercentEncode(p.1))
  }

  function EncodePairs(ps: Dict): (r: Dict)
    ensures |r| == |ps|
    ensures forall i :: 0 <= i < |ps| ==> r[i] == EncodePair(ps[i])
  {
    if ps == [] then [] else [EncodePair(ps[0])] + EncodePairs(ps[1..])
  }

  lemma DistinctKeysSnoc(d: Dict, p: (Str, Str))
    requires DistinctKeys(d)
    ensures DistinctKeys(d + [p]) <==> p.0 !in Keys(d)
  {
    if p.0 in Keys(d) {
      var i :| 0 <= i < |d| && d[i].0 == p.0;
      assert (d + [p])[i].0 == (d + [p])[|d|].0;
    }
  }

  /** The loop `allEncodedParameters.Add(PercentEncode(x.Key), PercentEncode(x.Value))`:
      succeeds exactly when the encoded keys are all distinct. */
  function AddEncoded(d: Dict, ps: Dict): (r: Result<Dict, SignError>)
    requires DistinctKeys(d)
    decreases |ps|
    ensures r.Success? <==> DistinctKeys(d + EncodePairs(ps))
    ensures r.Success? ==> r.value == d + EncodePairs(ps)
  {
    if ps == [] then
      assert d + EncodePairs(ps) == d;
      Success(d)
    else
      var p := EncodePair(ps[0]);
      assert d + EncodePairs(ps) == (d + [p]) + EncodePairs(ps[1..]);
      DistinctKeysSnoc(d, p);
      if p.0 in Keys(d) then
        assert !DistinctKeys(d + [p]);
        PrefixNotDistinct(d + [p], EncodePairs(ps[1..]));
        Failure(DuplicateKey(p.0))
      else
        AddEncoded(d + [p], ps[1..])
  }

  lemma PrefixNotDistinct(a: Dict, b: Dict)
    requires !DistinctKeys(a)
    ensures !DistinctKeys(a + b)
  {
    var i, j :| 0 <= i < j < |a| && a[i].0 == a[j].0;
    assert (a + b)[i] == a[i] && (a + b)[j] == a[j];
  }

  // ---------------------------------------------------------------- aggregation

  /** `OrderBy(p => p.Key)`, taken as the ordinal order. */
  predicate KeyOrder(p: (Str, Str), q: (Str, Str)) {
    OrdinalLessEq(p.0, q.0)
  }

  lemma KeyOrderIsTotalPreorder()
    ensures Sorting.TotalPreorder(KeyOrder)
  {
    forall p: (Str, Str), q: (Str, Str)
      ensures KeyOrder(p, q) || KeyOrder(q, p)
    {
      if OrdinalLess(q.0, p.0) {
        OrdinalAsymmetric(q.0, p.0);
      }
    }
    forall p: (Str, Str), q: (Str, Str), o: (Str, Str) | KeyOrder(p, q) && KeyOrder(q, o)
      ensures KeyOrder(p, o)
    {
      if OrdinalLess(o.0, p.0) {
        OrdinalTrichotomy(q.0, p.0);
        OrdinalTrichotomy(o.0, q.0);
        if OrdinalLess(q.0, p.0) {
        } else if q.0 == p.0 {
        } else {
          OrdinalTransitive(o.0, p.0, q.0);
        }
      }
    }
  }

  /** The pairs of `d` in ascending ordinal key order. */
  function SortByKey(d: Dict): (r: Dict)
    ensures multiset(r) == multiset(d)
    ensures |r| == |d|
    ensures Sorting.Sorted(r, KeyOrder)
  {
    KeyOrderIsTotalPreorder();
    Sorting.SortSorted(d, KeyOrder);
    Sorting.Sort(d, KeyOrder)
  }

  /** `key=value`, or `key="value"` with quote marks. */
  function Render(p: (Str, Str), quoted: bool): (r: Str)
    ensures Equals in r
  {
    var r := p.0 + [Equals] + (if quoted then [Quote] + p.1 + [Quote] else p.1);
    assert r[|p.0|] == Equals;
    r
  }

  function RenderAll(d: Dict, quoted: bool): (r: seq<Str>)
    ensures |r| == |d|
    ensures forall i :: 0 <= i < |d| ==> r[i] == Render(d[i], quoted)
  {
    if d == [] then [] else [Render(d[0], quoted)] + RenderAll(d[1..], quoted)
  }

  /** The LINQ fold `ac + (ac == "" ? "" : linkString) + ps`, as written. */
  function FoldLink(items: seq<Str>, link: Str): Str {
    if items == [] then []
    else
      var ac := FoldLink(items[..|items| - 1], link);
      ac + (if ac == [] then [] else link) + items[|items| - 1]
  }

  /** The fold is a plain join as long as no item is empty (a rendered pair never is). */
  lemma {:induction false} FoldLinkIsJoin(items: seq<Str>, link: Str)
    requires forall i :: 0 <= i < |items| ==> items[i] != []
    ensures FoldLink(items, link) == Join(items, link)
    ensures |items| > 0 ==> FoldLink(items, link) != []
  {
    if |items| > 0 {
      var init := items[..|items| - 1];
      FoldLinkIsJoin(init, link);
      if |items| == 1 {
        assert init == [];
      }
    }
  }

  /** `AggregateParameters`: the rendered pairs in ascending key order, separated
      by `link`, with no separator before the first or after the last; `""` for
      an empty dictionary. */
  function AggregateParameters(d: Dict, link: Str, quoted: bool): (r: Str)
    ensures r == Join(RenderAll(SortByKey(d), quoted), link)
    ensures d == [] <==> r == []
  {
    var items := RenderAll(SortByKey(d), quoted);
    FoldLinkIsJoin(items, link);
    FoldLink(items, link)
  }

  /** With distinct keys the aggregate lists every pair exactly once, keys strictly ascending. */
  lemma AggregateListsEveryPair(d: Dict, link: Str, quoted: bool, p: (Str, Str))
    requires DistinctKeys(d)
    requires p in d
    ensures Render(p, quoted) in RenderAll(SortByKey(d), quoted)
    ensures forall i, j :: 0 <= i < j < |d| ==> OrdinalLess(SortByKey(d)[i].0, SortByKey(d)[j].0)
  {
    var s := SortByKey(d);
    assert p in multiset(s);
    var k :| 0 <= k < |s| && s[k] == p;
    assert RenderAll(s, quoted)[k] == Render(p, quoted);
    forall i, j | 0 <= i < j < |s|
      ensures OrdinalLess(s[i].0, s[j].0)
    {
      SortedDistinct(d, s, i, j);
    }
  }

  lemma SortedDistinct(d: Dict, s: Dict, i: int, j: int)
    requires DistinctKeys(d)
    requires multiset(s) == multiset(d) && Sorting.Sorted(s, KeyOrder)
    requires 0 <= i < j < |s|
    ensures OrdinalLess(s[i].0, s[j].0)
  {
    assert KeyOrder(s[i], s[j]);
    OrdinalTrichotomy(s[i].0, s[j].0);
    if s[i].0 == s[j].0 {
      assert s[i] in multiset(d) && s[j] in multiset(d);
      var a :| 0 <= a < |d| && d[a] == s[i];
      var b :| 0 <= b < |d| && d[b] == s[j];
      DistinctKeysMultiplicity(d, a);
      Sorting.MultiplicityOfRepeat(s, i, j);
    }
  }

  lemma DistinctKeysMultiplicity(d: Dict, a: int)
    requires DistinctKeys(d) && 0 <= a < |d|
    ensures multiset(d)[d[a]] == 1
  {
    if a == 0 {
      assert d == [d[0]] + d[1..];
      assert d[0] !in d[1..];
    } else {
      assert d == [d[0]] + d[1..];
      assert d[1..][a - 1] == d[a];
      DistinctKeysMultiplicity(d[1..], a - 1);
    }
  }

  // ---------------------------------------------------------------- signature

  /** Position of the first `c` in `s`, or `|s|` when there is none. */
  function IndexOf(s: Str, c: CodeUnit): (r: nat)
    ensures r <= |s|
  {
    if s == [] then 0 else if s[0] == c then 0 else 1 + IndexOf(s[1..], c)
  }

  lemma {:induction false} IndexOfSeparator(a: Str, b: Str, c: CodeUnit)
    requires c !in a
    ensures IndexOf(a + [c] + b, c) == |a|
  {
    if a == [] {
      assert (a + [c] + b)[0] == c;
    } else {
      assert (a + [c] + b)[1..] == a[1..] + [c] + b;
      IndexOfSeparator(a[1..], b, c);
    }
  }

  /** Splitting at the first occurrence of a separator the left part does not contain. */
  lemma SplitAtSeparator(a1: Str, a2: Str, b1: Str, b2: Str, sep: CodeUnit)
    requires sep !in a1 && sep !in b1
    requires a1 + [sep] + a2 == b1 + [sep] + b2
    ensures a1 == b1 && a2 == b2
  {
    var x := a1 + [sep] + a2;
    IndexOfSeparator(a1, a2, sep);
    IndexOfSeparator(b1, b2, sep);
    assert a1 == x[..|a1|] && b1 == x[..|b1|];
    assert a2 == x[|a1| + 1..] && b2 == x[|b1| + 1..];
  }

  lemma {:induction false} CountTwoFields(a: Str, b: Str)
    requires Amp !in a && Amp !in b
    ensures Count(a + [Amp] + b, Amp) == 1
  {
    CountConcat(a, [Amp], Amp);
    CountConcat(a + [Amp], b, Amp);
    CountAbsent(a, Amp);
    CountAbsent(b, Amp);
  }

  lemma {:induction false} CountThreeFields(a: Str, b: Str, c: Str)
    requires Amp !in a && Amp !in b && Amp !in c
    ensures Count(a + [Amp] + b + [Amp] + c, Amp) == 2
  {
    CountConcat(a, [Amp], Amp);
    CountConcat(a + [Amp], b, Amp);
    CountConcat(a + [Amp] + b, [Amp], Amp);
    CountConcat(a + [Amp] + b + [Amp], c, Amp);
    CountAbsent(a, Amp);
    CountAbsent(b, Amp);
    CountAbsent(c, Amp);
  }

  lemma ThreeFieldsInjective(a1: Str, b1: Str, c1: Str, a2: Str, b2: Str, c2: Str)
    requires Amp !in a1 && Amp !in b1 && Amp !in a2 && Amp !in b2
    requires a1 + [Amp] + b1 + [Amp] + c1 == a2 + [Amp] + b2 + [Amp] + c2
    ensures a1 == a2 && b1 == b2 && c1 == c2
  {
    assert a1 + [Amp] + b1 + [Amp] + c1 == a1 + [Amp] + (b1 + [Amp] + c1);
    assert a2 + [Amp] + b2 + [Amp] + c2 == a2 + [Amp] + (b2 + [Amp] + c2);
    SplitAtSeparator(a1, b1 + [Amp] + c1, a2, b2 + [Amp] + c2, Amp);
    SplitAtSeparator(b1, c1, b2, c2, Amp);
  }

  lemma NoAmpInEncoding(s: Str)
    ensures Amp !in PercentEncode(s)
  {
  }

  /** Signature base string (section 3.4.1 of RFC 5849) as the code builds it:
      `PercentEncode(verb) & PercentEncode(url) & PercentEncode(parameterString)`.
      The method is encoded as given, not upper-cased. */
  function SignatureBaseString(verb: Str, url: Str, encoded: Dict): (r: Str)
    ensures Count(r, Amp) == 2
  {
    var m := PercentEncode(verb);
    var u := PercentEncode(url);
    var p := PercentEncode(AggregateParameters(encoded, [Amp], false));
    NoAmpInEncoding(verb);
    NoAmpInEncoding(url);
    NoAmpInEncoding(AggregateParameters(encoded, [Amp], false));
    CountThreeFields(m, u, p);
    m + [Amp] + u + [Amp] + p
  }

  /** The base string determines its three encoded fields. */
  lemma BaseStringDeterminesFields(m1: Str, u1: Str, e1: Dict, m2: Str, u2: Str, e2: Dict)
    requires SignatureBaseString(m1, u1, e1) == SignatureBaseString(m2, u2, e2)
    ensures PercentEncode(m1) == PercentEncode(m2)
    ensures PercentEncode(u1) == PercentEncode(u2)
    ensures PercentEncode(AggregateParameters(e1, [Amp], false))
         == PercentEncode(AggregateParameters(e2, [Amp], false))
  {
    NoAmpInEncoding(m1);
    NoAmpInEncoding(m2);
    NoAmpInEncoding(u1);
    NoAmpInEncoding(u2);
    ThreeFieldsInjective(PercentEncode(m1), PercentEncode(u1), PercentEncode(AggregateParameters(e1, [Amp], false)),
      PercentEncode(m2), PercentEncode(u2), PercentEncode(AggregateParameters(e2, [Amp], false)));
  }

  datatype Credentials = Credentials(oauthParameters: Dict, consumerSecret: Str, tokenSecret: Str)

  /** Signing key (section 3.4.2 of RFC 5849): `PercentEncode(consumerSecret) & PercentEncode(tokenSecret)`. */
  function SigningKey(cred: Credentials): (r: Str)
    ensures Count(r, Amp) == 1
  {
    var c, t := PercentEncode(cred.consumerSecret), PercentEncode(cred.tokenSecret);
    NoAmpInEncoding(cred.consumerSecret);
    NoAmpInEncoding(cred.tokenSecret);
    CountTwoFields(c, t);
    c + [Amp] + t
  }

  /** Two credentials give the same signing key only when both encoded secrets agree. */
  lemma SigningKeyDeterminesSecrets(a: Credentials, b: Credentials)
    requires SigningKey(a) == SigningKey(b)
    ensures PercentEncode(a.consumerSecret) == PercentEncode(b.consumerSecret)
    ensures PercentEncode(a.tokenSecret) == PercentEncode(b.tokenSecret)
  {
    SplitAtSeparator(PercentEncode(a.consumerSecret), PercentEncode(a.tokenSecret),
      PercentEncode(b.consumerSecret), PercentEncode(b.tokenSecret), Amp);
  }

  /** A high surrogate followed by a low one: one character outside the BMP. */
  predicate PairAt(s: Str, i: int) {
    0 <= i && i + 1 < |s| && 0xD800 <= s[i] <= 0xDBFF && 0xDC00 <= s[i + 1] <= 0xDFFF
  }

  /** `Encoding.ASCII.GetBytes`: the replacement fallback turns every character
      above 0x7F into one '?', so a surrogate pair gives a single '?' and a lone
      surrogate a '?' of its own. */
  function AsciiBytes(s: Str): (r: seq<Byte>)
    ensures |r| <= |s|
    ensures forall i :: 0 <= i < |r| ==> r[i] < 0x80
    ensures (forall i :: 0 <= i < |s| ==> !IsSurrogate(s[i])) ==> (|r| == |s|
      && forall i :: 0 <= i < |s| ==> r[i] as int == if s[i] < 0x80 then s[i] as int else 0x3F)
    decreases |s|
  {
    if s == [] then []
    else if PairAt(s, 0) then [0x3F] + AsciiBytes(s[2..])
    else
      var rest := AsciiBytes(s[1..]);
      var r := [if s[0] < 0x80 then s[0] as int as Byte else 0x3F] + rest;
      assert (forall i :: 0 <= i < |s| ==> !IsSurrogate(s[i])) ==>
        forall i :: 1 <= i < |s| ==> r[i] == rest[i - 1] && s[i] == s[1..][i - 1];
      r
  }

  /** Text with no unit above 0x7F, such as percent-encoded text, is copied
      unit for unit. */
  lemma AsciiBytesOfAscii(s: Str)
    requires forall i :: 0 <= i < |s| ==> s[i] < 0x80
    ensures |AsciiBytes(s)| == |s| && forall i :: 0 <= i < |s| ==> AsciiBytes(s)[i] as int == s[i] as int
  {
    assert forall i :: 0 <= i < |s| ==> !IsSurrogate(s[i]);
  }

  /** U+1F600, written as the pair D83D DE00, becomes a single '?'. */
  lemma AstralCharacterIsOneQuestionMark()
    ensures AsciiBytes([0xD83D, 0xDE00]) == [0x3F]
  {
    assert PairAt([0xD83D, 0xDE00], 0);
    assert [0xD83D, 0xDE00][2..] == [];
  }

  datatype Header = Header(scheme: Str, parameter: Str)

  /** `PercentEncode("oauth_signature")`, which is the name itself. */
  const SignatureKey: Str := Lit("oauth_signature")

  lemma SignatureKeyEncoded()
    ensures PercentEncode(SignatureKey) == SignatureKey
  {
    PercentEncodeUnreserved(SignatureKey);
  }

  /** OAuth and request parameters, each key and value percent-encoded, in that order. */
  function EncodedParameters(cred: Credentials, request: Dict): Dict {
    EncodePairs(cred.oauthParameters + request)
  }

  /** `Convert.ToBase64String(HMACSHA1(signingKey).ComputeHash(baseString))`. */
  function Signature(cred: Credentials, request: Dict, verb: Str, url: Str,
                     hmac: (seq<Byte>, seq<Byte>) -> seq<Byte>, base64: seq<Byte> -> Str): Str {
    var base := SignatureBaseString(verb, url, EncodedParameters(cred, request));
    base64(hmac(AsciiBytes(SigningKey(cred)), AsciiBytes(base)))
  }

  /** The pairs listed in the header: every encoded parameter, request parameters
      included, plus the encoded signature. */
  function HeaderPairs(cred: Credentials, request: Dict, verb: Str, url: Str,
                       hmac: (seq<Byte>, seq<Byte>) -> seq<Byte>, base64: seq<Byte> -> Str): Dict {
    EncodedParameters(cred, request)
      + [(SignatureKey, PercentEncode(Signature(cred, request, verb, url, hmac, base64)))]
  }

  /** `getAuthenticationHeaderValue`. It throws (here: `Failure`) when two parameters
      share an encoded key or a parameter is itself called `oauth_signature`;
      otherwise the header value is `OAuth` followed by the quoted pairs. */
  function AuthorizationHeader(cred: Credentials, request: Dict, verb: Str, url: Str,
                               hmac: (seq<Byte>, seq<Byte>) -> seq<Byte>, base64: seq<Byte> -> Str)
    : (r: Result<Header, SignError>)
    ensures r.Success? <==> DistinctKeys(EncodedParameters(cred, request))
                             && SignatureKey !in Keys(EncodedParameters(cred, request))
    ensures r.Success? ==> r.value.scheme == Lit("OAuth")
    ensures r.Success? ==>
      r.value.parameter == Join(RenderAll(SortByKey(HeaderPairs(cred, request, verb, url, hmac, base64)), true), Lit(", "))
  {
    var all := cred.oauthParameters + request;
    assert [] + EncodePairs(all) == EncodedParameters(cred, request);
    var encoded :- AddEncoded([], all);
    var signature := Signature(cred, request, verb, url, hmac, base64);
    SignatureKeyEncoded();
    DistinctKeysSnoc(encoded, (SignatureKey, PercentEncode(signature)));
    var withSignature :- Add(encoded, PercentEncode(SignatureKey), PercentEncode(signature));
    Success(Header(Lit("OAuth"), AggregateParameters(withSignature, Lit(", "), true)))
  }

  /** Appending the signature to distinct-keyed parameters lists each of them and the signature once. */
  lemma SignedPairsListed(enc: Dict, sig: (Str, Str), p: (Str, Str))
    requires DistinctKeys(enc) && sig.0 !in Keys(enc)
    requires p in enc
    ensures Render(p, true) in RenderAll(SortByKey(enc + [sig]), true)
    ensures Render(sig, true) in RenderAll(SortByKey(enc + [sig]), true)
    ensures |SortByKey(enc + [sig])| == |enc| + 1
  {
    DistinctKeysSnoc(enc, sig);
    AggregateListsEveryPair(enc + [sig], Lit(", "), true, p);
    assert (enc + [sig])[|enc|] == sig;
    AggregateListsEveryPair(enc + [sig], Lit(", "), true, sig);
  }

  lemma {:induction false} EncodePairsContains(ps: Dict, p: (Str, Str))
    requires p in ps
    ensures EncodePair(p) in EncodePairs(ps)
  {
    var i :| 0 <= i < |ps| && ps[i] == p;
    assert EncodePairs(ps)[i] == EncodePair(p);
  }

  /** Every request parameter appears in the header as `key="value"`, next to
      the OAuth parameters and the signature: the code copies the whole
      parameter dictionary into the header, while section 3.5.1 of RFC 5849
      lists only the `oauth_` parameters there. */
  lemma HeaderListsRequestParameters(cred: Credentials, request: Dict, verb: Str, url: Str,
                                     hmac: (seq<Byte>, seq<Byte>) -> seq<Byte>, base64: seq<Byte> -> Str,
                                     k: Str, v: Str)
    requires AuthorizationHeader(cred, request, verb, url, hmac, base64).Success?
    requires (k, v) in request
    ensures Render((PercentEncode(k), PercentEncode(v)), true)
         in RenderAll(SortByKey(HeaderPairs(cred, request, verb, url, hmac, base64)), true)
    ensures Render((SignatureKey, PercentEncode(Signature(cred, request, verb, url, hmac, base64))), true)
         in RenderAll(SortByKey(HeaderPairs(cred, request, verb, url, hmac, base64)), true)
    ensures |SortByKey(HeaderPairs(cred, request, verb, url, hmac, base64))|
         == |cred.oauthParameters| + |request| + 1
  {
    var enc := EncodedParameters(cred, request);
    var sig := (SignatureKey, PercentEncode(Signature(cred, request, verb, url, hmac, base64)));
    assert HeaderPairs(cred, request, verb, url, hmac, base64) == enc + [sig];
    RequestPairEncoded(cred, request, k, v);
    SignedPairsListed(enc, sig, (PercentEncode(k), PercentEncode(v)));
  }

  lemma RequestPairEncoded(cred: Credentials, request: Dict, k: Str, v: Str)
    requires (k, v) in request
    ensures (PercentEncode(k), PercentEncode(v)) in EncodedParameters(cred, request)
    ensures |EncodedParameters(cred, request)| == |cred.oauthParameters| + |request|
  {
    var all := cred.oauthParameters + request;
    var i :| 0 <= i < |request| && request[i] == (k, v);
    assert all[|cred.oauthParameters| + i] == (k, v);
    EncodePairsContains(all, (k, v));
  }

  // ---------------------------------------------------------------- requests

  const StatusKey: Str := Lit("status")
  const MediaIdsKey: Str := Lit("media_ids")

  lemma StatusKeysOrder()
    ensures StatusKey != MediaIdsKey
    ensures OrdinalLess(MediaIdsKey, StatusKey)
  {
    assert MediaIdsKey[0] < StatusKey[0];
  }

  lemma StatusKeysEncoded()
    ensures PercentEncode(StatusKey) == StatusKey && PercentEncode(MediaIdsKey) == MediaIdsKey
  {
    PercentEncodeUnreserved(StatusKey);
    PercentEncodeUnreserved(MediaIdsKey);
  }

  /** The dictionary `SendTweet` signs and posts: `status` always, `media_ids` only
      when a media id is given. */
  function StatusParameters(text: Str, mediaIds: Option<Str>): (d: Dict)
    ensures DistinctKeys(d)
    ensures Lookup(d, StatusKey) == Some(text)
    ensures Lookup(d, MediaIdsKey) == mediaIds
    ensures |d| == if mediaIds.Some? then 2 else 1
  {
    StatusKeysOrder();
    var status := [(StatusKey, text)];
    if mediaIds.Some? then
      var d := status + [(MediaIdsKey, mediaIds.value)];
      assert d[1..] == [(MediaIdsKey, mediaIds.value)];
      d
    else
      status
  }

  datatype SignedRequest = SignedRequest(verb: Str, url: Str, authorization: Header, body: Str)

  const StatusUpdateUrl: Str := Lit("https://api.twitter.com/1.1/statuses/update.json")
  const MediaUploadUrl: Str := Lit("https://upload.twitter.com/1.1/media/upload.json")
  const Post: Str := Lit("POST")

  /** `SendTweet`'s request: signed over its own parameters, with the encoded
      parameters aggregated with '&' as the form body. */
  function SendTweetRequest(cred: Credentials, text: Str, mediaIds: Option<Str>,
                            hmac: (seq<Byte>, seq<Byte>) -> seq<Byte>, base64: seq<Byte> -> Str)
    : (r: Result<SignedRequest, SignError>)
    ensures r.Success? <==>
      AuthorizationHeader(cred, StatusParameters(text, mediaIds), Post, StatusUpdateUrl, hmac, base64).Success?
    ensures mediaIds.None? && r.Success? ==>
      r.value.body == StatusKey + [Equals] + PercentEncode(text)
    ensures mediaIds.Some? && r.Success? ==>
      r.value.body == (MediaIdsKey + [Equals] + PercentEncode(mediaIds.value)) + [Amp] + (StatusKey + [Equals] + PercentEncode(text))
  {
    var parameters := StatusParameters(text, mediaIds);
    var header :- AuthorizationHeader(cred, parameters, Post, StatusUpdateUrl, hmac, base64);
    var body := AggregateParameters(EncodePairs(parameters), [Amp], false);
    StatusBodyShape(text, mediaIds);
    Success(SignedRequest(Post, StatusUpdateUrl, header, body))
  }

  lemma AggregateOne(p: (Str, Str), link: Str, quoted: bool)
    ensures AggregateParameters([p], link, quoted) == Render(p, quoted)
  {
    assert Sorting.Sort([p], KeyOrder) == [p];
    assert RenderAll([p], quoted) == [Render(p, quoted)];
  }

  lemma AggregateTwo(p: (Str, Str), q: (Str, Str), link: Str, quoted: bool)
    requires OrdinalLess(q.0, p.0)
    ensures AggregateParameters([p, q], link, quoted) == Render(q, quoted) + link + Render(p, quoted)
  {
    assert [p, q][1..] == [q];
    assert Sorting.Sort([q], KeyOrder) == [q];
    assert Sorting.Insert(p, [q], KeyOrder) == [q, p];
    assert Sorting.Sort([p, q], KeyOrder) == [q, p];
    assert RenderAll([q, p], quoted) == [Render(q, quoted), Render(p, quoted)];
    var items := [Render(q, quoted), Render(p, quoted)];
    assert items[..1] == [Render(q, quoted)];
    assert Join(items, link) == Render(q, quoted) + link + Render(p, quoted);
  }

  lemma StatusBodyShape(text: Str, mediaIds: Option<Str>)
    ensures var r := AggregateParameters(EncodePairs(StatusParameters(text, mediaIds)), [Amp], false);
      && (mediaIds.None? ==> r == StatusKey + [Equals] + PercentEncode(text))
      && (mediaIds.Some? ==>
          r == (MediaIdsKey + [Equals] + PercentEncode(mediaIds.value)) + [Amp] + (StatusKey + [Equals] + PercentEncode(text)))
  {
    if mediaIds.None? {
      StatusBodyWithoutMedia(text);
    } else {
      StatusBodyWithMedia(text, mediaIds.value);
    }
  }

  lemma EncodePairsTwo(p: (Str, Str), q: (Str, Str))
    ensures EncodePairs([p]) == [EncodePair(p)]
    ensures EncodePairs([p, q]) == [EncodePair(p), EncodePair(q)]
  {
    var e := EncodePairs([p, q]);
    assert |e| == 2;
  }

  lemma StatusBodyWithoutMedia(text: Str)
    ensures AggregateParameters(EncodePairs(StatusParameters(text, None)), [Amp], false)
         == StatusKey + [Equals] + PercentEncode(text)
  {
    assert StatusParameters(text, None) == [(StatusKey, text)];
    EncodePairsTwo((StatusKey, text), (StatusKey, text));
    StatusKeysEncoded();
    var st := (StatusKey, PercentEncode(text));
    assert EncodePair((StatusKey, text)) == st;
    AggregateOne(st, [Amp], false);
  }

  lemma StatusBodyWithMedia(text: Str, m: Str)
    ensures AggregateParameters(EncodePairs(StatusParameters(text, Some(m))), [Amp], false)
         == (MediaIdsKey + [Equals] + PercentEncode(m)) + [Amp] + (StatusKey + [Equals] + PercentEncode(text))
  {
    assert StatusParameters(text, Some(m)) == [(StatusKey, text), (MediaIdsKey, m)];
    EncodePairsTwo((StatusKey, text), (MediaIdsKey, m));
    StatusKeysEncoded();
    var st := (StatusKey, PercentEncode(text));
    var md := (MediaIdsKey, PercentEncode(m));
    assert EncodePair((StatusKey, text)) == st;
    assert EncodePair((MediaIdsKey, m)) == md;
    StatusKeysOrder();
    AggregateTwo(st, md, [Amp], false);
  }

  /** `UploadMedia` signs with no request parameters (the multipart body is not signed). */
  function UploadAuthorization(cred: Credentials, hmac: (seq<Byte>, seq<Byte>) -> seq<Byte>, base64: seq<Byte> -> Str)
    : (r: Result<Header, SignError>)
    ensures r.Success? <==> DistinctKeys(EncodePairs(cred.oauthParameters))
                             && SignatureKey !in Keys(EncodePairs(cred.oauthParameters))
  {
    assert cred.oauthParameters + [] == cred.oauthParameters;
    AuthorizationHeader(cred, [], Post, MediaUploadUrl, hmac, base64)
  }

  /** The `StringBuilder` loop of `GetMultipleUsers`: each name followed by ','
      except the last. */
  method JoinNames(data: seq<Str>) returns (r: Str)
    ensures r == Join(data, [Comma])
  {
    r := [];
    var i := 0;
    while i < |data|
      invariant 0 <= i <= |data|
      invariant r == if i == 0 then [] else Join(data[..i], [Comma]) + (if i < |data| then [Comma] else [])
    {
      assert data[..i + 1][..i] == data[..i];
      r := r + data[i] + (if i == |data| - 1 then [] else [Comma]);
      i := i + 1;
    }
    assert data[..|data|] == data;
  }

  /** `users/lookup.json?<dataType>=<names joined by ','>`; the names are not percent-encoded. */
  function LookupUrl(dataType: Str, data: seq<Str>): Str {
    Lit("https://api.twitter.com/1.1/users/lookup.json?") + dataType + [Equals] + Join(data, [Comma])
  }

  /** Every name reaches the request unchanged: a code unit of any name is in the URL. */
  lemma LookupUrlContains(dataType: Str, data: seq<Str>, k: nat, c: CodeUnit)
    requires k < |data| && c in data[k]
    ensures c in LookupUrl(dataType, data)
  {
    JoinContains(data, [Comma], k, c);
  }
}
