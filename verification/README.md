# DizQueDisse curation core in Dafny

DizQueDisse is a small ASP.NET Core site that curates tweets by Portuguese
comedians and posts to its own Twitter account. This project models its
decision logic as pure Dafny functions over immutable data and proves what
that logic guarantees. The HTTP calls, the database, the timers and the image
rendering are replaced by explicit inputs: what a fetch returned (`None` for a
failed request), a `now` tick count for the clock, the random draws, and
uninterpreted functions for HMAC-SHA1 and Base64.

| module | file | models |
|---|---|---|
| `Wrappers` | wrappers.dfy | `Option` and `Result`, the exceptions and nulls of the C# code |
| `Text` | text.dfy | .NET strings as UTF-16 code units, `ToString`/`Parse` of numbers, `Join`/`Split`, ordinal order |
| `Models` | models.dfy | the entities of `Models/` and the tables of `MyDbContext` |
| `Sorting` | sorting.dfy | the LINQ steps the services chain: stable `OrderBy`, `Where`, `OrderBy(...).First()` |
| `PercentEncoding` | percent_encoding.dfy | `TwitterService.PercentEncode` (sections 2.3 of RFC 3986 and 3.6 of RFC 5849) |
| `OAuth` | oauth.dfy | OAuth 1.0a signing in `TwitterService` (section 3.4 and 3.5.1 of RFC 5849), the requests of `SendTweet`, `UploadMedia`, `GetMultipleUsers` |
| `Scheduler` | scheduler.dfy | `MainTimerService`: next contributor, ranking, merge of selected tweets, seeding |
| `Review` | review.dfy | `AppService`: review pages and the `ParseOlderThanThis` cursor |
| `Manager` | manager.dfy | `ManagerController`: request validation and the bulk state update |
| `Quotes` | quotes.dfy | `QuoteService`: next quote, the outcomes of `Act`, the quote tweet |
| `Calendar` | calendar.dfy | `DateTime` ticks, `Hour`, `AddDays(1)`, the `dd-MM-yyyy` and `yyyy-MM-dd` formats |
| `Ipma` | ipma.dfy | `IPMAService`: entry selection and the mapping of IPMA forecasts to reports |
| `Weather` | weather.dfy | `WeatherService`: the forecast-date rule and the digest text |

Some things in the model follow the code rather than the OAuth standard or
the intent stated in comments:

- The authorization header lists the request parameters next to the `oauth_`
  ones (`OAuth.HeaderListsRequestParameters`).
- Parameters are ordered by key only.
- A lone surrogate code unit is encoded as the three bytes of U+FFFD
  (`PercentEncoding.AstralCharacterIsReplaced`).
- `PublishingState` admits every `int`, and so does `Enum.TryParse` of a numeric string.
- `Update` has no lifecycle guard (`Manager.LastEntryWins`).

## Model

| member | source | states |
|---|---|---|
| Text.ParseULongOfFormatNat | DizQueDisse/Services/AppService.cs:101-103 | the decimal text of every value from 0 to `ulong.MaxValue` parses back to that value |
| Text.ParseInt32 | DizQueDisse/Services/IPMAService.cs:76 | `int.Parse` succeeds only on digits after an optional '-' or '+', within the range of a C# `int`; it reads plain digits, "+digits" and "-digits" (leading zeros allowed) as their signed decimal value, and does so whenever that value is in range |
| Text.ParseInt32OfFormatInt | DizQueDisse/Models/ViewModels.cs:17 | the decimal text of any `int`, minus sign included, parses back to that `int` |
| Text.DigitsValueOfFormatNat | DizQueDisse/Models/ViewModels.cs:17 | `ToString()` of a natural number reads back as the number |
| Text.PadNat | DizQueDisse/Services/WeatherService.cs:74 | the zero-padded field is all digits, reads back as the number, and is exactly `width` long when the number fits |
| Text.SplitJoin | DizQueDisse/Services/WeatherService.cs:73-78 | splitting a join at a separator that no item contains gives back the items |
| Text.JoinContains | DizQueDisse/Services/TwitterService.cs:227-229 | every code unit of every item appears in the joined text |
| Text.JoinCount | DizQueDisse/Services/TwitterService.cs:228-229 | joining n items that do not contain the separator puts exactly n-1 separators in the text |
| Text.OrdinalTrichotomy | DizQueDisse/Services/TwitterService.cs:334 | any two keys are equal or ordered one way or the other under the ordinal order |
| Text.OrdinalTransitive | DizQueDisse/Services/TwitterService.cs:334 | the ordinal key order is transitive |
| Sorting.Sort | DizQueDisse/Services/TwitterService.cs:334 | `OrderBy` returns a permutation of its input |
| Sorting.SortSorted | DizQueDisse/Services/AppService.cs:83 | under a total preorder, the sorted output is in order |
| Sorting.SortStable | DizQueDisse/Services/MainTimerService.cs:200-201 | the sort is stable: elements that tie keep their input order |
| Sorting.Filter | DizQueDisse/Services/MainTimerService.cs:202 | `Where` keeps exactly the elements the predicate accepts, each drawn from the input |
| Sorting.FilterSorted | DizQueDisse/Services/MainTimerService.cs:200-202 | filtering an ordered sequence leaves it ordered |
| Sorting.FirstMin | DizQueDisse/Services/QuoteService.cs:81-83 | `OrderBy(key).First()` picks an element with the least key, and the first such one |
| Sorting.MapPermutation | DizQueDisse/Services/WeatherService.cs:70-76 | mapping two permutations of each other gives permutations of each other |
| PercentEncoding.PercentEncode | DizQueDisse/Services/TwitterService.cs:344-381 | the output holds only unreserved characters and '%', so never a separator such as '&', '=' or '"' |
| PercentEncoding.EncodeUnit | DizQueDisse/Services/TwitterService.cs:357-377 | a code unit is copied iff it is unreserved; NUL vanishes; any other unit becomes three characters for each non-zero UTF-8 byte |
| PercentEncoding.EscapeBytes | DizQueDisse/Services/TwitterService.cs:369-376 | each non-zero byte becomes one three-character `%XX` escape; zero bytes are dropped |
| PercentEncoding.HexDigit | DizQueDisse/Services/TwitterService.cs:375 | a digit of the escape is an uppercase hex digit that reads back as its value |
| PercentEncoding.Utf8Scalar | DizQueDisse/Services/TwitterService.cs:367 | UTF-8 takes 1 to 4 bytes, none of them zero for a non-zero scalar |
| PercentEncoding.DecodeEncodeUnit | DizQueDisse/Services/TwitterService.cs:357-377 | the encoding of one code unit decodes to that unit's bytes |
| PercentEncoding.DecodePercentEncode | DizQueDisse/Services/TwitterService.cs:357-380 | the output is well formed and decodes to the bytes of each unit in order |
| PercentEncoding.PercentEncodeRoundTrip | DizQueDisse/Services/TwitterService.cs:357-378 | for text without NUL or surrogates, decoding the escapes gives exactly the UTF-8 bytes of the text |
| PercentEncoding.PercentEncodeConcat | DizQueDisse/Services/TwitterService.cs:357-361 | encoding distributes over concatenation: each code unit is encoded on its own, whatever its neighbours |
| PercentEncoding.PercentEncodeUnreserved | DizQueDisse/Services/TwitterService.cs:355-361 | a string of unreserved characters is its own encoding |
| PercentEncoding.AstralCharacterIsReplaced | DizQueDisse/Services/TwitterService.cs:346-367 | a character outside the BMP is encoded as two U+FFFD replacement characters, not as its own UTF-8 bytes |
| OAuth.EncodePairs | DizQueDisse/Services/TwitterService.cs:170-172 | every pair is percent-encoded in place, key and value, and nothing else changes |
| OAuth.AddEncoded | DizQueDisse/Services/TwitterService.cs:54-56 | adding the encoded parameters succeeds iff the encoded keys are pairwise distinct; a collision is the `Add` exception |
| OAuth.SortByKey | DizQueDisse/Services/TwitterService.cs:334 | a permutation of the pairs in ascending ordinal key order |
| OAuth.KeyOrderIsTotalPreorder | DizQueDisse/Services/TwitterService.cs:334 | ordering pairs by key alone is a total preorder |
| OAuth.AggregateParameters | DizQueDisse/Services/TwitterService.cs:332-336 | the rendered pairs in key order, separated by the link, with no separator at either end; empty iff there are no pairs |
| OAuth.FoldLinkIsJoin | DizQueDisse/Services/TwitterService.cs:335 | the `Aggregate` fold that adds the link only after a non-empty prefix is a plain join when no item is empty |
| OAuth.AggregateListsEveryPair | DizQueDisse/Services/TwitterService.cs:332-336 | with distinct keys every pair is listed, with quote marks when asked, and keys strictly ascend |
| OAuth.AggregateTwo | DizQueDisse/Services/TwitterService.cs:332-336 | two pairs come out in key order joined by the link |
| OAuth.SignatureBaseString | DizQueDisse/Services/TwitterService.cs:58-60 | the base string contains exactly two '&' |
| OAuth.BaseStringDeterminesFields | DizQueDisse/Services/TwitterService.cs:60 | equal base strings have equal encoded method, URL and parameter string |
| OAuth.SigningKey | DizQueDisse/Services/TwitterService.cs:63 | the signing key contains exactly one '&' |
| OAuth.SigningKeyDeterminesSecrets | DizQueDisse/Services/TwitterService.cs:63 | equal signing keys have equal encoded consumer and token secrets |
| OAuth.AsciiBytes | DizQueDisse/Services/TwitterService.cs:66-67 | `Encoding.ASCII` gives only bytes below 0x80 and never more bytes than units; in text without surrogates it keeps each unit below 0x80 and turns each other unit into '?' |
| OAuth.AsciiBytesOfAscii | DizQueDisse/Services/TwitterService.cs:66-67 | the ASCII text the signer passes (percent-encoded key and base string) is copied unit for unit |
| OAuth.AstralCharacterIsOneQuestionMark | DizQueDisse/Services/TwitterService.cs:66-67 | a character outside the BMP, a surrogate pair, becomes a single '?' |
| OAuth.SignatureKeyEncoded | DizQueDisse/Services/TwitterService.cs:72 | `oauth_signature` is its own encoding |
| OAuth.AuthorizationHeader | DizQueDisse/Services/TwitterService.cs:47-75 | fails iff two parameters share an encoded key or one is `oauth_signature`; otherwise the scheme is `OAuth` and the value joins the quoted signed pairs with ", " in key order |
| OAuth.SignedPairsListed | DizQueDisse/Services/TwitterService.cs:71-73 | every encoded parameter and the signature appear in the header, one entry each |
| OAuth.HeaderListsRequestParameters | DizQueDisse/Services/TwitterService.cs:71-73 | every request parameter appears encoded and quoted in the header, next to the OAuth parameters and the signature |
| OAuth.StatusParameters | DizQueDisse/Services/TwitterService.cs:157-160 | the parameters always hold `status` with the text, and hold `media_ids` iff a media id is given |
| OAuth.StatusKeysOrder | DizQueDisse/Services/TwitterService.cs:158-160 | `media_ids` sorts before `status` |
| OAuth.SendTweetRequest | DizQueDisse/Services/TwitterService.cs:154-174 | succeeds iff the header can be built; the form body is `status=<text>`, after `media_ids=<id>&` when there is media |
| OAuth.StatusBodyShape | DizQueDisse/Services/TwitterService.cs:170-174 | the body lists the encoded `media_ids` pair before the `status` pair, joined by '&' |
| OAuth.UploadAuthorization | DizQueDisse/Services/TwitterService.cs:124-132 | with no request parameters, the upload header succeeds iff the encoded OAuth parameter keys are distinct and none is `oauth_signature` |
| OAuth.JoinNames | DizQueDisse/Services/TwitterService.cs:227-230 | the loop puts ',' after every name but the last, which is `Join` with ',' |
| Scheduler.Wrap32 | DizQueDisse/Services/MainTimerService.cs:201 | `int` addition wraps into the 32-bit range and agrees with the true sum modulo 2^32 |
| Scheduler.Score | DizQueDisse/Services/MainTimerService.cs:201 | the score is null iff either counter is null; otherwise it is an `int` congruent to the true sum modulo 2^32, and equal to the sum whenever the sum fits in an `int` |
| Scheduler.PositiveByKey | DizQueDisse/Services/MainTimerService.cs:202 | a tweet passes the `> 0` filter iff its sort key is positive |
| Scheduler.TakeAtMost | DizQueDisse/Services/MainTimerService.cs:203 | `Take(n)` is a prefix of length min(n, size) |
| Scheduler.RankedCandidates | DizQueDisse/Services/MainTimerService.cs:200-202 | the positive-score tweets, all of them, in descending score order |
| Scheduler.Rank | DizQueDisse/Services/MainTimerService.cs:197-203 | at most five tweets, each with a positive score, in non-increasing score order, drawn from the fetch |
| Scheduler.RankKeepsFetchOrderOfTies | DizQueDisse/Services/MainTimerService.cs:200-201 | tweets with equal scores stay in fetch order |
| Scheduler.RankDominates | DizQueDisse/Services/MainTimerService.cs:200-203 | a positive-score tweet left out means five tweets were ranked, each scoring at least as much |
| Scheduler.FindOwned | DizQueDisse/Services/MainTimerService.cs:214 | the contributor's first row with the tweet id |
| Scheduler.MergeOne | DizQueDisse/Services/MainTimerService.cs:209-228 | a known id re-stamps the contributor's first row for it exactly when that row is `Unchecked`, and stores the fresh tweet only then; every other old row is unchanged; an unknown id appends one fresh `Unchecked` row and stores the tweet |
| Scheduler.Merge | DizQueDisse/Services/MainTimerService.cs:206-229 | the contributor's ids become old ids plus ranked ids; old rows are untouched or re-stamped; new rows are fresh and `Unchecked`; nothing is added when every id was known |
| Scheduler.MergeRestamps | DizQueDisse/Services/MainTimerService.cs:209-222 | an old row changes exactly when it is the contributor's first row for a ranked id they already had and is still `Unchecked`; it then gets `SelectedAt = now` and nothing else changes |
| Scheduler.MergeStoresTweets | DizQueDisse/Services/MainTimerService.cs:212-227 | every ranked tweet that is new to the contributor or still `Unchecked` is stored with its last ranked counters; every other stored tweet is kept as it was |
| Scheduler.MergeOneExtends | DizQueDisse/Services/MainTimerService.cs:209-228 | one merge step only re-stamps old rows or appends fresh ones |
| Scheduler.MergeDistinct | DizQueDisse/Services/MainTimerService.cs:211-228 | distinct tweet ids stay distinct after merging distinct ranked tweets |
| Scheduler.MergeKeepsOwnedIdsDistinct | DizQueDisse/Services/MainTimerService.cs:206-228 | the merge against the contributor's own ids keeps the one-row-per-tweet rule |
| Scheduler.CheckTweets | DizQueDisse/Services/MainTimerService.cs:168-233 | a null screen name throws before any change; otherwise `LastUpdate` becomes `now` even when the fetch fails; an empty or failed fetch changes no selected tweet |
| Scheduler.CheckTweetsRefreshes | DizQueDisse/Services/MainTimerService.cs:198-228 | a successful check re-stamps exactly the contributor's first `Unchecked` row of each ranked tweet they already had, stores the fresh counters of each ranked tweet that is new or still `Unchecked`, and leaves every other row and stored tweet unchanged |
| Scheduler.CheckTweetsTwiceAddsNothing | DizQueDisse/Services/MainTimerService.cs:209-228 | checking the same fetch again adds no row and no id |
| Scheduler.NextContributor | DizQueDisse/Services/MainTimerService.cs:156 | the contributor with the least `LastUpdate`, never-checked first; none when the table is empty |
| Scheduler.CheckNext | DizQueDisse/Services/MainTimerService.cs:150-159 | the picked contributor is checked and stamped `now`; no contributor or a null screen name is an error |
| Scheduler.NextSkipsJustChecked | DizQueDisse/Services/MainTimerService.cs:156-193 | with the clock past every stamp, the contributor just checked is not picked next |
| Scheduler.AddTweetUsers | DizQueDisse/Services/MainTimerService.cs:123-144 | stored users are kept; every new id is stored with the batch's first user of that id (a later duplicate finds it already stored) and gets exactly one contributor stamped `now` |
| Scheduler.KnownUsersSkipped | DizQueDisse/Services/MainTimerService.cs:131-133 | a batch of already stored users changes nothing |
| Scheduler.AddTweetUsersIdempotent | DizQueDisse/Services/MainTimerService.cs:129-140 | importing the same users a second time changes nothing |
| Scheduler.AddSeedContributors | DizQueDisse/Services/MainTimerService.cs:87-116 | a no-op once any contributor exists or when the lookup fails; otherwise stored users are kept, each new id is stored with the first looked-up user of that id, and gets one contributor |
| Scheduler.SeedNamesAreScreenNames | DizQueDisse/Services/MainTimerService.cs:100 | every corrected seed name is a valid screen name (1 to 15 letters, digits or '_') |
| Scheduler.SeedLookupCarriesMark | DizQueDisse/Services/MainTimerService.cs:100-106 | the one user lookup for the seed names carries the U+200F mark of the names as written |
| OAuth.LookupUrlContains | DizQueDisse/Services/TwitterService.cs:226-234 | every code unit of every requested name reaches the lookup URL |
| Scheduler.SeedNamesAsWrittenCarryMark | DizQueDisse/Services/MainTimerService.cs:100 | as written, the second seed name is the intended name plus U+200F and is not a valid screen name |
| Review.Candidates | DizQueDisse/Services/AppService.cs:39-40 | every kept row matches the criterion and its id parses below the bound; every such row is kept; an unparsable id in a matching row throws |
| Review.NewestFirst | DizQueDisse/Services/AppService.cs:83-84 | at most eight candidates, in non-increasing id order |
| Review.PageRows | DizQueDisse/Services/AppService.cs:78-85 | at most eight matching rows below the bound, drawn from the table, ids non-increasing |
| Review.LeftOutOfNewestFirst | DizQueDisse/Services/AppService.cs:83-84 | a candidate left off the page means eight rows were taken, each with an id at least as large |
| Review.PageIsNewest | DizQueDisse/Services/AppService.cs:82-84 | every matching row below the bound that is not on the page is older than every row on it |
| Review.CandidatesOnce | DizQueDisse/Services/AppService.cs:82 | with distinct numeric ids, no candidate is listed twice |
| Review.PageStrictlyDescending | DizQueDisse/Services/AppService.cs:83 | with distinct numeric ids the page is strictly descending |
| Review.ViewOf | DizQueDisse/Models/ViewModels.cs:14-18 | the view keeps the tweet id, and its state text parses back to the state number |
| Review.Query | DizQueDisse/Services/AppService.cs:36-62 | a page of at most eight views; fails iff a matching row has an unparsable id |
| Review.ParseOlderThanThis | DizQueDisse/Services/AppService.cs:98-116 | no cursor, or one that no stored row has as its id, is `MaxValue`; a stored cursor is taken as its number when it parses, and as 0 when `TryParse` rejects it |
| Review.CursorIsStoredId | DizQueDisse/Services/AppService.cs:106-113 | when all stored ids are numeric, a bounded cursor is the parsed id of a stored row |
| Manager.StateNamed | DizQueDisse/Models/SelectedTweet.cs:9 | a member name yields one of the six defined states, 0 to 5 |
| Manager.ParseState | DizQueDisse/Controllers/ManagerController.cs:60 | numeric text parses exactly when it is an `int`, to the state with that number; other text must name a member and then yields one of the six defined states 0 to 5 |
| Manager.ParseStateOfFormatInt | DizQueDisse/Controllers/ManagerController.cs:60 | the decimal text of every `int` parses to the state with that number, defined by the enum or not |
| Manager.ParseStateOfName | DizQueDisse/Models/SelectedTweet.cs:9 | each of the six member names parses to its member |
| Manager.ParseStateOfView | DizQueDisse/Controllers/ManagerController.cs:60 | the state text a page shows parses back to the row's state |
| Manager.MoreByState | DizQueDisse/Controllers/ManagerController.cs:56-65 | bad request iff the cursor is given but rejected or the state does not parse; otherwise exactly the reply to the query for that state below the cursor: at most eight views, each in the state and below the cursor |
| Manager.MoreByScreenName | DizQueDisse/Controllers/ManagerController.cs:75-85 | bad request iff the cursor is rejected or the name is null, empty, longer than 50 or unknown; otherwise exactly the reply to the query for that contributor below the cursor |
| Manager.FirstWithId | DizQueDisse/Controllers/ManagerController.cs:96 | `FirstOrDefault` by tweet id: the first row with the id, none iff no row has it |
| Manager.MoreById | DizQueDisse/Controllers/ManagerController.cs:93-101 | bad request iff the id is null, empty or unknown; otherwise exactly one view, of a stored row with that id |
| Manager.LastNewState | DizQueDisse/Controllers/ManagerController.cs:113-118 | the state of the last entry that names the id, none iff no entry names it |
| Manager.ExpectedStep | DizQueDisse/Controllers/ManagerController.cs:113-122 | one more entry changes only the first row with its id |
| Manager.ApplyChange | DizQueDisse/Controllers/ManagerController.cs:115-120 | one entry keeps the number of rows and every tweet id |
| Manager.ApplyChangeExpected | DizQueDisse/Controllers/ManagerController.cs:113-122 | applying one entry after a prefix gives the expected rows of the longer prefix |
| Manager.LastEntryWins | DizQueDisse/Controllers/ManagerController.cs:113-119 | no transition check: an entry sets any state, `Unchecked` included, and the last entry for the id decides |
| Manager.Update | DizQueDisse/Controllers/ManagerController.cs:108-124 | bad request iff the list is null or empty; otherwise the first row of each listed id takes the last listed state and is stamped checked, unknown ids are ignored, and other rows and tables are unchanged |
| Quotes.NextQuote | DizQueDisse/Services/QuoteService.cs:75-86 | the first quote with the least `TweetedAt`, never-tweeted quotes counting as `MinValue`; an empty table throws |
| Quotes.Stamp | DizQueDisse/Services/QuoteService.cs:56-62 | only the chosen quote changes, and only its `TweetedAt`, which becomes `now` |
| Quotes.QuoteTweetRequest | DizQueDisse/Services/QuoteService.cs:127-134 | the quote tweet has empty text and the media id; a failed upload still posts, with body `status=` alone |
| Quotes.Act | DizQueDisse/Services/QuoteService.cs:41-67 | true iff an image was rendered and the post succeeded; on false nothing is stamped; on true only the chosen quote is stamped `now` |
| Quotes.Picks | DizQueDisse/Services/QuoteService.cs:41-67 | a run of successful acts picks one quote per act |
| Quotes.StampKeepsPickedLater | DizQueDisse/Services/QuoteService.cs:60 | stamping the least recently tweeted quote with a later time keeps the picked quotes ahead of the others |
| Quotes.NextIsUnused | DizQueDisse/Services/QuoteService.cs:81-83 | while some quote is unpicked, the next pick is an unpicked quote |
| Quotes.PicksAvoid | DizQueDisse/Services/QuoteService.cs:60-83 | a run picks no already picked quote and no quote twice |
| Quotes.NoRepeatBeforeAllTweeted | DizQueDisse/Services/QuoteService.cs:60-83 | with a clock that never goes back, no quote is tweeted twice before every quote has been tweeted |
| Calendar.Hour | DizQueDisse/Services/WeatherService.cs:40 | `Hour` is below 24 and is the hour the time of day falls in |
| Calendar.NextDay | DizQueDisse/Services/WeatherService.cs:40 | `AddDays(1)` is the same time of day on the following day |
| Calendar.DayMonthYear | DizQueDisse/Services/WeatherService.cs:74 | a valid date is written in ten characters with dashes at 2 and 5 |
| Calendar.YearMonthDay | DizQueDisse/Services/IPMAService.cs:54 | a valid date is written in ten characters with dashes at 4 and 7 |
| Calendar.DayMonthYearRoundTrip | DizQueDisse/Services/WeatherService.cs:74 | `dd-MM-yyyy` reads back as the date it was written from |
| Calendar.YearMonthDayRoundTrip | DizQueDisse/Services/IPMAService.cs:54 | `yyyy-MM-dd` reads back as the date it was written from |
| Calendar.YearMonthDayInjective | DizQueDisse/Services/IPMAService.cs:54-55 | different dates have different `yyyy-MM-dd` texts, so the prefix test picks out one day |
| Ipma.LocationName | DizQueDisse/Services/IPMAService.cs:72 | a code has a place name iff it is in the table, and the name is the table's |
| Ipma.LocationNameOfTable | DizQueDisse/Services/IPMAService.cs:85-91 | each of the four codes names its own place |
| Ipma.FirstUsableFrom | DizQueDisse/Services/IPMAService.cs:55 | the first usable entry at or after a position, none iff there is no usable entry there |
| Ipma.SelectEntry | DizQueDisse/Services/IPMAService.cs:55 | the first entry for the day with a maximum temperature; null iff there is none |
| Ipma.ToReport | DizQueDisse/Services/IPMAService.cs:69-79 | succeeds iff the code is known, there is an entry and its weather type parses into 0..27; the report carries the table name, the date, both temperatures and the description |
| Ipma.GetWeatherReport | DizQueDisse/Services/IPMAService.cs:45-79 | for a known code it fails for want of a forecast iff no entry is usable for the date; it succeeds iff the code is known and the first usable entry has a known weather type, and the report is that entry's temperatures and weather description with the place name and the date |
| Ipma.NoForecastIffNoUsableEntry | DizQueDisse/Services/IPMAService.cs:55-74 | each table location lacks a forecast exactly when none of its entries is usable for the date |
| Ipma.ReportsOf | DizQueDisse/Services/IPMAService.cs:30-31 | one report per code, in order; succeeds iff every code succeeds |
| Ipma.TableCodes | DizQueDisse/Services/IPMAService.cs:30 | the table's codes in insertion order |
| Ipma.GetWeatherReports | DizQueDisse/Services/IPMAService.cs:25-34 | four reports, report k being location k's own report, in table order; succeeds iff every location does |
| Weather.ForecastTime | DizQueDisse/Services/WeatherService.cs:40 | the forecast day is tomorrow iff the hour is past 12, else today, at the same time of day |
| Weather.Header | DizQueDisse/Services/WeatherService.cs:74 | `Previsão para dia ` then the date, which reads back, then ':' |
| Weather.ReportLine | DizQueDisse/Services/WeatherService.cs:76 | starts with the location and ": ", ends with "ºC ", has the fixed length of its parts, and is one line iff the fields are |
| Weather.Shuffle | DizQueDisse/Services/WeatherService.cs:69-70 | ordering by the random draws gives a permutation of the reports |
| Weather.BodyLines | DizQueDisse/Services/WeatherService.cs:70-76 | one line per report, the report lines in some order |
| Weather.AppendLinesJoin | DizQueDisse/Services/WeatherService.cs:73-78 | `AppendLine` of each part is a join with the terminator plus a final empty line |
| Weather.AppendLinesStart | DizQueDisse/Services/WeatherService.cs:73-74 | the text starts with the first line and its terminator |
| Weather.Digest | DizQueDisse/Services/WeatherService.cs:63-79 | an empty report array throws; otherwise the header of the first report's date, then the report lines, each line terminated |
| Weather.DigestLines | DizQueDisse/Services/WeatherService.cs:65-78 | split at line feeds, the digest is the header, exactly one line per report as a permutation of the report lines, and a final empty piece |
| Weather.Act | DizQueDisse/Services/WeatherService.cs:35-55 | fails iff a report fails; otherwise returns whether the post succeeded, and the text is the digest of the forecast date's reports, starting with its header |

## Left out

- HTTP, JSON and the Twitter and IPMA APIs are left out. `GetTweets`, `GetUser`, `GetMultipleUsers`, `UploadMedia`, `SetBearerToken` and the IPMA fetch appear only as their results, passed in.
- HMAC-SHA1 and Base64 are uninterpreted function parameters. The OAuth parameter dictionary and the secrets come from configuration that is not part of this model.
- Image generation (`GenerateQuoteMedia` and `MyQuoteDrawingApp`) is left out: the rendered bytes are an input.
- `Random` is left out: the draws are an input, one per report.
- The clock is a `now` parameter. The code reads `DateTime.UtcNow` anew for each user, row or entry; the model uses one value per call.
- The .NET calendar (day number to year, month and day) is a parameter (`Calendar.CivilOf`). The model does not cover the `AddDays` overflow at `DateTime.MaxValue`.
- The timer, `IHostedService`, async waits, EF Core scopes, `SaveChanges` atomicity and referential integrity are left out. Tables are sequences in insertion order, and row order is taken to be table order.
- `Environment.NewLine` is a parameter (`eol`). `Weather.DigestLines` is stated for "\n".
- Culture-sensitive string order and `StartsWith` are modelled as ordinal. Database collation, which may compare screen names without case, is left out too.
- Null strings inside IPMA entries, tweets and users are left out, apart from the screen name and the entry itself.
- Manager.ParseState: `Enum.TryParse` also accepts surrounding whitespace and comma-separated lists of names; the model accepts a plain sign-and-digits number or an exact member name.
- Text.ParseULong: `ulong.TryParse` also accepts surrounding whitespace and a leading '+'; the model accepts plain digits only.
- Text.ParseInt32: the surrounding whitespace that `int.Parse` allows is not modelled; text with whitespace is rejected.
- Quotes.NoRepeatBeforeAllTweeted: stated for a clock whose first reading is later than every stored `TweetedAt`; with a stamp in the future a quote can come round again early.
- Review.PageStrictlyDescending: assumes no two rows have ids with the same numeric value (such as "01" and "1"); the unique index is on the id text.
- Scheduler.MergeKeepsOwnedIdsDistinct: assumes the ranked tweets have distinct ids, none selected by another contributor; the database index would reject a duplicate at `SaveChanges`.
- The JavaScript files, `AccountController`, `HomeController`, `SchedulerController`, `Startup`, `Program`, the `MyDbContext` mapping and the Azure timer functions are left out: they are UI, configuration and hosting code.

## Findings

| source | as written | input that shows it | evidently intended | confidence | as-written member | corrected member |
|---|---|---|---|---|---|---|
| DizQueDisse/Services/MainTimerService.cs:100-106 | 24 of the 25 seed screen names end in an invisible U+200F right-to-left mark, and the names go into the user lookup as written (the lookup URL carries the mark, `Scheduler.SeedLookupCarriesMark`) | the second name, "DiogoBeja" followed by U+200F, is not a Twitter screen name, so the lookup cannot match that account | the bare names, each a valid screen name | medium, not executed | Scheduler.SeedNamesAsWrittenCarryMark | Scheduler.SeedNamesAreScreenNames |
