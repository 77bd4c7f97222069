# Stocks: the sequential core of an Android stock-quote app, in Dafny

The app keeps a portfolio of monitored tickers, refreshes each one from a
JSON quote service, and shows a news feed read from RSS. Around the UI and
threading code sit a few small, deterministic pieces, and this project
models them with proofs about each:

- **Quote decoder** (`QuoteJsonParser.parse`). It takes the first line of
  the payload and cuts it from the first `{` to the last `}`. It then walks
  to `query → results → quote` and reads the fields in source order,
  because that order decides which exception escapes. `DaysLow == "null"`
  means the market is closed: the day's range stays at zero and `DaysHigh`
  is never read. `percentChange` is recomputed from the change and the
  price. Volumes are Java `long`s (`Quotes.Long`, the 64-bit range).
- **Ticker-suggestion decoder** (`TickerJsonParser.parse`). It uses the
  same brace cut, then puts each `ResultSet → Result` element into a
  `LinkedHashMap` as `"name (symbol)" → symbol`.
- **RSS item collector** (`RSSFeedXmlParser`). A pull-event walker with
  `readFeed`, `readRssItem`, `readTitle`, `readLink`, `readText` and the
  depth-counting `skip`. It is modelled over the token list the XML
  tokeniser produces. It is also proved equal, for every well-formed
  document, to a reference definition written over the document tree
  (`RssFeedSpec.FeedSpec`).
- **Portfolio** and the list shared with **QuoteAdapter**:
  - placeholder append;
  - case-insensitive removal, including its index-skip quirk;
  - building the request URL from the template with one `%s`, using
    application/x-www-form-urlencoded as defined in section 17.13.4.1 of
    HTML 4.01, over UTF-8;
  - `update`, a loop over the list against an abstract network.
- **Ticker-list persistence** (`MainActivity.saveStocksToPreferences` and
  the restore in `onCreate`). It joins the tickers with commas, restores
  them with Java's `split(",")`, and falls back to six default tickers.
- **`Utils.roundTwoPlaces`**: `BigDecimal.setScale(2, HALF_UP)` and
  `toPlainString`. Its input is modelled as the exact decimal
  `new BigDecimal(double)` produces.

Modelling choices:

- Outside calls are parameters:
  - the org.json tokeniser (`Json.Tokeniser`);
  - `Double.parseDouble` (`Json.DoubleParser`);
  - the network: the answer to the i-th request for a URL
    (`Portfolio.Network`).
- Java exceptions are values of `Results.Fault` and `RssFeedParser.XmlFault`.
  The parsers return them rather than throwing.
- A stream is `Results.Stream`: its content and an open flag. Every parser
  returns it closed.

`downloadQuoteFor` keeps the old quote when the payload is not valid JSON
(Portfolio.java:74-77), but it catches only `JSONException`. A
NumberFormatException, an index error, a NullPointerException or an
IOException therefore propagates out of `update` and aborts it. The model
follows the code, and the finding below gives the corrected version.

## Model

| member | source | states |
|---|---|---|
| Quotes.NewQuote | src/uk/co/ryanharrison/stocks/Quote.java:19-56 | a fresh Quote has every number 0 (both volumes, change, percentChange, day and year range, price) and every reference field null |
| Quotes.Placeholder | src/uk/co/ryanharrison/stocks/Portfolio.java:53-54 | the placeholder carries the given ticker, equals a fresh Quote in every other field, and has no data (null name) |
| Quotes.PercentChange | src/uk/co/ryanharrison/stocks/QuoteJsonParser.java:56 | the percentage is finite exactly when the price is non-zero, and then times the price it gives change × 100; a zero change gives 0 |
| Json.ParseObject | src/uk/co/ryanharrison/stocks/QuoteJsonParser.java:41 | `new JSONObject(text)` succeeds exactly when the tokeniser yields an object, and returns that object; otherwise a JSONException |
| Json.GetString | src/uk/co/ryanharrison/stocks/QuoteJsonParser.java:46-55 | a missing key is a JSONException; a string is returned as it is, and JSON null reads as the text "null" |
| Json.GetObject | src/uk/co/ryanharrison/stocks/QuoteJsonParser.java:41 | succeeds exactly when the key holds an object, and returns it; otherwise a JSONException |
| Json.GetArray | src/uk/co/ryanharrison/stocks/TickerJsonParser.java:46 | succeeds exactly when the key holds an array, and returns its elements; otherwise a JSONException |
| Json.ElementObject | src/uk/co/ryanharrison/stocks/TickerJsonParser.java:54 | succeeds exactly for an index inside the array whose element is an object |
| Json.ToDouble | src/uk/co/ryanharrison/stocks/QuoteJsonParser.java:47 | the parser's value when it accepts the text, otherwise a NumberFormatException |
| Json.ParseLong | src/uk/co/ryanharrison/stocks/QuoteJsonParser.java:46 | succeeds exactly for an optional sign followed by ASCII digits whose value is in the 64-bit range, and returns that value; otherwise a NumberFormatException |
| Json.ParseLongOfToString | src/uk/co/ryanharrison/stocks/QuoteJsonParser.java:46 | every long, printed in decimal, parses back to itself |
| JavaText.IndexOf | src/uk/co/ryanharrison/stocks/QuoteJsonParser.java:38 | -1 exactly when the character is absent; otherwise a position holding it with none earlier |
| JavaText.LastIndexOf | src/uk/co/ryanharrison/stocks/QuoteJsonParser.java:38 | -1 exactly when the character is absent; otherwise a position holding it with none later |
| JavaText.Substring | src/uk/co/ryanharrison/stocks/QuoteJsonParser.java:38 | fails with an index error exactly when 0 <= b <= e <= length does not hold; otherwise the characters b to e |
| JavaText.ReadLine | src/uk/co/ryanharrison/stocks/QuoteJsonParser.java:37 | null exactly for an empty payload; otherwise the longest prefix without a line break, which is followed by a line break or the end |
| JavaText.Split | src/uk/co/ryanharrison/stocks/MainActivity.java:202 | no piece contains the separator; without a separator the result is the whole string; otherwise the last piece is never empty |
| JavaText.PiecesOfJoin | src/uk/co/ryanharrison/stocks/MainActivity.java:202 | cutting a join of separator-free pieces at every separator gives the pieces back |
| JavaText.JoinOfPieces | src/uk/co/ryanharrison/stocks/MainActivity.java:202 | joining the pieces of a string at every separator gives the string back |
| JavaText.EqualsIgnoreCaseIsLowerCaseEquality | src/uk/co/ryanharrison/stocks/Portfolio.java:134 | two strings are equal ignoring case exactly when their lower-cased forms are equal |
| JavaText.ReplaceSingle | src/uk/co/ryanharrison/stocks/Portfolio.java:70 | when the pattern occurs exactly once, `replace` rewrites that one occurrence and leaves both sides intact |
| LinkedMap.Get | src/uk/co/ryanharrison/stocks/RSSFeedXmlParser.java:110 | null exactly for an absent key; otherwise the value of an entry with that key, the only such entry in a valid map |
| LinkedMap.Put | src/uk/co/ryanharrison/stocks/TickerJsonParser.java:59 | a present key keeps its place, a new key goes last; the key now maps to the new value, every other key is unchanged, and keys stay distinct |
| LinkedMap.FromPairsKeys | src/uk/co/ryanharrison/stocks/TickerJsonParser.java:50-59 | putting pairs in order gives a map whose keys are exactly the pairs' keys, each once, in order of first occurrence |
| LinkedMap.FromPairsGet | src/uk/co/ryanharrison/stocks/TickerJsonParser.java:59 | each key ends up with the value of the last pair that carries it |
| LinkedMap.FromPairsGetAbsent | src/uk/co/ryanharrison/stocks/TickerJsonParser.java:59 | a key that no pair carries is absent from the map |
| LinkedMap.FromPairsSize | src/uk/co/ryanharrison/stocks/TickerJsonParser.java:53-62 | the map has at most as many entries as pairs; with distinct keys it is the pair list itself |
| Jsonp.ExtractObject | src/uk/co/ryanharrison/stocks/QuoteJsonParser.java:38 | succeeds exactly when a '{' occurs and no later than one past the last '}'; the result runs from the first '{' to the last '}'; a missing '{' or a '}' before it is an index error |
| Jsonp.ExtractObjectIdempotent | src/uk/co/ryanharrison/stocks/QuoteJsonParser.java:38 | cutting an already cut, non-empty text again changes nothing |
| Jsonp.JsonText | src/uk/co/ryanharrison/stocks/TickerJsonParser.java:42-43 | an empty payload fails with a NullPointerException; otherwise the first line is cut from brace to brace |
| Jsonp.OnlyFirstLineMatters | src/uk/co/ryanharrison/stocks/QuoteJsonParser.java:37 | text after the first line break never changes the JSON text |
| QuoteJsonParser.GetLong | src/uk/co/ryanharrison/stocks/QuoteJsonParser.java:46 | a missing key is a JSONException; a value is the parse of the field's text, and every failure is JSON or number format |
| QuoteJsonParser.GetDouble | src/uk/co/ryanharrison/stocks/QuoteJsonParser.java:47 | a missing key is a JSONException; a value is what the double parser makes of the field's text |
| QuoteJsonParser.DecodeQuote | src/uk/co/ryanharrison/stocks/QuoteJsonParser.java:43-63 | a decoded quote needs every required key; it has data, and its ticker is the payload's Symbol, not the one requested; each field is the parse of its key, with marketCapitalization verbatim; the percentage is recomputed; DaysLow "null" leaves the day's range at 0, otherwise both DaysLow and DaysHigh are parsed; only JSON and number errors occur |
| QuoteJsonParser.QuoteObject | src/uk/co/ryanharrison/stocks/QuoteJsonParser.java:41 | succeeds exactly when query → results → quote are all objects, and returns the innermost one |
| QuoteJsonParser.ParseText | src/uk/co/ryanharrison/stocks/QuoteJsonParser.java:36-63 | a failure to cut the text is passed through; a quote comes from a cut text that tokenises to an object with a quote object that decodes |
| QuoteJsonParser.Parse | src/uk/co/ryanharrison/stocks/QuoteJsonParser.java:33-71 | the stream is closed on every path; a closed stream is an IOException, an empty one a NullPointerException, a first line without '{' an index error; an open stream decodes to the parse of its content |
| QuoteJsonParser.DaysHighIgnoredAfterSentinel | src/uk/co/ryanharrison/stocks/QuoteJsonParser.java:59-62 | when DaysLow is "null", removing DaysHigh from the object changes nothing, so its absence is no error |
| QuoteJsonParser.SameReads | src/uk/co/ryanharrison/stocks/QuoteJsonParser.java:46-61 | two objects that agree on a key read the same string, long and double from it |
| QuoteJsonParser.DecodeQuoteOfFields | src/uk/co/ryanharrison/stocks/QuoteJsonParser.java:43-63 | decoding inverts the service's encoding of a quote, before and after the market opens, when the double parser reads back what the service prints |
| TickerJsonParser.Label | src/uk/co/ryanharrison/stocks/TickerJsonParser.java:59 | the label is three characters longer than the name and the symbol together |
| TickerJsonParser.LabelParts | src/uk/co/ryanharrison/stocks/TickerJsonParser.java:59 | the label is the name, " (", the symbol and ")" |
| TickerJsonParser.LabelsCollide | src/uk/co/ryanharrison/stocks/TickerJsonParser.java:59 | two different (name, symbol) pairs can share a label, so one entry can silently replace another's symbol |
| TickerJsonParser.Suggestion | src/uk/co/ryanharrison/stocks/TickerJsonParser.java:54-59 | an element contributes exactly when it is an object with readable name and symbol; the entry is (label, symbol); failures are JSONExceptions |
| TickerJsonParser.Suggestions | src/uk/co/ryanharrison/stocks/TickerJsonParser.java:53-60 | succeeds exactly when every element does, giving one entry per element in array order; otherwise nothing |
| TickerJsonParser.ResultArrayOf | src/uk/co/ryanharrison/stocks/TickerJsonParser.java:46 | succeeds exactly when ResultSet is an object holding the array Result, and returns its elements |
| TickerJsonParser.ResultArray | src/uk/co/ryanharrison/stocks/TickerJsonParser.java:42-46 | a failure to cut the text is passed through; every later failure is a JSONException |
| TickerJsonParser.ParseText | src/uk/co/ryanharrison/stocks/TickerJsonParser.java:42-62 | the map is the suggestions put in array order into an empty insertion-ordered map, and exists exactly when the array and every element decode |
| TickerJsonParser.SuggestionsStep | src/uk/co/ryanharrison/stocks/TickerJsonParser.java:53-60 | one more element either fails the whole prefix or appends its own entry |
| TickerJsonParser.Parse | src/uk/co/ryanharrison/stocks/TickerJsonParser.java:36-70 | the loop of the source computes the reference map and returns a valid map; the stream is closed on every path, and a closed stream is an IOException |
| TickerJsonParser.ParseTextEntries | src/uk/co/ryanharrison/stocks/TickerJsonParser.java:50-62 | the map's keys are exactly the labels, each once, in order of first occurrence; it has at most one entry per element, and with distinct labels it is the entry list itself |
| TickerJsonParser.ParseTextLookup | src/uk/co/ryanharrison/stocks/TickerJsonParser.java:59 | a label maps to the symbol of the last element carrying it |
| TickerJsonParser.ParseTextEmpty | src/uk/co/ryanharrison/stocks/TickerJsonParser.java:53-62 | an empty result array gives an empty map |
| RssFeedParser.Next | src/uk/co/ryanharrison/stocks/RSSFeedXmlParser.java:98 | moves to the next event, never back to the start of the document; calling it at the end of the document is an error |
| RssFeedParser.NextTag | src/uk/co/ryanharrison/stocks/RSSFeedXmlParser.java:96 | a success rests on a start or end tag further on; the only failures are parse errors and running past the end |
| RssFeedParser.Require | src/uk/co/ryanharrison/stocks/RSSFeedXmlParser.java:133 | succeeds exactly on the expected tag and does not move; otherwise a parse error |
| RssFeedParser.ReadText | src/uk/co/ryanharrison/stocks/RSSFeedXmlParser.java:197-206 | when the next event is text, that text, with the parser moved to the following tag; otherwise "" with the parser on that next event |
| RssFeedParser.ReadTextElement | src/uk/co/ryanharrison/stocks/RSSFeedXmlParser.java:131-139 | `readLink`, and with the tag "title" `readTitle` (RSSFeedXmlParser.java:219-227): fails unless on the element's start tag; on success the parser rests on the element's end tag and the value is what `readText` gave |
| RssFeedParser.SkipLoop | src/uk/co/ryanharrison/stocks/RSSFeedXmlParser.java:249-260 | on success the parser rests on an end tag further on; the only failures are parse errors and running past the end |
| RssFeedParser.Skip | src/uk/co/ryanharrison/stocks/RSSFeedXmlParser.java:239-261 | off a start tag it is an IllegalStateException; on one it runs the depth loop from depth 1 |
| RssFeedParser.SkipLoopStopsAtMatchingEnd | src/uk/co/ryanharrison/stocks/RSSFeedXmlParser.java:246-260 | skip consumes tokens up to and including the first end tag that brings the depth to zero; the depth stays positive before that, and nothing after is read |
| RssFeedParser.ReadItemLoop | src/uk/co/ryanharrison/stocks/RSSFeedXmlParser.java:160-180 | on success it rests on an end tag further on; the only failures are parse errors and running past the end |
| RssFeedParser.ReadItem | src/uk/co/ryanharrison/stocks/RSSFeedXmlParser.java:153-184 | fails unless on an item start tag; otherwise reads the children starting from a null title and a null link |
| RssFeedParser.FeedLoop | src/uk/co/ryanharrison/stocks/RSSFeedXmlParser.java:98-116 | keeps the map valid (distinct keys) and never loses an entry |
| RssFeedParser.ReadFeed | src/uk/co/ryanharrison/stocks/RSSFeedXmlParser.java:92-118 | a failing first `nextTag` is passed through; every result is a valid map |
| RssFeedParser.ParseTokens | src/uk/co/ryanharrison/stocks/RSSFeedXmlParser.java:68-71 | every result is a valid insertion-ordered map; failures are parse errors or running past the end |
| RssFeedParser.Parse | src/uk/co/ryanharrison/stocks/RSSFeedXmlParser.java:62-79 | the stream is closed on every path; a closed stream is an IOException; an open one gives the walk over its tokens |
| RssFeedSpec.SkipElement | src/uk/co/ryanharrison/stocks/RSSFeedXmlParser.java:239-261 | skip from an element's start tag lands exactly on that element's end tag, whatever the element holds |
| RssFeedSpec.TextElementWalk | src/uk/co/ryanharrison/stocks/RSSFeedXmlParser.java:197-227 | reading a title or link element gives "" for no content, the text for one text run, and an error otherwise, ending on its end tag |
| RssFeedSpec.ItemWalk | src/uk/co/ryanharrison/stocks/RSSFeedXmlParser.java:153-184 | the item loop over an element's children computes the tree fold of its title and link children and ends on the element's end tag |
| RssFeedSpec.FeedWalk | src/uk/co/ryanharrison/stocks/RSSFeedXmlParser.java:98-116 | the feed loop over the channel's children puts exactly the item pairs of the reference definition, in order |
| RssFeedSpec.FeedFromRoot | src/uk/co/ryanharrison/stocks/RSSFeedXmlParser.java:92-118 | `readFeed` from the root tag finds the channel (the first child element, after at most one white-space text) and reads its items, or fails as the reference says |
| RssFeedSpec.ParseComputesFeedSpec | src/uk/co/ryanharrison/stocks/RSSFeedXmlParser.java:62-118 | for every well-formed document, the walk over its tokens and the full parse both equal the reference definition, failures included |
| RssFeedSpec.ItemPairsSucceedExactly | src/uk/co/ryanharrison/stocks/RSSFeedXmlParser.java:107-110 | the channel's items give pairs exactly when every item child reads without error; one bad item fails the feed |
| RssFeedSpec.ItemPairsAreItems | src/uk/co/ryanharrison/stocks/RSSFeedXmlParser.java:107-110 | exactly the item children contribute, one (title, link) pair each, in document order |
| RssFeedSpec.LaterChildOverwrites | src/uk/co/ryanharrison/stocks/RSSFeedXmlParser.java:160-180 | a later title child replaces the title, a later link the link; any other child, and text, change nothing |
| RssFeedSpec.MissingChildStaysNull | src/uk/co/ryanharrison/stocks/RSSFeedXmlParser.java:156-157 | an item without a title child keeps the null title, and one without a link child the null link |
| RssFeedSpec.FeedEntries | src/uk/co/ryanharrison/stocks/RSSFeedXmlParser.java:94-110 | one entry per distinct title, in order of first occurrence, never more than the items; with distinct titles it is the item list itself |
| RssFeedSpec.FeedLookup | src/uk/co/ryanharrison/stocks/RSSFeedXmlParser.java:110 | a title maps to the link of the last item carrying it |
| RssFeedSpec.LaterSiblingsIgnored | src/uk/co/ryanharrison/stocks/RSSFeedXmlParser.java:96-117 | what follows the channel inside the root never changes the result |
| Portfolio.TemplateHasOnePlaceholder | src/uk/co/ryanharrison/stocks/Portfolio.java:32 | the URL template holds `%s` only at the ticker's place |
| Portfolio.QuoteUrlShape | src/uk/co/ryanharrison/stocks/Portfolio.java:70 | the URL is the fixed prefix, the form-encoded ticker exactly as given (not lower-cased), and the fixed suffix |
| Portfolio.QuoteUrlInjective | src/uk/co/ryanharrison/stocks/Portfolio.java:70 | different tickers, including ones differing only in case, give different URLs |
| Portfolio.AddCompanyNoUpdate | src/uk/co/ryanharrison/stocks/Portfolio.java:49-56 | the list grows by one; earlier entries are unchanged; the new last entry is a fresh Quote carrying the ticker, without data |
| Portfolio.AddExistingTickerDuplicates | src/uk/co/ryanharrison/stocks/Portfolio.java:53-55 | adding a ticker already present gives two entries with that ticker |
| Portfolio.RemoveCompany | src/uk/co/ryanharrison/stocks/Portfolio.java:129-138 | the source's loop, which removes at i and still steps i, computes the reference removal; an examined null ticker is a NullPointerException after the removals so far |
| Portfolio.RemovedKeepsOthers | src/uk/co/ryanharrison/stocks/Portfolio.java:129-137 | removal, interrupted or not, keeps every non-matching entry in relative order and never grows the list |
| Portfolio.RemovedAllWhenSeparated | src/uk/co/ryanharrison/stocks/Portfolio.java:132-136 | with no null tickers and no two neighbouring matches, exactly the matching entries go |
| Portfolio.AdjacentMatchesSurvive | src/uk/co/ryanharrison/stocks/Portfolio.java:132-136 | of two neighbouring matches (MSFT, msft) only the first is removed |
| Portfolio.RemoveNullTicker | src/uk/co/ryanharrison/stocks/Portfolio.java:134 | a null argument matches nothing: a list without null tickers is unchanged |
| Portfolio.LoadJsonFromNetwork | src/uk/co/ryanharrison/stocks/Portfolio.java:100-121 | a transport failure is an IOException; a payload gives the parse of that payload |
| Portfolio.DownloadQuoteFor | src/uk/co/ryanharrison/stocks/Portfolio.java:65-78 | a null ticker is a NullPointerException, a transport failure an IOException; a parsed quote is returned, only a JSONException falls back to the old quote, and every other parse exception escapes |
| Portfolio.RefreshLoop | src/uk/co/ryanharrison/stocks/Portfolio.java:148-153 | for any per-entry refresh: the length is kept; with no exception every slot holds the outcome for that slot; on the first exception, at slot k, the earlier slots hold their outcomes and slots k on are unchanged |
| Portfolio.Update | src/uk/co/ryanharrison/stocks/Portfolio.java:146-154 | the loop over the as-written download: the length is kept; slot i is written only with the outcome for slot i; on the first exception at slot k the earlier slots hold their new quotes and slots k on are unchanged; a JSONException never escapes |
| Portfolio.RefreshInBackground | src/uk/co/ryanharrison/stocks/MainActivity.java:55-66 | the list keeps its length; `doInBackground` returns the list exactly when every slot's download succeeded, each slot then holding its own outcome; on null, some slot k failed, the slots before k already hold their new quotes and the slots from k on are unchanged |
| Portfolio.NonNumericFieldAbortsRefresh | src/uk/co/ryanharrison/stocks/Portfolio.java:74-77 | for any network answer whose JSON text the tokeniser reads as a quote with AverageDailyVolume null: as written, a NumberFormatException escapes; the corrected download keeps the stale quote |
| Portfolio.NoVolumeTextIsJson | src/uk/co/ryanharrison/stocks/QuoteJsonParser.java:37-38 | the service's one-line answer text for that object passes the brace cut whole, so it is such a payload |
| Jsonp.JsonTextOfObjectLine | src/uk/co/ryanharrison/stocks/QuoteJsonParser.java:37-38 | a one-line payload that starts with '{' and ends with '}' is its own JSON text |
| Portfolio.DownloadQuoteIsolated | src/uk/co/ryanharrison/stocks/Portfolio.java:65-78 | corrected: any failure to make sense of the payload keeps the old quote; only a null ticker or a transport failure is an error |
| Portfolio.IsolatedAgreesExceptOnParseFaults | src/uk/co/ryanharrison/stocks/Portfolio.java:74-77 | the written and corrected downloads agree, except where the written one lets a number, index or null-pointer exception escape and the corrected one keeps the old quote |
| Portfolio.UpdateIsolated | src/uk/co/ryanharrison/stocks/Portfolio.java:146-154 | the refresh over the corrected download stops early only on a null ticker or a transport failure, and never when every entry has a ticker and a payload |
| QuoteAdapter.AddQuote | src/uk/co/ryanharrison/stocks/QuoteAdapter.java:48-50 | the quote goes last, with the others unchanged |
| QuoteAdapter.GetItem | src/uk/co/ryanharrison/stocks/QuoteAdapter.java:74-76 | the element at the position, and an index error exactly outside the list |
| QuoteAdapter.GetItemId | src/uk/co/ryanharrison/stocks/QuoteAdapter.java:88-91 | every row reports id 0, whatever the position |
| QuoteAdapter.RemoveItem | src/uk/co/ryanharrison/stocks/QuoteAdapter.java:121-123 | exactly the element at the position goes and the others keep their order; an index error exactly outside the list |
| QuoteAdapter.RemoveItemShiftsRows | src/uk/co/ryanharrison/stocks/QuoteAdapter.java:60-62 | carries the `getCount` property (the count is the list length): after a removal the count is one less, and each row reads the quote at the same place before the position, or one further on after it |
| QuoteAdapter.RemoveItemUndoesAddQuote | src/uk/co/ryanharrison/stocks/QuoteAdapter.java:48-50 | removing the quote just added restores the list; the count grows by one and the last row reads the added quote |
| QuoteAdapter.RemoveThenAddRotates | src/uk/co/ryanharrison/stocks/QuoteAdapter.java:121-123 | removing a quote and adding it back keeps the same quotes, as a multiset |
| QuoteAdapter.AdapterSharesPortfolioList | src/uk/co/ryanharrison/stocks/MainActivity.java:221 | adding a placeholder via the adapter gives the same companies value as the portfolio's own append; the aliasing itself is not represented |
| TickerPreferences.Contributions | src/uk/co/ryanharrison/stocks/MainActivity.java:382-386 | no more tickers than entries, and none exactly when every entry's ticker is null |
| TickerPreferences.Accumulated | src/uk/co/ryanharrison/stocks/MainActivity.java:380-386 | the accumulated string ends with the separator whenever some ticker contributed |
| TickerPreferences.AccumulatedIsJoin | src/uk/co/ryanharrison/stocks/MainActivity.java:384-388 | the accumulated string is the comma join of the tickers plus one trailing comma |
| TickerPreferences.EncodeTickers | src/uk/co/ryanharrison/stocks/MainActivity.java:380-388 | nothing is encoded exactly when no ticker contributes; otherwise the tickers joined by commas in list order, with no trailing comma |
| TickerPreferences.SaveTickers | src/uk/co/ryanharrison/stocks/MainActivity.java:387-392 | the stored value is left as it was when no ticker contributes, and is the join otherwise |
| TickerPreferences.Placeholders | src/uk/co/ryanharrison/stocks/MainActivity.java:202-204 | one placeholder per piece, in order |
| TickerPreferences.RestoreTickers | src/uk/co/ryanharrison/stocks/MainActivity.java:200-215 | with a stored value, one placeholder per piece of its split; without one, the defaults; every entry has a ticker and no data |
| TickerPreferences.ContributionsOfPlaceholders | src/uk/co/ryanharrison/stocks/MainActivity.java:202-204 | the tickers of a restored list are the pieces it was built from |
| TickerPreferences.SplitOfJoin | src/uk/co/ryanharrison/stocks/MainActivity.java:202 | split undoes the comma join exactly when no ticker holds a comma and the last one is non-empty, or it is the only one |
| TickerPreferences.SaveRestoreRoundTrip | src/uk/co/ryanharrison/stocks/MainActivity.java:375-392 | saving and then restoring as `onCreate` does gives back the same tickers in order exactly under the conditions of SplitOfJoin, and then as fresh placeholders |
| TickerPreferences.DefaultTickersOrder | src/uk/co/ryanharrison/stocks/MainActivity.java:206-215 | with nothing stored the list is YHOO, ARM.L, ^FTSE, MSFT, AAPL, FB, in that order |
| Rounding.SetScale2 | src/uk/co/ryanharrison/stocks/Utils.java:85 | the result has scale 2; a value with at most two places keeps its value |
| Rounding.SetScale2IsHalfUp | src/uk/co/ryanharrison/stocks/Utils.java:85 | the integer rounding of setScale equals rounding value × 100 to the nearest integer, ties away from zero |
| Rounding.PlainString | src/uk/co/ryanharrison/stocks/Utils.java:85 | a minus sign exactly for a negative value, then only digits up to the point, then exactly two fraction digits, with no exponent |
| Rounding.ParsePlainOfPlainString | src/uk/co/ryanharrison/stocks/Utils.java:85 | the printed string reads back to the unscaled value it was printed from |
| Rounding.PlainStringInjective | src/uk/co/ryanharrison/stocks/Utils.java:85 | different rounded values print differently |
| Rounding.RoundTwoPlaces | src/uk/co/ryanharrison/stocks/Utils.java:84-86 | the string reads back to the rounded value at scale 2 |
| Rounding.RoundingError | src/uk/co/ryanharrison/stocks/Utils.java:85 | the rounded value is within 0.005 of the input |
| Rounding.RoundingMonotone | src/uk/co/ryanharrison/stocks/Utils.java:85 | rounding never reverses the order of two inputs |
| Rounding.RoundingIdempotent | src/uk/co/ryanharrison/stocks/Utils.java:85 | a value with at most two places is unchanged, and rounding twice is rounding once |
| Rounding.RoundsToZero | src/uk/co/ryanharrison/stocks/Utils.java:85 | "0.00", with no minus sign, is printed exactly for inputs strictly between -0.005 and 0.005 |
| Rounding.TiesAwayFromZero | src/uk/co/ryanharrison/stocks/Utils.java:85 | 0.125 prints "0.13" and -0.125 prints "-0.13" |
| FormUrlEncoding.EncodeChar | src/uk/co/ryanharrison/stocks/Portfolio.java:70 | every character encodes to at least one URL-safe character |
| FormUrlEncoding.Encode | src/uk/co/ryanharrison/stocks/Portfolio.java:70 | the encoding uses only URL-safe characters and is never shorter than the input |
| FormUrlEncoding.Utf8RoundTrip | src/uk/co/ryanharrison/stocks/Portfolio.java:70 | the UTF-8 bytes of every character announce their own length and decode back to the character |
| FormUrlEncoding.DecodeCharOfEncodeChar | src/uk/co/ryanharrison/stocks/Portfolio.java:70 | decoding the front of an encoded character gives it back, with the rest untouched |
| FormUrlEncoding.DecodeOfEncode | src/uk/co/ryanharrison/stocks/Portfolio.java:70 | decoding inverts encoding for every string |
| FormUrlEncoding.EncodeInjective | src/uk/co/ryanharrison/stocks/Portfolio.java:70 | different strings encode differently |
| FormUrlEncoding.EncodeCaretTicker | src/uk/co/ryanharrison/stocks/MainActivity.java:211 | the default ticker ^FTSE encodes as %5EFTSE |

## Left out

- Activity and View code (layouts, dialogs, menus, `getView`, `MiniQuoteView`): UI, with no logic to prove.
- `AsyncTask` threading. Only the outcome of `doInBackground` is kept (`Portfolio.RefreshInBackground`).
- `Utils.downloadUrl`, `isNetworkAvailable`, `isInLandScape`: device and network I/O. The network is the `Portfolio.Network` parameter.
- SharedPreferences storage itself: the stored value is an `Option<string>`.
- The org.json tokeniser and `Double.parseDouble`: foreign code. They are parameters; `Long.parseLong` is modelled concretely.
- The XML tokeniser. The walk reads its token list, with text already coalesced and comments removed. A `Malformed` token marks the point where it rejects the input.
- What `next()` does at END_DOCUMENT depends on the implementation. The model treats a call there as the `PastEnd` error.
- IEEE-754 arithmetic. Prices are exact reals. A zero price gives `NonFinite` rather than telling infinity from NaN. The double-to-BigDecimal conversion is exact, so the rounding input is that decimal.
- Json.ParseLong: digits are ASCII only. `Long.parseLong` reads digits through `Character.digit`, which also accepts other Unicode decimal digits; the quote service's payload is ASCII.
- Json.GetString: models strings, numbers (as the text `String.valueOf` prints), booleans and null. An array or object read as a string is modelled as a JSONException. Android's org.json would give its JSON text instead; the modelled parsers never read such a field.
- Portfolio.Matches: uses the ASCII case mapping of `equalsIgnoreCase`. Tickers are ASCII, so non-ASCII case pairs are left out.
- FormUrlEncoding.Encode: Dafny strings hold Unicode scalar values. Lone UTF-16 surrogates, which the JDK encoder replaces, cannot occur here.
- TickerPreferences.Contributions: the source also skips null list elements. The model's list holds no null elements, only null tickers.
- The feed, search and chart URL builders, which lower-case the ticker, are not part of this model. Only the portfolio's builder is.
- `Portfolio.getQuotes` returns the list itself, and the adapter keeps that reference. The model has no references: the adapter's operations act on the portfolio's companies value, and the aliasing itself is not represented.

## Findings

| source | as written | input that shows it | evidently intended | confidence | as-written member | corrected member |
|---|---|---|---|---|---|---|
| src/uk/co/ryanharrison/stocks/Portfolio.java:74-77 | `downloadQuoteFor` catches only `JSONException`. A NumberFormatException from `parseLong`/`parseDouble`, an index error from the brace cut, or a NullPointerException from an empty body escapes. It aborts `update` and the whole refresh. | a valid answer whose AverageDailyVolume is JSON null: `getString` gives "null" and `Long.parseLong("null")` throws | a payload that cannot be decoded keeps the stale quote, and the refresh continues with the next entry | not executed | Portfolio.DownloadQuoteFor, Portfolio.NonNumericFieldAbortsRefresh | Portfolio.DownloadQuoteIsolated, Portfolio.UpdateIsolated |
