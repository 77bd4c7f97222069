/** QuoteJsonParser.parse: one quote-service payload to one Quote. */
module QuoteJsonParser {
  import opened Results
  import opened JavaText
  import opened Json
  import opened Quotes
  import opened Jsonp

  /** The fields `parse` reads in every case, in the order it reads them. */
  const RequiredKeys: seq<string> := ["AverageDailyVolume", "Change", "YearLow", "YearHigh",
    "MarketCapitalization", "LastTradePriceOnly", "Name", "Symbol", "Volume", "StockExchange", "DaysLow"]

  /** `Long.parseLong(obj.getString(key))`. */
  function GetLong(obj: Object, key: string): (r: Result<Long, Fault>)
    ensures key !in obj ==> r == Err(JsonError)
    ensures r.Err? ==> r.error == JsonError || r.error == NumberFormatError
    ensures r.Ok? ==> GetString(obj, key).Ok? && ParseLong(GetString(obj, key).value) == r
  {
    var text :- GetString(obj, key);
    ParseLong(text)
  }

  /** `Double.parseDouble(obj.getString(key))`. */
  function GetDouble(obj: Object, key: string, parse: DoubleParser): (r: Result<real, Fault>)
    ensures key !in obj ==> r == Err(JsonError)
    ensures r.Err? ==> r.error == JsonError || r.error == NumberFormatError
    ensures r.Ok? ==> GetString(obj, key).Ok? && parse(GetString(obj, key).value) == Some(r.value)
  {
    var text :- GetString(obj, key);
    ToDouble(parse, text)
  }

  /** The field-by-field decoding of the quote object, in source order, so
      that the first failing read decides which exception escapes. */
  function DecodeQuote(obj: Object, parse: DoubleParser): (r: Result<Quote, Fault>)
    ensures r.Ok? ==> forall k :: k in RequiredKeys ==> k in obj
    ensures r.Err? ==> r.error == JsonError || r.error == NumberFormatError
    ensures r.Ok? ==> HasData(r.value)
    ensures r.Ok? ==> r.value.ticker.Some? && GetString(obj, "Symbol") == Ok(r.value.ticker.value)
    ensures r.Ok? ==> r.value.name.Some? && GetString(obj, "Name") == Ok(r.value.name.value)
    ensures r.Ok? ==> (r.value.marketCapitalization.Some? &&
      GetString(obj, "MarketCapitalization") == Ok(r.value.marketCapitalization.value))
    ensures r.Ok? ==> (r.value.stockExchange.Some? &&
      GetString(obj, "StockExchange") == Ok(r.value.stockExchange.value))
    ensures r.Ok? ==> r.value.percentChange == PercentChange(r.value.change, r.value.lastTradePrice)
    ensures r.Ok? ==> GetDouble(obj, "Change", parse) == Ok(r.value.change)
    ensures r.Ok? ==> GetDouble(obj, "YearLow", parse) == Ok(r.value.yearLow)
    ensures r.Ok? ==> GetDouble(obj, "YearHigh", parse) == Ok(r.value.yearHigh)
    ensures r.Ok? ==> GetDouble(obj, "LastTradePriceOnly", parse) == Ok(r.value.lastTradePrice)
    ensures r.Ok? ==> GetLong(obj, "AverageDailyVolume") == Ok(r.value.averageDailyVolume)
    ensures r.Ok? ==> GetLong(obj, "Volume") == Ok(r.value.volume)
    ensures r.Ok? && GetString(obj, "DaysLow") == Ok("null") ==>
      r.value.daysLow == 0.0 && r.value.daysHigh == 0.0
    ensures r.Ok? && GetString(obj, "DaysLow") != Ok("null") ==>
      GetDouble(obj, "DaysLow", parse) == Ok(r.value.daysLow) &&
      GetDouble(obj, "DaysHigh", parse) == Ok(r.value.daysHigh)
  {
    var averageDailyVolume :- GetLong(obj, "AverageDailyVolume");
    var change :- GetDouble(obj, "Change", parse);
    var yearLow :- GetDouble(obj, "YearLow", parse);
    var yearHigh :- GetDouble(obj, "YearHigh", parse);
    var marketCapitalization :- GetString(obj, "MarketCapitalization");
    var lastTradePrice :- GetDouble(obj, "LastTradePriceOnly", parse);
    var name :- GetString(obj, "Name");
    var symbol :- GetString(obj, "Symbol");
    var volume :- GetLong(obj, "Volume");
    var stockExchange :- GetString(obj, "StockExchange");
    var q := NewQuote().(
      averageDailyVolume := averageDailyVolume, change := change, yearLow := yearLow,
      yearHigh := yearHigh, marketCapitalization := Some(marketCapitalization),
      lastTradePrice := lastTradePrice, name := Some(name), ticker := Some(symbol),
      volume := volume, stockExchange := Some(stockExchange),
      percentChange := PercentChange(change, lastTradePrice));
    var daysLowText :- GetString(obj, "DaysLow");
    if daysLowText == "null" then Ok(q)
    else
      var daysLow :- GetDouble(obj, "DaysLow", parse);
      var daysHigh :- GetDouble(obj, "DaysHigh", parse);
      Ok(q.(daysLow := daysLow, daysHigh := daysHigh))
  }

  /** The object at query -> results -> quote. */
  function QuoteObject(root: Object): (r: Result<Object, Fault>)
    ensures r.Ok? <==> ("query" in root && root["query"].Obj? &&
      "results" in root["query"].fields && root["query"].fields["results"].Obj? &&
      "quote" in root["query"].fields["results"].fields &&
      root["query"].fields["results"].fields["quote"].Obj?)
    ensures r.Ok? ==> r.value == root["query"].fields["results"].fields["quote"].fields
    ensures r.Err? ==> r.error == JsonError
  {
    var query :- GetObject(root, "query");
    var results :- GetObject(query, "results");
    GetObject(results, "quote")
  }

  /** `parse(in)`: reads the first line of the stream, decodes it, and closes
      the stream on every path. */
  function Parse(input: Stream<string>, tokenise: Tokeniser, parse: DoubleParser): (r: (Result<Quote, Fault>, Stream<string>))
    ensures !r.1.open && r.1.content == input.content
    ensures !input.open ==> r.0 == Err(IoError)
    ensures input.open && |input.content| == 0 ==> r.0 == Err(NullPointerError)
    ensures input.open && |input.content| > 0 && '{' !in ReadLine(input.content).value ==> r.0 == Err(IndexError)
    ensures r.0.Ok? ==> (input.open && ReadLine(input.content).Some? &&
      ExtractObject(ReadLine(input.content).value).Ok?)
    ensures input.open ==> r.0 == ParseText(input.content, tokenise, parse)
  {
    (if !input.open then Err(IoError) else ParseText(input.content, tokenise, parse), Close(input))
  }

  /** The parse of a payload read from an open stream. */
  function ParseText(payload: string, tokenise: Tokeniser, parse: DoubleParser): (r: Result<Quote, Fault>)
    ensures JsonText(payload).Err? ==> r == Err(JsonText(payload).error)
    ensures r.Ok? ==> (JsonText(payload).Ok? &&
      ParseObject(tokenise, JsonText(payload).value).Ok? &&
      QuoteObject(ParseObject(tokenise, JsonText(payload).value).value).Ok? &&
      DecodeQuote(QuoteObject(ParseObject(tokenise, JsonText(payload).value).value).value, parse) == r)
    ensures r.Err? && JsonText(payload).Ok? ==> r.error == JsonError || r.error == NumberFormatError
  {
    var json :- JsonText(payload);
    var root :- ParseObject(tokenise, json);
    var obj :- QuoteObject(root);
    DecodeQuote(obj, parse)
  }

  /** When DaysLow holds the "null" sentinel, DaysHigh is never read: the
      quote is the same whether or not DaysHigh is present. */
  lemma DaysHighIgnoredAfterSentinel(obj: Object, parse: DoubleParser)
    requires GetString(obj, "DaysLow") == Ok("null")
    ensures DecodeQuote(obj, parse) == DecodeQuote(obj - {"DaysHigh"}, parse)
  {
    var obj' := obj - {"DaysHigh"};
    SameReads(obj, obj', "AverageDailyVolume", parse);
    SameReads(obj, obj', "Change", parse);
    SameReads(obj, obj', "YearLow", parse);
    SameReads(obj, obj', "YearHigh", parse);
    SameReads(obj, obj', "MarketCapitalization", parse);
    SameReads(obj, obj', "LastTradePriceOnly", parse);
    SameReads(obj, obj', "Name", parse);
    SameReads(obj, obj', "Symbol", parse);
    SameReads(obj, obj', "Volume", parse);
    SameReads(obj, obj', "StockExchange", parse);
    SameReads(obj, obj', "DaysLow", parse);
  }

  /** Two objects that agree on a key read the same from it. */
  lemma SameReads(a: Object, b: Object, key: string, parse: DoubleParser)
    requires key in a <==> key in b
    requires key in a ==> a[key] == b[key]
    ensures GetString(a, key) == GetString(b, key)
    ensures GetLong(a, key) == GetLong(b, key)
    ensures GetDouble(a, key, parse) == GetDouble(b, key, parse)
  {
  }

  /** The quote object the service sends for `q`: numbers printed by `show`,
      and, before the market opens, a JSON null for DaysLow and no DaysHigh. */
  function QuoteFields(q: Quote, show: real -> string, marketOpen: bool): Object
    requires q.marketCapitalization.Some? && q.name.Some? && q.ticker.Some? && q.stockExchange.Some?
  {
    var fields := map[
      "AverageDailyVolume" := Num(LongToString(q.averageDailyVolume)),
      "Change" := Num(show(q.change)),
      "YearLow" := Num(show(q.yearLow)),
      "YearHigh" := Num(show(q.yearHigh)),
      "MarketCapitalization" := Str(q.marketCapitalization.value),
      "LastTradePriceOnly" := Num(show(q.lastTradePrice)),
      "Name" := Str(q.name.value),
      "Symbol" := Str(q.ticker.value),
      "Volume" := Num(LongToString(q.volume)),
      "StockExchange" := Str(q.stockExchange.value)];
    if marketOpen then fields["DaysLow" := Num(show(q.daysLow))]["DaysHigh" := Num(show(q.daysHigh))]
    else fields["DaysLow" := Null]
  }

  // What `getString` reads from the service's encoding of `q`, one field
  // at a time.

  lemma ReadsAverageDailyVolume(q: Quote, show: real -> string, marketOpen: bool)
    requires q.marketCapitalization.Some? && q.name.Some? && q.ticker.Some? && q.stockExchange.Some?
    ensures GetString(QuoteFields(q, show, marketOpen), "AverageDailyVolume") == Ok(LongToString(q.averageDailyVolume))
  {
  }

  lemma ReadsVolume(q: Quote, show: real -> string, marketOpen: bool)
    requires q.marketCapitalization.Some? && q.name.Some? && q.ticker.Some? && q.stockExchange.Some?
    ensures GetString(QuoteFields(q, show, marketOpen), "Volume") == Ok(LongToString(q.volume))
  {
  }

  lemma ReadsChange(q: Quote, show: real -> string, marketOpen: bool)
    requires q.marketCapitalization.Some? && q.name.Some? && q.ticker.Some? && q.stockExchange.Some?
    ensures GetString(QuoteFields(q, show, marketOpen), "Change") == Ok(show(q.change))
  {
  }

  lemma ReadsLastTradePriceOnly(q: Quote, show: real -> string, marketOpen: bool)
    requires q.marketCapitalization.Some? && q.name.Some? && q.ticker.Some? && q.stockExchange.Some?
    ensures GetString(QuoteFields(q, show, marketOpen), "LastTradePriceOnly") == Ok(show(q.lastTradePrice))
  {
  }

  lemma ReadsYearLow(q: Quote, show: real -> string, marketOpen: bool)
    requires q.marketCapitalization.Some? && q.name.Some? && q.ticker.Some? && q.stockExchange.Some?
    ensures GetString(QuoteFields(q, show, marketOpen), "YearLow") == Ok(show(q.yearLow))
  {
  }

  lemma ReadsYearHigh(q: Quote, show: real -> string, marketOpen: bool)
    requires q.marketCapitalization.Some? && q.name.Some? && q.ticker.Some? && q.stockExchange.Some?
    ensures GetString(QuoteFields(q, show, marketOpen), "YearHigh") == Ok(show(q.yearHigh))
  {
  }

  lemma ReadsMarketCapitalization(q: Quote, show: real -> string, marketOpen: bool)
    requires q.marketCapitalization.Some? && q.name.Some? && q.ticker.Some? && q.stockExchange.Some?
    ensures GetString(QuoteFields(q, show, marketOpen), "MarketCapitalization") == Ok(q.marketCapitalization.value)
  {
  }

  lemma ReadsName(q: Quote, show: real -> string, marketOpen: bool)
    requires q.marketCapitalization.Some? && q.name.Some? && q.ticker.Some? && q.stockExchange.Some?
    ensures GetString(QuoteFields(q, show, marketOpen), "Name") == Ok(q.name.value)
  {
  }

  lemma ReadsSymbol(q: Quote, show: real -> string, marketOpen: bool)
    requires q.marketCapitalization.Some? && q.name.Some? && q.ticker.Some? && q.stockExchange.Some?
    ensures GetString(QuoteFields(q, show, marketOpen), "Symbol") == Ok(q.ticker.value)
  {
  }

  lemma ReadsStockExchange(q: Quote, show: real -> string, marketOpen: bool)
    requires q.marketCapitalization.Some? && q.name.Some? && q.ticker.Some? && q.stockExchange.Some?
    ensures GetString(QuoteFields(q, show, marketOpen), "StockExchange") == Ok(q.stockExchange.value)
  {
  }

  lemma ReadsDaysLow(q: Quote, show: real -> string, marketOpen: bool)
    requires q.marketCapitalization.Some? && q.name.Some? && q.ticker.Some? && q.stockExchange.Some?
    ensures GetString(QuoteFields(q, show, marketOpen), "DaysLow") == Ok(if marketOpen then show(q.daysLow) else "null")
  {
  }

  lemma ReadsDaysHigh(q: Quote, show: real -> string)
    requires q.marketCapitalization.Some? && q.name.Some? && q.ticker.Some? && q.stockExchange.Some?
    ensures GetString(QuoteFields(q, show, true), "DaysHigh") == Ok(show(q.daysHigh))
  {
  }

  /** Decoding inverts the service's encoding, whenever `parse` reads back
      what `show` prints and (like `Double.parseDouble`) rejects "null"; the
      percentage is the one recomputed from change and price, and the day's
      range is zero before the market opens. */
  lemma DecodeQuoteOfFields(q: Quote, show: real -> string, parse: DoubleParser, marketOpen: bool)
    requires q.marketCapitalization.Some? && q.name.Some? && q.ticker.Some? && q.stockExchange.Some?
    requires q.percentChange == PercentChange(q.change, q.lastTradePrice)
    requires forall x :: parse(show(x)) == Some(x)
    requires parse("null") == None
    requires !marketOpen ==> q.daysLow == 0.0 && q.daysHigh == 0.0
    ensures DecodeQuote(QuoteFields(q, show, marketOpen), parse) == Ok(q)
  {
    var obj := QuoteFields(q, show, marketOpen);
    ReadsAverageDailyVolume(q, show, marketOpen);
    ReadsVolume(q, show, marketOpen);
    ReadsChange(q, show, marketOpen);
    ReadsLastTradePriceOnly(q, show, marketOpen);
    ReadsYearLow(q, show, marketOpen);
    ReadsYearHigh(q, show, marketOpen);
    ReadsMarketCapitalization(q, show, marketOpen);
    ReadsName(q, show, marketOpen);
    ReadsSymbol(q, show, marketOpen);
    ReadsStockExchange(q, show, marketOpen);
    ReadsDaysLow(q, show, marketOpen);
    if marketOpen { ReadsDaysHigh(q, show); }
    ParseLongOfToString(q.averageDailyVolume);
    ParseLongOfToString(q.volume);
    assert GetLong(obj, "AverageDailyVolume") == Ok(q.averageDailyVolume);
    assert GetLong(obj, "Volume") == Ok(q.volume);
    assert GetDouble(obj, "Change", parse) == Ok(q.change);
    assert GetDouble(obj, "YearLow", parse) == Ok(q.yearLow);
    assert GetDouble(obj, "YearHigh", parse) == Ok(q.yearHigh);
    assert GetDouble(obj, "LastTradePriceOnly", parse) == Ok(q.lastTradePrice);
    if marketOpen {
      assert show(q.daysLow) != "null" by {
        assert parse(show(q.daysLow)) == Some(q.daysLow);
      }
      assert GetDouble(obj, "DaysLow", parse) == Ok(q.daysLow);
      assert GetDouble(obj, "DaysHigh", parse) == Ok(q.daysHigh);
    } else {
      assert GetString(obj, "DaysLow") == Ok("null");
    }
  }
}
