/** The Portfolio: the list of monitored quotes, its placeholder append, its
    case-insensitive removal, and the refresh that re-downloads every quote
    in list order. */
module Portfolio {
  import opened Results
  import opened JavaText
  import opened Json
  import opened Quotes
  import opened FormUrlEncoding
  import QuoteJsonParser
  import Jsonp
  import Digits

  type Companies = seq<Quote>

  // ---------------------------------------------------------------------
  // The request URL

  /** The quote-service request template, in chunks: a `%s` stands where the
      encoded ticker goes. */
  const UrlHost: string := "http://query.yahooapis.com/v1/public/"
  const UrlSelect: string := "yql?q=select%20*%20from%20yahoo.finance"
  const UrlWhere: string := ".quote%20where%20symbol%20%3D%20%22"
  const UrlFormat: string := "%22&format=json&env=store%3A%2F%2F"
  const UrlTables: string := "datatables.org%2Falltableswithkeys"
  const UrlPrefix: string := UrlHost + UrlSelect + UrlWhere
  const UrlSuffix: string := UrlFormat + UrlTables
  const QuoteUrlTemplate: string := UrlPrefix + "%s" + UrlSuffix

  /** `QUOTEURL.replace("%s", URLEncoder.encode(ticker, "utf-8"))`. */
  function QuoteUrl(ticker: string): string {
    Replace(QuoteUrlTemplate, "%s", Encode(ticker))
  }

  /** `s` has no `%s` in it. */
  predicate NoPercentS(s: string) {
    forall i :: 0 <= i < |s| - 1 ==> s[i] == '%' ==> s[i + 1] != 's'
  }

  lemma NoPercentSConcat(x: string, y: string)
    requires NoPercentS(x) && NoPercentS(y)
    requires |x| == 0 || x[|x| - 1] != '%'
    ensures NoPercentS(x + y)
  {
    var s := x + y;
    forall i | 0 <= i < |s| - 1 && s[i] == '%' ensures s[i + 1] != 's' {
      if i < |x| - 1 {
        assert s[i] == x[i] && s[i + 1] == x[i + 1];
      } else if i >= |x| {
        assert s[i] == y[i - |x|] && s[i + 1] == y[i + 1 - |x|];
      }
    }
  }

  lemma NoPercentSOccurs(s: string, n: nat)
    requires n < |s| && NoPercentS(s[..n + 1])
    ensures forall i :: 0 <= i < n ==> !OccursAt(s, "%s", i)
  {
    forall i | 0 <= i < n ensures !OccursAt(s, "%s", i) {
      assert s[..n + 1][i] == s[i] && s[..n + 1][i + 1] == s[i + 1];
      assert s[i..i + 2][0] == s[i] && s[i..i + 2][1] == s[i + 1];
    }
  }

  lemma TemplateHasOnePlaceholder()
    ensures NoPercentS(UrlPrefix + "%") && NoPercentS(UrlSuffix)
  {
    HostAndSelectHaveNoPercentS();
    WhereHasNoPercentS();
    SuffixChunksHaveNoPercentS();
    assert NoPercentS("%");
    NoPercentSConcat(UrlHost, UrlSelect);
    NoPercentSConcat(UrlHost + UrlSelect, UrlWhere);
    NoPercentSConcat(UrlPrefix, "%");
    NoPercentSConcat(UrlFormat, UrlTables);
  }

  lemma HostAndSelectHaveNoPercentS()
    ensures NoPercentS(UrlHost) && UrlHost[|UrlHost| - 1] != '%'
    ensures NoPercentS(UrlSelect) && UrlSelect[|UrlSelect| - 1] != '%'
  {
  }

  lemma WhereHasNoPercentS()
    ensures NoPercentS(UrlWhere) && UrlWhere[|UrlWhere| - 1] != '%'
  {
  }

  lemma SuffixChunksHaveNoPercentS()
    ensures NoPercentS(UrlFormat) && UrlFormat[|UrlFormat| - 1] != '%'
    ensures NoPercentS(UrlTables)
  {
  }

  /** The template holds exactly one `%s`, so the URL is the fixed prefix, the
      encoded ticker exactly as given (not lower-cased), and the fixed
      suffix; what the ticker encodes to is never rescanned. */
  lemma QuoteUrlShape(ticker: string)
    ensures QuoteUrl(ticker) == UrlPrefix + Encode(ticker) + UrlSuffix
  {
    TemplateHasOnePlaceholder();
    var s := QuoteUrlTemplate;
    assert s[..|UrlPrefix| + 1] == UrlPrefix + "%";
    NoPercentSOccurs(s, |UrlPrefix|);
    forall i | 0 <= i < |UrlSuffix| ensures !OccursAt(UrlSuffix, "%s", i) {
      if i < |UrlSuffix| - 1 {
        NoPercentSOccurs(UrlSuffix, |UrlSuffix| - 1);
        assert UrlSuffix[..|UrlSuffix|] == UrlSuffix;
      }
    }
    ReplaceSingle(UrlPrefix, UrlSuffix, "%s", Encode(ticker));
  }

  /** Different tickers give different request URLs: case is significant. */
  lemma QuoteUrlInjective(t: string, t': string)
    requires QuoteUrl(t) == QuoteUrl(t')
    ensures t == t'
  {
    QuoteUrlShape(t);
    QuoteUrlShape(t');
    var u := QuoteUrl(t);
    assert Encode(t) == u[|UrlPrefix|..|u| - |UrlSuffix|];
    assert Encode(t') == u[|UrlPrefix|..|u| - |UrlSuffix|];
    EncodeInjective(t, t');
  }

  // ---------------------------------------------------------------------
  // Adding and removing companies

  /** `addCompanyNoUpdate(ticker)`: a placeholder for `ticker` goes last;
      duplicates are not checked. */
  function AddCompanyNoUpdate(companies: Companies, ticker: Option<string>): (r: Companies)
    ensures |r| == |companies| + 1
    ensures r[..|companies|] == companies
    ensures r[|companies|].ticker == ticker && !HasData(r[|companies|])
    ensures r[|companies|] == NewQuote().(ticker := ticker)
  {
    companies + [Placeholder(ticker)]
  }

  /** Adding a ticker that is already monitored gives two entries for it. */
  lemma AddExistingTickerDuplicates(companies: Companies, i: nat)
    requires i < |companies| && companies[i].ticker.Some?
    ensures var r := AddCompanyNoUpdate(companies, companies[i].ticker);
      i != |companies| && r[i].ticker == r[|companies|].ticker
  {
  }

  /** The test `companies.get(i).ticker.equalsIgnoreCase(ticker)` for a
      non-null entry ticker: false for a null argument. */
  predicate Matches(entry: string, ticker: Option<string>) {
    ticker.Some? && EqualsIgnoreCase(entry, ticker.value)
  }

  /** Whether `removeCompany(ticker)` would remove `q` if it examined it. */
  predicate Removable(q: Quote, ticker: Option<string>) {
    q.ticker.Some? && Matches(q.ticker.value, ticker)
  }

  /** The list after an in-place mutation and the exception, if any, that
      interrupted it. */
  datatype Mutation = Mutation(companies: Companies, fault: Option<Fault>)

  function Prepend(prefix: Companies, m: Mutation): (r: Mutation)
    ensures r.companies == prefix + m.companies && r.fault == m.fault
  {
    Mutation(prefix + m.companies, m.fault)
  }

  /** The reference definition of `removeCompany`: an examined entry with a
      null ticker throws a NullPointerException, leaving the removals done so
      far; a matching entry is removed, and, because the index still moves
      on, the entry after it is kept without being examined. */
  function Removed(companies: Companies, ticker: Option<string>): (r: Mutation)
    decreases |companies|
  {
    if |companies| == 0 then Mutation([], None)
    else if companies[0].ticker.None? then Mutation(companies, Some(NullPointerError))
    else if Matches(companies[0].ticker.value, ticker) then
      if |companies| == 1 then Mutation([], None)
      else Prepend([companies[1]], Removed(companies[2..], ticker))
    else Prepend([companies[0]], Removed(companies[1..], ticker))
  }

  lemma PrependPrepend(a: Companies, b: Companies, m: Mutation)
    ensures Prepend(a, Prepend(b, m)) == Prepend(a + b, m)
  {
    assert a + (b + m.companies) == (a + b) + m.companies;
  }

  /** One step of the reference definition, from position j on. */
  lemma RemovedStep(companies: Companies, j: nat, ticker: Option<string>)
    requires j < |companies| && companies[j].ticker.Some?
    ensures !Matches(companies[j].ticker.value, ticker) ==>
      Removed(companies[j..], ticker) == Prepend([companies[j]], Removed(companies[j + 1..], ticker))
    ensures Matches(companies[j].ticker.value, ticker) && j + 1 == |companies| ==>
      Removed(companies[j..], ticker) == Mutation([], None)
    ensures Matches(companies[j].ticker.value, ticker) && j + 1 < |companies| ==>
      Removed(companies[j..], ticker) == Prepend([companies[j + 1]], Removed(companies[j + 2..], ticker))
  {
    var rest := companies[j..];
    assert rest[0] == companies[j];
    assert rest[1..] == companies[j + 1..];
    if j + 1 < |companies| {
      assert rest[1] == companies[j + 1];
      assert rest[2..] == companies[j + 2..];
    }
  }

  /** The loop step that keeps an examined, non-matching entry. */
  lemma KeepStep(companies: Companies, ticker: Option<string>, list: Companies, i: nat, j: nat)
    requires i < |list| && j < |companies| && list[i..] == companies[j..]
    requires Removed(companies, ticker) == Prepend(list[..i], Removed(companies[j..], ticker))
    requires companies[j].ticker.Some? && !Matches(companies[j].ticker.value, ticker)
    ensures list[i + 1..] == companies[j + 1..]
    ensures Removed(companies, ticker) == Prepend(list[..i + 1], Removed(companies[j + 1..], ticker))
  {
    assert list[i] == companies[j];
    RemovedStep(companies, j, ticker);
    assert list[i + 1..] == companies[j + 1..];
    assert list[..i + 1] == list[..i] + [companies[j]];
    PrependPrepend(list[..i], [companies[j]], Removed(companies[j + 1..], ticker));
  }

  /** The loop step that removes a matching entry with another after it: the
      follower moves into slot i, which the index then passes. */
  lemma DropStep(companies: Companies, ticker: Option<string>, list: Companies, i: nat, j: nat)
    requires i + 1 < |list| && j < |companies| && list[i..] == companies[j..]
    requires Removed(companies, ticker) == Prepend(list[..i], Removed(companies[j..], ticker))
    requires companies[j].ticker.Some? && Matches(companies[j].ticker.value, ticker)
    ensures var list' := list[..i] + list[i + 1..];
      i + 1 <= |list'| && list'[i + 1..] == companies[j + 2..] &&
      Removed(companies, ticker) == Prepend(list'[..i + 1], Removed(companies[j + 2..], ticker))
  {
    assert list[i] == companies[j];
    RemovedStep(companies, j, ticker);
    var list' := list[..i] + list[i + 1..];
    assert list[i + 1..] == companies[j + 1..];
    assert list'[..i + 1] == list[..i] + [companies[j + 1]];
    assert list'[i + 1..] == companies[j + 2..];
    PrependPrepend(list[..i], [companies[j + 1]], Removed(companies[j + 2..], ticker));
  }

  /** The loop step that removes a matching last entry. */
  lemma DropLastStep(companies: Companies, ticker: Option<string>, list: Companies, i: nat, j: nat)
    requires i + 1 == |list| && j < |companies| && list[i..] == companies[j..]
    requires Removed(companies, ticker) == Prepend(list[..i], Removed(companies[j..], ticker))
    requires companies[j].ticker.Some? && Matches(companies[j].ticker.value, ticker)
    ensures j + 1 == |companies| && Removed(companies, ticker) == Mutation(list[..i], None)
  {
    assert list[i] == companies[j];
    RemovedStep(companies, j, ticker);
    assert list[..i] + [] == list[..i];
  }

  /** The loop step that meets a null ticker: `equalsIgnoreCase` is called on
      null, and the list is left as it stands. */
  lemma NullStep(companies: Companies, ticker: Option<string>, list: Companies, i: nat, j: nat)
    requires i < |list| && j < |companies| && list[i..] == companies[j..]
    requires Removed(companies, ticker) == Prepend(list[..i], Removed(companies[j..], ticker))
    requires companies[j].ticker.None?
    ensures Removed(companies, ticker) == Mutation(list, Some(NullPointerError))
  {
    assert companies[j..][0] == companies[j];
    assert list[..i] + companies[j..] == list;
  }

  /** The loop ends with the index exactly at the end of the list. */
  lemma ExitStep(companies: Companies, ticker: Option<string>, list: Companies, i: nat, j: nat)
    requires i == |list| && j <= |companies| && list[i..] == companies[j..]
    requires Removed(companies, ticker) == Prepend(list[..i], Removed(companies[j..], ticker))
    ensures Removed(companies, ticker) == Mutation(list, None)
  {
    assert list[..i] == list;
    assert companies[j..] == [];
  }

  /** `removeCompany(ticker)`: the loop of the source, removing at index i and
      then stepping i regardless. */
  method RemoveCompany(companies: Companies, ticker: Option<string>)
    returns (r: Companies, fault: Option<Fault>)
    ensures Mutation(r, fault) == Removed(companies, ticker)
  {
    var list := companies;
    var i := 0;
    ghost var j := 0;
    while i < |list|
      invariant 0 <= j <= |companies|
      invariant i <= |list| + 1
      invariant i <= |list| ==> list[i..] == companies[j..]
      invariant i <= |list| ==> Removed(companies, ticker) == Prepend(list[..i], Removed(companies[j..], ticker))
      invariant i == |list| + 1 ==> j == |companies| && Removed(companies, ticker) == Mutation(list, None)
      decreases |list| - i + 1
    {
      assert list[i] == companies[j];
      if list[i].ticker.None? {
        NullStep(companies, ticker, list, i, j);
        return list, Some(NullPointerError);
      }
      if Matches(list[i].ticker.value, ticker) {
        if i + 1 == |list| {
          DropLastStep(companies, ticker, list, i, j);
          list := list[..i];
          j := j + 1;
        } else {
          DropStep(companies, ticker, list, i, j);
          list := list[..i] + list[i + 1..];
          j := j + 2;
        }
      } else {
        KeepStep(companies, ticker, list, i, j);
        j := j + 1;
      }
      i := i + 1;
    }
    if i == |list| {
      ExitStep(companies, ticker, list, i, j);
    }
    return list, None;
  }

  /** The entries that no removal targets. */
  function Survivors(companies: Companies, ticker: Option<string>): (r: Companies)
    ensures |r| <= |companies|
    ensures forall k :: 0 <= k < |r| ==> !Removable(r[k], ticker)
  {
    if |companies| == 0 then []
    else if Removable(companies[0], ticker) then Survivors(companies[1..], ticker)
    else [companies[0]] + Survivors(companies[1..], ticker)
  }

  lemma SurvivorsAppend(a: Companies, b: Companies, ticker: Option<string>)
    ensures Survivors(a + b, ticker) == Survivors(a, ticker) + Survivors(b, ticker)
  {
    if |a| > 0 {
      assert (a + b)[1..] == a[1..] + b;
      SurvivorsAppend(a[1..], b, ticker);
    } else {
      assert a + b == b;
    }
  }

  /** Removal only ever drops matching entries, whether or not it is
      interrupted: the entries that do not match survive in their relative
      order, and the list never grows. */
  lemma {:induction false} RemovedKeepsOthers(companies: Companies, ticker: Option<string>)
    ensures Survivors(Removed(companies, ticker).companies, ticker) == Survivors(companies, ticker)
    ensures |Removed(companies, ticker).companies| <= |companies|
    decreases |companies|
  {
    if |companies| == 0 {
    } else if companies[0].ticker.None? {
    } else if Matches(companies[0].ticker.value, ticker) {
      if |companies| > 1 {
        var tail := companies[2..];
        RemovedKeepsOthers(tail, ticker);
        SurvivorsAppend([companies[1]], Removed(tail, ticker).companies, ticker);
        assert companies[1..] == [companies[1]] + tail;
        SurvivorsAppend([companies[1]], tail, ticker);
      }
    } else {
      RemovedKeepsOthers(companies[1..], ticker);
      SurvivorsAppend([companies[0]], Removed(companies[1..], ticker).companies, ticker);
    }
  }

  /** No two neighbouring entries both match. */
  predicate NoAdjacentMatches(companies: Companies, ticker: Option<string>) {
    forall k :: 0 <= k < |companies| - 1 ==> !(Removable(companies[k], ticker) && Removable(companies[k + 1], ticker))
  }

  predicate AllTickers(companies: Companies) {
    forall k :: 0 <= k < |companies| ==> companies[k].ticker.Some?
  }

  /** When no null ticker is met and no two matches are neighbours, every
      matching entry is removed. */
  lemma {:induction false} RemovedAllWhenSeparated(companies: Companies, ticker: Option<string>)
    requires AllTickers(companies) && NoAdjacentMatches(companies, ticker)
    ensures Removed(companies, ticker) == Mutation(Survivors(companies, ticker), None)
    decreases |companies|
  {
    if |companies| > 0 {
      if Removable(companies[0], ticker) {
        if |companies| > 1 {
          assert !Removable(companies[1], ticker);
          var tail := companies[2..];
          assert AllTickers(tail) by {
            forall k | 0 <= k < |tail| ensures tail[k].ticker.Some? { assert tail[k] == companies[k + 2]; }
          }
          assert NoAdjacentMatches(tail, ticker) by {
            forall k | 0 <= k < |tail| - 1
              ensures !(Removable(tail[k], ticker) && Removable(tail[k + 1], ticker))
            {
              assert tail[k] == companies[k + 2] && tail[k + 1] == companies[k + 3];
            }
          }
          RemovedAllWhenSeparated(tail, ticker);
          assert companies[1..][1..] == tail;
        }
      } else {
        var tail := companies[1..];
        assert AllTickers(tail) by {
          forall k | 0 <= k < |tail| ensures tail[k].ticker.Some? { assert tail[k] == companies[k + 1]; }
        }
        assert NoAdjacentMatches(tail, ticker) by {
          forall k | 0 <= k < |tail| - 1
            ensures !(Removable(tail[k], ticker) && Removable(tail[k + 1], ticker))
          {
            assert tail[k] == companies[k + 1] && tail[k + 1] == companies[k + 2];
          }
        }
        RemovedAllWhenSeparated(tail, ticker);
      }
    }
  }

  /** Of two neighbouring matches only the first is removed. */
  lemma AdjacentMatchesSurvive()
    ensures Removed([Placeholder(Some("MSFT")), Placeholder(Some("msft"))], Some("MSFT")) ==
      Mutation([Placeholder(Some("msft"))], None)
  {
    var cs := [Placeholder(Some("MSFT")), Placeholder(Some("msft"))];
    assert Matches("MSFT", Some("MSFT"));
    assert cs[2..] == [];
  }

  /** A null argument matches nothing, so the list is unchanged unless an
      entry with a null ticker is examined. */
  lemma {:induction false} RemoveNullTicker(companies: Companies)
    requires AllTickers(companies)
    ensures Removed(companies, None) == Mutation(companies, None)
    decreases |companies|
  {
    if |companies| > 0 {
      var tail := companies[1..];
      assert AllTickers(tail) by {
        forall k | 0 <= k < |tail| ensures tail[k].ticker.Some? { assert tail[k] == companies[k + 1]; }
      }
      RemoveNullTicker(tail);
      assert [companies[0]] + tail == companies;
    }
  }

  // ---------------------------------------------------------------------
  // Refreshing the quotes

  /** What one download yields: the payload, or an IOException. */
  datatype Download = Body(payload: string) | TransportFailure

  /** The network: the answer to the i-th request of a refresh for a URL. */
  type Network = (nat, string) -> Download

  /** `loadJsonFromNetwork(url)`: download, then parse (which closes the
      stream). */
  function LoadJsonFromNetwork(url: string, slot: nat, net: Network, tokenise: Tokeniser, parse: DoubleParser)
    : (r: Result<Quote, Fault>)
    ensures net(slot, url).TransportFailure? ==> r == Err(IoError)
    ensures net(slot, url).Body? ==>
      r == QuoteJsonParser.ParseText(net(slot, url).payload, tokenise, parse)
  {
    match net(slot, url)
    case TransportFailure => Err(IoError)
    case Body(payload) => QuoteJsonParser.Parse(Stream(payload, true), tokenise, parse).0
  }

  /** `downloadQuoteFor(quote)` for the entry at `slot`, as written: only a
      JSONException falls back to the old quote; a null ticker, a transport
      failure and every other parse exception propagate. */
  function DownloadQuoteFor(quote: Quote, slot: nat, net: Network, tokenise: Tokeniser, parse: DoubleParser)
    : (r: Result<Quote, Fault>)
    ensures quote.ticker.None? ==> r == Err(NullPointerError)
    ensures quote.ticker.Some? && net(slot, QuoteUrl(quote.ticker.value)).TransportFailure? ==> r == Err(IoError)
    ensures r.Err? ==> r.error != JsonError
    ensures r.Ok? ==> r.value == quote || HasData(r.value)
    ensures quote.ticker.Some? && net(slot, QuoteUrl(quote.ticker.value)).Body? ==>
      var payload := net(slot, QuoteUrl(quote.ticker.value)).payload;
      var parsed := QuoteJsonParser.ParseText(payload, tokenise, parse);
      (parsed.Ok? ==> r == parsed) &&
      (parsed == Err(JsonError) ==> r == Ok(quote)) &&
      (parsed.Err? && parsed.error != JsonError ==> r == parsed)
  {
    if quote.ticker.None? then Err(NullPointerError)
    else
      var url := QuoteUrl(quote.ticker.value);
      match LoadJsonFromNetwork(url, slot, net, tokenise, parse)
      case Ok(q) => Ok(q)
      case Err(JsonError) => Ok(quote)
      case Err(e) => Err(e)
  }

  /** What the loop of `update()` does for the entry at a slot. */
  type Refresh = (Quote, nat) -> Result<Quote, Fault>

  /** The loop of `update()`: every slot, in order, is overwritten with the
      outcome for that slot; the first exception ends the loop, leaving the
      earlier slots refreshed and the rest as they were. */
  method RefreshLoop(companies: Companies, download: Refresh) returns (r: Companies, fault: Option<Fault>)
    ensures |r| == |companies|
    ensures fault.None? ==> forall i :: 0 <= i < |companies| ==> download(companies[i], i) == Ok(r[i])
    ensures fault.Some? ==> exists k :: (0 <= k < |companies| &&
      download(companies[k], k) == Err(fault.value) &&
      (forall i :: 0 <= i < k ==> download(companies[i], i) == Ok(r[i])) &&
      r[k..] == companies[k..])
  {
    r := companies;
    var i := 0;
    while i < |r|
      invariant 0 <= i <= |r| == |companies|
      invariant forall t :: 0 <= t < i ==> download(companies[t], t) == Ok(r[t])
      invariant r[i..] == companies[i..]
    {
      assert r[i] == companies[i];
      var q := download(r[i], i);
      if q.Err? {
        return r, Some(q.error);
      }
      r := r[i := q.value];
      i := i + 1;
    }
    return r, None;
  }

  /** `update()` as written: the loop over `downloadQuoteFor`, so a
      JSONException never ends it but every other exception does. */
  method Update(companies: Companies, net: Network, tokenise: Tokeniser, parse: DoubleParser)
    returns (r: Companies, fault: Option<Fault>)
    ensures |r| == |companies|
    ensures fault.None? ==> forall i :: 0 <= i < |companies| ==>
      DownloadQuoteFor(companies[i], i, net, tokenise, parse) == Ok(r[i])
    ensures fault.Some? ==> exists k :: (0 <= k < |companies| &&
      DownloadQuoteFor(companies[k], k, net, tokenise, parse) == Err(fault.value) &&
      (forall i :: 0 <= i < k ==> DownloadQuoteFor(companies[i], i, net, tokenise, parse) == Ok(r[i])) &&
      r[k..] == companies[k..])
    ensures fault.Some? ==> fault.value != JsonError
  {
    r, fault := RefreshLoop(companies, (q: Quote, i: nat) => DownloadQuoteFor(q, i, net, tokenise, parse));
  }

  /** `UpdateQuotesTask.doInBackground`: any exception from `update` makes it
      return null, after the portfolio's own list has already been partly
      overwritten. Returns the list as left behind and the task's result. */
  method RefreshInBackground(companies: Companies, net: Network, tokenise: Tokeniser, parse: DoubleParser)
    returns (list: Companies, result: Option<Companies>)
    ensures |list| == |companies|
    ensures result.Some? ==> result.value == list
    ensures result.Some? ==> forall i :: 0 <= i < |companies| ==>
      DownloadQuoteFor(companies[i], i, net, tokenise, parse) == Ok(list[i])
    ensures result.None? ==> exists k :: (0 <= k < |companies| &&
      DownloadQuoteFor(companies[k], k, net, tokenise, parse).Err? &&
      (forall i :: 0 <= i < k ==> DownloadQuoteFor(companies[i], i, net, tokenise, parse) == Ok(list[i])) &&
      list[k..] == companies[k..])
  {
    var fault;
    list, fault := Update(companies, net, tokenise, parse);
    result := if fault.None? then Some(list) else None;
  }

  // ---------------------------------------------------------------------
  // The catch clause of downloadQuoteFor covers too little

  /** The object of a quote-service answer for an instrument without a
      volume figure: the quote holds AverageDailyVolume as JSON null, which
      is the first field the decoder reads. */
  function NoVolumeAnswer(): Object {
    map["query" := Obj(map["results" := Obj(map["quote" := Obj(map["AverageDailyVolume" := Null])])])]
  }

  /** That answer as the service sends it: one line of JSON text. */
  function NoVolumeText(): string {
    "{\"query\":" + "{\"results\":" + "{\"quote\":" + "{\"AverageDailyVolume\":" + "null}}}}"
  }

  /** The text is one line holding just the object, so the brace cut keeps
      all of it. */
  lemma NoVolumeTextIsJson()
    ensures Jsonp.JsonText(NoVolumeText()) == Ok(NoVolumeText())
  {
    var text := NoVolumeText();
    assert NoBreak("{\"query\":") && NoBreak("{\"results\":") && NoBreak("{\"quote\":") &&
      NoBreak("{\"AverageDailyVolume\":") && NoBreak("null}}}}");
    assert NoBreak(text);
    Jsonp.JsonTextOfObjectLine(text);
  }

  predicate NoBreak(s: string) {
    forall k :: 0 <= k < |s| ==> !IsLineBreak(s[k])
  }

  /** As written, a payload that is valid JSON but holds a non-numeric
      number field aborts the whole refresh with a NumberFormatException
      instead of keeping the stale quote: for any answer whose JSON text the
      tokeniser reads as that object, such as `NoVolumeText()`. */
  lemma NonNumericFieldAbortsRefresh(quote: Quote, net: Network, tokenise: Tokeniser, parse: DoubleParser, payload: string)
    requires quote.ticker.Some?
    requires net(0, QuoteUrl(quote.ticker.value)) == Body(payload)
    requires Jsonp.JsonText(payload).Ok?
    requires tokenise(Jsonp.JsonText(payload).value) == Some(Obj(NoVolumeAnswer()))
    ensures DownloadQuoteFor(quote, 0, net, tokenise, parse) == Err(NumberFormatError)
    ensures DownloadQuoteIsolated(quote, 0, net, tokenise, parse) == Ok(quote)
  {
    NoVolumeAnswerFailsToParse(payload, tokenise, parse);
  }

  /** The decoder's side: the first field it reads is not a long. */
  lemma NoVolumeAnswerFailsToDecode(parse: DoubleParser)
    ensures QuoteJsonParser.QuoteObject(NoVolumeAnswer()).Ok?
    ensures QuoteJsonParser.DecodeQuote(QuoteJsonParser.QuoteObject(NoVolumeAnswer()).value, parse) ==
      Err(NumberFormatError)
  {
    var obj := map["AverageDailyVolume" := Null];
    assert QuoteJsonParser.QuoteObject(NoVolumeAnswer()) == Ok(obj);
    assert GetString(obj, "AverageDailyVolume") == Ok("null");
    assert !LongSyntax("null") by { assert !Digits.IsDigit('n'); }
  }

  /** A payload whose JSON text reads as that object reaches the decoder and
      fails there. */
  lemma NoVolumeAnswerFailsToParse(payload: string, tokenise: Tokeniser, parse: DoubleParser)
    requires Jsonp.JsonText(payload).Ok?
    requires tokenise(Jsonp.JsonText(payload).value) == Some(Obj(NoVolumeAnswer()))
    ensures QuoteJsonParser.ParseText(payload, tokenise, parse) == Err(NumberFormatError)
  {
    NoVolumeAnswerFailsToDecode(parse);
  }

  /** The evidently intended `downloadQuoteFor`: any failure to make sense of
      the downloaded payload keeps the stale quote; only a null ticker or a
      transport failure propagates. */
  function DownloadQuoteIsolated(quote: Quote, slot: nat, net: Network, tokenise: Tokeniser, parse: DoubleParser)
    : (r: Result<Quote, Fault>)
    ensures quote.ticker.None? ==> r == Err(NullPointerError)
    ensures r.Err? ==> r.error == NullPointerError || r.error == IoError
    ensures r.Err? && quote.ticker.Some? ==> net(slot, QuoteUrl(quote.ticker.value)).TransportFailure?
    ensures r.Ok? ==> r.value == quote || HasData(r.value)
    ensures quote.ticker.Some? && net(slot, QuoteUrl(quote.ticker.value)).Body? ==>
      var parsed := QuoteJsonParser.ParseText(net(slot, QuoteUrl(quote.ticker.value)).payload, tokenise, parse);
      r == Ok(if parsed.Ok? then parsed.value else quote)
  {
    if quote.ticker.None? then Err(NullPointerError)
    else
      var url := QuoteUrl(quote.ticker.value);
      match net(slot, url)
      case TransportFailure => Err(IoError)
      case Body(payload) =>
        match QuoteJsonParser.Parse(Stream(payload, true), tokenise, parse).0
        case Ok(q) => Ok(q)
        case Err(_) => Ok(quote)
  }

  /** The two agree on everything but the escaping parse exceptions. */
  lemma IsolatedAgreesExceptOnParseFaults(quote: Quote, slot: nat, net: Network, tokenise: Tokeniser, parse: DoubleParser)
    ensures var asWritten := DownloadQuoteFor(quote, slot, net, tokenise, parse);
      var isolated := DownloadQuoteIsolated(quote, slot, net, tokenise, parse);
      asWritten == isolated ||
      (asWritten.Err? && asWritten.error in {NumberFormatError, IndexError, NullPointerError} &&
       isolated == Ok(quote))
  {
  }

  /** The refresh over the intended `downloadQuoteFor`: only an entry with a
      null ticker or a transport failure ends the loop early; a malformed
      payload for one instrument no longer costs the rest their refresh. */
  method UpdateIsolated(companies: Companies, net: Network, tokenise: Tokeniser, parse: DoubleParser)
    returns (r: Companies, fault: Option<Fault>)
    ensures |r| == |companies|
    ensures fault.None? ==> forall i :: 0 <= i < |companies| ==>
      DownloadQuoteIsolated(companies[i], i, net, tokenise, parse) == Ok(r[i])
    ensures fault.Some? ==> exists k :: (0 <= k < |companies| &&
      (companies[k].ticker.None? || net(k, QuoteUrl(companies[k].ticker.value)).TransportFailure?) &&
      (forall i :: 0 <= i < k ==> DownloadQuoteIsolated(companies[i], i, net, tokenise, parse) == Ok(r[i])) &&
      r[k..] == companies[k..])
    ensures (forall i :: 0 <= i < |companies| ==> (companies[i].ticker.Some? &&
      net(i, QuoteUrl(companies[i].ticker.value)).Body?)) ==> fault.None?
  {
    r, fault := RefreshLoop(companies, (q: Quote, i: nat) => DownloadQuoteIsolated(q, i, net, tokenise, parse));
  }
}
