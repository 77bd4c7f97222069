/** How MainActivity stores the monitored tickers: one comma-separated
    string, written by `saveStocksToPreferences` and read back in
    `onCreate`. The preference store itself is left out; a stored value is
    an `Option<string>` (None: no "tickers" key). */
module TickerPreferences {
  import opened Results
  import opened JavaText
  import opened Quotes
  import Portfolio

  /** The tickers the save loop writes: the non-null ones, in list order. */
  function Contributions(quotes: seq<Quote>): (ts: seq<string>)
    ensures |ts| <= |quotes|
    ensures (forall k :: 0 <= k < |quotes| ==> quotes[k].ticker.None?) <==> |ts| == 0
  {
    if |quotes| == 0 then []
    else if quotes[0].ticker.None? then Contributions(quotes[1..])
    else [quotes[0].ticker.value] + Contributions(quotes[1..])
  }

  /** The save loop's `tickers += q.ticker + ","`. */
  function Accumulated(ts: seq<string>): (s: string)
    ensures |s| >= |ts|
    ensures |ts| > 0 ==> s[|s| - 1] == ','
  {
    if |ts| == 0 then "" else ts[0] + "," + Accumulated(ts[1..])
  }

  /** The value `saveStocksToPreferences` writes, or None when no ticker
      contributes and nothing is written. */
  function EncodeTickers(quotes: seq<Quote>): (r: Option<string>)
    ensures r.None? <==> |Contributions(quotes)| == 0
    ensures r.Some? ==> r.value == Join(Contributions(quotes), ',')
  {
    var acc := Accumulated(Contributions(quotes));
    if |acc| != 0 then
      AccumulatedIsJoin(Contributions(quotes));
      Some(acc[..|acc| - 1])
    else None
  }

  lemma {:induction false} AccumulatedIsJoin(ts: seq<string>)
    requires |ts| > 0
    ensures Accumulated(ts) == Join(ts, ',') + ","
  {
    if |ts| > 1 {
      AccumulatedIsJoin(ts[1..]);
      assert Accumulated(ts) == ts[0] + "," + (Join(ts[1..], ',') + ",");
    } else {
      assert Accumulated(ts[1..]) == "";
    }
  }

  /** The stored value after saving: the old one survives when nothing is
      written. */
  function SaveTickers(quotes: seq<Quote>, stored: Option<string>): (r: Option<string>)
    ensures |Contributions(quotes)| == 0 ==> r == stored
    ensures |Contributions(quotes)| > 0 ==> r == Some(Join(Contributions(quotes), ','))
  {
    match EncodeTickers(quotes)
    case Some(s) => Some(s)
    case None => stored
  }

  /** The portfolio built by adding one placeholder per ticker, in order. */
  function Placeholders(ts: seq<string>): (r: seq<Quote>)
    ensures |r| == |ts|
    ensures forall k :: 0 <= k < |ts| ==> r[k] == Placeholder(Some(ts[k]))
  {
    if |ts| == 0 then [] else Portfolio.AddCompanyNoUpdate(Placeholders(ts[..|ts| - 1]), Some(ts[|ts| - 1]))
  }

  const DefaultTickers: seq<string> := ["YHOO", "ARM.L", "^FTSE", "MSFT", "AAPL", "FB"]

  /** The portfolio `onCreate` builds: one placeholder per piece of the stored
      string split on ",", or the six defaults when nothing is stored. */
  function RestoreTickers(stored: Option<string>): (r: seq<Quote>)
    ensures stored.None? ==> r == Placeholders(DefaultTickers)
    ensures stored.Some? ==> r == Placeholders(Split(stored.value, ','))
    ensures forall k :: 0 <= k < |r| ==> r[k].ticker.Some? && !HasData(r[k])
  {
    match stored
    case Some(s) => Placeholders(Split(s, ','))
    case None => Placeholders(DefaultTickers)
  }

  /** The tickers of a restored portfolio are the pieces it was built from. */
  lemma {:induction false} ContributionsOfPlaceholders(ts: seq<string>)
    ensures Contributions(Placeholders(ts)) == ts
  {
    if |ts| > 0 {
      var r := Placeholders(ts);
      assert r[0] == Placeholder(Some(ts[0]));
      assert r[1..] == Placeholders(ts[1..]);
      ContributionsOfPlaceholders(ts[1..]);
      assert [ts[0]] + ts[1..] == ts;
    }
  }

  /** Java's split undoes the join exactly when no ticker holds a comma and
      the last ticker is not empty (or it is the only one): split drops
      trailing empty pieces, and "".split(",") is [""]. */
  lemma SplitOfJoin(ts: seq<string>)
    requires |ts| > 0
    ensures Split(Join(ts, ','), ',') == ts <==>
      (forall k :: 0 <= k < |ts| ==> ',' !in ts[k]) && (|ts| == 1 || ts[|ts| - 1] != "")
  {
    var s := Join(ts, ',');
    if forall k :: 0 <= k < |ts| ==> ',' !in ts[k] {
      if |ts| == 1 {
        assert s == ts[0];
      } else {
        JoinContainsSep(ts, ',');
        PiecesOfJoin(ts, ',');
        assert Split(s, ',') == DropTrailingEmpty(ts);
        if ts[|ts| - 1] == "" {
          assert |DropTrailingEmpty(ts)| < |ts|;
        }
      }
    } else {
      // Split never yields a piece holding the separator.
      var k :| 0 <= k < |ts| && ',' in ts[k];
    }
  }

  /** Saving then restoring gives back the same tickers, in order, exactly
      under the conditions of `SplitOfJoin`; the restored entries are fresh
      placeholders. */
  lemma SaveRestoreRoundTrip(quotes: seq<Quote>, stored: Option<string>)
    requires |Contributions(quotes)| > 0
    ensures var ts := Contributions(quotes);
      Contributions(RestoreTickers(SaveTickers(quotes, stored))) == ts <==>
      (forall k :: 0 <= k < |ts| ==> ',' !in ts[k]) && (|ts| == 1 || ts[|ts| - 1] != "")
    ensures var ts := Contributions(quotes);
      Split(Join(ts, ','), ',') == ts ==> RestoreTickers(SaveTickers(quotes, stored)) == Placeholders(ts)
  {
    var ts := Contributions(quotes);
    SplitOfJoin(ts);
    ContributionsOfPlaceholders(Split(Join(ts, ','), ','));
  }

  /** The defaults, as stored. */
  lemma DefaultTickersOrder()
    ensures var r := RestoreTickers(None);
      |r| == 6 && r[0].ticker == Some("YHOO") && r[1].ticker == Some("ARM.L") &&
      r[2].ticker == Some("^FTSE") && r[3].ticker == Some("MSFT") &&
      r[4].ticker == Some("AAPL") && r[5].ticker == Some("FB")
  {
  }
}
