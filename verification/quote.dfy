/** The `Quote` record of one monitored instrument. */
module Quotes {
  import opened Results

  const LONG_MIN: int := -0x8000_0000_0000_0000
  const LONG_MAX: int := 0x7FFF_FFFF_FFFF_FFFF

  /** A Java `long`. */
  type Long = x: int | LONG_MIN <= x <= LONG_MAX

  /** A Java `double` result that may be finite, or an infinity or NaN (what
      a division by a zero price gives). */
  datatype Ext = Finite(value: real) | NonFinite

  /** Every field of the Java class; reference fields may be null. Prices
      are exact reals: the model does not round to binary doubles. */
  datatype Quote = Quote(
    averageDailyVolume: Long,
    change: real,
    percentChange: Ext,
    daysLow: real,
    daysHigh: real,
    yearLow: real,
    yearHigh: real,
    marketCapitalization: Option<string>,
    lastTradePrice: real,
    name: Option<string>,
    ticker: Option<string>,
    volume: Long,
    stockExchange: Option<string>)

  /** `new Quote()`: Java's field defaults, zero numbers and null references. */
  function NewQuote(): (q: Quote)
    ensures q.averageDailyVolume == 0 && q.volume == 0
    ensures q.change == 0.0 && q.percentChange == Finite(0.0)
    ensures q.daysLow == 0.0 && q.daysHigh == 0.0
    ensures q.yearLow == 0.0 && q.yearHigh == 0.0 && q.lastTradePrice == 0.0
    ensures q.marketCapitalization.None? && q.name.None?
    ensures q.ticker.None? && q.stockExchange.None?
  {
    Quote(0, 0.0, Finite(0.0), 0.0, 0.0, 0.0, 0.0, None, 0.0, None, None, 0, None)
  }

  /** The placeholder a newly monitored ticker starts as: a fresh Quote with
      only the ticker set. */
  function Placeholder(ticker: Option<string>): (q: Quote)
    ensures q.ticker == ticker
    ensures q.(ticker := None) == NewQuote()
    ensures !HasData(q)
  {
    NewQuote().(ticker := ticker)
  }

  /** The test the views apply before showing a quote: a non-null name. */
  predicate HasData(q: Quote) {
    q.name.Some?
  }

  /** `change / lastTradePrice * 100.0`. */
  function PercentChange(change: real, lastTradePrice: real): (p: Ext)
    ensures p.Finite? <==> lastTradePrice != 0.0
    ensures p.Finite? ==> p.value * lastTradePrice == change * 100.0
    ensures p.Finite? && change == 0.0 ==> p.value == 0.0
  {
    if lastTradePrice == 0.0 then NonFinite else Finite(change / lastTradePrice * 100.0)
  }
}
