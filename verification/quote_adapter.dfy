/** QuoteAdapter's list operations. The adapter keeps the list it is given
    by reference, and the app gives it the portfolio's own list, so each
    operation here acts on the portfolio's companies. */
module QuoteAdapter {
  import opened Results
  import opened Quotes
  import Portfolio

  /** `addQuote(q)`: `q` goes last. */
  function AddQuote(quotes: seq<Quote>, q: Quote): (r: seq<Quote>)
    ensures |r| == |quotes| + 1 && r[..|quotes|] == quotes && r[|quotes|] == q
  {
    quotes + [q]
  }

  /** `getCount()`. */
  function GetCount(quotes: seq<Quote>): nat {
    |quotes|
  }

  /** `getItem(position)`: IndexOutOfBoundsException outside the list. */
  function GetItem(quotes: seq<Quote>, position: int): (r: Result<Quote, Fault>)
    ensures r.Ok? <==> 0 <= position < |quotes|
    ensures r.Ok? ==> r.value == quotes[position]
    ensures r.Err? ==> r.error == IndexError
  {
    if 0 <= position < |quotes| then Ok(quotes[position]) else Err(IndexError)
  }

  /** `getItemId(position)`: every row has id 0. */
  function GetItemId(quotes: seq<Quote>, position: int): (id: int)
    ensures id == 0
  {
    0
  }

  /** `removeItem(position)`: exactly the element at `position` goes, the
      others keep their order; IndexOutOfBoundsException outside the list. */
  function RemoveItem(quotes: seq<Quote>, position: int): (r: Result<seq<Quote>, Fault>)
    ensures r.Ok? <==> 0 <= position < |quotes|
    ensures r.Ok? ==> |r.value| == |quotes| - 1
    ensures r.Ok? ==> forall i :: 0 <= i < |r.value| ==> r.value[i] == quotes[if i < position then i else i + 1]
    ensures r.Err? ==> r.error == IndexError
  {
    if 0 <= position < |quotes| then Ok(quotes[..position] + quotes[position + 1..]) else Err(IndexError)
  }

  /** Removing the quote just added restores the list; the count moves by
      one each way. */
  lemma RemoveItemUndoesAddQuote(quotes: seq<Quote>, q: Quote)
    ensures RemoveItem(AddQuote(quotes, q), |quotes|) == Ok(quotes)
    ensures GetCount(AddQuote(quotes, q)) == GetCount(quotes) + 1
    ensures GetItem(AddQuote(quotes, q), |quotes|) == Ok(q)
  {
    var r := AddQuote(quotes, q);
    assert r[..|quotes|] + r[|quotes| + 1..] == quotes;
  }

  /** After `removeItem(p)` the count is one less, and every row reads the
      quote that stood at the same position before p, or one further on. */
  lemma RemoveItemShiftsRows(quotes: seq<Quote>, p: int, i: int)
    requires RemoveItem(quotes, p).Ok?
    ensures GetCount(RemoveItem(quotes, p).value) == GetCount(quotes) - 1
    ensures 0 <= i < GetCount(RemoveItem(quotes, p).value) ==>
      GetItem(RemoveItem(quotes, p).value, i) == GetItem(quotes, if i < p then i else i + 1)
    ensures GetItem(RemoveItem(quotes, p).value, i).Ok? <==> 0 <= i < GetCount(quotes) - 1
  {
  }

  /** Re-adding the removed quote at the end keeps the same quotes, with the
      removed one moved last. */
  lemma RemoveThenAddRotates(quotes: seq<Quote>, p: nat)
    requires p < |quotes|
    ensures var r := RemoveItem(quotes, p).value;
      multiset(AddQuote(r, quotes[p])) == multiset(quotes)
  {
    var r := RemoveItem(quotes, p).value;
    assert quotes == quotes[..p] + [quotes[p]] + quotes[p + 1..];
    assert r == quotes[..p] + quotes[p + 1..];
    calc {
      multiset(AddQuote(r, quotes[p]));
      multiset(quotes[..p] + quotes[p + 1..] + [quotes[p]]);
      multiset(quotes[..p]) + multiset(quotes[p + 1..]) + multiset([quotes[p]]);
      multiset(quotes[..p] + [quotes[p]] + quotes[p + 1..]);
    }
  }

  /** Through the shared list, adding a placeholder via the adapter is the
      portfolio's own `addCompanyNoUpdate`. */
  lemma AdapterSharesPortfolioList(companies: seq<Quote>, ticker: Option<string>)
    ensures AddQuote(companies, Placeholder(ticker)) == Portfolio.AddCompanyNoUpdate(companies, ticker)
  {
  }
}
