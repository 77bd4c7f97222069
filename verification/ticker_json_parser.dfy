/** TickerJsonParser.parse: a symbol-search payload to an insertion-ordered
    map from a display label `name (symbol)` to the symbol. */
module TickerJsonParser {
  import opened Results
  import opened JavaText
  import opened Json
  import opened Jsonp
  import opened LinkedMap

  /** The key a suggestion is listed under. */
  function Label(name: string, symbol: string): (l: string)
    ensures |l| == |name| + |symbol| + 3
  {
    name + " (" + symbol + ")"
  }

  /** The label is the name, " (", the symbol and ")". */
  lemma LabelParts(name: string, symbol: string)
    ensures var l := Label(name, symbol);
      l[..|name|] == name && l[|name|..|name| + 2] == " (" &&
      l[|name| + 2..|l| - 1] == symbol && l[|l| - 1] == ')'
  {
  }

  /** One array element: `arr.getJSONObject(i)`, then its `name` and its
      `symbol`, read in that order. */
  function Suggestion(e: Json): (r: Result<(string, string), Fault>)
    ensures r.Ok? <==> (e.Obj? && GetString(e.fields, "name").Ok? && GetString(e.fields, "symbol").Ok?)
    ensures r.Ok? ==> r.value.1 == GetString(e.fields, "symbol").value
    ensures r.Ok? ==> r.value.0 == Label(GetString(e.fields, "name").value, r.value.1)
    ensures r.Err? ==> r.error == JsonError
  {
    var obj :- ElementObject([e], 0);
    var name :- GetString(obj, "name");
    var symbol :- GetString(obj, "symbol");
    Ok((Label(name, symbol), symbol))
  }

  /** The entries of the array in array order; if any element fails, the
      whole array fails and no partial list is returned. */
  function Suggestions(arr: seq<Json>): (r: Result<seq<(string, string)>, Fault>)
    ensures r.Ok? <==> forall i :: 0 <= i < |arr| ==> Suggestion(arr[i]).Ok?
    ensures r.Ok? ==> |r.value| == |arr|
    ensures r.Ok? ==> forall i :: 0 <= i < |arr| ==> Suggestion(arr[i]) == Ok(r.value[i])
    ensures r.Err? ==> r.error == JsonError
  {
    if |arr| == 0 then Ok([])
    else
      var init := arr[..|arr| - 1];
      var prev :- Suggestions(init);
      var last :- Suggestion(arr[|arr| - 1]);
      assert forall i :: 0 <= i < |init| ==> arr[i] == init[i];
      Ok(prev + [last])
  }

  /** `getJSONObject("ResultSet").getJSONArray("Result")`. */
  function ResultArrayOf(root: Object): (r: Result<seq<Json>, Fault>)
    ensures r.Ok? <==> ("ResultSet" in root && root["ResultSet"].Obj? &&
      "Result" in root["ResultSet"].fields && root["ResultSet"].fields["Result"].Arr?)
    ensures r.Ok? ==> r.value == root["ResultSet"].fields["Result"].items
    ensures r.Err? ==> r.error == JsonError
  {
    var resultSet :- GetObject(root, "ResultSet");
    GetArray(resultSet, "Result")
  }

  /** The array at ResultSet -> Result of the payload's first line. */
  function ResultArray(payload: string, tokenise: Tokeniser): (r: Result<seq<Json>, Fault>)
    ensures JsonText(payload).Err? ==> r == Err(JsonText(payload).error)
    ensures r.Err? && JsonText(payload).Ok? ==> r.error == JsonError
  {
    var json :- JsonText(payload);
    var root :- ParseObject(tokenise, json);
    ResultArrayOf(root)
  }

  /** The reference definition: the suggestions put, in array order, into an
      empty insertion-ordered map. */
  function ParseText(payload: string, tokenise: Tokeniser): (r: Result<Entries<string, string>, Fault>)
    ensures ResultArray(payload, tokenise).Err? ==> r == Err(ResultArray(payload, tokenise).error)
    ensures r.Ok? <==> ResultArray(payload, tokenise).Ok? && Suggestions(ResultArray(payload, tokenise).value).Ok?
    ensures r.Ok? ==> r.value == FromPairs(Suggestions(ResultArray(payload, tokenise).value).value)
  {
    var arr :- ResultArray(payload, tokenise);
    var pairs :- Suggestions(arr);
    Ok(FromPairs(pairs))
  }

  /** A failing element makes every longer prefix fail the same way. */
  lemma {:induction false} SuggestionsFailFirst(arr: seq<Json>, n: nat)
    requires n <= |arr| && Suggestions(arr[..n]).Err?
    ensures Suggestions(arr) == Suggestions(arr[..n])
    decreases |arr| - n
  {
    if n < |arr| {
      assert arr[..n + 1][..n] == arr[..n];
      SuggestionsFailFirst(arr, n + 1);
    } else {
      assert arr[..n] == arr;
    }
  }

  /** One more element either extends the entries by its own or fails. */
  lemma SuggestionsStep(arr: seq<Json>, i: nat)
    requires i < |arr| && Suggestions(arr[..i]).Ok?
    ensures Suggestion(arr[i]).Err? ==> Suggestions(arr[..i + 1]).Err?
    ensures Suggestion(arr[i]).Ok? ==>
      Suggestions(arr[..i + 1]) == Ok(Suggestions(arr[..i]).value + [Suggestion(arr[i]).value])
  {
    assert arr[..i + 1][..i] == arr[..i];
  }

  /** `parse(in)`: the loop of the source over the result array, putting each
      entry into the map as it is read; the stream is closed on every path. */
  method Parse(input: Stream<string>, tokenise: Tokeniser)
    returns (r: Result<Entries<string, string>, Fault>, closed: Stream<string>)
    ensures !closed.open && closed.content == input.content
    ensures !input.open ==> r == Err(IoError)
    ensures input.open ==> r == ParseText(input.content, tokenise)
    ensures r.Ok? ==> Valid(r.value)
  {
    closed := Close(input);
    if !input.open {
      return Err(IoError), closed;
    }
    var a := ResultArray(input.content, tokenise);
    if a.Err? {
      return Err(a.error), closed;
    }
    var arr := a.value;
    var tickers: Entries<string, string> := [];
    var i := 0;
    while i < |arr|
      invariant 0 <= i <= |arr|
      invariant Suggestions(arr[..i]).Ok?
      invariant tickers == FromPairs(Suggestions(arr[..i]).value)
    {
      var e := Suggestion(arr[i]);
      SuggestionsStep(arr, i);
      if e.Err? {
        SuggestionsFailFirst(arr, i + 1);
        return Err(e.error), closed;
      }
      FromPairsSnoc(Suggestions(arr[..i]).value, e.value);
      tickers := Put(tickers, e.value.0, e.value.1);
      i := i + 1;
    }
    assert arr[..i] == arr;
    FromPairsKeySet(Suggestions(arr).value);
    return Ok(tickers), closed;
  }

  /** Every element contributes its label, bound to the symbol of the LAST
      element carrying that label; labels keep the order in which they first
      occur; there are at most as many entries as elements, exactly as many
      when the labels are distinct. */
  lemma ParseTextEntries(payload: string, tokenise: Tokeniser)
    ensures ParseText(payload, tokenise).Ok? ==>
      var arr := ResultArray(payload, tokenise).value;
      var m := ParseText(payload, tokenise).value;
      var pairs := Suggestions(arr).value;
      Valid(m) && |m| <= |arr| &&
      (forall l :: l in Keys(m) <==> l in Keys(pairs)) &&
      InFirstOccurrenceOrder(Keys(m), Keys(pairs)) &&
      (Distinct(Keys(pairs)) ==> m == pairs)
  {
    if ParseText(payload, tokenise).Ok? {
      var pairs := Suggestions(ResultArray(payload, tokenise).value).value;
      FromPairsKeys(pairs);
      FromPairsSize(pairs);
    }
  }

  /** The label of element i maps to element i's symbol when no later element
      has the same label. */
  lemma ParseTextLookup(payload: string, tokenise: Tokeniser, pairs: seq<(string, string)>, i: nat)
    requires i < |pairs|
    requires forall j :: i < j < |pairs| ==> pairs[j].0 != pairs[i].0
    ensures ResultArray(payload, tokenise).Ok? && Suggestions(ResultArray(payload, tokenise).value) == Ok(pairs) ==>
      ParseText(payload, tokenise).Ok? && Get(ParseText(payload, tokenise).value, pairs[i].0) == Some(pairs[i].1)
  {
    if ResultArray(payload, tokenise).Ok? && Suggestions(ResultArray(payload, tokenise).value) == Ok(pairs) {
      FromPairsGet(pairs, pairs[i].0, i);
    }
  }

  /** An empty result array gives an empty map. */
  lemma ParseTextEmpty(payload: string, tokenise: Tokeniser)
    requires ResultArray(payload, tokenise) == Ok([])
    ensures ParseText(payload, tokenise) == Ok([])
  {
  }

  /** Labels are not injective: two different companies can share a key, so
      the later one silently replaces the earlier one's symbol. */
  lemma LabelsCollide()
    ensures Label("A (B", "C)") == Label("A", "B (C)")
    ensures "C)" != "B (C)"
  {
  }
}
