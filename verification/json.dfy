/** The output of the org.json tokeniser as Android ships it, and the
    accessors the parsers call on it. Tokenising text into these values is
    not part of this model; the parsers take it as a parameter. */
module Json {
  import opened Results
  import opened Digits
  import opened Quotes

  /** A JSON value. A number carries the text `String.valueOf` gives for the
      Java number the tokeniser built. */
  datatype Json =
    | Obj(fields: map<string, Json>)
    | Arr(items: seq<Json>)
    | Str(s: string)
    | Num(text: string)
    | Bool(b: bool)
    | Null

  type Object = map<string, Json>

  /** The tokeniser: `new JSONObject(text)` and friends; None on a syntax
      error. */
  type Tokeniser = string -> Option<Json>

  /** `Double.parseDouble`: None where Java throws NumberFormatException. */
  type DoubleParser = string -> Option<real>

  /** `new JSONObject(text)`: the text must denote an object. */
  function ParseObject(tokenise: Tokeniser, text: string): (r: Result<Object, Fault>)
    ensures r.Ok? <==> tokenise(text).Some? && tokenise(text).value.Obj?
    ensures r.Ok? ==> tokenise(text) == Some(Obj(r.value))
    ensures r.Err? ==> r.error == JsonError
  {
    match tokenise(text)
    case Some(Obj(f)) => Ok(f)
    case _ => Err(JsonError)
  }

  /** `obj.getString(key)`: missing keys throw; strings are returned as they
      are, numbers and booleans as their text, and JSON null as "null". */
  function GetString(obj: Object, key: string): (r: Result<string, Fault>)
    ensures key !in obj ==> r == Err(JsonError)
    ensures r.Err? ==> r.error == JsonError
    ensures key in obj && obj[key].Str? ==> r == Ok(obj[key].s)
    ensures key in obj && obj[key] == Null ==> r == Ok("null")
  {
    if key !in obj then Err(JsonError)
    else match obj[key]
      case Str(s) => Ok(s)
      case Num(t) => Ok(t)
      case Bool(b) => Ok(if b then "true" else "false")
      case Null => Ok("null")
      case _ => Err(JsonError)
  }

  /** `obj.getJSONObject(key)`. */
  function GetObject(obj: Object, key: string): (r: Result<Object, Fault>)
    ensures r.Ok? <==> key in obj && obj[key].Obj?
    ensures r.Ok? ==> obj[key] == Obj(r.value)
    ensures r.Err? ==> r.error == JsonError
  {
    if key in obj && obj[key].Obj? then Ok(obj[key].fields) else Err(JsonError)
  }

  /** `obj.getJSONArray(key)`. */
  function GetArray(obj: Object, key: string): (r: Result<seq<Json>, Fault>)
    ensures r.Ok? <==> key in obj && obj[key].Arr?
    ensures r.Ok? ==> obj[key] == Arr(r.value)
    ensures r.Err? ==> r.error == JsonError
  {
    if key in obj && obj[key].Arr? then Ok(obj[key].items) else Err(JsonError)
  }

  /** `arr.getJSONObject(i)`. */
  function ElementObject(arr: seq<Json>, i: int): (r: Result<Object, Fault>)
    ensures r.Ok? <==> 0 <= i < |arr| && arr[i].Obj?
    ensures r.Ok? ==> arr[i] == Obj(r.value)
    ensures r.Err? ==> r.error == JsonError
  {
    if 0 <= i < |arr| && arr[i].Obj? then Ok(arr[i].fields) else Err(JsonError)
  }

  /** `Double.parseDouble(text)`. */
  function ToDouble(parse: DoubleParser, text: string): (r: Result<real, Fault>)
    ensures r.Ok? <==> parse(text).Some?
    ensures r.Ok? ==> r.value == parse(text).value
    ensures r.Err? ==> r.error == NumberFormatError
  {
    match parse(text)
    case Some(v) => Ok(v)
    case None => Err(NumberFormatError)
  }

  // ---------------------------------------------------------------------
  // Long.parseLong and Long.toString

  /** An optional sign followed by at least one digit. */
  predicate LongSyntax(s: string) {
    if |s| > 0 && (s[0] == '-' || s[0] == '+') then |s| > 1 && AllDigits(s[1..])
    else |s| > 0 && AllDigits(s)
  }

  /** The integer a syntactically valid text denotes. */
  function SignedValue(s: string): int
    requires LongSyntax(s)
  {
    if s[0] == '-' then -(Value(s[1..]) as int)
    else if s[0] == '+' then Value(s[1..])
    else Value(s)
  }

  /** `Long.parseLong(s)`: NumberFormatException unless `s` is an optional
      sign and digits whose value fits in 64 bits. */
  function ParseLong(s: string): (r: Result<Long, Fault>)
    ensures r.Ok? <==> LongSyntax(s) && LONG_MIN <= SignedValue(s) <= LONG_MAX
    ensures r.Ok? ==> r.value == SignedValue(s)
    ensures r.Err? ==> r.error == NumberFormatError
  {
    if LongSyntax(s) && LONG_MIN <= SignedValue(s) <= LONG_MAX then Ok(SignedValue(s))
    else Err(NumberFormatError)
  }

  /** `Long.toString(v)`. */
  function LongToString(v: Long): (s: string)
    ensures LongSyntax(s)
  {
    if v < 0 then "-" + NatToDigits(-(v as int)) else NatToDigits(v)
  }

  /** Parsing what `Long.toString` prints gives the number back. */
  lemma ParseLongOfToString(v: Long)
    ensures ParseLong(LongToString(v)) == Ok(v)
  {
    var s := LongToString(v);
    if v < 0 {
      var ds := NatToDigits(-(v as int));
      assert s == "-" + ds;
      assert s[1..] == ds;
      assert SignedValue(s) == v;
    } else {
      var ds := NatToDigits(v);
      assert s == ds && IsDigit(s[0]);
      assert SignedValue(s) == v;
    }
  }
}
