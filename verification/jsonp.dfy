/** The first step both JSON parsers share: the first line of the payload,
    cut from its first '{' to its last '}', which strips a JSONP callback
    wrapper such as `cb({...});`. */
module Jsonp {
  import opened Results
  import opened JavaText

  /** `json.substring(json.indexOf("{"), json.lastIndexOf("}") + 1)`: the
      text from the first '{' to the last '}', which strips the callback
      wrapper around the object. */
  function ExtractObject(line: string): (r: Result<string, Fault>)
    ensures r.Ok? <==> '{' in line && IndexOf(line, '{') <= LastIndexOf(line, '}') + 1
    ensures r.Err? ==> r.error == IndexError
    ensures r.Ok? ==> r.value == line[IndexOf(line, '{')..LastIndexOf(line, '}') + 1]
    ensures r.Ok? && r.value != "" ==> r.value[0] == '{' && r.value[|r.value| - 1] == '}'
  {
    var b := IndexOf(line, '{');
    var e := LastIndexOf(line, '}') + 1;
    var s := Substring(line, b, e);
    if s.Ok? then
      assert s.value == line[b..e];
      s
    else s
  }

  /** Extracting again from an extracted, non-empty text changes nothing. */
  lemma ExtractObjectIdempotent(line: string)
    requires ExtractObject(line).Ok? && ExtractObject(line).value != ""
    ensures ExtractObject(ExtractObject(line).value) == ExtractObject(line)
  {
    var t := ExtractObject(line).value;
    var b := IndexOf(line, '{');
    var e := LastIndexOf(line, '}') + 1;
    assert t == line[b..e];
    assert t[0] == '{' && t[|t| - 1] == '}';
    assert IndexOf(t, '{') == 0;
    assert LastIndexOf(t, '}') == |t| - 1;
    assert Substring(t, 0, |t|) == Ok(t[0..|t|]);
    assert t[0..|t|] == t;
  }

  lemma {:induction false} FirstLineOfLine(line: string, rest: string)
    requires forall k :: 0 <= k < |line| ==> !IsLineBreak(line[k])
    requires |rest| == 0 || IsLineBreak(rest[0])
    ensures FirstLine(line + rest) == line
  {
    if |line| > 0 {
      assert (line + rest)[1..] == line[1..] + rest;
      FirstLineOfLine(line[1..], rest);
    } else {
      assert line + rest == rest;
    }
  }

  /** `reader.readLine()` followed by the brace cut: a null line (empty
      payload) fails on the `substring` call with a NullPointerException. */
  function JsonText(payload: string): (r: Result<string, Fault>)
    ensures |payload| == 0 ==> r == Err(NullPointerError)
    ensures |payload| > 0 ==> r == ExtractObject(ReadLine(payload).value)
    ensures r.Err? ==> r.error == NullPointerError || r.error == IndexError
  {
    match ReadLine(payload)
    case None => Err(NullPointerError)
    case Some(line) => ExtractObject(line)
  }

  /** A payload that is one line holding just an object's text is its own
      JSON text: nothing around the braces to cut. */
  lemma JsonTextOfObjectLine(line: string)
    requires |line| > 0 && line[0] == '{' && line[|line| - 1] == '}'
    requires forall k :: 0 <= k < |line| ==> !IsLineBreak(line[k])
    ensures JsonText(line) == Ok(line)
  {
    FirstLineOfLine(line, "");
    assert line + "" == line;
    assert IndexOf(line, '{') == 0;
    assert LastIndexOf(line, '}') == |line| - 1;
    assert line[0..|line|] == line;
  }

  /** Text after the first line break never influences the JSON text. */
  lemma OnlyFirstLineMatters(line: string, rest: string)
    requires line != ""
    requires forall k :: 0 <= k < |line| ==> !IsLineBreak(line[k])
    ensures JsonText(line + "\n" + rest) == JsonText(line)
  {
    assert line + "\n" + rest == line + ("\n" + rest);
    FirstLineOfLine(line, "\n" + rest);
    FirstLineOfLine(line, "");
    assert line + "" == line;
  }
}
