/** The java.lang.String and java.io.BufferedReader operations the modelled
    code relies on, with the JDK's edge cases written out. */
module JavaText {
  import opened Results

  /** `s.indexOf(c)`: the first position of `c`, or -1. */
  function IndexOf(s: string, c: char): (r: int)
    ensures r == -1 <==> c !in s
    ensures 0 <= r ==> r < |s| && s[r] == c && c !in s[..r]
  {
    if |s| == 0 then -1
    else if s[0] == c then 0
    else
      var k := IndexOf(s[1..], c);
      if k < 0 then -1 else k + 1
  }

  /** `s.lastIndexOf(c)`: the last position of `c`, or -1. */
  function LastIndexOf(s: string, c: char): (r: int)
    ensures r == -1 <==> c !in s
    ensures 0 <= r ==> r < |s| && s[r] == c && c !in s[r + 1..]
  {
    if |s| == 0 then -1
    else if s[|s| - 1] == c then |s| - 1
    else
      var k := LastIndexOf(s[..|s| - 1], c);
      assert s[..|s| - 1] + [s[|s| - 1]] == s;
      k
  }

  /** `s.substring(b, e)`: throws unless 0 <= b <= e <= |s|. */
  function Substring(s: string, b: int, e: int): (r: Result<string, Fault>)
    ensures r.Err? <==> b < 0 || e > |s| || b > e
    ensures r.Err? ==> r.error == IndexError
    ensures r.Ok? ==> |r.value| == e - b && forall k :: 0 <= k < e - b ==> r.value[k] == s[b + k]
  {
    if b < 0 || e > |s| || b > e then Err(IndexError) else Ok(s[b..e])
  }

  predicate IsLineBreak(c: char) { c == '\n' || c == '\r' }

  /** `BufferedReader.readLine()` on a fresh reader: null at end of stream,
      otherwise the characters before the first line terminator. */
  function ReadLine(payload: string): (r: Option<string>)
    ensures r.None? <==> |payload| == 0
    ensures r.Some? ==> |r.value| <= |payload| && r.value == payload[..|r.value|]
    ensures r.Some? ==> forall k :: 0 <= k < |r.value| ==> !IsLineBreak(r.value[k])
    ensures r.Some? && |r.value| < |payload| ==> IsLineBreak(payload[|r.value|])
  {
    if |payload| == 0 then None else Some(FirstLine(payload))
  }

  function FirstLine(s: string): (l: string)
    ensures |l| <= |s| && l == s[..|l|]
    ensures forall k :: 0 <= k < |l| ==> !IsLineBreak(l[k])
    ensures |l| < |s| ==> IsLineBreak(s[|l|])
  {
    if |s| == 0 || IsLineBreak(s[0]) then "" else [s[0]] + FirstLine(s[1..])
  }

  // ---------------------------------------------------------------------
  // String.split with a one-character separator and limit 0

  /** Every piece between separators, trailing empty pieces included. */
  function Pieces(s: string, sep: char): (ps: seq<string>)
    ensures |ps| >= 1
    ensures forall k :: 0 <= k < |ps| ==> sep !in ps[k]
    decreases |s|
  {
    var i := IndexOf(s, sep);
    if i < 0 then [s] else [s[..i]] + Pieces(s[i + 1..], sep)
  }

  /** The pieces joined back with the separator between them. */
  function Join(ps: seq<string>, sep: char): string
    requires |ps| >= 1
  {
    if |ps| == 1 then ps[0] else ps[0] + [sep] + Join(ps[1..], sep)
  }

  function DropTrailingEmpty(ps: seq<string>): (r: seq<string>)
    ensures |r| <= |ps| && r == ps[..|r|]
    ensures |r| == 0 || r[|r| - 1] != ""
    ensures forall k :: |r| <= k < |ps| ==> ps[k] == ""
  {
    if |ps| > 0 && ps[|ps| - 1] == "" then DropTrailingEmpty(ps[..|ps| - 1]) else ps
  }

  /** `s.split(sep)`: when the separator never occurs the result is `[s]`
      (so `"".split(",")` is `[""]`); otherwise the pieces with the
      trailing empty ones removed (so `",".split(",")` is empty). */
  function Split(s: string, sep: char): (r: seq<string>)
    ensures forall k :: 0 <= k < |r| ==> sep !in r[k]
    ensures sep !in s ==> r == [s]
    ensures sep in s ==> |r| == 0 || r[|r| - 1] != ""
  {
    if sep !in s then [s] else DropTrailingEmpty(Pieces(s, sep))
  }

  lemma {:induction false} PiecesOfJoin(ps: seq<string>, sep: char)
    requires |ps| >= 1
    requires forall k :: 0 <= k < |ps| ==> sep !in ps[k]
    ensures Pieces(Join(ps, sep), sep) == ps
    decreases |ps|
  {
    if |ps| > 1 {
      var s := Join(ps, sep);
      var rest := Join(ps[1..], sep);
      var n := |ps[0]|;
      assert s == ps[0] + [sep] + rest;
      assert s[..n] == ps[0];
      IndexOfIs(s, sep, n);
      assert s[n + 1..] == rest;
      PiecesOfJoin(ps[1..], sep);
      assert Pieces(s, sep) == [ps[0]] + ps[1..];
      assert ps == [ps[0]] + ps[1..];
    }
  }

  /** A position holding `c` with no earlier `c` is the one `indexOf` finds. */
  lemma IndexOfIs(s: string, c: char, i: int)
    requires 0 <= i < |s| && s[i] == c && c !in s[..i]
    ensures IndexOf(s, c) == i
  {
  }

  lemma {:induction false} JoinOfPieces(s: string, sep: char)
    ensures Join(Pieces(s, sep), sep) == s
    decreases |s|
  {
    var i := IndexOf(s, sep);
    if i >= 0 {
      var head, after := s[..i], s[i + 1..];
      var tail := Pieces(after, sep);
      JoinOfPieces(after, sep);
      JoinCons(head, tail, sep);
      assert s == head + [sep] + after;
    }
  }

  lemma JoinCons(p: string, ps: seq<string>, sep: char)
    requires |ps| >= 1
    ensures Join([p] + ps, sep) == p + [sep] + Join(ps, sep)
  {
    assert ([p] + ps)[1..] == ps;
  }

  lemma JoinContainsSep(ps: seq<string>, sep: char)
    requires |ps| >= 2
    ensures sep in Join(ps, sep)
  {
    assert Join(ps, sep)[|ps[0]|] == sep;
  }

  // ---------------------------------------------------------------------
  // String.equalsIgnoreCase, with the ASCII case mapping

  function ToUpper(c: char): char { if 'a' <= c <= 'z' then (c as int - 32) as char else c }
  function ToLower(c: char): char { if 'A' <= c <= 'Z' then (c as int + 32) as char else c }

  /** The per-character test `String.regionMatches(true, ...)` applies. */
  predicate CharEqualsIgnoreCase(a: char, b: char) {
    a == b || ToUpper(a) == ToUpper(b) || ToLower(ToUpper(a)) == ToLower(ToUpper(b))
  }

  predicate EqualsIgnoreCase(a: string, b: string) {
    |a| == |b| && forall k :: 0 <= k < |a| ==> CharEqualsIgnoreCase(a[k], b[k])
  }

  function LowerCase(s: string): (r: string)
    ensures |r| == |s| && forall k :: 0 <= k < |s| ==> r[k] == ToLower(s[k])
  {
    if |s| == 0 then "" else [ToLower(s[0])] + LowerCase(s[1..])
  }

  lemma CharEqualsIgnoreCaseIsLowerEquality(x: char, y: char)
    ensures CharEqualsIgnoreCase(x, y) <==> ToLower(x) == ToLower(y)
  {
  }

  /** Ignoring case is equality after lower-casing, so it is an equivalence. */
  lemma EqualsIgnoreCaseIsLowerCaseEquality(a: string, b: string)
    ensures EqualsIgnoreCase(a, b) <==> LowerCase(a) == LowerCase(b)
  {
    if |a| == |b| {
      forall k | 0 <= k < |a|
        ensures CharEqualsIgnoreCase(a[k], b[k]) <==> LowerCase(a)[k] == LowerCase(b)[k]
      {
        CharEqualsIgnoreCaseIsLowerEquality(a[k], b[k]);
      }
      if LowerCase(a) != LowerCase(b) {
        var k :| 0 <= k < |a| && LowerCase(a)[k] != LowerCase(b)[k];
        assert !CharEqualsIgnoreCase(a[k], b[k]);
      }
    }
  }

  // ---------------------------------------------------------------------
  // String.replace(CharSequence, CharSequence)

  /** Every non-overlapping occurrence of `pat`, scanned left to right, is
      replaced by `rep`; an empty `pat` matches before every character and
      at the end. */
  function Replace(s: string, pat: string, rep: string): string
    decreases |s|, |pat| == 0
  {
    if |pat| == 0 then (if |s| == 0 then rep else rep + [s[0]] + Replace(s[1..], pat, rep))
    else if |s| < |pat| then s
    else if s[..|pat|] == pat then rep + Replace(s[|pat|..], pat, rep)
    else [s[0]] + Replace(s[1..], pat, rep)
  }

  ghost predicate OccursAt(s: string, pat: string, i: int) {
    0 <= i && i + |pat| <= |s| && s[i..i + |pat|] == pat
  }

  lemma {:induction false} ReplaceSkipsPrefix(s: string, n: nat, pat: string, rep: string)
    requires |pat| > 0 && n <= |s|
    requires forall i :: 0 <= i < n ==> !OccursAt(s, pat, i)
    ensures Replace(s, pat, rep) == s[..n] + Replace(s[n..], pat, rep)
    decreases n
  {
    if n > 0 {
      assert !OccursAt(s, pat, 0);
      if |s| < |pat| {
        assert Replace(s[n..], pat, rep) == s[n..];
        assert s == s[..n] + s[n..];
      } else {
        assert s[..|pat|] != pat;
        var t := s[1..];
        forall i | 0 <= i < n - 1 ensures !OccursAt(t, pat, i) {
          assert !OccursAt(s, pat, i + 1);
          if i + |pat| <= |t| {
            assert t[i..i + |pat|] == s[i + 1..i + 1 + |pat|];
          }
        }
        ReplaceSkipsPrefix(t, n - 1, pat, rep);
        assert t[n - 1..] == s[n..];
        assert [s[0]] + t[..n - 1] == s[..n];
      }
    }
  }

  /** A string in which `pat` occurs exactly once (at |a|) is rewritten around
      that single occurrence. */
  lemma ReplaceSingle(a: string, b: string, pat: string, rep: string)
    requires |pat| > 0
    requires forall i :: 0 <= i < |a| ==> !OccursAt(a + pat + b, pat, i)
    requires forall i :: 0 <= i < |b| ==> !OccursAt(b, pat, i)
    ensures Replace(a + pat + b, pat, rep) == a + rep + b
  {
    var s := a + pat + b;
    ReplaceSkipsPrefix(s, |a|, pat, rep);
    assert s[..|a|] == a;
    var t := s[|a|..];
    assert t == pat + b;
    assert t[..|pat|] == pat;
    assert t[|pat|..] == b;
    ReplaceSkipsPrefix(b, |b|, pat, rep);
    assert b[..|b|] == b && b[|b|..] == [];
  }
}
