/** `URLEncoder.encode(s, "utf-8")`: the application/x-www-form-urlencoded
    encoding of section 17.13.4.1 of HTML 4.01, as the JDK implements it.
    Letters, digits and `.`, `-`, `*`, `_` stand for themselves, a space
    becomes `+`, and every other character becomes `%XX` for each byte of its
    UTF-8 encoding, with upper-case hexadecimal digits. The decoder below is
    the inverse the encoding is checked against. */
module FormUrlEncoding {
  import opened Results

  type Byte = b: int | 0 <= b < 256

  /** The characters the encoder leaves as they are. */
  predicate Unreserved(c: char) {
    ('a' <= c <= 'z') || ('A' <= c <= 'Z') || ('0' <= c <= '9') ||
    c == '.' || c == '-' || c == '*' || c == '_'
  }

  predicate IsHexDigit(c: char) { ('0' <= c <= '9') || ('A' <= c <= 'F') }

  /** A character that may appear in the encoder's output. */
  predicate UrlSafe(c: char) { Unreserved(c) || c == '+' || c == '%' }

  function HexDigit(d: nat): (c: char)
    requires d < 16
    ensures IsHexDigit(c)
  {
    if d < 10 then ('0' as int + d) as char else ('A' as int + d - 10) as char
  }

  function HexValue(c: char): (d: nat)
    requires IsHexDigit(c)
    ensures d < 16 && HexDigit(d) == c
  {
    if c <= '9' then c as int - '0' as int else c as int - 'A' as int + 10
  }

  /** The UTF-8 encoding of one Unicode scalar value. */
  function Utf8(c: char): (bs: seq<Byte>)
    ensures 1 <= |bs| <= 4
  {
    var n := c as int;
    if n < 0x80 then [n]
    else if n < 0x800 then [0xC0 + n / 64, 0x80 + n % 64]
    else if n < 0x1_0000 then [0xE0 + n / 4096, 0x80 + (n / 64) % 64, 0x80 + n % 64]
    else [0xF0 + n / 262144, 0x80 + (n / 4096) % 64, 0x80 + (n / 64) % 64, 0x80 + n % 64]
  }

  function PercentBytes(bs: seq<Byte>): (r: string)
    ensures |r| == 3 * |bs|
    ensures forall k :: 0 <= k < |r| ==> (r[k] == '%' || IsHexDigit(r[k]))
  {
    if |bs| == 0 then "" else ['%', HexDigit(bs[0] / 16), HexDigit(bs[0] % 16)] + PercentBytes(bs[1..])
  }

  function EncodeChar(c: char): (r: string)
    ensures |r| >= 1 && forall k :: 0 <= k < |r| ==> UrlSafe(r[k])
  {
    if Unreserved(c) then [c] else if c == ' ' then "+" else PercentBytes(Utf8(c))
  }

  /** The encoding of a whole string: its characters encoded one by one. */
  function Encode(s: string): (r: string)
    ensures forall k :: 0 <= k < |r| ==> UrlSafe(r[k])
    ensures |r| >= |s|
  {
    if |s| == 0 then "" else EncodeChar(s[0]) + Encode(s[1..])
  }

  // ---------------------------------------------------------------------
  // Decoding

  /** One `%XX` group at the front of `t`. */
  function DecodeByte(t: string): (r: Option<(Byte, string)>)
    ensures r.Some? ==> |r.value.1| < |t|
  {
    if |t| >= 3 && t[0] == '%' && IsHexDigit(t[1]) && IsHexDigit(t[2]) then
      Some((HexValue(t[1]) * 16 + HexValue(t[2]), t[3..]))
    else None
  }

  /** `n` consecutive `%XX` groups. */
  function DecodeBytes(t: string, n: nat): (r: Option<(seq<Byte>, string)>)
    ensures r.Some? ==> |r.value.0| == n && |r.value.1| <= |t|
  {
    if n == 0 then Some(([], t))
    else
      var (b, rest) :- DecodeByte(t);
      var (bs, rest') :- DecodeBytes(rest, n - 1);
      Some(([b] + bs, rest'))
  }

  /** How many bytes the UTF-8 sequence starting with `b` has (0: invalid). */
  function Utf8Length(b: Byte): nat {
    if b < 0x80 then 1
    else if 0xC0 <= b < 0xE0 then 2
    else if 0xE0 <= b < 0xF0 then 3
    else if 0xF0 <= b < 0xF8 then 4
    else 0
  }

  predicate IsScalar(v: int) { (0 <= v < 0xD800) || (0xE000 <= v < 0x11_0000) }

  predicate Continuation(b: Byte) { 0x80 <= b < 0xC0 }

  /** The scalar value a UTF-8 byte sequence denotes, if any. */
  function Utf8Decode(bs: seq<Byte>): (r: Option<char>)
  {
    if |bs| == 0 || Utf8Length(bs[0]) != |bs| then None
    else if (exists k :: 1 <= k < |bs| && !Continuation(bs[k])) then None
    else
      var b: seq<int> := bs;
      var v :=
        if |b| == 1 then b[0]
        else if |b| == 2 then (b[0] - 0xC0) * 64 + (b[1] - 0x80)
        else if |b| == 3 then (b[0] - 0xE0) * 4096 + (b[1] - 0x80) * 64 + (b[2] - 0x80)
        else (b[0] - 0xF0) * 262144 + (b[1] - 0x80) * 4096 + (b[2] - 0x80) * 64 + (b[3] - 0x80);
      if IsScalar(v) then Some(v as char) else None
  }

  /** The first encoded character of `t` and what follows it. */
  function DecodeChar(t: string): (r: Option<(char, string)>)
    ensures r.Some? ==> |r.value.1| < |t|
  {
    if |t| == 0 then None
    else if t[0] == '+' then Some((' ', t[1..]))
    else if t[0] == '%' then
      var (b, _) :- DecodeByte(t);
      var n := Utf8Length(b);
      if n == 0 then None
      else
        var (bs, rest) :- DecodeBytes(t, n);
        var c :- Utf8Decode(bs);
        Some((c, rest))
    else Some((t[0], t[1..]))
  }

  function Decode(t: string): (r: Option<string>)
    decreases |t|
  {
    if |t| == 0 then Some("")
    else
      var (c, rest) :- DecodeChar(t);
      var s :- Decode(rest);
      Some([c] + s)
  }

  // ---------------------------------------------------------------------
  // The round trip

  lemma HexDigitsOfByte(b: Byte)
    ensures HexValue(HexDigit(b / 16)) * 16 + HexValue(HexDigit(b % 16)) == b
  {
  }

  lemma {:induction false} DecodeBytesOfPercent(bs: seq<Byte>, rest: string)
    ensures DecodeBytes(PercentBytes(bs) + rest, |bs|) == Some((bs, rest))
  {
    if |bs| > 0 {
      var t := PercentBytes(bs) + rest;
      HexDigitsOfByte(bs[0]);
      assert t[0] == '%' && t[1] == HexDigit(bs[0] / 16) && t[2] == HexDigit(bs[0] % 16);
      assert t[3..] == PercentBytes(bs[1..]) + rest;
      assert DecodeByte(t) == Some((bs[0], PercentBytes(bs[1..]) + rest));
      DecodeBytesOfPercent(bs[1..], rest);
      assert DecodeBytes(PercentBytes(bs[1..]) + rest, |bs| - 1) == Some((bs[1..], rest));
      assert DecodeBytes(t, |bs|) == Some(([bs[0]] + bs[1..], rest));
      assert [bs[0]] + bs[1..] == bs;
    } else {
      assert PercentBytes(bs) + rest == rest;
    }
  }

  /** UTF-8 decoding inverts UTF-8 encoding. */
  lemma Utf8RoundTrip(c: char)
    ensures Utf8Length(Utf8(c)[0]) == |Utf8(c)|
    ensures Utf8Decode(Utf8(c)) == Some(c)
  {
    var n := c as int;
    if n < 0x80 {
    } else if n < 0x800 {
      Utf8TwoBytes(c);
    } else if n < 0x1_0000 {
      Utf8ThreeBytes(c);
    } else {
      Utf8FourBytes(c);
    }
  }

  /** `n` written in base 64 from the low digit: the quotient and the digit. */
  lemma Base64Digit(n: nat)
    ensures n == (n / 64) * 64 + n % 64 && n % 64 < 64
  {
  }

  lemma Utf8TwoBytes(c: char)
    requires 0x80 <= c as int < 0x800
    ensures Utf8Length(Utf8(c)[0]) == |Utf8(c)|
    ensures Utf8Decode(Utf8(c)) == Some(c)
  {
    var n := c as int;
    Base64Digit(n);
    var bs := Utf8(c);
    assert |bs| == 2 && bs[0] == 0xC0 + n / 64 && bs[1] == 0x80 + n % 64;
    assert Utf8Length(bs[0]) == 2;
    assert Continuation(bs[1]);
    assert (bs[0] as int - 0xC0) * 64 + (bs[1] as int - 0x80) == n;
  }

  lemma Utf8ThreeBytes(c: char)
    requires 0x800 <= c as int < 0x1_0000
    ensures Utf8Length(Utf8(c)[0]) == |Utf8(c)|
    ensures Utf8Decode(Utf8(c)) == Some(c)
  {
    var n := c as int;
    var m := n / 64;
    Base64Digit(n);
    Base64Digit(m);
    assert m / 64 == n / 4096;
    var bs := Utf8(c);
    assert |bs| == 3 && bs[0] == 0xE0 + m / 64 && bs[1] == 0x80 + m % 64 && bs[2] == 0x80 + n % 64;
    assert Utf8Length(bs[0]) == 3;
    assert Continuation(bs[1]) && Continuation(bs[2]);
    assert (bs[0] as int - 0xE0) * 4096 + (bs[1] as int - 0x80) * 64 + (bs[2] as int - 0x80) == n;
  }

  lemma Utf8FourBytes(c: char)
    requires 0x1_0000 <= c as int
    ensures Utf8Length(Utf8(c)[0]) == |Utf8(c)|
    ensures Utf8Decode(Utf8(c)) == Some(c)
  {
    var n := c as int;
    var m := n / 64;
    var l := m / 64;
    Base64Digit(n);
    Base64Digit(m);
    Base64Digit(l);
    assert m / 64 == n / 4096 && l / 64 == n / 262144;
    var bs := Utf8(c);
    assert |bs| == 4 && bs[0] == 0xF0 + l / 64 && bs[1] == 0x80 + l % 64 && bs[2] == 0x80 + m % 64 && bs[3] == 0x80 + n % 64;
    assert Utf8Length(bs[0]) == 4;
    assert Continuation(bs[1]) && Continuation(bs[2]) && Continuation(bs[3]);
    assert (bs[0] as int - 0xF0) * 262144 + (bs[1] as int - 0x80) * 4096 + (bs[2] as int - 0x80) * 64 + (bs[3] as int - 0x80) == n;
  }

  lemma DecodeCharOfEncodeChar(c: char, rest: string)
    ensures DecodeChar(EncodeChar(c) + rest) == Some((c, rest))
  {
    var t := EncodeChar(c) + rest;
    if !Unreserved(c) && c != ' ' {
      var bs := Utf8(c);
      Utf8RoundTrip(c);
      DecodeBytesOfPercent(bs, rest);
      HexDigitsOfByte(bs[0]);
      assert DecodeByte(t).Some? && DecodeByte(t).value.0 == bs[0];
    }
  }

  /** Decoding inverts encoding for every string. */
  lemma {:induction false} DecodeOfEncode(s: string)
    ensures Decode(Encode(s)) == Some(s)
  {
    if |s| > 0 {
      var t := Encode(s[1..]);
      assert Encode(s) == EncodeChar(s[0]) + t;
      DecodeCharOfEncodeChar(s[0], t);
      DecodeOfEncode(s[1..]);
      DecodeCons(Encode(s), s[0], t);
      assert [s[0]] + s[1..] == s;
    }
  }

  /** Decoding past a decoded first character. */
  lemma DecodeCons(t: string, c: char, rest: string)
    requires DecodeChar(t) == Some((c, rest))
    ensures Decode(t) == if Decode(rest).Some? then Some([c] + Decode(rest).value) else None
  {
  }

  /** Encoding is injective: different tickers give different URLs. */
  lemma EncodeInjective(s: string, s': string)
    requires Encode(s) == Encode(s')
    ensures s == s'
  {
    DecodeOfEncode(s);
    DecodeOfEncode(s');
  }

  /** The one default ticker with a reserved character. */
  lemma EncodeCaretTicker()
    ensures Encode("^FTSE") == "%5EFTSE"
  {
    assert Utf8('^') == [0x5E];
    assert EncodeChar('^') == "%5E";
    assert Encode("FTSE") == "FTSE";
  }
}
