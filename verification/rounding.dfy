/** `Utils.roundTwoPlaces`: `new BigDecimal(value).setScale(2,
    RoundingMode.HALF_UP).toPlainString()`. The conversion from a double is
    exact, so the input is modelled as the decimal it produces: an unscaled
    integer and a non-negative scale, denoting unscaled / 10^scale. */
module Rounding {
  import opened Results
  import opened Digits

  datatype Decimal = Decimal(unscaled: int, scale: nat)

  /** The number a decimal denotes. */
  function Real(d: Decimal): real {
    d.unscaled as real / Pow10(d.scale) as real
  }

  function Abs(n: int): nat { if n < 0 then -n else n }

  /** The reference definition of HALF_UP: to the nearest integer, ties away
      from zero. */
  function HalfUp(x: real): int {
    if x >= 0.0 then (x + 0.5).Floor else -((-x + 0.5).Floor)
  }

  /** `setScale(2, HALF_UP)`: a scale of at most two is widened exactly;
      a larger one divides the magnitude by 10^(scale - 2), rounds the
      quotient up when the remainder is at least half the divisor, and puts
      the sign back. */
  function SetScale2(d: Decimal): (r: Decimal)
    ensures r.scale == 2
    ensures d.scale <= 2 ==> Real(r) == Real(d)
  {
    if d.scale <= 2 then
      WidenExact(d);
      Decimal(d.unscaled * Pow10(2 - d.scale), 2)
    else
      var divisor := Pow10(d.scale - 2);
      var q := Abs(d.unscaled) / divisor;
      var rem := Abs(d.unscaled) % divisor;
      var m := if 2 * rem >= divisor then q + 1 else q;
      Decimal(if d.unscaled < 0 then -m else m, 2)
  }

  lemma WidenExact(d: Decimal)
    requires d.scale <= 2
    ensures Real(Decimal(d.unscaled * Pow10(2 - d.scale), 2)) == Real(d)
  {
    assert Pow10(1) == 10 && Pow10(2) == 100;
  }

  // ---------------------------------------------------------------------
  // The plain string at scale 2

  /** The digits of a magnitude at scale 2, padded to at least three so that
      there is always a digit before the point. */
  function Padded(m: nat): (ds: string)
    ensures |ds| >= 3 && AllDigits(ds)
  {
    var ds := NatToDigits(m);
    if |ds| == 1 then "00" + ds else if |ds| == 2 then "0" + ds else ds
  }

  /** `toPlainString()` of an unscaled value at scale 2: a minus sign for a
      negative value, the integer digits, the point and exactly two
      fraction digits; never an exponent. */
  function PlainString(u: int): (s: string)
    ensures |s| >= 4 && s[|s| - 3] == '.'
    ensures IsDigit(s[|s| - 2]) && IsDigit(s[|s| - 1])
    ensures (s[0] == '-') <==> u < 0
    ensures forall k :: (if u < 0 then 1 else 0) <= k < |s| - 3 ==> IsDigit(s[k])
  {
    var ds := Padded(Abs(u));
    var body := ds[..|ds| - 2] + "." + ds[|ds| - 2..];
    assert body[0] == ds[0];
    if u < 0 then "-" + body else body
  }

  /** `roundTwoPlaces`. */
  function RoundTwoPlaces(d: Decimal): (s: string)
    ensures ParsePlain(s) == Some(SetScale2(d).unscaled)
  {
    ParsePlainOfPlainString(SetScale2(d).unscaled);
    PlainString(SetScale2(d).unscaled)
  }

  /** Reads a plain string with two fraction digits back into its unscaled
      value: the inverse `PlainString` is checked against. */
  function ParsePlain(s: string): Option<int> {
    var negative := |s| > 0 && s[0] == '-';
    var body := if negative then s[1..] else s;
    if |body| < 4 || body[|body| - 3] != '.' then None
    else
      var digits := body[..|body| - 3] + body[|body| - 2..];
      if !AllDigits(digits) then None
      else
        var m: int := Value(digits);
        Some(if negative then -m else m)
  }

  // ---------------------------------------------------------------------
  // Rounding against the reference

  lemma FloorIs(x: real, n: int)
    requires n as real <= x < n as real + 1.0
    ensures x.Floor == n
  {
  }

  /** Half-up rounding of a non-negative quotient, done on integers. */
  lemma DivHalfUp(a: nat, b: nat)
    requires b > 0
    ensures (a as real / b as real + 0.5).Floor == a / b + (if 2 * (a % b) >= b then 1 else 0)
  {
    var n := a / b + (if 2 * (a % b) >= b then 1 else 0);
    HalfUpBounds(a, b);
    CastBounds(a, b, n);
    RealBounds(a as real, b as real, n as real);
    FloorIs(a as real / b as real + 0.5, n);
  }

  /** The integer form of the half-up bounds: 2nb <= 2a + b < 2(n + 1)b. */
  lemma HalfUpBounds(a: nat, b: nat)
    requires b > 0
    ensures var n := a / b + (if 2 * (a % b) >= b then 1 else 0);
      2 * n * b <= 2 * a + b < 2 * (n + 1) * b
  {
    var q, r := a / b, a % b;
    var qb := q * b;
    assert a == qb + r;
    assert 2 * q * b == 2 * qb && 2 * (q + 1) * b == 2 * qb + 2 * b && 2 * (q + 2) * b == 2 * qb + 4 * b;
  }

  /** The same bounds carried over to the reals. */
  lemma CastBounds(a: int, b: int, n: int)
    requires 2 * n * b <= 2 * a + b < 2 * (n + 1) * b
    ensures 2.0 * n as real * b as real <= 2.0 * a as real + b as real < 2.0 * (n as real + 1.0) * b as real
  {
    var nb := n * b;
    assert 2 * n * b == 2 * nb && 2 * (n + 1) * b == 2 * nb + 2 * b;
    CastMul(n, b);
  }

  lemma CastMul(x: int, y: int)
    ensures (x * y) as real == x as real * y as real
  {
  }

  /** Dividing 2nb <= 2a + b < 2(n + 1)b by 2b. */
  lemma RealBounds(a: real, b: real, n: real)
    requires b > 0.0
    requires 2.0 * n * b <= 2.0 * a + b < 2.0 * (n + 1.0) * b
    ensures n <= a / b + 0.5 < n + 1.0
  {
    var c := 2.0 * b;
    var y := a / b + 0.5;
    assert y * c == 2.0 * a + b by { assert (a / b) * b == a; }
    assert n * c == 2.0 * n * b;
    assert (n + 1.0) * c == 2.0 * (n + 1.0) * b;
    ScaleBack(y, n, c);
    ScaleBack(n + 1.0, y, c);
  }

  /** x <= y follows from x * b <= y * b for positive b (strictly likewise). */
  lemma ScaleBack(y: real, x: real, b: real)
    requires b > 0.0
    ensures x * b <= y * b ==> x <= y
    ensures x * b < y * b ==> x < y
  {
    if y < x {
      assert (x - y) * b > 0.0;
    }
  }

  lemma ValueTimes100(d: Decimal)
    requires d.scale > 2
    ensures Real(d) * 100.0 == d.unscaled as real / Pow10(d.scale - 2) as real
  {
    var p := Pow10(d.scale - 2) as real;
    assert Pow10(d.scale) == 100 * Pow10(d.scale - 2);
    assert Pow10(d.scale) as real == 100.0 * p;
    assert Real(d) * (100.0 * p) == d.unscaled as real;
  }

  /** `setScale(2, HALF_UP)` rounds the value times 100 half up. */
  lemma SetScale2IsHalfUp(d: Decimal)
    ensures SetScale2(d).unscaled == HalfUp(Real(d) * 100.0)
  {
    var x := Real(d) * 100.0;
    if d.scale <= 2 {
      assert Pow10(1) == 10 && Pow10(2) == 100;
      var n := SetScale2(d).unscaled;
      assert x == n as real;
      if n >= 0 {
        FloorIs(x + 0.5, n);
      } else {
        FloorIs(-x + 0.5, -n);
      }
    } else {
      var divisor := Pow10(d.scale - 2);
      ValueTimes100(d);
      DivHalfUp(Abs(d.unscaled), divisor);
      if d.unscaled < 0 {
        assert -x == Abs(d.unscaled) as real / divisor as real;
      }
    }
  }

  lemma HalfUpError(x: real)
    ensures -0.5 <= HalfUp(x) as real - x <= 0.5
  {
  }

  lemma {:induction false} HalfUpMonotone(x: real, y: real)
    requires x <= y
    ensures HalfUp(x) <= HalfUp(y)
  {
    if x < 0.0 && y >= 0.0 {
      assert HalfUp(x) <= 0 <= HalfUp(y);
    }
  }

  lemma HalfUpZero(x: real)
    ensures HalfUp(x) == 0 <==> -0.5 < x < 0.5
  {
  }

  /** The rounded value is within half a hundredth of the input. */
  lemma RoundingError(d: Decimal)
    ensures -0.005 <= Real(SetScale2(d)) - Real(d) <= 0.005
  {
    SetScale2IsHalfUp(d);
    HalfUpError(Real(d) * 100.0);
    assert Pow10(2) == 100 by { assert Pow10(1) == 10; }
  }

  /** Rounding never reverses the order of two inputs. */
  lemma RoundingMonotone(a: Decimal, b: Decimal)
    requires Real(a) <= Real(b)
    ensures Real(SetScale2(a)) <= Real(SetScale2(b))
  {
    SetScale2IsHalfUp(a);
    SetScale2IsHalfUp(b);
    HalfUpMonotone(Real(a) * 100.0, Real(b) * 100.0);
    assert Pow10(2) == 100 by { assert Pow10(1) == 10; }
  }

  /** A value with at most two decimal places is left as it is, and
      rounding a rounded value changes nothing. */
  lemma RoundingIdempotent(d: Decimal)
    ensures d.scale <= 2 ==> Real(SetScale2(d)) == Real(d)
    ensures SetScale2(SetScale2(d)) == SetScale2(d)
  {
  }

  // ---------------------------------------------------------------------
  // The string against its parser

  lemma {:induction false} ValueZeroPrefix(ds: string)
    requires AllDigits(ds)
    ensures AllDigits("0" + ds) && Value("0" + ds) == Value(ds)
    decreases |ds|
  {
    var z := "0" + ds;
    if |ds| > 0 {
      assert z[..|z| - 1] == "0" + ds[..|ds| - 1];
      ValueZeroPrefix(ds[..|ds| - 1]);
    } else {
      assert z[..0] == "";
    }
  }

  lemma PaddedValue(m: nat)
    ensures Value(Padded(m)) == m
    ensures |Padded(m)| > 3 ==> Padded(m)[0] != '0'
  {
    var ds := NatToDigits(m);
    if |ds| == 1 {
      ValueZeroPrefix(ds);
      ValueZeroPrefix("0" + ds);
      assert "00" + ds == "0" + ("0" + ds);
    } else if |ds| == 2 {
      ValueZeroPrefix(ds);
    }
  }

  lemma ParsePlainOfPlainString(u: int)
    ensures ParsePlain(PlainString(u)) == Some(u)
  {
    var ds := Padded(Abs(u));
    var body := ds[..|ds| - 2] + "." + ds[|ds| - 2..];
    var s := PlainString(u);
    assert (if u < 0 then s[1..] else s) == body;
    assert body[..|body| - 3] == ds[..|ds| - 2];
    assert body[|body| - 2..] == ds[|ds| - 2..];
    assert ds[..|ds| - 2] + ds[|ds| - 2..] == ds;
    PaddedValue(Abs(u));
  }

  /** Different rounded values print differently. */
  lemma PlainStringInjective(u: int, v: int)
    requires PlainString(u) == PlainString(v)
    ensures u == v
  {
    ParsePlainOfPlainString(u);
    ParsePlainOfPlainString(v);
  }

  /** "0.00", with no minus sign, is printed exactly for the values that
      round to zero: those strictly between -0.005 and 0.005. */
  lemma RoundsToZero(d: Decimal)
    ensures RoundTwoPlaces(d) == "0.00" <==> -0.005 < Real(d) < 0.005
  {
    SetScale2IsHalfUp(d);
    HalfUpZero(Real(d) * 100.0);
    assert NatToDigits(0) == "0";
    assert PlainString(0) == "0.00";
    if RoundTwoPlaces(d) == "0.00" {
      PlainStringInjective(SetScale2(d).unscaled, 0);
    }
  }

  /** Ties round away from zero: 0.125 prints "0.13" and -0.125 "-0.13". */
  lemma TiesAwayFromZero()
    ensures RoundTwoPlaces(Decimal(125, 3)) == "0.13"
    ensures RoundTwoPlaces(Decimal(-125, 3)) == "-0.13"
  {
    assert Pow10(1) == 10;
    assert SetScale2(Decimal(125, 3)).unscaled == 13;
    assert SetScale2(Decimal(-125, 3)).unscaled == -13;
    assert NatToDigits(13) == "13";
    assert PlainString(13) == "0.13";
    assert PlainString(-13) == "-0.13";
  }
}
