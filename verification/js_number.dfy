/**
 * JavaScript numbers as far as the vitals screen uses them: `parseFloat`,
 * the `Number(...)` coercion that `/` applies to a string, truthiness,
 * division and multiplication, and `toFixed(2)`.
 *
 * Finite numbers are exact reals: binary floating-point rounding is not
 * modelled, and neither is the sign of zero.
 */
module JsNumber {
  import opened JsText

  datatype Number = Finite(x: real) | NaN | Infinity(negative: bool)

  /** A number is truthy unless it is zero or NaN. */
  predicate Truthy(n: Number)
    ensures Truthy(n) <==> n != Finite(0.0) && n != NaN
  {
    match n
    case Finite(x) => x != 0.0
    case NaN => false
    case Infinity(_) => true
  }

  /** `a / b` under IEEE 754 without rounding. */
  function Div(a: Number, b: Number): (r: Number)
    ensures a.NaN? || b.NaN? ==> r.NaN?
    ensures a.Finite? && b.Finite? && b.x != 0.0 ==> r == Finite(a.x / b.x)
    ensures a.Finite? && b.Finite? && b.x == 0.0 ==> !r.Finite?
  {
    match (a, b)
    case (NaN, _) => NaN
    case (_, NaN) => NaN
    case (Infinity(_), Infinity(_)) => NaN
    case (Infinity(na), Finite(y)) => Infinity(na != (y < 0.0))
    case (Finite(_), Infinity(_)) => Finite(0.0)
    case (Finite(x), Finite(y)) =>
      if y != 0.0 then Finite(x / y)
      else if x == 0.0 then NaN
      else Infinity(x < 0.0)
  }

  /** `a * b` under IEEE 754 without rounding. */
  function Mul(a: Number, b: Number): (r: Number)
    ensures a.NaN? || b.NaN? ==> r.NaN?
    ensures a.Finite? && b.Finite? ==> r.Finite? && r.x == a.x * b.x
  {
    match (a, b)
    case (NaN, _) => NaN
    case (_, NaN) => NaN
    case (Infinity(na), Infinity(nb)) => Infinity(na != nb)
    case (Infinity(na), Finite(y)) => if y == 0.0 then NaN else Infinity(na != (y < 0.0))
    case (Finite(x), Infinity(nb)) => if x == 0.0 then NaN else Infinity(nb != (x < 0.0))
    case (Finite(x), Finite(y)) => Finite(x * y)
  }

  function Pow10(k: nat): (p: nat)
    ensures p >= 1
  {
    if k == 0 then 1 else 10 * Pow10(k - 1)
  }

  /** The number of decimal digits `s` starts with. */
  function DigitRun(s: string): (n: nat)
    ensures n <= |s| && AllDigits(s[..n])
    ensures n == |s| || !IsDigit(s[n])
  {
    if s != [] && IsDigit(s[0]) then
      var n := 1 + DigitRun(s[1..]);
      assert s[..n] == [s[0]] + s[1..][..n - 1];
      n
    else 0
  }

  lemma {:induction false} DigitRunOf(d: string, rest: string)
    requires AllDigits(d)
    requires rest == [] || !IsDigit(rest[0])
    ensures DigitRun(d + rest) == |d|
  {
    if d != [] {
      assert (d + rest)[1..] == d[1..] + rest;
      DigitRunOf(d[1..], rest);
    } else {
      assert d + rest == rest;
    }
  }

  /** Whether `u` starts with the word `Infinity`. */
  predicate StartsWithInfinity(u: string) {
    |u| >= 8 && u[0] == 'I' && u[..8] == "Infinity"
  }

  function Negate(n: Number): (r: Number) {
    match n
    case Finite(x) => Finite(-x)
    case NaN => NaN
    case Infinity(negative) => Infinity(!negative)
  }

  /** The value of the digits after a decimal point. */
  function FractionValue(f: string): (v: real)
    requires AllDigits(f)
  {
    DigitsValue(f) as real / Pow10(|f|) as real
  }

  /**
   * The longest prefix of `t` that is a decimal literal of `parseFloat`
   * (an optional sign, then `Infinity` or digits with an optional fraction):
   * its value and its length, or (NaN, 0) when there is none.
   */
  function DecimalPrefix(t: string): (res: (Number, nat))
    ensures res.1 <= |t|
    ensures res.0.NaN? <==> res.1 == 0
  {
    var off := if t != [] && (t[0] == '+' || t[0] == '-') then 1 else 0;
    var res := UnsignedPrefix(t[off..]);
    if res.1 == 0 then (NaN, 0)
    else if off == 1 && t[0] == '-' then (Negate(res.0), off + res.1)
    else (res.0, off + res.1)
  }

  /** DecimalPrefix after the sign. */
  function UnsignedPrefix(u: string): (res: (Number, nat))
    ensures res.1 <= |u|
    ensures res.0.NaN? <==> res.1 == 0
  {
    if StartsWithInfinity(u) then (Infinity(false), 8)
    else
      var ip := DigitRun(u);
      if ip < |u| && u[ip] == '.' then
        var after := u[ip + 1..];
        var fp := DigitRun(after);
        if ip == 0 && fp == 0 then (NaN, 0)
        else (Finite(DigitsValue(u[..ip]) as real + FractionValue(after[..fp])), ip + 1 + fp)
      else if ip == 0 then (NaN, 0)
      else (Finite(DigitsValue(u[..ip]) as real), ip)
  }

  /** `parseFloat(s)`: skip leading white space, read the longest decimal
      prefix, ignore whatever follows. Blank text is NaN; text whose first
      non-blank character is a digit is a finite, non-negative number. */
  function ParseFloat(s: string): (r: Number)
    ensures TrimStart(s) == [] ==> r == NaN
    ensures var u := TrimStart(s); u != [] && IsDigit(u[0]) ==> r.Finite? && r.x >= 0.0
  {
    var u := TrimStart(s);
    LeadingDigitFinite(u);
    DecimalPrefix(u).0
  }

  /** `Number(s)`, the coercion `/` applies to a string operand: blank text
      is 0; otherwise the result is NaN exactly when the trimmed text is not
      a decimal literal in full. */
  function ToNumber(s: string): (r: Number)
    ensures Trim(s) == [] ==> r == Finite(0.0)
    ensures Trim(s) != [] ==> (r.NaN? <==> DecimalPrefix(Trim(s)).1 != |Trim(s)|)
  {
    var t := Trim(s);
    if t == [] then Finite(0.0)
    else
      var res := DecimalPrefix(t);
      if res.1 == |t| then res.0 else NaN
  }

  /** Text whose trimmed form begins "0x", "0b" or "0o" (either case), the
      prefixes of the hexadecimal, binary and octal literals `Number` reads
      and `parseFloat` stops at. */
  predicate RadixText(s: string)
  {
    var t := Trim(s);
    |t| >= 2 && t[0] == '0' && t[1] in "xXbBoO"
  }

  /** Whenever `Number` reads non-blank text as a number, `parseFloat` reads
      the same number from it. Radix literals are set aside: `Number("0x1F")`
      is 31 where `parseFloat` reads 0. */
  lemma {:induction false} NumberAgreesWithParseFloat(s: string)
    requires Trim(s) != [] && !RadixText(s) && !ToNumber(s).NaN?
    ensures ParseFloat(s) == ToNumber(s)
  {
    NumberIsParsed(s);
  }

  lemma {:induction false} LeadingDigitFinite(u: string)
    ensures u != [] && IsDigit(u[0]) ==> DecimalPrefix(u).0.Finite? && DecimalPrefix(u).0.x >= 0.0
  {
    if u != [] && IsDigit(u[0]) {
      assert u[0..] == u;
      assert !StartsWithInfinity(u);
      var ip := DigitRun(u);
      assert ip >= 1;
      if ip < |u| && u[ip] == '.' {
        var f := u[ip + 1..][..DigitRun(u[ip + 1..])];
        assert FractionValue(f) >= 0.0;
      }
    }
  }

  /** A literal read in full by `Number` is what `parseFloat` reads from the
      same text: the white space after it stops `parseFloat` there. */
  lemma {:induction false} NumberIsParsed(s: string)
    ensures var t := Trim(s);
      t != [] && DecimalPrefix(t).1 == |t| ==> DecimalPrefix(TrimStart(s)).0 == DecimalPrefix(t).0
  {
    var u, t := TrimStart(s), Trim(s);
    if t != [] && DecimalPrefix(t).1 == |t| {
      assert t == TrimEnd(u);
      var ws := TrailingSpace(u);
      DecimalPrefixSpaced(t, ws);
    }
  }

  /** What `TrimEnd` cuts off: white space, if anything. */
  lemma {:induction false} TrailingSpace(u: string) returns (ws: string)
    ensures u == TrimEnd(u) + ws && (ws == [] || IsSpace(ws[0]))
  {
    var t := TrimEnd(u);
    ws := u[|t|..];
    assert u == t + ws;
  }

  lemma {:induction false} DecimalPrefixSpaced(t: string, ws: string)
    requires t != [] && DecimalPrefix(t).1 == |t|
    requires ws == [] || IsSpace(ws[0])
    ensures DecimalPrefix(t + ws) == DecimalPrefix(t)
  {
    if t[0] == '+' || t[0] == '-' {
      SignedSpaced(t, ws);
    } else {
      assert (t + ws)[0] == t[0];
      DecimalPrefixUnsigned(t);
      DecimalPrefixUnsigned(t + ws);
      UnsignedPrefixSpaced(t, ws);
    }
  }

  lemma {:induction false} SignedSpaced(t: string, ws: string)
    requires t != [] && (t[0] == '+' || t[0] == '-') && DecimalPrefix(t).1 == |t|
    requires ws == [] || IsSpace(ws[0])
    ensures DecimalPrefix(t + ws) == DecimalPrefix(t)
  {
    var v := t + ws;
    assert v[0] == t[0] && v[1..] == t[1..] + ws;
    DecimalPrefixSigned(t);
    DecimalPrefixSigned(v);
    UnsignedPrefixSpaced(t[1..], ws);
  }

  lemma {:induction false} DecimalPrefixSigned(t: string)
    requires t != [] && (t[0] == '+' || t[0] == '-')
    ensures var r := UnsignedPrefix(t[1..]);
      DecimalPrefix(t) ==
        if r.1 == 0 then (NaN, 0)
        else if t[0] == '-' then (Negate(r.0), 1 + r.1)
        else (r.0, 1 + r.1)
  {
  }

  lemma {:induction false} UnsignedPrefixSpaced(u: string, ws: string)
    requires u != [] && UnsignedPrefix(u).1 == |u|
    requires ws == [] || IsSpace(ws[0])
    ensures UnsignedPrefix(u + ws) == UnsignedPrefix(u)
  {
    assert ws == [] || (!IsDigit(ws[0]) && ws[0] != '.');
    if StartsWithInfinity(u) {
      assert StartsWithInfinity(u + ws) by {
        assert (u + ws)[..8] == u[..8];
      }
    } else if DigitRun(u) == |u| {
      assert AllDigits(u) && u + [] == u by {
        assert u[..|u|] == u;
      }
      UnsignedDigits(u, ws);
      UnsignedDigits(u, []);
    } else {
      var ip := DigitRun(u);
      var w, f := u[..ip], u[ip + 1..];
      assert u[ip] == '.' && (w != [] || f != []) && AllDigits(f) by {
        assert f[..DigitRun(f)] == f;
      }
      AroundPoint(u, ip, ws);
      FractionPrefix(w, f, ws);
      FractionPrefix(w, f, []);
    }
  }

  lemma {:induction false} AroundPoint(u: string, ip: nat, ws: string)
    requires ip < |u| && u[ip] == '.'
    ensures u == u[..ip] + (['.'] + (u[ip + 1..] + []))
    ensures u + ws == u[..ip] + (['.'] + (u[ip + 1..] + ws))
  {
  }

  /** Digits, a decimal point and more digits, then a character that cannot
      continue the number, are read up to that character. */
  lemma {:induction false} FractionPrefix(w: string, f: string, tail: string)
    requires AllDigits(w) && AllDigits(f) && (w != [] || f != [])
    requires tail == [] || !IsDigit(tail[0])
    ensures UnsignedPrefix(w + (['.'] + (f + tail)))
      == (Finite(DigitsValue(w) as real + FractionValue(f)), |w| + 1 + |f|)
  {
    var rest := ['.'] + (f + tail);
    var v := w + rest;
    DigitRunStops(w, rest);
    assert rest[1..] == f + tail;
    DigitRunOf(f, tail);
    assert (f + tail)[..|f|] == f;
    UnsignedFraction(v, |w|, |f|);
  }

  lemma {:induction false} DigitRunStops(d: string, rest: string)
    requires AllDigits(d) && rest != [] && !IsDigit(rest[0]) && rest[0] != 'I'
    ensures DigitRun(d + rest) == |d|
    ensures (d + rest)[..|d|] == d && (d + rest)[|d|] == rest[0]
    ensures (d + rest)[|d| + 1..] == rest[1..]
    ensures !StartsWithInfinity(d + rest)
  {
    DigitRunOf(d, rest);
    assert (d + rest)[0] == if d != [] then d[0] else rest[0];
  }

  /** UnsignedPrefix of a text whose digit run stops at a decimal point. */
  lemma {:induction false} UnsignedFraction(v: string, ip: nat, fp: nat)
    requires !StartsWithInfinity(v)
    requires DigitRun(v) == ip && ip < |v| && v[ip] == '.'
    requires DigitRun(v[ip + 1..]) == fp && (ip > 0 || fp > 0)
    ensures UnsignedPrefix(v) == (Finite(DigitsValue(v[..ip]) as real + FractionValue(v[ip + 1..][..fp])), ip + 1 + fp)
  {
  }

  /** `x.toFixed(2)`. */
  function ToFixed2(n: Number): (s: string)
    ensures s != []
  {
    match n
    case NaN => "NaN"
    case Infinity(negative) => if negative then "-Infinity" else "Infinity"
    case Finite(x) => if x < 0.0 then "-" + FixedPoint2(-x) else FixedPoint2(x)
  }

  /** Two-decimal text of a non-negative real, the nearest hundredth being
      taken and a tie going upwards. */
  function FixedPoint2(y: real): (s: string)
    requires y >= 0.0
  {
    var n := RoundHundredths(y);
    FixedText(n / 100, n / 10 % 10, n % 10)
  }

  /** The integer `n` for which `n / 100 - y` is nearest to zero, the larger
      one on a tie. */
  function RoundHundredths(y: real): (n: nat)
    requires y >= 0.0
    ensures n as real - 0.5 <= 100.0 * y < n as real + 0.5
  {
    (100.0 * y + 0.5).Floor
  }

  function FixedText(whole: nat, tenths: nat, hundredths: nat): (s: string)
    requires tenths < 10 && hundredths < 10
  {
    NatToString(whole) + "." + [DigitChar(tenths), DigitChar(hundredths)]
  }

  lemma {:induction false} DigitsValueTwo(c1: char, c2: char)
    requires IsDigit(c1) && IsDigit(c2)
    ensures AllDigits([c1, c2]) && DigitsValue([c1, c2]) == 10 * DigitValue(c1) + DigitValue(c2)
  {
    var s := [c1, c2];
    assert s[..1] == [c1] && [c1][..0] == [];
    assert DigitsValue([c1]) == DigitValue(c1);
  }

  lemma {:induction false} FixedTextUnsigned(whole: nat, tenths: nat, hundredths: nat)
    requires tenths < 10 && hundredths < 10
    ensures var u := FixedText(whole, tenths, hundredths);
      UnsignedPrefix(u) == (Finite(whole as real + (10 * tenths + hundredths) as real / 100.0), |u|)
  {
    var digits := NatToString(whole);
    var c1, c2 := DigitChar(tenths), DigitChar(hundredths);
    var u := FixedText(whole, tenths, hundredths);
    assert u == digits + (['.'] + [c1, c2]);
    assert u[0] == digits[0];
    DigitRunOf(digits, ['.'] + [c1, c2]);
    var ip := |digits|;
    assert u[..ip] == digits && u[ip] == '.';
    assert u[ip + 1..] == [c1, c2] + [];
    DigitRunOf([c1, c2], []);
    assert u[ip + 1..][..2] == [c1, c2];
    DigitsValueTwo(c1, c2);
    assert Pow10(2) == 100;
  }

  /** A two-decimal text, with or without a minus sign, is read back in full
      as the value it spells. */
  lemma {:induction false} FixedTextParses(whole: nat, tenths: nat, hundredths: nat, negative: bool)
    requires tenths < 10 && hundredths < 10
    ensures var t := (if negative then "-" else "") + FixedText(whole, tenths, hundredths);
      var mag := whole as real + (10 * tenths + hundredths) as real / 100.0;
      DecimalPrefix(t) == (Finite(if negative then -mag else mag), |t|)
  {
    var u := FixedText(whole, tenths, hundredths);
    var t := (if negative then "-" else "") + u;
    FixedTextUnsigned(whole, tenths, hundredths);
    if negative {
      assert t[0] == '-' && t[1..] == u;
    } else {
      assert t == u && u[0] == NatToString(whole)[0];
      DecimalPrefixUnsigned(t);
    }
  }

  /** `Number` reads a two-decimal text back in full. */
  lemma {:induction false} FixedTextToNumber(whole: nat, tenths: nat, hundredths: nat, negative: bool, mag: real)
    requires tenths < 10 && hundredths < 10
    requires mag == whole as real + (10 * tenths + hundredths) as real / 100.0
    ensures var t := (if negative then "-" else "") + FixedText(whole, tenths, hundredths);
      ToNumber(t) == Finite(if negative then -mag else mag)
  {
    var u := FixedText(whole, tenths, hundredths);
    var t := (if negative then "-" else "") + u;
    FixedTextParses(whole, tenths, hundredths, negative);
    assert u[0] == NatToString(whole)[0];
    assert t[0] == '-' || t[0] == u[0];
    assert IsDigit(t[|t| - 1]);
    TrimUnspaced(t);
  }

  /** `toFixed(2)` round trip: `Number` reads the text back as a whole number
      of hundredths within half a hundredth of the original value. */
  lemma {:induction false} ToFixed2RoundTrip(x: real)
    ensures var v := ToNumber(ToFixed2(Finite(x)));
      && v.Finite?
      && x - 0.005 <= v.x <= x + 0.005
      && WholeHundredths(v.x)
  {
    var n := RoundHundredths(if x < 0.0 then -x else x);
    ToFixed2Reads(x, n);
    HundredthsNear(x, n, ToNumber(ToFixed2(Finite(x))));
  }

  /** `y` is a whole number of hundredths. */
  predicate WholeHundredths(y: real)
  {
    (100.0 * y).Floor as real == 100.0 * y
  }

  lemma {:induction false} ToFixed2Reads(x: real, n: nat)
    requires n == RoundHundredths(if x < 0.0 then -x else x)
    ensures var m := n as real / 100.0;
      ToNumber(ToFixed2(Finite(x))) == Finite(if x < 0.0 then -m else m)
  {
    ToFixed2Text(x, n);
    HundredthsText(n, x < 0.0);
  }

  lemma {:induction false} ToFixed2Text(x: real, n: nat)
    requires n == RoundHundredths(if x < 0.0 then -x else x)
    ensures ToFixed2(Finite(x)) == (if x < 0.0 then "-" else "") + FixedText(n / 100, n / 10 % 10, n % 10)
  {
  }

  lemma {:induction false} HundredthsText(n: nat, negative: bool)
    ensures var m := n as real / 100.0;
      ToNumber((if negative then "-" else "") + FixedText(n / 100, n / 10 % 10, n % 10))
        == Finite(if negative then -m else m)
  {
    var w, t, h := n / 100, n / 10 % 10, n % 10;
    HundredthsSum(n);
    FixedTextToNumber(w, t, h, negative, n as real / 100.0);
  }

  lemma {:induction false} HundredthsNear(x: real, n: nat, r: Number)
    requires n as real - 0.5 <= 100.0 * (if x < 0.0 then -x else x) < n as real + 0.5
    requires r == Finite(if x < 0.0 then -(n as real / 100.0) else n as real / 100.0)
    ensures r.Finite?
    ensures x - 0.005 <= r.x <= x + 0.005
    ensures WholeHundredths(r.x)
  {
    var k: int := if x < 0.0 then -(n as int) else n as int;
    assert r.x == k as real / 100.0;
    assert 100.0 * r.x == k as real;
    assert (k as real).Floor == k;
  }

  lemma {:induction false} HundredthsSum(n: nat)
    ensures (n / 100) as real + (10 * (n / 10 % 10) + n % 10) as real / 100.0 == n as real / 100.0
  {
    assert n % 100 == 10 * (n / 10 % 10) + n % 10;
    assert n == 100 * (n / 100) + n % 100;
  }

  lemma {:induction false} TrimStartSpaces(ws: string, s: string)
    requires forall i :: 0 <= i < |ws| ==> IsSpace(ws[i])
    ensures TrimStart(ws + s) == TrimStart(s)
  {
    if ws != [] {
      assert (ws + s)[1..] == ws[1..] + s;
      TrimStartSpaces(ws[1..], s);
    } else {
      assert ws + s == s;
    }
  }

  /** `parseFloat` skips any amount of leading white space. */
  lemma {:induction false} ParseFloatSkipsSpace(ws: string, s: string)
    requires forall i :: 0 <= i < |ws| ==> IsSpace(ws[i])
    ensures ParseFloat(ws + s) == ParseFloat(s)
  {
    TrimStartSpaces(ws, s);
  }

  lemma {:induction false} DecimalPrefixUnsigned(t: string)
    requires t == [] || (t[0] != '+' && t[0] != '-')
    ensures DecimalPrefix(t) == UnsignedPrefix(t)
  {
    assert t[0..] == t;
  }

  lemma {:induction false} UnsignedDigits(d: string, tail: string)
    requires d != [] && AllDigits(d)
    requires tail == [] || (!IsDigit(tail[0]) && tail[0] != '.')
    ensures UnsignedPrefix(d + tail) == (Finite(DigitsValue(d) as real), |d|)
  {
    var t := d + tail;
    assert t[0] == d[0];
    DigitRunOf(d, tail);
    assert t[..|d|] == d;
    assert |d| < |t| ==> t[|d|] == tail[0];
  }

  /** A run of digits is read as its value, and `parseFloat` stops at the
      first character that cannot continue the number: "170cm" reads as 170. */
  lemma {:induction false} ParseFloatDigits(d: string, tail: string)
    requires d != [] && AllDigits(d)
    requires tail == [] || (!IsDigit(tail[0]) && tail[0] != '.')
    ensures DecimalPrefix(d + tail) == (Finite(DigitsValue(d) as real), |d|)
    ensures ParseFloat(d + tail) == Finite(DigitsValue(d) as real)
  {
    var t := d + tail;
    assert t[0] == d[0];
    DigitNotSpace(t[0]);
    assert TrimStart(t) == t;
    DecimalPrefixUnsigned(t);
    UnsignedDigits(d, tail);
  }

  /** A run of digits has nothing to trim, and both `Number` and
      `parseFloat` read it as its value. */
  lemma {:induction false} ToNumberDigits(d: string)
    requires d != [] && AllDigits(d)
    ensures Trim(d) == d
    ensures ToNumber(d) == Finite(DigitsValue(d) as real)
    ensures ParseFloat(d) == Finite(DigitsValue(d) as real)
  {
    TrimUnspaced(d);
    ParseFloatDigits(d, []);
    assert d + [] == d;
  }

  /** Unlike `parseFloat`, `Number` refuses trailing text: "170cm" is NaN. */
  lemma {:induction false} ToNumberRejectsTrailing(d: string, tail: string)
    requires d != [] && AllDigits(d)
    requires tail != [] && !IsDigit(tail[0]) && tail[0] != '.' && !IsSpace(tail[0])
    requires tail[0] != 'e' && tail[0] != 'E'
    requires d != "0" || tail[0] !in "xXbBoO"
    ensures ToNumber(d + tail) == NaN
  {
    var s := d + tail;
    assert s[0] == d[0];
    assert TrimStart(s) == s;
    var t := Trim(s);
    assert !IsSpace(s[|d|]);
    assert |t| > |d|;
    assert t == d + t[|d|..];
    ParseFloatDigits(d, t[|d|..]);
  }

}
