/** Decimal text as the C library writes it (%d, %02d, %.nf) and reads it (strtod). */
module Decimal {
  import opened Arith
  import opened CStrings
  import Series

  predicate IsDigit(c: char) {
    '0' <= c <= '9'
  }

  predicate AllDigits(s: string) {
    forall i :: 0 <= i < |s| ==> IsDigit(s[i])
  }

  function DigitOf(d: nat): (c: char)
    requires d < 10
    ensures IsDigit(c) && DigitValue(c) == d
  {
    (48 + d) as char
  }

  function DigitValue(c: char): (d: nat)
    ensures IsDigit(c) ==> d < 10
  {
    if IsDigit(c) then c as int - 48 else 0
  }

  function Pow10(n: nat): (r: nat)
    ensures r >= 1
  {
    if n == 0 then 1 else 10 * Pow10(n - 1)
  }

  // ---------- writing ----------

  function Digits(n: nat): (s: string)
    ensures |s| >= 1 && AllDigits(s)
  {
    if n < 10 then [DigitOf(n)] else Digits(n / 10) + [DigitOf(n % 10)]
  }

  // the last w digits
  function FixedDigits(n: nat, w: nat): (s: string)
    ensures |s| == w && AllDigits(s)
  {
    if w == 0 then "" else FixedDigits(n / 10, w - 1) + [DigitOf(n % 10)]
  }

  function Zeros(n: nat): (s: string)
    ensures |s| == n && AllDigits(s)
    ensures forall i :: 0 <= i < n ==> s[i] == '0'
  {
    if n == 0 then "" else "0" + Zeros(n - 1)
  }

  // zeros in front up to a width
  function Padded(s: string, w: nat): (t: string) {
    if |s| < w then Zeros(w - |s|) + s else s
  }

  // %.<f>f
  function FixedPoint(x: real, f: nat): string
    requires x >= 0.0
  {
    RoundedNonneg(x, Pow10(f) as real);
    CountText(Rounded(x, Pow10(f) as real), f)
  }

  lemma RoundedNonneg(x: real, p: real)
    requires x >= 0.0 && p >= 0.0
    ensures Rounded(x, p) >= 0
  {
    assert x * p >= 0.0;
  }

  // x in units of 1/p, rounded
  function Rounded(x: real, p: real): int {
    (x * p + 0.5).Floor
  }

  function Quotient(n: nat, d: nat): (q: nat)
    requires d >= 1
  {
    n / d
  }

  function Remainder(n: nat, d: nat): (r: nat)
    requires d >= 1
    ensures r < d
  {
    n % d
  }

  // n units of the last of f decimals
  function CountText(n: nat, f: nat): string {
    var p := Pow10(f);
    Digits(Quotient(n, p)) + if f > 0 then "." + FixedDigits(Remainder(n, p), f) else ""
  }

  // ---------- reading ----------

  // value of a string of digits
  function Value(s: string): nat {
    if s == "" then 0 else Value(s[..|s| - 1]) * 10 + DigitValue(s[|s| - 1])
  }

  // value of the digits behind the point
  function FracValue(s: string): real {
    Value(s) as real / Pow10(|s|) as real
  }

  // where the digits that start at i end
  function Span(s: string, i: nat): (e: nat)
    requires i <= |s|
    ensures i <= e <= |s| && AllDigits(s[i..e])
    ensures e < |s| ==> !IsDigit(s[e])
    decreases |s| - i
  {
    if i < |s| && IsDigit(s[i]) then
      var e := Span(s, i + 1);
      assert s[i..e] == [s[i]] + s[i + 1..e];
      e
    else i
  }

  // digits, a point and digits
  function Mantissa(s: string, i: nat): (r: (real, nat))
    requires i <= |s|
    ensures i <= r.1 <= |s|
  {
    var a := Span(s, i);
    var dot := a < |s| && s[a] == '.';
    var b := if dot then Span(s, a + 1) else a;
    var frac := if dot then s[a + 1..b] else "";
    if a == i && frac == "" then (0.0, i)
    else (Value(s[i..a]) as real + FracValue(frac), b)
  }

  function ExponentFactor(n: nat, negative: bool): real {
    if negative then 1.0 / Pow10(n) as real else Pow10(n) as real
  }

  // strtod on text that starts with a digit or a point: value and end
  function StrToD(s: string, i: nat): (r: (real, nat))
    requires i <= |s|
    ensures i <= r.1 <= |s|
  {
    var (m, e) := Mantissa(s, i);
    if e == i || e == |s| || s[e] !in "eE" then (m, e)
    else
      var signed := e + 1 < |s| && s[e + 1] in "+-";
      var g := if signed then e + 2 else e + 1;
      if g == |s| || !IsDigit(s[g]) then (m, e)
      else (Series.Times(m, ExponentFactor(Value(s[g..Span(s, g)]), signed && s[e + 1] == '-')), Span(s, g))
  }

  // ---------- reading what was written ----------

  lemma {:induction false} ValueAppend(a: string, c: char)
    ensures Value(a + [c]) == Value(a) * 10 + DigitValue(c)
  {
    var s := a + [c];
    assert s[..|s| - 1] == a;
  }

  lemma {:induction false} ValueDigits(n: nat)
    ensures Value(Digits(n)) == n
  {
    if n < 10 {
      ValueAppend("", DigitOf(n));
      assert "" + [DigitOf(n)] == Digits(n);
    } else {
      ValueDigits(n / 10);
      ValueAppend(Digits(n / 10), DigitOf(n % 10));
    }
  }

  lemma {:induction false} ValueFixedDigits(n: nat, w: nat)
    requires n < Pow10(w)
    ensures Value(FixedDigits(n, w)) == n
  {
    if w > 0 {
      ValueFixedDigits(n / 10, w - 1);
      ValueAppend(FixedDigits(n / 10, w - 1), DigitOf(n % 10));
    }
  }

  lemma {:induction false} ValueZeros(k: nat, s: string)
    ensures Value(Zeros(k) + s) == Value(s)
    decreases |s| + k
  {
    var t := Zeros(k) + s;
    if s != "" {
      assert t[..|t| - 1] == Zeros(k) + s[..|s| - 1];
      ValueZeros(k, s[..|s| - 1]);
    } else if k > 0 {
      ValueZeros(k - 1, "");
      ZerosSnoc(k - 1);
      ValueAppend(Zeros(k - 1), '0');
      assert t == Zeros(k - 1) + "0" && Zeros(k - 1) + "" == Zeros(k - 1);
    }
  }

  lemma {:induction false} ZerosSnoc(k: nat)
    ensures Zeros(k + 1) == Zeros(k) + "0"
  {
    if k > 0 {
      ZerosSnoc(k - 1);
    }
  }

  lemma PaddedDigits(n: nat, w: nat)
    ensures Value(Padded(Digits(n), w)) == n
    ensures AllDigits(Padded(Digits(n), w)) && |Padded(Digits(n), w)| >= 1
  {
    ValueDigits(n);
    if |Digits(n)| < w {
      ValueZeros(w - |Digits(n)|, Digits(n));
    }
  }

  // Numbers of at most w digits print on at most w characters.
  lemma {:induction false} DigitsWidth(n: nat, w: nat)
    requires w >= 1 && n < Pow10(w)
    ensures |Digits(n)| <= w
  {
    if w > 1 && n >= 10 {
      DigitsWidth(n / 10, w - 1);
    }
  }

  lemma {:induction false} FirstDigit(n: nat)
    requires n > 0
    ensures Digits(n)[0] != '0'
  {
    if n >= 10 {
      FirstDigit(n / 10);
    }
  }

  // A run of digits ends where it was written to end.
  lemma {:induction false} SpanStands(s: string, i: nat, p: string)
    requires Stands(s, i, p) && AllDigits(p)
    requires i + |p| < |s| ==> !IsDigit(s[i + |p|])
    ensures Span(s, i) == i + |p| && s[i..i + |p|] == p
    decreases |p|
  {
    if p != "" {
      assert s[i + 0] == p[0];
      forall j | 0 <= j < |p| - 1
        ensures s[i + 1 + j] == p[1..][j]
      {
        assert s[i + (j + 1)] == p[j + 1];
      }
      SpanStands(s, i + 1, p[1..]);
      assert s[i..i + |p|] == [s[i]] + s[i + 1..i + |p|];
    }
  }

  // nothing that continues digits and a point stands at e
  predicate EndsMantissa(s: string, e: nat) {
    e == |s| || (e < |s| && !IsDigit(s[e]) && s[e] != '.')
  }

  // nor an exponent; the letter alone is none
  predicate EndsNumber(s: string, e: nat) {
    EndsMantissa(s, e) && (e < |s| && s[e] in "eE" ==> e + 1 == |s|)
  }

  // The mantissa of a written integer.
  lemma IntegerMantissa(s: string, i: nat, p: string)
    requires p != "" && AllDigits(p) && Stands(s, i, p) && EndsMantissa(s, i + |p|)
    ensures Mantissa(s, i) == (Value(p) as real, i + |p|)
  {
    hide Value, Stands;
    SpanStands(s, i, p);
    FracNone();
  }

  lemma FracNone()
    ensures FracValue("") == 0.0
  {
  }

  // The mantissa of a written decimal fraction; one of the two parts may be missing.
  lemma DecimalMantissa(s: string, i: nat, p: string, f: string)
    requires (p != "" || f != "") && AllDigits(p) && Stands(s, i, p)
    requires i + |p| < |s| && s[i + |p|] == '.'
    requires AllDigits(f) && Stands(s, i + |p| + 1, f) && EndsMantissa(s, i + |p| + 1 + |f|)
    ensures Mantissa(s, i) == (Value(p) as real + FracValue(f), i + |p| + 1 + |f|)
  {
    hide Value, Stands, FracValue, Span, AllDigits;
    SpanStands(s, i, p);
    SpanStands(s, i + |p| + 1, f);
  }

  lemma NoExponent(s: string, i: nat)
    requires i <= |s| && EndsNumber(s, Mantissa(s, i).1)
    ensures StrToD(s, i) == Mantissa(s, i)
  {
    hide Mantissa, Value, Span;
  }

  // what an exponent multiplies by
  function PowerOf(sign: string, g: string): real {
    if sign == "-" then 1.0 / Pow10(Value(g)) as real else Pow10(Value(g)) as real
  }

  // A written exponent shifts the point.
  lemma WithExponent(s: string, i: nat, v: real, e: nat, sign: string, g: string)
    requires i <= |s| && Mantissa(s, i) == (v, e) && i < e < |s| && s[e] in "eE"
    requires sign == "" || sign == "+" || sign == "-"
    requires g != "" && AllDigits(g) && Stands(s, e + 1, sign) && Stands(s, e + 1 + |sign|, g)
    requires EndsMantissa(s, e + 1 + |sign| + |g|)
    ensures StrToD(s, i) == (Series.Times(v, PowerOf(sign, g)), e + 1 + |sign| + |g|)
  {
    hide Mantissa, Value, Span, AllDigits, Stands, EndsMantissa, ExponentFactor, PowerOf;
    ExponentPlace(s, e, sign, g);
    ExponentPower(sign, g);
    ExponentStep(s, i, v, e, sign != "");
  }

  lemma ExponentPower(sign: string, g: string)
    requires sign == "" || sign == "+" || sign == "-"
    ensures ExponentFactor(Value(g), sign != "" && sign[0] == '-') == PowerOf(sign, g)
  {
    hide Value;
  }

  lemma ExponentStep(s: string, i: nat, v: real, e: nat, signed: bool)
    requires i <= |s| && Mantissa(s, i) == (v, e) && i < e < |s| && s[e] in "eE" && e + 1 < |s|
    requires signed == (s[e + 1] in "+-")
    requires var h := if signed then e + 2 else e + 1; h < |s| && IsDigit(s[h])
    ensures var h := if signed then e + 2 else e + 1;
      StrToD(s, i) == (Series.Times(v, ExponentFactor(Value(s[h..Span(s, h)]), signed && s[e + 1] == '-')), Span(s, h))
  {
    hide Mantissa, Value, Span, ExponentFactor;
  }

  lemma ExponentPlace(s: string, e: nat, sign: string, g: string)
    requires e < |s| && (sign == "" || sign == "+" || sign == "-")
    requires g != "" && AllDigits(g) && Stands(s, e + 1, sign) && Stands(s, e + 1 + |sign|, g)
    requires EndsMantissa(s, e + 1 + |sign| + |g|)
    ensures e + 1 + |sign| < |s| && IsDigit(s[e + 1 + |sign|])
    ensures (s[e + 1] in "+-") == (sign != "") && (sign != "" ==> s[e + 1] == sign[0])
    ensures Span(s, e + 1 + |sign|) == e + 1 + |sign| + |g| <= |s|
    ensures s[e + 1 + |sign|..e + 1 + |sign| + |g|] == g
  {
    hide Span;
    SpanStands(s, e + 1 + |sign|, g);
    FirstOf(s, e + 1 + |sign|, g);
    if sign != "" {
      assert s[e + 1 + 0] == sign[0];
    }
  }

  lemma FirstOf(s: string, i: nat, g: string)
    requires g != "" && AllDigits(g) && Stands(s, i, g)
    ensures i < |s| && IsDigit(s[i]) && s[i] == g[0]
  {
    assert s[i + 0] == g[0];
  }

  // ---------- written numbers ----------

  // how a number is written: digits, or digits around a point, and either with an exponent
  datatype Number =
    | Whole(p: string)
    | Point(p: string, f: string)
    | Scaled(m: Number, e: char, sign: string, g: string)
  {
    predicate Ok() {
      match this
      case Whole(p) => p != "" && AllDigits(p)
      case Point(p, f) => (p != "" || f != "") && AllDigits(p) && AllDigits(f)
      case Scaled(m, e, sign, g) =>
        !m.Scaled? && m.Ok() && e in "eE" && (sign == "" || sign == "+" || sign == "-") && g != "" && AllDigits(g)
    }

    function Shown(): string {
      match this
      case Whole(p) => p
      case Point(p, f) => p + "." + f
      case Scaled(m, e, sign, g) => m.Shown() + [e] + sign + g
    }

    function Amount(): real {
      match this
      case Whole(p) => Value(p) as real
      case Point(p, f) => Value(p) as real + FracValue(f)
      case Scaled(m, _, sign, g) =>
        Series.Times(m.Amount(), PowerOf(sign, g))
    }
  }

  lemma StandsPoint(s: string, i: nat, t: string, p: string, f: string)
    requires Stands(s, i, t) && t == p + "." + f
    ensures |t| == |p| + 1 + |f| && i + |p| < |s|
    ensures Stands(s, i, p) && s[i + |p|] == '.' && Stands(s, i + |p| + 1, f)
  {
    assert forall j :: 0 <= j < |t| ==> s[i + j] == t[j];
    assert t[|p|] == '.';
    assert forall j :: 0 <= j < |p| ==> t[j] == p[j];
    forall j | 0 <= j < |f|
      ensures s[i + |p| + 1 + j] == f[j]
    {
      assert s[i + (|p| + 1 + j)] == t[|p| + 1 + j];
    }
  }

  // the two halves of a text that stands somewhere
  lemma StandsHalves(s: string, i: nat, t: string, u: string)
    requires Stands(s, i, t + u)
    ensures Stands(s, i, t) && Stands(s, i + |t|, u)
  {
    forall j | 0 <= j < |t|
      ensures s[i + j] == t[j]
    {
      assert s[i + j] == (t + u)[j];
    }
    forall j | 0 <= j < |u|
      ensures s[i + |t| + j] == u[j]
    {
      assert s[i + (|t| + j)] == (t + u)[|t| + j];
    }
  }

  lemma StandsInside(s: string, i: nat, p: string)
    requires Stands(s, i, p)
    ensures i + |p| <= |s|
  {
  }

  lemma PlainMantissa(s: string, i: nat, x: Number)
    requires x.Ok() && !x.Scaled? && Stands(s, i, x.Shown()) && EndsMantissa(s, i + |x.Shown()|)
    ensures i <= |s| && |x.Shown()| >= 1 && Mantissa(s, i) == (x.Amount(), i + |x.Shown()|)
  {
    hide Mantissa, Value, FracValue, Stands, AllDigits;
    StandsInside(s, i, x.Shown());
    match x
    case Whole(p) => IntegerMantissa(s, i, p);
    case Point(p, f) =>
      StandsPoint(s, i, x.Shown(), p, f);
      DecimalMantissa(s, i, p, f);
  }

  // A written number, wherever it stands and whatever it ends at, is read as its amount.
  lemma ReadNumber(s: string, i: nat, x: Number)
    requires x.Ok() && Stands(s, i, x.Shown()) && EndsNumber(s, i + |x.Shown()|)
    ensures i <= |s| && |x.Shown()| >= 1 && StrToD(s, i) == (x.Amount(), i + |x.Shown()|)
  {
    hide Mantissa, Value, FracValue, Stands, AllDigits, StrToD, PowerOf, EndsMantissa;
    EndsBoth(s, i + |x.Shown()|);
    match x {
      case Scaled(m, e, sign, g) =>
        var t := m.Shown();
        assert x.Shown() == t + ([e] + (sign + g));
        StandsHalves(s, i, t, [e] + (sign + g));
        StandsHalves(s, i + |t|, [e], sign + g);
        StandsHalves(s, i + |t| + 1, sign, g);
        StandsInside(s, i + |t| + 1 + |sign|, g);
        StandsHere(s, i + |t|, e);
        EndsAtLetter(s, i + |t|);
        PlainMantissa(s, i, m);
        WithExponent(s, i, m.Amount(), i + |t|, sign, g);
      case _ =>
        PlainMantissa(s, i, x);
        NoExponent(s, i);
    }
  }

  lemma EndsBoth(s: string, e: nat)
    requires EndsNumber(s, e)
    ensures EndsMantissa(s, e)
  {
  }

  lemma EndsAtLetter(s: string, e: nat)
    requires e < |s| && s[e] in "eE"
    ensures EndsMantissa(s, e)
  {
  }

  lemma StandsHere(s: string, i: nat, c: char)
    requires Stands(s, i, [c])
    ensures i < |s| && s[i] == c
  {
    assert s[i + 0] == [c][0];
  }

  // A written integer is read back.
  lemma ReadInteger(s: string, i: nat, p: string)
    requires p != "" && AllDigits(p) && Stands(s, i, p) && EndsNumber(s, i + |p|)
    ensures i <= |s| && StrToD(s, i) == (Value(p) as real, i + |p|)
  {
    hide StrToD, Value, Stands, AllDigits;
    ReadNumber(s, i, Whole(p));
  }

  // n units of the last of f decimals are read back.
  lemma ReadCount(s: string, i: nat, n: nat, f: nat)
    requires Stands(s, i, CountText(n, f)) && EndsNumber(s, i + |CountText(n, f)|)
    ensures i <= |s|
    ensures StrToD(s, i) == (n as real / Pow10(f) as real, i + |CountText(n, f)|)
  {
    hide StrToD, Stands, CountText, Pow10, EndsNumber, Zeros;
    var x := CountNumber(n, f, 0);
    NoZeros(CountText(n, f));
    ReadNumber(s, i, x);
  }

  lemma NoZeros(s: string)
    ensures Zeros(0) + s == s
  {
  }

  // The written form of n units, with zeros in front.
  lemma CountNumber(n: nat, f: nat, zeros: nat) returns (x: Number)
    ensures x.Ok() && !x.Scaled? && x.Shown() == Zeros(zeros) + CountText(n, f)
    ensures x.Amount() == n as real / Pow10(f) as real
  {
    hide Digits, FixedDigits, Value, AllDigits;
    var p := Pow10(f);
    var q, r := Quotient(n, p), Remainder(n, p);
    ValueDigits(q);
    ValueZeros(zeros, Digits(q));
    QuotientRemainder(n, p);
    DigitsConcat(Zeros(zeros), Digits(q));
    if f == 0 {
      x := Whole(Zeros(zeros) + Digits(q));
      assert CountText(n, f) == Digits(q);
    } else {
      x := Point(Zeros(zeros) + Digits(q), FixedDigits(r, f));
      ValueFixedDigits(r, f);
      assert Zeros(zeros) + (Digits(q) + ("." + FixedDigits(r, f)))
          == (Zeros(zeros) + Digits(q)) + "." + FixedDigits(r, f);
    }
  }

  lemma DigitsConcat(s: string, t: string)
    requires AllDigits(s) && AllDigits(t)
    ensures AllDigits(s + t)
  {
  }

  lemma QuotientRemainder(c: nat, p: nat)
    requires p >= 1
    ensures Quotient(c, p) as real + Remainder(c, p) as real / p as real == c as real / p as real
  {
    var q, r := c / p, c % p;
  }

  // ---------- trimming zeros ----------

  // length without the zeros at the end
  function ZerosEnd(s: string): (e: nat)
    ensures e <= |s| && (forall i :: e <= i < |s| ==> s[i] == '0')
    ensures e > 0 ==> s[e - 1] != '0'
    decreases |s|
  {
    if |s| > 0 && s[|s| - 1] == '0' then
      var e := ZerosEnd(s[..|s| - 1]);
      assert forall i :: 0 <= i < |s| - 1 ==> s[..|s| - 1][i] == s[i];
      e
    else |s|
  }

  // the zeros at the end and a point before them removed
  function Trimmed(s: string): string {
    var e := ZerosEnd(s);
    if e > 0 && s[e - 1] == '.' then s[..e - 1] else s[..e]
  }

  // What is trimmed away is zeros, behind a point or not, and nothing is left to trim.
  lemma TrimmedExact(s: string)
    ensures var t := Trimmed(s);
      && t <= s
      && (t != "" && ZerosEnd(s) > 0 && s[ZerosEnd(s) - 1] != '.' ==> t[|t| - 1] != '0')
      && (s == t + Zeros(|s| - |t|) || (|t| < |s| && s == t + "." + Zeros(|s| - |t| - 1)))
  {
    var e := ZerosEnd(s);
    ZerosOnly(s[e..]);
    assert s == s[..e] + s[e..];
    if e > 0 && s[e - 1] == '.' {
      assert s[..e] == s[..e - 1] + ".";
    }
  }

  lemma {:induction false} ZerosOnly(s: string)
    requires forall i :: 0 <= i < |s| ==> s[i] == '0'
    ensures s == Zeros(|s|)
  {
    if s != "" {
      ZerosOnly(s[1..]);
      assert s == "0" + s[1..];
    }
  }

  lemma {:induction false} FracAppendZero(s: string)
    ensures FracValue(s + "0") == FracValue(s)
  {
    hide Value;
    ValueAppend(s, '0');
    CancelTen(Value(s) as real, Pow10(|s|) as real);
  }

  lemma CancelTen(v: real, p: real)
    requires p > 0.0
    ensures (v * 10.0) / (10.0 * p) == v / p
  {
  }

  // Zeros behind the last decimal do not count.
  lemma {:induction false} FracTrim(s: string)
    ensures FracValue(s[..ZerosEnd(s)]) == FracValue(s)
    decreases |s|
  {
    if |s| > 0 && s[|s| - 1] == '0' {
      var t := s[..|s| - 1];
      FracTrim(t);
      FracAppendZero(t);
      assert t + "0" == s;
      assert s[..ZerosEnd(s)] == t[..ZerosEnd(t)];
    } else {
      assert s[..ZerosEnd(s)] == s;
    }
  }

  lemma {:induction false} ZerosEndAppend(a: string, c: char, s: string)
    requires c != '0'
    ensures ZerosEnd(a + [c] + s) == |a| + 1 + ZerosEnd(s)
    decreases |s|
  {
    var t := a + [c] + s;
    if |s| > 0 && s[|s| - 1] == '0' {
      ZerosEndAppend(a, c, s[..|s| - 1]);
      assert t[..|t| - 1] == a + [c] + s[..|s| - 1];
    } else if |s| == 0 {
      assert t[|t| - 1] == c;
    }
  }

  // Trimming a decimal fraction removes zeros behind the point, and the point with them.
  lemma TrimmedFraction(a: string, f: string)
    requires AllDigits(f)
    ensures Trimmed(a + "." + f)
         == if ZerosEnd(f) == 0 then a else a + "." + f[..ZerosEnd(f)]
  {
    hide ZerosEnd, AllDigits;
    ZerosEndAppend(a, '.', f);
    LastDecimal(f);
    var s, z := a + ['.'] + f, ZerosEnd(f);
    assert s == a + "." + f;
    if z == 0 {
      assert s[|a| + 1 + z - 1] == '.';
      assert s[..|a|] == a;
    } else {
      assert s[|a| + 1 + z - 1] == f[z - 1];
      assert s[..|a| + 1 + z] == a + "." + f[..z];
    }
  }

  lemma LastDecimal(f: string)
    requires AllDigits(f)
    ensures ZerosEnd(f) > 0 ==> f[ZerosEnd(f) - 1] != '.'
  {
  }
}
