/** Reading what rtodms writes: dmstor after rtodms. */
module DmsRoundTrip {
  import opened CStrings
  import opened Decimal
  import opened Dmstor
  import opened Rtodms

  // ---------- one field ----------

  lemma StartsThere(s: string, i: nat, p: string)
    requires p != "" && AllDigits(p) && Stands(s, i, p)
    ensures NumberStarts(s, i)
  {
    assert s[i + 0] == p[0];
  }

  predicate IsMark(m: char, n: nat) {
    (m == 'd' && n == 0) || (m == '\'' && n == 1) || (m == '"' && n == 2)
  }

  lemma MarkThere(s: string, e: nat, m: char, n: nat)
    requires e < |s| && s[e] == m && IsMark(m, n)
    ensures EndsNumber(s, e)
    ensures var k := MarkAt(s, e); (k.Degrees? || k.Minutes? || k.Seconds?) && FieldNumber(k) == n
  {
  }

  // A field that reads as the number x and ends in the mark of field n.
  lemma FieldBack(s: string, i: nat, nl: nat, v: real, unit: real, x: real, e: nat, m: char, n: nat)
    requires i <= |s| && nl <= n < 3 && NumberStarts(s, i)
    requires StrToD(s, i) == (x, e) && e < |s| && s[e] == m && IsMark(m, n)
    ensures ReadFields(s, i, nl, v, unit) == ReadFields(s, e + 1, n + 1, v + Term(unit, n, x), unit)
  {
    hide *;
    MarkThere(s, e, m, n);
    ReadFieldsStep(s, i, nl, v, unit, x, e, MarkAt(s, e));
  }

  lemma IntegerFieldAt(s: string, i: nat, p: string, m: char, n: nat, nl: nat, v: real, unit: real)
    requires Stands(s, i, p) && p != "" && AllDigits(p)
    requires i + |p| < |s| && s[i + |p|] == m
    requires nl <= n < 3 && IsMark(m, n)
    ensures i <= |s|
    ensures ReadFields(s, i, nl, v, unit)
         == ReadFields(s, i + |p| + 1, n + 1, v + Term(unit, n, Value(p) as real), unit)
  {
    hide *;
    StandsInside(s, i, p);
    StartsThere(s, i, p);
    MarkThere(s, i + |p|, m, n);
    ReadInteger(s, i, p);
    FieldBack(s, i, nl, v, unit, Value(p) as real, i + |p|, m, n);
  }

  // ---------- the seconds ----------

  // A number written at position i and ended by a mark is read.
  lemma NumberField(s: string, i: nat, t: string, x: Number, m: char, n: nat, nl: nat, v: real, unit: real)
    requires Stands(s, i, t) && t == x.Shown() && x.Ok()
    requires i + |t| < |s| && s[i + |t|] == m
    requires nl <= n < 3 && IsMark(m, n)
    ensures i <= |s|
    ensures ReadFields(s, i, nl, v, unit)
         == ReadFields(s, i + |t| + 1, n + 1, v + Term(unit, n, x.Amount()), unit)
  {
    hide *;
    NumberStartsThere(s, i, x);
    MarkThere(s, i + |t|, m, n);
    ReadNumber(s, i, x);
    FieldBack(s, i, nl, v, unit, x.Amount(), i + |t|, m, n);
  }

  lemma NumberStartsThere(s: string, i: nat, x: Number)
    requires Stands(s, i, x.Shown()) && x.Ok()
    ensures NumberStarts(s, i)
  {
    NumberFirst(x);
    assert s[i + 0] == x.Shown()[0];
  }

  lemma NumberFirst(x: Number)
    requires x.Ok()
    ensures x.Shown() != "" && (IsDigit(x.Shown()[0]) || x.Shown()[0] == '.')
  {
  }

  // c units with decimals, trimmed
  lemma TrimmedSeconds(c: nat, f: nat) returns (x: Number)
    requires f > 0
    ensures x.Ok() && x.Shown() == Trimmed(CountText(c, f))
    ensures x.Amount() == c as real / Pow10(f) as real
  {
    hide Trimmed, ZerosEnd, Value, Digits, Pow10;
    var p := Pow10(f);
    var q, r := Quotient(c, p), Remainder(c, p);
    var w := FixedDigits(r, f);
    ValueDigits(q);
    ValueFixedDigits(r, f);
    QuotientRemainder(c, p);
    FracTrim(w);
    TrimmedFraction(Digits(q), w);
    assert Digits(q) + ("." + w) == Digits(q) + "." + w;
    if ZerosEnd(w) == 0 {
      x := Whole(Digits(q));
      FracNone();
      assert w[..0] == "";
    } else {
      x := Point(Digits(q), w[..ZerosEnd(w)]);
    }
  }

  // ---------- the fields of an angle ----------

  // nothing or a letter follows the angle
  predicate TailOk(tail: string) {
    tail == "" || (|tail| == 1 && tail[0] in SYM)
  }

  lemma NoMoreFields(s: string, e: nat, tail: string)
    requires TailOk(tail) && e + |tail| == |s| && s[e..] == tail
    ensures !NumberStarts(s, e)
  {
    assert e < |s| ==> s[e] == tail[0];
  }

  lemma OnePlace(s: string, pre: string, d: string, tail: string)
    requires s == pre + (d + "d" + tail)
    ensures |pre| + |d| + 1 + |tail| == |s|
    ensures Stands(s, |pre|, d) && s[|pre| + |d|] == 'd' && s[|pre| + |d| + 1..] == tail
  {
  }

  lemma OneField(s: string, pre: string, d: string, tail: string, unit: real)
    requires s == pre + (d + "d" + tail) && TailOk(tail) && d != "" && AllDigits(d)
    ensures |pre| + |tail| <= |s|
    ensures ReadFields(s, |pre|, 0, 0.0, unit) == Got(0.0 + Term(unit, 0, Value(d) as real), |s| - |tail|)
  {
    hide *;
    OnePlace(s, pre, d, tail);
    var e := |pre| + |d| + 1;
    assert IsMark('d', 0) by { Marks(); }
    IntegerFieldAt(s, |pre|, d, 'd', 0, 0, 0.0, unit);
    NoMoreFields(s, e, tail);
    ReadFieldsStop(s, e, 1, 0.0 + Term(unit, 0, Value(d) as real), unit);
  }

  lemma Marks()
    ensures IsMark('d', 0) && IsMark('\'', 1) && IsMark('"', 2)
  {
  }

  lemma TwoPlaces(s: string, pre: string, d: string, m: string, tail: string)
    requires s == pre + (d + "d" + m + "'" + tail)
    ensures |pre| + |d| + 1 + |m| + 1 + |tail| == |s|
    ensures Stands(s, |pre|, d) && s[|pre| + |d|] == 'd'
    ensures var i := |pre| + |d| + 1;
      Stands(s, i, m) && s[i + |m|] == '\'' && s[i + |m| + 1..] == tail
  {
  }

  lemma TwoFields(s: string, pre: string, d: string, m: string, tail: string, unit: real)
    requires s == pre + (d + "d" + m + "'" + tail) && TailOk(tail)
    requires d != "" && AllDigits(d) && m != "" && AllDigits(m)
    ensures |pre| + |tail| <= |s|
    ensures ReadFields(s, |pre|, 0, 0.0, unit)
         == Got(0.0 + Term(unit, 0, Value(d) as real) + Term(unit, 1, Value(m) as real), |s| - |tail|)
  {
    hide *;
    TwoPlaces(s, pre, d, m, tail);
    Marks();
    var i := |pre| + |d| + 1;
    var v := 0.0 + Term(unit, 0, Value(d) as real);
    IntegerFieldAt(s, |pre|, d, 'd', 0, 0, 0.0, unit);
    IntegerFieldAt(s, i, m, '\'', 1, 1, v, unit);
    NoMoreFields(s, i + |m| + 1, tail);
    ReadFieldsStop(s, i + |m| + 1, 2, v + Term(unit, 1, Value(m) as real), unit);
  }

  // three marked texts stand in s from position h to position e
  ghost predicate ThreeAt(s: string, h: nat, d: string, m: string, t: string, e: nat) {
    var i := h + |d| + 1;
    var j := i + |m| + 1;
    && j + |t| + 1 == e <= |s|
    && Stands(s, h, d) && s[h + |d|] == 'd'
    && Stands(s, i, m) && s[i + |m|] == '\''
    && Stands(s, j, t) && s[j + |t|] == '"'
  }

  lemma ThreePlaces(s: string, pre: string, d: string, m: string, t: string, tail: string)
    requires s == pre + (d + "d" + m + "'" + t + "\"" + tail)
    ensures |pre| + |tail| <= |s| && ThreeAt(s, |pre|, d, m, t, |s| - |tail|)
    ensures s[|s| - |tail|..] == tail
  {
  }

  lemma ThreeFields(s: string, h: nat, d: string, m: string, t: string, x: Number, e: nat, unit: real)
    requires ThreeAt(s, h, d, m, t, e) && t == x.Shown() && x.Ok()
    requires d != "" && AllDigits(d) && m != "" && AllDigits(m)
    ensures h <= |s|
    ensures ReadFields(s, h, 0, 0.0, unit)
         == Got(0.0 + Term(unit, 0, Value(d) as real) + Term(unit, 1, Value(m) as real)
                + Term(unit, 2, x.Amount()), e)
  {
    hide ReadFields, Stands, Term, AllDigits, Value;
    Marks();
    var i := h + |d| + 1;
    var j := i + |m| + 1;
    var v := 0.0 + Term(unit, 0, Value(d) as real);
    var w := v + Term(unit, 1, Value(m) as real);
    IntegerFieldAt(s, h, d, 'd', 0, 0, 0.0, unit);
    IntegerFieldAt(s, i, m, '\'', 1, 1, v, unit);
    NumberField(s, j, t, x, '"', 2, 2, w, unit);
    ReadFieldsStop(s, e, 3, w + Term(unit, 2, x.Amount()), unit);
  }

  // ---------- the angle that is read ----------

  // The seconds that reading the text of c units gives: without decimals and without
  // padding, a zero at the end of the seconds is trimmed too.
  ghost function SecRead(c: nat, f: nat, long: bool): real {
    if !long && f == 0 && c > 0 && c % 10 == 0 then (c / 10) as real else c as real / Pow10(f) as real
  }

  ghost function AngleRead(deg: nat, min: nat, sec: real, unit: real): real {
    0.0 + Term(unit, 0, deg as real) + Term(unit, 1, min as real) + Term(unit, 2, sec)
  }

  // Whole seconds, trimmed.
  lemma WholeSeconds(c: nat) returns (x: Number)
    requires 0 < c < 60
    ensures x.Ok() && x.Shown() == Trimmed(CountText(c, 0)) && x.Amount() == SecRead(c, 0, false)
  {
    var d := Digits(c);
    ValueDigits(c);
    assert CountText(c, 0) == d by {
      assert Quotient(c, Pow10(0)) == c;
      assert d + "" == d;
    }
    if c % 10 == 0 {
      assert d == Digits(c / 10) + ['0'];
      assert Digits(c / 10) == [DigitOf(c / 10)];
      assert d[..1] == Digits(c / 10);
      assert ZerosEnd(d[..1]) == 1;
      ValueDigits(c / 10);
      x := Whole(Digits(c / 10));
    } else {
      assert d[|d| - 1] == DigitOf(c % 10) != '0';
      assert ZerosEnd(d) == |d| && d[..|d|] == d;
      x := Whole(d);
    }
  }

  lemma ShortSeconds(c: nat, f: nat) returns (x: Number)
    requires 0 < c < 60 * Pow10(f)
    ensures x.Ok() && x.Shown() == Trimmed(CountText(c, f)) && x.Amount() == SecRead(c, f, false)
  {
    if f == 0 {
      assert Pow10(0) == 1;
      x := WholeSeconds(c);
    } else {
      x := TrimmedSeconds(c, f);
    }
  }

  lemma LongSeconds(c: nat, f: nat) returns (x: Number)
    ensures x.Ok() && x.Shown() == Padded(CountText(c, f), Width(f)) && x.Amount() == SecRead(c, f, true)
  {
    hide CountText, Zeros;
    var n := if |CountText(c, f)| < Width(f) then Width(f) - |CountText(c, f)| else 0;
    x := CountNumber(c, f, n);
    NoZeros(CountText(c, f));
  }

  lemma TermZero(unit: real, n: nat)
    ensures Term(unit, n, 0.0) == 0.0
  {
  }

  lemma ZeroSeconds(f: nat, long: bool)
    ensures SecRead(0, f, long) == 0.0
  {
  }

  // s reads from h to e as deg degrees, min minutes and sec seconds
  ghost predicate ReadsAs(s: string, h: nat, e: int, deg: nat, min: nat, sec: real, unit: real) {
    h <= |s| && e >= 0 && ReadFields(s, h, 0, 0.0, unit) == Got(AngleRead(deg, min, sec, unit), e)
  }

  lemma ThreeBody(s: string, h: nat, d: string, m: string, t: string, x: Number, e: nat,
                  deg: nat, min: nat, unit: real)
    requires ThreeAt(s, h, d, m, t, e) && t == x.Shown() && x.Ok()
    requires d != "" && AllDigits(d) && m != "" && AllDigits(m) && Value(d) == deg && Value(m) == min
    ensures ReadsAs(s, h, e, deg, min, x.Amount(), unit)
  {
    hide ReadFields, Term, ThreeAt, Value, AllDigits;
    ThreeFields(s, h, d, m, t, x, e, unit);
  }

  lemma LongBody(s: string, pre: string, k: nat, f: nat, p: nat, tail: string, unit: real)
    requires s == pre + Body(k, f, true, tail) && p == Pow10(f)
    ensures |pre| + |tail| <= |s| && s[|s| - |tail|..] == tail
    ensures ReadsAs(s, |pre|, |s| - |tail|, DegOf(k, p), MinOf(k, p), SecRead(SecOf(k, p), f, true), unit)
  {
    hide ReadsAs, Value, Pow10, Padded, ThreeAt, CountText, DegOf, MinOf, SecOf, SecRead, Digits, AllDigits,
         Stands, Width;
    var d, m := Digits(DegOf(k, p)), Padded(Digits(MinOf(k, p)), 2);
    var x := LongSeconds(SecOf(k, p), f);
    ThreePlaces(s, pre, d, m, x.Shown(), tail);
    PaddedDigits(MinOf(k, p), 2);
    ValueDigits(DegOf(k, p));
    ThreeBody(s, |pre|, d, m, x.Shown(), x, |s| - |tail|, DegOf(k, p), MinOf(k, p), unit);
  }

  lemma TwoBody(s: string, pre: string, deg: nat, min: nat, tail: string, unit: real)
    requires s == pre + (Digits(deg) + "d" + Digits(min) + "'" + tail) && TailOk(tail)
    ensures |pre| + |tail| <= |s| && s[|s| - |tail|..] == tail
    ensures ReadsAs(s, |pre|, |s| - |tail|, deg, min, 0.0, unit)
  {
    hide ReadFields, Term, Value, Digits, TailOk, AllDigits, Stands;
    TwoPlaces(s, pre, Digits(deg), Digits(min), tail);
    TwoFields(s, pre, Digits(deg), Digits(min), tail, unit);
    ValueDigits(deg);
    ValueDigits(min);
    TermZero(unit, 2);
  }

  lemma OneBody(s: string, pre: string, deg: nat, tail: string, unit: real)
    requires s == pre + (Digits(deg) + "d" + tail) && TailOk(tail)
    ensures |pre| + |tail| <= |s| && s[|s| - |tail|..] == tail
    ensures ReadsAs(s, |pre|, |s| - |tail|, deg, 0, 0.0, unit)
  {
    hide ReadFields, Term, Value, Digits, TailOk, AllDigits, Stands;
    OnePlace(s, pre, Digits(deg), tail);
    OneField(s, pre, Digits(deg), tail, unit);
    ValueDigits(deg);
    TermZero(unit, 1);
    TermZero(unit, 2);
  }

  lemma SecondsBody(s: string, pre: string, deg: nat, min: nat, c: nat, f: nat, tail: string, unit: real)
    requires s == pre + (Digits(deg) + "d" + Digits(min) + "'" + Trimmed(CountText(c, f)) + "\"" + tail)
    requires 0 < c < 60 * Pow10(f)
    ensures |pre| + |tail| <= |s| && s[|s| - |tail|..] == tail
    ensures ReadsAs(s, |pre|, |s| - |tail|, deg, min, SecRead(c, f, false), unit)
  {
    hide ReadsAs, Value, Digits, ThreeAt, CountText, Trimmed, SecRead, Pow10, AllDigits;
    var x := ShortSeconds(c, f);
    ThreePlaces(s, pre, Digits(deg), Digits(min), x.Shown(), tail);
    ValueDigits(deg);
    ValueDigits(min);
    ThreeBody(s, |pre|, Digits(deg), Digits(min), x.Shown(), x, |s| - |tail|, deg, min, unit);
  }

  lemma ShortBody(s: string, pre: string, k: nat, f: nat, p: nat, tail: string, unit: real)
    requires s == pre + Body(k, f, false, tail) && TailOk(tail) && p == Pow10(f)
    ensures |pre| + |tail| <= |s| && s[|s| - |tail|..] == tail
    ensures ReadsAs(s, |pre|, |s| - |tail|, DegOf(k, p), MinOf(k, p), SecRead(SecOf(k, p), f, false), unit)
  {
    hide ReadsAs, Value, Digits, ThreeAt, CountText, Trimmed, SecRead, Pow10, AllDigits, DegOf, MinOf, SecOf, TailOk;
    var deg, min, c := DegOf(k, p), MinOf(k, p), SecOf(k, p);
    if c != 0 {
      SecondsBody(s, pre, deg, min, c, f, tail, unit);
    } else if min != 0 {
      ZeroSeconds(f, false);
      TwoBody(s, pre, deg, min, tail, unit);
    } else {
      ZeroSeconds(f, false);
      OneBody(s, pre, deg, tail, unit);
    }
  }

  // ---------- the work space ----------

  predicate AllGraph(s: string) {
    forall i :: 0 <= i < |s| ==> IsGraph(s[i])
  }

  lemma {:induction false} CopyAll(s: string, i: nat, n: nat)
    requires i <= |s| <= i + n && AllGraph(s)
    ensures CopyEnd(s, i, n) == |s|
    decreases n
  {
    if i < |s| {
      CopyAll(s, i + 1, n - 1);
    }
  }

  // A text without blanks that is not too long reaches the work space whole.
  lemma WorkWhole(s: string)
    requires AllGraph(s) && |s| < MAX_WORK
    ensures SpacesEnd(s, 0) == 0 && WorkText(s) == s
  {
    CopyAll(s, 0, MAX_WORK - 1);
    assert s[0..|s|] == s;
  }

  lemma DigitsGraph(s: string)
    requires AllDigits(s)
    ensures AllGraph(s)
  {
  }

  lemma GraphConcat(s: string, t: string)
    requires AllGraph(s) && AllGraph(t)
    ensures AllGraph(s + t)
  {
  }

  lemma SecondsGraph(c: nat, f: nat)
    ensures AllGraph(CountText(c, f)) && AllGraph(Trimmed(CountText(c, f)))
    ensures AllGraph(Padded(CountText(c, f), Width(f)))
  {
    var p := Pow10(f);
    DigitsGraph(Digits(Quotient(c, p)));
    DigitsGraph(FixedDigits(Remainder(c, p), f));
    var s := CountText(c, f);
    assert AllGraph(s);
    if |s| < Width(f) {
      DigitsGraph(Zeros(Width(f) - |s|));
    }
  }

  lemma BodyGraph(k: nat, f: nat, long: bool, tail: string)
    requires AllGraph(tail)
    ensures AllGraph(Body(k, f, long, tail))
    ensures Body(k, f, long, tail) != "" && IsDigit(Body(k, f, long, tail)[0])
  {
    hide CountText, Trimmed, SecOf, MinOf, DegOf, Pow10, Padded, Zeros, Width, Digits;
    var p := Pow10(f);
    var d := Digits(DegOf(k, p));
    DigitsGraph(d);
    DigitsGraph(Digits(MinOf(k, p)));
    PaddedDigits(MinOf(k, p), 2);
    DigitsGraph(Padded(Digits(MinOf(k, p)), 2));
    SecondsGraph(SecOf(k, p), f);
    assert Body(k, f, long, tail)[0] == d[0];
  }

  lemma TrimmedShort(s: string)
    ensures |Trimmed(s)| <= |s|
  {
  }

  lemma BodyWidth(k: nat, f: nat, long: bool, tail: string)
    requires f < 9 && DegOf(k, Pow10(f)) < 0x8000_0000 && |tail| <= 1
    ensures |Body(k, f, long, tail)| <= ROOM
  {
    hide Pow10, CountText, SecOf, MinOf, DegOf, Trimmed, Digits, Zeros;
    var p := Pow10(f);
    DegreesWidth(DegOf(k, p));
    TwoDigits();
    DigitsWidth(MinOf(k, p), 2);
    CountTextWidth(SecOf(k, p), f);
    TrimmedShort(CountText(SecOf(k, p), f));
  }

  // ---------- the whole round trip ----------

  // the letters printed for r mean what dmstor takes them to mean
  predicate LettersOk(r: real, pos: char, neg: char) {
    pos == NUL || if r < 0.0 then neg in "SsWw" else pos in "NnEe"
  }

  // the angle of k units of 1/p seconds
  function Exact(k: nat, p: nat, unit: real): real
    requires p >= 1
  {
    k as real / p as real * unit
  }

  function Signed(r: real, v: real): real {
    if r < 0.0 then -v else v
  }

  lemma TailLetters(r: real, pos: char, neg: char)
    requires LettersOk(r, pos, neg)
    ensures var t := LetterText(SignOf(r, pos, neg)); TailOk(t) && AllGraph(t) && |t| <= 1
  {
  }

  // The sign of what is read, whatever the fields are.
  lemma ParseSigned(w: string, r: real, pos: char, neg: char, body: string, v: real, unit: real)
    requires LettersOk(r, pos, neg)
    requires w == Prefix(r, pos) + body && body != "" && IsDigit(body[0])
    requires var t := LetterText(SignOf(r, pos, neg));
      |t| <= |w| && w[|w| - |t|..] == t
      && ReadFields(w, |Prefix(r, pos)|, 0, 0.0, unit) == Got(v, |w| - |t|)
    ensures ParseWork(w, 0, unit) == Angle(Signed(r, v), 0, |w|)
  {
    hide ReadFields;
    var t, h := LetterText(SignOf(r, pos, neg)), |Prefix(r, pos)|;
    assert w[h] == body[0];
    var at := |w| - |t|;
    assert at < |w| ==> w[at] == t[0];
  }

  // What dmstor makes of the text of k units.
  lemma ReadText(w: string, r: real, k: nat, f: nat, p: nat, long: bool, pos: char, neg: char, unit: real)
    requires LettersOk(r, pos, neg) && f < 9 && p == Pow10(f) && DegOf(k, p) < 0x8000_0000
    requires w == Text(r, k, f, long, pos, neg)
    ensures Parse(w, unit)
         == Angle(Signed(r, AngleRead(DegOf(k, p), MinOf(k, p), SecRead(SecOf(k, p), f, long), unit)), 0, |w|)
  {
    hide ReadFields, SecRead, Pow10, DegOf, MinOf, SecOf, Body, Term, WorkText, SpacesEnd, ParseWork, TailOk,
         LettersOk, AllGraph, AngleRead, LetterText, SignOf;
    var t := LetterText(SignOf(r, pos, neg));
    var body := Body(k, f, long, t);
    TailLetters(r, pos, neg);
    BodyGraph(k, f, long, t);
    BodyWidth(k, f, long, t);
    PrefixGraph(r, pos);
    GraphConcat(Prefix(r, pos), body);
    WorkWhole(w);
    if long {
      LongBody(w, Prefix(r, pos), k, f, p, t, unit);
    } else {
      ShortBody(w, Prefix(r, pos), k, f, p, t, unit);
    }
    var v := AngleRead(DegOf(k, p), MinOf(k, p), SecRead(SecOf(k, p), f, long), unit);
    ParseSigned(w, r, pos, neg, body, v, unit);
  }

  lemma PrefixGraph(r: real, pos: char)
    ensures AllGraph(Prefix(r, pos)) && |Prefix(r, pos)| <= 1
  {
  }

  // The parts of k units make up k units.
  lemma PartsSum(k: nat, p: nat, unit: real)
    requires p >= 1
    ensures AngleRead(DegOf(k, p), MinOf(k, p), SecOf(k, p) as real / p as real, unit)
         == Exact(k, p, unit)
  {
    var deg, min, c := DegOf(k, p), MinOf(k, p), SecOf(k, p);
    var q := Quotient(k, 60 * p);
    assert k == q * (60 * p) + c by { DivMod(k, 60 * p); }
    assert q == deg * 60 + min;
    PartsAlgebra(deg as real, min as real, c as real, p as real, q as real, k as real, unit);
  }

  lemma DivMod(k: nat, d: nat)
    requires d >= 1
    ensures k == Quotient(k, d) * d + Remainder(k, d)
  {
  }

  lemma PartsAlgebra(deg: real, min: real, c: real, p: real, q: real, k: real, unit: real)
    requires p > 0.0 && q == deg * 60.0 + min && k == q * (60.0 * p) + c
    ensures 0.0 + deg * (3600.0 * unit) + min * (60.0 * unit) + c / p * unit == k / p * unit
  {
    assert k / p == 60.0 * q + c / p by {
      assert (60.0 * q + c / p) * p == q * (60.0 * p) + c;
    }
    var s := deg * 3600.0 + min * 60.0 + c / p;
    assert s == k / p;
    assert s * unit == deg * (3600.0 * unit) + min * (60.0 * unit) + c / p * unit;
  }

  // when no zero of the seconds themselves is trimmed away
  predicate SecondsKept(k: nat, f: nat, long: bool) {
    long || f > 0 || SecOf(k, 1) == 0 || SecOf(k, 1) % 10 != 0
  }

  lemma SecReadExact(k: nat, f: nat, long: bool)
    ensures SecRead(SecOf(k, Pow10(f)), f, long) == SecOf(k, Pow10(f)) as real / Pow10(f) as real
        <==> SecondsKept(k, f, long)
  {
    var c := SecOf(k, Pow10(f));
    if f == 0 && c % 10 == 0 {
      assert c == c / 10 * 10;
    }
  }

  lemma SecondDiffers(deg: nat, min: nat, a: real, b: real, unit: real)
    requires unit > 0.0
    ensures AngleRead(deg, min, a, unit) == AngleRead(deg, min, b, unit) <==> a == b
  {
    if a != b {
      assert (a - b) * unit != 0.0;
      assert (a - b) * unit == a * unit - b * unit;
    }
  }

  lemma SignedDiffers(r: real, v: real, w: real)
    ensures Signed(r, v) == Signed(r, w) <==> v == w
  {
  }

  // dmstor reads what rtodms wrote as the angle of k units, and uses all of it, exactly
  // when the seconds were kept.
  lemma RoundTrip(r: real, k: nat, f: nat, p: nat, long: bool, pos: char, neg: char, unit: real)
    requires unit > 0.0 && LettersOk(r, pos, neg) && f < 9 && p == Pow10(f) && DegOf(k, p) < 0x8000_0000
    ensures Parse(Text(r, k, f, long, pos, neg), unit)
         == Angle(Signed(r, Exact(k, p, unit)), 0, |Text(r, k, f, long, pos, neg)|)
        <==> SecondsKept(k, f, long)
  {
    hide Parse, Text, SecRead, Pow10, DegOf, MinOf, SecOf, AngleRead, SecondsKept, LettersOk, Signed, Exact;
    var c := SecOf(k, p);
    var w := Text(r, k, f, long, pos, neg);
    ReadText(w, r, k, f, p, long, pos, neg, unit);
    PartsSum(k, p, unit);
    SecReadExact(k, f, long);
    var read, exact := SecRead(c, f, long), c as real / p as real;
    SecondDiffers(DegOf(k, p), MinOf(k, p), read, exact, unit);
    SignedDiffers(r, AngleRead(DegOf(k, p), MinOf(k, p), read, unit), Exact(k, p, unit));
  }

  // A concrete loss: ten seconds, printed without decimals and without padding, are read
  // back as one second.
  lemma TenSeconds(unit: real)
    requires unit > 0.0
    ensures Pow10(0) == 1 && Count(10.0 * unit, 1.0 / unit) == 10
    ensures var w := Text(10.0 * unit, 10, 0, false, NUL, NUL);
      w == "0d0'1\"" && Parse(w, unit) == Angle(unit, 0, |w|)
  {
    hide Parse, Text, Count, Exact;
    TenCount(unit);
    TenText(10.0 * unit);
    TenRead(unit);
    ReadText(Text(10.0 * unit, 10, 0, false, NUL, NUL), 10.0 * unit, 10, 0, 1, false, NUL, NUL, unit);
  }

  lemma TenCount(unit: real)
    requires unit > 0.0
    ensures 1.0 / unit > 0.0 && Count(10.0 * unit, 1.0 / unit) == 10
  {
    var c := 1.0 / unit;
    assert c * unit == 1.0;
    PositiveQuotient(1.0, unit);
    assert 10.0 * unit * c == 10.0 * (c * unit) == 10.0;
    assert (10.0 + 0.5).Floor == 10;
  }

  lemma TenText(r: real)
    requires r > 0.0
    ensures Text(r, 10, 0, false, NUL, NUL) == "0d0'1\""
  {
    assert Digits(0) == "0" && Digits(1) == "1";
    assert Digits(10) == Digits(1) + "0" == "10";
    assert SecOf(10, 1) == 10 && MinOf(10, 1) == 0 && DegOf(10, 1) == 0;
    assert CountText(10, 0) == "10";
    assert Trimmed("10") == "1";
  }

  lemma TenRead(unit: real)
    requires unit > 0.0
    ensures DegOf(10, 1) == MinOf(10, 1) == 0 && SecOf(10, 1) == 10 && Signed(10.0 * unit, unit) == unit
    ensures AngleRead(0, 0, SecRead(10, 0, false), unit) == unit
  {
  }

  // The printed angle is nearest to the given one in steps of the last decimal.
  lemma Nearest(r: real, k: nat, p: nat, unit: real, conv: real)
    requires unit > 0.0 && p >= 1 && conv == p as real / unit && conv > 0.0 && k == Count(r, conv)
    ensures var step := unit / p as real;
      -step <= 2.0 * (Signed(r, Exact(k, p, unit)) - r) <= step
  {
    var a := if r < 0.0 then -r else r;
    NearestAlgebra(a, k as real, p as real, unit, conv, a * conv, unit / p as real);
  }

  lemma NearestAlgebra(a: real, k: real, p: real, unit: real, conv: real, x: real, s: real)
    requires unit > 0.0 && p > 0.0 && conv == p / unit && s == unit / p && x == a * conv
    requires k <= x + 0.5 < k + 1.0
    ensures -s <= 2.0 * (k / p * unit - a) <= s
  {
    StepInverse(p, unit, conv, s);
    PositiveQuotient(unit, p);
    assert x * s == a by {
      assert a * conv * s == a * (conv * s);
    }
    StepTimes(k, p, unit, s);
    StepError(k, x, s);
  }

  lemma StepInverse(p: real, unit: real, conv: real, s: real)
    requires unit > 0.0 && p > 0.0 && conv == p / unit && s == unit / p
    ensures s * p == unit && conv * s == 1.0
  {
    assert s * p == unit && conv * unit == p;
    InverseFrom(p, unit, conv, s, conv * s);
  }

  lemma InverseFrom(p: real, unit: real, conv: real, s: real, e: real)
    requires p > 0.0 && s * p == unit && conv * unit == p && e == conv * s
    ensures e == 1.0
  {
    var t := e * p;
    assert t == conv * unit by {
      ProductSame(conv, s, p, unit);
      assert t == conv * s * p;
    }
    assert t == p;
    OneFactor(e, p, t);
  }

  lemma ProductSame(a: real, b: real, c: real, d: real)
    requires b * c == d
    ensures a * b * c == a * d
  {
    assert a * b * c == a * (b * c);
  }

  lemma OneFactor(e: real, p: real, t: real)
    requires p > 0.0 && t == e * p && t == p
    ensures e == 1.0
  {
    assert (e - 1.0) * p == 0.0;
  }

  lemma StepTimes(k: real, p: real, unit: real, s: real)
    requires p > 0.0 && s * p == unit
    ensures k / p * unit == k * s
  {
    var q := k / p;
    assert q * p == k;
    assert q * unit == q * (s * p) == q * p * s;
  }

  lemma StepError(k: real, x: real, s: real)
    requires s > 0.0 && -0.5 <= x - k < 0.5
    ensures -s <= 2.0 * (k * s - x * s) <= s
  {
    var d := k - x;
    assert k * s - x * s == d * s;
    MulMonoWeak(d, 0.5, s);
    MulMonoWeak(-0.5, d, s);
  }

  // Write an angle and read it again.
  method WriteAndRead(printer: Printer, r: real, pos: char, neg: char) returns (a: Parsed)
    requires printer.Valid() && LettersOk(r, pos, neg)
    requires DegOf(Count(r, printer.conv), printer.res) < 0x8000_0000
    ensures SecondsKept(Count(r, printer.conv), printer.fract, printer.dolong) ==>
      && a.Angle? && a.blanks == 0
      && a.v == Signed(r, Exact(Count(r, printer.conv), printer.res, printer.unit))
      && (var step := printer.unit / printer.res as real; -step <= 2.0 * (a.v - r) <= step)
  {
    hide Parse, Text, Pow10, DegOf, SecondsKept, LettersOk, Count, Signed, Holds, Exact;
    var buf := new char[ROOM];
    printer.Write(buf, r, pos, neg);
    ghost var k := Count(r, printer.conv);
    ghost var w := Text(r, k, printer.fract, printer.dolong, pos, neg);
    var n := StrLen(buf, w);
    HoldsText(buf[..], w);
    HoldsNoNul(buf[..], w);
    a := Read(buf[..n], printer.unit);
    RoundTrip(r, k, printer.fract, printer.res, printer.dolong, pos, neg, printer.unit);
    Nearest(r, k, printer.res, printer.unit, printer.conv);
  }

  lemma HoldsNoNul(b: seq<char>, w: string)
    requires Holds(b, w)
    ensures NoNul(w)
  {
  }
}
