/** set_rtodms and rtodms of rtodms.c: write an angle in degrees, minutes and seconds. */
module Rtodms {
  import opened CStrings
  import opened Decimal

  // fmod for numbers that are not negative
  function FMod(x: real, y: real): real
    requires x >= 0.0 && y > 0.0
  {
    x - y * (x / y).Floor as real
  }

  // ---------- what is printed ----------

  // the angle in units of the last printed decimal of a second, rounded
  function Count(r: real, conv: real): nat
    requires conv > 0.0
  {
    RoundedNonneg(Size(r), conv);
    Rounded(Size(r), conv)
  }

  function Size(r: real): (a: real)
    ensures a >= 0.0
  {
    if r < 0.0 then -r else r
  }

  // the letter behind the angle, NUL for none
  function SignOf(r: real, pos: char, neg: char): char {
    if r < 0.0 && pos != NUL then neg else pos
  }

  function LetterText(sign: char): (t: string)
    ensures sign != NUL ==> NoNul(t)
  {
    if sign == NUL then "" else [sign]
  }

  function Prefix(r: real, pos: char): string {
    if r < 0.0 && pos == NUL then "-" else ""
  }

  // the parts of k units
  function SecOf(k: nat, res: nat): (c: nat)
    requires res >= 1
    ensures c < 60 * res
  {
    Remainder(k, 60 * res)
  }

  function MinOf(k: nat, res: nat): (m: nat)
    requires res >= 1
    ensures m < 60
  {
    Remainder(Quotient(k, 60 * res), 60)
  }

  function DegOf(k: nat, res: nat): nat
    requires res >= 1
  {
    Quotient(Quotient(k, 60 * res), 60)
  }

  // the width of %0<w>.<f>f
  function Width(f: nat): nat {
    f + 2 + if f > 0 then 1 else 0
  }

  function Body(k: nat, f: nat, long: bool, tail: string): string {
    var c, min, deg := SecOf(k, Pow10(f)), MinOf(k, Pow10(f)), DegOf(k, Pow10(f));
    if long then
      Digits(deg) + "d" + Padded(Digits(min), 2) + "'" + Padded(CountText(c, f), Width(f)) + "\"" + tail
    else if c != 0 then
      Digits(deg) + "d" + Digits(min) + "'" + Trimmed(CountText(c, f)) + "\"" + tail
    else if min != 0 then
      Digits(deg) + "d" + Digits(min) + "'" + tail
    else
      Digits(deg) + "d" + tail
  }

  function Text(r: real, k: nat, f: nat, long: bool, pos: char, neg: char): string {
    Prefix(r, pos) + Body(k, f, long, LetterText(SignOf(r, pos, neg)))
  }

  // A letter behind the angle, or a minus sign in front of it, never both.
  lemma TextSign(r: real, k: nat, f: nat, long: bool, pos: char, neg: char)
    requires neg != NUL
    ensures var t := Text(r, k, f, long, pos, neg);
      && t != ""
      && (pos != NUL ==> t[|t| - 1] == (if r < 0.0 then neg else pos) && t[0] != '-')
      && (pos == NUL ==> (t[0] == '-' <==> r < 0.0) && t[|t| - 1] in "d'\"")
  {
    hide CountText, Trimmed, Padded, Width, SecOf, MinOf, DegOf, Pow10;
    BodyEnds(k, f, long, LetterText(SignOf(r, pos, neg)));
  }

  lemma BodyEnds(k: nat, f: nat, long: bool, tail: string)
    ensures var b := Body(k, f, long, tail);
      && |b| > |tail| && b[|b| - |tail|..] == tail && IsDigit(b[0]) && b[|b| - |tail| - 1] in "d'\""
  {
    hide CountText, Trimmed, Padded, Width, SecOf, MinOf, DegOf, Pow10;
    var d := Digits(DegOf(k, Pow10(f)));
    assert IsDigit(d[0]) && Body(k, f, long, tail)[0] == d[0];
  }

  // The short form shows seconds exactly when they are not zero, and minutes exactly when
  // they or the seconds are not.
  lemma ShortForm(k: nat, f: nat)
    ensures var b := Body(k, f, false, "");
      && ('"' in b <==> SecOf(k, Pow10(f)) != 0)
      && ('\'' in b <==> SecOf(k, Pow10(f)) != 0 || MinOf(k, Pow10(f)) != 0)
  {
    hide CountText, SecOf, MinOf, DegOf, Pow10, Trimmed, Digits;
    var c, min, deg := SecOf(k, Pow10(f)), MinOf(k, Pow10(f)), DegOf(k, Pow10(f));
    var d, m := Digits(deg), Digits(min);
    var head := d + "d" + m;
    if c != 0 {
      var t := head + "'" + Trimmed(CountText(c, f));
      assert Body(k, f, false, "") == t + "\"";
      assert (t + "\"")[|t|] == '"' && (t + "\"")[|head|] == '\'';
    } else if min != 0 {
      assert Body(k, f, false, "") == head + "'";
      assert (head + "'")[|head|] == '\'';
    } else {
      assert Body(k, f, false, "") == d + "d";
    }
  }

  // a text of w digits that stands for n
  predicate IsNumber(s: string, w: nat, n: nat) {
    |s| == w && AllDigits(s) && Value(s) == n
  }

  // minutes, whole seconds and decimals of the seconds, as they are printed
  ghost predicate LongParts(k: nat, f: nat, mm: string, ss: string, ff: string) {
    && IsNumber(mm, 2, MinOf(k, Pow10(f)))
    && IsNumber(ss, 2, Quotient(SecOf(k, Pow10(f)), Pow10(f)))
    && IsNumber(ff, f, Remainder(SecOf(k, Pow10(f)), Pow10(f)))
  }

  function Long(deg: nat, mm: string, ss: string, ff: string, tail: string): string {
    Digits(deg) + "d" + mm + "'" + ss + (if ff != "" then "." + ff else "") + "\"" + tail
  }

  // The long form: two digits of minutes and two of whole seconds, always, and behind a point
  // as many as there are decimals.
  lemma LongForm(k: nat, f: nat, tail: string) returns (mm: string, ss: string, ff: string)
    ensures LongParts(k, f, mm, ss, ff)
    ensures Body(k, f, true, tail) == Long(DegOf(k, Pow10(f)), mm, ss, ff, tail)
  {
    hide Digits, FixedDigits, Value, Pow10, MinOf, SecOf, DegOf, Quotient, Remainder, AllDigits;
    var p := Pow10(f);
    var min, c := MinOf(k, p), SecOf(k, p);
    mm := TwoPlaces(min);
    QuotientBelow(c, p, 60);
    ss := TwoPlaces(Quotient(c, p));
    ff := FixedDigits(Remainder(c, p), f);
    ValueFixedDigits(Remainder(c, p), f);
    LongSecondsText(c, f, ss, ff);
  }

  lemma TwoPlaces(n: nat) returns (s: string)
    requires n < 60
    ensures s == Padded(Digits(n), 2) && |s| == 2 && AllDigits(s) && Value(s) == n
  {
    TwoDigits();
    DigitsWidth(n, 2);
    PaddedDigits(n, 2);
    s := Padded(Digits(n), 2);
  }

  lemma LongSecondsText(c: nat, f: nat, ss: string, ff: string)
    requires ss == Padded(Digits(Quotient(c, Pow10(f))), 2) && |ss| == 2
    requires ff == FixedDigits(Remainder(c, Pow10(f)), f)
    ensures Padded(CountText(c, f), Width(f)) == ss + (if f > 0 then "." + ff else "")
  {
    hide Digits, FixedDigits, Pow10, Quotient, Remainder;
    var d := Digits(Quotient(c, Pow10(f)));
    var end := if f > 0 then "." + ff else "";
    assert CountText(c, f) == d + end && |end| + 2 == Width(f);
    assert Zeros(2 - |d|) + (d + end) == (Zeros(2 - |d|) + d) + end;
  }

  // ---------- arithmetic ----------

  lemma FloorQuotient(k: nat, d: nat)
    requires d >= 1
    ensures (k as real / d as real).Floor == Quotient(k, d)
  {
    var q, x := k / d, k as real / d as real;
    assert k == q * d + k % d;
    assert x * d as real == k as real;
    FloorBetween(x, q, d, k);
  }

  lemma FloorBetween(x: real, q: int, d: nat, k: nat)
    requires d >= 1 && x * d as real == k as real && q * d <= k < q * d + d
    ensures x.Floor == q
  {
    var e := d as real;
    assert q as real * e == (q * d) as real;
    assert (q as real + 1.0) * e == (q * d + d) as real;
    if x < q as real {
      MulMono(x, q as real, e);
    } else if x >= q as real + 1.0 {
      MulMonoWeak(q as real + 1.0, x, e);
    }
  }

  lemma MulMono(a: real, b: real, e: real)
    requires a < b && e > 0.0
    ensures a * e < b * e
  {
  }

  lemma MulMonoWeak(a: real, b: real, e: real)
    requires a <= b && e > 0.0
    ensures a * e <= b * e
  {
  }

  // fmod(k / res, 60) is a whole number of units.
  lemma SecondsPart(k: nat, res: nat)
    requires res >= 1
    ensures k as real / res as real >= 0.0
    ensures FMod(k as real / res as real, 60.0) == SecOf(k, res) as real / res as real
    ensures SecOf(k, res) == k - Quotient(k, 60 * res) * (60 * res)
  {
    var x, q, d := k as real / res as real, Quotient(k, 60 * res), 60 * res;
    assert x / 60.0 == k as real / d as real by {
      QuotientTwice(k as real, res as real);
    }
    FloorQuotient(k, d);
    assert k == q * d + k % d;
    SecondsAlgebra(k as real, res as real, q as real, SecOf(k, res) as real);
  }

  lemma QuotientTwice(a: real, b: real)
    requires b > 0.0
    ensures a / b / 60.0 == a / (60.0 * b)
  {
    var x := a / b;
    assert x * b == a;
    assert x / 60.0 * (60.0 * b) == a;
  }

  lemma SecondsAlgebra(k: real, r: real, q: real, c: real)
    requires r > 0.0 && k == q * (60.0 * r) + c
    ensures k / r - 60.0 * q == c / r
  {
    assert (60.0 * q) * r == q * (60.0 * r);
    assert (k / r - 60.0 * q) * r == c;
  }

  lemma RoundExact(c: nat, p: real, x: real)
    requires p > 0.0 && x == c as real / p
    ensures x >= 0.0 && Rounded(x, p) == c
  {
    assert x * p == c as real;
    assert (c as real + 0.5).Floor == c;
  }

  // %.<f>f prints a whole number of units exactly.
  lemma FixedPointExact(c: nat, f: nat, x: real)
    requires x == c as real / Pow10(f) as real
    ensures x >= 0.0 && FixedPoint(x, f) == CountText(c, f)
  {
    hide CountText, Pow10, Rounded;
    RoundExact(c, Pow10(f) as real, x);
  }

  // fmod(m, 60) of a whole number
  lemma MinutesPart(m: nat)
    ensures FMod(m as real, 60.0).Floor == Remainder(m, 60)
    ensures (m as real / 60.0).Floor == Quotient(m, 60)
  {
    FloorQuotient(m, 60);
    assert m == m / 60 * 60 + m % 60;
    assert m as real - 60.0 * (m / 60) as real == (m % 60) as real;
  }

  // ---------- the code ----------

  // sprintf into a buffer from position at on
  method Put(s: array<char>, at: nat, text: string)
    requires at + |text| < s.Length
    modifies s
    ensures s[..at] == old(s[..at])
    ensures s[..] == old(s[..at]) + text + [NUL] + old(s[at + |text| + 1..])
  {
    var i := 0;
    while i < |text|
      invariant 0 <= i <= |text|
      invariant forall k :: 0 <= k < i ==> s[at + k] == text[k]
      invariant forall k :: 0 <= k < at || at + i <= k < s.Length ==> s[k] == old(s[k])
    {
      s[at + i] := text[i];
      i := i + 1;
    }
    s[at + i] := NUL;
  }

  // Remove the zeros at the end of body, and a point before them, in place: body is
  // preceded by pre and followed by post.
  method TrimInPlace(s: array<char>, ghost pre: string, ghost body: string, ghost post: string, last: nat)
    requires Holds(s[..], pre + body + post)
    requires ZerosEnd(body) > 0 && last + 1 == |pre| + |body|
    modifies s
    ensures Holds(s[..], pre + Trimmed(body) + post)
  {
    ghost var z := ZerosEnd(body);
    Layout(s[..], pre, body, post);
    var p := last;
    while s[p] == '0'
      invariant |pre| + z - 1 <= p <= last
      decreases p
    {
      p := p - 1;
    }
    assert p == |pre| + z - 1;
    if s[p] != '.' {
      p := p + 1;
    }
    assert p == |pre| + |Trimmed(body)|;
    var q := last + 1;
    if q != p {
      MoveDown(s, p, q, post);
    }
    Reassemble(old(s[..]), s[..], pre, body, post);
  }

  // strcpy of the string at q to the place p before it
  method MoveDown(s: array<char>, p: nat, q: nat, ghost post: string)
    requires p < q && q + |post| < s.Length && Stands(s[..], q, post) && NoNul(post) && s[q + |post|] == NUL
    modifies s
    ensures s[..p] == old(s[..p])
    ensures p + |post| < s.Length && Stands(s[..], p, post) && s[p + |post|] == NUL
  {
    ghost var a := s[..];
    forall i | q <= i < q + |post|
      ensures a[i] == post[i - q] != NUL
    {
      assert a[q + (i - q)] == post[i - q];
    }
    var j := 0;
    while s[q + j] != NUL
      invariant 0 <= j <= |post|
      invariant forall k :: 0 <= k < j ==> s[p + k] == post[k]
      invariant forall k :: 0 <= k < p || q + j <= k < s.Length ==> s[k] == a[k]
      decreases |post| - j
    {
      s[p + j] := s[q + j];
      j := j + 1;
    }
    s[p + j] := NUL;
  }

  lemma Layout(b: seq<char>, pre: string, body: string, post: string)
    requires Holds(b, pre + body + post)
    ensures var n := |pre| + |body|;
      && n + |post| < |b| && b[..|pre|] == pre && NoNul(pre) && NoNul(body) && NoNul(post)
      && Stands(b, |pre|, body) && Stands(b, n, post) && b[n + |post|] == NUL
      && (forall i :: 0 <= i < |body| ==> b[|pre| + i] == body[i])
  {
    var t := pre + body + post;
    assert forall i :: 0 <= i < |t| ==> b[i] == b[..|t|][i] == t[i];
    assert forall i :: 0 <= i < |pre| ==> t[i] == pre[i];
    assert forall i :: 0 <= i < |body| ==> t[|pre| + i] == body[i];
    assert forall i :: 0 <= i < |post| ==> t[|pre| + |body| + i] == post[i];
  }

  lemma Reassemble(a: seq<char>, b: seq<char>, pre: string, body: string, post: string)
    requires Holds(a, pre + body + post)
    requires var n := |pre| + |Trimmed(body)|;
      && n + |post| < |b| == |a| && b[..n] == a[..n] && Stands(b, n, post) && b[n + |post|] == NUL
    ensures Holds(b, pre + Trimmed(body) + post)
  {
    Layout(a, pre, body, post);
    TrimmedPrefix(body);
    hide Trimmed, Holds;
    HoldsParts(a, b, pre, Trimmed(body), body, post);
  }

  lemma TrimmedPrefix(body: string)
    ensures |Trimmed(body)| <= |body| && Trimmed(body) == body[..|Trimmed(body)|]
  {
  }

  lemma HoldsParts(a: seq<char>, b: seq<char>, pre: string, t: string, body: string, post: string)
    requires |t| <= |body| && t == body[..|t|] && NoNul(pre) && NoNul(body) && NoNul(post)
    requires |pre| + |body| <= |a| == |b| && a[..|pre|] == pre && Stands(a, |pre|, body)
    requires var n := |pre| + |t|;
      n + |post| < |b| && b[..n] == a[..n] && Stands(b, n, post) && b[n + |post|] == NUL
    ensures Holds(b, pre + t + post)
  {
    var u := pre + t + post;
    forall i | 0 <= i < |u|
      ensures b[i] == u[i] != NUL
    {
      if i < |pre| {
        assert b[..|pre| + |t|][i] == a[..|pre|][i];
      } else if i < |pre| + |t| {
        assert b[..|pre| + |t|][i] == a[i] == a[|pre| + (i - |pre|)] == body[i - |pre|];
      } else {
        assert b[|pre| + |t| + (i - |pre| - |t|)] == post[i - |pre| - |t|];
      }
    }
    assert b[..|u|] == u;
  }

  // ---------- the printer and its settings ----------

  // the text of Body without its tail, and before trimming
  function Unsigned(k: nat, f: nat, long: bool): (t: string)
    ensures NoNul(t)
  {
    var c, min, deg := SecOf(k, Pow10(f)), MinOf(k, Pow10(f)), DegOf(k, Pow10(f));
    PaddedPlain(c, f);
    if long then
      Digits(deg) + "d" + Padded(Digits(min), 2) + "'" + Padded(CountText(c, f), Width(f)) + "\""
    else if c != 0 then Head(deg, min) + CountText(c, f) + "\""
    else if min != 0 then Head(deg, min)
    else Digits(deg) + "d"
  }

  // room for every angle whose degrees fit 32 bits
  const ROOM: nat := 30

  lemma QuotientBelow(c: nat, p: nat, n: nat)
    requires p >= 1 && c < n * p
    ensures Quotient(c, p) < n
  {
    var q := c / p;
    assert c == q * p + c % p;
    ProductBelow(q, n, p);
  }

  lemma ProductBelow(q: nat, n: nat, p: nat)
    requires q * p < n * p
    ensures q < n
  {
  }

  lemma CountTextWidth(c: nat, f: nat)
    requires c < 60 * Pow10(f)
    ensures |CountText(c, f)| <= Width(f)
  {
    hide Pow10, Digits, FixedDigits, Quotient, Remainder;
    QuotientBelow(c, Pow10(f), 60);
    TwoDigits();
    DigitsWidth(Quotient(c, Pow10(f)), 2);
  }

  lemma DegreesWidth(deg: nat)
    requires deg < 0x8000_0000
    ensures |Digits(deg)| <= 10
  {
    assert Pow10(10) == 10_000_000_000 by {
      assert Pow10(5) == 100000;
      assert Pow10(7) == 10_000_000;
    }
    DigitsWidth(deg, 10);
  }

  lemma UnsignedWidth(k: nat, f: nat, long: bool)
    requires f < 9 && DegOf(k, Pow10(f)) < 0x8000_0000
    ensures |Unsigned(k, f, long)| <= ROOM - 3
  {
    hide Pow10, CountText, SecOf, MinOf, DegOf, NoNul;
    DegreesWidth(DegOf(k, Pow10(f)));
    TwoDigits();
    DigitsWidth(MinOf(k, Pow10(f)), 2);
    CountTextWidth(SecOf(k, Pow10(f)), f);
  }

  lemma TwoDigits()
    ensures Pow10(2) == 100
  {
  }

  // What sprintf leaves behind pre, sign NUL or not.
  lemma PutHolds(b: seq<char>, pre: string, text: string, sign: char)
    requires NoNul(pre) && NoNul(text)
    requires |pre| + |text| + 2 <= |b|
    requires b[..|pre| + |text| + 2] == pre + (text + [sign]) + [NUL]
    ensures Holds(b, pre + (text + LetterText(sign)))
  {
    var u, v := pre + (text + LetterText(sign)), pre + (text + [sign]) + [NUL];
    assert b[..|u|] == u by {
      assert b[..|u|] == v[..|u|];
    }
    assert b[|u|] == v[|u|];
  }

  // degrees and minutes of the short format
  function Head(deg: nat, min: nat): (h: string)
    ensures NoNul(h)
  {
    Digits(deg) + "d" + Digits(min) + "'"
  }

  lemma PaddedPlain(c: nat, f: nat)
    ensures NoNul(CountText(c, f)) && NoNul(Padded(CountText(c, f), Width(f)))
  {
  }

  // A character that is no zero stops the trimming.
  lemma StopsAt(s: string, i: nat)
    requires i < |s| && s[i] != '0'
    ensures ZerosEnd(s) > 0
  {
  }

  lemma CountTextStop(c: nat, f: nat) returns (i: nat)
    requires c > 0
    ensures i < |CountText(c, f)| && CountText(c, f)[i] != '0'
  {
    hide Digits, FixedDigits, Remainder;
    var p := Pow10(f);
    var d := Digits(Quotient(c, p));
    if f > 0 {
      i := |d|;
    } else {
      i := 0;
      FirstDigit(c);
      assert CountText(c, f) == d + "" == d;
    }
  }

  // The point, or without one the first digit of a positive number, is no zero.
  lemma TrimStops(c: nat, f: nat)
    requires c > 0
    ensures ZerosEnd(CountText(c, f)) > 0
  {
    hide CountText;
    var i := CountTextStop(c, f);
    StopsAt(CountText(c, f), i);
  }

  lemma Regroup(pre: string, head: string, body: string, tail: string)
    ensures pre + (head + body + "\"" + tail) == (pre + head) + body + ("\"" + tail)
  {
  }

  class Printer {
    // radians in a second
    const unit: real
    var res: nat
    var res60: nat
    var conv: real
    // the precision and the zero padding written into the format
    var fract: nat
    var wide: bool
    var dolong: bool

    ghost predicate Valid()
      reads this
    {
      && unit > 0.0 && fract < 9 && res == Pow10(fract) && res60 == 60 * res
      && conv == res as real / unit && conv > 0.0 && dolong == wide
    }

    constructor (unit: real)
      requires unit > 0.0
      ensures Valid() && this.unit == unit && fract == 3 && !wide
    {
      this.unit := unit;
      res, res60, conv := 1000, 60000, 1000.0 / unit;
      fract, wide, dolong := 3, false, false;
      new;
      PositiveQuotient(1000.0, unit);
      assert Pow10(3) == 10 * (10 * (10 * Pow10(0)));
    }

    // set_rtodms: other values of fract are ignored
    method Set(fract: int, conW: bool)
      requires Valid()
      modifies this
      ensures Valid()
      ensures if 0 <= fract < 9 then this.fract == fract && wide == conW
              else this.fract == old(this.fract) && wide == old(wide)
    {
      if 0 <= fract < 9 {
        res := 1;
        var i := 0;
        while i < fract
          invariant 0 <= i <= fract && res == Pow10(i)
        {
          res := res * 10;
          i := i + 1;
        }
        res60 := res * 60;
        PositiveQuotient(res as real, unit);
        conv := res as real / unit;
        this.fract, wide := fract, conW;
        dolong := conW;
      }
    }

    // the angle as degrees, minutes and seconds
    method Parts(k: nat) returns (deg: nat, min: nat, sec: real)
      requires Valid()
      ensures deg == DegOf(k, res) && min == MinOf(k, res) && sec >= 0.0
      ensures sec == SecOf(k, res) as real / res as real
      ensures FixedPoint(sec, fract) == CountText(SecOf(k, res), fract)
    {
      SecondsPart(k, res);
      sec := FMod(k as real / res as real, 60.0);
      FixedPointExact(SecOf(k, res), fract, sec);
      FloorQuotient(k, res60);
      var m: nat := (k as real / res60 as real).Floor;
      MinutesPart(m);
      min := FMod(m as real, 60.0).Floor;
      deg := (m as real / 60.0).Floor;
    }

    // rtodms without the sign: write the angle of k units at position at
    method WriteAngle(s: array<char>, at: nat, k: nat, sign: char)
      requires Valid() && at <= 1 && s.Length >= ROOM
      requires DegOf(k, res) < 0x8000_0000 && NoNul(s[..at])
      modifies s
      ensures Holds(s[..], old(s[..at]) + Body(k, fract, dolong, LetterText(sign)))
    {
      ghost var pre := s[..at];
      var deg, min, sec := Parts(k);
      UnsignedWidth(k, fract, dolong);
      SecZero(SecOf(k, res), res, sec);
      if dolong {
        Put(s, at, Digits(deg) + "d" + Padded(Digits(min), 2) + "'"
                   + Padded(FixedPoint(sec, fract), Width(fract)) + "\"" + [sign]);
        PutHolds(s[..], pre, Unsigned(k, fract, true), sign);
      } else if sec != 0.0 {
        Put(s, at, Digits(deg) + "d" + Digits(min) + "'" + FixedPoint(sec, fract) + "\"" + [sign]);
        PutHolds(s[..], pre, Unsigned(k, fract, false), sign);
        TrimWritten(s, pre, deg, min, SecOf(k, res), sign);
      } else if min != 0 {
        Put(s, at, Digits(deg) + "d" + Digits(min) + "'" + [sign]);
        PutHolds(s[..], pre, Unsigned(k, fract, false), sign);
      } else {
        Put(s, at, Digits(deg) + "d" + [sign]);
        PutHolds(s[..], pre, Unsigned(k, fract, false), sign);
      }
    }

    method TrimWritten(s: array<char>, ghost pre: string, ghost deg: nat, ghost min: nat, ghost c: nat, sign: char)
      requires c > 0
      requires Holds(s[..], pre + (Head(deg, min) + CountText(c, fract) + "\"" + LetterText(sign)))
      modifies s
      ensures Holds(s[..], pre + (Head(deg, min) + Trimmed(CountText(c, fract)) + "\"" + LetterText(sign)))
    {
      hide Holds, Head, CountText, Trimmed, ZerosEnd;
      ghost var head, body, post := Head(deg, min), CountText(c, fract), "\"" + LetterText(sign);
      Regroup(pre, head, body, LetterText(sign));
      Regroup(pre, head, Trimmed(body), LetterText(sign));
      var n := StrLen(s, pre + head + body + post);
      TrimStops(c, fract);
      TrimInPlace(s, pre + head, body, post, n - if sign != NUL then 3 else 2);
    }

    // The minus sign or the letter: what stands before the angle and what comes behind it.
    method WriteSign(s: array<char>, r: real, pos: char, neg: char) returns (a: real, at: nat, sign: char)
      requires s.Length >= ROOM
      modifies s
      ensures a == Size(r) && at <= 1 && s[..at] == Prefix(r, pos) && NoNul(s[..at])
      ensures LetterText(sign) == LetterText(SignOf(r, pos, neg))
    {
      a, at, sign := r, 0, pos;
      if r < 0.0 {
        a := -r;
        if pos == NUL {
          s[0] := '-';
          at, sign := 1, NUL;
        } else {
          sign := neg;
        }
      }
    }

    // rtodms
    method Write(s: array<char>, r: real, pos: char, neg: char)
      requires Valid() && s.Length >= ROOM
      requires DegOf(Count(r, conv), res) < 0x8000_0000
      modifies s
      ensures Holds(s[..], Text(r, Count(r, conv), fract, dolong, pos, neg))
    {
      hide Body, DegOf, SignOf, LetterText, Prefix, Holds, Pow10, Rounded, Size;
      var a, at, sign := WriteSign(s, r, pos, neg);
      RoundedNonneg(a, conv);
      WriteAngle(s, at, Rounded(a, conv), sign);
    }
  }

  lemma PositiveQuotient(a: real, b: real)
    requires a > 0.0 && b > 0.0
    ensures a / b > 0.0
  {
    assert a / b * b == a;
  }

  lemma SecZero(c: nat, res: nat, sec: real)
    requires res >= 1 && sec == c as real / res as real
    ensures sec == 0.0 <==> c == 0
  {
    assert sec * res as real == c as real;
  }
}
