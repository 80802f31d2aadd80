/** Reading an angle of one number: plain decimal degrees, or with a mark behind them, in
    every form of a number, with a sign in front or a hemisphere letter behind. */
module AngleText {
  import opened Series
  import opened CStrings
  import opened Decimal
  import opened Dmstor
  import opened DmsRoundTrip

  predicate IsSign(sign: string) {
    sign == "" || sign == "+" || sign == "-"
  }

  predicate IsUnit(mark: string) {
    mark == "" || mark == "d" || mark == "D" || mark == "'" || mark == "\"" || mark == "r" || mark == "R"
  }

  predicate IsLetter(letter: string) {
    letter == "" || (|letter| == 1 && letter[0] in "NnEeSsWw")
  }

  // radians in one of the unit that a mark names; without a mark these are degrees
  function Weight(mark: string, unit: real): real
    requires IsUnit(mark)
  {
    if mark == "r" || mark == "R" then 1.0
    else if mark == "\"" then unit
    else if mark == "'" then 60.0 * unit
    else 3600.0 * unit
  }

  predicate IsNegative(sign: string, letter: string) {
    if letter == "" then sign == "-" else letter == "S" || letter == "s" || letter == "W" || letter == "w"
  }

  // the text and where its parts stand
  ghost predicate Written(w: string, sign: string, x: Number, mark: string, letter: string) {
    && w == sign + x.Shown() + mark + letter
    && IsSign(sign) && x.Ok() && IsUnit(mark) && IsLetter(letter)
  }

  lemma WrittenParts(w: string, sign: string, x: Number, mark: string, letter: string)
    requires Written(w, sign, x, mark, letter)
    ensures var i, e := |sign|, |sign| + |x.Shown()|;
      && e + |mark| + |letter| == |w| && Stands(w, i, x.Shown())
      && (mark != "" ==> w[e] == mark[0]) && w[e + |mark|..] == letter
      && (letter != "" ==> w[e + |mark|] == letter[0])
      && (sign != "" ==> w[0] == sign[0]) && (sign == "" && x.Shown() != "" ==> w[0] == x.Shown()[0])
  {
    FourParts(w, sign, x.Shown(), mark, letter);
  }

  lemma FourParts(w: string, a: string, b: string, c: string, d: string)
    requires w == a + b + c + d
    ensures |w| == |a| + |b| + |c| + |d| && Stands(w, |a|, b)
    ensures (c != "" ==> w[|a| + |b|] == c[0]) && w[|a| + |b| + |c|..] == d
    ensures (d != "" ==> w[|a| + |b| + |c|] == d[0])
    ensures (a != "" ==> w[0] == a[0]) && (a == "" && b != "" ==> w[0] == b[0])
  {
  }

  lemma NumberGraph(x: Number)
    requires x.Ok()
    ensures AllGraph(x.Shown())
  {
    match x
    case Whole(p) =>
    case Point(p, f) =>
    case Scaled(m, e, sign, g) => NumberGraph(m);
  }

  lemma WrittenGraph(w: string, sign: string, x: Number, mark: string, letter: string)
    requires Written(w, sign, x, mark, letter)
    ensures AllGraph(w)
  {
    NumberGraph(x);
  }

  // What ends the number is its mark, the letter, or the end of the text.
  lemma NumberEnds(w: string, e: nat, mark: string, letter: string)
    requires IsUnit(mark) && IsLetter(letter) && e + |mark| + |letter| == |w|
    requires (mark != "" ==> w[e] == mark[0]) && (letter != "" ==> w[e + |mark|] == letter[0])
    ensures EndsNumber(w, e) && !NumberStarts(w, e + |mark|)
    ensures match MarkAt(w, e)
      case Degrees => mark == "d" || mark == "D"
      case Minutes => mark == "'"
      case Seconds => mark == "\""
      case Radians => mark == "r" || mark == "R"
      case NoMark => mark == ""
  {
  }

  lemma TermWeight(unit: real, tv: real)
    ensures Term(unit, 0, tv) == Times(tv, 3600.0 * unit)
    ensures Term(unit, 1, tv) == Times(tv, 60.0 * unit)
    ensures Term(unit, 2, tv) == Times(tv, unit)
    ensures tv == Times(tv, 1.0)
  {
  }

  lemma OneNumber(w: string, i: nat, e: nat, x: Number, mark: string, letter: string, unit: real)
    requires x.Ok() && IsUnit(mark) && IsLetter(letter)
    requires Stands(w, i, x.Shown()) && e == i + |x.Shown()| && e + |mark| + |letter| == |w|
    requires (mark != "" ==> w[e] == mark[0]) && (letter != "" ==> w[e + |mark|] == letter[0])
    ensures ReadFields(w, i, 0, 0.0, unit) == Got(Times(x.Amount(), Weight(mark, unit)), |w| - |letter|)
  {
    hide ReadFields, StrToD, MarkAt, NumberStarts, Term, Stands, Times, EndsNumber;
    NumberEnds(w, e, mark, letter);
    NumberStartsThere(w, i, x);
    ReadNumber(w, i, x);
    TermWeight(unit, x.Amount());
    var m := MarkAt(w, e);
    ReadFieldsStep(w, i, 0, 0.0, unit, x.Amount(), e, m);
    match m {
      case Degrees => ReadFieldsStop(w, e + 1, 1, 0.0 + Term(unit, 0, x.Amount()), unit);
      case Minutes => ReadFieldsStop(w, e + 1, 2, 0.0 + Term(unit, 1, x.Amount()), unit);
      case Seconds => ReadFieldsStop(w, e + 1, 3, 0.0 + Term(unit, 2, x.Amount()), unit);
      case _ =>
    }
  }

  lemma SignAndLetter(w: string, sign: string, x: Number, mark: string, letter: string, v: real, unit: real)
    requires Written(w, sign, x, mark, letter) && |sign| <= |w|
    requires ReadFields(w, |sign|, 0, 0.0, unit) == Got(v, |w| - |letter|)
    ensures ParseWork(w, 0, unit) == Angle(if IsNegative(sign, letter) then -v else v, 0, |w|)
  {
    hide ReadFields;
    WrittenParts(w, sign, x, mark, letter);
    NumberFirst(x);
  }

  // The whole text is used, and the angle is the number in the unit of its mark.
  lemma ReadAngle(w: string, sign: string, x: Number, mark: string, letter: string, unit: real)
    requires IsUnit(mark) && Written(w, sign, x, mark, letter) && |w| < 64
    ensures var v := Times(x.Amount(), Weight(mark, unit));
      Parse(w, unit) == Angle(if IsNegative(sign, letter) then -v else v, 0, |w|)
  {
    hide ReadFields, AllGraph, ParseWork, WorkText, SpacesEnd, Times, Weight, Stands;
    WrittenGraph(w, sign, x, mark, letter);
    WorkWhole(w);
    WrittenParts(w, sign, x, mark, letter);
    OneNumber(w, |sign|, |sign| + |x.Shown()|, x, mark, letter, unit);
    SignAndLetter(w, sign, x, mark, letter, Times(x.Amount(), Weight(mark, unit)), unit);
  }

  // Blanks in front are skipped and counted.
  lemma ReadBehindSpaces(b: string, w: string, unit: real)
    requires forall i :: 0 <= i < |b| ==> b[i] in [' ', '\t', '\n', '\U{0b}', '\U{0c}', '\r']
    requires w != "" && IsGraph(w[0])
    ensures var r := Parse(w, unit);
      Parse(b + w, unit) == if r.Angle? then Angle(r.v, |b|, r.used) else Failed
  {
    hide ReadFields, CopyEnd;
    SpacesThere(b, w, 0);
    SpacesThere("", w, 0);
    assert "" + w == w;
    CopyShift(b, w, 0, MAX_WORK - 1);
    assert (b + w)[|b|..CopyEnd(b + w, |b|, MAX_WORK - 1)] == w[..CopyEnd(w, 0, MAX_WORK - 1)];
    assert w[0..CopyEnd(w, 0, MAX_WORK - 1)] == w[..CopyEnd(w, 0, MAX_WORK - 1)];
  }

  lemma {:induction false} SpacesThere(b: string, w: string, i: nat)
    requires forall j :: 0 <= j < |b| ==> IsSpace(b[j])
    requires i <= |b| && w != "" && IsGraph(w[0])
    ensures SpacesEnd(b + w, i) == |b|
    decreases |b| - i
  {
    if i < |b| {
      SpacesThere(b, w, i + 1);
    }
  }

  lemma {:induction false} CopyShift(b: string, w: string, i: nat, n: nat)
    requires i <= |w|
    ensures CopyEnd(b + w, |b| + i, n) == |b| + CopyEnd(w, i, n)
    decreases n
  {
    if n > 0 && i < |w| && IsGraph(w[i]) {
      assert (b + w)[|b| + i] == w[i];
      CopyShift(b, w, i + 1, n - 1);
    } else if i < |w| {
      assert (b + w)[|b| + i] == w[i];
    }
  }

  // The work space ends before the first character that is not printable, a blank included.
  lemma StopsAtUnprintable(w: string, c: char, rest: string, unit: real)
    requires AllPrintable(w) && 0 < |w| < 63 && !('!' <= c <= '~')
    ensures Parse(w + [c] + rest, unit) == Parse(w, unit)
  {
    hide ReadFields, ParseWork, SpacesEnd, CopyEnd;
    var s := w + [c] + rest;
    SpacesThere("", w, 0);
    SpacesThere("", s, 0);
    assert "" + w == w && "" + s == s;
    CopyUpTo(s, 0, 63, |w|);
    CopyUpTo(w, 0, 63, |w|);
    assert s[0..|w|] == w[0..|w|] == w;
  }

  predicate AllPrintable(w: string) {
    forall i :: 0 <= i < |w| ==> '!' <= w[i] <= '~'
  }

  lemma {:induction false} CopyUpTo(s: string, i: nat, n: nat, e: nat)
    requires i <= e <= |s| && e - i <= n && (forall j :: i <= j < e ==> '!' <= s[j] <= '~')
    requires e < |s| ==> !('!' <= s[e] <= '~')
    ensures CopyEnd(s, i, n) == e
    decreases n
  {
    if i < e {
      CopyUpTo(s, i + 1, n - 1, e);
    }
  }

  // Of a longer text only the first 63 characters are read.
  lemma ReadsSixtyThree(w: string, unit: real)
    requires AllGraph(w) && |w| >= 63
    ensures Parse(w, unit) == Parse(w[..63], unit)
  {
    hide ReadFields;
    CopyMost(w, 0, 63);
    CopyMost(w[..63], 0, 63);
    SpacesThere("", w, 0);
    SpacesThere("", w[..63], 0);
    assert "" + w == w && "" + w[..63] == w[..63];
    assert WorkText(w) == w[0..63] == w[..63] == w[..63][0..63] == WorkText(w[..63]);
  }

  lemma {:induction false} CopyMost(w: string, i: nat, n: nat)
    requires AllGraph(w) && i + n <= |w|
    ensures CopyEnd(w, i, n) == i + n
    decreases n
  {
    if n > 0 {
      CopyMost(w, i + 1, n - 1);
    }
  }

  // n units of the last of f decimals of a degree, written without a mark.
  lemma ReadDegrees(w: string, sign: string, n: nat, f: nat, letter: string, unit: real)
    requires w == sign + CountText(n, f) + letter && IsSign(sign) && IsLetter(letter) && |w| < 64
    ensures var v := Times(n as real / Pow10(f) as real, 3600.0 * unit);
      Parse(w, unit) == Angle(if IsNegative(sign, letter) then -v else v, 0, |w|)
  {
    hide Parse, CountText, Pow10, Times, Zeros;
    var x := CountNumber(n, f, 0);
    NoZeros(CountText(n, f));
    assert w == sign + x.Shown() + "" + letter;
    ReadAngle(w, sign, x, "", letter, unit);
  }
}
