/** dmstor_ctx of dmstor.c: read an angle in degrees, minutes and seconds. */
module Dmstor {
  import opened CStrings
  import opened Decimal

  const MAX_WORK: nat := 64
  const SYM: string := "NnEeSsWw"

  // failure, or the angle and how many characters were used after leading blanks
  datatype Parsed = Failed | Angle(v: real, blanks: nat, used: nat)

  predicate IsSpace(c: char) {
    c == ' ' || '\t' <= c <= '\r'
  }

  predicate IsGraph(c: char) {
    '!' <= c <= '~'
  }

  // radians in a degree, a minute and a second, given those in a second
  function Vm(unit: real, n: nat): real {
    if n == 0 then 3600.0 * unit else if n == 1 then 60.0 * unit else unit
  }

  // a field of number n contributes
  function Term(unit: real, n: nat, tv: real): real {
    tv * Vm(unit, n)
  }

  // ---------- the fields ----------

  datatype Fields = Bad | Got(v: real, at: nat)

  // which field the character behind a number announces
  datatype Mark = Degrees | Minutes | Seconds | Radians | NoMark

  function MarkAt(s: string, e: nat): (m: Mark)
    ensures m != NoMark ==> e < |s|
  {
    if e >= |s| then NoMark
    else if s[e] in "Dd" then Degrees
    else if s[e] == '\'' then Minutes
    else if s[e] == '"' then Seconds
    else if s[e] in "rR" then Radians
    else NoMark
  }

  function FieldNumber(m: Mark): nat
    requires m.Degrees? || m.Minutes? || m.Seconds?
  {
    if m.Degrees? then 0 else if m.Minutes? then 1 else 2
  }

  predicate NumberStarts(s: string, i: nat) {
    i < |s| && (IsDigit(s[i]) || s[i] == '.')
  }

  // the fields from position i on, none of them of a lower number than nl
  function ReadFields(s: string, i: nat, nl: nat, v: real, unit: real): Fields
    requires i <= |s|
    decreases 3 - nl
  {
    if nl >= 3 || !NumberStarts(s, i) then Got(v, i)
    else
      var (tv, e) := StrToD(s, i);
      match MarkAt(s, e)
      case Radians => if nl > 0 then Bad else Got(tv, e + 1)
      case NoMark => Got(v + Term(unit, nl, tv), e)
      case m =>
        var n := FieldNumber(m);
        if n < nl then Bad else ReadFields(s, e + 1, n + 1, v + Term(unit, n, tv), unit)
  }

  // ---------- the whole string ----------

  function SpacesEnd(s: string, i: nat): (e: nat)
    requires i <= |s|
    ensures i <= e <= |s|
    decreases |s| - i
  {
    if i < |s| && IsSpace(s[i]) then SpacesEnd(s, i + 1) else i
  }

  // where copying into the work space stops, n characters still fitting
  function CopyEnd(s: string, i: nat, n: nat): (e: nat)
    requires i <= |s|
    ensures i <= e <= |s| && e <= i + n
    decreases n
  {
    if n > 0 && i < |s| && IsGraph(s[i]) then CopyEnd(s, i + 1, n - 1) else i
  }

  function WorkText(s: string): string {
    var b := SpacesEnd(s, 0);
    s[b..CopyEnd(s, b, MAX_WORK - 1)]
  }

  predicate Negative(c: char) {
    c in "SsWw"
  }

  // an angle from the work space, after blanks that were skipped
  function ParseWork(w: string, blanks: nat, unit: real): Parsed {
    var signed := w != "" && w[0] in "+-";
    match ReadFields(w, if signed then 1 else 0, 0, 0.0, unit)
    case Bad => Failed
    case Got(v, at) =>
      var letter := at < |w| && w[at] in SYM;
      var minus := if letter then Negative(w[at]) else signed && w[0] == '-';
      Angle(if minus then -v else v, blanks, if letter then at + 1 else at)
  }

  function Parse(s: string, unit: real): Parsed {
    ParseWork(WorkText(s), SpacesEnd(s, 0), unit)
  }

  // ---------- what reading means ----------

  // a number and the character behind it
  datatype Token = Token(value: real, mark: Mark)

  // The numbers that stand one behind the other from position i on, whatever their order, and
  // where they end.  Anything but a degree or minute mark behind a number ends them.
  function Tokens(s: string, i: nat): (r: (seq<Token>, nat))
    requires i <= |s|
    ensures i <= r.1 <= |s|
    ensures forall k :: 0 <= k < |r.0| - 1 ==> r.0[k].mark.Degrees? || r.0[k].mark.Minutes?
    decreases |s| - i
  {
    if !NumberStarts(s, i) then ([], i)
    else
      var (tv, e) := StrToD(s, i);
      match MarkAt(s, e)
      case Degrees => var r := Tokens(s, e + 1); ([Token(tv, Degrees)] + r.0, r.1)
      case Minutes => var r := Tokens(s, e + 1); ([Token(tv, Minutes)] + r.0, r.1)
      case NoMark => ([Token(tv, NoMark)], e)
      case m => ([Token(tv, m)], e + 1)
  }

  // The place of a number: the one its mark names, or the one after its predecessor's.
  function Place(t: seq<Token>, k: nat): nat
    requires k < |t|
  {
    match t[k].mark
    case Degrees => 0
    case Minutes => 1
    case Seconds => 2
    case _ => if k == 0 then 0 else Place(t, k - 1) + 1
  }

  // The places rise, and only the first number is one of radians.
  ghost predicate InOrder(t: seq<Token>) {
    && (forall j, k :: 0 <= j < k < |t| ==> Place(t, j) < Place(t, k))
    && (forall k :: 0 < k < |t| ==> !t[k].mark.Radians?)
  }

  // the last of the first k numbers that has place n, or 0
  function Quantity(t: seq<Token>, n: nat, k: nat): real
    requires k <= |t|
  {
    if k == 0 then 0.0 else if Place(t, k - 1) == n then t[k - 1].value else Quantity(t, n, k - 1)
  }

  // so many degrees, minutes and seconds
  function Total(t: seq<Token>, k: nat, unit: real): real
    requires k <= |t|
  {
    Term(unit, 0, Quantity(t, 0, k)) + Term(unit, 1, Quantity(t, 1, k)) + Term(unit, 2, Quantity(t, 2, k))
  }

  function Magnitude(t: seq<Token>, unit: real): real {
    if t != [] && t[0].mark.Radians? then t[0].value else Total(t, |t|, unit)
  }

  lemma {:induction false} QuantityAbsent(t: seq<Token>, n: nat, k: nat)
    requires k <= |t| && forall j :: 0 <= j < k ==> Place(t, j) != n
    ensures Quantity(t, n, k) == 0.0
  {
    if k > 0 {
      QuantityAbsent(t, n, k - 1);
    }
  }

  // A number in a place that was still free adds its term.
  lemma AmountNext(t: seq<Token>, k: nat, unit: real)
    requires k < |t| && Place(t, k) < 3 && forall j :: 0 <= j < k ==> Place(t, j) < Place(t, k)
    ensures Total(t, k + 1, unit) == Total(t, k, unit) + Term(unit, Place(t, k), t[k].value)
  {
    hide Place;
    QuantityAbsent(t, Place(t, k), k);
  }

  // the place that comes after the first k numbers
  function NextPlace(t: seq<Token>, k: nat): nat
    requires k <= |t|
  {
    if k == 0 then 0 else Place(t, k - 1) + 1
  }

  // k numbers are read, in order, and those behind them are still to come
  ghost predicate Reading(s: string, i: nat, at: nat, t: seq<Token>, k: nat) {
    && i <= |s| && k <= |t| && Tokens(s, i) == (t[k..], at)
    && (forall j :: 0 <= j < k ==> t[j].mark.Degrees? || t[j].mark.Minutes?)
    && (forall j, m :: 0 <= j < m < k ==> Place(t, j) < Place(t, m))
  }

  // What one number contributes to the list.
  lemma TokensStep(s: string, i: nat, tv: real, e: nat, m: Mark)
    requires i <= |s| && NumberStarts(s, i) && StrToD(s, i) == (tv, e) && m == MarkAt(s, e)
    ensures i <= e <= |s| && (m != NoMark ==> e < |s|)
    ensures m.Degrees? || m.Minutes?
      ==> Tokens(s, i) == ([Token(tv, m)] + Tokens(s, e + 1).0, Tokens(s, e + 1).1)
    ensures !(m.Degrees? || m.Minutes?) ==> Tokens(s, i) == ([Token(tv, m)], if m.NoMark? then e else e + 1)
  {
    hide StrToD, MarkAt, NumberStarts;
  }

  lemma TokensStop(s: string, i: nat)
    requires i <= |s| && !NumberStarts(s, i)
    ensures Tokens(s, i) == ([], i)
  {
  }

  // Everything read before the last number was in order.
  lemma OrderAtEnd(t: seq<Token>)
    requires |t| > 0
    requires forall j, m :: 0 <= j < m < |t| - 1 ==> Place(t, j) < Place(t, m)
    requires forall j :: 0 <= j < |t| - 1 ==> t[j].mark.Degrees? || t[j].mark.Minutes?
    ensures InOrder(t) <==>
      |t| == 1 || (!t[|t| - 1].mark.Radians? && Place(t, |t| - 2) < Place(t, |t| - 1))
  {
    hide Place;
  }

  // The last number of the list.
  lemma ReadLast(s: string, i: nat, at: nat, t: seq<Token>, unit: real, tv: real, e: nat, m: Mark)
    requires |t| > 0 && Reading(s, i, at, t, |t| - 1) && NumberStarts(s, i)
    requires StrToD(s, i) == (tv, e) && m == MarkAt(s, e) && !m.Degrees? && !m.Minutes?
    requires t[|t| - 1] == Token(tv, m) && at == if m.NoMark? then e else e + 1
    ensures ReadFields(s, i, NextPlace(t, |t| - 1), Total(t, |t| - 1, unit), unit)
         == if InOrder(t) then Got(Magnitude(t, unit), at) else Bad
  {
    hide StrToD, MarkAt, NumberStarts, Term, Total, ReadFields, InOrder, Tokens;
    var k := |t| - 1;
    LowPlace(t, k);
    ReadFieldsStep(s, i, NextPlace(t, k), Total(t, k, unit), unit, tv, e, m);
    OrderAtEnd(t);
    if !m.Radians? && InOrder(t) {
      InOrderPlaces(t);
      if m.Seconds? {
        ReadFieldsStop3(s, e + 1, Total(t, k, unit) + Term(unit, 2, tv), unit);
      }
      AmountNext(t, k, unit);
    }
  }

  lemma InOrderPlaces(t: seq<Token>)
    requires InOrder(t)
    ensures forall j, k :: 0 <= j < k < |t| ==> Place(t, j) < Place(t, k)
  {
  }

  lemma ReadFieldsStop3(s: string, i: nat, v: real, unit: real)
    requires i <= |s|
    ensures ReadFields(s, i, 3, v, unit) == Got(v, i)
  {
  }

  // Behind degrees and minutes in order there is still a place.
  lemma LowPlace(t: seq<Token>, k: nat)
    requires k <= |t| && forall j :: 0 <= j < k ==> t[j].mark.Degrees? || t[j].mark.Minutes?
    ensures NextPlace(t, k) < 3
    ensures k < |t| && !t[k].mark.Radians? ==> Place(t, k) < 3
    ensures k < |t| && (t[k].mark.NoMark? || t[k].mark.Radians?) ==> Place(t, k) == NextPlace(t, k)
  {
  }

  // The number read next is the next of the list.
  lemma ReadingNext(s: string, i: nat, at: nat, t: seq<Token>, k: nat, tv: real, e: nat, m: Mark)
    requires Reading(s, i, at, t, k) && NumberStarts(s, i) && StrToD(s, i) == (tv, e) && m == MarkAt(s, e)
    ensures k < |t| && t[k] == Token(tv, m)
    ensures m.Degrees? || m.Minutes? ==> e < |s| && (
      k == 0 || Place(t, k) > Place(t, k - 1) ==> Reading(s, e + 1, at, t, k + 1))
    ensures !(m.Degrees? || m.Minutes?) ==> |t| == k + 1 && at == (if m.NoMark? then e else e + 1)
  {
    hide StrToD, MarkAt, NumberStarts, Tokens, Place;
    TokensStep(s, i, tv, e, m);
    assert t[k..][0] == Token(tv, m);
    if m.Degrees? || m.Minutes? {
      assert Tokens(s, e + 1).0 == t[k..][1..] == t[k + 1..];
      if k == 0 || Place(t, k) > Place(t, k - 1) {
        RisingNext(t, k);
      }
    }
  }

  lemma ReadingEnd(s: string, i: nat, at: nat, t: seq<Token>, k: nat)
    requires Reading(s, i, at, t, k) && !NumberStarts(s, i)
    ensures |t| == k && at == i && InOrder(t) && forall unit: real :: Magnitude(t, unit) == Total(t, k, unit)
  {
    hide NumberStarts, Tokens, Place, Total;
    TokensStop(s, i);
    assert t[k..] == [];
    NothingLeft(t);
  }

  // From there on the loop gives the amount of all numbers exactly if they are in order.
  lemma {:induction false} ReadFrom(s: string, i: nat, at: nat, t: seq<Token>, k: nat, unit: real)
    requires Reading(s, i, at, t, k)
    ensures ReadFields(s, i, NextPlace(t, k), Total(t, k, unit), unit)
         == if InOrder(t) then Got(Magnitude(t, unit), at) else Bad
    decreases |t| - k
  {
    hide *;
    ReadingPlace(s, i, at, t, k);
    if !NumberStarts(s, i) {
      ReadingEnd(s, i, at, t, k);
      ReadFieldsStop(s, i, NextPlace(t, k), Total(t, k, unit), unit);
    } else {
      var (tv, e) := StrToD(s, i);
      var m := MarkAt(s, e);
      ReadingNext(s, i, at, t, k, tv, e, m);
      if m.Degrees? || m.Minutes? {
        ReadMarked(s, i, at, t, k, unit, tv, e, m);
        if k > 0 && Place(t, k) <= Place(t, k - 1) {
          OutOfOrder(t, k);
        } else {
          ReadFrom(s, e + 1, at, t, k + 1, unit);
        }
      } else {
        ReadLast(s, i, at, t, unit, tv, e, m);
      }
    }
  }

  lemma ReadingPlace(s: string, i: nat, at: nat, t: seq<Token>, k: nat)
    requires Reading(s, i, at, t, k)
    ensures i <= |s| && k <= |t|
  {
  }

  // One number of degrees or minutes.
  lemma ReadMarked(s: string, i: nat, at: nat, t: seq<Token>, k: nat, unit: real, tv: real, e: nat, m: Mark)
    requires k < |t| && Reading(s, i, at, t, k) && NumberStarts(s, i)
    requires StrToD(s, i) == (tv, e) && m == MarkAt(s, e) && (m.Degrees? || m.Minutes?) && t[k] == Token(tv, m)
    ensures e < |s| && ReadFields(s, i, NextPlace(t, k), Total(t, k, unit), unit)
      == if k > 0 && Place(t, k) <= Place(t, k - 1) then Bad
         else ReadFields(s, e + 1, NextPlace(t, k + 1), Total(t, k + 1, unit), unit)
  {
    hide StrToD, MarkAt, NumberStarts, Term, Total, ReadFields, InOrder, Tokens;
    LowPlace(t, k);
    ReadFieldsStep(s, i, NextPlace(t, k), Total(t, k, unit), unit, tv, e, m);
    if k == 0 || Place(t, k) > Place(t, k - 1) {
      AmountNext(t, k, unit);
    }
  }

  lemma NothingLeft(t: seq<Token>)
    requires forall j :: 0 <= j < |t| ==> t[j].mark.Degrees? || t[j].mark.Minutes?
    requires forall j, m :: 0 <= j < m < |t| ==> Place(t, j) < Place(t, m)
    ensures InOrder(t) && forall unit: real :: Magnitude(t, unit) == Total(t, |t|, unit)
  {
    hide Place, Total;
  }

  lemma OutOfOrder(t: seq<Token>, k: nat)
    requires 0 < k < |t| && Place(t, k) <= Place(t, k - 1)
    ensures !InOrder(t)
  {
    hide Place;
  }

  lemma RisingNext(t: seq<Token>, k: nat)
    requires k < |t| && (k == 0 || Place(t, k) > Place(t, k - 1))
    requires forall j, m :: 0 <= j < m < k ==> Place(t, j) < Place(t, m)
    ensures forall j, m :: 0 <= j < m < k + 1 ==> Place(t, j) < Place(t, m)
  {
    hide Place;
  }

  // The fields fail exactly when they are out of order, and otherwise sum up.
  lemma FieldsMeaning(s: string, i: nat, unit: real)
    requires i <= |s|
    ensures var (t, at) := Tokens(s, i);
      ReadFields(s, i, 0, 0.0, unit) == if InOrder(t) then Got(Magnitude(t, unit), at) else Bad
  {
    hide ReadFields, Tokens;
    var (t, at) := Tokens(s, i);
    assert t[0..] == t;
    ReadFrom(s, i, at, t, 0, unit);
  }

  // Reading fails exactly when the fields are out of order.  Otherwise it gives the sum of
  // the terms, negative if a hemisphere letter behind them says so or, without a letter, if
  // a minus sign stands in front.
  lemma ParseMeaning(s: string, unit: real)
    ensures var w := WorkText(s);
      var (t, at) := Tokens(w, if w != "" && w[0] in "+-" then 1 else 0);
      var letter := at < |w| && w[at] in SYM;
      var minus := if letter then w[at] in "SsWw" else w != "" && w[0] == '-';
      && (Parse(s, unit) == Failed <==> !InOrder(t))
      && (InOrder(t) ==>
        Parse(s, unit) == Angle(if minus then -Magnitude(t, unit) else Magnitude(t, unit),
                                SpacesEnd(s, 0), if letter then at + 1 else at))
  {
    hide Tokens, ReadFields, InOrder, Magnitude;
    var w := WorkText(s);
    FieldsMeaning(w, if w != "" && w[0] in "+-" then 1 else 0, unit);
  }

  // ---------- the code ----------

  method SkipSpaces(s: string) returns (i: nat)
    ensures i == SpacesEnd(s, 0)
  {
    i := 0;
    while i < |s| && IsSpace(s[i])
      invariant 0 <= i <= |s| && SpacesEnd(s, 0) == SpacesEnd(s, i)
    {
      i := i + 1;
    }
  }

  method CopyWork(s: string, b: nat) returns (work: array<char>, ghost w: string)
    requires b <= |s| && NoNul(s)
    ensures fresh(work) && w == s[b..CopyEnd(s, b, MAX_WORK - 1)]
    ensures Holds(work[..], w)
  {
    work := new char[MAX_WORK](_ => NUL);
    var p, n: nat := b, MAX_WORK - 1;
    while n > 0 && p < |s| && IsGraph(s[p])
      invariant b <= p <= |s| && n + (p - b) == MAX_WORK - 1
      invariant CopyEnd(s, b, MAX_WORK - 1) == CopyEnd(s, p, n)
      invariant forall k :: 0 <= k < p - b ==> work[k] == s[b + k]
    {
      work[p - b] := s[p];
      n := n - 1;
      p := p + 1;
    }
    work[p - b] := NUL;
    w := s[b..p];
    assert work[..p - b] == w;
  }

  lemma ReadFieldsStop(s: string, i: nat, nl: nat, v: real, unit: real)
    requires i <= |s| && (nl >= 3 || !NumberStarts(s, i))
    ensures ReadFields(s, i, nl, v, unit) == Got(v, i)
  {
  }

  // What one field leads to.
  lemma ReadFieldsStep(s: string, i: nat, nl: nat, v: real, unit: real, tv: real, e: nat, m: Mark)
    requires i <= |s| && nl < 3 && NumberStarts(s, i)
    requires StrToD(s, i) == (tv, e) && m == MarkAt(s, e)
    ensures ReadFields(s, i, nl, v, unit) ==
      if m.Radians? then (if nl > 0 then Bad else Got(tv, e + 1))
      else if m.NoMark? then Got(v + Term(unit, nl, tv), e)
      else if FieldNumber(m) < nl then Bad
      else ReadFields(s, e + 1, FieldNumber(m) + 1, v + Term(unit, FieldNumber(m), tv), unit)
  {
    hide StrToD, MarkAt, NumberStarts, Term;
  }

  // The loop over the fields.
  method Scan(w: string, start: nat, unit: real) returns (r: Fields)
    requires start <= |w|
    ensures r == ReadFields(w, start, 0, 0.0, unit)
  {
    hide StrToD, MarkAt, NumberStarts, Term, ReadFields;
    var s, v, nl: nat := start, 0.0, 0;
    while nl < 3
      invariant 0 <= s <= |w| && nl <= 5
      invariant if nl > 3 then ReadFields(w, start, 0, 0.0, unit) == Got(v, s)
                else ReadFields(w, start, 0, 0.0, unit) == ReadFields(w, s, nl, v, unit)
      decreases 5 - nl
    {
      if !NumberStarts(w, s) {
        ReadFieldsStop(w, s, nl, v, unit);
        return Got(v, s);
      }
      var (tv, e) := StrToD(w, s);
      var m := MarkAt(w, e);
      ReadFieldsStep(w, s, nl, v, unit, tv, e, m);
      s := e;
      var n;
      match m {
        case Radians =>
          if nl > 0 {
            return Bad;
          }
          s := s + 1;
          v := tv;
          nl := 5;
          continue;
        case NoMark =>
          v := v + Term(unit, nl, tv);
          nl := 5;
          continue;
        case Degrees =>
          n := 0;
        case Minutes =>
          n := 1;
        case Seconds =>
          n := 2;
      }
      if n < nl {
        return Bad;
      }
      v := v + Term(unit, n, tv);
      s := s + 1;
      nl := n + 1;
    }
    if nl == 3 {
      ReadFieldsStop(w, s, nl, v, unit);
    }
    return Got(v, s);
  }

  method Read(s: string, unit: real) returns (r: Parsed)
    requires NoNul(s)
    ensures r == Parse(s, unit)
  {
    hide ReadFields, SpacesEnd, CopyEnd, Holds;
    var b := SkipSpaces(s);
    var work, w0 := CopyWork(s, b);
    var n := StrLen(work, w0);
    HoldsText(work[..], w0);
    var w := work[..n];
    var start, sign := 0, '+';
    if work[0] == '+' || work[0] == '-' {
      start, sign := 1, work[0];
    }
    var fields := Scan(w, start, unit);
    if fields.Bad? {
      return Failed;
    }
    var v, at := fields.v, fields.at;
    if at < |w| && w[at] in SYM {
      sign := if Negative(w[at]) then '-' else '+';
      at := at + 1;
    }
    if sign == '-' {
      v := -v;
    }
    return Angle(v, b, at);
  }

  lemma HoldsText(b: seq<char>, w: string)
    requires Holds(b, w)
    ensures |w| < |b| && b[..|w|] == w
    ensures b[0] == if w == "" then NUL else w[0]
  {
    assert w != "" ==> b[..|w|][0] == b[0];
  }
}
