/** Definition strings: pj_get_def of pj_pr_list.c prints the used parameters into
    a growing buffer, pj_init_plus_ctx of pj_init.c splits such a string in place. */
module ProjDef {
  import opened CStrings

  // ---------- printing ----------

  datatype Param = Param(param: string, used: bool)

  // those of the first k parameters that are printed
  function UsedTo(params: seq<Param>, k: nat): seq<string>
    requires k <= |params|
  {
    if k == 0 then []
    else UsedTo(params, k - 1) + if params[k - 1].used then [params[k - 1].param] else []
  }

  function Used(params: seq<Param>): seq<string> {
    UsedTo(params, |params|)
  }

  // idx names, in order, the used ones among the first k parameters, and no others
  ghost predicate UsedAt(params: seq<Param>, idx: seq<nat>, k: nat) {
    && (forall j :: 0 <= j < |idx| ==> idx[j] < k && idx[j] < |params| && params[idx[j]].used)
    && (forall i, j :: 0 <= i < j < |idx| ==> idx[i] < idx[j])
    && (forall i: nat :: i < k && i < |params| && params[i].used ==> i in idx)
  }

  // Exactly the parameters marked used are printed, in their order.
  lemma {:induction false} UsedExact(params: seq<Param>, k: nat) returns (idx: seq<nat>)
    requires k <= |params|
    ensures UsedAt(params, idx, k) && |UsedTo(params, k)| == |idx|
    ensures forall j :: 0 <= j < |idx| ==> UsedTo(params, k)[j] == params[idx[j]].param
  {
    hide UsedAt;
    idx := [];
    UsedAtNone(params);
    if k > 0 {
      idx := UsedExact(params, k - 1);
      UsedAtNext(params, idx, k - 1);
      if params[k - 1].used {
        idx := idx + [k - 1];
      }
    }
  }

  lemma UsedAtNone(params: seq<Param>)
    ensures UsedAt(params, [], 0)
  {
  }

  lemma UsedAtNext(params: seq<Param>, idx: seq<nat>, k: nat)
    requires k < |params| && UsedAt(params, idx, k)
    ensures UsedAt(params, if params[k].used then idx + [k] else idx, k + 1)
  {
    var next := idx + [k];
    forall i: nat | i < k + 1 && params[i].used
      ensures i in next
    {
      if i == k {
        assert next[|idx|] == i;
      } else {
        assert i in idx;
      }
    }
  }

  // the first k of the strings, each after a blank and a plus sign
  function DefTo(ps: seq<string>, k: nat): string
    requires k <= |ps|
  {
    if k == 0 then "" else DefTo(ps, k - 1) + " +" + ps[k - 1]
  }

  function Definition(ps: seq<string>): string {
    DefTo(ps, |ps|)
  }

  lemma {:induction false} DefToPrefix(ps: seq<string>, x: string, k: nat)
    requires k <= |ps|
    ensures DefTo(ps + [x], k) == DefTo(ps, k)
  {
    if k > 0 {
      DefToPrefix(ps, x, k - 1);
    }
  }

  lemma DefinitionSnoc(ps: seq<string>, x: string)
    ensures Definition(ps + [x]) == Definition(ps) + " +" + x
  {
    DefToPrefix(ps, x, |ps|);
  }

  // strcat: the buffer must have room for both strings and one terminator
  method StrCat(b: array<char>, t: string, ghost s: string)
    requires Holds(b[..], s) && NoNul(t) && |s| + |t| < b.Length
    modifies b
    ensures Holds(b[..], s + t)
  {
    var n := StrLen(b, s);
    var i := 0;
    while i < |t|
      invariant 0 <= i <= |t|
      invariant b[..n + i] == s + t[..i]
    {
      b[n + i] := t[i];
      i := i + 1;
    }
    b[n + i] := NUL;
    assert b[..n + i] == s + t[..i] == s + t;
  }

  // strcpy into a larger buffer
  method Enlarged(b: array<char>, size: nat, ghost s: string) returns (c: array<char>)
    requires Holds(b[..], s) && |s| < size
    ensures fresh(c) && c.Length == size && Holds(c[..], s)
  {
    c := new char[size](_ => NUL);
    var n := StrLen(b, s);
    for i := 0 to n
      invariant c[..i] == s[..i]
    {
      assert b[..][i] == s[i];
      c[i] := b[i];
    }
    c[n] := NUL;
    assert c[..n] == s[..n] == s;
  }

  // Append one parameter, moving to a larger buffer first when it might not fit.
  method AppendParam(definition: array<char>, param: string, ghost s: string) returns (d: array<char>)
    requires Holds(definition[..], s) && NoNul(param)
    modifies definition
    ensures d == definition || fresh(d)
    ensures Holds(d[..], s + " +" + param)
  {
    d := definition;
    var l := |param| + 1;
    var len := StrLen(d, s);
    if len + l + 5 > d.Length {
      d := Enlarged(d, d.Length * 2 + l + 5, s);
    }
    StrCat(d, " +", s);
    StrCat(d, param, s + " +");
  }

  // Print the used parameters, each after a blank and a plus sign.  Every write
  // stays inside the buffer, which grows as needed.
  method GetDef(params: seq<Param>) returns (definition: array<char>)
    requires forall i :: 0 <= i < |params| ==> NoNul(params[i].param)
    ensures Holds(definition[..], Definition(Used(params)))
  {
    definition := new char[10](_ => NUL);
    definition[0] := NUL;
    var k := 0;
    while k < |params|
      invariant 0 <= k <= |params|
      invariant fresh(definition)
      invariant Holds(definition[..], Definition(UsedTo(params, k)))
    {
      var t := params[k];
      ghost var ps := UsedTo(params, k);
      if t.used {
        definition := AppendParam(definition, t.param, Definition(ps));
        DefinitionSnoc(ps, t.param);
      } else {
        assert ps + [] == ps;
      }
      k := k + 1;
    }
  }

  // ---------- splitting ----------

  const MAX_ARG: nat := 200

  // the copy being cut up, the offsets of the arguments, pending trailing blanks
  datatype Split = Split(buf: seq<char>, argv: seq<nat>, blanks: nat)

  datatype Outcome = TooMany | Done(s: Split)

  predicate IsBlank(c: char) {
    c == ' ' || c == '\t' || c == '\n'
  }

  // the effect of the character at position i
  function Step(s: Split, i: nat): Outcome
    requires i < |s.buf| && s.blanks <= i
  {
    var c := s.buf[i];
    if c == '+' then
      if i == 0 || s.buf[i - 1] == NUL || s.blanks > 0 then
        var b := if s.blanks > 0 then s.buf[i - s.blanks := NUL] else s.buf;
        if |s.argv| + 1 == MAX_ARG then TooMany
        else Done(Split(b, s.argv + [i + 1], 0))
      else Done(s)
    else if IsBlank(c) then
      if i == 0 || s.buf[i - 1] == NUL || |s.argv| == 0 || s.argv[|s.argv| - 1] == i
      then Done(s.(buf := s.buf[i := NUL]))
      else Done(s.(blanks := s.blanks + 1))
    else Done(s.(blanks := 0))
  }

  function Start(definition: string): Split {
    Split(definition + [NUL], [], 0)
  }

  // The body of the loop: look at the character at i and cut the copy in place.
  method StepInPlace(copy: array<char>, argv: seq<nat>, blanks: nat, i: nat)
    returns (ok: bool, argv': seq<nat>, blanks': nat)
    requires i < copy.Length && blanks <= i
    modifies copy
    ensures ok <==> Step(Split(old(copy[..]), argv, blanks), i) != TooMany
    ensures ok ==> Step(Split(old(copy[..]), argv, blanks), i) == Done(Split(copy[..], argv', blanks'))
  {
    ghost var before := Split(copy[..], argv, blanks);
    ok, argv', blanks' := true, argv, blanks;
    var c := copy[i];
    if c == '+' {
      if i == 0 || copy[i - 1] == NUL || blanks > 0 {
        if blanks > 0 {
          copy[i - blanks] := NUL;
          blanks' := 0;
          assert copy[..] == before.buf[i - blanks := NUL];
        }
        if |argv| + 1 == MAX_ARG {
          return false, argv, blanks;
        }
        argv' := argv + [i + 1];
      }
    } else if IsBlank(c) {
      if i == 0 || copy[i - 1] == NUL || |argv| == 0 || argv[|argv| - 1] == i {
        copy[i] := NUL;
        assert copy[..] == before.buf[i := NUL];
      } else {
        blanks' := blanks + 1;
      }
    } else {
      blanks' := 0;
    }
  }

  // strcpy into a buffer of the right size
  method Copied(definition: string) returns (copy: array<char>)
    ensures fresh(copy) && copy[..] == definition + [NUL]
  {
    var n := |definition|;
    copy := new char[n + 1](_ => NUL);
    for k := 0 to n
      invariant copy[..k] == definition[..k] && copy[n] == NUL
    {
      copy[k] := definition[k];
    }
    assert definition[..n] == definition;
  }

  // ---------- what splitting means ----------

  // an argument starts behind a plus sign that is first or follows a blank
  predicate IsStart(text: string, i: nat)
    requires i < |text|
  {
    text[i] == '+' && (i == 0 || IsBlank(text[i - 1]))
  }

  // where the arguments start whose plus sign is among the first i characters
  function Starts(text: string, i: nat): (r: seq<nat>)
    requires i <= |text|
    ensures forall k :: 0 <= k < |r| ==> 1 <= r[k] <= i
    ensures forall k, l :: 0 <= k < l < |r| ==> r[k] < r[l]
  {
    if i == 0 then [] else Starts(text, i - 1) + if IsStart(text, i - 1) then [i] else []
  }

  // blanks at the end of text[a..e]
  function TrailingBlanks(text: string, a: nat, e: nat): (n: nat)
    requires a <= e <= |text|
    ensures n <= e - a && forall j :: e - n <= j < e ==> IsBlank(text[j])
    ensures n < e - a ==> !IsBlank(text[e - n - 1])
  {
    if a == e || !IsBlank(text[e - 1]) then 0 else 1 + TrailingBlanks(text, a, e - 1)
  }

  // where the argument that occupies text[a..e] ends: nothing is left of it when it
  // starts with a blank, otherwise the blanks at its end are dropped
  function ArgEnd(text: string, a: nat, e: nat): (z: nat)
    requires a <= e <= |text|
    ensures a <= z <= e
  {
    if a < e && IsBlank(text[a]) then a else e - TrailingBlanks(text, a, e)
  }

  // the end of what belongs to the k-th argument: the next plus sign, or the end
  function Limit(text: string, argv: seq<nat>, k: nat): nat
    requires k < |argv| && (k + 1 < |argv| ==> argv[k + 1] >= 1)
  {
    if k + 1 < |argv| then argv[k + 1] - 1 else |text|
  }

  // the k-th argument
  function ArgText(text: string, k: nat): string
    requires k < |Starts(text, |text|)|
  {
    var argv := Starts(text, |text|);
    StartInside(text, |text|, k);
    text[argv[k]..ArgEnd(text, argv[k], Limit(text, argv, k))]
  }

  // every start lies behind its plus sign, before the next one
  lemma {:induction false} StartInside(text: string, i: nat, k: nat)
    requires i <= |text| && k < |Starts(text, i)|
    ensures var argv := Starts(text, i);
      argv[k] <= Limit(text, argv, k) <= |text| && text[argv[k] - 1] == '+'
      && (k + 1 < |argv| ==> argv[k] < Limit(text, argv, k))
  {
    var argv := Starts(text, i);
    StartsArePlus(text, i, k);
    if k + 1 < |argv| {
      StartsArePlus(text, i, k + 1);
      assert argv[k] < argv[k + 1];
    }
  }

  lemma {:induction false} StartsArePlus(text: string, i: nat, k: nat)
    requires i <= |text| && k < |Starts(text, i)|
    ensures var p := Starts(text, i)[k] - 1; p < i && IsStart(text, p)
  {
    if k < |Starts(text, i - 1)| {
      StartsArePlus(text, i - 1, k);
    }
  }

  lemma {:induction false} NoStarts(text: string, i: nat, j: nat)
    requires i <= j <= |text| && forall m :: i <= m < j ==> !IsStart(text, m)
    ensures Starts(text, j) == Starts(text, i)
    decreases j
  {
    if i < j {
      NoStarts(text, i, j - 1);
    }
  }

  // ---------- splitting does it ----------

  // the argument text[a..e] stands in the buffer with its terminator
  ghost predicate ArgIn(buf: seq<char>, text: string, a: nat, e: nat) {
    && a <= e <= |text| && ArgEnd(text, a, e) < |buf| && buf[ArgEnd(text, a, e)] == NUL
    && forall j :: a <= j < ArgEnd(text, a, e) ==> buf[j] == text[j]
  }

  // blanks counted so far behind the last argument; those it starts with are not
  ghost function Pending(text: string, argv: seq<nat>, i: nat): nat
    requires i <= |text| && (argv != [] ==> argv[|argv| - 1] <= i)
  {
    if argv == [] then 0
    else
      var a := argv[|argv| - 1];
      var t := TrailingBlanks(text, a, i);
      if t == i - a then 0 else t
  }

  // the text behind the current position is untouched
  ghost predicate Ahead(text: string, i: nat, buf: seq<char>) {
    && i <= |text| && |buf| == |text| + 1 && buf[|text|] == NUL
    && forall j :: i <= j < |text| ==> buf[j] == text[j]
  }

  // the character just before it
  ghost predicate Behind(text: string, i: nat, s: Split)
    requires i <= |text| < |s.buf|
  {
    i > 0 ==>
      if IsBlank(text[i - 1]) && s.blanks == 0 then s.buf[i - 1] == NUL else s.buf[i - 1] == text[i - 1]
  }

  // the last argument so far
  ghost predicate LastArg(text: string, i: nat, s: Split)
    requires i <= |text| < |s.buf|
  {
    s.argv != [] ==>
      var a := s.argv[|s.argv| - 1];
      if a < i && IsBlank(text[a]) then s.buf[a] == NUL
      else forall j :: a <= j < i ==> s.buf[j] == text[j]
  }

  // the arguments before it
  ghost predicate DoneArgs(text: string, s: Split) {
    forall k :: 0 <= k < |s.argv| - 1 ==> DoneArg(text, s.buf, s.argv, k)
  }

  ghost predicate DoneArg(text: string, buf: seq<char>, argv: seq<nat>, k: int)
    requires 0 <= k < |argv| - 1
  {
    argv[k + 1] >= 1 && ArgIn(buf, text, argv[k], argv[k + 1] - 1)
  }

  ghost predicate Progress(text: string, i: nat, s: Split) {
    && Ahead(text, i, s.buf) && s.argv == Starts(text, i) && s.blanks == Pending(text, s.argv, i)
    && Behind(text, i, s) && LastArg(text, i, s) && DoneArgs(text, s)
  }

  // The guard of the plus case holds exactly at a start.
  lemma PlusGuard(text: string, i: nat, s: Split)
    requires NoNul(text) && i < |text| && Progress(text, i, s) && text[i] == '+'
    ensures (i == 0 || s.buf[i - 1] == NUL || s.blanks > 0) <==> IsStart(text, i)
    ensures s.blanks <= i && (i > 0 && !IsBlank(text[i - 1]) ==> s.blanks == 0)
  {
  }

  // A character behind an argument and its terminator does not matter to it.
  lemma ArgElsewhere(text: string, b: seq<char>, c: seq<char>, a: nat, e: nat)
    requires ArgIn(b, text, a, e) && |c| == |b|
    requires forall j :: 0 <= j <= e && j < |b| ==> c[j] == b[j]
    ensures ArgIn(c, text, a, e)
  {
  }

  // One more start leaves the finished arguments and finishes the last one.
  lemma DoneAfterStart(text: string, i: nat, s: Split, b: seq<char>)
    requires NoNul(text) && i < |text| && Progress(text, i, s) && IsStart(text, i) && s.blanks <= i
    requires b == if s.blanks > 0 then s.buf[i - s.blanks := NUL] else s.buf
    ensures DoneArgs(text, Split(b, s.argv + [i + 1], 0))
  {
    hide ArgIn, NoNul, Behind, LastArg, Pending, TrailingBlanks, Starts;
    var argv := s.argv + [i + 1];
    forall k | 0 <= k < |argv| - 1
      ensures DoneArg(text, b, argv, k)
    {
      StartInside(text, i, k);
      if k + 1 < |s.argv| {
        assert DoneArg(text, s.buf, s.argv, k);
        CutBehind(text, i, s, s.argv[k + 1]);
        ArgElsewhere(text, s.buf, b, argv[k], argv[k + 1] - 1);
      } else {
        StartsArePlus(text, i, k);
        LastCloses(text, i, s, b);
      }
    }
  }

  // The cut lies behind the start of the last argument.
  lemma CutBehind(text: string, i: nat, s: Split, a: nat)
    requires i <= |text| && Progress(text, i, s) && a in s.argv
    ensures s.blanks > 0 ==> a < i - s.blanks
    ensures s.blanks <= i
  {
    assert a <= s.argv[|s.argv| - 1];
  }

  // A start closes the last argument and opens a new one.
  lemma PlusStart(text: string, i: nat, s: Split, b: seq<char>)
    requires NoNul(text) && i < |text| && Progress(text, i, s) && IsStart(text, i) && s.blanks <= i
    requires b == if s.blanks > 0 then s.buf[i - s.blanks := NUL] else s.buf
    ensures Progress(text, i + 1, Split(b, s.argv + [i + 1], 0))
  {
    hide DoneArgs;
    DoneAfterStart(text, i, s, b);
  }

  // Cutting at the counted blanks terminates the last argument.
  lemma LastCloses(text: string, i: nat, s: Split, b: seq<char>)
    requires i <= |text| && Progress(text, i, s) && s.argv != [] && s.blanks <= i
    requires i == |text| || s.blanks > 0 || IsBlank(text[i - 1])
    requires i < |text| ==> s.argv[|s.argv| - 1] < i && IsBlank(text[i - 1])
    requires b == if s.blanks > 0 then s.buf[i - s.blanks := NUL] else s.buf
    ensures ArgIn(b, text, s.argv[|s.argv| - 1], i)
  {
  }

  // A plus sign inside an argument, or any other visible character, resets the count.
  lemma OtherChar(text: string, i: nat, s: Split)
    requires NoNul(text) && i < |text| && Progress(text, i, s) && !IsBlank(text[i]) && !IsStart(text, i)
    ensures Progress(text, i + 1, s.(blanks := 0))
  {
    hide DoneArg;
  }

  lemma DoneElsewhere(text: string, i: nat, s: Split, c: seq<char>)
    requires i < |text| && Progress(text, i, s) && i < |s.buf| && c == s.buf[i := NUL]
    ensures DoneArgs(text, s.(buf := c))
  {
    hide ArgIn, Behind, LastArg;
    forall k | 0 <= k < |s.argv| - 1
      ensures DoneArg(text, c, s.argv, k)
    {
      assert DoneArg(text, s.buf, s.argv, k);
      ArgElsewhere(text, s.buf, c, s.argv[k], s.argv[k + 1] - 1);
    }
  }

  // A blank that is overwritten: before all arguments or at the start of one.
  lemma BlankCut(text: string, i: nat, s: Split)
    requires NoNul(text) && i < |text| && Progress(text, i, s) && IsBlank(text[i])
    requires s.blanks == 0
    requires s.argv != [] ==> TrailingBlanks(text, s.argv[|s.argv| - 1], i) == i - s.argv[|s.argv| - 1]
    ensures Progress(text, i + 1, s.(buf := s.buf[i := NUL]))
  {
    hide DoneArgs, LastArg, Pending, TrailingBlanks, Starts, Ahead, NoNul, IsBlank;
    BlankAhead(text, i, s.buf);
    DoneElsewhere(text, i, s, s.buf[i := NUL]);
    BlankLast(text, i, s);
    BlankPending(text, s.argv, i);
  }

  lemma BlankAhead(text: string, i: nat, buf: seq<char>)
    requires i < |text| && IsBlank(text[i]) && Ahead(text, i, buf)
    ensures i < |buf| && Ahead(text, i + 1, buf[i := NUL])
    ensures Starts(text, i + 1) == Starts(text, i)
  {
  }

  lemma BlankPending(text: string, argv: seq<nat>, i: nat)
    requires i < |text| && IsBlank(text[i]) && (argv != [] ==> argv[|argv| - 1] <= i)
    requires argv != [] ==> TrailingBlanks(text, argv[|argv| - 1], i) == i - argv[|argv| - 1]
    ensures Pending(text, argv, i + 1) == 0
  {
  }

  lemma BlankLast(text: string, i: nat, s: Split)
    requires i < |text| && Progress(text, i, s) && IsBlank(text[i])
    requires s.argv != [] ==> TrailingBlanks(text, s.argv[|s.argv| - 1], i) == i - s.argv[|s.argv| - 1]
    ensures LastArg(text, i + 1, s.(buf := s.buf[i := NUL]))
  {
    hide Progress, TrailingBlanks, Starts, IsBlank;
    LastOf(text, i, s);
    if s.argv != [] {
      var a := s.argv[|s.argv| - 1];
      assert a < i ==> IsBlank(text[a]);
    }
  }

  lemma LastOf(text: string, i: nat, s: Split)
    requires Progress(text, i, s)
    ensures i <= |text| < |s.buf| && LastArg(text, i, s)
    ensures s.argv != [] ==> s.argv[|s.argv| - 1] <= i
  {
    hide LastArg, Behind, DoneArgs, TrailingBlanks;
  }

  // A blank that is counted.
  lemma BlankCounted(text: string, i: nat, s: Split)
    requires NoNul(text) && i < |text| && Progress(text, i, s) && IsBlank(text[i])
    requires s.argv != [] && TrailingBlanks(text, s.argv[|s.argv| - 1], i) < i - s.argv[|s.argv| - 1]
    ensures Progress(text, i + 1, s.(blanks := s.blanks + 1))
  {
    hide DoneArg;
  }

  // The guard of the blank case holds exactly before all arguments and at the start of one.
  lemma BlankGuard(text: string, i: nat, s: Split)
    requires NoNul(text) && i < |text| && Progress(text, i, s) && IsBlank(text[i])
    ensures (i == 0 || s.buf[i - 1] == NUL || |s.argv| == 0 || s.argv[|s.argv| - 1] == i)
      <==> (s.argv == [] || TrailingBlanks(text, s.argv[|s.argv| - 1], i) == i - s.argv[|s.argv| - 1])
    ensures (s.argv == [] || TrailingBlanks(text, s.argv[|s.argv| - 1], i) == i - s.argv[|s.argv| - 1])
      ==> s.blanks == 0
  {
  }

  // One step of the loop keeps the progress, or meets one start too many.
  lemma StepProgress(text: string, i: nat, s: Split)
    requires NoNul(text) && i < |text| && Progress(text, i, s)
    ensures i < |s.buf| && s.blanks <= i
    ensures Step(s, i) == TooMany <==> IsStart(text, i) && |s.argv| + 1 == MAX_ARG
    ensures Step(s, i).Done? ==> Progress(text, i + 1, Step(s, i).s)
  {
    hide Starts, Pending, Behind, LastArg, DoneArgs, Progress, Ahead;
    HereUnchanged(text, i, s);
    if text[i] == '+' {
      PlusGuard(text, i, s);
      if IsStart(text, i) {
        PlusStart(text, i, s, if s.blanks > 0 then s.buf[i - s.blanks := NUL] else s.buf);
      } else {
        OtherChar(text, i, s);
        NotStartBlanks(text, i, s);
      }
    } else if IsBlank(text[i]) {
      BlankGuard(text, i, s);
      if s.argv == [] || TrailingBlanks(text, s.argv[|s.argv| - 1], i) == i - s.argv[|s.argv| - 1] {
        BlankCut(text, i, s);
      } else {
        BlankCounted(text, i, s);
      }
    } else {
      OtherChar(text, i, s);
    }
  }

  lemma HereUnchanged(text: string, i: nat, s: Split)
    requires i < |text| && Progress(text, i, s)
    ensures i < |s.buf| && s.buf[i] == text[i] && s.blanks <= i
    ensures s.argv == Starts(text, i)
  {
  }

  lemma NotStartBlanks(text: string, i: nat, s: Split)
    requires NoNul(text) && i < |text| && Progress(text, i, s) && text[i] == '+' && !IsStart(text, i)
    ensures s.blanks == 0 && s == s.(blanks := 0)
  {
    PlusGuard(text, i, s);
  }

  lemma StartProgress(text: string)
    ensures Progress(text, 0, Start(text))
  {
  }

  // At the end of the text every argument stands in the copy, once the blanks counted
  // last are cut.
  lemma FinishedArgs(text: string, s: Split, b: seq<char>, k: nat)
    requires NoNul(text) && Progress(text, |text|, s) && s.blanks <= |text| && k < |s.argv|
    requires b == s.buf[|text| - s.blanks := NUL]
    ensures k + 1 < |s.argv| ==> s.argv[k + 1] >= 1
    ensures ArgIn(b, text, s.argv[k], Limit(text, s.argv, k))
  {
    hide ArgIn, LastArg, NoNul;
    if k + 1 < |s.argv| {
      assert DoneArg(text, s.buf, s.argv, k);
      CutBehind(text, |text|, s, s.argv[k + 1]);
      ArgElsewhere(text, s.buf, b, s.argv[k], s.argv[k + 1] - 1);
    } else {
      assert s.blanks == 0 ==> b == s.buf;
      LastCloses(text, |text|, s, b);
    }
  }

  lemma ArgString(text: string, b: seq<char>, a: nat, e: nat)
    requires NoNul(text) && ArgIn(b, text, a, e)
    ensures CStr(b, a) == text[a..ArgEnd(text, a, e)]
  {
    CStrStands(b, text[a..ArgEnd(text, a, e)], a);
  }

  lemma StartsGrow(text: string, i: nat, n: nat)
    requires i <= n <= |text|
    ensures |Starts(text, i)| <= |Starts(text, n)|
    decreases n
  {
    if i < n {
      StartsGrow(text, i, n - 1);
    }
  }

  lemma OneMoreStart(text: string, i: nat)
    requires i < |text| && IsStart(text, i)
    ensures |Starts(text, i + 1)| == |Starts(text, i)| + 1
  {
  }

  // The loop of pj_init_plus_ctx, cutting the copy up in place.  It fails exactly when
  // there are 200 arguments or more; otherwise it finds every argument of the text.
  method Tokenize(definition: string) returns (ok: bool, copy: array<char>, argv: seq<nat>)
    requires NoNul(definition)
    ensures ok <==> |Starts(definition, |definition|)| < 200
    ensures ok ==> argv == Starts(definition, |definition|)
    ensures ok ==> forall k :: 0 <= k < |argv| ==> CStr(copy[..], argv[k]) == ArgText(definition, k)
  {
    hide Starts, Progress, Step, IsStart, ArgIn, ArgEnd, CStr;
    var n := |definition|;
    copy := Copied(definition);
    argv := [];
    var i, blanks: nat := 0, 0;
    StartProgress(definition);
    while copy[i] != NUL
      invariant 0 <= i <= n && copy.Length == n + 1
      invariant Progress(definition, i, Split(copy[..], argv, blanks))
      invariant |argv| < MAX_ARG
      decreases n - i
    {
      ghost var before := Split(copy[..], argv, blanks);
      NotAtEnd(definition, i, before);
      StepProgress(definition, i, before);
      StartsGrow(definition, i + 1, n);
      HereUnchanged(definition, i, before);
      ok, argv, blanks := StepInPlace(copy, argv, blanks, i);
      if !ok {
        OneMoreStart(definition, i);
        return false, copy, argv;
      }
      StepCount(before, i);
      i := i + 1;
    }
    ghost var last := Split(copy[..], argv, blanks);
    AtEnd(definition, i, last);
    copy[i - blanks] := NUL;
    assert copy[..] == last.buf[n - blanks := NUL];
    forall k | 0 <= k < |argv|
      ensures CStr(copy[..], argv[k]) == ArgText(definition, k)
    {
      FinishedArgs(definition, last, copy[..], k);
      ArgString(definition, copy[..], argv[k], Limit(definition, argv, k));
    }
    return true, copy, argv;
  }

  lemma NotAtEnd(text: string, i: nat, s: Split)
    requires i <= |text| && Progress(text, i, s) && i < |s.buf| && s.buf[i] != NUL
    ensures i < |text|
  {
  }

  // The loop stops at the end of the text only.
  lemma AtEnd(text: string, i: nat, s: Split)
    requires NoNul(text) && i <= |text| && Progress(text, i, s) && i < |s.buf| && s.buf[i] == NUL
    ensures i == |text| && s.blanks <= i && s.argv == Starts(text, |text|)
  {
  }

  // One step adds at most one argument, and stays below the limit.
  lemma StepCount(s: Split, i: nat)
    requires i < |s.buf| && s.blanks <= i && |s.argv| < MAX_ARG && Step(s, i).Done?
    ensures |Step(s, i).s.argv| < MAX_ARG
  {
  }

  // ---------- trimming ----------

  function LeadingBlanks(text: string, a: nat, e: nat): (n: nat)
    requires a <= e <= |text|
    ensures n <= e - a && forall j :: a <= j < a + n ==> IsBlank(text[j])
    ensures n < e - a ==> !IsBlank(text[a + n])
    decreases e - a
  {
    if a == e || !IsBlank(text[a]) then 0 else 1 + LeadingBlanks(text, a + 1, e)
  }

  // text[a..e] without the blanks at both ends
  function TrimmedBoth(text: string, a: nat, e: nat): string
    requires a <= e <= |text|
  {
    var l := a + LeadingBlanks(text, a, e);
    text[l..e - TrailingBlanks(text, l, e)]
  }

  // An argument is its text without the blanks at both ends exactly when it does not
  // start with a blank or holds nothing but blanks.
  lemma LeadingBlanksLost(text: string, a: nat, e: nat)
    requires a <= e <= |text|
    ensures text[a..ArgEnd(text, a, e)] == TrimmedBoth(text, a, e)
      <==> a == e || !IsBlank(text[a]) || LeadingBlanks(text, a, e) == e - a
  {
    var l := a + LeadingBlanks(text, a, e);
    var t := TrailingBlanks(text, l, e);
    if a < e && IsBlank(text[a]) {
      assert |text[a..ArgEnd(text, a, e)]| == 0;
      assert |TrimmedBoth(text, a, e)| == e - t - l;
    } else {
      assert l == a;
    }
  }

  // A concrete loss: with a blank behind the plus sign the argument is empty.
  lemma BlankBehindPlus()
    ensures Starts("+ a", 3) == [1]
    ensures ArgText("+ a", 0) == "" && TrimmedBoth("+ a", 1, 3) == "a"
  {
    hide Starts, LeadingBlanks, TrailingBlanks;
    BlankBehindPlusStarts();
    BlankBehindPlusEnds();
  }

  lemma BlankBehindPlusStarts()
    ensures Starts("+ a", 3) == [1]
  {
    var t := "+ a";
    assert Starts(t, 0) == [];
    assert Starts(t, 1) == [1];
    NoStarts(t, 1, 3);
  }

  lemma BlankBehindPlusEnds()
    ensures ArgEnd("+ a", 1, 3) == 1
    ensures LeadingBlanks("+ a", 1, 3) == 1 && TrailingBlanks("+ a", 2, 3) == 0
  {
    assert LeadingBlanks("+ a", 2, 3) == 0;
  }

  // ---------- printing and splitting again ----------

  // how many of the first j characters are plus signs behind a blank
  function InnerStarts(p: string, j: nat): nat
    requires j <= |p|
  {
    if j == 0 then 0
    else InnerStarts(p, j - 1) + if j >= 2 && p[j - 1] == '+' && IsBlank(p[j - 2]) then 1 else 0
  }

  // no plus sign of the parameter would start an argument of its own
  ghost predicate Whole(p: string) {
    forall i :: 1 <= i < |p| && p[i] == '+' ==> !IsBlank(p[i - 1])
  }

  ghost predicate Tight(p: string) {
    p != "" ==> !IsBlank(p[0]) && !IsBlank(p[|p| - 1])
  }

  ghost predicate AllWhole(ps: seq<string>) {
    forall k :: 0 <= k < |ps| ==> Whole(ps[k])
  }

  ghost predicate AllTight(ps: seq<string>) {
    forall k :: 0 <= k < |ps| ==> Tight(ps[k])
  }

  lemma {:induction false} InnerWhole(p: string, j: nat)
    requires j <= |p|
    ensures InnerStarts(p, j) == 0 <==> forall i :: 1 <= i < j && p[i] == '+' ==> !IsBlank(p[i - 1])
  {
    if j > 0 {
      InnerWhole(p, j - 1);
    }
  }

  // the number of arguments the first k parameters are split into
  function ArgCount(ps: seq<string>, k: nat): nat
    requires k <= |ps|
  {
    if k == 0 then 0 else ArgCount(ps, k - 1) + 1 + InnerStarts(ps[k - 1], |ps[k - 1]|)
  }

  lemma {:induction false} ArgCountWhole(ps: seq<string>, k: nat)
    requires k <= |ps|
    ensures ArgCount(ps, k) >= k
    ensures ArgCount(ps, k) == k <==> forall j :: 0 <= j < k ==> Whole(ps[j])
  {
    if k > 0 {
      ArgCountWhole(ps, k - 1);
      InnerWhole(ps[k - 1], |ps[k - 1]|);
      assert InnerStarts(ps[k - 1], |ps[k - 1]|) == 0 <==> Whole(ps[k - 1]);
    }
  }

  // where the k-th printed parameter starts, with its blank
  ghost function At(ps: seq<string>, k: nat): nat
    requires k <= |ps|
  {
    |DefTo(ps, k)|
  }

  lemma {:induction false} AtOrder(ps: seq<string>, j: nat, k: nat)
    requires j < k <= |ps|
    ensures At(ps, j) + 2 + |ps[j]| == At(ps, j + 1) <= At(ps, k)
    decreases k
  {
    assert At(ps, k) == At(ps, k - 1) + 2 + |ps[k - 1]|;
    if j + 1 < k {
      AtOrder(ps, j, k - 1);
    }
  }

  lemma AtEnds(ps: seq<string>)
    ensures At(ps, 0) == 0 && At(ps, |ps|) == |Definition(ps)|
  {
  }

  lemma {:induction false} DefToIsPrefix(ps: seq<string>, k: nat, m: nat, i: nat)
    requires k <= m <= |ps| && i < |DefTo(ps, k)|
    ensures i < |DefTo(ps, m)| && DefTo(ps, m)[i] == DefTo(ps, k)[i]
    decreases m
  {
    if k < m {
      DefToIsPrefix(ps, k, m - 1, i);
    }
  }

  // The k-th parameter stands in the definition.
  lemma DefinitionAt(ps: seq<string>, k: nat)
    requires k < |ps|
    ensures var d, a := Definition(ps), At(ps, k);
      && a + 2 + |ps[k]| <= |d| && d[a] == ' ' && d[a + 1] == '+'
      && Stands(d, a + 2, ps[k])
  {
    var d, e, a := Definition(ps), DefTo(ps, k + 1), At(ps, k);
    assert e == DefTo(ps, k) + " +" + ps[k];
    assert |e| == a + 2 + |ps[k]| && e[a] == ' ' && e[a + 1] == '+';
    assert Stands(e, a + 2, ps[k]);
    hide DefTo, Stands;
    AtOrder(ps, k, |ps|);
    StandsIn(e, d, a + 2, ps[k]) by {
      forall i | a <= i < |e|
        ensures d[i] == e[i]
      {
        DefToIsPrefix(ps, k + 1, |ps|, i);
      }
    }
    forall i | a <= i < |e|
      ensures d[i] == e[i]
    {
      DefToIsPrefix(ps, k + 1, |ps|, i);
    }
  }

  // A parameter brings the start of its own plus sign and those inside it.
  lemma {:induction false} InnerCount(text: string, a: nat, p: string, j: nat)
    requires Stands(text, a, p) && a >= 1 && text[a - 1] == '+' && j <= |p|
    ensures |Starts(text, a + j)| == |Starts(text, a)| + InnerStarts(p, j)
  {
    if j > 0 {
      InnerCount(text, a, p, j - 1);
      assert text[a + (j - 1)] == p[j - 1];
      assert j >= 2 ==> text[a + (j - 2)] == p[j - 2];
    }
  }

  lemma ParamCount(ps: seq<string>, k: nat)
    requires k < |ps|
    ensures At(ps, k) <= At(ps, k + 1) <= |Definition(ps)|
    ensures |Starts(Definition(ps), At(ps, k + 1))|
         == |Starts(Definition(ps), At(ps, k))| + 1 + InnerStarts(ps[k], |ps[k]|)
  {
    hide At, DefTo, Definition, Stands, Starts;
    var d, a, p := Definition(ps), At(ps, k), ps[k];
    DefinitionAt(ps, k);
    AtOrder(ps, k, |ps|);
    AtEnds(ps);
    NoStarts(d, a, a + 1);
    StartsAfter(d, a + 1);
    InnerCount(d, a + 2, p, |p|);
  }

  lemma {:induction false} ParamCounts(ps: seq<string>, k: nat)
    requires k <= |ps|
    ensures At(ps, k) <= |Definition(ps)| && |Starts(Definition(ps), At(ps, k))| == ArgCount(ps, k)
  {
    hide At, DefTo, Definition, Starts, InnerStarts;
    AtEnds(ps);
    if k == 0 {
      NoneAtStart(Definition(ps));
    } else {
      ParamCounts(ps, k - 1);
      ParamCount(ps, k - 1);
    }
  }

  // A whole parameter brings one start.
  lemma ParamStart(ps: seq<string>, k: nat)
    requires k < |ps| && AllWhole(ps)
    ensures At(ps, k) <= At(ps, k + 1) <= |Definition(ps)|
    ensures Starts(Definition(ps), At(ps, k + 1)) == Starts(Definition(ps), At(ps, k)) + [At(ps, k) + 2]
  {
    hide At, DefTo, Definition, Stands, Starts;
    var d, a, p := Definition(ps), At(ps, k), ps[k];
    DefinitionAt(ps, k);
    AtOrder(ps, k, |ps|);
    AtEnds(ps);
    assert Whole(p);
    NoStarts(d, a, a + 1);
    StartsAfter(d, a + 1);
    forall m | a + 2 <= m < a + 2 + |p|
      ensures !IsStart(d, m)
    {
      StandsChar(d, a + 2, p, m - a - 2);
      if m > a + 2 {
        StandsChar(d, a + 2, p, m - a - 3);
      }
    }
    NoStarts(d, a + 2, a + 2 + |p|);
  }

  lemma StandsChar(b: seq<char>, i: nat, p: string, j: nat)
    requires Stands(b, i, p) && j < |p|
    ensures i + j < |b| && b[i + j] == p[j]
  {
  }

  lemma StartsAfter(text: string, i: nat)
    requires i < |text| && IsStart(text, i)
    ensures Starts(text, i + 1) == Starts(text, i) + [i + 1]
  {
  }

  lemma {:induction false} ParamStarts(ps: seq<string>, k: nat)
    requires k <= |ps| && AllWhole(ps)
    ensures At(ps, k) <= |Definition(ps)|
    ensures var r := Starts(Definition(ps), At(ps, k));
      |r| == k && forall j :: 0 <= j < k ==> r[j] == At(ps, j) + 2
  {
    hide At, DefTo, Definition, Starts, Whole;
    AtEnds(ps);
    if k == 0 {
      NoneAtStart(Definition(ps));
    } else {
      ParamStarts(ps, k - 1);
      ParamStart(ps, k - 1);
    }
  }

  lemma NoneAtStart(text: string)
    ensures Starts(text, 0) == []
  {
  }

  // When no parameter is cut in two, the k-th argument of a printed definition is the k-th
  // parameter exactly if that has no blank at either end.
  lemma ParamArgument(ps: seq<string>, k: nat)
    requires k < |ps| && AllWhole(ps)
    ensures |Starts(Definition(ps), |Definition(ps)|)| == |ps|
    ensures ArgText(Definition(ps), k) == ps[k] <==> Tight(ps[k])
  {
    hide At, DefTo, Definition, Starts, Stands, TrailingBlanks, Whole, Tight, ArgEnd;
    AtEnds(ps);
    ParamStarts(ps, |ps|);
    DefinitionAt(ps, k);
    AtOrder(ps, k, |ps|);
    var d, a := Definition(ps), At(ps, k) + 2;
    var z := a + |ps[k]|;
    if k + 1 < |ps| {
      AtOrder(ps, k, k + 1);
      AtOrder(ps, k + 1, |ps|);
      DefinitionAt(ps, k + 1);
    }
    StandsText(d, a, ps[k]);
    ParamEnd(d, a, ps[k], if k + 1 < |ps| then z + 1 else z);
  }

  // Printing and splitting loses nothing exactly when no parameter has a plus sign behind
  // a blank, or a blank at either end.
  lemma SameArguments(ps: seq<string>)
    ensures var d := Definition(ps);
      (|Starts(d, |d|)| == |ps| && forall k :: 0 <= k < |ps| ==> ArgText(d, k) == ps[k])
      <==> AllWhole(ps) && AllTight(ps)
  {
    hide Starts, ArgText, Whole, Tight, Definition;
    AtEnds(ps);
    ParamCounts(ps, |ps|);
    ArgCountWhole(ps, |ps|);
    if AllWhole(ps) {
      forall k | 0 <= k < |ps|
        ensures |Starts(Definition(ps), |Definition(ps)|)| == |ps|
        ensures ArgText(Definition(ps), k) == ps[k] <==> Tight(ps[k])
      {
        ParamArgument(ps, k);
      }
    }
  }

  lemma StandsText(b: seq<char>, i: nat, p: string)
    requires Stands(b, i, p)
    ensures i + |p| <= |b| && b[i..i + |p|] == p
  {
  }

  // Behind a parameter comes at most one blank, which is dropped.
  lemma ParamEnd(text: string, a: nat, p: string, e: nat)
    requires Stands(text, a, p) && a + |p| <= e <= |text|
    requires e == a + |p| || (e == a + |p| + 1 && IsBlank(text[a + |p|]))
    ensures text[a..ArgEnd(text, a, e)] == p <==> Tight(p)
  {
    if p != "" {
      StandsChar(text, a, p, 0);
      StandsChar(text, a, p, |p| - 1);
      StandsText(text, a, p);
      assert |text[a..ArgEnd(text, a, e)]| == ArgEnd(text, a, e) - a;
      if Tight(p) {
        assert ArgEnd(text, a, e) == a + |p|;
      } else {
        assert ArgEnd(text, a, e) != a + |p|;
      }
    }
  }

  // Printing the used parameters and splitting the result fails exactly when that makes 200
  // arguments or more, and gives the same parameters in order exactly when there are fewer
  // than 200 of them, none has a blank at either end and none a plus sign behind a blank.
  method PrintAndSplit(params: seq<Param>) returns (ok: bool, copy: array<char>, argv: seq<nat>)
    requires forall i :: 0 <= i < |params| ==> NoNul(params[i].param)
    ensures ok <==> ArgCount(Used(params), |Used(params)|) < 200
    ensures ok ==> |argv| == ArgCount(Used(params), |Used(params)|)
    ensures (ok && |argv| == |Used(params)| && forall k :: 0 <= k < |argv| ==> CStr(copy[..], argv[k]) == Used(params)[k])
      <==> |Used(params)| < 200 && AllWhole(Used(params)) && AllTight(Used(params))
  {
    hide ArgText, Starts, CStr, Used, UsedTo, Definition, AllTight, Whole;
    ghost var ps := Used(params);
    var definition := GetDef(params);
    var n := StrLen(definition, Definition(ps));
    assert definition[..][..n] == definition[..n] == Definition(ps);
    ok, copy, argv := Tokenize(definition[..n]);
    AtEnds(ps);
    ParamCounts(ps, |ps|);
    ArgCountWhole(ps, |ps|);
    SameArguments(ps);
  }
}
