/** bch2bps.c, the column half: the same conversion carried out on whole rows at
    a time, so that every column is converted at once. */
module BchCols {
  import opened Series
  import opened ChebPower
  import opened Matrix

  // ---------- row vectors ----------

  function ScaledRow(f: real, b: seq<UV>): (r: seq<UV>)
    ensures |r| == |b|
  {
    seq(|b|, i requires 0 <= i < |b| => Scale(f, b[i]))
  }

  function SubRow(b: seq<UV>, c: seq<UV>): (r: seq<UV>)
    requires |b| == |c|
    ensures |r| == |b|
  {
    seq(|b|, i requires 0 <= i < |b| => Sub(b[i], c[i]))
  }

  // a <- 0
  method Clear(a: array<UV>)
    modifies a
    ensures forall i :: 0 <= i < a.Length ==> a[i] == UV(0.0, 0.0)
  {
    for i := 0 to a.Length
      invariant forall k :: 0 <= k < i ==> a[k] == UV(0.0, 0.0)
    {
      a[i] := UV(0.0, 0.0);
    }
  }

  // a <- b
  method BMove(a: array<UV>, b: array<UV>)
    requires a != b && a.Length == b.Length
    modifies a
    ensures a[..] == b[..]
  {
    for i := 0 to a.Length
      invariant a[..i] == b[..i]
    {
      a[i] := b[i];
    }
  }

  // a <- m * b - c
  method SubMOp(a: array<UV>, m: real, b: array<UV>, c: array<UV>)
    requires a != b && a != c && a.Length == b.Length == c.Length
    modifies a
    ensures a[..] == SubRow(ScaledRow(m, b[..]), c[..])
  {
    for i := 0 to a.Length
      invariant forall k :: 0 <= k < i ==> a[k] == Sub(Scale(m, b[k]), c[k])
    {
      a[i] := Sub(Scale(m, b[i]), c[i]);
    }
  }

  // a <- b - c
  method SubOp(a: array<UV>, b: array<UV>, c: array<UV>)
    requires a != b && a != c && a.Length == b.Length == c.Length
    modifies a
    ensures a[..] == SubRow(b[..], c[..])
  {
    for i := 0 to a.Length
      invariant forall k :: 0 <= k < i ==> a[k] == Sub(b[k], c[k])
    {
      a[i] := Sub(b[i], c[i]);
    }
  }

  // a <- m * a
  method DMult(a: array<UV>, m: real)
    modifies a
    ensures a[..] == ScaledRow(m, old(a[..]))
  {
    for i := 0 to a.Length
      invariant forall k :: 0 <= k < i ==> a[k] == Scale(m, old(a[k]))
      invariant forall k :: i <= k < a.Length ==> a[k] == old(a[k])
    {
      a[i] := Scale(m, a[i]);
    }
  }

  // a <- a - m * b
  method DAdd(a: array<UV>, b: array<UV>, m: real)
    requires a != b && a.Length == b.Length
    modifies a
    ensures a[..] == SubRow(old(a[..]), ScaledRow(m, b[..]))
  {
    for i := 0 to a.Length
      invariant forall k :: 0 <= k < i ==> a[k] == Sub(old(a[k]), Scale(m, b[k]))
      invariant forall k :: i <= k < a.Length ==> a[k] == old(a[k])
    {
      a[i] := Sub(a[i], Scale(m, b[i]));
    }
  }

  method BClear(d: Mat, nu: nat, nv: nat)
    requires Shape(d, nu, nv)
    modifies RowSet(d)
    ensures forall i, m :: 0 <= i < nu && 0 <= m < nv ==> d[i][m] == UV(0.0, 0.0)
  {
    for i := 0 to nu
      invariant forall k, m :: 0 <= k < i && 0 <= m < nv ==> d[k][m] == UV(0.0, 0.0)
    {
      Clear(d[i]);
    }
  }

  // ---------- loop invariants, every column and both components at once ----------

  ghost predicate SameSize(c: seq<seq<UV>>, d: seq<seq<UV>>, dd: seq<seq<UV>>, nv: nat) {
    |c| == |d| == |dd| && Wide(c, nv) && Wide(d, nv) && Wide(dd, nv)
  }

  ghost predicate MatHeld(c: seq<seq<UV>>, d: seq<seq<UV>>, dd: seq<seq<UV>>, nv: nat, j: nat)
    requires SameSize(c, d, dd, nv)
  {
    forall p: Part, m :: 0 <= m < nv ==> Held(Col(c, p, m), Col(d, p, m), Col(dd, p, m), j)
  }

  ghost predicate MatStepping(c: seq<seq<UV>>, d: seq<seq<UV>>, dd: seq<seq<UV>>, nv: nat, j: nat, k: int)
    requires SameSize(c, d, dd, nv)
  {
    forall p: Part, m :: 0 <= m < nv ==> Stepping(Col(c, p, m), Col(d, p, m), Col(dd, p, m), j, k)
  }

  ghost predicate MatClosing(c: seq<seq<UV>>, d: seq<seq<UV>>, dd: seq<seq<UV>>, nv: nat, k: int)
    requires SameSize(c, d, dd, nv)
  {
    forall p: Part, m :: 0 <= m < nv ==> Closing(Col(c, p, m), Col(d, p, m), Col(dd, p, m), k)
  }

  lemma MatStart(c: seq<seq<UV>>, d: seq<seq<UV>>, dd: seq<seq<UV>>, nv: nat)
    requires SameSize(c, d, dd, nv) && |c| >= 1
    requires d[0] == c[|c| - 1]
    requires forall i, m :: 1 <= i < |c| && 0 <= m < nv ==> d[i][m] == UV(0.0, 0.0)
    requires forall i, m :: 0 <= i < |c| && 0 <= m < nv ==> dd[i][m] == UV(0.0, 0.0)
    ensures MatHeld(c, d, dd, nv, |c| - 1)
  {
    forall p: Part, m | 0 <= m < nv
      ensures Held(Col(c, p, m), Col(d, p, m), Col(dd, p, m), |c| - 1)
    {
      HeldStart(Col(c, p, m), Col(d, p, m), Col(dd, p, m));
    }
  }

  lemma MatSteppingStart(c: seq<seq<UV>>, d: seq<seq<UV>>, dd: seq<seq<UV>>, nv: nat, j: nat)
    requires SameSize(c, d, dd, nv) && 1 <= j < |c| && MatHeld(c, d, dd, nv, j + 1)
    ensures MatStepping(c, d, dd, nv, j, |c| - j)
  {
    hide Held, Stepping;
    forall p: Part, m | 0 <= m < nv
      ensures Stepping(Col(c, p, m), Col(d, p, m), Col(dd, p, m), j, |c| - j)
    {
      SteppingStart(Col(c, p, m), Col(d, p, m), Col(dd, p, m), j);
    }
  }

  lemma MatSteppingNext(c: seq<seq<UV>>, d: seq<seq<UV>>, dd: seq<seq<UV>>, nv: nat, j: nat, k: nat,
                        d': seq<seq<UV>>, dd': seq<seq<UV>>)
    requires SameSize(c, d, dd, nv) && 1 <= j < |c| && 1 <= k < |c| && MatStepping(c, d, dd, nv, j, k)
    requires d' == d[k := SubRow(ScaledRow(2.0, d[k - 1]), dd[k])] && dd' == dd[k := d[k]]
    ensures SameSize(c, d', dd', nv) && MatStepping(c, d', dd', nv, j, k - 1)
  {
    hide Stepping;
    forall p: Part, m | 0 <= m < nv
      ensures Stepping(Col(c, p, m), Col(d', p, m), Col(dd', p, m), j, k - 1)
    {
      ColUpdate(d, k, d'[k], nv, p, m);
      ColUpdate(dd, k, d[k], nv, p, m);
      SteppingNext(Col(c, p, m), Col(d, p, m), Col(dd, p, m), j, k);
    }
  }

  lemma MatSteppingEnd(c: seq<seq<UV>>, d: seq<seq<UV>>, dd: seq<seq<UV>>, nv: nat, j: nat,
                       d': seq<seq<UV>>, dd': seq<seq<UV>>)
    requires SameSize(c, d, dd, nv) && 1 <= j < |c| && MatStepping(c, d, dd, nv, j, 0)
    requires d' == d[0 := SubRow(c[j], dd[0])] && dd' == dd[0 := d[0]]
    ensures SameSize(c, d', dd', nv) && MatHeld(c, d', dd', nv, j)
  {
    hide Stepping, Held;
    forall p: Part, m | 0 <= m < nv
      ensures Held(Col(c, p, m), Col(d', p, m), Col(dd', p, m), j)
    {
      ColUpdate(d, 0, d'[0], nv, p, m);
      ColUpdate(dd, 0, d[0], nv, p, m);
      SteppingEnd(Col(c, p, m), Col(d, p, m), Col(dd, p, m), j);
    }
  }

  lemma MatClosingStart(c: seq<seq<UV>>, d: seq<seq<UV>>, dd: seq<seq<UV>>, nv: nat)
    requires SameSize(c, d, dd, nv) && |c| > 1 && MatHeld(c, d, dd, nv, 1)
    ensures MatClosing(c, d, dd, nv, |c| - 1)
  {
    hide Closing, Held;
    forall p: Part, m | 0 <= m < nv
      ensures Closing(Col(c, p, m), Col(d, p, m), Col(dd, p, m), |c| - 1)
    {
      ClosingStart(Col(c, p, m), Col(d, p, m), Col(dd, p, m));
    }
  }

  lemma MatClosingNext(c: seq<seq<UV>>, d: seq<seq<UV>>, dd: seq<seq<UV>>, nv: nat, k: nat, d': seq<seq<UV>>)
    requires SameSize(c, d, dd, nv) && 1 <= k < |c| && MatClosing(c, d, dd, nv, k)
    requires d' == d[k := SubRow(d[k - 1], dd[k])]
    ensures SameSize(c, d', dd, nv) && MatClosing(c, d', dd, nv, k - 1)
  {
    hide Closing;
    forall p: Part, m | 0 <= m < nv
      ensures Closing(Col(c, p, m), Col(d', p, m), Col(dd, p, m), k - 1)
    {
      ColUpdate(d, k, d'[k], nv, p, m);
      ClosingNext(Col(c, p, m), Col(d, p, m), Col(dd, p, m), k);
    }
  }

  lemma MatEnd(c: seq<seq<UV>>, d: seq<seq<UV>>, dd: seq<seq<UV>>, nv: nat, d': seq<seq<UV>>)
    requires SameSize(c, d, dd, nv) && |c| >= 1
    requires if |c| == 1 then MatHeld(c, d, dd, nv, 0) else MatClosing(c, d, dd, nv, 0)
    requires d' == d[0 := SubRow(ScaledRow(0.5, c[0]), dd[0])]
    ensures Wide(d', nv)
    ensures forall p: Part, m :: 0 <= m < nv ==> Col(d', p, m) == ChebToPower(Col(c, p, m))
  {
    hide Closing, Held, ChebToPower;
    forall p: Part, m | 0 <= m < nv
      ensures Wide(d', nv) && Col(d', p, m) == ChebToPower(Col(c, p, m))
    {
      ColUpdate(d, 0, d'[0], nv, p, m);
      if |c| == 1 {
        ClosingSingle(Col(c, p, m), Col(d, p, m), Col(dd, p, m));
      } else {
        ClosingEnd(Col(c, p, m), Col(d, p, m), Col(dd, p, m));
      }
    }
  }

  // ---------- all columns ----------

  // The matrices and the spare row never share storage.
  ghost predicate Work(c: Mat, d: Mat, dd: Mat, sv: array<UV>, nu: nat, nv: nat)
    reads c, d, dd
  {
    && Shape(c, nu, nv) && Shape(d, nu, nv) && Shape(dd, nu, nv)
    && Apart(c, d) && Apart(c, dd) && Apart(d, dd)
    && sv.Length == nv && sv !in RowSet(c) && sv !in RowSet(d) && sv !in RowSet(dd)
  }

  // One step of the inner loop: row k of d moves on, dd keeps its old value.
  method MoveUp(ghost c: Mat, d: Mat, dd: Mat, sv: array<UV>, nu: nat, nv: nat, k: nat)
    requires Work(c, d, dd, sv, nu, nv) && 1 <= k < nu
    modifies d[k], dd[k], sv
    ensures Contents(c) == old(Contents(c))
    ensures Contents(d)
         == old(Contents(d))[k := SubRow(ScaledRow(2.0, old(Contents(d))[k - 1]), old(Contents(dd))[k])]
    ensures Contents(dd) == old(Contents(dd))[k := old(Contents(d))[k]]
  {
    hide SubRow, ScaledRow;
    BMove(sv, d[k]);
    SubMOp(d[k], 2.0, d[k - 1], dd[k]);
    BMove(dd[k], sv);
  }

  // The last step: row 0 of d takes in the coefficients of row j.
  method MoveDown(c: Mat, d: Mat, dd: Mat, sv: array<UV>, nu: nat, nv: nat, j: nat)
    requires Work(c, d, dd, sv, nu, nv) && 0 <= j < nu
    modifies d[0], dd[0], sv
    ensures Contents(c) == old(Contents(c))
    ensures Contents(d) == old(Contents(d))[0 := SubRow(Contents(c)[j], old(Contents(dd))[0])]
    ensures Contents(dd) == old(Contents(dd))[0 := old(Contents(d))[0]]
  {
    hide SubRow, ScaledRow;
    BMove(sv, d[0]);
    SubOp(d[0], c[j], dd[0]);
    BMove(dd[0], sv);
  }

  // Zero work rows, with the last row of c in row 0.
  method Open(c: Mat, d: Mat, dd: Mat, ghost sv: array<UV>, nu: nat, nv: nat)
    requires nu >= 1 && Work(c, d, dd, sv, nu, nv)
    modifies RowSet(d), RowSet(dd)
    ensures Contents(c) == old(Contents(c))
    ensures MatHeld(Contents(c), Contents(d), Contents(dd), nv, nu - 1)
  {
    hide MatHeld;
    BClear(d, nu, nv);
    BClear(dd, nu, nv);
    BMove(d[0], c[nu - 1]);
    MatStart(Contents(c), Contents(d), Contents(dd), nv);
  }

  // The body of the main loop.
  method Pass(c: Mat, d: Mat, dd: Mat, sv: array<UV>, nu: nat, nv: nat, j: nat)
    requires Work(c, d, dd, sv, nu, nv) && 1 <= j < nu - 1
    requires MatHeld(Contents(c), Contents(d), Contents(dd), nv, j + 1)
    modifies RowSet(d), RowSet(dd), sv
    ensures Contents(c) == old(Contents(c))
    ensures MatHeld(Contents(c), Contents(d), Contents(dd), nv, j)
  {
    hide MatHeld, MatStepping, SubRow, ScaledRow;
    MatSteppingStart(Contents(c), Contents(d), Contents(dd), nv, j);
    var k := nu - j;
    while k >= 1
      invariant 0 <= k <= nu - j
      invariant Contents(c) == old(Contents(c))
      invariant MatStepping(Contents(c), Contents(d), Contents(dd), nv, j, k)
    {
      ghost var d0, dd0 := Contents(d), Contents(dd);
      MoveUp(c, d, dd, sv, nu, nv, k);
      MatSteppingNext(Contents(c), d0, dd0, nv, j, k, Contents(d), Contents(dd));
      k := k - 1;
    }
    ghost var d0, dd0 := Contents(d), Contents(dd);
    MoveDown(c, d, dd, sv, nu, nv, j);
    MatSteppingEnd(Contents(c), d0, dd0, nv, j, Contents(d), Contents(dd));
  }

  // The closing loop and the half weight of row 0.
  method Close(c: Mat, d: Mat, dd: Mat, ghost sv: array<UV>, nu: nat, nv: nat)
    requires nu >= 1 && Work(c, d, dd, sv, nu, nv)
    requires MatHeld(Contents(c), Contents(d), Contents(dd), nv, if nu == 1 then 0 else 1)
    modifies RowSet(d)
    ensures Contents(c) == old(Contents(c))
    ensures forall p: Part, m :: 0 <= m < nv ==>
      Col(Contents(d), p, m) == ChebToPower(Col(Contents(c), p, m))
  {
    hide MatHeld, MatClosing, SubRow, ScaledRow, ChebToPower;
    if nu > 1 {
      MatClosingStart(Contents(c), Contents(d), Contents(dd), nv);
    }
    var j := nu - 1;
    while j >= 1
      invariant 0 <= j <= nu - 1
      invariant Contents(c) == old(Contents(c)) && Contents(dd) == old(Contents(dd))
      invariant if nu == 1 then MatHeld(Contents(c), Contents(d), Contents(dd), nv, 0)
                else MatClosing(Contents(c), Contents(d), Contents(dd), nv, j)
    {
      ghost var d0 := Contents(d);
      SubOp(d[j], d[j - 1], dd[j]);
      assert Contents(d) == d0[j := SubRow(d0[j - 1], Contents(dd)[j])];
      MatClosingNext(Contents(c), d0, Contents(dd), nv, j, Contents(d));
      j := j - 1;
    }
    ghost var d0 := Contents(d);
    SubMOp(d[0], 0.5, c[0], dd[0]);
    assert Contents(d) == d0[0 := SubRow(ScaledRow(0.5, Contents(c)[0]), Contents(dd)[0])];
    MatEnd(Contents(c), d0, Contents(dd), nv, Contents(d));
  }

  // The conversion, given work storage.
  method ColsWith(c: Mat, d: Mat, dd: Mat, sv: array<UV>, nu: nat, nv: nat)
    requires nu >= 1 && Work(c, d, dd, sv, nu, nv)
    modifies RowSet(d), RowSet(dd), sv
    ensures Contents(c) == old(Contents(c))
    ensures forall p: Part, m :: 0 <= m < nv ==>
      Col(Contents(d), p, m) == ChebToPower(Col(Contents(c), p, m))
  {
    hide MatHeld, ChebToPower;
    Open(c, d, dd, sv, nu, nv);
    var j := nu - 2;
    while j >= 1
      invariant -1 <= j <= nu - 2 && (nu > 1 ==> j >= 0)
      invariant Contents(c) == old(Contents(c))
      invariant MatHeld(Contents(c), Contents(d), Contents(dd), nv, j + 1)
    {
      Pass(c, d, dd, sv, nu, nv, j);
      j := j - 1;
    }
    Close(c, d, dd, sv, nu, nv);
  }

  // Convert the columns of c to power series, into d.
  method Cols(c: Mat, d: Mat, nu: nat, nv: nat)
    requires nu >= 1 && Shape(c, nu, nv) && Shape(d, nu, nv) && Apart(c, d)
    modifies RowSet(d)
    ensures Contents(c) == old(Contents(c))
    ensures forall p: Part, m :: 0 <= m < nv ==>
      Col(Contents(d), p, m) == ChebToPower(Col(Contents(c), p, m))
  {
    hide ChebToPower;
    var dd := NewMatrix(nu, nv);
    var sv := new UV[nv](_ => UV(0.0, 0.0));
    assert Contents(c) == old(Contents(c));
    ColsWith(c, d, dd, sv, nu, nv);
  }

  // ---------- change of range for all columns ----------

  ghost predicate MatScaled(s: seq<seq<UV>>, d: seq<seq<UV>>, fac: real, j: nat) {
    && |d| == |s|
    && forall i :: 0 <= i < |s| ==>
         d[i] == if i < j then ScaledRow(Pow(fac, i), s[i]) else s[i]
  }

  lemma MatScaledStart(s: seq<seq<UV>>, fac: real)
    ensures MatScaled(s, s, fac, 1)
    ensures fac == Pow(fac, 1)
  {
    assert Pow(fac, 0) == 1.0;
    forall i | 0 <= i < |s| && i < 1
      ensures s[i] == ScaledRow(Pow(fac, i), s[i])
    {
    }
  }

  lemma MatScaledNext(s: seq<seq<UV>>, d: seq<seq<UV>>, fac: real, j: nat, f: real)
    requires MatScaled(s, d, fac, j) && j < |s| && f == Pow(fac, j)
    ensures MatScaled(s, d[j := ScaledRow(f, d[j])], fac, j + 1)
    ensures f * fac == Pow(fac, j + 1)
  {
    PowStep(fac, j);
  }

  lemma MatScaledEnd(s: seq<seq<UV>>, d: seq<seq<UV>>, nv: nat, fac: real, j: nat, p: Part, m: nat)
    requires MatScaled(s, d, fac, j) && j >= |s| && Wide(s, nv) && m < nv
    ensures Wide(d, nv)
    ensures Col(d, p, m) == Scaled(Col(s, p, m), fac)
  {
    hide Pow;
    forall i | 0 <= i < |s|
      ensures |d[i]| == nv && Get(d[i][m], p) == Times(Pow(fac, i), Get(s[i][m], p))
    {
      assert d[i] == ScaledRow(Pow(fac, i), s[i]);
    }
  }

  ghost predicate MatShifting(s: seq<seq<UV>>, d: seq<seq<UV>>, nv: nat, j: nat, c: real)
    requires Wide(s, nv) && Wide(d, nv)
  {
    forall p: Part, m :: 0 <= m < nv ==> Shifting(Col(s, p, m), Col(d, p, m), j, c)
  }

  ghost predicate MatDividing(s: seq<seq<UV>>, d: seq<seq<UV>>, nv: nat, k: int, c: real)
    requires Wide(s, nv) && Wide(d, nv) && -1 <= k < |s|
  {
    forall p: Part, m :: 0 <= m < nv ==> Dividing(Col(s, p, m), Col(d, p, m), k, c)
  }

  lemma MatDividingNext(s: seq<seq<UV>>, d: seq<seq<UV>>, nv: nat, k: nat, c: real, d': seq<seq<UV>>)
    requires Wide(s, nv) && Wide(d, nv) && |d| == |s| && k + 1 < |s| && MatDividing(s, d, nv, k, c)
    requires d' == d[k := SubRow(d[k], ScaledRow(c, d[k + 1]))]
    ensures Wide(d', nv) && MatDividing(s, d', nv, k - 1, c)
  {
    hide Dividing;
    forall p: Part, m | 0 <= m < nv
      ensures Dividing(Col(s, p, m), Col(d', p, m), k - 1, c)
    {
      ColUpdate(d, k, d'[k], nv, p, m);
      assert Get(d'[k][m], p) == MinusTimes(Col(d, p, m)[k], c, Col(d, p, m)[k + 1]);
      DividingNext(Col(s, p, m), Col(d, p, m), k, c);
    }
  }

  // Scale row j by the j-th power of fac.
  method ScaleRows(d: Mat, nu: nat, nv: nat, cnst: real)
    requires Shape(d, nu, nv)
    modifies RowSet(d)
    ensures forall p: Part, m :: 0 <= m < nv ==>
      Col(Contents(d), p, m) == Scaled(Col(old(Contents(d)), p, m), cnst)
  {
    hide Pow, ScaledRow, MatScaled, Scaled;
    var fac := cnst;
    var j := 1;
    ghost var s := Contents(d);
    MatScaledStart(s, cnst);
    while j < nu
      invariant j >= 1
      invariant fac == Pow(cnst, j)
      invariant MatScaled(s, Contents(d), cnst, j)
    {
      ghost var d0 := Contents(d);
      MatScaledNext(s, d0, cnst, j, fac);
      DMult(d[j], fac);
      assert Contents(d) == d0[j := ScaledRow(fac, d0[j])];
      fac := fac * cnst;
      j := j + 1;
    }
    forall p: Part, m | 0 <= m < nv
      ensures Col(Contents(d), p, m) == Scaled(Col(s, p, m), cnst)
    {
      MatScaledEnd(s, Contents(d), nv, cnst, j, p, m);
    }
  }

  // One division of every column, down to row j.
  method DivideRows(d: Mat, nu: nat, nv: nat, cnst: real, j: nat)
    requires Shape(d, nu, nv) && j + 1 < nu
    modifies RowSet(d)
    ensures MatDividing(old(Contents(d)), Contents(d), nv, j - 1, cnst)
  {
    hide SubRow, ScaledRow, Dividing;
    ghost var s := Contents(d);
    forall p: Part, m | 0 <= m < nv
      ensures Dividing(Col(s, p, m), Col(s, p, m), nu - 2, cnst)
    {
      DividingStart(Col(s, p, m), cnst);
    }
    var k := nu - 2;
    while k >= j
      invariant j - 1 <= k <= nu - 2
      invariant MatDividing(s, Contents(d), nv, k, cnst)
    {
      ghost var d0 := Contents(d);
      DAdd(d[k], d[k + 1], cnst);
      assert Contents(d) == d0[k := SubRow(d0[k], ScaledRow(cnst, d0[k + 1]))];
      MatDividingNext(s, d0, nv, k, cnst, Contents(d));
      k := k - 1;
    }
  }

  method ShiftRows(d: Mat, nu: nat, nv: nat, cnst: real)
    requires Shape(d, nu, nv)
    modifies RowSet(d)
    ensures forall p: Part, m :: 0 <= m < nv ==>
      Col(Contents(d), p, m) == Shifted(Col(old(Contents(d)), p, m), cnst)
  {
    hide Dividing, Shifting, Shifted;
    ghost var s := Contents(d);
    forall p: Part, m | 0 <= m < nv
      ensures Shifting(Col(s, p, m), Col(s, p, m), 0, cnst)
    {
      ShiftingStart(Col(s, p, m), cnst);
    }
    var j := 0;
    while j <= nu - 2
      invariant 0 <= j && (nu >= 1 ==> j <= nu - 1)
      invariant MatShifting(s, Contents(d), nv, j, cnst)
    {
      ghost var d0 := Contents(d);
      DivideRows(d, nu, nv, cnst, j);
      forall p: Part, m | 0 <= m < nv
        ensures Shifting(Col(s, p, m), Col(Contents(d), p, m), j + 1, cnst)
      {
        ShiftingNext(Col(s, p, m), Col(d0, p, m), Col(Contents(d), p, m), j, cnst);
      }
      j := j + 1;
    }
    forall p: Part, m | 0 <= m < nv
      ensures Col(Contents(d), p, m) == Shifted(Col(s, p, m), cnst)
    {
      ShiftingEnd(Col(s, p, m), Col(Contents(d), p, m), j, cnst);
    }
  }

  // In place, every column becomes the power series in the argument from a to b.
  method ColShift(a: real, b: real, d: Mat, nu: nat, nv: nat)
    requires a != b && Shape(d, nu, nv)
    modifies RowSet(d)
    ensures forall p: Part, m :: 0 <= m < nv ==>
      Col(Contents(d), p, m) == ToRange(Col(old(Contents(d)), p, m), a, b)
  {
    hide Scaled, Shifted;
    ScaleRows(d, nu, nv, 2.0 / (b - a));
    ShiftRows(d, nu, nv, 0.5 * (a + b));
  }
}
