/** bch2bps.c: a bivariate Chebyshev series becomes a bivariate power series,
    row by row into a work matrix and then column by column back in place. */
module Bch2Bps {
  import opened Series
  import opened ChebPower
  import opened Matrix
  import opened BchCols

  // ---------- loop invariants of one row, both components at once ----------

  ghost predicate RowHeld(c: seq<UV>, d: seq<UV>, dd: seq<UV>, j: nat) {
    forall p: Part :: Held(Parts(c, p), Parts(d, p), Parts(dd, p), j)
  }

  ghost predicate RowStepping(c: seq<UV>, d: seq<UV>, dd: seq<UV>, j: nat, k: int) {
    forall p: Part :: Stepping(Parts(c, p), Parts(d, p), Parts(dd, p), j, k)
  }

  ghost predicate RowClosing(c: seq<UV>, d: seq<UV>, dd: seq<UV>, k: int) {
    forall p: Part :: Closing(Parts(c, p), Parts(d, p), Parts(dd, p), k)
  }

  lemma PartsUpdate(s: seq<UV>, k: nat, q: UV, p: Part)
    requires k < |s|
    ensures Parts(s[k := q], p) == Parts(s, p)[k := Get(q, p)]
  {
  }

  lemma RowStart(c: seq<UV>, d: seq<UV>, dd: seq<UV>)
    requires |c| == |d| == |dd| >= 1
    requires d[0] == c[|c| - 1] && dd[0] == UV(0.0, 0.0)
    requires forall i :: 1 <= i < |c| ==> d[i] == dd[i] == UV(0.0, 0.0)
    ensures RowHeld(c, d, dd, |c| - 1)
  {
    forall p: Part
      ensures Held(Parts(c, p), Parts(d, p), Parts(dd, p), |c| - 1)
    {
      HeldStart(Parts(c, p), Parts(d, p), Parts(dd, p));
    }
  }

  lemma RowSteppingStart(c: seq<UV>, d: seq<UV>, dd: seq<UV>, j: nat)
    requires 1 <= j < |c| && RowHeld(c, d, dd, j + 1)
    ensures RowStepping(c, d, dd, j, |c| - j)
  {
    hide Stepping, Held;
    forall p: Part
      ensures Stepping(Parts(c, p), Parts(d, p), Parts(dd, p), j, |c| - j)
    {
      SteppingStart(Parts(c, p), Parts(d, p), Parts(dd, p), j);
    }
  }

  lemma RowSteppingNext(c: seq<UV>, d: seq<UV>, dd: seq<UV>, j: nat, k: nat)
    requires |d| == |dd| == |c|
    requires 1 <= j < |c| && 1 <= k < |c| && RowStepping(c, d, dd, j, k)
    ensures RowStepping(c, d[k := Sub(Scale(2.0, d[k - 1]), dd[k])],
                        dd[k := d[k]], j, k - 1)
  {
    hide Stepping;
    var q := Sub(Scale(2.0, d[k - 1]), dd[k]);
    forall p: Part
      ensures Stepping(Parts(c, p), Parts(d[k := q], p), Parts(dd[k := d[k]], p), j, k - 1)
    {
      PartsUpdate(d, k, q, p);
      PartsUpdate(dd, k, d[k], p);
      SteppingNext(Parts(c, p), Parts(d, p), Parts(dd, p), j, k);
    }
  }

  lemma RowSteppingEnd(c: seq<UV>, d: seq<UV>, dd: seq<UV>, j: nat)
    requires |d| == |dd| == |c|
    requires 1 <= j < |c| && RowStepping(c, d, dd, j, 0)
    ensures RowHeld(c, d[0 := Sub(c[j], dd[0])], dd[0 := d[0]], j)
  {
    hide Stepping, Held;
    var q := Sub(c[j], dd[0]);
    forall p: Part
      ensures Held(Parts(c, p), Parts(d[0 := q], p), Parts(dd[0 := d[0]], p), j)
    {
      PartsUpdate(d, 0, q, p);
      PartsUpdate(dd, 0, d[0], p);
      SteppingEnd(Parts(c, p), Parts(d, p), Parts(dd, p), j);
    }
  }

  lemma RowClosingStart(c: seq<UV>, d: seq<UV>, dd: seq<UV>)
    requires |c| > 1 && RowHeld(c, d, dd, 1)
    ensures RowClosing(c, d, dd, |c| - 1)
  {
    hide Closing, Held;
    forall p: Part
      ensures Closing(Parts(c, p), Parts(d, p), Parts(dd, p), |c| - 1)
    {
      ClosingStart(Parts(c, p), Parts(d, p), Parts(dd, p));
    }
  }

  lemma RowClosingNext(c: seq<UV>, d: seq<UV>, dd: seq<UV>, k: nat)
    requires |d| == |dd| == |c|
    requires 1 <= k < |c| && RowClosing(c, d, dd, k)
    ensures RowClosing(c, d[k := Sub(d[k - 1], dd[k])], dd, k - 1)
  {
    hide Closing;
    var q := Sub(d[k - 1], dd[k]);
    forall p: Part
      ensures Closing(Parts(c, p), Parts(d[k := q], p), Parts(dd, p), k - 1)
    {
      PartsUpdate(d, k, q, p);
      ClosingNext(Parts(c, p), Parts(d, p), Parts(dd, p), k);
    }
  }

  lemma RowEnd(c: seq<UV>, d: seq<UV>, dd: seq<UV>)
    requires |d| == |dd| == |c| >= 1
    requires if |c| == 1 then RowHeld(c, d, dd, 0) else RowClosing(c, d, dd, 0)
    ensures forall p: Part ::
      Parts(d[0 := Sub(Scale(0.5, c[0]), dd[0])], p) == ChebToPower(Parts(c, p))
  {
    hide Closing, Held, ChebToPower;
    var q := Sub(Scale(0.5, c[0]), dd[0]);
    forall p: Part
      ensures Parts(d[0 := q], p) == ChebToPower(Parts(c, p))
    {
      PartsUpdate(d, 0, q, p);
      if |c| == 1 {
        ClosingSingle(Parts(c, p), Parts(d, p), Parts(dd, p));
      } else {
        ClosingEnd(Parts(c, p), Parts(d, p), Parts(dd, p));
      }
    }
  }

  // ---------- one row ----------

  // Convert one row to a power series.
  method Rows(c: array<UV>, d: array<UV>)
    requires c != d && c.Length == d.Length >= 1
    modifies d
    ensures forall p: Part :: Parts(d[..], p) == ChebToPower(Parts(c[..], p))
  {
    hide *;
    var n := c.Length;
    var dd := new UV[n](_ => UV(0.0, 0.0));
    var j := 0;
    while j < n
      invariant 0 <= j <= n
      invariant forall i :: 0 <= i < j ==> d[i] == dd[i] == UV(0.0, 0.0)
      invariant c[..] == old(c[..])
    {
      dd[j] := UV(0.0, 0.0);
      d[j] := dd[j];
      j := j + 1;
    }
    d[0] := c[n - 1];
    RowStart(c[..], d[..], dd[..]);
    j := n - 2;
    while j >= 1
      invariant -1 <= j <= n - 2 && (n > 1 ==> j >= 0)
      invariant c[..] == old(c[..])
      invariant RowHeld(c[..], d[..], dd[..], j + 1)
    {
      RowSteppingStart(c[..], d[..], dd[..], j);
      var k := n - j;
      while k >= 1
        invariant 0 <= k <= n - j
        invariant c[..] == old(c[..])
        invariant RowStepping(c[..], d[..], dd[..], j, k)
      {
        RowSteppingNext(c[..], d[..], dd[..], j, k);
        var sv := d[k];
        d[k] := Sub(Scale(2.0, d[k - 1]), dd[k]);
        dd[k] := sv;
        k := k - 1;
      }
      RowSteppingEnd(c[..], d[..], dd[..], j);
      var sv := d[0];
      d[0] := Sub(c[j], dd[0]);
      dd[0] := sv;
      j := j - 1;
    }
    if n > 1 {
      RowClosingStart(c[..], d[..], dd[..]);
    }
    j := n - 1;
    while j >= 1
      invariant 0 <= j <= n - 1
      invariant c[..] == old(c[..])
      invariant if n == 1 then RowHeld(c[..], d[..], dd[..], 0) else RowClosing(c[..], d[..], dd[..], j)
    {
      RowClosingNext(c[..], d[..], dd[..], j);
      d[j] := Sub(d[j - 1], dd[j]);
      j := j - 1;
    }
    RowEnd(c[..], d[..], dd[..]);
    d[0] := Sub(Scale(0.5, c[0]), dd[0]);
  }

  // ---------- change of range for one row ----------

  ghost predicate RowScaled(s: seq<UV>, d: seq<UV>, fac: real, j: nat) {
    && |d| == |s|
    && forall i :: 0 <= i < |s| ==>
         d[i] == if i < j then Scale(Pow(fac, i), s[i]) else s[i]
  }

  lemma RowScaledNext(s: seq<UV>, d: seq<UV>, fac: real, j: nat, f: real)
    requires RowScaled(s, d, fac, j) && j < |s| && f == Pow(fac, j)
    ensures RowScaled(s, d[j := Scale(f, d[j])], fac, j + 1)
    ensures f * fac == Pow(fac, j + 1)
  {
    PowStep(fac, j);
  }

  lemma RowScaledEnd(s: seq<UV>, d: seq<UV>, fac: real, j: nat, p: Part)
    requires RowScaled(s, d, fac, j) && j >= |s|
    ensures Parts(d, p) == Scaled(Parts(s, p), fac)
  {
    hide Pow;
    forall i | 0 <= i < |s|
      ensures Parts(d, p)[i] == Times(Pow(fac, i), Parts(s, p)[i])
    {
      assert d[i] == Scale(Pow(fac, i), s[i]);
    }
  }

  lemma RowScaledStart(s: seq<UV>, fac: real)
    ensures RowScaled(s, s, fac, 1)
    ensures fac == Pow(fac, 1)
  {
    assert Pow(fac, 0) == 1.0;
    forall i | 0 <= i < |s| && i < 1
      ensures s[i] == Scale(Pow(fac, i), s[i])
    {
    }
  }

  ghost predicate RowShifting(s: seq<UV>, d: seq<UV>, j: nat, c: real) {
    forall p: Part :: Shifting(Parts(s, p), Parts(d, p), j, c)
  }

  ghost predicate RowDividing(s: seq<UV>, d: seq<UV>, k: int, c: real)
    requires -1 <= k < |s|
  {
    forall p: Part :: Dividing(Parts(s, p), Parts(d, p), k, c)
  }

  lemma RowDividingNext(s: seq<UV>, d: seq<UV>, k: nat, c: real)
    requires |d| == |s| && k + 1 < |s| && RowDividing(s, d, k, c)
    ensures RowDividing(s, d[k := Sub(d[k], Scale(c, d[k + 1]))], k - 1, c)
  {
    hide Dividing;
    var q := Sub(d[k], Scale(c, d[k + 1]));
    forall p: Part
      ensures Dividing(Parts(s, p), Parts(d[k := q], p), k - 1, c)
    {
      PartsUpdate(d, k, q, p);
      DividingNext(Parts(s, p), Parts(d, p), k, c);
      assert Get(q, p) == MinusTimes(Parts(d, p)[k], c, Parts(d, p)[k + 1]);
    }
  }

  // In place, the row becomes the power series in the argument from a to b.
  method RowShift(a: real, b: real, d: array<UV>)
    requires a != b
    modifies d
    ensures forall p: Part :: Parts(d[..], p) == ToRange(Parts(old(d[..]), p), a, b)
  {
    hide Pow, Scale, Sub, RowScaled, Shifting, Dividing, Shifted;
    var n := d.Length;
    var cnst := 2.0 / (b - a);
    var fac := cnst;
    var j := 1;
    ghost var s := d[..];
    RowScaledStart(s, cnst);
    while j < n
      invariant j >= 1
      invariant fac == Pow(cnst, j)
      invariant RowScaled(s, d[..], cnst, j)
    {
      RowScaledNext(s, d[..], cnst, j, fac);
      d[j] := Scale(fac, d[j]);
      fac := fac * cnst;
      j := j + 1;
    }
    forall p: Part
      ensures Parts(d[..], p) == Scaled(Parts(s, p), cnst)
    {
      RowScaledEnd(s, d[..], cnst, j, p);
    }
    s := d[..];
    cnst := 0.5 * (a + b);
    j := 0;
    forall p: Part
      ensures Shifting(Parts(s, p), Parts(s, p), 0, cnst)
    {
      ShiftingStart(Parts(s, p), cnst);
    }
    while j <= n - 2
      invariant 0 <= j && (n >= 1 ==> j <= n - 1)
      invariant RowShifting(s, d[..], j, cnst)
    {
      ghost var before := d[..];
      forall p: Part
        ensures Dividing(Parts(before, p), Parts(before, p), n - 2, cnst)
      {
        DividingStart(Parts(before, p), cnst);
      }
      var k := n - 2;
      while k >= j
        invariant j - 1 <= k <= n - 2
        invariant RowDividing(before, d[..], k, cnst)
      {
        RowDividingNext(before, d[..], k, cnst);
        d[k] := Sub(d[k], Scale(cnst, d[k + 1]));
        k := k - 1;
      }
      forall p: Part
        ensures Shifting(Parts(s, p), Parts(d[..], p), j + 1, cnst)
      {
        ShiftingNext(Parts(s, p), Parts(before, p), Parts(d[..], p), j, cnst);
      }
      j := j + 1;
    }
    forall p: Part
      ensures Parts(d[..], p) == Shifted(Parts(s, p), cnst)
    {
      ShiftingEnd(Parts(s, p), Parts(d[..], p), j, cnst);
    }
  }

  // ---------- the whole matrix ----------

  // the first i rows of y are those of x, converted
  ghost predicate RowsDone(x: seq<seq<UV>>, y: seq<seq<UV>>, a: real, b: real, i: nat)
    requires a != b
  {
    && |x| == |y|
    && forall p: Part, k :: 0 <= k < i && k < |x| ==> Parts(y[k], p) == Converted(Parts(x[k], p), a, b)
  }

  lemma RowsNext(x: seq<seq<UV>>, y: seq<seq<UV>>, z: seq<seq<UV>>, a: real, b: real, i: nat)
    requires a != b && RowsDone(x, y, a, b, i) && i < |x|
    requires |z| == |y| && forall k :: 0 <= k < |y| && k != i ==> z[k] == y[k]
    requires forall p: Part :: Parts(z[i], p) == Converted(Parts(x[i], p), a, b)
    ensures RowsDone(x, z, a, b, i + 1)
  {
    hide Converted, Parts;
  }

  lemma RowsAll(x: seq<seq<UV>>, y: seq<seq<UV>>, a: real, b: real)
    requires a != b && RowsDone(x, y, a, b, |x|)
    ensures forall p: Part :: MatParts(y, p) == RowsConverted(MatParts(x, p), a, b)
  {
    hide Converted, Parts;
  }

  // Rows of c to power series, into d.
  method ConvertRows(a: real, b: real, c: Mat, d: Mat, nu: nat, nv: nat)
    requires nv >= 1 && a != b && Shape(c, nu, nv) && Shape(d, nu, nv) && Apart(c, d)
    modifies RowSet(d)
    ensures Contents(c) == old(Contents(c))
    ensures forall p: Part :: MatParts(Contents(d), p) == RowsConverted(MatParts(Contents(c), p), a, b)
  {
    hide RowsDone, Converted, Parts;
    ghost var c0 := Contents(c);
    RowsNone(c0, Contents(d), a, b);
    for i := 0 to nu
      invariant Contents(c) == c0
      invariant RowsDone(c0, Contents(d), a, b, i)
    {
      ghost var d0 := Contents(d);
      ConvertRow(a, b, c, d, nu, nv, i);
      RowsNext(c0, d0, Contents(d), a, b, i);
    }
    RowsAll(c0, Contents(d), a, b);
  }

  lemma RowsNone(x: seq<seq<UV>>, y: seq<seq<UV>>, a: real, b: real)
    requires a != b && |x| == |y|
    ensures RowsDone(x, y, a, b, 0)
  {
  }

  method ConvertRow(a: real, b: real, c: Mat, d: Mat, nu: nat, nv: nat, i: nat)
    requires nv >= 1 && a != b && Shape(c, nu, nv) && Shape(d, nu, nv) && Apart(c, d) && i < nu
    modifies d[i]
    ensures Contents(c) == old(Contents(c))
    ensures forall k :: 0 <= k < nu && k != i ==> Contents(d)[k] == old(Contents(d))[k]
    ensures forall p: Part :: Parts(Contents(d)[i], p) == Converted(Parts(old(Contents(c))[i], p), a, b)
  {
    hide ChebToPower, ToRange, Parts;
    ghost var s := c[i][..];
    Rows(c[i], d[i]);
    RowShift(a, b, d[i]);
    assert Contents(d)[i] == d[i][..] && old(Contents(c))[i] == s;
  }

  // The entry point.  On success c holds power series coefficients whose value at
  // every (u, v) is that of the given Chebyshev series at the normalised point.
  method Convert(a: UV, b: UV, c: Mat, nu: int, nv: int) returns (ok: bool)
    requires nu >= 1 && nv >= 1 ==> Shape(c, nu, nv)
    requires a.u != b.u && a.v != b.v
    modifies RowSet(c)
    ensures ok <==> nu >= 1 && nv >= 1
    ensures !ok ==> Contents(c) == old(Contents(c))
    ensures ok ==> Wide(Contents(c), nv)
    ensures ok ==> forall p: Part, u: real, v: real ::
      Bilinear(PowerBasis(u), PowerBasis(v), MatParts(Contents(c), p))
      == Bilinear(ChebBasis(Normalised(u, a.u, b.u)), ChebBasis(Normalised(v, a.v, b.v)),
                  MatParts(old(Contents(c)), p))
  {
    if nu < 1 || nv < 1 {
      return false;
    }
    hide ChebToPower, ToRange, Bilinear, RowsConverted;
    ghost var c0 := Contents(c);
    var d := NewMatrix(nu, nv);
    ConvertRows(a.v, b.v, c, d, nu, nv);
    ghost var d1 := Contents(d);
    Cols(d, c, nu, nv);
    ghost var c1 := Contents(c);
    ColShift(a.u, b.u, c, nu, nv);
    forall p: Part, u: real, v: real
      ensures Bilinear(PowerBasis(u), PowerBasis(v), MatParts(Contents(c), p))
        == Bilinear(ChebBasis(Normalised(u, a.u, b.u)), ChebBasis(Normalised(v, a.v, b.v)), MatParts(c0, p))
    {
      AllColumns(d1, c1, Contents(c), nv, a.u, b.u, p);
      MatrixConverted(MatParts(c0, p), MatParts(Contents(c), p), nv, a.u, b.u, a.v, b.v, u, v);
    }
    return true;
  }

  lemma AllColumns(d: seq<seq<UV>>, c1: seq<seq<UV>>, c2: seq<seq<UV>>, nv: nat, a: real, b: real, p: Part)
    requires |d| == |c1| == |c2| && Wide(d, nv) && Wide(c1, nv) && Wide(c2, nv) && a != b
    requires forall m :: 0 <= m < nv ==> Col(c1, p, m) == ChebToPower(Col(d, p, m))
    requires forall m :: 0 <= m < nv ==> Col(c2, p, m) == ToRange(Col(c1, p, m), a, b)
    ensures ColumnsConverted(MatParts(d, p), MatParts(c2, p), nv, a, b)
  {
    hide ChebToPower, ToRange;
    forall m | 0 <= m < nv
      ensures Rect(MatParts(d, p), nv) && Rect(MatParts(c2, p), nv)
      ensures Column(MatParts(c2, p), m) == Converted(Column(MatParts(d, p), m), a, b)
    {
      ColOfParts(d, nv, p, m);
      ColOfParts(c2, nv, p, m);
    }
  }
}
