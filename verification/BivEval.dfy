/** biveval.c: evaluation of a stored bivariate series, either by a doubly nested
    Clenshaw recurrence or by nested Horner schemes over ragged rows. */
module BivEval {
  import opened Series
  import opened Matrix

  // Row i of cu holds the first |cu[i]| coefficients; a row may be empty.
  datatype Tseries = Tseries(a: UV, b: UV, cu: seq<seq<real>>, cv: seq<seq<real>>, power: bool) {
    function Coefficients(p: Part): seq<seq<real>> {
      if p == InU then cu else cv
    }
  }

  // HUGE_VAL in both components, or a finite pair
  datatype Value = Huge | Finite(uv: UV)

  const NEAR_ONE: real := 1.00001

  // The Clenshaw loop over one row with at least one coefficient.
  method RowLoop(c: seq<real>, y2: real) returns (vd: real, vdd: real)
    requires |c| >= 1
    ensures vd == Clenshaw(c, y2, 1) && vdd == Clenshaw(c, y2, 2)
  {
    hide Clenshaw;
    ClenshawEnd(c, y2, |c|);
    ClenshawEnd(c, y2, |c| + 1);
    vd, vdd := 0.0, 0.0;
    var j := |c| - 1;
    while j != 0
      invariant 0 <= j < |c|
      invariant vd == Clenshaw(c, y2, j + 1) && vdd == Clenshaw(c, y2, j + 2)
    {
      var tmp := vd;
      ClenshawStepFrom(c, y2, j, tmp, vdd, c[j]);
      vd := y2 * tmp - vdd + c[j];
      vdd := tmp;
      j := j - 1;
    }
  }

  lemma RowLoopEnd(c: seq<real>, y: real, y2: real, vd: real, vdd: real)
    requires |c| >= 1 && y2 == y + y
    requires vd == Clenshaw(c, y2, 1) && vdd == Clenshaw(c, y2, 2)
    ensures Dot(ChebBasis(y), c) == y * vd - vdd + 0.5 * c[0]
  {
    hide *;
    ChebClenshaw(c, y, y2);
  }

  // The value of one row: nothing for an empty one.
  method RowValue(c: seq<real>, y: real, y2: real) returns (row: real)
    requires y2 == y + y
    ensures row == Dot(ChebBasis(y), c)
  {
    hide *;
    if |c| != 0 {
      var vd, vdd := RowLoop(c, y2);
      RowLoopEnd(c, y, y2, vd, vdd);
      return y * vd - vdd + 0.5 * c[0];
    } else {
      EmptyRow(y, c);
      return 0.0;
    }
  }

  // Bivariate Clenshaw: the direct Chebyshev double sum.
  method CEval(c: seq<seq<real>>, w: UV, w2: UV) returns (r: real)
    requires |c| >= 1
    requires w2 == UV(w.u + w.u, w.v + w.v)
    ensures r == Bilinear(ChebBasis(w.u), ChebBasis(w.v), c)
  {
    hide Clenshaw, Dot, ChebBasis;
    ghost var rows := RowSums(ChebBasis(w.v), c);
    var d, dd := 0.0, 0.0;
    var i := |c| - 1;
    ClenshawEnd(rows, w2.u, i + 1);
    ClenshawEnd(rows, w2.u, i + 2);
    while i > 0
      invariant 0 <= i < |c|
      invariant d == Clenshaw(rows, w2.u, i + 1) && dd == Clenshaw(rows, w2.u, i + 2)
    {
      var tmp := d;
      var row := RowValue(c[i], w.v, w2.v);
      ClenshawStepFrom(rows, w2.u, i, tmp, dd, row);
      d := w2.u * tmp - dd + row;
      dd := tmp;
      i := i - 1;
    }
    var row := RowValue(c[0], w.v, w2.v);
    RowLoopEnd(rows, w.u, w2.u, d, dd);
    return w.u * d - dd + 0.5 * row;
  }

  lemma ClenshawEnd(c: seq<real>, alpha: real, j: nat)
    requires j >= |c|
    ensures Clenshaw(c, alpha, j) == 0.0
  {
  }

  lemma EmptyRow(y: real, c: seq<real>)
    requires c == []
    ensures Dot(ChebBasis(y), c) == 0.0
  {
  }

  // The Chebyshev argument: scaled to -1..1.
  function Rescaled(x: real, shift: real, factor: real): real {
    (x + x - shift) * factor
  }

  function Argument(pt: UV, t: Tseries): UV {
    UV(Rescaled(pt.u, t.a.u, t.b.u), Rescaled(pt.v, t.a.v, t.b.v))
  }

  predicate InRange(w: UV) {
    !(Abs(w.u) > NEAR_ONE || Abs(w.v) > NEAR_ONE)
  }

  // Both double Chebyshev sums at the scaled argument, refused exactly outside the range.
  method BchEval(pt: UV, t: Tseries) returns (r: Value)
    requires |t.cu| >= 1 && |t.cv| >= 1
    ensures r.Finite? <==> InRange(Argument(pt, t))
    ensures r.Finite? <==> Abs(Argument(pt, t).u) <= 1.00001 && Abs(Argument(pt, t).v) <= 1.00001
    ensures r.Finite? ==> forall p: Part ::
      Get(r.uv, p) == Bilinear(ChebBasis(Argument(pt, t).u), ChebBasis(Argument(pt, t).v), t.Coefficients(p))
  {
    hide Bilinear;
    var w := Argument(pt, t);
    if Abs(w.u) > NEAR_ONE || Abs(w.v) > NEAR_ONE {
      return Huge;
    }
    var w2 := UV(w.u + w.u, w.v + w.v);
    var u := CEval(t.cu, w, w2);
    var v := CEval(t.cv, w, w2);
    return Finite(UV(u, v));
  }

  // Horner over one row, from the last stored coefficient.
  method RowHorner(c: seq<real>, y: real) returns (row: real)
    ensures row == Dot(PowerBasis(y), c)
  {
    hide Dot;
    row := 0.0;
    var m := |c|;
    while m != 0
      invariant 0 <= m <= |c|
      invariant row == Horner(c[m..], y)
    {
      m := m - 1;
      HornerUnfold(c, y, m);
      row := c[m] + y * row;
    }
    assert c[0..] == c;
    HornerSum(c, y);
  }

  lemma HornerUnfold(c: seq<real>, x: real, m: nat)
    requires m < |c|
    ensures Horner(c[m..], x) == c[m] + x * Horner(c[m + 1..], x)
  {
    assert c[m..][1..] == c[m + 1..];
  }

  // Nested Horner over all rows, from the last row.
  method PEval(c: seq<seq<real>>, pt: UV) returns (r: real)
    ensures r == Bilinear(PowerBasis(pt.u), PowerBasis(pt.v), c)
  {
    hide Dot, Horner;
    ghost var rows := RowSums(PowerBasis(pt.v), c);
    r := 0.0;
    var i := |c| - 1;
    HornerEnd(rows, pt.u);
    while i >= 0
      invariant -1 <= i < |c|
      invariant r == Horner(rows[i + 1..], pt.u)
    {
      var row := RowHorner(c[i], pt.v);
      HornerUnfold(rows, pt.u, i);
      r := row + pt.u * r;
      i := i - 1;
    }
    assert rows[0..] == rows;
    HornerSum(rows, pt.u);
  }

  lemma HornerEnd(c: seq<real>, x: real)
    ensures Horner(c[|c|..], x) == 0.0
  {
  }

  // Both double power sums, at any argument.
  method BpsEval(pt: UV, t: Tseries) returns (r: UV)
    ensures forall p: Part ::
      Get(r, p) == Bilinear(PowerBasis(pt.u), PowerBasis(pt.v), t.Coefficients(p))
  {
    hide Bilinear;
    var u := PEval(t.cu, pt);
    var v := PEval(t.cv, pt);
    return UV(u, v);
  }

  // What a stored series stands for at a point: the direct double sum of its form.
  function SeriesValue(t: Tseries, pt: UV, p: Part): real {
    if t.power then
      Bilinear(PowerBasis(pt.u), PowerBasis(pt.v), t.Coefficients(p))
    else
      var w := Argument(pt, t);
      Bilinear(ChebBasis(w.u), ChebBasis(w.v), t.Coefficients(p))
  }

  // Whichever form is stored, the answer is what the series stands for.
  method Evaluate(pt: UV, t: Tseries) returns (r: Value)
    requires !t.power ==> |t.cu| >= 1 && |t.cv| >= 1
    ensures r.Finite? <==> t.power || InRange(Argument(pt, t))
    ensures r.Finite? ==> forall p: Part :: Get(r.uv, p) == SeriesValue(t, pt, p)
  {
    hide Bilinear;
    if t.power {
      var uv := BpsEval(pt, t);
      r := Finite(uv);
    } else {
      r := BchEval(pt, t);
    }
  }
}
