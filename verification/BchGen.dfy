/** bchgen.c: sampling a function on the Chebyshev nodes of a box and turning the
    samples, in place, into the coefficients of a bivariate Chebyshev series.
    The cosine is a parameter: nothing below depends on what it computes. */
module BchGen {
  import opened Common
  import opened Series
  import opened Matrix
  import opened BivEval

  type Cosine = real -> real
  type Sampled = UV -> Value

  // ---------- the samples ----------

  // node i of n in the interval from lo to hi
  function Node(cosine: Cosine, i: nat, n: nat, lo: real, hi: real): real
    requires n >= 1
  {
    cosine(PI * (i as real + 0.5) / (n as real)) * (0.5 * (hi - lo)) + 0.5 * (hi + lo)
  }

  function SamplePoint(cosine: Cosine, a: UV, b: UV, nu: nat, nv: nat, i: nat, j: nat): UV
    requires nu >= 1 && nv >= 1
  {
    UV(Node(cosine, i, nu, a.u, b.u), Node(cosine, j, nv, a.v, b.v))
  }

  ghost predicate AllFinite(cosine: Cosine, func: Sampled, a: UV, b: UV, nu: nat, nv: nat)
    requires nu >= 1 && nv >= 1
  {
    forall i, j :: 0 <= i < nu && 0 <= j < nv ==> func(SamplePoint(cosine, a, b, nu, nv, i, j)).Finite?
  }

  ghost function Samples(cosine: Cosine, func: Sampled, a: UV, b: UV, nu: nat, nv: nat): (s: seq<seq<UV>>)
    requires nu >= 1 && nv >= 1 && AllFinite(cosine, func, a, b, nu, nv)
    ensures |s| == nu && Wide(s, nv)
  {
    seq(nu, i requires 0 <= i < nu =>
      seq(nv, j requires 0 <= j < nv => func(SamplePoint(cosine, a, b, nu, nv, i, j)).uv))
  }

  method SamplePass(a: UV, b: UV, nu: nat, nv: nat, f: Mat, cosine: Cosine, func: Sampled) returns (failed: bool)
    requires nu >= 1 && nv >= 1 && Shape(f, nu, nv)
    modifies RowSet(f)
    ensures !failed <==> AllFinite(cosine, func, a, b, nu, nv)
    ensures !failed ==> Contents(f) == Samples(cosine, func, a, b, nu, nv)
  {
    var i := 0;
    while i < nu
      invariant 0 <= i <= nu
      invariant forall k, l :: 0 <= k < i && 0 <= l < nv ==>
        func(SamplePoint(cosine, a, b, nu, nv, k, l)) == Finite(f[k][l])
    {
      var j := 0;
      while j < nv
        invariant 0 <= j <= nv
        invariant forall k, l :: 0 <= k < i && 0 <= l < nv ==>
          func(SamplePoint(cosine, a, b, nu, nv, k, l)) == Finite(f[k][l])
        invariant forall l :: 0 <= l < j ==>
          func(SamplePoint(cosine, a, b, nu, nv, i, l)) == Finite(f[i][l])
      {
        var value := func(SamplePoint(cosine, a, b, nu, nv, i, j));
        if value.Huge? {
          return true;
        }
        f[i][j] := value.uv;
        j := j + 1;
      }
      i := i + 1;
    }
    forall k | 0 <= k < nu
      ensures f[k][..] == Samples(cosine, func, a, b, nu, nv)[k]
    {
      assert forall l :: 0 <= l < nv ==>
        func(SamplePoint(cosine, a, b, nu, nv, k, l)) == Finite(f[k][l]);
    }
    return false;
  }

  // ---------- the cosine sums ----------

  // the argument of the cosine that sample k of n has in the sum for coefficient i
  function TermAngle(i: nat, k: nat, n: nat): real
    requires n >= 1
  {
    PI * (i as real) * (k as real + 0.5) / (n as real)
  }

  function CosTable(cosine: Cosine, i: nat, n: nat): Basis
    requires n >= 1
  {
    (k: nat) => cosine(TermAngle(i, k, n))
  }

  function Coefficient(cosine: Cosine, s: seq<real>, i: nat): real
    requires |s| >= 1
  {
    Times(2.0 / (|s| as real), Dot(CosTable(cosine, i, |s|), s))
  }

  function PairCoefficient(cosine: Cosine, s: seq<UV>, i: nat): UV
    requires |s| >= 1
  {
    UV(Coefficient(cosine, Parts(s, InU), i), Coefficient(cosine, Parts(s, InV), i))
  }

  function Transformed(cosine: Cosine, s: seq<UV>): (t: seq<UV>)
    requires |s| >= 1
    ensures |t| == |s|
  {
    seq(|s|, i requires 0 <= i < |s| => PairCoefficient(cosine, s, i))
  }

  function PairCol(w: seq<seq<UV>>, m: nat): (r: seq<UV>)
    requires forall i :: 0 <= i < |w| ==> m < |w[i]|
    ensures |r| == |w|
  {
    seq(|w|, i requires 0 <= i < |w| => w[i][m])
  }

  // one term of a running sum: what is added and what is still to come
  lemma SumStep(f: Basis, c: seq<real>, k: nat, acc: real)
    requires k < |c| && acc + Tail(f, c, k) == Dot(f, c)
    ensures acc + Times(c[k], f(k)) + Tail(f, c, k + 1) == Dot(f, c)
  {
  }

  lemma SumStart(f: Basis, c: seq<real>)
    ensures 0.0 + Tail(f, c, 0) == Dot(f, c)
  {
  }

  lemma SumEnd(f: Basis, c: seq<real>)
    ensures Tail(f, c, |c|) == 0.0
  {
  }

  // the two running sums of the innermost loop
  ghost predicate Running(g: Basis, s: seq<UV>, k: nat, arg: UV) {
    forall p: Part :: Get(arg, p) + Tail(g, Parts(s, p), k) == Dot(g, Parts(s, p))
  }

  function Added(arg: UV, q: UV, d: real): UV {
    UV(arg.u + Times(q.u, d), arg.v + Times(q.v, d))
  }

  lemma RunningStart(g: Basis, s: seq<UV>)
    ensures Running(g, s, 0, UV(0.0, 0.0))
  {
    forall p: Part
      ensures Get(UV(0.0, 0.0), p) + Tail(g, Parts(s, p), 0) == Dot(g, Parts(s, p))
    {
      SumStart(g, Parts(s, p));
    }
  }

  lemma RunningNext(g: Basis, s: seq<UV>, k: nat, arg: UV)
    requires k < |s| && Running(g, s, k, arg)
    ensures Running(g, s, k + 1, Added(arg, s[k], g(k)))
  {
    hide Tail, Dot, Times;
    forall p: Part
      ensures Get(Added(arg, s[k], g(k)), p) + Tail(g, Parts(s, p), k + 1) == Dot(g, Parts(s, p))
    {
      SumStep(g, Parts(s, p), k, Get(arg, p));
    }
  }

  lemma RunningEnd(cosine: Cosine, s: seq<UV>, i: nat, arg: UV, fac: real)
    requires |s| >= 1 && Running(CosTable(cosine, i, |s|), s, |s|, arg)
    requires fac == 2.0 / (|s| as real)
    ensures Scale(fac, arg) == PairCoefficient(cosine, s, i)
  {
    hide Tail, Dot;
    var g := CosTable(cosine, i, |s|);
    SumEnd(g, Parts(s, InU));
    SumEnd(g, Parts(s, InV));
    assert Get(arg, InU) == Dot(g, Parts(s, InU)) && Get(arg, InV) == Dot(g, Parts(s, InV));
  }

  // The sum for coefficient j of the row t.
  method RowCoefficient(t: array<UV>, nv: nat, j: nat, cosine: Cosine, fac: real) returns (r: UV)
    requires t.Length == nv >= 1 && fac == 2.0 / (nv as real)
    ensures r == PairCoefficient(cosine, t[..], j)
  {
    hide *;
    var arg := UV(0.0, 0.0);
    var k := 0;
    RunningStart(CosTable(cosine, j, nv), t[..]);
    while k < nv
      invariant 0 <= k <= nv
      invariant Running(CosTable(cosine, j, nv), t[..], k, arg)
    {
      var d := CosTable(cosine, j, nv)(k);
      RunningNext(CosTable(cosine, j, nv), t[..], k, arg);
      arg := Added(arg, t[k], d);
      k := k + 1;
    }
    RunningEnd(cosine, t[..], j, arg, fac);
    return Scale(fac, arg);
  }

  // The transform of one row t into the buffer c.
  method TransformRow(t: array<UV>, c: array<UV>, nv: nat, cosine: Cosine)
    requires t != c && t.Length == c.Length == nv >= 1
    modifies c
    ensures c[..] == Transformed(cosine, t[..])
  {
    hide PairCoefficient;
    var j := 0;
    while j < nv
      invariant 0 <= j <= nv
      invariant t[..] == old(t[..])
      invariant forall i :: 0 <= i < j ==> c[i] == PairCoefficient(cosine, t[..], i)
    {
      c[j] := RowCoefficient(t, nv, j, cosine, 2.0 / (nv as real));
      j := j + 1;
    }
  }

  // The sum for coefficient i of column j, whose entries are s.
  method ColumnCoefficient(f: Mat, nu: nat, nv: nat, j: nat, i: nat, cosine: Cosine, fac: real, ghost s: seq<UV>)
    returns (r: UV)
    requires nu >= 1 && Shape(f, nu, nv) && j < nv && fac == 2.0 / (nu as real)
    requires |s| == nu && forall k :: 0 <= k < nu ==> f[k][j] == s[k]
    ensures r == PairCoefficient(cosine, s, i)
  {
    hide Running, Added, PairCoefficient, Scale, CosTable;
    var arg := UV(0.0, 0.0);
    var k := 0;
    RunningStart(CosTable(cosine, i, nu), s);
    while k < nu
      invariant 0 <= k <= nu
      invariant Running(CosTable(cosine, i, nu), s, k, arg)
    {
      var d := CosTable(cosine, i, nu)(k);
      RunningNext(CosTable(cosine, i, nu), s, k, arg);
      arg := Added(arg, f[k][j], d);
      k := k + 1;
    }
    RunningEnd(cosine, s, i, arg, fac);
    return Scale(fac, arg);
  }

  // The transform of column j of f into the buffer c.
  method TransformColumn(f: Mat, c: array<UV>, nu: nat, nv: nat, j: nat, cosine: Cosine)
    requires nu >= 1 && Shape(f, nu, nv) && j < nv && c.Length == nu && c !in RowSet(f)
    modifies c
    ensures c[..] == Transformed(cosine, PairCol(Contents(f), j))
  {
    hide PairCoefficient;
    ghost var s := PairCol(Contents(f), j);
    var i := 0;
    while i < nu
      invariant 0 <= i <= nu
      invariant PairCol(Contents(f), j) == s
      invariant forall k :: 0 <= k < i ==> c[k] == PairCoefficient(cosine, s, k)
    {
      assert forall k :: 0 <= k < nu ==> s[k] == PairCol(Contents(f), j)[k] == f[k][j];
      c[i] := ColumnCoefficient(f, nu, nv, j, i, cosine, 2.0 / (nu as real), s);
      i := i + 1;
    }
  }

  // The buffer copied over column j.
  method StoreColumn(f: Mat, c: array<UV>, nu: nat, nv: nat, j: nat)
    requires Shape(f, nu, nv) && j < nv && c.Length == nu && c !in RowSet(f)
    modifies RowSet(f)
    ensures forall i :: 0 <= i < nu ==> f[i][..] == old(f[i][..])[j := c[i]]
  {
    var i := 0;
    while i < nu
      invariant 0 <= i <= nu
      invariant c[..] == old(c[..])
      invariant forall k :: 0 <= k < i ==> f[k][..] == old(f[k][..])[j := c[k]]
      invariant forall k :: i <= k < nu ==> f[k][..] == old(f[k][..])
    {
      f[i][j] := c[i];
      i := i + 1;
    }
  }

  // the first j columns of x are those of w, transformed, and the others are those of w
  ghost predicate ColumnsDone(cosine: Cosine, w: seq<seq<UV>>, x: seq<seq<UV>>, nv: nat, j: nat) {
    && |w| == |x| >= 1 && Wide(w, nv) && Wide(x, nv)
    && (forall l :: 0 <= l < j && l < nv ==> PairCol(x, l) == Transformed(cosine, PairCol(w, l)))
    && (forall l :: j <= l < nv ==> PairCol(x, l) == PairCol(w, l))
  }

  lemma ColumnsNext(cosine: Cosine, w: seq<seq<UV>>, x: seq<seq<UV>>, y: seq<seq<UV>>, nv: nat, j: nat)
    requires ColumnsDone(cosine, w, x, nv, j) && j < nv && |y| == |x| && Wide(y, nv)
    requires forall i :: 0 <= i < |x| ==> y[i] == x[i][j := Transformed(cosine, PairCol(x, j))[i]]
    ensures ColumnsDone(cosine, w, y, nv, j + 1)
  {
    hide Transformed, PairCol;
    ColumnReplaced(x, y, nv, j, Transformed(cosine, PairCol(x, j)));
  }

  // Every column of f replaced by its transform.
  method ColumnPass(f: Mat, nu: nat, nv: nat, cosine: Cosine)
    requires nu >= 1 && Shape(f, nu, nv)
    modifies RowSet(f)
    ensures forall j :: 0 <= j < nv ==>
      PairCol(Contents(f), j) == Transformed(cosine, PairCol(old(Contents(f)), j))
  {
    hide Transformed, PairCol, ColumnsDone;
    ghost var w := Contents(f);
    ColumnsStart(cosine, w, nv);
    var c := new UV[nu](_ => UV(0.0, 0.0));
    var j := 0;
    while j < nv
      invariant 0 <= j <= nv
      invariant ColumnsDone(cosine, w, Contents(f), nv, j)
    {
      ghost var before := Contents(f);
      TransformColumn(f, c, nu, nv, j, cosine);
      StoreColumn(f, c, nu, nv, j);
      ColumnsNext(cosine, w, before, Contents(f), nv, j);
      j := j + 1;
    }
    ColumnsEnd(cosine, w, Contents(f), nv);
  }

  lemma ColumnsStart(cosine: Cosine, w: seq<seq<UV>>, nv: nat)
    requires |w| >= 1 && Wide(w, nv)
    ensures ColumnsDone(cosine, w, w, nv, 0)
  {
  }

  lemma ColumnsEnd(cosine: Cosine, w: seq<seq<UV>>, x: seq<seq<UV>>, nv: nat)
    requires ColumnsDone(cosine, w, x, nv, nv)
    ensures Wide(w, nv) && Wide(x, nv) && |x| == |w| >= 1
    ensures forall j :: 0 <= j < nv ==> PairCol(x, j) == Transformed(cosine, PairCol(w, j))
  {
    hide Transformed, PairCol;
  }

  lemma ColumnReplaced(w: seq<seq<UV>>, x: seq<seq<UV>>, nv: nat, j: nat, col: seq<UV>)
    requires |x| == |w| == |col| && Wide(w, nv) && Wide(x, nv) && j < nv
    requires forall i :: 0 <= i < |w| ==> x[i] == w[i][j := col[i]]
    ensures PairCol(x, j) == col
    ensures forall l :: 0 <= l < nv && l != j ==> PairCol(x, l) == PairCol(w, l)
  {
  }

  ghost predicate Distinct(bufs: seq<array<UV>>) {
    forall k, l :: 0 <= k < l < |bufs| ==> bufs[k] != bufs[l]
  }

  // The buffers during the row pass, spare one first: those before i hold
  // transformed rows, those after i still hold the rows they came with.
  ghost predicate Rotating(bufs: seq<array<UV>>, w: seq<seq<UV>>, i: nat, nv: nat, cosine: Cosine)
    requires |bufs| == |w| + 1 && Wide(w, nv) && nv >= 1
    reads bufs
  {
    && (forall k :: 0 <= k < |bufs| ==> bufs[k].Length == nv)
    && (forall k :: 0 <= k < i && k < |w| ==> bufs[k][..] == Transformed(cosine, w[k]))
    && (forall k :: i <= k < |w| ==> bufs[k + 1][..] == w[k])
  }

  // Fill buffer i from buffer i + 1.
  method RotateStep(ghost bufs: seq<array<UV>>, ghost w: seq<seq<UV>>, c: array<UV>, t: array<UV>,
                    i: nat, nv: nat, cosine: Cosine)
    requires Distinct(bufs) && |bufs| == |w| + 1 && Wide(w, nv) && nv >= 1 && i < |w|
    requires c == bufs[i] && t == bufs[i + 1]
    requires Rotating(bufs, w, i, nv, cosine)
    modifies c
    ensures Rotating(bufs, w, i + 1, nv, cosine)
  {
    hide Transformed;
    TransformRow(t, c, nv, cosine);
    forall k | 0 <= k < i + 1
      ensures bufs[k][..] == Transformed(cosine, w[k])
    {
      assert k < i ==> bufs[k][..] == old(bufs[k][..]);
    }
    forall k | i + 1 <= k < |w|
      ensures bufs[k + 1][..] == w[k]
    {
      assert bufs[k + 1][..] == old(bufs[k + 1][..]);
    }
  }

  // Every row of f replaced by its transform.  The row buffers move down by one
  // place; the last original buffer drops out and is released.
  method RowPass(f: Mat, nu: nat, nv: nat, cosine: Cosine) returns (released: array<UV>)
    requires nu >= 1 && nv >= 1 && Shape(f, nu, nv)
    modifies f, RowSet(f)
    ensures Shape(f, nu, nv)
    ensures fresh(f[0]) && forall i :: 1 <= i < nu ==> f[i] == old(f[i - 1])
    ensures released == old(f[nu - 1]) && released !in RowSet(f)
    ensures forall i :: 0 <= i < nu ==> f[i][..] == Transformed(cosine, old(f[i][..]))
  {
    hide Transformed, Rotating, Distinct, Wide;
    var c := new UV[nv](_ => UV(0.0, 0.0));
    ghost var bufs := [c] + f[..];
    ghost var w := Contents(f);
    SpareAndRows(f, c, nu, nv);
    RotatingStart(bufs, w, nv, cosine);
    released := RotateAll(f, bufs, w, c, nu, nv, cosine);
    RotatingEnd(bufs, w, nv, cosine);
    RowsOf(f, bufs, nu);
    DistinctBufs(bufs, nu);
  }

  lemma RowsOf(f: Mat, bufs: seq<array<UV>>, nu: nat)
    requires f.Length == nu && |bufs| == nu + 1 && f[..] == bufs[..nu]
    ensures forall k :: 0 <= k < nu ==> f[k] == bufs[k]
  {
    assert forall k :: 0 <= k < nu ==> f[k] == f[..][k] == bufs[k];
  }

  lemma DistinctBufs(bufs: seq<array<UV>>, nu: nat)
    requires |bufs| == nu + 1 && Distinct(bufs)
    ensures forall i, j :: 0 <= i < j < |bufs| ==> bufs[i] != bufs[j]
  {
  }

  // The rows and a buffer that is none of them.
  lemma SpareAndRows(f: Mat, c: array<UV>, nu: nat, nv: nat)
    requires Shape(f, nu, nv) && c !in RowSet(f) && c.Length == nv
    ensures var bufs, w := [c] + f[..], Contents(f);
      && |bufs| == nu + 1 && Distinct(bufs) && Wide(w, nv) && |w| == nu
      && (forall k :: 0 <= k < |bufs| ==> bufs[k].Length == nv)
      && (forall k :: 0 <= k < nu ==> bufs[k + 1] == f[k] && bufs[k + 1][..] == w[k])
  {
  }

  // The loop of the row pass: each row is transformed into the spare buffer c,
  // which takes its place, and the old row becomes the spare buffer.
  method RotateAll(f: Mat, ghost bufs: seq<array<UV>>, ghost w: seq<seq<UV>>, spare: array<UV>,
                   nu: nat, nv: nat, cosine: Cosine) returns (c: array<UV>)
    requires |bufs| == nu + 1 && |w| == nu && Wide(w, nv) && nv >= 1 && f.Length == nu
    requires Distinct(bufs) && spare == bufs[0] && f[..] == bufs[1..]
    requires Rotating(bufs, w, 0, nv, cosine)
    modifies f, bufs
    ensures f[..] == bufs[..nu] && c == bufs[nu]
    ensures Rotating(bufs, w, nu, nv, cosine)
  {
    hide Transformed, Rotating, Distinct, Wide;
    c := spare;
    var i := 0;
    while i < nu
      invariant 0 <= i <= nu
      invariant c == bufs[i]
      invariant f[..] == bufs[..i] + bufs[i + 1..]
      invariant Rotating(bufs, w, i, nv, cosine)
    {
      var t := f[i];
      assert t == f[..][i] == bufs[i + 1];
      ghost var rows := f[..];
      RotateStep(bufs, w, c, t, i, nv, cosine);
      assert f[..] == rows;
      RotateSeq(bufs, i);
      f[i] := c;
      assert f[..] == rows[i := bufs[i]];
      c := t;
      i := i + 1;
    }
  }

  lemma RotateSeq<A>(bufs: seq<A>, i: nat)
    requires i + 1 < |bufs|
    ensures (bufs[..i] + bufs[i + 1..])[i := bufs[i]] == bufs[..i + 1] + bufs[i + 2..]
  {
  }

  lemma RotatingStart(bufs: seq<array<UV>>, w: seq<seq<UV>>, nv: nat, cosine: Cosine)
    requires |bufs| == |w| + 1 && Wide(w, nv) && nv >= 1
    requires forall k :: 0 <= k < |bufs| ==> bufs[k].Length == nv
    requires forall k :: 0 <= k < |w| ==> bufs[k + 1][..] == w[k]
    ensures Rotating(bufs, w, 0, nv, cosine)
  {
  }

  lemma RotatingEnd(bufs: seq<array<UV>>, w: seq<seq<UV>>, nv: nat, cosine: Cosine)
    requires |bufs| == |w| + 1 && Wide(w, nv) && nv >= 1
    requires Rotating(bufs, w, |w|, nv, cosine)
    ensures forall k :: 0 <= k < |w| ==> bufs[k].Length == nv && bufs[k][..] == Transformed(cosine, w[k])
  {
  }

  // ---------- the result ----------

  // (2/nu) (2/nv) times the double cosine sum of the samples
  function SeriesCoefficient(cosine: Cosine, s: seq<seq<UV>>, nu: nat, nv: nat, p: Part, i: nat, j: nat): real
    requires nu >= 1 && nv >= 1
  {
    4.0 / (nu as real * nv as real)
    * Bilinear(CosTable(cosine, i, nu), CosTable(cosine, j, nv), MatParts(s, p))
  }

  function ChebCoefficients(cosine: Cosine, s: seq<seq<UV>>, nu: nat, nv: nat, p: Part): (f: seq<seq<real>>)
    requires nu >= 1 && nv >= 1
    ensures |f| == nu && Rect(f, nv)
  {
    seq(nu, i requires 0 <= i < nu =>
      seq(nv, j requires 0 <= j < nv => SeriesCoefficient(cosine, s, nu, nv, p, i, j)))
  }

  method Generate(a: UV, b: UV, nu: nat, nv: nat, f: Mat, cosine: Cosine, func: Sampled)
    returns (failed: bool, ghost released: array?<UV>)
    requires nu >= 1 && nv >= 1 && Shape(f, nu, nv)
    modifies f, RowSet(f)
    ensures Shape(f, nu, nv)
    ensures !failed <==> AllFinite(cosine, func, a, b, nu, nv)
    ensures failed ==> f[..] == old(f[..])
    ensures !failed ==> fresh(f[0]) && forall i :: 1 <= i < nu ==> f[i] == old(f[i - 1])
    ensures !failed ==> released == old(f[nu - 1]) && released !in RowSet(f)
    ensures !failed ==> forall p: Part ::
      MatParts(Contents(f), p) == ChebCoefficients(cosine, Samples(cosine, func, a, b, nu, nv), nu, nv, p)
  {
    hide Transformed, Samples;
    released := null;
    failed := SamplePass(a, b, nu, nv, f, cosine, func);
    if failed {
      return;
    }
    ghost var s := Contents(f);
    ColumnPass(f, nu, nv, cosine);
    ghost var h := Contents(f);
    var last := RowPass(f, nu, nv, cosine);
    released := last;
    forall p: Part
      ensures MatParts(Contents(f), p) == ChebCoefficients(cosine, s, nu, nv, p)
    {
      BothPasses(cosine, s, h, Contents(f), nu, nv, p);
    }
  }

  lemma {:induction false} DotScale(f: Basis, a: real, s: seq<real>, t: seq<real>)
    requires |s| == |t| && forall i :: 0 <= i < |s| ==> t[i] == Times(a, s[i])
    ensures Dot(f, t) == Times(a, Dot(f, s))
  {
    var z := seq(|s|, _ => 0.0);
    TailLinear(f, a, s, z, t, 0);
    TailZero(f, z, 0);
  }

  lemma BothPasses(cosine: Cosine, s: seq<seq<UV>>, h: seq<seq<UV>>, f: seq<seq<UV>>, nu: nat, nv: nat, p: Part)
    requires nu >= 1 && nv >= 1
    requires |s| == |h| == |f| == nu && Wide(s, nv) && Wide(h, nv) && Wide(f, nv)
    requires forall j :: 0 <= j < nv ==> PairCol(h, j) == Transformed(cosine, PairCol(s, j))
    requires forall i :: 0 <= i < nu ==> f[i] == Transformed(cosine, h[i])
    ensures MatParts(f, p) == ChebCoefficients(cosine, s, nu, nv, p)
  {
    hide SeriesCoefficient, Transformed;
    forall i | 0 <= i < nu
      ensures Parts(f[i], p) == ChebCoefficients(cosine, s, nu, nv, p)[i]
    {
      forall j | 0 <= j < nv
        ensures Get(f[i][j], p) == SeriesCoefficient(cosine, s, nu, nv, p, i, j)
      {
        BothPassesAt(cosine, s, h, f, nu, nv, p, i, j);
      }
    }
  }

  lemma BothPassesAt(cosine: Cosine, s: seq<seq<UV>>, h: seq<seq<UV>>, f: seq<seq<UV>>, nu: nat, nv: nat,
                     p: Part, i: nat, j: nat)
    requires nu >= 1 && nv >= 1 && i < nu && j < nv
    requires |s| == |h| == |f| == nu && Wide(s, nv) && Wide(h, nv) && Wide(f, nv)
    requires forall l :: 0 <= l < nv ==> PairCol(h, l) == Transformed(cosine, PairCol(s, l))
    requires f[i] == Transformed(cosine, h[i])
    ensures Get(f[i][j], p) == SeriesCoefficient(cosine, s, nu, nv, p, i, j)
  {
    hide Dot, Tail, CosTable;
    var x, y := CosTable(cosine, i, nu), CosTable(cosine, j, nv);
    var m := MatParts(s, p);
    var cols := ColumnSums(x, m, nv);
    var a := 2.0 / (nu as real);
    forall l | 0 <= l < nv
      ensures Parts(h[i], p)[l] == Times(a, cols[l])
    {
      assert PairCol(h, l)[i] == h[i][l];
      assert Parts(PairCol(s, l), p) == Column(m, l);
    }
    DotScale(y, a, cols, Parts(h[i], p));
    Fubini(x, y, m, nv);
    FactorAlgebra(Bilinear(x, y, m), nu as real, nv as real);
  }

  lemma FactorAlgebra(e: real, nu: real, nv: real)
    requires nu > 0.0 && nv > 0.0
    ensures Times(2.0 / nv, Times(2.0 / nu, e)) == 4.0 / (nu * nv) * e
  {
    assert (2.0 / nv) * (2.0 / nu) == 4.0 / (nu * nv);
    assert (2.0 / nv) * ((2.0 / nu) * e) == ((2.0 / nv) * (2.0 / nu)) * e;
  }
}
