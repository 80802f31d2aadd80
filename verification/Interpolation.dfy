/** What the generated series has to do with the sampled function: at the nodes of the box
    it takes the sampled values. */
module Interpolation {
  import opened Common
  import opened Series
  import opened ChebPower
  import opened Matrix
  import opened BivEval
  import opened BchGen
  import opened ChebNodes

  // ---------- the nodes ----------

  ghost predicate NodeOf(cosine: Cosine, x: real, n: nat, i: nat) {
    i < n && x == cosine(PI * (i as real + 0.5) / (n as real))
  }

  // normalised coordinates that are cosines of the odd multiples of a quarter period over n
  ghost predicate OnNodes(cosine: Cosine, x: real, n: nat) {
    exists i: nat :: NodeOf(cosine, x, n, i)
  }

  // points of the box whose normalised coordinates are such cosines
  ghost predicate AtNodes(cosine: Cosine, pt: UV, a: UV, b: UV, nu: nat, nv: nat)
    requires a.u != b.u && a.v != b.v
  {
    OnNodes(cosine, Normalised(pt.u, a.u, b.u), nu) && OnNodes(cosine, Normalised(pt.v, a.v, b.v), nv)
  }

  // A coordinate is sample position i exactly when its normalised form is that cosine.
  lemma NodeNormalised(cosine: Cosine, x: real, i: nat, n: nat, lo: real, hi: real)
    requires n >= 1 && lo != hi
    ensures x == Node(cosine, i, n, lo, hi)
      <==> Normalised(x, lo, hi) == cosine(PI * (i as real + 0.5) / (n as real))
  {
    NormalisedBack(x, cosine(PI * (i as real + 0.5) / (n as real)), lo, hi);
  }

  lemma NormalisedBack(x: real, c: real, lo: real, hi: real)
    requires lo != hi
    ensures x == c * (0.5 * (hi - lo)) + 0.5 * (hi + lo) <==> Normalised(x, lo, hi) == c
  {
    var w, d := hi - lo, 2.0 * x - lo - hi;
    var n := d / w;
    assert n * w == d;
    if x == c * (0.5 * w) + 0.5 * (hi + lo) {
      assert d == c * w;
      assert (n - c) * w == 0.0;
    }
  }

  // The points sampled are the nodes.
  lemma SampleNodes(cosine: Cosine, a: UV, b: UV, nu: nat, nv: nat, i: nat, j: nat)
    requires nu >= 1 && nv >= 1 && a.u != b.u && a.v != b.v && i < nu && j < nv
    ensures AtNodes(cosine, SamplePoint(cosine, a, b, nu, nv, i, j), a, b, nu, nv)
  {
    hide Node, Normalised;
    var pt := SamplePoint(cosine, a, b, nu, nv, i, j);
    NodeNormalised(cosine, pt.u, i, nu, a.u, b.u);
    NodeNormalised(cosine, pt.v, j, nv, a.v, b.v);
    assert NodeOf(cosine, Normalised(pt.u, a.u, b.u), nu, i);
    assert NodeOf(cosine, Normalised(pt.v, a.v, b.v), nv, j);
  }

  lemma NodeSampled(cosine: Cosine, pt: UV, a: UV, b: UV, nu: nat, nv: nat) returns (i: nat, j: nat)
    requires nu >= 1 && nv >= 1 && a.u != b.u && a.v != b.v && AtNodes(cosine, pt, a, b, nu, nv)
    ensures i < nu && j < nv && pt == SamplePoint(cosine, a, b, nu, nv, i, j)
    ensures NodeOf(cosine, Normalised(pt.u, a.u, b.u), nu, i) && NodeOf(cosine, Normalised(pt.v, a.v, b.v), nv, j)
  {
    hide Node, Normalised;
    i :| NodeOf(cosine, Normalised(pt.u, a.u, b.u), nu, i);
    j :| NodeOf(cosine, Normalised(pt.v, a.v, b.v), nv, j);
    NodeNormalised(cosine, pt.u, i, nu, a.u, b.u);
    NodeNormalised(cosine, pt.v, j, nv, a.v, b.v);
  }

  // No sample fails exactly when the function answers at every node.
  lemma FiniteAtNodes(cosine: Cosine, func: Sampled, a: UV, b: UV, nu: nat, nv: nat)
    requires nu >= 1 && nv >= 1 && a.u != b.u && a.v != b.v
    ensures AllFinite(cosine, func, a, b, nu, nv)
      <==> forall pt: UV :: AtNodes(cosine, pt, a, b, nu, nv) ==> func(pt).Finite?
  {
    hide AtNodes, SamplePoint;
    forall pt: UV | AtNodes(cosine, pt, a, b, nu, nv)
      ensures exists i, j :: 0 <= i < nu && 0 <= j < nv && pt == SamplePoint(cosine, a, b, nu, nv, i, j)
    {
      var i, j := NodeSampled(cosine, pt, a, b, nu, nv);
    }
    forall i, j | 0 <= i < nu && 0 <= j < nv
      ensures AtNodes(cosine, SamplePoint(cosine, a, b, nu, nv, i, j), a, b, nu, nv)
    {
      SampleNodes(cosine, a, b, nu, nv, i, j);
    }
  }

  // ---------- the series at the nodes ----------

  lemma CosTableCheb(cosine: Cosine, k: nat, n: nat, i: nat)
    requires IsCosine(cosine, PI) && i < n
    ensures CosTable(cosine, k, n)(i) == T(k, CosPoints(cosine, PI, n)[i])
  {
    hide T, IsCosine, Multiple, RootAngle, TermAngle;
    MultipleAngle(cosine, PI, RootAngle(PI, i, n), k);
    TableAngle(PI, k, i, n);
  }

  lemma TableAngle(half: real, k: nat, i: nat, n: nat)
    requires half == PI && n >= 1
    ensures Multiple(k, RootAngle(half, i, n)) == TermAngle(k, i, n)
    ensures RootAngle(half, i, n) == PI * (i as real + 0.5) / (n as real)
  {
    var x, m := i as real + 0.5, n as real;
    var q := x / m;
    assert q * m == x;
    assert half * x / m == half * q;
    assert half * (k as real) * x / m == half * (k as real) * q;
    assert (k as real) * (half * q) == half * (k as real) * q;
  }

  lemma {:induction false} TailSwap(f: Basis, c: seq<real>, s: seq<real>, j: nat)
    requires |c| == |s| && forall i: nat :: i < |c| ==> f(i) == s[i]
    ensures Tail(f, c, j) == Tail(Entries(c), s, j)
    decreases |c| - j
  {
    if j < |c| {
      TailSwap(f, c, s, j + 1);
    }
  }

  // One transformed sequence, through the roots.
  lemma CoefficientForm(cosine: Cosine, s: seq<real>, k: nat)
    requires IsCosine(cosine, PI) && k < |s|
    ensures Coefficient(cosine, s, k) == Coefs(CosPoints(cosine, PI, |s|), s)[k]
  {
    hide T, IsCosine, Tail, CosTable, CosPoints;
    var x := CosPoints(cosine, PI, |s|);
    forall i: nat | i < |s|
      ensures CosTable(cosine, k, |s|)(i) == Row(x, k)[i]
    {
      CosTableCheb(cosine, k, |s|, i);
    }
    TailSwap(CosTable(cosine, k, |s|), s, Row(x, k), 0);
  }

  // row k of the coefficients, transformed along u only
  function HalfRow(cosine: Cosine, m: seq<seq<real>>, nv: nat, k: nat): (r: seq<real>)
    requires |m| >= 1 && Rect(m, nv)
    ensures |r| == nv
  {
    seq(nv, l requires 0 <= l < nv => Coefficient(cosine, Column(m, l), k))
  }

  lemma RowForm(cosine: Cosine, s: seq<seq<UV>>, nu: nat, nv: nat, p: Part, k: nat, l: nat)
    requires nu >= 1 && nv >= 1 && |s| == nu && Wide(s, nv) && k < nu && l < nv
    ensures ChebCoefficients(cosine, s, nu, nv, p)[k][l]
         == Coefficient(cosine, HalfRow(cosine, MatParts(s, p), nv, k), l)
  {
    hide Dot, Tail, CosTable;
    var m := MatParts(s, p);
    var x, y := CosTable(cosine, k, nu), CosTable(cosine, l, nv);
    var cols := ColumnSums(x, m, nv);
    DotScale(y, 2.0 / nu as real, cols, HalfRow(cosine, m, nv, k));
    Fubini(x, y, m, nv);
    FactorAlgebra(Bilinear(x, y, m), nu as real, nv as real);
  }

  // The double series takes sample (i, j) at the nodes i and j.
  lemma SeriesAtNode(cosine: Cosine, s: seq<seq<UV>>, nu: nat, nv: nat, p: Part, i: nat, j: nat)
    requires IsCosine(cosine, PI) && nu >= 1 && nv >= 1 && |s| == nu && Wide(s, nv) && i < nu && j < nv
    ensures Bilinear(ChebBasis(CosPoints(cosine, PI, nu)[i]), ChebBasis(CosPoints(cosine, PI, nv)[j]),
                     ChebCoefficients(cosine, s, nu, nv, p))
         == Get(s[i][j], p)
  {
    hide T, IsCosine, Dot, Tail, CosPoints, Coefficient, SeriesCoefficient, Roots, Coefs;
    var m, c := MatParts(s, p), ChebCoefficients(cosine, s, nu, nv, p);
    var xs, ys := CosPoints(cosine, PI, nu), CosPoints(cosine, PI, nv);
    CosRoots(cosine, PI, nu);
    CosRoots(cosine, PI, nv);
    forall k | 0 <= k < nu
      ensures RowSums(ChebBasis(ys[j]), c)[k] == Coefs(xs, Column(m, j))[k]
    {
      var r := HalfRow(cosine, m, nv, k);
      forall l | 0 <= l < nv
        ensures c[k][l] == Coefs(ys, r)[l]
      {
        RowForm(cosine, s, nu, nv, p, k, l);
        CoefficientForm(cosine, r, l);
      }
      assert c[k] == Coefs(ys, r);
      Interpolates(ys, r, j);
      CoefficientForm(cosine, Column(m, j), k);
    }
    assert RowSums(ChebBasis(ys[j]), c) == Coefs(xs, Column(m, j));
    Interpolates(xs, Column(m, j), i);
  }

  // At every node of the box the series that was generated equals the function.
  lemma SeriesIsFunction(cosine: Cosine, func: Sampled, a: UV, b: UV, nu: nat, nv: nat, pt: UV, p: Part)
    requires IsCosine(cosine, PI) && nu >= 1 && nv >= 1 && a.u != b.u && a.v != b.v
    requires AllFinite(cosine, func, a, b, nu, nv) && AtNodes(cosine, pt, a, b, nu, nv)
    ensures func(pt).Finite?
    ensures Bilinear(ChebBasis(Normalised(pt.u, a.u, b.u)), ChebBasis(Normalised(pt.v, a.v, b.v)),
                     ChebCoefficients(cosine, Samples(cosine, func, a, b, nu, nv), nu, nv, p))
         == Get(func(pt).uv, p)
  {
    hide T, IsCosine, Dot, Tail, ChebCoefficients, Bilinear, SamplePoint, Normalised, RootAngle;
    var i, j := NodeSampled(cosine, pt, a, b, nu, nv);
    TableAngle(PI, 0, i, nu);
    TableAngle(PI, 0, j, nv);
    assert CosPoints(cosine, PI, nu)[i] == Normalised(pt.u, a.u, b.u);
    assert CosPoints(cosine, PI, nv)[j] == Normalised(pt.v, a.v, b.v);
    SeriesAtNode(cosine, Samples(cosine, func, a, b, nu, nv), nu, nv, p, i, j);
  }

  // The nodes lie in the box.
  lemma NodesInside(cosine: Cosine, x: real, n: nat)
    requires IsCosine(cosine, PI) && OnNodes(cosine, x, n)
    ensures -1.0 < x < 1.0
  {
    hide T, V, IsCosine;
    var i: nat :| NodeOf(cosine, x, n, i);
    CosRoot(cosine, PI, n, i);
    RootInside(x, n);
  }

  lemma RootInside(x: real, n: nat)
    requires T(n, x) == 0.0
    ensures -1.0 < x < 1.0
  {
    hide T, V;
    Pythagoras(n, x);
    var v := V(n, x);
    assert (1.0 - x * x) * (v * v) == 1.0;
    NonpositiveFactor(1.0 - x * x, v * v);
    if x >= 1.0 {
      MulNonneg(x - 1.0, x + 1.0);
    } else if x <= -1.0 {
      MulNonneg(-x - 1.0, 1.0 - x);
    }
    assert (x - 1.0) * (x + 1.0) == x * x - 1.0;
    assert (-x - 1.0) * (1.0 - x) == x * x - 1.0;
  }

  lemma NonpositiveFactor(w: real, s: real)
    requires s >= 0.0
    ensures w <= 0.0 ==> w * s <= 0.0
  {
    if w <= 0.0 {
      MulNonneg(-w, s);
      assert (-w) * s == -(w * s);
    }
  }
}
