/** nad_intr.c: interpolation of a datum shift table.  The cell search with its
    edge tolerance and the bilinear weights are shown to compute one continuous
    piecewise bilinear surface over the grid. */
module NadGrid {
  import opened Series

  datatype LP = LP(lam: real, phi: real)

  datatype Axis = Lam | Phi

  function Along(p: LP, k: Axis): real {
    if k == Lam then p.lam else p.phi
  }

  // HUGE_VAL in both coordinates, or a point
  datatype Shift = Failed | Found(lp: LP)

  // A shift table: origin, cell size, number of nodes, and the nodes row by row.
  datatype CTable = CTable(ll: LP, del: LP, limLam: nat, limPhi: nat, cvs: seq<LP>) {
    ghost predicate Valid() {
      && limLam >= 2 && limPhi >= 2
      && |cvs| == limPhi * limLam
      && del.lam > 0.0 && del.phi > 0.0
    }
  }

  lemma NodeIndex(i: nat, j: nat, limLam: nat, limPhi: nat)
    requires i < limLam && j < limPhi
    ensures 0 <= j * limLam + i < limPhi * limLam
  {
    assert (j + 1) * limLam <= limPhi * limLam;
    assert (j + 1) * limLam == j * limLam + limLam;
  }

  function Node(ct: CTable, i: nat, j: nat): LP
    requires ct.Valid() && i < ct.limLam && j < ct.limPhi
  {
    NodeIndex(i, j, ct.limLam, ct.limPhi);
    ct.cvs[j * ct.limLam + i]
  }

  // ---------- piecewise linear interpolation on one axis ----------

  // the cell that holds x; the last node belongs to the last cell
  function CellOf(x: real, n: nat): (i: nat)
    requires n >= 2 && 0.0 <= x <= (n - 1) as real
    ensures i + 1 < n && i as real <= x <= (i + 1) as real
  {
    if x.Floor >= n - 1 then n - 2 else x.Floor
  }

  function Lerp(a: real, b: real, t: real): real {
    Times(1.0 - t, a) + Times(t, b)
  }

  function Linear(f: seq<real>, x: real): real
    requires |f| >= 2 && 0.0 <= x <= (|f| - 1) as real
  {
    var i := CellOf(x, |f|);
    Lerp(f[i], f[i + 1], x - i as real)
  }

  lemma LerpEnds(a: real, b: real)
    ensures Lerp(a, b, 0.0) == a && Lerp(a, b, 1.0) == b
  {
  }

  // Whichever closed cell a point is counted to, the interpolated value is the same.
  lemma LinearAnyCell(f: seq<real>, x: real, i: nat)
    requires |f| >= 2 && i + 1 < |f| && i as real <= x <= (i + 1) as real
    ensures Linear(f, x) == Lerp(f[i], f[i + 1], x - i as real)
  {
    var k := CellOf(x, |f|);
    if k != i {
      LerpEnds(f[i], f[i + 1]);
      LerpEnds(f[k], f[k + 1]);
      assert k == i + 1 ==> x == (i + 1) as real;
    }
  }

  lemma LinearNode(f: seq<real>, i: nat)
    requires |f| >= 2 && i < |f|
    ensures Linear(f, i as real) == f[i]
  {
    if i + 1 < |f| {
      LinearAnyCell(f, i as real, i);
      LerpEnds(f[i], f[i + 1]);
    } else {
      LinearAnyCell(f, i as real, i - 1);
      LerpEnds(f[i - 1], f[i]);
    }
  }

  lemma LerpBetween(a: real, b: real, t: real, lo: real, hi: real)
    requires 0.0 <= t <= 1.0 && lo <= a <= hi && lo <= b <= hi
    ensures lo <= Lerp(a, b, t) <= hi
  {
    MulNonneg(1.0 - t, a - lo);
    MulNonneg(t, b - lo);
    MulNonneg(1.0 - t, hi - a);
    MulNonneg(t, hi - b);
    assert (1.0 - t) * (a - lo) + t * (b - lo) == Lerp(a, b, t) - lo;
    assert (1.0 - t) * (hi - a) + t * (hi - b) == hi - Lerp(a, b, t);
  }

  lemma LerpClose(a: real, b: real, c: real, d: real, t: real, e: real)
    requires 0.0 <= t <= 1.0 && Abs(a - c) <= e && Abs(b - d) <= e
    ensures Abs(Lerp(a, b, t) - Lerp(c, d, t)) <= e
  {
    LerpDifference(a, b, c, d, t);
    LerpBetween(a - c, b - d, t, -e, e);
  }

  lemma LerpDifference(a: real, b: real, c: real, d: real, t: real)
    ensures Lerp(a, b, t) - Lerp(c, d, t) == Lerp(a - c, b - d, t)
  {
  }

  // Close node values give close interpolated values.
  lemma LinearClose(f: seq<real>, g: seq<real>, x: real, e: real)
    requires |f| == |g| >= 2 && 0.0 <= x <= (|f| - 1) as real
    requires forall i :: 0 <= i < |f| ==> Abs(f[i] - g[i]) <= e
    ensures Abs(Linear(f, x) - Linear(g, x)) <= e
  {
    var i := CellOf(x, |f|);
    LerpClose(f[i], f[i + 1], g[i], g[i + 1], x - i as real, e);
  }

  lemma LerpSlope(a: real, b: real, s: real, t: real, l: real, d: real)
    requires Abs(b - a) <= l && s <= t && d == t - s
    ensures Abs(Lerp(a, b, t) - Lerp(a, b, s)) <= Times(l, d)
  {
    assert Lerp(a, b, t) - Lerp(a, b, s) == (b - a) * (t - s);
    MulNonneg(l - (b - a), t - s);
    MulNonneg(l + (b - a), t - s);
    assert (l - (b - a)) * (t - s) == l * (t - s) - (b - a) * (t - s);
    assert (l + (b - a)) * (t - s) == l * (t - s) + (b - a) * (t - s);
  }

  // neighbouring entries differ by at most l
  ghost predicate Steps(f: seq<real>, l: real) {
    forall i :: 0 <= i < |f| - 1 ==> Abs(f[i + 1] - f[i]) <= l
  }

  lemma SplitSpan(l: real, x: real, m: real, y: real)
    ensures Times(l, m - x) + Times(l, y - m) == Times(l, y - x)
  {
  }

  lemma {:induction false} LinearLipschitz(f: seq<real>, l: real, x: real, y: real)
    requires |f| >= 2 && Steps(f, l) && 0.0 <= x <= y <= (|f| - 1) as real
    ensures Abs(Linear(f, y) - Linear(f, x)) <= Times(l, y - x)
    decreases |f| - CellOf(x, |f|)
  {
    hide Lerp, Times, Linear;
    var i := CellOf(x, |f|);
    var m := (i + 1) as real;
    LinearAnyCell(f, x, i);
    assert Abs(f[i + 1] - f[i]) <= l;
    if y <= m {
      LinearAnyCell(f, y, i);
      LerpSlope(f[i], f[i + 1], x - i as real, y - i as real, l, y - x);
    } else {
      LinearAnyCell(f, m, i);
      LerpSlope(f[i], f[i + 1], x - i as real, m - i as real, l, m - x);
      LinearLipschitz(f, l, m, y);
      SplitSpan(l, x, m, y);
    }
  }

  lemma LinearLipschitzAbs(f: seq<real>, l: real, x: real, y: real)
    requires |f| >= 2 && Steps(f, l)
    requires 0.0 <= x <= (|f| - 1) as real && 0.0 <= y <= (|f| - 1) as real
    ensures Abs(Linear(f, y) - Linear(f, x)) <= Times(l, Abs(y - x))
  {
    hide Linear, Times;
    if x <= y {
      LinearLipschitz(f, l, x, y);
    } else {
      LinearLipschitz(f, l, y, x);
    }
  }

  // ---------- the surface ----------

  function RowOf(ct: CTable, j: nat, k: Axis): (r: seq<real>)
    requires ct.Valid() && j < ct.limPhi
    ensures |r| == ct.limLam
  {
    seq(ct.limLam, i requires 0 <= i < ct.limLam => Along(Node(ct, i, j), k))
  }

  function ColumnOf(ct: CTable, i: nat, k: Axis): (r: seq<real>)
    requires ct.Valid() && i < ct.limLam
    ensures |r| == ct.limPhi
  {
    seq(ct.limPhi, j requires 0 <= j < ct.limPhi => Along(Node(ct, i, j), k))
  }

  ghost predicate OnGrid(ct: CTable, x: real, y: real) {
    0.0 <= x <= (ct.limLam - 1) as real && 0.0 <= y <= (ct.limPhi - 1) as real
  }

  // the rows interpolated at x
  function Profile(ct: CTable, k: Axis, x: real): (r: seq<real>)
    requires ct.Valid() && 0.0 <= x <= (ct.limLam - 1) as real
    ensures |r| == ct.limPhi
  {
    seq(ct.limPhi, j requires 0 <= j < ct.limPhi => Linear(RowOf(ct, j, k), x))
  }

  function Surface(ct: CTable, k: Axis, x: real, y: real): real
    requires ct.Valid() && OnGrid(ct, x, y)
  {
    Linear(Profile(ct, k, x), y)
  }

  lemma SurfaceNode(ct: CTable, k: Axis, i: nat, j: nat)
    requires ct.Valid() && i < ct.limLam && j < ct.limPhi
    ensures Surface(ct, k, i as real, j as real) == Along(Node(ct, i, j), k)
  {
    LinearNode(Profile(ct, k, i as real), j);
    LinearNode(RowOf(ct, j, k), i);
  }

  // The bilinear formula of any closed cell that holds the point.
  lemma SurfaceCell(ct: CTable, k: Axis, x: real, y: real, i: nat, j: nat)
    requires ct.Valid() && i + 1 < ct.limLam && j + 1 < ct.limPhi
    requires i as real <= x <= (i + 1) as real && j as real <= y <= (j + 1) as real
    ensures Surface(ct, k, x, y)
         == Lerp(Lerp(Along(Node(ct, i, j), k), Along(Node(ct, i + 1, j), k), x - i as real),
                 Lerp(Along(Node(ct, i, j + 1), k), Along(Node(ct, i + 1, j + 1), k), x - i as real),
                 y - j as real)
  {
    hide Lerp, Linear, Node;
    LinearAnyCell(Profile(ct, k, x), y, j);
    LinearAnyCell(RowOf(ct, j, k), x, i);
    LinearAnyCell(RowOf(ct, j + 1, k), x, i);
  }

  // A value lies between any bounds of the four corners of its cell.
  lemma SurfaceBetween(ct: CTable, k: Axis, x: real, y: real, i: nat, j: nat, lo: real, hi: real)
    requires ct.Valid() && i + 1 < ct.limLam && j + 1 < ct.limPhi
    requires i as real <= x <= (i + 1) as real && j as real <= y <= (j + 1) as real
    requires lo <= Along(Node(ct, i, j), k) <= hi && lo <= Along(Node(ct, i + 1, j), k) <= hi
    requires lo <= Along(Node(ct, i, j + 1), k) <= hi && lo <= Along(Node(ct, i + 1, j + 1), k) <= hi
    ensures lo <= Surface(ct, k, x, y) <= hi
  {
    hide Lerp, Node;
    SurfaceCell(ct, k, x, y, i, j);
    var s, t := x - i as real, y - j as real;
    LerpBetween(Along(Node(ct, i, j), k), Along(Node(ct, i + 1, j), k), s, lo, hi);
    LerpBetween(Along(Node(ct, i, j + 1), k), Along(Node(ct, i + 1, j + 1), k), s, lo, hi);
    LerpBetween(Lerp(Along(Node(ct, i, j), k), Along(Node(ct, i + 1, j), k), s),
      Lerp(Along(Node(ct, i, j + 1), k), Along(Node(ct, i + 1, j + 1), k), s), t, lo, hi);
  }

  // neighbouring nodes differ by at most a along a row and b along a column
  ghost predicate NodeSteps(ct: CTable, k: Axis, a: real, b: real)
    requires ct.Valid()
  {
    && (forall j :: 0 <= j < ct.limPhi ==> Steps(RowOf(ct, j, k), a))
    && (forall i :: 0 <= i < ct.limLam ==> Steps(ColumnOf(ct, i, k), b))
  }

  lemma ProfileSteps(ct: CTable, k: Axis, a: real, b: real, x: real)
    requires ct.Valid() && NodeSteps(ct, k, a, b) && 0.0 <= x <= (ct.limLam - 1) as real
    ensures Steps(Profile(ct, k, x), b)
  {
    hide Linear, Node;
    var q := Profile(ct, k, x);
    forall j | 0 <= j < |q| - 1
      ensures Abs(q[j + 1] - q[j]) <= b
    {
      forall i | 0 <= i < ct.limLam
        ensures Abs(RowOf(ct, j + 1, k)[i] - RowOf(ct, j, k)[i]) <= b
      {
        var col := ColumnOf(ct, i, k);
        assert Steps(col, b);
        assert Abs(col[j + 1] - col[j]) <= b;
      }
      LinearClose(RowOf(ct, j + 1, k), RowOf(ct, j, k), x, b);
    }
  }

  lemma ProfileClose(ct: CTable, k: Axis, a: real, b: real, x: real, x': real, j: nat)
    requires ct.Valid() && NodeSteps(ct, k, a, b) && j < ct.limPhi
    requires 0.0 <= x <= (ct.limLam - 1) as real && 0.0 <= x' <= (ct.limLam - 1) as real
    ensures Abs(Profile(ct, k, x)[j] - Profile(ct, k, x')[j]) <= Times(a, Abs(x - x'))
  {
    hide Linear, RowOf, Times;
    assert Steps(RowOf(ct, j, k), a);
    LinearLipschitzAbs(RowOf(ct, j, k), a, x', x);
  }

  // The surface inherits a Lipschitz constant from neighbouring-node differences.
  lemma SurfaceLipschitz(ct: CTable, k: Axis, a: real, b: real, x: real, y: real, x': real, y': real)
    requires ct.Valid() && NodeSteps(ct, k, a, b) && OnGrid(ct, x, y) && OnGrid(ct, x', y')
    ensures Abs(Surface(ct, k, x, y) - Surface(ct, k, x', y'))
         <= Times(a, Abs(x - x')) + Times(b, Abs(y - y'))
  {
    hide Linear, Profile, NodeSteps, Steps, Times;
    var p, q := Profile(ct, k, x), Profile(ct, k, x');
    forall j | 0 <= j < ct.limPhi
      ensures Abs(p[j] - q[j]) <= Times(a, Abs(x - x'))
    {
      ProfileClose(ct, k, a, b, x, x', j);
    }
    LinearClose(p, q, y, Times(a, Abs(x - x')));
    ProfileSteps(ct, k, a, b, x');
    LinearLipschitzAbs(q, b, y', y);
  }

  // ---------- the lookup ----------

  // accepted positions in units of cells, with the tolerance at both ends
  predicate Accepted(s: real, n: nat) {
    -0.00000000001 < s < (n - 1) as real + 0.00000000001
  }

  function Clamp(s: real, n: nat): (r: real)
    requires n >= 1
    ensures 0.0 <= r <= (n - 1) as real
  {
    if s < 0.0 then 0.0 else if s > (n - 1) as real then (n - 1) as real else s
  }

  lemma ClampClose(s: real, t: real, n: nat)
    requires n >= 1
    ensures Abs(Clamp(s, n) - Clamp(t, n)) <= Abs(s - t)
  {
  }

  // What nad_intr computes: the surface at the clamped position, or failure.
  function Interpolated(t: LP, ct: CTable): Shift
    requires ct.Valid()
  {
    var x, y := t.lam / ct.del.lam, t.phi / ct.del.phi;
    if Accepted(x, ct.limLam) && Accepted(y, ct.limPhi) then
      var cx, cy := Clamp(x, ct.limLam), Clamp(y, ct.limPhi);
      Found(LP(Surface(ct, Lam, cx, cy), Surface(ct, Phi, cx, cy)))
    else Failed
  }

  // The cell index and fraction along one axis, with the snap at both edges.
  method CellAndFraction(t: real, lim: nat) returns (ok: bool, indx: int, frct: real)
    requires lim >= 2
    ensures ok <==> Accepted(t, lim)
    ensures ok ==> 0 <= indx && indx + 1 < lim && 0.0 <= frct <= 1.0
    ensures ok ==> indx as real + frct == Clamp(t, lim)
  {
    indx := t.Floor;
    frct := t - indx as real;
    if indx < 0 {
      if indx == -1 && frct > 0.99999999999 {
        indx := indx + 1;
        frct := 0.0;
      } else {
        return false, indx, frct;
      }
    } else {
      var in_ := indx + 1;
      if in_ >= lim {
        if in_ == lim && frct < 0.00000000001 {
          indx := indx - 1;
          frct := 1.0;
        } else {
          return false, indx, frct;
        }
      }
    }
    return true, indx, frct;
  }

  lemma Weights(a: real, b: real, c: real, d: real, s: real, t: real)
    ensures (1.0 - s) * (1.0 - t) * a + s * (1.0 - t) * b + (1.0 - s) * t * c + s * t * d
         == Lerp(Lerp(a, b, s), Lerp(c, d, s), t)
  {
    assert Times(1.0 - t, Lerp(a, b, s)) == (1.0 - s) * (1.0 - t) * a + s * (1.0 - t) * b;
    assert Times(t, Lerp(c, d, s)) == (1.0 - s) * t * c + s * t * d;
  }

  // The four weights, built up step by step, and the weighted sums.
  method Blend(f00: LP, f10: LP, f01: LP, f11: LP, s: real, u: real) returns (val: LP)
    ensures forall k: Axis ::
      Along(val, k) == Lerp(Lerp(Along(f00, k), Along(f10, k), s), Lerp(Along(f01, k), Along(f11, k), s), u)
  {
    hide Lerp;
    var frct := u;
    var m11, m10 := s, s;
    var m00, m01 := 1.0 - s, 1.0 - s;
    m11 := m11 * frct;
    m01 := m01 * frct;
    frct := 1.0 - frct;
    m00 := m00 * frct;
    m10 := m10 * frct;
    Weights(f00.lam, f10.lam, f01.lam, f11.lam, s, u);
    Weights(f00.phi, f10.phi, f01.phi, f11.phi, s, u);
    return LP(m00 * f00.lam + m10 * f10.lam + m01 * f01.lam + m11 * f11.lam,
              m00 * f00.phi + m10 * f10.phi + m01 * f01.phi + m11 * f11.phi);
  }

  // The four corner reads, the weights and the snaps give the surface at the clamped place.
  method NadIntr(t: LP, ct: CTable) returns (val: Shift)
    requires ct.Valid()
    ensures val == Interpolated(t, ct)
  {
    hide Accepted, Clamp, Surface, Lerp, Node;
    var okLam, i, s := CellAndFraction(t.lam / ct.del.lam, ct.limLam);
    if !okLam {
      return Failed;
    }
    var okPhi, j, u := CellAndFraction(t.phi / ct.del.phi, ct.limPhi);
    if !okPhi {
      return Failed;
    }
    CornerIndices(ct, i, j);
    var index := j * ct.limLam + i;
    var f00 := ct.cvs[index];
    index := index + 1;
    var f10 := ct.cvs[index];
    index := index + ct.limLam;
    var f11 := ct.cvs[index];
    index := index - 1;
    var f01 := ct.cvs[index];
    var lp := Blend(f00, f10, f01, f11, s, u);
    LookupValue(ct, t, i, j, s, u, lp);
    return Found(lp);
  }

  lemma LookupValue(ct: CTable, t: LP, i: nat, j: nat, s: real, u: real, lp: LP)
    requires ct.Valid() && i + 1 < ct.limLam && j + 1 < ct.limPhi && 0.0 <= s <= 1.0 && 0.0 <= u <= 1.0
    requires Accepted(t.lam / ct.del.lam, ct.limLam) && Accepted(t.phi / ct.del.phi, ct.limPhi)
    requires i as real + s == Clamp(t.lam / ct.del.lam, ct.limLam)
    requires j as real + u == Clamp(t.phi / ct.del.phi, ct.limPhi)
    requires forall k: Axis ::
      Along(lp, k) == Lerp(Lerp(Along(Node(ct, i, j), k), Along(Node(ct, i + 1, j), k), s),
                           Lerp(Along(Node(ct, i, j + 1), k), Along(Node(ct, i + 1, j + 1), k), s), u)
    ensures Interpolated(t, ct) == Found(lp)
  {
    hide Accepted, Clamp, Surface, Lerp, Node;
    var cx, cy := Clamp(t.lam / ct.del.lam, ct.limLam), Clamp(t.phi / ct.del.phi, ct.limPhi);
    forall k: Axis
      ensures Along(lp, k) == Surface(ct, k, cx, cy)
    {
      SurfaceCell(ct, k, cx, cy, i, j);
      assert cx - i as real == s && cy - j as real == u;
    }
    assert Along(lp, Lam) == lp.lam && Along(lp, Phi) == lp.phi;
  }

  // The four reads stay inside the table.
  lemma CornerIndices(ct: CTable, i: nat, j: nat)
    requires ct.Valid() && i + 1 < ct.limLam && j + 1 < ct.limPhi
    ensures 0 <= j * ct.limLam + i && j * ct.limLam + i + 1 + ct.limLam < |ct.cvs|
    ensures ct.cvs[j * ct.limLam + i] == Node(ct, i, j)
    ensures ct.cvs[j * ct.limLam + i + 1] == Node(ct, i + 1, j)
    ensures ct.cvs[j * ct.limLam + i + 1 + ct.limLam] == Node(ct, i + 1, j + 1)
    ensures ct.cvs[j * ct.limLam + i + ct.limLam] == Node(ct, i, j + 1)
  {
    NodeIndex(i, j, ct.limLam, ct.limPhi);
    NodeIndex(i + 1, j + 1, ct.limLam, ct.limPhi);
    assert (j + 1) * ct.limLam == j * ct.limLam + ct.limLam;
  }

  // At a node the lookup returns the node.
  lemma InterpolatedNode(ct: CTable, i: nat, j: nat)
    requires ct.Valid() && i < ct.limLam && j < ct.limPhi
    ensures Interpolated(LP(i as real * ct.del.lam, j as real * ct.del.phi), ct) == Found(Node(ct, i, j))
  {
    hide Surface, Node;
    assert i as real * ct.del.lam / ct.del.lam == i as real;
    assert j as real * ct.del.phi / ct.del.phi == j as real;
    SurfaceNode(ct, Lam, i, j);
    SurfaceNode(ct, Phi, i, j);
  }

  // Lookups at nearby positions are close, across cell edges and edge snaps alike.
  lemma InterpolatedLipschitz(ct: CTable, a: real, b: real, p: LP, q: LP, k: Axis)
    requires ct.Valid() && NodeSteps(ct, k, a, b) && a >= 0.0 && b >= 0.0
    requires Interpolated(p, ct).Found? && Interpolated(q, ct).Found?
    ensures Abs(Along(Interpolated(p, ct).lp, k) - Along(Interpolated(q, ct).lp, k))
         <= Times(a, Abs(p.lam - q.lam) / ct.del.lam) + Times(b, Abs(p.phi - q.phi) / ct.del.phi)
  {
    hide Surface, NodeSteps, Times, Clamp;
    var x, y := p.lam / ct.del.lam, p.phi / ct.del.phi;
    var x', y' := q.lam / ct.del.lam, q.phi / ct.del.phi;
    var cx, cy := Clamp(x, ct.limLam), Clamp(y, ct.limPhi);
    var cx', cy' := Clamp(x', ct.limLam), Clamp(y', ct.limPhi);
    SurfaceLipschitz(ct, k, a, b, cx, cy, cx', cy');
    Rescale(a, p.lam, q.lam, ct.del.lam, x, x', ct.limLam);
    Rescale(b, p.phi, q.phi, ct.del.phi, y, y', ct.limPhi);
  }

  lemma Rescale(a: real, p: real, q: real, d: real, x: real, x': real, n: nat)
    requires d > 0.0 && n >= 1 && a >= 0.0 && x == p / d && x' == q / d
    ensures Times(a, Abs(Clamp(x, n) - Clamp(x', n))) <= Times(a, Abs(p - q) / d)
  {
    ClampClose(x, x', n);
    AbsQuotient(p, q, d);
    MulNonneg(a, Abs(p - q) / d - Abs(Clamp(x, n) - Clamp(x', n)));
  }

  lemma AbsQuotient(p: real, q: real, d: real)
    requires d > 0.0
    ensures Abs(p / d - q / d) == Abs(p - q) / d
  {
    assert p / d - q / d == (p - q) / d;
    if p - q >= 0.0 {
      assert (p - q) / d >= 0.0;
    } else {
      assert -((p - q) / d) == (-(p - q)) / d;
      assert (-(p - q)) / d >= 0.0;
    }
  }
}
