/** mk_cheby.c: choosing a cut resolution, pruning the coefficients below it,
    optionally converting to a power series, and storing ragged rows. */
module MkCheby {
  import opened Common
  import opened Series
  import opened ChebPower
  import opened Matrix
  import opened BivEval
  import opened BchGen
  import opened ChebNodes
  import opened Interpolation
  import Bch2Bps

  // ---------- the residual of a cut ----------

  function CutTerm(x: real, cut: real): real {
    if Abs(x) < cut then Abs(x) else 0.0
  }

  // total size of the coefficients of a row that lie below the cut, from j on
  function RowResidual(s: seq<real>, cut: real, j: nat): (r: real)
    ensures r >= 0.0
    decreases |s| - j
  {
    if j >= |s| then 0.0 else CutTerm(s[j], cut) + RowResidual(s, cut, j + 1)
  }

  function Residual(m: seq<seq<real>>, cut: real, i: nat): (r: real)
    ensures r >= 0.0
    decreases |m| - i
  {
    if i >= |m| then 0.0 else RowResidual(m[i], cut, 0) + Residual(m, cut, i + 1)
  }

  // Halving the cut can only lower the residual.
  lemma {:induction false} RowResidualHalf(s: seq<real>, cut: real, j: nat)
    ensures RowResidual(s, 0.5 * cut, j) <= RowResidual(s, cut, j)
    decreases |s| - j
  {
    if j < |s| {
      RowResidualHalf(s, cut, j + 1);
    }
  }

  lemma {:induction false} ResidualHalf(m: seq<seq<real>>, cut: real, i: nat)
    ensures Residual(m, 0.5 * cut, i) <= Residual(m, cut, i)
    decreases |m| - i
  {
    if i < |m| {
      RowResidualHalf(m[i], cut, 0);
      ResidualHalf(m, cut, i + 1);
    }
  }

  // Both components of the residual at once.
  method Eval(w: Mat, nu: nat, nv: nat, res: real) returns (resid: UV)
    requires Shape(w, nu, nv)
    ensures forall p: Part :: Get(resid, p) == Residual(MatParts(Contents(w), p), res, 0)
  {
    hide CutTerm;
    ghost var mu, mv := MatParts(Contents(w), InU), MatParts(Contents(w), InV);
    resid := UV(0.0, 0.0);
    for i := 0 to nu
      invariant resid.u + Residual(mu, res, i) == Residual(mu, res, 0)
      invariant resid.v + Residual(mv, res, i) == Residual(mv, res, 0)
    {
      ghost var start := resid;
      for j := 0 to nv
        invariant resid.u + RowResidual(mu[i], res, j) == start.u + RowResidual(mu[i], res, 0)
        invariant resid.v + RowResidual(mv[i], res, j) == start.v + RowResidual(mv[i], res, 0)
      {
        assert mu[i][j] == w[i][j].u && mv[i][j] == w[i][j].v;
        var s := w[i][j];
        var u, v := resid.u, resid.v;
        var ab := Abs(s.u);
        if ab < res {
          u := u + ab;
        }
        CutCase(s.u, res);
        ab := Abs(s.v);
        if ab < res {
          v := v + ab;
        }
        CutCase(s.v, res);
        resid := UV(u, v);
      }
    }
    assert Residual(mu, res, nu) == Residual(mv, res, nu) == 0.0;
    assert resid.u == Residual(mu, res, 0);
    assert resid.v == Residual(mv, res, 0);
    assert mu == MatParts(Contents(w), InU) && mv == MatParts(Contents(w), InV);
    assert Get(resid, InU) == Residual(mu, res, 0);
    assert Get(resid, InV) == Residual(mv, res, 0);
  }

  lemma CutCase(x: real, cut: real)
    ensures CutTerm(x, cut) == if Abs(x) < cut then Abs(x) else 0.0
  {
  }

  // ---------- pruning changes the value by at most the residual ----------

  function Pruned(s: seq<real>, cut: real): (r: seq<real>)
    ensures |r| == |s|
  {
    seq(|s|, i requires 0 <= i < |s| => if Abs(s[i]) < cut then 0.0 else s[i])
  }

  function PrunedMat(m: seq<seq<real>>, cut: real): (r: seq<seq<real>>)
    ensures |r| == |m| && forall i :: 0 <= i < |m| ==> |r[i]| == |m[i]|
  {
    seq(|m|, i requires 0 <= i < |m| => Pruned(m[i], cut))
  }

  ghost predicate UnitBasis(f: Basis) {
    forall i: nat :: -1.0 <= f(i) <= 1.0
  }

  lemma ChebUnit(x: real)
    requires -1.0 <= x <= 1.0
    ensures UnitBasis(ChebBasis(x))
  {
    forall i: nat
      ensures -1.0 <= ChebBasis(x)(i) <= 1.0
    {
      ChebBounded(i, x);
    }
  }

  lemma UnitBound(f: real, x: real, y: real, bound: real)
    requires -1.0 <= f <= 1.0 && Abs(x - y) <= bound
    ensures Abs(Times(f, x) - Times(f, y)) <= bound
  {
    assert f * x - f * y == f * (x - y);
    if x >= y {
      MulNonneg(1.0 - f, x - y);
      MulNonneg(1.0 + f, x - y);
    } else {
      MulNonneg(1.0 - f, y - x);
      MulNonneg(1.0 + f, y - x);
    }
  }

  lemma AddBounds(a: real, b: real, c: real, d: real, e: real, f: real)
    requires Abs(a - b) <= e && Abs(c - d) <= f
    ensures Abs((a + c) - (b + d)) <= e + f
  {
  }

  lemma {:induction false} RowPruned(g: Basis, s: seq<real>, cut: real, j: nat)
    requires UnitBasis(g)
    ensures Abs(Tail(g, s, j) - Tail(g, Pruned(s, cut), j)) <= RowResidual(s, cut, j)
    decreases |s| - j
  {
    if j < |s| {
      var t := Pruned(s, cut);
      RowPruned(g, s, cut, j + 1);
      assert Abs(s[j] - t[j]) <= CutTerm(s[j], cut);
      hide Tail, Pruned, CutTerm, Abs, Times;
      UnitBound(g(j), s[j], t[j], CutTerm(s[j], cut));
      TailTimes(g, s, j);
      TailTimes(g, t, j);
      AddBounds(Times(g(j), s[j]), Times(g(j), t[j]), Tail(g, s, j + 1), Tail(g, t, j + 1),
        CutTerm(s[j], cut), RowResidual(s, cut, j + 1));
    }
  }

  lemma {:induction false} MatPruned(f: Basis, g: Basis, m: seq<seq<real>>, cut: real, i: nat)
    requires UnitBasis(f) && UnitBasis(g)
    ensures Abs(Tail(f, RowSums(g, m), i) - Tail(f, RowSums(g, PrunedMat(m, cut)), i)) <= Residual(m, cut, i)
    decreases |m| - i
  {
    if i < |m| {
      var s, t := RowSums(g, m), RowSums(g, PrunedMat(m, cut));
      MatPruned(f, g, m, cut, i + 1);
      RowPruned(g, m[i], cut, 0);
      assert Abs(s[i] - t[i]) <= RowResidual(m[i], cut, 0);
      hide Tail, PrunedMat, RowSums, Abs, RowResidual, Times;
      UnitBound(f(i), s[i], t[i], RowResidual(m[i], cut, 0));
      TailTimes(f, s, i);
      TailTimes(f, t, i);
      AddBounds(Times(f(i), s[i]), Times(f(i), t[i]), Tail(f, s, i + 1), Tail(f, t, i + 1),
        RowResidual(m[i], cut, 0), Residual(m, cut, i + 1));
    }
  }

  // At every point of the square the pruned series is off by at most the residual.
  lemma PruningBound(m: seq<seq<real>>, cut: real, x: real, y: real)
    requires -1.0 <= x <= 1.0 && -1.0 <= y <= 1.0
    ensures Abs(Bilinear(ChebBasis(x), ChebBasis(y), m) - Bilinear(ChebBasis(x), ChebBasis(y), PrunedMat(m, cut)))
         <= Residual(m, cut, 0)
  {
    ChebUnit(x);
    ChebUnit(y);
    MatPruned(ChebBasis(x), ChebBasis(y), m, cut, 0);
  }

  // ---------- ragged storage ----------

  type Keep = real -> bool

  function AtLeast(cut: real): Keep {
    (x: real) => !(Abs(x) < cut)
  }

  function Nonzero(): Keep {
    (x: real) => x != 0.0
  }

  // n is the index after the last coefficient that is kept
  ghost predicate RowExtent(s: seq<real>, keep: Keep, n: nat) {
    && n <= |s|
    && (n > 0 ==> keep(s[n - 1]))
    && (forall i :: n <= i < |s| ==> !keep(s[i]))
  }

  // rows is the index after the last row that keeps anything
  ghost predicate Extent(m: seq<seq<real>>, keep: Keep, rows: nat, counts: seq<nat>) {
    && |counts| == |m| && rows <= |m|
    && (forall i :: 0 <= i < |m| ==> RowExtent(m[i], keep, counts[i]))
    && (rows > 0 ==> counts[rows - 1] > 0)
    && (forall i :: rows <= i < |m| ==> counts[i] == 0)
  }

  function Ragged(m: seq<seq<real>>, rows: nat, counts: seq<nat>): (r: seq<seq<real>>)
    requires rows <= |m| == |counts| && forall i :: 0 <= i < |m| ==> counts[i] <= |m[i]|
    ensures |r| == rows
  {
    seq(rows, i requires 0 <= i < rows => m[i][..counts[i]])
  }

  // Storage is faithful when nothing but zeros is left out.
  ghost predicate OnlyZerosDropped(m: seq<seq<real>>, rows: nat, counts: seq<nat>)
    requires rows <= |m| == |counts| && forall i :: 0 <= i < |m| ==> counts[i] <= |m[i]|
  {
    && (forall i, j :: 0 <= i < rows && counts[i] <= j < |m[i]| ==> m[i][j] == 0.0)
    && (forall i, j :: rows <= i < |m| && 0 <= j < |m[i]| ==> m[i][j] == 0.0)
  }

  lemma RaggedValue(f: Basis, g: Basis, m: seq<seq<real>>, rows: nat, counts: seq<nat>)
    requires rows <= |m| == |counts| && forall i :: 0 <= i < |m| ==> counts[i] <= |m[i]|
    requires OnlyZerosDropped(m, rows, counts)
    ensures Bilinear(f, g, Ragged(m, rows, counts)) == Bilinear(f, g, m)
  {
    forall i | 0 <= i < |m|
      ensures i < rows ==> Dot(g, m[i][..counts[i]]) == Dot(g, m[i])
      ensures i >= rows ==> Dot(g, m[i]) == 0.0
    {
      if i < rows {
        TailTrim(g, m[i], counts[i], 0);
      } else {
        TailZero(g, m[i], 0);
      }
    }
    assert RowSums(g, Ragged(m, rows, counts)) == RowSums(g, m)[..rows];
    TailTrim(f, RowSums(g, m), rows, 0);
  }

  // the extent of the first j rows
  ghost predicate ExtentSoFar(m: seq<seq<real>>, keep: Keep, j: nat, rows: nat, counts: seq<nat>) {
    && |counts| == |m| && rows <= j <= |m|
    && (forall i :: 0 <= i < j ==> RowExtent(m[i], keep, counts[i]))
    && (rows > 0 ==> counts[rows - 1] > 0)
    && (forall i :: rows <= i < j ==> counts[i] == 0)
  }

  lemma ExtentNext(m: seq<seq<real>>, keep: Keep, j: nat, rows: nat, counts: seq<nat>, n: nat)
    requires ExtentSoFar(m, keep, j, rows, counts) && j < |m| && RowExtent(m[j], keep, n)
    ensures ExtentSoFar(m, keep, j + 1, if n != 0 then j + 1 else rows, counts[j := n])
  {
  }

  lemma ExtentPruned(m: seq<seq<real>>, cut: real, rows: nat, counts: seq<nat>)
    requires Extent(m, AtLeast(cut), rows, counts)
    ensures OnlyZerosDropped(PrunedMat(m, cut), rows, counts)
  {
    forall i, j | 0 <= i < |m| && counts[i] <= j < |m[i]|
      ensures PrunedMat(m, cut)[i][j] == 0.0
    {
      assert RowExtent(m[i], AtLeast(cut), counts[i]);
      assert !AtLeast(cut)(m[i][j]);
    }
  }

  lemma ExtentNonzero(m: seq<seq<real>>, rows: nat, counts: seq<nat>)
    requires Extent(m, Nonzero(), rows, counts)
    ensures OnlyZerosDropped(m, rows, counts)
  {
    forall i, j | 0 <= i < |m| && counts[i] <= j < |m[i]|
      ensures m[i][j] == 0.0
    {
      assert RowExtent(m[i], Nonzero(), counts[i]);
      assert !Nonzero()(m[i][j]);
    }
  }

  // ---------- the cut search ----------

  datatype Cut = Cut(cut: real, resid: UV)

  // Up to `tries` halvings.  When they run out, the residual reported is the last
  // one measured, with its u component negated as a warning, and the cut is half
  // of the one it was measured for.
  function CutSearch(mu: seq<seq<real>>, mv: seq<seq<real>>, res: real, cut: real, tries: nat): Cut
    requires tries >= 1
    decreases tries
  {
    var r := UV(Residual(mu, cut, 0), Residual(mv, cut, 0));
    if r.u < res && r.v < res then Cut(cut, r)
    else if tries == 1 then Cut(0.5 * cut, UV(-r.u, r.v))
    else CutSearch(mu, mv, res, 0.5 * cut, tries - 1)
  }

  // Either the reported residual is exactly what the cut removes and is below the
  // requested resolution, or the search ran out and it belongs to twice the cut.
  // In both cases it bounds what the cut removes.
  lemma {:induction false} CutSearchBound(mu: seq<seq<real>>, mv: seq<seq<real>>, res: real, cut: real, tries: nat)
    requires tries >= 1
    ensures var s := CutSearch(mu, mv, res, cut, tries);
      || (s.resid == UV(Residual(mu, s.cut, 0), Residual(mv, s.cut, 0)) && s.resid.u < res && s.resid.v < res)
      || (s.resid == UV(-Residual(mu, 2.0 * s.cut, 0), Residual(mv, 2.0 * s.cut, 0))
          && !(-s.resid.u < res && s.resid.v < res))
    ensures var s := CutSearch(mu, mv, res, cut, tries);
      Residual(mu, s.cut, 0) <= Abs(s.resid.u) && Residual(mv, s.cut, 0) <= Abs(s.resid.v)
    decreases tries
  {
    var r := UV(Residual(mu, cut, 0), Residual(mv, cut, 0));
    if r.u < res && r.v < res {
    } else if tries == 1 {
      ResidualHalf(mu, cut, 0);
      ResidualHalf(mv, cut, 0);
      assert 2.0 * (0.5 * cut) == cut;
    } else {
      CutSearchBound(mu, mv, res, 0.5 * cut, tries - 1);
    }
  }

  // what a cut removes, per component
  function Removed(mu: seq<seq<real>>, mv: seq<seq<real>>, cut: real): UV {
    UV(Residual(mu, cut, 0), Residual(mv, cut, 0))
  }

  predicate Meets(r: UV, res: real) {
    r.u < res && r.v < res
  }

  // The search tries the resolution, its half, its quarter and its eighth, and takes the first
  // that meets the resolution; after four failures it takes a sixteenth, and reports what the
  // eighth removes with the sign of u reversed.
  lemma FirstCut(mu: seq<seq<real>>, mv: seq<seq<real>>, res: real)
    ensures var whole, half, quarter, eighth :=
        Removed(mu, mv, res), Removed(mu, mv, res / 2.0), Removed(mu, mv, res / 4.0), Removed(mu, mv, res / 8.0);
      CutSearch(mu, mv, res, res, 4)
      == if Meets(whole, res) then Cut(res, whole)
         else if Meets(half, res) then Cut(res / 2.0, half)
         else if Meets(quarter, res) then Cut(res / 4.0, quarter)
         else if Meets(eighth, res) then Cut(res / 8.0, eighth)
         else Cut(res / 16.0, UV(-eighth.u, eighth.v))
  {
    hide Residual;
    assert 0.5 * res == res / 2.0 && 0.5 * (res / 2.0) == res / 4.0 && 0.5 * (res / 4.0) == res / 8.0;
    assert CutSearch(mu, mv, res, res, 4) == (if Meets(Removed(mu, mv, res), res) then Cut(res, Removed(mu, mv, res))
                                              else CutSearch(mu, mv, res, res / 2.0, 3));
    assert CutSearch(mu, mv, res, res / 4.0, 2)
        == (if Meets(Removed(mu, mv, res / 4.0), res) then Cut(res / 4.0, Removed(mu, mv, res / 4.0))
            else CutSearch(mu, mv, res, res / 8.0, 1));
  }

  // The loop of at most four measurements finds what CutSearch describes.
  method FindCut(w: Mat, nu: nat, nv: nat, res: real) returns (cutres: real, resid: UV)
    requires Shape(w, nu, nv)
    ensures Cut(cutres, resid)
         == CutSearch(MatParts(Contents(w), InU), MatParts(Contents(w), InV), res, res, 4)
  {
    hide Residual;
    ghost var mu, mv := MatParts(Contents(w), InU), MatParts(Contents(w), InV);
    cutres := res;
    resid := UV(0.0, 0.0);
    var i := 4;
    while i != 0
      invariant 0 <= i <= 4
      invariant mu == MatParts(Contents(w), InU) && mv == MatParts(Contents(w), InV)
      invariant i > 0 ==> CutSearch(mu, mv, res, res, 4) == CutSearch(mu, mv, res, cutres, i)
      invariant i == 0 ==> CutSearch(mu, mv, res, res, 4) == Cut(cutres, UV(-resid.u, resid.v))
    {
      resid := Eval(w, nu, nv, cutres);
      assert mu == MatParts(Contents(w), InU) && mv == MatParts(Contents(w), InV);
      assert resid.u == Get(resid, InU) && resid.v == Get(resid, InV);
      if resid.u < res && resid.v < res {
        break;
      }
      cutres := 0.5 * cutres;
      i := i - 1;
    }
    if i <= 0 {
      resid := UV(-resid.u, resid.v);
    }
  }

  // ---------- pruning in place ----------

  // a coefficient with its components below the cut cleared
  function Cleared(c: UV, cut: real): UV {
    UV(if Abs(c.u) < cut then 0.0 else c.u, if Abs(c.v) < cut then 0.0 else c.v)
  }

  ghost predicate ClearedSoFar(s: seq<UV>, x: seq<UV>, cut: real, i: nat) {
    && |x| == |s|
    && (forall k :: 0 <= k < i && k < |s| ==> x[k] == Cleared(s[k], cut))
    && (forall k :: i <= k < |s| ==> x[k] == s[k])
  }

  // n is the index after the last kept coefficient of the first i
  ghost predicate ExtentTo(s: seq<UV>, p: Part, keep: Keep, i: nat, n: nat) {
    && n <= i <= |s|
    && (n > 0 ==> keep(Get(s[n - 1], p)))
    && (forall k :: n <= k < i ==> !keep(Get(s[k], p)))
  }

  // The components below the cut are cleared, and both counts end after the last kept one.
  method PruneRow(row: array<UV>, nv: nat, cut: real) returns (nu': nat, nv': nat)
    requires row.Length == nv
    modifies row
    ensures forall p: Part :: Parts(row[..], p) == Pruned(Parts(old(row[..]), p), cut)
    ensures RowExtent(Parts(old(row[..]), InU), AtLeast(cut), nu')
    ensures RowExtent(Parts(old(row[..]), InV), AtLeast(cut), nv')
  {
    hide ClearedSoFar, ExtentTo, Parts, Pruned, RowExtent, AtLeast;
    ghost var s := row[..];
    nu', nv' := 0, 0;
    ClearedStart(s, cut);
    for i := 0 to nv
      invariant ClearedSoFar(s, row[..], cut, i)
      invariant ExtentTo(s, InU, AtLeast(cut), i, nu') && ExtentTo(s, InV, AtLeast(cut), i, nv')
    {
      ghost var x := row[..];
      ClearedNext(s, x, cut, i, nu', nv');
      if Abs(row[i].u) < cut {
        row[i] := UV(0.0, row[i].v);
      } else {
        nu' := i + 1;
      }
      if Abs(row[i].v) < cut {
        row[i] := UV(row[i].u, 0.0);
      } else {
        nv' := i + 1;
      }
      assert row[..] == x[i := Cleared(s[i], cut)];
    }
    ClearedEnd(s, row[..], cut, nu', nv');
  }

  lemma ClearedStart(s: seq<UV>, cut: real)
    ensures ClearedSoFar(s, s, cut, 0)
    ensures ExtentTo(s, InU, AtLeast(cut), 0, 0) && ExtentTo(s, InV, AtLeast(cut), 0, 0)
  {
  }

  lemma ClearedNext(s: seq<UV>, x: seq<UV>, cut: real, i: nat, nu': nat, nv': nat)
    requires ClearedSoFar(s, x, cut, i) && i < |s|
    requires ExtentTo(s, InU, AtLeast(cut), i, nu') && ExtentTo(s, InV, AtLeast(cut), i, nv')
    ensures |x| == |s| && x[i] == s[i]
    ensures ClearedSoFar(s, x[i := Cleared(s[i], cut)], cut, i + 1)
    ensures ExtentTo(s, InU, AtLeast(cut), i + 1, if Abs(s[i].u) < cut then nu' else i + 1)
    ensures ExtentTo(s, InV, AtLeast(cut), i + 1, if Abs(s[i].v) < cut then nv' else i + 1)
  {
  }

  lemma ClearedEnd(s: seq<UV>, x: seq<UV>, cut: real, nu': nat, nv': nat)
    requires ClearedSoFar(s, x, cut, |s|)
    requires ExtentTo(s, InU, AtLeast(cut), |s|, nu') && ExtentTo(s, InV, AtLeast(cut), |s|, nv')
    ensures forall p: Part :: Parts(x, p) == Pruned(Parts(s, p), cut)
    ensures RowExtent(Parts(s, InU), AtLeast(cut), nu') && RowExtent(Parts(s, InV), AtLeast(cut), nv')
  {
  }

  // rows before j are pruned, the others untouched
  ghost predicate PrunedSoFar(w: seq<seq<UV>>, x: seq<seq<UV>>, cut: real, j: nat) {
    && |x| == |w|
    && (forall k, p: Part :: 0 <= k < j && k < |w| ==> Parts(x[k], p) == Pruned(Parts(w[k], p), cut))
    && (forall k :: j <= k < |w| ==> x[k] == w[k])
  }

  // ---------- the row counts ----------

  // The number of counts the code allocates: one block for both components, the counts
  // of v starting at nu.
  function CountBlock(nu: nat, nv: nat): nat {
    nu + nv
  }

  // both counts of row j are in that block
  predicate CountsInside(nu: nat, nv: nat, j: nat) {
    j < CountBlock(nu, nv) && nu + j < CountBlock(nu, nv)
  }

  // The passes over the nu rows write inside that block exactly when nu <= nv; otherwise
  // row nv is the first one with a count outside.
  lemma CountsFit(nu: nat, nv: nat)
    ensures (forall j: nat :: j < nu ==> CountsInside(nu, nv, j)) <==> nu <= nv
    ensures forall j: nat :: j < nu ==> (CountsInside(nu, nv, j) <==> j < nv)
  {
    assert nu > nv ==> !CountsInside(nu, nv, nv);
  }

  // The smallest size that holds both count passes.
  function CountSlots(nu: nat, nv: nat): (n: nat)
    ensures n >= CountBlock(nu, nv) && n >= nu + nu
    ensures n == CountBlock(nu, nv) || n == nu + nu
  {
    if nu <= nv then nu + nv else nu + nu
  }

  lemma CountSlices(counts: seq<nat>, x: seq<nat>, nu: nat, j: nat, u: nat, v: nat)
    requires nu + nu <= |counts| && j < nu && x == counts[j := u][nu + j := v]
    ensures x[..nu] == counts[..nu][j := u]
    ensures x[nu..nu + nu] == counts[nu..nu + nu][j := v]
  {
  }

  // Every row is pruned, and the counts describe what is kept of the matrix as it was.
  method PruneAll(w: Mat, nu: nat, nv: nat, cut: real, counts: array<nat>)
    returns (nru: nat, nrv: nat)
    requires Shape(w, nu, nv) && counts.Length >= nu + nu
    modifies RowSet(w), counts
    ensures forall p: Part :: MatParts(Contents(w), p) == PrunedMat(MatParts(old(Contents(w)), p), cut)
    ensures Extent(MatParts(old(Contents(w)), InU), AtLeast(cut), nru, counts[..nu])
    ensures Extent(MatParts(old(Contents(w)), InV), AtLeast(cut), nrv, counts[nu..nu + nu])
  {
    hide RowExtent, ExtentSoFar, Extent, PrunedSoFar;
    ghost var w0 := Contents(w);
    ghost var mu, mv := MatParts(w0, InU), MatParts(w0, InV);
    nru, nrv := 0, 0;
    PrunedStart(w0, cut);
    ExtentStart(mu, AtLeast(cut), counts[..nu]);
    ExtentStart(mv, AtLeast(cut), counts[nu..nu + nu]);
    for j := 0 to nu
      invariant PrunedSoFar(w0, Contents(w), cut, j)
      invariant ExtentSoFar(mu, AtLeast(cut), j, nru, counts[..nu])
      invariant ExtentSoFar(mv, AtLeast(cut), j, nrv, counts[nu..nu + nu])
    {
      ghost var c := counts[..];
      var u, v := PruneAt(w, nu, nv, cut, j, w0);
      ExtentNext(mu, AtLeast(cut), j, nru, c[..nu], u);
      ExtentNext(mv, AtLeast(cut), j, nrv, c[nu..nu + nu], v);
      counts[j], counts[nu + j] := u, v;
      CountSlices(c, counts[..], nu, j, u, v);
      if u != 0 {
        nru := j + 1;
      }
      if v != 0 {
        nrv := j + 1;
      }
    }
    ExtentEnd(mu, AtLeast(cut), nru, counts[..nu]);
    ExtentEnd(mv, AtLeast(cut), nrv, counts[nu..nu + nu]);
    PrunedEnd(w0, Contents(w), cut);
  }

  lemma PrunedStart(w: seq<seq<UV>>, cut: real)
    ensures PrunedSoFar(w, w, cut, 0)
  {
  }

  lemma PrunedEnd(w: seq<seq<UV>>, x: seq<seq<UV>>, cut: real)
    requires PrunedSoFar(w, x, cut, |w|)
    ensures forall p: Part :: MatParts(x, p) == PrunedMat(MatParts(w, p), cut)
  {
    hide Pruned;
    forall p: Part
      ensures MatParts(x, p) == PrunedMat(MatParts(w, p), cut)
    {
    }
  }

  method PruneAt(w: Mat, nu: nat, nv: nat, cut: real, j: nat, ghost w0: seq<seq<UV>>) returns (u: nat, v: nat)
    requires Shape(w, nu, nv) && j < nu && |w0| == nu && PrunedSoFar(w0, Contents(w), cut, j)
    modifies w[j]
    ensures PrunedSoFar(w0, Contents(w), cut, j + 1)
    ensures RowExtent(Parts(w0[j], InU), AtLeast(cut), u)
    ensures RowExtent(Parts(w0[j], InV), AtLeast(cut), v)
  {
    hide RowExtent, Pruned, Parts;
    ghost var x := Contents(w);
    assert w[j][..] == w0[j];
    u, v := PruneRow(w[j], nv, cut);
    assert forall k :: 0 <= k < nu && k != j ==> Contents(w)[k] == x[k];
  }

  lemma ExtentStart(m: seq<seq<real>>, keep: Keep, counts: seq<nat>)
    requires |counts| == |m|
    ensures ExtentSoFar(m, keep, 0, 0, counts)
  {
  }

  lemma ExtentEnd(m: seq<seq<real>>, keep: Keep, rows: nat, counts: seq<nat>)
    requires ExtentSoFar(m, keep, |m|, rows, counts)
    ensures Extent(m, keep, rows, counts)
  {
  }

  // The counts are taken again, now of the coefficients that are not zero.
  method MeasureAll(w: Mat, nu: nat, nv: nat, counts: array<nat>)
    returns (nru: nat, nrv: nat)
    requires Shape(w, nu, nv) && counts.Length >= nu + nu
    modifies counts
    ensures Contents(w) == old(Contents(w))
    ensures Extent(MatParts(Contents(w), InU), Nonzero(), nru, counts[..nu])
    ensures Extent(MatParts(Contents(w), InV), Nonzero(), nrv, counts[nu..nu + nu])
  {
    hide RowExtent, ExtentSoFar, Extent;
    ghost var w0 := Contents(w);
    ghost var mu, mv := MatParts(w0, InU), MatParts(w0, InV);
    nru, nrv := 0, 0;
    ExtentStart(mu, Nonzero(), counts[..nu]);
    ExtentStart(mv, Nonzero(), counts[nu..nu + nu]);
    for j := 0 to nu
      invariant Contents(w) == w0
      invariant ExtentSoFar(mu, Nonzero(), j, nru, counts[..nu])
      invariant ExtentSoFar(mv, Nonzero(), j, nrv, counts[nu..nu + nu])
    {
      ghost var c := counts[..];
      assert w[j][..] == w0[j];
      var u, v := MeasureRow(w[j], nv);
      ExtentNext(mu, Nonzero(), j, nru, c[..nu], u);
      ExtentNext(mv, Nonzero(), j, nrv, c[nu..nu + nu], v);
      counts[j], counts[nu + j] := u, v;
      CountSlices(c, counts[..], nu, j, u, v);
      if u != 0 {
        nru := j + 1;
      }
      if v != 0 {
        nrv := j + 1;
      }
    }
    ExtentEnd(mu, Nonzero(), nru, counts[..nu]);
    ExtentEnd(mv, Nonzero(), nrv, counts[nu..nu + nu]);
  }

  method MeasureRow(row: array<UV>, nv: nat) returns (nu': nat, nv': nat)
    requires row.Length == nv
    ensures RowExtent(Parts(row[..], InU), Nonzero(), nu')
    ensures RowExtent(Parts(row[..], InV), Nonzero(), nv')
  {
    nu', nv' := 0, 0;
    for i := 0 to nv
      invariant nu' <= i && nv' <= i
      invariant nu' > 0 ==> row[nu' - 1].u != 0.0
      invariant nv' > 0 ==> row[nv' - 1].v != 0.0
      invariant forall k :: nu' <= k < i ==> row[k].u == 0.0
      invariant forall k :: nv' <= k < i ==> row[k].v == 0.0
    {
      if row[i].u != 0.0 {
        nu' := i + 1;
      }
      if row[i].v != 0.0 {
        nv' := i + 1;
      }
    }
  }

  // One component in ragged form, its row counts taken from the given offset on.
  method StoreRows(w: Mat, nu: nat, nv: nat, p: Part, rows: nat, counts: array<nat>, from: nat)
    returns (c: seq<seq<real>>)
    requires Shape(w, nu, nv) && rows <= nu && from + nu <= counts.Length
    requires forall i :: from <= i < from + nu ==> counts[i] <= nv
    ensures c == Ragged(MatParts(Contents(w), p), rows, counts[from..from + nu])
  {
    ghost var m := MatParts(Contents(w), p);
    ghost var n := counts[from..from + nu];
    c := [];
    for i := 0 to rows
      invariant |c| == i
      invariant forall k :: 0 <= k < i ==> c[k] == m[k][..n[k]]
    {
      assert n[i] == counts[from + i];
      var row: seq<real> := [];
      for j := 0 to counts[from + i]
        invariant row == m[i][..j]
      {
        assert m[i][j] == Get(w[i][j], p);
        row := row + [Get(w[i][j], p)];
      }
      c := c + [row];
    }
  }

  // Counts that describe a component are at most the row length, wherever they are kept.
  lemma CountsBelow(counts: array<nat>, from: nat, m: seq<seq<real>>, nv: nat, keep: Keep, rows: nat)
    requires from + |m| <= counts.Length && Rect(m, nv) && Extent(m, keep, rows, counts[from..from + |m|])
    ensures rows <= |m|
    ensures forall i :: from <= i < from + |m| ==> counts[i] <= nv
  {
    var n := counts[from..from + |m|];
    ExtentCounts(m, keep, rows, n);
    forall i | from <= i < from + |m|
      ensures counts[i] <= nv
    {
      assert n[i - from] == counts[i];
    }
  }

  // ---------- the whole construction ----------

  // At every point the stored series has the value of the pruned Chebyshev series.
  ghost predicate Faithful(t: Tseries, c: seq<seq<real>>, p: Part, cut: real, a: UV, b: UV)
    requires a.u != b.u && a.v != b.v
  {
    forall pt: UV ::
      SeriesValue(t, pt, p)
      == Bilinear(ChebBasis(Normalised(pt.u, a.u, b.u)), ChebBasis(Normalised(pt.v, a.v, b.v)), PrunedMat(c, cut))
  }

  // In the box the stored series stays within the residual of the unpruned series.
  ghost predicate WithinResidual(t: Tseries, c: seq<seq<real>>, p: Part, bound: real, a: UV, b: UV)
    requires a.u != b.u && a.v != b.v
  {
    forall pt: UV ::
      var x, y := Normalised(pt.u, a.u, b.u), Normalised(pt.v, a.v, b.v);
      -1.0 <= x <= 1.0 && -1.0 <= y <= 1.0 ==>
        Abs(SeriesValue(t, pt, p) - Bilinear(ChebBasis(x), ChebBasis(y), c)) <= bound
  }

  lemma FaithfulWithin(t: Tseries, c: seq<seq<real>>, p: Part, cut: real, bound: real, a: UV, b: UV)
    requires a.u != b.u && a.v != b.v
    requires Faithful(t, c, p, cut, a, b) && Residual(c, cut, 0) <= bound
    ensures WithinResidual(t, c, p, bound, a, b)
  {
    hide SeriesValue, Bilinear, Normalised, PrunedMat;
    forall pt: UV |
      && -1.0 <= Normalised(pt.u, a.u, b.u) <= 1.0
      && -1.0 <= Normalised(pt.v, a.v, b.v) <= 1.0
      ensures Abs(SeriesValue(t, pt, p)
                  - Bilinear(ChebBasis(Normalised(pt.u, a.u, b.u)), ChebBasis(Normalised(pt.v, a.v, b.v)), c)) <= bound
    {
      PruningBound(c, cut, Normalised(pt.u, a.u, b.u), Normalised(pt.v, a.v, b.v));
    }
  }

  // The box is exactly the set of points with normalised coordinates in -1..1.
  lemma BoxNormalised(x: real, a: real, b: real)
    requires a < b
    ensures a <= x <= b <==> -1.0 <= Normalised(x, a, b) <= 1.0
  {
    QuotientRange(2.0 * x - a - b, b - a);
  }

  lemma QuotientRange(d: real, w: real)
    requires w > 0.0
    ensures -w <= d <= w <==> -1.0 <= d / w <= 1.0
  {
    var n := d / w;
    assert n * w == d;
    if -1.0 <= n <= 1.0 {
      MulNonneg(1.0 - n, w);
      MulNonneg(1.0 + n, w);
      assert (1.0 - n) * w == w - d && (1.0 + n) * w == w + d;
    } else if n > 1.0 {
      assert (n - 1.0) * w == d - w;
      assert (n - 1.0) * w > 0.0;
    } else {
      assert (-1.0 - n) * w == -w - d;
      assert (-1.0 - n) * w > 0.0;
    }
  }

  lemma ScaledArgument(x: real, a: real, b: real, shift: real, factor: real)
    requires a != b && shift == a + b && factor == 1.0 / (b - a)
    ensures Rescaled(x, shift, factor) == Normalised(x, a, b)
  {
    assert (x + x - shift) * (1.0 / (b - a)) == (x + x - shift) / (b - a);
  }

  lemma ChebFaithful(t: Tseries, m: seq<seq<real>>, cut: real, p: Part, rows: nat, counts: seq<nat>, a: UV, b: UV)
    requires a.u != b.u && a.v != b.v
    requires Extent(m, AtLeast(cut), rows, counts)
    requires !t.power && t.Coefficients(p) == Ragged(PrunedMat(m, cut), rows, counts)
    requires t.a == UV(a.u + b.u, a.v + b.v) && t.b == UV(1.0 / (b.u - a.u), 1.0 / (b.v - a.v))
    ensures Faithful(t, m, p, cut, a, b)
  {
    hide Bilinear, Ragged, Extent, OnlyZerosDropped, PrunedMat, Normalised;
    ExtentCounts(m, AtLeast(cut), rows, counts);
    ExtentPruned(m, cut, rows, counts);
    forall pt: UV
      ensures SeriesValue(t, pt, p)
        == Bilinear(ChebBasis(Normalised(pt.u, a.u, b.u)), ChebBasis(Normalised(pt.v, a.v, b.v)), PrunedMat(m, cut))
    {
      ScaledArgument(pt.u, a.u, b.u, t.a.u, t.b.u);
      ScaledArgument(pt.v, a.v, b.v, t.a.v, t.b.v);
      var w := Argument(pt, t);
      RaggedValue(ChebBasis(w.u), ChebBasis(w.v), PrunedMat(m, cut), rows, counts);
    }
  }

  lemma PowerFaithful(t: Tseries, m: seq<seq<real>>, cut: real, q: seq<seq<real>>, p: Part,
                      rows: nat, counts: seq<nat>, a: UV, b: UV)
    requires a.u != b.u && a.v != b.v
    requires forall u: real, v: real ::
      Bilinear(PowerBasis(u), PowerBasis(v), q)
      == Bilinear(ChebBasis(Normalised(u, a.u, b.u)), ChebBasis(Normalised(v, a.v, b.v)), PrunedMat(m, cut))
    requires Extent(q, Nonzero(), rows, counts)
    requires t.power && t.Coefficients(p) == Ragged(q, rows, counts)
    ensures Faithful(t, m, p, cut, a, b)
  {
    hide Bilinear, Ragged, Extent, OnlyZerosDropped, PrunedMat, Normalised;
    ExtentCounts(q, Nonzero(), rows, counts);
    ExtentNonzero(q, rows, counts);
    forall pt: UV
      ensures SeriesValue(t, pt, p)
        == Bilinear(ChebBasis(Normalised(pt.u, a.u, b.u)), ChebBasis(Normalised(pt.v, a.v, b.v)), PrunedMat(m, cut))
    {
      RaggedValue(PowerBasis(pt.u), PowerBasis(pt.v), q, rows, counts);
    }
  }

  // Some coefficient reaches the cut.
  ghost predicate SomeKept(m: seq<seq<real>>, cut: real) {
    exists i, j :: 0 <= i < |m| && 0 <= j < |m[i]| && Abs(m[i][j]) >= cut
  }

  lemma ExtentNonempty(m: seq<seq<real>>, cut: real, rows: nat, counts: seq<nat>)
    requires Extent(m, AtLeast(cut), rows, counts)
    ensures rows >= 1 <==> SomeKept(m, cut)
  {
    if rows >= 1 {
      assert RowExtent(m[rows - 1], AtLeast(cut), counts[rows - 1]);
      assert AtLeast(cut)(m[rows - 1][counts[rows - 1] - 1]);
    }
    if SomeKept(m, cut) {
      var i, j :| 0 <= i < |m| && 0 <= j < |m[i]| && Abs(m[i][j]) >= cut;
      assert RowExtent(m[i], AtLeast(cut), counts[i]);
      assert AtLeast(cut)(m[i][j]);
    }
  }

  // the argument scaling of a stored Chebyshev series
  ghost predicate ScaledFor(t: Tseries, a: UV, b: UV)
    requires a.u != b.u && a.v != b.v
  {
    t.a == UV(a.u + b.u, a.v + b.v) && t.b == UV(1.0 / (b.u - a.u), 1.0 / (b.v - a.v))
  }

  // The power series of the pruned matrix, with its counts measured again.
  method StorePower(w: Mat, nu: nat, nv: nat, a: UV, b: UV, ghost cut: real, counts: array<nat>,
                    ghost mu: seq<seq<real>>, ghost mv: seq<seq<real>>) returns (t: Tseries)
    requires nu >= 1 && nv >= 1 && Shape(w, nu, nv) && a.u != b.u && a.v != b.v
    requires counts.Length >= nu + nu
    requires MatParts(Contents(w), InU) == PrunedMat(mu, cut) && MatParts(Contents(w), InV) == PrunedMat(mv, cut)
    modifies RowSet(w), counts
    ensures t.power
    ensures Faithful(t, mu, InU, cut, a, b) && Faithful(t, mv, InV, cut, a, b)
  {
    hide Bilinear, Ragged, Extent, PrunedMat, Faithful, Normalised, MatParts;
    var ok := Bch2Bps.Convert(a, b, w, nu, nv);
    var nru, nrv := MeasureAll(w, nu, nv, counts);
    ghost var qu, qv := MatParts(Contents(w), InU), MatParts(Contents(w), InV);
    ghost var nsu, nsv := counts[..nu], counts[nu..nu + nu];
    assert counts[0..0 + nu] == nsu;
    CountsBelow(counts, 0, qu, nv, Nonzero(), nru);
    CountsBelow(counts, nu, qv, nv, Nonzero(), nrv);
    var cu := StoreRows(w, nu, nv, InU, nru, counts, 0);
    var cv := StoreRows(w, nu, nv, InV, nrv, counts, nu);
    t := Tseries(a, b, cu, cv, true);
    PowerFaithful(t, mu, cut, qu, InU, nru, nsu, a, b);
    PowerFaithful(t, mv, cut, qv, InV, nrv, nsv, a, b);
  }

  // The pruned Chebyshev series itself, with the scaling of its arguments.
  method StoreCheb(w: Mat, nu: nat, nv: nat, a: UV, b: UV, ghost cut: real, nru: nat, nrv: nat,
                   counts: array<nat>, ghost mu: seq<seq<real>>, ghost mv: seq<seq<real>>)
    returns (t: Tseries)
    requires nu >= 1 && nv >= 1 && Shape(w, nu, nv) && a.u != b.u && a.v != b.v
    requires counts.Length >= nu + nu && Rect(mu, nv) && Rect(mv, nv)
    requires MatParts(Contents(w), InU) == PrunedMat(mu, cut) && MatParts(Contents(w), InV) == PrunedMat(mv, cut)
    requires Extent(mu, AtLeast(cut), nru, counts[..nu]) && Extent(mv, AtLeast(cut), nrv, counts[nu..nu + nu])
    ensures !t.power && ScaledFor(t, a, b)
    ensures Faithful(t, mu, InU, cut, a, b) && Faithful(t, mv, InV, cut, a, b)
    ensures |t.cu| >= 1 <==> SomeKept(mu, cut)
    ensures |t.cv| >= 1 <==> SomeKept(mv, cut)
  {
    hide Bilinear, Ragged, Extent, PrunedMat, Faithful, SomeKept, AtLeast, Normalised, MatParts;
    ghost var nsu, nsv := counts[..nu], counts[nu..nu + nu];
    ghost var w0 := Contents(w);
    assert counts[0..0 + nu] == nsu;
    CountsBelow(counts, 0, mu, nv, AtLeast(cut), nru);
    CountsBelow(counts, nu, mv, nv, AtLeast(cut), nrv);
    var cu := StoreRows(w, nu, nv, InU, nru, counts, 0);
    assert Contents(w) == w0;
    var cv := StoreRows(w, nu, nv, InV, nrv, counts, nu);
    assert Contents(w) == w0;
    t := Tseries(UV(a.u + b.u, a.v + b.v), UV(1.0 / (b.u - a.u), 1.0 / (b.v - a.v)), cu, cv, false);
    ChebFaithful(t, mu, cut, InU, nru, nsu, a, b);
    ChebFaithful(t, mv, cut, InV, nrv, nsv, a, b);
    ExtentNonempty(mu, cut, nru, nsu);
    ExtentNonempty(mv, cut, nrv, nsv);
  }

  // The matrix w holds the coefficients; prune, convert if asked, and store.
  method Store(w: Mat, nu: nat, nv: nat, a: UV, b: UV, cut: real, power: bool) returns (t: Tseries)
    requires nu >= 1 && nv >= 1 && Shape(w, nu, nv) && a.u != b.u && a.v != b.v
    modifies RowSet(w)
    ensures t.power == power
    ensures Faithful(t, MatParts(old(Contents(w)), InU), InU, cut, a, b)
    ensures Faithful(t, MatParts(old(Contents(w)), InV), InV, cut, a, b)
    ensures !power ==> ScaledFor(t, a, b)
    ensures !power ==> (|t.cu| >= 1 <==> SomeKept(MatParts(old(Contents(w)), InU), cut))
    ensures !power ==> (|t.cv| >= 1 <==> SomeKept(MatParts(old(Contents(w)), InV), cut))
  {
    hide Extent, PrunedMat, SomeKept, Faithful, AtLeast, Normalised;
    ghost var mu, mv := MatParts(Contents(w), InU), MatParts(Contents(w), InV);
    var counts := new nat[CountSlots(nu, nv)](_ => 0);
    var nru, nrv := PruneAll(w, nu, nv, cut, counts);
    if power {
      t := StorePower(w, nu, nv, a, b, cut, counts, mu, mv);
    } else {
      t := StoreCheb(w, nu, nv, a, b, cut, nru, nrv, counts, mu, mv);
    }
  }

  lemma ExtentCounts(m: seq<seq<real>>, keep: Keep, rows: nat, counts: seq<nat>)
    requires Extent(m, keep, rows, counts)
    ensures |counts| == |m| && rows <= |m|
    ensures forall i :: 0 <= i < |m| ==> counts[i] <= |m[i]|
  {
    assert forall i :: 0 <= i < |m| ==> RowExtent(m[i], keep, counts[i]);
  }

  // At every node of the box the stored series stays within the residual of the function.
  ghost predicate NearFunction(t: Tseries, func: Sampled, p: Part, bound: real, cosine: Cosine, a: UV, b: UV,
                               nu: nat, nv: nat)
    requires a.u != b.u && a.v != b.v
  {
    forall pt: UV :: AtNodes(cosine, pt, a, b, nu, nv) ==>
      func(pt).Finite? && Abs(SeriesValue(t, pt, p) - Get(func(pt).uv, p)) <= bound
  }

  lemma WithinNear(t: Tseries, func: Sampled, p: Part, bound: real, cosine: Cosine, a: UV, b: UV, nu: nat, nv: nat)
    requires nu >= 1 && nv >= 1 && a.u != b.u && a.v != b.v && IsCosine(cosine, PI)
    requires AllFinite(cosine, func, a, b, nu, nv)
    requires WithinResidual(t, ChebCoefficients(cosine, Samples(cosine, func, a, b, nu, nv), nu, nv, p), p, bound, a, b)
    ensures NearFunction(t, func, p, bound, cosine, a, b, nu, nv)
  {
    hide SeriesValue, Bilinear, Normalised, ChebCoefficients, Samples, AllFinite, IsCosine, AtNodes;
    forall pt: UV | AtNodes(cosine, pt, a, b, nu, nv)
      ensures func(pt).Finite? && Abs(SeriesValue(t, pt, p) - Get(func(pt).uv, p)) <= bound
    {
      SeriesIsFunction(cosine, func, a, b, nu, nv, pt, p);
      NodesAt(cosine, pt, a, b, nu, nv);
      NodesInside(cosine, Normalised(pt.u, a.u, b.u), nu);
      NodesInside(cosine, Normalised(pt.v, a.v, b.v), nv);
    }
  }

  lemma NodesAt(cosine: Cosine, pt: UV, a: UV, b: UV, nu: nat, nv: nat)
    requires a.u != b.u && a.v != b.v && AtNodes(cosine, pt, a, b, nu, nv)
    ensures OnNodes(cosine, Normalised(pt.u, a.u, b.u), nu) && OnNodes(cosine, Normalised(pt.v, a.v, b.v), nv)
  {
  }

  // Build the approximation of func over the box from a to b.  There is one exactly when func
  // answers at every node, and there it is within the residual of func.
  method Make(a: UV, b: UV, res: real, func: Sampled, nu: nat, nv: nat, power: bool, cosine: Cosine)
    returns (t: Option<Tseries>, resid: UV)
    requires nu >= 1 && nv >= 1 && a.u != b.u && a.v != b.v
    ensures t.Some? <==> AllFinite(cosine, func, a, b, nu, nv)
    ensures t.Some? <==> forall pt: UV :: AtNodes(cosine, pt, a, b, nu, nv) ==> func(pt).Finite?
    ensures t.Some? && IsCosine(cosine, PI) ==>
      && NearFunction(t.value, func, InU, Abs(resid.u), cosine, a, b, nu, nv)
      && NearFunction(t.value, func, InV, Abs(resid.v), cosine, a, b, nu, nv)
    ensures t.Some? ==>
      var s := Samples(cosine, func, a, b, nu, nv);
      var cu, cv := ChebCoefficients(cosine, s, nu, nv, InU), ChebCoefficients(cosine, s, nu, nv, InV);
      var cut := CutSearch(cu, cv, res, res, 4);
      && resid == cut.resid
      && t.value.power == power
      && Faithful(t.value, cu, InU, cut.cut, a, b) && Faithful(t.value, cv, InV, cut.cut, a, b)
      && WithinResidual(t.value, cu, InU, Abs(resid.u), a, b)
      && WithinResidual(t.value, cv, InV, Abs(resid.v), a, b)
      && (!power ==> ScaledFor(t.value, a, b))
      && (!power ==> (|t.value.cu| >= 1 <==> SomeKept(cu, cut.cut)))
      && (!power ==> (|t.value.cv| >= 1 <==> SomeKept(cv, cut.cut)))
  {
    hide Bilinear, CutSearch, Faithful, WithinResidual, SomeKept, ChebCoefficients, Samples, Residual, AtNodes, IsCosine,
         NearFunction, AllFinite;
    resid := UV(0.0, 0.0);
    FiniteAtNodes(cosine, func, a, b, nu, nv);
    var w := NewMatrix(nu, nv);
    var failed, released := Generate(a, b, nu, nv, w, cosine, func);
    if failed {
      return None, resid;
    }
    ghost var cu, cv := MatParts(Contents(w), InU), MatParts(Contents(w), InV);
    var cut;
    cut, resid := FindCut(w, nu, nv, res);
    CutSearchBound(cu, cv, res, res, 4);
    assert cu == MatParts(Contents(w), InU) && cv == MatParts(Contents(w), InV);
    var series := Store(w, nu, nv, a, b, cut, power);
    FaithfulWithin(series, cu, InU, cut, Abs(resid.u), a, b);
    FaithfulWithin(series, cv, InV, cut, Abs(resid.v), a, b);
    if IsCosine(cosine, PI) {
      WithinNear(series, func, InU, Abs(resid.u), cosine, a, b, nu, nv);
      WithinNear(series, func, InV, Abs(resid.v), cosine, a, b, nu, nv);
    }
    return Some(series), resid;
  }

  lemma ScaledRange(t: Tseries, a: UV, b: UV, pt: UV)
    requires a.u != b.u && a.v != b.v && ScaledFor(t, a, b)
    ensures Argument(pt, t) == UV(Normalised(pt.u, a.u, b.u), Normalised(pt.v, a.v, b.v))
  {
    hide Normalised, Rescaled;
    ScaledArgument(pt.u, a.u, b.u, t.a.u, t.b.u);
    ScaledArgument(pt.v, a.v, b.v, t.a.v, t.b.v);
  }

  // Two series that stand for the same pruned matrix have the same value everywhere.
  lemma SamePruned(t: Tseries, s: Tseries, c: seq<seq<real>>, p: Part, cut: real, a: UV, b: UV, pt: UV)
    requires a.u != b.u && a.v != b.v && Faithful(t, c, p, cut, a, b) && Faithful(s, c, p, cut, a, b)
    ensures SeriesValue(t, pt, p) == SeriesValue(s, pt, p)
  {
    hide SeriesValue, Bilinear, Normalised, PrunedMat;
  }

  lemma WithinAt(t: Tseries, c: seq<seq<real>>, p: Part, bound: real, a: UV, b: UV, pt: UV)
    requires a.u != b.u && a.v != b.v && WithinResidual(t, c, p, bound, a, b)
    ensures var x, y := Normalised(pt.u, a.u, b.u), Normalised(pt.v, a.v, b.v);
      -1.0 <= x <= 1.0 && -1.0 <= y <= 1.0 ==>
        Abs(SeriesValue(t, pt, p) - Bilinear(ChebBasis(x), ChebBasis(y), c)) <= bound
  {
    hide SeriesValue, Bilinear, Normalised;
  }

  // The two stored forms of one approximation, evaluated at a point: the Chebyshev form
  // answers exactly near the box, then both give the same pair, and inside the box each
  // component is within its residual of the series that was not pruned, hence at the nodes
  // of the function itself.
  method EvaluateBoth(a: UV, b: UV, res: real, func: Sampled, nu: nat, nv: nat, cosine: Cosine, pt: UV)
    returns (cheb: Value, power: Value, resid: UV)
    requires nu >= 1 && nv >= 1 && a.u != b.u && a.v != b.v
    requires AllFinite(cosine, func, a, b, nu, nv)
    requires var s := Samples(cosine, func, a, b, nu, nv);
      var cu, cv := ChebCoefficients(cosine, s, nu, nv, InU), ChebCoefficients(cosine, s, nu, nv, InV);
      var cut := CutSearch(cu, cv, res, res, 4).cut;
      SomeKept(cu, cut) && SomeKept(cv, cut)
    ensures cheb.Finite? <==> InRange(UV(Normalised(pt.u, a.u, b.u), Normalised(pt.v, a.v, b.v)))
    ensures cheb.Finite? ==> cheb == power
    ensures var s := Samples(cosine, func, a, b, nu, nv);
      var x, y := Normalised(pt.u, a.u, b.u), Normalised(pt.v, a.v, b.v);
      cheb.Finite? && -1.0 <= x <= 1.0 && -1.0 <= y <= 1.0 ==>
        forall p: Part ::
          Abs(Get(cheb.uv, p) - Bilinear(ChebBasis(x), ChebBasis(y), ChebCoefficients(cosine, s, nu, nv, p)))
          <= Abs(Get(resid, p))
    ensures IsCosine(cosine, PI) && AtNodes(cosine, pt, a, b, nu, nv) ==>
      && cheb.Finite? && func(pt).Finite?
      && forall p: Part :: Abs(Get(cheb.uv, p) - Get(func(pt).uv, p)) <= Abs(Get(resid, p))
  {
    hide Bilinear, CutSearch, Faithful, WithinResidual, SomeKept, ChebCoefficients, Samples, Residual, SeriesValue,
         IsCosine, AtNodes, NearFunction,
         Normalised, ScaledFor, AllFinite, Argument, InRange;
    ghost var s := Samples(cosine, func, a, b, nu, nv);
    ghost var cu, cv := ChebCoefficients(cosine, s, nu, nv, InU), ChebCoefficients(cosine, s, nu, nv, InV);
    ghost var cut := CutSearch(cu, cv, res, res, 4).cut;
    var t, r := Make(a, b, res, func, nu, nv, false, cosine);
    var q, r' := Make(a, b, res, func, nu, nv, true, cosine);
    resid := r;
    cheb := Evaluate(pt, t.value);
    power := Evaluate(pt, q.value);
    ScaledRange(t.value, a, b, pt);
    SamePruned(t.value, q.value, cu, InU, cut, a, b, pt);
    SamePruned(t.value, q.value, cv, InV, cut, a, b, pt);
    WithinAt(t.value, cu, InU, Abs(resid.u), a, b, pt);
    WithinAt(t.value, cv, InV, Abs(resid.v), a, b, pt);
    if cheb.Finite? {
      assert Get(cheb.uv, InU) == Get(power.uv, InU) && Get(cheb.uv, InV) == Get(power.uv, InV);
    }
    if IsCosine(cosine, PI) && AtNodes(cosine, pt, a, b, nu, nv) {
      NearAt(t.value, func, InU, Abs(resid.u), cosine, a, b, nu, nv, pt);
      NearAt(t.value, func, InV, Abs(resid.v), cosine, a, b, nu, nv, pt);
    }
  }

  lemma NearAt(t: Tseries, func: Sampled, p: Part, bound: real, cosine: Cosine, a: UV, b: UV, nu: nat, nv: nat, pt: UV)
    requires a.u != b.u && a.v != b.v && IsCosine(cosine, PI) && AtNodes(cosine, pt, a, b, nu, nv)
    requires NearFunction(t, func, p, bound, cosine, a, b, nu, nv)
    ensures InRange(UV(Normalised(pt.u, a.u, b.u), Normalised(pt.v, a.v, b.v)))
    ensures func(pt).Finite? && Abs(SeriesValue(t, pt, p) - Get(func(pt).uv, p)) <= bound
  {
    hide SeriesValue, Normalised, IsCosine;
    NodesAt(cosine, pt, a, b, nu, nv);
    NodesInside(cosine, Normalised(pt.u, a.u, b.u), nu);
    NodesInside(cosine, Normalised(pt.v, a.v, b.v), nv);
  }
}
