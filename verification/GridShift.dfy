/** pj_apply_gridshift.c: shifting an array of points, each by the first table
    that covers it and works, with tables loaded only when first needed. */
module GridShift {
  import opened Common
  import opened Series
  import opened Strided
  import opened NadGrid
  import opened NadCvt

  // A grid of a file: its header, what a load would read (None when loading would
  // fail), the cells once loaded, and its refinements.
  class GridInfo {
    const ll: LP
    const del: LP
    const limLam: nat
    const limPhi: nat
    const stored: Option<seq<LP>>
    const children: seq<GridInfo>
    var cvs: Option<seq<LP>>

    constructor (ll: LP, del: LP, limLam: nat, limPhi: nat, stored: Option<seq<LP>>, children: seq<GridInfo>)
      ensures this.ll == ll && this.del == del && this.limLam == limLam && this.limPhi == limPhi
      ensures this.stored == stored && this.children == children && cvs == None
    {
      this.ll, this.del, this.limLam, this.limPhi := ll, del, limLam, limPhi;
      this.stored, this.children := stored, children;
      cvs := None;
    }

    predicate WellFormed() {
      && limLam >= 2 && limPhi >= 2 && del.lam > 0.0 && del.phi > 0.0
      && (stored.Some? ==> |stored.value| == limPhi * limLam)
    }

    ghost predicate Valid()
      reads this
    {
      WellFormed() && (cvs == None || cvs == stored)
    }

    function Table(): (ct: CTable)
      requires WellFormed() && stored.Some?
      ensures ct.Valid()
    {
      CTable(ll, del, limLam, limPhi, stored.value)
    }

    // pj_gridinfo_load, the reading itself left out
    method Load() returns (ok: bool)
      requires Valid()
      modifies this`cvs
      ensures Valid()
      ensures ok <==> stored.Some?
      ensures cvs == if ok then stored else old(cvs)
    {
      if stored.None? {
        return false;
      }
      cvs := stored;
      return true;
    }

    // the table's area, widened by a ten-thousandth of a cell, holds the point
    predicate Covers(x: Coord, y: Coord) {
      var epsilon := (Abs(del.phi) + Abs(del.lam)) / 10000.0;
      && x.Num? && y.Num?
      && !(ll.phi - epsilon > y.r || ll.lam - epsilon > x.r
           || ll.phi + (limPhi - 1) as real * del.phi + epsilon < y.r
           || ll.lam + (limLam - 1) as real * del.lam + epsilon < x.r)
    }
  }

  // every grid that can be reached from the list
  ghost function AllGrids(tables: seq<GridInfo>): set<GridInfo> {
    (set g | g in tables) + (set i, c | 0 <= i < |tables| && c in tables[i].children :: c)
  }

  ghost predicate AllValid(tables: seq<GridInfo>)
    reads AllGrids(tables)
  {
    forall g :: g in AllGrids(tables) ==> g.Valid()
  }

  // ---------- which points a table covers ----------

  // The rectangle from the first node to the last, and a margin of a ten-thousandth of the
  // two sides of a cell together.
  predicate NearTable(g: GridInfo, x: real, y: real) {
    var margin := (Abs(g.del.lam) + Abs(g.del.phi)) / 10000.0;
    var right, top := g.ll.lam + (g.limLam - 1) as real * g.del.lam, g.ll.phi + (g.limPhi - 1) as real * g.del.phi;
    g.ll.lam - margin <= x <= right + margin && g.ll.phi - margin <= y <= top + margin
  }

  lemma CoversExact(g: GridInfo, x: real, y: real)
    ensures g.Covers(Num(x), Num(y)) <==> NearTable(g, x, y)
    ensures !g.Covers(HugeVal, Num(y)) && !g.Covers(Num(x), HugeVal) && !g.Covers(HugeVal, HugeVal)
  {
  }

  // Wherever its own lookup answers, a table covers the point.
  lemma LookupCovered(g: GridInfo, x: real, y: real)
    requires g.WellFormed() && g.stored.Some?
    requires Interpolated(LP(x - g.ll.lam, y - g.ll.phi), g.Table()).Found?
    ensures g.Covers(Num(x), Num(y))
  {
    hide Surface;
    AcceptedNear(x - g.ll.lam, g.del.lam, g.limLam);
    AcceptedNear(y - g.ll.phi, g.del.phi, g.limPhi);
  }

  lemma AcceptedNear(d: real, del: real, n: nat)
    requires del > 0.0 && Accepted(d / del, n)
    ensures -del / 10000.0 <= d <= (n - 1) as real * del + del / 10000.0
  {
    var q, m := d / del, (n - 1) as real;
    assert q * del == d;
    MulNonneg(q + 0.00000000001, del);
    MulNonneg(m + 0.00000000001 - q, del);
    assert (q + 0.00000000001) * del == d + 0.00000000001 * del;
    assert (m + 0.00000000001 - q) * del == m * del + 0.00000000001 * del - d;
  }

  // ---------- what one point should become ----------

  // the first child from k on that covers the point, or the grid itself
  function Refined(g: GridInfo, k: nat, x: Coord, y: Coord): (r: GridInfo)
    ensures r == g || r in g.children
    decreases |g.children| - k
  {
    if k >= |g.children| then g
    else if g.children[k].Covers(x, y) then g.children[k]
    else Refined(g, k + 1, x, y)
  }

  datatype PointResult = LoadFailed | Unshifted | Shifted(lp: LP)

  ghost predicate AllWellFormed(tables: seq<GridInfo>) {
    forall g :: g in AllGrids(tables) ==> g.WellFormed()
  }

  // The first table from t on that covers the point, refined, and does not fail.
  function PointShift(tables: seq<GridInfo>, t: nat, inverse: bool, x: Coord, y: Coord): PointResult
    requires AllWellFormed(tables)
    decreases |tables| - t
  {
    if t >= |tables| then Unshifted
    else if !tables[t].Covers(x, y) then PointShift(tables, t + 1, inverse, x, y)
    else
      var g := Refined(tables[t], 0, x, y);
      assert g in AllGrids(tables);
      if g.stored.None? then LoadFailed
      else
        match DatumShifted(At(LP(x.r, y.r)), inverse, g.Table())
        case Huge => PointShift(tables, t + 1, inverse, x, y)
        case At(lp) => Shifted(lp)
  }

  // table t does not settle the point: it does not cover it, or its lookup fails
  predicate Passed(tables: seq<GridInfo>, t: nat, inverse: bool, x: Coord, y: Coord)
    requires AllWellFormed(tables) && t < |tables|
  {
    tables[t].Covers(x, y) ==>
      var g := Refined(tables[t], 0, x, y);
      assert g in AllGrids(tables);
      g.stored.Some? && DatumShifted(At(LP(x.r, y.r)), inverse, g.Table()) == Huge
  }

  // The first covering child is used, or the grid itself when no child covers.
  lemma {:induction false} RefinedFirst(g: GridInfo, k: nat, m: nat, x: Coord, y: Coord)
    requires k <= m <= |g.children|
    requires forall i :: k <= i < m ==> !g.children[i].Covers(x, y)
    requires m < |g.children| ==> g.children[m].Covers(x, y)
    ensures Refined(g, k, x, y) == if m < |g.children| then g.children[m] else g
    decreases m - k
  {
    if k < m {
      RefinedFirst(g, k + 1, m, x, y);
    }
  }

  // The first table that settles the point decides; if none does it stays unshifted.
  lemma {:induction false} FirstDecides(tables: seq<GridInfo>, t: nat, m: nat, inverse: bool, x: Coord, y: Coord)
    requires AllWellFormed(tables) && t <= m <= |tables|
    requires forall i :: t <= i < m ==> Passed(tables, i, inverse, x, y)
    requires m < |tables| ==> !Passed(tables, m, inverse, x, y)
    ensures m == |tables| ==> PointShift(tables, t, inverse, x, y) == Unshifted
    ensures m < |tables| ==>
      var g := Refined(tables[m], 0, x, y);
      && g in AllGrids(tables)
      && tables[m].Covers(x, y)
      && (g.stored.None? ==> PointShift(tables, t, inverse, x, y) == LoadFailed)
      && (g.stored.Some? ==>
            var r := DatumShifted(At(LP(x.r, y.r)), inverse, g.Table());
            r.At? && PointShift(tables, t, inverse, x, y) == Shifted(r.lp))
    decreases m - t
  {
    hide DatumShifted;
    if t < m {
      assert Passed(tables, t, inverse, x, y);
      FirstDecides(tables, t + 1, m, inverse, x, y);
    } else if m < |tables| {
      assert Refined(tables[m], 0, x, y) in AllGrids(tables);
    }
  }

  function NewX(r: PointResult, x: Coord): Coord {
    if r.Shifted? then Num(r.lp.lam) else x
  }

  function NewY(r: PointResult, y: Coord): Coord {
    if r.Shifted? then Num(r.lp.phi) else y
  }

  // ---------- the loops ----------

  // The child loop.
  method Refine(g: GridInfo, x: Coord, y: Coord) returns (r: GridInfo)
    ensures r == Refined(g, 0, x, y)
  {
    var k := 0;
    while k < |g.children|
      invariant 0 <= k <= |g.children|
      invariant Refined(g, 0, x, y) == Refined(g, k, x, y)
    {
      if g.children[k].Covers(x, y) {
        return g.children[k];
      }
      k := k + 1;
    }
    return g;
  }

  // The table loop for one point.
  method ShiftPoint(tables: seq<GridInfo>, inverse: bool, x: Coord, y: Coord) returns (r: PointResult)
    requires AllValid(tables) && AllWellFormed(tables)
    modifies AllGrids(tables)`cvs
    ensures AllValid(tables)
    ensures r == PointShift(tables, 0, inverse, x, y)
  {
    var t := 0;
    while t < |tables|
      invariant 0 <= t <= |tables|
      invariant AllValid(tables)
      invariant PointShift(tables, 0, inverse, x, y) == PointShift(tables, t, inverse, x, y)
    {
      if tables[t].Covers(x, y) {
        var g := Refine(tables[t], x, y);
        assert g in AllGrids(tables);
        if g.cvs.None? {
          var ok := g.Load();
          if !ok {
            return LoadFailed;
          }
        }
        var out := Convert(At(LP(x.r, y.r)), inverse, CTable(g.ll, g.del, g.limLam, g.limPhi, g.cvs.value));
        if out.At? {
          return Shifted(out.lp);
        }
      }
      t := t + 1;
    }
    return Unshifted;
  }

  // the points after the first i of them were handled
  ghost predicate ShiftedSoFar(tables: seq<GridInfo>, inverse: bool, i: nat,
                               x0: seq<Coord>, y0: seq<Coord>, x: seq<Coord>, y: seq<Coord>)
    requires AllWellFormed(tables)
  {
    && |x| == |x0| == |y0| == |y|
    && (forall k :: 0 <= k < i && k < |x0| ==>
          var r := PointShift(tables, 0, inverse, x0[k], y0[k]);
          r != LoadFailed && x[k] == NewX(r, x0[k]) && y[k] == NewY(r, y0[k]))
    && (forall k :: i <= k < |x0| ==> x[k] == x0[k] && y[k] == y0[k])
  }

  lemma ShiftedNext(tables: seq<GridInfo>, inverse: bool, i: nat,
                    x0: seq<Coord>, y0: seq<Coord>, x: seq<Coord>, y: seq<Coord>, r: PointResult)
    requires AllWellFormed(tables)
    requires ShiftedSoFar(tables, inverse, i, x0, y0, x, y) && i < |x0|
    requires r == PointShift(tables, 0, inverse, x0[i], y0[i]) && r != LoadFailed
    ensures |x| == |y| == |x0|
    ensures ShiftedSoFar(tables, inverse, i + 1, x0, y0, x[i := NewX(r, x0[i])], y[i := NewY(r, y0[i])])
    ensures !r.Shifted? ==> x[i := NewX(r, x0[i])] == x && y[i := NewY(r, y0[i])] == y
  {
    hide PointShift;
  }

  lemma ShiftedAhead(tables: seq<GridInfo>, inverse: bool, i: nat,
                     x0: seq<Coord>, y0: seq<Coord>, x: seq<Coord>, y: seq<Coord>)
    requires AllWellFormed(tables)
    requires ShiftedSoFar(tables, inverse, i, x0, y0, x, y) && i < |x0|
    ensures |x| == |y| == |x0| && x[i] == x0[i] && y[i] == y0[i]
  {
    hide PointShift;
  }

  lemma StartSoFar(tables: seq<GridInfo>, inverse: bool, x0: seq<Coord>, y0: seq<Coord>)
    requires AllWellFormed(tables) && |x0| == |y0|
    ensures ShiftedSoFar(tables, inverse, 0, x0, y0, x0, y0)
  {
  }

  // ---------- one table by itself ----------

  // What the forward shift of one table without refinements must do to a point, by its
  // lookup and its rectangle alone; a longitude that would be reduced by a turn is left open.
  ghost predicate OneTableShift(g: GridInfo, x0: Coord, y0: Coord, x: Coord, y: Coord)
    requires g.WellFormed() && g.stored.Some?
  {
    match (x0, y0)
    case (Num(a), Num(b)) =>
      && (!NearTable(g, a, b) ==> x == x0 && y == y0)
      && (Abs(a - g.ll.lam - ONEPI) <= 3.14159265359 ==>
            match Interpolated(LP(a - g.ll.lam, b - g.ll.phi), g.Table())
            case Found(d) => x == Num(a - d.lam) && y == Num(b + d.phi)
            case Failed => x == x0 && y == y0)
    case _ => x == x0 && y == y0
  }

  lemma OneTable(g: GridInfo, x0: Coord, y0: Coord)
    requires g.WellFormed() && g.stored.Some? && g.children == []
    requires AllWellFormed([g])
    ensures var r := PointShift([g], 0, false, x0, y0);
      r != LoadFailed && OneTableShift(g, x0, y0, NewX(r, x0), NewY(r, y0))
  {
    hide Interpolated, NearTable, PointShift, GridInfo.Covers, DatumShifted;
    OneTableResult(g, x0, y0);
    if x0.Num? && y0.Num? {
      CoversExact(g, x0.r, y0.r);
      ForwardDirect(g, x0.r, y0.r);
      if Interpolated(LP(x0.r - g.ll.lam, y0.r - g.ll.phi), g.Table()).Found? {
        LookupCovered(g, x0.r, y0.r);
      }
    } else {
      NoneCovered(g, x0, y0);
    }
  }

  lemma NoneCovered(g: GridInfo, x: Coord, y: Coord)
    requires x.HugeVal? || y.HugeVal?
    ensures !g.Covers(x, y)
  {
  }

  lemma OneTableResult(g: GridInfo, x: Coord, y: Coord)
    requires g.WellFormed() && g.stored.Some? && g.children == [] && AllWellFormed([g])
    ensures g.Covers(x, y) ==> x.Num? && y.Num?
    ensures PointShift([g], 0, false, x, y)
         == if !g.Covers(x, y) then Unshifted
            else match DatumShifted(At(LP(x.r, y.r)), false, g.Table())
                 case Huge => Unshifted
                 case At(lp) => Shifted(lp)
  {
    hide DatumShifted;
    assert PointShift([g], 1, false, x, y) == Unshifted;
    assert Refined(g, 0, x, y) == g;
  }

  // Forward, where the longitude needs no turn.
  lemma ForwardDirect(g: GridInfo, x: real, y: real)
    requires g.WellFormed() && g.stored.Some?
    ensures Abs(x - g.ll.lam - ONEPI) <= 3.14159265359 ==>
      DatumShifted(At(LP(x, y)), false, g.Table())
      == match Interpolated(LP(x - g.ll.lam, y - g.ll.phi), g.Table())
         case Failed => Huge
         case Found(d) => At(LP(x - d.lam, y + d.phi))
  {
    hide Interpolated;
    var t := g.Table();
    if Abs(x - g.ll.lam - ONEPI) <= 3.14159265359 {
      assert Local(LP(x, y), t) == LP(x - g.ll.lam, y - g.ll.phi);
    }
  }

  // Shift every point by the tables of a list; x and y may lead into one buffer.  Zero means
  // every point was handled; otherwise the first point that needed an unreadable table and
  // all later points are as they were.  Nothing between the points changes.
  method ApplyGridshift3(tables: seq<GridInfo>, inverse: bool, count: nat, offset: nat, x: Pointer, y: Pointer)
    returns (code: int, ghost handled: nat)
    requires Fits(x, offset, count) && Fits(y, offset, count)
    requires Apart(x, y, offset, count) && Apart(y, x, offset, count)
    requires AllValid(tables) && AllWellFormed(tables)
    modifies x.data, y.data, AllGrids(tables)`cvs
    ensures AllValid(tables)
    ensures handled <= count
    ensures ShiftedSoFar(tables, inverse, handled, old(Values(x, offset, count)), old(Values(y, offset, count)),
      Values(x, offset, count), Values(y, offset, count))
    ensures RestKept(x, y, y, offset, count)
    ensures code == 0 ==> handled == count
    ensures code != 0 ==> code == -38
    ensures tables == [] ==> code != 0 && handled == 0
    ensures code != 0 && tables != [] ==>
      && handled < count
      && PointShift(tables, 0, inverse, old(Values(x, offset, count))[handled],
                    old(Values(y, offset, count))[handled]) == LoadFailed
    ensures |tables| == 1 && tables[0].stored.Some? && tables[0].children == [] && !inverse ==>
      && code == 0
      && forall k :: 0 <= k < count ==>
           OneTableShift(tables[0], old(Values(x, offset, count))[k], old(Values(y, offset, count))[k],
             Values(x, offset, count)[k], Values(y, offset, count)[k])
  {
    hide *;
    code, handled := ShiftPoints(tables, inverse, count, offset, x, y);
    OneTableAll(tables, inverse, count, code, handled, old(Values(x, offset, count)), old(Values(y, offset, count)),
      Values(x, offset, count), Values(y, offset, count));
  }

  lemma OneTableAll(tables: seq<GridInfo>, inverse: bool, count: nat, code: int, handled: nat,
                    x0: seq<Coord>, y0: seq<Coord>, x: seq<Coord>, y: seq<Coord>)
    requires AllWellFormed(tables) && |x0| == |y0| == |x| == |y| == count
    requires handled <= count && ShiftedSoFar(tables, inverse, handled, x0, y0, x, y)
    requires code == 0 ==> handled == count
    requires code != 0 && tables != [] ==>
      handled < count && PointShift(tables, 0, inverse, x0[handled], y0[handled]) == LoadFailed
    ensures |tables| == 1 && tables[0].stored.Some? && tables[0].children == [] && !inverse ==>
      tables[0].WellFormed() && code == 0
      && forall k :: 0 <= k < count ==> OneTableShift(tables[0], x0[k], y0[k], x[k], y[k])
  {
    hide PointShift, OneTableShift, NewX, NewY;
    if |tables| == 1 && tables[0].stored.Some? && tables[0].children == [] && !inverse {
      var g := tables[0];
      assert tables == [g];
      assert g in AllGrids(tables);
      forall k | 0 <= k < count
        ensures PointShift(tables, 0, false, x0[k], y0[k]) != LoadFailed
        ensures OneTableShift(g, x0[k], y0[k], NewX(PointShift(tables, 0, false, x0[k], y0[k]), x0[k]),
                              NewY(PointShift(tables, 0, false, x0[k], y0[k]), y0[k]))
      {
        OneTable(g, x0[k], y0[k]);
      }
    }
  }

  // The loop over the points.
  method ShiftPoints(tables: seq<GridInfo>, inverse: bool, count: nat, offset: nat, x: Pointer, y: Pointer)
    returns (code: int, ghost handled: nat)
    requires Fits(x, offset, count) && Fits(y, offset, count)
    requires Apart(x, y, offset, count) && Apart(y, x, offset, count)
    requires AllValid(tables) && AllWellFormed(tables)
    modifies x.data, y.data, AllGrids(tables)`cvs
    ensures AllValid(tables)
    ensures handled <= count
    ensures ShiftedSoFar(tables, inverse, handled, old(Values(x, offset, count)), old(Values(y, offset, count)),
      Values(x, offset, count), Values(y, offset, count))
    ensures RestKept(x, y, y, offset, count)
    ensures code == 0 ==> handled == count
    ensures code != 0 ==> code == -38
    ensures tables == [] ==> code != 0 && handled == 0
    ensures code != 0 && tables != [] ==>
      && handled < count
      && PointShift(tables, 0, inverse, old(Values(x, offset, count))[handled],
                    old(Values(y, offset, count))[handled]) == LoadFailed
  {
    hide PointShift, ShiftedSoFar, Values, IsPoint, Fits, Apart;
    ghost var x0, y0 := Values(x, offset, count), Values(y, offset, count);
    handled := 0;
    StartSoFar(tables, inverse, x0, y0);
    if |tables| == 0 {
      return -38, handled;
    }
    var i := 0;
    while i < count
      invariant 0 <= i <= count && handled == i
      invariant AllValid(tables)
      invariant ShiftedSoFar(tables, inverse, i, x0, y0, Values(x, offset, count), Values(y, offset, count))
      invariant RestKept(x, y, y, offset, count)
    {
      ghost var xs, ys := Values(x, offset, count), Values(y, offset, count);
      ShiftedAhead(tables, inverse, i, x0, y0, xs, ys);
      var xi := Fetch(x, offset, count, i);
      var yi := Fetch(y, offset, count, i);
      var r := ShiftPoint(tables, inverse, xi, yi);
      if r.LoadFailed? {
        return -38, handled;
      }
      ShiftedNext(tables, inverse, i, x0, y0, xs, ys, r);
      if r.Shifted? {
        StoreAt(y, offset, count, i, Num(r.lp.phi), x, x);
        StoreAt(x, offset, count, i, Num(r.lp.lam), y, y);
      }
      i := i + 1;
      handled := i;
    }
    return 0, handled;
  }
}
