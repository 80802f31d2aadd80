/** nad_cvt.c: applying a shift table forward, and backward by fixed-point
    iteration, with the quality of the inverse stated for contracting tables. */
module NadCvt {
  import opened Series
  import opened NadGrid

  // ---------- longitudes ----------

  const SPI: real := 3.14159265359
  const ONEPI: real := 3.14159265358979323846
  const TWOPI: real := 6.2831853071795864769

  // adjlon.c: reduce a longitude to plus or minus pi
  function Adjlon(lon: real): real {
    if Abs(lon) <= SPI then lon
    else
      var l := lon + ONEPI;
      l - TWOPI * ((l / TWOPI).Floor as real) - ONEPI
  }

  // the number of whole turns taken off
  function Turns(lon: real): int {
    if Abs(lon) <= SPI then 0 else ((lon + ONEPI) / TWOPI).Floor
  }

  lemma AdjlonTurns(lon: real)
    ensures Adjlon(lon) == lon - TWOPI * (Turns(lon) as real)
  {
  }

  // The result is within half a turn, give or take the tolerance of the first test.
  lemma AdjlonReduced(lon: real)
    ensures Abs(Adjlon(lon)) <= 3.14159265359
  {
    var l := lon + ONEPI;
    var q := l / TWOPI;
    assert q * TWOPI == l;
    assert TWOPI * (q - q.Floor as real) == l - TWOPI * (q.Floor as real);
    FractionTimes(q - q.Floor as real);
  }

  lemma FractionTimes(f: real)
    requires 0.0 <= f < 1.0
    ensures 0.0 <= TWOPI * f < TWOPI
  {
  }

  // Away from the seam the reduction undoes any number of turns.
  lemma AdjlonUndoes(x: real, k: int)
    requires 0.000000000001 - ONEPI <= x <= TWOPI - ONEPI - 0.000000000001
    ensures Adjlon(x + TWOPI * (k as real)) == x
  {
    var lon := x + TWOPI * (k as real);
    if k == 0 {
      assert Abs(lon) <= SPI;
    } else {
      if k >= 1 {
        assert TWOPI * (k as real) >= TWOPI;
      } else {
        assert TWOPI * (k as real) <= -TWOPI;
      }
      assert Abs(lon) > SPI;
      FloorOfTurns((x + ONEPI) / TWOPI, k);
      assert (lon + ONEPI) / TWOPI == (x + ONEPI) / TWOPI + k as real;
    }
  }

  lemma FloorOfTurns(f: real, k: int)
    requires 0.0 <= f < 1.0
    ensures (f + k as real).Floor == k
  {
  }

  // ---------- the iteration ----------

  const MAX_TRY: nat := 9
  const TOL: real := 0.000000000001

  function Norm(p: LP): real {
    Max(Abs(p.lam), Abs(p.phi))
  }

  function Minus(p: LP, q: LP): LP {
    LP(p.lam - q.lam, p.phi - q.phi)
  }

  // the position whose forward shift d leads to tb: longitudes grow west
  function Undo(tb: LP, d: LP): LP {
    LP(tb.lam + d.lam, tb.phi - d.phi)
  }

  // the forward shift of a position inside the grid
  function Redo(t: LP, d: LP): LP {
    LP(t.lam - d.lam, t.phi + d.phi)
  }

  // How the inverse iteration ends.  `last` is the last correction applied.
  datatype Outcome =
    | AtEdge(t: LP)
    | Converged(t: LP, last: LP, steps: nat)
    | NotConverged

  // Iterate from t with `tries` left.  The loop goes on only while both
  // coordinates of the correction exceed the tolerance.
  function Iterate(ct: CTable, tb: LP, t: LP, tries: nat, steps: nat): Outcome
    requires ct.Valid()
    decreases tries
  {
    var del := Interpolated(t, ct);
    if del.Failed? then AtEdge(t)
    else
      var t' := Undo(tb, del.lp);
      var dif := Minus(t, t');
      if tries == 0 then NotConverged
      else if Abs(dif.lam) > TOL && Abs(dif.phi) > TOL then Iterate(ct, tb, t', tries - 1, steps + 1)
      else Converged(t', dif, steps + 1)
  }

  // One round of the loop, on the correction it computes.
  lemma IterateRound(ct: CTable, tb: LP, t: LP, tries: nat, steps: nat, d: LP, dif: LP)
    requires ct.Valid() && Interpolated(t, ct) == Found(d)
    requires dif == LP(t.lam - d.lam - tb.lam, t.phi + d.phi - tb.phi)
    ensures var t' := LP(t.lam - dif.lam, t.phi - dif.phi);
      Iterate(ct, tb, t, tries, steps)
      == if tries == 0 then NotConverged
         else if Abs(dif.lam) > TOL && Abs(dif.phi) > TOL then Iterate(ct, tb, t', tries - 1, steps + 1)
         else Converged(t', dif, steps + 1)
  {
    hide Interpolated;
  }

  lemma IterateFailed(ct: CTable, tb: LP, t: LP, tries: nat, steps: nat)
    requires ct.Valid() && Interpolated(t, ct).Failed?
    ensures Iterate(ct, tb, t, tries, steps) == AtEdge(t)
  {
    hide Interpolated;
  }

  // The do-while loop of the inverse branch.
  method Invert(ct: CTable, tb: LP, first: LP) returns (r: Outcome, ghost evaluations: nat)
    requires ct.Valid()
    ensures r == Iterate(ct, tb, first, MAX_TRY, 0)
    ensures evaluations <= MAX_TRY + 1
  {
    hide Interpolated, Iterate, Abs;
    var t := first;
    var i := MAX_TRY;
    var steps := 0;
    evaluations := 0;
    while true
      invariant 0 <= i <= MAX_TRY && steps == MAX_TRY - i == evaluations
      invariant Iterate(ct, tb, first, MAX_TRY, 0) == Iterate(ct, tb, t, i, steps)
      decreases i
    {
      var del := NadIntr(t, ct);
      evaluations := evaluations + 1;
      if del.Failed? {
        IterateFailed(ct, tb, t, i, steps);
        return AtEdge(t), evaluations;
      }
      var dif := LP(t.lam - del.lp.lam - tb.lam, t.phi + del.lp.phi - tb.phi);
      IterateRound(ct, tb, t, i, steps, del.lp, dif);
      t := LP(t.lam - dif.lam, t.phi - dif.phi);
      steps := steps + 1;
      if i == 0 {
        return NotConverged, evaluations;
      }
      if !(Abs(dif.lam) > TOL && Abs(dif.phi) > TOL) {
        return Converged(t, dif, steps), evaluations;
      }
      i := i - 1;
    }
  }

  // ---------- quality of the inverse ----------

  // shifts at two positions differ by at most l times the distance, in max norm
  ghost predicate Contracting(ct: CTable, l: real)
    requires ct.Valid()
  {
    forall p: LP, q: LP :: Interpolated(p, ct).Found? && Interpolated(q, ct).Found? ==>
      Norm(Minus(Interpolated(p, ct).lp, Interpolated(q, ct).lp)) <= Times(l, Norm(Minus(p, q)))
  }

  // Bounds on neighbouring-node differences give such a constant.
  lemma NodeStepsContract(ct: CTable, a: real, b: real)
    requires ct.Valid() && a >= 0.0 && b >= 0.0
    requires NodeSteps(ct, Lam, a, b) && NodeSteps(ct, Phi, a, b)
    ensures Contracting(ct, a / ct.del.lam + b / ct.del.phi)
  {
    hide Interpolated, NodeSteps, Norm, Minus, Times;
    forall p: LP, q: LP | Interpolated(p, ct).Found? && Interpolated(q, ct).Found?
      ensures Norm(Minus(Interpolated(p, ct).lp, Interpolated(q, ct).lp))
           <= Times(a / ct.del.lam + b / ct.del.phi, Norm(Minus(p, q)))
    {
      NodeStepsPair(ct, a, b, p, q);
    }
  }

  lemma NodeStepsPair(ct: CTable, a: real, b: real, p: LP, q: LP)
    requires ct.Valid() && a >= 0.0 && b >= 0.0
    requires NodeSteps(ct, Lam, a, b) && NodeSteps(ct, Phi, a, b)
    requires Interpolated(p, ct).Found? && Interpolated(q, ct).Found?
    ensures Norm(Minus(Interpolated(p, ct).lp, Interpolated(q, ct).lp))
         <= Times(a / ct.del.lam + b / ct.del.phi, Norm(Minus(p, q)))
  {
    hide Interpolated, NodeSteps, Times;
    InterpolatedLipschitz(ct, a, b, p, q, Lam);
    InterpolatedLipschitz(ct, a, b, p, q, Phi);
    NormBound(a, b, ct.del.lam, ct.del.phi, Minus(p, q));
  }

  lemma NormBound(a: real, b: real, dl: real, dp: real, d: LP)
    requires a >= 0.0 && b >= 0.0 && dl > 0.0 && dp > 0.0
    ensures Times(a, Abs(d.lam) / dl) + Times(b, Abs(d.phi) / dp) <= Times(a / dl + b / dp, Norm(d))
  {
    var n := Norm(d);
    assert a * (Abs(d.lam) / dl) == (a / dl) * Abs(d.lam);
    assert b * (Abs(d.phi) / dp) == (b / dp) * Abs(d.phi);
    assert a / dl >= 0.0 && b / dp >= 0.0;
    MulNonneg(a / dl, n - Abs(d.lam));
    MulNonneg(b / dp, n - Abs(d.phi));
    assert (a / dl + b / dp) * n == (a / dl) * n + (b / dp) * n;
  }

  // what is still missing when t is shifted forward
  function ForwardMiss(ct: CTable, tb: LP, t: LP): LP
    requires ct.Valid() && Interpolated(t, ct).Found?
  {
    Minus(Redo(t, Interpolated(t, ct).lp), tb)
  }

  // One step: the next correction, and the forward miss after the step, are both
  // the change of the shift over the correction just made.
  lemma StepResidual(ct: CTable, tb: LP, t: LP, t': LP, l: real)
    requires ct.Valid() && Contracting(ct, l)
    requires Interpolated(t, ct).Found? && Interpolated(t', ct).Found?
    requires t' == Undo(tb, Interpolated(t, ct).lp)
    ensures Minus(t', Undo(tb, Interpolated(t', ct).lp)) == ForwardMiss(ct, tb, t')
    ensures Norm(ForwardMiss(ct, tb, t')) <= Times(l, Norm(Minus(t, t')))
  {
    hide Interpolated;
    var d, d' := Interpolated(t, ct).lp, Interpolated(t', ct).lp;
    assert ForwardMiss(ct, tb, t') == LP(d.lam - d'.lam, d'.phi - d.phi);
    assert Norm(Minus(d, d')) == Norm(ForwardMiss(ct, tb, t'));
  }

  lemma TimesPow(l: real, n: nat, x: real)
    ensures Times(l, Times(Pow(l, n), x)) == Times(Pow(l, n + 1), x)
  {
  }

  // On convergence the last correction is at most l^k times the first one the
  // iteration made, k steps earlier.
  lemma {:induction false} IterateShrinks(ct: CTable, tb: LP, t: LP, tries: nat, steps: nat, l: real)
    requires ct.Valid() && Contracting(ct, l) && l >= 0.0
    requires Iterate(ct, tb, t, tries, steps).Converged?
    ensures Interpolated(t, ct).Found?
    ensures var r := Iterate(ct, tb, t, tries, steps);
      && steps < r.steps <= steps + tries
      && Norm(r.last) <= Times(Pow(l, r.steps - steps - 1), Norm(Minus(t, Undo(tb, Interpolated(t, ct).lp))))
    decreases tries
  {
    hide Interpolated, Norm, Times, Contracting;
    var t' := Undo(tb, Interpolated(t, ct).lp);
    var dif := Minus(t, t');
    if Abs(dif.lam) > TOL && Abs(dif.phi) > TOL {
      IterateShrinks(ct, tb, t', tries - 1, steps + 1, l);
      var r := Iterate(ct, tb, t, tries, steps);
      var k := r.steps - steps - 2;
      var next := Minus(t', Undo(tb, Interpolated(t', ct).lp));
      StepResidual(ct, tb, t, t', l);
      PowNonneg(l, k);
      TimesMonotone(Pow(l, k), Norm(next), Times(l, Norm(dif)));
      PowSwap(l, k, Norm(dif));
    } else {
      PowZero(l, Norm(dif));
    }
  }

  lemma PowSwap(l: real, n: nat, x: real)
    ensures Times(Pow(l, n), Times(l, x)) == Times(Pow(l, n + 1), x)
  {
  }

  lemma PowZero(l: real, x: real)
    ensures Times(Pow(l, 0), x) == x
  {
  }

  lemma {:induction false} PowNonneg(l: real, n: nat)
    requires l >= 0.0
    ensures Pow(l, n) >= 0.0
  {
    if n > 0 {
      PowNonneg(l, n - 1);
      MulNonneg(l, Pow(l, n - 1));
    }
  }

  // the position one step before the end
  lemma {:induction false} IterateLast(ct: CTable, tb: LP, t: LP, tries: nat, steps: nat) returns (p: LP)
    requires ct.Valid() && Iterate(ct, tb, t, tries, steps).Converged?
    ensures var r := Iterate(ct, tb, t, tries, steps);
      && Interpolated(p, ct).Found? && r.t == Undo(tb, Interpolated(p, ct).lp) && r.last == Minus(p, r.t)
    decreases tries
  {
    hide Interpolated;
    var t' := Undo(tb, Interpolated(t, ct).lp);
    var dif := Minus(t, t');
    if Abs(dif.lam) > TOL && Abs(dif.phi) > TOL {
      p := IterateLast(ct, tb, t', tries - 1, steps + 1);
    } else {
      p := t;
    }
  }

  // Shifting the final iterate forward misses the target by at most l times the last
  // correction, hence by at most l^steps times the first one.
  lemma InverseQuality(ct: CTable, tb: LP, first: LP, l: real)
    requires ct.Valid() && Contracting(ct, l) && l >= 0.0
    requires Iterate(ct, tb, first, MAX_TRY, 0).Converged?
    requires Interpolated(Iterate(ct, tb, first, MAX_TRY, 0).t, ct).Found?
    ensures Interpolated(first, ct).Found?
    ensures var r := Iterate(ct, tb, first, MAX_TRY, 0);
      && r.steps <= MAX_TRY
      && Norm(ForwardMiss(ct, tb, r.t)) <= Times(l, Norm(r.last))
      && Norm(ForwardMiss(ct, tb, r.t))
         <= Times(Pow(l, r.steps), Norm(Minus(first, Undo(tb, Interpolated(first, ct).lp))))
  {
    hide Interpolated, Norm, Times, Contracting, Iterate, Pow;
    var r := Iterate(ct, tb, first, MAX_TRY, 0);
    IterateShrinks(ct, tb, first, MAX_TRY, 0, l);
    var p := IterateLast(ct, tb, first, MAX_TRY, 0);
    StepResidual(ct, tb, p, r.t, l);
    var x := Norm(Minus(first, Undo(tb, Interpolated(first, ct).lp)));
    TimesMonotone(l, Norm(r.last), Times(Pow(l, r.steps - 1), x));
    TimesPow(l, r.steps - 1, x);
  }

  // ---------- when the loop stops ----------

  // the iterate after t, where the table answers
  function Next(ct: CTable, tb: LP, t: LP): LP
    requires ct.Valid()
  {
    if Interpolated(t, ct).Found? then Undo(tb, Interpolated(t, ct).lp) else t
  }

  // the k-th iterate from t on
  function Approach(ct: CTable, tb: LP, t: LP, k: nat): LP
    requires ct.Valid()
    decreases k
  {
    if k == 0 then t else Approach(ct, tb, Next(ct, tb, t), k - 1)
  }

  predicate Within(x: real) {
    Abs(x) <= TOL
  }

  // The loop goes on from t: the table answers and neither coordinate is settled.
  predicate GoesOn(ct: CTable, tb: LP, t: LP)
    requires ct.Valid()
  {
    var dif := Minus(t, Next(ct, tb, t));
    Interpolated(t, ct).Found? && !Within(dif.lam) && !Within(dif.phi)
  }

  // the loop reaches its k-th iterate
  ghost predicate Reaches(ct: CTable, tb: LP, t: LP, k: nat)
    requires ct.Valid()
  {
    forall j: nat :: j < k ==> GoesOn(ct, tb, Approach(ct, tb, t, j))
  }

  // The three ways to end at the k-th iterate: a coordinate is settled there, or the table
  // does not answer, or no try is left.
  ghost predicate EndsAt(ct: CTable, tb: LP, t: LP, tries: nat, steps: nat, r: Outcome, k: nat)
    requires ct.Valid()
  {
    var p := Approach(ct, tb, t, k);
    && k <= tries && Reaches(ct, tb, t, k)
    && match r
       case Converged(u, last, n) =>
         k < tries && n == steps + k + 1 && Interpolated(p, ct).Found? && !GoesOn(ct, tb, p)
         && u == Next(ct, tb, p) && last == Minus(p, u)
       case AtEdge(u) => Interpolated(p, ct).Failed? && u == p
       case NotConverged => k == tries && Interpolated(p, ct).Found?
  }

  // What holds of the iterates behind the next one holds of those behind t.
  lemma EndsLater(ct: CTable, tb: LP, t: LP, tries: nat, steps: nat, r: Outcome, k: nat)
    requires ct.Valid() && tries >= 1 && GoesOn(ct, tb, t)
    requires EndsAt(ct, tb, Next(ct, tb, t), tries - 1, steps + 1, r, k)
    ensures EndsAt(ct, tb, t, tries, steps, r, k + 1)
  {
    hide GoesOn, Next, Interpolated;
    forall j: nat | j < k + 1
      ensures GoesOn(ct, tb, Approach(ct, tb, t, j))
    {
      if j > 0 {
        assert Approach(ct, tb, t, j) == Approach(ct, tb, Next(ct, tb, t), j - 1);
      }
    }
  }

  lemma {:induction false} EndOfLoop(ct: CTable, tb: LP, t: LP, tries: nat, steps: nat) returns (k: nat)
    requires ct.Valid()
    ensures EndsAt(ct, tb, t, tries, steps, Iterate(ct, tb, t, tries, steps), k)
    decreases tries
  {
    hide Interpolated;
    if tries >= 1 && GoesOn(ct, tb, t) {
      var l := EndOfLoop(ct, tb, Next(ct, tb, t), tries - 1, steps + 1);
      EndsLater(ct, tb, t, tries, steps, Iterate(ct, tb, t, tries, steps), l);
      k := l + 1;
    } else {
      k := 0;
    }
  }

  // The iterates decide the outcome: there is one way to end, and it is the loop's.
  lemma EndsExactly(ct: CTable, tb: LP, t: LP, tries: nat, steps: nat, r: Outcome)
    requires ct.Valid()
    ensures (exists k: nat :: EndsAt(ct, tb, t, tries, steps, r, k)) <==> r == Iterate(ct, tb, t, tries, steps)
  {
    hide Interpolated, Iterate, Approach, Next;
    var l := EndOfLoop(ct, tb, t, tries, steps);
    if k: nat :| EndsAt(ct, tb, t, tries, steps, r, k) {
      assert k < l ==> GoesOn(ct, tb, Approach(ct, tb, t, k));
      assert l < k ==> GoesOn(ct, tb, Approach(ct, tb, t, l));
      assert k == l;
    }
  }

  // at every iterate the loop looks at, both coordinates are settled or neither is
  ghost predicate Together(ct: CTable, tb: LP, t: LP, tries: nat)
    requires ct.Valid()
  {
    forall k: nat :: k < tries && Reaches(ct, tb, t, k) ==>
      var p := Approach(ct, tb, t, k);
      var dif := Minus(p, Next(ct, tb, p));
      Interpolated(p, ct).Found? ==> (Within(dif.lam) <==> Within(dif.phi))
  }

  // A converged run has settled both coordinates exactly when they settle together, and
  // one of them always.
  lemma ConvergedBoth(ct: CTable, tb: LP, t: LP, tries: nat, steps: nat)
    requires ct.Valid() && Iterate(ct, tb, t, tries, steps).Converged?
    ensures var last := Iterate(ct, tb, t, tries, steps).last;
      && (Within(last.lam) || Within(last.phi))
      && (Norm(last) <= TOL <==> Together(ct, tb, t, tries))
  {
    hide Interpolated, Iterate, Approach, Next;
    var n := EndOfLoop(ct, tb, t, tries, steps);
    forall k: nat | k < tries && Reaches(ct, tb, t, k)
      ensures k <= n
      ensures k < n ==> GoesOn(ct, tb, Approach(ct, tb, t, k))
    {
    }
  }

  // An iterate ends the loop exactly when a coordinate of the difference of the two sides
  // of its equation is within the tolerance, whatever the other one is.
  lemma StopsAtOnce(ct: CTable, tb: LP, t: LP, tries: nat, steps: nat, d: LP)
    requires ct.Valid() && tries >= 1 && Interpolated(t, ct) == Found(d)
    ensures var r := Iterate(ct, tb, t, tries, steps);
      && (r.Converged? && r.steps == steps + 1 <==>
            Within(t.lam - tb.lam - d.lam) || Within(t.phi - tb.phi + d.phi))
      && (r.Converged? && r.steps == steps + 1 ==>
            r.t == Undo(tb, d) && r.last == LP(t.lam - tb.lam - d.lam, t.phi - tb.phi + d.phi))
  {
    hide Interpolated, Iterate, Approach;
    ApproachStart(ct, tb, t);
    var k := EndOfLoop(ct, tb, t, tries, steps);
    assert k > 0 ==> GoesOn(ct, tb, Approach(ct, tb, t, 0));
  }

  lemma ApproachStart(ct: CTable, tb: LP, t: LP)
    requires ct.Valid()
    ensures Approach(ct, tb, t, 0) == t
  {
  }

  // If the contraction brings the first correction under the tolerance within the tries,
  // the loop does not give up.
  lemma {:induction false} NeverGivesUp(ct: CTable, tb: LP, t: LP, tries: nat, steps: nat, l: real)
    requires ct.Valid() && Contracting(ct, l) && l >= 0.0 && tries >= 1
    requires Interpolated(t, ct).Found? ==>
      Times(Pow(l, tries - 1), Norm(Minus(t, Undo(tb, Interpolated(t, ct).lp)))) <= TOL
    ensures !Iterate(ct, tb, t, tries, steps).NotConverged?
    decreases tries
  {
    hide Interpolated, Times, Contracting, Pow;
    if Interpolated(t, ct).Found? {
      var t' := Undo(tb, Interpolated(t, ct).lp);
      var dif := Minus(t, t');
      if Abs(dif.lam) > TOL && Abs(dif.phi) > TOL {
        PowZero(l, Norm(dif));
        assert tries >= 2;
        if Interpolated(t', ct).Found? {
          StepResidual(ct, tb, t, t', l);
          var next := Norm(Minus(t', Undo(tb, Interpolated(t', ct).lp)));
          PowNonneg(l, tries - 2);
          TimesMonotone(Pow(l, tries - 2), next, Times(l, Norm(dif)));
          PowSwap(l, tries - 2, Norm(dif));
        }
        NeverGivesUp(ct, tb, t', tries - 1, steps + 1, l);
      }
    }
  }

  // A table of one cell: the longitude shift grows from 0 to 1/2 across it, the latitude
  // shift is 0.
  const SLOPE: CTable :=
    CTable(LP(0.0, 0.0), LP(1.0, 1.0), 2, 2, [LP(0.0, 0.0), LP(0.5, 0.0), LP(0.0, 0.0), LP(0.5, 0.0)])

  lemma SlopeShift(x: real, y: real, d: LP)
    requires 0.0 <= x <= 1.0 && 0.0 <= y <= 1.0 && d == LP(0.5 * x, 0.0)
    ensures SLOPE.Valid() && Interpolated(LP(x, y), SLOPE) == Found(d)
  {
    hide Interpolated, Lerp, Node;
    SlopeNodes();
    assert x / 1.0 == x && y / 1.0 == y;
    SlopeLerp(x, y);
    LookupValue(SLOPE, LP(x, y), 0, 0, x, y, d);
  }

  lemma SlopeLerp(x: real, y: real)
    ensures Lerp(Lerp(0.0, 0.5, x), Lerp(0.0, 0.5, x), y) == 0.5 * x
    ensures Lerp(Lerp(0.0, 0.0, x), Lerp(0.0, 0.0, x), y) == 0.0
  {
    var v := Lerp(0.0, 0.5, x);
    assert v == 0.5 * x;
    assert (1.0 - y) * v + y * v == v;
  }

  lemma SlopeNodes()
    ensures SLOPE.Valid()
    ensures Node(SLOPE, 0, 0) == Node(SLOPE, 0, 1) == LP(0.0, 0.0)
    ensures Node(SLOPE, 1, 0) == Node(SLOPE, 1, 1) == LP(0.5, 0.0)
  {
  }

  // A concrete early stop: at the middle of that table the loop ends after one correction
  // of 1/8 in longitude and still misses by 1/16; the fixed point is at longitude 1.
  lemma EarlyStopMiss()
    ensures SLOPE.Valid() && Interpolated(LP(0.5, 0.5), SLOPE) == Found(LP(0.25, 0.0))
    ensures Iterate(SLOPE, LP(0.5, 0.5), LP(0.75, 0.5), MAX_TRY, 0)
         == Converged(LP(0.875, 0.5), LP(-0.125, 0.0), 1)
    ensures SlopeMiss(LP(0.875, 0.5), LP(-0.0625, 0.0)) && SlopeMiss(LP(1.0, 0.5), LP(0.0, 0.0))
  {
    hide Interpolated, Iterate, SLOPE, ForwardMiss, Within;
    ZeroWithin();
    SlopeShift(0.5, 0.5, LP(0.25, 0.0));
    SlopeShift(0.75, 0.5, LP(0.375, 0.0));
    SlopeShift(0.875, 0.5, LP(0.4375, 0.0));
    SlopeShift(1.0, 0.5, LP(0.5, 0.0));
    StopsAtOnce(SLOPE, LP(0.5, 0.5), LP(0.75, 0.5), MAX_TRY, 0, LP(0.375, 0.0));
    MissOf(SLOPE, LP(0.5, 0.5), LP(0.875, 0.5), LP(0.4375, 0.0));
    MissOf(SLOPE, LP(0.5, 0.5), LP(1.0, 0.5), LP(0.5, 0.0));
  }

  lemma ZeroWithin()
    ensures Within(0.0)
  {
  }

  // by how much shifting t forward misses the middle of that table
  ghost predicate SlopeMiss(t: LP, miss: LP) {
    SLOPE.Valid() && Interpolated(t, SLOPE).Found? && ForwardMiss(SLOPE, LP(0.5, 0.5), t) == miss
  }

  lemma MissOf(ct: CTable, tb: LP, t: LP, d: LP)
    requires ct.Valid() && Interpolated(t, ct) == Found(d)
    ensures ForwardMiss(ct, tb, t) == LP(t.lam - d.lam - tb.lam, t.phi + d.phi - tb.phi)
  {
    hide Interpolated;
  }

  // ---------- the conversion ----------

  // a longitude and latitude, or HUGE_VAL in both
  datatype Geo = Huge | At(lp: LP)

  // position relative to the lower left corner of the table
  function Local(p: LP, ct: CTable): LP {
    LP(Adjlon(p.lam - ct.ll.lam - ONEPI) + ONEPI, p.phi - ct.ll.phi)
  }

  function Forward(p: LP, ct: CTable): Geo
    requires ct.Valid()
  {
    match Interpolated(Local(p, ct), ct)
    case Failed => Huge
    case Found(d) => At(Redo(p, d))
  }

  function World(t: LP, ct: CTable): LP {
    LP(Adjlon(t.lam + ct.ll.lam), t.phi + ct.ll.phi)
  }

  function Backward(p: LP, ct: CTable): Geo
    requires ct.Valid()
  {
    var tb := Local(p, ct);
    match Interpolated(tb, ct)
    case Failed => Huge
    case Found(d) =>
      match Iterate(ct, tb, Undo(tb, d), MAX_TRY, 0)
      case AtEdge(t) => At(World(t, ct))
      case Converged(t, _, _) => At(World(t, ct))
      case NotConverged => Huge
  }

  // From the start the loop compares two lookups: it makes one correction exactly when they
  // agree in one coordinate, to within the tolerance.
  lemma FirstStop(p: LP, ct: CTable, d: LP, e: LP)
    requires ct.Valid() && Interpolated(Local(p, ct), ct) == Found(d)
    requires Interpolated(Undo(Local(p, ct), d), ct) == Found(e)
    ensures var tb := Local(p, ct);
      var r := Iterate(ct, tb, Undo(tb, d), MAX_TRY, 0);
      && (r.Converged? && r.steps == 1 <==> Within(d.lam - e.lam) || Within(d.phi - e.phi))
      && (r.Converged? && r.steps == 1 ==> Backward(p, ct) == At(World(Undo(tb, e), ct)))
  {
    hide Interpolated, Iterate;
    var tb := Local(p, ct);
    StopsAtOnce(ct, tb, Undo(tb, d), MAX_TRY, 0, e);
  }

  // The inverse shift of the middle of that table, which misses by 1/16.
  lemma EarlyStopBackward()
    ensures SLOPE.Valid() && Backward(LP(0.5, 0.5), SLOPE) == At(LP(0.875, 0.5))
  {
    hide Interpolated, Iterate;
    EarlyStopMiss();
    assert Local(LP(0.5, 0.5), SLOPE) == LP(0.5, 0.5);
    assert World(LP(0.875, 0.5), SLOPE) == LP(0.875, 0.5);
  }

  // The lookup at t answers and the equation of the inverse is off by more than 1e-12 in
  // both coordinates.
  ghost predicate Moves(ct: CTable, tb: LP, t: LP)
    requires ct.Valid()
  {
    match Interpolated(t, ct)
    case Failed => false
    case Found(d) =>
      Abs(t.lam - tb.lam - d.lam) > 0.000000000001 && Abs(t.phi - tb.phi + d.phi) > 0.000000000001
  }

  lemma MovesGoesOn(ct: CTable, tb: LP, t: LP)
    requires ct.Valid()
    ensures Moves(ct, tb, t) <==> GoesOn(ct, tb, t)
  {
    hide Interpolated;
  }

  // none of the first k iterates is settled, and the table answers at each
  ghost predicate Lasts(ct: CTable, tb: LP, t: LP, k: nat)
    requires ct.Valid()
  {
    forall j: nat :: j < k ==> Moves(ct, tb, Approach(ct, tb, t, j))
  }

  // What iterate k, once reached, makes the answer: itself where its lookup fails, and the
  // one after it where a coordinate is settled and a try is left.
  ghost predicate AnswerAt(ct: CTable, tb: LP, t: LP, k: nat, r: Geo)
    requires ct.Valid()
  {
    match Interpolated(t, ct)
    case Failed => r == At(World(t, ct))
    case Found(e) => k < 9 && !Moves(ct, tb, t) ==> r == At(World(LP(tb.lam + e.lam, tb.phi - e.phi), ct))
  }

  // What the inverse shift of p must answer, from the lookups alone: HUGE_VAL exactly when
  // the first one fails, or when ten more answer and none of the first nine is settled.
  ghost predicate InverseAnswer(p: LP, ct: CTable, r: Geo)
    requires ct.Valid()
  {
    var tb := Local(p, ct);
    match Interpolated(tb, ct)
    case Failed => r == Huge
    case Found(d) =>
      var first := LP(tb.lam + d.lam, tb.phi - d.phi);
      && (r == Huge <==> Lasts(ct, tb, first, 9) && Interpolated(Approach(ct, tb, first, 9), ct).Found?)
      && (forall k: nat :: k < 10 && Lasts(ct, tb, first, k) ==> AnswerAt(ct, tb, Approach(ct, tb, first, k), k, r))
  }

  lemma LastsReaches(ct: CTable, tb: LP, t: LP, k: nat)
    requires ct.Valid()
    ensures Lasts(ct, tb, t, k) <==> Reaches(ct, tb, t, k)
  {
    hide Approach, Moves, GoesOn;
    forall j: nat
      ensures Moves(ct, tb, Approach(ct, tb, t, j)) <==> GoesOn(ct, tb, Approach(ct, tb, t, j))
    {
      MovesGoesOn(ct, tb, Approach(ct, tb, t, j));
    }
  }

  // No iterate behind the end is reached.
  lemma EndIsLast(ct: CTable, tb: LP, t: LP, r: Outcome, n: nat, k: nat)
    requires ct.Valid() && EndsAt(ct, tb, t, MAX_TRY, 0, r, n) && k <= MAX_TRY && Reaches(ct, tb, t, k)
    ensures k <= n
    ensures k < n ==> GoesOn(ct, tb, Approach(ct, tb, t, k))
  {
    hide Approach, Next, Interpolated;
    assert n < k ==> GoesOn(ct, tb, Approach(ct, tb, t, n));
  }

  function Ended(r: Outcome, ct: CTable): Geo {
    match r
    case AtEdge(t) => At(World(t, ct))
    case Converged(t, _, _) => At(World(t, ct))
    case NotConverged => Huge
  }

  lemma AnswerOfEnd(ct: CTable, tb: LP, t: LP, r: Outcome, n: nat, k: nat)
    requires ct.Valid() && EndsAt(ct, tb, t, MAX_TRY, 0, r, n) && k <= MAX_TRY && Reaches(ct, tb, t, k)
    ensures AnswerAt(ct, tb, Approach(ct, tb, t, k), k, Ended(r, ct))
  {
    hide Approach, Interpolated, World, Reaches, GoesOn, Moves;
    EndIsLast(ct, tb, t, r, n, k);
    MovesGoesOn(ct, tb, Approach(ct, tb, t, k));
    GoesOnFound(ct, tb, Approach(ct, tb, t, k));
  }

  lemma GoesOnFound(ct: CTable, tb: LP, t: LP)
    requires ct.Valid()
    ensures GoesOn(ct, tb, t) ==> Interpolated(t, ct).Found?
  {
    hide Interpolated;
  }

  lemma HugeOfEnd(ct: CTable, tb: LP, t: LP, r: Outcome, n: nat)
    requires ct.Valid() && EndsAt(ct, tb, t, MAX_TRY, 0, r, n)
    ensures Ended(r, ct) == Huge
      <==> Reaches(ct, tb, t, 9) && Interpolated(Approach(ct, tb, t, 9), ct).Found?
  {
    hide Approach, Interpolated, World, Reaches, GoesOn;
    if Reaches(ct, tb, t, 9) {
      EndIsLast(ct, tb, t, r, n, 9);
    }
  }

  lemma BackwardAnswer(p: LP, ct: CTable)
    requires ct.Valid()
    ensures InverseAnswer(p, ct, Backward(p, ct))
  {
    hide Interpolated, Iterate, Approach, World, Local, Lasts, Reaches, AnswerAt, EndsAt;
    var tb := Local(p, ct);
    if Interpolated(tb, ct).Found? {
      var first := Undo(tb, Interpolated(tb, ct).lp);
      var r := Iterate(ct, tb, first, MAX_TRY, 0);
      var n := EndOfLoop(ct, tb, first, MAX_TRY, 0);
      assert Backward(p, ct) == Ended(r, ct);
      HugeOfEnd(ct, tb, first, r, n);
      LastsReaches(ct, tb, first, 9);
      forall k: nat | k < 10 && Lasts(ct, tb, first, k)
        ensures AnswerAt(ct, tb, Approach(ct, tb, first, k), k, Ended(r, ct))
      {
        LastsReaches(ct, tb, first, k);
        AnswerOfEnd(ct, tb, first, r, n, k);
      }
    }
  }

  // The inverse shift near the far edge of that table: the first approximation is outside
  // and is the answer.
  lemma EdgeBackward()
    ensures SLOPE.Valid() && Interpolated(LP(1.35, 0.5), SLOPE).Failed?
    ensures Backward(LP(0.9, 0.5), SLOPE) == At(LP(1.35, 0.5))
  {
    hide Interpolated, SLOPE;
    SlopeShift(0.9, 0.5, LP(0.45, 0.0));
    SlopeOutside(1.35, 0.5);
    SlopePlaces(0.9, 1.35, 0.5);
  }

  lemma SlopeOutside(x: real, y: real)
    requires x > 1.1
    ensures SLOPE.Valid() && Interpolated(LP(x, y), SLOPE).Failed?
  {
    hide Surface;
    assert x / 1.0 == x;
  }

  lemma SlopePlaces(x: real, t: real, y: real)
    requires 0.0 <= x <= 6.0 && 0.0 <= t <= 3.0
    ensures Local(LP(x, y), SLOPE) == LP(x, y) && World(LP(t, y), SLOPE) == LP(t, y)
  {
  }

  function DatumShifted(g: Geo, inverse: bool, ct: CTable): Geo
    requires ct.Valid()
  {
    if g.Huge? then Huge else if inverse then Backward(g.lp, ct) else Forward(g.lp, ct)
  }

  method Convert(g: Geo, inverse: bool, ct: CTable) returns (r: Geo)
    requires ct.Valid()
    ensures r == DatumShifted(g, inverse, ct)
    ensures g == Huge ==> r == Huge
    ensures g.At? && !inverse ==>
      match Interpolated(Local(g.lp, ct), ct)
      case Failed => r == Huge
      case Found(d) => r == At(LP(g.lp.lam - d.lam, g.lp.phi + d.phi))
    ensures g.At? && inverse ==> InverseAnswer(g.lp, ct, r)
  {
    hide Interpolated, Iterate, Adjlon, InverseAnswer;
    if g.Huge? {
      return g;
    }
    BackwardAnswer(g.lp, ct);
    var in_ := g.lp;
    var tb := in_;
    tb := LP(tb.lam - ct.ll.lam, tb.phi - ct.ll.phi);
    tb := LP(Adjlon(tb.lam - ONEPI) + ONEPI, tb.phi);
    var t := NadIntr(tb, ct);
    if inverse {
      if t.Failed? {
        return Huge;
      }
      var first := LP(tb.lam + t.lp.lam, tb.phi - t.lp.phi);
      var out, _ := Invert(ct, tb, first);
      if out.NotConverged? {
        return Huge;
      }
      return At(LP(Adjlon(out.t.lam + ct.ll.lam), out.t.phi + ct.ll.phi));
    } else {
      if t.Failed? {
        return Huge;
      }
      return At(LP(in_.lam - t.lp.lam, in_.phi + t.lp.phi));
    }
  }

  // the same place after k whole turns
  function Turned(p: LP, k: int): LP {
    LP(p.lam + TWOPI * (k as real), p.phi)
  }

  // Forward after a converged inverse returns to the given point, up to whole turns
  // and up to l times the last correction of the iteration.
  lemma BackwardForward(p: LP, ct: CTable, l: real)
    requires ct.Valid() && Contracting(ct, l) && l >= 0.0
    requires Interpolated(Local(p, ct), ct).Found?
    requires var tb := Local(p, ct);
      var r := Iterate(ct, tb, Undo(tb, Interpolated(tb, ct).lp), MAX_TRY, 0);
      r.Converged? && Interpolated(r.t, ct).Found? && 0.000000000001 <= r.t.lam <= TWOPI - 0.000000000001
    ensures var tb := Local(p, ct);
      var r := Iterate(ct, tb, Undo(tb, Interpolated(tb, ct).lp), MAX_TRY, 0);
      && Backward(p, ct) == At(World(r.t, ct))
      && Forward(World(r.t, ct), ct).At?
      && exists k: int ::
           Norm(Minus(Forward(World(r.t, ct), ct).lp, Turned(p, k)))
           <= Times(l, Norm(r.last))
  {
    hide Interpolated, Iterate, Contracting, Norm, Times, Adjlon, Turns;
    var tb := Local(p, ct);
    var r := Iterate(ct, tb, Undo(tb, Interpolated(tb, ct).lp), MAX_TRY, 0);
    InverseQuality(ct, tb, Undo(tb, Interpolated(tb, ct).lp), l);
    var u := r.t.lam + ct.ll.lam;
    var n := Turns(u);
    AdjlonTurns(u);
    TurnsNegate(n);
    AdjlonUndoes(r.t.lam - ONEPI, -n);
    assert World(r.t, ct).lam - ct.ll.lam - ONEPI == r.t.lam - ONEPI + TWOPI * ((-n) as real);
    assert Local(World(r.t, ct), ct) == r.t;
    var m := Turns(p.lam - ct.ll.lam - ONEPI);
    AdjlonTurns(p.lam - ct.ll.lam - ONEPI);
    var k := -m - n;
    TurnsSum(m, n);
    assert Minus(Forward(World(r.t, ct), ct).lp, Turned(p, k)) == ForwardMiss(ct, tb, r.t);
  }

  lemma TurnsNegate(n: int)
    ensures TWOPI * ((-n) as real) == -(TWOPI * (n as real))
  {
  }

  lemma TurnsSum(m: int, n: int)
    ensures TWOPI * ((-m - n) as real) == -(TWOPI * (m as real)) - TWOPI * (n as real)
  {
  }
}
