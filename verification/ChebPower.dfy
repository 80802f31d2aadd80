/** The conversion of one Chebyshev series to a power series, as a function on
    coefficient sequences, together with the affine change of variable, and the
    proof that both keep the value of the series. */
module ChebPower {
  import opened Series

  // ---------- Chebyshev to power basis ----------

  // Coefficients, in powers of x, of the Clenshaw quantity b_j.
  function Coeffs(c: seq<real>, j: nat): (b: seq<real>)
    ensures |b| == |c|
    decreases if j < |c| then |c| - j else 0
  {
    if j >= |c| then seq(|c|, _ => 0.0)
    else
      var b1, b2 := Coeffs(c, j + 1), Coeffs(c, j + 2);
      seq(|c|, k requires 0 <= k < |c| => if k == 0 then c[j] - b2[0] else 2.0 * b1[k - 1] - b2[k])
  }

  function ChebToPower(c: seq<real>): (p: seq<real>)
    ensures |p| == |c|
  {
    var b1, b2 := Coeffs(c, 1), Coeffs(c, 2);
    seq(|c|, k requires 0 <= k < |c| => if k == 0 then 0.5 * c[0] - b2[0] else b1[k - 1] - b2[k])
  }

  lemma CoeffsStep(c: seq<real>, j: nat, k: nat)
    requires j < |c| && k < |c|
    ensures Coeffs(c, j)[k]
         == if k == 0 then c[j] - Coeffs(c, j + 2)[0]
            else 2.0 * Coeffs(c, j + 1)[k - 1] - Coeffs(c, j + 2)[k]
  {
  }

  lemma CoeffsPastEnd(c: seq<real>, j: nat, k: nat)
    requires k < |c| <= j
    ensures Coeffs(c, j)[k] == 0.0
  {
  }

  // b_j has degree |c| - 1 - j
  lemma {:induction false} CoeffsDegree(c: seq<real>, j: nat, k: nat)
    requires k < |c| <= j + k
    ensures Coeffs(c, j)[k] == 0.0
    decreases if j < |c| then |c| - j else 0
  {
    hide Coeffs;
    if j >= |c| {
      CoeffsPastEnd(c, j, k);
    } else {
      CoeffsStep(c, j, k);
      CoeffsDegree(c, j + 2, k);
      if k > 0 {
        CoeffsDegree(c, j + 1, k - 1);
      }
    }
  }

  // Multiplying by x shifts the coefficients up by one place.
  lemma {:induction false} ShiftTail(alpha: real, x: real, beta: real,
                                     b1: seq<real>, b2: seq<real>, r: seq<real>, k: nat)
    requires beta == alpha * x
    requires |b1| == |b2| == |r| && 1 <= k <= |r|
    requires b1[|r| - 1] == 0.0
    requires forall i :: k <= i < |r| ==> r[i] == alpha * b1[i - 1] - b2[i]
    ensures Tail(PowerBasis(x), r, k)
         == beta * Tail(PowerBasis(x), b1, k - 1) - Tail(PowerBasis(x), b2, k)
    decreases |r| - k
  {
    hide Tail, Pow;
    if k == |r| {
      TailZero(PowerBasis(x), b1, k - 1);
      TailZero(PowerBasis(x), b2, k);
      TailZero(PowerBasis(x), r, k);
    } else {
      ShiftTail(alpha, x, beta, b1, b2, r, k + 1);
      TailStep(PowerBasis(x), r, k);
      TailStep(PowerBasis(x), b1, k - 1);
      TailStep(PowerBasis(x), b2, k);
      PowStep(x, k - 1);
      ShiftAlgebra(Pow(x, k - 1), Pow(x, k), r[k], alpha, x, beta, b1[k - 1], b2[k],
        Tail(PowerBasis(x), b1, k), Tail(PowerBasis(x), b2, k + 1));
    }
  }

  lemma ShiftAlgebra(p: real, q: real, r: real, alpha: real, x: real, beta: real,
                     u: real, w: real, s: real, t: real)
    requires q == x * p && r == alpha * u - w && beta == alpha * x
    ensures q * r + (beta * s - t) == beta * (p * u + s) - (q * w + t)
  {
    assert q * r == q * (alpha * u) - q * w;
    assert q * (alpha * u) == beta * (p * u) by {
      assert (x * p) * (alpha * u) == (alpha * x) * (p * u);
    }
    assert beta * (p * u + s) == beta * (p * u) + beta * s;
  }

  // One Clenshaw step, read as an equation between values.
  lemma ShiftValue(alpha: real, x: real, beta: real, e: real, b1: seq<real>, b2: seq<real>, r: seq<real>)
    requires beta == alpha * x
    requires |b1| == |b2| == |r| && |r| >= 1
    requires b1[|r| - 1] == 0.0
    requires r[0] == e - b2[0]
    requires forall i :: 1 <= i < |r| ==> r[i] == alpha * b1[i - 1] - b2[i]
    ensures Dot(PowerBasis(x), r)
         == e + beta * Dot(PowerBasis(x), b1) - Dot(PowerBasis(x), b2)
  {
    hide Tail, Dot;
    ShiftTail(alpha, x, beta, b1, b2, r, 1);
    DotSplit(PowerBasis(x), r);
    DotSplit(PowerBasis(x), b1);
    DotSplit(PowerBasis(x), b2);
    assert Pow(x, 0) == 1.0;
  }

  lemma CoeffsValueStep(c: seq<real>, j: nat, x: real, beta: real)
    requires 1 <= j < |c| && beta == 2.0 * x
    ensures Dot(PowerBasis(x), Coeffs(c, j))
         == c[j] + beta * Dot(PowerBasis(x), Coeffs(c, j + 1)) - Dot(PowerBasis(x), Coeffs(c, j + 2))
  {
    hide *;
    CoeffsDegree(c, j + 1, |c| - 1);
    forall i | 1 <= i < |c|
      ensures Coeffs(c, j)[i] == 2.0 * Coeffs(c, j + 1)[i - 1] - Coeffs(c, j + 2)[i]
    {
      CoeffsStep(c, j, i);
    }
    CoeffsStep(c, j, 0);
    ShiftValue(2.0, x, beta, c[j], Coeffs(c, j + 1), Coeffs(c, j + 2), Coeffs(c, j));
  }

  lemma CoeffsValueEnd(c: seq<real>, j: nat, x: real, beta: real)
    requires |c| <= j
    ensures Dot(PowerBasis(x), Coeffs(c, j)) == Clenshaw(c, beta, j)
  {
    TailZero(PowerBasis(x), Coeffs(c, j), 0);
  }

  // The power series held at step j has the value of the Clenshaw quantity b_j.
  lemma {:induction false} CoeffsValue(c: seq<real>, j: nat, x: real, beta: real)
    requires j >= 1 && beta == 2.0 * x
    ensures Dot(PowerBasis(x), Coeffs(c, j)) == Clenshaw(c, beta, j)
    decreases if j < |c| then |c| - j else 0
  {
    hide *;
    if j >= |c| {
      CoeffsValueEnd(c, j, x, beta);
    } else {
      CoeffsValue(c, j + 1, x, beta);
      CoeffsValue(c, j + 2, x, beta);
      CoeffsValueStep(c, j, x, beta);
      ClenshawUnfold(c, beta, j);
    }
  }

  // A change of basis: the power series has the value of the Chebyshev series everywhere.
  lemma ChebToPowerValue(c: seq<real>, x: real)
    requires |c| >= 1
    ensures Dot(PowerBasis(x), ChebToPower(c)) == Dot(ChebBasis(x), c)
  {
    hide *;
    CoeffsDegree(c, 1, |c| - 1);
    ChebToPowerStep(c);
    ShiftValue(1.0, x, x, 0.5 * c[0], Coeffs(c, 1), Coeffs(c, 2), ChebToPower(c));
    var alpha := 2.0 * x;
    CoeffsValue(c, 1, x, alpha);
    CoeffsValue(c, 2, x, alpha);
    ChebClenshaw(c, x, alpha);
    SameSums(x, 0.5 * c[0], Dot(PowerBasis(x), Coeffs(c, 1)), Dot(PowerBasis(x), Coeffs(c, 2)),
      Clenshaw(c, alpha, 1), Clenshaw(c, alpha, 2), Dot(PowerBasis(x), ChebToPower(c)), Dot(ChebBasis(x), c));
  }

  lemma SameSums(x: real, e: real, a1: real, a2: real, b1: real, b2: real, p: real, q: real)
    requires p == e + x * a1 - a2 && q == x * b1 - b2 + e && a1 == b1 && a2 == b2
    ensures p == q
  {
  }

  lemma ChebToPowerStep(c: seq<real>)
    requires |c| >= 1
    ensures ChebToPower(c)[0] == 0.5 * c[0] - Coeffs(c, 2)[0]
    ensures forall i :: 1 <= i < |c| ==> ChebToPower(c)[i] == 1.0 * Coeffs(c, 1)[i - 1] - Coeffs(c, 2)[i]
  {
    hide Coeffs;
  }

  lemma SameProduct(x: real, a: real, b: real)
    requires a == b
    ensures x * a == x * b
  {
  }

  // ---------- affine change of variable ----------

  // the series with x replaced by fac * x
  function Scaled(d: seq<real>, fac: real): (s: seq<real>)
    ensures |s| == |d|
  {
    seq(|d|, i requires 0 <= i < |d| => Times(Pow(fac, i), d[i]))
  }

  function MinusTimes(a: real, c: real, b: real): real {
    a - Times(c, b)
  }

  // synthetic division by z + c: remainder first, then the quotient
  function Divided(s: seq<real>, c: real): (t: seq<real>)
    ensures |t| == |s|
  {
    if |s| <= 1 then s
    else
      var t := Divided(s[1..], c);
      [MinusTimes(s[0], c, t[0])] + t
  }

  // the series with z replaced by x - c
  function Shifted(s: seq<real>, c: real): (t: seq<real>)
    ensures |t| == |s|
    decreases |s|
  {
    if |s| <= 1 then s
    else
      var d := Divided(s, c);
      [d[0]] + Shifted(d[1..], c)
  }

  lemma DividedUnfold(s: seq<real>, c: real)
    requires |s| > 1
    ensures Divided(s, c) == [MinusTimes(s[0], c, Divided(s[1..], c)[0])] + Divided(s[1..], c)
  {
  }

  lemma ShiftedUnfold(s: seq<real>, c: real)
    requires |s| > 1
    ensures Shifted(s, c) == [Divided(s, c)[0]] + Shifted(Divided(s, c)[1..], c)
  {
  }

  // from a series on [-1,1] to one on [a,b]
  function ToRange(d: seq<real>, a: real, b: real): (s: seq<real>)
    requires a != b
    ensures |s| == |d|
  {
    Shifted(Scaled(d, 2.0 / (b - a)), 0.5 * (a + b))
  }

  // the point of [-1,1] that stands for x in [a,b]
  function Normalised(x: real, a: real, b: real): real
    requires a != b
  {
    (2.0 * x - a - b) / (b - a)
  }

  lemma {:induction false} PowProduct(y: real, a: real, b: real, n: nat)
    requires y == a * b
    ensures Pow(y, n) == Times(Pow(a, n), Pow(b, n))
  {
    if n > 0 {
      PowProduct(y, a, b, n - 1);
      PowSteps(y, a, b, Pow(a, n - 1), Pow(b, n - 1), Pow(y, n - 1));
    }
  }

  lemma PowSteps(y: real, a: real, b: real, p: real, q: real, r: real)
    requires y == a * b && r == Times(p, q)
    ensures y * r == Times(a * p, b * q)
  {
    assert (a * b) * (p * q) == (a * p) * (b * q);
  }

  lemma ScaledAlgebra(p: real, q: real, r: real, e: real)
    requires r == Times(p, q)
    ensures Times(q, Times(p, e)) == Times(r, e)
  {
    assert q * (p * e) == (p * q) * e;
  }

  lemma {:induction false} ScaledTail(d: seq<real>, fac: real, z: real, y: real, j: nat)
    requires y == fac * z
    ensures Tail(PowerBasis(z), Scaled(d, fac), j) == Tail(PowerBasis(y), d, j)
    decreases |d| - j
  {
    if j < |d| {
      hide Pow, Tail, Times;
      ScaledTail(d, fac, z, y, j + 1);
      TailTimes(PowerBasis(z), Scaled(d, fac), j);
      TailTimes(PowerBasis(y), d, j);
      PowProduct(y, fac, z, j);
      ScaledAlgebra(Pow(fac, j), Pow(z, j), Pow(y, j), d[j]);
    }
  }

  lemma {:induction false} DividedValue(s: seq<real>, c: real, z: real)
    requires |s| >= 1
    ensures Horner(s, z) == Divided(s, c)[0] + (z + c) * Horner(Divided(s, c)[1..], z)
  {
    hide Horner, Divided;
    if |s| > 1 {
      DividedValue(s[1..], c, z);
      DividedUnfold(s, c);
      var t := Divided(s[1..], c);
      assert Divided(s, c)[1..] == t;
      HornerFirst(s, z);
      HornerFirst(t, z);
      DivisionStep(s[0], c, z, t[0], Horner(t[1..], z), Horner(s[1..], z), Horner(Divided(s, c)[1..], z),
        Horner(s, z), Divided(s, c)[0]);
    } else {
      DividedOne(s, c, z);
    }
  }

  lemma HornerFirst(s: seq<real>, z: real)
    requires |s| >= 1
    ensures Horner(s, z) == s[0] + z * Horner(s[1..], z)
  {
  }

  lemma DividedOne(s: seq<real>, c: real, z: real)
    requires |s| == 1
    ensures Horner(s, z) == Divided(s, c)[0] + (z + c) * Horner(Divided(s, c)[1..], z)
  {
    assert s[1..] == [];
    assert z * 0.0 == 0.0 == (z + c) * 0.0;
  }

  lemma DivisionStep(s0: real, c: real, z: real, t0: real, h: real, h1: real, ht: real, hs: real,
                     d0: real)
    requires d0 == MinusTimes(s0, c, t0) && h1 == t0 + (z + c) * h && ht == t0 + z * h && hs == s0 + z * h1
    ensures hs == d0 + (z + c) * ht
  {
    DivisionAlgebra(s0, c, z, t0, h);
    SameProduct(z, h1, t0 + (z + c) * h);
    SameProduct(z + c, ht, t0 + z * h);
  }

  lemma DivisionAlgebra(s0: real, c: real, z: real, t0: real, h: real)
    ensures s0 + z * (t0 + (z + c) * h) == (s0 - c * t0) + (z + c) * (t0 + z * h)
  {
    assert z * ((z + c) * h) == (z + c) * (z * h);
    assert (z + c) * (t0 + z * h) == z * t0 + c * t0 + (z + c) * (z * h);
  }

  lemma {:induction false} ShiftedValue(s: seq<real>, c: real, x: real)
    ensures Horner(Shifted(s, c), x) == Horner(s, x - c)
    decreases |s|
  {
    if |s| == 1 {
      assert s[1..] == [];
      assert x * 0.0 == 0.0 == (x - c) * 0.0;
    } else if |s| > 1 {
      var d := Divided(s, c);
      ShiftedValue(d[1..], c, x);
      DividedValue(s, c, x - c);
      assert Shifted(s, c)[1..] == Shifted(d[1..], c);
    }
  }

  // The re-ranged series at x has the value of the original one at the normalised point.
  lemma ToRangeValue(d: seq<real>, a: real, b: real, x: real)
    requires a != b
    ensures Dot(PowerBasis(x), ToRange(d, a, b)) == Dot(PowerBasis(Normalised(x, a, b)), d)
  {
    NormalisedAlgebra(x, a, b);
    RangeValue(d, 2.0 / (b - a), 0.5 * (a + b), x, Normalised(x, a, b));
  }

  lemma RangeValue(d: seq<real>, fac: real, c: real, x: real, y: real)
    requires y == fac * (x - c)
    ensures Dot(PowerBasis(x), Shifted(Scaled(d, fac), c)) == Dot(PowerBasis(y), d)
  {
    hide Shifted, Scaled, Horner;
    var s := Scaled(d, fac);
    HornerSum(Shifted(s, c), x);
    ShiftedValue(s, c, x);
    HornerSum(s, x - c);
    ScaledTail(d, fac, x - c, y, 0);
  }

  lemma NormalisedAlgebra(x: real, a: real, b: real)
    requires a != b
    ensures 2.0 / (b - a) * (x - 0.5 * (a + b)) == Normalised(x, a, b)
  {
    var w := b - a;
    assert 2.0 / w * (x - 0.5 * (a + b)) == (2.0 * (x - 0.5 * (a + b))) / w;
    assert 2.0 * (x - 0.5 * (a + b)) == 2.0 * x - a - b;
  }

  // both steps together, as one row of the conversion performs them
  function Converted(c: seq<real>, a: real, b: real): (p: seq<real>)
    requires a != b
    ensures |p| == |c|
  {
    ToRange(ChebToPower(c), a, b)
  }

  lemma ConvertedValue(c: seq<real>, a: real, b: real, x: real)
    requires |c| >= 1 && a != b
    ensures Dot(PowerBasis(x), Converted(c, a, b)) == Dot(ChebBasis(Normalised(x, a, b)), c)
  {
    ToRangeValue(ChebToPower(c), a, b, x);
    ChebToPowerValue(c, Normalised(x, a, b));
  }

  // ---------- matrices ----------

  function RowsConverted(m: seq<seq<real>>, a: real, b: real): (r: seq<seq<real>>)
    requires a != b
    ensures |r| == |m| && forall i :: 0 <= i < |m| ==> |r[i]| == |m[i]|
  {
    seq(|m|, i requires 0 <= i < |m| => Converted(m[i], a, b))
  }

  // column k of the result is the converted column k of the argument
  ghost predicate ColumnsConverted(m: seq<seq<real>>, r: seq<seq<real>>, nv: nat, a: real, b: real)
    requires a != b
  {
    && |r| == |m| && Rect(m, nv) && Rect(r, nv)
    && forall k :: 0 <= k < nv ==> Column(r, k) == Converted(Column(m, k), a, b)
  }

  // Rows then columns: the bivariate power series has the value of the
  // bivariate Chebyshev series at the normalised point.
  lemma MatrixConverted(c: seq<seq<real>>, p: seq<seq<real>>, nv: nat,
                        au: real, bu: real, av: real, bv: real, u: real, v: real)
    requires |c| >= 1 && nv >= 1 && Rect(c, nv)
    requires au != bu && av != bv
    requires ColumnsConverted(RowsConverted(c, av, bv), p, nv, au, bu)
    ensures Bilinear(PowerBasis(u), PowerBasis(v), p)
         == Bilinear(ChebBasis(Normalised(u, au, bu)), ChebBasis(Normalised(v, av, bv)), c)
  {
    hide Converted, Tail;
    var d := RowsConverted(c, av, bv);
    var x, y := Normalised(u, au, bu), Normalised(v, av, bv);
    Fubini(PowerBasis(u), PowerBasis(v), p, nv);
    forall k | 0 <= k < nv
      ensures Dot(PowerBasis(u), Column(p, k)) == Dot(ChebBasis(x), Column(d, k))
    {
      ConvertedValue(Column(d, k), au, bu, u);
    }
    assert ColumnSums(PowerBasis(u), p, nv) == ColumnSums(ChebBasis(x), d, nv);
    Fubini(ChebBasis(x), PowerBasis(v), d, nv);
    forall i | 0 <= i < |c|
      ensures Dot(PowerBasis(v), d[i]) == Dot(ChebBasis(y), c[i])
    {
      ConvertedValue(c[i], av, bv, v);
    }
    assert RowSums(PowerBasis(v), d) == RowSums(ChebBasis(y), c);
  }

  // ---------- what the in-place loops hold, one scalar sequence at a time ----------

  // d and dd hold the coefficients of b_j and b_{j+1}
  ghost predicate Held(c: seq<real>, d: seq<real>, dd: seq<real>, j: nat) {
    d == Coeffs(c, j) && dd == Coeffs(c, j + 1)
  }

  // Half way through step j: entries above k are already those of step j,
  // entries up to k are still those of step j + 1.
  ghost predicate Stepping(c: seq<real>, d: seq<real>, dd: seq<real>, j: nat, k: int) {
    && |d| == |dd| == |c|
    && (forall i :: 0 <= i < |c| && i > k ==> d[i] == Coeffs(c, j)[i] && dd[i] == Coeffs(c, j + 1)[i])
    && (forall i :: 0 <= i < |c| && i <= k ==> d[i] == Coeffs(c, j + 1)[i] && dd[i] == Coeffs(c, j + 2)[i])
  }

  // The loop may start at |c| - j: the entries above are zero before and after.
  lemma SteppingStart(c: seq<real>, d: seq<real>, dd: seq<real>, j: nat)
    requires 1 <= j < |c| && Held(c, d, dd, j + 1)
    ensures Stepping(c, d, dd, j, |c| - j)
  {
    hide Coeffs;
    forall i | 0 <= i < |c| && i > |c| - j
      ensures d[i] == Coeffs(c, j)[i] && dd[i] == Coeffs(c, j + 1)[i]
    {
      CoeffsDegree(c, j, i);
      CoeffsDegree(c, j + 1, i);
      CoeffsDegree(c, j + 2, i);
    }
  }

  lemma SteppingNext(c: seq<real>, d: seq<real>, dd: seq<real>, j: nat, k: nat)
    requires 1 <= j < |c| && 1 <= k < |c| && Stepping(c, d, dd, j, k)
    ensures Stepping(c, d[k := 2.0 * d[k - 1] - dd[k]], dd[k := d[k]], j, k - 1)
  {
    hide Coeffs;
    CoeffsStep(c, j, k);
  }

  lemma SteppingEnd(c: seq<real>, d: seq<real>, dd: seq<real>, j: nat)
    requires 1 <= j < |c| && Stepping(c, d, dd, j, 0)
    ensures Held(c, d[0 := c[j] - dd[0]], dd[0 := d[0]], j)
  {
    hide Coeffs;
    CoeffsStep(c, j, 0);
  }

  lemma HeldStart(c: seq<real>, d: seq<real>, dd: seq<real>)
    requires |d| == |dd| == |c| && |c| >= 1
    requires d[0] == c[|c| - 1]
    requires forall i :: 1 <= i < |c| ==> d[i] == 0.0
    requires forall i :: 0 <= i < |c| ==> dd[i] == 0.0
    ensures Held(c, d, dd, |c| - 1)
  {
    forall i | 0 <= i < |c|
      ensures d[i] == Coeffs(c, |c| - 1)[i] && dd[i] == Coeffs(c, |c|)[i]
    {
      hide Coeffs;
      CoeffsPastEnd(c, |c|, i);
      CoeffsPastEnd(c, |c| + 1, i);
      CoeffsStep(c, |c| - 1, i);
      if i > 0 {
        CoeffsPastEnd(c, |c|, i - 1);
      }
    }
  }

  // The closing pass: entries above k are final, the others still those of b_1.
  ghost predicate Closing(c: seq<real>, d: seq<real>, dd: seq<real>, k: int) {
    && |d| == |dd| == |c|
    && dd == Coeffs(c, 2)
    && (forall i :: 0 <= i < |c| && i > k ==> d[i] == ChebToPower(c)[i])
    && (forall i :: 0 <= i < |c| && i <= k ==> d[i] == Coeffs(c, 1)[i])
  }

  lemma ClosingStart(c: seq<real>, d: seq<real>, dd: seq<real>)
    requires |c| > 1 && Held(c, d, dd, 1)
    ensures Closing(c, d, dd, |c| - 1)
  {
    hide Coeffs, ChebToPower;
  }

  lemma ClosingSingle(c: seq<real>, d: seq<real>, dd: seq<real>)
    requires |c| == 1 && Held(c, d, dd, 0)
    ensures d[0 := 0.5 * c[0] - dd[0]] == ChebToPower(c)
  {
    hide Coeffs;
    CoeffsPastEnd(c, 1, 0);
    CoeffsPastEnd(c, 2, 0);
  }

  lemma ClosingEnd(c: seq<real>, d: seq<real>, dd: seq<real>)
    requires |c| > 1 && Closing(c, d, dd, 0)
    ensures d[0 := 0.5 * c[0] - dd[0]] == ChebToPower(c)
  {
    hide Coeffs;
  }

  lemma ClosingNext(c: seq<real>, d: seq<real>, dd: seq<real>, k: nat)
    requires 1 <= k < |c| && Closing(c, d, dd, k)
    ensures Closing(c, d[k := d[k - 1] - dd[k]], dd, k - 1)
  {
    hide Coeffs;
  }

  // A column being divided in place: the entries after k are done.
  ghost predicate Dividing(s: seq<real>, d: seq<real>, k: int, c: real)
    requires -1 <= k < |s|
  {
    && |d| == |s|
    && d[k + 1..] == Divided(s[k + 1..], c)
    && d[..k + 1] == s[..k + 1]
  }

  lemma DividingStart(s: seq<real>, c: real)
    requires |s| >= 1
    ensures Dividing(s, s, |s| - 2, c)
  {
  }

  lemma DividingNext(s: seq<real>, d: seq<real>, k: nat, c: real)
    requires k + 1 < |s| && Dividing(s, d, k, c)
    ensures Dividing(s, d[k := MinusTimes(d[k], c, d[k + 1])], k - 1, c)
  {
    hide Divided, MinusTimes;
    var r := MinusTimes(d[k], c, d[k + 1]);
    var e := d[k := r];
    DividedUnfold(s[k..], c);
    assert s[k..][1..] == s[k + 1..];
    assert d[k] == s[k] by {
      assert d[..k + 1][k] == s[..k + 1][k];
    }
    assert d[k + 1..][0] == d[k + 1];
    assert e[k..] == [r] + d[k + 1..];
    assert e[..k] == s[..k] by {
      assert d[..k] == d[..k + 1][..k] == s[..k + 1][..k] == s[..k];
    }
  }

  // The whole shift: the first j entries are final.
  ghost predicate Shifting(s: seq<real>, d: seq<real>, j: nat, c: real) {
    && |d| == |s|
    && j <= |s|
    && Shifted(s, c) == d[..j] + Shifted(d[j..], c)
  }

  lemma ShiftingStart(s: seq<real>, c: real)
    ensures Shifting(s, s, 0, c)
  {
    assert s[..0] + Shifted(s[0..], c) == Shifted(s, c) by {
      assert s[0..] == s;
    }
  }

  lemma ShiftingNext(s: seq<real>, before: seq<real>, after: seq<real>, j: nat, c: real)
    requires j + 1 < |s| && Shifting(s, before, j, c)
    requires Dividing(before, after, j - 1, c)
    ensures Shifting(s, after, j + 1, c)
  {
    hide Divided, Shifted;
    var t := Divided(before[j..], c);
    ShiftedUnfold(before[j..], c);
    assert after[j..] == t;
    assert after[j + 1..] == t[1..];
    assert after[..j + 1] == before[..j] + [t[0]];
  }

  lemma ShiftingEnd(s: seq<real>, d: seq<real>, j: nat, c: real)
    requires Shifting(s, d, j, c) && j + 1 >= |s|
    ensures d == Shifted(s, c)
  {
    assert d == d[..j] + d[j..];
  }
}
