/** Finite series over a basis, with exact reals standing for C doubles.

    A series is a coefficient sequence together with a basis, a function from
    index to real.  The power, Chebyshev and sine series of the library are all
    instances, so the direct sums below are the reference meaning against which
    the in-place conversions, Clenshaw loops and Horner loops are judged. */
module Series {

  type Basis = nat -> real

  function Abs(x: real): (r: real)
    ensures r >= 0.0 && (r == x || r == -x)
  {
    if x < 0.0 then -x else x
  }

  function Max(a: real, b: real): real {
    if a < b then b else a
  }

  // sum of f(i) * c[i] for j <= i < |c|
  function Tail(f: Basis, c: seq<real>, j: nat): real
    decreases |c| - j
  {
    if j >= |c| then 0.0 else f(j) * c[j] + Tail(f, c, j + 1)
  }

  // the direct sum: sum of f(i) * c[i] over all coefficients
  function Dot(f: Basis, c: seq<real>): real {
    Tail(f, c, 0)
  }

  // inner sums of a (possibly ragged) matrix of coefficients
  function RowSums(g: Basis, m: seq<seq<real>>): (s: seq<real>)
    ensures |s| == |m|
  {
    seq(|m|, i requires 0 <= i < |m| => Dot(g, m[i]))
  }

  // the direct double sum: sum over i, k of f(i) * g(k) * m[i][k]
  function Bilinear(f: Basis, g: Basis, m: seq<seq<real>>): real {
    Dot(f, RowSums(g, m))
  }

  ghost predicate Rect(m: seq<seq<real>>, nv: nat) {
    forall i :: 0 <= i < |m| ==> |m[i]| == nv
  }

  function Column(m: seq<seq<real>>, k: nat): (s: seq<real>)
    requires forall i :: 0 <= i < |m| ==> k < |m[i]|
    ensures |s| == |m|
  {
    seq(|m|, i requires 0 <= i < |m| => m[i][k])
  }

  function ColumnSums(f: Basis, m: seq<seq<real>>, nv: nat): (s: seq<real>)
    requires Rect(m, nv)
    ensures |s| == nv
  {
    seq(nv, k requires 0 <= k < nv => Dot(f, Column(m, k)))
  }

  // Named products let equal factors give equal terms without nonlinear search.
  function Times(a: real, b: real): real {
    a * b
  }

  // ---------- bases ----------

  function Pow(x: real, n: nat): real {
    if n == 0 then 1.0 else x * Pow(x, n - 1)
  }

  function PowerBasis(x: real): Basis {
    (n: nat) => Pow(x, n)
  }

  // the three-term step that both kinds of Chebyshev polynomial obey
  function Next(alpha: real, a: real, b: real): real {
    alpha * a - b
  }

  // Chebyshev polynomial of the first kind
  function T(n: nat, x: real): real {
    if n == 0 then 1.0 else if n == 1 then x else Next(2.0 * x, T(n - 1, x), T(n - 2, x))
  }

  // the basis of the library's Chebyshev series: term 0 has half weight
  function ChebBasis(x: real): Basis {
    (n: nat) => if n == 0 then 0.5 else T(n, x)
  }

  lemma MulNonneg(a: real, b: real)
    requires a >= 0.0 && b >= 0.0
    ensures a * b >= 0.0
  {
  }

  lemma TimesMonotone(l: real, x: real, y: real)
    requires l >= 0.0 && x <= y
    ensures Times(l, x) <= Times(l, y)
  {
    MulNonneg(l, y - x);
  }

  // ---------- elementary facts about Tail ----------

  lemma TailStep(f: Basis, c: seq<real>, j: nat)
    requires j < |c|
    ensures Tail(f, c, j) == f(j) * c[j] + Tail(f, c, j + 1)
  {
  }

  lemma TailTimes(f: Basis, c: seq<real>, j: nat)
    requires j < |c|
    ensures Tail(f, c, j) == Times(f(j), c[j]) + Tail(f, c, j + 1)
  {
  }

  lemma DotSplit(f: Basis, c: seq<real>)
    requires |c| >= 1
    ensures Dot(f, c) == f(0) * c[0] + Tail(f, c, 1)
    ensures Dot(f, c) == Tail(f, c, 0)
  {
  }

  lemma PowStep(x: real, n: nat)
    ensures Pow(x, n + 1) == x * Pow(x, n)
  {
  }

  lemma {:induction false} TailExt(f: Basis, g: Basis, c: seq<real>, j: nat)
    requires forall i: nat :: j <= i < |c| ==> f(i) == g(i)
    ensures Tail(f, c, j) == Tail(g, c, j)
    decreases |c| - j
  {
    if j < |c| {
      TailExt(f, g, c, j + 1);
    }
  }

  lemma {:induction false} TailLinear(f: Basis, a: real, s: seq<real>, t: seq<real>, r: seq<real>, j: nat)
    requires |s| == |t| == |r|
    requires forall i :: j <= i < |s| ==> r[i] == a * s[i] + t[i]
    ensures Tail(f, r, j) == a * Tail(f, s, j) + Tail(f, t, j)
    decreases |s| - j
  {
    if j < |s| {
      TailLinear(f, a, s, t, r, j + 1);
      var p, q, w := f(j), s[j], t[j];
      assert p * (a * q + w) == a * (p * q) + p * w;
      assert a * (p * q + Tail(f, s, j + 1)) == a * (p * q) + a * Tail(f, s, j + 1);
    } else {
      assert a * 0.0 == 0.0;
    }
  }

  lemma {:induction false} TailZero(f: Basis, c: seq<real>, j: nat)
    requires forall i :: j <= i < |c| ==> c[i] == 0.0
    ensures Tail(f, c, j) == 0.0
    decreases |c| - j
  {
    if j < |c| {
      TailZero(f, c, j + 1);
      assert f(j) * 0.0 == 0.0;
    }
  }

  // Coefficients dropped from the end do not matter when they are zero.
  lemma {:induction false} TailTrim(f: Basis, c: seq<real>, n: nat, j: nat)
    requires n <= |c| && (forall i :: n <= i < |c| ==> c[i] == 0.0)
    ensures Tail(f, c[..n], j) == Tail(f, c, j)
    decreases |c| - j
  {
    if j >= n {
      TailZero(f, c, j);
    } else {
      TailTrim(f, c, n, j + 1);
    }
  }

  // ---------- exchanging the order of summation ----------

  // Row sums first or column sums first: the double sum is the same.
  lemma {:induction false} Fubini(f: Basis, g: Basis, m: seq<seq<real>>, nv: nat)
    requires Rect(m, nv)
    ensures Bilinear(f, g, m) == Dot(g, ColumnSums(f, m, nv))
  {
    FubiniFrom(f, g, m, nv, 0);
    assert ColumnSums(f, m, nv) == ColumnTails(f, m, nv, 0);
  }

  function ColumnTails(f: Basis, m: seq<seq<real>>, nv: nat, j: nat): (s: seq<real>)
    requires Rect(m, nv)
    ensures |s| == nv
  {
    seq(nv, k requires 0 <= k < nv => Tail(f, Column(m, k), j))
  }

  lemma {:induction false} FubiniFrom(f: Basis, g: Basis, m: seq<seq<real>>, nv: nat, j: nat)
    requires Rect(m, nv)
    ensures Tail(f, RowSums(g, m), j) == Dot(g, ColumnTails(f, m, nv, j))
    decreases |m| - j
  {
    if j >= |m| {
      TailZero(g, ColumnTails(f, m, nv, j), 0);
    } else {
      FubiniFrom(f, g, m, nv, j + 1);
      TailLinear(g, f(j), m[j], ColumnTails(f, m, nv, j + 1), ColumnTails(f, m, nv, j), 0);
    }
  }

  // ---------- the Clenshaw recurrence ----------

  // b_j = c_j + alpha * b_{j+1} - b_{j+2}, with b_j = 0 past the end
  function Clenshaw(c: seq<real>, alpha: real, j: nat): real
    decreases if j < |c| then |c| - j else 0
  {
    if j >= |c| then 0.0
    else c[j] + alpha * Clenshaw(c, alpha, j + 1) - Clenshaw(c, alpha, j + 2)
  }

  lemma ClenshawUnfold(c: seq<real>, alpha: real, j: nat)
    requires j < |c|
    ensures Clenshaw(c, alpha, j) == c[j] + alpha * Clenshaw(c, alpha, j + 1) - Clenshaw(c, alpha, j + 2)
  {
  }

  // the loop form: one step from the two values held
  lemma ClenshawStepFrom(c: seq<real>, alpha: real, j: nat, b1: real, b2: real, cj: real)
    requires j < |c| && b1 == Clenshaw(c, alpha, j + 1) && b2 == Clenshaw(c, alpha, j + 2) && cj == c[j]
    ensures Clenshaw(c, alpha, j) == alpha * b1 - b2 + cj
  {
    hide Clenshaw;
    ClenshawUnfold(c, alpha, j);
  }

  // Clenshaw's theorem for any basis obeying f(i+1) = alpha f(i) - f(i-1).
  lemma {:induction false} ClenshawTail(f: Basis, alpha: real, c: seq<real>, j: nat)
    requires j >= 1
    requires ThreeTerm(f, alpha)
    ensures ClenshawAt(f, alpha, c, j)
    decreases if j < |c| then |c| - j else 0
  {
    if j < |c| {
      ClenshawTail(f, alpha, c, j + 1);
      ClenshawStep(f, alpha, c, j);
    }
  }

  ghost predicate ThreeTerm(f: Basis, alpha: real) {
    forall i: nat :: i >= 1 ==> f(i + 1) == Next(alpha, f(i), f(i - 1))
  }

  ghost predicate ClenshawAt(f: Basis, alpha: real, c: seq<real>, j: nat)
    requires j >= 1
  {
    Tail(f, c, j) == Clenshaw(c, alpha, j) * f(j) - Clenshaw(c, alpha, j + 1) * f(j - 1)
  }

  lemma ClenshawStep(f: Basis, alpha: real, c: seq<real>, j: nat)
    requires 1 <= j < |c|
    requires f(j + 1) == Next(alpha, f(j), f(j - 1))
    requires ClenshawAt(f, alpha, c, j + 1)
    ensures ClenshawAt(f, alpha, c, j)
  {
    hide Clenshaw, Tail, Next;
    ClenshawUnfold(c, alpha, j);
    TailUnfold(f, c, j);
    var b1, b2 := Clenshaw(c, alpha, j + 1), Clenshaw(c, alpha, j + 2);
    ClenshawAlgebra(f(j - 1), f(j), f(j + 1), c[j], alpha, b1, b2);
  }

  lemma TailUnfold(f: Basis, c: seq<real>, j: nat)
    requires j < |c|
    ensures Tail(f, c, j) == f(j) * c[j] + Tail(f, c, j + 1)
  {
  }

  lemma ClenshawAlgebra(p: real, q: real, s: real, r: real, alpha: real, b1: real, b2: real)
    requires s == Next(alpha, q, p)
    ensures q * r + (b1 * s - b2 * q) == (r + alpha * b1 - b2) * q - b1 * p
  {
    assert b1 * s == b1 * (alpha * q - p);
    assert b1 * (alpha * q - p) == (alpha * b1) * q - b1 * p;
    assert (r + alpha * b1 - b2) * q == r * q + (alpha * b1) * q - b2 * q;
  }

  function ChebT(x: real): Basis {
    (n: nat) => T(n, x)
  }

  lemma ChebThreeTerm(x: real, alpha: real)
    requires alpha == 2.0 * x
    ensures ThreeTerm(ChebT(x), alpha)
  {
    var f := ChebT(x);
    forall i: nat | i >= 1
      ensures f(i + 1) == Next(alpha, f(i), f(i - 1))
    {
      hide T, Next;
      TwoStep(i - 1, x, alpha);
    }
  }

  // The end step of a Clenshaw loop gives the half-weighted Chebyshev sum.
  lemma ChebClenshaw(c: seq<real>, x: real, alpha: real)
    requires |c| >= 1 && alpha == 2.0 * x
    ensures Dot(ChebBasis(x), c) == x * Clenshaw(c, alpha, 1) - Clenshaw(c, alpha, 2) + 0.5 * c[0]
  {
    hide Clenshaw, T, Next;
    ChebThreeTerm(x, alpha);
    TailExt(ChebBasis(x), ChebT(x), c, 1);
    ClenshawTail(ChebT(x), alpha, c, 1);
    ChebStart(x);
    assert Dot(ChebBasis(x), c) == 0.5 * c[0] + Tail(ChebBasis(x), c, 1);
  }

  lemma ChebStart(x: real)
    ensures T(0, x) == 1.0 && T(1, x) == x
  {
  }

  // Horner's scheme
  function Horner(c: seq<real>, x: real): real {
    if c == [] then 0.0 else c[0] + x * Horner(c[1..], x)
  }

  lemma {:induction false} HornerTail(c: seq<real>, x: real, j: nat)
    requires j <= |c|
    ensures Tail(PowerBasis(x), c, j) == Pow(x, j) * Horner(c[j..], x)
    decreases |c| - j
  {
    if j < |c| {
      HornerTail(c, x, j + 1);
      assert c[j..][1..] == c[j + 1..];
      var p, h := Pow(x, j), Horner(c[j + 1..], x);
      assert Pow(x, j + 1) == x * p;
      assert p * c[j] + x * p * h == p * (c[j] + x * h);
    }
  }

  lemma HornerSum(c: seq<real>, x: real)
    ensures Dot(PowerBasis(x), c) == Horner(c, x)
  {
    HornerTail(c, x, 0);
    assert c[0..] == c;
  }

  // ---------- Chebyshev polynomials are bounded by 1 ----------

  // Chebyshev polynomial of the second kind, one index up: V(n) = U_{n-1}
  function V(n: nat, x: real): real {
    if n == 0 then 0.0 else if n == 1 then 1.0 else Next(2.0 * x, V(n - 1, x), V(n - 2, x))
  }

  lemma TwoStep(n: nat, x: real, alpha: real)
    requires alpha == 2.0 * x
    ensures T(n + 2, x) == Next(alpha, T(n + 1, x), T(n, x))
    ensures V(n + 2, x) == Next(alpha, V(n + 1, x), V(n, x))
  {
    hide Next;
  }

  predicate Mixed(t0: real, v0: real, t1: real, v1: real, x: real) {
    t1 == x * t0 - (1.0 - x * x) * v0 && v1 == t0 + x * v0
  }

  lemma MixedNext(t0: real, v0: real, t1: real, v1: real, x: real)
    requires Mixed(t0, v0, t1, v1, x)
    ensures Mixed(t1, v1, Next(2.0 * x, t1, t0), Next(2.0 * x, v1, v0), x)
  {
    var xx, xt, xv := x * x, x * t0, x * v0;
    assert (1.0 - xx) * v0 == v0 - xx * v0;
    assert x * t1 == x * xt - x * v0 + x * (xx * v0) by {
      assert t1 == xt - v0 + xx * v0;
    }
    assert (1.0 - xx) * v1 == t0 + xv - xx * t0 - xx * xv by {
      assert v1 == t0 + xv;
    }
    assert x * xt == xx * t0;
    assert x * (xx * v0) == xx * xv;
    assert x * v1 == xt + xx * v0 by {
      assert x * v1 == x * t0 + x * (x * v0);
      assert x * (x * v0) == xx * v0;
    }
  }

  lemma MixedStart(x: real)
    ensures Mixed(T(0, x), V(0, x), T(1, x), V(1, x), x)
  {
  }

  // T_{n+1} = x T_n - (1 - x^2) U_{n-1} and U_n = T_n + x U_{n-1}
  lemma {:induction false} MixedStep(n: nat, x: real)
    ensures Mixed(T(n, x), V(n, x), T(n + 1, x), V(n + 1, x), x)
  {
    hide *;
    if n == 0 {
      MixedStart(x);
    } else {
      MixedStep(n - 1, x);
      TwoStep(n - 1, x, 2.0 * x);
      MixedNext(T(n - 1, x), V(n - 1, x), T(n, x), V(n, x), x);
    }
  }

  predicate OnConic(t: real, v: real, x: real) {
    t * t + (1.0 - x * x) * (v * v) == 1.0
  }

  lemma ConicStart(x: real)
    ensures OnConic(T(0, x), V(0, x), x)
  {
    assert (1.0 - x * x) * (0.0 * 0.0) == 0.0;
  }

  // T_n^2 + (1 - x^2) U_{n-1}^2 = 1
  lemma {:induction false} Pythagoras(n: nat, x: real)
    ensures OnConic(T(n, x), V(n, x), x)
  {
    hide *;
    if n == 0 {
      ConicStart(x);
    } else {
      Pythagoras(n - 1, x);
      MixedStep(n - 1, x);
      ConicStep(T(n - 1, x), V(n - 1, x), T(n, x), V(n, x), x);
    }
  }

  lemma ConicStep(t: real, v: real, t1: real, v1: real, x: real)
    requires Mixed(t, v, t1, v1, x) && OnConic(t, v, x)
    ensures OnConic(t1, v1, x)
  {
    PythagorasStep(t, v, t1, v1, x);
  }

  lemma PythagorasStep(t: real, v: real, t1: real, v1: real, x: real)
    requires Mixed(t, v, t1, v1, x)
    ensures t1 * t1 + (1.0 - x * x) * (v1 * v1) == t * t + (1.0 - x * x) * (v * v)
  {
    var w := 1.0 - x * x;
    SquareOfSum(x * t, -(w * v));
    SquareOfSum(t, x * v);
    var tt, vv, xx, tv := t * t, v * v, x * x, t * v;
    assert (x * t) * (x * t) == xx * tt;
    assert (x * t) * -(w * v) == -(w * (x * tv));
    assert (w * v) * (w * v) == w * (w * vv);
    assert t * (x * v) == x * tv;
    assert (x * v) * (x * v) == xx * vv;
    assert t1 * t1 == xx * tt - 2.0 * (w * (x * tv)) + w * (w * vv);
    assert v1 * v1 == tt + 2.0 * (x * tv) + xx * vv;
    assert w * (v1 * v1) == w * tt + 2.0 * (w * (x * tv)) + w * (xx * vv);
    assert xx * tt + w * tt == tt;
    assert w * (w * vv) + w * (xx * vv) == w * vv;
  }

  lemma SquareOfSum(a: real, b: real)
    ensures (a + b) * (a + b) == a * a + 2.0 * (a * b) + b * b
  {
  }

  lemma ChebBounded(n: nat, x: real)
    requires -1.0 <= x <= 1.0
    ensures -1.0 <= T(n, x) <= 1.0
  {
    hide *;
    Pythagoras(n, x);
    ConicBounded(T(n, x), V(n, x), x);
  }

  lemma ConicBounded(t: real, v: real, x: real)
    requires -1.0 <= x <= 1.0 && OnConic(t, v, x)
    ensures -1.0 <= t <= 1.0
  {
    MulNonneg(1.0 - x, 1.0 + x);
    assert (1.0 - x) * (1.0 + x) == 1.0 - x * x;
    MulNonneg(1.0 - x * x, v * v);
    SquareAtMostOne(t);
  }

  lemma SquareAtMostOne(t: real)
    requires t * t <= 1.0
    ensures -1.0 <= t <= 1.0
  {
  }
}
