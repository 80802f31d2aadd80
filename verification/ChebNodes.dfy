/** Interpolation at the roots of a Chebyshev polynomial: why the cosine sums of samples
    are the coefficients of a series that takes the sampled values. */
module ChebNodes {
  import opened Series

  // ---------- the kernel ----------

  // T_0(y), ..., T_{n-1}(y)
  function Chebs(y: real, n: nat): (s: seq<real>)
    ensures |s| == n
  {
    seq(n, k requires 0 <= k < n => T(k, y))
  }

  // the half-weighted sum of T_k(x) T_k(y) for k < n
  function Kernel(x: real, y: real, n: nat): real {
    if n == 0 then 0.0 else Kernel(x, y, n - 1) + Times(ChebBasis(x)(n - 1), T(n - 1, y))
  }

  lemma {:induction false} TailSnoc(f: Basis, c: seq<real>, z: real, j: nat)
    requires j <= |c|
    ensures Tail(f, c + [z], j) == Tail(f, c, j) + Times(f(|c|), z)
    decreases |c| - j
  {
    if j < |c| {
      TailSnoc(f, c, z, j + 1);
    }
  }

  lemma {:induction false} KernelSum(x: real, y: real, n: nat)
    ensures Dot(ChebBasis(x), Chebs(y, n)) == Kernel(x, y, n)
  {
    if n > 0 {
      KernelSum(x, y, n - 1);
      assert Chebs(y, n) == Chebs(y, n - 1) + [T(n - 1, y)];
      hide T, Tail, Times;
      TailSnoc(ChebBasis(x), Chebs(y, n - 1), T(n - 1, y), 0);
    }
  }

  // Christoffel and Darboux: 2 (x - y) K_n(x, y) = T_n(x) T_{n-1}(y) - T_{n-1}(x) T_n(y)
  lemma {:induction false} KernelGap(x: real, y: real, n: nat)
    requires n >= 1
    ensures 2.0 * Times(x - y, Kernel(x, y, n)) == Times(T(n, x), T(n - 1, y)) - Times(T(n - 1, x), T(n, y))
  {
    if n > 1 {
      KernelGap(x, y, n - 1);
      KernelGapStep(x, y, Kernel(x, y, n - 1), T(n - 2, x), T(n - 1, x), T(n, x), T(n - 2, y), T(n - 1, y), T(n, y));
    } else {
      assert Kernel(x, y, 0) == 0.0 && Kernel(x, y, 1) == 0.5;
    }
  }

  lemma KernelGapStep(x: real, y: real, k: real, p0: real, p1: real, p2: real, q0: real, q1: real, q2: real)
    requires p2 == Next(2.0 * x, p1, p0) && q2 == Next(2.0 * y, q1, q0)
    requires 2.0 * Times(x - y, k) == Times(p1, q0) - Times(p0, q1)
    ensures 2.0 * Times(x - y, k + Times(p1, q1)) == Times(p2, q1) - Times(p1, q2)
  {
    var pq := p1 * q1;
    assert (x - y) * (k + pq) == (x - y) * k + (x - y) * pq;
    assert p2 * q1 == 2.0 * (x * pq) - p0 * q1;
    assert p1 * q2 == 2.0 * (y * pq) - p1 * q0;
    assert (x - y) * pq == x * pq - y * pq;
  }

  // T_{n-1} from the next pair
  lemma MixedBack(t0: real, v0: real, t1: real, v1: real, x: real)
    requires Mixed(t0, v0, t1, v1, x)
    ensures t0 == x * t1 + (1.0 - x * x) * v1
  {
    var w := 1.0 - x * x;
    assert x * t1 == (x * x) * t0 - w * (x * v0) by {
      assert x * (x * t0) == (x * x) * t0;
      assert x * (w * v0) == w * (x * v0);
    }
    assert w * v1 == w * t0 + w * (x * v0);
    assert (x * x) * t0 + w * t0 == t0;
  }

  // 2 K_n(x, x) = n - 1 + T_{n-1}(x) U_{n-1}(x)
  lemma {:induction false} KernelDiagonal(x: real, n: nat)
    requires n >= 1
    ensures 2.0 * Kernel(x, x, n) == (n as real) - 1.0 + Times(T(n - 1, x), V(n, x))
  {
    if n > 1 {
      KernelDiagonal(x, n - 1);
      MixedStep(n - 2, x);
      MixedStep(n - 1, x);
      Pythagoras(n - 1, x);
      hide T, V, Pow;
      DiagonalStep(T(n - 2, x), V(n - 2, x), T(n - 1, x), V(n - 1, x), V(n, x), T(n, x), x);
    } else {
      assert Kernel(x, x, 0) == 0.0 && Kernel(x, x, 1) == 0.5;
    }
  }

  lemma DiagonalStep(t0: real, v0: real, t1: real, v1: real, v2: real, t2: real, x: real)
    requires Mixed(t0, v0, t1, v1, x) && Mixed(t1, v1, t2, v2, x) && OnConic(t1, v1, x)
    ensures 2.0 * Times(t1, t1) + Times(t0, v1) == 1.0 + Times(t1, v2)
  {
    MixedBack(t0, v0, t1, v1, x);
    DiagonalTerms(t0, t1, v1, v2, x, 1.0 - x * x);
  }

  lemma DiagonalTerms(t0: real, t1: real, v1: real, v2: real, x: real, w: real)
    requires t0 == x * t1 + w * v1 && v2 == t1 + x * v1 && t1 * t1 + w * (v1 * v1) == 1.0
    ensures 2.0 * Times(t1, t1) + Times(t0, v1) == 1.0 + Times(t1, v2)
  {
    var tv := t1 * v1;
    assert t0 * v1 == x * tv + w * (v1 * v1) by {
      assert (x * t1) * v1 == x * tv;
      assert (w * v1) * v1 == w * (v1 * v1);
    }
    assert t1 * v2 == t1 * t1 + x * tv by {
      assert t1 * (x * v1) == x * tv;
    }
  }

  // At a root of T_n the kernel is n / 2 on the diagonal.
  lemma KernelAtRoot(x: real, n: nat)
    requires n >= 1 && T(n, x) == 0.0
    ensures 2.0 * Kernel(x, x, n) == n as real
  {
    KernelDiagonal(x, n);
    MixedStep(n - 1, x);
    Pythagoras(n, x);
    hide T, V, Kernel;
    RootProduct(T(n - 1, x), V(n - 1, x), T(n, x), V(n, x), x);
  }

  lemma RootProduct(t0: real, v0: real, t1: real, v1: real, x: real)
    requires Mixed(t0, v0, t1, v1, x) && OnConic(t1, v1, x) && t1 == 0.0
    ensures Times(t0, v1) == 1.0
  {
    MixedBack(t0, v0, t1, v1, x);
    var w := 1.0 - x * x;
    assert t0 == w * v1;
    assert t0 * v1 == w * (v1 * v1);
  }

  // At two different roots it is 0.
  lemma KernelBetweenRoots(x: real, y: real, n: nat)
    requires n >= 1 && T(n, x) == 0.0 && T(n, y) == 0.0 && x != y
    ensures Kernel(x, y, n) == 0.0
  {
    KernelGap(x, y, n);
    hide T, Kernel;
    NoProduct(x - y, Kernel(x, y, n));
  }

  lemma NoProduct(a: real, b: real)
    requires a != 0.0 && Times(a, b) == 0.0
    ensures b == 0.0
  {
  }

  // ---------- interpolation on one axis ----------

  // n different roots of T_n
  ghost predicate Roots(x: seq<real>) {
    && (forall i :: 0 <= i < |x| ==> T(|x|, x[i]) == 0.0)
    && (forall i, l :: 0 <= i < l < |x| ==> x[i] != x[l])
  }

  // T_k at all the points
  function Row(x: seq<real>, k: nat): (s: seq<real>)
    ensures |s| == |x|
  {
    seq(|x|, i requires 0 <= i < |x| => T(k, x[i]))
  }

  function Table(x: seq<real>, n: nat): (m: seq<seq<real>>)
    ensures |m| == n && Rect(m, |x|)
  {
    seq(n, k requires 0 <= k < n => Row(x, k))
  }

  // a sequence as a basis
  function Entries(s: seq<real>): Basis {
    (i: nat) => if i < |s| then s[i] else 0.0
  }

  // (2/n) times the sums of the samples s against T_k at the points
  function Coefs(x: seq<real>, s: seq<real>): (c: seq<real>)
    requires |x| == |s| >= 1
    ensures |c| == |s|
  {
    seq(|s|, k requires 0 <= k < |s| => Times(2.0 / |s| as real, Dot(Entries(s), Row(x, k))))
  }

  // the sum picks out entry i
  lemma {:induction false} TailPick(f: Basis, c: seq<real>, i: nat, j: nat)
    requires i < |c| && forall l :: 0 <= l < |c| && l != i ==> c[l] == 0.0
    ensures Tail(f, c, j) == if j <= i then Times(f(i), c[i]) else 0.0
    decreases |c| - j
  {
    if j < |c| {
      TailPick(f, c, i, j + 1);
      assert j != i ==> f(j) * c[j] == 0.0;
    }
  }

  lemma TableColumn(x: seq<real>, n: nat, l: nat)
    requires l < |x|
    ensures Column(Table(x, n), l) == Chebs(x[l], n)
  {
  }

  // On n different roots of T_n the series with these coefficients takes the sampled values.
  lemma Interpolates(x: seq<real>, s: seq<real>, i: nat)
    requires |x| == |s| >= 1 && Roots(x) && i < |s|
    ensures Dot(ChebBasis(x[i]), Coefs(x, s)) == s[i]
  {
    var n := |s|;
    var f, g, m := ChebBasis(x[i]), Entries(s), Table(x, n);
    var cols := ColumnSums(f, m, n);
    forall l | 0 <= l < n
      ensures cols[l] == if l == i then n as real / 2.0 else 0.0
    {
      hide T, Dot, Tail, Kernel;
      TableColumn(x, n, l);
      KernelSum(x[i], x[l], n);
      if l == i {
        KernelAtRoot(x[i], n);
      } else {
        KernelBetweenRoots(x[i], x[l], n);
      }
    }
    hide T, Kernel, Tail, Table, Roots;
    Fubini(f, g, m, n);
    TailPick(g, cols, i, 0);
    ScaledSums(f, g, x, s);
    HalfPick(n as real, s[i]);
  }

  lemma HalfPick(n: real, v: real)
    requires n > 0.0
    ensures Times(2.0 / n, Times(v, n / 2.0)) == v
  {
    assert (2.0 / n) * (n / 2.0) == 1.0;
    assert (2.0 / n) * (v * (n / 2.0)) == v * ((2.0 / n) * (n / 2.0));
  }

  lemma ScaledSums(f: Basis, g: Basis, x: seq<real>, s: seq<real>)
    requires |x| == |s| >= 1 && g == Entries(s)
    ensures Dot(f, Coefs(x, s)) == Times(2.0 / |s| as real, Bilinear(f, g, Table(x, |s|)))
  {
    var a := 2.0 / |s| as real;
    var sums := RowSums(g, Table(x, |s|));
    var z := seq(|s|, _ => 0.0);
    hide Tail, T;
    forall k | 0 <= k < |s|
      ensures Coefs(x, s)[k] == a * sums[k] + z[k]
    {
    }
    TailLinear(f, a, sums, z, Coefs(x, s), 0);
    TailZero(f, z, 0);
  }

  // ---------- what makes a function a cosine ----------

  predicate SumRule(c: real -> real, a: real, b: real) {
    c(a + b) + c(a - b) == 2.0 * c(a) * c(b)
  }

  predicate Falls(c: real -> real, a: real, b: real) {
    c(b) < c(a)
  }

  // The addition rule, the value 1 at 0 and 0 at half of `half`, and falling up to `half`,
  // which is half the period.
  ghost predicate IsCosine(c: real -> real, half: real) {
    && half > 0.0 && c(0.0) == 1.0 && c(half / 2.0) == 0.0
    && (forall a: real, b: real :: SumRule(c, a, b))
    && (forall a: real, b: real :: 0.0 <= a < b <= half ==> Falls(c, a, b))
  }

  function Multiple(k: nat, t: real): real {
    k as real * t
  }

  // cos(k t) = T_k(cos t)
  lemma {:induction false} MultipleAngle(c: real -> real, half: real, t: real, k: nat)
    requires IsCosine(c, half)
    ensures c(Multiple(k, t)) == T(k, c(t))
  {
    hide IsCosine, Multiple, Next, T;
    FewAngles(c, half, t);
    if k >= 2 {
      MultipleAngle(c, half, t, k - 1);
      MultipleAngle(c, half, t, k - 2);
      NextAngle(c, half, t, k);
      TwoStep(k - 2, c(t), 2.0 * c(t));
    }
  }

  lemma FewAngles(c: real -> real, half: real, t: real)
    requires IsCosine(c, half)
    ensures c(Multiple(0, t)) == T(0, c(t)) && c(Multiple(1, t)) == T(1, c(t))
  {
    assert Multiple(0, t) == 0.0 && Multiple(1, t) == t;
  }

  lemma NextAngle(c: real -> real, half: real, t: real, k: nat)
    requires IsCosine(c, half) && k >= 2
    ensures c(Multiple(k, t)) == Next(2.0 * c(t), c(Multiple(k - 1, t)), c(Multiple(k - 2, t)))
  {
    hide Next, Multiple;
    AngleSteps(t, k);
    assert SumRule(c, Multiple(k - 1, t), t);
    RuleStep(c(Multiple(k, t)), c(Multiple(k - 2, t)), c(Multiple(k - 1, t)), c(t));
  }

  lemma AngleSteps(t: real, k: nat)
    requires k >= 2
    ensures Multiple(k - 1, t) + t == Multiple(k, t) && Multiple(k - 1, t) - t == Multiple(k - 2, t)
  {
  }

  lemma RuleStep(s: real, d: real, a: real, b: real)
    requires s + d == 2.0 * a * b
    ensures s == Next(2.0 * b, a, d)
  {
  }

  lemma {:induction false} OddZero(k: nat)
    ensures T(2 * k + 1, 0.0) == 0.0
  {
    if k > 0 {
      OddZero(k - 1);
      assert T(2 * k + 1, 0.0) == Next(2.0 * 0.0, T(2 * k, 0.0), T(2 * k - 1, 0.0));
    }
  }

  function RootAngle(half: real, i: nat, n: nat): real
    requires n >= 1
  {
    half * (i as real + 0.5) / n as real
  }

  // the points cos(half (i + 1/2) / n)
  function CosPoints(c: real -> real, half: real, n: nat): (x: seq<real>)
    requires n >= 1
    ensures |x| == n
  {
    seq(n, i requires 0 <= i < n => c(RootAngle(half, i, n)))
  }

  lemma AngleOrder(half: real, n: nat, i: nat, l: nat)
    requires half > 0.0 && i < l < n
    ensures 0.0 <= RootAngle(half, i, n) < RootAngle(half, l, n) <= half
  {
    var q, x, y := half / n as real, i as real + 0.5, l as real + 0.5;
    assert q > 0.0 && q * n as real == half;
    assert RootAngle(half, i, n) == q * x && RootAngle(half, l, n) == q * y;
    MulNonneg(q, x);
    MulNonneg(q, n as real - y);
    assert q * (n as real - y) == half - q * y;
    assert q * y - q * x == q * (y - x) > 0.0;
  }

  lemma AngleOfRoot(half: real, n: nat, i: nat)
    requires n >= 1
    ensures Multiple(n, RootAngle(half, i, n)) == Multiple(2 * i + 1, half / 2.0)
  {
    var t := RootAngle(half, i, n);
    assert n as real * t == half * (i as real + 0.5);
    assert (2 * i + 1) as real == 2.0 * (i as real + 0.5);
  }

  lemma CosRoot(c: real -> real, half: real, n: nat, i: nat)
    requires IsCosine(c, half) && i < n
    ensures T(n, c(RootAngle(half, i, n))) == 0.0
  {
    hide T, Multiple, RootAngle;
    AngleOfRoot(half, n, i);
    MultipleAngle(c, half, RootAngle(half, i, n), n);
    MultipleAngle(c, half, half / 2.0, 2 * i + 1);
    OddZero(i);
  }

  // They are n different roots of T_n.
  lemma CosRoots(c: real -> real, half: real, n: nat)
    requires IsCosine(c, half) && n >= 1
    ensures Roots(CosPoints(c, half, n))
  {
    hide T, RootAngle;
    forall i | 0 <= i < n
      ensures T(n, CosPoints(c, half, n)[i]) == 0.0
    {
      CosRoot(c, half, n, i);
    }
    forall i, l | 0 <= i < l < n
      ensures CosPoints(c, half, n)[i] != CosPoints(c, half, n)[l]
    {
      AngleOrder(half, n, i, l);
      assert Falls(c, RootAngle(half, i, n), RootAngle(half, l, n));
    }
  }
}
