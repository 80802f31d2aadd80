/** proj_etmerc.c: sine series summed by Clenshaw's recurrence, over the reals and
    over the complex numbers.  The values of sin, cos, sinh and cosh are parameters. */
module Etmerc {
  import opened Series
  import opened ChebNodes

  // ---------- real sine series ----------

  // S_0 = 0, S_1 = s, S_{k+1} = alpha S_k - S_{k-1}; for s = sin x and
  // alpha = 2 cos x this is sin kx
  function Sine(s: real, alpha: real, k: nat): real {
    if k == 0 then 0.0 else if k == 1 then s else Next(alpha, Sine(s, alpha, k - 1), Sine(s, alpha, k - 2))
  }

  function SineBasis(s: real, alpha: real): Basis {
    (i: nat) => Sine(s, alpha, i + 1)
  }

  // the sum of a[k-1] * S_k
  function SineSum(a: seq<real>, s: real, alpha: real): real {
    Dot(SineBasis(s, alpha), a)
  }

  lemma SineStep(s: real, alpha: real, k: nat)
    ensures Sine(s, alpha, k + 2) == Next(alpha, Sine(s, alpha, k + 1), Sine(s, alpha, k))
  {
  }

  lemma SineStart(s: real, alpha: real)
    ensures Sine(s, alpha, 1) == s && Sine(s, alpha, 2) == Times(alpha, s)
  {
  }

  lemma SineClenshaw(a: seq<real>, s: real, alpha: real)
    requires |a| >= 1
    ensures SineSum(a, s, alpha) == s * Clenshaw(a, alpha, 0)
  {
    hide Clenshaw, Sine, Next;
    var f := SineBasis(s, alpha);
    forall i: nat | i >= 1
      ensures f(i + 1) == Next(alpha, f(i), f(i - 1))
    {
      SineStep(s, alpha, i);
    }
    ClenshawTail(f, alpha, a, 1);
    SineStart(s, alpha);
    DotSplit(f, a);
    ClenshawUnfold(a, alpha, 0);
    SineAlgebra(s, alpha, a[0], Clenshaw(a, alpha, 1), Clenshaw(a, alpha, 2));
  }

  lemma SineAlgebra(s: real, alpha: real, a0: real, b1: real, b2: real)
    ensures s * a0 + (b1 * Times(alpha, s) - b2 * s) == s * (a0 + alpha * b1 - b2)
  {
    assert b1 * (alpha * s) == s * (alpha * b1);
  }

  // ---------- what is summed ----------

  predicate SineRule(sn: real -> real, cs: real -> real, x: real, y: real) {
    sn(x + y) + sn(x - y) == 2.0 * sn(x) * cs(y)
  }

  // The addition rule, and 0 at 0.
  ghost predicate IsSine(sn: real -> real, cs: real -> real) {
    sn(0.0) == 0.0 && forall x: real, y: real :: SineRule(sn, cs, x, y)
  }

  // For a sine and its cosine S_k is the sine of the k-fold angle.
  lemma {:induction false} SineMultiple(sn: real -> real, cs: real -> real, x: real, k: nat)
    requires IsSine(sn, cs)
    ensures Sine(sn(x), 2.0 * cs(x), k) == sn(Multiple(k, x))
  {
    hide Next, Multiple, Sine, IsSine;
    FewSines(sn, cs, x);
    if k >= 2 {
      SineMultiple(sn, cs, x, k - 1);
      SineMultiple(sn, cs, x, k - 2);
      NextSine(sn, cs, x, k);
      SineStep(sn(x), 2.0 * cs(x), k - 2);
    }
  }

  lemma FewSines(sn: real -> real, cs: real -> real, x: real)
    requires IsSine(sn, cs)
    ensures Sine(sn(x), 2.0 * cs(x), 0) == sn(Multiple(0, x)) && Sine(sn(x), 2.0 * cs(x), 1) == sn(Multiple(1, x))
  {
    assert Multiple(0, x) == 0.0 && Multiple(1, x) == x;
  }

  lemma NextSine(sn: real -> real, cs: real -> real, x: real, k: nat)
    requires IsSine(sn, cs) && k >= 2
    ensures sn(Multiple(k, x)) == Next(2.0 * cs(x), sn(Multiple(k - 1, x)), sn(Multiple(k - 2, x)))
  {
    hide Next, Multiple;
    AngleSteps(x, k);
    assert SineRule(sn, cs, Multiple(k - 1, x), x);
    RuleStep(sn(Multiple(k, x)), sn(Multiple(k - 2, x)), sn(Multiple(k - 1, x)), cs(x));
  }

  // the basis sin x, sin 2x, sin 3x, ...
  function Sines(sn: real -> real, x: real): Basis {
    (i: nat) => sn(Multiple(i + 1, x))
  }

  // So the series is the sum of a[k-1] sin kx.
  lemma SineSeries(a: seq<real>, sn: real -> real, cs: real -> real, x: real)
    requires IsSine(sn, cs)
    ensures SineSum(a, sn(x), 2.0 * cs(x)) == Dot(Sines(sn, x), a)
  {
    hide Sine, IsSine, Tail, Multiple;
    forall i: nat | i < |a|
      ensures SineBasis(sn(x), 2.0 * cs(x))(i) == Sines(sn, x)(i)
    {
      SineMultiple(sn, cs, x, i + 1);
    }
    TailExt(SineBasis(sn(x), 2.0 * cs(x)), Sines(sn, x), a, 0);
  }

  // The loop of clens: real Clenshaw down to coefficient 0.
  method Clens(a: seq<real>, sinArg: real, cosArg: real) returns (r: real)
    requires |a| >= 1
    ensures r == SineSum(a, sinArg, 2.0 * cosArg)
  {
    hide Clenshaw;
    var alpha := 2.0 * cosArg;
    var p := |a| - 1;
    var hr, hr1 := a[p], 0.0;
    ClenshawLast(a, alpha);
    while p != 0
      invariant 0 <= p < |a|
      invariant hr == Clenshaw(a, alpha, p) && hr1 == Clenshaw(a, alpha, p + 1)
    {
      var hr2 := hr1;
      hr1 := hr;
      p := p - 1;
      ClenshawStepFrom(a, alpha, p, hr1, hr2, a[p]);
      hr := -hr2 + alpha * hr1 + a[p];
    }
    SineClenshaw(a, sinArg, alpha);
    r := sinArg * hr;
  }

  lemma ClenshawLast(a: seq<real>, alpha: real)
    requires |a| >= 1
    ensures Clenshaw(a, alpha, |a| - 1) == a[|a| - 1] && Clenshaw(a, alpha, |a|) == 0.0
  {
    assert alpha * 0.0 == 0.0;
  }

  // Gaussian latitude: B plus the series at 2B.  With a single coefficient the loop
  // body never runs and the accumulator keeps its initial zero.
  method Gatg(p1: seq<real>, b: real, sin2B: real, cos2B: real) returns (r: real)
    requires |p1| >= 1
    ensures |p1| >= 2 ==> r == b + SineSum(p1, sin2B, 2.0 * cos2B)
    ensures |p1| == 1 ==> r == b
  {
    hide Clenshaw;
    var alpha := 2.0 * cos2B;
    var p := |p1| - 1;
    var h, h1, h2 := 0.0, p1[p], 0.0;
    ClenshawLast(p1, alpha);
    while p != 0
      invariant 0 <= p < |p1|
      invariant h1 == Clenshaw(p1, alpha, p) && h2 == Clenshaw(p1, alpha, p + 1)
      invariant h == if p == |p1| - 1 then 0.0 else h1
    {
      p := p - 1;
      ClenshawStepFrom(p1, alpha, p, h1, h2, p1[p]);
      h := -h2 + alpha * h1 + p1[p];
      h2 := h1;
      h1 := h;
    }
    SineClenshaw(p1, sin2B, alpha);
    r := b + h * sin2B;
  }

  // ---------- complex sine series ----------

  datatype Complex = Complex(re: real, im: real)

  function CAdd(a: Complex, b: Complex): Complex {
    Complex(a.re + b.re, a.im + b.im)
  }

  function CSub(a: Complex, b: Complex): Complex {
    Complex(a.re - b.re, a.im - b.im)
  }

  function CMul(a: Complex, b: Complex): Complex {
    Complex(a.re * b.re - a.im * b.im, a.re * b.im + a.im * b.re)
  }

  function Real(x: real): Complex {
    Complex(x, 0.0)
  }

  function CNext(alpha: Complex, a: Complex, b: Complex): Complex {
    CSub(CMul(alpha, a), b)
  }

  function CSine(s: Complex, alpha: Complex, k: nat): Complex {
    if k == 0 then Real(0.0)
    else if k == 1 then s
    else CNext(alpha, CSine(s, alpha, k - 1), CSine(s, alpha, k - 2))
  }

  // the sum of a[k-1] * S_k for k > j
  function CSineSum(a: seq<real>, s: Complex, alpha: Complex, j: nat): Complex
    decreases |a| - j
  {
    if j >= |a| then Real(0.0)
    else CAdd(CMul(Real(a[j]), CSine(s, alpha, j + 1)), CSineSum(a, s, alpha, j + 1))
  }

  function CClenshaw(a: seq<real>, alpha: Complex, j: nat): Complex
    decreases if j < |a| then |a| - j else 0
  {
    if j >= |a| then Real(0.0)
    else CAdd(CNext(alpha, CClenshaw(a, alpha, j + 1), CClenshaw(a, alpha, j + 2)), Real(a[j]))
  }

  lemma CSubMul(a: Complex, b: Complex, c: Complex)
    ensures CMul(CSub(a, b), c) == CSub(CMul(a, c), CMul(b, c))
  {
  }

  lemma CAddMul(a: Complex, b: Complex, c: Complex)
    ensures CMul(CAdd(a, b), c) == CAdd(CMul(a, c), CMul(b, c))
  {
  }

  lemma CMulComm(a: Complex, b: Complex)
    ensures CMul(a, b) == CMul(b, a)
  {
  }

  lemma CMulAssoc(a: Complex, b: Complex, c: Complex)
    ensures CMul(CMul(a, b), c) == CMul(a, CMul(b, c))
  {
    var ab, bc := CMul(a, b), CMul(b, c);
    assert ab.re * c.re == a.re * b.re * c.re - a.im * b.im * c.re;
    assert ab.im * c.im == a.re * b.im * c.im + a.im * b.re * c.im;
    assert ab.re * c.im == a.re * b.re * c.im - a.im * b.im * c.im;
    assert ab.im * c.re == a.re * b.im * c.re + a.im * b.re * c.re;
    assert a.re * bc.re == a.re * b.re * c.re - a.re * b.im * c.im;
    assert a.im * bc.im == a.im * b.re * c.im + a.im * b.im * c.re;
    assert a.re * bc.im == a.re * b.re * c.im + a.re * b.im * c.re;
    assert a.im * bc.re == a.im * b.re * c.re - a.im * b.im * c.im;
  }

  // q r + (b1 (alpha q - p) - b2 q) = (alpha b1 - b2 + r) q - b1 p
  lemma CClenshawAlgebra(p: Complex, q: Complex, r: Complex, alpha: Complex, b1: Complex, b2: Complex)
    ensures CAdd(CMul(r, q), CSub(CMul(b1, CNext(alpha, q, p)), CMul(b2, q)))
         == CSub(CMul(CAdd(CNext(alpha, b1, b2), r), q), CMul(b1, p))
  {
    hide CMul;
    CMulComm(b1, CNext(alpha, q, p));
    CSubMul(CMul(alpha, q), p, b1);
    CMulComm(p, b1);
    CAddMul(CNext(alpha, b1, b2), r, q);
    CSubMul(CMul(alpha, b1), b2, q);
    CMulAssoc(alpha, b1, q);
    CMulAssoc(alpha, q, b1);
    CMulComm(b1, q);
  }

  lemma CZero(a: Complex, b: Complex)
    ensures CSub(CMul(Real(0.0), a), CMul(Real(0.0), b)) == Real(0.0)
  {
  }

  lemma {:induction false} CClenshawTail(a: seq<real>, s: Complex, alpha: Complex, j: nat)
    ensures CSineSum(a, s, alpha, j)
         == CSub(CMul(CClenshaw(a, alpha, j), CSine(s, alpha, j + 1)),
                 CMul(CClenshaw(a, alpha, j + 1), CSine(s, alpha, j)))
    decreases if j < |a| then |a| - j else 0
  {
    hide CMul, CAdd, CSub, CNext;
    if j >= |a| {
      CZero(CSine(s, alpha, j + 1), CSine(s, alpha, j));
    } else {
      CClenshawTail(a, s, alpha, j + 1);
      CClenshawAlgebra(CSine(s, alpha, j), CSine(s, alpha, j + 1), Real(a[j]), alpha,
        CClenshaw(a, alpha, j + 1), CClenshaw(a, alpha, j + 2));
    }
  }

  // The summation loop of clenS and its closing product.
  method ClenS(a: seq<real>, sinR: real, cosR: real, sinhI: real, coshI: real) returns (re: real, im: real)
    requires |a| >= 1
    ensures Complex(re, im)
         == CSineSum(a, Complex(sinR * coshI, cosR * sinhI), Complex(2.0 * cosR * coshI, -2.0 * sinR * sinhI), 0)
  {
    hide CClenshaw, CSineSum;
    var r, i := 2.0 * cosR * coshI, -2.0 * sinR * sinhI;
    ghost var alpha := Complex(r, i);
    var p := |a| - 1;
    var hr, hi, hr1, hi1 := a[p], 0.0, 0.0, 0.0;
    CClenshawLast(a, alpha);
    while p != 0
      invariant 0 <= p < |a|
      invariant Complex(hr, hi) == CClenshaw(a, alpha, p)
      invariant Complex(hr1, hi1) == CClenshaw(a, alpha, p + 1)
    {
      var hr2, hi2 := hr1, hi1;
      hr1, hi1 := hr, hi;
      p := p - 1;
      CClenshawStep(a, alpha, p, Complex(hr1, hi1), Complex(hr2, hi2));
      hr := -hr2 + r * hr1 - i * hi1 + a[p];
      hi := -hi2 + i * hr1 + r * hi1;
    }
    var s := Complex(sinR * coshI, cosR * sinhI);
    CClenshawEnd(a, s, alpha, Complex(hr, hi));
    re := s.re * hr - s.im * hi;
    im := s.re * hi + s.im * hr;
  }

  lemma CClenshawLast(a: seq<real>, alpha: Complex)
    requires |a| >= 1
    ensures CClenshaw(a, alpha, |a| - 1) == Real(a[|a| - 1]) && CClenshaw(a, alpha, |a|) == Real(0.0)
  {
  }

  lemma CClenshawStep(a: seq<real>, alpha: Complex, p: nat, b1: Complex, b2: Complex)
    requires p < |a| && b1 == CClenshaw(a, alpha, p + 1) && b2 == CClenshaw(a, alpha, p + 2)
    ensures CClenshaw(a, alpha, p)
         == Complex(-b2.re + alpha.re * b1.re - alpha.im * b1.im + a[p],
                    -b2.im + alpha.im * b1.re + alpha.re * b1.im)
  {
    hide CClenshaw;
    CClenshawUnfold(a, alpha, p);
    assert CNext(alpha, b1, b2)
        == Complex(alpha.re * b1.re - alpha.im * b1.im - b2.re, alpha.re * b1.im + alpha.im * b1.re - b2.im);
  }

  lemma CClenshawUnfold(a: seq<real>, alpha: Complex, p: nat)
    requires p < |a|
    ensures CClenshaw(a, alpha, p)
         == CAdd(CNext(alpha, CClenshaw(a, alpha, p + 1), CClenshaw(a, alpha, p + 2)), Real(a[p]))
  {
    hide CNext, CAdd;
  }

  lemma CClenshawEnd(a: seq<real>, s: Complex, alpha: Complex, h: Complex)
    requires h == CClenshaw(a, alpha, 0)
    ensures CSineSum(a, s, alpha, 0) == Complex(s.re * h.re - s.im * h.im, s.re * h.im + s.im * h.re)
  {
    CClenshawValue(a, s, alpha);
    hide CClenshaw, CSineSum;
  }

  lemma CClenshawValue(a: seq<real>, s: Complex, alpha: Complex)
    ensures CSineSum(a, s, alpha, 0) == CMul(s, CClenshaw(a, alpha, 0))
  {
    hide CMul, CClenshaw, CSineSum;
    CClenshawTail(a, s, alpha, 0);
    CMulComm(CClenshaw(a, alpha, 0), s);
    CMulZero(CClenshaw(a, alpha, 1));
    CSineStart(s, alpha);
  }

  lemma CSineStart(s: Complex, alpha: Complex)
    ensures CSine(s, alpha, 0) == Real(0.0) && CSine(s, alpha, 1) == s
  {
  }

  lemma CMulZero(b: Complex)
    ensures CMul(b, Real(0.0)) == Real(0.0)
  {
  }

  // With no imaginary part the complex sum is the real one.
  lemma {:induction false} RealSine(s: real, alpha: real, k: nat)
    ensures CSine(Real(s), Real(alpha), k) == Real(Sine(s, alpha, k))
  {
    if k >= 2 {
      RealSine(s, alpha, k - 1);
      RealSine(s, alpha, k - 2);
      hide CSine, Sine;
      SineStep(s, alpha, k - 2);
      CSineStep(Real(s), Real(alpha), k - 2);
    }
  }

  lemma CSineStep(s: Complex, alpha: Complex, k: nat)
    ensures CSine(s, alpha, k + 2) == CNext(alpha, CSine(s, alpha, k + 1), CSine(s, alpha, k))
  {
  }

  lemma {:induction false} RealSineSum(a: seq<real>, s: real, alpha: real, j: nat)
    ensures CSineSum(a, Real(s), Real(alpha), j) == Real(Tail(SineBasis(s, alpha), a, j))
    decreases |a| - j
  {
    if j < |a| {
      RealSineSum(a, s, alpha, j + 1);
      RealSine(s, alpha, j + 1);
    }
  }
}
