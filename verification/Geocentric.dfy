/** The geocentric datum transforms of pj_transform.c: three-parameter shifts and
    seven-parameter small rotations with scale, over strided coordinate arrays. */
module Geocentric {
  import opened Series
  import opened Strided

  datatype Vec = Vec(x: real, y: real, z: real)

  datatype Datum =
    | Other
    | Three(d: Vec)
    | Seven(d: Vec, r: Vec, m: real)

  function Add(a: Vec, b: Vec): Vec {
    Vec(a.x + b.x, a.y + b.y, a.z + b.z)
  }

  function Minus(a: Vec, b: Vec): Vec {
    Vec(a.x - b.x, a.y - b.y, a.z - b.z)
  }

  function Cross(r: Vec, p: Vec): Vec {
    Vec(r.y * p.z - r.z * p.y, r.z * p.x - r.x * p.z, r.x * p.y - r.y * p.x)
  }

  function Inner(a: Vec, b: Vec): real {
    a.x * b.x + a.y * b.y + a.z * b.z
  }

  // ---------- one point ----------

  function ToPoint(datum: Datum, p: Vec): Vec {
    match datum
    case Other => p
    case Three(d) => Add(p, d)
    case Seven(d, r, m) =>
      Vec(Times(m, p.x - Times(r.z, p.y) + Times(r.y, p.z)) + d.x,
          Times(m, Times(r.z, p.x) + p.y - Times(r.x, p.z)) + d.y,
          Times(m, Times(-r.y, p.x) + Times(r.x, p.y) + p.z) + d.z)
  }

  function FromPoint(datum: Datum, p: Vec): Vec
    requires datum.Seven? ==> datum.m != 0.0
  {
    match datum
    case Other => p
    case Three(d) => Minus(p, d)
    case Seven(d, r, m) =>
      var t := Vec((p.x - d.x) / m, (p.y - d.y) / m, (p.z - d.z) / m);
      Vec(t.x + Times(r.z, t.y) - Times(r.y, t.z),
          Times(-r.z, t.x) + t.y + Times(r.x, t.z),
          Times(r.y, t.x) - Times(r.x, t.y) + t.z)
  }

  // what a rotation by r and back leaves behind
  function Defect(datum: Datum, p: Vec): Vec {
    if datum.Seven? then Cross(datum.r, Cross(datum.r, p)) else Vec(0.0, 0.0, 0.0)
  }

  // Three parameters are seven without rotation and with scale 1.
  lemma ThreeIsSeven(d: Vec, p: Vec)
    ensures ToPoint(Three(d), p) == ToPoint(Seven(d, Vec(0.0, 0.0, 0.0), 1.0), p)
    ensures FromPoint(Three(d), p) == FromPoint(Seven(d, Vec(0.0, 0.0, 0.0), 1.0), p)
  {
  }

  // The shift is where the centre of the datum lies, the scale stretches what is seen from
  // there, and the rotation adds the cross product.
  lemma SevenMeaning(d: Vec, r: Vec, m: real, p: Vec)
    ensures var q := Add(p, Cross(r, p));
      ToPoint(Seven(d, r, m), p) == Add(d, Vec(Times(m, q.x), Times(m, q.y), Times(m, q.z)))
  {
    RotateBack(r, p, Cross(r, p), Add(p, Cross(r, p)));
  }

  lemma CentreShift(d: Vec, r: Vec, m: real)
    ensures ToPoint(Three(d), Vec(0.0, 0.0, 0.0)) == d
    ensures ToPoint(Seven(d, r, m), Vec(0.0, 0.0, 0.0)) == d
  {
    assert Times(m, 0.0) == 0.0;
  }

  lemma Unscale(m: real, a: real, d: real)
    requires m != 0.0
    ensures (Times(m, a) + d - d) / m == a
  {
  }

  // There and back is the point less its defect; exact for three parameters.
  lemma FromTo(datum: Datum, p: Vec)
    requires datum.Seven? ==> datum.m != 0.0
    ensures FromPoint(datum, ToPoint(datum, p)) == Minus(p, Defect(datum, p))
  {
    if datum.Seven? {
      var r := datum.r;
      Unscale(datum.m, p.x - Times(r.z, p.y) + Times(r.y, p.z), datum.d.x);
      Unscale(datum.m, Times(r.z, p.x) + p.y - Times(r.x, p.z), datum.d.y);
      Unscale(datum.m, Times(-r.y, p.x) + Times(r.x, p.y) + p.z, datum.d.z);
      hide Times;
      RotateBack(r, p, Cross(r, p), Add(p, Cross(r, p)));
    }
  }

  lemma RotateBack(r: Vec, p: Vec, c: Vec, t: Vec)
    requires c == Cross(r, p) && t == Add(p, c)
    ensures t == Vec(p.x - Times(r.z, p.y) + Times(r.y, p.z), Times(r.z, p.x) + p.y - Times(r.x, p.z),
                     Times(-r.y, p.x) + Times(r.x, p.y) + p.z)
    ensures Vec(t.x + Times(r.z, t.y) - Times(r.y, t.z), Times(-r.z, t.x) + t.y + Times(r.x, t.z),
                Times(r.y, t.x) - Times(r.x, t.y) + t.z)
         == Minus(p, Cross(r, c))
  {
    hide Times, Cross;
    TimesCross(r, p);
    TimesCross(r, c);
    Negate(r.y, p.x);
    Negate(r.z, t.x);
    Distribute(r.z, p.y, c.y);
    Distribute(r.y, p.z, c.z);
    Distribute(r.z, p.x, c.x);
    Distribute(r.x, p.z, c.z);
    Distribute(r.y, p.x, c.x);
    Distribute(r.x, p.y, c.y);
  }

  lemma Distribute(a: real, b: real, c: real)
    ensures Times(a, b + c) == Times(a, b) + Times(a, c)
  {
  }

  lemma Negate(a: real, b: real)
    ensures Times(-a, b) == -Times(a, b)
  {
  }

  lemma TimesCross(r: Vec, p: Vec)
    ensures Cross(r, p) == Vec(Times(r.y, p.z) - Times(r.z, p.y), Times(r.z, p.x) - Times(r.x, p.z),
                               Times(r.x, p.y) - Times(r.y, p.x))
  {
  }

  // |r x p|^2 = |r|^2 |p|^2 - (r.p)^2
  lemma Lagrange(r: Vec, p: Vec)
    ensures Inner(Cross(r, p), Cross(r, p)) == Inner(r, r) * Inner(p, p) - Inner(r, p) * Inner(r, p)
  {
    hide *;
    LagrangeNamed(r, p, r.y * p.z, r.z * p.y, r.z * p.x, r.x * p.z, r.x * p.y, r.y * p.x,
      r.x * p.x, r.y * p.y, r.z * p.z, Inner(Cross(r, p), Cross(r, p)), Inner(r, r) * Inner(p, p),
      Inner(r, p) * Inner(r, p));
  }

  lemma LagrangeNamed(r: Vec, p: Vec, a: real, b: real, c: real, d: real, e: real, f: real,
                      g: real, h: real, k: real, cross: real, norms: real, dot: real)
    requires a == r.y * p.z && b == r.z * p.y && c == r.z * p.x && d == r.x * p.z && e == r.x * p.y && f == r.y * p.x
    requires g == r.x * p.x && h == r.y * p.y && k == r.z * p.z
    requires cross == Inner(Cross(r, p), Cross(r, p))
    requires norms == Inner(r, r) * Inner(p, p) && dot == Inner(r, p) * Inner(r, p)
    ensures cross == norms - dot
  {
    hide *;
    CrossSquares(r, p, a - b, c - d, e - f);
    InnerSquare(r, p, g, h, k);
    MixedProducts(r, p, a, b, c, d, e, f, g, h, k);
    Expand(r, p, a, b, c, d, e, f, g, h, k);
    LagrangeSum(a, b, c, d, e, f, g, h, k, cross, norms, dot);
  }

  lemma LagrangeSum(a: real, b: real, c: real, d: real, e: real, f: real,
                    g: real, h: real, k: real, cross: real, norms: real, dot: real)
    requires cross == (a - b) * (a - b) + (c - d) * (c - d) + (e - f) * (e - f)
    requires a * b == h * k && c * d == g * k && e * f == g * h
    requires norms == (g * g + e * e + d * d) + (f * f + h * h + a * a) + (c * c + b * b + k * k)
    requires dot == (g * g + h * h + k * k) + 2.0 * (g * h) + 2.0 * (g * k) + 2.0 * (h * k)
    ensures cross == norms - dot
  {
    SquareDiff(a, b);
    SquareDiff(c, d);
    SquareDiff(e, f);
  }

  lemma MixedProducts(r: Vec, p: Vec, a: real, b: real, c: real, d: real, e: real, f: real,
                      g: real, h: real, k: real)
    requires a == r.y * p.z && b == r.z * p.y && c == r.z * p.x && d == r.x * p.z && e == r.x * p.y && f == r.y * p.x
    requires g == r.x * p.x && h == r.y * p.y && k == r.z * p.z
    ensures a * b == h * k && c * d == g * k && e * f == g * h
  {
  }

  lemma InnerSquare(r: Vec, p: Vec, g: real, h: real, k: real)
    requires g == r.x * p.x && h == r.y * p.y && k == r.z * p.z
    ensures Inner(r, p) * Inner(r, p)
         == (g * g + h * h + k * k) + 2.0 * (g * h) + 2.0 * (g * k) + 2.0 * (h * k)
  {
    SquareThree(g, h, k);
    var s := Inner(r, p);
    assert s == g + h + k;
  }

  lemma CrossSquares(r: Vec, p: Vec, x: real, y: real, z: real)
    requires x == r.y * p.z - r.z * p.y && y == r.z * p.x - r.x * p.z && z == r.x * p.y - r.y * p.x
    ensures Inner(Cross(r, p), Cross(r, p)) == x * x + y * y + z * z
  {
  }

  lemma SquareDiff(a: real, b: real)
    ensures (a - b) * (a - b) == a * a - 2.0 * (a * b) + b * b
  {
  }

  lemma SquareThree(g: real, h: real, k: real)
    ensures (g + h + k) * (g + h + k)
         == g * g + h * h + k * k + 2.0 * (g * h) + 2.0 * (g * k) + 2.0 * (h * k)
  {
  }

  lemma Expand(r: Vec, p: Vec, a: real, b: real, c: real, d: real, e: real, f: real, g: real, h: real, k: real)
    requires a == r.y * p.z && b == r.z * p.y && c == r.z * p.x && d == r.x * p.z && e == r.x * p.y && f == r.y * p.x
    requires g == r.x * p.x && h == r.y * p.y && k == r.z * p.z
    ensures Inner(r, r) * Inner(p, p)
         == (g * g + e * e + d * d) + (f * f + h * h + a * a) + (c * c + b * b + k * k)
  {
    var n := Inner(p, p);
    ExpandRow(r.x, p, n, g, e, d);
    ExpandRow(r.y, p, n, f, h, a);
    ExpandRow(r.z, p, n, c, b, k);
    assert Inner(r, r) * n == (r.x * r.x) * n + (r.y * r.y) * n + (r.z * r.z) * n;
  }

  lemma ExpandRow(s: real, p: Vec, n: real, x: real, y: real, z: real)
    requires n == Inner(p, p) && x == s * p.x && y == s * p.y && z == s * p.z
    ensures (s * s) * n == x * x + y * y + z * z
  {
    assert (s * s) * (p.x * p.x) == x * x;
    assert (s * s) * (p.y * p.y) == y * y;
    assert (s * s) * (p.z * p.z) == z * z;
    assert (s * s) * n == (s * s) * (p.x * p.x) + (s * s) * (p.y * p.y) + (s * s) * (p.z * p.z);
  }

  lemma InnerNonneg(a: Vec)
    ensures Inner(a, a) >= 0.0
  {
    assert a.x * a.x >= 0.0 && a.y * a.y >= 0.0 && a.z * a.z >= 0.0;
  }

  lemma CrossBound(r: Vec, p: Vec)
    ensures Inner(Cross(r, p), Cross(r, p)) <= Times(Inner(r, r), Inner(p, p))
  {
    hide Inner, Cross;
    Lagrange(r, p);
    var s := Inner(r, p);
    assert s * s >= 0.0;
  }

  // The squared error of the round trip is at most |r|^4 |p|^2.
  lemma DefectBound(r: Vec, p: Vec)
    ensures Inner(Cross(r, Cross(r, p)), Cross(r, Cross(r, p)))
         <= Times(Inner(r, r), Times(Inner(r, r), Inner(p, p)))
  {
    hide Inner, Cross, Times;
    CrossBound(r, Cross(r, p));
    CrossBound(r, p);
    InnerNonneg(r);
    TimesMonotone(Inner(r, r), Inner(Cross(r, p), Cross(r, p)), Times(Inner(r, r), Inner(p, p)));
  }

  // ---------- arrays ----------

  // the coordinates of the points
  datatype Points = Points(x: seq<Coord>, y: seq<Coord>, z: seq<Coord>)

  type PointMap = Vec -> Vec

  // only an x can be HUGE_VAL by itself
  ghost predicate Plain(p: Points) {
    |p.x| == |p.y| == |p.z| && forall k :: 0 <= k < |p.x| && p.x[k].Num? ==> p.y[k].Num? && p.z[k].Num?
  }

  function VecAt(p: Points, k: nat): Vec
    requires k < |p.x| && k < |p.y| && k < |p.z| && p.x[k].Num? && p.y[k].Num? && p.z[k].Num?
  {
    Vec(p.x[k].r, p.y[k].r, p.z[k].r)
  }

  // point k takes the value v
  function WithPoint(p: Points, k: nat, v: Vec): Points
    requires k < |p.x| == |p.y| == |p.z|
  {
    Points(p.x[k := Num(v.x)], p.y[k := Num(v.y)], p.z[k := Num(v.z)])
  }

  // the points after the map has been applied to the first i of them
  ghost predicate Mapped(f: PointMap, i: nat, p: Points, q: Points) {
    && Plain(p) && |q.x| == |q.y| == |q.z| == |p.x|
    && (forall k :: 0 <= k < |p.x| ==>
          if k < i && p.x[k].Num? then
            var v := f(VecAt(p, k));
            q.x[k] == Num(v.x) && q.y[k] == Num(v.y) && q.z[k] == Num(v.z)
          else
            q.x[k] == p.x[k] && q.y[k] == p.y[k] && q.z[k] == p.z[k])
  }

  lemma MappedStart(f: PointMap, p: Points)
    requires Plain(p)
    ensures Mapped(f, 0, p, p)
  {
  }

  // The next point is still as it was; if it is HUGE_VAL there is nothing to do.
  lemma MappedAhead(f: PointMap, i: nat, p: Points, q: Points)
    requires Mapped(f, i, p, q) && i < |p.x|
    ensures |q.x| == |q.y| == |q.z| == |p.x|
    ensures q.x[i] == p.x[i] && (q.x[i].Num? ==> q.y[i].Num? && q.z[i].Num?)
    ensures q.x[i].HugeVal? ==> Mapped(f, i + 1, p, q)
  {
  }

  lemma PointDone(f: PointMap, i: nat, p: Points, q: Points, q': Points, v: Vec)
    requires Mapped(f, i, p, q) && i < |p.x| == |q.x| == |q.y| == |q.z|
    requires q.x[i].Num? && q.y[i].Num? && q.z[i].Num? && v == f(VecAt(q, i)) && q' == WithPoint(q, i, v)
    ensures Mapped(f, i + 1, p, q')
  {
  }

  // Without a geocentric datum nothing is done.
  lemma MappedIdentity(i: nat, p: Points)
    requires Plain(p)
    ensures Mapped(v => ToPoint(Other, v), i, p, p)
    ensures Mapped(v => FromTotal(Other, v), i, p, p)
  {
  }

  // Every point has its three elements inside its buffers, and they are different ones.
  ghost predicate Layout(count: nat, offset: nat, x: Pointer, y: Pointer, z: Pointer) {
    && Fits(x, offset, count) && Fits(y, offset, count) && Fits(z, offset, count)
    && Apart(x, y, offset, count) && Apart(x, z, offset, count) && Apart(y, x, offset, count)
    && Apart(y, z, offset, count) && Apart(z, x, offset, count) && Apart(z, y, offset, count)
  }

  // Separate buffers are such a layout, and so is one buffer with three starts below the stride.
  lemma LayoutKinds(count: nat, offset: nat, x: Pointer, y: Pointer, z: Pointer)
    requires Fits(x, offset, count) && Fits(y, offset, count) && Fits(z, offset, count)
    requires || (x.data != y.data && x.data != z.data && y.data != z.data)
             || (x.base < offset && y.base < offset && z.base < offset
                 && x.base != y.base && x.base != z.base && y.base != z.base)
    ensures Layout(count, offset, x, y, z)
  {
    hide Apart, Fits;
    if x.base < offset && y.base < offset && z.base < offset
       && x.base != y.base && x.base != z.base && y.base != z.base {
      InterleavedApart(x, y, offset, count);
      InterleavedApart(x, z, offset, count);
      InterleavedApart(y, x, offset, count);
      InterleavedApart(y, z, offset, count);
      InterleavedApart(z, x, offset, count);
      InterleavedApart(z, y, offset, count);
    } else {
      SeparateApart(x, y, offset, count);
      SeparateApart(x, z, offset, count);
      SeparateApart(y, z, offset, count);
    }
  }

  ghost function Slots(count: nat, offset: nat, x: Pointer, y: Pointer, z: Pointer): Points
    requires Layout(count, offset, x, y, z)
    reads x.data, y.data, z.data
  {
    Points(Values(x, offset, count), Values(y, offset, count), Values(z, offset, count))
  }

  // All three coordinates of a point, in turn.
  method SetPoint(v: Vec, count: nat, offset: nat, i: nat, x: Pointer, y: Pointer, z: Pointer)
    requires Layout(count, offset, x, y, z) && i < count
    modifies x.data, y.data, z.data
    ensures Slots(count, offset, x, y, z) == WithPoint(old(Slots(count, offset, x, y, z)), i, v)
    ensures RestKept(x, y, z, offset, count)
  {
    hide Values, IsPoint, Fits, Apart;
    StoreAt(x, offset, count, i, Num(v.x), y, z);
    StoreAt(y, offset, count, i, Num(v.y), x, z);
    StoreAt(z, offset, count, i, Num(v.z), x, y);
  }

  // Each coordinate read and moved, in turn.
  method MovePoint(d: Vec, count: nat, offset: nat, i: nat, x: Pointer, y: Pointer, z: Pointer)
    requires Layout(count, offset, x, y, z) && i < count
    requires var p := Slots(count, offset, x, y, z); p.x[i].Num? && p.y[i].Num? && p.z[i].Num?
    modifies x.data, y.data, z.data
    ensures var p := old(Slots(count, offset, x, y, z));
      Slots(count, offset, x, y, z) == WithPoint(p, i, Add(VecAt(p, i), d))
    ensures RestKept(x, y, z, offset, count)
  {
    hide Values, IsPoint, Fits, Apart;
    var xi := Fetch(x, offset, count, i);
    StoreAt(x, offset, count, i, Num(xi.r + d.x), y, z);
    var yi := Fetch(y, offset, count, i);
    StoreAt(y, offset, count, i, Num(yi.r + d.y), x, z);
    var zi := Fetch(z, offset, count, i);
    StoreAt(z, offset, count, i, Num(zi.r + d.z), x, y);
  }

  lemma SevenTo(d: Vec, r: Vec, m: real, p: Vec)
    ensures ToPoint(Seven(d, r, m), p)
         == Vec(Times(m, p.x - Times(r.z, p.y) + Times(r.y, p.z)) + d.x,
                Times(m, Times(r.z, p.x) + p.y - Times(r.x, p.z)) + d.y,
                Times(m, Times(-r.y, p.x) + Times(r.x, p.y) + p.z) + d.z)
  {
    hide Times;
  }

  lemma SevenFrom(d: Vec, r: Vec, m: real, p: Vec)
    requires m != 0.0
    ensures var t := Vec((p.x - d.x) / m, (p.y - d.y) / m, (p.z - d.z) / m);
      FromTotal(Seven(d, r, m), p)
      == Vec(t.x + Times(r.z, t.y) - Times(r.y, t.z),
             Times(-r.z, t.x) + t.y + Times(r.x, t.z),
             Times(r.y, t.x) - Times(r.x, t.y) + t.z)
  {
    hide Times;
  }

  method ToWgs84(datum: Datum, count: nat, offset: nat, x: Pointer, y: Pointer, z: Pointer)
    requires Layout(count, offset, x, y, z) && Plain(Slots(count, offset, x, y, z))
    modifies x.data, y.data, z.data
    ensures Mapped(p => ToPoint(datum, p), count, old(Slots(count, offset, x, y, z)), Slots(count, offset, x, y, z))
    ensures RestKept(x, y, z, offset, count)
  {
    hide Mapped, Values, Plain, IsPoint, Fits, Apart;
    match datum {
      case Other =>
        MappedIdentity(count, Slots(count, offset, x, y, z));
      case Three(d) =>
        ToWgs84By3(d, count, offset, x, y, z);
      case Seven(d, r, m) =>
        ToWgs84By7(d, r, m, count, offset, x, y, z);
    }
  }

  method ToWgs84By3(d: Vec, count: nat, offset: nat, x: Pointer, y: Pointer, z: Pointer)
    requires Layout(count, offset, x, y, z) && Plain(Slots(count, offset, x, y, z))
    modifies x.data, y.data, z.data
    ensures Mapped(p => ToPoint(Three(d), p), count, old(Slots(count, offset, x, y, z)), Slots(count, offset, x, y, z))
    ensures RestKept(x, y, z, offset, count)
  {
    hide Mapped, Values, Plain, IsPoint, Fits, Apart;
    ghost var f: PointMap := p => ToPoint(Three(d), p);
    ghost var p := Slots(count, offset, x, y, z);
    MappedStart(f, p);
    var i := 0;
    while i < count
      invariant 0 <= i <= count
      invariant Mapped(f, i, p, Slots(count, offset, x, y, z))
      invariant RestKept(x, y, z, offset, count)
    {
      ghost var q := Slots(count, offset, x, y, z);
      MappedAhead(f, i, p, q);
      var xi := Fetch(x, offset, count, i);
      if xi.Num? {
        MovePoint(d, count, offset, i, x, y, z);
        PointDone(f, i, p, q, Slots(count, offset, x, y, z), f(VecAt(q, i)));
      }
      i := i + 1;
    }
  }

  method ToWgs84By7(d: Vec, r: Vec, m: real, count: nat, offset: nat, x: Pointer, y: Pointer, z: Pointer)
    requires Layout(count, offset, x, y, z) && Plain(Slots(count, offset, x, y, z))
    modifies x.data, y.data, z.data
    ensures Mapped(p => ToPoint(Seven(d, r, m), p), count, old(Slots(count, offset, x, y, z)), Slots(count, offset, x, y, z))
    ensures RestKept(x, y, z, offset, count)
  {
    hide Mapped, Values, Plain, IsPoint, Fits, Apart, ToPoint, Times;
    ghost var f: PointMap := p => ToPoint(Seven(d, r, m), p);
    ghost var p := Slots(count, offset, x, y, z);
    MappedStart(f, p);
    var i := 0;
    while i < count
      invariant 0 <= i <= count
      invariant Mapped(f, i, p, Slots(count, offset, x, y, z))
      invariant RestKept(x, y, z, offset, count)
    {
      ghost var q := Slots(count, offset, x, y, z);
      MappedAhead(f, i, p, q);
      var xi := Fetch(x, offset, count, i);
      if xi.Num? {
        var yi := Fetch(y, offset, count, i);
        var zi := Fetch(z, offset, count, i);
        var xOut := Times(m, xi.r - Times(r.z, yi.r) + Times(r.y, zi.r)) + d.x;
        var yOut := Times(m, Times(r.z, xi.r) + yi.r - Times(r.x, zi.r)) + d.y;
        var zOut := Times(m, Times(-r.y, xi.r) + Times(r.x, yi.r) + zi.r) + d.z;
        SetPoint(Vec(xOut, yOut, zOut), count, offset, i, x, y, z);
        SevenTo(d, r, m, VecAt(q, i));
        PointDone(f, i, p, q, Slots(count, offset, x, y, z), f(VecAt(q, i)));
      }
      i := i + 1;
    }
  }

  method FromWgs84(datum: Datum, count: nat, offset: nat, x: Pointer, y: Pointer, z: Pointer)
    requires Layout(count, offset, x, y, z) && Plain(Slots(count, offset, x, y, z))
    requires datum.Seven? ==> datum.m != 0.0
    modifies x.data, y.data, z.data
    ensures Mapped(p => FromTotal(datum, p), count, old(Slots(count, offset, x, y, z)), Slots(count, offset, x, y, z))
    ensures RestKept(x, y, z, offset, count)
  {
    hide Mapped, Values, Plain, IsPoint, Fits, Apart;
    match datum {
      case Other =>
        MappedIdentity(count, Slots(count, offset, x, y, z));
      case Three(d) =>
        FromWgs84By3(d, count, offset, x, y, z);
      case Seven(d, r, m) =>
        FromWgs84By7(d, r, m, count, offset, x, y, z);
    }
  }

  method FromWgs84By3(d: Vec, count: nat, offset: nat, x: Pointer, y: Pointer, z: Pointer)
    requires Layout(count, offset, x, y, z) && Plain(Slots(count, offset, x, y, z))
    modifies x.data, y.data, z.data
    ensures Mapped(p => FromTotal(Three(d), p), count, old(Slots(count, offset, x, y, z)), Slots(count, offset, x, y, z))
    ensures RestKept(x, y, z, offset, count)
  {
    hide Mapped, Values, Plain, IsPoint, Fits, Apart;
    ghost var f: PointMap := p => FromTotal(Three(d), p);
    ghost var p := Slots(count, offset, x, y, z);
    MappedStart(f, p);
    var i := 0;
    while i < count
      invariant 0 <= i <= count
      invariant Mapped(f, i, p, Slots(count, offset, x, y, z))
      invariant RestKept(x, y, z, offset, count)
    {
      ghost var q := Slots(count, offset, x, y, z);
      MappedAhead(f, i, p, q);
      var xi := Fetch(x, offset, count, i);
      if xi.Num? {
        MovePoint(Vec(-d.x, -d.y, -d.z), count, offset, i, x, y, z);
        PointDone(f, i, p, q, Slots(count, offset, x, y, z), f(VecAt(q, i)));
      }
      i := i + 1;
    }
  }

  method FromWgs84By7(d: Vec, r: Vec, m: real, count: nat, offset: nat, x: Pointer, y: Pointer, z: Pointer)
    requires Layout(count, offset, x, y, z) && Plain(Slots(count, offset, x, y, z)) && m != 0.0
    modifies x.data, y.data, z.data
    ensures Mapped(p => FromTotal(Seven(d, r, m), p), count, old(Slots(count, offset, x, y, z)), Slots(count, offset, x, y, z))
    ensures RestKept(x, y, z, offset, count)
  {
    hide Mapped, Values, Plain, IsPoint, Fits, Apart, FromTotal, Times;
    ghost var f: PointMap := p => FromTotal(Seven(d, r, m), p);
    ghost var p := Slots(count, offset, x, y, z);
    MappedStart(f, p);
    var i := 0;
    while i < count
      invariant 0 <= i <= count
      invariant Mapped(f, i, p, Slots(count, offset, x, y, z))
      invariant RestKept(x, y, z, offset, count)
    {
      ghost var q := Slots(count, offset, x, y, z);
      MappedAhead(f, i, p, q);
      var xi := Fetch(x, offset, count, i);
      if xi.Num? {
        var yi := Fetch(y, offset, count, i);
        var zi := Fetch(z, offset, count, i);
        var xTmp := (xi.r - d.x) / m;
        var yTmp := (yi.r - d.y) / m;
        var zTmp := (zi.r - d.z) / m;
        var xOut := xTmp + Times(r.z, yTmp) - Times(r.y, zTmp);
        var yOut := Times(-r.z, xTmp) + yTmp + Times(r.x, zTmp);
        var zOut := Times(r.y, xTmp) - Times(r.x, yTmp) + zTmp;
        SetPoint(Vec(xOut, yOut, zOut), count, offset, i, x, y, z);
        SevenFrom(d, r, m, VecAt(q, i));
        PointDone(f, i, p, q, Slots(count, offset, x, y, z), f(VecAt(q, i)));
      }
      i := i + 1;
    }
  }

  function FromTotal(datum: Datum, p: Vec): Vec {
    if datum.Seven? && datum.m == 0.0 then p else FromPoint(datum, p)
  }

  // To WGS 84 and back: each visited point loses its defect; every other element of the
  // buffers and every HUGE_VAL point is as it was.
  method RoundTrip(datum: Datum, count: nat, offset: nat, x: Pointer, y: Pointer, z: Pointer)
    requires Layout(count, offset, x, y, z) && Plain(Slots(count, offset, x, y, z))
    requires datum.Seven? ==> datum.m != 0.0
    modifies x.data, y.data, z.data
    ensures Mapped(p => Minus(p, Defect(datum, p)), count,
      old(Slots(count, offset, x, y, z)), Slots(count, offset, x, y, z))
    ensures !datum.Seven? ==> Slots(count, offset, x, y, z) == old(Slots(count, offset, x, y, z))
    ensures RestKept(x, y, z, offset, count)
  {
    hide ToPoint, FromPoint, Mapped, Values, Plain, IsPoint, Fits, Apart;
    ghost var p := Slots(count, offset, x, y, z);
    ToWgs84(datum, count, offset, x, y, z);
    ghost var q := Slots(count, offset, x, y, z);
    StaysPlain(v => ToPoint(datum, v), p, q);
    FromWgs84(datum, count, offset, x, y, z);
    Composed(datum, count, p, q, Slots(count, offset, x, y, z));
  }

  lemma StaysPlain(f: PointMap, p: Points, q: Points)
    requires Mapped(f, |p.x|, p, q)
    ensures Plain(q)
  {
  }

  lemma Composed(datum: Datum, i: nat, p: Points, q: Points, r: Points)
    requires datum.Seven? ==> datum.m != 0.0
    requires Mapped(v => ToPoint(datum, v), i, p, q)
    requires Mapped(v => FromTotal(datum, v), i, q, r)
    ensures Mapped(v => Minus(v, Defect(datum, v)), i, p, r)
    ensures !datum.Seven? ==> r == p
  {
    hide ToPoint, FromPoint;
    forall k: nat | k < |p.x| && k < i && p.x[k].Num?
      ensures var w := Minus(VecAt(p, k), Defect(datum, VecAt(p, k)));
        r.x[k] == Num(w.x) && r.y[k] == Num(w.y) && r.z[k] == Num(w.z)
    {
      FromTo(datum, VecAt(p, k));
    }
  }
}
