/** PJ_isea.c: binning points of the plane into hexagons by rounding cube
    coordinates, folding the boundary cells of a quad, and numbering the cells. */
module IseaHex {
  import opened Arith
  import opened Series

  // ---------- offset and cube coordinates ----------

  // C division by two, rounding toward zero
  function HalfToZero(n: int): int {
    if n >= 0 then n / 2 else -((-n) / 2)
  }

  // the row number of cube coordinate y in column x, and back
  function FlipY(x: int, y: int): int {
    if x >= 0 then -y - HalfToZero(x + 1) else -y - HalfToZero(x)
  }

  class Hex {
    var iso: bool
    var x: int
    var y: int
    var z: int

    constructor (iso: bool, x: int, y: int, z: int)
      ensures this.iso == iso && this.x == x && this.y == y && this.z == z
    {
      this.iso, this.x, this.y, this.z := iso, x, y, z;
    }

    // to offset form: only y changes
    method ToXy()
      modifies this
      ensures !iso && x == old(x) && z == old(z)
      ensures y == if old(iso) then FlipY(x, old(y)) else old(y)
    {
      if !iso {
        return;
      }
      if x >= 0 {
        y := -y - HalfToZero(x + 1);
      } else {
        y := -y - HalfToZero(x);
      }
      iso := false;
    }

    // to cube form: y is flipped back and z recomputed
    method ToIso()
      modifies this
      ensures iso && x == old(x)
      ensures y == if old(iso) then old(y) else FlipY(x, old(y))
      ensures z == if old(iso) then old(z) else -x - y
    {
      if iso {
        return;
      }
      if x >= 0 {
        y := -y - HalfToZero(x + 1);
      } else {
        y := -y - HalfToZero(x);
      }
      z := -x - y;
      iso := true;
    }

    // Offset form and back leaves a cube triple as it was.
    method ThereAndBack()
      requires iso && x + y + z == 0
      modifies this
      ensures iso && x == old(x) && y == old(y) && z == old(z)
    {
      ToXy();
      ToIso();
    }
  }

  // ---------- the nearest lattice point ----------

  datatype Cube = Cube(x: int, y: int, z: int)

  function Square(a: real): real {
    a * a
  }

  // squared distance from the point (x, y, -x-y) to a lattice triple
  function CubeDist(c: Cube, x: real, y: real, z: real): real {
    Square(c.x as real - x) + Square(c.y as real - y) + Square(c.z as real - z)
  }

  function Round(x: real): int {
    (x + 0.5).Floor
  }

  lemma RoundError(x: real)
    ensures -0.5 < Round(x) as real - x <= 0.5
  {
  }

  lemma UnitTimes(a: real, r: real)
    requires -1.0 <= a <= 1.0
    ensures -Abs(r) <= Times(a, r) <= Abs(r)
  {
    var t := Abs(r);
    MulNonneg(1.0 - a, t);
    MulNonneg(1.0 + a, t);
    assert (1.0 - a) * t == t - a * t && (1.0 + a) * t == t + a * t;
  }

  // half the squared length of the lattice step (k, l, -k-l)
  function StepForm(k: int, l: int): int {
    k * k + k * l + l * l
  }

  lemma SquareAtLeast(k: int)
    ensures k * k >= k && k * k >= -k
  {
    if k >= 1 {
      assert k * k >= 1 * k;
    } else if k <= -1 {
      assert (-k) * (-k) >= 1 * (-k);
    }
  }

  lemma StepFormSame(k: int, l: int)
    requires (k >= 0 && l >= 0) || (k <= 0 && l <= 0)
    ensures StepForm(k, l) >= k + l && StepForm(k, l) >= -k - l
  {
    SquareAtLeast(k);
    SquareAtLeast(l);
    assert k * l >= 0;
  }

  lemma StepFormSymmetric(k: int, l: int)
    ensures StepForm(l, k) == StepForm(-k, -l) == StepForm(-l, -k) == StepForm(k, l)
  {
    assert (-k) * (-k) == k * k && (-l) * (-l) == l * l && (-k) * (-l) == k * l == l * k;
  }

  lemma ProductAtLeast(k: int, g: int)
    requires k >= 0 && g >= 1
    ensures k * g >= k
  {
  }

  lemma StepFormMixed(k: int, l: int)
    requires k >= -l >= 1
    ensures StepForm(k, l) >= k && StepForm(l, k) >= k
    ensures StepForm(-k, -l) >= k && StepForm(-l, -k) >= k
  {
    StepFormSymmetric(k, l);
    SquareAtLeast(k);
    SquareAtLeast(l);
    var g := k + l;
    assert k * g == k * k + k * l;
    if g == 0 {
      assert k * g == 0;
    } else {
      ProductAtLeast(k, g);
    }
  }

  // two terms of opposite sign, |k| >= |l|
  lemma MixedTimes(a: real, b: real, k: real, l: real)
    requires -1.0 <= a <= 1.0 && -1.0 <= b <= 1.0 && -1.0 <= a - b <= 1.0
    requires k >= -l >= 0.0 || -k >= l >= 0.0
    ensures Times(a, k) + Times(b, l) >= -Abs(k)
  {
    hide Times;
    UnitTimes(a - b, -l);
    UnitTimes(a, k + l);
    MixedIdentity(a, b, k, l);
  }

  lemma MixedIdentity(a: real, b: real, k: real, l: real)
    ensures Times(a, k) + Times(b, l) == Times(a - b, -l) + Times(a, k + l)
  {
  }

  // An error with spread at most 1 cannot be shortened by any lattice step:
  // a.k + |k|^2/2 >= 0 in the plane x + y + z = 0.
  lemma SpreadBound(a: real, b: real, k: int, l: int)
    requires -1.0 <= a <= 1.0 && -1.0 <= b <= 1.0 && -1.0 <= a - b <= 1.0
    ensures Times(a, k as real) + Times(b, l as real) + (StepForm(k, l) as real) >= 0.0
  {
    hide Times, StepForm;
    if (k >= 0 && l >= 0) || (k <= 0 && l <= 0) {
      StepFormSame(k, l);
      UnitTimes(a, k as real);
      UnitTimes(b, l as real);
    } else if k >= -l >= 1 {
      StepFormMixed(k, l);
      MixedTimes(a, b, k as real, l as real);
    } else if -k >= l >= 1 {
      StepFormMixed(-k, -l);
      MixedTimes(a, b, k as real, l as real);
    } else if l >= -k >= 1 {
      StepFormMixed(l, k);
      MixedTimes(b, a, l as real, k as real);
    } else {
      StepFormMixed(-l, -k);
      MixedTimes(b, a, l as real, k as real);
    }
  }

  // A triple whose error has spread at most 1 is a nearest one.
  lemma SpreadNearest(c: Cube, d: Cube, x: real, y: real, z: real)
    requires c.x + c.y + c.z == 0 && d.x + d.y + d.z == 0 && x + y + z == 0.0
    requires -1.0 <= (c.x as real - x) - (c.z as real - z) <= 1.0
    requires -1.0 <= (c.y as real - y) - (c.z as real - z) <= 1.0
    requires -1.0 <= (c.x as real - x) - (c.y as real - y) <= 1.0
    ensures CubeDist(c, x, y, z) <= CubeDist(d, x, y, z)
  {
    hide Square, Times, StepForm;
    var ex, ey, ez := c.x as real - x, c.y as real - y, c.z as real - z;
    var k, l := d.x - c.x, d.y - c.y;
    var rk, rl := k as real, l as real;
    SpreadBound(ex - ez, ey - ez, k, l);
    assert d.x as real - x == ex + rk && d.y as real - y == ey + rl && d.z as real - z == ez - rk - rl;
    StepFormReal(k, l);
    DistanceGain(ex, ey, ez, rk, rl);
  }

  lemma StepFormReal(k: int, l: int)
    ensures StepForm(k, l) as real
         == Times(k as real, k as real) + Times(k as real, l as real) + Times(l as real, l as real)
  {
    ProductAsReal(k, k);
    ProductAsReal(k, l);
    ProductAsReal(l, l);
  }

  lemma DistanceGain(ex: real, ey: real, ez: real, k: real, l: real)
    ensures Square(ex + k) + Square(ey + l) + Square(ez - k - l)
         == Square(ex) + Square(ey) + Square(ez)
            + 2.0 * (Times(ex - ez, k) + Times(ey - ez, l) + (Times(k, k) + Times(k, l) + Times(l, l)))
  {
    SquareSum(ex, k);
    SquareSum(ey, l);
    SquareSum(ez, -k - l);
    assert ez * (-k - l) == -(ez * k) - ez * l;
    assert (ex - ez) * k == ex * k - ez * k;
    assert (ey - ez) * l == ey * l - ez * l;
    assert (-k - l) * (-k - l) == k * k + 2.0 * (k * l) + l * l;
  }

  lemma SquareSum(a: real, b: real)
    ensures Square(a + b) == Square(a) + 2.0 * (a * b) + b * b
    ensures Square(b) == b * b
  {
  }

  lemma ProductAsReal(k: int, l: int)
    ensures (k * l) as real == (k as real) * (l as real)
  {
  }

  // ---------- binning ----------

  // plane coordinates of a hexagon centre; c30 stands for cos 30 degrees
  function CentreX(i: int, width: real, c30: real): real {
    i as real * width * c30
  }

  function CentreY(i: int, y: int, width: real): real {
    (y as real + i as real / 2.0) * width
  }

  function PlaneDist(i: int, y: int, width: real, c30: real, px: real, py: real): real {
    Square(CentreX(i, width, c30) - px) + Square(CentreY(i, y, width) - py)
  }

  // a point between the two pairs of edges of a quad that is side hexagons wide
  ghost predicate PointInside(x: real, z: real, side: nat) {
    0.0 <= x <= side as real && -(side as real) <= z <= 0.0
  }

  // a hexagon of the closed quad
  ghost predicate HexInside(x: int, y: int, side: nat) {
    0 <= x <= side && 0 <= y <= side
  }

  // each coordinate rounded, and the one with the largest error repaired
  function RoundedCube(x: real, y: real, z: real): Cube {
    var ix, iy, iz := Round(x), Round(y), Round(z);
    var s := ix + iy + iz;
    var dx, dy, dz := Abs(ix as real - x), Abs(iy as real - y), Abs(iz as real - z);
    if s == 0 then Cube(ix, iy, iz)
    else if dx >= dy && dx >= dz then Cube(ix - s, iy, iz)
    else if dy >= dx && dy >= dz then Cube(ix, iy - s, iz)
    else Cube(ix, iy, iz - s)
  }

  lemma RoundedSum(x: real, y: real, z: real)
    requires x + y + z == 0.0
    ensures -1 <= Round(x) + Round(y) + Round(z) <= 1
  {
    RoundError(x);
    RoundError(y);
    RoundError(z);
    var s := Round(x) + Round(y) + Round(z);
    assert -1.5 < s as real <= 1.5;
  }

  lemma RoundedSpread(x: real, y: real, z: real)
    requires x + y + z == 0.0
    ensures var c := RoundedCube(x, y, z);
      && c.x + c.y + c.z == 0
      && -1.0 <= (c.x as real - x) - (c.z as real - z) <= 1.0
      && -1.0 <= (c.y as real - y) - (c.z as real - z) <= 1.0
      && -1.0 <= (c.x as real - x) - (c.y as real - y) <= 1.0
  {
    hide Round;
    RoundedSum(x, y, z);
    RoundError(x);
    RoundError(y);
    RoundError(z);
  }

  lemma RoundedNearest(x: real, y: real, z: real)
    requires x + y + z == 0.0
    ensures var c := RoundedCube(x, y, z);
      && c.x + c.y + c.z == 0
      && forall d: Cube :: d.x + d.y + d.z == 0 ==> CubeDist(c, x, y, z) <= CubeDist(d, x, y, z)
  {
    hide CubeDist, RoundedCube;
    RoundedSpread(x, y, z);
    forall d: Cube | d.x + d.y + d.z == 0
      ensures CubeDist(RoundedCube(x, y, z), x, y, z) <= CubeDist(d, x, y, z)
    {
      SpreadNearest(RoundedCube(x, y, z), d, x, y, z);
    }
  }

  // A repaired coordinate moves towards its value, so it does not leave the quad.
  lemma RoundedInside(x: real, y: real, z: real, side: nat)
    requires x + y + z == 0.0 && PointInside(x, z, side)
    ensures HexInside(RoundedCube(x, y, z).x, -RoundedCube(x, y, z).z, side)
  {
    hide Round;
    RoundedSum(x, y, z);
    RoundError(x);
    RoundError(y);
    RoundError(z);
  }

  lemma RoundedInsideAll(x: real, y: real, z: real)
    requires x + y + z == 0.0
    ensures var c := RoundedCube(x, y, z);
      forall side: nat :: PointInside(x, z, side) ==> HexInside(c.x, -c.z, side)
  {
    hide PointInside, HexInside, RoundedCube;
    forall side: nat | PointInside(x, z, side)
      ensures HexInside(RoundedCube(x, y, z).x, -RoundedCube(x, y, z).z, side)
    {
      RoundedInside(x, y, z, side);
    }
  }

  // The code's rounding: a nearest lattice triple, inside every quad the point is in.
  method CubeRound(x: real, y: real, z: real) returns (c: Cube)
    requires x + y + z == 0.0
    ensures c.x + c.y + c.z == 0
    ensures forall d: Cube :: d.x + d.y + d.z == 0 ==> CubeDist(c, x, y, z) <= CubeDist(d, x, y, z)
    ensures forall side: nat :: PointInside(x, z, side) ==> HexInside(c.x, -c.z, side)
  {
    hide CubeDist, PointInside, HexInside, Round, Abs;
    var ix, iy, iz := Round(x), Round(y), Round(z);
    var s := ix + iy + iz;
    if s != 0 {
      var dx, dy, dz := Abs(ix as real - x), Abs(iy as real - y), Abs(iz as real - z);
      if dx >= dy && dx >= dz {
        ix := ix - s;
      } else if dy >= dx && dy >= dz {
        iy := iy - s;
      } else {
        iz := iz - s;
      }
    }
    c := Cube(ix, iy, iz);
    assert c == RoundedCube(x, y, z);
    RoundedNearest(x, y, z);
    RoundedInsideAll(x, y, z);
  }

  // The plane distance is the cube distance up to the factor width^2 / 2.
  lemma PlaneIsCube(i: int, y: int, width: real, c30: real, px: real, py: real, cx: real, cy: real)
    requires width > 0.0 && c30 * c30 == 0.75
    requires px == cx * width * c30 && py == (cy + cx / 2.0) * width
    ensures PlaneDist(i, y, width, c30, px, py)
         == 0.5 * (width * width) * CubeDist(Cube(i, y, -i - y), cx, cy, -cx - cy)
  {
    var a, b := i as real - cx, y as real - cy;
    assert CentreX(i, width, c30) - px == a * width * c30;
    assert CentreY(i, y, width) - py == (b + a / 2.0) * width;
    PlaneAlgebra(a, b, width, c30);
    assert (-i - y) as real - (-cx - cy) == -a - b;
  }

  lemma PlaneAlgebra(a: real, b: real, w: real, c: real)
    requires c * c == 0.75
    ensures Square(a * w * c) + Square((b + a / 2.0) * w)
         == 0.5 * (w * w) * (Square(a) + Square(b) + Square(-a - b))
  {
    var aa, bb, ab, ww := a * a, b * b, a * b, w * w;
    assert Square(a * w * c) == 0.75 * (aa * ww) by {
      assert (a * w * c) * (a * w * c) == (aa * ww) * (c * c);
    }
    assert Square((b + a / 2.0) * w) == (bb + ab + aa / 4.0) * ww by {
      assert (b + a / 2.0) * (b + a / 2.0) == bb + ab + aa / 4.0;
      assert ((b + a / 2.0) * w) * ((b + a / 2.0) * w) == ((b + a / 2.0) * (b + a / 2.0)) * ww;
    }
    assert Square(-a - b) == aa + 2.0 * ab + bb;
    assert (bb + ab + aa / 4.0) * ww == bb * ww + ab * ww + (aa * ww) / 4.0;
    assert 0.5 * ww * (aa + bb + (aa + 2.0 * ab + bb)) == (aa + bb + ab) * ww;
    assert (aa + bb + ab) * ww == aa * ww + bb * ww + ab * ww;
  }

  // two of the three coordinates of a plane point
  function CubeX(width: real, x: real, c30: real): real
    requires width > 0.0 && c30 > 0.0
  {
    x / c30 / width
  }

  function CubeZ(width: real, x: real, y: real, c30: real): real
    requires width > 0.0 && c30 > 0.0
  {
    -(x / c30 / width) - (y - (x / c30) / 2.0) / width
  }

  // The hexagon of a point: column i, row j.  No other hexagon centre is nearer.
  method HexBin2(width: real, x: real, y: real, c30: real) returns (i: int, j: int, code: int)
    requires width > 0.0 && c30 > 0.0 && c30 * c30 == 0.75
    ensures forall k, l ::
      PlaneDist(i, FlipY(i, j), width, c30, x, y) <= PlaneDist(k, l, width, c30, x, y)
    ensures code == i * 100 + FlipY(i, j)
    ensures forall side: nat ::
      PointInside(CubeX(width, x, c30), CubeZ(width, x, y, c30), side) ==> HexInside(i, i + FlipY(i, j), side)
  {
    hide PlaneDist, CubeDist, PointInside, HexInside;
    var rx := x / c30;
    var ry := y - rx / 2.0;
    rx := rx / width;
    ry := ry / width;
    var rz := -rx - ry;
    var c := CubeRound(rx, ry, rz);
    PlaneUnscale(x, y, width, c30, rx, ry);
    var h := new Hex(true, c.x, c.y, c.z);
    h.ToXy();
    i, j := h.x, h.y;
    forall k, l
      ensures PlaneDist(c.x, c.y, width, c30, x, y) <= PlaneDist(k, l, width, c30, x, y)
    {
      NearerInPlane(c, Cube(k, l, -k - l), width, c30, x, y, rx, ry, rz);
    }
    return i, j, c.x * 100 + c.y;
  }

  // Nearer among the triples is nearer in the plane.
  lemma NearerInPlane(c: Cube, d: Cube, width: real, c30: real, x: real, y: real, rx: real, ry: real, rz: real)
    requires width > 0.0 && c30 * c30 == 0.75 && rz == -rx - ry
    requires x == rx * width * c30 && y == (ry + rx / 2.0) * width
    requires c.x + c.y + c.z == 0 && d.x + d.y + d.z == 0 && CubeDist(c, rx, ry, rz) <= CubeDist(d, rx, ry, rz)
    ensures PlaneDist(c.x, c.y, width, c30, x, y) <= PlaneDist(d.x, d.y, width, c30, x, y)
  {
    hide PlaneDist, CubeDist;
    PlaneIsCube(c.x, c.y, width, c30, x, y, rx, ry);
    PlaneIsCube(d.x, d.y, width, c30, x, y, rx, ry);
    assert c == Cube(c.x, c.y, -c.x - c.y) && d == Cube(d.x, d.y, -d.x - d.y);
    ScaleOrder(width, CubeDist(c, rx, ry, rz), CubeDist(d, rx, ry, rz));
  }

  lemma ScaleOrder(w: real, p: real, q: real)
    requires p <= q
    ensures 0.5 * (w * w) * p <= 0.5 * (w * w) * q
  {
    assert w * w >= 0.0;
    MulNonneg(w * w, q - p);
    assert (w * w) * (q - p) == (w * w) * q - (w * w) * p;
  }

  lemma PlaneUnscale(x: real, y: real, width: real, c30: real, rx: real, ry: real)
    requires width > 0.0 && c30 > 0.0
    requires rx == x / c30 / width && ry == (y - (x / c30) / 2.0) / width
    ensures x == rx * width * c30 && y == (ry + rx / 2.0) * width
  {
    var q := x / c30;
    assert rx * width == q && q * c30 == x;
    assert ry * width == y - q / 2.0;
    assert (ry + rx / 2.0) * width == ry * width + (rx * width) / 2.0;
  }

  // ---------- quads and serial numbers ----------

  // An address on the icosahedron: quads 1 to 10 hold side * side cells each,
  // quads 0 and 11 are the two poles.
  datatype Cell = Cell(quad: int, x: int, y: int)

  predicate Canonical(c: Cell, side: nat) {
    || (c.quad == 0 && c.x == c.y == 0)
    || (c.quad == 11 && c.x == c.y == 0)
    || (1 <= c.quad <= 10 && 0 <= c.x < side && 0 <= c.y < side)
  }

  function IntPow(b: nat, n: nat): nat {
    if n == 0 then 1 else b * IntPow(b, n - 1)
  }

  // cells along one side of a quad: the square root of aperture^resolution
  function Side(aperture: nat, resolution: nat): nat
    requires aperture == 4 || (aperture == 3 && resolution % 2 == 0)
  {
    if aperture == 4 then IntPow(2, resolution) else IntPow(3, resolution / 2)
  }

  function Hexes(aperture: nat, resolution: nat): nat {
    IntPow(aperture, resolution)
  }

  lemma {:induction false} PowSquare(b: nat, n: nat)
    ensures IntPow(b, n) * IntPow(b, n) == IntPow(b * b, n)
  {
    if n > 0 {
      PowSquare(b, n - 1);
      SquareProduct(b, IntPow(b, n - 1));
    }
  }

  lemma {:induction false} PowDouble(b: nat, n: nat)
    ensures IntPow(b * b, n) == IntPow(b, 2 * n)
  {
    if n > 0 {
      PowDouble(b, n - 1);
      TwoFactors(b, IntPow(b, 2 * n - 2));
      assert IntPow(b, 2 * n) == b * IntPow(b, 2 * n - 1);
      assert IntPow(b, 2 * n - 1) == b * IntPow(b, 2 * n - 2);
    }
  }

  lemma SquareProduct(b: int, p: int)
    ensures (b * p) * (b * p) == (b * b) * (p * p)
  {
  }

  lemma TwoFactors(b: int, p: int)
    ensures b * (b * p) == (b * b) * p
  {
  }

  lemma {:induction false} PowPositive(b: nat, n: nat)
    requires b >= 1
    ensures IntPow(b, n) >= 1
  {
    if n > 0 {
      PowPositive(b, n - 1);
    }
  }

  lemma SideSquared(aperture: nat, resolution: nat)
    requires aperture == 4 || (aperture == 3 && resolution % 2 == 0)
    ensures Side(aperture, resolution) * Side(aperture, resolution) == Hexes(aperture, resolution)
    ensures Side(aperture, resolution) >= 1 && Hexes(aperture, resolution) >= 1
  {
    if aperture == 4 {
      PowSquare(2, resolution);
      PowPositive(2, resolution);
      PowPositive(4, resolution);
    } else {
      PowSquare(3, resolution / 2);
      PowDouble(3, resolution / 2);
      PowPositive(3, resolution / 2);
      PowPositive(3, resolution);
    }
  }

  // the running number of an address: the poles are first and last
  function Serial(c: Cell, side: nat, hexes: nat): int {
    if c.quad == 0 then 1
    else if c.quad == 11 then 1 + 10 * hexes + 1
    else (c.quad - 1) * hexes + side * c.x + c.y + 2
  }

  // the cell with a given number
  function Locate(sn: int, side: nat, hexes: nat): Cell
    requires side >= 1 && hexes >= 1
  {
    if sn == 1 then Cell(0, 0, 0)
    else if sn == 10 * hexes + 2 then Cell(11, 0, 0)
    else
      var n := sn - 2;
      Cell(n / hexes + 1, n % hexes / side, n % hexes % side)
  }

  lemma CellRange(side: nat, x: nat, y: nat)
    requires x < side && y < side
    ensures 0 <= side * x + y < side * side
  {
    assert side * x <= side * (side - 1);
    assert side * (side - 1) == side * side - side;
  }

  lemma QuadRange(q: int, hexes: nat)
    requires 0 <= q <= 9
    ensures 0 <= q * hexes <= 9 * hexes
  {
  }

  // Every canonical cell has a number in range, from which it is recovered.
  lemma SerialLocate(c: Cell, side: nat, hexes: nat)
    requires side >= 1 && hexes >= 1 && hexes == side * side && Canonical(c, side)
    ensures 1 <= Serial(c, side, hexes) <= 10 * hexes + 2
    ensures Locate(Serial(c, side, hexes), side, hexes) == c
  {
    if 1 <= c.quad <= 10 {
      CellNumber(c.quad, c.x, c.y, side, hexes);
    }
  }

  lemma CellNumber(q: int, x: nat, y: nat, side: nat, hexes: nat)
    requires side >= 1 && hexes >= 1 && hexes == side * side
    requires 1 <= q <= 10 && x < side && y < side
    ensures 2 <= Serial(Cell(q, x, y), side, hexes) < 10 * hexes + 2
    ensures Locate(Serial(Cell(q, x, y), side, hexes), side, hexes) == Cell(q, x, y)
  {
    hide Serial, Locate;
    CellRange(side, x, y);
    QuadRange(q - 1, hexes);
    var n, r := (q - 1) * hexes + (side * x + y), side * x + y;
    DivideUnique(n, hexes, q - 1, r);
    SideTimes(side, x);
    DivideUnique(r, side, x, y);
    SerialOf(Cell(q, x, y), side, hexes, n);
    LocateOf(n + 2, side, hexes, q - 1, r, x, y);
  }

  lemma SerialOf(c: Cell, side: nat, hexes: nat, n: int)
    requires 1 <= c.quad <= 10 && n == (c.quad - 1) * hexes + (side * c.x + c.y)
    ensures Serial(c, side, hexes) == n + 2
  {
  }

  lemma LocateOf(sn: int, side: nat, hexes: nat, q: int, r: int, x: int, y: int)
    requires side >= 1 && hexes >= 1 && 1 < sn < 10 * hexes + 2
    requires (sn - 2) / hexes == q && (sn - 2) % hexes == r && r / side == x && r % side == y
    ensures Locate(sn, side, hexes) == Cell(q + 1, x, y)
  {
  }

  lemma SideTimes(a: int, b: int)
    ensures a * b == b * a
  {
  }

  // the quotient of a number below m * d is below m
  lemma DivBelow(n: nat, d: nat, m: nat)
    requires d >= 1 && n < m * d
    ensures 0 <= n / d < m
    ensures n == n / d * d + n % d
  {
  }

  // Every number in range is that of a canonical cell.
  lemma LocateSerial(sn: int, side: nat, hexes: nat)
    requires side >= 1 && hexes >= 1 && hexes == side * side && 1 <= sn <= 10 * hexes + 2
    ensures Canonical(Locate(sn, side, hexes), side)
    ensures Serial(Locate(sn, side, hexes), side, hexes) == sn
  {
    if 1 < sn < 10 * hexes + 2 {
      DivBelow(sn - 2, hexes, 10);
      var r := (sn - 2) % hexes;
      DivBelow(r, side, side);
      SideTimes(side, r / side);
    }
  }

  // The numbering is a bijection from canonical cells onto 1 .. 10 * hexes + 2.
  lemma SerialBijective(aperture: nat, resolution: nat)
    requires aperture == 4 || (aperture == 3 && resolution % 2 == 0)
    ensures var side, hexes := Side(aperture, resolution), Hexes(aperture, resolution);
      && (forall c: Cell :: Canonical(c, side) ==> 1 <= Serial(c, side, hexes) <= 10 * hexes + 2)
      && (forall c: Cell, d: Cell ::
            (Canonical(c, side) && Canonical(d, side) && Serial(c, side, hexes) == Serial(d, side, hexes)) ==> c == d)
      && side >= 1 && hexes >= 1
      && (forall sn :: 1 <= sn <= 10 * hexes + 2 ==>
            Canonical(Locate(sn, side, hexes), side) && Serial(Locate(sn, side, hexes), side, hexes) == sn)
  {
    var side, hexes := Side(aperture, resolution), Hexes(aperture, resolution);
    SideSquared(aperture, resolution);
    hide Serial, Canonical, Side, Hexes, Locate;
    forall c: Cell | Canonical(c, side)
      ensures 1 <= Serial(c, side, hexes) <= 10 * hexes + 2
      ensures Locate(Serial(c, side, hexes), side, hexes) == c
    {
      SerialLocate(c, side, hexes);
    }
    forall sn | 1 <= sn <= 10 * hexes + 2
      ensures Canonical(Locate(sn, side, hexes), side) && Serial(Locate(sn, side, hexes), side, hexes) == sn
    {
      LocateSerial(sn, side, hexes);
    }
  }

  // The numbers rise with the quad, in it with the column, and in that with the row; the two
  // poles come first and last.
  lemma SerialOrder(c: Cell, d: Cell, side: nat, hexes: nat)
    requires side * side == hexes && side >= 1 && Canonical(c, side) && Canonical(d, side)
    ensures c.quad < d.quad || (c.quad == d.quad && (c.x < d.x || (c.x == d.x && c.y < d.y)))
      ==> Serial(c, side, hexes) < Serial(d, side, hexes)
    ensures Serial(Cell(0, 0, 0), side, hexes) == 1
    ensures Serial(Cell(1, 0, 0), side, hexes) == 2
    ensures Serial(Cell(11, 0, 0), side, hexes) == 10 * hexes + 2
  {
    hide Serial, QuadStart, PlaceInQuad;
    SerialForm(c, side, hexes);
    SerialForm(d, side, hexes);
    SerialForm(Cell(1, 0, 0), side, hexes);
    PoleSerials(side, hexes);
    WithinBelow(c, side);
    WithinBelow(d, side);
    BeforeOrder(c.quad, d.quad, hexes);
    if c.quad == d.quad {
      WithinOrder(c, d, side);
    }
  }

  // how many cells the quads before this one have, and which cell of its quad this one is
  function QuadStart(quad: int, hexes: nat): int {
    (quad - 1) * hexes
  }

  function PlaceInQuad(c: Cell, side: nat): int {
    side * c.x + c.y
  }

  lemma SerialForm(c: Cell, side: nat, hexes: nat)
    requires Canonical(c, side)
    ensures 1 <= c.quad <= 10 ==> Serial(c, side, hexes) == QuadStart(c.quad, hexes) + PlaceInQuad(c, side) + 2
    ensures c == Cell(1, 0, 0) ==> Serial(c, side, hexes) == 2
  {
  }

  lemma PoleSerials(side: nat, hexes: nat)
    ensures Serial(Cell(0, 0, 0), side, hexes) == 1
    ensures Serial(Cell(11, 0, 0), side, hexes) == 10 * hexes + 2
  {
  }

  lemma WithinBelow(c: Cell, side: nat)
    requires Canonical(c, side) && side >= 1
    ensures 1 <= c.quad <= 10 ==> 0 <= PlaceInQuad(c, side) < side * side
  {
    if 1 <= c.quad <= 10 {
      CellRange(side, c.x, c.y);
    }
  }

  lemma WithinOrder(c: Cell, d: Cell, side: nat)
    requires Canonical(c, side) && Canonical(d, side) && c.quad == d.quad
    ensures 1 <= c.quad <= 10 && (c.x < d.x || (c.x == d.x && c.y < d.y)) ==> PlaceInQuad(c, side) < PlaceInQuad(d, side)
  {
    if 1 <= c.quad <= 10 && c.x < d.x {
      ColumnBelow(side, c.x, c.y, d.x);
    }
  }

  lemma ColumnBelow(side: nat, x: int, y: int, u: int)
    requires 0 <= y < side && x < u
    ensures side * x + y < side * u
  {
    assert side * (x + 1) <= side * u;
    assert side * (x + 1) == side * x + side;
  }

  lemma BeforeOrder(p: int, q: int, hexes: nat)
    ensures 1 <= p < q ==> QuadStart(p, hexes) + hexes <= QuadStart(q, hexes)
    ensures 1 <= p <= 10 ==> 0 <= QuadStart(p, hexes) <= 9 * hexes
    ensures 1 <= q <= 10 ==> 0 <= QuadStart(q, hexes) <= 9 * hexes
  {
    if 1 <= p < q {
      NextQuad(p - 1, q - 1, hexes);
    }
    if 1 <= p <= 10 {
      QuadRange(p - 1, hexes);
    }
    if 1 <= q <= 10 {
      QuadRange(q - 1, hexes);
    }
  }

  lemma NextQuad(p: nat, q: nat, hexes: nat)
    requires p < q
    ensures p * hexes + hexes <= q * hexes
  {
    assert (p + 1) * hexes <= q * hexes;
    assert (p + 1) * hexes == p * hexes + hexes;
  }

  // the quad to the east, within each ring of five
  function East(quad: int): int {
    if quad == 5 then 1 else if quad == 10 then 6 else quad + 1
  }

  // Where a cell at (x, y) of the closed quad goes: the top edge of quads 1-5 to the left
  // edge of the next quad, their right edge to the left edge of the quad below.
  function Folded(quad: int, x: int, y: int, side: int): Cell {
    if quad <= 5 then
      if x == 0 && y == side then Cell(0, 0, 0)
      else if y == side then Cell(East(quad), 0, side - x)
      else if x == side then Cell(quad + 5, 0, y)
      else Cell(quad, x, y)
    else
      if x == side && y == 0 then Cell(11, 0, 0)
      else if x == side then Cell(East(quad), y, y)
      else if x - y == side then Cell(quad - 4, x, x)
      else Cell(quad, x, y)
  }

  // The range of addresses is kept, always for quads 1-5 and off the top edge for 6-10.
  lemma FoldedCanonical(quad: int, x: int, y: int, side: nat)
    requires 1 <= quad <= 10 && side >= 1 && 0 <= x <= side && 0 <= y <= side
    ensures Canonical(Folded(quad, x, y, side), side) <==> quad <= 5 || y != side
    ensures x < side && y < side ==> Folded(quad, x, y, side) == Cell(quad, x, y)
  {
  }

  // the quad above the top edge of a quad 6-10
  function Above(quad: int): int {
    if quad == 10 then 1 else quad - 4
  }

  // The hexagon at (x, y) of a closed quad, named by the quad that owns it: each edge
  // cell belongs to the quad for which it lies on the left or the bottom edge.
  function Owner(quad: int, x: int, y: int, side: int): Cell {
    if quad <= 5 then
      if x == 0 && y == side then Cell(0, 0, 0)
      else if y == side then Cell(East(quad), 0, side - x)
      else if x == side then Cell(quad + 5, 0, y)
      else Cell(quad, x, y)
    else
      if x == side && y == 0 then Cell(11, 0, 0)
      else if x == side && y == side then Cell(East(quad), 0, 0)
      else if x == side then Cell(East(quad), side - y, 0)
      else if y == side then Cell(Above(quad), x, 0)
      else Cell(quad, x, y)
  }

  // Every hexagon has one owner: a canonical name that both quads at a shared edge give
  // it, and that is its own name inside a quad.
  lemma OwnerConsistent(quad: int, k: int, x: int, y: int, side: nat)
    requires 1 <= quad <= 10 && side >= 1 && 0 <= k <= side && 0 <= x <= side && 0 <= y <= side
    ensures Canonical(Owner(quad, x, y, side), side)
    ensures Canonical(Cell(quad, x, y), side) ==> Owner(quad, x, y, side) == Cell(quad, x, y)
    ensures quad <= 5 ==>
      && Owner(quad, side - k, side, side) == Owner(East(quad), 0, k, side)
      && Owner(quad, side, k, side) == Owner(quad + 5, 0, k, side)
    ensures quad >= 6 ==>
      && Owner(quad, side, k, side) == Owner(East(quad), side - k, 0, side)
      && Owner(quad, k, side, side) == Owner(Above(quad), k, 0, side)
  {
  }

  // The name carries the range of an address, and no hexagon strictly inside a quad,
  // other than this one, is folded to it.
  ghost predicate Own(quad: int, x: int, y: int, side: nat) {
    && Canonical(Folded(quad, x, y, side), side)
    && forall q, u, v | 1 <= q <= 10 && 0 < u < side && 0 < v < side ::
         Folded(q, u, v, side) == Folded(quad, x, y, side) ==> q == quad && u == x && v == y
  }

  // the cells of a closed quad that folding treats right
  predicate WellFolded(quad: int, x: int, y: int, side: nat) {
    quad <= 5 || (x < side && y < side) || (x == side && y == 0)
  }

  // Folding finds the owner for quads 1-5, for the cells of quads 6-10 that are inside or
  // on their left and bottom edges, and for the south pole, and for no other cell.
  lemma FoldedIsOwner(quad: int, x: int, y: int, side: nat)
    requires 1 <= quad <= 10 && side >= 1 && 0 <= x <= side && 0 <= y <= side
    ensures Folded(quad, x, y, side) == Owner(quad, x, y, side) <==> WellFolded(quad, x, y, side)
  {
  }

  // A cell that folding treats wrong gets no address at all or that of another hexagon.
  lemma FoldedOwn(quad: int, x: int, y: int, side: nat)
    requires 1 <= quad <= 10 && side >= 1 && 0 <= x <= side && 0 <= y <= side
    ensures Own(quad, x, y, side) <==> WellFolded(quad, x, y, side)
  {
    if !WellFolded(quad, x, y, side) && y < side {
      var next := East(quad);
      assert Folded(next, y, y, side) == Cell(next, y, y) == Folded(quad, x, y, side);
    }
  }

  // Two cells of a closed quad are never folded together.
  lemma FoldedInjective(quad: int, x: int, y: int, u: int, v: int, side: nat)
    requires 1 <= quad <= 10 && side >= 1
    requires 0 <= x <= side && 0 <= y <= side && 0 <= u <= side && 0 <= v <= side
    requires Folded(quad, x, y, side) == Folded(quad, u, v, side)
    ensures x == u && y == v
  {
  }

  // Cells on the top and right edges of quads 1-5 get the same name from both quads.
  lemma FoldedGlue(quad: int, k: int, side: nat)
    requires 1 <= quad <= 5 && 0 <= k < side
    ensures Folded(quad, side - k, side, side) == Folded(East(quad), 0, k, side)
    ensures Folded(quad, side, k, side) == Folded(quad + 5, 0, k, side)
  {
  }

  // Two different hexagons with one name and one number: on the right edge of quad 6, and
  // inside quad 7.
  lemma FoldedCollision(side: nat, hexes: nat)
    requires side >= 2
    ensures Owner(6, side, 1, side) != Owner(7, 1, 1, side)
    ensures Folded(6, side, 1, side) == Cell(7, 1, 1) == Folded(7, 1, 1, side)
    ensures Serial(Folded(6, side, 1, side), side, hexes) == Serial(Folded(7, 1, 1, side), side, hexes)
  {
  }

  // A cell on the top edge of quad 6 keeps an address out of range, and its number is
  // that of a hexagon in the next column.
  lemma FoldedTopEdge(side: nat, hexes: nat)
    requires side >= 2
    ensures Folded(6, 0, side, side) == Cell(6, 0, side)
    ensures !Canonical(Folded(6, 0, side, side), side)
    ensures Serial(Folded(6, 0, side, side), side, hexes) == Serial(Folded(6, 1, 0, side), side, hexes)
  {
  }

  // ---------- turning a point ----------

  // a point turned by 30 degrees into the frame of the hexagons; c30 is the cosine
  function TurnedX(x: real, y: real, c30: real): real {
    x * c30 + y * 0.5
  }

  function TurnedY(x: real, y: real, c30: real): real {
    -x * 0.5 + y * c30
  }

  // squared distance from a point to a hexagon centre that is turned back by 30 degrees
  function QuadDist(i: int, y: int, width: real, c30: real, px: real, py: real): real {
    var cx, cy := CentreX(i, width, c30), CentreY(i, y, width);
    Square(px - (cx * c30 - cy * 0.5)) + Square(py - (cx * 0.5 + cy * c30))
  }

  // isea_rotate by -30 degrees
  method Rotate(x: real, y: real, c30: real) returns (vx: real, vy: real)
    ensures vx == TurnedX(x, y, c30) && vy == TurnedY(x, y, c30)
  {
    vx := x * c30 + y * 0.5;
    vy := -x * 0.5 + y * c30;
  }

  // Turning keeps distances.
  lemma TurnedDist(i: int, y: int, width: real, c30: real, px: real, py: real)
    requires c30 * c30 == 0.75
    ensures PlaneDist(i, y, width, c30, TurnedX(px, py, c30), TurnedY(px, py, c30))
         == QuadDist(i, y, width, c30, px, py)
  {
    hide CentreX, CentreY;
    TurnedAlgebra(CentreX(i, width, c30), CentreY(i, y, width), px, py, c30);
  }

  lemma TurnedAlgebra(cx: real, cy: real, px: real, py: real, c: real)
    requires c * c == 0.75
    ensures Square(cx - TurnedX(px, py, c)) + Square(cy - TurnedY(px, py, c))
         == Square(px - (cx * c - cy * 0.5)) + Square(py - (cx * 0.5 + cy * c))
  {
    // offset of the centre from the point, in each frame
    var ex, ey := cx - TurnedX(px, py, c), cy - TurnedY(px, py, c);
    var fx, fy := px - (cx * c - cy * 0.5), py - (cx * 0.5 + cy * c);
    assert fx == -(ex * c - ey * 0.5) && fy == -(ex * 0.5 + ey * c) by {
      assert ex * c == cx * c - (px * (c * c) + py * 0.5 * c);
      assert ey * c == cy * c - (-px * 0.5 * c + py * (c * c));
    }
    assert Square(fx) == ex * ex * (c * c) - ex * ey * c + ey * ey * 0.25;
    assert Square(fy) == ex * ex * 0.25 + ex * ey * c + ey * ey * (c * c);
  }

  // The rhombus of a quad in its own frame: unit sides, one along the x axis.
  predicate OfQuad(x: real, y: real, c30: real)
    requires c30 > 0.0
  {
    0.0 <= y <= c30 && 0.0 <= x + y / c30 / 2.0 <= 1.0
  }

  // A point of the quad, turned, lies between the edges in hexagon coordinates.
  lemma QuadInside(x: real, y: real, c30: real, side: nat, width: real)
    requires c30 > 0.0 && c30 * c30 == 0.75 && side >= 1 && width == 1.0 / side as real
    requires OfQuad(x, y, c30)
    ensures width > 0.0
    ensures var vx, vy := TurnedX(x, y, c30), TurnedY(x, y, c30);
      PointInside(CubeX(width, vx, c30), CubeZ(width, vx, vy, c30), side)
  {
    var vx, vy := TurnedX(x, y, c30), TurnedY(x, y, c30);
    var w := y / c30;
    var u := x + w / 2.0;
    assert w * c30 == y;
    assert vx / c30 == u by {
      assert u * c30 == vx;
    }
    assert vy == w - u / 2.0 by {
      assert y * c30 == w * (c30 * c30);
    }
    UnitQuotient(y, c30);
    Stretched(u, side, width);
    Stretched(w, side, width);
    assert CubeX(width, vx, c30) == u / width;
    assert CubeZ(width, vx, vy, c30) == -(w / width) by {
      assert -(u / width) - (w - u / 2.0 - u / 2.0) / width == -(w / width);
    }
  }

  lemma UnitQuotient(y: real, c: real)
    requires c > 0.0 && 0.0 <= y <= c
    ensures 0.0 <= y / c <= 1.0
  {
  }

  lemma Stretched(u: real, side: nat, width: real)
    requires side >= 1 && width == 1.0 / side as real && 0.0 <= u <= 1.0
    ensures width > 0.0 && 0.0 <= u / width <= side as real
  {
    var s := side as real;
    assert width * s == 1.0;
    assert u / width == u * s;
    MulNonneg(u, s);
    MulNonneg(1.0 - u, s);
    assert (1.0 - u) * s == s - u * s;
  }

  // The addressing state of the grid.
  class Grid {
    const aperture: nat
    const resolution: nat
    var quad: int
    var serial: int

    constructor (aperture: nat, resolution: nat)
      ensures this.aperture == aperture && this.resolution == resolution
    {
      this.aperture, this.resolution := aperture, resolution;
      quad, serial := 0, 0;
    }

    ghost predicate Valid() {
      aperture == 4 || (aperture == 3 && resolution % 2 == 0)
    }

    // isea_disn: number the cell at di in the given quad
    method Number(quad: int, x: int, y: int) returns (sn: int)
      requires Valid()
      modifies this`serial
      ensures sn == serial == Serial(Cell(quad, x, y), Side(aperture, resolution), Hexes(aperture, resolution))
    {
      if quad == 0 {
        serial := 1;
        return serial;
      }
      var hexes := Hexes(aperture, resolution);
      if quad == 11 {
        serial := 1 + 10 * hexes + 1;
        return serial;
      }
      sn := (quad - 1) * hexes + Side(aperture, resolution) * x + y + 2;
      serial := sn;
    }

    // The last part of isea_dddi: a boundary cell is renamed to another quad.
    method Fold(inQuad: int, h: Hex) returns (c: Cell)
      requires Valid() && h.x + h.y + h.z == 0
      modifies this`quad, h
      ensures c.quad == quad && h.x + h.y + h.z == 0 && c.x == h.x && c.y == -h.z
      ensures c == Folded(inQuad, old(h.x), -old(h.z), Side(aperture, resolution))
    {
      SideSquared(aperture, resolution);
      var side := Side(aperture, resolution);
      var q := inQuad;
      if q <= 5 {
        if h.x == 0 && h.z == -side {
          q := 0;
          h.z := 0;
          h.y := 0;
          h.x := 0;
        } else if h.z == -side {
          q := q + 1;
          if q == 6 {
            q := 1;
          }
          h.y := side - h.x;
          h.z := h.x - side;
          h.x := 0;
        } else if h.x == side {
          q := q + 5;
          h.y := -h.z;
          h.x := 0;
        }
      } else {
        if h.z == 0 && h.x == side {
          q := 11;
          h.x := 0;
          h.y := 0;
          h.z := 0;
        } else if h.x == side {
          q := q + 1;
          if q == 11 {
            q := 6;
          }
          h.x := h.y + side;
          h.y := 0;
          h.z := -h.x;
        } else if h.y == -side {
          q := q - 4;
          h.y := 0;
          h.z := -h.x;
        }
      }
      quad := q;
      return Cell(q, h.x, -h.z);
    }

    // The address of a point of a quad: a hexagon nearest to it, folded.
    method Assign(inQuad: int, x: real, y: real, c30: real) returns (c: Cell, ghost near: Cube)
      requires Valid() && c30 > 0.0 && c30 * c30 == 0.75
      modifies this`quad
      ensures c.quad == quad && near.x + near.y + near.z == 0
      ensures forall k, l ::
        QuadDist(near.x, near.y, Width(), c30, x, y) <= QuadDist(k, l, Width(), c30, x, y)
      ensures c == Folded(inQuad, near.x, -near.z, Side(aperture, resolution))
      ensures OfQuad(x, y, c30) ==> HexInside(near.x, -near.z, Side(aperture, resolution))
      ensures OfQuad(x, y, c30) && 1 <= inQuad <= 10 ==>
        (c == Owner(inQuad, near.x, -near.z, Side(aperture, resolution)) && Canonical(c, Side(aperture, resolution))
         <==> WellFolded(inQuad, near.x, -near.z, Side(aperture, resolution)))
    {
      hide PlaneDist, QuadDist, Side, Folded, Owner, WellFolded, OfQuad, PointInside, CubeX, CubeZ,
           TurnedX, TurnedY, Canonical;
      SideSquared(aperture, resolution);
      var vx, vy := Rotate(x, y, c30);
      var i, j, code := HexBin2(1.0 / (Side(aperture, resolution) as real), vx, vy, c30);
      var h := new Hex(false, i, j, 0);
      h.ToIso();
      near := Cube(h.x, h.y, h.z);
      forall k, l
        ensures PlaneDist(k, l, Width(), c30, vx, vy) == QuadDist(k, l, Width(), c30, x, y)
      {
        TurnedDist(k, l, Width(), c30, x, y);
      }
      c := Fold(inQuad, h);
      if OfQuad(x, y, c30) {
        QuadInside(x, y, c30, Side(aperture, resolution), Width());
        assert HexInside(i, i + FlipY(i, j), Side(aperture, resolution));
        if 1 <= inQuad <= 10 {
          FoldedIsOwner(inQuad, near.x, -near.z, Side(aperture, resolution));
          OwnerConsistent(inQuad, 0, near.x, -near.z, Side(aperture, resolution));
        }
      }
    }

    // the width of a hexagon when a quad side has unit length
    function Width(): real
      requires Valid()
    {
      SideSquared(aperture, resolution);
      1.0 / (Side(aperture, resolution) as real)
    }
  }
}
