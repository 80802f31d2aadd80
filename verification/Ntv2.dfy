/** The NTv2 writer of nad2bin.c and the NTv2 reader of pj_gridinfo.c: a shift table
    written on one machine is read back on another of any byte order.  Number formats
    are parameters: an encoding into bytes and a decoding.  A real number need not
    survive its encoding; what comes back is the rounded number, in its place. */
module Ntv2 {
  import opened Common
  import opened Arith
  import opened Series
  import opened ByteSwap
  import opened NadGrid

  // ---------- machines ----------

  datatype Codec = Codec(enc: real -> seq<Byte>, dec: seq<Byte> -> real)

  datatype CountCodec = CountCodec(enc: int -> seq<Byte>, dec: seq<Byte> -> int)

  // byte order and the native forms of float, double and int
  datatype Machine = Machine(lsb: bool, float: Codec, double: Codec, count: CountCodec)

  const MAX_COUNT: int := 0x8000_0000

  // the widths of the formats; counts that fit an int are exact
  ghost predicate Sound(m: Machine) {
    && (forall x: real :: |m.float.enc(x)| == 4)
    && (forall x: real :: |m.double.enc(x)| == 8)
    && (forall n: int :: |m.count.enc(n)| == 4)
    && (forall n: int :: 0 <= n < MAX_COUNT ==> m.count.dec(m.count.enc(n)) == n)
  }

  // what is left of a number after it was encoded
  function Recoded(c: Codec, x: real): real {
    c.dec(c.enc(x))
  }

  // native bytes to file bytes, or back: files are least significant byte first
  function OnDisk(m: Machine, w: seq<Byte>): (r: seq<Byte>)
    ensures |r| == |w|
  {
    if m.lsb then w else Reversed(w)
  }

  lemma OnDiskTwice(m: Machine, w: seq<Byte>)
    ensures OnDisk(m, OnDisk(m, w)) == w
  {
    ReversedTwice(w);
  }

  // two machines that give every number the same bytes on disk
  ghost predicate SameDisk(m: Machine, n: Machine) {
    && (forall x: real :: OnDisk(m, m.float.enc(x)) == OnDisk(n, n.float.enc(x)))
    && (forall x: real :: OnDisk(m, m.double.enc(x)) == OnDisk(n, n.double.enc(x)))
    && (forall k: int :: OnDisk(m, m.count.enc(k)) == OnDisk(n, n.count.enc(k)))
  }

  // ---------- the grid header ----------

  const DEG_TO_RAD: real := 0.0174532925199432958

  datatype Header = Header(ll: LP, del: LP, limLam: int, limPhi: int)

  // the numeric fields of an NTv2 sub-file header, as bytes on disk
  datatype SubFile = SubFile(sLat: seq<Byte>, nLat: seq<Byte>, eLong: seq<Byte>, wLong: seq<Byte>,
                             latInc: seq<Byte>, longInc: seq<Byte>, gsCount: seq<Byte>)

  // radians to seconds of arc, and seconds measured positive west
  function Seconds(x: real): real {
    x * 3600.0 / DEG_TO_RAD
  }

  function WestSeconds(x: real): real {
    -1.0 * x * 3600.0 / DEG_TO_RAD
  }

  function FromSeconds(x: real): real {
    x * (DEG_TO_RAD / 3600.0)
  }

  // the far end of an axis
  function FarEnd(lo: real, del: real, n: int): real {
    lo + (n - 1) as real * del
  }

  function Stored(m: Machine, x: real): seq<Byte> {
    OnDisk(m, m.double.enc(x))
  }

  function Fetched(m: Machine, w: seq<Byte>): real {
    m.double.dec(OnDisk(m, w))
  }

  // the header on disk: ends of both axes and increments in seconds of arc
  function FileHeader(h: Header, m: Machine): SubFile {
    SubFile(Stored(m, Seconds(h.ll.phi)), Stored(m, Seconds(FarEnd(h.ll.phi, h.del.phi, h.limPhi))),
            Stored(m, WestSeconds(FarEnd(h.ll.lam, h.del.lam, h.limLam))),
            Stored(m, WestSeconds(h.ll.lam)),
            Stored(m, Seconds(h.del.phi)), Stored(m, Seconds(h.del.lam)),
            OnDisk(m, m.count.enc(h.limLam * h.limPhi)))
  }

  // The code sets the fields in native form and swaps them afterwards.
  method WriteHeader(h: Header, m: Machine) returns (f: SubFile)
    ensures f == FileHeader(h, m)
  {
    hide Seconds, WestSeconds;
    var gsCount := h.limLam * h.limPhi;
    var ur := LP(FarEnd(h.ll.lam, h.del.lam, h.limLam), FarEnd(h.ll.phi, h.del.phi, h.limPhi));
    f := SubFile(m.double.enc(Seconds(h.ll.phi)), m.double.enc(Seconds(ur.phi)),
                 m.double.enc(WestSeconds(ur.lam)), m.double.enc(WestSeconds(h.ll.lam)),
                 m.double.enc(Seconds(h.del.phi)), m.double.enc(Seconds(h.del.lam)),
                 m.count.enc(gsCount));
    if !m.lsb {
      f := SubFile(Reversed(f.sLat), Reversed(f.nLat), Reversed(f.eLong), Reversed(f.wLong),
                   Reversed(f.latInc), Reversed(f.longInc), Reversed(f.gsCount));
    }
  }

  // C truncation of a real to an int
  function Trunc(x: real): int {
    if x >= 0.0 then x.Floor else -((-x).Floor)
  }

  // nodes along one axis, from its ends and the increment in seconds
  function NodeCount(lo: real, hi: real, inc: real): int
    requires inc != 0.0
  {
    Trunc(Abs(hi - lo) / inc + 0.5) + 1
  }

  // the increments of a sub-file are not zero
  ghost predicate Divides(f: SubFile, m: Machine) {
    Fetched(m, f.longInc) != 0.0 && Fetched(m, f.latInc) != 0.0
  }

  // what a sub-file header says: nothing when the cell count disagrees
  function HeaderOf(f: SubFile, m: Machine): Option<Header>
    requires Divides(f, m)
  {
    var lim := NodeCount(-Fetched(m, f.wLong), -Fetched(m, f.eLong), Fetched(m, f.longInc));
    var rows := NodeCount(Fetched(m, f.sLat), Fetched(m, f.nLat), Fetched(m, f.latInc));
    if m.count.dec(OnDisk(m, f.gsCount)) != lim * rows then None
    else Some(Header(LP(FromSeconds(-Fetched(m, f.wLong)), FromSeconds(Fetched(m, f.sLat))),
                     LP(FromSeconds(Fetched(m, f.longInc)), FromSeconds(Fetched(m, f.latInc))), lim, rows))
  }

  // pj_gridinfo_init_ntv2 for one sub-file
  method ReadHeader(f: SubFile, m: Machine) returns (r: Option<Header>)
    requires Divides(f, m)
    ensures r == HeaderOf(f, m)
  {
    hide NodeCount, FromSeconds;
    var g := f;
    if !m.lsb {
      g := SubFile(Reversed(f.sLat), Reversed(f.nLat), Reversed(f.eLong), Reversed(f.wLong),
                   Reversed(f.latInc), Reversed(f.longInc), Reversed(f.gsCount));
    }
    var ll := LP(-m.double.dec(g.wLong), m.double.dec(g.sLat));
    var ur := LP(-m.double.dec(g.eLong), m.double.dec(g.nLat));
    var del := LP(m.double.dec(g.longInc), m.double.dec(g.latInc));
    var limLam := NodeCount(ll.lam, ur.lam, del.lam);
    var limPhi := NodeCount(ll.phi, ur.phi, del.phi);
    ll := LP(FromSeconds(ll.lam), FromSeconds(ll.phi));
    del := LP(FromSeconds(del.lam), FromSeconds(del.phi));
    if m.count.dec(g.gsCount) != limLam * limPhi {
      return None;
    }
    return Some(Header(ll, del, limLam, limPhi));
  }

  // A header whose count is not the product of its nodes is refused, and only that.
  lemma CountDecides(f: SubFile, g: SubFile, m: Machine)
    requires Divides(f, m) && g == f.(gsCount := g.gsCount) && HeaderOf(f, m).Some?
    ensures HeaderOf(f, m).value.limLam * HeaderOf(f, m).value.limPhi == m.count.dec(OnDisk(m, f.gsCount))
    ensures Divides(g, m)
    ensures HeaderOf(g, m) == if m.count.dec(OnDisk(m, g.gsCount)) == m.count.dec(OnDisk(m, f.gsCount))
                              then HeaderOf(f, m) else None
  {
    hide NodeCount, FromSeconds;
  }

  // seconds and back
  lemma SecondsBack(x: real)
    ensures FromSeconds(Seconds(x)) == x
    ensures -WestSeconds(x) == Seconds(x)
    ensures x > 0.0 ==> Seconds(x) > 0.0
  {
  }

  // the ends of an axis are n - 1 increments apart, to within half an increment
  predicate SpanKept(lo: real, hi: real, inc: real, n: int) {
    inc > 0.0 && (n as real - 1.5) * inc <= Abs(hi - lo) < (n as real - 0.5) * inc
  }

  // The rounding count formula finds n nodes exactly when the span is kept.
  lemma LimitExact(lo: real, hi: real, inc: real, n: int)
    requires inc > 0.0 && n >= 1
    ensures NodeCount(lo, hi, inc) == n <==> SpanKept(lo, hi, inc, n)
  {
    var d := Abs(hi - lo);
    var q := d / inc;
    assert q * inc == d;
    QuotientOrder(0.0, q, inc, 0.0, d);
    var lower, upper := n as real - 1.5, n as real - 0.5;
    QuotientOrder(lower, q, inc, lower * inc, d);
    QuotientOrder(upper, q, inc, upper * inc, d);
    assert (q + 0.5).Floor == n - 1 <==> lower <= q < upper;
  }

  lemma QuotientOrder(a: real, b: real, inc: real, x: real, y: real)
    requires inc > 0.0 && x == a * inc && y == b * inc
    ensures x <= y <==> a <= b
  {
    var gap := (b - a) * inc;
    assert gap == y - x;
    GapSign(b - a, inc, gap);
  }

  lemma GapSign(e: real, inc: real, gap: real)
    requires inc > 0.0 && gap == e * inc
    ensures gap >= 0.0 <==> e >= 0.0
  {
    if e >= 0.0 {
      MulNonneg(e, inc);
    } else {
      assert gap < 0.0;
    }
  }

  // Without rounding the span is kept.
  lemma SpanBack(lo: real, del: real, n: int)
    requires del > 0.0 && n >= 1
    ensures SpanKept(Seconds(lo), Seconds(FarEnd(lo, del, n)), Seconds(del), n)
  {
    var k, inc := (n - 1) as real, Seconds(del);
    FarSeconds(lo, del, k);
    MulNonneg(k, inc);
    assert (n as real - 1.5) * inc == k * inc - 0.5 * inc;
    assert (n as real - 0.5) * inc == k * inc + 0.5 * inc;
  }

  lemma FarSeconds(lo: real, del: real, k: real)
    ensures Seconds(lo + k * del) - Seconds(lo) == k * Seconds(del)
  {
    var c := 3600.0 / DEG_TO_RAD;
    assert Seconds(lo + k * del) == (lo + k * del) * c;
    assert Seconds(lo) == lo * c && Seconds(del) == del * c;
    assert (lo + k * del) * c == lo * c + k * (del * c);
  }

  // the axis ends and increments as they come off the disk
  ghost predicate SpansKept(h: Header, c: Codec) {
    && SpanKept(-Recoded(c, WestSeconds(h.ll.lam)),
                -Recoded(c, WestSeconds(FarEnd(h.ll.lam, h.del.lam, h.limLam))),
                Recoded(c, Seconds(h.del.lam)), h.limLam)
    && SpanKept(Recoded(c, Seconds(h.ll.phi)), Recoded(c, Seconds(FarEnd(h.ll.phi, h.del.phi, h.limPhi))),
                Recoded(c, Seconds(h.del.phi)), h.limPhi)
  }

  // none of the six numbers of the header is rounded
  ghost predicate HeaderExact(h: Header, c: Codec) {
    && Recoded(c, WestSeconds(h.ll.lam)) == WestSeconds(h.ll.lam)
    && Recoded(c, WestSeconds(FarEnd(h.ll.lam, h.del.lam, h.limLam)))
       == WestSeconds(FarEnd(h.ll.lam, h.del.lam, h.limLam))
    && Recoded(c, Seconds(h.del.lam)) == Seconds(h.del.lam)
    && Recoded(c, Seconds(h.ll.phi)) == Seconds(h.ll.phi)
    && Recoded(c, Seconds(FarEnd(h.ll.phi, h.del.phi, h.limPhi))) == Seconds(FarEnd(h.ll.phi, h.del.phi, h.limPhi))
    && Recoded(c, Seconds(h.del.phi)) == Seconds(h.del.phi)
  }

  lemma ExactSpans(h: Header, c: Codec)
    requires HeaderExact(h, c) && h.limLam >= 1 && h.limPhi >= 1 && h.del.lam > 0.0 && h.del.phi > 0.0
    ensures SpansKept(h, c)
  {
    hide Seconds, WestSeconds, FarEnd, SpanKept, Recoded;
    SpanBack(h.ll.lam, h.del.lam, h.limLam);
    SpanBack(h.ll.phi, h.del.phi, h.limPhi);
    SecondsBack(h.ll.lam);
    SecondsBack(FarEnd(h.ll.lam, h.del.lam, h.limLam));
  }

  // origin and cell size after rounding, with the same limits
  ghost function Reread(h: Header, c: Codec): Header {
    Header(LP(FromSeconds(-Recoded(c, WestSeconds(h.ll.lam))), FromSeconds(Recoded(c, Seconds(h.ll.phi)))),
           LP(FromSeconds(Recoded(c, Seconds(h.del.lam))), FromSeconds(Recoded(c, Seconds(h.del.phi)))),
           h.limLam, h.limPhi)
  }

  // What the fields of a written header are, where the format does not round: the edges in
  // seconds of arc, east and west counted positive to the west, the increments, and the
  // number of cells.
  lemma HeaderFields(h: Header, m: Machine, n: Machine)
    requires Sound(n) && SameDisk(m, n) && Writable(h, n) && HeaderExact(h, n.double)
    ensures var f := FileHeader(h, m);
      var second := DEG_TO_RAD / 3600.0;
      && Fetched(n, f.sLat) * second == h.ll.phi
      && Fetched(n, f.nLat) * second == h.ll.phi + (h.limPhi - 1) as real * h.del.phi
      && Fetched(n, f.wLong) * second == -h.ll.lam
      && Fetched(n, f.eLong) * second == -(h.ll.lam + (h.limLam - 1) as real * h.del.lam)
      && Fetched(n, f.latInc) * second == h.del.phi && Fetched(n, f.longInc) * second == h.del.lam
      && n.count.dec(OnDisk(n, f.gsCount)) == h.limLam * h.limPhi
  {
    hide Sound, SameDisk, Stored, Fetched, OnDisk, Recoded, Seconds, WestSeconds, FarEnd;
    var farLam, farPhi := FarEnd(h.ll.lam, h.del.lam, h.limLam), FarEnd(h.ll.phi, h.del.phi, h.limPhi);
    FieldBack(m, n, h.ll.phi);
    FieldBack(m, n, farPhi);
    FieldBack(m, n, h.ll.lam);
    FieldBack(m, n, farLam);
    FieldBack(m, n, h.del.phi);
    FieldBack(m, n, h.del.lam);
    FarEnds(h);
    CountPositive(h.limLam, h.limPhi);
    CountBack(m, n, h.limLam * h.limPhi);
  }

  lemma FarEnds(h: Header)
    ensures FarEnd(h.ll.lam, h.del.lam, h.limLam) == h.ll.lam + (h.limLam - 1) as real * h.del.lam
    ensures FarEnd(h.ll.phi, h.del.phi, h.limPhi) == h.ll.phi + (h.limPhi - 1) as real * h.del.phi
  {
  }

  lemma FieldBack(m: Machine, n: Machine, x: real)
    requires SameDisk(m, n)
    ensures Recoded(n.double, Seconds(x)) == Seconds(x) ==>
      Fetched(n, Stored(m, Seconds(x))) * (DEG_TO_RAD / 3600.0) == x
    ensures Recoded(n.double, WestSeconds(x)) == WestSeconds(x) ==>
      Fetched(n, Stored(m, WestSeconds(x))) * (DEG_TO_RAD / 3600.0) == -x
  {
    DoubleBack(m, n, Seconds(x));
    DoubleBack(m, n, WestSeconds(x));
    hide Fetched, Stored, Recoded, SameDisk;
    SecondsBack(x);
  }

  // origin and cell size are not rounded
  ghost predicate OriginExact(h: Header, c: Codec) {
    && Recoded(c, WestSeconds(h.ll.lam)) == WestSeconds(h.ll.lam)
    && Recoded(c, Seconds(h.ll.phi)) == Seconds(h.ll.phi)
    && Recoded(c, Seconds(h.del.lam)) == Seconds(h.del.lam)
    && Recoded(c, Seconds(h.del.phi)) == Seconds(h.del.phi)
  }

  lemma ExactReread(h: Header, c: Codec)
    ensures Reread(h, c) == h <==> OriginExact(h, c)
    ensures HeaderExact(h, c) ==> OriginExact(h, c)
  {
    hide Seconds, WestSeconds, FromSeconds, Recoded;
    SecondsBack(h.ll.lam);
    SecondsBack(h.ll.phi);
    SecondsBack(h.del.lam);
    SecondsBack(h.del.phi);
    FromSecondsInjective(-Recoded(c, WestSeconds(h.ll.lam)), Seconds(h.ll.lam));
    FromSecondsInjective(Recoded(c, Seconds(h.ll.phi)), Seconds(h.ll.phi));
    FromSecondsInjective(Recoded(c, Seconds(h.del.lam)), Seconds(h.del.lam));
    FromSecondsInjective(Recoded(c, Seconds(h.del.phi)), Seconds(h.del.phi));
  }

  lemma FromSecondsInjective(x: real, y: real)
    ensures FromSeconds(x) == FromSeconds(y) <==> x == y
  {
  }

  // A header within reach of the count format, whose increments stay positive when read.
  ghost predicate Writable(h: Header, n: Machine) {
    && h.limLam >= 1 && h.limPhi >= 1 && h.limLam * h.limPhi < MAX_COUNT
    && h.del.lam > 0.0 && h.del.phi > 0.0
    && Recoded(n.double, Seconds(h.del.lam)) > 0.0 && Recoded(n.double, Seconds(h.del.phi)) > 0.0
  }

  // What is written on one machine and read on another is the same header, up to the
  // rounding of its numbers; the limits are exact as long as the spans are kept.
  lemma HeaderRoundTrip(h: Header, m: Machine, n: Machine)
    requires Sound(m) && Sound(n) && SameDisk(m, n) && Writable(h, n)
    ensures Divides(FileHeader(h, m), n)
    ensures SpansKept(h, n.double) ==> HeaderOf(FileHeader(h, m), n) == Some(Reread(h, n.double))
    ensures HeaderExact(h, n.double) ==> HeaderOf(FileHeader(h, m), n) == Some(h)
  {
    hide NodeCount, Sound, SameDisk, Seconds, WestSeconds, FromSeconds, FarEnd, Stored, Fetched, OnDisk, HeaderExact,
         OriginExact, Recoded, SpanKept;
    var farLam, farPhi := FarEnd(h.ll.lam, h.del.lam, h.limLam), FarEnd(h.ll.phi, h.del.phi, h.limPhi);
    DoubleBack(m, n, Seconds(h.ll.phi));
    DoubleBack(m, n, WestSeconds(h.ll.lam));
    DoubleBack(m, n, Seconds(farPhi));
    DoubleBack(m, n, WestSeconds(farLam));
    DoubleBack(m, n, Seconds(h.del.phi));
    DoubleBack(m, n, Seconds(h.del.lam));
    CountPositive(h.limLam, h.limPhi);
    CountBack(m, n, h.limLam * h.limPhi);
    var c := n.double;
    LimitExact(-Recoded(c, WestSeconds(h.ll.lam)), -Recoded(c, WestSeconds(farLam)),
               Recoded(c, Seconds(h.del.lam)), h.limLam);
    LimitExact(Recoded(c, Seconds(h.ll.phi)), Recoded(c, Seconds(farPhi)),
               Recoded(c, Seconds(h.del.phi)), h.limPhi);
    ExactReread(h, c);
    if HeaderExact(h, c) {
      ExactSpans(h, c);
    }
  }

  lemma CountPositive(a: int, b: int)
    requires a >= 1 && b >= 1
    ensures a * b >= 0
  {
  }

  lemma DoubleBack(m: Machine, n: Machine, x: real)
    requires SameDisk(m, n)
    ensures Fetched(n, Stored(m, x)) == Recoded(n.double, x)
  {
    OnDiskTwice(n, n.double.enc(x));
  }

  lemma FloatBack(m: Machine, n: Machine, x: real)
    requires SameDisk(m, n)
    ensures n.float.dec(OnDisk(n, OnDisk(m, m.float.enc(x)))) == Recoded(n.float, x)
  {
    OnDiskTwice(n, n.float.enc(x));
  }

  lemma CountBack(m: Machine, n: Machine, k: int)
    requires Sound(n) && SameDisk(m, n) && 0 <= k < MAX_COUNT
    ensures n.count.dec(OnDisk(n, OnDisk(m, m.count.enc(k)))) == k
  {
    OnDiskTwice(n, n.count.enc(k));
  }

  // ---------- the cells ----------

  const TO_SECONDS: real := 3600.0 / (PI / 180.0)
  const TO_RADIANS: real := PI / 180.0 / 3600.0

  // the k-th four-byte word
  function Word(b: seq<Byte>, k: nat): (w: seq<Byte>)
    requires 4 * k + 4 <= |b|
    ensures |w| == 4
  {
    b[4 * k..4 * k + 4]
  }

  // column i of the file is column lim - 1 - i of the table
  function TableIndex(row: nat, lim: nat, i: nat): int {
    row * lim + (lim - i - 1)
  }

  lemma TableIndexInside(row: nat, rows: nat, lim: nat, i: nat)
    requires row < rows && i < lim
    ensures 0 <= TableIndex(row, lim, i) < rows * lim
  {
    assert (row + 1) * lim <= rows * lim;
    assert (row + 1) * lim == row * lim + lim;
    assert 0 <= row * lim;
  }

  function CellSeconds(x: real): real {
    x * TO_SECONDS
  }

  function CellRadians(x: real): real {
    x * TO_RADIANS
  }

  // the table cell that column i of a file row holds
  function TableCell(cvs: seq<LP>, row: nat, rows: nat, lim: nat, i: nat): LP
    requires row < rows && i < lim && |cvs| == rows * lim
  {
    TableIndexInside(row, rows, lim, i);
    cvs[TableIndex(row, lim, i)]
  }

  // column i of a row on disk: latitude then longitude shift, in seconds
  predicate CellHolds(bytes: seq<Byte>, i: nat, cell: LP, m: Machine)
    requires 16 * i + 8 <= |bytes|
  {
    && Word(bytes, 4 * i) == OnDisk(m, m.float.enc(CellSeconds(cell.phi)))
    && Word(bytes, 4 * i + 1) == OnDisk(m, m.float.enc(CellSeconds(cell.lam)))
  }

  ghost predicate RowHolds(bytes: seq<Byte>, cvs: seq<LP>, row: nat, rows: nat, lim: nat, m: Machine)
    requires row < rows && |cvs| == rows * lim
  {
    && |bytes| == 16 * lim
    && forall i :: 0 <= i < lim ==> CellHolds(bytes, i, TableCell(cvs, row, rows, lim, i), m)
  }

  // the same in native form, for the columns filled so far
  ghost predicate Filled(bytes: seq<Byte>, cvs: seq<LP>, row: nat, rows: nat, lim: nat, m: Machine, n: nat)
    requires row < rows && |cvs| == rows * lim && |bytes| == 16 * lim
  {
    forall i :: 0 <= i < n && i < lim ==>
      && Word(bytes, 4 * i) == m.float.enc(CellSeconds(TableCell(cvs, row, rows, lim, i).phi))
      && Word(bytes, 4 * i + 1) == m.float.enc(CellSeconds(TableCell(cvs, row, rows, lim, i).lam))
  }

  lemma FilledNext(b: seq<Byte>, c: seq<Byte>, cvs: seq<LP>, row: nat, rows: nat, lim: nat, m: Machine, i: nat)
    requires row < rows && |cvs| == rows * lim && |b| == |c| == 16 * lim && i < lim
    requires Filled(b, cvs, row, rows, lim, m, i)
    requires Word(c, 4 * i) == m.float.enc(CellSeconds(TableCell(cvs, row, rows, lim, i).phi))
    requires Word(c, 4 * i + 1) == m.float.enc(CellSeconds(TableCell(cvs, row, rows, lim, i).lam))
    requires forall j :: 0 <= j < 4 * lim && j != 4 * i && j != 4 * i + 1 ==> Word(c, j) == Word(b, j)
    ensures Filled(c, cvs, row, rows, lim, m, i + 1)
  {
    hide Word, TableCell, CellSeconds;
    forall k | 0 <= k < i
      ensures Word(c, 4 * k) == Word(b, 4 * k) && Word(c, 4 * k + 1) == Word(b, 4 * k + 1)
    {
    }
  }

  lemma FilledOnDisk(b: seq<Byte>, c: seq<Byte>, cvs: seq<LP>, row: nat, rows: nat, lim: nat, m: Machine)
    requires row < rows && |cvs| == rows * lim && |b| == |c| == 16 * lim
    requires Filled(b, cvs, row, rows, lim, m, lim)
    requires forall k :: 0 <= k < 4 * lim ==> Word(c, k) == OnDisk(m, Word(b, k))
    ensures RowHolds(c, cvs, row, rows, lim, m)
  {
    hide Word, TableCell, CellSeconds, OnDisk;
    forall i | 0 <= i < lim
      ensures CellHolds(c, i, TableCell(cvs, row, rows, lim, i), m)
    {
      assert Word(c, 4 * i) == OnDisk(m, Word(b, 4 * i));
      assert Word(c, 4 * i + 1) == OnDisk(m, Word(b, 4 * i + 1));
    }
  }

  // four bytes into the row buffer
  method PutWord(buf: array<Byte>, k: nat, w: seq<Byte>)
    requires 4 * k + 4 <= buf.Length && |w| == 4
    modifies buf
    ensures buf[..] == old(buf[..4 * k]) + w + old(buf[4 * k + 4..])
  {
    buf[4 * k], buf[4 * k + 1], buf[4 * k + 2], buf[4 * k + 3] := w[0], w[1], w[2], w[3];
  }

  lemma PutWordKeeps(b: seq<Byte>, k: nat, w: seq<Byte>, c: seq<Byte>)
    requires 4 * k + 4 <= |b| && |w| == 4 && c == b[..4 * k] + w + b[4 * k + 4..]
    ensures |c| == |b| && Word(c, k) == w
    ensures forall j :: 0 <= j && 4 * j + 4 <= |b| && j != k ==> Word(c, j) == Word(b, j)
  {
    forall j | 0 <= j && 4 * j + 4 <= |b| && j != k
      ensures Word(c, j) == Word(b, j)
    {
      if j < k {
        assert c[4 * j..4 * j + 4] == c[..4 * k][4 * j..4 * j + 4];
      } else {
        assert forall x :: 4 * j <= x < 4 * j + 4 ==> c[x] == b[x];
      }
    }
  }

  // ---------- the accuracy words ----------

  // the third and fourth word of a cell
  predicate IsAccuracy(k: int) {
    k % 4 >= 2
  }

  const ZERO_WORD: seq<Byte> := [0, 0, 0, 0]

  // Word k of the row buffer after n swaps: that of the first cell was cleared, the others
  // start as the allocator left them, and no row sets them.
  function AccuracyWord(junk: seq<Byte>, m: Machine, n: nat, k: nat): (w: seq<Byte>)
    requires 4 * k + 4 <= |junk|
    ensures |w| == 4
  {
    var w := if k < 4 then ZERO_WORD else Word(junk, k);
    if m.lsb || n % 2 == 0 then w else Reversed(w)
  }

  ghost predicate AccuracyKept(b: seq<Byte>, junk: seq<Byte>, lim: nat, m: Machine, n: nat) {
    && |b| == |junk| == 16 * lim
    && forall k: nat :: k < 4 * lim && IsAccuracy(k) ==> Word(b, k) == AccuracyWord(junk, m, n, k)
  }

  lemma AccuracySwapped(b: seq<Byte>, c: seq<Byte>, junk: seq<Byte>, lim: nat, m: Machine, n: nat)
    requires AccuracyKept(b, junk, lim, m, n) && |c| == |b|
    requires forall k :: 0 <= k < 4 * lim ==> Word(c, k) == OnDisk(m, Word(b, k))
    ensures AccuracyKept(c, junk, lim, m, n + 1)
  {
    hide Word, Reversed;
    forall k: nat | k < 4 * lim && IsAccuracy(k)
      ensures Word(c, k) == AccuracyWord(junk, m, n + 1, k)
    {
      ReversedTwice(if k < 4 then ZERO_WORD else Word(junk, k));
    }
  }

  lemma AccuracySame(b: seq<Byte>, c: seq<Byte>, junk: seq<Byte>, lim: nat, m: Machine, n: nat)
    requires AccuracyKept(b, junk, lim, m, n) && SameAccuracy(b, c, lim)
    ensures AccuracyKept(c, junk, lim, m, n)
  {
    hide Word, IsAccuracy;
  }

  // every row on disk, by the number of swaps it went through
  ghost predicate AccuracyOnDisk(file: seq<seq<Byte>>, junk: seq<Byte>, lim: nat, m: Machine) {
    forall r: nat :: r < |file| ==> AccuracyKept(file[r], junk, lim, m, r + 1)
  }

  // all accuracy words of the file are zero
  ghost predicate AccuracyZero(file: seq<seq<Byte>>, lim: nat) {
    forall r: nat, k: nat :: r < |file| && k < 4 * lim && IsAccuracy(k) ==>
      4 * k + 4 <= |file[r]| && Word(file[r], k) == ZERO_WORD
  }

  // The allocator left zero in the accuracy words of all cells but the first.
  ghost predicate ZeroJunk(junk: seq<Byte>, lim: nat) {
    forall k: nat :: 4 <= k < 4 * lim && IsAccuracy(k) ==> 4 * k + 4 <= |junk| && Word(junk, k) == ZERO_WORD
  }

  lemma ZeroReversed(w: seq<Byte>)
    requires |w| == 4
    ensures Reversed(w) == ZERO_WORD <==> w == ZERO_WORD
  {
    if Reversed(w) == ZERO_WORD {
      ReversedTwice(w);
    }
  }

  // The accuracy values are zero on disk exactly when nothing is written or the allocator
  // happened to leave zeros behind the first cell.
  lemma AccuracyExact(file: seq<seq<Byte>>, junk: seq<Byte>, lim: nat, m: Machine)
    requires |junk| == 16 * lim && AccuracyOnDisk(file, junk, lim, m)
    ensures AccuracyZero(file, lim) <==> |file| == 0 || ZeroJunk(junk, lim)
  {
    hide Word, Reversed;
    forall r: nat, k: nat | r < |file| && k < 4 * lim && IsAccuracy(k)
      ensures AccuracyKept(file[r], junk, lim, m, r + 1)
      ensures Word(file[r], k) == ZERO_WORD <==> k < 4 || Word(junk, k) == ZERO_WORD
    {
      ZeroReversed(if k < 4 then ZERO_WORD else Word(junk, k));
    }
    if |file| > 0 && AccuracyZero(file, lim) {
      forall k: nat | 4 <= k < 4 * lim && IsAccuracy(k)
        ensures 4 * k + 4 <= |junk| && Word(junk, k) == ZERO_WORD
      {
        assert Word(file[0], k) == ZERO_WORD;
      }
    }
  }

  // Whatever the allocator leaves, that is so exactly without rows or with a single column.
  lemma AccuracyAlways(rows: nat, lim: nat)
    ensures (forall junk: seq<Byte> :: |junk| == 16 * lim ==> rows == 0 || ZeroJunk(junk, lim))
      <==> rows == 0 || lim <= 1
  {
    if lim > 1 {
      var junk: seq<Byte> := seq(16 * lim, _ => 1);
      assert IsAccuracy(6) && Word(junk, 6)[0] == 1;
      assert !ZeroJunk(junk, lim);
    }
  }

  // Fill one row of the buffer, in native form.
  method FillRow(cvs: seq<LP>, row: nat, rows: nat, lim: nat, m: Machine, buf: array<Byte>)
    requires Sound(m) && row < rows && |cvs| == rows * lim && buf.Length == 16 * lim
    modifies buf
    ensures Filled(buf[..], cvs, row, rows, lim, m, lim)
    ensures SameAccuracy(old(buf[..]), buf[..], lim)
  {
    hide Filled, CellSeconds, Word, IsAccuracy, SameAccuracy;
    var i := 0;
    FilledNone(buf[..], cvs, row, rows, lim, m);
    AccuracyItself(buf[..], lim);
    while i < lim
      invariant 0 <= i <= lim
      invariant Filled(buf[..], cvs, row, rows, lim, m, i)
      invariant SameAccuracy(old(buf[..]), buf[..], lim)
    {
      TableIndexInside(row, rows, lim, i);
      var cell := cvs[row * lim + (lim - i - 1)];
      ghost var b0 := buf[..];
      PutWord(buf, 4 * i, m.float.enc(CellSeconds(cell.phi)));
      PutWordKeeps(b0, 4 * i, m.float.enc(CellSeconds(cell.phi)), buf[..]);
      ghost var b1 := buf[..];
      PutWord(buf, 4 * i + 1, m.float.enc(CellSeconds(cell.lam)));
      PutWordKeeps(b1, 4 * i + 1, m.float.enc(CellSeconds(cell.lam)), buf[..]);
      FilledNext(b0, buf[..], cvs, row, rows, lim, m, i);
      AccuracyStays(old(buf[..]), b0, buf[..], lim, i);
      i := i + 1;
    }
  }

  ghost predicate SameAccuracy(b: seq<Byte>, c: seq<Byte>, lim: nat) {
    |b| == |c| == 16 * lim && forall k: nat :: k < 4 * lim && IsAccuracy(k) ==> Word(c, k) == Word(b, k)
  }

  lemma AccuracyItself(b: seq<Byte>, lim: nat)
    requires |b| == 16 * lim
    ensures SameAccuracy(b, b, lim)
  {
  }

  // Setting the shift words of a cell leaves all accuracy words.
  lemma AccuracyStays(a: seq<Byte>, b: seq<Byte>, c: seq<Byte>, lim: nat, i: nat)
    requires SameAccuracy(a, b, lim) && |c| == |b|
    requires forall j :: 0 <= j < 4 * lim && j != 4 * i && j != 4 * i + 1 ==> Word(c, j) == Word(b, j)
    ensures SameAccuracy(a, c, lim)
  {
    hide Word, IsAccuracy;
    ShiftWords(i);
  }

  lemma ShiftWords(i: nat)
    ensures !IsAccuracy(4 * i) && !IsAccuracy(4 * i + 1)
  {
  }

  lemma FilledNone(b: seq<Byte>, cvs: seq<LP>, row: nat, rows: nat, lim: nat, m: Machine)
    requires row < rows && |cvs| == rows * lim && |b| == 16 * lim
    ensures Filled(b, cvs, row, rows, lim, m, 0)
  {
  }

  // every word of the buffer to the other byte order, when the machine needs it
  method FixOrder(m: Machine, buf: array<Byte>, lim: nat)
    requires buf.Length == 16 * lim
    modifies buf
    ensures forall k :: 0 <= k < 4 * lim ==> Word(buf[..], k) == OnDisk(m, Word(old(buf[..]), k))
  {
    if !m.lsb {
      ghost var b := buf[..];
      SwapWords(buf, 0, 4, lim * 4);
      assert b[0..0 + 4 * (lim * 4)] == b && buf[0..0 + 4 * (lim * 4)] == buf[..];
      forall k | 0 <= k < 4 * lim
        ensures Word(buf[..], k) == OnDisk(m, Word(b, k))
      {
        SwappedWord(b, 4, lim * 4, k);
      }
    }
  }

  // The row buffer: memory as the allocator left it, with the first four words cleared.
  method RowBuffer(lim: nat, m: Machine, junk: seq<Byte>) returns (buf: array<Byte>)
    requires |junk| == 16 * lim
    ensures fresh(buf) && buf.Length == 16 * lim && AccuracyKept(buf[..], junk, lim, m, 0)
  {
    buf := new Byte[16 * lim](i requires 0 <= i < 16 * lim => junk[i]);
    for i := 0 to if lim == 0 then 0 else 16
      invariant forall k :: 0 <= k < 16 * lim ==> buf[k] == if k < i then 0 else junk[k]
    {
      buf[i] := 0;
    }
  }

  // The file holds the table, and of the accuracy words what AccuracyWord says.
  method WriteCells(cvs: seq<LP>, rows: nat, lim: nat, m: Machine, junk: seq<Byte>) returns (file: seq<seq<Byte>>)
    requires Sound(m) && |cvs| == rows * lim && |junk| == 16 * lim
    ensures Holding(file, cvs, rows, lim, m)
    ensures AccuracyOnDisk(file, junk, lim, m)
    ensures AccuracyZero(file, lim) <==> rows == 0 || ZeroJunk(junk, lim)
  {
    hide RowHolds, Filled, AccuracyKept, AccuracyZero, ZeroJunk, SameAccuracy;
    var buf := RowBuffer(lim, m, junk);
    file := [];
    var row := 0;
    while row < rows
      invariant 0 <= row <= rows && |file| == row
      invariant forall r :: 0 <= r < row ==> RowHolds(file[r], cvs, r, rows, lim, m)
      invariant AccuracyOnDisk(file, junk, lim, m) && AccuracyKept(buf[..], junk, lim, m, row)
    {
      ghost var before := buf[..];
      FillRow(cvs, row, rows, lim, m, buf);
      ghost var filled := buf[..];
      AccuracySame(before, filled, junk, lim, m, row);
      FixOrder(m, buf, lim);
      FilledOnDisk(filled, buf[..], cvs, row, rows, lim, m);
      AccuracySwapped(filled, buf[..], junk, lim, m, row);
      file := file + [buf[..]];
      row := row + 1;
    }
    AccuracyExact(file, junk, lim, m);
  }

  // The i-th cell on disk is the i-th from the east, its latitude shift before its longitude
  // shift, both in seconds of arc.
  lemma RowLayout(bytes: seq<Byte>, cvs: seq<LP>, row: nat, rows: nat, lim: nat, m: Machine, i: nat)
    requires row < rows && |cvs| == rows * lim && RowHolds(bytes, cvs, row, rows, lim, m) && i < lim
    ensures 0 <= row * lim + lim - 1 - i < |cvs| && 16 * i + 8 <= |bytes|
    ensures var cell := cvs[row * lim + lim - 1 - i];
      && bytes[16 * i..16 * i + 4] == OnDisk(m, m.float.enc(cell.phi * (3600.0 / (PI / 180.0))))
      && bytes[16 * i + 4..16 * i + 8] == OnDisk(m, m.float.enc(cell.lam * (3600.0 / (PI / 180.0))))
  {
    hide OnDisk, CellSeconds;
    TableIndexInside(row, rows, lim, i);
    var cell := TableCell(cvs, row, rows, lim, i);
    assert CellHolds(bytes, i, cell, m);
    SecondsOfCell(cell.phi);
    SecondsOfCell(cell.lam);
  }

  lemma SecondsOfCell(x: real)
    ensures CellSeconds(x) == x * (3600.0 / (PI / 180.0))
  {
  }

  // what the reader makes of the words of column i
  function CellOfWords(m: Machine, bytes: seq<Byte>, i: nat): LP
    requires 16 * i + 8 <= |bytes|
  {
    LP(CellRadians(m.float.dec(OnDisk(m, Word(bytes, 4 * i + 1)))),
       CellRadians(m.float.dec(OnDisk(m, Word(bytes, 4 * i)))))
  }

  // the table rows read so far
  ghost predicate RowsRead(file: seq<seq<Byte>>, cvs: seq<LP>, rows: nat, lim: nat, m: Machine, n: nat)
    requires |cvs| == rows * lim && n <= rows && n <= |file|
  {
    forall r :: 0 <= r < n ==> |file[r]| == 16 * lim && RowRead(file[r], cvs, r, rows, lim, m, lim)
  }

  ghost predicate RowRead(bytes: seq<Byte>, cvs: seq<LP>, row: nat, rows: nat, lim: nat, m: Machine, n: nat)
    requires row < rows && |cvs| == rows * lim && |bytes| == 16 * lim
  {
    forall i :: 0 <= i < n && i < lim ==> TableCell(cvs, row, rows, lim, i) == CellOfWords(m, bytes, i)
  }

  // The ntv2 branch of pj_gridinfo_load: false when a row is short.
  method ReadCells(file: seq<seq<Byte>>, rows: nat, lim: nat, m: Machine) returns (ok: bool, cvs: array<LP>)
    ensures ok <==> |file| >= rows && forall r :: 0 <= r < rows ==> |file[r]| == 16 * lim
    ensures ok ==> cvs.Length == rows * lim && RowsRead(file, cvs[..], rows, lim, m, rows)
  {
    hide RowRead;
    var buf := new Byte[16 * lim](_ => 0);
    cvs := new LP[rows * lim](_ => LP(0.0, 0.0));
    var row := 0;
    while row < rows
      invariant 0 <= row <= rows && row <= |file|
      invariant RowsRead(file, cvs[..], rows, lim, m, row)
    {
      if row >= |file| || |file[row]| != 16 * lim {
        return false, cvs;
      }
      Fill(buf, file[row]);
      FixOrder(m, buf, lim);
      ghost var before := cvs[..];
      StoreRow(m, buf, file[row], row, rows, lim, cvs);
      forall r | 0 <= r < row
        ensures RowRead(file[r], cvs[..], r, rows, lim, m, lim)
      {
        OtherRow(file[r], before, cvs[..], r, row, rows, lim, m);
      }
      row := row + 1;
    }
    return true, cvs;
  }

  // fread of one row
  method Fill(buf: array<Byte>, bytes: seq<Byte>)
    requires buf.Length == |bytes|
    modifies buf
    ensures buf[..] == bytes
  {
    for i := 0 to |bytes|
      invariant buf[..i] == bytes[..i]
    {
      buf[i] := bytes[i];
    }
  }

  // Rows already read are not disturbed.
  lemma OtherRow(bytes: seq<Byte>, before: seq<LP>, after: seq<LP>, r: nat, row: nat, rows: nat, lim: nat, m: Machine)
    requires r < row < rows && |before| == |after| == rows * lim && |bytes| == 16 * lim
    requires RowRead(bytes, before, r, rows, lim, m, lim)
    requires forall x :: 0 <= x < row * lim && x < rows * lim ==> after[x] == before[x]
    ensures RowRead(bytes, after, r, rows, lim, m, lim)
  {
    hide CellOfWords;
    forall i | 0 <= i < lim
      ensures TableCell(after, r, rows, lim, i) == TableCell(before, r, rows, lim, i)
    {
      TableIndexInside(r, row, lim, i);
      TableIndexInside(r, rows, lim, i);
    }
  }

  lemma RowReadNext(bytes: seq<Byte>, t: seq<LP>, row: nat, rows: nat, lim: nat, m: Machine, i: nat, c: LP)
    requires row < rows && i < lim && |t| == rows * lim && |bytes| == 16 * lim
    requires RowRead(bytes, t, row, rows, lim, m, i) && c == CellOfWords(m, bytes, i)
    ensures 0 <= TableIndex(row, lim, i) < rows * lim && TableIndex(row, lim, i) >= row * lim
    ensures RowRead(bytes, t[TableIndex(row, lim, i) := c], row, rows, lim, m, i + 1)
  {
    hide CellOfWords;
    TableIndexInside(row, rows, lim, i);
    var u := t[TableIndex(row, lim, i) := c];
    forall k | 0 <= k < i
      ensures TableCell(u, row, rows, lim, k) == TableCell(t, row, rows, lim, k)
    {
      TableIndexInside(row, rows, lim, k);
    }
  }

  // The cells of one row, the last column first, without disturbing the rows before it.
  method StoreRow(m: Machine, buf: array<Byte>, ghost bytes: seq<Byte>, row: nat, rows: nat, lim: nat, cvs: array<LP>)
    requires row < rows && cvs.Length == rows * lim && buf.Length == 16 * lim == |bytes|
    requires forall k :: 0 <= k < 4 * lim ==> Word(buf[..], k) == OnDisk(m, Word(bytes, k))
    modifies cvs
    ensures RowRead(bytes, cvs[..], row, rows, lim, m, lim)
    ensures forall x :: 0 <= x < row * lim && x < rows * lim ==> cvs[x] == old(cvs[x])
  {
    hide OnDisk, CellRadians, RowRead;
    var i := 0;
    RowReadNone(bytes, cvs[..], row, rows, lim, m);
    while i < lim
      invariant 0 <= i <= lim
      invariant RowRead(bytes, cvs[..], row, rows, lim, m, i)
      invariant forall x :: 0 <= x < row * lim && x < rows * lim ==> cvs[x] == old(cvs[x])
    {
      assert Word(buf[..], 4 * i) == OnDisk(m, Word(bytes, 4 * i));
      assert Word(buf[..], 4 * i + 1) == OnDisk(m, Word(bytes, 4 * i + 1));
      var cell := LP(CellRadians(m.float.dec(Word(buf[..], 4 * i + 1))),
                     CellRadians(m.float.dec(Word(buf[..], 4 * i))));
      RowReadNext(bytes, cvs[..], row, rows, lim, m, i, cell);
      ghost var before := cvs[..];
      cvs[row * lim + (lim - i - 1)] := cell;
      assert cvs[..] == before[TableIndex(row, lim, i) := cell];
      i := i + 1;
    }
  }

  lemma RowReadNone(bytes: seq<Byte>, t: seq<LP>, row: nat, rows: nat, lim: nat, m: Machine)
    requires row < rows && |t| == rows * lim && |bytes| == 16 * lim
    ensures RowRead(bytes, t, row, rows, lim, m, 0)
  {
  }

  lemma RadiansBack(x: real)
    ensures CellRadians(CellSeconds(x)) == x
  {
    assert TO_SECONDS * TO_RADIANS == 1.0;
  }

  // a cell after its seconds were rounded
  function RereadCell(c: Codec, cell: LP): LP {
    LP(CellRadians(Recoded(c, CellSeconds(cell.lam))), CellRadians(Recoded(c, CellSeconds(cell.phi))))
  }

  // the seconds of a cell are not rounded
  predicate CellExact(c: Codec, cell: LP) {
    Recoded(c, CellSeconds(cell.lam)) == CellSeconds(cell.lam)
    && Recoded(c, CellSeconds(cell.phi)) == CellSeconds(cell.phi)
  }

  lemma CellExactReread(c: Codec, cell: LP)
    ensures CellExact(c, cell) <==> RereadCell(c, cell) == cell
  {
    hide Recoded;
    RadiansBack(cell.lam);
    RadiansBack(cell.phi);
    RadiansInjective(Recoded(c, CellSeconds(cell.lam)), CellSeconds(cell.lam));
    RadiansInjective(Recoded(c, CellSeconds(cell.phi)), CellSeconds(cell.phi));
  }

  lemma RadiansInjective(x: real, y: real)
    ensures CellRadians(x) == CellRadians(y) <==> x == y
  {
  }

  // the rows of a file hold the table
  ghost predicate Holding(file: seq<seq<Byte>>, cvs: seq<LP>, rows: nat, lim: nat, m: Machine)
    requires |cvs| == rows * lim
  {
    |file| == rows && forall r :: 0 <= r < rows ==> RowHolds(file[r], cvs, r, rows, lim, m)
  }

  // What is read from a file written on another machine: every cell is in its place, with
  // its seconds rounded to the file's format.
  lemma CellsBack(file: seq<seq<Byte>>, cvs: seq<LP>, back: seq<LP>, rows: nat, lim: nat, m: Machine, n: Machine)
    requires Sound(n) && SameDisk(m, n) && |cvs| == |back| == rows * lim
    requires Holding(file, cvs, rows, lim, m) && RowsRead(file, back, rows, lim, n, rows)
    ensures forall x :: 0 <= x < |cvs| ==> back[x] == RereadCell(n.float, cvs[x])
    ensures back == cvs <==> forall c :: c in cvs ==> CellExact(n.float, c)
  {
    hide RowHolds, RowRead, Sound, SameDisk, RereadCell, CellExact;
    forall x | 0 <= x < rows * lim
      ensures back[x] == RereadCell(n.float, cvs[x])
    {
      var r, i := SplitIndex(x, rows, lim);
      CellBack(file[r], cvs, back, r, rows, lim, i, m, n);
    }
    AllCellsExact(n.float, cvs, back);
  }

  // Written on one machine and read on another, every cell comes back in its place.
  method CellsRoundTrip(cvs: seq<LP>, rows: nat, lim: nat, m: Machine, n: Machine, junk: seq<Byte>)
    returns (back: array<LP>)
    requires Sound(m) && Sound(n) && SameDisk(m, n)
    requires |cvs| == rows * lim && |junk| == 16 * lim
    ensures back.Length == |cvs| && forall x :: 0 <= x < |cvs| ==> back[x] == RereadCell(n.float, cvs[x])
    ensures back[..] == cvs <==> forall c :: c in cvs ==> CellExact(n.float, c)
  {
    hide RowHolds, RowsRead, Sound, SameDisk, RereadCell, CellExact;
    var file := WriteCells(cvs, rows, lim, m, junk);
    RowsSized(file, cvs, rows, lim, m);
    var ok;
    ok, back := ReadCells(file, rows, lim, n);
    CellsBack(file, cvs, back[..], rows, lim, m, n);
    assert forall x :: 0 <= x < |cvs| ==> back[..][x] == back[x];
  }

  // a table of shifts after its numbers were rounded
  ghost function RereadTable(h: Header, cvs: seq<LP>, n: Machine): CTable
    requires h.limLam >= 0 && h.limPhi >= 0
  {
    var g := Reread(h, n.double);
    CTable(g.ll, g.del, h.limLam, h.limPhi, seq(|cvs|, x requires 0 <= x < |cvs| => RereadCell(n.float, cvs[x])))
  }

  function TableOf(h: Header, cvs: seq<LP>): CTable
    requires h.limLam >= 0 && h.limPhi >= 0
  {
    CTable(h.ll, h.del, h.limLam, h.limPhi, cvs)
  }

  lemma LimitPositive(lo: real, hi: real, inc: real)
    requires inc > 0.0
    ensures NodeCount(lo, hi, inc) >= 1
  {
    QuotientNonneg(Abs(hi - lo), inc);
  }

  lemma QuotientNonneg(a: real, b: real)
    requires a >= 0.0 && b > 0.0
    ensures a / b >= 0.0
  {
  }

  lemma LimitsPositive(h: Header, m: Machine, n: Machine)
    requires Sound(m) && Sound(n) && SameDisk(m, n) && Writable(h, n)
    ensures Divides(FileHeader(h, m), n)
    ensures HeaderOf(FileHeader(h, m), n).Some? ==>
      HeaderOf(FileHeader(h, m), n).value.limLam >= 1 && HeaderOf(FileHeader(h, m), n).value.limPhi >= 1
  {
    hide NodeCount, Sound, SameDisk, Seconds, WestSeconds, FromSeconds, FarEnd, Stored, Fetched, OnDisk, Recoded;
    DoubleBack(m, n, Seconds(h.del.phi));
    DoubleBack(m, n, Seconds(h.del.lam));
    var f := FileHeader(h, m);
    LimitPositive(-Fetched(n, f.wLong), -Fetched(n, f.eLong), Fetched(n, f.longInc));
    LimitPositive(Fetched(n, f.sLat), Fetched(n, f.nLat), Fetched(n, f.latInc));
  }

  // The whole file: header and cells written on one machine, the header read on another and
  // the cells read with the limits it gave.  While the spans are kept the table comes back
  // with its numbers rounded, and unchanged exactly when none of them is.
  method FileRoundTrip(h: Header, cvs: seq<LP>, m: Machine, n: Machine, junk: seq<Byte>)
    returns (r: Option<CTable>)
    requires Sound(m) && Sound(n) && SameDisk(m, n) && Writable(h, n)
    requires |cvs| == h.limPhi * h.limLam && |junk| == 16 * h.limLam
    ensures SpansKept(h, n.double) ==> r == Some(RereadTable(h, cvs, n))
    ensures SpansKept(h, n.double) ==>
      (r == Some(TableOf(h, cvs)) <==> OriginExact(h, n.double) && forall c :: c in cvs ==> CellExact(n.float, c))
    ensures HeaderExact(h, n.double) && (forall c :: c in cvs ==> CellExact(n.float, c))
      ==> r == Some(TableOf(h, cvs))
  {
    hide RowHolds, RowsRead, Sound, SameDisk, RereadCell, CellExact, FileHeader, HeaderOf, Divides, SpansKept,
         HeaderExact, OriginExact, Writable;
    LimitsFit(h, n);
    LimitsPositive(h, m, n);
    HeaderRoundTrip(h, m, n);
    ExactReread(h, n.double);
    var f := WriteHeader(h, m);
    var file := WriteCells(cvs, h.limPhi, h.limLam, m, junk);
    RowsSized(file, cvs, h.limPhi, h.limLam, m);
    var g := ReadHeader(f, n);
    HeaderExactSpans(h, n);
    if g.None? {
      return None;
    }
    var ok, back := ReadCells(file, g.value.limPhi, g.value.limLam, n);
    if !ok {
      return None;
    }
    if SpansKept(h, n.double) {
      CellsBack(file, cvs, back[..], h.limPhi, h.limLam, m, n);
      TableBack(h, cvs, back[..], n);
    }
    return Some(CTable(g.value.ll, g.value.del, g.value.limLam, g.value.limPhi, back[..]));
  }

  lemma TableBack(h: Header, cvs: seq<LP>, back: seq<LP>, n: Machine)
    requires h.limLam >= 0 && h.limPhi >= 0 && |back| == |cvs|
    requires forall x :: 0 <= x < |cvs| ==> back[x] == RereadCell(n.float, cvs[x])
    ensures RereadTable(h, cvs, n) == TableOf(Reread(h, n.double), back)
    ensures TableOf(Reread(h, n.double), back) == TableOf(h, cvs) <==> Reread(h, n.double) == h && back == cvs
  {
    hide RereadCell;
  }

  lemma LimitsFit(h: Header, n: Machine)
    requires Writable(h, n)
    ensures h.limLam >= 1 && h.limPhi >= 1
  {
  }

  lemma HeaderExactSpans(h: Header, n: Machine)
    requires Writable(h, n)
    ensures HeaderExact(h, n.double) ==> SpansKept(h, n.double)
  {
    hide SpansKept, HeaderExact;
    if HeaderExact(h, n.double) {
      ExactSpans(h, n.double);
    }
  }

  lemma AllCellsExact(c: Codec, cvs: seq<LP>, back: seq<LP>)
    requires |back| == |cvs| && forall x :: 0 <= x < |cvs| ==> back[x] == RereadCell(c, cvs[x])
    ensures back == cvs <==> forall cell :: cell in cvs ==> CellExact(c, cell)
  {
    hide RereadCell, CellExact;
    forall x | 0 <= x < |cvs|
      ensures back[x] == cvs[x] <==> CellExact(c, cvs[x])
    {
      CellExactReread(c, cvs[x]);
    }
    if back == cvs {
      forall x | 0 <= x < |cvs|
        ensures CellExact(c, cvs[x])
      {
        assert back[x] == cvs[x];
      }
    }
  }

  lemma RowsSized(file: seq<seq<Byte>>, cvs: seq<LP>, rows: nat, lim: nat, m: Machine)
    requires |cvs| == rows * lim && Holding(file, cvs, rows, lim, m)
    ensures |file| == rows && forall r :: 0 <= r < rows ==> |file[r]| == 16 * lim
  {
  }

  lemma SplitIndex(x: nat, rows: nat, lim: nat) returns (r: nat, i: nat)
    requires x < rows * lim
    ensures r < rows && i < lim && TableIndex(r, lim, i) == x
  {
    r := x / lim;
    i := lim - 1 - x % lim;
    assert x == x / lim * lim + x % lim;
    assert r * lim < rows * lim;
  }

  lemma CellBack(bytes: seq<Byte>, cvs: seq<LP>, back: seq<LP>, r: nat, rows: nat, lim: nat, i: nat,
                 m: Machine, n: Machine)
    requires Sound(n) && SameDisk(m, n) && r < rows && i < lim && |cvs| == |back| == rows * lim
    requires RowHolds(bytes, cvs, r, rows, lim, m) && RowRead(bytes, back, r, rows, lim, n, lim)
    ensures 0 <= TableIndex(r, lim, i) < rows * lim
    ensures back[TableIndex(r, lim, i)] == RereadCell(n.float, cvs[TableIndex(r, lim, i)])
  {
    hide CellSeconds, CellRadians, Sound, SameDisk, Word, OnDisk, Recoded;
    TableIndexInside(r, rows, lim, i);
    var cell := TableCell(cvs, r, rows, lim, i);
    assert CellHolds(bytes, i, cell, m);
    assert TableCell(back, r, rows, lim, i) == CellOfWords(n, bytes, i);
    FloatBack(m, n, CellSeconds(cell.phi));
    FloatBack(m, n, CellSeconds(cell.lam));
  }

  // ---------- the text table ----------

  // micro-seconds of arc to radians
  const U_SEC_TO_RAD: real := 0.000000000004848136811095359935899141023

  datatype Pair = Pair(lam: int, phi: int)

  function Plus(p: Pair, q: Pair): Pair {
    Pair(p.lam + q.lam, p.phi + q.phi)
  }

  function Diff(p: Pair, q: Pair): Pair {
    Pair(p.lam - q.lam, p.phi - q.phi)
  }

  function ToCell(p: Pair): LP {
    LP(p.lam as real * U_SEC_TO_RAD, p.phi as real * U_SEC_TO_RAD)
  }

  // the first value of a row, then the change at each further column
  function Deltas(row: seq<Pair>): (d: seq<Pair>)
    ensures |d| == |row|
  {
    seq(|row|, i requires 0 <= i < |row| => if i == 0 then row[0] else Diff(row[i], row[i - 1]))
  }

  // a line of the text table: its number and the pairs on it
  datatype Line = Line(number: int, pairs: seq<Pair>)

  // the running sum up to column c
  function RunSum(d: seq<Pair>, c: nat): Pair
    requires c < |d|
  {
    if c == 0 then d[0] else Plus(RunSum(d, c - 1), d[c])
  }

  function RowCells(d: seq<Pair>): (r: seq<LP>)
    ensures |r| == |d|
  {
    seq(|d|, c requires 0 <= c < |d| => ToCell(RunSum(d, c)))
  }

  // the cells of the first k lines
  function TableTo(lines: seq<Line>, k: nat): seq<LP>
    requires k <= |lines|
  {
    if k == 0 then [] else TableTo(lines, k - 1) + RowCells(lines[k - 1].pairs)
  }

  // the first k lines carry their own positions
  ghost predicate Numbered(lines: seq<Line>, k: nat) {
    k <= |lines| && forall i :: 0 <= i < k ==> lines[i].number == i
  }

  // Load the table by running sums into the block p walks through.  It fails exactly when a
  // line is missing or out of its place, or when the text ends with the last number.
  method LoadTable(lines: seq<Line>, limLam: nat, limPhi: nat, more: bool) returns (ok: bool, cvs: array<LP>)
    requires limLam >= 1 && forall i :: 0 <= i < |lines| ==> |lines[i].pairs| == limLam
    ensures ok <==> Numbered(lines, limPhi) && more
    ensures ok ==> cvs.Length == limPhi * limLam && cvs[..] == TableTo(lines, limPhi)
  {
    hide TableTo, RowCells, RowPlace;
    RoomForRow(0, limPhi, limLam);
    cvs := new LP[limPhi * limLam](_ => LP(0.0, 0.0));
    var p, i := 0, 0;
    assert cvs[..0] == TableTo(lines, 0) by { TableStart(lines); }
    while i < limPhi
      invariant 0 <= i <= limPhi && Numbered(lines, i)
      invariant p == RowPlace(i, limLam) <= cvs.Length && cvs[..p] == TableTo(lines, i)
    {
      if i >= |lines| || lines[i].number != i {
        return false, cvs;
      }
      RoomForRow(i, limPhi, limLam);
      TableNext(lines, i);
      LoadRow(lines[i].pairs, cvs, p);
      p := p + limLam;
      i := i + 1;
    }
    RoomForRow(limPhi, limPhi, limLam);
    assert cvs[..p] == cvs[..];
    return more, cvs;
  }

  lemma TableStart(lines: seq<Line>)
    ensures TableTo(lines, 0) == []
  {
  }

  lemma TableNext(lines: seq<Line>, i: nat)
    requires i < |lines|
    ensures TableTo(lines, i + 1) == TableTo(lines, i) + RowCells(lines[i].pairs)
  {
  }

  // where row i starts
  function RowPlace(i: nat, lim: nat): nat {
    i * lim
  }

  lemma RoomForRow(i: nat, rows: nat, lim: nat)
    requires i <= rows
    ensures RowPlace(0, lim) == 0 && RowPlace(i, lim) == i * lim && RowPlace(rows, lim) == rows * lim
    ensures RowPlace(i, lim) + lim == RowPlace(i + 1, lim) == (i + 1) * lim
    ensures i < rows ==> RowPlace(i + 1, lim) <= rows * lim
  {
  }

  lemma RowCellsAt(d: seq<Pair>, c: nat)
    requires c < |d|
    ensures |RowCells(d)| == |d| && RowCells(d)[c] == ToCell(RunSum(d, c))
  {
  }

  // One line, from the place p on.
  method LoadRow(d: seq<Pair>, cvs: array<LP>, p: nat)
    requires |d| >= 1 && p + |d| <= cvs.Length
    modifies cvs
    ensures cvs[..p] == old(cvs[..p])
    ensures cvs[..p + |d|] == old(cvs[..p]) + RowCells(d)
  {
    hide ToCell, RowCells;
    var at := d[0];
    RowCellsAt(d, 0);
    cvs[p] := ToCell(at);
    var j := 1;
    while j < |d|
      invariant 1 <= j <= |d| && at == RunSum(d, j - 1)
      invariant cvs[..p] == old(cvs[..p])
      invariant |RowCells(d)| == |d| && forall c :: 0 <= c < j ==> cvs[p + c] == RowCells(d)[c]
    {
      at := Plus(at, d[j]);
      RowCellsAt(d, j);
      cvs[p + j] := ToCell(at);
      j := j + 1;
    }
  }

  // the text form of a table of whole micro-seconds
  function Lines(rows: seq<seq<Pair>>): seq<Line> {
    seq(|rows|, i requires 0 <= i < |rows| => Line(i, Deltas(rows[i])))
  }

  lemma {:induction false} RunSumBack(row: seq<Pair>, c: nat)
    requires c < |row|
    ensures RunSum(Deltas(row), c) == row[c]
  {
    if c > 0 {
      RunSumBack(row, c - 1);
    }
  }

  // Loading the text of a table puts every cell in its place.
  lemma {:induction false} LinesBack(rows: seq<seq<Pair>>, lim: nat, k: nat, r: nat, c: nat)
    requires r < k <= |rows| && c < lim && forall i :: 0 <= i < |rows| ==> |rows[i]| == lim
    ensures Numbered(Lines(rows), k)
    ensures |TableTo(Lines(rows), k)| == k * lim && 0 <= r * lim + c < k * lim
    ensures TableTo(Lines(rows), k)[r * lim + c] == ToCell(rows[r][c])
    ensures var cell := TableTo(Lines(rows), k)[r * lim + c];
      && cell.lam == rows[r][c].lam as real * 0.000000000004848136811095359935899141023
      && cell.phi == rows[r][c].phi as real * 0.000000000004848136811095359935899141023
  {
    hide TableTo, ToCell, RowCells;
    MicroSeconds(rows[r][c]);
    TableLength(rows, lim, k);
    TableLength(rows, lim, k - 1);
    RoomForRow(r, k, lim);
    TableUnfold(rows, lim, k, if r < k - 1 then r * lim + c else c);
    if r == k - 1 {
      LastRow(rows[r], c);
    } else {
      RoomForRow(r, k - 1, lim);
      LinesBack(rows, lim, k - 1, r, c);
    }
  }

  lemma MicroSeconds(p: Pair)
    ensures ToCell(p).lam == p.lam as real * 0.000000000004848136811095359935899141023
    ensures ToCell(p).phi == p.phi as real * 0.000000000004848136811095359935899141023
  {
  }

  lemma LastRow(row: seq<Pair>, c: nat)
    requires c < |row|
    ensures RowCells(Deltas(row))[c] == ToCell(row[c])
  {
    RunSumBack(row, c);
  }

  lemma TableUnfold(rows: seq<seq<Pair>>, lim: nat, k: nat, x: nat)
    requires 0 < k <= |rows| && |TableTo(Lines(rows), k - 1)| == (k - 1) * lim
    requires |rows[k - 1]| == lim
    ensures var t, u := TableTo(Lines(rows), k), TableTo(Lines(rows), k - 1);
      && |t| == |u| + lim
      && (x < |u| ==> t[x] == u[x])
      && (x < lim ==> t[|u| + x] == RowCells(Deltas(rows[k - 1]))[x])
  {
    hide RowCells;
  }

  lemma {:induction false} TableLength(rows: seq<seq<Pair>>, lim: nat, k: nat)
    requires k <= |rows| && forall i :: 0 <= i < |rows| ==> |rows[i]| == lim
    ensures |TableTo(Lines(rows), k)| == k * lim
  {
    if k > 0 {
      TableLength(rows, lim, k - 1);
    }
  }
}
