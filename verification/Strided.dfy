/** Coordinates behind pointers at a fixed stride: point i of a pointer is i * offset
    elements behind it.  Pointers may lead into one buffer, as with interleaved x, y, z. */
module Strided {

  // one element of a buffer: HUGE_VAL or a number
  datatype Coord = HugeVal | Num(r: real)

  datatype Pointer = Pointer(data: array<Coord>, base: nat)

  function Slot(p: Pointer, offset: nat, i: nat): nat {
    p.base + i * offset
  }

  // the first count points lie inside the buffer
  ghost predicate Fits(p: Pointer, offset: nat, count: nat) {
    offset >= 1 && forall i: nat :: i < count ==> Slot(p, offset, i) < p.data.Length
  }

  // The last point decides that.
  lemma FitsLast(p: Pointer, offset: nat, count: nat)
    requires offset >= 1
    ensures Fits(p, offset, count) <==> count == 0 || Slot(p, offset, count - 1) < p.data.Length
  {
    forall i: nat | i < count
      ensures Slot(p, offset, i) <= Slot(p, offset, count - 1)
    {
      assert i * offset <= (count - 1) * offset;
    }
  }

  // no element is a point of both pointers
  ghost predicate Apart(p: Pointer, q: Pointer, offset: nat, count: nat) {
    p.data == q.data ==>
      forall i: nat, j: nat :: i < count && j < count ==> Slot(p, offset, i) != Slot(q, offset, j)
  }

  lemma SeparateApart(p: Pointer, q: Pointer, offset: nat, count: nat)
    requires p.data != q.data
    ensures Apart(p, q, offset, count) && Apart(q, p, offset, count)
  {
  }

  // Pointers into one buffer are apart when they start at different places of the stride.
  lemma InterleavedApart(p: Pointer, q: Pointer, offset: nat, count: nat)
    requires p.base < offset && q.base < offset && p.base != q.base
    ensures Apart(p, q, offset, count)
  {
    forall i: nat, j: nat | i < count && j < count
      ensures Slot(p, offset, i) != Slot(q, offset, j)
    {
      if i < j {
        StrideBetween(p, q, offset, i, j);
      } else if j < i {
        StrideBetween(q, p, offset, j, i);
      }
    }
  }

  lemma StrideBetween(p: Pointer, q: Pointer, offset: nat, i: nat, j: nat)
    requires p.base < offset && i < j
    ensures Slot(p, offset, i) < Slot(q, offset, j)
  {
    assert (i + 1) * offset <= j * offset;
    assert (i + 1) * offset == i * offset + offset;
  }

  lemma SlotsDistinct(p: Pointer, offset: nat, i: nat, j: nat)
    requires offset >= 1 && i != j
    ensures Slot(p, offset, i) != Slot(p, offset, j)
  {
    assert (i - j) * offset != 0;
    assert (i - j) * offset == i * offset - j * offset;
  }

  // the points of a pointer
  ghost function Values(p: Pointer, offset: nat, count: nat): (s: seq<Coord>)
    requires Fits(p, offset, count)
    reads p.data
    ensures |s| == count && forall i :: 0 <= i < count ==> s[i] == p.data[Slot(p, offset, i)]
  {
    seq(count, i requires 0 <= i < count reads p.data => p.data[Slot(p, offset, i)])
  }

  // the element s of a buffer is one of the points
  ghost predicate IsPoint(data: array<Coord>, s: int, p: Pointer, offset: nat, count: nat) {
    p.data == data && exists i: nat :: i < count && s == Slot(p, offset, i)
  }

  // Between the points of three pointers nothing changed.
  twostate predicate RestKept(x: Pointer, y: Pointer, z: Pointer, offset: nat, count: nat)
    reads x.data, y.data, z.data
  {
    forall data, s | data in {x.data, y.data, z.data} && 0 <= s < data.Length ::
      (!IsPoint(data, s, x, offset, count) && !IsPoint(data, s, y, offset, count) && !IsPoint(data, s, z, offset, count))
      ==> data[s] == old(data[s])
  }

  // Assign to point i of p; the points of q and r, and everything between, stay.
  method StoreAt(p: Pointer, offset: nat, ghost count: nat, i: nat, v: Coord, ghost q: Pointer, ghost r: Pointer)
    requires Fits(p, offset, count) && Fits(q, offset, count) && Fits(r, offset, count) && i < count
    requires Apart(p, q, offset, count) && Apart(p, r, offset, count)
    modifies p.data
    ensures Values(p, offset, count) == old(Values(p, offset, count))[i := v]
    ensures Values(q, offset, count) == old(Values(q, offset, count))
    ensures Values(r, offset, count) == old(Values(r, offset, count))
    ensures RestKept(p, q, r, offset, count)
  {
    var io := i * offset;
    assert p.base + io == Slot(p, offset, i);
    p.data[p.base + io] := v;
    forall j: nat | j < count && j != i
      ensures Slot(p, offset, j) != Slot(p, offset, i)
    {
      SlotsDistinct(p, offset, i, j);
    }
  }

  // point i of p
  method Fetch(p: Pointer, offset: nat, ghost count: nat, i: nat) returns (v: Coord)
    requires Fits(p, offset, count) && i < count
    ensures v == Values(p, offset, count)[i]
  {
    var io := i * offset;
    assert p.base + io == Slot(p, offset, i);
    v := p.data[p.base + io];
  }
}
