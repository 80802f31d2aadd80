/** The cell block of a ctable2 file: written by nad2bin.c, loaded by nad_init.c.  On a
    machine with the most significant byte first the writer swaps half of the words only. */
module Ctable2 {
  import opened ByteSwap
  import opened Ntv2

  // words in native form to the words of the file, or back, when all of them are swapped
  ghost predicate AllOnDisk(m: Machine, b: seq<Byte>, c: seq<Byte>, words: nat) {
    |b| == |c| == 4 * words && forall k :: 0 <= k < words ==> Word(c, k) == OnDisk(m, Word(b, k))
  }

  // what the writer leaves: of the two words a cell has, it counts one
  ghost predicate HalfOnDisk(m: Machine, b: seq<Byte>, c: seq<Byte>, cells: nat) {
    && |b| == |c| == 8 * cells
    && (forall k :: 0 <= k < cells ==> Word(c, k) == OnDisk(m, Word(b, k)))
    && (forall k :: cells <= k < 2 * cells ==> Word(c, k) == Word(b, k))
  }

  method SaveBlock(m: Machine, cvs: array<Byte>, cells: nat)
    requires cvs.Length == 8 * cells
    modifies cvs
    ensures HalfOnDisk(m, old(cvs[..]), cvs[..], cells)
  {
    if !m.lsb {
      ghost var b := cvs[..];
      SwapWords(cvs, 0, 4, cells);
      HalfSwapped(m, b, cvs[..], cells);
    }
  }

  lemma HalfSwapped(m: Machine, b: seq<Byte>, c: seq<Byte>, cells: nat)
    requires !m.lsb && |b| == |c| == 8 * cells
    requires c[0..0 + 4 * cells] == Swapped(b[0..0 + 4 * cells], 4, cells) && c[4 * cells..] == b[4 * cells..]
    ensures HalfOnDisk(m, b, c, cells)
  {
    hide Swapped, Reversed, Word;
    var h := 4 * cells;
    assert b[0..0 + h] == b[..h] && c[0..0 + h] == c[..h];
    forall k | 0 <= k < cells
      ensures Word(c, k) == OnDisk(m, Word(b, k))
    {
      WordSlice(b[..h], k);
      WordSlice(c[..h], k);
      SwappedWord(b[..h], 4, cells, k);
      WordInFront(b, h, k);
      WordInFront(c, h, k);
    }
    forall k | cells <= k < 2 * cells
      ensures Word(c, k) == Word(b, k)
    {
      WordBehind(b, c, h, k);
    }
  }

  lemma WordSlice(b: seq<Byte>, k: nat)
    requires 4 * k + 4 <= |b|
    ensures Word(b, k) == b[4 * k..4 * k + 4]
  {
  }

  lemma WordInFront(b: seq<Byte>, h: nat, k: nat)
    requires 4 * k + 4 <= h <= |b|
    ensures Word(b[..h], k) == Word(b, k)
  {
  }

  lemma WordBehind(b: seq<Byte>, c: seq<Byte>, h: nat, k: nat)
    requires h <= 4 * k && 4 * k + 4 <= |b| == |c| && c[h..] == b[h..]
    ensures Word(c, k) == Word(b, k)
  {
    forall x | 4 * k <= x < 4 * k + 4
      ensures c[x] == b[x]
    {
      assert c[x] == c[h..][x - h];
    }
  }

  method LoadBlock(m: Machine, cvs: array<Byte>, cells: nat)
    requires cvs.Length == 8 * cells
    modifies cvs
    ensures AllOnDisk(m, old(cvs[..]), cvs[..], 2 * cells)
  {
    if !m.lsb {
      ghost var b := cvs[..];
      SwapWords(cvs, 0, 4, 2 * cells);
      assert b[0..0 + 4 * (2 * cells)] == b && cvs[0..0 + 4 * (2 * cells)] == cvs[..];
      forall k | 0 <= k < 2 * cells
        ensures Word(cvs[..], k) == OnDisk(m, Word(b, k))
      {
        SwappedWord(b, 4, 2 * cells, k);
      }
    }
  }

  // every word is the other machine's form of the word it was
  ghost predicate Transferred(m: Machine, n: Machine, b: seq<Byte>, d: seq<Byte>, cells: nat) {
    && |b| == |d| == 8 * cells
    && forall k :: 0 <= k < 2 * cells ==> Word(d, k) == OnDisk(n, OnDisk(m, Word(b, k)))
  }

  // no word of the second half differs from its reversal
  ghost predicate EvenWords(b: seq<Byte>, cells: nat) {
    |b| == 8 * cells && forall k :: cells <= k < 2 * cells ==> Reversed(Word(b, k)) == Word(b, k)
  }

  // What the loader makes of the block is the block that was written exactly when the writer
  // has the file's byte order, or swapping the second half makes no difference.
  lemma TransferExact(m: Machine, n: Machine, b: seq<Byte>, c: seq<Byte>, d: seq<Byte>, cells: nat)
    requires HalfOnDisk(m, b, c, cells) && AllOnDisk(n, c, d, 2 * cells)
    ensures Transferred(m, n, b, d, cells) <==> m.lsb || EvenWords(b, cells)
  {
    hide Word, Reversed;
    forall k | 0 <= k < 2 * cells
      ensures Word(d, k) == OnDisk(n, OnDisk(m, Word(b, k)))
        <==> k < cells || m.lsb || Reversed(Word(b, k)) == Word(b, k)
    {
      assert Word(d, k) == OnDisk(n, Word(c, k));
      OnDiskTwice(n, Word(c, k));
      OnDiskTwice(n, OnDisk(m, Word(b, k)));
    }
    if !m.lsb && Transferred(m, n, b, d, cells) {
      forall k | cells <= k < 2 * cells
        ensures Reversed(Word(b, k)) == Word(b, k)
      {
        assert Word(d, k) == OnDisk(n, OnDisk(m, Word(b, k)));
      }
    }
  }

  // the block holds these floats, in the form of the machine
  ghost predicate Encodes(m: Machine, b: seq<Byte>, xs: seq<real>) {
    |b| == 4 * |xs| && forall k :: 0 <= k < |xs| ==> Word(b, k) == m.float.enc(xs[k])
  }

  // A word that was transferred stands for the same number.
  lemma SameNumber(m: Machine, n: Machine, x: real)
    requires SameDisk(m, n)
    ensures OnDisk(n, OnDisk(m, m.float.enc(x))) == n.float.enc(x)
  {
    OnDiskTwice(n, n.float.enc(x));
  }

  // So the loaded block holds the same floats under that condition and no other.
  lemma TransferNumbers(m: Machine, n: Machine, b: seq<Byte>, c: seq<Byte>, d: seq<Byte>, cells: nat, xs: seq<real>)
    requires HalfOnDisk(m, b, c, cells) && AllOnDisk(n, c, d, 2 * cells)
    requires SameDisk(m, n) && Encodes(m, b, xs)
    ensures Encodes(n, d, xs) <==> m.lsb || EvenWords(b, cells)
  {
    hide Word, OnDisk, SameDisk, EvenWords;
    TransferExact(m, n, b, c, d, cells);
    forall k | 0 <= k < 2 * cells
      ensures OnDisk(n, OnDisk(m, Word(b, k))) == n.float.enc(xs[k])
    {
      SameNumber(m, n, xs[k]);
    }
  }

  // A concrete loss: the number 1 in the second word of a single cell, written with the most
  // significant byte first, keeps that order in the file.
  lemma OneCellLost(m: Machine, n: Machine, b: seq<Byte>, c: seq<Byte>, d: seq<Byte>)
    requires !m.lsb && n.lsb && b == [0, 0, 0, 0, 63, 128, 0, 0]
    requires HalfOnDisk(m, b, c, 1) && AllOnDisk(n, c, d, 2)
    ensures Word(d, 1) == [63, 128, 0, 0] && OnDisk(n, OnDisk(m, Word(b, 1))) == [0, 0, 128, 63]
    ensures !Transferred(m, n, b, d, 1)
  {
    assert Word(b, 1) == [63, 128, 0, 0];
    assert Reversed([63, 128, 0, 0])[0] == 0;
  }

  // Write the block on one machine and load it on another.  Every word, and every float the
  // block holds, arrives exactly when the writer has the file's byte order or swapping the
  // second half makes no difference.
  method WriteAndLoad(m: Machine, n: Machine, cvs: array<Byte>, cells: nat, ghost xs: seq<real>)
    requires cvs.Length == 8 * cells
    modifies cvs
    ensures Transferred(m, n, old(cvs[..]), cvs[..], cells) <==> m.lsb || EvenWords(old(cvs[..]), cells)
    ensures SameDisk(m, n) && Encodes(m, old(cvs[..]), xs) ==>
      (Encodes(n, cvs[..], xs) <==> m.lsb || EvenWords(old(cvs[..]), cells))
  {
    hide HalfOnDisk, AllOnDisk, Transferred, EvenWords, Encodes, SameDisk;
    ghost var b := cvs[..];
    SaveBlock(m, cvs, cells);
    ghost var c := cvs[..];
    LoadBlock(n, cvs, cells);
    TransferExact(m, n, b, c, cvs[..], cells);
    if SameDisk(m, n) && Encodes(m, b, xs) {
      TransferNumbers(m, n, b, c, cvs[..], cells, xs);
    }
  }
}
