/** swap_words of pj_gridinfo.c and nad2bin.c: reversing the bytes of consecutive
    words in place. */
module ByteSwap {
  import opened Arith

  type Byte = x: int | 0 <= x < 256

  function Reversed(w: seq<Byte>): (r: seq<Byte>)
    ensures |r| == |w|
  {
    seq(|w|, i requires 0 <= i < |w| => w[|w| - 1 - i])
  }

  lemma ReversedTwice(w: seq<Byte>)
    ensures Reversed(Reversed(w)) == w
  {
  }

  // count words of the given size, each with its bytes in reverse order
  function Swapped(s: seq<Byte>, size: nat, count: nat): (r: seq<Byte>)
    requires |s| == size * count
    ensures |r| == |s|
    decreases count
  {
    if count == 0 then []
    else
      assert size * count == size + size * (count - 1);
      Reversed(s[..size]) + Swapped(s[size..], size, count - 1)
  }

  lemma SwappedCons(head: seq<Byte>, tail: seq<Byte>, size: nat, count: nat)
    requires |head| == size && |tail| == size * count
    ensures |head + tail| == size * (count + 1)
    ensures Swapped(head + tail, size, count + 1) == Reversed(head) + Swapped(tail, size, count)
  {
    assert size * (count + 1) == size + size * count;
    assert (head + tail)[..size] == head && (head + tail)[size..] == tail;
  }

  // Swapping is its own inverse.
  lemma {:induction false} SwappedTwice(s: seq<Byte>, size: nat, count: nat)
    requires |s| == size * count
    ensures Swapped(Swapped(s, size, count), size, count) == s
    decreases count
  {
    if count > 0 {
      assert size * count == size + size * (count - 1);
      var head, tail := s[..size], s[size..];
      var t := Swapped(tail, size, count - 1);
      assert s == head + tail;
      SwappedTwice(tail, size, count - 1);
      ReversedTwice(head);
      SwappedCons(head, tail, size, count - 1);
      SwappedCons(Reversed(head), t, size, count - 1);
    } else {
      assert size * 0 == 0;
    }
  }

  lemma WordInside(size: nat, count: nat, k: nat)
    requires k < count
    ensures 0 <= size * k && size * k + size <= size * count
  {
    assert size * (k + 1) <= size * count;
    assert size * (k + 1) == size * k + size;
  }

  // Word k of the swapped bytes is word k reversed.
  lemma {:induction false} SwappedWord(s: seq<Byte>, size: nat, count: nat, k: nat)
    requires |s| == size * count && k < count
    ensures size * k + size <= |s|
    ensures Swapped(s, size, count)[size * k..size * k + size] == Reversed(s[size * k..size * k + size])
    decreases count
  {
    hide Reversed;
    WordInside(size, count, k);
    assert size * count == size + size * (count - 1);
    var t := Swapped(s, size, count);
    if k == 0 {
      assert size * 0 == 0;
    } else {
      SwappedWord(s[size..], size, count - 1, k - 1);
      WordInside(size, count - 1, k - 1);
      var a := size * (k - 1);
      assert size * k == size + a;
      SwappedRest(s, size, count);
      SliceBehind(t, size, a, size);
      SliceBehind(s, size, a, size);
    }
  }

  lemma SwappedRest(s: seq<Byte>, size: nat, count: nat)
    requires |s| == size * count && count >= 1 && size * count == size + size * (count - 1)
    ensures Swapped(s, size, count)[size..] == Swapped(s[size..], size, count - 1)
  {
    hide Reversed, Swapped;
    SwappedHead(s, size, count);
    RestOf(Reversed(s[..size]), Swapped(s[size..], size, count - 1));
  }

  lemma SwappedHead(s: seq<Byte>, size: nat, count: nat)
    requires |s| == size * count && count >= 1 && size * count == size + size * (count - 1)
    ensures Swapped(s, size, count) == Reversed(s[..size]) + Swapped(s[size..], size, count - 1)
  {
    hide Reversed;
  }

  lemma RestOf(a: seq<Byte>, b: seq<Byte>)
    ensures (a + b)[|a|..] == b
  {
  }

  lemma SliceBehind(s: seq<Byte>, n: nat, a: nat, size: nat)
    requires n + a + size <= |s|
    ensures s[n..][a..a + size] == s[n + a..n + a + size]
  {
  }

  // one word, starting at byte `start`
  method SwapWord(data: array<Byte>, start: nat, size: nat)
    requires start + size <= data.Length
    modifies data
    ensures data[start..start + size] == Reversed(old(data[start..start + size]))
    ensures data[..start] == old(data[..start])
    ensures data[start + size..] == old(data[start + size..])
  {
    hide Swapping, Reversed;
    ghost var b := data[..];
    var i := 0;
    SwappingStart(b, start, size);
    while i < size / 2
      invariant 0 <= i <= size / 2
      invariant Swapping(b, data[..], start, size, i)
    {
      SwappingNext(b, data[..], start, size, i);
      var t := data[start + i];
      data[start + i] := data[start + (size - i - 1)];
      data[start + (size - i - 1)] := t;
      i := i + 1;
    }
    SwappingEnd(b, data[..], start, size, i);
  }

  // where byte k of the word comes from when the outer i pairs are exchanged
  function Origin(k: nat, start: nat, size: nat, i: nat): int {
    if start <= k < start + i || start + size - i <= k < start + size then start + (start + size - 1 - k) else k
  }

  ghost predicate Swapping(b: seq<Byte>, c: seq<Byte>, start: nat, size: nat, i: nat) {
    && |c| == |b| && start + size <= |b| && 2 * i <= size
    && (forall k: nat :: k < |b| ==> 0 <= Origin(k, start, size, i) < |b| && c[k] == b[Origin(k, start, size, i)])
  }

  lemma SwappingStart(b: seq<Byte>, start: nat, size: nat)
    requires start + size <= |b|
    ensures Swapping(b, b, start, size, 0)
  {
  }

  lemma SwappingNext(b: seq<Byte>, c: seq<Byte>, start: nat, size: nat, i: nat)
    requires Swapping(b, c, start, size, i) && i < size / 2
    ensures start + i < start + (size - i - 1) < |c|
    ensures Swapping(b, c[start + i := c[start + (size - i - 1)]][start + (size - i - 1) := c[start + i]],
                     start, size, i + 1)
  {
    var low, high := start + i, start + (size - i - 1);
    var d := c[low := c[high]][high := c[low]];
    assert Origin(low, start, size, i) == low && Origin(high, start, size, i) == high;
    assert Origin(low, start, size, i + 1) == high && Origin(high, start, size, i + 1) == low;
    forall k: nat | k < |b|
      ensures 0 <= Origin(k, start, size, i + 1) < |b| && d[k] == b[Origin(k, start, size, i + 1)]
    {
      if k != low && k != high {
        assert Origin(k, start, size, i + 1) == Origin(k, start, size, i);
      }
    }
  }

  lemma SwappingEnd(b: seq<Byte>, c: seq<Byte>, start: nat, size: nat, i: nat)
    requires Swapping(b, c, start, size, i) && i == size / 2
    ensures c[start..start + size] == Reversed(b[start..start + size])
    ensures c[..start] == b[..start] && c[start + size..] == b[start + size..]
  {
    var u, w := c[start..start + size], Reversed(b[start..start + size]);
    forall k | 0 <= k < size
      ensures u[k] == w[k]
    {
      assert Origin(start + k, start, size, i) == start + (size - 1 - k);
    }
    assert forall k: nat :: k < start || start + size <= k < |b| ==> Origin(k, start, size, i) == k;
  }

  // One more word at the end.
  lemma {:induction false} SwappedSnoc(s: seq<Byte>, w: seq<Byte>, size: nat, count: nat)
    requires |s| == size * count && |w| == size
    ensures |s + w| == size * (count + 1)
    ensures Swapped(s + w, size, count + 1) == Swapped(s, size, count) + Reversed(w)
    decreases count
  {
    assert size * (count + 1) == size * count + size;
    if count == 0 {
      assert size * 0 == 0;
      assert (s + w)[..size] == w;
    } else {
      assert size * count == size + size * (count - 1);
      SwappedSnoc(s[size..], w, size, count - 1);
      assert (s + w)[..size] == s[..size];
      assert (s + w)[size..] == s[size..] + w;
    }
  }

  // Each of the words from `start` on is reversed by itself, and nothing else changes.
  method SwapWords(data: array<Byte>, start: nat, size: nat, count: nat)
    requires start + size * count <= data.Length
    modifies data
    ensures data[..start] == old(data[..start])
    ensures data[start..start + size * count] == Swapped(old(data[start..start + size * count]), size, count)
    ensures data[start + size * count..] == old(data[start + size * count..])
  {
    hide Swapped, Reversed;
    ghost var s := data[..];
    var word := 0;
    var at := start;
    SwappedNone(s[start..at], size);
    while word < count
      invariant 0 <= word <= count && start <= at <= data.Length
      invariant at == start + size * word && at - start == size * word
      invariant data[..start] == s[..start]
      invariant data[start..at] == Swapped(s[start..at], size, word)
      invariant data[at..] == s[at..]
    {
      WordInside(size, count, word);
      SwappedSnoc(s[start..at], s[at..at + size], size, word);
      assert s[start..at] + s[at..at + size] == s[start..at + size];
      ghost var before := data[..];
      SwapWord(data, at, size);
      SliceSwap(s, before, data[..], start, at, size);
      at := at + size;
      word := word + 1;
    }
  }

  lemma SwappedNone(s: seq<Byte>, size: nat)
    requires s == []
    ensures size * 0 == 0 && Swapped(s, size, 0) == s
  {
  }

  lemma SliceSwap(s: seq<Byte>, before: seq<Byte>, after: seq<Byte>, start: nat, at: nat, size: nat)
    requires |s| == |before| == |after| && start <= at && at + size <= |before|
    requires after[at..at + size] == Reversed(before[at..at + size])
    requires after[..at] == before[..at] && after[at + size..] == before[at + size..]
    requires before[at..] == s[at..]
    ensures after[start..at + size] == before[start..at] + Reversed(s[at..at + size])
    ensures after[at + size..] == s[at + size..]
    ensures after[..start] == before[..start]
  {
    assert before[at..at + size] == before[at..][..size] == s[at..][..size] == s[at..at + size];
    assert before[at + size..] == before[at..][size..] == s[at..][size..] == s[at + size..];
    assert after[start..at] == after[..at][start..] == before[..at][start..] == before[start..at];
    assert after[start..at + size] == after[start..at] + after[at..at + size];
    assert after[..start] == after[..at][..start];
    assert before[..start] == before[..at][..start];
  }
}
