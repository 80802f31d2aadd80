/** Zero-terminated strings in character buffers. */
module CStrings {

  const NUL: char := '\0'

  predicate NoNul(s: string) {
    forall i :: 0 <= i < |s| ==> s[i] != NUL
  }

  // the C string that starts at offset i
  function CStr(b: seq<char>, i: nat): string
    decreases |b| - i
  {
    if i >= |b| || b[i] == NUL then "" else [b[i]] + CStr(b, i + 1)
  }

  // the buffer holds s and its terminator
  ghost predicate Holds(b: seq<char>, s: string) {
    |s| < |b| && b[..|s|] == s && b[|s|] == NUL && NoNul(s)
  }

  method StrLen(b: array<char>, ghost s: string) returns (n: nat)
    requires Holds(b[..], s)
    ensures n == |s|
  {
    assert forall i :: 0 <= i < |s| ==> b[..][i] == b[..][..|s|][i] == s[i];
    assert b[..][|s|] == NUL;
    n := 0;
    while b[n] != NUL
      invariant 0 <= n <= |s|
      decreases |s| - n
    {
      n := n + 1;
    }
  }

  // p stands in b from position i on
  ghost predicate Stands(b: seq<char>, i: nat, p: string) {
    i + |p| <= |b| && forall j :: 0 <= j < |p| ==> b[i + j] == p[j]
  }

  lemma StandsIn(b: seq<char>, c: seq<char>, i: nat, p: string)
    requires Stands(b, i, p) && i + |p| <= |c|
    requires forall j :: i <= j < i + |p| ==> c[j] == b[j]
    ensures Stands(c, i, p)
  {
  }

  // A string that stands in the buffer and is followed by a terminator.
  lemma {:induction false} CStrStands(b: seq<char>, p: string, i: nat)
    requires i + |p| < |b| && NoNul(p) && Stands(b, i, p)
    requires b[i + |p|] == NUL
    ensures CStr(b, i) == p
    decreases |p|
  {
    if p != "" {
      assert b[i + 0] == p[0];
      forall j | 0 <= j < |p| - 1
        ensures b[i + 1 + j] == p[1..][j]
      {
        assert b[i + (j + 1)] == p[j + 1];
      }
      CStrStands(b, p[1..], i + 1);
    }
  }
}
