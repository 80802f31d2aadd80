/** Pairs of doubles and the matrices the approximation code works on: an array
    of row pointers, each row an array of pairs (projects.h, vector2). */
module Matrix {
  import opened Series

  datatype UV = UV(u: real, v: real)

  function Scale(m: real, p: UV): UV {
    UV(Times(m, p.u), Times(m, p.v))
  }

  function Sub(p: UV, q: UV): UV {
    UV(p.u - q.u, p.v - q.v)
  }

  // which of the two components of a pair
  datatype Part = InU | InV

  function Get(p: UV, k: Part): real {
    if k == InU then p.u else p.v
  }

  function Parts(s: seq<UV>, k: Part): (r: seq<real>)
    ensures |r| == |s|
  {
    seq(|s|, i requires 0 <= i < |s| => Get(s[i], k))
  }

  function MatParts(m: seq<seq<UV>>, k: Part): (r: seq<seq<real>>)
    ensures |r| == |m| && forall i :: 0 <= i < |m| ==> |r[i]| == |m[i]|
  {
    seq(|m|, i requires 0 <= i < |m| => Parts(m[i], k))
  }

  // one component of column m
  function Col(w: seq<seq<UV>>, k: Part, m: nat): (r: seq<real>)
    requires forall i :: 0 <= i < |w| ==> m < |w[i]|
    ensures |r| == |w|
  {
    seq(|w|, i requires 0 <= i < |w| => Get(w[i][m], k))
  }

  ghost predicate Wide(w: seq<seq<UV>>, nv: nat) {
    forall i :: 0 <= i < |w| ==> |w[i]| == nv
  }

  lemma ColUpdate(w: seq<seq<UV>>, k: nat, row: seq<UV>, nv: nat, p: Part, m: nat)
    requires Wide(w, nv) && k < |w| && |row| == nv && m < nv
    ensures Wide(w[k := row], nv)
    ensures Col(w[k := row], p, m) == Col(w, p, m)[k := Get(row[m], p)]
  {
  }

  lemma ColOfParts(w: seq<seq<UV>>, nv: nat, k: Part, m: nat)
    requires Wide(w, nv) && m < nv
    ensures Rect(MatParts(w, k), nv)
    ensures Col(w, k, m) == Column(MatParts(w, k), m)
  {
  }

  // ---------- the heap form ----------

  type Mat = array<array<UV>>

  ghost function RowSet(m: Mat): set<array<UV>>
    reads m
  {
    set i | 0 <= i < m.Length :: m[i]
  }

  ghost predicate Shape(m: Mat, nu: nat, nv: nat)
    reads m
  {
    && m.Length == nu
    && (forall i :: 0 <= i < nu ==> m[i].Length == nv)
    && (forall i, j :: 0 <= i < j < nu ==> m[i] != m[j])
  }

  // no row of one matrix is a row of the other
  ghost predicate Apart(m: Mat, n: Mat)
    reads m, n
  {
    m != n && forall i, j :: 0 <= i < m.Length && 0 <= j < n.Length ==> m[i] != n[j]
  }

  ghost function Contents(m: Mat): (s: seq<seq<UV>>)
    reads m, RowSet(m)
    ensures |s| == m.Length
    ensures forall i :: 0 <= i < |s| ==> s[i] == m[i][..]
  {
    seq(m.Length, i requires 0 <= i < m.Length reads m, RowSet(m) => m[i][..])
  }

  method NewMatrix(nu: nat, nv: nat) returns (m: Mat)
    ensures fresh(m) && Shape(m, nu, nv)
    ensures forall i :: 0 <= i < nu ==> fresh(m[i])
  {
    var filler := new UV[nv](_ => UV(0.0, 0.0));
    m := new array<UV>[nu](_ => filler);
    var i := 0;
    while i < nu
      invariant 0 <= i <= nu
      invariant fresh(m) && fresh(filler)
      invariant forall k :: 0 <= k < nu ==> fresh(m[k]) && m[k].Length == nv
      invariant forall k :: 0 <= k < i ==> m[k] != filler
      invariant forall j, k :: 0 <= j < k < i ==> m[j] != m[k]
    {
      var row := new UV[nv](_ => UV(0.0, 0.0));
      m[i] := row;
      i := i + 1;
    }
  }
}
