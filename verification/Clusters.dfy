/** Cluster addressing shared by the FAT and exFAT scanners: byte ranges of a chain of clusters. */
module Clusters {
  import opened Extents

  /** The cluster heap: cluster 2 begins at byte `start`, each cluster is `unit` bytes. */
  datatype Heap = Heap(start: nat, unit: nat)

  function ClusterOffset(h: Heap, cluster: nat): nat
    requires cluster >= 2
  {
    h.start + Times(cluster - 2, h.unit)
  }

  /** What is left of `limit` bytes after `n` whole units of `unit` bytes. */
  function Rest(limit: nat, n: nat, unit: nat): nat {
    if n == 0 then limit else Rest(limit, n - 1, unit) - Min(Rest(limit, n - 1, unit), unit)
  }

  /** The byte range of each visited cluster, the last one cut at the limit. */
  function Pieces(h: Heap, v: seq<nat>, limit: nat): (ps: seq<Extent>)
    requires forall i :: 0 <= i < |v| ==> v[i] >= 2
    ensures |ps| == |v|
  {
    if v == [] then []
    else
      assert forall i :: 0 <= i < |v| - 1 ==> DropLast(v)[i] == v[i];
      Pieces(h, DropLast(v), limit) +
      [Extent(ClusterOffset(h, Last(v)), Min(Rest(limit, |v| - 1, h.unit), h.unit))]
  }

  lemma {:induction false} RestIs(limit: nat, n: nat, unit: nat)
    ensures Rest(limit, n, unit) == limit - Min(limit, Times(n, unit))
  {
    if n > 0 {
      RestIs(limit, n - 1, unit);
    }
  }

  lemma {:induction false} RestZero(limit: nat, n: nat, m: nat, unit: nat)
    requires Rest(limit, n, unit) == 0 && n <= m
    ensures Rest(limit, m, unit) == 0
  {
    if n < m { RestZero(limit, n, m - 1, unit); }
  }

  /** Taking the first unit before the others. */
  lemma {:induction false} RestFirst(limit: nat, n: nat, unit: nat)
    requires n > 0
    ensures Rest(limit, n, unit) == Rest(limit - Min(limit, unit), n - 1, unit)
  {
    if n > 1 { RestFirst(limit, n - 1, unit); }
  }

  lemma {:induction false} RestAdd(limit: nat, m: nat, n: nat, unit: nat)
    ensures Rest(limit, m + n, unit) == Rest(Rest(limit, m, unit), n, unit)
  {
    if n > 0 { RestAdd(limit, m, n - 1, unit); }
  }

  lemma {:induction false} PiecesSnoc(h: Heap, v: seq<nat>, c: nat, limit: nat)
    requires (forall i :: 0 <= i < |v| ==> v[i] >= 2) && c >= 2
    ensures Pieces(h, v + [c], limit) ==
            Pieces(h, v, limit) +
            [Extent(ClusterOffset(h, c), Min(Rest(limit, |v|, h.unit), h.unit))]
  {
    assert DropLast(v + [c]) == v;
  }

  /** The i-th piece starts at the i-th cluster and is at most one cluster long. */
  lemma {:induction false} PieceAt(h: Heap, v: seq<nat>, limit: nat, i: nat)
    requires forall k :: 0 <= k < |v| ==> v[k] >= 2
    requires i < |v|
    ensures Pieces(h, v, limit)[i] ==
            Extent(ClusterOffset(h, v[i]), Min(Rest(limit, i, h.unit), h.unit))
  {
    assert forall k :: 0 <= k < |v| - 1 ==> DropLast(v)[k] == v[k];
    if i < |v| - 1 { PieceAt(h, DropLast(v), limit, i); }
  }

  lemma {:induction false} RestPositive(limit: nat, n: nat, i: nat, unit: nat)
    requires Rest(limit, n, unit) > 0 && i <= n
    ensures Rest(limit, i, unit) > 0
    decreases n - i
  {
    if i < n { RestPositive(limit, n, i + 1, unit); }
  }

  /** Different clusters own disjoint byte ranges. */
  lemma {:induction false} ClustersApart(h: Heap, c: nat, d: nat)
    requires 2 <= c < d
    ensures ClusterOffset(h, c) + h.unit <= ClusterOffset(h, d)
  {
    TimesMono(c - 1, d - 2, h.unit);
  }

  ghost predicate Apart(a: Extent, b: Extent) { a.End() <= b.offset || b.End() <= a.offset }

  lemma {:induction false} PiecesApart(h: Heap, v: seq<nat>, limit: nat, w: seq<nat>, other: nat, i: nat, j: nat)
    requires (forall k :: 0 <= k < |v| ==> v[k] >= 2) && (forall k :: 0 <= k < |w| ==> w[k] >= 2)
    requires i < |v| && j < |w| && v[i] != w[j]
    ensures Apart(Pieces(h, v, limit)[i], Pieces(h, w, other)[j])
  {
    PieceAt(h, v, limit, i);
    PieceAt(h, w, other, j);
    if v[i] < w[j] { ClustersApart(h, v[i], w[j]); } else { ClustersApart(h, w[j], v[i]); }
  }

  lemma {:induction false} PiecesTotal(h: Heap, v: seq<nat>, limit: nat)
    requires forall i :: 0 <= i < |v| ==> v[i] >= 2
    ensures Total(Pieces(h, v, limit)) + Rest(limit, |v|, h.unit) == limit
  {
    if v != [] {
      assert forall i :: 0 <= i < |v| - 1 ==> DropLast(v)[i] == v[i];
      PiecesTotal(h, DropLast(v), limit);
      assert DropLast(Pieces(h, v, limit)) == Pieces(h, DropLast(v), limit);
    }
  }

  /** Where cluster c begins: c - 2 clusters after the heap does. */
  function ClusterStart(h: Heap, c: nat): nat
    requires c >= 2
  {
    var k: nat := c - 2;
    h.start + k * h.unit
  }

  /** The bytes of whole clusters, in order. */
  function HeapBytes(h: Heap, v: seq<nat>): seq<nat>
    requires forall i :: 0 <= i < |v| ==> v[i] >= 2
  {
    if v == [] then []
    else
      var at := ClusterStart(h, Last(v));
      HeapBytes(h, DropLast(v)) + seq(h.unit, i requires 0 <= i => at + i)
  }

  lemma {:induction false} HeapBytesLength(h: Heap, v: seq<nat>)
    requires forall i :: 0 <= i < |v| ==> v[i] >= 2
    ensures |HeapBytes(h, v)| == Times(|v|, h.unit)
  {
    if v != [] { HeapBytesLength(h, DropLast(v)); }
  }

  /** The ranges of a chain are the bytes of its clusters, cut at the limit. */
  lemma {:induction false} PiecesBytes(h: Heap, v: seq<nat>, limit: nat)
    requires forall i :: 0 <= i < |v| ==> v[i] >= 2
    ensures Bytes(Pieces(h, v, limit)) == HeapBytes(h, v)[..Min(limit, |HeapBytes(h, v)|)]
  {
    if v != [] {
      var front, c, left := DropLast(v), Last(v), Rest(limit, |v| - 1, h.unit);
      assert forall i :: 0 <= i < |front| ==> front[i] == v[i];
      PiecesBytes(h, front, limit);
      HeapBytesLength(h, front);
      RestIs(limit, |front|, h.unit);
      var e := Extent(ClusterOffset(h, c), Min(left, h.unit));
      assert Bytes(Pieces(h, v, limit)) == Bytes(Pieces(h, front, limit)) + Run(e) by {
        assert Pieces(h, v, limit) == Pieces(h, front, limit) + [e];
        assert DropLast(Pieces(h, front, limit) + [e]) == Pieces(h, front, limit);
      }
      TimesIs(c - 2, h.unit);
      CutSnoc(HeapBytes(h, front), e.offset, h.unit, limit);
    }
  }

  lemma {:induction false} CutSnoc(s: seq<nat>, at: nat, unit: nat, limit: nat)
    ensures var t := s + seq(unit, i requires 0 <= i => at + i);
            t[..Min(limit, |t|)] ==
            s[..Min(limit, |s|)] + Run(Extent(at, Min(limit - Min(limit, |s|), unit)))
  {
  }

  /** How many of n units are needed for `limit` bytes. */
  function Needed(limit: nat, n: nat, unit: nat): (k: nat)
    ensures k <= n && (k > 0 ==> Rest(limit, k - 1, unit) > 0) && (k < n ==> Rest(limit, k, unit) == 0)
  {
    if n == 0 then 0
    else if Rest(limit, n - 1, unit) > 0 then n
    else Needed(limit, n - 1, unit)
  }

  /** Ranges of the clusters that are needed are the bytes of all clusters, cut at the limit. */
  lemma {:induction false} WantedBytes(h: Heap, v: seq<nat>, w: seq<nat>, limit: nat, k: nat)
    requires (forall i :: 0 <= i < |v| ==> v[i] >= 2) && k <= |v| && w == v[..k]
    requires k < |v| ==> Rest(limit, k, h.unit) == 0
    ensures Coalesced(PushAll([], Pieces(h, w, limit)))
    ensures Bytes(PushAll([], Pieces(h, w, limit))) ==
            HeapBytes(h, v)[..Min(limit, |HeapBytes(h, v)|)]
  {
    PushAllBytes([], Pieces(h, w, limit));
    PiecesBytes(h, w, limit);
    EnoughBytes(h, v, limit, k);
  }

  lemma {:induction false} EnoughBytes(h: Heap, v: seq<nat>, limit: nat, k: nat)
    requires (forall i :: 0 <= i < |v| ==> v[i] >= 2) && k <= |v| && (k < |v| ==> Rest(limit, k, h.unit) == 0)
    ensures var a, b := HeapBytes(h, v[..k]), HeapBytes(h, v); a[..Min(limit, |a|)] == b[..Min(limit, |b|)]
  {
    if k == |v| {
      assert v[..k] == v;
    } else {
      HeapBytesPrefix(h, v, k);
      HeapBytesLength(h, v[..k]);
      RestIs(limit, k, h.unit);
    }
  }

  lemma {:induction false} HeapBytesPrefix(h: Heap, v: seq<nat>, k: nat)
    requires (forall i :: 0 <= i < |v| ==> v[i] >= 2) && k <= |v|
    ensures HeapBytes(h, v[..k]) <= HeapBytes(h, v)
  {
    if k == |v| {
      assert v[..k] == v;
    } else {
      HeapBytesPrefix(h, DropLast(v), k);
      assert DropLast(v)[..k] == v[..k];
    }
  }
}
