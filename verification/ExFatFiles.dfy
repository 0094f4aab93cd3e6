/** Files laid out on an exFAT volume and read back through the allocation table (src/fs/exfat.cpp; section 4.1
    of the exFAT specification). */
module ExFatFiles {
  import opened Arith
  import opened Clusters
  import opened ExFat
  import opened Extents
  import opened Options
  import F = Fat

  /** The table as it is on the disk: an entry of four bytes a cluster. */
  function Packed(es: seq<nat>): seq<byte> {
    seq(4 * |es|, i requires 0 <= i < 4 * |es| => F.ByteOf(es[i / 4], i % 4))
  }

  /** Every entry is a 32-bit number, and every offset in the table is one, too. */
  ghost predicate Writable(es: seq<nat>) {
    |es| < 0x4000_0000 && forall i :: 0 <= i < |es| ==> es[i] < 0x1_0000_0000
  }

  lemma {:induction false} ReadsBack(es: seq<nat>, c: nat)
    requires Writable(es) && c < |es|
    ensures FatEntry(Packed(es), c) == Some(es[c])
  {
    PackedAt(es, c, 0);
    PackedAt(es, c, 1);
    PackedAt(es, c, 2);
    PackedAt(es, c, 3);
    Decode(Packed(es), c, es[c]);
  }

  lemma {:induction false} PackedAt(es: seq<nat>, c: nat, k: nat)
    requires c < |es| && k < 4
    ensures Packed(es)[4 * c + k] == F.ByteOf(es[c], k)
  {
    assert (4 * c + k) / 4 == c && (4 * c + k) % 4 == k;
  }

  lemma {:induction false} Decode(fat: seq<byte>, c: nat, v: nat)
    requires 4 * c + 4 <= |fat| < 0x1_0000_0000 && v < 0x1_0000_0000
    requires fat[4 * c] == F.ByteOf(v, 0) && fat[4 * c + 1] == F.ByteOf(v, 1)
    requires fat[4 * c + 2] == F.ByteOf(v, 2) && fat[4 * c + 3] == F.ByteOf(v, 3)
    ensures FatEntry(fat, c) == Some(v)
  {
    F.Join32(v);
  }

  /** Past the table there are only end marks, as far as offsets do not wrap. */
  lemma {:induction false} PastTable(es: seq<nat>, c: nat)
    requires Writable(es) && |es| <= c < 0x3FFF_FFFF
    ensures FatEntry(Packed(es), c) == Some(0xFFFF_FFFF)
  {
  }

  ghost predicate Linked(es: seq<nat>, v: seq<nat>, i: nat)
    requires i < |v| - 1
  {
    v[i] < |es| && es[v[i]] == v[i + 1]
  }

  /** The table links the clusters `v`, one after the other, and then marks the end or is over. */
  ghost predicate LaidOut(es: seq<nat>, v: seq<nat>) {
    && v != [] && Distinct(v)
    && (forall i :: 0 <= i < |v| ==> 2 <= v[i] < 0x3FFF_FFFF)
    && (forall i :: 0 <= i < |v| - 1 ==> Linked(es, v, i))
    && (Last(v) < |es| ==> es[Last(v)] >= 0xFFFF_FFF8)
  }

  /** The clusters that are needed are a chain of the packed table, and it is read inside the table. */
  lemma {:induction false} LaidOutIsChain(g: Geom, es: seq<nat>, limit: nat, v: seq<nat>)
    requires Writable(es) && LaidOut(es, v)
    ensures Chain(g, Packed(es), v[0], limit, v[..Needed(limit, |v|, g.heap.unit)])
    ensures Inside(Packed(es), v[..Needed(limit, |v|, g.heap.unit)])
  {
    var fat := Packed(es);
    forall i | 0 <= i < |v| - 1 ensures Follows(fat, v, i) {
      assert Linked(es, v, i);
      ReadsBack(es, v[i]);
    }
    EndOfFile(es, v);
    LinksInside(es, v);
    FollowedIsChain(g, fat, limit, v);
    InsideIff(g, fat, v[0], limit, v[..Needed(limit, |v|, g.heap.unit)]);
  }

  lemma {:induction false} FollowedIsChain(g: Geom, fat: seq<byte>, limit: nat, v: seq<nat>)
    requires v != [] && Distinct(v) && forall i :: 0 <= i < |v| ==> IsLink(v[i])
    requires forall i :: 0 <= i < |v| - 1 ==> Follows(fat, v, i)
    requires FatEntry(fat, Last(v)).Some? && !IsLink(FatEntry(fat, Last(v)).value)
    ensures Chain(g, fat, v[0], limit, v[..Needed(limit, |v|, g.heap.unit)])
  {
    var w := v[..Needed(limit, |v|, g.heap.unit)];
    forall i | 0 <= i < |w| - 1 ensures Follows(fat, w, i) { assert Follows(fat, v, i); }
  }

  lemma {:induction false} EndOfFile(es: seq<nat>, v: seq<nat>)
    requires Writable(es) && LaidOut(es, v)
    ensures FatEntry(Packed(es), Last(v)).Some? && !IsLink(FatEntry(Packed(es), Last(v)).value)
  {
    if Last(v) < |es| { ReadsBack(es, Last(v)); } else { PastTable(es, Last(v)); }
  }

  lemma {:induction false} LinksInside(es: seq<nat>, v: seq<nat>)
    requires LaidOut(es, v)
    ensures forall i :: 0 <= i < |v| ==> IsLink(v[i]) && !Wraps(v[i])
  {
  }

  /** What the table walk makes of a laid-out file: exactly the bytes of its clusters, all of them where no
      size is given and otherwise as many as the size says. */
  lemma {:induction false} FileReadsBack(g: Geom, es: seq<nat>, v: seq<nat>, size: nat, w: seq<nat>,
                                         r: Option<seq<Extent>>)
    requires g.Valid() && Writable(es) && LaidOut(es, v)
    requires IsWalk(g, Packed(es), v[0], Wanted(size), w, r)
    ensures r.Some? && Coalesced(r.value)
    ensures var all := HeapBytes(g.heap, v);
            Bytes(r.value) == if size == 0 then all else all[..Min(size, |all|)]
  {
    var limit := Wanted(size);
    var k := Needed(limit, |v|, g.heap.unit);
    LaidOutIsChain(g, es, limit, v);
    ChainUnique(g, Packed(es), v[0], limit, w, v[..k]);
    WantedBytes(g.heap, v, w, limit, k);
    HeapSmall(g, v);
  }

  lemma {:induction false} HeapSmall(g: Geom, v: seq<nat>)
    requires g.Valid() && Distinct(v) && forall i :: 0 <= i < |v| ==> 2 <= v[i] < 0x3FFF_FFFF
    ensures |HeapBytes(g.heap, v)| <= U64_MAX
  {
    var n := 0x3FFF_FFFD;
    DistinctBounded(v, 2, n);
    HeapBytesLength(g.heap, v);
    TimesMono(|v|, n, g.heap.unit);
    TimesIs(n, g.heap.unit);
  }
}
