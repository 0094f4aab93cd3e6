/** Files laid out on a FAT volume and read back: the scan finds exactly the bytes of the clusters that were
    linked for a file (src/fs/fat.cpp; section 4 of the Microsoft FAT Specification). */
module FatFiles {
  import opened Clusters
  import opened Extents
  import opened Fat

  /** How many values a table entry has; the last eight of them are end marks. */
  function Values(kind: Kind): nat {
    match kind
    case Fat12 => 0x1000
    case Fat16 => 0x1_0000
    case Fat32 => 0x1000_0000
  }

  ghost predicate EndMark(kind: Kind, v: nat) { v + 8 >= Values(kind) }

  /** A table as it is on the disk. Only FAT32 has bits beside the values. */
  function Packed(kind: Kind, es: seq<nat>, reserved: seq<nat>): seq<byte>
    requires |reserved| == |es|
  {
    match kind
    case Fat12 => Pack12(es)
    case Fat16 => Pack16(es)
    case Fat32 => Pack32(es, reserved)
  }

  ghost predicate Writable(kind: Kind, es: seq<nat>, reserved: seq<nat>) {
    && |reserved| == |es| < 0x4000_0000
    && (forall i :: 0 <= i < |es| ==> es[i] < Values(kind))
    && (forall i :: 0 <= i < |es| ==> reserved[i] < 16)
  }

  lemma {:induction false} ReadsBack(kind: Kind, es: seq<nat>, reserved: seq<nat>, c: nat)
    requires Writable(kind, es, reserved) && c < |es|
    ensures FatGet(Packed(kind, es, reserved), kind, c) == es[c]
  {
    match kind
    case Fat12 => Unpack12(es, c);
    case Fat16 => Unpack16(es, c);
    case Fat32 => Unpack32(es, reserved, c);
  }

  /** Past the table there are only end marks. */
  lemma {:induction false} PastTable(kind: Kind, es: seq<nat>, reserved: seq<nat>, c: nat)
    requires Writable(kind, es, reserved) && |es| <= c < 0x4000_0000
    ensures EndMark(kind, FatGet(Packed(kind, es, reserved), kind, c))
  {
  }

  ghost predicate Linked(es: seq<nat>, v: seq<nat>, i: nat)
    requires i < |v| - 1
  {
    v[i] < |es| && es[v[i]] == v[i + 1]
  }

  /** The table links the clusters `v` of the heap, one after the other, and then marks the end or is over. */
  ghost predicate LaidOut(g: Geom, es: seq<nat>, v: seq<nat>) {
    && v != [] && Distinct(v)
    && (forall i :: 0 <= i < |v| ==> 2 <= v[i] < g.clusters + 2 && !EndMark(g.kind, v[i]))
    && (forall i :: 0 <= i < |v| - 1 ==> Linked(es, v, i))
    && (Last(v) < |es| ==> EndMark(g.kind, es[Last(v)]))
  }

  /** The clusters that are needed are a chain of the packed table. */
  lemma {:induction false} LaidOutIsChain(g: Geom, es: seq<nat>, reserved: seq<nat>, limit: nat, v: seq<nat>)
    requires g.Sound() && Writable(g.kind, es, reserved) && LaidOut(g, es, v)
    ensures Chain(g, Packed(g.kind, es, reserved), v[0], limit, v[..Needed(limit, |v|, g.heap.unit)])
  {
    var fat, k := Packed(g.kind, es, reserved), Needed(limit, |v|, g.heap.unit);
    var w := v[..k];
    forall i | 0 <= i < |w| - 1 ensures Follows(g, fat, w, i) {
      assert Linked(es, v, i);
      ReadsBack(g.kind, es, reserved, v[i]);
    }
    if k == |v| && Last(v) < |es| {
      ReadsBack(g.kind, es, reserved, Last(v));
    } else if k == |v| {
      PastTable(g.kind, es, reserved, Last(v));
    }
  }

  /** A file or directory whose clusters are laid out on the volume is catalogued with exactly their bytes:
      all of them for a directory or where no size is given, and otherwise as many as the size says. */
  lemma {:induction false} FileReadsBack(g: Geom, es: seq<nat>, reserved: seq<nat>, v: seq<nat>, e: Entry,
                                         o: FsObject, w: seq<nat>)
    requires g.Sound() && Writable(g.kind, es, reserved) && LaidOut(g, es, v) && e.clus == v[0]
    requires EntryObject(g, Packed(g.kind, es, reserved), e, o, w)
    ensures o.path == e.path && o.size == if e.isDir then 0 else e.fsize
    ensures Coalesced(o.extents)
    ensures var all := HeapBytes(g.heap, v);
            Bytes(o.extents) == if e.isDir || e.fsize == 0 then all else all[..Min(e.fsize, |all|)]
  {
    var limit := e.Wanted();
    var k := Needed(limit, |v|, g.heap.unit);
    LaidOutIsChain(g, es, reserved, limit, v);
    ChainUnique(g, Packed(g.kind, es, reserved), e.clus, limit, w, v[..k]);
    WantedBytes(g.heap, v, w, limit, k);
    HeapSmall(g, v);
  }

  lemma {:induction false} HeapSmall(g: Geom, v: seq<nat>)
    requires g.Sound() && Distinct(v) && forall i :: 0 <= i < |v| ==> 2 <= v[i] < g.clusters + 2
    ensures |HeapBytes(g.heap, v)| <= U64_MAX
  {
    DistinctBounded(v, 2, g.clusters);
    HeapBytesLength(g.heap, v);
    TimesMono(|v|, g.clusters, g.heap.unit);
  }
}
