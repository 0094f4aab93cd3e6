/** FAT12/16/32: table decoding, cluster chains and the object list of a volume (src/fs/fat.cpp). */
module Fat {
  import opened Arith
  import opened Clusters
  import opened Extents

  datatype Kind = Fat12 | Fat16 | Fat32

  /** The boot sector fields the scan uses. */
  datatype Bpb = Bpb(kind: Kind, base: nat, bps: nat, spc: nat, reserved: nat, fats: nat, fatsz: nat,
                     rootEnts: nat, totsec: nat)
  {
    /** The widths of the fields. */
    predicate Widths() {
      bps < 0x1_0000 && spc < 0x100 && reserved < 0x1_0000 && fats < 0x100 && fatsz < 0x1_0000_0000 &&
      rootEnts < 0x1_0000 && totsec < 0x1_0000_0000
    }

    /** The sectors before the cluster heap. */
    function Before(): nat
      requires bps > 0
    {
      reserved + fats * fatsz + (if kind.Fat32? then 0 else (rootEnts * 32 + (bps - 1)) / bps)
    }

    /** The same as the source computes it, in 32 bits. */
    function DataStart(): nat
      requires bps > 0
    {
      Before() % 0x1_0000_0000
    }

    function Clusters(): nat
      requires bps > 0 && spc > 0
    {
      (if totsec > DataStart() then totsec - DataStart() else 0) / spc
    }

    /** The byte layout as the scan computes it. It divides by the sector size before it checks that it
        is not zero, and multiplies the size of the boot region as signed 32-bit numbers. */
    function Geometry(): Layout {
      if bps == 0 then Undefined
      else if spc == 0 || fats == 0 || fatsz == 0 then Refused
      else if reserved * bps >= 0x8000_0000 then Undefined
      else Laid(Geom(kind, base, reserved * bps, fats * fatsz * bps, Heap(base + DataStart() * bps, spc * bps),
                     Clusters()))
    }
  }

  /** What the scan makes of a boot sector; `Undefined` where the arithmetic has no meaning. */
  datatype Layout = Undefined | Refused | Laid(g: Geom)

  /** Byte layout of a volume: `boot` bytes, then `table` bytes of FATs, then (after a FAT12/16 root
      directory) the cluster heap. The number of clusters keeps the source's 32-bit `clusters + 2` from
      wrapping. */
  datatype Geom = Geom(kind: Kind, base: nat, boot: nat, table: nat, heap: Heap, clusters: nat) {
    /** No number wraps: all that the chain walk needs. */
    predicate Sound() {
      heap.unit > 0 && clusters + 2 < 0x1_0000_0000 && HeapEnd() <= 0x7FFF_FFFF_FFFF_FFFF
    }

    /** The heap comes after the FATs, too. */
    predicate Valid() {
      Sound() && base + boot + table <= heap.start
    }

    function HeapEnd(): nat { heap.start + Times(clusters, heap.unit) }

    /** A value the chain loop will visit: a cluster of the heap that is no end mark. */
    predicate IsCluster(c: nat) { 2 <= c < clusters + 2 && !IsEoc(kind, c) }
  }

  /** When the computed layout is well formed: the fields are not zero, the boot region is below 2^31
      bytes, the sectors before the heap are counted in 32 bits without a wrap, and so are the clusters.
      Where that count wraps, the heap starts inside the FAT region. */
  lemma {:induction false} GeometryValid(b: Bpb)
    requires b.Widths() && b.base <= 0x3FFF_FFFF_FFFF_FFFF
    ensures b.Geometry().Laid? && b.Geometry().g.Valid() <==>
            && b.bps != 0 && b.spc != 0 && b.fats != 0 && b.fatsz != 0 && b.reserved * b.bps < 0x8000_0000
            && b.Before() < 0x1_0000_0000 && b.Clusters() + 2 < 0x1_0000_0000
    ensures b.Geometry().Laid? && b.Geometry().g.Sound() <==>
            && b.bps != 0 && b.spc != 0 && b.fats != 0 && b.fatsz != 0 && b.reserved * b.bps < 0x8000_0000
            && b.Clusters() + 2 < 0x1_0000_0000
  {
    if b.Geometry().Laid? {
      Positive(b.spc, b.bps);
      HeapFits(b);
      if b.Before() >= 0x1_0000_0000 {
        WrapsInside(b);
      } else {
        StartsAfter(b);
      }
    }
  }

  /** Without a wrap the heap starts after the FAT region. */
  lemma {:induction false} StartsAfter(b: Bpb)
    requires b.Geometry().Laid? && b.Before() < 0x1_0000_0000
    ensures b.base + b.Geometry().g.boot + b.Geometry().g.table <= b.Geometry().g.heap.start
  {
    assert b.DataStart() == b.Before();
    LeMul(b.reserved + b.fats * b.fatsz, b.DataStart(), b.bps);
    Distribute(b.reserved, b.fats * b.fatsz, b.bps);
  }

  /** A volume of 32-bit sector counts ends far below 2^63. */
  lemma {:induction false} HeapFits(b: Bpb)
    requires b.Widths() && b.Geometry().Laid? && b.base <= 0x3FFF_FFFF_FFFF_FFFF
    ensures b.Geometry().g.HeapEnd() <= 0x7FFF_FFFF_FFFF_FFFF
  {
    var g, start := b.Geometry().g, b.DataStart();
    var d := if b.totsec > start then b.totsec - start else 0;
    assert g.clusters * b.spc <= d <= b.totsec by { DivBounds(d, b.spc); }
    TimesIs(g.clusters, b.spc * b.bps);
    Regroup(g.clusters, b.spc, b.bps);
    LeMul(g.clusters * b.spc, 0x1_0000_0000, b.bps);
    LeMul(start, 0x1_0000_0000, b.bps);
  }

  /** Where the count of the sectors before the heap wraps, the heap starts inside the FAT region. */
  lemma {:induction false} WrapsInside(b: Bpb)
    requires b.Widths() && b.Geometry().Laid? && b.Before() >= 0x1_0000_0000
    ensures b.Geometry().g.heap.start < b.base + b.Geometry().g.boot + b.Geometry().g.table
  {
    var root := if b.kind.Fat32? then 0 else (b.rootEnts * 32 + (b.bps - 1)) / b.bps;
    var low := b.reserved + b.fats * b.fatsz;
    assert root <= b.rootEnts * 32 + (b.bps - 1) by { DivLess(b.rootEnts * 32 + (b.bps - 1), b.bps); }
    assert b.DataStart() + 0x1_0000_0000 <= b.Before();
    assert b.DataStart() + 1 <= low;
    LeMul(b.DataStart() + 1, low, b.bps);
    Distribute(b.DataStart(), 1, b.bps);
    Distribute(b.reserved, b.fats * b.fatsz, b.bps);
  }

  /** Without a wrap the regions follow each other: the boot region, the FATs, the sectors that the root
      directory of FAT12 and FAT16 needs at 32 bytes an entry, then as many clusters as the volume has room for. */
  lemma {:induction false} Regions(b: Bpb)
    requires b.Geometry().Laid? && b.Before() < 0x1_0000_0000
    ensures var g := b.Geometry().g;
            && g.kind == b.kind && g.base == b.base && g.boot == b.reserved * b.bps
            && g.table == b.fats * (b.fatsz * b.bps) && g.heap.unit == b.spc * b.bps
            && exists r: nat ::
                 && g.heap.start == b.base + g.boot + g.table + Times(r, b.bps)
                 && (b.kind.Fat32? ==> r == 0)
                 && (!b.kind.Fat32? ==> Times(r, b.bps) - b.bps < b.rootEnts * 32 <= Times(r, b.bps))
    ensures var g := b.Geometry().g;
            && (b.base + b.totsec * b.bps >= g.heap.start ==>
                  g.HeapEnd() <= b.base + b.totsec * b.bps < g.HeapEnd() + g.heap.unit)
            && (b.base + b.totsec * b.bps < g.heap.start ==> g.clusters == 0)
  {
    var low := b.reserved + b.fats * b.fatsz;
    var r: nat := b.Before() - low;
    Distribute(b.reserved, b.fats * b.fatsz, b.bps);
    Distribute(low, r, b.bps);
    Regroup(b.fats, b.fatsz, b.bps);
    TimesIs(r, b.bps);
    if !b.kind.Fat32? { LeastSectors(b.rootEnts * 32, b.bps, r); }
    RoomForClusters(b);
  }

  lemma {:induction false} LeastSectors(n: nat, bps: nat, r: nat)
    requires bps > 0 && r == (n + (bps - 1)) / bps
    ensures r * bps - bps < n <= r * bps
  {
    DivBounds(n + (bps - 1), bps);
  }

  lemma {:induction false} RoomForClusters(b: Bpb)
    requires b.Geometry().Laid?
    ensures var g, start, end := b.Geometry().g, b.base + b.DataStart() * b.bps, b.base + b.totsec * b.bps;
            && (end >= start ==> g.HeapEnd() <= end < g.HeapEnd() + g.heap.unit)
            && (end < start ==> g.clusters == 0)
  {
    var g, start := b.Geometry().g, b.DataStart();
    var d := if b.totsec > start then b.totsec - start else 0;
    DivBounds(d, b.spc);
    TimesIs(g.clusters, g.heap.unit);
    Regroup(g.clusters, b.spc, b.bps);
    if b.totsec >= start {
      LeMul(start, b.totsec, b.bps);
      LeMul(g.clusters * b.spc, d, b.bps);
      LeMul(d + 1, g.clusters * b.spc + b.spc, b.bps);
      Distribute(d, start, b.bps);
      Distribute(d, 1, b.bps);
      Distribute(g.clusters * b.spc, b.spc, b.bps);
    } else {
      LeMul(b.totsec, start, b.bps);
      assert d == 0 && d / b.spc == 0;
    }
  }

  /** A boot sector whose FAT size makes that count wrap: the scan accepts it and puts the heap at sector
      286, in the middle of its own FATs. */
  lemma {:induction false} WrappedLayout(b: Bpb)
    requires b == Bpb(Fat32, 0, 512, 1, 32, 255, 16843010, 0, 100000)
    ensures b.Widths() && b.Geometry().Laid? && b.DataStart() == 286 && b.Geometry().g.Sound() &&
            !b.Geometry().g.Valid()
  {
    GeometryValid(b);
  }

  /** In a well-formed layout cluster addresses are those of the sector formula. */
  lemma {:induction false} ClusterAddress(b: Bpb, c: nat)
    requires b.Geometry().Laid? && 2 <= c
    ensures ClusterOffset(b.Geometry().g.heap, c) == b.base + (b.DataStart() + (c - 2) * b.spc) * b.bps
  {
    TimesIs(c - 2, b.spc * b.bps);
    Regroup(c - 2, b.spc, b.bps);
    Distribute(b.DataStart(), (c - 2) * b.spc, b.bps);
  }

  function FatGet(fat: seq<byte>, kind: Kind, cluster: nat): nat
    requires cluster < 0x4000_0000
  {
    match kind
    case Fat32 =>
      if cluster * 4 + 4 > |fat| then 0x0FFF_FFFF else R32(fat, cluster * 4) % 0x1000_0000
    case Fat16 =>
      if cluster * 2 + 2 > |fat| then 0xFFFF else R16(fat, cluster * 2)
    case Fat12 =>
      var off := cluster + cluster / 2;
      if off + 1 >= |fat| then 0xFFF
      else if cluster % 2 == 1 then R16(fat, off) / 16
      else R16(fat, off) % 0x1000
  }

  predicate IsEoc(kind: Kind, v: nat) {
    match kind
    case Fat32 => v >= 0x0FFF_FFF8
    case Fat16 => v >= 0xFFF8
    case Fat12 => v >= 0xFF8
  }

  /** How many bytes the caller asks for: everything for directories and size-less files. */
  function Limit(size: nat, whole: bool): nat {
    if whole || size == 0 then U64_MAX else size
  }

  /** The table entry of the i-th cluster of `v` is the next cluster of `v`. */
  ghost predicate Follows(g: Geom, fat: seq<byte>, v: seq<nat>, i: nat)
    requires i < |v| - 1 && v[i] < 0x4000_0000
  {
    v[i + 1] == FatGet(fat, g.kind, v[i])
  }

  /** `v` starts at `start` and follows the table through distinct heap clusters, with bytes still
      wanted at each of them. */
  ghost predicate Trail(g: Geom, fat: seq<byte>, start: nat, limit: nat, v: seq<nat>)
    requires g.Sound()
  {
    && (forall i :: 0 <= i < |v| ==> g.IsCluster(v[i]))
    && Distinct(v)
    && (forall i :: 0 <= i < |v| - 1 ==> Follows(g, fat, v, i))
    && (v != [] ==> v[0] == start && Rest(limit, |v| - 1, g.heap.unit) > 0)
  }

  /** The trail cannot go on. */
  ghost predicate Ends(g: Geom, fat: seq<byte>, start: nat, limit: nat, v: seq<nat>)
    requires g.Sound() && Trail(g, fat, start, limit, v)
  {
    var n := if v == [] then start else FatGet(fat, g.kind, Last(v));
    Rest(limit, |v|, g.heap.unit) == 0 || !g.IsCluster(n) || n in v
  }

  /** `v` is the cluster chain from `start`: a trail that is as long as it can be. */
  ghost predicate Chain(g: Geom, fat: seq<byte>, start: nat, limit: nat, v: seq<nat>)
    requires g.Sound()
  {
    Trail(g, fat, start, limit, v) && Ends(g, fat, start, limit, v)
  }

  lemma {:induction false} TrailSnoc(g: Geom, fat: seq<byte>, start: nat, limit: nat, v: seq<nat>, c: nat)
    requires g.Sound() && Trail(g, fat, start, limit, v)
    requires g.IsCluster(c) && c !in v && Rest(limit, |v|, g.heap.unit) > 0
    requires c == if v == [] then start else FatGet(fat, g.kind, Last(v))
    ensures Trail(g, fat, start, limit, v + [c])
  {
    var w := v + [c];
    forall i | 0 <= i < |w| - 1 ensures Follows(g, fat, w, i) {
      if i < |v| - 1 { assert Follows(g, fat, v, i); }
    }
  }

  /** The state of the chain loop after visiting `v`. */
  ghost predicate Walking(g: Geom, fat: seq<byte>, start: nat, limit: nat, whole: bool, v: seq<nat>,
                          c: nat, left: nat, seen: set<nat>, exts: seq<Extent>)
    requires g.Sound()
  {
    && Trail(g, fat, start, limit, v)
    && SameElements(v, seen) && seen <= Range(2, g.clusters)
    && c == (if v == [] then start else FatGet(fat, g.kind, Last(v)))
    && left == (if whole then limit else Rest(limit, |v|, g.heap.unit))
    && exts == PushAll([], Pieces(g.heap, v, limit))
  }

  ghost predicate SameElements(v: seq<nat>, seen: set<nat>) {
    forall x :: x in v <==> x in seen
  }

  lemma {:induction false} SameElementsSnoc(v: seq<nat>, seen: set<nat>, c: nat)
    requires SameElements(v, seen)
    ensures SameElements(v + [c], seen + {c})
  {
  }

  /** `exts` are the coalesced ranges of the cluster chain `v`. */
  ghost predicate IsWalk(g: Geom, fat: seq<byte>, start: nat, limit: nat, v: seq<nat>, exts: seq<Extent>)
    requires g.Sound()
  {
    Chain(g, fat, start, limit, v) && exts == PushAll([], Pieces(g.heap, v, limit))
  }

  /** Follows the table from `start`, coalescing cluster ranges into extents. It stops on every
      table content: end marks, values outside the heap, and clusters seen before. */
  method ChainExtents(g: Geom, fat: seq<byte>, start: nat, fileSize: nat, whole: bool)
    returns (exts: seq<Extent>, ghost visited: seq<nat>)
    requires g.Sound() && fileSize <= U64_MAX
    ensures IsWalk(g, fat, start, Limit(fileSize, whole), visited, exts)
    ensures exists v :: IsWalk(g, fat, start, Limit(fileSize, whole), v, exts)
  {
    exts, visited := [], [];
    ghost var limit := Limit(fileSize, whole);
    var left: nat := if whole || fileSize == 0 then U64_MAX else fileSize;
    var c: nat := start;
    var seen: set<nat> := {};
    while c >= 2 && c < g.clusters + 2 && !IsEoc(g.kind, c) && left > 0
      invariant Walking(g, fat, start, limit, whole, visited, c, left, seen, exts)
      decreases Range(2, g.clusters) - seen
    {
      if c in seen {
        WalkEnd(g, fat, start, limit, whole, visited, c, left, seen, exts);
        return;
      }
      WalkStep(g, fat, start, limit, whole, visited, c, left, seen, exts);
      var take := if whole then g.heap.unit else Min(left, g.heap.unit);
      visited := visited + [c];
      exts := Push(exts, Extent(ClusterOffset(g.heap, c), take));
      seen := seen + {c};
      if !whole {
        left := left - take;
      }
      var next := FatGet(fat, g.kind, c);
      if IsEoc(g.kind, next) {
        WalkEnd(g, fat, start, limit, whole, visited, next, left, seen, exts);
        return;
      }
      c := next;
    }
    WalkEnd(g, fat, start, limit, whole, visited, c, left, seen, exts);
  }

  /** The chain loop stops where the trail cannot go on. */
  lemma {:induction false} WalkEnd(g: Geom, fat: seq<byte>, start: nat, limit: nat, whole: bool, v: seq<nat>,
                c: nat, left: nat, seen: set<nat>, exts: seq<Extent>)
    requires g.Sound() && Walking(g, fat, start, limit, whole, v, c, left, seen, exts)
    requires !g.IsCluster(c) || c in seen || left == 0
    requires whole ==> limit > 0
    ensures IsWalk(g, fat, start, limit, v, exts)
  {
  }

  /** One turn of the chain loop. */
  lemma {:induction false} WalkStep(g: Geom, fat: seq<byte>, start: nat, limit: nat, whole: bool, v: seq<nat>,
                 c: nat, left: nat, seen: set<nat>, exts: seq<Extent>)
    requires g.Sound() && Walking(g, fat, start, limit, whole, v, c, left, seen, exts)
    requires g.IsCluster(c) && c !in seen && left > 0 && (whole ==> limit == U64_MAX)
    ensures var take := if whole then g.heap.unit else Min(left, g.heap.unit);
            Walking(g, fat, start, limit, whole, v + [c], FatGet(fat, g.kind, c),
                    if whole then left else left - take, seen + {c},
                    Push(exts, Extent(ClusterOffset(g.heap, c), take)))
  {
    if whole {
      WholeChainFits(g, v, c);
    }
    var e := Extent(ClusterOffset(g.heap, c), Min(Rest(limit, |v|, g.heap.unit), g.heap.unit));
    TrailSnoc(g, fat, start, limit, v, c);
    SameElementsSnoc(v, seen, c);
    PiecesSnoc(g.heap, v, c, limit);
    PushAllSnoc([], Pieces(g.heap, v, limit), e);
  }

  /** In whole-chain mode the source never counts down; distinct clusters cannot use up 2^64 - 1
      bytes, so counting down would have changed nothing. */
  lemma {:induction false} WholeChainFits(g: Geom, v: seq<nat>, c: nat)
    requires g.Sound() && Distinct(v) && c !in v && g.IsCluster(c)
    requires forall i :: 0 <= i < |v| ==> g.IsCluster(v[i])
    ensures Rest(U64_MAX, |v|, g.heap.unit) >= g.heap.unit
  {
    var w := v + [c];
    DistinctBounded(w, 2, g.clusters);
    RestIs(U64_MAX, |v|, g.heap.unit);
    TimesMono(|v| + 1, g.clusters, g.heap.unit);
  }

  lemma {:induction false} ClusterPlace(g: Geom, c: nat)
    requires g.Sound() && 2 <= c < g.clusters + 2
    ensures g.heap.start <= ClusterOffset(g.heap, c) && ClusterOffset(g.heap, c) + g.heap.unit <= g.HeapEnd()
  {
    TimesMono(c - 1, g.clusters, g.heap.unit);
  }

  /** The pieces of a chain lie in the heap, apart from each other, and none is empty. */
  lemma {:induction false} PiecesPlace(g: Geom, fat: seq<byte>, start: nat, limit: nat, v: seq<nat>)
    requires g.Sound() && Chain(g, fat, start, limit, v)
    ensures PairwiseDisjoint(Pieces(g.heap, v, limit)) && Within(Pieces(g.heap, v, limit), g.heap.start, g.HeapEnd())
    ensures forall i :: 0 <= i < |v| ==> Pieces(g.heap, v, limit)[i].length > 0
  {
    var ps := Pieces(g.heap, v, limit);
    forall i, j | 0 <= i < j < |ps| ensures ps[i].End() <= ps[j].offset || ps[j].End() <= ps[i].offset {
      PiecesApart(g.heap, v, limit, v, limit, i, j);
    }
    forall i | 0 <= i < |ps| ensures g.heap.start <= ps[i].offset && ps[i].End() <= g.HeapEnd() && ps[i].length > 0 {
      PieceAt(g.heap, v, limit, i);
      ClusterPlace(g, v[i]);
      RestPositive(limit, |v| - 1, i, g.heap.unit);
    }
  }

  /** What the merged extents of a chain are: the cluster ranges in chain order, inside the data
      area, pairwise disjoint, fully merged, and worth min(limit, clusters x cluster bytes). */
  lemma {:induction false} ChainProperties(g: Geom, fat: seq<byte>, start: nat, limit: nat, v: seq<nat>,
                                           exts: seq<Extent>)
    requires g.Sound() && Chain(g, fat, start, limit, v)
    requires exts == PushAll([], Pieces(g.heap, v, limit))
    ensures Bytes(exts) == Bytes(Pieces(g.heap, v, limit))
    ensures Within(exts, g.heap.start, g.HeapEnd())
    ensures PairwiseDisjoint(exts) && Coalesced(exts)
    ensures Total(exts) == Min(limit, Times(|v|, g.heap.unit))
  {
    var ps := Pieces(g.heap, v, limit);
    PiecesPlace(g, fat, start, limit, v);
    Merged(ps, g.heap.start, g.HeapEnd());
    PiecesTotal(g.heap, v, limit);
    RestIs(limit, |v|, g.heap.unit);
  }

  /** The chain of a start cluster is unique, so `Chain` pins the visited clusters down. */
  lemma {:induction false} ChainUnique(g: Geom, fat: seq<byte>, start: nat, limit: nat, v: seq<nat>, w: seq<nat>)
    requires g.Sound() && Chain(g, fat, start, limit, v) && Chain(g, fat, start, limit, w)
    ensures v == w
  {
    var n := Min(|v|, |w|);
    ChainPrefix(g, fat, start, limit, v, w, n);
    if |v| <= |w| {
      ChainMaximal(g, fat, start, limit, v, w);
    } else {
      ChainMaximal(g, fat, start, limit, w, v);
    }
  }

  lemma {:induction false} ChainPrefix(g: Geom, fat: seq<byte>, start: nat, limit: nat, v: seq<nat>, w: seq<nat>,
                                       n: nat)
    requires g.Sound() && Chain(g, fat, start, limit, v) && Chain(g, fat, start, limit, w)
    requires n <= |v| && n <= |w|
    ensures v[..n] == w[..n]
  {
    if n > 0 {
      ChainPrefix(g, fat, start, limit, v, w, n - 1);
      if n > 1 {
        assert v[n - 2] == v[..n - 1][n - 2] == w[..n - 1][n - 2] == w[n - 2];
        assert Follows(g, fat, v, n - 2) && Follows(g, fat, w, n - 2);
      }
      assert v[..n] == v[..n - 1] + [v[n - 1]] && w[..n] == w[..n - 1] + [w[n - 1]];
    }
  }

  lemma {:induction false} ChainMaximal(g: Geom, fat: seq<byte>, start: nat, limit: nat, v: seq<nat>, w: seq<nat>)
    requires g.Sound() && Chain(g, fat, start, limit, v) && Chain(g, fat, start, limit, w)
    requires |v| <= |w| && v == w[..|v|]
    ensures |w| <= |v|
  {
    if |v| < |w| { ProperPrefixGoesOn(g, fat, start, limit, w, |v|); }
  }

  lemma {:induction false} ProperPrefixGoesOn(g: Geom, fat: seq<byte>, start: nat, limit: nat, w: seq<nat>, n: nat)
    requires g.Sound() && Trail(g, fat, start, limit, w) && n < |w|
    requires Trail(g, fat, start, limit, w[..n])
    ensures !Ends(g, fat, start, limit, w[..n])
  {
    RestPositive(limit, |w| - 1, n, g.heap.unit);
    NotBefore(w, n);
    if n > 0 { assert Follows(g, fat, w, n - 1) && Last(w[..n]) == w[n - 1]; }
  }

  lemma {:induction false} NotBefore(w: seq<nat>, n: nat)
    requires Distinct(w) && n < |w|
    ensures w[n] !in w[..n]
  {
  }

  /** On a table whose successor map is injective on heap clusters, chains from different starts
      that are nobody's successor never meet. */
  lemma {:induction false} ChainsApart(g: Geom, fat: seq<byte>, s: nat, t: nat, ls: nat, lt: nat,
                                       v: seq<nat>, w: seq<nat>, i: nat, j: nat)
    requires g.Sound() && Chain(g, fat, s, ls, v) && Chain(g, fat, t, lt, w)
    requires i < |v| && j < |w| && s != t
    requires InjectiveTable(g, fat) && NobodysSuccessor(g, fat, s) && NobodysSuccessor(g, fat, t)
    ensures v[i] != w[j]
    decreases i
  {
    if i > 0 && j > 0 {
      ChainsApart(g, fat, s, t, ls, lt, v, w, i - 1, j - 1);
      assert Follows(g, fat, v, i - 1) && Follows(g, fat, w, j - 1);
    } else if i > 0 {
      assert Follows(g, fat, v, i - 1);
    } else if j > 0 {
      assert Follows(g, fat, w, j - 1);
    }
  }

  /** No two heap clusters have the same heap cluster as successor. */
  ghost predicate InjectiveTable(g: Geom, fat: seq<byte>)
    requires g.Sound()
  {
    forall a, b :: g.IsCluster(a) && g.IsCluster(b) && a != b && g.IsCluster(FatGet(fat, g.kind, a)) ==>
      FatGet(fat, g.kind, a) != FatGet(fat, g.kind, b)
  }

  ghost predicate NobodysSuccessor(g: Geom, fat: seq<byte>, s: nat)
    requires g.Sound()
  {
    forall c :: g.IsCluster(c) ==> FatGet(fat, g.kind, c) != s
  }

  /** A directory entry, in the order the directory walk meets it. */
  datatype Entry = Entry(path: string, clus: nat, fsize: nat, isDir: bool) {
    function Size(): nat { if isDir then 0 else fsize }
    function Wanted(): nat { Limit(Size(), isDir) }
  }

  /** Directory entries start at distinct clusters that are nobody's successor. */
  ghost predicate CleanEntries(g: Geom, fat: seq<byte>, entries: seq<Entry>)
    requires g.Sound()
  {
    && (forall i :: 0 <= i < |entries| && entries[i].clus >= 2 ==> NobodysSuccessor(g, fat, entries[i].clus))
    && (forall i, j :: 0 <= i < j < |entries| && entries[i].clus >= 2 ==> entries[i].clus != entries[j].clus)
  }

  /** `v` is the cluster chain of an entry; entries below cluster 2 have none. */
  ghost predicate EntryChain(g: Geom, fat: seq<byte>, e: Entry, v: seq<nat>)
    requires g.Sound()
  {
    if e.clus >= 2 then Chain(g, fat, e.clus, e.Wanted(), v) else v == []
  }

  ghost predicate EntryObject(g: Geom, fat: seq<byte>, e: Entry, o: FsObject, v: seq<nat>)
    requires g.Sound()
  {
    && EntryChain(g, fat, e, v)
    && o == FsObject(e.path, e.Size(), PushAll([], Pieces(g.heap, v, e.Wanted())))
  }

  function BootObject(g: Geom): FsObject { FsObject("::boot", g.boot, [Extent(g.base, g.boot)]) }

  function FatObject(g: Geom): FsObject { FsObject("::fat", g.table, [Extent(g.base + g.boot, g.table)]) }

  /** One directory entry. */
  method ScanEntry(g: Geom, fat: seq<byte>, e: Entry) returns (o: FsObject, ghost v: seq<nat>)
    requires g.Sound() && e.fsize <= U64_MAX
    ensures EntryObject(g, fat, e, o, v)
  {
    var exts: seq<Extent> := [];
    v := [];
    if e.clus >= 2 {
      exts, v := ChainExtents(g, fat, e.clus, e.Size(), e.isDir);
    }
    o := FsObject(e.path, e.Size(), exts);
  }

  /** The object list of a volume: boot region, FAT region, then one object per entry. */
  method ScanObjects(g: Geom, fat: seq<byte>, entries: seq<Entry>)
    returns (objects: seq<FsObject>, ghost chains: seq<seq<nat>>)
    requires g.Sound() && forall i :: 0 <= i < |entries| ==> entries[i].fsize <= U64_MAX
    ensures Scanned(g, fat, entries, objects, chains)
    ensures exists vs :: Scanned(g, fat, entries, objects, vs)
  {
    objects := [BootObject(g), FatObject(g)];
    chains := [];
    for n := 0 to |entries|
      invariant Scanned(g, fat, entries[..n], objects, chains)
    {
      var o;
      ghost var v;
      o, v := ScanEntry(g, fat, entries[n]);
      assert entries[..n + 1] == entries[..n] + [entries[n]];
      ScannedSnoc(g, fat, entries[..n], objects, chains, entries[n], o, v);
      objects := objects + [o];
      chains := chains + [v];
    }
    assert entries[..|entries|] == entries;
  }

  ghost predicate Scanned(g: Geom, fat: seq<byte>, entries: seq<Entry>, objects: seq<FsObject>, chains: seq<seq<nat>>)
    requires g.Sound()
    decreases entries
  {
    if entries == [] then objects == [BootObject(g), FatObject(g)] && chains == []
    else
      && objects != [] && chains != []
      && EntryObject(g, fat, Last(entries), Last(objects), Last(chains))
      && Scanned(g, fat, DropLast(entries), DropLast(objects), DropLast(chains))
  }

  /** The objects one by one: the boot region, the FATs, and the entries in their order. */
  lemma {:induction false} ObjectsAre(g: Geom, fat: seq<byte>, entries: seq<Entry>, objects: seq<FsObject>,
                                      chains: seq<seq<nat>>)
    requires g.Sound() && Scanned(g, fat, entries, objects, chains)
    ensures |objects| == 2 + |entries| && |chains| == |entries|
    ensures objects[0] == FsObject("::boot", g.boot, [Extent(g.base, g.boot)])
    ensures objects[1] == FsObject("::fat", g.table, [Extent(g.base + g.boot, g.table)])
    ensures forall i :: 0 <= i < |entries| ==> EntryObject(g, fat, entries[i], objects[2 + i], chains[i])
    decreases |entries|
  {
    if entries != [] {
      var n := |entries| - 1;
      ObjectsAre(g, fat, DropLast(entries), DropLast(objects), DropLast(chains));
      forall i | 0 <= i < |entries| ensures EntryObject(g, fat, entries[i], objects[2 + i], chains[i]) {
        if i < n {
          assert EntryObject(g, fat, DropLast(entries)[i], DropLast(objects)[2 + i], DropLast(chains)[i]);
        }
      }
    }
  }

  lemma {:induction false} ScannedSnoc(g: Geom, fat: seq<byte>, entries: seq<Entry>, objects: seq<FsObject>,
                                       chains: seq<seq<nat>>, e: Entry, o: FsObject, v: seq<nat>)
    requires g.Sound() && Scanned(g, fat, entries, objects, chains) && EntryObject(g, fat, e, o, v)
    ensures Scanned(g, fat, entries + [e], objects + [o], chains + [v])
  {
    assert DropLast(entries + [e]) == entries && Last(entries + [e]) == e;
    assert DropLast(objects + [o]) == objects && Last(objects + [o]) == o;
    assert DropLast(chains + [v]) == chains && Last(chains + [v]) == v;
  }

  /** The unmerged ranges behind the object list. */
  ghost function AllPieces(g: Geom, fat: seq<byte>, entries: seq<Entry>, chains: seq<seq<nat>>): seq<Extent>
    requires g.Sound() && Chained(g, fat, entries, chains)
  {
    if entries == [] then [Extent(g.base, g.boot), Extent(g.base + g.boot, g.table)]
    else
      AllPieces(g, fat, DropLast(entries), DropLast(chains)) + Pieces(g.heap, Last(chains), Last(entries).Wanted())
  }

  ghost predicate Chained(g: Geom, fat: seq<byte>, entries: seq<Entry>, chains: seq<seq<nat>>)
    requires g.Sound()
  {
    |entries| == |chains| && forall i :: 0 <= i < |entries| ==> EntryChain(g, fat, entries[i], chains[i])
  }

  lemma {:induction false} AllPiecesBytes(g: Geom, fat: seq<byte>, entries: seq<Entry>, objects: seq<FsObject>,
                                          chains: seq<seq<nat>>)
    requires g.Sound() && Scanned(g, fat, entries, objects, chains)
    ensures Chained(g, fat, entries, chains)
    ensures Bytes(AllPieces(g, fat, entries, chains)) == Bytes(AllExtents(objects))
    decreases entries
  {
    if entries == [] {
      TwoObjects(BootObject(g), FatObject(g));
    } else {
      AllPiecesBytes(g, fat, DropLast(entries), DropLast(objects), DropLast(chains));
      ChainedSnoc(g, fat, entries, chains);
      SameBytes(AllPieces(g, fat, DropLast(entries), DropLast(chains)), AllExtents(DropLast(objects)),
                Pieces(g.heap, Last(chains), Last(entries).Wanted()));
    }
  }

  lemma {:induction false} TwoObjects(a: FsObject, b: FsObject)
    ensures AllExtents([a, b]) == a.extents + b.extents
  {
    assert DropLast([a, b]) == [a] && DropLast([a]) == [];
    assert AllExtents([a]) == [] + a.extents == a.extents;
  }

  lemma {:induction false} SameBytes(a: seq<Extent>, b: seq<Extent>, ps: seq<Extent>)
    requires Bytes(a) == Bytes(b)
    ensures Bytes(a + ps) == Bytes(b + PushAll([], ps))
  {
    PushAllBytes([], ps);
    assert [] + Bytes(ps) == Bytes(ps);
    BytesAppend(a, ps);
    BytesAppend(b, PushAll([], ps));
  }

  lemma {:induction false} ChainedSnoc(g: Geom, fat: seq<byte>, entries: seq<Entry>, chains: seq<seq<nat>>)
    requires g.Sound() && entries != [] && chains != []
    requires Chained(g, fat, DropLast(entries), DropLast(chains)) && EntryChain(g, fat, Last(entries), Last(chains))
    ensures Chained(g, fat, entries, chains)
  {
    forall i | 0 <= i < |entries| ensures EntryChain(g, fat, entries[i], chains[i]) {
      if i < |entries| - 1 { assert DropLast(entries)[i] == entries[i] && DropLast(chains)[i] == chains[i]; }
    }
  }

  ghost predicate AllApart(a: seq<Extent>, b: seq<Extent>) {
    forall i, j :: 0 <= i < |a| && 0 <= j < |b| ==> Apart(a[i], b[j])
  }

  lemma {:induction false} EntryPlace(g: Geom, fat: seq<byte>, e: Entry, v: seq<nat>)
    requires g.Sound() && EntryChain(g, fat, e, v)
    ensures PairwiseDisjoint(Pieces(g.heap, v, e.Wanted())) &&
            Within(Pieces(g.heap, v, e.Wanted()), g.heap.start, g.HeapEnd())
  {
    if e.clus >= 2 { PiecesPlace(g, fat, e.clus, e.Wanted(), v); }
  }

  lemma {:induction false} EntriesApart(g: Geom, fat: seq<byte>, e: Entry, v: seq<nat>, f: Entry, w: seq<nat>)
    requires g.Sound() && EntryChain(g, fat, e, v) && EntryChain(g, fat, f, w) && InjectiveTable(g, fat)
    requires StartApart(g, fat, e, f)
    ensures AllApart(Pieces(g.heap, v, e.Wanted()), Pieces(g.heap, w, f.Wanted()))
  {
    forall i, j | 0 <= i < |v| && 0 <= j < |w|
      ensures Apart(Pieces(g.heap, v, e.Wanted())[i], Pieces(g.heap, w, f.Wanted())[j])
    {
      ChainsApart(g, fat, e.clus, f.clus, e.Wanted(), f.Wanted(), v, w, i, j);
      PiecesApart(g.heap, v, e.Wanted(), w, f.Wanted(), i, j);
    }
  }

  /** Entry `f` starts apart from entry `e`, and neither start is a successor. */
  ghost predicate StartApart(g: Geom, fat: seq<byte>, e: Entry, f: Entry)
    requires g.Sound()
  {
    e.clus >= 2 && f.clus >= 2 ==>
      e.clus != f.clus && NobodysSuccessor(g, fat, e.clus) && NobodysSuccessor(g, fat, f.clus)
  }

  /** One more entry's ranges avoid all earlier ranges and the metadata regions. */
  lemma {:induction false} AllPiecesApart(g: Geom, fat: seq<byte>, entries: seq<Entry>, chains: seq<seq<nat>>,
                                          f: Entry, w: seq<nat>)
    requires g.Valid() && Chained(g, fat, entries, chains) && EntryChain(g, fat, f, w)
    requires InjectiveTable(g, fat) && forall i :: 0 <= i < |entries| ==> StartApart(g, fat, entries[i], f)
    ensures AllApart(AllPieces(g, fat, entries, chains), Pieces(g.heap, w, f.Wanted()))
    decreases entries
  {
    var b := Pieces(g.heap, w, f.Wanted());
    if entries == [] {
      EntryPlace(g, fat, f, w);
      MetadataApart(g, b);
    } else {
      var e, v := Last(entries), Last(chains);
      var front, rest := DropLast(entries), DropLast(chains);
      assert EntryChain(g, fat, entries[|entries| - 1], chains[|entries| - 1]);
      assert StartApart(g, fat, entries[|entries| - 1], f);
      AllPiecesApart(g, fat, front, rest, f, w);
      EntriesApart(g, fat, e, v, f, w);
      AllApartAppend(AllPieces(g, fat, front, rest), Pieces(g.heap, v, e.Wanted()), b);
    }
  }

  lemma {:induction false} MetadataApart(g: Geom, b: seq<Extent>)
    requires g.Valid() && Within(b, g.heap.start, g.HeapEnd())
    ensures AllApart([Extent(g.base, g.boot), Extent(g.base + g.boot, g.table)], b)
  {
  }

  lemma {:induction false} AllApartAppend(a: seq<Extent>, c: seq<Extent>, b: seq<Extent>)
    requires AllApart(a, b) && AllApart(c, b)
    ensures AllApart(a + c, b)
  {
  }

  lemma {:induction false} AllPiecesDisjoint(g: Geom, fat: seq<byte>, entries: seq<Entry>, chains: seq<seq<nat>>)
    requires g.Valid() && Chained(g, fat, entries, chains)
    requires InjectiveTable(g, fat) && CleanEntries(g, fat, entries)
    ensures PairwiseDisjoint(AllPieces(g, fat, entries, chains))
    decreases entries
  {
    if entries != [] {
      var front, e := DropLast(entries), Last(entries);
      assert entries == front + [e];
      assert forall i :: 0 <= i < |front| ==> front[i] == entries[i];
      AllPiecesDisjoint(g, fat, front, DropLast(chains));
      assert forall i :: 0 <= i < |front| ==> StartApart(g, fat, front[i], e);
      AllPiecesApart(g, fat, front, DropLast(chains), e, Last(chains));
      EntryPlace(g, fat, e, Last(chains));
      var a, b := AllPieces(g, fat, front, DropLast(chains)), Pieces(g.heap, Last(chains), e.Wanted());
      assert forall i, j :: 0 <= i < |a| && 0 <= j < |b| ==> Apart(a[i], b[j]);
      DisjointAppend(a, b);
    }
  }

  /** On a healthy volume no byte is listed twice, metadata regions included. */
  lemma {:induction false} VolumeDisjoint(g: Geom, fat: seq<byte>, entries: seq<Entry>, objects: seq<FsObject>,
                                          chains: seq<seq<nat>>)
    requires g.Valid() && Scanned(g, fat, entries, objects, chains)
    requires InjectiveTable(g, fat) && CleanEntries(g, fat, entries)
    ensures Distinct(Bytes(AllExtents(objects)))
  {
    AllPiecesBytes(g, fat, entries, objects, chains);
    AllPiecesDisjoint(g, fat, entries, chains);
    DisjointDistinct(AllPieces(g, fat, entries, chains));
  }

  // ---- Entry packing: section 4 (File Allocation Table) of the Microsoft FAT Specification ----

  function ByteOf(v: nat, k: nat): byte {
    match k
    case 0 => v % 256
    case 1 => v / 256 % 256
    case 2 => v / 65536 % 256
    case _ => v / 16777216 % 256
  }

  /** 32-bit entries: 28 value bits below four reserved bits. */
  function Pack32(es: seq<nat>, reserved: seq<nat>): seq<byte>
    requires |reserved| == |es|
  {
    seq(4 * |es|, i requires 0 <= i < 4 * |es| => ByteOf(es[i / 4] + 0x1000_0000 * reserved[i / 4], i % 4))
  }

  function Pack16(es: seq<nat>): seq<byte> {
    seq(2 * |es|, i requires 0 <= i < 2 * |es| => ByteOf(es[i / 2], i % 2))
  }

  function Pack12Byte(lo: nat, hi: nat, k: nat): byte {
    match k
    case 0 => lo % 256
    case 1 => lo / 256 % 16 + 16 * (hi % 16)
    case _ => hi / 16 % 256
  }

  function EntryOr0(es: seq<nat>, i: nat): nat { if i < |es| then es[i] else 0 }

  /** 12-bit entries: two entries share three bytes, the odd one in the high bits. */
  function Pack12(es: seq<nat>): seq<byte> {
    seq((3 * |es| + 1) / 2, i requires 0 <= i =>
      Pack12Byte(EntryOr0(es, i / 3 * 2), EntryOr0(es, i / 3 * 2 + 1), i % 3))
  }

  lemma {:induction false} Join32(v: nat)
    requires v < 0x1_0000_0000
    ensures ByteOf(v, 0) as nat + 256 * ByteOf(v, 1) as nat
            + 65536 * (ByteOf(v, 2) as nat + 256 * ByteOf(v, 3) as nat) == v
  {
    assert v / 65536 == v / 256 / 256;
    assert v / 16777216 == v / 65536 / 256;
  }

  lemma {:induction false} Pack32At(es: seq<nat>, reserved: seq<nat>, c: nat, k: nat)
    requires |reserved| == |es| && c < |es| && k < 4
    ensures Pack32(es, reserved)[4 * c + k] == ByteOf(es[c] + 0x1000_0000 * reserved[c], k)
  {
    assert (4 * c + k) / 4 == c && (4 * c + k) % 4 == k;
  }

  lemma {:induction false} Decode32(fat: seq<byte>, c: nat, v: nat)
    requires c < 0x4000_0000 && 4 * c + 4 <= |fat| && v < 0x1_0000_0000
    requires forall k :: 0 <= k < 4 ==> fat[4 * c + k] == ByteOf(v, k)
    ensures FatGet(fat, Fat32, c) == v % 0x1000_0000
  {
    Join32(v);
    assert fat[4 * c + 0] == ByteOf(v, 0) && fat[4 * c + 1] == ByteOf(v, 1);
    assert fat[4 * c + 2] == ByteOf(v, 2) && fat[4 * c + 3] == ByteOf(v, 3);
  }

  lemma {:induction false} TopBits(e: nat, r: nat)
    requires e < 0x1000_0000 && r < 16
    ensures e + 0x1000_0000 * r < 0x1_0000_0000
    ensures (e + 0x1000_0000 * r) % 0x1000_0000 == e
  {
  }

  /** Decoding a packed 32-bit entry ignores the reserved bits and gives the value back. */
  lemma {:induction false} Unpack32(es: seq<nat>, reserved: seq<nat>, c: nat)
    requires |reserved| == |es| && c < |es| && c < 0x4000_0000
    requires es[c] < 0x1000_0000 && reserved[c] < 16
    ensures FatGet(Pack32(es, reserved), Fat32, c) == es[c]
  {
    var v := es[c] + 0x1000_0000 * reserved[c];
    TopBits(es[c], reserved[c]);
    forall k | 0 <= k < 4 ensures Pack32(es, reserved)[4 * c + k] == ByteOf(v, k) {
      Pack32At(es, reserved, c, k);
    }
    Decode32(Pack32(es, reserved), c, v);
  }

  lemma {:induction false} Pack16At(es: seq<nat>, c: nat, k: nat)
    requires c < |es| && k < 2
    ensures Pack16(es)[2 * c + k] == ByteOf(es[c], k)
  {
    assert (2 * c + k) / 2 == c && (2 * c + k) % 2 == k;
  }

  lemma {:induction false} Unpack16(es: seq<nat>, c: nat)
    requires c < |es| && c < 0x4000_0000 && es[c] < 0x1_0000
    ensures FatGet(Pack16(es), Fat16, c) == es[c]
  {
    Pack16At(es, c, 0);
    Pack16At(es, c, 1);
  }

  lemma {:induction false} Pack12At(es: seq<nat>, t: nat, k: nat)
    requires 3 * t + k < (3 * |es| + 1) / 2 && k < 3
    ensures Pack12(es)[3 * t + k] == Pack12Byte(EntryOr0(es, 2 * t), EntryOr0(es, 2 * t + 1), k)
  {
    assert (3 * t + k) / 3 == t && (3 * t + k) % 3 == k;
  }

  lemma {:induction false} Join12(lo: nat, hi: nat)
    requires lo < 0x1000 && hi < 0x1000
    ensures (Pack12Byte(lo, hi, 0) as nat + 256 * Pack12Byte(lo, hi, 1) as nat) % 0x1000 == lo
    ensures (Pack12Byte(lo, hi, 1) as nat + 256 * Pack12Byte(lo, hi, 2) as nat) / 16 == hi
  {
    var mid := lo / 256 % 16 + 16 * (hi % 16);
    assert lo % 256 + 256 * mid == lo + 0x1000 * (hi % 16);
    assert mid + 256 * (hi / 16) == lo / 256 + 16 * hi;
  }

  lemma {:induction false} Unpack12(es: seq<nat>, c: nat)
    requires c < |es| && c < 0x4000_0000
    requires forall i :: 0 <= i < |es| ==> es[i] < 0x1000
    ensures FatGet(Pack12(es), Fat12, c) == es[c]
  {
    if c % 2 == 0 {
      Unpack12Even(es, c / 2);
    } else {
      Unpack12Odd(es, c / 2);
    }
  }

  lemma {:induction false} Unpack12Even(es: seq<nat>, t: nat)
    requires 2 * t < |es| && 2 * t < 0x4000_0000 && forall i :: 0 <= i < |es| ==> es[i] < 0x1000
    ensures FatGet(Pack12(es), Fat12, 2 * t) == es[2 * t]
  {
    Join12(EntryOr0(es, 2 * t), EntryOr0(es, 2 * t + 1));
    Pack12At(es, t, 0);
    Pack12At(es, t, 1);
    Decode12(Pack12(es), 2 * t, 3 * t);
  }

  lemma {:induction false} Unpack12Odd(es: seq<nat>, t: nat)
    requires 2 * t + 1 < |es| && 2 * t + 1 < 0x4000_0000 && forall i :: 0 <= i < |es| ==> es[i] < 0x1000
    ensures FatGet(Pack12(es), Fat12, 2 * t + 1) == es[2 * t + 1]
  {
    Join12(EntryOr0(es, 2 * t), EntryOr0(es, 2 * t + 1));
    Pack12At(es, t, 1);
    Pack12At(es, t, 2);
    Decode12(Pack12(es), 2 * t + 1, 3 * t + 1);
  }

  lemma {:induction false} Decode12(fat: seq<byte>, c: nat, off: nat)
    requires c < 0x4000_0000 && off == c + c / 2 && off + 1 < |fat|
    ensures FatGet(fat, Fat12, c) == if c % 2 == 1 then R16(fat, off) / 16 else R16(fat, off) % 0x1000
  {
  }

  // ---- Short names ----

  /** The text without the blanks at its end. */
  function Trimmed(s: string): string {
    if s != "" && Last(s) == ' ' then Trimmed(DropLast(s)) else s
  }

  /** A character array as the C library reads it: up to the first NUL. */
  function CText(s: string): string {
    if s == "" || s[0] == '\0' then "" else [s[0]] + CText(s[1..])
  }

  /** The eight and three characters of a directory record's name field as a file name. */
  function ShortName(field: string): string
    requires |field| == 11
  {
    var ext := Trimmed(field[8..]);
    CText(Trimmed(field[..8])) + if CText(ext) == "" then "" else "." + CText(ext)
  }

  function Blanks(n: nat): (s: string)
    ensures |s| == n
  {
    if n == 0 then "" else Blanks(n - 1) + " "
  }

  /** A part of a name as a directory record can hold it: no NUL in it, and no blank at its end. */
  ghost predicate NamePart(s: string, room: nat) {
    |s| <= room && '\0' !in s && (s != "" ==> Last(s) != ' ')
  }

  /** A name padded with blanks reads back, with a dot only where there is an extension. */
  lemma {:induction false} ShortNameReads(base: string, ext: string)
    requires NamePart(base, 8) && NamePart(ext, 3)
    ensures ShortName(base + Blanks(8 - |base|) + (ext + Blanks(3 - |ext|))) ==
            if ext == "" then base else base + "." + ext
  {
    var first, second := base + Blanks(8 - |base|), ext + Blanks(3 - |ext|);
    assert (first + second)[..8] == first && (first + second)[8..] == second;
    TrimmedPadded(base, 8 - |base|);
    TrimmedPadded(ext, 3 - |ext|);
    TextItself(base);
    TextItself(ext);
  }

  lemma {:induction false} TrimmedPadded(s: string, n: nat)
    requires s != "" ==> Last(s) != ' '
    ensures Trimmed(s + Blanks(n)) == s
  {
    if n == 0 {
      assert s + Blanks(0) == s;
    } else {
      assert DropLast(s + Blanks(n)) == s + Blanks(n - 1) && Last(s + Blanks(n)) == ' ';
      TrimmedPadded(s, n - 1);
    }
  }

  lemma {:induction false} TextItself(s: string)
    requires '\0' !in s
    ensures CText(s) == s
  {
    if s != "" {
      TextItself(s[1..]);
      assert s == [s[0]] + s[1..];
    }
  }

  lemma {:induction false} TrimmedBlanks(s: string)
    requires forall i :: 0 <= i < |s| ==> s[i] == ' '
    ensures Trimmed(s) == ""
  {
    if s != "" { TrimmedBlanks(DropLast(s)); }
  }

  /** An all-blank name field gives an empty file name. */
  lemma {:induction false} BlankShortName(field: string)
    requires |field| == 11 && forall i :: 0 <= i < 11 ==> field[i] == ' '
    ensures ShortName(field) == ""
  {
    TrimmedBlanks(field[..8]);
    TrimmedBlanks(field[8..]);
  }
}
