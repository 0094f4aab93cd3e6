/** exFAT cluster chains of files (src/fs/exfat.cpp, `chain` with `whole_chain` false). */
module ExFat {
  import opened Arith
  import opened Clusters
  import opened Extents
  import opened Options

  const END_MARK: nat := 0xFFFF_FFF8

  /** The boot sector fields the scan uses; it checks none of them. */
  datatype Boot = Boot(base: nat, bpsShift: nat, spcShift: nat, heapSector: nat, clusterCount: nat) {
    /** The widths of the fields. */
    predicate Widths() {
      base <= U64_MAX && bpsShift < 0x100 && spcShift < 0x100 && heapSector < 0x1_0000_0000 &&
      clusterCount < 0x1_0000_0000
    }

    /** The sector size, as the source cuts it to 16 bits. */
    function Bps(): nat { Pow2(bpsShift) % 0x1_0000 }

    /** The heap as the source computes it in 64 bits, or None where a shift has no meaning. */
    function Geometry(): Option<Geom> {
      if bpsShift >= 32 || spcShift >= 64 then None
      else
        Some(Geom(Heap(Wrap(base + heapSector * Bps()), Wrap(Bps() * Pow2(spcShift))), clusterCount))
    }
  }

  function Pow2(n: nat): nat { if n == 0 then 1 else 2 * Pow2(n - 1) }

  /** Heap layout and cluster count. The bounds keep the source's 64-bit addresses and its 32-bit
      `cluster_count + 2` from wrapping. */
  datatype Geom = Geom(heap: Heap, clusterCount: nat) {
    predicate Valid() {
      heap.unit > 0 && clusterCount < 0xFFFF_FFF6 && Fits(heap)
    }
  }

  predicate Fits(h: Heap) { h.start + h.unit * 0xFFFF_FFF6 <= U64_MAX }

  /** A cluster's address as the source computes it. */
  function Address(h: Heap, c: nat): nat
    requires c >= 2
  {
    Wrap(ClusterOffset(h, c))
  }

  /** The bound says exactly that the bytes of every cluster a walk can visit have 64-bit addresses; then
      the source's addresses are the true ones. */
  lemma {:induction false} FitsIff(h: Heap)
    ensures Fits(h) <==> forall c :: IsLink(c) ==> ClusterOffset(h, c) + h.unit <= U64_MAX
    ensures Fits(h) ==> forall c :: IsLink(c) ==> Address(h, c) == ClusterOffset(h, c)
  {
    var last := END_MARK - 1;
    TimesIs(last - 2, h.unit);
    assert IsLink(last) && ClusterOffset(h, last) + h.unit == h.start + h.unit * 0xFFFF_FFF6;
    forall c: nat | IsLink(c) && Fits(h) ensures ClusterOffset(h, c) + h.unit <= U64_MAX {
      TimesMono(c - 2, last - 2, h.unit);
    }
  }

  lemma {:induction false} Pow2Add(a: nat, b: nat)
    ensures Pow2(a + b) == Pow2(a) * Pow2(b)
  {
    if a > 0 {
      Pow2Add(a - 1, b);
      Regroup(2, Pow2(a - 1), Pow2(b));
    }
  }

  lemma {:induction false} Pow2Grows(a: nat, b: nat)
    requires a <= b
    ensures 0 < Pow2(a) <= Pow2(b)
  {
    if a < b {
      Pow2Grows(a, b - 1);
    } else if a > 0 {
      Pow2Grows(a - 1, a - 1);
    }
  }

  lemma {:induction false} Pow2Values()
    ensures Pow2(15) == 0x8000 && Pow2(16) == 0x1_0000 && Pow2(31) == 0x8000_0000 && Pow2(32) == 0x1_0000_0000
    ensures Pow2(33) == 0x2_0000_0000 && Pow2(64) == U64_MAX + 1
  {
    assert Pow2(8) == 256;
    Pow2Add(8, 8);
    Pow2Add(16, 16);
    Pow2Add(32, 32);
  }

  /** Multiples of the modulus vanish. */
  lemma {:induction false} Pow2Wraps(n: nat, k: nat)
    requires k <= n
    ensures Pow2(k) > 0 && Pow2(n) % Pow2(k) == 0
  {
    Pow2Grows(k, k);
    Pow2Add(n - k, k);
    MultipleMod(Pow2(n - k), Pow2(k));
  }

  lemma {:induction false} BpsIs(s: nat)
    ensures Pow2(s) % 0x1_0000 == if s <= 15 then Pow2(s) else 0
    ensures s <= 15 ==> Pow2(s) <= 0x8000
  {
    Pow2Values();
    if s >= 16 { Pow2Wraps(s, 16); } else { Pow2Grows(s, 15); }
  }

  lemma {:induction false} WrapPow2(k: nat)
    ensures Wrap(Pow2(k)) == if k < 64 then Pow2(k) else 0
  {
    Pow2Values();
    if k < 64 {
      Pow2Below(k, 64);
      WrapSmall(Pow2(k));
    } else {
      Pow2Wraps(k, 64);
    }
  }

  /** The cluster size is the power of both shifts, unless it is too large for 64 bits. */
  lemma {:induction false} UnitIs(b: Boot)
    requires b.Geometry().Some?
    ensures var k := b.bpsShift + b.spcShift;
            b.Geometry().value.heap.unit == if b.bpsShift <= 15 && k < 64 then Pow2(k) else 0
  {
    BpsIs(b.bpsShift);
    if b.bpsShift <= 15 {
      Pow2Add(b.bpsShift, b.spcShift);
      WrapPow2(b.bpsShift + b.spcShift);
    } else {
      assert b.Bps() * Pow2(b.spcShift) == 0;
    }
  }

  lemma {:induction false} StartIs(b: Boot)
    requires b.Widths() && b.base <= 0x3FFF_FFFF_FFFF_FFFF && b.Geometry().Some? && b.bpsShift <= 15
    ensures b.Geometry().value.heap.start == b.base + b.heapSector * Pow2(b.bpsShift) <= 0x4000_8000_0000_0000
  {
    BpsIs(b.bpsShift);
    StartFits(b.base, b.heapSector, b.Bps());
  }

  lemma {:induction false} StartFits(base: nat, sector: nat, bps: nat)
    requires base <= 0x3FFF_FFFF_FFFF_FFFF && sector < 0x1_0000_0000 && bps <= 0x8000
    ensures Wrap(base + sector * bps) == base + sector * bps <= 0x4000_8000_0000_0000
  {
    LeMul(sector, 0x1_0000_0000, bps);
    WrapSmall(base + sector * bps);
  }

  /** When the computed layout is well formed: sectors of at most 2^15 bytes, clusters of at most 2^31 bytes
      (or of 2^32 where the heap starts below ten of them), and a count that leaves room for two more. */
  lemma {:induction false} GeometryValid(b: Boot)
    requires b.Widths() && b.base <= 0x3FFF_FFFF_FFFF_FFFF
    ensures b.Geometry().Some? && b.Geometry().value.Valid() <==>
            && b.bpsShift <= 15 && b.clusterCount < 0xFFFF_FFF6
            && (|| b.bpsShift + b.spcShift <= 31
                || (b.bpsShift + b.spcShift == 32 && b.base + b.heapSector * Pow2(b.bpsShift) < 0xA_0000_0000))
  {
    if b.Geometry().Some? {
      UnitIs(b);
      if b.bpsShift <= 15 {
        StartIs(b);
        SizeFits(b.Geometry().value.heap, b.bpsShift + b.spcShift);
      }
    }
  }

  lemma {:induction false} SizeFits(h: Heap, k: nat)
    requires h.start <= 0x4000_8000_0000_0000 && h.unit == if k < 64 then Pow2(k) else 0
    ensures h.unit > 0 && Fits(h) <==> k <= 31 || (k == 32 && h.start < 0xA_0000_0000)
  {
    Pow2Values();
    if 33 <= k < 64 {
      Pow2Grows(33, k);
    } else if k <= 31 {
      Pow2Grows(k, 31);
    }
  }

  lemma {:induction false} Pow2Below(a: nat, b: nat)
    requires a < b
    ensures Pow2(a) < Pow2(b)
  {
    Pow2Grows(a, b - 1);
    Pow2Grows(b - 1, b - 1);
  }

  /** With the shifts 9 and 31, which the scan accepts, clusters are 2^40 bytes long, and the source gives
      clusters 2 and 0x1000002 the same address. */
  lemma {:induction false} WrappedLayout(b: Boot)
    requires b == Boot(0, 9, 31, 0, 0x200_0000)
    ensures b.Widths() && b.Geometry() == Some(Geom(Heap(0, 0x100_0000_0000), 0x200_0000))
    ensures !b.Geometry().value.Valid() && IsLink(0x100_0002)
    ensures Address(b.Geometry().value.heap, 0x100_0002) == Address(b.Geometry().value.heap, 2)
  {
    Pow2Values();
    assert Pow2(9) == 0x200;
    var h := Heap(0, 0x100_0000_0000);
    var n: nat := 0x100_0000;
    TimesIs(n, h.unit);
    assert ClusterOffset(h, n + 2) == Times(n, h.unit);
  }

  /** The table entry of a cluster, or None where the source reads outside the table. Both the offset
      and the end that is compared with the table's size are 32-bit, so they wrap. */
  function FatEntry(fat: seq<byte>, c: nat): Option<nat> {
    var off := c * 4 % 0x1_0000_0000;
    if (off + 4) % 0x1_0000_0000 > |fat| then Some(0xFFFF_FFFF)
    else if off + 4 <= |fat| then Some(R32(fat, off))
    else None
  }

  /** A link whose entry would be the last four bytes of a table of exactly 2^32 bytes: 0x3FFFFFFF,
      0x7FFFFFFF and 0xBFFFFFFF. */
  predicate Wraps(c: nat) { IsLink(c) && c % 0x4000_0000 == 0x3FFF_FFFF }

  /** A read leaves the table exactly for these clusters, on every table below 4 GiB. */
  lemma {:induction false} OutsideIff(fat: seq<byte>, c: nat)
    requires IsLink(c)
    ensures FatEntry(fat, c).None? <==> Wraps(c) && |fat| < 0x1_0000_0000
  {
    assert c == 0x4000_0000 * (c / 0x4000_0000) + c % 0x4000_0000;
    assert c * 4 % 0x1_0000_0000 == 4 * (c % 0x4000_0000);
  }

  predicate IsLink(c: nat) { 2 <= c < END_MARK }

  function Wanted(size: nat): nat { if size == 0 then U64_MAX else size }

  ghost predicate Follows(fat: seq<byte>, v: seq<nat>, i: nat)
    requires i < |v| - 1
  {
    FatEntry(fat, v[i]) == Some(v[i + 1])
  }

  /** `v` starts at `start` and follows the table through distinct clusters while bytes are wanted. */
  ghost predicate Trail(g: Geom, fat: seq<byte>, start: nat, limit: nat, v: seq<nat>) {
    && (forall i :: 0 <= i < |v| ==> IsLink(v[i]))
    && Distinct(v)
    && (forall i :: 0 <= i < |v| - 1 ==> Follows(fat, v, i))
    && (v != [] ==> v[0] == start && Rest(limit, |v| - 1, g.heap.unit) > 0)
  }

  /** What comes after `v`: the start, or the entry of the last cluster. */
  function After(fat: seq<byte>, start: nat, v: seq<nat>): Option<nat> {
    if v == [] then Some(start) else FatEntry(fat, Last(v))
  }

  /** The whole chain: a trail that cannot go on, possibly because the next entry lies outside. */
  ghost predicate Chain(g: Geom, fat: seq<byte>, start: nat, limit: nat, v: seq<nat>) {
    var n := After(fat, start, v);
    && Trail(g, fat, start, limit, v)
    && (Rest(limit, |v|, g.heap.unit) == 0 || n.None? || !IsLink(n.value) || n.value in v)
  }

  /** The chain of a start cluster is unique, so `Chain` pins the visited clusters down. */
  lemma {:induction false} ChainUnique(g: Geom, fat: seq<byte>, start: nat, limit: nat, v: seq<nat>, w: seq<nat>)
    requires Chain(g, fat, start, limit, v) && Chain(g, fat, start, limit, w)
    ensures v == w
  {
    var n := Min(|v|, |w|);
    ChainPrefix(g, fat, start, limit, v, w, n);
    if |v| <= |w| {
      ChainMaximal(g, fat, start, limit, v, w);
    } else {
      ChainMaximal(g, fat, start, limit, w, v);
    }
  }

  lemma {:induction false} ChainMaximal(g: Geom, fat: seq<byte>, start: nat, limit: nat, v: seq<nat>, w: seq<nat>)
    requires Chain(g, fat, start, limit, v) && Trail(g, fat, start, limit, w) && |v| <= |w| && v == w[..|v|]
    ensures |w| <= |v|
  {
    if |v| < |w| { PrefixGoesOn(g, fat, start, limit, w, |v|); }
  }

  lemma {:induction false} ChainPrefix(g: Geom, fat: seq<byte>, start: nat, limit: nat, v: seq<nat>, w: seq<nat>,
                                       n: nat)
    requires Trail(g, fat, start, limit, v) && Trail(g, fat, start, limit, w) && n <= |v| && n <= |w|
    ensures v[..n] == w[..n]
  {
    if n > 0 {
      ChainPrefix(g, fat, start, limit, v, w, n - 1);
      if n > 1 {
        assert v[n - 2] == v[..n - 1][n - 2] == w[..n - 1][n - 2] == w[n - 2];
        assert Follows(fat, v, n - 2) && Follows(fat, w, n - 2);
      }
      assert v[..n] == v[..n - 1] + [v[n - 1]] && w[..n] == w[..n - 1] + [w[n - 1]];
    }
  }

  lemma {:induction false} PrefixGoesOn(g: Geom, fat: seq<byte>, start: nat, limit: nat, w: seq<nat>, n: nat)
    requires Trail(g, fat, start, limit, w) && n < |w|
    ensures !Chain(g, fat, start, limit, w[..n])
  {
    RestPositive(limit, |w| - 1, n, g.heap.unit);
    assert w[n] !in w[..n];
    if n > 0 { assert Follows(fat, w, n - 1) && Last(w[..n]) == w[n - 1]; }
  }

  /** Every entry of the chain was read inside the table. */
  ghost predicate Inside(fat: seq<byte>, v: seq<nat>) {
    forall i :: 0 <= i < |v| ==> FatEntry(fat, v[i]).Some?
  }

  /** All entries but the last one are followed, so only that one can lie outside. */
  lemma {:induction false} InsideIff(g: Geom, fat: seq<byte>, start: nat, limit: nat, v: seq<nat>)
    requires Trail(g, fat, start, limit, v)
    ensures Inside(fat, v) <==> After(fat, start, v).Some?
    ensures Inside(fat, v) <==> |fat| >= 0x1_0000_0000 || forall i :: 0 <= i < |v| ==> !Wraps(v[i])
  {
    forall i | 0 <= i < |v| ensures FatEntry(fat, v[i]).None? <==> Wraps(v[i]) && |fat| < 0x1_0000_0000 {
      OutsideIff(fat, v[i]);
    }
    forall i | 0 <= i < |v| - 1 ensures FatEntry(fat, v[i]).Some? { assert Follows(fat, v, i); }
    if v != [] { assert v[|v| - 1] == Last(v); }
  }

  /** A condition that can be checked beforehand: neither the start nor any entry is such a cluster. */
  lemma {:induction false} CleanTableInside(g: Geom, fat: seq<byte>, start: nat, limit: nat, v: seq<nat>)
    requires Trail(g, fat, start, limit, v)
    requires !Wraps(start) && forall k :: 0 <= k && 4 * k + 4 <= |fat| ==> !Wraps(R32(fat, 4 * k))
    ensures Inside(fat, v)
  {
    forall i | 0 <= i < |v| ensures !Wraps(v[i]) {
      if i > 0 {
        assert Follows(fat, v, i - 1);
        EntryPlace(fat, v[i - 1]);
      }
    }
    InsideIff(g, fat, start, limit, v);
  }

  /** An entry that is read is a word of the table, or the end mark past its end. */
  lemma {:induction false} EntryPlace(fat: seq<byte>, c: nat)
    requires FatEntry(fat, c).Some?
    ensures FatEntry(fat, c) == Some(0xFFFF_FFFF) ||
            exists k :: 0 <= k && 4 * k + 4 <= |fat| && FatEntry(fat, c) == Some(R32(fat, 4 * k))
  {
    var off := c * 4 % 0x1_0000_0000;
    assert off == 4 * (off / 4);
  }

  /** The entry of cluster 2 of this twelve-byte table is 0x3FFFFFFF. */
  const BAD_TABLE: seq<byte> := [0, 0, 0, 0, 0, 0, 0, 0, 0xFF, 0xFF, 0xFF, 0x3F]

  /** On it the walk from cluster 2 follows that entry and then reads outside the table. */
  lemma {:induction false} OutsideInput(g: Geom, v: seq<nat>)
    requires g.Valid() && Chain(g, BAD_TABLE, 2, 2 * g.heap.unit, v)
    ensures v == [2, 0x3FFF_FFFF] && !Inside(BAD_TABLE, v)
  {
    BadEntries();
    OutsideWalk(g, BAD_TABLE, v, 0x3FFF_FFFF);
  }

  lemma {:induction false} BadEntries()
    ensures FatEntry(BAD_TABLE, 2) == Some(0x3FFF_FFFF) && FatEntry(BAD_TABLE, 0x3FFF_FFFF) == None
  {
    OutsideIff(BAD_TABLE, 0x3FFF_FFFF);
  }

  /** A table whose entry of cluster 2 is a cluster whose own entry lies outside. */
  lemma {:induction false} OutsideWalk(g: Geom, fat: seq<byte>, v: seq<nat>, c: nat)
    requires g.Valid() && Chain(g, fat, 2, 2 * g.heap.unit, v) && IsLink(c) && c != 2
    requires FatEntry(fat, 2) == Some(c) && FatEntry(fat, c).None?
    ensures v == [2, c] && !Inside(fat, v)
  {
    var limit := 2 * g.heap.unit;
    assert Rest(limit, 1, g.heap.unit) > 0;
    assert v != [];
    FollowedEntry(g, fat, 2, limit, v, 0);
    if |v| > 2 { FollowedEntry(g, fat, 2, limit, v, 1); }
    assert v[1] == c;
  }

  lemma {:induction false} FollowedEntry(g: Geom, fat: seq<byte>, start: nat, limit: nat, v: seq<nat>, i: nat)
    requires Trail(g, fat, start, limit, v) && i < |v| - 1
    ensures FatEntry(fat, v[i]) == Some(v[i + 1])
  {
    assert Follows(fat, v, i);
  }

  /** The state of the table-following loop after visiting `v`. */
  ghost predicate Walking(g: Geom, fat: seq<byte>, start: nat, limit: nat, v: seq<nat>, c: nat, left: nat,
                          seen: set<nat>, exts: seq<Extent>)
  {
    && Trail(g, fat, start, limit, v)
    && (forall x :: x in v <==> x in seen)
    && After(fat, start, v) == Some(c)
    && left == Rest(limit, |v|, g.heap.unit)
    && exts == PushAll([], Pieces(g.heap, v, limit))
  }

  lemma {:induction false} WalkStart(g: Geom, fat: seq<byte>, start: nat, limit: nat)
    ensures Walking(g, fat, start, limit, [], start, limit, {}, [])
  {
  }

  lemma {:induction false} WalkStep(g: Geom, fat: seq<byte>, start: nat, limit: nat, v: seq<nat>, c: nat, left: nat,
                 seen: set<nat>, exts: seq<Extent>)
    requires Walking(g, fat, start, limit, v, c, left, seen, exts)
    requires IsLink(c) && c !in seen && left > 0
    ensures Trail(g, fat, start, limit, v + [c]) && After(fat, start, v + [c]) == FatEntry(fat, c)
    ensures FatEntry(fat, c).Some? ==>
              var take := Min(left, g.heap.unit);
              Walking(g, fat, start, limit, v + [c], FatEntry(fat, c).value, left - take, seen + {c},
                      Push(exts, Extent(ClusterOffset(g.heap, c), take)))
  {
    TrailSnoc(g, fat, start, limit, v, c);
    PiecesSnoc(g.heap, v, c, limit);
    PushAllSnoc([], Pieces(g.heap, v, limit), Extent(ClusterOffset(g.heap, c), Min(left, g.heap.unit)));
  }

  lemma {:induction false} TrailSnoc(g: Geom, fat: seq<byte>, start: nat, limit: nat, v: seq<nat>, c: nat)
    requires Trail(g, fat, start, limit, v) && After(fat, start, v) == Some(c)
    requires IsLink(c) && c !in v && Rest(limit, |v|, g.heap.unit) > 0
    ensures Trail(g, fat, start, limit, v + [c]) && Last(v + [c]) == c
  {
    var w := v + [c];
    forall i | 0 <= i < |w| - 1 ensures Follows(fat, w, i) {
      if i < |v| - 1 { assert Follows(fat, v, i); }
    }
  }

  /** `r` is the result of following the chain `v`: its coalesced ranges, or None where one of its
      entries lies outside the table. */
  ghost predicate IsWalk(g: Geom, fat: seq<byte>, start: nat, limit: nat, v: seq<nat>, r: Option<seq<Extent>>) {
    && Chain(g, fat, start, limit, v)
    && r == if Inside(fat, v) then Some(PushAll([], Pieces(g.heap, v, limit))) else None
  }

  lemma {:induction false} WalkEnd(g: Geom, fat: seq<byte>, start: nat, limit: nat, v: seq<nat>, c: nat, left: nat,
                seen: set<nat>, exts: seq<Extent>)
    requires Walking(g, fat, start, limit, v, c, left, seen, exts)
    requires !IsLink(c) || c in seen || left == 0
    ensures IsWalk(g, fat, start, limit, v, Some(exts))
  {
    InsideIff(g, fat, start, limit, v);
  }

  lemma {:induction false} WalkOutside(g: Geom, fat: seq<byte>, start: nat, limit: nat, v: seq<nat>)
    requires Trail(g, fat, start, limit, v) && After(fat, start, v).None?
    ensures IsWalk(g, fat, start, limit, v, None)
  {
    InsideIff(g, fat, start, limit, v);
  }

  /** Follows the allocation table. It stops on every table content: `seen` only grows, and every
      cluster number is below the end marks. The result is None where an entry is read outside. */
  method ChainByTable(g: Geom, fat: seq<byte>, start: nat, size: nat)
    returns (r: Option<seq<Extent>>, ghost visited: seq<nat>)
    requires g.Valid() && size <= U64_MAX
    ensures IsWalk(g, fat, start, Wanted(size), visited, r)
    ensures exists v :: IsWalk(g, fat, start, Wanted(size), v, r)
  {
    var exts: seq<Extent> := [];
    visited := [];
    ghost var limit := Wanted(size);
    var left: nat := if size == 0 then U64_MAX else size;
    var c: nat := start;
    var seen: set<nat> := {};
    ghost var links := END_MARK - 2;
    WalkStart(g, fat, start, limit);
    while c >= 2 && c < END_MARK && left > 0
      invariant Walking(g, fat, start, limit, visited, c, left, seen, exts)
      decreases Range(2, links) - seen
    {
      if c in seen {
        break;
      }
      WalkStep(g, fat, start, limit, visited, c, left, seen, exts);
      var take := Min(left, g.heap.unit);
      visited := visited + [c];
      exts := Push(exts, Extent(ClusterOffset(g.heap, c), take));
      seen := seen + {c};
      left := left - take;
      var next := FatEntry(fat, c);
      if next.None? {
        WalkOutside(g, fat, start, limit, visited);
        return None, visited;
      }
      c := next.value;
      if c >= END_MARK {
        break;
      }
    }
    WalkEnd(g, fat, start, limit, visited, c, left, seen, exts);
    r := Some(exts);
  }

  /** The walk of a file of two clusters over that twelve-byte table. */
  method WalkBadTable(g: Geom) returns (r: Option<seq<Extent>>)
    requires g.Valid()
    ensures r == None
  {
    ghost var v;
    r, v := ChainByTable(g, BAD_TABLE, 2, 2 * g.heap.unit);
    OutsideInput(g, v);
  }

  /** The one extent that covers the first min(limit, n clusters) bytes from cluster `start`. */
  function OneRun(h: Heap, start: nat, n: nat, limit: nat): seq<Extent> {
    if n == 0 || start < 2 then [] else [Extent(ClusterOffset(h, start), Min(limit, Times(n, h.unit)))]
  }

  /** Pushing the next cluster's bytes onto a run gives the longer run. */
  lemma {:induction false} RunGrows(h: Heap, start: nat, n: nat, limit: nat)
    requires start >= 2 && Rest(limit, n, h.unit) > 0
    ensures Push(OneRun(h, start, n, limit),
                 Extent(ClusterOffset(h, start + n), Min(Rest(limit, n, h.unit), h.unit))) ==
            OneRun(h, start, n + 1, limit)
  {
    RestIs(limit, n, h.unit);
    if n > 0 {
      ConsecutivePlace(h, start, n);
      ExtendOne(OneRun(h, start, n, limit)[0],
                Extent(ClusterOffset(h, start + n), Min(Rest(limit, n, h.unit), h.unit)));
    } else {
      assert Times(1, h.unit) == Times(0, h.unit) + h.unit;
    }
  }

  lemma {:induction false} ExtendOne(a: Extent, e: Extent)
    requires a.End() == e.offset
    ensures Push([a], e) == [Extent(a.offset, a.length + e.length)]
  {
  }

  /** NoFatChain mode: consecutive clusters until the size is used up or the heap ends. */
  method ChainContiguous(g: Geom, start: nat, size: nat) returns (exts: seq<Extent>, ghost n: nat)
    requires g.Valid()
    ensures var limit := if size == 0 then g.heap.unit else size;
            && exts == OneRun(g.heap, start, n, limit)
            && (n > 0 ==> 2 <= start <= start + n <= g.clusterCount + 2 && Rest(limit, n - 1, g.heap.unit) > 0)
            && (Rest(limit, n, g.heap.unit) == 0 || start < 2 || start + n >= g.clusterCount + 2)
  {
    exts, n := [], 0;
    ghost var limit := if size == 0 then g.heap.unit else size;
    var left: nat := size;
    if left == 0 {
      left := g.heap.unit;
    }
    var c: nat := start;
    while left > 0 && c >= 2 && c < g.clusterCount + 2
      invariant c == start + n && (n > 0 ==> start >= 2 && c <= g.clusterCount + 2)
      invariant n > 0 ==> Rest(limit, n - 1, g.heap.unit) > 0
      invariant left == Rest(limit, n, g.heap.unit)
      invariant exts == OneRun(g.heap, start, n, limit)
      decreases g.clusterCount + 2 - c
    {
      var e := Extent(ClusterOffset(g.heap, c), Min(left, g.heap.unit));
      RunGrows(g.heap, start, n, limit);
      exts := Push(exts, e);
      left := left - e.length;
      c := c + 1;
      n := n + 1;
    }
  }

  /** Consecutive clusters with bytes wanted at the last one merge into one extent of exactly the
      bytes taken. */
  lemma {:induction false} ConsecutiveMerge(h: Heap, start: nat, v: seq<nat>, limit: nat)
    requires start >= 2 && (v != [] ==> Rest(limit, |v| - 1, h.unit) > 0)
    requires forall i :: 0 <= i < |v| ==> v[i] == start + i
    ensures PushAll([], Pieces(h, v, limit)) == OneRun(h, start, |v|, limit)
    decreases |v|
  {
    if v != [] {
      var n, front := |v| - 1, DropLast(v);
      assert forall i :: 0 <= i < n ==> front[i] == v[i];
      if n > 0 { RestPositive(limit, n, n - 1, h.unit); }
      ConsecutiveMerge(h, start, front, limit);
      RunGrows(h, start, n, limit);
      PushAllSnoc([], Pieces(h, front, limit),
                  Extent(ClusterOffset(h, start + n), Min(Rest(limit, n, h.unit), h.unit)));
    }
  }

  lemma {:induction false} ConsecutivePlace(h: Heap, start: nat, n: nat)
    requires start >= 2
    ensures ClusterOffset(h, start + n) == ClusterOffset(h, start) + Times(n, h.unit)
  {
    if n > 0 {
      ConsecutivePlace(h, start, n - 1);
    }
  }

  /** The table maps each of the `n` clusters from `start` to the next one; what follows the last
      one does not matter. */
  ghost predicate LinkedRun(fat: seq<byte>, start: nat, n: nat) {
    forall i :: start <= i < start + n - 1 ==> FatEntry(fat, i) == Some(i + 1)
  }

  /** The chain along a linked run is the run. */
  lemma {:induction false} ChainAlongRun(g: Geom, fat: seq<byte>, start: nat, n: nat, limit: nat, v: seq<nat>)
    requires Chain(g, fat, start, limit, v) && LinkedRun(fat, start, n) && start >= 2 && n > 0
    requires start + n <= END_MARK
    requires Rest(limit, n - 1, g.heap.unit) > 0 && Rest(limit, n, g.heap.unit) == 0
    ensures |v| == n && forall i :: 0 <= i < n ==> v[i] == start + i
  {
    if |v| > n {
      RestZero(limit, n, |v| - 1, g.heap.unit);
    }
    AlongRun(g, fat, start, n, limit, v, |v|);
    if |v| < n {
      ShortRunGoesOn(g, fat, start, n, limit, v);
    }
  }

  lemma {:induction false} ShortRunGoesOn(g: Geom, fat: seq<byte>, start: nat, n: nat, limit: nat, v: seq<nat>)
    requires Trail(g, fat, start, limit, v) && LinkedRun(fat, start, n) && start >= 2 && start + n <= END_MARK
    requires |v| < n && Rest(limit, n - 1, g.heap.unit) > 0
    requires forall i :: 0 <= i < |v| ==> v[i] == start + i
    ensures !Chain(g, fat, start, limit, v)
  {
    RestPositive(limit, n - 1, |v|, g.heap.unit);
    if v != [] {
      assert FatEntry(fat, Last(v)) == Some(start + |v|);
    }
  }

  lemma {:induction false} AlongRun(g: Geom, fat: seq<byte>, start: nat, n: nat, limit: nat, v: seq<nat>, k: nat)
    requires Chain(g, fat, start, limit, v) && LinkedRun(fat, start, n) && k <= |v| && k <= n
    ensures forall i :: 0 <= i < k ==> v[i] == start + i
  {
    if k > 1 {
      AlongRun(g, fat, start, n, limit, v, k - 1);
      assert Follows(fat, v, k - 2);
      assert v[k - 2] == start + k - 2;
    }
  }

  /** The file's bytes fill `n` consecutive heap clusters, linked in the table. */
  ghost predicate ContiguousFile(g: Geom, fat: seq<byte>, start: nat, size: nat, n: nat) {
    && start >= 2 && n > 0 && start + n <= g.clusterCount + 2
    && Times(n - 1, g.heap.unit) < size <= Times(n, g.heap.unit)
    && LinkedRun(fat, start, n)
  }

  /** `chain` for a file. When the file lies on consecutive clusters, both modes give the one extent
      of exactly its bytes (section 6.4.2.2, NoFatChain Field, of the exFAT specification), unless
      the table mode reads the entry of the file's last cluster outside the table. */
  method FileChain(g: Geom, fat: seq<byte>, start: nat, size: nat, noFatChain: bool) returns (r: Option<seq<Extent>>)
    requires g.Valid() && size <= U64_MAX
    ensures forall n :: ContiguousFile(g, fat, start, size, n) ==>
              r == if noFatChain || |fat| >= 0x1_0000_0000 || !Wraps(start + n - 1)
                   then Some([Extent(ClusterOffset(g.heap, start), size)]) else None
    ensures noFatChain ==> r.Some?
    ensures noFatChain || exists v :: IsWalk(g, fat, start, Wanted(size), v, r)
  {
    if noFatChain {
      ghost var m;
      var exts;
      exts, m := ChainContiguous(g, start, size);
      r := Some(exts);
      forall n | ContiguousFile(g, fat, start, size, n)
        ensures exts == [Extent(ClusterOffset(g.heap, start), size)]
      {
        RunBudget(size, n, g.heap.unit);
        RunLength(size, n, m, g.heap.unit);
      }
    } else {
      ghost var v;
      r, v := ChainByTable(g, fat, start, size);
      forall n | ContiguousFile(g, fat, start, size, n)
        ensures r == if |fat| >= 0x1_0000_0000 || !Wraps(start + n - 1)
                     then Some([Extent(ClusterOffset(g.heap, start), size)]) else None
      {
        RunBudget(size, n, g.heap.unit);
        ChainAlongRun(g, fat, start, n, size, v);
        ConsecutiveMerge(g.heap, start, v, size);
        RunInside(g, fat, start, n, size, v);
      }
    }
  }

  /** Along a linked run only the last entry can lie outside. */
  lemma {:induction false} RunInside(g: Geom, fat: seq<byte>, start: nat, n: nat, limit: nat, v: seq<nat>)
    requires Trail(g, fat, start, limit, v) && |v| == n > 0 && v[n - 1] == start + n - 1
    ensures Inside(fat, v) <==> |fat| >= 0x1_0000_0000 || !Wraps(start + n - 1)
  {
    InsideIff(g, fat, start, limit, v);
    OutsideIff(fat, v[n - 1]);
    assert Last(v) == v[n - 1];
  }

  lemma {:induction false} RunBudget(size: nat, n: nat, unit: nat)
    requires n > 0 && Times(n - 1, unit) < size <= Times(n, unit)
    ensures Rest(size, n - 1, unit) > 0 && Rest(size, n, unit) == 0
  {
    RestIs(size, n, unit);
    RestIs(size, n - 1, unit);
  }

  lemma {:induction false} RunLength(size: nat, n: nat, m: nat, unit: nat)
    requires n > 0 && Rest(size, n - 1, unit) > 0 && Rest(size, n, unit) == 0
    requires m > 0 ==> Rest(size, m - 1, unit) > 0
    ensures m <= n
    ensures Rest(size, m, unit) == 0 ==> m == n
  {
    if m > n { RestZero(size, n, m - 1, unit); }
    if m < n { RestPositive(size, n - 1, m, unit); }
  }
}
