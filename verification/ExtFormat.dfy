/** The bytes of extent trees: what the header, the leaf entries and the index entries of a node look like on
    disk, and that the parser reads exactly what they say (src/fs/ext.cpp). */
module ExtFormat {
  import opened Arith
  import opened Extents
  import opened Clusters
  import opened ExtTree

  /** A run of blocks of a file, which may be reserved only and not written yet. */
  datatype LeafEntry = LeafEntry(logical: nat, len: nat, start: nat, uninit: bool) {
    /** What the format has: a written run is at most 2^15 blocks long, an unwritten one is one block less. */
    predicate Valid() {
      logical < 0x1_0000_0000 && 1 <= len <= (if uninit then 0x7FFF else 0x8000) && 0 < start < 0x1_0000_0000_0000
    }

    /** What the parser reads right. */
    predicate Fits() { Valid() && len < 0x8000 }

    /** What the parser takes a run for: the longest one for an unwritten run of no blocks. */
    function AsRead(): LeafEntry {
      if len == 0x8000 && !uninit then LeafEntry(logical, 0, start, true) else this
    }

    /** First logical block, length with the top bit for an unwritten run, the high sixteen bits of the first block,
        and its low thirty-two. */
    function Bytes(): (s: seq<byte>)
      ensures |s| == 12
    {
      Le(logical, 4) + Le(if uninit then 0x8000 + len else len, 2) + Le(start / 0x1_0000_0000, 2)
      + Le(start % 0x1_0000_0000, 4)
    }
  }

  /** A child of an index node. */
  datatype IndexEntry = IndexEntry(logical: nat, child: nat, unused: nat) {
    predicate Fits() { logical < 0x1_0000_0000 && child < 0x1_0000_0000_0000 }

    /** First logical block, the low thirty-two bits of the child's block, its high sixteen, and two bytes more. */
    function Bytes(): (s: seq<byte>)
      ensures |s| == 12
    {
      Le(logical, 4) + Le(child % 0x1_0000_0000, 4) + Le(child / 0x1_0000_0000, 2) + Le(unused, 2)
    }
  }

  /** Magic number, number of entries, room for entries, depth, and generation. */
  function Header(entries: nat, max: nat, depth: nat, generation: nat): (s: seq<byte>)
    ensures |s| == 12
  {
    [0x0A, 0xF3] + Le(entries, 2) + Le(max, 2) + Le(depth, 2) + Le(generation, 4)
  }

  /** Entries of twelve bytes each, one after the other. */
  function Joined(es: seq<seq<byte>>): seq<byte> {
    if es == [] then [] else Joined(DropLast(es)) + Last(es)
  }

  /** A node with these entries, whatever its other fields are and whatever follows. */
  ghost predicate IsNode(eh: seq<byte>, es: seq<seq<byte>>, depth: nat) {
    exists max, generation, rest :: eh == Header(|es|, max, depth, generation) + Joined(es) + rest
  }

  /** An extent tree as a value: runs in the leaves, and children with the blocks they are stored in. */
  datatype Extree = Leaf(runs: seq<LeafEntry>) | Index(entries: seq<IndexEntry>, children: seq<Extree>)

  /** The blocks of a file, run by run. */
  function BlocksOf(t: Extree): seq<nat> {
    match t
    case Leaf(runs) => RunBlocks(runs, |runs|)
    case Index(_, children) => ChildBlocks(children, |children|)
  }

  function RunBlocks(runs: seq<LeafEntry>, n: nat): seq<nat>
    requires n <= |runs|
  {
    if n == 0 then [] else RunBlocks(runs, n - 1) + seq(runs[n - 1].len, i => runs[n - 1].start + i)
  }

  function ChildBlocks(children: seq<Extree>, n: nat): seq<nat>
    requires n <= |children|
    decreases children, n
  {
    if n == 0 then [] else ChildBlocks(children, n - 1) + BlocksOf(children[n - 1])
  }

  function RunsBytes(runs: seq<LeafEntry>): seq<seq<byte>> {
    seq(|runs|, i requires 0 <= i < |runs| => runs[i].Bytes())
  }

  function IndexBytes(entries: seq<IndexEntry>): seq<seq<byte>> {
    seq(|entries|, i requires 0 <= i < |entries| => entries[i].Bytes())
  }

  /** The node `eh` is the root of this tree of depth d, and the volume holds the nodes below it. */
  ghost predicate Holds(img: Image, eh: seq<byte>, t: Extree, d: nat)
    decreases d
  {
    d < 0x1_0000 &&
    match t
    case Leaf(runs) =>
      && d == 0 && |runs| < 0x1_0000 && IsNode(eh, RunsBytes(runs), 0)
      && forall i :: 0 <= i < |runs| ==> runs[i].Fits() && !runs[i].uninit
    case Index(entries, children) =>
      && d > 0 && |entries| == |children| < 0x1_0000 && IsNode(eh, IndexBytes(entries), d)
      && forall i :: 0 <= i < |entries| ==>
           && entries[i].Fits() && entries[i].child in img.blocks
           && Holds(img, img.blocks[entries[i].child], children[i], d - 1)
  }

  // ---- Reading fields ----

  lemma {:induction false} Le2(v: nat)
    requires v < 0x1_0000
    ensures Le(v, 2) == [v % 256, v / 256]
  {
    assert Le(v / 256, 1) == [v / 256 % 256] + Le(v / 256 / 256, 0);
  }

  lemma {:induction false} Le4(v: nat)
    requires v < 0x1_0000_0000
    ensures Le(v, 4) == [v % 256, v / 256 % 256, v / 0x1_0000 % 256, v / 0x100_0000]
  {
    var a, b, c := v / 256, v / 0x1_0000, v / 0x100_0000;
    assert a / 256 == b && b / 256 == c;
    assert Le(c, 1) == [c % 256] + Le(c / 256, 0);
    assert Le(b, 2) == [b % 256] + Le(c, 1);
    assert Le(a, 3) == [a % 256] + Le(b, 2);
  }

  /** A field of a byte string reads the same in any longer one. */
  lemma {:induction false} ReadWithin(s: seq<byte>, at: nat, part: seq<byte>, k: nat)
    requires at + |part| <= |s| && s[at..at + |part|] == part
    ensures k + 2 <= |part| ==> R16(s, at + k) == R16(part, k)
    ensures k + 4 <= |part| ==> R32(s, at + k) == R32(part, k)
  {
    forall i | 0 <= i < |part| ensures s[at + i] == part[i] { assert s[at..at + |part|][i] == part[i]; }
  }

  lemma {:induction false} ReadBack(v: nat)
    ensures v < 0x1_0000 ==> R16(Le(v, 2), 0) == v
    ensures v < 0x1_0000_0000 ==> R32(Le(v, 4), 0) == v
  {
    if v < 0x1_0000 { Le2(v); }
    if v < 0x1_0000_0000 { Le4(v); }
  }

  lemma {:induction false} LeafFields(e: LeafEntry)
    requires e.Valid()
    ensures R16(e.Bytes(), 4) == if e.uninit then 0x8000 + e.len else e.len
    ensures R32(e.Bytes(), 8) + 0x1_0000_0000 * R16(e.Bytes(), 6) == e.start
  {
    var s, high, low := e.Bytes(), e.start / 0x1_0000_0000, e.start % 0x1_0000_0000;
    var field := if e.uninit then 0x8000 + e.len else e.len;
    assert s[4..6] == Le(field, 2) && s[6..8] == Le(high, 2) && s[8..12] == Le(low, 4);
    ReadWithin(s, 4, Le(field, 2), 0);
    ReadWithin(s, 6, Le(high, 2), 0);
    ReadWithin(s, 8, Le(low, 4), 0);
    ReadBack(field);
    ReadBack(high);
    ReadBack(low);
  }

  lemma {:induction false} IndexFields(e: IndexEntry)
    requires e.Fits()
    ensures R32(e.Bytes(), 4) + 0x1_0000_0000 * R16(e.Bytes(), 8) == e.child
  {
    var s, high, low := e.Bytes(), e.child / 0x1_0000_0000, e.child % 0x1_0000_0000;
    assert s[4..8] == Le(low, 4) && s[8..10] == Le(high, 2);
    ReadWithin(s, 4, Le(low, 4), 0);
    ReadWithin(s, 8, Le(high, 2), 0);
    ReadBack(high);
    ReadBack(low);
  }

  lemma {:induction false} JoinedAt(es: seq<seq<byte>>, i: nat)
    requires i < |es| && forall k :: 0 <= k < |es| ==> |es[k]| == 12
    ensures |Joined(es)| == 12 * |es| && Joined(es)[12 * i..12 * i + 12] == es[i]
    decreases |es|
  {
    var front := DropLast(es);
    assert forall k :: 0 <= k < |front| ==> |front[k]| == 12;
    JoinedLength(front);
    if i < |front| {
      JoinedAt(front, i);
      assert 12 * i + 12 <= 12 * |front|;
      SliceFront(Joined(front), Last(es), 12 * i, 12 * i + 12);
    } else {
      SliceBack(Joined(front), Last(es));
    }
  }

  lemma {:induction false} SliceFront<T>(a: seq<T>, b: seq<T>, lo: nat, hi: nat)
    requires lo <= hi <= |a|
    ensures (a + b)[lo..hi] == a[lo..hi]
  {
  }

  lemma {:induction false} SliceBack<T>(a: seq<T>, b: seq<T>)
    ensures (a + b)[|a|..|a| + |b|] == b
  {
  }

  lemma {:induction false} JoinedLength(es: seq<seq<byte>>)
    requires forall k :: 0 <= k < |es| ==> |es[k]| == 12
    ensures |Joined(es)| == 12 * |es|
  {
    if es != [] {
      assert forall k :: 0 <= k < |es| - 1 ==> |DropLast(es)[k]| == 12;
      JoinedLength(DropLast(es));
    }
  }

  lemma {:induction false} HeaderReads(eh: seq<byte>, es: seq<seq<byte>>, max: nat, depth: nat, generation: nat,
                                       rest: seq<byte>)
    requires eh == Header(|es|, max, depth, generation) + Joined(es) + rest && |es| < 0x1_0000 && depth < 0x1_0000
    requires forall k :: 0 <= k < |es| ==> |es[k]| == 12
    ensures Node(eh) && Entries(eh) == |es| && Depth(eh) == depth
  {
    var h := Header(|es|, max, depth, generation);
    Le2(|es|);
    Le2(depth);
    JoinedLength(es);
    assert eh[0..12] == h;
    ReadWithin(eh, 0, h, 0);
    ReadWithin(eh, 0, h, 2);
    ReadWithin(eh, 0, h, 6);
  }

  /** What the parser reads of a node: its header is sound, its depth and number of entries are those it was
      written with, and each entry is where it was written. */
  lemma {:induction false} NodeReads(eh: seq<byte>, es: seq<seq<byte>>, depth: nat, i: nat)
    requires IsNode(eh, es, depth) && |es| < 0x1_0000 && depth < 0x1_0000
    requires forall k :: 0 <= k < |es| ==> |es[k]| == 12
    ensures Node(eh) && Entries(eh) == |es| && Depth(eh) == depth
    ensures i < |es| ==> eh[12 + 12 * i..12 + 12 * i + 12] == es[i]
  {
    var max, generation, rest :| eh == Header(|es|, max, depth, generation) + Joined(es) + rest;
    HeaderReads(eh, es, max, depth, generation, rest);
    if i < |es| {
      JoinedAt(es, i);
      assert eh[12 + 12 * i..12 + 12 * i + 12] == Joined(es)[12 * i..12 * i + 12];
    }
  }

  /** A leaf reads back the runs it was written from. */
  lemma {:induction false} LeafReads(eh: seq<byte>, runs: seq<LeafEntry>, depth: nat, i: nat)
    requires IsNode(eh, RunsBytes(runs), depth) && |runs| < 0x1_0000 && depth < 0x1_0000
    requires i < |runs| && runs[i].Valid()
    ensures Node(eh) && Entries(eh) == |runs| && Depth(eh) == depth
    ensures LenField(eh, i) == (if runs[i].uninit then 0x8000 + runs[i].len else runs[i].len)
    ensures StartBlock(eh, i) == runs[i].start
  {
    NodeReads(eh, RunsBytes(runs), depth, i);
    var e := RunsBytes(runs)[i];
    LeafFields(runs[i]);
    ReadWithin(eh, 12 + 12 * i, e, 4);
    ReadWithin(eh, 12 + 12 * i, e, 6);
    ReadWithin(eh, 12 + 12 * i, e, 8);
  }

  /** A run is read right exactly when it is not the longest one, which is taken for an unwritten run of no
      blocks: 0x8000 stands for 32768 written blocks, and only larger numbers for unwritten ones. */
  lemma {:induction false} RunReads(eh: seq<byte>, runs: seq<LeafEntry>, i: nat)
    requires IsNode(eh, RunsBytes(runs), 0) && |runs| < 0x1_0000 && i < |runs| && runs[i].Valid()
    ensures Node(eh) && Entries(eh) == |runs|
    ensures RunAt(eh, i) == LeafRun(runs[i].start, runs[i].len, runs[i].uninit) <==> runs[i].len < 0x8000
    ensures var r := runs[i].AsRead(); RunAt(eh, i) == LeafRun(r.start, r.len, r.uninit)
  {
    LeafReads(eh, runs, 0, i);
  }

  /** A leaf with nothing but a run of 32768 written blocks yields no extent at all. */
  method LongestRunLost(img: Image, eh: seq<byte>, size: nat, ghost run: LeafEntry)
    returns (ok: bool, exts: seq<Extent>)
    requires img.Valid() && IsNode(eh, RunsBytes([run]), 0) && run.Valid() && run.len == 0x8000
    ensures ok && exts == []
  {
    ghost var rest;
    RunReads(eh, [run], 0);
    NothingRead(img, eh, size);
    ok, exts, rest := ParseExtents(img, eh, size, 0);
  }

  lemma {:induction false} NothingRead(img: Image, eh: seq<byte>, size: nat)
    requires Node(eh) && Entries(eh) == 1 && RunAt(eh, 0).uninit
    ensures LeafExtents(img, eh, size) == []
  {
    var runs := LeafRuns(eh);
    assert RunsTaken(img, runs, 1, size) == RunsTaken(img, runs, 0, size) + [];
  }

  /** An index node reads back the blocks of its children. */
  lemma {:induction false} IndexReads(eh: seq<byte>, entries: seq<IndexEntry>, depth: nat, i: nat)
    requires IsNode(eh, IndexBytes(entries), depth) && |entries| < 0x1_0000 && depth < 0x1_0000
    requires i < |entries| && entries[i].Fits()
    ensures Node(eh) && Entries(eh) == |entries| && Depth(eh) == depth
    ensures ChildBlock(eh, i) == entries[i].child
  {
    NodeReads(eh, IndexBytes(entries), depth, i);
    var e := IndexBytes(entries)[i];
    IndexFields(entries[i]);
    ReadWithin(eh, 12 + 12 * i, e, 4);
    ReadWithin(eh, 12 + 12 * i, e, 8);
  }

  // ---- Trees ----

  lemma {:induction false} BlockRunIs(start: nat, len: nat)
    ensures BlockRun(start, len) == seq(len, i => start + i)
  {
    if len > 0 { BlockRunIs(start, len - 1); }
  }

  /** A tree that the volume holds is one the parser can walk and finds sound. */
  lemma {:induction false} HeldIsTree(img: Image, eh: seq<byte>, t: Extree, d: nat)
    requires Holds(img, eh, t, d)
    ensures Node(eh) && Depth(eh) == d && Tree(img, eh, d) && Ranked(img, eh, d)
    decreases d
  {
    match t
    case Leaf(runs) =>
      NodeReads(eh, RunsBytes(runs), 0, 0);
      forall i | 0 <= i < Entries(eh) ensures SoundBelow(img, eh, d, i) { LeafReads(eh, runs, 0, i); }
    case Index(entries, children) =>
      NodeReads(eh, IndexBytes(entries), d, 0);
      forall i | 0 <= i < Entries(eh)
        ensures SoundBelow(img, eh, d, i)
        ensures ChildBlock(eh, i) in img.blocks ==> Ranked(img, img.blocks[ChildBlock(eh, i)], d - 1)
      {
        IndexReads(eh, entries, d, i);
        HeldIsTree(img, img.blocks[entries[i].child], children[i], d - 1);
      }
  }

  /** The flat scan of its leaves gives exactly the blocks of the file. */
  lemma {:induction false} HeldBlocks(img: Image, eh: seq<byte>, t: Extree, d: nat)
    requires Holds(img, eh, t, d)
    ensures Tree(img, eh, d) && LeafBlocks(img, eh, d, Entries(eh)) == BlocksOf(t)
    decreases d, 1
  {
    HeldIsTree(img, eh, t, d);
    match t
    case Leaf(runs) =>
      NodeReads(eh, RunsBytes(runs), 0, 0);
      forall i | 0 <= i < |runs| ensures EntryBlocks(img, eh, d, i) == seq(runs[i].len, k => runs[i].start + k) {
        LeafReads(eh, runs, d, i);
        BlockRunIs(runs[i].start, runs[i].len);
      }
      LeafPart(img, eh, runs, d, |runs|);
    case Index(entries, children) =>
      NodeReads(eh, IndexBytes(entries), d, 0);
      forall i | 0 <= i < |children| ensures EntryBlocks(img, eh, d, i) == BlocksOf(children[i]) {
        ChildPart(img, eh, entries, children, d, i);
      }
      IndexPart(img, eh, children, d, |children|);
  }

  lemma {:induction false} LeafPart(img: Image, eh: seq<byte>, runs: seq<LeafEntry>, d: nat, n: nat)
    requires Tree(img, eh, d) && Entries(eh) == |runs| && n <= |runs|
    requires forall i :: 0 <= i < |runs| ==> EntryBlocks(img, eh, d, i) == seq(runs[i].len, k => runs[i].start + k)
    ensures LeafBlocks(img, eh, d, n) == RunBlocks(runs, n)
  {
    if n > 0 {
      LeafPart(img, eh, runs, d, n - 1);
    }
  }

  lemma {:induction false} IndexPart(img: Image, eh: seq<byte>, children: seq<Extree>, d: nat, n: nat)
    requires Tree(img, eh, d) && Entries(eh) == |children| && n <= |children|
    requires forall i :: 0 <= i < |children| ==> EntryBlocks(img, eh, d, i) == BlocksOf(children[i])
    ensures LeafBlocks(img, eh, d, n) == ChildBlocks(children, n)
  {
    if n > 0 {
      IndexPart(img, eh, children, d, n - 1);
    }
  }

  lemma {:induction false} ChildPart(img: Image, eh: seq<byte>, entries: seq<IndexEntry>, children: seq<Extree>, d: nat,
                                     i: nat)
    requires Holds(img, eh, Index(entries, children), d) && i < |children|
    requires Tree(img, eh, d) && Entries(eh) == |entries|
    ensures EntryBlocks(img, eh, d, i) == BlocksOf(children[i])
    decreases d, 0, 0
  {
    IndexReads(eh, entries, d, i);
    HeldBlocks(img, img.blocks[entries[i].child], children[i], d - 1);
  }

  // ---- Bytes ----

  function OneBlock(base: nat, blockSize: nat, block: nat): (s: seq<nat>)
    ensures |s| == blockSize
  {
    seq(blockSize, i => base + block * blockSize + i)
  }

  /** The bytes of a list of blocks, block by block. */
  function BlockBytes(base: nat, blockSize: nat, blocks: seq<nat>): seq<nat> {
    if blocks == [] then [] else OneBlock(base, blockSize, blocks[0]) + BlockBytes(base, blockSize, blocks[1..])
  }

  lemma {:induction false} BlockBytesLength(base: nat, blockSize: nat, blocks: seq<nat>)
    ensures |BlockBytes(base, blockSize, blocks)| == Times(|blocks|, blockSize)
  {
    if blocks != [] { BlockBytesLength(base, blockSize, blocks[1..]); }
  }

  /** Every block has a 64-bit address. */
  ghost predicate InReach(img: Image, blocks: seq<nat>) {
    forall i :: 0 <= i < |blocks| ==> img.base + blocks[i] * img.blockSize <= U64_MAX
  }

  /** Taking `left` bytes of a list of blocks takes the first ones of their bytes. */
  lemma {:induction false} TakeBytes(img: Image, blocks: seq<nat>, left: nat)
    requires InReach(img, blocks)
    ensures var all := BlockBytes(img.base, img.blockSize, blocks);
            Bytes(Take(img, blocks, left)) == all[..Min(left, |all|)]
    decreases |blocks|
  {
    BlockBytesLength(img.base, img.blockSize, blocks);
    if blocks != [] && left > 0 {
      var used := Min(left, img.blockSize);
      var e := Extent(BlkOff(img, blocks[0]), used);
      var more := Take(img, blocks[1..], left - used);
      assert InReach(img, blocks[1..]) by {
        assert forall i :: 0 <= i < |blocks| - 1 ==> blocks[1..][i] == blocks[i + 1];
      }
      TakeBytes(img, blocks[1..], left - used);
      BytesCons(e, more);
      FirstBlock(img, blocks[0], used);
      PrefixJoin(OneBlock(img.base, img.blockSize, blocks[0]), BlockBytes(img.base, img.blockSize, blocks[1..]), left);
    }
  }

  lemma {:induction false} BytesCons(e: Extent, more: seq<Extent>)
    ensures Bytes([e] + more) == Run(e) + Bytes(more)
  {
    BytesAppend([e], more);
    assert DropLast([e]) == [] && Bytes([e]) == Run(e);
  }

  lemma {:induction false} FirstBlock(img: Image, block: nat, used: nat)
    requires used <= img.blockSize && img.base + block * img.blockSize <= U64_MAX
    ensures Run(Extent(BlkOff(img, block), used)) == OneBlock(img.base, img.blockSize, block)[..used]
  {
    TimesIs(block, img.blockSize);
    WrapSmall(img.base + block * img.blockSize);
  }

  lemma {:induction false} PrefixJoin(a: seq<nat>, b: seq<nat>, n: nat)
    ensures (a + b)[..Min(n, |a| + |b|)] == a[..Min(n, |a|)] + b[..Min(n - Min(n, |a|), |b|)]
  {
  }

  /** The bytes that a run of a leaf takes of `left` bytes: a written run takes the first bytes of its blocks, and
      an unwritten one none. */
  function RunTakes(base: nat, blockSize: nat, r: LeafEntry, left: nat): seq<nat> {
    var all := BlockBytes(base, blockSize, seq(r.len, i => r.start + i));
    if r.uninit then [] else all[..Min(left, |all|)]
  }

  /** The bytes that the first n runs take of `size` bytes, and how many are left; every run counts with its length. */
  function RunsTake(base: nat, blockSize: nat, runs: seq<LeafEntry>, n: nat, size: nat): seq<nat>
    requires n <= |runs|
  {
    if n == 0 then []
    else
      RunsTake(base, blockSize, runs, n - 1, size) +
      RunTakes(base, blockSize, runs[n - 1], RunsLeft(blockSize, runs, n - 1, size))
  }

  function RunsLeft(blockSize: nat, runs: seq<LeafEntry>, n: nat, size: nat): nat
    requires n <= |runs|
  {
    if n == 0 then size
    else
      var left := RunsLeft(blockSize, runs, n - 1, size);
      left - Min(left, runs[n - 1].len * blockSize)
  }

  /** The blocks of a run have 64-bit addresses. */
  ghost predicate InPlace(img: Image, r: LeafEntry) {
    r.start > 0 && img.base + (r.start + r.len) * img.blockSize <= U64_MAX
  }

  /** The parser takes of the i-th run what the run takes of the bytes that are left. */
  ghost predicate TakenAt(img: Image, runs: seq<LeafEntry>, read: seq<LeafRun>, i: nat, size: nat)
    requires i < |runs| == |read|
  {
    var left := ExtTree.RunsLeft(img, read, i, size);
    Bytes(RunRanges(img, read[i], left)) == RunTakes(img.base, img.blockSize, runs[i], left)
  }

  /** A leaf is read as its runs say. */
  lemma {:induction false} LeafBytes(img: Image, runs: seq<LeafEntry>, read: seq<LeafRun>, n: nat, size: nat)
    requires n <= |runs| == |read| && forall i :: 0 <= i < |runs| ==> TakenAt(img, runs, read, i, size)
    requires forall i :: 0 <= i < |runs| ==> runs[i].len == read[i].len
    ensures Bytes(RunsTaken(img, read, n, size)) == RunsTake(img.base, img.blockSize, runs, n, size)
  {
    if n > 0 {
      LeafBytes(img, runs, read, n - 1, size);
      LeafLeft(img, runs, read, n - 1, size);
      RunAppends(img, read, n, size);
      assert TakenAt(img, runs, read, n - 1, size);
    }
  }

  lemma {:induction false} RunAppends(img: Image, read: seq<LeafRun>, n: nat, size: nat)
    requires 0 < n <= |read|
    ensures Bytes(RunsTaken(img, read, n, size)) ==
            Bytes(RunsTaken(img, read, n - 1, size))
            + Bytes(RunRanges(img, read[n - 1], ExtTree.RunsLeft(img, read, n - 1, size)))
  {
    BytesAppend(RunsTaken(img, read, n - 1, size),
                RunRanges(img, read[n - 1], ExtTree.RunsLeft(img, read, n - 1, size)));
  }

  lemma {:induction false} LeafLeft(img: Image, runs: seq<LeafEntry>, read: seq<LeafRun>, n: nat, size: nat)
    requires n <= |runs| == |read| && forall i :: 0 <= i < |runs| ==> runs[i].len == read[i].len
    ensures ExtTree.RunsLeft(img, read, n, size) == RunsLeft(img.blockSize, runs, n, size)
  {
    if n > 0 {
      LeafLeft(img, runs, read, n - 1, size);
      TimesIs(runs[n - 1].len, img.blockSize);
    }
  }

  lemma {:induction false} RunTaken(img: Image, r: LeafEntry, left: nat)
    requires img.blockSize > 0 && InPlace(img, r)
    ensures Bytes(RunRanges(img, LeafRun(r.start, r.len, r.uninit), left)) == RunTakes(img.base, img.blockSize, r, left)
  {
    var blocks := seq(r.len, i => r.start + i);
    EntryIsTake(img, r.start, r.len, left);
    BlockRunIs(r.start, r.len);
    forall i | 0 <= i < |blocks| ensures img.base + blocks[i] * img.blockSize <= U64_MAX {
      LeMul(blocks[i], r.start + r.len, img.blockSize);
    }
    TakeBytes(img, blocks, left);
    RestIs(left, r.len, img.blockSize);
    TimesIs(r.len, img.blockSize);
  }

  function RunsRead(runs: seq<LeafEntry>): (rs: seq<LeafEntry>)
    ensures |rs| == |runs| && forall i :: 0 <= i < |runs| ==> rs[i] == runs[i].AsRead()
  {
    seq(|runs|, i requires 0 <= i < |runs| => runs[i].AsRead())
  }

  ghost predicate AllReach(img: Image, runs: seq<LeafEntry>) {
    forall i :: 0 <= i < |runs| ==>
      runs[i].Valid() && InPlace(img, runs[i])
  }

  lemma {:induction false} HeldLeaf(img: Image, eh: seq<byte>, runs: seq<LeafEntry>, size: nat)
    requires IsNode(eh, RunsBytes(runs), 0) && |runs| < 0x1_0000 && img.blockSize > 0 && AllReach(img, runs)
    requires Node(eh) && Entries(eh) == |runs|
    ensures Coalesced(LeafExtents(img, eh, size))
    ensures Bytes(LeafExtents(img, eh, size)) == RunsTake(img.base, img.blockSize, RunsRead(runs), |runs|, size)
  {
    var read, seen := LeafRuns(eh), RunsRead(runs);
    forall i | 0 <= i < |runs| ensures seen[i].len == read[i].len && TakenAt(img, seen, read, i, size) {
      RunReads(eh, runs, i);
      LeMul(seen[i].start + seen[i].len, runs[i].start + runs[i].len, img.blockSize);
      RunTaken(img, seen[i], ExtTree.RunsLeft(img, read, i, size));
    }
    LeafBytes(img, seen, read, |runs|, size);
    var taken := RunsTaken(img, read, |runs|, size);
    PushAllBytes([], taken);
    assert Bytes([]) + Bytes(taken) == Bytes(taken);
  }

  /** Parsing a leaf, whatever runs it has: the bytes are those of the written runs as they are read, as far as the
      size reaches. */
  method ParseHeldLeaf(img: Image, eh: seq<byte>, size: nat, ghost runs: seq<LeafEntry>)
    returns (ok: bool, exts: seq<Extent>)
    requires img.Valid() && IsNode(eh, RunsBytes(runs), 0) && |runs| < 0x1_0000 && AllReach(img, runs)
    ensures ok && Coalesced(exts)
    ensures Bytes(exts) == RunsTake(img.base, img.blockSize, RunsRead(runs), |runs|, size)
    ensures (forall i :: 0 <= i < |runs| ==> runs[i].len < 0x8000) ==> RunsRead(runs) == runs
  {
    NodeReads(eh, RunsBytes(runs), 0, 0);
    HeldLeaf(img, eh, runs, size);
    ghost var rest;
    ok, exts, rest := ParseExtents(img, eh, size, 0);
  }

  /** Parsing a tree that the volume holds always succeeds, and gives the first bytes of the file's blocks, up to
      the size, as extents that cannot be merged further. */
  method ParseHeld(img: Image, eh: seq<byte>, size: nat, ghost t: Extree, ghost d: nat)
    returns (ok: bool, exts: seq<Extent>)
    requires img.Valid() && Holds(img, eh, t, d)
    ensures ok && Coalesced(exts)
    ensures InReach(img, BlocksOf(t)) ==>
              var all := BlockBytes(img.base, img.blockSize, BlocksOf(t)); Bytes(exts) == all[..Min(size, |all|)]
  {
    HeldIsTree(img, eh, t, d);
    ghost var rest;
    ok, exts, rest := ParseExtents(img, eh, size, d);
    HeldScan(img, eh, t, d, size, exts, rest);
  }

  lemma {:induction false} HeldScan(img: Image, eh: seq<byte>, t: Extree, d: nat, size: nat, exts: seq<Extent>,
                                    rest: nat)
    requires img.Valid() && Holds(img, eh, t, d) && Tree(img, eh, d)
    requires NodeScanned(img, eh, d, Entries(eh), size, exts, rest)
    ensures Coalesced(exts)
    ensures InReach(img, BlocksOf(t)) ==>
              var all := BlockBytes(img.base, img.blockSize, BlocksOf(t)); Bytes(exts) == all[..Min(size, |all|)]
  {
    HeldBlocks(img, eh, t, d);
    ParsedIsFlatScan(img, eh, d, size, exts, rest);
    if InReach(img, BlocksOf(t)) {
      TakeBytes(img, BlocksOf(t), size);
      PushAllBytes([], Take(img, BlocksOf(t), size));
    }
  }
}
