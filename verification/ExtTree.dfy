/** ext2/3/4 block maps: extent trees and indirect blocks (src/fs/ext.cpp). */
module ExtTree {
  import opened Clusters
  import opened Extents
  import opened Options

  /** The readable blocks of a volume; reading any other block fails. */
  datatype Image = Image(base: nat, blockSize: nat, blocks: map<nat, seq<byte>>) {
    ghost predicate Valid() {
      blockSize >= 1024 && forall b :: b in blocks ==> |blocks[b]| == blockSize
    }
  }

  /** A block's address as the source computes it. */
  function BlkOff(img: Image, block: nat): nat { Wrap(img.base + Times(block, img.blockSize)) }

  /** It is the true one exactly for blocks that start below 2^64. */
  lemma {:induction false} BlkOffIff(img: Image, block: nat)
    ensures BlkOff(img, block) == img.base + Times(block, img.blockSize) <==>
            img.base + Times(block, img.blockSize) <= U64_MAX
  {
  }

  /** A leaf entry can name blocks beyond: with 64 KiB blocks, block 2^48 gets the address of block 0. */
  lemma {:induction false} BlkOffWraps(blocks: map<nat, seq<byte>>, block: nat)
    requires block == 0x1_0000_0000_0000
    ensures BlkOff(Image(0, 0x1_0000, blocks), block) == 0
  {
    TimesIs(block, 0x1_0000);
  }

  /** Adds `bytes` bytes of a block; block 0 is a hole. */
  function AppendBlock(img: Image, exts: seq<Extent>, block: nat, bytes: nat): seq<Extent> {
    if block == 0 || bytes == 0 then exts else Push(exts, Extent(BlkOff(img, block), bytes))
  }

  /** Blocks in logical order, one block's bytes each, until `left` bytes are taken. */
  function Take(img: Image, blocks: seq<nat>, left: nat): seq<Extent> {
    if blocks == [] || left == 0 then []
    else
      [Extent(BlkOff(img, blocks[0]), Min(left, img.blockSize))]
      + Take(img, blocks[1..], left - Min(left, img.blockSize))
  }

  lemma {:induction false} TotalCons(e: Extent, es: seq<Extent>)
    ensures Total([e] + es) == e.length + Total(es)
  {
    BytesAppend([e], es);
    assert Total([e]) == e.length by { assert DropLast([e]) == []; }
  }

  /** Taking from a list and then from its continuation is taking from the concatenation. */
  lemma {:induction false} TakeAppend(img: Image, a: seq<nat>, b: seq<nat>, left: nat)
    ensures Take(img, a + b, left) == Take(img, a, left) + Take(img, b, Rest(left, |a|, img.blockSize))
    decreases |a|
  {
    if left == 0 {
      TakeNothing(img, b, |a|);
    } else if a == [] {
      assert a + b == b;
    } else {
      var rest := left - Min(left, img.blockSize);
      TakeAppend(img, a[1..], b, rest);
      assert (a + b)[1..] == a[1..] + b;
      RestFirst(left, |a|, img.blockSize);
      Associates([Extent(BlkOff(img, a[0]), Min(left, img.blockSize))], Take(img, a[1..], rest),
                 Take(img, b, Rest(rest, |a| - 1, img.blockSize)));
    }
  }

  lemma {:induction false} TakeTotal(img: Image, a: seq<nat>, left: nat)
    ensures Total(Take(img, a, left)) + Rest(left, |a|, img.blockSize) == left
    decreases |a|
  {
    if left == 0 {
      TakeNothing(img, a, |a|);
    } else if a != [] {
      var used := Min(left, img.blockSize);
      RestFirst(left, |a|, img.blockSize);
      TakeTotal(img, a[1..], left - used);
      TotalCons(Extent(BlkOff(img, a[0]), used), Take(img, a[1..], left - used));
    }
  }

  lemma {:induction false} TakeNothing(img: Image, b: seq<nat>, n: nat)
    ensures Rest(0, n, img.blockSize) == 0 && Take(img, b, 0) == []
  {
    if n > 0 { TakeNothing(img, b, n - 1); }
  }

  lemma {:induction false} TakeSnoc(img: Image, a: seq<nat>, block: nat, left: nat)
    requires Rest(left, |a|, img.blockSize) > 0
    ensures Take(img, a + [block], left) ==
            Take(img, a, left) + [Extent(BlkOff(img, block), Min(Rest(left, |a|, img.blockSize), img.blockSize))]
    ensures Rest(left, |a| + 1, img.blockSize) ==
            Rest(left, |a|, img.blockSize) - Min(Rest(left, |a|, img.blockSize), img.blockSize)
  {
    var rest := Rest(left, |a|, img.blockSize);
    TakeAppend(img, a, [block], left);
    TakeAppend(img, a + [block], [], left);
    assert [block][1..] == [];
    assert Take(img, [block], rest) == [Extent(BlkOff(img, block), Min(rest, img.blockSize))];
    assert |a + [block]| == |a| + 1;
  }

  // ---- Extent trees ----

  const MAGIC := 0xF30A

  function Entries(eh: seq<byte>): nat
    requires |eh| >= 12
  {
    R16(eh, 2)
  }

  function Depth(eh: seq<byte>): nat
    requires |eh| >= 12
  {
    R16(eh, 6)
  }

  /** A node whose header is sound and whose entries lie inside its buffer. */
  predicate Node(eh: seq<byte>) {
    |eh| >= 12 && R16(eh, 0) == MAGIC && 12 + 12 * Entries(eh) <= |eh|
  }

  function LenField(eh: seq<byte>, i: nat): nat
    requires Node(eh) && i < Entries(eh)
  {
    R16(eh, 12 + 12 * i + 4)
  }

  function StartBlock(eh: seq<byte>, i: nat): nat
    requires Node(eh) && i < Entries(eh)
  {
    R32(eh, 12 + 12 * i + 8) + 0x1_0000_0000 * R16(eh, 12 + 12 * i + 6)
  }

  function ChildBlock(eh: seq<byte>, i: nat): nat
    requires Node(eh) && i < Entries(eh)
  {
    R32(eh, 12 + 12 * i + 4) + 0x1_0000_0000 * R16(eh, 12 + 12 * i + 8)
  }

  /** No path of readable index nodes is longer than `rank`, so the walk cannot run forever. Nodes may
      still be unreadable, carry a bad magic number, or name any depth. */
  ghost predicate Ranked(img: Image, eh: seq<byte>, rank: nat)
    decreases rank
  {
    |eh| >= 12 &&
    (R16(eh, 0) == MAGIC ==>
       && Node(eh)
       && (Depth(eh) > 0 ==>
             rank > 0 && forall i :: 0 <= i < Entries(eh) && ChildBlock(eh, i) in img.blocks ==>
               Ranked(img, img.blocks[ChildBlock(eh, i)], rank - 1)))
  }

  /** A leaf entry that is initialised, not empty and not at block 0. */
  predicate SoundEntry(eh: seq<byte>, i: nat)
    requires Node(eh) && i < Entries(eh)
  {
    1 <= LenField(eh, i) <= 0x7FFF && StartBlock(eh, i) > 0
  }

  /** A readable tree of depth d whose leaf entries are all sound. */
  ghost predicate Tree(img: Image, eh: seq<byte>, d: nat)
    decreases d, 1
  {
    Node(eh) && Depth(eh) == d && forall i :: 0 <= i < Entries(eh) ==> SoundBelow(img, eh, d, i)
  }

  ghost predicate SoundBelow(img: Image, eh: seq<byte>, d: nat, i: nat)
    requires Node(eh) && i < Entries(eh)
    decreases d, 0
  {
    if d == 0 then SoundEntry(eh, i)
    else ChildBlock(eh, i) in img.blocks && Tree(img, img.blocks[ChildBlock(eh, i)], d - 1)
  }

  /** `len` blocks from `start`. */
  function BlockRun(start: nat, len: nat): (r: seq<nat>)
    ensures |r| == len
  {
    if len == 0 then [] else BlockRun(start, len - 1) + [start + (len - 1)]
  }

  /** The blocks of the first n entries of the tree, in order: a flat scan of its leaf entries. */
  ghost function LeafBlocks(img: Image, eh: seq<byte>, d: nat, n: nat): seq<nat>
    requires Tree(img, eh, d) && n <= Entries(eh)
    decreases d, 1, n
  {
    if n == 0 then [] else LeafBlocks(img, eh, d, n - 1) + EntryBlocks(img, eh, d, n - 1)
  }

  ghost function EntryBlocks(img: Image, eh: seq<byte>, d: nat, i: nat): seq<nat>
    requires Tree(img, eh, d) && i < Entries(eh)
    decreases d, 0
  {
    assert SoundBelow(img, eh, d, i);
    if d == 0 then BlockRun(StartBlock(eh, i), LenField(eh, i))
    else
      var child := img.blocks[ChildBlock(eh, i)];
      assert Tree(img, child, d - 1) && Node(child);
      LeafBlocks(img, child, d - 1, Entries(child))
  }

  /** `exts` is the flat scan of `blocks` up to `size` bytes, with `left` bytes still wanted. */
  ghost predicate Scanned(img: Image, blocks: seq<nat>, size: nat, exts: seq<Extent>, left: nat) {
    exts == PushAll([], Take(img, blocks, size)) && left == Rest(size, |blocks|, img.blockSize)
  }

  lemma {:induction false} ScanNone(img: Image, size: nat)
    ensures Scanned(img, [], size, [], size)
  {
  }

  /** Once nothing is left, further blocks add nothing. */
  lemma {:induction false} ScanRest(img: Image, a: seq<nat>, c: seq<nat>, size: nat, exts: seq<Extent>)
    requires Scanned(img, a, size, exts, 0) && a <= c
    ensures Scanned(img, c, size, exts, 0)
  {
    var b := c[|a|..];
    assert c == a + b;
    TakeAppend(img, a, b, size);
    TakeNothing(img, b, 0);
    assert Take(img, a, size) + [] == Take(img, a, size);
    RestZero(size, |a|, |c|, img.blockSize);
  }

  /** Merging the scan of a part, done for the bytes still wanted, continues the scan. */
  lemma {:induction false} ScanPart(img: Image, a: seq<nat>, b: seq<nat>, size: nat, exts: seq<Extent>, left: nat,
                                    part: seq<Extent>, rest: nat)
    requires Scanned(img, a, size, exts, left) && Scanned(img, b, left, part, rest)
    ensures Scanned(img, a + b, size, PushAll(exts, part), rest)
  {
    var x, y := Take(img, a, size), Take(img, b, left);
    assert PushAll(exts, part) == PushAll([], x + y) by {
      PushAllMerged(exts, y);
      PushAllAppend([], x, y);
    }
    TakeAppend(img, a, b, size);
    RestAdd(size, |a|, |b|, img.blockSize);
  }

  lemma {:induction false} ScanTotal(img: Image, blocks: seq<nat>, size: nat, exts: seq<Extent>, left: nat)
    requires Scanned(img, blocks, size, exts, left)
    ensures Total(exts) + left == size
  {
    TakeTotal(img, blocks, size);
    PushAllBytes([], Take(img, blocks, size));
  }

  /** Progress of a node: after i entries the scan has reached `left`; once it is 0 the rest of the
      node adds nothing. */
  ghost predicate NodeScanned(img: Image, eh: seq<byte>, d: nat, i: nat, size: nat, exts: seq<Extent>, left: nat) {
    Tree(img, eh, d) ==> i <= Entries(eh) && Scanned(img, LeafBlocks(img, eh, d, i), size, exts, left)
  }

  lemma {:induction false} NodeStart(img: Image, eh: seq<byte>, d: nat, size: nat)
    ensures NodeScanned(img, eh, d, 0, size, [], size)
  {
    if Tree(img, eh, d) {
      ScanNone(img, size);
      assert LeafBlocks(img, eh, d, 0) == [];
    }
  }

  lemma {:induction false} NodeEnd(img: Image, eh: seq<byte>, d: nat, i: nat, size: nat, exts: seq<Extent>, left: nat)
    requires NodeScanned(img, eh, d, i, size, exts, left) && Node(eh) && i <= Entries(eh)
    requires i < Entries(eh) ==> left == 0
    ensures NodeScanned(img, eh, d, Entries(eh), size, exts, left)
  {
    if Tree(img, eh, d) && i < Entries(eh) {
      LeafTail(img, eh, d, i, Entries(eh));
      ScanRest(img, LeafBlocks(img, eh, d, i), LeafBlocks(img, eh, d, Entries(eh)), size, exts);
    }
  }

  lemma {:induction false} LeafTail(img: Image, eh: seq<byte>, d: nat, i: nat, n: nat)
    requires Tree(img, eh, d) && i <= n <= Entries(eh)
    ensures LeafBlocks(img, eh, d, i) <= LeafBlocks(img, eh, d, n)
    decreases n
  {
    if i < n { LeafTail(img, eh, d, i, n - 1); }
  }

  /** The ranges of the first b blocks of an entry while bytes are left; block 0 is a hole. */
  function EntryTaken(img: Image, start: nat, b: nat, left: nat): seq<Extent> {
    if b == 0 then []
    else
      var more := Rest(left, b - 1, img.blockSize);
      EntryTaken(img, start, b - 1, left) +
      if more == 0 || start + (b - 1) == 0 then []
      else [Extent(BlkOff(img, start + (b - 1)), Min(more, img.blockSize))]
  }

  /** A leaf entry: a run of blocks, which may be uninitialised. */
  datatype LeafRun = LeafRun(start: nat, len: nat, uninit: bool)

  function RunAt(eh: seq<byte>, i: nat): LeafRun
    requires Node(eh) && i < Entries(eh)
  {
    var field := LenField(eh, i);
    LeafRun(StartBlock(eh, i), if field >= 0x8000 then field - 0x8000 else field, field >= 0x8000)
  }

  function LeafRuns(eh: seq<byte>): seq<LeafRun>
    requires Node(eh)
  {
    seq(Entries(eh), i requires 0 <= i < Entries(eh) => RunAt(eh, i))
  }

  /** The ranges of a run, and the bytes that are left after it. An uninitialised one has no range and counts its
      bytes. */
  function RunRanges(img: Image, r: LeafRun, left: nat): seq<Extent> {
    if r.uninit then [] else EntryTaken(img, r.start, r.len, left)
  }

  function RunLeft(img: Image, r: LeafRun, left: nat): nat {
    left - Min(Times(r.len, img.blockSize), left)
  }

  /** The same for the first n runs of a leaf. */
  function RunsTaken(img: Image, runs: seq<LeafRun>, n: nat, size: nat): seq<Extent>
    requires n <= |runs|
  {
    if n == 0 then []
    else RunsTaken(img, runs, n - 1, size) + RunRanges(img, runs[n - 1], RunsLeft(img, runs, n - 1, size))
  }

  function RunsLeft(img: Image, runs: seq<LeafRun>, n: nat, size: nat): nat
    requires n <= |runs|
  {
    if n == 0 then size else RunLeft(img, runs[n - 1], RunsLeft(img, runs, n - 1, size))
  }

  lemma {:induction false} EntryOver(img: Image, start: nat, b: nat, len: nat, left: nat)
    requires b <= len && Rest(left, b, img.blockSize) == 0
    ensures EntryTaken(img, start, len, left) == EntryTaken(img, start, b, left)
    ensures Rest(left, len, img.blockSize) == 0
  {
    RestZero(left, b, len, img.blockSize);
    if b < len {
      EntryOver(img, start, b, len - 1, left);
    }
  }

  lemma {:induction false} RunNothing(img: Image, r: LeafRun)
    ensures RunRanges(img, r, 0) == [] && RunLeft(img, r, 0) == 0
  {
    EntryOver(img, r.start, 0, r.len, 0);
  }

  /** Once nothing is left the other entries have no range. */
  lemma {:induction false} RunsOver(img: Image, runs: seq<LeafRun>, i: nat, n: nat, size: nat)
    requires i <= n <= |runs| && RunsLeft(img, runs, i, size) == 0
    ensures RunsTaken(img, runs, n, size) == RunsTaken(img, runs, i, size) && RunsLeft(img, runs, n, size) == 0
  {
    if i < n {
      RunsOver(img, runs, i, n - 1, size);
      RunNothing(img, runs[n - 1]);
      var taken := RunsTaken(img, runs, i, size);
      assert taken + [] == taken;
    }
  }

  /** The first b blocks of an entry have been appended. */
  ghost predicate EntryReached(img: Image, exts0: seq<Extent>, start: nat, b: nat, left0: nat, exts: seq<Extent>,
                               left: nat)
  {
    exts == PushAll(exts0, EntryTaken(img, start, b, left0)) && left == Rest(left0, b, img.blockSize)
  }

  /** Appends the blocks of one initialised entry while bytes are left. */
  method ParseEntry(img: Image, exts0: seq<Extent>, start: nat, len: nat, left0: nat)
    returns (exts: seq<Extent>, left: nat)
    requires img.Valid()
    ensures EntryReached(img, exts0, start, len, left0, exts, left)
  {
    exts, left := exts0, left0;
    var b := 0;
    while b < len && left > 0
      invariant b <= len && EntryReached(img, exts0, start, b, left0, exts, left)
    {
      var take := Min(left, img.blockSize);
      OneTaken(img, exts0, start, b, left0, exts, left);
      exts := AppendBlock(img, exts, start + b, take);
      left := left - take;
      b := b + 1;
    }
    if left == 0 { EntryOver(img, start, b, len, left0); }
  }

  lemma {:induction false} OneTaken(img: Image, exts0: seq<Extent>, start: nat, b: nat, left0: nat, exts: seq<Extent>,
                                    left: nat)
    requires img.blockSize > 0 && left > 0 && EntryReached(img, exts0, start, b, left0, exts, left)
    ensures EntryReached(img, exts0, start, b + 1, left0, AppendBlock(img, exts, start + b, Min(left, img.blockSize)),
                         left - Min(left, img.blockSize))
  {
    var taken := EntryTaken(img, start, b, left0);
    if start + b == 0 {
      assert taken + [] == taken;
    } else {
      PushAllSnoc(exts0, taken, Extent(BlkOff(img, start + b), Min(left, img.blockSize)));
    }
  }

  /** An entry never takes more than is left. */
  lemma {:induction false} EntryTotal(img: Image, start: nat, b: nat, left: nat)
    ensures Total(EntryTaken(img, start, b, left)) + Rest(left, b, img.blockSize) <= left
  {
    if b > 0 {
      EntryTotal(img, start, b - 1, left);
      var taken, more := EntryTaken(img, start, b - 1, left), Rest(left, b - 1, img.blockSize);
      if more == 0 || start + (b - 1) == 0 {
        assert taken + [] == taken;
      } else {
        assert DropLast(EntryTaken(img, start, b, left)) == taken;
      }
    }
  }

  lemma {:induction false} RunTotal(img: Image, r: LeafRun, left: nat)
    ensures Total(RunRanges(img, r, left)) + RunLeft(img, r, left) <= left
  {
    EntryTotal(img, r.start, r.len, left);
    RestIs(left, r.len, img.blockSize);
  }

  lemma {:induction false} RunsTotal(img: Image, runs: seq<LeafRun>, n: nat, size: nat)
    requires n <= |runs|
    ensures Total(RunsTaken(img, runs, n, size)) + RunsLeft(img, runs, n, size) <= size
  {
    if n > 0 {
      var r, left := runs[n - 1], RunsLeft(img, runs, n - 1, size);
      RunsTotal(img, runs, n - 1, size);
      RunTotal(img, r, left);
      BytesAppend(RunsTaken(img, runs, n - 1, size), RunRanges(img, r, left));
    }
  }

  /** On a sound leaf all that is the flat scan of its blocks. */
  lemma {:induction false} EntryIsTake(img: Image, start: nat, len: nat, left: nat)
    requires start > 0 && img.blockSize > 0
    ensures EntryTaken(img, start, len, left) == Take(img, BlockRun(start, len), left)
  {
    if len > 0 {
      EntryIsTake(img, start, len - 1, left);
      var run, x := BlockRun(start, len - 1), start + (len - 1);
      if Rest(left, len - 1, img.blockSize) > 0 {
        TakeSnoc(img, run, x, left);
      } else {
        TakeAppend(img, run, [x], left);
        assert Take(img, run, left) + [] == Take(img, run, left);
      }
    }
  }

  function RunsBlocks(runs: seq<LeafRun>, n: nat): seq<nat>
    requires n <= |runs|
  {
    if n == 0 then [] else RunsBlocks(runs, n - 1) + BlockRun(runs[n - 1].start, runs[n - 1].len)
  }

  predicate Plain(r: LeafRun) { !r.uninit && r.start > 0 }

  lemma {:induction false} RunsAreScan(img: Image, runs: seq<LeafRun>, n: nat, size: nat)
    requires n <= |runs| && img.blockSize > 0 && forall i :: 0 <= i < |runs| ==> Plain(runs[i])
    ensures RunsTaken(img, runs, n, size) == Take(img, RunsBlocks(runs, n), size)
  {
    if n > 0 {
      RunsAreScan(img, runs, n - 1, size);
      RunsLeftIs(img, runs, n - 1, size);
      var a, r, left := RunsBlocks(runs, n - 1), runs[n - 1], RunsLeft(img, runs, n - 1, size);
      EntryIsTake(img, r.start, r.len, left);
      TakeAppend(img, a, BlockRun(r.start, r.len), size);
    }
  }

  lemma {:induction false} RunsLeftIs(img: Image, runs: seq<LeafRun>, n: nat, size: nat)
    requires n <= |runs|
    ensures RunsLeft(img, runs, n, size) == Rest(size, |RunsBlocks(runs, n)|, img.blockSize)
  {
    if n > 0 {
      RunsLeftIs(img, runs, n - 1, size);
      RestIs(RunsLeft(img, runs, n - 1, size), runs[n - 1].len, img.blockSize);
      RestAdd(size, |RunsBlocks(runs, n - 1)|, runs[n - 1].len, img.blockSize);
    }
  }

  lemma {:induction false} LeafBlocksAre(img: Image, eh: seq<byte>, runs: seq<LeafRun>, n: nat)
    requires Tree(img, eh, 0) && runs == LeafRuns(eh) && n <= |runs|
    ensures LeafBlocks(img, eh, 0, n) == RunsBlocks(runs, n)
  {
    if n > 0 {
      LeafBlocksAre(img, eh, runs, n - 1);
      assert SoundBelow(img, eh, 0, n - 1);
    }
  }

  lemma {:induction false} LeafIsScan(img: Image, eh: seq<byte>, runs: seq<LeafRun>, size: nat)
    requires Tree(img, eh, 0) && runs == LeafRuns(eh) && img.blockSize > 0
    ensures Scanned(img, LeafBlocks(img, eh, 0, |runs|), size, PushAll([], RunsTaken(img, runs, |runs|, size)),
                    RunsLeft(img, runs, |runs|, size))
  {
    forall i | 0 <= i < |runs| ensures Plain(runs[i]) { assert SoundBelow(img, eh, 0, i); }
    RunsAreScan(img, runs, |runs|, size);
    RunsLeftIs(img, runs, |runs|, size);
    LeafBlocksAre(img, eh, runs, |runs|);
  }

  /** All that a leaf gives. */
  function LeafExtents(img: Image, eh: seq<byte>, size: nat): seq<Extent>
    requires Node(eh)
  {
    PushAll([], RunsTaken(img, LeafRuns(eh), Entries(eh), size))
  }

  /** The first i runs of a leaf have been read. */
  ghost predicate RunsReached(img: Image, runs: seq<LeafRun>, i: nat, size: nat, exts: seq<Extent>, left: nat)
    requires i <= |runs|
  {
    exts == PushAll([], RunsTaken(img, runs, i, size)) && left == RunsLeft(img, runs, i, size)
  }

  lemma {:induction false} RunsNext(img: Image, runs: seq<LeafRun>, i: nat, size: nat, exts: seq<Extent>, left: nat)
    requires i < |runs| && RunsReached(img, runs, i, size, exts, left)
    ensures RunsReached(img, runs, i + 1, size, PushAll(exts, RunRanges(img, runs[i], left)),
                        RunLeft(img, runs[i], left))
  {
    PushAllAppend([], RunsTaken(img, runs, i, size), RunRanges(img, runs[i], left));
  }

  /** The low fifteen bits of a sixteen-bit field. */
  lemma {:induction false} LowBits(field: nat)
    requires field < 0x1_0000
    ensures field % 0x8000 == if field >= 0x8000 then field - 0x8000 else field
  {
  }

  /** Handles one leaf entry. Uninitialised entries count their bytes but add none. */
  method ParseLeafEntry(img: Image, eh: seq<byte>, i: nat, exts0: seq<Extent>, left0: nat)
    returns (exts: seq<Extent>, left: nat)
    requires img.Valid() && Node(eh) && i < Entries(eh)
    ensures exts == PushAll(exts0, RunRanges(img, RunAt(eh, i), left0)) && left == RunLeft(img, RunAt(eh, i), left0)
  {
    exts, left := exts0, left0;
    var field := LenField(eh, i);
    LowBits(field);
    var uninit, len := field >= 0x8000, field % 0x8000;
    if uninit {
      left := left - Min(Times(len, img.blockSize), left);
      return;
    }
    exts, left := ParseEntry(img, exts, StartBlock(eh, i), len, left);
    RestIs(left0, len, img.blockSize);
  }

  /** Reads the entries of a leaf node while bytes are left. */
  method ParseLeaf(img: Image, eh: seq<byte>, size: nat) returns (exts: seq<Extent>, ghost rest: nat)
    requires img.Valid() && Node(eh)
    ensures exts == LeafExtents(img, eh, size) && Total(exts) <= size
    ensures Tree(img, eh, 0) ==> Scanned(img, LeafBlocks(img, eh, 0, Entries(eh)), size, exts, rest)
  {
    exts := [];
    var left: nat := size;
    var i := 0;
    ghost var runs := LeafRuns(eh);
    while i < Entries(eh) && left > 0
      invariant i <= Entries(eh) && RunsReached(img, runs, i, size, exts, left)
      decreases Entries(eh) - i
    {
      RunsNext(img, runs, i, size, exts, left);
      exts, left := ParseLeafEntry(img, eh, i, exts, left);
      i := i + 1;
    }
    if left == 0 { RunsOver(img, runs, i, Entries(eh), size); }
    rest := left;
    RunsTotal(img, runs, Entries(eh), size);
    PushAllBytes([], RunsTaken(img, runs, Entries(eh), size));
    if Tree(img, eh, 0) { LeafIsScan(img, eh, runs, size); }
  }

  /** What parsing a node gives, in a sound tree or not: nothing where a node that is come to cannot be read or has
      another magic number. */
  ghost function Parsed(img: Image, eh: seq<byte>, size: nat, rank: nat): Option<seq<Extent>>
    requires Ranked(img, eh, rank)
    decreases rank, 1, 0
  {
    if R16(eh, 0) != MAGIC then None
    else if Depth(eh) == 0 then Some(LeafExtents(img, eh, size))
    else ParsedFirst(img, eh, Entries(eh), size, rank)
  }

  /** What its first n children give; no child is read once the size is used up. */
  ghost function ParsedFirst(img: Image, eh: seq<byte>, n: nat, size: nat, rank: nat): Option<seq<Extent>>
    requires Ranked(img, eh, rank) && Node(eh) && Depth(eh) > 0 && n <= Entries(eh)
    decreases rank, 0, n
  {
    if n == 0 then Some([])
    else
      match ParsedFirst(img, eh, n - 1, size, rank)
      case None => None
      case Some(exts) =>
        if Total(exts) >= size then Some(exts)
        else if ChildBlock(eh, n - 1) !in img.blocks then None
        else Joined(exts, Parsed(img, img.blocks[ChildBlock(eh, n - 1)], size - Total(exts), rank - 1))
  }

  function Joined(exts: seq<Extent>, part: Option<seq<Extent>>): Option<seq<Extent>> {
    if part.None? then None else Some(PushAll(exts, part.value))
  }

  lemma {:induction false} ParsedOver(img: Image, eh: seq<byte>, i: nat, n: nat, size: nat, rank: nat,
                                      exts: seq<Extent>)
    requires Ranked(img, eh, rank) && Node(eh) && Depth(eh) > 0 && i <= n <= Entries(eh)
    requires ParsedFirst(img, eh, i, size, rank) == Some(exts) && (i < n ==> Total(exts) >= size)
    ensures ParsedFirst(img, eh, n, size, rank) == Some(exts)
    decreases n
  {
    if i < n { ParsedOver(img, eh, i, n - 1, size, rank, exts); }
  }

  lemma {:induction false} ParsedFails(img: Image, eh: seq<byte>, i: nat, n: nat, size: nat, rank: nat)
    requires Ranked(img, eh, rank) && Node(eh) && Depth(eh) > 0 && i <= n <= Entries(eh)
    requires ParsedFirst(img, eh, i, size, rank) == None
    ensures ParsedFirst(img, eh, n, size, rank) == None
    decreases n
  {
    if i < n { ParsedFails(img, eh, i, n - 1, size, rank); }
  }

  /** Parses an extent tree node: leaves directly, index nodes by parsing each child for the bytes
      still missing and merging its extents. On a sound tree of any depth the result is the flat
      scan of the leaf entries. */
  method ParseExtents(img: Image, eh: seq<byte>, size: nat, ghost rank: nat)
    returns (ok: bool, exts: seq<Extent>, ghost rest: nat)
    requires img.Valid() && Ranked(img, eh, rank)
    ensures Tree(img, eh, Depth(eh)) ==> ok
    ensures ok ==> Node(eh) && NodeScanned(img, eh, Depth(eh), Entries(eh), size, exts, rest)
    ensures ok ==> Total(exts) <= size
    ensures ok <==> Parsed(img, eh, size, rank).Some?
    ensures ok ==> Parsed(img, eh, size, rank) == Some(exts)
    ensures Node(eh) && Depth(eh) == 0 ==> ok && exts == LeafExtents(img, eh, size)
    decreases rank, 1
  {
    ghost var d := Depth(eh);
    exts, rest := [], size;
    if R16(eh, 0) != MAGIC {
      return false, exts, rest;
    }
    if Depth(eh) == 0 {
      exts, rest := ParseLeaf(img, eh, size);
      return true, exts, rest;
    }
    var left: nat := size;
    var i := 0;
    NodeStart(img, eh, d, size);
    while i < Entries(eh) && left > 0
      invariant i <= Entries(eh)
      invariant NodeScanned(img, eh, d, i, size, exts, left) && Total(exts) <= size
      invariant ParsedFirst(img, eh, i, size, rank) == Some(exts) && left == Missing(size, Total(exts))
      decreases Entries(eh) - i
    {
      var good, exts', left' := ParseChild(img, eh, i, size, exts, left, rank);
      if !good {
        ParsedFails(img, eh, i + 1, Entries(eh), size, rank);
        return false, exts, rest;
      }
      exts, left := exts', left';
      i := i + 1;
    }
    NodeEnd(img, eh, d, i, size, exts, left);
    ParsedOver(img, eh, i, Entries(eh), size, rank, exts);
    rest := left;
    return true, exts, rest;
  }

  /** Parses the i-th child of an index node and merges its extents. */
  method ParseChild(img: Image, eh: seq<byte>, i: nat, size: nat, exts0: seq<Extent>, ghost left0: nat, ghost rank: nat)
    returns (ok: bool, exts: seq<Extent>, left: nat)
    requires img.Valid() && Ranked(img, eh, rank) && Node(eh) && Depth(eh) > 0 && i < Entries(eh)
    requires NodeScanned(img, eh, Depth(eh), i, size, exts0, left0) && Total(exts0) < size
    requires ParsedFirst(img, eh, i, size, rank) == Some(exts0)
    ensures Tree(img, eh, Depth(eh)) ==> ok
    ensures ok ==> NodeScanned(img, eh, Depth(eh), i + 1, size, exts, left) && Total(exts) <= size
    ensures ok ==> ParsedFirst(img, eh, i + 1, size, rank) == Some(exts)
    ensures !ok ==> ParsedFirst(img, eh, i + 1, size, rank) == None
    ensures ok ==> left == Missing(size, Total(exts))
    decreases rank, 0
  {
    ghost var d := Depth(eh);
    exts, left := exts0, 0;
    var leaf := ChildBlock(eh, i);
    ChildOf(img, eh, i, rank);
    if leaf !in img.blocks {
      ParsedStuck(img, eh, i, size, rank, exts0);
      return false, exts, left;
    }
    var before := Sum(exts);
    var child, want := img.blocks[leaf], size - before;
    ghost var given := Parsed(img, child, want, rank - 1);
    ParsedNext(img, eh, i, size, rank, exts0, child, given);
    var part;
    ghost var rest;
    ok, part, rest := ParseExtents(img, child, want, rank - 1);
    if !ok {
      return;
    }
    MergeChild(img, eh, d, i, size, exts, left0, child, want, part, rest);
    exts := Merge(exts, part);
    var used := Sum(exts);
    left := Missing(size, used);
  }

  lemma {:induction false} ParsedStuck(img: Image, eh: seq<byte>, i: nat, size: nat, rank: nat, exts: seq<Extent>)
    requires Ranked(img, eh, rank) && Node(eh) && Depth(eh) > 0 && i < Entries(eh)
    requires ParsedFirst(img, eh, i, size, rank) == Some(exts) && Total(exts) < size && ChildBlock(eh, i) !in img.blocks
    ensures ParsedFirst(img, eh, i + 1, size, rank) == None
  {
  }

  lemma {:induction false} ParsedNext(img: Image, eh: seq<byte>, i: nat, size: nat, rank: nat, exts: seq<Extent>,
                                      child: seq<byte>, given: Option<seq<Extent>>)
    requires Ranked(img, eh, rank) && Node(eh) && Depth(eh) > 0 && i < Entries(eh)
    requires ParsedFirst(img, eh, i, size, rank) == Some(exts) && Total(exts) < size
    requires ChildBlock(eh, i) in img.blocks && child == img.blocks[ChildBlock(eh, i)]
    requires rank > 0 && Ranked(img, child, rank - 1) && given == Parsed(img, child, size - Total(exts), rank - 1)
    ensures ParsedFirst(img, eh, i + 1, size, rank) == Joined(exts, given)
  {
  }

  /** A child has a smaller rank, and in a sound tree it is there and sound. */
  lemma {:induction false} ChildOf(img: Image, eh: seq<byte>, i: nat, rank: nat)
    requires Ranked(img, eh, rank) && Node(eh) && Depth(eh) > 0 && i < Entries(eh)
    ensures ChildBlock(eh, i) in img.blocks ==> rank > 0 && Ranked(img, img.blocks[ChildBlock(eh, i)], rank - 1)
    ensures Tree(img, eh, Depth(eh)) ==>
              ChildBlock(eh, i) in img.blocks &&
              var child := img.blocks[ChildBlock(eh, i)]; Node(child) && Tree(img, child, Depth(child))
  {
    var d := Depth(eh);
    if Tree(img, eh, d) {
      assert SoundBelow(img, eh, d, i);
      assert Tree(img, img.blocks[ChildBlock(eh, i)], d - 1);
    }
  }

  function Missing(size: nat, used: nat): nat { if size > used then size - used else 0 }

  /** Merging one parsed child continues the scan of its parent. */
  lemma {:induction false} MergeChild(img: Image, eh: seq<byte>, d: nat, i: nat, size: nat, exts: seq<Extent>,
                                      left: nat, child: seq<byte>, want: nat, part: seq<Extent>, rest: nat)
    requires Node(eh) && i < Entries(eh) && d > 0 && ChildBlock(eh, i) in img.blocks
    requires NodeScanned(img, eh, d, i, size, exts, left) && Total(exts) <= size && want == size - Total(exts)
    requires child == img.blocks[ChildBlock(eh, i)] && Total(part) <= want
    requires Node(child) && NodeScanned(img, child, Depth(child), Entries(child), want, part, rest)
    ensures NodeScanned(img, eh, d, i + 1, size, PushAll(exts, part), Missing(size, Total(PushAll(exts, part))))
    ensures Total(PushAll(exts, part)) <= size
  {
    PushAllBytes(exts, part);
    if Tree(img, eh, d) {
      assert SoundBelow(img, eh, d, i);
      var b := LeafBlocks(img, child, d - 1, Entries(child));
      MergeSoundChild(img, LeafBlocks(img, eh, d, i), b, size, exts, left, want, part, rest);
      assert LeafBlocks(img, eh, d, i + 1) == LeafBlocks(img, eh, d, i) + b;
    }
  }

  lemma {:induction false} MergeSoundChild(img: Image, a: seq<nat>, b: seq<nat>, size: nat, exts: seq<Extent>,
                                           left: nat, want: nat, part: seq<Extent>, rest: nat)
    requires Scanned(img, a, size, exts, left) && Total(exts) <= size && want == size - Total(exts)
    requires Scanned(img, b, want, part, rest)
    ensures Scanned(img, a + b, size, PushAll(exts, part), rest)
    ensures rest == Missing(size, Total(PushAll(exts, part)))
  {
    ScanTotal(img, a, size, exts, left);
    assert left == want;
    var all, merged := a + b, PushAll(exts, part);
    ScanPart(img, a, b, size, exts, want, part, rest);
    ScanTotal(img, all, size, merged, rest);
  }

  /** What `Tree` and the result of the parse amount to: one coalesced flat scan of the leaves, worth
      the smaller of the size and the blocks present. */
  lemma {:induction false} ParsedIsFlatScan(img: Image, eh: seq<byte>, d: nat, size: nat, exts: seq<Extent>, rest: nat)
    requires Tree(img, eh, d) && NodeScanned(img, eh, d, Entries(eh), size, exts, rest)
    ensures exts == PushAll([], Take(img, LeafBlocks(img, eh, d, Entries(eh)), size))
    ensures Coalesced(exts)
    ensures Total(exts) == Min(size, Times(|LeafBlocks(img, eh, d, Entries(eh))|, img.blockSize))
  {
    var blocks := LeafBlocks(img, eh, d, Entries(eh));
    PushAllBytes([], Take(img, blocks, size));
    TakeTotal(img, blocks, size);
    RestIs(size, |blocks|, img.blockSize);
  }

  /** Total length of a list of extents. */
  method Sum(es: seq<Extent>) returns (n: nat)
    ensures n == Total(es)
  {
    n := 0;
    for k := 0 to |es|
      invariant n == Total(es[..k])
    {
      assert DropLast(es[..k + 1]) == es[..k];
      n := n + es[k].length;
    }
    assert es[..|es|] == es;
  }

  /** Appends a parsed part extent by extent, merging where they touch. */
  method Merge(exts0: seq<Extent>, part: seq<Extent>) returns (exts: seq<Extent>)
    ensures exts == PushAll(exts0, part)
  {
    exts := exts0;
    for k := 0 to |part|
      invariant exts == PushAll(exts0, part[..k])
    {
      assert DropLast(part[..k + 1]) == part[..k];
      exts := Push(exts, part[k]);
    }
    assert part[..|part|] == part;
  }

  // ---- Indirect blocks ----

  /** One range the indirect walk emits: file data, or an indirect block itself. */
  datatype Piece = Data(block: nat, bytes: nat) | Meta(block: nat)

  function PieceExtent(img: Image, p: Piece): Extent {
    match p
    case Data(block, bytes) => Extent(BlkOff(img, block), bytes)
    case Meta(block) => Extent(BlkOff(img, block), img.blockSize)
  }

  function PieceExtents(img: Image, ps: seq<Piece>): seq<Extent> {
    if ps == [] then [] else PieceExtents(img, DropLast(ps)) + [PieceExtent(img, Last(ps))]
  }

  /** The data ranges among the pieces, in order. */
  function DataOf(img: Image, ps: seq<Piece>): seq<Extent> {
    if ps == [] then []
    else DataOf(img, DropLast(ps)) + if Last(ps).Data? then [PieceExtent(img, Last(ps))] else []
  }

  lemma {:induction false} PiecesAppend(img: Image, a: seq<Piece>, b: seq<Piece>)
    ensures PieceExtents(img, a + b) == PieceExtents(img, a) + PieceExtents(img, b)
    ensures DataOf(img, a + b) == DataOf(img, a) + DataOf(img, b)
  {
    if b == [] {
      assert a + b == a;
    } else {
      PiecesAppend(img, a, DropLast(b));
      assert DropLast(a + b) == a + DropLast(b) && Last(a + b) == Last(b);
    }
  }

  function Pointers(img: Image): nat { img.blockSize / 4 }

  /** The data blocks below `block`, in logical order, zero pointers left out. A block that cannot be
      read stands for none; the walk fails if it has to look inside one. */
  function DataBlocks(img: Image, block: nat, level: nat): seq<nat>
    decreases level, 1, 0
  {
    if block == 0 then []
    else if level == 0 then [block]
    else if block in img.blocks && |img.blocks[block]| == img.blockSize then
      TableBlocks(img, img.blocks[block], level - 1, Pointers(img))
    else []
  }

  /** The data blocks below the first n pointers of an indirect block. */
  function TableBlocks(img: Image, table: seq<byte>, level: nat, n: nat): seq<nat>
    requires n <= Pointers(img) && |table| == img.blockSize
    decreases level, 2, n
  {
    if n == 0 then []
    else TableBlocks(img, table, level, n - 1) + DataBlocks(img, R32(table, 4 * (n - 1)), level)
  }

  /** What there is below a pointer. */
  datatype Met = Leaf(block: nat) | Table(block: nat) | Unreadable(block: nat)

  /** All of it, each table before what it points to. */
  function Preorder(img: Image, block: nat, level: nat): seq<Met>
    decreases level, 1, 0
  {
    if block == 0 then []
    else if level == 0 then [Leaf(block)]
    else if block in img.blocks && |img.blocks[block]| == img.blockSize then
      [Table(block)] + TablePreorder(img, PointersOf(img, img.blocks[block]), level - 1, Pointers(img))
    else [Unreadable(block)]
  }

  /** What there is below the first n of some pointers. */
  function TablePreorder(img: Image, ptrs: seq<nat>, level: nat, n: nat): seq<Met>
    requires n <= |ptrs|
    decreases level, 2, n
  {
    if n == 0 then [] else TablePreorder(img, ptrs, level, n - 1) + Preorder(img, ptrs[n - 1], level)
  }

  /** What an indirect block points to. */
  function PointersOf(img: Image, table: seq<byte>): (s: seq<nat>)
    requires |table| == img.blockSize
    ensures |s| == Pointers(img)
  {
    seq(Pointers(img), i requires 0 <= i < Pointers(img) => R32(table, 4 * i))
  }

  /** The extents after a walk and the bytes still wanted. */
  datatype WalkEnd = WalkEnd(exts: seq<Extent>, left: nat)

  /** What the walk does with one thing that it meets: nothing once no bytes are wanted. */
  function StepOf(img: Image, m: Met, e: WalkEnd): Option<WalkEnd> {
    if e.left == 0 then Some(e)
    else
      match m
      case Leaf(block) =>
        var bytes := Min(e.left, img.blockSize);
        Some(WalkEnd(Push(e.exts, Extent(BlkOff(img, block), bytes)), e.left - bytes))
      case Table(block) => Some(WalkEnd(Push(e.exts, Extent(BlkOff(img, block), img.blockSize)), e.left))
      case Unreadable(_) => None
  }

  function WalkOf(img: Image, ms: seq<Met>, e: WalkEnd): Option<WalkEnd> {
    if ms == [] then Some(e)
    else
      var r := WalkOf(img, DropLast(ms), e);
      if r.None? then None else StepOf(img, Last(ms), r.value)
  }

  /** Two walks in a row. */
  lemma {:induction false} WalkThen(img: Image, a: seq<Met>, b: seq<Met>, e: WalkEnd)
    ensures WalkOf(img, a + b, e) ==
            if WalkOf(img, a, e).None? then None else WalkOf(img, b, WalkOf(img, a, e).value)
  {
    if b == [] {
      assert a + b == a;
    } else {
      WalkThen(img, a, DropLast(b), e);
      assert DropLast(a + b) == a + DropLast(b) && Last(a + b) == Last(b);
    }
  }

  lemma {:induction false} WalkNothing(img: Image, ms: seq<Met>, e: WalkEnd)
    requires ms == [] || e.left == 0
    ensures WalkOf(img, ms, e) == Some(e)
  {
    if ms != [] { WalkNothing(img, DropLast(ms), e); }
  }

  lemma {:induction false} WalkOne(img: Image, m: Met, e: WalkEnd)
    ensures WalkOf(img, [m], e) == StepOf(img, m, e)
  {
    assert DropLast([m]) == [];
  }

  /** A walk that failed, or that needs nothing more, is the one over any longer list. */
  lemma {:induction false} WalkOn(img: Image, a: seq<Met>, c: seq<Met>, e: WalkEnd)
    requires a <= c
    requires a == c || WalkOf(img, a, e).None? || WalkOf(img, a, e).value.left == 0
    ensures WalkOf(img, c, e) == WalkOf(img, a, e)
  {
    var b := c[|a|..];
    assert c == a + b;
    WalkThen(img, a, b, e);
    if a != c && WalkOf(img, a, e).Some? { WalkNothing(img, b, WalkOf(img, a, e).value); }
  }

  lemma {:induction false} PreorderTail(img: Image, ptrs: seq<nat>, level: nat, i: nat, n: nat)
    requires i <= n <= |ptrs|
    ensures TablePreorder(img, ptrs, level, i) <= TablePreorder(img, ptrs, level, n)
    decreases n
  {
    if i < n { PreorderTail(img, ptrs, level, i, n - 1); }
  }

  /** Collects the data below a block: level 0 is data, higher levels are tables of pointers, which
      are themselves rewritten too. It lists exactly what comes first in pre-order, until the size is used up, and
      fails exactly when it comes to a block that cannot be read before that. */
  method CollectIndirect(img: Image, block: nat, level: nat, e: WalkEnd) returns (r: Option<WalkEnd>)
    requires img.Valid()
    ensures r == WalkOf(img, Preorder(img, block, level), e)
    decreases level, 0
  {
    if block == 0 || e.left == 0 {
      WalkNothing(img, Preorder(img, block, level), e);
      r := Some(e);
    } else if level == 0 {
      var take := Min(e.left, img.blockSize);
      WalkLeaf(img, block, level, e);
      r := Some(WalkEnd(AppendBlock(img, e.exts, block, take), e.left - take));
    } else if block !in img.blocks {
      WalkUnreadable(img, block, level, e);
      r := None;
    } else {
      WalkTable(img, block, level, e);
      r := CollectTable(img, img.blocks[block], level - 1,
                        WalkEnd(AppendBlock(img, e.exts, block, img.blockSize), e.left));
    }
  }

  lemma {:induction false} WalkLeaf(img: Image, block: nat, level: nat, e: WalkEnd)
    requires block > 0 && e.left > 0 && img.blockSize > 0 && level == 0
    ensures var take := Min(e.left, img.blockSize);
            WalkOf(img, Preorder(img, block, level), e) ==
            Some(WalkEnd(AppendBlock(img, e.exts, block, take), e.left - take))
  {
    WalkOne(img, Leaf(block), e);
  }

  lemma {:induction false} WalkUnreadable(img: Image, block: nat, level: nat, e: WalkEnd)
    requires block > 0 && e.left > 0 && level > 0 && block !in img.blocks
    ensures WalkOf(img, Preorder(img, block, level), e) == None
  {
    WalkOne(img, Unreadable(block), e);
  }

  lemma {:induction false} WalkTable(img: Image, block: nat, level: nat, e: WalkEnd)
    requires block > 0 && e.left > 0 && level > 0 && img.blockSize > 0
    requires block in img.blocks && |img.blocks[block]| == img.blockSize
    ensures WalkOf(img, Preorder(img, block, level), e) ==
            WalkOf(img, TablePreorder(img, PointersOf(img, img.blocks[block]), level - 1, Pointers(img)),
                   WalkEnd(AppendBlock(img, e.exts, block, img.blockSize), e.left))
  {
    WalkOne(img, Table(block), e);
    WalkThen(img, [Table(block)], TablePreorder(img, PointersOf(img, img.blocks[block]), level - 1, Pointers(img)), e);
  }

  /** Goes through the pointers of an indirect block while bytes are wanted. */
  method CollectTable(img: Image, table: seq<byte>, level: nat, e0: WalkEnd) returns (r: Option<WalkEnd>)
    requires img.Valid() && |table| == img.blockSize
    ensures r == WalkOf(img, TablePreorder(img, PointersOf(img, table), level, Pointers(img)), e0)
    decreases level, 1
  {
    ghost var ptrs := PointersOf(img, table);
    var e, n := e0, Pointers(img);
    var i := 0;
    while i < n && e.left > 0
      invariant i <= n && WalkOf(img, TablePreorder(img, ptrs, level, i), e0) == Some(e)
      decreases n - i
    {
      TableStep(img, ptrs, level, i, e0, e);
      r := CollectIndirect(img, R32(table, 4 * i), level, e);
      if r.None? {
        TableOver(img, ptrs, level, i + 1, n, e0);
        return None;
      }
      e := r.value;
      i := i + 1;
    }
    TableOver(img, ptrs, level, i, n, e0);
    return Some(e);
  }

  lemma {:induction false} TableStep(img: Image, ptrs: seq<nat>, level: nat, i: nat, e0: WalkEnd, e: WalkEnd)
    requires i < |ptrs| && WalkOf(img, TablePreorder(img, ptrs, level, i), e0) == Some(e)
    ensures WalkOf(img, TablePreorder(img, ptrs, level, i + 1), e0) == WalkOf(img, Preorder(img, ptrs[i], level), e)
  {
    WalkThen(img, TablePreorder(img, ptrs, level, i), Preorder(img, ptrs[i], level), e0);
  }

  lemma {:induction false} TableOver(img: Image, ptrs: seq<nat>, level: nat, i: nat, n: nat, e0: WalkEnd)
    requires i <= n <= |ptrs|
    requires var r := WalkOf(img, TablePreorder(img, ptrs, level, i), e0); i == n || r.None? || r.value.left == 0
    ensures WalkOf(img, TablePreorder(img, ptrs, level, n), e0) == WalkOf(img, TablePreorder(img, ptrs, level, i), e0)
  {
    PreorderTail(img, ptrs, level, i, n);
    WalkOn(img, TablePreorder(img, ptrs, level, i), TablePreorder(img, ptrs, level, n), e0);
  }

  /** The indirection level of an inode's i-th block pointer. */
  function PointerLevel(i: nat): nat { if i < 12 then 0 else i - 11 }

  /** All data blocks of the first n of an inode's fifteen pointers, in logical order. */
  function InodeBlocks(img: Image, ptrs: seq<nat>, n: nat): seq<nat>
    requires n <= |ptrs|
  {
    if n == 0 then [] else InodeBlocks(img, ptrs, n - 1) + DataBlocks(img, ptrs[n - 1], PointerLevel(n - 1))
  }

  function InodePreorder(img: Image, ptrs: seq<nat>, n: nat): seq<Met>
    requires n <= |ptrs|
  {
    if n == 0 then [] else InodePreorder(img, ptrs, n - 1) + Preorder(img, ptrs[n - 1], PointerLevel(n - 1))
  }

  lemma {:induction false} InodePreorderTail(img: Image, ptrs: seq<nat>, i: nat, n: nat)
    requires i <= n <= |ptrs|
    ensures InodePreorder(img, ptrs, i) <= InodePreorder(img, ptrs, n)
    decreases n
  {
    if i < n { InodePreorderTail(img, ptrs, i, n - 1); }
  }

  /** Bytes wanted from an indirect map; a directory of unknown size asks for its direct blocks. */
  function WantedBytes(img: Image, isDir: bool, size: nat): nat {
    if isDir && size == 0 then 12 * img.blockSize else size
  }

  /** The extents of an inode without an extent tree: twelve direct pointers, then the single, double
      and triple indirect ones, each only while bytes are wanted. */
  method IndirectExtents(img: Image, isDir: bool, size: nat, ptrs: seq<nat>) returns (r: Option<WalkEnd>)
    requires img.Valid() && |ptrs| == 15
    ensures r == WalkOf(img, InodePreorder(img, ptrs, |ptrs|), WalkEnd([], WantedBytes(img, isDir, size)))
  {
    var want: nat := size;
    if isDir && size == 0 {
      want := img.blockSize * 12;
    }
    r := CollectPointers(img, ptrs, WalkEnd([], want));
  }

  /** Goes through an inode's pointers while bytes are wanted. */
  method CollectPointers(img: Image, ptrs: seq<nat>, e0: WalkEnd) returns (r: Option<WalkEnd>)
    requires img.Valid()
    ensures r == WalkOf(img, InodePreorder(img, ptrs, |ptrs|), e0)
  {
    var e := e0;
    var i := 0;
    while i < |ptrs| && e.left > 0
      invariant i <= |ptrs| && WalkOf(img, InodePreorder(img, ptrs, i), e0) == Some(e)
    {
      InodeStep(img, ptrs, i, e0, e);
      r := CollectIndirect(img, ptrs[i], PointerLevel(i), e);
      if r.None? {
        InodeOver(img, ptrs, i + 1, e0);
        return None;
      }
      e := r.value;
      i := i + 1;
    }
    InodeOver(img, ptrs, i, e0);
    return Some(e);
  }

  lemma {:induction false} InodeStep(img: Image, ptrs: seq<nat>, i: nat, e0: WalkEnd, e: WalkEnd)
    requires i < |ptrs| && WalkOf(img, InodePreorder(img, ptrs, i), e0) == Some(e)
    ensures WalkOf(img, InodePreorder(img, ptrs, i + 1), e0) == WalkOf(img, Preorder(img, ptrs[i], PointerLevel(i)), e)
  {
    WalkThen(img, InodePreorder(img, ptrs, i), Preorder(img, ptrs[i], PointerLevel(i)), e0);
  }

  lemma {:induction false} InodeOver(img: Image, ptrs: seq<nat>, i: nat, e0: WalkEnd)
    requires i <= |ptrs|
    requires var r := WalkOf(img, InodePreorder(img, ptrs, i), e0); i == |ptrs| || r.None? || r.value.left == 0
    ensures WalkOf(img, InodePreorder(img, ptrs, |ptrs|), e0) == WalkOf(img, InodePreorder(img, ptrs, i), e0)
  {
    InodePreorderTail(img, ptrs, i, |ptrs|);
    WalkOn(img, InodePreorder(img, ptrs, i), InodePreorder(img, ptrs, |ptrs|), e0);
  }

  // ---- What such a walk amounts to ----

  /** The bytes still wanted after going through a list; only data blocks use them up. */
  function LeftAfter(img: Image, ms: seq<Met>, left: nat): nat {
    if ms == [] then left
    else
      var before := LeftAfter(img, DropLast(ms), left);
      if Last(ms).Leaf? then before - Min(before, img.blockSize) else before
  }

  /** The pieces that are listed while bytes are wanted. */
  function Cut(img: Image, ms: seq<Met>, left: nat): seq<Piece> {
    if ms == [] then [] else Cut(img, DropLast(ms), left) + OnePiece(img, Last(ms), LeftAfter(img, DropLast(ms), left))
  }

  function OnePiece(img: Image, m: Met, left: nat): seq<Piece> {
    if left == 0 || m.Unreadable? then []
    else if m.Leaf? then [Data(m.block, Min(left, img.blockSize))]
    else [Meta(m.block)]
  }

  /** A block that cannot be read is come to while bytes are wanted. */
  predicate Stuck(img: Image, ms: seq<Met>, left: nat) {
    ms != [] &&
    (Stuck(img, DropLast(ms), left) || (Last(ms).Unreadable? && LeftAfter(img, DropLast(ms), left) > 0))
  }

  /** How a walk ends that lists these pieces. */
  function Ending(img: Image, exts: seq<Extent>, stuck: bool, ps: seq<Piece>, left: nat): Option<WalkEnd> {
    if stuck then None else Some(WalkEnd(PushAll(exts, PieceExtents(img, ps)), left))
  }

  function CutEnd(img: Image, ms: seq<Met>, e: WalkEnd): Option<WalkEnd> {
    Ending(img, e.exts, Stuck(img, ms, e.left), Cut(img, ms, e.left), LeftAfter(img, ms, e.left))
  }

  /** The walk fails exactly when it comes to a block that cannot be read, and lists exactly these pieces. */
  lemma {:induction false} WalkIsCut(img: Image, ms: seq<Met>, e: WalkEnd)
    ensures WalkOf(img, ms, e) == CutEnd(img, ms, e)
  {
    if ms != [] {
      var front, m := DropLast(ms), Last(ms);
      WalkIsCut(img, front, e);
      SplitLast(ms);
      CutStep(img, front, m, e.left);
      if CutEnd(img, front, e).Some? { StepIsCut(img, front, m, e, CutEnd(img, front, e).value); }
    }
  }

  lemma {:induction false} StepIsCut(img: Image, front: seq<Met>, m: Met, e: WalkEnd, f: WalkEnd)
    requires CutEnd(img, front, e) == Some(f)
    ensures CutEnd(img, front + [m], e) == StepOf(img, m, f)
  {
    CutStep(img, front, m, e.left);
    StepEnds(img, e.exts, Cut(img, front, e.left), m, f);
  }

  lemma {:induction false} StepEnds(img: Image, exts: seq<Extent>, ps: seq<Piece>, m: Met, f: WalkEnd)
    requires f.exts == PushAll(exts, PieceExtents(img, ps))
    ensures StepOf(img, m, f) ==
            Ending(img, exts, m.Unreadable? && f.left > 0, ps + OnePiece(img, m, f.left),
                   if m.Leaf? then f.left - Min(f.left, img.blockSize) else f.left)
  {
    OneMore(img, exts, ps, OnePiece(img, m, f.left));
  }

  lemma {:induction false} CutStep(img: Image, front: seq<Met>, m: Met, left: nat)
    ensures Stuck(img, front + [m], left) <==>
            Stuck(img, front, left) || (m.Unreadable? && LeftAfter(img, front, left) > 0)
    ensures Cut(img, front + [m], left) == Cut(img, front, left) + OnePiece(img, m, LeftAfter(img, front, left))
    ensures var before := LeftAfter(img, front, left);
            LeftAfter(img, front + [m], left) == if m.Leaf? then before - Min(before, img.blockSize) else before
  {
    assert DropLast(front + [m]) == front && Last(front + [m]) == m;
  }

  lemma {:induction false} OneMore(img: Image, exts: seq<Extent>, ps: seq<Piece>, more: seq<Piece>)
    requires |more| <= 1
    ensures PushAll(exts, PieceExtents(img, ps + more)) ==
            if more == [] then PushAll(exts, PieceExtents(img, ps))
            else Push(PushAll(exts, PieceExtents(img, ps)), PieceExtent(img, more[0]))
  {
    if more == [] {
      assert ps + more == ps;
    } else {
      assert DropLast(ps + more) == ps && Last(ps + more) == more[0];
      PushAllSnoc(exts, PieceExtents(img, ps), PieceExtent(img, more[0]));
    }
  }

  /** The data blocks of a list. */
  function LeavesOf(ms: seq<Met>): seq<nat> {
    if ms == [] then [] else LeavesOf(DropLast(ms)) + if Last(ms).Leaf? then [Last(ms).block] else []
  }

  lemma {:induction false} LeavesAppend(a: seq<Met>, b: seq<Met>)
    ensures LeavesOf(a + b) == LeavesOf(a) + LeavesOf(b)
  {
    if b == [] {
      assert a + b == a;
    } else {
      LeavesAppend(a, DropLast(b));
      assert DropLast(a + b) == a + DropLast(b) && Last(a + b) == Last(b);
    }
  }

  /** The leaves in pre-order are the data blocks in logical order. */
  lemma {:induction false} PreorderLeaves(img: Image, block: nat, level: nat)
    ensures LeavesOf(Preorder(img, block, level)) == DataBlocks(img, block, level)
    decreases level, 1, 0
  {
    if block == 0 {
    } else if level == 0 {
      assert DropLast([Leaf(block)]) == [];
    } else if block in img.blocks && |img.blocks[block]| == img.blockSize {
      var below := TablePreorder(img, PointersOf(img, img.blocks[block]), level - 1, Pointers(img));
      LeavesAppend([Table(block)], below);
      assert DropLast([Table(block)]) == [] && LeavesOf([Table(block)]) == [];
      assert [] + LeavesOf(below) == LeavesOf(below);
      TableLeaves(img, img.blocks[block], level - 1, Pointers(img));
    } else {
      assert DropLast([Unreadable(block)]) == [];
    }
  }

  lemma {:induction false} TableLeaves(img: Image, table: seq<byte>, level: nat, n: nat)
    requires n <= Pointers(img) && |table| == img.blockSize
    ensures LeavesOf(TablePreorder(img, PointersOf(img, table), level, n)) == TableBlocks(img, table, level, n)
    decreases level, 2, n
  {
    if n > 0 {
      var ptrs := PointersOf(img, table);
      TableLeaves(img, table, level, n - 1);
      PreorderLeaves(img, ptrs[n - 1], level);
      LeavesStep(img, ptrs, level, n);
    }
  }

  lemma {:induction false} LeavesStep(img: Image, ptrs: seq<nat>, level: nat, n: nat)
    requires 0 < n <= |ptrs|
    ensures LeavesOf(TablePreorder(img, ptrs, level, n)) ==
            LeavesOf(TablePreorder(img, ptrs, level, n - 1)) + LeavesOf(Preorder(img, ptrs[n - 1], level))
  {
    LeavesAppend(TablePreorder(img, ptrs, level, n - 1), Preorder(img, ptrs[n - 1], level));
  }

  lemma {:induction false} InodeLeaves(img: Image, ptrs: seq<nat>, n: nat)
    requires n <= |ptrs|
    ensures LeavesOf(InodePreorder(img, ptrs, n)) == InodeBlocks(img, ptrs, n)
  {
    if n > 0 {
      InodeLeaves(img, ptrs, n - 1);
      PreorderLeaves(img, ptrs[n - 1], PointerLevel(n - 1));
      LeavesAppend(InodePreorder(img, ptrs, n - 1), Preorder(img, ptrs[n - 1], PointerLevel(n - 1)));
    }
  }

  /** The data pieces are the data blocks in order until the wanted bytes are used up. */
  lemma {:induction false} CutIsTake(img: Image, ms: seq<Met>, left: nat)
    ensures DataOf(img, Cut(img, ms, left)) == Take(img, LeavesOf(ms), left)
  {
    if ms != [] {
      var front, m := DropLast(ms), Last(ms);
      var done, now := LeavesOf(front), LeftAfter(img, front, left);
      CutIsTake(img, front, left);
      LeftIsRest(img, front, left);
      OneIsTake(img, m, now);
      var added := if m.Leaf? then [m.block] else [];
      assert Cut(img, ms, left) == Cut(img, front, left) + OnePiece(img, m, now) && LeavesOf(ms) == done + added;
      PiecesAppend(img, Cut(img, front, left), OnePiece(img, m, now));
      TakeAppend(img, done, added, left);
    }
  }

  lemma {:induction false} LeftIsRest(img: Image, ms: seq<Met>, left: nat)
    ensures LeftAfter(img, ms, left) == Rest(left, |LeavesOf(ms)|, img.blockSize)
  {
    if ms != [] { LeftIsRest(img, DropLast(ms), left); }
  }

  lemma {:induction false} OneIsTake(img: Image, m: Met, left: nat)
    ensures DataOf(img, OnePiece(img, m, left)) == Take(img, if m.Leaf? then [m.block] else [], left)
  {
    var ps := OnePiece(img, m, left);
    if ps != [] {
      assert DropLast(ps) == [] && [m.block][1..] == [];
      assert Take(img, [], left - Min(left, img.blockSize)) == [];
    }
  }

  /** What a walk lists of data: the blocks of the inode in logical order until the wanted bytes are used up, and
      these bytes are what it counts down. */
  lemma {:induction false} DataInOrder(img: Image, ptrs: seq<nat>, wanted: nat, e: WalkEnd)
    requires WalkOf(img, InodePreorder(img, ptrs, |ptrs|), WalkEnd([], wanted)) == Some(e)
    ensures var trace := Cut(img, InodePreorder(img, ptrs, |ptrs|), wanted);
            && e.exts == PushAll([], PieceExtents(img, trace)) && Coalesced(e.exts)
            && DataOf(img, trace) == Take(img, InodeBlocks(img, ptrs, |ptrs|), wanted)
            && wanted - e.left == Total(DataOf(img, trace))
            && wanted - e.left == Min(wanted, Times(|InodeBlocks(img, ptrs, |ptrs|)|, img.blockSize))
  {
    var ms, blocks := InodePreorder(img, ptrs, |ptrs|), InodeBlocks(img, ptrs, |ptrs|);
    WalkIsCut(img, ms, WalkEnd([], wanted));
    InodeLeaves(img, ptrs, |ptrs|);
    CutIsTake(img, ms, wanted);
    LeftIsRest(img, ms, wanted);
    TakeTotal(img, blocks, wanted);
    RestIs(wanted, |blocks|, img.blockSize);
    PushAllBytes([], PieceExtents(img, Cut(img, ms, wanted)));
  }

  /** Every indirect block below can be read. */
  ghost predicate Readable(img: Image, block: nat, level: nat)
    decreases level
  {
    block == 0 || level == 0 ||
    (&& block in img.blocks && |img.blocks[block]| == img.blockSize
     && forall b :: b in PointersOf(img, img.blocks[block]) ==> Readable(img, b, level - 1))
  }

  ghost predicate AllReadable(ms: seq<Met>) {
    forall i :: 0 <= i < |ms| ==> !ms[i].Unreadable?
  }

  lemma {:induction false} ReadableBelow(img: Image, block: nat, level: nat)
    requires Readable(img, block, level)
    ensures AllReadable(Preorder(img, block, level))
    decreases level, 1, 0
  {
    if block != 0 && level > 0 { ReadableTable(img, PointersOf(img, img.blocks[block]), level - 1, Pointers(img)); }
  }

  lemma {:induction false} ReadableTable(img: Image, ptrs: seq<nat>, level: nat, n: nat)
    requires n <= |ptrs| && forall b :: b in ptrs ==> Readable(img, b, level)
    ensures AllReadable(TablePreorder(img, ptrs, level, n))
    decreases level, 2, n
  {
    if n > 0 {
      ReadableTable(img, ptrs, level, n - 1);
      ReadableBelow(img, ptrs[n - 1], level);
    }
  }

  lemma {:induction false} NeverStuck(img: Image, ms: seq<Met>, left: nat)
    requires AllReadable(ms)
    ensures !Stuck(img, ms, left)
  {
    if ms != [] { NeverStuck(img, DropLast(ms), left); }
  }

  /** On a map that can be read the walk succeeds, whatever the size. */
  lemma {:induction false} ReadableSucceeds(img: Image, ptrs: seq<nat>, n: nat, wanted: nat)
    requires n <= |ptrs| && forall i :: 0 <= i < n ==> Readable(img, ptrs[i], PointerLevel(i))
    ensures AllReadable(InodePreorder(img, ptrs, n))
    ensures WalkOf(img, InodePreorder(img, ptrs, n), WalkEnd([], wanted)).Some?
  {
    if n > 0 {
      ReadableSucceeds(img, ptrs, n - 1, wanted);
      ReadableBelow(img, ptrs[n - 1], PointerLevel(n - 1));
    }
    NeverStuck(img, InodePreorder(img, ptrs, n), wanted);
    WalkIsCut(img, InodePreorder(img, ptrs, n), WalkEnd([], wanted));
  }
}
