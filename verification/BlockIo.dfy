/** The rewrite engine: read every block of a range and write the same bytes back
    (src/io/block_io.cpp). */
module BlockIo {
  import opened Arith
  import opened Extents
  import opened Grid
  import opened Devices
  import opened Options

  datatype ErrKind = ReadError | WriteError

  /** RewriteExtent: one failed chunk. */
  datatype Failure = Failure(at: Extent, kind: ErrKind)

  datatype Flags = Flags(dryRun: bool, writeThrough: bool, verifyWrites: bool) {
    predicate NeedDirect() { (writeThrough || verifyWrites) && !dryRun }
    predicate Verifies() { verifyWrites && !dryRun }

    /** Cells go straight to Ok, without passing through Cached. */
    predicate Immediate() { dryRun || writeThrough || verifyWrites }
  }

  /** What happened to one chunk. */
  datatype Outcome =
    | Good
    | ReadFailed
    | WriteFailed
    | Unaligned
    | DirectFailed
    | Mismatch(media: seq<byte>)

  /** The pause switch: stop requests arrive at moments the run does not choose, and stay. `requests` says
      for each time the run asks whether one has arrived by then. */
  class PauseControl {
    var stop: bool
    var requests: seq<bool>

    constructor (requests: seq<bool>)
      ensures !stop && this.requests == requests
    {
      stop, this.requests := false, requests;
    }

    function Now(): Switch
      reads this
    {
      Switch(stop, requests)
    }

    method StopRequested() returns (asked: bool)
      modifies this
      ensures Now() == old(Now()).Ask() && asked == stop
    {
      if requests != [] {
        stop := stop || requests[0];
        requests := requests[1..];
      }
      asked := stop;
    }

    /** True when the run may go on. */
    method WaitIfPaused() returns (go: bool)
      modifies this
      ensures Now() == old(Now()).Ask() && go == !stop
    {
      var asked := StopRequested();
      go := !asked;
    }
  }

  datatype Switch = Switch(stop: bool, requests: seq<bool>) {
    /** After the run has asked once. */
    function Ask(): Switch {
      if requests == [] then this else Switch(stop || requests[0], requests[1..])
    }

    /** After the run has asked n times. */
    function Asked(n: nat): Switch {
      if n == 0 then this else Asked(n - 1).Ask()
    }

    /** A request is there by the n-th time the run asks. */
    predicate StopBy(n: nat) {
      stop || exists i :: 0 <= i < n && i < |requests| && requests[i]
    }
  }

  lemma {:induction false} AskedIff(s: Switch, n: nat)
    ensures s.Asked(n).stop <==> s.StopBy(n)
    ensures s.Asked(n).requests == if n <= |s.requests| then s.requests[n..] else []
  {
    if n > 0 {
      AskedIff(s, n - 1);
      if n <= |s.requests| {
        assert s.Asked(n - 1).requests[0] == s.requests[n - 1];
      }
    }
  }

  // ---- Chunks ----

  function Alignment(dev: nat): nat { if dev == 0 then 4096 else dev }

  /** The block size in use: never zero, and a multiple of the alignment when direct I/O is needed. */
  function BlockSize(requested: nat, align: nat, flags: Flags): (b: nat)
    ensures b > 0 && b >= requested
    ensures flags.NeedDirect() ==> b % Alignment(align) == 0
    ensures requested > 0 ==> b < requested + Alignment(align)
  {
    var block := if requested == 0 then 4096 else requested;
    var a := Alignment(align);
    if flags.NeedDirect() && block % a != 0 then RoundUp(block, a) else block
  }

  /** The block size asked for, or 4096; only a run that writes through or verifies its writes rounds it up to the
      alignment, or to 4096 where the device names none. */
  lemma {:induction false} BlockSizeIs(requested: nat, align: nat, flags: Flags)
    ensures var b, least, a := BlockSize(requested, align, flags), (if requested == 0 then 4096 else requested),
              (if align == 0 then 4096 else align);
            if !flags.dryRun && (flags.writeThrough || flags.verifyWrites) then least <= b < least + a && b % a == 0
            else b == least
  {
  }

  function RoundUp(block: nat, a: nat): (b: nat)
    requires a > 0 && block > 0
    ensures block <= b < block + a && b % a == 0
  {
    DivBounds(block + a - 1, a);
    MultipleMod((block + a - 1) / a, a);
    (block + a - 1) / a * a
  }

  lemma {:induction false} MultipleMod(q: nat, a: nat)
    requires a > 0
    ensures q * a >= 0 && (q * a) % a == 0
  {
    if q > 0 {
      MultipleMod(q - 1, a);
      assert q * a == (q - 1) * a + a;
      AddMod((q - 1) * a, a);
    }
  }

  lemma {:induction false} AddMod(n: nat, a: nat)
    requires a > 0 && n % a == 0
    ensures (n + a) % a == 0
  {
    assert n == a * (n / a);
    DivShift(n, a);
    assert (n + a) == a * (n / a + 1);
    assert (n + a) % a == (n + a) - a * ((n + a) / a);
  }

  /** The chunks of [pos, end): blocks in ascending order, the last one cut at the end. */
  function Chunks(pos: nat, end: nat, block: nat): seq<Extent>
    requires block > 0
    decreases end - pos
  {
    if pos >= end then []
    else
      var c := Min(block, end - pos);
      [Extent(pos, c)] + Chunks(pos + c, end, block)
  }

  /** The chunks tile the range: together they are exactly its bytes in ascending order. */
  lemma {:induction false} ChunksTile(pos: nat, end: nat, block: nat)
    requires block > 0 && pos <= end
    ensures Bytes(Chunks(pos, end, block)) == Run(Extent(pos, end - pos))
    decreases end - pos
  {
    if pos < end {
      var c := Min(block, end - pos);
      ChunksTile(pos + c, end, block);
      BytesAppend([Extent(pos, c)], Chunks(pos + c, end, block));
      assert DropLast([Extent(pos, c)]) == [];
      assert Bytes([Extent(pos, c)]) == Run(Extent(pos, c));
      RunJoin(pos, c, end - pos - c);
    } else {
      assert Run(Extent(pos, 0)) == [];
    }
  }

  lemma {:induction false} RunJoin(pos: nat, a: nat, b: nat)
    ensures Run(Extent(pos, a)) + Run(Extent(pos + a, b)) == Run(Extent(pos, a + b))
  {
  }

  /** No chunk is empty or larger than the block, and each starts where the one before ends. */
  lemma {:induction false} ChunksShape(pos: nat, end: nat, block: nat)
    requires block > 0
    ensures forall i :: 0 <= i < |Chunks(pos, end, block)| ==> 0 < Chunks(pos, end, block)[i].length <= block
    ensures forall i :: 0 <= i < |Chunks(pos, end, block)| - 1 ==> Touch(Chunks(pos, end, block), i)
    decreases end - pos
  {
    if pos < end {
      var c := Min(block, end - pos);
      var rest := Chunks(pos + c, end, block);
      ChunksShape(pos + c, end, block);
      var cs := [Extent(pos, c)] + rest;
      forall i | 0 <= i < |cs| - 1 ensures Touch(cs, i) {
        if i > 0 { assert Touch(rest, i - 1); }
      }
    }
  }

  ghost predicate Touch(cs: seq<Extent>, i: nat)
    requires i < |cs| - 1
  {
    cs[i].End() == cs[i + 1].offset
  }

  /** The size of the next chunk: a block or what is left; a direct chunk that is not the last one is
      trimmed to the alignment. */
  function NextChunk(pos: nat, end: nat, block: nat, align: nat, flags: Flags): nat
    requires pos < end
  {
    var c := Min(block, end - pos);
    if flags.NeedDirect() && c % Alignment(align) != 0 && pos + c < end then c - c % Alignment(align) else c
  }

  /** With the block size in use the trimming never takes anything off, so no chunk is empty. */
  lemma {:induction false} NothingToTrim(pos: nat, end: nat, requested: nat, align: nat, flags: Flags)
    requires pos < end
    ensures var block := BlockSize(requested, align, flags);
            NextChunk(pos, end, block, align, flags) == Min(block, end - pos) > 0
  {
  }

  // ---- One chunk ----

  predicate IsAligned(t: Extent, align: nat) {
    t.offset % Alignment(align) == 0 && t.length % Alignment(align) == 0
  }

  /** How a chunk is written. */
  function HowToWrite(flags: Flags, hasDirect: bool, align: nat, t: Extent): WriteHow {
    if flags.writeThrough then (if hasDirect && IsAligned(t, align) then Direct else Sync) else Plain
  }

  /** Everything a chunk asks of the device, given its outcome and the bytes the device holds there.
      Whatever is written is what was there, and nothing is written unless all of it was read. */
  function ChunkOps(flags: Flags, hasDirect: bool, align: nat, t: Extent, bytes: seq<byte>, o: Outcome): seq<Op> {
    var how := HowToWrite(flags, hasDirect, align, t);
    if o.ReadFailed? then [ReadOp(t, false)]
    else if flags.dryRun then [ReadOp(t, true)]
    else if o.WriteFailed? then [ReadOp(t, true), WriteOp(how, t.offset, bytes, false)]
    else
      [ReadOp(t, true), WriteOp(how, t.offset, bytes, true)] +
      match o
      case DirectFailed => [DirectReadOp(t, false, [])]
      case Mismatch(media) => [DirectReadOp(t, true, media)]
      case Good => if flags.verifyWrites then [DirectReadOp(t, true, bytes)] else []
      case _ => []
  }

  /** The outcomes a chunk can have under these flags. A verified chunk that is Good was read back
      from the medium with exactly these bytes; a mismatch was read back with other bytes. */
  predicate Possible(flags: Flags, align: nat, t: Extent, bytes: seq<byte>, o: Outcome) {
    match o
    case Good => flags.Verifies() ==> IsAligned(t, align)
    case ReadFailed => true
    case WriteFailed => !flags.dryRun
    case Unaligned => flags.Verifies() && !IsAligned(t, align)
    case DirectFailed => flags.Verifies() && IsAligned(t, align)
    case Mismatch(media) => flags.Verifies() && IsAligned(t, align) && media != bytes
  }

  /** How a chunk ends: what happened to it, and what is left of the kernel's script. */
  datatype ChunkEnd = ChunkEnd(o: Outcome, rest: seq<Reply>)

  /** What happens to a chunk under a script: it is read, and written back if all of it was read and the run is
      no dry run. */
  function Processing(flags: Flags, hasDirect: bool, align: nat, data: seq<byte>, script: seq<Reply>,
                      t: Extent): ChunkEnd
  {
    var r := Reading(false, script, t.length, Tail(data, t.offset));
    if !r.ok then ChunkEnd(ReadFailed, r.rest)
    else if flags.dryRun then ChunkEnd(Good, r.rest)
    else Restoring(flags, hasDirect, align, data, r.rest, t)
  }

  /** A chunk is written back, and then read from the medium and compared if writes are verified. */
  function Restoring(flags: Flags, hasDirect: bool, align: nat, data: seq<byte>, script: seq<Reply>,
                     t: Extent): ChunkEnd
  {
    var w := Putting(HowToWrite(flags, hasDirect, align, t), hasDirect, script, t.length);
    if !w.ok then ChunkEnd(WriteFailed, w.rest)
    else if !flags.verifyWrites then ChunkEnd(Good, w.rest)
    else if !IsAligned(t, align) then ChunkEnd(Unaligned, w.rest)
    else
      var v := Reading(true, w.rest, t.length, Tail(data, t.offset));
      ChunkEnd(Compared(v, BytesAt(data, t)), v.rest)
  }

  /** What reading back a chunk from the medium tells. */
  function Compared(v: ReadEnd, bytes: seq<byte>): Outcome {
    if !v.ok then DirectFailed else if v.got != bytes then Mismatch(v.got) else Good
  }

  lemma {:induction false} ProcessingPossible(flags: Flags, hasDirect: bool, align: nat, data: seq<byte>,
                                              script: seq<Reply>, t: Extent)
    requires t.length > 0
    ensures var o := Processing(flags, hasDirect, align, data, script, t).o;
            Possible(flags, align, t, BytesAt(data, t), o) && (o.ReadFailed? || t.End() <= |data|)
  {
    RangeRead(false, script, data, t.offset, t.length);
  }

  /** Reads a chunk back from the medium and compares. */
  method VerifyAgainstMedia(dev: Device, want: seq<byte>, t: Extent, scratch: array<byte>) returns (o: Outcome)
    requires |want| == t.length <= scratch.Length && dev.hasDirect
    modifies dev`replies, dev`ops, scratch
    ensures var v := Reading(true, old(dev.replies), t.length, Tail(dev.data, t.offset));
            && dev.replies == v.rest && o == Compared(v, want)
            && dev.ops == old(dev.ops) + [DirectReadOp(t, v.ok, if v.ok then v.got else [])]
  {
    var good := dev.PreadDirect(scratch, t.offset, t.length);
    if !good {
      return DirectFailed;
    }
    if want != scratch[..t.length] {
      return Mismatch(scratch[..t.length]);
    }
    return Good;
  }

  /** Writes back the bytes of a chunk that are there already, and verifies them. */
  method WriteBack(dev: Device, bytes: seq<byte>, verifyBuf: array<byte>, t: Extent, flags: Flags) returns (o: Outcome)
    requires 0 < t.length <= verifyBuf.Length && !flags.dryRun && (flags.Verifies() ==> dev.hasDirect)
    requires t.End() <= |dev.data| && bytes == BytesAt(dev.data, t)
    modifies dev`replies, dev`data, dev`ops, verifyBuf
    ensures dev.data == old(dev.data) && !o.ReadFailed?
    ensures old(dev.ops) <= dev.ops
    ensures [ReadOp(t, true)] + dev.ops[|old(dev.ops)|..] == ChunkOps(flags, dev.hasDirect, dev.align, t, bytes, o)
    ensures ChunkEnd(o, dev.replies) == Restoring(flags, dev.hasDirect, dev.align, dev.data, old(dev.replies), t)
  {
    ghost var before := dev.data;
    var good;
    ghost var stored;
    good, stored := dev.Write(HowToWrite(flags, dev.hasDirect, dev.align, t), bytes, t.offset);
    StoredSame(before, dev.data, t.offset, t.length, stored);
    if !good {
      return WriteFailed;
    }
    if flags.verifyWrites {
      if !IsAligned(t, dev.align) {
        return Unaligned;
      }
      o := VerifyAgainstMedia(dev, bytes, t, verifyBuf);
      return;
    }
    return Good;
  }

  lemma {:induction false} SplitAfter<T>(a: seq<T>, x: T, mid: seq<T>, now: seq<T>)
    requires mid == a + [x] && mid <= now
    ensures now == a + ([x] + now[|mid|..])
  {
  }

  /** Reads, writes back and verifies one chunk. The device keeps its bytes whatever fails. */
  method DoChunk(dev: Device, buf: array<byte>, verifyBuf: array<byte>, t: Extent, flags: Flags) returns (o: Outcome)
    requires 0 < t.length <= buf.Length && t.length <= verifyBuf.Length && buf != verifyBuf
    requires flags.Verifies() ==> dev.hasDirect
    modifies dev`replies, dev`data, dev`ops, buf, verifyBuf
    ensures dev.data == old(dev.data)
    ensures dev.ops == old(dev.ops) + ChunkOps(flags, dev.hasDirect, dev.align, t, BytesAt(dev.data, t), o)
    ensures ChunkEnd(o, dev.replies) == Processing(flags, dev.hasDirect, dev.align, dev.data, old(dev.replies), t)
  {
    ghost var ops := dev.ops;
    var good := dev.PreadAll(buf, t.offset, t.length);
    if !good {
      return ReadFailed;
    }
    if flags.dryRun {
      return Good;
    }
    ghost var mid := dev.ops;
    o := WriteBack(dev, buf[..t.length], verifyBuf, t, flags);
    SplitAfter(ops, ReadOp(t, true), mid, dev.ops);
  }

  // ---- Whole ranges ----

  function FailureOf(t: Extent, o: Outcome): Failure
    requires !o.Good?
  {
    Failure(t, if o.ReadFailed? then ReadError else WriteError)
  }

  function StatusOf(k: ErrKind): CellStatus { if k.ReadError? then ReadErr else WriteErr }

  /** The error list of a run: the chunks that failed, in order. */
  function Ledger(cs: seq<Extent>, os: seq<Outcome>): seq<Failure>
    requires |cs| == |os|
  {
    if cs == [] then []
    else
      Ledger(DropLast(cs), DropLast(os)) +
      if Last(os).Good? then [] else [FailureOf(Last(cs), Last(os))]
  }

  function LedgerLogs(fs: seq<Failure>): seq<LogEntry> {
    if fs == [] then []
    else LedgerLogs(DropLast(fs)) + [LogEntry(Last(fs).at.offset, Last(fs).at.length, StatusOf(Last(fs).kind))]
  }

  /** All the transfers of a run. */
  function AllOps(flags: Flags, hasDirect: bool, align: nat, data: seq<byte>, cs: seq<Extent>,
                  os: seq<Outcome>): seq<Op>
    requires |cs| == |os|
  {
    if cs == [] then []
    else
      AllOps(flags, hasDirect, align, data, DropLast(cs), DropLast(os)) +
      ChunkOps(flags, hasDirect, align, Last(cs), BytesAt(data, Last(cs)), Last(os))
  }

  /** How the chunks of a run end, one after the other, under a script. */
  datatype RunEnd = RunEnd(os: seq<Outcome>, rest: seq<Reply>)

  function Answers(flags: Flags, hasDirect: bool, align: nat, data: seq<byte>, script: seq<Reply>,
                   cs: seq<Extent>): RunEnd {
    if cs == [] then RunEnd([], script)
    else
      var front := Answers(flags, hasDirect, align, data, script, DropLast(cs));
      var last := Processing(flags, hasDirect, align, data, front.rest, Last(cs));
      RunEnd(front.os + [last.o], last.rest)
  }

  lemma {:induction false} AnswersSnoc(flags: Flags, hasDirect: bool, align: nat, data: seq<byte>, script: seq<Reply>,
                                       cs: seq<Extent>, os: seq<Outcome>, mid: seq<Reply>, t: Extent, last: ChunkEnd)
    requires Answers(flags, hasDirect, align, data, script, cs) == RunEnd(os, mid)
    requires Processing(flags, hasDirect, align, data, mid, t) == last
    ensures Answers(flags, hasDirect, align, data, script, cs + [t]) == RunEnd(os + [last.o], last.rest)
  {
    assert DropLast(cs + [t]) == cs && Last(cs + [t]) == t;
  }

  /** The chunks of two stretches, one after the other. */
  lemma {:induction false} AnswersAppend(flags: Flags, hasDirect: bool, align: nat, data: seq<byte>, script: seq<Reply>,
                                         a: seq<Extent>, b: seq<Extent>)
    ensures var x := Answers(flags, hasDirect, align, data, script, a);
            var y := Answers(flags, hasDirect, align, data, x.rest, b);
            Answers(flags, hasDirect, align, data, script, a + b) == RunEnd(x.os + y.os, y.rest)
  {
    var x := Answers(flags, hasDirect, align, data, script, a);
    if b == [] {
      assert a + b == a && x.os + [] == x.os;
    } else {
      AnswersAppend(flags, hasDirect, align, data, script, a, DropLast(b));
      assert DropLast(a + b) == a + DropLast(b) && Last(a + b) == Last(b);
      var y := Answers(flags, hasDirect, align, data, x.rest, DropLast(b));
      Associates(x.os, y.os, [Processing(flags, hasDirect, align, data, y.rest, Last(b)).o]);
    }
  }

  ghost predicate AllPossible(flags: Flags, align: nat, data: seq<byte>, cs: seq<Extent>, os: seq<Outcome>)
    requires |cs| == |os|
  {
    forall i :: 0 <= i < |cs| ==>
      Possible(flags, align, cs[i], BytesAt(data, cs[i]), os[i]) && (os[i].ReadFailed? || cs[i].End() <= |data|)
  }

  /** The transfers of two stretches of chunks, one after the other. */
  lemma {:induction false} AllOpsAppend(flags: Flags, hasDirect: bool, align: nat, data: seq<byte>, a: seq<Extent>,
                                        x: seq<Outcome>, b: seq<Extent>, y: seq<Outcome>)
    requires |a| == |x| && |b| == |y|
    ensures AllOps(flags, hasDirect, align, data, a + b, x + y) ==
            AllOps(flags, hasDirect, align, data, a, x) + AllOps(flags, hasDirect, align, data, b, y)
  {
    if b == [] {
      assert a + b == a && x + y == x;
    } else {
      var front, fo, t, o := DropLast(b), DropLast(y), Last(b), Last(y);
      AllOpsAppend(flags, hasDirect, align, data, a, x, front, fo);
      AllOpsSnoc(flags, hasDirect, align, data, a + front, x + fo, t, o);
      AllOpsSnoc(flags, hasDirect, align, data, front, fo, t, o);
      AppendLast(a, b);
      AppendLast(x, y);
      SplitLast(b);
      SplitLast(y);
      Associates(AllOps(flags, hasDirect, align, data, a, x), AllOps(flags, hasDirect, align, data, front, fo),
                 ChunkOps(flags, hasDirect, align, t, BytesAt(data, t), o));
    }
  }

  lemma {:induction false} AllOpsSnoc(flags: Flags, hasDirect: bool, align: nat, data: seq<byte>, cs: seq<Extent>,
                                      os: seq<Outcome>, t: Extent, o: Outcome)
    requires |cs| == |os|
    ensures AllOps(flags, hasDirect, align, data, cs + [t], os + [o]) ==
            AllOps(flags, hasDirect, align, data, cs, os) + ChunkOps(flags, hasDirect, align, t, BytesAt(data, t), o)
  {
    assert DropLast(cs + [t]) == cs && DropLast(os + [o]) == os;
  }

  /** What a transfer of a run is: reads and read-backs name chunks inside the device as long as they succeed, and
      a write puts back the very bytes that are there, through the cache unless the run writes through, and
      then by the direct descriptor exactly where there is one and the range is aligned for it. */
  ghost predicate OpIsRight(flags: Flags, hasDirect: bool, align: nat, data: seq<byte>, op: Op) {
    var a := if align == 0 then 4096 else align;
    match op
    case ReadOp(at, ok) => ok ==> at.End() <= |data|
    case WriteOp(how, offset, bytes, _) =>
      && !flags.dryRun && offset + |bytes| <= |data| && bytes == data[offset..offset + |bytes|]
      && (how.Plain? <==> !flags.writeThrough)
      && (how.Direct? <==> flags.writeThrough && hasDirect && offset % a == 0 && |bytes| % a == 0)
    case DirectReadOp(at, ok, bytes) => !flags.dryRun && flags.verifyWrites && at.offset % a == 0 && at.length % a == 0
  }

  lemma {:induction false} OpsAreRight(flags: Flags, hasDirect: bool, align: nat, data: seq<byte>, cs: seq<Extent>,
                                       os: seq<Outcome>)
    requires |cs| == |os| && AllPossible(flags, align, data, cs, os)
    ensures forall k :: 0 <= k < |AllOps(flags, hasDirect, align, data, cs, os)| ==>
              OpIsRight(flags, hasDirect, align, data, AllOps(flags, hasDirect, align, data, cs, os)[k])
  {
    if cs != [] {
      var front, fo, t, o := DropLast(cs), DropLast(os), Last(cs), Last(os);
      assert cs[|cs| - 1] == t && os[|cs| - 1] == o;
      OpsAreRight(flags, hasDirect, align, data, front, fo);
      ChunkOpsRight(flags, hasDirect, align, data, t, o);
    }
  }

  lemma {:induction false} ChunkOpsRight(flags: Flags, hasDirect: bool, align: nat, data: seq<byte>, t: Extent,
                                         o: Outcome)
    requires Possible(flags, align, t, BytesAt(data, t), o) && (o.ReadFailed? || t.End() <= |data|)
    ensures var ops := ChunkOps(flags, hasDirect, align, t, BytesAt(data, t), o);
            forall k :: 0 <= k < |ops| ==> OpIsRight(flags, hasDirect, align, data, ops[k])
  {
    var ops := ChunkOps(flags, hasDirect, align, t, BytesAt(data, t), o);
    assert |ops| <= 3 && OpIsRight(flags, hasDirect, align, data, ops[0]);
    if |ops| > 1 { assert OpIsRight(flags, hasDirect, align, data, ops[1]); }
    if |ops| > 2 { assert OpIsRight(flags, hasDirect, align, data, ops[2]); }
  }

  /** An error of a run is a chunk: a read error if its read failed, and a write error only if it succeeded. */
  lemma {:induction false} ErrorsAreOps(flags: Flags, hasDirect: bool, align: nat, data: seq<byte>, cs: seq<Extent>,
                                        os: seq<Outcome>)
    requires |cs| == |os|
    ensures forall f :: f in Ledger(cs, os) ==>
              f.at in cs && ReadOp(f.at, f.kind.WriteError?) in AllOps(flags, hasDirect, align, data, cs, os)
  {
    if cs != [] {
      var t, o := Last(cs), Last(os);
      ErrorsAreOps(flags, hasDirect, align, data, DropLast(cs), DropLast(os));
      var ops := ChunkOps(flags, hasDirect, align, t, BytesAt(data, t), o);
      if !o.Good? { assert ops[0] == ReadOp(t, FailureOf(t, o).kind.WriteError?); }
    }
  }

  /** The error that a failed transfer is. */
  function ErrorOf(op: Op): Failure {
    match op
    case ReadOp(at, _) => Failure(at, ReadError)
    case WriteOp(_, offset, bytes, _) => Failure(Extent(offset, |bytes|), WriteError)
    case DirectReadOp(at, _, _) => Failure(at, WriteError)
  }

  /** A transfer failed, or read back other bytes than the device holds. */
  predicate Fails(data: seq<byte>, op: Op) {
    !op.ok || (op.DirectReadOp? && op.bytes != BytesAt(data, op.at))
  }

  /** Every transfer that fails is in the error list. */
  lemma {:induction false} OpsAreErrors(flags: Flags, hasDirect: bool, align: nat, data: seq<byte>, cs: seq<Extent>,
                                        os: seq<Outcome>)
    requires |cs| == |os| && AllPossible(flags, align, data, cs, os)
    ensures forall op :: op in AllOps(flags, hasDirect, align, data, cs, os) && Fails(data, op) ==>
              ErrorOf(op) in Ledger(cs, os)
  {
    if cs != [] {
      var front, fo, t, o := DropLast(cs), DropLast(os), Last(cs), Last(os);
      assert cs[|cs| - 1] == t && os[|cs| - 1] == o;
      OpsAreErrors(flags, hasDirect, align, data, front, fo);
      var fs := Ledger(front, fo);
      if !o.Good? { assert Ledger(cs, os)[|fs|] == FailureOf(t, o); }
      forall op | op in ChunkOps(flags, hasDirect, align, t, BytesAt(data, t), o) && Fails(data, op)
        ensures ErrorOf(op) in Ledger(cs, os)
      {
        ChunkError(flags, hasDirect, align, data, t, o, op);
      }
    }
  }

  lemma {:induction false} ChunkError(flags: Flags, hasDirect: bool, align: nat, data: seq<byte>, t: Extent, o: Outcome,
                                      op: Op)
    requires Possible(flags, align, t, BytesAt(data, t), o) && (o.ReadFailed? || t.End() <= |data|)
    requires op in ChunkOps(flags, hasDirect, align, t, BytesAt(data, t), o) && Fails(data, op)
    ensures !o.Good? && ErrorOf(op) == FailureOf(t, o)
  {
  }

  /** The ranges a list of transfers wrote, or tried to write. */
  function Writes(ops: seq<Op>): seq<Extent> {
    if ops == [] then []
    else
      Writes(DropLast(ops)) +
      match Last(ops)
      case WriteOp(_, offset, bytes, _) => [Extent(offset, |bytes|)]
      case _ => []
  }

  lemma {:induction false} WritesAppend(a: seq<Op>, b: seq<Op>)
    ensures Writes(a + b) == Writes(a) + Writes(b)
  {
    if b == [] {
      assert a + b == a;
    } else {
      WritesAppend(a, DropLast(b));
      assert DropLast(a + b) == a + DropLast(b) && Last(a + b) == Last(b);
    }
  }

  lemma {:induction false} WritesOne(op: Op)
    ensures Writes([op]) == if op.WriteOp? then [Extent(op.offset, |op.bytes|)] else []
  {
    assert DropLast([op]) == [];
  }

  /** One chunk is written once, and only if all of it was read and the run is no dry run. */
  lemma {:induction false} ChunkWrites(flags: Flags, hasDirect: bool, align: nat, data: seq<byte>, t: Extent,
                                       o: Outcome)
    requires o.ReadFailed? || t.End() <= |data|
    ensures Writes(ChunkOps(flags, hasDirect, align, t, BytesAt(data, t), o)) ==
            if o.ReadFailed? || flags.dryRun then [] else [t]
  {
    var ops := ChunkOps(flags, hasDirect, align, t, BytesAt(data, t), o);
    WritesOne(ops[0]);
    if o.ReadFailed? || flags.dryRun {
      assert ops == [ops[0]];
    } else {
      OneWrite(ops, t);
    }
  }

  lemma {:induction false} OneWrite(ops: seq<Op>, t: Extent)
    requires 2 <= |ops| <= 3 && !ops[0].WriteOp? && (|ops| == 3 ==> !ops[2].WriteOp?)
    requires ops[1].WriteOp? && ops[1].offset == t.offset && |ops[1].bytes| == t.length
    ensures Writes(ops) == [t]
  {
    WritesOne(ops[0]);
    WritesOne(ops[1]);
    WritesAppend([ops[0]], [ops[1]]);
    if |ops| == 2 {
      assert ops == [ops[0]] + [ops[1]];
    } else {
      WritesOne(ops[2]);
      WritesAppend([ops[0]] + [ops[1]], [ops[2]]);
      assert ops == [ops[0]] + [ops[1]] + [ops[2]];
    }
  }

  /** The ranges a list of transfers read, or tried to read, through the page cache. */
  function Reads(ops: seq<Op>): seq<Extent> {
    if ops == [] then []
    else Reads(DropLast(ops)) + if Last(ops).ReadOp? then [Last(ops).at] else []
  }

  lemma {:induction false} ReadsAppend(a: seq<Op>, b: seq<Op>)
    ensures Reads(a + b) == Reads(a) + Reads(b)
  {
    if b == [] {
      assert a + b == a;
    } else {
      ReadsAppend(a, DropLast(b));
      assert DropLast(a + b) == a + DropLast(b) && Last(a + b) == Last(b);
    }
  }

  lemma {:induction false} ReadsNone(ops: seq<Op>)
    requires forall i :: 0 <= i < |ops| ==> !ops[i].ReadOp?
    ensures Reads(ops) == []
  {
    if ops != [] { ReadsNone(DropLast(ops)); }
  }

  /** Every chunk is read exactly once, in order, whatever its outcome. */
  lemma {:induction false} ReadsAreChunks(flags: Flags, hasDirect: bool, align: nat, data: seq<byte>, cs: seq<Extent>,
                                          os: seq<Outcome>)
    requires |cs| == |os|
    ensures Reads(AllOps(flags, hasDirect, align, data, cs, os)) == cs
  {
    if cs != [] {
      var front, fo, t, o := DropLast(cs), DropLast(os), Last(cs), Last(os);
      ReadsAreChunks(flags, hasDirect, align, data, front, fo);
      ChunkReads(flags, hasDirect, align, data, t, o);
      ReadsAppend(AllOps(flags, hasDirect, align, data, front, fo),
                  ChunkOps(flags, hasDirect, align, t, BytesAt(data, t), o));
      SplitLast(cs);
    }
  }

  lemma {:induction false} ChunkReads(flags: Flags, hasDirect: bool, align: nat, data: seq<byte>, t: Extent, o: Outcome)
    ensures Reads(ChunkOps(flags, hasDirect, align, t, BytesAt(data, t), o)) == [t]
  {
    var ops := ChunkOps(flags, hasDirect, align, t, BytesAt(data, t), o);
    ReadsAppend(ops[..1], ops[1..]);
    assert ops == ops[..1] + ops[1..];
    ReadsNone(ops[1..]);
    assert DropLast(ops[..1]) == [] && Last(ops[..1]) == ops[0];
  }

  /** The chunks that are written: all that were read, unless the run is a dry run. */
  function Written(flags: Flags, cs: seq<Extent>, os: seq<Outcome>): seq<Extent>
    requires |cs| == |os|
  {
    if cs == [] then []
    else
      Written(flags, DropLast(cs), DropLast(os)) + if Last(os).ReadFailed? || flags.dryRun then [] else [Last(cs)]
  }

  lemma {:induction false} WritesAreWritten(flags: Flags, hasDirect: bool, align: nat, data: seq<byte>,
                                            cs: seq<Extent>, os: seq<Outcome>)
    requires |cs| == |os| && AllPossible(flags, align, data, cs, os)
    ensures Writes(AllOps(flags, hasDirect, align, data, cs, os)) == Written(flags, cs, os)
  {
    if cs != [] {
      var front, fo, t, o := DropLast(cs), DropLast(os), Last(cs), Last(os);
      assert cs[|cs| - 1] == t && os[|cs| - 1] == o;
      WritesAreWritten(flags, hasDirect, align, data, front, fo);
      ChunkWrites(flags, hasDirect, align, data, t, o);
      WritesAppend(AllOps(flags, hasDirect, align, data, front, fo),
                   ChunkOps(flags, hasDirect, align, t, BytesAt(data, t), o));
    }
  }

  lemma {:induction false} WrittenFrom(flags: Flags, cs: seq<Extent>, os: seq<Outcome>, i: nat) returns (k: nat)
    requires |cs| == |os| && i < |Written(flags, cs, os)|
    ensures k < |cs| && cs[k] == Written(flags, cs, os)[i]
  {
    if i < |Written(flags, DropLast(cs), DropLast(os))| {
      k := WrittenFrom(flags, DropLast(cs), DropLast(os), i);
    } else {
      k := |cs| - 1;
    }
  }

  /** Disjoint chunks are written disjointly: no byte is written twice. */
  lemma {:induction false} WrittenApart(flags: Flags, cs: seq<Extent>, os: seq<Outcome>)
    requires |cs| == |os| && PairwiseDisjoint(cs)
    ensures PairwiseDisjoint(Written(flags, cs, os))
  {
    if cs != [] {
      var front, fo := DropLast(cs), DropLast(os);
      WrittenApart(flags, front, fo);
      var ws := Written(flags, front, fo);
      forall i | 0 <= i < |ws| ensures ws[i].End() <= Last(cs).offset || Last(cs).End() <= ws[i].offset {
        var k := WrittenFrom(flags, front, fo, i);
        assert cs[k] == front[k] && cs[|cs| - 1] == Last(cs);
      }
    }
  }

  /** The status of the last failed chunk that meets cell i. */
  function Blame(fs: seq<Failure>, i: nat, cell: nat): Option<CellStatus>
    requires cell > 0
  {
    if fs == [] then None
    else if Meets(Last(fs).at.offset, Last(fs).at.length, i, cell) then Some(StatusOf(Last(fs).kind))
    else Blame(DropLast(fs), i, cell)
  }

  /** A cell is blamed exactly when its byte range meets a failed chunk. */
  lemma {:induction false} BlamedIffMet(fs: seq<Failure>, i: nat, cell: nat)
    requires cell > 0
    ensures Blame(fs, i, cell).Some? <==>
            exists k :: 0 <= k < |fs| && Meets(fs[k].at.offset, fs[k].at.length, i, cell)
    ensures Blame(fs, i, cell).Some? ==> Blame(fs, i, cell).value.IsErr()
  {
    if fs != [] {
      var front := DropLast(fs);
      BlamedIffMet(front, i, cell);
      assert fs[|fs| - 1] == Last(fs) && forall k :: 0 <= k < |front| ==> front[k] == fs[k];
    }
  }

  /** The status is that of the last failure that meets the cell. */
  lemma {:induction false} BlameIsLast(fs: seq<Failure>, i: nat, cell: nat)
    requires cell > 0
    ensures Blame(fs, i, cell).Some? ==>
              exists k :: 0 <= k < |fs| && LastToMeet(fs, k, i, cell)
                          && Blame(fs, i, cell).value == if fs[k].kind.ReadError? then ReadErr else WriteErr
  {
    if fs != [] && Blame(fs, i, cell).Some? {
      var front := DropLast(fs);
      assert fs[|fs| - 1] == Last(fs) && forall k :: 0 <= k < |front| ==> front[k] == fs[k];
      if Meets(Last(fs).at.offset, Last(fs).at.length, i, cell) {
        assert LastToMeet(fs, |fs| - 1, i, cell);
      } else {
        BlameIsLast(front, i, cell);
        var k :| 0 <= k < |front| && LastToMeet(front, k, i, cell)
                 && Blame(fs, i, cell).value == if front[k].kind.ReadError? then ReadErr else WriteErr;
        assert LastToMeet(fs, k, i, cell);
      }
    }
  }

  ghost predicate LastToMeet(fs: seq<Failure>, k: nat, i: nat, cell: nat)
    requires k < |fs| && cell > 0
  {
    && Meets(fs[k].at.offset, fs[k].at.length, i, cell)
    && forall j :: k < j < |fs| ==> !Meets(fs[j].at.offset, fs[j].at.length, i, cell)
  }

  /** The log has one entry for each failure, with its range and kind. */
  lemma {:induction false} LogsAreFailures(fs: seq<Failure>)
    ensures |LedgerLogs(fs)| == |fs|
    ensures forall k :: 0 <= k < |fs| ==>
              LedgerLogs(fs)[k] ==
              LogEntry(fs[k].at.offset, fs[k].at.length, if fs[k].kind.ReadError? then ReadErr else WriteErr)
  {
    if fs != [] { LogsAreFailures(DropLast(fs)); }
  }

  /** Cell i meets the processed range [offset, pos). */
  predicate Touched(offset: nat, pos: nat, i: nat, cell: nat)
    requires cell > 0
  {
    offset < pos && Meets(offset, pos - offset, i, cell)
  }

  /** What a run makes of a cell: the last failure that meets it; else unchanged if it was an error
      or was not touched; else Ok where all is known to be flushed or it was Ok, and Cached elsewhere. */
  predicate CellFits(was: CellStatus, now: CellStatus, touched: bool, flushed: bool, blame: Option<CellStatus>) {
    if blame.Some? then now == blame.value
    else if was.IsErr() || !touched then now == was
    else now == if was.Ok? || flushed then Ok else Cached
  }

  /** The grid is the image of the failures of the processed range [offset, pos), of which [offset, upto) is
      known to be flushed. */
  ghost predicate GridFits(was: seq<CellStatus>, now: seq<CellStatus>, cell: nat, offset: nat, pos: nat,
                           fs: seq<Failure>, upto: nat)
    requires cell > 0
  {
    |now| == |was| && forall i :: 0 <= i < |was| ==> CellFitsAt(was, now, cell, offset, pos, fs, upto, i)
  }

  ghost predicate CellFitsAt(was: seq<CellStatus>, now: seq<CellStatus>, cell: nat, offset: nat, pos: nat,
                             fs: seq<Failure>, upto: nat, i: nat)
    requires cell > 0 && i < |was| == |now|
  {
    CellFits(was[i], now[i], Touched(offset, pos, i, cell), Touched(offset, upto, i, cell), Blame(fs, i, cell))
  }

  /** `now` is `mid` with the cells that meet t marked `st`. */
  ghost predicate MarkedBy(mid: seq<CellStatus>, now: seq<CellStatus>, cell: nat, t: Extent, st: CellStatus)
    requires cell > 0
  {
    |now| == |mid| &&
    forall i :: 0 <= i < |mid| ==>
      now[i] == if Meets(t.offset, t.length, i, cell) then Marked(mid[i], st) else mid[i]
  }

  /** Extending the processed range by a chunk touches exactly the chunk's cells besides. */
  lemma {:induction false} TouchedSnoc(offset: nat, pos: nat, c: nat, i: nat, cell: nat)
    requires cell > 0 && offset <= pos && c > 0
    ensures Touched(offset, pos + c, i, cell) <==> Touched(offset, pos, i, cell) || Meets(pos, c, i, cell)
  {
    CellMono(pos, pos + c - 1, cell);
    if offset < pos {
      CellMono(offset, pos - 1, cell);
      CellStep(pos - 1, cell);
    }
  }

  /** A span inside the processed range only meets touched cells. */
  lemma {:induction false} TouchedWithin(offset: nat, pos: nat, lo: nat, hi: nat, i: nat, cell: nat)
    requires cell > 0 && offset <= lo < hi <= pos && Meets(lo, hi - lo, i, cell)
    ensures Touched(offset, pos, i, cell)
  {
    CellMono(offset, lo, cell);
    CellMono(hi - 1, pos - 1, cell);
  }

  lemma {:induction false} GridStart(was: seq<CellStatus>, cell: nat, offset: nat)
    requires cell > 0
    ensures GridFits(was, was, cell, offset, offset, [], offset)
  {
  }

  /** A failed chunk turns its cells into errors. Where cells go straight to Ok, the flushed part moves on. */
  lemma {:induction false} GridFailure(was: seq<CellStatus>, mid: seq<CellStatus>, now: seq<CellStatus>, cell: nat,
                                       offset: nat, t: Extent, fs: seq<Failure>, f: Failure, upto: nat, next: nat)
    requires cell > 0 && t.length > 0 && f.at == t && offset <= upto <= t.offset
    requires GridFits(was, mid, cell, offset, t.offset, fs, upto)
    requires MarkedBy(mid, now, cell, t, StatusOf(f.kind))
    requires next == upto || (upto == t.offset && next == t.End())
    ensures GridFits(was, now, cell, offset, t.End(), fs + [f], next)
  {
    assert DropLast(fs + [f]) == fs;
    forall i | 0 <= i < |was|
      ensures CellFitsAt(was, now, cell, offset, t.End(), fs + [f], next, i)
    {
      assert CellFitsAt(was, mid, cell, offset, t.offset, fs, upto, i);
      TouchedSnoc(offset, t.offset, t.length, i, cell);
    }
  }

  /** A good chunk turns its cells Cached, or Ok where everything before it is, and clears no error. */
  lemma {:induction false} GridGood(was: seq<CellStatus>, mid: seq<CellStatus>, now: seq<CellStatus>, cell: nat,
                                    offset: nat, t: Extent, fs: seq<Failure>, st: CellStatus, upto: nat, next: nat)
    requires cell > 0 && t.length > 0 && offset <= upto <= t.offset
    requires GridFits(was, mid, cell, offset, t.offset, fs, upto) && MarkedBy(mid, now, cell, t, st)
    requires if st.Ok? then upto == t.offset && next == t.End() else st.Cached? && next == upto
    ensures GridFits(was, now, cell, offset, t.End(), fs, next)
  {
    forall i | 0 <= i < |was|
      ensures CellFitsAt(was, now, cell, offset, t.End(), fs, next, i)
    {
      assert CellFitsAt(was, mid, cell, offset, t.offset, fs, upto, i);
      TouchedSnoc(offset, t.offset, t.length, i, cell);
      TouchedPart(offset, upto, t.offset, i, cell);
      BlamedIffMet(fs, i, cell);
    }
  }

  lemma {:induction false} TouchedPart(offset: nat, upto: nat, pos: nat, i: nat, cell: nat)
    requires cell > 0 && offset <= upto <= pos
    ensures Touched(offset, upto, i, cell) || Touched(upto, pos, i, cell) <==> Touched(offset, pos, i, cell)
  {
    if offset < upto && upto < pos {
      CellMono(offset, upto - 1, cell);
      CellStep(upto - 1, cell);
      CellMono(upto, pos - 1, cell);
    }
  }

  /** Promoting a span that meets every cell that waits for its flush greens exactly those: no failed and no
      untouched cell, and no other one is left waiting. */
  lemma {:induction false} GridPromoted(was: seq<CellStatus>, mid: seq<CellStatus>, now: seq<CellStatus>, cell: nat,
                                        offset: nat, pos: nat, span: Extent, fs: seq<Failure>, upto: nat)
    requires cell > 0 && offset <= span.offset < span.End() <= pos && offset <= upto <= pos
    requires GridFits(was, mid, cell, offset, pos, fs, upto) && MarkedBy(mid, now, cell, span, Ok)
    requires Waiting(span, cell, upto, pos, fs)
    ensures GridFits(was, now, cell, offset, pos, fs, pos)
  {
    forall i | 0 <= i < |was|
      ensures CellFitsAt(was, now, cell, offset, pos, fs, pos, i)
    {
      assert CellFitsAt(was, mid, cell, offset, pos, fs, upto, i);
      if Meets(span.offset, span.length, i, cell) {
        TouchedWithin(offset, pos, span.offset, span.End(), i, cell);
      }
      TouchedPart(offset, upto, pos, i, cell);
      BlamedIffMet(fs, i, cell);
    }
  }

  /** The span meets every cell of [upto, pos) that no failure is blamed for. */
  ghost predicate Waiting(span: Extent, cell: nat, upto: nat, pos: nat, fs: seq<Failure>)
    requires cell > 0
  {
    forall i: nat :: Touched(upto, pos, i, cell) && Blame(fs, i, cell).None? ==>
      span.length > 0 && Meets(span.offset, span.length, i, cell)
  }

  // ---- Flushes ----

  /** A probe that finds the span flushed, at a time when it may ask. */
  predicate SaysClean(probes: seq<Probe>, force: bool) {
    probes != [] && probes[0].state.Clean? && (force || probes[0].due)
  }

  /** How far everything is known to be flushed, whether chunks after that were written, and the probes left. */
  datatype Flush = Flush(upto: nat, waiting: bool, rest: seq<Probe>)

  /** Where cells go straight to Ok nothing waits. Elsewhere each good chunk is followed by a probe. */
  function FlushStep(f: Flush, t: Extent, o: Outcome, immediate: bool): Flush {
    if immediate then f.(upto := t.End())
    else if !o.Good? then f
    else if SaysClean(f.rest, false) then Flush(t.End(), false, Later(f.rest))
    else Flush(f.upto, true, Later(f.rest))
  }

  function Flushing(offset: nat, immediate: bool, probes: seq<Probe>, cs: seq<Extent>, os: seq<Outcome>): Flush
    requires |cs| == |os|
  {
    if cs == [] then Flush(offset, false, probes)
    else FlushStep(Flushing(offset, immediate, probes, DropLast(cs), DropLast(os)), Last(cs), Last(os), immediate)
  }

  /** At the end a last probe is made whatever the time, unless the run was stopped. */
  function FlushEnd(f: Flush, pos: nat, stopped: bool): Flush {
    if !f.waiting || stopped then f
    else if SaysClean(f.rest, true) then Flush(pos, false, Later(f.rest))
    else f.(rest := Later(f.rest))
  }

  /** The span of chunks written but not known to be flushed. */
  datatype CachedSpan = NoSpan | Span(lo: nat, hi: nat)

  /** Polls the flush state of a span and, when it is clean, marks it Ok. */
  method MaybePromote(dev: Device, span: Extent, progress: Progress, force: bool) returns (promoted: bool)
    requires progress.Valid()
    modifies dev`probes, progress`cells
    ensures promoted <==> span.length > 0 && SaysClean(old(dev.probes), force)
    ensures dev.probes == if span.length > 0 then Later(old(dev.probes)) else old(dev.probes)
    ensures promoted ==> MarkedBy(old(progress.cells), progress.cells, progress.cellSize, span, Ok)
    ensures !promoted ==> progress.cells == old(progress.cells)
  {
    if span.length == 0 {
      return false;
    }
    promoted := dev.ProbeClean(force);
    if promoted {
      progress.MarkCell(span.offset, span.length, Ok);
    }
  }

  /** The cached span with one more chunk. */
  ghost predicate SpanFits(span: CachedSpan, f: Flush, cell: nat, offset: nat, pos: nat, fs: seq<Failure>)
    requires cell > 0
  {
    && offset <= f.upto <= pos
    && (span.Span? <==> f.waiting)
    && (span.Span? ==> offset <= span.lo < span.hi <= pos)
    && Waiting(SpanExtent(span), cell, f.upto, pos, fs)
  }

  /** The range of a span; the empty one if there is none. */
  function SpanExtent(span: CachedSpan): Extent {
    if span.NoSpan? || span.hi < span.lo then Extent(0, 0) else Extent(span.lo, span.hi - span.lo)
  }

  lemma {:induction false} SpanStart(cell: nat, offset: nat, probes: seq<Probe>)
    requires cell > 0
    ensures SpanFits(NoSpan, Flush(offset, false, probes), cell, offset, offset, [])
  {
  }

  /** A span that was extended by a chunk meets all cells that wait. */
  lemma {:induction false} SpanGrows(span: CachedSpan, wide: CachedSpan, f: Flush, cell: nat, offset: nat, t: Extent,
                                     fs: seq<Failure>)
    requires cell > 0 && t.length > 0 && SpanFits(span, f, cell, offset, t.offset, fs)
    requires wide == Span(if span.Span? then span.lo else t.offset, t.End())
    ensures Waiting(SpanExtent(wide), cell, f.upto, t.End(), fs)
  {
    var e := SpanExtent(wide);
    forall i: nat | Touched(f.upto, t.End(), i, cell) && Blame(fs, i, cell).None?
      ensures Meets(e.offset, e.length, i, cell)
    {
      TouchedSnoc(f.upto, t.offset, t.length, i, cell);
      if Meets(t.offset, t.length, i, cell) {
        TouchedWithin(e.offset, e.End(), t.offset, t.End(), i, cell);
      } else if span.Span? {
        assert Touched(f.upto, t.offset, i, cell);
        TouchedWithin(e.offset, e.End(), span.lo, span.hi, i, cell);
      }
    }
  }

  /** After a failed chunk the same span meets them. */
  lemma {:induction false} SpanStays(span: CachedSpan, f: Flush, next: Flush, cell: nat, offset: nat, t: Extent,
                                     fs: seq<Failure>, bad: Failure)
    requires cell > 0 && t.length > 0 && SpanFits(span, f, cell, offset, t.offset, fs) && bad.at == t
    requires next == f || (!f.waiting && next == f.(upto := t.End()))
    ensures SpanFits(span, next, cell, offset, t.End(), fs + [bad])
  {
    var e := SpanExtent(span);
    assert DropLast(fs + [bad]) == fs;
    forall i: nat | Touched(next.upto, t.End(), i, cell) && Blame(fs + [bad], i, cell).None?
      ensures Meets(e.offset, e.length, i, cell)
    {
      TouchedSnoc(f.upto, t.offset, t.length, i, cell);
    }
  }

  lemma {:induction false} NoneWaits(cell: nat, pos: nat, fs: seq<Failure>)
    requires cell > 0
    ensures Waiting(Extent(0, 0), cell, pos, pos, fs)
  {
  }

  /** Marks a good chunk, remembers it as cached when it still has to be flushed, and polls. */
  method NoteGood(dev: Device, progress: Progress, t: Extent, flags: Flags, span0: CachedSpan,
                  ghost was: seq<CellStatus>, ghost offset: nat, ghost fs: seq<Failure>, ghost f: Flush)
    returns (span: CachedSpan)
    requires progress.Valid() && t.length > 0 && dev.probes == f.rest
    requires GridFits(was, progress.cells, progress.cellSize, offset, t.offset, fs, f.upto)
    requires SpanFits(span0, f, progress.cellSize, offset, t.offset, fs)
    requires flags.Immediate() ==> f.upto == t.offset && !f.waiting
    modifies dev`probes, progress`cells
    ensures var next := FlushStep(f, t, Good, flags.Immediate());
            && progress.Valid() && dev.probes == next.rest
            && GridFits(was, progress.cells, progress.cellSize, offset, t.End(), fs, next.upto)
            && SpanFits(span, next, progress.cellSize, offset, t.End(), fs)
  {
    span := span0;
    ghost var mid := progress.cells;
    var st := if flags.Immediate() then Ok else Cached;
    progress.MarkCell(t.offset, t.length, st);
    GridGood(was, mid, progress.cells, progress.cellSize, offset, t, fs, st, f.upto,
             if flags.Immediate() then t.End() else f.upto);
    if !flags.Immediate() {
      if span.NoSpan? {
        span := Span(t.offset, t.End());
      } else {
        var lo, hi := span.lo, span.hi;
        if t.offset < lo {
          lo := t.offset;
        }
        if t.End() > hi {
          hi := t.End();
        }
        span := Span(lo, hi);
      }
      SpanGrows(span0, span, f, progress.cellSize, offset, t, fs);
      var whole := Extent(span.lo, span.hi - span.lo);
      mid := progress.cells;
      var promoted := MaybePromote(dev, whole, progress, false);
      if promoted {
        GridPromoted(was, mid, progress.cells, progress.cellSize, offset, t.End(), whole, fs, f.upto);
        span := NoSpan;
        NoneWaits(progress.cellSize, t.End(), fs);
      }
    } else {
      NoneWaits(progress.cellSize, t.End(), fs);
    }
  }

  /** Logs a failed chunk. */
  method NoteFailure(progress: Progress, t: Extent, bad: Failure, ghost was: seq<CellStatus>, ghost offset: nat,
                     ghost fs: seq<Failure>, ghost upto: nat, ghost next: nat)
    requires progress.Valid() && t.length > 0 && offset <= upto <= t.offset && bad.at == t
    requires GridFits(was, progress.cells, progress.cellSize, offset, t.offset, fs, upto)
    requires next == upto || (upto == t.offset && next == t.End())
    modifies progress`cells, progress`logs
    ensures progress.Valid() && progress.logs == old(progress.logs) + LedgerLogs([bad])
    ensures GridFits(was, progress.cells, progress.cellSize, offset, t.End(), fs + [bad], next)
  {
    ghost var mid := progress.cells;
    progress.Log(t.offset, t.length, StatusOf(bad.kind));
    GridFailure(was, mid, progress.cells, progress.cellSize, offset, t, fs, bad, upto, next);
    assert DropLast([bad]) == [];
  }

  /** What does not change during a run, and a snapshot of what does. */
  datatype Config = Config(flags: Flags, hasDirect: bool, align: nat, cellSize: nat, bytesTotal: nat)
  datatype Snap = Snap(data: seq<byte>, ops: seq<Op>, replies: seq<Reply>, probes: seq<Probe>, cells: seq<CellStatus>,
                       bytesDone: nat, logs: seq<LogEntry>)

  ghost function ConfigOf(dev: Device, progress: Progress, flags: Flags): Config
    reads progress
  {
    Config(flags, dev.hasDirect, dev.align, progress.cellSize, progress.bytesTotal)
  }

  ghost function SnapOf(dev: Device, progress: Progress): Snap
    reads dev, progress
  {
    Snap(dev.data, dev.ops, dev.replies, dev.probes, progress.cells, progress.bytesDone, progress.logs)
  }

  /** The device saw exactly the transfers of these chunks with these outcomes, the outcomes are
      possible ones, and the errors are exactly the chunks that failed. */
  ghost predicate Transferred(flags: Flags, hasDirect: bool, align: nat, data: seq<byte>, was: seq<Op>, now: seq<Op>,
                              cs: seq<Extent>, os: seq<Outcome>, errors: seq<Failure>)
  {
    && |cs| == |os| && now == was + AllOps(flags, hasDirect, align, data, cs, os)
    && AllPossible(flags, align, data, cs, os) && errors == Ledger(cs, os)
  }

  ghost predicate Accounted(c: Config, start: Snap, now: Snap, cs: seq<Extent>, os: seq<Outcome>,
                            errors: seq<Failure>) {
    && now.data == start.data
    && Transferred(c.flags, c.hasDirect, c.align, start.data, start.ops, now.ops, cs, os, errors)
    && RunEnd(os, now.replies) == Answers(c.flags, c.hasDirect, c.align, start.data, start.replies, cs)
  }

  /** The byte count, the log and the grid after these chunks of [offset, ...), with these flushes. */
  ghost predicate Shown(c: Config, start: Snap, now: Snap, offset: nat, cs: seq<Extent>, errors: seq<Failure>, f: Flush)
    requires c.cellSize > 0
  {
    && now.probes == f.rest
    && now.bytesDone == Min(start.bytesDone + Total(cs), c.bytesTotal)
    && now.logs == start.logs + LedgerLogs(errors)
    && GridFits(start.cells, now.cells, c.cellSize, offset, offset + Total(cs), errors, f.upto)
  }

  function MoreOf(t: Extent, o: Outcome): (more: seq<Failure>)
    ensures |more| <= 1
  {
    if o.Good? then [] else [FailureOf(t, o)]
  }

  /** Only the device is accounted for. */
  lemma {:induction false} AccountedSame(c: Config, start: Snap, now: Snap, next: Snap, cs: seq<Extent>,
                                         os: seq<Outcome>, errors: seq<Failure>)
    requires Accounted(c, start, now, cs, os, errors)
    requires next.data == now.data && next.ops == now.ops && next.replies == now.replies
    ensures Accounted(c, start, next, cs, os, errors)
  {
  }

  lemma {:induction false} AccountedSnoc(c: Config, start: Snap, now: Snap, next: Snap, cs: seq<Extent>,
                                         os: seq<Outcome>, errors: seq<Failure>, t: Extent, o: Outcome)
    requires Accounted(c, start, now, cs, os, errors) && next.data == now.data && t.length > 0
    requires next.ops == now.ops + ChunkOps(c.flags, c.hasDirect, c.align, t, BytesAt(start.data, t), o)
    requires ChunkEnd(o, next.replies) == Processing(c.flags, c.hasDirect, c.align, start.data, now.replies, t)
    ensures Accounted(c, start, next, cs + [t], os + [o], errors + MoreOf(t, o))
  {
    ProcessingPossible(c.flags, c.hasDirect, c.align, start.data, now.replies, t);
    TransferredSnoc(c.flags, c.hasDirect, c.align, start.data, start.ops, now.ops, next.ops, cs, os, errors, t, o);
    AnswersSnoc(c.flags, c.hasDirect, c.align, start.data, start.replies, cs, os, now.replies, t,
                ChunkEnd(o, next.replies));
  }

  lemma {:induction false} TransferredSnoc(flags: Flags, hasDirect: bool, align: nat, data: seq<byte>, was: seq<Op>,
                                           now: seq<Op>, next: seq<Op>, cs: seq<Extent>, os: seq<Outcome>,
                                           errors: seq<Failure>, t: Extent, o: Outcome)
    requires Transferred(flags, hasDirect, align, data, was, now, cs, os, errors)
    requires next == now + ChunkOps(flags, hasDirect, align, t, BytesAt(data, t), o)
    requires Possible(flags, align, t, BytesAt(data, t), o) && (o.ReadFailed? || t.End() <= |data|)
    ensures Transferred(flags, hasDirect, align, data, was, next, cs + [t], os + [o], errors + MoreOf(t, o))
  {
    AccountSnoc(flags, hasDirect, align, data, cs, os, t, o);
    Associates(was, AllOps(flags, hasDirect, align, data, cs, os),
               ChunkOps(flags, hasDirect, align, t, BytesAt(data, t), o));
  }

  lemma {:induction false} ShownSnoc(c: Config, start: Snap, now: Snap, next: Snap, offset: nat, cs: seq<Extent>,
                                     errors: seq<Failure>, t: Extent, more: seq<Failure>, f: Flush, g: Flush)
    requires c.cellSize > 0 && Shown(c, start, now, offset, cs, errors, f) && t.offset == offset + Total(cs)
    requires next.bytesDone == Min(now.bytesDone + t.length, c.bytesTotal) && next.probes == g.rest
    requires next.logs == now.logs + LedgerLogs(more) && |more| <= 1
    requires GridFits(start.cells, next.cells, c.cellSize, offset, t.End(), errors + more, g.upto)
    ensures Shown(c, start, next, offset, cs + [t], errors + more, g)
  {
    BytesAppend(cs, [t]);
    TotalOne(t);
    if more == [] {
      assert errors + more == errors;
    } else {
      assert DropLast(errors + more) == errors && Last(errors + more) == more[0];
      assert DropLast(more) == [];
    }
  }

  /** Where cells go straight to Ok nothing is ever left to flush. */
  ghost predicate InTime(f: Flush, pos: nat, immediate: bool) {
    immediate ==> f.upto == pos && !f.waiting
  }

  /** Shows the outcome of one chunk: log, byte count and grid move on by it. */
  method ShowChunk(dev: Device, progress: Progress, t: Extent, o: Outcome, flags: Flags, span0: CachedSpan,
                   ghost start: Snap, ghost offset: nat, ghost cs: seq<Extent>, ghost errors0: seq<Failure>,
                   ghost f: Flush)
    returns (more: seq<Failure>, span: CachedSpan)
    requires t.length > 0 && t.offset == offset + Total(cs) && progress.Valid()
    requires InTime(f, t.offset, flags.Immediate())
    requires SpanFits(span0, f, progress.cellSize, offset, t.offset, errors0)
    requires Shown(ConfigOf(dev, progress, flags), start, SnapOf(dev, progress), offset, cs, errors0, f)
    modifies dev`probes, progress`cells, progress`logs, progress`bytesDone
    ensures progress.Valid() && more == MoreOf(t, o)
    ensures SpanFits(span, FlushStep(f, t, o, flags.Immediate()), progress.cellSize, offset, t.End(), errors0 + more)
    ensures Shown(ConfigOf(dev, progress, flags), start, SnapOf(dev, progress), offset, cs + [t], errors0 + more,
                  FlushStep(f, t, o, flags.Immediate()))
  {
    ghost var c, now := ConfigOf(dev, progress, flags), SnapOf(dev, progress);
    ghost var g := FlushStep(f, t, o, flags.Immediate());
    span := span0;
    if o.Good? {
      more := [];
      span := NoteGood(dev, progress, t, flags, span, start.cells, offset, errors0, f);
      assert errors0 + more == errors0;
    } else {
      more := [FailureOf(t, o)];
      NoteFailure(progress, t, more[0], start.cells, offset, errors0, f.upto, g.upto);
      SpanStays(span, f, g, progress.cellSize, offset, t, errors0, more[0]);
    }
    progress.AddDone(t.length);
    ShownSnoc(c, start, now, SnapOf(dev, progress), offset, cs, errors0, t, more, f, g);
  }

  /** Only the progress object and the probes show. */
  lemma {:induction false} ShownSame(c: Config, start: Snap, now: Snap, next: Snap, offset: nat, cs: seq<Extent>,
                                     errors: seq<Failure>, f: Flush)
    requires c.cellSize > 0 && Shown(c, start, now, offset, cs, errors, f) && next.probes == now.probes
    requires next.cells == now.cells && next.bytesDone == now.bytesDone && next.logs == now.logs
    ensures Shown(c, start, next, offset, cs, errors, f)
  {
  }

  /** Processes one chunk: the device, the ledger and the progress object all move on by it. */
  method RewriteChunk(dev: Device, progress: Progress, buf: array<byte>, verifyBuf: array<byte>, t: Extent,
                      flags: Flags, span0: CachedSpan, errors0: seq<Failure>, ghost c: Config, ghost start: Snap,
                      ghost now: Snap, ghost offset: nat, ghost cs: seq<Extent>, ghost os: seq<Outcome>)
    returns (errors: seq<Failure>, span: CachedSpan, ghost o: Outcome)
    requires 0 < t.length <= buf.Length && t.length <= verifyBuf.Length && buf != verifyBuf
    requires progress.Valid() && (flags.Verifies() ==> dev.hasDirect)
    requires c == ConfigOf(dev, progress, flags) && now == SnapOf(dev, progress)
    requires Ran(c, start, now, offset, t.offset, cs, os, errors0, span0)
    modifies dev, buf, verifyBuf, progress`cells, progress`logs, progress`bytesDone
    ensures progress.Valid()
    ensures Ran(c, start, SnapOf(dev, progress), offset, t.End(), cs + [t], os + [o], errors, span)
  {
    ghost var f := Flushing(offset, flags.Immediate(), start.probes, cs, os);
    var outcome := DoChunk(dev, buf, verifyBuf, t, flags);
    o := outcome;
    ghost var mid := SnapOf(dev, progress);
    AccountedSnoc(c, start, now, mid, cs, os, errors0, t, o);
    ShownSame(c, start, now, mid, offset, cs, errors0, f);
    var more;
    more, span := ShowChunk(dev, progress, t, outcome, flags, span0, start, offset, cs, errors0, f);
    errors := errors0 + more;
    AccountedSame(c, start, mid, SnapOf(dev, progress), cs + [t], os + [o], errors);
    RanOne(c, start, SnapOf(dev, progress), offset, cs, os, f, t, o, errors, span);
  }

  lemma {:induction false} TotalOne(t: Extent)
    ensures Total([t]) == t.length
  {
    assert DropLast([t]) == [];
  }

  lemma {:induction false} AccountSnoc(flags: Flags, hasDirect: bool, align: nat, data: seq<byte>, cs: seq<Extent>,
                                       os: seq<Outcome>, t: Extent, o: Outcome)
    requires |cs| == |os| && AllPossible(flags, align, data, cs, os)
    requires Possible(flags, align, t, BytesAt(data, t), o) && (o.ReadFailed? || t.End() <= |data|)
    ensures AllOps(flags, hasDirect, align, data, cs + [t], os + [o]) ==
            AllOps(flags, hasDirect, align, data, cs, os) + ChunkOps(flags, hasDirect, align, t, BytesAt(data, t), o)
    ensures Ledger(cs + [t], os + [o]) == Ledger(cs, os) + if o.Good? then [] else [FailureOf(t, o)]
    ensures AllPossible(flags, align, data, cs + [t], os + [o])
  {
    assert DropLast(cs + [t]) == cs && DropLast(os + [o]) == os;
  }

  /** The buffers and the direct descriptor a run needs. */
  predicate SetUp(dev: Device, flags: Flags, bufOk: bool, verifyBufOk: bool) {
    bufOk && (flags.verifyWrites && !flags.dryRun ==> verifyBufOk && dev.hasDirect)
  }

  /** What a run that cannot be set up leaves: nothing done, nothing listed. */
  twostate predicate NotRun(dev: Device, pause: PauseControl, progress: Progress)
    reads dev, pause, progress
  {
    && dev.ops == old(dev.ops)
    && progress.cells == old(progress.cells) && progress.bytesDone == old(progress.bytesDone)
    && progress.logs == old(progress.logs)
    && dev.replies == old(dev.replies) && dev.probes == old(dev.probes) && pause.Now() == old(pause.Now())
  }

  // ---- When nothing fails ----

  /** The writes of a run are not followed by fdatasync. */
  predicate NoSync(flags: Flags, hasDirect: bool, align: nat, t: Extent) {
    flags.dryRun || !flags.writeThrough
    || (hasDirect && t.offset % Alignment(align) == 0 && t.length % Alignment(align) == 0)
  }

  /** Every call moves something. */
  predicate AllMove(script: seq<Reply>) {
    forall i :: 0 <= i < |script| ==> script[i].Moved?
  }

  lemma {:induction false} MovesOn(script: seq<Reply>, rest: seq<Reply>)
    requires Consumed(script, rest) && AllMove(script)
    ensures AllMove(rest) && NoFault(false, script, rest)
  {
    forall i | 0 <= i < |rest| ensures rest[i].Moved? { assert rest[i] == script[|script| - |rest| + i]; }
  }

  /** A chunk that is not verified succeeds exactly when it lies inside the device and no reply it consumed is a
      fault, where its write is not followed by fdatasync. */
  lemma {:induction false} ChunkGoodIff(flags: Flags, hasDirect: bool, align: nat, data: seq<byte>,
                                        script: seq<Reply>, t: Extent)
    requires t.length > 0 && !flags.Verifies()
    ensures var e := Processing(flags, hasDirect, align, data, script, t);
            && Consumed(script, e.rest)
            && (NoSync(flags, hasDirect, align, t) ==>
                  (e.o.Good? <==> t.End() <= |data| && NoFault(false, script, e.rest)))
  {
    RangeRead(false, script, data, t.offset, t.length);
    var r := Reading(false, script, t.length, Tail(data, t.offset));
    if r.ok && !flags.dryRun {
      PuttingIff(HowToWrite(flags, hasDirect, align, t), hasDirect, r.rest, t.length);
      ConsumedBoth(script, r.rest, Processing(flags, hasDirect, align, data, script, t).rest);
    }
  }

  /** It always succeeds inside the device when every call moves something. */
  lemma {:induction false} ChunkMoves(flags: Flags, hasDirect: bool, align: nat, data: seq<byte>, script: seq<Reply>,
                                      t: Extent)
    requires 0 < t.length && t.End() <= |data| && !flags.Verifies() && AllMove(script)
    ensures Processing(flags, hasDirect, align, data, script, t).o.Good?
  {
    RangeRead(false, script, data, t.offset, t.length);
    var r := Reading(false, script, t.length, Tail(data, t.offset));
    MovesOn(script, r.rest);
    if !flags.dryRun {
      var w := Writing(r.rest, t.length);
      PuttingIff(HowToWrite(flags, hasDirect, align, t), hasDirect, r.rest, t.length);
      WritingIff(r.rest, t.length);
      MovesOn(r.rest, w.rest);
    }
  }

  lemma {:induction false} ConsumedBoth(script: seq<Reply>, mid: seq<Reply>, rest: seq<Reply>)
    requires Consumed(script, mid) && Consumed(mid, rest)
    ensures Consumed(script, rest)
    ensures NoFault(false, script, rest) <==> NoFault(false, script, mid) && NoFault(false, mid, rest)
  {
    var n := |script| - |mid|;
    forall i | 0 <= i < |mid| ensures mid[i] == script[n + i] { }
    if NoFault(false, script, rest) {
      forall i | 0 <= i < |mid| - |rest| ensures Fine(false, mid[i]) { assert Fine(false, script[n + i]); }
    }
    if NoFault(false, script, mid) && NoFault(false, mid, rest) {
      forall i | 0 <= i < |script| - |rest| ensures Fine(false, script[i]) {
        if i >= n { assert Fine(false, mid[i - n]); }
      }
    }
  }

  /** So does a whole run. */
  lemma {:induction false} RunGoodIff(flags: Flags, hasDirect: bool, align: nat, data: seq<byte>, script: seq<Reply>,
                                      cs: seq<Extent>)
    requires !flags.Verifies()
    requires forall i :: 0 <= i < |cs| ==>
               cs[i].length > 0 && cs[i].End() <= |data| && NoSync(flags, hasDirect, align, cs[i])
    ensures var e := Answers(flags, hasDirect, align, data, script, cs);
            |e.os| == |cs| && Consumed(script, e.rest) && (Ledger(cs, e.os) == [] <==> NoFault(false, script, e.rest))
  {
    if cs != [] {
      var front, t := DropLast(cs), Last(cs);
      assert cs[|cs| - 1] == t && forall i :: 0 <= i < |front| ==> front[i] == cs[i];
      RunGoodIff(flags, hasDirect, align, data, script, front);
      var e := Answers(flags, hasDirect, align, data, script, front);
      var x := Processing(flags, hasDirect, align, data, e.rest, t);
      ChunkGoodIff(flags, hasDirect, align, data, e.rest, t);
      ConsumedBoth(script, e.rest, x.rest);
      LedgerSnoc(front, e.os, t, x.o);
      SplitLast(cs);
    }
  }

  lemma {:induction false} RunMoves(flags: Flags, hasDirect: bool, align: nat, data: seq<byte>, script: seq<Reply>,
                                    cs: seq<Extent>)
    requires !flags.Verifies() && AllMove(script)
    requires forall i :: 0 <= i < |cs| ==> cs[i].length > 0 && cs[i].End() <= |data|
    ensures var e := Answers(flags, hasDirect, align, data, script, cs);
            |e.os| == |cs| && Consumed(script, e.rest) && Ledger(cs, e.os) == []
  {
    if cs != [] {
      var front, t := DropLast(cs), Last(cs);
      assert cs[|cs| - 1] == t && forall i :: 0 <= i < |front| ==> front[i] == cs[i];
      RunMoves(flags, hasDirect, align, data, script, front);
      var e := Answers(flags, hasDirect, align, data, script, front);
      var x := Processing(flags, hasDirect, align, data, e.rest, t);
      MovesOn(script, e.rest);
      ChunkMoves(flags, hasDirect, align, data, e.rest, t);
      ChunkGoodIff(flags, hasDirect, align, data, e.rest, t);
      ConsumedBoth(script, e.rest, x.rest);
      LedgerSnoc(front, e.os, t, x.o);
      SplitLast(cs);
    }
  }

  lemma {:induction false} LedgerSnoc(cs: seq<Extent>, os: seq<Outcome>, t: Extent, o: Outcome)
    requires |cs| == |os|
    ensures Ledger(cs + [t], os + [o]) == Ledger(cs, os) + if o.Good? then [] else [FailureOf(t, o)]
  {
    assert DropLast(cs + [t]) == cs && DropLast(os + [o]) == os;
  }

  /** Once the script is over, nothing fails but the verification of a chunk that is not aligned. */
  lemma {:induction false} QuietChunk(flags: Flags, hasDirect: bool, align: nat, data: seq<byte>, script: seq<Reply>,
                                      t: Extent)
    requires 0 < t.length && t.End() <= |data| && (flags.Verifies() ==> hasDirect) && script == []
    ensures Processing(flags, hasDirect, align, data, script, t) ==
            ChunkEnd(if flags.Verifies() && !IsAligned(t, align) then Unaligned else Good, [])
  {
    var tail := Tail(data, t.offset);
    QuietRead(false, script, t.length, tail);
    QuietRead(true, script, t.length, tail);
    assert tail[..t.length] == BytesAt(data, t);
    QuietWrite(HowToWrite(flags, hasDirect, align, t), hasDirect, script, t.length);
  }

  lemma {:induction false} QuietWrite(how: WriteHow, hasDirect: bool, script: seq<Reply>, left: nat)
    requires (how.Direct? ==> hasDirect) && script == []
    ensures Putting(how, hasDirect, script, left) == WriteEnd(true, left, script)
  {
    WritingIff(script, left);
  }

  lemma {:induction false} QuietRead(direct: bool, script: seq<Reply>, left: nat, tail: seq<byte>)
    requires left <= |tail| && script == []
    ensures Reading(direct, script, left, tail) == ReadEnd(true, tail[..left], [])
  {
    if left > 0 {
      var piece := Piece(direct, Moved(left, tail), left, tail);
      assert piece == tail[..left] && Before(piece, ReadEnd(true, [], [])).got == piece + [] == piece;
    }
  }

  /** The flushes of a run. */
  function Flushed(offset: nat, immediate: bool, probes: seq<Probe>, cs: seq<Extent>, os: seq<Outcome>,
                   stopped: bool): Flush
    requires |cs| == |os|
  {
    FlushEnd(Flushing(offset, immediate, probes, cs, os), offset + Total(cs), stopped)
  }

  /** Rewrites [offset, offset + length) block by block.

      For every kernel script the device keeps its bytes and its length. The run asks for a stop before each
      chunk; without a request the chunks processed are exactly the tiling of the range, and with one they are
      those begun before it. The outcome of each chunk is the one the kernel's script gives, the device sees
      exactly the transfers those chunks call for, the error list is exactly the failed chunks, the byte count
      grows by the bytes processed, and the grid is the image of the error list and of the flushes. A run that
      cannot be set up does nothing but fail. */
  method RewriteRange(dev: Device, offset: nat, length: nat, requested: nat, flags: Flags, pause: PauseControl,
                      progress: Progress, bufOk: bool, verifyBufOk: bool)
    returns (ok: bool, errors: seq<Failure>, ghost stopped: bool, ghost chunks: seq<Extent>,
             ghost outcomes: seq<Outcome>)
    requires progress.Valid()
    requires offset + length <= U64_MAX && requested + Alignment(dev.align) <= U64_MAX
    modifies dev, pause, progress`cells, progress`logs, progress`bytesDone
    ensures dev.data == old(dev.data) && progress.Valid()
    ensures ok <==> SetUp(dev, flags, bufOk, verifyBufOk) && !stopped && errors == []
    ensures !SetUp(dev, flags, bufOk, verifyBufOk) ==>
              chunks == [] && errors == [] && !stopped && NotRun(dev, pause, progress)
    ensures SetUp(dev, flags, bufOk, verifyBufOk) ==>
              StopsAt(chunks, Chunks(offset, offset + length, BlockSize(requested, dev.align, flags)), old(pause.Now()),
                      pause.Now(), stopped)
    ensures Done(ConfigOf(dev, progress, flags), old(SnapOf(dev, progress)), SnapOf(dev, progress), offset,
                 offset + length, chunks, outcomes, errors, stopped)
  {
    ghost var c, start := ConfigOf(dev, progress, flags), SnapOf(dev, progress);
    GridStart(progress.cells, progress.cellSize, offset);
    NothingRun(c, start, offset, offset + length, BlockSize(requested, dev.align, flags));
    if !bufOk || (flags.Verifies() && (!verifyBufOk || !dev.hasDirect)) {
      return false, [], false, [], [];
    }
    var wasStopped;
    ghost var now;
    wasStopped, errors, chunks, outcomes, now :=
      RewriteAll(dev, offset, offset + length, requested, flags, pause, progress, c, start,
                 Chunks(offset, offset + length, BlockSize(requested, dev.align, flags)));
    stopped, ok := wasStopped, errors == [] && !wasStopped;
  }

  /** When a run that does not verify has no failure: inside the device, and where no write is followed by
      fdatasync, exactly when no reply it consumed is a fault; and always when every call moves something. */
  ghost predicate FailsAsTold(flags: Flags, hasDirect: bool, align: nat, inside: bool, script: seq<Reply>,
                              rest: seq<Reply>, cs: seq<Extent>, errors: seq<Failure>)
  {
    !flags.Verifies() && inside ==>
      && ((forall i :: 0 <= i < |cs| ==> NoSync(flags, hasDirect, align, cs[i])) ==>
            Consumed(script, rest) && (errors == [] <==> NoFault(false, script, rest)))
      && (AllMove(script) ==> errors == [])
  }

  lemma {:induction false} ToldFailures(c: Config, start: Snap, now: Snap, end: nat, cs: seq<Extent>, all: seq<Extent>,
                                        os: seq<Outcome>, errors: seq<Failure>)
    requires Accounted(c, start, now, cs, os, errors) && cs <= all
    requires forall i :: 0 <= i < |all| ==> 0 < all[i].length && all[i].End() <= end
    ensures FailsAsTold(c.flags, c.hasDirect, c.align, end <= |start.data|, start.replies, now.replies, cs, errors)
  {
    if !c.flags.Verifies() && end <= |start.data| {
      forall i | 0 <= i < |cs| ensures 0 < cs[i].length && cs[i].End() <= |start.data| { assert cs[i] == all[i]; }
      ToldInside(c.flags, c.hasDirect, c.align, start.data, start.replies, now.replies, cs, os);
    }
  }

  lemma {:induction false} ToldInside(flags: Flags, hasDirect: bool, align: nat, data: seq<byte>, script: seq<Reply>,
                                      rest: seq<Reply>, cs: seq<Extent>, os: seq<Outcome>)
    requires RunEnd(os, rest) == Answers(flags, hasDirect, align, data, script, cs) && |cs| == |os| && !flags.Verifies()
    requires forall i :: 0 <= i < |cs| ==> 0 < cs[i].length && cs[i].End() <= |data|
    ensures FailsAsTold(flags, hasDirect, align, true, script, rest, cs, Ledger(cs, os))
  {
    if forall i :: 0 <= i < |cs| ==> NoSync(flags, hasDirect, align, cs[i]) {
      RunGoodIff(flags, hasDirect, align, data, script, cs);
    }
    if AllMove(script) { RunMoves(flags, hasDirect, align, data, script, cs); }
  }

  lemma {:induction false} ChunksInside(pos: nat, end: nat, block: nat)
    requires block > 0
    ensures forall i :: 0 <= i < |Chunks(pos, end, block)| ==>
              0 < Chunks(pos, end, block)[i].length && Chunks(pos, end, block)[i].End() <= end
    decreases end - pos
  {
    if pos < end { ChunksInside(pos + Min(block, end - pos), end, block); }
  }

  /** The chunk loop and the last poll. */
  method RewriteAll(dev: Device, offset: nat, end: nat, requested: nat, flags: Flags, pause: PauseControl,
                    progress: Progress, ghost c: Config, ghost start: Snap, ghost all: seq<Extent>)
    returns (stopped: bool, errors: seq<Failure>, ghost chunks: seq<Extent>, ghost outcomes: seq<Outcome>,
             ghost now: Snap)
    requires progress.Valid() && c == ConfigOf(dev, progress, flags) && start == SnapOf(dev, progress) && offset <= end
    requires flags.Verifies() ==> dev.hasDirect
    requires Ran(c, start, start, offset, offset, [], [], [], NoSpan)
    requires TiledTo([], offset, end, BlockSize(requested, dev.align, flags), offset)
    requires all == Chunks(offset, end, BlockSize(requested, dev.align, flags))
    modifies dev, pause, progress`cells, progress`logs, progress`bytesDone
    ensures progress.Valid() && now == SnapOf(dev, progress) && c == ConfigOf(dev, progress, flags)
    ensures StopsAt(chunks, all, old(pause.Now()), pause.Now(), stopped)
    ensures Done(c, start, now, offset, end, chunks, outcomes, errors, stopped)
  {
    var block := BlockSize(requested, dev.align, flags);
    var buf, verifyBuf := new byte[block], new byte[block];
    var span;
    ghost var mid, reached;
    stopped, errors, span, chunks, outcomes, mid, reached :=
      RewriteLoop(dev, offset, end, requested, flags, pause, progress, buf, verifyBuf, c, start, all);
    now := LastPoll(dev, progress, span, stopped, c, start, mid, offset, reached, end, block, chunks, all, outcomes,
                    errors);
  }

  /** The poll after the loop, unless the run was stopped or nothing is left to flush. */
  method LastPoll(dev: Device, progress: Progress, span: CachedSpan, stopped: bool, ghost c: Config, ghost start: Snap,
                  ghost mid: Snap, ghost offset: nat, ghost at: nat, ghost end: nat, ghost block: nat,
                  ghost cs: seq<Extent>, ghost all: seq<Extent>, ghost os: seq<Outcome>, ghost errors: seq<Failure>)
    returns (ghost now: Snap)
    requires progress.Valid() && mid == SnapOf(dev, progress) && c == ConfigOf(dev, progress, c.flags)
    requires Ran(c, start, mid, offset, at, cs, os, errors, span)
    requires block > 0 && cs <= all == Chunks(offset, end, block)
    modifies dev`probes, progress`cells
    ensures progress.Valid() && now == SnapOf(dev, progress) && c == ConfigOf(dev, progress, c.flags)
    ensures Done(c, start, now, offset, end, cs, os, errors, stopped)
  {
    ChunksInside(offset, end, block);
    now := mid;
    if span.Span? && !stopped {
      now := FinalPromote(dev, progress, span, c, mid);
    }
    IsDone(c, start, mid, now, offset, at, end, cs, all, os, errors, span, stopped);
  }

  /** What a run that was set up has done: the account of the device, what is shown, and when it fails. */
  ghost predicate Done(c: Config, start: Snap, now: Snap, offset: nat, end: nat, cs: seq<Extent>, os: seq<Outcome>,
                       errors: seq<Failure>, stopped: bool)
  {
    && c.cellSize > 0 && Accounted(c, start, now, cs, os, errors)
    && Shown(c, start, now, offset, cs, errors, Flushed(offset, c.flags.Immediate(), start.probes, cs, os, stopped))
    && UptoFits(Flushed(offset, c.flags.Immediate(), start.probes, cs, os, stopped).upto, offset, cs,
                c.flags.Immediate())
    && FailsAsTold(c.flags, c.hasDirect, c.align, end <= |start.data|, start.replies, now.replies, cs, errors)
  }

  /** What is flushed lies in the range, and is all of it where cells go straight to Ok. */
  predicate UptoFits(upto: nat, offset: nat, cs: seq<Extent>, immediate: bool) {
    offset <= upto <= offset + Total(cs) && (immediate ==> upto == offset + Total(cs))
  }

  /** The last poll was made if something was still to be flushed and the run was not stopped. */
  lemma {:induction false} IsDone(c: Config, start: Snap, mid: Snap, now: Snap, offset: nat, at: nat, end: nat,
                                  cs: seq<Extent>, all: seq<Extent>, os: seq<Outcome>, errors: seq<Failure>,
                                  span: CachedSpan, stopped: bool)
    requires Ran(c, start, mid, offset, at, cs, os, errors, span) && cs <= all
    requires forall i :: 0 <= i < |all| ==> 0 < all[i].length && all[i].End() <= end
    requires if span.Span? && !stopped then IsPolled(c, mid, now, span) else now == mid
    ensures Done(c, start, now, offset, end, cs, os, errors, stopped)
  {
    if span.Span? && !stopped {
      Polled(c, start, mid, now, offset, at, cs, os, errors, span);
    } else {
      NoPromote(c, start, mid, offset, at, cs, os, errors, span, stopped);
    }
    ToldFailures(c, start, now, end, cs, all, os, errors);
  }

  lemma {:induction false} AskedSum(s: Switch, m: nat, n: nat)
    ensures s.Asked(m).Asked(n) == s.Asked(m + n)
    ensures s.Asked(m).StopBy(n) <==> s.StopBy(m + n)
  {
    if n > 0 { AskedSum(s, m, n - 1); }
    AskedIff(s.Asked(m), n);
    AskedIff(s, m + n);
  }

  /** The chunks begun are the first ones of a tiling, and a request is asked for before each. Either all were
      begun, or one was there exactly at the next time. */
  ghost predicate BegunUntil(chunks: seq<Extent>, all: seq<Extent>, was: Switch) {
    && chunks <= all
    && (chunks != [] ==> !was.StopBy(|chunks|))
    && (|chunks| < |all| ==> was.StopBy(|chunks| + 1))
  }

  ghost predicate StopsAt(chunks: seq<Extent>, all: seq<Extent>, was: Switch, now: Switch, stopped: bool) {
    && BegunUntil(chunks, all, was) && (stopped <==> |chunks| < |all|)
    && now == was.Asked(|chunks| + if stopped then 1 else 0)
  }

  /** The chunk loop. A stop request ends it with the chunks begun so far done. */
  method RewriteLoop(dev: Device, offset: nat, end: nat, requested: nat, flags: Flags, pause: PauseControl,
                     progress: Progress, buf: array<byte>, verifyBuf: array<byte>, ghost c: Config, ghost start: Snap,
                     ghost all: seq<Extent>)
    returns (stopped: bool, errors: seq<Failure>, span: CachedSpan, ghost chunks: seq<Extent>,
             ghost outcomes: seq<Outcome>, ghost now: Snap, ghost reached: nat)
    requires progress.Valid() && offset <= end && c == ConfigOf(dev, progress, flags) && start == SnapOf(dev, progress)
    requires buf.Length == verifyBuf.Length == BlockSize(requested, dev.align, flags) && buf != verifyBuf
    requires flags.Verifies() ==> dev.hasDirect
    requires Ran(c, start, start, offset, offset, [], [], [], NoSpan) && TiledTo([], offset, end, buf.Length, offset)
    requires all == Chunks(offset, end, buf.Length)
    modifies dev, pause, progress`cells, progress`logs, progress`bytesDone, buf, verifyBuf
    ensures progress.Valid() && now == SnapOf(dev, progress) && c == ConfigOf(dev, progress, flags)
    ensures StopsAt(chunks, all, old(pause.Now()), pause.Now(), stopped)
    ensures Ran(c, start, now, offset, reached, chunks, outcomes, errors, span)
  {
    stopped, errors, span, chunks, outcomes, now, reached := false, [], NoSpan, [], [], start, offset;
    ghost var was := pause.Now();
    var at := offset;
    while at < end
      invariant at == reached && !stopped && Going(was, pause.Now(), |chunks|)
      invariant progress.Valid() && c == ConfigOf(dev, progress, flags) && now == SnapOf(dev, progress)
      invariant TiledTo(chunks, offset, end, buf.Length, at)
      invariant Ran(c, start, now, offset, at, chunks, outcomes, errors, span)
      decreases end - at
    {
      ghost var before := pause.Now();
      var go := pause.WaitIfPaused();
      if !go {
        StoppedAt(chunks, offset, end, buf.Length, at, was, before, pause.Now());
        stopped := true;
        return;
      }
      GoesOn(was, before, pause.Now(), |chunks|);
      errors, span, at, chunks, outcomes, now :=
        RewriteNext(dev, progress, buf, verifyBuf, at, end, requested, flags, span, errors, c, start, now, offset,
                    chunks, outcomes);
      reached := at;
    }
    AllRun(chunks, offset, end, buf.Length, at, was, pause.Now());
  }

  /** One turn of the loop, from `at0` on. */
  method RewriteNext(dev: Device, progress: Progress, buf: array<byte>, verifyBuf: array<byte>, at0: nat, end: nat,
                     requested: nat, flags: Flags, span0: CachedSpan, errors0: seq<Failure>, ghost c: Config,
                     ghost start: Snap, ghost was: Snap, ghost offset: nat, ghost cs: seq<Extent>,
                     ghost os: seq<Outcome>)
    returns (errors: seq<Failure>, span: CachedSpan, at: nat, ghost chunks: seq<Extent>, ghost outcomes: seq<Outcome>,
             ghost now: Snap)
    requires buf.Length == verifyBuf.Length == BlockSize(requested, dev.align, flags) && buf != verifyBuf
    requires progress.Valid() && (flags.Verifies() ==> dev.hasDirect) && at0 < end
    requires c == ConfigOf(dev, progress, flags) && was == SnapOf(dev, progress)
    requires Ran(c, start, was, offset, at0, cs, os, errors0, span0) && TiledTo(cs, offset, end, buf.Length, at0)
    modifies dev, buf, verifyBuf, progress`cells, progress`logs, progress`bytesDone
    ensures progress.Valid() && now == SnapOf(dev, progress) && c == ConfigOf(dev, progress, flags)
    ensures at0 < at <= end && |chunks| == |cs| + 1 && TiledTo(chunks, offset, end, buf.Length, at)
    ensures Ran(c, start, now, offset, at, chunks, outcomes, errors, span)
  {
    NothingToTrim(at0, end, requested, dev.align, flags);
    var chunk := NextChunk(at0, end, buf.Length, dev.align, flags);
    var t := Extent(at0, chunk);
    TakeChunk(cs, offset, end, buf.Length, at0, t);
    ghost var o;
    errors, span, o :=
      RewriteChunk(dev, progress, buf, verifyBuf, t, flags, span0, errors0, c, start, was, offset, cs, os);
    at, chunks, outcomes, now := t.End(), cs + [t], os + [o], SnapOf(dev, progress);
  }

  /** No request was there the n times the run has asked. */
  ghost predicate Going(was: Switch, now: Switch, n: nat) {
    now == was.Asked(n) && (n > 0 ==> !now.stop)
  }

  lemma {:induction false} GoesOn(was: Switch, before: Switch, now: Switch, n: nat)
    requires Going(was, before, n) && now == before.Ask() && !now.stop
    ensures Going(was, now, n + 1)
  {
  }

  /** A stop request before the next chunk. */
  lemma {:induction false} StoppedAt(cs: seq<Extent>, offset: nat, end: nat, block: nat, at: nat, was: Switch,
                                     before: Switch, now: Switch)
    requires TiledTo(cs, offset, end, block, at) && at < end
    requires Going(was, before, |cs|) && now == before.Ask() && now.stop
    ensures StopsAt(cs, Chunks(offset, end, block), was, now, true)
  {
    AskedIff(was, |cs|);
    AskedIff(was, |cs| + 1);
    assert |Chunks(at, end, block)| > 0;
  }

  lemma {:induction false} AllRun(cs: seq<Extent>, offset: nat, end: nat, block: nat, at: nat, was: Switch, now: Switch)
    requires TiledTo(cs, offset, end, block, at) && at >= end && Going(was, now, |cs|)
    ensures StopsAt(cs, Chunks(offset, end, block), was, now, false)
  {
    AskedIff(was, |cs|);
  }

  /** The chunks taken, with the tiling of what is left, are the whole tiling. */
  ghost predicate TiledTo(cs: seq<Extent>, offset: nat, end: nat, block: nat, at: nat) {
    block > 0 && at == offset + Total(cs) && cs + Chunks(at, end, block) == Chunks(offset, end, block)
  }

  lemma {:induction false} TakeChunk(cs: seq<Extent>, offset: nat, end: nat, block: nat, at: nat, t: Extent)
    requires TiledTo(cs, offset, end, block, at) && at < end && t == Extent(at, Min(block, end - at))
    ensures TiledTo(cs + [t], offset, end, block, t.End())
  {
    BytesAppend(cs, [t]);
    TotalOne(t);
    var rest := Chunks(t.End(), end, block);
    assert Chunks(at, end, block) == [t] + rest;
    Associates(cs, [t], rest);
  }

  /** The state of a run that has reached byte `at`. */
  ghost predicate Ran(c: Config, start: Snap, now: Snap, offset: nat, at: nat, cs: seq<Extent>, os: seq<Outcome>,
                      errors: seq<Failure>, span: CachedSpan)
  {
    && c.cellSize > 0 && |cs| == |os| && at == offset + Total(cs)
    && var f := Flushing(offset, c.flags.Immediate(), start.probes, cs, os);
       && InTime(f, at, c.flags.Immediate()) && SpanFits(span, f, c.cellSize, offset, at, errors)
       && Accounted(c, start, now, cs, os, errors) && Shown(c, start, now, offset, cs, errors, f)
  }

  lemma {:induction false} RanOne(c: Config, start: Snap, now: Snap, offset: nat, cs: seq<Extent>, os: seq<Outcome>,
                                  f: Flush, t: Extent, o: Outcome, errors: seq<Failure>, span: CachedSpan)
    requires c.cellSize > 0 && |cs| == |os| && f == Flushing(offset, c.flags.Immediate(), start.probes, cs, os)
    requires t.offset == offset + Total(cs) && InTime(f, t.offset, c.flags.Immediate())
    requires SpanFits(span, FlushStep(f, t, o, c.flags.Immediate()), c.cellSize, offset, t.End(), errors)
    requires Accounted(c, start, now, cs + [t], os + [o], errors)
    requires Shown(c, start, now, offset, cs + [t], errors, FlushStep(f, t, o, c.flags.Immediate()))
    ensures Ran(c, start, now, offset, t.End(), cs + [t], os + [o], errors, span)
  {
    BytesAppend(cs, [t]);
    TotalOne(t);
    FlushingSnoc(offset, c.flags.Immediate(), start.probes, cs, os, t, o);
  }

  lemma {:induction false} FlushingSnoc(offset: nat, immediate: bool, probes: seq<Probe>, cs: seq<Extent>,
                                        os: seq<Outcome>, t: Extent, o: Outcome)
    requires |cs| == |os|
    ensures Flushing(offset, immediate, probes, cs + [t], os + [o]) ==
            FlushStep(Flushing(offset, immediate, probes, cs, os), t, o, immediate)
  {
    assert DropLast(cs + [t]) == cs && DropLast(os + [o]) == os;
  }

  lemma {:induction false} NothingRun(c: Config, start: Snap, offset: nat, end: nat, block: nat)
    requires c.cellSize > 0 && start.bytesDone <= c.bytesTotal && block > 0
    requires GridFits(start.cells, start.cells, c.cellSize, offset, offset, [], offset)
    ensures Ran(c, start, start, offset, offset, [], [], [], NoSpan) && TiledTo([], offset, end, block, offset)
    ensures Done(c, start, start, offset, end, [], [], [], false)
  {
    assert start.ops + [] == start.ops && start.logs + [] == start.logs;
    assert [] + Chunks(offset, end, block) == Chunks(offset, end, block);
    SpanStart(c.cellSize, offset, start.probes);
  }

  /** Without a last poll the run shows what the loop left. */
  lemma {:induction false} NoPromote(c: Config, start: Snap, now: Snap, offset: nat, at: nat, cs: seq<Extent>,
                                     os: seq<Outcome>, errors: seq<Failure>, span: CachedSpan, stopped: bool)
    requires Ran(c, start, now, offset, at, cs, os, errors, span) && (span.NoSpan? || stopped)
    ensures Accounted(c, start, now, cs, os, errors)
    ensures Shown(c, start, now, offset, cs, errors,
                  Flushed(offset, c.flags.Immediate(), start.probes, cs, os, stopped))
  {
  }

  /** What the last poll leaves: if it finds the span flushed, all of the range is. */
  ghost predicate IsPolled(c: Config, now: Snap, next: Snap, span: CachedSpan)
    requires c.cellSize > 0
  {
    && next == now.(cells := next.cells, probes := Later(now.probes))
    && if SaysClean(now.probes, true) then MarkedBy(now.cells, next.cells, c.cellSize, SpanExtent(span), Ok)
       else next.cells == now.cells
  }

  lemma {:induction false} Polled(c: Config, start: Snap, now: Snap, next: Snap, offset: nat, at: nat, cs: seq<Extent>,
                                  os: seq<Outcome>, errors: seq<Failure>, span: CachedSpan)
    requires Ran(c, start, now, offset, at, cs, os, errors, span) && span.Span? && IsPolled(c, now, next, span)
    ensures Accounted(c, start, next, cs, os, errors)
    ensures Shown(c, start, next, offset, cs, errors, Flushed(offset, c.flags.Immediate(), start.probes, cs, os, false))
  {
    AccountedSame(c, start, now, next, cs, os, errors);
    ShownPolled(c, start, now, next, offset, at, cs, errors,
                Flushing(offset, c.flags.Immediate(), start.probes, cs, os), span);
  }

  lemma {:induction false} ShownPolled(c: Config, start: Snap, now: Snap, next: Snap, offset: nat, at: nat,
                                       cs: seq<Extent>, errors: seq<Failure>, f: Flush, span: CachedSpan)
    requires c.cellSize > 0 && at == offset + Total(cs) && SpanFits(span, f, c.cellSize, offset, at, errors)
    requires Shown(c, start, now, offset, cs, errors, f) && span.Span? && IsPolled(c, now, next, span)
    ensures Shown(c, start, next, offset, cs, errors, FlushEnd(f, at, false))
  {
    if SaysClean(now.probes, true) {
      GridPromoted(start.cells, now.cells, next.cells, c.cellSize, offset, at, SpanExtent(span), errors, f.upto);
    }
  }

  /** The last poll of a run, made whatever the time. */
  method FinalPromote(dev: Device, progress: Progress, span: CachedSpan, ghost c: Config, ghost now: Snap)
    returns (ghost next: Snap)
    requires progress.Valid() && span.Span? && span.lo < span.hi
    requires now == SnapOf(dev, progress) && c == ConfigOf(dev, progress, c.flags)
    modifies dev`probes, progress`cells
    ensures progress.Valid() && next == SnapOf(dev, progress) && c == ConfigOf(dev, progress, c.flags)
    ensures IsPolled(c, now, next, span)
  {
    var promoted := MaybePromote(dev, Extent(span.lo, span.hi - span.lo), progress, true);
    next := SnapOf(dev, progress);
  }
}
