/** The target device: system calls with an adversarial kernel, and exact transfers on top of them
    (src/io/device.cpp). */
module Devices {
  import opened Extents

  /** What the kernel does with one system call: interrupt it, fail it (a failing write may have
      stored a prefix), report end of file, or move some bytes. A direct read returns whatever the
      medium holds, which need not be what the page cache holds. */
  datatype Reply = Interrupted | Failed(stored: nat) | Eof | Moved(n: nat, media: seq<byte>)

  datatype FlushState = Dirty | Clean | Unknown

  /** A flush probe: whether the poll interval has passed, and what the kernel answers. */
  datatype Probe = Probe(due: bool, state: FlushState)

  datatype WriteHow = Plain | Sync | Direct

  /** The transfers the device was asked for, in order, with the bytes that were handed over. */
  datatype Op =
    | ReadOp(at: Extent, ok: bool)
    | WriteOp(how: WriteHow, offset: nat, bytes: seq<byte>, ok: bool)
    | DirectReadOp(at: Extent, ok: bool, bytes: seq<byte>)

  function Zeros(n: nat): (r: seq<byte>)
    ensures |r| == n
  {
    seq(n, _ => 0)
  }

  /** The contents after storing `s` at `off`; a regular file grows when the end is passed. */
  function Overlay(d: seq<byte>, off: nat, s: seq<byte>): seq<byte> {
    if s == [] then d
    else if off + |s| <= |d| then d[..off] + s + d[off + |s|..]
    else if off <= |d| then d[..off] + s
    else d + Zeros(off - |d|) + s
  }

  /** `now` is `was` with the first n bytes of `bytes` stored at `off`. */
  ghost predicate Stored(was: seq<byte>, now: seq<byte>, off: nat, bytes: seq<byte>, n: nat) {
    && n <= |bytes|
    && |now| == (if n == 0 || off + n <= |was| then |was| else off + n)
    && forall i :: 0 <= i < |now| ==>
         now[i] == if off <= i < off + n then bytes[i - off] else if i < |was| then was[i] else 0
  }

  lemma {:induction false} OverlayStores(d: seq<byte>, off: nat, bytes: seq<byte>, n: nat)
    requires n <= |bytes|
    ensures Stored(d, Overlay(d, off, bytes[..n]), off, bytes, n)
  {
  }

  /** Storing two adjacent pieces one after the other is storing them together. */
  lemma {:induction false} StoreMore(was: seq<byte>, mid: seq<byte>, now: seq<byte>, off: nat, bytes: seq<byte>,
                                     done: nat, more: nat)
    requires Stored(was, mid, off, bytes, done) && Stored(mid, now, off + done, bytes[done..], more)
    ensures Stored(was, now, off, bytes, done + more)
  {
  }

  /** Storing bytes that are already there, however many of them, changes nothing. */
  lemma {:induction false} StoredSame(was: seq<byte>, now: seq<byte>, off: nat, len: nat, n: nat)
    requires off + len <= |was| && Stored(was, now, off, was[off..off + len], n)
    ensures now == was
  {
  }

  /** The bytes of a range that lies inside the contents. */
  function BytesAt(d: seq<byte>, t: Extent): seq<byte> {
    if t.End() <= |d| then d[t.offset..t.End()] else []
  }

  // ---- Scripts ----

  /** The contents from a place on. */
  function Tail(d: seq<byte>, off: nat): seq<byte> {
    if off <= |d| then d[off..] else []
  }

  lemma {:induction false} TailTail(d: seq<byte>, off: nat, n: nat)
    ensures Tail(Tail(d, off), n) == Tail(d, off + n)
  {
  }

  /** The kernel's next answer; once the script is over everything moves, and the medium holds what the
      device holds. */
  function NextOf(script: seq<Reply>, left: nat, tail: seq<byte>): Reply {
    if script == [] then Moved(left, tail) else script[0]
  }

  /** The bytes that one read call moves, given how many are wanted and what the device has there. */
  function Piece(direct: bool, r: Reply, left: nat, tail: seq<byte>): seq<byte> {
    match r
    case Moved(m, media) =>
      var source := if direct then media else tail;
      source[..Min(Min(if m > 0 then m else 1, left), |source|)]
    case _ => []
  }

  /** How an exact read ends: the bytes it got and what is left of the script. */
  datatype ReadEnd = ReadEnd(ok: bool, got: seq<byte>, rest: seq<Reply>)

  /** Reads on after interruptions and short transfers until all is there; an error, the end of the file
      and a call that moves nothing end it. */
  function Reading(direct: bool, script: seq<Reply>, left: nat, tail: seq<byte>): ReadEnd
    decreases |script|, left
  {
    if left == 0 then ReadEnd(true, [], script)
    else
      var r := NextOf(script, left, tail);
      var piece := Piece(direct, r, left, tail);
      if r.Interrupted? then Reading(direct, Later(script), left, tail)
      else if piece == [] then ReadEnd(false, [], Later(script))
      else Before(piece, Reading(direct, Later(script), left - |piece|, Tail(tail, |piece|)))
  }

  function Before(piece: seq<byte>, e: ReadEnd): ReadEnd {
    e.(got := piece + e.got)
  }

  /** A reply that is no fault: the call was interrupted, or moved at least a byte. */
  predicate Fine(direct: bool, r: Reply) {
    r.Interrupted? || (r.Moved? && (direct ==> r.media != []))
  }

  /** `rest` is the end of a script; the replies before it were consumed. */
  predicate Consumed(script: seq<Reply>, rest: seq<Reply>) {
    |rest| <= |script| && rest == script[|script| - |rest|..]
  }

  /** None of the consumed replies is a fault. */
  predicate NoFault(direct: bool, script: seq<Reply>, rest: seq<Reply>) {
    forall i :: 0 <= i < |script| - |rest| ==> Fine(direct, script[i])
  }

  lemma {:induction false} OneConsumed(direct: bool, script: seq<Reply>, rest: seq<Reply>)
    requires Consumed(Later(script), rest)
    ensures Consumed(script, rest)
    ensures NoFault(direct, script, rest) <==>
            (script != [] ==> Fine(direct, script[0])) && NoFault(direct, Later(script), rest)
  {
    if script != [] {
      var later := script[1..];
      if NoFault(direct, script, rest) {
        forall i | 0 <= i < |later| - |rest| ensures Fine(direct, later[i]) { assert later[i] == script[i + 1]; }
      }
      if Fine(direct, script[0]) && NoFault(direct, later, rest) {
        forall i | 0 <= i < |script| - |rest| ensures Fine(direct, script[i]) {
          if i > 0 { assert script[i] == later[i - 1]; }
        }
      }
    }
  }

  /** An end that a read can have: inside the device it succeeds exactly when no reply it consumed is a fault.
      Through the page cache it gets the device's bytes, and beyond the end it fails. */
  ghost predicate EndsWell(direct: bool, script: seq<Reply>, left: nat, tail: seq<byte>, e: ReadEnd) {
    && Consumed(script, e.rest)
    && (left <= |tail| ==> (e.ok <==> NoFault(direct, script, e.rest)))
    && (e.ok ==> |e.got| == left)
    && (!direct ==> e.got <= tail)
  }

  lemma {:induction false} ReadingIff(direct: bool, script: seq<Reply>, left: nat, tail: seq<byte>)
    ensures EndsWell(direct, script, left, tail, Reading(direct, script, left, tail))
    decreases |script|, left
  {
    var r := NextOf(script, left, tail);
    var piece := Piece(direct, r, left, tail);
    if left > 0 {
      if r.Interrupted? {
        ReadingIff(direct, Later(script), left, tail);
        OneConsumed(direct, script, Reading(direct, Later(script), left, tail).rest);
      } else if piece == [] {
        OneConsumed(direct, script, Later(script));
      } else {
        ReadingIff(direct, Later(script), left - |piece|, Tail(tail, |piece|));
        MoreRead(direct, script, left, tail, r, piece,
                 Reading(direct, Later(script), left - |piece|, Tail(tail, |piece|)));
      }
    }
  }

  lemma {:induction false} MoreRead(direct: bool, script: seq<Reply>, left: nat, tail: seq<byte>, r: Reply,
                                    piece: seq<byte>, more: ReadEnd)
    requires r == NextOf(script, left, tail) && !r.Interrupted? && piece == Piece(direct, r, left, tail) != []
    requires |piece| <= left && EndsWell(direct, Later(script), left - |piece|, Tail(tail, |piece|), more)
    ensures EndsWell(direct, script, left, tail, Before(piece, more))
  {
    OneConsumed(direct, script, more.rest);
    if !direct { GotMore(piece, more.got, tail); }
  }

  /** A read under way: what it has got, the rest of the script, and what is still to come. */
  datatype ReadState = ReadState(direct: bool, got: seq<byte>, rest: seq<Reply>, left: nat, tail: seq<byte>) {
    function End(): ReadEnd { Before(got, Reading(direct, rest, left, tail)) }

    /** The state after a call that moved `piece`. */
    function Moved(piece: seq<byte>): ReadState
      requires |piece| <= left
    {
      ReadState(direct, got + piece, Later(rest), left - |piece|, Tail(tail, |piece|))
    }
  }

  /** What one read call does: its result, the bytes moved, and the script after it. */
  datatype Call = Call(n: int, intr: bool, piece: seq<byte>, rest: seq<Reply>)

  function ReadResult(direct: bool, script: seq<Reply>, left: nat, tail: seq<byte>): Call {
    var r := NextOf(script, left, tail);
    var piece := Piece(direct, r, left, tail);
    Call(if r.Interrupted? || r.Failed? then -1 else |piece|, r.Interrupted?, piece, Later(script))
  }

  lemma {:induction false} ReadCall(s: ReadState, n: int, intr: bool, piece: seq<byte>, rest: seq<Reply>)
    requires Call(n, intr, piece, rest) == ReadResult(s.direct, s.rest, s.left, s.tail) && s.left > 0
    ensures |piece| == (if n < 0 then 0 else n) <= s.left && |rest| <= |s.rest|
    ensures intr ==> n < 0 && |rest| < |s.rest|
    ensures !intr && n <= 0 ==> s.End() == ReadEnd(false, s.got, rest)
    ensures intr || n > 0 ==> s.Moved(piece).End() == s.End()
  {
    var e := Reading(s.direct, s.rest, s.left, s.tail);
    if intr {
      assert s.got + [] == s.got && Tail(s.tail, 0) == s.tail;
      assert e == Reading(s.direct, rest, s.left, s.tail);
    } else if n <= 0 {
      assert s.got + [] == s.got;
    } else {
      BeforeBoth(s.got, piece, Reading(s.direct, rest, s.left - n, Tail(s.tail, n)));
    }
  }

  lemma {:induction false} BeforeBoth(a: seq<byte>, b: seq<byte>, e: ReadEnd)
    ensures Before(a, Before(b, e)) == Before(a + b, e)
  {
    Associates(a, b, e.got);
  }

  /** What an exact read of a range gets. */
  lemma {:induction false} RangeRead(direct: bool, script: seq<Reply>, data: seq<byte>, offset: nat, len: nat)
    ensures var e := Reading(direct, script, len, Tail(data, offset));
            && Consumed(script, e.rest)
            && (offset + len <= |data| ==> (e.ok <==> NoFault(direct, script, e.rest)))
            && (!direct && e.ok && len > 0 ==> offset + len <= |data| && e.got == data[offset..offset + len])
  {
    ReadingIff(direct, script, len, Tail(data, offset));
    var e := Reading(direct, script, len, Tail(data, offset));
    if !direct && e.ok && len > 0 { assert e.got == Tail(data, offset)[..len]; }
  }

  lemma {:induction false} GotMore(piece: seq<byte>, more: seq<byte>, tail: seq<byte>)
    requires piece <= tail && more <= Tail(tail, |piece|)
    ensures piece + more <= tail
  {
    assert tail == piece + Tail(tail, |piece|);
  }

  /** How an exact write ends: how many bytes were stored and what is left of the script. */
  datatype WriteEnd = WriteEnd(ok: bool, stored: nat, rest: seq<Reply>)

  function Writing(script: seq<Reply>, left: nat): WriteEnd
    decreases |script|, left
  {
    if left == 0 then WriteEnd(true, 0, script)
    else
      match NextOf(script, left, [])
      case Interrupted => Writing(Later(script), left)
      case Failed(n) => WriteEnd(false, Min(n, left), Later(script))
      case Eof => WriteEnd(false, 0, Later(script))
      case Moved(n, _) =>
        var k := Min(if n > 0 then n else 1, left);
        After(k, Writing(Later(script), left - k))
  }

  function After(k: nat, e: WriteEnd): WriteEnd {
    e.(stored := k + e.stored)
  }

  /** An exact write succeeds exactly when no reply it consumed is a fault, and then it stored everything. */
  lemma {:induction false} WritingIff(script: seq<Reply>, left: nat)
    ensures var e := Writing(script, left);
            && Consumed(script, e.rest) && e.stored <= left && (e.ok ==> e.stored == left)
            && (e.ok <==> NoFault(false, script, e.rest))
    decreases |script|, left
  {
    if left > 0 {
      var r, rest := NextOf(script, left, []), Later(script);
      if r.Interrupted? || r.Moved? {
        var k := if r.Interrupted? then 0 else Min(if r.n > 0 then r.n else 1, left);
        WritingIff(rest, left - k);
        assert Writing(script, left) == After(k, Writing(rest, left - k));
      }
      OneConsumed(false, script, Writing(script, left).rest);
    }
  }

  /** A write under way: how much is stored, the rest of the script, and how much is to come. */
  datatype WriteState = WriteState(done: nat, rest: seq<Reply>, left: nat) {
    function End(): WriteEnd { After(done, Writing(rest, left)) }
  }

  /** What one write call stores, its result, and the script after it. */
  function WriteResult(script: seq<Reply>, left: nat): (int, bool, nat, seq<Reply>) {
    match NextOf(script, left, [])
    case Interrupted => (-1, true, 0, Later(script))
    case Failed(m) => (-1, false, Min(m, left), Later(script))
    case Eof => (0, false, 0, Later(script))
    case Moved(m, _) => var k := Min(if m > 0 then m else 1, left); (k, false, k, Later(script))
  }

  lemma {:induction false} WriteCall(s: WriteState, n: int, intr: bool, stored: nat, rest: seq<Reply>)
    requires (n, intr, stored, rest) == WriteResult(s.rest, s.left) && s.left > 0
    ensures n <= s.left && |rest| <= |s.rest| && (intr ==> n < 0 && stored == 0 && |rest| < |s.rest|)
    ensures stored <= s.left && (n >= 0 ==> stored == n)
    ensures !intr && n <= 0 ==> s.End() == WriteEnd(false, s.done + stored, rest)
    ensures intr || n > 0 ==> WriteState(s.done + stored, rest, s.left - stored).End() == s.End()
  {
  }

  /** How a write ends that may use the direct descriptor or be followed by fdatasync, which has one
      answer and is not repeated. */
  function Putting(how: WriteHow, hasDirect: bool, script: seq<Reply>, left: nat): WriteEnd {
    if how.Direct? && !hasDirect then WriteEnd(false, 0, script)
    else
      var e := Writing(script, left);
      if e.ok && how.Sync? then WriteEnd(NextOf(e.rest, 0, []).Moved?, e.stored, Later(e.rest)) else e
  }

  /** Such a write succeeds exactly when no reply that the transfer consumed is a fault, and the answer to
      fdatasync is neither one nor an interruption. */
  lemma {:induction false} PuttingIff(how: WriteHow, hasDirect: bool, script: seq<Reply>, left: nat)
    requires how.Direct? ==> hasDirect
    ensures var e, w := Putting(how, hasDirect, script, left), Writing(script, left);
            && Consumed(script, e.rest)
            && (e.ok <==> NoFault(false, script, w.rest) && (how.Sync? && w.rest != [] ==> w.rest[0].Moved?))
            && e.rest == if w.ok && how.Sync? then Later(w.rest) else w.rest
  {
    WritingIff(script, left);
  }

  class Device {
    const hasDirect: bool
    const align: nat
    var data: seq<byte>
    var replies: seq<Reply>
    var probes: seq<Probe>
    ghost var ops: seq<Op>

    constructor (data: seq<byte>, align: nat, hasDirect: bool, replies: seq<Reply>, probes: seq<Probe>)
      ensures this.data == data && this.align == align && this.hasDirect == hasDirect && ops == []
      ensures this.replies == replies && this.probes == probes
    {
      this.data, this.align, this.hasDirect := data, align, hasDirect;
      this.replies, this.probes, ops := replies, probes, [];
    }

    method NextReply(left: nat, tail: seq<byte>) returns (r: Reply)
      modifies this`replies
      ensures r == NextOf(old(replies), left, tail) && replies == Later(old(replies))
    {
      if replies == [] {
        return Moved(left, tail);
      }
      r := replies[0];
      replies := replies[1..];
    }

    /** pread(2) into buf[at..at + left]. n < 0 is an error, with `intr` telling EINTR. */
    method Pread(direct: bool, buf: array<byte>, at: nat, left: nat, offset: nat)
      returns (n: int, intr: bool, ghost piece: seq<byte>)
      requires at + left <= buf.Length && left > 0
      modifies this`replies, buf
      ensures Call(n, intr, piece, replies) == ReadResult(direct, old(replies), left, Tail(data, offset))
      ensures |piece| <= left && buf[..at] == old(buf[..at]) && buf[..at + |piece|] == buf[..at] + piece
    {
      var tail := if offset <= |data| then data[offset..] else [];
      var r := NextReply(left, tail);
      piece := [];
      match r
      case Interrupted => n, intr := -1, true;
      case Failed(_) => n, intr := -1, false;
      case Eof => n, intr := 0, false;
      case Moved(m, media) =>
        var bytes := if direct then media else tail;
        var k := Min(Min(if m > 0 then m else 1, left), |bytes|);
        Fill(buf, at, bytes[..k]);
        n, intr, piece := k, false, bytes[..k];
    }

    /** One call of an exact read that has got buf[..at]: what it leaves to do ends the same way. */
    method ReadOn(direct: bool, buf: array<byte>, at: nat, left: nat, offset: nat, ghost s: ReadState)
      returns (n: int, intr: bool, ghost next: ReadState)
      requires at + left <= buf.Length && left > 0
      requires s == ReadState(direct, buf[..at], replies, left, Tail(data, offset + at))
      modifies this`replies, buf
      ensures n <= left && |replies| <= old(|replies|) && (intr ==> n < 0 && |replies| < old(|replies|))
      ensures !intr && n <= 0 ==> s.End() == ReadEnd(false, s.got, replies)
      ensures intr || n > 0 ==> next.End() == s.End()
      ensures intr ==> next == ReadState(direct, buf[..at], replies, left, Tail(data, offset + at))
      ensures n > 0 ==> next == ReadState(direct, buf[..at + n], replies, left - n, Tail(data, offset + (at + n)))
    {
      ghost var piece;
      n, intr, piece := Pread(direct, buf, at, left, offset + at);
      ReadCall(s, n, intr, piece, replies);
      next := s.Moved(piece);
      TailTail(data, offset + at, |piece|);
    }

    method Fill(buf: array<byte>, at: nat, bytes: seq<byte>)
      requires at + |bytes| <= buf.Length
      modifies buf
      ensures buf[..at] == old(buf[..at]) && buf[..at + |bytes|] == buf[..at] + bytes
    {
      forall i | 0 <= i < |bytes| { buf[at + i] := bytes[i]; }
    }

    /** pwrite(2) of a piece of a (constant) buffer. A failing call may have stored a prefix. */
    method Pwrite(bytes: seq<byte>, offset: nat) returns (n: int, intr: bool, ghost stored: nat)
      requires bytes != []
      modifies this`replies, this`data
      ensures (n, intr, stored, replies) == WriteResult(old(replies), |bytes|)
      ensures Stored(old(data), data, offset, bytes, stored)
    {
      var r := NextReply(|bytes|, []);
      var k := 0;
      match r {
        case Interrupted => n, intr := -1, true;
        case Eof => n, intr := 0, false;
        case Failed(m) => k := Min(m, |bytes|); n, intr := -1, false;
        case Moved(m, _) => k := Min(if m > 0 then m else 1, |bytes|); n, intr := k, false;
      }
      OverlayStores(data, offset, bytes, k);
      data := Overlay(data, offset, bytes[..k]);
      stored := k;
    }

    /** One call of an exact write that has stored the first `done` bytes. */
    method WriteOn(bytes: seq<byte>, done: nat, offset: nat, ghost was: seq<byte>, ghost s: WriteState)
      returns (n: int, intr: bool, ghost next: WriteState)
      requires done < |bytes| && s == WriteState(done, replies, |bytes| - done)
      requires Stored(was, data, offset, bytes, done)
      modifies this`replies, this`data
      ensures n <= |bytes| - done && |replies| <= old(|replies|) && (intr ==> n < 0 && |replies| < old(|replies|))
      ensures next.done <= |bytes| && Stored(was, data, offset, bytes, next.done)
      ensures intr || n > 0 ==>
                next == WriteState(done + if intr then 0 else n, replies, |bytes| - next.done) && next.End() == s.End()
      ensures !intr && n <= 0 ==> s.End() == WriteEnd(false, next.done, replies)
    {
      ghost var before := data;
      ghost var more;
      n, intr, more := Pwrite(bytes[done..], offset + done);
      WriteCall(s, n, intr, more, replies);
      StoreMore(was, before, data, offset, bytes, done, more);
      next := WriteState(done + more, replies, |bytes| - (done + more));
    }

    /** Reads exactly `len` bytes: retries after EINTR, goes on after a short transfer, and gives up
        on an error or when nothing moves. Inside the device it succeeds exactly when no reply it consumed
        is a fault; through the page cache it then holds the device's bytes. */
    method ReadExact(direct: bool, buf: array<byte>, offset: nat, len: nat) returns (ok: bool)
      requires len <= buf.Length
      modifies this`replies, buf
      ensures var e := Reading(direct, old(replies), len, Tail(data, offset));
              ok == e.ok && replies == e.rest && (ok ==> buf[..len] == e.got)
      ensures Consumed(old(replies), replies)
      ensures offset + len <= |data| ==> (ok <==> NoFault(direct, old(replies), replies))
      ensures !direct && ok && len > 0 ==> offset + len <= |data| && buf[..len] == data[offset..offset + len]
    {
      RangeRead(direct, replies, data, offset, len);
      ok := ReadLoop(direct, buf, offset, len);
    }

    method ReadLoop(direct: bool, buf: array<byte>, offset: nat, len: nat) returns (ok: bool)
      requires len <= buf.Length
      modifies this`replies, buf
      ensures var e := Reading(direct, old(replies), len, Tail(data, offset));
              ok == e.ok && replies == e.rest && (ok ==> buf[..len] == e.got)
    {
      ghost var s := ReadState(direct, [], replies, len, Tail(data, offset));
      ghost var end := s.End();
      var done: nat, left: nat := 0, len;
      while left > 0
        invariant done + left == len && s.End() == end
        invariant s == ReadState(direct, buf[..done], replies, left, Tail(data, offset + done))
        decreases |replies| + left
      {
        var n, intr;
        n, intr, s := ReadOn(direct, buf, done, left, offset, s);
        if n < 0 {
          if intr {
            continue;
          }
          return false;
        }
        if n == 0 {
          return false;
        }
        done, left := done + n, left - n;
      }
      assert s.got + [] == s.got;
      ok := true;
    }

    /** Writes exactly these bytes in the same way. On failure some prefix has been stored. */
    method WriteExact(bytes: seq<byte>, offset: nat) returns (ok: bool, ghost stored: nat)
      modifies this`replies, this`data
      ensures WriteEnd(ok, stored, replies) == Writing(old(replies), |bytes|)
      ensures Consumed(old(replies), replies)
      ensures ok <==> NoFault(false, old(replies), replies)
      ensures Stored(old(data), data, offset, bytes, stored) && (ok ==> stored == |bytes|)
    {
      ghost var s := WriteState(0, replies, |bytes|);
      ghost var end := s.End();
      WritingIff(replies, |bytes|);
      var done: nat := 0;
      stored := 0;
      while done < |bytes|
        invariant stored == done <= |bytes| && s == WriteState(done, replies, |bytes| - done) && s.End() == end
        invariant Stored(old(data), data, offset, bytes, done)
        decreases |replies| + |bytes| - done
      {
        var n, intr;
        n, intr, s := WriteOn(bytes, done, offset, old(data), s);
        stored := s.done;
        if n < 0 {
          if intr {
            continue;
          }
          return false, stored;
        }
        if n == 0 {
          return false, stored;
        }
        done := done + n;
      }
      ok := true;
    }

    method PreadAll(buf: array<byte>, offset: nat, len: nat) returns (ok: bool)
      requires 0 < len <= buf.Length
      modifies this`replies, this`ops, buf
      ensures var e := Reading(false, old(replies), len, Tail(data, offset)); ok == e.ok && replies == e.rest
      ensures Consumed(old(replies), replies)
      ensures ok <==> offset + len <= |data| && NoFault(false, old(replies), replies)
      ensures ok ==> buf[..len] == data[offset..offset + len]
      ensures ops == old(ops) + [ReadOp(Extent(offset, len), ok)]
    {
      ok := ReadExact(false, buf, offset, len);
      ops := ops + [ReadOp(Extent(offset, len), ok)];
    }

    /** A direct read bypasses the page cache; without the direct descriptor it fails. */
    method PreadDirect(buf: array<byte>, offset: nat, len: nat) returns (ok: bool)
      requires len <= buf.Length
      modifies this`replies, this`ops, buf
      ensures ops == old(ops) + [DirectReadOp(Extent(offset, len), ok, if ok then buf[..len] else [])]
      ensures !hasDirect ==> !ok && replies == old(replies)
      ensures var e := Reading(true, old(replies), len, Tail(data, offset));
              hasDirect ==> ok == e.ok && replies == e.rest && (ok ==> buf[..len] == e.got)
      ensures Consumed(old(replies), replies)
      ensures hasDirect && offset + len <= |data| ==>
                (ok <==> NoFault(true, old(replies), replies))
    {
      ok := false;
      if hasDirect {
        ok := ReadExact(true, buf, offset, len);
      }
      ops := ops + [DirectReadOp(Extent(offset, len), ok, if ok then buf[..len] else [])];
    }

    /** The three ways to write: through the page cache, the same followed by fdatasync, or through
        the direct descriptor. */
    method Write(how: WriteHow, bytes: seq<byte>, offset: nat) returns (ok: bool, ghost stored: nat)
      modifies this`replies, this`data, this`ops
      ensures WriteEnd(ok, stored, replies) == Putting(how, hasDirect, old(replies), |bytes|)
      ensures Stored(old(data), data, offset, bytes, stored) && (ok ==> stored == |bytes|)
      ensures ops == old(ops) + [WriteOp(how, offset, bytes, ok)]
    {
      ok, stored := false, 0;
      if how != Direct || hasDirect {
        ok, stored := WriteExact(bytes, offset);
        if ok && how == Sync {
          var synced := NextReply(0, []);
          ok := synced.Moved?;
        }
      }
      ops := ops + [WriteOp(how, offset, bytes, ok)];
    }

    /** Asks whether a range has reached the medium, if it is time to ask or `force` says so. */
    method ProbeClean(force: bool) returns (clean: bool)
      modifies this`probes
      ensures clean <==> old(probes) != [] && old(probes)[0].state.Clean? && (force || old(probes)[0].due)
      ensures probes == Later(old(probes))
    {
      var p := Probe(false, Unknown);
      if probes != [] {
        p := probes[0];
        probes := probes[1..];
      }
      clean := (force || p.due) && p.state == Clean;
    }
  }
}
