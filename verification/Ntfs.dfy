/** NTFS: mapping pairs (run lists) and the update sequence array (src/fs/ntfs.cpp). */
module Ntfs {
  import opened Extents
  import opened Options

  /** b << (8 * i), built up step by step so that proofs about it stay linear. */
  function Shl8(b: nat, i: nat): nat {
    if i == 0 then b else 256 * Shl8(b, i - 1)
  }

  /** The unsigned little-endian value of a byte string. */
  function LeValue(bs: seq<byte>): nat {
    if bs == [] then 0 else bs[0] as nat + 256 * LeValue(bs[1..])
  }

  /** The signed (two's complement) little-endian value of a byte string. */
  function SignedValue(bs: seq<byte>): int {
    if bs != [] && Last(bs) >= 128 then LeValue(bs) - Shl8(1, |bs|) else LeValue(bs)
  }

  lemma {:induction false} LeSnoc(bs: seq<byte>, b: byte)
    ensures LeValue(bs + [b]) == LeValue(bs) + Shl8(b, |bs|)
  {
    if bs == [] {
      assert ([b])[1..] == [];
      assert bs + [b] == [b];
    } else {
      LeSnoc(bs[1..], b);
      assert (bs + [b])[1..] == bs[1..] + [b];
    }
  }

  lemma {:induction false} Shl8Scale(b: nat, i: nat)
    ensures Shl8(b, i) == b * Shl8(1, i)
  {
    if i > 0 { Shl8Scale(b, i - 1); }
  }

  lemma {:induction false} LeBound(bs: seq<byte>)
    ensures LeValue(bs) < Shl8(1, |bs|)
  {
    if bs != [] { LeBound(bs[1..]); }
  }

  /** A byte string whose top byte has its high bit set is worth at least half its range. */
  lemma {:induction false} TopBit(bs: seq<byte>)
    requires |bs| == 8
    ensures Last(bs) >= 128 <==> LeValue(bs) >= 0x8000_0000_0000_0000
  {
    var front := DropLast(bs);
    assert bs == front + [Last(bs)];
    LeSnoc(front, Last(bs));
    LeBound(front);
    assert Shl8(1, 7) == 0x100_0000_0000_0000;
    Shl8Scale(Last(bs), 7);
  }

  function Reinterpret(u: nat): int {
    if u >= 0x8000_0000_0000_0000 then u - 0x1_0000_0000_0000_0000 else u
  }

  function Fill(n: nat): seq<byte> {
    seq(n, _ => 255)
  }

  lemma {:induction false} FillValue(bs: seq<byte>, n: nat)
    ensures LeValue(bs + Fill(n)) == LeValue(bs) + Shl8(1, |bs| + n) - Shl8(1, |bs|)
  {
    if n == 0 {
      assert bs + Fill(0) == bs;
    } else {
      FillValue(bs, n - 1);
      assert bs + Fill(n) == (bs + Fill(n - 1)) + [255];
      LeSnoc(bs + Fill(n - 1), 255);
      Shl8Scale(255, |bs| + n - 1);
    }
  }

  /** Fills the bytes of a word above its first `n` with ones. */
  method FillOnes(low: nat, n: nat, ghost word: seq<byte>) returns (u: nat)
    requires n == |word| <= 8 && low == LeValue(word)
    ensures u == LeValue(word + Fill(8 - n))
  {
    u := low;
    assert word + Fill(0) == word;
    for i := n to 8
      invariant u == LeValue(word + Fill(i - n))
    {
      assert word + Fill(i + 1 - n) == (word + Fill(i - n)) + [255];
      LeSnoc(word + Fill(i - n), 255);
      u := u + Shl8(255, i);
    }
  }

  /** Accumulates `n` bytes into a 64-bit word (the bytes occupy different bits, so OR adds), fills
      the upper bytes with ones when the top bit is set, and reads the word as signed. */
  method ReadSigned(p: seq<byte>, n: nat) returns (v: int)
    requires n <= 8 && n <= |p|
    ensures v == SignedValue(p[..n])
  {
    ghost var word := p[..n];
    var u := ReadUnsigned(p, n);
    if n > 0 && p[n - 1] >= 128 {
      u := FillOnes(u, n, word);
      FillValue(word, 8 - n);
      SignedFull(word);
    } else {
      SignedSmall(word);
    }
    v := Reinterpret(u);
  }

  lemma {:induction false} SignedFull(bs: seq<byte>)
    requires 0 < |bs| <= 8 && Last(bs) >= 128
    ensures Reinterpret(LeValue(bs) + Shl8(1, 8) - Shl8(1, |bs|)) == SignedValue(bs)
    ensures LeValue(bs) + Shl8(1, 8) - Shl8(1, |bs|) >= 0
  {
    var word := bs + Fill(8 - |bs|);
    FillValue(bs, 8 - |bs|);
    TopBit(word);
    assert Shl8(1, 8) == 0x1_0000_0000_0000_0000;
  }

  lemma {:induction false} SignedSmall(bs: seq<byte>)
    requires |bs| <= 8 && (bs != [] ==> Last(bs) < 128)
    ensures Reinterpret(LeValue(bs)) == SignedValue(bs)
  {
    if |bs| == 8 {
      TopBit(bs);
    } else {
      LeBound(bs);
      Shl8Mono(|bs|, 7);
      assert Shl8(1, 7) == 0x100_0000_0000_0000;
    }
  }

  lemma {:induction false} Shl8Mono(i: nat, j: nat)
    requires i <= j
    ensures Shl8(1, i) <= Shl8(1, j)
  {
    if i < j { Shl8Mono(i, j - 1); }
  }

  // ---- Run lists ----

  /** One decoded run: allocated clusters at an absolute logical cluster number, or a hole. */
  datatype Run = Alloc(len: nat, lcn: int) | Hole(len: nat)

  function LenWidth(header: byte): nat { header % 16 }

  function OffWidth(header: byte): nat { header / 16 }

  /** The list after its first run. */
  function Rest(s: seq<byte>): seq<byte>
    requires s != [] && 1 + LenWidth(s[0]) + OffWidth(s[0]) <= |s|
  {
    s[1 + LenWidth(s[0]) + OffWidth(s[0])..]
  }

  /** A run entry that lies in the buffer, with fields of at most eight bytes. Reading any other one leaves
      the buffer, or shifts by more than a word has bits. */
  predicate Entry(s: seq<byte>) {
    && s != [] && 1 <= LenWidth(s[0]) <= 8 && OffWidth(s[0]) <= 8
    && 1 + LenWidth(s[0]) + OffWidth(s[0]) <= |s|
  }

  /** A complete run list starts here: entries up to a terminator (a zero header, or one without a length
      field). */
  predicate Terminated(s: seq<byte>)
    decreases |s|
  {
    s != [] && (LenWidth(s[0]) == 0 || (Entry(s) && Terminated(Rest(s))))
  }

  function LenField(s: seq<byte>): seq<byte>
    requires s != [] && 1 + LenWidth(s[0]) + OffWidth(s[0]) <= |s|
  {
    s[1..1 + LenWidth(s[0])]
  }

  function OffField(s: seq<byte>): seq<byte>
    requires s != [] && 1 + LenWidth(s[0]) + OffWidth(s[0]) <= |s|
  {
    s[1 + LenWidth(s[0])..1 + LenWidth(s[0]) + OffWidth(s[0])]
  }

  /** The cluster number the first run of a list reaches, and that run. */
  function NextLcn(s: seq<byte>, lcn: int): int
    requires s != [] && 1 + LenWidth(s[0]) + OffWidth(s[0]) <= |s|
  {
    if OffWidth(s[0]) == 0 then lcn else lcn + SignedValue(OffField(s))
  }

  function HeadRun(s: seq<byte>, lcn: int): Run
    requires s != [] && 1 + LenWidth(s[0]) + OffWidth(s[0]) <= |s|
  {
    if OffWidth(s[0]) == 0 then Hole(LeValue(LenField(s))) else Alloc(LeValue(LenField(s)), NextLcn(s, lcn))
  }

  /** The runs a list stands for, up to its terminator or to the first thing that is no entry, given the
      logical cluster number reached so far. */
  function Runs(s: seq<byte>, lcn: int): seq<Run>
    decreases |s|
  {
    if !Entry(s) then [] else [HeadRun(s, lcn)] + Runs(Rest(s), NextLcn(s, lcn))
  }

  /** Addresses of the allocated runs fit the source's 64-bit arithmetic. */
  ghost predicate Addressable(rs: seq<Run>, base: nat, clusterBytes: nat) {
    forall i :: 0 <= i < |rs| ==> RunAddressable(rs[i], base, clusterBytes)
  }

  predicate RunAddressable(r: Run, base: nat, clusterBytes: nat) {
    r.Alloc? ==> 0 <= r.lcn <= 0x7FFF_FFFF_FFFF_FFFF && base + Times(r.lcn + r.len, clusterBytes) <= U64_MAX
  }

  /** The byte range of an allocated run. */
  function RunExtent(r: Run, base: nat, clusterBytes: nat): Extent
    requires r.Alloc? && RunAddressable(r, base, clusterBytes)
  {
    Extent(base + Times(r.lcn, clusterBytes), Times(r.len, clusterBytes))
  }

  /** The byte ranges of the allocated runs, holes left out. */
  function AllocExtents(rs: seq<Run>, base: nat, clusterBytes: nat): seq<Extent>
    requires Addressable(rs, base, clusterBytes)
  {
    if rs == [] then []
    else
      assert forall i :: 0 <= i < |rs| - 1 ==> rs[1..][i] == rs[i + 1];
      var tail := AllocExtents(rs[1..], base, clusterBytes);
      if rs[0].Hole? then tail else [RunExtent(rs[0], base, clusterBytes)] + tail
  }

  /** The bytes of a cluster of the volume, and of `len` clusters from `lcn` on. */
  function ClusterBytes(c: nat, base: nat, clusterBytes: nat): seq<nat> {
    seq(clusterBytes, i => base + c * clusterBytes + i)
  }

  function ClustersBytes(lcn: nat, len: nat, base: nat, clusterBytes: nat): seq<nat> {
    if len == 0 then []
    else ClustersBytes(lcn, len - 1, base, clusterBytes) + ClusterBytes(lcn + len - 1, base, clusterBytes)
  }

  /** The bytes of the allocated runs, cluster by cluster. */
  function AllocBytes(rs: seq<Run>, base: nat, clusterBytes: nat): seq<nat> {
    if rs == [] then []
    else
      (if rs[0].Alloc? && rs[0].lcn >= 0 then ClustersBytes(rs[0].lcn, rs[0].len, base, clusterBytes) else [])
      + AllocBytes(rs[1..], base, clusterBytes)
  }

  lemma {:induction false} ClustersAreRun(lcn: nat, len: nat, base: nat, clusterBytes: nat)
    ensures ClustersBytes(lcn, len, base, clusterBytes) ==
            Extents.Run(Extent(base + Times(lcn, clusterBytes), Times(len, clusterBytes)))
  {
    if len > 0 {
      ClustersAreRun(lcn, len - 1, base, clusterBytes);
      OneCluster(lcn, len, base, clusterBytes);
    }
  }

  lemma {:induction false} OneCluster(lcn: nat, len: nat, base: nat, clusterBytes: nat)
    requires len > 0
    ensures Extents.Run(Extent(base + Times(lcn, clusterBytes), Times(len - 1, clusterBytes))) +
            ClusterBytes(lcn + len - 1, base, clusterBytes) ==
            Extents.Run(Extent(base + Times(lcn, clusterBytes), Times(len, clusterBytes)))
  {
    TimesIs(lcn + len - 1, clusterBytes);
    TimesSum(lcn, len - 1, clusterBytes);
  }

  lemma {:induction false} TimesSum(a: nat, b: nat, unit: nat)
    ensures Times(a + b, unit) == Times(a, unit) + Times(b, unit)
  {
    if b > 0 { TimesSum(a, b - 1, unit); }
  }

  /** The ranges of the allocated runs name exactly their clusters' bytes. */
  lemma {:induction false} ExtentsAreClusters(rs: seq<Run>, base: nat, clusterBytes: nat)
    requires Addressable(rs, base, clusterBytes)
    ensures Bytes(AllocExtents(rs, base, clusterBytes)) == AllocBytes(rs, base, clusterBytes)
  {
    if rs != [] {
      var r, tail := rs[0], rs[1..];
      assert rs == [r] + tail;
      ConsExtents(r, tail, base, clusterBytes);
      ExtentsAreClusters(tail, base, clusterBytes);
      var es := AllocExtents(tail, base, clusterBytes);
      if r.Alloc? {
        OneRun(r, es, base, clusterBytes);
      } else {
        assert [] + es == es && [] + Bytes(es) == Bytes(es);
      }
    }
  }

  lemma {:induction false} OneRun(r: Run, es: seq<Extent>, base: nat, clusterBytes: nat)
    requires r.Alloc? && RunAddressable(r, base, clusterBytes)
    ensures Bytes([RunExtent(r, base, clusterBytes)] + es) ==
            ClustersBytes(r.lcn, r.len, base, clusterBytes) + Bytes(es)
  {
    var e := RunExtent(r, base, clusterBytes);
    BytesAppend([e], es);
    assert DropLast([e]) == [] && Bytes([e]) == Extents.Run(e);
    ClustersAreRun(r.lcn, r.len, base, clusterBytes);
  }

  /** The state of the decoding loop: `s` is still to decode, `exts` is collected so far. */
  ghost predicate Decoding(run: seq<byte>, s: seq<byte>, lcn: int, exts: seq<Extent>, base: nat, clusterBytes: nat)
    requires Addressable(Runs(run, 0), base, clusterBytes)
  {
    && (Terminated(s) <==> Terminated(run)) && Addressable(Runs(s, lcn), base, clusterBytes)
    && PushAll(exts, AllocExtents(Runs(s, lcn), base, clusterBytes)) ==
       PushAll([], AllocExtents(Runs(run, 0), base, clusterBytes))
  }

  /** One turn of the decoding loop. */
  lemma {:induction false} TakeRun(run: seq<byte>, s: seq<byte>, lcn: int, exts: seq<Extent>, base: nat,
                                   clusterBytes: nat)
    requires Addressable(Runs(run, 0), base, clusterBytes)
    requires Decoding(run, s, lcn, exts, base, clusterBytes) && Entry(s)
    ensures RunAddressable(HeadRun(s, lcn), base, clusterBytes)
    ensures Decoding(run, Rest(s), NextLcn(s, lcn), PushRun(exts, HeadRun(s, lcn), base, clusterBytes), base,
                     clusterBytes)
  {
    var r, tail := HeadRun(s, lcn), Runs(Rest(s), NextLcn(s, lcn));
    ConsExtents(r, tail, base, clusterBytes);
    var rest := AllocExtents(tail, base, clusterBytes);
    if r.Alloc? {
      PushAllCons(exts, RunExtent(r, base, clusterBytes), rest);
    } else {
      assert [] + rest == rest;
    }
  }

  function PushRun(exts: seq<Extent>, r: Run, base: nat, clusterBytes: nat): seq<Extent>
    requires RunAddressable(r, base, clusterBytes)
  {
    if r.Hole? then exts else Push(exts, RunExtent(r, base, clusterBytes))
  }

  lemma {:induction false} ConsExtents(r: Run, tail: seq<Run>, base: nat, clusterBytes: nat)
    requires Addressable([r] + tail, base, clusterBytes)
    ensures RunAddressable(r, base, clusterBytes) && Addressable(tail, base, clusterBytes)
    ensures AllocExtents([r] + tail, base, clusterBytes) ==
            (if r.Hole? then [] else [RunExtent(r, base, clusterBytes)]) + AllocExtents(tail, base, clusterBytes)
  {
    var rs := [r] + tail;
    assert rs[0] == r && rs[1..] == tail;
    assert forall i :: 0 <= i < |tail| ==> tail[i] == rs[i + 1];
    assert [] + AllocExtents(tail, base, clusterBytes) == AllocExtents(tail, base, clusterBytes);
  }

  method ReadUnsigned(p: seq<byte>, n: nat) returns (v: nat)
    requires n <= |p|
    ensures v == LeValue(p[..n])
  {
    v := 0;
    for i := 0 to n
      invariant v == LeValue(p[..i])
    {
      assert p[..i + 1] == p[..i] + [p[i]];
      LeSnoc(p[..i], p[i]);
      v := v + Shl8(p[i], i);
    }
  }

  /** Reads the length and offset fields of the run at the head of the list. */
  method ReadRun(s: seq<byte>, lcn: int) returns (runLen: nat, next: int)
    requires Entry(s)
    ensures next == NextLcn(s, lcn)
    ensures HeadRun(s, lcn) == if OffWidth(s[0]) == 0 then Hole(runLen) else Alloc(runLen, next)
  {
    var lenLen, offLen := LenWidth(s[0]), OffWidth(s[0]);
    assert LenField(s)[..lenLen] == LenField(s) && OffField(s)[..offLen] == OffField(s);
    runLen := ReadUnsigned(LenField(s), lenLen);
    next := lcn;
    if offLen != 0 {
      var off := ReadSigned(OffField(s), offLen);
      next := lcn + off;
    }
  }

  /** Decodes a run list into the coalesced byte ranges of its allocated runs. It stops on every buffer; the
      result is None where the source reads outside the buffer or shifts a byte out of a word, which is
      exactly on lists that do not end properly. */
  method DecodeRunsAllocated(run: seq<byte>, base: nat, clusterBytes: nat) returns (r: Option<seq<Extent>>)
    requires Addressable(Runs(run, 0), base, clusterBytes)
    ensures r == if Terminated(run) then Some(PushAll([], AllocExtents(Runs(run, 0), base, clusterBytes))) else None
    ensures r.Some? ==> Coalesced(r.value) && Bytes(r.value) == AllocBytes(Runs(run, 0), base, clusterBytes)
  {
    var exts: seq<Extent> := [];
    var lcn: int := 0;
    var s := run;
    while s != [] && s[0] != 0
      invariant Decoding(run, s, lcn, exts, base, clusterBytes)
      decreases |s|
    {
      if LenWidth(s[0]) == 0 {
        break;
      }
      if !Entry(s) {
        return None;
      }
      TakeRun(run, s, lcn, exts, base, clusterBytes);
      var hole := OffWidth(s[0]) == 0;
      var runLen, next := ReadRun(s, lcn);
      lcn, s := next, Rest(s);
      if hole {
        continue;
      }
      exts := Push(exts, RunExtent(Alloc(runLen, lcn), base, clusterBytes));
    }
    if s == [] {
      return None;
    }
    DecodingDone(run, s, lcn, exts, base, clusterBytes);
    DecodedBytes(Runs(run, 0), base, clusterBytes);
    r := Some(exts);
  }

  lemma {:induction false} DecodedBytes(rs: seq<Run>, base: nat, clusterBytes: nat)
    requires Addressable(rs, base, clusterBytes)
    ensures var exts := PushAll([], AllocExtents(rs, base, clusterBytes));
            Coalesced(exts) && Bytes(exts) == AllocBytes(rs, base, clusterBytes)
  {
    ExtentsAreClusters(rs, base, clusterBytes);
    PushAllBytes([], AllocExtents(rs, base, clusterBytes));
    assert Bytes([]) + AllocBytes(rs, base, clusterBytes) == AllocBytes(rs, base, clusterBytes);
  }

  lemma {:induction false} DecodingDone(run: seq<byte>, s: seq<byte>, lcn: int, exts: seq<Extent>, base: nat,
                                        clusterBytes: nat)
    requires Addressable(Runs(run, 0), base, clusterBytes)
    requires Decoding(run, s, lcn, exts, base, clusterBytes) && s != [] && LenWidth(s[0]) == 0
    ensures Terminated(run) && exts == PushAll([], AllocExtents(Runs(run, 0), base, clusterBytes))
  {
  }

  // ---- Encoding ----

  /** Field widths chosen for one run. */
  datatype Widths = Widths(len: nat, off: nat)

  /** A signed value as `w` bytes. */
  function SignedLe(d: int, w: nat): seq<byte>
    requires d + Shl8(1, w) >= 0
  {
    Le(if d < 0 then d + Shl8(1, w) else d, w)
  }

  /** d is representable as a signed number of `w` bytes. */
  predicate InSignedRange(d: int, w: nat)
    requires w > 0
  {
    d + Shl8(128, w - 1) >= 0 && d < Shl8(128, w - 1)
  }

  /** The chosen widths can hold the run: up to eight bytes each, the delta signed. */
  predicate Fits(r: Run, lcn: int, w: Widths) {
    && 1 <= w.len <= 8 && r.len < Shl8(1, w.len)
    && match r
       case Hole(_) => w.off == 0
       case Alloc(_, at) => 1 <= w.off <= 8 && InSignedRange(at - lcn, w.off)
  }

  predicate AllFit(rs: seq<Run>, lcn: int, ws: seq<Widths>)
    decreases |rs|
  {
    |ws| == |rs| &&
    (rs != [] ==> Fits(rs[0], lcn, ws[0]) && AllFit(rs[1..], Reached(rs[0], lcn), ws[1..]))
  }

  function Reached(r: Run, lcn: int): int { if r.Alloc? then r.lcn else lcn }

  function Header(w: Widths): byte
    requires w.len < 16 && w.off < 16
  {
    w.len + 16 * w.off
  }

  function OffBytes(r: Run, lcn: int, w: Widths): seq<byte>
    requires Fits(r, lcn, w)
  {
    HalfRange(w.off);
    if r.Alloc? then SignedLe(r.lcn - lcn, w.off) else []
  }

  function EncodeRun(r: Run, lcn: int, w: Widths): seq<byte>
    requires Fits(r, lcn, w)
  {
    [Header(w)] + Le(r.len, w.len) + OffBytes(r, lcn, w)
  }

  /** The mapping-pairs form of a run list. */
  function Encode(rs: seq<Run>, lcn: int, ws: seq<Widths>): seq<byte>
    requires AllFit(rs, lcn, ws)
    decreases |rs|
  {
    if rs == [] then [0] else EncodeRun(rs[0], lcn, ws[0]) + Encode(rs[1..], Reached(rs[0], lcn), ws[1..])
  }

  lemma {:induction false} HalfRange(w: nat)
    ensures w > 0 ==> 2 * Shl8(128, w - 1) == Shl8(1, w)
  {
    if w > 0 {
      Shl8Scale(128, w - 1);
      Shl8Scale(1, w);
    }
  }

  lemma {:induction false} LeInverse(v: nat, w: nat)
    requires v < Shl8(1, w)
    ensures LeValue(Le(v, w)) == v
  {
    if w > 0 {
      LeInverse(v / 256, w - 1);
      assert Le(v, w)[1..] == Le(v / 256, w - 1);
    }
  }

  /** The top byte of a little-endian string tells whether the value reaches half the range. */
  lemma {:induction false} LeTop(v: nat, w: nat)
    requires w > 0 && v < Shl8(1, w)
    ensures Last(Le(v, w)) >= 128 <==> v >= Shl8(128, w - 1)
  {
    if w > 1 {
      LeTop(v / 256, w - 1);
      assert Last(Le(v, w)) == Last(Le(v / 256, w - 1));
    }
  }

  lemma {:induction false} SignedInverse(d: int, w: nat)
    requires w > 0 && InSignedRange(d, w)
    ensures d + Shl8(1, w) >= 0
    ensures SignedValue(SignedLe(d, w)) == d
  {
    HalfRange(w);
    var v := if d < 0 then d + Shl8(1, w) else d;
    LeInverse(v, w);
    LeTop(v, w);
  }

  /** The pieces of a run entry at the head of a list. */
  lemma {:induction false} HeadFields(header: byte, len: seq<byte>, off: seq<byte>, tail: seq<byte>)
    requires LenWidth(header) == |len| && OffWidth(header) == |off|
    ensures var s := [header] + len + off + tail;
            && 1 + LenWidth(s[0]) + OffWidth(s[0]) <= |s|
            && LenField(s) == len && OffField(s) == off && s[1 + |len| + |off|..] == tail
  {
  }

  lemma {:induction false} HeadDecodes(s: seq<byte>, r: Run, lcn: int, w: Widths)
    requires s != [] && Fits(r, lcn, w) && LenWidth(s[0]) == w.len && OffWidth(s[0]) == w.off
    requires 1 + w.len + w.off <= |s| && Terminated(Rest(s))
    requires LeValue(LenField(s)) == r.len
    requires r.Alloc? ==> SignedValue(OffField(s)) == r.lcn - lcn
    ensures Terminated(s) && Runs(s, lcn) == [r] + Runs(Rest(s), Reached(r, lcn))
  {
    assert HeadRun(s, lcn) == r && NextLcn(s, lcn) == Reached(r, lcn);
  }

  /** The fields of an encoded run are where its header says. */
  lemma {:induction false} HeadParts(r: Run, lcn: int, w: Widths, tail: seq<byte>)
    requires Fits(r, lcn, w)
    ensures var s := EncodeRun(r, lcn, w) + tail;
            && s != [] && LenWidth(s[0]) == w.len && OffWidth(s[0]) == w.off && 1 + w.len + w.off <= |s|
            && LenField(s) == Le(r.len, w.len) && OffField(s) == OffBytes(r, lcn, w) && Rest(s) == tail
  {
    HeadFields(Header(w), Le(r.len, w.len), OffBytes(r, lcn, w), tail);
  }

  lemma {:induction false} FieldValues(r: Run, lcn: int, w: Widths)
    requires Fits(r, lcn, w)
    ensures LeValue(Le(r.len, w.len)) == r.len
    ensures r.Alloc? ==> SignedValue(OffBytes(r, lcn, w)) == r.lcn - lcn
  {
    LeInverse(r.len, w.len);
    if r.Alloc? { SignedInverse(r.lcn - lcn, w.off); }
  }

  /** One encoded run at the head of a terminated list decodes to that run. */
  lemma {:induction false} DecodeHead(r: Run, lcn: int, w: Widths, tail: seq<byte>, s: seq<byte>)
    requires Fits(r, lcn, w) && Terminated(tail) && s == EncodeRun(r, lcn, w) + tail
    ensures Terminated(s) && Runs(s, lcn) == [r] + Runs(tail, Reached(r, lcn))
  {
    HeadParts(r, lcn, w, tail);
    FieldValues(r, lcn, w);
    HeadDecodes(s, r, lcn, w);
  }

  /** Decoding inverts the encoding, whatever follows the terminator. */
  lemma {:induction false} RunsInvertEncode(rs: seq<Run>, lcn: int, ws: seq<Widths>, junk: seq<byte>)
    requires AllFit(rs, lcn, ws)
    ensures Terminated(Encode(rs, lcn, ws) + junk)
    ensures Runs(Encode(rs, lcn, ws) + junk, lcn) == rs
    decreases |rs|
  {
    if rs != [] {
      var next := Reached(rs[0], lcn);
      var tail := Encode(rs[1..], next, ws[1..]) + junk;
      RunsInvertEncode(rs[1..], next, ws[1..], junk);
      assert Encode(rs, lcn, ws) + junk == EncodeRun(rs[0], lcn, ws[0]) + tail;
      DecodeHead(rs[0], lcn, ws[0], tail, Encode(rs, lcn, ws) + junk);
      assert rs == [rs[0]] + rs[1..];
    }
  }

  /** The decoder inverts the encoding: whatever follows the terminator, the ranges of the allocated runs
      come back, coalesced. */
  method DecodeEncoded(rs: seq<Run>, ws: seq<Widths>, junk: seq<byte>, base: nat, clusterBytes: nat)
    returns (r: Option<seq<Extent>>)
    requires AllFit(rs, 0, ws) && Addressable(rs, base, clusterBytes)
    ensures r.Some? && Coalesced(r.value) && Bytes(r.value) == AllocBytes(rs, base, clusterBytes)
  {
    RunsInvertEncode(rs, 0, ws, junk);
    r := DecodeRunsAllocated(Encode(rs, 0, ws) + junk, base, clusterBytes);
  }

  // ---- Update sequence array ----

  /** Where the i-th sector's last two bytes are. */
  function TailAt(i: nat, sector: nat): int { Times(i, sector) - 2 }

  /** It is where the sector ends, less two. */
  lemma {:induction false} TailAtIs(i: nat, sector: nat)
    ensures TailAt(i, sector) == i * sector - 2
  {
    TimesIs(i, sector);
  }

  /** The record after copying the first `n` saved tails back, each read from the record as it is
      at that moment. */
  function Patched(rec: seq<byte>, usa: nat, n: nat, sector: nat): (r: seq<byte>)
    requires sector >= 2 && usa + 2 * n + 2 <= |rec| && (n > 0 ==> TailAt(n, sector) + 2 <= |rec|)
    ensures |r| == |rec|
  {
    if n == 0 then rec
    else
      TimesMono(1, n, sector);
      WithPair(Patched(rec, usa, n - 1, sector), TailAt(n, sector), usa + 2 * n)
  }

  /** The record after rec[pos] = rec[from]; rec[pos + 1] = rec[from + 1], one after the other. */
  function WithPair(rec: seq<byte>, pos: nat, from: nat): (r: seq<byte>)
    requires pos + 1 < |rec| && from + 1 < |rec|
    ensures |r| == |rec|
  {
    var half := rec[pos := rec[from]];
    half[pos + 1 := half[from + 1]]
  }

  predicate HasMagic(rec: seq<byte>) { |rec| >= 8 && rec[..4] == [0x46, 0x49, 0x4C, 0x45] }

  function UsaOffset(rec: seq<byte>): nat
    requires |rec| >= 8
  {
    R16(rec, 4)
  }

  function UsaCount(rec: seq<byte>): nat
    requires |rec| >= 8
  {
    R16(rec, 6)
  }

  /** The record carries an update sequence array that the fixup must apply. */
  predicate HasArray(rec: seq<byte>)
    requires |rec| >= 8
  {
    UsaOffset(rec) != 0 && UsaCount(rec) >= 2
  }

  /** Every byte the fixup reads or writes lies inside the record. */
  predicate ArrayFits(rec: seq<byte>, sector: nat)
    requires |rec| >= 8
  {
    HasRoom(rec) && (UsaCount(rec) > 1 ==> TailAt(UsaCount(rec) - 1, sector) + 2 <= |rec|)
  }

  method CopyPair(rec: array<byte>, pos: nat, from: nat)
    requires pos + 1 < rec.Length && from + 1 < rec.Length
    modifies rec
    ensures rec[..] == WithPair(old(rec[..]), pos, from)
  {
    rec[pos] := rec[from];
    assert rec[..] == old(rec[..])[pos := old(rec[..])[from]];
    rec[pos + 1] := rec[from + 1];
  }

  /** What a rejected record is left with: the tails before the first one that lies outside are copied
      back already; without a magic number or room for the array nothing is. */
  ghost predicate StoppedAt(was: seq<byte>, now: seq<byte>, sector: nat) {
    if !HasMagic(was) || !HasRoom(was) then now == was
    else sector >= 2 && exists n: nat :: FirstOutside(was, n, sector) && now == Patched(was, UsaOffset(was), n, sector)
  }

  /** The array lies in the record. */
  predicate HasRoom(rec: seq<byte>)
    requires |rec| >= 8
  {
    UsaOffset(rec) + UsaCount(rec) * 2 <= |rec|
  }

  /** What the fixup does with a record. `WritesOutside` is a write before the record. */
  datatype Fixup = Accepted | Rejected | WritesOutside

  /** The first n tails lie in the record and the next one, which the array asks for, does not. */
  ghost predicate FirstOutside(rec: seq<byte>, n: nat, sector: nat)
    requires |rec| >= 8
  {
    HasRoom(rec) && EndsAt(|rec|, UsaCount(rec), n, sector)
  }

  ghost predicate EndsAt(length: nat, count: nat, n: nat, sector: nat) {
    n + 1 < count && (n > 0 ==> TailAt(n, sector) + 2 <= length) && TailAt(n + 1, sector) + 2 > length
  }

  /** Copies the tails that the array at `usa` holds. */
  method CopyTails(rec: array<byte>, usa: nat, count: nat, sector: nat) returns (r: Fixup)
    requires count >= 2 && usa + 2 * count <= rec.Length && rec.Length >= 8
    modifies rec
    ensures r.WritesOutside? <==> sector < 2
    ensures r.WritesOutside? ==> rec[..] == old(rec[..])
    ensures r.Accepted? <==> sector >= 2 && TailAt(count - 1, sector) + 2 <= rec.Length
    ensures r.Accepted? ==> rec[..] == Patched(old(rec[..]), usa, count - 1, sector)
    ensures r.Rejected? ==>
              exists n: nat :: EndsAt(rec.Length, count, n, sector) && rec[..] == Patched(old(rec[..]), usa, n, sector)
  {
    ghost var was := rec[..];
    for i := 1 to count
      invariant i > 1 ==> sector >= 2 && TailAt(i - 1, sector) + 2 <= rec.Length
      invariant if sector >= 2 then rec[..] == Patched(was, usa, i - 1, sector) else rec[..] == was
    {
      TimesMono(1, i, sector);
      var pos := Times(i, sector) - 2;
      if pos + 2 > rec.Length {
        TimesMono(i, count - 1, sector);
        assert EndsAt(rec.Length, count, i - 1, sector);
        return Rejected;
      }
      if pos < 0 {
        return WritesOutside;
      }
      CopyPair(rec, pos, usa + i * 2);
    }
    return Accepted;
  }

  /** Copies the saved sector tails back in place. On a record it rejects because a tail lies outside, the
      tails before that one have been copied already. The place of a tail is an unsigned number, so with
      sectors of less than two bytes, which the scan lets through, the first tail passes the check and lies
      before the record. */
  method FixupRecord(rec: array<byte>, sector: nat) returns (r: Fixup)
    modifies rec
    ensures r.Accepted? <==>
              HasMagic(old(rec[..])) &&
              (HasArray(old(rec[..])) ==> ArrayFits(old(rec[..]), sector) && sector >= 2)
    ensures r.WritesOutside? <==>
              HasMagic(old(rec[..])) && HasArray(old(rec[..])) && HasRoom(old(rec[..])) && sector < 2
    ensures r.Accepted? && HasArray(old(rec[..])) ==>
              rec[..] == Patched(old(rec[..]), UsaOffset(old(rec[..])), UsaCount(old(rec[..])) - 1, sector)
    ensures !HasMagic(old(rec[..])) || !HasArray(old(rec[..])) || r.WritesOutside? ==> rec[..] == old(rec[..])
    ensures r.Rejected? ==> StoppedAt(old(rec[..]), rec[..], sector)
  {
    if rec.Length < 8 || rec[..4] != [0x46, 0x49, 0x4C, 0x45] {
      return Rejected;
    }
    var usa := R16(rec[..], 4);
    var count := R16(rec[..], 6);
    if usa == 0 || count < 2 {
      return Accepted;
    }
    if usa + count * 2 > rec.Length {
      return Rejected;
    }
    ghost var was := rec[..];
    r := CopyTails(rec, usa, count, sector);
    if r.Rejected? {
      ghost var n: nat :| EndsAt(rec.Length, count, n, sector) && rec[..] == Patched(was, usa, n, sector);
      assert FirstOutside(was, n, sector);
    }
  }

  /** The array and the first eight header bytes are clear of every sector tail. */
  ghost predicate ClearOfTails(usa: nat, count: nat, sector: nat) {
    forall i :: 1 <= i < count ==> TailClear(usa, count, sector, i)
  }

  ghost predicate TailClear(usa: nat, count: nat, sector: nat, i: nat) {
    TailAt(i, sector) >= 8 && (TailAt(i, sector) + 2 <= usa || usa + 2 * count <= TailAt(i, sector))
  }

  /** `k` is one of the two tail bytes of sector i. */
  ghost predicate InTail(k: nat, i: nat, sector: nat) { TailAt(i, sector) <= k < TailAt(i, sector) + 2 }

  ghost predicate NoTail(k: nat, count: nat, sector: nat) {
    forall i :: 1 <= i < count ==> !InTail(k, i, sector)
  }

  /** `p` is `r` with every sector tail saved in the array and replaced by the sequence number that
      the array starts with. */
  ghost predicate IsProtected(r: seq<byte>, p: seq<byte>, usa: nat, count: nat, sector: nat)
    requires sector >= 2 && usa + 2 * count <= |r| && (count > 1 ==> TailAt(count - 1, sector) + 2 <= |r|)
  {
    && |p| == |r|
    && (forall i :: 1 <= i < count ==> TailSaved(r, p, usa, count, sector, i))
    && (forall k :: 0 <= k < |r| && !(usa <= k < usa + 2 * count) && NoTail(k, count, sector) ==> p[k] == r[k])
  }

  ghost predicate TailSaved(r: seq<byte>, p: seq<byte>, usa: nat, count: nat, sector: nat, i: nat)
    requires sector >= 2 && 1 <= i < count
    requires usa + 2 * count <= |r| == |p| && TailAt(count - 1, sector) + 2 <= |r|
  {
    TimesMono(1, i, sector);
    TimesMono(i, count - 1, sector);
    var t := TailAt(i, sector);
    && p[usa + 2 * i] == r[t] && p[usa + 2 * i + 1] == r[t + 1]
    && p[t] == p[usa] && p[t + 1] == p[usa + 1]
  }

  /** One more patch: the n-th tail takes its two bytes from the array, all else stays. */
  lemma {:induction false} PatchStep(rec: seq<byte>, usa: nat, count: nat, n: nat, sector: nat, k: nat)
    requires sector >= 2 && 1 <= n < count && usa + 2 * count <= |rec| && k < |rec|
    requires TailAt(n, sector) + 2 <= |rec| && TailClear(usa, count, sector, n)
    requires n > 1 ==> TailAt(n - 1, sector) + 2 <= |rec|
    ensures Patched(rec, usa, n, sector)[k] ==
            Patched(rec, usa, n - 1, sector)[if InTail(k, n, sector) then usa + 2 * n + (k - TailAt(n, sector)) else k]
  {
  }

  /** What the first n patches leave: tails 1..n hold what the array saved, all else is as before. */
  lemma {:induction false} PatchedBytes(rec: seq<byte>, usa: nat, count: nat, n: nat, sector: nat, k: nat)
    requires sector >= 2 && n < count && usa + 2 * count <= |rec| && k < |rec|
    requires n > 0 ==> TailAt(n, sector) + 2 <= |rec|
    requires ClearOfTails(usa, count, sector) && NoTail(k, n + 1, sector)
    ensures Patched(rec, usa, n, sector)[k] == rec[k]
  {
    if n > 0 {
      TimesMono(n - 1, n, sector);
      assert TailClear(usa, count, sector, n) && !InTail(k, n, sector);
      PatchStep(rec, usa, count, n, sector, k);
      PatchedBytes(rec, usa, count, n - 1, sector, k);
    }
  }

  lemma {:induction false} ArrayClear(usa: nat, count: nat, sector: nat, a: nat, n: nat)
    requires ClearOfTails(usa, count, sector) && n <= count && (usa <= a < usa + 2 * count || a < 8)
    ensures NoTail(a, n, sector)
  {
    forall i | 1 <= i < n ensures !InTail(a, i, sector) { assert TailClear(usa, count, sector, i); }
  }

  lemma {:induction false} PatchedTail(rec: seq<byte>, usa: nat, count: nat, n: nat, sector: nat, i: nat, k: nat)
    requires sector >= 2 && 1 <= i <= n < count && usa + 2 * count <= |rec| && k < |rec|
    requires TailAt(n, sector) + 2 <= |rec| && InTail(k, i, sector)
    requires ClearOfTails(usa, count, sector)
    ensures Patched(rec, usa, n, sector)[k] == rec[usa + 2 * i + (k - TailAt(i, sector))]
  {
    TimesMono(n - 1, n, sector);
    assert TailClear(usa, count, sector, n);
    PatchStep(rec, usa, count, n, sector, k);
    if i < n {
      TimesMono(i + 1, n, sector);
      PatchedTail(rec, usa, count, n - 1, sector, i, k);
    } else {
      var a := usa + 2 * n + (k - TailAt(n, sector));
      ArrayClear(usa, count, sector, a, n);
      PatchedBytes(rec, usa, count, n - 1, sector, a);
    }
  }

  /** `q` is `p` with every sector tail taken from the array. */
  ghost predicate Restored(p: seq<byte>, q: seq<byte>, usa: nat, count: nat, sector: nat)
    requires usa + 2 * count <= |p| == |q|
  {
    && (forall i :: 1 <= i < count ==> TailRestored(p, q, usa, count, sector, i))
    && (forall k :: 0 <= k < |p| && NoTail(k, count, sector) ==> q[k] == p[k])
  }

  ghost predicate TailRestored(p: seq<byte>, q: seq<byte>, usa: nat, count: nat, sector: nat, i: nat)
    requires usa + 2 * count <= |p| == |q| && i < count
  {
    var t := TailAt(i, sector);
    0 <= t && t + 2 <= |p| && q[t] == p[usa + 2 * i] && q[t + 1] == p[usa + 2 * i + 1]
  }

  lemma {:induction false} PatchedTailRestored(p: seq<byte>, usa: nat, count: nat, n: nat, sector: nat, i: nat)
    requires sector >= 2 && n + 1 == count && usa + 2 * count <= |p| && TailAt(n, sector) + 2 <= |p|
    requires ClearOfTails(usa, count, sector) && 1 <= i < count
    ensures TailRestored(p, Patched(p, usa, n, sector), usa, count, sector, i)
  {
    TimesMono(1, i, sector);
    TimesMono(i, n, sector);
    PatchedTail(p, usa, count, n, sector, i, TailAt(i, sector));
    PatchedTail(p, usa, count, n, sector, i, TailAt(i, sector) + 1);
  }

  lemma {:induction false} PatchedRestores(p: seq<byte>, usa: nat, count: nat, sector: nat)
    requires sector >= 2 && count >= 2 && usa + 2 * count <= |p| && TailAt(count - 1, sector) + 2 <= |p|
    requires ClearOfTails(usa, count, sector)
    ensures Restored(p, Patched(p, usa, count - 1, sector), usa, count, sector)
  {
    var n := count - 1;
    forall i | 1 <= i < count ensures TailRestored(p, Patched(p, usa, n, sector), usa, count, sector, i) {
      PatchedTailRestored(p, usa, count, n, sector, i);
    }
    forall k | 0 <= k < |p| && NoTail(k, count, sector) ensures Patched(p, usa, n, sector)[k] == p[k] {
      PatchedBytes(p, usa, count, n, sector, k);
    }
  }

  /** The fixup inverts sector protection: outside the array it gives back the original record, and
      the array itself is untouched. */
  lemma {:induction false} FixupInverts(r: seq<byte>, p: seq<byte>, usa: nat, count: nat, sector: nat, k: nat)
    requires sector >= 2 && count >= 2 && usa + 2 * count <= |r| && TailAt(count - 1, sector) + 2 <= |r|
    requires IsProtected(r, p, usa, count, sector) && ClearOfTails(usa, count, sector)
    requires k < |r|
    ensures Patched(p, usa, count - 1, sector)[k] == if usa <= k < usa + 2 * count then p[k] else r[k]
  {
    PatchedRestores(p, usa, count, sector);
    RestoredIsOriginal(r, p, Patched(p, usa, count - 1, sector), usa, count, sector, k);
  }

  lemma {:induction false} RestoredIsOriginal(r: seq<byte>, p: seq<byte>, q: seq<byte>, usa: nat, count: nat,
                                              sector: nat, k: nat)
    requires sector >= 2 && count >= 2 && usa + 2 * count <= |r| && TailAt(count - 1, sector) + 2 <= |r|
    requires IsProtected(r, p, usa, count, sector) && ClearOfTails(usa, count, sector)
    requires |q| == |p| && Restored(p, q, usa, count, sector) && k < |r|
    ensures q[k] == if usa <= k < usa + 2 * count then p[k] else r[k]
  {
    if i :| 1 <= i < count && InTail(k, i, sector) {
      assert TailSaved(r, p, usa, count, sector, i) && TailRestored(p, q, usa, count, sector, i);
      assert TailClear(usa, count, sector, i);
    } else {
      assert NoTail(k, count, sector);
    }
  }

  /** The fixup of a file record whose sector tails were saved: its header names the place of the array in bytes
      4 and 5 and the number of its words in bytes 6 and 7, low byte first. Every byte outside the array comes
      back, and the array stays. */
  method RestoreRecord(rec: array<byte>, sector: nat, ghost r: seq<byte>, ghost usa: nat, ghost count: nat)
    returns (ok: bool)
    requires rec.Length == |r| >= 8 && sector >= 2 && count >= 2 && usa > 0
    requires rec[0] == 0x46 && rec[1] == 0x49 && rec[2] == 0x4C && rec[3] == 0x45
    requires rec[4] == usa % 256 && rec[5] == usa / 256 && rec[6] == count % 256 && rec[7] == count / 256
    requires usa + 2 * count <= |r| && TailAt(count - 1, sector) + 2 <= |r|
    requires IsProtected(r, rec[..], usa, count, sector) && ClearOfTails(usa, count, sector)
    modifies rec
    ensures ok
    ensures forall k :: 0 <= k < |r| ==> rec[k] == if usa <= k < usa + 2 * count then old(rec[k]) else r[k]
  {
    ghost var p := rec[..];
    assert p[..4] == [0x46, 0x49, 0x4C, 0x45];
    assert UsaOffset(p) == usa && UsaCount(p) == count;
    var f := FixupRecord(rec, sector);
    ok := f == Accepted;
    forall k | 0 <= k < |r| ensures rec[k] == if usa <= k < usa + 2 * count then p[k] else r[k] {
      FixupInverts(r, p, usa, count, sector, k);
      assert rec[k] == rec[..][k];
    }
  }

  /** Applying the fixup to its own result changes nothing, and the header it reads is the same. */
  lemma {:induction false} FixupIdempotent(p: seq<byte>, usa: nat, count: nat, sector: nat)
    requires sector >= 2 && count >= 2 && usa + 2 * count <= |p| && TailAt(count - 1, sector) + 2 <= |p|
    requires ClearOfTails(usa, count, sector)
    ensures var q := Patched(p, usa, count - 1, sector);
            && Patched(q, usa, count - 1, sector) == q
            && (|p| >= 8 ==> q[..8] == p[..8])
  {
    var q := Patched(p, usa, count - 1, sector);
    PatchedRestores(p, usa, count, sector);
    PatchedRestores(q, usa, count, sector);
    RestoredTwice(p, q, Patched(q, usa, count - 1, sector), usa, count, sector);
  }

  lemma {:induction false} RestoredTwice(p: seq<byte>, q: seq<byte>, q2: seq<byte>, usa: nat, count: nat, sector: nat)
    requires usa + 2 * count <= |p| == |q| == |q2| && ClearOfTails(usa, count, sector)
    requires Restored(p, q, usa, count, sector) && Restored(q, q2, usa, count, sector)
    ensures q2 == q
    ensures |p| >= 8 ==> q[..8] == p[..8]
  {
    forall k | 0 <= k < |p| ensures q2[k] == q[k] {
      if i :| 1 <= i < count && InTail(k, i, sector) {
        assert TailRestored(p, q, usa, count, sector, i) && TailRestored(q, q2, usa, count, sector, i);
        ArrayClear(usa, count, sector, usa + 2 * i, count);
        ArrayClear(usa, count, sector, usa + 2 * i + 1, count);
      } else {
        assert NoTail(k, count, sector);
      }
    }
    forall k | 0 <= k < 8 && k < |p| ensures q[k] == p[k] { ArrayClear(usa, count, sector, k, count); }
  }
}
