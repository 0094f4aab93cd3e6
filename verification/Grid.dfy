/** Progress accounting and the compressed cell grid (src/engine/progress.cpp). */
module Grid {
  import opened Arith
  import opened Extents

  datatype CellStatus = Pending | Ok | ReadErr | WriteErr | Cached {
    predicate IsErr() { ReadErr? || WriteErr? }

    /** Pending < Cached < Ok < error. */
    function Rank(): nat {
      match this
      case Pending => 0
      case Cached => 1
      case Ok => 2
      case ReadErr => 3
      case WriteErr => 3
    }
  }

  /** The new status of a cell with status `cur` when it is marked `st`. */
  function Marked(cur: CellStatus, st: CellStatus): CellStatus {
    if st.IsErr() then st
    else if st.Ok? then (if cur.Pending? || cur.Cached? || cur.Ok? then Ok else cur)
    else if st.Cached? then (if cur.Pending? || cur.Cached? then Cached else cur)
    else if cur.Pending? then st
    else cur
  }

  /** Marking takes the maximum of the ranks. */
  lemma {:induction false} MarkIsMax(cur: CellStatus, st: CellStatus)
    ensures Marked(cur, st).Rank() == if cur.Rank() >= st.Rank() then cur.Rank() else st.Rank()
  {
  }

  /** The status of a cell after a sequence of marks. */
  function MarkAll(cur: CellStatus, marks: seq<CellStatus>): CellStatus {
    if marks == [] then cur else Marked(MarkAll(cur, DropLast(marks)), Last(marks))
  }

  lemma {:induction false} RankReached(cur: CellStatus, marks: seq<CellStatus>, r: nat)
    ensures MarkAll(cur, marks).Rank() >= r <==> cur.Rank() >= r || exists m :: m in marks && m.Rank() >= r
  {
    if marks != [] {
      var front, l := DropLast(marks), Last(marks);
      RankReached(cur, front, r);
      MarkIsMax(MarkAll(cur, front), l);
      assert marks == front + [l];
    }
  }

  /** The rank of a cell does not depend on the order in which it was marked. */
  lemma {:induction false} RankOrderFree(cur: CellStatus, a: seq<CellStatus>, b: seq<CellStatus>)
    requires multiset(a) == multiset(b)
    ensures MarkAll(cur, a).Rank() == MarkAll(cur, b).Rank()
  {
    forall m ensures m in a <==> m in b {
      assert m in multiset(a) <==> m in multiset(b);
    }
    RankReached(cur, a, MarkAll(cur, a).Rank());
    RankReached(cur, b, MarkAll(cur, a).Rank());
    RankReached(cur, a, MarkAll(cur, b).Rank());
    RankReached(cur, b, MarkAll(cur, b).Rank());
  }

  // ---- Grid size ----

  /** ceil(n / d), as the source writes it. */
  function CeilDiv(n: nat, d: nat): nat
    requires d > 0
  {
    (n + d - 1) / d
  }

  /** block << shift. */
  function CellBytes(block: nat, shift: nat): nat {
    if shift == 0 then block else 2 * CellBytes(block, shift - 1)
  }

  /** How many cells of block << shift bytes a total needs; an empty total still gets one. */
  function CellCount(total: nat, block: nat, shift: nat): nat
    requires block > 0
  {
    CellPositive(block, shift);
    if total == 0 then 1 else CeilDiv(total, CellBytes(block, shift))
  }

  lemma {:induction false} CellPositive(block: nat, shift: nat)
    requires block > 0
    ensures CellBytes(block, shift) > 0
  {
    if shift > 0 { CellPositive(block, shift - 1); }
  }

  /** m is the ceiling of n / d. */
  lemma {:induction false} CeilIs(n: nat, d: nat, m: nat)
    requires d > 0
    ensures m == CeilDiv(n, d) <==> (m == 0 && n == 0) || (m > 0 && (m - 1) * d < n <= m * d)
  {
    var q := CeilDiv(n, d);
    DivBounds(n + d - 1, d);
    assert (q - 1) * d == q * d - d;
    if m > q {
      LeMul(q, m - 1, d);
    } else if m < q {
      LeMul(m, q - 1, d);
    }
  }

  /** Halving a cell count, rounded up, is dividing by cells twice as large. */
  lemma {:induction false} HalvingStep(total: nat, block: nat, shift: nat)
    requires block > 0
    ensures (CellCount(total, block, shift) + 1) / 2 == CellCount(total, block, shift + 1)
  {
    CellPositive(block, shift);
    CellPositive(block, shift + 1);
    var d, e := CellBytes(block, shift), CellBytes(block, shift + 1);
    if total > 0 {
      var c := CeilDiv(total, d);
      var h := (c + 1) / 2;
      CeilIs(total, d, c);
      assert c == 2 * h || c == 2 * h - 1;
      assert h * e == (2 * h) * d by { DoubleOver(h, d); }
      assert (h - 1) * e == (2 * h - 2) * d by { DoubleOver(h - 1, d); }
      LeMul(c, 2 * h, d);
      LeMul(2 * h - 2, c - 1, d);
      CeilIs(total, e, h);
    }
  }

  lemma {:induction false} DoubleOver(h: int, d: nat)
    ensures h * (2 * d) == (2 * h) * d
  {
  }

  /** More shift never needs more cells. */
  lemma {:induction false} CountShrinks(total: nat, block: nat, s: nat, t: nat)
    requires block > 0 && s <= t
    ensures CellCount(total, block, t) <= CellCount(total, block, s)
  {
    if s < t {
      CountShrinks(total, block, s, t - 1);
      HalvingStep(total, block, t - 1);
      CountPositive(total, block, t - 1);
    }
  }

  lemma {:induction false} CountPositive(total: nat, block: nat, shift: nat)
    requires block > 0
    ensures CellCount(total, block, shift) > 0
  {
    CellPositive(block, shift);
    if total > 0 { CeilIs(total, CellBytes(block, shift), 0); }
  }

  // ---- The progress object ----

  /** The cell of byte b: b / cell, counted cell by cell so that proofs about it stay linear. */
  function CellOf(b: nat, cell: nat): nat
    requires cell > 0
  {
    if b < cell then 0 else CellOf(b - cell, cell) + 1
  }

  lemma {:induction false} CellOfIs(b: nat, cell: nat)
    requires cell > 0
    ensures CellOf(b, cell) == b / cell
  {
    if b >= cell {
      CellOfIs(b - cell, cell);
      DivShift(b - cell, cell);
    } else {
      DivUnique(b, cell, 0);
    }
  }

  lemma {:induction false} CellMono(a: nat, b: nat, cell: nat)
    requires cell > 0 && a <= b
    ensures CellOf(a, cell) <= CellOf(b, cell)
  {
    if a >= cell { CellMono(a - cell, b - cell, cell); }
  }

  /** The next byte is in the same cell or in the next one. */
  lemma {:induction false} CellStep(b: nat, cell: nat)
    requires cell > 0
    ensures CellOf(b, cell) <= CellOf(b + 1, cell) <= CellOf(b, cell) + 1
  {
    if b >= cell { CellStep(b - cell, cell); }
  }

  /** The first byte of cell i. */
  lemma {:induction false} CellStart(i: nat, cell: nat)
    requires cell > 0
    ensures CellOf(Times(i, cell), cell) == i
  {
    if i > 0 { CellStart(i - 1, cell); }
  }

  lemma {:induction false} CellBounds(b: nat, cell: nat)
    requires cell > 0
    ensures Times(CellOf(b, cell), cell) <= b < Times(CellOf(b, cell) + 1, cell)
  {
    if b >= cell { CellBounds(b - cell, cell); }
  }

  /** Byte range [offset, offset + length) meets cell i. A zero length counts as one byte. */
  predicate Meets(offset: nat, length: nat, i: nat, cell: nat)
    requires cell > 0
  {
    CellOf(offset, cell) <= i <= CellOf(LastByte(offset, length), cell)
  }

  function LastByte(offset: nat, length: nat): nat { offset + (if length > 0 then length else 1) - 1 }

  /** Meeting a cell means sharing a byte with it. */
  lemma {:induction false} MeetsIsOverlap(offset: nat, length: nat, i: nat, cell: nat)
    requires cell > 0 && length > 0
    ensures Meets(offset, length, i, cell) <==> exists b: nat :: offset <= b < offset + length && b / cell == i
  {
    if Meets(offset, length, i, cell) {
      var b := if CellOf(offset, cell) == i then offset else Times(i, cell);
      if CellOf(offset, cell) < i {
        CellStart(i, cell);
        CellBounds(offset, cell);
        CellBounds(offset + length - 1, cell);
        TimesMono(CellOf(offset, cell) + 1, i, cell);
        TimesMono(i, CellOf(offset + length - 1, cell), cell);
      }
      CellOfIs(b, cell);
      assert offset <= b < offset + length && b / cell == i;
    }
    if b: nat :| offset <= b < offset + length && b / cell == i {
      CellOfIs(b, cell);
      CellMono(offset, b, cell);
      CellMono(b, offset + length - 1, cell);
    }
  }

  /** Halves the cell count until it is at most 4096 or the shift is 40. The shift is the least one
      that fits, the grid is then more than half full, and up to 2^52 blocks always fit. */
  method ChooseShift(total: nat, block: nat) returns (shift: nat)
    requires block > 0
    ensures shift <= 40 && (CellCount(total, block, shift) <= 4096 || shift == 40)
    ensures forall s :: 0 <= s < shift ==> CellCount(total, block, s) > 4096
    ensures shift > 0 ==> CellCount(total, block, shift) > 2048
    ensures total <= 0x10_0000_0000_0000 * block ==> CellCount(total, block, shift) <= 4096
  {
    shift := 0;
    var n := if total > 0 then (total + block - 1) / block else 1;
    while n > 4096 && shift < 40
      invariant shift <= 40 && n == CellCount(total, block, shift)
      invariant forall s :: 0 <= s < shift ==> CellCount(total, block, s) > 4096
      invariant shift > 0 ==> n > 2048
      decreases 40 - shift
    {
      HalvingStep(total, block, shift);
      shift := shift + 1;
      n := (n + 1) / 2;
    }
    if total <= 0x10_0000_0000_0000 * block && shift == 40 {
      LargestGrid(total, block, shift);
    }
  }

  datatype LogEntry = LogEntry(offset: nat, length: nat, status: CellStatus)

  class Progress {
    var bytesTotal: nat
    var bytesDone: nat
    var blockSize: nat
    var cellShift: nat
    var cellSize: nat
    var cells: seq<CellStatus>
    var logs: seq<LogEntry>
    var finished: bool
    var failed: bool

    ghost predicate Valid()
      reads this
    {
      && blockSize > 0 && cellSize > 0 && cells != [] && bytesDone <= bytesTotal
    }

    constructor ()
      ensures Valid() && cells == [Pending] && logs == [] && !finished && !failed
      ensures bytesTotal == 0 && bytesDone == 0 && blockSize == 4096 && cellShift == 0
    {
      bytesTotal, bytesDone, blockSize, cellShift, cellSize := 0, 0, 4096, 0, 4096;
      cells, logs, finished, failed := [Pending], [], false, false;
    }

    /** Sizes the grid for a total: the least shift (up to 40) that needs at most 4096 cells. The
        bounds on the arguments keep the source's 64-bit sums from wrapping. */
    method Reset(total: nat, block: nat)
      requires total <= 0x3FFF_FFFF_FFFF_FFFF && block <= 0x3FFF_FFFF_FFFF_FFFF
      modifies this
      ensures Valid() && bytesTotal == total && bytesDone == 0 && logs == [] && !finished && !failed
      ensures blockSize == (if block == 0 then 4096 else block)
      ensures cellSize == CellBytes(blockSize, cellShift) <= 0x7FFF_FFFF_FFFF_FFFF
      ensures |cells| == CellCount(total, blockSize, cellShift)
      ensures forall i :: 0 <= i < |cells| ==> cells[i] == Pending
      ensures cellShift <= 40 && (|cells| <= 4096 || cellShift == 40)
      ensures forall s :: 0 <= s < cellShift ==> CellCount(total, blockSize, s) > 4096
      ensures cellShift > 0 ==> |cells| > 2048
      ensures total <= 0x10_0000_0000_0000 * blockSize ==> |cells| <= 4096
    {
      bytesTotal, bytesDone := total, 0;
      blockSize := if block != 0 then block else 4096;
      cellShift := ChooseShift(total, blockSize);
      CellPositive(blockSize, cellShift);
      cellSize := CellBytes(blockSize, cellShift);
      CellSizeFits(total, blockSize, cellShift);
      var ncells := if total > 0 then (total + cellSize - 1) / cellSize else 1;
      CountPositive(total, blockSize, cellShift);
      cells := seq(ncells, _ => Pending);
      logs, finished, failed := [], false, false;
    }

    method AddDone(n: nat)
      modifies this`bytesDone
      ensures bytesDone == Min(old(bytesDone) + n, bytesTotal)
    {
      bytesDone := bytesDone + n;
      if bytesDone > bytesTotal {
        bytesDone := bytesTotal;
      }
    }

    /** Marks every existing cell that the byte range meets, and no other. */
    method MarkCell(offset: nat, length: nat, st: CellStatus)
      requires Valid()
      modifies this`cells
      ensures |cells| == old(|cells|)
      ensures forall i :: 0 <= i < |cells| ==>
                cells[i] == if Meets(offset, length, i, cellSize) then Marked(old(cells[i]), st) else old(cells[i])
    {
      var first := offset / cellSize;
      var last := (offset + (if length > 0 then length else 1) - 1) / cellSize;
      CellOfIs(offset, cellSize);
      CellOfIs(LastByte(offset, length), cellSize);
      MarkSpan(first, last, st);
    }

    method MarkSpan(first: nat, last: nat, st: CellStatus)
      modifies this`cells
      ensures |cells| == old(|cells|)
      ensures forall i :: 0 <= i < |cells| ==>
                cells[i] == if first <= i <= last then Marked(old(cells[i]), st) else old(cells[i])
    {
      var i := first;
      while i <= last && i < |cells|
        invariant first <= i && |cells| == old(|cells|)
        invariant forall k :: 0 <= k < |cells| ==>
                    cells[k] == if first <= k < i && k <= last then Marked(old(cells[k]), st) else old(cells[k])
      {
        cells := cells[i := Marked(cells[i], st)];
        i := i + 1;
      }
    }

    /** Logs an event and marks its cells. */
    method Log(offset: nat, length: nat, st: CellStatus)
      requires Valid()
      modifies this`cells, this`logs
      ensures logs == old(logs) + [LogEntry(offset, length, st)]
      ensures |cells| == old(|cells|)
      ensures forall i :: 0 <= i < |cells| ==>
                cells[i] == if Meets(offset, length, i, cellSize) then Marked(old(cells[i]), st) else old(cells[i])
    {
      logs := logs + [LogEntry(offset, length, st)];
      MarkCell(offset, length, st);
    }

    /** After a full sync: what was only cached is on the media. */
    method UpgradeCachedToOk()
      modifies this`cells
      ensures |cells| == old(|cells|)
      ensures forall i :: 0 <= i < |cells| ==> cells[i] == if old(cells[i]).Cached? then Ok else old(cells[i])
    {
      for k := 0 to |cells|
        invariant |cells| == old(|cells|)
        invariant forall i :: 0 <= i < |cells| ==>
                    cells[i] == if i < k && old(cells[i]).Cached? then Ok else old(cells[i])
      {
        if cells[k].Cached? {
          cells := cells[k := Ok];
        }
      }
    }

    /** A new run on the same map: every cell pending, counters cleared. */
    method NoteRestart()
      requires Valid()
      modifies this
      ensures Valid() && bytesDone == 0 && !finished && !failed
      ensures bytesTotal == old(bytesTotal) && blockSize == old(blockSize)
      ensures cellShift == old(cellShift) && cellSize == old(cellSize) && logs == old(logs)
      ensures |cells| == old(|cells|) && forall i :: 0 <= i < |cells| ==> cells[i] == Pending
    {
      finished, failed, bytesDone := false, false, 0;
      for k := 0 to |cells|
        invariant |cells| == old(|cells|) && forall i :: 0 <= i < k ==> cells[i] == Pending
        invariant bytesTotal == old(bytesTotal) && blockSize == old(blockSize) && bytesDone == 0
        invariant cellShift == old(cellShift) && cellSize == old(cellSize) && logs == old(logs)
        invariant !finished && !failed
      {
        cells := cells[k := Pending];
      }
    }

    /** A run that did not fail counts as complete, whatever was added up. */
    method SetFinished(failed: bool)
      modifies this`finished, this`failed, this`bytesDone
      ensures finished && this.failed == failed
      ensures bytesDone == if failed then old(bytesDone) else bytesTotal
    {
      finished, this.failed := true, failed;
      if !failed {
        bytesDone := bytesTotal;
      }
    }
  }

  /** A shift the loop reaches keeps block << shift within 63 bits. */
  lemma {:induction false} CellSizeFits(total: nat, block: nat, shift: nat)
    requires 0 < block <= 0x3FFF_FFFF_FFFF_FFFF && total <= 0x3FFF_FFFF_FFFF_FFFF
    requires shift > 0 ==> CellCount(total, block, shift - 1) > 4096
    ensures CellBytes(block, shift) <= 0x7FFF_FFFF_FFFF_FFFF
  {
    if shift > 0 {
      CellPositive(block, shift - 1);
      var d := CellBytes(block, shift - 1);
      CeilIs(total, d, CellCount(total, block, shift - 1));
      LeMul(1, CellCount(total, block, shift - 1) - 1, d);
    }
  }

  /** 2^52 blocks still fit 4096 cells at shift 40. */
  lemma {:induction false} LargestGrid(total: nat, block: nat, shift: nat)
    requires block > 0 && total <= 0x10_0000_0000_0000 * block && shift == 40
    ensures CellCount(total, block, shift) <= 4096
  {
    CellPositive(block, shift);
    CellsAt40(block, shift);
    var d, m := CellBytes(block, shift), CellCount(total, block, shift);
    CeilIs(total, d, m);
    if m > 4096 { LeMul(4096, m - 1, d); }
  }

  lemma {:induction false} CellsAt40(block: nat, shift: nat)
    requires shift == 40
    ensures CellBytes(block, shift) == 0x100_0000_0000 * block
  {
    CellsBy10(block, 0);
    CellsBy10(block, 10);
    CellsBy10(block, 20);
    CellsBy10(block, 30);
  }

  lemma {:induction false} CellsBy10(block: nat, shift: nat)
    ensures CellBytes(block, shift + 10) == 1024 * CellBytes(block, shift)
  {
    assert CellBytes(block, shift + 5) == 32 * CellBytes(block, shift) by {
      assert CellBytes(block, shift + 3) == 8 * CellBytes(block, shift) by {
        assert CellBytes(block, shift + 2) == 2 * CellBytes(block, shift + 1);
      }
      assert CellBytes(block, shift + 5) == 2 * CellBytes(block, shift + 4);
    }
    assert CellBytes(block, shift + 7) == 2 * CellBytes(block, shift + 6);
    assert CellBytes(block, shift + 9) == 2 * CellBytes(block, shift + 8);
  }

  /** The cells cover every byte of the total, and the last byte lies in the last cell. */
  lemma {:induction false} CellsCover(total: nat, block: nat, shift: nat, b: nat)
    requires block > 0 && b < total
    ensures CellBytes(block, shift) > 0
    ensures CellOf(total - 1, CellBytes(block, shift)) == CellCount(total, block, shift) - 1
    ensures CellOf(b, CellBytes(block, shift)) < CellCount(total, block, shift)
  {
    CellPositive(block, shift);
    var d := CellBytes(block, shift);
    assert total + d - 1 == (total - 1) + d;
    DivShift(total - 1, d);
    CellOfIs(total - 1, d);
    CellMono(b, total - 1, d);
  }
}
