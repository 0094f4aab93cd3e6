/** Runs of the rewrite engine over a whole device: the linear run, the recursive work list, and what
    they record in the catalog (src/engine/massage.cpp). */
module Engine {
  import opened Extents
  import opened Options
  import opened Grid
  import opened Devices
  import opened BlockIo
  import Fat
  import opened Paths
  import opened FolderTree
  import C = Catalog
  import opened Stores

  /** What a run is asked to do, and whether its buffers can be had. */
  datatype Job = Job(flags: Flags, blockSize: nat, now: int, bufOk: bool, verifyBufOk: bool)

  // ---- The record of a rewrite ----

  function SpanOf(f: Failure): C.Span {
    C.Span(f.at.offset, f.at.length, if f.kind.ReadError? then 1 else 2)
  }

  function SpansOf(errors: seq<Failure>): (spans: seq<C.Span>)
    ensures |spans| == |errors| && forall i :: 0 <= i < |errors| ==> spans[i] == SpanOf(errors[i])
  {
    seq(|errors|, i requires 0 <= i < |errors| => SpanOf(errors[i]))
  }

  /** The stored extents of a path are these failures, one row each, in order: where they are, 1 for a read error
      and 2 for a write error, and the time of the run. */
  ghost predicate LedgerStored(rows: seq<C.ExtentRow>, path: string, errors: seq<Failure>, now: int) {
    var at := C.RowsAt(rows, path);
    |at| == |errors| && forall k :: 0 <= k < |errors| ==> RowSays(at[k], path, errors[k], now)
  }

  predicate RowSays(row: C.ExtentRow, path: string, f: Failure, now: int) {
    && row.path == path && row.offset == f.at.offset && row.length == f.at.length && row.updatedAt == now
    && (f.kind.ReadError? ==> row.status == 1) && (f.kind.WriteError? ==> row.status == 2)
  }

  /** The rows of all other paths are as they were. */
  ghost predicate OthersKept(was: seq<C.ExtentRow>, rows: seq<C.ExtentRow>, path: string) {
    forall q :: q != path ==> C.RowsAt(rows, q) == C.RowsAt(was, q)
  }

  /** What a rewrite leaves in the extents of its path and of all others. */
  lemma {:induction false} RewrittenLedger(v: C.Contents, path: string, size: nat, errors: seq<Failure>, now: int)
    ensures LedgerStored(C.Rewritten(v, path, size, SpansOf(errors), now).extents, path, errors, now)
    ensures OthersKept(v.extents, C.Rewritten(v, path, size, SpansOf(errors), now).extents, path)
  {
    C.ReplacedAt(v, path, SpansOf(errors), now);
    assert C.Rewritten(v, path, size, SpansOf(errors), now).extents ==
           C.Replaced(v, path, SpansOf(errors), now).extents;
    var at := C.RowsAt(C.Rewritten(v, path, size, SpansOf(errors), now).extents, path);
    forall k | 0 <= k < |errors| ensures RowSays(at[k], path, errors[k], now) {
      assert SpansOf(errors)[k] == SpanOf(errors[k]);
    }
  }

  /** The bytes that the stored extents of a path name. */
  predicate RowHolds(rows: seq<C.ExtentRow>, path: string, b: int) {
    exists k :: 0 <= k < |rows| && rows[k].path == path && rows[k].offset <= b < rows[k].offset + rows[k].length
  }

  /** A byte lies in a chunk that failed. */
  predicate FailedAt(cs: seq<Extent>, os: seq<Outcome>, b: int) {
    exists k :: 0 <= k < |cs| && k < |os| && !os[k].Good? && cs[k].offset <= b < cs[k].End()
  }

  /** The same, of the rows and of the failures of a path only. */
  predicate InRows(at: seq<C.ExtentRow>, b: int) {
    exists k :: 0 <= k < |at| && at[k].offset <= b < at[k].offset + at[k].length
  }

  predicate InFailures(fs: seq<Failure>, b: int) {
    exists k :: 0 <= k < |fs| && fs[k].at.offset <= b < fs[k].at.End()
  }

  lemma {:induction false} RowAt(rows: seq<C.ExtentRow>, path: string, b: int)
    ensures RowHolds(rows, path, b) <==> InRows(C.RowsAt(rows, path), b)
  {
    if rows != [] {
      var front, last := DropLast(rows), Last(rows);
      RowAt(front, path, b);
      var at, less := C.RowsAt(rows, path), C.RowsAt(front, path);
      assert rows[|rows| - 1] == last && forall k :: 0 <= k < |front| ==> front[k] == rows[k];
      if last.path == path { assert at[|less|] == last; }
      assert forall k :: 0 <= k < |less| ==> at[k] == less[k];
    }
  }

  lemma {:induction false} FailureAt(cs: seq<Extent>, os: seq<Outcome>, b: int)
    requires |cs| == |os|
    ensures FailedAt(cs, os, b) <==> InFailures(Ledger(cs, os), b)
  {
    if cs != [] {
      var front, fo, t, o := DropLast(cs), DropLast(os), Last(cs), Last(os);
      FailureAt(front, fo, b);
      var fs, less := Ledger(cs, os), Ledger(front, fo);
      assert cs[|cs| - 1] == t && os[|cs| - 1] == o;
      assert forall k :: 0 <= k < |front| ==> front[k] == cs[k] && fo[k] == os[k];
      if !o.Good? { assert fs[|less|].at == t; }
      assert forall k :: 0 <= k < |less| ==> fs[k] == less[k];
    }
  }

  /** The stored extents of a path name exactly the bytes of the chunks that failed. */
  lemma {:induction false} LedgerBytes(rows: seq<C.ExtentRow>, path: string, cs: seq<Extent>, os: seq<Outcome>,
                                       now: int, b: int)
    requires |cs| == |os| && LedgerStored(rows, path, Ledger(cs, os), now)
    ensures RowHolds(rows, path, b) <==> FailedAt(cs, os, b)
  {
    RowAt(rows, path, b);
    FailureAt(cs, os, b);
    SameBytes(C.RowsAt(rows, path), path, Ledger(cs, os), now, b);
  }

  lemma {:induction false} SameBytes(at: seq<C.ExtentRow>, path: string, fs: seq<Failure>, now: int, b: int)
    requires |at| == |fs| && forall k :: 0 <= k < |fs| ==> RowSays(at[k], path, fs[k], now)
    ensures InRows(at, b) <==> InFailures(fs, b)
  {
    if k :| 0 <= k < |at| && at[k].offset <= b < at[k].offset + at[k].length {
      assert RowSays(at[k], path, fs[k], now);
    }
    if k :| 0 <= k < |fs| && fs[k].at.offset <= b < fs[k].at.End() {
      assert RowSays(at[k], path, fs[k], now);
      assert at[k].offset <= b < at[k].offset + at[k].length;
    }
  }

  /** record_rewrite: the errors become the bad extents of the path, and the path counts as massaged. */
  method RecordRewrite(store: Store, path: string, size: nat, errors: seq<Failure>, now: int)
    requires store.Valid()
    modifies store
    ensures store.Valid() && store.View() == C.Rewritten(old(store.View()), path, size, SpansOf(errors), now)
    ensures SubTable(old(store.folders), store.folders)
    ensures LedgerStored(store.extents, path, errors, now) && OthersKept(old(store.extents), store.extents, path)
  {
    RewrittenLedger(store.View(), path, size, errors, now);
    var spans: seq<C.Span> := [];
    for i := 0 to |errors|
      invariant |spans| == i && forall k :: 0 <= k < i ==> spans[k] == SpanOf(errors[k])
      modifies {}
    {
      spans := spans + [SpanOf(errors[i])];
    }
    assert spans == SpansOf(errors);
    ghost var v := store.View();
    store.ReplaceExtents(path, spans, now);
    assert store.View() == C.Replaced(v, path, spans, now);
    var ok := store.BumpMassage(path, size, now);
    assert C.Base(C.Opened(C.Replaced(v, path, spans, now), path), path) ==
           C.Base(C.Replaced(v, path, spans, now), path);
  }

  /** run_one: a dry run without errors leaves no record. */
  ghost function Recorded(v: C.Contents, job: Job, path: string, size: nat, errors: seq<Failure>): C.Contents {
    if job.flags.dryRun && errors == [] then v else C.Rewritten(v, path, size, SpansOf(errors), job.now)
  }

  /** What the catalog has of a run: a dry run without errors leaves no trace, and any other one the ledger. */
  ghost predicate Kept(job: Job, path: string, errors: seq<Failure>, was: seq<C.ExtentRow>, rows: seq<C.ExtentRow>) {
    if job.flags.dryRun && errors == [] then rows == was
    else LedgerStored(rows, path, errors, job.now) && OthersKept(was, rows, path)
  }

  /** A run that could be set up begins the chunks of its tiling until a stop is requested, and any other one none. */
  ghost predicate Begun(ready: bool, all: seq<Extent>, chunks: seq<Extent>, was: Switch, now: Switch, stopped: bool) {
    if ready then StopsAt(chunks, all, was, now, stopped) else chunks == [] && !stopped && now == was
  }

  /** The tiling of a range. */
  function TilingOf(dev: Device, job: Job, t: Extent): seq<Extent> {
    Chunks(t.offset, t.offset + t.length, BlockSize(job.blockSize, dev.align, job.flags))
  }

  predicate Ready(dev: Device, job: Job) { SetUp(dev, job.flags, job.bufOk, job.verifyBufOk) }

  method RunOne(dev: Device, store: Store, progress: Progress, pause: PauseControl, job: Job, path: string,
                t: Extent)
    returns (errors: seq<Failure>, ghost stopped: bool, ghost chunks: seq<Extent>, ghost outcomes: seq<Outcome>)
    requires store.Valid() && progress.Valid()
    requires t.End() <= U64_MAX && job.blockSize + Alignment(dev.align) <= U64_MAX
    modifies dev, store, pause, progress`cells, progress`logs, progress`bytesDone
    ensures dev.data == old(dev.data) && progress.Valid() && store.Valid()
    ensures Begun(Ready(dev, job), TilingOf(dev, job, t), chunks, old(pause.Now()), pause.Now(), stopped)
    ensures Done(ConfigOf(dev, progress, job.flags), old(SnapOf(dev, progress)), SnapOf(dev, progress), t.offset,
                 t.offset + t.length, chunks, outcomes, errors, stopped)
    ensures store.View() == Recorded(old(store.View()), job, path, t.length, errors)
    ensures Kept(job, path, errors, old(store.extents), store.extents)
  {
    var ok;
    ghost var all, first := TilingOf(dev, job, t), pause.Now();
    ok, errors, stopped, chunks, outcomes :=
      RewriteRange(dev, t.offset, t.length, job.blockSize, job.flags, pause, progress, job.bufOk, job.verifyBufOk);
    assert Begun(Ready(dev, job), all, chunks, first, pause.Now(), stopped);
    ghost var c, now := ConfigOf(dev, progress, job.flags), SnapOf(dev, progress);
    RecordOutcome(store, job, path, t.length, errors);
    assert SnapOf(dev, progress) == now && ConfigOf(dev, progress, job.flags) == c;
  }

  /** A dry run without errors leaves no record. */
  method RecordOutcome(store: Store, job: Job, path: string, size: nat, errors: seq<Failure>)
    requires store.Valid()
    modifies store
    ensures store.Valid() && store.View() == Recorded(old(store.View()), job, path, size, errors)
    ensures Kept(job, path, errors, old(store.extents), store.extents)
  {
    if !job.flags.dryRun || errors != [] {
      RecordRewrite(store, path, size, errors, job.now);
    }
  }

  /** A failure in a file of the folder "d" whose name field is all blank makes a clean catalog unclean,
      because the scan's path for it ends with a slash. */
  lemma {:induction false} BlankNameUnclean(v: C.Contents, job: Job, field: string, size: nat, f: Failure)
    requires C.WellFormed(v) && C.Clean(v) && |field| == 11 && forall i :: 0 <= i < 11 ==> field[i] == ' '
    ensures !C.Clean(Recorded(v, job, "/d" + "/" + Fat.ShortName(field), size, [f]))
  {
    Fat.BlankShortName(field);
    assert "/d" + "/" + "" == "/d/";
    assert SpansOf([f]) == [SpanOf(f)];
    C.RewriteLeavesOrphan(v, size, SpanOf(f), job.now);
  }

  // ---- The linear run ----

  /** The grid says exactly which bytes failed: a cell is an error cell, with the status of the last
      failure that meets it, exactly when its byte range meets a failed chunk; every other cell is Ok. */
  ghost predicate GridIsLedger(cells: seq<CellStatus>, cell: nat, errors: seq<Failure>)
    requires cell > 0
  {
    forall i {:trigger CellIsLedger(cells[i], i, cell, errors)} :: 0 <= i < |cells| ==>
      CellIsLedger(cells[i], i, cell, errors)
  }

  ghost predicate CellIsLedger(st: CellStatus, i: nat, cell: nat, errors: seq<Failure>)
    requires cell > 0
  {
    && (st.IsErr() <==> exists k :: 0 <= k < |errors| && Meets(errors[k].at.offset, errors[k].at.length, i, cell))
    && (if st.IsErr() then Blame(errors, i, cell) == Some(st) else st == Ok)
  }

  ghost predicate AllPending(cells: seq<CellStatus>) {
    forall i :: 0 <= i < |cells| ==> cells[i] == Pending
  }

  /** The cells before and after the promotion of what is cached, if there is one. */
  ghost predicate Upgraded(cells: seq<CellStatus>, final: seq<CellStatus>, up: bool) {
    |final| == |cells| &&
    forall i :: 0 <= i < |cells| ==> final[i] == if up && cells[i].Cached? then Ok else cells[i]
  }

  /** After the whole of a fresh map was processed, promoting what is cached leaves the exact image of
      the ledger. */
  lemma {:induction false} FinalCell(total: nat, block: nat, shift: nat, i: nat, st: CellStatus, errors: seq<Failure>,
                                     flushed: bool)
    requires block > 0 && total > 0 && CellBytes(block, shift) > 0 && i < CellCount(total, block, shift)
    requires CellFits(Pending, st, Touched(0, total, i, CellBytes(block, shift)), flushed,
                      Blame(errors, i, CellBytes(block, shift)))
    ensures CellIsLedger(if st.Cached? then Ok else st, i, CellBytes(block, shift), errors)
    ensures flushed ==> !st.Cached?
  {
    CellsCover(total, block, shift, 0);
    BlamedIffMet(errors, i, CellBytes(block, shift));
  }

  /** What a run over a fresh map shows in the end: the last failure that meets a cell; else Pending where no
      chunk was processed, Ok where all is known to be flushed, and Cached elsewhere. */
  ghost predicate GridShows(cells: seq<CellStatus>, cell: nat, pos: nat, upto: nat, up: bool, errors: seq<Failure>)
    requires cell > 0
  {
    forall i :: 0 <= i < |cells| ==> CellShows(cells, cell, pos, upto, up, errors, i)
  }

  ghost predicate CellShows(cells: seq<CellStatus>, cell: nat, pos: nat, upto: nat, up: bool, errors: seq<Failure>,
                            i: nat)
    requires cell > 0 && i < |cells|
  {
    cells[i] == if Blame(errors, i, cell).Some? then Blame(errors, i, cell).value
                else if !Touched(0, pos, i, cell) then Pending
                else if up || Touched(0, upto, i, cell) then Ok else Cached
  }

  lemma {:induction false} FinalGrid(was: seq<CellStatus>, cells: seq<CellStatus>, final: seq<CellStatus>, total: nat,
                                     block: nat, shift: nat, errors: seq<Failure>, upto: nat, upgraded: bool)
    requires block > 0 && total > 0 && CellBytes(block, shift) > 0
    requires |was| == CellCount(total, block, shift) && AllPending(was)
    requires GridFits(was, cells, CellBytes(block, shift), 0, total, errors, upto)
    requires Upgraded(cells, final, upgraded) && (upgraded || upto == total)
    ensures GridIsLedger(final, CellBytes(block, shift), errors)
  {
    forall i | 0 <= i < |final| ensures CellIsLedger(final[i], i, CellBytes(block, shift), errors) {
      CellsCover(total, block, shift, 0);
      assert CellFitsAt(was, cells, CellBytes(block, shift), 0, total, errors, upto, i);
      FinalCell(total, block, shift, i, cells[i], errors, Touched(0, upto, i, CellBytes(block, shift)));
    }
  }

  lemma {:induction false} FreshGrid(was: seq<CellStatus>, cells: seq<CellStatus>, final: seq<CellStatus>, cell: nat,
                                     pos: nat, errors: seq<Failure>, upto: nat, up: bool)
    requires cell > 0 && AllPending(was) && GridFits(was, cells, cell, 0, pos, errors, upto)
    requires Upgraded(cells, final, up)
    requires upto <= pos
    ensures GridShows(final, cell, pos, upto, up, errors)
  {
    forall i | 0 <= i < |final|
      ensures CellShows(final, cell, pos, upto, up, errors, i)
    {
      assert CellFitsAt(was, cells, cell, 0, pos, errors, upto, i);
      BlamedIffMet(errors, i, cell);
    }
  }

  /** Waits for the full-disk sync, which is over after some polls, or for a stop request. */
  method WaitForSync(pause: PauseControl, polls: nat) returns (waited: nat)
    modifies pause
    ensures (old(pause.stop) ==> pause.stop) && waited <= polls
    ensures waited < polls ==> pause.stop
  {
    waited := 0;
    while waited < polls
      invariant (old(pause.stop) ==> pause.stop) && waited <= polls
    {
      var asked := pause.StopRequested();
      if asked {
        return;
      }
      waited := waited + 1;
    }
  }

  /** Promotes what is cached after a full sync, unless the run only read, was stopped, or wrote through. */
  method SyncAndUpgrade(progress: Progress, pause: PauseControl, job: Job, polls: nat) returns (ghost up: bool)
    requires progress.Valid()
    modifies pause, progress`cells
    ensures progress.Valid() && (old(pause.stop) ==> pause.stop)
    ensures Upgraded(old(progress.cells), progress.cells, up)
    ensures up <==> !job.flags.dryRun && !job.flags.writeThrough && !pause.stop
  {
    up := false;
    var asked := pause.StopRequested();
    if job.flags.dryRun || asked || job.flags.writeThrough {
      return;
    }
    var waited := WaitForSync(pause, polls);
    asked := pause.StopRequested();
    if !asked {
      progress.UpgradeCachedToOk();
      up := true;
    }
  }

  /** After the rewrite: the result says whether a stop was requested, and what is cached is synced. */
  method FinishRun(progress: Progress, pause: PauseControl, job: Job, polls: nat) returns (rc: nat, ghost up: bool)
    requires progress.Valid()
    modifies pause, progress`cells
    ensures progress.Valid() && (rc != 0 ==> pause.stop)
    ensures rc == if old(pause.Now()).Ask().stop then 1 else 0
    ensures old(pause.stop) ==> pause.stop
    ensures Upgraded(old(progress.cells), progress.cells, up)
    ensures up <==> !job.flags.dryRun && !job.flags.writeThrough && !pause.stop
  {
    var asked := pause.StopRequested();
    rc := if asked then 1 else 0;
    up := SyncAndUpgrade(progress, pause, job, polls);
  }

  /** Whether a run that asks for a stop before each of these chunks, and once more at the end, is stopped. */
  predicate Interrupted(was: Switch, ready: bool, all: seq<Extent>) {
    was.StopBy((if ready then |all| else 0) + 1)
  }

  /** A linear run over a device without a partition table.

      Whatever the kernel does, the device keeps its bytes, each chunk has the outcome that the kernel's script
      gives it, the device saw exactly the transfers of the chunks processed with their outcomes, and the errors
      are exactly the chunks that failed. When the run could be set up it begins the chunks of the tiling of the
      whole device until a stop is requested; if none was, and the device is not empty, the grid is the exact
      image of the errors. The extents under "::linear" then name exactly the bytes of the failed chunks, except
      after a dry run without errors. It returns zero exactly when no stop was requested in time, also when it
      could not be set up; zero means that the device was processed exactly when it could. */
  method LinearRun(dev: Device, store: Store, progress: Progress, pause: PauseControl, job: Job, polls: nat)
    returns (rc: nat, errors: seq<Failure>, ghost chunks: seq<Extent>, ghost outcomes: seq<Outcome>,
             ghost all: seq<Extent>, ghost ready: bool, ghost stopped: bool, ghost upto: nat, ghost up: bool)
    requires store.Valid()
    requires |dev.data| <= 0x3FFF_FFFF_FFFF_FFFF && 0 < job.blockSize <= 0x3FFF_FFFF_FFFF_FFFF
    requires job.blockSize + Alignment(dev.align) <= U64_MAX
    modifies dev, store, pause, progress
    ensures dev.data == old(dev.data) && progress.Valid() && store.Valid()
    ensures Transferred(job.flags, dev.hasDirect, dev.align, dev.data, old(dev.ops), dev.ops, chunks, outcomes, errors)
    ensures RunEnd(outcomes, dev.replies) ==
            Answers(job.flags, dev.hasDirect, dev.align, dev.data, old(dev.replies), chunks)
    ensures FailsAsTold(job.flags, dev.hasDirect, dev.align, true, old(dev.replies), dev.replies, chunks, errors)
    ensures all == Chunks(0, |dev.data|, BlockSize(job.blockSize, dev.align, job.flags)) && ready == Ready(dev, job)
    ensures rc == 0 <==> !Interrupted(old(pause.Now()), ready, all)
    ensures if ready then BegunUntil(chunks, all, old(pause.Now())) else chunks == [] && errors == []
    ensures stopped <==> ready && |chunks| < |all|
    ensures rc == 0 && dev.data != [] ==> (|chunks| == |all| <==> ready)
    ensures up <==> !job.flags.dryRun && !job.flags.writeThrough && !pause.stop
    ensures |chunks| == |outcomes|
    ensures upto == Flushed(0, job.flags.dryRun || job.flags.writeThrough || job.flags.verifyWrites, old(dev.probes),
                            chunks, outcomes, stopped).upto
    ensures GridShows(progress.cells, progress.cellSize, Total(chunks), upto, up, errors)
    ensures ready && !pause.stop && dev.data != [] ==> GridIsLedger(progress.cells, progress.cellSize, errors)
    ensures store.View() == Recorded(old(store.View()), job, "::linear", |dev.data|, errors)
    ensures Kept(job, "::linear", errors, old(store.extents), store.extents)
    ensures !job.flags.dryRun || errors != [] ==>
              forall b :: RowHolds(store.extents, "::linear", b) <==> FailedAt(chunks, outcomes, b)
    ensures rc != 0 ==> rc == 1 && pause.stop
  {
    var size := |dev.data|;
    ghost var was;
    was, errors, stopped, chunks, outcomes, all, ready, upto := LinearPass(dev, store, progress, pause, job, size);
    ghost var fs, files, objects, rows, open :=
      store.folders, store.files, store.objects, store.extents, store.hasVolume;
    rc, up := FinishLinear(progress, pause, job, polls, size, BlockSize(job.blockSize, dev.align, job.flags),
                           old(pause.Now()), was, all, ready, chunks, stopped, errors, upto);
    assert store.folders == fs && store.files == files && store.objects == objects && store.extents == rows;
    assert store.hasVolume == open;
  }

  /** The end of a linear run: its result, the sync, and what it shows. */
  method FinishLinear(progress: Progress, pause: PauseControl, job: Job, polls: nat, ghost size: nat, ghost chunk: nat,
                      ghost first: Switch, ghost was: seq<CellStatus>, ghost all: seq<Extent>, ghost ready: bool,
                      ghost chunks: seq<Extent>, ghost stopped: bool, ghost errors: seq<Failure>, ghost upto: nat)
    returns (rc: nat, ghost up: bool)
    requires progress.Valid() && progress.blockSize > 0 && chunk > 0 && all == Chunks(0, size, chunk)
    requires progress.cellSize == CellBytes(progress.blockSize, progress.cellShift)
    requires Begun(ready, all, chunks, first, pause.Now(), stopped)
    requires AllPending(was) && |was| == CellCount(size, progress.blockSize, progress.cellShift)
    requires GridFits(was, progress.cells, progress.cellSize, 0, Total(chunks), errors, upto)
    requires UptoFits(upto, 0, chunks, job.flags.Immediate())
    modifies pause, progress`cells
    ensures progress.Valid()
    ensures rc == 0 <==> !Interrupted(first, ready, all)
    ensures if ready then BegunUntil(chunks, all, first) else chunks == []
    ensures stopped <==> ready && |chunks| < |all|
    ensures rc == 0 && size > 0 ==> (|chunks| == |all| <==> ready)
    ensures up <==> !job.flags.dryRun && !job.flags.writeThrough && !pause.stop
    ensures GridShows(progress.cells, progress.cellSize, Total(chunks), upto, up, errors)
    ensures ready && !pause.stop && size > 0 ==> GridIsLedger(progress.cells, progress.cellSize, errors)
    ensures rc != 0 ==> rc == 1 && pause.stop
  {
    ghost var now, cells := pause.Now(), progress.cells;
    rc, up := FinishRun(progress, pause, job, polls);
    LinearStop(all, ready, first, now, chunks, stopped, rc != 0);
    LinearOutcome(size, chunk, progress.blockSize, progress.cellShift, ready, stopped, pause.stop, was, cells,
                  progress.cells, all, chunks, errors, job.flags, up, upto);
  }

  lemma {:induction false} StoredBytes(rows: seq<C.ExtentRow>, job: Job, path: string, errors: seq<Failure>,
                                       chunks: seq<Extent>, outcomes: seq<Outcome>, was: seq<C.ExtentRow>)
    requires |chunks| == |outcomes| && errors == Ledger(chunks, outcomes) && Kept(job, path, errors, was, rows)
    ensures !job.flags.dryRun || errors != [] ==>
              forall b :: RowHolds(rows, path, b) <==> FailedAt(chunks, outcomes, b)
  {
    if !job.flags.dryRun || errors != [] {
      forall b ensures RowHolds(rows, path, b) <==> FailedAt(chunks, outcomes, b) {
        LedgerBytes(rows, path, chunks, outcomes, job.now, b);
      }
    }
  }

  /** When a linear run is stopped. */
  lemma {:induction false} LinearStop(all: seq<Extent>, ready: bool, was: Switch, now: Switch, chunks: seq<Extent>,
                                      stopped: bool, asked: bool)
    requires Begun(ready, all, chunks, was, now, stopped) && asked == now.Ask().stop
    ensures asked <==> Interrupted(was, ready, all)
    ensures stopped ==> asked
    ensures ready ==> BegunUntil(chunks, all, was) && (stopped <==> |chunks| < |all|)
    ensures !ready ==> chunks == [] && !stopped
  {
    var k := |chunks| + if stopped then 1 else 0;
    assert now == was.Asked(k);
    AskedIff(was, k);
    AskedIff(was, k + 1);
  }

  /** What a linear run shows in the end. */
  lemma {:induction false} LinearOutcome(size: nat, chunk: nat, block: nat, shift: nat, ready: bool, stopped: bool,
                                         asked: bool, was: seq<CellStatus>, cells: seq<CellStatus>,
                                         final: seq<CellStatus>, all: seq<Extent>, chunks: seq<Extent>,
                                         errors: seq<Failure>, flags: Flags, up: bool, upto: nat)
    requires chunk > 0 && block > 0 && CellBytes(block, shift) > 0 && (stopped ==> asked)
    requires all == Chunks(0, size, chunk)
    requires if ready then stopped || (chunks <= all && |chunks| == |all|) else chunks == []
    requires AllPending(was) && |was| == CellCount(size, block, shift)
    requires GridFits(was, cells, CellBytes(block, shift), 0, Total(chunks), errors, upto)
    requires UptoFits(upto, 0, chunks, flags.Immediate())
    requires Upgraded(cells, final, up) && (!asked ==> up == (!flags.dryRun && !flags.writeThrough))
    ensures size > 0 ==> |all| > 0
    ensures ready && !asked && size > 0 ==> GridIsLedger(final, CellBytes(block, shift), errors)
    ensures GridShows(final, CellBytes(block, shift), Total(chunks), upto, up, errors)
  {
    FreshGrid(was, cells, final, CellBytes(block, shift), Total(chunks), errors, upto, up);
    ChunksTile(0, size, chunk);
    BytesLength(all);
    if ready && !stopped { assert chunks == all; }
    if ready && !asked && size > 0 {
      FinalGrid(was, cells, final, size, block, shift, errors, upto, up);
    }
  }

  /** A run that may write counts "::linear" as massaged even when it could not be set up, for example for
      want of a buffer or of direct I/O, and so did nothing. */
  lemma {:induction false} CountedAnyway(v: C.Contents, job: Job, size: nat)
    requires !job.flags.dryRun
    ensures var was, now := C.Base(v, "::linear"), C.Lookup(Recorded(v, job, "::linear", size, []), "::linear");
            now == Some(C.Massaged(was, size, job.now)) && now.value.massageCount == was.massageCount + 1
  {
    var spans := SpansOf([]);
    var r := C.Opened(C.Replaced(v, "::linear", spans, job.now), "::linear");
    assert C.Base(r, "::linear") == C.Base(v, "::linear");
    C.LookupUpserted(r, "::linear", C.Massaged(C.Base(r, "::linear"), size, job.now), "::linear");
  }

  /** What a finished linear run asked of the device: every byte was read exactly once, in order, and
      unless it was a dry run exactly the chunks that could be read were written. */
  lemma {:induction false} LinearTransfers(flags: Flags, hasDirect: bool, align: nat, data: seq<byte>, was: seq<Op>,
                                           now: seq<Op>, block: nat, chunks: seq<Extent>, outcomes: seq<Outcome>,
                                           errors: seq<Failure>)
    requires block > 0 && chunks == Chunks(0, |data|, block)
    requires Transferred(flags, hasDirect, align, data, was, now, chunks, outcomes, errors)
    ensures was <= now && Bytes(Reads(now[|was|..])) == Run(Extent(0, |data|))
    ensures Writes(now[|was|..]) == Written(flags, chunks, outcomes)
    ensures PairwiseDisjoint(Writes(now[|was|..]))
  {
    assert now[|was|..] == AllOps(flags, hasDirect, align, data, chunks, outcomes);
    ReadsAreChunks(flags, hasDirect, align, data, chunks, outcomes);
    WritesAreWritten(flags, hasDirect, align, data, chunks, outcomes);
    ChunksTile(0, |data|, block);
    ChunksShape(0, |data|, block);
    RunDistinct(Extent(0, |data|));
    DistinctDisjoint(chunks);
    WrittenApart(flags, chunks, outcomes);
  }

  lemma {:induction false} RunDistinct(e: Extent)
    ensures Distinct(Run(e))
  {
  }

  /** The rewrite phase of a linear run: a fresh map, and one pass over the whole device. */
  method LinearPass(dev: Device, store: Store, progress: Progress, pause: PauseControl, job: Job, size: nat)
    returns (ghost was: seq<CellStatus>, errors: seq<Failure>, ghost stopped: bool, ghost chunks: seq<Extent>,
             ghost outcomes: seq<Outcome>, ghost all: seq<Extent>, ghost ready: bool, ghost upto: nat)
    requires store.Valid() && size == |dev.data|
    requires size <= 0x3FFF_FFFF_FFFF_FFFF && 0 < job.blockSize <= 0x3FFF_FFFF_FFFF_FFFF
    requires job.blockSize + Alignment(dev.align) <= U64_MAX
    modifies dev, store, pause, progress
    ensures dev.data == old(dev.data) && progress.Valid() && store.Valid()
    ensures all == TilingOf(dev, job, Extent(0, size)) && ready == Ready(dev, job)
    ensures Begun(ready, all, chunks, old(pause.Now()), pause.Now(), stopped)
    ensures Transferred(job.flags, dev.hasDirect, dev.align, dev.data, old(dev.ops), dev.ops, chunks, outcomes, errors)
    ensures RunEnd(outcomes, dev.replies) ==
            Answers(job.flags, dev.hasDirect, dev.align, dev.data, old(dev.replies), chunks)
    ensures FailsAsTold(job.flags, dev.hasDirect, dev.align, true, old(dev.replies), dev.replies, chunks, errors)
    ensures progress.cellSize == CellBytes(progress.blockSize, progress.cellShift)
    ensures AllPending(was) && |was| == CellCount(size, progress.blockSize, progress.cellShift)
    ensures upto == Flushed(0, job.flags.Immediate(), old(dev.probes), chunks, outcomes, stopped).upto
    ensures GridFits(was, progress.cells, progress.cellSize, 0, Total(chunks), errors, upto)
    ensures UptoFits(upto, 0, chunks, job.flags.Immediate())
    ensures store.View() == Recorded(old(store.View()), job, "::linear", size, errors)
    ensures Kept(job, "::linear", errors, old(store.extents), store.extents)
    ensures !job.flags.dryRun || errors != [] ==>
              forall b :: RowHolds(store.extents, "::linear", b) <==> FailedAt(chunks, outcomes, b)
  {
    progress.Reset(size, job.blockSize);
    was, all, ready := progress.cells, TilingOf(dev, job, Extent(0, size)), Ready(dev, job);
    ghost var probes := dev.probes;
    errors, stopped, chunks, outcomes := RunOne(dev, store, progress, pause, job, "::linear", Extent(0, size));
    upto := Flushed(0, job.flags.Immediate(), probes, chunks, outcomes, stopped).upto;
    StoredBytes(store.extents, job, "::linear", errors, chunks, outcomes, old(store.extents));
  }

  // ---- The recursive run ----

  /** One piece of work: a path and a byte range to rewrite for it. */
  datatype WorkItem = WorkItem(path: string, at: Extent)

  function ItemsOf(path: string, exts: seq<Extent>): seq<WorkItem> {
    if exts == [] then []
    else ItemsOf(path, DropLast(exts)) + if Last(exts).length == 0 then [] else [WorkItem(path, Last(exts))]
  }

  /** The work list of an object list: all extents in order, without the empty ones. */
  function WorkOf(objects: seq<FsObject>): seq<WorkItem> {
    if objects == [] then [] else WorkOf(DropLast(objects)) + ItemsOf(Last(objects).path, Last(objects).extents)
  }

  function ExtentsOf(work: seq<WorkItem>): seq<Extent> {
    if work == [] then [] else ExtentsOf(DropLast(work)) + [Last(work).at]
  }

  lemma {:induction false} ExtentsOfAppend(a: seq<WorkItem>, b: seq<WorkItem>)
    ensures ExtentsOf(a + b) == ExtentsOf(a) + ExtentsOf(b)
  {
    if b == [] {
      assert a + b == a;
    } else {
      ExtentsOfAppend(a, DropLast(b));
      assert DropLast(a + b) == a + DropLast(b) && Last(a + b) == Last(b);
    }
  }

  lemma {:induction false} ItemsSnoc(path: string, exts: seq<Extent>)
    requires exts != []
    ensures var e := Last(exts);
            ExtentsOf(ItemsOf(path, exts)) ==
            ExtentsOf(ItemsOf(path, DropLast(exts))) + if e.length == 0 then [] else [e]
  {
    var items, e := ItemsOf(path, DropLast(exts)), Last(exts);
    if e.length == 0 {
      NothingMore(items);
      NothingMore(ExtentsOf(items));
    } else {
      ExtentsOfAppend(items, [WorkItem(path, e)]);
      ExtentsOfOne(WorkItem(path, e));
    }
  }

  lemma {:induction false} ItemsCover(path: string, exts: seq<Extent>)
    ensures Bytes(ExtentsOf(ItemsOf(path, exts))) == Bytes(exts)
  {
    if exts != [] {
      var es, e := ExtentsOf(ItemsOf(path, DropLast(exts))), Last(exts);
      ItemsCover(path, DropLast(exts));
      ItemsSnoc(path, exts);
      if e.length == 0 {
        EmptyRun(e);
        NothingMore(es);
        NothingMore(Bytes(es));
      } else {
        BytesAppend(es, [e]);
        BytesOne(e);
      }
    }
  }

  lemma {:induction false} ItemsPositive(path: string, exts: seq<Extent>)
    ensures forall i :: 0 <= i < |ExtentsOf(ItemsOf(path, exts))| ==> ExtentsOf(ItemsOf(path, exts))[i].length > 0
  {
    if exts != [] {
      ItemsPositive(path, DropLast(exts));
      ItemsSnoc(path, exts);
    }
  }

  lemma {:induction false} EmptyRun(e: Extent)
    requires e.length == 0
    ensures Run(e) == []
  {
  }

  lemma {:induction false} NothingMore<T>(s: seq<T>)
    ensures s + [] == s
  {
  }

  lemma {:induction false} ExtentsOfOne(w: WorkItem)
    ensures ExtentsOf([w]) == [w.at]
  {
    assert DropLast([w]) == [];
  }

  lemma {:induction false} BytesOne(e: Extent)
    ensures Bytes([e]) == Run(e)
  {
    assert DropLast([e]) == [];
  }

  /** The work list covers the bytes of the objects' extents in order, and holds no empty range. */
  lemma {:induction false} WorkCovers(objects: seq<FsObject>)
    ensures Bytes(ExtentsOf(WorkOf(objects))) == Bytes(AllExtents(objects))
    ensures forall i :: 0 <= i < |ExtentsOf(WorkOf(objects))| ==> ExtentsOf(WorkOf(objects))[i].length > 0
  {
    if objects != [] {
      var o := Last(objects);
      WorkCovers(DropLast(objects));
      ItemsCover(o.path, o.extents);
      ItemsPositive(o.path, o.extents);
      ExtentsOfAppend(WorkOf(DropLast(objects)), ItemsOf(o.path, o.extents));
      BytesAppend(ExtentsOf(WorkOf(DropLast(objects))), ExtentsOf(ItemsOf(o.path, o.extents)));
      BytesAppend(AllExtents(DropLast(objects)), o.extents);
    }
  }

  /** An item is work exactly when it is an extent of an object with its path, and not empty. */
  lemma {:induction false} WorkIsExtents(objects: seq<FsObject>, w: WorkItem)
    ensures w in WorkOf(objects) <==> w.at.length > 0 && exists o :: o in objects && Owns(o, w)
  {
    if objects != [] {
      var front, o, rest := DropLast(objects), Last(objects), WorkOf(DropLast(objects));
      WorkIsExtents(front, w);
      ItemsAre(o.path, o.extents, w);
      SplitLast(objects);
      assert WorkOf(objects) == rest + ItemsOf(o.path, o.extents);
      assert w in WorkOf(objects) <==> w in rest || (Owns(o, w) && w.at.length > 0);
      assert forall x :: x in objects <==> x in front || x == o;
    }
  }

  predicate Owns(o: FsObject, w: WorkItem) { o.path == w.path && w.at in o.extents }

  lemma {:induction false} ItemsAre(path: string, exts: seq<Extent>, w: WorkItem)
    ensures w in ItemsOf(path, exts) <==> w.path == path && w.at in exts && w.at.length > 0
  {
    if exts != [] {
      ItemsAre(path, DropLast(exts), w);
      SplitLast(exts);
    }
  }

  /** Where no byte belongs to two objects, the work list rewrites each byte at most once and its total
      is the number of distinct bytes. */
  lemma {:induction false} WorkRewritesOnce(objects: seq<FsObject>)
    requires Distinct(Bytes(AllExtents(objects)))
    ensures PairwiseDisjoint(ExtentsOf(WorkOf(objects)))
    ensures Total(ExtentsOf(WorkOf(objects))) == |Elements(Bytes(AllExtents(objects)))|
  {
    WorkCovers(objects);
    DistinctDisjoint(ExtentsOf(WorkOf(objects)));
    BytesLength(ExtentsOf(WorkOf(objects)));
    DistinctSize(Bytes(AllExtents(objects)));
  }

  /** So it is on a FAT volume whose table shares no cluster and whose entries start apart. */
  lemma {:induction false} FatWork(g: Fat.Geom, fat: seq<byte>, entries: seq<Fat.Entry>, objects: seq<FsObject>,
                                   chains: seq<seq<nat>>)
    requires g.Valid() && Fat.Scanned(g, fat, entries, objects, chains)
    requires Fat.InjectiveTable(g, fat) && Fat.CleanEntries(g, fat, entries)
    ensures PairwiseDisjoint(ExtentsOf(WorkOf(objects)))
    ensures Total(ExtentsOf(WorkOf(objects))) == |Elements(Bytes(AllExtents(objects)))|
  {
    Fat.VolumeDisjoint(g, fat, entries, objects, chains);
    WorkRewritesOnce(objects);
  }

  function ScannedFacts(size: nat): C.Facts { C.NO_FACTS.(size := size) }

  /** The catalog after every scanned object was upserted. */
  function Catalogued(v: C.Contents, objects: seq<FsObject>): C.Contents {
    if objects == [] then v
    else C.Upserted(Catalogued(v, DropLast(objects)), Last(objects).path, ScannedFacts(Last(objects).size))
  }

  /** Every scanned object with a usable path is found afterwards, with the size of the last one of that name, the
      SHA-1 that was stored before, and no massage and no verification. */
  lemma {:induction false} CataloguedFinds(v: C.Contents, objects: seq<FsObject>, i: nat)
    requires i < |objects| && C.Nameable(objects[i].path)
    requires forall k :: i < k < |objects| ==> !C.SameRecord(objects[k].path, objects[i].path)
    ensures var f := C.Lookup(Catalogued(v, objects), objects[i].path);
            && f.Some? && f.value.size == objects[i].size
            && f.value.sha1 ==
               (if C.Lookup(v, objects[i].path).Some? then C.Lookup(v, objects[i].path).value.sha1 else None)
            && f.value.massageCount == 0 && f.value.lastMassage == 0
            && f.value.verifyCount == 0 && f.value.verifyStatus == 0 && f.value.verifiedAt == 0
  {
    var front, o := DropLast(objects), Last(objects);
    assert objects[|objects| - 1] == o && forall k :: 0 <= k < |front| ==> front[k] == objects[k];
    if i < |front| {
      CataloguedFinds(v, front, i);
      UpsertedElsewhere(Catalogued(v, front), o.path, ScannedFacts(o.size), objects[i].path);
    } else {
      CataloguedSha1(v, front, o.path);
      C.LookupUpserted(Catalogued(v, front), o.path, ScannedFacts(o.size), o.path);
    }
  }

  lemma {:induction false} UpsertedElsewhere(c: C.Contents, path: string, f: C.Facts, other: string)
    requires !C.SameRecord(path, other)
    ensures C.Lookup(C.Upserted(c, path, f), other) == C.Lookup(c, other)
  {
    if C.Nameable(path) { C.LookupUpserted(c, path, f, other); }
  }

  /** Cataloguing changes no SHA-1. */
  lemma {:induction false} CataloguedSha1(v: C.Contents, objects: seq<FsObject>, path: string)
    ensures C.Base(Catalogued(v, objects), path).sha1 == C.Base(v, path).sha1
  {
    if objects != [] {
      var front, o := DropLast(objects), Last(objects);
      CataloguedSha1(v, front, path);
      if C.Nameable(o.path) {
        C.LookupUpserted(Catalogued(v, front), o.path, ScannedFacts(o.size), path);
        if C.SameRecord(o.path, path) { SameLookup(Catalogued(v, front), o.path, path); }
      }
    }
  }

  lemma {:induction false} SameLookup(c: C.Contents, a: string, b: string)
    requires C.SameRecord(a, b)
    ensures C.Lookup(c, a) == C.Lookup(c, b)
  {
  }

  lemma {:induction false} CataloguedClean(v: C.Contents, objects: seq<FsObject>)
    requires C.WellFormed(v) && C.Clean(v)
    ensures C.WellFormed(Catalogued(v, objects)) && C.Clean(Catalogued(v, objects))
  {
    if objects != [] {
      var front, o := DropLast(objects), Last(objects);
      CataloguedClean(v, front);
      C.UpsertWellFormed(Catalogued(v, front), o.path, ScannedFacts(o.size));
      C.UpsertClean(Catalogued(v, front), o.path, ScannedFacts(o.size));
    }
  }

  /** The work list of a scan; every object is catalogued on the way. */
  method BuildWork(store: Store, objects: seq<FsObject>) returns (work: seq<WorkItem>, total: nat)
    requires store.Valid()
    modifies store
    ensures store.Valid() && store.View() == Catalogued(old(store.View()), objects)
    ensures work == WorkOf(objects) && total == Total(ExtentsOf(work))
  {
    work, total := [], 0;
    for i := 0 to |objects|
      invariant store.Valid() && store.View() == Catalogued(old(store.View()), objects[..i])
      invariant work == WorkOf(objects[..i]) && total == Total(ExtentsOf(work))
    {
      var o := objects[i];
      assert DropLast(objects[..i + 1]) == objects[..i] && Last(objects[..i + 1]) == o;
      var ok := store.UpsertObject(Record(o.path, ScannedFacts(o.size)));
      var more, sum := ItemsFor(o.path, o.extents);
      ExtentsOfAppend(work, more);
      BytesAppend(ExtentsOf(work), ExtentsOf(more));
      work, total := work + more, total + sum;
    }
    assert objects[..|objects|] == objects;
  }

  method ItemsFor(path: string, exts: seq<Extent>) returns (items: seq<WorkItem>, sum: nat)
    ensures items == ItemsOf(path, exts) && sum == Total(ExtentsOf(items))
  {
    items, sum := [], 0;
    for i := 0 to |exts|
      invariant items == ItemsOf(path, exts[..i]) && sum == Total(ExtentsOf(items))
    {
      var e := exts[i];
      assert DropLast(exts[..i + 1]) == exts[..i] && Last(exts[..i + 1]) == e;
      if e.length == 0 {
        continue;
      }
      ExtentsOfAppend(items, [WorkItem(path, e)]);
      ExtentsOfOne(WorkItem(path, e));
      BytesAppend(ExtentsOf(items), [e]);
      TotalOne(e);
      items, sum := items + [WorkItem(path, e)], sum + e.length;
    }
    assert exts[..|exts|] == exts;
  }

  /** What happened to one item: the chunks processed and their outcomes. */
  datatype ItemRun = ItemRun(chunks: seq<Extent>, outcomes: seq<Outcome>) {
    ghost predicate Paired() { |chunks| == |outcomes| }

    function Errors(): seq<Failure>
      requires Paired()
    {
      Ledger(chunks, outcomes)
    }
  }

  ghost predicate AllPaired(runs: seq<ItemRun>) {
    forall i :: 0 <= i < |runs| ==> runs[i].Paired()
  }

  ghost function ChunksOf(runs: seq<ItemRun>): seq<Extent> {
    if runs == [] then [] else ChunksOf(DropLast(runs)) + Last(runs).chunks
  }

  ghost function OutcomesOf(runs: seq<ItemRun>): (os: seq<Outcome>)
    requires AllPaired(runs)
    ensures |os| == |ChunksOf(runs)|
  {
    if runs == [] then []
    else
      assert runs[|runs| - 1].Paired();
      OutcomesOf(DropLast(runs)) + Last(runs).outcomes
  }

  /** The catalog after the ledgers of the first items were recorded, item by item. */
  ghost function RecordedAll(v: C.Contents, job: Job, work: seq<WorkItem>, runs: seq<ItemRun>): C.Contents
    requires |runs| <= |work| && AllPaired(runs)
  {
    if runs == [] then v
    else
      var w := work[|runs| - 1];
      assert runs[|runs| - 1].Paired();
      Recorded(RecordedAll(v, job, work, DropLast(runs)), job, w.path, w.at.length, Last(runs).Errors())
  }

  /** The chunks of an item are its tiling, or a prefix of it after a stop. */
  ghost predicate ItemTiled(run: ItemRun, w: WorkItem, block: nat, stopped: bool)
    requires block > 0
  {
    var all := Chunks(w.at.offset, w.at.End(), block);
    run.chunks <= all && (!stopped ==> run.chunks == all)
  }

  /** Every item reached is tiled; only the last one may be cut short, by a stop request. */
  ghost predicate AllTiled(runs: seq<ItemRun>, work: seq<WorkItem>, block: nat, stopped: bool)
    requires block > 0 && |runs| <= |work|
  {
    forall i :: 0 <= i < |runs| ==> ItemTiled(runs[i], work[i], block, stopped && i == |runs| - 1)
  }

  /** The chunks of tiled items name the bytes of the items in order, or a prefix of them. */
  lemma {:induction false} TiledBytes(runs: seq<ItemRun>, work: seq<WorkItem>, block: nat, stopped: bool)
    requires block > 0 && |runs| <= |work| && AllTiled(runs, work, block, stopped)
    ensures Bytes(ChunksOf(runs)) <= Bytes(ExtentsOf(work[..|runs|]))
    ensures !stopped ==> Bytes(ChunksOf(runs)) == Bytes(ExtentsOf(work[..|runs|]))
    decreases |runs|
  {
    if runs != [] {
      var n, front := |runs| - 1, DropLast(runs);
      forall i | 0 <= i < n ensures ItemTiled(front[i], work[i], block, false) {
        assert ItemTiled(runs[i], work[i], block, stopped && i == n);
      }
      TiledBytes(front, work, block, false);
      assert ItemTiled(runs[n], work[n], block, stopped);
      ItemBytes(runs[n], work[n], block, stopped);
      BytesAppend(ChunksOf(front), runs[n].chunks);
      assert DropLast(work[..n + 1]) == work[..n] && Last(work[..n + 1]) == work[n];
      BytesAppend(ExtentsOf(work[..n]), [work[n].at]);
      BytesOne(work[n].at);
    }
  }

  lemma {:induction false} ItemBytes(run: ItemRun, w: WorkItem, block: nat, stopped: bool)
    requires block > 0 && ItemTiled(run, w, block, stopped)
    ensures Bytes(run.chunks) <= Run(w.at) && (!stopped ==> Bytes(run.chunks) == Run(w.at))
  {
    var all := Chunks(w.at.offset, w.at.End(), block);
    ChunksTile(w.at.offset, w.at.End(), block);
    assert all == run.chunks + all[|run.chunks|..];
    BytesAppend(run.chunks, all[|run.chunks|..]);
  }

  /** No chunk of tiled items is empty. */
  lemma {:induction false} TiledPositive(runs: seq<ItemRun>, work: seq<WorkItem>, block: nat, stopped: bool)
    requires block > 0 && |runs| <= |work| && AllTiled(runs, work, block, stopped)
    ensures forall k :: 0 <= k < |ChunksOf(runs)| ==> ChunksOf(runs)[k].length > 0
    decreases |runs|
  {
    if runs != [] {
      var n, front := |runs| - 1, DropLast(runs);
      forall i | 0 <= i < n ensures ItemTiled(front[i], work[i], block, false) {
        assert ItemTiled(runs[i], work[i], block, stopped && i == n);
      }
      TiledPositive(front, work, block, false);
      assert ItemTiled(runs[n], work[n], block, stopped);
      ChunksShape(work[n].at.offset, work[n].at.End(), block);
    }
  }

  lemma {:induction false} TiledWithin(runs: seq<ItemRun>, work: seq<WorkItem>, block: nat, stopped: bool)
    requires block > 0 && |runs| <= |work| && AllTiled(runs, work, block, stopped)
    ensures Bytes(ChunksOf(runs)) <= Bytes(ExtentsOf(work))
    ensures !stopped && |runs| == |work| ==> Bytes(ChunksOf(runs)) == Bytes(ExtentsOf(work))
  {
    TiledBytes(runs, work, block, stopped);
    assert work == work[..|runs|] + work[|runs|..];
    ExtentsOfAppend(work[..|runs|], work[|runs|..]);
    BytesAppend(ExtentsOf(work[..|runs|]), ExtentsOf(work[|runs|..]));
  }

  /** What a recursive run has done so far, item by item: the device saw exactly the transfers of the
      chunks with their outcomes, the outcomes are possible ones, the chunks tile the items if the run
      could be set up, and there are none if it could not. */
  ghost predicate WorkDone(flags: Flags, hasDirect: bool, align: nat, data: seq<byte>, was: seq<Op>, now: seq<Op>,
                           work: seq<WorkItem>, runs: seq<ItemRun>, ready: bool, block: nat, stopped: bool)
    requires block > 0
  {
    && |runs| <= |work| && AllPaired(runs)
    && now == was + AllOps(flags, hasDirect, align, data, ChunksOf(runs), OutcomesOf(runs))
    && AllPossible(flags, align, data, ChunksOf(runs), OutcomesOf(runs))
    && if ready then AllTiled(runs, work, block, stopped) else ChunksOf(runs) == []
  }

  lemma {:induction false} PossibleAppend(flags: Flags, align: nat, data: seq<byte>, a: seq<Extent>, x: seq<Outcome>,
                                          b: seq<Extent>, y: seq<Outcome>)
    requires |a| == |x| && |b| == |y| && AllPossible(flags, align, data, a, x) && AllPossible(flags, align, data, b, y)
    ensures AllPossible(flags, align, data, a + b, x + y)
  {
  }

  lemma {:induction false} ItemBegun(run: ItemRun, w: WorkItem, block: nat, all: seq<Extent>, was: Switch, now: Switch,
                                     stopped: bool)
    requires block > 0 && all == Chunks(w.at.offset, w.at.End(), block)
    requires Begun(true, all, run.chunks, was, now, stopped)
    ensures ItemTiled(run, w, block, stopped)
  {
    if !stopped { assert run.chunks == all; }
  }

  lemma {:induction false} TiledSnoc(runs: seq<ItemRun>, work: seq<WorkItem>, block: nat, run: ItemRun, stopped: bool)
    requires block > 0 && |runs| < |work| && AllTiled(runs, work, block, false)
    requires ItemTiled(run, work[|runs|], block, stopped)
    ensures AllTiled(runs + [run], work, block, stopped)
  {
    var more := runs + [run];
    forall i | 0 <= i < |more| ensures ItemTiled(more[i], work[i], block, stopped && i == |more| - 1) {
      if i < |runs| { assert ItemTiled(runs[i], work[i], block, false && i == |runs| - 1); }
    }
  }

  lemma {:induction false} RunsSnoc(runs: seq<ItemRun>, run: ItemRun)
    requires AllPaired(runs) && run.Paired()
    ensures AllPaired(runs + [run])
    ensures ChunksOf(runs + [run]) == ChunksOf(runs) + run.chunks
    ensures OutcomesOf(runs + [run]) == OutcomesOf(runs) + run.outcomes
  {
    assert DropLast(runs + [run]) == runs && Last(runs + [run]) == run;
  }

  lemma {:induction false} WorkStep(flags: Flags, hasDirect: bool, align: nat, data: seq<byte>, was: seq<Op>,
                                    mid: seq<Op>, now: seq<Op>, work: seq<WorkItem>, runs: seq<ItemRun>, n: nat,
                                    ready: bool, block: nat, all: seq<Extent>, run: ItemRun, errors: seq<Failure>,
                                    before: Switch, after: Switch, stopped: bool)
    requires block > 0 && n == |runs| < |work| && all == Chunks(work[n].at.offset, work[n].at.End(), block)
    requires WorkDone(flags, hasDirect, align, data, was, mid, work, runs, ready, block, false)
    requires Transferred(flags, hasDirect, align, data, mid, now, run.chunks, run.outcomes, errors)
    requires Begun(ready, all, run.chunks, before, after, stopped)
    ensures WorkDone(flags, hasDirect, align, data, was, now, work, runs + [run], ready, block, stopped)
    ensures run.Paired() && run.Errors() == errors
  {
    var cs, os := ChunksOf(runs), OutcomesOf(runs);
    RunsSnoc(runs, run);
    AllOpsAppend(flags, hasDirect, align, data, cs, os, run.chunks, run.outcomes);
    Associates(was, AllOps(flags, hasDirect, align, data, cs, os),
               AllOps(flags, hasDirect, align, data, run.chunks, run.outcomes));
    PossibleAppend(flags, align, data, cs, os, run.chunks, run.outcomes);
    if ready {
      ItemBegun(run, work[n], block, all, before, after, stopped);
      TiledSnoc(runs, work, block, run, stopped);
    }
  }

  /** The outcomes of all items are those that the script gives their chunks. */
  ghost predicate WorkAnswered(flags: Flags, hasDirect: bool, align: nat, data: seq<byte>, script: seq<Reply>,
                               rest: seq<Reply>, runs: seq<ItemRun>)
  {
    && AllPaired(runs)
    && RunEnd(OutcomesOf(runs), rest) == Answers(flags, hasDirect, align, data, script, ChunksOf(runs))
  }

  lemma {:induction false} AnsweredStep(flags: Flags, hasDirect: bool, align: nat, data: seq<byte>, script: seq<Reply>,
                                        mid: seq<Reply>, rest: seq<Reply>, runs: seq<ItemRun>, run: ItemRun)
    requires WorkAnswered(flags, hasDirect, align, data, script, mid, runs) && run.Paired()
    requires RunEnd(run.outcomes, rest) == Answers(flags, hasDirect, align, data, mid, run.chunks)
    ensures WorkAnswered(flags, hasDirect, align, data, script, rest, runs + [run])
  {
    RunsSnoc(runs, run);
    AnswersAppend(flags, hasDirect, align, data, script, ChunksOf(runs), run.chunks);
  }

  /** How often a run has asked for a stop when it began the last of its chunks: once for each item and once for
      each chunk. */
  ghost function AskedFor(runs: seq<ItemRun>): nat {
    if runs == [] then 0 else AskedFor(DropLast(runs)) + 1 + |Last(runs).chunks|
  }

  /** No request was there until then; and one was there the next time, if the last item was cut short. */
  ghost predicate WorkSwitch(was: Switch, now: Switch, runs: seq<ItemRun>, cut: bool) {
    && (runs != [] ==> !was.StopBy(AskedFor(runs)))
    && if cut then runs != [] && now.stop && was.StopBy(AskedFor(runs) + 1) else now == was.Asked(AskedFor(runs))
  }

  lemma {:induction false} SwitchStep(was: Switch, before: Switch, mid: Switch, after: Switch, runs: seq<ItemRun>,
                                      run: ItemRun, ready: bool, all: seq<Extent>, stopped: bool)
    requires WorkSwitch(was, before, runs, false) && mid == before.Ask() && !mid.stop
    requires Begun(ready, all, run.chunks, mid, after, stopped)
    ensures WorkSwitch(was, after, runs + [run], stopped)
  {
    assert DropLast(runs + [run]) == runs && Last(runs + [run]) == run;
    var k, n := AskedFor(runs) + 1, |run.chunks| + if stopped then 1 else 0;
    assert mid == was.Asked(k) && after == mid.Asked(n);
    AskedSum(was, k, n);
    AskedSum(was, k, |run.chunks|);
    AskedIff(was, k);
    AskedIff(was, k + n);
  }

  /** Where the run over a work list ended: it was cut short in an item, or before the next one, exactly where a
      request was there; or it went through. */
  ghost predicate WorkStops(was: Switch, now: Switch, work: seq<WorkItem>, runs: seq<ItemRun>, cut: bool) {
    && |runs| <= |work| && (cut ==> runs != [])
    && (runs != [] ==> !was.StopBy(AskedFor(runs)))
    && if cut || |runs| < |work| then now.stop && was.StopBy(AskedFor(runs) + 1) else now == was.Asked(AskedFor(runs))
  }

  lemma {:induction false} StoppedHere(first: Switch, before: Switch, now: Switch, work: seq<WorkItem>,
                                       runs: seq<ItemRun>, cut: bool)
    requires |runs| < |work| && WorkSwitch(first, before, runs, cut) && now == before.Ask() && now.stop
    ensures WorkStops(first, now, work, runs, cut)
  {
    AskedIff(first, AskedFor(runs) + 1);
  }

  lemma {:induction false} RecordedSnoc(v: C.Contents, job: Job, work: seq<WorkItem>, runs: seq<ItemRun>, run: ItemRun)
    requires |runs| < |work| && AllPaired(runs) && run.Paired()
    ensures AllPaired(runs + [run])
    ensures RecordedAll(v, job, work, runs + [run]) ==
            Recorded(RecordedAll(v, job, work, runs), job, work[|runs|].path, work[|runs|].at.length, run.Errors())
  {
    assert DropLast(runs + [run]) == runs && Last(runs + [run]) == run;
  }

  /** One turn of the loop over the work list, after it was asked for a stop. */
  method RunItem(dev: Device, store: Store, progress: Progress, pause: PauseControl, job: Job, work: seq<WorkItem>,
                 ghost v: C.Contents, ghost was: seq<Op>, ghost script: seq<Reply>, ghost first: Switch,
                 ghost before: Switch, ghost runs: seq<ItemRun>, n: nat)
    returns (ghost run: ItemRun, ghost cut: bool)
    requires store.Valid() && progress.Valid() && job.blockSize + Alignment(dev.align) <= U64_MAX
    requires n == |runs| < |work| && work[n].at.End() <= U64_MAX
    requires WorkDone(job.flags, dev.hasDirect, dev.align, dev.data, was, dev.ops, work, runs, Ready(dev, job),
                      BlockSize(job.blockSize, dev.align, job.flags), false)
    requires WorkAnswered(job.flags, dev.hasDirect, dev.align, dev.data, script, dev.replies, runs)
    requires WorkSwitch(first, before, runs, false) && pause.Now() == before.Ask() && !pause.stop
    requires store.View() == RecordedAll(v, job, work, runs)
    modifies dev, store, pause, progress`cells, progress`logs, progress`bytesDone
    ensures dev.data == old(dev.data) && progress.Valid() && store.Valid()
    ensures WorkDone(job.flags, dev.hasDirect, dev.align, dev.data, was, dev.ops, work, runs + [run], Ready(dev, job),
                     BlockSize(job.blockSize, dev.align, job.flags), cut)
    ensures WorkAnswered(job.flags, dev.hasDirect, dev.align, dev.data, script, dev.replies, runs + [run])
    ensures WorkSwitch(first, pause.Now(), runs + [run], cut)
    ensures store.View() == RecordedAll(v, job, work, runs + [run])
  {
    ghost var mid, replies, now := dev.ops, dev.replies, pause.Now();
    ghost var all, ready := TilingOf(dev, job, work[n].at), Ready(dev, job);
    var errors;
    ghost var chunks, outcomes;
    errors, cut, chunks, outcomes := RunOne(dev, store, progress, pause, job, work[n].path, work[n].at);
    run := ItemRun(chunks, outcomes);
    WorkStep(job.flags, dev.hasDirect, dev.align, dev.data, was, mid, dev.ops, work, runs, n, ready,
             BlockSize(job.blockSize, dev.align, job.flags), all, run, errors, now, pause.Now(), cut);
    AnsweredStep(job.flags, dev.hasDirect, dev.align, dev.data, script, replies, dev.replies, runs, run);
    SwitchStep(first, before, now, pause.Now(), runs, run, ready, all, cut);
    RecordedSnoc(v, job, work, runs, run);
  }

  /** The loop over the work list, which a stop request ends. */
  method RunWork(dev: Device, store: Store, progress: Progress, pause: PauseControl, job: Job, work: seq<WorkItem>)
    returns (ghost runs: seq<ItemRun>, ghost cut: bool)
    requires store.Valid() && progress.Valid() && job.blockSize + Alignment(dev.align) <= U64_MAX
    requires forall i :: 0 <= i < |work| ==> work[i].at.End() <= U64_MAX
    modifies dev, store, pause, progress`cells, progress`logs, progress`bytesDone
    ensures dev.data == old(dev.data) && progress.Valid() && store.Valid()
    ensures WorkDone(job.flags, dev.hasDirect, dev.align, dev.data, old(dev.ops), dev.ops, work, runs, Ready(dev, job),
                     BlockSize(job.blockSize, dev.align, job.flags), cut)
    ensures WorkAnswered(job.flags, dev.hasDirect, dev.align, dev.data, old(dev.replies), dev.replies, runs)
    ensures WorkStops(old(pause.Now()), pause.Now(), work, runs, cut)
    ensures store.View() == RecordedAll(old(store.View()), job, work, runs)
  {
    runs, cut := [], false;
    ghost var v, was, script, first := store.View(), dev.ops, dev.replies, pause.Now();
    ghost var ready := Ready(dev, job);
    ghost var block := BlockSize(job.blockSize, dev.align, job.flags);
    var i := 0;
    while i < |work|
      invariant i == |runs| <= |work| && dev.data == old(dev.data) && progress.Valid() && store.Valid()
      invariant WorkDone(job.flags, dev.hasDirect, dev.align, dev.data, was, dev.ops, work, runs, ready, block, cut)
      invariant WorkAnswered(job.flags, dev.hasDirect, dev.align, dev.data, script, dev.replies, runs)
      invariant WorkSwitch(first, pause.Now(), runs, cut)
      invariant store.View() == RecordedAll(v, job, work, runs)
    {
      ghost var before := pause.Now();
      var asked := pause.StopRequested();
      if asked {
        StoppedHere(first, before, pause.Now(), work, runs, cut);
        return;
      }
      ghost var run;
      run, cut := RunItem(dev, store, progress, pause, job, work, v, was, script, first, before, runs, i);
      runs := runs + [run];
      i := i + 1;
    }
  }

  /** Where no byte belongs to two objects, no byte of the device is written twice by the run: the ranges
      of its write transfers are pairwise disjoint. */
  lemma {:induction false} WrittenOnce(flags: Flags, hasDirect: bool, align: nat, data: seq<byte>, was: seq<Op>,
                                       now: seq<Op>, objects: seq<FsObject>, runs: seq<ItemRun>, ready: bool,
                                       block: nat, stopped: bool)
    requires block > 0 &&
             WorkDone(flags, hasDirect, align, data, was, now, WorkOf(objects), runs, ready, block, stopped)
    requires Distinct(Bytes(AllExtents(objects)))
    ensures PairwiseDisjoint(Writes(now[|was|..])) && Distinct(Bytes(Writes(now[|was|..])))
  {
    var cs, os := ChunksOf(runs), OutcomesOf(runs);
    assert now[|was|..] == AllOps(flags, hasDirect, align, data, cs, os);
    WritesAreWritten(flags, hasDirect, align, data, cs, os);
    if ready {
      TiledWithin(runs, WorkOf(objects), block, stopped);
      TiledPositive(runs, WorkOf(objects), block, stopped);
      WorkCovers(objects);
      DistinctPrefix(Bytes(cs), Bytes(AllExtents(objects)));
      DistinctDisjoint(cs);
    }
    WrittenApart(flags, cs, os);
    DisjointDistinct(Writes(now[|was|..]));
  }

  /** What the account means for the objects' bytes. */
  lemma {:induction false} Swept(flags: Flags, hasDirect: bool, align: nat, data: seq<byte>, was: seq<Op>, now: seq<Op>,
                                 objects: seq<FsObject>, runs: seq<ItemRun>, ready: bool, block: nat, stopped: bool)
    requires block > 0 &&
             WorkDone(flags, hasDirect, align, data, was, now, WorkOf(objects), runs, ready, block, stopped)
    ensures ready ==> Bytes(ChunksOf(runs)) <= Bytes(AllExtents(objects))
    ensures ready && !stopped && |runs| == |WorkOf(objects)| ==> Bytes(ChunksOf(runs)) == Bytes(AllExtents(objects))
    ensures Distinct(Bytes(AllExtents(objects))) ==> PairwiseDisjoint(Writes(now[|was|..]))
  {
    WorkCovers(objects);
    if ready { TiledWithin(runs, WorkOf(objects), block, stopped); }
    if Distinct(Bytes(AllExtents(objects))) {
      WrittenOnce(flags, hasDirect, align, data, was, now, objects, runs, ready, block, stopped);
    }
  }

  lemma {:induction false} DistinctPrefix(a: seq<nat>, b: seq<nat>)
    requires Distinct(b) && a <= b
    ensures Distinct(a)
  {
    forall i, j | 0 <= i < j < |a| ensures a[i] != a[j] { assert b[i] != b[j]; }
  }

  /** A recursive run over scanned objects. The device keeps its bytes whatever the kernel does, and it
      saw exactly the transfers of the items' chunks with their outcomes. A run that could be set up and
      was not stopped has processed exactly the bytes of the objects' extents, in order; with a stop a
      prefix of them. Every object is in the catalog, and each item has exactly its failed chunks
      recorded. */
  method RecursiveRun(dev: Device, store: Store, progress: Progress, pause: PauseControl, job: Job,
                      objects: seq<FsObject>, polls: nat)
    returns (rc: nat, ghost runs: seq<ItemRun>, ghost cut: bool)
    requires store.Valid() && 0 < job.blockSize <= 0x3FFF_FFFF_FFFF_FFFF
    requires job.blockSize + Alignment(dev.align) <= U64_MAX
    requires forall i :: 0 <= i < |WorkOf(objects)| ==> WorkOf(objects)[i].at.End() <= U64_MAX
    requires Total(ExtentsOf(WorkOf(objects))) <= 0x3FFF_FFFF_FFFF_FFFF
    modifies dev, store, pause, progress
    ensures dev.data == old(dev.data) && progress.Valid() && store.Valid()
    ensures WorkDone(job.flags, dev.hasDirect, dev.align, dev.data, old(dev.ops), dev.ops, WorkOf(objects), runs,
                     Ready(dev, job), BlockSize(job.blockSize, dev.align, job.flags), cut)
    ensures WorkAnswered(job.flags, dev.hasDirect, dev.align, dev.data, old(dev.replies), dev.replies, runs)
    ensures Distinct(Bytes(AllExtents(objects))) ==> PairwiseDisjoint(Writes(dev.ops[|old(dev.ops)|..]))
    ensures runs != [] ==> !old(pause.Now()).StopBy(AskedFor(runs))
    ensures cut || |runs| < |WorkOf(objects)| ==> old(pause.Now()).StopBy(AskedFor(runs) + 1)
    ensures rc == 0 <==> !cut && |runs| == |WorkOf(objects)| && !old(pause.Now()).StopBy(AskedFor(runs) + 1)
    ensures Ready(dev, job) ==> Bytes(ChunksOf(runs)) <= Bytes(AllExtents(objects))
    ensures Ready(dev, job) && rc == 0 ==> Bytes(ChunksOf(runs)) == Bytes(AllExtents(objects))
    ensures store.View() == RecordedAll(Catalogued(old(store.View()), objects), job, WorkOf(objects), runs)
    ensures progress.bytesTotal == if Bytes(AllExtents(objects)) == [] then 1
                                   else |Bytes(AllExtents(objects))|
    ensures rc != 0 ==> rc == 1 && pause.stop
  {
    ghost var was := dev.ops;
    runs, cut := RecursivePass(dev, store, progress, pause, job, objects);
    ghost var now := pause.Now();
    ghost var up;
    rc, up := FinishRun(progress, pause, job, polls);
    WorkEnds(old(pause.Now()), now, WorkOf(objects), runs, cut);
    Swept(job.flags, dev.hasDirect, dev.align, dev.data, was, dev.ops, objects, runs, Ready(dev, job),
          BlockSize(job.blockSize, dev.align, job.flags), cut);
    WorkCovers(objects);
    BytesLength(ExtentsOf(WorkOf(objects)));
  }

  /** Asking once more after the work list. */
  lemma {:induction false} WorkEnds(was: Switch, now: Switch, work: seq<WorkItem>, runs: seq<ItemRun>, cut: bool)
    requires WorkStops(was, now, work, runs, cut)
    ensures !now.Ask().stop <==> !cut && |runs| == |work| && !was.StopBy(AskedFor(runs) + 1)
  {
    AskedIff(was, AskedFor(runs) + 1);
  }

  /** The rewrite phase of a recursive run: the objects are catalogued, then the work list is processed. */
  method RecursivePass(dev: Device, store: Store, progress: Progress, pause: PauseControl, job: Job,
                       objects: seq<FsObject>)
    returns (ghost runs: seq<ItemRun>, ghost cut: bool)
    requires store.Valid() && 0 < job.blockSize <= 0x3FFF_FFFF_FFFF_FFFF
    requires job.blockSize + Alignment(dev.align) <= U64_MAX
    requires forall i :: 0 <= i < |WorkOf(objects)| ==> WorkOf(objects)[i].at.End() <= U64_MAX
    requires Total(ExtentsOf(WorkOf(objects))) <= 0x3FFF_FFFF_FFFF_FFFF
    modifies dev, store, pause, progress
    ensures dev.data == old(dev.data) && progress.Valid() && store.Valid()
    ensures WorkDone(job.flags, dev.hasDirect, dev.align, dev.data, old(dev.ops), dev.ops, WorkOf(objects), runs,
                     Ready(dev, job), BlockSize(job.blockSize, dev.align, job.flags), cut)
    ensures WorkAnswered(job.flags, dev.hasDirect, dev.align, dev.data, old(dev.replies), dev.replies, runs)
    ensures WorkStops(old(pause.Now()), pause.Now(), WorkOf(objects), runs, cut)
    ensures store.View() == RecordedAll(Catalogued(old(store.View()), objects), job, WorkOf(objects), runs)
    ensures var total := Total(ExtentsOf(WorkOf(objects))); progress.bytesTotal == if total > 0 then total else 1
  {
    var work, total := BuildWork(store, objects);
    progress.Reset(if total > 0 then total else 1, job.blockSize);
    runs, cut := RunWork(dev, store, progress, pause, job, work);
  }

  lemma {:induction false} LedgerAppend(a: seq<Extent>, x: seq<Outcome>, b: seq<Extent>, y: seq<Outcome>)
    requires |a| == |x| && |b| == |y|
    ensures Ledger(a + b, x + y) == Ledger(a, x) + Ledger(b, y)
  {
    if b == [] {
      assert a + b == a && x + y == x;
    } else {
      LedgerAppend(a, x, DropLast(b), DropLast(y));
      assert DropLast(a + b) == a + DropLast(b) && DropLast(x + y) == x + DropLast(y);
      assert Last(a + b) == Last(b) && Last(x + y) == Last(y);
    }
  }

  ghost predicate NoErrors(runs: seq<ItemRun>)
    requires AllPaired(runs)
  {
    forall i :: 0 <= i < |runs| ==> runs[i].Paired() && runs[i].Errors() == []
  }

  lemma {:induction false} NoErrorsIff(runs: seq<ItemRun>)
    requires AllPaired(runs)
    ensures NoErrors(runs) <==> Ledger(ChunksOf(runs), OutcomesOf(runs)) == []
  {
    if runs != [] {
      var front, run := DropLast(runs), Last(runs);
      assert runs[|runs| - 1] == run && run.Paired();
      NoErrorsIff(front);
      LedgerAppend(ChunksOf(front), OutcomesOf(front), run.chunks, run.outcomes);
      assert forall i :: 0 <= i < |front| ==> front[i] == runs[i];
      if NoErrors(runs) {
        forall i | 0 <= i < |front| ensures front[i].Paired() && front[i].Errors() == [] {
          assert runs[i].Errors() == [];
        }
      }
    }
  }

  /** When a recursive run over ranges inside the device, without verification, has no failure: always when every
      call moves something, and where no write is followed by fdatasync exactly when no reply it consumed is a
      fault. */
  lemma {:induction false} WorkFaults(flags: Flags, hasDirect: bool, align: nat, data: seq<byte>, was: seq<Op>,
                                      now: seq<Op>, work: seq<WorkItem>, runs: seq<ItemRun>, ready: bool, block: nat,
                                      cut: bool, script: seq<Reply>, rest: seq<Reply>)
    requires block > 0 && WorkDone(flags, hasDirect, align, data, was, now, work, runs, ready, block, cut)
    requires WorkAnswered(flags, hasDirect, align, data, script, rest, runs) && !flags.Verifies()
    requires forall i :: 0 <= i < |work| ==> work[i].at.End() <= |data|
    ensures AllMove(script) ==> NoErrors(runs)
    ensures (forall k :: 0 <= k < |ChunksOf(runs)| ==> NoSync(flags, hasDirect, align, ChunksOf(runs)[k])) ==>
              Consumed(script, rest) && (NoErrors(runs) <==> NoFault(false, script, rest))
  {
    if ready {
      TiledPositive(runs, work, block, cut);
      TiledInside(runs, work, block, cut, |data|);
    }
    ToldInside(flags, hasDirect, align, data, script, rest, ChunksOf(runs), OutcomesOf(runs));
    NoErrorsIff(runs);
  }

  lemma {:induction false} TiledInside(runs: seq<ItemRun>, work: seq<WorkItem>, block: nat, stopped: bool, size: nat)
    requires block > 0 && |runs| <= |work| && AllTiled(runs, work, block, stopped)
    requires forall i :: 0 <= i < |work| ==> work[i].at.End() <= size
    ensures forall k :: 0 <= k < |ChunksOf(runs)| ==> ChunksOf(runs)[k].End() <= size
    decreases |runs|
  {
    if runs != [] {
      var n, front := |runs| - 1, DropLast(runs);
      forall i | 0 <= i < n ensures ItemTiled(front[i], work[i], block, false) {
        assert ItemTiled(runs[i], work[i], block, stopped && i == n);
      }
      TiledInside(front, work, block, false, size);
      assert ItemTiled(runs[n], work[n], block, stopped);
      ChunksInside(work[n].at.offset, work[n].at.End(), block);
    }
  }

  /** The stored extents of a path are the failures of the last item that was recorded for it. */
  lemma {:induction false} LastLedger(v: C.Contents, job: Job, work: seq<WorkItem>, runs: seq<ItemRun>, i: nat)
    requires i < |runs| <= |work| && AllPaired(runs) && IsRecorded(job, runs[i])
    requires forall k :: i < k < |runs| && work[k].path == work[i].path ==> !IsRecorded(job, runs[k])
    ensures runs[i].Paired()
    ensures LedgerStored(RecordedAll(v, job, work, runs).extents, work[i].path, runs[i].Errors(), job.now)
  {
    var n, front := |runs| - 1, DropLast(runs);
    assert runs[i].Paired() && runs[n].Paired();
    var mid := RecordedAll(v, job, work, front);
    RewrittenLedger(mid, work[n].path, work[n].at.length, runs[n].Errors(), job.now);
    if i < n {
      assert front[i] == runs[i] && forall k :: 0 <= k < n ==> front[k] == runs[k];
      LastLedger(v, job, work, front, i);
    }
  }

  /** A dry run without errors records nothing. */
  ghost predicate IsRecorded(job: Job, run: ItemRun) {
    run.Paired() && (!job.flags.dryRun || run.Errors() != [])
  }
}
