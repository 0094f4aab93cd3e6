/** The verify queue of the file browser: a UI thread fills the list and queues files to hash, a worker
    hashes them and posts results back, and an epoch counter tells stale results from current ones
    (src/gui/browser.cpp). Each method is one step that the other thread cannot split. */
module VerifyQueue {
  import opened Extents

  datatype Status = Blank | Waiting | New | Missing | GoodMark | BadMark

  /** A row of the list. `recent` says that the record was verified not long ago, `lastOk` how. */
  datatype Row = Row(abs: string, isDir: bool, inFs: bool, inDb: bool, recent: bool, lastOk: bool, status: Status) {
    predicate WantsHash() { inFs && inDb && !isDir && !recent }

    /** The status a freshly filled row shows. */
    function Fresh(): Status {
      if inFs && inDb && !isDir && recent then (if lastOk then GoodMark else BadMark)
      else if inFs && inDb then (if isDir then Blank else Waiting)
      else if inFs then New
      else Missing
    }
  }

  /** A file to hash for a row of the list of epoch `gen`. */
  datatype Job = Job(gen: nat, row: nat, abs: string)
  datatype Msg = Cancel(gen: nat) | Verify(job: Job)
  datatype Result = Result(job: Job, ok: bool)

  /** The worker holds a popped message, or hashes a file whose epoch it has checked. */
  datatype Worker = Idle | Popped(job: Job) | Hashing(job: Job)

  /** The UI thread is between handlers, or inside one: rows cleared, or list filled and jobs not queued. */
  datatype Ui = Ready | Loading | Filled(gen: nat, jobs: seq<Job>)

  /** What a repaint did: the job it was for, the epoch it happened in and the file of the row it hit. */
  datatype Paint = Paint(job: Job, ok: bool, epoch: nat, hit: string)

  predicate RightPaint(p: Paint) {
    p.job.gen == p.epoch && p.hit == p.job.abs
  }

  /** A job is not from the future, and one of the current epoch names a row of the shown list that holds
      its file; while rows are being replaced nothing can be painted. */
  ghost predicate Fits(j: Job, epoch: nat, shown: nat, rows: seq<Row>, loading: bool) {
    && j.gen <= epoch
    && (j.gen == epoch && !loading ==> shown == 0 || (j.row < |rows| && rows[j.row].abs == j.abs))
  }

  /** A mark in the list comes from the database, or from a result painted in this epoch for this file. */
  ghost predicate Backed(r: Row, epoch: nat, paints: seq<Paint>) {
    r.status.GoodMark? || r.status.BadMark? ==>
      || r.status == r.Fresh()
      || exists i :: 0 <= i < |paints| && Shows(paints[i], r, epoch)
  }

  predicate Shows(p: Paint, r: Row, epoch: nat) {
    p.epoch == epoch && p.job.abs == r.abs && r.status == if p.ok then GoodMark else BadMark
  }

  /** The jobs of a list, one for each row that wants one, in order. */
  function JobsOf(rows: seq<Row>, gen: nat): seq<Job> {
    if rows == [] then []
    else
      JobsOf(DropLast(rows), gen) +
      if Last(rows).WantsHash() then [Job(gen, |rows| - 1, Last(rows).abs)] else []
  }

  function JobsShown(rows: seq<Row>, enqueue: bool, gen: nat): seq<Job> {
    if enqueue then JobsOf(rows, gen) else []
  }

  function Messages(jobs: seq<Job>): (ms: seq<Msg>)
    ensures |ms| == |jobs| && forall i :: 0 <= i < |jobs| ==> ms[i] == Verify(jobs[i])
  {
    seq(|jobs|, i requires 0 <= i < |jobs| => Verify(jobs[i]))
  }

  function FreshRows(rows: seq<Row>): (all: seq<Row>)
    ensures |all| == |rows| && forall i :: 0 <= i < |rows| ==> all[i] == rows[i].(status := rows[i].Fresh())
  {
    seq(|rows|, i requires 0 <= i < |rows| => rows[i].(status := rows[i].Fresh()))
  }

  lemma {:induction false} JobsFit(rows: seq<Row>, all: seq<Row>, gen: nat)
    requires |rows| <= |all| && forall i :: 0 <= i < |rows| ==> rows[i].abs == all[i].abs
    ensures forall i :: 0 <= i < |JobsOf(rows, gen)| ==>
              var j := JobsOf(rows, gen)[i];
              j.gen == gen && j.row < |rows| && all[j.row].abs == j.abs
  {
    if rows != [] { JobsFit(DropLast(rows), all, gen); }
  }

  /** A row gets a job exactly when its file is on disk and in the database, is no folder and was not
      verified recently. */
  lemma {:induction false} JobIff(rows: seq<Row>, gen: nat, r: nat)
    requires r < |rows|
    ensures Job(gen, r, rows[r].abs) in JobsOf(rows, gen) <==>
            rows[r].inFs && rows[r].inDb && !rows[r].isDir && !rows[r].recent
  {
    var front := DropLast(rows);
    if r < |front| {
      JobIff(front, gen, r);
    } else {
      JobsFit(front, rows, gen);
    }
  }

  /** The row loop of fill_list_ctrl. */
  method FillRows(list: seq<Row>, enqueue: bool, gen: nat) returns (rows: seq<Row>, jobs: seq<Job>)
    ensures rows == FreshRows(list)
    ensures jobs == JobsShown(list, enqueue, gen)
  {
    rows, jobs := list, [];
    for index := 0 to |list|
      invariant |rows| == |list|
      invariant forall i :: 0 <= i < |rows| ==>
                  rows[i] == if i < index then list[i].(status := list[i].Fresh()) else list[i]
      invariant jobs == JobsShown(list[..index], enqueue, gen)
    {
      rows := rows[index := rows[index].(status := rows[index].Fresh())];
      assert DropLast(list[..index + 1]) == list[..index] && Last(list[..index + 1]) == list[index];
      if enqueue && list[index].WantsHash() {
        jobs := jobs + [Job(gen, index, list[index].abs)];
      }
    }
    assert list[..|list|] == list;
  }

  class Browser {
    var epoch: nat
    var rows: seq<Row>
    var shown: nat
    var queue: seq<Msg>
    var posted: seq<Result>
    var worker: Worker
    var ui: Ui
    /** A record of all repaints, kept for the specification. */
    var paints: seq<Paint>

    constructor ()
      ensures Valid() && Now() == START
    {
      epoch, rows, shown, queue, posted, worker, ui, paints := 1, [], 0, [], [], Idle, Ready, [];
    }

    /** All of the shared state. */
    function Now(): State
      reads this
    {
      State(epoch, rows, shown, queue, posted, worker, ui, paints)
    }

    ghost predicate JobOk(j: Job)
      reads this
    {
      Fits(j, epoch, shown, rows, ui.Loading?)
    }

    ghost predicate Valid()
      reads this
    {
      && (if ui.Loading? then rows == [] else shown == 0 || shown == |rows|)
      && (forall i :: 0 <= i < |queue| && queue[i].Verify? ==> JobOk(queue[i].job))
      && (forall i :: 0 <= i < |posted| ==> JobOk(posted[i].job))
      && (!worker.Idle? ==> JobOk(worker.job))
      && (ui.Filled? ==> forall i :: 0 <= i < |ui.jobs| ==> JobOk(ui.jobs[i]))
      && (forall i :: 0 <= i < |paints| ==> RightPaint(paints[i]))
      && (forall i :: 0 <= i < |rows| ==> Backed(rows[i], epoch, paints))
    }

    // ---- The UI thread ----

    /** show_folder begins: the rows are gone, the list on screen and the epoch are still the old ones. */
    method BeginShowFolder()
      requires Valid() && ui.Ready?
      modifies this`rows, this`ui
      ensures Valid() && ui.Loading? && rows == []
    {
      rows, ui := [], Loading;
    }

    /** The folder cannot be read: the list is emptied and the epoch stays. */
    method Denied()
      requires Valid() && ui.Loading?
      modifies this`shown, this`ui
      ensures Valid() && ui.Ready? && shown == 0
    {
      shown, ui := 0, Ready;
    }

    /** fill_list_ctrl: a new epoch, the list rebuilt from the rows, and jobs for the files to hash. */
    method FillList(newRows: seq<Row>, enqueue: bool)
      requires Valid() && !ui.Filled?
      modifies this`epoch, this`rows, this`shown, this`ui
      ensures Valid() && epoch == old(epoch) + 1 && rows == FreshRows(newRows) && shown == |rows|
      ensures ui == Filled(epoch, JobsShown(newRows, enqueue, epoch))
    {
      var gen := epoch + 1;
      epoch := gen;
      var jobs;
      rows, jobs := FillRows(newRows, enqueue, gen);
      shown := |rows|;
      JobsFit(newRows, rows, gen);
      ui := Filled(gen, jobs);
    }

    /** enqueue_verifies: the queue is replaced by a cancel message and the jobs of the new list. */
    method EnqueueVerifies()
      requires Valid() && ui.Filled?
      modifies this`queue, this`ui
      ensures Valid() && ui.Ready?
      ensures queue == [Cancel(old(ui.gen))] + Messages(old(ui.jobs))
    {
      var jobs := ui.jobs;
      queue := [Cancel(ui.gen)];
      for i := 0 to |jobs|
        invariant queue == [Cancel(old(ui.gen))] + Messages(jobs[..i])
        modifies this`queue
      {
        assert jobs[..i + 1] == jobs[..i] + [jobs[i]];
        queue := queue + [Verify(jobs[i])];
      }
      assert jobs[..|jobs|] == jobs;
      ui := Ready;
    }

    /** A posted result runs: it paints its row if its epoch is current and the list has such a row. A
        paint always hits the row of the hashed file. */
    method RunPosted()
      requires Valid() && ui.Ready? && posted != []
      modifies this`posted, this`rows, this`paints
      ensures Valid() && posted == old(posted)[1..]
      ensures var r := old(posted)[0];
              if r.job.gen == epoch && r.job.row < shown then
                && r.job.row < |old(rows)| && old(rows)[r.job.row].abs == r.job.abs
                && paints == old(paints) + [Paint(r.job, r.ok, epoch, r.job.abs)]
                && rows == old(rows)[r.job.row := old(rows)[r.job.row].(status := if r.ok then GoodMark else BadMark)]
              else
                paints == old(paints) && rows == old(rows)
    {
      var r := posted[0];
      posted := posted[1..];
      if r.job.gen != epoch {
        return;
      }
      if r.job.row >= shown {
        return;
      }
      ghost var before, was := rows, paints;
      if r.job.row < |rows| {
        rows := rows[r.job.row := rows[r.job.row].(status := if r.ok then GoodMark else BadMark)];
      }
      paints := paints + [Paint(r.job, r.ok, epoch, rows[r.job.row].abs)];
      StillBacked(before, rows, r.job.row, epoch, was, paints[|was|]);
    }

    // ---- The worker ----

    /** Takes the next message; cancel messages are dropped. */
    method Pop()
      requires Valid() && worker.Idle? && queue != []
      modifies this`queue, this`worker
      ensures Valid() && queue == old(queue)[1..]
      ensures worker == if old(queue)[0].Verify? then Popped(old(queue)[0].job) else Idle
    {
      var m := queue[0];
      queue := queue[1..];
      if m.Cancel? {
        return;
      }
      worker := Popped(m.job);
    }

    /** Reads the epoch, and drops a job of another one. */
    method CheckEpoch()
      requires Valid() && worker.Popped?
      modifies this`worker
      ensures Valid()
      ensures worker == if old(worker).job.gen == epoch then Hashing(old(worker).job) else Idle
    {
      if worker.job.gen != epoch {
        worker := Idle;
        return;
      }
      worker := Hashing(worker.job);
    }

    /** Posts the result of hashing, however long it took. */
    method FinishHash(ok: bool)
      requires Valid() && worker.Hashing?
      modifies this`worker, this`posted
      ensures Valid() && worker.Idle? && posted == old(posted) + [Result(old(worker).job, ok)]
    {
      posted := posted + [Result(worker.job, ok)];
      worker := Idle;
    }
  }

  /** Painting one row backs its mark and leaves the others backed. */
  lemma {:induction false} StillBacked(before: seq<Row>, after: seq<Row>, r: nat, epoch: nat, paints: seq<Paint>,
                                       p: Paint)
    requires r < |before| && p.epoch == epoch && p.job.abs == before[r].abs
    requires after == before[r := before[r].(status := if p.ok then GoodMark else BadMark)]
    requires forall i :: 0 <= i < |before| ==> Backed(before[i], epoch, paints)
    ensures forall i :: 0 <= i < |after| ==> Backed(after[i], epoch, paints + [p])
  {
    var more := paints + [p];
    assert more[|paints|] == p;
    forall i | 0 <= i < |after| ensures Backed(after[i], epoch, more) {
      if i == r {
        assert Shows(more[|paints|], after[r], epoch);
      } else if k :| 0 <= k < |paints| && Shows(paints[k], before[i], epoch) {
        assert Shows(more[k], after[i], epoch);
      }
    }
  }

  // ---- Interleavings ----

  /** One step of either thread; a step that cannot be taken where the schedule asks for it is skipped. */
  datatype Event =
    | OpenFolder
    | AccessDenied
    | ShowRows(rows: seq<Row>)
    | Rearrange(rows: seq<Row>, enqueue: bool)
    | Enqueue
    | PaintResult
    | WorkerPop
    | WorkerCheck
    | WorkerFinish(ok: bool)

  datatype State = State(epoch: nat, rows: seq<Row>, shown: nat, queue: seq<Msg>, posted: seq<Result>, worker: Worker,
                         ui: Ui, paints: seq<Paint>)

  const START := State(1, [], 0, [], [], Idle, Ready, [])

  /** May this step be taken now? */
  predicate Enabled(s: State, e: Event) {
    match e
    case OpenFolder => s.ui.Ready?
    case AccessDenied => s.ui.Loading?
    case ShowRows(_) => s.ui.Loading?
    case Rearrange(rows, _) => s.ui.Ready? && multiset(rows) == multiset(s.rows)
    case Enqueue => s.ui.Filled?
    case PaintResult => s.ui.Ready? && s.posted != []
    case WorkerPop => s.worker.Idle? && s.queue != []
    case WorkerCheck => s.worker.Popped?
    case WorkerFinish(_) => s.worker.Hashing?
  }

  /** The state after a step. */
  function Next(s: State, e: Event): State {
    if !Enabled(s, e) then s
    else
      match e
      case OpenFolder => s.(rows := [], ui := Loading)
      case AccessDenied => s.(shown := 0, ui := Ready)
      case ShowRows(rows) => Shown(s, rows, true)
      case Rearrange(rows, enqueue) => Shown(s, rows, enqueue)
      case Enqueue => s.(queue := [Cancel(s.ui.gen)] + Messages(s.ui.jobs), ui := Ready)
      case PaintResult => Painted(s.(posted := s.posted[1..]), s.posted[0])
      case WorkerPop =>
        s.(queue := s.queue[1..], worker := if s.queue[0].Verify? then Popped(s.queue[0].job) else Idle)
      case WorkerCheck => s.(worker := if s.worker.job.gen == s.epoch then Hashing(s.worker.job) else Idle)
      case WorkerFinish(ok) => s.(worker := Idle, posted := s.posted + [Result(s.worker.job, ok)])
  }

  /** A list of fresh rows in a new epoch, with jobs to queue. */
  function Shown(s: State, rows: seq<Row>, enqueue: bool): State {
    s.(epoch := s.epoch + 1, rows := FreshRows(rows), shown := |rows|,
       ui := Filled(s.epoch + 1, JobsShown(rows, enqueue, s.epoch + 1)))
  }

  /** A result of the current epoch changes its row, whatever file that row holds. */
  function Painted(s: State, r: Result): State {
    if r.job.gen != s.epoch || r.job.row >= s.shown || r.job.row >= |s.rows| then s
    else
      var row := s.rows[r.job.row];
      s.(rows := s.rows[r.job.row := row.(status := if r.ok then GoodMark else BadMark)],
         paints := s.paints + [Paint(r.job, r.ok, s.epoch, row.abs)])
  }

  method Take(b: Browser, e: Event)
    requires b.Valid()
    modifies b
    ensures b.Valid() && b.Now() == Next(old(b.Now()), e)
  {
    if e.WorkerPop? || e.WorkerCheck? || e.WorkerFinish? {
      TakeWorker(b, e);
    } else {
      TakeUi(b, e);
    }
  }

  method TakeUi(b: Browser, e: Event)
    requires b.Valid() && !e.WorkerPop? && !e.WorkerCheck? && !e.WorkerFinish?
    modifies b
    ensures b.Valid() && b.Now() == Next(old(b.Now()), e)
  {
    match e
    case OpenFolder => if b.ui.Ready? { b.BeginShowFolder(); }
    case AccessDenied => if b.ui.Loading? { b.Denied(); }
    case ShowRows(_) => TakeList(b, e);
    case Rearrange(_, _) => TakeList(b, e);
    case Enqueue => if b.ui.Filled? { b.EnqueueVerifies(); }
    case PaintResult => if b.ui.Ready? && b.posted != [] { b.RunPosted(); }
  }

  method TakeList(b: Browser, e: Event)
    requires b.Valid() && (e.ShowRows? || e.Rearrange?)
    modifies b
    ensures b.Valid() && b.Now() == Next(old(b.Now()), e)
  {
    match e
    case ShowRows(rows) => if b.ui.Loading? { b.FillList(rows, true); }
    case Rearrange(rows, enqueue) =>
      if b.ui.Ready? && multiset(rows) == multiset(b.rows) { b.FillList(rows, enqueue); }
  }

  method TakeWorker(b: Browser, e: Event)
    requires b.Valid() && (e.WorkerPop? || e.WorkerCheck? || e.WorkerFinish?)
    modifies b
    ensures b.Valid() && b.Now() == Next(old(b.Now()), e)
  {
    match e
    case WorkerPop => if b.worker.Idle? && b.queue != [] { b.Pop(); }
    case WorkerCheck => if b.worker.Popped? { b.CheckEpoch(); }
    case WorkerFinish(ok) => if b.worker.Hashing? { b.FinishHash(ok); }
  }

  /** The states that a schedule goes through. */
  predicate Run(schedule: seq<Event>, states: seq<State>) {
    && |states| == |schedule| + 1
    && states[0] == START
    && forall i :: 0 <= i < |schedule| ==> Follows(schedule, states, i)
  }

  predicate Follows(schedule: seq<Event>, states: seq<State>, i: nat)
    requires i < |schedule| && |states| == |schedule| + 1
  {
    states[i + 1] == Next(states[i], schedule[i])
  }

  /** Every paint was of the epoch it happened in and hit the row of the hashed file, and every mark in the
      list comes from the database or from such a paint of this epoch. */
  ghost predicate Honest(s: State) {
    && (forall i :: 0 <= i < |s.paints| ==> RightPaint(s.paints[i]))
    && forall i :: 0 <= i < |s.rows| ==> Backed(s.rows[i], s.epoch, s.paints)
  }

  /** In every interleaving of the threads every state is honest. */
  method Interleave(schedule: seq<Event>) returns (states: seq<State>)
    ensures Run(schedule, states)
    ensures forall i :: 0 <= i < |states| ==> Honest(states[i])
  {
    var b := new Browser();
    states := [b.Now()];
    assert schedule[..0] == [];
    for i := 0 to |schedule|
      invariant b.Valid() && Run(schedule[..i], states) && states[i] == b.Now()
      invariant forall k :: 0 <= k < |states| ==> Honest(states[k])
    {
      Take(b, schedule[i]);
      RunSnoc(schedule[..i], states, schedule[i], b.Now());
      assert schedule[..i + 1] == schedule[..i] + [schedule[i]];
      states := states + [b.Now()];
    }
    assert schedule[..|schedule|] == schedule;
  }

  lemma {:induction false} RunSnoc(schedule: seq<Event>, states: seq<State>, e: Event, s: State)
    requires Run(schedule, states) && s == Next(states[|schedule|], e)
    ensures Run(schedule + [e], states + [s])
  {
    var es, ss := schedule + [e], states + [s];
    forall i | 0 <= i < |es| ensures Follows(es, ss, i) {
      if i < |schedule| { assert Follows(schedule, states, i); }
    }
  }

  // ---- Deliveries ----

  /** The jobs of an epoch, in order. */
  function Current(jobs: seq<Job>, gen: nat): seq<Job> {
    if jobs == [] then []
    else Current(DropLast(jobs), gen) + if Last(jobs).gen == gen then [Last(jobs)] else []
  }

  lemma {:induction false} CurrentConcat(a: seq<Job>, b: seq<Job>, gen: nat)
    ensures Current(a + b, gen) == Current(a, gen) + Current(b, gen)
    decreases |b|
  {
    if b == [] {
      assert a + b == a;
    } else {
      assert DropLast(a + b) == a + DropLast(b) && Last(a + b) == Last(b);
      CurrentConcat(a, DropLast(b), gen);
    }
  }

  lemma {:induction false} CurrentHas(jobs: seq<Job>, gen: nat, i: nat)
    requires i < |jobs| && jobs[i].gen == gen
    ensures jobs[i] in Current(jobs, gen)
  {
    if i < |jobs| - 1 { CurrentHas(DropLast(jobs), gen, i); }
  }

  lemma {:induction false} CurrentAll(jobs: seq<Job>, gen: nat)
    requires forall i :: 0 <= i < |jobs| ==> jobs[i].gen == gen
    ensures Current(jobs, gen) == jobs
  {
    if jobs != [] {
      CurrentAll(DropLast(jobs), gen);
      assert jobs == DropLast(jobs) + [Last(jobs)];
    }
  }

  lemma {:induction false} CurrentNone(jobs: seq<Job>, gen: nat)
    requires forall i :: 0 <= i < |jobs| ==> jobs[i].gen != gen
    ensures Current(jobs, gen) == []
  {
    if jobs != [] { CurrentNone(DropLast(jobs), gen); }
  }

  function QueueJobs(queue: seq<Msg>): seq<Job> {
    if queue == [] then []
    else (if queue[0].Verify? then [queue[0].job] else []) + QueueJobs(queue[1..])
  }

  function WorkerJobs(w: Worker): seq<Job> {
    if w.Idle? then [] else [w.job]
  }

  function PostedJobs(posted: seq<Result>): (js: seq<Job>)
    ensures |js| == |posted| && forall i :: 0 <= i < |js| ==> js[i] == posted[i].job
  {
    seq(|posted|, i requires 0 <= i < |posted| => posted[i].job)
  }

  function PaintJobs(paints: seq<Paint>): (js: seq<Job>)
    ensures |js| == |paints| && forall i :: 0 <= i < |js| ==> js[i] == paints[i].job
  {
    seq(|paints|, i requires 0 <= i < |paints| => paints[i].job)
  }

  /** The jobs of an epoch on their way, the end of the way first: painted, posted, with the worker, queued. */
  function Line(s: State, gen: nat): seq<Job> {
    Current(PaintJobs(s.paints), gen) + Current(PostedJobs(s.posted), gen) +
    (Current(WorkerJobs(s.worker), gen) + Current(QueueJobs(s.queue), gen))
  }

  lemma {:induction false} QueueHasMessages(jobs: seq<Job>)
    ensures QueueJobs(Messages(jobs)) == jobs
  {
    if jobs != [] {
      assert Messages(jobs)[1..] == Messages(jobs[1..]);
      QueueHasMessages(jobs[1..]);
      assert jobs == [jobs[0]] + jobs[1..];
    }
  }

  lemma {:induction false} HeadJob(queue: seq<Msg>, gen: nat)
    requires queue != []
    ensures Current(QueueJobs(queue), gen) ==
            Current(if queue[0].Verify? then [queue[0].job] else [], gen) + Current(QueueJobs(queue[1..]), gen)
  {
    CurrentConcat(if queue[0].Verify? then [queue[0].job] else [], QueueJobs(queue[1..]), gen);
  }

  lemma {:induction false} PopMoves(s: State, gen: nat)
    requires Enabled(s, WorkerPop)
    ensures Line(Next(s, WorkerPop), gen) == Line(s, gen)
  {
    HeadJob(s.queue, gen);
    assert Current([], gen) == [];
  }

  lemma {:induction false} CheckMoves(s: State)
    requires Enabled(s, WorkerCheck)
    ensures Line(Next(s, WorkerCheck), s.epoch) == Line(s, s.epoch)
  {
    assert Current([], s.epoch) == [];
    if s.worker.job.gen != s.epoch { CurrentNone([s.worker.job], s.epoch); }
  }

  lemma {:induction false} FinishMoves(s: State, ok: bool, gen: nat)
    requires Enabled(s, WorkerFinish(ok))
    ensures Line(Next(s, WorkerFinish(ok)), gen) == Line(s, gen)
  {
    var t := Next(s, WorkerFinish(ok));
    assert PostedJobs(t.posted) == PostedJobs(s.posted) + [s.worker.job];
    CurrentConcat(PostedJobs(s.posted), [s.worker.job], gen);
    var p, b, w, q := Current(PaintJobs(s.paints), gen), Current(PostedJobs(s.posted), gen),
      Current([s.worker.job], gen), Current(QueueJobs(s.queue), gen);
    assert p + (b + w) + ([] + q) == p + b + (w + q);
  }

  /** A row on screen, so that a current result paints it. */
  predicate OnScreen(s: State, j: Job) {
    j.row < s.shown && j.row < |s.rows|
  }

  lemma {:induction false} PaintMoves(s: State)
    requires Enabled(s, PaintResult) && (s.posted[0].job.gen == s.epoch ==> OnScreen(s, s.posted[0].job))
    ensures Line(Next(s, PaintResult), s.epoch) == Line(s, s.epoch)
  {
    var t, j := Next(s, PaintResult), s.posted[0].job;
    assert PostedJobs(s.posted) == [j] + PostedJobs(t.posted);
    CurrentConcat([j], PostedJobs(t.posted), s.epoch);
    var p, b := Current(PaintJobs(s.paints), s.epoch), Current(PostedJobs(t.posted), s.epoch);
    if j.gen == s.epoch {
      assert PaintJobs(t.paints) == PaintJobs(s.paints) + [j];
      CurrentConcat(PaintJobs(s.paints), [j], s.epoch);
      Associates(p, [j], b);
      CurrentAll([j], s.epoch);
    } else {
      CurrentNone([j], s.epoch);
      assert [] + b == b;
    }
  }

  /** No job is of a later epoch. */
  predicate NoneLater(s: State) {
    && (forall i :: 0 <= i < |s.paints| ==> s.paints[i].job.gen <= s.epoch)
    && (forall i :: 0 <= i < |s.posted| ==> s.posted[i].job.gen <= s.epoch)
    && (!s.worker.Idle? ==> s.worker.job.gen <= s.epoch)
    && (forall i :: 0 <= i < |s.queue| && s.queue[i].Verify? ==> s.queue[i].job.gen <= s.epoch)
    && (s.ui.Filled? ==> forall i :: 0 <= i < |s.ui.jobs| ==> s.ui.jobs[i].gen <= s.epoch)
  }

  lemma {:induction false} NoneLaterStep(s: State, e: Event)
    requires NoneLater(s)
    ensures NoneLater(Next(s, e))
  {
    if e.ShowRows? || e.Rearrange? { JobsFit(e.rows, e.rows, s.epoch + 1); }
  }

  lemma {:induction false} NoneLaterEver(schedule: seq<Event>, states: seq<State>, n: nat)
    requires Run(schedule, states) && n <= |schedule|
    ensures NoneLater(states[n])
  {
    if n > 0 {
      NoneLaterEver(schedule, states, n - 1);
      assert Follows(schedule, states, n - 1);
      NoneLaterStep(states[n - 1], schedule[n - 1]);
    }
  }

  function Mark(ok: bool): Status {
    if ok then GoodMark else BadMark
  }

  /** Jobs of one epoch for different rows of a list, in row order, each with its row's file. */
  predicate JobsFor(jobs: seq<Job>, list: seq<Row>, gen: nat) {
    && (forall i :: 0 <= i < |jobs| ==>
          jobs[i].gen == gen && jobs[i].row < |list| && list[jobs[i].row].abs == jobs[i].abs)
    && forall i, k :: 0 <= i < k < |jobs| ==> jobs[i].row < jobs[k].row
  }

  lemma {:induction false} JobsOrdered(rows: seq<Row>, gen: nat)
    ensures JobsFor(JobsOf(rows, gen), rows, gen)
  {
    if rows != [] {
      JobsOrdered(DropLast(rows), gen);
      JobsFit(DropLast(rows), DropLast(rows), gen);
    }
    JobsFit(rows, rows, gen);
  }

  /** A paint of this epoch for this row. */
  predicate Painting(p: Paint, epoch: nat, r: nat) {
    p.job.gen == epoch && p.job.row == r
  }

  /** Every row shows what was painted on it in this epoch, and its fresh status where nothing was. */
  ghost predicate ShowsPaints(rows: seq<Row>, paints: seq<Paint>, epoch: nat, list: seq<Row>) {
    && |rows| == |list|
    && (forall r :: 0 <= r < |rows| ==> rows[r] == list[r].(status := rows[r].status))
    && (forall i, r :: 0 <= i < |paints| && 0 <= r < |rows| && Painting(paints[i], epoch, r) ==>
          rows[r].status == Mark(paints[i].ok))
    && forall r :: 0 <= r < |rows| ==> rows[r].status == list[r].Fresh() || Touched(paints, epoch, r)
  }

  predicate Touched(paints: seq<Paint>, epoch: nat, r: nat) {
    exists i :: 0 <= i < |paints| && Painting(paints[i], epoch, r)
  }

  /** A list is on screen and its jobs are on their way, in order, none lost and none doubled. */
  ghost predicate Serving(s: State, list: seq<Row>, jobs: seq<Job>) {
    && JobsFor(jobs, list, s.epoch) && s.shown == |list| && ShowsPaints(s.rows, s.paints, s.epoch, list)
    && (s.ui.Filled? || s.ui.Ready?)
    && (s.ui.Filled? ==> s.ui.jobs == jobs && Line(s, s.epoch) == [])
    && (s.ui.Ready? ==> Line(s, s.epoch) == jobs)
  }

  /** A list of rows begins to be served. */
  lemma {:induction false} ServingStart(s: State, t: State, list: seq<Row>, jobs: seq<Job>)
    requires NoneLater(s) && JobsFor(jobs, list, t.epoch) && t.epoch == s.epoch + 1
    requires t == s.(epoch := t.epoch, rows := FreshRows(list), shown := |list|, ui := Filled(t.epoch, jobs))
    ensures Serving(t, list, jobs)
  {
    NoneYet(s, t.epoch);
    assert Line(t, t.epoch) == Line(s, t.epoch);
  }

  lemma {:induction false} NoneYet(s: State, gen: nat)
    requires NoneLater(s) && gen > s.epoch
    ensures Line(s, gen) == []
    ensures forall i, r: nat :: 0 <= i < |s.paints| ==> !Painting(s.paints[i], gen, r)
  {
    CurrentNone(PaintJobs(s.paints), gen);
    CurrentNone(PostedJobs(s.posted), gen);
    CurrentNone(WorkerJobs(s.worker), gen);
    QueueNone(s.queue, gen);
  }

  lemma {:induction false} QueueNone(queue: seq<Msg>, gen: nat)
    requires forall i :: 0 <= i < |queue| && queue[i].Verify? ==> queue[i].job.gen != gen
    ensures Current(QueueJobs(queue), gen) == []
  {
    if queue != [] {
      HeadJob(queue, gen);
      QueueNone(queue[1..], gen);
      CurrentNone(if queue[0].Verify? then [queue[0].job] else [], gen);
    }
  }

  /** The first posted job, if current, is the next one to paint: all current paints were for earlier rows. */
  lemma {:induction false} NextToPaint(s: State, list: seq<Row>, jobs: seq<Job>)
    requires Serving(s, list, jobs) && s.ui.Ready? && s.posted != [] && s.posted[0].job.gen == s.epoch
    ensures |s.rows| == |list| && OnScreen(s, s.posted[0].job)
    ensures forall i :: 0 <= i < |s.paints| && s.paints[i].job.gen == s.epoch ==>
              s.paints[i].job.row < s.posted[0].job.row
  {
    var j, js, ps := s.posted[0].job, PostedJobs(s.posted), PaintJobs(s.paints);
    var done, rest := Current(ps, s.epoch), Current(js[1..], s.epoch);
    assert js == [j] + js[1..];
    CurrentConcat([j], js[1..], s.epoch);
    CurrentAll([j], s.epoch);
    assert Line(s, s.epoch)[|done|] == j;
    forall i | 0 <= i < |s.paints| && s.paints[i].job.gen == s.epoch ensures s.paints[i].job.row < j.row {
      CurrentHas(ps, s.epoch, i);
      var k :| 0 <= k < |done| && done[k] == ps[i];
      assert Line(s, s.epoch)[k] == ps[i];
    }
  }

  lemma {:induction false} PaintShows(s: State, list: seq<Row>, jobs: seq<Job>)
    requires Serving(s, list, jobs) && s.ui.Ready? && s.posted != []
    ensures var t := Next(s, PaintResult); ShowsPaints(t.rows, t.paints, t.epoch, list)
  {
    var t, j := Next(s, PaintResult), s.posted[0].job;
    if j.gen == s.epoch {
      NextToPaint(s, list, jobs);
      OneShown(s.rows, s.paints, s.epoch, list, t.paints[|s.paints|]);
    }
  }

  /** Painting a row that was not painted in this epoch. */
  lemma {:induction false} OneShown(rows: seq<Row>, paints: seq<Paint>, epoch: nat, list: seq<Row>, p: Paint)
    requires ShowsPaints(rows, paints, epoch, list) && p.job.gen == epoch && p.job.row < |rows|
    requires forall i :: 0 <= i < |paints| && paints[i].job.gen == epoch ==> paints[i].job.row < p.job.row
    ensures ShowsPaints(rows[p.job.row := rows[p.job.row].(status := Mark(p.ok))], paints + [p], epoch, list)
  {
    var more := paints + [p];
    forall r | 0 <= r < |rows| && (r == p.job.row || Touched(paints, epoch, r)) ensures Touched(more, epoch, r) {
      if r == p.job.row {
        assert Painting(more[|paints|], epoch, r);
      } else {
        var i :| 0 <= i < |paints| && Painting(paints[i], epoch, r);
        assert Painting(more[i], epoch, r);
      }
    }
  }

  /** Without navigation every step keeps serving the list. */
  lemma {:induction false} ServingStep(s: State, e: Event, list: seq<Row>, jobs: seq<Job>)
    requires Serving(s, list, jobs) && Stays(e)
    ensures Serving(Next(s, e), list, jobs) && Next(s, e).epoch == s.epoch
  {
    if Enabled(s, e) {
      match e
      case Enqueue => EnqueueServes(s, list, jobs);
      case PaintResult => PaintServes(s, list, jobs);
      case WorkerPop => MovesServe(s, e, list, jobs);
      case WorkerCheck => MovesServe(s, e, list, jobs);
      case WorkerFinish(ok) => MovesServe(s, e, list, jobs);
    }
  }

  lemma {:induction false} MovesServe(s: State, e: Event, list: seq<Row>, jobs: seq<Job>)
    requires Serving(s, list, jobs) && Enabled(s, e) && (e.WorkerPop? || e.WorkerCheck? || e.WorkerFinish?)
    ensures Serving(Next(s, e), list, jobs)
  {
    match e
    case WorkerPop => PopMoves(s, s.epoch);
    case WorkerCheck => CheckMoves(s);
    case WorkerFinish(ok) => FinishMoves(s, ok, s.epoch);
  }

  lemma {:induction false} PaintServes(s: State, list: seq<Row>, jobs: seq<Job>)
    requires Serving(s, list, jobs) && s.ui.Ready? && s.posted != []
    ensures Serving(Next(s, PaintResult), list, jobs)
  {
    if s.posted[0].job.gen == s.epoch { NextToPaint(s, list, jobs); }
    PaintMoves(s);
    PaintShows(s, list, jobs);
  }

  lemma {:induction false} EnqueueServes(s: State, list: seq<Row>, jobs: seq<Job>)
    requires Serving(s, list, jobs) && s.ui.Filled?
    ensures Serving(Next(s, Enqueue), list, jobs)
  {
    QueueFilled(jobs, s.ui.gen, s.epoch);
    var t := Next(s, Enqueue);
    assert Current(QueueJobs(t.queue), s.epoch) == jobs;
    var a, b, c := Current(PaintJobs(s.paints), s.epoch), Current(PostedJobs(s.posted), s.epoch),
      Current(WorkerJobs(s.worker), s.epoch);
    assert |a| + |b| + |c| <= |Line(s, s.epoch)| == 0;
    assert a + b + (c + jobs) == jobs;
  }

  lemma {:induction false} QueueFilled(jobs: seq<Job>, gen: nat, epoch: nat)
    requires forall i :: 0 <= i < |jobs| ==> jobs[i].gen == epoch
    ensures Current(QueueJobs([Cancel(gen)] + Messages(jobs)), epoch) == jobs
  {
    var queue := [Cancel(gen)] + Messages(jobs);
    assert queue[1..] == Messages(jobs);
    QueueHasMessages(jobs);
    HeadJob(queue, epoch);
    CurrentAll(jobs, epoch);
    assert Current([], epoch) == [];
    assert [] + jobs == jobs;
  }

  /** A step that shows a list. */
  predicate ShowsList(s: State, e: Event, list: seq<Row>, enqueue: bool) {
    Enabled(s, e) && (e == Rearrange(list, enqueue) || (e == ShowRows(list) && enqueue))
  }

  lemma {:induction false} ServedFirst(s: State, e: Event, list: seq<Row>, enqueue: bool)
    requires NoneLater(s) && ShowsList(s, e, list, enqueue)
    ensures ServedAt(Next(s, e), list, enqueue, s.epoch + 1)
  {
    JobsOrdered(list, s.epoch + 1);
    ServingStart(s, Next(s, e), list, JobsShown(list, enqueue, s.epoch + 1));
  }

  /** Moves other than opening a folder and rearranging the list. */
  predicate Stays(e: Event) {
    !e.OpenFolder? && !e.Rearrange?
  }

  /** What every step that stays keeps holds as long as the steps stay. */
  lemma {:induction false} KeptUntil(schedule: seq<Event>, states: seq<State>, m: nat, n: nat, p: State -> bool)
    requires Run(schedule, states) && m <= n <= |schedule| && p(states[m])
    requires forall i :: m <= i < n ==> Stays(schedule[i])
    requires forall s, e :: p(s) && Stays(e) ==> p(Next(s, e))
    ensures p(states[n])
    decreases n
  {
    if m < n {
      KeptUntil(schedule, states, m, n - 1, p);
      assert Follows(schedule, states, n - 1);
    }
  }

  lemma {:induction false} ServedUntil(schedule: seq<Event>, states: seq<State>, m: nat, n: nat, list: seq<Row>,
                                       enqueue: bool)
    requires Run(schedule, states) && m < n <= |schedule| && ShowsList(states[m], schedule[m], list, enqueue)
    requires forall i :: m < i < n ==> Stays(schedule[i])
    ensures ServedAt(states[n], list, enqueue, states[m].epoch + 1)
  {
    var epoch := states[m].epoch + 1;
    var p := (s: State) => ServedAt(s, list, enqueue, epoch);
    ServedFirstAt(schedule, states, m, list, enqueue);
    forall s, e | p(s) && Stays(e) ensures p(Next(s, e)) { ServedNext(s, e, list, enqueue, epoch); }
    KeptUntil(schedule, states, m + 1, n, p);
  }

  lemma {:induction false} ServedFirstAt(schedule: seq<Event>, states: seq<State>, m: nat, list: seq<Row>,
                                         enqueue: bool)
    requires Run(schedule, states) && m < |schedule| && ShowsList(states[m], schedule[m], list, enqueue)
    ensures ServedAt(states[m + 1], list, enqueue, states[m].epoch + 1)
  {
    assert Follows(schedule, states, m);
    NoneLaterEver(schedule, states, m);
    ServedFirst(states[m], schedule[m], list, enqueue);
  }

  ghost predicate ServedAt(s: State, list: seq<Row>, enqueue: bool, epoch: nat) {
    Serving(s, list, JobsShown(list, enqueue, epoch)) && s.epoch == epoch
  }

  lemma {:induction false} ServedNext(s: State, e: Event, list: seq<Row>, enqueue: bool, epoch: nat)
    requires ServedAt(s, list, enqueue, epoch) && Stays(e)
    ensures ServedAt(Next(s, e), list, enqueue, epoch)
  {
    ServingStep(s, e, list, JobsShown(list, enqueue, epoch));
  }

  /** Nothing is on its way. */
  predicate Settled(s: State) {
    s.ui.Ready? && s.queue == [] && s.worker.Idle? && s.posted == []
  }

  /** No row is forgotten: from the moment a list is shown until the user turns elsewhere, once everything
      has settled, the jobs painted in this epoch are those of the list, once each and in row order; a row
      that wanted a hash shows its result, and every other row its fresh status. */
  lemma {:induction false} Delivered(schedule: seq<Event>, states: seq<State>, m: nat, n: nat, list: seq<Row>,
                                     enqueue: bool)
    requires Run(schedule, states) && m < n <= |schedule| && ShowsList(states[m], schedule[m], list, enqueue)
    requires forall i :: m < i < n ==> Stays(schedule[i])
    requires Settled(states[n])
    ensures Served(states[n], list, JobsShown(list, enqueue, states[n].epoch))
    ensures forall r :: 0 <= r < |list| ==> RowServed(states[n], list, r, enqueue)
  {
    ServedUntil(schedule, states, m, n, list, enqueue);
    JobsOrdered(list, states[n].epoch);
    AllServed(states[n], list, JobsShown(list, enqueue, states[n].epoch));
    forall r | 0 <= r < |list| ensures RowServed(states[n], list, r, enqueue) {
      EachServed(states[n], list, r, enqueue);
    }
  }

  /** What a settled row shows: the result of the hash it was to have; or how it fared not long ago; or that
      it waits, when nothing was to be hashed; or where its file is missing. */
  ghost predicate RowServed(s: State, list: seq<Row>, r: nat, enqueue: bool)
    requires r < |list|
  {
    var row := list[r];
    && r < |s.rows| && s.rows[r] == row.(status := s.rows[r].status)
    && match s.rows[r].status
       case Missing => !row.inFs
       case New => row.inFs && !row.inDb
       case Blank => row.inFs && row.inDb && row.isDir
       case Waiting => row.inFs && row.inDb && !row.isDir && !row.recent && !enqueue
       case _ =>
         && row.inFs && row.inDb && !row.isDir
         && if row.recent then s.rows[r].status.GoodMark? == row.lastOk
            else enqueue && PaintedAs(s, Job(s.epoch, r, row.abs), s.rows[r].status.GoodMark?)
  }

  /** The job was painted with this result. */
  predicate PaintedAs(s: State, j: Job, ok: bool) {
    exists i :: 0 <= i < |s.paints| && s.paints[i].job == j && s.paints[i].ok == ok
  }

  lemma {:induction false} EachServed(s: State, list: seq<Row>, r: nat, enqueue: bool)
    requires Served(s, list, JobsShown(list, enqueue, s.epoch)) && r < |list|
    ensures RowServed(s, list, r, enqueue)
  {
    var j := Job(s.epoch, r, list[r].abs);
    JobIff(list, s.epoch, r);
    if j in JobsShown(list, enqueue, s.epoch) {
      CurrentFrom(PaintJobs(s.paints), s.epoch, j);
      var i :| 0 <= i < |s.paints| && PaintJobs(s.paints)[i] == j;
      assert s.paints[i].job == j;
    }
  }

  lemma {:induction false} CurrentFrom(jobs: seq<Job>, gen: nat, j: Job)
    requires j in Current(jobs, gen)
    ensures exists i :: 0 <= i < |jobs| && jobs[i] == j
  {
    if j == Last(jobs) {
      assert jobs[|jobs| - 1] == j;
    } else {
      CurrentFrom(DropLast(jobs), gen, j);
      var i :| 0 <= i < |jobs| - 1 && DropLast(jobs)[i] == j;
      assert jobs[i] == j;
    }
  }

  /** The paints of this epoch were for these jobs, once each and in order; their rows show the results,
      the other rows their fresh status. */
  ghost predicate Served(s: State, list: seq<Row>, jobs: seq<Job>) {
    && |s.rows| == |list|
    && (forall r :: 0 <= r < |list| ==> s.rows[r] == list[r].(status := s.rows[r].status))
    && Current(PaintJobs(s.paints), s.epoch) == jobs
    && (forall i :: 0 <= i < |s.paints| && s.paints[i].job in jobs ==>
          s.paints[i].job.row < |list| && s.rows[s.paints[i].job.row].status == Mark(s.paints[i].ok))
    && forall r :: 0 <= r < |list| && Job(s.epoch, r, list[r].abs) !in jobs ==> s.rows[r].status == list[r].Fresh()
  }

  lemma {:induction false} AllServed(s: State, list: seq<Row>, jobs: seq<Job>)
    requires Serving(s, list, jobs) && Settled(s)
    ensures Served(s, list, jobs)
  {
    var ps := PaintJobs(s.paints);
    assert Current([], s.epoch) == [];
    assert Current(ps, s.epoch) == Line(s, s.epoch);
    forall i | 0 <= i < |s.paints| && s.paints[i].job in jobs
      ensures s.paints[i].job.row < |list| && s.rows[s.paints[i].job.row].status == Mark(s.paints[i].ok)
    {
      assert Painting(s.paints[i], s.epoch, s.paints[i].job.row);
    }
    forall r | 0 <= r < |list| && s.rows[r].status != list[r].Fresh() ensures Job(s.epoch, r, list[r].abs) in jobs {
      var i :| 0 <= i < |s.paints| && Painting(s.paints[i], s.epoch, r);
      CurrentHas(ps, s.epoch, i);
    }
  }

  /** How many steps the worker and the painting have left at most. */
  function Remaining(s: State): nat {
    4 * |s.queue| + (if s.worker.Idle? then 0 else if s.worker.Popped? then 3 else 2) + |s.posted|
  }

  /** Outside a handler something is on its way exactly when one of these steps can be taken, and each of
      them leaves less to do, so that without navigation everything settles. */
  lemma {:induction false} Settles(s: State, ok: bool)
    requires s.ui.Ready?
    ensures Settled(s) <==> forall e :: e in {PaintResult, WorkerPop, WorkerCheck, WorkerFinish(ok)} ==> !Enabled(s, e)
    ensures forall e :: e in {PaintResult, WorkerPop, WorkerCheck, WorkerFinish(ok)} && Enabled(s, e) ==>
              Next(s, e).ui.Ready? && Remaining(Next(s, e)) < Remaining(s)
  {
    assert Enabled(s, PaintResult) <==> s.posted != [];
    assert Enabled(s, WorkerPop) <==> s.worker.Idle? && s.queue != [];
    assert Enabled(s, WorkerCheck) <==> s.worker.Popped?;
    assert Enabled(s, WorkerFinish(ok)) <==> s.worker.Hashing?;
  }

  /** Opening a folder with one file to hash, and all steps that follow from it. */
  function OneFile(row: Row, ok: bool): seq<Event> {
    [OpenFolder, ShowRows([row]), Enqueue, WorkerPop, WorkerPop, WorkerCheck, WorkerFinish(ok), PaintResult]
  }

  function OneJob(row: Row): Job { Job(2, 0, row.abs) }

  /** The list of that file is on screen. */
  function OnList(row: Row, queue: seq<Msg>, worker: Worker, posted: seq<Result>, ui: Ui): State {
    State(2, [row.(status := row.Fresh())], 1, queue, posted, worker, ui, [])
  }

  function OneFileStates(row: Row, ok: bool): seq<State> {
    var j := OneJob(row);
    [START,
     START.(ui := Loading),
     OnList(row, [], Idle, [], Filled(2, [j])),
     OnList(row, [Cancel(2), Verify(j)], Idle, [], Ready),
     OnList(row, [Verify(j)], Idle, [], Ready),
     OnList(row, [], Popped(j), [], Ready),
     OnList(row, [], Hashing(j), [], Ready),
     OnList(row, [], Idle, [Result(j, ok)], Ready),
     State(2, [row.(status := Mark(ok))], 1, [], [], Idle, Ready, [Paint(j, ok, 2, row.abs)])]
  }

  lemma {:induction false} OneListed(row: Row)
    requires row.WantsHash()
    ensures Next(START.(ui := Loading), ShowRows([row])) == OnList(row, [], Idle, [], Filled(2, [OneJob(row)]))
  {
    var list := [row];
    assert DropLast(list) == [] && Last(list) == row;
    assert JobsOf(list, 2) == JobsOf(DropLast(list), 2) + [OneJob(row)] == [OneJob(row)];
    assert FreshRows(list) == [row.(status := row.Fresh())];
    assert Next(START.(ui := Loading), ShowRows(list)) == Shown(START.(ui := Loading), list, true);
  }

  lemma {:induction false} OneQueued(row: Row)
    ensures Next(OnList(row, [], Idle, [], Filled(2, [OneJob(row)])), Enqueue) ==
            OnList(row, [Cancel(2), Verify(OneJob(row))], Idle, [], Ready)
  {
    assert [Cancel(2)] + Messages([OneJob(row)]) == [Cancel(2), Verify(OneJob(row))];
  }

  lemma {:induction false} OnePopped(row: Row)
    ensures Next(OnList(row, [Cancel(2), Verify(OneJob(row))], Idle, [], Ready), WorkerPop) ==
            OnList(row, [Verify(OneJob(row))], Idle, [], Ready)
    ensures Next(OnList(row, [Verify(OneJob(row))], Idle, [], Ready), WorkerPop) ==
            OnList(row, [], Popped(OneJob(row)), [], Ready)
  {
    assert [Cancel(2), Verify(OneJob(row))][1..] == [Verify(OneJob(row))];
  }

  lemma {:induction false} OneHashed(row: Row, ok: bool)
    ensures Next(OnList(row, [], Popped(OneJob(row)), [], Ready), WorkerCheck) ==
            OnList(row, [], Hashing(OneJob(row)), [], Ready)
    ensures Next(OnList(row, [], Hashing(OneJob(row)), [], Ready), WorkerFinish(ok)) ==
            OnList(row, [], Idle, [Result(OneJob(row), ok)], Ready)
  {
  }

  lemma {:induction false} OnePainted(row: Row, ok: bool)
    ensures Next(OnList(row, [], Idle, [Result(OneJob(row), ok)], Ready), PaintResult) == OneFileStates(row, ok)[8]
  {
    assert [Result(OneJob(row), ok)][1..] == [];
  }

  /** Such a run exists: the file is hashed, and in the end its row shows the result. */
  lemma {:induction false} OneFileDelivered(row: Row, ok: bool)
    requires row.WantsHash()
    ensures Run(OneFile(row, ok), OneFileStates(row, ok))
    ensures ShowsList(OneFileStates(row, ok)[1], ShowRows([row]), [row], true) && Settled(OneFileStates(row, ok)[8])
  {
    var es, ss := OneFile(row, ok), OneFileStates(row, ok);
    forall i | 0 <= i < 8 ensures Follows(es, ss, i) { OneFileStep(row, ok, i); }
  }

  lemma {:induction false} OneFileStep(row: Row, ok: bool, i: nat)
    requires row.WantsHash() && i < 8
    ensures Follows(OneFile(row, ok), OneFileStates(row, ok), i)
  {
    match i
    case 0 =>
    case 1 => OneListed(row);
    case 2 => OneQueued(row);
    case 3 => OnePopped(row);
    case 4 => OnePopped(row);
    case 5 => OneHashed(row, ok);
    case 6 => OneHashed(row, ok);
    case 7 => OnePainted(row, ok);
  }
}
