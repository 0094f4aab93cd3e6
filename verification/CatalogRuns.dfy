/** Whole runs of catalog operations: whatever the callers ask for, in whatever order, the tables stay a
    tree, and the flat view changes as the single operations say (src/db/store.cpp). */
module CatalogRuns {
  import opened Extents
  import opened Options
  import opened Paths
  import opened FolderTree
  import opened Catalog
  import opened Stores
  import Engine
  import BlockIo

  datatype Cmd =
    | Upsert(path: string, facts: Facts)
    | SetSha1(path: string, sha1: seq<byte>)
    | BumpMassage(path: string, size: int, now: int)
    | BumpVerify(path: string, status: int, found: Option<seq<byte>>, now: int)
    | Get(path: string)
    | RecordRewrite(path: string, length: nat, errors: seq<BlockIo.Failure>, now: int)
    | DeleteFile(path: string)
    | EnsureFolder(parent: int, name: string)
    | DeleteFolder(id: int)
  {
    /** Commands that name a record by its path. */
    predicate ByPath() { !EnsureFolder? && !DeleteFolder? }
  }

  /** What a command that names a path does to the flat view. */
  function Step(v: Contents, cmd: Cmd): Contents
    requires cmd.ByPath()
  {
    match cmd
    case Upsert(path, facts) => Upserted(v, path, facts)
    case SetSha1(path, sha1) => Upserted(Opened(v, path), path, Base(v, path).(sha1 := Some(sha1)))
    case BumpMassage(path, size, now) => Upserted(Opened(v, path), path, Massaged(Base(v, path), size, now))
    case BumpVerify(path, status, found, now) =>
      Upserted(Opened(v, path), path, Verified(Base(v, path), status, found, now))
    case Get(path) => Opened(v, path)
    case RecordRewrite(path, length, errors, now) => Rewritten(v, path, length, Engine.SpansOf(errors), now)
    case DeleteFile(path) => FileDeleted(v, path)
  }

  /** What callers see of a store: its flat view, and the folders by rowid. */
  datatype Sight = Sight(view: Contents, names: map<nat, seq<string>>)

  ghost function SightOf(store: Store): Sight
    reads store
    requires store.Valid()
  {
    Sight(store.View(), Names(store.folders))
  }

  ghost function Names(fs: Folders): map<nat, seq<string>>
    requires TreeOk(fs)
  {
    map id | id in fs :: DirOf(fs, id)
  }

  /** A folder may be made under the root or a folder that is there, with a proper name. */
  predicate MayMake(names: map<nat, seq<string>>, parent: int, name: string) {
    (parent <= 0 || parent in names) && GoodName(name)
  }

  /** What a command does to the flat view. Making a folder adds exactly it, and the root; deleting one by
      rowid takes out exactly its subtree. */
  ghost function Effect(s: Sight, cmd: Cmd): Contents {
    match cmd
    case EnsureFolder(parent, name) =>
      if !MayMake(s.names, parent, name) then s.view
      else WithDirs(s.view, {[], (if parent <= 0 then [] else s.names[parent]) + [name]})
    case DeleteFolder(id) =>
      if id <= 0 then s.view
      else if Takes(s, cmd) then FolderDeleted(s.view, s.names[id])
      else WithDirs(s.view, {[]})
    case _ => Step(s.view, cmd)
  }

  /** What callers see of valid tables: folders by rowid are the folders of the view, one rowid each. */
  ghost predicate Sound(s: Sight) {
    && WellFormed(s.view) && s.names.Values == s.view.dirs
    && forall a, b :: a in s.names && b in s.names && s.names[a] == s.names[b] ==> a == b
  }

  /** The folder by this rowid is deleted with all below it; the root cannot be. */
  predicate Takes(s: Sight, cmd: Cmd) {
    cmd.DeleteFolder? && cmd.id > 0 && cmd.id in s.names && s.names[cmd.id] != []
  }

  /** Which folder a rowid names changes for no command but a folder deletion, and there exactly the
      rowids of the subtree go. */
  ghost predicate NamesFollow(s: Sight, cmd: Cmd, names: map<nat, seq<string>>) {
    if Takes(s, cmd) then names == map id | id in s.names && !(s.names[cmd.id] <= s.names[id]) :: s.names[id]
    else forall id :: id in s.names ==> id in names && names[id] == s.names[id]
  }

  /** A possible history of a store. */
  ghost predicate Trace(cmds: seq<Cmd>, sights: seq<Sight>) {
    && |sights| == |cmds| + 1
    && (forall i :: 0 <= i < |sights| ==> Sound(sights[i]))
    && forall i :: 0 <= i < |cmds| ==> Follows(sights, cmds, i)
  }

  ghost predicate Follows(sights: seq<Sight>, cmds: seq<Cmd>, i: nat)
    requires i < |cmds| && |sights| == |cmds| + 1
  {
    Happens(sights[i], cmds[i], sights[i + 1])
  }

  ghost predicate Happens(s: Sight, cmd: Cmd, next: Sight) {
    next.view == Effect(s, cmd) && NamesFollow(s, cmd, next.names)
  }

  /** Runs commands on a store. Folders are made under existing parents and with proper names only; there
      is no other condition. The tables are valid at every step: edges are unique, every folder hangs off
      the root, and no file is without its folder. */
  method Drive(store: Store, cmds: seq<Cmd>) returns (ghost sights: seq<Sight>)
    requires store.Valid()
    modifies store
    ensures store.Valid() && Trace(cmds, sights)
    ensures sights[0] == old(SightOf(store)) && sights[|cmds|] == SightOf(store)
  {
    sights := [SightOf(store)];
    SightSound(store);
    assert cmds[..0] == [];
    for i := 0 to |cmds|
      invariant store.Valid() && Trace(cmds[..i], sights)
      invariant sights[0] == old(SightOf(store)) && sights[i] == SightOf(store)
    {
      Execute(store, cmds[i]);
      SightSound(store);
      TraceSnoc(cmds[..i], sights, cmds[i], SightOf(store));
      assert cmds[..i + 1] == cmds[..i] + [cmds[i]];
      sights := sights + [SightOf(store)];
    }
    assert cmds[..|cmds|] == cmds;
  }

  lemma {:induction false} SightSound(store: Store)
    requires store.Valid()
    ensures Sound(SightOf(store))
  {
    ContentsWellFormed(store.folders, store.files, store.objects, store.extents);
    NamesAreDirs(store.folders);
  }

  lemma {:induction false} NamesAreDirs(fs: Folders)
    requires TreeOk(fs)
    ensures Names(fs).Values == Dirs(fs)
    ensures forall a, b :: a in fs && b in fs && Names(fs)[a] == Names(fs)[b] ==> a == b
  {
    var names := Names(fs);
    forall c ensures c in names.Values <==> c in Dirs(fs) {
      if c in names.Values {
        var id :| id in names && names[id] == c;
        InDirs(fs, id);
      }
      if c in Dirs(fs) {
        var id := DirId(fs, c);
        assert id in names && names[id] == c;
      }
    }
    forall a, b | a in fs && b in fs && names[a] == names[b] ensures a == b { CompsInjective(fs, a, b); }
  }

  /** Where no row goes, every rowid keeps its folder. */
  lemma {:induction false} NamesKept(fs: Folders, gs: Folders)
    requires TreeOk(fs) && TreeOk(gs) && SubTable(fs, gs)
    ensures forall id :: id in Names(fs) ==> id in Names(gs) && Names(gs)[id] == Names(fs)[id]
  {
    forall id | id in fs ensures id in gs && CompsOf(gs, id) == CompsOf(fs, id) { CompsStable(fs, gs, id); }
  }

  /** Deleting a subtree takes out exactly the rowids whose folders extend the deleted one. */
  lemma {:induction false} NamesWithout(fs: Folders, top: nat)
    requires TreeOk(fs) && top in fs
    ensures TreeOk(Without(fs, {top}))
    ensures Names(Without(fs, {top})) ==
            map id | id in Names(fs) && !(Names(fs)[top] <= Names(fs)[id]) :: Names(fs)[id]
  {
    WithoutKeepsTree(fs, {top});
    var gs := Without(fs, {top});
    forall id | id in fs ensures id in gs <==> !(CompsOf(fs, top) <= CompsOf(fs, id)) {
      UnderIsPrefix(fs, top, id);
    }
    NamesKept(gs, fs);
  }

  lemma {:induction false} TraceSnoc(cmds: seq<Cmd>, sights: seq<Sight>, cmd: Cmd, s: Sight)
    requires Trace(cmds, sights) && Sound(s) && Happens(sights[|cmds|], cmd, s)
    ensures Trace(cmds + [cmd], sights + [s])
  {
    var cs, ss := cmds + [cmd], sights + [s];
    forall i | 0 <= i < |cs| ensures Follows(ss, cs, i) {
      if i < |cmds| { assert Follows(sights, cmds, i); }
    }
  }

  method Execute(store: Store, cmd: Cmd)
    requires store.Valid()
    modifies store
    ensures store.Valid() && Happens(old(SightOf(store)), cmd, SightOf(store))
  {
    ghost var fs := store.folders;
    if cmd.ByPath() {
      ExecuteByPath(store, cmd);
      NamesKept(fs, store.folders);
    } else if cmd.EnsureFolder? {
      MakeFolder(store, cmd.parent, cmd.name);
      NamesKept(fs, store.folders);
    } else {
      store.DeleteFolder(cmd.id);
      if IsChild(fs, cmd.id) {
        NamesWithout(fs, cmd.id);
      } else {
        NamesKept(fs, store.folders);
      }
    }
  }

  method MakeFolder(store: Store, parent: int, name: string)
    requires store.Valid()
    modifies store
    ensures store.Valid() && store.View() == Effect(old(SightOf(store)), EnsureFolder(parent, name))
    ensures SubTable(old(store.folders), store.folders)
  {
    if (parent <= 0 || parent in store.folders) && GoodName(name) {
      ghost var fs := store.folders;
      var id;
      ghost var was, p;
      id, was, p := store.EnsureFolder(parent, name);
      if parent > 0 { CompsStable(fs, was, parent); }
    }
  }

  method ExecuteByPath(store: Store, cmd: Cmd)
    requires store.Valid() && cmd.ByPath()
    modifies store
    ensures store.Valid() && store.View() == Step(old(store.View()), cmd)
    ensures SubTable(old(store.folders), store.folders)
  {
    var ok;
    match cmd
    case Upsert(path, facts) => ok := store.UpsertObject(Record(path, facts));
    case SetSha1(path, sha1) => ok := store.SetSha1(path, sha1);
    case BumpMassage(path, size, now) => ok := store.BumpMassage(path, size, now);
    case BumpVerify(path, status, found, now) => ok := store.BumpVerify(path, status, found, now);
    case Get(path) => var f := store.GetObject(path);
    case RecordRewrite(path, length, errors, now) => Engine.RecordRewrite(store, path, length, errors, now);
    case DeleteFile(path) => store.DeleteFile(path);
  }

  // ---- What holds over whole runs ----

  /** A run that names only paths does to the flat view what the commands say, one after the other. */
  function RunAll(v: Contents, cmds: seq<Cmd>): Contents
    requires forall i :: 0 <= i < |cmds| ==> cmds[i].ByPath()
    decreases |cmds|
  {
    if cmds == [] then v else RunAll(Step(v, cmds[0]), cmds[1..])
  }

  lemma {:induction false} RunRefines(cmds: seq<Cmd>, sights: seq<Sight>)
    requires Trace(cmds, sights) && forall i :: 0 <= i < |cmds| ==> cmds[i].ByPath()
    ensures sights[|cmds|].view == RunAll(sights[0].view, cmds)
    decreases |cmds|
  {
    if cmds != [] {
      var rest, later := cmds[1..], sights[1..];
      assert Follows(sights, cmds, 0);
      forall i | 0 <= i < |rest| ensures Follows(later, rest, i) { assert Follows(sights, cmds, i + 1); }
      RunRefines(rest, later);
    }
  }

  /** A command that leaves the record of a path alone: it names another record, only reads, makes a
      folder, or deletes a folder that is not on the way to the file. */
  ghost predicate Spares(s: Sight, cmd: Cmd, path: string) {
    match cmd
    case Get(_) => true
    case EnsureFolder(_, _) => true
    case DeleteFolder(id) => Special(path) || id !in s.names || s.names[id] == [] || !InFolder(Comps(path), s.names[id])
    case _ => !SameRecord(cmd.path, path)
  }

  lemma {:induction false} StepFrame(s: Sight, cmd: Cmd, path: string)
    requires Spares(s, cmd, path)
    ensures Lookup(Effect(s, cmd), path) == Lookup(s.view, path)
  {
    var v := s.view;
    match cmd
    case Upsert(p, facts) => UpsertFrame(v, p, facts, path);
    case SetSha1(p, sha1) => UpsertFrame(v, p, Base(v, p).(sha1 := Some(sha1)), path);
    case BumpMassage(p, size, now) => UpsertFrame(v, p, Massaged(Base(v, p), size, now), path);
    case BumpVerify(p, status, found, now) => UpsertFrame(v, p, Verified(Base(v, p), status, found, now), path);
    case Get(_) =>
    case RecordRewrite(p, length, errors, now) =>
      var r := Replaced(v, p, Engine.SpansOf(errors), now);
      UpsertFrame(r, p, Massaged(Base(Opened(r, p), p), length, now), path);
    case DeleteFile(_) =>
    case EnsureFolder(_, _) =>
    case DeleteFolder(_) =>
  }

  lemma {:induction false} NextFrame(s: Sight, cmd: Cmd, next: Sight, path: string)
    requires Spares(s, cmd, path) && Happens(s, cmd, next)
    ensures Lookup(next.view, path) == Lookup(s.view, path)
  {
    StepFrame(s, cmd, path);
  }

  lemma {:induction false} UpsertFrame(v: Contents, p: string, f: Facts, path: string)
    requires !SameRecord(p, path)
    ensures Lookup(Upserted(Opened(v, p), p, f), path) == Lookup(v, path) == Lookup(Upserted(v, p, f), path)
  {
  }

  ghost predicate AllSpare(cmds: seq<Cmd>, sights: seq<Sight>, path: string)
    requires |sights| == |cmds| + 1
  {
    forall i :: 0 <= i < |cmds| ==> Spares(sights[i], cmds[i], path)
  }

  /** A path that every command spares keeps its record over the whole run. */
  lemma {:induction false} RunFrame(cmds: seq<Cmd>, sights: seq<Sight>, path: string, n: nat)
    requires Trace(cmds, sights) && n <= |cmds| && AllSpare(cmds, sights, path)
    ensures Lookup(sights[n].view, path) == Lookup(sights[0].view, path)
  {
    if n > 0 {
      RunFrame(cmds, sights, path, n - 1);
      TraceFrame(cmds, sights, path, n - 1);
    }
  }

  lemma {:induction false} TraceFrame(cmds: seq<Cmd>, sights: seq<Sight>, path: string, i: nat)
    requires Trace(cmds, sights) && i < |cmds| && AllSpare(cmds, sights, path)
    ensures Lookup(sights[i + 1].view, path) == Lookup(sights[i].view, path)
  {
    assert Follows(sights, cmds, i);
    NextFrame(sights[i], cmds[i], sights[i + 1], path);
  }

  // ---- Rowids over a run ----

  /** A rowid keeps its folder over a run unless a folder on the way to it, or the folder itself, is deleted. */
  lemma {:induction false} FolderKept(cmds: seq<Cmd>, sights: seq<Sight>, id: nat, n: nat)
    requires Trace(cmds, sights) && n <= |cmds| && id in sights[0].names
    requires forall i :: 0 <= i < n && Takes(sights[i], cmds[i]) ==>
               !(sights[i].names[cmds[i].id] <= sights[0].names[id])
    ensures id in sights[n].names && sights[n].names[id] == sights[0].names[id]
  {
    if n > 0 {
      FolderKept(cmds, sights, id, n - 1);
      assert Follows(sights, cmds, n - 1);
    }
  }

  /** The deletions of a run name folders that are there at its start, none at or below one deleted
      earlier. Callers that read the rowids once and then delete, as the file browser does, meet this. */
  ghost predicate Independent(cmds: seq<Cmd>, names: map<nat, seq<string>>) {
    && (forall i :: 0 <= i < |cmds| && cmds[i].DeleteFolder? ==> cmds[i].id in names)
    && forall i, j :: 0 <= i < j < |cmds| && cmds[i].DeleteFolder? && cmds[j].DeleteFolder? ==>
         names[cmds[i].id] == [] || !(names[cmds[i].id] <= names[cmds[j].id])
  }

  /** In such a run every rowid names its first folder until that one is taken out. */
  lemma {:induction false} StartFolders(cmds: seq<Cmd>, sights: seq<Sight>, id: nat, n: nat)
    requires Trace(cmds, sights) && n <= |cmds| && id in sights[0].names
    requires Independent(cmds, sights[0].names)
    requires forall i :: 0 <= i < n && Takes(sights[0], cmds[i]) ==>
               !(sights[0].names[cmds[i].id] <= sights[0].names[id])
    ensures id in sights[n].names && sights[n].names[id] == sights[0].names[id]
    decreases n
  {
    if n > 0 {
      StartFolders(cmds, sights, id, n - 1);
      assert Follows(sights, cmds, n - 1);
      if cmds[n - 1].DeleteFolder? { StartFolders(cmds, sights, cmds[n - 1].id, n - 1); }
    }
  }

  /** A path that every command spares, judged by the rowids of the start, keeps its record. */
  lemma {:induction false} StartFrame(cmds: seq<Cmd>, sights: seq<Sight>, path: string)
    requires Trace(cmds, sights) && Independent(cmds, sights[0].names)
    requires forall i :: 0 <= i < |cmds| ==> Spares(sights[0], cmds[i], path)
    ensures Lookup(sights[|cmds|].view, path) == Lookup(sights[0].view, path)
  {
    forall i | 0 <= i < |cmds| ensures Spares(sights[i], cmds[i], path) {
      if cmds[i].DeleteFolder? { StartFolders(cmds, sights, cmds[i].id, i); }
    }
    RunFrame(cmds, sights, path, |cmds|);
  }

  /** Commands after which a clean catalog is clean: bad extents are recorded for special or canonical
      paths only, files are deleted by special or canonical paths, and folders stay. */
  predicate KeepsClean(cmd: Cmd) {
    match cmd
    case RecordRewrite(path, _, errors, _) => errors == [] || Special(path) || Canonical(path)
    case DeleteFile(path) => Special(path) || Canonical(path)
    case DeleteFolder(_) => false
    case _ => true
  }

  /** Commands that record bad extents of the root folder itself, which must be there then. */
  predicate NeedsRoot(cmd: Cmd) {
    cmd.RecordRewrite? && cmd.errors != [] && !Special(cmd.path) && Comps(cmd.path) == []
  }

  lemma {:induction false} StepClean(s: Sight, cmd: Cmd)
    requires WellFormed(s.view) && Clean(s.view) && KeepsClean(cmd) && (NeedsRoot(cmd) ==> [] in s.view.dirs)
    ensures Clean(Effect(s, cmd)) && s.view.dirs <= Effect(s, cmd).dirs
  {
    var v := s.view;
    match cmd
    case Upsert(path, facts) => UpsertClean(v, path, facts);
    case SetSha1(path, sha1) => OpenedUpsertClean(v, path, Base(v, path).(sha1 := Some(sha1)));
    case BumpMassage(path, size, now) => OpenedUpsertClean(v, path, Massaged(Base(v, path), size, now));
    case BumpVerify(path, status, found, now) =>
      OpenedUpsertClean(v, path, Verified(Base(v, path), status, found, now));
    case Get(path) => UpsertClean(v, path, NO_FACTS);
    case RecordRewrite(path, length, errors, now) => RewriteClean(v, path, length, Engine.SpansOf(errors), now);
    case DeleteFile(path) => DeleteClean(v, path);
    case EnsureFolder(_, _) => MoreDirsClean(v, Effect(s, cmd));
    case DeleteFolder(_) =>
  }

  lemma {:induction false} OpenedUpsertClean(v: Contents, path: string, f: Facts)
    requires Clean(v)
    ensures Clean(Upserted(Opened(v, path), path, f))
  {
    UpsertClean(v, path, f);
    UpsertClean(Opened(v, path), path, f);
  }

  lemma {:induction false} MoreDirsClean(v: Contents, w: Contents)
    requires Clean(v) && w == v.(dirs := w.dirs) && v.dirs <= w.dirs
    ensures Clean(w)
  {
    forall e | e in w.extents ensures Known(w, e.path) { assert Known(v, e.path); }
  }

  /** A clean catalog stays clean over any run of such commands; a root is needed only by commands that
      record bad extents of the root itself. */
  lemma {:induction false} RunClean(cmds: seq<Cmd>, sights: seq<Sight>, n: nat)
    requires Trace(cmds, sights) && n <= |cmds| && Clean(sights[0].view)
    requires forall i :: 0 <= i < |cmds| ==> KeepsClean(cmds[i]) && (NeedsRoot(cmds[i]) ==> [] in sights[0].view.dirs)
    ensures Clean(sights[n].view) && sights[0].view.dirs <= sights[n].view.dirs
  {
    if n > 0 {
      RunClean(cmds, sights, n - 1);
      assert Follows(sights, cmds, n - 1);
      StepClean(sights[n - 1], cmds[n - 1]);
    }
  }

  /** The cross-reference check never finds an issue in a clean catalog after any run of such commands:
      the run is in `sights`, clean at every step, and the count over its last tables is zero. */
  method NoIssueAfter(store: Store, cmds: seq<Cmd>) returns (issues: nat, ghost sights: seq<Sight>)
    requires store.Valid() && Clean(store.View())
    requires forall i :: 0 <= i < |cmds| ==> KeepsClean(cmds[i]) && (NeedsRoot(cmds[i]) ==> [] in store.View().dirs)
    modifies store
    ensures store.Valid() && Trace(cmds, sights)
    ensures sights[0] == old(SightOf(store)) && sights[|cmds|] == SightOf(store)
    ensures forall i :: 0 <= i < |sights| ==> Clean(sights[i].view)
    ensures issues == Broken(store) == 0
  {
    sights := Drive(store, cmds);
    forall i | 0 <= i < |sights| ensures Clean(sights[i].view) { RunClean(cmds, sights, i); }
    CleanMeansNoIssues(store.folders, store.files, store.objects, store.extents);
    issues := store.CountIssues();
  }

  /** The broken links in the tables of a store. */
  ghost function Broken(store: Store): nat
    reads store
  {
    |LostFolders(store.folders)| + |LostFiles(store.folders, store.files)| +
    |LostRows(store.folders, store.files, store.objects, store.extents)|
  }

  /** An empty database, or one with just a root. */
  function StartSight(withRoot: bool): Sight {
    if withRoot then Sight(Contents(map[], {[]}, map[], []), map[1 := []])
    else Sight(Contents(map[], {}, map[], []), map[])
  }

  method Begin(withRoot: bool) returns (store: Store)
    ensures fresh(store) && store.Valid() && SightOf(store) == StartSight(withRoot)
  {
    store := new Store();
    if withRoot {
      store.EnsureVolume();
    }
    NamesAreDirs(store.folders);
  }

  /** So it is from an empty database on, or from one with just a root. */
  method NeverAnIssue(cmds: seq<Cmd>, withRoot: bool) returns (store: Store, issues: nat, ghost sights: seq<Sight>)
    requires forall i :: 0 <= i < |cmds| ==> KeepsClean(cmds[i]) && (NeedsRoot(cmds[i]) ==> withRoot)
    ensures store.Valid() && Trace(cmds, sights)
    ensures sights[0] == StartSight(withRoot) && sights[|cmds|] == SightOf(store)
    ensures forall i :: 0 <= i < |sights| ==> Clean(sights[i].view)
    ensures issues == Broken(store) == 0
  {
    store := Begin(withRoot);
    issues, sights := NoIssueAfter(store, cmds);
  }
}
