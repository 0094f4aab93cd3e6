/** The catalog database: folder, file, object and extent tables, updated in place
    (src/db/store.cpp). Statements succeed; the clock is a parameter. */
module Stores {
  import opened Extents
  import opened Options
  import opened Paths
  import opened FolderTree
  import opened Catalog
  import opened TreeQuery

  datatype Record = Record(path: string, facts: Facts)

  /** The abstract contents of the four tables. */
  ghost function ContentsOf(fs: Folders, files: map<FileKey, Facts>, objects: map<string, Facts>,
                            extents: seq<ExtentRow>): Contents
    requires TreeOk(fs) && FilesOk(fs, files)
  {
    Contents(Flat(fs, files), Dirs(fs), objects, extents)
  }

  lemma {:induction false} ContentsWellFormed(fs: Folders, files: map<FileKey, Facts>, objects: map<string, Facts>,
                                              extents: seq<ExtentRow>)
    requires TreeOk(fs) && FilesOk(fs, files) && forall t :: t in objects ==> Special(t)
    ensures WellFormed(ContentsOf(fs, files, objects, extents))
  {
    var c := ContentsOf(fs, files, objects, extents);
    forall p | p in c.dirs ensures AllGood(p) && (p != [] ==> DropLast(p) in c.dirs) {
      var id := DirId(fs, p);
      assert RowOk(fs, id);
      if p != [] {
        assert DropLast(p) == CompsOf(fs, fs[id].parent);
        InDirs(fs, fs[id].parent);
      }
    }
    forall p | p in c.files ensures p != [] && AllGood(p) && DropLast(p) in c.dirs {
      var k := KeyAt(fs, files, p);
      assert DropLast(p) == CompsOf(fs, k.0);
      InDirs(fs, k.0);
    }
  }

  /** The folder table after a row was looked for and, if missing, inserted. */
  ghost predicate EdgeEnsured(fs: Folders, gs: Folders, row: Folder, id: nat) {
    if exists k :: k in fs && fs[k] == row then gs == fs && id in fs && fs[id] == row
    else IsNextRowid(fs, id) && gs == fs[id := row]
  }

  /** `gs` is `fs` with the folders `more`, and no old row moved. */
  ghost predicate Grew(fs: Folders, gs: Folders, more: set<seq<string>>) {
    TreeOk(fs) && TreeOk(gs) && SubTable(fs, gs) && Dirs(gs) == Dirs(fs) + more
  }

  /** More folders change nothing but the set of folders. */
  lemma {:induction false} Grown(fs: Folders, gs: Folders, files: map<FileKey, Facts>, objects: map<string, Facts>,
                                 extents: seq<ExtentRow>, more: set<seq<string>>)
    requires Grew(fs, gs, more) && FilesOk(fs, files)
    ensures FilesOk(gs, files)
    ensures ContentsOf(gs, files, objects, extents) == WithDirs(ContentsOf(fs, files, objects, extents), more)
  {
    FlatStable(fs, gs, files);
  }

  lemma {:induction false} RootEnsured(fs: Folders, gs: Folders, id: nat)
    requires TreeOk(fs) && EdgeEnsured(fs, gs, Folder(0, ""), id)
    ensures Grew(fs, gs, {[]}) && id in gs && CompsOf(gs, id) == []
  {
    if exists k :: k in fs && fs[k] == Folder(0, "") {
      assert CompsOf(fs, id) == [];
      InDirs(fs, id);
    } else {
      InsertKeepsTree(fs, id, Folder(0, ""));
      InsertAddsDir(fs, id, Folder(0, ""));
    }
  }

  lemma {:induction false} ChildEnsured(fs: Folders, gs: Folders, parent: nat, name: string, id: nat)
    requires TreeOk(fs) && parent in fs && GoodName(name) && EdgeEnsured(fs, gs, Folder(parent, name), id)
    ensures Grew(fs, gs, {CompsOf(fs, parent) + [name]}) && id in gs && CompsOf(gs, id) == CompsOf(fs, parent) + [name]
  {
    assert RowOk(fs, parent);
    if exists k :: k in fs && fs[k] == Folder(parent, name) {
      EdgeComps(fs, parent, name, id);
      InDirs(fs, id);
    } else {
      InsertKeepsTree(fs, id, Folder(parent, name));
      InsertAddsDir(fs, id, Folder(parent, name));
    }
  }

  lemma {:induction false} SubTrans(a: Folders, b: Folders, c: Folders)
    requires SubTable(a, b) && SubTable(b, c)
    ensures SubTable(a, c)
  {
    forall id | id in a ensures id in c && c[id] == a[id] { assert b[id] == a[id]; }
  }

  /** A catalog that has a folder has the root. */
  lemma {:induction false} HasRoot(fs: Folders)
    requires TreeOk(fs) && fs != map[]
    ensures [] in Dirs(fs)
  {
    var id :| id in fs;
    var root := Rooted(fs, id);
    InDirs(fs, root);
  }

  /** All the folders on the way to a folder are there. */
  lemma {:induction false} Ancestor(fs: Folders, id: nat, n: nat) returns (up: nat)
    requires TreeOk(fs) && id in fs && n <= |CompsOf(fs, id)|
    ensures up in fs && CompsOf(fs, up) == CompsOf(fs, id)[..n]
    decreases id
  {
    assert RowOk(fs, id);
    if n == |CompsOf(fs, id)| {
      up := id;
    } else {
      up := Ancestor(fs, fs[id].parent, n);
    }
  }

  /** The walk down from the root has made or found the first n folders of a path. */
  ghost predicate Descended(was: Folders, fs: Folders, dirs: seq<string>, n: nat, at: nat) {
    n <= |dirs| && Grew(was, fs, Prefixes(dirs[..n])) && at in fs && CompsOf(fs, at) == dirs[..n]
  }

  lemma {:induction false} TakeNext(dirs: seq<string>, n: nat)
    requires n < |dirs|
    ensures dirs[..n + 1] == dirs[..n] + [dirs[n]]
    ensures Prefixes(dirs[..n + 1]) == Prefixes(dirs[..n]) + {dirs[..n + 1]}
  {
    assert DropLast(dirs[..n + 1]) == dirs[..n];
  }

  lemma {:induction false} DescendStart(fs: Folders, dirs: seq<string>, root: nat)
    requires TreeOk(fs) && root in fs && CompsOf(fs, root) == []
    ensures Descended(fs, fs, dirs, 0, root)
  {
    InDirs(fs, root);
  }

  lemma {:induction false} DescendStep(was: Folders, fs: Folders, gs: Folders, dirs: seq<string>, n: nat, at: nat,
                                       next: nat)
    requires Descended(was, fs, dirs, n, at) && n < |dirs| && GoodName(dirs[n])
    requires EdgeEnsured(fs, gs, Folder(at, dirs[n]), next)
    ensures Descended(was, gs, dirs, n + 1, next)
  {
    ChildEnsured(fs, gs, at, dirs[n], next);
    SubTrans(was, fs, gs);
    TakeNext(dirs, n);
  }

  lemma {:induction false} DescendEnd(was: Folders, fs: Folders, dirs: seq<string>, at: nat)
    requires Descended(was, fs, dirs, |dirs|, at)
    ensures Grew(was, fs, Prefixes(dirs)) && at in fs && CompsOf(fs, at) == dirs
  {
    assert dirs[..|dirs|] == dirs;
  }

  /** Where an edge is missing on the way down, no folder has the path. */
  lemma {:induction false} NoWayDown(fs: Folders, dirs: seq<string>, n: nat, at: nat)
    requires TreeOk(fs) && n < |dirs| && at in fs && CompsOf(fs, at) == dirs[..n] && GoodName(dirs[n])
    requires forall k :: k in fs ==> fs[k] != Folder(at, dirs[n])
    ensures dirs !in Dirs(fs)
  {
    if dirs in Dirs(fs) {
      var id := DirId(fs, dirs);
      TakeNext(dirs, n);
      var up := Ancestor(fs, id, n + 1);
      EdgeComps(fs, at, dirs[n], up);
    }
  }

  lemma {:induction false} SplitGood(path: string, dirs: seq<string>, base: string)
    requires Comps(path) == dirs + [base]
    ensures AllGood(dirs) && GoodName(base) && DropLast(Comps(path)) == dirs
  {
    CompsGood(path);
    var c := dirs + [base];
    assert c[|dirs|] == base && forall i :: 0 <= i < |dirs| ==> c[i] == dirs[i];
  }

  /** Writing a file row writes the flat map. */
  lemma {:induction false} PutRow(fs: Folders, files: map<FileKey, Facts>, objects: map<string, Facts>,
                                  extents: seq<ExtentRow>, k: FileKey, f: Facts)
    requires TreeOk(fs) && FilesOk(fs, files) && k.0 in fs && GoodName(k.1)
    ensures FilesOk(fs, files[k := f])
    ensures var c := ContentsOf(fs, files, objects, extents);
            ContentsOf(fs, files[k := f], objects, extents) == c.(files := c.files[PathOf(fs, k) := f])
  {
    FlatPut(fs, files, k, f);
  }

  lemma {:induction false} RootPositive(fs: Folders, root: nat)
    requires TreeOk(fs) && root in fs
    ensures root > 0
  {
    assert RowOk(fs, root);
  }

  lemma {:induction false} NotRoot(fs: Folders, root: nat, id: nat)
    requires TreeOk(fs) && root in fs && id in fs && CompsOf(fs, root) == [] && id != root
    ensures fs[id].parent != 0
  {
    if fs[id].parent == 0 { CompsInjective(fs, root, id); }
  }

  /** When a looked-up or inserted row leaves a tree. */
  lemma {:induction false} EdgeOk(fs: Folders, gs: Folders, p: nat, name: string, id: nat)
    requires TreeOk(fs) && p > 0 && EdgeEnsured(fs, gs, Folder(p, name), id)
    ensures TreeOk(gs) <==> (exists k :: k in fs && fs[k] == Folder(p, name)) || (p in fs && GoodName(name))
    ensures TreeOk(gs) ==> SubTable(fs, gs)
  {
    if p in fs && GoodName(name) {
      ChildEnsured(fs, gs, p, name, id);
    } else if forall k :: k in fs ==> fs[k] != Folder(p, name) {
      assert gs[id] == Folder(p, name);
      assert !RowOk(gs, id);
    }
  }

  lemma {:induction false} FolderMade(fs: Folders, gs: Folders, files: map<FileKey, Facts>, objects: map<string, Facts>,
                                      extents: seq<ExtentRow>, p: nat, name: string, id: nat, was: Contents)
    requires TreeOk(fs) && FilesOk(fs, files) && p in fs && GoodName(name) && EdgeEnsured(fs, gs, Folder(p, name), id)
    requires ContentsOf(fs, files, objects, extents) == WithDirs(was, {[]})
    ensures TreeOk(gs) && FilesOk(gs, files)
    ensures ContentsOf(gs, files, objects, extents) == WithDirs(was, {[], CompsOf(fs, p) + [name]})
  {
    var c := CompsOf(fs, p) + [name];
    ChildEnsured(fs, gs, p, name, id);
    Grown(fs, gs, files, objects, extents, {c});
    WithDirsBoth(was, {[]}, {c});
  }

  /** A folder other than the root. */
  ghost predicate IsChild(fs: Folders, id: int) {
    id > 0 && id in fs && fs[id].parent != 0
  }

  /** What deleting a subtree from the tables means. */
  lemma {:induction false} SubtreeDeleted(fs: Folders, files: map<FileKey, Facts>, objects: map<string, Facts>,
                                          extents: seq<ExtentRow>, id: nat)
    requires TreeOk(fs) && FilesOk(fs, files)
    ensures var gs := Without(fs, {id});
            && TreeOk(gs) && FilesOk(gs, KeepFiles(files, gs))
            && ContentsOf(gs, KeepFiles(files, gs), objects, extents) ==
               if id in fs then FolderDeleted(ContentsOf(fs, files, objects, extents), CompsOf(fs, id))
               else ContentsOf(fs, files, objects, extents)
    ensures id !in fs ==> Without(fs, {id}) == fs
  {
    WithoutKeepsTree(fs, {id});
    if id in fs {
      FlatWithout(fs, files, id);
      DirsWithout(fs, id);
    } else {
      forall k | k in fs ensures !Under(fs, id, k) {
        if Under(fs, id, k) { UnderUp(fs, id, k); }
      }
      assert Without(fs, {id}) == fs;
      assert KeepFiles(files, fs) == files;
    }
  }

  lemma {:induction false} RootStays(fs: Folders, root: nat, id: nat)
    requires TreeOk(fs) && root in fs && CompsOf(fs, root) == [] && id != root
    ensures TreeOk(Without(fs, {id})) && root in Without(fs, {id})
  {
    WithoutKeepsTree(fs, {id});
    assert !Under(fs, id, root);
  }

  /** The tables after the subtrees of `tops` were deleted. */
  ghost predicate Trimmed(was: Folders, wasFiles: map<FileKey, Facts>, tops: set<nat>, fs: Folders,
                          files: map<FileKey, Facts>)
    requires TreeOk(was)
  {
    fs == Without(was, tops) && files == KeepFiles(wasFiles, fs)
  }

  lemma {:induction false} TrimNone(fs: Folders, files: map<FileKey, Facts>)
    requires TreeOk(fs) && FilesOk(fs, files)
    ensures Trimmed(fs, files, {}, fs, files)
  {
  }

  lemma {:induction false} TrimMore(was: Folders, wasFiles: map<FileKey, Facts>, done: set<nat>, c: nat,
                                    fs: Folders, files: map<FileKey, Facts>, gs: Folders, kept: map<FileKey, Facts>)
    requires TreeOk(was) && TreeOk(fs) && Trimmed(was, wasFiles, done, fs, files)
    requires gs == Without(fs, {c}) && kept == KeepFiles(files, gs)
    ensures Trimmed(was, wasFiles, done + {c}, gs, kept)
  {
    WithoutMore(was, done, c);
  }

  lemma {:induction false} MoveOne<T>(left: set<T>, done: set<T>, c: T)
    requires c in left && left !! done
    ensures (done + {c}) + (left - {c}) == done + left && (done + {c}) !! (left - {c})
  {
  }

  lemma {:induction false} KeepLess(files: map<FileKey, Facts>, fs: Folders, id: nat)
    ensures (map k | k in KeepFiles(files, fs) && k.0 != id :: KeepFiles(files, fs)[k]) == KeepFiles(files, fs - {id})
  {
  }

  lemma {:induction false} TrimLast(was: Folders, wasFiles: map<FileKey, Facts>, id: nat, root: nat,
                                    gs: Folders, kept: map<FileKey, Facts>)
    requires TreeOk(was) && FilesOk(was, wasFiles) && id != 0
    requires root in was && CompsOf(was, root) == [] && id != root
    requires gs == Without(was, Children(was, id)) - {id}
    requires kept == KeepFiles(wasFiles, gs)
    ensures gs == Without(was, {id}) && TreeOk(gs) && FilesOk(gs, kept) && root in gs
  {
    WithoutChildren(was, id);
    RootStays(was, root, id);
  }

  /** A child that is still to be deleted is in the table, and its own subtree is smaller. */
  lemma {:induction false} ChildBelow(fs: Folders, id: nat, done: set<nat>, c: nat)
    requires TreeOk(fs) && id != 0 && done <= Children(fs, id) && c in Children(fs, id) && c !in done
    ensures IsChild(Without(fs, done), c)
    ensures Above(Without(fs, done), c) < Above(fs, id)
  {
    SiblingStays(fs, id, done, c);
    assert RowOk(fs, c);
    assert c in Above(fs, id);
  }

  /** The rows with a larger rowid, among which a folder's subtree lies. */
  ghost function Above(fs: Folders, id: int): set<nat> {
    set k | k in fs && k > id
  }

  // ---- Listing ----

  /** The list holds every record of the map exactly once. */
  ghost predicate Lists(out: seq<Record>, m: map<string, Facts>) {
    && |out| == |m|
    && (forall r :: r in out ==> r.path in m && m[r.path] == r.facts)
    && (forall q :: q in m ==> Record(q, m[q]) in out)
  }

  lemma {:induction false} ListMore(out: seq<Record>, m: map<string, Facts>, q: string, f: Facts)
    requires Lists(out, m) && q !in m
    ensures Lists(out + [Record(q, f)], m[q := f])
  {
    var more, n := out + [Record(q, f)], m[q := f];
    assert more[|out|] == Record(q, f);
    forall p | p in n ensures Record(p, n[p]) in more {
      if p != q { assert Record(p, m[p]) in out; }
    }
  }

  /** The objects, and the files with these keys, by the path they are listed under. */
  ghost predicate Collected(fs: Folders, files: map<FileKey, Facts>, objects: map<string, Facts>, done: set<FileKey>,
                            m: map<string, Facts>)
    requires TreeOk(fs) && FilesOk(fs, files) && done <= files.Keys
  {
    && (forall t :: t in objects ==> t in m && m[t] == objects[t])
    && (forall k {:trigger PathOf(fs, k)} :: k in done ==>
          Rebuild(PathOf(fs, k)) in m && m[Rebuild(PathOf(fs, k))] == files[k])
    && (forall q :: q in m ==> q in objects || exists k :: k in done && Rebuild(PathOf(fs, k)) == q)
  }

  lemma {:induction false} PathGood(fs: Folders, files: map<FileKey, Facts>, k: FileKey)
    requires TreeOk(fs) && FilesOk(fs, files) && k in files
    ensures AllGood(PathOf(fs, k)) && Comps(Rebuild(PathOf(fs, k))) == PathOf(fs, k)
    ensures !Special(Rebuild(PathOf(fs, k)))
  {
    CompsRebuild(PathOf(fs, k));
    RebuildPlain(PathOf(fs, k));
  }

  lemma {:induction false} CollectOne(fs: Folders, files: map<FileKey, Facts>, objects: map<string, Facts>,
                                      done: set<FileKey>, m: map<string, Facts>, k: FileKey)
    requires TreeOk(fs) && FilesOk(fs, files) && done <= files.Keys && k in files && k !in done
    requires forall t :: t in objects ==> Special(t)
    requires Collected(fs, files, objects, done, m)
    ensures Rebuild(PathOf(fs, k)) !in m
    ensures Collected(fs, files, objects, done + {k}, m[Rebuild(PathOf(fs, k)) := files[k]])
  {
    var q := Rebuild(PathOf(fs, k));
    PathGood(fs, files, k);
    if q in m {
      var j :| j in done && Rebuild(PathOf(fs, j)) == q;
      PathGood(fs, files, j);
      PathInjective(fs, j, k);
    }
    forall j | j in done ensures Rebuild(PathOf(fs, j)) != q { }
  }

  lemma {:induction false} RowPath(fs: Folders, row: TreeRow, k: FileKey)
    requires TreeOk(fs) && k.0 in fs && InTree(fs, row) && row.id == k.0
    ensures FilePath(row.rel, k.1) == Rebuild(PathOf(fs, k))
  {
    TreeRelPath(fs, row);
    PrintedPaths(CompsOf(fs, k.0), k.1);
  }

  lemma {:induction false} CollectedAll(fs: Folders, files: map<FileKey, Facts>, objects: map<string, Facts>,
                                        extents: seq<ExtentRow>, m: map<string, Facts>)
    requires TreeOk(fs) && FilesOk(fs, files) && forall t :: t in objects ==> Special(t)
    requires Collected(fs, files, objects, files.Keys, m)
    ensures WellFormed(ContentsOf(fs, files, objects, extents))
    ensures m == Listing(ContentsOf(fs, files, objects, extents))
  {
    var c := ContentsOf(fs, files, objects, extents);
    ContentsWellFormed(fs, files, objects, extents);
    var l := Listing(c);
    forall q ensures q in m <==> q in ListedPaths(c) { CollectedAt(fs, files, objects, extents, m, q); }
    forall q | q in m ensures m[q] == l[q] { CollectedAt(fs, files, objects, extents, m, q); }
  }

  lemma {:induction false} CollectedAt(fs: Folders, files: map<FileKey, Facts>, objects: map<string, Facts>,
                                       extents: seq<ExtentRow>, m: map<string, Facts>, q: string)
    requires TreeOk(fs) && FilesOk(fs, files) && forall t :: t in objects ==> Special(t)
    requires Collected(fs, files, objects, files.Keys, m)
    ensures q in m <==> q in ListedPaths(ContentsOf(fs, files, objects, extents))
    ensures q in m ==> Lookup(ContentsOf(fs, files, objects, extents), q) == Some(m[q])
  {
    var c := ContentsOf(fs, files, objects, extents);
    if q in m && q !in objects {
      var k :| k in files.Keys && Rebuild(PathOf(fs, k)) == q;
      PathGood(fs, files, k);
      FlatAt(fs, files, k);
      assert PathOf(fs, k) in c.files;
    }
    if q in ListedPaths(c) && q !in objects {
      var p :| p in c.files && Rebuild(p) == q;
      assert PathOf(fs, KeyAt(fs, files, p)) == p && KeyAt(fs, files, p) in files.Keys;
    }
  }

  class Store {
    var hasVolume: bool
    var folders: Folders
    var files: map<FileKey, Facts>
    var objects: map<string, Facts>
    var extents: seq<ExtentRow>

    /** The tables of a new database. */
    constructor ()
      ensures Valid() && View() == Contents(map[], {}, map[], [])
    {
      hasVolume, folders, files, objects, extents := false, map[], map[], map[], [];
      new;
      assert FilePaths(folders, files) == {};
    }

    ghost predicate Valid()
      reads this
    {
      && TreeOk(folders) && FilesOk(folders, files)
      && (forall t :: t in objects ==> Special(t))
      && (hasVolume <==> folders != map[])
    }

    ghost function View(): Contents
      reads this
      requires Valid()
    {
      ContentsOf(folders, files, objects, extents)
    }

    // ---- Folders ----

    /** Finds the row with this edge, or inserts it. Parent and name are not checked. */
    method EnsureEdge(parent: nat, name: string) returns (id: nat)
      modifies this`folders
      ensures EdgeEnsured(old(folders), folders, Folder(parent, name), id)
    {
      if k :| k in folders && folders[k] == Folder(parent, name) {
        return k;
      }
      id := NewRowid(folders);
      folders := folders[id := Folder(parent, name)];
    }

    method EnsureVolume()
      requires Valid()
      modifies this`folders, this`hasVolume
      ensures Valid() && folders != map[] && View() == WithDirs(old(View()), {[]})
      ensures Grew(old(folders), folders, {[]})
      ensures if old(folders) == map[] then folders.Keys == {1} else folders == old(folders)
    {
      if hasVolume {
        HasRoot(folders);
        Grown(folders, folders, files, objects, extents, {[]});
        return;
      }
      hasVolume := true;
      var id := EnsureEdge(0, "");
      RootEnsured(old(folders), folders, id);
      Grown(old(folders), folders, files, objects, extents, {[]});
    }

    /** The root folder of an open volume. */
    method EnsureRoot() returns (id: nat)
      requires Valid() && folders != map[]
      modifies this`folders
      ensures folders == old(folders) && id in folders && CompsOf(folders, id) == []
    {
      ghost var any :| any in folders;
      ghost var root := Rooted(folders, any);
      id := EnsureEdge(0, "");
      RootEnsured(old(folders), folders, id);
    }

    method OpenRoot() returns (root: nat)
      requires Valid()
      modifies this`folders, this`hasVolume
      ensures Valid() && root in folders && CompsOf(folders, root) == []
      ensures View() == WithDirs(old(View()), {[]})
      ensures SubTable(old(folders), folders)
    {
      EnsureVolume();
      root := EnsureRoot();
    }

    /** Walks down from the root, inserting the folders that are missing. */
    method Descend(root: nat, dirs: seq<string>) returns (parent: nat)
      requires TreeOk(folders) && root in folders && CompsOf(folders, root) == [] && AllGood(dirs)
      modifies this`folders
      ensures Grew(old(folders), folders, Prefixes(dirs)) && parent in folders && CompsOf(folders, parent) == dirs
    {
      parent := root;
      DescendStart(folders, dirs, parent);
      for i := 0 to |dirs|
        invariant Descended(old(folders), folders, dirs, i, parent)
      {
        ghost var before := folders;
        var next := EnsureEdge(parent, dirs[i]);
        DescendStep(old(folders), before, folders, dirs, i, parent, next);
        parent := next;
      }
      DescendEnd(old(folders), folders, dirs, parent);
    }

    /** The folder with this path, made if it is missing. */
    method EnsureFolders(dirs: seq<string>) returns (parent: nat)
      requires Valid() && AllGood(dirs)
      modifies this`folders, this`hasVolume
      ensures Valid() && parent in folders && CompsOf(folders, parent) == dirs
      ensures View() == WithDirs(old(View()), Prefixes(dirs))
      ensures SubTable(old(folders), folders)
    {
      var root := OpenRoot();
      ghost var was := folders;
      parent := Descend(root, dirs);
      Grown(was, folders, files, objects, extents, Prefixes(dirs));
      WithRootAndPrefixes(old(View()), dirs);
    }

    /** Walks down from the root as far as the folders are there. */
    method Follow(root: nat, dirs: seq<string>) returns (parent: Option<nat>)
      requires TreeOk(folders) && root in folders && CompsOf(folders, root) == [] && AllGood(dirs)
      ensures parent.Some? ==> parent.value in folders && CompsOf(folders, parent.value) == dirs
      ensures parent.None? ==> dirs !in Dirs(folders)
    {
      var at := root;
      for i := 0 to |dirs|
        invariant at in folders && CompsOf(folders, at) == dirs[..i]
      {
        TakeNext(dirs, i);
        if k :| k in folders && folders[k] == Folder(at, dirs[i]) {
          EdgeComps(folders, at, dirs[i], k);
          at := k;
        } else {
          NoWayDown(folders, dirs, i, at);
          return None;
        }
      }
      assert dirs[..|dirs|] == dirs;
      return Some(at);
    }

    /** The folder with this path, if it is there. */
    method FindFolder(dirs: seq<string>) returns (parent: Option<nat>)
      requires Valid() && AllGood(dirs)
      modifies this`folders, this`hasVolume
      ensures Valid() && View() == WithDirs(old(View()), {[]})
      ensures parent.Some? ==> parent.value in folders && CompsOf(folders, parent.value) == dirs
      ensures parent.None? ==> dirs !in Dirs(folders)
      ensures SubTable(old(folders), folders)
    {
      var root := OpenRoot();
      parent := Follow(root, dirs);
    }

    // ---- Records ----

    method UpsertSpecial(o: Record)
      requires Valid() && Special(o.path)
      modifies this`folders, this`hasVolume, this`objects
      ensures Valid() && View() == Upserted(old(View()), o.path, o.facts)
      ensures SubTable(old(folders), folders)
    {
      EnsureVolume();
      objects := objects[o.path := Replacing(At(objects, o.path), o.facts)];
    }

    method UpsertFile(o: Record) returns (ok: bool)
      requires Valid() && !Special(o.path)
      modifies this`folders, this`hasVolume, this`files
      ensures Valid() && ok == (Comps(o.path) != []) && View() == Upserted(old(View()), o.path, o.facts)
      ensures SubTable(old(folders), folders)
    {
      var dirs, base := SplitFilePath(o.path);
      if base == "" {
        return false;
      }
      SplitGood(o.path, dirs, base);
      var parent := EnsureFolders(dirs);
      ghost var was := files;
      var k := (parent, base);
      files := files[k := Replacing(At(files, k), o.facts)];
      PutRow(folders, was, objects, extents, k, files[k]);
      FlatAt(folders, was, k);
      ok := true;
    }

    /** Stores a record under its path; a path without components is refused. */
    method UpsertObject(o: Record) returns (ok: bool)
      requires Valid()
      modifies this`folders, this`hasVolume, this`files, this`objects
      ensures Valid() && ok == Nameable(o.path) && View() == Upserted(old(View()), o.path, o.facts)
      ensures SubTable(old(folders), folders)
    {
      if Special(o.path) {
        UpsertSpecial(o);
        return true;
      }
      ok := UpsertFile(o);
    }

    method GetFile(path: string) returns (f: Option<Facts>)
      requires Valid() && !Special(path)
      modifies this`folders, this`hasVolume
      ensures Valid() && f == Lookup(old(View()), path) && View() == Opened(old(View()), path)
      ensures f.Some? ==> DropLast(Comps(path)) in Dirs(folders)
      ensures SubTable(old(folders), folders)
    {
      var dirs, base := SplitFilePath(path);
      ContentsWellFormed(folders, files, objects, extents);
      if base == "" {
        return None;
      }
      SplitGood(path, dirs, base);
      var parent := FindFolder(dirs);
      if parent.None? {
        return None;
      }
      FlatAt(folders, files, (parent.value, base));
      InDirs(folders, parent.value);
      f := At(files, (parent.value, base));
    }

    /** The record of a path. */
    method GetObject(path: string) returns (f: Option<Facts>)
      requires Valid()
      modifies this`folders, this`hasVolume
      ensures Valid() && f == Lookup(old(View()), path) && View() == Opened(old(View()), path)
      ensures SubTable(old(folders), folders)
    {
      if Special(path) {
        EnsureVolume();
        return At(objects, path);
      }
      f := GetFile(path);
    }

    method BumpMassage(path: string, size: int, now: int) returns (ok: bool)
      requires Valid()
      modifies this`folders, this`hasVolume, this`files, this`objects
      ensures Valid() && ok == Nameable(path)
      ensures View() == Upserted(Opened(old(View()), path), path, Massaged(Base(old(View()), path), size, now))
      ensures SubTable(old(folders), folders)
    {
      var o := GetObject(path);
      var f := if o.Some? then o.value else NO_FACTS;
      ok := UpsertObject(Record(path, f.(size := size, lastMassage := now, massageCount := f.massageCount + 1)));
    }

    method SetSha1(path: string, sha1: seq<byte>) returns (ok: bool)
      requires Valid()
      modifies this`folders, this`hasVolume, this`files, this`objects
      ensures Valid() && ok == Nameable(path)
      ensures View() == Upserted(Opened(old(View()), path), path, Base(old(View()), path).(sha1 := Some(sha1)))
      ensures SubTable(old(folders), folders)
    {
      var o := GetObject(path);
      var f := if o.Some? then o.value else NO_FACTS;
      ok := UpsertObject(Record(path, f.(sha1 := Some(sha1))));
    }

    method BumpVerify(path: string, status: int, sha1: Option<seq<byte>>, now: int) returns (ok: bool)
      requires Valid()
      modifies this`folders, this`hasVolume, this`files, this`objects
      ensures Valid() && ok == Nameable(path)
      ensures View() == Upserted(Opened(old(View()), path), path, Verified(Base(old(View()), path), status, sha1, now))
      ensures SubTable(old(folders), folders)
    {
      var o := GetObject(path);
      var f := if o.Some? then o.value else NO_FACTS;
      if sha1.Some? {
        f := f.(sha1 := sha1);
      }
      ok := UpsertObject(Record(path, f.(verifyStatus := status, verifyCount := f.verifyCount + 1, verifiedAt := now)));
    }

    // ---- Bad extents ----

    /** Replaces the extent rows of a path. */
    method ReplaceExtents(path: string, spans: seq<Span>, now: int)
      modifies this`extents
      ensures extents == WithoutPath(old(extents), path) + RowsOf(path, spans, now)
    {
      extents := WithoutPath(extents, path);
      ghost var kept := extents;
      assert kept + RowsOf(path, [], now) == kept;
      for i := 0 to |spans|
        invariant extents == kept + RowsOf(path, spans[..i], now)
      {
        assert DropLast(spans[..i + 1]) == spans[..i] && Last(spans[..i + 1]) == spans[i];
        extents := extents + [ExtentRow(path, spans[i].offset, spans[i].length, spans[i].status, now)];
      }
      assert spans[..|spans|] == spans;
    }

    // ---- Deleting ----

    /** Deletes the record of a path with the extents stored under that path. */
    method DeleteFile(path: string)
      requires Valid()
      modifies this
      ensures Valid() && View() == FileDeleted(old(View()), path)
      ensures SubTable(old(folders), folders)
    {
      if Special(path) {
        EnsureVolume();
        objects := objects - {path};
        ReplaceExtents(path, [], 0);
        return;
      }
      var o := GetFile(path);
      if o.None? {
        return;
      }
      DropFile(path);
      ReplaceExtents(path, [], 0);
    }

    method DropFile(path: string)
      requires Valid() && Comps(path) != [] && DropLast(Comps(path)) in Dirs(folders)
      modifies this`folders, this`hasVolume, this`files
      ensures Valid() && View() == old(View()).(files := old(View()).files - {Comps(path)})
      ensures SubTable(old(folders), folders)
    {
      var dirs, base := SplitFilePath(path);
      SplitGood(path, dirs, base);
      ContentsWellFormed(folders, files, objects, extents);
      PrefixesThere(View(), dirs);
      var parent := EnsureFolders(dirs);
      FlatDrop(folders, files, (parent, base));
      files := files - {(parent, base)};
    }

    /** The folder with this name in a folder; no parent means the root. The tree is kept exactly when
        the row was there already or its parent exists and the name is proper. */
    method EnsureFolder(parent: int, name: string) returns (id: nat, ghost was: Folders, ghost p: nat)
      requires Valid()
      modifies this`folders, this`hasVolume
      ensures TreeOk(was) && Grew(old(folders), was, {[]})
      ensures p > 0 && if parent > 0 then p == parent else p in was && CompsOf(was, p) == []
      ensures EdgeEnsured(was, folders, Folder(p, name), id)
      ensures Valid() <==> (exists k :: k in was && was[k] == Folder(p, name)) || (p in was && GoodName(name))
      ensures p in was && GoodName(name) ==> View() == WithDirs(old(View()), {[], CompsOf(was, p) + [name]})
      ensures Valid() ==> SubTable(old(folders), folders)
    {
      EnsureVolume();
      var up := parent;
      if up <= 0 {
        up := EnsureRoot();
        RootPositive(folders, up);
      }
      was, p := folders, up;
      id := EnsureEdge(up, name);
      EdgeOk(was, folders, p, name, id);
      if p in was && GoodName(name) {
        FolderMade(was, folders, files, objects, extents, p, name, id, old(View()));
      }
    }

    /** Deletes a folder with all folders and files below it; the root stays. */
    method DeleteFolder(id: int)
      requires Valid()
      modifies this`folders, this`hasVolume, this`files
      ensures Valid()
      ensures id <= 0 ==> View() == old(View())
      ensures id > 0 && !IsChild(old(folders), id) ==> View() == WithDirs(old(View()), {[]})
      ensures !IsChild(old(folders), id) ==> SubTable(old(folders), folders)
      ensures IsChild(old(folders), id) ==>
                && View() == FolderDeleted(old(View()), CompsOf(old(folders), id))
                && folders == Without(old(folders), {id}) && files == KeepFiles(old(files), folders)
      ensures id > 0 ==> folders != map[]
      decreases Above(folders, id), 2
    {
      if id <= 0 {
        return;
      }
      EnsureVolume();
      var root := EnsureRoot();
      if id == root {
        return;
      }
      ghost var was, wasFiles, v := folders, files, View();
      if id in was { NotRoot(was, root, id); }
      DeleteBelow(id, root);
      SubtreeDeleted(was, wasFiles, objects, extents, id);
    }

    /** Deletes the subtrees of a folder's children. */
    method DeleteChildren(id: nat, ghost root: nat)
      requires Valid() && root in folders && CompsOf(folders, root) == [] && id > 0
      modifies this`folders, this`hasVolume, this`files
      ensures Valid() && root in folders
      ensures Trimmed(old(folders), old(files), Children(old(folders), id), folders, files)
      decreases Above(folders, id), 0
    {
      ghost var was, wasFiles := folders, files;
      var left := set c | c in folders && folders[c].parent == id;
      ghost var done: set<nat> := {};
      TrimNone(was, files);
      while left != {}
        invariant done + left == Children(was, id) && done !! left
        invariant Trimmed(was, wasFiles, done, folders, files)
        invariant Valid() && root in folders
        decreases |left|
      {
        var c :| c in left;
        ChildBelow(was, id, done, c);
        ghost var fs, kept := folders, files;
        RootStays(folders, root, c);
        DeleteFolder(c);
        TrimMore(was, wasFiles, done, c, fs, kept, folders, files);
        MoveOne(left, done, c);
        left, done := left - {c}, done + {c};
      }
      assert done == Children(was, id);
    }

    /** Deletes the subtrees of a folder's children, its files and its own row. */
    method DeleteBelow(id: nat, ghost root: nat)
      requires Valid() && root in folders && CompsOf(folders, root) == [] && id != root && id > 0
      modifies this`folders, this`hasVolume, this`files
      ensures Valid() && root in folders
      ensures folders == Without(old(folders), {id}) && files == KeepFiles(old(files), folders)
      decreases Above(folders, id), 1
    {
      ghost var was, wasFiles := folders, files;
      DeleteChildren(id, root);
      KeepLess(wasFiles, folders, id);
      files := map k | k in files && k.0 != id :: files[k];
      folders := folders - {id};
      TrimLast(was, wasFiles, id, root, folders, files);
    }

    // ---- Queries ----

    /** Every record exactly once: special objects under their type, files under the path rebuilt from
        their folders. */
    method ListObjects() returns (out: seq<Record>)
      requires Valid()
      modifies this`folders, this`hasVolume
      ensures Valid() && View() == WithDirs(old(View()), {[]}) && WellFormed(View())
      ensures Lists(out, Listing(View()))
      ensures SubTable(old(folders), folders)
    {
      EnsureVolume();
      ghost var m;
      out, m := ListSpecial();
      out, m := ListFiles(out, m);
      CollectedAll(folders, files, objects, extents, m);
    }

    /** The join of the file table with the folder query. */
    method ListFiles(specials: seq<Record>, ghost m0: map<string, Facts>)
      returns (out: seq<Record>, ghost m: map<string, Facts>)
      requires Valid() && Lists(specials, m0) && Collected(folders, files, objects, {}, m0)
      ensures Lists(out, m) && Collected(folders, files, objects, files.Keys, m)
    {
      out, m := specials, m0;
      var rows := TreeRows(folders);
      var left := files.Keys;
      ghost var done: set<FileKey> := {};
      while left != {}
        invariant done + left == files.Keys && done !! left
        invariant Collected(folders, files, objects, done, m) && Lists(out, m)
        decreases |left|
      {
        var k :| k in left;
        InTable(folders, k.0);
        var row :| row in rows && row.id == k.0;
        RowPath(folders, row, k);
        var q := FilePath(row.rel, k.1);
        CollectOne(folders, files, objects, done, m, k);
        ListMore(out, m, q, files[k]);
        MoveOne(left, done, k);
        out, m := out + [Record(q, files[k])], m[q := files[k]];
        left, done := left - {k}, done + {k};
      }
      assert done == files.Keys;
    }

    method ListSpecial() returns (out: seq<Record>, ghost m: map<string, Facts>)
      requires Valid()
      ensures Lists(out, m) && Collected(folders, files, objects, {}, m)
    {
      out, m := [], map[];
      var left := objects.Keys;
      while left != {}
        invariant left <= objects.Keys && m.Keys == objects.Keys - left
        invariant forall t :: t in m ==> m[t] == objects[t]
        invariant Lists(out, m)
        decreases |left|
      {
        var t :| t in left;
        ListMore(out, m, t, objects[t]);
        out, m := out + [Record(t, objects[t])], m[t := objects[t]];
        left := left - {t};
      }
    }

    method KnownPaths() returns (known: set<string>)
      ensures forall path :: path in known <==> KnownRow(folders, files, objects, path)
    {
      var rows := TreeRows(folders);
      known := objects.Keys + (set r | r in rows :: FolderPath(r.rel))
               + set k, r | k in files && r in rows && r.id == k.0 :: FilePath(r.rel, k.1);
    }

    /** The cross-reference check: counts the folders without their parent, the files without their
        folder, and the extents whose path is unknown. The tables may be in any state. */
    method CountIssues() returns (issues: nat)
      ensures issues == |LostFolders(folders)| + |LostFiles(folders, files)| +
              |LostRows(folders, files, objects, extents)|
    {
      issues := |LostFolders(folders)| + |LostFiles(folders, files)|;
      var known := KnownPaths();
      ghost var lost: set<nat> := {};
      for i := 0 to |extents|
        invariant lost == set j | j in LostRows(folders, files, objects, extents) && j < i
        invariant issues == |LostFolders(folders)| + |LostFiles(folders, files)| + |lost|
      {
        if extents[i].path !in known {
          issues, lost := issues + 1, lost + {i};
        }
      }
      assert lost == LostRows(folders, files, objects, extents);
    }
  }

  // ---- Cross references ----

  function LostFolders(fs: Folders): set<nat> {
    set id | id in fs && fs[id].parent != 0 && fs[id].parent !in fs
  }

  function LostFiles(fs: Folders, files: map<FileKey, Facts>): set<FileKey> {
    set k | k in files && k.0 !in fs
  }

  /** A path the queries print for a reachable folder or a file in one, or the type of an object. */
  ghost predicate KnownRow(fs: Folders, files: map<FileKey, Facts>, objects: map<string, Facts>, path: string) {
    || path in objects
    || (exists r :: InTree(fs, r) && FolderPath(r.rel) == path)
    || (exists r, k :: InTree(fs, r) && k in files && k.0 == r.id && FilePath(r.rel, k.1) == path)
  }

  ghost function LostRows(fs: Folders, files: map<FileKey, Facts>, objects: map<string, Facts>,
                          extents: seq<ExtentRow>): set<nat>
  {
    set i | 0 <= i < |extents| && !KnownRow(fs, files, objects, extents[i].path)
  }

  /** No issue is counted exactly when every parent that is named exists, every file's folder exists and
      every extent's path is known. */
  lemma {:induction false} NoIssues(fs: Folders, files: map<FileKey, Facts>, objects: map<string, Facts>,
                                    extents: seq<ExtentRow>)
    ensures |LostFolders(fs)| + |LostFiles(fs, files)| + |LostRows(fs, files, objects, extents)| == 0 <==>
            && (forall id :: id in fs && fs[id].parent != 0 ==> fs[id].parent in fs)
            && (forall k :: k in files ==> k.0 in fs)
            && (forall e :: e in extents ==> KnownRow(fs, files, objects, e.path))
  {
    var a, b, c := LostFolders(fs), LostFiles(fs, files), LostRows(fs, files, objects, extents);
    assert a == {} <==> forall id :: id in fs && fs[id].parent != 0 ==> fs[id].parent in fs by {
      if a == {} {
        forall id | id in fs && fs[id].parent != 0 ensures fs[id].parent in fs { assert id !in a; }
      }
    }
    assert b == {} <==> forall k :: k in files ==> k.0 in fs by {
      if b == {} {
        forall k | k in files ensures k.0 in fs { assert k !in b; }
      }
    }
    assert c == {} <==> forall e :: e in extents ==> KnownRow(fs, files, objects, e.path) by {
      if c == {} {
        forall i | 0 <= i < |extents| ensures KnownRow(fs, files, objects, extents[i].path) { assert i !in c; }
      }
    }
  }

  /** On valid tables a path is known to the queries exactly when the catalog knows it. */
  lemma {:induction false} KnownOnTree(fs: Folders, files: map<FileKey, Facts>, objects: map<string, Facts>,
                                       extents: seq<ExtentRow>, path: string)
    requires TreeOk(fs) && FilesOk(fs, files)
    ensures KnownRow(fs, files, objects, path) <==> Known(ContentsOf(fs, files, objects, extents), path)
  {
    var c := ContentsOf(fs, files, objects, extents);
    if r :| InTree(fs, r) && FolderPath(r.rel) == path {
      TreeRelPath(fs, r);
      PrintedPaths(CompsOf(fs, r.id), "");
      CompsRebuild(CompsOf(fs, r.id));
      InDirs(fs, r.id);
    }
    if r, k :| InTree(fs, r) && k in files && k.0 == r.id && FilePath(r.rel, k.1) == path {
      TreeRelPath(fs, r);
      PrintedPaths(CompsOf(fs, r.id), k.1);
      PathGood(fs, files, k);
      FlatAt(fs, files, k);
    }
    if Canonical(path) && Comps(path) in c.dirs {
      var id := DirId(fs, Comps(path));
      PrintedPaths(Comps(path), "");
      InTable(fs, id);
      assert InTree(fs, TreeRow(id, RelPath(Comps(path)))) && FolderPath(RelPath(Comps(path))) == path;
    }
    if Canonical(path) && Comps(path) in c.files {
      var k := KeyAt(fs, files, Comps(path));
      var rel := RelPath(CompsOf(fs, k.0));
      PrintedPaths(CompsOf(fs, k.0), k.1);
      InTable(fs, k.0);
      assert InTree(fs, TreeRow(k.0, rel)) && FilePath(rel, k.1) == path;
    }
  }

  lemma {:induction false} InTable(fs: Folders, id: nat)
    requires TreeOk(fs) && id in fs
    ensures InTree(fs, TreeRow(id, RelPath(CompsOf(fs, id))))
  {
    TreeRelPath(fs, TreeRow(id, RelPath(CompsOf(fs, id))));
  }

  /** A valid catalog has no cross-reference issue exactly when it is clean. */
  lemma {:induction false} CleanMeansNoIssues(fs: Folders, files: map<FileKey, Facts>, objects: map<string, Facts>,
                                              extents: seq<ExtentRow>)
    requires TreeOk(fs) && FilesOk(fs, files)
    ensures |LostFolders(fs)| + |LostFiles(fs, files)| + |LostRows(fs, files, objects, extents)| == 0 <==>
            Clean(ContentsOf(fs, files, objects, extents))
  {
    var c := ContentsOf(fs, files, objects, extents);
    NoIssues(fs, files, objects, extents);
    forall id | id in fs && fs[id].parent != 0 ensures fs[id].parent in fs { assert RowOk(fs, id); }
    forall e | e in extents ensures KnownRow(fs, files, objects, e.path) <==> Known(c, e.path) {
      KnownOnTree(fs, files, objects, extents, e.path);
    }
    assert Clean(c) <==> forall e :: e in extents ==> KnownRow(fs, files, objects, e.path);
  }
}
