/** The folder and file tables as a tree, and the flat map from component lists to file rows that
    they stand for (src/db/store.cpp). */
module FolderTree {
  import opened Extents
  import opened Paths

  /** A folder row: its parent's rowid (0 for none) and its base name. */
  datatype Folder = Folder(parent: nat, name: string)
  type Folders = map<nat, Folder>

  /** A file's key: the rowid of its folder and its base name (UNIQUE in the table). */
  type FileKey = (nat, string)

  ghost predicate RowOk(fs: Folders, id: nat)
    requires id in fs
  {
    var row := fs[id];
    id >= 1 &&
    if row.parent == 0 then row.name == ""
    else row.parent < id && row.parent in fs && GoodName(row.name)
  }

  /** UNIQUE(parent_id, basename). */
  ghost predicate UniqueEdges(fs: Folders) {
    forall a, b :: SameEdge(fs, a, b) ==> a == b
  }

  ghost predicate SameEdge(fs: Folders, a: nat, b: nat) {
    a in fs && b in fs && fs[a] == fs[b]
  }

  /** Edges are unique, a parent exists and has the smaller rowid, only the root has no parent, and
      every other folder has a proper name. */
  ghost predicate TreeOk(fs: Folders) {
    (forall id {:trigger RowOk(fs, id)} :: id in fs ==> RowOk(fs, id)) && UniqueEdges(fs)
  }

  /** The components of a folder's path, from the root down. */
  ghost function CompsOf(fs: Folders, id: nat): (c: seq<string>)
    requires TreeOk(fs) && id in fs
    ensures AllGood(c)
    ensures c == [] <==> fs[id].parent == 0
    decreases id
  {
    assert RowOk(fs, id);
    if fs[id].parent == 0 then [] else CompsOf(fs, fs[id].parent) + [fs[id].name]
  }

  /** Every folder hangs off the root: following parents ends at the one row without a parent. */
  lemma {:induction false} Rooted(fs: Folders, id: nat) returns (root: nat)
    requires TreeOk(fs) && id in fs
    ensures root in fs && fs[root] == Folder(0, "") && CompsOf(fs, root) == [] <= CompsOf(fs, id)
    decreases id
  {
    assert RowOk(fs, id);
    if fs[id].parent == 0 {
      root := id;
    } else {
      root := Rooted(fs, fs[id].parent);
    }
  }

  /** A folder is determined by its components. */
  lemma {:induction false} CompsInjective(fs: Folders, a: nat, b: nat)
    requires TreeOk(fs) && a in fs && b in fs && CompsOf(fs, a) == CompsOf(fs, b)
    ensures a == b
    decreases a
  {
    assert RowOk(fs, a) && RowOk(fs, b);
    if fs[a].parent != 0 {
      var p, q := fs[a].parent, fs[b].parent;
      assert DropLast(CompsOf(fs, a)) == CompsOf(fs, p) && DropLast(CompsOf(fs, b)) == CompsOf(fs, q);
      CompsInjective(fs, p, q);
      assert Last(CompsOf(fs, a)) == fs[a].name && Last(CompsOf(fs, b)) == fs[b].name;
    }
    assert SameEdge(fs, a, b);
  }

  /** Going down one edge appends its name, and no other folder has that path. */
  lemma {:induction false} EdgeComps(fs: Folders, parent: nat, name: string, id: nat)
    requires TreeOk(fs) && parent in fs && id in fs && name != ""
    ensures fs[id] == Folder(parent, name) <==> CompsOf(fs, id) == CompsOf(fs, parent) + [name]
  {
    assert RowOk(fs, id) && RowOk(fs, parent);
    var c := CompsOf(fs, parent) + [name];
    if CompsOf(fs, id) == c {
      var p := fs[id].parent;
      assert DropLast(c) == CompsOf(fs, parent) && Last(c) == name;
      assert DropLast(CompsOf(fs, id)) == CompsOf(fs, p) && Last(CompsOf(fs, id)) == fs[id].name;
      CompsInjective(fs, p, parent);
    }
  }

  /** Every row of `fs` is in `gs` with the same contents. */
  ghost predicate SubTable(fs: Folders, gs: Folders) {
    forall id :: id in fs ==> id in gs && gs[id] == fs[id]
  }

  lemma {:induction false} CompsStable(fs: Folders, gs: Folders, id: nat)
    requires TreeOk(fs) && TreeOk(gs) && SubTable(fs, gs) && id in fs
    ensures id in gs && CompsOf(gs, id) == CompsOf(fs, id)
    decreases id
  {
    assert RowOk(fs, id);
    if fs[id].parent != 0 { CompsStable(fs, gs, fs[id].parent); }
  }

  /** The component lists of all folders. */
  ghost function Dirs(fs: Folders): set<seq<string>>
    requires TreeOk(fs)
  {
    set id {:trigger DirOf(fs, id)} | id in fs :: DirOf(fs, id)
  }

  /** The same as CompsOf; a name of its own keeps set membership from unfolding the recursion. */
  ghost function DirOf(fs: Folders, id: nat): (c: seq<string>)
    requires TreeOk(fs) && id in fs
  {
    CompsOf(fs, id)
  }

  lemma {:induction false} InDirs(fs: Folders, id: nat)
    requires TreeOk(fs) && id in fs
    ensures CompsOf(fs, id) in Dirs(fs)
  {
    assert DirOf(fs, id) in Dirs(fs);
  }

  lemma {:induction false} DirId(fs: Folders, c: seq<string>) returns (id: nat)
    requires TreeOk(fs) && c in Dirs(fs)
    ensures id in fs && CompsOf(fs, id) == c
  {
    id :| id in fs && DirOf(fs, id) == c;
  }

  /** A rowid that SQLite gives to a new row: one more than the largest, or 1. */
  ghost predicate IsNextRowid(fs: Folders, id: nat) {
    id >= 1 && (forall k :: k in fs ==> k < id) && (id == 1 || id - 1 in fs)
  }

  method NewRowid(fs: Folders) returns (id: nat)
    ensures IsNextRowid(fs, id)
  {
    var left := fs.Keys;
    var top: nat := 0;
    while left != {}
      invariant left <= fs.Keys
      invariant forall k :: k in fs && k !in left ==> k <= top
      invariant top == 0 || top in fs
      decreases |left|
    {
      var k :| k in left;
      if k > top {
        top := k;
      }
      left := left - {k};
    }
    id := top + 1;
  }

  /** A row that may be inserted: under an existing parent with a proper name, or as the root, where no
      row has that edge. */
  ghost predicate NewRow(fs: Folders, id: nat, row: Folder) {
    && IsNextRowid(fs, id)
    && (forall k :: k in fs ==> fs[k] != row)
    && if row.parent == 0 then row.name == "" else row.parent in fs && GoodName(row.name)
  }

  lemma {:induction false} InsertKeepsTree(fs: Folders, id: nat, row: Folder)
    requires TreeOk(fs) && NewRow(fs, id, row)
    ensures TreeOk(fs[id := row]) && SubTable(fs, fs[id := row])
  {
    var gs := fs[id := row];
    forall k | k in gs ensures RowOk(gs, k) {
      if k != id { assert RowOk(fs, k); }
    }
    forall a, b | SameEdge(gs, a, b) ensures a == b {
      if a != id && b != id { assert SameEdge(fs, a, b); }
    }
  }

  ghost function RowComps(fs: Folders, row: Folder): seq<string>
    requires TreeOk(fs) && (row.parent == 0 || row.parent in fs)
  {
    if row.parent == 0 then [] else CompsOf(fs, row.parent) + [row.name]
  }

  /** Inserting a row adds its path to the folders and moves none. */
  lemma {:induction false} InsertAddsDir(fs: Folders, id: nat, row: Folder)
    requires TreeOk(fs) && NewRow(fs, id, row)
    ensures TreeOk(fs[id := row]) && CompsOf(fs[id := row], id) == RowComps(fs, row)
    ensures Dirs(fs[id := row]) == Dirs(fs) + {RowComps(fs, row)}
  {
    InsertKeepsTree(fs, id, row);
    var gs := fs[id := row];
    if row.parent != 0 { CompsStable(fs, gs, row.parent); }
    forall k | k in fs ensures CompsOf(gs, k) == CompsOf(fs, k) { CompsStable(fs, gs, k); }
    forall c | c in Dirs(gs) ensures c in Dirs(fs) + {RowComps(fs, row)} {
      var k := DirId(gs, c);
      if k != id { InDirs(fs, k); }
    }
    forall c | c in Dirs(fs) ensures c in Dirs(gs) {
      var k := DirId(fs, c);
      InDirs(gs, k);
    }
    InDirs(gs, id);
  }

  // ---- Files ----

  ghost predicate FilesOk<T>(fs: Folders, files: map<FileKey, T>) {
    forall k :: k in files ==> k.0 in fs && GoodName(k.1)
  }

  ghost function PathOf(fs: Folders, k: FileKey): seq<string>
    requires TreeOk(fs) && k.0 in fs
  {
    CompsOf(fs, k.0) + [k.1]
  }

  ghost function FilePaths<T>(fs: Folders, files: map<FileKey, T>): set<seq<string>>
    requires TreeOk(fs) && FilesOk(fs, files)
  {
    set k {:trigger PathOf(fs, k)} | k in files :: PathOf(fs, k)
  }

  ghost function KeyAt<T>(fs: Folders, files: map<FileKey, T>, p: seq<string>): (k: FileKey)
    requires TreeOk(fs) && FilesOk(fs, files) && p in FilePaths(fs, files)
    ensures k in files && PathOf(fs, k) == p
  {
    var k :| k in files && PathOf(fs, k) == p;
    k
  }

  /** `m` holds exactly the file rows, each under its path. */
  ghost predicate IsFlat<T(!new)>(fs: Folders, files: map<FileKey, T>, m: map<seq<string>, T>)
    requires TreeOk(fs) && FilesOk(fs, files)
  {
    && m.Keys == FilePaths(fs, files)
    && forall k {:trigger PathOf(fs, k)} :: k in files ==> m[PathOf(fs, k)] == files[k]
  }

  lemma {:induction false} FlatExists<T(!new)>(fs: Folders, files: map<FileKey, T>)
    requires TreeOk(fs) && FilesOk(fs, files)
    ensures exists m :: IsFlat(fs, files, m)
  {
    var m := map p | p in FilePaths(fs, files) :: files[KeyAt(fs, files, p)];
    forall k | k in files ensures m[PathOf(fs, k)] == files[k] {
      PathInjective(fs, KeyAt(fs, files, PathOf(fs, k)), k);
    }
    assert IsFlat(fs, files, m);
  }

  /** The flat map the two tables stand for. */
  ghost function Flat<T(!new)>(fs: Folders, files: map<FileKey, T>): (m: map<seq<string>, T>)
    requires TreeOk(fs) && FilesOk(fs, files)
    ensures IsFlat(fs, files, m)
  {
    FlatExists(fs, files);
    var m :| IsFlat(fs, files, m);
    m
  }

  lemma {:induction false} PathInjective(fs: Folders, a: FileKey, b: FileKey)
    requires TreeOk(fs) && a.0 in fs && b.0 in fs && PathOf(fs, a) == PathOf(fs, b)
    ensures a == b
  {
    assert DropLast(PathOf(fs, a)) == CompsOf(fs, a.0) && DropLast(PathOf(fs, b)) == CompsOf(fs, b.0);
    assert Last(PathOf(fs, a)) == a.1 && Last(PathOf(fs, b)) == b.1;
    CompsInjective(fs, a.0, b.0);
  }

  /** A file row is found in the flat map under its path, and under no other. */
  lemma {:induction false} FlatAt<T(!new)>(fs: Folders, files: map<FileKey, T>, k: FileKey)
    requires TreeOk(fs) && FilesOk(fs, files) && k.0 in fs
    ensures PathOf(fs, k) in Flat(fs, files) <==> k in files
    ensures k in files ==> Flat(fs, files)[PathOf(fs, k)] == files[k]
  {
    var p := PathOf(fs, k);
    if p in FilePaths(fs, files) {
      PathInjective(fs, KeyAt(fs, files, p), k);
    }
  }

  /** Two flat maps agree when they agree at every path of either table. */
  lemma {:induction false} FlatSame<T(!new)>(fs: Folders, files: map<FileKey, T>, m: map<seq<string>, T>)
    requires TreeOk(fs) && FilesOk(fs, files)
    requires forall k :: k in files ==> PathOf(fs, k) in m && m[PathOf(fs, k)] == files[k]
    requires forall p :: p in m ==> p in FilePaths(fs, files)
    ensures Flat(fs, files) == m
  {
    var f := Flat(fs, files);
    forall p | p in f ensures p in m && m[p] == f[p] {
      var k := KeyAt(fs, files, p);
      assert k in files;
    }
  }

  /** More folders do not change the flat map. */
  lemma {:induction false} FlatStable<T(!new)>(fs: Folders, gs: Folders, files: map<FileKey, T>)
    requires TreeOk(fs) && TreeOk(gs) && SubTable(fs, gs) && FilesOk(fs, files)
    ensures FilesOk(gs, files) && Flat(gs, files) == Flat(fs, files)
  {
    forall k | k in files ensures PathOf(gs, k) == PathOf(fs, k) { CompsStable(fs, gs, k.0); }
    var m := Flat(fs, files);
    forall k | k in files ensures PathOf(gs, k) in m && m[PathOf(gs, k)] == files[k] { FlatAt(fs, files, k); }
    forall p | p in m ensures p in FilePaths(gs, files) {
      var k := KeyAt(fs, files, p);
      assert PathOf(gs, k) == p;
    }
    FlatSame(gs, files, m);
  }

  /** Writing a file row writes the flat map at its path. */
  lemma {:induction false} FlatPut<T(!new)>(fs: Folders, files: map<FileKey, T>, k: FileKey, v: T)
    requires TreeOk(fs) && FilesOk(fs, files) && k.0 in fs && GoodName(k.1)
    ensures FilesOk(fs, files[k := v]) && Flat(fs, files[k := v]) == Flat(fs, files)[PathOf(fs, k) := v]
  {
    var more := files[k := v];
    var m := Flat(fs, files)[PathOf(fs, k) := v];
    forall j | j in more ensures PathOf(fs, j) in m && m[PathOf(fs, j)] == more[j] {
      if j != k {
        FlatAt(fs, files, j);
        if PathOf(fs, j) == PathOf(fs, k) { PathInjective(fs, j, k); }
      }
    }
    forall p | p in m ensures p in FilePaths(fs, more) {
      if p == PathOf(fs, k) {
        assert k in more;
      } else {
        var j := KeyAt(fs, files, p);
        assert j in more;
      }
    }
    FlatSame(fs, more, m);
  }

  /** Deleting a file row deletes its path from the flat map. */
  lemma {:induction false} FlatDrop<T(!new)>(fs: Folders, files: map<FileKey, T>, k: FileKey)
    requires TreeOk(fs) && FilesOk(fs, files) && k.0 in fs
    ensures FilesOk(fs, files - {k}) && Flat(fs, files - {k}) == Flat(fs, files) - {PathOf(fs, k)}
  {
    var less := files - {k};
    var m := Flat(fs, files) - {PathOf(fs, k)};
    forall j | j in less ensures PathOf(fs, j) in m && m[PathOf(fs, j)] == less[j] {
      FlatAt(fs, files, j);
      if PathOf(fs, j) == PathOf(fs, k) { PathInjective(fs, j, k); }
    }
    forall p | p in m ensures p in FilePaths(fs, less) {
      var j := KeyAt(fs, files, p);
      assert j in less;
    }
    FlatSame(fs, less, m);
  }

  // ---- Subtrees ----

  /** Row `top` is `id` or one of its ancestors. */
  ghost predicate Under(fs: Folders, top: nat, id: nat)
    requires TreeOk(fs) && id in fs
    decreases id
  {
    assert RowOk(fs, id);
    id == top || (fs[id].parent != 0 && Under(fs, top, fs[id].parent))
  }

  /** The folders below `top` are those whose components extend its components. */
  lemma {:induction false} UnderIsPrefix(fs: Folders, top: nat, id: nat)
    requires TreeOk(fs) && top in fs && id in fs
    ensures Under(fs, top, id) <==> CompsOf(fs, top) <= CompsOf(fs, id)
    decreases id
  {
    assert RowOk(fs, id);
    var a, b := CompsOf(fs, top), CompsOf(fs, id);
    if fs[id].parent == 0 {
      if a <= b { CompsInjective(fs, top, id); }
    } else {
      UnderIsPrefix(fs, top, fs[id].parent);
      var c := CompsOf(fs, fs[id].parent);
      assert DropLast(b) == c;
      if a <= b {
        if |a| == |b| {
          CompsInjective(fs, top, id);
        } else {
          assert a <= c;
        }
      }
    }
  }

  lemma {:induction false} UnderUp(fs: Folders, top: nat, id: nat)
    requires TreeOk(fs) && id in fs && Under(fs, top, id)
    ensures top <= id && top in fs
    decreases id
  {
    assert RowOk(fs, id);
    if id != top { UnderUp(fs, top, fs[id].parent); }
  }

  /** The folder table without the subtrees of `tops`. */
  ghost function Without(fs: Folders, tops: set<nat>): Folders
    requires TreeOk(fs)
  {
    map id | id in fs && !(exists top :: top in tops && Under(fs, top, id)) :: fs[id]
  }

  /** Whatever is under a missing folder is missing too. */
  lemma {:induction false} ParentStays(fs: Folders, tops: set<nat>, id: nat)
    requires TreeOk(fs) && id in Without(fs, tops) && fs[id].parent != 0
    ensures fs[id].parent in Without(fs, tops)
  {
    assert RowOk(fs, id);
    forall top | top in tops ensures !Under(fs, top, fs[id].parent) {
      assert !Under(fs, top, id);
    }
  }

  lemma {:induction false} WithoutKeepsTree(fs: Folders, tops: set<nat>)
    requires TreeOk(fs)
    ensures TreeOk(Without(fs, tops)) && SubTable(Without(fs, tops), fs)
  {
    var gs := Without(fs, tops);
    forall id | id in gs ensures RowOk(gs, id) {
      assert RowOk(fs, id);
      if fs[id].parent != 0 { ParentStays(fs, tops, id); }
    }
    forall a, b | SameEdge(gs, a, b) ensures a == b { assert SameEdge(fs, a, b); }
  }

  lemma {:induction false} UnderStable(fs: Folders, gs: Folders, top: nat, id: nat)
    requires TreeOk(fs) && TreeOk(gs) && SubTable(fs, gs) && id in fs
    ensures id in gs && (Under(fs, top, id) <==> Under(gs, top, id))
    decreases id
  {
    assert RowOk(fs, id);
    if fs[id].parent != 0 { UnderStable(fs, gs, top, fs[id].parent); }
  }

  /** Taking one more subtree out. */
  lemma {:induction false} WithoutMore(fs: Folders, tops: set<nat>, top: nat)
    requires TreeOk(fs)
    ensures TreeOk(Without(fs, tops))
    ensures Without(Without(fs, tops), {top}) == Without(fs, tops + {top})
  {
    WithoutKeepsTree(fs, tops);
    var gs := Without(fs, tops);
    forall id | id in gs ensures Under(gs, top, id) <==> Under(fs, top, id) { UnderStable(gs, fs, top, id); }
    var a, b := Without(gs, {top}), Without(fs, tops + {top});
    forall id ensures id in a <==> id in b {
      if id in a {
        assert !Under(gs, top, id);
      }
      if id in b {
        assert top in tops + {top} && !Under(fs, top, id);
        assert id in gs;
      }
    }
  }

  ghost function Children(fs: Folders, id: nat): set<nat> {
    set c | c in fs && fs[c].parent == id
  }

  /** A folder's subtree is the folder and the subtrees of its children. */
  lemma {:induction false} UnderSplit(fs: Folders, top: nat, id: nat)
    requires TreeOk(fs) && id in fs && top != 0
    ensures Under(fs, top, id) <==> id == top || exists c :: c in Children(fs, top) && Under(fs, c, id)
    decreases id
  {
    assert RowOk(fs, id);
    if fs[id].parent != 0 {
      var p := fs[id].parent;
      UnderSplit(fs, top, p);
      if p == top { assert id in Children(fs, top) && Under(fs, id, id); }
      if Under(fs, top, id) && id != top && p != top {
        var c :| c in Children(fs, top) && Under(fs, c, p);
        assert Under(fs, c, id);
      }
      if c :| c in Children(fs, top) && Under(fs, c, id) {
        if c == id {
          assert p == top && Under(fs, top, p);
        }
      }
    }
  }

  /** Once the children's subtrees are out, what is left of a subtree is its top row. */
  lemma {:induction false} WithoutChildren(fs: Folders, id: nat)
    requires TreeOk(fs) && id != 0
    ensures Without(fs, Children(fs, id)) - {id} == Without(fs, {id})
  {
    forall k | k in fs
      ensures Under(fs, id, k) <==> k == id || exists c :: c in Children(fs, id) && Under(fs, c, k)
    {
      UnderSplit(fs, id, k);
    }
    var a, b := Without(fs, Children(fs, id)) - {id}, Without(fs, {id});
    forall k ensures k in a <==> k in b {
      if k in fs { assert id in {id}; }
    }
  }

  /** A child is still there while its siblings' subtrees are taken out. */
  lemma {:induction false} SiblingStays(fs: Folders, id: nat, done: set<nat>, c: nat)
    requires TreeOk(fs) && id != 0 && done <= Children(fs, id) && c in Children(fs, id) && c !in done
    ensures c in Without(fs, done)
  {
    forall d | d in done ensures !Under(fs, d, c) {
      if Under(fs, d, c) {
        assert RowOk(fs, c) && RowOk(fs, d) && Under(fs, d, fs[c].parent);
        UnderUp(fs, d, fs[c].parent);
      }
    }
  }

  /** The rows of the files whose folder is in the table. */
  ghost function KeepFiles<T>(files: map<FileKey, T>, fs: Folders): map<FileKey, T> {
    map k | k in files && k.0 in fs :: files[k]
  }

  /** A folder survives the deletion of a subtree unless its components extend the subtree's. */
  lemma {:induction false} Survives(fs: Folders, top: nat, id: nat)
    requires TreeOk(fs) && top in fs && id in fs
    ensures id in Without(fs, {top}) <==> !(CompsOf(fs, top) <= CompsOf(fs, id))
  {
    UnderIsPrefix(fs, top, id);
    assert top in {top};
  }

  lemma {:induction false} SurvivesIn<T>(fs: Folders, files: map<FileKey, T>, top: nat, k: FileKey)
    requires TreeOk(fs) && FilesOk(fs, files) && top in fs && k in files
    ensures TreeOk(Without(fs, {top}))
    ensures k.0 in Without(fs, {top}) <==> !InFolder(PathOf(fs, k), CompsOf(fs, top))
    ensures k.0 in Without(fs, {top}) ==> PathOf(Without(fs, {top}), k) == PathOf(fs, k)
  {
    WithoutKeepsTree(fs, {top});
    Survives(fs, top, k.0);
    assert DropLast(PathOf(fs, k)) == CompsOf(fs, k.0);
    if k.0 in Without(fs, {top}) { CompsStable(Without(fs, {top}), fs, k.0); }
  }

  /** Deleting a subtree deletes from the flat map exactly the files in its folders. */
  lemma {:induction false} FlatWithout<T(!new)>(fs: Folders, files: map<FileKey, T>, top: nat)
    requires TreeOk(fs) && FilesOk(fs, files) && top in fs
    ensures var gs := Without(fs, {top});
            && TreeOk(gs) && FilesOk(gs, KeepFiles(files, gs))
            && Flat(gs, KeepFiles(files, gs)) == Pruned(Flat(fs, files), CompsOf(fs, top))
  {
    WithoutKeepsTree(fs, {top});
    var gs := Without(fs, {top});
    var kept := KeepFiles(files, gs);
    var m := Pruned(Flat(fs, files), CompsOf(fs, top));
    forall k | k in kept ensures PathOf(gs, k) in m && m[PathOf(gs, k)] == kept[k] {
      SurvivesIn(fs, files, top, k);
      FlatAt(fs, files, k);
    }
    forall p | p in m ensures p in FilePaths(gs, kept) {
      var k := KeyAt(fs, files, p);
      SurvivesIn(fs, files, top, k);
      assert k in kept;
    }
    FlatSame(gs, kept, m);
  }

  /** A rowid that is given out again after a subtree was deleted brings back none of its files. */
  lemma {:induction false} ReusedRowidIsEmpty<T(!new)>(fs: Folders, files: map<FileKey, T>, top: nat, id: nat)
    requires TreeOk(fs) && FilesOk(fs, files) && top in fs && IsNextRowid(Without(fs, {top}), id)
    ensures forall k :: k in KeepFiles(files, Without(fs, {top})) ==> k.0 != id
    ensures forall k :: k in KeepFiles(files, Without(fs, {top})) ==> !Under(fs, top, k.0)
  {
    forall k | k in KeepFiles(files, Without(fs, {top})) ensures k.0 != id && !Under(fs, top, k.0) {
      assert k.0 in Without(fs, {top}) && top in {top};
    }
  }

  /** And from the folders exactly those whose components extend the subtree's. */
  lemma {:induction false} DirsWithout(fs: Folders, top: nat)
    requires TreeOk(fs) && top in fs
    ensures TreeOk(Without(fs, {top}))
    ensures Dirs(Without(fs, {top})) == set c | c in Dirs(fs) && !(CompsOf(fs, top) <= c)
  {
    WithoutKeepsTree(fs, {top});
    var gs := Without(fs, {top});
    forall id | id in fs ensures id in gs <==> !(CompsOf(fs, top) <= CompsOf(fs, id)) { Survives(fs, top, id); }
    forall id | id in gs ensures CompsOf(gs, id) == CompsOf(fs, id) { CompsStable(gs, fs, id); }
    forall c ensures c in Dirs(gs) <==> c in Dirs(fs) && !(CompsOf(fs, top) <= c) {
      if c in Dirs(fs) {
        var id := DirId(fs, c);
        if id in gs { InDirs(gs, id); }
      }
      if c in Dirs(gs) {
        var id := DirId(gs, c);
        InDirs(fs, id);
      }
    }
  }
}
