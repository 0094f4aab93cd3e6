/** The recursive folder query: rows reachable from the rows without a parent, with their relative
    paths. It is defined and computed for arbitrary tables (src/db/store.cpp). */
module TreeQuery {
  import opened Extents
  import opened Options
  import opened Paths
  import opened FolderTree

  datatype TreeRow = TreeRow(id: nat, rel: string)

  /** The relative path of a row that is d steps below a row without a parent. */
  function RelAt(fs: Folders, d: nat, id: nat): Option<string> {
    if id !in fs then None
    else if fs[id].parent == 0 then (if d == 0 then Some("") else None)
    else if d == 0 then None
    else
      var up := RelAt(fs, d - 1, fs[id].parent);
      if up.None? then None else Some(Joined(up.value, fs[id].name))
  }

  /** The query yields this row. */
  ghost predicate InTree(fs: Folders, row: TreeRow) {
    exists d: nat :: RelAt(fs, d, row.id) == Some(row.rel)
  }

  /** A row is reached in one way only. */
  lemma {:induction false} RelUnique(fs: Folders, d: nat, e: nat, id: nat)
    requires RelAt(fs, d, id).Some? && RelAt(fs, e, id).Some?
    ensures d == e
    decreases d
  {
    if fs[id].parent != 0 { RelUnique(fs, d - 1, e - 1, fs[id].parent); }
  }

  function Ids(rows: seq<TreeRow>): set<nat> {
    set r | r in rows :: r.id
  }

  ghost predicate DistinctIds(rows: seq<TreeRow>) {
    forall i, j :: 0 <= i < j < |rows| ==> rows[i].id != rows[j].id
  }

  function Starts(fs: Folders): set<nat> {
    set c | c in fs && fs[c].parent == 0
  }

  function Below(fs: Folders, id: nat): set<nat> {
    set c | c in fs && fs[c].parent != 0 && fs[c].parent == id
  }

  /** The rows whose parent is 0 or one of `ups`. */
  ghost function Next(fs: Folders, ups: set<nat>): set<nat> {
    set c | c in fs && (fs[c].parent == 0 || fs[c].parent in ups)
  }

  ghost predicate AllInTree(fs: Folders, rows: seq<TreeRow>) {
    forall i :: 0 <= i < |rows| ==> InTree(fs, rows[i])
  }

  /** The first n rows are expanded. */
  ghost predicate Expanded(fs: Folders, rows: seq<TreeRow>, n: nat) {
    && n <= |rows| && DistinctIds(rows) && AllInTree(fs, rows)
    && Ids(rows) == Next(fs, Ids(rows[..n]))
  }

  /** The rows' paths continue `up`, or are empty for a start. */
  ghost predicate RelsFrom(fs: Folders, rows: seq<TreeRow>, up: Option<string>) {
    forall i :: 0 <= i < |rows| ==>
      rows[i].id in fs && rows[i].rel == if up.None? then "" else Joined(up.value, fs[rows[i].id].name)
  }

  /** One row for each of the given folders, below a row with path `up` or as a start. */
  ghost predicate RowsAre(fs: Folders, rows: seq<TreeRow>, ids: set<nat>, up: Option<string>) {
    Ids(rows) == ids && DistinctIds(rows) && RelsFrom(fs, rows, up)
  }

  method RowsFor(fs: Folders, ids: set<nat>, up: Option<string>) returns (rows: seq<TreeRow>)
    requires ids <= fs.Keys
    ensures RowsAre(fs, rows, ids, up)
  {
    rows := [];
    var left := ids;
    while left != {}
      invariant left <= ids && RowsAre(fs, rows, ids - left, up)
      decreases |left|
    {
      var c :| c in left;
      var row := TreeRow(c, if up.None? then "" else Joined(up.value, fs[c].name));
      RowsSnoc(fs, rows, ids - left, up, row);
      assert ids - left + {c} == ids - (left - {c});
      rows, left := rows + [row], left - {c};
    }
    assert ids - left == ids;
  }

  lemma {:induction false} RowsSnoc(fs: Folders, rows: seq<TreeRow>, ids: set<nat>, up: Option<string>, row: TreeRow)
    requires RowsAre(fs, rows, ids, up) && row.id in fs && row.id !in ids
    requires row.rel == if up.None? then "" else Joined(up.value, fs[row.id].name)
    ensures RowsAre(fs, rows + [row], ids + {row.id}, up)
  {
    IdsSnoc(rows, row);
  }

  lemma {:induction false} IdsSnoc(rows: seq<TreeRow>, row: TreeRow)
    ensures Ids(rows + [row]) == Ids(rows) + {row.id}
    ensures DistinctIds(rows) && row.id !in Ids(rows) ==> DistinctIds(rows + [row])
  {
    var more := rows + [row];
    forall r ensures r in more <==> r in rows || r == row { }
    if DistinctIds(rows) && row.id !in Ids(rows) {
      forall i, j | 0 <= i < j < |more| ensures more[i].id != more[j].id {
        assert more[i] in rows && more[i].id in Ids(rows);
      }
    }
  }

  lemma {:induction false} IdsAppend(a: seq<TreeRow>, b: seq<TreeRow>)
    ensures Ids(a + b) == Ids(a) + Ids(b)
    ensures DistinctIds(a) && DistinctIds(b) && Ids(a) !! Ids(b) ==> DistinctIds(a + b)
  {
    var c := a + b;
    forall r ensures r in c <==> r in a || r in b { }
    if DistinctIds(a) && DistinctIds(b) && Ids(a) !! Ids(b) {
      forall i, j | 0 <= i < j < |c| ensures c[i].id != c[j].id {
        if i < |a| <= j {
          assert c[i] in a && c[j] in b && c[i].id in Ids(a) && c[j].id in Ids(b);
        }
      }
    }
  }

  lemma {:induction false} StartRows(fs: Folders, rows: seq<TreeRow>)
    requires RowsAre(fs, rows, Starts(fs), None)
    ensures Expanded(fs, rows, 0)
  {
    forall i | 0 <= i < |rows| ensures InTree(fs, rows[i]) {
      assert rows[i].id in Ids(rows);
      assert RelAt(fs, 0, rows[i].id) == Some("");
    }
  }

  /** Appending the children of the next row. */
  lemma {:induction false} ExpandOne(fs: Folders, rows: seq<TreeRow>, n: nat, more: seq<TreeRow>)
    requires Expanded(fs, rows, n) && n < |rows|
    requires RowsAre(fs, more, Below(fs, rows[n].id), Some(rows[n].rel))
    ensures Expanded(fs, rows + more, n + 1)
  {
    var up := rows[n];
    assert rows[..n + 1] == rows[..n] + [up];
    IdsSnoc(rows[..n], up);
    assert (rows + more)[..n + 1] == rows[..n + 1];
    NotYet(rows, n);
    IdsAppend(rows, more);
    var all := rows + more;
    forall i | 0 <= i < |all| ensures InTree(fs, all[i]) {
      if i >= |rows| {
        var r := more[i - |rows|];
        assert r.id in Ids(more);
        var d: nat :| RelAt(fs, d, up.id) == Some(up.rel);
        assert RelAt(fs, d + 1, r.id) == Some(r.rel);
      }
    }
  }

  lemma {:induction false} NotYet(rows: seq<TreeRow>, n: nat)
    requires DistinctIds(rows) && n < |rows|
    ensures rows[n].id !in Ids(rows[..n])
  {
    forall r | r in rows[..n] ensures r.id != rows[n].id { }
  }

  lemma {:induction false} IdsSize(rows: seq<TreeRow>)
    requires DistinctIds(rows)
    ensures |Ids(rows)| == |rows|
  {
    if rows != [] {
      IdsSize(DropLast(rows));
      NotYet(rows, |rows| - 1);
      IdsSnoc(DropLast(rows), Last(rows));
      SplitLast(rows);
    }
  }

  /** There are never more rows than folders. */
  lemma {:induction false} RowsBounded(fs: Folders, rows: seq<TreeRow>)
    requires DistinctIds(rows) && Ids(rows) <= fs.Keys
    ensures |rows| <= |fs|
  {
    IdsSize(rows);
    SubsetSize(Ids(rows), fs.Keys);
  }

  /** Everything reachable has been found. */
  lemma {:induction false} AllReached(fs: Folders, rows: seq<TreeRow>, d: nat, id: nat)
    requires Expanded(fs, rows, |rows|) && RelAt(fs, d, id).Some?
    ensures id in Ids(rows)
    decreases d
  {
    assert rows[..|rows|] == rows;
    if fs[id].parent != 0 { AllReached(fs, rows, d - 1, fs[id].parent); }
  }

  lemma {:induction false} RowsAreTree(fs: Folders, rows: seq<TreeRow>, row: TreeRow)
    requires Expanded(fs, rows, |rows|)
    ensures row in rows <==> InTree(fs, row)
  {
    if InTree(fs, row) {
      var d: nat :| RelAt(fs, d, row.id) == Some(row.rel);
      AllReached(fs, rows, d, row.id);
      var r :| r in rows && r.id == row.id;
      var i :| 0 <= i < |rows| && rows[i] == r;
      assert InTree(fs, rows[i]);
      var e: nat :| RelAt(fs, e, r.id) == Some(r.rel);
      RelUnique(fs, d, e, row.id);
    }
  }

  /** WITH RECURSIVE: starts from the rows without a parent and expands every row once. It terminates on
      any table, whatever cycles the parents form, and yields every reachable row exactly once. */
  method TreeRows(fs: Folders) returns (rows: seq<TreeRow>)
    ensures DistinctIds(rows)
    ensures forall row :: row in rows <==> InTree(fs, row)
  {
    rows := RowsFor(fs, Starts(fs), None);
    StartRows(fs, rows);
    var n: nat := 0;
    RowsBounded(fs, rows);
    while n < |rows|
      invariant Expanded(fs, rows, n) && |rows| <= |fs|
      decreases |fs| - n
    {
      var up := rows[n];
      var more := RowsFor(fs, Below(fs, up.id), Some(up.rel));
      ExpandOne(fs, rows, n, more);
      rows, n := rows + more, n + 1;
      RowsBounded(fs, rows);
    }
    forall row ensures row in rows <==> InTree(fs, row) { RowsAreTree(fs, rows, row); }
  }

  /** On a tree the query yields every folder, with its components joined by slashes. */
  lemma {:induction false} TreeRelPath(fs: Folders, row: TreeRow)
    requires TreeOk(fs)
    ensures InTree(fs, row) <==> row.id in fs && row.rel == RelPath(CompsOf(fs, row.id))
  {
    if row.id in fs {
      RelOfComps(fs, row.id);
      var d := |CompsOf(fs, row.id)|;
      if e: nat :| RelAt(fs, e, row.id) == Some(row.rel) {
        RelUnique(fs, d, e, row.id);
      }
    }
  }

  lemma {:induction false} RelOfComps(fs: Folders, id: nat)
    requires TreeOk(fs) && id in fs
    ensures RelAt(fs, |CompsOf(fs, id)|, id) == Some(RelPath(CompsOf(fs, id)))
    decreases id
  {
    assert RowOk(fs, id);
    if fs[id].parent != 0 {
      RelOfComps(fs, fs[id].parent);
      assert DropLast(CompsOf(fs, id)) == CompsOf(fs, fs[id].parent);
    }
  }
}
