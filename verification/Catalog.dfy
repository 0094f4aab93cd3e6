/** What the catalog means to its callers: a flat map from component lists to file records, a set of
    folders, special objects by name, and bad extents (src/db/store.h, src/db/store.cpp). */
module Catalog {
  import opened Extents
  import opened Options
  import opened Paths

  /** What a record says besides its path. */
  datatype Facts = Facts(sha1: Option<seq<byte>>, size: int, lastMassage: int, massageCount: int,
                         verifyStatus: int, verifyCount: int, verifiedAt: int)

  const NO_FACTS := Facts(None, 0, 0, 0, 0, 0, 0)

  datatype ExtentRow = ExtentRow(path: string, offset: int, length: int, status: int, updatedAt: int)

  datatype Contents = Contents(files: map<seq<string>, Facts>, dirs: set<seq<string>>,
                               objects: map<string, Facts>, extents: seq<ExtentRow>)

  /** A folder's parent is a folder, a file's folder is a folder, and every component is proper. */
  ghost predicate WellFormed(c: Contents) {
    && (forall p :: p in c.dirs ==> AllGood(p) && (p != [] ==> DropLast(p) in c.dirs))
    && (forall p :: p in c.files ==> p != [] && AllGood(p) && DropLast(p) in c.dirs)
    && (forall t :: t in c.objects ==> Special(t))
  }

  function At<K(==), V>(m: map<K, V>, k: K): Option<V> {
    if k in m then Some(m[k]) else None
  }

  /** ON CONFLICT DO UPDATE: everything is replaced, but a missing SHA-1 keeps the old one. */
  function Replacing(was: Option<Facts>, now: Facts): Facts {
    if now.sha1.None? && was.Some? then now.(sha1 := was.value.sha1) else now
  }

  /** The record of a path. */
  function Lookup(c: Contents, path: string): Option<Facts> {
    if Special(path) then At(c.objects, path) else At(c.files, Comps(path))
  }

  /** A path that can name a record. */
  predicate Nameable(path: string) {
    Special(path) || Comps(path) != []
  }

  /** Two paths name the same record. */
  predicate SameRecord(a: string, b: string) {
    Special(a) == Special(b) && if Special(a) then a == b else Comps(a) == Comps(b)
  }

  /** Every access to a record makes sure that the volume and its root folder exist. */
  function Opened(c: Contents, path: string): Contents {
    if Nameable(path) then WithDirs(c, {[]}) else c
  }

  function WithDirs(c: Contents, more: set<seq<string>>): Contents {
    c.(dirs := c.dirs + more)
  }

  function Prefixes(c: seq<string>): set<seq<string>> {
    if c == [] then {[]} else Prefixes(DropLast(c)) + {c}
  }

  /** Stores a record; the folders on the way to a file come with it. */
  function Upserted(c: Contents, path: string, f: Facts): Contents {
    if Special(path) then
      c.(dirs := c.dirs + {[]}, objects := c.objects[path := Replacing(At(c.objects, path), f)])
    else if Comps(path) == [] then c
    else
      var p := Comps(path);
      c.(dirs := c.dirs + Prefixes(DropLast(p)), files := c.files[p := Replacing(At(c.files, p), f)])
  }

  /** The facts an update starts from. */
  function Base(c: Contents, path: string): Facts {
    var f := Lookup(c, path);
    if f.Some? then f.value else NO_FACTS
  }

  function Massaged(f: Facts, size: int, now: int): Facts {
    f.(size := size, lastMassage := now, massageCount := f.massageCount + 1)
  }

  function Verified(f: Facts, status: int, sha1: Option<seq<byte>>, now: int): Facts {
    f.(sha1 := if sha1.Some? then sha1 else f.sha1,
       verifyStatus := status, verifyCount := f.verifyCount + 1, verifiedAt := now)
  }

  function WithoutPath(rows: seq<ExtentRow>, path: string): seq<ExtentRow> {
    if rows == [] then []
    else if rows[0].path == path then WithoutPath(rows[1..], path)
    else [rows[0]] + WithoutPath(rows[1..], path)
  }

  datatype Span = Span(offset: int, length: int, status: int)

  function RowsOf(path: string, spans: seq<Span>, now: int): (rows: seq<ExtentRow>)
    ensures |rows| == |spans|
  {
    if spans == [] then []
    else
      var s := Last(spans);
      RowsOf(path, DropLast(spans), now) + [ExtentRow(path, s.offset, s.length, s.status, now)]
  }

  function Replaced(c: Contents, path: string, spans: seq<Span>, now: int): Contents {
    c.(extents := WithoutPath(c.extents, path) + RowsOf(path, spans, now))
  }

  /** A special object goes with its extents. A file goes with the extents stored under the very same
      path text; where there is no such file nothing happens. */
  function FileDeleted(c: Contents, path: string): Contents {
    var o := Opened(c, path);
    if Special(path) then Replaced(o.(objects := o.objects - {path}), path, [], 0)
    else if Comps(path) in o.files then Replaced(o.(files := o.files - {Comps(path)}), path, [], 0)
    else o
  }

  /** A folder goes with everything below it, and leaves the extents. */
  ghost function FolderDeleted(c: Contents, top: seq<string>): Contents {
    c.(dirs := (set p | p in c.dirs && !(top <= p)), files := Pruned(c.files, top))
  }

  /** record_rewrite: the ledger of a path replaces the old one, and the path counts as massaged. */
  function Rewritten(c: Contents, path: string, size: int, spans: seq<Span>, now: int): Contents {
    var r := Opened(Replaced(c, path, spans, now), path);
    Upserted(r, path, Massaged(Base(r, path), size, now))
  }

  // ---- The flat map ----

  /** After an upsert every path with the same components finds the record, with the old SHA-1 where the
      new record has none, and every other path finds what it found before. */
  lemma {:induction false} LookupUpserted(c: Contents, path: string, f: Facts, other: string)
    requires Nameable(path)
    ensures Lookup(Upserted(c, path, f), other) ==
            if Special(path) == Special(other) && (if Special(path) then path == other else Comps(path) == Comps(other))
            then Some(f.(sha1 := if f.sha1.Some? || Lookup(c, path).None? then f.sha1 else Lookup(c, path).value.sha1))
            else Lookup(c, other)
  {
    CompsDiffer(path, other);
  }

  /** Two file paths name the same record exactly when they rebuild to the same path. */
  lemma {:induction false} CompsDiffer(a: string, b: string)
    ensures Comps(a) == Comps(b) <==> Rebuild(Comps(a)) == Rebuild(Comps(b))
  {
    CompsGood(a);
    CompsGood(b);
    CompsRebuild(Comps(a));
    CompsRebuild(Comps(b));
  }

  lemma {:induction false} PrefixesAre(c: seq<string>, p: seq<string>)
    ensures p in Prefixes(c) <==> p <= c
  {
    if c != [] {
      PrefixesAre(DropLast(c), p);
      if p <= c && p != c { assert p <= DropLast(c); }
    }
  }

  lemma {:induction false} WithRootAndPrefixes(c: Contents, dirs: seq<string>)
    ensures WithDirs(WithDirs(c, {[]}), Prefixes(dirs)) == WithDirs(c, Prefixes(dirs))
  {
    PrefixesAre(dirs, []);
  }

  lemma {:induction false} WithDirsBoth(c: Contents, a: set<seq<string>>, b: set<seq<string>>)
    ensures WithDirs(WithDirs(c, a), b) == WithDirs(c, a + b)
  {
  }

  /** The folders on the way to a folder are there already. */
  lemma {:induction false} PrefixesThere(c: Contents, dirs: seq<string>)
    requires WellFormed(c) && dirs in c.dirs
    ensures WithDirs(c, Prefixes(dirs)) == c && Prefixes(dirs) <= c.dirs
    decreases |dirs|
  {
    if dirs != [] { PrefixesThere(c, DropLast(dirs)); }
  }

  lemma {:induction false} UpsertWellFormed(c: Contents, path: string, f: Facts)
    requires WellFormed(c)
    ensures WellFormed(Upserted(c, path, f)) && WellFormed(Opened(c, path))
  {
    if !Special(path) && Comps(path) != [] {
      var q := Comps(path);
      CompsGood(path);
      var front := DropLast(q);
      PrefixesAre(front, front);
      forall p | p in Prefixes(front) ensures AllGood(p) && (p != [] ==> DropLast(p) in Prefixes(front)) {
        PrefixesAre(front, p);
        if p != [] { PrefixesAre(front, DropLast(p)); }
      }
    }
  }

  // ---- Cross references ----

  /** The paths the cross-reference check knows: special objects, and the rebuilt paths of folders and
      files. */
  ghost predicate Known(c: Contents, path: string) {
    path in c.objects || (Canonical(path) && (Comps(path) in c.dirs || Comps(path) in c.files))
  }

  ghost predicate Clean(c: Contents) {
    forall e :: e in c.extents ==> Known(c, e.path)
  }

  lemma {:induction false} WithoutPathIs(rows: seq<ExtentRow>, path: string, e: ExtentRow)
    ensures e in WithoutPath(rows, path) <==> e in rows && e.path != path
  {
    if rows != [] {
      WithoutPathIs(rows[1..], path, e);
      assert rows == [rows[0]] + rows[1..];
    }
  }

  lemma {:induction false} RowsOfPath(path: string, spans: seq<Span>, now: int)
    ensures forall e :: e in RowsOf(path, spans, now) ==> e.path == path
    ensures spans != [] ==> exists e :: e in RowsOf(path, spans, now)
  {
    if spans != [] {
      RowsOfPath(path, DropLast(spans), now);
      var s := Last(spans);
      assert ExtentRow(path, s.offset, s.length, s.status, now) in RowsOf(path, spans, now);
    }
  }

  /** Which rows a path has after its ledger was replaced. */
  lemma {:induction false} ReplacedRows(c: Contents, path: string, spans: seq<Span>, now: int, e: ExtentRow)
    ensures e in Replaced(c, path, spans, now).extents <==>
            (e in c.extents && e.path != path) || e in RowsOf(path, spans, now)
    ensures e in RowsOf(path, spans, now) ==> e.path == path
  {
    WithoutPathIs(c.extents, path, e);
    RowsOfPath(path, spans, now);
  }

  /** Storing records never makes a path unknown. */
  lemma {:induction false} UpsertKnows(c: Contents, path: string, f: Facts, q: string)
    ensures Known(c, q) ==> Known(Upserted(c, path, f), q) && Known(Opened(c, path), q)
  {
  }

  lemma {:induction false} UpsertClean(c: Contents, path: string, f: Facts)
    requires Clean(c)
    ensures Clean(Upserted(c, path, f)) && Clean(Opened(c, path))
  {
    forall e | e in c.extents ensures Known(Upserted(c, path, f), e.path) && Known(Opened(c, path), e.path) {
      UpsertKnows(c, path, f, e.path);
    }
  }

  /** Recording a rewrite keeps the catalog clean exactly when nothing failed, or the path is special,
      or it is the canonical path of a file, or of the root where there is one. */
  lemma {:induction false} RewriteClean(c: Contents, path: string, size: int, spans: seq<Span>, now: int)
    requires WellFormed(c) && Clean(c)
    ensures Clean(Rewritten(c, path, size, spans, now)) <==>
            spans == [] || Special(path) || (Canonical(path) && (Comps(path) != [] || [] in c.dirs))
  {
    var r := Rewritten(c, path, size, spans, now);
    RewriteKnows(c, path, size, spans, now);
    RowsOfPath(path, spans, now);
    forall e ensures e in r.extents <==> (e in c.extents && e.path != path) || e in RowsOf(path, spans, now) {
      ReplacedRows(c, path, spans, now, e);
    }
    if spans != [] {
      var e :| e in RowsOf(path, spans, now);
      assert e in r.extents && e.path == path;
    }
  }

  lemma {:induction false} RewriteKnows(c: Contents, path: string, size: int, spans: seq<Span>, now: int)
    requires WellFormed(c)
    ensures Rewritten(c, path, size, spans, now).extents == Replaced(c, path, spans, now).extents
    ensures forall q :: Known(c, q) ==> Known(Rewritten(c, path, size, spans, now), q)
    ensures Known(Rewritten(c, path, size, spans, now), path) <==>
            Special(path) || (Canonical(path) && (Comps(path) != [] || [] in c.dirs))
  {
    var o := Replaced(c, path, spans, now);
    var r := Opened(o, path);
    var f := Massaged(Base(r, path), size, now);
    forall q ensures Known(c, q) ==> Known(Upserted(r, path, f), q) {
      UpsertKnows(o, path, f, q);
      UpsertKnows(r, path, f, q);
    }
  }

  /** The rows of a path, in order. */
  function RowsAt(rows: seq<ExtentRow>, path: string): seq<ExtentRow> {
    if rows == [] then []
    else RowsAt(DropLast(rows), path) + if Last(rows).path == path then [Last(rows)] else []
  }

  lemma {:induction false} RowsAtAppend(a: seq<ExtentRow>, b: seq<ExtentRow>, path: string)
    ensures RowsAt(a + b, path) == RowsAt(a, path) + RowsAt(b, path)
  {
    if b == [] {
      assert a + b == a;
    } else {
      RowsAtAppend(a, DropLast(b), path);
      assert DropLast(a + b) == a + DropLast(b) && Last(a + b) == Last(b);
    }
  }

  lemma {:induction false} RowsAtWithout(rows: seq<ExtentRow>, path: string, q: string)
    ensures RowsAt(WithoutPath(rows, path), q) == if q == path then [] else RowsAt(rows, q)
    decreases |rows|
  {
    if rows != [] {
      RowsAtWithout(rows[1..], path, q);
      assert rows == [rows[0]] + rows[1..] && DropLast([rows[0]]) == [];
      RowsAtAppend([rows[0]], rows[1..], q);
      RowsAtAppend([rows[0]], WithoutPath(rows[1..], path), q);
      assert RowsAt([rows[0]], q) == if rows[0].path == q then [rows[0]] else [];
    }
  }

  lemma {:induction false} RowsOfAre(path: string, spans: seq<Span>, now: int)
    ensures forall k :: 0 <= k < |spans| ==>
              RowsOf(path, spans, now)[k] == ExtentRow(path, spans[k].offset, spans[k].length, spans[k].status, now)
  {
    if spans != [] {
      RowsOfAre(path, DropLast(spans), now);
      assert forall k :: 0 <= k < |spans| - 1 ==> DropLast(spans)[k] == spans[k];
    }
  }

  lemma {:induction false} RowsAtOne(rows: seq<ExtentRow>, path: string, q: string)
    requires forall k :: 0 <= k < |rows| ==> rows[k].path == path
    ensures RowsAt(rows, q) == if q == path then rows else []
  {
    if rows != [] {
      RowsAtOne(DropLast(rows), path, q);
      SplitLast(rows);
    }
  }

  /** After the rows of a path were replaced they are the new ones, in order and with the new spans, and those
      of every other path are as before. */
  lemma {:induction false} ReplacedAt(c: Contents, path: string, spans: seq<Span>, now: int)
    ensures var rows := RowsAt(Replaced(c, path, spans, now).extents, path);
            && |rows| == |spans|
            && forall k :: 0 <= k < |spans| ==>
                 rows[k] == ExtentRow(path, spans[k].offset, spans[k].length, spans[k].status, now)
    ensures forall q :: q != path ==> RowsAt(Replaced(c, path, spans, now).extents, q) == RowsAt(c.extents, q)
  {
    RowsOfAre(path, spans, now);
    forall q ensures RowsAt(Replaced(c, path, spans, now).extents, q) ==
                     if q == path then RowsOf(path, spans, now) else RowsAt(c.extents, q)
    {
      RowsAtAppend(WithoutPath(c.extents, path), RowsOf(path, spans, now), q);
      RowsAtWithout(c.extents, path, q);
      RowsAtOne(RowsOf(path, spans, now), path, q);
    }
  }

  /** A record after it was counted as massaged: size and time are the new ones, the count is one higher, and
      nothing else changes. */
  lemma {:induction false} MassageCounts(c: Contents, path: string, size: int, now: int)
    requires Nameable(path)
    ensures var r := Lookup(Upserted(Opened(c, path), path, Massaged(Base(c, path), size, now)), path);
            var was := if Lookup(c, path).Some? then Lookup(c, path).value else Facts(None, 0, 0, 0, 0, 0, 0);
            && r.Some? && r.value.size == size && r.value.lastMassage == now
            && r.value.massageCount == was.massageCount + 1 && r.value.sha1 == was.sha1
            && r.value.verifyStatus == was.verifyStatus && r.value.verifyCount == was.verifyCount
            && r.value.verifiedAt == was.verifiedAt
  {
    LookupUpserted(Opened(c, path), path, Massaged(Base(c, path), size, now), path);
  }

  /** So it is after a rewrite was recorded, with or without errors. */
  lemma {:induction false} RewriteCounts(c: Contents, path: string, size: int, spans: seq<Span>, now: int)
    requires Nameable(path)
    ensures var r := Lookup(Rewritten(c, path, size, spans, now), path);
            var was := if Lookup(c, path).Some? then Lookup(c, path).value else Facts(None, 0, 0, 0, 0, 0, 0);
            r == Some(Facts(was.sha1, size, now, was.massageCount + 1, was.verifyStatus, was.verifyCount,
                            was.verifiedAt))
  {
    MassageCounts(Replaced(c, path, spans, now), path, size, now);
  }

  /** A record after a verification: status and time are the new ones, the count is one higher, the SHA-1 is the
      one that was found, if any, and nothing else changes. */
  lemma {:induction false} VerifyCounts(c: Contents, path: string, status: int, found: Option<seq<byte>>, now: int)
    requires Nameable(path)
    ensures var r := Lookup(Upserted(Opened(c, path), path, Verified(Base(c, path), status, found, now)), path);
            var was := if Lookup(c, path).Some? then Lookup(c, path).value else Facts(None, 0, 0, 0, 0, 0, 0);
            && r.Some? && r.value.verifyStatus == status && r.value.verifiedAt == now
            && r.value.verifyCount == was.verifyCount + 1
            && r.value.sha1 == (if found.Some? then found else was.sha1)
            && r.value.size == was.size && r.value.lastMassage == was.lastMassage
            && r.value.massageCount == was.massageCount
  {
    LookupUpserted(Opened(c, path), path, Verified(Base(c, path), status, found, now), path);
  }

  /** A new SHA-1 changes nothing else of a record. */
  lemma {:induction false} Sha1Set(c: Contents, path: string, sha1: seq<byte>)
    requires Nameable(path)
    ensures var r := Lookup(Upserted(Opened(c, path), path, Base(c, path).(sha1 := Some(sha1))), path);
            var was := if Lookup(c, path).Some? then Lookup(c, path).value else Facts(None, 0, 0, 0, 0, 0, 0);
            r == Some(Facts(Some(sha1), was.size, was.lastMassage, was.massageCount, was.verifyStatus, was.verifyCount,
                            was.verifiedAt))
  {
    LookupUpserted(Opened(c, path), path, Base(c, path).(sha1 := Some(sha1)), path);
  }

  /** After a rewrite was recorded, the extents of its path are exactly the recorded ones. */
  lemma {:induction false} LedgerKept(c: Contents, path: string, size: int, spans: seq<Span>, now: int, e: ExtentRow)
    ensures e in Rewritten(c, path, size, spans, now).extents && e.path == path <==> e in RowsOf(path, spans, now)
    ensures e.path != path ==> (e in Rewritten(c, path, size, spans, now).extents <==> e in c.extents)
  {
    ReplacedRows(c, path, spans, now, e);
  }

  /** Deleting a record keeps the catalog clean exactly when it is a special object, or no such file is
      there, or the path is canonical, or no extent is stored under the file's canonical path, or a
      folder has that path too. */
  lemma {:induction false} DeleteClean(c: Contents, path: string)
    requires WellFormed(c) && Clean(c)
    ensures Clean(FileDeleted(c, path)) <==>
            || Special(path) || Comps(path) !in c.files || Canonical(path)
            || Comps(path) in c.dirs || (forall e :: e in c.extents ==> e.path != Rebuild(Comps(path)))
  {
    var r := FileDeleted(c, path);
    var p := Comps(path);
    CompsGood(path);
    CompsRebuild(p);
    RebuildPlain(p);
    forall e ensures e in WithoutPath(c.extents, path) <==> e in c.extents && e.path != path {
      WithoutPathIs(c.extents, path, e);
    }
    if !Special(path) && p in c.files {
      forall q ensures Known(r, q) <==> Known(c, q) && (q != Rebuild(p) || p in c.dirs) {
        StillKnown(c, path, q);
      }
    }
  }

  /** What the deletion of a file leaves known. */
  lemma {:induction false} StillKnown(c: Contents, path: string, q: string)
    requires WellFormed(c) && !Special(path) && Comps(path) in c.files
    ensures Known(FileDeleted(c, path), q) <==> Known(c, q) && (q != Rebuild(Comps(path)) || Comps(path) in c.dirs)
  {
    CompsGood(path);
    CompsRebuild(Comps(path));
    RebuildPlain(Comps(path));
    assert [] in c.dirs by { RootThere(c, DropLast(Comps(path))); }
  }

  lemma {:induction false} RootThere(c: Contents, p: seq<string>)
    requires WellFormed(c) && p in c.dirs
    ensures [] in c.dirs
    decreases |p|
  {
    if p != [] { RootThere(c, DropLast(p)); }
  }

  /** "//a" names the file "/a" without being its canonical path. */
  lemma {:induction false} DoubledSlash()
    ensures Comps("//a") == ["a"] && Comps("/a") == ["a"] && Rebuild(["a"]) == "/a"
    ensures AllGood(["a"]) && DropLast(["a"]) == []
  {
    CompsName("");
    CompsName("a");
    assert "/" + "/" + "a" == "//a" && "" + "/" + "" == "/" && "" + "/" + "a" == "/a";
    CompsSlash("", "a");
    CompsSlash("/", "a");
    CompsSlash("", "");
    assert DropLast(["a"]) == [] && Last(["a"]) == "a";
  }

  /** A path that is not canonical deletes the file and leaves its extents behind. The file browser only
      passes canonical paths. */
  lemma {:induction false} DeleteLeavesOrphan(e: ExtentRow, c: Contents)
    requires e.path == "/a" && c == Contents(map[["a"] := NO_FACTS], {[]}, map[], [e])
    ensures WellFormed(c) && Clean(c) && !Clean(FileDeleted(c, "//a"))
  {
    DoubledSlash();
    assert e in c.extents;
    DeleteClean(c, "//a");
  }

  /** Deleting a folder keeps the catalog clean exactly when every extent is special, or its path lies
      outside the folder, or it is the folder's own path and a file has that path too. */
  lemma {:induction false} FolderDeleteClean(c: Contents, top: seq<string>)
    requires WellFormed(c) && Clean(c)
    ensures Clean(FolderDeleted(c, top)) <==>
            forall e :: e in c.extents ==>
              Special(e.path) || !(top <= Comps(e.path)) || (Comps(e.path) == top && top in c.files)
  {
    forall e | e in c.extents
      ensures Known(FolderDeleted(c, top), e.path) <==>
              Special(e.path) || !(top <= Comps(e.path)) || (Comps(e.path) == top && top in c.files)
    {
      assert Known(c, e.path);
      if Special(e.path) && Canonical(e.path) { RebuildPlain(Comps(e.path)); }
      FrontOutside(top, Comps(e.path));
    }
  }

  lemma {:induction false} FrontOutside(top: seq<string>, p: seq<string>)
    ensures InFolder(p, top) <==> top <= p && p != top
  {
    if p != [] && top <= p && p != top { assert top <= DropLast(p); }
    if p != [] && top <= DropLast(p) { assert DropLast(p) <= p; }
  }

  lemma {:induction false} FolderAndFile()
    ensures Comps("/d/a") == ["d", "a"] && Comps("/d") == ["d"] && Rebuild(["d", "a"]) == "/d/a"
    ensures AllGood(["d"]) && AllGood(["d", "a"]) && DropLast(["d"]) == [] && DropLast(["d", "a"]) == ["d"]
  {
    CompsName("");
    CompsName("d");
    CompsName("a");
    assert "" + "/" + "d" == "/d" && "/d" + "/" + "a" == "/d/a";
    CompsSlash("", "d");
    CompsSlash("/d", "a");
    assert [] + ["d"] == ["d"] && ["d"] + ["a"] == ["d", "a"];
    assert DropLast(["d"]) == [] && Last(["d"]) == "d";
    assert DropLast(["d", "a"]) == ["d"] && Last(["d", "a"]) == "a";
    assert Slashed(["d"]) == "/d";
  }

  /** Deleting the folder "d" leaves the extents of the file "/d/a" that went with it. */
  lemma {:induction false} FolderDeleteLeavesOrphan(e: ExtentRow, c: Contents)
    requires e.path == "/d/a" && c == Contents(map[["d", "a"] := NO_FACTS], {[], ["d"]}, map[], [e])
    ensures WellFormed(c) && Clean(c) && !Clean(FolderDeleted(c, ["d"]))
  {
    FolderAndFile();
    assert e in c.extents;
    FolderDeleteClean(c, ["d"]);
  }

  /** The path the FAT scan gives a file with a blank short name in the folder "d". */
  lemma {:induction false} BlankName()
    ensures Comps("/d/") == ["d"] && !Canonical("/d/") && !Special("/d/")
  {
    FolderAndFile();
    CompsName("");
    assert "/d" + "/" + "" == "/d/";
    CompsSlash("/d", "");
    assert Slashed(["d"]) == Slashed([]) + "/" + "d" by { assert DropLast(["d"]) == [] && Last(["d"]) == "d"; }
  }

  /** Recording a failure for it makes a clean catalog unclean. */
  lemma {:induction false} RewriteLeavesOrphan(c: Contents, size: int, span: Span, now: int)
    requires WellFormed(c) && Clean(c)
    ensures !Clean(Rewritten(c, "/d/", size, [span], now))
  {
    BlankName();
    RewriteClean(c, "/d/", size, [span], now);
  }

  // ---- Listing ----

  /** All records by the path they are listed under. */
  ghost function Listing(c: Contents): (m: map<string, Facts>)
    requires WellFormed(c)
  {
    ListedFound(c);
    map q | q in ListedPaths(c) :: Lookup(c, q).value
  }

  ghost function ListedPaths(c: Contents): set<string> {
    c.objects.Keys + set p | p in c.files :: Rebuild(p)
  }

  lemma {:induction false} ListedFound(c: Contents)
    requires WellFormed(c)
    ensures forall q :: q in ListedPaths(c) ==> Lookup(c, q).Some?
  {
    forall q | q in ListedPaths(c) ensures Lookup(c, q).Some? {
      if q !in c.objects {
        var p :| p in c.files && Rebuild(p) == q;
        CompsRebuild(p);
        RebuildPlain(p);
      }
    }
  }

  /** What is listed under a path is what looking that path up finds, and whatever a path finds is listed
      under its canonical form. */
  lemma {:induction false} ListingIsLookup(c: Contents, path: string)
    requires WellFormed(c)
    ensures path in Listing(c) <==> Lookup(c, path).Some? && (Special(path) || Canonical(path))
    ensures path in Listing(c) ==> Listing(c)[path] == Lookup(c, path).value
    ensures Lookup(c, path).Some? ==>
              var q := if Special(path) then path else Rebuild(Comps(path));
              q in Listing(c) && Listing(c)[q] == Lookup(c, path).value
  {
    ListedFound(c);
    if path in ListedPaths(c) && path !in c.objects {
      var p :| p in c.files && Rebuild(p) == path;
      CompsRebuild(p);
    }
    if Lookup(c, path).Some? && !Special(path) {
      CompsGood(path);
      CompsRebuild(Comps(path));
      RebuildPlain(Comps(path));
      assert Rebuild(Comps(path)) in ListedPaths(c);
    }
  }
}
