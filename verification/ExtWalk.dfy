/** The depth-first directory walk of the ext scanner (src/fs/ext.cpp, `walk_dir`). */
module ExtWalk {
  import opened Extents
  import opened Options

  datatype Kind = Regular | Directory | Other

  /** A directory record as the record loop meets it. */
  datatype Dirent = Dirent(child: nat, name: string) {
    /** Records the walk follows: in use, named, and not the self or parent link. */
    predicate Followed() { child != 0 && name != "" && name != "." && name != ".." }
  }

  /** A readable inode. `extents` is None when its block map cannot be parsed, `entries` when the
      directory's data cannot be read. */
  datatype Inode = Inode(kind: Kind, size: nat, extents: Option<seq<Extent>>, entries: Option<seq<Dirent>>)

  /** The inodes that can be read; any other number fails. */
  type Volume = map<nat, Inode>

  /** Directory a has a followed record with this name and child. */
  ghost predicate Link(vol: Volume, a: nat, name: string, b: nat) {
    && a in vol && vol[a].kind.Directory? && vol[a].entries.Some?
    && b != 0 && name != "" && name != "." && name != ".."
    && exists i :: 0 <= i < |vol[a].entries.value| && vol[a].entries.value[i] == Dirent(b, name)
  }

  /** The names lead from `root` to `ino`, record by record. */
  ghost predicate Route(vol: Volume, root: nat, names: seq<string>, ino: nat)
    decreases |names|
  {
    if names == [] then ino == root
    else exists mid :: Route(vol, root, DropLast(names), mid) && Link(vol, mid, Last(names), ino)
  }

  ghost predicate Reachable(vol: Volume, root: nat, ino: nat) { exists names :: Route(vol, root, names, ino) }

  /** The path text of a list of names. */
  function Spell(names: seq<string>): string {
    if names == [] then "" else Spell(DropLast(names)) + "/" + Last(names)
  }

  /** Regular files and directories are listed. */
  predicate Listed(vol: Volume, ino: nat) { ino in vol && !vol[ino].kind.Other? }

  /** The object listed for an inode reached under `prefix`. */
  function ObjectFor(n: Inode, prefix: string): FsObject
    requires n.extents.Some?
  {
    FsObject(if n.kind.Directory? && prefix == "" then "/" else prefix, n.size, n.extents.value)
  }

  /** All followed records among the first n of a directory lead into `seen`. */
  ghost predicate Closed(es: seq<Dirent>, n: nat, seen: set<nat>)
    requires n <= |es|
  {
    forall i :: 0 <= i < n && es[i].Followed() ==> es[i].child in seen
  }

  /** A finished inode: its extents were read and, for a directory, all its records were walked. */
  ghost predicate Finished(vol: Volume, seen: set<nat>, ino: nat) {
    && ino in vol && vol[ino].extents.Some?
    && (vol[ino].kind.Directory? ==>
          vol[ino].entries.Some? && Closed(vol[ino].entries.value, |vol[ino].entries.value|, seen))
  }

  /** What the walk can do nothing with: an inode that cannot be read or whose blocks cannot be found, or
      a directory whose records cannot be read. */
  ghost predicate Broken(vol: Volume, ino: nat) {
    ino !in vol || vol[ino].extents.None? || (vol[ino].kind.Directory? && vol[ino].entries.None?)
  }

  lemma {:induction false} RouteSnoc(vol: Volume, root: nat, names: seq<string>, mid: nat, name: string, ino: nat)
    requires Route(vol, root, names, mid) && Link(vol, mid, name, ino)
    ensures Route(vol, root, names + [name], ino) && Spell(names + [name]) == Spell(names) + "/" + name
  {
    assert DropLast(names + [name]) == names && Last(names + [name]) == name;
  }

  /** The object lists this inode under a path that leads to it. */
  ghost predicate ListedFor(vol: Volume, root: nat, ino: nat, o: FsObject) {
    && ino in vol && vol[ino].extents.Some?
    && o.size == vol[ino].size && o.extents == vol[ino].extents.value
    && exists names :: Route(vol, root, names, ino) && o.path == PathFor(names, vol[ino].kind)
  }

  /** The root directory is "/". */
  function PathFor(names: seq<string>, kind: Kind): string {
    if names == [] && kind.Directory? then "/" else Spell(names)
  }

  /** The state of one scan: inodes met so far and objects listed so far. */
  class Walker {
    const vol: Volume
    const root: nat
    var seen: set<nat>
    var objects: seq<FsObject>
    ghost var owners: seq<nat>

    /** Object k was listed for inode owners[k], under a path that leads to it from the root; each
        listed inode has one object; exactly the listed inodes met so far have one. */
    ghost predicate Valid()
      reads this
    {
      && |owners| == |objects| && Distinct(owners)
      && (forall k :: 0 <= k < |owners| ==> ListedFor(vol, root, owners[k], objects[k]))
      && (forall v :: v in owners ==> v in seen && Listed(vol, v))
    }

    /** Every inode met since `before` is reachable and finished, `busy` ones aside, and listed if it
        is a file or directory. */
    ghost predicate Progress(before: set<nat>, busy: set<nat>)
      reads this
    {
      && before <= seen
      && forall v :: v in seen - before ==>
           && Reachable(vol, root, v) && (v in busy || Finished(vol, seen, v)) && (Listed(vol, v) ==> v in owners)
    }

    constructor (vol: Volume, root: nat)
      ensures Valid() && seen == {} && objects == [] && this.vol == vol && this.root == root
    {
      this.vol, this.root := vol, root;
      seen, objects, owners := {}, [], [];
    }

    method Push(ino: nat, prefix: string, ghost names: seq<string>)
      requires Valid() && ino in seen && ino !in owners && Listed(vol, ino) && vol[ino].extents.Some?
      requires Route(vol, root, names, ino) && prefix == Spell(names)
      modifies this`objects, this`owners
      ensures Valid() && owners == old(owners) + [ino]
      ensures objects == old(objects) + [ObjectFor(vol[ino], prefix)]
    {
      objects := objects + [ObjectFor(vol[ino], prefix)];
      owners := owners + [ino];
    }

    /** Walks one inode. It returns on every directory graph, since `seen` only grows. */
    method WalkDir(ino: nat, prefix: string, ghost names: seq<string>) returns (ok: bool)
      requires Valid() && Route(vol, root, names, ino) && prefix == Spell(names)
      modifies this
      ensures Valid() && old(seen) <= seen && old(owners) <= owners && old(objects) <= objects
      ensures ok ==> ino in seen && Progress(old(seen), {})
      ensures !ok ==> exists v :: Reachable(vol, root, v) && Broken(vol, v)
      decreases vol.Keys - seen, 0
    {
      if ino in seen {
        return true;
      }
      assert Reachable(vol, root, ino);
      seen := seen + {ino};
      if ino !in vol || vol[ino].extents.None? {
        return false;
      }
      assert ino in (vol.Keys - old(seen)) && ino !in (vol.Keys - seen);
      if vol[ino].kind.Regular? {
        Push(ino, prefix, names);
        return true;
      }
      if vol[ino].kind.Other? {
        return true;
      }
      Push(ino, prefix, names);
      if vol[ino].entries.None? {
        return false;
      }
      ok := WalkEntries(ino, prefix, names, old(seen));
    }

    /** Walks the records of a directory that has just been listed. */
    method WalkEntries(ino: nat, prefix: string, ghost names: seq<string>, ghost before: set<nat>) returns (ok: bool)
      requires Valid() && Route(vol, root, names, ino) && prefix == Spell(names)
      requires ino in vol && vol[ino].kind.Directory? && vol[ino].entries.Some? && vol[ino].extents.Some?
      requires ino in seen && Progress(before, {ino})
      modifies this
      ensures Valid() && old(seen) <= seen && old(owners) <= owners && old(objects) <= objects
      ensures ok ==> Progress(before, {})
      ensures !ok ==> exists v :: Reachable(vol, root, v) && Broken(vol, v)
      decreases vol.Keys - seen, 1
    {
      var es := vol[ino].entries.value;
      for n := 0 to |es|
        invariant Valid() && old(seen) <= seen && old(owners) <= owners && old(objects) <= objects
        invariant Progress(before, {ino}) && Closed(es, n, seen)
      {
        if es[n].Followed() {
          assert Link(vol, ino, es[n].name, es[n].child);
          RouteSnoc(vol, root, names, ino, es[n].name, es[n].child);
          assert vol.Keys - seen <= vol.Keys - old(seen);
          var good := WalkDir(es[n].child, prefix + "/" + es[n].name, names + [es[n].name]);
          if !good {
            return false;
          }
        }
      }
      return true;
    }
  }

  /** Scans a volume from its root inode. The walk succeeds exactly when nothing reachable is broken.
      Then the inodes met are exactly the ones reachable from the root, and each reachable file or
      directory has exactly one object, under a path that leads to it. */
  method Scan(vol: Volume, root: nat)
    returns (ok: bool, objects: seq<FsObject>, ghost owners: seq<nat>, ghost visited: set<nat>)
    ensures ok <==> forall v :: Reachable(vol, root, v) ==> !Broken(vol, v)
    ensures ok ==> forall v :: v in visited <==> Reachable(vol, root, v)
    ensures ok ==> |owners| == |objects| && Distinct(owners)
    ensures ok ==> forall v :: v in owners <==> v in visited && (vol[v].kind.Regular? || vol[v].kind.Directory?)
    ensures ok ==> forall k :: 0 <= k < |owners| ==> ListedFor(vol, root, owners[k], objects[k])
  {
    var w := new Walker(vol, root);
    assert Route(vol, root, [], root);
    ok := w.WalkDir(root, "", []);
    objects, owners, visited := w.objects, w.owners, w.seen;
    if ok {
      forall v | Reachable(vol, root, v) ensures v in w.seen && Finished(vol, w.seen, v) {
        var names :| Route(vol, root, names, v);
        SeenHoldsReachable(vol, root, w.seen, names, v);
      }
    }
  }

  /** A set of finished inodes that holds the root holds everything reachable. */
  lemma {:induction false} SeenHoldsReachable(vol: Volume, root: nat, seen: set<nat>, names: seq<string>, ino: nat)
    requires root in seen && Route(vol, root, names, ino)
    requires forall v :: v in seen ==> Finished(vol, seen, v)
    ensures ino in seen
    decreases |names|
  {
    if names != [] {
      var mid :| Route(vol, root, DropLast(names), mid) && Link(vol, mid, Last(names), ino);
      SeenHoldsReachable(vol, root, seen, DropLast(names), mid);
      assert Finished(vol, seen, mid);
    }
  }
}
