/** Catalog paths: splitting into components and rebuilding (src/db/store.cpp). */
module Paths {
  import opened Extents

  /** Paths of objects that are not files start with two colons. */
  predicate Special(path: string) {
    |path| >= 2 && path[0] == ':' && path[1] == ':'
  }

  /** What a path component may be. */
  predicate GoodName(s: string) {
    s != "" && '/' !in s
  }

  ghost predicate AllGood(c: seq<string>) {
    forall i :: 0 <= i < |c| ==> GoodName(c[i])
  }

  function Flush(cur: string): seq<string> {
    if cur == "" then [] else [cur]
  }

  /** The components of `cur` followed by `s`, where `cur` holds the characters since the last slash. */
  function Cut(cur: string, s: string): seq<string>
    decreases |s|
  {
    if s == "" then Flush(cur)
    else if s[0] == '/' then Flush(cur) + Cut("", s[1..])
    else Cut(cur + [s[0]], s[1..])
  }

  /** The components of a path. CompsSlash and CompsName together determine this function. */
  function Comps(path: string): seq<string> {
    Cut("", path)
  }

  lemma {:induction false} CutSlash(cur: string, a: string, b: string)
    ensures Cut(cur, a + "/" + b) == Cut(cur, a) + Comps(b)
    decreases |a|
  {
    var s := a + "/" + b;
    if a == "" {
      assert s[1..] == b;
    } else {
      assert s[0] == a[0] && s[1..] == a[1..] + "/" + b;
      if a[0] == '/' {
        CutSlash("", a[1..], b);
      } else {
        CutSlash(cur + [a[0]], a[1..], b);
      }
    }
  }

  lemma {:induction false} CutName(cur: string, s: string)
    requires '/' !in s
    ensures Cut(cur, s) == Flush(cur + s)
    decreases |s|
  {
    if s == "" {
      assert cur + s == cur;
    } else {
      assert s[0] in s && s[0] != '/';
      CutName(cur + [s[0]], s[1..]);
      assert cur + [s[0]] + s[1..] == cur + s;
    }
  }

  /** A slash separates components. */
  lemma {:induction false} CompsSlash(a: string, b: string)
    ensures Comps(a + "/" + b) == Comps(a) + Comps(b)
  {
    CutSlash("", a, b);
  }

  /** A text without slashes is one component, or none when it is empty. */
  lemma {:induction false} CompsName(s: string)
    requires '/' !in s
    ensures Comps(s) == if s == "" then [] else [s]
  {
    CutName("", s);
    assert "" + s == s;
  }

  lemma {:induction false} CutGood(cur: string, s: string)
    requires '/' !in cur
    ensures AllGood(Cut(cur, s))
    decreases |s|
  {
    if s != "" {
      if s[0] == '/' {
        CutGood("", s[1..]);
      } else {
        CutGood(cur + [s[0]], s[1..]);
      }
    }
  }

  /** Components are never empty and hold no slash. */
  lemma {:induction false} CompsGood(path: string)
    ensures AllGood(Comps(path))
  {
    CutGood("", path);
  }

  /** split_file_path: the folders on the way, and the base name; no base name when there is no
      component at all. */
  method SplitFilePath(path: string) returns (dirs: seq<string>, base: string)
    ensures base == "" <==> Comps(path) == []
    ensures Comps(path) == [] ==> dirs == []
    ensures Comps(path) != [] ==> Comps(path) == dirs + [base]
  {
    var p := path;
    while p != "" && p[0] == '/'
      invariant Comps(p) == Comps(path)
      decreases |p|
    {
      p := p[1..];
    }
    while p != "" && p[|p| - 1] == '/'
      invariant Comps(p) == Comps(path)
      decreases |p|
    {
      assert p == p[..|p| - 1] + "/" + "";
      CompsSlash(p[..|p| - 1], "");
      p := p[..|p| - 1];
    }
    var parts: seq<string>, cur := [], "";
    for i := 0 to |p|
      invariant Comps(path) == parts + Cut(cur, p[i..])
    {
      assert p[i..][0] == p[i] && p[i..][1..] == p[i + 1..];
      if p[i] == '/' {
        if cur != "" {
          parts := parts + [cur];
        }
        cur := "";
      } else {
        cur := cur + [p[i]];
      }
    }
    if cur != "" {
      parts := parts + [cur];
    }
    assert Comps(path) == parts;
    CompsGood(path);
    if parts == [] {
      return [], "";
    }
    base := parts[|parts| - 1];
    dirs := parts[..|parts| - 1];
  }

  function Slashed(c: seq<string>): string {
    if c == [] then "" else Slashed(DropLast(c)) + "/" + Last(c)
  }

  /** The one canonical path with these components. */
  function Rebuild(c: seq<string>): string {
    if c == [] then "/" else Slashed(c)
  }

  lemma {:induction false} CompsSlashed(c: seq<string>)
    requires AllGood(c)
    ensures Comps(Slashed(c)) == c
  {
    if c == [] {
      CompsName("");
    } else {
      assert AllGood(DropLast(c)) && c[|c| - 1] == Last(c);
      CompsSlashed(DropLast(c));
      CompsSlash(Slashed(DropLast(c)), Last(c));
      CompsName(Last(c));
    }
  }

  /** Splitting a rebuilt path gives back the same components. */
  lemma {:induction false} CompsRebuild(c: seq<string>)
    requires AllGood(c)
    ensures Comps(Rebuild(c)) == c
  {
    if c == [] {
      assert "/" == "" + "/" + "";
      CompsSlash("", "");
      CompsName("");
    } else {
      CompsSlashed(c);
    }
  }

  lemma {:induction false} SlashedFront(c: seq<string>)
    requires c != []
    ensures Slashed(c) != "" && Slashed(c)[0] == '/'
  {
    if |c| > 1 { SlashedFront(DropLast(c)); }
  }

  /** A rebuilt path is never special. */
  lemma {:induction false} RebuildPlain(c: seq<string>)
    ensures !Special(Rebuild(c))
  {
    if c != [] { SlashedFront(c); }
  }

  /** A path that is the rebuilt path of its own components. */
  predicate Canonical(path: string) {
    path == Rebuild(Comps(path))
  }

  /** The recursive query's path column: no leading slash, and nothing for the root. */
  function Joined(rel: string, name: string): string {
    if rel == "" then name else rel + "/" + name
  }

  function RelPath(c: seq<string>): string {
    if c == [] then "" else Joined(RelPath(DropLast(c)), Last(c))
  }

  /** The path the queries print for a row with relative path `rel`. */
  function FolderPath(rel: string): string {
    if rel == "" then "/" else "/" + rel
  }

  function FilePath(rel: string, base: string): string {
    if rel == "" then "/" + base else "/" + rel + "/" + base
  }

  lemma {:induction false} RelIsSlashed(c: seq<string>)
    requires AllGood(c)
    ensures c == [] <==> RelPath(c) == ""
    ensures c != [] ==> "/" + RelPath(c) == Slashed(c)
  {
    if c != [] {
      var front, name := DropLast(c), Last(c);
      assert AllGood(front) && c[|c| - 1] == name && name != "";
      RelIsSlashed(front);
      if front != [] {
        assert "/" + (RelPath(front) + "/" + name) == ("/" + RelPath(front)) + "/" + name;
      } else {
        assert Slashed(c) == "" + "/" + name;
      }
    }
  }

  /** The printed paths are the canonical ones. */
  lemma {:induction false} PrintedPaths(c: seq<string>, base: string)
    requires AllGood(c)
    ensures FolderPath(RelPath(c)) == Rebuild(c)
    ensures FilePath(RelPath(c), base) == Rebuild(c + [base])
  {
    RelIsSlashed(c);
    assert DropLast(c + [base]) == c && Last(c + [base]) == base;
    if c == [] {
      assert Slashed(c + [base]) == "" + "/" + base;
    } else {
      assert "/" + RelPath(c) + "/" + base == Slashed(c) + "/" + base;
    }
  }

  /** The flat map without the files in folders that extend `top`. */
  ghost function Pruned<T>(f: map<seq<string>, T>, top: seq<string>): map<seq<string>, T> {
    map p | p in f && !InFolder(p, top) :: f[p]
  }

  /** The path without its base name extends `top`. */
  predicate InFolder(p: seq<string>, top: seq<string>) {
    p != [] && top <= DropLast(p)
  }
}
