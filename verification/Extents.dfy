/** Byte extents on a device and the coalescing push_back that every filesystem scanner uses. */
module Extents {

  type byte = b: nat | b < 256

  const U64_MAX: nat := 0xFFFF_FFFF_FFFF_FFFF

  /** FsFileExtent: an absolute byte range of the device. */
  datatype Extent = Extent(offset: nat, length: nat) {
    function End(): nat { offset + length }
  }

  /** FsObject: one catalogued path with the extents to rewrite for it. */
  datatype FsObject = FsObject(path: string, size: nat, extents: seq<Extent>)

  function Last<T>(s: seq<T>): T
    requires s != []
  {
    s[|s| - 1]
  }

  function DropLast<T>(s: seq<T>): (r: seq<T>)
    requires s != []
    ensures |r| == |s| - 1
  {
    s[..|s| - 1]
  }

  /** The list after its first element, if it has one. */
  function Later<T>(s: seq<T>): seq<T> {
    if s == [] then [] else s[1..]
  }

  lemma {:induction false} SplitLast<T>(s: seq<T>)
    requires s != []
    ensures s == DropLast(s) + [Last(s)]
  {
  }

  lemma {:induction false} AppendLast<T>(a: seq<T>, b: seq<T>)
    requires b != []
    ensures a + b == a + DropLast(b) + [Last(b)]
  {
  }

  lemma {:induction false} Associates<T>(a: seq<T>, b: seq<T>, c: seq<T>)
    ensures (a + b) + c == a + (b + c)
  {
  }

  /** Appends one range, extending the last extent when the new range starts where it ends. */
  function Push(exts: seq<Extent>, e: Extent): seq<Extent> {
    if exts != [] && Last(exts).End() == e.offset
    then DropLast(exts) + [Extent(Last(exts).offset, Last(exts).length + e.length)]
    else exts + [e]
  }

  /** Pushes a list of ranges in order. */
  function PushAll(exts: seq<Extent>, es: seq<Extent>): seq<Extent> {
    if es == [] then exts else Push(PushAll(exts, DropLast(es)), Last(es))
  }

  function Run(e: Extent): (r: seq<nat>)
    ensures |r| == e.length
  {
    seq(e.length, i requires 0 <= i => e.offset + i)
  }

  /** The device bytes an extent list covers, in the order it covers them. */
  function Bytes(es: seq<Extent>): seq<nat> {
    if es == [] then [] else Bytes(DropLast(es)) + Run(Last(es))
  }

  function Total(es: seq<Extent>): nat {
    if es == [] then 0 else Total(DropLast(es)) + Last(es).length
  }

  /** The extents of all objects, in object order. */
  function AllExtents(objects: seq<FsObject>): seq<Extent> {
    if objects == [] then [] else AllExtents(DropLast(objects)) + Last(objects).extents
  }

  /** No two consecutive extents could still be merged. */
  ghost predicate Coalesced(es: seq<Extent>) {
    forall i :: 0 <= i < |es| - 1 ==> Gap(es, i)
  }

  ghost predicate Gap(es: seq<Extent>, i: nat)
    requires i < |es| - 1
  {
    es[i].End() != es[i + 1].offset
  }

  ghost predicate Distinct<T>(s: seq<T>) {
    forall i, j :: 0 <= i < j < |s| ==> s[i] != s[j]
  }

  ghost predicate Within(es: seq<Extent>, lo: nat, hi: nat) {
    forall i :: 0 <= i < |es| ==> lo <= es[i].offset && es[i].End() <= hi
  }

  /** Any two different extents of the list share no byte. */
  ghost predicate PairwiseDisjoint(es: seq<Extent>) {
    forall i, j :: 0 <= i < j < |es| ==> es[i].End() <= es[j].offset || es[j].End() <= es[i].offset
  }

  lemma {:induction false} PushAllSnoc(exts: seq<Extent>, es: seq<Extent>, e: Extent)
    ensures PushAll(exts, es + [e]) == Push(PushAll(exts, es), e)
  {
    assert DropLast(es + [e]) == es;
  }

  lemma {:induction false} PushAllAppend(exts: seq<Extent>, a: seq<Extent>, b: seq<Extent>)
    ensures PushAll(exts, a + b) == PushAll(PushAll(exts, a), b)
  {
    if b == [] {
      assert a + b == a;
    } else {
      PushAllAppend(exts, a, DropLast(b));
      assert a + b == (a + DropLast(b)) + [Last(b)];
      PushAllSnoc(exts, a + DropLast(b), Last(b));
    }
  }

  lemma {:induction false} PushAllCons(exts: seq<Extent>, e: Extent, rest: seq<Extent>)
    ensures PushAll(exts, [e] + rest) == PushAll(Push(exts, e), rest)
  {
    PushAllAppend(exts, [e], rest);
    assert PushAll(exts, [e]) == Push(exts, e) by { PushAllSnoc(exts, [], e); assert [] + [e] == [e]; }
  }

  lemma {:induction false} BytesAppend(a: seq<Extent>, b: seq<Extent>)
    ensures Bytes(a + b) == Bytes(a) + Bytes(b)
    ensures Total(a + b) == Total(a) + Total(b)
  {
    if b == [] {
      assert a + b == a;
    } else {
      BytesAppend(a, DropLast(b));
      assert DropLast(a + b) == a + DropLast(b);
      assert Last(a + b) == Last(b);
      assert Bytes(a + b) == (Bytes(a) + Bytes(DropLast(b))) + Run(Last(b));
      assert Bytes(b) == Bytes(DropLast(b)) + Run(Last(b));
    }
  }

  lemma {:induction false} BytesLength(es: seq<Extent>)
    ensures |Bytes(es)| == Total(es)
  {
    if es != [] { BytesLength(DropLast(es)); }
  }

  lemma {:induction false} PushBytes(exts: seq<Extent>, e: Extent)
    ensures Bytes(Push(exts, e)) == Bytes(exts) + Run(e)
    ensures Total(Push(exts, e)) == Total(exts) + e.length
    ensures Coalesced(exts) ==> Coalesced(Push(exts, e))
  {
    var r := Push(exts, e);
    if exts != [] && Last(exts).End() == e.offset {
      var l := Last(exts);
      assert DropLast(r) == DropLast(exts);
      assert Run(Last(r)) == Run(l) + Run(e);
      assert Bytes(r) == Bytes(DropLast(exts)) + (Run(l) + Run(e));
      if Coalesced(exts) {
        forall i | 0 <= i < |r| - 1 ensures Gap(r, i) { assert Gap(exts, i); }
      }
    } else {
      assert DropLast(r) == exts;
      if Coalesced(exts) {
        forall i | 0 <= i < |r| - 1 ensures Gap(r, i) { assert i < |exts| - 1 ==> Gap(exts, i); }
      }
    }
  }

  /** Coalescing keeps the byte sequence, keeps the total, and leaves nothing to merge. */
  lemma {:induction false} PushAllBytes(exts: seq<Extent>, es: seq<Extent>)
    ensures Bytes(PushAll(exts, es)) == Bytes(exts) + Bytes(es)
    ensures Total(PushAll(exts, es)) == Total(exts) + Total(es)
    ensures Coalesced(exts) ==> Coalesced(PushAll(exts, es))
  {
    if es != [] {
      PushAllBytes(exts, DropLast(es));
      PushBytes(PushAll(exts, DropLast(es)), Last(es));
    }
  }

  /** Pushing an already coalesced part is the same as pushing the ranges it was made from. */
  lemma {:induction false} PushAllMerged(exts: seq<Extent>, es: seq<Extent>)
    ensures PushAll(exts, PushAll([], es)) == PushAll(exts, es)
  {
    if es != [] {
      PushAllMerged(exts, DropLast(es));
      PushMerged(exts, PushAll([], DropLast(es)), Last(es));
    }
  }

  lemma {:induction false} PushMerged(exts: seq<Extent>, r: seq<Extent>, e: Extent)
    ensures PushAll(exts, Push(r, e)) == Push(PushAll(exts, r), e)
  {
    if r != [] && Last(r).End() == e.offset {
      var l := Last(r);
      PushAllSnoc(exts, DropLast(r), Extent(l.offset, l.length + e.length));
      PushMergeLast(PushAll(exts, DropLast(r)), l, e);
    } else {
      PushAllSnoc(exts, r, e);
    }
  }

  lemma {:induction false} PushMergeLast(exts: seq<Extent>, l: Extent, e: Extent)
    requires l.End() == e.offset
    ensures Push(exts, Extent(l.offset, l.length + e.length)) == Push(Push(exts, l), e)
  {
    var one := Push(exts, l);
    assert one != [] && Last(one).End() == e.offset;
    assert Push(one, e) == DropLast(one) + [Extent(Last(one).offset, Last(one).length + e.length)];
    if exts != [] && Last(exts).End() == l.offset {
      assert DropLast(one) == DropLast(exts);
    } else {
      assert DropLast(one) == exts;
    }
  }

  /** A byte is covered exactly when some extent of the list holds it. */
  lemma {:induction false} BytesMember(es: seq<Extent>, b: nat)
    ensures b in Bytes(es) <==> exists i :: 0 <= i < |es| && es[i].offset <= b < es[i].End()
  {
    if es != [] {
      var front, e := DropLast(es), Last(es);
      BytesMember(front, b);
      if e.offset <= b < e.End() {
        assert Run(e)[b - e.offset] == b;
        assert es[|es| - 1] == e;
      }
      if b in Bytes(front) {
        var i :| 0 <= i < |front| && front[i].offset <= b < front[i].End();
        assert es[i] == front[i];
      }
      if i :| 0 <= i < |es| && es[i].offset <= b < es[i].End() {
        if i < |front| { assert front[i] == es[i]; }
      }
    }
  }

  lemma {:induction false} DistinctSnoc(s: seq<nat>, e: Extent)
    requires Distinct(s)
    requires forall b :: b in s ==> !(e.offset <= b < e.End())
    ensures Distinct(s + Run(e))
  {
    var t := s + Run(e);
    forall i, j | 0 <= i < j < |t| ensures t[i] != t[j] {
      if i < |s| <= j { assert s[i] in s; }
    }
  }

  /** Disjoint ranges never name a byte twice. */
  lemma {:induction false} DisjointDistinct(es: seq<Extent>)
    requires PairwiseDisjoint(es)
    ensures Distinct(Bytes(es))
  {
    if es != [] {
      var front, e := DropLast(es), Last(es);
      DisjointDistinct(front);
      forall b | b in Bytes(front) ensures !(e.offset <= b < e.End()) {
        BytesMember(front, b);
        var i :| 0 <= i < |front| && front[i].offset <= b < front[i].End();
        assert es[i] == front[i] && es[|es| - 1] == e;
      }
      DistinctSnoc(Bytes(front), e);
    }
  }

  /** And the other way round: a list that never names a byte twice is pairwise disjoint,
      empty extents aside. */
  lemma {:induction false} DistinctDisjoint(es: seq<Extent>)
    requires Distinct(Bytes(es))
    requires forall i :: 0 <= i < |es| ==> es[i].length > 0
    ensures PairwiseDisjoint(es)
  {
    if es != [] {
      var front, e := DropLast(es), Last(es);
      DistinctParts(Bytes(front), Run(e));
      DistinctDisjoint(front);
      forall i | 0 <= i < |front| ensures es[i].End() <= e.offset || e.End() <= es[i].offset {
        assert front[i] == es[i];
        if !(es[i].End() <= e.offset || e.End() <= es[i].offset) {
          var b := if e.offset <= es[i].offset then es[i].offset else e.offset;
          RunMember(e, b);
          BytesMember(front, b);
          assert false;
        }
      }
    }
  }

  lemma {:induction false} DistinctParts(a: seq<nat>, b: seq<nat>)
    requires Distinct(a + b)
    ensures Distinct(a) && Distinct(b)
    ensures forall x :: x in a ==> x !in b
  {
    var s := a + b;
    forall i, j | 0 <= i < j < |a| ensures a[i] != a[j] { assert s[i] != s[j]; }
    forall i, j | 0 <= i < j < |b| ensures b[i] != b[j] { assert s[|a| + i] != s[|a| + j]; }
    forall x | x in a ensures x !in b {
      var i :| 0 <= i < |a| && a[i] == x;
      forall j | 0 <= j < |b| ensures b[j] != x { assert s[i] != s[|a| + j]; }
    }
  }

  lemma {:induction false} RunMember(e: Extent, b: nat)
    requires e.offset <= b < e.End()
    ensures b in Run(e)
  {
    assert Run(e)[b - e.offset] == b;
  }

  /** Pairwise disjoint pieces give pairwise disjoint merged extents. */
  lemma {:induction false} MergedDisjoint(es: seq<Extent>)
    requires PairwiseDisjoint(es)
    requires forall i :: 0 <= i < |es| ==> es[i].length > 0
    ensures PairwiseDisjoint(PushAll([], es))
  {
    DisjointDistinct(es);
    PushAllBytes([], es);
    PushAllPositive([], es);
    DistinctDisjoint(PushAll([], es));
  }

  lemma {:induction false} PushAllPositive(exts: seq<Extent>, es: seq<Extent>)
    requires forall i :: 0 <= i < |exts| ==> exts[i].length > 0
    requires forall i :: 0 <= i < |es| ==> es[i].length > 0
    ensures forall i :: 0 <= i < |PushAll(exts, es)| ==> PushAll(exts, es)[i].length > 0
  {
    if es != [] { PushAllPositive(exts, DropLast(es)); }
  }

  lemma {:induction false} PushAllWithin(exts: seq<Extent>, es: seq<Extent>, lo: nat, hi: nat)
    requires Within(exts, lo, hi) && Within(es, lo, hi)
    ensures Within(PushAll(exts, es), lo, hi)
  {
    if es != [] {
      PushAllWithin(exts, DropLast(es), lo, hi);
      assert es[|es| - 1] == Last(es);
      var r := PushAll(exts, DropLast(es));
      if r != [] { assert r[|r| - 1] == Last(r); }
    }
  }

  lemma {:induction false} DisjointAppend(a: seq<Extent>, b: seq<Extent>)
    requires PairwiseDisjoint(a) && PairwiseDisjoint(b)
    requires forall i, j :: 0 <= i < |a| && 0 <= j < |b| ==>
               a[i].End() <= b[j].offset || b[j].End() <= a[i].offset
    ensures PairwiseDisjoint(a + b)
  {
  }

  ghost function Elements<T>(s: seq<T>): set<T> {
    set x | x in s
  }

  /** A duplicate-free sequence is as long as the set of its elements. */
  lemma {:induction false} DistinctSize<T>(s: seq<T>)
    requires Distinct(s)
    ensures |Elements(s)| == |s|
  {
    if s != [] {
      var front := DropLast(s);
      DistinctSize(front);
      assert s == front + [Last(s)];
      assert Elements(s) == Elements(front) + {Last(s)};
    }
  }

  /** The numbers lo, lo + 1, ..., lo + n - 1. */
  ghost function Range(lo: nat, n: nat): (r: set<nat>)
    ensures forall x :: x in r <==> lo <= x < lo + n
    ensures |r| == n
  {
    if n == 0 then {} else Range(lo, n - 1) + {lo + n - 1}
  }

  lemma {:induction false} SubsetSize<T>(a: set<T>, b: set<T>)
    requires a <= b
    ensures |a| <= |b|
  {
    assert b == a + (b - a);
  }

  /** Pigeonhole: a duplicate-free list of numbers below a bound is no longer than the bound. */
  lemma {:induction false} DistinctBounded(s: seq<nat>, lo: nat, n: nat)
    requires Distinct(s)
    requires forall i :: 0 <= i < |s| ==> lo <= s[i] < lo + n
    ensures |s| <= n
  {
    DistinctSize(s);
    SubsetSize(Elements(s), Range(lo, n));
  }

  function Min(a: nat, b: nat): nat { if a <= b then a else b }

  /** n * unit, built up step by step so that proofs about it stay linear. */
  function Times(n: nat, unit: nat): nat {
    if n == 0 then 0 else Times(n - 1, unit) + unit
  }

  lemma {:induction false} TimesIs(n: nat, unit: nat)
    ensures Times(n, unit) == n * unit
  {
    if n > 0 { TimesIs(n - 1, unit); }
  }

  lemma {:induction false} TimesMono(a: nat, b: nat, unit: nat)
    requires a <= b
    ensures Times(a, unit) <= Times(b, unit)
  {
    if a < b { TimesMono(a, b - 1, unit); }
  }

  /** What coalescing keeps of disjoint, non-empty ranges within bounds. */
  lemma {:induction false} Merged(ps: seq<Extent>, lo: nat, hi: nat)
    requires PairwiseDisjoint(ps) && Within(ps, lo, hi) && forall i :: 0 <= i < |ps| ==> ps[i].length > 0
    ensures Bytes(PushAll([], ps)) == Bytes(ps) && Total(PushAll([], ps)) == Total(ps)
    ensures PairwiseDisjoint(PushAll([], ps)) && Coalesced(PushAll([], ps)) && Within(PushAll([], ps), lo, hi)
  {
    PushAllBytes([], ps);
    PushAllWithin([], ps, lo, hi);
    MergedDisjoint(ps);
  }

  /** Little-endian reads shared by the scanners (r16, r32). */
  function R16(s: seq<byte>, at: nat): nat
    requires at + 2 <= |s|
  {
    s[at] as nat + 256 * s[at + 1] as nat
  }

  function R32(s: seq<byte>, at: nat): nat
    requires at + 4 <= |s|
  {
    R16(s, at) + 65536 * R16(s, at + 2)
  }

  /** The low `w` bytes of v, low byte first. */
  function Le(v: nat, w: nat): (bs: seq<byte>)
    ensures |bs| == w
  {
    if w == 0 then [] else [v % 256] + Le(v / 256, w - 1)
  }

  /** An unsigned 64-bit result. */
  function Wrap(n: nat): nat { n % 0x1_0000_0000_0000_0000 }

  lemma {:induction false} WrapSmall(n: nat)
    requires n <= U64_MAX
    ensures Wrap(n) == n
  {
  }
}
