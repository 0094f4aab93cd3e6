/** The block map of an inode without an extent tree: which block holds the n-th block of a file, and that the
    walk over the pointers visits exactly those, in the order of the file (src/fs/ext.cpp). */
module ExtBlocks {
  import opened Arith
  import opened Extents
  import opened ExtTree

  /** How many blocks of a file hang below a pointer of this level: a block holds a quarter as many pointers as
      bytes. */
  function Span(blockSize: nat, level: nat): nat {
    if level == 0 then 1 else blockSize / 4 * Span(blockSize, level - 1)
  }

  /** The j-th block below a pointer; 0 is a hole, and so is everything below a block that cannot be read. */
  function Below(img: Image, block: nat, level: nat, j: nat): nat
    requires img.blockSize >= 4 && j < Span(img.blockSize, level)
    decreases level
  {
    if block == 0 || level == 0 then block
    else if block !in img.blocks || |img.blocks[block]| != img.blockSize then 0
    else
      var s := Span(img.blockSize, level - 1);
      Within(j, img.blockSize / 4, s);
      Below(img, R32(img.blocks[block], 4 * (j / s)), level - 1, j % s)
  }

  /** The n-th block of a file: twelve direct pointers, then one, two and three levels of indirection. */
  function FileBlock(img: Image, ptrs: seq<nat>, n: nat): nat
    requires img.blockSize >= 4 && |ptrs| == 15 && n < FileSpan(img.blockSize)
  {
    var p := img.blockSize / 4;
    Spans(img.blockSize);
    if n < 12 then ptrs[n]
    else if n < 12 + p then Below(img, ptrs[12], 1, n - 12)
    else if n < 12 + p + p * p then Below(img, ptrs[13], 2, n - 12 - p)
    else Below(img, ptrs[14], 3, n - 12 - p - p * p)
  }

  function FileSpan(blockSize: nat): nat {
    var p := blockSize / 4;
    12 + p + p * p + p * (p * p)
  }

  lemma {:induction false} Spans(blockSize: nat)
    ensures var p := blockSize / 4;
            Span(blockSize, 0) == 1 && Span(blockSize, 1) == p && Span(blockSize, 2) == p * p
            && Span(blockSize, 3) == p * (p * p)
  {
    var p := blockSize / 4;
    assert Span(blockSize, 1) == p * Span(blockSize, 0);
    assert Span(blockSize, 2) == p * Span(blockSize, 1);
    assert Span(blockSize, 3) == p * Span(blockSize, 2);
  }

  lemma {:induction false} Within(j: nat, p: nat, s: nat)
    requires j < p * s
    ensures s > 0 && j / s < p && j % s < s
  {
    if s > 0 {
      DivBounds(j, s);
      if j / s >= p { LeMul(p, j / s, s); }
    }
  }

  /** The blocks that are there, in order, holes left out. */
  function Present(s: seq<nat>): seq<nat> {
    if s == [] then [] else Present(DropLast(s)) + if Last(s) == 0 then [] else [Last(s)]
  }

  lemma {:induction false} PresentAppend(a: seq<nat>, b: seq<nat>)
    ensures Present(a + b) == Present(a) + Present(b)
  {
    if b == [] {
      assert a + b == a;
    } else {
      PresentAppend(a, DropLast(b));
      assert DropLast(a + b) == a + DropLast(b) && Last(a + b) == Last(b);
    }
  }

  lemma {:induction false} PresentNone(s: seq<nat>)
    requires forall i :: 0 <= i < |s| ==> s[i] == 0
    ensures Present(s) == []
  {
    if s != [] { PresentNone(DropLast(s)); }
  }

  /** All blocks below a pointer, holes included. */
  function Slots(img: Image, block: nat, level: nat): (s: seq<nat>)
    requires img.blockSize >= 4
    ensures |s| == Span(img.blockSize, level)
  {
    seq(Span(img.blockSize, level), j requires 0 <= j < Span(img.blockSize, level) => Below(img, block, level, j))
  }

  /** All blocks below the first n pointers of a table. */
  function Rows(img: Image, table: seq<byte>, level: nat, n: nat): seq<nat>
    requires img.blockSize >= 4 && |table| == img.blockSize && n <= img.blockSize / 4
  {
    if n == 0 then [] else Rows(img, table, level, n - 1) + Slots(img, R32(table, 4 * (n - 1)), level)
  }

  /** The walk visits exactly the blocks below a pointer that are there, in order. */
  lemma {:induction false} WalkIsBelow(img: Image, block: nat, level: nat)
    requires img.blockSize >= 4
    ensures DataBlocks(img, block, level) == Present(Slots(img, block, level))
    decreases level, 1, 0
  {
    if block == 0 {
      PresentNone(Slots(img, block, level));
    } else if level == 0 {
      OneSlot(img, block, level);
    } else if block in img.blocks && |img.blocks[block]| == img.blockSize {
      TableIsRows(img, img.blocks[block], level - 1, img.blockSize / 4);
      AllRows(img, block, level);
    } else {
      PresentNone(Slots(img, block, level));
    }
  }

  lemma {:induction false} OneSlot(img: Image, block: nat, level: nat)
    requires img.blockSize >= 4 && level == 0 && block != 0
    ensures Present(Slots(img, block, level)) == [block]
  {
    var s := Slots(img, block, level);
    assert s == [block] && DropLast(s) == [];
  }

  lemma {:induction false} AllRows(img: Image, block: nat, level: nat)
    requires img.blockSize >= 4 && level > 0 && block != 0 && block in img.blocks
    requires |img.blocks[block]| == img.blockSize
    ensures Rows(img, img.blocks[block], level - 1, img.blockSize / 4) == Slots(img, block, level)
  {
    var p, span, s := img.blockSize / 4, Span(img.blockSize, level - 1), Slots(img, block, level);
    TimesIs(p, span);
    RowsAreSlots(img, block, level, p, span, s);
    assert s[..|s|] == s;
  }

  lemma {:induction false} TableIsRows(img: Image, table: seq<byte>, level: nat, n: nat)
    requires img.blockSize >= 4 && |table| == img.blockSize && n <= img.blockSize / 4
    ensures TableBlocks(img, table, level, n) == Present(Rows(img, table, level, n))
    decreases level, 2, n
  {
    if n > 0 {
      var child := R32(table, 4 * (n - 1));
      TableIsRows(img, table, level, n - 1);
      WalkIsBelow(img, child, level);
      PresentAppend(Rows(img, table, level, n - 1), Slots(img, child, level));
    }
  }

  lemma {:induction false} RowsAreSlots(img: Image, block: nat, level: nat, n: nat, span: nat, s: seq<nat>)
    requires img.blockSize >= 4 && level > 0 && block != 0 && block in img.blocks
    requires |img.blocks[block]| == img.blockSize && n <= img.blockSize / 4
    requires span == Span(img.blockSize, level - 1) && s == Slots(img, block, level) && Times(n, span) <= |s|
    ensures Rows(img, img.blocks[block], level - 1, n) == s[..Times(n, span)]
  {
    if n > 0 {
      var lo := Times(n - 1, span);
      RowsAreSlots(img, block, level, n - 1, span, s);
      ChildSlots(img, block, level, n - 1, span, s[lo..lo + span]);
      assert s[..lo + span] == s[..lo] + s[lo..lo + span];
    }
  }

  lemma {:induction false} ChildSlots(img: Image, block: nat, level: nat, i: nat, span: nat, s: seq<nat>)
    requires img.blockSize >= 4 && level > 0 && block != 0 && block in img.blocks
    requires |img.blocks[block]| == img.blockSize && i < img.blockSize / 4
    requires span == Span(img.blockSize, level - 1) && Times(i, span) + span <= Span(img.blockSize, level)
    requires s == Slots(img, block, level)[Times(i, span)..Times(i, span) + span]
    ensures s == Slots(img, R32(img.blocks[block], 4 * i), level - 1)
  {
    var t, lo := Slots(img, R32(img.blocks[block], 4 * i), level - 1), Times(i, span);
    forall k | 0 <= k < span ensures s[k] == t[k] {
      TimesIs(i, span);
      Quotient(lo + k, span, i, k);
      assert s[k] == Below(img, block, level, lo + k);
    }
  }

  lemma {:induction false} Quotient(j: nat, s: nat, i: nat, k: nat)
    requires j == i * s + k && k < s
    ensures j / s == i && j % s == k
  {
    DivUnique(j, s, i);
    assert j == (j / s) * s + j % s;
  }

  /** All blocks of a file, holes included. */
  function FileBlocks(img: Image, ptrs: seq<nat>): seq<nat>
    requires img.blockSize >= 4 && |ptrs| == 15
  {
    seq(FileSpan(img.blockSize), n requires 0 <= n < FileSpan(img.blockSize) => FileBlock(img, ptrs, n))
  }

  lemma {:induction false} FileParts(img: Image, ptrs: seq<nat>)
    requires img.blockSize >= 4 && |ptrs| == 15
    ensures FileBlocks(img, ptrs) ==
            ptrs[..12] + Slots(img, ptrs[12], 1) + Slots(img, ptrs[13], 2) + Slots(img, ptrs[14], 3)
  {
    Spans(img.blockSize);
  }

  /** The blocks of an inode are the blocks of its file that are there, in order. */
  lemma {:induction false} InodeIsFile(img: Image, ptrs: seq<nat>)
    requires img.blockSize >= 4 && |ptrs| == 15
    ensures InodeBlocks(img, ptrs, 15) == Present(FileBlocks(img, ptrs))
  {
    FileParts(img, ptrs);
    WalkIsBelow(img, ptrs[12], 1);
    WalkIsBelow(img, ptrs[13], 2);
    WalkIsBelow(img, ptrs[14], 3);
    DirectBlocks(img, ptrs, 12);
    PresentParts(ptrs[..12], Slots(img, ptrs[12], 1), Slots(img, ptrs[13], 2), Slots(img, ptrs[14], 3));
    FromDirect(img, ptrs);
  }

  lemma {:induction false} PresentParts(a: seq<nat>, b: seq<nat>, c: seq<nat>, d: seq<nat>)
    ensures Present(a + b + c + d) == Present(a) + Present(b) + Present(c) + Present(d)
  {
    PresentAppend(a + b + c, d);
    PresentAppend(a + b, c);
    PresentAppend(a, b);
  }

  lemma {:induction false} FromDirect(img: Image, ptrs: seq<nat>)
    requires |ptrs| == 15
    ensures InodeBlocks(img, ptrs, 15) ==
            InodeBlocks(img, ptrs, 12) + DataBlocks(img, ptrs[12], 1) + DataBlocks(img, ptrs[13], 2)
            + DataBlocks(img, ptrs[14], 3)
  {
    var n: nat := 12;
    assert InodeBlocks(img, ptrs, n + 1) == InodeBlocks(img, ptrs, n) + DataBlocks(img, ptrs[n], 1);
    assert InodeBlocks(img, ptrs, n + 2) == InodeBlocks(img, ptrs, n + 1) + DataBlocks(img, ptrs[n + 1], 2);
    assert InodeBlocks(img, ptrs, n + 3) == InodeBlocks(img, ptrs, n + 2) + DataBlocks(img, ptrs[n + 2], 3);
  }

  lemma {:induction false} DirectBlocks(img: Image, ptrs: seq<nat>, n: nat)
    requires |ptrs| == 15 && n <= 12
    ensures InodeBlocks(img, ptrs, n) == Present(ptrs[..n])
  {
    if n > 0 {
      DirectBlocks(img, ptrs, n - 1);
      assert DropLast(ptrs[..n]) == ptrs[..n - 1] && Last(ptrs[..n]) == ptrs[n - 1];
    }
  }
}
