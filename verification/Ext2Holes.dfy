/** Files with holes (kernel/src/fs/ext2.rs): exactly which blocks `read_inode_data` returns for any inode. */
module Ext2Holes {
  import opened Options
  import opened Bytes
  import opened Arith
  import opened Ext2Data

  // ---------------------------------------------------- the blocks of a file

  ghost function PointersIn(v: Volume, block: nat): (ps: seq<nat>)
    ensures |ps| == Fanout(v)
  {
    seq(Fanout(v), i requires 0 <= i < Fanout(v) => Pointer(v, block, i))
  }

  /** Data blocks below a block of this level; none below one that cannot be read. */
  ghost function Blocks(v: Volume, level: nat, block: nat): seq<nat>
    decreases level, 1, 0
  {
    if !Readable(v, block) then []
    else if level == 0 then [block]
    else BlocksOf(v, level - 1, PointersIn(v, block))
  }

  /** Data blocks below a row of pointers, which ends at the first zero. */
  ghost function BlocksOf(v: Volume, level: nat, ps: seq<nat>): seq<nat>
    decreases level, 2, |ps|
  {
    if ps == [] || ps[0] == 0 then [] else Blocks(v, level, ps[0]) + BlocksOf(v, level, ps[1..])
  }

  /** The twelve direct pointers, then one pointer of each level. */
  ghost function FileBlocks(v: Volume, pointers: seq<nat>): seq<nat>
    requires |pointers| == 15
  {
    BlocksOf(v, 0, pointers[..12]) + BlocksOf(v, 1, [pointers[12]])
    + BlocksOf(v, 2, [pointers[13]]) + BlocksOf(v, 3, [pointers[14]])
  }

  ghost function Contents(v: Volume, bs: seq<nat>): (d: seq<Byte>)
    ensures |d| == |bs| * v.blockSize
  {
    if bs == [] then [] else
      assert |bs[1..]| * v.blockSize + v.blockSize == |bs| * v.blockSize;
      Data(v, bs[0]) + Contents(v, bs[1..])
  }

  lemma {:induction false} ContentsConcat(v: Volume, a: seq<nat>, b: seq<nat>)
    ensures Contents(v, a + b) == Contents(v, a) + Contents(v, b)
  {
    if a == [] {
      assert a + b == b;
    } else {
      assert (a + b)[1..] == a[1..] + b;
      hide Data;
      ContentsConcat(v, a[1..], b);
    }
  }

  // ---------------------------------------------------------- the traversal

  function Cut(s: seq<Byte>, n: nat): seq<Byte> { s[..Min(n, |s|)] }

  /** Reading on after a piece cut at what remains is cutting the whole. */
  lemma CutConcat(v: Volume, a: seq<nat>, b: seq<nat>, n: nat)
    ensures var x, y := Contents(v, a), Contents(v, b);
            Cut(x, n) + Cut(y, n - |Cut(x, n)|) == Cut(Contents(v, a + b), n)
  {
    ContentsConcat(v, a, b);
    hide Contents;
  }

  lemma OneBlock(v: Volume, block: nat)
    ensures Contents(v, [block]) == Data(v, block)
  {
    hide Data;
    assert [block][1..] == [];
    assert Contents(v, []) == [];
  }

  lemma {:induction false} FetchVisits(v: Volume, level: nat, block: nat, n: nat)
    ensures Fetch(v, level, block, n) == Cut(Contents(v, Blocks(v, level, block)), n)
    decreases level, 1, 0
  {
    if Readable(v, block) {
      if level == 0 {
        OneBlock(v, block);
      } else {
        var ps := PointersIn(v, block);
        assert ps[0..] == ps;
        RowVisits(v, level, block, 0, n);
      }
    }
  }

  lemma {:induction false} RowVisits(v: Volume, level: nat, block: nat, i: nat, n: nat)
    requires level > 0 && i <= Fanout(v)
    ensures FetchFrom(v, level, block, i, n) == Cut(Contents(v, BlocksOf(v, level - 1, PointersIn(v, block)[i..])), n)
    decreases level - 1, 2, Fanout(v) - i
  {
    hide Fetch, Blocks, Pointer, Fanout;
    var ps := PointersIn(v, block)[i..];
    if i < Fanout(v) && n > 0 && ps[0] != 0 {
      assert ps[1..] == PointersIn(v, block)[i + 1..];
      var d := Fetch(v, level - 1, ps[0], n);
      assert FetchFrom(v, level, block, i, n) == d + FetchFrom(v, level, block, i + 1, n - |d|);
      hide PointersIn, FetchFrom, Contents, Cut;
      FetchVisits(v, level - 1, ps[0], n);
      RowVisits(v, level, block, i + 1, n - |d|);
      CutConcat(v, Blocks(v, level - 1, ps[0]), BlocksOf(v, level - 1, ps[1..]), n);
    }
  }

  lemma {:induction false} DirectVisits(v: Volume, pointers: seq<nat>, i: nat, n: nat)
    requires |pointers| == 15 && i <= 12
    ensures FetchDirect(v, pointers, i, n) == Cut(Contents(v, BlocksOf(v, 0, pointers[i..12])), n)
    decreases 12 - i
  {
    var ps := pointers[i..12];
    if i < 12 && n > 0 && ps[0] != 0 {
      assert ps[1..] == pointers[i + 1..12];
      if Readable(v, ps[0]) {
        FetchVisits(v, 0, ps[0], n);
        hide Fetch, Blocks, Contents;
        DirectVisits(v, pointers, i + 1, n - |Fetch(v, 0, ps[0], n)|);
        CutConcat(v, Blocks(v, 0, ps[0]), BlocksOf(v, 0, ps[1..]), n);
      } else {
        NothingReadable(v, ps);
      }
    }
  }

  /** Without a device no block can be read. */
  lemma {:induction false} NothingReadable(v: Volume, ps: seq<nat>)
    requires v.device.None?
    ensures BlocksOf(v, 0, ps) == []
  {
    if ps != [] {
      NothingReadable(v, ps[1..]);
    }
  }

  lemma IndirectVisits(v: Volume, pointers: seq<nat>, level: nat, n: nat)
    requires |pointers| == 15 && 1 <= level <= 3
    ensures FetchIndirect(v, pointers, level, n) == Cut(Contents(v, BlocksOf(v, level, [pointers[11 + level]])), n)
  {
    var b := pointers[11 + level];
    FetchVisits(v, level, b, n);
    assert [b][1..] == [];
    assert Blocks(v, level, b) + [] == Blocks(v, level, b);
    hide Fetch, Blocks, Contents;
  }

  /** With or without holes, the result is the file's blocks in order, cut at the inode's size. A zero pointer ends its
      row, so later blocks move up. */
  lemma ReadsFileBlocks(v: Volume, pointers: seq<nat>, size: nat)
    requires |pointers| == 15
    ensures Fetched(v, pointers, size) == Cut(Contents(v, FileBlocks(v, pointers)), size)
    ensures |Fetched(v, pointers, size)| == Min(size, |FileBlocks(v, pointers)| * v.blockSize)
  {
    var a0, a1 := BlocksOf(v, 0, pointers[..12]), BlocksOf(v, 1, [pointers[12]]);
    var a2, a3 := BlocksOf(v, 2, [pointers[13]]), BlocksOf(v, 3, [pointers[14]]);
    assert pointers[0..12] == pointers[..12];
    DirectVisits(v, pointers, 0, size);
    assert |Cut(Contents(v, FileBlocks(v, pointers)), size)| == Min(size, |FileBlocks(v, pointers)| * v.blockSize);
    hide FetchDirect, FetchIndirect, BlocksOf, Contents, Cut;
    Gathered(v, pointers, size, 2, a0, a1);
    Gathered(v, pointers, size, 3, a0 + a1, a2);
    Gathered(v, pointers, size, 4, a0 + a1 + a2, a3);
  }

  /** A hole is not read as zeroes: after a zero first pointer, no other direct block is read at all. */
  lemma LeadingHole(v: Volume, pointers: seq<nat>, size: nat)
    requires |pointers| == 15 && pointers[0] == 0 && pointers[12] == pointers[13] == pointers[14] == 0
    ensures Fetched(v, pointers, size) == []
  {
    ReadsFileBlocks(v, pointers, size);
  }

  lemma Gathered(v: Volume, pointers: seq<nat>, size: nat, level: nat, a: seq<nat>, b: seq<nat>)
    requires |pointers| == 15 && 2 <= level <= 4 && b == BlocksOf(v, level - 1, [pointers[10 + level]])
    requires FetchedBefore(v, pointers, size, level - 1) == Cut(Contents(v, a), size)
    ensures FetchedBefore(v, pointers, size, level) == Cut(Contents(v, a + b), size)
  {
    hide FetchIndirect, BlocksOf, Contents;
    IndirectVisits(v, pointers, level - 1, size - |FetchedBefore(v, pointers, size, level - 1)|);
    CutConcat(v, a, b, size);
  }
}
