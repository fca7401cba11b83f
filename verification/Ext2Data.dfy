/** Reading a file's bytes through direct and indirect block pointers (kernel/src/fs/ext2.rs). */
module Ext2Data {
  import opened Options
  import opened Bytes
  import opened Arith

  /** The mounted volume: geometry, inode tables by block group, and the device's content by byte offset. */
  datatype Volume = Volume(
    blockSize: nat, inodeSize: nat, inodesCount: nat, inodesPerGroup: nat,
    inodeTables: seq<nat>, device: Option<nat -> Byte>)

  /** `pointers_per_block`. */
  function Fanout(v: Volume): nat { v.blockSize / 4 }

  function ReadDevice(v: Volume, offset: nat, size: nat): (r: Option<seq<Byte>>)
    ensures r.Some? ==> |r.value| == size
    ensures r.Some? == v.device.Some?
  {
    match v.device
    case None => None
    case Some(content) => Some(seq(size, i requires i >= 0 => content(offset + i)))
  }

  function ReadBlock(v: Volume, block: nat): (r: Option<seq<Byte>>)
    ensures r.Some? ==> |r.value| == v.blockSize
    ensures r.Some? == v.device.Some?
  {
    ReadDevice(v, block * v.blockSize, v.blockSize)
  }

  /** A block's bytes, zeroes where the device cannot be read. */
  function Data(v: Volume, block: nat): (d: seq<Byte>)
    ensures |d| == v.blockSize
  {
    match ReadBlock(v, block)
    case Some(d) => d
    case None => seq(v.blockSize, _ => 0)
  }

  /** Pointer `i` stored in an indirect block. */
  function Pointer(v: Volume, block: nat, i: nat): nat
    requires i < Fanout(v)
  {
    U32(Data(v, block), 4 * i)
  }

  // ---------------------------------------------------- what the code reads

  /** Bytes appended below a pointer to a readable or unreadable block, `level` 0 being a data block. */
  function Fetch(v: Volume, level: nat, block: nat, remaining: nat): (d: seq<Byte>)
    ensures |d| <= remaining
    decreases level, Fanout(v) + 1
  {
    if ReadBlock(v, block).None? then []
    else if level == 0 then Data(v, block)[..Min(remaining, v.blockSize)]
    else FetchFrom(v, level, block, 0, remaining)
  }

  /** The pointer loop: it stops at a zero pointer or when nothing remains. */
  function FetchFrom(v: Volume, level: nat, block: nat, i: nat, remaining: nat): (d: seq<Byte>)
    requires level > 0
    ensures |d| <= remaining
    decreases level, if i < Fanout(v) then Fanout(v) - i else 0
  {
    if i >= Fanout(v) || Pointer(v, block, i) == 0 || remaining == 0 then []
    else
      var d := Fetch(v, level - 1, Pointer(v, block, i), remaining);
      d + FetchFrom(v, level, block, i + 1, remaining - |d|)
  }

  /** The loop over the twelve direct pointers; unlike the others it also stops at an unreadable block. */
  function FetchDirect(v: Volume, pointers: seq<nat>, i: nat, remaining: nat): (d: seq<Byte>)
    requires |pointers| == 15
    ensures |d| <= remaining
    decreases 12 - i
  {
    if i >= 12 || pointers[i] == 0 || remaining == 0 || ReadBlock(v, pointers[i]).None? then []
    else
      var d := Fetch(v, 0, pointers[i], remaining);
      d + FetchDirect(v, pointers, i + 1, remaining - |d|)
  }

  function DirectBytes(v: Volume, pointers: seq<nat>, size: nat): (d: seq<Byte>)
    requires |pointers| == 15
    ensures |d| <= size
  {
    FetchDirect(v, pointers, 0, size)
  }

  function FetchIndirect(v: Volume, pointers: seq<nat>, level: nat, remaining: nat): (d: seq<Byte>)
    requires |pointers| == 15 && 1 <= level <= 3
    ensures |d| <= remaining
  {
    if remaining > 0 && pointers[11 + level] != 0 then Fetch(v, level, pointers[11 + level], remaining) else []
  }

  /** What `read_inode_data` has collected before it turns to the pointers of this level. */
  function FetchedBefore(v: Volume, pointers: seq<nat>, size: nat, level: nat): (d: seq<Byte>)
    requires |pointers| == 15 && 1 <= level <= 4
    ensures |d| <= size
  {
    if level == 1 then DirectBytes(v, pointers, size)
    else
      var d := FetchedBefore(v, pointers, size, level - 1);
      d + FetchIndirect(v, pointers, level - 1, size - |d|)
  }

  /** `read_inode_data` for an inode with these pointers and size. */
  function Fetched(v: Volume, pointers: seq<nat>, size: nat): (d: seq<Byte>)
    requires |pointers| == 15
    ensures |d| <= size
  {
    FetchedBefore(v, pointers, size, 4)
  }

  // ---------------------------------------------------- the logical view

  /** Data blocks below a pointer of this level. */
  function Count(v: Volume, level: nat): nat {
    if level == 0 then 1 else Fanout(v) * Count(v, level - 1)
  }

  /** The `n`-th data block below a pointer, by dividing out one level at a time. */
  function Chase(v: Volume, level: nat, block: nat, n: nat): nat
    requires n < Count(v, level)
  {
    if level == 0 then block
    else
      ChaseBound(v, level, n);
      var c := Count(v, level - 1);
      Chase(v, level - 1, Pointer(v, block, Div(n, c)), Mod(n, c))
  }

  lemma ChaseBound(v: Volume, level: nat, n: nat)
    requires level > 0 && n < Count(v, level)
    ensures var c := Count(v, level - 1); c > 0 && Div(n, c) < Fanout(v) && Mod(n, c) < c
  {}

  /** Bytes below a pointer of this level. */
  function Below(v: Volume, level: nat): nat { Count(v, level) * v.blockSize }

  /** All bytes below a pointer, in order. */
  ghost function Stream(v: Volume, level: nat, block: nat): seq<Byte>
    decreases level, Fanout(v) + 1
  {
    if level == 0 then Data(v, block) else StreamFrom(v, level, block, 0)
  }

  ghost function StreamFrom(v: Volume, level: nat, block: nat, i: nat): seq<Byte>
    requires level > 0
    decreases level, if i < Fanout(v) then Fanout(v) - i else 0
  {
    if i >= Fanout(v) then []
    else Stream(v, level - 1, Pointer(v, block, i)) + StreamFrom(v, level, block, i + 1)
  }

  lemma {:induction false} StreamLength(v: Volume, level: nat, block: nat)
    ensures |Stream(v, level, block)| == Below(v, level)
    decreases level, Fanout(v) + 1
  {
    if level > 0 {
      StreamFromLength(v, level, block, 0);
      assert Fanout(v) * (Count(v, level - 1) * v.blockSize) == Count(v, level) * v.blockSize;
    }
  }

  lemma {:induction false} StreamFromLength(v: Volume, level: nat, block: nat, i: nat)
    requires level > 0 && i <= Fanout(v)
    ensures |StreamFrom(v, level, block, i)| == (Fanout(v) - i) * Below(v, level - 1)
    decreases level, Fanout(v) - i
  {
    if i < Fanout(v) {
      StreamLength(v, level - 1, Pointer(v, block, i));
      StreamFromLength(v, level, block, i + 1);
      var n, c := Fanout(v) - i - 1, Below(v, level - 1);
      assert (n + 1) * c == n * c + c;
    }
  }

  /** Byte `k` of the pointer loop's stream lies in the stream of the pointer it divides down to. */
  lemma {:induction false} StreamFromIndex(v: Volume, level: nat, block: nat, i: nat, k: nat)
    requires level > 0 && i <= Fanout(v) && k < (Fanout(v) - i) * Below(v, level - 1)
    ensures |StreamFrom(v, level, block, i)| == (Fanout(v) - i) * Below(v, level - 1)
    ensures var c := Below(v, level - 1);
            && c > 0 && i + Div(k, c) < Fanout(v) && Mod(k, c) < c
            && var s := Stream(v, level - 1, Pointer(v, block, i + Div(k, c)));
               |s| == c && StreamFrom(v, level, block, i)[k] == s[Mod(k, c)]
    decreases Fanout(v) - i
  {
    hide Div, Mod, Below, Stream, Pointer, Fanout;
    var c, n := Below(v, level - 1), Fanout(v) - i;
    StreamFromLength(v, level, block, i);
    DivBound(k, n, c);
    StreamLength(v, level - 1, Pointer(v, block, i));
    StreamLength(v, level - 1, Pointer(v, block, i + Div(k, c)));
    assert (n - 1) * c == n * c - c;
    if k >= c {
      DivDrop(k, c);
      StreamFromIndex(v, level, block, i + 1, k - c);
    } else {
      DivSmall(k, c);
    }
  }

  /** The stream is the logical block map: byte `k` is byte `k % blockSize` of the block `k / blockSize` chases to. */
  lemma {:induction false} StreamIsLogical(v: Volume, level: nat, block: nat, k: nat)
    requires k < Below(v, level)
    ensures v.blockSize > 0 && |Stream(v, level, block)| == Below(v, level)
    ensures Div(k, v.blockSize) < Count(v, level) && Mod(k, v.blockSize) < v.blockSize
    ensures Stream(v, level, block)[k] == Data(v, Chase(v, level, block, Div(k, v.blockSize)))[Mod(k, v.blockSize)]
    decreases level
  {
    var b := v.blockSize;
    StreamLength(v, level, block);
    DivBound(k, Count(v, level), b);
    if level == 0 {
      DivSmall(k, b);
    } else {
      var n := Count(v, level - 1);
      assert Below(v, level) == Fanout(v) * Below(v, level - 1) by {
        assert Fanout(v) * (n * b) == (Fanout(v) * n) * b;
      }
      StreamFromIndex(v, level, block, 0, k);
      ChaseBound(v, level, Div(k, b));
      NestedIndex(k, b, n);
      assert Below(v, level - 1) == n * b;
      hide Div, Mod, Below, Data, Pointer, Count;
      StreamIsLogical(v, level - 1, Pointer(v, block, Div(k, n * b)), Mod(k, n * b));
    }
  }

  // ------------------------------------------------ files without holes

  function Sub(a: nat, b: nat): nat { if a > b then a - b else 0 }

  predicate Readable(v: Volume, block: nat) { ReadBlock(v, block).Some? }

  /** Every pointer that the first `remaining` bytes below this block depend on is non-zero and readable. */
  predicate Needed(v: Volume, level: nat, block: nat, remaining: nat)
    decreases level, Fanout(v) + 1
  {
    Readable(v, block) && (level > 0 ==> NeededFrom(v, level, block, 0, remaining))
  }

  predicate NeededFrom(v: Volume, level: nat, block: nat, i: nat, remaining: nat)
    requires level > 0
    decreases level, if i < Fanout(v) then Fanout(v) - i else 0
  {
    i >= Fanout(v) || remaining == 0 ||
    (&& Pointer(v, block, i) != 0
     && Needed(v, level - 1, Pointer(v, block, i), remaining)
     && NeededFrom(v, level, block, i + 1, Sub(remaining, Below(v, level - 1))))
  }

  /** Direct pointer `i` and the later ones that `remaining` bytes from there on depend on. */
  predicate NeededDirect(v: Volume, pointers: seq<nat>, i: nat, remaining: nat)
    requires |pointers| == 15
  {
    forall j | i <= j < 12 && (j - i) * v.blockSize < remaining :: pointers[j] != 0 && Readable(v, pointers[j])
  }

  predicate NeededIndirect(v: Volume, pointers: seq<nat>, level: nat, remaining: nat)
    requires |pointers| == 15 && 1 <= level <= 3
  {
    remaining == 0 || (pointers[11 + level] != 0 && Needed(v, level, pointers[11 + level], remaining))
  }

  /** Bytes of a file that lie before the pointers of this level. */
  function Before(v: Volume, level: nat): nat
    requires 1 <= level <= 4
  {
    if level == 1 then 12 * v.blockSize else Before(v, level - 1) + Below(v, level - 1)
  }

  /** No needed pointer of the file is zero. */
  predicate NoHoles(v: Volume, pointers: seq<nat>, size: nat)
    requires |pointers| == 15
  {
    && NeededDirect(v, pointers, 0, size)
    && NeededIndirect(v, pointers, 1, Sub(size, Before(v, 1)))
    && NeededIndirect(v, pointers, 2, Sub(size, Before(v, 2)))
    && NeededIndirect(v, pointers, 3, Sub(size, Before(v, 3)))
  }

  lemma TakeConcat(a: seq<Byte>, b: seq<Byte>, n: nat)
    ensures a[..Min(n, |a|)] + b[..Min(Sub(n, |a|), |b|)] == (a + b)[..Min(n, |a + b|)]
  {}

  lemma {:induction false} FetchFull(v: Volume, level: nat, block: nat, remaining: nat)
    requires Needed(v, level, block, remaining)
    ensures |Stream(v, level, block)| == Below(v, level)
    ensures Fetch(v, level, block, remaining) == Stream(v, level, block)[..Min(remaining, Below(v, level))]
    decreases level, Fanout(v) + 1
  {
    StreamLength(v, level, block);
    if level > 0 {
      FetchFromFull(v, level, block, 0, remaining);
    }
  }

  lemma {:induction false} FetchFromFull(v: Volume, level: nat, block: nat, i: nat, remaining: nat)
    requires level > 0 && NeededFrom(v, level, block, i, remaining)
    ensures var s := StreamFrom(v, level, block, i);
            FetchFrom(v, level, block, i, remaining) == s[..Min(remaining, |s|)]
    decreases level, if i < Fanout(v) then Fanout(v) - i else 0
  {
    if i < Fanout(v) && remaining > 0 {
      hide Below, Fanout, Pointer, Stream, Fetch, Needed;
      var q := Pointer(v, block, i);
      FetchFull(v, level - 1, q, remaining);
      FetchFromFull(v, level, block, i + 1, Sub(remaining, Below(v, level - 1)));
      TakeConcat(Stream(v, level - 1, q), StreamFrom(v, level, block, i + 1), remaining);
    }
  }

  ghost function DirectStream(v: Volume, pointers: seq<nat>, i: nat): (s: seq<Byte>)
    requires |pointers| == 15
    ensures i <= 12 ==> |s| == (12 - i) * v.blockSize
    decreases 12 - i
  {
    if i >= 12 then [] else Data(v, pointers[i]) + DirectStream(v, pointers, i + 1)
  }

  lemma DirectStep(v: Volume, pointers: seq<nat>, i: nat)
    requires |pointers| == 15 && i < 12
    ensures DirectStream(v, pointers, i) == Data(v, pointers[i]) + DirectStream(v, pointers, i + 1)
  {}

  lemma NeededNext(v: Volume, pointers: seq<nat>, i: nat, remaining: nat)
    requires |pointers| == 15 && i < 12 && remaining > 0 && NeededDirect(v, pointers, i, remaining)
    ensures pointers[i] != 0 && Readable(v, pointers[i])
    ensures NeededDirect(v, pointers, i + 1, Sub(remaining, v.blockSize))
  {
    hide Readable;
    assert (i - i) * v.blockSize == 0;
    forall j | i + 1 <= j < 12 && (j - i - 1) * v.blockSize < Sub(remaining, v.blockSize)
      ensures pointers[j] != 0 && Readable(v, pointers[j])
    {
      assert (j - i) * v.blockSize == (j - i - 1) * v.blockSize + v.blockSize;
    }
  }

  lemma {:induction false} FetchDirectFull(v: Volume, pointers: seq<nat>, i: nat, remaining: nat)
    requires |pointers| == 15 && NeededDirect(v, pointers, i, remaining)
    ensures var s := DirectStream(v, pointers, i);
            FetchDirect(v, pointers, i, remaining) == s[..Min(remaining, |s|)]
    decreases 12 - i
  {
    if i < 12 && remaining > 0 {
      NeededNext(v, pointers, i, remaining);
      hide ReadBlock, Data, DirectStream, NeededDirect;
      DirectStep(v, pointers, i);
      FetchDirectFull(v, pointers, i + 1, Sub(remaining, v.blockSize));
      TakeConcat(Data(v, pointers[i]), DirectStream(v, pointers, i + 1), remaining);
    }
  }

  /** The file's bytes up to the pointers of this level. */
  ghost function FileStream(v: Volume, pointers: seq<nat>, level: nat): (s: seq<Byte>)
    requires |pointers| == 15 && 1 <= level <= 4
    ensures |s| == Before(v, level)
  {
    if level == 1 then DirectStream(v, pointers, 0)
    else
      StreamLength(v, level - 1, pointers[10 + level]);
      FileStream(v, pointers, level - 1) + Stream(v, level - 1, pointers[10 + level])
  }

  /** One more level of the file: what was fetched so far stays a prefix of the stream. */
  lemma LevelFull(v: Volume, pointers: seq<nat>, level: nat, size: nat, d: seq<Byte>)
    requires |pointers| == 15 && 1 <= level <= 3
    requires NeededIndirect(v, pointers, level, Sub(size, Before(v, level)))
    requires d == FileStream(v, pointers, level)[..Min(size, Before(v, level))]
    ensures |d| <= size
    ensures d + FetchIndirect(v, pointers, level, size - |d|) ==
            FileStream(v, pointers, level + 1)[..Min(size, Before(v, level + 1))]
  {
    var q, rest := pointers[11 + level], Sub(size, Before(v, level));
    StreamLength(v, level, q);
    if rest > 0 {
      FetchFull(v, level, q, rest);
    }
    hide Stream, Fetch, Needed, Below;
    TakeConcat(FileStream(v, pointers, level), Stream(v, level, q), size);
  }

  /** Without holes, `read_inode_data` collects the file's stream, cut at its size. */
  lemma {:induction false} FetchedFull(v: Volume, pointers: seq<nat>, size: nat, level: nat)
    requires |pointers| == 15 && NoHoles(v, pointers, size) && 1 <= level <= 4
    ensures FetchedBefore(v, pointers, size, level) == FileStream(v, pointers, level)[..Min(size, Before(v, level))]
  {
    if level == 1 {
      FetchDirectFull(v, pointers, 0, size);
    } else {
      FetchedFull(v, pointers, size, level - 1);
      hide FetchIndirect, FileStream, Before, NeededIndirect, NeededDirect, Min, Sub;
      LevelFull(v, pointers, level - 1, size, FetchedBefore(v, pointers, size, level - 1));
    }
  }

  // ------------------------------------------------ the logical block map

  /** Data blocks of a file that lie before the pointers of this level. */
  function BlocksBefore(v: Volume, level: nat): nat
    requires 1 <= level <= 4
  {
    if level == 1 then 12 else BlocksBefore(v, level - 1) + Count(v, level - 1)
  }

  /** The block that holds logical block `n`: 12 direct, then one, two and three levels of indirection. */
  function LogicalBlock(v: Volume, pointers: seq<nat>, level: nat, n: nat): nat
    requires |pointers| == 15 && 1 <= level <= 4 && n < BlocksBefore(v, level)
  {
    if level == 1 then pointers[n]
    else if n < BlocksBefore(v, level - 1) then LogicalBlock(v, pointers, level - 1, n)
    else Chase(v, level - 1, pointers[10 + level], n - BlocksBefore(v, level - 1))
  }

  lemma {:induction false} BeforeIsBlocks(v: Volume, level: nat)
    requires 1 <= level <= 4
    ensures Before(v, level) == BlocksBefore(v, level) * v.blockSize
  {
    hide Count;
    if level > 1 {
      BeforeIsBlocks(v, level - 1);
      Distribute(BlocksBefore(v, level - 1), Count(v, level - 1), v.blockSize);
      assert Before(v, level) == Before(v, level - 1) + Below(v, level - 1);
      assert BlocksBefore(v, level) == BlocksBefore(v, level - 1) + Count(v, level - 1);
      hide Before, BlocksBefore;
    }
  }

  lemma {:induction false} DirectIsLogical(v: Volume, pointers: seq<nat>, i: nat, k: nat)
    requires |pointers| == 15 && i <= 12 && k < (12 - i) * v.blockSize
    ensures v.blockSize > 0 && i + Div(k, v.blockSize) < 12 && Mod(k, v.blockSize) < v.blockSize
    ensures DirectStream(v, pointers, i)[k] == Data(v, pointers[i + Div(k, v.blockSize)])[Mod(k, v.blockSize)]
    decreases 12 - i
  {
    hide Div, Mod, Data;
    var b := v.blockSize;
    DivBound(k, 12 - i, b);
    if k < b {
      DivSmall(k, b);
    } else {
      DivDrop(k, b);
      DirectIsLogical(v, pointers, i + 1, k - b);
    }
  }

  lemma LogicalBeyond(v: Volume, pointers: seq<nat>, level: nat, i: nat)
    requires |pointers| == 15 && 2 <= level <= 4 && i < Count(v, level - 1)
    ensures BlocksBefore(v, level - 1) + i < BlocksBefore(v, level)
    ensures LogicalBlock(v, pointers, level, BlocksBefore(v, level - 1) + i) ==
            Chase(v, level - 1, pointers[10 + level], i)
  {}

  lemma StreamBeyond(v: Volume, pointers: seq<nat>, level: nat, j: nat)
    requires |pointers| == 15 && 2 <= level <= 4 && j < Below(v, level - 1)
    ensures |Stream(v, level - 1, pointers[10 + level])| == Below(v, level - 1)
    ensures FileStream(v, pointers, level)[Before(v, level - 1) + j] == Stream(v, level - 1, pointers[10 + level])[j]
  {
    hide Below, Stream;
    StreamLength(v, level - 1, pointers[10 + level]);
  }

  lemma BeyondIsLogical(v: Volume, pointers: seq<nat>, level: nat, j: nat)
    requires |pointers| == 15 && 2 <= level <= 4 && j < Below(v, level - 1)
    ensures var k := Before(v, level - 1) + j;
            && v.blockSize > 0 && Div(k, v.blockSize) < BlocksBefore(v, level) && Mod(k, v.blockSize) < v.blockSize
            && FileStream(v, pointers, level)[k] ==
               Data(v, LogicalBlock(v, pointers, level, Div(k, v.blockSize)))[Mod(k, v.blockSize)]
  {
    StreamBeyond(v, pointers, level, j);
    hide Div, Mod, Data, Chase, Count, Stream, Below, BlocksBefore, FileStream, LogicalBlock, Before;
    BeforeIsBlocks(v, level - 1);
    StreamIsLogical(v, level - 1, pointers[10 + level], j);
    DivShift(j, BlocksBefore(v, level - 1), v.blockSize);
    LogicalBeyond(v, pointers, level, Div(j, v.blockSize));
  }

  /** Byte `k` of the file's stream is byte `k % blockSize` of logical block `k / blockSize`. */
  lemma {:induction false} FileIsLogical(v: Volume, pointers: seq<nat>, level: nat, k: nat)
    requires |pointers| == 15 && 1 <= level <= 4 && k < Before(v, level)
    ensures v.blockSize > 0 && Div(k, v.blockSize) < BlocksBefore(v, level) && Mod(k, v.blockSize) < v.blockSize
    ensures FileStream(v, pointers, level)[k] ==
            Data(v, LogicalBlock(v, pointers, level, Div(k, v.blockSize)))[Mod(k, v.blockSize)]
  {
    hide Div, Mod, Data, Count, Stream, Below;
    if level == 1 {
      DirectIsLogical(v, pointers, 0, k);
    } else if k < Before(v, level - 1) {
      FileIsLogical(v, pointers, level - 1, k);
    } else {
      BeyondIsLogical(v, pointers, level, k - Before(v, level - 1));
    }
  }

  /** Byte `k` of a file read as `b` comes from its place in its logical block. */
  ghost predicate FromLogicalBlock(v: Volume, pointers: seq<nat>, k: nat, b: Byte)
    requires |pointers| == 15
  {
    && v.blockSize > 0 && Div(k, v.blockSize) < BlocksBefore(v, 4) && Mod(k, v.blockSize) < v.blockSize
    && b == Data(v, LogicalBlock(v, pointers, 4, Div(k, v.blockSize)))[Mod(k, v.blockSize)]
  }

  lemma StreamFromLogicalBlock(v: Volume, pointers: seq<nat>, k: nat)
    requires |pointers| == 15 && k < Before(v, 4)
    ensures FromLogicalBlock(v, pointers, k, FileStream(v, pointers, 4)[k])
  {
    hide FileStream, Before, BlocksBefore, LogicalBlock, Data, Div, Mod;
    FileIsLogical(v, pointers, 4, k);
  }

  /** For every file without holes: the length is the size cut at the addressable capacity, and every byte comes
      from its logical block. */
  lemma ReadsLogicalFile(v: Volume, pointers: seq<nat>, size: nat)
    requires |pointers| == 15 && NoHoles(v, pointers, size)
    ensures |Fetched(v, pointers, size)| == Min(size, BlocksBefore(v, 4) * v.blockSize)
    ensures forall k | 0 <= k < |Fetched(v, pointers, size)| ::
              FromLogicalBlock(v, pointers, k, Fetched(v, pointers, size)[k])
  {
    hide FetchedBefore, FileStream, Before, BlocksBefore, FromLogicalBlock, NoHoles;
    FetchedFull(v, pointers, size, 4);
    BeforeIsBlocks(v, 4);
    forall k | 0 <= k < |Fetched(v, pointers, size)|
      ensures FromLogicalBlock(v, pointers, k, Fetched(v, pointers, size)[k])
    {
      StreamFromLogicalBlock(v, pointers, k);
    }
  }

  lemma DataOnDevice(v: Volume, block: nat, j: nat)
    requires v.device.Some? && j < v.blockSize
    ensures Data(v, block)[j] == v.device.value(block * v.blockSize + j)
  {}

  /** So byte `k` of the file stands on the device at the start of its logical block plus `k` modulo the block size. */
  lemma ReadsDeviceBytes(v: Volume, pointers: seq<nat>, size: nat, k: nat)
    requires |pointers| == 15 && NoHoles(v, pointers, size) && k < |Fetched(v, pointers, size)|
    ensures v.device.Some? && v.blockSize > 0
    ensures Div(k, v.blockSize) < BlocksBefore(v, 4)
    ensures Fetched(v, pointers, size)[k] ==
            v.device.value(LogicalBlock(v, pointers, 4, Div(k, v.blockSize)) * v.blockSize + Mod(k, v.blockSize))
  {
    ReadsLogicalFile(v, pointers, size);
    assert FromLogicalBlock(v, pointers, k, Fetched(v, pointers, size)[k]);
    assert Readable(v, pointers[0]);
    hide Fetched, LogicalBlock, BlocksBefore, NoHoles, Data, Div, Mod;
    DataOnDevice(v, LogicalBlock(v, pointers, 4, Div(k, v.blockSize)), Mod(k, v.blockSize));
  }

  // ------------------------------------------------------------ the loops

  /** Copy one data block, as the source does in the direct loop and in `read_data_blocks`. */
  method CopyBlock(v: Volume, block: nat, out: seq<Byte>, remaining: nat) returns (out': seq<Byte>, remaining': nat)
    ensures out' == out + Fetch(v, 0, block, remaining) && remaining' == remaining - |Fetch(v, 0, block, remaining)|
  {
    out', remaining' := out, remaining;
    var data := ReadBlock(v, block);
    if data.Some? {
      var toCopy := Min(remaining, v.blockSize);
      out' := out + data.value[..toCopy];
      remaining' := remaining - toCopy;
    }
  }

  /** `read_data_blocks` over the pointers stored in a readable indirect block. */
  method ReadDataBlocks(v: Volume, block: nat, out: seq<Byte>, remaining: nat)
    returns (out': seq<Byte>, remaining': nat)
    requires Readable(v, block)
    ensures out' == out + Fetch(v, 1, block, remaining) && |out'| + remaining' == |out| + remaining
  {
    hide Pointer;
    out', remaining' := out, remaining;
    var i := 0;
    while i < Fanout(v)
      invariant 0 <= i <= Fanout(v) && |out'| + remaining' == |out| + remaining
      invariant out' + FetchFrom(v, 1, block, i, remaining') == out + FetchFrom(v, 1, block, 0, remaining)
    {
      var q := Pointer(v, block, i);
      if q == 0 || remaining' == 0 { break; }
      ghost var d := Fetch(v, 0, q, remaining');
      AppendStep(out', d, FetchFrom(v, 1, block, i + 1, remaining' - |d|));
      hide Fetch;
      out', remaining' := CopyBlock(v, q, out', remaining');
      i := i + 1;
    }
  }

  lemma AppendStep(a: seq<Byte>, b: seq<Byte>, c: seq<Byte>)
    ensures (a + b) + c == a + (b + c)
  {}

  /** The loop over single-indirect blocks, shared by the doubly and triply indirect cases. */
  method ReadDoubly(v: Volume, block: nat, out: seq<Byte>, remaining: nat)
    returns (out': seq<Byte>, remaining': nat)
    requires Readable(v, block)
    ensures out' == out + Fetch(v, 2, block, remaining) && |out'| + remaining' == |out| + remaining
  {
    hide Pointer;
    out', remaining' := out, remaining;
    var i := 0;
    while i < Fanout(v)
      invariant 0 <= i <= Fanout(v) && |out'| + remaining' == |out| + remaining
      invariant out' + FetchFrom(v, 2, block, i, remaining') == out + FetchFrom(v, 2, block, 0, remaining)
    {
      var q := Pointer(v, block, i);
      if q == 0 || remaining' == 0 { break; }
      ghost var d := Fetch(v, 1, q, remaining');
      AppendStep(out', d, FetchFrom(v, 2, block, i + 1, remaining' - |d|));
      var s := ReadBlock(v, q);
      if s.Some? {
        hide Fetch;
        out', remaining' := ReadDataBlocks(v, q, out', remaining');
      }
      i := i + 1;
    }
  }

  method ReadTriply(v: Volume, block: nat, out: seq<Byte>, remaining: nat)
    returns (out': seq<Byte>, remaining': nat)
    requires Readable(v, block)
    ensures out' == out + Fetch(v, 3, block, remaining) && |out'| + remaining' == |out| + remaining
  {
    hide Pointer;
    out', remaining' := out, remaining;
    var i := 0;
    while i < Fanout(v)
      invariant 0 <= i <= Fanout(v) && |out'| + remaining' == |out| + remaining
      invariant out' + FetchFrom(v, 3, block, i, remaining') == out + FetchFrom(v, 3, block, 0, remaining)
    {
      var q := Pointer(v, block, i);
      if q == 0 || remaining' == 0 { break; }
      ghost var d := Fetch(v, 2, q, remaining');
      AppendStep(out', d, FetchFrom(v, 3, block, i + 1, remaining' - |d|));
      var s := ReadBlock(v, q);
      if s.Some? {
        hide Fetch;
        out', remaining' := ReadDoubly(v, q, out', remaining');
      }
      i := i + 1;
    }
  }

  lemma FetchDirectStep(v: Volume, pointers: seq<nat>, i: nat, data: seq<Byte>, remaining: nat)
    requires |pointers| == 15 && i < 12
    ensures var d := Fetch(v, 0, pointers[i], remaining);
            data + FetchDirect(v, pointers, i, remaining) ==
            if pointers[i] != 0 && remaining > 0 && Readable(v, pointers[i])
            then (data + d) + FetchDirect(v, pointers, i + 1, remaining - |d|)
            else data
  {
    hide Fetch, ReadBlock;
  }

  lemma FetchDirectEnds(v: Volume, pointers: seq<nat>, i: nat, data: seq<Byte>, remaining: nat)
    requires |pointers| == 15 && i >= 12
    ensures data + FetchDirect(v, pointers, i, remaining) == data
  {}

  method ReadDirect(v: Volume, pointers: seq<nat>, size: nat) returns (data: seq<Byte>, remaining: nat)
    requires |pointers| == 15
    ensures data == DirectBytes(v, pointers, size) && |data| + remaining == size
  {
    hide FetchDirect, Fetch, ReadBlock;
    data, remaining := [], size;
    var i: nat := 0;
    while i < 12
      invariant i <= 12 && |data| + remaining == size
      invariant data + FetchDirect(v, pointers, i, remaining) == DirectBytes(v, pointers, size)
    {
      FetchDirectStep(v, pointers, i, data, remaining);
      var block := pointers[i];
      if block == 0 || remaining == 0 { return; }
      var readable := ReadBlock(v, block);
      if readable.None? { return; }
      data, remaining := CopyBlock(v, block, data, remaining);
      i := i + 1;
    }
    FetchDirectEnds(v, pointers, i, data, remaining);
  }

  lemma IndirectCases(v: Volume, pointers: seq<nat>, size: nat, level: nat, data: seq<Byte>)
    requires |pointers| == 15 && 1 <= level <= 3 && data == FetchedBefore(v, pointers, size, level)
    ensures |data| <= size
    ensures var q := pointers[11 + level];
            FetchedBefore(v, pointers, size, level + 1) ==
            if size - |data| > 0 && q != 0 && Readable(v, q) then data + Fetch(v, level, q, size - |data|) else data
  {
    hide ReadBlock, FetchFrom, Data;
    assert FetchedBefore(v, pointers, size, level + 1) == data + FetchIndirect(v, pointers, level, size - |data|);
  }

  lemma LevelOne(v: Volume, pointers: seq<nat>, size: nat)
    requires |pointers| == 15
    ensures FetchedBefore(v, pointers, size, 1) == DirectBytes(v, pointers, size)
  {}

  /** `read_inode_data`: bytes copied plus bytes remaining is the size throughout. */
  method ReadInodeData(v: Volume, pointers: seq<nat>, size: nat) returns (data: seq<Byte>)
    requires |pointers| == 15
    ensures data == Fetched(v, pointers, size)
  {
    hide FetchedBefore, Fetch, ReadBlock, DirectBytes;
    var remaining;
    data, remaining := ReadDirect(v, pointers, size);
    assert data == FetchedBefore(v, pointers, size, 1) by { LevelOne(v, pointers, size); }
    IndirectCases(v, pointers, size, 1, data);
    if remaining > 0 && pointers[12] != 0 {
      var b := ReadBlock(v, pointers[12]);
      if b.Some? { data, remaining := ReadDataBlocks(v, pointers[12], data, remaining); }
    }
    IndirectCases(v, pointers, size, 2, data);
    if remaining > 0 && pointers[13] != 0 {
      var b := ReadBlock(v, pointers[13]);
      if b.Some? { data, remaining := ReadDoubly(v, pointers[13], data, remaining); }
    }
    IndirectCases(v, pointers, size, 3, data);
    if remaining > 0 && pointers[14] != 0 {
      var b := ReadBlock(v, pointers[14]);
      if b.Some? { data, remaining := ReadTriply(v, pointers[14], data, remaining); }
    }
  }
}
