/** The on-disk layout of inodes and directories, written out byte by byte and read back by the driver
    (kernel/src/fs/ext2.rs). */
module Ext2Layout {
  import opened Options
  import opened Bytes
  import opened Ext2Data
  import opened Ext2Dir
  import opened Text
  import Utf8

  // ------------------------------------------------------------- words

  function Bytes16(n: nat): (b: seq<Byte>)
    requires n < 0x1_0000
    ensures |b| == 2
  {
    [n % 0x100, n / 0x100]
  }

  function Bytes32(n: nat): (b: seq<Byte>)
    requires n < 0x1_0000_0000
    ensures |b| == 4
  {
    [n % 0x100, n / 0x100 % 0x100, n / 0x1_0000 % 0x100, n / 0x100_0000]
  }

  /** The bytes of `part` stand in `d` from `off` on. */
  ghost predicate StandsAt(d: seq<Byte>, off: nat, part: seq<Byte>) {
    off + |part| <= |d| && d[off..off + |part|] == part
  }

  lemma StandsInside(d: seq<Byte>, off: nat, a: seq<Byte>, b: seq<Byte>)
    requires StandsAt(d, off, a + b)
    ensures StandsAt(d, off, a) && StandsAt(d, off + |a|, b)
  {
    var s := d[off..off + |a + b|];
    assert s[..|a|] == a && s[|a|..] == b;
  }

  lemma TailAfter(d: seq<Byte>, off: nat, a: seq<Byte>, b: seq<Byte>)
    requires off <= |d| && d[off..] == a + b
    ensures StandsAt(d, off, a) && d[off + |a|..] == b
  {
    var s := d[off..];
    assert s[..|a|] == a && s[|a|..] == b;
  }

  lemma ReadsBack16(d: seq<Byte>, off: nat, n: nat)
    requires n < 0x1_0000 && StandsAt(d, off, Bytes16(n))
    ensures U16(d, off) == n
  {
    var s := d[off..off + 2];
    assert s[0] == d[off] && s[1] == d[off + 1];
  }

  lemma ReadsBack32(d: seq<Byte>, off: nat, n: nat)
    requires n < 0x1_0000_0000 && StandsAt(d, off, Bytes32(n))
    ensures U32(d, off) == n
  {
    var s := d[off..off + 4];
    assert s[0] == d[off] && s[1] == d[off + 1] && s[2] == d[off + 2] && s[3] == d[off + 3];
    Digits(n);
    hide StandsAt;
  }

  /** Base-256 digits. */
  lemma Digits(n: nat)
    ensures n == n % 0x100 + 0x100 * (n / 0x100 % 0x100) + 0x1_0000 * (n / 0x1_0000 % 0x100 + 0x100 * (n / 0x100_0000))
  {
    var q, r := n / 0x100, n / 0x1_0000;
    assert q / 0x100 == r && q == 0x100 * r + q % 0x100;
    assert r / 0x100 == n / 0x100_0000 && r == 0x100 * (r / 0x100) + r % 0x100;
  }

  // ------------------------------------------------------------- inodes

  function PrintPointers(ps: seq<nat>): (b: seq<Byte>)
    requires forall i | 0 <= i < |ps| :: ps[i] < 0x1_0000_0000
    ensures |b| == 4 * |ps|
  {
    if ps == [] then [] else Bytes32(ps[0]) + PrintPointers(ps[1..])
  }

  lemma {:induction false} PointersReadBack(d: seq<Byte>, off: nat, ps: seq<nat>, k: nat)
    requires forall i | 0 <= i < |ps| :: ps[i] < 0x1_0000_0000
    requires StandsAt(d, off, PrintPointers(ps)) && k < |ps|
    ensures off + 4 * k + 4 <= |d| && U32(d, off + 4 * k) == ps[k]
    decreases |ps|
  {
    StandsInside(d, off, Bytes32(ps[0]), PrintPointers(ps[1..]));
    hide Bytes32, U32, StandsAt;
    if k == 0 {
      ReadsBack32(d, off, ps[0]);
    } else {
      PointersReadBack(d, off + 4, ps[1..], k - 1);
    }
  }

  /** The 128 bytes of an inode: mode, owner, size, eight words the driver skips, the fifteen pointers, and what
      follows them. */
  function PrintInode(i: Inode, owner: seq<Byte>, middle: seq<Byte>, tail: seq<Byte>): (b: seq<Byte>)
    requires WritableInode(i) && |owner| == 2 && |middle| == 32 && |tail| == 28
    ensures |b| == 128
  {
    Bytes16(i.mode) + owner + Bytes32(i.size) + middle + PrintPointers(i.pointers) + tail
  }

  predicate WritableInode(i: Inode) {
    && i.mode < 0x1_0000 && i.size < 0x1_0000_0000 && |i.pointers| == 15
    && forall k | 0 <= k < 15 :: i.pointers[k] < 0x1_0000_0000
  }

  /** An inode is read back from its bytes. */
  lemma InodeReadsBack(i: Inode, owner: seq<Byte>, middle: seq<Byte>, tail: seq<Byte>)
    requires WritableInode(i) && |owner| == 2 && |middle| == 32 && |tail| == 28
    ensures ParseInode(PrintInode(i, owner, middle, tail)) == i
  {
    var d := PrintInode(i, owner, middle, tail);
    hide Bytes16, Bytes32, PrintPointers, U16, U32;
    assert StandsAt(d, 0, Bytes16(i.mode)) && StandsAt(d, 4, Bytes32(i.size));
    assert StandsAt(d, 40, PrintPointers(i.pointers));
    hide StandsAt, PrintInode;
    ReadsBack16(d, 0, i.mode);
    ReadsBack32(d, 4, i.size);
    forall k | 0 <= k < 15
      ensures U32(d, 40 + 4 * k) == i.pointers[k]
    {
      PointersReadBack(d, 40, i.pointers, k);
    }
    assert ParseInode(d).pointers == i.pointers;
  }

  /** The bytes stand on the device from `at` on. */
  ghost predicate OnDevice(v: Volume, at: nat, b: seq<Byte>) {
    v.device.Some? && forall j | 0 <= j < |b| :: b[j] == v.device.value(at + j)
  }

  /** An inode written to its slot of its group's table is the one the driver gets for its number. */
  lemma InodeFromDevice(
    v: Volume, g: nat, i: nat, inode: Inode, owner: seq<Byte>, middle: seq<Byte>, tail: seq<Byte>)
    requires ValidGeometry(v) && i < v.inodesPerGroup && g * v.inodesPerGroup + i < v.inodesCount
    requires g < |v.inodeTables| && WritableInode(inode) && |owner| == 2 && |middle| == 32 && |tail| == 28
    requires OnDevice(v, v.inodeTables[g] * v.blockSize + i * v.inodeSize, PrintInode(inode, owner, middle, tail))
    ensures GetInode(v, g * v.inodesPerGroup + i + 1) == Some(inode)
  {
    hide GetInode, ParseInode, PrintInode, OnDevice, ReadDevice, WritableInode;
    InodeLayout(v, g, i);
    InodeReadsBack(inode, owner, middle, tail);
    ReadsOnDevice(v, v.inodeTables[g] * v.blockSize + i * v.inodeSize, PrintInode(inode, owner, middle, tail));
  }

  lemma ReadsOnDevice(v: Volume, at: nat, b: seq<Byte>)
    requires OnDevice(v, at, b)
    ensures ReadDevice(v, at, |b|) == Some(b)
  {
    assert ReadDevice(v, at, |b|).value == b;
  }

  /** The pointers written to an indirect block are the ones the driver follows. */
  lemma PointersFromDevice(v: Volume, block: nat, ps: seq<nat>, i: nat)
    requires (forall j | 0 <= j < |ps| :: ps[j] < 0x1_0000_0000) && i < |ps| == Fanout(v)
    requires OnDevice(v, block * v.blockSize, PrintPointers(ps))
    ensures Pointer(v, block, i) == ps[i]
  {
    hide PrintPointers, U32, Data, OnDevice, StandsAt;
    BlockHolds(v, block, PrintPointers(ps));
    PointersReadBack(Data(v, block), 0, ps, i);
  }

  lemma BlockHolds(v: Volume, block: nat, b: seq<Byte>)
    requires OnDevice(v, block * v.blockSize, b) && |b| <= v.blockSize
    ensures StandsAt(Data(v, block), 0, b)
  {
    var d := Data(v, block);
    hide Data;
    forall j | 0 <= j < |b|
      ensures d[j] == b[j]
    {
      DataOnDevice(v, block, j);
    }
    assert d[0..|b|] == b;
  }

  // ------------------------------------------------------------- records

  datatype Record = Record(inode: nat, name: string, kind: Byte, padding: seq<Byte>)

  function Length(r: Record): nat { 8 + |Utf8.Encode(r.name)| + |r.padding| }

  predicate Writable(r: Record) {
    r.inode < 0x1_0000_0000 && |Utf8.Encode(r.name)| < 0x100 && Length(r) < 0x1_0000
  }

  /** Inode number, record length, name length, file type, name, padding. */
  function PrintRecord(r: Record): (b: seq<Byte>)
    requires Writable(r)
    ensures |b| == Length(r)
  {
    var e := Utf8.Encode(r.name);
    Bytes32(r.inode) + Bytes16(Length(r)) + [|e|, r.kind] + e + r.padding
  }

  predicate AllWritable(rs: seq<Record>) {
    forall i | 0 <= i < |rs| :: Writable(rs[i])
  }

  function PrintDirectory(rs: seq<Record>): seq<Byte>
    requires AllWritable(rs)
  {
    if rs == [] then [] else PrintRecord(rs[0]) + PrintDirectory(rs[1..])
  }

  lemma RecordParts(r: Record)
    requires Writable(r)
    ensures var e := Utf8.Encode(r.name);
            PrintRecord(r) == Bytes32(r.inode) + (Bytes16(Length(r)) + ([|e|, r.kind] + (e + r.padding)))
  {
    hide Bytes16, Bytes32, Utf8.Encode;
  }

  /** Where the parts of a record stand. */
  lemma RecordStands(d: seq<Byte>, off: nat, r: Record)
    requires Writable(r) && StandsAt(d, off, PrintRecord(r))
    ensures var e := Utf8.Encode(r.name);
            && StandsAt(d, off, Bytes32(r.inode)) && StandsAt(d, off + 4, Bytes16(Length(r)))
            && StandsAt(d, off + 6, [|e|, r.kind]) && StandsAt(d, off + 8, e)
  {
    var e := Utf8.Encode(r.name);
    RecordParts(r);
    hide StandsAt, PrintRecord, Bytes16, Bytes32, Utf8.Encode;
    StandsInside(d, off, Bytes32(r.inode), Bytes16(Length(r)) + ([|e|, r.kind] + (e + r.padding)));
    StandsInside(d, off + 4, Bytes16(Length(r)), [|e|, r.kind] + (e + r.padding));
    StandsInside(d, off + 6, [|e|, r.kind], e + r.padding);
    StandsInside(d, off + 8, e, r.padding);
  }

  /** A record is read back from its bytes, wherever they stand. */
  lemma RecordReadsBack(d: seq<Byte>, off: nat, r: Record)
    requires Writable(r) && StandsAt(d, off, PrintRecord(r))
    ensures HasName(d, off) && RecordInode(d, off) == r.inode && RecordLength(d, off) == Length(r)
    ensures RecordName(d, off) == r.name
  {
    hide PrintRecord, Bytes16, Bytes32, U16, U32, Utf8.Encode, Utf8.Decode;
    RecordStands(d, off, r);
    ReadsBack32(d, off, r.inode);
    ReadsBack16(d, off + 4, Length(r));
    var e := Utf8.Encode(r.name);
    assert d[off + 6] == d[off + 6..off + 8][0] == |e|;
    Utf8.RoundTrip(r.name);
  }

  /** A name that is no UTF-8 text reads as the empty name. */
  lemma NoTextNoName(d: seq<Byte>, off: nat)
    requires HasName(d, off) && forall s :: Utf8.Encode(s) != d[off + 8..off + 8 + d[off + 6]]
    ensures RecordName(d, off) == ""
  {
    Utf8.OnlyEncodings(d[off + 8..off + 8 + d[off + 6]]);
  }

  // ----------------------------------------------------------- directories

  /** The names that a listing of these records reports. */
  function Reported(rs: seq<Record>): seq<string> {
    if rs == [] then []
    else if rs[0].inode != 0 && rs[0].name != "." && rs[0].name != ".." then [rs[0].name] + Reported(rs[1..])
    else Reported(rs[1..])
  }

  /** The inode of the first live record with this name. */
  function FirstBearer(rs: seq<Record>, name: string): Option<nat> {
    if rs == [] then None
    else if rs[0].inode != 0 && rs[0].name == name then Some(rs[0].inode)
    else FirstBearer(rs[1..], name)
  }

  /** One step of both scans over a live or dead record that can be read. */
  lemma ScanOver(d: seq<Byte>, off: nat, r: Record, name: string)
    requires off < |d| && HasName(d, off) && RecordInode(d, off) == r.inode && RecordName(d, off) == r.name
    requires RecordLength(d, off) == Length(r) && Tiles(d, off + Length(r))
    requires Lists(d, off + Length(r)) && Scans(d, off + Length(r), name)
    ensures Tiles(d, off) && Lists(d, off) && Scans(d, off, name)
    ensures var rest := Names(d, off + Length(r));
            Names(d, off) == if r.inode != 0 && r.name != "." && r.name != ".." then [r.name] + rest else rest
    ensures Find(d, off, name) ==
            if r.inode != 0 && r.name == name then Some(r.inode) else Find(d, off + Length(r), name)
  {
    hide RecordName, RecordInode, RecordLength, Utf8.Encode;
  }

  /** A directory written record by record is listed and searched as its records say. */
  lemma {:induction false} DirectoryReadsBack(d: seq<Byte>, off: nat, rs: seq<Record>, name: string)
    requires AllWritable(rs) && off <= |d| && d[off..] == PrintDirectory(rs)
    ensures Tiles(d, off) && Lists(d, off) && Scans(d, off, name)
    ensures Names(d, off) == Reported(rs) && Find(d, off, name) == FirstBearer(rs, name)
    decreases |rs|
  {
    if rs == [] {
      hide RecordName, RecordInode, RecordLength;
      assert off == |d|;
    } else {
      hide PrintRecord, Writable, StandsAt, RecordName, RecordInode, RecordLength, HasName, Tiles, Lists, Scans;
      hide Names, Find;
      var b, rest := PrintRecord(rs[0]), PrintDirectory(rs[1..]);
      assert Length(rs[0]) > 0;
      TailAfter(d, off, b, rest);
      RecordReadsBack(d, off, rs[0]);
      hide Length, PrintDirectory;
      DirectoryReadsBack(d, off + |b|, rs[1..], name);
      ScanOver(d, off, rs[0], name);
    }
  }

  /** So a volume whose directory `n` holds these records lists and resolves accordingly. */
  lemma PrintedDirectory(v: Volume, n: nat, rs: seq<Record>, name: string)
    requires ValidGeometry(v) && AllWritable(rs) && DirectoryData(v, n) == Some(PrintDirectory(rs))
    ensures Listable(v, n) && ListDir(v, n) == Reported(rs)
    ensures Walkable(v, n, [name]) && ResolveFrom(v, n, [name]) == FirstBearer(rs, name)
  {
    var d := PrintDirectory(rs);
    assert d[0..] == d;
    DirectoryReadsBack(d, 0, rs, name);
    hide PrintDirectory, Names, Find, DirectoryData, Lists, Scans;
    assert [name][1..] == [];
  }

  /** Names directly under the root directory, inode 2. */
  lemma PrintedRoot(v: Volume, rs: seq<Record>, name: string)
    requires ValidGeometry(v) && AllWritable(rs) && DirectoryData(v, 2) == Some(PrintDirectory(rs))
    requires name != "" && '/' !in name
    ensures PathWalkable(v, "/" + name) && ResolvePath(v, "/" + name) == FirstBearer(rs, name)
    ensures PathWalkable(v, "/") && ResolvePath(v, "/") == Some(2)
  {
    PrintedDirectory(v, 2, rs, name);
    RepeatedSlashes([], name);
    OnePart(name);
    RepeatedSlashes([], "");
    hide Walkable, ResolveFrom, DirectoryData, PrintDirectory;
    assert Parts("") == [];
    assert "/" + "" == "/" && Parts("/") == [];
    RootItself(v);
  }

  lemma RootItself(v: Volume)
    requires ValidGeometry(v)
    ensures Walkable(v, 2, []) && ResolveFrom(v, 2, []) == Some(2)
  {}
}
