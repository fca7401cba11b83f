/** Inodes, directories and path resolution (kernel/src/fs/ext2.rs). */
module Ext2Dir {
  import opened Options
  import opened Bytes
  import opened Arith
  import opened Ext2Data
  import opened Text
  import Utf8

  const EXT2_ROOT_INODE := 2

  datatype Inode = Inode(mode: nat, size: nat, pointers: seq<nat>)

  /** The block groups hold all inodes the superblock counts; indexing them panics otherwise. */
  ghost predicate ValidGeometry(v: Volume) {
    v.inodesPerGroup > 0 && v.inodesCount <= |v.inodeTables| * v.inodesPerGroup
  }

  /** The 128 bytes of an on-disk inode. */
  function ParseInode(b: seq<Byte>): (i: Inode)
    requires |b| == 128
    ensures |i.pointers| == 15
  {
    Inode(U16(b, 0), U32(b, 4), seq(15, k requires 0 <= k < 15 => U32(b, 40 + 4 * k)))
  }

  function GetInode(v: Volume, n: nat): (r: Option<Inode>)
    requires ValidGeometry(v)
    ensures r.Some? ==> |r.value.pointers| == 15
  {
    if n == 0 || n > v.inodesCount then None
    else
      DivBound(n - 1, |v.inodeTables|, v.inodesPerGroup);
      var table := v.inodeTables[Div(n - 1, v.inodesPerGroup)];
      match ReadDevice(v, table * v.blockSize + Mod(n - 1, v.inodesPerGroup) * v.inodeSize, 128)
      case None => None
      case Some(b) => Some(ParseInode(b))
  }

  /** Inode number `g * inodesPerGroup + i + 1` lies at slot `i` of the inode table of group `g`. */
  lemma InodeLayout(v: Volume, g: nat, i: nat)
    requires ValidGeometry(v) && i < v.inodesPerGroup && g * v.inodesPerGroup + i < v.inodesCount
    ensures g < |v.inodeTables|
    ensures var b := ReadDevice(v, v.inodeTables[g] * v.blockSize + i * v.inodeSize, 128);
            GetInode(v, g * v.inodesPerGroup + i + 1) == if b.None? then None else Some(ParseInode(b.value))
  {
    var n := g * v.inodesPerGroup + i;
    DivBound(n, |v.inodeTables|, v.inodesPerGroup);
    DivShift(i, g, v.inodesPerGroup);
    DivSmall(i, v.inodesPerGroup);
    hide Div, Mod, ReadDevice, ParseInode;
  }

  /** An inode is found exactly for the numbers from 1 to the superblock's count, if the device can be read. */
  lemma InodeExistsIff(v: Volume, n: nat)
    requires ValidGeometry(v)
    ensures GetInode(v, n).Some? <==> v.device.Some? && 1 <= n <= v.inodesCount
  {}

  /** `(i_mode & 0xF000) == 0x4000`. */
  predicate IsDirectory(i: Inode) { i.mode / 0x1000 == 4 }

  /** The quotient is the masked mode of the source. */
  lemma DirectoryBits(mode: bv16, i: Inode)
    requires i.mode == mode as int
    ensures IsDirectory(i) <==> mode & 0xF000 == 0x4000
  {
    assert mode & 0xF000 == (mode >> 12) << 12;
    assert (mode >> 12) as int == mode as int / 0x1000;
  }

  // ------------------------------------------------------------- records

  /** The fixed part of the record at `off` (inode number, length, name length) can be read. */
  predicate HasHeader(d: seq<Byte>, off: nat) { off + 7 <= |d| }

  function RecordInode(d: seq<Byte>, off: nat): nat
    requires HasHeader(d, off)
  {
    U32(d, off)
  }

  function RecordLength(d: seq<Byte>, off: nat): nat
    requires HasHeader(d, off)
  {
    U16(d, off + 4)
  }

  predicate HasName(d: seq<Byte>, off: nat) { HasHeader(d, off) && off + 8 + d[off + 6] <= |d| }

  /** The record's name; bytes that are not UTF-8 read as the empty name. */
  function RecordName(d: seq<Byte>, off: nat): string
    requires HasName(d, off)
  {
    match Utf8.Decode(d[off + 8..off + 8 + d[off + 6]])
    case Some(name) => name
    case None => ""
  }

  /** The record is live and has this name. */
  predicate Matches(d: seq<Byte>, off: nat, part: string) {
    HasName(d, off) && RecordInode(d, off) != 0 && RecordName(d, off) == part
  }

  /** `resolve_path`'s scan for `part` from `off` reads inside the data and advances until it ends: the name of a dead
      record and the extent of the last record do not matter. */
  predicate Scans(d: seq<Byte>, off: nat, part: string)
    decreases |d| - off
  {
    off >= |d| ||
    (&& HasHeader(d, off) && (RecordInode(d, off) != 0 ==> HasName(d, off))
     && (Matches(d, off, part) || (RecordLength(d, off) > 0 && Scans(d, off + RecordLength(d, off), part))))
  }

  /** `list_dir`'s scan from `off` reads inside the data; it stops at a zero length without reading that name. */
  predicate Lists(d: seq<Byte>, off: nat)
    decreases |d| - off
  {
    off >= |d| ||
    (HasHeader(d, off) &&
     (RecordLength(d, off) > 0 ==>
        (RecordInode(d, off) != 0 ==> HasName(d, off)) && Lists(d, off + RecordLength(d, off))))
  }

  /** The inode number of the first live record with this name. */
  function Find(d: seq<Byte>, off: nat, part: string): Option<nat>
    requires Scans(d, off, part)
    decreases |d| - off
  {
    if off >= |d| then None
    else if Matches(d, off, part) then Some(RecordInode(d, off))
    else Find(d, off + RecordLength(d, off), part)
  }

  /** Names of the live records except dot and dot-dot, in order, up to a record of length zero. */
  function Names(d: seq<Byte>, off: nat): seq<string>
    requires Lists(d, off)
    decreases |d| - off
  {
    if off >= |d| || RecordLength(d, off) == 0 then []
    else
      var rest := Names(d, off + RecordLength(d, off));
      if RecordInode(d, off) != 0 && RecordName(d, off) != "." && RecordName(d, off) != ".."
      then [RecordName(d, off)] + rest else rest
  }

  /** The records end in one of length zero that bears this name. */
  predicate EndsOn(d: seq<Byte>, off: nat, name: string)
    decreases |d| - off
  {
    off < |d| && HasHeader(d, off) &&
    if RecordLength(d, off) == 0 then Matches(d, off, name) else EndsOn(d, off + RecordLength(d, off), name)
  }

  /** A proper name is found in a directory exactly when it is listed, or borne by a final record of length zero, which
      the listing passes over. */
  lemma {:induction false} FoundIffListed(d: seq<Byte>, off: nat, name: string)
    requires Scans(d, off, name) && Lists(d, off) && name != "." && name != ".."
    ensures Find(d, off, name).Some? <==> name in Names(d, off) || EndsOn(d, off, name)
    decreases |d| - off
  {
    hide RecordName;
    if off < |d| && RecordLength(d, off) > 0 && !Matches(d, off, name) {
      FoundIffListed(d, off + RecordLength(d, off), name);
    }
  }

  /** The data from `off` on is a row of records that advance and, if live, have their names inside. */
  predicate Tiles(d: seq<Byte>, off: nat)
    decreases |d| - off
  {
    off >= |d| ||
    (&& HasHeader(d, off) && (RecordInode(d, off) != 0 ==> HasName(d, off))
     && RecordLength(d, off) > 0 && Tiles(d, off + RecordLength(d, off)))
  }

  /** On such data every scan ends, and finding and listing agree. */
  lemma {:induction false} TilesScan(d: seq<Byte>, off: nat, name: string)
    requires Tiles(d, off)
    ensures Scans(d, off, name) && Lists(d, off) && !EndsOn(d, off, name)
    decreases |d| - off
  {
    hide RecordName;
    if off < |d| {
      TilesScan(d, off + RecordLength(d, off), name);
    }
  }

  // ------------------------------------------------- when the scan ends at all

  /** The scan loop of `resolve_path` between two iterations. */
  datatype Scan = At(off: nat) | Done(found: Option<nat>) | Panicked

  /** One iteration; slicing outside the data panics. */
  function ScanStep(d: seq<Byte>, s: Scan, part: string): Scan {
    match s
    case Done(_) => s
    case Panicked => s
    case At(off) =>
      if off >= |d| then Done(None)
      else if !HasHeader(d, off) then Panicked
      else if RecordInode(d, off) == 0 then At(off + RecordLength(d, off))
      else if !HasName(d, off) then Panicked
      else if RecordName(d, off) == part then Done(Some(RecordInode(d, off)))
      else At(off + RecordLength(d, off))
  }

  function ScanSteps(d: seq<Byte>, s: Scan, part: string, n: nat): Scan
    decreases n
  {
    if n == 0 then s else ScanSteps(d, ScanStep(d, s, part), part, n - 1)
  }

  lemma {:induction false} EndedStays(d: seq<Byte>, s: Scan, part: string, n: nat)
    requires !s.At?
    ensures ScanSteps(d, s, part, n) == s
  {
    if n > 0 {
      EndedStays(d, s, part, n - 1);
    }
  }

  /** Outside the condition the scan panics or goes on for ever. */
  lemma {:induction false} NeverEnds(d: seq<Byte>, off: nat, part: string, n: nat)
    requires !Scans(d, off, part)
    ensures !ScanSteps(d, At(off), part, n).Done?
    decreases n
  {
    hide RecordName;
    if n > 0 {
      var s := ScanStep(d, At(off), part);
      if s.At? {
        NeverEnds(d, s.off, part, n - 1);
      } else {
        EndedStays(d, s, part, n - 1);
      }
    }
  }

  /** Within it the scan ends with the first live record of that name. */
  lemma {:induction false} EndsWithFind(d: seq<Byte>, off: nat, part: string) returns (n: nat)
    requires Scans(d, off, part)
    ensures ScanSteps(d, At(off), part, n) == Done(Find(d, off, part))
    decreases |d| - off
  {
    hide RecordName;
    if off >= |d| || Matches(d, off, part) {
      n := 1;
      assert ScanSteps(d, At(off), part, 1) == ScanSteps(d, ScanStep(d, At(off), part), part, 0);
    } else {
      var k := EndsWithFind(d, off + RecordLength(d, off), part);
      n := k + 1;
    }
  }

  /** The scan for a name ends without a panic exactly under the condition `Scans`. */
  lemma ScanEndsIff(d: seq<Byte>, part: string)
    ensures (exists n: nat :: ScanSteps(d, At(0), part, n).Done?) <==> Scans(d, 0, part)
  {
    if Scans(d, 0, part) {
      var n := EndsWithFind(d, 0, part);
    } else {
      forall n: nat ensures !ScanSteps(d, At(0), part, n).Done? {
        NeverEnds(d, 0, part, n);
      }
    }
  }

  /** A record of length zero that does not match keeps the scan where it is, after any number of iterations. */
  lemma {:induction false} ZeroLengthStalls(d: seq<Byte>, off: nat, part: string, n: nat)
    requires off < |d| && HasHeader(d, off) && RecordLength(d, off) == 0 && !Matches(d, off, part)
    requires RecordInode(d, off) != 0 ==> HasName(d, off)
    ensures ScanSteps(d, At(off), part, n) == At(off) && !Scans(d, off, part)
  {
    hide RecordName;
    if n > 0 {
      ZeroLengthStalls(d, off, part, n - 1);
    }
  }

  // ------------------------------------------------------------- the loops

  /** `resolve_path`'s scan of one directory. */
  method FindEntry(d: seq<Byte>, part: string) returns (found: Option<nat>)
    requires Scans(d, 0, part)
    ensures found == Find(d, 0, part)
  {
    hide RecordName;
    var offset: nat := 0;
    while offset < |d|
      invariant Scans(d, offset, part) && Find(d, offset, part) == Find(d, 0, part)
      decreases |d| - offset
    {
      var inode, recLen := U32(d, offset), U16(d, offset + 4);
      if inode != 0 {
        var name := RecordName(d, offset);
        if name == part {
          return Some(inode);
        }
      }
      offset := offset + recLen;
    }
    return None;
  }

  /** `list_dir`'s scan of one directory; none for a panic, which happens exactly outside `Lists`. */
  method ListEntries(d: seq<Byte>) returns (r: Option<seq<string>>)
    ensures r == if Lists(d, 0) then Some(Names(d, 0)) else None
  {
    hide RecordName;
    var entries: seq<string> := [];
    var offset: nat := 0;
    while offset < |d|
      invariant Lists(d, offset) == Lists(d, 0)
      invariant Lists(d, 0) ==> entries + Names(d, offset) == Names(d, 0)
      decreases |d| - offset
    {
      if !HasHeader(d, offset) { return None; }
      var inode, recLen := U32(d, offset), U16(d, offset + 4);
      if inode != 0 && recLen > 0 {
        if !HasName(d, offset) { return None; }
        var name := RecordName(d, offset);
        if name != "." && name != ".." {
          entries := entries + [name];
        }
      }
      if recLen == 0 { break; }
      offset := offset + recLen;
    }
    assert Lists(d, offset) && entries == entries + Names(d, offset);
    return Some(entries);
  }

  // ------------------------------------------------------------- directories

  /** The data of directory `n`, if `n` is a directory. */
  function DirectoryData(v: Volume, n: nat): Option<seq<Byte>>
    requires ValidGeometry(v)
  {
    match GetInode(v, n)
    case None => None
    case Some(i) => if IsDirectory(i) then Some(Fetched(v, i.pointers, i.size)) else None
  }

  /** Every directory on the way can be scanned for its part. */
  ghost predicate Walkable(v: Volume, start: nat, parts: seq<string>)
    requires ValidGeometry(v)
    decreases |parts|
  {
    parts == [] ||
    match DirectoryData(v, start)
    case None => true
    case Some(d) =>
      && Scans(d, 0, parts[0])
      && (Find(d, 0, parts[0]).Some? ==> Walkable(v, Find(d, 0, parts[0]).value, parts[1..]))
  }

  ghost function ResolveFrom(v: Volume, start: nat, parts: seq<string>): Option<nat>
    requires ValidGeometry(v) && Walkable(v, start, parts)
    decreases |parts|
  {
    if parts == [] then Some(start)
    else match DirectoryData(v, start)
      case None => None
      case Some(d) =>
        match Find(d, 0, parts[0])
        case None => None
        case Some(n) => ResolveFrom(v, n, parts[1..])
  }

  ghost predicate Listable(v: Volume, n: nat)
    requires ValidGeometry(v)
  {
    DirectoryData(v, n).Some? ==> Lists(DirectoryData(v, n).value, 0)
  }

  ghost function ListDir(v: Volume, n: nat): seq<string>
    requires ValidGeometry(v) && Listable(v, n)
  {
    match DirectoryData(v, n)
    case None => []
    case Some(d) => Names(d, 0)
  }

  // ------------------------------------------------------------- paths

  /** `path.split('/')` without the empty pieces. */
  function Parts(path: string): seq<string>
    decreases |path|
  {
    var i := IndexOf(path, '/');
    var rest := if i < |path| then Parts(path[i + 1..]) else [];
    if i == 0 then rest else [path[..i]] + rest
  }

  lemma {:induction false} PartsOfConcat(a: string, b: string)
    ensures Parts(a + "/" + b) == Parts(a) + Parts(b)
    decreases |a|
  {
    hide IndexOf;
    IndexOfPiece(a, b, '/');
    var p, i := a + "/" + b, IndexOf(a, '/');
    assert p[..i] == a[..i];
    if i < |a| {
      assert p[i + 1..] == a[i + 1..] + "/" + b;
      PartsOfConcat(a[i + 1..], b);
    } else {
      assert p[i + 1..] == b;
    }
  }

  lemma OnePart(name: string)
    requires name != "" && '/' !in name
    ensures Parts(name) == [name]
  {
    assert name[..|name|] == name;
  }

  /** Repeated slashes change nothing. */
  lemma RepeatedSlashes(a: string, b: string)
    ensures Parts(a + "//" + b) == Parts(a + "/" + b)
    ensures Parts("/" + b) == Parts(b)
  {
    assert a + "//" + b == a + "/" + ("/" + b);
    assert "/" + b == "" + "/" + b;
    PartsOfConcat(a, "/" + b);
    PartsOfConcat("", b);
    PartsOfConcat(a, b);
    assert Parts("") == [];
  }

  ghost predicate PathWalkable(v: Volume, path: string)
    requires ValidGeometry(v)
  {
    Walkable(v, EXT2_ROOT_INODE, Parts(path))
  }

  ghost function ResolvePath(v: Volume, path: string): Option<nat>
    requires ValidGeometry(v) && PathWalkable(v, path)
  {
    ResolveFrom(v, EXT2_ROOT_INODE, Parts(path))
  }

  lemma {:induction false} ResolveComposes(v: Volume, start: nat, a: seq<string>, b: seq<string>)
    requires ValidGeometry(v) && Walkable(v, start, a + b)
    ensures Walkable(v, start, a)
    ensures ResolveFrom(v, start, a).Some? ==> Walkable(v, ResolveFrom(v, start, a).value, b)
    ensures ResolveFrom(v, start, a + b) ==
            match ResolveFrom(v, start, a)
            case None => None
            case Some(n) => ResolveFrom(v, n, b)
    decreases |a|
  {
    hide DirectoryData, Find, Scans;
    if a == [] {
      assert a + b == b;
    } else {
      assert (a + b)[0] == a[0] && (a + b)[1..] == a[1..] + b;
      match DirectoryData(v, start)
      case None =>
      case Some(d) =>
        match Find(d, 0, a[0])
        case None =>
        case Some(n) => ResolveComposes(v, n, a[1..], b);
    }
  }

  /** Resolving a joined path is resolving its second half from where the first half leads. */
  lemma PathsCompose(v: Volume, a: string, b: string)
    requires ValidGeometry(v) && PathWalkable(v, a + "/" + b)
    ensures PathWalkable(v, a)
    ensures ResolvePath(v, a).Some? ==> Walkable(v, ResolvePath(v, a).value, Parts(b))
    ensures ResolvePath(v, a + "/" + b) ==
            match ResolvePath(v, a)
            case None => None
            case Some(n) => ResolveFrom(v, n, Parts(b))
  {
    PartsOfConcat(a, b);
    ResolveComposes(v, EXT2_ROOT_INODE, Parts(a), Parts(b));
  }

  lemma OneStep(v: Volume, n: nat, name: string)
    requires ValidGeometry(v) && Walkable(v, n, [name])
    ensures ResolveFrom(v, n, [name]).Some? <==>
            DirectoryData(v, n).Some? && Find(DirectoryData(v, n).value, 0, name).Some?
  {
    assert [name][1..] == [];
  }

  /** One more name resolves from a directory exactly when `list_dir` reports it, or a final record of length zero bears
      it; in a directory whose records all advance, exactly when `list_dir` reports it. */
  lemma ResolvesIffListed(v: Volume, dir: string, name: string, n: nat)
    requires name != "" && name != "." && name != ".." && '/' !in name
    requires ValidGeometry(v) && PathWalkable(v, dir + "/" + name) && PathWalkable(v, dir)
    requires ResolvePath(v, dir) == Some(n) && Listable(v, n)
    ensures ResolvePath(v, dir + "/" + name).Some? <==>
            name in ListDir(v, n) || (DirectoryData(v, n).Some? && EndsOn(DirectoryData(v, n).value, 0, name))
    ensures DirectoryData(v, n).Some? && Tiles(DirectoryData(v, n).value, 0) ==>
            (ResolvePath(v, dir + "/" + name).Some? <==> name in ListDir(v, n))
  {
    PathsCompose(v, dir, name);
    assert IndexOf(name, '/') == |name|;
    OnePart(name);
    hide ResolvePath, ResolveFrom, Parts, Scans, Find, Lists, Names, EndsOn, Tiles, DirectoryData;
    OneStep(v, n, name);
    var d := DirectoryData(v, n);
    if d.Some? {
      FoundIffListed(d.value, 0, name);
      if Tiles(d.value, 0) {
        TilesScan(d.value, 0, name);
      }
    }
  }

  method ReadDirectory(v: Volume, n: nat) returns (d: Option<seq<Byte>>)
    requires ValidGeometry(v)
    ensures d == DirectoryData(v, n)
  {
    var inode := GetInode(v, n);
    if inode.None? || !IsDirectory(inode.value) {
      return None;
    }
    var data := ReadInodeData(v, inode.value.pointers, inode.value.size);
    return Some(data);
  }

  /** `resolve_path`: it ends on every path whose directories can be scanned. */
  method Resolve(v: Volume, path: string) returns (n: Option<nat>)
    requires ValidGeometry(v) && PathWalkable(v, path)
    ensures n == ResolvePath(v, path)
  {
    hide DirectoryData, Find, Parts, Scans;
    var current: nat := EXT2_ROOT_INODE;
    var parts := Parts(path);
    var i := 0;
    assert parts[0..] == parts;
    while i < |parts|
      invariant 0 <= i <= |parts| && Walkable(v, current, parts[i..])
      invariant ResolveFrom(v, current, parts[i..]) == ResolvePath(v, path)
    {
      assert parts[i..][0] == parts[i] && parts[i..][1..] == parts[i + 1..];
      var d := ReadDirectory(v, current);
      if d.None? { return None; }
      var found := FindEntry(d.value, parts[i]);
      if found.None? { return None; }
      current := found.value;
      i := i + 1;
    }
    return Some(current);
  }

  /** `list_dir`; none for a panic. */
  method List(v: Volume, n: nat) returns (r: Option<seq<string>>)
    requires ValidGeometry(v)
    ensures r == if Listable(v, n) then Some(ListDir(v, n)) else None
  {
    var d := ReadDirectory(v, n);
    if d.None? { return Some([]); }
    r := ListEntries(d.value);
  }
}
