/** Byte-granular disk access built on 512-byte sectors (kernel/src/driver.rs, drivers/ata.zig). */
module AtaDriver {
  import opened Options
  import opened Bytes

  const SECTOR := 512
  const MAX_SECTORS := 0x1000_0000  // 28-bit sector addresses

  type Sectors = seq<seq<Byte>>

  ghost predicate ValidSectors(d: Sectors) {
    |d| <= MAX_SECTORS && forall i | 0 <= i < |d| :: |d[i]| == SECTOR
  }

  /** The disk as one flat array of bytes. */
  ghost function Flat(d: Sectors): (f: seq<Byte>)
    requires ValidSectors(d)
    ensures |f| == SECTOR * |d|
    ensures forall k | 0 <= k < |f| :: f[k] == d[k / SECTOR][k % SECTOR]
  {
    seq(SECTOR * |d|, k requires 0 <= k < SECTOR * |d| => d[k / SECTOR][k % SECTOR])
  }

  /** Sectors touched by an access, before truncation to eight bits. */
  function Span(offset: nat, size: nat): nat {
    (offset + size + 511) / SECTOR - offset / SECTOR
  }

  /** The truncated transfer holds the access exactly when at most 255 sectors are touched. */
  lemma TruncationIsHarmless(offset: nat, size: nat)
    ensures offset % SECTOR + size <= SECTOR * (Span(offset, size) % 256) <==> offset % SECTOR + size <= 255 * SECTOR
    ensures offset % SECTOR + size <= 255 * SECTOR ==> Span(offset, size) <= 255
    ensures offset % SECTOR + size <= SECTOR * Span(offset, size)
  {}

  /** First sector of an access, with the source's cast to 32 bits. */
  function StartLba(offset: nat): nat {
    offset / SECTOR % 0x1_0000_0000
  }

  /** Number of sectors to transfer, with the source's casts to 32 and then 8 bits. */
  function SectorCount(offset: nat, size: nat): nat {
    ((offset + size + 511) / SECTOR % 0x1_0000_0000 - StartLba(offset)) % 256
  }

  /** Inside a disk with 28-bit sector addresses only the cast to 8 bits can lose anything. */
  lemma CastsInside(offset: nat, size: nat, n: nat)
    requires offset + size <= SECTOR * n && n <= MAX_SECTORS
    ensures SECTOR * StartLba(offset) + offset % SECTOR == offset
    ensures SectorCount(offset, size) == Span(offset, size) % 256
    ensures StartLba(offset) + SectorCount(offset, size) <= n
  {
    var q := (offset + size + 511) / SECTOR;
    assert q <= n;
    assert offset / SECTOR <= q;
  }

  lemma SliceOfSlice(f: seq<Byte>, a: nat, b: nat, i: nat, n: nat)
    requires a + i + n <= b <= |f|
    ensures f[a..b][i..i + n] == f[a + i..a + i + n]
  {
    var s := f[a..b];
    var u, v := s[i..i + n], f[a + i..a + i + n];
    assert forall k | 0 <= k < n :: u[k] == s[i + k] == v[k];
  }

  lemma PatchOfSlice(f: seq<Byte>, a: nat, b: nat, i: nat, data: seq<Byte>)
    requires a + i + |data| <= b <= |f|
    ensures var buf := f[a..b];
            f[..a] + (buf[..i] + data + buf[i + |data|..]) + f[b..] == f[..a + i] + data + f[a + i + |data|..]
  {}

  lemma FlatSector(d: Sectors, i: nat)
    requires ValidSectors(d) && i < |d|
    ensures Flat(d)[SECTOR * i..SECTOR * (i + 1)] == d[i]
  {}

  class AtaDisk {
    var sectors: Sectors

    constructor (d: Sectors)
      requires ValidSectors(d)
      ensures sectors == d
    {
      sectors := d;
    }

    /** `ata_read_sectors`: one sector after the other. */
    method ReadSectors(lba: nat, count: nat) returns (buf: seq<Byte>)
      requires ValidSectors(sectors) && lba + count <= |sectors|
      ensures buf == Flat(sectors)[SECTOR * lba..SECTOR * (lba + count)]
    {
      buf := [];
      var n := 0;
      while n < count
        invariant 0 <= n <= count && buf == Flat(sectors)[SECTOR * lba..SECTOR * (lba + n)]
      {
        FlatSector(sectors, lba + n);
        buf := buf + sectors[lba + n];
        n := n + 1;
      }
    }

    /** `ata_write_sectors`. */
    method WriteSectors(lba: nat, count: nat, buf: seq<Byte>)
      requires ValidSectors(sectors) && lba + count <= |sectors| && |buf| == SECTOR * count
      modifies this
      ensures ValidSectors(sectors) && |sectors| == |old(sectors)|
      ensures forall i | 0 <= i < |sectors| ::
                sectors[i] == if lba <= i < lba + count then buf[SECTOR * (i - lba)..SECTOR * (i - lba + 1)]
                              else old(sectors)[i]
    {
      var n := 0;
      while n < count
        invariant 0 <= n <= count && |sectors| == |old(sectors)| && ValidSectors(sectors)
        invariant forall i | 0 <= i < |sectors| ::
                    sectors[i] == if lba <= i < lba + n then buf[SECTOR * (i - lba)..SECTOR * (i - lba + 1)]
                                  else old(sectors)[i]
      {
        sectors := sectors[lba + n := buf[SECTOR * n..SECTOR * (n + 1)]];
        n := n + 1;
      }
    }

    /** `AtaDriver::read`; none stands for the out-of-range panic of the final slice. */
    method Read(offset: nat, size: nat) returns (data: Option<seq<Byte>>)
      requires ValidSectors(sectors) && offset + size <= SECTOR * |sectors|
      ensures data == if offset % SECTOR + size <= 255 * SECTOR
                      then Some(Flat(sectors)[offset..offset + size]) else None
    {
      TruncationIsHarmless(offset, size);
      CastsInside(offset, size, |sectors|);
      hide StartLba, SectorCount, Span;
      var startLba, count := StartLba(offset), SectorCount(offset, size);
      var buf := ReadSectors(startLba, count);
      var startIdx := offset % SECTOR;
      if startIdx + size > |buf| {
        return None;
      }
      SliceOfSlice(Flat(sectors), SECTOR * startLba, SECTOR * (startLba + count), startIdx, size);
      return Some(buf[startIdx..startIdx + size]);
    }

    /** `AtaDriver::write`; false stands for the panic, which leaves the disk alone. */
    method Write(offset: nat, data: seq<Byte>) returns (ok: bool)
      requires ValidSectors(sectors) && offset + |data| <= SECTOR * |sectors|
      modifies this
      ensures ValidSectors(sectors)
      ensures ok <==> offset % SECTOR + |data| <= 255 * SECTOR
      ensures var f := Flat(old(sectors));
              Flat(sectors) == if ok then f[..offset] + data + f[offset + |data|..] else f
    {
      TruncationIsHarmless(offset, |data|);
      CastsInside(offset, |data|, |sectors|);
      hide StartLba, SectorCount, Span;
      var startLba, count := StartLba(offset), SectorCount(offset, |data|);
      var buf := ReadSectors(startLba, count);
      var startIdx := offset % SECTOR;
      if startIdx + |data| > |buf| {
        return false;
      }
      var patched := buf[..startIdx] + data + buf[startIdx + |data|..];
      WriteSectors(startLba, count, patched);
      Patched(old(sectors), sectors, startLba, count, patched);
      PatchOfSlice(Flat(old(sectors)), SECTOR * startLba, SECTOR * (startLba + count), startIdx, data);
      return true;
    }
  }

  /** Writing whole sectors replaces one contiguous range of the flat disk. */
  lemma Patched(d: Sectors, d': Sectors, lba: nat, count: nat, buf: seq<Byte>)
    requires ValidSectors(d) && ValidSectors(d') && |d| == |d'| && lba + count <= |d| && |buf| == SECTOR * count
    requires forall i | 0 <= i < |d| ::
               d'[i] == if lba <= i < lba + count then buf[SECTOR * (i - lba)..SECTOR * (i - lba + 1)] else d[i]
    ensures Flat(d') == Flat(d)[..SECTOR * lba] + buf + Flat(d)[SECTOR * (lba + count)..]
  {}
}
