/** RAMFS files and per-session descriptors (kernel/src/vfs.rs). */
module Vfs {
  import opened Options
  import opened Bytes
  import opened Arith

  datatype Descriptor = Descriptor(path: string, isWriteable: bool, offset: nat)

  type Table = map<nat, Descriptor>

  datatype Files = Files(tables: map<nat, Table>, ramfs: map<string, seq<Byte>>, nextFd: nat)

  predicate IsDevice(path: string) { "/dev/" <= path }
  predicate IsExt2(path: string) { "/mnt/ext2/" <= path }
  predicate IsRam(path: string) { !IsDevice(path) && !IsExt2(path) }

  /** `path.contains("..") || path.contains('\0')`. */
  predicate IsRefused(path: string) {
    (exists i | 0 <= i < |path| - 1 :: path[i] == '.' && path[i + 1] == '.') || '\0' in path
  }

  predicate HasFd(s: Files, session: nat, fd: nat) {
    session in s.tables && fd in s.tables[session]
  }

  function Fd(s: Files, session: nat, fd: nat): Descriptor
    requires HasFd(s, session, fd)
  {
    s.tables[session][fd]
  }

  function TableOf(s: Files, session: nat): Table {
    if session in s.tables then s.tables[session] else map[]
  }

  function Seek(s: Files, session: nat, fd: nat, offset: nat): Files
    requires HasFd(s, session, fd)
  {
    var table: Table := s.tables[session];
    var moved: Table := table[fd := table[fd].(offset := offset)];
    Files(s.tables[session := moved], s.ramfs, s.nextFd)
  }

  // ------------------------------------------------------------- operations

  function OpenFile(s: Files, session: nat, path: string, write: bool): (Files, Result<nat>) {
    if IsRefused(path) then (s, Err("Invalid path"))
    else
      var ramfs := if write && !IsDevice(path) && path !in s.ramfs then s.ramfs[path := []] else s.ramfs;
      if !IsDevice(path) && path !in ramfs then (s, Err("File not found"))
      else
        var table: Table := TableOf(s, session)[s.nextFd := Descriptor(path, write, 0)];
        (Files(s.tables[session := table], ramfs, s.nextFd + 1), Ok(s.nextFd))
  }

  function CloseFile(s: Files, session: nat, fd: nat): (Files, Result<()>) {
    if HasFd(s, session, fd) then
      var rest: Table := s.tables[session] - {fd};
      (Files(s.tables[session := rest], s.ramfs, s.nextFd), Ok(()))
    else (s, Err("Invalid file descriptor"))
  }

  /** Up to `size` bytes of `content` from `offset`; none past the end. */
  function Slice(content: seq<Byte>, offset: nat, size: nat): seq<Byte> {
    if offset >= |content| then [] else content[offset..Min(offset + size, |content|)]
  }

  /** `read`. What the device driver and the ext2 volume answer for the descriptor's path is given:
      none when the path has no driver, or names no regular ext2 file. */
  function ReadFile(s: Files, session: nat, fd: nat, size: nat, device: Option<seq<Byte>>, ext2: Option<seq<Byte>>)
    : (Files, Result<seq<Byte>>)
  {
    if session !in s.tables then (s, Err("Session not found"))
    else if fd !in s.tables[session] then (s, Err("Invalid file descriptor"))
    else
      var d := Fd(s, session, fd);
      if IsDevice(d.path) && device.Some? then
        (Seek(s, session, fd, d.offset + |device.value|), Ok(device.value))
      else if IsExt2(d.path) && ext2.Some? then
        var data := Slice(ext2.value, d.offset, size);
        (Seek(s, session, fd, d.offset + |data|), Ok(data))
      else if d.path in s.ramfs then
        var data := Slice(s.ramfs[d.path], d.offset, size);
        (Seek(s, session, fd, d.offset + |data|), Ok(data))
      else (s, Err("File not found in RAMFS"))
  }

  /** Grow with zeroes to hold the data, then copy it in. */
  function Patch(content: seq<Byte>, offset: nat, data: seq<Byte>): (r: seq<Byte>)
    ensures |r| == if offset + |data| > |content| then offset + |data| else |content|
  {
    var end := offset + |data|;
    var grown := if end > |content| then content + seq(end - |content|, _ => 0) else content;
    grown[..offset] + data + grown[end..]
  }

  /** `write`; the device driver's answer is given. */
  function WriteFile(s: Files, session: nat, fd: nat, data: seq<Byte>, device: Option<nat>): (Files, Result<nat>) {
    if session !in s.tables then (s, Err("Session not found"))
    else if fd !in s.tables[session] then (s, Err("Invalid file descriptor"))
    else
      var d := Fd(s, session, fd);
      if !d.isWriteable then (s, Err("FD not writable"))
      else if IsDevice(d.path) then
        if device.None? then (s, Err("Device write failed"))
        else (Seek(s, session, fd, d.offset + device.value), Ok(device.value))
      else if d.path in s.ramfs then
        var s' := s.(ramfs := s.ramfs[d.path := Patch(s.ramfs[d.path], d.offset, data)]);
        (Seek(s', session, fd, d.offset + |data|), Ok(|data|))
      else (s, Err("File not found in RAMFS"))
  }

  datatype Op =
    | OpenOp(session: nat, path: string, write: bool)
    | CloseOp(session: nat, fd: nat)
    | ReadOp(session: nat, fd: nat, size: nat, device: Option<seq<Byte>>, ext2: Option<seq<Byte>>)
    | WriteOp(session: nat, fd: nat, data: seq<Byte>, written: Option<nat>)

  function Step(s: Files, op: Op): Files {
    match op
    case OpenOp(session, path, write) => OpenFile(s, session, path, write).0
    case CloseOp(session, fd) => CloseFile(s, session, fd).0
    case ReadOp(session, fd, size, device, ext2) => ReadFile(s, session, fd, size, device, ext2).0
    case WriteOp(session, fd, data, written) => WriteFile(s, session, fd, data, written).0
  }

  // ------------------------------------------------------------- invariant

  /** A descriptor of a RAMFS path names an existing file and stands inside it. */
  ghost predicate DescriptorOk(s: Files, d: Descriptor) {
    IsRam(d.path) ==> d.path in s.ramfs && d.offset <= |s.ramfs[d.path]|
  }

  ghost predicate Valid(s: Files) {
    forall session: nat, fd: nat | HasFd(s, session, fd) :: fd < s.nextFd && DescriptorOk(s, Fd(s, session, fd))
  }

  /** No file disappears or shrinks. */
  ghost predicate Grows(s: Files, s': Files) {
    forall path <- s.ramfs :: path in s'.ramfs && |s.ramfs[path]| <= |s'.ramfs[path]|
  }

  lemma StepGrows(s: Files, op: Op)
    ensures Grows(s, Step(s, op))
  {}

  /** Moving one descriptor to a place inside its file keeps the invariant. */
  lemma SeekValid(s: Files, s': Files, session: nat, fd: nat, offset: nat)
    requires Valid(s) && HasFd(s, session, fd) && Grows(s, s') && s'.tables == s.tables && s'.nextFd == s.nextFd
    requires DescriptorOk(s', Fd(s, session, fd).(offset := offset))
    ensures Valid(Seek(s', session, fd, offset))
  {
    var s'' := Seek(s', session, fd, offset);
    forall x: nat, y: nat | HasFd(s'', x, y)
      ensures y < s''.nextFd && DescriptorOk(s'', Fd(s'', x, y))
    {
      assert HasFd(s, x, y);
      assert DescriptorOk(s, Fd(s, x, y));
    }
  }

  lemma OpenValid(s: Files, session: nat, path: string, write: bool)
    requires Valid(s)
    ensures Valid(OpenFile(s, session, path, write).0)
  {
    var s' := OpenFile(s, session, path, write).0;
    hide IsRefused;
    forall x: nat, y: nat | HasFd(s', x, y)
      ensures y < s'.nextFd && DescriptorOk(s', Fd(s', x, y))
    {
      if HasFd(s, x, y) {
        assert y < s.nextFd && DescriptorOk(s, Fd(s, x, y));
      }
    }
  }

  lemma CloseValid(s: Files, session: nat, fd: nat)
    requires Valid(s)
    ensures Valid(CloseFile(s, session, fd).0)
  {
    var s' := CloseFile(s, session, fd).0;
    forall x: nat, y: nat | HasFd(s', x, y)
      ensures y < s'.nextFd && DescriptorOk(s', Fd(s', x, y))
    {
      assert HasFd(s, x, y);
    }
  }

  lemma ReadValid(s: Files, session: nat, fd: nat, size: nat, device: Option<seq<Byte>>, ext2: Option<seq<Byte>>)
    requires Valid(s)
    ensures Valid(ReadFile(s, session, fd, size, device, ext2).0)
  {
    if HasFd(s, session, fd) {
      var d := Fd(s, session, fd);
      assert DescriptorOk(s, d);
      hide Valid, IsDevice, IsExt2;
      if IsDevice(d.path) && device.Some? {
        SeekValid(s, s, session, fd, d.offset + |device.value|);
      } else if IsExt2(d.path) && ext2.Some? {
        SeekValid(s, s, session, fd, d.offset + |Slice(ext2.value, d.offset, size)|);
      } else if d.path in s.ramfs {
        SeekValid(s, s, session, fd, d.offset + |Slice(s.ramfs[d.path], d.offset, size)|);
      }
    }
  }

  lemma WriteValid(s: Files, session: nat, fd: nat, data: seq<Byte>, written: Option<nat>)
    requires Valid(s)
    ensures Valid(WriteFile(s, session, fd, data, written).0)
  {
    if HasFd(s, session, fd) {
      var d := Fd(s, session, fd);
      assert DescriptorOk(s, d);
      hide Valid, IsDevice, IsExt2, Patch;
      if IsDevice(d.path) {
        if d.isWriteable && written.Some? {
          SeekValid(s, s, session, fd, d.offset + written.value);
        }
      } else if d.isWriteable && d.path in s.ramfs {
        var s1 := s.(ramfs := s.ramfs[d.path := Patch(s.ramfs[d.path], d.offset, data)]);
        SeekValid(s, s1, session, fd, d.offset + |data|);
      }
    }
  }

  lemma StepValid(s: Files, op: Op)
    requires Valid(s)
    ensures Valid(Step(s, op))
  {
    hide Valid, OpenFile, CloseFile, ReadFile, WriteFile;
    match op
    case OpenOp(session, path, write) => OpenValid(s, session, path, write);
    case CloseOp(session, fd) => CloseValid(s, session, fd);
    case ReadOp(session, fd, size, device, ext2) => ReadValid(s, session, fd, size, device, ext2);
    case WriteOp(session, fd, data, written) => WriteValid(s, session, fd, data, written);
  }

  ghost function Run(s: Files, ops: seq<Op>): Files
    decreases |ops|
  {
    if ops == [] then s else Run(Step(s, ops[0]), ops[1..])
  }

  /** On every run: descriptors of RAMFS paths stay inside their files, and files never shrink. */
  lemma {:induction false} RunValid(s: Files, ops: seq<Op>)
    requires Valid(s)
    ensures Valid(Run(s, ops)) && Grows(s, Run(s, ops))
    decreases |ops|
  {
    if ops != [] {
      StepValid(s, ops[0]);
      StepGrows(s, ops[0]);
      hide Valid, Step;
      RunValid(Step(s, ops[0]), ops[1..]);
    }
  }

  // ------------------------------------------------------- exact answers

  /** Descriptor `fd` moved by `n`; every other descriptor is as it was. */
  ghost predicate OnlyMoved(s: Files, s': Files, session: nat, fd: nat, n: nat) {
    && s'.nextFd == s.nextFd
    && forall x: nat, y: nat :: HasFd(s', x, y) == HasFd(s, x, y) &&
         (HasFd(s, x, y) ==> var d := Fd(s, x, y);
            Fd(s', x, y) == if x == session && y == fd then d.(offset := d.offset + n) else d)
  }

  /** Devices and ext2 files are told by the start of their path, and a path is refused for two dots in a row or a NUL
      anywhere in it. */
  lemma PathKinds(a: string, b: string)
    ensures IsDevice("/dev/" + b) && (IsDevice(a) ==> |a| >= 5 && a == "/dev/" + a[5..])
    ensures IsExt2("/mnt/ext2/" + b) && (IsExt2(a) ==> |a| >= 10 && a == "/mnt/ext2/" + a[10..])
    ensures IsRefused(a + ".." + b) && IsRefused(a + "\0" + b)
    ensures IsRefused(a) ==>
              exists i | 0 <= i < |a| :: a[i] == '\0' || (a[i] == '.' && i + 1 < |a| && a[i + 1] == '.')
  {
    var x, y := a + ".." + b, a + "\0" + b;
    assert x[|a|] == '.' && x[|a| + 1] == '.';
    assert y[|a|] == '\0';
    if '\0' in a {
      var i :| 0 <= i < |a| && a[i] == '\0';
    }
  }

  /** A file opens exactly when its path is not refused and it is a device, exists, or may be created; the new
      descriptor stands at the start, and no other descriptor or file changes. */
  lemma OpenIff(s: Files, session: nat, path: string, write: bool)
    requires Valid(s)
    ensures var (s', r) := OpenFile(s, session, path, write);
            && (r.Ok? <==> !IsRefused(path) && (IsDevice(path) || path in s.ramfs || write))
            && (r.Err? ==> s' == s)
            && (r.Ok? ==> forall x: nat, y: nat ::
                  HasFd(s', x, y) <==> HasFd(s, x, y) || (x == session && y == r.value))
            && (r.Ok? ==> forall x: nat :: !HasFd(s, x, r.value))
            && (r.Ok? ==> Fd(s', session, r.value) == Descriptor(path, write, 0))
            && (r.Ok? ==> forall x: nat, y: nat | HasFd(s, x, y) :: Fd(s', x, y) == Fd(s, x, y))
            && (r.Ok? ==> s'.ramfs == if IsDevice(path) || path in s.ramfs then s.ramfs else s.ramfs[path := []])
  {
    hide IsRefused, IsDevice, IsExt2;
    assert forall x: nat :: HasFd(s, x, s.nextFd) ==> s.nextFd < s.nextFd;
  }

  /** A close succeeds exactly on an open descriptor and removes just that one. */
  lemma CloseIff(s: Files, session: nat, fd: nat)
    ensures var (s', r) := CloseFile(s, session, fd);
            && (r.Ok? <==> HasFd(s, session, fd)) && s'.ramfs == s.ramfs && s'.nextFd == s.nextFd
            && (forall x: nat, y: nat :: HasFd(s', x, y) <==> HasFd(s, x, y) && !(x == session && y == fd))
            && (forall x: nat, y: nat | HasFd(s', x, y) :: Fd(s', x, y) == Fd(s, x, y))
  {}

  /** What a descriptor reads from, unless a device answers. */
  function Source(s: Files, d: Descriptor, ext2: Option<seq<Byte>>): Option<seq<Byte>> {
    if IsExt2(d.path) && ext2.Some? then ext2
    else if d.path in s.ramfs then Some(s.ramfs[d.path])
    else None
  }

  lemma SliceExact(content: seq<Byte>, offset: nat, size: nat)
    ensures var r := Slice(content, offset, size);
            && |r| == (if offset <= |content| then Min(size, |content| - offset) else 0)
            && forall k | 0 <= k < |r| :: r[k] == content[offset + k]
  {}

  lemma SeekMoves(s: Files, session: nat, fd: nat, n: nat)
    requires HasFd(s, session, fd)
    ensures var s' := Seek(s, session, fd, Fd(s, session, fd).offset + n);
            OnlyMoved(s, s', session, fd, n) && s'.ramfs == s.ramfs
  {}

  /** A read returns the bytes at the descriptor, as many as asked for and left, and moves just that descriptor past
      them; a device's answer is passed on whole. */
  lemma ReadExact(s: Files, session: nat, fd: nat, size: nat, device: Option<seq<Byte>>, ext2: Option<seq<Byte>>)
    ensures var (s', r) := ReadFile(s, session, fd, size, device, ext2);
            && (!HasFd(s, session, fd) ==> r.Err? && s' == s)
            && (HasFd(s, session, fd) ==>
                  var d := Fd(s, session, fd);
                  if IsDevice(d.path) && device.Some? then r == Ok(device.value)
                  else match Source(s, d, ext2)
                    case None => r.Err?
                    case Some(file) =>
                      && r.Ok? && |r.value| == (if d.offset <= |file| then Min(size, |file| - d.offset) else 0)
                      && forall k | 0 <= k < |r.value| :: r.value[k] == file[d.offset + k])
            && s'.ramfs == s.ramfs
            && OnlyMoved(s, s', session, fd, if r.Ok? then |r.value| else 0)
  {
    hide IsDevice, IsExt2, Slice, Seek;
    if HasFd(s, session, fd) {
      var d, r := Fd(s, session, fd), ReadFile(s, session, fd, size, device, ext2).1;
      if r.Ok? {
        SeekMoves(s, session, fd, |r.value|);
      }
      hide OnlyMoved;
      var file := Source(s, d, ext2);
      if file.Some? {
        SliceExact(file.value, d.offset, size);
      }
    }
  }

  /** A write succeeds exactly on an open, writable descriptor whose device answers or whose file exists. */
  lemma WriteIff(s: Files, session: nat, fd: nat, data: seq<Byte>, device: Option<nat>)
    ensures var (s', r) := WriteFile(s, session, fd, data, device);
            && (r.Ok? <==>
                  && HasFd(s, session, fd) && Fd(s, session, fd).isWriteable
                  && (if IsDevice(Fd(s, session, fd).path) then device.Some? else Fd(s, session, fd).path in s.ramfs))
            && (r.Err? ==> s' == s)
            && (r.Ok? && IsDevice(Fd(s, session, fd).path) ==>
                  s'.ramfs == s.ramfs && r == Ok(device.value) && OnlyMoved(s, s', session, fd, device.value))
  {
    hide IsDevice, IsExt2, Patch;
  }

  /** The zero fill of a growing write is never visible: the file becomes old prefix, data, old suffix. */
  lemma WriteHasNoGap(s: Files, session: nat, fd: nat, data: seq<Byte>, written: Option<nat>)
    requires Valid(s) && HasFd(s, session, fd) && Fd(s, session, fd).isWriteable && IsRam(Fd(s, session, fd).path)
    ensures var d := Fd(s, session, fd); var (s', r) := WriteFile(s, session, fd, data, written);
            && r == Ok(|data|) && d.path in s.ramfs && d.path in s'.ramfs && OnlyMoved(s, s', session, fd, |data|)
            && var before := s.ramfs[d.path];
               && d.offset <= |before|
               && s'.ramfs[d.path] == before[..d.offset] + data + before[Min(d.offset + |data|, |before|)..]
               && s'.ramfs == s.ramfs[d.path := s'.ramfs[d.path]]
  {}

  lemma PatchInside(content: seq<Byte>, offset: nat, data: seq<Byte>)
    requires offset <= |content|
    ensures Patch(content, offset, data) == content[..offset] + data + content[Min(offset + |data|, |content|)..]
  {}

  // ------------------------------------------------------- a single writer

  /** No other descriptor writes to the file of (session, fd). */
  predicate Away(s: Files, op: Op, session: nat, fd: nat, path: string) {
    op.WriteOp? ==>
      (op.session == session && op.fd == fd) || !HasFd(s, op.session, op.fd) || Fd(s, op.session, op.fd).path != path
  }

  ghost predicate AllAway(s: Files, ops: seq<Op>, session: nat, fd: nat, path: string)
    decreases |ops|
  {
    ops != [] ==> Away(s, ops[0], session, fd, path) && AllAway(Step(s, ops[0]), ops[1..], session, fd, path)
  }

  /** The data written through one descriptor while it is open, in order. */
  ghost function Written(s: Files, ops: seq<Op>, session: nat, fd: nat): seq<Byte>
    decreases |ops|
  {
    if ops == [] then []
    else WrittenBy(s, ops[0], session, fd) + Written(Step(s, ops[0]), ops[1..], session, fd)
  }

  function WrittenBy(s: Files, op: Op, session: nat, fd: nat): seq<Byte> {
    if op.WriteOp? && op.session == session && op.fd == fd && HasFd(s, session, fd) then op.data else []
  }

  /** The file holds `text`, and the descriptor, unless closed, stands at its end. */
  ghost predicate Holds(s: Files, session: nat, fd: nat, path: string, text: seq<Byte>) {
    && fd < s.nextFd && path in s.ramfs && s.ramfs[path] == text
    && (HasFd(s, session, fd) ==> Fd(s, session, fd) == Descriptor(path, true, |text|))
  }

  lemma WriteHolds(s: Files, op: Op, session: nat, fd: nat, path: string, text: seq<Byte>)
    requires op.WriteOp? && IsRam(path) && Holds(s, session, fd, path, text) && Away(s, op, session, fd, path)
    ensures Holds(Step(s, op), session, fd, path, text + WrittenBy(s, op, session, fd))
  {
    hide IsDevice, IsExt2, Patch;
    if op.session == session && op.fd == fd && HasFd(s, session, fd) {
      PatchInside(text, |text|, op.data);
      assert text[..|text|] == text && text[|text|..] == [];
    } else {
      assert text + [] == text;
    }
  }

  lemma StepHolds(s: Files, op: Op, session: nat, fd: nat, path: string, text: seq<Byte>)
    requires IsRam(path) && Holds(s, session, fd, path, text) && Away(s, op, session, fd, path)
    ensures Holds(Step(s, op), session, fd, path, text + WrittenBy(s, op, session, fd))
  {
    hide IsRefused, IsDevice, IsExt2;
    assert text + [] == text;
    match op
    case OpenOp(x, p, write) =>
    case CloseOp(x, y) =>
    case ReadOp(x, y, size, device, ext2) =>
    case WriteOp(x, y, data, written) =>
      WriteHolds(s, op, session, fd, path, text);
  }

  lemma {:induction false} RunHolds(s: Files, ops: seq<Op>, session: nat, fd: nat, path: string, text: seq<Byte>)
    requires IsRam(path) && Holds(s, session, fd, path, text) && AllAway(s, ops, session, fd, path)
    ensures Holds(Run(s, ops), session, fd, path, text + Written(s, ops, session, fd))
    decreases |ops|
  {
    hide IsRam, Holds, Away, Step, WrittenBy;
    if ops == [] {
      assert text + [] == text;
    } else {
      StepHolds(s, ops[0], session, fd, path, text);
      var text' := text + WrittenBy(s, ops[0], session, fd);
      RunHolds(Step(s, ops[0]), ops[1..], session, fd, path, text');
      assert text' + Written(Step(s, ops[0]), ops[1..], session, fd) == text + Written(s, ops, session, fd);
    }
  }

  /** A new file written through one descriptor holds the concatenation of its writes, whatever else is opened, read,
      written elsewhere or closed in between, and also after the descriptor itself is closed. */
  lemma SoleWriter(s: Files, session: nat, path: string, ops: seq<Op>)
    requires IsRam(path) && !IsRefused(path) && path !in s.ramfs
    requires var (s1, r) := OpenFile(s, session, path, true);
             r.Ok? && AllAway(s1, ops, session, r.value, path)
    ensures var (s1, r) := OpenFile(s, session, path, true);
            var s' := Run(s1, ops);
            path in s'.ramfs && s'.ramfs[path] == Written(s1, ops, session, r.value)
  {
    var (s1, r) := OpenFile(s, session, path, true);
    hide IsRefused, IsDevice, IsExt2;
    assert Holds(s1, session, r.value, path, []);
    RunHolds(s1, ops, session, r.value, path, []);
    assert [] + Written(s1, ops, session, r.value) == Written(s1, ops, session, r.value);
  }

  // ------------------------------------------------------- reading back

  /** The operation writes nothing to the file. */
  predicate Quiet(s: Files, op: Op, path: string) {
    op.WriteOp? ==> !HasFd(s, op.session, op.fd) || Fd(s, op.session, op.fd).path != path
  }

  ghost predicate AllQuiet(s: Files, ops: seq<Op>, path: string)
    decreases |ops|
  {
    ops != [] ==> Quiet(s, ops[0], path) && AllQuiet(Step(s, ops[0]), ops[1..], path)
  }

  /** The operation reads through the descriptor while it is open. */
  predicate Reads(s: Files, op: Op, session: nat, fd: nat) {
    op.ReadOp? && op.session == session && op.fd == fd && HasFd(s, session, fd)
  }

  /** The bytes that come back through one descriptor, in order. */
  ghost function Received(s: Files, ops: seq<Op>, session: nat, fd: nat): seq<Byte>
    decreases |ops|
  {
    if ops == [] then []
    else ReceivedBy(s, ops[0], session, fd) + Received(Step(s, ops[0]), ops[1..], session, fd)
  }

  function ReceivedBy(s: Files, op: Op, session: nat, fd: nat): seq<Byte> {
    if !Reads(s, op, session, fd) then []
    else
      var r := ReadFile(s, session, fd, op.size, op.device, op.ext2).1;
      if r.Ok? then r.value else []
  }

  /** How many bytes those reads ask for. */
  ghost function Asked(s: Files, ops: seq<Op>, session: nat, fd: nat): nat
    decreases |ops|
  {
    if ops == [] then 0
    else AskedBy(s, ops[0], session, fd) + Asked(Step(s, ops[0]), ops[1..], session, fd)
  }

  function AskedBy(s: Files, op: Op, session: nat, fd: nat): nat {
    if Reads(s, op, session, fd) then op.size else 0
  }

  /** The file holds `text`, and the descriptor, unless closed, stands at `n`. */
  ghost predicate Reading(s: Files, session: nat, fd: nat, path: string, text: seq<Byte>, n: nat) {
    && fd < s.nextFd && path in s.ramfs && s.ramfs[path] == text && n <= |text|
    && (HasFd(s, session, fd) ==> Fd(s, session, fd).path == path && Fd(s, session, fd).offset == n)
  }

  lemma StepReads(s: Files, op: Op, session: nat, fd: nat, path: string, text: seq<Byte>, n: nat)
    requires IsRam(path) && Reading(s, session, fd, path, text, n) && Quiet(s, op, path)
    ensures var n' := Min(n + AskedBy(s, op, session, fd), |text|);
            && n <= n' && Reading(Step(s, op), session, fd, path, text, n')
            && ReceivedBy(s, op, session, fd) == text[n..n']
  {
    hide IsRefused, IsDevice, IsExt2, Patch;
    match op
    case OpenOp(x, p, write) =>
    case CloseOp(x, y) =>
    case ReadOp(x, y, size, device, ext2) =>
      if Reads(s, op, session, fd) {
        ReadExact(s, session, fd, size, device, ext2);
      }
    case WriteOp(x, y, data, written) =>
  }

  lemma JoinSlices(text: seq<Byte>, n: nat, a: nat, b: nat)
    requires n <= |text|
    ensures var m := Min(n + a, |text|);
            text[n..m] + text[m..Min(m + b, |text|)] == text[n..Min(n + (a + b), |text|)]
  {}

  lemma {:induction false} RunReads(
    s: Files, ops: seq<Op>, session: nat, fd: nat, path: string, text: seq<Byte>, n: nat)
    requires IsRam(path) && Reading(s, session, fd, path, text, n) && AllQuiet(s, ops, path)
    ensures n <= |text| && Received(s, ops, session, fd) == text[n..Min(n + Asked(s, ops, session, fd), |text|)]
    decreases |ops|
  {
    if ops != [] {
      hide IsRam, Reading, Quiet, Step, ReceivedBy, AskedBy;
      StepReads(s, ops[0], session, fd, path, text, n);
      var a, b := AskedBy(s, ops[0], session, fd), Asked(Step(s, ops[0]), ops[1..], session, fd);
      RunReads(Step(s, ops[0]), ops[1..], session, fd, path, text, Min(n + a, |text|));
      JoinSlices(text, n, a, b);
    }
  }

  /** Reads through a new descriptor of a file, with no write to it in between, return its bytes from the start, as many
      as they ask for in all. */
  lemma ReadsFromStart(s: Files, session: nat, path: string, write: bool, ops: seq<Op>)
    requires IsRam(path) && !IsRefused(path) && path in s.ramfs
    requires AllQuiet(OpenFile(s, session, path, write).0, ops, path)
    ensures var (s1, r) := OpenFile(s, session, path, write);
            && r.Ok?
            && Received(s1, ops, session, r.value) ==
               s.ramfs[path][..Min(Asked(s1, ops, session, r.value), |s.ramfs[path]|)]
  {
    hide IsRefused, IsRam, Reading, OpenFile, AllQuiet, Received, Asked;
    var (s1, r) := OpenFile(s, session, path, write);
    OpensAtStart(s, session, path, write);
    RunReads(s1, ops, session, r.value, path, s.ramfs[path], 0);
  }

  lemma OpensAtStart(s: Files, session: nat, path: string, write: bool)
    requires IsRam(path) && !IsRefused(path) && path in s.ramfs
    ensures var (s1, r) := OpenFile(s, session, path, write);
            r.Ok? && Reading(s1, session, r.value, path, s.ramfs[path], 0)
  {
    hide IsRefused, IsDevice, IsExt2;
  }

  /** What a sole writer wrote is read back, whoever opens the file afterwards. */
  lemma WrittenIsReadBack(s: Files, writer: nat, path: string, ops: seq<Op>, reader: nat, write: bool, more: seq<Op>)
    requires IsRam(path) && !IsRefused(path) && path !in s.ramfs
    requires var (s1, r) := OpenFile(s, writer, path, true);
             r.Ok? && AllAway(s1, ops, writer, r.value, path) &&
             AllQuiet(OpenFile(Run(s1, ops), reader, path, write).0, more, path)
    ensures var (s1, r) := OpenFile(s, writer, path, true);
            var (s2, q) := OpenFile(Run(s1, ops), reader, path, write);
            var text := Written(s1, ops, writer, r.value);
            q.Ok? && Received(s2, more, reader, q.value) == text[..Min(Asked(s2, more, reader, q.value), |text|)]
  {
    SoleWriter(s, writer, path, ops);
    var s1 := OpenFile(s, writer, path, true).0;
    hide IsRefused, IsRam, OpenFile, Run;
    ReadsFromStart(Run(s1, ops), reader, path, write, more);
  }

  // ------------------------------------------------------------ the class

  class VfsState {
    var fdTables: map<nat, Table>
    var ramfs: map<string, seq<Byte>>
    var nextFd: nat

    ghost function State(): Files
      reads this
    {
      Files(fdTables, ramfs, nextFd)
    }

    constructor ()
      ensures State() == Files(map[], map[], 3) && Valid(State())
    {
      fdTables, ramfs, nextFd := map[], map[], 3;
    }

    method Open(session: nat, path: string, write: bool) returns (r: Result<nat>)
      requires Valid(State())
      modifies this
      ensures (State(), r) == OpenFile(old(State()), session, path, write)
      ensures Valid(State())
    {
      OpenValid(State(), session, path, write);
      hide Valid, IsDevice, IsRefused;
      if IsRefused(path) {
        return Err("Invalid path");
      }
      if write && !IsDevice(path) && path !in ramfs {
        ramfs := ramfs[path := []];
      }
      if !IsDevice(path) && path !in ramfs {
        return Err("File not found");
      }
      var table: Table := if session in fdTables then fdTables[session] else map[];
      var fd := nextFd;
      nextFd := nextFd + 1;
      fdTables := fdTables[session := table[fd := Descriptor(path, write, 0)]];
      return Ok(fd);
    }

    method Close(session: nat, fd: nat) returns (r: Result<()>)
      requires Valid(State())
      modifies this
      ensures (State(), r) == CloseFile(old(State()), session, fd)
      ensures Valid(State())
    {
      CloseValid(State(), session, fd);
      hide Valid;
      if session in fdTables && fd in fdTables[session] {
        fdTables := fdTables[session := fdTables[session] - {fd}];
        return Ok(());
      }
      return Err("Invalid file descriptor");
    }

    method Advance(session: nat, fd: nat, n: nat)
      requires HasFd(State(), session, fd)
      modifies this`fdTables
      ensures State() == Seek(old(State()), session, fd, Fd(old(State()), session, fd).offset + n)
    {
      var table: Table := fdTables[session];
      fdTables := fdTables[session := table[fd := table[fd].(offset := table[fd].offset + n)]];
    }

    method Read(session: nat, fd: nat, size: nat, device: Option<seq<Byte>>, ext2: Option<seq<Byte>>)
      returns (r: Result<seq<Byte>>)
      requires Valid(State())
      modifies this
      ensures (State(), r) == ReadFile(old(State()), session, fd, size, device, ext2)
      ensures Valid(State())
    {
      ReadValid(State(), session, fd, size, device, ext2);
      hide Valid, IsDevice, IsExt2, Seek;
      if session !in fdTables { return Err("Session not found"); }
      if fd !in fdTables[session] { return Err("Invalid file descriptor"); }
      var desc := fdTables[session][fd];
      if IsDevice(desc.path) && device.Some? {
        Advance(session, fd, |device.value|);
        return Ok(device.value);
      }
      if IsExt2(desc.path) && ext2.Some? {
        var data := Slice(ext2.value, desc.offset, size);
        Advance(session, fd, |data|);
        return Ok(data);
      }
      if desc.path in ramfs {
        var data := Slice(ramfs[desc.path], desc.offset, size);
        Advance(session, fd, |data|);
        return Ok(data);
      }
      return Err("File not found in RAMFS");
    }

    method Write(session: nat, fd: nat, data: seq<Byte>, device: Option<nat>) returns (r: Result<nat>)
      requires Valid(State())
      modifies this
      ensures (State(), r) == WriteFile(old(State()), session, fd, data, device)
      ensures Valid(State())
    {
      WriteValid(State(), session, fd, data, device);
      hide Valid, IsDevice, IsExt2, Seek;
      if session !in fdTables { return Err("Session not found"); }
      if fd !in fdTables[session] { return Err("Invalid file descriptor"); }
      var desc := fdTables[session][fd];
      if !desc.isWriteable { return Err("FD not writable"); }
      var written: nat;
      if IsDevice(desc.path) {
        if device.None? { return Err("Device write failed"); }
        written := device.value;
      } else if desc.path in ramfs {
        var end, content := desc.offset + |data|, ramfs[desc.path];
        if end > |content| {
          content := content + seq(end - |content|, _ => 0);
        }
        ramfs := ramfs[desc.path := content[..desc.offset] + data + content[end..]];
        written := |data|;
      } else {
        return Err("File not found in RAMFS");
      }
      Advance(session, fd, written);
      return Ok(written);
    }
  }
}
