/** The file system as a caller sees it: every file is one flat run of blocks (its image) with a
    recorded size, and the blocks no file holds are only counted. The FAT, the chains and the
    block-by-block loops do not appear here; module OtfsHandle refines to this one. */
module OtfsVolume {
  import opened Words

  const BLOCK_SIZE: nat := 512
  const MAX_NAME_LEN: nat := 31

  datatype Flags = Flags(read: bool, write: bool, create: bool, trunc: bool)

  datatype Status = Ok | ErrArg | ErrState | ErrNotFound | ErrNoSpace

  /** The image is everything the file's blocks hold, including bytes past the recorded size. */
  datatype File = File(name: CString, image: seq<byte>, size: nat)

  datatype Slot = Vacant | Stored(file: File)

  datatype Descriptor = Closed | Opened(slot: nat, offset: nat, flags: Flags)

  datatype Volume = Volume(slots: seq<Slot>, free: nat, fds: seq<Descriptor>)

  datatype Op =
    | Open(name: CString, flags: Flags)
    | Close(fd: int)
    | Seek(fd: int, offset: u32)
    | Read(fd: int, len: nat)
    | Write(fd: int, bytes: seq<byte>)

  /** What a call returns: `fd` is meaningful for a successful open, `bytes` is what a read put
      into the caller's buffer and `count` the length it reported. */
  datatype Reply = Reply(status: Status, fd: int, count: nat, bytes: seq<byte>)

  // ----- byte strings

  function Zeros(n: nat): (z: seq<byte>)
    ensures |z| == n
  {
    seq(n, _ => 0)
  }

  function ZeroExtend(s: seq<byte>, n: nat): (r: seq<byte>)
    ensures |r| == Max(|s|, n)
    ensures forall p :: 0 <= p < |r| ==> r[p] == if p < |s| then s[p] else 0
  {
    if n <= |s| then s else s + Zeros(n - |s|)
  }

  function Splice(s: seq<byte>, at: nat, b: seq<byte>): (r: seq<byte>)
    requires at + |b| <= |s|
    ensures |r| == |s|
    ensures forall p :: 0 <= p < |r| ==> r[p] == if at <= p < at + |b| then b[p - at] else s[p]
  {
    s[..at] + b + s[at + |b|..]
  }

  function BlocksFor(n: nat): nat {
    (n + (BLOCK_SIZE - 1)) / BLOCK_SIZE
  }

  // ----- tables

  predicate ValidName(name: CString) {
    1 <= |name| <= MAX_NAME_LEN && '/' !in name && '\\' !in name
  }

  predicate Named(slot: Slot, name: CString) {
    slot.Stored? && slot.file.name == name
  }

  function FindName(slots: seq<Slot>, name: CString): (r: Option<nat>)
    ensures r.Some? ==> r.value < |slots| && Named(slots[r.value], name)
    ensures r.Some? ==> forall j :: 0 <= j < r.value ==> !Named(slots[j], name)
    ensures r.None? ==> forall j :: 0 <= j < |slots| ==> !Named(slots[j], name)
  {
    if slots == [] then None
    else if Named(slots[0], name) then Some(0)
    else match FindName(slots[1..], name)
      case None => None
      case Some(i) => Some(i + 1)
  }

  function FindVacant(slots: seq<Slot>): (r: Option<nat>)
    ensures r.Some? ==> r.value < |slots| && slots[r.value].Vacant?
    ensures r.Some? ==> forall j :: 0 <= j < r.value ==> slots[j].Stored?
    ensures r.None? ==> forall j :: 0 <= j < |slots| ==> slots[j].Stored?
  {
    if slots == [] then None
    else if slots[0].Vacant? then Some(0)
    else match FindVacant(slots[1..])
      case None => None
      case Some(i) => Some(i + 1)
  }

  function FindClosed(fds: seq<Descriptor>): (r: Option<nat>)
    ensures r.Some? ==> r.value < |fds| && fds[r.value].Closed?
    ensures r.Some? ==> forall j :: 0 <= j < r.value ==> fds[j].Opened?
    ensures r.None? ==> forall j :: 0 <= j < |fds| ==> fds[j].Opened?
  {
    if fds == [] then None
    else if fds[0].Closed? then Some(0)
    else match FindClosed(fds[1..])
      case None => None
      case Some(i) => Some(i + 1)
  }

  // ----- well-formed volumes

  predicate WholeBlocks(slot: Slot) {
    slot.Stored? ==> |slot.file.image| % BLOCK_SIZE == 0
  }

  predicate Refers(fd: Descriptor, slots: seq<Slot>) {
    fd.Opened? ==> fd.slot < |slots| && slots[fd.slot].Stored?
  }

  predicate WellFormed(v: Volume) {
    && (forall i :: 0 <= i < |v.slots| ==> WholeBlocks(v.slots[i]))
    && (forall d :: 0 <= d < |v.fds| ==> Refers(v.fds[d], v.slots))
  }

  function SlotBlocks(slot: Slot): nat {
    if slot.Stored? then |slot.file.image| / BLOCK_SIZE else 0
  }

  /** The number of blocks held by all files together. */
  function TotalBlocks(slots: seq<Slot>): nat {
    if slots == [] then 0 else SlotBlocks(slots[0]) + TotalBlocks(slots[1..])
  }

  predicate FdOpen(v: Volume, fd: int) {
    0 <= fd < |v.fds| && v.fds[fd].Opened?
  }

  /** The file behind an open descriptor. */
  function FileOf(v: Volume, fd: int): File
    requires FdOpen(v, fd) && Refers(v.fds[fd], v.slots)
  {
    v.slots[v.fds[fd].slot].file
  }

  predicate CanWrite(v: Volume, fd: int) {
    FdOpen(v, fd) && v.fds[fd].flags.write
  }

  predicate CanRead(v: Volume, fd: int) {
    FdOpen(v, fd) && v.fds[fd].flags.read
  }

  function Fail(status: Status): Reply {
    Reply(status, -1, 0, [])
  }

  // ----- operations

  /** Emptying a file gives its blocks back. */
  function Truncate(v: Volume, slot: nat): Volume
    requires slot < |v.slots| && v.slots[slot].Stored?
  {
    var file := v.slots[slot].file;
    v.(slots := v.slots[slot := Stored(file.(image := [], size := 0))],
       free := v.free + SlotBlocks(v.slots[slot]))
  }

  function Create(v: Volume, slot: nat, name: CString): (v': Volume)
    requires slot < |v.slots|
    ensures |v'.slots| == |v.slots| && Named(v'.slots[slot], name)
  {
    v.(slots := v.slots[slot := Stored(File(name, [], 0))])
  }

  function AssignFd(v: Volume, slot: nat, flags: Flags): (Volume, Reply) {
    match FindClosed(v.fds)
    case None => (v, Fail(ErrNoSpace))
    case Some(fd) => (v.(fds := v.fds[fd := Opened(slot, 0, flags)]), Reply(Ok, fd, 0, []))
  }

  function OpenSlot(v: Volume, slot: nat, flags: Flags): (Volume, Reply)
    requires slot < |v.slots| && v.slots[slot].Stored?
  {
    AssignFd(if flags.trunc then Truncate(v, slot) else v, slot, flags)
  }

  predicate OpenArgsOk(name: CString, flags: Flags) {
    ValidName(name) && (flags.read || flags.write) && (flags.trunc ==> flags.write)
  }

  /** Creating and truncating happen before a descriptor is looked for, so they stand even when
      the table is full. */
  function OpenFile(v: Volume, name: CString, flags: Flags): (Volume, Reply) {
    if !OpenArgsOk(name, flags) then (v, Fail(ErrArg))
    else match FindName(v.slots, name)
      case Some(slot) => OpenSlot(v, slot, flags)
      case None =>
        if !flags.create then (v, Fail(ErrNotFound))
        else match FindVacant(v.slots)
          case None => (v, Fail(ErrNoSpace))
          case Some(slot) => OpenSlot(Create(v, slot, name), slot, flags)
  }

  function CloseFile(v: Volume, fd: int): (Volume, Reply) {
    if !(0 <= fd < |v.fds|) then (v, Fail(ErrArg))
    else if v.fds[fd].Closed? then (v, Fail(ErrState))
    else (v.(fds := v.fds[fd := Closed]), Reply(Ok, -1, 0, []))
  }

  function MoveTo(v: Volume, fd: int, offset: nat): Volume
    requires FdOpen(v, fd)
  {
    v.(fds := v.fds[fd := v.fds[fd].(offset := offset)])
  }

  function SeekFile(v: Volume, fd: int, offset: nat): (Volume, Reply) {
    if !(0 <= fd < |v.fds|) then (v, Fail(ErrArg))
    else if v.fds[fd].Closed? then (v, Fail(ErrState))
    else (MoveTo(v, fd, offset), Reply(Ok, -1, 0, []))
  }

  /** A read stops at the recorded size. It fails when the blocks end before that, having
      delivered what the blocks do hold. */
  function ReadFile(v: Volume, fd: int, len: nat): (Volume, Reply)
    requires WellFormed(v)
  {
    if !(0 <= fd < |v.fds|) then (v, Fail(ErrArg))
    else if !CanRead(v, fd) then (v, Fail(ErrState))
    else
      var file, offset := FileOf(v, fd), v.fds[fd].offset;
      if file.size <= offset || len == 0 then (v, Reply(Ok, -1, 0, []))
      else
        var end := offset + Min(len, file.size - offset);
        if end <= |file.image| then
          (MoveTo(v, fd, end), Reply(Ok, -1, end - offset, file.image[offset..end]))
        else
          var stop := Max(offset, |file.image|);
          (MoveTo(v, fd, stop), Reply(ErrState, -1, 0, ZeroExtend(file.image, stop)[offset..stop]))
  }

  /** How many blocks a file can reach: its own and all free ones. */
  function Reach(v: Volume, file: File): nat {
    |file.image| / BLOCK_SIZE + v.free
  }

  /** How many of `len` bytes at `offset` land within `blocks` blocks. */
  function Landed(blocks: nat, offset: nat, len: nat): nat {
    Min(len, Max(0, blocks * BLOCK_SIZE - offset))
  }

  /** Whether a write of `len` bytes at `offset` finds the blocks it needs. */
  predicate HasRoom(v: Volume, file: File, offset: nat, len: nat) {
    len == 0 || BlocksFor(offset + len) <= Reach(v, file)
  }

  /** The blocks a write of `len` bytes leaves the file with. */
  function BlocksAfter(v: Volume, file: File, offset: nat, len: nat): nat {
    if len == 0 then |file.image| / BLOCK_SIZE
    else Min(Reach(v, file), Max(|file.image| / BLOCK_SIZE, BlocksFor(offset + len)))
  }

  function FreeAfter(v: Volume, file: File, offset: nat, len: nat): nat {
    Reach(v, file) - BlocksAfter(v, file, offset, len)
  }

  /** Where a write leaves the descriptor. */
  function EndAfter(v: Volume, file: File, offset: nat, len: nat): nat {
    offset + Landed(BlocksAfter(v, file, offset, len), offset, len)
  }

  /** The image a write leaves: grown with zeros, then overwritten as far as the blocks go. */
  function ImageAfter(v: Volume, file: File, offset: nat, bytes: seq<byte>): (image: seq<byte>)
    requires |file.image| % BLOCK_SIZE == 0
    ensures |image| == BlocksAfter(v, file, offset, |bytes|) * BLOCK_SIZE
  {
    var blocks := BlocksAfter(v, file, offset, |bytes|);
    var n := Landed(blocks, offset, |bytes|);
    Splice(ZeroExtend(file.image, blocks * BLOCK_SIZE), Min(offset, blocks * BLOCK_SIZE), bytes[..n])
  }

  /** The size is recorded only when the whole write went through. */
  function FileAfter(v: Volume, file: File, offset: nat, bytes: seq<byte>): (after: File)
    requires |file.image| % BLOCK_SIZE == 0
  {
    File(file.name,
         ImageAfter(v, file, offset, bytes),
         if HasRoom(v, file, offset, |bytes|) then Max(file.size, offset + |bytes|) else file.size)
  }

  /** One file replaced and its descriptor moved. */
  function Rewrite(v: Volume, fd: int, file: File, free: nat, offset: nat): Volume
    requires WellFormed(v) && FdOpen(v, fd)
  {
    Volume(v.slots[v.fds[fd].slot := Stored(file)], free, v.fds[fd := v.fds[fd].(offset := offset)])
  }

  function WriteFile(v: Volume, fd: int, bytes: seq<byte>): (Volume, Reply)
    requires WellFormed(v)
  {
    if !(0 <= fd < |v.fds|) then (v, Fail(ErrArg))
    else if !CanWrite(v, fd) then (v, Fail(ErrState))
    else
      var file, offset := FileOf(v, fd), v.fds[fd].offset;
      assert WholeBlocks(v.slots[v.fds[fd].slot]);
      (Rewrite(v, fd, FileAfter(v, file, offset, bytes), FreeAfter(v, file, offset, |bytes|),
               EndAfter(v, file, offset, |bytes|)),
       if HasRoom(v, file, offset, |bytes|) then Reply(Ok, -1, |bytes|, []) else Fail(ErrNoSpace))
  }

  function Apply(v: Volume, op: Op): (Volume, Reply)
    requires WellFormed(v)
  {
    match op
    case Open(name, flags) => OpenFile(v, name, flags)
    case Close(fd) => CloseFile(v, fd)
    case Seek(fd, offset) => SeekFile(v, fd, offset)
    case Read(fd, len) => ReadFile(v, fd, len)
    case Write(fd, bytes) => WriteFile(v, fd, bytes)
  }
}
