/** What holds of every run of the volume operations, starting from a formatted volume. */
module OtfsRuns {
  import opened Words
  import opened OtfsVolume

  /** A freshly formatted and mounted volume. */
  function Formatted(blocks: nat, files: nat, fds: nat): Volume {
    Volume(seq(files, _ => Vacant), blocks, seq(fds, _ => Closed))
  }

  function Run(v: Volume, ops: seq<Op>): (r: Volume)
    requires WellFormed(v)
    ensures WellFormed(r)
    decreases |ops|
  {
    if ops == [] then v
    else
      ApplyKeepsWellFormed(v, ops[0]);
      Run(Apply(v, ops[0]).0, ops[1..])
  }

  // ----- conservation of blocks

  /** Free blocks and blocks held by files add up to the blocks of the data area. */
  predicate Conserved(v: Volume, blocks: nat) {
    v.free + TotalBlocks(v.slots) == blocks
  }

  lemma {:induction false} TotalUpdate(slots: seq<Slot>, i: nat, slot: Slot)
    requires i < |slots|
    ensures TotalBlocks(slots[i := slot]) == TotalBlocks(slots) - SlotBlocks(slots[i]) + SlotBlocks(slot)
  {
    if i == 0 {
      assert slots[0 := slot][1..] == slots[1..];
    } else {
      assert slots[i := slot][1..] == slots[1..][i - 1 := slot];
      TotalUpdate(slots[1..], i - 1, slot);
    }
  }

  lemma {:induction false} SlotWithinTotal(slots: seq<Slot>, i: nat)
    requires i < |slots|
    ensures SlotBlocks(slots[i]) <= TotalBlocks(slots)
  {
    if i > 0 {
      SlotWithinTotal(slots[1..], i - 1);
    }
  }

  lemma {:induction false} VacantTotal(n: nat)
    ensures TotalBlocks(seq(n, _ => Vacant)) == 0
  {
    if n > 0 {
      VacantTotal(n - 1);
      assert seq(n, _ => Vacant)[1..] == seq(n - 1, _ => Vacant);
    }
  }

  lemma TruncateKeepsWellFormed(v: Volume, slot: nat)
    requires WellFormed(v) && slot < |v.slots| && v.slots[slot].Stored?
    ensures WellFormed(Truncate(v, slot))
  {
    forall d | 0 <= d < |v.fds| ensures Refers(v.fds[d], Truncate(v, slot).slots) {
      assert Refers(v.fds[d], v.slots);
    }
  }

  lemma CreateKeepsWellFormed(v: Volume, slot: nat, name: CString)
    requires WellFormed(v) && slot < |v.slots| && v.slots[slot].Vacant?
    ensures WellFormed(Create(v, slot, name))
  {
    forall d | 0 <= d < |v.fds| ensures Refers(v.fds[d], Create(v, slot, name).slots) {
      assert Refers(v.fds[d], v.slots);
    }
  }

  lemma OpenSlotKeepsWellFormed(v: Volume, slot: nat, flags: Flags)
    requires WellFormed(v) && slot < |v.slots| && v.slots[slot].Stored?
    ensures WellFormed(OpenSlot(v, slot, flags).0)
  {
    TruncateKeepsWellFormed(v, slot);
    hide WholeBlocks;
    hide Truncate;
  }

  lemma OpenKeepsWellFormed(v: Volume, name: CString, flags: Flags)
    requires WellFormed(v)
    ensures WellFormed(OpenFile(v, name, flags).0)
  {
    hide WellFormed, Create, OpenSlot, FindName, FindVacant;
    var found, vacant := FindName(v.slots, name), FindVacant(v.slots);
    if found.Some? {
      OpenSlotKeepsWellFormed(v, found.value, flags);
    } else if vacant.Some? {
      CreateKeepsWellFormed(v, vacant.value, name);
      OpenSlotKeepsWellFormed(Create(v, vacant.value, name), vacant.value, flags);
    }
  }

  lemma RewriteKeepsWellFormed(v: Volume, fd: int, file: File, free: nat, offset: nat)
    requires WellFormed(v) && FdOpen(v, fd) && |file.image| % BLOCK_SIZE == 0
    ensures WellFormed(Rewrite(v, fd, file, free, offset))
  {
    var v' := Rewrite(v, fd, file, free, offset);
    forall d | 0 <= d < |v.fds| ensures Refers(v'.fds[d], v'.slots) {
      assert Refers(v.fds[d], v.slots);
    }
  }

  lemma WholeFile(v: Volume, fd: int)
    requires WellFormed(v) && FdOpen(v, fd)
    ensures |FileOf(v, fd).image| % BLOCK_SIZE == 0
  {
    assert WholeBlocks(v.slots[v.fds[fd].slot]);
  }

  /** The file a write leaves has whole blocks, and gained just what the free blocks lost. */
  lemma FileAfterBlocks(v: Volume, file: File, offset: nat, bytes: seq<byte>)
    requires |file.image| % BLOCK_SIZE == 0
    ensures var file' := FileAfter(v, file, offset, bytes);
            && |file'.image| % BLOCK_SIZE == 0
            && FreeAfter(v, file, offset, |bytes|) + |file'.image| / BLOCK_SIZE == v.free + |file.image| / BLOCK_SIZE
  {
  }

  lemma WriteKeepsWellFormed(v: Volume, fd: int, bytes: seq<byte>)
    requires WellFormed(v)
    ensures WellFormed(WriteFile(v, fd, bytes).0)
  {
    if CanWrite(v, fd) {
      WholeFile(v, fd);
      hide FileAfter, WellFormed, Rewrite, FreeAfter, EndAfter;
      var file, offset := FileOf(v, fd), v.fds[fd].offset;
      FileAfterBlocks(v, file, offset, bytes);
      RewriteKeepsWellFormed(v, fd, FileAfter(v, file, offset, bytes), FreeAfter(v, file, offset, |bytes|),
                             EndAfter(v, file, offset, |bytes|));
    }
  }

  lemma ApplyKeepsWellFormed(v: Volume, op: Op)
    requires WellFormed(v)
    ensures WellFormed(Apply(v, op).0)
  {
    match op
    case Open(name, flags) => OpenKeepsWellFormed(v, name, flags);
    case Write(fd, bytes) => WriteKeepsWellFormed(v, fd, bytes);
    case _ =>
  }

  lemma WriteConserves(v: Volume, fd: int, bytes: seq<byte>, blocks: nat)
    requires WellFormed(v) && Conserved(v, blocks)
    ensures Conserved(WriteFile(v, fd, bytes).0, blocks)
  {
    if CanWrite(v, fd) {
      WholeFile(v, fd);
      hide FileAfter, WellFormed, FreeAfter, EndAfter;
      var file, offset := FileOf(v, fd), v.fds[fd].offset;
      FileAfterBlocks(v, file, offset, bytes);
      TotalUpdate(v.slots, v.fds[fd].slot, Stored(FileAfter(v, file, offset, bytes)));
    }
  }

  lemma OpenSlotConserves(v: Volume, slot: nat, flags: Flags, blocks: nat)
    requires slot < |v.slots| && v.slots[slot].Stored? && Conserved(v, blocks)
    ensures Conserved(OpenSlot(v, slot, flags).0, blocks)
  {
    TotalUpdate(v.slots, slot, Truncate(v, slot).slots[slot]);
  }

  lemma ApplyConserves(v: Volume, op: Op, blocks: nat)
    requires WellFormed(v) && Conserved(v, blocks)
    ensures Conserved(Apply(v, op).0, blocks)
  {
    match op
    case Open(name, flags) =>
      var found, vacant := FindName(v.slots, name), FindVacant(v.slots);
      if found.Some? {
        OpenSlotConserves(v, found.value, flags, blocks);
      } else if vacant.Some? {
        var created := Create(v, vacant.value, name);
        TotalUpdate(v.slots, vacant.value, created.slots[vacant.value]);
        OpenSlotConserves(created, vacant.value, flags, blocks);
      }
    case Write(fd, bytes) => WriteConserves(v, fd, bytes, blocks);
    case _ =>
  }

  /** No block is ever lost or made up, whatever is called and whether or not it succeeds. */
  lemma {:induction false} RunConserves(v: Volume, ops: seq<Op>, blocks: nat)
    requires WellFormed(v) && Conserved(v, blocks)
    ensures Conserved(Run(v, ops), blocks)
    decreases |ops|
  {
    if ops != [] {
      ApplyConserves(v, ops[0], blocks);
      ApplyKeepsWellFormed(v, ops[0]);
      RunConserves(Apply(v, ops[0]).0, ops[1..], blocks);
    }
  }

  lemma FormattedRunConserves(blocks: nat, files: nat, fds: nat, ops: seq<Op>)
    ensures WellFormed(Formatted(blocks, files, fds))
    ensures Conserved(Run(Formatted(blocks, files, fds), ops), blocks)
  {
    VacantTotal(files);
    RunConserves(Formatted(blocks, files, fds), ops, blocks);
  }

  // ----- what open answers

  /** Open refuses its arguments exactly for these names and flags, whatever the volume holds. */
  lemma OpenRefusesIff(v: Volume, name: CString, flags: Flags)
    ensures OpenFile(v, name, flags).1.status == ErrArg <==>
            !(&& 1 <= |name| <= 31 && '/' !in name && '\\' !in name
              && (flags.read || flags.write) && (flags.trunc ==> flags.write))
  {
    hide FindName, FindVacant, FindClosed;
  }

  predicate Knows(slots: seq<Slot>, name: CString) {
    exists i :: 0 <= i < |slots| && Named(slots[i], name)
  }

  /** What it answers otherwise, and what it leaves behind even when it fails for a descriptor. */
  lemma OpenAnswers(v: Volume, name: CString, flags: Flags)
    requires OpenFile(v, name, flags).1.status != ErrArg
    ensures var (v', reply) := OpenFile(v, name, flags);
            var known := Knows(v.slots, name);
            var full := forall i :: 0 <= i < |v.slots| ==> v.slots[i].Stored?;
            var allOpen := forall d :: 0 <= d < |v.fds| ==> v.fds[d].Opened?;
            && reply.status == (if !known && !flags.create then ErrNotFound
                                else if (!known && full) || allOpen then ErrNoSpace else Ok)
            && (Knows(v'.slots, name) <==> known || (flags.create && !full))
            && (known && !flags.trunc ==> v'.slots == v.slots && v'.free == v.free)
            && (reply.status != Ok ==> v'.fds == v.fds)
  {
    var found, vacant := FindName(v.slots, name), FindVacant(v.slots);
    var v' := OpenFile(v, name, flags).0;
    assert Knows(v.slots, name) <==> found.Some?;
    hide FindName, FindVacant, FindClosed, Truncate, OpenArgsOk;
    if found.Some? {
      OpenedSlot(v, found.value, flags);
      assert Named(v'.slots[found.value], name);
    } else if flags.create && vacant.Some? {
      OpenedSlot(Create(v, vacant.value, name), vacant.value, flags);
      assert Named(v'.slots[vacant.value], name);
    }
    hide OpenSlot;
  }

  /** The descriptor open gives is the lowest closed one, at the start of a file of that name, which
      is empty when it is new or truncated. */
  lemma OpenGives(v: Volume, name: CString, flags: Flags)
    requires OpenFile(v, name, flags).1.status == Ok
    ensures var (v', reply) := OpenFile(v, name, flags);
            var fd := reply.fd;
            && 0 <= fd < |v.fds| == |v'.fds| && v.fds[fd].Closed?
            && (forall d :: 0 <= d < fd ==> v.fds[d].Opened?)
            && v'.fds[fd].Opened? && v'.fds == v.fds[fd := Opened(v'.fds[fd].slot, 0, flags)]
            && var slot := v'.fds[fd].slot;
               && slot < |v'.slots| && Named(v'.slots[slot], name)
               && (!Knows(v.slots, name) || flags.trunc ==> v'.slots[slot] == Stored(File(name, [], 0)))
  {
    var found, vacant := FindName(v.slots, name), FindVacant(v.slots);
    if found.Some? {
      OpenedSlot(v, found.value, flags);
    } else {
      OpenedSlot(Create(v, vacant.value, name), vacant.value, flags);
    }
    hide FindName, FindVacant, FindClosed, OpenSlot, Truncate;
  }

  lemma OpenedSlot(v: Volume, slot: nat, flags: Flags)
    requires slot < |v.slots| && v.slots[slot].Stored?
    ensures var (v', reply) := OpenSlot(v, slot, flags);
            var name := v.slots[slot].file.name;
            && v'.slots == v.slots[slot := if flags.trunc then Stored(File(name, [], 0)) else v.slots[slot]]
            && (!flags.trunc ==> v'.free == v.free)
            && (match FindClosed(v.fds)
                case None => reply == Fail(ErrNoSpace) && v'.fds == v.fds
                case Some(fd) => reply == Reply(Ok, fd, 0, []) && v'.fds == v.fds[fd := Opened(slot, 0, flags)])
  {
    assert v.slots == v.slots[slot := v.slots[slot]];
  }

  // ----- when a write succeeds

  /** The blocks a write would have to take from the free ones. */
  function Lacking(file: File, offset: nat, len: nat): nat {
    if len == 0 then 0 else Max(0, BlocksFor(offset + len) - |file.image| / BLOCK_SIZE)
  }

  /** A write succeeds exactly when the blocks it lacks are free, and then takes just those.
      Failure takes every free block for this file. */
  lemma WriteSucceedsIff(v: Volume, fd: int, bytes: seq<byte>)
    requires WellFormed(v) && CanWrite(v, fd)
    ensures var file, offset, (v', reply) := FileOf(v, fd), v.fds[fd].offset, WriteFile(v, fd, bytes);
            var lacking, gained := Lacking(file, offset, |bytes|),
              |FileAfter(v, file, offset, bytes).image| - |file.image|;
            && (reply.status == Ok <==> lacking <= v.free)
            && (reply.status != Ok ==> reply.status == ErrNoSpace)
            && v'.free == (if reply.status == Ok then v.free - lacking else 0)
            && gained == (v.free - v'.free) * BLOCK_SIZE
  {
    WholeFile(v, fd);
    hide WellFormed, ImageAfter, Rewrite;
  }

  /** Neither a failed nor a successful write moves a descriptor past the data area, so adding a
      chunk to a 32-bit offset never wraps. */
  lemma WriteOffsetStaysInData(v: Volume, fd: int, bytes: seq<byte>, blocks: nat)
    requires WellFormed(v) && Conserved(v, blocks) && CanWrite(v, fd)
    ensures var offset, offset' := v.fds[fd].offset, WriteFile(v, fd, bytes).0.fds[fd].offset;
            offset' == offset || offset < offset' <= blocks * BLOCK_SIZE
  {
    SlotWithinTotal(v.slots, v.fds[fd].slot);
    hide WellFormed, FileAfter, TotalBlocks;
  }

  // ----- clean files

  /** The file has exactly the blocks its size calls for and only zeros past its end. */
  predicate CleanFile(file: File) {
    && |file.image| == BlocksFor(file.size) * BLOCK_SIZE
    && forall p :: file.size <= p < |file.image| ==> file.image[p] == 0
  }

  predicate Clean(v: Volume) {
    forall i :: 0 <= i < |v.slots| && v.slots[i].Stored? ==> CleanFile(v.slots[i].file)
  }

  /** The bytes of a file, by its recorded size. */
  function Contents(file: File): (c: seq<byte>)
    ensures |c| == file.size
  {
    ZeroExtend(file.image, file.size)[..file.size]
  }

  /** The step is no write that leaves debris or a gap: exactly then it keeps a clean volume clean. */
  predicate KeepsClean(v: Volume, op: Op)
    requires WellFormed(v)
  {
    op.Write? && CanWrite(v, op.fd) ==>
      var file, offset := FileOf(v, op.fd), v.fds[op.fd].offset;
      if op.bytes == [] then BlocksFor(Max(file.size, offset)) == BlocksFor(file.size)
      else HasRoom(v, file, offset, |op.bytes|) || (v.free == 0 && ZeroPastEnd(file, offset, op.bytes))
  }

  /** The step keeps a clean volume clean, and if it is a write it finds the room it needs. */
  predicate Gentle(v: Volume, op: Op)
    requires WellFormed(v)
  {
    && KeepsClean(v, op)
    && (op.Write? && CanWrite(v, op.fd) ==> HasRoom(v, FileOf(v, op.fd), v.fds[op.fd].offset, |op.bytes|))
  }

  predicate GentleRun(v: Volume, ops: seq<Op>)
    requires WellFormed(v)
    decreases |ops|
  {
    ops == [] ||
    (&& Gentle(v, ops[0])
     && (ApplyKeepsWellFormed(v, ops[0]); GentleRun(Apply(v, ops[0]).0, ops[1..])))
  }

  /** The bytes that would land in the file's present blocks past its recorded size are zeros. */
  predicate ZeroPastEnd(file: File, offset: nat, bytes: seq<byte>) {
    var landed := Landed(|file.image| / BLOCK_SIZE, offset, |bytes|);
    forall k :: Max(0, file.size - offset) <= k < landed ==> bytes[k] == 0
  }

  lemma FileWithoutRoom(v: Volume, file: File, offset: nat, bytes: seq<byte>)
    requires CleanFile(file) && !HasRoom(v, file, offset, |bytes|)
    ensures CleanFile(FileAfter(v, file, offset, bytes)) <==> v.free == 0 && ZeroPastEnd(file, offset, bytes)
  {
    var file' := FileAfter(v, file, offset, bytes);
    if v.free == 0 && CleanFile(file') {
      var landed := Landed(|file.image| / BLOCK_SIZE, offset, |bytes|);
      forall k | Max(0, file.size - offset) <= k < landed ensures bytes[k] == 0 {
        assert file'.image[offset + k] == bytes[k];
      }
    }
  }

  /** A write leaves a clean volume clean exactly in these cases, all known before the call:
      an empty write must not need a new block for the size it records; a write without room must
      find no free block and put only zeros past the recorded size. */
  lemma CleanAfterWriteIff(v: Volume, fd: int, bytes: seq<byte>)
    requires WellFormed(v) && Clean(v) && CanWrite(v, fd)
    ensures var file, offset := FileOf(v, fd), v.fds[fd].offset;
            Clean(WriteFile(v, fd, bytes).0) <==>
              if bytes == [] then BlocksFor(Max(file.size, offset)) == BlocksFor(file.size)
              else HasRoom(v, file, offset, |bytes|) || (v.free == 0 && ZeroPastEnd(file, offset, bytes))
  {
    var slot, file, offset := v.fds[fd].slot, FileOf(v, fd), v.fds[fd].offset;
    WholeFile(v, fd);
    assert CleanFile(file);
    var file' := FileAfter(v, file, offset, bytes);
    if !HasRoom(v, file, offset, |bytes|) {
      FileWithoutRoom(v, file, offset, bytes);
    } else {
      FileWithRoom(v, file, offset, bytes);
    }
    hide FileAfter, WellFormed, CleanFile, FreeAfter, EndAfter;
    var v' := WriteFile(v, fd, bytes).0;
    assert v'.slots == v.slots[slot := Stored(file')];
    assert forall i :: 0 <= i < |v.slots| && i != slot ==> v'.slots[i] == v.slots[i];
    assert Clean(v') ==> CleanFile(v'.slots[slot].file);
  }

  /** With room, what a write makes of one clean file. */
  lemma FileWithRoom(v: Volume, file: File, offset: nat, bytes: seq<byte>)
    requires CleanFile(file) && HasRoom(v, file, offset, |bytes|)
    ensures CleanFile(FileAfter(v, file, offset, bytes)) <==>
            bytes != [] || BlocksFor(Max(file.size, offset)) == BlocksFor(file.size)
  {
  }

  /** What a write with room makes of a file's image. */
  lemma RoomyImage(v: Volume, file: File, offset: nat, bytes: seq<byte>)
    requires |file.image| % BLOCK_SIZE == 0 && HasRoom(v, file, offset, |bytes|)
    ensures var file' := FileAfter(v, file, offset, bytes);
            && file'.size == Max(file.size, offset + |bytes|)
            && |file'.image| >= |file.image| && (bytes != [] ==> offset + |bytes| <= |file'.image|)
            && forall p :: 0 <= p < |file'.image| ==>
                 file'.image[p] == if offset <= p < offset + |bytes| then bytes[p - offset]
                                   else if p < |file.image| then file.image[p] else 0
    ensures EndAfter(v, file, offset, |bytes|) == offset + |bytes|
  {
    assert Landed(BlocksAfter(v, file, offset, |bytes|), offset, |bytes|) == |bytes|;
    assert bytes[..|bytes|] == bytes;
  }

  lemma ContentsWithRoom(v: Volume, file: File, offset: nat, bytes: seq<byte>)
    requires CleanFile(file) && HasRoom(v, file, offset, |bytes|)
    ensures Contents(FileAfter(v, file, offset, bytes)) ==
            Splice(ZeroExtend(Contents(file), offset + |bytes|), offset, bytes)
    ensures EndAfter(v, file, offset, |bytes|) == offset + |bytes|
  {
    RoomyImage(v, file, offset, bytes);
    var file', wanted := FileAfter(v, file, offset, bytes),
                         Splice(ZeroExtend(Contents(file), offset + |bytes|), offset, bytes);
    assert file.size <= |file.image|;
    assert forall p :: file.size <= p < |file.image| ==> file.image[p] == 0;
    hide FileAfter, HasRoom, EndAfter, BlocksFor, Splice, ZeroExtend, Contents, CleanFile;
    forall p | 0 <= p < file'.size ensures Contents(file')[p] == wanted[p] {
      ContentsAt(file', p);
      if p < file.size {
        ContentsAt(file, p);
      }
    }
  }

  lemma ContentsAt(file: File, p: nat)
    requires p < file.size
    ensures Contents(file)[p] == if p < |file.image| then file.image[p] else 0
  {
  }

  /** An empty file that finds too little room is left with what fits in the free blocks. */
  lemma FilledUp(v: Volume, name: CString, bytes: seq<byte>)
    requires !HasRoom(v, File(name, [], 0), 0, |bytes|)
    ensures v.free * BLOCK_SIZE <= |bytes|
    ensures FileAfter(v, File(name, [], 0), 0, bytes) == File(name, bytes[..v.free * BLOCK_SIZE], 0)
  {
    var file' := FileAfter(v, File(name, [], 0), 0, bytes);
    assert BlocksAfter(v, File(name, [], 0), 0, |bytes|) == v.free;
    hide BlocksFor;
    assert file'.image == bytes[..v.free * BLOCK_SIZE];
  }

  /** A failing write does break the promise: here bytes that reached the disk past the recorded
      size are still there after the call reported that nothing was written. */
  lemma FailedWriteLeavesDebris()
    ensures var v := Volume([Stored(File("a", [], 0))], 1, [Opened(0, 0, Flags(false, true, false, false))]);
            var (v', reply) := WriteFile(v, 0, seq(BLOCK_SIZE + 1, _ => 7));
            WellFormed(v) && Clean(v) && reply == Fail(ErrNoSpace) && !Clean(v')
            && v'.slots == [Stored(File("a", seq(BLOCK_SIZE, _ => 7), 0))]
  {
    var v := Volume([Stored(File("a", [], 0))], 1, [Opened(0, 0, Flags(false, true, false, false))]);
    var bytes := seq(BLOCK_SIZE + 1, _ => 7);
    FilledUp(v, "a", bytes);
    hide FileAfter, FreeAfter, EndAfter;
    var v' := WriteFile(v, 0, bytes).0;
    assert bytes[..BLOCK_SIZE] == seq(BLOCK_SIZE, _ => 7);
    assert !CleanFile(v'.slots[0].file);
  }

  /** So does an empty write past the end: it records a size that no block stands for. */
  lemma EmptyWriteLeavesGap(offset: nat)
    requires offset > 0
    ensures var v := Volume([Stored(File("a", [], 0))], 1, [Opened(0, offset, Flags(false, true, false, false))]);
            var (v', reply) := WriteFile(v, 0, []);
            WellFormed(v) && Clean(v) && reply.status == Ok && !Clean(v')
            && v'.slots[0] == Stored(File("a", [], offset))
  {
    var v := Volume([Stored(File("a", [], 0))], 1, [Opened(0, offset, Flags(false, true, false, false))]);
    var v' := WriteFile(v, 0, []).0;
    assert !CleanFile(v'.slots[0].file);
  }

  /** A write that finds too little room leaves the files as they were exactly when it finds no free
      block to take, and the bytes that fit in the file's own blocks are there already. */
  lemma FailedWriteKeepsFilesIff(v: Volume, fd: int, bytes: seq<byte>)
    requires WellFormed(v) && CanWrite(v, fd) && WriteFile(v, fd, bytes).1.status != Ok
    ensures var file, offset, v' := FileOf(v, fd), v.fds[fd].offset, WriteFile(v, fd, bytes).0;
            var landed := Landed(|file.image| / BLOCK_SIZE, offset, |bytes|);
            v'.slots == v.slots <==>
              && v.free == 0
              && (landed > 0 ==> offset + landed <= |file.image|
                                 && file.image[offset..offset + landed] == bytes[..landed])
  {
    var slot, file, offset := v.fds[fd].slot, FileOf(v, fd), v.fds[fd].offset;
    WholeFile(v, fd);
    var v', file' := WriteFile(v, fd, bytes).0, FileAfter(v, file, offset, bytes);
    assert !HasRoom(v, file, offset, |bytes|);
    assert v'.slots == v.slots[slot := Stored(file')];
    hide WellFormed, WriteFile, FileAfter, HasRoom, BlocksAfter, Landed;
    assert v'.slots == v.slots <==> file' == file;
    RoomlessKeepsIff(v, file, offset, bytes);
  }

  lemma RoomlessKeepsIff(v: Volume, file: File, offset: nat, bytes: seq<byte>)
    requires |file.image| % BLOCK_SIZE == 0 && !HasRoom(v, file, offset, |bytes|)
    ensures var landed := Landed(|file.image| / BLOCK_SIZE, offset, |bytes|);
            FileAfter(v, file, offset, bytes) == file <==>
              && v.free == 0
              && (landed > 0 ==> offset + landed <= |file.image|
                                 && file.image[offset..offset + landed] == bytes[..landed])
  {
    RoomlessImage(v, file, offset, bytes);
    var file', landed := FileAfter(v, file, offset, bytes), Landed(|file.image| / BLOCK_SIZE, offset, |bytes|);
    hide FileAfter, HasRoom;
    if v.free == 0 && landed > 0 {
      assert file'.image[offset..offset + landed] == bytes[..landed];
      if file.image[offset..offset + landed] == bytes[..landed] {
        forall p | 0 <= p < |file.image| ensures file'.image[p] == file.image[p] {
          if offset <= p < offset + landed {
            assert bytes[..landed][p - offset] == file.image[offset..offset + landed][p - offset];
          }
        }
        assert file'.image == file.image;
      }
    } else if v.free == 0 {
      assert file'.image == file.image;
    }
  }

  /** What a write without room makes of a file's image. */
  lemma RoomlessImage(v: Volume, file: File, offset: nat, bytes: seq<byte>)
    requires |file.image| % BLOCK_SIZE == 0 && !HasRoom(v, file, offset, |bytes|)
    ensures var file', landed := FileAfter(v, file, offset, bytes),
                                 Landed(|file.image| / BLOCK_SIZE, offset, |bytes|);
            && file'.name == file.name && file'.size == file.size
            && |file'.image| == |file.image| + v.free * BLOCK_SIZE
            && (landed > 0 ==> offset + landed <= |file.image|)
            && (v.free == 0 ==> forall p :: 0 <= p < |file.image| ==>
                  file'.image[p] == if offset <= p < offset + landed then bytes[p - offset] else file.image[p])
  {
  }

  /** The volume need not become unclean for that: on a full disk a write that reports no space can
      overwrite what was there. */
  lemma FailedWriteOverwrites()
    ensures var was := seq(BLOCK_SIZE, _ => 7);
            var v := Volume([Stored(File("a", was, BLOCK_SIZE))], 0, [Opened(0, 0, Flags(true, true, false, false))]);
            var (v', reply) := WriteFile(v, 0, seq(BLOCK_SIZE + 1, _ => 9));
            WellFormed(v) && Clean(v) && reply == Fail(ErrNoSpace) && Clean(v')
            && v'.slots[0] == Stored(File("a", seq(BLOCK_SIZE, _ => 9), BLOCK_SIZE))
  {
    var v := Volume([Stored(File("a", seq(BLOCK_SIZE, _ => 7), BLOCK_SIZE))], 0,
                    [Opened(0, 0, Flags(true, true, false, false))]);
    var v' := WriteFile(v, 0, seq(BLOCK_SIZE + 1, _ => 9)).0;
    assert v'.slots[0].file.image == seq(BLOCK_SIZE, _ => 9);
  }

  /** Debris surfaces: a byte between the recorded size and the place of a later write that goes
      through becomes part of the file as it lay in its blocks. */
  lemma DebrisSurfaces(v: Volume, fd: int, bytes: seq<byte>, p: nat)
    requires WellFormed(v) && CanWrite(v, fd) && WriteFile(v, fd, bytes).1.status == Ok
    requires FileOf(v, fd).size <= p < v.fds[fd].offset && p < |FileOf(v, fd).image|
    ensures var slot, v' := v.fds[fd].slot, WriteFile(v, fd, bytes).0;
            && slot < |v'.slots| && v'.slots[slot].Stored?
            && p < |Contents(v'.slots[slot].file)| && Contents(v'.slots[slot].file)[p] == FileOf(v, fd).image[p]
  {
    WholeFile(v, fd);
    var file' := FileAfter(v, FileOf(v, fd), v.fds[fd].offset, bytes);
    assert WriteFile(v, fd, bytes).0.slots[v.fds[fd].slot] == Stored(file');
    hide WellFormed, WriteFile, BlocksFor;
    assert file'.image[p] == FileOf(v, fd).image[p];
  }

  // ----- covered files

  /** Every recorded byte lies in a block. */
  predicate Covered(v: Volume) {
    forall i :: 0 <= i < |v.slots| && v.slots[i].Stored? ==> v.slots[i].file.size <= |v.slots[i].file.image|
  }

  /** The step is no empty write past the blocks of its file. */
  predicate KeepsCovered(v: Volume, op: Op)
    requires WellFormed(v)
  {
    op.Write? && CanWrite(v, op.fd) && op.bytes == [] ==> v.fds[op.fd].offset <= |FileOf(v, op.fd).image|
  }

  /** One step leaves a covered volume covered exactly when it is no such write; whether it succeeds
      does not matter. */
  lemma ApplyKeepsCoveredIff(v: Volume, op: Op)
    requires WellFormed(v) && Covered(v)
    ensures Covered(Apply(v, op).0) <==> KeepsCovered(v, op)
  {
    match op
    case Write(fd, bytes) =>
      if CanWrite(v, fd) {
        WriteKeepsCoveredIff(v, fd, bytes);
      }
    case Open(name, flags) => OpenKeepsCovered(v, name, flags);
    case _ =>
  }

  lemma OpenKeepsCovered(v: Volume, name: CString, flags: Flags)
    requires Covered(v)
    ensures Covered(OpenFile(v, name, flags).0)
  {
    hide FindName, FindVacant, FindClosed, ValidName;
  }

  lemma WriteKeepsCoveredIff(v: Volume, fd: int, bytes: seq<byte>)
    requires WellFormed(v) && Covered(v) && CanWrite(v, fd)
    ensures Covered(WriteFile(v, fd, bytes).0) <==> bytes != [] || v.fds[fd].offset <= |FileOf(v, fd).image|
  {
    var slot, file, offset := v.fds[fd].slot, FileOf(v, fd), v.fds[fd].offset;
    WholeFile(v, fd);
    CoveredAfterWriteIff(v, file, offset, bytes);
    hide FileAfter, WellFormed, FreeAfter, EndAfter;
    var v' := WriteFile(v, fd, bytes).0;
    assert v'.slots == v.slots[slot := Stored(FileAfter(v, file, offset, bytes))];
    assert Covered(v') ==> v'.slots[slot].file.size <= |v'.slots[slot].file.image|;
  }

  lemma CoveredAfterWriteIff(v: Volume, file: File, offset: nat, bytes: seq<byte>)
    requires |file.image| % BLOCK_SIZE == 0 && file.size <= |file.image|
    ensures var file' := FileAfter(v, file, offset, bytes);
            file'.size <= |file'.image| <==> bytes != [] || offset <= |file.image|
  {
  }

  /** So every recorded byte has its block after every step of a run exactly when no empty write of
      the run lies past the blocks of its file. */
  lemma RunStaysCoveredIff(v: Volume, ops: seq<Op>)
    requires WellFormed(v) && Covered(v)
    ensures (forall n :: 0 <= n <= |ops| ==> Covered(Run(v, ops[..n]))) <==>
            (forall n :: 0 <= n < |ops| ==> KeepsCovered(Run(v, ops[..n]), ops[n]))
  {
    hide Covered, KeepsCovered, Apply;
    if forall n :: 0 <= n <= |ops| ==> Covered(Run(v, ops[..n])) {
      forall n | 0 <= n < |ops| ensures KeepsCovered(Run(v, ops[..n]), ops[n]) {
        RunMore(v, ops, n);
        assert Covered(Run(v, ops[..n])) && Covered(Run(v, ops[..n + 1]));
        ApplyKeepsCoveredIff(Run(v, ops[..n]), ops[n]);
      }
    } else if forall n :: 0 <= n < |ops| ==> KeepsCovered(Run(v, ops[..n]), ops[n]) {
      forall n | 0 <= n <= |ops| ensures Covered(Run(v, ops[..n])) {
        KeptCovered(v, ops, n);
      }
    }
  }

  lemma {:induction false} KeptCovered(v: Volume, ops: seq<Op>, n: nat)
    requires WellFormed(v) && Covered(v) && n <= |ops|
    requires forall m :: 0 <= m < |ops| ==> KeepsCovered(Run(v, ops[..m]), ops[m])
    ensures Covered(Run(v, ops[..n]))
  {
    hide Covered, KeepsCovered, Apply;
    if n > 0 {
      KeptCovered(v, ops, n - 1);
      RunMore(v, ops, n - 1);
      ApplyKeepsCoveredIff(Run(v, ops[..n - 1]), ops[n - 1]);
    }
  }

  // ----- clean runs

  lemma OpenKeepsClean(v: Volume, name: CString, flags: Flags)
    requires Clean(v)
    ensures Clean(OpenFile(v, name, flags).0)
  {
    assert CleanFile(File(name, [], 0));
    hide FindName, FindVacant, FindClosed, ValidName;
  }

  lemma ApplyKeepsCleanIff(v: Volume, op: Op)
    requires WellFormed(v) && Clean(v)
    ensures Clean(Apply(v, op).0) <==> KeepsClean(v, op)
  {
    match op
    case Open(name, flags) => OpenKeepsClean(v, name, flags);
    case Write(fd, bytes) =>
      if CanWrite(v, fd) {
        CleanAfterWriteIff(v, fd, bytes);
      }
    case _ =>
  }

  /** One more step at the end of a run. */
  lemma {:induction false} RunMore(v: Volume, ops: seq<Op>, n: nat)
    requires WellFormed(v) && n < |ops|
    ensures Run(v, ops[..n + 1]) == Apply(Run(v, ops[..n]), ops[n]).0
    decreases n
  {
    ApplyKeepsWellFormed(v, ops[0]);
    assert ops[..n + 1][1..] == ops[1..][..n];
    if n > 0 {
      assert ops[..n][1..] == ops[1..][..n - 1];
      RunMore(Apply(v, ops[0]).0, ops[1..], n - 1);
    }
    hide Apply;
  }

  /** A run from a clean volume is at a clean volume after every step exactly when every step keeps
      clean what it meets. */
  lemma RunStaysCleanIff(v: Volume, ops: seq<Op>)
    requires WellFormed(v) && Clean(v)
    ensures (forall n :: 0 <= n <= |ops| ==> Clean(Run(v, ops[..n]))) <==>
            (forall n :: 0 <= n < |ops| ==> KeepsClean(Run(v, ops[..n]), ops[n]))
  {
    hide Clean, KeepsClean, Apply;
    if forall n :: 0 <= n <= |ops| ==> Clean(Run(v, ops[..n])) {
      forall n | 0 <= n < |ops| ensures KeepsClean(Run(v, ops[..n]), ops[n]) {
        RunMore(v, ops, n);
        assert Clean(Run(v, ops[..n])) && Clean(Run(v, ops[..n + 1]));
        ApplyKeepsCleanIff(Run(v, ops[..n]), ops[n]);
      }
    } else if forall n :: 0 <= n < |ops| ==> KeepsClean(Run(v, ops[..n]), ops[n]) {
      forall n | 0 <= n <= |ops| ensures Clean(Run(v, ops[..n])) {
        KeptClean(v, ops, n);
      }
    }
  }

  lemma {:induction false} KeptClean(v: Volume, ops: seq<Op>, n: nat)
    requires WellFormed(v) && Clean(v) && n <= |ops|
    requires forall m :: 0 <= m < |ops| ==> KeepsClean(Run(v, ops[..m]), ops[m])
    ensures Clean(Run(v, ops[..n]))
  {
    hide Clean, KeepsClean, Apply;
    if n > 0 {
      KeptClean(v, ops, n - 1);
      RunMore(v, ops, n - 1);
      ApplyKeepsCleanIff(Run(v, ops[..n - 1]), ops[n - 1]);
    }
  }

  // ----- contents

  /** A write with room turns the old contents, stretched with zeros where it starts past the end,
      into the same bytes with [offset, offset + len) replaced; no other file changes. */
  lemma WriteReplacesSlice(v: Volume, fd: int, bytes: seq<byte>)
    requires WellFormed(v) && Clean(v) && CanWrite(v, fd)
    requires HasRoom(v, FileOf(v, fd), v.fds[fd].offset, |bytes|)
    ensures var slot, offset, (v', reply) := v.fds[fd].slot, v.fds[fd].offset, WriteFile(v, fd, bytes);
            && reply == Reply(Ok, -1, |bytes|, [])
            && v'.fds == v.fds[fd := v.fds[fd].(offset := offset + |bytes|)]
            && slot < |v'.slots| && v'.slots[slot].Stored? && v'.slots == v.slots[slot := v'.slots[slot]]
            && v'.slots[slot].file.name == v.slots[slot].file.name
            && Contents(v'.slots[slot].file) ==
                 Splice(ZeroExtend(Contents(v.slots[slot].file), offset + |bytes|), offset, bytes)
  {
    WholeFile(v, fd);
    assert CleanFile(FileOf(v, fd));
    ContentsWithRoom(v, FileOf(v, fd), v.fds[fd].offset, bytes);
    hide Contents, WellFormed, CleanFile, FreeAfter, EndAfter, HasRoom, ImageAfter;
  }

  /** A read delivers exactly the slice of the contents that starts at the descriptor. */
  lemma ReadDeliversSlice(v: Volume, fd: int, len: nat)
    requires WellFormed(v) && Clean(v) && CanRead(v, fd)
    ensures var contents, offset, (v', reply) := Contents(FileOf(v, fd)), v.fds[fd].offset, ReadFile(v, fd, len);
            var start, end := Min(offset, |contents|), Min(offset + len, |contents|);
            && reply == Reply(Ok, -1, end - start, contents[start..end])
            && v' == MoveTo(v, fd, offset + (end - start))
  {
    var file, offset := FileOf(v, fd), v.fds[fd].offset;
    assert CleanFile(file);
    hide WellFormed, Clean, WholeBlocks;
    var contents := Contents(file);
    var start, end := Min(offset, |contents|), Min(offset + len, |contents|);
    assert |contents| == file.size && contents == file.image[..file.size];
    if file.size <= offset || len == 0 {
      assert contents[start..end] == [];
      assert v.fds[fd].(offset := offset) == v.fds[fd];
    } else {
      assert contents[start..end] == file.image[start..end];
    }
  }

  lemma ReadFrom(v: Volume, fd: int, offset: nat, bytes: seq<byte>)
    requires WellFormed(v) && Clean(v) && CanRead(v, fd)
    requires offset + |bytes| <= |Contents(FileOf(v, fd))| && Contents(FileOf(v, fd))[offset..offset + |bytes|] == bytes
    ensures var v' := SeekFile(v, fd, offset).0;
            WellFormed(v') && ReadFile(v', fd, |bytes|).1 == Reply(Ok, -1, |bytes|, bytes)
  {
    hide WholeBlocks, CleanFile, Contents, ReadFile;
    var v' := SeekFile(v, fd, offset).0;
    assert Refers(v.fds[fd], v.slots);
    assert WellFormed(v') && Clean(v');
    ReadDeliversSlice(v', fd, |bytes|);
  }

  /** Writing, seeking back on any descriptor of the same file and reading returns the bytes. */
  lemma ReadBack(v: Volume, fd: int, bytes: seq<byte>, reader: int)
    requires WellFormed(v) && Clean(v) && CanWrite(v, fd) && Gentle(v, Write(fd, bytes))
    requires CanRead(v, reader) && v.fds[reader].slot == v.fds[fd].slot
    ensures var v1 := WriteFile(v, fd, bytes).0;
            var v2 := SeekFile(v1, reader, v.fds[fd].offset).0;
            WellFormed(v2) && ReadFile(v2, reader, |bytes|).1 == Reply(Ok, -1, |bytes|, bytes)
  {
    var v1, offset := WriteFile(v, fd, bytes).0, v.fds[fd].offset;
    WriteReplacesSlice(v, fd, bytes);
    ApplyKeepsCleanIff(v, Write(fd, bytes));
    WriteKeepsWellFormed(v, fd, bytes);
    hide WriteFile, Contents, Clean, WellFormed, ReadFile, SeekFile;
    assert Contents(FileOf(v1, reader))[offset..offset + |bytes|] == bytes;
    ReadFrom(v1, reader, offset, bytes);
  }
}
