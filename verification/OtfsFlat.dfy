/** The simplest account of the file system: a map from names to byte strings. As long as no write
    runs out of blocks and no empty write records a size past the end, the volume gives the same
    replies as this map, call by call, over whole runs. */
module OtfsFlat {
  import opened Words
  import opened OtfsVolume
  import opened OtfsRuns

  datatype Handle = Shut | Held(name: CString, offset: nat, flags: Flags)

  datatype Flat = Flat(files: map<CString, seq<byte>>, handles: seq<Handle>)

  // ----- the flat machine

  predicate HandlesOk(f: Flat) {
    forall d :: 0 <= d < |f.handles| && f.handles[d].Held? ==> f.handles[d].name in f.files
  }

  function FindShut(handles: seq<Handle>): (r: Option<nat>)
    ensures r.Some? ==> r.value < |handles| && handles[r.value].Shut?
  {
    if handles == [] then None
    else if handles[0].Shut? then Some(0)
    else match FindShut(handles[1..])
      case None => None
      case Some(i) => Some(i + 1)
  }

  function FlatGrab(f: Flat, name: CString, flags: Flags): (Flat, Reply) {
    match FindShut(f.handles)
    case None => (f, Fail(ErrNoSpace))
    case Some(fd) => (f.(handles := f.handles[fd := Held(name, 0, flags)]), Reply(Ok, fd, 0, []))
  }

  /** A name of 1 to 31 characters, none of them a slash of either kind. */
  predicate FlatName(name: string) {
    0 < |name| < 32 && forall i :: 0 <= i < |name| ==> name[i] != '/' && name[i] != '\\'
  }

  /** Reading, writing or both are asked for; who truncates must write. */
  predicate FlatFlags(flags: Flags) {
    flags.write || (flags.read && !flags.trunc)
  }

  function FlatOpen(f: Flat, capacity: nat, name: CString, flags: Flags): (Flat, Reply) {
    if !FlatName(name) || !FlatFlags(flags) then (f, Fail(ErrArg))
    else if name !in f.files && !flags.create then (f, Fail(ErrNotFound))
    else if name !in f.files && |f.files| == capacity then (f, Fail(ErrNoSpace))
    else if name !in f.files || flags.trunc then FlatGrab(f.(files := f.files[name := []]), name, flags)
    else FlatGrab(f, name, flags)
  }

  function FlatMove(f: Flat, fd: nat, offset: nat): Flat
    requires fd < |f.handles| && f.handles[fd].Held?
  {
    f.(handles := f.handles[fd := f.handles[fd].(offset := offset)])
  }

  function FlatRead(f: Flat, fd: nat, len: nat): (Flat, Reply)
    requires HandlesOk(f) && fd < |f.handles| && f.handles[fd].Held?
  {
    var contents, offset := f.files[f.handles[fd].name], f.handles[fd].offset;
    var start, end := Min(offset, |contents|), Min(offset + len, |contents|);
    var bytes := contents[start..end];
    (FlatMove(f, fd, offset + |bytes|), Reply(Ok, -1, |bytes|, bytes))
  }

  function FlatWrite(f: Flat, fd: nat, bytes: seq<byte>): (Flat, Reply)
    requires HandlesOk(f) && fd < |f.handles| && f.handles[fd].Held?
  {
    var name, offset := f.handles[fd].name, f.handles[fd].offset;
    var contents := Splice(ZeroExtend(f.files[name], offset + |bytes|), offset, bytes);
    (FlatMove(f.(files := f.files[name := contents]), fd, offset + |bytes|), Reply(Ok, -1, |bytes|, []))
  }

  function FlatApply(f: Flat, capacity: nat, op: Op): (Flat, Reply)
    requires HandlesOk(f)
  {
    if op.Open? then FlatOpen(f, capacity, op.name, op.flags)
    else if !(0 <= op.fd < |f.handles|) then (f, Fail(ErrArg))
    else if f.handles[op.fd].Shut? then (f, Fail(ErrState))
    else match op
      case Close(fd) => (f.(handles := f.handles[fd := Shut]), Reply(Ok, -1, 0, []))
      case Seek(fd, offset) => (FlatMove(f, fd, offset), Reply(Ok, -1, 0, []))
      case Read(fd, len) => if f.handles[fd].flags.read then FlatRead(f, fd, len) else (f, Fail(ErrState))
      case Write(fd, bytes) => if f.handles[fd].flags.write then FlatWrite(f, fd, bytes) else (f, Fail(ErrState))
  }

  // ----- a volume seen as a flat machine

  /** No two stored files share a name, and every name is one that open accepts. */
  predicate NamesOk(slots: seq<Slot>) {
    && (forall i :: 0 <= i < |slots| && slots[i].Stored? ==> ValidName(slots[i].file.name))
    && (forall i, j :: 0 <= i < j < |slots| && slots[i].Stored? && slots[j].Stored? ==>
          slots[i].file.name != slots[j].file.name)
  }

  function NameSet(slots: seq<Slot>): set<CString> {
    set i | 0 <= i < |slots| && slots[i].Stored? :: slots[i].file.name
  }

  function Files(slots: seq<Slot>): map<CString, seq<byte>> {
    map name | name in NameSet(slots) ::
      var found := FindName(slots, name);
      if found.Some? then Contents(slots[found.value].file) else []
  }

  function AsHandle(fd: Descriptor, slots: seq<Slot>): Handle
    requires Refers(fd, slots)
  {
    match fd
    case Closed => Shut
    case Opened(slot, offset, flags) => Held(slots[slot].file.name, offset, flags)
  }

  function Handles(fds: seq<Descriptor>, slots: seq<Slot>): (h: seq<Handle>)
    requires forall d :: 0 <= d < |fds| ==> Refers(fds[d], slots)
    ensures |h| == |fds| && forall d :: 0 <= d < |fds| ==> h[d] == AsHandle(fds[d], slots)
  {
    seq(|fds|, d requires 0 <= d < |fds| => AsHandle(fds[d], slots))
  }

  function Flatten(v: Volume): Flat
    requires WellFormed(v)
  {
    Flat(Files(v.slots), Handles(v.fds, v.slots))
  }

  // ----- lemmas on names

  lemma FindStored(slots: seq<Slot>, i: nat)
    requires NamesOk(slots) && i < |slots| && slots[i].Stored?
    ensures FindName(slots, slots[i].file.name) == Some(i)
  {
    var found := FindName(slots, slots[i].file.name);
    assert Named(slots[i], slots[i].file.name);
  }

  lemma InFiles(slots: seq<Slot>, name: CString)
    requires NamesOk(slots)
    ensures name in Files(slots) <==> FindName(slots, name).Some?
    ensures name in Files(slots) ==> Files(slots)[name] == Contents(slots[FindName(slots, name).value].file)
  {
    var found := FindName(slots, name);
    if name in NameSet(slots) {
      var i :| 0 <= i < |slots| && slots[i].Stored? && slots[i].file.name == name;
      FindStored(slots, i);
    }
  }

  lemma FindUpdated(slots: seq<Slot>, i: nat, file: File, name: CString)
    requires i < |slots| && NamesOk(slots) && NamesOk(slots[i := Stored(file)])
    requires slots[i].Stored? ==> slots[i].file.name == file.name
    ensures FindName(slots[i := Stored(file)], name) == if name == file.name then Some(i) else FindName(slots, name)
    ensures name != file.name && FindName(slots, name).Some? ==> FindName(slots, name).value != i
  {
    var slots' := slots[i := Stored(file)];
    if name == file.name {
      FindStored(slots', i);
    } else {
      var found, found' := FindName(slots, name), FindName(slots', name);
      if found.Some? {
        assert Named(slots'[found.value], name);
        FindStored(slots', found.value);
      } else {
        assert forall j :: 0 <= j < |slots| ==> Named(slots'[j], name) ==> Named(slots[j], name);
      }
    }
  }

  /** Rewriting one slot under the name it has, or filling a vacant one with a new name, changes
      the map at that name only. */
  lemma FilesUpdate(slots: seq<Slot>, i: nat, file: File)
    requires i < |slots| && NamesOk(slots) && NamesOk(slots[i := Stored(file)])
    requires slots[i].Stored? ==> slots[i].file.name == file.name
    ensures Files(slots[i := Stored(file)]) == Files(slots)[file.name := Contents(file)]
  {
    var slots' := slots[i := Stored(file)];
    var expected := Files(slots)[file.name := Contents(file)];
    forall name: CString
      ensures name in Files(slots') <==> name in expected
      ensures name in expected ==> Files(slots')[name] == expected[name]
    {
      InFiles(slots, name);
      InFiles(slots', name);
      FindUpdated(slots, i, file, name);
    }
  }

  lemma NameSetHead(slots: seq<Slot>)
    requires slots != []
    ensures NameSet(slots) == NameSet(slots[1..]) + if slots[0].Stored? then {slots[0].file.name} else {}
  {
    var rest := slots[1..];
    forall i | 0 <= i < |slots| && slots[i].Stored?
      ensures i == 0 || slots[i].file.name in NameSet(rest)
    {
      assert i > 0 ==> rest[i - 1] == slots[i];
    }
    forall i | 0 <= i < |rest| && rest[i].Stored? ensures rest[i].file.name in NameSet(slots) {
      assert slots[i + 1] == rest[i];
    }
  }

  lemma NamesOkTail(slots: seq<Slot>)
    requires NamesOk(slots) && slots != []
    ensures NamesOk(slots[1..]) && (slots[0].Stored? ==> slots[0].file.name !in NameSet(slots[1..]))
  {
    var rest := slots[1..];
    assert forall i :: 0 <= i < |rest| ==> rest[i] == slots[i + 1];
  }

  lemma {:induction false} NameCount(slots: seq<Slot>)
    requires NamesOk(slots)
    ensures |NameSet(slots)| <= |slots|
    ensures |NameSet(slots)| == |slots| <==> FindVacant(slots).None?
  {
    if slots == [] {
      assert NameSet(slots) == {};
    } else {
      NameSetHead(slots);
      NamesOkTail(slots);
      NameCount(slots[1..]);
    }
  }

  lemma FilesFull(slots: seq<Slot>)
    requires NamesOk(slots)
    ensures |Files(slots)| == |slots| <==> FindVacant(slots).None?
  {
    NameCount(slots);
    assert Files(slots).Keys == NameSet(slots);
  }

  lemma {:induction false} FindShutAgrees(fds: seq<Descriptor>, slots: seq<Slot>)
    requires forall d :: 0 <= d < |fds| ==> Refers(fds[d], slots)
    ensures FindShut(Handles(fds, slots)) == FindClosed(fds)
  {
    if fds != [] {
      FindShutAgrees(fds[1..], slots);
      assert Handles(fds, slots)[1..] == Handles(fds[1..], slots);
    }
  }

  // ----- one step

  lemma FlattenHandlesOk(v: Volume)
    requires WellFormed(v) && NamesOk(v.slots)
    ensures HandlesOk(Flatten(v))
  {
    forall d | 0 <= d < |v.fds| && v.fds[d].Opened? ensures Flatten(v).handles[d].name in Files(v.slots) {
      assert Refers(v.fds[d], v.slots);
      FindStored(v.slots, v.fds[d].slot);
      InFiles(v.slots, v.slots[v.fds[d].slot].file.name);
    }
  }

  lemma AssignAgrees(v: Volume, slot: nat, flags: Flags)
    requires WellFormed(v) && slot < |v.slots| && v.slots[slot].Stored?
    ensures WellFormed(AssignFd(v, slot, flags).0)
    ensures var (v', reply) := AssignFd(v, slot, flags);
            (Flatten(v'), reply) == FlatGrab(Flatten(v), v.slots[slot].file.name, flags)
  {
    FindShutAgrees(v.fds, v.slots);
    var v' := AssignFd(v, slot, flags).0;
    assert Flatten(v').handles == FlatGrab(Flatten(v), v.slots[slot].file.name, flags).0.handles;
  }

  lemma TruncateAgrees(v: Volume, slot: nat)
    requires WellFormed(v) && NamesOk(v.slots) && slot < |v.slots| && v.slots[slot].Stored?
    ensures var v' := Truncate(v, slot);
            && WellFormed(v') && NamesOk(v'.slots) && |v'.slots| == |v.slots|
            && Named(v'.slots[slot], v.slots[slot].file.name)
            && Flatten(v') == Flatten(v).(files := Flatten(v).files[v.slots[slot].file.name := []])
  {
    var v' := Truncate(v, slot);
    TruncateKeepsWellFormed(v, slot);
    SameNames(v.slots, slot, v'.slots[slot].file);
    FilesUpdate(v.slots, slot, v'.slots[slot].file);
    hide Files, NamesOk;
    assert Contents(v'.slots[slot].file) == [];
    assert Handles(v'.fds, v'.slots) == Handles(v.fds, v.slots);
  }

  lemma CreateAgrees(v: Volume, slot: nat, name: CString)
    requires WellFormed(v) && NamesOk(v.slots) && slot < |v.slots| && v.slots[slot].Vacant?
    requires ValidName(name) && FindName(v.slots, name).None?
    ensures var v' := Create(v, slot, name);
            && WellFormed(v') && NamesOk(v'.slots)
            && Flatten(v') == Flatten(v).(files := Flatten(v).files[name := []])
  {
    var v' := Create(v, slot, name);
    CreateKeepsWellFormed(v, slot, name);
    assert NamesOk(v'.slots) by {
      forall i | 0 <= i < |v.slots| && v.slots[i].Stored? ensures v.slots[i].file.name != name {
        assert !Named(v.slots[i], name);
      }
    }
    FilesUpdate(v.slots, slot, File(name, [], 0));
    hide Files, NamesOk;
    assert Contents(File(name, [], 0)) == [];
    forall d | 0 <= d < |v.fds| ensures AsHandle(v'.fds[d], v'.slots) == AsHandle(v.fds[d], v.slots) {
      assert Refers(v.fds[d], v.slots);
    }
    assert Handles(v'.fds, v'.slots) == Handles(v.fds, v.slots);
  }

  lemma OpenSlotAgrees(v: Volume, slot: nat, flags: Flags)
    requires WellFormed(v) && NamesOk(v.slots) && slot < |v.slots| && v.slots[slot].Stored?
    ensures WellFormed(OpenSlot(v, slot, flags).0) && NamesOk(OpenSlot(v, slot, flags).0.slots)
    ensures |OpenSlot(v, slot, flags).0.slots| == |v.slots|
    ensures var (v', reply) := OpenSlot(v, slot, flags);
            var name, f := v.slots[slot].file.name, Flatten(v);
            (Flatten(v'), reply) == FlatGrab(if flags.trunc then f.(files := f.files[name := []]) else f, name, flags)
  {
    OpenSlotKeepsWellFormed(v, slot, flags);
    TruncateAgrees(v, slot);
    hide Flatten, NamesOk, WellFormed, FlatGrab, Truncate;
    if flags.trunc {
      AssignAgrees(Truncate(v, slot), slot, flags);
    } else {
      AssignAgrees(v, slot, flags);
    }
  }

  lemma ArgsAgree(name: CString, flags: Flags)
    ensures OpenArgsOk(name, flags) <==> FlatName(name) && FlatFlags(flags)
  {
  }

  lemma OpenAgrees(v: Volume, name: CString, flags: Flags)
    requires WellFormed(v) && NamesOk(v.slots)
    ensures WellFormed(OpenFile(v, name, flags).0) && NamesOk(OpenFile(v, name, flags).0.slots)
    ensures |OpenFile(v, name, flags).0.slots| == |v.slots|
    ensures var (v', reply) := OpenFile(v, name, flags);
            (Flatten(v'), reply) == FlatOpen(Flatten(v), |v.slots|, name, flags)
  {
    InFiles(v.slots, name);
    FilesFull(v.slots);
    ArgsAgree(name, flags);
    var found, vacant := FindName(v.slots, name), FindVacant(v.slots);
    hide Files, NamesOk, WellFormed, FlatGrab, OpenSlot, OpenArgsOk, FlatName, FlatFlags, Create, FindName, FindVacant;
    if OpenArgsOk(name, flags) {
      if found.Some? {
        OpenSlotAgrees(v, found.value, flags);
      } else if flags.create && vacant.Some? {
        var v1 := Create(v, vacant.value, name);
        CreateAgrees(v, vacant.value, name);
        OpenSlotAgrees(v1, vacant.value, flags);
        assert Flatten(v1).files[name := []] == Flatten(v1).files;
      }
    }
  }

  lemma MoveAgrees(v: Volume, fd: nat, offset: nat)
    requires WellFormed(v) && FdOpen(v, fd)
    ensures WellFormed(MoveTo(v, fd, offset)) && Flatten(MoveTo(v, fd, offset)) == FlatMove(Flatten(v), fd, offset)
  {
    assert Flatten(MoveTo(v, fd, offset)).handles == FlatMove(Flatten(v), fd, offset).handles;
  }

  /** The map holds the contents of the file behind an open descriptor. */
  lemma HandleView(v: Volume, fd: nat)
    requires WellFormed(v) && NamesOk(v.slots) && FdOpen(v, fd)
    ensures var f, file := Flatten(v), FileOf(v, fd);
            && |f.handles| == |v.fds|
            && f.handles[fd] == Held(file.name, v.fds[fd].offset, v.fds[fd].flags)
            && file.name in f.files && f.files[file.name] == Contents(file)
  {
    assert Refers(v.fds[fd], v.slots);
    FindStored(v.slots, v.fds[fd].slot);
    InFiles(v.slots, FileOf(v, fd).name);
  }

  lemma ReadAgrees(v: Volume, fd: nat, len: nat)
    requires WellFormed(v) && NamesOk(v.slots) && Clean(v) && CanRead(v, fd) && HandlesOk(Flatten(v))
    ensures WellFormed(ReadFile(v, fd, len).0)
    ensures var (v', reply) := ReadFile(v, fd, len);
            var (f', reply') := FlatRead(Flatten(v), fd, len);
            Flatten(v') == f' && reply == reply'
  {
    hide Files;
    HandleView(v, fd);
    ReadDeliversSlice(v, fd, len);
    var (v', reply) := ReadFile(v, fd, len);
    MoveAgrees(v, fd, v.fds[fd].offset + |reply.bytes|);
  }

  /** What the map sees of one file rewritten and its descriptor moved on. */
  lemma RewriteAgrees(v: Volume, v': Volume, fd: nat, bytes: seq<byte>, file: File)
    requires WellFormed(v) && NamesOk(v.slots) && FdOpen(v, fd) && HandlesOk(Flatten(v))
    requires WellFormed(v') && NamesOk(v'.slots)
    requires v'.slots == v.slots[v.fds[fd].slot := Stored(file)] && file.name == FileOf(v, fd).name
    requires v'.fds == v.fds[fd := v.fds[fd].(offset := v.fds[fd].offset + |bytes|)]
    requires Contents(file) ==
             Splice(ZeroExtend(Contents(FileOf(v, fd)), v.fds[fd].offset + |bytes|), v.fds[fd].offset, bytes)
    ensures Flatten(v') == FlatWrite(Flatten(v), fd, bytes).0
  {
    hide Files;
    HandleView(v, fd);
    FilesUpdate(v.slots, v.fds[fd].slot, file);
    var handles, handles' := Handles(v.fds, v.slots), Handles(v'.fds, v'.slots);
    forall d | 0 <= d < |v.fds| && d != fd ensures handles'[d] == handles[d] {
      assert Refers(v.fds[d], v.slots);
    }
    assert handles' == FlatWrite(Flatten(v), fd, bytes).0.handles;
  }

  lemma SameNames(slots: seq<Slot>, i: nat, file: File)
    requires NamesOk(slots) && i < |slots| && Named(slots[i], file.name)
    ensures NamesOk(slots[i := Stored(file)])
  {
  }

  lemma WriteAgrees(v: Volume, fd: nat, bytes: seq<byte>)
    requires WellFormed(v) && NamesOk(v.slots) && Clean(v) && CanWrite(v, fd) && Gentle(v, Write(fd, bytes))
    requires HandlesOk(Flatten(v))
    ensures WellFormed(WriteFile(v, fd, bytes).0) && NamesOk(WriteFile(v, fd, bytes).0.slots)
    ensures Flatten(WriteFile(v, fd, bytes).0) == FlatWrite(Flatten(v), fd, bytes).0
    ensures WriteFile(v, fd, bytes).1 == Reply(Ok, -1, |bytes|, [])
    ensures |WriteFile(v, fd, bytes).0.slots| == |v.slots|
  {
    WriteKeepsWellFormed(v, fd, bytes);
    WriteReplacesSlice(v, fd, bytes);
    hide WriteFile, Clean, Contents, Flatten, HandlesOk, NamesOk, WellFormed;
    var slot, v' := v.fds[fd].slot, WriteFile(v, fd, bytes).0;
    SameNames(v.slots, slot, v'.slots[slot].file);
    RewriteAgrees(v, v', fd, bytes, v'.slots[slot].file);
  }

  lemma CloseAgrees(v: Volume, fd: nat)
    requires WellFormed(v) && FdOpen(v, fd)
    ensures var v' := v.(fds := v.fds[fd := Closed]);
            WellFormed(v') && Flatten(v') == Flatten(v).(handles := Flatten(v).handles[fd := Shut])
  {
    hide Files;
    var v' := v.(fds := v.fds[fd := Closed]);
    assert Handles(v'.fds, v'.slots) == Handles(v.fds, v.slots)[fd := Shut];
  }

  lemma DescriptorView(v: Volume, fd: int)
    requires WellFormed(v) && NamesOk(v.slots)
    ensures |Flatten(v).handles| == |v.fds|
    ensures 0 <= fd < |v.fds| ==> (Flatten(v).handles[fd].Shut? <==> v.fds[fd].Closed?)
    ensures FdOpen(v, fd) ==> Flatten(v).handles[fd].flags == v.fds[fd].flags
  {
    hide Files;
  }

  /** One gentle call: same reply, same resulting map. */
  lemma StepAgrees(v: Volume, op: Op)
    requires WellFormed(v) && NamesOk(v.slots) && Clean(v) && Gentle(v, op)
    ensures HandlesOk(Flatten(v))
    ensures var (v', reply) := Apply(v, op);
            && WellFormed(v') && NamesOk(v'.slots) && |v'.slots| == |v.slots|
            && (Flatten(v'), reply) == FlatApply(Flatten(v), |v.slots|, op)
  {
    hide Flatten, HandlesOk, FlatOpen, FlatMove, OpenFile, FileAfter, FreeAfter, EndAfter, NamesOk, WellFormed;
    FlattenHandlesOk(v);
    match op
    case Open(name, flags) => OpenAgrees(v, name, flags);
    case Close(fd) =>
      DescriptorView(v, fd);
      if FdOpen(v, fd) { CloseAgrees(v, fd); }
    case Seek(fd, offset) =>
      DescriptorView(v, fd);
      if FdOpen(v, fd) { MoveAgrees(v, fd, offset); }
    case Read(fd, len) =>
      DescriptorView(v, fd);
      if CanRead(v, fd) { ReadAgrees(v, fd, len); }
    case Write(fd, bytes) =>
      DescriptorView(v, fd);
      if CanWrite(v, fd) { WriteAgrees(v, fd, bytes); }
  }

  // ----- whole runs

  /** Names stay valid and different, whatever is called and whether or not it succeeds. */
  lemma ApplyKeepsNames(v: Volume, op: Op)
    requires WellFormed(v) && NamesOk(v.slots)
    ensures NamesOk(Apply(v, op).0.slots)
  {
    match op
    case Open(name, flags) => OpenAgrees(v, name, flags);
    case Write(fd, bytes) =>
      if CanWrite(v, fd) {
        WholeFile(v, fd);
        hide NamesOk, WellFormed, ImageAfter, FreeAfter, EndAfter;
        SameNames(v.slots, v.fds[fd].slot, FileAfter(v, FileOf(v, fd), v.fds[fd].offset, bytes));
      }
    case _ =>
  }

  lemma {:induction false} RunKeepsNames(v: Volume, ops: seq<Op>)
    requires WellFormed(v) && NamesOk(v.slots)
    ensures NamesOk(Run(v, ops).slots)
    decreases |ops|
  {
    if ops != [] {
      ApplyKeepsNames(v, ops[0]);
      ApplyKeepsWellFormed(v, ops[0]);
      RunKeepsNames(Apply(v, ops[0]).0, ops[1..]);
    }
  }

  /** The replies of a run, in order. */
  function Replies(v: Volume, ops: seq<Op>): seq<Reply>
    requires WellFormed(v)
    decreases |ops|
  {
    if ops == [] then []
    else
      ApplyKeepsWellFormed(v, ops[0]);
      var (v', reply) := Apply(v, ops[0]);
      [reply] + Replies(v', ops[1..])
  }

  lemma {:induction false} RepliesMore(v: Volume, ops: seq<Op>, n: nat)
    requires WellFormed(v) && n < |ops|
    ensures Replies(v, ops[..n + 1]) == Replies(v, ops[..n]) + [Apply(Run(v, ops[..n]), ops[n]).1]
    decreases n
  {
    ApplyKeepsWellFormed(v, ops[0]);
    assert ops[..n + 1][1..] == ops[1..][..n];
    if n > 0 {
      assert ops[..n][1..] == ops[1..][..n - 1];
      RepliesMore(Apply(v, ops[0]).0, ops[1..], n - 1);
    }
    hide Apply;
  }

  /** What a caller sees of a reply: of a failing call only the status. */
  function Seen(reply: Reply): Reply {
    if reply.status == Ok then reply else Fail(reply.status)
  }

  function SeenAll(replies: seq<Reply>): (seen: seq<Reply>)
    ensures |seen| == |replies| && forall i :: 0 <= i < |seen| ==> seen[i] == Seen(replies[i])
  {
    seq(|replies|, i requires 0 <= i < |replies| => Seen(replies[i]))
  }

  lemma FlatApplyKeepsHandles(f: Flat, capacity: nat, op: Op)
    requires HandlesOk(f)
    ensures HandlesOk(FlatApply(f, capacity, op).0)
  {
  }

  function FlatReplies(f: Flat, capacity: nat, ops: seq<Op>): seq<Reply>
    requires HandlesOk(f)
    decreases |ops|
  {
    if ops == [] then []
    else
      FlatApplyKeepsHandles(f, capacity, ops[0]);
      var (f', reply) := FlatApply(f, capacity, ops[0]);
      [reply] + FlatReplies(f', capacity, ops[1..])
  }

  /** Over every gentle run the volume answers exactly as the map from names to byte strings. */
  lemma {:induction false} RunAgrees(v: Volume, ops: seq<Op>)
    requires WellFormed(v) && NamesOk(v.slots) && Clean(v) && GentleRun(v, ops)
    ensures HandlesOk(Flatten(v)) && Replies(v, ops) == FlatReplies(Flatten(v), |v.slots|, ops)
    ensures NamesOk(Run(v, ops).slots) && Clean(Run(v, ops))
    decreases |ops|
  {
    FlattenHandlesOk(v);
    if ops != [] {
      StepAgrees(v, ops[0]);
      ApplyKeepsCleanIff(v, ops[0]);
      RunAgrees(Apply(v, ops[0]).0, ops[1..]);
    }
  }

  /** In particular from a formatted volume, which is the empty map. */
  lemma FormattedRunAgrees(blocks: nat, files: nat, fds: nat, ops: seq<Op>)
    requires GentleRun(Formatted(blocks, files, fds), ops)
    ensures Replies(Formatted(blocks, files, fds), ops) ==
            FlatReplies(Flat(map[], seq(fds, _ => Shut)), files, ops)
  {
    var v := Formatted(blocks, files, fds);
    RunAgrees(v, ops);
    assert Flatten(v) == Flat(map[], seq(fds, _ => Shut));
  }
}
