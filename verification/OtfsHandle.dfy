/** The file system proper: arrays updated in place, block by block. Every method is tied to the
    volume operation it carries out. */
module OtfsHandle {
  import opened Words
  import opened OtfsVolume
  import opened OtfsRuns
  import opened OtfsFlat
  import opened OtfsLayout
  import opened OtfsView
  import opened OtfsProgress
  import opened OtfsMount

  datatype Superblock = Superblock(
    magic: string, version: u32, blockSize: u32, totalBlocks: u32, dirStart: u32, dirBlocks: u32,
    fatStart: u32, fatBlocks: u32, dataStart: u32, dataBlocks: u32, maxFiles: u32)

  const FS_VERSION: u32 := 1
  const DIR_START: u32 := 1
  const DIR_BLOCKS: u32 := 4
  const FAT_BLOCKS: u32 := 2
  const DATA_START: u32 := DIR_START + DIR_BLOCKS + FAT_BLOCKS

  function Expected(blocks: nat, files: nat): Superblock
    requires blocks * BLOCK_SIZE < U32_LIMIT && files <= 256
  {
    Superblock("OTFSv1", FS_VERSION, BLOCK_SIZE, DATA_START + blocks, DIR_START, DIR_BLOCKS,
               DIR_START + DIR_BLOCKS, FAT_BLOCKS, DATA_START, blocks, files)
  }

  /** The regions of an image follow one another without gaps, and hold what belongs there: 64 bytes
      for each file and 4 for each block. */
  lemma RegionsTile(blocks: nat, files: nat)
    requires blocks <= 256 && files <= 32
    ensures var s := Expected(blocks, files);
            && s.magic == "OTFSv1" && s.version == 1 && s.blockSize == 512 && s.dirStart == 1
            && s.dirStart + s.dirBlocks == s.fatStart && s.fatStart + s.fatBlocks == s.dataStart
            && s.dataStart + s.dataBlocks == s.totalBlocks && s.dataBlocks == blocks && s.maxFiles == files
            && 64 * files <= s.dirBlocks * s.blockSize && 4 * blocks <= s.fatBlocks * s.blockSize
    ensures Expected(249, 32).totalBlocks == 256 && Expected(249, 32).dirBlocks == 4 && Expected(249, 32).fatBlocks == 2
  {
  }

  /** An entry of a handle whose memory was zeroed. */
  const CLEARED_ENTRY := Entry(false, "", 0, 0)

  /** The image file: superblock, directory and FAT regions, and the data blocks. */
  class DiskImage {
    const superblock: Superblock
    var dir: seq<Entry>
    var fat: seq<u32>
    const data: array<Block>

    constructor Format(blocks: nat, files: nat)
      requires blocks * BLOCK_SIZE < U32_LIMIT && files <= 256
      ensures superblock == Expected(blocks, files)
      ensures dir == seq(files, _ => UNUSED_ENTRY) && fat == seq(blocks, _ => FAT_FREE)
      ensures fresh(data) && data.Length == blocks && data[..] == seq(blocks, _ => Zeros(BLOCK_SIZE))
    {
      superblock := Expected(blocks, files);
      dir := seq(files, _ => UNUSED_ENTRY);
      fat := seq(blocks, _ => FAT_FREE);
      data := new Block[blocks](_ => Zeros(BLOCK_SIZE));
    }
  }

  class Otfs {
    const fat: array<u32>
    const dir: array<Entry>
    const open: array<FdEntry>
    var mounted: bool
    var image: DiskImage?
    /** Which chain each file has and which block each chain holds; only proofs look at it. */
    ghost var lay: Layout

    ghost predicate Attached()
      reads this
    {
      && mounted && image != null
      && image.data.Length == fat.Length
      && fat.Length * BLOCK_SIZE < U32_LIMIT && dir.Length <= 256
      && (fat as object) != open && (fat as object) != dir && (fat as object) != image.data
      && (dir as object) != open && (dir as object) != image.data && (open as object) != image.data
    }

    /** The real state, as one value. */
    ghost function State(): Disk
      requires Attached()
      reads this, fat, dir, open, image.data
    {
      Disk(fat[..], dir[..], open[..], image.data[..])
    }

    /** Enough for reading: what any accepted image gives. */
    ghost predicate Readable()
      reads this, fat, dir, open, if image == null then {} else {image.data}
    {
      Attached() && Threaded(State(), lay.chains)
    }

    /** What holds of every handle whose image started out formatted. */
    ghost predicate Valid()
      reads this, fat, dir, open, if image == null then {} else {image.data}
    {
      Attached() && Sound(State(), lay)
    }

    /** The volume the handle stands for. */
    ghost function Vol(): (v: Volume)
      requires Readable()
      reads this, fat, dir, open, image.data
      ensures WellFormed(v)
    {
      ThreadedWellFormed(State(), lay);
      View(State(), lay)
    }

    /** Directory and FAT on the image are those in memory. */
    ghost predicate Synced()
      requires Attached()
      reads this, fat, dir, image
    {
      image.dir == dir[..] && image.fat == fat[..]
    }

    constructor Init(blocks: nat, files: nat, fds: nat)
      ensures Cleared() && fresh(fat) && fresh(dir) && fresh(open)
      ensures fat.Length == blocks && dir.Length == files && open.Length == fds
    {
      fat := new u32[blocks](_ => 0);
      dir := new Entry[files](_ => CLEARED_ENTRY);
      open := new FdEntry[fds](_ => UNUSED_FD);
      mounted := false;
      image := null;
    }

    /** The handle as initialised: nothing mounted, all tables zero. */
    ghost predicate Cleared()
      reads this, fat, dir, open
    {
      && !mounted && image == null
      && fat[..] == seq(fat.Length, _ => 0) && dir[..] == seq(dir.Length, _ => CLEARED_ENTRY)
      && open[..] == seq(open.Length, _ => UNUSED_FD)
    }

    method Reset()
      requires (fat as object) != open && (fat as object) != dir && (dir as object) != open
      modifies this`mounted, this`image, fat, dir, open
      ensures Cleared()
    {
      mounted := false;
      image := null;
      forall b | 0 <= b < fat.Length {
        fat[b] := 0;
      }
      forall i | 0 <= i < dir.Length {
        dir[i] := CLEARED_ENTRY;
      }
      forall d | 0 <= d < open.Length {
        open[d] := UNUSED_FD;
      }
    }

    method Sync()
      requires Attached()
      modifies image`dir, image`fat
      ensures Synced()
    {
      image.dir := dir[..];
      image.fat := fat[..];
    }

    // ----- blocks and chains

    /** First fit over the FAT; the block comes back zeroed. */
    method AllocateDataBlock() returns (found: bool, index: nat)
      requires Attached()
      modifies fat, image.data
      ensures found <==> CountFree(old(fat[..])) > 0
      ensures !found ==> State() == old(State())
      ensures found ==>
                && index < fat.Length && old(fat[index]) == FAT_FREE
                && (forall j :: 0 <= j < index ==> old(fat[j]) != FAT_FREE)
                && State() == old(State()).(fat := old(fat[..])[index := FAT_END],
                                            data := old(image.data[..])[index := Zeros(BLOCK_SIZE)])
    {
      CountNone(fat[..]);
      index := 0;
      while index < fat.Length
        invariant 0 <= index <= fat.Length
        invariant forall j :: 0 <= j < index ==> fat[j] != FAT_FREE
        invariant State() == old(State())
      {
        if fat[index] == FAT_FREE {
          fat[index] := FAT_END;
          image.data[index] := Zeros(BLOCK_SIZE);
          return true, index;
        }
        index := index + 1;
      }
      found := false;
    }

    /** Free the blocks on the way from a first block. The way ends exactly when there is a chain;
        else it has freed what it visited before it left the table or came back to a freed block. */
    method ReleaseChain(first: u32) returns (status: Status, ghost c: Chain)
      requires Attached()
      modifies fat
      ensures fat[..] == FreeFat(old(fat[..]), c)
      ensures status == Ok <==> exists d :: IsChain(old(fat[..]), first, d)
      ensures status == Ok ==> IsChain(old(fat[..]), first, c)
      ensures status != Ok ==> status == ErrState && exists at :: Stuck(old(fat[..]), first, c, at)
    {
      ghost var was, stand := fat[..], first;
      var cur, seen := first, 0;
      c := [];
      while cur != FAT_END
        invariant Trail(was, first, c, stand) && (forall j, k :: 0 <= j < k < |c| ==> c[j] != c[k])
        invariant Within(c, fat.Length) && |c| <= fat.Length
        invariant cur == stand || (stand in c && cur == FAT_FREE)
        invariant seen == |c| + if cur == stand then 0 else 1
        invariant forall b :: 0 <= b < fat.Length ==> fat[b] == if b in c then FAT_FREE else was[b]
        decreases fat.Length - |c|, cur == stand
      {
        if cur >= fat.Length || seen > fat.Length {
          assert Stuck(was, first, c, stand);
          forall d ensures !IsChain(was, first, d) {
            StuckNoChain(was, first, c, stand, d);
          }
          return ErrState, c;
        }
        seen := seen + 1;
        var next := fat[cur];
        fat[cur] := FAT_FREE;
        if cur !in c {
          TrailMore(was, first, c, cur);
          DistinctFits(c + [cur], fat.Length);
          c, stand := c + [cur], next;
        }
        cur := next;
      }
      TrailEnds(was, first, c);
      return Ok, c;
    }

    /** The directory entry starts the chain. */
    lemma Start(slot: nat)
      requires Readable() && slot < dir.Length && dir[slot].used
      ensures |lay.chains| == dir.Length
      ensures dir[slot].firstBlock == FAT_END <==> lay.chains[slot] == []
      ensures lay.chains[slot] != [] ==> dir[slot].firstBlock == lay.chains[slot][0] < fat.Length
    {
      StartsAt(State(), lay.chains, slot);
    }

    /** The FAT links the chain. */
    lemma Next(slot: nat, k: nat)
      requires Readable() && slot < dir.Length && dir[slot].used && |lay.chains| == dir.Length && k < |lay.chains[slot]|
      ensures lay.chains[slot][k] < fat.Length
      ensures fat[lay.chains[slot][k]] == FAT_END <==> k + 1 == |lay.chains[slot]|
      ensures k + 1 < |lay.chains[slot]| ==> fat[lay.chains[slot][k]] == lay.chains[slot][k + 1] < fat.Length
    {
      NextIs(State(), lay.chains, slot, k);
    }

    /** Allocate a block and link it behind `last`, or from the directory entry when there is no
        block yet. */
    method ExtendChain(slot: nat, last: u32) returns (found: bool, index: nat)
      requires Valid() && Readable() && slot < dir.Length && dir[slot].used
      requires var c := lay.chains[slot]; last == if c == [] then FAT_END else c[|c| - 1]
      modifies fat, dir, image.data, this`lay
      ensures Valid() && Readable() && dir[slot].used && old(Vol()).slots[slot].Stored?
      ensures found <==> old(Vol()).free > 0
      ensures !found ==> lay == old(lay) && Vol() == old(Vol())
      ensures found ==> index < fat.Length
                        && lay.chains == old(lay.chains)[slot := old(lay.chains[slot]) + [index]]
                        && Vol() == Grow(old(Vol()), slot, 1)
    {
      ghost var s, c := State(), lay.chains[slot];
      ViewAt(s, lay, slot);
      ChainBounds(s.fat, s.dir, lay, slot);
      found, index := AllocateDataBlock();
      if !found {
        return;
      }
      HangShows(s, lay, slot, index);
      if last == FAT_END {
        dir[slot] := dir[slot].(firstBlock := index);
      } else {
        fat[last] := index;
        assert dir[..] == s.dir[slot := s.dir[slot]];
      }
      assert State() == HangDisk(s, slot, c, index);
      lay := HangLayout(lay, slot, index);
      SoundThreaded(State(), lay);
    }

    /** The volume is `v` except that one file, which had `have` blocks, has gained some. */
    ghost predicate Grown(v: Volume, slot: nat, have: nat)
      reads this, fat, dir, open, if image == null then {} else {image.data}
    {
      && Valid() && Readable() && slot < dir.Length && dir[slot].used && |lay.chains| == dir.Length
      && slot < |v.slots| && v.slots[slot].Stored?
      && 0 <= |lay.chains[slot]| - have <= v.free
      && Vol() == Grow(v, slot, |lay.chains[slot]| - have)
    }

    method ExtendGrown(slot: nat, last: u32, ghost v: Volume, ghost have: nat) returns (found: bool, index: nat)
      requires Grown(v, slot, have) && slot < dir.Length == |lay.chains|
      requires var c := lay.chains[slot]; last == if c == [] then FAT_END else c[|c| - 1]
      modifies fat, dir, image.data, this`lay
      ensures Grown(v, slot, have) && slot < dir.Length == |lay.chains|
      ensures found <==> |old(lay.chains[slot])| - have < v.free
      ensures !found ==> lay == old(lay)
      ensures found ==> index < fat.Length && lay.chains[slot] == old(lay.chains[slot]) + [index]
    {
      ghost var n := |lay.chains[slot]| - have;
      if n < v.free {
        GrowGrow(v, slot, n);
      }
      hide Valid, Readable, State, Vol, ZeroExtend;
      found, index := ExtendChain(slot, last);
    }

    /** The block at a position of a file: block resolution with allocation off. */
    method FindDataBlock(slot: nat, logical: nat) returns (status: Status, block: nat)
      requires Readable() && slot < dir.Length && dir[slot].used
      ensures status == if logical < |lay.chains[slot]| then Ok else ErrNotFound
      ensures status == Ok ==> block == lay.chains[slot][logical] < fat.Length
    {
      Start(slot);
      if dir[slot].firstBlock == FAT_END {
        return ErrNotFound, 0;
      }
      var cur := dir[slot].firstBlock;
      var step := 0;
      while step < logical
        invariant 0 <= step <= logical && step < |lay.chains[slot]|
        invariant cur == lay.chains[slot][step] < fat.Length
      {
        Next(slot, step);
        var next := fat[cur];
        if next == FAT_END {
          return ErrNotFound, 0;
        }
        cur := next;
        step := step + 1;
      }
      return Ok, cur;
    }

    /** The walk along a growing chain has reached the block at position `step`. */
    ghost predicate Walking(v: Volume, slot: nat, have: nat, step: nat, cur: u32)
      reads this, fat, dir, open, if image == null then {} else {image.data}
    {
      && Grown(v, slot, have) && step < |lay.chains[slot]|
      && (|lay.chains[slot]| == have || |lay.chains[slot]| == step + 1)
      && cur == lay.chains[slot][step] < fat.Length
    }

    /** From one block to the next, which is allocated if there is none. */
    method StepOn(slot: nat, step: nat, cur: u32, ghost v: Volume, ghost have: nat) returns (found: bool, next: u32)
      requires Walking(v, slot, have, step, cur)
      modifies fat, dir, image.data, this`lay
      ensures found ==> Walking(v, slot, have, step + 1, next)
      ensures !found ==>
                Grown(v, slot, have) && slot < dir.Length == |lay.chains|
                && |lay.chains[slot]| == have + v.free == step + 1
    {
      hide Valid, State, Vol, Grow;
      Next(slot, step);
      hide Readable;
      found, next := true, fat[cur];
      if next == FAT_END {
        var index;
        found, index := ExtendGrown(slot, cur, v, have);
        next := if found then index else FAT_END;
      }
    }

    /** What resolving a position has to leave behind. */
    ghost predicate Resolved(v: Volume, slot: nat, have: nat, logical: nat, status: Status, block: nat)
      reads this, fat, dir, open, if image == null then {} else {image.data}
    {
      && Grown(v, slot, have)
      && |lay.chains[slot]| == have + Gain(have, v.free, logical)
      && status == (if logical < |lay.chains[slot]| then Ok else ErrNoSpace)
      && (status == Ok ==> block == lay.chains[slot][logical] < fat.Length)
    }

    lemma WalkStarts(slot: nat)
      requires Valid() && Readable() && slot < dir.Length && dir[slot].used && |lay.chains| == dir.Length
      ensures Grown(Vol(), slot, |lay.chains[slot]|)
      ensures dir[slot].firstBlock == FAT_END <==> lay.chains[slot] == []
      ensures lay.chains[slot] != [] ==> Walking(Vol(), slot, |lay.chains[slot]|, 0, dir[slot].firstBlock)
    {
      ThreadedSlot(State(), lay, slot);
      GrowNone(Vol(), slot);
      Start(slot);
    }

    lemma FirstWalked(v: Volume, slot: nat, have: nat)
      requires Grown(v, slot, have) && |lay.chains| == dir.Length && slot < dir.Length && |lay.chains[slot]| == 1
      ensures Walking(v, slot, have, 0, dir[slot].firstBlock)
    {
      hide Vol, Valid;
      Start(slot);
    }

    lemma NoneResolved(v: Volume, slot: nat, logical: nat)
      requires Grown(v, slot, 0) && |lay.chains| == dir.Length && slot < dir.Length && lay.chains[slot] == []
               && v.free == 0
      ensures Resolved(v, slot, 0, logical, ErrNoSpace, 0)
    {
      hide Grown;
    }

    lemma ShortResolved(v: Volume, slot: nat, have: nat, logical: nat, step: nat)
      requires Grown(v, slot, have) && |lay.chains| == dir.Length && slot < dir.Length
      requires |lay.chains[slot]| == have + v.free == step + 1 <= logical
      ensures Resolved(v, slot, have, logical, ErrNoSpace, 0)
    {
      hide Grown;
    }

    lemma WalkResolved(v: Volume, slot: nat, have: nat, logical: nat, cur: u32)
      requires Walking(v, slot, have, logical, cur)
      ensures Resolved(v, slot, have, logical, Ok, cur)
    {
      hide Vol, Valid, Readable;
    }

    /** The block at a position of a file, growing the chain on the way: block resolution with
        allocation on. */
    method ResolveDataBlock(slot: nat, logical: nat) returns (status: Status, block: nat)
      requires Valid() && Readable() && slot < dir.Length && dir[slot].used && |lay.chains| == dir.Length
      modifies fat, dir, image.data, this`lay
      ensures Resolved(old(Vol()), slot, |old(lay.chains[slot])|, logical, status, block)
    {
      ghost var v, have := Vol(), |lay.chains[slot]|;
      WalkStarts(slot);
      hide Vol, Valid, Readable, Grown, Walking, Resolved;
      if dir[slot].firstBlock == FAT_END {
        var found, first := ExtendGrown(slot, FAT_END, v, have);
        if !found {
          NoneResolved(v, slot, logical);
          return ErrNoSpace, 0;
        }
        FirstWalked(v, slot, have);
      }
      var cur := dir[slot].firstBlock;
      var step := 0;
      while step < logical
        invariant 0 <= step <= logical && Walking(v, slot, have, step, cur)
      {
        var found, next := StepOn(slot, step, cur, v, have);
        if !found {
          ShortResolved(v, slot, have, logical, step);
          return ErrNoSpace, 0;
        }
        cur := next;
        step := step + 1;
      }
      WalkResolved(v, slot, have, step, cur);
      return Ok, cur;
    }

    // ----- reading

    ghost predicate Apart(buf: array<byte>)
      requires Attached()
      reads this
    {
      (buf as object) !in {fat as object, dir as object, open as object, image.data as object}
    }

    /** The byte of a file that lies at an offset of one of its blocks. */
    lemma ByteAt(slot: nat, k: nat, j: nat)
      requires Readable() && slot < dir.Length && dir[slot].used && |lay.chains| == dir.Length
      requires k < |lay.chains[slot]| && j < BLOCK_SIZE
      ensures Vol().slots[slot].Stored? && |Vol().slots[slot].file.image| == |lay.chains[slot]| * BLOCK_SIZE
      ensures k * BLOCK_SIZE + j < |Vol().slots[slot].file.image| && lay.chains[slot][k] < fat.Length
      ensures Vol().slots[slot].file.image[k * BLOCK_SIZE + j] == image.data[lay.chains[slot][k]][j]
    {
      ThreadedSlot(State(), lay, slot);
      assert (k * BLOCK_SIZE + j) / BLOCK_SIZE == k && (k * BLOCK_SIZE + j) % BLOCK_SIZE == j;
    }

    /** What the descriptor table says of one descriptor, and where it leads. */
    lemma Descriptor(fd: nat)
      requires Readable() && fd < open.Length
      ensures Vol().fds[fd] == FileView(open[fd]) && |Vol().fds| == open.Length && |lay.chains| == dir.Length
      ensures open[fd].inUse ==>
                && open[fd].dirIndex < dir.Length && dir[open[fd].dirIndex].used
                && var file := FileOf(Vol(), fd);
                   && file.name == dir[open[fd].dirIndex].name && file.size == dir[open[fd].dirIndex].sizeBytes
                   && |file.image| == |lay.chains[open[fd].dirIndex]| * BLOCK_SIZE
    {
      assert FileOk(open[fd], dir[..]);
      if open[fd].inUse {
        ThreadedSlot(State(), lay, open[fd].dirIndex);
      }
    }

    method SetOffset(fd: nat, offset: u32)
      requires Readable() && fd < open.Length && open[fd].inUse
      modifies open
      ensures Readable() && (old(Valid()) ==> Valid())
      ensures FdOpen(old(Vol()), fd) && Vol() == MoveTo(old(Vol()), fd, offset)
      ensures open[..] == old(open[..])[fd := old(open[fd]).(offset := offset)]
    {
      ghost var s := State();
      assert FileOk(open[fd], dir[..]);
      open[fd] := open[fd].(offset := offset);
      assert State() == s.(files := s.files[fd := open[fd]]);
      FdShows(s, lay, fd, open[fd]);
      FdThreaded(s, lay.chains, fd, open[fd]);
    }

    /** `len` bytes from an offset of a file on lie in the given block. */
    ghost predicate InBlock(slot: nat, at: nat, len: nat, block: nat)
      reads this, fat, dir, open, if image == null then {} else {image.data}
    {
      && Readable() && slot < dir.Length == |lay.chains| && dir[slot].used
      && at / BLOCK_SIZE < |lay.chains[slot]| && block == lay.chains[slot][at / BLOCK_SIZE] < fat.Length
      && at % BLOCK_SIZE + len <= BLOCK_SIZE
    }

    /** Part of a buffer holds the file's bytes from an offset on; the rest is as it was. */
    twostate predicate Filled(buf: array<byte>, done: nat, chunk: nat, image: seq<byte>, at: nat)
      reads buf
    {
      && done + chunk <= buf.Length && at + chunk <= |image|
      && (forall j :: done <= j < done + chunk ==> buf[j] == image[at + j - done])
      && (forall j :: 0 <= j < done || done + chunk <= j < buf.Length ==> buf[j] == old(buf[j]))
    }

    /** Read one block and copy part of it into the caller's buffer. */
    method CopyOut(slot: nat, at: nat, chunk: nat, block: nat, buf: array<byte>, done: nat)
      requires InBlock(slot, at, chunk, block) && Apart(buf) && done + chunk <= buf.Length
      modifies buf
      ensures Readable() && (old(Valid()) ==> Valid()) && Vol() == old(Vol()) && Vol().slots[slot].Stored?
      ensures Filled(buf, done, chunk, Vol().slots[slot].file.image, at)
    {
      var intra := at % BLOCK_SIZE;
      ByteAt(slot, at / BLOCK_SIZE, BLOCK_SIZE - 1);
      var data := image.data[block];
      forall j | 0 <= j < chunk {
        buf[done + j] := data[intra + j];
      }
      ghost var image := Vol().slots[slot].file.image;
      forall j | done <= j < done + chunk ensures buf[j] == image[at + j - done] {
        ByteAt(slot, at / BLOCK_SIZE, intra + j - done);
      }
    }

    /** One round of the read loop. */
    method ReadRound(fd: nat, buf: array<byte>, done: nat, left: nat) returns (ok: bool, chunk: nat)
      requires Readable() && Apart(buf) && fd < open.Length && open[fd].inUse
      requires 0 < left && done + left <= buf.Length && open[fd].offset + left < U32_LIMIT
      modifies buf, open
      ensures Readable() && Apart(buf) && (old(Valid()) ==> Valid()) && FdOpen(old(Vol()), fd)
      ensures var image, at := FileOf(old(Vol()), fd).image, old(open[fd].offset);
              && (!ok ==> |image| <= at / BLOCK_SIZE * BLOCK_SIZE && Vol() == old(Vol()) && unchanged(buf))
              && (ok ==>
                    && chunk == ChunkAt(at, left) && Filled(buf, done, chunk, image, at)
                    && Vol() == MoveTo(old(Vol()), fd, at + chunk)
                    && open[fd] == old(open[fd]).(offset := at + chunk))
    {
      Descriptor(fd);
      var slot, offset := open[fd].dirIndex, open[fd].offset;
      chunk := ChunkAt(offset, left);
      hide Valid, Readable, State, Vol, MoveTo, WellFormed, ChunkAt;
      var found, block := FindDataBlock(slot, offset / BLOCK_SIZE);
      ok := found == Ok;
      if ok {
        CopyOut(slot, offset, chunk, block, buf, done);
        SetOffset(fd, (offset + chunk) % U32_LIMIT);
      }
    }

    /** What a read call has to leave behind. */
    ghost predicate ReadAs(v: Volume, fd: int, len: nat, buf: array<byte>, was: seq<byte>, status: Status,
                           bytesRead: nat)
      requires WellFormed(v)
      reads this, fat, dir, open, buf, if image == null then {} else {image.data}
    {
      var (v', reply) := ReadFile(v, fd, len);
      && Readable() && Vol() == v' && status == reply.status && bytesRead == reply.count
      && |reply.bytes| <= buf.Length == |was|
      && (forall j :: 0 <= j < |reply.bytes| ==> buf[j] == reply.bytes[j])
      && (forall j :: |reply.bytes| <= j < buf.Length ==> buf[j] == was[j])
    }

    /** The state of a read after its first `done` bytes. */
    ghost predicate Reading(v: Volume, fd: nat, buf: array<byte>, was: seq<byte>, done: nat)
      reads this, fat, dir, open, buf, if image == null then {} else {image.data}
    {
      && Readable() && Apart(buf) && fd < open.Length && open[fd].inUse && |was| == buf.Length
      && FdOpen(v, fd) && Refers(v.fds[fd], v.slots)
      && var at, image := v.fds[fd].offset, FileOf(v, fd).image;
         && open[fd].offset == at + done && Vol() == MoveTo(v, fd, at + done)
         && (done == 0 || at + done <= |image|)
         && done <= buf.Length
         && (forall j :: 0 <= j < done ==> buf[j] == image[at + j])
         && (forall j :: done <= j < buf.Length ==> buf[j] == was[j])
    }

    /** One round of the read loop keeps it going. */
    method ReadOn(fd: nat, buf: array<byte>, done: nat, left: nat, ghost v: Volume, ghost was: seq<byte>)
      returns (ok: bool, chunk: nat)
      requires Reading(v, fd, buf, was, done) && FdOpen(v, fd) && Refers(v.fds[fd], v.slots)
      requires 0 < left && done + left <= buf.Length && v.fds[fd].offset + done + left < U32_LIMIT
      modifies buf, open
      ensures old(Valid()) ==> Valid()
      ensures Reading(v, fd, buf, was, if ok then done + chunk else done)
      ensures ok ==> 0 < chunk <= left
      ensures !ok ==> |FileOf(v, fd).image| <= (v.fds[fd].offset + done) / BLOCK_SIZE * BLOCK_SIZE
    {
      ghost var at := v.fds[fd].offset + done;
      MoveTwice(v, fd, at, at + ChunkAt(at, left));
      hide Valid, Readable, State, Vol, MoveTo;
      ok, chunk := ReadRound(fd, buf, done, left);
    }

    lemma ReadStarts(fd: nat, buf: array<byte>)
      requires Readable() && Apart(buf) && fd < open.Length && open[fd].inUse
      ensures FdOpen(Vol(), fd) && Vol().fds[fd].offset == open[fd].offset
      ensures Reading(Vol(), fd, buf, buf[..], 0)
    {
      Descriptor(fd);
      MoveNowhere(Vol(), fd);
    }

    lemma ReadFinished(v: Volume, fd: nat, buf: array<byte>, was: seq<byte>, len: nat, done: nat)
      requires WellFormed(v) && CanRead(v, fd) && Reading(v, fd, buf, was, done)
      requires done == Wanted(FileOf(v, fd), v.fds[fd].offset, len)
      ensures ReadAs(v, fd, len, buf, was, Ok, done)
    {
      ReadEnds(v, fd, len);
    }

    lemma ReadCutShort(v: Volume, fd: nat, buf: array<byte>, was: seq<byte>, len: nat, done: nat)
      requires WellFormed(v) && CanRead(v, fd) && Reading(v, fd, buf, was, done)
      requires done < Wanted(FileOf(v, fd), v.fds[fd].offset, len)
      requires |FileOf(v, fd).image| <= (v.fds[fd].offset + done) / BLOCK_SIZE * BLOCK_SIZE
      ensures ReadAs(v, fd, len, buf, was, ErrState, 0)
    {
      ReadStops(v, fd, len, done);
      hide ReadFile;
    }

    /** The read loop. */
    method ReadBlocks(fd: nat, buf: array<byte>, want: nat, ghost len: nat, ghost v: Volume)
      returns (status: Status, bytesRead: nat)
      requires Readable() && Apart(buf) && fd < open.Length && v == Vol() && CanRead(v, fd)
      requires want == Wanted(FileOf(v, fd), v.fds[fd].offset, len) <= buf.Length && v.fds[fd].offset + want < U32_LIMIT
      modifies buf, open
      ensures old(Valid()) ==> Valid()
      ensures ReadAs(v, fd, len, buf, old(buf[..]), status, bytesRead)
    {
      Descriptor(fd);
      ghost var was, valid := buf[..], Valid();
      ReadStarts(fd, buf);
      var done := 0;
      hide Valid, Readable, State, Vol, MoveTo, WellFormed, Wanted, Reading, ReadAs, Refers;
      while done < want
        invariant 0 <= done <= want && Reading(v, fd, buf, was, done) && (valid ==> Valid())
      {
        var ok, chunk := ReadOn(fd, buf, done, want - done, v, was);
        if !ok {
          ReadCutShort(v, fd, buf, was, len, done);
          return ErrState, 0;
        }
        done := done + chunk;
      }
      ReadFinished(v, fd, buf, was, len, done);
      return Ok, done;
    }

    method Read(fd: int, buf: array<byte>, len: nat) returns (status: Status, bytesRead: nat)
      requires mounted ==> Readable() && Apart(buf)
      requires len <= buf.Length
      modifies buf, open
      ensures !mounted ==> status == ErrState && bytesRead == 0 && unchanged(buf) && unchanged(open)
      ensures mounted && old(Valid()) ==> Valid()
      ensures mounted ==> ReadAs(old(Vol()), fd, len, buf, old(buf[..]), status, bytesRead)
    {
      bytesRead := 0;
      if !mounted {
        return ErrState, 0;
      }
      if !(0 <= fd < open.Length) {
        return ErrArg, 0;
      }
      Descriptor(fd);
      hide Valid, Readable, State, Vol, WellFormed;
      var file := open[fd];
      if !file.inUse || !file.flags.read {
        return ErrState, 0;
      }
      var slot := file.dirIndex;
      if file.offset >= dir[slot].sizeBytes || len == 0 {
        return Ok, 0;
      }
      var want := if len > dir[slot].sizeBytes - file.offset then dir[slot].sizeBytes - file.offset else len;
      status, bytesRead := ReadBlocks(fd, buf, want, len, Vol());
    }

    // ----- writing

    /** A block of a chain is a block of the file's image. */
    lemma BlockOf(slot: nat, k: nat)
      requires Readable() && slot < dir.Length && dir[slot].used && |lay.chains| == dir.Length && k < |lay.chains[slot]|
      ensures Vol().slots[slot].Stored? && lay.chains[slot][k] < fat.Length
      ensures k * BLOCK_SIZE + BLOCK_SIZE <= |Vol().slots[slot].file.image|
      ensures image.data[lay.chains[slot][k]] ==
              Vol().slots[slot].file.image[k * BLOCK_SIZE..k * BLOCK_SIZE + BLOCK_SIZE]
    {
      ByteAt(slot, k, BLOCK_SIZE - 1);
      forall j | 0 <= j < BLOCK_SIZE
        ensures image.data[lay.chains[slot][k]][j] == Vol().slots[slot].file.image[k * BLOCK_SIZE + j]
      {
        ByteAt(slot, k, j);
      }
    }

    /** Offsets that lie in a file's blocks are 32-bit numbers. */
    lemma ChainShort(slot: nat)
      requires Readable() && slot < dir.Length && dir[slot].used && |lay.chains| == dir.Length
      ensures |lay.chains[slot]| * BLOCK_SIZE < U32_LIMIT
    {
      assert EntryOk(fat[..], dir[slot], lay.chains[slot]);
      ChainWithin(fat[..], dir[slot].firstBlock, lay.chains[slot]);
    }

    lemma CopyInShows(slot: nat, at: nat, part: seq<byte>, block: nat)
      requires Valid() && InBlock(slot, at, |part|, block)
      ensures Attached() && Readable() && slot < |Vol().slots| && Vol().slots[slot].Stored? && block < fat.Length
      ensures var s := State().(data := State().data[block := Splice(State().data[block], at % BLOCK_SIZE, part)]);
              var file := Vol().slots[slot].file;
              && |lay.chains| == |s.dir| && at + |part| <= |file.image|
              && Sound(s, lay)
              && View(s, lay) == Replace(Vol(), slot, file.(image := Splice(file.image, at, part)))
    {
      BlockOf(slot, at / BLOCK_SIZE);
      PartShows(State(), lay, slot, at, part);
      hide Splice, Sound, LaidOut, Threaded, WellFormed, View;
    }

    /** Read a block, overwrite part of it, and write it back. */
    method CopyIn(slot: nat, at: nat, part: seq<byte>, block: nat)
      requires Valid() && InBlock(slot, at, |part|, block)
      modifies image.data
      ensures Valid() && Readable() && old(Vol()).slots[slot].Stored?
      ensures var file := old(Vol()).slots[slot].file;
              && at + |part| <= |file.image|
              && Vol() == Replace(old(Vol()), slot, file.(image := Splice(file.image, at, part)))
    {
      CopyInShows(slot, at, part, block);
      hide Valid, InBlock, Splice, Replace;
      var intra := at % BLOCK_SIZE;
      image.data[block] := Splice(image.data[block], intra, part);
      assert State() == old(State()).(data :=
                                      old(image.data[..])[block := Splice(old(image.data[block]), intra, part)]);
      SoundThreaded(State(), lay);
      hide Sound, Threaded, View;
    }

    static predicate Writable(v: Volume, fd: int) {
      WellFormed(v) && CanWrite(v, fd) && |FileOf(v, fd).image| % BLOCK_SIZE == 0
    }

    /** The state of a write after the first bytes `part`. */
    ghost predicate Writing(v: Volume, fd: nat, part: seq<byte>)
      reads this, fat, dir, open, if image == null then {} else {image.data}
    {
      && Valid() && Readable() && fd < open.Length && open[fd].inUse
      && Writable(v, fd)
      && HasRoom(v, FileOf(v, fd), v.fds[fd].offset, |part|)
      && Vol() == Written(v, fd, part)
    }

    /** The round of a write that starts after `done` bytes: the volume `w` it starts from, the
        file's `have` blocks there, and whether its block can be had. */
    static ghost predicate Round(v: Volume, fd: nat, bytes: seq<byte>, done: nat, chunk: nat, w: Volume, at: nat,
                                 have: nat) {
      && done < |bytes| && Writable(v, fd) && HasRoom(v, FileOf(v, fd), v.fds[fd].offset, done)
      && w == Written(v, fd, bytes[..done])
      && at == v.fds[fd].offset + done && chunk == ChunkAt(at, |bytes| - done)
      && var n := Gain(have, w.free, at / BLOCK_SIZE);
         && n == RoundGain(v, FileOf(v, fd), v.fds[fd].offset, done)
         && (at / BLOCK_SIZE < have + n <==> HasRoom(v, FileOf(v, fd), v.fds[fd].offset, done + chunk))
         && (at / BLOCK_SIZE >= have + n ==> n == w.free)
    }

    lemma RoundAt(v: Volume, fd: nat, bytes: seq<byte>, done: nat)
      requires done < |bytes| && Writing(v, fd, bytes[..done])
      ensures Valid() && Readable() && FdOpen(Vol(), fd) && Vol().fds[fd] == FileView(open[fd])
      ensures var slot, at := open[fd].dirIndex, open[fd].offset;
              && slot < dir.Length == |lay.chains| && dir[slot].used && slot == v.fds[fd].slot
              && at % BLOCK_SIZE + ChunkAt(at, |bytes| - done) <= BLOCK_SIZE
              && Round(v, fd, bytes, done, ChunkAt(at, |bytes| - done), Vol(), at, |lay.chains[slot]|)
    {
      Descriptor(fd);
      assert |bytes[..done]| == done;
      hide Valid, Readable, State, Vol, WellFormed, Rewrite, ImageAfter;
      RoundBlocks(v, FileOf(v, fd), v.fds[fd].offset, done, |bytes| - done);
    }

    /** The volume is `w` one round further. */
    ghost predicate Advanced(w: Volume, fd: nat, n: nat, part: seq<byte>)
      reads this, fat, dir, open, if image == null then {} else {image.data}
    {
      && Valid() && Readable() && fd < open.Length && open[fd].inUse
      && FdOpen(w, fd) && Refers(w.fds[fd], w.slots) && n <= w.free
      && w.fds[fd].offset + |part| <= |FileOf(w, fd).image| + n * BLOCK_SIZE
      && Vol() == Advance(w, fd, n, part)
    }

    /** A block that was found for a round takes the round's bytes. */
    lemma StoreReady(fd: nat, part: seq<byte>, block: nat, w: Volume, have: nat)
      requires fd < open.Length && open[fd].inUse && open[fd].offset % BLOCK_SIZE + |part| <= BLOCK_SIZE
      requires Resolved(w, open[fd].dirIndex, have, open[fd].offset / BLOCK_SIZE, Ok, block)
      requires FdOpen(w, fd) && w.fds[fd] == FileView(open[fd])
      ensures Valid() && Attached() && InBlock(open[fd].dirIndex, open[fd].offset, |part|, block)
      ensures open[fd].offset + |part| < U32_LIMIT
      ensures var n := Gain(have, w.free, open[fd].offset / BLOCK_SIZE);
              && Refers(w.fds[fd], w.slots) && n <= w.free
              && w.fds[fd].offset + |part| <= |FileOf(w, fd).image| + n * BLOCK_SIZE
              && Vol() == Grow(w, w.fds[fd].slot, n)
    {
      var slot := open[fd].dirIndex;
      ChainShort(slot);
      ThreadedSlot(State(), lay, slot);
    }

    /** Storing the bytes of one round in a block that was found. */
    method StoreRound(fd: nat, part: seq<byte>, block: nat, ghost w: Volume, ghost have: nat)
      requires fd < open.Length && open[fd].inUse && open[fd].offset % BLOCK_SIZE + |part| <= BLOCK_SIZE
      requires Resolved(w, open[fd].dirIndex, have, open[fd].offset / BLOCK_SIZE, Ok, block)
      requires FdOpen(w, fd) && w.fds[fd] == FileView(open[fd])
      modifies open, image.data
      ensures Advanced(w, fd, Gain(have, w.free, w.fds[fd].offset / BLOCK_SIZE), part)
    {
      hide Valid, Readable, State, Vol, WellFormed, Splice, ZeroExtend, Grow, Replace, MoveTo, Advance, Resolved,
        Grown, Gain, InBlock;
      StoreReady(fd, part, block, w, have);
      var offset := open[fd].offset;
      AdvanceSteps(w, fd, Gain(have, w.free, offset / BLOCK_SIZE), part);
      CopyIn(open[fd].dirIndex, offset, part, block);
      SetOffset(fd, (offset + |part|) % U32_LIMIT);
    }

    lemma RoundStored(v: Volume, fd: nat, bytes: seq<byte>, done: nat, chunk: nat, w: Volume, at: nat, have: nat)
      requires Round(v, fd, bytes, done, chunk, w, at, have)
               && at / BLOCK_SIZE < have + Gain(have, w.free, at / BLOCK_SIZE)
      requires 0 < chunk <= |bytes| - done
      requires Advanced(w, fd, Gain(have, w.free, at / BLOCK_SIZE), bytes[done..done + chunk])
      ensures Writing(v, fd, bytes[..done + chunk])
    {
      hide Valid, Readable, Vol, WellFormed, Written, HasRoom, ChunkAt, RoundGain, Advance, Gain;
      RoundWritten(v, fd, bytes, done, chunk);
    }

    lemma RoundStopped(v: Volume, fd: nat, bytes: seq<byte>, done: nat, chunk: nat, w: Volume, at: nat, have: nat,
                       slot: nat, block: nat)
      requires Round(v, fd, bytes, done, chunk, w, at, have) && slot == v.fds[fd].slot
      requires Resolved(w, slot, have, at / BLOCK_SIZE, ErrNoSpace, block)
      ensures Stopped(v, fd, bytes)
    {
      hide Valid, Readable, Vol, WellFormed, Written, HasRoom, ChunkAt, WriteFile, Gain;
      RoundStops(v, fd, bytes, done);
    }

    /** The write ran out of blocks. */
    ghost predicate Stopped(v: Volume, fd: nat, bytes: seq<byte>)
      reads this, fat, dir, open, if image == null then {} else {image.data}
    {
      Valid() && Readable() && WellFormed(v) && WriteFile(v, fd, bytes) == (Vol(), Fail(ErrNoSpace))
    }

    /** One round of the write loop. */
    method WriteOn(fd: nat, bytes: seq<byte>, done: nat, ghost v: Volume) returns (ok: bool, chunk: nat)
      requires done < |bytes| && Writing(v, fd, bytes[..done])
      modifies fat, dir, open, image.data, this`lay
      ensures ok ==> 0 < chunk <= |bytes| - done && Writing(v, fd, bytes[..done + chunk])
      ensures !ok ==> Stopped(v, fd, bytes)
      ensures image == old(image)
    {
      RoundAt(v, fd, bytes, done);
      assert Attached();
      hide Valid, Readable, State, Vol, WellFormed, Written, Writing, Round, Grown, Gain, Advanced, Stopped, FileView;
      var slot, offset := open[fd].dirIndex, open[fd].offset;
      chunk := ChunkAt(offset, |bytes| - done);
      hide ChunkAt;
      ghost var w, have := Vol(), |lay.chains[slot]|;
      var status, block := ResolveDataBlock(slot, offset / BLOCK_SIZE);
      ok := status == Ok;
      if ok {
        StoreRound(fd, bytes[done..done + chunk], block, w, have);
        RoundStored(v, fd, bytes, done, chunk, w, offset, have);
      } else {
        RoundStopped(v, fd, bytes, done, chunk, w, offset, have, slot, block);
      }
    }

    /** What a write call has to leave behind; whatever it recorded is on the image too. */
    ghost predicate WriteAs(v: Volume, fd: int, bytes: seq<byte>, status: Status, written: nat)
      requires WellFormed(v)
      reads this, fat, dir, open, image, if image == null then {} else {image.data}
    {
      var (v', reply) := WriteFile(v, fd, bytes);
      && Valid() && Readable() && Vol() == v' && status == reply.status && written == reply.count
      && (status == Ok ==> Synced())
    }

    lemma WriteBegins(fd: nat)
      requires Valid() && Readable() && fd < open.Length && CanWrite(Vol(), fd)
      ensures open[fd].inUse && Writing(Vol(), fd, [])
    {
      Descriptor(fd);
      WholeFile(Vol(), fd);
      WriteStarts(Vol(), fd);
    }

    /** The recorded size follows the descriptor, and the metadata goes to the image. */
    method RecordSize(fd: nat, ghost v: Volume, ghost bytes: seq<byte>)
      requires Writing(v, fd, bytes)
      modifies dir, image
      ensures WriteAs(v, fd, bytes, Ok, |bytes|)
    {
      Descriptor(fd);
      var slot := open[fd].dirIndex;
      ghost var s := State();
      SizeShows(s, lay, slot, open[fd].offset);
      SizeShows(s, lay, slot, dir[slot].sizeBytes);
      WriteEnds(v, fd, bytes);
      hide Sound, Threaded, View, WellFormed, Rewrite, ImageAfter;
      if open[fd].offset > dir[slot].sizeBytes {
        dir[slot] := dir[slot].(sizeBytes := open[fd].offset);
      } else {
        assert dir[..] == s.dir[slot := s.dir[slot].(sizeBytes := s.dir[slot].sizeBytes)];
      }
      SoundThreaded(State(), lay);
      Sync();
    }

    /** The write loop, and the size once it is through. */
    method WriteBlocks(fd: nat, bytes: seq<byte>, ghost v: Volume) returns (status: Status, written: nat)
      requires Writing(v, fd, []) && WellFormed(v)
      modifies fat, dir, open, image, image.data, this`lay
      ensures WriteAs(v, fd, bytes, status, written)
    {
      hide Writing, WellFormed, WriteAs;
      var done := 0;
      assert bytes[..0] == [];
      while done < |bytes|
        invariant 0 <= done <= |bytes| && Writing(v, fd, bytes[..done]) && image == old(image)
      {
        var ok, chunk := WriteOn(fd, bytes, done, v);
        if !ok {
          StoppedAs(v, fd, bytes);
          return ErrNoSpace, 0;
        }
        done := done + chunk;
      }
      assert bytes[..done] == bytes;
      RecordSize(fd, v, bytes);
      return Ok, done;
    }

    lemma StoppedAs(v: Volume, fd: nat, bytes: seq<byte>)
      requires Stopped(v, fd, bytes) && WellFormed(v)
      ensures WriteAs(v, fd, bytes, ErrNoSpace, 0)
    {
      hide Valid, Readable, Vol, WriteFile;
    }

    method Write(fd: int, bytes: seq<byte>) returns (status: Status, written: nat)
      requires mounted ==> Valid() && Readable()
      modifies fat, dir, open, image, if image == null then {} else {image.data}, this`lay
      ensures !mounted ==> status == ErrState && written == 0 && unchanged(this) && unchanged(fat, dir, open)
      ensures mounted ==> WriteAs(old(Vol()), fd, bytes, status, written)
    {
      written := 0;
      if !mounted {
        return ErrState, 0;
      }
      if !(0 <= fd < open.Length) {
        return ErrArg, 0;
      }
      Descriptor(fd);
      hide Valid, Readable, State, Vol, WellFormed;
      if !open[fd].inUse || !open[fd].flags.write {
        return ErrState, 0;
      }
      WriteBegins(fd);
      status, written := WriteBlocks(fd, bytes, Vol());
    }

    // ----- descriptors and directory entries

    method Seek(fd: int, offset: u32) returns (status: Status)
      requires mounted ==> Readable()
      modifies open
      ensures !mounted ==> status == ErrState && unchanged(open)
      ensures mounted && old(Valid()) ==> Valid()
      ensures mounted ==>
                && Readable()
                && Vol() == SeekFile(old(Vol()), fd, offset).0
                && status == SeekFile(old(Vol()), fd, offset).1.status
    {
      if !mounted {
        return ErrState;
      }
      if !(0 <= fd < open.Length) {
        return ErrArg;
      }
      Descriptor(fd);
      if !open[fd].inUse {
        return ErrState;
      }
      hide Valid, Readable, Vol;
      SetOffset(fd, offset);
      return Ok;
    }

    /** Rewriting one descriptor shows as one descriptor of the volume. */
    method SetFd(fd: nat, file: FdEntry)
      requires Readable() && fd < open.Length && FileOk(file, dir[..])
      modifies open
      ensures Readable() && (old(Valid()) ==> Valid())
      ensures Vol() == old(Vol()).(fds := old(Vol()).fds[fd := FileView(file)])
    {
      ghost var s := State();
      open[fd] := file;
      assert State() == s.(files := s.files[fd := file]);
      FdShows(s, lay, fd, file);
      FdThreaded(s, lay.chains, fd, file);
    }

    method Close(fd: int) returns (status: Status)
      requires mounted ==> Readable()
      modifies open
      ensures !mounted ==> status == ErrState && unchanged(open)
      ensures mounted && old(Valid()) ==> Valid()
      ensures mounted ==>
                && Readable()
                && Vol() == CloseFile(old(Vol()), fd).0
                && status == CloseFile(old(Vol()), fd).1.status
    {
      if !mounted {
        return ErrState;
      }
      if !(0 <= fd < open.Length) {
        return ErrArg;
      }
      Descriptor(fd);
      if !open[fd].inUse {
        return ErrState;
      }
      hide Valid, Readable, Vol;
      SetFd(fd, UNUSED_FD);
      return Ok;
    }

    lemma SlotAt(i: nat)
      requires Readable() && i < dir.Length
      ensures |Vol().slots| == dir.Length && (Vol().slots[i].Stored? <==> dir[i].used)
      ensures dir[i].used ==> Vol().slots[i].file.name == dir[i].name
    {
      ThreadedSlot(State(), lay, i);
    }

    /** The first used entry with this name. */
    method FindDirEntry(name: CString) returns (found: Option<nat>)
      requires Readable()
      ensures found == FindName(Vol().slots, name)
      ensures found.Some? ==> found.value < dir.Length && dir[found.value].used
    {
      ghost var slots := Vol().slots;
      var i := 0;
      while i < dir.Length
        invariant 0 <= i <= dir.Length
        invariant forall j :: 0 <= j < i ==> j < |slots| && !Named(slots[j], name)
      {
        SlotAt(i);
        if dir[i].used && dir[i].name == name {
          FirstNamed(slots, name, i);
          return Some(i);
        }
        i := i + 1;
      }
      found := None;
      if dir.Length > 0 {
        SlotAt(0);
      }
    }

    /** Take the first unused entry for an empty file. */
    method AllocDirEntry(name: CString) returns (slot: Option<nat>)
      requires Readable()
      modifies dir
      ensures Readable() && (old(Valid()) ==> Valid()) && slot == FindVacant(old(Vol()).slots)
      ensures slot.None? ==> Vol() == old(Vol())
      ensures slot.Some? ==>
                slot.value < dir.Length && dir[slot.value].used && Vol() == Create(old(Vol()), slot.value, name)
    {
      ghost var slots := Vol().slots;
      var i := 0;
      while i < dir.Length
        invariant 0 <= i <= dir.Length && Readable() && dir[..] == old(dir[..]) && Vol() == old(Vol())
        invariant old(Valid()) ==> Valid()
        invariant forall j :: 0 <= j < i ==> j < |slots| && slots[j].Stored?
      {
        SlotAt(i);
        if !dir[i].used {
          FirstVacant(slots, i);
          ghost var s := State();
          CreateShows(s, lay, i, name);
          dir[i] := Entry(true, name, FAT_END, 0);
          assert State() == s.(dir := s.dir[i := dir[i]]);
          return Some(i);
        }
        i := i + 1;
      }
      slot := None;
      if dir.Length > 0 {
        SlotAt(0);
      }
    }

    /** Give a file's blocks back and record that it is empty. */
    method TruncateEntry(slot: nat)
      requires Valid() && Readable() && slot < dir.Length && dir[slot].used
      modifies fat, dir, this`lay
      ensures Valid() && Readable() && dir[slot].used && image == old(image)
      ensures slot < |old(Vol()).slots| && old(Vol()).slots[slot].Stored? && Vol() == Truncate(old(Vol()), slot)
    {
      ghost var s, c := State(), lay.chains[slot];
      SlotAt(slot);
      Start(slot);
      FreeShows(s, lay, slot);
      assert EntryOk(fat[..], dir[slot], c);
      if dir[slot].firstBlock != FAT_END {
        ghost var visited;
        var status;
        status, visited := ReleaseChain(dir[slot].firstBlock);
        assert status == Ok;
        ChainUnique(s.fat, dir[slot].firstBlock, visited, c);
      } else {
        assert fat[..] == FreeFat(s.fat, []);
      }
      dir[slot] := dir[slot].(firstBlock := FAT_END, sizeBytes := 0);
      assert State() == FreeDisk(s, slot, c);
      lay := FreeLayout(lay, slot);
      SoundThreaded(State(), lay);
    }

    method AllocFd() returns (fd: Option<nat>)
      requires Readable()
      ensures fd == FindClosed(Vol().fds)
      ensures fd.Some? ==> fd.value < open.Length
    {
      ghost var fds := Vol().fds;
      var i := 0;
      while i < open.Length
        invariant 0 <= i <= open.Length
        invariant forall j :: 0 <= j < i ==> j < |fds| && fds[j].Opened?
      {
        Descriptor(i);
        if !open[i].inUse {
          FirstClosed(fds, i);
          return Some(i);
        }
        i := i + 1;
      }
      fd := None;
      if open.Length > 0 {
        Descriptor(0);
      }
    }

    /** What an open call has to leave behind; a file created or emptied is so on the image too. */
    ghost predicate OpenAs(v: Volume, name: CString, flags: Flags, status: Status, fd: int)
      reads this, fat, dir, open, image, if image == null then {} else {image.data}
    {
      var (v', reply) := OpenFile(v, name, flags);
      && Readable() && Vol() == v' && status == reply.status && fd == reply.fd
      && (v'.slots != v.slots ==> Synced())
    }

    /** The last step of opening a file that exists. */
    method Grab(slot: nat, flags: Flags) returns (status: Status, fd: int)
      requires Readable() && slot < dir.Length && dir[slot].used
      modifies open
      ensures Readable() && (old(Valid()) ==> Valid())
      ensures var (v, reply) := AssignFd(old(Vol()), slot, flags);
              Vol() == v && status == reply.status
              && fd == reply.fd
    {
      var free := AllocFd();
      if free.None? {
        return ErrNoSpace, -1;
      }
      assert Attached();
      hide Valid, Readable, Vol, FindClosed;
      SetFd(free.value, FdEntry(true, slot % 256, 0, flags));
      return Ok, free.value;
    }

    method OpenEntry(slot: nat, flags: Flags) returns (status: Status, fd: int)
      requires Readable() && slot < dir.Length && dir[slot].used && (flags.trunc ==> Valid())
      modifies fat, dir, open, image, this`lay
      ensures old(Valid()) ==> Valid()
      ensures Readable() && slot < |old(Vol()).slots| && old(Vol()).slots[slot].Stored?
      ensures var (v, reply) := OpenSlot(old(Vol()), slot, flags);
              Vol() == v && status == reply.status
              && fd == reply.fd
      ensures flags.trunc || old(Synced()) ==> Synced()
    {
      SlotAt(slot);
      assert Attached();
      hide Valid, Readable, Vol, Truncate, AssignFd;
      if flags.trunc {
        TruncateEntry(slot);
        Sync();
      }
      status, fd := Grab(slot, flags);
    }

    method Open(name: CString, flags: Flags) returns (status: Status, fd: int)
      requires mounted ==> Readable() && (flags.trunc ==> Valid())
      modifies fat, dir, open, image, this`lay
      ensures !mounted ==> status == ErrState && unchanged(this) && unchanged(fat, dir, open)
      ensures mounted && old(Valid()) ==> Valid()
      ensures mounted ==> OpenAs(old(Vol()), name, flags, status, fd)
      ensures mounted ==>
                (status == ErrArg <==>
                 !(&& 1 <= |name| <= 31 && '/' !in name && '\\' !in name
                   && (flags.read || flags.write) && (flags.trunc ==> flags.write)))
    {
      fd := -1;
      if !mounted {
        return ErrState, -1;
      }
      OpenRefusesIff(Vol(), name, flags);
      if !ValidName(name) {
        return ErrArg, -1;
      }
      if !flags.read && !flags.write {
        return ErrArg, -1;
      }
      if flags.trunc && !flags.write {
        return ErrArg, -1;
      }
      assert Attached();
      hide Valid, Readable, Vol, FindName, FindVacant, Create, OpenSlot, ValidName;
      var found := FindDirEntry(name);
      if found.None? {
        if !flags.create {
          return ErrNotFound, -1;
        }
        found := AllocDirEntry(name);
        if found.None? {
          return ErrNoSpace, -1;
        }
        Sync();
      }
      status, fd := OpenEntry(found.value, flags);
    }

    // ----- mounting

    /** Follow a chain as far as the data area allows. */
    method ValidateEntryChain(entry: Entry) returns (ok: bool)
      requires fat.Length * BLOCK_SIZE < U32_LIMIT
      ensures ok <==> ChainAccepted(fat[..], entry)
    {
      var required := Required(entry.sizeBytes);
      if required == 0 {
        return entry.firstBlock == FAT_END;
      }
      ghost var f, first := fat[..], entry.firstBlock;
      if entry.firstBlock == FAT_END || entry.firstBlock >= fat.Length {
        forall d | IsChain(f, first, d) ensures d == [] {
          assert d != [] ==> LinkedAt(f, d, 0);
        }
        return false;
      }
      var cur: u32 := entry.firstBlock;
      var blocks := 0;
      ghost var c: Chain := [];
      while cur != FAT_END
        invariant blocks == |c| <= fat.Length && Trail(f, first, c, cur)
        decreases fat.Length - blocks
      {
        if cur >= fat.Length {
          forall d | IsChain(f, first, d) ensures false {
            TrailAhead(f, first, c, cur, d);
            ChainWithin(f, first, d);
          }
          return false;
        }
        if blocks >= fat.Length {
          forall d | IsChain(f, first, d) ensures false {
            TrailAhead(f, first, c, cur, d);
            ChainWithin(f, first, d);
          }
          return false;
        }
        TrailMore(f, first, c, cur);
        blocks := blocks + 1;
        c := c + [cur];
        cur := fat[cur];
      }
      TrailEnds(f, first, c);
      forall d | IsChain(f, first, d) ensures d == c {
        ChainUnique(f, first, c, d);
      }
      ok := blocks >= required;
    }

    method ValidateMetadata() returns (ok: bool)
      requires fat.Length * BLOCK_SIZE < U32_LIMIT
      ensures ok <==> MetadataAccepted(fat[..], dir[..])
    {
      var i := 0;
      while i < fat.Length
        invariant 0 <= i <= fat.Length
        invariant forall b :: 0 <= b < i ==> WordAccepted(fat[..], fat[..][b])
      {
        var next := fat[i];
        if next != FAT_FREE && next != FAT_END && next >= fat.Length {
          assert !WordAccepted(fat[..], fat[..][i]);
          return false;
        }
        i := i + 1;
      }
      hide ChainAccepted;
      i := 0;
      while i < dir.Length
        invariant 0 <= i <= dir.Length
        invariant forall k :: 0 <= k < i && dir[k].used ==> ValidName(dir[k].name) && ChainAccepted(fat[..], dir[k])
      {
        if dir[i].used {
          if !ValidName(dir[i].name) {
            return false;
          }
          var fine := ValidateEntryChain(dir[i]);
          if !fine {
            return false;
          }
        }
        i := i + 1;
      }
      ok := NamesDiffer();
    }

    method NamesDiffer() returns (ok: bool)
      ensures ok <==> forall i, j :: 0 <= i < j < dir.Length && dir[i].used && dir[j].used ==>
                dir[i].name != dir[j].name
    {
      var i := 0;
      while i < dir.Length
        invariant 0 <= i <= dir.Length
        invariant forall k, j :: 0 <= k < i && k < j < dir.Length && dir[k].used && dir[j].used ==>
                    dir[k].name != dir[j].name
      {
        if dir[i].used {
          var j := i + 1;
          while j < dir.Length
            invariant i < j <= dir.Length
            invariant forall k :: i < k < j && dir[k].used ==> dir[i].name != dir[k].name
          {
            if dir[j].used && dir[i].name == dir[j].name {
              return false;
            }
            j := j + 1;
          }
        }
        i := i + 1;
      }
      ok := true;
    }

    /** Mount accepts exactly the images whose superblock is the expected one and whose metadata
        passes the checks. It then has what reading needs; it has everything exactly when the chains
        are consistent, which the checks do not look at. */
    method Mount(img: DiskImage) returns (status: Status)
      requires img.data.Length == fat.Length == |img.fat| && |img.dir| == dir.Length <= 256
      requires fat.Length * BLOCK_SIZE < U32_LIMIT
      requires (fat as object) !in {open as object, dir as object, img.data as object}
      requires (dir as object) !in {open as object, img.data as object} && (open as object) != img.data
      modifies this, fat, dir, open
      ensures status == Ok <==>
              img.superblock == Expected(fat.Length, dir.Length) && MetadataAccepted(img.fat, img.dir)
      ensures status != Ok ==> status == ErrState && !mounted
      ensures status == Ok ==>
                && image == img && Readable() && Synced()
                && State() == Disk(img.fat, img.dir, seq(open.Length, _ => UNUSED_FD), img.data[..])
                && (Valid() <==> Consistent(State().fat, lay.chains))
    {
      Reset();
      if img.superblock != Expected(fat.Length, dir.Length) {
        return ErrState;
      }
      forall i | 0 <= i < dir.Length {
        dir[i] := img.dir[i];
      }
      forall b | 0 <= b < fat.Length {
        fat[b] := img.fat[b];
      }
      assert fat[..] == img.fat && dir[..] == img.dir && open[..] == seq(open.Length, _ => UNUSED_FD);
      var ok := ValidateMetadata();
      if !ok {
        return ErrState;
      }
      image := img;
      mounted := true;
      ghost var s := Disk(fat[..], dir[..], open[..], img.data[..]);
      AcceptedThreaded(s);
      lay := Layout(ChainsOf(s.fat, s.dir), OwnersOf(ChainsOf(s.fat, s.dir), fat.Length));
      if Consistent(s.fat, lay.chains) {
        ConsistentSound(s, lay.chains);
      }
      if Sound(s, lay) {
        SoundConsistent(s, lay);
      }
      return Ok;
    }

    method Unmount() returns (status: Status)
      requires mounted ==> Attached()
      modifies this, fat, dir, open, if mounted then {image} else {}
      ensures old(mounted) <==> status == Ok
      ensures status != Ok ==> status == ErrState && unchanged(this) && unchanged(fat, dir, open)
      ensures status == Ok ==> Cleared() && old(image).dir == old(dir[..]) && old(image).fat == old(fat[..])
    {
      if !mounted {
        return ErrState;
      }
      Sync();
      Reset();
      return Ok;
    }

    /** Unmounting a volume and mounting its image again succeeds exactly when mount accepts its
        files, and then changes nothing but that all descriptors are closed. */
    method Remount() returns (status: Status)
      requires mounted && Valid() && Readable()
      requires image.superblock == Expected(fat.Length, dir.Length)
      modifies this, fat, dir, open, image
      ensures status == Ok <==> SlotsAccepted(old(Vol()).slots)
      ensures status != Ok ==> status == ErrState && !mounted
      ensures status == Ok ==>
                && Valid() && Readable()
                && Vol() == Volume(old(Vol()).slots, old(Vol()).free, seq(open.Length, _ => Closed))
    {
      var img := image;
      ghost var s, l := State(), lay;
      RemountIff(s, l);
      status := Unmount();
      status := Mount(img);
      if status == Ok {
        ghost var m := Disk(s.fat, s.dir, seq(open.Length, _ => UNUSED_FD), s.data);
        assert State() == m && Sound(m, l);
        RemountIdentity(s, l, m, lay);
        ChainsUnique(m, l, lay);
        SoundConsistent(m, l);
      }
    }
  }

  // ----- whole runs

  /** Format an image and mount it: a valid handle on the empty volume. */
  method FormatAndMount(blocks: nat, files: nat, fds: nat) returns (fs: Otfs, status: Status)
    requires blocks * BLOCK_SIZE < U32_LIMIT && files <= 256
    ensures status == Ok && fs.Valid() && fs.Readable() && fs.Vol() == Formatted(blocks, files, fds)
    ensures fresh(fs) && fresh(fs.fat) && fresh(fs.dir) && fresh(fs.open) && fresh(fs.image) && fresh(fs.image.data)
  {
    var img := new DiskImage.Format(blocks, files);
    fs := new Otfs.Init(blocks, files, fds);
    FormattedMounts(blocks, files, fds);
    status := fs.Mount(img);
    ghost var lay := Layout(seq(files, _ => []), seq(blocks, _ => Nobody));
    assert fs.State() == Disk(seq(blocks, _ => FAT_FREE), seq(files, _ => UNUSED_ENTRY), seq(fds, _ => UNUSED_FD),
                              seq(blocks, _ => Zeros(BLOCK_SIZE)));
    assert Sound(fs.State(), lay);
    ChainsUnique(fs.State(), lay, fs.lay);
    SoundConsistent(fs.State(), lay);
  }

  method PerformRead(fs: Otfs, fd: int, len: nat) returns (reply: Reply)
    requires fs.Valid() && fs.Readable()
    modifies fs.open
    ensures fs.Valid() && fs.Readable()
    ensures fs.Vol() == ReadFile(old(fs.Vol()), fd, len).0 && reply == Seen(ReadFile(old(fs.Vol()), fd, len).1)
  {
    assert fs.Attached();
    hide Otfs.Valid, Otfs.Readable, Otfs.Vol, WellFormed;
    var buf := new byte[len](_ => 0);
    ghost var answer := ReadFile(fs.Vol(), fd, len).1;
    ReadCounts(fs.Vol(), fd, len);
    var status, count := fs.Read(fd, buf, len);
    hide ReadFile;
    if status != Ok {
      return Fail(status);
    }
    assert buf[..count] == answer.bytes;
    return Reply(Ok, -1, count, buf[..count]);
  }

  lemma ReadCounts(v: Volume, fd: int, len: nat)
    requires WellFormed(v)
    ensures var reply := ReadFile(v, fd, len).1; reply.fd == -1 && (reply.status == Ok ==> reply.count == |reply.bytes|)
  {
  }

  lemma RepliesAre(v: Volume, op: Op)
    requires WellFormed(v)
    ensures var reply := Apply(v, op).1;
            && (reply.status != Ok ==> op.Read? || reply == Fail(reply.status))
            && (reply.status == Ok && !op.Read? ==> reply.bytes == [])
            && (reply.status == Ok && !op.Open? ==> reply.fd == -1)
            && (!op.Read? && !op.Write? ==> reply.count == 0)
  {
  }

  /** One call on a handle, with its reply as a value. */
  method Perform(fs: Otfs, op: Op) returns (reply: Reply)
    requires fs.Valid() && fs.Readable()
    modifies fs.fat, fs.dir, fs.open, fs.image, fs.image.data, fs`lay
    ensures fs.Valid() && fs.Readable()
    ensures fs.Vol() == Apply(old(fs.Vol()), op).0 && reply == Seen(Apply(old(fs.Vol()), op).1)
  {
    assert fs.Attached();
    hide Otfs.Valid, Otfs.Readable, Otfs.Vol, WellFormed, OpenFile, CloseFile, SeekFile, ReadFile, WriteFile;
    RepliesAre(fs.Vol(), op);
    match op
    case Open(name, flags) =>
      var status, fd := fs.Open(name, flags);
      return Reply(status, fd, 0, []);
    case Close(fd) =>
      var status := fs.Close(fd);
      return Reply(status, -1, 0, []);
    case Seek(fd, offset) =>
      var status := fs.Seek(fd, offset);
      return Reply(status, -1, 0, []);
    case Read(fd, len) =>
      reply := PerformRead(fs, fd, len);
    case Write(fd, bytes) =>
      var status, count := fs.Write(fd, bytes);
      return Reply(status, -1, count, []);
  }

  /** Calls one after another are a run of the volume, reply by reply. */
  method Play(fs: Otfs, ops: seq<Op>) returns (replies: seq<Reply>)
    requires fs.Valid() && fs.Readable()
    modifies fs.fat, fs.dir, fs.open, fs.image, fs.image.data, fs`lay
    ensures fs.Valid() && fs.Readable()
    ensures fs.Vol() == Run(old(fs.Vol()), ops) && replies == SeenAll(Replies(old(fs.Vol()), ops))
  {
    ghost var v := fs.Vol();
    hide Otfs.Valid, Otfs.Readable, Otfs.Vol, WellFormed, Apply;
    replies := [];
    var i := 0;
    while i < |ops|
      invariant 0 <= i <= |ops| && fs.Valid() && fs.Readable()
      invariant fs.Vol() == Run(v, ops[..i]) && replies == SeenAll(Replies(v, ops[..i]))
    {
      RunMore(v, ops, i);
      RepliesMore(v, ops, i);
      var reply := Perform(fs, ops[i]);
      replies := replies + [reply];
      i := i + 1;
    }
    assert ops[..i] == ops;
  }

  /** From a formatted image on: every run of calls on the arrays is the run of the volume; if it is
      gentle its replies are those of the map from names to byte strings, and what it leaves is
      accepted again exactly when each of its files is. */
  method FormatAndPlay(blocks: nat, files: nat, fds: nat, ops: seq<Op>) returns (fs: Otfs, replies: seq<Reply>)
    requires blocks * BLOCK_SIZE < U32_LIMIT && files <= 256
    ensures fresh(fs) && fs.Valid() && fs.Readable() && fs.Vol() == Run(Formatted(blocks, files, fds), ops)
    ensures replies == SeenAll(Replies(Formatted(blocks, files, fds), ops))
    ensures GentleRun(Formatted(blocks, files, fds), ops) ==>
              replies == SeenAll(FlatReplies(Flat(map[], seq(fds, _ => Shut)), files, ops))
    ensures MetadataAccepted(fs.fat[..], fs.dir[..]) <==>
            forall i :: 0 <= i < |fs.Vol().slots| && fs.Vol().slots[i].Stored? ==> SlotAccepted(fs.Vol().slots[i])
  {
    var status;
    fs, status := FormatAndMount(blocks, files, fds);
    replies := Play(fs, ops);
    RunRemountsIff(fs.State(), fs.lay, blocks, files, fds, ops);
    if GentleRun(Formatted(blocks, files, fds), ops) {
      FormattedRunAgrees(blocks, files, fds, ops);
    }
  }

  /** Bytes put into a block of a chain show as the same bytes put into the file's image. */
  lemma PartShows(s: Disk, lay: Layout, slot: nat, at: nat, part: seq<byte>)
    requires Sound(s, lay) && slot < |s.dir| && s.dir[slot].used
    requires at / BLOCK_SIZE < |lay.chains[slot]| && at % BLOCK_SIZE + |part| <= BLOCK_SIZE
    ensures var block := lay.chains[slot][at / BLOCK_SIZE];
            && block < |s.data| && View(s, lay).slots[slot].Stored?
            && var s' := s.(data := s.data[block := Splice(s.data[block], at % BLOCK_SIZE, part)]);
               var file := View(s, lay).slots[slot].file;
               && at + |part| <= |file.image| && Sound(s', lay)
               && View(s', lay) == Replace(View(s, lay), slot, file.(image := Splice(file.image, at, part)))
  {
    ViewAt(s, lay, slot);
    var k := at / BLOCK_SIZE;
    var block, image := lay.chains[slot][k], View(s, lay).slots[slot].file.image;
    var whole := Splice(s.data[block], at % BLOCK_SIZE, part);
    assert s.data[block] == image[k * BLOCK_SIZE..k * BLOCK_SIZE + BLOCK_SIZE];
    BlockShows(s, lay, slot, k, whole);
    hide Splice, Sound, LaidOut, View, Image;
    SpliceInBlock(image, k * BLOCK_SIZE, at % BLOCK_SIZE, part);
  }

  lemma FirstNamed(slots: seq<Slot>, name: CString, i: nat)
    requires i < |slots| && Named(slots[i], name) && forall j :: 0 <= j < i ==> !Named(slots[j], name)
    ensures FindName(slots, name) == Some(i)
  {
  }

  lemma FirstVacant(slots: seq<Slot>, i: nat)
    requires i < |slots| && slots[i].Vacant? && forall j :: 0 <= j < i ==> slots[j].Stored?
    ensures FindVacant(slots) == Some(i)
  {
  }

  lemma FirstClosed(fds: seq<Descriptor>, i: nat)
    requires i < |fds| && fds[i].Closed? && forall j :: 0 <= j < i ==> fds[j].Opened?
    ensures FindClosed(fds) == Some(i)
  {
  }
}
