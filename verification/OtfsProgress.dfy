/** Block-by-block transfers, seen on the volume: what a write or a read has done after its first
    `done` bytes, and how one more block, or running out of blocks, continues it. */
module OtfsProgress {
  import opened Words
  import opened OtfsVolume
  import opened OtfsView

  /** The bytes of one round: up to the end of the block the offset lies in. */
  function ChunkAt(offset: nat, left: nat): (chunk: nat)
    ensures left > 0 ==> 0 < chunk <= left
    ensures offset % BLOCK_SIZE + chunk <= BLOCK_SIZE
  {
    Min(BLOCK_SIZE - offset % BLOCK_SIZE, left)
  }

  /** How many blocks a file of `have` blocks must gain for block `logical` to exist, as far as
      `free` blocks allow. */
  function Gain(have: nat, free: nat, logical: nat): nat {
    Min(free, Max(0, logical + 1 - have))
  }

  /** The blocks the round that starts after `done` bytes makes the file gain. */
  function RoundGain(v: Volume, file: File, offset: nat, done: nat): nat {
    Gain(BlocksAfter(v, file, offset, done), FreeAfter(v, file, offset, done), (offset + done) / BLOCK_SIZE)
  }

  // ----- writing

  /** The volume after a prefix of the bytes was written, before any size is recorded. */
  function Written(v: Volume, fd: int, part: seq<byte>): (w: Volume)
    requires WellFormed(v) && FdOpen(v, fd) && |FileOf(v, fd).image| % BLOCK_SIZE == 0
    ensures FdOpen(w, fd) && Refers(w.fds[fd], w.slots)
    ensures w.fds[fd] == v.fds[fd].(offset := v.fds[fd].offset + |part|)
    ensures FileOf(w, fd) == FileOf(v, fd).(image := ImageAfter(v, FileOf(v, fd), v.fds[fd].offset, part))
    ensures w.free == FreeAfter(v, FileOf(v, fd), v.fds[fd].offset, |part|)
  {
    assert Refers(v.fds[fd], v.slots);
    var file, offset := FileOf(v, fd), v.fds[fd].offset;
    Rewrite(v, fd, file.(image := ImageAfter(v, file, offset, part)), FreeAfter(v, file, offset, |part|),
            offset + |part|)
  }

  lemma WriteStarts(v: Volume, fd: int)
    requires WellFormed(v) && FdOpen(v, fd) && |FileOf(v, fd).image| % BLOCK_SIZE == 0
    ensures Written(v, fd, []) == v
  {
    var file := FileOf(v, fd);
    assert ImageAfter(v, file, v.fds[fd].offset, []) == file.image;
    assert v.slots[v.fds[fd].slot := Stored(file)] == v.slots;
    assert v.fds[fd := v.fds[fd]] == v.fds;
  }

  /** The next block can be had exactly when the bytes up to the end of the round have room. */
  lemma RoundBlocks(v: Volume, file: File, offset: nat, done: nat, left: nat)
    requires left > 0 && HasRoom(v, file, offset, done)
    ensures var chunk, n := ChunkAt(offset + done, left), RoundGain(v, file, offset, done);
            var have, have' := BlocksAfter(v, file, offset, done), BlocksAfter(v, file, offset, done + chunk);
            && have' == have + n
            && n <= FreeAfter(v, file, offset, done)
            && FreeAfter(v, file, offset, done + chunk) == FreeAfter(v, file, offset, done) - n
            && (HasRoom(v, file, offset, done + chunk) <==> (offset + done) / BLOCK_SIZE < have')
            && (HasRoom(v, file, offset, done + chunk) ==> offset + done + chunk <= have' * BLOCK_SIZE)
            && (!HasRoom(v, file, offset, done + chunk) ==> n == FreeAfter(v, file, offset, done))
  {
    var chunk := ChunkAt(offset + done, left);
    assert BlocksFor(offset + done + chunk) == (offset + done) / BLOCK_SIZE + 1;
  }

  /** Splicing two pieces one after the other is splicing them together. */
  lemma SpliceTwice(image: seq<byte>, n: nat, n': nat, at: nat, b1: seq<byte>, b2: seq<byte>)
    requires |image| <= n <= n' && at + |b1| + |b2| <= n'
    requires b1 == [] || at + |b1| <= n
    ensures Splice(ZeroExtend(image, n'), at, b1 + b2) ==
            Splice(ZeroExtend(Splice(ZeroExtend(image, n), Min(at, n), b1), n'), at + |b1|, b2)
  {
    var once, twice := Splice(ZeroExtend(image, n'), at, b1 + b2),
                       Splice(ZeroExtend(Splice(ZeroExtend(image, n), Min(at, n), b1), n'), at + |b1|, b2);
    hide Splice, ZeroExtend;
    forall p | 0 <= p < n' ensures once[p] == twice[p] {
    }
  }

  lemma RoomBounds(v: Volume, file: File, offset: nat, len: nat)
    requires |file.image| % BLOCK_SIZE == 0 && HasRoom(v, file, offset, len)
    ensures var blocks := BlocksAfter(v, file, offset, len);
            && |file.image| <= blocks * BLOCK_SIZE
            && Landed(blocks, offset, len) == len
            && (len == 0 || offset + len <= blocks * BLOCK_SIZE)
  {
  }

  /** With room, all of `part` lands. */
  lemma ImageWithRoom(v: Volume, file: File, offset: nat, part: seq<byte>)
    requires |file.image| % BLOCK_SIZE == 0 && HasRoom(v, file, offset, |part|)
    ensures var n := BlocksAfter(v, file, offset, |part|) * BLOCK_SIZE;
            && |file.image| <= n && (part == [] || offset + |part| <= n)
            && Min(offset, n) + |part| <= n
            && ImageAfter(v, file, offset, part) == Splice(ZeroExtend(file.image, n), Min(offset, n), part)
  {
    RoomBounds(v, file, offset, |part|);
    hide BlocksAfter, BlocksFor, HasRoom;
    assert part[..|part|] == part;
  }

  lemma RoundImage(v: Volume, file: File, offset: nat, b1: seq<byte>, b2: seq<byte>, n: nat)
    requires |file.image| % BLOCK_SIZE == 0 && b2 != []
    requires HasRoom(v, file, offset, |b1|) && HasRoom(v, file, offset, |b1| + |b2|)
    requires BlocksAfter(v, file, offset, |b1| + |b2|) == BlocksAfter(v, file, offset, |b1|) + n
    ensures var image := ImageAfter(v, file, offset, b1);
            && offset + |b1| + |b2| <= |image| + n * BLOCK_SIZE
            && ImageAfter(v, file, offset, b1 + b2) ==
                 Splice(ZeroExtend(image, |image| + n * BLOCK_SIZE), offset + |b1|, b2)
  {
    var blocks, blocks' := BlocksAfter(v, file, offset, |b1|), BlocksAfter(v, file, offset, |b1| + |b2|);
    assert |b1 + b2| == |b1| + |b2|;
    hide BlocksAfter, HasRoom, Splice, ZeroExtend, ImageAfter;
    ImageWithRoom(v, file, offset, b1);
    ImageWithRoom(v, file, offset, b1 + b2);
    SpliceTwice(file.image, blocks * BLOCK_SIZE, blocks' * BLOCK_SIZE, offset, b1, b2);
  }

  /** One round on the volume: the file behind the descriptor gains `n` blocks, `part` is spliced
      in at the descriptor, and the descriptor moves past it. */
  function Advance(w: Volume, fd: int, n: nat, part: seq<byte>): Volume
    requires FdOpen(w, fd) && Refers(w.fds[fd], w.slots) && n <= w.free
    requires w.fds[fd].offset + |part| <= |w.slots[w.fds[fd].slot].file.image| + n * BLOCK_SIZE
  {
    var slot, at := w.fds[fd].slot, w.fds[fd].offset;
    var file := w.slots[slot].file;
    var image := Splice(ZeroExtend(file.image, |file.image| + n * BLOCK_SIZE), at, part);
    MoveTo(Replace(Grow(w, slot, n), slot, file.(image := image)), fd, at + |part|)
  }

  lemma AdvanceSteps(w: Volume, fd: int, n: nat, part: seq<byte>)
    requires FdOpen(w, fd) && Refers(w.fds[fd], w.slots) && n <= w.free
    requires w.fds[fd].offset + |part| <= |FileOf(w, fd).image| + n * BLOCK_SIZE
    ensures var slot, at := w.fds[fd].slot, w.fds[fd].offset;
            var g := Grow(w, slot, n);
            && slot < |g.slots| && g.slots[slot].Stored? && at + |part| <= |g.slots[slot].file.image|
            && var file := g.slots[slot].file;
               var r := Replace(g, slot, file.(image := Splice(file.image, at, part)));
               FdOpen(r, fd) && MoveTo(r, fd, at + |part|) == Advance(w, fd, n, part)
  {
    hide Splice, ZeroExtend;
  }

  /** `b2` can follow `b1` once the file has gained `n` blocks. */
  ghost predicate Follows(v: Volume, file: File, offset: nat, b1: seq<byte>, b2: seq<byte>, n: nat)
    requires |file.image| % BLOCK_SIZE == 0
  {
    var image := ImageAfter(v, file, offset, b1);
    && n <= FreeAfter(v, file, offset, |b1|)
    && FreeAfter(v, file, offset, |b1| + |b2|) == FreeAfter(v, file, offset, |b1|) - n
    && offset + |b1| + |b2| <= |image| + n * BLOCK_SIZE
    && ImageAfter(v, file, offset, b1 + b2) == Splice(ZeroExtend(image, |image| + n * BLOCK_SIZE), offset + |b1|, b2)
  }

  /** One more round of a write, on the file. */
  lemma WriteContinues(v: Volume, file: File, offset: nat, b1: seq<byte>, b2: seq<byte>, left: nat)
    requires |file.image| % BLOCK_SIZE == 0 && left > 0 && |b2| == ChunkAt(offset + |b1|, left)
    requires HasRoom(v, file, offset, |b1|) && HasRoom(v, file, offset, |b1| + |b2|)
    ensures Follows(v, file, offset, b1, b2, RoundGain(v, file, offset, |b1|))
  {
    hide BlocksAfter, FreeAfter, HasRoom, ImageAfter, Splice, ZeroExtend, ChunkAt, RoundGain;
    RoundBlocks(v, file, offset, |b1|, left);
    RoundImage(v, file, offset, b1, b2, RoundGain(v, file, offset, |b1|));
  }

  /** One more round of a write, on the volume. */
  lemma WrittenAdvances(v: Volume, fd: int, b1: seq<byte>, b2: seq<byte>, n: nat)
    requires WellFormed(v) && FdOpen(v, fd) && |FileOf(v, fd).image| % BLOCK_SIZE == 0
    requires Follows(v, FileOf(v, fd), v.fds[fd].offset, b1, b2, n)
    ensures var w := Written(v, fd, b1);
            && n <= w.free && w.fds[fd].offset + |b2| <= |FileOf(w, fd).image| + n * BLOCK_SIZE
            && Written(v, fd, b1 + b2) == Advance(w, fd, n, b2)
  {
    assert Refers(v.fds[fd], v.slots);
    assert |b1 + b2| == |b1| + |b2|;
    hide WellFormed, Splice, ZeroExtend, ImageAfter, FreeAfter;
    var w, w' := Written(v, fd, b1), Written(v, fd, b1 + b2);
    assert w'.slots == Advance(w, fd, n, b2).slots;
    assert w'.fds == Advance(w, fd, n, b2).fds;
  }

  /** The two lemmas above, for the bytes of one round of a longer write. */
  lemma RoundWritten(v: Volume, fd: int, bytes: seq<byte>, done: nat, chunk: nat)
    requires WellFormed(v) && FdOpen(v, fd) && |FileOf(v, fd).image| % BLOCK_SIZE == 0 && done < |bytes|
    requires chunk == ChunkAt(v.fds[fd].offset + done, |bytes| - done)
    requires HasRoom(v, FileOf(v, fd), v.fds[fd].offset, done)
             && HasRoom(v, FileOf(v, fd), v.fds[fd].offset, done + chunk)
    ensures var b1, b2 := bytes[..done], bytes[done..done + chunk];
            var n, w := RoundGain(v, FileOf(v, fd), v.fds[fd].offset, done), Written(v, fd, b1);
            && n <= w.free && w.fds[fd].offset + |b2| <= |FileOf(w, fd).image| + n * BLOCK_SIZE
            && Written(v, fd, bytes[..done + chunk]) == Advance(w, fd, n, b2)
  {
    var b1, b2 := bytes[..done], bytes[done..done + chunk];
    assert b1 + b2 == bytes[..done + chunk];
    hide *;
    WriteContinues(v, FileOf(v, fd), v.fds[fd].offset, b1, b2, |bytes| - done);
    WrittenAdvances(v, fd, b1, b2, RoundGain(v, FileOf(v, fd), v.fds[fd].offset, done));
  }

  lemma StoppedImage(v: Volume, file: File, offset: nat, b1: seq<byte>, b2: seq<byte>)
    requires |file.image| % BLOCK_SIZE == 0 && HasRoom(v, file, offset, |b1|)
    requires BlocksAfter(v, file, offset, |b1 + b2|) == Reach(v, file)
    requires Landed(Reach(v, file), offset, |b1 + b2|) == |b1|
    ensures BlocksAfter(v, file, offset, |b1|) <= Reach(v, file)
    ensures ImageAfter(v, file, offset, b1 + b2) ==
            ZeroExtend(ImageAfter(v, file, offset, b1), Reach(v, file) * BLOCK_SIZE)
  {
    var blocks, reach := BlocksAfter(v, file, offset, |b1|), Reach(v, file);
    RoomBounds(v, file, offset, |b1|);
    assert b1[..|b1|] == b1 && (b1 + b2)[..|b1|] == b1;
    hide BlocksAfter, BlocksFor, Landed, HasRoom;
  }

  /** When the next block cannot be had, the file has swallowed every free block and the call has
      done exactly what a write without room does. */
  lemma WriteStops(v: Volume, fd: int, b1: seq<byte>, b2: seq<byte>)
    requires WellFormed(v) && CanWrite(v, fd) && |FileOf(v, fd).image| % BLOCK_SIZE == 0 && b2 != []
    requires HasRoom(v, FileOf(v, fd), v.fds[fd].offset, |b1|)
    requires !HasRoom(v, FileOf(v, fd), v.fds[fd].offset, |b1| + ChunkAt(v.fds[fd].offset + |b1|, |b2|))
    ensures var slot, w := v.fds[fd].slot, Written(v, fd, b1);
            && slot < |w.slots| && w.slots[slot].Stored?
            && WriteFile(v, fd, b1 + b2) == (Grow(w, slot, w.free), Fail(ErrNoSpace))
  {
    var file, offset := FileOf(v, fd), v.fds[fd].offset;
    var reach, chunk := Reach(v, file), ChunkAt(offset + |b1|, |b2|);
    RoundBlocks(v, file, offset, |b1|, |b2|);
    assert BlocksFor(offset + |b1| + chunk) <= BlocksFor(offset + |b1 + b2|);
    assert BlocksAfter(v, file, offset, |b1 + b2|) == reach && !HasRoom(v, file, offset, |b1 + b2|);
    assert Landed(reach, offset, |b1 + b2|) == |b1|;
    StoppedImage(v, file, offset, b1, b2);
    var w := Written(v, fd, b1);
    assert w.free == reach - BlocksAfter(v, file, offset, |b1|);
    hide WellFormed, BlocksFor, ChunkAt, HasRoom, Landed, ZeroExtend;
    StoppedRewrites(v, fd, b1, b2);
  }

  lemma RoundStops(v: Volume, fd: int, bytes: seq<byte>, done: nat)
    requires WellFormed(v) && CanWrite(v, fd) && |FileOf(v, fd).image| % BLOCK_SIZE == 0 && done < |bytes|
    requires HasRoom(v, FileOf(v, fd), v.fds[fd].offset, done)
    requires !HasRoom(v, FileOf(v, fd), v.fds[fd].offset, done + ChunkAt(v.fds[fd].offset + done, |bytes| - done))
    ensures var slot, w := v.fds[fd].slot, Written(v, fd, bytes[..done]);
            && slot < |w.slots| && w.slots[slot].Stored?
            && WriteFile(v, fd, bytes) == (Grow(w, slot, w.free), Fail(ErrNoSpace))
  {
    var b1, b2 := bytes[..done], bytes[done..];
    assert b1 + b2 == bytes && |b1| == done && |b2| == |bytes| - done;
    hide *;
    WriteStops(v, fd, b1, b2);
  }

  lemma StoppedRewrites(v: Volume, fd: int, b1: seq<byte>, b2: seq<byte>)
    requires WellFormed(v) && CanWrite(v, fd) && |FileOf(v, fd).image| % BLOCK_SIZE == 0
    requires var file, offset, reach := FileOf(v, fd), v.fds[fd].offset, Reach(v, FileOf(v, fd));
             && !HasRoom(v, file, offset, |b1 + b2|)
             && BlocksAfter(v, file, offset, |b1|) <= BlocksAfter(v, file, offset, |b1 + b2|) == reach
             && Landed(reach, offset, |b1 + b2|) == |b1|
             && ImageAfter(v, file, offset, b1 + b2) == ZeroExtend(ImageAfter(v, file, offset, b1), reach * BLOCK_SIZE)
    ensures var slot, w := v.fds[fd].slot, Written(v, fd, b1);
            && slot < |w.slots| && w.slots[slot].Stored?
            && WriteFile(v, fd, b1 + b2) == (Grow(w, slot, w.free), Fail(ErrNoSpace))
  {
    assert Refers(v.fds[fd], v.slots);
    hide WellFormed, BlocksAfter, HasRoom, Landed, ZeroExtend;
    var slot, w, v' := v.fds[fd].slot, Written(v, fd, b1), WriteFile(v, fd, b1 + b2).0;
    var g := Grow(w, slot, w.free);
    assert w.slots[slot].file.image == ImageAfter(v, FileOf(v, fd), v.fds[fd].offset, b1);
    assert v'.slots == g.slots;
    assert v'.fds == g.fds;
  }

  /** Once every byte is written, recording the size completes the call. */
  lemma WriteEnds(v: Volume, fd: int, bytes: seq<byte>)
    requires WellFormed(v) && CanWrite(v, fd) && |FileOf(v, fd).image| % BLOCK_SIZE == 0
    requires HasRoom(v, FileOf(v, fd), v.fds[fd].offset, |bytes|)
    ensures var slot, w := v.fds[fd].slot, Written(v, fd, bytes);
            && slot < |w.slots| && w.slots[slot].Stored? && FdOpen(w, fd)
            && w.fds[fd].offset == v.fds[fd].offset + |bytes|
            && w.slots[slot].file.size == FileOf(v, fd).size
            && WriteFile(v, fd, bytes) ==
                 (Replace(w, slot, w.slots[slot].file.(size := Max(FileOf(v, fd).size, w.fds[fd].offset))),
                  Reply(Ok, -1, |bytes|, []))
  {
    var file, offset := FileOf(v, fd), v.fds[fd].offset;
    var w, v' := Written(v, fd, bytes), WriteFile(v, fd, bytes).0;
    assert EndAfter(v, file, offset, |bytes|) == offset + |bytes|;
    hide ImageAfter, WellFormed, BlocksAfter, EndAfter;
    assert v'.slots == Replace(w, v.fds[fd].slot,
                               w.slots[v.fds[fd].slot].file.(size := Max(file.size, w.fds[fd].offset))).slots;
  }

  /** Rewriting part of a block and storing the block is splicing the part into the image. */
  lemma SpliceInBlock(image: seq<byte>, start: nat, intra: nat, part: seq<byte>)
    requires start + BLOCK_SIZE <= |image| && intra + |part| <= BLOCK_SIZE
    ensures Splice(image, start, Splice(image[start..start + BLOCK_SIZE], intra, part)) == Splice(image, start + intra,
            part)
  {
    var left, right := Splice(image, start, Splice(image[start..start + BLOCK_SIZE], intra, part)),
                       Splice(image, start + intra, part);
    hide Splice;
    forall p | 0 <= p < |image| ensures left[p] == right[p] {
    }
  }

  // ----- reading

  lemma MoveTwice(v: Volume, fd: int, a: nat, b: nat)
    requires FdOpen(v, fd) && Refers(v.fds[fd], v.slots)
    ensures var w := MoveTo(v, fd, a);
            && FdOpen(w, fd) && Refers(w.fds[fd], w.slots) && FileOf(w, fd) == FileOf(v, fd)
            && MoveTo(w, fd, b) == MoveTo(v, fd, b)
  {
  }

  lemma MoveNowhere(v: Volume, fd: int)
    requires FdOpen(v, fd)
    ensures MoveTo(v, fd, v.fds[fd].offset) == v
  {
  }

  /** The bytes a read has delivered after `done` of them. */
  function Delivered(image: seq<byte>, offset: nat, done: nat): (bytes: seq<byte>)
    requires done == 0 || offset + done <= |image|
    ensures |bytes| == done
  {
    if done == 0 then [] else image[offset..offset + done]
  }

  /** How many bytes a read asks the blocks for. */
  function Wanted(file: File, offset: nat, len: nat): nat {
    Min(len, Max(0, file.size - offset))
  }

  /** All wanted bytes delivered: the read is done. */
  lemma ReadEnds(v: Volume, fd: int, len: nat)
    requires WellFormed(v) && CanRead(v, fd)
    requires var file, offset := FileOf(v, fd), v.fds[fd].offset;
             Wanted(file, offset, len) == 0 || offset + Wanted(file, offset, len) <= |file.image|
    ensures var file, offset := FileOf(v, fd), v.fds[fd].offset;
            var want := Wanted(file, offset, len);
            ReadFile(v, fd, len) == (MoveTo(v, fd, offset + want),
                                     Reply(Ok, -1, want, Delivered(file.image, offset, want)))
  {
    MoveNowhere(v, fd);
  }

  /** The next block does not exist: the read stops short with what there was. */
  lemma ReadStops(v: Volume, fd: int, len: nat, done: nat)
    requires WellFormed(v) && CanRead(v, fd)
    requires var file, offset := FileOf(v, fd), v.fds[fd].offset;
             && done < Wanted(file, offset, len)
             && (done == 0 || offset + done <= |file.image|)
             && |file.image| <= (offset + done) / BLOCK_SIZE * BLOCK_SIZE
    ensures var file, offset := FileOf(v, fd), v.fds[fd].offset;
            ReadFile(v, fd, len) == (MoveTo(v, fd, offset + done),
                                     Reply(ErrState, -1, 0, Delivered(file.image, offset, done)))
  {
    var file, offset := FileOf(v, fd), v.fds[fd].offset;
    assert WholeBlocks(v.slots[v.fds[fd].slot]);
    assert Max(offset, |file.image|) == offset + done;
    assert ZeroExtend(file.image, offset + done)[offset..offset + done] == Delivered(file.image, offset, done);
  }
}
