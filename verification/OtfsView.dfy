/** What a mounted disk stands for as a volume, and how single steps on the disk show there. */
module OtfsView {
  import opened Words
  import opened OtfsVolume
  import opened OtfsRuns
  import opened OtfsLayout

  datatype FdEntry = FdEntry(inUse: bool, dirIndex: nat, offset: u32, flags: Flags)

  const UNUSED_ENTRY := Entry(false, "", FAT_END, 0)
  const UNUSED_FD := FdEntry(false, 0, 0, Flags(false, false, false, false))

  /** The FAT, directory and descriptor table of a mounted handle, and the blocks of its image. */
  datatype Disk = Disk(fat: seq<u32>, dir: seq<Entry>, files: seq<FdEntry>, data: seq<Block>)

  predicate FileOk(file: FdEntry, dir: seq<Entry>) {
    file.inUse ==> file.dirIndex < |dir| && dir[file.dirIndex].used
  }

  ghost predicate Sound(s: Disk, lay: Layout) {
    && LaidOut(s.fat, s.dir, lay)
    && |s.data| == |s.fat|
    && (forall d :: 0 <= d < |s.files| ==> FileOk(s.files[d], s.dir))
  }

  // ----- images

  predicate Within(c: Chain, n: nat) {
    forall k :: 0 <= k < |c| ==> c[k] < n
  }

  /** The bytes along a chain. */
  function Image(c: Chain, data: seq<Block>): (image: seq<byte>)
    requires Within(c, |data|)
    ensures |image| == |c| * BLOCK_SIZE
    ensures forall p :: 0 <= p < |image| ==> image[p] == data[c[p / BLOCK_SIZE]][p % BLOCK_SIZE]
  {
    seq(|c| * BLOCK_SIZE, p requires 0 <= p < |c| * BLOCK_SIZE => data[c[p / BLOCK_SIZE]][p % BLOCK_SIZE])
  }

  lemma ImageSame(c: Chain, data: seq<Block>, data': seq<Block>)
    requires Within(c, |data|) && |data'| == |data|
    requires forall k :: 0 <= k < |c| ==> data'[c[k]] == data[c[k]]
    ensures Image(c, data') == Image(c, data)
  {
  }

  lemma ImageHang(c: Chain, b: nat, data: seq<Block>)
    requires Within(c, |data|) && b < |data| && data[b] == Zeros(BLOCK_SIZE)
    ensures Within(c + [b], |data|)
    ensures Image(c + [b], data) == ZeroExtend(Image(c, data), |c| * BLOCK_SIZE + BLOCK_SIZE)
  {
    var c' := c + [b];
    forall p | 0 <= p < |c'| * BLOCK_SIZE
      ensures Image(c', data)[p] == ZeroExtend(Image(c, data), |c| * BLOCK_SIZE + BLOCK_SIZE)[p]
    {
      assert c'[p / BLOCK_SIZE] == if p < |c| * BLOCK_SIZE then c[p / BLOCK_SIZE] else b;
    }
  }

  lemma ImageWrite(c: Chain, k: nat, data: seq<Block>, block: Block)
    requires Within(c, |data|) && k < |c|
    requires forall j :: 0 <= j < |c| && j != k ==> c[j] != c[k]
    ensures Image(c, data[c[k] := block]) == Splice(Image(c, data), k * BLOCK_SIZE, block)
  {
    var data' := data[c[k] := block];
    forall p | 0 <= p < |c| * BLOCK_SIZE
      ensures Image(c, data')[p] == Splice(Image(c, data), k * BLOCK_SIZE, block)[p]
    {
      assert p / BLOCK_SIZE == k <==> k * BLOCK_SIZE <= p < k * BLOCK_SIZE + BLOCK_SIZE;
      assert p / BLOCK_SIZE != k ==> c[p / BLOCK_SIZE] != c[k];
    }
  }

  // ----- the volume a disk stands for

  ghost function SlotView(entry: Entry, c: Chain, data: seq<Block>): Slot {
    if entry.used && Within(c, |data|) then Stored(File(entry.name, Image(c, data), entry.sizeBytes)) else Vacant
  }

  function FileView(file: FdEntry): Descriptor {
    if file.inUse then Opened(file.dirIndex, file.offset, file.flags) else Closed
  }

  ghost function SlotsView(dir: seq<Entry>, chains: seq<Chain>, data: seq<Block>): (slots: seq<Slot>)
    requires |chains| == |dir|
    ensures |slots| == |dir| && forall i :: 0 <= i < |dir| ==> slots[i] == SlotView(dir[i], chains[i], data)
  {
    seq(|dir|, i requires 0 <= i < |dir| => SlotView(dir[i], chains[i], data))
  }

  ghost function FdsView(files: seq<FdEntry>): (fds: seq<Descriptor>)
    ensures |fds| == |files| && forall d :: 0 <= d < |files| ==> fds[d] == FileView(files[d])
  {
    seq(|files|, d requires 0 <= d < |files| => FileView(files[d]))
  }

  ghost function View(s: Disk, lay: Layout): Volume
    requires |lay.chains| == |s.dir|
  {
    Volume(SlotsView(s.dir, lay.chains, s.data), CountFree(s.fat), FdsView(s.files))
  }

  /** The view of one slot, with its side conditions discharged. */
  lemma ViewAt(s: Disk, lay: Layout, i: nat)
    requires Sound(s, lay) && i < |s.dir|
    ensures Within(lay.chains[i], |s.data|)
    ensures View(s, lay).slots[i] ==
            if s.dir[i].used then Stored(File(s.dir[i].name, Image(lay.chains[i], s.data), s.dir[i].sizeBytes))
              else Vacant
  {
    ChainBounds(s.fat, s.dir, lay, i);
  }

  lemma {:induction false} SlotsBlocks(dir: seq<Entry>, chains: seq<Chain>, data: seq<Block>)
    requires |chains| == |dir|
    requires forall i :: 0 <= i < |dir| ==> Within(chains[i], |data|) && (!dir[i].used ==> chains[i] == [])
    ensures TotalBlocks(SlotsView(dir, chains, data)) == ChainBlocks(chains)
  {
    if dir != [] {
      SlotsBlocks(dir[1..], chains[1..], data);
      assert SlotsView(dir, chains, data)[1..] == SlotsView(dir[1..], chains[1..], data);
    }
  }

  /** A sound disk shows as a well-formed volume whose blocks add up. */
  lemma ViewSound(s: Disk, lay: Layout)
    requires Sound(s, lay)
    ensures WellFormed(View(s, lay)) && Conserved(View(s, lay), |s.fat|)
  {
    var v := View(s, lay);
    forall i | 0 <= i < |s.dir|
      ensures Within(lay.chains[i], |s.data|) && (!s.dir[i].used ==> lay.chains[i] == [])
      ensures WholeBlocks(v.slots[i]) && (v.slots[i].Stored? <==> s.dir[i].used)
    {
      ViewAt(s, lay, i);
      assert EntryOk(s.fat, s.dir[i], lay.chains[i]);
    }
    forall d | 0 <= d < |v.fds| ensures Refers(v.fds[d], v.slots) {
      assert FileOk(s.files[d], s.dir);
    }
    SlotsBlocks(s.dir, lay.chains, s.data);
    BlocksAddUp(s.fat, lay);
  }

  // ----- steps

  /** A file gains `n` zero blocks from the free ones. */
  function Grow(v: Volume, slot: nat, n: nat): Volume
    requires slot < |v.slots| && v.slots[slot].Stored? && n <= v.free
  {
    var file := v.slots[slot].file;
    v.(slots := v.slots[slot := Stored(file.(image := ZeroExtend(file.image, |file.image| + n * BLOCK_SIZE)))],
       free := v.free - n)
  }

  lemma GrowGrow(v: Volume, slot: nat, n: nat)
    requires slot < |v.slots| && v.slots[slot].Stored? && n < v.free
    ensures Grow(Grow(v, slot, n), slot, 1) == Grow(v, slot, n + 1)
  {
    var image := v.slots[slot].file.image;
    assert ZeroExtend(ZeroExtend(image, |image| + n * BLOCK_SIZE), |image| + n * BLOCK_SIZE + BLOCK_SIZE) ==
           ZeroExtend(image, |image| + (n + 1) * BLOCK_SIZE);
  }

  lemma GrowNone(v: Volume, slot: nat)
    requires slot < |v.slots| && v.slots[slot].Stored?
    ensures Grow(v, slot, 0) == v
  {
    assert v.slots[slot := v.slots[slot]] == v.slots;
  }

  function HangDisk(s: Disk, i: nat, c: Chain, b: u32): Disk
    requires i < |s.dir| && b < |s.fat| == |s.data| && Within(c, |s.fat|)
  {
    s.(fat := HangFat(s.fat, c, b), dir := s.dir[i := HangEntry(s.dir[i], c, b)], data :=
       s.data[b := Zeros(BLOCK_SIZE)])
  }

  lemma FreeBlockUnheld(s: Disk, lay: Layout, b: nat, j: nat)
    requires Sound(s, lay) && b < |s.fat| && s.fat[b] == FAT_FREE && j < |s.dir|
    ensures b !in lay.chains[j]
  {
    assert OwnerOk(s.fat, lay, b);
    forall k | 0 <= k < |lay.chains[j]| ensures lay.chains[j][k] != b {
      assert Holds(lay, j, k);
    }
  }

  /** Zeroing a free block and hanging it on a chain grows that file by one zero block. */
  lemma HangShows(s: Disk, lay: Layout, i: nat, b: nat)
    requires Sound(s, lay) && i < |s.dir| && s.dir[i].used && b < |s.fat| && s.fat[b] == FAT_FREE
    ensures Within(lay.chains[i], |s.fat|) && CountFree(s.fat) > 0
    ensures var s', lay' := HangDisk(s, i, lay.chains[i], b), HangLayout(lay, i, b);
            && Sound(s', lay')
            && View(s, lay).slots[i].Stored? && View(s', lay') == Grow(View(s, lay), i, 1)
  {
    HangKeepsLayout(s.fat, s.dir, lay, i, b);
    ViewAt(s, lay, i);
    var s', lay' := HangDisk(s, i, lay.chains[i], b), HangLayout(lay, i, b);
    forall d | 0 <= d < |s'.files| ensures FileOk(s'.files[d], s'.dir) {
      assert FileOk(s.files[d], s.dir);
    }
    assert Sound(s', lay');
    FreeBlockUnheld(s, lay, b, i);
    ImageSame(lay.chains[i], s.data, s'.data);
    ImageHang(lay.chains[i], b, s'.data);
    ViewAt(s', lay', i);
    forall j | 0 <= j < |s.dir| && j != i ensures View(s', lay').slots[j] == View(s, lay).slots[j] {
      ViewAt(s, lay, j);
      ViewAt(s', lay', j);
      FreeBlockUnheld(s, lay, b, j);
      ImageSame(lay.chains[j], s.data, s'.data);
    }
    hide LaidOut, HangFat;
    assert View(s', lay').slots == Grow(View(s, lay), i, 1).slots;
  }

  /** Replace the file of one slot. */
  function Replace(v: Volume, slot: nat, file: File): Volume
    requires slot < |v.slots|
  {
    v.(slots := v.slots[slot := Stored(file)])
  }

  /** Overwriting a block that lies at position `k` of a chain rewrites that part of its file. */
  lemma BlockShows(s: Disk, lay: Layout, i: nat, k: nat, block: Block)
    requires Sound(s, lay) && i < |s.dir| && s.dir[i].used && k < |lay.chains[i]|
    ensures lay.chains[i][k] < |s.data|
    ensures var s' := s.(data := s.data[lay.chains[i][k] := block]);
            && Sound(s', lay)
            && View(s, lay).slots[i].Stored?
            && var file := View(s, lay).slots[i].file;
               && k * BLOCK_SIZE + BLOCK_SIZE <= |file.image|
               && View(s', lay) == Replace(View(s, lay), i, file.(image := Splice(file.image, k * BLOCK_SIZE, block)))
  {
    ViewAt(s, lay, i);
    var c := lay.chains[i];
    var s' := s.(data := s.data[c[k] := block]);
    assert Sound(s', lay);
    forall j | 0 <= j < |c| && j != k ensures c[j] != c[k] {
      ChainsDisjoint(s.fat, s.dir, lay, i, i, j, k);
    }
    ImageWrite(c, k, s.data, block);
    ViewAt(s', lay, i);
    forall j | 0 <= j < |s.dir| && j != i ensures View(s', lay).slots[j] == View(s, lay).slots[j] {
      ViewAt(s, lay, j);
      ViewAt(s', lay, j);
      forall l | 0 <= l < |lay.chains[j]| ensures lay.chains[j][l] != c[k] {
        ChainsDisjoint(s.fat, s.dir, lay, i, j, k, l);
      }
      ImageSame(lay.chains[j], s.data, s'.data);
    }
    hide LaidOut;
    var file := View(s, lay).slots[i].file;
    assert View(s', lay).slots ==
           Replace(View(s, lay), i, file.(image := Splice(file.image, k * BLOCK_SIZE, block))).slots;
  }

  function FreeDisk(s: Disk, i: nat, c: Chain): Disk
    requires i < |s.dir|
  {
    s.(fat := FreeFat(s.fat, c), dir := s.dir[i := s.dir[i].(firstBlock := FAT_END, sizeBytes := 0)])
  }

  /** Freeing a file's whole chain truncates it. */
  lemma FreeShows(s: Disk, lay: Layout, i: nat)
    requires Sound(s, lay) && i < |s.dir| && s.dir[i].used
    ensures var s', lay' := FreeDisk(s, i, lay.chains[i]), FreeLayout(lay, i);
            && Sound(s', lay')
            && View(s, lay).slots[i].Stored? && View(s', lay') == Truncate(View(s, lay), i)
  {
    FreeKeepsLayout(s.fat, s.dir, lay, i);
    ViewAt(s, lay, i);
    var s', lay' := FreeDisk(s, i, lay.chains[i]), FreeLayout(lay, i);
    forall d | 0 <= d < |s'.files| ensures FileOk(s'.files[d], s'.dir) {
      assert FileOk(s.files[d], s.dir);
    }
    assert Sound(s', lay');
    ViewAt(s', lay', i);
    hide LaidOut, FreeFat;
    forall j | 0 <= j < |s.dir| && j != i ensures View(s', lay').slots[j] == View(s, lay).slots[j] {
      ViewAt(s, lay, j);
      ViewAt(s', lay', j);
    }
    assert View(s', lay').slots == Truncate(View(s, lay), i).slots;
  }

  /** Setting a recorded size. */
  lemma SizeShows(s: Disk, lay: Layout, i: nat, size: u32)
    requires Sound(s, lay) && i < |s.dir| && s.dir[i].used
    ensures var s' := s.(dir := s.dir[i := s.dir[i].(sizeBytes := size)]);
            && Sound(s', lay)
            && View(s, lay).slots[i].Stored?
            && View(s', lay) == Replace(View(s, lay), i, View(s, lay).slots[i].file.(size := size))
  {
    ViewAt(s, lay, i);
    var s' := s.(dir := s.dir[i := s.dir[i].(sizeBytes := size)]);
    forall j | 0 <= j < |s'.dir| ensures EntryOk(s'.fat, s'.dir[j], lay.chains[j]) {
      assert EntryOk(s.fat, s.dir[j], lay.chains[j]);
    }
    forall d | 0 <= d < |s'.files| ensures FileOk(s'.files[d], s'.dir) {
      assert FileOk(s.files[d], s.dir);
    }
    assert View(s', lay).slots == Replace(View(s, lay), i, View(s, lay).slots[i].file.(size := size)).slots;
  }

  /** Changing one descriptor. */
  lemma FdShows(s: Disk, lay: Layout, fd: nat, file: FdEntry)
    requires |lay.chains| == |s.dir| && fd < |s.files| && FileOk(file, s.dir)
    ensures var s' := s.(files := s.files[fd := file]);
            && (Sound(s, lay) ==> Sound(s', lay))
            && View(s', lay) == View(s, lay).(fds := View(s, lay).fds[fd := FileView(file)])
  {
    hide LaidOut, Image;
    var s' := s.(files := s.files[fd := file]);
    assert View(s', lay).fds == View(s, lay).fds[fd := FileView(file)];
  }
}
