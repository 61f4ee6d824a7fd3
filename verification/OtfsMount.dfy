/** What mount checks before it trusts an image, and what those checks are worth. */
module OtfsMount {
  import opened Words
  import opened OtfsVolume
  import opened OtfsRuns
  import opened OtfsFlat
  import opened OtfsLayout
  import opened OtfsView

  /** Blocks the recorded size calls for, in 32-bit arithmetic. */
  function Required(size: u32): nat {
    (size + (BLOCK_SIZE - 1)) % U32_LIMIT / BLOCK_SIZE
  }

  ghost predicate ChainAccepted(fat: seq<u32>, entry: Entry) {
    if Required(entry.sizeBytes) == 0 then entry.firstBlock == FAT_END
    else exists c :: IsChain(fat, entry.firstBlock, c) && Required(entry.sizeBytes) <= |c|
  }

  predicate WordAccepted(fat: seq<u32>, word: u32) {
    word == FAT_FREE || word == FAT_END || word < |fat|
  }

  ghost predicate MetadataAccepted(fat: seq<u32>, dir: seq<Entry>) {
    && (forall b :: 0 <= b < |fat| ==> WordAccepted(fat, fat[b]))
    && (forall i :: 0 <= i < |dir| && dir[i].used ==> ValidName(dir[i].name) && ChainAccepted(fat, dir[i]))
    && (forall i, j :: 0 <= i < j < |dir| && dir[i].used && dir[j].used ==> dir[i].name != dir[j].name)
  }

  /** What mount accepts, from the words and entries alone. */
  lemma AcceptedMeans(fat: seq<u32>, dir: seq<Entry>)
    requires FatFits(fat)
    ensures MetadataAccepted(fat, dir) <==>
            && (forall b :: 0 <= b < |fat| ==> fat[b] == 0xffff_ffff || fat[b] == 0xffff_fffe || fat[b] < |fat|)
            && (forall i :: 0 <= i < |dir| && dir[i].used ==>
                  && 1 <= |dir[i].name| <= 31 && '/' !in dir[i].name && '\\' !in dir[i].name
                  && if dir[i].sizeBytes == 0 || dir[i].sizeBytes > 0x1_0000_0000 - 512
                     then dir[i].firstBlock == 0xffff_fffe
                     else exists c :: IsChain(fat, dir[i].firstBlock, c) && dir[i].sizeBytes <= |c| * 512)
            && (forall i, j :: 0 <= i < j < |dir| && dir[i].used && dir[j].used ==> dir[i].name != dir[j].name)
  {
    forall i | 0 <= i < |dir|
      ensures ChainAccepted(fat, dir[i]) <==>
              if dir[i].sizeBytes == 0 || dir[i].sizeBytes > 0x1_0000_0000 - 512 then dir[i].firstBlock == 0xffff_fffe
              else exists c :: IsChain(fat, dir[i].firstBlock, c) && dir[i].sizeBytes <= |c| * 512
    {
      ChainAcceptedMeans(fat, dir[i]);
    }
    hide ChainAccepted, IsChain;
    assert forall b :: 0 <= b < |fat| ==>
        (WordAccepted(fat, fat[b]) <==> fat[b] == 0xffff_ffff || fat[b] == 0xffff_fffe || fat[b] < |fat|);
  }

  lemma ChainAcceptedMeans(fat: seq<u32>, entry: Entry)
    ensures ChainAccepted(fat, entry) <==>
            if entry.sizeBytes == 0 || entry.sizeBytes > 0x1_0000_0000 - 512 then entry.firstBlock == 0xffff_fffe
            else exists c :: IsChain(fat, entry.firstBlock, c) && entry.sizeBytes <= |c| * 512
  {
    var size := entry.sizeBytes;
    assert Required(size) == 0 <==> size == 0 || size > 0x1_0000_0000 - 512;
    if Required(size) != 0 {
      forall c | IsChain(fat, entry.firstBlock, c) ensures Required(size) <= |c| <==> size <= |c| * 512 {
        BlocksCover(size, |c|);
      }
    }
    hide IsChain, Required;
  }

  lemma BlocksCover(size: u32, n: nat)
    requires size <= 0x1_0000_0000 - 512
    ensures Required(size) <= n <==> size <= n * 512
  {
  }

  // ----- chains are bounded

  lemma {:induction false} DistinctFits(c: Chain, n: nat)
    requires Within(c, n) && forall j, k :: 0 <= j < k < |c| ==> c[j] != c[k]
    ensures |c| <= n
  {
    assert c != [] ==> c[0] < n;
    if n == 0 {
    } else if k :| 0 <= k < |c| && c[k] == n - 1 {
      var rest := c[..k] + c[k + 1..];
      assert forall j :: 0 <= j < |rest| ==> rest[j] == if j < k then c[j] else c[j + 1];
      DistinctFits(rest, n - 1);
    } else {
      DistinctFits(c, n - 1);
    }
  }

  lemma ChainWithin(fat: seq<u32>, first: u32, c: Chain)
    requires FatFits(fat) && IsChain(fat, first, c)
    ensures Within(c, |fat|) && |c| <= |fat|
  {
    forall k | 0 <= k < |c| ensures c[k] < |fat| {
      assert LinkedAt(fat, c, k);
    }
    ChainDistinct(fat, first, c);
    DistinctFits(c, |fat|);
  }

  /** The chain of an accepted entry covers the recorded size exactly up to the size at which rounding
      up to whole blocks wraps around. */
  lemma AcceptedChainCovers(fat: seq<u32>, entry: Entry, c: Chain)
    requires FatFits(fat) && ChainAccepted(fat, entry) && IsChain(fat, entry.firstBlock, c)
    ensures entry.sizeBytes <= |c| * BLOCK_SIZE <==> entry.sizeBytes <= U32_LIMIT - BLOCK_SIZE
  {
    if Required(entry.sizeBytes) == 0 {
      assert c != [] ==> LinkedAt(fat, c, 0);
    } else {
      var d :| IsChain(fat, entry.firstBlock, d) && Required(entry.sizeBytes) <= |d|;
      ChainUnique(fat, entry.firstBlock, c, d);
    }
  }

  /** An accepted entry has a chain that ends, visits no block twice and no free block, and is no
      longer than the data area; it covers the recorded size unless that is within a block of the
      32-bit limit. */
  lemma AcceptedChainSound(fat: seq<u32>, dir: seq<Entry>, i: nat)
    requires FatFits(fat) && MetadataAccepted(fat, dir) && i < |dir| && dir[i].used
    ensures exists c ::
              && IsChain(fat, dir[i].firstBlock, c)
              && |c| <= |fat|
              && (forall j, k :: 0 <= j < k < |c| ==> c[j] != c[k])
              && (forall k :: 0 <= k < |c| ==> c[k] < |fat| && fat[c[k]] != FAT_FREE)
              && (dir[i].sizeBytes <= |c| * BLOCK_SIZE <==> dir[i].sizeBytes <= U32_LIMIT - BLOCK_SIZE)
  {
    var c: Chain := [];
    if Required(dir[i].sizeBytes) != 0 {
      c :| IsChain(fat, dir[i].firstBlock, c) && Required(dir[i].sizeBytes) <= |c|;
    }
    ChainWithin(fat, dir[i].firstBlock, c);
    ChainDistinct(fat, dir[i].firstBlock, c);
    AcceptedChainCovers(fat, dir[i], c);
    forall k | 0 <= k < |c| ensures fat[c[k]] != FAT_FREE {
      assert LinkedAt(fat, c, k);
    }
  }

  /** A size that wraps around: accepted without a single block. */
  lemma OversizedAccepted()
    ensures var entry := Entry(true, "a", FAT_END, U32_LIMIT - 1);
            MetadataAccepted([FAT_FREE], [entry]) && IsChain([FAT_FREE], entry.firstBlock, [])
  {
    assert ValidName("a");
  }

  // ----- walking a chain

  /** The word that leads to position `k` of a walk that stands at `cur` after visiting `c`. */
  function After(c: Chain, k: nat, cur: u32): nat
    requires k <= |c|
  {
    if k < |c| then c[k] else cur
  }

  predicate TrailAt(fat: seq<u32>, c: Chain, cur: u32, k: nat)
    requires k < |c|
  {
    c[k] < |fat| && fat[c[k]] == After(c, k + 1, cur)
  }

  /** Following the FAT from `first` has visited `c` and stands at `cur`. */
  ghost predicate Trail(fat: seq<u32>, first: u32, c: Chain, cur: u32) {
    first == After(c, 0, cur) && forall k :: 0 <= k < |c| ==> TrailAt(fat, c, cur, k)
  }

  lemma TrailMore(fat: seq<u32>, first: u32, c: Chain, cur: u32)
    requires Trail(fat, first, c, cur) && cur < |fat|
    ensures Trail(fat, first, c + [cur], fat[cur])
  {
    forall k | 0 <= k < |c + [cur]| ensures TrailAt(fat, c + [cur], fat[cur], k) {
      assert k < |c| ==> TrailAt(fat, c, cur, k);
    }
  }

  /** Every chain from `first` begins with the trail and goes on at `cur`. */
  lemma {:induction false} TrailAhead(fat: seq<u32>, first: u32, c: Chain, cur: u32, d: Chain)
    requires FatFits(fat) && Trail(fat, first, c, cur) && IsChain(fat, first, d)
    ensures |c| <= |d| && cur == Link(d, |c|)
  {
    if c != [] {
      var last := |c| - 1;
      assert TrailAt(fat, c, cur, last);
      forall k | 0 <= k < last ensures TrailAt(fat, c[..last], c[last], k) {
        assert TrailAt(fat, c, cur, k);
      }
      TrailAhead(fat, first, c[..last], c[last], d);
      assert LinkedAt(fat, d, last);
    }
  }

  lemma TrailEnds(fat: seq<u32>, first: u32, c: Chain)
    requires Trail(fat, first, c, FAT_END)
    ensures IsChain(fat, first, c)
  {
    forall k | 0 <= k < |c| ensures LinkedAt(fat, c, k) {
      assert TrailAt(fat, c, FAT_END, k);
    }
  }

  /** A walk that cannot reach the end mark: it came back to a block, or left the table. */
  ghost predicate Stuck(fat: seq<u32>, first: u32, c: Chain, at: u32) {
    && Trail(fat, first, c, at)
    && (forall j, k :: 0 <= j < k < |c| ==> c[j] != c[k])
    && (at in c || (at >= |fat| && at != FAT_END))
  }

  lemma StuckNoChain(fat: seq<u32>, first: u32, c: Chain, at: u32, d: Chain)
    requires FatFits(fat) && Stuck(fat, first, c, at)
    ensures !IsChain(fat, first, d)
  {
    if IsChain(fat, first, d) {
      TrailOnChain(fat, first, c, at, d);
    }
  }

  /** A walk from where a chain starts stays on the chain, and comes to no block twice. */
  lemma TrailOnChain(fat: seq<u32>, first: u32, c: Chain, at: u32, d: Chain)
    requires FatFits(fat) && Trail(fat, first, c, at) && IsChain(fat, first, d)
    ensures at !in c && (at == FAT_END || at < |fat|)
  {
    TrailAhead(fat, first, c, at, d);
    ChainDistinct(fat, first, d);
    forall k | 0 <= k < |c| ensures c[k] == d[k] && c[k] < |fat| {
      assert TrailAt(fat, c, at, k);
      TrailPrefix(fat, first, c, at, k);
      TrailAhead(fat, first, c[..k], c[k], d);
    }
    if |c| < |d| {
      assert LinkedAt(fat, d, |c|);
    }
  }

  lemma TrailPrefix(fat: seq<u32>, first: u32, c: Chain, at: u32, k: nat)
    requires Trail(fat, first, c, at) && k < |c| && c[k] < U32_LIMIT
    ensures Trail(fat, first, c[..k], c[k])
  {
    forall j | 0 <= j < k ensures TrailAt(fat, c[..k], c[k], j) {
      assert TrailAt(fat, c, at, j);
    }
  }

  // ----- the layout found on an image

  /** The chain that starts at `first`, when there is one. */
  ghost function ChainFrom(fat: seq<u32>, first: u32): (c: Chain)
    ensures (exists d :: IsChain(fat, first, d)) ==> IsChain(fat, first, c)
  {
    if exists d :: IsChain(fat, first, d) then var d :| IsChain(fat, first, d); d else []
  }

  ghost function ChainsOf(fat: seq<u32>, dir: seq<Entry>): (chains: seq<Chain>)
    ensures |chains| == |dir|
    ensures forall i :: 0 <= i < |dir| ==> chains[i] == if dir[i].used then ChainFrom(fat, dir[i].firstBlock) else []
  {
    seq(|dir|, i requires 0 <= i < |dir| => if dir[i].used then ChainFrom(fat, dir[i].firstBlock) else [])
  }

  /** Every file has its chain; nothing is said about chains of different files. Reading needs no
      more than this. */
  ghost predicate Threaded(s: Disk, chains: seq<Chain>) {
    && FatFits(s.fat)
    && |chains| == |s.dir| && |s.data| == |s.fat|
    && (forall i :: 0 <= i < |s.dir| ==> EntryOk(s.fat, s.dir[i], chains[i]))
    && (forall d :: 0 <= d < |s.files| ==> FileOk(s.files[d], s.dir))
  }

  lemma AcceptedThreaded(s: Disk)
    requires FatFits(s.fat) && MetadataAccepted(s.fat, s.dir) && |s.data| == |s.fat|
    requires forall d :: 0 <= d < |s.files| ==> !s.files[d].inUse
    ensures Threaded(s, ChainsOf(s.fat, s.dir))
  {
    var chains := ChainsOf(s.fat, s.dir);
    forall i | 0 <= i < |s.dir| ensures EntryOk(s.fat, s.dir[i], chains[i]) {
      if s.dir[i].used && Required(s.dir[i].sizeBytes) == 0 {
        assert IsChain(s.fat, s.dir[i].firstBlock, []);
      }
    }
  }

  lemma ThreadedSlot(s: Disk, lay: Layout, i: nat)
    requires Threaded(s, lay.chains) && i < |s.dir|
    ensures Within(lay.chains[i], |s.data|)
    ensures View(s, lay).slots[i] ==
            if s.dir[i].used then Stored(File(s.dir[i].name, Image(lay.chains[i], s.data), s.dir[i].sizeBytes))
              else Vacant
  {
    assert EntryOk(s.fat, s.dir[i], lay.chains[i]);
    if s.dir[i].used {
      ChainWithin(s.fat, s.dir[i].firstBlock, lay.chains[i]);
    }
  }

  /** The directory entry starts its chain; an entry without blocks holds the end mark. */
  lemma StartsAt(s: Disk, chains: seq<Chain>, i: nat)
    requires Threaded(s, chains) && i < |s.dir| && s.dir[i].used
    ensures s.dir[i].firstBlock == FAT_END <==> chains[i] == []
    ensures chains[i] != [] ==> s.dir[i].firstBlock == chains[i][0] < |s.fat|
  {
    assert EntryOk(s.fat, s.dir[i], chains[i]);
    if chains[i] != [] {
      assert LinkedAt(s.fat, chains[i], 0);
    }
  }

  /** The FAT word of a block on a chain is the next block, or the end mark after the last. */
  lemma NextIs(s: Disk, chains: seq<Chain>, i: nat, k: nat)
    requires Threaded(s, chains) && i < |s.dir| && s.dir[i].used && k < |chains[i]|
    ensures chains[i][k] < |s.fat|
    ensures s.fat[chains[i][k]] == FAT_END <==> k + 1 == |chains[i]|
    ensures k + 1 < |chains[i]| ==> s.fat[chains[i][k]] == chains[i][k + 1] < |s.fat|
  {
    assert EntryOk(s.fat, s.dir[i], chains[i]);
    assert LinkedAt(s.fat, chains[i], k);
    if k + 1 < |chains[i]| {
      assert LinkedAt(s.fat, chains[i], k + 1);
    }
  }

  lemma ThreadedWellFormed(s: Disk, lay: Layout)
    requires Threaded(s, lay.chains)
    ensures WellFormed(View(s, lay))
  {
    var v := View(s, lay);
    forall i | 0 <= i < |s.dir| ensures WholeBlocks(v.slots[i]) && (v.slots[i].Stored? <==> s.dir[i].used) {
      ThreadedSlot(s, lay, i);
    }
    forall d | 0 <= d < |v.fds| ensures Refers(v.fds[d], v.slots) {
      assert FileOk(s.files[d], s.dir);
    }
  }

  lemma FdThreaded(s: Disk, chains: seq<Chain>, fd: nat, file: FdEntry)
    requires Threaded(s, chains) && fd < |s.files| && FileOk(file, s.dir)
    ensures Threaded(s.(files := s.files[fd := file]), chains)
  {
  }

  lemma SoundThreaded(s: Disk, lay: Layout)
    requires Sound(s, lay)
    ensures Threaded(s, lay.chains)
  {
  }

  lemma ChainsUnique(s: Disk, lay: Layout, lay': Layout)
    requires Sound(s, lay) && Threaded(s, lay'.chains)
    ensures lay'.chains == lay.chains
  {
    forall i | 0 <= i < |s.dir| ensures lay'.chains[i] == lay.chains[i] {
      assert EntryOk(s.fat, s.dir[i], lay.chains[i]) && EntryOk(s.fat, s.dir[i], lay'.chains[i]);
      if s.dir[i].used {
        ChainUnique(s.fat, s.dir[i].firstBlock, lay.chains[i], lay'.chains[i]);
      }
    }
  }

  // ----- exactly which accepted images are sound

  ghost predicate OnChain(chains: seq<Chain>, i: int, k: int, b: nat) {
    0 <= i < |chains| && 0 <= k < |chains[i]| && chains[i][k] == b
  }

  /** No block is on the chains of two files, and none is taken without being on one. */
  ghost predicate Consistent(fat: seq<u32>, chains: seq<Chain>) {
    && (forall b, i, j, k, l :: OnChain(chains, i, k, b) && OnChain(chains, j, l, b) ==> i == j)
    && (forall b :: 0 <= b < |fat| && fat[b] != FAT_FREE ==> exists i, k :: OnChain(chains, i, k, b))
  }

  ghost function OwnerOf(chains: seq<Chain>, b: nat): (o: Owner)
    ensures o.At? ==> OnChain(chains, o.file, o.pos, b)
    ensures o.Nobody? ==> forall i, k :: !OnChain(chains, i, k, b)
  {
    if exists i, k :: OnChain(chains, i, k, b) then
      var i, k :| OnChain(chains, i, k, b); At(i, k)
    else Nobody
  }

  ghost function OwnersOf(chains: seq<Chain>, n: nat): (owners: seq<Owner>)
    ensures |owners| == n && forall b :: 0 <= b < n ==> owners[b] == OwnerOf(chains, b)
  {
    seq(n, b requires 0 <= b < n => OwnerOf(chains, b))
  }

  /** On a consistent disk a block is at one place only. */
  lemma OnePlace(s: Disk, chains: seq<Chain>, i: nat, k: nat, j: nat, l: nat, b: nat)
    requires Threaded(s, chains) && Consistent(s.fat, chains)
    requires OnChain(chains, i, k, b) && OnChain(chains, j, l, b)
    ensures i == j && k == l && b < |s.fat| && s.fat[b] != FAT_FREE
  {
    assert EntryOk(s.fat, s.dir[i], chains[i]);
    ChainDistinct(s.fat, s.dir[i].firstBlock, chains[i]);
    assert LinkedAt(s.fat, chains[i], k);
    if k + 1 < |chains[i]| {
      assert LinkedAt(s.fat, chains[i], k + 1);
    }
  }

  /** What mount does not look at: a disk whose files all have their chains is sound exactly when its
      chains are consistent. */
  lemma SoundIff(s: Disk, chains: seq<Chain>)
    requires Threaded(s, chains)
    ensures (exists lay :: Sound(s, lay)) <==> Consistent(s.fat, chains)
  {
    if lay :| Sound(s, lay) {
      ChainsUnique(s, lay, Layout(chains, []));
      SoundConsistent(s, lay);
    } else if Consistent(s.fat, chains) {
      ConsistentSound(s, chains);
    }
  }

  /** Acceptance is not enough for that: two files on one block pass the checks. */
  lemma CrossingAccepted()
    ensures var fat, dir := [FAT_END], [Entry(true, "a", 0, 1), Entry(true, "b", 0, 1)];
            && MetadataAccepted(fat, dir)
            && IsChain(fat, dir[0].firstBlock, [0]) && IsChain(fat, dir[1].firstBlock, [0])
            && !Consistent(fat, [[0], [0]])
  {
    var fat: seq<u32> := [FAT_END];
    assert LinkedAt(fat, [0], 0);
    assert IsChain(fat, 0, [0]);
    assert ValidName("a") && ValidName("b") && "a"[0] != "b"[0];
    assert OnChain([[0], [0]], 0, 0, 0) && OnChain([[0], [0]], 1, 0, 0);
  }

  lemma SoundConsistent(s: Disk, lay: Layout)
    requires Sound(s, lay)
    ensures Consistent(s.fat, lay.chains)
  {
    forall b, i, j, k, l | OnChain(lay.chains, i, k, b) && OnChain(lay.chains, j, l, b) ensures i == j {
      ChainsDisjoint(s.fat, s.dir, lay, i, j, k, l);
    }
    forall b | 0 <= b < |s.fat| && s.fat[b] != FAT_FREE ensures exists i, k :: OnChain(lay.chains, i, k, b) {
      UsedIffOnChain(s.fat, s.dir, lay, b);
      var i, k :| 0 <= i < |s.dir| && 0 <= k < |lay.chains[i]| && lay.chains[i][k] == b;
      assert OnChain(lay.chains, i, k, b);
    }
  }

  lemma ConsistentSound(s: Disk, chains: seq<Chain>)
    requires Threaded(s, chains) && Consistent(s.fat, chains)
    ensures Sound(s, Layout(chains, OwnersOf(chains, |s.fat|)))
  {
    var lay := Layout(chains, OwnersOf(chains, |s.fat|));
    forall i, k | 0 <= i < |chains| && 0 <= k < |chains[i]| ensures Holds(lay, i, k) {
      var b := chains[i][k];
      assert OnChain(chains, i, k, b);
      OnePlace(s, chains, i, k, i, k, b);
      var o := OwnerOf(chains, b);
      OnePlace(s, chains, i, k, o.file, o.pos, b);
    }
    forall b | 0 <= b < |s.fat| ensures OwnerOk(s.fat, lay, b) {
      var o := OwnerOf(chains, b);
      if o.At? {
        OnePlace(s, chains, o.file, o.pos, o.file, o.pos, b);
      }
    }
    assert Owned(s.fat, lay);
  }

  /** Taking an unused directory entry creates an empty file. */
  lemma CreateShows(s: Disk, lay: Layout, i: nat, name: CString)
    requires Threaded(s, lay.chains) && i < |s.dir| && !s.dir[i].used
    ensures var s' := s.(dir := s.dir[i := Entry(true, name, FAT_END, 0)]);
            && Threaded(s', lay.chains) && (Sound(s, lay) ==> Sound(s', lay))
            && View(s', lay) == Create(View(s, lay), i, name)
  {
    var s' := s.(dir := s.dir[i := Entry(true, name, FAT_END, 0)]);
    assert EntryOk(s.fat, s.dir[i], lay.chains[i]);
    forall j | 0 <= j < |s'.dir| ensures EntryOk(s'.fat, s'.dir[j], lay.chains[j]) {
      assert EntryOk(s.fat, s.dir[j], lay.chains[j]);
    }
    forall d | 0 <= d < |s'.files| ensures FileOk(s'.files[d], s'.dir) {
      assert FileOk(s.files[d], s.dir);
    }
    assert Threaded(s', lay.chains);
    ThreadedSlot(s', lay, i);
    assert View(s', lay).slots == Create(View(s, lay), i, name).slots;
  }

  // ----- exactly which volumes can be mounted again

  /** A file mount accepts: enough blocks for its size, and none at all if its size calls for none. */
  predicate SlotAccepted(slot: Slot) {
    && slot.Stored? && slot.file.size < U32_LIMIT
    && Required(slot.file.size) * BLOCK_SIZE <= |slot.file.image|
    && (Required(slot.file.size) == 0 ==> slot.file.image == [])
  }

  /** The files mount accepts together. */
  predicate SlotsAccepted(slots: seq<Slot>) {
    NamesOk(slots) && forall i :: 0 <= i < |slots| && slots[i].Stored? ==> SlotAccepted(slots[i])
  }

  /** The state of a sound volume is accepted again exactly when its files are. */
  lemma RemountIff(s: Disk, lay: Layout)
    requires Sound(s, lay)
    ensures MetadataAccepted(s.fat, s.dir) <==> SlotsAccepted(View(s, lay).slots)
  {
    var slots := View(s, lay).slots;
    forall i | 0 <= i < |s.dir|
      ensures slots[i].Stored? <==> s.dir[i].used
      ensures s.dir[i].used ==> slots[i].file.name == s.dir[i].name
      ensures s.dir[i].used ==> (ChainAccepted(s.fat, s.dir[i]) <==> SlotAccepted(slots[i]))
    {
      SoundThreaded(s, lay);
      ThreadedSlot(s, lay, i);
      if s.dir[i].used {
        EntryAcceptedIff(s, lay, i);
      }
    }
    forall b | 0 <= b < |s.fat| ensures WordAccepted(s.fat, s.fat[b]) {
      OwnedWord(s.fat, s.dir, lay, b);
    }
    hide Sound, ChainAccepted, SlotAccepted, ValidName;
    assert |slots| == |s.dir|;
    if MetadataAccepted(s.fat, s.dir) {
      assert forall i :: 0 <= i < |slots| && slots[i].Stored? ==> ValidName(s.dir[i].name) && SlotAccepted(slots[i]);
    } else if SlotsAccepted(slots) {
      assert forall i :: 0 <= i < |s.dir| && s.dir[i].used ==> slots[i].Stored? && ValidName(slots[i].file.name);
    }
  }

  lemma EntryAcceptedIff(s: Disk, lay: Layout, i: nat)
    requires Sound(s, lay) && i < |s.dir| && s.dir[i].used
    ensures var slot := View(s, lay).slots[i];
            && slot.Stored? && slot.file.name == s.dir[i].name
            && (ChainAccepted(s.fat, s.dir[i]) <==> SlotAccepted(slot))
  {
    ViewAt(s, lay, i);
    var c := lay.chains[i];
    assert EntryOk(s.fat, s.dir[i], c);
    forall d | IsChain(s.fat, s.dir[i].firstBlock, d) ensures d == c {
      ChainUnique(s.fat, s.dir[i].firstBlock, c, d);
    }
    assert s.dir[i].firstBlock == FAT_END <==> c == [] by {
      if c != [] {
        assert LinkedAt(s.fat, c, 0);
      }
    }
  }

  lemma OwnedWord(fat: seq<u32>, dir: seq<Entry>, lay: Layout, b: nat)
    requires LaidOut(fat, dir, lay) && b < |fat|
    ensures WordAccepted(fat, fat[b])
  {
    assert OwnerOk(fat, lay, b);
    if lay.owners[b].At? {
      var i, k := lay.owners[b].file, lay.owners[b].pos;
      assert EntryOk(fat, dir[i], lay.chains[i]);
      assert LinkedAt(fat, lay.chains[i], k);
      ChainBounds(fat, dir, lay, i);
    }
  }

  /** What mounting is for: on an accepted image a read answers with a state error exactly for a file
      whose size wraps around, when there is something to read. */
  lemma AcceptedReadsIff(s: Disk, lay: Layout, fd: int, len: nat)
    requires Threaded(s, lay.chains) && MetadataAccepted(s.fat, s.dir) && WellFormed(View(s, lay))
             && CanRead(View(s, lay), fd)
    ensures var v := View(s, lay);
            var size, offset, status := FileOf(v, fd).size, v.fds[fd].offset, ReadFile(v, fd, len).1.status;
            && (status == Ok <==> size <= U32_LIMIT - BLOCK_SIZE || size <= offset || len == 0)
            && (status != Ok ==> status == ErrState)
  {
    var v := View(s, lay);
    var i := v.fds[fd].slot;
    assert Refers(v.fds[fd], v.slots);
    ThreadedSlot(s, lay, i);
    assert EntryOk(s.fat, s.dir[i], lay.chains[i]);
    AcceptedChainCovers(s.fat, s.dir[i], lay.chains[i]);
    if s.dir[i].sizeBytes > U32_LIMIT - BLOCK_SIZE {
      StartsAt(s, lay.chains, i);
    }
    assert |FileOf(v, fd).image| == |lay.chains[i]| * BLOCK_SIZE && FileOf(v, fd).size == s.dir[i].sizeBytes;
    hide Threaded, MetadataAccepted, WellFormed, View;
  }

  /** Such a file is easily made: an empty write at the last offset of an empty file is accepted when
      the volume is mounted again, and then nothing can be read from it. */
  lemma EmptyWriteThenMount(v: Volume, fd: int, len: nat)
    requires WellFormed(v) && CanWrite(v, fd) && CanRead(v, fd) && FileOf(v, fd).image == [] && FileOf(v, fd).size == 0
    requires len > 0
    ensures var far := SeekFile(v, fd, U32_LIMIT - 1).0;
            WellFormed(far) &&
            var (after, reply) := WriteFile(far, fd, []);
            && reply.status == Ok && FileOf(after, fd).size == U32_LIMIT - 1
            && SlotAccepted(after.slots[after.fds[fd].slot])
            && var back := SeekFile(after, fd, 0).0;
               WellFormed(back) && ReadFile(back, fd, len).1.status == ErrState
  {
    var far := SeekFile(v, fd, U32_LIMIT - 1).0;
    ApplyKeepsWellFormed(v, Seek(fd, U32_LIMIT - 1));
    EmptyWriteFar(far, fd, FileOf(v, fd).name);
    var after := WriteFile(far, fd, []).0;
    ApplyKeepsWellFormed(after, Seek(fd, 0));
    hide WellFormed, WriteFile;
  }

  lemma EmptyWriteFar(v: Volume, fd: int, name: CString)
    requires WellFormed(v) && CanWrite(v, fd) && v.fds[fd].offset == U32_LIMIT - 1
    requires FileOf(v, fd) == File(name, [], 0)
    ensures var (after, reply) := WriteFile(v, fd, []);
            && reply.status == Ok && WellFormed(after)
            && |after.fds| == |v.fds| && after.fds[fd] == v.fds[fd] && v.fds[fd].slot < |after.slots|
            && after.slots[v.fds[fd].slot] == Stored(File(name, [], U32_LIMIT - 1))
  {
    WriteKeepsWellFormed(v, fd, []);
    hide WellFormed, BlocksFor;
    var after := WriteFile(v, fd, []).0;
    assert FileAfter(v, FileOf(v, fd), U32_LIMIT - 1, []).image == [];
  }

  /** A write that finds too little space for an empty file leaves it the blocks it took, and with them
      the volume cannot be mounted again. */
  lemma FailedWriteThenRefused(v: Volume, fd: int, bytes: seq<byte>)
    requires WellFormed(v) && CanWrite(v, fd) && FileOf(v, fd).image == [] && FileOf(v, fd).size == 0
    requires WriteFile(v, fd, bytes).1.status != Ok
    ensures var after := WriteFile(v, fd, bytes).0;
            after.fds[fd].slot < |after.slots| && (SlotAccepted(after.slots[after.fds[fd].slot]) <==> v.free == 0)
  {
    var slot, file, offset := v.fds[fd].slot, FileOf(v, fd), v.fds[fd].offset;
    var after := WriteFile(v, fd, bytes).0.slots[slot];
    assert after == Stored(FileAfter(v, file, offset, bytes)) && after.file.size == 0;
    WriteSucceedsIff(v, fd, bytes);
    assert |after.file.image| == v.free * BLOCK_SIZE;
    hide WellFormed, WriteFile, FileAfter, CanWrite, FileOf;
  }

  /** Which runs from a formatted volume can be mounted again: those that leave every file with the
      blocks its size calls for. */
  lemma RunRemountsIff(s: Disk, lay: Layout, blocks: nat, files: nat, fds: nat, ops: seq<Op>)
    requires Sound(s, lay) && View(s, lay) == Run(Formatted(blocks, files, fds), ops)
    ensures MetadataAccepted(s.fat, s.dir) <==>
            forall i :: 0 <= i < |View(s, lay).slots| && View(s, lay).slots[i].Stored? ==>
              SlotAccepted(View(s, lay).slots[i])
  {
    RunKeepsNames(Formatted(blocks, files, fds), ops);
    RemountIff(s, lay);
    hide Sound, MetadataAccepted, SlotAccepted, View, NamesOk, Run;
  }

  /** The state right after mounting: the same metadata and blocks, nothing open. */
  predicate SameClosed(s: Disk, mounted: Disk) {
    && mounted.fat == s.fat && mounted.dir == s.dir && mounted.data == s.data
    && forall d :: 0 <= d < |mounted.files| ==> !mounted.files[d].inUse
  }

  /** Every clean volume is accepted again. */
  lemma AcceptedAgain(s: Disk, lay: Layout, mounted: Disk)
    requires Sound(s, lay) && NamesOk(View(s, lay).slots) && Clean(View(s, lay)) && SameClosed(s, mounted)
    ensures MetadataAccepted(s.fat, s.dir) && Sound(mounted, lay)
  {
    var slots := View(s, lay).slots;
    forall i | 0 <= i < |slots| && slots[i].Stored? ensures SlotAccepted(slots[i]) {
      CleanAccepted(s, lay, i);
    }
    RemountIff(s, lay);
  }

  /** What is mounted is what was unmounted, with all descriptors closed. */
  lemma RemountIdentity(s: Disk, lay: Layout, mounted: Disk, lay': Layout)
    requires Sound(s, lay) && SameClosed(s, mounted) && Threaded(mounted, lay'.chains)
    ensures View(mounted, lay') == Volume(View(s, lay).slots, View(s, lay).free, seq(|mounted.files|, _ => Closed))
  {
    assert Sound(mounted, lay);
    ChainsUnique(mounted, lay, lay');
    hide Sound, Threaded;
    assert View(mounted, lay').slots == View(s, lay).slots;
    assert View(mounted, lay').fds == seq(|mounted.files|, _ => Closed);
  }

  lemma CleanAccepted(s: Disk, lay: Layout, i: nat)
    requires Sound(s, lay) && Clean(View(s, lay)) && i < |s.dir| && View(s, lay).slots[i].Stored?
    ensures SlotAccepted(View(s, lay).slots[i])
  {
    ViewAt(s, lay, i);
    ChainFits(s.fat, lay, i);
    assert CleanFile(View(s, lay).slots[i].file);
    var size, image := s.dir[i].sizeBytes, View(s, lay).slots[i].file.image;
    hide Sound, View, Clean;
    assert |image| == BlocksFor(size) * BLOCK_SIZE && |image| == |lay.chains[i]| * BLOCK_SIZE;
    assert Required(size) == BlocksFor(size);
  }

  /** A formatted image is accepted, and mounts as the empty volume. */
  lemma FormattedMounts(blocks: nat, files: nat, fds: nat)
    requires blocks * BLOCK_SIZE < U32_LIMIT
    ensures var s := Disk(seq(blocks, _ => FAT_FREE), seq(files, _ => UNUSED_ENTRY), seq(fds, _ => UNUSED_FD),
                          seq(blocks, _ => Zeros(BLOCK_SIZE)));
            var lay := Layout(seq(files, _ => []), seq(blocks, _ => Nobody));
            MetadataAccepted(s.fat, s.dir) && Sound(s, lay) && View(s, lay) == Formatted(blocks, files, fds)
  {
    var fat := seq(blocks, _ => FAT_FREE);
    var s := Disk(fat, seq(files, _ => UNUSED_ENTRY), seq(fds, _ => UNUSED_FD), seq(blocks, _ => Zeros(BLOCK_SIZE)));
    var lay := Layout(seq(files, _ => []), seq(blocks, _ => Nobody));
    CountNone(fat);
    assert View(s, lay).slots == Formatted(blocks, files, fds).slots;
    assert View(s, lay).fds == Formatted(blocks, files, fds).fds;
  }
}
