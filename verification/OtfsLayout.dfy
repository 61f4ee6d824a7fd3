/** How a volume lies on the disk: a FAT whose links thread the blocks of each file into a chain, a
    directory that holds each chain's first block, and the blocks themselves. */
module OtfsLayout {
  import opened Words
  import opened OtfsVolume

  const FAT_FREE: u32 := 0xffff_ffff
  const FAT_END: u32 := 0xffff_fffe

  type Block = b: seq<byte> | |b| == BLOCK_SIZE witness Zeros(BLOCK_SIZE)

  datatype Entry = Entry(used: bool, name: CString, firstBlock: u32, sizeBytes: u32)

  /** Offsets of data bytes fit in 32 bits; this also keeps block numbers below the two marks. */
  predicate FatFits(fat: seq<u32>) {
    |fat| * BLOCK_SIZE < U32_LIMIT
  }

  // ----- chains

  type Chain = seq<nat>

  /** The FAT word that leads to position `k` of a chain. */
  function Link(c: Chain, k: nat): nat
    requires k <= |c|
  {
    if k < |c| then c[k] else FAT_END
  }

  predicate LinkedAt(fat: seq<u32>, c: Chain, k: nat)
    requires k < |c|
  {
    c[k] < |fat| && fat[c[k]] == Link(c, k + 1)
  }

  /** Following the FAT from `first` visits the blocks of `c` and then meets the end mark. */
  ghost predicate IsChain(fat: seq<u32>, first: u32, c: Chain) {
    first == Link(c, 0) && forall k :: 0 <= k < |c| ==> LinkedAt(fat, c, k)
  }

  /** A chain is determined by where it starts. */
  lemma {:induction false} ChainUnique(fat: seq<u32>, first: u32, c: Chain, d: Chain)
    requires FatFits(fat) && IsChain(fat, first, c) && IsChain(fat, first, d)
    ensures c == d
    decreases |c|
  {
    if c == [] {
      assert d != [] ==> LinkedAt(fat, d, 0);
    } else {
      assert LinkedAt(fat, c, 0);
      if d == [] {
        assert false;
      }
      assert LinkedAt(fat, d, 0);
      ChainTail(fat, first, c);
      ChainTail(fat, first, d);
      ChainUnique(fat, fat[c[0]], c[1..], d[1..]);
    }
  }

  lemma ChainTail(fat: seq<u32>, first: u32, c: Chain)
    requires c != [] && IsChain(fat, first, c)
    ensures c[0] == first < |fat| && IsChain(fat, fat[first], c[1..])
  {
    assert LinkedAt(fat, c, 0);
    forall k | 0 <= k < |c[1..]| ensures LinkedAt(fat, c[1..], k) {
      assert LinkedAt(fat, c, k + 1);
    }
  }

  lemma ChainDrop(fat: seq<u32>, first: u32, c: Chain, k: nat)
    requires FatFits(fat) && k < |c| && IsChain(fat, first, c)
    ensures c[k] < |fat| && IsChain(fat, c[k], c[k..])
  {
    assert LinkedAt(fat, c, k);
    forall j | 0 <= j < |c[k..]| ensures LinkedAt(fat, c[k..], j) {
      assert LinkedAt(fat, c, k + j);
    }
  }

  /** No chain that ends visits a block twice: from equal blocks the rest would be equal. */
  lemma ChainDistinct(fat: seq<u32>, first: u32, c: Chain)
    requires FatFits(fat) && IsChain(fat, first, c)
    ensures forall j, k :: 0 <= j < k < |c| ==> c[j] != c[k]
  {
    forall j, k | 0 <= j < k < |c| ensures c[j] != c[k] {
      if c[j] == c[k] {
        ChainDrop(fat, first, c, j);
        ChainDrop(fat, first, c, k);
        ChainUnique(fat, c[j], c[j..], c[k..]);
        assert false;
      }
    }
  }

  // ----- who holds which block

  datatype Owner = Nobody | At(file: nat, pos: nat)

  /** The chains of all files, and for each block its place on them. */
  datatype Layout = Layout(chains: seq<Chain>, owners: seq<Owner>)

  predicate Holds(lay: Layout, i: nat, k: nat)
    requires i < |lay.chains| && k < |lay.chains[i]|
  {
    lay.chains[i][k] < |lay.owners| && lay.owners[lay.chains[i][k]] == At(i, k)
  }

  predicate OwnerOk(fat: seq<u32>, lay: Layout, b: nat)
    requires b < |fat| && b < |lay.owners|
  {
    match lay.owners[b]
    case Nobody => fat[b] == FAT_FREE
    case At(i, k) => fat[b] != FAT_FREE && i < |lay.chains| && k < |lay.chains[i]| && lay.chains[i][k] == b
  }

  /** Every block is either free or at exactly one place of one chain. */
  ghost predicate Owned(fat: seq<u32>, lay: Layout) {
    && |lay.owners| == |fat|
    && (forall i, k :: 0 <= i < |lay.chains| && 0 <= k < |lay.chains[i]| ==> Holds(lay, i, k))
    && (forall b :: 0 <= b < |fat| ==> OwnerOk(fat, lay, b))
  }

  ghost predicate EntryOk(fat: seq<u32>, entry: Entry, c: Chain) {
    if entry.used then IsChain(fat, entry.firstBlock, c) else c == []
  }

  ghost predicate LaidOut(fat: seq<u32>, dir: seq<Entry>, lay: Layout) {
    && FatFits(fat)
    && |lay.chains| == |dir|
    && Owned(fat, lay)
    && (forall i :: 0 <= i < |dir| ==> EntryOk(fat, dir[i], lay.chains[i]))
  }

  /** Chains of different files share no block, and a chain meets no block twice. */
  lemma ChainsDisjoint(fat: seq<u32>, dir: seq<Entry>, lay: Layout, i: nat, j: nat, k: nat, l: nat)
    requires LaidOut(fat, dir, lay)
    requires i < |dir| && k < |lay.chains[i]| && j < |dir| && l < |lay.chains[j]|
    ensures lay.chains[i][k] == lay.chains[j][l] ==> i == j && k == l
  {
    assert Holds(lay, i, k) && Holds(lay, j, l);
  }

  /** A block is in use exactly when some file's chain holds it. */
  lemma UsedIffOnChain(fat: seq<u32>, dir: seq<Entry>, lay: Layout, b: nat)
    requires LaidOut(fat, dir, lay) && b < |fat|
    ensures fat[b] != FAT_FREE <==> exists i, k :: 0 <= i < |dir| && 0 <= k < |lay.chains[i]| && lay.chains[i][k] == b
  {
    assert OwnerOk(fat, lay, b);
    if lay.owners[b].At? {
      assert lay.chains[lay.owners[b].file][lay.owners[b].pos] == b;
    }
    forall i, k | 0 <= i < |dir| && 0 <= k < |lay.chains[i]| && lay.chains[i][k] == b ensures fat[b] != FAT_FREE {
      assert Holds(lay, i, k);
    }
  }

  // ----- counting

  function CountFree(fat: seq<u32>): nat {
    if fat == [] then 0 else (if fat[0] == FAT_FREE then 1 else 0) + CountFree(fat[1..])
  }

  lemma {:induction false} CountUpdate(fat: seq<u32>, b: nat, x: u32)
    requires b < |fat|
    ensures CountFree(fat[b := x]) ==
            CountFree(fat) - (if fat[b] == FAT_FREE then 1 else 0) + if x == FAT_FREE then 1 else 0
  {
    if b == 0 {
      assert fat[0 := x][1..] == fat[1..];
    } else {
      assert fat[b := x][1..] == fat[1..][b - 1 := x];
      CountUpdate(fat[1..], b - 1, x);
    }
  }

  lemma {:induction false} CountNone(fat: seq<u32>)
    ensures CountFree(fat) == 0 <==> forall b :: 0 <= b < |fat| ==> fat[b] != FAT_FREE
    ensures CountFree(fat) <= |fat|
    ensures CountFree(fat) == |fat| <==> forall b :: 0 <= b < |fat| ==> fat[b] == FAT_FREE
  {
    if fat != [] {
      CountNone(fat[1..]);
      assert forall b :: 0 < b < |fat| ==> fat[b] == fat[1..][b - 1];
    }
  }

  function ChainBlocks(chains: seq<Chain>): nat {
    if chains == [] then 0 else |chains[0]| + ChainBlocks(chains[1..])
  }

  lemma {:induction false} ChainBlocksUpdate(chains: seq<Chain>, i: nat, c: Chain)
    requires i < |chains|
    ensures ChainBlocks(chains[i := c]) == ChainBlocks(chains) - |chains[i]| + |c|
    ensures |chains[i]| <= ChainBlocks(chains)
  {
    if i == 0 {
      assert chains[0 := c][1..] == chains[1..];
    } else {
      assert chains[i := c][1..] == chains[1..][i - 1 := c];
      ChainBlocksUpdate(chains[1..], i - 1, c);
    }
  }

  lemma {:induction false} NoChainBlocks(chains: seq<Chain>)
    requires forall i :: 0 <= i < |chains| ==> chains[i] == []
    ensures ChainBlocks(chains) == 0
  {
    if chains != [] {
      NoChainBlocks(chains[1..]);
    }
  }

  /** Free blocks plus the lengths of all chains make up the whole data area. */
  lemma {:induction false} BlocksAddUp(fat: seq<u32>, lay: Layout)
    requires Owned(fat, lay)
    ensures CountFree(fat) + ChainBlocks(lay.chains) == |fat|
    decreases ChainBlocks(lay.chains)
  {
    if i :| 0 <= i < |lay.chains| && lay.chains[i] != [] {
      var c := lay.chains[i];
      var last := |c| - 1;
      var b := c[last];
      assert Holds(lay, i, last) && OwnerOk(fat, lay, b);
      var fat' := fat[b := FAT_FREE];
      var lay' := Layout(lay.chains[i := c[..last]], lay.owners[b := Nobody]);
      CountUpdate(fat, b, FAT_FREE);
      ChainBlocksUpdate(lay.chains, i, c[..last]);
      assert Owned(fat', lay') by {
        forall j, k | 0 <= j < |lay'.chains| && 0 <= k < |lay'.chains[j]| ensures Holds(lay', j, k) {
          assert Holds(lay, j, k);
        }
        forall x | 0 <= x < |fat'| ensures OwnerOk(fat', lay', x) {
          assert OwnerOk(fat, lay, x);
        }
      }
      BlocksAddUp(fat', lay');
    } else {
      NoChainBlocks(lay.chains);
      forall b | 0 <= b < |fat| ensures fat[b] == FAT_FREE {
        assert OwnerOk(fat, lay, b);
      }
      CountNone(fat);
    }
  }

  lemma ChainFits(fat: seq<u32>, lay: Layout, i: nat)
    requires Owned(fat, lay) && i < |lay.chains|
    ensures |lay.chains[i]| + CountFree(fat) <= |fat|
  {
    BlocksAddUp(fat, lay);
    ChainBlocksUpdate(lay.chains, i, []);
  }

  // ----- growing and emptying a chain

  /** The FAT after a free block `b` was marked as an end and hung on the end of chain `c`. */
  function HangFat(fat: seq<u32>, c: Chain, b: nat): seq<u32>
    requires b < |fat| && b < U32_LIMIT && forall k :: 0 <= k < |c| ==> c[k] < |fat|
  {
    if c == [] then fat[b := FAT_END] else fat[b := FAT_END][c[|c| - 1] := b]
  }

  function HangEntry(entry: Entry, c: Chain, b: u32): Entry {
    if c == [] then entry.(firstBlock := b) else entry
  }

  function HangLayout(lay: Layout, i: nat, b: nat): Layout
    requires i < |lay.chains| && b < |lay.owners|
  {
    Layout(lay.chains[i := lay.chains[i] + [b]], lay.owners[b := At(i, |lay.chains[i]|)])
  }

  lemma ChainBounds(fat: seq<u32>, dir: seq<Entry>, lay: Layout, i: nat)
    requires LaidOut(fat, dir, lay) && i < |dir|
    ensures forall k :: 0 <= k < |lay.chains[i]| ==> lay.chains[i][k] < |fat|
  {
    forall k | 0 <= k < |lay.chains[i]| ensures lay.chains[i][k] < |fat| {
      assert Holds(lay, i, k);
    }
  }

  lemma HangOwned(fat: seq<u32>, dir: seq<Entry>, lay: Layout, i: nat, b: nat, fat': seq<u32>)
    requires LaidOut(fat, dir, lay) && i < |dir| && b < |fat| && fat[b] == FAT_FREE
    requires |fat'| == |fat| && forall x :: 0 <= x < |fat| ==> (fat'[x] == FAT_FREE <==> fat[x] == FAT_FREE && x != b)
    ensures Owned(fat', HangLayout(lay, i, b))
  {
    var lay' := HangLayout(lay, i, b);
    assert OwnerOk(fat, lay, b);
    forall j, k | 0 <= j < |lay'.chains| && 0 <= k < |lay'.chains[j]| ensures Holds(lay', j, k) {
      if k < |lay.chains[j]| {
        assert Holds(lay, j, k);
      }
    }
    forall x | 0 <= x < |fat'| ensures OwnerOk(fat', lay', x) {
      assert OwnerOk(fat, lay, x);
    }
  }

  /** The chain that grew is linked through its new block, and no other chain is disturbed. */
  lemma HangLinks(fat: seq<u32>, dir: seq<Entry>, lay: Layout, i: nat, b: nat, j: nat)
    requires LaidOut(fat, dir, lay) && i < |dir| && dir[i].used && b < |fat| && fat[b] == FAT_FREE && j < |dir|
    requires forall k :: 0 <= k < |lay.chains[i]| ==> lay.chains[i][k] < |fat|
    ensures EntryOk(HangFat(fat, lay.chains[i], b),
                    if j == i then HangEntry(dir[i], lay.chains[i], b) else dir[j],
                    HangLayout(lay, i, b).chains[j])
  {
    var c, n := lay.chains[i], |lay.chains[i]|;
    var fat', lay' := HangFat(fat, c, b), HangLayout(lay, i, b);
    assert OwnerOk(fat, lay, b);
    assert EntryOk(fat, dir[j], lay.chains[j]) && EntryOk(fat, dir[i], c);
    assert n > 0 ==> Holds(lay, i, n - 1);
    forall k | 0 <= k < |lay'.chains[j]| ensures LinkedAt(fat', lay'.chains[j], k) {
      if k < |lay.chains[j]| {
        assert LinkedAt(fat, lay.chains[j], k) && Holds(lay, j, k);
      }
    }
  }

  lemma HangCount(fat: seq<u32>, c: Chain, b: nat)
    requires b < |fat| < FAT_END && fat[b] == FAT_FREE && forall k :: 0 <= k < |c| ==> c[k] < |fat|
    requires c != [] ==> fat[c[|c| - 1]] != FAT_FREE
    ensures CountFree(HangFat(fat, c, b)) == CountFree(fat) - 1
  {
    CountUpdate(fat, b, FAT_END);
    if c != [] {
      CountUpdate(fat[b := FAT_END], c[|c| - 1], b);
    }
  }

  lemma HangKeepsLayout(fat: seq<u32>, dir: seq<Entry>, lay: Layout, i: nat, b: nat)
    requires LaidOut(fat, dir, lay) && i < |dir| && dir[i].used && b < |fat| && fat[b] == FAT_FREE
    ensures forall k :: 0 <= k < |lay.chains[i]| ==> lay.chains[i][k] < |fat|
    ensures LaidOut(HangFat(fat, lay.chains[i], b), dir[i := HangEntry(dir[i], lay.chains[i], b)],
                    HangLayout(lay, i, b))
    ensures CountFree(HangFat(fat, lay.chains[i], b)) == CountFree(fat) - 1
  {
    ChainBounds(fat, dir, lay, i);
    var c, n := lay.chains[i], |lay.chains[i]|;
    var fat', dir', lay' := HangFat(fat, c, b), dir[i := HangEntry(dir[i], c, b)], HangLayout(lay, i, b);
    if n > 0 {
      assert Holds(lay, i, n - 1) && OwnerOk(fat, lay, c[n - 1]);
    }
    HangCount(fat, c, b);
    HangOwned(fat, dir, lay, i, b, fat');
    hide EntryOk, Owned, CountFree;
    forall j | 0 <= j < |dir'| ensures EntryOk(fat', dir'[j], lay'.chains[j]) {
      HangLinks(fat, dir, lay, i, b, j);
    }
  }

  /** The FAT with every block of a chain marked free. */
  function FreeFat(fat: seq<u32>, c: Chain): (fat': seq<u32>)
    ensures |fat'| == |fat|
  {
    seq(|fat|, b requires 0 <= b < |fat| => if b in c then FAT_FREE else fat[b])
  }

  function FreeLayout(lay: Layout, i: nat): Layout
    requires i < |lay.chains|
  {
    Layout(lay.chains[i := []],
           seq(|lay.owners|, b requires 0 <= b < |lay.owners| => if b in lay.chains[i] then Nobody else lay.owners[b]))
  }

  lemma FreeOwned(fat: seq<u32>, lay: Layout, i: nat)
    requires Owned(fat, lay) && i < |lay.chains|
    ensures Owned(FreeFat(fat, lay.chains[i]), FreeLayout(lay, i))
    ensures forall j, k :: 0 <= j < |lay.chains| && j != i && 0 <= k < |lay.chains[j]| ==>
              lay.chains[j][k] !in lay.chains[i]
  {
    var c := lay.chains[i];
    var fat', lay' := FreeFat(fat, c), FreeLayout(lay, i);
    forall j, k | 0 <= j < |lay.chains| && j != i && 0 <= k < |lay.chains[j]| ensures lay.chains[j][k] !in c {
      assert Holds(lay, j, k);
      forall l | 0 <= l < |c| ensures c[l] != lay.chains[j][k] {
        assert Holds(lay, i, l);
      }
    }
    forall j, k | 0 <= j < |lay'.chains| && 0 <= k < |lay'.chains[j]| ensures Holds(lay', j, k) {
      assert Holds(lay, j, k);
    }
    forall x | 0 <= x < |fat'| ensures OwnerOk(fat', lay', x) {
      assert OwnerOk(fat, lay, x);
    }
  }

  lemma FreeKeepsLayout(fat: seq<u32>, dir: seq<Entry>, lay: Layout, i: nat)
    requires LaidOut(fat, dir, lay) && i < |dir| && dir[i].used
    ensures LaidOut(FreeFat(fat, lay.chains[i]), dir[i := dir[i].(firstBlock := FAT_END, sizeBytes := 0)],
                    FreeLayout(lay, i))
    ensures CountFree(FreeFat(fat, lay.chains[i])) == CountFree(fat) + |lay.chains[i]|
  {
    var c := lay.chains[i];
    var fat', lay' := FreeFat(fat, c), FreeLayout(lay, i);
    var dir' := dir[i := dir[i].(firstBlock := FAT_END, sizeBytes := 0)];
    FreeOwned(fat, lay, i);
    BlocksAddUp(fat, lay);
    BlocksAddUp(fat', lay');
    ChainBlocksUpdate(lay.chains, i, []);
    forall j | 0 <= j < |dir'| ensures EntryOk(fat', dir'[j], lay'.chains[j]) {
      assert EntryOk(fat, dir[j], lay.chains[j]);
      if j != i {
        forall k | 0 <= k < |lay.chains[j]| ensures LinkedAt(fat', lay.chains[j], k) {
          assert LinkedAt(fat, lay.chains[j], k);
        }
      }
    }
  }
}
