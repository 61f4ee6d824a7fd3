/** The bitmap allocator with its roving hint. */
module PageAllocator {
  import opened Words
  import opened BitWords
  import opened PagePool

  function AlignUp(addr: u64): u64 {
    (addr + (PAGE_SIZE - 1)) % U64_LIMIT / PAGE_SIZE * PAGE_SIZE
  }

  function AlignDown(addr: u64): u64 {
    addr / PAGE_SIZE * PAGE_SIZE
  }

  /** The pool a range of addresses gives. */
  function PoolOf(start: u64, end: u64): Pool {
    var first, last := AlignUp(start), AlignDown(end);
    if last <= first then Pool(0, 0, {})
    else Pool(first, Min((last - first) / PAGE_SIZE, MAX_PAGES), {})
  }

  /** The pages lie inside the range asked for exactly when rounding its start up does not wrap
      around, or nothing lies below its end. */
  lemma PoolInsideIff(start: u64, end: u64)
    ensures Ok(PoolOf(start, end))
    ensures (var p := PoolOf(start, end); p.total > 0 ==> start <= p.start && p.start + p.total * PAGE_SIZE <= end) <==>
            start + (PAGE_SIZE - 1) < U64_LIMIT || end < PAGE_SIZE
  {
  }

  /** No whole page of the range is left out, unless the pool holds as many as it may; then those
      left out lie behind it. */
  lemma PoolHoldsAll(start: u64, end: u64, addr: nat)
    requires addr % PAGE_SIZE == 0 && start <= addr && addr + PAGE_SIZE <= end
    ensures var p := PoolOf(start, end);
            PageAt(p, addr).Some? || (p.total == MAX_PAGES && p.start + p.total * PAGE_SIZE <= addr)
  {
    var first, last := AlignUp(start), AlignDown(end);
    assert first <= addr && addr + PAGE_SIZE <= last;
    assert first % PAGE_SIZE == 0 && last % PAGE_SIZE == 0;
    var pages := (last - first) / PAGE_SIZE;
    assert first + pages * PAGE_SIZE == last;
  }

  /** A range in the last page of the address space wraps to a pool from address 0 on. */
  lemma PoolWraps()
    ensures var p := PoolOf(U64_LIMIT - 1, U64_LIMIT - 1); p.start == 0 && p.total == MAX_PAGES
  {
  }

  /** Once round the range. */
  function Wrap(x: nat, n: nat): nat
    requires 0 < n
  {
    x % n
  }

  lemma WrapIs(x: nat, n: nat)
    requires 0 < n && x < 2 * n
    ensures Wrap(x, n) == if x < n then x else x - n
  {
    if x >= n {
      assert (x - n) % n == x - n;
    }
  }

  class PageAlloc {
    var rangeStart: nat
    var rangeEnd: nat
    var totalPages: nat
    var freePages: nat
    var nextHint: nat
    const bitmap: array<bv64>

    predicate Taken(i: nat)
      requires i / 64 < bitmap.Length
      reads bitmap
    {
      TestBit(bitmap[..], i)
    }

    /** The pages below a bound whose bits are set. */
    ghost function Live(total: nat): (live: set<nat>)
      requires total <= bitmap.Length * 64
      reads bitmap
      ensures forall i :: i in live <==> 0 <= i < total && Taken(i)
    {
      set i | 0 <= i < total && Taken(i)
    }

    /** The hint never has a free page below it, which is what makes the roving scan first fit. */
    ghost predicate Valid()
      reads this, bitmap
    {
      && bitmap.Length * 64 == MAX_PAGES
      && totalPages <= MAX_PAGES
      && rangeStart % PAGE_SIZE == 0
      && rangeEnd == rangeStart + totalPages * PAGE_SIZE
      && (nextHint == 0 || nextHint < totalPages)
      && (forall i :: 0 <= i < nextHint ==> i in Live(totalPages))
      && freePages + |Live(totalPages)| == totalPages
    }

    ghost function View(): (p: Pool)
      requires Valid()
      reads this, bitmap
      ensures Ok(p)
    {
      Pool(rangeStart, totalPages, Live(totalPages))
    }

    constructor Init(start: u64, end: u64)
      ensures Valid() && View() == PoolOf(start, end)
    {
      var first := AlignUp(start);
      var last := AlignDown(end);
      bitmap := new bv64[MAX_PAGES / 64](_ => 0);
      rangeStart, rangeEnd, totalPages, freePages, nextHint := 0, 0, 0, 0, 0;
      if last > first {
        var pages := (last - first) / PAGE_SIZE;
        if pages > MAX_PAGES {
          pages := MAX_PAGES;
          last := first + pages * PAGE_SIZE;
        }
        totalPages := pages;
        rangeStart := first;
        rangeEnd := last;
        freePages := pages;
      }
      new;
      hide TestBit, AlignUp, AlignDown;
      forall i | 0 <= i < totalPages ensures !Taken(i) {
        NoBits(bitmap[..], i);
      }
      assert Live(totalPages) == {};
    }

    method BitmapSet(index: nat)
      requires index / 64 < bitmap.Length
      modifies bitmap
      ensures forall j :: 0 <= j < bitmap.Length * 64 ==> (Taken(j) <==> j == index || old(Taken(j)))
    {
      hide Mask, With, Without;
      ghost var words := bitmap[..];
      bitmap[index / 64] := With(bitmap[index / 64], Mask(index % 64));
      assert bitmap[..] == SetBit(words, index);
      hide SetBit, TestBit;
      forall j | 0 <= j < bitmap.Length * 64 ensures Taken(j) <==> j == index || TestBit(words, j) {
        BitsIndependent(words, index, j);
      }
    }

    method BitmapClear(index: nat)
      requires index / 64 < bitmap.Length
      modifies bitmap
      ensures forall j :: 0 <= j < bitmap.Length * 64 ==> (Taken(j) <==> j != index && old(Taken(j)))
    {
      hide Mask, With, Without;
      ghost var words := bitmap[..];
      bitmap[index / 64] := Without(bitmap[index / 64], Mask(index % 64));
      assert bitmap[..] == ClearBit(words, index);
      hide ClearBit, TestBit;
      forall j | 0 <= j < bitmap.Length * 64 ensures Taken(j) <==> j != index && TestBit(words, j) {
        BitsIndependent(words, index, j);
      }
    }

    /** Mark the lowest free page as taken and move the hint past it. */
    method HandOut(index: nat)
      requires Valid() && index < totalPages && index == LowestFree(totalPages, View().live, 0)
      modifies this`freePages, this`nextHint, bitmap
      ensures Valid() && View() == old(View()).(live := old(View()).live + {index})
    {
      hide Taken, Wrap, Live;
      ghost var live := Live(totalPages);
      LiveBound(totalPages, live);
      BitmapSet(index);
      assert Live(totalPages) == live + {index};
      freePages := freePages - 1;
      WrapIs(index + 1, totalPages);
      nextHint := Wrap(index + 1, totalPages);
    }

    method Alloc() returns (addr: nat)
      requires Valid()
      modifies this`freePages, this`nextHint, bitmap
      ensures Valid() && View() == Take(old(View())).0 && addr == Take(old(View())).1
      ensures old(freePages) == 0 ==> addr == 0
    {
      hide Taken, Wrap, Live, LowestFree;
      ghost var p := View();
      TakenPage(p);
      LiveBound(totalPages, p.live);
      addr := 0;
      if freePages == 0 {
        AllLive(totalPages, p.live);
        return;
      }
      var scanned := 0;
      while scanned < totalPages
        invariant 0 <= scanned <= totalPages && addr == 0 && Valid() && View() == p && freePages == old(freePages)
        invariant forall i :: 0 <= i < Min(nextHint + scanned, totalPages) ==> i in p.live
      {
        WrapIs(nextHint + scanned, totalPages);
        var index := Wrap(nextHint + scanned, totalPages);
        if !Taken(index) {
          LowestIs(totalPages, p.live, index);
          HandOut(index);
          addr := rangeStart + index * PAGE_SIZE;
          return;
        }
        scanned := scanned + 1;
      }
      AllLive(totalPages, p.live);
    }

    method PageIndexFromAddr(addr: nat) returns (index: Option<nat>)
      requires Valid()
      ensures index == PageAt(View(), addr)
      ensures index.Some? ==> index.value < totalPages
    {
      if addr < rangeStart || addr >= rangeEnd {
        return None;
      }
      var delta := addr - rangeStart;
      if delta % PAGE_SIZE != 0 {
        return None;
      }
      var i := delta / PAGE_SIZE;
      if i >= totalPages {
        return None;
      }
      return Some(i);
    }

    method Free(addr: nat) returns (ok: bool)
      requires Valid()
      modifies this`freePages, this`nextHint, bitmap
      ensures Valid() && View() == Give(old(View()), addr).0 && ok == Give(old(View()), addr).1
      ensures !ok ==> unchanged(this) && unchanged(bitmap)
    {
      hide Taken, Live;
      if addr == 0 {
        return false;
      }
      var found := PageIndexFromAddr(addr);
      if found.None? {
        return false;
      }
      var index := found.value;
      if !Taken(index) {
        return false;
      }
      ghost var live := Live(totalPages);
      BitmapClear(index);
      assert index in live && Live(totalPages) == live - {index};
      freePages := freePages + 1;
      LiveBound(totalPages, live);
      if index < nextHint || freePages == 1 {
        nextHint := index;
      }
      return true;
    }
  }
}
