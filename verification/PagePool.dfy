/** Physical pages as a caller sees them: a range of page frames, some of them handed out. */
module PagePool {
  import opened Words

  const PAGE_SIZE: nat := 4096
  const MAX_PAGES: nat := 131072

  datatype Pool = Pool(start: nat, total: nat, live: set<nat>)

  predicate Ok(p: Pool) {
    p.start % PAGE_SIZE == 0 && forall i :: i in p.live ==> i < p.total
  }

  function Address(p: Pool, i: nat): nat {
    p.start + i * PAGE_SIZE
  }

  /** The lowest page number from `i` on that is not handed out, or `total`. */
  function LowestFree(total: nat, live: set<nat>, i: nat): (r: nat)
    requires i <= total
    ensures i <= r <= total
    ensures forall j :: i <= j < r ==> j in live
    ensures r < total ==> r !in live
    decreases total - i
  {
    if i == total || i !in live then i else LowestFree(total, live, i + 1)
  }

  lemma LowestIs(total: nat, live: set<nat>, i: nat)
    requires i < total && i !in live && forall j :: 0 <= j < i ==> j in live
    ensures LowestFree(total, live, 0) == i
  {
  }

  lemma AllLive(total: nat, live: set<nat>)
    requires forall j :: 0 <= j < total ==> j in live
    ensures LowestFree(total, live, 0) == total
  {
  }

  /** First fit. An address of 0 stands for failure. */
  function Take(p: Pool): (Pool, nat) {
    var i := LowestFree(p.total, p.live, 0);
    if i == p.total then (p, 0) else (p.(live := p.live + {i}), Address(p, i))
  }

  /** The page at an address: aligned, inside the range. */
  function PageAt(p: Pool, addr: nat): Option<nat> {
    if p.start <= addr < p.start + p.total * PAGE_SIZE && (addr - p.start) % PAGE_SIZE == 0
    then Some((addr - p.start) / PAGE_SIZE) else None
  }

  /** Only the address of a page that is out is taken back. */
  function Give(p: Pool, addr: nat): (Pool, bool) {
    match PageAt(p, addr)
    case Some(i) => if addr != 0 && i in p.live then (p.(live := p.live - {i}), true) else (p, false)
    case None => (p, false)
  }

  /** Only the address of a page that is out is taken back, and then just that page. */
  lemma GiveIff(p: Pool, addr: nat)
    ensures Give(p, addr).1 <==>
            addr != 0 && exists i :: 0 <= i < p.total && i in p.live && addr == p.start + i * PAGE_SIZE
    ensures forall i :: 0 <= i < p.total && Give(p, addr).1 && addr == p.start + i * PAGE_SIZE ==>
              Give(p, addr).0 == p.(live := p.live - {i})
    ensures !Give(p, addr).1 ==> Give(p, addr).0 == p
  {
    if exists i :: 0 <= i < p.total && i in p.live && addr == p.start + i * PAGE_SIZE {
      var i :| 0 <= i < p.total && i in p.live && addr == p.start + i * PAGE_SIZE;
      assert (addr - p.start) / PAGE_SIZE == i;
    }
    if Give(p, addr).1 {
      assert addr == p.start + PageAt(p, addr).value * PAGE_SIZE;
    }
  }

  // ----- single calls

  lemma TakenPage(p: Pool)
    requires Ok(p)
    ensures var (p', addr) := Take(p);
            var i := LowestFree(p.total, p.live, 0);
            && Ok(p')
            && (i < p.total ==>
                  && PageAt(p, addr) == Some(i) && addr % PAGE_SIZE == 0
                  && i !in p.live && p'.live == p.live + {i}
                  && forall j :: 0 <= j < p.total && j !in p.live ==> addr <= Address(p, j))
            && (i == p.total ==> p' == p && addr == 0 && |p.live| == p.total)
  {
    var i := LowestFree(p.total, p.live, 0);
    if i == p.total {
      FullCount(p.total, p.live);
    }
  }

  lemma {:induction false} FullCount(total: nat, live: set<nat>)
    requires forall j :: j in live <==> 0 <= j < total
    ensures |live| == total
  {
    if total > 0 {
      assert live == (live - {total - 1}) + {total - 1};
      FullCount(total - 1, live - {total - 1});
    } else {
      assert live == {};
    }
  }

  lemma {:induction false} LiveBound(total: nat, live: set<nat>)
    requires forall j :: j in live ==> j < total
    ensures |live| <= total
    ensures |live| == total ==> forall j :: 0 <= j < total ==> j in live
  {
    if total > 0 {
      LiveBound(total - 1, live - {total - 1});
      assert total - 1 in live ==> live == (live - {total - 1}) + {total - 1};
      assert total - 1 !in live ==> live == live - {total - 1};
    } else {
      assert live == {};
    }
  }

  /** Whether no page can be mistaken for a null answer any more: the page at address 0, if there is
      one, is out. */
  predicate NoNullPage(p: Pool) {
    0 < p.start || p.total == 0 || 0 in p.live
  }

  /** A null answer means that nothing is left, exactly as long as the page at address 0 cannot be
      the answer. */
  lemma NullMeansFullIff(p: Pool)
    requires Ok(p)
    ensures (Take(p).1 == 0 <==> |p.live| == p.total) <==> NoNullPage(p)
  {
    TakenPage(p);
    LiveBound(p.total, p.live);
  }

  /** The page at address 0, while it is free, is the next to be handed out: as null. It cannot be
      given back, and from then on a null answer means that nothing is left. */
  lemma PageZeroIsLost(p: Pool)
    requires Ok(p) && !NoNullPage(p)
    ensures var (p', addr) := Take(p);
            addr == 0 && p'.live == p.live + {0} && Give(p', addr) == (p', false) && NoNullPage(p')
  {
  }

  /** Giving back what was just taken undoes the call exactly when it was not that page, and giving
      back what is not out is refused. */
  lemma TakeGiveIff(p: Pool)
    requires Ok(p) && |p.live| < p.total
    ensures var (p1, addr) := Take(p);
            (Give(p1, addr) == (p, true) <==> NoNullPage(p)) && Give(p, addr) == (p, false)
  {
    TakenPage(p);
    LiveBound(p.total, p.live);
    var i := LowestFree(p.total, p.live, 0);
    assert p.live + {i} - {i} == p.live;
  }

  /** A page given back comes out again as soon as it is the lowest one free. */
  lemma GiveTake(p: Pool, addr: nat)
    requires Ok(p) && Give(p, addr).1
    requires forall j :: 0 <= j < p.total && j !in p.live ==> addr < Address(p, j)
    ensures Take(Give(p, addr).0) == (p, addr)
  {
    var p' := Give(p, addr).0;
    var i := PageAt(p, addr).value;
    var k := LowestFree(p'.total, p'.live, 0);
    assert forall j :: 0 <= j < i ==> Address(p, j) < Address(p, i);
    assert p'.live + {i} == p.live;
  }

  // ----- whole runs

  datatype Op = Alloc | Free(addr: nat)

  function Apply(p: Pool, op: Op): (Pool, nat) {
    match op
    case Alloc => Take(p)
    case Free(addr) => var (p', ok) := Give(p, addr); (p', if ok then addr else 0)
  }

  function Run(p: Pool, ops: seq<Op>): Pool
    decreases |ops|
  {
    if ops == [] then p else Run(Apply(p, ops[0]).0, ops[1..])
  }

  /** The addresses a caller holds after a run, told from the answers alone. */
  function Held(p: Pool, ops: seq<Op>, held: set<nat>): set<nat>
    decreases |ops|
  {
    if ops == [] then held
    else
      var (p', answer) := Apply(p, ops[0]);
      Held(p', ops[1..], if answer == 0 then held else if ops[0].Alloc? then held + {answer} else held - {answer})
  }

  function Addresses(p: Pool): set<nat> {
    set i | i in p.live :: Address(p, i)
  }

  /** Every address ever handed out is one the caller does not hold already. */
  predicate NeverTwice(p: Pool, ops: seq<Op>, held: set<nat>)
    decreases |ops|
  {
    ops == [] ||
    (var (p', answer) := Apply(p, ops[0]);
     && (ops[0].Alloc? && answer != 0 ==> answer !in held && answer % PAGE_SIZE == 0 && PageAt(p, answer).Some?)
     && NeverTwice(p', ops[1..], if answer == 0 then held else if ops[0].Alloc? then held + {answer}
                   else held - {answer}))
  }

  lemma ApplyAddresses(p: Pool, op: Op)
    requires Ok(p)
    ensures var (p', answer) := Apply(p, op);
            && Ok(p') && p'.start == p.start && p'.total == p.total
            && (op.Alloc? && answer != 0 ==>
                answer !in Addresses(p) && answer % PAGE_SIZE == 0 && PageAt(p, answer).Some?)
            && Addresses(p') == if answer != 0 && op.Alloc? then Addresses(p) + {answer}
                                else if answer != 0 then Addresses(p) - {answer}
                                else if op.Alloc? && !NoNullPage(p) then Addresses(p) + {0}
                                else Addresses(p)
  {
    var (p', answer) := Apply(p, op);
    TakenPage(p);
    if answer != 0 {
      var i := if op.Alloc? then LowestFree(p.total, p.live, 0) else PageAt(p, op.addr).value;
      assert answer == Address(p, i);
      ChangedAddresses(p, p', i);
    } else if op.Alloc? && !NoNullPage(p) {
      PageZeroIsLost(p);
      ChangedAddresses(p, p', 0);
    }
  }

  /** A page that goes out or comes back changes the addresses by its own. */
  lemma ChangedAddresses(p: Pool, p': Pool, i: nat)
    requires p'.start == p.start && (p'.live == p.live + {i} || p'.live == p.live - {i})
    ensures Addresses(p') == if i in p'.live then Addresses(p) + {Address(p, i)} else Addresses(p) - {Address(p, i)}
  {
    var a := Address(p, i);
    assert i in p'.live ==> a in Addresses(p');
    forall b | b in Addresses(p) && b != a ensures b in Addresses(p') {
      var j :| j in p.live && b == Address(p, j);
      assert j in p'.live && b == Address(p', j);
    }
    forall b | b in Addresses(p') && b != a ensures b in Addresses(p) {
      var j :| j in p'.live && b == Address(p', j);
      assert j in p.live && b == Address(p, j);
    }
    forall j | j in p'.live && Address(p', j) == a ensures j == i {
    }
  }

  /** What a run tells its caller, when the caller may have missed the page at address 0. */
  lemma {:induction false} RunTracks(p: Pool, ops: seq<Op>, held: set<nat>)
    requires Ok(p) && held <= Addresses(p) <= held + {0}
    ensures NeverTwice(p, ops, held) && Ok(Run(p, ops))
    ensures Held(p, ops, held) - {0} == Addresses(Run(p, ops)) - {0}
    ensures 0 in Held(p, ops, held) <==> 0 in held
    ensures 0 in Addresses(Run(p, ops)) <==> 0 in Addresses(p) || (!NoNullPage(p) && Alloc in ops)
    decreases |ops|
  {
    if ops != [] {
      ApplyAddresses(p, ops[0]);
      var (p', answer) := Apply(p, ops[0]);
      var held' := if answer == 0 then held else if ops[0].Alloc? then held + {answer} else held - {answer};
      ZeroAddress(p);
      ZeroAddress(p');
      RunTracks(p', ops[1..], held');
      hide Apply, Addresses, NoNullPage, Ok;
      assert Alloc in ops <==> ops[0] == Alloc || Alloc in ops[1..];
    }
  }

  lemma ZeroAddress(p: Pool)
    requires Ok(p)
    ensures 0 in Addresses(p) <==> p.start == 0 && 0 in p.live
    ensures 0 in Addresses(p) ==> NoNullPage(p)
  {
    if p.start == 0 && 0 in p.live {
      assert Address(p, 0) == 0;
    }
  }

  /** In every run, pages are handed out to one holder at a time. The pages marked live are those
      held exactly when no call could hand out the page at address 0. */
  lemma RunNeverTwice(p: Pool, ops: seq<Op>)
    requires Ok(p)
    ensures NeverTwice(p, ops, Addresses(p)) && Ok(Run(p, ops))
    ensures Addresses(Run(p, ops)) == Held(p, ops, Addresses(p)) <==> NoNullPage(p) || Alloc !in ops
    ensures Addresses(Run(p, ops)) - {0} == Held(p, ops, Addresses(p)) - {0}
  {
    RunTracks(p, ops, Addresses(p));
    ZeroAddress(p);
    hide NoNullPage, Held, Run, Addresses;
    var held, live := Held(p, ops, Addresses(p)), Addresses(Run(p, ops));
    assert forall a :: a != 0 ==> (a in held <==> a in held - {0}) && (a in live <==> a in live - {0});
  }
}
