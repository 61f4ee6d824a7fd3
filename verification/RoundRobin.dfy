/** The task table and the run queue as values, and what a timer interrupt does to them. */
module RoundRobin {
  import opened Words

  const MAX_TASKS: nat := 8

  datatype TaskState = Unused | Runnable | Running

  datatype Task = Task(id: u32, state: TaskState, runCount: u64, switchesIn: u64, switchesOut: u64,
                       lastPc: u64, lastCause: u64)

  datatype Frame = Frame(pc: u64, cause: u64)

  /** An interrupt: the trap frame, if any, and the state in which the task's entry leaves the task
      (`Running` when it leaves the task table alone). */
  datatype Interrupt = Interrupt(frame: Option<Frame>, leaves: TaskState)

  datatype State = State(tasks: seq<Task>, queue: seq<u32>, slot: Option<nat>, running: bool)

  function Next64(x: u64): u64 {
    (x + 1) % U64_LIMIT
  }

  predicate Valid(s: State) {
    && |s.tasks| == MAX_TASKS && |s.queue| <= MAX_TASKS
    && (forall i :: 0 <= i < MAX_TASKS ==> s.tasks[i].id == i + 1)
    && (s.slot.Some? ==> s.slot.value < |s.queue|)
  }

  // ----- one interrupt

  function FindTask(tasks: seq<Task>, id: u32): (r: Option<nat>)
    ensures r.Some? ==> r.value < |tasks| && tasks[r.value].id == id && tasks[r.value].state != Unused
    ensures r.None? ==> forall i :: 0 <= i < |tasks| ==> tasks[i].id != id || tasks[i].state == Unused
    ensures r.Some? ==> forall i :: 0 <= i < r.value ==> tasks[i].id != id || tasks[i].state == Unused
  {
    FindTaskFrom(tasks, id, 0)
  }

  function FindTaskFrom(tasks: seq<Task>, id: u32, from: nat): (r: Option<nat>)
    requires from <= |tasks|
    ensures r.Some? ==> from <= r.value < |tasks| && tasks[r.value].id == id && tasks[r.value].state != Unused
    ensures r.None? ==> forall i :: from <= i < |tasks| ==> tasks[i].id != id || tasks[i].state == Unused
    ensures r.Some? ==> forall i :: from <= i < r.value ==> tasks[i].id != id || tasks[i].state == Unused
    decreases |tasks| - from
  {
    if from == |tasks| then None
    else if tasks[from].id == id && tasks[from].state != Unused then Some(from)
    else FindTaskFrom(tasks, id, from + 1)
  }

  function TaskAt(s: State, slot: Option<nat>): (r: Option<nat>)
    ensures r.Some? ==> r.value < |s.tasks|
  {
    if slot.None? || slot.value >= |s.queue| then None else FindTask(s.tasks, s.queue[slot.value])
  }

  function Stamped(t: Task, frame: Option<Frame>): Task {
    if frame.None? then t else t.(lastPc := frame.value.pc, lastCause := frame.value.cause)
  }

  function SwitchedOut(t: Task, frame: Option<Frame>): Task {
    Stamped(t.(switchesOut := Next64(t.switchesOut), state := if t.state == Running then Runnable else t.state), frame)
  }

  function SwitchedIn(t: Task, frame: Option<Frame>): Task {
    Stamped(t.(switchesIn := Next64(t.switchesIn), state := Running), frame)
  }

  function StartSlot(s: State): nat {
    if s.slot.None? || s.slot.value + 1 >= |s.queue| then 0 else s.slot.value + 1
  }

  /** The slot some places after another, around the end of the queue. */
  function Around(start: nat, offset: nat, count: nat): nat {
    if start + offset >= count then start + offset - count else start + offset
  }

  predicate CanRun(s: State, slot: nat) {
    TaskAt(s, Some(slot)).Some? && s.tasks[TaskAt(s, Some(slot)).value].state == Runnable
  }

  /** The first slot after the current one, around the queue, whose task can run. */
  function NextSlot(s: State): (r: Option<nat>)
    ensures r.Some? ==> r.value < |s.queue| && CanRun(s, r.value)
  {
    if |s.queue| == 0 then None else NextSlotFrom(s, 0)
  }

  function NextSlotFrom(s: State, offset: nat): (r: Option<nat>)
    requires StartSlot(s) < |s.queue| && offset <= |s.queue|
    ensures r.Some? ==> r.value < |s.queue| && CanRun(s, r.value)
    decreases |s.queue| - offset
  {
    if offset == |s.queue| then None
    else if CanRun(s, Around(StartSlot(s), offset, |s.queue|)) then Some(Around(StartSlot(s), offset, |s.queue|))
    else NextSlotFrom(s, offset + 1)
  }

  /** The current task is switched out. */
  function Outgoing(s: State, frame: Option<Frame>): State {
    var current := TaskAt(s, s.slot);
    if current.None? then s
    else s.(tasks := s.tasks[current.value := SwitchedOut(s.tasks[current.value], frame)])
  }

  /** The task of a slot is switched in, counted, run, and made runnable again. */
  function Ran(t: Task, interrupt: Interrupt): Task {
    var started := SwitchedIn(t, interrupt.frame).(runCount := Next64(t.runCount));
    started.(state := if interrupt.leaves == Running then Runnable else interrupt.leaves)
  }

  function Incoming(s: State, interrupt: Interrupt): State {
    match NextSlot(s)
    case None => s
    case Some(slot) =>
      var i := TaskAt(s, Some(slot)).value;
      s.(slot := Some(slot), tasks := s.tasks[i := Ran(s.tasks[i], interrupt)])
  }

  function Tick(s: State, interrupt: Interrupt): State {
    if !s.running || |s.queue| == 0 then s else Incoming(Outgoing(s, interrupt.frame), interrupt)
  }

  function Run(s: State, interrupts: seq<Interrupt>): State
    decreases |interrupts|
  {
    if interrupts == [] then s
    else Tick(Run(s, interrupts[..|interrupts| - 1]), interrupts[|interrupts| - 1])
  }

  // ----- what every interrupt keeps

  /** Between interrupts no task is left running. */
  predicate Quiet(s: State) {
    forall i :: 0 <= i < |s.tasks| ==> s.tasks[i].state != Running
  }

  /** Every run and every switch in were counted together. */
  predicate Counted(s: State) {
    forall i :: 0 <= i < |s.tasks| ==> s.tasks[i].runCount == s.tasks[i].switchesIn
  }

  lemma TickKeeps(s: State, interrupt: Interrupt)
    requires Valid(s)
    ensures Valid(Tick(s, interrupt)) && Tick(s, interrupt).queue == s.queue && Tick(s, interrupt).running == s.running
    ensures Quiet(s) ==> Quiet(Tick(s, interrupt))
    ensures Counted(s) ==> Counted(Tick(s, interrupt))
  {
    hide FindTaskFrom, NextSlotFrom;
  }

  lemma {:induction false} RunKeeps(s: State, interrupts: seq<Interrupt>)
    requires Valid(s)
    ensures Valid(Run(s, interrupts)) && Run(s, interrupts).queue == s.queue && Run(s, interrupts).running == s.running
    ensures Quiet(s) ==> Quiet(Run(s, interrupts))
    ensures Counted(s) ==> Counted(Run(s, interrupts))
    decreases |interrupts|
  {
    if interrupts != [] {
      var n := |interrupts| - 1;
      RunKeeps(s, interrupts[..n]);
      TickKeeps(Run(s, interrupts[..n]), interrupts[n]);
      hide Valid, Quiet, Counted, Tick;
    }
  }

  // ----- who runs next

  /** The queue's entries are different tasks. */
  predicate Different(s: State) {
    forall i, j :: 0 <= i < j < |s.queue| ==> s.queue[i] != s.queue[j]
  }

  /** How many slots after the start one comes up. */
  function Distance(s: State, slot: nat): nat
    requires slot < |s.queue| && StartSlot(s) < |s.queue|
  {
    if slot >= StartSlot(s) then slot - StartSlot(s) else slot + |s.queue| - StartSlot(s)
  }

  lemma AroundDistance(s: State, offset: nat)
    requires StartSlot(s) < |s.queue| && offset < |s.queue|
    ensures Around(StartSlot(s), offset, |s.queue|) < |s.queue|
    ensures Distance(s, Around(StartSlot(s), offset, |s.queue|)) == offset
  {
  }

  /** No slot that can run is passed over. */
  lemma {:induction false} NextSlotFirst(s: State, offset: nat, slot: nat)
    requires StartSlot(s) < |s.queue| && slot < |s.queue| && offset <= Distance(s, slot) && CanRun(s, slot)
    ensures NextSlotFrom(s, offset).Some?
    ensures offset <= Distance(s, NextSlotFrom(s, offset).value) <= Distance(s, slot)
    decreases |s.queue| - offset
  {
    AroundDistance(s, offset);
    if !CanRun(s, Around(StartSlot(s), offset, |s.queue|)) {
      NextSlotFirst(s, offset + 1, slot);
    }
  }

  lemma FindIs(s: State, id: u32)
    requires Valid(s)
    ensures FindTask(s.tasks, id) == if 1 <= id <= MAX_TASKS && s.tasks[id - 1].state != Unused then Some(id - 1)
            else None
  {
  }

  /** In a quiet state a slot can run exactly when its task is in use. */
  lemma CanRunIs(s: State, slot: nat)
    requires Valid(s) && slot < |s.queue|
    ensures CanRun(s, slot) <==> 1 <= s.queue[slot] <= MAX_TASKS && s.tasks[s.queue[slot] - 1].state == Runnable
    ensures CanRun(s, slot) ==> TaskAt(s, Some(slot)) == Some(s.queue[slot] - 1)
  {
    FindIs(s, s.queue[slot]);
  }

  lemma OutgoingKeeps(s: State, frame: Option<Frame>, slot: nat)
    requires Valid(s) && Quiet(s) && slot < |s.queue|
    ensures var o := Outgoing(s, frame);
            && Valid(o) && Quiet(o) && o.queue == s.queue && o.slot == s.slot && o.running == s.running
            && (CanRun(o, slot) <==> CanRun(s, slot))
            && (forall i :: 0 <= i < MAX_TASKS && TaskAt(s, s.slot) != Some(i) ==> o.tasks[i] == s.tasks[i])
  {
    hide FindTaskFrom, FindTask;
    CanRunIs(s, slot);
    CanRunIs(Outgoing(s, frame), slot);
  }

  /** A slot whose task can run waits: either it runs now, or it is closer to the front of the line. */
  lemma Closer(s: State, interrupt: Interrupt, slot: nat)
    requires Valid(s) && Quiet(s) && Different(s) && s.running && slot < |s.queue| && CanRun(s, slot)
    ensures var t := Tick(s, interrupt);
            t.slot.Some? && (t.slot.value != slot ==> CanRun(t, slot) && Distance(t, slot) < Distance(s, slot))
  {
    var o := Outgoing(s, interrupt.frame);
    OutgoingKeeps(s, interrupt.frame, slot);
    assert StartSlot(o) == StartSlot(s) < |s.queue|;
    NextSlotFirst(o, 0, slot);
    assert NextSlot(o) == NextSlotFrom(o, 0);
    TickIs(s, interrupt);
    TickKeeps(s, interrupt);
    hide *;
    var next, t := NextSlot(o).value, Tick(s, interrupt);
    DistanceOf(o, s, next);
    DistanceOf(o, s, slot);
    if next != slot {
      DistanceDrops(s, t, next, slot);
      StaysReady(s, o, t, next, slot, Ran(o.tasks[o.queue[next] - 1], interrupt));
    }
  }

  lemma DistanceOf(s: State, t: State, slot: nat)
    requires s.queue == t.queue && s.slot == t.slot && slot < |s.queue| && StartSlot(s) < |s.queue|
    ensures StartSlot(t) == StartSlot(s) && Distance(t, slot) == Distance(s, slot)
  {
  }

  /** Running one task leaves the others able to run. */
  lemma StaysReady(s: State, o: State, t: State, next: nat, slot: nat, ran: Task)
    requires Valid(o) && Valid(t) && Different(s) && s.queue == o.queue == t.queue
    requires next < |s.queue| && slot < |s.queue| && next != slot && CanRun(o, slot)
    requires 0 <= s.queue[next] - 1 < |o.tasks| && t.tasks == o.tasks[s.queue[next] - 1 := ran]
    ensures CanRun(t, slot)
  {
    CanRunIs(o, slot);
    CanRunIs(t, slot);
    hide CanRun, TaskAt;
    assert s.queue[next] != s.queue[slot];
  }

  lemma TickIs(s: State, interrupt: Interrupt)
    requires Valid(s) && s.running && NextSlot(Outgoing(s, interrupt.frame)).Some?
    ensures var o := Outgoing(s, interrupt.frame);
            var next := NextSlot(o).value;
            var i := o.queue[next] - 1;
            && o.queue == s.queue && 0 <= i < |o.tasks|
            && Tick(s, interrupt) == o.(slot := Some(next), tasks := o.tasks[i := Ran(o.tasks[i], interrupt)])
  {
    var o := Outgoing(s, interrupt.frame);
    hide FindTaskFrom, NextSlotFrom, NextSlot;
    var next := NextSlot(o).value;
    assert Valid(o);
    CanRunIs(o, next);
    hide Outgoing, FindTask;
  }

  lemma DistanceDrops(s: State, t: State, next: nat, slot: nat)
    requires |s.queue| == |t.queue| && t.slot == Some(next) && next < |s.queue| && slot < |s.queue| && next != slot
    requires StartSlot(s) < |s.queue| && Distance(s, next) <= Distance(s, slot)
    ensures StartSlot(t) < |t.queue| && Distance(t, slot) < Distance(s, slot)
  {
  }

  /** Who runs and what it is marked with: the task of the new slot was ready, and it holds the pc and
      the cause of the interrupt's frame; without a frame it holds those it had. */
  lemma TickMarks(s: State, interrupt: Interrupt)
    requires Valid(s) && s.running && NextSlot(Outgoing(s, interrupt.frame)).Some?
    ensures var o, r := Outgoing(s, interrupt.frame), Tick(s, interrupt);
            && r.slot.Some? && r.slot.value < |s.queue|
            && var i := s.queue[r.slot.value] - 1;
               && 0 <= i < |o.tasks| == |r.tasks| && o.tasks[i].state == Runnable
               && r.tasks[i].state == (if interrupt.leaves == Running then Runnable else interrupt.leaves)
               && r.tasks[i].runCount == (o.tasks[i].runCount + 1) % U64_LIMIT
               && r.tasks[i].switchesIn == (o.tasks[i].switchesIn + 1) % U64_LIMIT
               && (forall j :: 0 <= j < |r.tasks| && j != i ==> r.tasks[j] == o.tasks[j])
               && (match interrupt.frame
                   case Some(f) => r.tasks[i].lastPc == f.pc && r.tasks[i].lastCause == f.cause
                   case None => r.tasks[i].lastPc == s.tasks[i].lastPc && r.tasks[i].lastCause == s.tasks[i].lastCause)
  {
    TickIs(s, interrupt);
    CanRunIs(Outgoing(s, interrupt.frame), NextSlot(Outgoing(s, interrupt.frame)).value);
    hide FindTaskFrom, NextSlotFrom, NextSlot, Tick;
  }

  /** The task that was current is marked with the frame too, and is ready again if it was running;
      no other task changes before the next one is chosen. */
  lemma OutgoingMarks(s: State, frame: Option<Frame>)
    requires Valid(s)
    ensures var o, current := Outgoing(s, frame), TaskAt(s, s.slot);
            && |o.tasks| == |s.tasks|
            && (forall i :: 0 <= i < |s.tasks| && current != Some(i) ==> o.tasks[i] == s.tasks[i])
            && (current.Some? ==>
                  var was, now := s.tasks[current.value], o.tasks[current.value];
                  && now.state == (if was.state == Running then Runnable else was.state)
                  && now.switchesOut == (was.switchesOut + 1) % U64_LIMIT && now.runCount == was.runCount
                  && (frame.Some? ==> now.lastPc == frame.value.pc && now.lastCause == frame.value.cause)
                  && (frame.None? ==> now.lastPc == was.lastPc && now.lastCause == was.lastCause))
  {
    hide FindTaskFrom;
  }

  /** A task that can run waits for at most as many interrupts as there are slots, whatever the
      other tasks do to themselves in the meantime. */
  lemma {:induction false} Waits(s: State, interrupts: seq<Interrupt>, slot: nat) returns (n: nat)
    requires Valid(s) && Quiet(s) && Different(s) && s.running && slot < |s.queue| && CanRun(s, slot)
    requires Distance(s, slot) < |interrupts|
    ensures n <= Distance(s, slot) && Run(s, interrupts[..n + 1]).slot == Some(slot)
    decreases Distance(s, slot)
  {
    var t := Tick(s, interrupts[0]);
    Closer(s, interrupts[0], slot);
    assert interrupts[..1] == [interrupts[0]];
    RunFirst(s, interrupts[..1]);
    if t.slot == Some(slot) {
      n := 0;
    } else {
      TickKeeps(s, interrupts[0]);
      hide Valid, Quiet, Tick, CanRun;
      var m := Waits(t, interrupts[1..], slot);
      n := m + 1;
      assert interrupts[..n + 1][1..] == interrupts[1..][..m + 1];
      RunFirst(s, interrupts[..n + 1]);
    }
  }

  lemma {:induction false} RunFirst(s: State, interrupts: seq<Interrupt>)
    requires interrupts != []
    ensures Run(s, interrupts) == Run(Tick(s, interrupts[0]), interrupts[1..])
    decreases |interrupts|
  {
    var n := |interrupts| - 1;
    if n > 0 {
      RunFirst(s, interrupts[..n]);
      assert interrupts[..n][1..] == interrupts[1..][..n - 1];
    } else {
      assert interrupts[..0] == [] == interrupts[1..];
    }
  }

  /** No task waits forever: in any run of as many interrupts as there are slots, each slot whose
      task can run at the start gets its turn. */
  lemma NobodyStarves(s: State, interrupts: seq<Interrupt>, slot: nat)
    requires Valid(s) && Quiet(s) && Different(s) && s.running && slot < |s.queue| && CanRun(s, slot)
    requires |interrupts| >= |s.queue|
    ensures exists n :: 0 < n <= |s.queue| && Run(s, interrupts[..n]).slot == Some(slot)
  {
    var n := Waits(s, interrupts, slot);
    assert Run(s, interrupts[..n + 1]).slot == Some(slot);
  }

  // ----- equal shares

  /** Every slot of the queue holds a different task that can run. */
  predicate AllReady(s: State) {
    Valid(s) && Quiet(s) && Different(s) && s.running && s.queue != [] && forall j :: 0 <= j < |s.queue| ==>
      CanRun(s, j)
  }

  function TaskOf(s: State, slot: nat): (t: Task)
    requires AllReady(s) && slot < |s.queue|
  {
    CanRunIs(s, slot);
    s.tasks[s.queue[slot] - 1]
  }

  predicate Idle(s: State, i: nat) {
    forall j :: 0 <= j < |s.queue| ==> s.queue[j] != i + 1
  }

  /** The slot after the current one had a run, the current one was switched out. */
  predicate Turned(s: State, t: State) {
    && AllReady(s) && AllReady(t) && t.queue == s.queue && t.slot == Some(StartSlot(s))
    && (forall j :: 0 <= j < |s.queue| ==> TaskTurned(s, TaskOf(s, j), TaskOf(t, j), j))
    && (forall i :: 0 <= i < MAX_TASKS && Idle(s, i) ==> t.tasks[i] == s.tasks[i])
  }

  predicate TaskTurned(s: State, was: Task, now: Task, slot: nat) {
    && now.runCount == (if slot == StartSlot(s) then Next64(was.runCount) else was.runCount)
    && now.switchesIn == (if slot == StartSlot(s) then Next64(was.switchesIn) else was.switchesIn)
    && now.switchesOut == (if s.slot == Some(slot) then Next64(was.switchesOut) else was.switchesOut)
  }

  lemma TickTurn(s: State, interrupt: Interrupt)
    requires AllReady(s) && interrupt.leaves == Running
    ensures Turned(s, Tick(s, interrupt))
  {
    var o, t, start := Outgoing(s, interrupt.frame), Tick(s, interrupt), StartSlot(s);
    assert CanRun(s, start);
    OutgoingKeeps(s, interrupt.frame, start);
    NextSlotFirst(o, 0, start);
    assert NextSlot(o) == Some(start) by {
      hide FindTask, FindTaskFrom, CanRun;
    }
    TickIs(s, interrupt);
    OutgoingIs(s, interrupt.frame);
    ReadyTasks(s);
    TickKeeps(s, interrupt);
    hide *;
    StillReady(s, o, t, start, interrupt);
    TasksTurned(s, o, t, start, interrupt);
  }

  /** The tasks of a ready queue are in use, and different. */
  lemma ReadyTasks(s: State)
    requires AllReady(s)
    ensures Valid(s) && Different(s) && forall j :: 0 <= j < |s.queue| ==> 1 <= s.queue[j] <= MAX_TASKS && CanRun(s, j)
    ensures StartSlot(s) < |s.queue|
  {
    forall j | 0 <= j < |s.queue| ensures 1 <= s.queue[j] <= MAX_TASKS {
      CanRunIs(s, j);
    }
  }

  function OutTasks(s: State, frame: Option<Frame>): seq<Task>
    requires Valid(s)
  {
    if s.slot.None? || !(1 <= s.queue[s.slot.value] <= MAX_TASKS) then s.tasks
    else s.tasks[s.queue[s.slot.value] - 1 := SwitchedOut(s.tasks[s.queue[s.slot.value] - 1], frame)]
  }

  lemma OutgoingIs(s: State, frame: Option<Frame>)
    requires AllReady(s)
    ensures Outgoing(s, frame).tasks == OutTasks(s, frame)
  {
    if s.slot.Some? {
      CanRunIs(s, s.slot.value);
      hide FindTask, FindTaskFrom, CanRun;
    }
  }

  lemma StillReady(s: State, o: State, t: State, start: nat, interrupt: Interrupt)
    requires AllReady(s) && Valid(t) && Quiet(t) && t.queue == s.queue && t.running == s.running && start < |s.queue|
    requires interrupt.leaves == Running && o.tasks == OutTasks(s, interrupt.frame)
    requires 1 <= s.queue[start] <= MAX_TASKS
    requires t.tasks == o.tasks[s.queue[start] - 1 := Ran(o.tasks[s.queue[start] - 1], interrupt)]
    ensures AllReady(t)
  {
    forall j | 0 <= j < |s.queue|
      ensures CanRun(t, j)
    {
      CanRunIs(s, j);
      CanRunIs(t, j);
      hide CanRun, TaskAt;
    }
    hide CanRun;
  }

  lemma TasksTurned(s: State, o: State, t: State, start: nat, interrupt: Interrupt)
    requires AllReady(s) && AllReady(t) && t.queue == s.queue && start == StartSlot(s) && t.slot == Some(start)
    requires interrupt.leaves == Running && o.tasks == OutTasks(s, interrupt.frame)
    requires forall j :: 0 <= j < |s.queue| ==> 1 <= s.queue[j] <= MAX_TASKS
    requires t.tasks == o.tasks[s.queue[start] - 1 := Ran(o.tasks[s.queue[start] - 1], interrupt)]
    ensures Turned(s, t)
  {
    forall j | 0 <= j < |s.queue|
      ensures TaskTurned(s, TaskOf(s, j), TaskOf(t, j), j)
    {
      OneTaskTurned(s, o, t, start, interrupt, j);
    }
    forall i | 0 <= i < MAX_TASKS && Idle(s, i)
      ensures t.tasks[i] == s.tasks[i]
    {
      assert s.queue[start] - 1 != i;
    }
    hide AllReady, TaskOf, StartSlot, Next64, TaskTurned;
  }

  lemma OneTaskTurned(s: State, o: State, t: State, start: nat, interrupt: Interrupt, j: nat)
    requires AllReady(s) && AllReady(t) && t.queue == s.queue && start == StartSlot(s)
    requires interrupt.leaves == Running && o.tasks == OutTasks(s, interrupt.frame)
    requires forall j :: 0 <= j < |s.queue| ==> 1 <= s.queue[j] <= MAX_TASKS
    requires t.tasks == o.tasks[s.queue[start] - 1 := Ran(o.tasks[s.queue[start] - 1], interrupt)]
    requires j < |s.queue|
    ensures TaskTurned(s, TaskOf(s, j), TaskOf(t, j), j)
  {
    var i := s.queue[j] - 1;
    assert TaskOf(s, j) == s.tasks[i] && TaskOf(t, j) == t.tasks[i];
    assert Different(s) && Valid(s) && start < |s.queue|;
    hide AllReady, TaskOf, StartSlot, Next64, CanRun, TaskAt;
    assert j != start ==> s.queue[j] != s.queue[start];
    assert s.slot.Some? && j != s.slot.value ==> s.queue[j] != s.queue[s.slot.value];
    assert o.tasks[i] == if s.slot == Some(j) then SwitchedOut(s.tasks[i], interrupt.frame) else s.tasks[i];
    assert t.tasks[i] == if j == start then Ran(o.tasks[i], interrupt) else o.tasks[i];
  }

  /** The turns a slot had after some interrupts, when the slots take turns. */
  function Turns(n: nat, slot: nat, count: nat): nat
    requires 0 < count
  {
    if n == 0 then 0 else Turns(n - 1, slot, count) + if (n - 1) % count == slot then 1 else 0
  }

  lemma DivStep(n: nat, count: nat)
    requires 0 < count
    ensures (n + 1) % count == (if n % count + 1 == count then 0 else n % count + 1)
    ensures (n + 1) / count == (if n % count + 1 == count then n / count + 1 else n / count)
  {
    var q, r := n / count, n % count;
    assert n == q * count + r;
    if r + 1 == count {
      assert n + 1 == (q + 1) * count;
      DivOf(n + 1, q + 1, 0, count);
    } else {
      DivOf(n + 1, q, r + 1, count);
    }
  }

  lemma DivOf(n: nat, q: nat, r: nat, count: nat)
    requires r < count && n == q * count + r
    ensures n / count == q && n % count == r
  {
    var p := n / count;
    assert n == p * count + n % count;
    if p < q {
      TimesGrows(p + 1, q, count);
    } else if p > q {
      TimesGrows(q + 1, p, count);
    }
  }

  lemma {:induction false} TurnsAre(n: nat, slot: nat, count: nat)
    requires slot < count
    ensures Turns(n, slot, count) == n / count + if n % count > slot then 1 else 0
  {
    if n == 0 {
      DivOf(0, 0, 0, count);
    } else {
      TurnsAre(n - 1, slot, count);
      DivStep(n - 1, count);
    }
  }

  /** Some number of increments of a 64-bit counter. */
  function Plus(x: u64, n: nat): u64 {
    (x + n) % U64_LIMIT
  }

  lemma PlusOne(x: u64, n: nat)
    ensures Next64(Plus(x, n)) == Plus(x, n + 1)
  {
  }

  /** What a run of interrupts did to a slot's task. */
  predicate HadTurns(was: Task, now: Task, n: nat, slot: nat, count: nat)
    requires slot < count
  {
    && now.runCount == Plus(was.runCount, Turns(n, slot, count))
    && now.switchesIn == Plus(was.switchesIn, Turns(n, slot, count))
    && now.switchesOut == Plus(was.switchesOut, Turns(n, slot, count) - if n > 0 && (n - 1) % count == slot then 1
                               else 0)
  }

  lemma TurnStep(s: State, was: Task, now: Task, next: Task, n: nat, slot: nat)
    requires slot < |s.queue| && HadTurns(was, now, n, slot, |s.queue|) && TaskTurned(s, now, next, slot)
    requires StartSlot(s) == n % |s.queue| && s.slot == if n == 0 then None else Some((n - 1) % |s.queue|)
    ensures HadTurns(was, next, n + 1, slot, |s.queue|)
  {
    hide Next64, Plus;
    var t := Turns(n, slot, |s.queue|);
    PlusOne(was.runCount, t);
    PlusOne(was.switchesIn, t);
    if n > 0 && (n - 1) % |s.queue| == slot {
      TurnsBound(n, slot, |s.queue|);
      PlusOne(was.switchesOut, t - 1);
    }
  }

  /** After some interrupts the slots have taken turns. */
  predicate TookTurns(s: State, r: State, n: nat) {
    && AllReady(s) && AllReady(r) && r.queue == s.queue
    && r.slot == (if n == 0 then None else Some((n - 1) % |s.queue|))
    && (forall j :: 0 <= j < |s.queue| ==> HadTurns(TaskOf(s, j), TaskOf(r, j), n, j, |s.queue|))
    && (forall i :: 0 <= i < MAX_TASKS && Idle(s, i) ==> r.tasks[i] == s.tasks[i])
  }

  lemma TookStep(s: State, q: State, r: State, n: nat)
    requires TookTurns(s, q, n) && Turned(q, r)
    ensures TookTurns(s, r, n + 1)
  {
    var k := |s.queue|;
    assert k > 0;
    hide AllReady, HadTurns, TaskTurned, TaskOf;
    assert StartSlot(q) == n % k by {
      if n > 0 {
        DivStep(n - 1, k);
      } else {
        DivOf(0, 0, 0, k);
      }
    }
    hide StartSlot;
    forall j | 0 <= j < k
      ensures HadTurns(TaskOf(s, j), TaskOf(r, j), n + 1, j, k)
    {
      TurnStep(q, TaskOf(s, j), TaskOf(q, j), TaskOf(r, j), n, j);
    }
  }

  /** The n-th interrupt runs slot n - 1 modulo the number of slots, and every counter is the number
      of turns its task had; tasks that are not in the queue are left alone. */
  lemma {:induction false} TakesTurns(s: State, interrupts: seq<Interrupt>)
    requires AllReady(s) && s.slot == None
    requires forall i :: 0 <= i < |interrupts| ==> interrupts[i].leaves == Running
    ensures TookTurns(s, Run(s, interrupts), |interrupts|)
    decreases |interrupts|
  {
    var n := |interrupts| - 1;
    if n < 0 {
      NoTurns(s);
    } else {
      TakesTurns(s, interrupts[..n]);
      var q := Run(s, interrupts[..n]);
      assert AllReady(q);
      TickTurn(q, interrupts[n]);
      hide TookTurns, Turned, AllReady, Tick;
      TookStep(s, q, Run(s, interrupts), n);
    }
  }

  lemma NoTurns(s: State)
    requires AllReady(s)
    ensures forall j :: 0 <= j < |s.queue| ==> HadTurns(TaskOf(s, j), TaskOf(s, j), 0, j, |s.queue|)
  {
  }

  /** Shares are equal: over any run, the turns of two slots differ by at most one, and they add up. */
  lemma EqualShares(n: nat, i: nat, j: nat, count: nat)
    requires i < count && j < count
    ensures -1 <= Turns(n, i, count) - Turns(n, j, count) <= 1
    ensures i <= j ==> Turns(n, j, count) <= Turns(n, i, count)
  {
    TurnsAre(n, i, count);
    TurnsAre(n, j, count);
  }

  /** From a fresh start and for fewer than 2^64 interrupts: run counts differ by at most one, each
      equals the task's switches in, and its switches out but for the current task's one. */
  lemma FairRun(s: State, interrupts: seq<Interrupt>, i: nat, j: nat)
    requires AllReady(s) && s.slot == None && i < |s.queue| && j < |s.queue|
    requires forall m :: 0 <= m < |interrupts| ==> interrupts[m].leaves == Running
    requires forall m :: 0 <= m < |s.queue| ==>
               TaskOf(s, m).runCount == 0 && TaskOf(s, m).switchesIn == 0 && TaskOf(s, m).switchesOut == 0
    requires |interrupts| < U64_LIMIT
    ensures var r := Run(s, interrupts);
            && AllReady(r) && r.queue == s.queue
            && -1 <= TaskOf(r, i).runCount - TaskOf(r, j).runCount <= 1
            && TaskOf(r, i).runCount == TaskOf(r, i).switchesIn
            && TaskOf(r, i).switchesOut == TaskOf(r, i).switchesIn - if r.slot == Some(i) then 1 else 0
  {
    var r, n, k := Run(s, interrupts), |interrupts|, |s.queue|;
    TakesTurns(s, interrupts);
    EqualShares(n, i, j, k);
    assert HadTurns(TaskOf(s, i), TaskOf(r, i), n, i, k) && HadTurns(TaskOf(s, j), TaskOf(r, j), n, j, k);
    hide AllReady, TaskOf, Run, Turns, HadTurns;
    TurnsFromZero(TaskOf(s, i), TaskOf(r, i), n, i, k);
    TurnsFromZero(TaskOf(s, j), TaskOf(r, j), n, j, k);
  }

  lemma TurnsFromZero(was: Task, now: Task, n: nat, slot: nat, count: nat)
    requires slot < count && n < U64_LIMIT && HadTurns(was, now, n, slot, count)
    requires was.runCount == 0 && was.switchesIn == 0 && was.switchesOut == 0
    ensures now.runCount == now.switchesIn == Turns(n, slot, count)
    ensures now.switchesOut == now.switchesIn - if n > 0 && (n - 1) % count == slot then 1 else 0
  {
    var t := Turns(n, slot, count);
    TurnsBound(n, slot, count);
    PlusZero(t);
    if t > 0 {
      PlusZero(t - 1);
    }
    hide Turns, Plus;
  }

  lemma PlusZero(n: nat)
    requires n < U64_LIMIT
    ensures Plus(0, n) == n
  {
  }

  lemma {:induction false} TurnsBound(n: nat, slot: nat, count: nat)
    requires slot < count
    ensures Turns(n, slot, count) <= n
    ensures n > 0 && (n - 1) % count == slot ==> Turns(n, slot, count) > 0
  {
    if n > 0 {
      TurnsBound(n - 1, slot, count);
    }
  }
}
