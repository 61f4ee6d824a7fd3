/** The scheduler: the task table, the run queue and the timer interrupt. */
module Scheduler {
  import opened Words
  import opened RoundRobin

  function ResetTask(id: u32): Task {
    Task(id, Unused, 0, 0, 0, 0, 0)
  }

  class Scheduler {
    const tasks: array<Task>
    const queue: array<u32>
    var count: nat
    var slot: Option<nat>
    var running: bool
    var bootstrapped: bool

    predicate Attached()
      reads this
    {
      tasks.Length == MAX_TASKS && queue.Length == MAX_TASKS && count <= MAX_TASKS
    }

    /** The scheduler's state as a value. */
    function View(): State
      requires Attached()
      reads this, tasks, queue
    {
      State(tasks[..], queue[..count], slot, running)
    }

    constructor ()
      ensures Attached() && fresh(tasks) && fresh(queue) && !bootstrapped
    {
      tasks := new Task[MAX_TASKS](_ => ResetTask(0));
      queue := new u32[MAX_TASKS](_ => 0);
      count, slot, running, bootstrapped := 0, None, false, false;
    }

    // ----- the task table

    method TaskSystemInit()
      requires Attached()
      modifies tasks
      ensures forall i :: 0 <= i < MAX_TASKS ==> tasks[i] == ResetTask(i + 1)
    {
      var i := 0;
      while i < MAX_TASKS
        invariant 0 <= i <= MAX_TASKS
        invariant forall j :: 0 <= j < i ==> tasks[j] == ResetTask(j + 1)
      {
        tasks[i] := ResetTask(i + 1);
        i := i + 1;
      }
    }

    /** The first unused entry of the table, now runnable and with its counters at zero. */
    method TaskCreate(hasEntry: bool) returns (task: Option<nat>)
      requires Attached()
      modifies tasks
      ensures task.None? <==> !hasEntry || forall i :: 0 <= i < MAX_TASKS ==> old(tasks[i]).state != Unused
      ensures task.None? ==> tasks[..] == old(tasks[..])
      ensures task.Some? ==>
                && task.value < MAX_TASKS && old(tasks[task.value]).state == Unused
                && (forall i :: 0 <= i < task.value ==> old(tasks[i]).state != Unused)
                && tasks[..] == old(tasks[..])[task.value := Task(old(tasks[task.value]).id, Runnable, 0, 0, 0, 0, 0)]
    {
      if !hasEntry {
        return None;
      }
      var i := 0;
      while i < MAX_TASKS
        invariant 0 <= i <= MAX_TASKS && tasks[..] == old(tasks[..])
        invariant forall j :: 0 <= j < i ==> tasks[j].state != Unused
      {
        if tasks[i].state == Unused {
          tasks[i] := tasks[i].(state := Runnable, runCount := 0, switchesIn := 0, switchesOut := 0,
                                lastPc := 0, lastCause := 0);
          return Some(i);
        }
        i := i + 1;
      }
      return None;
    }

    method TaskFind(id: u32) returns (task: Option<nat>)
      requires Attached()
      ensures task == FindTask(tasks[..], id)
    {
      var i := 0;
      while i < MAX_TASKS
        invariant 0 <= i <= MAX_TASKS
        invariant FindTaskFrom(tasks[..], id, i) == FindTask(tasks[..], id)
      {
        if tasks[i].id == id && tasks[i].state != Unused {
          return Some(i);
        }
        i := i + 1;
      }
      return None;
    }

    method ContextSwitchOut(task: nat, frame: Option<Frame>)
      requires Attached() && task < MAX_TASKS
      modifies tasks
      ensures tasks[..] == old(tasks[..])[task := SwitchedOut(old(tasks[task]), frame)]
    {
      tasks[task] := tasks[task].(switchesOut := Next64(tasks[task].switchesOut));
      if frame.Some? {
        tasks[task] := tasks[task].(lastPc := frame.value.pc, lastCause := frame.value.cause);
      }
      if tasks[task].state == Running {
        tasks[task] := tasks[task].(state := Runnable);
      }
    }

    method ContextSwitchIn(task: nat, frame: Option<Frame>)
      requires Attached() && task < MAX_TASKS
      modifies tasks
      ensures tasks[..] == old(tasks[..])[task := SwitchedIn(old(tasks[task]), frame)]
    {
      tasks[task] := tasks[task].(switchesIn := Next64(tasks[task].switchesIn));
      if frame.Some? {
        tasks[task] := tasks[task].(lastPc := frame.value.pc, lastCause := frame.value.cause);
      }
      tasks[task] := tasks[task].(state := Running);
    }

    // ----- the queue

    method Init()
      requires Attached()
      modifies this, tasks, queue
      ensures Attached() && !bootstrapped
      ensures View() == State(seq(MAX_TASKS, i requires 0 <= i < MAX_TASKS => ResetTask(i + 1)), [], None, false)
    {
      TaskSystemInit();
      var i := 0;
      while i < MAX_TASKS
        invariant 0 <= i <= MAX_TASKS
        invariant forall j :: 0 <= j < MAX_TASKS ==> tasks[j] == ResetTask(j + 1)
      {
        queue[i] := 0;
        i := i + 1;
      }
      count, slot, running, bootstrapped := 0, None, false, false;
    }

    method Enqueue(task: Option<nat>) returns (ok: bool)
      requires Attached() && (task.Some? ==> task.value < MAX_TASKS)
      modifies this`count, queue
      ensures Attached() && ok == (task.Some? && old(count) < MAX_TASKS)
      ensures View() == if ok then old(View()).(queue := old(View()).queue + [old(tasks[task.value]).id])
                        else old(View())
    {
      if task.None? || count >= MAX_TASKS {
        return false;
      }
      queue[count] := tasks[task.value].id;
      count := count + 1;
      return true;
    }

    /** Two tasks, both in the queue and ready to take turns; a second call changes nothing. */
    method Bootstrap()
      requires Attached()
      modifies this, tasks, queue
      ensures Attached() && bootstrapped
      ensures old(bootstrapped) ==> View() == old(View())
      ensures !old(bootstrapped) ==>
                && AllReady(View()) && View().slot == None && View().queue == [1, 2]
                && forall j :: 0 <= j < 2 ==> TaskOf(View(), j) == Task(j + 1, Runnable, 0, 0, 0, 0, 0)
    {
      if bootstrapped {
        return;
      }
      Init();
      var first := TaskCreate(true);
      var second := TaskCreate(true);
      assert tasks[0] == ResetTask(1).(state := Runnable) && first == Some(0);
      assert tasks[1] == ResetTask(2).(state := Runnable) && second == Some(1);
      var ok := Enqueue(first);
      assert |View().queue| == count == 1;
      var both := Enqueue(second);
      assert ok && both; // so both tasks always fit
      running, bootstrapped := true, true;
      assert queue[..count] == [1] + [2] == [1, 2];
      ReadyToStart(View());
    }

    method TaskFromSlot(slot: Option<nat>) returns (task: Option<nat>)
      requires Attached()
      ensures task == TaskAt(View(), slot)
    {
      if slot.None? || slot.value >= count {
        return None;
      }
      task := TaskFind(queue[slot.value]);
    }

    method SlotReady(slot: nat) returns (ready: bool)
      requires Attached()
      ensures ready == CanRun(View(), slot)
    {
      hide FindTask;
      var task := TaskFromSlot(Some(slot));
      ready := task.Some? && tasks[task.value].state == Runnable;
    }

    method FindNextSlot() returns (next: Option<nat>)
      requires Attached()
      ensures next == NextSlot(View())
    {
      hide FindTask, TaskAt, CanRun, NextSlotFrom, Around;
      if count == 0 {
        return None;
      }
      var start := 0;
      if slot.Some? {
        start := slot.value + 1;
        if start >= count {
          start := 0;
        }
      }
      ghost var view := View();
      assert start == StartSlot(view) && |view.queue| == count;
      var offset := 0;
      while offset < count
        invariant 0 <= offset <= count
        invariant NextSlotFrom(view, offset) == NextSlotFrom(view, 0)
      {
        var candidate := start + offset;
        if candidate >= count {
          candidate := candidate - count;
        }
        NextSlotStep(view, offset);
        var ready := SlotReady(candidate);
        if ready {
          return Some(candidate);
        }
        offset := offset + 1;
      }
      NextSlotEnd(view);
      return None;
    }

    /** One timer interrupt is one tick of the specification. */
    method HandleTimerInterrupt(interrupt: Interrupt)
      requires Attached()
      modifies this`slot, tasks
      ensures Attached() && View() == Tick(old(View()), interrupt)
    {
      if !running || count == 0 {
        return;
      }
      hide FindTask, FindTaskFrom, NextSlot, NextSlotFrom;
      var previous := TaskFromSlot(slot);
      if previous.Some? {
        ContextSwitchOut(previous.value, interrupt.frame);
      }
      assert View() == Outgoing(old(View()), interrupt.frame);
      ghost var out := View();
      var next := FindNextSlot();
      if next.None? {
        return;
      }
      var task := TaskFromSlot(next);
      if task.None? {
        return;
      }
      slot := next;
      RunTask(task.value, interrupt);
    }

    /** Switched in, counted, run, and runnable again if it still was running. */
    method RunTask(task: nat, interrupt: Interrupt)
      requires Attached() && task < MAX_TASKS
      modifies tasks
      ensures tasks[..] == old(tasks[..])[task := Ran(old(tasks[task]), interrupt)]
    {
      ContextSwitchIn(task, interrupt.frame);
      tasks[task] := tasks[task].(runCount := Next64(tasks[task].runCount));
      tasks[task] := tasks[task].(state := interrupt.leaves);
      if tasks[task].state == Running {
        tasks[task] := tasks[task].(state := Runnable);
      }
    }
  }

  lemma NextSlotStep(s: State, offset: nat)
    requires StartSlot(s) < |s.queue| && offset < |s.queue|
    ensures var candidate := if StartSlot(s) + offset >= |s.queue| then StartSlot(s) + offset - |s.queue|
            else StartSlot(s) + offset;
            NextSlotFrom(s, offset) == if CanRun(s, candidate) then Some(candidate) else NextSlotFrom(s, offset + 1)
  {
    hide CanRun;
  }

  lemma NextSlotEnd(s: State)
    requires StartSlot(s) < |s.queue|
    ensures NextSlotFrom(s, |s.queue|) == None
  {
  }

  lemma ReadyToStart(s: State)
    requires |s.tasks| == MAX_TASKS && s.running && s.slot == None && s.queue == [1, 2]
    requires forall i :: 0 <= i < MAX_TASKS ==>
               s.tasks[i] == if i < 2 then ResetTask(i + 1).(state := Runnable) else ResetTask(i + 1)
    ensures AllReady(s) && forall j :: 0 <= j < 2 ==> TaskOf(s, j) == ResetTask(j + 1).(state := Runnable)
  {
    CanRunIs(s, 0);
    CanRunIs(s, 1);
  }
}
