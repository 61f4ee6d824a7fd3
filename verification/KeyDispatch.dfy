/** From a queued key to the terminal it was typed at. */
module KeyDispatch {
  import opened Words
  import opened WmWindow
  import opened Layers
  import opened Compositors
  import opened TerminalSessions
  import opened KeyRouting
  import opened Keyboards

  // ----- terminals by endpoint

  class TerminalWindow<S> {
    const window: Window
    const session: TerminalSession<S>

    constructor (window: Window, session: TerminalSession<S>)
      ensures this.window == window && this.session == session
    {
      this.window, this.session := window, session;
    }
  }

  datatype TerminalBinding<S> = TerminalBinding(terminal: TerminalWindow?<S>, endpoint: u32)

  /** The terminals are different, with different endpoints, and share no memory. */
  ghost predicate Separate<S>(terminals: seq<TerminalWindow<S>>) {
    forall i, j :: 0 <= i < j < |terminals| ==>
      && terminals[i] != terminals[j] && terminals[i].window != terminals[j].window
      && terminals[i].session != terminals[j].session
      && terminals[i].session.endpoint != terminals[j].session.endpoint
      && terminals[i].session.buffer != terminals[j].session.buffer
      && terminals[i].session.ring != terminals[j].session.ring
  }

  ghost function Members<S>(terminals: seq<TerminalWindow<S>>): set<TerminalWindow<S>> {
    set t | t in terminals
  }

  ghost function Sessions<S>(terminals: seq<TerminalWindow<S>>): set<object> {
    set i: int | 0 <= i < |terminals| :: terminals[i].session as object
  }

  ghost function Buffers<S>(terminals: seq<TerminalWindow<S>>): set<object> {
    (set i: int | 0 <= i < |terminals| :: terminals[i].session.buffer as object)
    + (set i: int | 0 <= i < |terminals| :: terminals[i].session.ring as object)
  }

  ghost predicate AllValid<S>(terminals: seq<TerminalWindow<S>>)
    reads Sessions(terminals), Buffers(terminals)
  {
    forall i :: 0 <= i < |terminals| ==> terminals[i].session.Valid()
  }

  ghost function Endpoints<S>(terminals: seq<TerminalWindow<S>>): (e: seq<u32>)
    ensures |e| == |terminals| && forall i :: 0 <= i < |e| ==> e[i] == terminals[i].session.endpoint
  {
    seq(|terminals|, i requires 0 <= i < |terminals| => terminals[i].session.endpoint)
  }

  /** Values by their keys; of two values under one key the later counts. */
  function Keyed<K(==), T>(keys: seq<K>, values: seq<T>): (m: map<K, T>)
    requires |keys| == |values|
    ensures forall i :: 0 <= i < |keys| ==> keys[i] in m
    decreases |keys|
  {
    if keys == [] then map[]
    else
      var n := |keys| - 1;
      Keyed(keys[..n], values[..n])[keys[n] := values[n]]
  }

  lemma {:induction false} KeyedUpdate<K, T>(keys: seq<K>, values: seq<T>, i: nat, value: T)
    requires |keys| == |values| && i < |keys| && Distinct(keys)
    ensures Keyed(keys, values[i := value]) == Keyed(keys, values)[keys[i] := value]
    ensures Keyed(keys, values)[keys[i]] == values[i]
    decreases |keys|
  {
    var n := |keys| - 1;
    if i < n {
      KeyedUpdate(keys[..n], values[..n], i, value);
      KeyedUpdateStep(keys, values, i, value);
    } else {
      KeyedUnfold(keys, values);
      KeyedUnfold(keys, values[i := value]);
      hide *;
      assert values[i := value][..n] == values[..n];
    }
  }

  lemma KeyedUpdateStep<K, T>(keys: seq<K>, values: seq<T>, i: nat, value: T)
    requires |keys| == |values| && i < |keys| - 1 && Distinct(keys)
    requires Keyed(keys[..|keys| - 1], values[..|keys| - 1][i := value])
             == Keyed(keys[..|keys| - 1], values[..|keys| - 1])[keys[i] := value]
    requires Keyed(keys[..|keys| - 1], values[..|keys| - 1])[keys[i]] == values[i]
    ensures Keyed(keys, values[i := value]) == Keyed(keys, values)[keys[i] := value]
    ensures Keyed(keys, values)[keys[i]] == values[i]
  {
    var n := |keys| - 1;
    KeyedUnfold(keys, values);
    KeyedUnfold(keys, values[i := value]);
    assert keys[i] != keys[n];
    hide *;
    assert values[i := value][..n] == values[..n][i := value];
    UpdatesSwap(Keyed(keys[..n], values[..n]), keys[i], value, keys[n], values[n]);
  }

  lemma UpdatesSwap<K, T>(m: map<K, T>, a: K, x: T, b: K, y: T)
    requires a != b
    ensures m[a := x][b := y] == m[b := y][a := x]
  {
  }

  lemma KeyedUnfold<K, T>(keys: seq<K>, values: seq<T>)
    requires |keys| == |values| > 0
    ensures var n := |keys| - 1; Keyed(keys, values) == Keyed(keys[..n], values[..n])[keys[n] := values[n]]
  {
  }

  class TerminalDispatch<S> {
    const bindings: array<TerminalBinding<S>>
    var count: nat
    ghost var terminals: seq<TerminalWindow<S>>

    /** The table holds the terminals, each under its session's endpoint. */
    ghost predicate Holds()
      reads this, bindings
    {
      && bindings.Length == MAX_WINDOWS && count == |terminals| <= MAX_WINDOWS
      && (forall i :: 0 <= i < count ==>
            bindings[i].terminal == terminals[i] && bindings[i].endpoint == terminals[i].session.endpoint != 0)
      && Separate(terminals)
    }

    ghost predicate Valid()
      reads this, bindings, Sessions(terminals), Buffers(terminals)
    {
      Holds() && AllValid(terminals) && bindings !in Buffers(terminals)
    }

    ghost function Views(): (v: seq<Session<S>>)
      requires Valid()
      reads this, bindings, Sessions(terminals), Buffers(terminals)
      ensures |v| == |terminals| && forall i :: 0 <= i < |v| ==> v[i] == terminals[i].session.View()
    {
      seq(|terminals|, i requires 0 <= i < |terminals|
          && Valid() reads this, bindings, Sessions(terminals), Buffers(terminals)
          => terminals[i].session.View())
    }

    /** The state of every attached session, by endpoint. */
    ghost function View(): map<u32, Session<S>>
      requires Valid()
      reads this, bindings, Sessions(terminals), Buffers(terminals)
    {
      Keyed(Endpoints(terminals), Views())
    }

    constructor Reset()
      ensures Valid() && terminals == [] && fresh(bindings)
    {
      bindings := new TerminalBinding<S>[MAX_WINDOWS](_ => TerminalBinding(null, 0));
      count, terminals := 0, [];
    }

    method FindByEndpoint(endpoint: u32) returns (index: Option<nat>)
      requires Holds()
      ensures index.Some? ==> index.value < count && terminals[index.value].session.endpoint == endpoint
      ensures index.None? ==> forall i :: 0 <= i < count ==> terminals[i].session.endpoint != endpoint
    {
      if endpoint == 0 {
        return None;
      }
      var i := 0;
      while i < count
        invariant 0 <= i <= count
        invariant forall j :: 0 <= j < i ==> terminals[j].session.endpoint != endpoint
      {
        if bindings[i].endpoint == endpoint {
          return Some(i);
        }
        i := i + 1;
      }
      return None;
    }

    method FindByWindow(terminal: TerminalWindow<S>) returns (index: Option<nat>)
      requires Holds()
      ensures index.Some? ==> index.value < count && terminals[index.value] == terminal
      ensures index.None? ==> terminal !in terminals
    {
      var i := 0;
      while i < count
        invariant 0 <= i <= count
        invariant terminal !in terminals[..i]
      {
        if bindings[i].terminal == terminal {
          return Some(i);
        }
        i := i + 1;
      }
      return None;
    }

    /** A terminal that shares nothing with those in the table. */
    ghost predicate Apart(terminal: TerminalWindow<S>)
      reads this
    {
      && terminal.session.buffer != bindings as object && terminal.session.ring != bindings as object
      && forall i :: 0 <= i < |terminals| && terminals[i] != terminal ==>
           && terminal.window != terminals[i].window && terminal.session != terminals[i].session
           && terminal.session.buffer != terminals[i].session.buffer
           && terminal.session.ring != terminals[i].session.ring
    }

    /** Registered once; refused without an endpoint, with a taken one, or when the table is full. */
    method Register(terminal: TerminalWindow<S>) returns (ok: bool)
      requires Holds() && Apart(terminal)
      modifies this`count, this`terminals, bindings
      ensures Holds()
      ensures terminal in old(terminals) ==> ok
      ensures ok ==> terminal.session.endpoint != 0
      ensures terminal !in old(terminals) ==>
                (ok <==> terminal.session.endpoint != 0 && |old(terminals)| < MAX_WINDOWS
                         && forall i :: 0 <= i < |old(terminals)| ==>
                           old(terminals)[i].session.endpoint != terminal.session.endpoint)
      ensures terminals == if ok && terminal !in old(terminals) then old(terminals) + [terminal] else old(terminals)
    {
      var endpoint := terminal.session.endpoint;
      if endpoint == 0 {
        return false;
      }
      var mine := FindByWindow(terminal);
      var taken := FindByEndpoint(endpoint);
      if mine.Some? {
        if taken.Some? && taken.value != mine.value {
          return false;
        }
        bindings[mine.value] := bindings[mine.value].(endpoint := endpoint);
        return true;
      }
      if taken.Some? || count >= MAX_WINDOWS {
        return false;
      }
      bindings[count] := TerminalBinding(terminal, endpoint);
      count := count + 1;
      terminals := terminals + [terminal];
      return true;
    }

    /** Taken out of the table; the last entry moves into its place. */
    method Unregister(terminal: TerminalWindow<S>)
      requires Holds()
      modifies this`count, this`terminals, bindings
      ensures Holds() && Members(terminals) == Members(old(terminals)) - {terminal}
    {
      var found := FindByWindow(terminal);
      if found.None? {
        return;
      }
      TakeOut(found.value);
    }

    method TakeOut(i: nat)
      requires Holds() && i < count
      modifies this`count, this`terminals, bindings
      ensures Holds() && Members(terminals) == Members(old(terminals)) - {old(terminals)[i]}
    {
      hide TerminalSession.Valid;
      SwappedOut(terminals, i);
      var last := count - 1;
      bindings[i] := bindings[last];
      bindings[last] := TerminalBinding(null, 0);
      terminals := terminals[i := terminals[last]][..last];
      count := count - 1;
    }

    /** One session handles a key; the others do not notice. */
    method HandleAt(index: nat, key: Key, exec: (S, string) -> S)
      requires Valid() && index < count
      modifies Sessions(terminals), Buffers(terminals)
      ensures Valid() && terminals == old(terminals)
      ensures Views() == old(Views())[index := Handle(old(Views())[index], key, exec)]
    {
      hide Handle;
      var session := bindings[index].terminal.session;
      assert session == terminals[index].session;
      label Before:
      var status := session.HandleEvent(key, exec);
      forall j | 0 <= j < |terminals| && j != index
        ensures terminals[j].session.Valid() && terminals[j].session.View() == old@Before(terminals[j].session.View())
      {
        var other := terminals[j].session;
        assert other != session && other.buffer != session.buffer && other.ring != session.ring;
      }
    }

    /** A key for an endpoint goes to the one session behind it. */
    method DispatchEvent(endpoint: u32, key: Key, exec: (S, string) -> S)
      requires Valid()
      modifies Sessions(terminals), Buffers(terminals)
      ensures Valid() && terminals == old(terminals)
      ensures View() == if endpoint in old(View())
                        then old(View())[endpoint := Handle(old(View())[endpoint], key, exec)]
                        else old(View())
    {
      var index := FindByEndpoint(endpoint);
      assert Valid() && View() == old(View());
      ByEndpoint();
      hide AllValid, TerminalSession.Valid, Separate, Handle, Keyed, Holds, Valid, Sessions, Buffers, Views, View;
      if index.None? {
        KeyedOnly(Endpoints(terminals), Views(), endpoint);
        return;
      }
      var i := index.value;
      ghost var keys, views := Endpoints(terminals), Views();
      KeyedUpdate(keys, views, i, Handle(views[i], key, exec));
      HandleAt(i, key, exec);
      ByEndpoint();
    }

    lemma ByEndpoint()
      requires Valid()
      ensures Valid() && View() == Keyed(Endpoints(terminals), Views()) && Distinct(Endpoints(terminals))
      ensures count == |terminals|
    {
    }
  }

  // ----- endpoints by window

  datatype WindowBinding = WindowBinding(window: Window?, endpoint: u32)

  class KeyboardDispatch<S> {
    const bindings: array<WindowBinding>
    var count: nat
    var sink: TerminalDispatch?<S>

    ghost predicate Valid()
      reads this, bindings
    {
      && bindings.Length == MAX_WINDOWS && count <= MAX_WINDOWS
      && (forall i :: 0 <= i < count ==> bindings[i].window != null && bindings[i].endpoint != 0)
      && (forall i, j :: 0 <= i < j < count ==> bindings[i].window != bindings[j].window)
    }

    ghost function Windows(): (w: seq<Window>)
      requires Valid()
      reads this, bindings
      ensures |w| == count && Distinct(w) && forall i :: 0 <= i < count ==> w[i] == bindings[i].window
    {
      seq(count, i requires 0 <= i < count && Valid() reads this, bindings => bindings[i].window as Window)
    }

    ghost function Targets(): (t: seq<u32>)
      requires Valid()
      reads this, bindings
      ensures |t| == count && forall i :: 0 <= i < count ==> t[i] == bindings[i].endpoint
    {
      seq(count, i requires 0 <= i < count && Valid() reads this, bindings => bindings[i].endpoint)
    }

    /** Which endpoint the keys of a window go to. */
    ghost function Route(): map<Window, u32>
      requires Valid()
      reads this, bindings
    {
      Keyed(Windows(), Targets())
    }

    constructor Reset()
      ensures Valid() && Windows() == [] && sink == null && fresh(bindings)
    {
      bindings := new WindowBinding[MAX_WINDOWS](_ => WindowBinding(null, 0));
      count, sink := 0, null;
    }

    method FindBinding(window: Window?) returns (index: Option<nat>)
      requires Valid()
      ensures index.Some? ==> window != null && index.value < count && Windows()[index.value] == window
      ensures index.None? ==> window == null || window !in Windows()
    {
      if window == null {
        return None;
      }
      var i := 0;
      while i < count
        invariant 0 <= i <= count
        invariant forall j :: 0 <= j < i ==> bindings[j].window != window
      {
        if bindings[i].window == window {
          return Some(i);
        }
        i := i + 1;
      }
      return None;
    }

    method Rebind(index: nat, endpoint: u32)
      requires Valid() && index < count && endpoint != 0
      modifies bindings
      ensures Valid() && Windows() == old(Windows())
      ensures Route() == old(Route())[Windows()[index] := endpoint]
    {
      hide Keyed, Distinct;
      KeyedUpdate(Windows(), Targets(), index, endpoint);
      ghost var windows, targets := Windows(), Targets();
      bindings[index] := bindings[index].(endpoint := endpoint);
      assert Windows() == windows && Targets() == targets[index := endpoint];
    }

    method Bind(window: Window, endpoint: u32)
      requires Valid() && count < MAX_WINDOWS && window !in Windows() && endpoint != 0
      modifies this`count, bindings
      ensures Valid() && Windows() == old(Windows()) + [window]
      ensures Route() == old(Route())[window := endpoint]
    {
      hide Keyed, Distinct;
      KeyedAppend(Windows(), Targets(), window, endpoint);
      ghost var windows, targets := Windows(), Targets();
      assert forall i :: 0 <= i < count ==> bindings[i].window == windows[i] != window;
      bindings[count] := WindowBinding(window, endpoint);
      count := count + 1;
      assert Windows() == windows + [window] && Targets() == targets + [endpoint];
    }

    /** Bind a window, or bind it anew. */
    method RegisterWindow(window: Window?, endpoint: u32) returns (ok: bool)
      requires Valid()
      modifies this`count, bindings
      ensures Valid()
      ensures ok <==> window != null && endpoint != 0 && (window in old(Windows()) || |old(Windows())| < MAX_WINDOWS)
      ensures Windows() == if ok && window !in old(Windows()) then old(Windows()) + [window] else old(Windows())
      ensures Route() == if ok then old(Route())[window := endpoint] else old(Route())
    {
      hide Keyed, Distinct, Route;
      if window == null || endpoint == 0 {
        return false;
      }
      var index := FindBinding(window);
      if index.Some? {
        Rebind(index.value, endpoint);
        return true;
      }
      if count >= MAX_WINDOWS {
        return false;
      }
      Bind(window, endpoint);
      return true;
    }

    /** Hand a key to the endpoint of the window it was typed at; without one it is dropped. */
    method DispatchToEndpoint(sink: TerminalDispatch<S>, entry: Entry<Window>, exec: (S, string) -> S)
      requires Valid() && sink.Valid()
      modifies Sessions(sink.terminals), Buffers(sink.terminals)
      ensures sink.Valid() && sink.terminals == old(sink.terminals)
      ensures sink.View() == Deliver(old(sink.View()), entry, old(Route()), exec)
    {
      hide AllValid, TerminalSession.Valid, Separate, TerminalDispatch.Holds, TerminalDispatch.Valid,
        TerminalDispatch.View, Handle;
      var index := FindBinding(if entry.focus.Some? then entry.focus.value else null);
      assert sink.Valid() && sink.View() == old(sink.View());
      if index.None? {
        if entry.focus.Some? {
          KeyedOnly(Windows(), Targets(), entry.focus.value);
        }
        assert Target(entry, Route()) == None;
        return;
      }
      KeyedUpdate(Windows(), Targets(), index.value, bindings[index.value].endpoint);
      assert Target(entry, Route()) == Some(bindings[index.value].endpoint);
      sink.DispatchEvent(bindings[index.value].endpoint, entry.key, exec);
    }

    /** The queue's memory is its own. */
    ghost predicate Isolated(keyboard: Keyboard, sink: TerminalDispatch<S>)
      reads sink
    {
      && {keyboard as object, keyboard.events, keyboard.focusWindows, this, bindings} !!
         {sink as object, sink.bindings} + Sessions(sink.terminals) + Buffers(sink.terminals)
      && keyboard.focusWindows as object != bindings && keyboard.focusWindows as object != keyboard.events
    }

    /** What the drain loop has done when the queue still holds some entries. */
    ghost predicate Drained(keyboard: Keyboard, sink: TerminalDispatch<S>, queue: seq<Entry<Window>>, done: nat,
                            was: map<u32, Session<S>>, route: map<Window, u32>, exec: (S, string) -> S)
      reads this, bindings, keyboard, keyboard.events, keyboard.focusWindows
      reads sink, sink.bindings, Sessions(sink.terminals), Buffers(sink.terminals)
    {
      && Valid() && Route() == route && keyboard.Valid() && sink.Valid()
      && done <= |queue| && keyboard.Queue() == queue[done..]
      && sink.View() == DeliverAll(was, queue[..done], route, exec)
    }

    /** Take every pending key out of the queue and hand it on; without a sink they are dropped. */
    method DispatchPending(keyboard: Keyboard, exec: (S, string) -> S) returns (processed: nat)
      requires Valid() && keyboard.Valid() && (sink != null ==> sink.Valid() && Isolated(keyboard, sink))
      requires keyboard.focusWindows as object != bindings
      modifies keyboard`readIndex, keyboard`count, keyboard.focusWindows
      modifies if sink == null then {} else Sessions(sink.terminals) + Buffers(sink.terminals)
      ensures Valid() && keyboard.Valid() && Route() == old(Route()) && keyboard.State() == old(keyboard.State())
      ensures keyboard.Queue() == [] && processed == |old(keyboard.Queue())| && sink == old(sink)
      ensures sink != null ==>
                sink.Valid() && sink.View() == DeliverAll(old(sink.View()), old(keyboard.Queue()), old(Route()), exec)
    {
      hide *;
      if sink == null {
        processed := DropPending(keyboard);
      } else {
        processed := DeliverPending(keyboard, sink, exec);
      }
    }

    method DropPending(keyboard: Keyboard) returns (processed: nat)
      requires Valid() && keyboard.Valid() && keyboard.focusWindows as object != bindings
      modifies keyboard`readIndex, keyboard`count, keyboard.focusWindows
      ensures Valid() && keyboard.Valid() && Route() == old(Route()) && keyboard.State() == old(keyboard.State())
      ensures keyboard.Queue() == [] && processed == |old(keyboard.Queue())|
    {
      hide Pending, Keyed;
      ghost var queue := keyboard.Queue();
      processed := 0;
      while true
        invariant keyboard.Valid() && Valid() && Route() == old(Route())
        invariant processed <= |queue| && keyboard.Queue() == queue[processed..]
        decreases |queue| - processed
      {
        var entry := keyboard.Pop();
        if entry.None? {
          break;
        }
        processed := processed + 1;
      }
    }

    /** Every pending key is delivered, in order, to the terminal of the window it was typed at. */
    method DeliverPending(keyboard: Keyboard, sink: TerminalDispatch<S>, exec: (S, string) -> S)
      returns (processed: nat)
      requires Valid() && keyboard.Valid() && sink.Valid() && Isolated(keyboard, sink)
      modifies keyboard`readIndex, keyboard`count, keyboard.focusWindows, Sessions(sink.terminals),
               Buffers(sink.terminals)
      ensures Valid() && keyboard.Valid() && sink.Valid() && Route() == old(Route()) && this.sink == old(this.sink)
      ensures keyboard.Queue() == [] && processed == |old(keyboard.Queue())|
      ensures keyboard.State() == old(keyboard.State())
      ensures sink.View() == DeliverAll(old(sink.View()), old(keyboard.Queue()), old(Route()), exec)
    {
      hide AllValid, TerminalSession.Valid, Separate, Keyed, Pending, TerminalDispatch.Holds, TerminalDispatch.Valid,
        KeyboardDispatch.Valid, TerminalDispatch.View, Route, Keyboard.Valid, Keyboard.Queue, Deliver, DeliverAll,
          Endpoints;
      ghost var queue, was, route := keyboard.Queue(), sink.View(), Route();
      processed := 0;
      assert queue[0..] == queue && queue[..0] == [];
      assert DeliverAll(was, [], route, exec) == was by { DeliverNone(was, route, exec); }
      while true
        invariant Drained(keyboard, sink, queue, processed, was, route, exec)
        invariant sink.terminals == old(sink.terminals)
        decreases |queue| - processed
      {
        var more := DispatchNext(keyboard, sink, exec, queue, processed, was, route);
        if !more {
          break;
        }
        processed := processed + 1;
      }
      assert queue[..processed] == queue;
    }

    /** Taking a key out of the queue leaves the terminals alone. */
    method PopOnly(keyboard: Keyboard, sink: TerminalDispatch<S>) returns (entry: Option<Entry<Window>>)
      requires Valid() && keyboard.Valid() && sink.Valid() && Isolated(keyboard, sink)
      modifies keyboard`readIndex, keyboard`count, keyboard.focusWindows
      ensures Valid() && Route() == old(Route()) && keyboard.Valid()
      ensures sink.Valid() && sink.View() == old(sink.View())
      ensures if old(keyboard.Queue()) == [] then entry == None && keyboard.Queue() == []
              else entry == Some(old(keyboard.Queue())[0]) && keyboard.Queue() == old(keyboard.Queue())[1..]
    {
      hide AllValid, TerminalSession.Valid, Separate, Keyed, Pending, TerminalDispatch.Holds, TerminalDispatch.Valid,
        KeyboardDispatch.Valid, TerminalDispatch.View, Route, Endpoints;
      entry := keyboard.Pop();
    }

    /** Delivering a key leaves the queue and the bindings alone. */
    method DeliverOnly(keyboard: Keyboard, sink: TerminalDispatch<S>, entry: Entry<Window>, exec: (S, string) -> S)
      requires Valid() && keyboard.Valid() && sink.Valid() && Isolated(keyboard, sink)
      modifies Sessions(sink.terminals), Buffers(sink.terminals)
      ensures Valid() && Route() == old(Route())
      ensures keyboard.Valid() && keyboard.Queue() == old(keyboard.Queue())
      ensures sink.Valid() && sink.terminals == old(sink.terminals)
      ensures sink.View() == Deliver(old(sink.View()), entry, old(Route()), exec)
    {
      hide AllValid, TerminalSession.Valid, Separate, Keyed, Pending, TerminalDispatch.Holds, TerminalDispatch.Valid,
        KeyboardDispatch.Valid, TerminalDispatch.View, Route, Keyboard.Valid, Keyboard.Queue, Deliver, Endpoints;
      DispatchToEndpoint(sink, entry, exec);
    }

    /** One turn of the drain loop. */
    method DispatchNext(keyboard: Keyboard, sink: TerminalDispatch<S>, exec: (S, string) -> S,
                        ghost queue: seq<Entry<Window>>,
                        ghost done: nat, ghost was: map<u32, Session<S>>, ghost route: map<Window, u32>)
      returns (more: bool)
      requires Drained(keyboard, sink, queue, done, was, route, exec) && Isolated(keyboard, sink)
      modifies keyboard`readIndex, keyboard`count, keyboard.focusWindows, Sessions(sink.terminals),
               Buffers(sink.terminals)
      ensures sink.terminals == old(sink.terminals) && more == (done < |queue|)
      ensures Drained(keyboard, sink, queue, if more then done + 1 else done, was, route, exec)
    {
      hide AllValid, TerminalSession.Valid, Separate, Keyed, Pending, TerminalDispatch.Holds, TerminalDispatch.Valid,
        KeyboardDispatch.Valid, TerminalDispatch.View, Route, Keyboard.Valid, Keyboard.Queue, Deliver, Sessions,
          Buffers, Endpoints;
      var entry := PopOnly(keyboard, sink);
      if entry.None? {
        return false;
      }
      DeliverOnly(keyboard, sink, entry.value, exec);
      assert queue[..done + 1][..done] == queue[..done];
      return true;
    }
  }

  lemma DeliverNone<W, S>(sessions: map<u32, Session<S>>, route: map<W, u32>, exec: (S, string) -> S)
    ensures DeliverAll(sessions, [], route, exec) == sessions
  {
  }

  lemma {:induction false} KeyedOnly<K, T>(keys: seq<K>, values: seq<T>, key: K)
    requires |keys| == |values| && key !in keys
    ensures key !in Keyed(keys, values)
    decreases |keys|
  {
    if keys != [] {
      KeyedOnly(keys[..|keys| - 1], values[..|keys| - 1], key);
    }
  }

  lemma KeyedAppend<K, T>(keys: seq<K>, values: seq<T>, key: K, value: T)
    requires |keys| == |values|
    ensures Keyed(keys + [key], values + [value]) == Keyed(keys, values)[key := value]
  {
    assert (keys + [key])[..|keys|] == keys && (values + [value])[..|values|] == values;
  }

  lemma SwappedOut<S>(s: seq<TerminalWindow<S>>, i: nat)
    requires i < |s| && Separate(s)
    ensures var t := s[i := s[|s| - 1]][..|s| - 1];
            Separate(t) && Members(t) == Members(s) - {s[i]}
  {
    var t := s[i := s[|s| - 1]][..|s| - 1];
    forall x | x in s && x != s[i]
      ensures x in t
    {
      var j :| 0 <= j < |s| && s[j] == x;
      assert t[if j == |s| - 1 then i else j] == x;
    }
  }

  // ----- attaching a terminal

  /** The keys of every attached terminal's window go to the terminal's endpoint. */
  ghost predicate Wired<S>(terminals: seq<TerminalWindow<S>>, route: map<Window, u32>) {
    forall i :: 0 <= i < |terminals| ==>
      terminals[i].window in route && route[terminals[i].window] == terminals[i].session.endpoint
  }

  /** A wired terminal gets exactly the keys typed at its window if and only if no other window is
      bound to its endpoint. */
  lemma TypedAtMineIff<S>(terminals: seq<TerminalWindow<S>>, route: map<Window, u32>, i: nat)
    requires Wired(terminals, route) && i < |terminals|
    ensures var window, endpoint := terminals[i].window, terminals[i].session.endpoint;
            (forall entry: Entry<Window> ::
               Target(entry, route) == Some(endpoint) <==> entry.focus == Some(window)) <==>
            (forall w :: w in route && route[w] == endpoint ==> w == window)
  {
    var window, endpoint := terminals[i].window, terminals[i].session.endpoint;
    if w :| w in route && route[w] == endpoint && w != window {
      assert Target(Entry(Control(0, 0), Some(w)), route) == Some(endpoint);
    }
  }

  /** That is so while terminals have different endpoints and only their windows are bound. */
  lemma OnlyMine<S>(terminals: seq<TerminalWindow<S>>, route: map<Window, u32>, i: nat)
    requires Separate(terminals) && Wired(terminals, route) && i < |terminals|
    requires forall w :: w in route ==> exists j :: 0 <= j < |terminals| && terminals[j].window == w
    ensures forall w :: w in route && route[w] == terminals[i].session.endpoint ==> w == terminals[i].window
  {
    forall w | w in route && route[w] == terminals[i].session.endpoint
      ensures w == terminals[i].window
    {
      var j :| 0 <= j < |terminals| && terminals[j].window == w;
      EndpointIsOwn(terminals, i, j);
    }
  }

  lemma EndpointIsOwn<S>(terminals: seq<TerminalWindow<S>>, i: nat, j: nat)
    requires Separate(terminals) && i < |terminals| && j < |terminals|
    ensures terminals[i].session.endpoint == terminals[j].session.endpoint ==> i == j
  {
  }

  lemma MembersBack<S>(s: seq<TerminalWindow<S>>, t: TerminalWindow<S>)
    requires t !in s
    ensures Members(s + [t]) - {t} == Members(s)
  {
  }

  lemma WiredMore<S>(terminals: seq<TerminalWindow<S>>, route: map<Window, u32>, terminal: TerminalWindow<S>)
    requires Wired(terminals, route)
    requires forall i :: 0 <= i < |terminals| && terminals[i] != terminal ==> terminals[i].window != terminal.window
    ensures var now := route[terminal.window := terminal.session.endpoint];
            Wired(terminals, now) && Wired(terminals + [terminal], now)
  {
  }

  /** The table has the terminal, or a place for it and no other terminal of its endpoint. */
  ghost predicate Registrable<S>(terminals: seq<TerminalWindow<S>>, terminal: TerminalWindow<S>)
  {
    || terminal in terminals
    || (terminal.session.endpoint != 0 && |terminals| < MAX_WINDOWS
        && forall i :: 0 <= i < |terminals| ==> terminals[i].session.endpoint != terminal.session.endpoint)
  }

  /** The screen takes the window. */
  predicate Showable(stack: seq<Window>, window: Window)
    reads window
  {
    IsValid(window.Shown()) && window !in stack && |stack| < MAX_WINDOWS
  }

  /** Register the terminal and show its window; undo the first when the second is refused. */
  method Show<S>(table: TerminalDispatch<S>, compositor: Compositor, terminal: TerminalWindow<S>) returns (ok: bool)
    requires table.Holds() && table.Apart(terminal) && compositor.Valid()
    requires table.bindings as object != compositor.layers.windows
    modifies table`count, table`terminals, table.bindings, compositor`active, compositor.layers,
             compositor.layers.windows
    ensures table.Holds() && compositor.Valid()
    ensures ok ==> terminal.session.endpoint != 0
    ensures ok <==> old(Registrable(table.terminals, terminal))
                    && old(Showable(compositor.layers.Stack(), terminal.window))
    ensures if ok then table.terminals == (if terminal in old(table.terminals) then old(table.terminals)
                                           else old(table.terminals) + [terminal])
            else Members(table.terminals) == Members(old(table.terminals))
    ensures compositor.layers.Stack() == if ok then old(compositor.layers.Stack()) + [terminal.window]
            else old(compositor.layers.Stack())
  {
    ghost var was := table.terminals;
    var known := table.FindByWindow(terminal);
    assert known.Some? <==> terminal in was;
    hide Separate, Distinct, Members, TerminalDispatch.Holds, Compositor.Valid, LayerStack.Valid, LayerStack.Stack;
    ok := table.Register(terminal);
    if !ok {
      return false;
    }
    var shown := compositor.AddWindow(terminal.window);
    if !shown {
      if known.None? {
        table.Unregister(terminal);
        MembersBack(was, terminal);
      }
      return false;
    }
  }

  /** The table, the windows on the screen and the key bindings, each in memory of its own. */
  ghost predicate Desktop<S>(table: TerminalDispatch<S>, compositor: Compositor, keys: KeyboardDispatch<S>)
    reads table, table.bindings, compositor, compositor.layers, compositor.layers.windows, keys, keys.bindings
  {
    && table.Holds() && compositor.Valid() && keys.Valid()
    && table.bindings as object != keys.bindings && table.bindings as object != compositor.layers.windows
    && keys.bindings as object != compositor.layers.windows
  }

  method ShowFirst<S>(table: TerminalDispatch<S>, compositor: Compositor, keys: KeyboardDispatch<S>,
                      terminal: TerminalWindow<S>)
    returns (ok: bool)
    requires Desktop(table, compositor, keys) && table.Apart(terminal)
    modifies table`count, table`terminals, table.bindings, compositor`active, compositor.layers,
             compositor.layers.windows
    ensures Desktop(table, compositor, keys) && keys.Route() == old(keys.Route())
            && keys.Windows() == old(keys.Windows())
    ensures ok ==> terminal.session.endpoint != 0
    ensures ok <==> old(Registrable(table.terminals, terminal))
                    && old(Showable(compositor.layers.Stack(), terminal.window))
    ensures if ok then table.terminals == (if terminal in old(table.terminals) then old(table.terminals)
                                           else old(table.terminals) + [terminal])
            else Members(table.terminals) == Members(old(table.terminals))
    ensures compositor.layers.Stack() == if ok then old(compositor.layers.Stack()) + [terminal.window]
            else old(compositor.layers.Stack())
  {
    assert table.Holds() && compositor.Valid() && keys.Valid();
    hide Separate, Distinct, Members, Keyed, TerminalDispatch.Holds, KeyboardDispatch.Valid, Compositor.Valid,
      LayerStack.Valid,
      KeyboardDispatch.Route, KeyboardDispatch.Windows, LayerStack.Stack;
    ok := Show(table, compositor, terminal);
  }

  method BindNext<S>(table: TerminalDispatch<S>, compositor: Compositor, keys: KeyboardDispatch<S>,
                     terminal: TerminalWindow<S>)
    returns (ok: bool)
    requires Desktop(table, compositor, keys) && terminal.session.endpoint != 0
    modifies keys`count, keys.bindings
    ensures Desktop(table, compositor, keys) && compositor.layers.Stack() == old(compositor.layers.Stack())
    ensures ok <==> terminal.window in old(keys.Windows()) || |old(keys.Windows())| < MAX_WINDOWS
    ensures keys.Route() == if ok then old(keys.Route())[terminal.window := terminal.session.endpoint]
            else old(keys.Route())
  {
    hide Separate, Distinct, Members, Keyed, TerminalDispatch.Holds, KeyboardDispatch.Valid, Compositor.Valid,
      LayerStack.Valid, KeyboardDispatch.Route, KeyboardDispatch.Windows, LayerStack.Stack;
    assert table.Holds() && compositor.Valid() && keys.Valid();
    ok := keys.RegisterWindow(terminal.window, terminal.session.endpoint);
  }

  /** Then the keys of the terminal's window go to the terminal. */
  method Attach<S>(table: TerminalDispatch<S>, compositor: Compositor, keys: KeyboardDispatch<S>,
                   terminal: TerminalWindow<S>)
    returns (ok: bool)
    requires Desktop(table, compositor, keys) && table.Apart(terminal)
    modifies table`count, table`terminals, table.bindings
    modifies compositor`active, compositor.layers, compositor.layers.windows, keys`count, keys.bindings
    ensures Desktop(table, compositor, keys)
    ensures ok <==> && old(Registrable(table.terminals, terminal))
                    && old(Showable(compositor.layers.Stack(), terminal.window))
                    && (terminal.window in old(keys.Windows()) || |old(keys.Windows())| < MAX_WINDOWS)
    ensures if old(Registrable(table.terminals, terminal))
               && old(Showable(compositor.layers.Stack(), terminal.window))
            then
              && table.terminals == (if terminal in old(table.terminals) then old(table.terminals)
                                     else old(table.terminals) + [terminal])
              && compositor.layers.Stack() == old(compositor.layers.Stack()) + [terminal.window]
            else
              && Members(table.terminals) == Members(old(table.terminals))
              && compositor.layers.Stack() == old(compositor.layers.Stack())
    ensures keys.Route() == if ok then old(keys.Route())[terminal.window := terminal.session.endpoint]
                            else old(keys.Route())
    ensures ok && Wired(old(table.terminals), old(keys.Route())) ==> Wired(table.terminals, keys.Route())
  {
    if Wired(table.terminals, keys.Route()) {
      WiredMore(table.terminals, keys.Route(), terminal);
    }
    hide *;
    ok := ShowFirst(table, compositor, keys, terminal);
    if !ok {
      return false;
    }
    ok := BindNext(table, compositor, keys, terminal);
  }
}
