/** Keys to the terminals they were typed at, over any interleaving of typing, focus changes and dispatches. */
module KeyRouting {
  import opened Words
  import opened TerminalSessions
  import opened Scancodes

  const QUEUE_CAP: nat := 64

  /** A key with the window that had the focus when it was typed. */
  datatype Entry<+W> = Entry(key: Key, focus: Option<W>)

  /** What can happen, in any order. */
  datatype Input<+W> = Code(code: byte) | Focus(window: Option<W>) | Dispatch

  datatype Machine<W, S> = Machine(decoder: Decoder, focus: Option<W>, queue: seq<Entry<W>>,
                                   sessions: map<u32, Session<S>>)

  // ----- one step

  function Queued<W>(queue: seq<Entry<W>>, key: Option<Key>, focus: Option<W>): seq<Entry<W>> {
    if key.Some? && |queue| < QUEUE_CAP then queue + [Entry(key.value, focus)] else queue
  }

  /** The endpoint an entry goes to. */
  function Target<W(==)>(entry: Entry<W>, route: map<W, u32>): Option<u32> {
    if entry.focus.Some? && entry.focus.value in route then Some(route[entry.focus.value]) else None
  }

  function Deliver<W(==), S>(sessions: map<u32, Session<S>>, entry: Entry<W>, route: map<W, u32>,
                             exec: (S, string) -> S)
    : map<u32, Session<S>>
  {
    var e := Target(entry, route);
    if e.Some? && e.value in sessions then sessions[e.value := Handle(sessions[e.value], entry.key, exec)] else sessions
  }

  function DeliverAll<W(==), S>(sessions: map<u32, Session<S>>, entries: seq<Entry<W>>, route: map<W, u32>,
                                exec: (S, string) -> S)
    : map<u32, Session<S>>
    decreases |entries|
  {
    if entries == [] then sessions
    else Deliver(DeliverAll(sessions, entries[..|entries| - 1], route, exec), entries[|entries| - 1], route, exec)
  }

  function Step<W(==), S>(m: Machine<W, S>, input: Input<W>, route: map<W, u32>,
                          exec: (S, string) -> S): Machine<W, S> {
    match input
    case Code(code) =>
      var (d, key) := Decode(m.decoder, code);
      m.(decoder := d, queue := Queued(m.queue, key, m.focus))
    case Focus(window) => m.(focus := window)
    case Dispatch => m.(queue := [], sessions := DeliverAll(m.sessions, m.queue, route, exec))
  }

  function Run<W(==), S>(m: Machine<W, S>, inputs: seq<Input<W>>, route: map<W, u32>,
                         exec: (S, string) -> S): Machine<W, S>
    decreases |inputs|
  {
    if inputs == [] then m else Step(Run(m, inputs[..|inputs| - 1], route, exec), inputs[|inputs| - 1], route, exec)
  }

  // ----- what was typed, queued and delivered

  /** The key a step types, with the focus at that moment. */
  function TypedBy<W(==), S>(m: Machine<W, S>, input: Input<W>): seq<Entry<W>> {
    if input.Code? && Decode(m.decoder, input.code).1.Some?
      then [Entry(Decode(m.decoder, input.code).1.value, m.focus)] else []
  }

  function Typed<W(==), S>(m: Machine<W, S>, inputs: seq<Input<W>>, route: map<W, u32>,
                           exec: (S, string) -> S): seq<Entry<W>>
    decreases |inputs|
  {
    if inputs == [] then []
    else Typed(m, inputs[..|inputs| - 1], route, exec)
         + TypedBy(Run(m, inputs[..|inputs| - 1], route, exec), inputs[|inputs| - 1])
  }

  /** The typed keys that found room in the queue. */
  function Accepted<W(==), S>(m: Machine<W, S>, inputs: seq<Input<W>>, route: map<W, u32>,
                              exec: (S, string) -> S): seq<Entry<W>>
    decreases |inputs|
  {
    if inputs == [] then []
    else
      var q := Run(m, inputs[..|inputs| - 1], route, exec);
      Accepted(m, inputs[..|inputs| - 1], route, exec)
      + if |q.queue| < QUEUE_CAP then TypedBy(q, inputs[|inputs| - 1]) else []
  }

  /** What the dispatches handed out. */
  function Delivered<W(==), S>(m: Machine<W, S>, inputs: seq<Input<W>>, route: map<W, u32>,
                               exec: (S, string) -> S): seq<Entry<W>>
    decreases |inputs|
  {
    if inputs == [] then []
    else
      Delivered(m, inputs[..|inputs| - 1], route, exec)
      + if inputs[|inputs| - 1].Dispatch? then Run(m, inputs[..|inputs| - 1], route, exec).queue else []
  }

  /** Some key came while the queue was full. */
  predicate Overflows<W(==), S>(m: Machine<W, S>, inputs: seq<Input<W>>, route: map<W, u32>, exec: (S, string) -> S)
    decreases |inputs|
  {
    inputs != [] &&
    var q := Run(m, inputs[..|inputs| - 1], route, exec);
    Overflows(m, inputs[..|inputs| - 1], route, exec)
    || (|q.queue| >= QUEUE_CAP && TypedBy(q, inputs[|inputs| - 1]) != [])
  }

  // ----- nothing is lost, repeated or reordered

  lemma {:induction false} DeliverMore<W, S>(sessions: map<u32, Session<S>>, s: seq<Entry<W>>, t: seq<Entry<W>>,
                                             route: map<W, u32>,
                                             exec: (S, string) -> S)
    ensures DeliverAll(sessions, s + t, route, exec) == DeliverAll(DeliverAll(sessions, s, route, exec), t, route, exec)
    decreases |t|
  {
    if t == [] {
      assert s + t == s;
    } else {
      var n := |t| - 1;
      DeliverMore(sessions, s, t[..n], route, exec);
      assert (s + t)[..|s + t| - 1] == s + t[..n];
    }
  }

  /** Every queued key is delivered once and in order, to the window that had the focus when it was
      typed; what is not delivered yet is what the queue holds. */
  lemma {:induction false} DeliveredOnce<W, S>(m: Machine<W, S>, inputs: seq<Input<W>>, route: map<W, u32>,
                                               exec: (S, string) -> S)
    ensures var r := Run(m, inputs, route, exec);
            && m.queue + Accepted(m, inputs, route, exec) == Delivered(m, inputs, route, exec) + r.queue
            && r.sessions == DeliverAll(m.sessions, Delivered(m, inputs, route, exec), route, exec)
    decreases |inputs|
  {
    if inputs == [] {
      assert m.queue + [] == [] + m.queue;
    } else {
      var n := |inputs| - 1;
      DeliveredOnce(m, inputs[..n], route, exec);
      var q := Run(m, inputs[..n], route, exec);
      DeliverMore(m.sessions, Delivered(m, inputs[..n], route, exec), q.queue, route, exec);
      OneInput(q, inputs[n], route, exec);
      var a, d := Accepted(m, inputs[..n], route, exec), Delivered(m, inputs[..n], route, exec);
      var more := if |q.queue| < QUEUE_CAP then TypedBy(q, inputs[n]) else [];
      var done := if inputs[n].Dispatch? then q.queue else [];
      assert Accepted(m, inputs, route, exec) == a + more && Delivered(m, inputs, route, exec) == d + done;
      var r := Step(q, inputs[n], route, exec);
      assert Run(m, inputs, route, exec) == r;
      hide *;
      Balanced(m.queue, a, d, q.queue, more);
      if inputs[n].Dispatch? {
        NothingMore(m.queue + a);
        NothingMore(a);
        NothingMore(d + q.queue);
      } else {
        NothingMore(d);
      }
    }
  }

  lemma Balanced<T>(q: seq<T>, a: seq<T>, d: seq<T>, r: seq<T>, more: seq<T>)
    requires q + a == d + r
    ensures q + (a + more) == d + (r + more)
  {
    assert q + (a + more) == q + a + more;
    assert d + (r + more) == d + r + more;
  }

  lemma NothingMore<T>(s: seq<T>)
    ensures s + [] == s == [] + s
  {
  }

  lemma OneInput<W, S>(m: Machine<W, S>, input: Input<W>, route: map<W, u32>, exec: (S, string) -> S)
    ensures var r := Step(m, input, route, exec);
            if input.Dispatch? then r.queue == [] && TypedBy(m, input) == []
            && r.sessions == DeliverAll(m.sessions, m.queue, route, exec)
            else
              && r.queue == m.queue + (if |m.queue| < QUEUE_CAP then TypedBy(m, input) else [])
              && r.sessions == m.sessions
  {
    if input.Code? {
      assert m.queue + [] == m.queue;
    }
  }

  // ----- no terminal sees another terminal's keys

  /** The keys that go to an endpoint, in order. */
  function KeysTo<W(==)>(entries: seq<Entry<W>>, endpoint: u32, route: map<W, u32>): seq<Key>
    decreases |entries|
  {
    if entries == [] then []
    else
      var last := entries[|entries| - 1];
      KeysTo(entries[..|entries| - 1], endpoint, route) + if Target(last, route) == Some(endpoint) then [last.key]
        else []
  }

  lemma {:induction false} KeysToMore<W>(s: seq<Entry<W>>, t: seq<Entry<W>>, endpoint: u32, route: map<W, u32>)
    ensures KeysTo(s + t, endpoint, route) == KeysTo(s, endpoint, route) + KeysTo(t, endpoint, route)
    decreases |t|
  {
    if t == [] {
      assert s + t == s;
    } else {
      var n := |t| - 1;
      KeysToMore(s, t[..n], endpoint, route);
      assert (s + t)[..|s + t| - 1] == s + t[..n];
    }
  }

  /** Delivering entries to all sessions is, for each session, handling its own keys alone. */
  lemma {:induction false} OwnKeysOnly<W, S>(sessions: map<u32, Session<S>>, entries: seq<Entry<W>>, endpoint: u32,
                                             route: map<W, u32>,
                                             exec: (S, string) -> S)
    requires endpoint in sessions
    ensures DeliverAll(sessions, entries, route, exec).Keys == sessions.Keys
    ensures DeliverAll(sessions, entries, route, exec)[endpoint]
            == HandleAll(sessions[endpoint], KeysTo(entries, endpoint, route), exec)
    decreases |entries|
  {
    if entries != [] {
      var n := |entries| - 1;
      OwnKeysOnly(sessions, entries[..n], endpoint, route, exec);
      var keys := KeysTo(entries[..n], endpoint, route);
      if Target(entries[n], route) == Some(endpoint) {
        assert (keys + [entries[n].key])[..|keys|] == keys;
      } else {
        assert keys + [] == keys;
      }
      hide Handle;
    }
  }

  /** In any run, a session's state is the result of handling its own delivered keys alone, and its
      history is the last eight lines entered among them. */
  lemma SessionIsItsOwn<W, S>(m: Machine<W, S>, inputs: seq<Input<W>>, endpoint: u32, route: map<W, u32>,
                              exec: (S, string) -> S)
    requires endpoint in m.sessions && |m.sessions[endpoint].history| <= HISTORY_CAP
    ensures var r, s := Run(m, inputs, route, exec), m.sessions[endpoint];
            var keys := KeysTo(Delivered(m, inputs, route, exec), endpoint, route);
            && r.sessions.Keys == m.sessions.Keys
            && r.sessions[endpoint] == HandleAll(s, keys, exec)
            && r.sessions[endpoint].history == LastLines(s.history + Entered(s.input, keys))
            && r.sessions[endpoint].body == ExecAll(s.body, Entered(s.input, keys), exec)
  {
    DeliveredOnce(m, inputs, route, exec);
    var d := Delivered(m, inputs, route, exec);
    OwnKeysOnly(m.sessions, d, endpoint, route, exec);
    HistoryIsLastLines(m.sessions[endpoint], KeysTo(d, endpoint, route), exec);
    hide Run, Delivered, DeliverAll, HandleAll, KeysTo, LastLines, Entered, ExecAll;
  }

  // ----- the focus a key was typed at

  /** A key carries the window of the last change of focus before it, and the keys between changes
      carry the same. */
  lemma {:induction false} FocusStays<W, S>(m: Machine<W, S>, before: seq<Input<W>>, w: Option<W>, more: seq<Input<W>>,
                                            route: map<W, u32>, exec: (S, string) -> S)
    requires forall i :: 0 <= i < |more| ==> !more[i].Focus?
    ensures Run(m, before + [Focus(w)] + more, route, exec).focus == w
    decreases |more|
  {
    var all := before + [Focus(w)] + more;
    if more == [] {
      assert all[..|all| - 1] == before && all[|all| - 1] == Focus(w);
    } else {
      FocusStays(m, before, w, more[..|more| - 1], route, exec);
      assert all[..|all| - 1] == before + [Focus(w)] + more[..|more| - 1] && all[|all| - 1] == more[|more| - 1];
    }
    hide Decode, DeliverAll;
  }

  lemma KeyCarriesFocus<W, S>(m: Machine<W, S>, code: byte)
    ensures forall e :: e in TypedBy(m, Code(code)) ==> e.focus == m.focus && Decode(m.decoder, code).1 == Some(e.key)
    ensures |TypedBy(m, Code(code))| == if Decode(m.decoder, code).1.Some? then 1 else 0
  {
    hide Decode;
  }

  // ----- the price of a shared queue

  /** The decoder after some inputs. */
  function DecoderAfter<W>(d: Decoder, inputs: seq<Input<W>>): Decoder
    decreases |inputs|
  {
    if inputs == [] then d
    else
      var before, last := DecoderAfter(d, inputs[..|inputs| - 1]), inputs[|inputs| - 1];
      if last.Code? then Decode(before, last.code).0 else before
  }

  /** How many keys wait for a dispatch, told from the inputs alone: those typed since the last one,
      and those that were pending if there was none. */
  function Waiting<W>(pending: nat, d: Decoder, inputs: seq<Input<W>>): nat
    decreases |inputs|
  {
    if inputs == [] then pending
    else
      var before, last := inputs[..|inputs| - 1], inputs[|inputs| - 1];
      match last
      case Dispatch => 0
      case Focus(_) => Waiting(pending, d, before)
      case Code(code) =>
        Waiting(pending, d, before) + if Decode(DecoderAfter(d, before), code).1.Some? then 1 else 0
  }

  /** The dispatches keep up with the typing: never do more keys wait than the queue holds. */
  predicate KeepsUp<W, S>(m: Machine<W, S>, inputs: seq<Input<W>>) {
    forall n :: 0 <= n <= |inputs| ==> Waiting(|m.queue|, m.decoder, inputs[..n]) <= QUEUE_CAP
  }

  lemma KeepsUpLonger<W, S>(m: Machine<W, S>, inputs: seq<Input<W>>)
    requires inputs != []
    ensures KeepsUp(m, inputs) <==> KeepsUp(m, inputs[..|inputs| - 1])
                                    && Waiting(|m.queue|, m.decoder, inputs) <= QUEUE_CAP
    ensures KeepsUp(m, inputs[..|inputs| - 1]) ==>
              Waiting(|m.queue|, m.decoder, inputs[..|inputs| - 1]) <= QUEUE_CAP
  {
    hide Waiting;
    var n := |inputs| - 1;
    assert inputs[..n + 1] == inputs && inputs[..n][..n] == inputs[..n];
    if KeepsUp(m, inputs) {
      forall k | 0 <= k <= n ensures Waiting(|m.queue|, m.decoder, inputs[..n][..k]) <= QUEUE_CAP {
        assert inputs[..n][..k] == inputs[..k];
      }
    } else if KeepsUp(m, inputs[..n]) {
      forall k | 0 <= k <= n ensures Waiting(|m.queue|, m.decoder, inputs[..k]) <= QUEUE_CAP {
        assert inputs[..n][..k] == inputs[..k];
      }
    }
  }

  /** A key meets a full queue exactly when the dispatches do not keep up. */
  lemma {:induction false} OverflowsIff<W, S>(m: Machine<W, S>, inputs: seq<Input<W>>, route: map<W, u32>,
                                              exec: (S, string) -> S)
    requires |m.queue| <= QUEUE_CAP
    ensures Overflows(m, inputs, route, exec) <==> !KeepsUp(m, inputs)
    ensures Run(m, inputs, route, exec).decoder == DecoderAfter(m.decoder, inputs)
    ensures KeepsUp(m, inputs) ==> |Run(m, inputs, route, exec).queue| == Waiting(|m.queue|, m.decoder, inputs)
    decreases |inputs|
  {
    if inputs != [] {
      OverflowsIff(m, inputs[..|inputs| - 1], route, exec);
      KeepsUpLonger(m, inputs);
      hide KeepsUp, Decode, DeliverAll;
    } else {
      assert inputs[..0] == inputs;
    }
  }

  lemma {:induction false} OverflowLoses<W, S>(m: Machine<W, S>, inputs: seq<Input<W>>, route: map<W, u32>,
                                               exec: (S, string) -> S)
    ensures Accepted(m, inputs, route, exec) == Typed(m, inputs, route, exec) <==> !Overflows(m, inputs, route, exec)
    ensures |Accepted(m, inputs, route, exec)| <= |Typed(m, inputs, route, exec)|
    ensures Overflows(m, inputs, route, exec) ==> |Accepted(m, inputs, route, exec)| < |Typed(m, inputs, route, exec)|
    decreases |inputs|
  {
    if inputs != [] {
      OverflowLoses(m, inputs[..|inputs| - 1], route, exec);
      hide Run, TypedBy;
    }
  }

  /** A run accepts all keys that are typed exactly when the dispatches keep up. */
  lemma AcceptsAllIff<W, S>(m: Machine<W, S>, inputs: seq<Input<W>>, route: map<W, u32>, exec: (S, string) -> S)
    requires |m.queue| <= QUEUE_CAP
    ensures Accepted(m, inputs, route, exec) == Typed(m, inputs, route, exec) <==> KeepsUp(m, inputs)
    ensures !KeepsUp(m, inputs) ==> |Accepted(m, inputs, route, exec)| < |Typed(m, inputs, route, exec)|
  {
    OverflowsIff(m, inputs, route, exec);
    OverflowLoses(m, inputs, route, exec);
    hide *;
  }

  lemma {:induction false} PressesWait<W>(n: nat)
    ensures Waiting(0, IDLE, seq(n, _ => Input<W>.Code(0x1e))) == n
    ensures DecoderAfter(IDLE, seq(n, _ => Input<W>.Code(0x1e))) == IDLE
  {
    if n > 0 {
      PressesWait<W>(n - 1);
      assert seq(n, _ => Input<W>.Code(0x1e))[..n - 1] == seq(n - 1, _ => Input<W>.Code(0x1e));
      assert Decode(IDLE, 0x1e) == (IDLE, Some(Text(0x1e, 'a')));
    }
  }

  /** A run that does not: one press more than the queue holds, before any dispatch, loses a key. */
  lemma OnePressTooMany<W, S>(m: Machine<W, S>, route: map<W, u32>, exec: (S, string) -> S)
    requires m.decoder == IDLE && m.queue == []
    ensures var inputs := seq(QUEUE_CAP + 1, _ => Input<W>.Code(0x1e));
            !KeepsUp(m, inputs) && |Accepted(m, inputs, route, exec)| < |Typed(m, inputs, route, exec)|
  {
    var inputs := seq(QUEUE_CAP + 1, _ => Input<W>.Code(0x1e));
    PressesWait<W>(QUEUE_CAP + 1);
    assert inputs[..|inputs|] == inputs;
    AcceptsAllIff(m, inputs, route, exec);
    hide Waiting, Accepted, Typed;
  }

  /** When the dispatches keep up and none is pending, what a terminal has seen are the keys typed at
      its windows: two runs that agree on those leave its session in the same state, whatever was
      typed elsewhere and whenever the dispatches came. */
  lemma NoInterference<W, S>(m: Machine<W, S>, a: seq<Input<W>>, b: seq<Input<W>>, endpoint: u32, route: map<W, u32>,
                             exec: (S, string) -> S)
    requires endpoint in m.sessions && m.queue == []
    requires KeepsUp(m, a) && KeepsUp(m, b)
    requires Waiting(0, m.decoder, a) == 0 && Waiting(0, m.decoder, b) == 0
    requires KeysTo(Typed(m, a, route, exec), endpoint, route) == KeysTo(Typed(m, b, route, exec), endpoint, route)
    ensures Run(m, a, route, exec).sessions.Keys == Run(m, b, route, exec).sessions.Keys == m.sessions.Keys
    ensures Run(m, a, route, exec).sessions[endpoint] == Run(m, b, route, exec).sessions[endpoint]
  {
    SeenIsTyped(m, a, endpoint, route, exec);
    SeenIsTyped(m, b, endpoint, route, exec);
  }

  lemma SeenIsTyped<W, S>(m: Machine<W, S>, inputs: seq<Input<W>>, endpoint: u32, route: map<W, u32>,
                          exec: (S, string) -> S)
    requires endpoint in m.sessions && m.queue == []
    requires KeepsUp(m, inputs) && Waiting(0, m.decoder, inputs) == 0
    ensures Run(m, inputs, route, exec).sessions.Keys == m.sessions.Keys
    ensures Run(m, inputs, route, exec).sessions[endpoint]
            == HandleAll(m.sessions[endpoint], KeysTo(Typed(m, inputs, route, exec), endpoint, route), exec)
  {
    DeliveredOnce(m, inputs, route, exec);
    OverflowsIff(m, inputs, route, exec);
    AcceptsAllIff(m, inputs, route, exec);
    var d := Delivered(m, inputs, route, exec);
    OwnKeysOnly(m.sessions, d, endpoint, route, exec);
    hide *;
    NothingMore(Accepted(m, inputs, route, exec));
    NothingMore(d);
  }
}
