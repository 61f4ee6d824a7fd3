/** The keyboard driver: scancodes in, a ring of keys out. */
module Keyboards {
  import opened Words
  import opened Layers
  import opened TerminalSessions
  import opened Scancodes
  import opened KeyRouting

  function Focused(window: Window?): Option<Window> {
    if window == null then None else Some(window)
  }

  /** A place in the ring, counted from the read index. */
  function At(readIndex: nat, i: nat): nat {
    if readIndex + i >= QUEUE_CAP then readIndex + i - QUEUE_CAP else readIndex + i
  }

  /** The pending entries of a ring, oldest first. */
  ghost function Pending(events: seq<Key>, windows: seq<Window?>, readIndex: nat, count: nat): (q: seq<Entry<Window>>)
    requires |events| == |windows| == QUEUE_CAP && readIndex < QUEUE_CAP && count <= QUEUE_CAP
    ensures |q| == count
  {
    seq(count, i requires 0 <= i < count => Entry(events[At(readIndex, i)], Focused(windows[At(readIndex, i)])))
  }

  lemma PendingPush(events: seq<Key>, windows: seq<Window?>, readIndex: nat, count: nat, key: Key, window: Window?)
    requires |events| == |windows| == QUEUE_CAP && readIndex < QUEUE_CAP && count < QUEUE_CAP
    ensures var w := At(readIndex, count);
            Pending(events[w := key], windows[w := window], readIndex, count + 1)
            == Pending(events, windows, readIndex, count) + [Entry(key, Focused(window))]
  {
  }

  lemma PendingPop(events: seq<Key>, windows: seq<Window?>, readIndex: nat, count: nat)
    requires |events| == |windows| == QUEUE_CAP && readIndex < QUEUE_CAP && 0 < count <= QUEUE_CAP
    ensures var q := Pending(events, windows, readIndex, count);
            && q[0] == Entry(events[readIndex], Focused(windows[readIndex]))
            && q[1..] == Pending(events, windows[readIndex := null], At(readIndex, 1), count - 1)
  {
  }

  lemma KeyIs(code: byte, shift: bool)
    ensures KeyFor(code, shift) == if ControlFor(code) != 0 then Some(Control(code, ControlFor(code)))
                                   else if Printable(code, shift) != '\0' then Some(Text(code, Printable(code, shift)))
                                   else None
  {
    hide Printable, ControlFor;
  }

  class Keyboard {
    const events: array<Key>
    const focusWindows: array<Window?>
    var readIndex: nat
    var writeIndex: nat
    var count: nat
    var shiftMask: bv8
    var sawPrefix: bool

    predicate Attached() {
      events.Length == QUEUE_CAP && focusWindows.Length == QUEUE_CAP
    }

    ghost predicate Valid()
      reads this
    {
      && Attached()
      && readIndex < QUEUE_CAP && count <= QUEUE_CAP
      && writeIndex == At(readIndex, if count == QUEUE_CAP then 0 else count)
      && shiftMask < 4
    }

    ghost function Queue(): seq<Entry<Window>>
      requires Valid()
      reads this, events, focusWindows
    {
      Pending(events[..], focusWindows[..], readIndex, count)
    }

    function State(): Decoder
      reads this
    {
      Decoder(shiftMask & 1 != 0, shiftMask & 2 != 0, sawPrefix)
    }

    constructor ()
      ensures Valid() && Queue() == [] && State() == IDLE && fresh(events) && fresh(focusWindows)
    {
      events := new Key[QUEUE_CAP](_ => Text(0, '\0'));
      focusWindows := new Window?[QUEUE_CAP](_ => null);
      readIndex, writeIndex, count, shiftMask, sawPrefix := 0, 0, 0, 0, false;
    }

    method Push(key: Key, focus: Window?) returns (status: int)
      requires Valid()
      modifies this`writeIndex, this`count, events, focusWindows
      ensures Valid() && Queue() == Queued(old(Queue()), Some(key), Focused(focus))
      ensures status == if |old(Queue())| < QUEUE_CAP then 0 else -1
    {
      if count >= QUEUE_CAP {
        return -1;
      }
      ghost var wasEvents, wasWindows := events[..], focusWindows[..];
      PendingPush(wasEvents, wasWindows, readIndex, count, key, focus);
      hide Pending;
      events[writeIndex] := key;
      focusWindows[writeIndex] := focus;
      assert events[..] == wasEvents[At(readIndex, count) := key];
      assert focusWindows[..] == wasWindows[At(readIndex, count) := focus];
      writeIndex := writeIndex + 1;
      if writeIndex >= QUEUE_CAP {
        writeIndex := 0;
      }
      count := count + 1;
      return 0;
    }

    /** A key press is queued with the focus of the moment, or dropped when the queue is full. */
    method Press(code: byte, focus: Window?) returns (status: int)
      requires Valid()
      modifies this`writeIndex, this`count, events, focusWindows
      ensures Valid()
      ensures Queue() == Queued(old(Queue()), KeyFor(code, shiftMask != 0), Focused(focus))
      ensures status == if KeyFor(code, shiftMask != 0).Some? && |old(Queue())| >= QUEUE_CAP then -1 else 0
    {
      hide Pending, KeyFor, Printable, ControlFor;
      KeyIs(code, shiftMask != 0);
      var control := ControlFor(code);
      if control != 0 {
        status := Push(Control(code, control), focus);
        return;
      }
      var printable := Printable(code, shiftMask != 0);
      if printable == '\0' {
        return 0;
      }
      status := Push(Text(code, printable), focus);
    }

    /** One byte is one decoder step; only a key press reaches the queue. */
    method HandleScancode(code: byte, focus: Window?) returns (status: int)
      requires Valid()
      modifies this, events, focusWindows
      ensures Valid() && State() == Decode(old(State()), code).0
      ensures Queue() == Queued(old(Queue()), Decode(old(State()), code).1, Focused(focus))
      ensures status == if Decode(old(State()), code).1.Some? && |old(Queue())| >= QUEUE_CAP then -1 else 0
    {
      hide Pending, KeyFor;
      if code == PREFIX {
        sawPrefix := true;
        return 0;
      }
      if sawPrefix {
        sawPrefix := false;
        return 0;
      }
      var released, keycode := code >= 0x80, code % 0x80;
      if keycode == LEFT_SHIFT {
        shiftMask := if released then shiftMask & 0xfe else shiftMask | 0x01;
        return 0;
      }
      if keycode == RIGHT_SHIFT {
        shiftMask := if released then shiftMask & 0xfd else shiftMask | 0x02;
        return 0;
      }
      if released {
        return 0;
      }
      status := Press(keycode, focus);
    }

    method Pop() returns (entry: Option<Entry<Window>>)
      requires Valid()
      modifies this`readIndex, this`count, focusWindows
      ensures Valid()
      ensures if old(Queue()) == [] then entry == None && Queue() == []
              else entry == Some(old(Queue())[0]) && Queue() == old(Queue())[1..]
    {
      if count == 0 {
        return None;
      }
      ghost var windows := focusWindows[..];
      PendingPop(events[..], windows, readIndex, count);
      hide Pending;
      entry := Some(Entry(events[readIndex], Focused(focusWindows[readIndex])));
      focusWindows[readIndex] := null;
      assert focusWindows[..] == windows[readIndex := null];
      readIndex := readIndex + 1;
      if readIndex >= QUEUE_CAP {
        readIndex := 0;
      }
      count := count - 1;
    }
  }
}
