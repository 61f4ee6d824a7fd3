/** One terminal: its line buffer, its history of executed lines, and the shell state behind it. */
module TerminalSessions {
  import opened Words

  const INPUT_CAP: nat := 128
  const HISTORY_CAP: nat := 8
  const ENTER: byte := 1
  const BACKSPACE: byte := 2
  const TAB: byte := 3
  const ESCAPE: byte := 4

  datatype Key = Text(scancode: byte, text: char) | Control(scancode: byte, control: byte)

  /** A session as a value. `body` is everything that running a line can change. */
  datatype Session<S> = Session(input: string, history: seq<string>, lines: u32, body: S)

  predicate IsShown(c: char) {
    ' ' <= c <= '~'
  }

  predicate HasWord(line: string) {
    exists i :: 0 <= i < |line| && line[i] != ' ' && line[i] != '\t'
  }

  function LastLines(lines: seq<string>): (r: seq<string>)
    ensures |r| == Min(|lines|, 8) && r == lines[|lines| - |r|..]
  {
    if |lines| <= HISTORY_CAP then lines else lines[|lines| - HISTORY_CAP..]
  }

  /** A 32-bit counter after some increments. */
  function Counted(x: u32, n: nat): u32 {
    (x + n) % U32_LIMIT
  }

  lemma CountedOne(x: u32, n: nat)
    ensures Counted(Counted(x, n), 1) == Counted(x, n + 1)
  {
  }

  /** A line without a word is not run and leaves no trace. */
  function Executed<S>(s: Session<S>, line: string, exec: (S, string) -> S): Session<S> {
    if HasWord(line)
    then s.(history := LastLines(s.history + [line]), lines := Counted(s.lines, 1), body := exec(s.body, line))
    else s
  }

  function Handle<S>(s: Session<S>, key: Key, exec: (S, string) -> S): Session<S> {
    match key
    case Text(_, c) => if IsShown(c) && |s.input| + 1 < INPUT_CAP then s.(input := s.input + [c]) else s
    case Control(_, control) =>
      if control == BACKSPACE then (if s.input == "" then s else s.(input := s.input[..|s.input| - 1]))
      else if control == ENTER then Executed(s, s.input, exec).(input := "")
      else s
  }

  function HandleAll<S>(s: Session<S>, keys: seq<Key>, exec: (S, string) -> S): Session<S>
    decreases |keys|
  {
    if keys == [] then s else Handle(HandleAll(s, keys[..|keys| - 1], exec), keys[|keys| - 1], exec)
  }

  /** A line is run exactly when it is not all spaces and tabs; then it ends the history, which
      keeps eight lines, is counted, and changes the body. */
  lemma ExecutedMeans<S>(s: Session<S>, line: string, exec: (S, string) -> S)
    requires |s.history| <= 8
    ensures (forall i :: 0 <= i < |line| ==> line[i] in {' ', '\t'}) ==> Executed(s, line, exec) == s
    ensures (exists i :: 0 <= i < |line| && line[i] !in {' ', '\t'}) ==>
              var r := Executed(s, line, exec);
              && r.input == s.input && r.body == exec(s.body, line) && r.lines == (s.lines + 1) % U32_LIMIT
              && r.history == (if |s.history| < 8 then s.history else s.history[1..]) + [line]
  {
  }

  /** Which keys edit the line: printing characters while there is room, and backspace. */
  lemma KeysEdit<S>(s: Session<S>, code: byte, c: char, exec: (S, string) -> S)
    ensures Handle(s, Text(code, c), exec) ==
            if 0x20 <= c as int <= 0x7e && |s.input| < 127 then s.(input := s.input + [c]) else s
    ensures Handle(s, Control(code, BACKSPACE), exec) ==
            s.(input := if s.input == "" then "" else s.input[..|s.input| - 1])
    ensures Handle(s, Control(code, ENTER), exec) == Executed(s, s.input, exec).(input := "")
    ensures Handle(s, Control(code, TAB), exec) == Handle(s, Control(code, ESCAPE), exec) == s
  {
    hide Executed;
  }

  // ----- what was typed

  /** The line being edited after some keys. */
  function Edited(input: string, keys: seq<Key>): (r: string)
    decreases |keys|
  {
    if keys == [] then input
    else
      var line, key := Edited(input, keys[..|keys| - 1]), keys[|keys| - 1];
      match key
      case Text(_, c) => if IsShown(c) && |line| + 1 < INPUT_CAP then line + [c] else line
      case Control(_, control) =>
        if control == BACKSPACE && line != "" then line[..|line| - 1] else if control == ENTER then "" else line
  }

  /** The lines that were entered and had a word, in order. */
  function Entered(input: string, keys: seq<Key>): seq<string>
    decreases |keys|
  {
    if keys == [] then []
    else
      var before, key := keys[..|keys| - 1], keys[|keys| - 1];
      var line := Edited(input, before);
      Entered(input, before) + if key.Control? && key.control == ENTER && HasWord(line) then [line] else []
  }

  function ExecAll<S>(body: S, lines: seq<string>, exec: (S, string) -> S): S
    decreases |lines|
  {
    if lines == [] then body else exec(ExecAll(body, lines[..|lines| - 1], exec), lines[|lines| - 1])
  }

  lemma LastOfLast(lines: seq<string>, line: string)
    ensures LastLines(LastLines(lines) + [line]) == LastLines(lines + [line])
  {
  }

  /** The session after some lines were entered, with another being edited. */
  ghost predicate Tracks<S>(s: Session<S>, r: Session<S>, lines: seq<string>, line: string, exec: (S, string) -> S) {
    && r.input == line
    && r.history == LastLines(s.history + lines)
    && r.lines == Counted(s.lines, |lines|)
    && r.body == ExecAll(s.body, lines, exec)
  }

  lemma OneMoreLine<S>(s: Session<S>, r: Session<S>, lines: seq<string>, line: string, exec: (S, string) -> S)
    requires Tracks(s, r, lines, line, exec) && HasWord(line)
    ensures Tracks(s, Executed(r, line, exec).(input := ""), lines + [line], "", exec)
  {
    var more := lines + [line];
    assert s.history + more == s.history + lines + [line];
    assert more[..|lines|] == lines && more[|lines|] == line && |more| == |lines| + 1;
    LastOfLast(s.history + lines, line);
    CountedOne(s.lines, |lines|);
    assert ExecAll(s.body, more, exec) == exec(ExecAll(s.body, lines, exec), line);
    hide LastLines, HasWord, Counted, ExecAll;
  }

  /** The shell ran exactly the entered lines, in order; the history is the last eight of them. */
  lemma {:induction false} HistoryIsLastLines<S>(s: Session<S>, keys: seq<Key>, exec: (S, string) -> S)
    requires |s.history| <= HISTORY_CAP
    ensures Tracks(s, HandleAll(s, keys, exec), Entered(s.input, keys), Edited(s.input, keys), exec)
    decreases |keys|
  {
    if keys == [] {
      assert s.history + [] == s.history;
    } else {
      var before, key := keys[..|keys| - 1], keys[|keys| - 1];
      HistoryIsLastLines(s, before, exec);
      var r, lines, line := HandleAll(s, before, exec), Entered(s.input, before), Edited(s.input, before);
      var again := key.Control? && key.control == ENTER && HasWord(line);
      assert HandleAll(s, keys, exec) == Handle(r, key, exec) && r.input == line;
      assert Entered(s.input, keys) == if again then lines + [line] else lines;
      assert Edited(s.input, keys) == Handle(r, key, exec).input;
      hide HandleAll, Entered, Edited, LastLines, ExecAll, Counted;
      if again {
        OneMoreLine(s, r, lines, line, exec);
        hide Tracks;
      } else {
        hide HasWord;
      }
    }
  }

  // ----- the session

  /** The lines of a ring, oldest first. */
  function StoredLines(ring: seq<string>, count: nat, head: nat): (h: seq<string>)
    requires |ring| == HISTORY_CAP && count <= HISTORY_CAP && head < HISTORY_CAP
  {
    if count < HISTORY_CAP then ring[..count] else ring[head..] + ring[..head]
  }

  lemma StoredNext(ring: seq<string>, count: nat, line: string)
    requires |ring| == HISTORY_CAP && count < HISTORY_CAP
    ensures StoredLines(ring[count := line], count + 1, 0) == LastLines(StoredLines(ring, count, 0) + [line])
  {
  }

  lemma StoredOver(ring: seq<string>, head: nat, line: string)
    requires |ring| == HISTORY_CAP && head < HISTORY_CAP
    ensures StoredLines(ring[head := line], HISTORY_CAP, if head + 1 >= HISTORY_CAP then 0 else head + 1)
            == LastLines(StoredLines(ring, HISTORY_CAP, head) + [line])
  {
    var before := StoredLines(ring, HISTORY_CAP, head) + [line];
    assert |before| == HISTORY_CAP + 1 && LastLines(before) == before[1..];
    if head + 1 >= HISTORY_CAP {
      assert ring[head := line] == before[1..];
    } else {
      var after := ring[head := line];
      assert after[head + 1..] == ring[head + 1..] && after[..head + 1] == ring[..head] + [line];
      assert before[1..] == ring[head + 1..] + (ring[..head] + [line]);
    }
  }

  class TerminalSession<S> {
    const endpoint: u32
    const buffer: array<char>
    var length: nat
    const ring: array<string>
    var count: nat
    var head: nat
    var lines: u32
    var body: S

    ghost predicate Valid()
      reads this, buffer, ring
    {
      && buffer.Length == INPUT_CAP && length < INPUT_CAP && buffer[length] == '\0'
      && (forall i :: 0 <= i < length ==> IsShown(buffer[i]))
      && ring.Length == HISTORY_CAP && count <= HISTORY_CAP && head < HISTORY_CAP
      && (count < HISTORY_CAP ==> head == 0)
    }

    /** The stored lines, oldest first. */
    function History(): (h: seq<string>)
      requires ring.Length == HISTORY_CAP && count <= HISTORY_CAP && head < HISTORY_CAP
      reads this, ring
    {
      StoredLines(ring[..], count, head)
    }

    function View(): (v: Session<S>)
      requires buffer.Length == INPUT_CAP && length < INPUT_CAP
      requires ring.Length == HISTORY_CAP && count <= HISTORY_CAP && head < HISTORY_CAP
      reads this, buffer, ring
    {
      Session(buffer[..length], History(), lines, body)
    }

    constructor (endpoint: u32, body: S)
      ensures Valid() && View() == Session("", [], 0, body) && this.endpoint == endpoint
      ensures fresh(buffer) && fresh(ring)
    {
      this.endpoint, this.body := endpoint, body;
      buffer := new char[INPUT_CAP](_ => '\0');
      ring := new string[HISTORY_CAP](_ => "");
      length, count, head, lines := 0, 0, 0, 0;
    }

    /** Append while there is room, then overwrite the oldest. */
    method StoreHistory(line: string)
      requires Valid()
      modifies this`count, this`head, ring
      ensures Valid() && History() == LastLines(old(History()) + [line])
    {
      ghost var stored := ring[..];
      hide StoredLines, LastLines;
      var index;
      if count < HISTORY_CAP {
        StoredNext(stored, count, line);
        index := count;
        count := count + 1;
      } else {
        StoredOver(stored, head, line);
        index := head;
        head := head + 1;
        if head >= HISTORY_CAP {
          head := 0;
        }
      }
      ring[index] := line;
      assert ring[..] == stored[index := line];
    }

    method ExecuteLine(line: CString, exec: (S, string) -> S) returns (status: int)
      requires Valid()
      modifies this`count, this`head, this`lines, this`body, ring
      ensures Valid()
      ensures status == if |line| < INPUT_CAP then 0 else -1
      ensures View() == if |line| < INPUT_CAP then Executed(old(View()), line, exec) else old(View())
    {
      if |line| >= INPUT_CAP {
        return -1;
      }
      if !HasWord(line) {
        return 0;
      }
      StoreHistory(line);
      lines := Counted(lines, 1);
      body := exec(body, line);
      return 0;
    }

    /** One key is one step of the specification; only a full line is refused. */
    method HandleEvent(key: Key, exec: (S, string) -> S) returns (status: int)
      requires Valid()
      modifies this, buffer, ring
      ensures Valid() && View() == Handle(old(View()), key, exec)
      ensures status == if key.Text? && IsShown(key.text) && old(length) + 1 >= INPUT_CAP then -1 else 0
    {
      match key
      case Text(_, c) =>
        if !IsShown(c) {
          return 0;
        }
        if length + 1 >= INPUT_CAP {
          return -1;
        }
        buffer[length] := c;
        length := length + 1;
        buffer[length] := '\0';
        return 0;
      case Control(_, control) =>
        if control == BACKSPACE {
          if length > 0 {
            length := length - 1;
            buffer[length] := '\0';
          }
          return 0;
        }
        if control == ENTER {
          status := ExecuteLine(buffer[..length], exec);
          length := 0;
          buffer[0] := '\0';
          return status;
        }
        return 0;
    }
  }
}
