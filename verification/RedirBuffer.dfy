/** Parsing a line in place: the words stay in the line's buffer, cut apart by terminators. */
module RedirBuffer {
  import opened Words
  import opened RedirLex
  import opened RedirGrammar

  const NUL: char := '\0'

  datatype TokenKind = EndToken | WordToken | PipeToken | TruncToken | AppendToken

  /** What the parser fills in; words are places in the line. */
  class ParseResult {
    var left: seq<nat>
    var right: seq<nat>
    var hasPipe: bool
    var mode: Mode
    var path: Option<nat>

    constructor () {
      left, right, hasPipe, mode, path := [], [], false, NoRedirect, None;
    }

    method Init()
      modifies this
      ensures left == [] && right == [] && !hasPipe && mode == NoRedirect && path == None
    {
      left, right, hasPipe, mode, path := [], [], false, NoRedirect, None;
    }
  }

  // ----- the buffer

  /** The text from `from` to the terminator at `end`. */
  ghost predicate IsTail(buffer: seq<char>, from: nat, end: nat) {
    from <= end < |buffer| && buffer[end] == NUL && forall i :: from <= i < end ==> buffer[i] != NUL
  }

  /** A terminated string at a place in the buffer. */
  ghost predicate IsStringAt(buffer: seq<char>, at: nat, text: string) {
    && at + |text| < |buffer| && buffer[at + |text|] == NUL
    && forall i :: 0 <= i < |text| ==> buffer[at + i] == text[i] && text[i] != NUL
  }

  /** Between the places, everything but the words became a terminator; elsewhere nothing changed. */
  ghost predicate IsCut(was: seq<char>, buffer: seq<char>, from: nat, to: nat) {
    && |buffer| == |was|
    && forall i :: 0 <= i < |was| ==>
         buffer[i] == if from <= i < to && !IsWordChar(was[i]) then NUL else was[i]
  }

  /** Nothing was written but terminators, and those only between words. */
  ghost predicate OnlyCut(was: seq<char>, buffer: seq<char>, end: nat) {
    && |buffer| == |was|
    && forall i :: 0 <= i < |was| ==> buffer[i] == was[i] || (buffer[i] == NUL && i < end && !IsWordChar(was[i]))
  }

  lemma CutIsOnly(was: seq<char>, buffer: seq<char>, to: nat, end: nat)
    requires IsCut(was, buffer, 0, to) && to <= end
    ensures OnlyCut(was, buffer, end)
  {
  }

  lemma CutTwice(was: seq<char>, between: seq<char>, buffer: seq<char>, from: nat, middle: nat, to: nat)
    requires from <= middle <= to && IsCut(was, between, from, middle) && IsCut(between, buffer, middle, to)
    ensures IsCut(was, buffer, from, to)
  {
  }

  lemma CutKeepsTail(was: seq<char>, buffer: seq<char>, from: nat, to: nat, end: nat)
    requires IsTail(was, from, end) && from <= to <= end && IsCut(was, buffer, from, to)
    ensures IsTail(buffer, to, end) && buffer[to..end] == was[to..end]
  {
  }

  lemma CutKeepsString(was: seq<char>, buffer: seq<char>, from: nat, to: nat, at: nat, text: string)
    requires IsStringAt(was, at, text) && IsCut(was, buffer, from, to)
    requires forall i :: 0 <= i < |text| ==> IsWordChar(text[i])
    ensures IsStringAt(buffer, at, text)
  {
  }

  // ----- tokens

  /** The token that a step found, as the parser sees it. */
  ghost predicate Delivers(l: Lexeme, buffer: seq<char>, kind: TokenKind, word: nat, from: nat, to: nat) {
    match l
    case Done => kind == EndToken
    case Lexeme(token, _, _) =>
      match token
      case Word(w) => kind == WordToken && from <= word && word + |w| <= to && IsStringAt(buffer, word, w)
      case Pipe => kind == PipeToken
      case Trunc => kind == TruncToken
      case Append => kind == AppendToken
  }

  method SkipBlanks(line: array<char>, cursor: nat, ghost end: nat) returns (next: nat)
    requires IsTail(line[..], cursor, end)
    modifies line
    ensures cursor <= next <= end
    ensures IsCut(old(line[..]), line[..], cursor, next) && line[next..end] == Skip(old(line[cursor..end]))
  {
    ghost var was := line[..];
    next := cursor;
    while line[next] != NUL && IsBlank(line[next])
      invariant cursor <= next <= end
      invariant IsCut(was, line[..], cursor, next)
      invariant Skip(was[next..end]) == Skip(was[cursor..end])
      decreases end - next
    {
      assert was[next..end][1..] == was[next + 1..end];
      line[next] := NUL;
      next := next + 1;
    }
    assert line[next..end] == was[next..end];
  }

  method ScanWord(line: array<char>, cursor: nat, ghost end: nat) returns (next: nat)
    requires IsTail(line[..], cursor, end)
    ensures cursor <= next <= end && (next == end || !IsWordChar(line[next]))
    ensures line[cursor..next] == FirstWord(line[cursor..end]) && line[next..end] == AfterWord(line[cursor..end])
  {
    next := cursor;
    while line[next] != NUL && !IsBlank(line[next]) && line[next] != '|' && line[next] != '>'
      invariant cursor <= next <= end
      invariant forall i :: cursor <= i < next ==> IsWordChar(line[i])
      decreases end - next
    {
      next := next + 1;
    }
    FirstWordOf(line[cursor..next], line[next..end]);
    assert line[cursor..next] + line[next..end] == line[cursor..end];
  }

  /** A pending operator; its partner is looked for after the blanks. */
  method TakePending(line: array<char>, cursor: nat, pending: Pending, ghost end: nat)
    returns (kind: TokenKind, next: nat)
    requires IsTail(line[..], cursor, end) && pending != Nothing
    modifies line
    ensures cursor <= next <= end && IsCut(old(line[..]), line[..], cursor, next)
    ensures var l := LexPending(old(line[cursor..end]), pending);
            Delivers(l, line[..], kind, 0, cursor, next) && l.rest == line[next..end] && l.pending == Nothing
  {
    next := cursor;
    if pending == APipe {
      return PipeToken, next;
    }
    if line[next] == '>' {
      assert line[cursor..end][1..] == line[cursor + 1..end];
      line[next] := NUL;
      next := next + 1;
      return AppendToken, next;
    }
    return TruncToken, next;
  }

  method TakeOperator(line: array<char>, cursor: nat, ghost end: nat) returns (kind: TokenKind, next: nat)
    requires IsTail(line[..], cursor, end) && cursor < end && (line[cursor] == '|' || line[cursor] == '>')
    modifies line
    ensures cursor <= next <= end && IsCut(old(line[..]), line[..], cursor, next)
    ensures var l := LexOperator(old(line[cursor..end]));
            Delivers(l, line[..], kind, 0, cursor, next) && l.rest == line[next..end] && l.pending == Nothing
  {
    assert line[cursor..end][1..] == line[cursor + 1..end];
    var pipe := line[cursor] == '|';
    line[cursor] := NUL;
    next := cursor + 1;
    if pipe {
      return PipeToken, next;
    }
    if line[next] == '>' {
      assert line[cursor + 1..end][1..] == line[cursor + 2..end];
      line[next] := NUL;
      next := next + 1;
      return AppendToken, next;
    }
    return TruncToken, next;
  }

  /** A word, terminated where it ends; an operator that ended it becomes pending. */
  method TakeWord(line: array<char>, cursor: nat, ghost end: nat) returns (next: nat, pending: Pending)
    requires IsTail(line[..], cursor, end) && cursor < end && IsWordChar(line[cursor])
    modifies line
    ensures cursor <= next <= end && IsCut(old(line[..]), line[..], cursor, next)
    ensures var l := LexWord(old(line[cursor..end]));
            Delivers(l, line[..], WordToken, cursor, cursor, next) && l.rest == line[next..end] && l.pending == pending
  {
    ghost var was := line[..];
    ghost var text := line[cursor..end];
    next := ScanWord(line, cursor, end);
    ghost var w, after := FirstWord(text), AfterWord(text);
    assert w == was[cursor..next] && after == was[next..end];
    assert forall i :: cursor <= i < next ==> was[i] == w[i - cursor];
    assert forall i :: cursor <= i < next ==> IsWordChar(was[i]);
    hide FirstWord, AfterWord;
    if line[next] == NUL {
      assert next == end;
      return next, Nothing;
    }
    assert after[1..] == was[next + 1..end] && IsWordChar(line[next]) == false;
    pending := if line[next] == '|' then APipe else if line[next] == '>' then ARedirect else Nothing;
    line[next] := NUL;
    next := next + 1;
    assert IsStringAt(line[..], cursor, w);
    assert line[next..end] == was[next..end];
  }

  /** One token, and the line cut up to the new cursor. */
  method NextToken(line: array<char>, cursor: nat, pending: Pending, ghost end: nat)
    returns (kind: TokenKind, word: nat, next: nat, nextPending: Pending)
    requires IsTail(line[..], cursor, end)
    modifies line
    ensures cursor <= next <= end
    ensures IsCut(old(line[..]), line[..], cursor, next)
    ensures var l := LexStep(old(line[cursor..end]), pending);
            && Delivers(l, line[..], kind, word, cursor, next)
            && (l.Done? ==> next == end)
            && (l.Lexeme? ==> l.rest == line[next..end] && l.pending == nextPending)
  {
    ghost var was := line[..];
    ghost var text := line[cursor..end];
    var start := SkipBlanks(line, cursor, end);
    ghost var skipped := line[..];
    CutKeepsTail(was, skipped, cursor, start, end);
    assert LexStep(text, pending) == if pending != Nothing then LexPending(line[start..end], pending)
                                     else if start == end then Done
                                     else if StartsWord(line[start..end]) then LexWord(line[start..end])
                                     else LexOperator(line[start..end]);
    hide Skip, LexStep, LexPending, LexWord, LexOperator, IsCut;
    word, nextPending := 0, Nothing;
    if pending != Nothing {
      kind, next := TakePending(line, start, pending, end);
    } else if line[start] == NUL {
      assert start == end;
      CutNothing(skipped, start);
      return EndToken, 0, start, Nothing;
    } else if line[start] == '|' || line[start] == '>' {
      kind, next := TakeOperator(line, start, end);
    } else {
      word := start;
      kind := WordToken;
      next, nextPending := TakeWord(line, start, end);
    }
    CutTwice(was, skipped, line[..], cursor, start, next);
  }

  lemma CutNothing(buffer: seq<char>, at: nat)
    ensures IsCut(buffer, buffer, at, at)
  {
  }

  // ----- the command

  ghost predicate IsWordAt(buffer: seq<char>, at: nat, text: string) {
    IsProperWord(text) && IsStringAt(buffer, at, text)
  }

  ghost predicate AreWordsAt(buffer: seq<char>, at: seq<nat>, words: seq<string>) {
    |at| == |words| && forall i :: 0 <= i < |at| ==> IsWordAt(buffer, at[i], words[i])
  }

  /** The result holds what was read so far: every word is a terminated string in the buffer. */
  ghost predicate Shows(out: ParseResult, buffer: seq<char>, p: Partial)
    reads out
  {
    && AreWordsAt(buffer, out.left, p.left)
    && out.hasPipe == p.right.Some?
    && (if out.hasPipe then AreWordsAt(buffer, out.right, p.right.value) else out.right == [])
    && out.mode == p.mode
    && out.path.Some? == p.path.Some?
    && (out.path.Some? ==> IsWordAt(buffer, out.path.value, p.path.value))
  }

  /** The result is the command, its words terminated strings in the buffer. */
  ghost predicate Holds(out: ParseResult, buffer: seq<char>, cmd: Command)
    reads out
  {
    && AreWordsAt(buffer, out.left, cmd.left)
    && out.hasPipe == cmd.right.Some?
    && (out.hasPipe ==> AreWordsAt(buffer, out.right, cmd.right.value))
    && out.mode == (if cmd.redirect.None? then NoRedirect else if cmd.redirect.value.append then AppendMode
                    else TruncMode)
    && out.path.Some? == cmd.redirect.Some?
    && (out.path.Some? ==> IsWordAt(buffer, out.path.value, cmd.redirect.value.path))
  }

  lemma CutKeepsWords(was: seq<char>, buffer: seq<char>, from: nat, to: nat, at: seq<nat>, words: seq<string>)
    requires AreWordsAt(was, at, words) && IsCut(was, buffer, from, to)
    ensures AreWordsAt(buffer, at, words)
  {
    forall i | 0 <= i < |at| ensures IsWordAt(buffer, at[i], words[i]) {
      assert IsWordAt(was, at[i], words[i]);
      CutKeepsString(was, buffer, from, to, at[i], words[i]);
    }
  }

  lemma CutKeepsShows(out: ParseResult, was: seq<char>, buffer: seq<char>, from: nat, to: nat, p: Partial)
    requires Shows(out, was, p) && IsCut(was, buffer, from, to)
    ensures Shows(out, buffer, p)
  {
    CutKeepsWords(was, buffer, from, to, out.left, p.left);
    if out.hasPipe {
      CutKeepsWords(was, buffer, from, to, out.right, p.right.value);
    }
    if out.path.Some? {
      CutKeepsString(was, buffer, from, to, out.path.value, p.path.value);
    }
  }

  ghost predicate Denotes(token: Token, buffer: seq<char>, kind: TokenKind, word: nat) {
    match token
    case Word(w) => kind == WordToken && IsWordAt(buffer, word, w)
    case Pipe => kind == PipeToken
    case Trunc => kind == TruncToken
    case Append => kind == AppendToken
  }

  /** One step of the recogniser on the result. */
  method Take(out: ParseResult, kind: TokenKind, word: nat, needPath: bool,
              ghost p: Partial, ghost token: Token, ghost buffer: seq<char>)
    returns (ok: bool, needs: bool)
    requires Sane(p) && Shows(out, buffer, p) && needPath == NeedsPath(p)
    requires Denotes(token, buffer, kind, word)
    modifies out
    ensures ok == Step(p, token).Some?
    ensures ok ==> Shows(out, buffer, Step(p, token).value) && needs == NeedsPath(Step(p, token).value)
  {
    hide IsWordAt;
    if kind == WordToken {
      if needPath {
        out.path := Some(word);
        return true, false;
      }
      if out.mode != NoRedirect {
        return false, false;
      }
      if |if out.hasPipe then out.right else out.left| >= ARGV_CAP {
        return false, false;
      }
      if out.hasPipe {
        out.right := out.right + [word];
      } else {
        out.left := out.left + [word];
      }
      return true, false;
    }
    if needPath {
      return false, false;
    }
    if kind == PipeToken {
      if out.hasPipe || out.mode != NoRedirect || |out.left| == 0 {
        return false, false;
      }
      out.hasPipe := true;
      return true, false;
    }
    if out.mode != NoRedirect {
      return false, false;
    }
    out.mode := if kind == AppendToken then AppendMode else TruncMode;
    return true, true;
  }

  /** What is still to come: the rest of the line decides what the whole line is. */
  ghost predicate OnTrack(text: string, p: Partial, rest: string, pending: Pending) {
    ParseFrom(p, Lex(rest, pending)) == ParseLine(text)
  }

  lemma TrackStep(text: string, p: Partial, rest: string, pending: Pending)
    requires OnTrack(text, p, rest, pending)
    ensures match LexStep(rest, pending)
            case Done => Finish(p) == ParseLine(text)
            case Lexeme(token, more, next) =>
              match Step(p, token)
              case None => ParseLine(text) == None
              case Some(q) => OnTrack(text, q, more, next)
  {
    var l := LexStep(rest, pending);
    assert l.Done? ==> Lex(rest, pending) == [];
    if l.Lexeme? {
      LexUnfold(rest, pending);
      assert ([l.token] + Lex(l.rest, l.pending))[1..] == Lex(l.rest, l.pending);
    }
    hide LexStep, Lex, Step, Finish;
  }

  /** What a token leaves as it was, and how far the line is cut then. */
  lemma Advance(out: ParseResult, was: seq<char>, before: seq<char>, buffer: seq<char>,
                cursor: nat, next: nat, end: nat, p: Partial)
    requires IsCut(was, before, 0, cursor) && IsCut(before, buffer, cursor, next)
    requires IsTail(before, cursor, end) && cursor <= next <= end && Shows(out, before, p)
    ensures IsCut(was, buffer, 0, next) && OnlyCut(was, buffer, end) && IsTail(buffer, next, end)
            && Shows(out, buffer, p)
  {
    CutTwice(was, before, buffer, 0, cursor, next);
    CutIsOnly(was, buffer, next, end);
    CutKeepsTail(before, buffer, cursor, next, end);
    CutKeepsShows(out, before, buffer, cursor, next, p);
  }

  lemma Delivered(rest: string, pending: Pending, buffer: seq<char>, kind: TokenKind, word: nat, from: nat, to: nat)
    requires Delivers(LexStep(rest, pending), buffer, kind, word, from, to)
    ensures kind == EndToken <==> LexStep(rest, pending) == Done
    ensures kind != EndToken ==>
              var l := LexStep(rest, pending);
              Denotes(l.token, buffer, kind, word) && Weight(l.rest, l.pending) < Weight(rest, pending)
  {
    StepCovers(rest, pending);
    if kind != EndToken {
      StepShrinks(rest, pending);
    }
    hide LexStep, Weight;
  }

  /** At the end of the line the result is the command, or there is none. */
  lemma Finished(out: ParseResult, buffer: seq<char>, p: Partial)
    requires Sane(p) && Shows(out, buffer, p)
    ensures (NeedsPath(p) || |out.left| == 0 || (out.hasPipe && |out.right| == 0)) <==> Finish(p) == None
    ensures Finish(p).Some? ==> Holds(out, buffer, Finish(p).value)
  {
  }

  /** The line is cut in place into the words of its command. */
  method ParseWithRedirection(line: array<char>, out: ParseResult, ghost end: nat) returns (ok: bool)
    requires IsTail(line[..], 0, end)
    modifies line, out
    ensures ok == ParseLine(old(line[..end])).Some?
    ensures ok ==> Holds(out, line[..], ParseLine(old(line[..end])).value)
    ensures ok ==> IsCut(old(line[..]), line[..], 0, end)
    ensures OnlyCut(old(line[..]), line[..], end)
  {
    out.Init();
    ghost var was, text := line[..], line[..end];
    ghost var p := START;
    var cursor, pending, needPath := 0, Nothing, false;
    CutNothing(was, 0);
    assert line[0..end] == text;
    hide *;
    while true
      invariant IsTail(line[..], cursor, end) && IsCut(was, line[..], 0, cursor)
      invariant Sane(p) && Shows(out, line[..], p) && needPath == NeedsPath(p)
      invariant OnTrack(text, p, line[cursor..end], pending)
      decreases Weight(line[cursor..end], pending)
    {
      ghost var before, rest := line[..], line[cursor..end];
      var kind, word, next, nextPending := NextToken(line, cursor, pending, end);
      Advance(out, was, before, line[..], cursor, next, end, p);
      TrackStep(text, p, rest, pending);
      Delivered(rest, pending, line[..], kind, word, cursor, next);
      if kind == EndToken {
        cursor := next;
        break;
      }
      ghost var token := LexStep(rest, pending).token;
      var accepted;
      accepted, needPath := Take(out, kind, word, needPath, p, token, line[..]);
      if !accepted {
        return false;
      }
      StepReads(p, token);
      p := Step(p, token).value;
      cursor, pending := next, nextPending;
    }
    Finished(out, line[..], p);
    if needPath || |out.left| == 0 || (out.hasPipe && |out.right| == 0) {
      return false;
    }
    return true;
  }
}
