/** The grammar of a command line with one pipe and one redirection. */
module RedirGrammar {
  import opened Words
  import opened RedirLex

  const ARGV_CAP: nat := 16

  datatype Redirection = Redirection(append: bool, path: string)

  datatype Command = Command(left: seq<string>, right: Option<seq<string>>, redirect: Option<Redirection>)

  // ----- the grammar

  predicate IsArgv(words: seq<string>) {
    1 <= |words| <= ARGV_CAP
  }

  predicate IsCommand(cmd: Command) {
    IsArgv(cmd.left) && (cmd.right.Some? ==> IsArgv(cmd.right.value))
  }

  function AsTokens(words: seq<string>): (t: seq<Token>)
    ensures |t| == |words| && forall i :: 0 <= i < |t| ==> t[i] == Word(words[i])
  {
    seq(|words|, i requires 0 <= i < |words| => Word(words[i]))
  }

  function Operator(append: bool): Token {
    if append then Append else Trunc
  }

  /** The token stream of a command. */
  function Emit(cmd: Command): seq<Token> {
    AsTokens(cmd.left)
    + (if cmd.right.Some? then [Pipe] + AsTokens(cmd.right.value) else [])
    + (if cmd.redirect.Some? then [Operator(cmd.redirect.value.append), Word(cmd.redirect.value.path)] else [])
  }

  // ----- the recogniser

  datatype Mode = NoRedirect | TruncMode | AppendMode

  /** What was read so far. */
  datatype Partial = Partial(left: seq<string>, right: Option<seq<string>>, mode: Mode, path: Option<string>)

  const START: Partial := Partial([], None, NoRedirect, None)

  predicate NeedsPath(p: Partial) {
    p.mode != NoRedirect && p.path.None?
  }

  /** The command that words go to. */
  function Current(p: Partial): seq<string> {
    if p.right.Some? then p.right.value else p.left
  }

  function WithCurrent(p: Partial, words: seq<string>): Partial {
    if p.right.Some? then p.(right := Some(words)) else p.(left := words)
  }

  function Step(p: Partial, token: Token): Option<Partial> {
    match token
    case Word(w) =>
      if NeedsPath(p) then Some(p.(path := Some(w)))
      else if p.mode != NoRedirect || |Current(p)| >= ARGV_CAP then None
      else Some(WithCurrent(p, Current(p) + [w]))
    case Pipe =>
      if NeedsPath(p) || p.right.Some? || p.mode != NoRedirect || |Current(p)| == 0 then None
      else Some(p.(right := Some([])))
    case _ =>
      if NeedsPath(p) || p.mode != NoRedirect then None
      else Some(p.(mode := if token == Append then AppendMode else TruncMode))
  }

  function Finish(p: Partial): Option<Command> {
    if NeedsPath(p) || |p.left| == 0 || (p.right.Some? && |p.right.value| == 0) then None
    else Some(Command(p.left, p.right, if p.path.Some? then Some(Redirection(p.mode == AppendMode, p.path.value))
                      else None))
  }

  function ParseFrom(p: Partial, tokens: seq<Token>): Option<Command>
    decreases |tokens|
  {
    if tokens == [] then Finish(p)
    else match Step(p, tokens[0])
      case None => None
      case Some(q) => ParseFrom(q, tokens[1..])
  }

  function Parse(tokens: seq<Token>): Option<Command> {
    ParseFrom(START, tokens)
  }

  function ParseLine(line: string): Option<Command> {
    Parse(Lex(line, Nothing))
  }

  // ----- only the grammar's streams are accepted

  predicate Sane(p: Partial) {
    && |p.left| <= ARGV_CAP
    && (p.right.Some? ==> |p.right.value| <= ARGV_CAP && p.left != [])
    && (p.path.Some? ==> p.mode != NoRedirect)
  }

  /** The tokens read so far. */
  function Read(p: Partial): seq<Token> {
    AsTokens(p.left)
    + (if p.right.Some? then [Pipe] + AsTokens(p.right.value) else [])
    + (if p.mode == NoRedirect then [] else [Operator(p.mode == AppendMode)])
    + (if p.path.Some? then [Word(p.path.value)] else [])
  }

  lemma AsTokensAppend(words: seq<string>, w: string)
    ensures AsTokens(words + [w]) == AsTokens(words) + [Word(w)]
  {
  }

  lemma StepReads(p: Partial, token: Token)
    requires Sane(p) && Step(p, token).Some?
    ensures Sane(Step(p, token).value) && Read(Step(p, token).value) == Read(p) + [token]
  {
    if token.Word? && !NeedsPath(p) {
      AsTokensAppend(Current(p), token.text);
    }
  }

  lemma {:induction false} ParsedIsEmitted(p: Partial, tokens: seq<Token>)
    requires Sane(p) && ParseFrom(p, tokens).Some?
    ensures IsCommand(ParseFrom(p, tokens).value) && Emit(ParseFrom(p, tokens).value) == Read(p) + tokens
    decreases |tokens|
  {
    if tokens == [] {
      assert Read(p) + tokens == Read(p);
    } else {
      StepReads(p, tokens[0]);
      var q := Step(p, tokens[0]).value;
      ParsedIsEmitted(q, tokens[1..]);
      hide Step, Read, Emit;
      assert Read(p) + [tokens[0]] + tokens[1..] == Read(p) + tokens;
    }
  }

  // ----- all of the grammar's streams are accepted

  lemma {:induction false} ReadWords(p: Partial, words: seq<string>, rest: seq<Token>)
    requires p.mode == NoRedirect && |Current(p)| + |words| <= ARGV_CAP
    ensures ParseFrom(p, AsTokens(words) + rest) == ParseFrom(WithCurrent(p, Current(p) + words), rest)
    decreases |words|
  {
    var tokens := AsTokens(words) + rest;
    if words == [] {
      assert tokens == rest && Current(p) + words == Current(p);
    } else {
      var q := WithCurrent(p, Current(p) + [words[0]]);
      assert tokens[0] == Word(words[0]) && tokens[1..] == AsTokens(words[1..]) + rest;
      assert Current(p) + [words[0]] + words[1..] == Current(p) + words;
      ReadWords(q, words[1..], rest);
    }
  }

  lemma ReadOperator(p: Partial, token: Token, rest: seq<Token>)
    requires Step(p, token).Some?
    ensures ParseFrom(p, [token] + rest) == ParseFrom(Step(p, token).value, rest)
  {
    assert ([token] + rest)[1..] == rest;
  }

  lemma ReadRedirect(p: Partial, redirect: Redirection)
    requires p.mode == NoRedirect && p.path == None
    ensures ParseFrom(p, [Operator(redirect.append), Word(redirect.path)])
            == Finish(p.(mode := if redirect.append then AppendMode else TruncMode, path := Some(redirect.path)))
  {
    var op, path := Operator(redirect.append), Word(redirect.path);
    assert [op] + [path] == [op, path] && [path] + [] == [path];
    ReadOperator(p, op, [path]);
    ReadOperator(Step(p, op).value, path, []);
  }

  lemma EmittedIsParsed(cmd: Command)
    requires IsCommand(cmd)
    ensures Parse(Emit(cmd)) == Some(cmd)
  {
    var tail := if cmd.redirect.Some? then [Operator(cmd.redirect.value.append), Word(cmd.redirect.value.path)] else [];
    var read := Partial(cmd.left, cmd.right, NoRedirect, None);
    assert [] + cmd.left == cmd.left;
    if cmd.right.None? {
      assert Emit(cmd) == AsTokens(cmd.left) + tail;
      ReadWords(START, cmd.left, tail);
    } else {
      var words := cmd.right.value;
      assert [] + words == words;
      var p := Partial(cmd.left, None, NoRedirect, None);
      assert Emit(cmd) == AsTokens(cmd.left) + ([Pipe] + (AsTokens(words) + tail));
      ReadWords(START, cmd.left, [Pipe] + (AsTokens(words) + tail));
      ReadOperator(p, Pipe, AsTokens(words) + tail);
      ReadWords(p.(right := Some([])), words, tail);
    }
    assert Parse(Emit(cmd)) == ParseFrom(read, tail);
    if cmd.redirect.Some? {
      ReadRedirect(read, cmd.redirect.value);
    }
  }

  /** A token stream is accepted as a command exactly when it is the command's stream: 1 to 16
      words, optionally a pipe and 1 to 16 words, optionally one redirection and one word. */
  lemma ParseIff(tokens: seq<Token>, cmd: Command)
    ensures Parse(tokens) == Some(cmd) <==> IsCommand(cmd) && tokens == Emit(cmd)
  {
    if Parse(tokens) == Some(cmd) {
      ParsedIsEmitted(START, tokens);
      assert Read(START) + tokens == tokens;
    }
    if IsCommand(cmd) {
      EmittedIsParsed(cmd);
    }
  }

  // ----- lines

  predicate ProperWords(words: seq<string>) {
    forall i :: 0 <= i < |words| ==> IsProperWord(words[i])
  }

  predicate HasProperWords(cmd: Command) {
    && ProperWords(cmd.left)
    && (cmd.right.Some? ==> ProperWords(cmd.right.value))
    && (cmd.redirect.Some? ==> IsProperWord(cmd.redirect.value.path))
  }

  /** A command as a line, with single blanks. */
  function Line(cmd: Command): string {
    Print(Emit(cmd))
  }

  predicate AllProper(tokens: seq<Token>) {
    forall i :: 0 <= i < |tokens| ==> Proper(tokens[i])
  }

  lemma ProperParts(s: seq<Token>, t: seq<Token>)
    ensures AllProper(s + t) <==> AllProper(s) && AllProper(t)
  {
    hide Proper;
    assert forall i :: 0 <= i < |t| ==> (s + t)[|s| + i] == t[i];
    assert forall i :: 0 <= i < |s| ==> (s + t)[i] == s[i];
    if AllProper(s + t) {
      forall i | 0 <= i < |t| ensures Proper(t[i]) {
        assert Proper((s + t)[|s| + i]);
      }
    }
  }

  lemma ProperWordTokens(words: seq<string>)
    ensures AllProper(AsTokens(words)) <==> ProperWords(words)
  {
    hide IsProperWord;
    assert forall i :: 0 <= i < |words| ==> AsTokens(words)[i].text == words[i];
  }

  lemma ProperEmits(cmd: Command)
    ensures HasProperWords(cmd) <==> AllProper(Emit(cmd))
  {
    var middle := if cmd.right.Some? then [Pipe] + AsTokens(cmd.right.value) else [];
    var tail := if cmd.redirect.Some? then [Operator(cmd.redirect.value.append), Word(cmd.redirect.value.path)] else [];
    ProperWordTokens(cmd.left);
    assert AllProper([]) && AllProper([Pipe]);
    ProperParts(AsTokens(cmd.left), middle);
    ProperParts(AsTokens(cmd.left) + middle, tail);
    if cmd.right.Some? {
      ProperWordTokens(cmd.right.value);
      ProperParts([Pipe], AsTokens(cmd.right.value));
    }
    assert cmd.redirect.Some? ==> tail[1] == Word(cmd.redirect.value.path);
    assert AllProper(tail) <==> (cmd.redirect.Some? ==> IsProperWord(cmd.redirect.value.path));
    hide AllProper, ProperWords, IsProperWord;
  }

  /** A printed command is read back as it was. */
  lemma LineReadsBack(cmd: Command)
    requires IsCommand(cmd) && HasProperWords(cmd)
    ensures ParseLine(Line(cmd)) == Some(cmd)
  {
    ProperEmits(cmd);
    LexPrint(Emit(cmd));
    ParseIff(Emit(cmd), cmd);
  }

  /** What the operators mean: `|` pipes one command into another, `>` redirects what comes out to a
      file, and `>>` appends it. */
  lemma PipeAndRedirect(u: string, v: string, append: bool, path: string)
    requires IsProperWord(u) && IsProperWord(v) && IsProperWord(path)
    ensures ParseLine(u + (" | " + (v + ((if append then " >> " else " > ") + path))))
            == Some(Command([u], Some([v]), Some(Redirection(append, path))))
  {
    var arrow := if append then " >> " else " > ";
    var op := Operator(append);
    LastWord(path);
    Between(op, arrow, path);
    WordThen(v, arrow + path);
    Between(Pipe, " | ", v + (arrow + path));
    WordThen(u, " | " + (v + (arrow + path)));
    var cmd := Command([u], Some([v]), Some(Redirection(append, path)));
    assert Emit(cmd) == [Word(u)] + ([Pipe] + ([Word(v)] + ([op] + [Word(path)])));
    hide Lex, Text, Emit, Print;
    ParseIff(Emit(cmd), cmd);
  }

  lemma LastWord(w: string)
    requires IsProperWord(w)
    ensures Lex(w, Nothing) == [Word(w)]
  {
    FirstWordOf(w, "");
    assert w + "" == w;
    assert LexStep(w, Nothing) == Lexeme(Word(w), "", Nothing);
    assert LexStep("", Nothing) == Done;
  }

  /** An operator between blanks. */
  lemma Between(op: Token, text: string, rest: string)
    requires !op.Word? && text == " " + Text(op) + " "
    ensures Lex(text + rest, Nothing) == [op] + Lex(rest, Nothing)
  {
    PrintedToken(op, rest);
    BlankFirst(Text(op) + (" " + rest));
    assert text + rest == " " + (Text(op) + (" " + rest));
  }

  lemma WordThen(w: string, rest: string)
    requires IsProperWord(w) && rest != "" && rest[0] == ' '
    ensures Lex(w + rest, Nothing) == [Word(w)] + Lex(rest, Nothing)
  {
    PrintedWord(w, rest[1..]);
    BlankFirst(rest[1..]);
    assert rest == " " + rest[1..];
  }

  /** An accepted line holds its command's words and operators and blanks, nothing else. */
  lemma AcceptedLine(line: string, cmd: Command)
    requires ParseLine(line) == Some(cmd)
    ensures IsCommand(cmd) && HasProperWords(cmd) && WithoutBlanks(line) == Joined(Emit(cmd))
    ensures ParseLine(Line(cmd)) == Some(cmd)
  {
    ParseIff(Lex(line, Nothing), cmd);
    LexCovers(line, Nothing);
    NothingBefore(WithoutBlanks(line));
    ProperEmits(cmd);
    LineReadsBack(cmd);
  }

  // ----- the price of the pending operator

  predicate TwoOperators(tokens: seq<Token>) {
    exists i :: 0 <= i < |tokens| - 1 && tokens[i] == Trunc && !tokens[i + 1].Word?
  }

  lemma NoTwoOperators(cmd: Command)
    ensures !TwoOperators(Emit(cmd))
  {
    var e, n := Emit(cmd), |cmd.left|;
    assert forall i :: 0 <= i < n ==> e[i].Word?;
    if cmd.right.Some? {
      assert e[n] == Pipe && forall i :: n < i <= n + |cmd.right.value| ==> e[i].Word?;
    }
  }

  lemma TwoOperatorsRejected(tokens: seq<Token>)
    requires TwoOperators(tokens)
    ensures Parse(tokens) == None
  {
    match Parse(tokens)
    case None =>
    case Some(cmd) =>
      ParseIff(tokens, cmd);
      NoTwoOperators(cmd);
  }

  lemma {:induction false} SplitGivesTwo(s: string)
    requires SplitAppend(s)
    ensures TwoOperators(PlainLex(s))
    decreases |s|
  {
    var t := Skip(s);
    SplitAfterSkip(s);
    var l := PlainStep(t);
    PlainUnfold(s);
    if StartsWord(t) {
      SplitAfterWord(t);
      var after := AfterWord(t);
      if StartsWith(after, '>') && GapThenRedirect(after[1..]) {
        GapGivesTwo(after);
        TwoLater(l.token, PlainLex(after));
        return;
      }
    } else {
      EndAgrees(t);
      if l.token == Append {
        EndAgrees(t[1..]);
      }
    }
    SplitGivesTwo(l.rest);
    TwoLater(l.token, PlainLex(l.rest));
  }

  lemma TwoLater(token: Token, tokens: seq<Token>)
    requires TwoOperators(tokens)
    ensures TwoOperators([token] + tokens)
  {
    var i :| 0 <= i < |tokens| - 1 && tokens[i] == Trunc && !tokens[i + 1].Word?;
    var more := [token] + tokens;
    assert more[i + 1] == tokens[i] && more[i + 2] == tokens[i + 1];
  }

  lemma GapGivesTwo(s: string)
    requires StartsWith(s, '>') && GapThenRedirect(s[1..])
    ensures TwoOperators(PlainLex(s))
  {
    PlainUnfold(s);
    PlainUnfold(s[1..]);
    assert PlainLex(s)[0] == Trunc;
    assert PlainLex(s)[1] == PlainLex(s[1..])[0];
  }

  /** The shell and a shell with the usual tokenizer disagree exactly on the lines it accepts that
      have a `>`, blanks and another `>` after a word: it appends where the other refuses. */
  lemma ParsesAsUsualIff(line: string)
    ensures ParseLine(line) == Parse(PlainLex(line)) <==> !SplitAppend(line) || ParseLine(line) == None
  {
    LexIsPlainIff(line);
    if SplitAppend(line) {
      SplitGivesTwo(line);
      TwoOperatorsRejected(PlainLex(line));
    }
  }

  lemma SplitAppendIsAccepted()
    ensures ParseLine("a> >b") == Some(Command(["a"], None, Some(Redirection(true, "b"))))
    ensures Parse(PlainLex("a> >b")) == None
  {
    var s := "a> >b";
    assert FirstWord(s) == "a" && AfterWord(s) == "> >b";
    var rest := "> >b"[1..];
    assert rest == " >b" && rest[1..] == ">b" && ">b"[1..] == "b";
    assert LexStep(s, Nothing) == Lexeme(Word("a"), rest, ARedirect);
    assert Skip(rest) == ">b";
    assert LexStep(rest, ARedirect) == Lexeme(Append, "b", Nothing);
    assert FirstWord("b") == "b" && AfterWord("b") == "" by { assert "b"[1..] == ""; }
    assert LexStep("b", Nothing) == Lexeme(Word("b"), "", Nothing);
    assert LexStep("", Nothing) == Done;
    assert Lex(s, Nothing) == [Word("a"), Append, Word("b")];
    var cmd := Command(["a"], None, Some(Redirection(true, "b")));
    assert Emit(cmd) == Lex(s, Nothing);
    ParseIff(Lex(s, Nothing), cmd);
    assert s[1..] == "> >b" && s[1..][1..] == rest;
    assert SplitHere(s);
    SplitGivesTwo(s);
    TwoOperatorsRejected(PlainLex(s));
  }
}
