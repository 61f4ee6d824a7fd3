/** The words and operators of a command line, as a function of its text. */
module RedirLex {

  datatype Token = Word(text: string) | Pipe | Trunc | Append

  /** An operator that ended a word and has not been delivered yet. */
  datatype Pending = Nothing | APipe | ARedirect

  predicate IsBlank(c: char) {
    c == ' ' || c == '\t'
  }

  predicate IsWordChar(c: char) {
    !IsBlank(c) && c != '|' && c != '>'
  }

  predicate StartsWith(s: string, c: char) {
    s != "" && s[0] == c
  }

  predicate StartsWord(s: string) {
    s != "" && IsWordChar(s[0])
  }

  /** The text without its leading blanks. */
  function Skip(s: string): (t: string)
    ensures |t| <= |s|
    ensures t != "" ==> !IsBlank(t[0])
  {
    if s != "" && IsBlank(s[0]) then Skip(s[1..]) else s
  }

  /** The longest word the text starts with, and the text after it. */
  function FirstWord(s: string): (w: string)
    ensures forall i :: 0 <= i < |w| ==> IsWordChar(w[i])
    ensures w != "" <==> StartsWord(s)
  {
    if StartsWord(s) then [s[0]] + FirstWord(s[1..]) else ""
  }

  function AfterWord(s: string): (t: string)
    ensures !StartsWord(t)
    ensures |t| <= |s| && (StartsWord(s) ==> |t| < |s|)
  {
    if StartsWord(s) then AfterWord(s[1..]) else s
  }

  lemma {:induction false} WordSplits(s: string)
    ensures FirstWord(s) + AfterWord(s) == s
  {
    if StartsWord(s) {
      WordSplits(s[1..]);
    }
  }

  // ----- the tokenizer

  /** One step: the token, and what is left. */
  datatype Lexeme = Done | Lexeme(token: Token, rest: string, pending: Pending)

  function LexPending(s: string, pending: Pending): Lexeme
    requires pending != Nothing
  {
    if pending == APipe then Lexeme(Pipe, s, Nothing)
    else if StartsWith(s, '>') then Lexeme(Append, s[1..], Nothing)
    else Lexeme(Trunc, s, Nothing)
  }

  function LexOperator(s: string): Lexeme
    requires s != ""
  {
    if s[0] == '|' then Lexeme(Pipe, s[1..], Nothing)
    else LexPending(s[1..], ARedirect)
  }

  /** What becomes of the character that ended a word. */
  function Ended(c: char): Pending {
    if c == '|' then APipe else if c == '>' then ARedirect else Nothing
  }

  function LexWord(s: string): Lexeme {
    var t := AfterWord(s);
    if t == "" then Lexeme(Word(FirstWord(s)), "", Nothing)
    else Lexeme(Word(FirstWord(s)), t[1..], Ended(t[0]))
  }

  /** A pending operator comes first; a pending `>` looks for its partner after the blanks. */
  function LexStep(s: string, pending: Pending): Lexeme {
    var t := Skip(s);
    if pending != Nothing then LexPending(t, pending)
    else if t == "" then Done
    else if StartsWord(t) then LexWord(t)
    else LexOperator(t)
  }

  function Weight(s: string, pending: Pending): nat {
    2 * |s| + if pending == Nothing then 0 else 1
  }

  function Lex(s: string, pending: Pending): seq<Token>
    decreases Weight(s, pending)
  {
    match LexStep(s, pending)
    case Done => []
    case Lexeme(token, rest, p) => [token] + Lex(rest, p)
  }

  lemma StepShrinks(s: string, pending: Pending)
    requires LexStep(s, pending).Lexeme?
    ensures Weight(LexStep(s, pending).rest, LexStep(s, pending).pending) < Weight(s, pending)
  {
  }

  // ----- what the tokens contain

  predicate IsProperWord(w: string) {
    w != "" && forall i :: 0 <= i < |w| ==> IsWordChar(w[i])
  }

  predicate Proper(token: Token) {
    token.Word? ==> IsProperWord(token.text)
  }

  function Text(token: Token): string {
    match token
    case Word(w) => w
    case Pipe => "|"
    case Trunc => ">"
    case Append => ">>"
  }

  function PendingText(pending: Pending): string {
    match pending
    case Nothing => ""
    case APipe => "|"
    case ARedirect => ">"
  }

  function Joined(tokens: seq<Token>): string {
    if tokens == [] then "" else Text(tokens[0]) + Joined(tokens[1..])
  }

  function WithoutBlanks(s: string): string {
    if s == "" then ""
    else (if IsBlank(s[0]) then "" else [s[0]]) + WithoutBlanks(s[1..])
  }

  lemma {:induction false} SkipIsBlank(s: string)
    ensures WithoutBlanks(Skip(s)) == WithoutBlanks(s)
  {
    if s != "" && IsBlank(s[0]) {
      SkipIsBlank(s[1..]);
    }
  }

  lemma {:induction false} WordIsKept(s: string)
    ensures WithoutBlanks(s) == FirstWord(s) + WithoutBlanks(AfterWord(s))
  {
    if StartsWord(s) {
      WordIsKept(s[1..]);
    }
  }

  predicate Covers(l: Lexeme, text: string) {
    match l
    case Done => text == ""
    case Lexeme(token, rest, p) =>
      Proper(token) && text == Text(token) + PendingText(p) + WithoutBlanks(rest)
  }

  lemma EndCovers(s: string)
    requires s != "" && !StartsWord(s)
    ensures WithoutBlanks(s) == PendingText(Ended(s[0])) + WithoutBlanks(s[1..])
  {
  }

  lemma WordCovers(s: string)
    requires StartsWord(s)
    ensures Covers(LexWord(s), WithoutBlanks(s))
  {
    var w, t := FirstWord(s), AfterWord(s);
    assert IsProperWord(w);
    WordIsKept(s);
    if t == "" {
      assert WithoutBlanks(t) == "" && w + "" + "" == w + "" == w;
    } else {
      EndCovers(t);
      assert LexWord(s) == Lexeme(Word(w), t[1..], Ended(t[0]));
      hide *;
      CoversIs(Word(w), t[1..], Ended(t[0]), WithoutBlanks(s));
    }
  }

  lemma CoversIs(token: Token, rest: string, p: Pending, text: string)
    requires Proper(token) && text == Text(token) + (PendingText(p) + WithoutBlanks(rest))
    ensures Covers(Lexeme(token, rest, p), text)
  {
    hide WithoutBlanks;
  }

  lemma PendingCovers(s: string, pending: Pending)
    requires pending != Nothing
    ensures Covers(LexPending(s, pending), PendingText(pending) + WithoutBlanks(s))
  {
    if pending == ARedirect && StartsWith(s, '>') {
      EndCovers(s);
      TwoRedirects(WithoutBlanks(s[1..]));
      hide WithoutBlanks;
      CoversIs(Append, s[1..], Nothing, PendingText(pending) + WithoutBlanks(s));
    } else {
      NothingBefore(WithoutBlanks(s));
      hide WithoutBlanks;
      CoversIs(if pending == APipe then Pipe else Trunc, s, Nothing, PendingText(pending) + WithoutBlanks(s));
    }
  }

  lemma TwoRedirects(s: string)
    ensures ">" + (">" + s) == ">>" + ("" + s)
  {
  }

  /** One step accounts for every non-blank character it consumes. */
  lemma StepCovers(s: string, pending: Pending)
    ensures Covers(LexStep(s, pending), PendingText(pending) + WithoutBlanks(s))
  {
    SkipIsBlank(s);
    var t := Skip(s);
    if pending != Nothing {
      PendingCovers(t, pending);
    } else {
      NothingBefore(WithoutBlanks(t));
      if StartsWord(t) {
        WordCovers(t);
      } else if t != "" {
        OperatorCovers(t);
      }
    }
    assert t == "" ==> WithoutBlanks(t) == "" && Covers(Done, "");
    hide WithoutBlanks, LexWord, LexPending, LexOperator, Skip, Covers, PendingText;
  }

  lemma NothingBefore(s: string)
    ensures PendingText(Nothing) + s == s
  {
  }

  lemma OperatorCovers(s: string)
    requires s != "" && !StartsWord(s) && !IsBlank(s[0])
    ensures Covers(LexOperator(s), WithoutBlanks(s))
  {
    EndCovers(s);
    if s[0] == '>' {
      PendingCovers(s[1..], ARedirect);
    } else {
      NothingBefore(WithoutBlanks(s[1..]));
      hide WithoutBlanks;
      CoversIs(Pipe, s[1..], Nothing, WithoutBlanks(s));
    }
  }

  /** The tokens are the line's non-blank characters, all of them and in order, cut into pieces. */
  lemma {:induction false} LexCovers(s: string, pending: Pending)
    ensures forall i :: 0 <= i < |Lex(s, pending)| ==> Proper(Lex(s, pending)[i])
    ensures Joined(Lex(s, pending)) == PendingText(pending) + WithoutBlanks(s)
    decreases Weight(s, pending)
  {
    var l := LexStep(s, pending);
    if l.Lexeme? {
      StepShrinks(s, pending);
      LexUnfold(s, pending);
      StepText(s, pending);
      hide *;
      LexCovers(l.rest, l.pending);
      JoinedCons(l.token, Lex(l.rest, l.pending));
    } else {
      NoText(s, pending);
      hide *;
    }
  }

  lemma StepText(s: string, pending: Pending)
    requires LexStep(s, pending).Lexeme?
    ensures var l := LexStep(s, pending);
            && Proper(l.token)
            && PendingText(pending) + WithoutBlanks(s)
               == Text(l.token) + (PendingText(l.pending) + WithoutBlanks(l.rest))
  {
    StepCovers(s, pending);
    hide LexStep, WithoutBlanks, PendingText, Text, Proper;
  }

  lemma NoText(s: string, pending: Pending)
    requires LexStep(s, pending).Done?
    ensures Lex(s, pending) == [] && Joined([]) == "" && PendingText(pending) + WithoutBlanks(s) == ""
  {
    StepCovers(s, pending);
    hide LexStep, WithoutBlanks, PendingText;
  }

  lemma LexUnfold(s: string, pending: Pending)
    requires LexStep(s, pending).Lexeme?
    ensures var l := LexStep(s, pending); Lex(s, pending) == [l.token] + Lex(l.rest, l.pending)
  {
    hide LexStep;
  }

  lemma JoinedCons(token: Token, tokens: seq<Token>)
    ensures Joined([token] + tokens) == Text(token) + Joined(tokens)
  {
    assert ([token] + tokens)[1..] == tokens;
  }

  // ----- printing

  function Print(tokens: seq<Token>): string {
    if tokens == [] then "" else Text(tokens[0]) + (" " + Print(tokens[1..]))
  }

  lemma {:induction false} FirstWordOf(w: string, t: string)
    requires forall i :: 0 <= i < |w| ==> IsWordChar(w[i])
    requires !StartsWord(t)
    ensures FirstWord(w + t) == w && AfterWord(w + t) == t
  {
    if w == "" {
      assert w + t == t;
    } else {
      assert (w + t)[1..] == w[1..] + t;
      FirstWordOf(w[1..], t);
    }
  }

  lemma BlankFirst(rest: string)
    ensures Lex(" " + rest, Nothing) == Lex(rest, Nothing)
  {
    assert (" " + rest)[1..] == rest;
    assert Skip(" " + rest) == Skip(rest);
  }

  lemma PrintedWord(w: string, rest: string)
    requires IsProperWord(w)
    ensures Lex(w + (" " + rest), Nothing) == [Word(w)] + Lex(rest, Nothing)
  {
    var blank := " " + rest;
    FirstWordOf(w, blank);
    assert blank[1..] == rest;
    assert StartsWord(w + blank) && Skip(w + blank) == w + blank;
    assert LexStep(w + blank, Nothing) == Lexeme(Word(w), rest, Nothing) by {
      hide FirstWord, AfterWord, Skip;
    }
    hide LexStep;
  }

  lemma PrintedToken(token: Token, rest: string)
    requires Proper(token)
    ensures Lex(Text(token) + (" " + rest), Nothing) == [token] + Lex(rest, Nothing)
  {
    if token.Word? {
      PrintedWord(token.text, rest);
    } else {
      var blank := " " + rest;
      var s := Text(token) + blank;
      BlankFirst(rest);
      assert s[1..] == if token == Append then ">" + blank else blank;
      assert (">" + blank)[1..] == blank;
      assert LexStep(s, Nothing) == Lexeme(token, blank, Nothing);
      hide LexStep;
    }
  }

  /** Tokens printed with a blank after each are read back as they were. */
  lemma {:induction false} LexPrint(tokens: seq<Token>)
    requires forall i :: 0 <= i < |tokens| ==> Proper(tokens[i])
    ensures Lex(Print(tokens), Nothing) == tokens
  {
    if tokens != [] {
      LexPrint(tokens[1..]);
      PrintedToken(tokens[0], Print(tokens[1..]));
      hide Lex, Text, Proper;
      assert Print(tokens) == Text(tokens[0]) + (" " + Print(tokens[1..]));
    }
  }

  /** A space or a tab after a word ends it, and any more of them make no difference. */
  lemma {:induction false} BlanksSeparate(word: string, gap: string, rest: string)
    requires word != "" && forall i :: 0 <= i < |word| ==> word[i] !in {' ', '\t', '|', '>'}
    requires gap != "" && forall i :: 0 <= i < |gap| ==> gap[i] in {' ', '\t'}
    ensures Lex(word + (gap + rest), Nothing) == [Word(word)] + Lex(rest, Nothing)
  {
    var s, t := word + (gap + rest), gap + rest;
    FirstWordOf(word, t);
    assert s[0] == word[0] && t[0] == gap[0];
    assert t[1..] == gap[1..] + rest;
    assert LexStep(s, Nothing) == Lexeme(Word(word), t[1..], Nothing) by {
      assert StartsWord(s) && Skip(s) == s;
    }
    BlanksVanish(gap[1..], rest);
    hide LexStep;
  }

  lemma {:induction false} BlanksVanish(gap: string, rest: string)
    requires forall i :: 0 <= i < |gap| ==> gap[i] in {' ', '\t'}
    ensures Lex(gap + rest, Nothing) == Lex(rest, Nothing)
  {
    if gap == "" {
      assert gap + rest == rest;
    } else {
      BlanksVanish(gap[1..], rest);
      assert (gap + rest)[1..] == gap[1..] + rest;
      assert Skip(gap + rest) == Skip(gap[1..] + rest);
    }
  }

  // ----- where blanks matter

  /** The usual tokenizer: `>>` is one operator only when nothing is in between. */
  function PlainStep(t: string): Lexeme {
    if t == "" then Done
    else if StartsWord(t) then Lexeme(Word(FirstWord(t)), AfterWord(t), Nothing)
    else LexOperator(t)
  }

  function PlainLex(s: string): seq<Token>
    decreases |s|
  {
    match PlainStep(Skip(s))
    case Done => []
    case Lexeme(token, rest, _) => [token] + PlainLex(rest)
  }

  /** Blanks, at least one, and then a `>`. */
  predicate GapThenRedirect(s: string) {
    s != "" && IsBlank(s[0]) && StartsWith(Skip(s), '>')
  }

  /** A word directly followed by `>`, then blanks, then another `>`. */
  predicate SplitHere(s: string) {
    StartsWord(s) && StartsWith(s[1..], '>') && GapThenRedirect(s[1..][1..])
  }

  predicate SplitAppend(s: string) {
    s != "" && (SplitHere(s) || SplitAppend(s[1..]))
  }

  lemma {:induction false} SplitAfterSkip(s: string)
    ensures SplitAppend(Skip(s)) == SplitAppend(s)
  {
    if s != "" && IsBlank(s[0]) {
      SplitAfterSkip(s[1..]);
    }
  }

  lemma {:induction false} SplitAfterWord(s: string)
    requires StartsWord(s)
    ensures var t := AfterWord(s);
            SplitAppend(s) <==> (StartsWith(t, '>') && GapThenRedirect(t[1..])) || SplitAppend(t)
  {
    if StartsWord(s[1..]) {
      SplitAfterWord(s[1..]);
    } else {
      assert AfterWord(s) == s[1..];
    }
  }

  /** The same line for the usual tokenizer: the pending operator stands before the rest. */
  predicate Agree(s: string, pending: Pending) {
    Lex(s, pending) == PlainLex(PendingText(pending) + s)
  }

  predicate Split(s: string, pending: Pending) {
    (pending == ARedirect && GapThenRedirect(s)) || SplitAppend(s)
  }

  lemma PlainUnfold(s: string)
    requires PlainStep(Skip(s)).Lexeme?
    ensures var l := PlainStep(Skip(s)); PlainLex(s) == [l.token] + PlainLex(l.rest)
  {
    hide PlainStep, Skip;
  }

  lemma PlainSkip(s: string, t: string)
    requires Skip(s) == Skip(t)
    ensures PlainLex(s) == PlainLex(t)
  {
    hide PlainStep, Skip;
  }

  lemma SameFirst(token: Token, s: seq<Token>, t: seq<Token>)
    ensures [token] + s == [token] + t <==> s == t
  {
    assert ([token] + s)[1..] == s && ([token] + t)[1..] == t;
  }

  /** The character that ends a word: a blank is dropped, an operator becomes pending. */
  lemma EndAgrees(s: string)
    requires s != "" && !StartsWord(s)
    ensures PlainLex(s) == PlainLex(PendingText(Ended(s[0])) + s[1..])
    ensures SplitAppend(s) == SplitAppend(s[1..])
  {
    if IsBlank(s[0]) {
      assert "" + s[1..] == s[1..];
      PlainSkip(s, s[1..]);
    } else {
      assert PendingText(Ended(s[0])) + s[1..] == s;
    }
  }

  lemma WordAgrees(s: string)
    requires StartsWord(Skip(s))
    ensures var l := LexStep(s, Nothing);
            && l.Lexeme? && (Agree(s, Nothing) <==> Agree(l.rest, l.pending))
            && (SplitAppend(s) <==> Split(l.rest, l.pending))
  {
    var t := Skip(s);
    var after := AfterWord(t);
    var l := LexStep(s, Nothing);
    LexUnfold(s, Nothing);
    PlainUnfold(s);
    SplitAfterSkip(s);
    SplitAfterWord(t);
    assert l.token == Word(FirstWord(t)) && PlainStep(t).rest == after;
    assert after == "" ==> l.rest == "" && l.pending == Nothing;
    assert after != "" ==> l.rest == after[1..] && l.pending == Ended(after[0]);
    hide *;
    AgreeIs(s, Nothing);
    AgreeIs(l.rest, l.pending);
    SameFirst(l.token, Lex(l.rest, l.pending), PlainLex(after));
    if after != "" {
      EndAgrees(after);
      SplitIs(after);
    } else {
      SplitIs("");
    }
    assert PendingText(Nothing) + s == s by { NothingBefore(s); }
    assert PendingText(Nothing) + "" == "" by { NothingBefore(""); }
  }

  lemma AgreeIs(s: string, pending: Pending)
    ensures Agree(s, pending) <==> Lex(s, pending) == PlainLex(PendingText(pending) + s)
  {
  }

  lemma SplitIs(s: string)
    ensures s == "" ==> !Split(s, Nothing) && !SplitAppend(s) && !StartsWith(s, '>')
    ensures s != "" ==>
              (Split(s[1..], Ended(s[0])) <==> (StartsWith(s, '>') && GapThenRedirect(s[1..])) || SplitAppend(s[1..]))
  {
    hide GapThenRedirect, SplitAppend;
    if s == "" {
      assert !SplitAppend(s) by { NoSplitInEmpty(); }
    }
  }

  lemma NoSplitInEmpty()
    ensures !SplitAppend("")
  {
  }

  lemma OperatorAgrees(s: string)
    requires Skip(s) != "" && !StartsWord(Skip(s))
    ensures var l := LexStep(s, Nothing);
            && l.Lexeme? && l.pending == Nothing && (Agree(s, Nothing) <==> Agree(l.rest, Nothing))
            && (SplitAppend(s) <==> SplitAppend(l.rest))
  {
    var t := Skip(s);
    var l := LexStep(s, Nothing);
    LexUnfold(s, Nothing);
    PlainUnfold(s);
    SplitAfterSkip(s);
    assert PlainStep(t) == l && l.pending == Nothing;
    assert l.rest == if l.token == Append then t[1..][1..] else t[1..];
    EndAgrees(t);
    if l.token == Append {
      EndAgrees(t[1..]);
    }
    hide *;
    AgreeIs(s, Nothing);
    AgreeIs(l.rest, Nothing);
    NothingBefore(s);
    NothingBefore(l.rest);
    SameFirst(l.token, Lex(l.rest, Nothing), PlainLex(l.rest));
  }

  lemma GapDiffers(s: string)
    requires GapThenRedirect(s)
    ensures !Agree(s, ARedirect)
  {
    var line := ">" + s;
    LexUnfold(s, ARedirect);
    assert line[1..] == s && Skip(line) == line && !StartsWith(s, '>');
    PlainUnfold(line);
    assert LexStep(s, ARedirect).token == Append && PlainStep(line).token == Trunc;
    hide *;
    AgreeIs(s, ARedirect);
    assert PendingText(ARedirect) + s == line by { RedirectText(s); }
    assert Lex(s, ARedirect)[0] != PlainLex(line)[0];
  }

  lemma RedirectText(s: string)
    ensures PendingText(ARedirect) + s == ">" + s
  {
  }

  lemma PendingAgrees(s: string, pending: Pending)
    requires pending != Nothing && !(pending == ARedirect && GapThenRedirect(s))
    ensures var l := LexStep(s, pending);
            && l.Lexeme? && l.pending == Nothing && (Agree(s, pending) <==> Agree(l.rest, Nothing))
            && (SplitAppend(s) <==> SplitAppend(l.rest))
  {
    var line := PendingText(pending) + s;
    var l, o := LexStep(s, pending), LexOperator(line);
    assert line[1..] == s && line[0] == PendingText(pending)[0] && Skip(line) == line && PlainStep(line) == o;
    LexUnfold(s, pending);
    PlainUnfold(line);
    GapMeans(s);
    assert o.token == l.token && l.pending == Nothing;
    assert l.token == Append ==> o.rest == l.rest == s[1..] && StartsWith(s, '>');
    assert l.token != Append ==> o.rest == s && l.rest == Skip(s);
    SkipTwice(s);
    SplitAfterSkip(s);
    if l.token == Append {
      EndAgrees(s);
    }
    hide *;
    AgreeIs(s, pending);
    AgreeIs(l.rest, Nothing);
    NothingBefore(l.rest);
    SameFirst(l.token, Lex(l.rest, Nothing), PlainLex(l.rest));
    if l.token != Append {
      PlainSkip(s, Skip(s));
    }
  }

  lemma SkipTwice(s: string)
    ensures Skip(Skip(s)) == Skip(s)
  {
  }

  lemma GapMeans(s: string)
    ensures GapThenRedirect(s) <==> StartsWith(Skip(s), '>') && !StartsWith(s, '>')
    ensures !GapThenRedirect(s) && StartsWith(Skip(s), '>') ==> Skip(s) == s
  {
  }

  lemma {:induction false} PendingIsPlain(s: string, pending: Pending)
    ensures Agree(s, pending) <==> !Split(s, pending)
    decreases Weight(s, pending)
  {
    var t, l := Skip(s), LexStep(s, pending);
    if pending == ARedirect && GapThenRedirect(s) {
      GapDiffers(s);
    } else if pending == Nothing && t == "" {
      NothingBefore(s);
      SplitAfterSkip(s);
    } else {
      if pending != Nothing {
        PendingAgrees(s, pending);
      } else if StartsWord(t) {
        WordAgrees(s);
      } else {
        OperatorAgrees(s);
      }
      StepShrinks(s, pending);
      assert Split(s, pending) == SplitAppend(s);
      hide Agree, LexStep, SplitAppend, GapThenRedirect, Weight;
      PendingIsPlain(l.rest, l.pending);
    }
  }

  /** The tokenizer is the usual one exactly on lines without such a split. */
  lemma LexIsPlainIff(s: string)
    ensures Lex(s, Nothing) == PlainLex(s) <==> !SplitAppend(s)
  {
    PendingIsPlain(s, Nothing);
    NothingBefore(s);
    hide Lex, PlainLex, SplitAppend;
  }
}
