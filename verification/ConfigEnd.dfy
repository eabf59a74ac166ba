/** Places between tokens, and what becomes of a text that stops in the middle of a word. */
module ConfigEnd {
  import opened Basics
  import opened ConfigLexer
  import opened ConfigGrammar
  import opened ConfigText
  import opened ConfigParser
  import opened ConfigLaws

  // ----- Where a text stops -----

  /** The lexer's state after one more character; a token that ends leaves it between tokens. */
  function Next(state: LexState, c: char): LexState {
    match state
    case InitialWhitespace =>
      if c == '#' then InComment
      else if c == '"' then InDoubleQuote
      else if c == '\'' then InSingleQuote
      else if IsBlank(c) || c in {'{', '}', ';'} then InitialWhitespace
      else InNormal
    case InSingleQuote => if c == '\'' then InitialWhitespace else InSingleQuote
    case InDoubleQuote => if c == '"' then InitialWhitespace else InDoubleQuote
    case InComment => if c == '\n' || c == '\r' then InitialWhitespace else InComment
    case InNormal => if EndsWord(c) then InitialWhitespace else InNormal
  }

  function Scan(s: string, state: LexState): LexState {
    if s == "" then state else Scan(s[1..], Next(state, s[0]))
  }

  /** The text stops in a bare word, which nothing has ended. */
  predicate EndsInWord(s: string) {
    Scan(s, InitialWhitespace) == InNormal
  }

  lemma {:induction false} ScanConcat(a: string, b: string, state: LexState)
    ensures Scan(a + b, state) == Scan(b, Scan(a, state))
    decreases |a|
  {
    hide Next;
    if a == "" {
      assert a + b == b;
    } else {
      assert (a + b)[1..] == a[1..] + b;
      ScanConcat(a[1..], b, Next(state, a[0]));
    }
  }

  lemma ScanLast(s: string, c: char, state: LexState)
    ensures Scan(s + [c], state) == Next(Scan(s, state), c)
  {
    ScanConcat(s, [c], state);
    assert [c][1..] == "";
  }

  // ----- Tokens before a place between tokens -----

  /** What the lexer has read of its token after one more character that does not end it. */
  function Held(state: LexState, value: string, c: char): string {
    if Next(state, c) == InitialWhitespace then "" else if state == InitialWhitespace then [c] else value + [c]
  }

  /** The character ends the token or is one itself. */
  predicate Ends(state: LexState, c: char) {
    Next(state, c) == InitialWhitespace && !(state == InitialWhitespace && IsBlank(c))
  }

  lemma LexGoesOn(s: string, state: LexState, value: string)
    requires s != "" && !Ends(state, s[0]) && (state == InitialWhitespace ==> value == "")
    ensures Lex(s, state, value) == Lex(s[1..], Next(state, s[0]), Held(state, value, s[0]))
  {
    assert "" + [s[0]] == [s[0]];
  }

  lemma LexEnds(s: string, state: LexState, value: string)
    requires s != "" && Ends(state, s[0])
    ensures var t := Lex(s, state, value);
            && t.kind != TokenEof && t.kind != TokenError
            && t.rest == if state == InNormal then s else s[1..]
    ensures forall rest :: Lex(s + rest, state, value)
                        == Lex(s, state, value).(rest := Lex(s, state, value).rest + rest)
  {
    forall rest ensures (s + rest)[1..] == s[1..] + rest && (s + rest)[0] == s[0] {}
  }

  lemma ScanHead(s: string, state: LexState)
    requires s != ""
    ensures Scan(s, state) == Scan(s[1..], Next(state, s[0]))
    ensures state == InNormal && Ends(state, s[0]) ==> Scan(s, InitialWhitespace) == Scan(s, state)
  {
    assert EndsWord(s[0]) ==> Next(InitialWhitespace, s[0]) == InitialWhitespace;
  }

  lemma EndsMeans(state: LexState, c: char)
    requires Ends(state, c)
    ensures Next(state, c) == InitialWhitespace
  {
  }

  lemma HeldBetween(state: LexState, value: string, c: char)
    requires !Ends(state, c)
    ensures Next(state, c) == InitialWhitespace ==> state == InitialWhitespace && Held(state, value, c) == ""
  {
  }

  /** Up to a place between tokens, the lexer does not look at what comes after it. */
  lemma {:induction false} LexAhead(p: string, rest: string, state: LexState, value: string)
    requires Scan(p, state) == InitialWhitespace && (state == InitialWhitespace ==> value == "")
    ensures var t := Lex(p, state, value);
            if t.kind == TokenEof then
              state == InitialWhitespace && Lex(p + rest, state, value) == Lex(rest, state, value)
            else t.kind != TokenError && Lex(p + rest, state, value) == t.(rest := t.rest + rest)
                 && Scan(t.rest, InitialWhitespace) == InitialWhitespace
    decreases |p|
  {
    if p == "" {
      assert p + rest == rest;
    } else {
      assert (p + rest)[1..] == p[1..] + rest && (p + rest)[0] == p[0];
      hide Lex, Scan, Ends, Held;
      ScanHead(p, state);
      if Ends(state, p[0]) {
        LexEnds(p, state, value);
        EndsMeans(state, p[0]);
      } else {
        LexGoesOn(p, state, value);
        LexGoesOn(p + rest, state, value);
        HeldBetween(state, value, p[0]);
        LexAhead(p[1..], rest, Next(state, p[0]), Held(state, value, p[0]));
      }
    }
  }

  lemma {:induction false} TokensAhead(p: string, rest: string)
    requires Scan(p, InitialWhitespace) == InitialWhitespace
    ensures Tokens(p).Some? && Tokens(p + rest) == Prefix(Tokens(p).value, Tokens(rest))
    decreases |p|
  {
    var t := Lex(p, InitialWhitespace, "");
    LexAhead(p, rest, InitialWhitespace, "");
    if t.kind == TokenEof {
      PrefixTwice([], [], Tokens(rest));
    } else {
      TokensAhead(t.rest, rest);
      hide Lex, Scan;
      if t.kind != TokenComment {
        PrefixTwice([TokenOf(t.kind, t.value)], Tokens(t.rest).value, Tokens(rest));
      }
    }
  }

  /** Between tokens, anywhere in any text, a comment can stand and changes nothing. */
  lemma CommentAnywhere(p: string, text: string, end: char, rest: string)
    requires Scan(p, InitialWhitespace) == InitialWhitespace
    requires OneLine(text) && (end == '\n' || end == '\r')
    ensures ParseText(p + ("#" + text + [end] + rest)) == ParseText(p + rest)
  {
    hide *;
    TokensComment(text, end, rest);
    TokensAhead(p, rest);
    TokensAhead(p, "#" + text + [end] + rest);
    ParseTextIs(p + rest);
    ParseTextIs(p + ("#" + text + [end] + rest));
  }

  // ----- The unfinished end of a text -----

  /** What stands after the last place between tokens. */
  predicate Unfinished(state: LexState, t: string) {
    match state
    case InitialWhitespace => t == ""
    case InNormal => BareWord(t)
    case InComment => t != "" && t[0] == '#' && OneLine(t[1..])
    case InDoubleQuote => t != "" && t[0] == '"' && forall i :: 0 < i < |t| ==> t[i] != '"'
    case InSingleQuote => t != "" && t[0] == '\'' && forall i :: 0 < i < |t| ==> t[i] != '\''
  }

  lemma UnfinishedStep(state: LexState, t: string, c: char)
    requires Unfinished(state, t)
    ensures Next(state, c) != InitialWhitespace ==> Unfinished(Next(state, c), t + [c])
  {
    if t != "" {
      assert (t + [c])[1..] == t[1..] + [c];
    } else {
      assert t + [c] == [c];
    }
  }

  /** Every text is one that stops between tokens and an unfinished end. */
  lemma {:induction false} UnfinishedEnd(s: string) returns (p: string, t: string)
    ensures s == p + t && Scan(p, InitialWhitespace) == InitialWhitespace
    ensures Unfinished(Scan(s, InitialWhitespace), t)
  {
    if s == "" {
      p, t := "", "";
    } else {
      var front, c := s[..|s| - 1], s[|s| - 1];
      assert s == front + [c];
      p, t := UnfinishedEnd(front);
      ScanLast(front, c, InitialWhitespace);
      UnfinishedStep(Scan(front, InitialWhitespace), t, c);
      assert s == p + (t + [c]);
      if Scan(s, InitialWhitespace) == InitialWhitespace {
        p, t := s, "";
      } else {
        t := t + [c];
      }
    }
  }

  lemma {:induction false} LexOpenQuote(t: string, state: LexState, value: string)
    requires (state == InDoubleQuote && forall i :: 0 <= i < |t| ==> t[i] != '"')
          || (state == InSingleQuote && forall i :: 0 <= i < |t| ==> t[i] != '\'')
    ensures Lex(t, state, value).kind == TokenError
  {
    if t == "" {
    } else {
      LexOpenQuote(t[1..], state, value + [t[0]]);
    }
  }

  lemma {:induction false} LexOpenComment(t: string, value: string)
    requires OneLine(t)
    ensures Lex(t, InComment, value).kind == TokenEof
  {
    if t == "" {
    } else {
      LexOpenComment(t[1..], value + [t[0]]);
    }
  }

  lemma TokensOfNewline()
    ensures Tokens("\n") == Some([])
  {
    NoTokens();
    TokensBlank('\n', "");
    assert ['\n'] + "" == "\n";
  }

  lemma OpenQuoteTokens(state: LexState, t: string)
    requires (state == InDoubleQuote || state == InSingleQuote) && Unfinished(state, t)
    ensures Tokens(t) == None && Tokens(t + "\n") == None
  {
    assert (t + "\n")[1..] == t[1..] + "\n" && (t + "\n")[0] == t[0];
    LexOpenQuote(t[1..], state, [t[0]]);
    LexOpenQuote(t[1..] + "\n", state, [t[0]]);
  }

  lemma OpenCommentTokens(t: string)
    requires Unfinished(InComment, t)
    ensures Tokens(t) == Some([]) && Tokens(t + "\n") == Some([])
  {
    LexOpenComment(t[1..], "#");
    assert [t[0]] == "#";
    NoTokens();
    TokensComment(t[1..], '\n', "");
    assert t + "\n" == "#" + t[1..] + ['\n'] + "";
  }

  lemma OpenWordTokens(t: string)
    requires BareWord(t)
    ensures Tokens(t) == Some([]) && Tokens(t + "\n") == Some([Word(t)])
  {
    hide Tokens;
    TokensOfWordAtEnd(t);
    TokensOfNewline();
    assert ValidWord(t) && Delimited("\n");
    TokensWord(t, "\n");
    PrefixAll([Word(t)]);
  }

  /** An unfinished end has no tokens; a newline after it makes a token of a bare word only. */
  lemma UnfinishedTokens(state: LexState, t: string)
    requires Unfinished(state, t)
    ensures state != InNormal ==> Tokens(t + "\n") == Tokens(t)
    ensures state == InNormal ==> BareWord(t) && Tokens(t) == Some([]) && Tokens(t + "\n") == Some([Word(t)])
  {
    hide Tokens, BareWord, OneLine;
    match state {
      case InitialWhitespace =>
        assert t + "\n" == "\n";
        NoTokens();
        TokensOfNewline();
      case InNormal => OpenWordTokens(t);
      case InComment => OpenCommentTokens(t);
      case _ => OpenQuoteTokens(state, t);
    }
  }

  // ----- The word at the end -----

  /** `s` stops in the bare word `w`, and `p` is what stands before the word. */
  predicate StopsIn(s: string, p: string, w: string) {
    s == p + w && BareWord(w) && Scan(p, InitialWhitespace) == InitialWhitespace
  }

  lemma {:induction false} ScanWord(w: string)
    requires BareTail(w)
    ensures Scan(w, InNormal) == InNormal
  {
    if w == "" {
    } else {
      ScanWord(w[1..]);
    }
  }

  /** A text stops in a word if and only if it is a text between tokens and a bare word. */
  lemma EndsInWordIsSplit(s: string)
    ensures EndsInWord(s) <==> exists p, w :: StopsIn(s, p, w)
  {
    if EndsInWord(s) {
      var p, w := UnfinishedEnd(s);
      assert StopsIn(s, p, w);
    }
    forall p, w | StopsIn(s, p, w) ensures EndsInWord(s) {
      ScanConcat(p, w, InitialWhitespace);
      ScanWord(w[1..]);
    }
  }

  /** What is read of a text that stops in a word is what stands before the word. */
  lemma StoppedTokens(s: string, p: string, w: string)
    requires StopsIn(s, p, w)
    ensures Tokens(p).Some? && Tokens(s) == Tokens(p) && Tokens(s + "\n") == Some(Tokens(p).value + [Word(w)])
  {
    hide Tokens, Scan, BareWord;
    OpenWordTokens(w);
    TokensAhead(p, w);
    TokensAhead(p, w + "\n");
    PrefixAll(Tokens(p).value);
    assert s + "\n" == p + (w + "\n");
  }

  lemma EndedLineTokens(s: string)
    requires !EndsInWord(s)
    ensures Tokens(s + "\n") == Tokens(s)
  {
    hide Tokens, Scan, Unfinished;
    var p, t := UnfinishedEnd(s);
    UnfinishedTokens(Scan(s, InitialWhitespace), t);
    TokensAhead(p, t);
    TokensAhead(p, t + "\n");
    assert s + "\n" == p + (t + "\n");
  }

  /** No configuration ends in a word. */
  lemma WordIsNoEnd(ts: seq<Token>, w: string)
    ensures ConfigGrammar.Parse(ts + [Word(w)]) == None
  {
    RunAppend(START, ts, [Word(w)]);
    if Run(START, ts).Some? {
      RunOne(Run(START, ts).value, Word(w));
    }
  }

  /**
   A bare word that runs into the end of any text is dropped, not refused: the text means
   what it means without the word, although with the word ended it is refused.
   */
  lemma UnfinishedWordIsDropped(s: string, p: string, w: string)
    requires StopsIn(s, p, w)
    ensures ParseText(s) == ParseText(p) && ParseText(s + "\n") == None
  {
    hide Tokens, ParseText, ConfigGrammar.Parse, StopsIn;
    StoppedTokens(s, p, w);
    ParseTextIs(s);
    ParseTextIs(p);
    ParseTextIs(s + "\n");
    WordIsNoEnd(Tokens(p).value, w);
  }

  /** What ending the last line changes, for every text. */
  lemma EndingTheLine(s: string)
    ensures ParseText(s + "\n") == if EndsInWord(s) then None else ParseText(s)
  {
    hide Tokens, ParseText, EndsInWord, StopsIn;
    EndsInWordIsSplit(s);
    if EndsInWord(s) {
      var p, w :| StopsIn(s, p, w);
      UnfinishedWordIsDropped(s, p, w);
    } else {
      EndedLineTokens(s);
      ParseTextIs(s);
      ParseTextIs(s + "\n");
    }
  }

  /** An accepted text loses a word if and only if it stops in one. */
  lemma AcceptedLosesWord(s: string)
    requires ParseText(s).Some?
    ensures ParseText(s + "\n") == ParseText(s) <==> !EndsInWord(s)
  {
    hide *;
    EndingTheLine(s);
  }

  lemma TextEndsLine(c: Config, depth: nat) returns (front: string)
    requires c != []
    ensures Text(c, depth) == front + "\n"
  {
    var s := StmtText(Last(c), depth);
    assert s[|s| - 1] == '\n';
    var before := Text(Front(c), depth);
    front := before + s[..|s| - 1];
    assert s == s[..|s| - 1] + "\n";
    hide StmtText;
    assert Text(c, depth) == before + s;
  }

  lemma PrintedTokens(c: Config, depth: nat)
    requires ValidConfig(c)
    ensures Tokens(Text(c, depth)).Some?
  {
    hide *;
    NoTokens();
    TokensText(c, depth, "");
    assert Text(c, depth) + "" == Text(c, depth);
    PrefixAll(Yield(c));
  }

  /** A printed configuration stops between tokens. */
  lemma PrintedEnds(c: Config, depth: nat)
    requires ValidConfig(c)
    ensures Scan(Text(c, depth), InitialWhitespace) == InitialWhitespace
  {
    if c == [] {
    } else {
      var s := Text(c, depth);
      var front := TextEndsLine(c, depth);
      ScanLast(front, '\n', InitialWhitespace);
      PrintedTokens(c, depth);
      hide Text, Tokens;
      var p, t := UnfinishedEnd(s);
      if Scan(s, InitialWhitespace) != InitialWhitespace {
        TokensAhead(p, t);
        OpenQuoteTokens(Scan(s, InitialWhitespace), t);
      }
    }
  }

  /** In particular, a bare word after a printed configuration changes nothing. */
  lemma WordAtEndIsDropped(c: Config, depth: nat, w: string)
    requires ValidConfig(c) && BareWord(w)
    ensures ParseText(Text(c, depth) + w) == Some(c)
  {
    PrintedEnds(c, depth);
    hide Text, BareWord, Scan, ParseText;
    PrintParse(c, depth);
    UnfinishedWordIsDropped(Text(c, depth) + w, Text(c, depth), w);
  }
}
