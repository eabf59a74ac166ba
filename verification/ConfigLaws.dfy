/** Printing a configuration and parsing the text gives the configuration back. */
module ConfigLaws {
  import opened Basics
  import opened ConfigLexer
  import opened ConfigGrammar
  import opened ConfigText
  import opened ConfigParser

  // ----- Words the lexer can produce -----

  predicate BareTail(w: string) {
    forall i :: 0 <= i < |w| ==> !EndsWord(w[i])
  }

  predicate BareWord(w: string) {
    && w != "" && !IsBlank(w[0]) && w[0] !in {'{', '}', ';', '#', '"', '\''}
    && BareTail(w[1..])
  }

  predicate Quoted(w: string, quote: char) {
    && |w| >= 2 && w[0] == quote && w[|w| - 1] == quote
    && forall i :: 0 < i < |w| - 1 ==> w[i] != quote
  }

  predicate ValidWord(w: string) {
    BareWord(w) || Quoted(w, '"') || Quoted(w, '\'')
  }

  predicate ValidStmt(s: Stmt)
    decreases s
  {
    && s.words != [] && (forall i :: 0 <= i < |s.words| ==> ValidWord(s.words[i]))
    && (s.Block? ==> forall i :: 0 <= i < |s.block| ==> ValidStmt(s.block[i]))
  }

  /** Every statement has words, and all words are lexically valid. */
  predicate ValidConfig(c: Config) {
    forall i :: 0 <= i < |c| ==> ValidStmt(c[i])
  }

  // ----- Lexing what is printed -----

  predicate Delimited(rest: string) {
    rest != "" && EndsWord(rest[0])
  }

  lemma {:induction false} LexBare(w: string, value: string, rest: string)
    requires BareTail(w) && Delimited(rest)
    ensures Lex(w + rest, InNormal, value) == Lexed(TokenNormal, value + w, rest)
  {
    if w == "" {
      assert w + rest == rest && value + w == value;
    } else {
      assert (w + rest)[1..] == w[1..] + rest;
      LexBare(w[1..], value + [w[0]], rest);
      assert value + [w[0]] + w[1..] == value + w;
    }
  }

  lemma {:induction false} LexQuote(w: string, quote: char, value: string, rest: string)
    requires quote == '"' || quote == '\''
    requires w != "" && w[|w| - 1] == quote && forall i :: 0 <= i < |w| - 1 ==> w[i] != quote
    ensures Lex(w + rest, if quote == '"' then InDoubleQuote else InSingleQuote, value)
         == Lexed(TokenNormal, value + w, rest)
  {
    assert (w + rest)[1..] == w[1..] + rest;
    assert value + [w[0]] + w[1..] == value + w;
    if |w| == 1 {
      assert w[1..] + rest == rest && [w[0]] == w;
    } else {
      LexQuote(w[1..], quote, value + [w[0]], rest);
    }
  }

  lemma LexWord(w: string, rest: string)
    requires ValidWord(w) && Delimited(rest)
    ensures Lex(w + rest, InitialWhitespace, "") == Lexed(TokenNormal, w, rest)
  {
    hide Delimited, BareTail;
    assert (w + rest)[1..] == w[1..] + rest && [w[0]] + w[1..] == w;
    if BareWord(w) {
      assert "" + [w[0]] == [w[0]];
      LexBare(w[1..], [w[0]], rest);
    } else {
      LexQuote(w[1..], w[0], [w[0]], rest);
    }
  }

  function Prefix(ts: seq<Token>, rest: Option<seq<Token>>): Option<seq<Token>> {
    if rest.None? then None else Some(ts + rest.value)
  }

  lemma PrefixTwice(a: seq<Token>, b: seq<Token>, r: Option<seq<Token>>)
    ensures Prefix(a, Prefix(b, r)) == Prefix(a + b, r)
    ensures Prefix([], r) == r
  {
    if r.Some? {
      assert a + (b + r.value) == a + b + r.value && [] + r.value == r.value;
    }
  }

  lemma TokensWord(w: string, rest: string)
    requires ValidWord(w) && Delimited(rest)
    ensures Tokens(w + rest) == Prefix([Word(w)], Tokens(rest))
  {
    LexWord(w, rest);
  }

  lemma TokensBlank(c: char, rest: string)
    requires IsBlank(c)
    ensures Tokens([c] + rest) == Tokens(rest)
  {
    assert ([c] + rest)[1..] == rest;
  }

  lemma TokensPunctuation(rest: string)
    ensures Tokens("{" + rest) == Prefix([Open], Tokens(rest))
    ensures Tokens("}" + rest) == Prefix([Close], Tokens(rest))
    ensures Tokens(";" + rest) == Prefix([Semicolon], Tokens(rest))
  {
    assert ("{" + rest)[1..] == rest && ("}" + rest)[1..] == rest && (";" + rest)[1..] == rest;
  }

  lemma {:induction false} TokensTabs(depth: nat, rest: string)
    ensures Tokens(Tabs(depth) + rest) == Tokens(rest)
  {
    if depth == 0 {
      assert "" + rest == rest;
    } else {
      assert Tabs(depth) + rest == Tabs(depth - 1) + ("\t" + rest);
      TokensTabs(depth - 1, "\t" + rest);
      TokensBlank('\t', rest);
    }
  }

  lemma {:induction false} TokensJoin(ws: seq<string>, rest: string)
    requires ws != [] && (forall i :: 0 <= i < |ws| ==> ValidWord(ws[i])) && Delimited(rest)
    ensures Tokens(Join(ws) + rest) == Prefix(Words(ws), Tokens(rest))
  {
    hide Tokens;
    var w := Last(ws);
    TokensWord(w, rest);
    if |ws| == 1 {
      assert Words(ws) == [Word(w)];
    } else {
      var front := Front(ws);
      assert Join(ws) + rest == Join(front) + (" " + (w + rest));
      TokensJoin(front, " " + (w + rest));
      TokensBlank(' ', w + rest);
      PrefixTwice(Words(front), [Word(w)], Tokens(rest));
    }
  }

  lemma {:induction false} TokensStmt(s: Stmt, depth: nat, rest: string)
    requires ValidStmt(s)
    ensures Tokens(StmtText(s, depth) + rest) == Prefix(StmtYield(s), Tokens(rest))
    decreases s, 1
  {
    hide Tokens, Join, Tabs, Words, ValidWord, Text, Yield;
    var words := Words(s.words);
    var end := "\n" + rest;
    TokensBlank('\n', rest);
    if s.Simple? {
      var tail := ";" + end;
      assert StmtText(s, depth) + rest == Tabs(depth) + (Join(s.words) + tail);
      TokensTabs(depth, Join(s.words) + tail);
      TokensJoin(s.words, tail);
      TokensPunctuation(end);
      PrefixTwice(words, [Semicolon], Tokens(rest));
    } else {
      var close := Tabs(depth) + ("}" + end);
      var open := "{" + ("\n" + (Text(s.block, depth + 1) + close));
      assert StmtText(s, depth) + rest == Tabs(depth) + (Join(s.words) + (" " + open));
      TokensTabs(depth, Join(s.words) + (" " + open));
      TokensJoin(s.words, " " + open);
      TokensBlank(' ', open);
      TokensPunctuation("\n" + (Text(s.block, depth + 1) + close));
      TokensBlank('\n', Text(s.block, depth + 1) + close);
      TokensText(s.block, depth + 1, close);
      TokensTabs(depth, "}" + end);
      TokensPunctuation(end);
      PrefixTwice([Open], Yield(s.block), Prefix([Close], Tokens(rest)));
      PrefixTwice([Open] + Yield(s.block), [Close], Tokens(rest));
      PrefixTwice(words, [Open] + Yield(s.block) + [Close], Tokens(rest));
    }
  }

  /** The tokens of printed text are the tokens the configuration derives. */
  lemma {:induction false} TokensText(c: Config, depth: nat, rest: string)
    requires ValidConfig(c)
    ensures Tokens(Text(c, depth) + rest) == Prefix(Yield(c), Tokens(rest))
    decreases c, 0
  {
    hide Tokens, StmtText, StmtYield, ValidStmt;
    if c == [] {
      assert "" + rest == rest;
      PrefixTwice([], [], Tokens(rest));
    } else {
      var front, s := Front(c), Last(c);
      assert Text(c, depth) + rest == Text(front, depth) + (StmtText(s, depth) + rest);
      TokensText(front, depth, StmtText(s, depth) + rest);
      TokensStmt(s, depth, rest);
      PrefixTwice(Yield(front), StmtYield(s), Tokens(rest));
    }
  }

  lemma {:induction false} ValidIsWellFormed(c: Config)
    requires ValidConfig(c)
    ensures WellFormed(c)
    decreases c
  {
    forall i | 0 <= i < |c| && c[i].Block? ensures WellFormed(c[i].block) {
      assert ValidStmt(c[i]);
      ValidIsWellFormed(c[i].block);
    }
  }

  lemma ParseTextIs(text: string)
    ensures ParseText(text) == match Tokens(text) case None => None case Some(ts) => ConfigGrammar.Parse(ts)
  {}

  /**
   Text is accepted exactly when its tokens derive from the grammar, and the tree is the
   derivation.
   */
  lemma ParserIsGrammar(text: string, c: Config)
    ensures ParseText(text) == Some(c)
       <==> Tokens(text).Some? && WellFormed(c) && Yield(c) == Tokens(text).value
  {
    hide Tokens, Yield, WellFormed;
    ParseTextIs(text);
    if Tokens(text).Some? {
      AutomatonIsGrammar(Tokens(text).value, c);
    }
  }

  lemma NoTokens()
    ensures Tokens("") == Some([])
  {}

  /** Printing and parsing: the text of a configuration parses to the configuration. */
  lemma PrintParse(c: Config, depth: nat)
    requires ValidConfig(c)
    ensures ParseText(Text(c, depth)) == Some(c)
  {
    hide Tokens, Yield, Text;
    assert Tokens("") == Some([]) by { NoTokens(); }
    TokensText(c, depth, "");
    assert Text(c, depth) + "" == Text(c, depth) && Yield(c) + [] == Yield(c);
    ValidIsWellFormed(c);
    ParserIsGrammar(Text(c, depth), c);
  }

  // ----- What the lexer produces -----

  /** What a token's text looks like while it is being read. */
  predicate Partial(state: LexState, value: string) {
    match state
    case InitialWhitespace => value == ""
    case InNormal => BareWord(value)
    case InDoubleQuote => value != "" && value[0] == '"' && forall i :: 0 < i < |value| ==> value[i] != '"'
    case InSingleQuote => value != "" && value[0] == '\'' && forall i :: 0 < i < |value| ==> value[i] != '\''
    case InComment => true
  }

  lemma {:induction false} LexedWordIsValid(s: string, state: LexState, value: string)
    requires Partial(state, value)
    ensures Lex(s, state, value).kind == TokenNormal ==> ValidWord(Lex(s, state, value).value)
    decreases |s|
  {
    if s == "" {
    } else {
      var c := s[0];
      var longer := value + [c];
      match state {
        case InitialWhitespace =>
          if c == '#' {
            LexedWordIsValid(s[1..], InComment, [c]);
          } else if c == '"' {
            LexedWordIsValid(s[1..], InDoubleQuote, [c]);
          } else if c == '\'' {
            LexedWordIsValid(s[1..], InSingleQuote, [c]);
          } else if IsBlank(c) {
            LexedWordIsValid(s[1..], InitialWhitespace, value);
          } else if c !in {'{', '}', ';'} {
            assert longer == [c];
            LexedWordIsValid(s[1..], InNormal, longer);
          }
        case InNormal =>
          if !EndsWord(c) {
            assert longer[1..] == value[1..] + [c];
            LexedWordIsValid(s[1..], InNormal, longer);
          }
        case InComment =>
          if c != '\n' && c != '\r' {
            LexedWordIsValid(s[1..], InComment, longer);
          }
        case _ =>
          if c != (if state == InDoubleQuote then '"' else '\'') {
            LexedWordIsValid(s[1..], state, longer);
          }
      }
    }
  }

  predicate ValidTokens(ts: seq<Token>) {
    forall i :: 0 <= i < |ts| ==> ts[i].Word? ==> ValidWord(ts[i].text)
  }

  lemma {:induction false} TokensAreValid(s: string)
    ensures Tokens(s).Some? ==> ValidTokens(Tokens(s).value)
    decreases |s|
  {
    var t := Lex(s, InitialWhitespace, "");
    LexedWordIsValid(s, InitialWhitespace, "");
    if t.kind == TokenError || t.kind == TokenEof {
    } else {
      TokensAreValid(t.rest);
    }
    hide Lex, ValidWord;
  }

  lemma ValidTokensParts(a: seq<Token>, b: seq<Token>)
    ensures ValidTokens(a + b) <==> ValidTokens(a) && ValidTokens(b)
  {
    hide ValidWord;
    assert forall i :: 0 <= i < |a| ==> (a + b)[i] == a[i];
    assert forall i :: 0 <= i < |b| ==> (a + b)[|a| + i] == b[i];
  }

  lemma {:induction false} WordsAreValid(ws: seq<string>)
    requires ValidTokens(Words(ws))
    ensures forall i :: 0 <= i < |ws| ==> ValidWord(ws[i])
  {
    hide ValidWord;
    if ws == [] {
    } else {
      ValidTokensParts(Words(Front(ws)), [Word(Last(ws))]);
      assert Words(ws)[|Words(ws)| - 1] == Word(Last(ws));
      WordsAreValid(Front(ws));
      assert forall i :: 0 <= i < |ws| - 1 ==> ws[i] == Front(ws)[i];
    }
  }

  lemma {:induction false} DerivedIsValid(c: Config)
    requires WellFormed(c) && ValidTokens(Yield(c))
    ensures ValidConfig(c)
    decreases c
  {
    hide ValidWord, Words, ValidTokens;
    if c == [] {
    } else {
      var front, s := Front(c), Last(c);
      ValidTokensParts(Yield(front), StmtYield(s));
      assert forall i :: 0 <= i < |front| ==> front[i] == c[i];
      DerivedIsValid(front);
      var end := if s.Simple? then [Semicolon] else [Open] + Yield(s.block) + [Close];
      ValidTokensParts(Words(s.words), end);
      WordsAreValid(s.words);
      if s.Block? {
        ValidTokensParts([Open] + Yield(s.block), [Close]);
        ValidTokensParts([Open], Yield(s.block));
        DerivedIsValid(s.block);
      }
      assert forall i :: 0 <= i < |c| - 1 ==> ValidStmt(c[i]);
    }
  }

  /** Every accepted text yields a configuration whose words the lexer can read back. */
  lemma AcceptedIsValid(text: string)
    requires ParseText(text).Some?
    ensures ValidConfig(ParseText(text).value)
  {
    hide Tokens, Yield, ParseText, ValidTokens;
    ParserIsGrammar(text, ParseText(text).value);
    TokensAreValid(text);
    DerivedIsValid(ParseText(text).value);
  }

  /** Parsing, printing and parsing again is parsing. */
  lemma ParsePrintParse(text: string, depth: nat)
    requires ParseText(text).Some?
    ensures ParseText(Text(ParseText(text).value, depth)) == ParseText(text)
  {
    AcceptedIsValid(text);
    PrintParse(ParseText(text).value, depth);
  }

  // ----- A word at the end -----

  lemma {:induction false} LexBareAtEnd(w: string, value: string)
    requires BareTail(w)
    ensures Lex(w, InNormal, value).kind == TokenEof
  {
    if w == "" {
    } else {
      LexBareAtEnd(w[1..], value + [w[0]]);
    }
  }

  lemma TokensOfWordAtEnd(w: string)
    requires BareWord(w)
    ensures Tokens(w) == Some([])
  {
    LexBareAtEnd(w[1..], "" + [w[0]]);
  }

  // ----- Comments -----

  predicate OneLine(text: string) {
    forall i :: 0 <= i < |text| ==> text[i] != '\n' && text[i] != '\r'
  }

  lemma {:induction false} LexComment(text: string, value: string, end: char, rest: string)
    requires OneLine(text) && (end == '\n' || end == '\r')
    ensures var r := Lex(text + [end] + rest, InComment, value);
            r.kind == TokenComment && r.rest == rest
  {
    var s := text + [end] + rest;
    if text != "" {
      assert s[1..] == text[1..] + [end] + rest;
      LexComment(text[1..], value + [text[0]], end, rest);
    } else {
      assert s[1..] == rest;
    }
  }

  lemma TokensComment(text: string, end: char, rest: string)
    requires OneLine(text) && (end == '\n' || end == '\r')
    ensures Tokens("#" + text + [end] + rest) == Tokens(rest)
  {
    var s := "#" + text + [end] + rest;
    assert s[1..] == text + [end] + rest;
    LexComment(text, "#", end, rest);
  }

  lemma YieldLast(c: Config)
    requires c != []
    ensures Yield(c) == Yield(Front(c)) + StmtYield(Last(c))
  {
  }

  lemma FrontOfConcat(c: Config, d: Config)
    requires d != []
    ensures Front(c + d) == c + Front(d) && Last(c + d) == Last(d)
  {
  }

  lemma {:induction false} YieldConcat(c: Config, d: Config)
    ensures Yield(c + d) == Yield(c) + Yield(d)
    decreases |d|
  {
    if d == [] {
      assert c + d == c && Yield(d) == [];
    } else {
      assert |Front(d)| < |d|;
      hide *;
      FrontOfConcat(c, d);
      YieldConcat(c, Front(d));
      YieldLast(c + d);
      YieldLast(d);
    }
  }

  lemma PrefixAll(ts: seq<Token>)
    ensures Prefix(ts, Some([])) == Some(ts)
  {
    assert ts + [] == ts;
  }

  lemma WellFormedConcat(c: Config, d: Config)
    requires ValidConfig(c) && ValidConfig(d)
    ensures WellFormed(c + d)
  {
    assert ValidConfig(c + d);
    hide ValidConfig, WellFormed;
    ValidIsWellFormed(c + d);
  }

  /**
   A comment between two configurations is ignored, and what stands before and after it is
   one configuration.
   */
  lemma CommentIsIgnored(c: Config, d: Config, depth: nat, text: string, end: char)
    requires ValidConfig(c) && ValidConfig(d)
    requires OneLine(text) && (end == '\n' || end == '\r')
    ensures ParseText(Text(c, depth) + ("#" + text + [end] + Text(d, depth))) == Some(c + d)
  {
    hide *;
    NoTokens();
    TokensText(d, depth, "");
    assert Text(d, depth) + "" == Text(d, depth);
    PrefixAll(Yield(d));
    TokensComment(text, end, Text(d, depth));
    TokensText(c, depth, "#" + text + [end] + Text(d, depth));
    YieldConcat(c, d);
    PrefixTwice(Yield(c), Yield(d), Some([]));
    PrefixAll(Yield(c) + Yield(d));
    WellFormedConcat(c, d);
    ParserIsGrammar(Text(c, depth) + ("#" + text + [end] + Text(d, depth)), c + d);
  }
}
