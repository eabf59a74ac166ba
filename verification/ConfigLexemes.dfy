/** The lexical language of configuration texts, apart from how the lexer goes through them. */
module ConfigLexemes {
  import opened Basics
  import opened ConfigLexer
  import opened ConfigGrammar
  import opened ConfigParser
  import opened ConfigLaws
  import opened ConfigEnd

  /** The pieces of a text; a comment has the character that ends its line. */
  datatype Lexeme =
    | Blank(c: char)
    | Mark(c: char)
    | Comment(text: string, end: char)
    | Quotation(text: string)
    | Bare(text: string)

  predicate IsLexeme(l: Lexeme) {
    match l
    case Blank(c) => IsBlank(c)
    case Mark(c) => c in {'{', '}', ';'}
    case Comment(text, end) => OneLine(text) && end in {'\n', '\r'}
    case Quotation(text) => Quoted(text, '"') || Quoted(text, '\'')
    case Bare(text) => BareWord(text)
  }

  /** What can stand after a bare word. */
  predicate EndsBare(l: Lexeme) {
    l.Mark? || (l.Blank? && l.c != '\r')
  }

  /** Lexemes with every bare word ended by the lexeme after it. */
  predicate AreLexemes(ls: seq<Lexeme>) {
    ls == [] || (IsLexeme(ls[0]) && (ls[0].Bare? ==> |ls| > 1 && EndsBare(ls[1])) && AreLexemes(ls[1..]))
  }

  function Spelling(l: Lexeme): string {
    match l
    case Blank(c) => [c]
    case Mark(c) => [c]
    case Comment(text, end) => "#" + text + [end]
    case Quotation(text) => text
    case Bare(text) => text
  }

  function Spellings(ls: seq<Lexeme>): string {
    if ls == [] then "" else Spelling(ls[0]) + Spellings(ls[1..])
  }

  /** White space and comments mean nothing. */
  function Meaning(l: Lexeme): seq<Token> {
    match l
    case Blank(_) => []
    case Mark(c) => [if c == '{' then Open else if c == '}' then Close else Semicolon]
    case Comment(_, _) => []
    case Quotation(text) => [Word(text)]
    case Bare(text) => [Word(text)]
  }

  function Meanings(ls: seq<Lexeme>): seq<Token> {
    if ls == [] then [] else Meaning(ls[0]) + Meanings(ls[1..])
  }

  /** `s` is these lexemes and an unfinished end: nothing, a comment, a bare word or a quotation. */
  predicate Lexes(ls: seq<Lexeme>, state: LexState, end: string, s: string) {
    AreLexemes(ls) && Unfinished(state, end) && s == Spellings(ls) + end
  }

  predicate InQuote(state: LexState) {
    state == InSingleQuote || state == InDoubleQuote
  }

  // ----- Lexemes are read as what they mean -----

  lemma LexStarts(s: string)
    requires s != "" && (s[0] == '"' || s[0] == '\'')
    ensures Lex(s, InitialWhitespace, "") == Lex(s[1..], if s[0] == '"' then InDoubleQuote else InSingleQuote, [s[0]])
  {
  }

  lemma QuotationReads(w: string, rest: string)
    requires Quoted(w, '"') || Quoted(w, '\'')
    ensures Tokens(w + rest) == Prefix([Word(w)], Tokens(rest))
  {
    assert (w + rest)[1..] == w[1..] + rest && [w[0]] + w[1..] == w && (w + rest)[0] == w[0];
    LexQuote(w[1..], w[0], [w[0]], rest);
    LexStarts(w + rest);
    hide Lex;
  }

  lemma LexemeReads(l: Lexeme, rest: string)
    requires IsLexeme(l) && (l.Bare? ==> Delimited(rest))
    ensures Tokens(Spelling(l) + rest) == Prefix(Meaning(l), Tokens(rest))
  {
    hide Tokens, BareWord, OneLine;
    PrefixTwice([], [], Tokens(rest));
    match l {
      case Blank(c) => TokensBlank(c, rest);
      case Mark(c) => TokensPunctuation(rest);
      case Comment(text, end) => TokensComment(text, end, rest);
      case Quotation(text) => QuotationReads(text, rest);
      case Bare(text) => TokensWord(text, rest);
    }
  }

  lemma SpellingsHead(ls: seq<Lexeme>)
    requires ls != []
    ensures Spellings(ls) == Spelling(ls[0]) + Spellings(ls[1..])
  {
  }

  lemma EndsBareDelimits(ls: seq<Lexeme>, rest: string)
    requires ls != [] && IsLexeme(ls[0]) && EndsBare(ls[0])
    ensures Delimited(Spellings(ls) + rest)
  {
    hide Spellings;
    assert Spellings(ls) == Spelling(ls[0]) + Spellings(ls[1..]) by { SpellingsHead(ls); }
  }

  lemma {:induction false} LexemesRead(ls: seq<Lexeme>, rest: string)
    requires AreLexemes(ls)
    ensures Tokens(Spellings(ls) + rest) == Prefix(Meanings(ls), Tokens(rest))
  {
    hide Tokens, IsLexeme, Spelling, Meaning, EndsBare;
    if ls == [] {
      assert "" + rest == rest;
      PrefixTwice([], [], Tokens(rest));
    } else {
      var tail := ls[1..];
      assert Spellings(ls) + rest == Spelling(ls[0]) + (Spellings(tail) + rest);
      if ls[0].Bare? {
        assert tail[0] == ls[1];
        EndsBareDelimits(tail, rest);
      }
      LexemeReads(ls[0], Spellings(tail) + rest);
      LexemesRead(tail, rest);
      PrefixTwice(Meaning(ls[0]), Meanings(tail), Tokens(rest));
    }
  }

  // ----- Every text is made of lexemes -----

  lemma {:induction false} SpellingsConcat(a: seq<Lexeme>, b: seq<Lexeme>)
    ensures Spellings(a + b) == Spellings(a) + Spellings(b)
  {
    if a == [] {
      assert a + b == b;
    } else {
      assert (a + b)[1..] == a[1..] + b;
      SpellingsConcat(a[1..], b);
    }
  }

  lemma {:induction false} AreJoined(a: seq<Lexeme>, b: seq<Lexeme>)
    requires AreLexemes(a) && AreLexemes(b)
    ensures AreLexemes(a + b)
  {
    hide IsLexeme, EndsBare;
    if a == [] {
      assert a + b == b;
    } else {
      assert (a + b)[1..] == a[1..] + b;
      AreJoined(a[1..], b);
    }
  }

  /** The lexemes an unfinished end becomes with the character that finishes it. */
  function Finished(state: LexState, end: string, c: char): seq<Lexeme> {
    var last := if IsBlank(c) then Blank(c) else Mark(c);
    match state
    case InitialWhitespace => [last]
    case InNormal => [Bare(end), last]
    case InComment => [Comment(if end == "" then "" else end[1..], c)]
    case _ => [Quotation(end + [c])]
  }

  lemma FinishedIsSpelled(state: LexState, end: string, c: char)
    requires Unfinished(state, end) && Next(state, c) == InitialWhitespace
    ensures AreLexemes(Finished(state, end, c))
    ensures Spellings(Finished(state, end, c)) == end + [c]
  {
    var ls := Finished(state, end, c);
    assert Spellings(ls[1..]) == if state == InNormal then [c] else "";
    if state == InComment {
      assert end == "#" + end[1..];
    }
  }

  /** Every text is lexemes and an unfinished end. */
  lemma {:induction false} EveryTextLexes(s: string) returns (ls: seq<Lexeme>, end: string)
    ensures Lexes(ls, Scan(s, InitialWhitespace), end, s)
  {
    if s == "" {
      ls, end := [], "";
    } else {
      var front, c := s[..|s| - 1], s[|s| - 1];
      var state := Scan(front, InitialWhitespace);
      assert s == front + [c];
      ls, end := EveryTextLexes(front);
      ScanLast(front, c, InitialWhitespace);
      assert s == Spellings(ls) + (end + [c]);
      if Next(state, c) == InitialWhitespace {
        var more := Finished(state, end, c);
        FinishedIsSpelled(state, end, c);
        SpellingsConcat(ls, more);
        AreJoined(ls, more);
        ls, end := ls + more, "";
      } else {
        UnfinishedStep(state, end, c);
        end := end + [c];
      }
    }
  }

  // ----- The language -----

  lemma LexedTokens(ls: seq<Lexeme>, state: LexState, end: string, s: string)
    requires Lexes(ls, state, end, s)
    ensures Tokens(s) == if InQuote(state) then None else Some(Meanings(ls))
  {
    LexemesRead(ls, end);
    UnfinishedTokens(state, end);
    hide Tokens, Spellings, Meanings, AreLexemes;
    if InQuote(state) {
      OpenQuoteTokens(state, end);
    } else if state == InComment {
      OpenCommentTokens(end);
    } else if state == InitialWhitespace {
      NoTokens();
    }
    assert Meanings(ls) + [] == Meanings(ls);
  }

  /**
   The lexical language: the tokens of a text are the meanings of any lexemes that spell it
   up to an unfinished end, and there are none if and only if that end is a quotation.
   */
  lemma LexicalGrammar(s: string, ts: seq<Token>)
    ensures Tokens(s) == Some(ts)
       <==> exists ls, state, end :: Lexes(ls, state, end, s) && !InQuote(state) && ts == Meanings(ls)
    ensures Tokens(s) == None <==> exists ls, state, end :: Lexes(ls, state, end, s) && InQuote(state)
  {
    var all, tail := EveryTextLexes(s);
    LexedTokens(all, Scan(s, InitialWhitespace), tail, s);
    forall ls, state, end | Lexes(ls, state, end, s)
      ensures Tokens(s) == if InQuote(state) then None else Some(Meanings(ls))
    {
      LexedTokens(ls, state, end, s);
    }
    hide Tokens, Lexes, Meanings;
  }

  /** The lexemes spell a derivation of the configuration. */
  predicate Spells(ls: seq<Lexeme>, state: LexState, end: string, text: string, c: Config) {
    Lexes(ls, state, end, text) && !InQuote(state) && WellFormed(c) && Meanings(ls) == Yield(c)
  }

  /**
   A text is accepted with a configuration if and only if it is spelled by lexemes whose
   tokens are the configuration's, and stops between them, in a comment or in a bare word.
   */
  lemma TextGrammar(text: string, c: Config)
    ensures ParseText(text) == Some(c) <==> exists ls, state, end :: Spells(ls, state, end, text, c)
  {
    ParserIsGrammar(text, c);
    LexicalGrammar(text, Yield(c));
    hide ParseText, Tokens, Lexes, Meanings, Yield, WellFormed;
    if ParseText(text) == Some(c) {
      var ls, state, end :| Lexes(ls, state, end, text) && !InQuote(state) && Yield(c) == Meanings(ls);
      assert Spells(ls, state, end, text, c);
    }
  }
}
