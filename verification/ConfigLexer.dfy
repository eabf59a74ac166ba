/** The lexer of the configuration file: a character state machine over a stream. */
module ConfigLexer {
  import opened Basics

  datatype TokenType =
    | TokenStart | TokenNormal | TokenStartBlock | TokenEndBlock | TokenComment
    | TokenStatementEnd | TokenEof | TokenError

  datatype LexState = InitialWhitespace | InSingleQuote | InDoubleQuote | InComment | InNormal

  /** A token's type, its text, and what is left of the input. */
  datatype Lexed = Lexed(kind: TokenType, value: string, rest: string)

  predicate IsBlank(c: char) {
    c == ' ' || c == '\t' || c == '\n' || c == '\r'
  }

  /** The characters that end a bare word; a carriage return is not one of them. */
  predicate EndsWord(c: char) {
    c == ' ' || c == '\t' || c == '\n' || c == ';' || c == '{' || c == '}'
  }

  /** `ParseToken` from a state, with the text read so far. */
  function Lex(s: string, state: LexState, value: string): (r: Lexed)
    ensures |r.rest| <= |s|
    ensures r.kind != TokenStart
    ensures state == InitialWhitespace && r.kind != TokenEof && r.kind != TokenError ==> |r.rest| < |s|
    ensures r.kind == TokenEof || r.kind == TokenError ==> r.rest == ""
    decreases |s|
  {
    if s == "" then
      Lexed(if state == InSingleQuote || state == InDoubleQuote then TokenError else TokenEof, value, "")
    else
      var c := s[0];
      match state
      case InitialWhitespace =>
        if c == '{' then Lexed(TokenStartBlock, [c], s[1..])
        else if c == '}' then Lexed(TokenEndBlock, [c], s[1..])
        else if c == '#' then Lex(s[1..], InComment, [c])
        else if c == '"' then Lex(s[1..], InDoubleQuote, [c])
        else if c == '\'' then Lex(s[1..], InSingleQuote, [c])
        else if c == ';' then Lexed(TokenStatementEnd, [c], s[1..])
        else if IsBlank(c) then Lex(s[1..], InitialWhitespace, value)
        else Lex(s[1..], InNormal, value + [c])
      case InSingleQuote =>
        if c == '\'' then Lexed(TokenNormal, value + [c], s[1..])
        else Lex(s[1..], InSingleQuote, value + [c])
      case InDoubleQuote =>
        if c == '"' then Lexed(TokenNormal, value + [c], s[1..])
        else Lex(s[1..], InDoubleQuote, value + [c])
      case InComment =>
        if c == '\n' || c == '\r' then Lexed(TokenComment, value, s[1..])
        else Lex(s[1..], InComment, value + [c])
      case InNormal =>
        if EndsWord(c) then Lexed(TokenNormal, value, s)
        else Lex(s[1..], InNormal, value + [c])
  }

  /** `std::istream` over a text. */
  class InputStream {
    const text: string
    var position: nat
    var good: bool

    ghost predicate Valid()
      reads this
    {
      position <= |text| && (!good ==> position == |text|)
    }

    ghost function Rest(): string
      requires Valid()
      reads this
    {
      text[position..]
    }

    constructor (s: string)
      ensures Valid() && text == s && Rest() == s && good
    {
      text, position, good := s, 0, true;
    }

    /** `get`: at the end the stream stops being good and the result means nothing. */
    method Get() returns (c: char)
      requires Valid() && good
      modifies this
      ensures Valid()
      ensures old(Rest()) == "" ==> !good && Rest() == ""
      ensures old(Rest()) != "" ==> good && c == old(Rest())[0] && Rest() == old(Rest())[1..]
      ensures old(Rest()) != "" ==> position == old(position) + 1
    {
      if position == |text| {
        good := false;
        return '\0';
      }
      c := text[position];
      position := position + 1;
    }

    method Unget()
      requires Valid() && good && position > 0
      modifies this`position
      ensures Valid() && position == old(position) - 1
      ensures Rest() == [text[position]] + old(Rest())
    {
      position := position - 1;
    }
  }

  /** `ParseToken`. */
  method ParseToken(input: InputStream, start: string) returns (kind: TokenType, value: string)
    requires input.Valid()
    modifies input
    ensures input.Valid()
    ensures Lexed(kind, value, input.Rest()) == Lex(old(input.Rest()), InitialWhitespace, start)
  {
    var state := InitialWhitespace;
    value := start;
    while input.good
      invariant input.Valid()
      invariant Lex(input.Rest(), state, value) == Lex(old(input.Rest()), InitialWhitespace, start)
      decreases |input.Rest()|, input.good
    {
      ghost var before := input.Rest();
      var c := input.Get();
      if !input.good {
        break;
      }
      match state {
        case InitialWhitespace =>
          match c {
            case '{' =>
              return TokenStartBlock, [c];
            case '}' =>
              return TokenEndBlock, [c];
            case '#' =>
              value := [c];
              state := InComment;
            case '"' =>
              value := [c];
              state := InDoubleQuote;
            case '\'' =>
              value := [c];
              state := InSingleQuote;
            case ';' =>
              return TokenStatementEnd, [c];
            case _ =>
              if !IsBlank(c) {
                value := value + [c];
                state := InNormal;
              }
          }
        case InSingleQuote =>
          value := value + [c];
          if c == '\'' {
            return TokenNormal, value;
          }
        case InDoubleQuote =>
          value := value + [c];
          if c == '"' {
            return TokenNormal, value;
          }
        case InComment =>
          if c == '\n' || c == '\r' {
            return TokenComment, value;
          }
          value := value + [c];
        case InNormal =>
          if EndsWord(c) {
            input.Unget();
            assert input.Rest() == before;
            return TokenNormal, value;
          }
          value := value + [c];
      }
    }
    if state == InSingleQuote || state == InDoubleQuote {
      return TokenError, value;
    }
    return TokenEof, value;
  }

  // ----- The token stream -----

  datatype Token = Word(text: string) | Open | Close | Semicolon

  function Before(t: Token, ts: Option<seq<Token>>): Option<seq<Token>> {
    if ts.None? then None else Some([t] + ts.value)
  }

  /**
   All tokens of a text but its comments; `None` when a quote is left open. A bare word
   that runs into the end of the text is not a token.
   */
  function Tokens(s: string): Option<seq<Token>>
    decreases |s|
  {
    var t := Lex(s, InitialWhitespace, "");
    match t.kind
    case TokenError => None
    case TokenEof => Some([])
    case TokenComment => Tokens(t.rest)
    case TokenNormal => Before(Word(t.value), Tokens(t.rest))
    case TokenStartBlock => Before(Open, Tokens(t.rest))
    case TokenEndBlock => Before(Close, Tokens(t.rest))
    case TokenStatementEnd => Before(Semicolon, Tokens(t.rest))
  }
}
