/** `NginxConfigParser::Parse`: the loop that reads tokens and grows the tree on a stack. */
module ConfigParser {
  import opened Basics
  import opened ConfigLexer
  import opened ConfigGrammar
  import opened ConfigTree

  /** What is built from a state and the rest of the input, when it is accepted. */
  function Finish(s: State, rest: string): Option<Config>
    requires Reachable(s)
  {
    match Tokens(rest)
    case None => None
    case Some(ts) =>
      match Run(s, ts)
      case None => None
      case Some(s') => if Accepting(s') then Some(s'.top) else None
  }

  /** The configuration a text stands for, when it is valid. */
  function ParseText(text: string): Option<Config> {
    Finish(START, text)
  }

  predicate IsToken(kind: TokenType) {
    kind == TokenNormal || kind == TokenStartBlock || kind == TokenEndBlock || kind == TokenStatementEnd
  }

  function TokenOf(kind: TokenType, value: string): Token {
    if kind == TokenNormal then Word(value)
    else if kind == TokenStartBlock then Open
    else if kind == TokenEndBlock then Close
    else Semicolon
  }

  /** One token: a comment changes nothing, any other takes a step of the automaton. */
  lemma FinishStep(s: State, rest: string)
    requires Reachable(s)
    ensures var t := Lex(rest, InitialWhitespace, "");
            && (t.kind == TokenError ==> Finish(s, rest) == None)
            && (t.kind == TokenEof ==> Finish(s, rest) == if Accepting(s) then Some(s.top) else None)
            && (t.kind == TokenComment ==> Finish(s, rest) == Finish(s, t.rest))
            && (IsToken(t.kind) ==>
                  Finish(s, rest) == match Step(s, TokenOf(t.kind, t.value))
                                     case None => None
                                     case Some(s') => Finish(s', t.rest))
  {
    var t := Lex(rest, InitialWhitespace, "");
    if IsToken(t.kind) {
      var tail := Tokens(t.rest);
      assert Tokens(rest) == Before(TokenOf(t.kind, t.value), tail);
      if tail.Some? {
        assert ([TokenOf(t.kind, t.value)] + tail.value)[1..] == tail.value;
      }
      hide Lex, Tokens, Step;
    }
  }

  lemma FinishToken(s: State, rest: string, t: Lexed)
    requires Reachable(s) && t == Lex(rest, InitialWhitespace, "") && IsToken(t.kind)
    ensures Step(s, TokenOf(t.kind, t.value)).None? ==> Finish(s, rest) == None
    ensures Step(s, TokenOf(t.kind, t.value)).Some? ==>
              Finish(s, rest) == Finish(Step(s, TokenOf(t.kind, t.value)).value, t.rest)
  {
    hide Lex, Finish, Step, TokenOf;
    FinishStep(s, rest);
  }

  lemma FinishOther(s: State, rest: string, t: Lexed)
    requires Reachable(s) && t == Lex(rest, InitialWhitespace, "") && !IsToken(t.kind)
    ensures t.kind == TokenError ==> Finish(s, rest) == None
    ensures t.kind == TokenEof ==> Finish(s, rest) == if Accepting(s) then Some(s.top) else None
    ensures t.kind == TokenComment ==> Finish(s, rest) == Finish(s, t.rest)
  {
    hide Lex, Finish, Step, TokenOf;
    FinishStep(s, rest);
  }

  // ----- The stack -----

  /** The statements of the `i`-th open block; the root had `base` before parsing. */
  function Level(base: Config, s: State, i: nat): Config
    requires i <= |s.below|
  {
    (if i == 0 then base else []) + (if i < |s.below| then s.below[i] else s.top)
  }

  /**
   Each entry of the stack is the block of the last statement of the entry below it, and
   no two entries share an object.
   */
  ghost predicate Spine(stack: seq<NginxConfig>, base: Config, s: State): (r: bool)
    reads set i | 0 <= i < |stack| :: stack[i]
    reads set i, o | 0 <= i < |stack| && o in stack[i].Repr :: o
    ensures r ==> |stack| == |s.below| + 1
    ensures r ==> forall i :: 0 <= i < |stack| ==> stack[i] in stack[i].Repr
  {
    && |stack| == |s.below| + 1
    && (forall i :: 0 <= i < |stack| ==> stack[i].Represents(Level(base, s, i), i < |stack| - 1))
    && (forall i, j :: 0 <= i < j < |stack| ==> stack[i].Repr !! stack[j].Repr)
    && (forall i :: 0 <= i < |stack| - 1 ==> Last(stack[i].statements).childBlock == stack[i + 1])
  }

  /** What a block's statements become when a word is read. */
  function WithWord(c: Config, last: TokenType, token: string): Config
    requires last == TokenNormal ==> c != []
  {
    AddWord(if last == TokenNormal then c else c + [Simple([])], token)
  }

  /** The branch of `Parse` for a word: it starts a statement unless it follows a word. */
  method AppendWord(top: NginxConfig, token: string, lastTokenType: TokenType, ghost c: Config)
    requires top.Represents(c, false)
    requires lastTokenType == TokenNormal ==> c != [] && Last(c).Simple?
    modifies top.Repr
    ensures top.Represents(WithWord(c, lastTokenType, token), false)
    ensures fresh(top.Repr - old(top.Repr))
  {
    hide NginxConfig.Represents;
    if lastTokenType != TokenNormal {
      top.AddStatement(c);
      top.AddToken(token, c + [Simple([])]);
    } else {
      top.AddToken(token, c);
    }
  }

  lemma AddWordAfter(before: Config, c: Config, w: string)
    requires c != []
    ensures AddWord(before + c, w) == before + AddWord(c, w)
  {
    assert Front(before + c) == before + Front(c) && Last(before + c) == Last(c);
    var stmt := Last(c).(words := Last(c).words + [w]);
    assert before + (Front(c) + [stmt]) == before + Front(c) + [stmt];
  }

  lemma LevelWithWord(base: Config, s: State, token: string)
    requires Reachable(s)
    ensures var s' := Step(s, Word(token)).value;
            var n := |s.below|;
            && s'.below == s.below
            && Level(base, s', n) == WithWord(Level(base, s, n), s.last, token)
            && forall i :: 0 <= i < n ==> Level(base, s', i) == Level(base, s, i)
  {
    var b := if s.below == [] then base else [];
    var top := if s.last == TokenNormal then s.top else s.top + [Simple([])];
    assert b + s.top + [Simple([])] == b + (s.top + [Simple([])]);
    AddWordAfter(b, top, token);
    assert Step(s, Word(token)).value.top == AddWord(top, token);
    hide AddWord;
  }

  lemma TopIsOpen(base: Config, s: State)
    requires Reachable(s) && s.last == TokenNormal
    ensures Level(base, s, |s.below|) != [] && Last(Level(base, s, |s.below|)).Simple?
  {}

  method PushWord(stack: seq<NginxConfig>, token: string, lastTokenType: TokenType, ghost base: Config, ghost s: State)
    requires Reachable(s) && s.last == lastTokenType && Spine(stack, base, s)
    modifies Last(stack).Repr
    ensures Spine(stack, base, Step(s, Word(token)).value)
    ensures fresh(Last(stack).Repr - old(Last(stack).Repr))
    ensures forall i :: 0 <= i < |stack| - 1 ==> stack[i].Repr == old(stack[i].Repr)
  {
    hide NginxConfig.Represents, Step, WithWord, Level;
    LevelWithWord(base, s, token);
    if lastTokenType == TokenNormal {
      TopIsOpen(base, s);
    }
    AppendWord(stack[|stack| - 1], token, lastTokenType, Level(base, s, |s.below|));
  }

  lemma LevelOpened(base: Config, s: State)
    requires Reachable(s) && s.last == TokenNormal
    ensures var s' := Step(s, Open).value;
            var n := |s.below|;
            && |s'.below| == n + 1
            && Level(base, s', n + 1) == []
            && forall i :: 0 <= i <= n ==> Level(base, s', i) == Level(base, s, i)
  {}

  /** The branch for an opening brace. */
  method PushBlock(stack: seq<NginxConfig>, ghost base: Config, ghost s: State) returns (stack': seq<NginxConfig>)
    requires Reachable(s) && s.last == TokenNormal && Spine(stack, base, s)
    modifies Last(stack).Repr
    ensures Spine(stack', base, Step(s, Open).value)
    ensures |stack'| == |stack| + 1 && stack'[..|stack|] == stack
    ensures fresh(Last(stack').Repr)
    ensures forall i :: 0 <= i < |stack| ==> stack[i].Repr == old(stack[i].Repr)
  {
    hide NginxConfig.Represents, Step, Level;
    LevelOpened(base, s);
    TopIsOpen(base, s);
    var newConfig := stack[|stack| - 1].OpenBlock(Level(base, s, |s.below|));
    stack' := stack + [newConfig];
  }

  lemma LevelClosed(base: Config, s: State)
    requires Reachable(s) && s.below != [] && Step(s, Close).Some?
    ensures var s' := Step(s, Close).value;
            var n := |s.below| - 1;
            && |s'.below| == n
            && Level(base, s', n) == SetBlock(Level(base, s, n), Level(base, s, n + 1))
            && forall i :: 0 <= i < n ==> Level(base, s', i) == Level(base, s, i)
  {
    var b := if |s.below| == 1 then base else [];
    var c := Last(s.below);
    assert Front(b + c) == b + Front(c) && Last(b + c) == Last(c);
    assert [] + s.top == s.top;
    assert b + (Front(c) + [Block(Last(c).words, s.top)]) == b + Front(c) + [Block(Last(c).words, s.top)];
  }

  /** The branch for a closing brace, above the root. */
  method PopBlock(stack: seq<NginxConfig>, ghost base: Config, ghost s: State) returns (stack': seq<NginxConfig>)
    requires Reachable(s) && |stack| > 1 && Step(s, Close).Some? && Spine(stack, base, s)
    modifies stack[|stack| - 2]
    ensures stack' == Front(stack) && Spine(stack', base, Step(s, Close).value)
    ensures forall i :: 0 <= i < |stack| - 2 ==> stack[i].Repr == old(stack[i].Repr)
    ensures stack[|stack| - 2].Repr == old(stack[|stack| - 2].Repr + stack[|stack| - 1].Repr)
  {
    hide NginxConfig.Represents, Step, Level, SetBlock;
    LevelClosed(base, s);
    ghost var n := |stack| - 1;
    stack[n - 1].CloseBlock(Level(base, s, n - 1), stack[n], Level(base, s, n));
    stack' := stack[..|stack| - 1];
  }

  lemma RootAlone(stack: seq<NginxConfig>, base: Config, s: State)
    requires Spine(stack, base, s) && s.below == []
    ensures stack[0].Represents(base + s.top, false)
  {}

  lemma SameSpine(stack: seq<NginxConfig>, base: Config, s: State)
    requires Reachable(s) && Spine(stack, base, s)
    ensures Spine(stack, base, s.(last := TokenStatementEnd))
  {
    forall i | 0 <= i <= |s.below|
      ensures Level(base, s.(last := TokenStatementEnd), i) == Level(base, s, i)
    {}
  }

  /** Every object of the stack's blocks is in `all`. */
  ghost predicate Within(stack: seq<NginxConfig>, all: set<object>)
    reads set i | 0 <= i < |stack| :: stack[i]
  {
    forall i :: 0 <= i < |stack| ==> stack[i].Repr <= all
  }

  /**
   The branches of `Parse` for tokens other than the end of the file. A closing brace at
   the root is refused.
   */
  method TakeToken(
    stack: seq<NginxConfig>, tokenType: TokenType, token: string, lastTokenType: TokenType,
    ghost base: Config, ghost s: State, ghost all: set<object>)
    returns (ok: bool, stack': seq<NginxConfig>, ghost all': set<object>)
    requires IsToken(tokenType) && Reachable(s) && s.last == lastTokenType
    requires Spine(stack, base, s) && Within(stack, all)
    modifies all
    ensures ok <==> Step(s, TokenOf(tokenType, token)).Some?
    ensures ok ==> Spine(stack', base, Step(s, TokenOf(tokenType, token)).value)
    ensures ok ==> Step(s, TokenOf(tokenType, token)).value.last == tokenType
    ensures ok ==> stack' != [] && stack'[0] == stack[0] && Within(stack', all')
    ensures all <= all' && fresh(all' - all)
  {
    hide NginxConfig.Represents, Spine;
    stack', all' := stack, all;
    if tokenType == TokenNormal {
      PushWord(stack, token, lastTokenType, base, s);
      all' := all + Last(stack).Repr;
    } else if tokenType == TokenStatementEnd {
      if lastTokenType != TokenNormal {
        return false, stack, all;
      }
      SameSpine(stack, base, s);
    } else if tokenType == TokenStartBlock {
      if lastTokenType != TokenNormal {
        return false, stack, all;
      }
      stack' := PushBlock(stack, base, s);
      all' := all + Last(stack').Repr;
    } else {
      if lastTokenType != TokenStatementEnd && lastTokenType != TokenStartBlock && lastTokenType != TokenEndBlock {
        return false, stack, all;
      }
      if |stack| == 1 {
        return false, stack, all;
      }
      stack' := PopBlock(stack, base, s);
    }
    ok := true;
  }

  /** What `Parse` knows before each token that is not past the end of the file. */
  ghost predicate Going(
    stack: seq<NginxConfig>, config: NginxConfig, base: Config, s: State, last: TokenType, rest: string, text: string)
    reads set i | 0 <= i < |stack| :: stack[i]
    reads set i, o | 0 <= i < |stack| && o in stack[i].Repr :: o
  {
    && Reachable(s) && s.last == last && Finish(s, rest) == ParseText(text)
    && Spine(stack, base, s) && stack != [] && stack[0] == config
  }

  /** At the end of the file only the root may be open, and the last statement must be complete. */
  lemma FileEnds(
    stack: seq<NginxConfig>, config: NginxConfig, base: Config, s: State, last: TokenType, rest: string, text: string)
    requires Going(stack, config, base, s, last, rest, text)
    requires Lex(rest, InitialWhitespace, "").kind == TokenEof
    ensures var ok := |stack| == 1 && (last == TokenStatementEnd || last == TokenEndBlock || last == TokenStart);
            if ok then ParseText(text).Some? && config.Represents(base + ParseText(text).value, false)
            else ParseText(text) == None
  {
    FinishOther(s, rest, Lex(rest, InitialWhitespace, ""));
    hide NginxConfig.Represents, Lex, Finish, ParseText;
    if |stack| == 1 {
      RootAlone(stack, base, s);
    }
  }

  lemma CommentSkipped(
    stack: seq<NginxConfig>, config: NginxConfig, base: Config, s: State, last: TokenType, rest: string, text: string)
    requires Going(stack, config, base, s, last, rest, text)
    ensures var t := Lex(rest, InitialWhitespace, "");
            && (t.kind == TokenComment ==> Going(stack, config, base, s, last, t.rest, text))
            && (t.kind == TokenError ==> ParseText(text) == None)
  {
    var t := Lex(rest, InitialWhitespace, "");
    hide Lex, Finish, ParseText, Spine;
    if t.kind == TokenComment || t.kind == TokenError {
      FinishOther(s, rest, t);
    }
  }

  /** One token other than the end of the file. */
  method TakeNext(
    stack: seq<NginxConfig>, tokenType: TokenType, token: string, lastTokenType: TokenType,
    ghost config: NginxConfig, ghost base: Config, ghost s: State, ghost all: set<object>,
    ghost rest: string, ghost text: string)
    returns (ok: bool, stack': seq<NginxConfig>, ghost s': State, ghost all': set<object>)
    requires IsToken(tokenType) && Going(stack, config, base, s, lastTokenType, rest, text) && Within(stack, all)
    requires Lex(rest, InitialWhitespace, "").kind == tokenType
    requires Lex(rest, InitialWhitespace, "").value == token
    modifies all
    ensures !ok ==> ParseText(text) == None
    ensures ok ==> Going(stack', config, base, s', tokenType, Lex(rest, InitialWhitespace, "").rest, text)
    ensures ok ==> Within(stack', all')
    ensures all <= all' && fresh(all' - all)
  {
    hide Lex, Finish, ParseText, Spine, Within, Step, TokenOf, NginxConfig.Represents;
    FinishToken(s, rest, Lex(rest, InitialWhitespace, ""));
    ok, stack', all' := TakeToken(stack, tokenType, token, lastTokenType, base, s, all);
    s' := s;
    if ok {
      s' := Step(s, TokenOf(tokenType, token)).value;
    }
  }

  /** `Parse`. */
  method Parse(input: InputStream, config: NginxConfig, ghost base: Config) returns (ok: bool)
    requires input.Valid() && input !in config.Repr && config.Represents(base, false)
    modifies input, config.Repr
    ensures ok <==> ParseText(old(input.Rest())).Some?
    ensures ok ==> config.Represents(base + ParseText(old(input.Rest())).value, false)
  {
    var stack := [config];
    var lastTokenType := TokenStart;
    ghost var s := START;
    ghost var all := config.Repr;
    ghost var text := input.Rest();
    assert base + [] == base && Going(stack, config, base, s, lastTokenType, text, text);
    hide Lex, Finish, ParseText, Going, NginxConfig.Represents, Step, TokenOf;
    while true
      invariant input.Valid() && stack != []
      invariant lastTokenType == TokenEof ==> input.Rest() == "" && ParseText(text) == None
      invariant lastTokenType != TokenEof ==>
                  Going(stack, config, base, s, lastTokenType, input.Rest(), text) && Within(stack, all)
      invariant input !in all && fresh(all - old(config.Repr))
      decreases |input.Rest()|, lastTokenType != TokenEof
    {
      ghost var rest := input.Rest();
      var tokenType, token := ParseToken(input, "");
      if lastTokenType != TokenEof {
        CommentSkipped(stack, config, base, s, lastTokenType, rest, text);
      }
      if tokenType == TokenError {
        return false;
      }
      if tokenType == TokenComment {
        continue;
      }
      if tokenType == TokenEof {
        if lastTokenType != TokenEof {
          FileEnds(stack, config, base, s, lastTokenType, rest, text);
        }
        if lastTokenType != TokenStatementEnd && lastTokenType != TokenEndBlock && lastTokenType != TokenStart {
          return false;
        }
        stack := stack[..|stack| - 1];
        if stack == [] {
          return true;
        }
      } else {
        if lastTokenType == TokenEof {
          return false;
        }
        ok, stack, s, all := TakeNext(stack, tokenType, token, lastTokenType, config, base, s, all, rest, text);
        if !ok {
          return false;
        }
      }
      lastTokenType := tokenType;
    }
  }
}
