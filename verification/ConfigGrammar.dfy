/** The grammar of configurations, and the token automaton that recognises it. */
module ConfigGrammar {
  import opened Basics
  import opened ConfigLexer

  /** A statement's words, and its block when it has one. */
  datatype Stmt = Simple(words: seq<string>) | Block(words: seq<string>, block: seq<Stmt>)

  type Config = seq<Stmt>

  // ----- config ::= (Word+ (';' | '{' config '}'))* -----

  predicate WellFormed(c: Config) {
    forall i :: 0 <= i < |c| ==> c[i].words != [] && (c[i].Block? ==> WellFormed(c[i].block))
  }

  function Words(ws: seq<string>): seq<Token> {
    if ws == [] then [] else Words(ws[..|ws| - 1]) + [Word(ws[|ws| - 1])]
  }

  function StmtYield(s: Stmt): seq<Token>
    decreases s, 1
  {
    Words(s.words) + (if s.Simple? then [Semicolon] else [Open] + Yield(s.block) + [Close])
  }

  /** The tokens a configuration derives. */
  function Yield(c: Config): seq<Token>
    decreases c, 0
  {
    if c == [] then [] else Yield(c[..|c| - 1]) + StmtYield(c[|c| - 1])
  }

  // ----- The automaton -----

  /**
   The stack of open blocks, as the statements read so far in each; the last statement of
   every block below the top is the one whose block is open.
   */
  datatype State = State(below: seq<Config>, top: Config, last: TokenType)

  function Last<T>(s: seq<T>): T
    requires s != []
  {
    s[|s| - 1]
  }

  function Front<T>(s: seq<T>): seq<T>
    requires s != []
  {
    s[..|s| - 1]
  }

  function AddWord(c: Config, w: string): Config
    requires c != []
  {
    Front(c) + [Last(c).(words := Last(c).words + [w])]
  }

  function SetBlock(c: Config, block: Config): Config
    requires c != []
  {
    Front(c) + [Block(Last(c).words, block)]
  }

  /** Reachable states: a block is open, or a word just read, only in a statement with words. */
  predicate Reachable(s: State) {
    && (s.last == TokenNormal ==> s.top != [] && Last(s.top).Simple?)
    && s.last in {TokenStart, TokenNormal, TokenStartBlock, TokenEndBlock, TokenStatementEnd}
    && forall i :: 0 <= i < |s.below| ==> s.below[i] != [] && Last(s.below[i]).Simple?
  }

  /** One turn of the loop of `Parse`; `None` is an error. Closing the root is one. */
  function Step(s: State, t: Token): (r: Option<State>)
    requires Reachable(s)
    ensures r.Some? ==> Reachable(r.value)
  {
    match t
    case Word(w) =>
      var top := if s.last == TokenNormal then s.top else s.top + [Simple([])];
      Some(s.(top := AddWord(top, w), last := TokenNormal))
    case Semicolon =>
      if s.last != TokenNormal then None else Some(s.(last := TokenStatementEnd))
    case Open =>
      if s.last != TokenNormal then None
      else Some(State(s.below + [s.top], [], TokenStartBlock))
    case Close =>
      if s.last == TokenStart || s.last == TokenNormal || s.below == [] then None
      else Some(State(Front(s.below), SetBlock(Last(s.below), s.top), TokenEndBlock))
  }

  function Run(s: State, ts: seq<Token>): (r: Option<State>)
    requires Reachable(s)
    ensures r.Some? ==> Reachable(r.value)
    decreases |ts|
  {
    if ts == [] then Some(s)
    else
      match Step(s, ts[0])
      case None => None
      case Some(s') => Run(s', ts[1..])
  }

  predicate Accepting(s: State) {
    s.below == [] && (s.last == TokenStatementEnd || s.last == TokenEndBlock || s.last == TokenStart)
  }

  const START: State := State([], [], TokenStart)

  /** The configuration the automaton builds from a token stream, when it accepts. */
  function Parse(ts: seq<Token>): Option<Config> {
    match Run(START, ts)
    case None => None
    case Some(s) => if Accepting(s) then Some(s.top) else None
  }

  // ----- Soundness: a state accounts for exactly the tokens read -----

  /** A block whose last statement has its words but not its end. */
  function OpenYield(c: Config): seq<Token>
    requires c != []
  {
    Yield(Front(c)) + Words(Last(c).words)
  }

  function BelowYield(below: seq<Config>): seq<Token>
    requires forall i :: 0 <= i < |below| ==> below[i] != []
  {
    if below == [] then [] else BelowYield(Front(below)) + OpenYield(Last(below)) + [Open]
  }

  function Consumed(s: State): seq<Token>
    requires Reachable(s)
  {
    BelowYield(s.below) + if s.last == TokenNormal then OpenYield(s.top) else Yield(s.top)
  }

  /** What has been built is well formed, up to the statements whose end is missing. */
  predicate OpenWellFormed(c: Config) {
    c != [] && WellFormed(Front(c)) && Last(c).words != [] && Last(c).Simple?
  }

  predicate StateWellFormed(s: State) {
    && (forall i :: 0 <= i < |s.below| ==> OpenWellFormed(s.below[i]))
    && if s.last == TokenNormal then OpenWellFormed(s.top) else WellFormed(s.top)
  }

  lemma WordsAppend(ws: seq<string>, w: string)
    ensures Words(ws + [w]) == Words(ws) + [Word(w)]
  {
    assert Front(ws + [w]) == ws;
  }

  lemma YieldAppend(c: Config, s: Stmt)
    ensures Yield(c + [s]) == Yield(c) + StmtYield(s)
  {
    assert Front(c + [s]) == c;
  }

  lemma WellFormedAppend(c: Config, s: Stmt)
    requires WellFormed(c) && s.words != [] && (s.Block? ==> WellFormed(s.block))
    ensures WellFormed(c + [s])
  {}

  lemma WordSound(s: State, w: string)
    requires Reachable(s) && StateWellFormed(s)
    ensures var s' := Step(s, Word(w)).value;
            StateWellFormed(s') && Consumed(s') == Consumed(s) + [Word(w)]
  {
    var s' := Step(s, Word(w)).value;
    var top := if s.last == TokenNormal then s.top else s.top + [Simple([])];
    assert Front(s'.top) == Front(top) && Last(s'.top) == Simple(Last(top).words + [w]);
    WordsAppend(Last(top).words, w);
  }

  lemma CloseWellFormed(s: State)
    requires Reachable(s) && StateWellFormed(s) && Step(s, Close).Some?
    ensures StateWellFormed(Step(s, Close).value)
  {
    var c := Last(s.below);
    hide WellFormed;
    assert OpenWellFormed(c) && WellFormed(s.top);
    WellFormedAppend(Front(c), Block(Last(c).words, s.top));
  }

  /** The tokens of a statement whose block is closed are those it had and a closing brace. */
  lemma SetBlockYield(c: Config, block: Config)
    requires c != []
    ensures Yield(SetBlock(c, block)) == OpenYield(c) + [Open] + Yield(block) + [Close]
  {
    var stmt := Block(Last(c).words, block);
    YieldAppend(Front(c), stmt);
    assert StmtYield(stmt) == Words(stmt.words) + ([Open] + Yield(block) + [Close]);
    hide Yield, Words;
  }

  lemma CloseYield(s: State)
    requires Reachable(s) && Step(s, Close).Some?
    ensures Consumed(Step(s, Close).value) == Consumed(s) + [Close]
  {
    var below := BelowYield(Front(s.below));
    SetBlockYield(Last(s.below), s.top);
    hide Yield, OpenYield, SetBlock;
    assert Consumed(s) == below + OpenYield(Last(s.below)) + [Open] + Yield(s.top);
    assert Consumed(Step(s, Close).value) == below + Yield(SetBlock(Last(s.below), s.top));
    hide *;
  }

  lemma CloseSound(s: State)
    requires Reachable(s) && StateWellFormed(s) && Step(s, Close).Some?
    ensures var s' := Step(s, Close).value;
            StateWellFormed(s') && Consumed(s') == Consumed(s) + [Close]
  {
    CloseWellFormed(s);
    CloseYield(s);
  }

  lemma StepSound(s: State, t: Token)
    requires Reachable(s) && StateWellFormed(s) && Step(s, t).Some?
    ensures StateWellFormed(Step(s, t).value)
    ensures Consumed(Step(s, t).value) == Consumed(s) + [t]
  {
    var s' := Step(s, t).value;
    match t {
      case Word(w) =>
        WordSound(s, w);
      case Semicolon =>
        var c := s.top;
        assert c == Front(c) + [Last(c)];
        YieldAppend(Front(c), Last(c));
        WellFormedAppend(Front(c), Last(c));
      case Open =>
        assert Front(s'.below) == s.below && Last(s'.below) == s.top;
      case Close =>
        CloseSound(s);
    }
  }

  lemma {:induction false} RunSound(s: State, ts: seq<Token>)
    requires Reachable(s) && StateWellFormed(s) && Run(s, ts).Some?
    ensures StateWellFormed(Run(s, ts).value)
    ensures Consumed(Run(s, ts).value) == Consumed(s) + ts
    decreases |ts|
  {
    hide Consumed, StateWellFormed, Step;
    if ts == [] {
    } else {
      StepSound(s, ts[0]);
      RunSound(Step(s, ts[0]).value, ts[1..]);
      assert ts == [ts[0]] + ts[1..];
    }
  }

  // ----- Completeness: the automaton reads back any derivation -----

  lemma {:induction false} RunAppend(s: State, a: seq<Token>, b: seq<Token>)
    requires Reachable(s)
    ensures Run(s, a + b) == if Run(s, a).None? then None else Run(Run(s, a).value, b)
    decreases |a|
  {
    if a == [] {
      assert a + b == b;
    } else {
      assert (a + b)[1..] == a[1..] + b;
      if Step(s, a[0]).Some? {
        RunAppend(Step(s, a[0]).value, a[1..], b);
      }
    }
  }

  /** Where a statement may start. */
  predicate AtStatement(s: State) {
    Reachable(s) && s.last != TokenNormal
  }

  lemma AddWordLast(c: Config, ws: seq<string>, w: string)
    ensures AddWord(c + [Simple(ws)], w) == c + [Simple(ws + [w])]
  {
    assert Front(c + [Simple(ws)]) == c;
  }

  lemma RunOne(s: State, t: Token)
    requires Reachable(s)
    ensures Run(s, [t]) == Step(s, t)
  {
    assert [t][1..] == [];
  }

  lemma {:induction false} WordsComplete(s: State, ws: seq<string>)
    requires AtStatement(s) && ws != []
    ensures Run(s, Words(ws)) == Some(State(s.below, s.top + [Simple(ws)], TokenNormal))
  {
    var w := Last(ws);
    var front := Front(ws);
    if front == [] {
      assert Words(ws) == [Word(w)];
      assert ws == front + [w];
      RunOne(s, Word(w));
      AddWordLast(s.top, front, w);
    } else {
      WordsComplete(s, front);
      RunAppend(s, Words(front), [Word(w)]);
      assert ws == front + [w];
      var s' := State(s.below, s.top + [Simple(front)], TokenNormal);
      AddWordLast(s.top, front, w);
      RunOne(s', Word(w));
    }
  }

  /** The type of the last token of a configuration, after one of type `before`. */
  function LastType(c: Config, before: TokenType): TokenType {
    if c == [] then before else if Last(c).Block? then TokenEndBlock else TokenStatementEnd
  }

  lemma {:induction false} StmtComplete(s: State, stmt: Stmt)
    requires AtStatement(s) && stmt.words != [] && (stmt.Block? ==> WellFormed(stmt.block))
    ensures Run(s, StmtYield(stmt)) == Some(State(s.below, s.top + [stmt], LastType([stmt], s.last)))
    decreases stmt, 1
  {
    var words := Words(stmt.words);
    var s1 := State(s.below, s.top + [Simple(stmt.words)], TokenNormal);
    WordsComplete(s, stmt.words);
    if stmt.Simple? {
      RunAppend(s, words, [Semicolon]);
      RunOne(s1, Semicolon);
    } else {
      var s2 := State(s.below + [s1.top], [], TokenStartBlock);
      var s3 := State(s2.below, [] + stmt.block, LastType(stmt.block, TokenStartBlock));
      YieldComplete(s2, stmt.block);
      RunAppend(s, words, [Open] + Yield(stmt.block) + [Close]);
      RunAppend(s1, [Open] + Yield(stmt.block), [Close]);
      RunAppend(s1, [Open], Yield(stmt.block));
      RunOne(s1, Open);
      RunOne(s3, Close);
      assert Front(s2.below) == s.below && Front(s1.top) == s.top;
      assert [] + stmt.block == stmt.block;
      hide Run, Yield, Words;
    }
  }

  lemma {:induction false} YieldComplete(s: State, c: Config)
    requires AtStatement(s) && WellFormed(c)
    ensures Run(s, Yield(c)) == Some(State(s.below, s.top + c, LastType(c, s.last)))
    decreases c, 0
  {
    if c == [] {
      assert s.top + c == s.top;
    } else {
      var front, stmt := Front(c), Last(c);
      var s1 := State(s.below, s.top + front, LastType(front, s.last));
      YieldComplete(s, front);
      RunAppend(s, Yield(front), StmtYield(stmt));
      StmtComplete(s1, stmt);
      assert s.top + front + [stmt] == s.top + c;
      hide Run, StmtYield;
    }
  }

  /**
   The automaton accepts exactly the token streams that derive from the grammar, and the
   tree it builds is the derivation.
   */
  lemma AutomatonIsGrammar(ts: seq<Token>, c: Config)
    ensures Parse(ts) == Some(c) <==> WellFormed(c) && Yield(c) == ts
  {
    assert Consumed(START) == [] && StateWellFormed(START);
    if Parse(ts) == Some(c) {
      RunSound(START, ts);
      var s := Run(START, ts).value;
      hide Run, Yield;
      assert Consumed(s) == [] + Yield(c);
      assert [] + ts == ts && [] + Yield(c) == Yield(c);
    }
    if WellFormed(c) && Yield(c) == ts {
      YieldComplete(START, c);
      hide Run, Yield;
      assert START.top + c == c;
    }
  }

  /** No two derivations have the same tokens. */
  lemma GrammarUnambiguous(c: Config, d: Config)
    requires WellFormed(c) && WellFormed(d) && Yield(c) == Yield(d)
    ensures c == d
  {
    AutomatonIsGrammar(Yield(c), c);
    AutomatonIsGrammar(Yield(d), d);
  }

  /** The stack is as deep as blocks are open: one more than the opens without a close. */
  function Depth(ts: seq<Token>): int {
    if ts == [] then 0
    else Depth(Front(ts)) + (if Last(ts) == Open then 1 else if Last(ts) == Close then -1 else 0)
  }

  lemma {:induction false} StackDepth(s: State, ts: seq<Token>)
    requires Reachable(s) && Run(s, ts).Some?
    ensures |Run(s, ts).value.below| == |s.below| + Depth(ts)
    decreases |ts|
  {
    if ts == [] {
    } else {
      RunAppend(s, Front(ts), [Last(ts)]);
      assert Front(ts) + [Last(ts)] == ts;
      StackDepth(s, Front(ts));
      RunOne(Run(s, Front(ts)).value, Last(ts));
      hide Run;
    }
  }
}
