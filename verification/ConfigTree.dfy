/** The parsed configuration as the heap objects the parser builds and the printer walks. */
module ConfigTree {
  import opened ConfigGrammar
  import opened ConfigText

  /** The loops that indent a line. */
  method AppendTabs(text: string, depth: nat) returns (out: string)
    ensures out == text + Tabs(depth)
  {
    out := text;
    for i := 0 to depth
      invariant out == text + Tabs(i)
    {
      out := out + "\t";
    }
  }

  lemma JoinStep(tokens: seq<string>, i: nat)
    requires i < |tokens|
    ensures Join(tokens[..i + 1]) == if i == 0 then tokens[0] else Join(tokens[..i]) + " " + tokens[i]
  {
    assert Front(tokens[..i + 1]) == tokens[..i];
  }

  lemma NoWords()
    ensures Join([]) == ""
  {
  }

  /** The loop that writes the words of a statement. */
  method AppendWords(text: string, tokens: seq<string>) returns (out: string)
    ensures out == text + Join(tokens)
  {
    hide Join;
    NoWords();
    out := text;
    for i := 0 to |tokens|
      invariant out == text + Join(tokens[..i])
    {
      JoinStep(tokens, i);
      if i != 0 {
        out := out + " ";
      }
      out := out + tokens[i];
    }
    assert tokens[..|tokens|] == tokens;
  }

  lemma BlockText(head: string, block: string, tabs: string)
    ensures head + " {\n" + block + tabs + "}" + "\n" == head + (" {\n" + block + tabs + "}") + "\n"
  {
  }

  class NginxConfigStatement {
    var tokens: seq<string>
    var childBlock: NginxConfig?

    constructor ()
      ensures tokens == [] && childBlock == null
    {
      tokens, childBlock := [], null;
    }

    /** `ToString`. */
    method ToString(depth: nat, ghost stmt: Stmt) returns (text: string)
      requires tokens == stmt.words
      requires if stmt.Simple? then childBlock == null
               else childBlock != null && childBlock.Represents(stmt.block, false)
      ensures text == StmtText(stmt, depth)
      decreases stmt, 1
    {
      hide NginxConfig.Represents, Tabs, Join, Text;
      text := AppendTabs("", depth);
      text := AppendWords(text, tokens);
      if childBlock != null {
        text := text + " {\n";
        var block := childBlock.ToString(depth + 1, stmt.block);
        text := text + block;
        text := AppendTabs(text, depth);
        text := text + "}";
      } else {
        if |tokens| > 0 {
          text := text + ";";
        }
      }
      text := text + "\n";
      assert text == StmtText(stmt, depth) by {
        if stmt.Block? {
          BlockText(Tabs(depth) + Join(stmt.words), Text(stmt.block, depth + 1), Tabs(depth));
        }
      }
    }
  }

  class NginxConfig {
    var statements: seq<NginxConfigStatement>
    /** The objects of this block: itself, its statements and their closed blocks. */
    ghost var Repr: set<object>

    /** A statement's block, when it has one that is closed. */
    ghost predicate ClosedBlock(s: NginxConfigStatement, stmt: Stmt)
      requires this in Repr && s in Repr
      reads this, Repr
      decreases Repr, 0
    {
      if stmt.Simple? then s.childBlock == null
      else
        && s.childBlock != null && s.childBlock in Repr
        && s.childBlock.Repr <= Repr - {this}
        && s.childBlock.Represents(stmt.block, false)
    }

    /**
     The block stands for `c`. When `open`, the block of its last statement is being read
     and does not belong to it yet. Nothing is shared: no two statements are the same
     object, and closed blocks have no object in common with one another or with the
     statements.
     */
    ghost predicate Represents(c: Config, open: bool): (r: bool)
      reads this, Repr
      ensures r ==> this in Repr && |statements| == |c| && (open ==> statements != [])
      ensures r ==> forall i :: 0 <= i < |statements| ==> statements[i] in Repr
      decreases Repr, 1
    {
      && this in Repr
      && |statements| == |c|
      && (open ==> c != [] && Last(c).Simple?)
      && (forall i :: 0 <= i < |c| ==> statements[i] in Repr && statements[i].tokens == c[i].words)
      && (forall i, j :: 0 <= i < j < |c| ==> statements[i] != statements[j])
      && (forall i :: 0 <= i < |c| && !(open && i == |c| - 1) ==> ClosedBlock(statements[i], c[i]))
      && (forall i :: 0 <= i < |c| && c[i].Block? ==> Unshared(c, i))
    }

    /** The block of statement `i` has no object in common with the rest of this one. */
    ghost predicate Unshared(c: Config, i: nat)
      requires this in Repr && |statements| == |c| && i < |c| && c[i].Block?
      requires forall j :: 0 <= j < |c| ==> statements[j] in Repr
      requires forall j :: 0 <= j < |c| && c[j].Block? ==>
                 statements[j].childBlock != null && statements[j].childBlock in Repr
      reads this, Repr
    {
      var block := statements[i].childBlock.Repr;
      && (forall j :: 0 <= j < |c| ==> statements[j] !in block)
      && (forall j :: 0 <= j < |c| && j != i && c[j].Block? ==> statements[j].childBlock.Repr !! block)
    }

    constructor ()
      ensures Represents([], false) && Repr == {this}
    {
      statements := [];
      Repr := {this};
    }

    /** `ToString`. */
    method ToString(depth: nat, ghost c: Config) returns (text: string)
      requires Represents(c, false)
      ensures text == Text(c, depth)
      decreases c, 0
    {
      text := "";
      for i := 0 to |statements|
        invariant text == Text(c[..i], depth)
      {
        assert ClosedBlock(statements[i], c[i]);
        var s := statements[i].ToString(depth, c[i]);
        text := text + s;
        assert Front(c[..i + 1]) == c[..i] && Last(c[..i + 1]) == c[i];
      }
      assert c[..|c|] == c;
    }

    /** `statements_.emplace_back(new NginxConfigStatement)`. */
    method AddStatement(ghost c: Config)
      requires Represents(c, false)
      modifies this
      ensures Represents(c + [Simple([])], false)
      ensures fresh(Repr - old(Repr)) && old(Repr) <= Repr
    {
      var s := new NginxConfigStatement();
      statements := statements + [s];
      Repr := Repr + {s};
      ghost var d := c + [Simple([])];
      forall i | 0 <= i < |c| ensures ClosedBlock(statements[i], d[i]) {
        assert old(ClosedBlock(statements[i], c[i]));
      }
      forall i | 0 <= i < |c| && c[i].Block? ensures Unshared(d, i) {
        assert old(Unshared(c, i));
      }
    }

    /** `statements_.back()->tokens_.push_back(token)`. */
    method AddToken(token: string, ghost c: Config)
      requires Represents(c, false) && c != [] && Last(c).Simple?
      modifies statements[|statements| - 1]
      ensures Represents(AddWord(c, token), false)
    {
      var s := statements[|statements| - 1];
      s.tokens := s.tokens + [token];
    }

    /** `statements_.back()->child_block_.reset(new NginxConfig)`. */
    method OpenBlock(ghost c: Config) returns (block: NginxConfig)
      requires Represents(c, false) && c != [] && Last(c).Simple?
      modifies statements[|statements| - 1]
      ensures Represents(c, true) && Last(statements).childBlock == block
      ensures fresh(block) && block.Repr == {block} && block.Represents([], false)
    {
      block := new NginxConfig();
      statements[|statements| - 1].childBlock := block;
    }

    /** The block that was open is complete and becomes part of this one. */
    ghost method CloseBlock(c: Config, block: NginxConfig, b: Config)
      requires Represents(c, true) && Last(statements).childBlock == block
      requires block.Represents(b, false) && Repr !! block.Repr
      modifies this`Repr
      ensures Repr == old(Repr) + block.Repr
      ensures Represents(SetBlock(c, b), false)
    {
      Repr := Repr + block.Repr;
      forall i | 0 <= i < |c| && c[i].Block? ensures Unshared(c, i) {
        assert old(Unshared(c, i));
      }
      forall i | 0 <= i < |c| - 1 ensures ClosedBlock(statements[i], c[i]) {
        assert old(ClosedBlock(statements[i], c[i]));
      }
      Complete(c, block, b);
    }

    lemma Complete(c: Config, block: NginxConfig, b: Config)
      requires Represents(c, true) && Last(statements).childBlock == block
      requires block.Represents(b, false) && block in Repr && block.Repr <= Repr - {this}
      requires forall i :: 0 <= i < |c| ==> statements[i] !in block.Repr
      requires forall i :: 0 <= i < |c| && c[i].Block? ==>
                 statements[i].childBlock != null && statements[i].childBlock.Repr !! block.Repr
      ensures Represents(SetBlock(c, b), false)
    {
      var d, n := SetBlock(c, b), |c| - 1;
      assert forall i :: 0 <= i < n ==> d[i] == c[i];
      assert d[n] == Block(c[n].words, b);
      forall i | 0 <= i < n && d[i].Block? ensures Unshared(d, i) {
        assert Unshared(c, i);
      }
      forall i | 0 <= i < n ensures ClosedBlock(statements[i], d[i]) {}
    }
  }
}
