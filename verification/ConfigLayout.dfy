/** What a printed configuration looks like, line by line. */
module ConfigLayout {
  import opened ConfigGrammar
  import opened ConfigText

  function Indent(depth: nat): string {
    if depth == 0 then "" else "\t" + Indent(depth - 1)
  }

  function Spaced(words: seq<string>): string {
    if words == [] then "" else words[0] + if |words| == 1 then "" else " " + Spaced(words[1..])
  }

  /** One line for a simple statement; a block's lines stand between its two braces, one tab deeper. */
  function StmtLines(s: Stmt, depth: nat): seq<string>
    decreases s, 1
  {
    var line := Indent(depth) + Spaced(s.words);
    match s
    case Simple(words) => [line + if words == [] then "" else ";"]
    case Block(_, block) => [line + " {"] + Lines(block, depth + 1) + [Indent(depth) + "}"]
  }

  function Lines(c: Config, depth: nat): seq<string>
    decreases c, 0
  {
    if c == [] then [] else StmtLines(c[0], depth) + Lines(c[1..], depth)
  }

  function Ended(lines: seq<string>): string {
    if lines == [] then "" else lines[0] + "\n" + Ended(lines[1..])
  }

  lemma {:induction false} TabsAre(depth: nat)
    ensures Tabs(depth) == Indent(depth) && Indent(depth) + "\t" == "\t" + Indent(depth)
  {
    if depth == 0 {
    } else {
      TabsAre(depth - 1);
      assert Indent(depth) + "\t" == "\t" + (Indent(depth - 1) + "\t");
    }
  }

  lemma {:induction false} SpacedLast(ws: seq<string>, w: string)
    requires ws != []
    ensures Spaced(ws + [w]) == Spaced(ws) + " " + w
  {
    assert (ws + [w])[0] == ws[0] && (ws + [w])[1..] == ws[1..] + [w];
    if |ws| == 1 {
      assert ws[1..] + [w] == [w];
    } else {
      SpacedLast(ws[1..], w);
    }
  }

  lemma {:induction false} JoinIsSpaced(ws: seq<string>)
    ensures Join(ws) == Spaced(ws)
  {
    if |ws| <= 1 {
    } else {
      JoinIsSpaced(Front(ws));
      SpacedLast(Front(ws), Last(ws));
      assert Front(ws) + [Last(ws)] == ws;
    }
  }

  lemma {:induction false} EndedConcat(a: seq<string>, b: seq<string>)
    ensures Ended(a + b) == Ended(a) + Ended(b)
  {
    if a == [] {
      assert a + b == b;
    } else {
      assert (a + b)[1..] == a[1..] + b;
      EndedConcat(a[1..], b);
    }
  }

  lemma EndedOne(line: string)
    ensures Ended([line]) == line + "\n"
  {
    assert [line][1..] == [];
  }

  lemma {:induction false} LinesConcat(a: Config, b: Config, depth: nat)
    ensures Lines(a + b, depth) == Lines(a, depth) + Lines(b, depth)
    decreases |a|
  {
    hide StmtLines;
    if a == [] {
      assert a + b == b;
    } else {
      assert (a + b)[1..] == a[1..] + b;
      LinesConcat(a[1..], b, depth);
    }
  }

  lemma LinesOne(s: Stmt, depth: nat)
    ensures Lines([s], depth) == StmtLines(s, depth)
  {
    assert [s][1..] == [];
    hide StmtLines;
  }

  lemma {:induction false} StmtIsLines(s: Stmt, depth: nat)
    ensures StmtText(s, depth) == Ended(StmtLines(s, depth))
    decreases s, 1
  {
    TabsAre(depth);
    JoinIsSpaced(s.words);
    var line := Indent(depth) + Spaced(s.words);
    hide Tabs, Indent, Join, Spaced, Text, Lines, Ended;
    if s.Simple? {
      EndedOne(line + if s.words == [] then "" else ";");
    } else {
      TextIsLines(s.block, depth + 1);
      var open, close := [line + " {"], [Indent(depth) + "}"];
      EndedConcat(open + Lines(s.block, depth + 1), close);
      EndedConcat(open, Lines(s.block, depth + 1));
      EndedOne(line + " {");
      EndedOne(Indent(depth) + "}");
    }
  }

  lemma NoLines()
    ensures Ended([]) == ""
  {
  }

  /** The printed text is those lines, each with a newline at its end. */
  lemma {:induction false} TextIsLines(c: Config, depth: nat)
    ensures Text(c, depth) == Ended(Lines(c, depth))
    decreases c, 0
  {
    hide StmtText, StmtLines, Ended;
    if c == [] {
      NoLines();
    } else {
      var front, s := Front(c), Last(c);
      TextIsLines(front, depth);
      StmtIsLines(s, depth);
      LinesConcat(front, [s], depth);
      LinesOne(s, depth);
      assert front + [s] == c;
      EndedConcat(Lines(front, depth), StmtLines(s, depth));
    }
  }
}
