/** `picojson::input`: a cursor that reads one character ahead and can take it back. */
module JsonInput {
  import opened JsonParse

  function Newlines(s: string): nat {
    if s == "" then 0 else Newlines(s[..|s| - 1]) + if s[|s| - 1] == '\n' then 1 else 0
  }

  /** Lines are counted by their newlines. */
  lemma {:induction false} NewlinesAreCounted(s: string)
    ensures Newlines(s) == multiset(s)['\n']
  {
    if s == "" {
    } else {
      var front := s[..|s| - 1];
      NewlinesAreCounted(front);
      assert s == front + [s[|s| - 1]];
    }
  }

  class Input {
    const text: string
    var cur: nat
    var consumed: bool
    var line: int

    ghost predicate Valid()
      reads this
    {
      && cur + (if consumed then 1 else 0) <= |text|
      && line == 1 + Newlines(text[..cur])
    }

    /** The plain position the two fields stand for. */
    ghost function Position(): nat
      reads this
    {
      cur + if consumed then 1 else 0
    }

    /** The characters that have not been read. */
    ghost function Rest(): string
      requires Valid()
      reads this
    {
      text[Position()..]
    }

    constructor (s: string)
      ensures Valid() && text == s && Position() == 0 && Rest() == s
    {
      text := s;
      cur, consumed, line := 0, false, 1;
    }

    /** Reads a character; -1 at the end. The character before the cursor is `cur`. */
    method Getc() returns (ch: int)
      requires Valid()
      modifies this
      ensures Valid() && cur == old(Position())
      ensures old(Rest()) == "" ==> ch == -1 && !consumed && Rest() == ""
      ensures old(Rest()) != "" ==>
                ch == old(Rest())[0] as int && consumed && Rest() == old(Rest())[1..]
    {
      if consumed {
        assert text[..cur + 1][..cur] == text[..cur];
        if text[cur] == '\n' {
          line := line + 1;
        }
        cur := cur + 1;
      }
      if cur == |text| {
        consumed := false;
        return -1;
      }
      consumed := true;
      ch := text[cur] as int;
    }

    /** Takes back the last character read: the position is where it was before `Getc`. */
    method Ungetc()
      requires Valid()
      modifies this`consumed
      ensures Valid() && !consumed && Position() == cur
    {
      consumed := false;
    }

    /**
     `cur()`: settles the look-ahead without moving the position. It does not count the
     newline it may step over, which is the one way `line` can fall behind.
     */
    method Cur() returns (position: nat)
      requires Valid()
      modifies this
      ensures !consumed && position == cur == Position() == old(Position())
      ensures Valid() <==> !(old(consumed) && text[old(cur)] == '\n')
    {
      if consumed {
        assert text[..cur + 1][..cur] == text[..cur];
        consumed := false;
        cur := cur + 1;
      }
      position := cur;
    }

    method SkipWs()
      requires Valid()
      modifies this
      ensures Valid() && !consumed && Rest() == SkipSpace(old(Rest()))
    {
      while true
        invariant Valid()
        invariant SkipSpace(Rest()) == SkipSpace(old(Rest()))
        decreases |Rest()|
      {
        ghost var before := Rest();
        var ch := Getc();
        if !(ch == ' ' as int || ch == '\t' as int || ch == '\n' as int || ch == '\r' as int) {
          Ungetc();
          assert Rest() == before;
          break;
        }
      }
    }

    method ExpectChar(expected: char) returns (ok: bool)
      requires Valid()
      modifies this
      ensures Valid() && (ok, Rest()) == Expect(old(Rest()), expected)
    {
      SkipWs();
      ghost var before := Rest();
      var ch := Getc();
      if ch != expected as int {
        Ungetc();
        assert Rest() == before;
        return false;
      }
      return true;
    }

    method MatchText(pattern: string) returns (ok: bool)
      requires Valid()
      modifies this
      ensures Valid() && (ok, Rest()) == Match(old(Rest()), pattern)
    {
      for i := 0 to |pattern|
        invariant Valid()
        invariant Match(Rest(), pattern[i..]) == Match(old(Rest()), pattern)
      {
        ghost var before := Rest();
        var ch := Getc();
        if ch != pattern[i] as int {
          Ungetc();
          assert Rest() == before;
          return false;
        }
        assert pattern[i..][1..] == pattern[i + 1..];
      }
      return true;
    }
  }
}
