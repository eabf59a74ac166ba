/**
 The language of JSON values `_parse` reads, given by derivation trees that keep every
 character of the text, and independent of how the text is read (section 2 of RFC 8259;
 the numbers are those of `strtod`).
 */
module JsonGrammar {
  import opened OrderedMap
  import opened JsonValue
  import opened JsonParse
  import opened JsonStrings
  import opened JsonNumerals
  import opened JsonLaws

  // ----- Values -----

  /** Each part of a tree stands between the white space around it. */
  datatype Tree =
    | Name(value: Value)
    | Number(numeral: Numeral)
    | Literal(es: seq<Element>)
    | Array(gap: string, items: seq<Item>)
    | Object(gap: string, members: seq<Member>)

  datatype Item = Item(before: string, tree: Tree, after: string)

  datatype Member = Member(before: string, key: seq<Element>, colon: string, item: Item)

  predicate AreSpaces(gap: string) {
    forall i :: 0 <= i < |gap| ==> IsSpace(gap[i])
  }

  predicate IsTree(t: Tree) {
    match t
    case Name(value) => value.Null? || value.Bool?
    case Number(numeral) => IsNumeral(numeral) && NumeralValue(numeral).Some?
    case Literal(es) => IsLiteral(es)
    case Array(gap, items) => AreSpaces(gap) && forall i :: 0 <= i < |items| ==> IsItem(items[i])
    case Object(gap, members) => AreSpaces(gap) && forall i :: 0 <= i < |members| ==> IsMember(members[i])
  }

  predicate IsItem(i: Item) {
    AreSpaces(i.before) && IsTree(i.tree) && AreSpaces(i.after)
  }

  predicate IsMember(m: Member) {
    AreSpaces(m.before) && IsLiteral(m.key) && AreSpaces(m.colon) && IsItem(m.item)
  }

  predicate AreItems(items: seq<Item>) {
    forall i :: 0 <= i < |items| ==> IsItem(items[i])
  }

  predicate AreMembers(members: seq<Member>) {
    forall i :: 0 <= i < |members| ==> IsMember(members[i])
  }

  function LiteralText(es: seq<Element>): string {
    "\"" + Spellings(es) + "\""
  }

  /** The text of a tree. The gap of an array or object is that between empty brackets. */
  function TreeText(t: Tree): string
    decreases t, 0
  {
    match t
    case Name(value) => if value.Null? then "null" else if value == Bool(true) then "true" else "false"
    case Number(numeral) => NumeralText(numeral)
    case Literal(es) => LiteralText(es)
    case Array(gap, items) => "[" + (if items == [] then gap else AllItems(items)) + "]"
    case Object(gap, members) => "{" + (if members == [] then gap else AllMembers(members)) + "}"
  }

  function ItemText(i: Item): string
    decreases i, 0
  {
    i.before + TreeText(i.tree) + i.after
  }

  function MemberText(m: Member): string
    decreases m, 0
  {
    m.before + LiteralText(m.key) + m.colon + ":" + ItemText(m.item)
  }

  /** The items with commas between them. */
  function AllItems(items: seq<Item>): string
    decreases items, 0
  {
    if items == [] then ""
    else ItemText(items[0]) + if |items| == 1 then "" else "," + AllItems(items[1..])
  }

  function AllMembers(members: seq<Member>): string
    decreases members, 0
  {
    if members == [] then ""
    else MemberText(members[0]) + if |members| == 1 then "" else "," + AllMembers(members[1..])
  }

  /** The value of a tree; the last of several members with one key counts. */
  ghost function TreeValue(t: Tree): Value
    requires IsTree(t)
    decreases t, 0
  {
    match t
    case Name(value) => value
    case Number(numeral) => NumeralValue(numeral).value
    case Literal(es) => Str(Meanings(es))
    case Array(_, items) => Arr(ItemValues(items))
    case Object(_, members) => Obj(FromMap(MemberValues(members, map[])))
  }

  ghost function ItemValues(items: seq<Item>): seq<Value>
    requires AreItems(items)
    decreases items, 0
  {
    if items == [] then [] else [TreeValue(items[0].tree)] + ItemValues(items[1..])
  }

  ghost function MemberValues(members: seq<Member>, m: map<string, Value>): map<string, Value>
    requires AreMembers(members)
    decreases members, 0
  {
    if members == [] then m
    else
      var member := members[0];
      assert IsMember(member) && IsItem(member.item);
      MemberValues(members[1..], m[Meanings(member.key) := TreeValue(member.item.tree)])
  }

  // ----- White space -----

  lemma {:induction false} SkipsGap(gap: string, s: string)
    requires AreSpaces(gap)
    ensures SkipSpace(gap + s) == SkipSpace(s)
  {
    if gap == "" {
      assert gap + s == s;
    } else {
      assert (gap + s)[1..] == gap[1..] + s;
      SkipsGap(gap[1..], s);
    }
  }

  lemma {:induction false} GapSkipped(s: string) returns (gap: string)
    ensures AreSpaces(gap) && s == gap + SkipSpace(s)
  {
    if s == "" || !IsSpace(s[0]) {
      gap := "";
    } else {
      var tail := GapSkipped(s[1..]);
      gap := [s[0]] + tail;
      assert SkipSpace(s) == SkipSpace(s[1..]);
      hide SkipSpace;
      assert s == [s[0]] + (tail + SkipSpace(s));
    }
  }

  lemma GapExpected(gap: string, c: char, rest: string)
    requires AreSpaces(gap) && !IsSpace(c)
    ensures SkipSpace(gap + [c] + rest) == [c] + rest
    ensures Expect(gap + [c] + rest, c) == (true, rest)
    ensures forall d :: d != c ==> !Expect(gap + [c] + rest, d).0
  {
    SkipsGap(gap, [c] + rest);
    assert gap + [c] + rest == gap + ([c] + rest) && ([c] + rest)[1..] == rest;
  }

  lemma ExpectedGap(s: string, c: char) returns (gap: string)
    requires Expect(s, c).0
    ensures AreSpaces(gap) && s == gap + [c] + Expect(s, c).1
  {
    gap := GapSkipped(s);
    var t := SkipSpace(s);
    assert t == [c] + t[1..];
  }

  lemma GapEndsNumber(gap: string, c: char, rest: string)
    requires AreSpaces(gap) && !IsNumberChar(c)
    ensures EndsNumber(gap + [c] + rest)
  {
  }

  // ----- Every tree is read -----

  lemma TreeStarts(t: Tree)
    requires IsTree(t)
    ensures var text := TreeText(t); text != "" && !IsSpace(text[0]) && text[0] != ']'
  {
    hide AllItems, AllMembers, Spellings, NumeralText, NumeralValue;
    if t.Number? {
      NumeralChars(t.numeral);
    }
  }

  lemma NameReads(v: Value, rest: string)
    requires v.Null? || v.Bool?
    ensures ParseValue(TreeText(Name(v)) + rest) == Ok(v, rest)
  {
    hide ParseValue;
    ParseLiteral(TreeText(Name(v)) + rest, v, rest);
  }

  lemma NumberReads(n: Numeral, rest: string)
    requires IsTree(Number(n)) && EndsNumber(rest)
    ensures ParseValue(TreeText(Number(n)) + rest) == Ok(NumeralValue(n).value, rest)
  {
    hide ParseValue, ParseNumber, NumeralText, NumeralValue, IsNumeral;
    NumeralReads(n, rest);
    ParseNumeral(NumeralText(n) + rest);
  }

  lemma LiteralReads(es: seq<Element>, rest: string)
    requires IsLiteral(es)
    ensures LiteralText(es) + rest == "\"" + (Spellings(es) + ("\"" + rest))
    ensures ParseValue(LiteralText(es) + rest) == Ok(Str(Meanings(es)), rest)
  {
    hide ParseValue, ParseString, Spellings, Meanings;
    SpelledIsAccepted(es, rest);
    ParseQuoted(LiteralText(es) + rest, Spellings(es) + ("\"" + rest));
  }

  lemma ItemSplits(i: Item, c: char, rest: string)
    ensures ItemText(i) + ([c] + rest) == i.before + (TreeText(i.tree) + (i.after + [c] + rest))
  {
    hide TreeText;
  }

  lemma ItemReads(i: Item, c: char, rest: string)
    requires IsItem(i) && c in {',', ']', '}'}
    ensures ParseValue(ItemText(i) + ([c] + rest)) == Ok(TreeValue(i.tree), i.after + [c] + rest)
    ensures SkipSpace(ItemText(i) + ([c] + rest)) != "" && SkipSpace(ItemText(i) + ([c] + rest))[0] != ']'
    decreases i, 1
  {
    var tail := i.after + [c] + rest;
    GapEndsNumber(i.after, c, rest);
    TreeReads(i.tree, tail);
    TreeStarts(i.tree);
    hide ParseValue, TreeText, TreeValue, SkipSpace, IsTree;
    var s := TreeText(i.tree) + tail;
    ItemSplits(i, c, rest);
    hide ItemText;
    SkipsGap(i.before, s);
    SkipNothing(s);
    ParseValueSkips(i.before + s, s);
  }

  lemma CommaJoins(a: string, b: string, end: string)
    ensures a + ("," + b) + end == a + ("," + (b + end)) && a + "" + end == a + end
  {
  }

  lemma ItemsAre(items: seq<Item>)
    requires items != []
    ensures AllItems(items) == ItemText(items[0]) + if |items| == 1 then "" else "," + AllItems(items[1..])
  {
    hide ItemText;
  }

  lemma ItemsHead(items: seq<Item>, end: string)
    requires items != []
    ensures AllItems(items) + end
         == ItemText(items[0]) + if |items| == 1 then end else "," + (AllItems(items[1..]) + end)
  {
    hide *;
    ItemsAre(items);
    CommaJoins(ItemText(items[0]), AllItems(items[1..]), end);
  }

  lemma MoreItems(s: string, done: seq<Value>, v: Value, gap: string, u: string)
    requires AreSpaces(gap) && ParseValue(s) == Ok(v, gap + "," + u)
    ensures ParseItems(s, done) == ParseItems(u, done + [v])
  {
    GapExpected(gap, ',', u);
    hide ParseValue, Expect;
  }

  lemma LastItem(s: string, done: seq<Value>, v: Value, gap: string, rest: string)
    requires AreSpaces(gap) && ParseValue(s) == Ok(v, gap + "]" + rest)
    ensures ParseItems(s, done) == Ok(done + [v], rest)
  {
    GapExpected(gap, ']', rest);
    GapExpected("", ']', rest);
    assert "" + "]" + rest == "]" + rest;
    assert Expect(gap + "]" + rest, ',') == (false, "]" + rest);
    hide ParseValue, Expect;
  }

  lemma {:induction false} ItemsRead(items: seq<Item>, done: seq<Value>, rest: string)
    requires items != [] && AreItems(items)
    ensures ParseItems(AllItems(items) + ("]" + rest), done) == Ok(done + ItemValues(items), rest)
    decreases items, 2
  {
    var i, tail := items[0], items[1..];
    assert IsItem(i) && AreItems(tail);
    hide ParseValue, ParseItems, TreeValue, ItemText, AllItems, AreSpaces, IsTree;
    var end := "]" + rest;
    var s := AllItems(items) + end;
    ItemsHead(items, end);
    if |items| == 1 {
      ItemReads(i, ']', rest);
      LastItem(s, done, TreeValue(i.tree), i.after, rest);
      assert ItemValues(tail) == [] && ItemValues(items) == [TreeValue(i.tree)];
    } else {
      ItemReads(i, ',', AllItems(tail) + end);
      MoreItems(s, done, TreeValue(i.tree), i.after, AllItems(tail) + end);
      ItemsRead(tail, done + [TreeValue(i.tree)], rest);
      assert done + [TreeValue(i.tree)] + ItemValues(tail) == done + ItemValues(items);
    }
  }

  lemma EmptyBrackets(gap: string, rest: string)
    requires AreSpaces(gap)
    ensures ParseValue("[" + (gap + "]" + rest)) == Ok(Arr([]), rest)
    ensures ParseValue("{" + (gap + "}" + rest)) == Ok(Obj([]), rest)
  {
    GapExpected(gap, ']', rest);
    GapExpected(gap, '}', rest);
    hide Expect, ParseItems, ParseFields;
    assert ("[" + (gap + "]" + rest))[1..] == gap + "]" + rest;
    assert ("{" + (gap + "}" + rest))[1..] == gap + "}" + rest;
  }

  lemma ArrayReads(gap: string, items: seq<Item>, rest: string)
    requires AreSpaces(gap) && AreItems(items)
    ensures ParseValue(TreeText(Array(gap, items)) + rest) == Ok(Arr(ItemValues(items)), rest)
    decreases items, 3
  {
    hide ParseValue, ParseItems, TreeValue, ItemText, IsItem, AllItems, SkipSpace;
    var s := TreeText(Array(gap, items)) + rest;
    if items == [] {
      assert s == "[" + (gap + "]" + rest);
      EmptyBrackets(gap, rest);
    } else {
      var body := AllItems(items) + ("]" + rest);
      assert s == "[" + body;
      ItemsRead(items, [], rest);
      assert [] + ItemValues(items) == ItemValues(items);
      ItemsHead(items, "]" + rest);
      if |items| == 1 {
        ItemReads(items[0], ']', rest);
      } else {
        ItemReads(items[0], ',', AllItems(items[1..]) + ("]" + rest));
      }
      ParseBracket(s, body, ItemValues(items), rest);
    }
  }

  lemma QuoteRead(s: string, t: string, after: string, key: string, u: string)
    requires SkipSpace(s) == "\"" + t && ParseString(t) == Ok(key, after) && Expect(after, ':') == (true, u)
    ensures ParseKey(s) == Ok(key, u)
  {
    var x := SkipSpace(s);
    assert x[1..] == t;
    hide ParseString, SkipSpace;
    assert Expect(s, '"') == (true, t);
    hide Expect;
  }

  lemma KeyReads(before: string, key: seq<Element>, colon: string, t: string)
    requires AreSpaces(before) && IsLiteral(key) && AreSpaces(colon)
    ensures var s := before + LiteralText(key) + colon + ":" + t;
            ParseKey(s) == Ok(Meanings(key), t) && SkipSpace(s) != "" && SkipSpace(s)[0] == '"'
  {
    hide ParseString, Spellings, Meanings, Expect, LiteralText, SkipSpace, ParseValue, ParseKey, AreSpaces;
    var after := colon + ":" + t;
    var quoted := Spellings(key) + ("\"" + after);
    LiteralReads(key, after);
    SpelledIsAccepted(key, after);
    GapExpected(before, '"', quoted);
    GapExpected(colon, ':', t);
    var s := before + LiteralText(key) + colon + ":" + t;
    assert s == before + (LiteralText(key) + after) == before + "\"" + quoted;
    QuoteRead(s, quoted, after, Meanings(key), t);
  }

  lemma PutFromMap(m: map<string, Value>, k: string, v: Value)
    ensures Put(FromMap(m), k, v) == FromMap(m[k := v])
  {
    PutIsUpdate(FromMap(m), k, v);
    PutAscending(FromMap(m), k, v);
    AscendingUnique(Put(FromMap(m), k, v), FromMap(m[k := v]));
  }

  lemma MoreFields(s: string, m: map<string, Value>, key: string, t: string, v: Value, gap: string, u: string)
    requires AreSpaces(gap) && ParseKey(s) == Ok(key, t) && ParseValue(t) == Ok(v, gap + "," + u)
    ensures ParseFields(s, FromMap(m)) == ParseFields(u, FromMap(m[key := v]))
  {
    GapExpected(gap, ',', u);
    PutFromMap(m, key, v);
    hide ParseValue, ParseKey, Expect, Put, FromMap;
  }

  lemma LastField(s: string, m: map<string, Value>, key: string, t: string, v: Value, gap: string, rest: string)
    requires AreSpaces(gap) && ParseKey(s) == Ok(key, t) && ParseValue(t) == Ok(v, gap + "}" + rest)
    ensures ParseFields(s, FromMap(m)) == Ok(FromMap(m[key := v]), rest)
  {
    GapExpected(gap, '}', rest);
    GapExpected("", '}', rest);
    PutFromMap(m, key, v);
    assert "" + "}" + rest == "}" + rest;
    assert Expect(gap + "}" + rest, ',') == (false, "}" + rest);
    hide ParseValue, ParseKey, Expect, Put, FromMap;
  }

  lemma MembersAre(members: seq<Member>)
    requires members != []
    ensures AllMembers(members)
         == MemberText(members[0]) + if |members| == 1 then "" else "," + AllMembers(members[1..])
  {
    hide MemberText;
  }

  lemma MembersHead(members: seq<Member>, end: string)
    requires members != []
    ensures AllMembers(members) + end
         == MemberText(members[0]) + if |members| == 1 then end else "," + (AllMembers(members[1..]) + end)
  {
    hide *;
    MembersAre(members);
    CommaJoins(MemberText(members[0]), AllMembers(members[1..]), end);
  }

  lemma MemberReads(m: Member, c: char, rest: string)
    requires IsMember(m) && c in {',', '}'}
    ensures IsItem(m.item)
    ensures var s := MemberText(m) + ([c] + rest);
            var t := ItemText(m.item) + ([c] + rest);
            && ParseKey(s) == Ok(Meanings(m.key), t)
            && ParseValue(t) == Ok(TreeValue(m.item.tree), m.item.after + [c] + rest)
            && SkipSpace(s) != "" && SkipSpace(s)[0] == '"'
    decreases m, 2
  {
    ItemReads(m.item, c, rest);
    var t := ItemText(m.item) + ([c] + rest);
    KeyReads(m.before, m.key, m.colon, t);
    hide ItemText, LiteralText, ParseValue, ParseKey, TreeValue, Meanings, SkipSpace;
    assert MemberText(m) + ([c] + rest) == m.before + LiteralText(m.key) + m.colon + ":" + t;
  }

  lemma {:induction false} MembersRead(members: seq<Member>, m: map<string, Value>, rest: string)
    requires members != [] && AreMembers(members)
    ensures ParseFields(AllMembers(members) + ("}" + rest), FromMap(m)) == Ok(FromMap(MemberValues(members, m)), rest)
    decreases members, 3
  {
    hide ParseValue, ParseFields, ParseKey, TreeValue, MemberText, ItemText, AllMembers, AreSpaces, Meanings, FromMap;
    var end := "}" + rest;
    var s := AllMembers(members) + end;
    var member, tail := members[0], members[1..];
    assert IsMember(member) && IsItem(member.item);
    var key, v, gap := Meanings(member.key), TreeValue(member.item.tree), member.item.after;
    MembersHead(members, end);
    if |members| == 1 {
      MemberReads(member, '}', rest);
      LastField(s, m, key, ItemText(member.item) + end, v, gap, rest);
    } else {
      var u := AllMembers(tail) + end;
      MemberReads(member, ',', u);
      MoreFields(s, m, key, ItemText(member.item) + ("," + u), v, gap, u);
      MembersRead(tail, m[key := v], rest);
    }
  }

  lemma EmptyMap()
    ensures FromMap<Value>(map[]) == []
  {
  }

  lemma ObjectReads(gap: string, members: seq<Member>, rest: string)
    requires AreSpaces(gap) && AreMembers(members)
    ensures ParseValue(TreeText(Object(gap, members)) + rest) == Ok(Obj(FromMap(MemberValues(members, map[]))), rest)
    decreases members, 4
  {
    hide ParseValue, ParseFields, MemberText, ItemText, IsMember, AllMembers, SkipSpace, FromMap, TreeValue, Meanings;
    var s := TreeText(Object(gap, members)) + rest;
    EmptyMap();
    if members == [] {
      assert s == "{" + (gap + "}" + rest);
      EmptyBrackets(gap, rest);
    } else {
      var body := AllMembers(members) + ("}" + rest);
      assert s == "{" + body;
      MembersRead(members, map[], rest);
      MembersHead(members, "}" + rest);
      if |members| == 1 {
        MemberReads(members[0], '}', rest);
      } else {
        MemberReads(members[0], ',', AllMembers(members[1..]) + ("}" + rest));
      }
      ParseBrace(s, body, FromMap(MemberValues(members, map[])), rest);
    }
  }

  lemma LiteralIsText(es: seq<Element>)
    ensures TreeText(Literal(es)) == LiteralText(es)
  {
  }

  /** Every tree is read as its value, to its end. */
  lemma {:induction false} TreeReads(t: Tree, rest: string)
    requires IsTree(t) && (t.Number? ==> EndsNumber(rest))
    ensures ParseValue(TreeText(t) + rest) == Ok(TreeValue(t), rest)
    decreases t, 5
  {
    hide ParseValue, TreeText, IsItem, IsMember, Meanings, NumeralValue, LiteralText;
    match t {
      case Name(value) => NameReads(value, rest);
      case Number(numeral) => NumberReads(numeral, rest);
      case Literal(es) =>
        LiteralReads(es, rest);
        assert TreeText(t) == LiteralText(es) by { LiteralIsText(es); }
      case Array(gap, items) => ArrayReads(gap, items, rest);
      case Object(gap, members) => ObjectReads(gap, members, rest);
    }
  }

  // ----- Everything that is read is a tree -----

  lemma {:induction false} MatchIs(s: string, pattern: string)
    requires Match(s, pattern).0
    ensures s == pattern + Match(s, pattern).1
    decreases |pattern|
  {
    if pattern == "" {
    } else {
      MatchIs(s[1..], pattern[1..]);
      assert s == [s[0]] + s[1..] && pattern == [pattern[0]] + pattern[1..];
    }
  }

  /** What was read of `s` is the text of `t`. */
  ghost predicate Derives(t: Tree, s: string, v: Value, rest: string) {
    IsTree(t) && s == TreeText(t) + rest && v == TreeValue(t) && (t.Number? ==> EndsNumber(rest))
  }

  lemma WordTree(s: string, word: string, v: Value) returns (t: Tree)
    requires (v.Null? || v.Bool?) && s != "" && TreeText(Name(v)) == [s[0]] + word
    requires Word(s[1..], word, v).Ok?
    ensures Derives(t, s, Word(s[1..], word, v).value, Word(s[1..], word, v).rest)
  {
    MatchIs(s[1..], word);
    t := Name(v);
    hide Match, TreeText;
    assert s == [s[0]] + s[1..];
  }

  lemma Words()
    ensures TreeText(Name(Null)) == "n" + "ull"
    ensures TreeText(Name(Bool(false))) == "f" + "alse" && TreeText(Name(Bool(true))) == "t" + "rue"
  {
  }

  lemma NumberTree(s: string) returns (t: Tree)
    requires s != "" && StartsNumber(s[0]) && ParseNumber(s).Ok?
    ensures Derives(t, s, ParseNumber(s).value, ParseNumber(s).rest)
  {
    hide ParseNumber, NumeralText, NumeralValue, IsNumeral;
    var n, rest := NumberIsSpelled(s);
    t := Number(n);
  }

  lemma LiteralTree(s: string) returns (t: Tree)
    requires s != "" && s[0] == '"' && ParseString(s[1..]).Ok?
    ensures Derives(t, s, Str(ParseString(s[1..]).value), ParseString(s[1..]).rest)
  {
    var rest := ParseString(s[1..]).rest;
    hide ParseString, Spellings, Meanings;
    var es := AcceptedIsSpelled(s[1..]);
    t := Literal(es);
    LiteralReads(es, rest);
    assert s == "\"" + s[1..];
  }

  lemma Brackets(open: string, body: string, close: string, rest: string)
    ensures open + (body + (close + rest)) == open + body + close + rest
  {
  }

  lemma {:induction false} TrimmedTree(s: string) returns (t: Tree)
    requires SkipSpace(s) == s && ParseValue(s).Ok?
    ensures Derives(t, s, ParseValue(s).value, ParseValue(s).rest)
    decreases |s|, 1
  {
    Words();
    hide ParseArray, ParseObject, ParseString, ParseNumber, Word, Derives, SkipSpace, TreeText;
    if s[0] == 'n' {
      t := WordTree(s, "ull", Null);
    } else if s[0] == 'f' {
      t := WordTree(s, "alse", Bool(false));
    } else if s[0] == 't' {
      t := WordTree(s, "rue", Bool(true));
    } else if s[0] == '"' {
      t := LiteralTree(s);
    } else if s[0] == '[' {
      t := ArrayTree(s);
    } else if s[0] == '{' {
      t := ObjectTree(s);
    } else {
      t := NumberTree(s);
    }
  }

  lemma {:induction false} ValueTree(s: string) returns (before: string, t: Tree)
    requires ParseValue(s).Ok?
    ensures AreSpaces(before) && s == before + SkipSpace(s)
    ensures Derives(t, SkipSpace(s), ParseValue(s).value, ParseValue(s).rest)
    decreases |s|, 2
  {
    var u := SkipSpace(s);
    before := GapSkipped(s);
    assert SkipSpace(u) == u;
    ParseValueSkips(s, u);
    hide ParseValue, Derives, SkipSpace;
    t := TrimmedTree(u);
  }

  lemma SkipTwice(s: string)
    ensures SkipSpace(SkipSpace(s)) == SkipSpace(s)
  {
  }

  lemma ExpectAfter(s: string, bracket: char) returns (gap: string)
    requires !Expect(s, ',').0 && Expect(Expect(s, ',').1, bracket).0
    ensures AreSpaces(gap) && s == gap + [bracket] + Expect(Expect(s, ',').1, bracket).1
  {
    SkipTwice(s);
    assert Expect(s, bracket) == Expect(Expect(s, ',').1, bracket);
    gap := ExpectedGap(s, bracket);
  }

  lemma ItemJoins(i: Item, s: string, u: string, c: char, rest: string)
    requires s == i.before + u && u == TreeText(i.tree) + (i.after + [c] + rest)
    ensures s == ItemText(i) + ([c] + rest)
  {
    hide TreeText;
  }

  lemma ItemsCons(i: Item, tail: seq<Item>, end: string)
    requires IsItem(i) && AreItems(tail)
    ensures AreItems([i] + tail)
    ensures ItemValues([i] + tail) == [TreeValue(i.tree)] + ItemValues(tail)
    ensures AllItems([i] + tail) + end == ItemText(i) + if tail == [] then end else "," + (AllItems(tail) + end)
  {
    ItemsHead([i] + tail, end);
    assert ([i] + tail)[1..] == tail;
    hide AllItems, ItemText, TreeValue, IsItem;
  }

  lemma AppendOne(done: seq<Value>, v: Value, rest: seq<Value>)
    ensures done + [v] + rest == done + ([v] + rest) && done + [v] + [] == done + [v]
  {
  }

  /** The loop over items, turn by turn. */
  lemma ItemsTurn(s: string, done: seq<Value>)
    requires ParseItems(s, done).Ok?
    ensures var v := ParseValue(s);
            && v.Ok?
            && var (more, w) := Expect(v.rest, ',');
               var all := done + [v.value];
               if more then ParseItems(s, done) == ParseItems(w, all)
               else Expect(w, ']') == (true, ParseItems(s, done).rest) && ParseItems(s, done).value == all
  {
    hide ParseValue, Expect;
  }

  lemma NoMore()
    ensures ItemValues([]) == [] && forall m :: MemberValues([], m) == m
  {
  }

  lemma {:induction false} ItemsTree(s: string, done: seq<Value>) returns (items: seq<Item>)
    requires ParseItems(s, done).Ok?
    ensures items != [] && AreItems(items)
    ensures s == AllItems(items) + ("]" + ParseItems(s, done).rest)
    ensures ParseItems(s, done).value == done + ItemValues(items)
    decreases |s|, 3
  {
    ItemsTurn(s, done);
    var v := ParseValue(s);
    var end := "]" + ParseItems(s, done).rest;
    var (more, w) := Expect(v.rest, ',');
    hide ParseItems, ParseValue, SkipSpace, Expect, AreSpaces, IsTree, TreeText, TreeValue, AllItems, ItemValues,
         ItemText;
    var before, t := ValueTree(s);
    if more {
      var gap := ExpectedGap(v.rest, ',');
      var i := Item(before, t, gap);
      ItemJoins(i, s, SkipSpace(s), ',', w);
      var tail := ItemsTree(w, done + [v.value]);
      items := [i] + tail;
      ItemsCons(i, tail, end);
      AppendOne(done, v.value, ItemValues(tail));
    } else {
      var gap := ExpectAfter(v.rest, ']');
      var i := Item(before, t, gap);
      ItemJoins(i, s, SkipSpace(s), ']', ParseItems(s, done).rest);
      items := [i] + [];
      NoMore();
      ItemsCons(i, [], end);
      AppendOne(done, v.value, []);
    }
  }

  lemma NothingBefore(vs: seq<Value>)
    ensures [] + vs == vs
  {
  }

  lemma Opened(s: string, bracket: char)
    requires s != "" && s[0] == bracket
    ensures s == [bracket] + s[1..]
  {
  }

  lemma EmptyArrayTree(s: string) returns (t: Tree)
    requires s != "" && s[0] == '[' && Expect(s[1..], ']').0
    ensures Derives(t, s, Arr([]), Expect(s[1..], ']').1)
  {
    var gap := ExpectedGap(s[1..], ']');
    NoMore();
    hide Expect;
    t := Array(gap, []);
    assert s == "[" + s[1..] && TreeText(t) == "[" + gap + "]";
  }

  lemma ItemsAreArray(items: seq<Item>, s: string, rest: string)
    requires items != [] && AreItems(items) && s == "[" + (AllItems(items) + ("]" + rest))
    ensures Derives(Array("", items), s, Arr(ItemValues(items)), rest)
  {
    Brackets("[", AllItems(items), "]", rest);
    hide AllItems, ItemValues, IsItem;
  }

  lemma {:induction false} ArrayTree(s: string) returns (t: Tree)
    requires s != "" && s[0] == '[' && ParseArray(s[1..]).Ok?
    ensures Derives(t, s, ParseArray(s[1..]).value, ParseArray(s[1..]).rest)
    decreases |s|, 0
  {
    var body := s[1..];
    var (closed, u) := Expect(body, ']');
    hide ParseItems, AllItems, ItemValues, SkipSpace, Derives, AreItems;
    if closed {
      t := EmptyArrayTree(s);
    } else {
      ParseItemsSkips(body, u, []) by { SkipTwice(body); }
      hide Expect;
      var items := ItemsTree(body, []);
      NothingBefore(ItemValues(items));
      t := Array("", items);
      Opened(s, '[');
      ItemsAreArray(items, s, ParseItems(body, []).rest);
    }
  }

  lemma KeyJoins(before: string, key: seq<Element>, colon: string, rest: string)
    ensures before + LiteralText(key) + colon + ":" + rest
         == before + "\"" + (Spellings(key) + ("\"" + (colon + ":" + rest)))
  {
    hide Spellings;
  }

  lemma KeyTree(s: string) returns (before: string, key: seq<Element>, colon: string)
    requires ParseKey(s).Ok?
    ensures AreSpaces(before) && IsLiteral(key) && AreSpaces(colon)
    ensures s == before + LiteralText(key) + colon + ":" + ParseKey(s).rest
    ensures ParseKey(s).value == Meanings(key)
  {
    var t := Expect(s, '"').1;
    before := ExpectedGap(s, '"');
    var after := ParseString(t).rest;
    hide ParseString, Expect, Spellings, Meanings, AreSpaces;
    key := AcceptedIsSpelled(t);
    colon := ExpectedGap(after, ':');
    hide ParseKey;
    KeyJoins(before, key, colon, Expect(after, ':').1);
  }

  lemma MemberJoins(m: Member, s: string, t: string, c: char, rest: string)
    requires s == m.before + LiteralText(m.key) + m.colon + ":" + t && t == ItemText(m.item) + ([c] + rest)
    ensures s == MemberText(m) + ([c] + rest)
  {
    hide ItemText, LiteralText;
  }

  lemma MembersCons(member: Member, tail: seq<Member>, m: map<string, Value>, end: string)
    requires IsMember(member) && AreMembers(tail)
    ensures IsItem(member.item) && AreMembers([member] + tail)
    ensures MemberValues([member] + tail, m)
         == MemberValues(tail, m[Meanings(member.key) := TreeValue(member.item.tree)])
    ensures AllMembers([member] + tail) + end
         == MemberText(member) + if tail == [] then end else "," + (AllMembers(tail) + end)
  {
    MembersHead([member] + tail, end);
    assert ([member] + tail)[1..] == tail;
    hide AllMembers, MemberText, TreeValue, Meanings;
  }

  /** The loop over members, turn by turn. */
  lemma FieldsTurn(s: string, m: map<string, Value>)
    requires ParseFields(s, FromMap(m)).Ok?
    ensures ParseKey(s).Ok?
    ensures var v := ParseValue(ParseKey(s).rest);
            && v.Ok?
            && var (more, w) := Expect(v.rest, ',');
               var all := m[ParseKey(s).value := v.value];
               if more then ParseFields(s, FromMap(m)) == ParseFields(w, FromMap(all))
               else Expect(w, '}') == (true, ParseFields(s, FromMap(m)).rest)
                    && ParseFields(s, FromMap(m)).value == FromMap(all)
  {
    if ParseKey(s).Ok? && ParseValue(ParseKey(s).rest).Ok? {
      PutFromMap(m, ParseKey(s).value, ParseValue(ParseKey(s).rest).value);
    }
    hide ParseKey, ParseValue, Expect, Put, FromMap;
  }

  lemma {:induction false} MembersTree(s: string, m: map<string, Value>) returns (members: seq<Member>)
    requires ParseFields(s, FromMap(m)).Ok?
    ensures members != [] && AreMembers(members)
    ensures s == AllMembers(members) + ("}" + ParseFields(s, FromMap(m)).rest)
    ensures ParseFields(s, FromMap(m)).value == FromMap(MemberValues(members, m))
    decreases |s|, 3
  {
    FieldsTurn(s, m);
    var (k, t) := (ParseKey(s).value, ParseKey(s).rest);
    var end := "}" + ParseFields(s, FromMap(m)).rest;
    var v := ParseValue(t);
    var (more, w) := Expect(v.rest, ',');
    hide ParseFields, ParseKey, ParseValue, SkipSpace, Expect, AreSpaces, IsTree, TreeText, TreeValue, AllMembers,
         MemberValues, ItemText, MemberText, FromMap, Meanings, LiteralText;
    var before, key, colon := KeyTree(s);
    var gap, tree := ValueTree(t);
    if more {
      var after := ExpectedGap(v.rest, ',');
      var i := Item(gap, tree, after);
      var member := Member(before, key, colon, i);
      ItemJoins(i, t, SkipSpace(t), ',', w);
      MemberJoins(member, s, t, ',', w);
      var tail := MembersTree(w, m[k := v.value]);
      members := [member] + tail;
      MembersCons(member, tail, m, end);
    } else {
      var after := ExpectAfter(v.rest, '}');
      var i := Item(gap, tree, after);
      var member := Member(before, key, colon, i);
      var rest := ParseFields(s, FromMap(m)).rest;
      ItemJoins(i, t, SkipSpace(t), '}', rest);
      MemberJoins(member, s, t, '}', rest);
      members := [member] + [];
      NoMore();
      MembersCons(member, [], m, end);
    }
  }

  lemma EmptyObjectTree(s: string) returns (t: Tree)
    requires s != "" && s[0] == '{' && Expect(s[1..], '}').0
    ensures Derives(t, s, Obj([]), Expect(s[1..], '}').1)
  {
    var gap := ExpectedGap(s[1..], '}');
    NoMore();
    EmptyMap();
    hide Expect, FromMap;
    t := Object(gap, []);
    assert MemberValues([], map[]) == map[];
    assert s == "{" + s[1..] && TreeText(t) == "{" + gap + "}";
  }

  lemma MembersAreObject(members: seq<Member>, s: string, rest: string)
    requires members != [] && AreMembers(members) && s == "{" + (AllMembers(members) + ("}" + rest))
    ensures Derives(Object("", members), s, Obj(FromMap(MemberValues(members, map[]))), rest)
  {
    Brackets("{", AllMembers(members), "}", rest);
    hide AllMembers, MemberValues, IsMember, FromMap;
  }

  lemma {:induction false} ObjectTree(s: string) returns (t: Tree)
    requires s != "" && s[0] == '{' && ParseObject(s[1..]).Ok?
    ensures Derives(t, s, ParseObject(s[1..]).value, ParseObject(s[1..]).rest)
    decreases |s|, 0
  {
    var body := s[1..];
    var (closed, u) := Expect(body, '}');
    EmptyMap();
    hide ParseFields, AllMembers, MemberValues, SkipSpace, FromMap, Derives, AreMembers;
    if closed {
      t := EmptyObjectTree(s);
    } else {
      ParseFieldsSkips(body, u, []) by { SkipTwice(body); }
      hide Expect;
      var members := MembersTree(body, map[]);
      t := Object("", members);
      Opened(s, '{');
      MembersAreObject(members, s, ParseFields(body, []).rest);
    }
  }

  // ----- The language -----

  /** White space and then a tree. */
  ghost predicate Denotes(before: string, t: Tree, s: string, v: Value, rest: string) {
    AreSpaces(before) && IsTree(t) && (t.Number? ==> EndsNumber(rest))
    && s == before + TreeText(t) + rest && v == TreeValue(t)
  }

  lemma TreeIsAccepted(before: string, t: Tree, rest: string)
    requires AreSpaces(before) && IsTree(t) && (t.Number? ==> EndsNumber(rest))
    ensures ParseValue(before + TreeText(t) + rest) == Ok(TreeValue(t), rest)
  {
    TreeReads(t, rest);
    SkipsGap(before, TreeText(t) + rest);
    hide ParseValue, TreeText, TreeValue;
    ParseValueSkips(before + (TreeText(t) + rest), TreeText(t) + rest);
    assert before + (TreeText(t) + rest) == before + TreeText(t) + rest;
  }

  /**
   The language of values: a text is accepted with a value and a rest if and only if it
   begins with white space and the text of a tree of that value, and a number at the top
   does not go on in the rest.
   */
  lemma ValueGrammar(s: string, v: Value, rest: string)
    ensures ParseValue(s) == Ok(v, rest) <==> exists before, t :: Denotes(before, t, s, v, rest)
  {
    if ParseValue(s) == Ok(v, rest) {
      var before, t := ValueTree(s);
      hide ParseValue, SkipSpace, TreeText, TreeValue, IsTree;
      assert s == before + TreeText(t) + rest;
      assert Denotes(before, t, s, v, rest);
    }
    forall before, t | Denotes(before, t, s, v, rest)
      ensures ParseValue(s) == Ok(v, rest)
    {
      TreeIsAccepted(before, t, rest);
    }
  }

  /** A text means one value, however it is derived. */
  lemma TreesUnambiguous(t: Tree, u: Tree)
    requires IsTree(t) && IsTree(u) && TreeText(t) == TreeText(u)
    ensures TreeValue(t) == TreeValue(u)
  {
    TreeReads(t, "");
    TreeReads(u, "");
    hide *;
  }
}
