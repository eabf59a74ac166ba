/** What serialised documents look like, compact and prettified, character by character. */
module JsonLayout {
  import opened Basics
  import opened OrderedMap
  import opened JsonValue
  import opened Characters
  import opened JsonStrings

  // ----- Strings -----

  /** Four lower-case hexadecimal digits. */
  predicate IsLowerHex(h: string) {
    |h| == 4 && forall i :: 0 <= i < 4 ==> h[i] in "0123456789abcdef"
  }

  lemma LowerDigit(n: nat)
    requires n < 16
    ensures HexDigit(n) in "0123456789abcdef" && HexPlace(HexDigit(n)) == n
  {
    HexTables();
    assert "0123456789abcdef"[n] == HexDigit(n);
    hide Place;
  }

  lemma ZeroDigit()
    ensures HexPlace('0') == 0 && '0' in "0123456789abcdef"
  {
    LowerDigit(0);
  }

  lemma ControlHex(c: char) returns (h: string)
    requires c as int < 256
    ensures h == "00" + [HexDigit(c as int / 16), HexDigit(c as int % 16)]
    ensures IsLowerHex(h) && HexNumber(h) == c as int
  {
    var d, e := HexDigit(c as int / 16), HexDigit(c as int % 16);
    h := ['0', '0', d, e];
    LowerDigit(c as int / 16);
    LowerDigit(c as int % 16);
    ZeroDigit();
    PowersOf16();
    hide HexPlace, HexDigit, Power;
    assert h[1..] == ['0', d, e] && h[1..][1..] == [d, e] && [d, e][1..] == [e] && [e][1..] == "";
    assert HexNumber([e]) == HexPlace(e) + HexNumber("");
    assert HexNumber([d, e]) == HexPlace(d) * 16 + HexNumber([e]);
    assert HexNumber(h[1..]) == HexNumber([d, e]);
  }

  lemma NoEscape(c: char)
    requires Place(ESCAPED, c).None?
    ensures EscapeChar(c)
         == if c as int < 32 || c as int == 127 then "\\u00" + [HexDigit(c as int / 16), HexDigit(c as int % 16)]
            else [c]
  {
    assert ESCAPED[0] == '"' && ESCAPED[1] == '\\' && ESCAPED[2] == '/' && ESCAPED[3] == '\U{8}';
    assert ESCAPED[4] == '\U{C}' && ESCAPED[5] == '\n' && ESCAPED[6] == '\r' && ESCAPED[7] == '\t';
    hide Place, ESCAPED;
  }

  lemma ShortEscape(c: char, i: nat)
    requires i < |ESCAPED| && ESCAPED[i] == c
    ensures i < |ESCAPES| && EscapeChar(c) == "\\" + [ESCAPES[i]]
  {
  }

  /**
   How each character is written: by its two-character escape if it has one (a slash has),
   by its code in lower-case hexadecimal if it is a control character, and else as it is.
   */
  lemma EscapeMeans(c: char)
    ensures match Place(ESCAPED, c)
            case Some(i) => i < |ESCAPES| && EscapeChar(c) == "\\" + [ESCAPES[i]]
            case None =>
              if c as int < 32 || c as int == 127 then
                exists h :: IsLowerHex(h) && HexNumber(h) == c as int && EscapeChar(c) == "\\u" + h
              else EscapeChar(c) == [c]
  {
    hide Place, ESCAPED, ESCAPES, EscapeChar, HexDigit, IsLowerHex, HexNumber;
    if Place(ESCAPED, c).Some? {
      ShortEscape(c, Place(ESCAPED, c).value);
    } else {
      NoEscape(c);
      if c as int < 32 || c as int == 127 {
        var h := ControlHex(c);
        assert EscapeChar(c) == "\\u" + h;
      }
    }
  }

  // ----- Documents -----

  function Join(ss: seq<string>, separator: string): string {
    if ss == [] then "" else ss[0] + if |ss| == 1 then "" else separator + Join(ss[1..], separator)
  }

  function Spaces(n: nat): string {
    if n == 0 then "" else " " + Spaces(n - 1)
  }

  /** Values that are written the same in either form. */
  function Atom(v: Value): string {
    match v
    case Null => "null"
    case Bool(b) => if b then "true" else "false"
    case Int(n) => IntText(n)
    case Double(text) => text
    case Str(s) => "\"" + EscapeChars(s) + "\""
    case Arr(_) => "[]"
    case Obj(_) => "{}"
  }

  /** Every element and member on a line of its own, two spaces deeper than its bracket. */
  function Pretty(v: Value, depth: nat): string
    decreases v, 0
  {
    if v.Arr? && v.items != [] then
      "[\n" + Join(PrettyItems(v.items, depth + 1), ",\n") + "\n" + Spaces(2 * depth) + "]"
    else if v.Obj? && v.fields != [] then
      "{\n" + Join(PrettyFields(v.fields, depth + 1), ",\n") + "\n" + Spaces(2 * depth) + "}"
    else Atom(v)
  }

  function PrettyItems(items: seq<Value>, depth: nat): seq<string>
    decreases items, 1
  {
    if items == [] then []
    else [Spaces(2 * depth) + Pretty(items[0], depth)] + PrettyItems(items[1..], depth)
  }

  function PrettyFields(fields: seq<Entry<Value>>, depth: nat): seq<string>
    decreases fields, 1
  {
    if fields == [] then []
    else
      [Spaces(2 * depth) + "\"" + EscapeChars(fields[0].key) + "\": " + Pretty(fields[0].value, depth)]
      + PrettyFields(fields[1..], depth)
  }

  /** No white space at all. */
  function Compact(v: Value): string
    decreases v, 0
  {
    match v
    case Arr(items) => "[" + Join(CompactItems(items), ",") + "]"
    case Obj(fields) => "{" + Join(CompactFields(fields), ",") + "}"
    case _ => Atom(v)
  }

  function CompactItems(items: seq<Value>): seq<string>
    decreases items, 1
  {
    if items == [] then [] else [Compact(items[0])] + CompactItems(items[1..])
  }

  function CompactFields(fields: seq<Entry<Value>>): seq<string>
    decreases fields, 1
  {
    if fields == [] then []
    else ["\"" + EscapeChars(fields[0].key) + "\":" + Compact(fields[0].value)] + CompactFields(fields[1..])
  }

  // ----- The serialiser writes just that -----

  lemma {:induction false} SpacesAre(n: nat)
    ensures Spaces(n) == seq(n, _ => ' ')
  {
    if n == 0 {
    } else {
      SpacesAre(n - 1);
    }
  }

  lemma IndentationIs(depth: nat)
    ensures Indentation(depth) == "\n" + Spaces(2 * depth)
  {
    SpacesAre(2 * depth);
  }

  lemma JoinHead(first: string, rest: seq<string>, separator: string)
    ensures Join([first] + rest, separator) == first + if rest == [] then "" else separator + Join(rest, separator)
  {
    assert ([first] + rest)[1..] == rest;
  }

  lemma FirstItem(items: seq<Value>, indent: int, first: bool)
    requires -1 <= indent && indent != 0 && items != []
    ensures ItemsText(items, indent, first)
         == (if first then "" else ",") + Indentation(indent) + Text(items[0], indent)
            + ItemsText(items[1..], indent, false)
  {
    hide Text, Indentation;
  }

  lemma KeyIs(key: string, indent: int, first: bool)
    requires -1 <= indent
    ensures KeyText(key, indent, first)
         == (if first then "" else ",") + Indentation(indent)
            + ("\"" + EscapeChars(key) + "\"" + if indent == -1 then ":" else ": ")
  {
    hide Indentation, EscapeChars;
  }

  lemma FieldIs(fields: seq<Entry<Value>>, indent: int, first: bool)
    requires -1 <= indent && indent != 0 && fields != []
    ensures FieldsText(fields, indent, first)
         == KeyText(fields[0].key, indent, first) + Text(fields[0].value, indent)
            + FieldsText(fields[1..], indent, false)
  {
    hide Text, KeyText;
  }

  lemma FirstField(fields: seq<Entry<Value>>, indent: int, first: bool)
    requires -1 <= indent && indent != 0 && fields != []
    ensures FieldsText(fields, indent, first)
         == (if first then "" else ",") + Indentation(indent)
            + ("\"" + EscapeChars(fields[0].key) + "\"" + if indent == -1 then ":" else ": ")
            + Text(fields[0].value, indent) + FieldsText(fields[1..], indent, false)
  {
    KeyIs(fields[0].key, indent, first);
    FieldIs(fields, indent, first);
    hide *;
  }

  lemma NoText(indent: int)
    requires -1 <= indent
    ensures forall first :: ItemsText([], indent, first) == "" && FieldsText([], indent, first) == ""
  {
  }

  lemma LinedMore(open: string, gap: string, text: string, rest: string)
    ensures open + ("\n" + gap) + text + ("," + ("\n" + rest)) == open + ("\n" + (gap + text + (",\n" + rest)))
  {
  }

  lemma LinedLast(open: string, gap: string, text: string)
    ensures open + ("\n" + gap) + text + "" == open + ("\n" + (gap + text + ""))
  {
  }

  lemma {:induction false} PrettyItemsAre(items: seq<Value>, depth: nat, first: bool)
    requires depth > 0 && items != []
    ensures ItemsText(items, depth, first)
         == (if first then "" else ",") + ("\n" + Join(PrettyItems(items, depth), ",\n"))
    decreases items, 1
  {
    var gap, open := Spaces(2 * depth), if first then "" else ",";
    PrettyIs(items[0], depth);
    IndentationIs(depth);
    FirstItem(items, depth, first);
    NoText(depth);
    if |items| > 1 {
      PrettyItemsAre(items[1..], depth, false);
    }
    assert PrettyItems(items, depth) == [gap + Pretty(items[0], depth)] + PrettyItems(items[1..], depth);
    assert PrettyItems(items[1..], depth) == [] <==> |items| == 1;
    hide *;
    JoinHead(gap + Pretty(items[0], depth), PrettyItems(items[1..], depth), ",\n");
    if |items| == 1 {
      assert items[1..] == [];
      LinedLast(open, gap, Pretty(items[0], depth));
    } else {
      LinedMore(open, gap, Pretty(items[0], depth), Join(PrettyItems(items[1..], depth), ",\n"));
    }
  }

  lemma PrettyKey(open: string, gap: string, key: string, text: string, rest: string)
    ensures open + ("\n" + gap) + ("\"" + key + "\"" + ": ") + text + rest
         == open + ("\n" + gap) + ("\"" + key + "\": " + text) + rest
    ensures gap + "\"" + key + "\": " + text == gap + ("\"" + key + "\": " + text)
  {
  }

  lemma {:induction false} PrettyFieldsAre(fields: seq<Entry<Value>>, depth: nat, first: bool)
    requires depth > 0 && fields != []
    ensures FieldsText(fields, depth, first)
         == (if first then "" else ",") + ("\n" + Join(PrettyFields(fields, depth), ",\n"))
    decreases fields, 1
  {
    var gap, open, key := Spaces(2 * depth), if first then "" else ",", EscapeChars(fields[0].key);
    PrettyIs(fields[0].value, depth);
    IndentationIs(depth);
    FirstField(fields, depth, first);
    NoText(depth);
    if |fields| > 1 {
      PrettyFieldsAre(fields[1..], depth, false);
    }
    var text := Pretty(fields[0].value, depth);
    assert PrettyFields(fields, depth) == [gap + "\"" + key + "\": " + text] + PrettyFields(fields[1..], depth);
    assert PrettyFields(fields[1..], depth) == [] <==> |fields| == 1;
    hide *;
    var member := "\"" + key + "\": " + text;
    PrettyKey(open, gap, key, text, FieldsText(fields[1..], depth, false));
    JoinHead(gap + member, PrettyFields(fields[1..], depth), ",\n");
    if |fields| == 1 {
      assert fields[1..] == [];
      LinedLast(open, gap, member);
    } else {
      LinedMore(open, gap, member, Join(PrettyFields(fields[1..], depth), ",\n"));
    }
  }

  lemma Bracketed(open: string, body: string, gap: string, close: string)
    ensures open + ("" + ("\n" + body)) + ("\n" + gap) + close == open + "\n" + body + "\n" + gap + close
  {
  }

  lemma BracketTexts()
    ensures "[" + "\n" == "[\n" && "{" + "\n" == "{\n"
    ensures "[" + "" + "" + "]" == "[]" && "{" + "" + "" + "}" == "{}"
    ensures "[" + "" + "]" == "[]" && "{" + "" + "}" == "{}"
  {
  }

  /** The prettified text at a depth. */
  lemma {:induction false} PrettyIs(v: Value, depth: nat)
    ensures Text(v, depth) == Pretty(v, depth)
    decreases v, 0
  {
    hide ItemsText, FieldsText, PrettyItems, PrettyFields, EscapeChars, Join, Indentation, Spaces;
    IndentationIs(depth);
    BracketTexts();
    NoText(depth + 1);
    if v.Arr? && v.items != [] {
      PrettyItemsAre(v.items, depth + 1, true);
      Bracketed("[", Join(PrettyItems(v.items, depth + 1), ",\n"), Spaces(2 * depth), "]");
    } else if v.Obj? && v.fields != [] {
      PrettyFieldsAre(v.fields, depth + 1, true);
      Bracketed("{", Join(PrettyFields(v.fields, depth + 1), ",\n"), Spaces(2 * depth), "}");
    }
  }

  lemma Joined(open: string, text: string, rest: string)
    ensures open + "" + text + rest == open + (text + rest)
  {
  }

  lemma {:induction false} CompactItemsAre(items: seq<Value>, first: bool)
    requires items != []
    ensures ItemsText(items, -1, first) == (if first then "" else ",") + Join(CompactItems(items), ",")
    decreases items, 1
  {
    var open := if first then "" else ",";
    CompactIs(items[0]);
    FirstItem(items, -1, first);
    NoText(-1);
    assert Indentation(-1) == "";
    if |items| > 1 {
      CompactItemsAre(items[1..], false);
    }
    assert CompactItems(items) == [Compact(items[0])] + CompactItems(items[1..]);
    assert CompactItems(items[1..]) == [] <==> |items| == 1;
    hide *;
    JoinHead(Compact(items[0]), CompactItems(items[1..]), ",");
    if |items| == 1 {
      assert items[1..] == [];
    }
    Joined(open, Compact(items[0]), ItemsText(items[1..], -1, false));
  }

  lemma CompactKey(open: string, key: string, text: string, rest: string)
    ensures open + "" + ("\"" + key + "\"" + ":") + text + rest == open + ("\"" + key + "\":" + text + rest)
  {
  }

  lemma {:induction false} CompactFieldsAre(fields: seq<Entry<Value>>, first: bool)
    requires fields != []
    ensures FieldsText(fields, -1, first) == (if first then "" else ",") + Join(CompactFields(fields), ",")
    decreases fields, 1
  {
    var open, key := if first then "" else ",", EscapeChars(fields[0].key);
    CompactIs(fields[0].value);
    FirstField(fields, -1, first);
    NoText(-1);
    assert Indentation(-1) == "";
    if |fields| > 1 {
      CompactFieldsAre(fields[1..], false);
    }
    var text := Compact(fields[0].value);
    assert CompactFields(fields) == ["\"" + key + "\":" + text] + CompactFields(fields[1..]);
    assert CompactFields(fields[1..]) == [] <==> |fields| == 1;
    hide *;
    JoinHead("\"" + key + "\":" + text, CompactFields(fields[1..]), ",");
    if |fields| == 1 {
      assert fields[1..] == [];
    }
    CompactKey(open, key, text, FieldsText(fields[1..], -1, false));
  }

  lemma NothingJoined()
    ensures Join(CompactItems([]), ",") == "" && Join(CompactFields([]), ",") == ""
  {
  }

  /** The compact text. */
  lemma {:induction false} CompactIs(v: Value)
    ensures Text(v, -1) == Compact(v)
    decreases v, 0
  {
    hide ItemsText, FieldsText, CompactItems, CompactFields, EscapeChars, Join;
    BracketTexts();
    NoText(-1);
    assert Indentation(-1) == "";
    hide Indentation;
    if v.Arr? && v.items != [] {
      CompactItemsAre(v.items, true);
    } else if v.Obj? && v.fields != [] {
      CompactFieldsAre(v.fields, true);
    } else {
      NothingJoined();
    }
  }

  /** The serialised document, in either form. */
  lemma DocumentLayout(v: Value)
    ensures Serialize(v, true) == Pretty(v, 0) + "\n"
    ensures Serialize(v, false) == Compact(v)
  {
    PrettyIs(v, 0);
    CompactIs(v);
    hide Text, Pretty, Compact;
  }
}
