/** The serialiser writes bytes for values made of bytes. */
module JsonBytes {
  import opened Basics
  import opened OrderedMap
  import opened JsonValue

  lemma Joined(a: string, b: string)
    requires IsBytes(a) && IsBytes(b)
    ensures IsBytes(a + b)
  {}

  lemma {:induction false} EscapeCharsIsBytes(s: string)
    requires IsBytes(s)
    ensures IsBytes(EscapeChars(s))
  {
    if s == "" {
    } else {
      EscapeCharsIsBytes(s[1..]);
      Joined(EscapeChar(s[0]), EscapeChars(s[1..]));
    }
  }

  lemma QuotedTextIsBytes(s: string)
    requires IsBytes(s)
    ensures IsBytes(QuotedText(s))
  {
    EscapeCharsIsBytes(s);
    hide EscapeChars;
  }

  lemma AtomTextIsBytes(v: Value)
    requires ByteValue(v) && !v.Str? && !v.Arr? && !v.Obj?
    ensures IsBytes(AtomText(v))
  {}

  lemma ItemStartIsBytes(indent: int, first: bool)
    requires -1 <= indent
    ensures IsBytes(ItemStart(indent, first)) && IsBytes(Indentation(indent))
  {}

  lemma Brackets()
    ensures IsBytes("[") && IsBytes("]") && IsBytes("{") && IsBytes("}") && IsBytes("")
    ensures IsBytes(":") && IsBytes(": ") && IsBytes("\n")
  {}

  lemma {:induction false} TextIsBytes(v: Value, indent: int)
    requires -1 <= indent && ByteValue(v)
    ensures IsBytes(Text(v, indent))
    decreases v, 0
  {
    hide IsBytes, ItemsText, FieldsText, Indentation, QuotedText, AtomText;
    assert IsBytes("[") && IsBytes("]") && IsBytes("{") && IsBytes("}") && IsBytes("") by { Brackets(); }
    ItemStartIsBytes(indent, true);
    match v {
      case Str(s) =>
        QuotedTextIsBytes(s);
      case Arr(items) =>
        var body := ItemsText(items, Deeper(indent), true);
        var end := if items == [] then "" else Indentation(indent);
        ItemsTextIsBytes(items, Deeper(indent), true);
        Joined("[", body);
        Joined("[" + body, end);
        Joined("[" + body + end, "]");
      case Obj(fields) =>
        var body := FieldsText(fields, Deeper(indent), true);
        var end := if fields == [] then "" else Indentation(indent);
        FieldsTextIsBytes(fields, Deeper(indent), true);
        Joined("{", body);
        Joined("{" + body, end);
        Joined("{" + body + end, "}");
      case _ =>
        AtomTextIsBytes(v);
    }
  }

  lemma {:induction false} SerializedIsBytes(v: Value, indent: int)
    requires -1 <= indent && ByteValue(v)
    ensures IsBytes(Serialized(v, indent))
    decreases v, 1
  {
    hide IsBytes, Text;
    Brackets();
    TextIsBytes(v, indent);
    Joined(Text(v, indent), if indent == 0 then "\n" else "");
  }

  lemma {:induction false} ItemsTextIsBytes(items: seq<Value>, indent: int, first: bool)
    requires -1 <= indent && forall i :: 0 <= i < |items| ==> ByteValue(items[i])
    ensures IsBytes(ItemsText(items, indent, first))
    decreases items, 2
  {
    hide IsBytes, Serialized, ItemStart;
    Brackets();
    if items == [] {
    } else {
      ItemStartIsBytes(indent, first);
      SerializedIsBytes(items[0], indent);
      ItemsTextIsBytes(items[1..], indent, false);
      Joined(ItemStart(indent, first), Serialized(items[0], indent));
      Joined(ItemStart(indent, first) + Serialized(items[0], indent), ItemsText(items[1..], indent, false));
    }
  }

  lemma KeyTextIsBytes(key: string, indent: int, first: bool)
    requires -1 <= indent && IsBytes(key)
    ensures IsBytes(KeyText(key, indent, first))
  {
    hide IsBytes, ItemStart, QuotedText;
    Brackets();
    ItemStartIsBytes(indent, first);
    QuotedTextIsBytes(key);
    Joined(ItemStart(indent, first), QuotedText(key));
    Joined(ItemStart(indent, first) + QuotedText(key), if indent == -1 then ":" else ": ");
  }

  lemma {:induction false} FieldsTextIsBytes(fields: seq<Entry<Value>>, indent: int, first: bool)
    requires -1 <= indent
    requires forall i :: 0 <= i < |fields| ==> IsBytes(fields[i].key) && ByteValue(fields[i].value)
    ensures IsBytes(FieldsText(fields, indent, first))
    decreases fields, 2
  {
    hide IsBytes, Serialized, KeyText;
    Brackets();
    if fields == [] {
    } else {
      var (key, value) := (KeyText(fields[0].key, indent, first), Serialized(fields[0].value, indent));
      KeyTextIsBytes(fields[0].key, indent, first);
      SerializedIsBytes(fields[0].value, indent);
      FieldsTextIsBytes(fields[1..], indent, false);
      Joined(key, value);
      Joined(key + value, FieldsText(fields[1..], indent, false));
    }
  }
}
