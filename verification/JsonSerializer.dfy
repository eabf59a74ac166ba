/** The serialiser: loops that append to the output iterator's string. */
module JsonSerializer {
  import opened OrderedMap
  import opened JsonValue

  lemma EscapeCharsStep(s: string, i: nat)
    requires i < |s|
    ensures EscapeChars(s[i..]) == EscapeChar(s[i]) + EscapeChars(s[i + 1..])
  {
    assert s[i..][0] == s[i] && s[i..][1..] == s[i + 1..];
  }

  /** `serialize_str`. */
  method SerializeStr(s: string, oi: string) returns (out: string)
    ensures out == oi + QuotedText(s)
  {
    ghost var all := oi + "\"" + EscapeChars(s);
    assert all + "\"" == oi + QuotedText(s) && EscapeChars("") == "";
    hide *;
    out := oi + "\"";
    assert s[0..] == s;
    for i := 0 to |s|
      invariant out + EscapeChars(s[i..]) == all
    {
      EscapeCharsStep(s, i);
      out := out + EscapeChar(s[i]);
    }
    assert s[|s|..] == "" && out + "" == out;
    out := out + "\"";
  }

  /** `_indent`. */
  method Indent(oi: string, indent: nat) returns (out: string)
    ensures out == oi + Indentation(indent)
  {
    out := oi + "\n";
    for i := 0 to indent * INDENT_WIDTH
      invariant out == oi + ("\n" + seq(i, _ => ' '))
    {
      out := out + " ";
    }
  }

  // The loops below see the text functions only through these unfoldings.

  lemma ArrText(items: seq<Value>, indent: int)
    requires -1 <= indent
    ensures Text(Arr(items), indent)
         == "[" + ItemsText(items, if indent != -1 then indent + 1 else indent, true)
            + (if items == [] then "" else Indentation(indent)) + "]"
  {}

  lemma ObjText(fields: seq<Entry<Value>>, indent: int)
    requires -1 <= indent
    ensures Text(Obj(fields), indent)
         == "{" + FieldsText(fields, if indent != -1 then indent + 1 else indent, true)
            + (if fields == [] then "" else Indentation(indent)) + "}"
  {}

  lemma ItemsTextStep(items: seq<Value>, i: nat, indent: int)
    requires i < |items| && -1 <= indent
    ensures ItemsText(items[i..], indent, i == 0)
         == ItemStart(indent, i == 0) + Serialized(items[i], indent)
            + ItemsText(items[i + 1..], indent, false)
  {
    assert items[i..][0] == items[i] && items[i..][1..] == items[i + 1..];
  }

  lemma FieldsTextStep(fields: seq<Entry<Value>>, i: nat, indent: int)
    requires i < |fields| && -1 <= indent
    ensures FieldsText(fields[i..], indent, i == 0)
         == KeyText(fields[i].key, indent, i == 0) + Serialized(fields[i].value, indent)
            + FieldsText(fields[i + 1..], indent, false)
  {
    assert fields[i..][0] == fields[i] && fields[i..][1..] == fields[i + 1..];
  }

  lemma NoText(indent: int)
    requires -1 <= indent
    ensures ItemsText([], indent, true) == "" && ItemsText([], indent, false) == ""
    ensures FieldsText([], indent, true) == "" && FieldsText([], indent, false) == ""
    ensures Indentation(-1) == ""
  {}

  method StartItem(oi: string, indent: int, first: bool) returns (out: string)
    requires -1 <= indent
    ensures out == oi + ItemStart(indent, first)
  {
    out := oi;
    if !first {
      out := out + ",";
    }
    if indent != -1 {
      out := Indent(out, indent);
    }
  }

  lemma TextCases(v: Value, indent: int)
    requires -1 <= indent
    ensures v.Str? ==> Text(v, indent) == QuotedText(v.s)
    ensures !v.Str? && !v.Arr? && !v.Obj? ==> Text(v, indent) == AtomText(v)
  {
    hide QuotedText, AtomText;
  }

  lemma SerializedJoins(oi: string, v: Value, indent: int)
    requires -1 <= indent
    ensures oi + Serialized(v, indent) == if indent == 0 then oi + Text(v, indent) + "\n" else oi + Text(v, indent)
  {
    hide Text;
    assert Text(v, indent) + "" == Text(v, indent);
    assert oi + (Text(v, indent) + "\n") == oi + Text(v, indent) + "\n";
  }

  /** `value::_serialize`. */
  method SerializeValue(v: Value, oi: string, indent: int) returns (out: string)
    requires -1 <= indent
    ensures out == oi + Serialized(v, indent)
    decreases v, 1
  {
    TextCases(v, indent);
    SerializedJoins(oi, v, indent);
    hide Text, Serialized, QuotedText, AtomText;
    match v {
      case Str(s) =>
        out := SerializeStr(s, oi);
      case Arr(items) =>
        out := SerializeArray(items, oi, indent);
      case Obj(fields) =>
        out := SerializeObject(fields, oi, indent);
      case _ =>
        out := oi + AtomText(v);
    }
    if indent == 0 {
      out := out + "\n";
    }
  }

  method SerializeArray(items: seq<Value>, oi: string, indent: int) returns (out: string)
    requires -1 <= indent
    ensures out == oi + Text(Arr(items), indent)
    decreases items, 0
  {
    hide *;
    out := oi + "[";
    ghost var done := "";
    var depth := if indent != -1 then indent + 1 else indent;
    NoText(depth);
    assert items[0..] == items;
    for i := 0 to |items|
      invariant out == oi + ("[" + done)
      invariant done + ItemsText(items[i..], depth, i == 0) == ItemsText(items, depth, true)
    {
      ItemsTextStep(items, i, depth);
      ghost var before := out;
      out := StartItem(out, depth, i == 0);
      out := SerializeValue(items[i], out, depth);
      ghost var piece := ItemStart(depth, i == 0) + Serialized(items[i], depth);
      assert out == before + piece;
      done := done + piece;
    }
    assert items[|items|..] == [];
    ArrText(items, indent);
    if indent != -1 && items != [] {
      out := Indent(out, indent);
    }
    out := out + "]";
  }

  method SerializeKey(key: string, oi: string, indent: int, first: bool) returns (out: string)
    requires -1 <= indent
    ensures out == oi + KeyText(key, indent, first)
  {
    hide Indentation, QuotedText;
    out := StartItem(oi, indent, first);
    out := SerializeStr(key, out);
    out := out + ":";
    if indent != -1 {
      out := out + " ";
    }
  }

  method SerializeObject(fields: seq<Entry<Value>>, oi: string, indent: int) returns (out: string)
    requires -1 <= indent
    ensures out == oi + Text(Obj(fields), indent)
    decreases fields, 0
  {
    hide *;
    out := oi + "{";
    ghost var done := "";
    var depth := if indent != -1 then indent + 1 else indent;
    NoText(depth);
    assert fields[0..] == fields;
    for i := 0 to |fields|
      invariant out == oi + ("{" + done)
      invariant done + FieldsText(fields[i..], depth, i == 0) == FieldsText(fields, depth, true)
    {
      FieldsTextStep(fields, i, depth);
      ghost var before := out;
      out := SerializeKey(fields[i].key, out, depth, i == 0);
      out := SerializeValue(fields[i].value, out, depth);
      ghost var piece := KeyText(fields[i].key, depth, i == 0) + Serialized(fields[i].value, depth);
      assert out == before + piece;
      done := done + piece;
    }
    assert fields[|fields|..] == [];
    ObjText(fields, indent);
    if indent != -1 && fields != [] {
      out := Indent(out, indent);
    }
    out := out + "}";
  }

  /** `value::serialize(bool)`. */
  method SerializeToString(v: Value, prettify: bool) returns (out: string)
    ensures out == Serialize(v, prettify)
  {
    out := SerializeValue(v, "", if prettify then 0 else -1);
  }
}
