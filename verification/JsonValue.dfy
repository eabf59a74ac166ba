/** JSON values and the text picojson writes for them. */
module JsonValue {
  import opened Basics
  import opened OrderedMap

  /** `picojson::value`. A number that is no `int64_t` literal keeps its literal's text. */
  datatype Value =
    | Null
    | Bool(b: bool)
    | Int(n: int64)
    | Double(text: string)
    | Str(s: string)
    | Arr(items: seq<Value>)
    | Obj(fields: seq<Entry<Value>>)

  /** A value without doubles, whose objects are in `std::map` order. */
  predicate Plain(v: Value) {
    match v
    case Double(_) => false
    case Arr(items) => forall i :: 0 <= i < |items| ==> Plain(items[i])
    case Obj(fields) => Ascending(fields) && forall i :: 0 <= i < |fields| ==> Plain(fields[i].value)
    case _ => true
  }

  /** Every string of the value is made of bytes. */
  predicate ByteValue(v: Value) {
    match v
    case Double(text) => IsBytes(text)
    case Str(s) => IsBytes(s)
    case Arr(items) => forall i :: 0 <= i < |items| ==> ByteValue(items[i])
    case Obj(fields) =>
      forall i :: 0 <= i < |fields| ==> IsBytes(fields[i].key) && ByteValue(fields[i].value)
    case _ => true
  }

  // ----- The serialiser's text -----

  const INDENT_WIDTH: nat := 2

  function HexDigit(n: nat): char
    requires n < 16
  {
    if n < 10 then ('0' as int + n) as char else ('a' as int + n - 10) as char
  }

  /** One character of a string literal. */
  function EscapeChar(c: char): (r: string)
    ensures r != ""
  {
    if c == '"' then "\\\""
    else if c == '\\' then "\\\\"
    else if c == '/' then "\\/"
    else if c == '\U{8}' then "\\b"
    else if c == '\U{C}' then "\\f"
    else if c == '\n' then "\\n"
    else if c == '\r' then "\\r"
    else if c == '\t' then "\\t"
    else if c < ' ' || c == '\U{7F}' then
      "\\u00" + [HexDigit(c as int / 16), HexDigit(c as int % 16)]
    else [c]
  }

  function EscapeChars(s: string): string {
    if s == "" then "" else EscapeChar(s[0]) + EscapeChars(s[1..])
  }

  function QuotedText(s: string): string {
    "\"" + EscapeChars(s) + "\""
  }

  /** `%PRId64`. */
  function IntText(n: int): (s: string)
    ensures s != "" && (s[0] == '-' || IsDigit(s[0]))
  {
    if n < 0 then "-" + Decimal(-n) else Decimal(n)
  }

  /** `value::to_str` for the values `_serialize` passes to it. */
  function AtomText(v: Value): string
    requires !v.Str? && !v.Arr? && !v.Obj?
  {
    match v
    case Null => "null"
    case Bool(b) => if b then "true" else "false"
    case Int(n) => IntText(n)
    case Double(text) => text
  }

  function Indentation(indent: int): string
    requires -1 <= indent
  {
    if indent == -1 then "" else "\n" + seq(indent * INDENT_WIDTH, _ => ' ')
  }

  function Deeper(indent: int): (r: int)
    requires -1 <= indent
    ensures -1 <= r && r != 0
  {
    if indent == -1 then -1 else indent + 1
  }

  /** The text of `v` up to its last character, without the newline that ends a document. */
  function Text(v: Value, indent: int): string
    requires -1 <= indent
    decreases v, 0
  {
    match v
    case Str(s) => QuotedText(s)
    case Arr(items) =>
      "[" + ItemsText(items, Deeper(indent), true)
      + (if items == [] then "" else Indentation(indent)) + "]"
    case Obj(fields) =>
      "{" + FieldsText(fields, Deeper(indent), true)
      + (if fields == [] then "" else Indentation(indent)) + "}"
    case _ => AtomText(v)
  }

  function Serialized(v: Value, indent: int): string
    requires -1 <= indent
    decreases v, 1
  {
    Text(v, indent) + if indent == 0 then "\n" else ""
  }

  function ItemStart(indent: int, first: bool): string
    requires -1 <= indent
  {
    (if first then "" else ",") + Indentation(indent)
  }

  function ItemsText(items: seq<Value>, indent: int, first: bool): string
    requires -1 <= indent
    decreases items, 2
  {
    if items == [] then ""
    else ItemStart(indent, first) + Serialized(items[0], indent)
         + ItemsText(items[1..], indent, false)
  }

  /** What comes before a member's value. */
  function KeyText(key: string, indent: int, first: bool): string
    requires -1 <= indent
  {
    ItemStart(indent, first) + QuotedText(key) + (if indent == -1 then ":" else ": ")
  }

  function FieldsText(fields: seq<Entry<Value>>, indent: int, first: bool): string
    requires -1 <= indent
    decreases fields, 2
  {
    if fields == [] then ""
    else KeyText(fields[0].key, indent, first) + Serialized(fields[0].value, indent)
         + FieldsText(fields[1..], indent, false)
  }

  /** `value::serialize(prettify)`. */
  function Serialize(v: Value, prettify: bool): string {
    Serialized(v, if prettify then 0 else -1)
  }
}
