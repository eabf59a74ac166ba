/** Parsing undoes serialising, and the recogniser agrees with the builder. */
module JsonLaws {
  import opened Basics
  import opened OrderedMap
  import opened JsonValue
  import opened JsonParse

  // ----- Strings -----

  lemma ControlCodeParses(c: char, rest: string)
    requires c as int < 0x80
    ensures CodePoint(['0', '0', HexDigit(c as int / 16), HexDigit(c as int % 16)] + rest) == Ok([c], rest)
  {
    var h, l := HexDigit(c as int / 16), HexDigit(c as int % 16);
    var t := ['0', '0', h, l] + rest;
    assert t[1..] == ['0', h, l] + rest;
    assert t[1..][1..] == [h, l] + rest;
    assert t[1..][1..][1..] == [l] + rest;
    assert t[1..][1..][1..][1..] == rest;
    assert HexValue(h) == c as int / 16 && HexValue(l) == c as int % 16;
    assert QuadHex(t, 4, 0) == QuadHex(t[1..], 3, 0) == QuadHex(t[1..][1..], 2, 0);
    assert QuadHex(t[1..][1..], 2, 0) == QuadHex(t[1..][1..][1..], 1, HexValue(h));
    assert QuadHex(t[1..][1..][1..], 1, HexValue(h)) == QuadHex(rest, 0, c as int);
  }

  lemma ControlCharParses(c: char, rest: string)
    requires |EscapeChar(c)| == 6
    ensures ParseString(EscapeChar(c) + rest) == Prepend([c], ParseString(rest))
  {
    var t := ['0', '0', HexDigit(c as int / 16), HexDigit(c as int % 16)] + rest;
    ControlCodeParses(c, rest);
    hide CodePoint, SimpleEscape;
    assert EscapeChar(c) + rest == "\\u" + t;
    assert ("\\u" + t)[2..] == t;
  }

  lemma EscapeForms(c: char)
    ensures var e := EscapeChar(c);
            && (|e| == 1 ==> e == [c] && c >= ' ' && c != '"' && c != '\\')
            && (|e| == 2 ==> e[0] == '\\' && SimpleEscape(e[1]) == Some(c))
            && (|e| == 1 || |e| == 2 || |e| == 6)
  {
  }

  lemma PlainCharParses(c: char, rest: string)
    requires c >= ' ' && c != '"' && c != '\\'
    ensures ParseString([c] + rest) == Prepend([c], ParseString(rest))
  {
    hide CodePoint, SimpleEscape;
    assert ([c] + rest)[1..] == rest;
  }

  lemma ShortEscapeParses(e: string, c: char, rest: string)
    requires |e| == 2 && e[0] == '\\' && SimpleEscape(e[1]) == Some(c)
    ensures ParseString(e + rest) == Prepend([c], ParseString(rest))
  {
    hide CodePoint, SimpleEscape;
    assert (e + rest)[2..] == rest && (e + rest)[1] == e[1];
  }

  lemma EscapedCharParses(c: char, rest: string)
    ensures ParseString(EscapeChar(c) + rest) == Prepend([c], ParseString(rest))
  {
    EscapeForms(c);
    var e := EscapeChar(c);
    hide *;
    if |e| == 1 {
      PlainCharParses(c, rest);
    } else if |e| == 2 {
      ShortEscapeParses(e, c, rest);
    } else {
      ControlCharParses(c, rest);
    }
  }

  lemma EscapeCharsHead(s: string, end: string)
    requires s != ""
    ensures EscapeChars(s) + end == EscapeChar(s[0]) + (EscapeChars(s[1..]) + end)
  {
    hide EscapeChar;
  }

  lemma ConcatAssociative(a: string, b: string, c: string)
    ensures a + b + c == a + (b + c)
  {
  }

  lemma LiteralEnds(rest: string)
    ensures ParseString(EscapeChars("") + "\"" + rest) == Ok("", rest)
  {
    assert EscapeChars("") + "\"" + rest == "\"" + rest;
    assert ("\"" + rest)[1..] == rest;
  }

  lemma PrependHead(s: string, rest: string)
    requires s != ""
    ensures Prepend([s[0]], Ok(s[1..], rest)) == Ok(s, rest)
  {
    assert s == [s[0]] + s[1..];
  }

  lemma {:induction false} EscapedCharsParse(s: string, rest: string)
    ensures ParseString(EscapeChars(s) + "\"" + rest) == Ok(s, rest)
  {
    hide *;
    if s == "" {
      LiteralEnds(rest);
    } else {
      EscapeCharsHead(s, "\"" + rest);
      ConcatAssociative(EscapeChars(s), "\"", rest);
      ConcatAssociative(EscapeChars(s[1..]), "\"", rest);
      EscapedCharsParse(s[1..], rest);
      EscapedCharParses(s[0], EscapeChars(s[1..]) + ("\"" + rest));
      PrependHead(s, rest);
    }
  }

  // ----- Numbers -----

  /** What follows a value does not look like more of a number. */
  predicate EndsNumber(rest: string) {
    rest == "" || !IsNumberChar(rest[0])
  }

  lemma {:induction false} NumberSpanSplits(text: string, rest: string)
    requires forall i :: 0 <= i < |text| ==> IsNumberChar(text[i])
    requires EndsNumber(rest)
    ensures NumberSpan(text + rest) == (text, rest)
  {
    if text == "" {
      assert text + rest == rest;
    } else {
      assert (text + rest)[1..] == text[1..] + rest;
      NumberSpanSplits(text[1..], rest);
      assert [text[0]] + text[1..] == text;
    }
  }

  lemma IntTextParses(n: int64)
    ensures ParseInt(IntText(n)) == Some(n)
    ensures forall i :: 0 <= i < |IntText(n)| ==> IsNumberChar(IntText(n)[i])
  {
    var magnitude: int := if n < 0 then -(n as int) else n;
    DecimalValueOfDecimal(magnitude);
    assert IntText(n) == if n < 0 then "-" + Decimal(magnitude) else Decimal(magnitude);
    if n < 0 {
      assert IntText(n)[1..] == Decimal(magnitude);
    } else {
      assert IsDigit(Decimal(magnitude)[0]);
    }
  }

  // ----- White space -----

  lemma {:induction false} SkipSpaces(n: nat, s: string)
    ensures SkipSpace(seq(n, _ => ' ') + s) == SkipSpace(s)
  {
    if n == 0 {
      assert seq(n, _ => ' ') + s == s;
    } else {
      assert (seq(n, _ => ' ') + s)[1..] == seq(n - 1, _ => ' ') + s;
      SkipSpaces(n - 1, s);
    }
  }

  lemma SkipIndentation(indent: int, s: string)
    requires -1 <= indent
    ensures SkipSpace(Indentation(indent) + s) == SkipSpace(s)
  {
    if indent == -1 {
      assert Indentation(indent) + s == s;
    } else {
      var n := indent * INDENT_WIDTH;
      assert (Indentation(indent) + s)[1..] == seq(n, _ => ' ') + s;
      SkipSpaces(n, s);
    }
  }

  lemma ParseValueSkips(s: string, t: string)
    requires SkipSpace(s) == SkipSpace(t)
    ensures ParseValue(s) == ParseValue(t)
  {}

  // ----- The round trip -----

  lemma TextStarts(v: Value, indent: int)
    requires -1 <= indent && Plain(v)
    ensures var t := Text(v, indent);
            t != "" && !IsSpace(t[0]) && t[0] != ']' && t[0] != '}'
  {}

  lemma {:induction false} MatchParses(pattern: string, rest: string)
    ensures Match(pattern + rest, pattern) == (true, rest)
  {
    if pattern == "" {
      assert pattern + rest == rest;
    } else {
      assert (pattern + rest)[1..] == pattern[1..] + rest;
      MatchParses(pattern[1..], rest);
    }
  }

  // The proofs below see `ParseValue` only through these cases.

  lemma ParseLiteral(s: string, v: Value, rest: string)
    requires || (v == Null && s == "null" + rest)
             || (v == Bool(true) && s == "true" + rest)
             || (v == Bool(false) && s == "false" + rest)
    ensures ParseValue(s) == Ok(v, rest)
  {
    var word := if v == Null then "ull" else if v == Bool(true) then "rue" else "alse";
    assert s[1..] == word + rest;
    MatchParses(word, rest);
  }

  lemma ParseQuoted(s: string, t: string)
    requires s == "\"" + t
    ensures ParseValue(s) == (var r := ParseString(t); if r.Ok? then Ok(Str(r.value), r.rest) else Fail(r.rest))
  {
    assert s[1..] == t;
  }

  lemma ParseNumeral(s: string)
    requires s != "" && StartsNumber(s[0])
    ensures ParseValue(s) == ParseNumber(s)
  {
    hide ParseNumber, ParseArray, ParseObject, ParseString, Word;
  }

  lemma ParseItemsSkips(s: string, t: string, items: seq<Value>)
    requires SkipSpace(s) == SkipSpace(t)
    ensures ParseItems(s, items) == ParseItems(t, items)
  {
    ParseValueSkips(s, t);
  }

  lemma ParseBracket(s: string, body: string, items: seq<Value>, rest: string)
    requires s == "[" + body && SkipSpace(body) != "" && SkipSpace(body)[0] != ']'
    requires ParseItems(body, []) == Ok(items, rest)
    ensures ParseValue(s) == Ok(Arr(items), rest)
  {
    assert ParseArray(body) == Ok(Arr(items), rest) by {
      ParseItemsSkips(body, SkipSpace(body), []);
      hide ParseItems;
    }
    hide ParseNumber, ParseArray, ParseObject, ParseString, Word, Expect;
    assert s[1..] == body;
  }

  lemma ParseFieldsSkips(s: string, t: string, fields: seq<Entry<Value>>)
    requires SkipSpace(s) == SkipSpace(t)
    ensures ParseFields(s, fields) == ParseFields(t, fields)
  {}

  lemma BodyParses(body: string, fields: seq<Entry<Value>>, rest: string)
    requires SkipSpace(body) != "" && SkipSpace(body)[0] != '}'
    requires ParseFields(body, []) == Ok(fields, rest)
    ensures ParseObject(body) == Ok(Obj(fields), rest)
  {
    ParseFieldsSkips(body, SkipSpace(body), []);
    hide ParseFields;
  }

  lemma BraceFirst(s: string, body: string)
    requires s == "{" + body
    ensures s != "" && s[0] == '{' && s[1..] == body && SkipSpace(s) == s
  {
  }

  lemma BraceOpens(s: string)
    requires s != "" && s[0] == '{' && SkipSpace(s) == s
    ensures ParseValue(s) == ParseObject(s[1..])
  {
    hide SkipSpace, ParseNumber, ParseArray, ParseObject, ParseString, Word;
  }

  lemma ParseBrace(s: string, body: string, fields: seq<Entry<Value>>, rest: string)
    requires s == "{" + body && SkipSpace(body) != "" && SkipSpace(body)[0] != '}'
    requires ParseFields(body, []) == Ok(fields, rest)
    ensures ParseValue(s) == Ok(Obj(fields), rest)
  {
    BodyParses(body, fields, rest);
    BraceFirst(s, body);
    hide *;
    BraceOpens(s);
  }

  lemma ParseEmpty(rest: string)
    ensures ParseValue("[]" + rest) == Ok(Arr([]), rest)
    ensures ParseValue("{}" + rest) == Ok(Obj([]), rest)
  {
    assert ("[]" + rest)[1..] == "]" + rest && ("{}" + rest)[1..] == "}" + rest;
    assert ("]" + rest)[1..] == rest && ("}" + rest)[1..] == rest;
  }

  lemma IntParses(n: int64, rest: string)
    requires EndsNumber(rest)
    ensures ParseValue(IntText(n) + rest) == Ok(Int(n), rest)
  {
    hide ParseValue, ParseInt;
    ParseNumeral(IntText(n) + rest);
    IntTextParses(n);
    NumberSpanSplits(IntText(n), rest);
  }

  lemma StringParses(s: string, rest: string)
    ensures ParseValue(QuotedText(s) + rest) == Ok(Str(s), rest)
  {
    hide ParseValue, ParseString;
    assert QuotedText(s) + rest == "\"" + (EscapeChars(s) + "\"" + rest);
    ParseQuoted(QuotedText(s) + rest, EscapeChars(s) + "\"" + rest);
    EscapedCharsParse(s, rest);
  }

  lemma AtomParses(v: Value, indent: int, rest: string)
    requires -1 <= indent && Plain(v) && !v.Arr? && !v.Obj? && EndsNumber(rest)
    ensures ParseValue(Text(v, indent) + rest) == Ok(v, rest)
  {
    hide ParseValue;
    if v.Int? {
      IntParses(v.n, rest);
    } else if v.Str? {
      StringParses(v.s, rest);
    } else {
      ParseLiteral(Text(v, indent) + rest, v, rest);
    }
  }

  /** A value's text parses to the value and leaves exactly what follows it. */
  lemma {:induction false} TextParses(v: Value, indent: int, rest: string)
    requires -1 <= indent && Plain(v) && EndsNumber(rest)
    ensures ParseValue(Text(v, indent) + rest) == Ok(v, rest)
    decreases v, 0
  {
    hide *;
    if v.Arr? {
      ArrayParses(v.items, indent, rest);
    } else if v.Obj? {
      ObjectParses(v.fields, indent, rest);
    } else {
      AtomParses(v, indent, rest);
    }
  }

  /** The end of an array or an object: the closing line's indentation and its bracket. */
  function Closing(indent: int, bracket: char, rest: string): string
    requires -1 <= indent
  {
    Indentation(indent) + [bracket] + rest
  }

  lemma ClosingExpected(indent: int, bracket: char, rest: string)
    requires -1 <= indent && (bracket == ']' || bracket == '}')
    ensures Expect(Closing(indent, bracket, rest), ',') == (false, [bracket] + rest)
    ensures Expect([bracket] + rest, bracket) == (true, rest)
    ensures EndsNumber(Closing(indent, bracket, rest))
  {
    SkipIndentation(indent, [bracket] + rest);
    assert Closing(indent, bracket, rest) == Indentation(indent) + ([bracket] + rest);
    assert ([bracket] + rest)[1..] == rest;
  }

  lemma CommaFirst(a: string, b: string, c: string)
    ensures "," + a + b + c == "," + (a + b + c)
  {}

  /** All items but the first are their own text behind a comma. */
  lemma ItemsTextComma(items: seq<Value>, indent: int)
    requires -1 <= indent && items != []
    ensures ItemsText(items, indent, false) == "," + ItemsText(items, indent, true)
  {
    assert ItemStart(indent, false) == "," + ItemStart(indent, true);
    CommaFirst(ItemStart(indent, true), Serialized(items[0], indent), ItemsText(items[1..], indent, false));
    hide Serialized, Indentation, ItemStart;
  }

  lemma KeyTextComma(key: string, indent: int)
    requires -1 <= indent
    ensures KeyText(key, indent, false) == "," + KeyText(key, indent, true)
  {
    hide QuotedText, Indentation;
  }

  lemma FieldsTextComma(fields: seq<Entry<Value>>, indent: int)
    requires -1 <= indent && fields != []
    ensures FieldsText(fields, indent, false) == "," + FieldsText(fields, indent, true)
  {
    KeyTextComma(fields[0].key, indent);
    var rest := FieldsText(fields[1..], indent, false);
    CommaFirst(KeyText(fields[0].key, indent, true), Serialized(fields[0].value, indent), rest);
    hide KeyText, Serialized;
  }

  /** The first item, and what comes after its text. */
  lemma ItemsTextHead(items: seq<Value>, depth: int, end: string)
    requires -1 <= depth && depth != 0 && items != []
    ensures ItemsText(items, depth, true) + end
         == Indentation(depth) + (Text(items[0], depth) + (ItemsText(items[1..], depth, false) + end))
  {
    hide Text;
    assert ItemStart(depth, true) == Indentation(depth);
  }

  lemma NoItems(depth: int)
    requires -1 <= depth
    ensures forall first :: ItemsText([], depth, first) == "" && FieldsText([], depth, first) == ""
  {}

  lemma CommaTail(x: string, end: string)
    ensures EndsNumber("," + x + end)
    ensures Expect("," + x + end, ',') == (true, x + end)
  {
    assert ("," + x + end)[1..] == x + end;
  }

  lemma AfterItem(items: seq<Value>, depth: int, end: string)
    requires -1 <= depth && EndsNumber(end)
    ensures var tail := ItemsText(items, depth, false) + end;
            && EndsNumber(tail)
            && (items == [] ==> tail == end)
            && (items != [] ==> Expect(tail, ',') == (true, ItemsText(items, depth, true) + end))
  {
    NoItems(depth);
    if items != [] {
      ItemsTextComma(items, depth);
      CommaTail(ItemsText(items, depth, true), end);
    }
    hide *;
    assert "" + end == end;
  }

  lemma {:induction false} ItemsParse(items: seq<Value>, done: seq<Value>, depth: int, indent: int, rest: string)
    requires -1 <= depth && depth != 0 && -1 <= indent
    requires items != [] && Plain(Arr(items))
    ensures ParseItems(ItemsText(items, depth, true) + Closing(indent, ']', rest), done)
         == Ok(done + items, rest)
    decreases items, 1
  {
    hide ParseValue, ItemsText, Text, Closing, SkipSpace, Expect, Indentation;
    var end := Closing(indent, ']', rest);
    var tail := ItemsText(items[1..], depth, false) + end;
    ClosingExpected(indent, ']', rest);
    AfterItem(items[1..], depth, end);
    ItemsTextHead(items, depth, end);
    TextParses(items[0], depth, tail);
    SkipIndentation(depth, Text(items[0], depth) + tail);
    ParseValueSkips(ItemsText(items, depth, true) + end, Text(items[0], depth) + tail);
    if items[1..] == [] {
      assert done + items == done + [items[0]];
    } else {
      assert done + [items[0]] + items[1..] == done + items;
      ItemsParse(items[1..], done + [items[0]], depth, indent, rest);
    }
  }

  lemma BracketsJoin(open: string, body: string, gap: string, close: string, rest: string)
    ensures open + body + gap + close + rest == open + (body + (gap + close + rest))
    ensures open + "" + "" + close == open + close
  {
  }

  lemma ArrayText(items: seq<Value>, indent: int, rest: string)
    requires -1 <= indent
    ensures Text(Arr(items), indent) + rest
         == if items == [] then "[]" + rest
            else "[" + (ItemsText(items, Deeper(indent), true) + Closing(indent, ']', rest))
  {
    NoItems(Deeper(indent));
    hide ItemsText, Indentation;
    BracketsJoin("[", ItemsText(items, Deeper(indent), true), Indentation(indent), "]", rest);
  }

  lemma SkipNothing(s: string)
    requires s != "" && !IsSpace(s[0])
    ensures SkipSpace(s) == s
  {}

  lemma ArrayParses(items: seq<Value>, indent: int, rest: string)
    requires -1 <= indent && Plain(Arr(items))
    ensures ParseValue(Text(Arr(items), indent) + rest) == Ok(Arr(items), rest)
    decreases items, 2
  {
    hide ParseValue, ParseItems, ItemsText, SkipSpace, Text, Closing, Indentation;
    ArrayText(items, indent, rest);
    if items == [] {
      ParseEmpty(rest);
    } else {
      var depth := Deeper(indent);
      var end := Closing(indent, ']', rest);
      var first := Text(items[0], depth) + (ItemsText(items[1..], depth, false) + end);
      assert [] + items == items;
      ItemsParse(items, [], depth, indent, rest);
      ItemsTextHead(items, depth, end);
      TextStarts(items[0], depth);
      SkipIndentation(depth, first);
      SkipNothing(first);
      ParseBracket(Text(Arr(items), indent) + rest, ItemsText(items, depth, true) + end, items, rest);
    }
  }

  lemma FieldsTextHead(fields: seq<Entry<Value>>, depth: int, end: string)
    requires -1 <= depth && depth != 0 && fields != []
    ensures FieldsText(fields, depth, true) + end
         == KeyText(fields[0].key, depth, true)
            + (Text(fields[0].value, depth) + (FieldsText(fields[1..], depth, false) + end))
  {
    hide Text, KeyText;
  }

  lemma KeyParses(key: string, depth: int, t: string)
    requires -1 <= depth
    ensures ParseKey(KeyText(key, depth, true) + t) == Ok(key, (if depth == -1 then "" else " ") + t)
    ensures SkipSpace(KeyText(key, depth, true) + t) != ""
    ensures SkipSpace(KeyText(key, depth, true) + t)[0] == '"'
  {
    hide ParseString, EscapeChars, Indentation;
    var gap := if depth == -1 then "" else " ";
    var quoted := "\"" + (EscapeChars(key) + "\"" + (":" + gap + t));
    assert KeyText(key, depth, true) + t == Indentation(depth) + quoted;
    SkipIndentation(depth, quoted);
    EscapedCharsParse(key, ":" + gap + t);
    assert quoted[1..] == EscapeChars(key) + "\"" + (":" + gap + t);
    assert (":" + gap + t)[1..] == gap + t;
  }

  lemma AfterField(fields: seq<Entry<Value>>, depth: int, end: string)
    requires -1 <= depth && EndsNumber(end)
    ensures var tail := FieldsText(fields, depth, false) + end;
            && EndsNumber(tail)
            && (fields == [] ==> tail == end)
            && (fields != [] ==> Expect(tail, ',') == (true, FieldsText(fields, depth, true) + end))
  {
    NoItems(depth);
    if fields != [] {
      FieldsTextComma(fields, depth);
      CommaTail(FieldsText(fields, depth, true), end);
    }
    hide *;
    assert "" + end == end;
  }

  /** A member whose key is above all those parsed so far is stored last. */
  lemma NextField(done: seq<Entry<Value>>, fields: seq<Entry<Value>>)
    requires fields != [] && Ascending(done + fields)
    ensures Put(done, fields[0].key, fields[0].value) == done + [fields[0]]
  {
    forall i | 0 <= i < |done| ensures Less(done[i].key, fields[0].key) {
      AscendingPair(done + fields, i, |done|);
    }
    PutLast(done, fields[0].key, fields[0].value);
  }

  lemma SkipGap(gap: string, s: string)
    requires gap == "" || gap == " "
    ensures SkipSpace(gap + s) == SkipSpace(s)
  {
    if gap == "" {
      assert gap + s == s;
    } else {
      assert (gap + s)[1..] == s;
    }
  }

  /** One turn of the loop over an object's members. */
  lemma FieldParses(
    done: seq<Entry<Value>>, field: Entry<Value>, depth: int, tail: string)
    requires -1 <= depth
    requires ParseValue(Text(field.value, depth) + tail) == Ok(field.value, tail)
    ensures var s := KeyText(field.key, depth, true) + (Text(field.value, depth) + tail);
            && ParseKey(s).Ok? && ParseKey(s).value == field.key
            && ParseValue(ParseKey(s).rest) == Ok(field.value, tail)
  {
    hide *;
    var valued := Text(field.value, depth) + tail;
    var gap := if depth == -1 then "" else " ";
    KeyParses(field.key, depth, valued);
    SkipGap(gap, valued);
    ParseValueSkips(gap + valued, valued);
  }

  lemma {:induction false} FieldsParse(
    fields: seq<Entry<Value>>, done: seq<Entry<Value>>, depth: int, indent: int, rest: string)
    requires -1 <= depth && depth != 0 && -1 <= indent
    requires fields != [] && Plain(Obj(fields)) && Ascending(done + fields)
    ensures ParseFields(FieldsText(fields, depth, true) + Closing(indent, '}', rest), done)
         == Ok(done + fields, rest)
    decreases fields, 1
  {
    hide ParseValue, ParseKey, Put, FieldsText, KeyText, Text, Closing, Less, SkipSpace, Expect;
    var end := Closing(indent, '}', rest);
    var tail := FieldsText(fields[1..], depth, false) + end;
    ClosingExpected(indent, '}', rest);
    AfterField(fields[1..], depth, end);
    FieldsTextHead(fields, depth, end);
    TextParses(fields[0].value, depth, tail);
    FieldParses(done, fields[0], depth, tail);
    NextField(done, fields);
    if fields[1..] == [] {
      assert done + fields == done + [fields[0]];
    } else {
      assert done + [fields[0]] + fields[1..] == done + fields;
      FieldsParse(fields[1..], done + [fields[0]], depth, indent, rest);
    }
  }

  lemma ObjectText(fields: seq<Entry<Value>>, indent: int, rest: string)
    requires -1 <= indent
    ensures Text(Obj(fields), indent) + rest
         == if fields == [] then "{}" + rest
            else "{" + (FieldsText(fields, Deeper(indent), true) + Closing(indent, '}', rest))
  {
    NoItems(Deeper(indent));
    hide FieldsText, Indentation;
    BracketsJoin("{", FieldsText(fields, Deeper(indent), true), Indentation(indent), "}", rest);
  }

  lemma ObjectParses(fields: seq<Entry<Value>>, indent: int, rest: string)
    requires -1 <= indent && Plain(Obj(fields))
    ensures ParseValue(Text(Obj(fields), indent) + rest) == Ok(Obj(fields), rest)
    decreases fields, 2
  {
    hide ParseValue, ParseFields, FieldsText, KeyText, SkipSpace, Text, Closing;
    ObjectText(fields, indent, rest);
    if fields == [] {
      ParseEmpty(rest);
    } else {
      var depth := Deeper(indent);
      var end := Closing(indent, '}', rest);
      assert [] + fields == fields;
      FieldsParse(fields, [], depth, indent, rest);
      FieldsTextHead(fields, depth, end);
      KeyParses(fields[0].key, depth, Text(fields[0].value, depth) + (FieldsText(fields[1..], depth, false) + end));
      ParseBrace(Text(Obj(fields), indent) + rest, FieldsText(fields, depth, true) + end, fields, rest);
    }
  }

  /**
   The document law: parsing a serialised document, compact or prettified, rebuilds the
   value and stops at its last character; only the newline that ends a prettified
   document is left before whatever follows.
   */
  lemma DocumentRoundTrip(v: Value, prettify: bool, rest: string)
    requires Plain(v)
    requires prettify || EndsNumber(rest)
    ensures ParseValue(Serialize(v, prettify) + rest)
         == Ok(v, (if prettify then "\n" else "") + rest)
  {
    var indent := if prettify then 0 else -1;
    var end := (if prettify then "\n" else "") + rest;
    hide Text, ParseValue;
    TextParses(v, indent, end);
    assert Serialize(v, prettify) + rest == Text(v, indent) + end;
  }

  /** Different values have different texts. */
  lemma SerializeInjective(v: Value, w: Value, prettify: bool)
    requires Plain(v) && Plain(w)
    requires Serialize(v, prettify) == Serialize(w, prettify)
    ensures v == w
  {
    DocumentRoundTrip(v, prettify, "");
    DocumentRoundTrip(w, prettify, "");
  }

  // ----- The recogniser -----

  lemma NumberRecogniserAgrees(s: string)
    requires s != "" && StartsNumber(s[0])
    ensures !ParseNumber(s).Throws? ==> RecogniseNumber(s) == Forget(ParseNumber(s))
  {
    hide ParseInt, ParseDouble, Overflows;
  }

  /**
   Both contexts accept or reject alike and leave the same input, on every text but
   those where a number too large for a double makes the builder throw.
   */
  lemma {:induction false} RecogniserAgrees(s: string)
    ensures !ParseValue(s).Throws? ==> Recognise(s) == Forget(ParseValue(s))
    decreases |s|, 0
  {
    hide ParseArray, ParseObject, RecogniseArray, RecogniseObject, ParseNumber, RecogniseNumber,
      ParseString;
    var t := SkipSpace(s);
    if t != "" && t[0] == '[' {
      ArrayRecogniserAgrees(t[1..]);
    } else if t != "" && t[0] == '{' {
      ObjectRecogniserAgrees(t[1..]);
    } else if t != "" && StartsNumber(t[0]) {
      NumberRecogniserAgrees(t);
    }
  }

  lemma {:induction false} ArrayRecogniserAgrees(s: string)
    ensures !ParseArray(s).Throws? ==> RecogniseArray(s) == Forget(ParseArray(s))
    decreases |s|, 2
  {
    hide ParseItems, RecogniseItems;
    var (closed, u) := Expect(s, ']');
    if !closed {
      ItemsRecogniserAgrees(u, []);
    }
  }

  lemma {:induction false} ObjectRecogniserAgrees(s: string)
    ensures !ParseObject(s).Throws? ==> RecogniseObject(s) == Forget(ParseObject(s))
    decreases |s|, 2
  {
    hide ParseFields, RecogniseFields;
    var (closed, u) := Expect(s, '}');
    if !closed {
      FieldsRecogniserAgrees(u, []);
    }
  }

  lemma {:induction false} ItemsRecogniserAgrees(s: string, items: seq<Value>)
    ensures !ParseItems(s, items).Throws? ==> RecogniseItems(s) == Forget(ParseItems(s, items))
    decreases |s|, 1
  {
    hide ParseValue, Recognise;
    RecogniserAgrees(s);
    var v := ParseValue(s);
    if v.Ok? {
      var (more, t) := Expect(v.rest, ',');
      if more {
        ItemsRecogniserAgrees(t, items + [v.value]);
      }
    }
  }

  lemma {:induction false} FieldsRecogniserAgrees(s: string, fields: seq<Entry<Value>>)
    ensures !ParseFields(s, fields).Throws?
            ==> RecogniseFields(s) == Forget(ParseFields(s, fields))
    decreases |s|, 1
  {
    hide ParseValue, Recognise;
    var key := ParseKey(s);
    if key.Ok? {
      RecogniserAgrees(key.rest);
      var v := ParseValue(key.rest);
      if v.Ok? {
        var (more, t) := Expect(v.rest, ',');
        if more {
          FieldsRecogniserAgrees(t, Put(fields, key.value, v.value));
        }
      }
    }
  }
}
