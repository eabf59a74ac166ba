/** The classes of characters the parsers go by, written out character by character. */
module Characters {
  import opened Basics
  import JsonParse
  import HttpParser
  import HttpGrammar
  import HttpData
  import ConfigLexer

  lemma Digits(c: char)
    ensures c in DIGITS <==> IsDigit(c)
  {
    DigitPlace(c);
  }

  // ----- Requests -----

  /** tchar (section 3.2.6 of RFC 7230). */
  predicate IsTchar(c: char) {
    c in LOWER || c in UPPER || c in DIGITS || c in "!#$%&'*+-.^_`|~"
  }

  /** Method and header names are tokens of RFC 7230. */
  lemma TokenChars(c: char)
    ensures HttpParser.IsTokenChar(c) <==> IsTchar(c)
  {
    LowerLetters(c);
    UpperLetters(c);
    Digits(c);
    hide LOWER, UPPER, DIGITS;
  }

  /** The characters that no URI, header value or folded line may hold. */
  lemma ControlChars(c: char)
    ensures HttpParser.IsCtl(c) <==> c as int < 32 || c as int == 127
    ensures HttpGrammar.IsBlankChar(c) <==> c in " \t"
  {
  }

  /** `isspace`, which `stoi` and `>>` skip. */
  lemma SpaceChars(c: char)
    ensures HttpData.IsSpace(c) <==> c in "\t\n\U{B}\U{C}\r "
  {
  }

  // ----- JSON -----

  lemma JsonSpaceChars(c: char)
    ensures JsonParse.IsSpace(c) <==> c in "\t\n\r "
    ensures JsonParse.IsNumberChar(c) <==> c in "0123456789+-.eE"
  {
    Digits(c);
  }

  /** Hexadecimal digits of either case, and what they are worth. */
  lemma HexDigits(c: char)
    ensures JsonParse.IsHex(c) <==> c in "0123456789abcdef" || c in "0123456789ABCDEF"
    ensures JsonParse.IsHex(c) ==> var d := JsonParse.HexValue(c);
              "0123456789abcdef"[d] == c || "0123456789ABCDEF"[d] == c
  {
  }

  const ESCAPES := "\"\\/bfnrt"
  const ESCAPED := "\"\\/\U{8}\U{C}\n\r\t"

  /** The two-character escapes (section 7 of RFC 8259), and what they stand for. */
  lemma ShortEscapes(escape: char)
    ensures |ESCAPES| == |ESCAPED| == 8
    ensures JsonParse.SimpleEscape(escape).Some? <==> escape in ESCAPES
    ensures forall i :: 0 <= i < 8 ==> JsonParse.SimpleEscape(ESCAPES[i]) == Some(ESCAPED[i])
  {
  }

  // ----- Configurations -----

  /** What separates words, and what ends a bare word: a carriage return does not. */
  lemma ConfigChars(c: char)
    ensures ConfigLexer.IsBlank(c) <==> c in " \t\n\r"
    ensures ConfigLexer.EndsWord(c) <==> c in " \t\n;{}"
  {
  }
}
