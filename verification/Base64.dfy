/** `jwt::base`: base64 and base64url (sections 4 and 5 of RFC 4648). */
module Base64 {
  import opened Basics

  datatype Alphabet = Standard | Url {
    /** The character in place `i` of the alphabet. */
    function Symbol(i: nat): (c: char)
      requires i < 64
      ensures Sextet(c) == Some(i)
    {
      if i < 26 then ('A' as int + i) as char
      else if i < 52 then ('a' as int + i - 26) as char
      else if i < 62 then ('0' as int + i - 52) as char
      else if i == 62 then (if Standard? then '+' else '-')
      else (if Standard? then '/' else '_')
    }

    /** The place of a character in the alphabet. */
    function Sextet(c: char): (r: Option<nat>)
      ensures r.Some? ==> r.value < 64
    {
      if 'A' <= c <= 'Z' then Some(c as int - 'A' as int)
      else if 'a' <= c <= 'z' then Some(c as int - 'a' as int + 26)
      else if '0' <= c <= '9' then Some(c as int - '0' as int + 52)
      else if c == (if Standard? then '+' else '-') then Some(62)
      else if c == (if Standard? then '/' else '_') then Some(63)
      else None
    }

    /** The padding: the percent-encoded one shares characters with the alphabet. */
    function Fill(): string {
      if Standard? then "=" else "%3d"
    }

    predicate Spells(t: string) {
      forall i :: 0 <= i < |t| ==> Sextet(t[i]).Some?
    }
  }

  lemma SymbolOfSextet(a: Alphabet, c: char)
    requires a.Sextet(c).Some?
    ensures a.Symbol(a.Sextet(c).value) == c
  {}

  // ----- Encoding -----

  /** The four characters of 24 bits. */
  function EncodeTriple(a: Alphabet, triple: nat): (r: string)
    requires triple < 0x1000000
    ensures |r| == 4
  {
    [a.Symbol(triple / 0x40000), a.Symbol(triple / 0x1000 % 64), a.Symbol(triple / 0x40 % 64), a.Symbol(triple % 64)]
  }

  /** The characters of `bin` without padding. */
  function EncodeText(a: Alphabet, bin: ByteString): (r: string)
    decreases |bin|
  {
    if |bin| == 0 then ""
    else if |bin| == 1 then EncodeTriple(a, bin[0] as int * 0x10000)[..2]
    else if |bin| == 2 then EncodeTriple(a, bin[0] as int * 0x10000 + bin[1] as int * 0x100)[..3]
    else
      EncodeTriple(a, bin[0] as int * 0x10000 + bin[1] as int * 0x100 + bin[2] as int)
      + EncodeText(a, bin[3..])
  }

  /** `encode`. */
  function Encode(a: Alphabet, bin: ByteString): string {
    EncodeText(a, bin) + Repeat(a.Fill(), (3 - |bin| % 3) % 3)
  }

  // ----- Decoding -----

  /** The 24 bits of four characters of the alphabet, or of fewer with zeros after them. */
  function Triple(a: Alphabet, t: string): (r: nat)
    requires 2 <= |t| <= 4 && a.Spells(t)
    ensures r < 0x1000000
  {
    a.Sextet(t[0]).value * 0x40000 + a.Sextet(t[1]).value * 0x1000
    + (if |t| > 2 then a.Sextet(t[2]).value * 0x40 else 0)
    + (if |t| > 3 then a.Sextet(t[3]).value else 0)
  }

  /** The first `n` bytes of 24 bits. */
  function TripleBytes(triple: nat, n: nat): (r: ByteString)
    requires triple < 0x1000000 && n <= 3
    ensures |r| == n
  {
    [(triple / 0x10000) as char, (triple / 0x100 % 0x100) as char, (triple % 0x100) as char][..n]
  }

  /** The bytes of text over the alphabet. One character alone is never left over. */
  function DecodeText(a: Alphabet, t: string): (r: ByteString)
    requires a.Spells(t)
    decreases |t|
  {
    if |t| < 2 then ""
    else if |t| < 4 then TripleBytes(Triple(a, t), |t| - 1)
    else TripleBytes(Triple(a, t[..4]), 3) + DecodeText(a, t[4..])
  }

  predicate EndsWithFill(a: Alphabet, base: string) {
    |base| > |a.Fill()| && base[|base| - |a.Fill()|..] == a.Fill()
  }

  /** The text before the fills at the end, and their number; `None` beyond two fills. */
  function StripFills(a: Alphabet, base: string, count: nat): (r: Option<(string, nat)>)
    requires count <= 2
    ensures r.Some? ==> r.value.1 <= 2
    decreases |base|
  {
    if !EndsWithFill(a, base) then Some((base, count))
    else if count == 2 then None
    else StripFills(a, base[..|base| - |a.Fill()|], count + 1)
  }

  /** `decode`; its exceptions are `None`. */
  function Decode(a: Alphabet, base: string): Option<ByteString> {
    match StripFills(a, base, 0)
    case None => None
    case Some((t, count)) =>
      if (|t| + count) % 4 != 0 || !a.Spells(t) then None else Some(DecodeText(a, t))
  }

  /** `pad`. */
  function Pad(a: Alphabet, base: string): string {
    base + Repeat(a.Fill(), (4 - |base| % 4) % 4)
  }

  /** `trim`: everything before the first occurrence of the fill. */
  function Trim(a: Alphabet, base: string): string {
    if base == "" || a.Fill() <= base then "" else [base[0]] + Trim(a, base[1..])
  }

  // ----- The algorithms -----

  lemma EncodeTextStep(a: Alphabet, bin: ByteString, i: nat)
    requires i + 3 <= |bin|
    ensures EncodeText(a, bin[i..])
         == EncodeTriple(a, bin[i] as int * 0x10000 + bin[i + 1] as int * 0x100 + bin[i + 2] as int)
            + EncodeText(a, bin[i + 3..])
  {
    assert bin[i..][3..] == bin[i + 3..];
  }

  /** Three bytes as 24 bits; bytes beyond the end are zero. */
  function OctetTriple(bin: ByteString, i: nat): (triple: nat)
    requires i < |bin|
    ensures triple < 0x1000000
    ensures triple == bin[i] as int * 0x10000
                      + (if i + 1 < |bin| then bin[i + 1] as int * 0x100 else 0)
                      + (if i + 2 < |bin| then bin[i + 2] as int else 0)
  {
    var octetA := bin[i] as int;
    var octetB := if i + 1 < |bin| then bin[i + 1] as int else 0;
    var octetC := if i + 2 < |bin| then bin[i + 2] as int else 0;
    octetA * 0x10000 + octetB * 0x100 + octetC
  }

  method EncodeGroup(a: Alphabet, triple: nat) returns (res: string)
    requires triple < 0x1000000
    ensures res == EncodeTriple(a, triple)
  {
    res := [a.Symbol(triple / 0x40000)];
    res := res + [a.Symbol(triple / 0x1000 % 64)];
    res := res + [a.Symbol(triple / 0x40 % 64)];
    res := res + [a.Symbol(triple % 64)];
  }

  /** The loop of `encode` over whole groups of three bytes. */
  method EncodeGroups(bin: ByteString, a: Alphabet, fastSize: nat) returns (res: string)
    requires fastSize == |bin| - |bin| % 3
    ensures res + EncodeText(a, bin[fastSize..]) == EncodeText(a, bin)
  {
    hide EncodeText, EncodeTriple;
    res := "";
    var i := 0;
    assert bin[0..] == bin && "" + EncodeText(a, bin) == EncodeText(a, bin);
    while i < fastSize
      invariant 0 <= i <= fastSize && i % 3 == 0
      invariant res + EncodeText(a, bin[i..]) == EncodeText(a, bin)
    {
      EncodeTextStep(a, bin, i);
      var triple := OctetTriple(bin, i);
      var quad := EncodeGroup(a, triple);
      res := res + quad;
      i := i + 3;
    }
  }

  lemma RepeatFew(s: string)
    ensures Repeat(s, 0) == "" && Repeat(s, 1) == s && Repeat(s, 2) == s + s
    ensures Repeat(s, 3) == s + s + s
  {
    assert Repeat(s, 1) == s + Repeat(s, 0);
    assert Repeat(s, 2) == s + Repeat(s, 1);
    assert Repeat(s, 3) == s + Repeat(s, 2);
  }

  /** The `switch` of `encode` on the number of bytes left over. */
  method EncodeTail(a: Alphabet, triple: nat, mod: nat) returns (res: string)
    requires triple < 0x1000000 && 1 <= mod <= 2
    ensures res == EncodeTriple(a, triple)[..mod + 1] + Repeat(a.Fill(), 3 - mod)
  {
    res := [a.Symbol(triple / 0x40000)];
    res := res + [a.Symbol(triple / 0x1000 % 64)];
    if mod == 1 {
      res := res + a.Fill();
      res := res + a.Fill();
      RepeatFew(a.Fill());
    } else {
      res := res + [a.Symbol(triple / 0x40 % 64)];
      res := res + a.Fill();
      RepeatFew(a.Fill());
    }
  }

  lemma EncodeTextEnds(a: Alphabet, bin: ByteString, i: nat)
    requires |bin| - 2 <= i <= |bin|
    ensures EncodeText(a, bin[i..])
         == if i == |bin| then "" else EncodeTriple(a, OctetTriple(bin, i))[..|bin| - i + 1]
  {
    hide EncodeTriple;
  }

  /** `encode`. */
  method EncodeBytes(bin: ByteString, a: Alphabet) returns (res: string)
    ensures res == Encode(a, bin)
  {
    hide EncodeText, EncodeTriple;
    var size := |bin|;
    var fastSize := size - size % 3;
    res := EncodeGroups(bin, a, fastSize);
    EncodeTextEnds(a, bin, fastSize);
    if fastSize == size {
      return;
    }
    var tail := EncodeTail(a, OctetTriple(bin, fastSize), size % 3);
    res := res + tail;
  }

  /** `get_sextet`. */
  method GetSextet(a: Alphabet, base: string, offset: nat) returns (r: Option<nat>)
    requires offset < |base|
    ensures r == a.Sextet(base[offset])
  {
    for i := 0 to 64
      invariant forall j :: 0 <= j < i ==> a.Symbol(j) != base[offset]
    {
      if a.Symbol(i) == base[offset] {
        return Some(i);
      }
    }
    if a.Sextet(base[offset]).Some? {
      SymbolOfSextet(a, base[offset]);
    }
    return None;
  }

  /** The loop of `decode` that counts and removes the fills at the end. */
  method StripFillLoop(base: string, a: Alphabet) returns (ok: bool, size: nat, fillCnt: nat)
    ensures ok <==> StripFills(a, base, 0).Some?
    ensures ok ==> size <= |base| && StripFills(a, base, 0).value == (base[..size], fillCnt)
  {
    size, fillCnt := |base|, 0;
    var fill := a.Fill();
    assert base[..size] == base;
    while size > |fill|
      invariant size <= |base| && fillCnt <= 2
      invariant StripFills(a, base[..size], fillCnt) == StripFills(a, base, 0)
    {
      assert base[..size][size - |fill|..] == base[size - |fill|..size];
      assert base[..size][..size - |fill|] == base[..size - |fill|];
      if base[size - |fill|..size] == fill {
        fillCnt := fillCnt + 1;
        size := size - |fill|;
        if fillCnt > 2 {
          return false, size, fillCnt;
        }
      } else {
        break;
      }
    }
    ok := true;
  }

  /** `count` calls of `get_sextet`, as 24 bits with zeros after them. */
  method GetTriple(base: string, a: Alphabet, offset: nat, count: nat) returns (r: Option<nat>)
    requires 2 <= count <= 4 && offset + count <= |base|
    ensures r == if a.Spells(base[offset..offset + count])
                 then Some(Triple(a, base[offset..offset + count])) else None
  {
    var t := base[offset..offset + count];
    assert forall i :: 0 <= i < count ==> t[i] == base[offset + i];
    var s0 := GetSextet(a, base, offset);
    if s0.None? { return None; }
    var s1 := GetSextet(a, base, offset + 1);
    if s1.None? { return None; }
    var triple := s0.value * 0x40000 + s1.value * 0x1000;
    if count > 2 {
      var s2 := GetSextet(a, base, offset + 2);
      if s2.None? { return None; }
      triple := triple + s2.value * 0x40;
    }
    if count > 3 {
      var s3 := GetSextet(a, base, offset + 3);
      if s3.None? { return None; }
      triple := triple + s3.value;
    }
    return Some(triple);
  }

  lemma SpellsParts(a: Alphabet, t: string, i: nat)
    requires i <= |t|
    ensures a.Spells(t) <==> a.Spells(t[..i]) && a.Spells(t[i..])
  {
    assert forall j :: i <= j < |t| ==> t[j] == t[i..][j - i];
    assert forall j :: 0 <= j < i ==> t[j] == t[..i][j];
  }

  lemma DecodeTextHead(a: Alphabet, t: string)
    requires |t| >= 4 && a.Spells(t)
    ensures a.Spells(t[..4]) && a.Spells(t[4..])
    ensures DecodeText(a, t) == TripleBytes(Triple(a, t[..4]), 3) + DecodeText(a, t[4..])
  {
    SpellsParts(a, t, 4);
    hide TripleBytes, Triple;
  }

  lemma NoText(a: Alphabet)
    ensures a.Spells("") && DecodeText(a, "") == ""
  {}

  lemma TripleBytesAre(triple: nat)
    requires triple < 0x1000000
    ensures TripleBytes(triple, 1) == [(triple / 0x10000) as char]
    ensures TripleBytes(triple, 2) == [(triple / 0x10000) as char, (triple / 0x100 % 0x100) as char]
  {}

  lemma SpellsBoth(a: Alphabet, x: string, y: string)
    requires a.Spells(x) && a.Spells(y)
    ensures a.Spells(x + y)
  {}

  lemma Regroup(a: string, b: string, c: string)
    ensures a + (b + c) == a + b + c
  {}

  /** Whole groups decode on their own. */
  lemma {:induction false} DecodeTextAppend(a: Alphabet, x: string, y: string)
    requires a.Spells(x) && a.Spells(y) && |x| % 4 == 0
    ensures a.Spells(x + y) && DecodeText(a, x + y) == DecodeText(a, x) + DecodeText(a, y)
    decreases |x|
  {
    NoText(a);
    SpellsBoth(a, x, y);
    hide DecodeText, TripleBytes, Triple, Alphabet.Spells;
    if x == "" {
      assert x + y == y;
    } else {
      var (g, rest) := (x[..4], x[4..]);
      assert |x| >= 4 && |rest| % 4 == 0;
      assert (x + y)[..4] == g && (x + y)[4..] == rest + y;
      DecodeTextHead(a, x);
      DecodeTextHead(a, x + y);
      DecodeTextAppend(a, rest, y);
      Regroup(TripleBytes(Triple(a, g), 3), DecodeText(a, rest), DecodeText(a, y));
    }
  }

  lemma SpellsGroup(a: Alphabet, t: string, i: nat, end: nat)
    requires i + 4 <= end <= |t|
    ensures a.Spells(t[..end]) ==> a.Spells(t[i..i + 4])
  {
    SpellsParts(a, t[..end], i);
    SpellsParts(a, t[..end][i..], 4);
    assert t[..end][i..][..4] == t[i..i + 4];
  }

  lemma DecodeGroup(a: Alphabet, t: string)
    requires 2 <= |t| <= 4 && a.Spells(t)
    ensures DecodeText(a, t) == TripleBytes(Triple(a, t), |t| - 1)
  {
    assert |t| == 4 ==> t[..4] == t && t[4..] == "";
    hide Triple, TripleBytes;
  }

  /** The loop of `decode` over whole groups of four characters. */
  method DecodeGroups(t: string, a: Alphabet, fastSize: nat) returns (ok: bool, res: ByteString)
    requires fastSize == |t| - |t| % 4
    ensures ok <==> a.Spells(t[..fastSize])
    ensures ok ==> res == DecodeText(a, t[..fastSize])
  {
    hide DecodeText, Triple;
    res := "";
    var i := 0;
    NoText(a);
    while i < fastSize
      invariant 0 <= i <= fastSize && i % 4 == 0
      invariant a.Spells(t[..i]) && res == DecodeText(a, t[..i])
    {
      var triple := GetTriple(t, a, i, 4);
      SpellsGroup(a, t, i, fastSize);
      if triple.None? {
        return false, res;
      }
      assert t[..i + 4] == t[..i] + t[i..i + 4];
      DecodeTextAppend(a, t[..i], t[i..i + 4]);
      DecodeGroup(a, t[i..i + 4]);
      res := res + TripleBytes(triple.value, 3);
      i := i + 4;
    }
    ok := true;
  }

  /** The end of `decode`, for one or two fills. */
  method DecodeTail(t: string, a: Alphabet, fastSize: nat, fillCnt: nat) returns (r: Option<ByteString>)
    requires 1 <= fillCnt <= 2 && fastSize + 4 - fillCnt == |t|
    ensures r == if a.Spells(t[fastSize..]) then Some(DecodeText(a, t[fastSize..])) else None
  {
    assert t[fastSize..fastSize + (4 - fillCnt)] == t[fastSize..];
    hide DecodeText, Triple;
    var triple := GetTriple(t, a, fastSize, 4 - fillCnt);
    if triple.None? {
      return None;
    }
    DecodeGroup(a, t[fastSize..]);
    TripleBytesAre(triple.value);
    hide TripleBytes;
    var res: ByteString := "";
    match fillCnt {
      case 1 =>
        res := res + [(triple.value / 0x10000) as char];
        res := res + [(triple.value / 0x100 % 0x100) as char];
        assert res == TripleBytes(triple.value, 2);
      case 2 =>
        res := res + [(triple.value / 0x10000) as char];
        assert res == TripleBytes(triple.value, 1);
    }
    return Some(res);
  }

  lemma CharactersLeft(size: nat, fillCnt: nat)
    requires (size + fillCnt) % 4 == 0 && 1 <= fillCnt <= 2
    ensures size % 4 == 4 - fillCnt
  {}

  /** `decode` once the fills are gone. */
  method DecodeStripped(t: string, a: Alphabet, fillCnt: nat) returns (r: Option<ByteString>)
    requires fillCnt <= 2 && (|t| + fillCnt) % 4 == 0
    ensures r == if a.Spells(t) then Some(DecodeText(a, t)) else None
  {
    hide DecodeText, Triple, Alphabet.Sextet, Alphabet.Spells;
    var fastSize := |t| - |t| % 4;
    SpellsParts(a, t, fastSize);
    assert t[..fastSize] + t[fastSize..] == t;
    var groups, res := DecodeGroups(t, a, fastSize);
    if !groups {
      return None;
    }
    if fillCnt == 0 {
      assert t[..fastSize] == t;
      return Some(res);
    }
    CharactersLeft(|t|, fillCnt);
    var tail := DecodeTail(t, a, fastSize, fillCnt);
    if tail.None? {
      return None;
    }
    DecodeTextAppend(a, t[..fastSize], t[fastSize..]);
    return Some(res + tail.value);
  }

  /** `decode`. */
  method DecodeBytes(base: string, a: Alphabet) returns (r: Option<ByteString>)
    ensures r == Decode(a, base)
  {
    hide DecodeText, Triple, Alphabet.Sextet, Alphabet.Spells, StripFills;
    var ok, size, fillCnt := StripFillLoop(base, a);
    if !ok {
      return None;
    }
    if (size + fillCnt) % 4 != 0 {
      return None;
    }
    r := DecodeStripped(base[..size], a, fillCnt);
  }

  /** `pad`: the switch falls through from each case to the next. */
  method PadText(base: string, a: Alphabet) returns (r: string)
    ensures r == Pad(a, base)
  {
    var padding := "";
    var mod := |base| % 4;
    if mod == 1 {
      padding := padding + a.Fill();
    }
    if mod == 1 || mod == 2 {
      padding := padding + a.Fill();
    }
    if mod == 1 || mod == 2 || mod == 3 {
      padding := padding + a.Fill();
    }
    RepeatFew(a.Fill());
    r := base + padding;
  }
}
