/** What the alphabets are, and that base64 is the bytes as one number, written in base 64. */
module Base64Bits {
  import opened Basics
  import opened Base64
  import opened Base64Laws

  // ----- The alphabets -----

  const STANDARD := UPPER + LOWER + DIGITS + "+/"
  const URL := UPPER + LOWER + DIGITS + "-_"

  /** Tables 1 and 2 of RFC 4648. */
  function Table(a: Alphabet): string {
    if a.Standard? then STANDARD else URL
  }

  lemma TablesAre(i: nat)
    requires i < 64
    ensures |STANDARD| == 64 && STANDARD[i] == Standard.Symbol(i)
    ensures |URL| == 64 && URL[i] == Url.Symbol(i)
  {
    UpperTable();
    LowerTable();
    DigitTable();
    hide UPPER, LOWER, DIGITS;
  }

  /** Symbols are looked up in the tables, in both directions. */
  lemma SymbolsAreTable(a: Alphabet)
    ensures |Table(a)| == 64 && forall i :: 0 <= i < 64 ==> a.Symbol(i) == Table(a)[i]
    ensures forall c :: a.Sextet(c) == Place(Table(a), c)
    ensures a.Fill() == if a.Standard? then "=" else "%3d"
  {
    forall i | 0 <= i < 64 ensures |Table(a)| == 64 && a.Symbol(i) == Table(a)[i] {
      TablesAre(i);
    }
    TablesAre(0);
    hide STANDARD, URL, Table;
    forall c ensures a.Sextet(c) == Place(Table(a), c) {
      if a.Sextet(c).Some? {
        SymbolOfSextet(a, c);
        assert Table(a)[a.Sextet(c).value] == c;
        var i := Place(Table(a), c).value;
        assert a.Symbol(i) == c;
      } else if Place(Table(a), c).Some? {
        var i := Place(Table(a), c).value;
        assert a.Symbol(i) == c;
      }
    }
  }

  // ----- Numbers -----

  /** Bytes as the digits of a number in base 256, the first one the highest. */
  function BytesNumber(b: string): nat {
    if b == "" then 0 else b[0] as int * Power(256, |b| - 1) + BytesNumber(b[1..])
  }

  function Digit(a: Alphabet, c: char): nat {
    match Place(Table(a), c)
    case None => 0
    case Some(d) => d
  }

  /** Characters as digits in base 64, by their places in the table. */
  function TextNumber(a: Alphabet, t: string): int {
    if t == "" then 0 else Digit(a, t[0]) * Power(64, |t| - 1) + TextNumber(a, t[1..])
  }

  lemma DigitIsSextet(a: Alphabet, c: char)
    requires a.Sextet(c).Some?
    ensures Digit(a, c) == a.Sextet(c).value
  {
    SymbolsAreTable(a);
    hide STANDARD, URL, Table, Place;
  }

  /** Two to the number of bits that the text of `n` bytes has over the bytes: none, four or two. */
  function Spare(n: nat): (r: nat)
    ensures r > 0
  {
    if n % 3 == 0 then 1 else if n % 3 == 1 then 16 else 4
  }

  lemma SpareRepeats(n: nat)
    ensures Spare(3 + n) == Spare(n) && Spare(0) == 1 && Spare(1) == 16 && Spare(2) == 4
  {
  }

  lemma SmallPowers()
    ensures Power(64, 0) == 1 && Power(64, 1) == 64 && Power(64, 2) == 0x1000 && Power(64, 3) == 0x40000
    ensures Power(64, 4) == 0x1000000
    ensures Power(256, 0) == 1 && Power(256, 1) == 0x100 && Power(256, 2) == 0x10000 && Power(256, 3) == 0x1000000
  {
    assert Power(64, 1) == 64 * Power(64, 0) && Power(256, 1) == 256 * Power(256, 0);
    assert Power(64, 2) == 64 * Power(64, 1) && Power(256, 2) == 256 * Power(256, 1);
    assert Power(64, 3) == 64 * Power(64, 2) && Power(256, 3) == 256 * Power(256, 2);
    assert Power(64, 4) == 64 * Power(64, 3);
  }

  lemma Distributes(d: nat, p: nat, x: int, q: nat)
    ensures (d * p + x) * q == d * (p * q) + x * q
  {
  }

  lemma {:induction false} TextNumberConcat(a: Alphabet, s: string, t: string)
    ensures TextNumber(a, s + t) == TextNumber(a, s) * Power(64, |t|) + TextNumber(a, t)
  {
    hide Digit, Power;
    if s == "" {
      assert s + t == t;
    } else {
      assert (s + t)[1..] == s[1..] + t && (s + t)[0] == s[0];
      TextNumberConcat(a, s[1..], t);
      PowerAdds(64, |s| - 1, |t|);
      var d, p, q := Digit(a, s[0]), Power(64, |s| - 1), Power(64, |t|);
      assert TextNumber(a, s) == d * p + TextNumber(a, s[1..]);
      assert TextNumber(a, s + t) == d * (p * q) + TextNumber(a, s[1..] + t);
      hide *;
      Distributes(d, p, TextNumber(a, s[1..]), q);
    }
  }

  lemma {:induction false} BytesNumberConcat(s: string, t: string)
    ensures BytesNumber(s + t) == BytesNumber(s) * Power(256, |t|) + BytesNumber(t)
  {
    hide Power;
    if s == "" {
      assert s + t == t;
    } else {
      assert (s + t)[1..] == s[1..] + t && (s + t)[0] == s[0];
      BytesNumberConcat(s[1..], t);
      PowerAdds(256, |s| - 1, |t|);
      var d, p, q := s[0] as int, Power(256, |s| - 1), Power(256, |t|);
      assert BytesNumber(s) == d * p + BytesNumber(s[1..]);
      assert BytesNumber(s + t) == d * (p * q) + BytesNumber(s[1..] + t);
      hide *;
      Distributes(d, p, BytesNumber(s[1..]), q);
    }
  }

  lemma OneCharacter(a: Alphabet, t: string)
    requires t != "" && a.Sextet(t[0]).Some?
    ensures TextNumber(a, t) == a.Sextet(t[0]).value * Power(64, |t| - 1) + TextNumber(a, t[1..])
  {
    DigitIsSextet(a, t[0]);
    hide Digit, Power, Alphabet.Sextet;
  }

  /** The character in place `i`, and what comes after it. */
  lemma CharacterAt(a: Alphabet, t: string, i: nat)
    requires i < |t| && a.Spells(t)
    ensures a.Sextet(t[i]).Some?
    ensures TextNumber(a, t[i..])
         == a.Sextet(t[i]).value * Power(64, |t| - 1 - i) + TextNumber(a, t[i + 1..])
  {
    hide TextNumber, Alphabet.Sextet, Power;
    assert t[i..][0] == t[i] && t[i..][1..] == t[i + 1..];
    OneCharacter(a, t[i..]);
  }

  lemma NoCharacters(a: Alphabet, t: string)
    ensures TextNumber(a, t[|t|..]) == 0 && t[0..] == t
  {
    assert t[|t|..] == "";
  }

  /** Two, three or four characters as a number. */
  lemma FewCharacters(a: Alphabet, t: string)
    requires 2 <= |t| <= 4 && a.Spells(t)
    ensures Triple(a, t) == TextNumber(a, t) * (if |t| == 4 then 1 else if |t| == 3 then 64 else 4096)
  {
    NoCharacters(a, t);
    SmallPowers();
    hide TextNumber, Alphabet.Sextet, Power, Alphabet.Spells;
    CharacterAt(a, t, 0);
    CharacterAt(a, t, 1);
    if |t| > 2 {
      CharacterAt(a, t, 2);
      if |t| > 3 {
        CharacterAt(a, t, 3);
      }
    }
  }

  // ----- Encoding -----

  lemma FewBytes(bin: ByteString)
    requires |bin| <= 3
    ensures BytesNumber(bin) == (if |bin| > 0 then bin[0] as int * Power(256, |bin| - 1) else 0)
                              + (if |bin| > 1 then bin[1] as int * Power(256, |bin| - 2) else 0)
                              + (if |bin| > 2 then bin[2] as int else 0)
  {
    SmallPowers();
    assert BytesNumber("") == 0;
    if |bin| > 0 {
      var t := bin[1..];
      if |bin| > 1 {
        assert t[0] == bin[1] && t[1..] == bin[2..];
        if |bin| > 2 {
          assert bin[2..][0] == bin[2] && bin[2..][1..] == "";
        }
      }
    }
    hide Power;
  }

  lemma ShortPowers(a: Alphabet, bin: ByteString)
    requires |bin| < 3
    ensures Power(64, |EncodeText(a, bin)|) == Power(256, |bin|) * Spare(|bin|)
  {
    SmallPowers();
    ShortTextSpells(a, bin);
    hide EncodeText, Power;
  }

  lemma ShortTriples(a: Alphabet, bin: ByteString) returns (triple: nat)
    requires |bin| == 1 || |bin| == 2
    ensures |EncodeText(a, bin)| == |bin| + 1 && a.Spells(EncodeText(a, bin))
    ensures triple == Triple(a, EncodeText(a, bin))
    ensures triple == bin[0] as int * 0x10000 + if |bin| == 1 then 0 else bin[1] as int * 0x100
  {
    triple := bin[0] as int * 0x10000 + if |bin| == 1 then 0 else bin[1] as int * 0x100;
    hide *;
    ShortTextOfTriple(a, bin, triple);
    ShortBytes(bin, triple);
    ShortTriple(a, triple, |bin| + 1);
  }

  lemma ShortNumber(bin: ByteString, triple: nat, t: int)
    requires |bin| == 1 || |bin| == 2
    requires triple == bin[0] as int * 0x10000 + if |bin| == 1 then 0 else bin[1] as int * 0x100
    requires triple == t * if |bin| == 2 then 64 else 4096
    ensures t == BytesNumber(bin) * Spare(|bin|)
  {
    SmallPowers();
    SpareRepeats(0);
    FewBytes(bin);
    hide BytesNumber, Power, Spare;
    if |bin| == 1 {
      assert BytesNumber(bin) == bin[0] as int;
    } else {
      assert BytesNumber(bin) == bin[0] as int * 0x100 + bin[1] as int;
    }
  }

  lemma NothingEncoded(a: Alphabet)
    ensures TextNumber(a, EncodeText(a, "")) == BytesNumber("") * Spare(0)
  {
  }

  lemma ShortEncoded(a: Alphabet, bin: ByteString)
    requires |bin| < 3
    ensures TextNumber(a, EncodeText(a, bin)) == BytesNumber(bin) * Spare(|bin|)
  {
    hide *;
    if bin == "" {
      NothingEncoded(a);
    } else {
      var triple := ShortTriples(a, bin);
      FewCharacters(a, EncodeText(a, bin));
      ShortNumber(bin, triple, TextNumber(a, EncodeText(a, bin)));
    }
  }

  lemma GroupEncoded(a: Alphabet, bin: ByteString)
    requires |bin| == 3
    ensures TextNumber(a, EncodeText(a, bin)) == BytesNumber(bin) && |EncodeText(a, bin)| == 4
  {
    SmallPowers();
    FewBytes(bin);
    var triple := bin[0] as int * 0x10000 + bin[1] as int * 0x100 + bin[2] as int;
    assert EncodeText(a, bin) == EncodeTriple(a, triple) + "" by {
      assert bin[3..] == "";
      hide EncodeTriple;
    }
    TripleOfEncoding(a, triple);
    hide TextNumber, BytesNumber, EncodeText, EncodeTriple, Triple, Power, Alphabet.Spells;
    assert EncodeText(a, bin) == EncodeTriple(a, triple);
    FewCharacters(a, EncodeTriple(a, triple));
  }

  lemma EncodedHead(a: Alphabet, bin: ByteString)
    requires |bin| >= 3
    ensures EncodeText(a, bin) == EncodeText(a, bin[..3]) + EncodeText(a, bin[3..])
  {
    var first := bin[..3];
    var quad := EncodeTriple(a, bin[0] as int * 0x10000 + bin[1] as int * 0x100 + bin[2] as int);
    assert first[3..] == "" && first[0] == bin[0] && first[1] == bin[1] && first[2] == bin[2];
    hide EncodeTriple;
    assert EncodeText(a, first) == quad + "" == quad;
  }

  lemma Combine(t: int, t1: int, t2: int, q: nat, n: nat, n1: nat, n2: nat, p: nat, s: nat)
    requires t == t1 * q + t2 && t1 == n1 && t2 == n2 * s && q == p * s && n == n1 * p + n2
    ensures t == n * s
  {
  }

  lemma PowersGrow(x: nat, y: nat, s: nat)
    requires Power(64, x) == Power(256, y) * s
    ensures Power(64, 4 + x) == Power(256, 3 + y) * s
  {
    SmallPowers();
    PowerAdds(64, 4, x);
    PowerAdds(256, 3, y);
  }

  lemma {:induction false} EncodedPowers(a: Alphabet, bin: ByteString)
    ensures Power(64, |EncodeText(a, bin)|) == Power(256, |bin|) * Spare(|bin|)
    decreases |bin|
  {
    if |bin| < 3 {
      ShortPowers(a, bin);
    } else {
      var rest := bin[3..];
      EncodedPowers(a, rest);
      hide *;
      SpareRepeats(|rest|);
      GroupEncoded(a, bin[..3]);
      EncodedHead(a, bin);
      PowersGrow(|EncodeText(a, rest)|, |rest|, Spare(|rest|));
    }
  }

  /** The text is the bytes' number with two or four zero bits after it, in base 64. */
  lemma {:induction false} EncodedNumber(a: Alphabet, bin: ByteString)
    ensures TextNumber(a, EncodeText(a, bin)) == BytesNumber(bin) * Spare(|bin|)
    decreases |bin|
  {
    if |bin| < 3 {
      ShortEncoded(a, bin);
    } else {
      var first, rest := bin[..3], bin[3..];
      EncodedNumber(a, rest);
      assert bin == first + rest;
      hide *;
      SpareRepeats(|rest|);
      GroupEncoded(a, first);
      EncodedHead(a, bin);
      EncodedPowers(a, rest);
      TextNumberConcat(a, EncodeText(a, first), EncodeText(a, rest));
      BytesNumberConcat(first, rest);
      Combine(TextNumber(a, EncodeText(a, bin)), TextNumber(a, EncodeText(a, first)),
              TextNumber(a, EncodeText(a, rest)), Power(64, |EncodeText(a, rest)|),
              BytesNumber(bin), BytesNumber(first), BytesNumber(rest), Power(256, |rest|), Spare(|rest|));
    }
  }

  lemma PowersOfTwo()
    ensures Power(2, 0) == 1 && Power(2, 2) == 4 && Power(2, 4) == 16
  {
    assert Power(2, 1) == 2 * Power(2, 0) && Power(2, 2) == 2 * Power(2, 1);
    assert Power(2, 3) == 2 * Power(2, 2) && Power(2, 4) == 2 * Power(2, 3);
  }

  /**
   Base64 (section 4 of RFC 4648): the bytes as one number, with zero bits up to a multiple of
   six, are the text as a number; the length of the text, and the fills after it.
   */
  lemma EncodeIsBase64(a: Alphabet, bin: ByteString)
    ensures var t := EncodeText(a, bin);
            var fill := if a.Standard? then "=" else "%3d";
            && a.Spells(t) && |t| == (8 * |bin| + 5) / 6
            && TextNumber(a, t) == BytesNumber(bin) * Power(2, 6 * |t| - 8 * |bin|)
            && Encode(a, bin) == t + (if |bin| % 3 == 0 then "" else if |bin| % 3 == 1 then fill + fill else fill)
  {
    EncodedNumber(a, bin);
    EncodeTextSpells(a, bin);
    RepeatFew(a.Fill());
    PowersOfTwo();
    hide TextNumber, BytesNumber, EncodeText, Power, Repeat, Alphabet.Spells;
  }

  // ----- Decoding -----

  lemma BytesOfTriple(triple: nat)
    requires triple < 0x1000000
    ensures BytesNumber(TripleBytes(triple, 1)) == triple / 0x10000
    ensures BytesNumber(TripleBytes(triple, 2)) == triple / 0x100
    ensures BytesNumber(TripleBytes(triple, 3)) == triple
  {
    SmallPowers();
    FewBytes(TripleBytes(triple, 1));
    FewBytes(TripleBytes(triple, 2));
    FewBytes(TripleBytes(triple, 3));
    hide BytesNumber, Power;
    assert triple / 0x100 / 0x100 == triple / 0x10000;
  }

  lemma ShortLength(a: Alphabet, t: string)
    requires a.Spells(t) && |t| < 4 && |t| != 1
    ensures |DecodeText(a, t)| == if t == "" then 0 else |t| - 1
  {
    hide TripleBytes, Triple;
  }

  lemma FourLess(n: nat)
    ensures (n + 4) % 4 == n % 4 && 6 * (n + 4) / 8 == 6 * n / 8 + 3
  {
  }

  lemma SpareIsPower(n: nat)
    requires n % 4 != 1
    ensures var bytes := 6 * n / 8; 6 * n >= 8 * bytes && Spare(bytes) == Power(2, 6 * n - 8 * bytes)
  {
    PowersOfTwo();
    hide Power;
    assert n == n / 4 * 4 + n % 4;
  }

  lemma {:induction false} DecodedLength(a: Alphabet, t: string)
    requires a.Spells(t) && |t| % 4 != 1
    ensures |DecodeText(a, t)| == 6 * |t| / 8
    ensures Power(64, |t|) == Power(256, |DecodeText(a, t)|) * Spare(|DecodeText(a, t)|)
    decreases |t|
  {
    SmallPowers();
    SpareRepeats(0);
    hide *;
    if |t| < 4 {
      ShortLength(a, t);
    } else {
      var rest := t[4..];
      assert |t| == |rest| + 4;
      FourLess(|rest|);
      DecodeTextHead(a, t);
      DecodedLength(a, rest);
      SpareRepeats(|DecodeText(a, rest)|);
      PowersGrow(|rest|, |DecodeText(a, rest)|, Spare(|DecodeText(a, rest)|));
    }
  }

  /** The bytes are the text but for its spare bits. */
  predicate Floors(n: nat, t: int, s: nat) {
    n * s <= t < (n + 1) * s
  }

  lemma FloorsMeans(n: nat, t: int, s: nat)
    requires Floors(n, t, s)
    ensures 0 <= t - n * s < s
  {
  }

  lemma ShortDecoded(a: Alphabet, t: string)
    requires a.Spells(t) && |t| < 4 && |t| != 1
    ensures Floors(BytesNumber(DecodeText(a, t)), TextNumber(a, t), Spare(|DecodeText(a, t)|))
  {
    if t == "" {
      assert TextNumber(a, t) == 0 && BytesNumber("") == 0;
    } else {
      var triple := Triple(a, t);
      FewCharacters(a, t);
      BytesOfTriple(triple);
      assert DecodeText(a, t) == TripleBytes(triple, |t| - 1);
      hide TextNumber, BytesNumber, DecodeText, Triple, TripleBytes, Alphabet.Spells;
    }
  }

  lemma CombineFloors(t: int, t1: int, t2: int, q: nat, n: nat, n1: nat, n2: nat, p: nat, s: nat)
    requires t == t1 * q + t2 && t1 == n1 && Floors(n2, t2, s) && q == p * s && n == n1 * p + n2
    ensures Floors(n, t, s)
  {
    assert n * s == n1 * (p * s) + n2 * s;
    assert (n + 1) * s == n * s + s && (n2 + 1) * s == n2 * s + s;
  }

  lemma FourCut(t: string)
    requires |t| >= 4
    ensures t == t[..4] + t[4..] && |t| == |t[4..]| + 4 && |t[..4]| == 4
  {
  }

  /** The bytes are the number of the text without its last two or four bits, in base 256. */
  lemma {:induction false} DecodedNumber(a: Alphabet, t: string)
    requires a.Spells(t) && |t| % 4 != 1
    ensures Floors(BytesNumber(DecodeText(a, t)), TextNumber(a, t), Spare(|DecodeText(a, t)|))
    decreases |t|
  {
    hide *;
    if |t| < 4 {
      ShortDecoded(a, t);
    } else {
      var first, rest := t[..4], t[4..];
      FourCut(t);
      FourLess(|rest|);
      DecodeTextHead(a, t);
      DecodedNumber(a, rest);
      var bytes, triple := DecodeText(a, rest), Triple(a, first);
      var head := TripleBytes(triple, 3);
      SpareRepeats(|bytes|);
      DecodedLength(a, rest);
      FewCharacters(a, first);
      BytesOfTriple(triple);
      TextNumberConcat(a, first, rest);
      BytesNumberConcat(head, bytes);
      CombineFloors(TextNumber(a, t), TextNumber(a, first), TextNumber(a, rest), Power(64, |rest|),
                    BytesNumber(head + bytes), BytesNumber(head), BytesNumber(bytes), Power(256, |bytes|),
                    Spare(|bytes|));
    }
  }

  /** Decoding text of the alphabet: its number without the bits that are no part of a byte. */
  lemma DecodeIsBase64(a: Alphabet, t: string)
    requires a.Spells(t) && |t| % 4 != 1
    ensures var b := DecodeText(a, t);
            var spare := 6 * |t| - 8 * |b|;
            && |b| == 6 * |t| / 8 && spare >= 0
            && 0 <= TextNumber(a, t) - BytesNumber(b) * Power(2, spare) < Power(2, spare)
  {
    hide *;
    DecodedLength(a, t);
    DecodedNumber(a, t);
    SpareIsPower(|t|);
    FloorsMeans(BytesNumber(DecodeText(a, t)), TextNumber(a, t), Spare(|DecodeText(a, t)|));
  }

  /** The fills that padding adds, by what is left of the last group of four characters. */
  lemma PadMeans(a: Alphabet, t: string)
    ensures var fill := if a.Standard? then "=" else "%3d";
            Pad(a, t) == t + match |t| % 4
                             case 0 => ""
                             case 1 => fill + fill + fill
                             case 2 => fill + fill
                             case _ => fill
  {
    RepeatFew(a.Fill());
    hide Repeat;
  }
}
