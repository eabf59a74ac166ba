/** Decoding undoes encoding, and exactly which texts decode. */
module Base64Laws {
  import opened Basics
  import opened Base64

  // ----- Groups of 24 bits -----

  lemma TripleOfEncoding(a: Alphabet, triple: nat)
    requires triple < 0x1000000
    ensures a.Spells(EncodeTriple(a, triple)) && Triple(a, EncodeTriple(a, triple)) == triple
  {
    var q := triple / 0x40;
    assert triple / 0x1000 == q / 64 && triple / 0x40000 == q / 64 / 64;
  }

  lemma SextetsOfTriple(s0: nat, s1: nat, s2: nat, s3: nat)
    requires s0 < 64 && s1 < 64 && s2 < 64 && s3 < 64
    ensures var triple := s0 * 0x40000 + s1 * 0x1000 + s2 * 0x40 + s3;
            && triple < 0x1000000 && triple / 0x40000 == s0 && triple / 0x1000 % 64 == s1
            && triple / 0x40 % 64 == s2 && triple % 64 == s3
  {
    var triple := s0 * 0x40000 + s1 * 0x1000 + s2 * 0x40 + s3;
    assert triple / 0x40 == (s0 * 64 + s1) * 64 + s2;
    assert triple / 0x1000 == s0 * 64 + s1;
  }

  lemma EncodingOfTriple(a: Alphabet, t: string)
    requires |t| == 4 && a.Spells(t)
    ensures EncodeTriple(a, Triple(a, t)) == t
  {
    SextetsOfTriple(a.Sextet(t[0]).value, a.Sextet(t[1]).value, a.Sextet(t[2]).value, a.Sextet(t[3]).value);
    SymbolOfSextet(a, t[0]);
    SymbolOfSextet(a, t[1]);
    SymbolOfSextet(a, t[2]);
    SymbolOfSextet(a, t[3]);
    hide Alphabet.Symbol, Alphabet.Sextet;
  }

  lemma TripleOfBytes(b0: nat, b1: nat, b2: nat)
    requires b0 < 256 && b1 < 256 && b2 < 256
    ensures var triple := b0 * 0x10000 + b1 * 0x100 + b2;
            && triple < 0x1000000
            && TripleBytes(triple, 1) == [b0 as char]
            && TripleBytes(triple, 2) == [b0 as char, b1 as char]
            && TripleBytes(triple, 3) == [b0 as char, b1 as char, b2 as char]
  {
    var triple := b0 * 0x10000 + b1 * 0x100 + b2;
    assert triple / 0x10000 == b0 && triple / 0x100 == b0 * 0x100 + b1 && triple % 0x100 == b2;
  }

  /** The first two or three characters of a group hold its bytes when the others are zero. */
  lemma ShortTriple(a: Alphabet, triple: nat, n: nat)
    requires triple < 0x1000000 && 2 <= n <= 3
    requires triple % 64 == 0 && (n == 2 ==> triple / 0x40 % 64 == 0)
    ensures var t := EncodeTriple(a, triple)[..n];
            a.Spells(t) && Triple(a, t) == triple
  {
    var u := EncodeTriple(a, triple);
    TripleOfEncoding(a, triple);
    SpellsParts(a, u, n);
    assert a.Sextet(u[2]) == Some(triple / 0x40 % 64) && a.Sextet(u[3]) == Some(triple % 64);
    assert forall i :: 0 <= i < n ==> u[..n][i] == u[i];
    hide Alphabet.Symbol, Alphabet.Sextet, EncodeTriple;
  }

  // ----- Text without padding -----

  lemma TripleSpells(a: Alphabet, triple: nat)
    requires triple < 0x1000000
    ensures a.Spells(EncodeTriple(a, triple))
  {
    hide Alphabet.Sextet, Alphabet.Symbol;
  }

  lemma ShortTextSpells(a: Alphabet, bin: ByteString)
    requires |bin| < 3
    ensures a.Spells(EncodeText(a, bin)) && |EncodeText(a, bin)| == if |bin| == 0 then 0 else |bin| + 1
  {
    if |bin| == 1 {
      TripleSpells(a, bin[0] as int * 0x10000);
    } else if |bin| == 2 {
      TripleSpells(a, bin[0] as int * 0x10000 + bin[1] as int * 0x100);
    }
    hide EncodeTriple, Alphabet.Sextet;
  }

  lemma {:induction false} EncodeTextSpells(a: Alphabet, bin: ByteString)
    ensures a.Spells(EncodeText(a, bin))
    ensures |EncodeText(a, bin)| == |bin| / 3 * 4 + (if |bin| % 3 == 0 then 0 else |bin| % 3 + 1)
    decreases |bin|
  {
    if |bin| < 3 {
      ShortTextSpells(a, bin);
    } else {
      var triple := bin[0] as int * 0x10000 + bin[1] as int * 0x100 + bin[2] as int;
      assert EncodeText(a, bin) == EncodeTriple(a, triple) + EncodeText(a, bin[3..]);
      hide EncodeText, EncodeTriple, Alphabet.Spells;
      TripleSpells(a, triple);
      EncodeTextSpells(a, bin[3..]);
      SpellsBoth(a, EncodeTriple(a, triple), EncodeText(a, bin[3..]));
    }
  }

  lemma ShortBits(b0: nat, b1: nat)
    requires b0 < 256 && b1 < 256
    ensures var triple := b0 * 0x10000 + b1 * 0x100;
            triple % 64 == 0 && (b1 == 0 ==> triple / 0x40 % 64 == 0)
  {
    assert b0 * 0x10000 + b1 * 0x100 == (b0 * 0x400 + b1 * 4) * 0x40;
  }

  lemma ShortTextOfTriple(a: Alphabet, bin: ByteString, triple: nat)
    requires |bin| == 1 || |bin| == 2
    requires triple == bin[0] as int * 0x10000 + if |bin| == 1 then 0 else bin[1] as int * 0x100
    ensures triple < 0x1000000 && EncodeText(a, bin) == EncodeTriple(a, triple)[..|bin| + 1]
  {
    assert triple < 0x1000000;
    hide EncodeTriple;
  }

  lemma ShortBytes(bin: ByteString, triple: nat)
    requires |bin| == 1 || |bin| == 2
    requires triple == bin[0] as int * 0x10000 + if |bin| == 1 then 0 else bin[1] as int * 0x100
    ensures triple < 0x1000000 && TripleBytes(triple, |bin|) == bin
    ensures triple % 64 == 0 && (|bin| == 1 ==> triple / 0x40 % 64 == 0)
  {
    var b0, b1 := bin[0] as int, if |bin| == 1 then 0 else bin[1] as int;
    ShortBits(b0, b1);
    hide TripleBytes;
    TripleOfBytes(b0, b1, 0);
    assert bin == if |bin| == 1 then [bin[0]] else [bin[0], bin[1]];
  }

  lemma DecodeShortText(a: Alphabet, bin: ByteString)
    requires |bin| == 1 || |bin| == 2
    ensures a.Spells(EncodeText(a, bin)) && DecodeText(a, EncodeText(a, bin)) == bin
  {
    hide *;
    var triple := bin[0] as int * 0x10000 + if |bin| == 1 then 0 else bin[1] as int * 0x100;
    ShortTextOfTriple(a, bin, triple);
    ShortBytes(bin, triple);
    ShortTriple(a, triple, |bin| + 1);
    DecodeGroup(a, EncodeTriple(a, triple)[..|bin| + 1]);
  }

  lemma {:induction false} DecodeEncodeText(a: Alphabet, bin: ByteString)
    ensures a.Spells(EncodeText(a, bin)) && DecodeText(a, EncodeText(a, bin)) == bin
    decreases |bin|
  {
    hide EncodeTriple, Triple, DecodeText, Alphabet.Sextet, TripleBytes;
    EncodeTextSpells(a, bin);
    if |bin| == 0 {
      NoText(a);
    } else if |bin| < 3 {
      DecodeShortText(a, bin);
    } else {
      var triple := bin[0] as int * 0x10000 + bin[1] as int * 0x100 + bin[2] as int;
      TripleOfBytes(bin[0] as int, bin[1] as int, bin[2] as int);
      TripleOfEncoding(a, triple);
      DecodeEncodeText(a, bin[3..]);
      DecodeTextAppend(a, EncodeTriple(a, triple), EncodeText(a, bin[3..]));
      DecodeGroup(a, EncodeTriple(a, triple));
      assert bin == [bin[0], bin[1], bin[2]] + bin[3..];
    }
  }

  // ----- Padding -----

  /** Text over the alphabet never contains the first character of the fill. */
  lemma NoFillInside(a: Alphabet, t: string, i: nat)
    requires a.Spells(t) && i < |t|
    ensures t[i] != a.Fill()[0]
  {
    assert a.Sextet(t[i]).Some?;
  }

  lemma SpellsNoFillAtEnd(a: Alphabet, t: string)
    requires a.Spells(t)
    ensures !EndsWithFill(a, t)
  {
    var fill := a.Fill();
    if |t| > |fill| {
      NoFillInside(a, t, |t| - |fill|);
      assert t[|t| - |fill|..][0] == t[|t| - |fill|];
    }
  }

  lemma StripOne(a: Alphabet, x: string, count: nat)
    requires x != "" && count < 2
    ensures StripFills(a, x + a.Fill(), count) == StripFills(a, x, count + 1)
  {
    var fill := a.Fill();
    assert (x + fill)[|x|..] == fill && (x + fill)[..|x|] == x;
    hide Alphabet.Fill;
  }

  lemma StripNone(a: Alphabet, t: string, k: nat)
    requires a.Spells(t) && k <= 2
    ensures StripFills(a, t, k) == Some((t, k))
  {
    SpellsNoFillAtEnd(a, t);
    hide Alphabet.Spells, EndsWithFill;
  }

  lemma StripFillsOf(a: Alphabet, t: string, k: nat)
    requires a.Spells(t) && t != "" && k <= 2
    ensures StripFills(a, t + Repeat(a.Fill(), k), 0) == Some((t, k))
  {
    hide *;
    var fill := a.Fill();
    StripNone(a, t, k);
    RepeatFew(fill);
    if k == 0 {
      assert t + "" == t;
    } else if k == 1 {
      StripOne(a, t, 0);
    } else {
      StripOne(a, t + fill, 0);
      StripOne(a, t, 1);
      assert t + (fill + fill) == t + fill + fill;
    }
  }

  lemma {:induction false} RepeatTail(s: string, n: nat)
    requires n > 0
    ensures Repeat(s, n) == Repeat(s, n - 1) + s
  {
    if n <= 1 {
    } else {
      RepeatTail(s, n - 1);
    }
  }

  /** What is stripped is fills, and only fills. */
  lemma {:induction false} StripFillsSound(a: Alphabet, base: string, count: nat)
    requires count <= 2 && StripFills(a, base, count).Some?
    ensures var (t, n) := StripFills(a, base, count).value;
            count <= n <= 2 && base == t + Repeat(a.Fill(), n - count)
    decreases |base|
  {
    var fill := a.Fill();
    if !EndsWithFill(a, base) {
    } else {
      var front := base[..|base| - |fill|];
      StripFillsSound(a, front, count + 1);
      var (t, n) := StripFills(a, base, count).value;
      RepeatTail(fill, n - count);
      assert base == front + fill;
    }
  }

  /** `base` is text over the alphabet and at most two fills that complete its last group. */
  ghost predicate Padded(a: Alphabet, base: string, t: string, k: nat) {
    k <= 2 && a.Spells(t) && (|t| + k) % 4 == 0 && base == t + Repeat(a.Fill(), k)
  }

  lemma DecodePadded(a: Alphabet, base: string, t: string, k: nat)
    requires Padded(a, base, t, k)
    ensures Decode(a, base) == Some(DecodeText(a, t))
  {
    hide DecodeText;
    if t == "" {
      assert base == "";
      SpellsNoFillAtEnd(a, "");
    } else {
      hide StripFills, Alphabet.Spells, Repeat;
      StripFillsOf(a, t, k);
    }
  }

  /** Exactly the padded texts decode; everything else throws. */
  lemma DecodeDomain(a: Alphabet, base: string)
    ensures Decode(a, base).Some? <==> exists t, k :: Padded(a, base, t, k)
  {
    if Decode(a, base).Some? {
      StripFillsSound(a, base, 0);
      var (t, k) := StripFills(a, base, 0).value;
      assert Padded(a, base, t, k);
    }
    forall t, k | Padded(a, base, t, k) ensures Decode(a, base).Some? {
      DecodePadded(a, base, t, k);
    }
  }

  function Fills(n: nat): (k: nat)
    ensures k <= 2
  {
    (3 - n % 3) % 3
  }

  lemma Mod4(q: nat, r: nat)
    requires r < 4
    ensures (q * 4 + r) % 4 == r
  {}

  lemma FillsComplete(n: nat)
    ensures var size := n / 3 * 4 + (if n % 3 == 0 then 0 else n % 3 + 1);
            && (size + Fills(n)) % 4 == 0 && Fills(n) == (4 - size % 4) % 4
  {
    var r := if n % 3 == 0 then 0 else n % 3 + 1;
    Mod4(n / 3, r);
    Mod4(n / 3 + (if r == 0 then 0 else 1), 0);
  }

  lemma EncodePadded(a: Alphabet, bin: ByteString)
    ensures Padded(a, Encode(a, bin), EncodeText(a, bin), Fills(|bin|))
  {
    hide EncodeText, Repeat, Alphabet.Spells;
    EncodeTextSpells(a, bin);
    FillsComplete(|bin|);
  }

  /** Decoding undoes encoding, for both alphabets. */
  lemma RoundTrip(a: Alphabet, bin: ByteString)
    ensures Decode(a, Encode(a, bin)) == Some(bin)
  {
    EncodePadded(a, bin);
    DecodePadded(a, Encode(a, bin), EncodeText(a, bin), Fills(|bin|));
    DecodeEncodeText(a, bin);
  }

  lemma {:induction false} TrimStops(a: Alphabet, t: string, k: nat)
    requires a.Spells(t)
    ensures Trim(a, t + Repeat(a.Fill(), k)) == t
  {
    var s := t + Repeat(a.Fill(), k);
    if t == "" {
      assert s == Repeat(a.Fill(), k);
      assert k > 0 ==> a.Fill() <= s;
    } else {
      NoFillInside(a, t, 0);
      TrimStops(a, t[1..], k);
      assert s[1..] == t[1..] + Repeat(a.Fill(), k);
      assert t == [t[0]] + t[1..];
    }
  }

  /** Trimming removes exactly the padding; its length tells how many bytes there are. */
  lemma TrimEncode(a: Alphabet, bin: ByteString)
    ensures Trim(a, Encode(a, bin)) == EncodeText(a, bin)
    ensures |Trim(a, Encode(a, bin))| == |bin| / 3 * 4 + (if |bin| % 3 == 0 then 0 else |bin| % 3 + 1)
  {
    EncodeTextSpells(a, bin);
    TrimStops(a, EncodeText(a, bin), Fills(|bin|));
  }

  /** Padding restores what trimming removed. */
  lemma TrimmedRoundTrip(a: Alphabet, bin: ByteString)
    ensures Pad(a, Trim(a, Encode(a, bin))) == Encode(a, bin)
    ensures Decode(a, Pad(a, Trim(a, Encode(a, bin)))) == Some(bin)
  {
    hide EncodeText, Repeat, Decode, Trim, Alphabet.Spells;
    TrimEncode(a, bin);
    RoundTrip(a, bin);
    FillsComplete(|bin|);
  }

  // ----- Canonical texts (section 3.5 of RFC 4648) -----

  /** The bits of the last sextet that decoding discards are zero. */
  predicate ZeroTail(a: Alphabet, t: string)
    requires a.Spells(t)
  {
    if |t| % 4 == 2 then a.Sextet(t[|t| - 1]).value % 16 == 0
    else if |t| % 4 == 3 then a.Sextet(t[|t| - 1]).value % 4 == 0
    else true
  }

  lemma TwoSextets(s0: nat, s1: nat)
    requires s0 < 64 && s1 < 64
    ensures var triple := s0 * 0x40000 + s1 * 0x1000;
            var kept := triple / 0x10000 * 0x10000;
            kept < 0x1000000 && kept / 0x40000 == s0 && kept / 0x1000 % 64 == s1 - s1 % 16
  {
    var b0 := s0 * 4 + s1 / 16;
    assert (s0 * 0x40000 + s1 * 0x1000) / 0x10000 == b0;
    assert b0 * 0x10000 / 0x1000 == b0 * 16 && b0 * 0x10000 / 0x40000 == b0 / 4;
  }

  lemma KeptBits(s0: nat, s1: nat, q: nat)
    requires s0 < 64 && s1 < 64 && q < 16
    ensures var h := (s0 * 64 + s1) * 16 + q;
            var kept := h / 0x100 * 0x10000 + h % 0x100 * 0x100;
            && kept < 0x1000000 && kept / 0x40000 == s0 && kept / 0x1000 % 64 == s1
            && kept / 0x40 % 64 == q * 4
  {
    SextetsOfTriple(s0, s1, q * 4, 0);
    var h := (s0 * 64 + s1) * 16 + q;
    assert h == h / 0x100 * 0x100 + h % 0x100;
  }

  lemma ThreeSextets(s0: nat, s1: nat, s2: nat)
    requires s0 < 64 && s1 < 64 && s2 < 64
    ensures var triple := s0 * 0x40000 + s1 * 0x1000 + s2 * 0x40;
            var kept := triple / 0x10000 * 0x10000 + triple / 0x100 % 0x100 * 0x100;
            && kept < 0x1000000 && kept / 0x40000 == s0 && kept / 0x1000 % 64 == s1
            && kept / 0x40 % 64 == s2 - s2 % 4
  {
    var (q, r) := (s2 / 4, s2 % 4);
    var h := (s0 * 64 + s1) * 16 + q;
    var triple := s0 * 0x40000 + s1 * 0x1000 + s2 * 0x40;
    assert triple == h * 0x100 + r * 0x40;
    assert triple / 0x100 == h && triple / 0x10000 == h / 0x100;
    KeptBits(s0, s1, q);
  }

  lemma SymbolsEqual(a: Alphabet, i: nat, c: char)
    requires i < 64 && a.Sextet(c).Some?
    ensures a.Symbol(i) == c <==> i == a.Sextet(c).value
  {
    SymbolOfSextet(a, c);
  }

  lemma ReencodeTwo(a: Alphabet, t: string)
    requires |t| == 2 && a.Spells(t)
    ensures EncodeText(a, DecodeText(a, t)) == t <==> ZeroTail(a, t)
  {
    var (s0, s1) := (a.Sextet(t[0]).value, a.Sextet(t[1]).value);
    TwoSextets(s0, s1);
    TripleBytesAre(Triple(a, t));
    var kept := Triple(a, t) / 0x10000 * 0x10000;
    SymbolsEqual(a, kept / 0x40000, t[0]);
    SymbolsEqual(a, kept / 0x1000 % 64, t[1]);
    assert EncodeText(a, DecodeText(a, t)) == [a.Symbol(kept / 0x40000), a.Symbol(kept / 0x1000 % 64)];
    hide EncodeText, DecodeText, Triple, Alphabet.Symbol, Alphabet.Sextet;
    assert t == [t[0], t[1]];
  }

  function TwoBytes(bin: ByteString): nat
    requires |bin| == 2
  {
    bin[0] as int * 0x10000 + bin[1] as int * 0x100
  }

  lemma DecodedThree(a: Alphabet, t: string)
    requires |t| == 3 && a.Spells(t)
    ensures var (s2, bin) := (a.Sextet(t[2]).value, DecodeText(a, t));
            && |bin| == 2 && TwoBytes(bin) < 0x1000000
            && TwoBytes(bin) / 0x40000 == a.Sextet(t[0]).value
            && TwoBytes(bin) / 0x1000 % 64 == a.Sextet(t[1]).value
            && TwoBytes(bin) / 0x40 % 64 == s2 - s2 % 4
  {
    ThreeSextets(a.Sextet(t[0]).value, a.Sextet(t[1]).value, a.Sextet(t[2]).value);
    TripleBytesAre(Triple(a, t));
    hide Alphabet.Sextet;
  }

  lemma EncodedTwo(a: Alphabet, bin: ByteString)
    requires |bin| == 2
    ensures var k := TwoBytes(bin);
            k < 0x1000000
            && EncodeText(a, bin) == [a.Symbol(k / 0x40000), a.Symbol(k / 0x1000 % 64), a.Symbol(k / 0x40 % 64)]
  {
    hide Alphabet.Symbol;
    assert TwoBytes(bin) < 0x1000000;
    assert EncodeText(a, bin) == EncodeTriple(a, TwoBytes(bin))[..3];
  }

  /** Decoding three symbols and encoding again keeps the first two and clears bits of the third. */
  lemma ReencodedThree(a: Alphabet, t: string)
    requires |t| == 3 && a.Spells(t)
    ensures a.Sextet(t[0]).Some? && a.Sextet(t[1]).Some? && a.Sextet(t[2]).Some?
    ensures var s2 := a.Sextet(t[2]).value;
            EncodeText(a, DecodeText(a, t))
            == [a.Symbol(a.Sextet(t[0]).value), a.Symbol(a.Sextet(t[1]).value), a.Symbol(s2 - s2 % 4)]
  {
    assert a.Sextet(t[0]).Some? && a.Sextet(t[1]).Some? && a.Sextet(t[2]).Some?;
    hide *;
    DecodedThree(a, t);
    EncodedTwo(a, DecodeText(a, t));
  }

  lemma ThreeEqual(t: string, x: char, y: char, z: char)
    requires |t| == 3
    ensures t == [x, y, z] <==> t[0] == x && t[1] == y && t[2] == z
  {
    assert t == [t[0], t[1], t[2]];
  }

  lemma ReencodeThree(a: Alphabet, t: string)
    requires |t| == 3 && a.Spells(t)
    ensures EncodeText(a, DecodeText(a, t)) == t <==> ZeroTail(a, t)
  {
    assert a.Sextet(t[0]).Some? && a.Sextet(t[1]).Some? && a.Sextet(t[2]).Some?;
    var (s0, s1, s2) := (a.Sextet(t[0]).value, a.Sextet(t[1]).value, a.Sextet(t[2]).value);
    assert ZeroTail(a, t) <==> s2 % 4 == 0;
    hide *;
    ReencodedThree(a, t);
    SymbolsEqual(a, s0, t[0]);
    SymbolsEqual(a, s1, t[1]);
    SymbolsEqual(a, s2 - s2 % 4, t[2]);
    ThreeEqual(t, a.Symbol(s0), a.Symbol(s1), a.Symbol(s2 - s2 % 4));
  }

  lemma AppendEqual(x: string, r: string, y: string, z: string)
    requires |x| == |r|
    ensures x + y == r + z <==> x == r && y == z
  {
    assert (x + y)[..|x|] == x && (r + z)[..|x|] == r;
    assert (x + y)[|x|..] == y && (r + z)[|x|..] == z;
  }

  lemma ZeroTailRest(a: Alphabet, t: string)
    requires a.Spells(t) && |t| >= 4 && a.Spells(t[4..])
    ensures ZeroTail(a, t) <==> ZeroTail(a, t[4..])
  {
    assert |t[4..]| % 4 == |t| % 4;
    hide Alphabet.Sextet;
  }

  lemma BytesOfTriple(triple: nat)
    requires triple < 0x1000000
    ensures var b := TripleBytes(triple, 3);
            b[0] as int * 0x10000 + b[1] as int * 0x100 + b[2] as int == triple
  {
    assert triple / 0x10000 == triple / 0x100 / 0x100;
  }

  lemma EncodeTextHead(a: Alphabet, triple: nat, bin: ByteString)
    requires triple < 0x1000000
    ensures EncodeText(a, TripleBytes(triple, 3) + bin) == EncodeTriple(a, triple) + EncodeText(a, bin)
  {
    var b := TripleBytes(triple, 3);
    BytesOfTriple(triple);
    hide EncodeTriple, TripleBytes;
    assert (b + bin)[3..] == bin;
    assert (b + bin)[0] == b[0] && (b + bin)[1] == b[1] && (b + bin)[2] == b[2];
  }

  lemma {:induction false} ReencodeText(a: Alphabet, t: string)
    requires a.Spells(t) && |t| % 4 != 1
    ensures EncodeText(a, DecodeText(a, t)) == t <==> ZeroTail(a, t)
    decreases |t|
  {
    if |t| == 0 {
    } else if |t| == 2 {
      ReencodeTwo(a, t);
    } else if |t| == 3 {
      ReencodeThree(a, t);
    } else {
      var (g, rest) := (t[..4], t[4..]);
      assert |t| >= 4 && |rest| % 4 == |t| % 4;
      DecodeTextHead(a, t);
      ReencodeText(a, rest);
      EncodeTextHead(a, Triple(a, g), DecodeText(a, rest));
      EncodingOfTriple(a, g);
      ZeroTailRest(a, t);
      hide EncodeText, DecodeText, Triple, TripleBytes, EncodeTriple, ZeroTail, Alphabet.Spells;
      assert t == g + rest;
      AppendEqual(g, g, EncodeText(a, DecodeText(a, rest)), rest);
    }
  }

  lemma {:induction false} DecodedSize(a: Alphabet, t: string)
    requires a.Spells(t) && |t| % 4 != 1
    ensures var n := |DecodeText(a, t)|;
            |t| == n / 3 * 4 + (if n % 3 == 0 then 0 else n % 3 + 1)
    decreases |t|
  {
    if |t| < 4 {
    } else {
      assert |t[4..]| % 4 == |t| % 4;
      DecodedSize(a, t[4..]);
    }
    hide Triple, TripleBytes;
  }

  lemma OneIsNeverLeft(size: nat, k: nat)
    requires k <= 2 && (size + k) % 4 == 0
    ensures size % 4 != 1
  {
  }

  lemma SameFills(size: nat, j: nat, k: nat)
    requires j <= 3 && k <= 3 && (size + j) % 4 == 0 && (size + k) % 4 == 0
    ensures j == k
  {
    var q, r := (size + j) / 4, (size + k) / 4;
    assert size + j == q * 4 && size + k == r * 4;
  }

  lemma FillsOfSize(n: nat, size: nat, k: nat)
    requires size == n / 3 * 4 + (if n % 3 == 0 then 0 else n % 3 + 1) && k <= 2 && (size + k) % 4 == 0
    ensures Fills(n) == k
  {
    FillsComplete(n);
    hide Fills;
    SameFills(size, Fills(n), k);
  }

  lemma DecodedFills(a: Alphabet, t: string, k: nat)
    requires a.Spells(t) && k <= 2 && (|t| + k) % 4 == 0
    ensures |t| % 4 != 1 && |EncodeText(a, DecodeText(a, t))| == |t|
    ensures Fills(|DecodeText(a, t)|) == k
  {
    OneIsNeverLeft(|t|, k);
    hide *;
    DecodedSize(a, t);
    EncodeTextSpells(a, DecodeText(a, t));
    FillsOfSize(|DecodeText(a, t)|, |t|, k);
  }

  /**
   Encoding what was decoded gives the input back exactly when the bits that decoding
   discards are zero.
   */
  lemma ReencodeCanonical(a: Alphabet, base: string, t: string, k: nat)
    requires Padded(a, base, t, k)
    ensures Decode(a, base) == Some(DecodeText(a, t))
    ensures Encode(a, DecodeText(a, t)) == base <==> ZeroTail(a, t)
  {
    hide EncodeText, DecodeText, Repeat, Alphabet.Spells, ZeroTail, Decode;
    var bin := DecodeText(a, t);
    DecodePadded(a, base, t, k);
    DecodedFills(a, t, k);
    ReencodeText(a, t);
    AppendEqual(EncodeText(a, bin), t, Repeat(a.Fill(), k), Repeat(a.Fill(), k));
  }
}
