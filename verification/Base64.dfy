/**
 * Base64 (section 4 of RFC 4648) as the standard Go decoder reads it: line breaks are skipped
 * wherever they stand, padding is mandatory, and the unused low bits of the last digit are
 * not looked at.
 */
module Base64 {
  import opened ByteStrings
  import opened Wrappers

  type Sextet = x: int | 0 <= x < 64

  function Digit(v: Sextet): char {
    if v < 26 then (65 + v) as char
    else if v < 52 then (71 + v) as char
    else if v < 62 then (v - 4) as char
    else if v == 62 then '+'
    else '/'
  }

  /** The value of a digit, or -1 for a character outside the alphabet. */
  function Value(c: char): (v: int)
    ensures -1 <= v < 64
    ensures v >= 0 ==> Digit(v) == c
  {
    if 'A' <= c <= 'Z' then c as int - 65
    else if 'a' <= c <= 'z' then c as int - 71
    else if '0' <= c <= '9' then c as int + 4
    else if c == '+' then 62
    else if c == '/' then 63
    else -1
  }

  predicate IsDigit(c: char) { Value(c) >= 0 }

  const UPPER: string := "ABCDEFGHIJKLMNOPQRSTUVWXYZ"
  const LOWER: string := "abcdefghijklmnopqrstuvwxyz"
  const DECIMALS: string := "0123456789"
  const ALPHABET: string := UPPER + LOWER + DECIMALS + "+/"

  lemma UpperAt(k: nat)
    requires k < 26
    ensures |UPPER| == 26 && UPPER[k] == ('A' as int + k) as char
  {
    assert
      k == 0 || k == 1 || k == 2 || k == 3 || k == 4 || k == 5 || k == 6 || k == 7 || k == 8 || k == 9 ||
      k == 10 || k == 11 || k == 12 || k == 13 || k == 14 || k == 15 || k == 16 || k == 17 || k == 18 ||
      k == 19 || k == 20 || k == 21 || k == 22 || k == 23 || k == 24 || k == 25;
  }

  lemma LowerAt(k: nat)
    requires k < 26
    ensures |LOWER| == 26 && LOWER[k] == ('a' as int + k) as char
  {
    assert
      k == 0 || k == 1 || k == 2 || k == 3 || k == 4 || k == 5 || k == 6 || k == 7 || k == 8 || k == 9 ||
      k == 10 || k == 11 || k == 12 || k == 13 || k == 14 || k == 15 || k == 16 || k == 17 || k == 18 ||
      k == 19 || k == 20 || k == 21 || k == 22 || k == 23 || k == 24 || k == 25;
  }

  lemma DecimalAt(k: nat)
    requires k < 10
    ensures |DECIMALS| == 10 && DECIMALS[k] == ('0' as int + k) as char
  {
    assert
      k == 0 || k == 1 || k == 2 || k == 3 || k == 4 || k == 5 || k == 6 || k == 7 || k == 8 || k == 9;
  }

  lemma DigitOfAlphabet(v: Sextet)
    ensures |ALPHABET| == 64 && Digit(v) == ALPHABET[v]
  {
    if v < 26 {
      UpperAt(v);
    } else if v < 52 {
      LowerAt(v - 26);
    } else if v < 62 {
      DecimalAt(v - 52);
    }
  }

  lemma ValueDigit(v: Sextet)
    ensures Value(Digit(v)) == v && IsDigit(Digit(v)) && Digit(v) != '='
  {
  }

  /** The digits are those of the standard alphabet, in its order, and nothing else has a value. */
  lemma ValueOfAlphabet(c: char, v: int)
    ensures |ALPHABET| == 64
    ensures 0 <= v < 64 ==> (Value(c) == v <==> c == ALPHABET[v])
    ensures Value(c) < 0 <==> c !in ALPHABET
  {
    if 0 <= v < 64 {
      DigitOfAlphabet(v);
      ValueDigit(v);
    }
    if Value(c) >= 0 {
      DigitOfAlphabet(Value(c));
    }
    if c in ALPHABET {
      var i :| 0 <= i < 64 && ALPHABET[i] == c;
      DigitOfAlphabet(i);
      ValueDigit(i);
    }
  }

  // The four sextets of a 24-bit group, from its bytes.
  function Sextet0(a: byte): Sextet { a / 4 }

  function Sextet1(a: byte, b: byte): Sextet { a % 4 * 16 + b / 16 }

  function Sextet2(b: byte, c: byte): Sextet { b % 16 * 4 + c / 64 }

  function Sextet3(c: byte): Sextet { c % 64 }

  // The three bytes of a 24-bit group, from its sextets.
  function Byte0(v0: Sextet, v1: Sextet): byte { v0 * 4 + v1 / 16 }

  function Byte1(v1: Sextet, v2: Sextet): byte { v1 % 16 * 16 + v2 / 4 }

  function Byte2(v2: Sextet, v3: Sextet): byte { v2 % 4 * 64 + v3 }

  // A last digit with the bits that spell no byte cleared.
  function ClearFour(v: Sextet): Sextet { v / 16 * 16 }

  function ClearTwo(v: Sextet): Sextet { v / 4 * 4 }

  lemma Byte0OfSextets(a: byte, b: byte)
    ensures Byte0(Sextet0(a), Sextet1(a, b)) == a
  {
  }

  lemma Byte1OfSextets(a: byte, b: byte, c: byte)
    ensures Byte1(Sextet1(a, b), Sextet2(b, c)) == b
  {
    assert Sextet1(a, b) % 16 == b / 16;
    assert Sextet2(b, c) / 4 == b % 16;
  }

  lemma Byte2OfSextets(b: byte, c: byte)
    ensures Byte2(Sextet2(b, c), Sextet3(c)) == c
  {
    assert Sextet2(b, c) % 4 == c / 64;
  }

  lemma Sextet0OfBytes(v0: Sextet, v1: Sextet)
    ensures Sextet0(Byte0(v0, v1)) == v0 && Sextet1(Byte0(v0, v1), 0) == ClearFour(v1)
  {
    assert Byte0(v0, v1) % 4 == v1 / 16;
  }

  lemma Sextet1OfBytes(v0: Sextet, v1: Sextet, v2: Sextet)
    ensures Sextet1(Byte0(v0, v1), Byte1(v1, v2)) == v1 && Sextet2(Byte1(v1, v2), 0) == ClearTwo(v2)
  {
    assert Byte0(v0, v1) % 4 == v1 / 16;
    assert Byte1(v1, v2) / 16 == v1 % 16 && Byte1(v1, v2) % 16 == v2 / 4;
  }

  lemma Sextet2OfBytes(v1: Sextet, v2: Sextet, v3: Sextet)
    ensures Sextet2(Byte1(v1, v2), Byte2(v2, v3)) == v2 && Sextet3(Byte2(v2, v3)) == v3
  {
    assert Byte1(v1, v2) % 16 == v2 / 4;
    assert Byte2(v2, v3) / 64 == v2 % 4;
  }

  lemma ClearedFourSpellNoByte(a: byte, v: Sextet)
    requires ClearFour(v) == Sextet1(a, 0)
    ensures Byte0(Sextet0(a), v) == a
  {
    assert v / 16 == a % 4;
  }

  lemma ClearedTwoSpellNoByte(a: byte, b: byte, v: Sextet)
    requires ClearTwo(v) == Sextet2(b, 0)
    ensures Byte1(Sextet1(a, b), v) == b
  {
    assert v / 4 == b % 16;
    assert Sextet1(a, b) % 16 == b / 16;
  }

  function EncodeThree(a: byte, b: byte, c: byte): (s: string)
    ensures |s| == 4
  {
    [Digit(Sextet0(a)), Digit(Sextet1(a, b)), Digit(Sextet2(b, c)), Digit(Sextet3(c))]
  }

  function EncodeTwo(a: byte, b: byte): (s: string)
    ensures |s| == 4
  {
    [Digit(Sextet0(a)), Digit(Sextet1(a, b)), Digit(Sextet2(b, 0)), '=']
  }

  function EncodeOne(a: byte): (s: string)
    ensures |s| == 4
  {
    [Digit(Sextet0(a)), Digit(Sextet1(a, 0)), '=', '=']
  }

  function Encode(b: Bytes): string {
    if |b| == 0 then ""
    else if |b| == 1 then EncodeOne(b[0])
    else if |b| == 2 then EncodeTwo(b[0], b[1])
    else EncodeThree(b[0], b[1], b[2]) + Encode(b[3..])
  }

  function StripLineBreaks(s: string): string {
    if s == "" then ""
    else if s[0] == '\r' || s[0] == '\n' then StripLineBreaks(s[1..])
    else [s[0]] + StripLineBreaks(s[1..])
  }

  predicate AllDigits(s: string) {
    forall i :: 0 <= i < |s| ==> IsDigit(s[i])
  }

  function DecodeFour(s: string): Bytes
    requires |s| == 4 && AllDigits(s)
  {
    var v0, v1, v2, v3 := Value(s[0]), Value(s[1]), Value(s[2]), Value(s[3]);
    [Byte0(v0, v1), Byte1(v1, v2), Byte2(v2, v3)]
  }

  /** A last group of four characters, padded. */
  function DecodePadded(s: string): Option<Bytes>
    requires |s| == 4
  {
    if !IsDigit(s[0]) || !IsDigit(s[1]) || s[3] != '=' then None
    else if s[2] == '=' then Some([Byte0(Value(s[0]), Value(s[1]))])
    else if IsDigit(s[2]) then Some([Byte0(Value(s[0]), Value(s[1])), Byte1(Value(s[1]), Value(s[2]))])
    else None
  }

  /** Decodes text without line breaks, four characters at a time. */
  function DecodeQuads(s: string): Option<Bytes> {
    if s == "" then Some([])
    else if |s| < 4 then None
    else if AllDigits(s[..4]) then
      match DecodeQuads(s[4..])
      case None => None
      case Some(rest) => Some(DecodeFour(s[..4]) + rest)
    else if |s| == 4 then DecodePadded(s)
    else None
  }

  function Decode(s: string): Option<Bytes> {
    DecodeQuads(StripLineBreaks(s))
  }

  function CanonicalPadded(s: string): (r: string)
    requires |s| == 4
    ensures |r| == 4
  {
    if s[3] != '=' then s
    else if s[2] == '=' then if IsDigit(s[1]) then [s[0], Digit(ClearFour(Value(s[1]))), '=', '='] else s
    else if IsDigit(s[2]) then [s[0], s[1], Digit(ClearTwo(Value(s[2]))), '=']
    else s
  }

  /** The text with the unused low bits of its last digit cleared; all else is kept. */
  function Canonical(s: string): (r: string)
    ensures |r| == |s|
  {
    if |s| < 4 then s
    else if |s| == 4 then CanonicalPadded(s)
    else s[..4] + Canonical(s[4..])
  }

  predicate IsEncodingChar(c: char) { IsDigit(c) || c == '=' }

  /** The alphabet holds no line break, no dot and no bar. */
  lemma {:induction false} EncodeAlphabet(b: Bytes)
    ensures |Encode(b)| % 4 == 0 && |Encode(b)| >= |b|
    ensures forall i :: 0 <= i < |Encode(b)| ==> IsEncodingChar(Encode(b)[i])
  {
    hide Digit, Value, IsDigit;
    forall v: Sextet ensures IsDigit(Digit(v)) { ValueDigit(v); }
    if |b| >= 3 {
      EncodeAlphabet(b[3..]);
    }
  }

  lemma StripFirst(s: string)
    requires s != ""
    ensures StripLineBreaks(s) ==
            (if s[0] == '\r' || s[0] == '\n' then "" else [s[0]]) + StripLineBreaks(s[1..])
  {
  }

  /** Nothing is skipped but line breaks, wherever they stand. */
  lemma {:induction false} StripExactly(s: string, t: string)
    ensures StripLineBreaks(s + t) == StripLineBreaks(s) + StripLineBreaks(t)
    ensures |s| == 1 ==> StripLineBreaks(s) == if s[0] == '\r' || s[0] == '\n' then "" else s
  {
    if s == "" {
      assert s + t == t;
    } else {
      StripFirst(s);
      StripFirst(s + t);
      assert (s + t)[1..] == s[1..] + t;
      StripExactly(s[1..], t);
      assert |s| == 1 ==> StripLineBreaks(s[1..]) == "" && [s[0]] == s;
      hide StripLineBreaks;
    }
  }

  lemma {:induction false} StripNothing(s: string)
    requires forall i :: 0 <= i < |s| ==> IsEncodingChar(s[i])
    ensures StripLineBreaks(s) == s
  {
    if s != "" {
      StripNothing(s[1..]);
    }
  }

  /** The number that a group of digits spells, most significant digit first. */
  function Number(s: string): int {
    if s == "" then 0 else Number(s[..|s| - 1]) * 64 + Value(s[|s| - 1])
  }

  lemma NumberOfFour(a: char, b: char, c: char, d: char)
    ensures Number([a, b]) == Value(a) * 64 + Value(b)
    ensures Number([a, b, c]) == Value(a) * 4096 + Value(b) * 64 + Value(c)
    ensures Number([a, b, c, d]) == Value(a) * 262144 + Value(b) * 4096 + Value(c) * 64 + Value(d)
  {
    hide Value;
    assert [a, b, c, d][..3] == [a, b, c] && [a, b, c][..2] == [a, b] && [a, b][..1] == [a] && [a][..0] == [];
    assert Number([a]) == Value(a);
  }

  lemma ThreeAreANumber(a: byte, b: byte, c: byte)
    ensures Number(EncodeThree(a, b, c)) == a * 65536 + b * 256 + c
    ensures Number(EncodeTwo(a, b)[..3]) == (a * 256 + b) * 4
    ensures Number(EncodeOne(a)[..2]) == a * 16
  {
    hide Number;
    var s, t, u := EncodeThree(a, b, c), EncodeTwo(a, b), EncodeOne(a);
    ValueDigit(Sextet0(a));
    ValueDigit(Sextet1(a, b));
    ValueDigit(Sextet2(b, c));
    ValueDigit(Sextet3(c));
    ValueDigit(Sextet2(b, 0));
    ValueDigit(Sextet1(a, 0));
    NumberOfFour(s[0], s[1], s[2], s[3]);
    NumberOfFour(t[0], t[1], t[2], '=');
    NumberOfFour(u[0], u[1], '=', '=');
    assert s == [s[0], s[1], s[2], s[3]] && t[..3] == [t[0], t[1], t[2]] && u[..2] == [u[0], u[1]];
    hide Digit, Value;
  }

  /** The last group of digits of an encoding, or one in its middle, spells these bytes. */
  ghost predicate GroupSpells(g: string, b: Bytes)
    requires |g| == 4 && |b| > 0
  {
    if |b| >= 3 then Number(g) == b[0] as int * 65536 + b[1] as int * 256 + b[2]
    else if |b| == 2 then Number(g[..3]) == (b[0] as int * 256 + b[1]) * 4 && g[3..] == "="
    else Number(g[..2]) == b[0] as int * 16 && g[2..] == "=="
  }

  lemma FirstGroupSpells(b: Bytes)
    requires |b| > 0
    ensures |Encode(b)| >= 4 && GroupSpells(Encode(b)[..4], b)
    ensures |b| >= 3 ==> Encode(b)[4..] == Encode(b[3..])
    ensures |b| < 3 ==> |Encode(b)| == 4
  {
    hide Number, Digit, Sextet0, Sextet1, Sextet2, Sextet3;
    ThreeAreANumber(b[0], if |b| > 1 then b[1] else 0, if |b| > 2 then b[2] else 0);
    if |b| >= 3 {
      assert Encode(b)[..4] == EncodeThree(b[0], b[1], b[2]);
    } else {
      assert Encode(b)[..4] == Encode(b);
    }
  }

  lemma EncodesNothing()
    ensures Encode([]) == ""
  {
  }

  /**
   * What the encoding spells: every three bytes are the number of their four digits; of a last
   * group, one or two bytes are the number of two or three digits with the unused bits zero, and
   * padding signs make up the four characters.
   */
  lemma {:induction false} EncodesBits(b: Bytes, i: nat)
    requires 3 * i < |b|
    ensures |Encode(b)| == (|b| + 2) / 3 * 4
    ensures GroupSpells(Encode(b)[4 * i..4 * i + 4], b[3 * i..])
    decreases |b|
  {
    hide Encode, GroupSpells;
    FirstGroupSpells(b);
    var s := Encode(b);
    assert b[0..] == b && s[0..4] == s[..4];
    if |b| > 3 {
      EncodesBits(b[3..], if i == 0 then 0 else i - 1);
      if i > 0 {
        assert b[3..][3 * (i - 1)..] == b[3 * i..];
        assert s[4..][4 * (i - 1)..4 * (i - 1) + 4] == s[4 * i..4 * i + 4];
      }
    } else if |b| == 3 {
      assert b[3..] == [] && Encode([]) == "" by {
        EncodesNothing();
      }
    }
  }

  lemma ThreeAreReadBack(a: byte, b: byte, c: byte)
    ensures AllDigits(EncodeThree(a, b, c)) && DecodeFour(EncodeThree(a, b, c)) == [a, b, c]
  {
    ValueDigit(Sextet0(a));
    ValueDigit(Sextet1(a, b));
    ValueDigit(Sextet2(b, c));
    ValueDigit(Sextet3(c));
    Byte0OfSextets(a, b);
    Byte1OfSextets(a, b, c);
    Byte2OfSextets(b, c);
    hide Digit, Value, IsDigit, Byte0, Byte1, Byte2, Sextet0, Sextet1, Sextet2, Sextet3;
  }

  lemma FourAreWrittenBack(s: string)
    requires |s| == 4 && AllDigits(s)
    ensures var b := DecodeFour(s); EncodeThree(b[0], b[1], b[2]) == s
  {
    var v0, v1, v2, v3 := Value(s[0]), Value(s[1]), Value(s[2]), Value(s[3]);
    Sextet0OfBytes(v0, v1);
    Sextet1OfBytes(v0, v1, v2);
    Sextet2OfBytes(v1, v2, v3);
    hide Digit, Byte0, Byte1, Byte2, Sextet0, Sextet1, Sextet2, Sextet3;
  }

  lemma OneIsReadBack(a: byte, s: string)
    requires |s| == 4 && CanonicalPadded(s) == EncodeOne(a)
    ensures DecodePadded(s) == Some([a])
  {
    ValueDigit(Sextet0(a));
    ValueDigit(Sextet1(a, 0));
    ValueDigit(ClearFour(Value(s[1])));
    ClearedFourSpellNoByte(a, Value(s[1]));
    hide Digit, Value, Byte0, Sextet0, Sextet1, ClearFour;
    assert s[3] == '=' && s[2] == '=' && IsDigit(s[1]) && s[0] == Digit(Sextet0(a));
  }

  lemma TwoAreReadBack(a: byte, b: byte, s: string)
    requires |s| == 4 && CanonicalPadded(s) == EncodeTwo(a, b)
    ensures DecodePadded(s) == Some([a, b])
  {
    ValueDigit(Sextet0(a));
    ValueDigit(Sextet1(a, b));
    ValueDigit(Sextet2(b, 0));
    ValueDigit(ClearTwo(Value(s[2])));
    Byte0OfSextets(a, b);
    ClearedTwoSpellNoByte(a, b, Value(s[2]));
    hide Digit, Value, Byte0, Byte1, Sextet0, Sextet1, Sextet2, ClearTwo;
    assert s[3] == '=' && s[2] != '=' && IsDigit(s[2]) && s[0] == Digit(Sextet0(a)) && s[1] == Digit(Sextet1(a, b));
  }

  lemma PaddedIsReadBack(b: Bytes, s: string)
    requires 1 <= |b| <= 2 && |s| == 4 && CanonicalPadded(s) == Encode(b)
    ensures DecodePadded(s) == Some(b)
  {
    hide CanonicalPadded, EncodeOne, EncodeTwo, DecodePadded;
    if |b| == 1 {
      OneIsReadBack(b[0], s);
      assert b == [b[0]];
    } else {
      TwoAreReadBack(b[0], b[1], s);
      assert b == [b[0], b[1]];
    }
  }

  lemma PaddedIsWrittenBack(s: string)
    requires |s| == 4
    ensures DecodePadded(s).Some? ==> CanonicalPadded(s) == Encode(DecodePadded(s).value)
  {
    if DecodePadded(s).None? {
      return;
    }
    var v0, v1 := Value(s[0]), Value(s[1]);
    Sextet0OfBytes(v0, v1);
    if s[2] != '=' {
      Sextet1OfBytes(v0, v1, Value(s[2]));
    }
    hide Digit, Value, Byte0, Byte1, Sextet0, Sextet1, Sextet2, ClearFour, ClearTwo;
  }

  lemma CanonicalEncoding(b: Bytes)
    requires 1 <= |b| <= 2
    ensures CanonicalPadded(Encode(b)) == Encode(b)
  {
    ValueDigit(Sextet1(b[0], 0));
    assert ClearFour(Sextet1(b[0], 0)) == Sextet1(b[0], 0);
    if |b| == 2 {
      ValueDigit(Sextet2(b[1], 0));
      assert ClearTwo(Sextet2(b[1], 0)) == Sextet2(b[1], 0);
    }
    hide Digit, Value, Sextet0, Sextet1, Sextet2, ClearFour, ClearTwo;
  }

  /** A whole group of digits ahead of a text decodes to three bytes ahead of what that text decodes to. */
  lemma DecodeGroup(s: string, b: Bytes)
    requires |s| >= 4 && |b| >= 3 && s[..4] == EncodeThree(b[0], b[1], b[2])
    requires DecodeQuads(s[4..]) == Some(b[3..])
    ensures DecodeQuads(s) == Some(b)
  {
    ThreeAreReadBack(b[0], b[1], b[2]);
    hide EncodeThree, DecodeFour, AllDigits;
    assert [b[0], b[1], b[2]] + b[3..] == b;
  }

  lemma PaddedIsNoGroup(s: string)
    requires |s| == 4 && s[3] == '='
    ensures DecodeQuads(s) == DecodePadded(s)
  {
    assert s[..4] == s && !IsDigit(s[3]);
  }

  /** Every byte string is read back from its own encoding. */
  lemma {:induction false} DecodeQuadsEncode(b: Bytes)
    ensures DecodeQuads(Encode(b)) == Some(b)
  {
    if |b| >= 3 {
      DecodeQuadsEncode(b[3..]);
      assert Encode(b)[..4] == EncodeThree(b[0], b[1], b[2]) && Encode(b)[4..] == Encode(b[3..]);
      DecodeGroup(Encode(b), b);
    } else if |b| > 0 {
      CanonicalEncoding(b);
      PaddedIsReadBack(b, Encode(b));
      PaddedIsNoGroup(Encode(b));
    }
  }

  lemma DecodeEncode(b: Bytes)
    ensures Decode(Encode(b)) == Some(b)
  {
    EncodeAlphabet(b);
    StripNothing(Encode(b));
    DecodeQuadsEncode(b);
  }

  lemma GroupIsCanonical(s: string)
    requires |s| == 4 && AllDigits(s[..4])
    ensures CanonicalPadded(s) == s
  {
    assert IsDigit(s[..4][3]);
  }

  /** Whatever text is decoded differs from the encoding of the result in unused bits only. */
  lemma {:induction false} DecodedIsCanonical(s: string)
    requires DecodeQuads(s).Some?
    ensures Canonical(s) == Encode(DecodeQuads(s).value)
  {
    hide Digit, Value, IsDigit, EncodeThree, EncodeTwo, EncodeOne, CanonicalPadded, DecodePadded;
    if s != "" && AllDigits(s[..4]) {
      var b, rest := DecodeQuads(s).value, DecodeQuads(s[4..]).value;
      FourAreWrittenBack(s[..4]);
      DecodedIsCanonical(s[4..]);
      assert b[3..] == rest;
      if |s| == 4 {
        GroupIsCanonical(s);
        assert s[4..] == "" && s[..4] == s;
      }
    } else if s != "" {
      PaddedIsWrittenBack(s);
    }
  }

  lemma LastGroupIsDecoded(s: string, b: Bytes)
    requires |s| == 4 && |b| >= 3 && CanonicalPadded(s) == Encode(b)
    ensures DecodeQuads(s) == Some(b)
  {
    EncodeAlphabet(b[3..]);
    ValueDigit(Sextet3(b[2]));
    assert b[3..] == [] && Encode(b) == EncodeThree(b[0], b[1], b[2]);
    hide Digit;
    assert CanonicalPadded(s)[3] != '=';
    assert s[4..] == "" && s[..4] == s;
    DecodeGroup(s, b);
  }

  /** A text whose unused bits can be cleared to give an encoding is decoded. */
  lemma {:induction false} CanonicalIsDecoded(s: string, b: Bytes)
    requires Canonical(s) == Encode(b)
    ensures DecodeQuads(s) == Some(b)
  {
    EncodeAlphabet(b);
    if |s| > 4 {
      assert Encode(b)[..4] == EncodeThree(b[0], b[1], b[2]) && Encode(b)[4..] == Encode(b[3..]);
      hide EncodeThree;
      assert Canonical(s)[..4] == s[..4] && Canonical(s)[4..] == Canonical(s[4..]);
      CanonicalIsDecoded(s[4..], b[3..]);
      DecodeGroup(s, b);
    } else if |s| == 4 {
      if |b| >= 3 {
        LastGroupIsDecoded(s, b);
      } else {
        PaddedIsReadBack(b, s);
        PaddedIsNoGroup(s);
      }
    }
  }

  /** Exactly which texts are read, and as what. */
  lemma DecodeExact(s: string, b: Bytes)
    ensures Decode(s) == Some(b) <==> Canonical(StripLineBreaks(s)) == Encode(b)
  {
    var t := StripLineBreaks(s);
    if Decode(s) == Some(b) {
      DecodedIsCanonical(t);
    }
    if Canonical(t) == Encode(b) {
      CanonicalIsDecoded(t, b);
    }
  }
}
