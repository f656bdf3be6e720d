/** The vault's type-2 encrypted string, "2.<iv>|<ciphertext>|<mac>", each part in base64. */
module EncString {
  import opened ByteStrings
  import opened Wrappers
  import Base64
  import Cbc
  import Pkcs7

  type Crypto = Cbc.Crypto

  type Iv = b: Bytes | |b| == 16 witness seq(16, i => 0)

  const MAX_INT: int := 0x7fff_ffff_ffff_ffff

  // ---------------------------------------------------------------- text

  /** The position of the first `c`, or -1. */
  function IndexOf(s: string, c: char): (i: int)
    ensures -1 <= i < |s|
    ensures i < 0 <==> c !in s
    ensures i >= 0 ==> s[i] == c && forall k :: 0 <= k < i ==> s[k] != c
  {
    if s == "" then -1
    else if s[0] == c then 0
    else
      var i := IndexOf(s[1..], c);
      assert forall k :: 1 <= k <= i ==> s[k] == s[1..][k - 1];
      if i < 0 then -1 else i + 1
  }

  function Split(s: string, c: char): (parts: seq<string>)
    ensures |parts| >= 1
  {
    var i := IndexOf(s, c);
    if i < 0 then [s] else [s[..i]] + Split(s[i + 1..], c)
  }

  function Join(parts: seq<string>, c: char): string
    requires |parts| >= 1
  {
    if |parts| == 1 then parts[0] else parts[0] + [c] + Join(parts[1..], c)
  }

  lemma SplitAtFirst(s: string, c: char)
    requires c in s
    ensures Split(s, c) == [s[..IndexOf(s, c)]] + Split(s[IndexOf(s, c) + 1..], c)
  {
  }

  lemma SplitNowhere(s: string, c: char)
    requires c !in s
    ensures Split(s, c) == [s] && Join([s], c) == s
  {
  }

  lemma JoinMore(part: string, parts: seq<string>, c: char)
    requires |parts| >= 1
    ensures Join([part] + parts, c) == part + [c] + Join(parts, c)
  {
    assert ([part] + parts)[1..] == parts;
  }

  /** Splitting is exact: the parts spell the text when joined, and are free of the separator. */
  lemma {:induction false} JoinSplit(s: string, c: char)
    ensures Join(Split(s, c), c) == s
  {
    hide Split, Join;
    if c in s {
      var i := IndexOf(s, c);
      JoinSplit(s[i + 1..], c);
      SplitAtFirst(s, c);
      JoinMore(s[..i], Split(s[i + 1..], c), c);
      hide IndexOf;
      assert s == s[..i] + [c] + s[i + 1..];
    } else {
      SplitNowhere(s, c);
    }
  }

  lemma {:induction false} PartsAreFree(s: string, c: char)
    ensures forall k :: 0 <= k < |Split(s, c)| ==> c !in Split(s, c)[k]
  {
    var i, q := IndexOf(s, c), Split(s, c);
    if i >= 0 {
      PartsAreFree(s[i + 1..], c);
      assert forall k :: 0 < k < |q| ==> q[k] == Split(s[i + 1..], c)[k - 1];
    }
  }

  lemma FirstSeparator(head: string, c: char, tail: string)
    requires c !in head
    ensures var s := head + [c] + tail;
            IndexOf(s, c) == |head| && s[..|head|] == head && s[|head| + 1..] == tail
  {
    var s := head + [c] + tail;
    assert s[|head|] == c && forall k :: 0 <= k < |head| ==> s[k] == head[k];
  }

  lemma {:induction false} SplitJoin(parts: seq<string>, c: char)
    requires |parts| >= 1 && forall k :: 0 <= k < |parts| ==> c !in parts[k]
    ensures Split(Join(parts, c), c) == parts
  {
    if |parts| > 1 {
      var tail := Join(parts[1..], c);
      FirstSeparator(parts[0], c, tail);
      SplitJoin(parts[1..], c);
      SplitAtFirst(parts[0] + [c] + tail, c);
      assert parts == [parts[0]] + parts[1..];
      hide Split, IndexOf;
    }
  }

  // ---------------------------------------------------------------- type prefix

  predicate IsDecimal(s: string) {
    forall i :: 0 <= i < |s| ==> '0' <= s[i] <= '9'
  }

  function DecimalValue(s: string): nat
    requires IsDecimal(s)
  {
    if s == "" then 0 else 10 * DecimalValue(s[..|s| - 1]) + (s[|s| - 1] as int - '0' as int)
  }

  function WithoutSign(s: string): string {
    if s != "" && (s[0] == '+' || s[0] == '-') then s[1..] else s
  }

  /** Decimal conversion with an optional sign, refusing what does not fit in 64 bits. */
  function Atoi(s: string): Option<int> {
    var digits := WithoutSign(s);
    if digits == "" || !IsDecimal(digits) then None
    else
      var n: int := DecimalValue(digits);
      if s[0] == '-' then if n <= MAX_INT + 1 then Some(-n) else None
      else if n <= MAX_INT then Some(n) else None
  }

  predicate AllZeros(s: string) {
    forall i :: 0 <= i < |s| ==> s[i] == '0'
  }

  lemma {:induction false} ZeroValue(s: string)
    requires IsDecimal(s)
    ensures DecimalValue(s) == 0 <==> AllZeros(s)
  {
    if s != "" {
      var init := s[..|s| - 1];
      ZeroValue(init);
      assert AllZeros(s) <==> AllZeros(init) && s[|s| - 1] == '0' by {
        if AllZeros(init) && s[|s| - 1] == '0' {
          forall i | 0 <= i < |s| ensures s[i] == '0' { assert i < |s| - 1 ==> s[i] == init[i]; }
        }
      }
    }
  }

  /** The prefixes that name type 2: an optional plus sign, zeros, and a final '2'. */
  predicate NamesTypeTwo(t: string) {
    var digits := if t != "" && t[0] == '+' then t[1..] else t;
    digits != "" && digits[|digits| - 1] == '2' && AllZeros(digits[..|digits| - 1])
  }

  lemma TypeTwoIsDecimal(t: string)
    requires NamesTypeTwo(t)
    ensures t != "" && t[0] != '-' && WithoutSign(t) != "" && IsDecimal(WithoutSign(t))
  {
    var d := if t[0] == '+' then t[1..] else t;
    var init := d[..|d| - 1];
    assert d[0] == if |d| == 1 then '2' else init[0];
    forall i | 0 <= i < |d| ensures '0' <= d[i] <= '9' {
      assert i < |d| - 1 ==> d[i] == init[i];
    }
  }

  lemma TypeTwo(t: string)
    ensures Atoi(t) == Some(2) <==> NamesTypeTwo(t)
  {
    var digits := WithoutSign(t);
    if NamesTypeTwo(t) {
      TypeTwoIsDecimal(t);
    }
    if digits != "" && IsDecimal(digits) {
      var init := digits[..|digits| - 1];
      ZeroValue(init);
      assert DecimalValue(digits) == 10 * DecimalValue(init) + (digits[|digits| - 1] as int - '0' as int);
      assert DecimalValue(digits) == 2 <==> digits[|digits| - 1] == '2' && AllZeros(init);
    }
  }

  // ---------------------------------------------------------------- the codec

  datatype Parts = Parts(iv: Bytes, ct: Bytes, mac: Bytes)

  function ParseParts(s: string): Result<Parts, string> {
    var dot := IndexOf(s, '.');
    if dot < 0 then Failure("malformed enc string: missing type prefix")
    else if Atoi(s[..dot]) != Some(2) then Failure("unsupported enc type")
    else
      var parts := Split(s[dot + 1..], '|');
      if |parts| != 3 then Failure("malformed enc string: expected 3 parts")
      else
        var iv, ct, mac := Base64.Decode(parts[0]), Base64.Decode(parts[1]), Base64.Decode(parts[2]);
        if iv.None? then Failure("invalid iv")
        else if ct.None? then Failure("invalid ciphertext")
        else if mac.None? then Failure("invalid mac")
        else Success(Parts(iv.value, ct.value, mac.value))
  }

  /** The key sizes the block cipher accepts. */
  predicate KeyFits(encKey: Bytes) { |encKey| in {16, 24, 32} }

  function OpenParts(p: Crypto, parts: Parts, encKey: Bytes, macKey: Bytes): Outcome<Bytes, string> {
    if p.digest(macKey, parts.iv + parts.ct) != parts.mac then Err("MAC verification failed")
    else if !KeyFits(encKey) then Err("invalid key size")
    else if |parts.ct| % BLOCK_SIZE != 0 then Err("ciphertext length not a multiple of block size")
    else if |parts.iv| != BLOCK_SIZE then Panic
    else
      match Pkcs7.Unpad(Cbc.Decrypt(p, encKey, parts.iv, parts.ct))
      case Success(text) => Ok(text)
      case Failure(e) => Err(e)
  }

  function Decrypt(p: Crypto, s: string, encKey: Bytes, macKey: Bytes): Outcome<Bytes, string> {
    if s == "" then Ok([])
    else
      match ParseParts(s)
      case Failure(e) => Err(e)
      case Success(parts) => OpenParts(p, parts, encKey, macKey)
  }

  function Spell(parts: Parts): string {
    "2." + Base64.Encode(parts.iv) + "|" + Base64.Encode(parts.ct) + "|" + Base64.Encode(parts.mac)
  }

  /** The parts that carry a text: what a holder of both keys would have written under that IV. */
  function SealParts(p: Crypto, text: Bytes, iv: Iv, encKey: Bytes, macKey: Bytes): Parts {
    Pkcs7.PadLength(text);
    var ct := Cbc.Encrypt(p, encKey, iv, Pkcs7.Pad(text));
    Parts(iv, ct, p.digest(macKey, iv + ct))
  }

  /** `iv` is what the random source delivers, `None` when it fails. */
  function Encrypt(p: Crypto, text: Bytes, iv: Option<Iv>, encKey: Bytes, macKey: Bytes): Result<string, string> {
    if text == [] then Success("")
    else if iv.None? then Failure("generate iv")
    else if !KeyFits(encKey) then Failure("invalid key size")
    else Success(Spell(SealParts(p, text, iv.value, encKey, macKey)))
  }

  lemma NoTypePrefix(p: Crypto, s: string, encKey: Bytes, macKey: Bytes)
    requires s != "" && '.' !in s
    ensures Decrypt(p, s, encKey, macKey).Err?
  {
    hide OpenParts, Split, Atoi;
  }

  // ---------------------------------------------------------------- buffers

  method DecryptEncString(p: Crypto, s: string, encKey: Bytes, macKey: Bytes) returns (r: Outcome<Bytes, string>)
    ensures r == Decrypt(p, s, encKey, macKey)
  {
    if s == "" {
      return Ok([]);
    }
    var parsed := ParseParts(s);
    if parsed.Failure? {
      return Err(parsed.error);
    }
    var parts := parsed.value;
    if p.digest(macKey, parts.iv + parts.ct) != parts.mac {
      return Err("MAC verification failed");
    }
    if !KeyFits(encKey) {
      return Err("invalid key size");
    }
    if |parts.ct| % BLOCK_SIZE != 0 {
      return Err("ciphertext length not a multiple of block size");
    }
    if |parts.iv| != BLOCK_SIZE {
      return Panic;
    }
    var plain := new byte[|parts.ct|];
    Cbc.DecryptBlocks(p, encKey, parts.iv, parts.ct, plain);
    var text := Pkcs7.Unpad(plain[..]);
    r := if text.Success? then Ok(text.value) else Err(text.error);
  }

  method EncryptStr(p: Crypto, text: Bytes, iv: Option<Iv>, encKey: Bytes, macKey: Bytes)
    returns (r: Result<string, string>)
    ensures r == Encrypt(p, text, iv, encKey, macKey)
  {
    if text == [] {
      return Success("");
    }
    if iv.None? {
      return Failure("generate iv");
    }
    var padded := Pkcs7.Pad(text);
    Pkcs7.PadLength(text);
    if !KeyFits(encKey) {
      return Failure("invalid key size");
    }
    var ct := new byte[|padded|];
    Cbc.EncryptBlocks(p, encKey, iv.value, padded, ct);
    var mac := p.digest(macKey, iv.value + ct[..]);
    r := Success(Spell(Parts(iv.value, ct[..], mac)));
  }

  // ---------------------------------------------------------------- what is accepted

  /** The text is a type-2 prefix, a dot and three base64 texts separated by bars. */
  ghost predicate Frames(s: string, t: string, a: string, b: string, c: string) {
    && s == t + "." + a + "|" + b + "|" + c
    && '.' !in t && '|' !in a && '|' !in b && '|' !in c
    && NamesTypeTwo(t)
  }

  /** The base64 text `a` stands for `b`, line breaks and unused bits aside. */
  ghost predicate StandsFor(a: string, b: Bytes) {
    Base64.Canonical(Base64.StripLineBreaks(a)) == Base64.Encode(b)
  }

  ghost predicate Spells(s: string, parts: Parts) {
    exists t, a, b, c ::
      Frames(s, t, a, b, c) && StandsFor(a, parts.iv) && StandsFor(b, parts.ct) && StandsFor(c, parts.mac)
  }

  lemma SplitInThree(a: string, b: string, c: string)
    requires '|' !in a && '|' !in b && '|' !in c
    ensures Split(a + "|" + b + "|" + c, '|') == [a, b, c]
  {
    var parts := [a, b, c];
    assert parts[1..] == [b, c] && [b, c][1..] == [c];
    assert Join([b, c], '|') == b + "|" + c;
    assert Join(parts, '|') == a + "|" + b + "|" + c;
    SplitJoin(parts, '|');
  }

  lemma ThreeParts(rest: string)
    requires |Split(rest, '|')| == 3
    ensures var q := Split(rest, '|');
            rest == q[0] + "|" + q[1] + "|" + q[2] && '|' !in q[0] && '|' !in q[1] && '|' !in q[2]
  {
    JoinSplit(rest, '|');
    PartsAreFree(rest, '|');
    var q := Split(rest, '|');
    hide Split;
    assert q[1..] == [q[1], q[2]] && q[1..][1..] == [q[2]];
    assert Join(q[1..], '|') == q[1] + "|" + q[2];
  }

  lemma FramesParse(s: string, t: string, a: string, b: string, c: string, parts: Parts)
    requires Frames(s, t, a, b, c)
    requires StandsFor(a, parts.iv) && StandsFor(b, parts.ct) && StandsFor(c, parts.mac)
    ensures ParseParts(s) == Success(parts)
  {
    var rest := a + "|" + b + "|" + c;
    assert s == t + ['.'] + rest;
    FirstSeparator(t, '.', rest);
    TypeTwo(t);
    SplitInThree(a, b, c);
    Base64.DecodeExact(a, parts.iv);
    Base64.DecodeExact(b, parts.ct);
    Base64.DecodeExact(c, parts.mac);
  }

  lemma Concatenation(t: string, a: string, b: string, c: string)
    ensures t + "." + (a + "|" + b + "|" + c) == t + "." + a + "|" + b + "|" + c
  {
  }

  lemma ParseFrames(s: string, parts: Parts)
    requires ParseParts(s) == Success(parts)
    ensures Spells(s, parts)
  {
    hide Atoi, NamesTypeTwo, Split, Base64.Decode, Base64.Canonical, Base64.StripLineBreaks, Base64.Encode;
    var dot := IndexOf(s, '.');
    var t, rest := s[..dot], s[dot + 1..];
    TypeTwo(t);
    ThreeParts(rest);
    var q := Split(rest, '|');
    Base64.DecodeExact(q[0], parts.iv);
    Base64.DecodeExact(q[1], parts.ct);
    Base64.DecodeExact(q[2], parts.mac);
    Concatenation(t, q[0], q[1], q[2]);
    assert s == t + "." + rest;
    assert Frames(s, t, q[0], q[1], q[2]);
  }

  /** Parsing is exact. */
  lemma ParseExact(s: string, parts: Parts)
    ensures ParseParts(s) == Success(parts) <==> Spells(s, parts)
  {
    hide ParseParts;
    if ParseParts(s) == Success(parts) {
      ParseFrames(s, parts);
    }
    if Spells(s, parts) {
      var t, a, b, c :|
        Frames(s, t, a, b, c) && StandsFor(a, parts.iv) && StandsFor(b, parts.ct) && StandsFor(c, parts.mac);
      FramesParse(s, t, a, b, c, parts);
    }
  }

  lemma OpenExact(p: Crypto, parts: Parts, encKey: Bytes, macKey: Bytes, text: Bytes)
    ensures OpenParts(p, parts, encKey, macKey) == Ok(text) <==>
            KeyFits(encKey) && |parts.iv| == 16 && parts == SealParts(p, text, parts.iv, encKey, macKey)
  {
    Pkcs7.PadLength(text);
    if |parts.iv| == 16 && |parts.ct| % 16 == 0 {
      var plain := Cbc.Decrypt(p, encKey, parts.iv, parts.ct);
      Pkcs7.UnpadExact(plain, text);
      Cbc.EncryptDecrypt(p, encKey, parts.iv, parts.ct);
      Cbc.DecryptEncrypt(p, encKey, parts.iv, Pkcs7.Pad(text));
    }
  }

  /**
   * Exact acceptance: besides the empty string, a text is opened to `text` exactly when it
   * spells the parts that sealing `text` under its own IV produces.
   */
  lemma AcceptsExactly(p: Crypto, s: string, encKey: Bytes, macKey: Bytes, text: Bytes)
    ensures Decrypt(p, s, encKey, macKey) == Ok(text) <==>
            if s == "" then text == []
            else KeyFits(encKey) && exists iv: Iv :: Spells(s, SealParts(p, text, iv, encKey, macKey))
  {
    if s != "" {
      if Decrypt(p, s, encKey, macKey) == Ok(text) {
        var parts := ParseParts(s).value;
        ParseExact(s, parts);
        OpenExact(p, parts, encKey, macKey, text);
        var iv: Iv := parts.iv;
        assert Spells(s, SealParts(p, text, iv, encKey, macKey));
      }
      if KeyFits(encKey) && exists iv: Iv :: Spells(s, SealParts(p, text, iv, encKey, macKey)) {
        var iv: Iv :| Spells(s, SealParts(p, text, iv, encKey, macKey));
        var parts := SealParts(p, text, iv, encKey, macKey);
        ParseExact(s, parts);
        OpenExact(p, parts, encKey, macKey, text);
      }
    }
  }

  /** The one way to crash: authentic whole blocks behind an IV that is not one block long. */
  lemma PanicsExactly(p: Crypto, s: string, encKey: Bytes, macKey: Bytes)
    ensures Decrypt(p, s, encKey, macKey).Panic? <==>
            exists parts :: Spells(s, parts) && s != "" && KeyFits(encKey) && |parts.iv| != 16 &&
                            |parts.ct| % 16 == 0 && parts.mac == p.digest(macKey, parts.iv + parts.ct)
  {
    if Decrypt(p, s, encKey, macKey).Panic? {
      ParseExact(s, ParseParts(s).value);
    }
    if exists parts :: Spells(s, parts) && s != "" && KeyFits(encKey) && |parts.iv| != 16 &&
                       |parts.ct| % 16 == 0 && parts.mac == p.digest(macKey, parts.iv + parts.ct) {
      var parts :| Spells(s, parts) && s != "" && KeyFits(encKey) && |parts.iv| != 16 &&
                   |parts.ct| % 16 == 0 && parts.mac == p.digest(macKey, parts.iv + parts.ct);
      ParseExact(s, parts);
    }
  }

  /**
   * What it is for parts to carry a text under two keys: the first key has a size of the block
   * cipher, the MAC is the digest of IV and ciphertext under the second, and the ciphertext chains
   * the padded text, block after block, from a 16-byte IV.
   */
  ghost predicate Carries(p: Crypto, parts: Parts, encKey: Bytes, macKey: Bytes, text: Bytes) {
    && |encKey| in {16, 24, 32} && |parts.iv| == 16
    && parts.mac == p.digest(macKey, parts.iv + parts.ct)
    && exists padded: Bytes ::
         Pkcs7.IsPadding(padded, text) && Cbc.Chains(p, encKey, parts.iv, padded, parts.ct)
  }

  lemma SealedCarries(p: Crypto, parts: Parts, encKey: Bytes, macKey: Bytes, text: Bytes)
    ensures Carries(p, parts, encKey, macKey, text) <==>
            KeyFits(encKey) && |parts.iv| == 16 && parts == SealParts(p, text, parts.iv, encKey, macKey)
  {
    hide Pkcs7.Pad, Pkcs7.IsPadding, Cbc.Chains, Cbc.Encrypt;
    if |parts.iv| == 16 {
      Pkcs7.PadLength(text);
      Pkcs7.PadExactly(Pkcs7.Pad(text), text);
      Cbc.ChainsExactly(p, encKey, parts.iv, Pkcs7.Pad(text), parts.ct);
      forall padded: Bytes | Pkcs7.IsPadding(padded, text) ensures padded == Pkcs7.Pad(text) {
        Pkcs7.PadExactly(padded, text);
      }
    }
  }

  lemma SealedIv(p: Crypto, text: Bytes, iv: Iv, encKey: Bytes, macKey: Bytes)
    ensures SealParts(p, text, iv, encKey, macKey).iv == iv
  {
  }

  lemma EmptyIsEmpty(p: Crypto, encKey: Bytes, macKey: Bytes)
    ensures Decrypt(p, "", encKey, macKey) == Ok([])
  {
  }

  /** A non-empty string decrypts to a text exactly when it spells parts that carry it. */
  lemma DecryptsExactly(p: Crypto, s: string, encKey: Bytes, macKey: Bytes, text: Bytes)
    ensures Decrypt(p, s, encKey, macKey) == Ok(text) <==>
            if s == "" then text == []
            else exists parts :: Spells(s, parts) && Carries(p, parts, encKey, macKey, text)
  {
    hide Decrypt, Spells, Carries, SealParts;
    AcceptsExactly(p, s, encKey, macKey, text);
    if s != "" {
      if iv: Iv :| KeyFits(encKey) && Spells(s, SealParts(p, text, iv, encKey, macKey)) {
        var parts := SealParts(p, text, iv, encKey, macKey);
        SealedIv(p, text, iv, encKey, macKey);
        SealedCarries(p, parts, encKey, macKey, text);
      }
      if parts :| Spells(s, parts) && Carries(p, parts, encKey, macKey, text) {
        SealedCarries(p, parts, encKey, macKey, text);
        var iv: Iv := parts.iv;
        assert Spells(s, SealParts(p, text, iv, encKey, macKey));
      }
    } else {
      EmptyIsEmpty(p, encKey, macKey);
    }
  }

  /**
   * Encryption fails only for lack of randomness or a key of the wrong size; the empty text is the
   * empty string, and any other is the type, a dot and the base64 of its IV, of the ciphertext that
   * chains the padded text, and of the digest of both, separated by bars.
   */
  lemma EncryptsExactly(p: Crypto, text: Bytes, iv: Option<Iv>, encKey: Bytes, macKey: Bytes)
    ensures Encrypt(p, text, iv, encKey, macKey).Success? <==>
            text == [] || (iv.Some? && |encKey| in {16, 24, 32})
    ensures var r := Encrypt(p, text, iv, encKey, macKey);
            r.Success? ==>
              if text == [] then r.value == ""
              else exists parts: Parts ::
                     && parts.iv == iv.value && Carries(p, parts, encKey, macKey, text)
                     && r.value == "2." + Base64.Encode(parts.iv) + "|" + Base64.Encode(parts.ct) + "|" +
                                   Base64.Encode(parts.mac)
  {
    hide SealParts, Carries, Base64.Encode;
    if text != [] && iv.Some? && KeyFits(encKey) {
      var parts := SealParts(p, text, iv.value, encKey, macKey);
      SealedIv(p, text, iv.value, encKey, macKey);
      SealedCarries(p, parts, encKey, macKey, text);
    }
  }

  lemma NoDelimiter(b: Bytes)
    ensures '|' !in Base64.Encode(b) && '.' !in Base64.Encode(b)
  {
    Base64.EncodeAlphabet(b);
  }

  lemma EncodingStandsFor(b: Bytes)
    ensures StandsFor(Base64.Encode(b), b)
  {
    Base64.DecodeEncode(b);
    Base64.DecodeExact(Base64.Encode(b), b);
  }

  lemma SpellFrames(parts: Parts)
    ensures Frames(Spell(parts), "2", Base64.Encode(parts.iv), Base64.Encode(parts.ct), Base64.Encode(parts.mac))
  {
    hide Base64.Encode;
    NoDelimiter(parts.iv);
    NoDelimiter(parts.ct);
    NoDelimiter(parts.mac);
    assert Spell(parts) ==
           "2" + "." + Base64.Encode(parts.iv) + "|" + Base64.Encode(parts.ct) + "|" + Base64.Encode(parts.mac);
  }

  lemma SpellSpells(parts: Parts)
    ensures Spells(Spell(parts), parts)
  {
    hide Base64.Encode, Frames, Spell, StandsFor;
    SpellFrames(parts);
    EncodingStandsFor(parts.iv);
    EncodingStandsFor(parts.ct);
    EncodingStandsFor(parts.mac);
  }

  /** Whatever the keys, an authentic string with an empty IV and ciphertext is one that crashes. */
  lemma EmptyIvPanics(p: Crypto, encKey: Bytes, macKey: Bytes)
    requires KeyFits(encKey)
    ensures Decrypt(p, Spell(Parts([], [], p.digest(macKey, []))), encKey, macKey).Panic?
  {
    var parts := Parts([], [], p.digest(macKey, []));
    SpellSpells(parts);
    PanicsExactly(p, Spell(parts), encKey, macKey);
    assert parts.iv + parts.ct == [];
    hide Decrypt, Spells;
  }

  /** Round trip: every text, the empty one included, under every IV and every pair of keys. */
  lemma RoundTrip(p: Crypto, text: Bytes, iv: Iv, encKey: Bytes, macKey: Bytes)
    requires KeyFits(encKey)
    ensures Encrypt(p, text, Some(iv), encKey, macKey).Success?
    ensures Decrypt(p, Encrypt(p, text, Some(iv), encKey, macKey).value, encKey, macKey) == Ok(text)
  {
    if text != [] {
      var parts := SealParts(p, text, iv, encKey, macKey);
      SpellSpells(parts);
      AcceptsExactly(p, Spell(parts), encKey, macKey, text);
    }
  }
}
