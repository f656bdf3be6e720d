/** The consumer registry: who may ask for what, and whether the user must approve. */
module Registry {
  import opened ByteStrings
  import opened Wrappers

  const REQUIRED: string := "required"

  datatype ConsumerConfig = ConsumerConfig(
    identityPubKey: Bytes,
    allowedItems: seq<string>,
    allowedPurposes: seq<string>,
    approvalMode: string)

  datatype Registry = Registry(consumers: map<string, ConsumerConfig>)

  datatype AclError = ConsumerNotFound | ItemDenied | PurposeDenied

  // ---------------------------------------------------------------- patterns

  /** The code's test: the star alone, the same string, or a prefix before a trailing star. */
  predicate Matches(p: string, s: string) {
    || p == "*"
    || p == s
    || (|p| > 0 && p[|p| - 1] == '*' && |s| >= |p| - 1 && s[..|p| - 1] == p[..|p| - 1])
  }

  /** What a pattern means: itself, or everything that starts with what stands before its final star. */
  lemma MatchesExactly(p: string, s: string)
    ensures Matches(p, s) <==> p == s || exists head :: p == head + "*" && head <= s
  {
    if Matches(p, s) && p != s {
      var head := p[..|p| - 1];
      assert p == head + "*" && head <= s;
    }
    if head :| p == head + "*" && head <= s {
      assert p[..|p| - 1] == head && s[..|head|] == head;
    }
  }

  predicate Allows(patterns: seq<string>, s: string) {
    exists i :: 0 <= i < |patterns| && Matches(patterns[i], s)
  }

  method MatchAny(patterns: seq<string>, s: string) returns (r: bool)
    ensures r <==> Allows(patterns, s)
  {
    for i := 0 to |patterns|
      invariant forall k :: 0 <= k < i ==> !Matches(patterns[k], s)
    {
      var p := patterns[i];
      if p == "*" || p == s {
        return true;
      }
      if |p| > 0 && p[|p| - 1] == '*' && |s| >= |p| - 1 && s[..|p| - 1] == p[..|p| - 1] {
        return true;
      }
    }
    r := false;
  }

  // ---------------------------------------------------------------- access control

  function Acl(r: Registry, consumerID: string, itemID: string, purpose: string): Result<string, AclError> {
    if consumerID !in r.consumers then Failure(ConsumerNotFound)
    else
      var cfg := r.consumers[consumerID];
      if !Allows(cfg.allowedItems, itemID) then Failure(ItemDenied)
      else if !Allows(cfg.allowedPurposes, purpose) then Failure(PurposeDenied)
      else Success(cfg.approvalMode)
  }

  method CheckACL(r: Registry, consumerID: string, itemID: string, purpose: string)
    returns (mode: Result<string, AclError>)
    ensures mode == Acl(r, consumerID, itemID, purpose)
  {
    if consumerID !in r.consumers {
      return Failure(ConsumerNotFound);
    }
    var cfg := r.consumers[consumerID];
    var item := MatchAny(cfg.allowedItems, itemID);
    if !item {
      return Failure(ItemDenied);
    }
    var reason := MatchAny(cfg.allowedPurposes, purpose);
    if !reason {
      return Failure(PurposeDenied);
    }
    mode := Success(cfg.approvalMode);
  }

  // ---------------------------------------------------------------- loading

  datatype RawConsumer = RawConsumer(
    identityPubKey: string,
    allowedItems: seq<string>,
    allowedPurposes: seq<string>,
    approvalMode: string)

  function HexValue(c: char): int {
    if '0' <= c <= '9' then c as int - '0' as int
    else if 'a' <= c <= 'f' then c as int - 'a' as int + 10
    else if 'A' <= c <= 'F' then c as int - 'A' as int + 10
    else -1
  }

  function HexDecode(s: string): Option<Bytes> {
    if s == "" then Some([])
    else if |s| == 1 || HexValue(s[0]) < 0 || HexValue(s[1]) < 0 then None
    else
      match HexDecode(s[2..])
      case None => None
      case Some(rest) => Some([HexValue(s[0]) * 16 + HexValue(s[1])] + rest)
  }

  const HEX_LOWER: string := "0123456789abcdef"
  const HEX_UPPER: string := "0123456789ABCDEF"

  predicate IsHexDigit(c: char, d: int) {
    0 <= d < 16 && (c == HEX_LOWER[d] || c == HEX_UPPER[d])
  }

  lemma HexDigitAt(c: char, d: int)
    ensures HexValue(c) == d && d >= 0 <==> IsHexDigit(c, d)
  {
    assert d < 0 || d == 0 || d == 1 || d == 2 || d == 3 || d == 4 || d == 5 || d == 6 || d == 7 || d == 8 || d == 9 ||
           d == 10 || d == 11 || d == 12 || d == 13 || d == 14 || d == 15 || d > 15;
  }

  /** A text stands for bytes by two digits each, the high one first, in either case. */
  ghost predicate Hexes(s: string, b: Bytes) {
    && |s| == 2 * |b|
    && forall i :: 0 <= i < |b| ==> IsHexDigit(s[2 * i], b[i] / 16) && IsHexDigit(s[2 * i + 1], b[i] % 16)
  }

  lemma HexesMore(s: string, b: Bytes)
    requires |s| >= 2 && b != []
    ensures Hexes(s, b) <==> IsHexDigit(s[0], b[0] / 16) && IsHexDigit(s[1], b[0] % 16) && Hexes(s[2..], b[1..])
  {
    hide IsHexDigit;
    var t, d := s[2..], b[1..];
    if Hexes(s, b) {
      forall i | 0 <= i < |d| ensures IsHexDigit(t[2 * i], d[i] / 16) && IsHexDigit(t[2 * i + 1], d[i] % 16) {
        assert d[i] == b[i + 1] && t[2 * i] == s[2 * (i + 1)] && t[2 * i + 1] == s[2 * (i + 1) + 1];
      }
      assert IsHexDigit(s[2 * 0], b[0] / 16);
    }
    if IsHexDigit(s[0], b[0] / 16) && IsHexDigit(s[1], b[0] % 16) && Hexes(t, d) {
      forall i | 0 <= i < |b| ensures IsHexDigit(s[2 * i], b[i] / 16) && IsHexDigit(s[2 * i + 1], b[i] % 16) {
        if i > 0 {
          assert b[i] == d[i - 1] && s[2 * i] == t[2 * (i - 1)] && s[2 * i + 1] == t[2 * (i - 1) + 1];
        }
      }
    }
  }

  lemma Nibbles(x: byte, high: int, low: int)
    requires 0 <= high < 16 && 0 <= low < 16
    ensures high * 16 + low == x <==> x / 16 == high && x % 16 == low
  {
  }

  lemma PrependIs(x: byte, rest: Bytes, b: Bytes)
    requires b != []
    ensures [x] + rest == b <==> x == b[0] && rest == b[1..]
  {
    assert b == [b[0]] + b[1..] && ([x] + rest)[1..] == rest;
  }

  lemma HexDecodeMore(s: string, b: Bytes)
    requires |s| >= 2 && b != []
    ensures HexDecode(s) == Some(b) <==>
            IsHexDigit(s[0], b[0] / 16) && IsHexDigit(s[1], b[0] % 16) && HexDecode(s[2..]) == Some(b[1..])
  {
    HexDigitAt(s[0], b[0] / 16);
    HexDigitAt(s[1], b[0] % 16);
    var high, low := HexValue(s[0]), HexValue(s[1]);
    assert high < 16 && low < 16;
    hide IsHexDigit, HexValue;
    if high >= 0 && low >= 0 {
      Nibbles(b[0], high, low);
      var rest := HexDecode(s[2..]);
      if rest.Some? {
        assert HexDecode(s) == Some([high * 16 + low] + rest.value);
        PrependIs(high * 16 + low, rest.value, b);
      }
      hide HexDecode;
    }
  }

  lemma {:induction false} HexDecodeExactly(s: string, b: Bytes)
    ensures HexDecode(s) == Some(b) <==> Hexes(s, b)
  {
    if |s| >= 2 && b != [] {
      hide Hexes, HexDecode;
      HexDecodeExactly(s[2..], b[1..]);
      HexDecodeMore(s, b);
      HexesMore(s, b);
    }
  }

  /** A consumer as resolved: a missing approval mode means that approval is required. */
  ghost predicate Resolves(raw: RawConsumer, cfg: ConsumerConfig) {
    && HexDecode(raw.identityPubKey) == Some(cfg.identityPubKey)
    && cfg.allowedItems == raw.allowedItems
    && cfg.allowedPurposes == raw.allowedPurposes
    && cfg.approvalMode == (if raw.approvalMode == "" then REQUIRED else raw.approvalMode)
  }

  /** `raw` is the parsed file. The map is walked in no particular order, so which bad key is reported is open. */
  method Load(raw: map<string, RawConsumer>) returns (r: Result<Registry, string>)
    ensures r.Success? <==> forall id :: id in raw ==> HexDecode(raw[id].identityPubKey).Some?
    ensures r.Success? ==>
              r.value.consumers.Keys == raw.Keys && forall id :: id in raw ==> Resolves(raw[id], r.value.consumers[id])
    ensures r.Failure? ==> r.error in raw && HexDecode(raw[r.error].identityPubKey).None?
  {
    var consumers: map<string, ConsumerConfig> := map[];
    var todo := raw.Keys;
    while todo != {}
      invariant todo <= raw.Keys && consumers.Keys == raw.Keys - todo
      invariant forall id :: id in consumers ==> Resolves(raw[id], consumers[id])
      decreases |todo|
    {
      var id :| id in todo;
      todo := todo - {id};
      var rc := raw[id];
      var pubKey := HexDecode(rc.identityPubKey);
      if pubKey.None? {
        return Failure(id);
      }
      var mode := rc.approvalMode;
      if mode == "" {
        mode := REQUIRED;
      }
      consumers := consumers[id := ConsumerConfig(pubKey.value, rc.allowedItems, rc.allowedPurposes, mode)];
    }
    forall id | id in raw ensures HexDecode(raw[id].identityPubKey).Some? {
      assert Resolves(raw[id], consumers[id]);
    }
    r := Success(Registry(consumers));
  }

  /** A grant of the loaded registry is a grant of the file, and what the file leaves open asks the user. */
  lemma AclOfFile(raw: map<string, RawConsumer>, r: Registry, consumerID: string, itemID: string, purpose: string)
    requires r.consumers.Keys == raw.Keys
    requires forall id :: id in raw ==> Resolves(raw[id], r.consumers[id])
    ensures Acl(r, consumerID, itemID, purpose).Success? <==>
            consumerID in raw &&
            (exists i :: 0 <= i < |raw[consumerID].allowedItems| && Matches(raw[consumerID].allowedItems[i], itemID)) &&
            (exists i :: 0 <= i < |raw[consumerID].allowedPurposes| &&
                         Matches(raw[consumerID].allowedPurposes[i], purpose))
    ensures Acl(r, consumerID, itemID, purpose) == Failure(ConsumerNotFound) <==> consumerID !in raw
    ensures Acl(r, consumerID, itemID, purpose) == Failure(ItemDenied) <==>
            consumerID in raw &&
            !exists i :: 0 <= i < |raw[consumerID].allowedItems| && Matches(raw[consumerID].allowedItems[i], itemID)
    ensures Acl(r, consumerID, itemID, purpose).Success? ==>
            (Acl(r, consumerID, itemID, purpose).value == REQUIRED <==> raw[consumerID].approvalMode in {"", REQUIRED})
  {
    if consumerID in raw {
      assert Resolves(raw[consumerID], r.consumers[consumerID]);
    }
  }
}
