/** PKCS#7 padding to 16-byte blocks (section 6.3 of RFC 5652). */
module Pkcs7 {
  import opened ByteStrings
  import opened Wrappers

  function Repeat(b: byte, n: nat): (r: Bytes)
    ensures |r| == n
  {
    seq(n, _ => b)
  }

  function Pad(b: Bytes): Bytes {
    var pad := BLOCK_SIZE - |b| % BLOCK_SIZE;
    b + Repeat(pad, pad)
  }

  function Unpad(b: Bytes): Result<Bytes, string> {
    if |b| == 0 then Failure("empty input")
    else
      var pad := b[|b| - 1];
      if pad == 0 || pad > BLOCK_SIZE || pad > |b| then Failure("invalid padding byte")
      else if b[|b| - pad..] != Repeat(pad, pad) then Failure("padding bytes inconsistent")
      else Success(b[..|b| - pad])
  }

  /** Padding fills the last block, and always adds at least one byte. */
  lemma PadLength(b: Bytes)
    ensures |Pad(b)| % BLOCK_SIZE == 0 && |b| < |Pad(b)| <= |b| + BLOCK_SIZE
  {
  }

  /** The text filled up to whole blocks with at least one byte, each of them the number of bytes added. */
  ghost predicate IsPadding(padded: Bytes, b: Bytes) {
    && b <= padded && |padded| % BLOCK_SIZE == 0
    && 1 <= |padded| - |b| <= BLOCK_SIZE
    && forall i :: |b| <= i < |padded| ==> padded[i] == |padded| - |b|
  }

  lemma PadOfRest(n: nat, pad: int)
    requires (n + pad) % BLOCK_SIZE == 0 && 1 <= pad <= BLOCK_SIZE
    ensures pad == BLOCK_SIZE - n % BLOCK_SIZE
  {
    var q := (n + pad) / BLOCK_SIZE;
    assert n == BLOCK_SIZE * (q - 1) + (BLOCK_SIZE - pad);
  }

  lemma PadExactly(padded: Bytes, b: Bytes)
    ensures padded == Pad(b) <==> IsPadding(padded, b)
  {
    if IsPadding(padded, b) {
      var pad := |padded| - |b|;
      PadOfRest(|b|, pad);
      assert padded == b + padded[|b|..] && padded[|b|..] == Repeat(pad, pad);
    }
  }

  /** What is accepted ends in a byte from 1 to 16 that is repeated as often as it says, and loses those bytes. */
  lemma UnpadsExactly(b: Bytes, text: Bytes)
    ensures Unpad(b) == Success(text) <==>
            && 0 < |b| && 1 <= b[|b| - 1] <= 16
            && |b| == |text| + b[|b| - 1] && text <= b
            && forall i :: |text| <= i < |b| ==> b[i] == b[|b| - 1]
  {
    if 0 < |b| && 1 <= b[|b| - 1] <= 16 && b[|b| - 1] <= |b| {
      var pad := b[|b| - 1];
      var head, tail := b[..|b| - pad], b[|b| - pad..];
      assert forall i :: |b| - pad <= i < |b| ==> b[i] == tail[i - (|b| - pad)];
      assert (forall i :: |b| - pad <= i < |b| ==> b[i] == pad) <==> tail == Repeat(pad, pad);
      assert |text| == |b| - pad && text <= b ==> text == head;
    }
  }

  /** Unpadding undoes padding. */
  lemma UnpadPad(b: Bytes)
    ensures Unpad(Pad(b)) == Success(b)
  {
    var p := Pad(b);
    var pad := BLOCK_SIZE - |b| % BLOCK_SIZE;
    assert p[|p| - 1] == pad;
    assert p[|p| - pad..] == Repeat(pad, pad);
    assert p[..|p| - pad] == b;
  }

  lemma PadOfWhole(n: int, pad: int)
    requires n % BLOCK_SIZE == 0 && 1 <= pad <= BLOCK_SIZE
    ensures BLOCK_SIZE - (n - pad) % BLOCK_SIZE == pad
  {
    var q := n / BLOCK_SIZE;
    assert n - pad == BLOCK_SIZE * (q - 1) + (BLOCK_SIZE - pad);
  }

  /** On whole blocks, padding undoes unpadding: nothing but a padded text is accepted. */
  lemma PadUnpad(b: Bytes)
    requires |b| % BLOCK_SIZE == 0 && Unpad(b).Success?
    ensures Pad(Unpad(b).value) == b
  {
    var pad := b[|b| - 1];
    var body := b[..|b| - pad];
    PadOfWhole(|b|, pad);
    assert |body| == |b| - pad;
    assert b == body + b[|b| - pad..];
  }

  /** On whole blocks, `Unpad` returns a text exactly when the input is that text padded. */
  lemma UnpadExact(b: Bytes, text: Bytes)
    requires |b| % BLOCK_SIZE == 0
    ensures Unpad(b) == Success(text) <==> b == Pad(text)
  {
    UnpadPad(text);
    if Unpad(b).Success? {
      PadUnpad(b);
    }
  }
}
