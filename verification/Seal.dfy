/** Sealing a secret for one consumer session. */
module Seal {
  import opened ByteStrings
  import opened Wrappers

  datatype Bundle = Bundle(
    consumerID: string,
    sessionID: string,
    identityPubKey: Bytes,
    sessionPubKey: Bytes,
    expiresAt: int)

  datatype SealedBox = SealedBox(
    boxID: string,
    consumerID: string,
    sessionID: string,
    itemID: string,
    purpose: string,
    encappedKey: Bytes,
    ciphertext: Bytes,
    expiresAt: int)

  /** What a ciphertext is bound to. */
  datatype Info = Info(
    consumerID: string,
    sessionID: string,
    itemID: string,
    purpose: string,
    bundleExpiresAt: int,
    boxExpiresAt: int,
    boxID: string)

  /**
   * Hybrid public key encryption (RFC 9180) and the encoding of what it binds. `seal` takes the
   * public key, the encoded binding, the plaintext and its random seed, and answers nothing for a
   * key that is no point of the curve.
   */
  datatype Scheme = Scheme(
    publicOf: Bytes -> Bytes,
    seal: (Bytes, Bytes, Bytes, Bytes) -> Option<(Bytes, Bytes)>,
    open: (Bytes, Bytes, Bytes, Bytes) -> Option<Bytes>,
    marshal: Info -> Bytes)

  /** The holder of the private key opens what was sealed to it under the same binding. */
  ghost predicate Opens(h: Scheme) {
    forall key: Bytes, info: Bytes, plain: Bytes, seed: Bytes {:trigger h.seal(h.publicOf(key), info, plain, seed)} ::
      var r := h.seal(h.publicOf(key), info, plain, seed);
      r.Some? ==> h.open(key, r.value.0, info, r.value.1) == Some(plain)
  }

  function Sealed(h: Scheme, bundle: Bundle, itemID: string, purpose: string, boxID: string, boxExpiresAt: int,
                  plain: Bytes, seed: Bytes)
    : Option<SealedBox>
  {
    var bound := Info(bundle.consumerID, bundle.sessionID, itemID, purpose, bundle.expiresAt, boxExpiresAt, boxID);
    var info := h.marshal(bound);
    match h.seal(bundle.sessionPubKey, info, plain, seed)
    case None => None
    case Some(r) =>
      Some(SealedBox(boxID, bundle.consumerID, bundle.sessionID, itemID, purpose, r.0, r.1, boxExpiresAt))
  }

  /** The binding a consumer rebuilds from the box it was handed and its own bundle's expiry. */
  function InfoOf(box: SealedBox, bundleExpiresAt: int): Info {
    Info(box.consumerID, box.sessionID, box.itemID, box.purpose, bundleExpiresAt, box.expiresAt, box.boxID)
  }

  /** The consumer session opens its box to the secret, with nothing but the box, its key and its bundle's expiry. */
  lemma BoxOpens(h: Scheme, bundle: Bundle, itemID: string, purpose: string, boxID: string, boxExpiresAt: int,
                 plain: Bytes, seed: Bytes, key: Bytes)
    requires Opens(h) && bundle.sessionPubKey == h.publicOf(key)
    requires Sealed(h, bundle, itemID, purpose, boxID, boxExpiresAt, plain, seed).Some?
    ensures var box := Sealed(h, bundle, itemID, purpose, boxID, boxExpiresAt, plain, seed).value;
            h.open(key, box.encappedKey, h.marshal(InfoOf(box, bundle.expiresAt)), box.ciphertext) == Some(plain)
  {
    var bound := Info(bundle.consumerID, bundle.sessionID, itemID, purpose, bundle.expiresAt, boxExpiresAt, boxID);
    var info := h.marshal(bound);
    assert h.seal(h.publicOf(key), info, plain, seed).Some?;
  }

  method Zeroize(b: array<byte>)
    modifies b
    ensures forall i :: 0 <= i < b.Length ==> b[i] == 0
  {
    for i := 0 to b.Length
      invariant forall k :: 0 <= k < i ==> b[k] == 0
    {
      b[i] := 0;
    }
  }

  /** The plaintext buffer is wiped whether or not sealing succeeds, and the box is of what it held. */
  method SealAndZeroize(h: Scheme, bundle: Bundle, itemID: string, purpose: string, boxID: string, boxExpiresAt: int,
                        plain: array<byte>, seed: Bytes)
    returns (r: Option<SealedBox>)
    modifies plain
    ensures r == Sealed(h, bundle, itemID, purpose, boxID, boxExpiresAt, old(plain[..]), seed)
    ensures forall i :: 0 <= i < plain.Length ==> plain[i] == 0
  {
    r := Sealed(h, bundle, itemID, purpose, boxID, boxExpiresAt, plain[..], seed);
    Zeroize(plain);
  }
}
