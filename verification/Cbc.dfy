/** Cipher block chaining (section 6.2 of NIST SP 800-38A) over an unspecified block cipher. */
module Cbc {
  import opened ByteStrings

  /**
   * The cryptographic primitives the vault uses: a keyed map of 16-byte blocks, its inverse,
   * and a keyed digest.
   */
  datatype Primitives = Primitives(
    encryptBlock: (Bytes, Bytes) -> Bytes,
    decryptBlock: (Bytes, Bytes) -> Bytes,
    digest: (Bytes, Bytes) -> Bytes)

  /** Under every key the block cipher is a permutation of blocks; nothing is known of the digest. */
  ghost predicate Lawful(p: Primitives) {
    forall key: Bytes, block: Bytes | |block| == BLOCK_SIZE ::
      && |p.encryptBlock(key, block)| == BLOCK_SIZE
      && |p.decryptBlock(key, block)| == BLOCK_SIZE
      && p.decryptBlock(key, p.encryptBlock(key, block)) == block
      && p.encryptBlock(key, p.decryptBlock(key, block)) == block
  }

  type Crypto = p: Primitives | Lawful(p)
    witness Primitives((key, block) => block, (key, block) => block, (key, text) => [])

  function Encrypt(p: Crypto, key: Bytes, iv: Bytes, plain: Bytes): (ct: Bytes)
    requires |iv| == BLOCK_SIZE && |plain| % BLOCK_SIZE == 0
    ensures |ct| == |plain|
    decreases |plain|
  {
    if |plain| == 0 then []
    else
      var c := p.encryptBlock(key, XorBytes(plain[..BLOCK_SIZE], iv));
      c + Encrypt(p, key, c, plain[BLOCK_SIZE..])
  }

  function Decrypt(p: Crypto, key: Bytes, iv: Bytes, ct: Bytes): (plain: Bytes)
    requires |iv| == BLOCK_SIZE && |ct| % BLOCK_SIZE == 0
    ensures |plain| == |ct|
    decreases |ct|
  {
    if |ct| == 0 then []
    else
      XorBytes(p.decryptBlock(key, ct[..BLOCK_SIZE]), iv) + Decrypt(p, key, ct[..BLOCK_SIZE], ct[BLOCK_SIZE..])
  }

  lemma {:induction false} DecryptEncrypt(p: Crypto, key: Bytes, iv: Bytes, plain: Bytes)
    requires |iv| == BLOCK_SIZE && |plain| % BLOCK_SIZE == 0
    ensures Decrypt(p, key, iv, Encrypt(p, key, iv, plain)) == plain
    decreases |plain|
  {
    if |plain| != 0 {
      var x := XorBytes(plain[..BLOCK_SIZE], iv);
      var c := p.encryptBlock(key, x);
      var ct := Encrypt(p, key, iv, plain);
      assert ct[..BLOCK_SIZE] == c && ct[BLOCK_SIZE..] == Encrypt(p, key, c, plain[BLOCK_SIZE..]);
      DecryptEncrypt(p, key, c, plain[BLOCK_SIZE..]);
      XorBytesTwice(plain[..BLOCK_SIZE], iv);
    }
  }

  lemma {:induction false} EncryptDecrypt(p: Crypto, key: Bytes, iv: Bytes, ct: Bytes)
    requires |iv| == BLOCK_SIZE && |ct| % BLOCK_SIZE == 0
    ensures Encrypt(p, key, iv, Decrypt(p, key, iv, ct)) == ct
    decreases |ct|
  {
    if |ct| != 0 {
      var c, rest := ct[..BLOCK_SIZE], ct[BLOCK_SIZE..];
      var d := p.decryptBlock(key, c);
      var plain := Decrypt(p, key, iv, ct);
      assert plain[..BLOCK_SIZE] == XorBytes(d, iv) && plain[BLOCK_SIZE..] == Decrypt(p, key, c, rest);
      XorBytesTwice(d, iv);
      EncryptDecrypt(p, key, c, rest);
    }
  }

  ghost predicate ChainsAt(p: Crypto, key: Bytes, iv: Bytes, plain: Bytes, ct: Bytes, i: int)
    requires |iv| == BLOCK_SIZE && |ct| == |plain| && |plain| % BLOCK_SIZE == 0
    requires 0 <= i < |plain| && i % BLOCK_SIZE == 0
  {
    var before := if i == 0 then iv else ct[i - BLOCK_SIZE..i];
    ct[i..i + BLOCK_SIZE] == p.encryptBlock(key, XorBytes(plain[i..i + BLOCK_SIZE], before))
  }

  /**
   * Every block is encrypted after it was combined with the block of ciphertext before it, the first
   * one with the IV.
   */
  ghost predicate Chains(p: Crypto, key: Bytes, iv: Bytes, plain: Bytes, ct: Bytes)
    requires |iv| == BLOCK_SIZE
  {
    && |ct| == |plain| && |plain| % BLOCK_SIZE == 0
    && forall i :: 0 <= i < |plain| && i % BLOCK_SIZE == 0 ==> ChainsAt(p, key, iv, plain, ct, i)
  }

  lemma BlockOfTail(s: Bytes, j: nat)
    requires j + 2 * BLOCK_SIZE <= |s|
    ensures s[BLOCK_SIZE..][j..j + BLOCK_SIZE] == s[j + BLOCK_SIZE..j + 2 * BLOCK_SIZE]
  {
  }

  lemma ChainsFrom(p: Crypto, key: Bytes, iv: Bytes, plain: Bytes, ct: Bytes, i: int)
    requires |iv| == BLOCK_SIZE && |ct| == |plain| && |plain| % BLOCK_SIZE == 0
    requires BLOCK_SIZE <= i < |plain| && i % BLOCK_SIZE == 0
    ensures ChainsAt(p, key, iv, plain, ct, i) <==>
            ChainsAt(p, key, ct[..BLOCK_SIZE], plain[BLOCK_SIZE..], ct[BLOCK_SIZE..], i - BLOCK_SIZE)
  {
    var j := i - BLOCK_SIZE;
    BlockOfTail(ct, j);
    BlockOfTail(plain, j);
    if i > BLOCK_SIZE {
      BlockOfTail(ct, j - BLOCK_SIZE);
    } else {
      assert ct[i - BLOCK_SIZE..i] == ct[..BLOCK_SIZE];
    }
    hide Lawful;
  }

  lemma FirstChains(p: Crypto, key: Bytes, iv: Bytes, plain: Bytes)
    requires |iv| == BLOCK_SIZE && |plain| % BLOCK_SIZE == 0 && |plain| > 0
    ensures var ct := Encrypt(p, key, iv, plain);
            && ChainsAt(p, key, iv, plain, ct, 0)
            && ct[BLOCK_SIZE..] == Encrypt(p, key, ct[..BLOCK_SIZE], plain[BLOCK_SIZE..])
  {
    var c := p.encryptBlock(key, XorBytes(plain[..BLOCK_SIZE], iv));
    var ct := Encrypt(p, key, iv, plain);
    assert ct[..BLOCK_SIZE] == c && ct[BLOCK_SIZE..] == Encrypt(p, key, c, plain[BLOCK_SIZE..]);
    assert ct[0..BLOCK_SIZE] == ct[..BLOCK_SIZE] && plain[0..BLOCK_SIZE] == plain[..BLOCK_SIZE];
  }

  lemma {:induction false} EncryptChains(p: Crypto, key: Bytes, iv: Bytes, plain: Bytes)
    requires |iv| == BLOCK_SIZE && |plain| % BLOCK_SIZE == 0
    ensures Chains(p, key, iv, plain, Encrypt(p, key, iv, plain))
    decreases |plain|
  {
    hide Encrypt, ChainsAt;
    if |plain| != 0 {
      var ct := Encrypt(p, key, iv, plain);
      FirstChains(p, key, iv, plain);
      EncryptChains(p, key, ct[..BLOCK_SIZE], plain[BLOCK_SIZE..]);
      forall i | 0 <= i < |plain| && i % BLOCK_SIZE == 0 ensures ChainsAt(p, key, iv, plain, ct, i) {
        if i > 0 {
          ChainsFrom(p, key, iv, plain, ct, i);
        }
      }
    }
  }

  lemma {:induction false} ChainsOnce(p: Crypto, key: Bytes, iv: Bytes, plain: Bytes, ct: Bytes)
    requires |iv| == BLOCK_SIZE && Chains(p, key, iv, plain, ct)
    ensures ct == Encrypt(p, key, iv, plain)
    decreases |plain|
  {
    if |plain| != 0 {
      var c, rest, more := ct[..BLOCK_SIZE], plain[BLOCK_SIZE..], ct[BLOCK_SIZE..];
      assert ChainsAt(p, key, iv, plain, ct, 0);
      assert ct[0..BLOCK_SIZE] == c && plain[0..BLOCK_SIZE] == plain[..BLOCK_SIZE];
      assert c == p.encryptBlock(key, XorBytes(plain[..BLOCK_SIZE], iv));
      assert Chains(p, key, c, rest, more) by {
        hide ChainsAt;
        forall i | 0 <= i < |rest| && i % BLOCK_SIZE == 0 ensures ChainsAt(p, key, c, rest, more, i) {
          ChainsFrom(p, key, iv, plain, ct, i + BLOCK_SIZE);
        }
      }
      ChainsOnce(p, key, c, rest, more);
    }
  }

  /** Chained encryption is what chains every block of ciphertext to the one before it. */
  lemma ChainsExactly(p: Crypto, key: Bytes, iv: Bytes, plain: Bytes, ct: Bytes)
    requires |iv| == BLOCK_SIZE && |plain| % BLOCK_SIZE == 0
    ensures ct == Encrypt(p, key, iv, plain) <==> Chains(p, key, iv, plain, ct)
  {
    hide Encrypt;
    EncryptChains(p, key, iv, plain);
    if Chains(p, key, iv, plain, ct) {
      ChainsOnce(p, key, iv, plain, ct);
    }
  }

  /** So is chained decryption, read from the ciphertext. */
  lemma DecryptChains(p: Crypto, key: Bytes, iv: Bytes, plain: Bytes, ct: Bytes)
    requires |iv| == BLOCK_SIZE && |ct| % BLOCK_SIZE == 0
    ensures plain == Decrypt(p, key, iv, ct) <==> Chains(p, key, iv, plain, ct)
  {
    hide Encrypt, Decrypt, ChainsAt;
    EncryptDecrypt(p, key, iv, ct);
    ChainsExactly(p, key, iv, Decrypt(p, key, iv, ct), ct);
    if Chains(p, key, iv, plain, ct) {
      ChainsExactly(p, key, iv, plain, ct);
      DecryptEncrypt(p, key, iv, plain);
    }
  }

  lemma EncryptStep(p: Crypto, key: Bytes, prev: Bytes, src: Bytes, i: nat)
    requires |prev| == BLOCK_SIZE && |src| % BLOCK_SIZE == 0 && i % BLOCK_SIZE == 0 && i < |src|
    ensures i + BLOCK_SIZE <= |src|
    ensures var c := p.encryptBlock(key, XorBytes(src[i..i + BLOCK_SIZE], prev));
            |c| == BLOCK_SIZE && Encrypt(p, key, prev, src[i..]) == c + Encrypt(p, key, c, src[i + BLOCK_SIZE..])
  {
    assert src[i..][..BLOCK_SIZE] == src[i..i + BLOCK_SIZE] && src[i..][BLOCK_SIZE..] == src[i + BLOCK_SIZE..];
  }

  lemma DecryptStep(p: Crypto, key: Bytes, prev: Bytes, src: Bytes, i: nat)
    requires |prev| == BLOCK_SIZE && |src| % BLOCK_SIZE == 0 && i % BLOCK_SIZE == 0 && i < |src|
    ensures i + BLOCK_SIZE <= |src|
    ensures var c := src[i..i + BLOCK_SIZE];
            |p.decryptBlock(key, c)| == BLOCK_SIZE &&
            Decrypt(p, key, prev, src[i..]) ==
            XorBytes(p.decryptBlock(key, c), prev) + Decrypt(p, key, c, src[i + BLOCK_SIZE..])
  {
    assert src[i..][..BLOCK_SIZE] == src[i..i + BLOCK_SIZE] && src[i..][BLOCK_SIZE..] == src[i + BLOCK_SIZE..];
  }

  method CopyInto(dst: array<byte>, at: nat, src: Bytes)
    requires at + |src| <= dst.Length
    modifies dst
    ensures dst[..] == old(dst[..at]) + src + old(dst[at + |src|..])
  {
    forall k | 0 <= k < |src| {
      dst[at + k] := src[k];
    }
  }

  /** The encrypter's loop over a destination buffer, one block and one chaining value at a time. */
  method EncryptBlocks(p: Crypto, key: Bytes, iv: Bytes, src: Bytes, dst: array<byte>)
    requires |iv| == BLOCK_SIZE && |src| % BLOCK_SIZE == 0 && dst.Length == |src|
    modifies dst
    ensures dst[..] == Encrypt(p, key, iv, src)
  {
    hide Encrypt, Decrypt, XorBytes, Lawful;
    var i, prev := 0, iv;
    assert src[0..] == src && src[|src|..] == [];
    while i < |src|
      invariant 0 <= i <= |src| && i % BLOCK_SIZE == 0 && |prev| == BLOCK_SIZE
      invariant dst[..i] + Encrypt(p, key, prev, src[i..]) == Encrypt(p, key, iv, src)
    {
      EncryptStep(p, key, prev, src, i);
      var c := p.encryptBlock(key, XorBytes(src[i..i + BLOCK_SIZE], prev));
      ghost var done := dst[..i];
      CopyInto(dst, i, c);
      assert dst[..i + BLOCK_SIZE] == done + c;
      i, prev := i + BLOCK_SIZE, c;
    }
    assert dst[..i] == dst[..] && Encrypt(p, key, prev, []) == [];
  }

  /** The decrypter's loop: the chaining value is the previous block of ciphertext. */
  method DecryptBlocks(p: Crypto, key: Bytes, iv: Bytes, src: Bytes, dst: array<byte>)
    requires |iv| == BLOCK_SIZE && |src| % BLOCK_SIZE == 0 && dst.Length == |src|
    modifies dst
    ensures dst[..] == Decrypt(p, key, iv, src)
  {
    hide Encrypt, Decrypt, XorBytes, Lawful;
    var i, prev := 0, iv;
    assert src[0..] == src && src[|src|..] == [];
    while i < |src|
      invariant 0 <= i <= |src| && i % BLOCK_SIZE == 0 && |prev| == BLOCK_SIZE
      invariant dst[..i] + Decrypt(p, key, prev, src[i..]) == Decrypt(p, key, iv, src)
    {
      DecryptStep(p, key, prev, src, i);
      var c := src[i..i + BLOCK_SIZE];
      var plain := XorBytes(p.decryptBlock(key, c), prev);
      ghost var done := dst[..i];
      CopyInto(dst, i, plain);
      assert dst[..i + BLOCK_SIZE] == done + plain;
      i, prev := i + BLOCK_SIZE, c;
    }
    assert dst[..i] == dst[..] && Decrypt(p, key, prev, []) == [];
  }
}
