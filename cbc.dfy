/** Cipher-block chaining (NIST SP 800-38A, section 6.2) over an abstract
    128-bit block cipher. The block transform itself (AES) is a parameter:
    a pair of total functions on 16-byte blocks under a 32-byte key. */
module Cbc {
  import opened Types

  datatype BlockCipher = BlockCipher(encrypt: (Key, Block) -> Block, decrypt: (Key, Block) -> Block)

  /** The only fact assumed of the block cipher: decryption undoes encryption. */
  ghost predicate Invertible(c: BlockCipher) {
    forall k: Key, b: Block :: c.decrypt(k, c.encrypt(k, b)) == b
  }

  /** AES is moreover a permutation of blocks, so encryption also undoes decryption. */
  ghost predicate Bijective(c: BlockCipher) {
    && Invertible(c)
    && forall k: Key, b: Block :: c.encrypt(k, c.decrypt(k, b)) == b
  }

  function Xor(a: seq<byte>, b: seq<byte>): (r: seq<byte>)
    requires |a| == |b|
    ensures |r| == |a|
    ensures forall i :: 0 <= i < |r| ==> r[i] == a[i] ^ b[i]
  {
    seq(|a|, i requires 0 <= i < |a| => a[i] ^ b[i])
  }

  lemma XorCancel(a: seq<byte>, b: seq<byte>)
    requires |a| == |b|
    ensures Xor(Xor(a, b), b) == a
  {
    assert forall i :: 0 <= i < |a| ==> Xor(Xor(a, b), b)[i] == a[i];
  }

  /** Block j (0-based) of a block-aligned sequence; 16 is BLOCK_SIZE, written
      out so that the offsets stay linear arithmetic. */
  function BlockAt(s: seq<byte>, j: nat): (b: Block)
    requires 16 * j + 16 <= |s|
  {
    s[16 * j..16 * j + 16]
  }

  /** CBC encryption of a block-aligned plaintext, chaining from `prev`
      (the IV for the first block). */
  function Encipher(c: BlockCipher, k: Key, prev: Block, p: seq<byte>): (r: seq<byte>)
    requires |p| % BLOCK_SIZE == 0
    ensures |r| == |p|
    decreases |p|
  {
    if |p| == 0 then []
    else
      var out := c.encrypt(k, Xor(p[..BLOCK_SIZE], prev));
      out + Encipher(c, k, out, p[BLOCK_SIZE..])
  }

  /** CBC decryption of a block-aligned ciphertext, chaining from `prev`. */
  function Decipher(c: BlockCipher, k: Key, prev: Block, ct: seq<byte>): (r: seq<byte>)
    requires |ct| % BLOCK_SIZE == 0
    ensures |r| == |ct|
    decreases |ct|
  {
    if |ct| == 0 then []
    else
      var cur: Block := ct[..BLOCK_SIZE];
      Xor(c.decrypt(k, cur), prev) + Decipher(c, k, cur, ct[BLOCK_SIZE..])
  }

  /** Splitting a block-aligned sequence after its first block shifts every
      later block index down by one. */
  lemma BlockAtTail(s: seq<byte>, j: nat)
    requires 16 * j + 32 <= |s|
    ensures BlockAt(s[BLOCK_SIZE..], j) == BlockAt(s, j + 1)
  {
  }

  /** Encipher agrees with the standard's definition block by block:
      C_0 = CIPH_K(P_0 xor IV) and C_j = CIPH_K(P_j xor C_{j-1}). */
  lemma {:induction false} EncipherBlock(c: BlockCipher, k: Key, iv: Block, p: seq<byte>, j: nat)
    requires |p| % BLOCK_SIZE == 0
    requires 16 * j + 16 <= |p|
    ensures var r := Encipher(c, k, iv, p);
            BlockAt(r, j) == c.encrypt(k, Xor(BlockAt(p, j), if j == 0 then iv else BlockAt(r, j - 1)))
    decreases j
  {
    var r := Encipher(c, k, iv, p);
    var out := c.encrypt(k, Xor(p[..BLOCK_SIZE], iv));
    var rest := Encipher(c, k, out, p[BLOCK_SIZE..]);
    assert r == out + rest;
    if j == 0 {
      assert BlockAt(r, 0) == out;
      assert BlockAt(p, 0) == p[..BLOCK_SIZE];
    } else {
      EncipherBlock(c, k, out, p[BLOCK_SIZE..], j - 1);
      BlockAtTail(p, j - 1);
      assert rest == r[BLOCK_SIZE..];
      BlockAtTail(r, j - 1);
      if j == 1 {
        assert BlockAt(r, 0) == out;
      } else {
        BlockAtTail(r, j - 2);
      }
    }
  }

  /** Decipher agrees with the standard's definition block by block:
      P_0 = CIPH^-1_K(C_0) xor IV and P_j = CIPH^-1_K(C_j) xor C_{j-1}. */
  lemma {:induction false} DecipherBlock(c: BlockCipher, k: Key, iv: Block, ct: seq<byte>, j: nat)
    requires |ct| % BLOCK_SIZE == 0
    requires 16 * j + 16 <= |ct|
    ensures BlockAt(Decipher(c, k, iv, ct), j)
            == Xor(c.decrypt(k, BlockAt(ct, j)), if j == 0 then iv else BlockAt(ct, j - 1))
    decreases j
  {
    var r := Decipher(c, k, iv, ct);
    var cur: Block := ct[..BLOCK_SIZE];
    var head := Xor(c.decrypt(k, cur), iv);
    var rest := Decipher(c, k, cur, ct[BLOCK_SIZE..]);
    assert r == head + rest;
    if j == 0 {
      assert BlockAt(r, 0) == head;
      assert BlockAt(ct, 0) == cur;
    } else {
      DecipherBlock(c, k, cur, ct[BLOCK_SIZE..], j - 1);
      BlockAtTail(ct, j - 1);
      assert rest == r[BLOCK_SIZE..];
      BlockAtTail(r, j - 1);
      assert BlockAt(r, j) == BlockAt(rest, j - 1);
      if j == 1 {
        assert BlockAt(ct, 0) == cur;
      } else {
        BlockAtTail(ct, j - 2);
        assert BlockAt(ct[BLOCK_SIZE..], j - 2) == BlockAt(ct, j - 1);
      }
    }
  }

  /** CBC decryption with the same key and IV returns the plaintext. */
  lemma {:induction false} DecipherEncipher(c: BlockCipher, k: Key, iv: Block, p: seq<byte>)
    requires Invertible(c)
    requires |p| % BLOCK_SIZE == 0
    ensures Decipher(c, k, iv, Encipher(c, k, iv, p)) == p
    decreases |p|
  {
    if |p| > 0 {
      var out := c.encrypt(k, Xor(p[..BLOCK_SIZE], iv));
      var rest := Encipher(c, k, out, p[BLOCK_SIZE..]);
      var r: seq<byte> := out + rest;
      assert r[..BLOCK_SIZE] == out;
      assert r[BLOCK_SIZE..] == rest;
      DecipherEncipher(c, k, out, p[BLOCK_SIZE..]);
      XorCancel(p[..BLOCK_SIZE], iv);
      assert p == p[..BLOCK_SIZE] + p[BLOCK_SIZE..];
    }
  }

  /** With a bijective block cipher, CBC encryption also undoes decryption. */
  lemma {:induction false} EncipherDecipher(c: BlockCipher, k: Key, iv: Block, ct: seq<byte>)
    requires Bijective(c)
    requires |ct| % BLOCK_SIZE == 0
    ensures Encipher(c, k, iv, Decipher(c, k, iv, ct)) == ct
    decreases |ct|
  {
    if |ct| > 0 {
      var cur: Block := ct[..BLOCK_SIZE];
      var head := Xor(c.decrypt(k, cur), iv);
      var rest := Decipher(c, k, cur, ct[BLOCK_SIZE..]);
      var p: seq<byte> := head + rest;
      assert p[..BLOCK_SIZE] == head;
      assert p[BLOCK_SIZE..] == rest;
      XorCancel(c.decrypt(k, cur), iv);
      EncipherDecipher(c, k, cur, ct[BLOCK_SIZE..]);
      assert ct == cur + ct[BLOCK_SIZE..];
    }
  }

  /** The chaining loop of the encryptor: each block is XORed with the
      previous ciphertext block (the IV at first) and then enciphered. */
  method EncryptChain(c: BlockCipher, k: Key, iv: Block, p: seq<byte>) returns (ct: seq<byte>)
    requires |p| % BLOCK_SIZE == 0
    ensures ct == Encipher(c, k, iv, p)
  {
    ct := [];
    var prev: Block := iv;
    var rest := p;
    while |rest| > 0
      invariant |rest| % BLOCK_SIZE == 0
      invariant ct + Encipher(c, k, prev, rest) == Encipher(c, k, iv, p)
      decreases |rest|
    {
      var out := c.encrypt(k, Xor(rest[..BLOCK_SIZE], prev));
      var tail := Encipher(c, k, out, rest[BLOCK_SIZE..]);
      assert ct + out + tail == ct + (out + tail);
      ct := ct + out;
      prev := out;
      rest := rest[BLOCK_SIZE..];
    }
  }

  /** The chaining loop of the decryptor: each block is deciphered and XORed
      with the previous ciphertext block (the IV at first). */
  method DecryptChain(c: BlockCipher, k: Key, iv: Block, ct: seq<byte>) returns (p: seq<byte>)
    requires |ct| % BLOCK_SIZE == 0
    ensures p == Decipher(c, k, iv, ct)
  {
    p := [];
    var prev: Block := iv;
    var rest := ct;
    while |rest| > 0
      invariant |rest| % BLOCK_SIZE == 0
      invariant p + Decipher(c, k, prev, rest) == Decipher(c, k, iv, ct)
      decreases |rest|
    {
      var cur: Block := rest[..BLOCK_SIZE];
      var plain := Xor(c.decrypt(k, cur), prev);
      var tail := Decipher(c, k, cur, rest[BLOCK_SIZE..]);
      assert p + plain + tail == p + (plain + tail);
      p := p + plain;
      prev := cur;
      rest := rest[BLOCK_SIZE..];
    }
  }
}
