/** The cipher engine of heimdal/heimdal.py: `encrypt_data` and
    `decrypt_data` taking the key and IV directly — AES in CBC mode with
    PKCS#7 padding, with AES itself left abstract. */
module CipherEngine {
  import opened Types
  import Pkcs7
  import Cbc

  /** encrypt_data: pad, then CBC-encrypt under (key, iv). */
  function Encrypt(c: Cbc.BlockCipher, key: Key, iv: Block, data: seq<byte>): (ct: seq<byte>)
    ensures |ct| % BLOCK_SIZE == 0
    ensures |data| < |ct| <= |data| + BLOCK_SIZE
  {
    Cbc.Encipher(c, key, iv, Pkcs7.Pad(data))
  }

  /** decrypt_data: the decryptor refuses a ciphertext that is not a whole
      number of blocks; otherwise CBC-decrypt and unpad, which fails on an
      inconsistent trailer (an empty ciphertext included). */
  function Decrypt(c: Cbc.BlockCipher, key: Key, iv: Block, ct: seq<byte>): (r: Result<seq<byte>>)
    ensures |ct| % BLOCK_SIZE != 0 ==> r == Err(CiphertextLength)
    ensures |ct| == 0 ==> r == Err(InvalidPadding)
    ensures r.Err? ==> r.error == CiphertextLength || r.error == InvalidPadding
    ensures r.Ok? ==> |r.value| < |ct| && |ct| - BLOCK_SIZE <= |r.value|
  {
    if |ct| % BLOCK_SIZE != 0 then Err(CiphertextLength)
    else
      match Pkcs7.Unpad(Cbc.Decipher(c, key, iv, ct))
      case None => Err(InvalidPadding)
      case Some(p) => Ok(p)
  }

  /** Decrypting with the same key and IV returns the original plaintext. */
  lemma DecryptEncrypt(c: Cbc.BlockCipher, key: Key, iv: Block, data: seq<byte>)
    requires Cbc.Invertible(c)
    ensures Decrypt(c, key, iv, Encrypt(c, key, iv, data)) == Ok(data)
  {
    Cbc.DecipherEncipher(c, key, iv, Pkcs7.Pad(data));
    Pkcs7.UnpadPad(data);
  }

  /** For a bijective block cipher the converse holds too: whatever ciphertext
      decrypts successfully is exactly the encryption of its plaintext. */
  lemma EncryptDecrypt(c: Cbc.BlockCipher, key: Key, iv: Block, ct: seq<byte>)
    requires Cbc.Bijective(c)
    requires Decrypt(c, key, iv, ct).Ok?
    ensures Encrypt(c, key, iv, Decrypt(c, key, iv, ct).value) == ct
  {
    Cbc.EncipherDecipher(c, key, iv, ct);
  }

  method EncryptData(c: Cbc.BlockCipher, key: Key, iv: Block, data: seq<byte>) returns (ct: seq<byte>)
    ensures ct == Encrypt(c, key, iv, data)
  {
    var padded := Pkcs7.Pad(data);
    ct := Cbc.EncryptChain(c, key, iv, padded);
  }

  method DecryptData(c: Cbc.BlockCipher, key: Key, iv: Block, ct: seq<byte>) returns (r: Result<seq<byte>>)
    ensures r == Decrypt(c, key, iv, ct)
  {
    if |ct| % BLOCK_SIZE != 0 {
      return Err(CiphertextLength);
    }
    var padded := Cbc.DecryptChain(c, key, iv, ct);
    var plaintext := Pkcs7.Unpad(padded);
    if plaintext.None? {
      return Err(InvalidPadding);
    }
    return Ok(plaintext.value);
  }
}
