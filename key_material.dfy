/** Where the key, IV and salt come from in `encode_command` and
    `decode_command`: a password (through PBKDF2-HMAC-SHA256, left abstract
    as a deterministic function) or a key file. Fresh randomness from
    `os.urandom` is passed in. */
module KeyMaterial {
  import opened Types
  import KeyFile

  /** PBKDF2-HMAC-SHA256 with 100000 iterations and a 32-byte output. */
  type Kdf = (seq<byte>, Salt) -> Key

  /** The `--key` option: absent means password mode. */
  datatype KeySource =
    | PasswordSource(password: seq<byte>)
    | KeyFileSource(fields: KeyFile.KeyFileFields)

  datatype Material = Material(key: Key, iv: Block, salt: Salt)

  /** Encode: the key file supplies key and IV and the fresh salt is only
      stored; a password derives the key from the fresh salt and the IV is
      fresh too. */
  function ForEncode(src: KeySource, kdf: Kdf, freshSalt: Salt, freshIv: Block): (r: Result<Material>)
    ensures r.Ok? ==> r.value.salt == freshSalt
    ensures src.PasswordSource? ==> r == Ok(Material(kdf(src.password, freshSalt), freshIv, freshSalt))
    ensures src.KeyFileSource? ==>
              match KeyFile.LoadKeyIv(src.fields)
              case Err(e) => r == Err(e)
              case Ok(f) => r.Ok? && r.value.key == f.key && r.value.iv == f.iv
  {
    match src
    case KeyFileSource(fields) =>
      (match KeyFile.LoadKeyIv(fields)
       case Err(e) => Err(e)
       case Ok(f) => Ok(Material(f.key, f.iv, freshSalt)))
    case PasswordSource(pw) =>
      Ok(Material(kdf(pw, freshSalt), freshIv, freshSalt))
  }

  /** Decode: the key file supplies the key (its IV is not used); a password
      derives the key from the salt read out of the container. */
  function ForDecode(src: KeySource, kdf: Kdf, salt: Salt): (r: Result<Key>)
    ensures src.PasswordSource? ==> r == Ok(kdf(src.password, salt))
    ensures src.KeyFileSource? ==>
              match KeyFile.LoadKeyIv(src.fields)
              case Err(e) => r == Err(e)
              case Ok(f) => r == Ok(f.key)
  {
    match src
    case KeyFileSource(fields) =>
      (match KeyFile.LoadKeyIv(fields)
       case Err(e) => Err(e)
       case Ok(f) => Ok(f.key))
    case PasswordSource(pw) => Ok(kdf(pw, salt))
  }

  /** In key-file mode the fresh salt never reaches key derivation and the
      fresh IV is not used: the result is the same for every KDF and IV. */
  lemma KeyFileEncodeIgnoresKdf(f: KeyFile.KeyFileFields, kdf1: Kdf, kdf2: Kdf, salt: Salt, iv1: Block, iv2: Block)
    ensures ForEncode(KeyFileSource(f), kdf1, salt, iv1) == ForEncode(KeyFileSource(f), kdf2, salt, iv2)
  {
  }

  /** In key-file mode decoding uses neither the KDF nor the container's salt. */
  lemma KeyFileDecodeIgnoresSalt(f: KeyFile.KeyFileFields, kdf1: Kdf, kdf2: Kdf, salt1: Salt, salt2: Salt)
    ensures ForDecode(KeyFileSource(f), kdf1, salt1) == ForDecode(KeyFileSource(f), kdf2, salt2)
  {
  }

  /** Decode reconstructs the key encode used from the salt encode stored,
      in both modes (PBKDF2 being deterministic). */
  lemma DecodeRecoversEncodeKey(src: KeySource, kdf: Kdf, freshSalt: Salt, freshIv: Block)
    requires ForEncode(src, kdf, freshSalt, freshIv).Ok?
    ensures ForDecode(src, kdf, ForEncode(src, kdf, freshSalt, freshIv).value.salt)
            == Ok(ForEncode(src, kdf, freshSalt, freshIv).value.key)
  {
  }
}
