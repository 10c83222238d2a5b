/** Byte sequences, the fixed sizes of the container format, and the error
    values that the encode and decode commands can end in. */
module Types {

  type byte = bv8

  /** AES block size in bytes (128 bits). */
  const BLOCK_SIZE: nat := 16
  const SALT_SIZE: nat := 16
  const IV_SIZE: nat := 16
  /** AES-256 key size in bytes. */
  const KEY_SIZE: nat := 32

  type Block = s: seq<byte> | |s| == BLOCK_SIZE witness seq(16, _ => 0)
  type Salt = s: seq<byte> | |s| == SALT_SIZE witness seq(16, _ => 0)
  type Key = s: seq<byte> | |s| == KEY_SIZE witness seq(32, _ => 0)

  datatype Option<T> = None | Some(value: T)

  /** Every way an encode or decode run can stop early. */
  datatype Error =
    | InputMissing         // the input path does not exist
    | NotFileOrDirectory   // encode: the input exists but is neither a file nor a directory
    | KeyFileMissingField  // key file: `iv` or `key` absent or empty
    | KeyFileWrongSize     // key file: decoded IV is not 16 bytes or decoded key is not 32 bytes
    | InvalidFormat        // decode: the container is shorter than its 32-byte header
    | CiphertextLength     // decrypt: ciphertext length is not a multiple of the block size
    | InvalidPadding       // decrypt: the PKCS#7 trailer is inconsistent

  datatype Result<T> = Ok(value: T) | Err(error: Error)

  /** Python's `bytes.startswith` / `str.startswith`. */
  predicate StartsWith<T(==)>(s: seq<T>, prefix: seq<T>) {
    |prefix| <= |s| && s[..|prefix|] == prefix
  }

  /** Python's `str.endswith`. */
  predicate EndsWith<T(==)>(s: seq<T>, suffix: seq<T>) {
    |suffix| <= |s| && s[|s| - |suffix|..] == suffix
  }
}
