# heimdal: a verified model of the encryption container pipeline

heimdal seals a file or a directory into one encrypted container and opens it
again. This project models, in Dafny, the byte-level core of
`heimdal/heimdal.py`:

- the **cipher engine** (`encrypt_data` / `decrypt_data` taking a key and an
  IV): PKCS#7 padding (RFC 5652, section 6.3) and cipher-block chaining
  (NIST SP 800-38A, section 6.2) over an abstract 128-bit block cipher;
- the **container codec**: `salt ‖ iv ‖ ciphertext` with a 16 + 16 byte header;
- **key-file validation** of `load_key_iv_from_json` on already-decoded fields;
- **key material resolution**: where key, IV and salt come from in password
  mode and in key-file mode, for encode and for decode;
- the **format sniff** `is_zip_file` and the **raw-output filename fallback**;
- the two commands `encode_command` and `decode_command` as methods that assign
  step by step, write the container with three writes and read it back with
  three reads, each proved equal to a specification function (`Seal`, `Open`).

AES is a parameter `Cbc.BlockCipher` (a pair of total functions on 16-byte
blocks under a 32-byte key). The only fact assumed of it is
`Cbc.Invertible`: decryption undoes encryption. Two converse lemmas,
`Cbc.EncipherDecipher` and `CipherEngine.EncryptDecrypt`, also assume
`Cbc.Bijective` (AES is a permutation of blocks). PBKDF2-HMAC-SHA256 is
a parameter `KeyMaterial.Kdf`, so it is deterministic by construction. The
random salt and IV from `os.urandom` are parameters `freshSalt` and `freshIv`.
The password is a parameter. The file system is replaced by values: the
encode input is a `Pipeline.InputEntry`, the container is `Option<bytes>`
(None when the path does not exist), and "is the output path a directory" is
a boolean.

Modules, one per file: `Types` (bytes, sizes, errors), `Pkcs7`, `Cbc`,
`CipherEngine`, `KeyFile`, `KeyMaterial`, `ContainerCodec`, `Streams` (Python
binary file objects), `Archive`, `Paths`, `Pipeline`.

Points where the source's behaviour is easy to misread:

- `encode_command` resolves key material (lines 211-221) before it looks at
  the input or packs a directory (226-238). So a bad key file is reported
  before "neither a file nor a directory". `Pipeline.Seal` keeps this order.
- A padding failure in decryption raises a `ValueError`, so it is reported by
  the catch-all at line 343, not as "incorrect password". The same holds for a
  ciphertext whose length is not a whole number of blocks. The model returns
  `InvalidPadding` or `CiphertextLength`.
- The key-file check also rejects a present but empty field, in the same
  branch as a missing one (line 77).
- An empty ciphertext (a container of exactly 32 bytes) decrypts to nothing
  and then fails unpadding. `CipherEngine.Decrypt` states this.

## Model

| member | source | states |
|---|---|---|
| `Pkcs7.Pad` | heimdal/heimdal.py:108-110 | the padded length is a multiple of 16, strictly longer than the input and at most 16 longer; the input is a prefix; every added byte equals the number of bytes added |
| `Pkcs7.Unpad` | heimdal/heimdal.py:121-123 | unpadding succeeds only on an output of `Pad`, and then `Pad` of its result gives the input back |
| `Pkcs7.UnpadPad` | heimdal/heimdal.py:108-123 | unpadding inverts padding |
| `Pkcs7.UnpadExactlyInvertsPad` | heimdal/heimdal.py:108-123 | `Unpad(p) == Some(d)` holds exactly when `Pad(d) == p` |
| `Pkcs7.UnpadRejectsBadTrailer` | heimdal/heimdal.py:121-123 | a last byte of 0 or above 16 is rejected |
| `Cbc.Encipher` | heimdal/heimdal.py:105-112 | CBC encryption preserves length |
| `Cbc.Decipher` | heimdal/heimdal.py:117-119 | CBC decryption preserves length |
| `Cbc.EncipherBlock` | heimdal/heimdal.py:105-112 | block j of the ciphertext is `E_k(P_j xor C_{j-1})`, with the IV for j = 0 (the standard's definition) |
| `Cbc.DecipherBlock` | heimdal/heimdal.py:117-119 | block j of the plaintext is `D_k(C_j) xor C_{j-1}`, with the IV for j = 0 |
| `Cbc.DecipherEncipher` | heimdal/heimdal.py:103-124 | CBC decryption with the same key and IV returns the plaintext, for an invertible block cipher |
| `Cbc.EncipherDecipher` | heimdal/heimdal.py:103-124 | for a bijective block cipher, CBC encryption also undoes CBC decryption |
| `Cbc.EncryptChain` | heimdal/heimdal.py:111-112 | the encryptor's loop, carrying the previous ciphertext block, computes exactly `Encipher` |
| `Cbc.DecryptChain` | heimdal/heimdal.py:118-119 | the decryptor's loop, carrying the previous ciphertext block, computes exactly `Decipher` |
| `CipherEngine.Encrypt` | heimdal/heimdal.py:103-113 | the ciphertext length is a multiple of 16, strictly greater than the plaintext length and at most 16 more |
| `CipherEngine.Decrypt` | heimdal/heimdal.py:115-124 | a length that is not a whole number of blocks is refused; an empty ciphertext fails unpadding; the only failures are these two; a plaintext is shorter than its ciphertext by 1 to 16 bytes |
| `CipherEngine.DecryptEncrypt` | heimdal/heimdal.py:103-124 | decrypting with the same key and IV returns the original plaintext |
| `CipherEngine.EncryptDecrypt` | heimdal/heimdal.py:103-124 | for a bijective block cipher, a ciphertext that decrypts is exactly the encryption of its plaintext |
| `CipherEngine.EncryptData` | heimdal/heimdal.py:103-113 | the pad-then-chain method computes `Encrypt` |
| `CipherEngine.DecryptData` | heimdal/heimdal.py:115-124 | the length check, chain and unpad method computes `Decrypt`, errors included |
| `KeyFile.LoadKeyIv` | heimdal/heimdal.py:74-87 | accepted exactly when both fields are present with non-empty text, the IV decodes to 16 bytes and the key to 32; the result is the decoded key and IV; a missing or empty field is reported as such, before and instead of a size error |
| `KeyFile.RejectsWrongIvLength` | heimdal/heimdal.py:83-84 | an IV that does not decode to 16 bytes (15 or 17, say) is rejected |
| `KeyMaterial.ForEncode` | heimdal/heimdal.py:211-221 | password mode: key = KDF(password, fresh salt), fresh IV, fresh salt; key-file mode: the file's key and IV with the fresh salt, or the key file's error |
| `KeyMaterial.ForDecode` | heimdal/heimdal.py:288-298 | password mode: key = KDF(password, container salt); key-file mode: the file's key, or its error |
| `KeyMaterial.KeyFileEncodeIgnoresKdf` | heimdal/heimdal.py:211-214 | in key-file mode the fresh salt never reaches key derivation and the fresh IV is unused: the outcome is the same for any KDF and any fresh IV |
| `KeyMaterial.KeyFileDecodeIgnoresSalt` | heimdal/heimdal.py:288-293 | in key-file mode the decode key does not depend on the KDF or on the container's salt |
| `KeyMaterial.DecodeRecoversEncodeKey` | heimdal/heimdal.py:288-298 | in both modes, decode resolves from the stored salt the key that encode used |
| `ContainerCodec.Serialize` | heimdal/heimdal.py:248-251 | the container has length 32 + ciphertext length: bytes 0-15 are the salt, 16-31 the IV, the rest the ciphertext |
| `ContainerCodec.Parse` | heimdal/heimdal.py:279-286 | fails with an invalid-format error exactly when fewer than 32 bytes are given; on success serialising the parts gives the input back |
| `ContainerCodec.ParseSerialize` | heimdal/heimdal.py:279-282 | parsing a serialised container gives back its salt, IV and ciphertext |
| `Streams.ByteReader.constructor` | heimdal/heimdal.py:279 | a freshly opened file is read from position 0 |
| `Streams.ByteReader.Read` | heimdal/heimdal.py:280-281 | `read(n)` returns the next n bytes, fewer only at end of file, and advances by what it returned |
| `Streams.ByteReader.ReadAll` | heimdal/heimdal.py:282 | `read()` returns everything from the position on |
| `Streams.ByteWriter.constructor` | heimdal/heimdal.py:248 | a file opened for writing starts empty |
| `Streams.ByteWriter.Write` | heimdal/heimdal.py:249-251 | each write appends its bytes |
| `Archive.IsZipFile` | heimdal/heimdal.py:191-194 | a plaintext recognised as a zip archive has at least four bytes, starting 50 4B 03 04 |
| `Archive.IsZipFileExactly` | heimdal/heimdal.py:191-194 | `is_zip_file(d)` holds exactly when d has at least 4 bytes and they are 50 4B 03 04 |
| `Paths.Basename` | heimdal/heimdal.py:322 | the result is the part after the last `/`: a suffix of the path with no `/` in it, preceded by `/` unless it is the whole path |
| `Paths.Join` | heimdal/heimdal.py:326 | `os.path.join`: the result ends with the second part; an absolute second part replaces the first; otherwise the first part is a prefix, at most one character is inserted, and a separator stands just before the second part whenever the first is non-empty; a separator is inserted exactly when the first part is non-empty and does not already end in one |
| `Paths.JoinName` | heimdal/heimdal.py:326 | joining a name without `/` onto a directory keeps the directory as prefix and makes the name the basename |
| `Paths.StripContainerExt` | heimdal/heimdal.py:324-325 | a name ending in `.hmd` loses exactly that suffix; any other name is unchanged |
| `Paths.StripAppendedExt` | heimdal/heimdal.py:324-325 | stripping removes exactly one appended `.hmd` (so `x.hmd.hmd` becomes `x.hmd`) |
| `Paths.RawOutputPath` | heimdal/heimdal.py:320-328 | for a directory target, the result is `os.path.join` of the target and the input's basename minus one `.hmd`: that name alone for an empty target, the target followed directly by the name when it ends in `/`, and the target, `/` and the name otherwise; its basename is that name; for any other target the result is the output path itself |
| `Pipeline.Seal` | heimdal/heimdal.py:196-253 | succeeds exactly for a file or directory input with usable key material; a missing path is reported first, then key-file errors, then an input that is neither file nor directory |
| `Pipeline.Deliver` | heimdal/heimdal.py:304-337 | the plaintext is extracted into the output path exactly when it starts with the zip signature, and is otherwise written whole to the fallback path |
| `Pipeline.Open` | heimdal/heimdal.py:262-337 | a missing input is reported first; a container under 32 bytes is an invalid format; with a whole header, a key-file error is reported before anything is decrypted; otherwise the outcome is the decryption error, or the plaintext delivered according to the sniff; no other failure (in particular not "neither a file nor a directory") can occur |
| `Pipeline.SealLayout` | heimdal/heimdal.py:245-251 | a sealed container starts with the fresh salt, then the IV used (the fresh one with a password, the key file's with a key file), then a whole number of blocks longer than the payload |
| `Pipeline.PasswordRoundTrip` | heimdal/heimdal.py:196-337 | sealing with a password and opening with the same one returns the payload, extracted or written according to its first four bytes |
| `Pipeline.KeyFileRoundTrip` | heimdal/heimdal.py:196-337 | sealing with one key file and opening with any key file that has the same key returns the payload: the decoding file's IV plays no part |
| `Pipeline.OpenRejectsShortContainer` | heimdal/heimdal.py:284-286 | a container shorter than 32 bytes is an invalid format whatever the key source, KDF or cipher, so no key is resolved and nothing is decrypted |
| `Pipeline.KeyFileOpenIgnoresSaltAndFileIv` | heimdal/heimdal.py:288-293 | with a key file, the container's salt, the KDF and the key file's IV do not affect the outcome of opening |
| `Pipeline.ZipLookingFileIsExtracted` | heimdal/heimdal.py:304-317 | a regular file that begins with the zip signature is handed to the extractor on opening, not written back as a file |
| `Pipeline.EndOfEncodeAsWritten` | heimdal/heimdal.py:206-260 | encode as written: an exception escapes exactly when the input path exists and key material fails, carrying the key-file error; the container `Seal` gives is written exactly when `Seal` succeeds; any other error reported is `Seal`'s own |
| `Pipeline.EndOfEncode` | heimdal/heimdal.py:255-260 | the intended ending of encode: never an escaping exception; the container `Seal` gives is written exactly when `Seal` succeeds, and otherwise `Seal`'s error is reported |
| `Pipeline.KeyFileErrorEscapesAsWritten` | heimdal/heimdal.py:206-260 | as written, encode with a key file lacking its fields ends in an exception escaping the command |
| `Pipeline.EndOfEncodeDiffersOnlyByEscape` | heimdal/heimdal.py:206-260 | the command as written ends as intended except where it lets an exception escape, and there the intended command reports the same error |
| `Pipeline.EncodeCommand` | heimdal/heimdal.py:196-253 | the step-by-step command, with its three writes, returns exactly the bytes `Seal` describes, or its error |
| `Pipeline.DecodeCommand` | heimdal/heimdal.py:262-337 | the step-by-step command, with its three reads and its length check, ends exactly as `Open` describes |

## Findings

| source | as written | input that shows it | evidently intended | confidence | as-written member | corrected member |
|---|---|---|---|---|---|---|
| heimdal/heimdal.py:223-260 | `temp_data_path` is first bound at line 223, after key resolution, but the `finally` clause at line 259 reads it. So when `load_key_iv_from_json` raises, the error is printed at line 256 and then an `UnboundLocalError` escapes `encode_command`. | `encode` with `-k` naming a key file without an `iv` field (or with a wrong-size key) | report the key-file error and return, as every other failure does | not executed | `Pipeline.EndOfEncodeAsWritten`, shown by `Pipeline.KeyFileErrorEscapesAsWritten` | `Pipeline.EndOfEncode`, with `Pipeline.EndOfEncodeDiffersOnlyByEscape` |

## Left out

- The AES block transform is a parameter. Only invertibility is assumed (and bijectivity for `Cbc.EncipherDecipher` and `CipherEngine.EncryptDecrypt`), so nothing is claimed about confidentiality.
- PBKDF2-HMAC-SHA256 (`derive_key`, lines 31-40) is a parameter. Its hash (SHA-256) and its 100000 iterations are not modelled; only its 32-byte output length is kept, through the `Key` type.
- `os.urandom` randomness is passed in as `freshSalt` and `freshIv`.
- `get_password` (lines 21-29) is left out. Its prompt-and-confirm loop is interactive, and the confirmed password is a parameter.
- In `load_key_iv_from_json`, JSON parsing, base64 decoding and opening the file are library calls and I/O. They are left out, and so are their errors (a missing file, malformed JSON, invalid base64, a non-string field). A field arrives as its text together with its decoded bytes.
- The first `encrypt_data` / `decrypt_data` (lines 42-67) are left out. The later definitions at lines 103-124 shadow them.
- `genkey_command` (lines 127-163) is left out. It writes a file and uses randomness and base64.
- `zip_directory` / `extract_zip` (lines 166-189) are left out. They use the file system, zipfile and DEFLATE. A directory input carries the archive bytes `zip_directory` produced, and a plaintext starting `PK\x03\x04` ends as `Delivery.Extracted`, the destination handed to `extract_zip`.
- A directory tree with no files packs to a zip that holds only its end record, which starts `PK\x05\x06`. Decoding it therefore writes the archive back as a raw file (lines 318-336), not as a directory. The model does the same, through `Archive.IsZipFile`; what `zipfile` writes for an empty tree is not modelled.
- Extraction failures are left out: a plaintext that starts with `PK\x03\x04` but is not a valid archive makes `extract_zip` re-raise (lines 182-188), and the command then ends in the catch-all at lines 342-343. The model still ends in `Ok(Extracted(...))`, because `Delivery.Extracted` only records that the plaintext is handed to the extractor.
- Temporary files, their cleanup, `os.makedirs` and path existence checks are file-system effects. They appear only as `InputEntry.MissingPath`, a `None` container and the `outputIsDir` flag.
- I/O failures while reading or writing (for example opening a directory as the container) are left out.
- The messages printed and the exception-to-message mapping at lines 339-344 are left out. The model ends in an `Error` value.
- `main` and argparse are left out. An empty `--key` string selects password mode in the source; here the caller chooses the `KeySource` variant.
- Detecting a wrong password is probabilistic: a wrong key yields a valid padding trailer with small but non-zero probability. It is not stated. Only `Pkcs7.UnpadRejectsBadTrailer` says which trailers are refused.
- Paths follow POSIX `posixpath` rules; Windows separators are not modelled.
