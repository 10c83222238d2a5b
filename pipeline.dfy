/** The two commands of heimdal/heimdal.py: `encode_command` seals an input
    into a container, `decode_command` opens a container and either hands
    the plaintext to the zip extractor or writes it as one raw file. The
    file system is left out: the input arrives as an InputEntry or as the
    container's bytes, and the outcome is the bytes written or a Delivery. */
module Pipeline {
  import opened Types
  import Cbc
  import CipherEngine
  import KeyFile
  import KeyMaterial
  import ContainerCodec
  import Streams
  import Archive
  import Paths

  /** What the encode input path is. For a directory, `archive` is the blob
      `zip_directory` produced from it. */
  datatype InputEntry =
    | MissingPath
    | DirectoryEntry(archive: seq<byte>)
    | FileEntry(contents: seq<byte>)
    | OtherEntry

  /** Where a successful decode puts the plaintext. */
  datatype Delivery =
    | Extracted(directory: string, plaintext: seq<byte>)
    | RawFile(path: string, plaintext: seq<byte>)

  predicate Readable(input: InputEntry) {
    input.DirectoryEntry? || input.FileEntry?
  }

  /** The bytes that get encrypted. */
  function Payload(input: InputEntry): seq<byte>
    requires Readable(input)
  {
    if input.DirectoryEntry? then input.archive else input.contents
  }

  /** encode_command: the path check, then key material, then the input's
      kind, then encryption and the container. */
  function Seal(src: KeyMaterial.KeySource, kdf: KeyMaterial.Kdf, c: Cbc.BlockCipher,
                input: InputEntry, freshSalt: Salt, freshIv: Block): (r: Result<seq<byte>>)
    ensures r.Ok? <==> Readable(input) && KeyMaterial.ForEncode(src, kdf, freshSalt, freshIv).Ok?
    ensures input.MissingPath? ==> r == Err(InputMissing)
    ensures !input.MissingPath? && KeyMaterial.ForEncode(src, kdf, freshSalt, freshIv).Err? ==>
              r == Err(KeyMaterial.ForEncode(src, kdf, freshSalt, freshIv).error)
    ensures input.OtherEntry? && KeyMaterial.ForEncode(src, kdf, freshSalt, freshIv).Ok? ==>
              r == Err(NotFileOrDirectory)
  {
    if input.MissingPath? then Err(InputMissing)
    else
      match KeyMaterial.ForEncode(src, kdf, freshSalt, freshIv)
      case Err(e) => Err(e)
      case Ok(m) =>
        if !Readable(input) then Err(NotFileOrDirectory)
        else
          var ct := CipherEngine.Encrypt(c, m.key, m.iv, Payload(input));
          Ok(ContainerCodec.Serialize(ContainerCodec.Container(m.salt, m.iv, ct)))
  }

  /** The branch after decryption: a zip signature means extraction into the
      output path, anything else a raw file at the fallback name. */
  function Deliver(plaintext: seq<byte>, inputPath: string, outputPath: string, outputIsDir: bool): (d: Delivery)
    ensures d.plaintext == plaintext
    ensures d.Extracted? <==> Archive.IsZipFile(plaintext)
    ensures d.Extracted? ==> d.directory == outputPath
    ensures d.RawFile? ==> d.path == Paths.RawOutputPath(outputIsDir, outputPath, inputPath)
  {
    if Archive.IsZipFile(plaintext) then Extracted(outputPath, plaintext)
    else RawFile(Paths.RawOutputPath(outputIsDir, outputPath, inputPath), plaintext)
  }

  /** decode_command: the path check, then the header, then the key, then
      decryption, then the format sniff. `container` is None when the input
      path does not exist. */
  function Open(src: KeyMaterial.KeySource, kdf: KeyMaterial.Kdf, c: Cbc.BlockCipher,
                container: Option<seq<byte>>, inputPath: string, outputPath: string, outputIsDir: bool)
    : (r: Result<Delivery>)
    ensures container.None? ==> r == Err(InputMissing)
    ensures container.Some? && |container.value| < ContainerCodec.HEADER_SIZE ==> r == Err(InvalidFormat)
    ensures container.Some? && |container.value| >= ContainerCodec.HEADER_SIZE
            && KeyMaterial.ForDecode(src, kdf, container.value[..SALT_SIZE]).Err? ==>
              r == Err(KeyMaterial.ForDecode(src, kdf, container.value[..SALT_SIZE]).error)
    ensures container.Some? && |container.value| >= ContainerCodec.HEADER_SIZE
            && KeyMaterial.ForDecode(src, kdf, container.value[..SALT_SIZE]).Ok? ==>
              var key := KeyMaterial.ForDecode(src, kdf, container.value[..SALT_SIZE]).value;
              var plain := CipherEngine.Decrypt(c, key, container.value[SALT_SIZE..ContainerCodec.HEADER_SIZE],
                                                container.value[ContainerCodec.HEADER_SIZE..]);
              && (plain.Err? ==> r == Err(plain.error))
              && (plain.Ok? ==> r == Ok(Deliver(plain.value, inputPath, outputPath, outputIsDir)))
    ensures r.Err? ==> r.error in {InputMissing, InvalidFormat, KeyFileMissingField, KeyFileWrongSize,
                                   CiphertextLength, InvalidPadding}
    ensures r.Ok? ==> r.value == Deliver(r.value.plaintext, inputPath, outputPath, outputIsDir)
  {
    if container.None? then Err(InputMissing)
    else
      match ContainerCodec.Parse(container.value)
      case Err(e) => Err(e)
      case Ok(box) =>
        match KeyMaterial.ForDecode(src, kdf, box.salt)
        case Err(e) => Err(e)
        case Ok(key) =>
          match CipherEngine.Decrypt(c, key, box.iv, box.ciphertext)
          case Err(e) => Err(e)
          case Ok(plaintext) => Ok(Deliver(plaintext, inputPath, outputPath, outputIsDir))
  }

  /** A sealed container is the stored salt, the IV used, and a whole number
      of cipher blocks longer than the payload. */
  lemma SealLayout(src: KeyMaterial.KeySource, kdf: KeyMaterial.Kdf, c: Cbc.BlockCipher,
                   input: InputEntry, freshSalt: Salt, freshIv: Block)
    requires Seal(src, kdf, c, input, freshSalt, freshIv).Ok?
    ensures var b := Seal(src, kdf, c, input, freshSalt, freshIv).value;
            && |b| > ContainerCodec.HEADER_SIZE + |Payload(input)|
            && (|b| - ContainerCodec.HEADER_SIZE) % BLOCK_SIZE == 0
            && b[..SALT_SIZE] == freshSalt
            && (src.PasswordSource? ==> b[SALT_SIZE..ContainerCodec.HEADER_SIZE] == freshIv)
            && (src.KeyFileSource? ==>
                  b[SALT_SIZE..ContainerCodec.HEADER_SIZE] == KeyFile.LoadKeyIv(src.fields).value.iv)
  {
  }

  /** Sealing with a password and opening with the same password gives the
      payload back, routed by its own first four bytes. */
  lemma PasswordRoundTrip(pw: seq<byte>, kdf: KeyMaterial.Kdf, c: Cbc.BlockCipher, input: InputEntry,
                          freshSalt: Salt, freshIv: Block, inputPath: string, outputPath: string, outputIsDir: bool)
    requires Cbc.Invertible(c)
    requires Readable(input)
    ensures var sealed := Seal(KeyMaterial.PasswordSource(pw), kdf, c, input, freshSalt, freshIv);
            && sealed.Ok?
            && Open(KeyMaterial.PasswordSource(pw), kdf, c, Some(sealed.value), inputPath, outputPath, outputIsDir)
               == Ok(Deliver(Payload(input), inputPath, outputPath, outputIsDir))
  {
    var src := KeyMaterial.PasswordSource(pw);
    var m := KeyMaterial.ForEncode(src, kdf, freshSalt, freshIv).value;
    var box := ContainerCodec.Container(m.salt, m.iv, CipherEngine.Encrypt(c, m.key, m.iv, Payload(input)));
    ContainerCodec.ParseSerialize(box);
    CipherEngine.DecryptEncrypt(c, m.key, m.iv, Payload(input));
  }

  /** Sealing with one key file and opening with another that holds the same
      key gives the payload back: the decoding file's IV plays no part. */
  lemma KeyFileRoundTrip(sealFile: KeyFile.KeyFileFields, openFile: KeyFile.KeyFileFields,
                         kdf: KeyMaterial.Kdf, c: Cbc.BlockCipher, input: InputEntry,
                         freshSalt: Salt, freshIv: Block, inputPath: string, outputPath: string, outputIsDir: bool)
    requires Cbc.Invertible(c)
    requires Readable(input)
    requires KeyFile.LoadKeyIv(sealFile).Ok? && KeyFile.LoadKeyIv(openFile).Ok?
    requires KeyFile.LoadKeyIv(openFile).value.key == KeyFile.LoadKeyIv(sealFile).value.key
    ensures var sealed := Seal(KeyMaterial.KeyFileSource(sealFile), kdf, c, input, freshSalt, freshIv);
            && sealed.Ok?
            && Open(KeyMaterial.KeyFileSource(openFile), kdf, c, Some(sealed.value), inputPath, outputPath, outputIsDir)
               == Ok(Deliver(Payload(input), inputPath, outputPath, outputIsDir))
  {
    var src := KeyMaterial.KeyFileSource(sealFile);
    var m := KeyMaterial.ForEncode(src, kdf, freshSalt, freshIv).value;
    var box := ContainerCodec.Container(m.salt, m.iv, CipherEngine.Encrypt(c, m.key, m.iv, Payload(input)));
    ContainerCodec.ParseSerialize(box);
    CipherEngine.DecryptEncrypt(c, m.key, m.iv, Payload(input));
  }

  /** A container shorter than its header is refused before any key is
      resolved or anything is decrypted: the outcome depends on neither the
      key source, the KDF nor the cipher. */
  lemma OpenRejectsShortContainer(src: KeyMaterial.KeySource, kdf: KeyMaterial.Kdf, c: Cbc.BlockCipher,
                                  b: seq<byte>, inputPath: string, outputPath: string, outputIsDir: bool)
    requires |b| < ContainerCodec.HEADER_SIZE
    ensures Open(src, kdf, c, Some(b), inputPath, outputPath, outputIsDir) == Err(InvalidFormat)
  {
  }

  /** With a key file, opening reads the salt but ignores it, and ignores
      the key file's IV: only the file's key and the container's IV and
      ciphertext matter. */
  lemma KeyFileOpenIgnoresSaltAndFileIv(f1: KeyFile.KeyFileFields, f2: KeyFile.KeyFileFields,
                                        kdf1: KeyMaterial.Kdf, kdf2: KeyMaterial.Kdf, c: Cbc.BlockCipher,
                                        salt1: Salt, salt2: Salt, rest: seq<byte>,
                                        inputPath: string, outputPath: string, outputIsDir: bool)
    requires KeyFile.LoadKeyIv(f1).Ok? && KeyFile.LoadKeyIv(f2).Ok?
    requires KeyFile.LoadKeyIv(f1).value.key == KeyFile.LoadKeyIv(f2).value.key
    ensures Open(KeyMaterial.KeyFileSource(f1), kdf1, c, Some(salt1 + rest), inputPath, outputPath, outputIsDir)
            == Open(KeyMaterial.KeyFileSource(f2), kdf2, c, Some(salt2 + rest), inputPath, outputPath, outputIsDir)
  {
    var b1, b2 := salt1 + rest, salt2 + rest;
    if |rest| >= IV_SIZE {
      var box1, box2 := ContainerCodec.Parse(b1).value, ContainerCodec.Parse(b2).value;
      assert b1[SALT_SIZE..] == rest == b2[SALT_SIZE..];
      assert box1.iv == rest[..IV_SIZE] == box2.iv;
      assert box1.ciphertext == rest[IV_SIZE..] == box2.ciphertext;
      var key := KeyFile.LoadKeyIv(f1).value.key;
      assert KeyMaterial.ForDecode(KeyMaterial.KeyFileSource(f1), kdf1, box1.salt) == Ok(key);
      assert KeyMaterial.ForDecode(KeyMaterial.KeyFileSource(f2), kdf2, box2.salt) == Ok(key);
    }
  }

  /** A regular file that happens to begin with the zip signature (an
      .xlsx or .jar, say) is handed to the extractor on opening, not
      written back as a file. */
  lemma ZipLookingFileIsExtracted(pw: seq<byte>, kdf: KeyMaterial.Kdf, c: Cbc.BlockCipher, contents: seq<byte>,
                                  freshSalt: Salt, freshIv: Block, inputPath: string, outputPath: string, outputIsDir: bool)
    requires Cbc.Invertible(c)
    requires Archive.IsZipFile(contents)
    ensures var sealed := Seal(KeyMaterial.PasswordSource(pw), kdf, c, FileEntry(contents), freshSalt, freshIv);
            && sealed.Ok?
            && Open(KeyMaterial.PasswordSource(pw), kdf, c, Some(sealed.value), inputPath, outputPath, outputIsDir)
               == Ok(Extracted(outputPath, contents))
  {
    PasswordRoundTrip(pw, kdf, c, FileEntry(contents), freshSalt, freshIv, inputPath, outputPath, outputIsDir);
  }

  /** How an encode run ends: the container written, an error reported and
      the command returning, or the error reported and then an exception
      escaping from the cleanup clause. */
  datatype Ending = Sealed(container: seq<byte>) | Reported(error: Error) | Escaped(error: Error)

  /** encode_command as written: a key-file error is caught and reported,
      but the `finally` clause then reads `temp_data_path`, which is bound
      only after key resolution, so an UnboundLocalError escapes. */
  function EndOfEncodeAsWritten(src: KeyMaterial.KeySource, kdf: KeyMaterial.Kdf, c: Cbc.BlockCipher,
                                input: InputEntry, freshSalt: Salt, freshIv: Block): (e: Ending)
    ensures e.Escaped? <==> !input.MissingPath? && KeyMaterial.ForEncode(src, kdf, freshSalt, freshIv).Err?
    ensures e.Escaped? ==> e.error == KeyMaterial.ForEncode(src, kdf, freshSalt, freshIv).error
    ensures e.Sealed? <==> Seal(src, kdf, c, input, freshSalt, freshIv).Ok?
    ensures e.Sealed? ==> Seal(src, kdf, c, input, freshSalt, freshIv) == Ok(e.container)
    ensures e.Reported? ==> Seal(src, kdf, c, input, freshSalt, freshIv) == Err(e.error)
  {
    if input.MissingPath? then Reported(InputMissing)
    else
      match KeyMaterial.ForEncode(src, kdf, freshSalt, freshIv)
      case Err(e) => Escaped(e)
      case Ok(_) =>
        match Seal(src, kdf, c, input, freshSalt, freshIv)
        case Ok(b) => Sealed(b)
        case Err(e) => Reported(e)
  }

  /** The intended ending: every failure of Seal is reported. */
  function EndOfEncode(src: KeyMaterial.KeySource, kdf: KeyMaterial.Kdf, c: Cbc.BlockCipher,
                       input: InputEntry, freshSalt: Salt, freshIv: Block): (e: Ending)
    ensures !e.Escaped?
    ensures e.Sealed? <==> Seal(src, kdf, c, input, freshSalt, freshIv).Ok?
    ensures e.Sealed? ==> Seal(src, kdf, c, input, freshSalt, freshIv) == Ok(e.container)
    ensures e.Reported? ==> Seal(src, kdf, c, input, freshSalt, freshIv) == Err(e.error)
  {
    match Seal(src, kdf, c, input, freshSalt, freshIv)
    case Ok(b) => Sealed(b)
    case Err(e) => Reported(e)
  }

  /** The discrepancy: a key file without an `iv` field makes the command
      as written end in an escaping exception. */
  lemma KeyFileErrorEscapesAsWritten(kdf: KeyMaterial.Kdf, c: Cbc.BlockCipher, contents: seq<byte>,
                                     freshSalt: Salt, freshIv: Block)
    ensures var src := KeyMaterial.KeyFileSource(KeyFile.KeyFileFields(None, None));
            EndOfEncodeAsWritten(src, kdf, c, FileEntry(contents), freshSalt, freshIv) == Escaped(KeyFileMissingField)
  {
  }

  /** The escape is the only difference: wherever the command as written
      does not escape, it ends exactly as intended; where it escapes, the
      intended command reports the same error. */
  lemma EndOfEncodeDiffersOnlyByEscape(src: KeyMaterial.KeySource, kdf: KeyMaterial.Kdf, c: Cbc.BlockCipher,
                                       input: InputEntry, freshSalt: Salt, freshIv: Block)
    ensures var asWritten := EndOfEncodeAsWritten(src, kdf, c, input, freshSalt, freshIv);
            var intended := EndOfEncode(src, kdf, c, input, freshSalt, freshIv);
            && (!asWritten.Escaped? ==> asWritten == intended)
            && (asWritten.Escaped? ==> intended == Reported(asWritten.error))
  {
  }

  method EncodeCommand(src: KeyMaterial.KeySource, kdf: KeyMaterial.Kdf, c: Cbc.BlockCipher,
                       input: InputEntry, freshSalt: Salt, freshIv: Block) returns (r: Result<seq<byte>>)
    ensures r == Seal(src, kdf, c, input, freshSalt, freshIv)
  {
    if input.MissingPath? {
      return Err(InputMissing);
    }
    var key: Key, iv: Block, salt: Salt;
    match KeyMaterial.ForEncode(src, kdf, freshSalt, freshIv) {
      case Err(e) => return Err(e);
      case Ok(m) => key, iv, salt := m.key, m.iv, m.salt;
    }
    var data: seq<byte>;
    if input.DirectoryEntry? {
      data := input.archive;
    } else if input.FileEntry? {
      data := input.contents;
    } else {
      return Err(NotFileOrDirectory);
    }
    var ciphertext := CipherEngine.EncryptData(c, key, iv, data);
    var f := new Streams.ByteWriter();
    f.Write(salt);
    f.Write(iv);
    f.Write(ciphertext);
    assert f.contents == salt + iv + ciphertext;
    assert data == Payload(input);
    return Ok(f.contents);
  }

  method DecodeCommand(src: KeyMaterial.KeySource, kdf: KeyMaterial.Kdf, c: Cbc.BlockCipher,
                       container: Option<seq<byte>>, inputPath: string, outputPath: string, outputIsDir: bool)
    returns (r: Result<Delivery>)
    ensures r == Open(src, kdf, c, container, inputPath, outputPath, outputIsDir)
  {
    if container.None? {
      return Err(InputMissing);
    }
    var f := new Streams.ByteReader(container.value);
    var salt := f.Read(SALT_SIZE);
    var iv := f.Read(IV_SIZE);
    var ciphertext := f.ReadAll();
    if |salt| != SALT_SIZE || |iv| != IV_SIZE {
      return Err(InvalidFormat);
    }
    assert container.value == salt + iv + ciphertext;
    var key: Key;
    match KeyMaterial.ForDecode(src, kdf, salt) {
      case Err(e) => return Err(e);
      case Ok(k) => key := k;
    }
    var plaintext := CipherEngine.DecryptData(c, key, iv, ciphertext);
    if plaintext.Err? {
      return Err(plaintext.error);
    }
    if Archive.IsZipFile(plaintext.value) {
      r := Ok(Extracted(outputPath, plaintext.value));
    } else {
      r := Ok(RawFile(Paths.RawOutputPath(outputIsDir, outputPath, inputPath), plaintext.value));
    }
  }
}
