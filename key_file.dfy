/** Field validation of `load_key_iv_from_json`. The JSON parse and the
    base64 decode are library calls; a field arrives here already parsed,
    as its base64 text together with the bytes that text decodes to. */
module KeyFile {
  import opened Types

  datatype Field = Field(text: string, decoded: seq<byte>)

  /** The `iv` and `key` entries of the JSON object; None when absent. */
  datatype KeyFileFields = KeyFileFields(iv: Option<Field>, key: Option<Field>)

  datatype KeyIv = KeyIv(key: Key, iv: Block)

  /** A field passes the presence test when it exists and its text is not empty. */
  predicate Present(f: Option<Field>) {
    f.Some? && f.value.text != ""
  }

  function LoadKeyIv(f: KeyFileFields): (r: Result<KeyIv>)
    ensures r.Ok? <==> Present(f.iv) && Present(f.key)
                       && |f.iv.value.decoded| == IV_SIZE && |f.key.value.decoded| == KEY_SIZE
    ensures r.Ok? ==> r.value.key == f.key.value.decoded && r.value.iv == f.iv.value.decoded
    ensures r.Err? ==> (r.error == KeyFileMissingField <==> !Present(f.iv) || !Present(f.key))
    ensures r.Err? ==> r.error == KeyFileMissingField || r.error == KeyFileWrongSize
  {
    if !Present(f.iv) || !Present(f.key) then Err(KeyFileMissingField)
    else
      var iv := f.iv.value.decoded;
      var key := f.key.value.decoded;
      if |iv| != IV_SIZE || |key| != KEY_SIZE then Err(KeyFileWrongSize)
      else Ok(KeyIv(key, iv))
  }

  /** A key file whose IV decodes to anything but 16 bytes (15 or 17, say)
      is rejected, whatever its key. */
  lemma RejectsWrongIvLength(f: KeyFileFields)
    requires f.iv.Some? && |f.iv.value.decoded| != IV_SIZE
    ensures LoadKeyIv(f).Err?
  {
  }
}
