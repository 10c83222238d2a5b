/** Format sniffing of decrypted plaintext: `is_zip_file`. Packing and
    extraction themselves are not part of this model. */
module Archive {
  import opened Types

  /** The local-file-header signature "PK\x03\x04". */
  const ZIP_MAGIC: seq<byte> := [0x50, 0x4B, 0x03, 0x04]

  /** A plaintext taken for a zip archive holds at least the four signature
      bytes; IsZipFileExactly gives the converse. */
  predicate IsZipFile(data: seq<byte>): (b: bool)
    ensures b ==> |data| >= 4 && data[0] == 0x50 && data[1] == 0x4B && data[2] == 0x03 && data[3] == 0x04
  {
    StartsWith(data, ZIP_MAGIC)
  }

  lemma IsZipFileExactly(data: seq<byte>)
    ensures IsZipFile(data) <==>
              |data| >= 4 && data[0] == 0x50 && data[1] == 0x4B && data[2] == 0x03 && data[3] == 0x04
  {
    if |data| >= 4 && data[0] == 0x50 && data[1] == 0x4B && data[2] == 0x03 && data[3] == 0x04 {
      assert data[..4] == ZIP_MAGIC;
    }
  }
}
