/** The on-disk container: salt (16 bytes) ‖ IV (16 bytes) ‖ ciphertext. */
module ContainerCodec {
  import opened Types

  const HEADER_SIZE: nat := SALT_SIZE + IV_SIZE

  datatype Container = Container(salt: Salt, iv: Block, ciphertext: seq<byte>)

  /** The three writes of `encode_command`, concatenated. */
  function Serialize(c: Container): (b: seq<byte>)
    ensures |b| == HEADER_SIZE + |c.ciphertext|
    ensures b[..SALT_SIZE] == c.salt
    ensures b[SALT_SIZE..HEADER_SIZE] == c.iv
    ensures b[HEADER_SIZE..] == c.ciphertext
  {
    c.salt + c.iv + c.ciphertext
  }

  /** The reads of `decode_command`: 16 bytes of salt, 16 of IV, the rest as
      ciphertext; fewer than 32 bytes is an invalid format. */
  function Parse(b: seq<byte>): (r: Result<Container>)
    ensures r.Err? <==> |b| < HEADER_SIZE
    ensures r.Err? ==> r.error == InvalidFormat
    ensures r.Ok? ==> Serialize(r.value) == b
  {
    if |b| < HEADER_SIZE then Err(InvalidFormat)
    else
      assert b == b[..SALT_SIZE] + b[SALT_SIZE..HEADER_SIZE] + b[HEADER_SIZE..];
      Ok(Container(b[..SALT_SIZE], b[SALT_SIZE..HEADER_SIZE], b[HEADER_SIZE..]))
  }

  lemma ParseSerialize(c: Container)
    ensures Parse(Serialize(c)) == Ok(c)
  {
    var b := Serialize(c);
    assert Parse(b).value.salt == c.salt;
  }
}
