/** PKCS#7 padding (RFC 5652, section 6.3) for a 16-byte block, as the
    `padding.PKCS7(128)` padder and unpadder apply it. */
module Pkcs7 {
  import opened Types

  /** Number of bytes the padder appends to an input of length n: 1 to 16,
      never 0, so that a full block of padding follows a block-aligned input. */
  function PadLength(n: nat): (k: nat)
    ensures 1 <= k <= BLOCK_SIZE
    ensures (n + k) % BLOCK_SIZE == 0
  {
    BLOCK_SIZE - n % BLOCK_SIZE
  }

  /** The padder: append k copies of the byte k. */
  function Pad(data: seq<byte>): (r: seq<byte>)
    ensures |r| % BLOCK_SIZE == 0
    ensures |data| < |r| <= |data| + BLOCK_SIZE
    ensures r[..|data|] == data
    ensures forall i :: |data| <= i < |r| ==> r[i] as int == |r| - |data|
  {
    var k := PadLength(|data|);
    data + seq(k, _ => k as byte)
  }

  /** The unpadder. Its final buffer must hold exactly one whole block, so the
      input must be a non-empty multiple of 16 bytes; the last byte k must be
      1 to 16 and the last k bytes must all equal k. Otherwise it fails. */
  function Unpad(p: seq<byte>): (r: Option<seq<byte>>)
    ensures r.Some? ==> Pad(r.value) == p
  {
    if |p| == 0 || |p| % BLOCK_SIZE != 0 then None
    else
      var k := p[|p| - 1] as int;
      if k == 0 || k > BLOCK_SIZE then None
      else if forall i | |p| - k <= i < |p| :: p[i] == p[|p| - 1] then
        PadOfStripped(p, k);
        Some(p[..|p| - k])
      else None
  }

  /** A block-aligned input whose last k bytes all equal k is the padding
      of what precedes them. */
  lemma PadOfStripped(p: seq<byte>, k: nat)
    requires |p| > 0 && |p| % BLOCK_SIZE == 0
    requires k == p[|p| - 1] as int && 1 <= k <= BLOCK_SIZE
    requires forall i | |p| - k <= i < |p| :: p[i] == p[|p| - 1]
    ensures Pad(p[..|p| - k]) == p
  {
    var d := p[..|p| - k];
    var q := |p| / BLOCK_SIZE;
    assert |d| == (q - 1) * BLOCK_SIZE + (BLOCK_SIZE - k);
    assert |d| % BLOCK_SIZE == (BLOCK_SIZE - k) % BLOCK_SIZE;
    assert PadLength(|d|) == k;
    var r := Pad(d);
    assert |r| == |p|;
    forall i | 0 <= i < |p| ensures r[i] == p[i] {
      if i >= |d| {
        assert p[i] == p[|p| - 1];
      }
    }
  }

  /** Unpadding inverts padding. */
  lemma UnpadPad(data: seq<byte>)
    ensures Unpad(Pad(data)) == Some(data)
  {
    var p := Pad(data);
    var k := PadLength(|data|);
    assert p[|p| - 1] as int == k;
    assert forall i | |p| - k <= i < |p| :: p[i] == p[|p| - 1];
    assert p[..|p| - k] == data;
  }

  /** Together with UnpadPad: Unpad(p) == Some(d) exactly when Pad(d) == p. */
  lemma UnpadExactlyInvertsPad(p: seq<byte>, data: seq<byte>)
    ensures Unpad(p) == Some(data) <==> Pad(data) == p
  {
    if Pad(data) == p {
      UnpadPad(data);
    }
  }

  /** Wrong-key plaintexts typically end in garbage: any input whose last byte
      is 0 or above 16 is rejected. */
  lemma UnpadRejectsBadTrailer(p: seq<byte>)
    requires |p| > 0
    requires p[|p| - 1] == 0 || p[|p| - 1] as int > BLOCK_SIZE
    ensures Unpad(p) == None
  {
  }
}
