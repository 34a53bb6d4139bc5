/** `CheckpointContentsDigest`: the digest naming the contents of a checkpoint. It has no zero or default value and no parser. */
module CheckpointContentsDigests {
  import opened Bytes
  import opened ByteOrder
  import opened Results
  import Digests
  import HexFormat
  import Base58

  /** A checkpoint-contents digest wraps one `Digest` and adds no bytes. */
  datatype CheckpointContentsDigest = CheckpointContentsDigest(digest: Digests.Digest)

  /** `CheckpointContentsDigest::new`, and `From<[u8; 32]>`. */
  function New(bytes: Bytes32): (d: CheckpointContentsDigest)
    ensures IntoInner(d) == bytes
  {
    CheckpointContentsDigest(Digests.New(bytes))
  }

  /** `inner` / `into_inner`, and `From<CheckpointContentsDigest> for [u8; 32]`. */
  function IntoInner(d: CheckpointContentsDigest): (bytes: Bytes32)
    ensures Digests.New(bytes) == d.digest
  {
    Digests.IntoInner(d.digest)
  }

  /** `new` and `into_inner` are mutual inverses. */
  lemma NewIntoInnerInverse(bytes: Bytes32, d: CheckpointContentsDigest)
    ensures IntoInner(New(bytes)) == bytes
    ensures New(IntoInner(d)) == d
  {
  }

  /** `Display`, delegated to the inner digest: Base58 text that decodes to the bytes. */
  function Display(codec: Base58.Codec, d: CheckpointContentsDigest): (s: string)
    ensures Base58.Lawful(codec) ==> codec.decode(s) == Ok(IntoInner(d))
  {
    Digests.Display(codec, d.digest)
  }

  /** `base58_encode`: the same text as `Display`. */
  function Base58Encode(codec: Base58.Codec, d: CheckpointContentsDigest): (s: string)
    ensures s == Display(codec, d)
  {
    codec.encode(d.digest.bytes)
  }

  /** The derived `Ord::cmp`: the order of the inner digest, i.e. of the bytes. */
  function Cmp(a: CheckpointContentsDigest, b: CheckpointContentsDigest): (r: Ordering)
    ensures r == Less <==> LexLess(IntoInner(a), IntoInner(b))
    ensures r == Equal <==> a == b
    ensures r == Greater <==> LexLess(IntoInner(b), IntoInner(a))
  {
    Digests.Cmp(a.digest, b.digest)
  }

  /** `LowerHex`, delegated to the inner digest. */
  method LowerHex(d: CheckpointContentsDigest, alternate: bool) returns (s: string)
    ensures s == HexFormat.Render(IntoInner(d), alternate, false)
  {
    s := Digests.LowerHex(d.digest, alternate);
  }

  /** `UpperHex`, delegated to the inner digest. */
  method UpperHex(d: CheckpointContentsDigest, alternate: bool) returns (s: string)
    ensures s == HexFormat.Render(IntoInner(d), alternate, true)
  {
    s := Digests.UpperHex(d.digest, alternate);
  }
}
