/** `CheckpointDigest`: the digest naming a checkpoint. */
module CheckpointDigests {
  import opened Bytes
  import opened ByteOrder
  import opened Results
  import Digests
  import HexFormat
  import Base58

  /** A checkpoint digest wraps one `Digest` and adds no bytes. */
  datatype CheckpointDigest = CheckpointDigest(digest: Digests.Digest)

  /** The derived `Default`: the wrapped `Digest::default()`, all zero bytes. */
  function Default(): (d: CheckpointDigest)
    ensures AllBytes(IntoInner(d), 0)
  {
    CheckpointDigest(Digests.Default())
  }

  /** `CheckpointDigest::new`, and `From<[u8; 32]>`. */
  function New(bytes: Bytes32): (d: CheckpointDigest)
    ensures IntoInner(d) == bytes
  {
    CheckpointDigest(Digests.New(bytes))
  }

  /** `inner` / `into_inner`, and `From<CheckpointDigest> for [u8; 32]`. */
  function IntoInner(d: CheckpointDigest): (bytes: Bytes32)
    ensures Digests.New(bytes) == d.digest
  {
    Digests.IntoInner(d.digest)
  }

  /** `new` and `into_inner` are mutual inverses. */
  lemma NewIntoInnerInverse(bytes: Bytes32, d: CheckpointDigest)
    ensures IntoInner(New(bytes)) == bytes
    ensures New(IntoInner(d)) == d
  {
  }

  /** `Display`, delegated to the inner digest: Base58 text that decodes to the bytes. */
  function Display(codec: Base58.Codec, d: CheckpointDigest): (s: string)
    ensures Base58.Lawful(codec) ==> codec.decode(s) == Ok(IntoInner(d))
  {
    Digests.Display(codec, d.digest)
  }

  /** `base58_encode`: the same text as `Display`. */
  function Base58Encode(codec: Base58.Codec, d: CheckpointDigest): (s: string)
    ensures s == Display(codec, d)
  {
    codec.encode(d.digest.bytes)
  }

  /** The derived `Ord::cmp`: the order of the inner digest, i.e. of the bytes. */
  function Cmp(a: CheckpointDigest, b: CheckpointDigest): (r: Ordering)
    ensures r == Less <==> LexLess(IntoInner(a), IntoInner(b))
    ensures r == Equal <==> a == b
    ensures r == Greater <==> LexLess(IntoInner(b), IntoInner(a))
  {
    Digests.Cmp(a.digest, b.digest)
  }

  /** `LowerHex`, delegated to the inner digest. */
  method LowerHex(d: CheckpointDigest, alternate: bool) returns (s: string)
    ensures s == HexFormat.Render(IntoInner(d), alternate, false)
  {
    s := Digests.LowerHex(d.digest, alternate);
  }

  /** `UpperHex`, delegated to the inner digest. */
  method UpperHex(d: CheckpointDigest, alternate: bool) returns (s: string)
    ensures s == HexFormat.Render(IntoInner(d), alternate, true)
  {
    s := Digests.UpperHex(d.digest, alternate);
  }

  /** `FromStr`: Base58 decode, copy into 32 bytes (panicking on another length), wrap. */
  method FromStr(codec: Base58.Codec, s: string) returns (r: Digests.FromStrOutcome<CheckpointDigest>)
    ensures r == Digests.DecodedBytes(codec, s).Map(New)
  {
    var bytes := Digests.CopyDecoded(codec, s);
    r := bytes.Map(New);
  }

  /** Parsing the `Display` text of a checkpoint digest gives back that digest. */
  lemma FromStrDisplayRoundTrip(codec: Base58.Codec, d: CheckpointDigest)
    requires Base58.Lawful(codec)
    ensures Digests.DecodedBytes(codec, Display(codec, d)).Map(New) == Digests.Parsed(d)
  {
    Digests.DisplayParses(codec, d.digest);
  }
}
