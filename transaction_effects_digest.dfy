/** `TransactionEffectsDigest`: the digest naming the effects of a transaction. It has `ZERO` but no `Default` and no parser. */
module TransactionEffectsDigests {
  import opened Bytes
  import opened ByteOrder
  import opened Results
  import Digests
  import HexFormat
  import Base58

  /** A transaction-effects digest wraps one `Digest` and adds no bytes. */
  datatype TransactionEffectsDigest = TransactionEffectsDigest(digest: Digests.Digest)

  /** `TransactionEffectsDigest::ZERO`. */
  const ZERO: TransactionEffectsDigest := TransactionEffectsDigest(Digests.ZERO)

  /** `ZERO` holds 32 zero bytes. */
  lemma ZeroIsAllZero()
    ensures AllBytes(IntoInner(ZERO), 0)
    ensures ZERO == New(Filled(0))
  {
  }

  /** `TransactionEffectsDigest::new`, and `From<[u8; 32]>`. */
  function New(bytes: Bytes32): (d: TransactionEffectsDigest)
    ensures IntoInner(d) == bytes
  {
    TransactionEffectsDigest(Digests.New(bytes))
  }

  /** `inner` / `into_inner`, and `From<TransactionEffectsDigest> for [u8; 32]`. */
  function IntoInner(d: TransactionEffectsDigest): (bytes: Bytes32)
    ensures Digests.New(bytes) == d.digest
  {
    Digests.IntoInner(d.digest)
  }

  /** `new` and `into_inner` are mutual inverses. */
  lemma NewIntoInnerInverse(bytes: Bytes32, d: TransactionEffectsDigest)
    ensures IntoInner(New(bytes)) == bytes
    ensures New(IntoInner(d)) == d
  {
  }

  /** `Display`, delegated to the inner digest: Base58 text that decodes to the bytes. */
  function Display(codec: Base58.Codec, d: TransactionEffectsDigest): (s: string)
    ensures Base58.Lawful(codec) ==> codec.decode(s) == Ok(IntoInner(d))
  {
    Digests.Display(codec, d.digest)
  }

  /** `base58_encode`: the same text as `Display`. */
  function Base58Encode(codec: Base58.Codec, d: TransactionEffectsDigest): (s: string)
    ensures s == Display(codec, d)
  {
    codec.encode(d.digest.bytes)
  }

  /** The derived `Ord::cmp`: the order of the inner digest, i.e. of the bytes. */
  function Cmp(a: TransactionEffectsDigest, b: TransactionEffectsDigest): (r: Ordering)
    ensures r == Less <==> LexLess(IntoInner(a), IntoInner(b))
    ensures r == Equal <==> a == b
    ensures r == Greater <==> LexLess(IntoInner(b), IntoInner(a))
  {
    Digests.Cmp(a.digest, b.digest)
  }

  /** `LowerHex`, delegated to the inner digest. */
  method LowerHex(d: TransactionEffectsDigest, alternate: bool) returns (s: string)
    ensures s == HexFormat.Render(IntoInner(d), alternate, false)
  {
    s := Digests.LowerHex(d.digest, alternate);
  }

  /** `UpperHex`, delegated to the inner digest. */
  method UpperHex(d: TransactionEffectsDigest, alternate: bool) returns (s: string)
    ensures s == HexFormat.Render(IntoInner(d), alternate, true)
  {
    s := Digests.UpperHex(d.digest, alternate);
  }
}
