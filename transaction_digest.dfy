/** `TransactionDigest`: the digest naming a transaction. */
module TransactionDigests {
  import opened Bytes
  import opened ByteOrder
  import opened Results
  import opened SuiErrors
  import Digests
  import HexFormat
  import Base58

  /** A transaction digest wraps one `Digest` and adds no bytes. */
  datatype TransactionDigest = TransactionDigest(digest: Digests.Digest)

  /** `TransactionDigest::ZERO`. */
  const ZERO: TransactionDigest := TransactionDigest(Digests.ZERO)

  /** `Default::default`: `ZERO`. */
  function Default(): (d: TransactionDigest)
    ensures AllBytes(IntoInner(d), 0)
  {
    ZERO
  }

  /** `genesis()`: the marker for "no parent transaction", which is `ZERO`. */
  function Genesis(): (d: TransactionDigest)
    ensures AllBytes(IntoInner(d), 0)
  {
    ZERO
  }

  /** `default()`, `genesis()` and `ZERO` are one value, and its bytes are all zero. */
  lemma GenesisIsDefaultIsZero()
    ensures Default() == Genesis() == ZERO == New(Filled(0))
  {
  }

  /** `TransactionDigest::new`, and `From<[u8; 32]>`. */
  function New(bytes: Bytes32): (d: TransactionDigest)
    ensures IntoInner(d) == bytes
  {
    TransactionDigest(Digests.New(bytes))
  }

  /** `inner` / `into_inner`, and `From<TransactionDigest> for [u8; 32]`. */
  function IntoInner(d: TransactionDigest): (bytes: Bytes32)
    ensures Digests.New(bytes) == d.digest
  {
    Digests.IntoInner(d.digest)
  }

  /** `new` and `into_inner` are mutual inverses. */
  lemma NewIntoInnerInverse(bytes: Bytes32, d: TransactionDigest)
    ensures IntoInner(New(bytes)) == bytes
    ensures New(IntoInner(d)) == d
  {
  }

  /** `Display`, delegated to the inner digest: Base58 text that decodes to the bytes. */
  function Display(codec: Base58.Codec, d: TransactionDigest): (s: string)
    ensures Base58.Lawful(codec) ==> codec.decode(s) == Ok(IntoInner(d))
  {
    Digests.Display(codec, d.digest)
  }

  /** `base58_encode`: the same text as `Display`. */
  function Base58Encode(codec: Base58.Codec, d: TransactionDigest): (s: string)
    ensures s == Display(codec, d)
  {
    codec.encode(d.digest.bytes)
  }

  /** The derived `Ord::cmp`: the order of the inner digest, i.e. of the bytes. */
  function Cmp(a: TransactionDigest, b: TransactionDigest): (r: Ordering)
    ensures r == Less <==> LexLess(IntoInner(a), IntoInner(b))
    ensures r == Equal <==> a == b
    ensures r == Greater <==> LexLess(IntoInner(b), IntoInner(a))
  {
    Digests.Cmp(a.digest, b.digest)
  }

  /** `LowerHex`, delegated to the inner digest. */
  method LowerHex(d: TransactionDigest, alternate: bool) returns (s: string)
    ensures s == HexFormat.Render(IntoInner(d), alternate, false)
  {
    s := Digests.LowerHex(d.digest, alternate);
  }

  /** `UpperHex`, delegated to the inner digest. */
  method UpperHex(d: TransactionDigest, alternate: bool) returns (s: string)
    ensures s == HexFormat.Render(IntoInner(d), alternate, true)
  {
    s := Digests.UpperHex(d.digest, alternate);
  }

  /** `TryFrom<&[u8]>`: succeeds exactly on 32-byte slices, keeping the bytes. */
  function TryFrom(bytes: seq<u8>): (r: Result<TransactionDigest, SuiError>)
    ensures r.Ok? <==> |bytes| == 32
    ensures r.Ok? ==> IntoInner(r.value) == bytes
    ensures r.Err? ==> r.error == InvalidTransactionDigest
  {
    if |bytes| == 32 then Ok(New(bytes)) else Err(InvalidTransactionDigest)
  }

  /** Converting the bytes of a digest back gives that digest. */
  lemma TryFromIntoInner(d: TransactionDigest)
    ensures TryFrom(IntoInner(d)) == Ok(d)
  {
  }

  /** `FromStr`: Base58 decode, copy into 32 bytes (panicking on another length), wrap. */
  method FromStr(codec: Base58.Codec, s: string) returns (r: Digests.FromStrOutcome<TransactionDigest>)
    ensures r == Digests.DecodedBytes(codec, s).Map(New)
  {
    var bytes := Digests.CopyDecoded(codec, s);
    r := bytes.Map(New);
  }

  /** Parsing the `Display` text of a transaction digest gives back that digest. */
  lemma FromStrDisplayRoundTrip(codec: Base58.Codec, d: TransactionDigest)
    requires Base58.Lawful(codec)
    ensures Digests.DecodedBytes(codec, Display(codec, d)).Map(New) == Digests.Parsed(d)
  {
    Digests.DisplayParses(codec, d.digest);
  }
}
