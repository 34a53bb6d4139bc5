/**
 * `TransactionEventsDigest`: the digest naming the events of a transaction.
 * The narrowest of the family: `ZERO`, `new`, the derived equality and order,
 * and nothing to read the bytes back, format or parse them.
 */
module TransactionEventsDigests {
  import opened Bytes
  import opened ByteOrder
  import Digests

  /** A transaction-events digest wraps one `Digest` and adds no bytes. */
  datatype TransactionEventsDigest = TransactionEventsDigest(digest: Digests.Digest)

  /** `TransactionEventsDigest::ZERO`. */
  const ZERO: TransactionEventsDigest := TransactionEventsDigest(Digests.ZERO)

  /** `TransactionEventsDigest::new`. */
  function New(bytes: Bytes32): (d: TransactionEventsDigest)
    ensures Digests.IntoInner(d.digest) == bytes
  {
    TransactionEventsDigest(Digests.New(bytes))
  }

  /** `new` keeps the bytes exactly, so distinct byte arrays give distinct digests; `ZERO` is `new([0; 32])`. */
  lemma NewKeepsBytes(bytes: Bytes32, other: Bytes32)
    ensures Digests.IntoInner(New(bytes).digest) == bytes
    ensures New(bytes) == New(other) <==> bytes == other
    ensures ZERO == New(Filled(0))
  {
  }

  /** The derived `Ord::cmp`: the order of the inner digest, i.e. of the bytes. */
  function Cmp(a: TransactionEventsDigest, b: TransactionEventsDigest): (r: Ordering)
    ensures r == Less <==> LexLess(a.digest.bytes, b.digest.bytes)
    ensures r == Equal <==> a == b
    ensures r == Greater <==> LexLess(b.digest.bytes, a.digest.bytes)
  {
    Digests.Cmp(a.digest, b.digest)
  }
}
