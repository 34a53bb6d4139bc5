/** `ObjectDigest`: the digest naming a version of an object, with its bounds and tombstones. */
module ObjectDigests {
  import opened Bytes
  import opened ByteOrder
  import opened Results
  import opened SuiErrors
  import Digests
  import HexFormat
  import Base58

  /** An object digest wraps one `Digest` and adds no bytes. */
  datatype ObjectDigest = ObjectDigest(digest: Digests.Digest)

  /** `ObjectDigest::MIN`: `[u8::MIN; 32]`. */
  const MIN: ObjectDigest := New(Filled(0))

  /** `ObjectDigest::MAX`: `[u8::MAX; 32]`. */
  const MAX: ObjectDigest := New(Filled(255))

  /** The byte repeated in the deleted-object marker. */
  const OBJECT_DIGEST_DELETED_BYTE_VAL: u8 := 99

  /** The byte repeated in the wrapped-object marker. */
  const OBJECT_DIGEST_WRAPPED_BYTE_VAL: u8 := 88

  /** The marker of an object that was deleted. */
  const OBJECT_DIGEST_DELETED: ObjectDigest := New(Filled(OBJECT_DIGEST_DELETED_BYTE_VAL))

  /** The marker of an object that was wrapped into another object. */
  const OBJECT_DIGEST_WRAPPED: ObjectDigest := New(Filled(OBJECT_DIGEST_WRAPPED_BYTE_VAL))

  /** `ObjectDigest::new`, and `From<[u8; 32]>`. */
  function New(bytes: Bytes32): (d: ObjectDigest)
    ensures IntoInner(d) == bytes
  {
    ObjectDigest(Digests.New(bytes))
  }

  /** `inner` / `into_inner`, and `From<ObjectDigest> for [u8; 32]`. */
  function IntoInner(d: ObjectDigest): (bytes: Bytes32)
    ensures Digests.New(bytes) == d.digest
  {
    Digests.IntoInner(d.digest)
  }

  /** `new` and `into_inner` are mutual inverses. */
  lemma NewIntoInnerInverse(bytes: Bytes32, d: ObjectDigest)
    ensures IntoInner(New(bytes)) == bytes
    ensures New(IntoInner(d)) == d
  {
  }

  /** The bounds and the markers repeat one byte each: 0, 255, 99 and 88. */
  lemma MarkerBytes()
    ensures OBJECT_DIGEST_DELETED_BYTE_VAL == 99 && OBJECT_DIGEST_WRAPPED_BYTE_VAL == 88
    ensures AllBytes(IntoInner(MIN), 0) && AllBytes(IntoInner(MAX), 255)
    ensures AllBytes(IntoInner(OBJECT_DIGEST_DELETED), 99)
    ensures AllBytes(IntoInner(OBJECT_DIGEST_WRAPPED), 88)
  {
  }

  /** `is_alive`: false exactly for the two tombstones, the all-99 and the all-88 digests. */
  function IsAlive(d: ObjectDigest): (r: bool)
    ensures !r <==> AllBytes(IntoInner(d), OBJECT_DIGEST_DELETED_BYTE_VAL)
                    || AllBytes(IntoInner(d), OBJECT_DIGEST_WRAPPED_BYTE_VAL)
  {
    AllBytesIsFilled(IntoInner(d), OBJECT_DIGEST_DELETED_BYTE_VAL);
    AllBytesIsFilled(IntoInner(d), OBJECT_DIGEST_WRAPPED_BYTE_VAL);
    d != OBJECT_DIGEST_DELETED && d != OBJECT_DIGEST_WRAPPED
  }

  /** The tombstones are distinct and not alive; `MIN` and `MAX` are alive. */
  lemma TombstonesAndBounds()
    ensures OBJECT_DIGEST_DELETED != OBJECT_DIGEST_WRAPPED
    ensures !IsAlive(OBJECT_DIGEST_DELETED) && !IsAlive(OBJECT_DIGEST_WRAPPED)
    ensures IsAlive(MIN) && IsAlive(MAX)
  {
    FilledInjective(OBJECT_DIGEST_DELETED_BYTE_VAL, OBJECT_DIGEST_WRAPPED_BYTE_VAL);
    FilledInjective(0, OBJECT_DIGEST_DELETED_BYTE_VAL);
    FilledInjective(0, OBJECT_DIGEST_WRAPPED_BYTE_VAL);
    FilledInjective(255, OBJECT_DIGEST_DELETED_BYTE_VAL);
    FilledInjective(255, OBJECT_DIGEST_WRAPPED_BYTE_VAL);
  }

  /** Of all 2^256 object digests, exactly the two tombstones are not alive. */
  lemma ExactlyTwoTombstones()
    ensures (iset d: ObjectDigest | !IsAlive(d)) == iset{OBJECT_DIGEST_DELETED, OBJECT_DIGEST_WRAPPED}
  {
    TombstonesAndBounds();
  }

  /** Every object digest lies between `MIN` and `MAX` in the byte order. */
  lemma BetweenMinAndMax(d: ObjectDigest)
    ensures Cmp(MIN, d) != Greater
    ensures Cmp(d, MAX) != Greater
  {
    ComparePointwise(IntoInner(MIN), IntoInner(d));
    ComparePointwise(IntoInner(d), IntoInner(MAX));
  }

  /** `Display`, delegated to the inner digest: Base58 text that decodes to the bytes. */
  function Display(codec: Base58.Codec, d: ObjectDigest): (s: string)
    ensures Base58.Lawful(codec) ==> codec.decode(s) == Ok(IntoInner(d))
  {
    Digests.Display(codec, d.digest)
  }

  /** `Debug`: `o#` followed by the `Display` text, so the Base58 part still decodes to the bytes. */
  function Debug(codec: Base58.Codec, d: ObjectDigest): (s: string)
    ensures |s| >= 2 && s[..2] == "o#" && s[2..] == Display(codec, d)
    ensures Base58.Lawful(codec) ==> codec.decode(s[2..]) == Ok(IntoInner(d))
  {
    "o#" + Digests.Display(codec, d.digest)
  }

  /** `base58_encode`: the same text as `Display`. */
  function Base58Encode(codec: Base58.Codec, d: ObjectDigest): (s: string)
    ensures s == Display(codec, d)
  {
    codec.encode(d.digest.bytes)
  }

  /** The derived `Ord::cmp`: the order of the inner digest, i.e. of the bytes. */
  function Cmp(a: ObjectDigest, b: ObjectDigest): (r: Ordering)
    ensures r == Less <==> LexLess(IntoInner(a), IntoInner(b))
    ensures r == Equal <==> a == b
    ensures r == Greater <==> LexLess(IntoInner(b), IntoInner(a))
  {
    Digests.Cmp(a.digest, b.digest)
  }

  /** `LowerHex`, delegated to the inner digest. */
  method LowerHex(d: ObjectDigest, alternate: bool) returns (s: string)
    ensures s == HexFormat.Render(IntoInner(d), alternate, false)
  {
    s := Digests.LowerHex(d.digest, alternate);
  }

  /** `UpperHex`, delegated to the inner digest. */
  method UpperHex(d: ObjectDigest, alternate: bool) returns (s: string)
    ensures s == HexFormat.Render(IntoInner(d), alternate, true)
  {
    s := Digests.UpperHex(d.digest, alternate);
  }

  /**
   * `TryFrom<&[u8]>`: succeeds exactly on 32-byte slices, keeping the bytes;
   * any other length gives the transaction-digest error variant.
   */
  function TryFrom(bytes: seq<u8>): (r: Result<ObjectDigest, SuiError>)
    ensures r.Ok? <==> |bytes| == 32
    ensures r.Ok? ==> IntoInner(r.value) == bytes
    ensures r.Err? ==> r.error == InvalidTransactionDigest
  {
    if |bytes| == 32 then Ok(New(bytes)) else Err(InvalidTransactionDigest)
  }

  /** Converting the bytes of a digest back gives that digest. */
  lemma TryFromIntoInner(d: ObjectDigest)
    ensures TryFrom(IntoInner(d)) == Ok(d)
  {
  }

  /** `FromStr`: Base58 decode, copy into 32 bytes (panicking on another length), wrap. */
  method FromStr(codec: Base58.Codec, s: string) returns (r: Digests.FromStrOutcome<ObjectDigest>)
    ensures r == Digests.DecodedBytes(codec, s).Map(New)
  {
    var bytes := Digests.CopyDecoded(codec, s);
    r := bytes.Map(New);
  }

  /** Parsing the `Display` text of an object digest gives back that digest. */
  lemma FromStrDisplayRoundTrip(codec: Base58.Codec, d: ObjectDigest)
    requires Base58.Lawful(codec)
    ensures Digests.DecodedBytes(codec, Display(codec, d)).Map(New) == Digests.Parsed(d)
  {
    Digests.DisplayParses(codec, d.digest);
  }
}
