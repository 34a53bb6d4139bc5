/** `Digest`: the canonical 32-byte value that every typed digest wraps. */
module Digests {
  import opened Bytes
  import opened ByteOrder
  import opened Results
  import HexFormat
  import Base58

  /** A 32-byte digest; equality is the derived, byte-for-byte one. */
  datatype Digest = Digest(bytes: Bytes32)

  /** `Digest::ZERO`. */
  const ZERO: Digest := Digest(Filled(0))

  /** The derived `Default`: an all-zero array, which is `ZERO`. */
  function Default(): (d: Digest)
    ensures AllBytes(IntoInner(d), 0)
    ensures d == ZERO
  {
    Digest(Filled(0))
  }

  /** `ZERO` holds 32 zero bytes. */
  lemma ZeroIsAllZero()
    ensures AllBytes(ZERO.bytes, 0)
    ensures ZERO == New(Filled(0))
  {
  }

  /** `Digest::new`, and `From<[u8; 32]> for Digest`: the digest holds exactly the given bytes. */
  function New(bytes: Bytes32): (d: Digest)
    ensures IntoInner(d) == bytes
  {
    Digest(bytes)
  }

  /** `into_inner` (and `inner`, and `From<Digest> for [u8; 32]`): the bytes held, nothing else. */
  function IntoInner(d: Digest): (bytes: Bytes32)
    ensures Digest(bytes) == d
  {
    d.bytes
  }

  /** `new` and `into_inner` are mutual inverses: no byte is altered, added or dropped. */
  lemma NewIntoInnerInverse(bytes: Bytes32, d: Digest)
    ensures IntoInner(New(bytes)) == bytes
    ensures New(IntoInner(d)) == d
  {
  }

  /** `Display`: the Base58 encoding of the bytes, which decodes back to them. */
  function Display(codec: Base58.Codec, d: Digest): (s: string)
    ensures Base58.Lawful(codec) ==> codec.decode(s) == Ok(d.bytes) && Base58.IsBase58Text(s)
  {
    codec.encode(d.bytes)
  }

  /** `Debug` writes exactly what `Display` writes. */
  function Debug(codec: Base58.Codec, d: Digest): (s: string)
    ensures s == Display(codec, d)
  {
    Display(codec, d)
  }

  /** The derived `Ord::cmp`: the lexicographic order of the bytes. */
  function Cmp(a: Digest, b: Digest): (r: Ordering)
    ensures r == Less <==> LexLess(a.bytes, b.bytes)
    ensures r == Equal <==> a == b
    ensures r == Greater <==> LexLess(b.bytes, a.bytes)
  {
    CompareLessIff(a.bytes, b.bytes);
    CompareLessIff(b.bytes, a.bytes);
    CompareReverse(a.bytes, b.bytes);
    CompareEqualIff(a.bytes, b.bytes);
    Compare(a.bytes, b.bytes)
  }

  /** `Cmp` is a total order: antisymmetric, transitive, and any two digests are related. */
  lemma CmpTotalOrder(a: Digest, b: Digest, c: Digest)
    ensures Cmp(b, a) == Cmp(a, b).Reverse()
    ensures Cmp(a, b) != Greater || Cmp(b, a) != Greater
    ensures Cmp(a, b) != Greater && Cmp(b, a) != Greater ==> a == b
    ensures Cmp(a, b) == Less && Cmp(b, c) == Less ==> Cmp(a, c) == Less
  {
    CompareReverse(a.bytes, b.bytes);
    if Cmp(a, b) == Less && Cmp(b, c) == Less {
      CompareTransitive(a.bytes, b.bytes, c.bytes);
    }
  }

  /**
   * The body of `LowerHex::fmt` (`upper` false) and `UpperHex::fmt` (`upper` true):
   * the `0x` prefix when the alternate flag is set, then two digits per byte.
   */
  method WriteHex(d: Digest, alternate: bool, upper: bool) returns (s: string)
    ensures s == HexFormat.Render(d.bytes, alternate, upper)
  {
    s := if alternate then "0x" else "";
    for i := 0 to 32
      invariant s == HexFormat.Prefix(alternate) + HexFormat.HexBody(d.bytes[..i], upper)
    {
      HexFormat.RenderExtend(d.bytes, alternate, upper, i);
      s := s + HexFormat.HexPair(d.bytes[i], upper);
    }
    assert d.bytes[..32] == d.bytes;
  }

  /** `LowerHex` (`{:x}` and `{:#x}`). */
  method LowerHex(d: Digest, alternate: bool) returns (s: string)
    ensures s == HexFormat.Render(d.bytes, alternate, false)
  {
    s := WriteHex(d, alternate, false);
  }

  /** `UpperHex` (`{:X}` and `{:#X}`). */
  method UpperHex(d: Digest, alternate: bool) returns (s: string)
    ensures s == HexFormat.Render(d.bytes, alternate, true)
  {
    s := WriteHex(d, alternate, true);
  }

  /**
   * The outcome of a `FromStr` implementation: a value, the decoder's error, or
   * the panic `copy_from_slice` raises when the decoded length is not 32.
   */
  datatype FromStrOutcome<T> = Parsed(value: T) | DecodeFailed(error: string) | CopyPanic(decodedLength: nat) {
    /** Wraps a parsed value; the two failures pass through unchanged. */
    function Map<U>(f: T -> U): FromStrOutcome<U> {
      match this
      case Parsed(v) => Parsed(f(v))
      case DecodeFailed(e) => DecodeFailed(e)
      case CopyPanic(n) => CopyPanic(n)
    }
  }

  /** What the shared body of every `from_str` produces before the bytes are wrapped. */
  function DecodedBytes(codec: Base58.Codec, s: string): (r: FromStrOutcome<Bytes32>)
    ensures r.DecodeFailed? <==> codec.decode(s).Err?
    ensures r.DecodeFailed? ==> r.error == codec.decode(s).error
    ensures r.CopyPanic? <==> codec.decode(s).Ok? && |codec.decode(s).value| != 32
    ensures r.Parsed? ==> codec.decode(s).Ok? && r.value == codec.decode(s).value
  {
    match codec.decode(s)
    case Err(e) => DecodeFailed(e)
    case Ok(decoded) =>
      if |decoded| == 32 then var bytes: Bytes32 := decoded; Parsed(bytes) else CopyPanic(|decoded|)
  }

  /**
   * `let mut result = [0; 32]; result.copy_from_slice(&Base58::decode(s)?)`:
   * decodes, then copies the decoded bytes into a zeroed 32-byte buffer.
   */
  method CopyDecoded(codec: Base58.Codec, s: string) returns (r: FromStrOutcome<Bytes32>)
    ensures r == DecodedBytes(codec, s)
  {
    var result := new u8[32](_ => 0);
    var decoded := codec.decode(s);
    if decoded.Err? {
      return DecodeFailed(decoded.error);
    }
    var src := decoded.value;
    if |src| != result.Length {
      return CopyPanic(|src|);
    }
    for i := 0 to result.Length
      invariant result[..i] == src[..i]
    {
      result[i] := src[i];
    }
    assert result[..] == src;
    var bytes: Bytes32 := result[..];
    r := Parsed(bytes);
  }

  /** The text `Display` writes parses back to the same bytes, whatever the digest. */
  lemma DisplayParses(codec: Base58.Codec, d: Digest)
    requires Base58.Lawful(codec)
    ensures DecodedBytes(codec, Display(codec, d)) == Parsed(d.bytes)
  {
  }

  /** Text with a character outside the Base58 alphabet never parses. */
  lemma ForeignTextFails(codec: Base58.Codec, s: string)
    requires Base58.Lawful(codec) && !Base58.IsBase58Text(s)
    ensures DecodedBytes(codec, s).DecodeFailed?
  {
  }
}
