/**
 * The Base58 text codec (Bitcoin alphabet) that the digests use for their
 * canonical text form. The codec itself is an external collaborator: it is
 * represented by a pair of functions handed in by the caller, and the laws
 * the digest code relies on are stated as a predicate over that pair.
 */
module Base58 {
  import opened Bytes
  import opened Results

  /** The 58 characters of the Bitcoin Base58 alphabet. */
  const ALPHABET: string := "123456789ABCDEFGHJKLMNPQRSTUVWXYZabcdefghijkmnopqrstuvwxyz"

  /** `Base58::encode` and `Base58::decode`; a failed decode carries the codec's message. */
  datatype Codec = Codec(encode: seq<u8> -> string, decode: string -> Result<seq<u8>, string>)

  /** Every character of `s` is in the alphabet. */
  ghost predicate IsBase58Text(s: string) {
    forall i | 0 <= i < |s| :: s[i] in ALPHABET
  }

  /**
   * What a Base58 codec guarantees: decoding an encoding gives the bytes back,
   * encodings use only the alphabet, and text with any other character is rejected.
   */
  ghost predicate Lawful(c: Codec) {
    && (forall b: seq<u8> :: c.decode(c.encode(b)) == Ok(b))
    && (forall b: seq<u8> :: IsBase58Text(c.encode(b)))
    && (forall s: string :: !IsBase58Text(s) ==> c.decode(s).Err?)
  }
}
