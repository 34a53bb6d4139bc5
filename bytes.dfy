/** Unsigned bytes and the fixed 32-byte arrays every digest holds. */
module Bytes {

  /** Rust's `u8`. */
  newtype u8 = x: int | 0 <= x < 256

  /** Rust's `[u8; 32]`: exactly 32 bytes. */
  type Bytes32 = s: seq<u8> | |s| == 32 witness Filled(0)

  /** Every byte of `s` equals `v`. */
  ghost predicate AllBytes(s: seq<u8>, v: u8) {
    forall i | 0 <= i < |s| :: s[i] == v
  }

  /** The array literal `[v; 32]`. */
  function Filled(v: u8): (r: seq<u8>)
    ensures |r| == 32 && AllBytes(r, v)
  {
    seq(32, _ => v)
  }

  /** Two 32-byte arrays that repeat one value each are equal exactly when the values are. */
  lemma FilledInjective(v: u8, w: u8)
    ensures Filled(v) == Filled(w) <==> v == w
  {
    if Filled(v) == Filled(w) {
      assert Filled(v)[0] == v && Filled(w)[0] == w;
    }
  }

  /** A 32-byte array whose bytes all equal `v` is `[v; 32]`. */
  lemma AllBytesIsFilled(s: Bytes32, v: u8)
    ensures AllBytes(s, v) <==> s == Filled(v)
  {
    if AllBytes(s, v) {
      assert forall i | 0 <= i < 32 :: s[i] == Filled(v)[i];
    }
  }
}
