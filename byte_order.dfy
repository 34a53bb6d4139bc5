/**
 * The lexicographic order on byte sequences that Rust derives for `[u8; 32]`,
 * and through `#[derive(PartialOrd, Ord)]` for every digest type.
 */
module ByteOrder {
  import opened Bytes

  /** Rust's `core::cmp::Ordering`. */
  datatype Ordering = Less | Equal | Greater {
    /** The ordering seen from the other side (`Ordering::reverse`). */
    function Reverse(): Ordering {
      match this
      case Less => Greater
      case Equal => Equal
      case Greater => Less
    }
  }

  /**
   * Reference definition of "a sorts before b": they agree up to a first
   * position where a's byte is smaller, or a is a proper prefix of b.
   */
  ghost predicate LexLess(a: seq<u8>, b: seq<u8>) {
    || (exists k :: 0 <= k < |a| && k < |b| && a[..k] == b[..k] && a[k] < b[k])
    || (|a| < |b| && a == b[..|a|])
  }

  /** Byte-by-byte comparison, as the derived `Ord::cmp` on a byte array performs it. */
  function Compare(a: seq<u8>, b: seq<u8>): Ordering
    decreases |a|
  {
    if |a| == 0 then (if |b| == 0 then Equal else Less)
    else if |b| == 0 then Greater
    else if a[0] < b[0] then Less
    else if a[0] > b[0] then Greater
    else Compare(a[1..], b[1..])
  }

  /** Stripping an equal first byte does not change whether one sequence sorts before the other. */
  lemma LexLessTail(a: seq<u8>, b: seq<u8>)
    requires |a| > 0 && |b| > 0 && a[0] == b[0]
    ensures LexLess(a, b) <==> LexLess(a[1..], b[1..])
  {
    if LexLess(a[1..], b[1..]) {
      if exists k :: 0 <= k < |a[1..]| && k < |b[1..]| && a[1..][..k] == b[1..][..k] && a[1..][k] < b[1..][k] {
        var k :| 0 <= k < |a[1..]| && k < |b[1..]| && a[1..][..k] == b[1..][..k] && a[1..][k] < b[1..][k];
        assert a[..k + 1] == [a[0]] + a[1..][..k];
        assert b[..k + 1] == [b[0]] + b[1..][..k];
      } else {
        assert a == [a[0]] + a[1..];
        assert b[..|a|] == [b[0]] + b[1..][..|a[1..]|];
      }
    }
    if LexLess(a, b) {
      if exists k :: 0 <= k < |a| && k < |b| && a[..k] == b[..k] && a[k] < b[k] {
        var k :| 0 <= k < |a| && k < |b| && a[..k] == b[..k] && a[k] < b[k];
        assert k != 0;
        assert a[1..][..k - 1] == a[..k][1..];
        assert b[1..][..k - 1] == b[..k][1..];
      } else {
        assert a[1..] == a[..|a|][1..];
        assert b[1..][..|a[1..]|] == b[..|a|][1..];
      }
    }
  }

  /** `Compare` answers `Less` exactly when the reference order puts `a` first. */
  lemma {:induction false} CompareLessIff(a: seq<u8>, b: seq<u8>)
    ensures Compare(a, b) == Less <==> LexLess(a, b)
    decreases |a|
  {
    if |a| == 0 {
      assert |b| > 0 ==> a == b[..0];
    } else if |b| == 0 {
    } else if a[0] < b[0] {
      assert a[..0] == b[..0];
    } else if a[0] > b[0] {
    } else {
      CompareLessIff(a[1..], b[1..]);
      LexLessTail(a, b);
    }
  }

  /** `Compare` answers `Equal` exactly on equal sequences. */
  lemma {:induction false} CompareEqualIff(a: seq<u8>, b: seq<u8>)
    ensures Compare(a, b) == Equal <==> a == b
    decreases |a|
  {
    if |a| > 0 && |b| > 0 && a[0] == b[0] {
      CompareEqualIff(a[1..], b[1..]);
      assert a == [a[0]] + a[1..];
      assert b == [b[0]] + b[1..];
    }
  }

  /** Comparing the other way round gives the reversed answer. */
  lemma {:induction false} CompareReverse(a: seq<u8>, b: seq<u8>)
    ensures Compare(b, a) == Compare(a, b).Reverse()
    decreases |a|
  {
    if |a| > 0 && |b| > 0 && a[0] == b[0] {
      CompareReverse(a[1..], b[1..]);
    }
  }

  /** The strict order `Compare(_, _) == Less` is transitive. */
  lemma {:induction false} CompareTransitive(a: seq<u8>, b: seq<u8>, c: seq<u8>)
    requires Compare(a, b) == Less && Compare(b, c) == Less
    ensures Compare(a, c) == Less
    decreases |a|
  {
    if |a| > 0 && |b| > 0 && |c| > 0 && a[0] == b[0] && b[0] == c[0] {
      CompareTransitive(a[1..], b[1..], c[1..]);
    }
  }

  /** A sequence that is bytewise no larger than another of the same length never sorts after it. */
  lemma {:induction false} ComparePointwise(a: seq<u8>, b: seq<u8>)
    requires |a| == |b|
    requires forall i | 0 <= i < |a| :: a[i] <= b[i]
    ensures Compare(a, b) != Greater
    decreases |a|
  {
    if |a| > 0 && a[0] == b[0] {
      ComparePointwise(a[1..], b[1..]);
    }
  }
}
