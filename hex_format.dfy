/**
 * The text the `LowerHex`/`UpperHex` formatters of a digest write: an optional
 * `0x` prefix (the formatter's alternate flag, `{:#x}`), then each byte as two
 * hexadecimal digits (`{:02x}` or `{:02X}`), most significant digit first.
 * A decoder for that text is given as the partner of the encoder.
 */
module HexFormat {
  import opened Bytes
  import opened Results

  /** The value of one hexadecimal digit of either case. */
  function DigitValue(c: char): (r: Option<int>)
    ensures r.Some? ==> 0 <= r.value < 16
  {
    if '0' <= c <= '9' then Some(c as int - '0' as int)
    else if 'a' <= c <= 'f' then Some(c as int - 'a' as int + 10)
    else if 'A' <= c <= 'F' then Some(c as int - 'A' as int + 10)
    else None
  }

  /** Lower-case hexadecimal digits `0-9a-f`. */
  predicate IsLowerDigit(c: char) {
    '0' <= c <= '9' || 'a' <= c <= 'f'
  }

  /** Upper-case hexadecimal digits `0-9A-F`. */
  predicate IsUpperDigit(c: char) {
    '0' <= c <= '9' || 'A' <= c <= 'F'
  }

  /** The digit for `v`, upper-case (`X`) or lower-case (`x`). */
  function HexDigit(v: int, upper: bool): (c: char)
    requires 0 <= v < 16
    ensures DigitValue(c) == Some(v)
    ensures if upper then IsUpperDigit(c) else IsLowerDigit(c)
  {
    if v < 10 then ('0' as int + v) as char
    else ((if upper then 'A' else 'a') as int + v - 10) as char
  }

  /** `{:02x}` / `{:02X}` of one byte: high nibble, then low nibble. */
  function HexPair(b: u8, upper: bool): (s: string)
    ensures |s| == 2
    ensures DigitValue(s[0]) == Some(b as int / 16) && DigitValue(s[1]) == Some(b as int % 16)
    ensures if upper then IsUpperDigit(s[0]) && IsUpperDigit(s[1]) else IsLowerDigit(s[0]) && IsLowerDigit(s[1])
  {
    [HexDigit(b as int / 16, upper), HexDigit(b as int % 16, upper)]
  }

  /** The digits written for `bytes`, one pair per byte in byte order. */
  function HexBody(bytes: seq<u8>, upper: bool): (s: string)
    ensures |s| == 2 * |bytes|
    decreases |bytes|
  {
    if |bytes| == 0 then []
    else HexBody(bytes[..|bytes| - 1], upper) + HexPair(bytes[|bytes| - 1], upper)
  }

  /** The prefix the alternate flag adds. */
  function Prefix(alternate: bool): string {
    if alternate then "0x" else ""
  }

  /** The whole text of the formatter. */
  function Render(bytes: seq<u8>, alternate: bool, upper: bool): (s: string)
    ensures |s| == |Prefix(alternate)| + 2 * |bytes|
    ensures s[..|Prefix(alternate)|] == Prefix(alternate)
  {
    Prefix(alternate) + HexBody(bytes, upper)
  }

  /** Writing one more byte appends its pair to the text written so far. */
  lemma RenderExtend(bytes: seq<u8>, alternate: bool, upper: bool, i: int)
    requires 0 <= i < |bytes|
    ensures Prefix(alternate) + HexBody(bytes[..i + 1], upper)
         == (Prefix(alternate) + HexBody(bytes[..i], upper)) + HexPair(bytes[i], upper)
  {
    assert bytes[..i + 1][..i] == bytes[..i];
    assert HexBody(bytes[..i + 1], upper) == HexBody(bytes[..i], upper) + HexPair(bytes[i], upper);
  }

  /** Reads the first `k` digit pairs of `s` into bytes; `None` if one of them holds a non-digit. */
  function DecodePairs(s: string, k: nat): (r: Option<seq<u8>>)
    requires 2 * k <= |s|
    ensures r.Some? ==> |r.value| == k
  {
    if k == 0 then Some([])
    else
      var front, hi, lo := DecodePairs(s, k - 1), DigitValue(s[2 * k - 2]), DigitValue(s[2 * k - 1]);
      if front.Some? && hi.Some? && lo.Some? then Some(front.value + [(16 * hi.value + lo.value) as u8])
      else None
  }

  /** Reads hexadecimal digit pairs back into bytes; `None` on an odd length or a non-digit. */
  function DecodeHexBody(s: string): (r: Option<seq<u8>>)
    ensures r.Some? ==> 2 * |r.value| == |s|
  {
    if |s| % 2 == 1 then None else DecodePairs(s, |s| / 2)
  }

  /** Reads formatter output back, accepting text with or without the `0x` prefix. */
  function ParseHex(s: string): Option<seq<u8>> {
    if |s| >= 2 && s[..2] == "0x" then DecodeHexBody(s[2..]) else DecodeHexBody(s)
  }

  /**
   * Byte `i` is written at positions `2i` and `2i + 1`: its high nibble, then its
   * low nibble, as digits of the requested case; two characters per byte in all.
   */
  lemma {:induction false} HexBodyAt(bytes: seq<u8>, upper: bool, i: int)
    requires 0 <= i < |bytes|
    ensures |HexBody(bytes, upper)| == 2 * |bytes|
    ensures HexBody(bytes, upper)[2 * i] == HexDigit(bytes[i] as int / 16, upper)
    ensures HexBody(bytes, upper)[2 * i + 1] == HexDigit(bytes[i] as int % 16, upper)
    decreases |bytes|
  {
    var n := |bytes|;
    if i < n - 1 {
      HexBodyAt(bytes[..n - 1], upper, i);
    }
  }

  /** The output is 64 characters for a digest, 66 with the `0x` prefix, and begins with `0x` exactly when the flag is set. */
  lemma RenderShape(bytes: Bytes32, alternate: bool, upper: bool)
    ensures |Render(bytes, alternate, upper)| == if alternate then 66 else 64
    ensures alternate ==> Render(bytes, alternate, upper)[..2] == "0x"
    ensures !alternate ==> Render(bytes, alternate, upper)[..2] != "0x"
    ensures Render(bytes, alternate, upper)[|Prefix(alternate)|..] == HexBody(bytes, upper)
  {
    var s := Render(bytes, alternate, upper);
    if !alternate {
      HexBodyAt(bytes, upper, 0);
      assert DigitValue(s[1]).Some?;
    }
  }

  /** Every character after the prefix is a digit of the requested case. */
  lemma DigitsOfRequestedCase(bytes: seq<u8>, alternate: bool, upper: bool, j: int)
    requires |Prefix(alternate)| <= j < |Render(bytes, alternate, upper)|
    ensures upper ==> IsUpperDigit(Render(bytes, alternate, upper)[j])
    ensures !upper ==> IsLowerDigit(Render(bytes, alternate, upper)[j])
  {
    var k := j - |Prefix(alternate)|;
    var i := k / 2;
    assert k == 2 * i || k == 2 * i + 1;
    HexBodyAt(bytes, upper, i);
    assert Render(bytes, alternate, upper)[j] == HexBody(bytes, upper)[k];
  }

  /** The two nibbles of a byte put back together give the byte. */
  lemma NibblesRecombine(b: u8)
    ensures (16 * (b as int / 16) + b as int % 16) as u8 == b
  {
  }

  /** Reading back the first `k` pairs of the digits gives the first `k` bytes. */
  lemma {:induction false} DecodePairsRoundTrip(bytes: seq<u8>, upper: bool, k: nat)
    requires k <= |bytes|
    ensures 2 * k <= |HexBody(bytes, upper)|
    ensures DecodePairs(HexBody(bytes, upper), k) == Some(bytes[..k])
    decreases k
  {
    if k > 0 {
      DecodePairsRoundTrip(bytes, upper, k - 1);
      HexBodyAt(bytes, upper, k - 1);
      NibblesRecombine(bytes[k - 1]);
      assert bytes[..k] == bytes[..k - 1] + [bytes[k - 1]];
    }
  }

  /** Reading the digit pairs back gives the bytes that were written. */
  lemma DecodeHexBodyRoundTrip(bytes: seq<u8>, upper: bool)
    ensures DecodeHexBody(HexBody(bytes, upper)) == Some(bytes)
  {
    DecodePairsRoundTrip(bytes, upper, |bytes|);
    assert bytes[..|bytes|] == bytes;
  }

  /** Parsing the formatter's output, with or without the prefix, gives back the digest bytes. */
  lemma RenderRoundTrip(bytes: Bytes32, alternate: bool, upper: bool)
    ensures ParseHex(Render(bytes, alternate, upper)) == Some(bytes)
  {
    RenderShape(bytes, alternate, upper);
    DecodeHexBodyRoundTrip(bytes, upper);
  }

  /** The upper-case form of a lower-case hexadecimal digit; other characters are kept. */
  function UpperDigit(c: char): char {
    if 'a' <= c <= 'f' then (c as int - 32) as char else c
  }

  /** `UpperDigit` applied to every character. */
  function UpperDigits(s: string): (r: string)
    ensures |r| == |s|
  {
    seq(|s|, i requires 0 <= i < |s| => UpperDigit(s[i]))
  }

  /** Raising a lower-case digit gives the upper-case digit of the same value. */
  lemma RaiseDigit(v: int)
    requires 0 <= v < 16
    ensures UpperDigit(HexDigit(v, false)) == HexDigit(v, true)
  {
  }

  /** The upper-case output is the lower-case output with its digits `a-f` raised, the `0x` prefix kept. */
  lemma UpperIsRaisedLower(bytes: seq<u8>, alternate: bool)
    ensures Render(bytes, alternate, true) == Prefix(alternate) + UpperDigits(HexBody(bytes, false))
  {
    var lo := HexBody(bytes, false);
    var up := HexBody(bytes, true);
    forall j | 0 <= j < |up|
      ensures up[j] == UpperDigits(lo)[j]
    {
      var i := j / 2;
      HexBodyAt(bytes, false, i);
      HexBodyAt(bytes, true, i);
      if j == 2 * i {
        RaiseDigit(bytes[i] as int / 16);
      } else {
        assert j == 2 * i + 1;
        RaiseDigit(bytes[i] as int % 16);
      }
    }
    assert up == UpperDigits(lo);
  }
}
