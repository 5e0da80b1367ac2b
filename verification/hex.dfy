/** Lower-case hexadecimal text of byte strings, as Tuweni's `Bytes.toHexString()`
    (with a `0x` prefix) and `toUnprefixedHexString()` (without) render it. */
module Hex {
  import opened Wrappers

  type Byte = x: int | 0 <= x < 256
  type Bytes = seq<Byte>

  predicate IsHexDigit(c: char) {
    '0' <= c <= '9' || 'a' <= c <= 'f'
  }

  function NibbleChar(n: int): (c: char)
    requires 0 <= n < 16
    ensures IsHexDigit(c)
  {
    if n < 10 then ('0' as int + n) as char else ('a' as int + n - 10) as char
  }

  function NibbleValue(c: char): (n: int)
    requires IsHexDigit(c)
    ensures 0 <= n < 16
  {
    if c <= '9' then c as int - '0' as int else c as int - 'a' as int + 10
  }

  /** Two hex digits per byte, high nibble first, no prefix. */
  function ToUnprefixedHexString(b: Bytes): (s: string)
    ensures |s| == 2 * |b|
    ensures forall i | 0 <= i < |s| :: IsHexDigit(s[i])
  {
    if |b| == 0 then []
    else [NibbleChar(b[0] / 16), NibbleChar(b[0] % 16)] + ToUnprefixedHexString(b[1..])
  }

  /** The same digits after a `0x` prefix; never empty, even for no bytes. */
  function ToHexString(b: Bytes): (s: string)
    ensures |s| == 2 + 2 * |b| && s[..2] == "0x"
  {
    "0x" + ToUnprefixedHexString(b)
  }

  /** Reads back an even-length run of hex digits. */
  function FromUnprefixedHexString(s: string): Option<Bytes>
    decreases |s|
  {
    if |s| == 0 then Some([])
    else if |s| == 1 || !IsHexDigit(s[0]) || !IsHexDigit(s[1]) then None
    else match FromUnprefixedHexString(s[2..])
      case None => None
      case Some(rest) => Some([NibbleValue(s[0]) * 16 + NibbleValue(s[1])] + rest)
  }

  /** The hex rendering loses nothing: it reads back to the same bytes. */
  lemma {:induction false} HexRoundTrip(b: Bytes)
    ensures FromUnprefixedHexString(ToUnprefixedHexString(b)) == Some(b)
    decreases |b|
  {
    if |b| > 0 {
      var s := ToUnprefixedHexString(b);
      assert s[2..] == ToUnprefixedHexString(b[1..]);
      HexRoundTrip(b[1..]);
      assert NibbleValue(NibbleChar(b[0] / 16)) == b[0] / 16;
      assert NibbleValue(NibbleChar(b[0] % 16)) == b[0] % 16;
      assert [b[0]] + b[1..] == b;
    }
  }

  /** The prefixed rendering loses nothing either: the digits after `0x` read back to
      the same bytes. */
  lemma HexStringRoundTrip(b: Bytes)
    ensures FromUnprefixedHexString(ToHexString(b)[2..]) == Some(b)
  {
    assert ToHexString(b)[2..] == ToUnprefixedHexString(b);
    HexRoundTrip(b);
  }
}
