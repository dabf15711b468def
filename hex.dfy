/**
 * Lowercase hexadecimal text of a byte string, as `hashlib`'s `hexdigest()` renders a
 * digest: two characters per byte, high nibble first, digits `0-9a-f`. `HexDecode`
 * reads that text back.
 */
module Hex {
  import opened Wrappers
  import opened Utf8

  predicate IsLowerHexDigit(c: char) {
    '0' <= c <= '9' || 'a' <= c <= 'f'
  }

  predicate IsLowerHex(s: string) {
    forall i :: 0 <= i < |s| ==> IsLowerHexDigit(s[i])
  }

  function NibbleValue(c: char): (n: nat)
    requires IsLowerHexDigit(c)
    ensures n < 16
  {
    if c <= '9' then c as int - '0' as int else c as int - 'a' as int + 10
  }

  function NibbleChar(n: nat): (c: char)
    requires n < 16
    ensures IsLowerHexDigit(c) && NibbleValue(c) == n
  {
    if n < 10 then ('0' as int + n) as char else ('a' as int + n - 10) as char
  }

  /** The hex text of `d`: two lowercase hex digits per byte. */
  function HexDigest(d: Bytes): (s: string)
    ensures |s| == 2 * |d|
    ensures IsLowerHex(s)
  {
    if d == [] then []
    else [NibbleChar(d[0] as int / 16), NibbleChar(d[0] as int % 16)] + HexDigest(d[1..])
  }

  /** The bytes denoted by pairs of hex digits. */
  function DecodePairs(s: string): (d: Bytes)
    requires |s| % 2 == 0 && IsLowerHex(s)
    ensures 2 * |d| == |s|
  {
    if s == [] then []
    else [(NibbleValue(s[0]) * 16 + NibbleValue(s[1])) as byte] + DecodePairs(s[2..])
  }

  /** Reads lowercase hex text of even length; anything else is refused. */
  function HexDecode(s: string): (r: Option<Bytes>)
    ensures r.Some? <==> |s| % 2 == 0 && IsLowerHex(s)
    ensures r.Some? ==> 2 * |r.value| == |s|
  {
    if |s| % 2 == 0 && IsLowerHex(s) then Some(DecodePairs(s)) else None
  }

  /** Reading back the hex text of `d` gives `d`. */
  lemma {:induction false} HexRoundTrip(d: Bytes)
    ensures HexDecode(HexDigest(d)) == Some(d)
  {
    if d != [] {
      HexRoundTrip(d[1..]);
      var s := HexDigest(d);
      var b := d[0] as int;
      assert s[2..] == HexDigest(d[1..]);
      assert NibbleValue(s[0]) == b / 16 && NibbleValue(s[1]) == b % 16;
      assert (NibbleValue(s[0]) * 16 + NibbleValue(s[1])) as byte == d[0];
      assert DecodePairs(s) == [d[0]] + DecodePairs(s[2..]);
      assert d == [d[0]] + d[1..];
    }
  }

  /** Every text `HexDecode` accepts is exactly the hex text of what it decodes to. */
  lemma {:induction false} HexDecodeCanonical(s: string, d: Bytes)
    requires HexDecode(s) == Some(d)
    ensures HexDigest(d) == s
    decreases |s|
  {
    if s != [] {
      var rest := s[2..];
      assert IsLowerHex(rest);
      HexDecodeCanonical(rest, d[1..]);
      var hi, lo := NibbleValue(s[0]), NibbleValue(s[1]);
      assert (hi * 16 + lo) / 16 == hi && (hi * 16 + lo) % 16 == lo;
      assert NibbleChar(hi) == s[0] && NibbleChar(lo) == s[1];
      assert s == [s[0], s[1]] + rest;
    }
  }

  /** Distinct byte strings have distinct hex texts. */
  lemma HexDigestInjective(a: Bytes, b: Bytes)
    requires HexDigest(a) == HexDigest(b)
    ensures a == b
  {
    HexRoundTrip(a);
    HexRoundTrip(b);
  }
}
