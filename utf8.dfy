/**
 * Bytes and the UTF-8 encoding that Python's `str.encode()` applies by default
 * (RFC 3629, section 3). Dafny's `char` is a Unicode scalar value, so every
 * character has an encoding and the strict error handler never fires.
 *
 * The commitment only ever encodes `str` of an integer, which is ASCII, so only the
 * one-byte case and `AsciiEncodeInjective` are used by the rest of the model; the
 * multi-byte cases and their decoding lemmas complete the model of `str.encode()`.
 */
module Utf8 {

  newtype byte = b: int | 0 <= b < 256

  type Bytes = seq<byte>

  predicate IsAscii(s: string) {
    forall i :: 0 <= i < |s| ==> s[i] as int < 0x80
  }

  predicate IsContinuation(b: byte) {
    0x80 <= b < 0xC0
  }

  /** The lead-byte marker of an encoding of length `n` (1 to 4). */
  function LeadMarker(n: int): int
    requires 1 <= n <= 4
  {
    if n == 1 then 0x00 else if n == 2 then 0xC0 else if n == 3 then 0xE0 else 0xF0
  }

  /** Appends the six payload bits of each continuation byte to `acc`. */
  function Accumulate(acc: int, cont: Bytes): int
    decreases |cont|
  {
    if cont == [] then acc else Accumulate(acc * 64 + (cont[0] as int - 0x80), cont[1..])
  }

  /** The scalar value carried by the bytes of one encoded character: the payload bits of
      the lead byte followed by six bits per continuation byte. */
  function ScalarOf(r: Bytes): int
    requires 1 <= |r| <= 4
  {
    Accumulate(r[0] as int - LeadMarker(|r|), r[1..])
  }

  /** UTF-8 encoding of one character: the shortest form, whose length is fixed by the
      scalar value's range, a lead byte that announces that length, and continuation
      bytes after it. */
  function EncodeChar(c: char): (r: Bytes)
    ensures 1 <= |r| <= 4
    ensures |r| == 1 <==> c as int < 0x80
    ensures |r| == 2 <==> 0x80 <= c as int < 0x800
    ensures |r| == 3 <==> 0x800 <= c as int < 0x10000
    ensures LeadMarker(|r|) <= r[0] as int
    ensures forall i :: 1 <= i < |r| ==> IsContinuation(r[i])
  {
    var cp := c as int;
    if cp < 0x80 then
      [cp as byte]
    else if cp < 0x800 then
      [(0xC0 + cp / 64) as byte, (0x80 + cp % 64) as byte]
    else if cp < 0x10000 then
      [(0xE0 + cp / 4096) as byte, (0x80 + cp / 64 % 64) as byte, (0x80 + cp % 64) as byte]
    else
      [(0xF0 + cp / 262144) as byte, (0x80 + cp / 4096 % 64) as byte,
       (0x80 + cp / 64 % 64) as byte, (0x80 + cp % 64) as byte]
  }

  lemma SplitSix(x: nat)
    ensures x == x / 64 * 64 + x % 64
    ensures x / 64 / 64 == x / 4096
    ensures x / 4096 / 64 == x / 262144
  {
  }

  /** Decoding an encoded character gives its scalar value back. */
  lemma EncodeCharDecodes(c: char)
    ensures ScalarOf(EncodeChar(c)) == c as int
  {
    var cp := c as int;
    var r := EncodeChar(c);
    SplitSix(cp);
    SplitSix(cp / 64);
    SplitSix(cp / 4096);
    if cp < 0x80 {
    } else if cp < 0x800 {
      assert r[1..][1..] == [];
      assert ScalarOf(r) == Accumulate(cp / 64 * 64 + cp % 64, []);
    } else if cp < 0x10000 {
      assert r[1..][1..][1..] == [];
      assert ScalarOf(r) == Accumulate(cp / 4096 * 64 + cp / 64 % 64, r[2..]);
      assert ScalarOf(r) == Accumulate((cp / 4096 * 64 + cp / 64 % 64) * 64 + cp % 64, []);
    } else {
      assert r[1..][1..][1..][1..] == [];
      assert ScalarOf(r) == Accumulate(cp / 262144 * 64 + cp / 4096 % 64, r[2..]);
      assert ScalarOf(r) == Accumulate((cp / 262144 * 64 + cp / 4096 % 64) * 64 + cp / 64 % 64, r[3..]);
      assert ScalarOf(r) == Accumulate(((cp / 262144 * 64 + cp / 4096 % 64) * 64 + cp / 64 % 64) * 64 + cp % 64, []);
    }
  }

  /** `s.encode()` with Python's default codec, UTF-8: the characters' encodings in order.
      On ASCII text it is one byte per character, equal to the character's code. */
  function Encode(s: string): (r: Bytes)
    ensures |r| >= |s|
    ensures IsAscii(s) ==> |r| == |s| && forall i :: 0 <= i < |s| ==> r[i] as int == s[i] as int
  {
    if s == [] then [] else EncodeChar(s[0]) + Encode(s[1..])
  }

  lemma EncodeCharInjective(c: char, d: char)
    requires EncodeChar(c) == EncodeChar(d)
    ensures c == d
  {
    EncodeCharDecodes(c);
    EncodeCharDecodes(d);
  }

  /** Distinct ASCII strings have distinct encodings. */
  lemma AsciiEncodeInjective(s: string, t: string)
    requires IsAscii(s) && IsAscii(t)
    requires Encode(s) == Encode(t)
    ensures s == t
  {
  }
}
