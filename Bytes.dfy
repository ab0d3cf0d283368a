/** Python `bytes` values and the few operations the service applies to them. */
module Bytes {
  import Seqs

  type byte = b: int | 0 <= b < 256

  /** The bytes that Python's `bytes.strip()` removes: space, \t, \n, \v, \f, \r. */
  predicate IsAsciiSpace(b: byte)
  {
    b == 32 || 9 <= b <= 13
  }

  /** Python's `b.strip()`. */
  function Strip(s: seq<byte>): (r: seq<byte>)
    ensures r == [] <==> Seqs.All(s, IsAsciiSpace)
  {
    Seqs.Trim(s, IsAsciiSpace)
  }

  /** A non-empty stripped value starts and ends with a non-whitespace byte. */
  lemma StripEnds(s: seq<byte>)
    ensures var r := Strip(s);
            r != [] ==> !IsAsciiSpace(r[0]) && !IsAsciiSpace(r[|r| - 1])
  {
    var r := Seqs.Trim(s, IsAsciiSpace);
    assert Strip(s) == r;
  }

  /** `strip()` returns a slice of `s` from which only leading and trailing whitespace was cut. */
  lemma StripSlice(s: seq<byte>)
    ensures exists a, b :: 0 <= a <= b <= |s| && Strip(s) == s[a..b]
                           && Seqs.All(s[..a], IsAsciiSpace) && Seqs.All(s[b..], IsAsciiSpace)
  {
    Seqs.TrimSlice(s, IsAsciiSpace);
  }

  /** UTF-8 encoding of one Unicode scalar value. */
  function EncodeChar(c: char): (r: seq<byte>)
    ensures 1 <= |r| <= 4
    ensures (c as int) < 0x80 ==> r == [c as int]
  {
    var cp := c as int;
    if cp < 0x80 then [cp]
    else if cp < 0x800 then [0xC0 + cp / 0x40, 0x80 + cp % 0x40]
    else if cp < 0x1_0000 then [0xE0 + cp / 0x1000, 0x80 + (cp / 0x40) % 0x40, 0x80 + cp % 0x40]
    else [0xF0 + cp / 0x4_0000, 0x80 + (cp / 0x1000) % 0x40, 0x80 + (cp / 0x40) % 0x40, 0x80 + cp % 0x40]
  }

  /** Python's `s.encode()` (UTF-8). */
  function Encode(s: string): seq<byte>
  {
    if s == [] then [] else EncodeChar(s[0]) + Encode(s[1..])
  }

  /** Every character takes at least one byte. */
  lemma {:induction false} EncodeLength(s: string)
    ensures |Encode(s)| >= |s|
  {
    if s != [] {
      EncodeLength(s[1..]);
    }
  }

  /** A lower-case hexadecimal digit: 0-9 or a-f. */
  predicate IsHexDigit(c: char)
  {
    '0' <= c <= '9' || 'a' <= c <= 'f'
  }

  predicate IsLowerHex(s: string)
  {
    forall i :: 0 <= i < |s| ==> IsHexDigit(s[i])
  }

  /** The digit for a nibble value. */
  function HexChar(d: nat): (c: char)
    requires d < 16
    ensures IsHexDigit(c)
  {
    if d < 10 then ('0' as int + d) as char else ('a' as int + d - 10) as char
  }

  /** Python's `b.hex()`: two lower-case hexadecimal digits per byte, high nibble first. */
  function Hex(b: seq<byte>): (r: string)
    ensures |r| == 2 * |b|
    ensures IsLowerHex(r)
  {
    if b == [] then [] else [HexChar(b[0] / 16), HexChar(b[0] % 16)] + Hex(b[1..])
  }

  /** Value of one lower-case hexadecimal digit; the inverse of HexChar. */
  function DigitValue(c: char): (v: nat)
    requires IsHexDigit(c)
    ensures v < 16 && HexChar(v) == c
  {
    if '0' <= c <= '9' then (c as int) - ('0' as int) else (c as int) - ('a' as int) + 10
  }

  /** Python's `bytes.fromhex(s)` on lower-case digits. */
  function Unhex(s: string): (b: seq<byte>)
    requires |s| % 2 == 0 && IsLowerHex(s)
    ensures |b| == |s| / 2
  {
    if s == [] then [] else [16 * DigitValue(s[0]) + DigitValue(s[1])] + Unhex(s[2..])
  }

  /** Hex encoding loses nothing: decoding it gives the bytes back. */
  lemma {:induction false} HexRoundTrip(b: seq<byte>)
    ensures Unhex(Hex(b)) == b
  {
    if b != [] {
      var h := Hex(b);
      assert h[2..] == Hex(b[1..]);
      assert DigitValue(h[0]) == b[0] / 16;
      assert DigitValue(h[1]) == b[0] % 16;
      assert 16 * (b[0] / 16) + b[0] % 16 == b[0];
      HexRoundTrip(b[1..]);
    }
  }
}
