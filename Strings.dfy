/** Python `str` operations on Dafny strings (sequences of Unicode scalar values). */
module Strings {
  import Seqs

  /** The characters for which Python's `str.isspace()` holds. */
  predicate IsSpace(c: char)
  {
    || c == ' '
    || ('\t' <= c <= '\r')
    || ('\U{1C}' <= c <= '\U{1F}')
    || c == '\U{85}' || c == '\U{A0}' || c == '\U{1680}'
    || ('\U{2000}' <= c <= '\U{200A}')
    || c == '\U{2028}' || c == '\U{2029}' || c == '\U{202F}' || c == '\U{205F}' || c == '\U{3000}'
  }

  /** Python's `s.strip()`. */
  function Strip(s: string): (r: string)
    ensures r == [] <==> Seqs.All(s, IsSpace)
    ensures r != [] ==> !IsSpace(r[0]) && !IsSpace(r[|r| - 1])
  {
    Seqs.Trim(s, IsSpace)
  }

  /** `strip()` returns a slice of `s` from which only leading and trailing whitespace was cut. */
  lemma StripSlice(s: string)
    ensures exists a, b :: 0 <= a <= b <= |s| && Strip(s) == s[a..b]
                           && Seqs.All(s[..a], IsSpace) && Seqs.All(s[b..], IsSpace)
  {
    Seqs.TrimSlice(s, IsSpace);
  }

  /** Python's `s.startswith(prefix)`. */
  predicate StartsWith(s: string, prefix: string)
  {
    |prefix| <= |s| && s[..|prefix|] == prefix
  }

  function DigitChar(d: nat): char
    requires d < 10
  {
    "0123456789"[d]
  }

  /** Decimal rendering of a natural number, as Python's `str(n)`. */
  function NatToString(n: nat): (r: string)
    ensures |r| >= 1
    ensures forall i :: 0 <= i < |r| ==> '0' <= r[i] <= '9'
    decreases n
  {
    if n < 10 then [DigitChar(n)] else NatToString(n / 10) + [DigitChar(n % 10)]
  }

  /** Python's `str(i)` for an integer, as it appears in f-string messages. */
  function IntToString(i: int): string
  {
    if i < 0 then "-" + NatToString(-i) else NatToString(i)
  }
}
