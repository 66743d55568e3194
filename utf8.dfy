/**
 * The byte view of a Rust `str`: UTF-8 widths, byte lengths, and the char
 * boundaries at which a byte-range slice is allowed.
 */
module Utf8 {
  import opened Text

  /** The number of bytes `c` takes in UTF-8. */
  function Width(c: char): (w: nat)
    ensures 1 <= w <= 4
    ensures w == 1 <==> IsAsciiChar(c)
  {
    if (c as int) < 0x80 then 1
    else if (c as int) < 0x800 then 2
    else if (c as int) < 0x1_0000 then 3
    else 4
  }

  /** `str::len`: the length in bytes. */
  function ByteLen(s: string): (n: nat)
    ensures n >= |s|
  {
    if s == [] then 0 else Width(s[0]) + ByteLen(s[1..])
  }

  /** `str::is_char_boundary(n)`: byte offset `n` starts a char or ends the text. */
  predicate IsCharBoundary(s: string, n: nat)
    decreases n
  {
    n == 0 || (s != [] && Width(s[0]) <= n && IsCharBoundary(s[1..], n - Width(s[0])))
  }

  /** `&s[..n]`, defined when `n` is a char boundary. */
  function BytePrefix(s: string, n: nat): (r: string)
    requires IsCharBoundary(s, n)
    ensures StartsWith(s, r)
    ensures ByteLen(r) == n
    decreases n
  {
    if n == 0 then []
    else
      var rest := BytePrefix(s[1..], n - Width(s[0]));
      assert s[..1 + |rest|] == [s[0]] + s[1..][..|rest|];
      [s[0]] + rest
  }

  lemma {:induction false} ByteLenConcat(a: string, b: string)
    ensures ByteLen(a + b) == ByteLen(a) + ByteLen(b)
  {
    if a != [] {
      ByteLenConcat(a[1..], b);
      assert (a + b)[1..] == a[1..] + b;
    } else {
      assert a + b == b;
    }
  }

  /** ASCII text has one byte per char. */
  lemma {:induction false} AsciiByteLen(s: string)
    requires IsAscii(s)
    ensures ByteLen(s) == |s|
  {
    if s != [] {
      AsciiByteLen(s[1..]);
    }
  }

  /** Over an ASCII prefix, byte offsets and char indices coincide. */
  lemma {:induction false} AsciiPrefixIsBytePrefix(s: string, k: nat)
    requires k <= |s| && IsAscii(s[..k])
    ensures IsCharBoundary(s, k) && BytePrefix(s, k) == s[..k]
    decreases k
  {
    if k > 0 {
      assert s[..k][0] == s[0];
      assert s[1..][..k - 1] == s[..k][1..];
      AsciiPrefixIsBytePrefix(s[1..], k - 1);
    }
  }
}
