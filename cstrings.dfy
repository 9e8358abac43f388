/**
 * The kernel's bounded string routines used to build the device name and the
 * physical path. A C string is represented by the characters before its
 * terminating NUL, so its `strlen` is the length of the sequence; a buffer of
 * `size` bytes holds at most `size - 1` characters.
 */
module CStrings {

  /** The first `n` characters of `s`, or all of `s` when it is shorter. */
  function Truncate(s: seq<char>, n: nat): (r: seq<char>)
    ensures |r| == if |s| <= n then |s| else n
    ensures r <= s
  {
    if |s| <= n then s else s[..n]
  }

  /** `strlcpy(dst, src, size)`: copy at most `size - 1` characters. */
  function StrlCpy(src: seq<char>, size: nat): (dst: seq<char>)
    requires size > 0
    ensures |dst| < size
    ensures dst == Truncate(src, size - 1)
  {
    var len := if |src| >= size then size - 1 else |src|;
    src[..len]
  }

  /**
   * `strlcat(dst, src, size)`: append as much of `src` as fits in a buffer
   * of `size` bytes that already holds `dst` (the kernel BUGs when `dst` does
   * not fit, hence the precondition). The result is the concatenation cut to
   * what the buffer can hold.
   */
  function StrlCat(dst: seq<char>, src: seq<char>, size: nat): (r: seq<char>)
    requires |dst| < size
    ensures |r| < size
    ensures r == Truncate(dst + src, size - 1)
  {
    var room := size - |dst|;
    var len := if |src| >= room then room - 1 else |src|;
    assert |src| > len ==> (dst + src)[..size - 1] == dst + src[..len];
    dst + src[..len]
  }

  /** Truncating once more after appending to a truncated string changes nothing. */
  lemma {:induction false} TruncateAppend(a: seq<char>, b: seq<char>, n: nat)
    ensures Truncate(Truncate(a, n) + b, n) == Truncate(a + b, n)
  {
    if |a| > n {
      calc {
        Truncate(Truncate(a, n) + b, n);
        (a[..n] + b)[..n];
        { assert forall k :: 0 <= k < n ==> (a[..n] + b)[k] == (a + b)[k]; }
        (a + b)[..n];
      }
    }
  }

  /** Appending with `strlcat` twice is one truncation of the whole concatenation. */
  lemma {:induction false} StrlCatTwice(a: seq<char>, b: seq<char>, c: seq<char>, size: nat)
    requires |a| < size
    ensures StrlCat(StrlCat(a, b, size), c, size) == Truncate(a + b + c, size - 1)
  {
    TruncateAppend(a + b, c, size - 1);
  }

  function Pow16(n: nat): (p: nat)
    ensures p > 0
  {
    if n == 0 then 1 else 16 * Pow16(n - 1)
  }

  /** Four hexadecimal digits hold exactly the 16-bit values. */
  lemma Pow16Four()
    ensures Pow16(4) == 0x10000
  {
    assert Pow16(2) == 256;
  }

  /** The characters `%x` writes: the decimal digits and the lower-case letters a to f. */
  predicate IsLowerHexDigit(c: char)
  {
    '0' <= c <= '9' || 'a' <= c <= 'f'
  }

  /** The lower-case hexadecimal digit `printf` writes for `d`. */
  function HexDigit(d: nat): (c: char)
    requires d < 16
    ensures IsLowerHexDigit(c)
    ensures HexValue(c) == d
  {
    if d < 10 then ('0' as int + d) as char else ('a' as int + d - 10) as char
  }

  /** The value of a hexadecimal digit, 0 for any other character. */
  function HexValue(c: char): nat
  {
    if '0' <= c <= '9' then c as int - '0' as int
    else if 'a' <= c <= 'f' then c as int - 'a' as int + 10
    else if 'A' <= c <= 'F' then c as int - 'A' as int + 10
    else 0
  }

  /** `%0<width>x` for a value that fits in `width` digits. */
  function Hex(x: nat, width: nat): (s: seq<char>)
    requires x < Pow16(width)
    ensures |s| == width
    ensures forall k :: 0 <= k < |s| ==> IsLowerHexDigit(s[k])
    decreases width
  {
    if width == 0 then [] else Hex(x / 16, width - 1) + [HexDigit(x % 16)]
  }

  /** Reads a string of hexadecimal digits, most significant first. */
  function ParseHex(s: seq<char>): nat
  {
    if s == [] then 0 else ParseHex(s[..|s| - 1]) * 16 + HexValue(s[|s| - 1])
  }

  /** The digits `%0<width>x` writes read back as the value printed. */
  lemma {:induction false} HexRoundTrip(x: nat, width: nat)
    requires x < Pow16(width)
    ensures ParseHex(Hex(x, width)) == x
    decreases width
  {
    if width > 0 {
      var s := Hex(x, width);
      assert s[..|s| - 1] == Hex(x / 16, width - 1);
      HexRoundTrip(x / 16, width - 1);
    }
  }
}
