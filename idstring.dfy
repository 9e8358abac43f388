/**
 * The identification-string encoder `utf8` that prepares each string sent to
 * the phone during the accessory handshake. A byte with its high bit set is
 * copied; every 7-bit byte `c` is written as the two bytes
 * `0xC0 | (c >> 6)`, `0x80 | (c & 0x3F)`; a NUL ends the result, in a buffer
 * of `1 + 2 * strlen` bytes.
 *
 * Despite its name the result is not UTF-8 as section 3 of RFC 3629 defines
 * it: the octets C0 and C1 never appear in UTF-8, and this encoder begins
 * every 7-bit character with one of them (an "overlong" form that only
 * lenient decoders accept).
 */
module IdString {
  import opened Kernel

  /** `strlen`: the index of the first NUL in memory that holds one. */
  function Strlen(mem: seq<byte>): (n: nat)
    requires 0 in mem
    ensures n < |mem| && mem[n] == 0
    ensures forall i :: 0 <= i < n ==> mem[i] != 0
  {
    if mem[0] == 0 then 0 else 1 + Strlen(mem[1..])
  }

  /**
   * The bytes written for one input byte: a high-bit byte unchanged; a 7-bit
   * byte as a C0 or C1 lead byte carrying its top bit and a continuation
   * byte carrying its low six bits.
   */
  function EncodeByte(b: byte): (r: seq<byte>)
    ensures |r| == if b < 0x80 then 2 else 1
    ensures forall i :: 0 <= i < |r| ==> r[i] != 0
    ensures b >= 0x80 ==> r == [b]
    ensures b < 0x80 ==>
      && (r[0] == 0xC0 || r[0] == 0xC1)
      && r[1] & 0xC0 == 0x80
      && ((r[0] & 0x01) << 6) | (r[1] & 0x3F) == b
  {
    if b & 0x80 != 0 then [b] else [0xC0 | (b >> 6), 0x80 | (b & 0x3F)]
  }

  /** The encoding of a whole string, without the terminating NUL. */
  function Encode(s: seq<byte>): seq<byte>
  {
    if s == [] then [] else EncodeByte(s[0]) + Encode(s[1..])
  }

  /** What `utf8` leaves in its buffer: the encoding and one NUL. */
  function Output(s: seq<byte>): seq<byte>
  {
    Encode(s) + [0]
  }

  /** The number of 7-bit bytes in `s`: each costs one extra output byte. */
  function SevenBitCount(s: seq<byte>): nat
  {
    if s == [] then 0 else (if s[0] < 0x80 then 1 else 0) + SevenBitCount(s[1..])
  }

  /** Encoding works byte by byte, so it distributes over concatenation. */
  lemma {:induction false} EncodeAppend(a: seq<byte>, b: seq<byte>)
    ensures Encode(a + b) == Encode(a) + Encode(b)
  {
    if a == [] {
      assert a + b == b;
    } else {
      assert (a + b)[0] == a[0];
      assert (a + b)[1..] == a[1..] + b;
      EncodeAppend(a[1..], b);
    }
  }

  /** Encoding one more byte of a prefix appends that byte's encoding. */
  lemma EncodePrefixStep(mem: seq<byte>, k: nat)
    requires k < |mem|
    ensures Encode(mem[..k + 1]) == Encode(mem[..k]) + EncodeByte(mem[k])
  {
    assert mem[..k + 1] == mem[..k] + [mem[k]];
    EncodeAppend(mem[..k], [mem[k]]);
    assert Encode([mem[k]]) == EncodeByte(mem[k]) by { assert [mem[k]][1..] == []; }
  }

  /**
   * The encoding is one byte per high-bit byte and two per 7-bit byte, so it
   * is never shorter than the input and at most twice as long: with the NUL
   * it always fits the `1 + 2 * strlen` bytes allocated for it.
   */
  lemma {:induction false} EncodeLength(s: seq<byte>)
    ensures |Encode(s)| == |s| + SevenBitCount(s)
    ensures |s| <= |Encode(s)| <= 2 * |s|
    ensures |Output(s)| <= 1 + 2 * |s|
  {
    if s != [] {
      EncodeLength(s[1..]);
    }
  }

  /** No encoded byte is NUL, so the output reads back as a C string of the encoding's length. */
  lemma {:induction false} EncodeNoNul(s: seq<byte>)
    ensures forall i :: 0 <= i < |Encode(s)| ==> Encode(s)[i] != 0
    ensures Strlen(Output(s)) == |Encode(s)|
  {
    if s != [] {
      EncodeNoNul(s[1..]);
      var e := Encode(s);
      assert e == EncodeByte(s[0]) + Encode(s[1..]);
      forall i | 0 <= i < |e| ensures e[i] != 0 {
        if i >= |EncodeByte(s[0])| {
          assert e[i] == Encode(s[1..])[i - |EncodeByte(s[0])|];
        }
      }
    }
    assert 0 in Output(s) by { assert Output(s)[|Encode(s)|] == 0; }
  }

  /**
   * Order is preserved: the bytes for input byte `i` sit in the output right
   * after the bytes for the input before it.
   */
  lemma EncodePlacement(s: seq<byte>, i: nat)
    requires i < |s|
    ensures var off := |Encode(s[..i])|;
      off + |EncodeByte(s[i])| <= |Encode(s)| &&
      Encode(s)[off..off + |EncodeByte(s[i])|] == EncodeByte(s[i])
  {
    assert s == s[..i] + ([s[i]] + s[i + 1..]);
    EncodeAppend(s[..i], [s[i]] + s[i + 1..]);
    EncodeAppend([s[i]], s[i + 1..]);
    assert Encode([s[i]]) == EncodeByte(s[i]) by { assert [s[i]][1..] == []; }
  }

  /**
   * A lenient reader of the output: a C0 or C1 lead byte followed by a
   * continuation byte is read back as one 7-bit byte, any other byte as
   * itself.
   */
  function Decode(e: seq<byte>): seq<byte>
  {
    if e == [] then []
    else if (e[0] == 0xC0 || e[0] == 0xC1) && |e| >= 2 && e[1] & 0xC0 == 0x80 then
      [((e[0] & 0x01) << 6) | (e[1] & 0x3F)] + Decode(e[2..])
    else [e[0]] + Decode(e[1..])
  }

  predicate SevenBitClean(s: seq<byte>)
  {
    forall i :: 0 <= i < |s| ==> s[i] < 0x80
  }

  /** A 7-bit-clean string, such as each identification string, reads back unchanged. */
  lemma {:induction false} DecodeEncode(s: seq<byte>)
    requires SevenBitClean(s)
    ensures Decode(Encode(s)) == s
  {
    if s != [] {
      var x := s[0];
      var e := Encode(s);
      assert e == [0xC0 | (x >> 6), 0x80 | (x & 0x3F)] + Encode(s[1..]);
      assert e[2..] == Encode(s[1..]);
      assert ((e[0] & 0x01) << 6) | (e[1] & 0x3F) == x;
      DecodeEncode(s[1..]);
      assert s == [x] + s[1..];
    }
  }

  /**
   * With high-bit bytes the encoding loses information: the two-byte input
   * C1 81 is written unchanged, which is also what the one-byte input "A"
   * (0x41) becomes.
   */
  lemma EncodeNotInjective()
    ensures Encode([0xC1, 0x81]) == Encode([0x41])
    ensures Decode(Encode([0xC1, 0x81])) == [0x41]
  {
    assert [0xC1, 0x81][1..] == [0x81 as byte];
    assert [0x81 as byte][1..] == [];
    assert [0x41 as byte][1..] == [];
    var e: seq<byte> := [0xC1, 0x81];
    assert Decode(e) == [0x41] + Decode(e[2..]);
    assert e[2..] == [];
  }

  /** The `*c++ = ...` writes for one input byte: its encoding goes at offset `c`. */
  method PutEncoded(buf: array<byte>, c: nat, x: byte) returns (next: nat)
    requires c + |EncodeByte(x)| <= buf.Length
    modifies buf
    ensures next == c + |EncodeByte(x)|
    ensures buf[..next] == old(buf[..c]) + EncodeByte(x)
    ensures buf[next..] == old(buf[next..])
  {
    if x & 0x80 != 0 {
      buf[c] := x;
      next := c + 1;
    } else {
      buf[c] := 0xC0 | (x >> 6);
      buf[c + 1] := 0x80 | (x & 0x3F);
      next := c + 2;
    }
  }

  /**
   * `utf8(str)`: allocate `1 + 2 * strlen(str)` bytes (the allocation may
   * fail, giving null) and write the encoding of the string and a NUL into
   * them. `mem` is the memory at `str`, up to and including a NUL.
   */
  method Utf8(mem: seq<byte>, allocOk: bool) returns (buf: array?<byte>)
    requires 0 in mem
    ensures buf != null <==> allocOk
    ensures buf != null ==> buf.Length == 1 + 2 * Strlen(mem)
    ensures buf != null ==>
      |Output(mem[..Strlen(mem)])| <= buf.Length &&
      buf[..|Output(mem[..Strlen(mem)])|] == Output(mem[..Strlen(mem)])
  {
    var n := Strlen(mem);
    if !allocOk {
      return null;
    }
    buf := new byte[1 + 2 * n];
    var c, k := 0, 0;
    while mem[k] != 0
      invariant 0 <= k <= n
      invariant c == |Encode(mem[..k])| && c <= 2 * k
      invariant buf[..c] == Encode(mem[..k])
      decreases n - k
    {
      EncodePrefixStep(mem, k);
      c := PutEncoded(buf, c, mem[k]);
      k := k + 1;
    }
    buf[c] := 0;
    assert buf[..c + 1] == buf[..c] + [0];
  }
}
