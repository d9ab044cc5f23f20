/** Bytes, 32-bit words and the two memory primitives everything else is built on. */
module Bytes {

  type byte = b: int | 0 <= b < 0x100
  type u16 = n: int | 0 <= n < 0x1_0000
  type u32 = n: int | 0 <= n < 0x1_0000_0000

  /** Conversion to `uint32_t`, `uint16_t` and `uint8_t`: the value modulo the width. */
  function U32(n: int): u32 { n % 0x1_0000_0000 }
  function U16(n: int): u16 { n % 0x1_0000 }
  function U8(n: int): byte { n % 0x100 }

  lemma U16Bound(n: nat)
    ensures U16(n) <= n && (n < 0x1_0000 ==> U16(n) == n)
  {
  }

  lemma Fits32(n: nat)
    requires n < 0x1_0000_0000
    ensures U32(n) == n
  {
  }

  function Min(a: int, b: int): int { if a < b then a else b }

  /** Little-endian fields of a packed structure. */
  function Le16(s: seq<byte>, at: nat): u16
    requires at + 2 <= |s|
  {
    s[at] as int + 0x100 * s[at + 1] as int
  }

  function Le32(s: seq<byte>, at: nat): u32
    requires at + 4 <= |s|
  {
    s[at] as int + 0x100 * s[at + 1] as int + 0x1_0000 * s[at + 2] as int + 0x100_0000 * s[at + 3] as int
  }

  /** The bytes of a 16-bit and of a 32-bit number, as a formatter or a linker writes them. */
  function Word(n: u16): (s: seq<byte>)
    ensures |s| == 2
  {
    [n % 0x100, n / 0x100]
  }

  function Long(n: u32): (s: seq<byte>)
    ensures |s| == 4
  {
    [n % 0x100, n / 0x100 % 0x100, n / 0x1_0000 % 0x100, n / 0x100_0000]
  }

  lemma WordAt(s: seq<byte>, at: nat, n: u16)
    requires at + 2 <= |s| && s[at..at + 2] == Word(n)
    ensures Le16(s, at) == n
  {
    assert s[at] == s[at..at + 2][0] && s[at + 1] == s[at..at + 2][1];
  }

  lemma LongAt(s: seq<byte>, at: nat, n: u32)
    requires at + 4 <= |s| && s[at..at + 4] == Long(n)
    ensures Le32(s, at) == n
  {
    var t := s[at..at + 4];
    assert s[at] == t[0] && s[at + 1] == t[1] && s[at + 2] == t[2] && s[at + 3] == t[3];
    LongParts(n);
  }

  lemma LongParts(n: u32)
    ensures n % 0x100 + 0x100 * (n / 0x100 % 0x100) + 0x1_0000 * (n / 0x1_0000 % 0x100) + 0x100_0000 * (n / 0x100_0000) == n
  {
    var a, b := n / 0x100, n / 0x1_0000;
    assert b == a / 0x100 && n / 0x100_0000 == b / 0x100;
  }

  /** A memory image with `data` written at address `at`. */
  function Patch(m: seq<byte>, at: nat, data: seq<byte>): (r: seq<byte>)
    requires at + |data| <= |m|
    ensures |r| == |m|
    ensures forall a :: 0 <= a < |m| ==> r[a] == if at <= a < at + |data| then data[a - at] else m[a]
  {
    m[..at] + data + m[at + |data|..]
  }

  lemma PatchSlice(m: seq<byte>, at: nat, data: seq<byte>)
    requires at + |data| <= |m|
    ensures Patch(m, at, data)[at..at + |data|] == data
  {
  }

  function Zeros(n: nat): (r: seq<byte>)
    ensures |r| == n && forall i :: 0 <= i < n ==> r[i] == 0
  {
    seq(n, _ => 0)
  }

  /** `memcpy`: the count parameter is 16 bits wide, so a request for 0x10000 bytes copies none. */
  method MemCpy(dst: array<byte>, d: nat, src: array<byte>, s: nat, num: nat)
    requires d + U16(num) <= dst.Length && s + U16(num) <= src.Length
    requires dst != src || d + U16(num) <= s || s + U16(num) <= d
    modifies dst
    ensures dst[..] == Patch(old(dst[..]), d, old(src[s..s + U16(num)]))
  {
    var count := U16(num);
    var i := 0;
    while i < count
      invariant 0 <= i <= count
      invariant forall a :: 0 <= a < dst.Length ==>
        dst[a] == if d <= a < d + i then old(src[s + (a - d)]) else old(dst[a])
    {
      dst[d + i] := src[s + i];
      i := i + 1;
    }
  }

  /** `memset`, with the same 16-bit count. */
  method MemSet(dst: array<byte>, d: nat, value: byte, num: nat)
    requires d + U16(num) <= dst.Length
    modifies dst
    ensures dst[..] == Patch(old(dst[..]), d, seq(U16(num), _ => value))
  {
    var count := U16(num);
    var i := 0;
    while i < count
      invariant 0 <= i <= count
      invariant forall a :: 0 <= a < dst.Length ==>
        dst[a] == if d <= a < d + i then value else old(dst[a])
    {
      dst[d + i] := value;
      i := i + 1;
    }
  }
}
