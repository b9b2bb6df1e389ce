/**
 Octets, fixed-width integers and the big-endian order that the framing, the codec
 and the multipart encoding share.
 */
module Bytes {

  type byte = b: int | 0 <= b < 0x100
  type bytes = seq<byte>

  type int32 = n: int | -0x8000_0000 <= n < 0x8000_0000
  type uint32 = n: int | 0 <= n < 0x1_0000_0000
  type uint64 = n: int | 0 <= n < 0x1_0000_0000_0000_0000

  /** The int32 a C++ conversion gives: the low 32 bits, read as two's complement. */
  function ToInt32(n: int): (r: int32)
    ensures -0x8000_0000 <= n < 0x8000_0000 ==> r == n
    ensures (n - r) % 0x1_0000_0000 == 0
  {
    var low := n % 0x1_0000_0000;
    if low < 0x8000_0000 then low else low - 0x1_0000_0000
  }

  /** A negative int32 travels as a 64-bit two's complement number. */
  function SignExtend(n: int32): (r: uint64)
    ensures ToInt32(r) == n
    ensures (r == 0) == (n == 0)
  {
    if n < 0 then n + 0x1_0000_0000_0000_0000 else n
  }

  function BigEndian32(n: uint32): (s: bytes)
    ensures |s| == 4
    ensures FromBigEndian32(s) == n
  {
    assert n == n / 0x100 * 0x100 + n % 0x100;
    assert n / 0x100 == n / 0x1_0000 * 0x100 + n / 0x100 % 0x100;
    assert n / 0x1_0000 == n / 0x100_0000 * 0x100 + n / 0x1_0000 % 0x100;
    [n / 0x100_0000, n / 0x1_0000 % 0x100, n / 0x100 % 0x100, n % 0x100]
  }

  function FromBigEndian32(s: bytes): (n: uint32)
    requires |s| == 4
  {
    s[0] as int * 0x100_0000 + s[1] as int * 0x1_0000 + s[2] as int * 0x100 + s[3]
  }

  lemma BigEndianUnique(s: bytes)
    requires |s| == 4
    ensures BigEndian32(FromBigEndian32(s)) == s
  {
    var n := FromBigEndian32(s);
    assert n / 0x100 == s[0] as int * 0x1_0000 + s[1] as int * 0x100 + s[2];
    assert n / 0x1_0000 == s[0] as int * 0x100 + s[1];
  }

  /** Horner's rule: each further byte counts for less than the ones before it. */
  function MostSignificantFirst(s: bytes): nat {
    if s == [] then 0 else 256 * MostSignificantFirst(s[..|s| - 1]) + s[|s| - 1] as int
  }

  /** The four bytes are the number's digits to the base 256, most significant first. */
  lemma BigEndianIsPositional(s: bytes)
    requires |s| == 4
    ensures FromBigEndian32(s) == MostSignificantFirst(s)
    ensures FromBigEndian32([0x12, 0x34, 0x56, 0x78]) == 0x1234_5678
  {
    assert s[..3][..2] == s[..2] && s[..2][..1] == s[..1] && s[..1][..0] == [];
    assert MostSignificantFirst([]) == 0;
    assert MostSignificantFirst(s[..1]) == s[0];
    assert MostSignificantFirst(s[..2]) == 256 * (s[0] as int) + s[1] as int;
    assert MostSignificantFirst(s[..3]) == 256 * (256 * (s[0] as int) + s[1] as int) + s[2] as int;
  }

  /** The order of the numbers is that of the first bytes in which they differ. */
  lemma BigEndianOrder(s: bytes, t: bytes, i: nat)
    requires |s| == |t| == 4 && i < 4 && s[..i] == t[..i] && s[i] < t[i]
    ensures FromBigEndian32(s) < FromBigEndian32(t)
  {
    assert forall j :: 0 <= j < i ==> s[j] == s[..i][j] == t[j];
  }

  /** Concatenation of a list of byte strings. */
  function Concat(parts: seq<bytes>): bytes {
    if parts == [] then [] else parts[0] + Concat(parts[1..])
  }

  lemma {:induction false} ConcatAppend(a: seq<bytes>, b: seq<bytes>)
    ensures Concat(a + b) == Concat(a) + Concat(b)
  {
    if a == [] {
      assert a + b == b;
    } else {
      assert (a + b)[1..] == a[1..] + b;
      ConcatAppend(a[1..], b);
    }
  }
}
