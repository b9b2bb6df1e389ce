/** Structural validity of UTF-8 text (RFC 3629, section 4): no overlong form, no surrogate. */
module Utf8 {
  import opened Bytes

  predicate Tail(b: byte) { 0x80 <= b < 0xC0 }

  predicate Valid(s: bytes) {
    if s == [] then true
    else if s[0] < 0x80 then Valid(s[1..])
    else if |s| >= 2 && 0xC2 <= s[0] <= 0xDF then Tail(s[1]) && Valid(s[2..])
    else if |s| >= 3 && 0xE0 <= s[0] <= 0xEF then
      && Tail(s[1]) && Tail(s[2])
      && (s[0] == 0xE0 ==> s[1] >= 0xA0)
      && (s[0] == 0xED ==> s[1] < 0xA0)
      && Valid(s[3..])
    else if |s| >= 4 && 0xF0 <= s[0] <= 0xF4 then
      && Tail(s[1]) && Tail(s[2]) && Tail(s[3])
      && (s[0] == 0xF0 ==> s[1] >= 0x90)
      && (s[0] == 0xF4 ==> s[1] < 0x90)
      && Valid(s[4..])
    else false
  }

  // ---- The code points behind the bytes ----

  /** A Unicode scalar value: a code point that is no surrogate. */
  type Scalar = c: nat | c <= 0x10_FFFF && !(0xD800 <= c <= 0xDFFF)

  /** The bit patterns of RFC 3629, section 3. */
  function Char(c: Scalar): (s: bytes)
    ensures |s| > 0
  {
    if c < 0x80 then [c]
    else if c < 0x800 then [0xC0 + c / 0x40, 0x80 + c % 0x40]
    else if c < 0x1_0000 then [0xE0 + c / 0x1000, 0x80 + c / 0x40 % 0x40, 0x80 + c % 0x40]
    else [0xF0 + c / 0x4_0000, 0x80 + c / 0x1000 % 0x40, 0x80 + c / 0x40 % 0x40, 0x80 + c % 0x40]
  }

  function Text(cs: seq<Scalar>): bytes { if cs == [] then [] else Char(cs[0]) + Text(cs[1..]) }

  /** Text is valid. */
  lemma {:induction false} TextIsValid(cs: seq<Scalar>)
    ensures Valid(Text(cs))
  {
    if cs == [] {
    } else {
      TextIsValid(cs[1..]);
      CharFirst(cs[0], Text(cs[1..]));
    }
  }

  lemma CharFirst(c: Scalar, rest: bytes)
    ensures Valid(Char(c) + rest) <==> Valid(rest)
  {
    var s := Char(c) + rest;
    assert s[|Char(c)|..] == rest;
    assert forall i :: 0 <= i < |Char(c)| ==> s[i] == Char(c)[i];
    assert c < 0x1_0000 ==> c / 0x40 == c / 0x1000 * 0x40 + c / 0x40 % 0x40;
    assert c / 0x1000 == c / 0x4_0000 * 0x40 + c / 0x1000 % 0x40;
  }

  /** And only text is: every valid string is the encoding of scalar values. */
  lemma {:induction false} ValidIsText(s: bytes) returns (cs: seq<Scalar>)
    requires Valid(s)
    ensures Text(cs) == s
    decreases |s|
  {
    if s == [] {
      cs := [];
    } else {
      var c, n := FrontChar(s);
      var rest := ValidIsText(s[n..]);
      cs := [c] + rest;
      assert cs[1..] == rest;
      assert s == s[..n] + s[n..];
    }
  }

  lemma FrontChar(s: bytes) returns (c: Scalar, n: nat)
    requires Valid(s) && s != []
    ensures 0 < n <= |s| && s[..n] == Char(c) && Valid(s[n..])
  {
    var a: int := s[0];
    if a < 0x80 {
      c, n := a, 1;
    } else if a <= 0xDF {
      c, n := (a - 0xC0) * 0x40 + LowBits(s[1]), 2;
    } else if a <= 0xEF {
      c, n := (a - 0xE0) * 0x1000 + LowBits(s[1]) * 0x40 + LowBits(s[2]), 3;
      ThreeGroups(c, a - 0xE0, LowBits(s[1]), LowBits(s[2]));
    } else {
      var high := (a - 0xF0) * 0x40 + LowBits(s[1]);
      c, n := high * 0x1000 + LowBits(s[2]) * 0x40 + LowBits(s[3]), 4;
      ThreeGroups(c, high, LowBits(s[2]), LowBits(s[3]));
    }
  }

  lemma ThreeGroups(c: nat, x: nat, y: nat, z: nat)
    requires y < 0x40 && z < 0x40 && c == x * 0x1000 + y * 0x40 + z
    ensures c / 0x1000 == x && c / 0x40 % 0x40 == y && c % 0x40 == z && c / 0x4_0000 == x / 0x40
  {
    assert c / 0x40 == x * 0x40 + y;
  }

  function LowBits(b: byte): int { b as int - 0x80 }

  /** How many bytes the character at the front takes; zero if there is none that is whole. */
  function FrontLength(s: bytes): (n: nat)
    ensures n <= |s| && (s != [] ==> (Valid(s) <==> n > 0 && Valid(s[n..])))
  {
    if s == [] then 0
    else if s[0] < 0x80 then 1
    else if |s| >= 2 && 0xC2 <= s[0] <= 0xDF && Tail(s[1]) then 2
    else if |s| >= 3 && 0xE0 <= s[0] <= 0xEF && Tail(s[1]) && Tail(s[2])
            && (s[0] == 0xE0 ==> s[1] >= 0xA0) && (s[0] == 0xED ==> s[1] < 0xA0) then 3
    else if |s| >= 4 && 0xF0 <= s[0] <= 0xF4 && Tail(s[1]) && Tail(s[2]) && Tail(s[3])
            && (s[0] == 0xF0 ==> s[1] >= 0x90) && (s[0] == 0xF4 ==> s[1] < 0x90) then 4
    else 0
  }

  /** A character is not completed by what an ASCII separator keeps apart from it. */
  lemma FrontBefore(a: bytes, c: byte, b: bytes)
    requires a != [] && c < 0x80
    ensures FrontLength(a + [c] + b) == FrontLength(a)
  {
    var s := a + [c] + b;
    assert s[0] == a[0];
    assert forall i :: 0 <= i < |a| ==> s[i] == a[i];
    assert s[|a|] == c;
  }

  /** Text with an ASCII separator in it is text on both sides of it. */
  lemma {:induction false} Separated(a: bytes, c: byte, b: bytes)
    requires c < 0x80
    ensures Valid(a + [c] + b) <==> Valid(a) && Valid(b)
    decreases |a|
  {
    hide FrontLength;
    var s := a + [c] + b;
    if a == [] {
      assert s[1..] == b;
    } else {
      hide Valid;
      var n := FrontLength(a);
      FrontBefore(a, c, b);
      if n > 0 {
        assert s[n..] == a[n..] + [c] + b;
        Separated(a[n..], c, b);
      }
    }
  }

  lemma {:induction false} AsciiFront(a: bytes, s: bytes)
    requires forall i :: 0 <= i < |a| ==> a[i] < 0x80
    ensures Valid(a + s) <==> Valid(s)
    decreases |a|
  {
    if a == [] {
      assert a + s == s;
    } else {
      assert (a + s)[0] == a[0] && (a + s)[1..] == a[1..] + s;
      AsciiFront(a[1..], s);
    }
  }

  lemma AsciiIsValid(s: bytes)
    requires forall i :: 0 <= i < |s| ==> s[i] < 0x80
    ensures Valid(s)
  {
    AsciiFront(s, []);
    assert s + [] == s;
  }

  /** A three-byte character in front of text is text. */
  lemma ThreeBytes(s: bytes, k: nat)
    requires k + 3 <= |s| && 0xE1 <= s[k] <= 0xEC && Tail(s[k + 1]) && Tail(s[k + 2])
    requires k + 3 == |s| || Valid(s[k + 3..])
    ensures Valid(s[k..])
  {
    assert s[k..][3..] == s[k + 3..];
    assert s[|s|..] == [];
  }
}
