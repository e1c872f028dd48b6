/** Fixed-width integers, and the big-endian byte strings behind the macros of src/utils.h. */
module Bytes {
  type byte = x: int | 0 <= x < 0x100
  type u32 = x: int | 0 <= x < 0x1_0000_0000

  function Pow256(n: nat): (p: nat)
    ensures p > 0
  {
    if n == 0 then 1 else 0x100 * Pow256(n - 1)
  }

  // The number a byte string denotes, most significant byte first.
  function Value(s: seq<byte>): (y: nat)
    ensures y < Pow256(|s|)
  {
    if s == [] then 0 else 0x100 * Value(s[..|s| - 1]) + s[|s| - 1]
  }

  // The last n base-256 digits of a number, most significant first.
  function Digits(y: nat, n: nat): (s: seq<byte>)
    ensures |s| == n
  {
    if n == 0 then [] else Digits(y / 0x100, n - 1) + [y % 0x100]
  }

  function Value32(s: seq<byte>): u32
    requires |s| == 4
  {
    assert Pow256(4) == 0x100 * Pow256(3) == 0x1_0000 * Pow256(2) == 0x1_0000_0000;
    Value(s)
  }

  lemma {:induction false} ValueOfDigits(y: nat, n: nat)
    requires y < Pow256(n)
    ensures Value(Digits(y, n)) == y
  {
    if n > 0 {
      ValueOfDigits(y / 0x100, n - 1);
      assert Digits(y, n)[..n - 1] == Digits(y / 0x100, n - 1);
    }
  }

  lemma {:induction false} DigitsOfValue(s: seq<byte>)
    ensures Digits(Value(s), |s|) == s
  {
    if s != [] {
      DigitsOfValue(s[..|s| - 1]);
      assert Value(s) / 0x100 == Value(s[..|s| - 1]);
      assert s == s[..|s| - 1] + [s[|s| - 1]];
    }
  }

  lemma Value32OfDigits(y: u32)
    ensures Value32(Digits(y, 4)) == y
  {
    assert Pow256(4) == 0x100 * Pow256(3) == 0x1_0000 * Pow256(2) == 0x1_0000_0000;
    ValueOfDigits(y, 4);
  }

  /** UINT32: reading four bytes by shifts gives the number they denote. */
  method Uint32(buf: array<byte>, at: nat) returns (y: u32)
    requires at + 4 <= buf.Length
    ensures y == Value32(buf[at..at + 4])
  {
    var b0: int, b1: int, b2: int := buf[at], buf[at + 1], buf[at + 2];
    y := b0 * 0x100_0000 + b1 * 0x1_0000 + b2 * 0x100 + buf[at + 3];
    ghost var s := buf[at..at + 4];
    assert s[..3][..2] == s[..2] && s[..2][..1] == s[..1] && s[..1][..0] == [];
    assert Value(s[..1]) == b0;
    assert Value(s[..2]) == 0x100 * b0 + b1;
    assert Value(s[..3]) == 0x100 * (0x100 * b0 + b1) + b2;
  }

  /** SET_UINT32: writing the low eight bits of four shifts writes the digits of the number. */
  method SetUint32(buf: array<byte>, at: nat, y: u32)
    requires at + 4 <= buf.Length
    modifies buf
    ensures buf[..] == old(buf[..at]) + Digits(y, 4) + old(buf[at + 4..])
  {
    hide Digits;
    buf[at] := (y / 0x100_0000) % 0x100;
    buf[at + 1] := (y / 0x1_0000) % 0x100;
    buf[at + 2] := (y / 0x100) % 0x100;
    buf[at + 3] := y % 0x100;
    FourDigits(y);
    assert buf[at..at + 4] == Digits(y, 4);
  }

  /** The most significant byte comes first. */
  lemma Value32OfBytes(a: byte, b: byte, c: byte, d: byte)
    ensures Value32([a, b, c, d]) == 0x100_0000 * a + 0x1_0000 * b + 0x100 * c + d
  {
    var s := [a, b, c, d];
    assert s[..3] == [a, b, c] && [a, b, c][..2] == [a, b] && [a, b][..1] == [a] && [a][..0] == [];
    assert Value([a]) == a;
    assert Value([a, b]) == 0x100 * a + b;
    assert Value([a, b, c]) == 0x100 * (0x100 * a + b) + c;
  }

  lemma FourDigits(y: u32)
    ensures Digits(y, 4) == [(y / 0x100_0000) % 0x100, (y / 0x1_0000) % 0x100, (y / 0x100) % 0x100, y % 0x100]
  {
    assert y / 0x100 / 0x100 == y / 0x1_0000;
    assert y / 0x1_0000 / 0x100 == y / 0x100_0000;
    assert Digits(y / 0x100_0000, 1) == Digits(y / 0x100_0000 / 0x100, 0) + [(y / 0x100_0000) % 0x100]
        == [(y / 0x100_0000) % 0x100];
    assert Digits(y / 0x1_0000, 2) == Digits(y / 0x100_0000, 1) + [(y / 0x1_0000) % 0x100];
    assert Digits(y / 0x100, 3) == Digits(y / 0x1_0000, 2) + [(y / 0x100) % 0x100];
  }
}
