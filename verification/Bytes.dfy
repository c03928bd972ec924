/** Bytes, fixed-width counters and the big-endian fields the wire formats use. */
module Bytes {
  type byte = x: int | 0 <= x < 0x100

  const U16: int := 0x1_0000
  const U32: int := 0x1_0000_0000

  /** Whether the bit of weight `weight` (a power of two) is set in `b`. */
  predicate Bit(b: byte, weight: nat)
    requires weight > 0
  {
    (b / weight) % 2 == 1
  }

  function Be16(n: int): (s: seq<byte>)
    requires 0 <= n < U16
    ensures |s| == 2
  {
    [n / 0x100, n % 0x100]
  }

  function Be32(n: int): (s: seq<byte>)
    requires 0 <= n < U32
    ensures |s| == 4
  {
    [n / 0x100 / 0x100 / 0x100, n / 0x100 / 0x100 % 0x100, n / 0x100 % 0x100, n % 0x100]
  }

  function ReadBe16(s: seq<byte>, at: nat): (n: nat)
    requires at + 2 <= |s|
    ensures n < U16
  {
    (s[at] as int) * 0x100 + s[at + 1]
  }

  function ReadBe32(s: seq<byte>, at: nat): (n: nat)
    requires at + 4 <= |s|
    ensures n < U32
  {
    (((s[at] as int) * 0x100 + s[at + 1]) * 0x100 + s[at + 2]) * 0x100 + s[at + 3]
  }

  lemma Base256(hi: int, lo: byte, n: int)
    ensures hi * 0x100 + lo == n <==> hi == n / 0x100 && lo == n % 0x100
  {
  }

  /** Reading back a 32-bit field that stands at `at`, in both directions. */
  lemma Be32Field(s: seq<byte>, at: nat, n: int)
    requires at + 4 <= |s| && 0 <= n < U32
    ensures s[at..at + 4] == Be32(n) <==> ReadBe32(s, at) == n
  {
    var f := s[at..at + 4];
    assert f[0] == s[at] && f[1] == s[at + 1] && f[2] == s[at + 2] && f[3] == s[at + 3];
    var two := (s[at] as int) * 0x100 + s[at + 1];
    Base256(two * 0x100 + s[at + 2], s[at + 3], n);
    Base256(two, s[at + 2], n / 0x100);
    Base256(s[at], s[at + 1], n / 0x100 / 0x100);
    assert f == Be32(n) <==> f[0] == Be32(n)[0] && f[1] == Be32(n)[1] && f[2] == Be32(n)[2] && f[3] == Be32(n)[3];
  }

  /** The number four bytes stand for, the first the most significant. */
  function Quad(a: int, b: int, c: int, d: int): int {
    16777216 * a + 65536 * b + 256 * c + d
  }

  /** The fields are big-endian. */
  lemma BigEndian(n: int)
    ensures 0 <= n < U16 ==> n == Quad(0, 0, Be16(n)[0], Be16(n)[1])
    ensures 0 <= n < U32 ==> n == Quad(Be32(n)[0], Be32(n)[1], Be32(n)[2], Be32(n)[3])
  {
  }

  lemma ReadBigEndian(s: seq<byte>, at: nat)
    requires at + 2 <= |s|
    ensures ReadBe16(s, at) == Quad(0, 0, s[at], s[at + 1])
    ensures at + 4 <= |s| ==> ReadBe32(s, at) == Quad(s[at], s[at + 1], s[at + 2], s[at + 3])
  {
  }
}
