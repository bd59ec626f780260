/** Bytes, and 32-bit integers as four of them, least significant first. */
module Bytes {

  newtype byte = x: int | 0 <= x < 256

  newtype int32 = x: int | -0x8000_0000 <= x < 0x8000_0000

  const INT32_MAX: nat := 0x7fff_ffff

  function Encode32(x: int32): (s: seq<byte>)
    ensures |s| == 4
  {
    var u := if x < 0 then x as int + 0x1_0000_0000 else x as int;
    [(u % 256) as byte, (u / 0x100 % 256) as byte, (u / 0x1_0000 % 256) as byte, (u / 0x100_0000 % 256) as byte]
  }

  function Decode32(s: seq<byte>): (x: int32)
    requires |s| == 4
  {
    var u := s[0] as int + s[1] as int * 0x100 + s[2] as int * 0x1_0000 + s[3] as int * 0x100_0000;
    if u >= 0x8000_0000 then (u - 0x1_0000_0000) as int32 else u as int32
  }

  lemma Int32RoundTrip(x: int32)
    ensures Decode32(Encode32(x)) == x
  {
    var u := if x < 0 then x as int + 0x1_0000_0000 else x as int;
    assert u / 0x1_0000 == u / 0x100 / 256 && u / 0x100_0000 == u / 0x1_0000 / 256;
  }

  /** The four bytes add up to the integer, least significant first; a negative one
      is stored as its complement. */
  lemma Int32Bytes(x: int32)
    ensures var s := Encode32(x);
      s[0] as int + s[1] as int * 256 + s[2] as int * 65536 + s[3] as int * 16777216
        == if x < 0 then x as int + 4294967296 else x as int
  {
    var u := if x < 0 then x as int + 0x1_0000_0000 else x as int;
    assert u / 0x1_0000 == u / 0x100 / 256 && u / 0x100_0000 == u / 0x1_0000 / 256;
  }

  lemma BytesRoundTrip(s: seq<byte>)
    requires |s| == 4
    ensures Encode32(Decode32(s)) == s
  {
    var a, b, c, d := s[0] as int, s[1] as int, s[2] as int, s[3] as int;
    var u := a + b * 0x100 + c * 0x1_0000 + d * 0x100_0000;
    FourBytes(a, b, c, d);
    assert u / 0x100 == b + c * 0x100 + d * 0x1_0000 && u / 0x1_0000 == c + d * 0x100 && u / 0x100_0000 == d;
    var t := Encode32(Decode32(s));
    assert t[0] == s[0] && t[1] == s[1] && t[2] == s[2] && t[3] == s[3];
  }

  lemma FourBytes(a: int, b: int, c: int, d: int)
    requires 0 <= a < 256 && 0 <= b < 256 && 0 <= c < 256 && 0 <= d < 256
    ensures var u := a + b * 0x100 + c * 0x1_0000 + d * 0x100_0000;
      && u % 256 == a && u / 0x100 == b + c * 0x100 + d * 0x1_0000 && u / 0x100 % 256 == b
      && u / 0x1_0000 == c + d * 0x100 && u / 0x1_0000 % 256 == c
      && u / 0x100_0000 == d && u / 0x100_0000 % 256 == d
  {
  }
}
