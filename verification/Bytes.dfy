// Byte strings: little-endian words in them, and parts of them overwritten.
module Bytes {
  import opened Words

  function GetU32(b: seq<byte>, o: nat): (v: u32)
    requires o + 4 <= |b|
  {
    var b0: int, b1: int, b2: int, b3: int := b[o], b[o + 1], b[o + 2], b[o + 3];
    b0 + 0x100 * b1 + 0x1_0000 * b2 + 0x100_0000 * b3
  }

  function SetU32(b: seq<byte>, o: nat, v: u32): (r: seq<byte>)
    requires o + 4 <= |b|
    ensures |r| == |b|
  {
    b[o := v % 0x100][o + 1 := v / 0x100 % 0x100][o + 2 := v / 0x1_0000 % 0x100][o + 3 := v / 0x100_0000]
  }

  lemma {:induction false} SetGet(b: seq<byte>, o: nat, v: u32)
    requires o + 4 <= |b|
    ensures GetU32(SetU32(b, o, v), o) == v
  {
    assert v / 0x1_0000 == v / 0x100 / 0x100 && v / 0x100_0000 == v / 0x1_0000 / 0x100;
  }

  // The bytes of a word from their sum.
  lemma {:induction false} Digits(w: int, d0: int, d1: int, d2: int, top: int)
    requires 0 <= d0 < 256 && 0 <= d1 < 256 && 0 <= d2 < 256 && w == d0 + 256 * d1 + 65536 * d2 + 16777216 * top
    ensures w % 256 == d0 && w / 256 % 256 == d1 && w / 65536 % 256 == d2 && w / 16777216 == top
  {
    LastDigit(w, d0, d1 + 256 * d2 + 65536 * top);
    LastDigit(w / 256, d1, d2 + 256 * top);
    LastDigit(w / 256 / 256, d2, top);
    assert w / 65536 == w / 256 / 256 && w / 16777216 == w / 65536 / 256;
  }

  lemma LastDigit(w: int, d: int, rest: int)
    requires 0 <= d < 256 && w == d + 256 * rest
    ensures w % 256 == d && w / 256 == rest
  {}

  lemma SetElsewhere(b: seq<byte>, o: nat, v: u32, p: nat)
    requires o + 4 <= |b| && p + 4 <= |b| && (p + 4 <= o || o + 4 <= p)
    ensures GetU32(SetU32(b, o, v), p) == GetU32(b, p)
  {}

  // ----- a string with d written at a position -----

  function Splice(s: seq<byte>, at: nat, d: seq<byte>): (r: seq<byte>)
    requires at + |d| <= |s|
    ensures |r| == |s|
  {
    s[..at] + d + s[at + |d|..]
  }

  lemma SpliceTwice(s: seq<byte>, at: nat, x: seq<byte>, y: seq<byte>)
    requires at + |x| + |y| <= |s|
    ensures Splice(Splice(s, at, x), at + |x|, y) == Splice(s, at, x + y)
  {}

  lemma SpliceLeft(a: seq<byte>, b: seq<byte>, at: nat, d: seq<byte>)
    requires at + |d| <= |a|
    ensures Splice(a + b, at, d) == Splice(a, at, d) + b
  {}

  lemma SpliceRight(a: seq<byte>, b: seq<byte>, at: nat, d: seq<byte>)
    requires at + |d| <= |b|
    ensures Splice(a + b, |a| + at, d) == a + Splice(b, at, d)
  {}

  lemma SpliceReadBack(s: seq<byte>, at: nat, d: seq<byte>)
    requires at + |d| <= |s|
    ensures Splice(s, at, d)[at..at + |d|] == d
  {}
}
