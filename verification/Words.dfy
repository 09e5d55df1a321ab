// Machine words: u32 is `unsigned long` on mips32, s32 is `long`; byte is u8.
module Words {
  const TWO32: int := 0x1_0000_0000
  const TWO31: int := 0x8000_0000

  type u32 = x: int | 0 <= x < TWO32
  type byte = x: int | 0 <= x < 256

  function Add32(a: u32, b: u32): u32 {
    (a + b) % TWO32
  }

  function Sub32(a: u32, b: u32): u32 {
    (a - b) % TWO32
  }

  function Mul32(a: u32, b: u32): u32 {
    (a * b) % TWO32
  }

  // The value of the same bits read as a signed word.
  function Signed(a: u32): int {
    if a < TWO31 then a else a - TWO32
  }

  // A wrapped running sum stays the sum modulo 2^32.
  lemma WrappedSum(total: nat, a: u32)
    ensures Add32(total % TWO32, a) == (total + a) % TWO32
  {}

  lemma WrappedDifference(total: nat, a: u32)
    requires a <= total
    ensures Sub32(total % TWO32, a) == (total - a) % TWO32
  {}
}
