/** 32-bit unsigned words and the circular order on them that KCP compares sequence
    numbers and timestamps with. */
module Serial {

  const TWO31 := 0x8000_0000
  const TWO32 := 0x1_0000_0000

  type byte = x: int | 0 <= x < 0x100
  type u16 = x: int | 0 <= x < 0x1_0000
  type u32 = x: int | 0 <= x < 0x1_0000_0000
  type u64 = x: int | 0 <= x < 0x1_0000_0000_0000_0000

  /** Addition of 32-bit words, wrapping. */
  function Add(a: u32, n: u32): u32 {
    if a + n < TWO32 then a + n else a + n - TWO32
  }

  /** Subtraction of 32-bit words, wrapping: how far a lies ahead of b on the circle. */
  function Sub(a: u32, b: u32): u32 {
    if b <= a then a - b else a - b + TWO32
  }

  /** The difference read as a signed 32-bit word. */
  function TimeDiff(later: u32, earlier: u32): int {
    var d := Sub(later, earlier);
    if d < TWO31 then d else d - TWO32
  }

  /** The value of a 32-bit word read as signed. */
  function Signed(x: u32): int {
    if x < TWO31 then x else x - TWO32
  }

  /** Storing a number that is not negative in a 32-bit word keeps its low bits. */
  function Narrow(x: nat): u32 {
    x % TWO32
  }

  /** A size stored in an int is itself or smaller, and itself only below 2^31. */
  lemma NarrowAtMost(x: nat)
    ensures Signed(Narrow(x)) <= x && (Signed(Narrow(x)) == x <==> x < TWO31)
    ensures TWO31 <= x <= TWO32 ==> Signed(Narrow(x)) <= 0
  {
  }

  function Min(a: int, b: int): int {
    if a <= b then a else b
  }

  function Max(a: int, b: int): int {
    if a >= b then a else b
  }

  /** The two signed comparisons that guard a window of width w together accept exactly the
      numbers less than w ahead of its base, wherever on the circle the base lies. */
  lemma WindowTest(sn: u32, base: u32, w: u32)
    requires w <= TWO31
    ensures TimeDiff(sn, Add(base, w)) < 0 && TimeDiff(sn, base) >= 0 <==> Sub(sn, base) < w
  {
  }

  /** Between two numbers both less than half the circle ahead of a common base, the signed
      difference is the difference of their distances from the base. */
  lemma DiffFromBase(a: u32, b: u32, base: u32)
    requires Sub(a, base) < TWO31 && Sub(b, base) < TWO31
    ensures TimeDiff(a, b) == Sub(a, base) - Sub(b, base)
    ensures a == b <==> Sub(a, base) == Sub(b, base)
  {
  }

  /** Moving the base forward by m shortens every distance that is at least m by m. */
  lemma Rebase(a: u32, base: u32, base': u32)
    requires Sub(base', base) <= Sub(a, base)
    ensures Sub(a, base') == Sub(a, base) - Sub(base', base)
  {
  }
}
