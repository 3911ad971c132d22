/** Bitwise operations on numbers, and what they are for powers of two. */
module Bits {

  function Power2(k: nat): (p: nat)
    ensures p > 0
  {
    if k == 0 then 1 else 2 * Power2(k - 1)
  }

  /** Shifting right by k bits. */
  function ShiftRight(a: nat, k: nat): nat {
    if k == 0 then a else ShiftRight(a / 2, k - 1)
  }

  /** Bitwise and. */
  function BitAnd(a: nat, b: nat): (r: nat)
    ensures r <= b
  {
    if a == 0 || b == 0 then 0 else (a % 2) * (b % 2) + 2 * BitAnd(a / 2, b / 2)
  }

  /** Bitwise or. */
  function BitOr(a: nat, b: nat): nat {
    if a == 0 then b
    else if b == 0 then a
    else (if a % 2 == 1 || b % 2 == 1 then 1 else 0) + 2 * BitOr(a / 2, b / 2)
  }

  lemma BitAndStep(a: nat, p: nat)
    requires p > 0
    ensures BitAnd(a, 2 * p - 1) == a % 2 + 2 * BitAnd(a / 2, p - 1)
  {
    assert (2 * p - 1) / 2 == p - 1 && (2 * p - 1) % 2 == 1;
  }

  /** With a power of two the mask takes the remainder, so that every value below it is reached. */
  lemma {:induction false} MaskIsRemainder(a: nat, k: nat)
    ensures BitAnd(a, Power2(k) - 1) == a % Power2(k)
  {
    hide BitAnd;
    if k == 0 {
      NoBits(a);
    } else {
      var p := Power2(k - 1);
      MaskIsRemainder(a / 2, k - 1);
      BitAndStep(a, p);
      HalfRemainder(a, p);
    }
  }

  lemma NoBits(a: nat)
    ensures BitAnd(a, 0) == 0
  {
  }

  lemma {:induction false} ShiftIsQuotient(a: nat, k: nat)
    ensures ShiftRight(a, k) == a / Power2(k)
  {
    if k > 0 {
      ShiftIsQuotient(a / 2, k - 1);
      HalfRemainder(a, Power2(k - 1));
    }
  }

  lemma {:induction false} ShiftTwice(a: nat, j: nat, k: nat)
    ensures ShiftRight(ShiftRight(a, j), k) == ShiftRight(a, j + k)
  {
    if j > 0 {
      ShiftTwice(a / 2, j - 1, k);
    }
  }

  lemma HalfRemainder(a: nat, p: nat)
    requires p > 0
    ensures a % 2 + 2 * ((a / 2) % p) == a % (2 * p)
    ensures (a / 2) / p == a / (2 * p)
  {
    var q, r := (a / 2) / p, (a / 2) % p;
    assert a == 2 * (a / 2) + a % 2 && a / 2 == q * p + r;
    assert a == q * (2 * p) + (2 * r + a % 2);
    RemainderIs(a, 2 * p, q, 2 * r + a % 2);
  }

  lemma RemainderIs(a: int, n: int, q: int, r: int)
    requires n > 0 && 0 <= r < n && a == q * n + r
    ensures a % n == r && a / n == q
  {
    var d := a / n - q;
    assert a == (a / n) * n + a % n;
    assert d * n == r - a % n;
    assert d == 0 by {
      if d >= 1 || d <= -1 {
        SmallMultiple(d, n);
      }
    }
  }

  lemma SmallMultiple(d: int, n: int)
    requires n > 0
    ensures d >= 1 ==> d * n >= n
    ensures d <= -1 ==> d * n <= -n
  {
  }

  /** Shifting left by k bits. */
  function ShiftLeft(a: nat, k: nat): nat {
    if k == 0 then a else 2 * ShiftLeft(a, k - 1)
  }

  lemma {:induction false} ShiftLeftEqual(a: nat, b: nat, k: nat)
    ensures ShiftLeft(a, k) == ShiftLeft(b, k) <==> a == b
    ensures ShiftLeft(0, k) == 0
  {
    if k > 0 {
      ShiftLeftEqual(a, b, k - 1);
    }
  }

  lemma {:induction false} ShiftLeftIs(a: nat, k: nat)
    ensures ShiftLeft(a, k) == a * Power2(k)
  {
    if k > 0 {
      ShiftLeftIs(a, k - 1);
      DoubleProduct(a, Power2(k - 1), Power2(k));
    }
  }

  lemma DoubleProduct(a: nat, h: nat, p: nat)
    requires p == 2 * h
    ensures a * p == 2 * (a * h)
  {
  }

  /** Setting the k lowest bits. */
  lemma {:induction false} OrLow(a: nat, k: nat)
    ensures BitOr(a, Power2(k) - 1) == ShiftLeft(ShiftRight(a, k), k) + Power2(k) - 1
  {
    if k > 0 {
      OrLow(a / 2, k - 1);
      var h := Power2(k - 1);
      assert (2 * h - 1) / 2 == h - 1 && (2 * h - 1) % 2 == 1;
      if a == 0 {
        assert BitOr(a / 2, h - 1) == h - 1;
      }
    }
  }

  /** Words agree once the k lowest bits are set exactly if their quotients do. */
  lemma MaskedEqual(x: nat, y: nat, k: nat)
    ensures BitOr(x, Power2(k) - 1) == BitOr(y, Power2(k) - 1) <==> x / Power2(k) == y / Power2(k)
  {
    hide BitOr, Power2, ShiftRight, ShiftLeft;
    OrLow(x, k);
    OrLow(y, k);
    ShiftLeftEqual(ShiftRight(x, k), ShiftRight(y, k), k);
    ShiftIsQuotient(x, k);
    ShiftIsQuotient(y, k);
  }

  /** Combining a number below a power of two with a multiple of it is adding them. */
  lemma {:induction false} OrApart(a: nat, b: nat, k: nat)
    requires a < Power2(k)
    ensures BitOr(a, ShiftLeft(b, k)) == a + ShiftLeft(b, k) == BitOr(ShiftLeft(b, k), a)
  {
    if k > 0 {
      OrApart(a / 2, b, k - 1);
      var m := ShiftLeft(b, k - 1);
      assert (2 * m) / 2 == m && (2 * m) % 2 == 0;
    }
  }

  /** Masking high bits masks the quotient. */
  lemma {:induction false} AndHigh(a: nat, m: nat, k: nat)
    ensures BitAnd(a, ShiftLeft(m, k)) == ShiftLeft(BitAnd(ShiftRight(a, k), m), k)
  {
    if k > 0 {
      AndHigh(a / 2, m, k - 1);
      AndEven(a, ShiftLeft(m, k - 1));
    }
  }

  lemma AndEven(a: nat, b: nat)
    ensures BitAnd(a, 2 * b) == 2 * BitAnd(a / 2, b)
  {
    assert (2 * b) / 2 == b && (2 * b) % 2 == 0;
  }

  lemma Powers()
    ensures Power2(5) == 0x20 && Power2(6) == 0x40 && Power2(8) == 0x100 && Power2(10) == 0x400
    ensures Power2(11) == 0x800 && Power2(12) == 0x1000 && Power2(14) == 0x4000 && Power2(18) == 0x4_0000
    ensures Power2(20) == 0x10_0000 && Power2(26) == 0x400_0000
  {
    assert Power2(4) == 16;
  }
}
