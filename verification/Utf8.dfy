/** UTF-16 escapes and UTF-8, as the JSON decoder converts one into the other. */
module Utf8 {
  import opened Bits
  import opened Options
  import opened Serial

  /** The byte at a position of a text that ends with a terminator. */
  function At(text: seq<byte>, p: nat): byte {
    if p < |text| then text[p] else 0
  }

  /** The value of a hexadecimal digit of either case, or -1. */
  function HexDigit(h: byte): (d: int)
    ensures -1 <= d < 16
  {
    if 48 <= h <= 57 then h - 48
    else
      var lower := if h / 32 % 2 == 0 then h + 32 else h;
      if 97 <= lower <= 102 then 10 + lower - 97 else -1
  }

  /** The value of four hexadecimal digits, or -1. */
  function Hex4(text: seq<byte>, p: nat): (c: int)
    ensures -1 <= c <= 0xFFFF
    ensures c >= 0 ==> p + 4 <= |text|
  {
    var a, b := HexDigit(At(text, p)), HexDigit(At(text, p + 1));
    var c, d := HexDigit(At(text, p + 2)), HexDigit(At(text, p + 3));
    if a < 0 || b < 0 || c < 0 || d < 0 then -1 else a * 4096 + b * 256 + c * 16 + d
  }

  /** The bytes that carry a code point, by its size. */
  function ToUtf8(c: nat): (s: seq<byte>)
    requires c <= 0x1FFFFF
    ensures 1 <= |s| <= 4
  {
    if c <= 0x7F then [c]
    else if c <= 0x7FF then [c / 64 + 0xC0, c % 64 + 0x80]
    else if c <= 0xFFFF then [c / 4096 + 0xE0, c / 64 % 64 + 0x80, c % 64 + 0x80]
    else [c / 262144 + 0xF0, c / 4096 % 64 + 0x80, c / 64 % 64 + 0x80, c % 64 + 0x80]
  }

  /** Shifts and masks take out the digits of a code point to the base 64. */
  lemma CodePointDigits(c: nat)
    requires c <= 0x1FFFFF
    ensures BitAnd(c, 0x3F) == c % 64
    ensures ShiftRight(c, 6) == c / 64 && BitAnd(ShiftRight(c, 6), 0x3F) == c / 64 % 64
    ensures ShiftRight(c, 12) == c / 4096 && BitAnd(ShiftRight(c, 12), 0x3F) == c / 4096 % 64
    ensures ShiftRight(c, 18) == c / 262144
  {
    hide BitAnd, ShiftRight;
    Powers();
    MaskIsRemainder(c, 6);
    ShiftIsQuotient(c, 6);
    ShiftIsQuotient(c, 12);
    ShiftIsQuotient(c, 18);
    MaskIsRemainder(c / 64, 6);
    MaskIsRemainder(c / 4096, 6);
  }

  /** Combining a lead or continuation marker with its payload by `or` is adding it: the two never
      share a bit. */
  lemma MarkersAdd(d: nat)
    ensures d < 64 ==> BitOr(d, 0x80) == d + 0x80
    ensures d < 32 ==> BitOr(d, 0xC0) == d + 0xC0
    ensures d < 16 ==> BitOr(d, 0xE0) == d + 0xE0
    ensures d < 8 ==> BitOr(d, 0xF0) == d + 0xF0
  {
    hide BitOr;
    Powers();
    assert ShiftLeft(2, 6) == 0x80 && ShiftLeft(3, 6) == 0xC0 && ShiftLeft(7, 5) == 0xE0 && ShiftLeft(15, 4) == 0xF0 by {
      assert ShiftLeft(2, 3) == 16 && ShiftLeft(3, 3) == 24 && ShiftLeft(7, 3) == 56 && ShiftLeft(15, 2) == 60;
    }
    assert Power2(4) == 16;
    if d < 64 {
      OrApart(d, 2, 6);
      OrApart(d, 3, 6);
    }
    if d < 32 { OrApart(d, 7, 5); }
    if d < 16 { OrApart(d, 15, 4); }
  }

  /** The tests for surrogates and their payloads, by mask and by quotient. */
  lemma SurrogateBits(u: nat)
    requires u < 0x1_0000
    ensures BitAnd(u, 0xF800) == 0xD800 <==> u / 0x800 == 0x1B
    ensures BitAnd(u, 0x400) != 0 <==> u / 0x400 % 2 == 1
    ensures BitAnd(u, 0xFC00) == 0xDC00 <==> u / 0x400 == 0x37
    ensures BitAnd(u, 0x3FF) == u % 0x400
  {
    hide BitAnd, ShiftRight, ShiftLeft;
    Powers();
    Masks();
    AndHigh(u, 31, 11);
    AndHigh(u, 1, 10);
    AndHigh(u, 63, 10);
    ShiftIsQuotient(u, 11);
    ShiftIsQuotient(u, 10);
    MaskIsRemainder(u / 0x800, 5);
    MaskIsRemainder(u / 0x400, 6);
    OneBit(u / 0x400);
    MaskIsRemainder(u, 10);
    ShiftLeftEqual(BitAnd(u / 0x800, 31), 0x1B, 11);
    ShiftLeftEqual(BitAnd(u / 0x400, 1), 0, 10);
    ShiftLeftEqual(BitAnd(u / 0x400, 63), 0x37, 10);
  }

  lemma OneBit(a: nat)
    ensures BitAnd(a, 1) == a % 2
  {
  }

  lemma Masks()
    ensures ShiftLeft(31, 11) == 0xF800 && ShiftLeft(0x1B, 11) == 0xD800 && ShiftLeft(1, 10) == 0x400
    ensures ShiftLeft(63, 10) == 0xFC00 && ShiftLeft(0x37, 10) == 0xDC00
  {
    assert ShiftLeft(31, 6) == 31 * 64 && ShiftLeft(0x1B, 6) == 0x1B * 64 && ShiftLeft(1, 5) == 32;
    assert ShiftLeft(63, 5) == 63 * 32 && ShiftLeft(0x37, 5) == 0x37 * 32;
  }

  /** The payloads of a pair, put side by side. */
  lemma PairBits(hi: nat, lo: nat)
    requires hi < 0x400 && lo < 0x400
    ensures BitOr(ShiftLeft(hi, 10), lo) == hi * 0x400 + lo
  {
    hide BitOr, ShiftLeft;
    Powers();
    OrApart(lo, hi, 10);
    ShiftLeftIs(hi, 10);
  }

  /** What a code point may be: section 3 of RFC 3629 excludes the surrogates. */
  predicate Scalar(c: int) {
    0 <= c <= 0x10FFFF && !(0xD800 <= c <= 0xDFFF)
  }

  predicate Continuation(b: byte) {
    0x80 <= b <= 0xBF
  }

  /** The scalar value of a well-formed UTF-8 sequence: section 4 of RFC 3629, which admits only
      the shortest form and no surrogates. */
  function FromUtf8(s: seq<byte>): (c: Option<int>)
    ensures c.Some? ==> Scalar(c.value)
  {
    if |s| == 1 then
      if s[0] <= 0x7F then Some(s[0]) else None
    else if |s| == 2 then
      var a: int, b: int := s[0], s[1];
      if 0xC2 <= a <= 0xDF && Continuation(b) then Some((a - 0xC0) * 64 + (b - 0x80)) else None
    else if |s| == 3 then
      var a: int, b: int, c: int := s[0], s[1], s[2];
      if 0xE0 <= a <= 0xEF && Continuation(b) && Continuation(c) && (a == 0xE0 ==> b >= 0xA0) && (a == 0xED ==> b <= 0x9F)
      then Some((a - 0xE0) * 4096 + (b - 0x80) * 64 + (c - 0x80)) else None
    else if |s| == 4 then
      var a: int, b: int, c: int, d: int := s[0], s[1], s[2], s[3];
      if 0xF0 <= a <= 0xF4 && Continuation(b) && Continuation(c) && Continuation(d)
         && (a == 0xF0 ==> b >= 0x90) && (a == 0xF4 ==> b <= 0x8F)
      then Some((a - 0xF0) * 262144 + (b - 0x80) * 4096 + (c - 0x80) * 64 + (d - 0x80)) else None
    else None
  }

  lemma Digits2(c: nat)
    ensures c == c / 64 * 64 + c % 64
  {
  }

  lemma Digits3(c: nat)
    ensures c == c / 4096 * 4096 + c / 64 % 64 * 64 + c % 64
  {
    Digits2(c);
    assert c / 64 == c / 64 / 64 * 64 + c / 64 % 64;
    assert c / 64 / 64 == c / 4096;
  }

  lemma Digits4(c: nat)
    ensures c == c / 262144 * 262144 + c / 4096 % 64 * 4096 + c / 64 % 64 * 64 + c % 64
  {
    Digits3(c);
    assert c / 4096 == c / 4096 / 64 * 64 + c / 4096 % 64;
    assert c / 4096 / 64 == c / 262144;
  }

  lemma RoundTrip3(c: nat)
    requires Scalar(c) && 0x7FF < c <= 0xFFFF
    ensures FromUtf8(ToUtf8(c)) == Some(c)
  {
    Digits3(c);
  }

  lemma RoundTrip4(c: nat)
    requires Scalar(c) && 0xFFFF < c
    ensures FromUtf8(ToUtf8(c)) == Some(c)
  {
    Digits4(c);
  }

  /** Every scalar value is written as its one well-formed UTF-8 sequence. */
  lemma Utf8RoundTrip(c: nat)
    requires Scalar(c)
    ensures FromUtf8(ToUtf8(c)) == Some(c)
  {
    if c > 0xFFFF {
      RoundTrip4(c);
    } else if c > 0x7FF {
      RoundTrip3(c);
    } else if c > 0x7F {
      Digits2(c);
    }
  }

  /** The bytes of an escape sequence, and how many characters it takes. */
  datatype Escaped = Escaped(bytes: seq<byte>, size: nat)

  /** A \\u escape at p, whose backslash and u are already seen: one code unit, or a surrogate pair. */
  function UnicodeEscape(text: seq<byte>, p: nat): (r: Option<Escaped>)
    ensures r.Some? ==> 1 <= |r.value.bytes| <= r.value.size && p + r.value.size <= |text|
  {
    var unit := Hex4(text, p + 2);
    if unit < 0 then None
    else if unit / 0x800 != 0x1B then
      Some(Escaped(ToUtf8(unit), 6))
    else if unit / 0x400 % 2 == 1 then None
    else if At(text, p + 6) != 92 || At(text, p + 7) != 117 then None
    else
      var low := Hex4(text, p + 8);
      if low < 0 || low / 0x400 != 0x37 then None
      else Some(Escaped(ToUtf8(unit % 0x400 * 0x400 + low % 0x400 + 0x10000), 12))
  }

  /** Section 2.1 of RFC 2781: the code units of a scalar value. */
  function Units(c: nat): (u: seq<nat>)
    requires Scalar(c)
  {
    if c < 0x10000 then [c] else [0xD800 + (c - 0x10000) / 0x400, 0xDC00 + (c - 0x10000) % 0x400]
  }

  /** The text at p spells the code unit u as an escape, in digits of any case. */
  predicate Spells(text: seq<byte>, p: nat, u: nat) {
    At(text, p) == 92 && At(text, p + 1) == 117 && Hex4(text, p + 2) == u
  }

  predicate SpellsLow(text: seq<byte>, p: nat) {
    At(text, p) == 92 && At(text, p + 1) == 117 && 0xDC00 <= Hex4(text, p + 2) <= 0xDFFF
  }

  /** The text at p spells a scalar value as one escape or as a surrogate pair. */
  predicate SpellsScalar(text: seq<byte>, p: nat, c: nat)
    requires Scalar(c)
  {
    Spells(text, p, Units(c)[0]) && (|Units(c)| == 2 ==> Spells(text, p + 6, Units(c)[1]))
  }

  /** The spelling of a scalar value yields its UTF-8. */
  lemma EscapeDecodes(text: seq<byte>, p: nat, c: nat)
    requires Scalar(c) && SpellsScalar(text, p, c)
    ensures UnicodeEscape(text, p) == Some(Escaped(ToUtf8(c), 6 * |Units(c)|))
  {
    hide Hex4, ToUtf8;
    if c >= 0x10000 {
      PairValue((c - 0x10000) / 0x400, (c - 0x10000) % 0x400);
    }
  }

  lemma PairValue(hi: nat, lo: nat)
    requires hi < 0x400 && lo < 0x400
    ensures (0xD800 + hi) % 0x400 == hi && (0xDC00 + lo) % 0x400 == lo
    ensures (0xD800 + hi) / 0x800 == 0x1B && (0xD800 + hi) / 0x400 % 2 == 0 && (0xDC00 + lo) / 0x400 == 0x37
    ensures (hi * 0x400 + lo) / 0x400 == hi && (hi * 0x400 + lo) % 0x400 == lo
  {
  }

  /** And nothing else does: an escape that succeeds spells a scalar value. */
  lemma EscapeSpells(text: seq<byte>, p: nat) returns (c: nat)
    requires At(text, p) == 92 && At(text, p + 1) == 117
    requires UnicodeEscape(text, p).Some?
    ensures Scalar(c) && SpellsScalar(text, p, c)
  {
    hide Hex4, ToUtf8;
    var unit := Hex4(text, p + 2);
    if unit / 0x800 != 0x1B {
      c := unit;
    } else {
      var hi, lo := unit - 0xD800, Hex4(text, p + 8) - 0xDC00;
      PairValue(hi, lo);
      c := hi * 0x400 + lo + 0x10000;
    }
  }

  /** A surrogate that is not the first of a pair is rejected. */
  lemma UnpairedRejected(text: seq<byte>, p: nat, u: nat)
    requires Spells(text, p, u) && 0xD800 <= u <= 0xDFFF
    requires u >= 0xDC00 || !SpellsLow(text, p + 6)
    ensures UnicodeEscape(text, p) == None
  {
    hide Hex4, ToUtf8;
  }
}
