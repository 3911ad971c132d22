/** The lexical level of JSON: string escapes and numbers. */
module JsonText {
  import opened Options
  import opened Serial
  import opened Utf8

  /** s stands in the text at position p. */
  predicate Holds(text: seq<byte>, p: nat, s: seq<byte>) {
    p + |s| <= |text| && text[p..p + |s|] == s
  }

  lemma HoldsSplit(text: seq<byte>, p: nat, a: seq<byte>, b: seq<byte>)
    requires Holds(text, p, a + b)
    ensures Holds(text, p, a) && Holds(text, p + |a|, b)
  {
    var c := a + b;
    assert c[..|a|] == a && c[|a|..] == b;
    assert text[p..p + |c|][..|a|] == text[p..p + |a|];
    assert text[p..p + |c|][|a|..] == text[p + |a|..p + |c|];
  }

  lemma HoldsAt(text: seq<byte>, p: nat, s: seq<byte>, i: nat)
    requires Holds(text, p, s) && i < |s|
    ensures At(text, p + i) == s[i] && p + i < |text|
  {
    assert text[p..p + |s|][i] == text[p + i];
  }

  // ---------------------------------------------------------------- strings

  function HexChar(d: nat): byte
    requires d < 16
  {
    if d < 10 then 48 + d else 87 + d
  }

  /** How the encoder writes one byte of a string. */
  function Escape(b: byte): (s: seq<byte>)
    ensures 1 <= |s| <= 6
  {
    if b == 8 then [92, 98]
    else if b == 9 then [92, 116]
    else if b == 10 then [92, 110]
    else if b == 12 then [92, 102]
    else if b == 13 then [92, 114]
    else if b == 34 || b == 47 || b == 92 then [92, b]
    else if b < 32 || b == 127 then [92, 117, 48, 48, HexChar(b / 16), HexChar(b % 16)]
    else [b]
  }

  function EscapeAll(s: seq<byte>): (r: seq<byte>)
    ensures |s| <= |r| <= 6 * |s|
  {
    if s == [] then [] else EscapeAll(s[..|s| - 1]) + Escape(s[|s| - 1])
  }

  function Quoted(s: seq<byte>): (r: seq<byte>)
    ensures |r| >= 2 && r[0] == 34
  {
    [34] + EscapeAll(s) + [34]
  }

  /** What the decoder makes of the character behind a backslash: the character meant, u for a
      code unit, or 0. */
  function Unescape(ch: byte): byte {
    if ch == 34 || ch == 92 || ch == 47 || ch == 117 then ch
    else if ch == 98 then 8
    else if ch == 116 then 9
    else if ch == 110 then 10
    else if ch == 102 then 12
    else if ch == 114 then 13
    else 0
  }

  datatype TextError = EndOfString | InvalidUnicode | InvalidEscape | InvalidNumber | InvalidToken

  datatype Chars = Chars(bytes: seq<byte>, next: nat) | Bad(error: TextError)

  function Prepend(s: seq<byte>, r: Chars): Chars {
    match r
    case Chars(bytes, next) => Chars(s + bytes, next)
    case Bad(_) => r
  }

  /** The rest of a string, read from p up to and past its closing quote. */
  function ParseChars(text: seq<byte>, p: nat): (r: Chars)
    requires p <= |text|
    ensures r.Chars? ==> p + |r.bytes| < r.next <= |text|
    decreases |text| - p
  {
    var ch := At(text, p);
    if ch == 34 then Chars([], p + 1)
    else if ch == 0 then Bad(EndOfString)
    else if ch == 92 then
      var e := Unescape(At(text, p + 1));
      if e == 117 then
        var u := UnicodeEscape(text, p);
        if u == None then Bad(InvalidUnicode)
        else Prepend(u.value.bytes, ParseChars(text, p + u.value.size))
      else if e == 0 then Bad(InvalidEscape)
      else Prepend([e], ParseChars(text, p + 2))
    else Prepend([ch], ParseChars(text, p + 1))
  }

  /** What a hexadecimal digit of either case stands for. */
  predicate HexMeans(ch: byte, d: int) {
    || (48 <= ch <= 57 && d == ch - 48)
    || (97 <= ch <= 102 && d == ch - 87)
    || (65 <= ch <= 70 && d == ch - 55)
  }

  /** Section 7 of RFC 8259, for one byte of a string: itself, unless it is a quote, a backslash or a control
      character; or an escape of two characters; or, for ASCII, the one of six. */
  predicate Denotes(s: seq<byte>, b: byte) {
    || (s == [b] && b >= 32 && b != 34 && b != 92)
    || (|s| == 2 && s[0] == 92 &&
        (s[1], b) in {(34, 34), (92, 92), (47, 47), (98, 8), (102, 12), (110, 10), (114, 13), (116, 9)})
    || (|s| == 6 && s[..4] == [92, 117, 48, 48] && b < 128 && HexMeans(s[4], b / 16) && HexMeans(s[5], b % 16))
  }

  /** The encoder's table is one of the ways to write a byte. */
  lemma EscapeDenotes(b: byte)
    ensures Denotes(Escape(b), b)
  {
    HexCharMeans(b / 16 % 16);
    HexCharMeans(b % 16);
    hide HexMeans, HexChar;
  }

  lemma HexCharMeans(d: nat)
    requires d < 16
    ensures HexMeans(HexChar(d), d)
  {
  }

  /** The decoder reads every way to write a byte as that byte. */
  lemma DenotedRead(text: seq<byte>, p: nat, s: seq<byte>, b: byte)
    requires Holds(text, p, s) && Denotes(s, b)
    ensures ParseChars(text, p) == Prepend([b], ParseChars(text, p + |s|))
  {
    hide Holds, UnicodeEscape, HexMeans;
    HoldsAt(text, p, s, 0);
    if |s| > 1 {
      HoldsAt(text, p, s, 1);
    }
    if |s| == 6 {
      UnitRead(text, p, s, b);
    }
  }

  lemma UnitRead(text: seq<byte>, p: nat, s: seq<byte>, b: byte)
    requires Holds(text, p, s) && |s| == 6 && Denotes(s, b)
    ensures UnicodeEscape(text, p) == Some(Escaped([b], 6))
  {
    hide Holds, UnicodeEscape, HexDigit, HexMeans;
    assert s[..4][2] == s[2] && s[..4][3] == s[3];
    HoldsAt(text, p, s, 2);
    HoldsAt(text, p, s, 3);
    HoldsAt(text, p, s, 4);
    HoldsAt(text, p, s, 5);
    SmallUnit(text, p, b);
  }

  lemma SmallUnit(text: seq<byte>, p: nat, b: byte)
    requires At(text, p + 2) == At(text, p + 3) == 48 && b < 128
    requires HexMeans(At(text, p + 4), b / 16) && HexMeans(At(text, p + 5), b % 16)
    ensures UnicodeEscape(text, p) == Some(Escaped([b], 6))
  {
    HexMeaning(At(text, p + 4), b / 16);
    HexMeaning(At(text, p + 5), b % 16);
    assert HexDigit(48) == 0;
    hide HexDigit, HexMeans;
  }

  /** The decoder takes hexadecimal digits for what they stand for, and nothing else for one. */
  lemma HexMeaning(ch: byte, d: int)
    ensures HexMeans(ch, d) <==> d >= 0 && HexDigit(ch) == d
  {
  }

  /** The decoder reads back every byte the encoder writes, escaped or not. */
  lemma ParseEscape(text: seq<byte>, p: nat, b: byte)
    requires Holds(text, p, Escape(b))
    ensures ParseChars(text, p) == Prepend([b], ParseChars(text, p + |Escape(b)|))
  {
    hide Holds, Escape, Denotes, ParseChars;
    EscapeDenotes(b);
    DenotedRead(text, p, Escape(b), b);
  }

  /** Behind a backslash everything else is an error; outside of escapes every character but quote, backslash and
      the terminator is taken as it is, control characters included. */
  lemma OtherRead(text: seq<byte>, p: nat)
    requires p < |text|
    ensures text[p] == 92 && At(text, p + 1) !in {34, 47, 92, 98, 102, 110, 114, 116, 117} ==>
      ParseChars(text, p) == Bad(InvalidEscape)
    ensures text[p] !in {0, 34, 92} ==> ParseChars(text, p) == Prepend([text[p]], ParseChars(text, p + 1))
  {
    hide UnicodeEscape;
  }

  lemma PrependTwice(a: seq<byte>, b: seq<byte>, r: Chars)
    ensures Prepend(a, Prepend(b, r)) == Prepend(a + b, r)
  {
    if r.Chars? {
      assert a + (b + r.bytes) == (a + b) + r.bytes;
    }
  }

  lemma {:induction false} ParseEscapes(text: seq<byte>, p: nat, s: seq<byte>)
    requires Holds(text, p, EscapeAll(s))
    ensures ParseChars(text, p) == Prepend(s, ParseChars(text, p + |EscapeAll(s)|))
  {
    hide ParseChars, Escape, EscapeAll, Prepend;
    EscapeAllLast(s);
    if s == [] {
      PrependNone(ParseChars(text, p));
    } else {
      var front, b := s[..|s| - 1], s[|s| - 1];
      HoldsSplit(text, p, EscapeAll(front), Escape(b));
      ParseEscapes(text, p, front);
      ParseEscape(text, p + |EscapeAll(front)|, b);
      PrependTwice(front, [b], ParseChars(text, p + |EscapeAll(s)|));
      assert front + [b] == s;
    }
  }

  lemma EscapeAllLast(s: seq<byte>)
    ensures if s == [] then EscapeAll(s) == [] else EscapeAll(s) == EscapeAll(s[..|s| - 1]) + Escape(s[|s| - 1])
  {
    hide Escape;
  }

  lemma PrependNone(r: Chars)
    ensures Prepend([], r) == r
  {
  }

  lemma QuotedParts(text: seq<byte>, p: nat, s: seq<byte>)
    requires Holds(text, p, Quoted(s))
    ensures var q := p + 1 + |EscapeAll(s)|;
      |Quoted(s)| == |EscapeAll(s)| + 2 && Holds(text, p + 1, EscapeAll(s)) && q < |text| && text[q] == 34
  {
    var e := EscapeAll(s);
    hide EscapeAll;
    assert Quoted(s) == [34] + (e + [34]);
    HoldsSplit(text, p, [34], e + [34]);
    HoldsSplit(text, p + 1, e, [34]);
    HoldsAt(text, p + 1 + |e|, [34], 0);
  }

  /** Every byte string survives being quoted and read back. */
  lemma QuotedRoundTrip(text: seq<byte>, p: nat, s: seq<byte>)
    requires Holds(text, p, Quoted(s))
    ensures ParseChars(text, p + 1) == Chars(s, p + |Quoted(s)|)
  {
    hide ParseChars, Quoted, Holds, EscapeAll;
    QuotedParts(text, p, s);
    ParseEscapes(text, p + 1, s);
    ParseQuote(text, p + 1 + |EscapeAll(s)|);
    assert s + [] == s;
  }

  lemma ParseQuote(text: seq<byte>, p: nat)
    requires p < |text| && text[p] == 34
    ensures ParseChars(text, p) == Chars([], p + 1)
  {
  }

  // ---------------------------------------------------------------- numbers

  const LLONG_MAX := 0x7FFF_FFFF_FFFF_FFFF
  const LLONG_MIN := -0x8000_0000_0000_0000

  function Digits(n: nat): (s: seq<byte>)
    ensures |s| > 0 && 48 <= s[0] <= 57 && (s[0] == 48 ==> s == [48] && n == 0)
  {
    if n < 10 then [48 + n] else Digits(n / 10) + [48 + n % 10]
  }

  /** An integer in decimal. */
  function IntText(n: int): (s: seq<byte>)
    ensures |s| > 0
  {
    if n < 0 then [45] + Digits(-n) else Digits(n)
  }

  datatype Number = Number(value: int, next: nat)

  predicate IsDigit(ch: byte, base: nat) {
    0 <= HexDigit(ch) < base
  }

  /** Reads digits as long as they belong to the base. */
  function Scan(text: seq<byte>, p: nat, base: nat, acc: nat): (r: Number)
    requires p <= |text| && base <= 16
    ensures p <= r.next <= |text| && r.value >= 0
    ensures IsDigit(At(text, p), base) ==> r.next > p
    decreases |text| - p
  {
    if p < |text| && IsDigit(At(text, p), base) then Scan(text, p + 1, base, acc * base + HexDigit(At(text, p)))
    else Number(acc, p)
  }

  /** A number without its sign: hexadecimal behind 0x, octal behind 0, decimal otherwise. */
  function Unsigned(text: seq<byte>, q: nat): (r: Number)
    requires q < |text| && IsDigit(At(text, q), 10)
    ensures q < r.next <= |text| && r.value >= 0
  {
    if At(text, q) != 48 then Scan(text, q, 10, 0)
    else if (At(text, q + 1) == 120 || At(text, q + 1) == 88) && IsDigit(At(text, q + 2), 16) then Scan(text, q + 2, 16, 0)
    else Scan(text, q, 8, 0)
  }

  /** strtoll with base 0, where no white space precedes: an optional sign, then the number; the value
      is clamped.  Without digits nothing is read. */
  function Strtoll(text: seq<byte>, p: nat): (r: Number)
    requires p <= |text|
    ensures p <= r.next <= |text| && LLONG_MIN <= r.value <= LLONG_MAX
  {
    var negative := At(text, p) == 45;
    var q := if At(text, p) == 45 || At(text, p) == 43 then p + 1 else p;
    if !IsDigit(At(text, q), 10) then Number(0, p)
    else
      var r := Unsigned(text, q);
      var v := if negative then -r.value else r.value;
      Number(if v > LLONG_MAX then LLONG_MAX else if v < LLONG_MIN then LLONG_MIN else v, r.next)
  }

  lemma ScanStep(text: seq<byte>, p: nat, acc: nat, d: nat)
    requires p < |text| && d < 10 && text[p] == 48 + d
    ensures Scan(text, p, 10, acc) == Scan(text, p + 1, 10, acc * 10 + d)
  {
  }

  lemma LastDigit(n: nat)
    ensures Digits(n) == if n < 10 then [48 + n] else Digits(n / 10) + [48 + n % 10]
  {
  }

  lemma {:induction false} ScanDigits(text: seq<byte>, p: nat, n: nat)
    requires Holds(text, p, Digits(n))
    ensures Scan(text, p, 10, 0) == Scan(text, p + |Digits(n)|, 10, n)
  {
    hide Scan, HexDigit, Holds, Digits;
    LastDigit(n);
    if n < 10 {
      HoldsAt(text, p, Digits(n), 0);
      ScanStep(text, p, 0, n);
    } else {
      var front, d := Digits(n / 10), n % 10;
      HoldsSplit(text, p, front, [48 + d]);
      ScanDigits(text, p, n / 10);
      HoldsAt(text, p + |front|, [48 + d], 0);
      ScanStep(text, p + |front|, n / 10, d);
    }
  }

  /** A character that cannot continue a number. */
  predicate EndsNumber(ch: byte) {
    !IsDigit(ch, 10) && ch != 46 && ch != 69 && ch != 101 && ch != 88 && ch != 120
  }

  lemma ScanStops(text: seq<byte>, p: nat, base: nat, acc: nat)
    requires p <= |text| && base <= 10 && !IsDigit(At(text, p), 10)
    ensures Scan(text, p, base, acc) == Number(acc, p)
  {
  }

  lemma ScanZero(text: seq<byte>, p: nat)
    requires p < |text| && At(text, p) == 48 && !IsDigit(At(text, p + 1), 10)
    ensures Scan(text, p, 8, 0) == Number(0, p + 1)
  {
    ScanStops(text, p + 1, 8, 0);
  }

  /** Digits are read back, whatever the base their first one stands for. */
  lemma DigitsRead(text: seq<byte>, q: nat, m: nat)
    requires Holds(text, q, Digits(m)) && EndsNumber(At(text, q + |Digits(m)|))
    ensures q < |text| && IsDigit(At(text, q), 10) && Unsigned(text, q) == Number(m, q + |Digits(m)|)
  {
    hide Holds, Scan, HexDigit;
    HoldsAt(text, q, Digits(m), 0);
    HoldsAt(text, q, Digits(m), |Digits(m)| - 1);
    DigitValue(At(text, q));
    if m == 0 {
      ScanZero(text, q);
    } else {
      ScanDigits(text, q, m);
      ScanStops(text, q + |Digits(m)|, 10, m);
    }
  }

  /** The number a string of decimal digits stands for. */
  function ValueOf(ds: seq<byte>): int {
    if ds == [] then 0
    else
      var last: int := ds[|ds| - 1];
      10 * ValueOf(ds[..|ds| - 1]) + last - 48
  }

  /** Decimal digits without a needless zero in front. */
  predicate Decimal(ds: seq<byte>) {
    ds != [] && (forall i :: 0 <= i < |ds| ==> 48 <= ds[i] <= 57) && (|ds| > 1 ==> ds[0] != 48)
  }

  /** The encoder writes a number as the one decimal string that stands for it. */
  lemma {:induction false} DigitsDecimal(n: nat)
    ensures Decimal(Digits(n)) && ValueOf(Digits(n)) == n
  {
    LastDigit(n);
    if n >= 10 {
      DigitsDecimal(n / 10);
      hide Digits;
      assert Digits(n)[..|Digits(n)| - 1] == Digits(n / 10);
    }
  }

  lemma {:induction false} DecimalUnique(ds: seq<byte>)
    requires Decimal(ds)
    ensures ValueOf(ds) >= 0 && Digits(ValueOf(ds)) == ds && (ds[0] != 48 ==> ValueOf(ds) > 0)
    decreases |ds|
  {
    hide Digits;
    var front, last := ds[..|ds| - 1], ds[|ds| - 1];
    assert ds == front + [last];
    if |ds| > 1 {
      DecimalUnique(front);
    }
    LastDigit(ValueOf(ds));
  }

  /** A decimal number is read as what it stands for, clamped to 64 bits. */
  lemma DecimalRead(text: seq<byte>, p: nat, negative: bool, ds: seq<byte>)
    requires Decimal(ds) && Holds(text, p, (if negative then [45] else []) + ds)
    requires var e := p + (if negative then 1 else 0) + |ds|; EndsNumber(At(text, e))
    ensures var v := if negative then -ValueOf(ds) else ValueOf(ds);
      Strtoll(text, p) == Number(if v > LLONG_MAX then LLONG_MAX else if v < LLONG_MIN then LLONG_MIN else v,
                                 p + (if negative then 1 else 0) + |ds|)
  {
    hide Holds, Digits, EndsNumber, Unsigned, ValueOf;
    DecimalUnique(ds);
    HoldsSplit(text, p, if negative then [45] else [], ds);
    if negative {
      HoldsAt(text, p, [45], 0);
    }
    DigitsRead(text, p + (if negative then 1 else 0), ValueOf(ds));
    assert negative || text[p] == ds[0] by {
      HoldsAt(text, p + (if negative then 1 else 0), ds, 0);
    }
  }

  lemma DigitValue(ch: byte)
    requires 48 <= ch <= 57
    ensures HexDigit(ch) == ch - 48
  {
  }

  /** Without a sign strtoll reads the number, behind a minus its negative. */
  lemma StrtollReads(text: seq<byte>, p: nat)
    requires p < |text|
    ensures IsDigit(At(text, p), 10) && Unsigned(text, p).value <= LLONG_MAX ==> Strtoll(text, p) == Unsigned(text, p)
    ensures At(text, p) == 45 && p + 1 < |text| && IsDigit(At(text, p + 1), 10) && -Unsigned(text, p + 1).value >= LLONG_MIN ==>
      var u := Unsigned(text, p + 1); Strtoll(text, p) == Number(-u.value, u.next)
  {
    hide Unsigned;
  }

  /** Every 64-bit integer survives being written and read back. */
  lemma IntRoundTrip(text: seq<byte>, p: nat, n: int)
    requires LLONG_MIN <= n <= LLONG_MAX && Holds(text, p, IntText(n))
    requires EndsNumber(At(text, p + |IntText(n)|))
    ensures Strtoll(text, p) == Number(n, p + |IntText(n)|)
  {
    hide Holds, Scan, Digits, EndsNumber, IsDigit, Unsigned, Strtoll;
    if n < 0 {
      HoldsSplit(text, p, [45], Digits(-n));
      HoldsAt(text, p, [45], 0);
      DigitsRead(text, p + 1, -n);
    } else {
      DigitsRead(text, p, n);
    }
    StrtollReads(text, p);
  }
}
