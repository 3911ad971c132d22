/** The text of tokens, with white space of any kind between them, and how it is read. */
module JsonLayout {
  import opened Sequences
  import opened Serial
  import opened Utf8
  import opened JsonText
  import opened JsonValue
  import opened JsonGrammar

  // ---------------------------------------------------------------- single tokens

  lemma TokenHere(text: seq<byte>, p: nat, cfg: Config)
    requires p < |text| && !Space(text[p])
    ensures NextToken(text, p, cfg) == TokenAt(text, p, cfg)
  {
  }

  lemma StringHere(text: seq<byte>, p: nat, s: seq<byte>, cfg: Config)
    requires Holds(text, p, Quoted(s))
    ensures NextToken(text, p, cfg) == Lexed(StringToken(s), p + |Quoted(s)|)
  {
    hide Holds, Quoted, ParseChars, NextToken, NumberToken, LooseNumber;
    HoldsAt(text, p, Quoted(s), 0);
    QuotedRoundTrip(text, p, s);
    TokenHere(text, p, cfg);
  }

  lemma IntStart(n: int)
    ensures var ch := IntText(n)[0]; ch == 45 || 48 <= ch <= 57
    ensures n < 0 ==> IntText(n)[0] == 45 && 49 <= IntText(n)[1] <= 57
  {
  }

  lemma IntHere(text: seq<byte>, p: nat, n: int, cfg: Config)
    requires LLONG_MIN <= n <= LLONG_MAX && Holds(text, p, IntText(n))
    requires EndsNumber(At(text, p + |IntText(n)|))
    ensures NextToken(text, p, cfg) == Lexed(IntToken(n), p + |IntText(n)|)
  {
    hide IntText, Holds, Strtoll, LooseNumber, IsDigit, ParseChars;
    HoldsAt(text, p, IntText(n), 0);
    IntStart(n);
    IntRoundTrip(text, p, n);
    TokenHere(text, p, cfg);
    IntStrict(text, p, n);
  }

  /** The encoder's numbers pass the strict check. */
  lemma IntStrict(text: seq<byte>, p: nat, n: int)
    requires Holds(text, p, IntText(n)) && EndsNumber(At(text, p + |IntText(n)|))
    ensures !LooseNumber(text, p)
  {
    IntStart(n);
    HoldsAt(text, p, IntText(n), 0);
    if n < 0 {
      HoldsAt(text, p, IntText(n), 1);
    } else if n == 0 {
      assert IntText(0) == [48];
      assert IsDigit(48, 10);
    }
  }

  /** A decimal number, also one the encoder would not write, is the integer it stands for, clamped to 64 bits. */
  lemma DecimalHere(text: seq<byte>, p: nat, negative: bool, ds: seq<byte>, cfg: Config)
    requires Decimal(ds) && Holds(text, p, (if negative then [45] else []) + ds)
    requires EndsNumber(At(text, p + (if negative then 1 else 0) + |ds|))
    ensures var v := if negative then -ValueOf(ds) else ValueOf(ds);
      NextToken(text, p, cfg) == Lexed(IntToken(if v > LLONG_MAX then LLONG_MAX else if v < LLONG_MIN then LLONG_MIN else v),
                                       p + (if negative then 1 else 0) + |ds|)
  {
    hide Holds, Strtoll, LooseNumber, ParseChars, ValueOf;
    var sign := if negative then [45] else [];
    HoldsSplit(text, p, sign, ds);
    HoldsAt(text, p, sign + ds, 0);
    DecimalRead(text, p, negative, ds);
    DecimalStrict(text, p, negative, ds);
    TokenHere(text, p, cfg);
  }

  lemma DecimalStrict(text: seq<byte>, p: nat, negative: bool, ds: seq<byte>)
    requires Decimal(ds) && Holds(text, p, (if negative then [45] else []) + ds)
    requires EndsNumber(At(text, p + (if negative then 1 else 0) + |ds|))
    ensures !LooseNumber(text, p)
  {
    hide Holds;
    var sign := if negative then [45] else [];
    HoldsAt(text, p, sign + ds, 0);
    HoldsAt(text, p, sign + ds, |sign|);
    if |ds| == 1 {
      DigitEnds(At(text, p + |sign| + 1));
    }
  }

  lemma DigitEnds(ch: byte)
    requires EndsNumber(ch)
    ensures !(48 <= ch <= 57) && ch != 88 && ch != 120
  {
    if 48 <= ch <= 57 {
      DigitValue(ch);
    }
  }

  /** Unless invalid numbers are let through, a needless zero in front is an error, and so is a hexadecimal number. */
  lemma ZeroRejected(text: seq<byte>, p: nat, cfg: Config)
    requires !cfg.decodeInvalidNumbers && p < |text|
    requires var q := if text[p] == 45 then p + 1 else p;
      At(text, q) == 48 && (48 <= At(text, q + 1) <= 57 || At(text, q + 1) in {88, 120})
    ensures NextToken(text, p, cfg) == Lexed(ErrorToken(TextError.InvalidNumber), p)
  {
    hide ParseChars, NumberToken, Holds;
  }

  lemma WordHere(text: seq<byte>, p: nat, cfg: Config)
    ensures Holds(text, p, TRUE_TEXT) ==> NextToken(text, p, cfg) == Lexed(BoolToken(true), p + 4)
    ensures Holds(text, p, FALSE_TEXT) ==> NextToken(text, p, cfg) == Lexed(BoolToken(false), p + 5)
    ensures Holds(text, p, NULL_TEXT) ==> NextToken(text, p, cfg) == Lexed(NullToken, p + 4)
  {
    if Holds(text, p, TRUE_TEXT) {
      HoldsAt(text, p, TRUE_TEXT, 0);
      TokenHere(text, p, cfg);
    }
    if Holds(text, p, FALSE_TEXT) {
      HoldsAt(text, p, FALSE_TEXT, 0);
      TokenHere(text, p, cfg);
      NotHolds(text, p, TRUE_TEXT);
    }
    if Holds(text, p, NULL_TEXT) {
      HoldsAt(text, p, NULL_TEXT, 0);
      TokenHere(text, p, cfg);
      NotHolds(text, p, TRUE_TEXT);
      NotHolds(text, p, FALSE_TEXT);
    }
  }

  lemma NotHolds(text: seq<byte>, p: nat, s: seq<byte>)
    requires s != [] && At(text, p) != s[0]
    ensures !Holds(text, p, s)
  {
    if p + |s| <= |text| {
      assert text[p..p + |s|][0] == text[p];
    }
  }

  /** Single-character tokens. */
  lemma MarkHere(text: seq<byte>, p: nat, cfg: Config)
    requires p < |text|
    ensures text[p] == 91 ==> NextToken(text, p, cfg) == Lexed(ArrBegin, p + 1)
    ensures text[p] == 93 ==> NextToken(text, p, cfg) == Lexed(ArrEnd, p + 1)
    ensures text[p] == 123 ==> NextToken(text, p, cfg) == Lexed(ObjBegin, p + 1)
    ensures text[p] == 125 ==> NextToken(text, p, cfg) == Lexed(ObjEnd, p + 1)
    ensures text[p] == 44 ==> NextToken(text, p, cfg) == Lexed(CommaToken, p + 1)
    ensures text[p] == 58 ==> NextToken(text, p, cfg) == Lexed(ColonToken, p + 1)
  {
    hide ParseChars, NumberToken, LooseNumber, Holds;
    if !Space(text[p]) {
      TokenHere(text, p, cfg);
    }
  }

  lemma EndHere(text: seq<byte>, cfg: Config)
    ensures NextToken(text, |text|, cfg) == Lexed(EndToken, |text|)
  {
    assert At(text, |text|) == 0;
  }

  // ---------------------------------------------------------------- no terminator inside

  /** The text has no zero byte, which the decoder would take for its end. */
  predicate NoZero(s: seq<byte>) {
    forall i :: 0 <= i < |s| ==> s[i] != 0
  }

  lemma {:induction false} EscapesNoZero(s: seq<byte>)
    ensures NoZero(Quoted(s)) && NoZero(EscapeAll(s))
    decreases |s|
  {
    hide Escape, EscapeAll;
    EscapeAllLast(s);
    if s != [] {
      EscapesNoZero(s[..|s| - 1]);
      EscapeNoZero(s[|s| - 1]);
    }
  }

  lemma EscapeNoZero(b: byte)
    ensures NoZero(Escape(b))
  {
  }

  lemma {:induction false} DigitsNoZero(n: nat)
    ensures NoZero(Digits(n))
  {
    if n >= 10 {
      DigitsNoZero(n / 10);
    }
  }

  lemma IntNoZero(n: int)
    ensures NoZero(IntText(n))
  {
    DigitsNoZero(if n < 0 then -n else n);
  }

  // ---------------------------------------------------------------- white space

  /** Blanks, tabs, line feeds and carriage returns. */
  predicate White(s: seq<byte>) {
    forall i :: 0 <= i < |s| ==> s[i] in {32, 9, 10, 13}
  }

  /** White space in front of a token makes no difference to it or to where it ends. */
  lemma {:induction false} WhiteSkipped(text: seq<byte>, p: nat, gap: seq<byte>, cfg: Config)
    requires Holds(text, p, gap) && White(gap)
    ensures p + |gap| <= |text| && NextToken(text, p, cfg) == NextToken(text, p + |gap|, cfg)
    decreases |gap|
  {
    hide TokenAt;
    if gap != [] {
      assert [gap[0]] + gap[1..] == gap;
      HoldsSplit(text, p, [gap[0]], gap[1..]);
      HoldsAt(text, p, [gap[0]], 0);
      WhiteSkipped(text, p + 1, gap[1..], cfg);
    }
  }

  /** No other character is skipped: one that cannot begin a token is an error. */
  lemma BadStart(text: seq<byte>, p: nat, cfg: Config)
    requires p < |text|
    requires text[p] !in {32, 9, 10, 13, 0, 34, 43, 44, 45, 58, 73, 78, 91, 93, 102, 105, 110, 116, 123, 125}
    requires !(48 <= text[p] <= 57)
    ensures NextToken(text, p, cfg) == Lexed(ErrorToken(InvalidToken), p)
  {
    assert Lower(text[p]) == Lower(At(text, p));
    NotHolds(text, p, TRUE_TEXT);
    NotHolds(text, p, FALSE_TEXT);
    NotHolds(text, p, NULL_TEXT);
    hide Holds;
  }

  // ---------------------------------------------------------------- token sequences as text

  /** How a token is written. */
  function TokenText(t: Token): seq<byte> {
    match t
    case ObjBegin => [123]
    case ObjEnd => [125]
    case ArrBegin => [91]
    case ArrEnd => [93]
    case CommaToken => [44]
    case ColonToken => [58]
    case StringToken(s) => Quoted(s)
    case IntToken(n) => IntText(n)
    case BoolToken(b) => if b then TRUE_TEXT else FALSE_TEXT
    case NullToken => NULL_TEXT
    case _ => []
  }

  predicate Mark(t: Token) {
    t == ArrEnd || t == ObjEnd || t == CommaToken
  }

  predicate Written(t: Token) {
    match t
    case IntToken(n) => LLONG_MIN <= n <= LLONG_MAX
    case RealToken => false
    case EndToken => false
    case ErrorToken(_) => false
    case _ => true
  }

  /** Tokens that can be told apart where they meet: behind a number stands a bracket or a comma. */
  predicate Separated(toks: seq<Token>) {
    && (forall i :: 0 <= i < |toks| ==> Written(toks[i]))
    && (forall i :: 0 <= i < |toks| - 1 && toks[i].IntToken? ==> Mark(toks[i + 1]))
  }

  /** Tokens written one after the other, each behind a gap. */
  function Lay(toks: seq<Token>, gaps: seq<seq<byte>>): seq<byte>
    requires |gaps| == |toks|
  {
    if toks == [] then [] else gaps[0] + TokenText(toks[0]) + Lay(toks[1..], gaps[1..])
  }

  lemma TokenHereText(text: seq<byte>, p: nat, t: Token, cfg: Config)
    requires Written(t) && Holds(text, p, TokenText(t))
    requires t.IntToken? ==> EndsNumber(At(text, p + |TokenText(t)|))
    ensures p < |text| && NextToken(text, p, cfg) == Lexed(t, p + |TokenText(t)|)
  {
    hide NextToken, Holds, Quoted, IntText, EndsNumber;
    HoldsAt(text, p, TokenText(t), 0);
    match t
    case StringToken(s) => StringHere(text, p, s, cfg);
    case IntToken(n) => IntHere(text, p, n, cfg);
    case BoolToken(b) => WordHere(text, p, cfg);
    case NullToken => WordHere(text, p, cfg);
    case _ => MarkHere(text, p, cfg);
  }

  predicate AllWhite(gaps: seq<seq<byte>>) {
    forall i :: 0 <= i < |gaps| ==> White(gaps[i])
  }

  /** What follows a number ends it: white space, a mark, or the end. */
  lemma NumberEnds(text: seq<byte>, p: nat, toks: seq<Token>, gaps: seq<seq<byte>>, last: seq<byte>)
    requires |gaps| == |toks| && AllWhite(gaps) && White(last) && (toks != [] ==> Mark(toks[0]))
    requires Holds(text, p, Lay(toks, gaps) + last) && p + |Lay(toks, gaps) + last| == |text|
    ensures EndsNumber(At(text, p))
  {
    var s := Lay(toks, gaps) + last;
    if s != [] {
      HoldsAt(text, p, s, 0);
      if toks == [] {
        assert s[0] == last[0];
      } else if gaps[0] != [] {
        assert s[0] == gaps[0][0] && White(gaps[0]);
      } else {
        assert s[0] == TokenText(toks[0])[0];
      }
    }
  }

  lemma LayFirst(text: seq<byte>, p: nat, toks: seq<Token>, gaps: seq<seq<byte>>, last: seq<byte>)
    requires |gaps| == |toks| > 0 && Holds(text, p, Lay(toks, gaps) + last)
    ensures var g, t := gaps[0], TokenText(toks[0]);
      && Holds(text, p, g) && Holds(text, p + |g|, t) && Holds(text, p + |g| + |t|, Lay(toks[1..], gaps[1..]) + last)
      && |Lay(toks, gaps) + last| == |g| + |t| + |Lay(toks[1..], gaps[1..]) + last|
  {
    hide Holds, TokenText;
    var g, t, rest := gaps[0], TokenText(toks[0]), Lay(toks[1..], gaps[1..]);
    assert Lay(toks, gaps) == g + t + rest;
    Assoc(g + t, rest, last);
    Assoc(g, t, rest + last);
    hide Lay;
    HoldsSplit(text, p, g, t + (rest + last));
    HoldsSplit(text, p + |g|, t, rest + last);
  }

  lemma LaidFirst(text: seq<byte>, p: nat, cfg: Config, toks: seq<Token>, gaps: seq<seq<byte>>, last: seq<byte>)
    requires |gaps| == |toks| > 0 && AllWhite(gaps) && White(last) && Separated(toks)
    requires Holds(text, p, Lay(toks, gaps) + last) && p + |Lay(toks, gaps) + last| == |text|
    ensures var q := p + |gaps[0]| + |TokenText(toks[0])|;
      && p <= |text| && NextToken(text, p, cfg) == Lexed(toks[0], q)
      && Holds(text, q, Lay(toks[1..], gaps[1..]) + last) && q + |Lay(toks[1..], gaps[1..]) + last| == |text|
      && AllWhite(gaps[1..]) && Separated(toks[1..])
  {
    hide Holds, NextToken, TokenText, White, Lay, Separated, Written, Mark;
    var g, t, rest := gaps[0], toks[0], toks[1..];
    LayFirst(text, p, toks, gaps, last);
    SeparatedRest(toks);
    if t.IntToken? {
      NumberEnds(text, p + |g| + |TokenText(t)|, rest, gaps[1..], last);
    }
    WhiteSkipped(text, p, g, cfg);
    TokenHereText(text, p + |g|, t, cfg);
  }

  /** Tokens laid out with white space before, between and behind them are read back, and then the end. */
  lemma {:induction false} LaidReads(text: seq<byte>, p: nat, cfg: Config, toks: seq<Token>, gaps: seq<seq<byte>>, last: seq<byte>)
    requires |gaps| == |toks| && AllWhite(gaps) && White(last) && Separated(toks)
    requires Holds(text, p, Lay(toks, gaps) + last) && p + |Lay(toks, gaps) + last| == |text|
    ensures p <= |text| && Reads(text, p, cfg, toks + [EndToken], |text|)
    decreases |toks|
  {
    hide Holds, NextToken, TokenText, Reads, White, AllWhite, Separated;
    if toks == [] {
      assert Lay(toks, gaps) + last == last && toks + [EndToken] == [EndToken] + [];
      WhiteSkipped(text, p, last, cfg);
      EndHere(text, cfg);
      ReadsOne(text, p, cfg, EndToken, [], |text|);
      ReadsNothing(text, |text|, cfg, |text|);
    } else {
      hide Lay;
      LaidFirst(text, p, cfg, toks, gaps, last);
      LaidReads(text, p + |gaps[0]| + |TokenText(toks[0])|, cfg, toks[1..], gaps[1..], last);
      assert toks + [EndToken] == [toks[0]] + (toks[1..] + [EndToken]);
      ReadsOne(text, p, cfg, toks[0], toks[1..] + [EndToken], |text|);
    }
  }

  lemma SeparatedRest(toks: seq<Token>)
    requires Separated(toks) && toks != []
    ensures Written(toks[0]) && Separated(toks[1..])
    ensures toks[0].IntToken? && toks[1..] != [] ==> Mark(toks[1..][0])
  {
    hide Written, Mark;
    forall i | 0 <= i < |toks| - 2 && toks[1..][i].IntToken? ensures Mark(toks[1..][i + 1]) {
      assert toks[i + 1].IntToken?;
    }
  }

  // ---------------------------------------------------------------- documents as text

  /** All integers are 64-bit integers. */
  predicate Integers(d: Doc) {
    match d
    case Scalar(t) => Written(t)
    case Arr(items) => forall i :: 0 <= i < |items| ==> Integers(items[i])
    case Obj(members) => forall i :: 0 <= i < |members| ==> Integers(members[i].doc)
  }

  lemma SeparatedJoin(a: seq<Token>, b: seq<Token>)
    requires Separated(a) && Separated(b)
    requires a != [] && b != [] && a[|a| - 1].IntToken? ==> Mark(b[0])
    ensures Separated(a + b)
  {
    hide Written, Mark;
    var c := a + b;
    forall i | 0 <= i < |c| - 1 && c[i].IntToken? ensures Mark(c[i + 1]) {
      if i < |a| - 1 {
        assert a[i].IntToken?;
      } else if i >= |a| {
        assert b[i - |a|].IntToken?;
      }
    }
  }

  lemma SeparatedOne(t: Token)
    requires Written(t)
    ensures Separated([t])
  {
  }

  lemma {:induction false} SpellSeparated(d: Doc)
    requires Integers(d)
    ensures Separated(Spell(d))
    decreases d, 1, 0
  {
    hide Separated, ItemsFrom, MembersFrom;
    match d
    case Scalar(t) => SeparatedOne(t);
    case Arr(items) =>
      SeparatedOne(ArrBegin);
      ItemsSeparated(items, 0);
      SeparatedJoin([ArrBegin], ItemsFrom(items, 0));
    case Obj(members) =>
      SeparatedOne(ObjBegin);
      MembersSeparated(members, 0);
      SeparatedJoin([ObjBegin], MembersFrom(members, 0));
  }

  /** A part with its comma and its name in front of what follows it. */
  lemma PartSeparated(i: nat, name: seq<Token>, toks: seq<Token>, after: seq<Token>)
    requires Separated(name) && Separated(toks) && Separated(after) && toks != [] && after != [] && Mark(after[0])
    requires name != [] ==> !name[|name| - 1].IntToken?
    ensures var all := Lead(i) + name + toks + after; Separated(all) && all != [] && (i > 0 ==> Mark(all[0]))
  {
    hide Separated;
    SeparatedJoin(toks, after);
    SeparatedJoin(name, toks + after);
    SeparatedOne(CommaToken);
    SeparatedJoin([CommaToken], name + (toks + after));
    assert Lead(i) + name + toks + after == Lead(i) + (name + (toks + after));
    assert [] + (name + (toks + after)) == name + (toks + after);
  }

  lemma SeparatedNothing()
    ensures Separated([])
  {
  }

  lemma {:induction false} ItemsSeparated(items: seq<Doc>, i: nat)
    requires i <= |items| && forall j :: 0 <= j < |items| ==> Integers(items[j])
    ensures Separated(ItemsFrom(items, i)) && ItemsFrom(items, i) != [] && (i > 0 ==> Mark(ItemsFrom(items, i)[0]))
    decreases items, 0, |items| - i
  {
    hide Separated, Spell, Integers, Lead;
    SeparatedOne(ArrEnd);
    if i < |items| {
      SpellSeparated(items[i]);
      ItemsSeparated(items, i + 1);
      SeparatedNothing();
      PartSeparated(i, [], Spell(items[i]), ItemsFrom(items, i + 1));
      assert Lead(i) + [] == Lead(i);
    }
  }

  lemma {:induction false} MembersSeparated(members: seq<Member>, i: nat)
    requires i <= |members| && forall j :: 0 <= j < |members| ==> Integers(members[j].doc)
    ensures Separated(MembersFrom(members, i)) && MembersFrom(members, i) != [] && (i > 0 ==> Mark(MembersFrom(members, i)[0]))
    decreases members, 0, |members| - i
  {
    hide Separated, Spell, Integers, Lead;
    SeparatedOne(ObjEnd);
    if i < |members| {
      var m := members[i];
      assert m.doc < m;
      SpellSeparated(m.doc);
      MembersSeparated(members, i + 1);
      SeparatedName(m.name);
      PartSeparated(i, [StringToken(m.name), ColonToken], Spell(m.doc), MembersFrom(members, i + 1));
    }
  }

  lemma SeparatedName(name: seq<byte>)
    ensures Separated([StringToken(name), ColonToken])
  {
  }

  lemma TokenNoZero(t: Token)
    ensures NoZero(TokenText(t))
  {
    match t
    case StringToken(s) => EscapesNoZero(s);
    case IntToken(n) => IntNoZero(n);
    case _ =>
  }

  lemma {:induction false} LayNoZero(toks: seq<Token>, gaps: seq<seq<byte>>)
    requires |gaps| == |toks| && AllWhite(gaps)
    ensures NoZero(Lay(toks, gaps))
    decreases |toks|
  {
    hide TokenText;
    if toks != [] {
      TokenNoZero(toks[0]);
      assert White(gaps[0]);
      LayNoZero(toks[1..], gaps[1..]);
    }
  }

  /** A document written with any white space before, between and behind its tokens decodes to what it means. */
  lemma DecodeLaid(d: Doc, gaps: seq<seq<byte>>, last: seq<byte>, cfg: Config)
    requires Legal(d, cfg.decodeMaxDepth) && Integers(d)
    requires |gaps| == |Spell(d)| && AllWhite(gaps) && White(last)
    ensures Decode(Lay(Spell(d), gaps) + last, cfg) == Ok(Meaning(d))
  {
    hide Lay, Reads, Legal, Integers, Meaning, Spell, Decode;
    var text := Lay(Spell(d), gaps) + last;
    SpellSeparated(d);
    LayNoZero(Spell(d), gaps);
    assert text[0..0 + |text|] == text;
    LaidReads(text, 0, cfg, Spell(d), gaps, last);
    DecodesSpelled(text, cfg, d);
  }
}
