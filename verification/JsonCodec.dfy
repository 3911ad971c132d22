/** The encoder that appends to a buffer, and the parser that advances through a text. */
module JsonCodec {
  import opened Bits
  import opened Options
  import opened Serial
  import opened Utf8
  import opened JsonText
  import opened JsonValue
  import B = Strbuf

  const FPCONV_G_FMT_BUFSIZE := 32

  // ---------------------------------------------------------------- encoder

  /** The worst case for a string of len bytes, six bytes for each and two quotes, fits an int. */
  predicate Reservable(len: nat) {
    len * 6 + 2 < TWO31
  }

  /** The room asked for is the worst case exactly for these strings. */
  lemma ReservedExact(len: nat)
    ensures Signed(Narrow(len * 6 + 2)) >= len * 6 + 2 <==> Reservable(len)
    ensures Reservable(len) <==> len <= 357_913_940
    ensures Signed(Narrow(357_913_941 * 6 + 2)) < 0
  {
    hide Signed, Narrow;
    NarrowAtMost(len * 6 + 2);
    NarrowAtMost(357_913_941 * 6 + 2);
    NarrowedHalf();
  }

  lemma NarrowedHalf()
    ensures Signed(Narrow(TWO31)) == -TWO31
  {
  }

  /** Counting a table as an array stays within an int: its keys, up to the first that is no positive
      integer, and what the largest of them is compared with. */
  predicate Countable(entries: seq<Entry>, cfg: Config) {
    && (forall i :: 0 <= i < |entries| && PositiveBefore(entries, i) && PositiveKey(entries[i].key) ==>
          entries[i].key.k < TWO31)
    && (PositiveKeys(entries) && cfg.sparseRatio > 0 ==> |entries| * cfg.sparseRatio < TWO31)
  }

  predicate PositiveBefore(entries: seq<Entry>, n: nat)
    requires n <= |entries|
  {
    forall j :: 0 <= j < n ==> PositiveKey(entries[j].key)
  }

  /** All integers in the value are 64-bit integers, as the language's are, its tables can be counted
      and the room for its strings can be reserved. */
  predicate Storable(v: Value, cfg: Config) {
    match v
    case Int(n) => LLONG_MIN <= n <= LLONG_MAX
    case Str(s) => Reservable(|s|)
    case Table(entries) =>
      && Countable(entries, cfg)
      && forall i :: 0 <= i < |entries| ==> StorableKey(entries[i].key) && Storable(entries[i].value, cfg)
    case _ => true
  }

  predicate StorableKey(key: Key) {
    match key
    case IntKey(k) => LLONG_MIN <= k <= LLONG_MAX
    case StrKey(s) => Reservable(|s|)
    case OtherKey => true
  }

  function Power10(k: nat): (p: nat)
    ensures p >= 1
  {
    if k == 0 then 1 else 10 * Power10(k - 1)
  }

  lemma {:induction false} DigitsLength(n: nat, k: nat)
    requires n < Power10(k) && k > 0
    ensures |Digits(n)| <= k
  {
    if n >= 10 {
      DigitsLength(n / 10, k - 1);
    }
  }

  /** An integer's text fits the room reserved for a number. */
  lemma IntTextLength(n: int)
    requires LLONG_MIN <= n <= LLONG_MAX
    ensures |IntText(n)| <= 20
  {
    assert Power10(19) == 10000000000000000000 by {
      assert Power10(5) == 100000;
      assert Power10(10) == 10000000000;
      assert Power10(15) == 1000000000000000;
    }
    DigitsLength(if n < 0 then -n else n, 19);
  }

  lemma EscapeNext(s: seq<byte>, i: nat)
    requires i < |s|
    ensures EscapeAll(s[..i + 1]) == EscapeAll(s[..i]) + Escape(s[i])
  {
    assert s[..i + 1][..i] == s[..i];
  }

  /** Appends one character of a string: unchecked if it is not escaped, else growing as needed. */
  method AppendEscaped(json: B.Strbuf, c: byte)
    requires json.Valid() && json.increment < 0 && (json.EmptyLength() > 0 || Escape(c) != [c])
    modifies json, json.buf
    ensures json.Valid() && json.Contents() == old(json.Contents()) + Escape(c)
    ensures json.EmptyLength() >= old(json.EmptyLength()) - |Escape(c)|
    ensures Escape(c) == [c] ==> json.EmptyLength() == old(json.EmptyLength()) - 1
    ensures json.increment == old(json.increment) && (json.buf == old(json.buf) || fresh(json.buf))
  {
    var escstr := Escape(c);
    hide Escape;
    if escstr != [c] {
      json.AppendString(escstr);
    } else {
      json.AppendCharUnsafe(c);
    }
  }

  /** The next character of a string, unless the append would find no room. */
  method AppendNext(json: B.Strbuf, s: seq<byte>, i: nat, ghost base: seq<byte>) returns (safe: bool)
    requires json.Valid() && json.increment < 0 && i < |s| && json.Contents() == base + EscapeAll(s[..i])
    modifies json, json.buf
    ensures safe <==> old(json.EmptyLength()) > 0 || Escape(s[i]) != [s[i]]
    ensures json.Valid() && (safe ==> json.Contents() == base + EscapeAll(s[..i + 1]))
    ensures safe ==> json.EmptyLength() >= old(json.EmptyLength()) - 6
    ensures safe && Escape(s[i]) == [s[i]] ==> json.EmptyLength() == old(json.EmptyLength()) - 1
    ensures json.increment == old(json.increment) && (json.buf == old(json.buf) || fresh(json.buf))
  {
    hide EscapeAll, Escape;
    safe := json.EmptyLength() > 0 || Escape(s[i]) != [s[i]];
    if safe {
      EscapeNext(s, i);
      AppendEscaped(json, s[i]);
    }
  }

  predicate NothingEscaped(s: seq<byte>) {
    forall i :: 0 <= i < |s| ==> Escape(s[i]) == [s[i]]
  }

  /** All characters of a string, unless an append would find no room. */
  method AppendCharacters(json: B.Strbuf, s: seq<byte>) returns (safe: bool)
    requires json.Valid() && json.increment < 0
    modifies json, json.buf
    ensures old(json.EmptyLength()) >= |s| * 6 + 1 ==> safe && json.EmptyLength() >= 1
    ensures NothingEscaped(s) ==> (safe <==> old(json.EmptyLength()) >= |s|)
    ensures NothingEscaped(s) && safe ==> json.EmptyLength() == old(json.EmptyLength()) - |s|
    ensures json.Valid() && (safe ==> json.Contents() == old(json.Contents()) + EscapeAll(s))
    ensures json.increment == old(json.increment) && (json.buf == old(json.buf) || fresh(json.buf))
  {
    hide EscapeAll, Escape;
    ghost var base, room := json.Contents(), json.EmptyLength();
    safe := true;
    var i := 0;
    EscapeNone();
    while i < |s|
      invariant 0 <= i <= |s| && safe && json.Valid() && json.increment == old(json.increment)
      invariant json.buf == old(json.buf) || fresh(json.buf)
      invariant room >= |s| * 6 + 1 ==> json.EmptyLength() >= (|s| - i) * 6 + 1
      invariant NothingEscaped(s) ==> json.EmptyLength() == room - i
      invariant json.Contents() == base + EscapeAll(s[..i])
    {
      safe := AppendNext(json, s, i, base);
      if !safe {
        return;
      }
      i := i + 1;
    }
    assert s[..i] == s;
  }

  /** Appends a quoted string.  The room for six bytes a character is reserved beforehand, which is
      what makes the unchecked appends safe, as long as that size fits an int.  Otherwise an append
      may find no room left; the method then stops, where the code would write past the buffer. */
  method AppendQuoted(json: B.Strbuf, s: seq<byte>) returns (safe: bool)
    requires json.Valid() && json.increment < 0
    modifies json, json.buf
    ensures Reservable(|s|) ==> safe
    ensures NothingEscaped(s) && Signed(Narrow(|s| * 6 + 2)) <= old(json.EmptyLength()) ==>
      (safe <==> old(json.EmptyLength()) >= |s| + 2)
    ensures json.Valid() && (safe ==> json.Contents() == old(json.Contents()) + Quoted(s))
    ensures json.increment == old(json.increment) && (json.buf == old(json.buf) || fresh(json.buf))
  {
    hide EscapeAll, Escape, Quoted, Narrow, Signed, NothingEscaped;
    NarrowAtMost(|s| * 6 + 2);
    json.EnsureEmptyLength(Signed(Narrow(|s| * 6 + 2)));
    QuotedAppend(json.Contents(), s);
    if json.EmptyLength() == 0 {
      return false;
    }
    json.AppendCharUnsafe(34);
    safe := AppendCharacters(json, s);
    if !safe || json.EmptyLength() == 0 {
      return false;
    }
    json.AppendCharUnsafe(34);
  }

  lemma QuotedAppend(base: seq<byte>, s: seq<byte>)
    ensures base + [34] + EscapeAll(s) + [34] == base + Quoted(s)
  {
  }

  lemma EscapeNone()
    ensures EscapeAll([]) == []
  {
  }

  method AppendInteger(json: B.Strbuf, n: int)
    requires json.Valid() && json.increment < 0 && LLONG_MIN <= n <= LLONG_MAX
    modifies json, json.buf
    ensures json.Valid() && json.Contents() == old(json.Contents()) + IntText(n)
    ensures json.increment == old(json.increment) && (json.buf == old(json.buf) || fresh(json.buf))
  {
    json.EnsureEmptyLength(FPCONV_G_FMT_BUFSIZE);
    IntTextLength(n);
    json.AppendMemUnsafe(IntText(n));
  }

  /** The size of a table as an array, or -1, as long as the code can count it in its ints. */
  method LuaArrayLength(entries: seq<Entry>, cfg: Config) returns (r: Result<int, EncodeError>, counted: bool)
    ensures counted <==> Countable(entries, cfg)
    ensures counted ==> r == ArrayLength(entries, cfg)
  {
    var max, items, i := 0, 0, 0;
    while i < |entries|
      invariant 0 <= i <= |entries| && items == i
      invariant PositiveKeys(entries[..i]) && max == MaxKey(entries[..i])
      invariant PositiveBefore(entries, i) && max < TWO31
      invariant forall j :: 0 <= j < i ==> entries[j].key.k <= max
    {
      var key := entries[i].key;
      if key.IntKey? && key.k >= 1 {
        assert entries[..i + 1][..i] == entries[..i];
        if key.k > max {
          if key.k >= TWO31 {
            return Ok(-1), false;
          }
          max := key.k;
        }
        items := items + 1;
      } else {
        assert !PositiveKey(entries[i].key);
        return Ok(-1), true;
      }
      i := i + 1;
    }
    assert entries[..|entries|] == entries;
    if cfg.sparseRatio > 0 {
      if items * cfg.sparseRatio >= TWO31 {
        return Ok(-1), false;
      }
      if max > items * cfg.sparseRatio && max > cfg.sparseSafe {
        return if !cfg.sparseConvert then Err(TooSparse) else Ok(-1), true;
      }
    }
    return Ok(max), true;
  }

  /** What an append did: it added the encoded text, or it reports the encoder's error. */
  ghost predicate Appended(before: seq<byte>, after: seq<byte>, e: Encoded, err: Option<EncodeError>) {
    match e
    case Ok(text) => err == None && after == before + text
    case Err(x) => err == Some(x)
  }

  lemma AppendedThen(a: seq<byte>, b: seq<byte>, c: seq<byte>, x: Encoded, y: Encoded, err: Option<EncodeError>)
    requires Appended(a, b, x, None) && Appended(b, c, y, err)
    ensures Appended(a, c, Then(x, y), err)
  {
    if y.Ok? {
      assert a + x.value + y.value == a + (x.value + y.value);
    }
  }

  /** Element i of an array, counted from 1. */
  function ElementText(v: Value, cfg: Config, depth: nat, i: nat): Encoded
    requires v.Table?
  {
    var j := IndexOf(v.entries, IntKey(i));
    if j < |v.entries| then Encode(v.entries[j].value, cfg, depth) else Ok(NULL_TEXT)
  }

  lemma ElementsNext(v: Value, cfg: Config, depth: nat, i: nat)
    requires v.Table?
    ensures EncodeElements(v, cfg, depth, 0) == Ok([])
    ensures EncodeElements(v, cfg, depth, i + 1) ==
            Then(Then(EncodeElements(v, cfg, depth, i), Ok(Comma(i))), ElementText(v, cfg, depth, i + 1))
  {
    hide Encode;
  }

  lemma {:induction false} ElementsError(v: Value, cfg: Config, depth: nat, i: nat, n: nat)
    requires v.Table? && i <= n && EncodeElements(v, cfg, depth, i).Err?
    ensures EncodeElements(v, cfg, depth, n) == EncodeElements(v, cfg, depth, i)
    decreases n
  {
    hide EncodeElements, Encode, ElementText;
    if i < n {
      ElementsNext(v, cfg, depth, n - 1);
      ElementsError(v, cfg, depth, i, n - 1);
    }
  }

  lemma MembersNext(v: Value, cfg: Config, depth: nat, i: nat)
    requires v.Table? && i < |v.entries|
    ensures EncodeMembers(v, cfg, depth, 0) == Ok([])
    ensures EncodeMembers(v, cfg, depth, i + 1) ==
            Then(Then(Then(EncodeMembers(v, cfg, depth, i), Ok(Comma(i))), EncodeKey(v.entries[i].key)),
                 Encode(v.entries[i].value, cfg, depth))
  {
    hide Encode, EncodeKey;
  }

  lemma {:induction false} MembersError(v: Value, cfg: Config, depth: nat, i: nat, n: nat)
    requires v.Table? && i <= n <= |v.entries| && EncodeMembers(v, cfg, depth, i).Err?
    ensures EncodeMembers(v, cfg, depth, n) == EncodeMembers(v, cfg, depth, i)
    decreases n
  {
    hide EncodeMembers, Encode, EncodeKey;
    if i < n {
      MembersNext(v, cfg, depth, n - 1);
      MembersError(v, cfg, depth, i, n - 1);
    }
  }

  method AppendData(json: B.Strbuf, v: Value, cfg: Config, depth: nat) returns (err: Option<EncodeError>)
    requires json.Valid() && json.increment < 0 && Storable(v, cfg)
    modifies json, json.buf
    ensures json.Valid() && json.increment == old(json.increment) && (json.buf == old(json.buf) || fresh(json.buf))
    ensures Appended(old(json.Contents()), json.Contents(), Encode(v, cfg, depth), err)
    decreases v, 2, 0
  {
    hide EncodeElements, EncodeMembers, Quoted, IntText;
    err := None;
    match v
    case Str(s) => var safe := AppendQuoted(json, s);
    case Int(n) => AppendInteger(json, n);
    case Bool(b) => json.AppendMem(if b then TRUE_TEXT else FALSE_TEXT);
    case Table(entries) =>
      var current := depth + 1;
      if current > cfg.encodeMaxDepth {
        return Some(TooDeep);
      }
      var len, counted := LuaArrayLength(entries, cfg);
      if len.Err? {
        return Some(len.error);
      }
      if len.value > 0 {
        err := AppendArray(json, v, cfg, current, len.value);
      } else {
        err := AppendObject(json, v, cfg, current);
      }
    case Nil => json.AppendMem(NULL_TEXT);
    case Null => json.AppendMem(NULL_TEXT);
    case Other => err := Some(BadType);
  }

  method AppendArray(json: B.Strbuf, v: Value, cfg: Config, depth: nat, n: nat) returns (err: Option<EncodeError>)
    requires json.Valid() && json.increment < 0 && v.Table? && Storable(v, cfg)
    modifies json, json.buf
    ensures json.Valid() && json.increment == old(json.increment) && (json.buf == old(json.buf) || fresh(json.buf))
    ensures Appended(old(json.Contents()), json.Contents(), Bracket(91, EncodeElements(v, cfg, depth, n), 93), err)
    decreases v, 1, 0
  {
    hide Encode, EncodeElements, Storable, ElementText;
    json.AppendChar(91);
    ghost var base := json.Contents();
    var i := 0;
    ElementsNext(v, cfg, depth, 0);
    while i < n
      invariant 0 <= i <= n && json.Valid() && json.increment == old(json.increment)
      invariant json.buf == old(json.buf) || fresh(json.buf)
      invariant Appended(base, json.Contents(), EncodeElements(v, cfg, depth, i), None)
    {
      err := AppendElement(json, v, cfg, depth, i, base);
      if err != None {
        ElementsError(v, cfg, depth, i + 1, n);
        return;
      }
      i := i + 1;
    }
    json.AppendChar(93);
    err := None;
    BracketAppend(base[..|base| - 1], 91, EncodeElements(v, cfg, depth, n).value, 93);
  }

  lemma BracketAppend(a: seq<byte>, open: byte, text: seq<byte>, close: byte)
    ensures a + [open] + text + [close] == a + ([open] + text + [close])
  {
  }

  /** One element with its comma. */
  method AppendElement(json: B.Strbuf, v: Value, cfg: Config, depth: nat, i: nat, ghost base: seq<byte>)
    returns (err: Option<EncodeError>)
    requires json.Valid() && json.increment < 0 && v.Table? && Storable(v, cfg)
    requires Appended(base, json.Contents(), EncodeElements(v, cfg, depth, i), None)
    modifies json, json.buf
    ensures json.Valid() && json.increment == old(json.increment) && (json.buf == old(json.buf) || fresh(json.buf))
    ensures Appended(base, json.Contents(), EncodeElements(v, cfg, depth, i + 1), err)
    decreases v, 0, i
  {
    hide Encode, EncodeElements;
    ghost var c0 := json.Contents();
    ElementsNext(v, cfg, depth, i);
    if i > 0 {
      json.AppendChar(44);
    }
    ghost var c1 := json.Contents();
    AppendedThen(base, c0, c1, EncodeElements(v, cfg, depth, i), Ok(Comma(i)), None);
    var j := IndexOf(v.entries, IntKey(i + 1));
    if j < |v.entries| {
      err := AppendData(json, v.entries[j].value, cfg, depth);
    } else {
      json.AppendMem(NULL_TEXT);
      err := None;
    }
    AppendedThen(base, c1, json.Contents(), Then(EncodeElements(v, cfg, depth, i), Ok(Comma(i))),
      ElementText(v, cfg, depth, i + 1), err);
  }

  method AppendObject(json: B.Strbuf, v: Value, cfg: Config, depth: nat) returns (err: Option<EncodeError>)
    requires json.Valid() && json.increment < 0 && v.Table? && Storable(v, cfg)
    modifies json, json.buf
    ensures json.Valid() && json.increment == old(json.increment) && (json.buf == old(json.buf) || fresh(json.buf))
    ensures Appended(old(json.Contents()), json.Contents(), Bracket(123, EncodeMembers(v, cfg, depth, |v.entries|), 125), err)
    decreases v, 1, 0
  {
    hide Encode, EncodeMembers, Storable;
    json.AppendChar(123);
    ghost var base := json.Contents();
    var i := 0;
    MembersNone(v, cfg, depth);
    while i < |v.entries|
      invariant 0 <= i <= |v.entries| && json.Valid() && json.increment == old(json.increment)
      invariant json.buf == old(json.buf) || fresh(json.buf)
      invariant Appended(base, json.Contents(), EncodeMembers(v, cfg, depth, i), None)
    {
      err := AppendMember(json, v, cfg, depth, i, base);
      if err != None {
        MembersError(v, cfg, depth, i + 1, |v.entries|);
        return;
      }
      i := i + 1;
    }
    json.AppendChar(125);
    err := None;
    BracketAppend(base[..|base| - 1], 123, EncodeMembers(v, cfg, depth, |v.entries|).value, 125);
  }

  lemma MembersNone(v: Value, cfg: Config, depth: nat)
    requires v.Table?
    ensures EncodeMembers(v, cfg, depth, 0) == Ok([])
  {
  }

  /** One member with its comma. */
  method AppendMember(json: B.Strbuf, v: Value, cfg: Config, depth: nat, i: nat, ghost base: seq<byte>)
    returns (err: Option<EncodeError>)
    requires json.Valid() && json.increment < 0 && v.Table? && i < |v.entries| && Storable(v, cfg)
    requires Appended(base, json.Contents(), EncodeMembers(v, cfg, depth, i), None)
    modifies json, json.buf
    ensures json.Valid() && json.increment == old(json.increment) && (json.buf == old(json.buf) || fresh(json.buf))
    ensures Appended(base, json.Contents(), EncodeMembers(v, cfg, depth, i + 1), err)
    decreases v, 0, i
  {
    hide Encode, EncodeMembers, EncodeKey;
    ghost var c0 := json.Contents();
    var entry := v.entries[i];
    MembersNext(v, cfg, depth, i);
    if i > 0 {
      json.AppendChar(44);
    }
    ghost var c1 := json.Contents();
    AppendedThen(base, c0, c1, EncodeMembers(v, cfg, depth, i), Ok(Comma(i)), None);
    err := AppendKey(json, entry.key);
    ghost var c2 := json.Contents();
    ghost var front := Then(EncodeMembers(v, cfg, depth, i), Ok(Comma(i)));
    AppendedThen(base, c1, c2, front, EncodeKey(entry.key), err);
    if err != None {
      return;
    }
    err := AppendData(json, entry.value, cfg, depth);
    AppendedThen(base, c2, json.Contents(), Then(front, EncodeKey(entry.key)), Encode(entry.value, cfg, depth), err);
  }

  method AppendKey(json: B.Strbuf, key: Key) returns (err: Option<EncodeError>)
    requires json.Valid() && json.increment < 0 && StorableKey(key)
    modifies json, json.buf
    ensures json.Valid() && json.increment == old(json.increment) && (json.buf == old(json.buf) || fresh(json.buf))
    ensures Appended(old(json.Contents()), json.Contents(), EncodeKey(key), err)
  {
    hide IntText, Quoted;
    err := None;
    ghost var base := json.Contents();
    match key {
      case IntKey(k) =>
        json.AppendChar(34);
        AppendInteger(json, k);
        json.AppendMem([34, 58]);
        assert base + [34] + IntText(k) + [34, 58] == base + ([34] + IntText(k) + [34, 58]);
      case StrKey(s) =>
        var safe := AppendQuoted(json, s);
        json.AppendChar(58);
        assert base + Quoted(s) + [58] == base + (Quoted(s) + [58]);
      case OtherKey =>
        err := Some(BadKey);
    }
  }

  /** Encodes a value into an emptied buffer. */
  method EncodeText(json: B.Strbuf, v: Value, cfg: Config) returns (r: Encoded)
    requires json.Valid() && json.increment < 0 && Storable(v, cfg)
    modifies json, json.buf
    ensures r == Encode(v, cfg, 0) && json.Valid()
  {
    hide Encode, Storable;
    json.Reset();
    var err := AppendData(json, v, cfg, 0);
    ghost var e := Encode(v, cfg, 0);
    if err == None {
      r := Ok(json.buf[..json.length]);
      assert [] + e.value == e.value;
    } else {
      r := Err(err.value);
    }
  }

  // ---------------------------------------------------------------- parser

  /** The UTF-8 of a code point, put together from its bits. */
  method CodepointToUtf8(codepoint: nat) returns (utf8: seq<byte>)
    requires codepoint <= 0x1FFFFF
    ensures utf8 == ToUtf8(codepoint)
  {
    hide BitAnd, BitOr, ShiftRight;
    CodePointDigits(codepoint);
    MarkersAdd(codepoint / 64);
    MarkersAdd(codepoint / 4096);
    MarkersAdd(codepoint / 262144);
    MarkersAdd(codepoint % 64);
    MarkersAdd(codepoint / 64 % 64);
    MarkersAdd(codepoint / 4096 % 64);
    if codepoint <= 0x7F {
      return [codepoint];
    }
    if codepoint <= 0x7FF {
      return [BitOr(ShiftRight(codepoint, 6), 0xC0), BitOr(BitAnd(codepoint, 0x3F), 0x80)];
    }
    if codepoint <= 0xFFFF {
      return [BitOr(ShiftRight(codepoint, 12), 0xE0), BitOr(BitAnd(ShiftRight(codepoint, 6), 0x3F), 0x80),
              BitOr(BitAnd(codepoint, 0x3F), 0x80)];
    }
    utf8 := [BitOr(ShiftRight(codepoint, 18), 0xF0), BitOr(BitAnd(ShiftRight(codepoint, 12), 0x3F), 0x80),
             BitOr(BitAnd(ShiftRight(codepoint, 6), 0x3F), 0x80), BitOr(BitAnd(codepoint, 0x3F), 0x80)];
  }

  /** The buffer for decoded strings is sized from the length of the text as an int. */
  predicate TextFits(len: nat) {
    len < TWO31 - 1
  }

  /** The size that strbuf_init computes for a length given as an int. */
  function InitialSize(len: int): int
    requires len < TWO31
  {
    if len <= 0 then B.STRBUF_DEFAULT_SIZE else Signed(Narrow(len + 1))
  }

  /** It exceeds the length of the text exactly for these texts. */
  lemma TextFitsExact(len: nat)
    ensures Signed(Narrow(len)) < TWO31
    ensures InitialSize(Signed(Narrow(len))) > len <==> TextFits(len)
    ensures TextFits(len) ==> Signed(Narrow(len)) == len
  {
    NarrowAtMost(len);
  }

  /** A text of 2^32 + 5 bytes gets a buffer of six. */
  lemma BufferOfSix()
    ensures InitialSize(Signed(Narrow(0x1_0000_0005))) == 6 && !TextFits(0x1_0000_0005)
  {
  }

  class Parser {
    const text: seq<byte>
    const cfg: Config
    const tmp: B.Strbuf  // decoded characters of the current string
    var ptr: nat
    var depth: nat

    /** The buffer never has to grow: it can hold a string as long as the text. */
    ghost predicate Valid()
      reads this, tmp, tmp.buf
    {
      ptr <= |text| && tmp.Valid() && |text| < tmp.buf.Length
    }

    constructor (text: seq<byte>, cfg: Config)
      requires TextFits(|text|)
      ensures this.text == text && this.cfg == cfg && ptr == 0 && depth == 0
      ensures Valid() && fresh(tmp) && fresh(tmp.buf)
    {
      this.text, this.cfg := text, cfg;
      TextFitsExact(|text|);
      tmp := new B.Strbuf(Signed(Narrow(|text|)));
      ptr, depth := 0, 0;
    }

    /** Decodes the escape at ptr, which is a backslash and u, into the buffer. */
    method AppendUnicodeEscape() returns (ok: bool)
      requires Valid() && tmp.length < ptr && At(text, ptr) == 92 && At(text, ptr + 1) == 117
      modifies `ptr, tmp`length, tmp.buf
      ensures Valid() && ptr >= old(ptr)
      ensures ok <==> UnicodeEscape(text, old(ptr)).Some?
      ensures ok ==> var e := UnicodeEscape(text, old(ptr)).value;
        ptr == old(ptr) + e.size && tmp.Contents() == old(tmp.Contents()) + e.bytes
    {
      hide Hex4, ToUtf8, BitAnd, BitOr, ShiftLeft;
      var escapeLen := 6;
      var codepoint := Hex4(text, ptr + 2);
      if codepoint < 0 {
        return false;
      }
      SurrogateBits(codepoint);
      if BitAnd(codepoint, 0xF800) == 0xD800 {
        if BitAnd(codepoint, 0x400) != 0 {
          return false;
        }
        if At(text, ptr + escapeLen) != 92 || At(text, ptr + escapeLen + 1) != 117 {
          return false;
        }
        var low := Hex4(text, ptr + 2 + escapeLen);
        if low < 0 {
          return false;
        }
        SurrogateBits(low);
        if BitAnd(low, 0xFC00) != 0xDC00 {
          return false;
        }
        PairBits(codepoint % 0x400, low % 0x400);
        codepoint := BitOr(ShiftLeft(BitAnd(codepoint, 0x3FF), 10), BitAnd(low, 0x3FF)) + 0x10000;
        escapeLen := 12;
      }
      var utf8 := CodepointToUtf8(codepoint);
      tmp.AppendMemUnsafe(utf8);
      ptr := ptr + escapeLen;
      return true;
    }

    /** Decodes one character or escape of a string into the buffer. */
    method NextCharacter() returns (err: Option<TextError>, ghost bytes: seq<byte>)
      requires Valid() && tmp.length < ptr && At(text, ptr) != 34
      modifies `ptr, tmp`length, tmp.buf
      ensures Valid() && ptr >= old(ptr)
      ensures err.Some? ==> ParseChars(text, old(ptr)) == Bad(err.value)
      ensures err.None? ==>
        && ptr > old(ptr) && tmp.length - old(tmp.length) <= ptr - old(ptr)
        && tmp.Contents() == old(tmp.Contents()) + bytes
        && ParseChars(text, old(ptr)) == Prepend(bytes, ParseChars(text, ptr))
    {
      bytes := [];
      var ch := At(text, ptr);
      if ch == 0 {
        return Some(EndOfString), [];
      }
      if ch == 92 {
        ch := Unescape(At(text, ptr + 1));
        if ch == 117 {
          bytes := match UnicodeEscape(text, ptr) case Some(e) => e.bytes case None => [];
          var ok := AppendUnicodeEscape();
          return if ok then None else Some(InvalidUnicode), bytes;
        }
        if ch == 0 {
          return Some(InvalidEscape), [];
        }
        ptr := ptr + 1;
      }
      tmp.AppendCharUnsafe(ch);
      ptr := ptr + 1;
      return None, [ch];
    }

    /** Reads a string whose opening quote is at ptr. */
    method NextStringToken() returns (r: Token)
      requires Valid() && ptr < |text| && text[ptr] == 34
      modifies `ptr, tmp`length, tmp.buf
      ensures Valid() && ptr >= old(ptr)
      ensures match ParseChars(text, old(ptr) + 1)
        case Chars(bytes, next) => r == StringToken(bytes) && ptr == next
        case Bad(e) => r == ErrorToken(e)
    {
      hide ParseChars, Prepend;
      ptr := ptr + 1;
      ghost var start := ptr;
      tmp.Reset();
      PrependNone(ParseChars(text, ptr));
      while At(text, ptr) != 34
        invariant Valid() && 0 < start <= ptr && tmp.length <= ptr - start
        invariant ParseChars(text, start) == Prepend(tmp.Contents(), ParseChars(text, ptr))
        decreases |text| - ptr
      {
        ghost var before, p := tmp.Contents(), ptr;
        var err: Option<TextError>;
        ghost var bytes;
        err, bytes := NextCharacter();
        if err.Some? {
          PrependBad(before, err.value);
          return ErrorToken(err.value);
        }
        PrependTwice(before, bytes, ParseChars(text, ptr));
      }
      ParseQuote(text, ptr);
      PrependLast(tmp.Contents(), ptr + 1);
      ptr := ptr + 1;
      tmp.EnsureNull();
      r := StringToken(tmp.buf[..tmp.length]);
    }

    /** Skips white space and reads one token.  After an error the position is of no interest. */
    method ReadToken() returns (r: Token)
      requires Valid()
      modifies `ptr, tmp`length, tmp.buf
      ensures Valid() && ptr >= old(ptr)
      ensures r == NextToken(text, old(ptr), cfg).token
      ensures !r.ErrorToken? ==> ptr == NextToken(text, old(ptr), cfg).next
    {
      hide ParseChars, LooseNumber, NumberToken, TokenAt, Holds;
      while Space(At(text, ptr))
        invariant Valid() && ptr >= old(ptr) && SkipSpace(text, ptr) == SkipSpace(text, old(ptr))
        decreases |text| - ptr
      {
        ptr := ptr + 1;
      }
      r := ReadTokenAt();
    }

    /** Reads the token at ptr, which is not white space. */
    method ReadTokenAt() returns (r: Token)
      requires Valid()
      modifies `ptr, tmp`length, tmp.buf
      ensures Valid() && ptr >= old(ptr)
      ensures r == TokenAt(text, old(ptr), cfg).token
      ensures !r.ErrorToken? ==> ptr == TokenAt(text, old(ptr), cfg).next
    {
      hide ParseChars, LooseNumber, NumberToken;
      var ch := At(text, ptr);
      if ch == 0 {
        return EndToken;
      }
      if ch == 123 || ch == 125 || ch == 91 || ch == 93 || ch == 44 || ch == 58 {
        ptr := ptr + 1;
        return if ch == 123 then ObjBegin else if ch == 125 then ObjEnd else if ch == 91 then ArrBegin
               else if ch == 93 then ArrEnd else if ch == 44 then CommaToken else ColonToken;
      }
      if ch == 34 {
        r := NextStringToken();
        return;
      } else if ch == 45 || 48 <= ch <= 57 {
        if !cfg.decodeInvalidNumbers && LooseNumber(text, ptr) {
          return ErrorToken(TextError.InvalidNumber);
        }
        r := ReadNumber();
        return;
      } else if Holds(text, ptr, TRUE_TEXT) {
        ptr := ptr + 4;
        return BoolToken(true);
      } else if Holds(text, ptr, FALSE_TEXT) {
        ptr := ptr + 5;
        return BoolToken(false);
      } else if Holds(text, ptr, NULL_TEXT) {
        ptr := ptr + 4;
        return NullToken;
      } else if (ch == 43 || ch == 105 || ch == 73 || ch == 110 || ch == 78) && cfg.decodeInvalidNumbers && LooseNumber(text, ptr) {
        r := ReadNumber();
        return;
      }
      return ErrorToken(InvalidToken);
    }

    method ReadNumber() returns (r: Token)
      requires Valid()
      modifies `ptr
      ensures Valid() && ptr >= old(ptr)
      ensures r == NumberToken(text, old(ptr)).token
      ensures !r.ErrorToken? ==> ptr == NumberToken(text, old(ptr)).next
    {
      hide Strtoll;
      var n := Strtoll(text, ptr);
      if n.next == ptr {
        return ErrorToken(TextError.InvalidNumber);
      }
      ptr := n.next;
      if At(text, ptr) == 46 || At(text, ptr) == 69 || At(text, ptr) == 101 {
        return RealToken;
      }
      return IntToken(n.value);
    }

    /** What a parsing method did: it returns the specified value, having moved past it, or the
        specified error. */
    ghost predicate Did(r: Result<Value, DecodeError>, spec: Decoded, depth0: nat)
      reads this
    {
      match spec
      case Ok(p) => r == Ok(p.value) && ptr == p.next && depth == depth0
      case Err(e) => r == Err(e)
    }

    method ProcessValue(token: Token) returns (r: Result<Value, DecodeError>)
      requires Valid() && depth <= cfg.decodeMaxDepth
      modifies this, tmp`length, tmp.buf
      ensures Valid()
      ensures Did(r, ParseValue(text, cfg, token, old(ptr), old(depth)), old(depth))
      decreases |text| - ptr, cfg.decodeMaxDepth - depth, 1
    {
      hide ParseArray, ParseObject, NextToken;
      match token
      case StringToken(s) => r := Ok(Str(s));
      case IntToken(n) => r := Ok(Int(n));
      case BoolToken(b) => r := Ok(Bool(b));
      case RealToken => r := Err(Fraction);
      case ObjBegin => r := ParseObjectContext();
      case ArrBegin => r := ParseArrayContext();
      case NullToken => r := Ok(Null);
      case _ => r := Err(Expected(AnyValue, token));
    }

    method ParseArrayContext() returns (r: Result<Value, DecodeError>)
      requires Valid() && depth <= cfg.decodeMaxDepth
      modifies this, tmp`length, tmp.buf
      ensures Valid()
      ensures Did(r, ParseValue(text, cfg, ArrBegin, old(ptr), old(depth)), old(depth))
      decreases |text| - ptr, cfg.decodeMaxDepth - depth, 0
    {
      hide ParseElements, ParseValue, NextToken;
      ghost var spec := ParseValue(text, cfg, ArrBegin, ptr, depth);
      ArrayBegins(text, cfg, ptr, depth);
      depth := depth + 1;
      if depth > cfg.decodeMaxDepth {
        return Err(TooNested);
      }
      var entries: seq<Entry> := [];
      var token := ReadToken();
      if token == ArrEnd {
        depth := depth - 1;
        return Ok(Table([]));
      }
      ErrorElements(text, cfg, token, NextToken(text, old(ptr), cfg).next, ptr, depth, []);
      while true
        invariant Valid() && depth == old(depth) + 1 <= cfg.decodeMaxDepth && ptr >= old(ptr)
        invariant spec == ParseElements(text, cfg, token, ptr, depth, entries)
        decreases |text| - ptr
      {
        ghost var p := ptr;
        ElementsUnfold(text, cfg, token, p, depth, entries);
        var v := ProcessValue(token);
        if v.Err? {
          return v;
        }
        entries := entries + [Entry(IntKey(|entries| + 1), v.value)];
        ghost var q := ptr;
        token := ReadToken();
        if token == ArrEnd {
          depth := depth - 1;
          return Ok(Table(entries));
        }
        if token != CommaToken {
          return Err(Expected(CommaOrArrayEnd, token));
        }
        ghost var c := ptr;
        token := ReadToken();
        ErrorElements(text, cfg, token, NextToken(text, c, cfg).next, ptr, depth, entries);
      }
    }

    /** Reads the colon behind a key and the value. */
    method ReadMember() returns (r: Result<Value, DecodeError>)
      requires Valid() && depth <= cfg.decodeMaxDepth
      modifies this, tmp`length, tmp.buf
      ensures Valid()
      ensures Did(r, ParseAfterKey(text, cfg, old(ptr), old(depth)), old(depth))
      decreases |text| - ptr, cfg.decodeMaxDepth - depth, 0
    {
      hide ParseValue, NextToken;
      var token := ReadToken();
      if token != ColonToken {
        return Err(Expected(Colon, token));
      }
      ghost var c := ptr;
      token := ReadToken();
      ErrorValue(text, cfg, token, NextToken(text, c, cfg).next, ptr, depth);
      r := ProcessValue(token);
    }

    method ParseObjectContext() returns (r: Result<Value, DecodeError>)
      requires Valid() && depth <= cfg.decodeMaxDepth
      modifies this, tmp`length, tmp.buf
      ensures Valid()
      ensures Did(r, ParseValue(text, cfg, ObjBegin, old(ptr), old(depth)), old(depth))
      decreases |text| - ptr, cfg.decodeMaxDepth - depth, 0
    {
      hide ParseMembers, ParseValue, ParseAfterKey, NextToken, RawSet;
      ghost var spec := ParseValue(text, cfg, ObjBegin, ptr, depth);
      ObjectBegins(text, cfg, ptr, depth);
      depth := depth + 1;
      if depth > cfg.decodeMaxDepth {
        return Err(TooNested);
      }
      var entries: seq<Entry> := [];
      var token := ReadToken();
      if token == ObjEnd {
        depth := depth - 1;
        return Ok(Table([]));
      }
      ErrorMembers(text, cfg, token, NextToken(text, old(ptr), cfg).next, ptr, depth, []);
      while true
        invariant Valid() && depth == old(depth) + 1 <= cfg.decodeMaxDepth && ptr >= old(ptr)
        invariant spec == ParseMembers(text, cfg, token, ptr, depth, entries)
        decreases |text| - ptr
      {
        MembersUnfold(text, cfg, token, ptr, depth, entries);
        if !token.StringToken? {
          return Err(Expected(ObjectKey, token));
        }
        var key := token.s;
        var v := ReadMember();
        if v.Err? {
          return v;
        }
        entries := RawSet(entries, StrKey(key), v.value);
        token := ReadToken();
        if token == ObjEnd {
          depth := depth - 1;
          return Ok(Table(entries));
        }
        if token != CommaToken {
          return Err(Expected(CommaOrObjectEnd, token));
        }
        ghost var d := ptr;
        token := ReadToken();
        ErrorMembers(text, cfg, token, NextToken(text, d, cfg).next, ptr, depth, entries);
      }
    }
  }

  lemma ArrayBegins(text: seq<byte>, cfg: Config, p: nat, depth: nat)
    requires p <= |text| && depth <= cfg.decodeMaxDepth
    ensures var t := NextToken(text, p, cfg);
      ParseValue(text, cfg, ArrBegin, p, depth) ==
      if depth + 1 > cfg.decodeMaxDepth then Err(TooNested)
      else if t.token == ArrEnd then Ok(Parsed(Table([]), t.next))
      else ParseElements(text, cfg, t.token, t.next, depth + 1, [])
  {
    hide ParseElements, NextToken;
  }

  lemma ObjectBegins(text: seq<byte>, cfg: Config, p: nat, depth: nat)
    requires p <= |text| && depth <= cfg.decodeMaxDepth
    ensures var t := NextToken(text, p, cfg);
      ParseValue(text, cfg, ObjBegin, p, depth) ==
      if depth + 1 > cfg.decodeMaxDepth then Err(TooNested)
      else if t.token == ObjEnd then Ok(Parsed(Table([]), t.next))
      else ParseMembers(text, cfg, t.token, t.next, depth + 1, [])
  {
    hide ParseMembers, NextToken;
  }

  /** A bad token is an error wherever the text goes on. */
  lemma ErrorValue(text: seq<byte>, cfg: Config, token: Token, p: nat, q: nat, depth: nat)
    requires p <= |text| && q <= |text| && depth <= cfg.decodeMaxDepth && (token.ErrorToken? || p == q)
    ensures ParseValue(text, cfg, token, p, depth) == ParseValue(text, cfg, token, q, depth)
  {
    hide ParseArray, ParseObject;
  }

  lemma ErrorElements(text: seq<byte>, cfg: Config, token: Token, p: nat, q: nat, depth: nat, acc: seq<Entry>)
    requires p <= |text| && q <= |text| && depth <= cfg.decodeMaxDepth && (token.ErrorToken? || p == q)
    ensures ParseElements(text, cfg, token, p, depth, acc) == ParseElements(text, cfg, token, q, depth, acc)
  {
    hide NextToken;
  }

  lemma ErrorMembers(text: seq<byte>, cfg: Config, token: Token, p: nat, q: nat, depth: nat, acc: seq<Entry>)
    requires p <= |text| && q <= |text| && depth <= cfg.decodeMaxDepth && (token.ErrorToken? || p == q)
    ensures ParseMembers(text, cfg, token, p, depth, acc) == ParseMembers(text, cfg, token, q, depth, acc)
  {
    hide NextToken, ParseAfterKey, RawSet;
  }

  lemma ElementsUnfold(text: seq<byte>, cfg: Config, token: Token, p: nat, depth: nat, acc: seq<Entry>)
    requires p <= |text| && depth <= cfg.decodeMaxDepth
    ensures var v := ParseValue(text, cfg, token, p, depth);
      ParseElements(text, cfg, token, p, depth, acc) ==
      if v.Err? then v
      else
        var entries := acc + [Entry(IntKey(|acc| + 1), v.value.value)];
        var t := NextToken(text, v.value.next, cfg);
        if t.token == ArrEnd then Ok(Parsed(Table(entries), t.next))
        else if t.token != CommaToken then Err(Expected(CommaOrArrayEnd, t.token))
        else
          var u := NextToken(text, t.next, cfg);
          ParseElements(text, cfg, u.token, u.next, depth, entries)
  {
    hide NextToken, ParseValue;
  }

  lemma MembersUnfold(text: seq<byte>, cfg: Config, token: Token, p: nat, depth: nat, acc: seq<Entry>)
    requires p <= |text| && depth <= cfg.decodeMaxDepth
    ensures var v := ParseAfterKey(text, cfg, p, depth);
      ParseMembers(text, cfg, token, p, depth, acc) ==
      if !token.StringToken? then Err(Expected(ObjectKey, token))
      else if v.Err? then v
      else
        var entries := RawSet(acc, StrKey(token.s), v.value.value);
        var t := NextToken(text, v.value.next, cfg);
        if t.token == ObjEnd then Ok(Parsed(Table(entries), t.next))
        else if t.token != CommaToken then Err(Expected(CommaOrObjectEnd, t.token))
        else
          var u := NextToken(text, t.next, cfg);
          ParseMembers(text, cfg, u.token, u.next, depth, entries)
  {
    hide NextToken, ParseAfterKey, RawSet;
  }

  /** Decodes a whole text.  There is no result where the buffer for decoded strings would be
      smaller than the text, so that unchecked appends could pass its end. */
  method DecodeText(text: seq<byte>, cfg: Config) returns (r: Option<Result<Value, DecodeError>>)
    ensures r == if TextFits(|text|) || WideText(text) then Some(Decode(text, cfg)) else None
  {
    hide NextToken, ParseValue;
    if WideText(text) {
      return Some(Err(WideEncoding));
    }
    if !TextFits(|text|) {
      return None;
    }
    var json := new Parser(text, cfg);
    var token := json.ReadToken();
    ErrorValue(text, cfg, token, NextToken(text, 0, cfg).next, json.ptr, 0);
    var v := json.ProcessValue(token);
    r := Some(v);
    if v.Ok? {
      token := json.ReadToken();
      if token != EndToken {
        return Some(Err(Expected(TheEnd, token)));
      }
    }
  }

  /** A text whose first bytes betray UTF-16 or UTF-32. */
  predicate WideText(text: seq<byte>) {
    |text| >= 2 && (text[0] == 0 || text[1] == 0)
  }

  lemma PrependBad(s: seq<byte>, e: TextError)
    ensures Prepend(s, Bad(e)) == Bad(e)
  {
  }

  lemma PrependLast(s: seq<byte>, next: nat)
    ensures Prepend(s, Chars([], next)) == Chars(s, next)
  {
    assert s + [] == s;
  }
}
