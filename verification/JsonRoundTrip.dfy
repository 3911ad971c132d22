/** Decoding undoes encoding. */
module JsonRoundTrip {
  import opened Serial
  import opened Utf8
  import opened JsonText
  import opened JsonValue
  import opened JsonGrammar
  import opened JsonLayout

  /** The keys are 1, 2, 3 and so on. */
  predicate IsArray(entries: seq<Entry>) {
    entries != [] && forall i :: 0 <= i < |entries| ==> entries[i].key == IntKey(i + 1)
  }

  /** The keys are different strings. */
  predicate IsObject(entries: seq<Entry>) {
    && (forall i :: 0 <= i < |entries| ==> entries[i].key.StrKey?)
    && (forall i, j :: 0 <= i < j < |entries| ==> entries[i].key != entries[j].key)
  }

  /** The values both sides can express, nested at most room deep. */
  predicate Plain(v: Value, room: nat) {
    match v
    case Null => true
    case Bool(_) => true
    case Int(n) => LLONG_MIN <= n <= LLONG_MAX
    case Str(_) => true
    case Table(entries) =>
      room > 0 && (IsArray(entries) || IsObject(entries))
      && forall i :: 0 <= i < |entries| ==> Plain(entries[i].value, room - 1)
    case _ => false
  }

  // ---------------------------------------------------------------- plain tables

  lemma {:induction false} MaxKeyOfArray(entries: seq<Entry>)
    requires PositiveKeys(entries) && forall i :: 0 <= i < |entries| ==> entries[i].key == IntKey(i + 1)
    ensures MaxKey(entries) == |entries|
  {
    if entries != [] {
      MaxKeyOfArray(entries[..|entries| - 1]);
    }
  }

  lemma LengthOfArray(entries: seq<Entry>, cfg: Config)
    requires IsArray(entries)
    ensures ArrayLength(entries, cfg) == Ok(|entries|)
  {
    MaxKeyOfArray(entries);
    if cfg.sparseRatio > 0 {
      assert |entries| * cfg.sparseRatio >= |entries|;
    }
  }

  lemma LengthOfObject(entries: seq<Entry>, cfg: Config)
    requires IsObject(entries)
    ensures ArrayLength(entries, cfg).Ok? && ArrayLength(entries, cfg).value <= 0
  {
    if entries != [] {
      assert !PositiveKey(entries[0].key);
    }
  }

  lemma ArrayElement(entries: seq<Entry>, i: nat)
    requires IsArray(entries) && i < |entries|
    ensures IndexOf(entries, IntKey(i + 1)) == i
  {
    var j := IndexOf(entries, IntKey(i + 1));
    assert entries[i].key == IntKey(i + 1);
    if j < |entries| {
      assert entries[j].key == IntKey(j + 1);
    }
  }

  // ---------------------------------------------------------------- which tables are arrays

  /** A table is written as an array exactly if all its keys are positive integers and there are not far fewer of
      them than the largest says; if there are, that is an error, or it is written as an object. */
  lemma TableKind(entries: seq<Entry>, cfg: Config, max: nat)
    requires forall i :: 0 <= i < |entries| && entries[i].key.IntKey? ==> entries[i].key.k <= max
    requires max == 0 || exists i :: 0 <= i < |entries| && entries[i].key == IntKey(max)
    ensures var all := forall i :: 0 <= i < |entries| ==> entries[i].key.IntKey? && entries[i].key.k >= 1;
      var sparse := cfg.sparseRatio > 0 && max > |entries| * cfg.sparseRatio && max > cfg.sparseSafe;
      var r: Result<int, EncodeError> :=
        if !all then Ok(-1) else if !sparse then Ok(max as int) else if cfg.sparseConvert then Ok(-1) else Err(TooSparse);
      ArrayLength(entries, cfg) == r
  {
    if PositiveKeys(entries) {
      MaxKeyIs(entries, max);
      hide MaxKey;
      forall i | 0 <= i < |entries| ensures entries[i].key.IntKey? && entries[i].key.k >= 1 {
        assert PositiveKey(entries[i].key);
      }
    } else {
      var i :| 0 <= i < |entries| && !PositiveKey(entries[i].key);
    }
  }

  lemma {:induction false} MaxKeyReached(entries: seq<Entry>)
    requires PositiveKeys(entries)
    ensures MaxKey(entries) == 0 || exists i :: 0 <= i < |entries| && entries[i].key == IntKey(MaxKey(entries))
    decreases |entries|
  {
    if entries != [] {
      var init := entries[..|entries| - 1];
      MaxKeyReached(init);
      if i :| 0 <= i < |init| && init[i].key == IntKey(MaxKey(init)) {
        assert entries[i].key == IntKey(MaxKey(init));
      }
      assert PositiveKey(entries[|entries| - 1].key);
    }
  }

  lemma MaxKeyIs(entries: seq<Entry>, max: nat)
    requires PositiveKeys(entries) && forall i :: 0 <= i < |entries| && entries[i].key.IntKey? ==> entries[i].key.k <= max
    requires max == 0 || exists i :: 0 <= i < |entries| && entries[i].key == IntKey(max)
    ensures MaxKey(entries) == max
  {
    MaxKeyReached(entries);
    hide MaxKey;
    if i :| 0 <= i < |entries| && entries[i].key == IntKey(max) {
      assert entries[i].key.k <= MaxKey(entries);
    }
  }

  // ---------------------------------------------------------------- what is encoded

  predicate TreatedAsArray(entries: seq<Entry>, cfg: Config) {
    var len := ArrayLength(entries, cfg); len.Ok? && len.value > 0
  }

  /** The name an object member gets. */
  function KeyText(key: Key): seq<byte> {
    match key
    case IntKey(k) => IntText(k)
    case StrKey(s) => s
    case OtherKey => []
  }

  /** The document an encodable value is written as. */
  function DocOf(v: Value, cfg: Config): Doc
    decreases v
  {
    match v
    case Str(s) => Scalar(StringToken(s))
    case Int(n) => Scalar(IntToken(n))
    case Bool(b) => Scalar(BoolToken(b))
    case Table(entries) =>
      if TreatedAsArray(entries, cfg) then
        Arr(seq(ArrayLength(entries, cfg).value, i requires 0 <= i < ArrayLength(entries, cfg).value =>
          var j := IndexOf(entries, IntKey(i + 1)); if j < |entries| then DocOf(entries[j].value, cfg) else Scalar(NullToken)))
      else
        Obj(seq(|entries|, i requires 0 <= i < |entries| => Member(KeyText(entries[i].key), DocOf(entries[i].value, cfg))))
    case _ => Scalar(NullToken)
  }

  /** Tokens one directly behind the other. */
  function Text(toks: seq<Token>): seq<byte> {
    if toks == [] then [] else TokenText(toks[0]) + Text(toks[1..])
  }

  lemma {:induction false} TextJoin(a: seq<Token>, b: seq<Token>)
    ensures Text(a + b) == Text(a) + Text(b)
    decreases |a|
  {
    if a == [] {
      assert a + b == b;
    } else {
      assert (a + b)[1..] == a[1..] + b;
      TextJoin(a[1..], b);
    }
  }

  lemma TextOne(t: Token)
    ensures Text([t]) == TokenText(t)
  {
    assert Text([t][1..]) == [];
  }

  function NoGaps(n: nat): (gaps: seq<seq<byte>>)
    ensures |gaps| == n && AllWhite(gaps)
  {
    seq(n, _ => [])
  }

  lemma {:induction false} LayOfText(toks: seq<Token>)
    ensures Lay(toks, NoGaps(|toks|)) == Text(toks)
    decreases |toks|
  {
    hide TokenText;
    if toks != [] {
      assert NoGaps(|toks|)[1..] == NoGaps(|toks| - 1);
      LayOfText(toks[1..]);
    }
  }

  /** The first n items with the commas between them. */
  function ItemsTo(items: seq<Doc>, n: nat): seq<Token>
    requires n <= |items|
  {
    if n == 0 then [] else ItemsTo(items, n - 1) + Lead(n - 1) + Spell(items[n - 1])
  }

  lemma {:induction false} ItemsWhole(items: seq<Doc>, n: nat)
    requires n <= |items|
    ensures ItemsTo(items, n) + ItemsFrom(items, n) == ItemsFrom(items, 0)
  {
    hide Spell;
    if n > 0 {
      ItemsWhole(items, n - 1);
    }
  }

  function MembersTo(members: seq<Member>, n: nat): seq<Token>
    requires n <= |members|
  {
    if n == 0 then []
    else
      MembersTo(members, n - 1) + Lead(n - 1) + [StringToken(members[n - 1].name), ColonToken] + Spell(members[n - 1].doc)
  }

  lemma {:induction false} MembersWhole(members: seq<Member>, n: nat)
    requires n <= |members|
    ensures MembersTo(members, n) + MembersFrom(members, n) == MembersFrom(members, 0)
  {
    hide Spell;
    if n > 0 {
      MembersWhole(members, n - 1);
    }
  }

  lemma TextLead(i: nat)
    ensures Text(Lead(i)) == Comma(i)
  {
    TextOne(CommaToken);
  }

  /** Whatever is encoded is the text of its document. */
  lemma {:induction false} EncodeIsText(v: Value, cfg: Config, depth: nat)
    requires Encode(v, cfg, depth).Ok?
    ensures Encode(v, cfg, depth).value == Text(Spell(DocOf(v, cfg)))
    decreases v, 1, 0
  {
    hide EncodeElements, EncodeMembers, ArrayLength, ItemsFrom, MembersFrom, TokenText;
    if !v.Table? {
      ScalarIsText(v, cfg, depth);
    } else if TreatedAsArray(v.entries, cfg) {
      ArrayIsText(v, cfg, depth);
    } else {
      ObjectIsText(v, cfg, depth);
    }
  }

  lemma ScalarIsText(v: Value, cfg: Config, depth: nat)
    requires !v.Table? && Encode(v, cfg, depth).Ok?
    ensures Encode(v, cfg, depth).value == Text(Spell(DocOf(v, cfg)))
  {
    hide Text, Quoted, IntText;
    var d := DocOf(v, cfg);
    TextOne(d.token);
  }

  lemma {:induction false} ArrayIsText(v: Value, cfg: Config, depth: nat)
    requires v.Table? && TreatedAsArray(v.entries, cfg) && Encode(v, cfg, depth).Ok?
    ensures Encode(v, cfg, depth).value == Text(Spell(DocOf(v, cfg)))
    decreases v, 0, |v.entries| + ArrayLength(v.entries, cfg).value + 1
  {
    hide EncodeElements, EncodeMembers, ArrayLength, ItemsFrom, MembersFrom, TokenText, Text;
    var n := ArrayLength(v.entries, cfg).value;
    var items := DocOf(v, cfg).items;
    ElementsAreText(v, cfg, depth + 1, n);
    ItemsWhole(items, n);
    LastItems(items);
    TextJoin(ItemsTo(items, n), [ArrEnd]);
    TextJoin([ArrBegin], ItemsFrom(items, 0));
    TextOne(ArrBegin);
    TextOne(ArrEnd);
    MarkTexts();
  }

  lemma LastItems(items: seq<Doc>)
    ensures ItemsFrom(items, |items|) == [ArrEnd]
  {
  }

  lemma LastMembers(members: seq<Member>)
    ensures MembersFrom(members, |members|) == [ObjEnd]
  {
  }

  lemma MarkTexts()
    ensures TokenText(ArrBegin) == [91] && TokenText(ArrEnd) == [93] && TokenText(ObjBegin) == [123] && TokenText(ObjEnd) == [125]
    ensures TokenText(CommaToken) == [44] && TokenText(ColonToken) == [58] && TokenText(NullToken) == NULL_TEXT
  {
  }

  lemma {:induction false} ElementsAreText(v: Value, cfg: Config, depth: nat, n: nat)
    requires v.Table? && TreatedAsArray(v.entries, cfg) && n <= ArrayLength(v.entries, cfg).value
    requires EncodeElements(v, cfg, depth, n).Ok?
    ensures EncodeElements(v, cfg, depth, n).value == Text(ItemsTo(DocOf(v, cfg).items, n))
    decreases v, 0, n
  {
    hide Encode, ArrayLength, Spell, TokenText, Text;
    var items := DocOf(v, cfg).items;
    if n > 0 {
      ElementsAreText(v, cfg, depth, n - 1);
      var i := IndexOf(v.entries, IntKey(n));
      if i < |v.entries| {
        EncodeIsText(v.entries[i].value, cfg, depth);
      } else {
        NullText();
      }
      TextLead(n - 1);
      TextJoin(ItemsTo(items, n - 1), Lead(n - 1));
      TextJoin(ItemsTo(items, n - 1) + Lead(n - 1), Spell(items[n - 1]));
    } else {
      NothingText();
    }
  }

  lemma NullText()
    ensures Text(Spell(Scalar(NullToken))) == NULL_TEXT
  {
    TextOne(NullToken);
  }

  lemma NothingText()
    ensures Text([]) == []
  {
  }

  lemma {:induction false} ObjectIsText(v: Value, cfg: Config, depth: nat)
    requires v.Table? && !TreatedAsArray(v.entries, cfg) && Encode(v, cfg, depth).Ok?
    ensures Encode(v, cfg, depth).value == Text(Spell(DocOf(v, cfg)))
    decreases v, 0, |v.entries| + 1
  {
    hide EncodeElements, EncodeMembers, ArrayLength, ItemsFrom, MembersFrom, TokenText, Text;
    var members := DocOf(v, cfg).members;
    var n := |v.entries|;
    MembersAreText(v, cfg, depth + 1, n);
    MembersWhole(members, n);
    LastMembers(members);
    TextJoin(MembersTo(members, n), [ObjEnd]);
    TextJoin([ObjBegin], MembersFrom(members, 0));
    TextOne(ObjBegin);
    TextOne(ObjEnd);
    MarkTexts();
  }

  /** A key is written as a string, also an integer one. */
  lemma KeyIsText(key: Key)
    requires EncodeKey(key).Ok?
    ensures EncodeKey(key).value == Text([StringToken(KeyText(key)), ColonToken])
  {
    hide Quoted, IntText;
    TextJoin([StringToken(KeyText(key))], [ColonToken]);
    TextOne(StringToken(KeyText(key)));
    TextOne(ColonToken);
    if key.IntKey? {
      DigitsPlain(key.k);
    }
    assert [StringToken(KeyText(key))] + [ColonToken] == [StringToken(KeyText(key)), ColonToken];
  }

  /** Nothing in a number is escaped. */
  lemma DigitsPlain(k: int)
    ensures Quoted(IntText(k)) == [34] + IntText(k) + [34]
  {
    IntChars(k);
    NotEscaped(IntText(k));
  }

  lemma {:induction false} PlainDigits(n: nat)
    ensures forall i :: 0 <= i < |Digits(n)| ==> 48 <= Digits(n)[i] <= 57
  {
    if n >= 10 {
      PlainDigits(n / 10);
    }
  }

  lemma IntChars(k: int)
    ensures forall i :: 0 <= i < |IntText(k)| ==> IntText(k)[i] == 45 || 48 <= IntText(k)[i] <= 57
  {
    PlainDigits(if k < 0 then -k else k);
    hide Digits;
  }

  lemma {:induction false} NotEscaped(s: seq<byte>)
    requires forall i :: 0 <= i < |s| ==> s[i] == 45 || 48 <= s[i] <= 57
    ensures EscapeAll(s) == s
    decreases |s|
  {
    EscapeAllLast(s);
    hide EscapeAll;
    if s != [] {
      NotEscaped(s[..|s| - 1]);
      assert s == s[..|s| - 1] + [s[|s| - 1]];
    }
  }

  lemma {:induction false} MembersAreText(v: Value, cfg: Config, depth: nat, n: nat)
    requires v.Table? && !TreatedAsArray(v.entries, cfg) && n <= |v.entries|
    requires EncodeMembers(v, cfg, depth, n).Ok?
    ensures EncodeMembers(v, cfg, depth, n).value == Text(MembersTo(DocOf(v, cfg).members, n))
    decreases v, 0, n
  {
    hide Encode, EncodeKey, ArrayLength, Spell, TokenText, Text;
    var members := DocOf(v, cfg).members;
    if n > 0 {
      var e := v.entries[n - 1];
      MembersAreText(v, cfg, depth, n - 1);
      EncodeIsText(e.value, cfg, depth);
      KeyIsText(e.key);
      TextLead(n - 1);
      var name := [StringToken(KeyText(e.key)), ColonToken];
      TextJoin(MembersTo(members, n - 1), Lead(n - 1));
      TextJoin(MembersTo(members, n - 1) + Lead(n - 1), name);
      TextJoin(MembersTo(members, n - 1) + Lead(n - 1) + name, Spell(members[n - 1].doc));
    } else {
      NothingText();
    }
  }

  // ---------------------------------------------------------------- what can be encoded

  /** An array element is looked up by its key, so of several entries with one key only the first is seen. */
  predicate Seen(entries: seq<Entry>, cfg: Config, i: nat)
    requires i < |entries|
  {
    TreatedAsArray(entries, cfg) ==> IndexOf(entries, entries[i].key) == i
  }

  /** Tables nest at most room deep, none is too sparse, and all keys and values are of a type that has a text. */
  predicate Encodable(v: Value, cfg: Config, room: nat)
    decreases v
  {
    match v
    case Other => false
    case Table(entries) =>
      room > 0 && ArrayLength(entries, cfg).Ok? &&
      forall i :: 0 <= i < |entries| && Seen(entries, cfg, i) ==>
        entries[i].key != OtherKey && Encodable(entries[i].value, cfg, room - 1)
    case _ => true
  }

  /** Encoding succeeds exactly for these values. */
  lemma {:induction false} EncodeExact(v: Value, cfg: Config, depth: nat)
    requires depth <= cfg.encodeMaxDepth
    ensures Encode(v, cfg, depth).Ok? <==> Encodable(v, cfg, cfg.encodeMaxDepth - depth)
    decreases v
  {
    hide EncodeElements, EncodeMembers, ArrayLength;
    if v.Table? && depth < cfg.encodeMaxDepth {
      var room := cfg.encodeMaxDepth - (depth + 1);
      forall i | 0 <= i < |v.entries|
        ensures Encode(v.entries[i].value, cfg, depth + 1).Ok? <==> Encodable(v.entries[i].value, cfg, room)
      {
        EncodeExact(v.entries[i].value, cfg, depth + 1);
      }
      TableExact(v, cfg, depth);
    }
  }

  lemma TableExact(v: Value, cfg: Config, depth: nat)
    requires v.Table? && depth < cfg.encodeMaxDepth
    ensures Encode(v, cfg, depth).Ok? <==>
      (ArrayLength(v.entries, cfg).Ok? &&
       forall i :: 0 <= i < |v.entries| && Seen(v.entries, cfg, i) ==>
         v.entries[i].key != OtherKey && Encode(v.entries[i].value, cfg, depth + 1).Ok?)
  {
    hide EncodeElements, EncodeMembers, ArrayLength;
    var len := ArrayLength(v.entries, cfg);
    if TreatedAsArray(v.entries, cfg) {
      ArrayKeys(v.entries, cfg);
      ElementsExact(v, cfg, depth + 1, len.value);
    } else {
      MembersExact(v, cfg, depth + 1, |v.entries|);
    }
  }

  lemma ArrayKeys(entries: seq<Entry>, cfg: Config)
    requires TreatedAsArray(entries, cfg)
    ensures forall i :: 0 <= i < |entries| ==> entries[i].key.IntKey? && 1 <= entries[i].key.k <= ArrayLength(entries, cfg).value
  {
    hide MaxKey;
    forall i | 0 <= i < |entries| ensures entries[i].key.IntKey? && 1 <= entries[i].key.k <= ArrayLength(entries, cfg).value {
      assert PositiveKey(entries[i].key);
    }
  }

  /** The entry is seen as one of the first n elements. */
  predicate ElementTo(entries: seq<Entry>, i: nat, n: nat)
    requires i < |entries|
  {
    entries[i].key.IntKey? && 1 <= entries[i].key.k <= n && IndexOf(entries, entries[i].key) == i
  }

  lemma {:induction false} ElementsExact(v: Value, cfg: Config, depth: nat, n: nat)
    requires v.Table?
    ensures EncodeElements(v, cfg, depth, n).Ok? <==>
      forall i :: 0 <= i < |v.entries| && ElementTo(v.entries, i, n) ==> Encode(v.entries[i].value, cfg, depth).Ok?
    decreases n
  {
    hide Encode;
    if n > 0 {
      ElementsExact(v, cfg, depth, n - 1);
      var j := IndexOf(v.entries, IntKey(n));
      assert j < |v.entries| ==> v.entries[j].key == IntKey(n);
    }
  }

  lemma {:induction false} MembersExact(v: Value, cfg: Config, depth: nat, n: nat)
    requires v.Table? && n <= |v.entries|
    ensures EncodeMembers(v, cfg, depth, n).Ok? <==>
      forall i :: 0 <= i < n ==> v.entries[i].key != OtherKey && Encode(v.entries[i].value, cfg, depth).Ok?
    decreases n
  {
    hide Encode, EncodeKey, Comma;
    if n > 0 {
      MembersExact(v, cfg, depth, n - 1);
      KeyExact(v.entries[n - 1].key);
    }
  }

  lemma KeyExact(key: Key)
    ensures EncodeKey(key).Ok? <==> key != OtherKey
  {
  }

  lemma {:induction false} EncodableDeeper(v: Value, cfg: Config, room: nat, more: nat)
    requires Encodable(v, cfg, room) && room <= more
    ensures Encodable(v, cfg, more)
    decreases v
  {
    hide ArrayLength, Seen;
    if v.Table? {
      forall i | 0 <= i < |v.entries| && Seen(v.entries, cfg, i)
        ensures v.entries[i].key != OtherKey && Encodable(v.entries[i].value, cfg, more - 1)
      {
        EncodableDeeper(v.entries[i].value, cfg, room - 1, more - 1);
      }
    }
  }

  // ---------------------------------------------------------------- what is read back

  /** All integers are 64-bit integers. */
  predicate Longs(v: Value) {
    match v
    case Int(n) => LLONG_MIN <= n <= LLONG_MAX
    case Table(entries) => forall i :: 0 <= i < |entries| ==> Longs(entries[i].value)
    case _ => true
  }

  /** The members of every object get different names. */
  predicate DistinctNames(v: Value, cfg: Config)
    decreases v
  {
    match v
    case Table(entries) =>
      && (forall i :: 0 <= i < |entries| ==> DistinctNames(entries[i].value, cfg))
      && (TreatedAsArray(entries, cfg) ||
          forall i, j :: 0 <= i < j < |entries| ==> KeyText(entries[i].key) != KeyText(entries[j].key))
    case _ => true
  }

  /** What comes back: nil as null, also where an array has no element, and integer keys of objects as their text. */
  function Reread(v: Value, cfg: Config): Value
    decreases v
  {
    match v
    case Nil => Null
    case Table(entries) =>
      if TreatedAsArray(entries, cfg) then
        Table(seq(ArrayLength(entries, cfg).value, i requires 0 <= i < ArrayLength(entries, cfg).value =>
          var j := IndexOf(entries, IntKey(i + 1));
          Entry(IntKey(i + 1), if j < |entries| then Reread(entries[j].value, cfg) else Null)))
      else
        Table(seq(|entries|, i requires 0 <= i < |entries| =>
          Entry(StrKey(KeyText(entries[i].key)), Reread(entries[i].value, cfg))))
    case _ => v
  }

  lemma {:induction false} DocLegal(v: Value, cfg: Config, room: nat)
    requires Encodable(v, cfg, room)
    ensures Legal(DocOf(v, cfg), room)
    decreases v
  {
    hide ArrayLength;
    if v.Table? {
      forall i | 0 <= i < |v.entries| && Seen(v.entries, cfg, i) ensures Legal(DocOf(v.entries[i].value, cfg), room - 1) {
        DocLegal(v.entries[i].value, cfg, room - 1);
      }
      TableLegal(v, cfg, room);
    }
  }

  lemma ArrayDoc(v: Value, cfg: Config)
    requires v.Table? && TreatedAsArray(v.entries, cfg)
    ensures DocOf(v, cfg).Arr? && |DocOf(v, cfg).items| == ArrayLength(v.entries, cfg).value
    ensures forall i :: 0 <= i < |DocOf(v, cfg).items| ==> var j := IndexOf(v.entries, IntKey(i + 1));
      DocOf(v, cfg).items[i] == if j < |v.entries| then DocOf(v.entries[j].value, cfg) else Scalar(NullToken)
  {
    hide ArrayLength, IndexOf;
  }

  lemma ObjectDoc(v: Value, cfg: Config)
    requires v.Table? && !TreatedAsArray(v.entries, cfg)
    ensures DocOf(v, cfg).Obj? && |DocOf(v, cfg).members| == |v.entries|
    ensures forall i :: 0 <= i < |v.entries| ==>
      DocOf(v, cfg).members[i] == Member(KeyText(v.entries[i].key), DocOf(v.entries[i].value, cfg))
  {
    hide ArrayLength, IndexOf, KeyText;
  }

  lemma TableLegal(v: Value, cfg: Config, room: nat)
    requires v.Table? && room > 0
    requires forall i :: 0 <= i < |v.entries| && Seen(v.entries, cfg, i) ==> Legal(DocOf(v.entries[i].value, cfg), room - 1)
    ensures Legal(DocOf(v, cfg), room)
  {
    hide ArrayLength, DocOf, KeyText, TreatedAsArray, IndexOf;
    var d := DocOf(v, cfg);
    if TreatedAsArray(v.entries, cfg) {
      ArrayDoc(v, cfg);
      forall i | 0 <= i < |d.items| ensures Legal(d.items[i], room - 1) {
        var j := IndexOf(v.entries, IntKey(i + 1));
        assert j < |v.entries| ==> Seen(v.entries, cfg, j);
      }
    } else {
      ObjectDoc(v, cfg);
      assert forall i :: 0 <= i < |v.entries| ==> Seen(v.entries, cfg, i);
    }
  }

  lemma {:induction false} DocIntegers(v: Value, cfg: Config)
    requires Longs(v)
    ensures Integers(DocOf(v, cfg))
    decreases v
  {
    hide ArrayLength, TreatedAsArray, IndexOf, KeyText;
    if v.Table? {
      forall i | 0 <= i < |v.entries| ensures Integers(DocOf(v.entries[i].value, cfg)) {
        DocIntegers(v.entries[i].value, cfg);
      }
      TableIntegers(v, cfg);
    }
  }

  lemma TableIntegers(v: Value, cfg: Config)
    requires v.Table? && forall i :: 0 <= i < |v.entries| ==> Integers(DocOf(v.entries[i].value, cfg))
    ensures Integers(DocOf(v, cfg))
  {
    hide ArrayLength, DocOf, TreatedAsArray, IndexOf, KeyText;
    if TreatedAsArray(v.entries, cfg) {
      ArrayDoc(v, cfg);
    } else {
      ObjectDoc(v, cfg);
    }
  }

  lemma {:induction false} BoundDistinct(members: seq<Member>)
    requires forall i, j :: 0 <= i < j < |members| ==> members[i].name != members[j].name
    ensures |Bound(members)| == |members|
    ensures forall i :: 0 <= i < |members| ==> Bound(members)[i] == Entry(StrKey(members[i].name), Meaning(members[i].doc))
    decreases |members|
  {
    hide Meaning;
    if members != [] {
      BoundDistinct(members[..|members| - 1]);
    }
  }

  lemma {:induction false} DocMeaning(v: Value, cfg: Config, room: nat)
    requires DistinctNames(v, cfg) && Encodable(v, cfg, room)
    ensures Meaning(DocOf(v, cfg)) == Reread(v, cfg)
    decreases v
  {
    hide ArrayLength, Bound, TreatedAsArray, IndexOf, KeyText, Seen;
    if v.Table? {
      forall i | 0 <= i < |v.entries| && Seen(v.entries, cfg, i)
        ensures Meaning(DocOf(v.entries[i].value, cfg)) == Reread(v.entries[i].value, cfg)
      {
        DocMeaning(v.entries[i].value, cfg, room - 1);
      }
      if TreatedAsArray(v.entries, cfg) {
        ArrayMeaning(v, cfg);
      } else {
        ObjectMeaning(v, cfg);
      }
    }
  }

  predicate SeenReread(v: Value, cfg: Config)
    requires v.Table?
  {
    forall i :: 0 <= i < |v.entries| && Seen(v.entries, cfg, i) ==>
      Meaning(DocOf(v.entries[i].value, cfg)) == Reread(v.entries[i].value, cfg)
  }

  lemma ArrayMeaning(v: Value, cfg: Config)
    requires v.Table? && TreatedAsArray(v.entries, cfg) && SeenReread(v, cfg)
    ensures Meaning(DocOf(v, cfg)) == Reread(v, cfg)
  {
    hide ArrayLength, DocOf, TreatedAsArray, IndexOf, Meaning;
    ArrayDoc(v, cfg);
    var items := DocOf(v, cfg).items;
    var r := MeaningOfArray(items);
    forall i | 0 <= i < |items| ensures r[i] == Reread(v, cfg).entries[i] {
      var j := IndexOf(v.entries, IntKey(i + 1));
      assert j < |v.entries| ==> Seen(v.entries, cfg, j);
      NullMeaning();
    }
    assert r == Reread(v, cfg).entries;
  }

  lemma NullMeaning()
    ensures Meaning(Scalar(NullToken)) == Null
  {
  }

  lemma ObjectMeaning(v: Value, cfg: Config)
    requires v.Table? && !TreatedAsArray(v.entries, cfg) && DistinctNames(v, cfg) && SeenReread(v, cfg)
    ensures Meaning(DocOf(v, cfg)) == Reread(v, cfg)
  {
    hide ArrayLength, DocOf, TreatedAsArray, IndexOf, Meaning, Bound, KeyText;
    ObjectDoc(v, cfg);
    var members := DocOf(v, cfg).members;
    BoundDistinct(members);
    NothingBound(members);
    assert forall i :: 0 <= i < |v.entries| ==> Seen(v.entries, cfg, i);
    assert Bound(members) == Reread(v, cfg).entries;
  }

  // ---------------------------------------------------------------- round trips

  /** Decoding a value's text yields the value read back, with any white space before, between and behind the tokens. */
  lemma DecodeSpaced(v: Value, gaps: seq<seq<byte>>, last: seq<byte>, cfg: Config, room: nat)
    requires Encodable(v, cfg, room) && room <= cfg.decodeMaxDepth && Longs(v) && DistinctNames(v, cfg)
    requires |gaps| == |Spell(DocOf(v, cfg))| && AllWhite(gaps) && White(last)
    ensures Decode(Lay(Spell(DocOf(v, cfg)), gaps) + last, cfg) == Ok(Reread(v, cfg))
  {
    hide Lay, Spell, Decode, Integers, Legal, Meaning, Encodable;
    EncodableDeeper(v, cfg, room, cfg.decodeMaxDepth);
    DocLegal(v, cfg, cfg.decodeMaxDepth);
    DocIntegers(v, cfg);
    DocMeaning(v, cfg, room);
    DecodeLaid(DocOf(v, cfg), gaps, last, cfg);
  }

  /** Without any white space that is the text the encoder writes. */
  lemma EncodeUnspaced(v: Value, cfg: Config, depth: nat)
    requires Encode(v, cfg, depth).Ok?
    ensures var toks := Spell(DocOf(v, cfg)); Encode(v, cfg, depth).value == Lay(toks, NoGaps(|toks|)) + []
  {
    hide Lay, Spell, Encode, NoGaps;
    EncodeIsText(v, cfg, depth);
    LayOfText(Spell(DocOf(v, cfg)));
  }

  /** Encoding and decoding any value that can be encoded, holes and integer keys included, yields the value read back. */
  lemma DecodeEncoded(v: Value, cfg: Config, room: nat)
    requires Encodable(v, cfg, room) && room <= cfg.encodeMaxDepth && room <= cfg.decodeMaxDepth
    requires Longs(v) && DistinctNames(v, cfg)
    ensures Encode(v, cfg, 0).Ok? && Decode(Encode(v, cfg, 0).value, cfg) == Ok(Reread(v, cfg))
  {
    hide Lay, Spell, Encode, Decode, Reread, Encodable, NoGaps;
    EncodableDeeper(v, cfg, room, cfg.encodeMaxDepth);
    EncodeExact(v, cfg, 0);
    EncodeUnspaced(v, cfg, 0);
    DecodeSpaced(v, NoGaps(|Spell(DocOf(v, cfg))|), [], cfg, room);
  }

  /** A plain value is read back unchanged. */
  lemma {:induction false} PlainReread(v: Value, cfg: Config, room: nat)
    requires Plain(v, room)
    ensures Encodable(v, cfg, room) && Longs(v) && DistinctNames(v, cfg) && Reread(v, cfg) == v
    decreases v
  {
    hide ArrayLength, IsArray, IsObject, KeyText;
    if v.Table? {
      forall i | 0 <= i < |v.entries|
        ensures var x := v.entries[i].value; Encodable(x, cfg, room - 1) && Longs(x) && DistinctNames(x, cfg) && Reread(x, cfg) == x
      {
        PlainReread(v.entries[i].value, cfg, room - 1);
      }
      if IsArray(v.entries) {
        PlainArray(v, cfg, room);
      } else {
        PlainObject(v, cfg, room);
      }
    }
  }

  lemma PlainArray(v: Value, cfg: Config, room: nat)
    requires v.Table? && IsArray(v.entries) && room > 0
    requires forall i :: 0 <= i < |v.entries| ==>
      var x := v.entries[i].value; Encodable(x, cfg, room - 1) && DistinctNames(x, cfg) && Reread(x, cfg) == x
    ensures Encodable(v, cfg, room) && DistinctNames(v, cfg) && Reread(v, cfg) == v
  {
    hide ArrayLength, KeyText, IndexOf;
    LengthOfArray(v.entries, cfg);
    forall i | 0 <= i < |v.entries|
      ensures v.entries[i].key == IntKey(i + 1) && IndexOf(v.entries, v.entries[i].key) == i
    {
      ArrayElement(v.entries, i);
    }
    assert Reread(v, cfg).entries == v.entries;
  }

  lemma PlainObject(v: Value, cfg: Config, room: nat)
    requires v.Table? && IsObject(v.entries) && room > 0
    requires forall i :: 0 <= i < |v.entries| ==>
      var x := v.entries[i].value; Encodable(x, cfg, room - 1) && DistinctNames(x, cfg) && Reread(x, cfg) == x
    ensures Encodable(v, cfg, room) && DistinctNames(v, cfg) && Reread(v, cfg) == v
  {
    hide ArrayLength, IndexOf;
    LengthOfObject(v.entries, cfg);
    assert Reread(v, cfg).entries == v.entries;
  }

  /** Everything plain is encoded. */
  lemma EncodePlain(v: Value, cfg: Config, depth: nat, room: nat)
    requires Plain(v, room) && depth + room <= cfg.encodeMaxDepth
    ensures Encode(v, cfg, depth).Ok?
  {
    hide Encode, Reread, Encodable, Plain;
    PlainReread(v, cfg, room);
    EncodableDeeper(v, cfg, room, cfg.encodeMaxDepth - depth);
    EncodeExact(v, cfg, depth);
  }

  /** Plain values survive encoding and decoding. */
  lemma DecodeOfEncode(v: Value, cfg: Config, room: nat)
    requires Plain(v, room) && room <= cfg.encodeMaxDepth && room <= cfg.decodeMaxDepth
    ensures Encode(v, cfg, 0).Ok? && Decode(Encode(v, cfg, 0).value, cfg) == Ok(v)
  {
    hide Encode, Decode, Reread, Encodable, Plain;
    PlainReread(v, cfg, room);
    DecodeEncoded(v, cfg, room);
  }

  /** And so they do with any white space added between the tokens. */
  lemma DecodeOfSpaced(v: Value, gaps: seq<seq<byte>>, last: seq<byte>, cfg: Config, room: nat)
    requires Plain(v, room) && room <= cfg.decodeMaxDepth
    requires |gaps| == |Spell(DocOf(v, cfg))| && AllWhite(gaps) && White(last)
    ensures Decode(Lay(Spell(DocOf(v, cfg)), gaps) + last, cfg) == Ok(v)
  {
    hide Lay, Spell, Decode, Reread, Encodable, Plain;
    PlainReread(v, cfg, room);
    DecodeSpaced(v, gaps, last, cfg, room);
  }

  // ---------------------------------------------------------------- no terminator inside

  lemma {:induction false} TextNoZero(toks: seq<Token>)
    ensures NoZero(Text(toks))
    decreases |toks|
  {
    hide TokenText;
    if toks != [] {
      TokenNoZero(toks[0]);
      TextNoZero(toks[1..]);
    }
  }

  /** Whatever is encoded, the text has no zero byte. */
  lemma EncodeNoZero(v: Value, cfg: Config, depth: nat)
    requires Encode(v, cfg, depth).Ok?
    ensures NoZero(Encode(v, cfg, depth).value)
  {
    hide Text, Encode, Spell, DocOf;
    EncodeIsText(v, cfg, depth);
    TextNoZero(Spell(DocOf(v, cfg)));
  }
}
