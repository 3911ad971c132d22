/** The grammar of JSON over tokens: which token sequences spell a document, what the document means, and
    that the decoder accepts exactly these and yields exactly that. */
module JsonGrammar {
  import opened Serial
  import opened Utf8
  import opened JsonText
  import opened JsonValue

  /** A document as it is written: repeated names and their order are still there. */
  datatype Doc = Scalar(token: Token) | Arr(items: seq<Doc>) | Obj(members: seq<Member>)

  datatype Member = Member(name: seq<byte>, doc: Doc)

  predicate Simple(t: Token) {
    t.StringToken? || t.IntToken? || t.BoolToken? || t.NullToken?
  }

  /** Scalars are single tokens, and arrays and objects nest at most room deep. */
  predicate Legal(d: Doc, room: nat) {
    match d
    case Scalar(t) => Simple(t)
    case Arr(items) => room > 0 && forall i :: 0 <= i < |items| ==> Legal(items[i], room - 1)
    case Obj(members) => room > 0 && forall i :: 0 <= i < |members| ==> Legal(members[i].doc, room - 1)
  }

  // ---------------------------------------------------------------- spelling

  /** A comma stands before every part but the first. */
  function Lead(i: nat): seq<Token> {
    if i > 0 then [CommaToken] else []
  }

  /** The tokens of a document. */
  function Spell(d: Doc): (toks: seq<Token>)
    ensures |toks| > 0
    decreases d
  {
    match d
    case Scalar(t) => [t]
    case Arr(items) => [ArrBegin] + ItemsFrom(items, 0)
    case Obj(members) => [ObjBegin] + MembersFrom(members, 0)
  }

  /** The items from the i-th on, and the closing bracket. */
  function ItemsFrom(items: seq<Doc>, i: nat): seq<Token>
    requires i <= |items|
    decreases items, |items| - i
  {
    if i == |items| then [ArrEnd] else Lead(i) + Spell(items[i]) + ItemsFrom(items, i + 1)
  }

  function MembersFrom(members: seq<Member>, i: nat): seq<Token>
    requires i <= |members|
    decreases members, |members| - i
  {
    if i == |members| then [ObjEnd]
    else
      var m := members[i];
      assert m.doc < m;
      Lead(i) + [StringToken(m.name), ColonToken] + Spell(m.doc) + MembersFrom(members, i + 1)
  }

  lemma SpellStarts(d: Doc)
    requires d.Scalar? ==> Simple(d.token)
    ensures Spell(d)[0] != ArrEnd && Spell(d)[0] != ObjEnd && Spell(d)[0] != EndToken && !Spell(d)[0].ErrorToken?
  {
  }

  // ---------------------------------------------------------------- meaning

  /** What the decoder makes of a document. */
  function Meaning(d: Doc): Value
    decreases d
  {
    match d
    case Scalar(t) => ScalarValue(t)
    case Arr(items) => Table(seq(|items|, i requires 0 <= i < |items| => Entry(IntKey(i + 1), Meaning(items[i]))))
    case Obj(members) => Table(Bound(members))
  }

  function ScalarValue(t: Token): Value {
    match t
    case StringToken(s) => Str(s)
    case IntToken(n) => Int(n)
    case BoolToken(b) => Bool(b)
    case NullToken => Null
    case _ => Other
  }

  /** The entries of an object after its members were stored one after the other. */
  function Bound(members: seq<Member>): seq<Entry>
    decreases members
  {
    if members == [] then []
    else
      var m := members[|members| - 1];
      assert m.doc < m;
      RawSet(Bound(members[..|members| - 1]), StrKey(m.name), Meaning(m.doc))
  }

  predicate DistinctKeys(entries: seq<Entry>) {
    forall i, j :: 0 <= i < j < |entries| ==> entries[i].key != entries[j].key
  }

  lemma RawSetIs(entries: seq<Entry>, key: Key, value: Value)
    requires DistinctKeys(entries)
    ensures var r := RawSet(entries, key, value);
      && DistinctKeys(r)
      && (forall e :: e in r <==> e == Entry(key, value) || (e in entries && e.key != key))
  {
    var r, i := RawSet(entries, key, value), IndexOf(entries, key);
    assert i < |entries| ==> r[i] == Entry(key, value);
    assert i == |entries| ==> r[|entries|] == Entry(key, value);
    forall e | e in entries && e.key != key ensures e in r {
      var j :| 0 <= j < |entries| && entries[j] == e;
      assert r[j] == e;
    }
  }

  /** In an object the last of several members with the same name counts; the others leave no trace. */
  lemma {:induction false} LastWins(members: seq<Member>)
    ensures DistinctKeys(Bound(members)) && forall e :: e in Bound(members) <==> Wins(members, e)
    decreases |members|
  {
    hide RawSet, Meaning, DistinctKeys, Wins;
    if members == [] {
      NothingWins();
    }
    if members != [] {
      var init, m := members[..|members| - 1], members[|members| - 1];
      LastWins(init);
      RawSetIs(Bound(init), StrKey(m.name), Meaning(m.doc));
      forall e ensures Wins(members, e) <==> e == Entry(StrKey(m.name), Meaning(m.doc)) || (Wins(init, e) && e.key != StrKey(m.name)) {
        WinsNext(init, m, e);
        assert init + [m] == members;
      }
    }
  }

  /** The entry is that of the last member with its name. */
  ghost predicate Wins(members: seq<Member>, e: Entry) {
    exists i :: 0 <= i < |members| && e == Entry(StrKey(members[i].name), Meaning(members[i].doc)) &&
                forall j :: i < j < |members| ==> members[j].name != members[i].name
  }

  lemma NothingWins()
    ensures DistinctKeys(Bound([])) && forall e :: e in Bound([]) <==> Wins([], e)
  {
  }

  lemma WinsNext(init: seq<Member>, m: Member, e: Entry)
    ensures Wins(init + [m], e) <==> e == Entry(StrKey(m.name), Meaning(m.doc)) || (Wins(init, e) && e.key != StrKey(m.name))
  {
    hide Meaning;
    var all := init + [m];
    assert all[|init|] == m;
    if i :| 0 <= i < |init| && e == Entry(StrKey(init[i].name), Meaning(init[i].doc)) && e.key != StrKey(m.name)
            && forall j :: i < j < |init| ==> init[j].name != init[i].name {
      assert all[i] == init[i];
    }
    if i :| 0 <= i < |all| && e == Entry(StrKey(all[i].name), Meaning(all[i].doc))
            && forall j :: i < j < |all| ==> all[j].name != all[i].name {
      if i < |init| {
        assert all[i] == init[i] && all[|init|].name != all[i].name;
        assert forall j :: 0 <= j < |init| ==> all[j] == init[j];
      }
    }
  }

  // ---------------------------------------------------------------- reading tokens

  /** The tokens from p on are toks, and the last of them ends at q. */
  predicate Reads(text: seq<byte>, p: nat, cfg: Config, toks: seq<Token>, q: nat)
    requires p <= |text|
    decreases |toks|
  {
    if toks == [] then p == q
    else var l := NextToken(text, p, cfg); l.token == toks[0] && Reads(text, l.next, cfg, toks[1..], q)
  }

  lemma {:induction false} ReadsSplit(text: seq<byte>, p: nat, cfg: Config, a: seq<Token>, b: seq<Token>, q: nat) returns (m: nat)
    requires p <= |text| && Reads(text, p, cfg, a + b, q)
    ensures m <= |text| && Reads(text, p, cfg, a, m) && Reads(text, m, cfg, b, q)
    decreases |a|
  {
    hide NextToken;
    if a == [] {
      assert a + b == b;
      m := p;
    } else {
      assert (a + b)[1..] == a[1..] + b;
      m := ReadsSplit(text, NextToken(text, p, cfg).next, cfg, a[1..], b, q);
    }
  }

  lemma {:induction false} ReadsJoin(text: seq<byte>, p: nat, cfg: Config, a: seq<Token>, m: nat, b: seq<Token>, q: nat)
    requires p <= |text| && m <= |text| && Reads(text, p, cfg, a, m) && Reads(text, m, cfg, b, q)
    ensures Reads(text, p, cfg, a + b, q)
    decreases |a|
  {
    hide NextToken;
    if a == [] {
      assert a + b == b;
    } else {
      assert (a + b)[1..] == a[1..] + b;
      ReadsJoin(text, NextToken(text, p, cfg).next, cfg, a[1..], m, b, q);
    }
  }

  lemma ReadsOne(text: seq<byte>, p: nat, cfg: Config, t: Token, rest: seq<Token>, q: nat)
    requires p <= |text|
    ensures Reads(text, p, cfg, [t] + rest, q) <==>
      NextToken(text, p, cfg).token == t && Reads(text, NextToken(text, p, cfg).next, cfg, rest, q)
  {
    assert ([t] + rest)[1..] == rest;
    hide NextToken;
  }

  lemma ReadsNothing(text: seq<byte>, p: nat, cfg: Config, q: nat)
    requires p <= |text|
    ensures Reads(text, p, cfg, [], q) <==> p == q
  {
  }

  lemma ReadsFirst(text: seq<byte>, p: nat, cfg: Config, toks: seq<Token>, q: nat)
    requires p <= |text| && toks != [] && Reads(text, p, cfg, toks, q)
    ensures NextToken(text, p, cfg).token == toks[0]
  {
    hide NextToken;
  }

  // ---------------------------------------------------------------- what is spelled is accepted

  lemma LastPart(text: seq<byte>, cfg: Config, p: nat, q: nat, t: Token)
    requires p <= |text| && Reads(text, p, cfg, [t], q)
    ensures NextToken(text, p, cfg) == Lexed(t, q)
  {
    hide NextToken;
    assert [t][1..] == [];
  }

  /** A value spelled from p to q is parsed, as what it means. */
  lemma {:induction false} ValueParses(text: seq<byte>, cfg: Config, d: Doc, p: nat, q: nat, depth: nat, room: nat)
    requires p <= |text| && q <= |text| && Reads(text, p, cfg, Spell(d), q)
    requires Legal(d, room) && depth + room <= cfg.decodeMaxDepth
    ensures var t := NextToken(text, p, cfg); ParseValue(text, cfg, t.token, t.next, depth) == Ok(Parsed(Meaning(d), q))
    decreases d, 1, 0
  {
    hide NextToken, Reads, ParseElements, ParseMembers, ItemsFrom, MembersFrom;
    match d
    case Scalar(t) =>
      LastPart(text, cfg, p, q, t);
    case Arr(items) =>
      ReadsOne(text, p, cfg, ArrBegin, ItemsFrom(items, 0), q);
      ArrParses(text, cfg, items, NextToken(text, p, cfg).next, q, depth + 1, room - 1);
    case Obj(members) =>
      ReadsOne(text, p, cfg, ObjBegin, MembersFrom(members, 0), q);
      ObjParses(text, cfg, members, NextToken(text, p, cfg).next, q, depth + 1, room - 1);
  }

  lemma {:induction false} ArrParses(text: seq<byte>, cfg: Config, items: seq<Doc>, p: nat, q: nat, depth: nat, room: nat)
    requires p <= |text| && q <= |text| && Reads(text, p, cfg, ItemsFrom(items, 0), q)
    requires (forall i :: 0 <= i < |items| ==> Legal(items[i], room)) && depth + room <= cfg.decodeMaxDepth
    ensures ParseArray(text, cfg, p, depth) == Ok(Parsed(Meaning(Arr(items)), q))
    decreases items, 2, 0
  {
    hide NextToken, Reads, ParseElements, Legal, Meaning;
    EmptyArray();
    if items == [] {
      LastPart(text, cfg, p, q, ArrEnd);
    } else {
      assert ItemsFrom(items, 0) == Spell(items[0]) + ItemsFrom(items, 1);
      ReadsFirst(text, p, cfg, ItemsFrom(items, 0), q);
      LegalStarts(items[0], room);
      ItemsParse(text, cfg, items, 0, p, q, depth, room);
      hide ItemsFrom;
      assert MeaningOfArray(items)[..0] == [];
    }
  }

  lemma LegalStarts(d: Doc, room: nat)
    requires Legal(d, room)
    ensures Spell(d)[0] != ArrEnd && Spell(d)[0] != ObjEnd
  {
    SpellStarts(d);
  }

  function MeaningOfArray(items: seq<Doc>): (r: seq<Entry>)
    ensures |r| == |items| && forall i :: 0 <= i < |items| ==> r[i] == Entry(IntKey(i + 1), Meaning(items[i]))
    ensures Meaning(Arr(items)) == Table(r)
  {
    Meaning(Arr(items)).entries
  }

  lemma EmptyArray()
    ensures Meaning(Arr([])) == Table([]) && Meaning(Obj([])) == Table([])
  {
  }

  /** Parsing goes on from item i, with those before it collected. */
  lemma {:induction false} ItemsParse(text: seq<byte>, cfg: Config, items: seq<Doc>, i: nat, p: nat, q: nat, depth: nat, room: nat)
    requires i < |items| && p <= |text| && q <= |text| && Reads(text, p, cfg, Spell(items[i]) + ItemsFrom(items, i + 1), q)
    requires (forall i :: 0 <= i < |items| ==> Legal(items[i], room)) && depth + room <= cfg.decodeMaxDepth
    ensures var t := NextToken(text, p, cfg);
      ParseElements(text, cfg, t.token, t.next, depth, MeaningOfArray(items)[..i]) == Ok(Parsed(Meaning(Arr(items)), q))
    decreases items, 1, |items| - i
  {
    hide NextToken, Reads, ParseValue, Legal, Meaning, MeaningOfArray, Spell;
    var m := ReadsSplit(text, p, cfg, Spell(items[i]), ItemsFrom(items, i + 1), q);
    ValueParses(text, cfg, items[i], p, m, depth, room);
    var acc := MeaningOfArray(items);
    assert acc[..i] + [Entry(IntKey(i + 1), Meaning(items[i]))] == acc[..i + 1];
    if i + 1 == |items| {
      LastPart(text, cfg, m, q, ArrEnd);
      assert acc[..i + 1] == acc;
    } else {
      var rest := Spell(items[i + 1]) + ItemsFrom(items, i + 2);
      assert ItemsFrom(items, i + 1) == [CommaToken] + rest;
      ReadsOne(text, m, cfg, CommaToken, rest, q);
      ItemsParse(text, cfg, items, i + 1, NextToken(text, m, cfg).next, q, depth, room);
    }
  }

  lemma {:induction false} ObjParses(text: seq<byte>, cfg: Config, members: seq<Member>, p: nat, q: nat, depth: nat, room: nat)
    requires p <= |text| && q <= |text| && Reads(text, p, cfg, MembersFrom(members, 0), q)
    requires (forall i :: 0 <= i < |members| ==> Legal(members[i].doc, room)) && depth + room <= cfg.decodeMaxDepth
    ensures ParseObject(text, cfg, p, depth) == Ok(Parsed(Meaning(Obj(members)), q))
    decreases members, 2, 0
  {
    hide NextToken, Reads, ParseMembers, Legal, Meaning, Bound;
    EmptyArray();
    if members == [] {
      LastPart(text, cfg, p, q, ObjEnd);
    } else {
      var m := members[0];
      var rest := [ColonToken] + Spell(m.doc) + MembersFrom(members, 1);
      assert MembersFrom(members, 0) == [StringToken(m.name)] + rest;
      ReadsOne(text, p, cfg, StringToken(m.name), rest, q);
      MembersParse(text, cfg, members, 0, p, q, depth, room);
      assert members[..0] == [];
      NothingBound(members);
    }
  }

  lemma NothingBound(members: seq<Member>)
    ensures Bound([]) == [] && Meaning(Obj(members)) == Table(Bound(members))
  {
  }

  lemma BoundNext(members: seq<Member>, i: nat)
    requires i < |members|
    ensures Bound(members[..i + 1]) == RawSet(Bound(members[..i]), StrKey(members[i].name), Meaning(members[i].doc))
  {
    assert members[..i + 1][..i] == members[..i];
    hide RawSet, Meaning;
  }

  lemma {:induction false} MembersParse(text: seq<byte>, cfg: Config, members: seq<Member>, i: nat, p: nat, q: nat, depth: nat, room: nat)
    requires i < |members| && p <= |text| && q <= |text|
    requires var m := members[i];
      Reads(text, p, cfg, [StringToken(m.name)] + ([ColonToken] + Spell(m.doc) + MembersFrom(members, i + 1)), q)
    requires (forall i :: 0 <= i < |members| ==> Legal(members[i].doc, room)) && depth + room <= cfg.decodeMaxDepth
    ensures var t := NextToken(text, p, cfg);
      ParseMembers(text, cfg, t.token, t.next, depth, Bound(members[..i])) == Ok(Parsed(Meaning(Obj(members)), q))
    decreases members, 1, |members| - i
  {
    hide NextToken, Reads, ParseValue, Legal, Meaning, Bound, Spell, RawSet;
    var m := members[i];
    assert m.doc < m;
    var after := MembersFrom(members, i + 1);
    ReadsOne(text, p, cfg, StringToken(m.name), [ColonToken] + Spell(m.doc) + after, q);
    var c := NextToken(text, p, cfg).next;
    assert [ColonToken] + Spell(m.doc) + after == [ColonToken] + (Spell(m.doc) + after);
    ReadsOne(text, c, cfg, ColonToken, Spell(m.doc) + after, q);
    var v := NextToken(text, c, cfg).next;
    var e := ReadsSplit(text, v, cfg, Spell(m.doc), after, q);
    ValueParses(text, cfg, m.doc, v, e, depth, room);
    BoundNext(members, i);
    if i + 1 == |members| {
      LastPart(text, cfg, e, q, ObjEnd);
      assert members[..i + 1] == members;
      NothingBound(members);
    } else {
      var m' := members[i + 1];
      var rest := [StringToken(m'.name)] + ([ColonToken] + Spell(m'.doc) + MembersFrom(members, i + 2));
      assert after == [CommaToken] + rest;
      ReadsOne(text, e, cfg, CommaToken, rest, q);
      MembersParse(text, cfg, members, i + 1, NextToken(text, e, cfg).next, q, depth, room);
    }
  }

  // ---------------------------------------------------------------- what is accepted is spelled

  /** A parsed value was spelled by the tokens it was read from, and means what they spell. */
  lemma {:induction false} ValueSpelled(text: seq<byte>, cfg: Config, p: nat, depth: nat) returns (d: Doc)
    requires p <= |text| && depth <= cfg.decodeMaxDepth
    requires var t := NextToken(text, p, cfg); ParseValue(text, cfg, t.token, t.next, depth).Ok?
    ensures var t := NextToken(text, p, cfg); var r := ParseValue(text, cfg, t.token, t.next, depth).value;
      Legal(d, cfg.decodeMaxDepth - depth) && Meaning(d) == r.value && Reads(text, p, cfg, Spell(d), r.next)
    decreases |text| - p, 0
  {
    hide NextToken, Reads, ParseArray, ParseObject;
    var t := NextToken(text, p, cfg);
    var r := ParseValue(text, cfg, t.token, t.next, depth).value;
    if t.token == ArrBegin {
      Advances(text, p, cfg);
      var items := ArrSpelled(text, cfg, t.next, depth + 1);
      d := Arr(items);
      ReadsOne(text, p, cfg, ArrBegin, ItemsFrom(items, 0), r.next);
    } else if t.token == ObjBegin {
      Advances(text, p, cfg);
      var members := ObjSpelled(text, cfg, t.next, depth + 1);
      d := Obj(members);
      ReadsOne(text, p, cfg, ObjBegin, MembersFrom(members, 0), r.next);
    } else {
      d := Scalar(t.token);
      assert [t.token] + [] == [t.token];
      ReadsOne(text, p, cfg, t.token, [], r.next);
      ReadsNothing(text, t.next, cfg, r.next);
    }
  }

  lemma Advances(text: seq<byte>, p: nat, cfg: Config)
    requires p <= |text|
    ensures var t := NextToken(text, p, cfg); !t.token.ErrorToken? && !t.token.EndToken? ==> t.next > p
  {
  }

  lemma {:induction false} ArrSpelled(text: seq<byte>, cfg: Config, p: nat, depth: nat) returns (items: seq<Doc>)
    requires p <= |text| && depth <= cfg.decodeMaxDepth && ParseArray(text, cfg, p, depth).Ok?
    ensures var r := ParseArray(text, cfg, p, depth).value;
      && (forall i :: 0 <= i < |items| ==> Legal(items[i], cfg.decodeMaxDepth - depth))
      && Meaning(Arr(items)) == r.value && Reads(text, p, cfg, ItemsFrom(items, 0), r.next)
    decreases |text| - p, 2
  {
    hide NextToken, Reads, ParseElements, Legal, Meaning;
    var t := NextToken(text, p, cfg);
    EmptyArray();
    if t.token == ArrEnd {
      items := [];
      assert [ArrEnd] + [] == [ArrEnd];
      ReadsOne(text, p, cfg, ArrEnd, [], t.next);
      ReadsNothing(text, t.next, cfg, t.next);
    } else {
      items := ItemsSpelled(text, cfg, p, depth, []);
      assert ItemsFrom(items, 0) == Spell(items[0]) + ItemsFrom(items, 1);
    }
  }

  /** The items from the one at p on, given those before. */
  lemma {:induction false} ItemsSpelled(text: seq<byte>, cfg: Config, p: nat, depth: nat, done: seq<Doc>) returns (items: seq<Doc>)
    requires p <= |text| && depth <= cfg.decodeMaxDepth
    requires var t := NextToken(text, p, cfg); ParseElements(text, cfg, t.token, t.next, depth, MeaningOfArray(done)).Ok?
    requires forall i :: 0 <= i < |done| ==> Legal(done[i], cfg.decodeMaxDepth - depth)
    ensures var t := NextToken(text, p, cfg); var r := ParseElements(text, cfg, t.token, t.next, depth, MeaningOfArray(done)).value;
      && done < items && (forall i :: 0 <= i < |items| ==> Legal(items[i], cfg.decodeMaxDepth - depth))
      && Meaning(Arr(items)) == r.value
      && Reads(text, p, cfg, Spell(items[|done|]) + ItemsFrom(items, |done| + 1), r.next)
    decreases |text| - p, 1
  {
    hide NextToken, Reads, ParseValue, Legal, Meaning, MeaningOfArray, Spell;
    var t := NextToken(text, p, cfg);
    var v := ParseValue(text, cfg, t.token, t.next, depth);
    assert v.Ok?;
    var d := ValueSpelled(text, cfg, p, depth);
    ValueAdvances(text, cfg, p, depth);
    var m := v.value.next;
    var now := done + [d];
    assert MeaningOfArray(now) == MeaningOfArray(done) + [Entry(IntKey(|done| + 1), v.value.value)];
    var u := NextToken(text, m, cfg);
    var q := ParseElements(text, cfg, t.token, t.next, depth, MeaningOfArray(done)).value.next;
    if u.token == ArrEnd {
      items := now;
      MeaningOf(items);
      assert [ArrEnd] + [] == [ArrEnd];
      ReadsOne(text, m, cfg, ArrEnd, [], q);
      ReadsNothing(text, q, cfg, q);
    } else {
      Advances(text, m, cfg);
      items := ItemsSpelled(text, cfg, u.next, depth, now);
      var rest := Spell(items[|now|]) + ItemsFrom(items, |now| + 1);
      assert ItemsFrom(items, |now|) == [CommaToken] + rest;
      ReadsOne(text, m, cfg, CommaToken, rest, q);
      assert items[|done|] == now[|done|] == d;
    }
    ReadsJoin(text, p, cfg, Spell(d), m, ItemsFrom(items, |done| + 1), q);
  }

  lemma MeaningOf(items: seq<Doc>)
    ensures Meaning(Arr(items)) == Table(MeaningOfArray(items))
  {
  }

  /** A value takes up room. */
  lemma ValueAdvances(text: seq<byte>, cfg: Config, p: nat, depth: nat)
    requires p <= |text| && depth <= cfg.decodeMaxDepth
    requires var t := NextToken(text, p, cfg); ParseValue(text, cfg, t.token, t.next, depth).Ok?
    ensures var t := NextToken(text, p, cfg); p < ParseValue(text, cfg, t.token, t.next, depth).value.next <= |text|
  {
    hide NextToken, ParseArray, ParseObject;
    Advances(text, p, cfg);
  }

  lemma {:induction false} ObjSpelled(text: seq<byte>, cfg: Config, p: nat, depth: nat) returns (members: seq<Member>)
    requires p <= |text| && depth <= cfg.decodeMaxDepth && ParseObject(text, cfg, p, depth).Ok?
    ensures var r := ParseObject(text, cfg, p, depth).value;
      && (forall i :: 0 <= i < |members| ==> Legal(members[i].doc, cfg.decodeMaxDepth - depth))
      && Meaning(Obj(members)) == r.value && Reads(text, p, cfg, MembersFrom(members, 0), r.next)
    decreases |text| - p, 2
  {
    hide NextToken, Reads, ParseMembers, Legal, Meaning, Bound;
    var t := NextToken(text, p, cfg);
    EmptyArray();
    NothingBound([]);
    if t.token == ObjEnd {
      members := [];
      assert [ObjEnd] + [] == [ObjEnd];
      ReadsOne(text, p, cfg, ObjEnd, [], t.next);
      ReadsNothing(text, t.next, cfg, t.next);
    } else {
      members := MembersSpelled(text, cfg, p, depth, []);
      var m := members[0];
      assert MembersFrom(members, 0) == [StringToken(m.name)] + ([ColonToken] + Spell(m.doc) + MembersFrom(members, 1));
    }
  }

  lemma {:induction false} MembersSpelled(text: seq<byte>, cfg: Config, p: nat, depth: nat, done: seq<Member>)
    returns (members: seq<Member>)
    requires p <= |text| && depth <= cfg.decodeMaxDepth
    requires var t := NextToken(text, p, cfg); ParseMembers(text, cfg, t.token, t.next, depth, Bound(done)).Ok?
    requires forall i :: 0 <= i < |done| ==> Legal(done[i].doc, cfg.decodeMaxDepth - depth)
    ensures var t := NextToken(text, p, cfg); var r := ParseMembers(text, cfg, t.token, t.next, depth, Bound(done)).value;
      && done < members && (forall i :: 0 <= i < |members| ==> Legal(members[i].doc, cfg.decodeMaxDepth - depth))
      && Meaning(Obj(members)) == r.value
      && var m := members[|done|];
         Reads(text, p, cfg, [StringToken(m.name)] + ([ColonToken] + Spell(m.doc) + MembersFrom(members, |done| + 1)), r.next)
    decreases |text| - p, 1
  {
    hide NextToken, Reads, ParseValue, Legal, Meaning, Bound, Spell, RawSet;
    var t := NextToken(text, p, cfg);
    Advances(text, p, cfg);
    var c := NextToken(text, t.next, cfg);
    Advances(text, t.next, cfg);
    assert ParseAfterKey(text, cfg, t.next, depth).Ok?;
    var f := NextToken(text, c.next, cfg);
    var v := ParseValue(text, cfg, f.token, f.next, depth);
    var d := ValueSpelled(text, cfg, c.next, depth);
    ValueAdvances(text, cfg, c.next, depth);
    var m := v.value.next;
    var x := Member(t.token.s, d);
    var now := done + [x];
    assert now[..|done|] == done && now[..|done| + 1] == now;
    BoundNext(now, |done|);
    var u := NextToken(text, m, cfg);
    var q := ParseMembers(text, cfg, t.token, t.next, depth, Bound(done)).value.next;
    if u.token == ObjEnd {
      members := now;
      NothingBound(members);
      assert [ObjEnd] + [] == [ObjEnd];
      ReadsOne(text, m, cfg, ObjEnd, [], q);
      ReadsNothing(text, q, cfg, q);
    } else {
      Advances(text, m, cfg);
      members := MembersSpelled(text, cfg, u.next, depth, now);
      var m' := members[|now|];
      var rest := [StringToken(m'.name)] + ([ColonToken] + Spell(m'.doc) + MembersFrom(members, |now| + 1));
      assert MembersFrom(members, |now|) == [CommaToken] + rest;
      ReadsOne(text, m, cfg, CommaToken, rest, q);
      assert members[|done|] == now[|done|] == x;
    }
    var after := MembersFrom(members, |done| + 1);
    ReadsJoin(text, c.next, cfg, Spell(d), m, after, q);
    ReadsOne(text, t.next, cfg, ColonToken, Spell(d) + after, q);
    assert [ColonToken] + Spell(d) + after == [ColonToken] + (Spell(d) + after);
    ReadsOne(text, p, cfg, StringToken(x.name), [ColonToken] + Spell(d) + after, q);
  }

  // ---------------------------------------------------------------- the whole text

  /** The text spells the document and nothing else. */
  ghost predicate Spells(text: seq<byte>, cfg: Config, d: Doc) {
    exists q :: Reads(text, 0, cfg, Spell(d) + [EndToken], q)
  }

  /** Two zero bytes among the first two betray UTF-16 or UTF-32. */
  predicate Wide(text: seq<byte>) {
    |text| >= 2 && (text[0] == 0 || text[1] == 0)
  }

  lemma DecodesSpelled(text: seq<byte>, cfg: Config, d: Doc)
    requires !Wide(text) && Legal(d, cfg.decodeMaxDepth) && Spells(text, cfg, d)
    ensures Decode(text, cfg) == Ok(Meaning(d))
  {
    hide Reads, NextToken, ParseValue, Legal, Meaning, Spell;
    var q :| Reads(text, 0, cfg, Spell(d) + [EndToken], q);
    var m := ReadsSplit(text, 0, cfg, Spell(d), [EndToken], q);
    ValueParses(text, cfg, d, 0, m, 0, cfg.decodeMaxDepth);
    LastPart(text, cfg, m, q, EndToken);
  }

  /** The decoder yields v exactly for the texts that spell a document meaning v, nested within the limit. */
  lemma DecodeExact(text: seq<byte>, cfg: Config, v: Value)
    ensures Decode(text, cfg) == Ok(v) <==>
      !Wide(text) && exists d :: Spells(text, cfg, d) && Legal(d, cfg.decodeMaxDepth) && Meaning(d) == v
  {
    hide NextToken, ParseValue, Legal, Meaning, Spell, Spells;
    if Decode(text, cfg) == Ok(v) {
      var d := ValueSpelled(text, cfg, 0, 0);
      SpelledWhole(text, cfg, d);
    }
    if !Wide(text) && exists d :: Spells(text, cfg, d) && Legal(d, cfg.decodeMaxDepth) && Meaning(d) == v {
      var d :| Spells(text, cfg, d) && Legal(d, cfg.decodeMaxDepth) && Meaning(d) == v;
      DecodesSpelled(text, cfg, d);
    }
  }

  lemma SpelledWhole(text: seq<byte>, cfg: Config, d: Doc)
    requires Decode(text, cfg).Ok?
    requires var t := NextToken(text, 0, cfg);
      Reads(text, 0, cfg, Spell(d), ParseValue(text, cfg, t.token, t.next, 0).value.next)
    ensures Spells(text, cfg, d)
  {
    hide NextToken, ParseValue, Spell, Reads;
    var t := NextToken(text, 0, cfg);
    var m := ParseValue(text, cfg, t.token, t.next, 0).value.next;
    var e := NextToken(text, m, cfg);
    assert [EndToken] + [] == [EndToken];
    ReadsOne(text, m, cfg, EndToken, [], e.next);
    ReadsNothing(text, e.next, cfg, e.next);
    ReadsJoin(text, 0, cfg, Spell(d), m, [EndToken], e.next);
  }
}
