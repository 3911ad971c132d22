/** The order in which a traversal meets the elements of an array does not matter. */
module JsonOrder {
  import opened Serial
  import opened JsonText
  import opened JsonValue
  import opened JsonRoundTrip

  /** The keys are 1 to n in some order. */
  predicate HoleFree(entries: seq<Entry>) {
    && entries != []
    && (forall i :: 0 <= i < |entries| ==> PositiveKey(entries[i].key) && entries[i].key.k <= |entries|)
    && (forall k :: 1 <= k <= |entries| ==> IndexOf(entries, IntKey(k)) < |entries|)
  }

  /** The same value with the elements of every array in ascending order. */
  function Ordered(v: Value): (r: Value)
    ensures v.Table? <==> r.Table?
    ensures v.Table? ==> |r.entries| == |v.entries|
  {
    match v
    case Table(entries) =>
      if HoleFree(entries) then
        Table(seq(|entries|, i requires 0 <= i < |entries| =>
          assert IndexOf(entries, IntKey(i + 1)) < |entries|;
          Entry(IntKey(i + 1), Ordered(entries[IndexOf(entries, IntKey(i + 1))].value))))
      else
        Table(seq(|entries|, i requires 0 <= i < |entries| => Entry(entries[i].key, Ordered(entries[i].value))))
    case _ => v
  }

  lemma OrderedArray(v: Value, i: nat)
    requires v.Table? && HoleFree(v.entries) && i < |v.entries|
    ensures IndexOf(v.entries, IntKey(i + 1)) < |v.entries|
    ensures Ordered(v).entries[i] == Entry(IntKey(i + 1), Ordered(v.entries[IndexOf(v.entries, IntKey(i + 1))].value))
  {
  }

  lemma OrderedOther(v: Value, i: nat)
    requires v.Table? && !HoleFree(v.entries) && i < |v.entries|
    ensures Ordered(v).entries[i] == Entry(v.entries[i].key, Ordered(v.entries[i].value))
  {
  }

  predicate SameKeys(a: seq<Entry>, b: seq<Entry>) {
    |a| == |b| && forall i :: 0 <= i < |a| ==> a[i].key == b[i].key
  }

  lemma SameIndex(a: seq<Entry>, b: seq<Entry>, key: Key)
    requires SameKeys(a, b)
    ensures IndexOf(a, key) == IndexOf(b, key)
  {
    var i, j := IndexOf(a, key), IndexOf(b, key);
    if i < |a| {
      assert b[i].key == key;
    }
    if j < |a| {
      assert a[j].key == key;
    }
  }

  lemma {:induction false} SameMax(a: seq<Entry>, b: seq<Entry>)
    requires SameKeys(a, b) && PositiveKeys(a) && PositiveKeys(b)
    ensures MaxKey(a) == MaxKey(b)
  {
    if a != [] {
      SameMax(a[..|a| - 1], b[..|b| - 1]);
    }
  }

  lemma SameLength(a: seq<Entry>, b: seq<Entry>, cfg: Config)
    requires SameKeys(a, b)
    ensures ArrayLength(a, cfg) == ArrayLength(b, cfg)
  {
    if PositiveKeys(a) {
      assert PositiveKeys(b);
      SameMax(a, b);
    } else {
      var i :| 0 <= i < |a| && !PositiveKey(a[i].key);
      assert !PositiveKey(b[i].key);
    }
  }

  lemma MaxOfHoleFree(entries: seq<Entry>)
    requires HoleFree(entries)
    ensures PositiveKeys(entries) && MaxKey(entries) == |entries|
  {
    MaxAtMost(entries, |entries|);
    hide MaxKey;
    var i := IndexOf(entries, IntKey(|entries|));
    assert entries[i].key.k <= MaxKey(entries);
  }

  lemma LengthOfHoleFree(entries: seq<Entry>, cfg: Config)
    requires HoleFree(entries)
    ensures ArrayLength(entries, cfg) == Ok(|entries|)
  {
    MaxOfHoleFree(entries);
    hide HoleFree, MaxKey, PositiveKeys;
    if cfg.sparseRatio > 0 {
      assert |entries| * cfg.sparseRatio >= |entries|;
    }
  }

  lemma {:induction false} MaxAtMost(entries: seq<Entry>, n: nat)
    requires PositiveKeys(entries) && forall i :: 0 <= i < |entries| ==> entries[i].key.IntKey? && entries[i].key.k <= n
    ensures MaxKey(entries) <= n
  {
    if entries != [] {
      MaxAtMost(entries[..|entries| - 1], n);
    }
  }

  /** Ordering the elements of arrays does not change the text. */
  lemma {:induction false} EncodeOrdered(v: Value, cfg: Config, depth: nat)
    ensures Encode(Ordered(v), cfg, depth) == Encode(v, cfg, depth)
    decreases v, 2, 0
  {
    if v.Table? {
      if HoleFree(v.entries) {
        EncodeOrderedArray(v, cfg, depth);
      } else {
        EncodeOrderedOther(v, cfg, depth);
      }
    }
  }

  lemma {:induction false} EncodeOrderedArray(v: Value, cfg: Config, depth: nat)
    requires v.Table? && HoleFree(v.entries)
    ensures Encode(Ordered(v), cfg, depth) == Encode(v, cfg, depth)
    decreases v, 1, 0
  {
    hide Ordered, HoleFree, ArrayLength, EncodeElements, EncodeMembers, IsArray;
    OrderedIsArray(v);
    LengthOfHoleFree(v.entries, cfg);
    LengthOfArray(Ordered(v).entries, cfg);
    ElementsOrdered(v, cfg, depth + 1, |v.entries|);
  }

  lemma {:induction false} EncodeOrderedOther(v: Value, cfg: Config, depth: nat)
    requires v.Table? && !HoleFree(v.entries)
    ensures Encode(Ordered(v), cfg, depth) == Encode(v, cfg, depth)
    decreases v, 1, 0
  {
    hide Ordered, HoleFree, ArrayLength, EncodeElements, EncodeMembers, SameKeys;
    OtherKeys(v);
    SameLength(v.entries, Ordered(v).entries, cfg);
    var len := ArrayLength(v.entries, cfg);
    if len.Ok? && len.value > 0 {
      OtherElements(v, cfg, depth + 1, len.value);
    }
    MembersOrdered(v, cfg, depth + 1, |v.entries|);
  }

  lemma OrderedIsArray(v: Value)
    requires v.Table? && HoleFree(v.entries)
    ensures IsArray(Ordered(v).entries) && |v.entries| > 0
  {
    forall i | 0 <= i < |v.entries| ensures Ordered(v).entries[i].key == IntKey(i + 1) {
      OrderedArray(v, i);
    }
  }

  lemma OtherKeys(v: Value)
    requires v.Table? && !HoleFree(v.entries)
    ensures SameKeys(v.entries, Ordered(v).entries)
  {
    forall i | 0 <= i < |v.entries| ensures Ordered(v).entries[i].key == v.entries[i].key {
      OrderedOther(v, i);
    }
  }

  lemma {:induction false} ElementsOrdered(v: Value, cfg: Config, depth: nat, n: nat)
    requires v.Table? && HoleFree(v.entries) && n <= |v.entries|
    ensures EncodeElements(Ordered(v), cfg, depth, n) == EncodeElements(v, cfg, depth, n)
    decreases v, 0, n
  {
    hide Ordered, HoleFree, Encode;
    if n > 0 {
      ElementsOrdered(v, cfg, depth, n - 1);
      OrderedIsArray(v);
      OrderedArray(v, n - 1);
      ArrayElement(Ordered(v).entries, n - 1);
      EncodeOrdered(v.entries[IndexOf(v.entries, IntKey(n))].value, cfg, depth);
    }
  }

  lemma {:induction false} OtherElements(v: Value, cfg: Config, depth: nat, n: nat)
    requires v.Table? && !HoleFree(v.entries)
    ensures EncodeElements(Ordered(v), cfg, depth, n) == EncodeElements(v, cfg, depth, n)
    decreases v, 0, n
  {
    hide Ordered, HoleFree, Encode;
    if n > 0 {
      OtherElements(v, cfg, depth, n - 1);
      OtherKeys(v);
      SameIndex(v.entries, Ordered(v).entries, IntKey(n));
      var i := IndexOf(v.entries, IntKey(n));
      if i < |v.entries| {
        OrderedOther(v, i);
        EncodeOrdered(v.entries[i].value, cfg, depth);
      }
    }
  }

  lemma {:induction false} MembersOrdered(v: Value, cfg: Config, depth: nat, n: nat)
    requires v.Table? && !HoleFree(v.entries) && n <= |v.entries|
    ensures EncodeMembers(Ordered(v), cfg, depth, n) == EncodeMembers(v, cfg, depth, n)
    decreases v, 0, n
  {
    hide Ordered, HoleFree, Encode, EncodeKey;
    if n > 0 {
      MembersOrdered(v, cfg, depth, n - 1);
      OrderedOther(v, n - 1);
      EncodeOrdered(v.entries[n - 1].value, cfg, depth);
    }
  }

  /** Values both sides can express, whatever the order of traversal: null, booleans, 64-bit
      integers, strings, arrays without holes and objects whose keys are different strings. */
  predicate Tree(v: Value, room: nat) {
    match v
    case Null => true
    case Bool(_) => true
    case Int(n) => LLONG_MIN <= n <= LLONG_MAX
    case Str(_) => true
    case Table(entries) =>
      room > 0 && (HoleFree(entries) || IsObject(entries))
      && forall i :: 0 <= i < |entries| ==> Tree(entries[i].value, room - 1)
    case _ => false
  }

  lemma {:induction false} TreePlain(v: Value, room: nat)
    requires Tree(v, room)
    ensures Plain(Ordered(v), room)
    decreases v, 1
  {
    hide HoleFree, IsObject, IsArray;
    if v.Table? {
      if HoleFree(v.entries) {
        TreePlainArray(v, room);
      } else {
        TreePlainObject(v, room);
      }
    }
  }

  lemma TreeTable(v: Value, room: nat)
    requires Tree(v, room) && v.Table?
    ensures room > 0 && (HoleFree(v.entries) || IsObject(v.entries))
    ensures forall i :: 0 <= i < |v.entries| ==> Tree(v.entries[i].value, room - 1)
  {
  }

  lemma PlainTable(v: Value, room: nat)
    requires v.Table? && room > 0 && (IsArray(v.entries) || IsObject(v.entries))
    requires forall i :: 0 <= i < |v.entries| ==> Plain(v.entries[i].value, room - 1)
    ensures Plain(v, room)
  {
  }

  lemma {:induction false} TreePlainArray(v: Value, room: nat)
    requires Tree(v, room) && v.Table? && HoleFree(v.entries)
    ensures Plain(Ordered(v), room)
    decreases v, 0
  {
    hide Tree, Plain, Ordered, HoleFree, IsArray, IsObject;
    TreeTable(v, room);
    OrderedIsArray(v);
    var o := Ordered(v);
    forall i | 0 <= i < |o.entries| ensures Plain(o.entries[i].value, room - 1) {
      OrderedArray(v, i);
      TreePlain(v.entries[IndexOf(v.entries, IntKey(i + 1))].value, room - 1);
    }
    PlainTable(o, room);
  }

  lemma {:induction false} TreePlainObject(v: Value, room: nat)
    requires Tree(v, room) && v.Table? && !HoleFree(v.entries)
    ensures Plain(Ordered(v), room)
    decreases v, 0
  {
    hide Tree, Plain, Ordered, HoleFree, IsArray;
    TreeTable(v, room);
    OtherKeys(v);
    var o := Ordered(v);
    forall i | 0 <= i < |o.entries| ensures Plain(o.entries[i].value, room - 1) {
      OrderedOther(v, i);
      TreePlain(v.entries[i].value, room - 1);
    }
    PlainTable(o, room);
  }

  /** Decoding undoes encoding up to the order of array elements. */
  lemma DecodeOfEncodeAnyOrder(v: Value, cfg: Config, room: nat)
    requires Tree(v, room) && room <= cfg.encodeMaxDepth && room <= cfg.decodeMaxDepth
    ensures Encode(v, cfg, 0).Ok? && Decode(Encode(v, cfg, 0).value, cfg) == Ok(Ordered(v))
  {
    TreePlain(v, room);
    EncodeOrdered(v, cfg, 0);
    DecodeOfEncode(Ordered(v), cfg, room);
  }
}
