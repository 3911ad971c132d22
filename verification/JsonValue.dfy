/** Values, the text they are encoded as, and the parser that reads it back. */
module JsonValue {
  import opened Serial
  import opened Utf8
  import opened JsonText

  datatype Result<T, E> = Ok(value: T) | Err(error: E)

  /** The settings that decide what is encoded and decoded. */
  datatype Config = Config(sparseConvert: bool, sparseRatio: nat, sparseSafe: nat,
                           encodeMaxDepth: nat, decodeMaxDepth: nat, decodeInvalidNumbers: bool)

  /** A value without fractions.  Null stands for the null pointer that represents null inside
      tables; Other for what cannot be encoded. */
  datatype Value = Nil | Null | Bool(b: bool) | Int(n: int) | Str(s: seq<byte>) | Table(entries: seq<Entry>) | Other

  datatype Key = IntKey(k: int) | StrKey(s: seq<byte>) | OtherKey

  /** Entries stand in the order a traversal of the table meets them. */
  datatype Entry = Entry(key: Key, value: Value)

  // ---------------------------------------------------------------- encoding

  datatype EncodeError = TooSparse | TooDeep | BadKey | BadType

  type Encoded = Result<seq<byte>, EncodeError>

  /** The position of a key's entry, or the number of entries. */
  function IndexOf(entries: seq<Entry>, key: Key): (i: nat)
    ensures i <= |entries|
    ensures i < |entries| ==> entries[i].key == key
    ensures forall j :: 0 <= j < i ==> entries[j].key != key
  {
    if entries == [] then 0
    else if entries[0].key == key then 0
    else 1 + IndexOf(entries[1..], key)
  }

  predicate PositiveKey(key: Key) {
    key.IntKey? && key.k >= 1
  }

  predicate PositiveKeys(entries: seq<Entry>) {
    forall i :: 0 <= i < |entries| ==> PositiveKey(entries[i].key)
  }

  /** The largest of the keys, all of which are positive integers. */
  function MaxKey(entries: seq<Entry>): (m: nat)
    requires PositiveKeys(entries)
    ensures forall i :: 0 <= i < |entries| ==> PositiveKey(entries[i].key) && entries[i].key.k <= m
  {
    if entries == [] then 0
    else
      var m, last := MaxKey(entries[..|entries| - 1]), entries[|entries| - 1];
      if last.key.k > m then last.key.k else m
  }

  /** The length of a table as an array, or -1 for an object. */
  function ArrayLength(entries: seq<Entry>, cfg: Config): Result<int, EncodeError> {
    if !PositiveKeys(entries) then Ok(-1)
    else
      var max := MaxKey(entries);
      if cfg.sparseRatio > 0 && max > |entries| * cfg.sparseRatio && max > cfg.sparseSafe then
        if cfg.sparseConvert then Ok(-1) else Err(TooSparse)
      else Ok(max)
  }

  const NULL_TEXT: seq<byte> := [110, 117, 108, 108]
  const TRUE_TEXT: seq<byte> := [116, 114, 117, 101]
  const FALSE_TEXT: seq<byte> := [102, 97, 108, 115, 101]

  function Encode(v: Value, cfg: Config, depth: nat): (r: Encoded)
    decreases v, 1, 0
  {
    match v
    case Str(s) => Ok(Quoted(s))
    case Int(n) => Ok(IntText(n))
    case Bool(b) => Ok(if b then TRUE_TEXT else FALSE_TEXT)
    case Nil => Ok(NULL_TEXT)
    case Null => Ok(NULL_TEXT)
    case Other => Err(BadType)
    case Table(entries) =>
      if depth + 1 > cfg.encodeMaxDepth then Err(TooDeep)
      else
        var len := ArrayLength(entries, cfg);
        if len.Err? then Err(len.error)
        else if len.value > 0 then Bracket(91, EncodeElements(v, cfg, depth + 1, len.value), 93)
        else Bracket(123, EncodeMembers(v, cfg, depth + 1, |entries|), 125)
  }

  function Bracket(open: byte, r: Encoded, close: byte): Encoded {
    if r.Err? then r else Ok([open] + r.value + [close])
  }

  /** Two parts, with the first error if there is one. */
  function Then(a: Encoded, b: Encoded): Encoded {
    if a.Err? then a else if b.Err? then b else Ok(a.value + b.value)
  }

  function Comma(n: nat): seq<byte> {
    if n > 0 then [44] else []
  }

  /** The first n elements, separated by commas; missing ones are nil. */
  function EncodeElements(v: Value, cfg: Config, depth: nat, n: nat): Encoded
    requires v.Table?
    decreases v, 0, n
  {
    if n == 0 then Ok([])
    else
      var i := IndexOf(v.entries, IntKey(n));
      Then(Then(EncodeElements(v, cfg, depth, n - 1), Ok(Comma(n - 1))),
           if i < |v.entries| then Encode(v.entries[i].value, cfg, depth) else Ok(NULL_TEXT))
  }

  /** A key and its colon. */
  function EncodeKey(key: Key): Encoded {
    match key
    case IntKey(k) => Ok([34] + IntText(k) + [34, 58])
    case StrKey(s) => Ok(Quoted(s) + [58])
    case OtherKey => Err(BadKey)
  }

  /** The first n members, separated by commas. */
  function EncodeMembers(v: Value, cfg: Config, depth: nat, n: nat): Encoded
    requires v.Table? && n <= |v.entries|
    decreases v, 0, n
  {
    if n == 0 then Ok([])
    else
      var e := v.entries[n - 1];
      Then(Then(Then(EncodeMembers(v, cfg, depth, n - 1), Ok(Comma(n - 1))), EncodeKey(e.key)),
           Encode(e.value, cfg, depth))
  }

  // ---------------------------------------------------------------- tokens

  datatype Token = ObjBegin | ObjEnd | ArrBegin | ArrEnd | StringToken(s: seq<byte>) | RealToken | IntToken(n: int)
                 | BoolToken(b: bool) | NullToken | ColonToken | CommaToken | EndToken | ErrorToken(error: TextError)

  datatype Lexed = Lexed(token: Token, next: nat)

  predicate Space(ch: byte) {
    ch == 32 || ch == 9 || ch == 10 || ch == 13
  }

  function SkipSpace(text: seq<byte>, p: nat): (q: nat)
    requires p <= |text|
    ensures p <= q <= |text| && !Space(At(text, q))
    decreases |text| - p
  {
    if Space(At(text, p)) then SkipSpace(text, p + 1) else p
  }

  /** Case-insensitive comparison with three lower-case letters. */
  predicate Letters3(text: seq<byte>, p: nat, a: byte, b: byte, c: byte) {
    Lower(At(text, p)) == a && Lower(At(text, p + 1)) == b && Lower(At(text, p + 2)) == c
  }

  function Lower(ch: byte): byte {
    if 65 <= ch <= 90 then ch + 32 else ch
  }

  /** Numbers the C library would read but strict JSON does not allow.  Bytes compare as signed
      characters. */
  predicate LooseNumber(text: seq<byte>, p: nat) {
    if At(text, p) == 43 then true
    else
      var q := if At(text, p) == 45 then p + 1 else p;
      var ch := At(text, q);
      if ch == 48 then
        var ch2 := At(text, q + 1);
        ch2 == 120 || ch2 == 88 || 48 <= ch2 <= 57
      else if ch <= 57 || ch >= 128 then false
      else Letters3(text, q, 105, 110, 102) || Letters3(text, q, 110, 97, 110)
  }

  function NumberToken(text: seq<byte>, p: nat): (r: Lexed)
    requires p <= |text|
    ensures p <= r.next <= |text| && (r.next == p ==> r.token.ErrorToken?)
  {
    var r := Strtoll(text, p);
    if r.next == p then Lexed(ErrorToken(TextError.InvalidNumber), p)
    else if At(text, r.next) == 46 || At(text, r.next) == 69 || At(text, r.next) == 101 then Lexed(RealToken, r.next)
    else Lexed(IntToken(r.value), r.next)
  }

  /** The token that starts at p, which is not white space. */
  function TokenAt(text: seq<byte>, p: nat, cfg: Config): (r: Lexed)
    requires p <= |text|
    ensures p <= r.next <= |text| && (r.next == p ==> r.token.ErrorToken? || r.token.EndToken?)
  {
    var ch := At(text, p);
    if ch == 123 then Lexed(ObjBegin, p + 1)
    else if ch == 125 then Lexed(ObjEnd, p + 1)
    else if ch == 91 then Lexed(ArrBegin, p + 1)
    else if ch == 93 then Lexed(ArrEnd, p + 1)
    else if ch == 44 then Lexed(CommaToken, p + 1)
    else if ch == 58 then Lexed(ColonToken, p + 1)
    else if ch == 0 then Lexed(EndToken, p)
    else if ch == 34 then
      var r := ParseChars(text, p + 1);
      if r.Chars? then Lexed(StringToken(r.bytes), r.next) else Lexed(ErrorToken(r.error), p)
    else if ch == 45 || 48 <= ch <= 57 then
      if !cfg.decodeInvalidNumbers && LooseNumber(text, p) then Lexed(ErrorToken(TextError.InvalidNumber), p)
      else NumberToken(text, p)
    else if Holds(text, p, TRUE_TEXT) then Lexed(BoolToken(true), p + 4)
    else if Holds(text, p, FALSE_TEXT) then Lexed(BoolToken(false), p + 5)
    else if Holds(text, p, NULL_TEXT) then Lexed(NullToken, p + 4)
    else if (ch == 43 || ch == 105 || ch == 73 || ch == 110 || ch == 78) && cfg.decodeInvalidNumbers && LooseNumber(text, p) then
      NumberToken(text, p)
    else Lexed(ErrorToken(InvalidToken), p)
  }

  function NextToken(text: seq<byte>, p: nat, cfg: Config): (r: Lexed)
    requires p <= |text|
    ensures p <= r.next <= |text| && (r.next == p ==> r.token.ErrorToken? || r.token.EndToken?)
  {
    TokenAt(text, SkipSpace(text, p), cfg)
  }

  // ---------------------------------------------------------------- decoding

  datatype Expectation = AnyValue | ObjectKey | Colon | CommaOrObjectEnd | CommaOrArrayEnd | TheEnd

  datatype DecodeError = Expected(what: Expectation, found: Token) | TooNested | WideEncoding | Fraction

  datatype Parsed = Parsed(value: Value, next: nat)

  type Decoded = Result<Parsed, DecodeError>

  /** Stores a value under a key, in place of the old one if there is one. */
  function RawSet(entries: seq<Entry>, key: Key, value: Value): seq<Entry> {
    var i := IndexOf(entries, key);
    if i < |entries| then entries[i := Entry(key, value)] else entries + [Entry(key, value)]
  }

  function ParseValue(text: seq<byte>, cfg: Config, token: Token, p: nat, depth: nat): (r: Decoded)
    requires p <= |text| && depth <= cfg.decodeMaxDepth
    ensures r.Ok? ==> p <= r.value.next <= |text|
    decreases |text| - p, cfg.decodeMaxDepth - depth, 0
  {
    match token
    case StringToken(s) => Ok(Parsed(Str(s), p))
    case IntToken(n) => Ok(Parsed(Int(n), p))
    case BoolToken(b) => Ok(Parsed(Bool(b), p))
    case NullToken => Ok(Parsed(Null, p))
    case RealToken => Err(Fraction)
    case ObjBegin => if depth + 1 > cfg.decodeMaxDepth then Err(TooNested) else ParseObject(text, cfg, p, depth + 1)
    case ArrBegin => if depth + 1 > cfg.decodeMaxDepth then Err(TooNested) else ParseArray(text, cfg, p, depth + 1)
    case _ => Err(Expected(AnyValue, token))
  }

  function ParseArray(text: seq<byte>, cfg: Config, p: nat, depth: nat): (r: Decoded)
    requires p <= |text| && depth <= cfg.decodeMaxDepth
    ensures r.Ok? ==> p <= r.value.next <= |text|
    decreases |text| - p, cfg.decodeMaxDepth - depth, 2
  {
    var t := NextToken(text, p, cfg);
    if t.token == ArrEnd then Ok(Parsed(Table([]), t.next))
    else ParseElements(text, cfg, t.token, t.next, depth, [])
  }

  /** The elements of an array from the one that starts with a given token; acc are those before. */
  function ParseElements(text: seq<byte>, cfg: Config, token: Token, p: nat, depth: nat, acc: seq<Entry>): (r: Decoded)
    requires p <= |text| && depth <= cfg.decodeMaxDepth
    ensures r.Ok? ==> p <= r.value.next <= |text|
    decreases |text| - p, cfg.decodeMaxDepth - depth, 1
  {
    var v := ParseValue(text, cfg, token, p, depth);
    if v.Err? then v
    else
      var entries := acc + [Entry(IntKey(|acc| + 1), v.value.value)];
      var t := NextToken(text, v.value.next, cfg);
      if t.token == ArrEnd then Ok(Parsed(Table(entries), t.next))
      else if t.token != CommaToken then Err(Expected(CommaOrArrayEnd, t.token))
      else
        var u := NextToken(text, t.next, cfg);
        ParseElements(text, cfg, u.token, u.next, depth, entries)
  }

  function ParseObject(text: seq<byte>, cfg: Config, p: nat, depth: nat): (r: Decoded)
    requires p <= |text| && depth <= cfg.decodeMaxDepth
    ensures r.Ok? ==> p <= r.value.next <= |text|
    decreases |text| - p, cfg.decodeMaxDepth - depth, 2
  {
    var t := NextToken(text, p, cfg);
    if t.token == ObjEnd then Ok(Parsed(Table([]), t.next))
    else ParseMembers(text, cfg, t.token, t.next, depth, [])
  }

  /** The colon behind a key and the value. */
  function ParseAfterKey(text: seq<byte>, cfg: Config, p: nat, depth: nat): (r: Decoded)
    requires p <= |text| && depth <= cfg.decodeMaxDepth
    ensures r.Ok? ==> p < r.value.next <= |text|
    decreases |text| - p, cfg.decodeMaxDepth - depth, 0
  {
    var c := NextToken(text, p, cfg);
    if c.token != ColonToken then Err(Expected(Colon, c.token))
    else
      var f := NextToken(text, c.next, cfg);
      ParseValue(text, cfg, f.token, f.next, depth)
  }

  /** The members of an object from the one whose key is a given token. */
  function ParseMembers(text: seq<byte>, cfg: Config, token: Token, p: nat, depth: nat, acc: seq<Entry>): (r: Decoded)
    requires p <= |text| && depth <= cfg.decodeMaxDepth
    ensures r.Ok? ==> p <= r.value.next <= |text|
    decreases |text| - p, cfg.decodeMaxDepth - depth, 1
  {
    if !token.StringToken? then Err(Expected(ObjectKey, token))
    else
      var v := ParseAfterKey(text, cfg, p, depth);
      if v.Err? then v
      else
        var entries := RawSet(acc, StrKey(token.s), v.value.value);
        var t := NextToken(text, v.value.next, cfg);
        if t.token == ObjEnd then Ok(Parsed(Table(entries), t.next))
        else if t.token != CommaToken then Err(Expected(CommaOrObjectEnd, t.token))
        else
          var u := NextToken(text, t.next, cfg);
          ParseMembers(text, cfg, u.token, u.next, depth, entries)
  }

  /** A whole text: one value and nothing behind it. */
  function Decode(text: seq<byte>, cfg: Config): Result<Value, DecodeError> {
    if |text| >= 2 && (text[0] == 0 || text[1] == 0) then Err(WideEncoding)
    else
      var t := NextToken(text, 0, cfg);
      var v := ParseValue(text, cfg, t.token, t.next, 0);
      if v.Err? then Err(v.error)
      else
        var e := NextToken(text, v.value.next, cfg);
        if e.token == EndToken then Ok(v.value.value) else Err(Expected(TheEnd, e.token))
  }
}
