/** The KCP wire format: a 24-byte little-endian header followed by the payload. */
module KcpWire {
  import opened Sequences
  import opened Serial

  const IKCP_CMD_PUSH: byte := 81
  const IKCP_CMD_ACK: byte := 82
  const IKCP_CMD_WASK: byte := 83
  const IKCP_CMD_WINS: byte := 84
  const IKCP_OVERHEAD := 24

  predicate KnownCmd(cmd: byte) {
    cmd == IKCP_CMD_PUSH || cmd == IKCP_CMD_ACK || cmd == IKCP_CMD_WASK || cmd == IKCP_CMD_WINS
  }

  /** One segment as it travels: the header's len field is |data|. */
  datatype Wire = Wire(conv: u32, cmd: byte, frg: byte, wnd: u16, ts: u32, sn: u32, una: u32, data: seq<byte>)

  function Enc16(w: u16): (s: seq<byte>)
    ensures |s| == 2
  {
    [w % 256, w / 256]
  }

  function Dec16(s: seq<byte>, i: nat): u16
    requires i + 2 <= |s|
  {
    var lo: int, hi: int := s[i], s[i + 1];
    lo + 256 * hi
  }

  function Enc32(l: u32): (s: seq<byte>)
    ensures |s| == 4
  {
    [l % 256, l / 256 % 256, l / 65536 % 256, l / 16777216]
  }

  function Dec32(s: seq<byte>, i: nat): u32
    requires i + 4 <= |s|
  {
    var a: int, b: int, c: int, e: int := s[i], s[i + 1], s[i + 2], s[i + 3];
    a + 256 * (b + 256 * (c + 256 * e))
  }

  function Header(w: Wire): (s: seq<byte>)
    requires |w.data| < TWO31
    ensures |s| == IKCP_OVERHEAD
  {
    Enc32(w.conv) + [w.cmd] + [w.frg] + Enc16(w.wnd) + Enc32(w.ts) + Enc32(w.sn) + Enc32(w.una) + Enc32(|w.data|)
  }

  function Encode(w: Wire): (s: seq<byte>)
    requires |w.data| < TWO31
    ensures |s| == Size(w)
  {
    Header(w) + w.data
  }

  function Size(w: Wire): nat {
    IKCP_OVERHEAD + |w.data|
  }

  predicate Encodable(ws: seq<Wire>) {
    forall i :: 0 <= i < |ws| ==> |ws[i].data| < TWO31
  }

  function SizeAll(ws: seq<Wire>): nat {
    if ws == [] then 0 else SizeAll(ws[..|ws| - 1]) + Size(ws[|ws| - 1])
  }

  /** The buffer after the segments have been encoded one behind the other. */
  function EncodeAll(ws: seq<Wire>): (s: seq<byte>)
    requires Encodable(ws)
    ensures |s| == SizeAll(ws)
  {
    if ws == [] then [] else EncodeAll(ws[..|ws| - 1]) + Encode(ws[|ws| - 1])
  }

  /** What the input loop makes of a datagram: the segments it accepts before it stops, and
      its return code (0, or the negative code of the first bad segment). */
  datatype Parsed = Parsed(segs: seq<Wire>, code: int)

  function HeaderAt(d: seq<byte>, i: nat, len: nat): (w: Wire)
    requires i + IKCP_OVERHEAD + len <= |d|
    ensures |w.data| == len
  {
    Wire(Dec32(d, i), d[i + 4], d[i + 5], Dec16(d, i + 6), Dec32(d, i + 8), Dec32(d, i + 12), Dec32(d, i + 16),
         d[i + IKCP_OVERHEAD..i + IKCP_OVERHEAD + len])
  }

  function ParseFrom(conv: u32, d: seq<byte>, i: nat): (p: Parsed)
    requires i <= |d|
    ensures p.code in {0, -1, -2, -3}
    ensures forall j :: 0 <= j < |p.segs| ==>
      p.segs[j].conv == conv && KnownCmd(p.segs[j].cmd) && |p.segs[j].data| < TWO31
    decreases |d| - i
  {
    if |d| - i < IKCP_OVERHEAD then Parsed([], 0)
    else if Dec32(d, i) != conv then Parsed([], -1)
    else
      var len := Dec32(d, i + 20);
      if |d| - i - IKCP_OVERHEAD < len || len >= TWO31 then Parsed([], -2)
      else
        var w := HeaderAt(d, i, len);
        if !KnownCmd(w.cmd) then Parsed([], -3)
        else
          var rest := ParseFrom(conv, d, i + IKCP_OVERHEAD + len);
          Parsed([w] + rest.segs, rest.code)
  }

  lemma Dec32OfEnc32(l: u32)
    ensures Dec32(Enc32(l), 0) == l
  {
    var q := l / 256;
    assert l == l % 256 + 256 * q && l / 65536 == q / 256 && l / 16777216 == q / 65536;
    ThreeDigits(q);
  }

  lemma ThreeDigits(q: nat)
    ensures q == q % 256 + 256 * (q / 256 % 256 + 256 * (q / 65536))
  {
    assert q / 65536 == q / 256 / 256;
  }

  /** Reading a word inside a longer byte string is reading it in the slice that holds it. */
  lemma DecSlice(s: seq<byte>, i: nat, part: seq<byte>)
    requires i + |part| <= |s| && s[i..i + |part|] == part
    ensures |part| == 4 ==> Dec32(s, i) == Dec32(part, 0)
    ensures |part| == 2 ==> Dec16(s, i) == Dec16(part, 0)
    ensures |part| == 1 ==> s[i] == part[0]
  {
    forall k | 0 <= k < |part| ensures s[i + k] == part[k] {
      assert s[i..i + |part|][k] == s[i + k];
    }
  }

  lemma FieldSlice(d: seq<byte>, i: nat, h: seq<byte>, lo: nat, hi: nat)
    requires i + |h| <= |d| && d[i..i + |h|] == h && lo <= hi <= |h|
    ensures d[i + lo..i + hi] == h[lo..hi]
  {
    forall k | 0 <= k < hi - lo ensures d[i + lo..i + hi][k] == h[lo..hi][k] {
      assert d[i..i + |h|][lo + k] == d[i + lo + k];
    }
  }

  /** Where each header field lies. */
  lemma HeaderFields(w: Wire, d: seq<byte>, i: nat)
    requires |w.data| < TWO31
    requires i + Size(w) <= |d| && d[i..i + Size(w)] == Encode(w)
    ensures Dec32(d, i) == w.conv && Dec32(d, i + 20) == |w.data|
    ensures HeaderAt(d, i, |w.data|) == w
  {
    hide Dec32, Enc32, Dec16, Enc16, Header;
    var h := Header(w);
    assert d[i..i + 24] == d[i..i + Size(w)][..24] == h;
    HeaderParts(w);
    WordAt(d, i, h, 0, w.conv);
    WordAt(d, i, h, 8, w.ts);
    WordAt(d, i, h, 12, w.sn);
    WordAt(d, i, h, 16, w.una);
    WordAt(d, i, h, 20, |w.data|);
    HalfAt(d, i, h, 6, w.wnd);
    assert d[i + 4] == d[i..i + 24][4] && d[i + 5] == d[i..i + 24][5];
    assert d[i + 24..i + 24 + |w.data|] == d[i..i + Size(w)][24..] == w.data;
  }

  lemma HeaderParts(w: Wire)
    requires |w.data| < TWO31
    ensures var h := Header(w);
      && h[0..4] == Enc32(w.conv) && h[4] == w.cmd && h[5] == w.frg && h[6..8] == Enc16(w.wnd)
      && h[8..12] == Enc32(w.ts) && h[12..16] == Enc32(w.sn) && h[16..20] == Enc32(w.una)
      && h[20..24] == Enc32(|w.data|)
  {
    hide Enc32, Enc16;
  }

  /** Four bytes, the least significant first. */
  function LittleEndian(s: seq<byte>, i: nat): int
    requires i + 4 <= |s|
  {
    var a: int, b: int, c: int, e: int := s[i], s[i + 1], s[i + 2], s[i + 3];
    a + 0x100 * b + 0x1_0000 * c + 0x100_0000 * e
  }

  /** The layout on the wire, byte by byte. */
  lemma Layout(w: Wire)
    requires |w.data| < TWO31
    ensures var s := Encode(w);
      && |s| == 24 + |w.data| && s[24..] == w.data
      && LittleEndian(s, 0) == w.conv && s[4] == w.cmd && s[5] == w.frg
      && (var lo: int, hi: int := s[6], s[7]; lo + 0x100 * hi == w.wnd)
      && LittleEndian(s, 8) == w.ts && LittleEndian(s, 12) == w.sn
      && LittleEndian(s, 16) == w.una && LittleEndian(s, 20) == |w.data|
  {
    hide Enc32, Dec32, Header;
    var s := Encode(w);
    assert s[0..0 + Size(w)] == s;
    HeaderFields(w, s, 0);
    forall i | i in {0, 8, 12, 16, 20} ensures LittleEndian(s, i) == Dec32(s, i) {
      Weights(s, i);
    }
  }

  lemma Weights(s: seq<byte>, i: nat)
    requires i + 4 <= |s|
    ensures LittleEndian(s, i) == Dec32(s, i)
  {
  }

  /** A word of the header, read where it stands in the datagram. */
  lemma WordAt(d: seq<byte>, i: nat, h: seq<byte>, lo: nat, l: u32)
    requires i + |h| <= |d| && d[i..i + |h|] == h && lo + 4 <= |h| && h[lo..lo + 4] == Enc32(l)
    ensures Dec32(d, i + lo) == l
  {
    hide Dec32, Enc32;
    FieldSlice(d, i, h, lo, lo + 4);
    DecSlice(d, i + lo, Enc32(l));
    Dec32OfEnc32(l);
  }

  lemma HalfAt(d: seq<byte>, i: nat, h: seq<byte>, lo: nat, w: u16)
    requires i + |h| <= |d| && d[i..i + |h|] == h && lo + 2 <= |h| && h[lo..lo + 2] == Enc16(w)
    ensures Dec16(d, i + lo) == w
  {
    FieldSlice(d, i, h, lo, lo + 2);
    DecSlice(d, i + lo, Enc16(w));
  }

  /** Bytes of the first segment, then the bytes of the others. */
  lemma {:induction false} EncodeAllFront(ws: seq<Wire>)
    requires Encodable(ws) && ws != []
    ensures EncodeAll(ws) == Encode(ws[0]) + EncodeAll(ws[1..])
  {
    hide Encode;
    if |ws| > 1 {
      var init, last := ws[..|ws| - 1], Encode(ws[|ws| - 1]);
      EncodeAllFront(init);
      assert init[1..] == ws[1..][..|ws| - 2];
      hide EncodeAll;
      Assoc(Encode(ws[0]), EncodeAll(init[1..]), last);
    }
  }

  lemma SplitTail<T>(d: seq<T>, i: nat, a: seq<T>, b: seq<T>)
    requires i <= |d| && d[i..] == a + b
    ensures i + |a| <= |d| && d[i..i + |a|] == a && d[i + |a|..] == b
  {
    assert d[i..i + |a|] == d[i..][..|a|];
    assert d[i + |a|..] == d[i..][|a|..];
  }

  lemma ParseNothing(conv: u32, d: seq<byte>, i: nat)
    requires i <= |d| && d[i..] == EncodeAll([])
    ensures ParseFrom(conv, d, i) == Parsed([], 0)
  {
  }

  lemma ParseStep(conv: u32, d: seq<byte>, i: nat, w: Wire)
    requires |w.data| < TWO31 && w.conv == conv && KnownCmd(w.cmd)
    requires i + Size(w) <= |d| && d[i..i + Size(w)] == Encode(w)
    ensures var rest := ParseFrom(conv, d, i + Size(w));
      ParseFrom(conv, d, i) == Parsed([w] + rest.segs, rest.code)
  {
    hide Encode, HeaderAt, Dec32, KnownCmd;
    HeaderFields(w, d, i);
  }

  /** The input loop recovers exactly the segments of an encoded datagram, consumes every byte
      of it and reports success. */
  lemma {:induction false} ParseOfEncode(conv: u32, d: seq<byte>, i: nat, ws: seq<Wire>)
    requires Encodable(ws)
    requires forall j :: 0 <= j < |ws| ==> ws[j].conv == conv && KnownCmd(ws[j].cmd)
    requires i <= |d| && d[i..] == EncodeAll(ws)
    ensures ParseFrom(conv, d, i) == Parsed(ws, 0)
    decreases |ws|
  {
    hide Encode, EncodeAll, ParseFrom, HeaderAt;
    if ws == [] {
      ParseNothing(conv, d, i);
    } else {
      EncodeAllFront(ws);
      var n := Size(ws[0]);
      SplitTail(d, i, Encode(ws[0]), EncodeAll(ws[1..]));
      ParseStep(conv, d, i, ws[0]);
      ParseOfEncode(conv, d, i + n, ws[1..]);
      assert [ws[0]] + ws[1..] == ws;
    }
  }

  /** Taking apart a datagram that parses without error. */
  lemma ParseHead(conv: u32, d: seq<byte>, i: nat)
    requires i + IKCP_OVERHEAD <= |d| && ParseFrom(conv, d, i).code == 0
    ensures var len := Dec32(d, i + 20);
      && i + IKCP_OVERHEAD + len <= |d| && len < TWO31
      && ParseFrom(conv, d, i + IKCP_OVERHEAD + len).code == 0
      && ParseFrom(conv, d, i).segs == [HeaderAt(d, i, len)] + ParseFrom(conv, d, i + IKCP_OVERHEAD + len).segs
  {
  }

  /** Conversely a datagram accepted without error consists of the encodings of the parsed
      segments followed by fewer bytes than one header. */
  lemma {:induction false} EncodeOfParse(conv: u32, d: seq<byte>, i: nat)
    requires i <= |d|
    requires ParseFrom(conv, d, i).code == 0
    ensures var ws := ParseFrom(conv, d, i).segs;
      Encodable(ws) && EncodeAll(ws) <= d[i..] && |d| - i - |EncodeAll(ws)| < IKCP_OVERHEAD
    decreases |d| - i
  {
    hide Encode, HeaderAt, Dec32, ParseFrom, EncodeAll, KnownCmd;
    var ws := ParseFrom(conv, d, i).segs;
    if |d| - i < IKCP_OVERHEAD {
      ParseShort(conv, d, i);
    } else {
      ParseHead(conv, d, i);
      var len := Dec32(d, i + 20);
      var n := IKCP_OVERHEAD + len;
      EncodeOfParse(conv, d, i + n);
      EncodeOfHeader(d, i, len);
      EncodeAllFront(ws);
      assert ws[1..] == ParseFrom(conv, d, i + n).segs;
      PrefixJoin(d, i, i + n, EncodeAll(ws[1..]));
    }
  }

  lemma ParseShort(conv: u32, d: seq<byte>, i: nat)
    requires i <= |d| < i + IKCP_OVERHEAD
    ensures ParseFrom(conv, d, i) == Parsed([], 0) && EncodeAll([]) == []
  {
  }

  lemma PrefixJoin<T>(d: seq<T>, i: nat, j: nat, s: seq<T>)
    requires i <= j <= |d| && s <= d[j..]
    ensures d[i..j] + s <= d[i..]
  {
    assert d[i..] == d[i..j] + d[j..];
  }

  lemma LowDigit(a: nat, q: nat)
    requires a < 256
    ensures (a + 256 * q) % 256 == a && (a + 256 * q) / 256 == q
  {
  }

  lemma Enc32OfDec32(s: seq<byte>, i: nat)
    requires i + 4 <= |s|
    ensures Enc32(Dec32(s, i)) == s[i..i + 4]
  {
    var a: int, b: int, c: int, e: int := s[i], s[i + 1], s[i + 2], s[i + 3];
    var l := Dec32(s, i);
    LowDigit(a, b + 256 * (c + 256 * e));
    LowDigit(b, c + 256 * e);
    LowDigit(c, e);
    assert l / 65536 == l / 256 / 256 && l / 16777216 == l / 65536 / 256;
  }

  lemma EncodeOfHeader(d: seq<byte>, i: nat, len: nat)
    requires i + IKCP_OVERHEAD + len <= |d| && len < TWO31
    requires Dec32(d, i + 20) == len
    ensures Encode(HeaderAt(d, i, len)) == d[i..i + IKCP_OVERHEAD + len]
  {
    var w := HeaderAt(d, i, len);
    HeaderOfFields(d, i, w);
    hide Header;
    assert d[i..i + 24] + d[i + 24..i + 24 + len] == d[i..i + 24 + len];
  }

  lemma HeaderOfFields(d: seq<byte>, i: nat, w: Wire)
    requires i + IKCP_OVERHEAD <= |d| && |w.data| < TWO31
    requires w.conv == Dec32(d, i) && w.cmd == d[i + 4] && w.frg == d[i + 5] && w.wnd == Dec16(d, i + 6)
    requires w.ts == Dec32(d, i + 8) && w.sn == Dec32(d, i + 12) && w.una == Dec32(d, i + 16)
    requires |w.data| == Dec32(d, i + 20)
    ensures Header(w) == d[i..i + IKCP_OVERHEAD]
  {
    Enc32OfDec32(d, i);
    Enc32OfDec32(d, i + 8);
    Enc32OfDec32(d, i + 12);
    Enc32OfDec32(d, i + 16);
    Enc32OfDec32(d, i + 20);
    assert Enc16(w.wnd) == d[i + 6..i + 8];
    hide Enc32, Enc16, Dec32, Dec16;
    assert [w.cmd] == d[i + 4..i + 5] && [w.frg] == d[i + 5..i + 6];
    Join(d, i, i + 4, i + 5);
    Join(d, i, i + 5, i + 6);
    Join(d, i, i + 6, i + 8);
    Join(d, i, i + 8, i + 12);
    Join(d, i, i + 12, i + 16);
    Join(d, i, i + 16, i + 20);
    Join(d, i, i + 20, i + 24);
  }

  lemma Join<T>(d: seq<T>, i: nat, j: nat, k: nat)
    requires i <= j <= k <= |d|
    ensures d[i..j] + d[j..k] == d[i..k]
  {
  }
}
