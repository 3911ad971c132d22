/** The growable byte buffer the JSON codec writes into. */
module Strbuf {
  import opened Serial

  const STRBUF_DEFAULT_SIZE := 1023
  const STRBUF_DEFAULT_INCREMENT := -2

  /** Multiplies a size until it suffices. */
  function Grow(size: nat, factor: nat, needed: nat): (r: nat)
    requires size > 0 && factor > 1
    ensures r >= needed && r >= size
    ensures r > size ==> r < needed * factor
    decreases needed - size
  {
    if size < needed then
      assert size * factor >= size + size;
      Grow(size * factor, factor, needed)
    else
      size
  }

  lemma GrowStep(size: nat, factor: nat, needed: nat)
    requires 0 < size < needed && factor > 1
    ensures size * factor > size && Grow(size, factor, needed) == Grow(size * factor, factor, needed)
  {
    assert size * factor >= size + size;
  }

  /** Rounds a size up to a multiple of the increment. */
  function RoundUp(size: nat, increment: nat): (r: nat)
    requires increment > 0
  {
    ((size + increment - 1) / increment) * increment
  }

  /** The size a buffer takes when asked to hold len bytes and a terminator. */
  function NewSize(size: nat, increment: int, len: nat): nat
    requires size > 0 && (increment < -1 || increment > 0)
  {
    if size > len + 1 then len + 1
    else if increment < 0 then Grow(size, -increment, len + 1)
    else RoundUp(size, increment)
  }

  lemma BelowMultiple(n: nat, q: nat, d: nat)
    requires d > 0
    ensures n < (q + 1) * d <==> n / d <= q
  {
    var k := n / d;
    assert n == k * d + n % d;
    if k <= q {
      assert (k + 1) * d <= (q + 1) * d;
    } else {
      assert k * d >= (q + 1) * d;
    }
  }

  lemma RoundUpBlocks(size: nat, increment: nat)
    requires size > 0 && increment > 0
    ensures RoundUp(size, increment) == ((size - 1) / increment + 1) * increment
  {
    var n, q := size - 1, (size - 1) / increment;
    assert n == q * increment + n % increment;
    assert (q + 1) * increment <= n + increment < (q + 2) * increment;
    BelowMultiple(n + increment, q + 1, increment);
    BelowMultiple(n + increment, q, increment);
  }

  /** Growth by the increment reaches a size above len. */
  predicate Grows(size: nat, increment: int, len: nat)
    requires size > 0
  {
    increment < 0 || (increment > 0 && len / increment <= (size - 1) / increment)
  }

  /** With a multiplying increment the new size always suffices.  With an adding one, which never
      looks at the size asked for, it does so exactly if the new last byte lies in the same block
      of increment bytes as the old one, or before it. */
  lemma NewSizeFits(size: nat, increment: int, len: nat)
    requires size > 0 && (increment < -1 || increment > 0)
    ensures NewSize(size, increment, len) > len <==> Grows(size, increment, len)
  {
    if increment > 0 {
      RoundUpBlocks(size, increment);
      BelowMultiple(len, (size - 1) / increment, increment);
      if size > len + 1 {
        BelowMultiple(size - 1, (size - 1) / increment, increment);
      }
    }
  }

  /** A larger buffer shrinks to what is asked for.  Exponential growth stops as soon as that is reached, and linear
      growth only fills up the block the old size ends in. */
  lemma NewSizeBounds(size: nat, increment: int, len: nat)
    requires size > 0 && (increment < -1 || increment > 0)
    ensures var r := NewSize(size, increment, len);
      && (size > len + 1 ==> r == len + 1)
      && (size <= len + 1 && increment < 0 ==> size <= r && (r == size || r < (len + 1) * -increment))
      && (size <= len + 1 && increment > 0 ==> size <= r < size + increment)
  {
    if increment > 0 {
      RoundUpBlocks(size, increment);
      var n := size - 1;
      assert n == n / increment * increment + n % increment;
    }
  }

  /** What suffices for len suffices for less, and one step of linear growth reaches all of it. */
  lemma GrowsOnce(size: nat, increment: int, len: nat, less: nat)
    requires 0 < size <= less + 1 && less <= len && (increment < -1 || increment > 0) && Grows(size, increment, len)
    ensures Grows(size, increment, less)
    ensures increment > 0 ==> NewSize(size, increment, less) > len
  {
    NewSizeFits(size, increment, len);
    if increment > 0 {
      BelowMultiple(len, (size - 1) / increment, increment);
      BelowMultiple(less, (size - 1) / increment, increment);
    }
  }

  lemma LinearGrowthTooSmall()
    ensures NewSize(20, 10, 100) == 20
  {
  }

  class Strbuf {
    var buf: array<byte>
    var length: nat
    var increment: int

    /** There is always room for a terminator. */
    ghost predicate Valid()
      reads this, buf
    {
      length < buf.Length && (increment < -1 || increment > 0)
    }

    ghost function Contents(): (s: seq<byte>)
      reads this, buf
      requires Valid()
      ensures |s| == length
    {
      buf[..length]
    }

    constructor (len: int)
      ensures Valid() && Contents() == [] && increment == STRBUF_DEFAULT_INCREMENT && fresh(buf)
      ensures buf.Length == if len <= 0 then STRBUF_DEFAULT_SIZE else len + 1
      ensures buf[0] == 0
    {
      var size := if len <= 0 then STRBUF_DEFAULT_SIZE else len + 1;
      buf := new byte[size];
      length := 0;
      increment := STRBUF_DEFAULT_INCREMENT;
      new;
      EnsureNull();
    }

    method EnsureNull()
      requires Valid()
      modifies buf
      ensures Valid() && Contents() == old(Contents()) && buf[length] == 0
    {
      buf[length] := 0;
    }

    method Reset()
      requires Valid()
      modifies `length
      ensures Valid() && Contents() == []
    {
      length := 0;
    }

    method CalculateNewSize(len: int) returns (newsize: nat)
      requires Valid() && len > 0
      ensures newsize == NewSize(buf.Length, increment, len)
    {
      var reqsize := len + 1;
      if buf.Length > reqsize {
        return reqsize;
      }
      if increment < 0 {
        newsize := Exponential(buf.Length, -increment, reqsize);
      } else {
        newsize := ((buf.Length + increment - 1) / increment) * increment;
      }
    }

    static method Exponential(size: nat, factor: nat, reqsize: nat) returns (newsize: nat)
      requires size > 0 && factor > 1
      ensures newsize == Grow(size, factor, reqsize)
    {
      newsize := size;
      while newsize < reqsize
        invariant newsize > 0 && Grow(newsize, factor, reqsize) == Grow(size, factor, reqsize)
        decreases reqsize - newsize
      {
        GrowStep(newsize, factor, reqsize);
        hide Grow;
        newsize := newsize * factor;
      }
    }

    /** Reallocates for len bytes, which are not fewer than are stored. */
    method Resize(len: int)
      requires Valid() && length <= len && 0 < len && Grows(buf.Length, increment, len)
      modifies `buf
      ensures Valid() && Contents() == old(Contents()) && fresh(buf)
      ensures buf.Length == NewSize(old(buf.Length), increment, len) > len
    {
      var newsize := CalculateNewSize(len);
      NewSizeFits(buf.Length, increment, len);
      var old_buf, n := buf, if newsize < buf.Length then newsize else buf.Length;
      buf := new byte[newsize];
      var i := 0;
      while i < n
        invariant 0 <= i <= n && fresh(buf) && buf.Length == newsize
        invariant forall j :: 0 <= j < i ==> buf[j] == old_buf[j]
        modifies buf
      {
        buf[i] := old_buf[i];
        i := i + 1;
      }
    }

    /** The bytes that can be appended without reallocating. */
    function EmptyLength(): int
      reads this, buf
    {
      buf.Length - length - 1
    }

    /** There is room for len more bytes, or growing makes it. */
    ghost predicate CanHold(len: int)
      reads this, buf
      requires Valid()
    {
      len <= EmptyLength() || Grows(buf.Length, increment, length + len)
    }

    method EnsureEmptyLength(len: int)
      requires Valid() && CanHold(len)
      modifies `buf
      ensures Valid() && Contents() == old(Contents()) && EmptyLength() >= len
      ensures buf == old(buf) || fresh(buf)
      ensures len <= old(EmptyLength()) ==> buf == old(buf)
    {
      if len > EmptyLength() {
        Resize(length + len);
      }
    }

    method AppendCharUnsafe(c: byte)
      requires Valid() && EmptyLength() > 0
      modifies `length, buf
      ensures Valid() && Contents() == old(Contents()) + [c]
    {
      buf[length] := c;
      length := length + 1;
    }

    method AppendMemUnsafe(c: seq<byte>)
      requires Valid() && EmptyLength() >= |c|
      modifies `length, buf
      ensures Valid() && Contents() == old(Contents()) + c
    {
      var i := 0;
      while i < |c|
        invariant 0 <= i <= |c| && length == old(length)
        invariant buf[..length + i] == old(buf[..length]) + c[..i]
      {
        buf[length + i] := c[i];
        assert buf[..length + i + 1] == buf[..length + i] + [c[i]];
        i := i + 1;
      }
      length := length + |c|;
    }

    method AppendChar(c: byte)
      requires Valid() && CanHold(1)
      modifies `buf, `length, buf
      ensures Valid() && Contents() == old(Contents()) + [c]
      ensures buf == old(buf) || fresh(buf)
    {
      EnsureEmptyLength(1);
      AppendCharUnsafe(c);
    }

    method AppendMem(c: seq<byte>)
      requires Valid() && CanHold(|c|)
      modifies `buf, `length, buf
      ensures Valid() && Contents() == old(Contents()) + c
      ensures buf == old(buf) || fresh(buf)
    {
      EnsureEmptyLength(|c|);
      AppendMemUnsafe(c);
    }

    /** Grows a full buffer that more bytes are to come into. */
    method OneMore(ghost more: nat)
      requires Valid() && EmptyLength() == 0 && more > 0 && CanHold(more)
      modifies `buf
      ensures Valid() && Contents() == old(Contents()) && EmptyLength() > 0 && CanHold(more) && fresh(buf)
    {
      hide Grow, RoundUp;
      GrowsOnce(buf.Length, increment, length + more, length + 1);
      Resize(length + 1);
    }

    /** One more byte was written; fewer are to come. */
    method Put(c: byte, ghost more: nat)
      requires Valid() && EmptyLength() > 0 && more > 0 && CanHold(more)
      modifies `length, buf
      ensures Valid() && Contents() == old(Contents()) + [c] && EmptyLength() == old(EmptyLength()) - 1
      ensures CanHold(more - 1)
    {
      hide Grows;
      AppendCharUnsafe(c);
    }

    /** Appends byte by byte, growing only when no room is left.  The room left over is at least
        what it was, less the bytes appended. */
    method AppendString(c: seq<byte>)
      requires Valid() && CanHold(|c|)
      modifies `buf, `length, buf
      ensures Valid() && Contents() == old(Contents()) + c
      ensures EmptyLength() >= old(EmptyLength()) - |c|
      ensures buf == old(buf) || fresh(buf)
    {
      hide CanHold;
      var space := EmptyLength();
      var i := 0;
      while i < |c|
        invariant 0 <= i <= |c| && Valid()
        invariant Contents() == old(Contents()) + c[..i]
        invariant space == EmptyLength() >= old(EmptyLength()) - i
        invariant buf == old(buf) || fresh(buf)
        invariant CanHold(|c| - i)
      {
        if space < 1 {
          OneMore(|c| - i);
          space := EmptyLength();
        }
        Put(c[i], |c| - i);
        space := space - 1;
        i := i + 1;
      }
    }
  }
}
