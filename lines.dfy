/*
 * Line records of line.c: a byte buffer of l_size bytes of which the first
 * l_used hold text, the block rounding of lalloc (lines 48-65), and the byte
 * loops the edit primitives run over line buffers.
 */
module Lines {
  import opened Utf8

  datatype Option<T> = None | Some(value: T)

  /** A line's address.  Handles are never reused once freed. */
  type Handle = nat

  /** Line block chunk size. */
  const NBLOCK: nat := 16

  /** A line: `buf` is the whole allocation (its length is l_size), `used` is l_used. */
  datatype LineData = LineData(buf: seq<byte>, used: nat)

  type Line = l: LineData | l.used <= |l.buf| witness LineData([], 0)

  /** l_size */
  function Size(l: Line): nat { |l.buf| }

  /** The text of a line: its first l_used bytes. */
  function Text(l: Line): seq<byte> { l.buf[..l.used] }

  /** A stretch of the text is the same stretch of the buffer. */
  lemma TextSlice(l: Line, a: nat, b: nat)
    requires a <= b <= l.used
    ensures l.buf[a..b] == Text(l)[a..b]
  {
    forall i | 0 <= i < b - a
      ensures l.buf[a..b][i] == Text(l)[a..b][i]
    {
      assert Text(l)[a..b][i] == Text(l)[a + i];
    }
  }

  /** Spare room at the end of a line's allocation. */
  function Room(l: Line): nat { |l.buf| - l.used }

  /**
   * The allocation size lalloc picks for `used` bytes: rounded up to a whole
   * number of blocks by clearing the low bits of used + NBLOCK - 1, and one
   * block for an empty line.
   */
  function LineCapacity(used: nat): (size: nat)
    ensures size % NBLOCK == 0 && NBLOCK <= size
    ensures used <= size
    ensures size - NBLOCK < used || size == NBLOCK
  {
    var rounded := (used + NBLOCK - 1) - (used + NBLOCK - 1) % NBLOCK;
    if rounded == 0 then NBLOCK else rounded
  }

  /** No multiple of NBLOCK between `used` and LineCapacity(used) is skipped: the capacity is the least one. */
  lemma LineCapacityLeast(used: nat, m: nat)
    requires m % NBLOCK == 0 && NBLOCK <= m && used <= m
    ensures LineCapacity(used) <= m
  {
  }

  /** A line fresh from lalloc: capacity for `used` bytes, l_used set, the bytes not yet written. */
  function Fresh(used: nat): (l: Line)
    ensures l.used == used && Size(l) == LineCapacity(used)
  {
    LineData(seq(LineCapacity(used), _ => 0), used)
  }

  /** memcpy of `src` into `dst` at offset `at`. */
  function Write(dst: seq<byte>, at: nat, src: seq<byte>): (r: seq<byte>)
    requires at + |src| <= |dst|
    ensures |r| == |dst|
    ensures r[..at] == dst[..at] && r[at..at + |src|] == src && r[at + |src|..] == dst[at + |src|..]
  {
    dst[..at] + src + dst[at + |src|..]
  }

  /** Byte i after a Write. */
  lemma WriteAt(dst: seq<byte>, at: nat, src: seq<byte>, i: nat)
    requires at + |src| <= |dst| && i < |dst|
    ensures Write(dst, at, src)[i] == if at <= i < at + |src| then src[i - at] else dst[i]
  {
  }

  /** A byte-by-byte copy loop (`*cp2++ = *cp1++`) of n bytes of `src` from `from` into `dst` at `at`. */
  method CopyBytes(dst: seq<byte>, at: nat, src: seq<byte>, from: nat, n: nat) returns (r: seq<byte>)
    requires at + n <= |dst| && from + n <= |src|
    ensures r == Write(dst, at, src[from..from + n])
  {
    r := dst;
    var i := 0;
    while i < n
      invariant 0 <= i <= n && |r| == |dst|
      invariant forall k :: at <= k < at + i ==> r[k] == src[from + k - at]
      invariant forall k :: 0 <= k < |r| && !(at <= k < at + i) ==> r[k] == dst[k]
    {
      r := r[at + i := src[from + i]];
      i := i + 1;
    }
    assert r == Write(dst, at, src[from..from + n]);
  }

  /**
   * A byte-by-byte copy loop towards the start of the same buffer: bytes
   * from..end move down to `to`.  Every byte is read before the loop can
   * overwrite it, because the write cursor never passes the read cursor.
   */
  method MoveDown(buf: seq<byte>, to: nat, from: nat, end: nat) returns (r: seq<byte>)
    requires to <= from <= end <= |buf|
    ensures r == Write(buf, to, buf[from..end])
  {
    r := buf;
    var i := 0;
    while i < end - from
      invariant 0 <= i <= end - from && |r| == |buf|
      invariant forall k :: to <= k < to + i ==> r[k] == buf[from + k - to]
      invariant forall k :: 0 <= k < |r| && !(to <= k < to + i) ==> r[k] == buf[k]
    {
      r := r[to + i := r[from + i]];
      i := i + 1;
    }
    assert r == Write(buf, to, buf[from..end]);
  }

  /** The fill loop of linsert: `count` copies of `unit` written one after another from `at`. */
  method Fill(dst: seq<byte>, at: nat, unit: seq<byte>, count: nat) returns (r: seq<byte>)
    requires at + count * |unit| <= |dst|
    ensures r == Write(dst, at, Repeat(unit, count))
  {
    r := dst;
    var i, o := 0, at;
    while i < count
      invariant 0 <= i <= count && o == at + |Repeat(unit, i)| && |r| == |dst|
      invariant o + |Repeat(unit, count - i)| <= |dst|
      invariant r == Write(dst, at, Repeat(unit, i))
    {
      assert |Repeat(unit, count - i)| == |unit| + |Repeat(unit, count - i - 1)|;
      WriteAdjacent(dst, at, Repeat(unit, i), unit);
      RepeatSnoc(unit, i);
      r := Write(r, o, unit);
      i, o := i + 1, o + |unit|;
    }
  }

  /** Two writes side by side are one write of both. */
  lemma WriteAdjacent(dst: seq<byte>, at: nat, a: seq<byte>, b: seq<byte>)
    requires at + |a| + |b| <= |dst|
    ensures Write(Write(dst, at, a), at + |a|, b) == Write(dst, at, a + b)
  {
  }

  /** One more copy on the right is one more copy. */
  lemma {:induction false} RepeatSnoc(unit: seq<byte>, n: nat)
    ensures Repeat(unit, n) + unit == Repeat(unit, n + 1)
  {
    if n > 0 {
      RepeatSnoc(unit, n - 1);
    }
  }

  // ---- The lines each edit primitive leaves behind

  /** lnewline's new first half: the first k bytes of l in a fresh line. */
  function Head(l: Line, k: nat): (r: Line)
    requires k <= l.used
    ensures Text(r) == Text(l)[..k] && Size(r) == LineCapacity(k)
  {
    LineData(Write(Fresh(k).buf, 0, Text(l)[..k]), k)
  }

  /** lnewline's second half: the bytes from k on, moved down to the start of the same line. */
  function Tail(l: Line, k: nat): (r: Line)
    requires k <= l.used
    ensures Text(r) == Text(l)[k..] && Size(r) == Size(l)
    ensures r.buf[r.used..] == l.buf[r.used..]
  {
    LineData(Write(l.buf, 0, l.buf[k..l.used]), l.used - k)
  }

  /** ldelete's scrunch: `chunk` bytes at `at` squeezed out of the line in place. */
  function Cut(l: Line, at: nat, chunk: nat): (r: Line)
    requires at + chunk <= l.used
    ensures Text(r) == Text(l)[..at] + Text(l)[at + chunk..] && Size(r) == Size(l)
  {
    LineData(Write(l.buf, at, l.buf[at + chunk..l.used]), l.used - chunk)
  }

  /** ldelnewline's easy case: the text of l2 copied into the spare room of l1. */
  function Absorb(l1: Line, l2: Line): (r: Line)
    requires l2.used <= Room(l1)
    ensures Text(r) == Text(l1) + Text(l2) && Size(r) == Size(l1)
  {
    LineData(Write(l1.buf, l1.used, Text(l2)), l1.used + l2.used)
  }

  /** ldelnewline's hard case: both texts copied into a fresh line. */
  function Joined(l1: Line, l2: Line): (r: Line)
    ensures Text(r) == Text(l1) + Text(l2) && Size(r) == LineCapacity(l1.used + l2.used)
  {
    var u := l1.used + l2.used;
    LineData(Write(Write(Fresh(u).buf, 0, Text(l1)), l1.used, Text(l2)), u)
  }

  /** linsert's easy case: the tail moved up by |ins| bytes in place and `ins` written into the gap. */
  function Opened(l: Line, at: nat, ins: seq<byte>): (r: Line)
    requires at <= l.used && l.used + |ins| <= Size(l)
    ensures Text(r) == Text(l)[..at] + ins + Text(l)[at..] && Size(r) == Size(l)
  {
    var moved := Write(l.buf, at + |ins|, l.buf[at..l.used]);
    OpenedText(l, at, ins, moved);
    LineData(Write(moved, at, ins), l.used + |ins|)
  }

  /** The text Opened leaves, byte by byte. */
  lemma OpenedText(l: Line, at: nat, ins: seq<byte>, moved: seq<byte>)
    requires at <= l.used && l.used + |ins| <= Size(l)
    requires moved == Write(l.buf, at + |ins|, l.buf[at..l.used])
    ensures Write(moved, at, ins)[..l.used + |ins|] == Text(l)[..at] + ins + Text(l)[at..]
  {
    var x, y := Write(moved, at, ins)[..l.used + |ins|], Text(l)[..at] + ins + Text(l)[at..];
    forall i | 0 <= i < |y|
      ensures x[i] == y[i]
    {
      WriteAt(moved, at, ins, i);
      WriteAt(l.buf, at + |ins|, l.buf[at..l.used], i);
    }
  }

  /** linsert's hard case: head and tail copied into a fresh, larger line and `ins` written between them. */
  function Regrown(l: Line, at: nat, ins: seq<byte>): (r: Line)
    requires at <= l.used
    ensures Text(r) == Text(l)[..at] + ins + Text(l)[at..]
    ensures Size(r) == LineCapacity(l.used + |ins|)
  {
    var u := l.used + |ins|;
    var copied := Write(Write(Fresh(u).buf, 0, l.buf[..at]), at + |ins|, l.buf[at..l.used]);
    RegrownText(l, at, ins, copied);
    LineData(Write(copied, at, ins), u)
  }

  /** The text Regrown leaves, byte by byte. */
  lemma RegrownText(l: Line, at: nat, ins: seq<byte>, copied: seq<byte>)
    requires at <= l.used
    requires var u := l.used + |ins|;
             copied == Write(Write(Fresh(u).buf, 0, l.buf[..at]), at + |ins|, l.buf[at..l.used])
    ensures |copied| == LineCapacity(l.used + |ins|)
    ensures Write(copied, at, ins)[..l.used + |ins|] == Text(l)[..at] + ins + Text(l)[at..]
  {
    var blank := Fresh(l.used + |ins|).buf;
    var first := Write(blank, 0, l.buf[..at]);
    var x, y := Write(copied, at, ins)[..l.used + |ins|], Text(l)[..at] + ins + Text(l)[at..];
    forall i | 0 <= i < |y|
      ensures x[i] == y[i]
    {
      WriteAt(copied, at, ins, i);
      WriteAt(first, at + |ins|, l.buf[at..l.used], i);
      WriteAt(blank, 0, l.buf[..at], i);
    }
  }

  /** linsert at the end of the buffer: a fresh line holding just `ins`. */
  function Filled(ins: seq<byte>): (r: Line)
    ensures Text(r) == ins && Size(r) == LineCapacity(|ins|)
  {
    LineData(Write(Fresh(|ins|).buf, 0, ins), |ins|)
  }
}
