/*
 * Windows, buffers and the positions they hold, and the rule each edit
 * primitive of line.c applies to every position when it frees, splits,
 * shrinks, merges or replaces a line.
 */
module Positions {
  import opened Utf8
  import opened Lines

  /** A position: a line and an offset in it (POS, and the w_dotp/w_doto pairs). */
  datatype Pos = Pos(p: Handle, o: int)

  /** Redraw flag bits of a window (WF*). */
  datatype WinFlag = Force | Move | Edit | Hard | Mode

  /**
   * A window as far as line.c touches it: the buffer it shows, its top line
   * (w_linep), dot, saved line (w_savep), its position ring w_ring of which
   * the first `count` entries are in use, and its flags.  The mark is the
   * first ring entry.
   */
  datatype Window = Window(bufp: nat, linep: Handle, dot: Pos, savep: Handle,
                           ring: seq<Pos>, count: nat, flag: set<WinFlag>)

  /**
   * A buffer as far as line.c touches it: how many windows show it, whether
   * it has changed (BFCHG), and the dot and mark it keeps while no window
   * shows it (the mark is the first entry of its own ring, which nothing
   * here touches otherwise).
   */
  datatype Buffer = Buffer(nwnd: nat, changed: bool, dot: Pos, mark: Pos)

  function Mark(w: Window): Pos
    requires |w.ring| > 0
  {
    w.ring[0]
  }

  /** The ring with its first entry, the mark, passed through f. */
  function MapMark(ring: seq<Pos>, f: Pos -> Pos): (r: seq<Pos>)
    ensures |r| == |ring|
    ensures |ring| > 0 ==> r[0] == f(ring[0]) && r[1..] == ring[1..]
  {
    if ring == [] then ring else ring[0 := f(ring[0])]
  }

  /** A line reference retargeted from `from` to `to`. */
  function Retarget(h: Handle, from: Handle, to: Handle): Handle
  {
    if h == from then to else h
  }

  /** Every entry of a list passed through f. */
  function MapSeq<T>(xs: seq<T>, f: T -> T): (r: seq<T>)
    ensures |r| == |xs|
    ensures forall j :: 0 <= j < |xs| ==> r[j] == f(xs[j])
  {
    seq(|xs|, j requires 0 <= j < |xs| => f(xs[j]))
  }

  /** A walk along the window (or buffer) list applying one fixup to every entry, as the `wp = wp->w_wndp` loops do. */
  method Walk<T>(xs: seq<T>, f: T -> T) returns (r: seq<T>)
    ensures r == MapSeq(xs, f)
  {
    r := xs;
    var i := 0;
    while i < |xs|
      invariant 0 <= i <= |xs| && |r| == |xs|
      invariant forall j :: 0 <= j < i ==> r[j] == f(xs[j])
      invariant forall j :: i <= j < |xs| ==> r[j] == xs[j]
    {
      r := r[i := f(r[i])];
      i := i + 1;
    }
    assert r == MapSeq(xs, f);
  }

  // ---- lfree: references to the freed line go to offset 0 of its successor

  function FreedPos(q: Pos, lp: Handle, next: Handle): Pos
  {
    if q.p == lp then Pos(next, 0) else q
  }

  function FreeFix(w: Window, lp: Handle, next: Handle): Window
  {
    w.(linep := Retarget(w.linep, lp, next),
       dot := FreedPos(w.dot, lp, next),
       ring := MapMark(w.ring, q => FreedPos(q, lp, next)))
  }

  function FreeFn(lp: Handle, next: Handle): Window -> Window
  {
    w => FreeFix(w, lp, next)
  }

  function FreeAll(ws: seq<Window>, lp: Handle, next: Handle): seq<Window>
  {
    MapSeq(ws, FreeFn(lp, next))
  }

  /** Only a buffer no window shows keeps a dot and mark of its own. */
  function FreeFixBuffer(b: Buffer, lp: Handle, next: Handle): Buffer
  {
    if b.nwnd == 0 then b.(dot := FreedPos(b.dot, lp, next), mark := FreedPos(b.mark, lp, next)) else b
  }

  function FreeBufferFn(lp: Handle, next: Handle): Buffer -> Buffer
  {
    b => FreeFixBuffer(b, lp, next)
  }

  function FreeAllBuffers(bs: seq<Buffer>, lp: Handle, next: Handle): seq<Buffer>
  {
    MapSeq(bs, FreeBufferFn(lp, next))
  }

  // ---- lchange

  /**
   * The flag lchange ORs into the windows of the current buffer: the
   * requested one, replaced by WFHARD when the buffer is not in exactly one
   * window, with WFMODE added on the buffer's first change.
   */
  function ChangeFlags(flag: set<WinFlag>, nwnd: nat, changed: bool): (f: set<WinFlag>)
    ensures nwnd != 1 ==> f == (if changed then {Hard} else {Hard, Mode})
    ensures nwnd == 1 ==> f == (if changed then flag else flag + {Mode})
  {
    var f := if nwnd != 1 then {Hard} else flag;
    if !changed then f + {Mode} else f
  }

  function Flagged(w: Window, bufp: nat, f: set<WinFlag>): Window
  {
    if w.bufp == bufp then w.(flag := w.flag + f) else w
  }

  function FlagFn(bufp: nat, f: set<WinFlag>): Window -> Window
  {
    w => Flagged(w, bufp, f)
  }

  function FlagAll(ws: seq<Window>, bufp: nat, f: set<WinFlag>): seq<Window>
  {
    MapSeq(ws, FlagFn(bufp, f))
  }

  // ---- lnewline: the first doto bytes of lp1 move to a new line lp2 before it

  function SplitPos(q: Pos, lp1: Handle, lp2: Handle, doto: int): Pos
  {
    if q.p != lp1 then q
    else if q.o < doto then Pos(lp2, q.o)
    else Pos(lp1, q.o - doto)
  }

  function SplitFix(w: Window, lp1: Handle, lp2: Handle, doto: int): Window
  {
    w.(linep := Retarget(w.linep, lp1, lp2),
       dot := SplitPos(w.dot, lp1, lp2, doto),
       ring := MapMark(w.ring, q => SplitPos(q, lp1, lp2, doto)))
  }

  function SplitFn(lp1: Handle, lp2: Handle, doto: int): Window -> Window
  {
    w => SplitFix(w, lp1, lp2, doto)
  }

  function SplitAll(ws: seq<Window>, lp1: Handle, lp2: Handle, doto: int): seq<Window>
  {
    MapSeq(ws, SplitFn(lp1, lp2, doto))
  }

  // ---- ldelete: chunk bytes at doto leave line dotp

  function ChunkPos(q: Pos, dotp: Handle, doto: int, chunk: int): Pos
  {
    if q.p == dotp && q.o >= doto then
      Pos(dotp, if q.o - chunk < doto then doto else q.o - chunk)
    else q
  }

  function ChunkFix(w: Window, dotp: Handle, doto: int, chunk: int): Window
  {
    w.(dot := ChunkPos(w.dot, dotp, doto, chunk),
       ring := MapMark(w.ring, q => ChunkPos(q, dotp, doto, chunk)))
  }

  function ChunkFn(dotp: Handle, doto: int, chunk: int): Window -> Window
  {
    w => ChunkFix(w, dotp, doto, chunk)
  }

  function ChunkAll(ws: seq<Window>, dotp: Handle, doto: int, chunk: int): seq<Window>
  {
    MapSeq(ws, ChunkFn(dotp, doto, chunk))
  }

  // ---- ldelnewline: lp1 and its successor lp2 become one line `into` (lp1 itself, or a new line)

  function MergePos(q: Pos, lp1: Handle, lp2: Handle, into: Handle, len1: int): Pos
  {
    if q.p == lp1 then Pos(into, q.o)
    else if q.p == lp2 then Pos(into, q.o + len1)
    else q
  }

  function MergeFix(w: Window, lp1: Handle, lp2: Handle, into: Handle, len1: int): Window
  {
    w.(linep := Retarget(Retarget(w.linep, lp1, into), lp2, into),
       dot := MergePos(w.dot, lp1, lp2, into, len1),
       ring := MapMark(w.ring, q => MergePos(q, lp1, lp2, into, len1)))
  }

  function MergeFn(lp1: Handle, lp2: Handle, into: Handle, len1: int): Window -> Window
  {
    w => MergeFix(w, lp1, lp2, into, len1)
  }

  function MergeAll(ws: seq<Window>, lp1: Handle, lp2: Handle, into: Handle, len1: int): seq<Window>
  {
    MapSeq(ws, MergeFn(lp1, lp2, into, len1))
  }

  // ---- linsert: chars characters inserted at oldpos, whose line became newlp

  /** adjustforinsert's rule for one ring entry; also the rule for a dot outside the current window. */
  function AdjustPos(q: Pos, oldpos: Pos, newlp: Handle, nchars: int): Pos
  {
    if q.p == oldpos.p then Pos(newlp, if q.o > oldpos.o then q.o + nchars else q.o) else q
  }

  /** The window ring after adjustforinsert: entries in use are adjusted, the rest untouched. */
  function AdjustRing(ring: seq<Pos>, count: nat, oldpos: Pos, newlp: Handle, nchars: int): (r: seq<Pos>)
    ensures |r| == |ring|
  {
    seq(|ring|, i requires 0 <= i < |ring| =>
      if i < count then AdjustPos(ring[i], oldpos, newlp, nchars) else ring[i])
  }

  /** adjustforinsert */
  method AdjustForInsert(ring: seq<Pos>, count: nat, oldpos: Pos, newlp: Handle, nchars: int)
    returns (r: seq<Pos>)
    requires count <= |ring|
    ensures |r| == |ring|
    ensures forall i :: 0 <= i < count ==> r[i] == AdjustPos(ring[i], oldpos, newlp, nchars)
    ensures r[count..] == ring[count..]
    ensures r == AdjustRing(ring, count, oldpos, newlp, nchars)
  {
    r := ring;
    var i := 0;
    while i < count
      invariant 0 <= i <= count && |r| == |ring|
      invariant forall j :: 0 <= j < i ==> r[j] == AdjustPos(ring[j], oldpos, newlp, nchars)
      invariant r[i..] == ring[i..]
    {
      var pos := r[i];
      assert pos == ring[i];
      if pos.p == oldpos.p {
        pos := pos.(p := newlp);
        if pos.o > oldpos.o {
          pos := pos.(o := pos.o + nchars);
        }
      }
      r := r[i := pos];
      i := i + 1;
    }
  }

  /** The current window's dot always moves past the insertion; any other position only when strictly after it. */
  function InsertDot(q: Pos, isCur: bool, oldpos: Pos, newlp: Handle, nchars: int): Pos
  {
    if isCur && q.p == oldpos.p then Pos(newlp, q.o + nchars) else AdjustPos(q, oldpos, newlp, nchars)
  }

  function InsertFix(w: Window, isCur: bool, oldpos: Pos, newlp: Handle, nchars: int): Window
  {
    w.(linep := Retarget(w.linep, oldpos.p, newlp),
       savep := Retarget(w.savep, oldpos.p, newlp),
       dot := InsertDot(w.dot, isCur, oldpos, newlp, nchars),
       ring := AdjustRing(w.ring, w.count, oldpos, newlp, nchars))
  }

  /** The window list after linsert: window `cur` is the current one. */
  function InsertAll(ws: seq<Window>, cur: nat, oldpos: Pos, newlp: Handle, nchars: int): (r: seq<Window>)
    ensures |r| == |ws|
  {
    seq(|ws|, j requires 0 <= j < |ws| => InsertFix(ws[j], j == cur, oldpos, newlp, nchars))
  }
}
