/*
 * The editing state line.c works on and its edit primitives: the line ring
 * of the current buffer, the window list, the buffer list, and lalloc,
 * lfree, lchange, lnewline, ldelete, ldelnewline, linsert and insertwithnl.
 */
module Editor {
  import opened Utf8
  import opened Lines
  import opened Memory
  import opened KillBuf
  import opened Positions
  import opened Ring
  import opened Document

  /** Kinds of undo information. */
  datatype UKind = UUnused | UMove | UInsert | UDelete

  /** One saveundo call: kind, repeat count, characters and bytes per repeat, and the bytes. */
  datatype UndoRecord = UndoRecord(kind: UKind, count: int, chars: int, bytes: int, data: seq<byte>)

  /** A window on the current buffer: everything line.c keeps up to date points into its ring. */
  predicate Live(w: Window, hs: seq<Handle>)
  {
    1 <= w.count <= |w.ring| && w.linep in hs && w.dot.p in hs && w.ring[0].p in hs
  }

  /** The line ring is well formed: header first and empty, no line twice, every line allocated. */
  ghost predicate RingOk(lines: map<Handle, Line>, ring: seq<Handle>, nextHandle: Handle)
  {
    && 1 <= |ring| && Distinct(ring)
    && Stored(lines, ring)
    && (forall h :: h in lines ==> h < nextHandle)
    && lines[ring[0]].used == 0
  }

  /** Every window's ring count is in range and every window on buffer `bufp` is live in ring `hs`. */
  ghost predicate WindowsOk(ws: seq<Window>, bufp: nat, hs: seq<Handle>)
  {
    && (forall i :: 0 <= i < |ws| ==> ws[i].count <= |ws[i].ring|)
    && (forall i :: 0 <= i < |ws| && ws[i].bufp == bufp ==> Live(ws[i], hs))
  }

  lemma FlagAllOk(ws: seq<Window>, bufp: nat, hs: seq<Handle>, b: nat, f: set<WinFlag>)
    requires WindowsOk(ws, bufp, hs)
    ensures WindowsOk(FlagAll(ws, b, f), bufp, hs)
    ensures forall i :: 0 <= i < |ws| ==> FlagAll(ws, b, f)[i].bufp == ws[i].bufp && FlagAll(ws, b, f)[i].dot == ws[i].dot
  {
    var r := FlagAll(ws, b, f);
    forall i | 0 <= i < |ws|
      ensures r[i].count <= |r[i].ring| && (r[i].bufp == bufp ==> Live(r[i], hs))
    {
      assert r[i] == Flagged(ws[i], b, f);
    }
  }

  lemma FreeAllOk(ws: seq<Window>, bufp: nat, hs: seq<Handle>, k: nat)
    requires WindowsOk(ws, bufp, hs) && Distinct(hs) && 1 <= k < |hs|
    ensures WindowsOk(FreeAll(ws, hs[k], Next(hs, k)), bufp, Unlink(hs, k))
    ensures forall i :: 0 <= i < |ws| ==> FreeAll(ws, hs[k], Next(hs, k))[i].bufp == ws[i].bufp
  {
    var lp, next := hs[k], Next(hs, k);
    var r := FreeAll(ws, lp, next);
    assert next != lp && next in Unlink(hs, k);
    forall i | 0 <= i < |ws|
      ensures r[i].count <= |r[i].ring| && (r[i].bufp == bufp ==> Live(r[i], Unlink(hs, k)))
    {
      assert r[i] == FreeFix(ws[i], lp, next);
    }
  }

  lemma SplitAllOk(ws: seq<Window>, bufp: nat, hs: seq<Handle>, k: nat, lp2: Handle, doto: int)
    requires WindowsOk(ws, bufp, hs) && k < |hs|
    ensures WindowsOk(SplitAll(ws, hs[k], lp2, doto), bufp, LinkBefore(hs, k, lp2))
    ensures forall i :: 0 <= i < |ws| ==> SplitAll(ws, hs[k], lp2, doto)[i].bufp == ws[i].bufp
  {
    var r := SplitAll(ws, hs[k], lp2, doto);
    forall i | 0 <= i < |ws|
      ensures r[i].count <= |r[i].ring| && (r[i].bufp == bufp ==> Live(r[i], LinkBefore(hs, k, lp2)))
    {
      assert r[i] == SplitFix(ws[i], hs[k], lp2, doto);
    }
  }

  lemma UnlinkOk(lines: map<Handle, Line>, ring: seq<Handle>, nextHandle: Handle, k: nat)
    requires RingOk(lines, ring, nextHandle) && 1 <= k < |ring|
    ensures RingOk(lines - {ring[k]}, Unlink(ring, k), nextHandle)
  {
    var r := Unlink(ring, k);
    forall i, j | 0 <= i < j < |r|
      ensures r[i] != r[j]
    {
      var i', j' := if i < k then i else i + 1, if j < k then j else j + 1;
      assert r[i] == ring[i'] && r[j] == ring[j'];
    }
    forall i | 0 <= i < |r|
      ensures r[i] in lines - {ring[k]}
    {
      var i' := if i < k then i else i + 1;
      assert r[i] == ring[i'];
    }
  }

  lemma LinkBeforeOk(lines: map<Handle, Line>, ring: seq<Handle>, nextHandle: Handle, k: nat, h: Handle)
    requires RingOk(lines, ring, nextHandle) && k < |ring| && h in lines && h !in ring
    ensures RingOk(lines, LinkBefore(ring, k, h), nextHandle)
  {
    var r := LinkBefore(ring, k, h);
    forall i, j | 0 <= i < j < |r|
      ensures r[i] != r[j]
    {
      if k == 0 {
        assert r[i] == ring[i];
      } else {
        var i', j' := if i < k then i else i - 1, if j < k then j else j - 1;
        assert i != k ==> r[i] == ring[i'];
        assert j != k ==> r[j] == ring[j'];
      }
    }
    forall i | 0 <= i < |r|
      ensures r[i] in lines
    {
      assert r[i] in r;
    }
  }

  /** Replacing the record of an allocated line keeps the ring well formed, so long as the header stays empty. */
  lemma UpdateOk(lines: map<Handle, Line>, ring: seq<Handle>, nextHandle: Handle, h: Handle, l: Line)
    requires RingOk(lines, ring, nextHandle) && h in lines && (h == ring[0] ==> l.used == 0)
    ensures RingOk(lines[h := l], ring, nextHandle)
  {
  }

  lemma Overwrite<K, V>(m: map<K, V>, k: K, a: V, b: V)
    ensures m[k := a][k := b] == m[k := b]
  {
  }

  /** A fresh entry k that replaces the released entry j: the first value of k is overwritten. */
  lemma Reallocated<K, V>(m: map<K, V>, k: K, a: V, j: K, b: V)
    requires k != j
    ensures (m[k := a] - {j})[k := b] == (m - {j})[k := b]
  {
  }

  /** ldelnewline's easy case keeps the ring and the windows well formed. */
  lemma AbsorbedOk(lines: map<Handle, Line>, ring: seq<Handle>, nextHandle: Handle, ws: seq<Window>, bufp: nat, cur: nat,
                   k: nat, merged: Line)
    requires RingOk(lines, ring, nextHandle) && WindowsOk(ws, bufp, ring) && cur < |ws| && ws[cur].bufp == bufp
    requires 1 <= k && k + 1 < |ring|
    ensures var lp1, lp2 := ring[k], ring[k + 1];
            var r, ws' := Unlink(ring, k + 1), MergeAll(ws, lp1, lp2, lp1, lines[lp1].used);
            && RingOk((lines - {lp2})[lp1 := merged], r, nextHandle)
            && WindowsOk(ws', bufp, r) && |ws'| == |ws| && ws'[cur].bufp == bufp
  {
    var lp1, lp2 := ring[k], ring[k + 1];
    UnlinkOk(lines, ring, nextHandle, k + 1);
    UpdateOk(lines - {lp2}, Unlink(ring, k + 1), nextHandle, lp1, merged);
    MergeAllOk(ws, bufp, ring, Unlink(ring, k + 1), lp1, lp2, lp1, lines[lp1].used);
  }

  /** ldelnewline's hard case keeps the ring and the windows well formed. */
  lemma JoinedOk(lines: map<Handle, Line>, ring: seq<Handle>, nextHandle: Handle, ws: seq<Window>, bufp: nat, cur: nat,
                 k: nat, lp3: Handle, merged: Line)
    requires RingOk(lines, ring, nextHandle) && WindowsOk(ws, bufp, ring) && cur < |ws| && ws[cur].bufp == bufp
    requires 1 <= k && k + 1 < |ring| && lp3 in lines && lp3 !in ring
    ensures var lp1, lp2 := ring[k], ring[k + 1];
            var r, ws' := Unlink(ring, k + 1)[k := lp3], MergeAll(ws, lp1, lp2, lp3, lines[lp1].used);
            && RingOk((lines - {lp1, lp2})[lp3 := merged], r, nextHandle)
            && WindowsOk(ws', bufp, r) && |ws'| == |ws| && ws'[cur].bufp == bufp
  {
    var lp1, lp2 := ring[k], ring[k + 1];
    var ring' := Unlink(ring, k + 1);
    UnlinkOk(lines, ring, nextHandle, k + 1);
    ReplaceOk(lines - {lp2}, ring', nextHandle, k, lp3);
    assert lines - {lp2} - {lp1} == lines - {lp1, lp2};
    UpdateOk(lines - {lp1, lp2}, ring'[k := lp3], nextHandle, lp3, merged);
    JoinKeeps(ring, k, lp3);
    MergeAllOk(ws, bufp, ring, ring'[k := lp3], lp1, lp2, lp3, lines[lp1].used);
  }

  /** The same, for a set of keys dropped. */
  lemma Reallocated2<K, V>(m: map<K, V>, k: K, a: V, js: set<K>, b: V)
    requires k !in js
    ensures (m[k := a] - js)[k := b] == (m - js)[k := b]
  {
  }

  /** lnewline keeps the ring and the windows well formed. */
  lemma NewlineOk(lines: map<Handle, Line>, ring: seq<Handle>, ws: seq<Window>, bufp: nat, nextHandle: Handle,
                  k: nat, lp2: Handle, head: Line, tail: Line, doto: int)
    requires RingOk(lines, ring, nextHandle) && WindowsOk(ws, bufp, ring)
    requires k < |ring| && lp2 in lines && lp2 !in ring && (k == 0 ==> tail.used == 0)
    ensures RingOk(lines[lp2 := head][ring[k] := tail], LinkBefore(ring, k, lp2), nextHandle)
    ensures WindowsOk(SplitAll(ws, ring[k], lp2, doto), bufp, LinkBefore(ring, k, lp2))
    ensures forall i :: 0 <= i < |ws| ==> SplitAll(ws, ring[k], lp2, doto)[i].bufp == ws[i].bufp
  {
    UpdateOk(lines, ring, nextHandle, lp2, head);
    UpdateOk(lines[lp2 := head], ring, nextHandle, ring[k], tail);
    LinkBeforeOk(lines[lp2 := head][ring[k] := tail], ring, nextHandle, k, lp2);
    SplitAllOk(ws, bufp, ring, k, lp2, doto);
  }

  /** A line that takes the place of entry k, which is released. */
  lemma ReplaceOk(lines: map<Handle, Line>, ring: seq<Handle>, nextHandle: Handle, k: nat, h: Handle)
    requires RingOk(lines, ring, nextHandle) && 1 <= k < |ring| && h in lines && h !in ring
    ensures RingOk(lines - {ring[k]}, ring[k := h], nextHandle)
  {
    var r := ring[k := h];
    forall i, j | 0 <= i < j < |r|
      ensures r[i] != r[j]
    {
      assert i != k ==> r[i] == ring[i];
      assert j != k ==> r[j] == ring[j];
    }
    forall i | 0 <= i < |r|
      ensures r[i] in lines - {ring[k]}
    {
      assert i != k ==> r[i] == ring[i];
    }
  }

  /** Entries k and k+1 replaced by h keep every other line of the ring. */
  lemma JoinKeeps(ring: seq<Handle>, k: nat, h: Handle)
    requires k + 1 < |ring|
    ensures h in Unlink(ring, k + 1)[k := h]
    ensures forall x :: x in ring && x != ring[k] && x != ring[k + 1] ==> x in Unlink(ring, k + 1)[k := h]
  {
    var r := Unlink(ring, k + 1)[k := h];
    assert r[k] == h;
    forall x | x in ring && x != ring[k] && x != ring[k + 1]
      ensures x in r
    {
      var i :| 0 <= i < |ring| && ring[i] == x;
      if i < k {
        assert r[i] == x;
      } else {
        assert r[i - 1] == x;
      }
    }
  }

  /** Retargeting references into a new ring that keeps every untouched line and holds `into`. */
  lemma MergeAllOk(ws: seq<Window>, bufp: nat, hs: seq<Handle>, hs': seq<Handle>,
                   lp1: Handle, lp2: Handle, into: Handle, len1: int)
    requires WindowsOk(ws, bufp, hs) && into in hs'
    requires forall h :: h in hs && h != lp1 && h != lp2 ==> h in hs'
    ensures WindowsOk(MergeAll(ws, lp1, lp2, into, len1), bufp, hs')
    ensures forall i :: 0 <= i < |ws| ==> MergeAll(ws, lp1, lp2, into, len1)[i].bufp == ws[i].bufp
  {
    var r := MergeAll(ws, lp1, lp2, into, len1);
    forall i | 0 <= i < |ws|
      ensures r[i].count <= |r[i].ring| && (r[i].bufp == bufp ==> Live(r[i], hs'))
    {
      assert r[i] == MergeFix(ws[i], lp1, lp2, into, len1);
    }
  }

  /** ldelete's scrunch leaves every line reference where it was. */
  lemma ChunkAllOk(ws: seq<Window>, bufp: nat, hs: seq<Handle>, dotp: Handle, doto: int, chunk: int)
    requires WindowsOk(ws, bufp, hs)
    ensures WindowsOk(ChunkAll(ws, dotp, doto, chunk), bufp, hs)
    ensures forall i :: 0 <= i < |ws| ==> ChunkAll(ws, dotp, doto, chunk)[i].bufp == ws[i].bufp
  {
    var r := ChunkAll(ws, dotp, doto, chunk);
    forall i | 0 <= i < |ws|
      ensures r[i].count <= |r[i].ring| && (r[i].bufp == bufp ==> Live(r[i], hs))
    {
      assert r[i] == ChunkFix(ws[i], dotp, doto, chunk);
    }
  }

  /** The copy loop of ldelnewline's easy case: the text of l2 into the room after l1's text. */
  method AbsorbBytes(l1: Line, l2: Line) returns (r: Line)
    requires l2.used <= Room(l1)
    ensures r == Absorb(l1, l2)
  {
    var b := CopyBytes(l1.buf, l1.used, l2.buf, 0, l2.used);
    assert l2.buf[0..l2.used] == Text(l2);
    r := LineData(b, l1.used + l2.used);
  }

  /** The two copy loops of ldelnewline's hard case: both texts into a fresh line. */
  method JoinBytes(l1: Line, l2: Line, blank: Line) returns (r: Line)
    requires blank == Fresh(l1.used + l2.used)
    ensures r == Joined(l1, l2)
  {
    var b := CopyBytes(blank.buf, 0, l1.buf, 0, l1.used);
    assert l1.buf[0..l1.used] == Text(l1);
    b := CopyBytes(b, l1.used, l2.buf, 0, l2.used);
    assert l2.buf[0..l2.used] == Text(l2);
    r := LineData(b, l1.used + l2.used);
  }

  /** The bytes linsert puts in: the first n bytes of s, or n copies of unit. */
  function Payload(n: nat, unit: seq<byte>, s: Option<seq<byte>>): (ins: seq<byte>)
    requires s.Some? ==> n <= |s.value|
    ensures s.Some? ==> |ins| == n
    ensures s.None? ==> |ins| == n * |unit| && (1 <= |unit| ==> n <= |ins|)
  {
    match s
    case Some(str) => str[..n]
    case None => if 1 <= |unit| then RepeatAtLeast(unit, n); Repeat(unit, n) else Repeat(unit, n)
  }

  /** The bytes linsert(n, c, s) puts in: the first n bytes of s, or n copies of the UTF-8 form of c. */
  function Inserted(n: nat, c: int, s: Option<seq<byte>>): (ins: seq<byte>)
    requires s.Some? ==> n <= |s.value|
    ensures |ins| == if s.Some? then n else n * |Encode(c)|
    ensures n <= |ins|
  {
    Payload(n, Encode(c), s)
  }

  /** Repeating a non-empty unit n times yields at least n bytes. */
  lemma {:induction false} RepeatAtLeast(unit: seq<byte>, n: nat)
    requires |unit| >= 1
    ensures n <= |Repeat(unit, n)|
  {
    if n > 0 {
      RepeatAtLeast(unit, n - 1);
    }
  }

  /** The number of characters linsert inserts. */
  function InsertedChars(uclen: CharLength, n: nat, s: Option<seq<byte>>): (chars: nat)
    requires s.Some? ==> n <= |s.value|
    ensures chars <= n && (s.None? ==> chars == n)
  {
    match s
    case Some(str) => UnsLen(uclen, str[..n])
    case None => n
  }

  /** The undo record linsert saves. */
  function InsertRecord(uclen: CharLength, n: nat, c: int, s: Option<seq<byte>>): UndoRecord
    requires s.Some? ==> n <= |s.value|
  {
    match s
    case Some(str) => UndoRecord(UInsert, 1, UnsLen(uclen, str[..n]), n, str[..n])
    case None => UndoRecord(UInsert, n, 1, |Encode(c)|, Encode(c))
  }

  /** The parts of the editor linsert changes: the line store, the ring, the windows and the next handle. */
  datatype Store = Store(lines: map<Handle, Line>, ring: seq<Handle>, windows: seq<Window>, nextHandle: Handle)

  /** ldelnewline at the end of the buffer frees the dot line when it is empty. */
  predicate JoinFrees(st: Store, dotp: Handle)
    requires dotp in st.ring && Stored(st.lines, st.ring)
  {
    IndexOf(st.ring, dotp) + 1 == |st.ring| && st.lines[dotp].used == 0
  }

  /** ldelnewline needs a new line when the successor's text does not fit in the dot line's spare room. */
  predicate JoinAllocates(st: Store, dotp: Handle)
    requires dotp in st.ring && Stored(st.lines, st.ring)
  {
    var k := IndexOf(st.ring, dotp);
    k + 1 < |st.ring| && st.lines[st.ring[k + 1]].used > Room(st.lines[dotp])
  }

  /**
   * What a successful ldelnewline with dot on line dotp leaves behind: at the
   * end of the buffer an empty dot line freed and anything else untouched;
   * otherwise the successor's text appended to the dot line in place, or both
   * texts in a new line that replaces the two.
   */
  function JoinResult(st: Store, dotp: Handle): Store
    requires dotp in st.ring && Stored(st.lines, st.ring) && dotp != st.ring[0]
  {
    var k := IndexOf(st.ring, dotp);
    var l1 := st.lines[dotp];
    if k + 1 == |st.ring| then
      if l1.used == 0 then Store(st.lines - {dotp}, Unlink(st.ring, k), FreeAll(st.windows, dotp, st.ring[0]), st.nextHandle)
      else st
    else
      var lp2 := st.ring[k + 1];
      var l2 := st.lines[lp2];
      if l2.used <= Room(l1) then
        Store((st.lines - {lp2})[dotp := Absorb(l1, l2)], Unlink(st.ring, k + 1),
              MergeAll(st.windows, dotp, lp2, dotp, l1.used), st.nextHandle)
      else
        var lp3 := st.nextHandle;
        Store((st.lines - {dotp, lp2})[lp3 := Joined(l1, l2)], Unlink(st.ring, k + 1)[k := lp3],
              MergeAll(st.windows, dotp, lp2, lp3, l1.used), lp3 + 1)
  }

  /** ldelnewline when the joined text fits the dot line: the successor's text moves into it. */
  lemma JoinAbsorbed(st: Store, dotp: Handle)
    requires dotp in st.ring && Stored(st.lines, st.ring) && dotp != st.ring[0]
    requires var k := IndexOf(st.ring, dotp);
             k + 1 < |st.ring| && st.lines[st.ring[k + 1]].used <= Room(st.lines[dotp])
    ensures var k := IndexOf(st.ring, dotp);
            var l1, lp2 := st.lines[dotp], st.ring[k + 1];
            JoinResult(st, dotp)
              == Store((st.lines - {lp2})[dotp := Absorb(l1, st.lines[lp2])], Unlink(st.ring, k + 1),
                       MergeAll(st.windows, dotp, lp2, dotp, l1.used), st.nextHandle)
  {
  }

  /** ldelnewline when the joined text does not fit the dot line: both lines replaced by a new one. */
  lemma JoinAllocated(st: Store, dotp: Handle)
    requires dotp in st.ring && Stored(st.lines, st.ring) && dotp != st.ring[0]
    requires var k := IndexOf(st.ring, dotp);
             k + 1 < |st.ring| && st.lines[st.ring[k + 1]].used > Room(st.lines[dotp])
    ensures var k := IndexOf(st.ring, dotp);
            var lp2, lp3 := st.ring[k + 1], st.nextHandle;
            JoinResult(st, dotp)
              == Store((st.lines - {dotp, lp2})[lp3 := Joined(st.lines[dotp], st.lines[lp2])], Unlink(st.ring, k + 1)[k := lp3],
                       MergeAll(st.windows, dotp, lp2, lp3, st.lines[dotp].used), lp3 + 1)
  {
  }

  /** ldelnewline on a non-empty last line does nothing. */
  predicate JoinStays(st: Store, dotp: Handle)
    requires dotp in st.ring && Stored(st.lines, st.ring)
  {
    IndexOf(st.ring, dotp) + 1 == |st.ring| && st.lines[dotp].used != 0
  }

  /** Replacing entries k and k+1 by one line h keeps every other line and its text. */
  lemma JoinFrame(lines: map<Handle, Line>, ring: seq<Handle>, k: nat, lines': map<Handle, Line>, h: Handle)
    requires Stored(lines, ring) && Distinct(ring) && 1 <= k && k + 1 < |ring|
    requires h in lines' && (h == ring[k] || h !in ring)
    requires forall x :: x in lines && x != ring[k] && x != ring[k + 1] ==> x in lines' && lines'[x] == lines[x]
    ensures var ring' := ring[..k] + [h] + ring[k + 2..];
            Stored(lines', ring') && h !in ring[..k] && Kept(lines, lines', ring, 1, k) && Kept(lines, lines', ring, k + 2, |ring|)
  {
    assert forall i :: 0 <= i < |ring| && i != k && i != k + 1 ==> ring[i] != ring[k] && ring[i] != ring[k + 1];
  }

  /** ldelnewline's easy case as an edit of the text. */
  lemma JoinInPlaceDoc(lines: map<Handle, Line>, ring: seq<Handle>, k: nat, o: int)
    requires Stored(lines, ring) && Distinct(ring) && 1 <= k && k + 1 < |ring|
    requires lines[ring[k + 1]].used <= Room(lines[ring[k]])
    ensures var lp1, lp2 := ring[k], ring[k + 1];
            var lines', ring' := (lines - {lp2})[lp1 := Absorb(lines[lp1], lines[lp2])], Unlink(ring, k + 1);
            var d, q := Doc(lines, ring), DocPos(lines, ring, Pos(lp1, lines[lp1].used));
            && Stored(lines', ring') && lp1 in ring'
            && 0 <= q < |d| && Doc(lines', ring') == d[..q] + d[q + 1..]
            && DocPos(lines', ring', Pos(lp1, o)) == DocPos(lines, ring, Pos(lp1, o))
  {
    var lp1, lp2 := ring[k], ring[k + 1];
    var lines' := (lines - {lp2})[lp1 := Absorb(lines[lp1], lines[lp2])];
    assert Unlink(ring, k + 1) == ring[..k] + [lp1] + ring[k + 2..];
    JoinFrame(lines, ring, k, lines', lp1);
    JoinDoc(lines, ring, lines', Unlink(ring, k + 1), k, lp1, o);
  }

  /** ldelnewline's hard case as an edit of the text. */
  lemma JoinNewDoc(lines: map<Handle, Line>, ring: seq<Handle>, k: nat, lp3: Handle, o: int)
    requires Stored(lines, ring) && Distinct(ring) && 1 <= k && k + 1 < |ring| && lp3 !in lines
    ensures var lp1, lp2 := ring[k], ring[k + 1];
            var lines', ring' := (lines - {lp1, lp2})[lp3 := Joined(lines[lp1], lines[lp2])], Unlink(ring, k + 1)[k := lp3];
            var d, q := Doc(lines, ring), DocPos(lines, ring, Pos(lp1, lines[lp1].used));
            && Stored(lines', ring') && lp3 in ring'
            && 0 <= q < |d| && Doc(lines', ring') == d[..q] + d[q + 1..]
            && DocPos(lines', ring', Pos(lp3, o)) == DocPos(lines, ring, Pos(lp1, o))
  {
    var lp1, lp2 := ring[k], ring[k + 1];
    var lines' := (lines - {lp1, lp2})[lp3 := Joined(lines[lp1], lines[lp2])];
    assert Unlink(ring, k + 1)[k := lp3] == ring[..k] + [lp3] + ring[k + 2..];
    assert lp3 !in ring;
    JoinFrame(lines, ring, k, lines', lp3);
    JoinDoc(lines, ring, lines', Unlink(ring, k + 1)[k := lp3], k, lp3, o);
  }

  lemma JoinFreeDoc(st: Store, dot: Pos)
    requires RingOk(st.lines, st.ring, st.nextHandle) && dot.p in st.ring && dot.p != st.ring[0]
    requires IndexOf(st.ring, dot.p) + 1 == |st.ring| && st.lines[dot.p].used == 0 && 0 <= dot.o <= 0
    ensures var r := JoinResult(st, dot.p);
            var d, q := Doc(st.lines, st.ring), DocPos(st.lines, st.ring, Pos(dot.p, st.lines[dot.p].used));
            && 1 <= |r.ring| && Stored(r.lines, r.ring)
            && 0 <= q < |d| && Doc(r.lines, r.ring) == d[..q] + d[q + 1..]
            && DocPos(r.lines, r.ring, Pos(st.ring[0], 0)) == DocPos(st.lines, st.ring, dot)
  {
    var k := |st.ring| - 1;
    assert Unlink(st.ring, k) == st.ring[..k];
    FreeLastDoc(st.lines, st.ring);
  }

  /** What JoinResultDoc promises, for the window `cur` of st. */
  ghost predicate JoinDocOk(st: Store, cur: nat)
    requires RingOk(st.lines, st.ring, st.nextHandle) && cur < |st.windows|
    requires var dot := st.windows[cur].dot;
             dot.p in st.ring && dot.p != st.ring[0] && 0 <= dot.o <= st.lines[dot.p].used
  {
    var dot, r := st.windows[cur].dot, JoinResult(st, st.windows[cur].dot.p);
    var d, q := Doc(st.lines, st.ring), DocPos(st.lines, st.ring, Pos(dot.p, st.lines[dot.p].used));
    && 1 <= |r.ring| && Stored(r.lines, r.ring) && cur < |r.windows| && r.windows[cur].dot.p in r.ring
    && 0 <= q < |d| && d[q] == NL && (JoinStays(st, dot.p) ==> q + 1 == |d|)
    && Doc(r.lines, r.ring) == (if JoinStays(st, dot.p) then d else d[..q] + d[q + 1..])
    && DocPos(r.lines, r.ring, r.windows[cur].dot) == DocPos(st.lines, st.ring, dot)
  }

  /**
   * ldelnewline as an edit of the text: unless dot is on a non-empty last line
   * (where nothing happens), the line end after the dot line leaves the text,
   * and dot keeps its place in the text.
   */
  lemma JoinResultDoc(st: Store, cur: nat)
    requires RingOk(st.lines, st.ring, st.nextHandle) && cur < |st.windows|
    requires var dot := st.windows[cur].dot;
             dot.p in st.ring && dot.p != st.ring[0] && 0 <= dot.o <= st.lines[dot.p].used
    ensures JoinDocOk(st, cur)
  {
    var dot := st.windows[cur].dot;
    var k := IndexOf(st.ring, dot.p);
    LineEnd(st.lines, st.ring, k);
    if k + 1 == |st.ring| {
      JoinAtEndResult(st, cur);
    } else if st.lines[st.ring[k + 1]].used <= Room(st.lines[dot.p]) {
      JoinInPlaceResult(st, cur);
    } else {
      JoinNewResult(st, cur);
    }
  }

  lemma JoinAtEndResult(st: Store, cur: nat)
    requires RingOk(st.lines, st.ring, st.nextHandle) && cur < |st.windows|
    requires var dot := st.windows[cur].dot;
             dot.p in st.ring && dot.p != st.ring[0] && 0 <= dot.o <= st.lines[dot.p].used
    requires IndexOf(st.ring, st.windows[cur].dot.p) + 1 == |st.ring|
    ensures JoinDocOk(st, cur)
  {
    var dot := st.windows[cur].dot;
    LineEnd(st.lines, st.ring, IndexOf(st.ring, dot.p));
    if st.lines[dot.p].used == 0 {
      JoinFreeDoc(st, dot);
      assert JoinResult(st, dot.p).windows[cur].dot == FreedPos(dot, dot.p, st.ring[0]);
    }
  }

  lemma JoinInPlaceResult(st: Store, cur: nat)
    requires RingOk(st.lines, st.ring, st.nextHandle) && cur < |st.windows|
    requires var dot := st.windows[cur].dot;
             dot.p in st.ring && dot.p != st.ring[0] && 0 <= dot.o <= st.lines[dot.p].used
    requires var k := IndexOf(st.ring, st.windows[cur].dot.p);
             k + 1 < |st.ring| && st.lines[st.ring[k + 1]].used <= Room(st.lines[st.ring[k]])
    ensures JoinDocOk(st, cur)
  {
    var dot := st.windows[cur].dot;
    var k := IndexOf(st.ring, dot.p);
    LineEnd(st.lines, st.ring, k);
    JoinInPlaceDoc(st.lines, st.ring, k, dot.o);
    assert JoinResult(st, dot.p).windows[cur].dot == MergePos(dot, dot.p, st.ring[k + 1], dot.p, st.lines[dot.p].used);
  }

  lemma JoinNewResult(st: Store, cur: nat)
    requires RingOk(st.lines, st.ring, st.nextHandle) && cur < |st.windows|
    requires var dot := st.windows[cur].dot;
             dot.p in st.ring && dot.p != st.ring[0] && 0 <= dot.o <= st.lines[dot.p].used
    requires var k := IndexOf(st.ring, st.windows[cur].dot.p);
             k + 1 < |st.ring| && st.lines[st.ring[k + 1]].used > Room(st.lines[st.ring[k]])
    ensures JoinDocOk(st, cur)
  {
    var dot := st.windows[cur].dot;
    var k := IndexOf(st.ring, dot.p);
    LineEnd(st.lines, st.ring, k);
    JoinNewDoc(st.lines, st.ring, k, st.nextHandle, dot.o);
    assert JoinResult(st, dot.p).windows[cur].dot == MergePos(dot, dot.p, st.ring[k + 1], st.nextHandle, st.lines[dot.p].used);
  }

  /** ldelete's scrunch as an edit of the text: chunk bytes at the dot leave the text, and dot keeps its place. */
  lemma CutDoc(lines: map<Handle, Line>, ring: seq<Handle>, k: nat, doto: nat, chunk: nat)
    requires Stored(lines, ring) && Distinct(ring) && 1 <= k < |ring| && doto + chunk <= lines[ring[k]].used
    ensures var lines' := lines[ring[k] := Cut(lines[ring[k]], doto, chunk)];
            var d, p := Doc(lines, ring), DocPos(lines, ring, Pos(ring[k], doto));
            && Stored(lines', ring) && 0 <= p && p + chunk <= |d|
            && d[p..p + chunk] == Text(lines[ring[k]])[doto..doto + chunk]
            && Doc(lines', ring) == d[..p] + d[p + chunk..]
            && DocPos(lines', ring, Pos(ring[k], doto)) == p
  {
    var lines' := lines[ring[k] := Cut(lines[ring[k]], doto, chunk)];
    assert ring == ring[..k] + [ring[k]] + ring[k + 1..];
    assert forall i :: 0 <= i < |ring| && i != k ==> ring[i] != ring[k];
    assert Text(lines'[ring[k]]) == Text(lines[ring[k]])[..doto] + [] + Text(lines[ring[k]])[doto + chunk..];
    LineEditDoc(lines, ring, lines', ring, k, ring[k], doto, doto + chunk, [], doto);
  }

  /** A text cut at p and put back together is the same text. */
  lemma SplitJoin(d: seq<byte>, p: int)
    requires 0 <= p <= |d|
    ensures d[..p] + d[p..] == d
  {
  }

  /** Removing j more bytes at P from D[..P] + D[P + r..] removes r + j bytes at P from D. */
  lemma RemoveMore(d: seq<byte>, p: nat, r: nat, j: nat)
    requires p + r + j <= |d|
    ensures var c := d[..p] + d[p + r..];
            && p + j <= |c| && c[..p] + c[p + j..] == d[..p] + d[p + r + j..]
            && c[p..p + j] == d[p + r..p + r + j]
            && d[p..p + r] + c[p..p + j] == d[p..p + r + j]
  {
  }

  /** Dot at the end of a non-empty last line, where ldelnewline does nothing. */
  ghost predicate LastEnd(lines: map<Handle, Line>, ring: seq<Handle>, dot: Pos)
  {
    && 1 <= |ring| && dot.p in ring && dot.p in lines && dot.p != ring[0]
    && IndexOf(ring, dot.p) + 1 == |ring| && dot.o == lines[dot.p].used != 0
  }

  /**
   * One ldelete step at a line end, as seen in the text: c0 has a line end at
   * p0; either it is removed, or (phantom) dot is at the end of a non-empty
   * last line and nothing changes, or the step failed and nothing changes.
   */
  ghost predicate NewlineStep(c0: seq<byte>, p0: int, last0: bool, c1: seq<byte>, p1: int, last1: bool,
                              ok: bool, removed: nat, phantom: nat)
  {
    && 0 <= p0 < |c0| && c0[p0] == NL
    && removed + phantom <= 1 && (ok <==> removed + phantom == 1)
    && c1 == c0[..p0] + c0[p0 + removed..] && p1 == p0
    && (last0 ==> removed == 0 && phantom == 1)
    && (phantom == 1 ==> last1 && p0 + 1 == |c0|)
  }

  /** One ldelete step inside a line, as seen in the text: chunk bytes at p0 leave it and dot keeps its place. */
  ghost predicate CutStep(c0: seq<byte>, p0: int, c1: seq<byte>, p1: int, chunk: nat)
  {
    0 <= p0 && p0 + chunk <= |c0| && c1 == c0[..p0] + c0[p0 + chunk..] && p1 == p0
  }

  /**
   * Where ldelete's loop stands, as seen in the text: c is the text d it
   * started on with `removed` bytes at p taken out, dot is still at p, and
   * phantom line ends were only ever counted with dot at the end of the
   * last line.
   */
  ghost predicate Deleted(d: seq<byte>, p: int, c: seq<byte>, pt: int, last: bool, removed: nat, phantom: nat)
  {
    && 0 <= p && p + removed <= |d| && c == d[..p] + d[p + removed..] && pt == p
    && (phantom > 0 ==> last && p + removed + 1 == |d|)
  }

  /**
   * One pass of ldelete's loop, as seen in the text: r bytes at p0 leave the
   * text and dot keeps its place; ph counts a line end reported joined at
   * the end of a non-empty last line (always the case there), where nothing
   * changes.
   */
  ghost predicate DeleteStepped(c0: seq<byte>, p0: int, last0: bool, c1: seq<byte>, p1: int, last1: bool, r: nat, ph: nat)
  {
    && 0 <= p0 && p0 + r <= |c0| && c1 == c0[..p0] + c0[p0 + r..] && p1 == p0 && ph <= 1
    && (last0 ==> r == 0 && ph == 1)
    && (ph == 1 ==> r == 0 && last1 && p0 + 1 == |c0|)
  }

  /** The kill buffer k holds what it held before, the bytes removed at p from d, and the phantom line ends. */
  ghost predicate Killed(killed: seq<byte>, d: seq<byte>, p: int, removed: nat, phantom: nat, k: seq<byte>)
  {
    0 <= p && p + removed <= |d| && k == killed + Saved(d, p, removed, phantom)
  }

  /** What ldelete saves for r bytes taken out of c at p and ph phantom line ends. */
  function Saved(c: seq<byte>, p: int, r: nat, ph: nat): seq<byte>
    requires 0 <= p && p + r <= |c|
  {
    c[p..p + r] + Repeat([NL], ph)
  }

  /** A pass that changes nothing. */
  lemma NoStep(c: seq<byte>, p: int, last: bool)
    requires 0 <= p <= |c| && !last
    ensures DeleteStepped(c, p, last, c, p, last, 0, 0)
  {
    SplitJoin(c, p);
  }

  /** A line-end step is a pass of the loop. */
  lemma NewlineStepped(c0: seq<byte>, p0: int, last0: bool, c1: seq<byte>, p1: int, last1: bool,
                       ok: bool, removed: nat, phantom: nat)
    requires NewlineStep(c0, p0, last0, c1, p1, last1, ok, removed, phantom)
    ensures DeleteStepped(c0, p0, last0, c1, p1, last1, removed, phantom)
  {
  }

  /** A step inside a line, away from the end of the last line, is a pass of the loop. */
  lemma CutStepped(c0: seq<byte>, p0: int, last0: bool, c1: seq<byte>, p1: int, last1: bool, chunk: nat)
    requires CutStep(c0, p0, c1, p1, chunk) && !last0
    ensures DeleteStepped(c0, p0, last0, c1, p1, last1, chunk, 0)
  {
  }

  /** What a line-end step saves is one line end, whether taken out of the text or phantom. */
  lemma LineEndSaved(c0: seq<byte>, p0: int, r: nat, ph: nat)
    requires 0 <= p0 < |c0| && c0[p0] == NL && r + ph == 1
    ensures Saved(c0, p0, r, ph) == [NL]
  {
    if r == 0 {
      assert c0[p0..p0] == [];
    }
  }

  /** A pass of the loop keeps its account of the text. */
  lemma StepDeleted(d: seq<byte>, p: int, c0: seq<byte>, p0: int, last0: bool,
                    c1: seq<byte>, p1: int, last1: bool, removed: nat, phantom: nat, r: nat, ph: nat)
    requires Deleted(d, p, c0, p0, last0, removed, phantom)
    requires DeleteStepped(c0, p0, last0, c1, p1, last1, r, ph)
    ensures Deleted(d, p, c1, p1, last1, removed + r, phantom + ph)
  {
    RemoveMore(d, p, removed, r);
  }

  /** What a pass saves extends what the kill buffer should hold. */
  lemma StepKilled(killed: seq<byte>, d: seq<byte>, p: int, c0: seq<byte>, p0: int, last0: bool,
                   c1: seq<byte>, p1: int, last1: bool, removed: nat, phantom: nat, r: nat, ph: nat,
                   k0: seq<byte>, k1: seq<byte>)
    requires Deleted(d, p, c0, p0, last0, removed, phantom)
    requires DeleteStepped(c0, p0, last0, c1, p1, last1, r, ph)
    requires Killed(killed, d, p, removed, phantom, k0) && k1 == k0 + Saved(c0, p0, r, ph)
    ensures Killed(killed, d, p, removed + r, phantom + ph, k1)
  {
    RemoveMore(d, p, removed, r);
    if ph == 1 {
      RepeatSnoc([NL], phantom);
      assert c0[p0..p0 + r] == [];
    } else if r == 0 {
      assert c0[p0..p0 + r] == [];
    }
  }

  /** A pass of the loop as seen in the text and the kill buffer (k0 before, k1 after). */
  ghost predicate PassOk(c0: seq<byte>, p0: int, last0: bool, k0: seq<byte>, c1: seq<byte>, p1: int, last1: bool,
                         k1: seq<byte>, r: nat, ph: nat, kflag: bool, ok: bool)
  {
    && DeleteStepped(c0, p0, last0, c1, p1, last1, r, ph)
    && (kflag && ok ==> k1 == k0 + Saved(c0, p0, r, ph))
    && (!kflag ==> k1 == k0)
  }

  /** A pass keeps the loop's account of the text and of the kill buffer. */
  lemma PassAccount(killed: seq<byte>, d: seq<byte>, p: int, removed: nat, phantom: nat,
                    c0: seq<byte>, p0: int, last0: bool, k0: seq<byte>, c1: seq<byte>, p1: int, last1: bool,
                    k1: seq<byte>, r: nat, ph: nat, kflag: bool, ok: bool)
    requires Deleted(d, p, c0, p0, last0, removed, phantom)
    requires kflag ==> Killed(killed, d, p, removed, phantom, k0)
    requires !kflag ==> k0 == killed
    requires PassOk(c0, p0, last0, k0, c1, p1, last1, k1, r, ph, kflag, ok)
    ensures Deleted(d, p, c1, p1, last1, removed + r, phantom + ph)
    ensures kflag && ok ==> Killed(killed, d, p, removed + r, phantom + ph, k1)
    ensures !kflag ==> k1 == killed
  {
    StepDeleted(d, p, c0, p0, last0, c1, p1, last1, removed, phantom, r, ph);
    if kflag && ok {
      StepKilled(killed, d, p, c0, p0, last0, c1, p1, last1, removed, phantom, r, ph, k0, k1);
    }
  }

  /** ldelnewline with dot at the end of its line, as a NewlineStep of the text. */
  lemma JoinStepDoc(st: Store, cur: nat, r: Store, ok: bool) returns (removed: nat, phantom: nat)
    requires RingOk(st.lines, st.ring, st.nextHandle) && cur < |st.windows|
    requires var dot := st.windows[cur].dot;
             dot.p in st.ring && dot.p != st.ring[0] && dot.o == st.lines[dot.p].used
    requires r == if ok then JoinResult(st, st.windows[cur].dot.p) else st
    requires !JoinAllocates(st, st.windows[cur].dot.p) ==> ok
    ensures 1 <= |r.ring| && Stored(r.lines, r.ring) && cur < |r.windows| && r.windows[cur].dot.p in r.ring
    ensures var dot, dot' := st.windows[cur].dot, r.windows[cur].dot;
            NewlineStep(Doc(st.lines, st.ring), DocPos(st.lines, st.ring, dot), LastEnd(st.lines, st.ring, dot),
                        Doc(r.lines, r.ring), DocPos(r.lines, r.ring, dot'), LastEnd(r.lines, r.ring, dot'),
                        ok, removed, phantom)
  {
    var dot := st.windows[cur].dot;
    JoinResultDoc(st, cur);
    if !ok {
      removed, phantom := 0, 0;
      JoinFailedStep(st, cur);
    } else if JoinStays(st, dot.p) {
      removed, phantom := 0, 1;
      JoinStayStep(st, cur);
    } else {
      removed, phantom := 1, 0;
      JoinRemoveStep(st, cur);
    }
  }

  /** A failed ldelnewline changes nothing; it cannot fail at the end of a non-empty last line. */
  lemma JoinFailedStep(st: Store, cur: nat)
    requires RingOk(st.lines, st.ring, st.nextHandle) && cur < |st.windows|
    requires var dot := st.windows[cur].dot;
             dot.p in st.ring && dot.p != st.ring[0] && dot.o == st.lines[dot.p].used
    requires JoinAllocates(st, st.windows[cur].dot.p) && JoinDocOk(st, cur)
    ensures var dot := st.windows[cur].dot;
            var d, p, last := Doc(st.lines, st.ring), DocPos(st.lines, st.ring, dot), LastEnd(st.lines, st.ring, dot);
            NewlineStep(d, p, last, d, p, last, false, 0, 0)
  {
    var dot := st.windows[cur].dot;
    var d, p := Doc(st.lines, st.ring), DocPos(st.lines, st.ring, dot);
    assert p == DocPos(st.lines, st.ring, Pos(dot.p, st.lines[dot.p].used));
    SplitJoin(d, p);
  }

  /** At the end of a non-empty last line ldelnewline leaves the text alone and reports the line end joined. */
  lemma JoinStayStep(st: Store, cur: nat)
    requires RingOk(st.lines, st.ring, st.nextHandle) && cur < |st.windows|
    requires var dot := st.windows[cur].dot;
             dot.p in st.ring && dot.p != st.ring[0] && dot.o == st.lines[dot.p].used
    requires JoinStays(st, st.windows[cur].dot.p) && JoinDocOk(st, cur)
    ensures var dot, r := st.windows[cur].dot, JoinResult(st, st.windows[cur].dot.p);
            NewlineStep(Doc(st.lines, st.ring), DocPos(st.lines, st.ring, dot), LastEnd(st.lines, st.ring, dot),
                        Doc(r.lines, r.ring), DocPos(r.lines, r.ring, r.windows[cur].dot), LastEnd(r.lines, r.ring, r.windows[cur].dot),
                        true, 0, 1)
  {
    var dot := st.windows[cur].dot;
    var d, p := Doc(st.lines, st.ring), DocPos(st.lines, st.ring, dot);
    assert JoinResult(st, dot.p) == st;
    assert p == DocPos(st.lines, st.ring, Pos(dot.p, st.lines[dot.p].used));
    SplitJoin(d, p);
  }

  /** Anywhere else a successful ldelnewline takes the line end at dot out of the text. */
  lemma JoinRemoveStep(st: Store, cur: nat)
    requires RingOk(st.lines, st.ring, st.nextHandle) && cur < |st.windows|
    requires var dot := st.windows[cur].dot;
             dot.p in st.ring && dot.p != st.ring[0] && dot.o == st.lines[dot.p].used
    requires !JoinStays(st, st.windows[cur].dot.p) && JoinDocOk(st, cur)
    ensures var dot, r := st.windows[cur].dot, JoinResult(st, st.windows[cur].dot.p);
            NewlineStep(Doc(st.lines, st.ring), DocPos(st.lines, st.ring, dot), LastEnd(st.lines, st.ring, dot),
                        Doc(r.lines, r.ring), DocPos(r.lines, r.ring, r.windows[cur].dot), LastEnd(r.lines, r.ring, r.windows[cur].dot),
                        true, 1, 0)
  {
    var dot := st.windows[cur].dot;
    assert DocPos(st.lines, st.ring, dot) == DocPos(st.lines, st.ring, Pos(dot.p, st.lines[dot.p].used));
  }

  /** linsert refuses (the "bug: linsert" message) to insert at the header anywhere but offset 0. */
  predicate InsertAllowed(st: Store, dot: Pos, offset: int)
    requires 1 <= |st.ring|
  {
    dot.p != st.ring[0] || offset == 0
  }

  /** linsert needs a new line at the end of the buffer, or when the dot line lacks the room. */
  predicate InsertAllocates(st: Store, dot: Pos, bytes: nat)
    requires 1 <= |st.ring| && dot.p in st.lines
  {
    dot.p == st.ring[0] || st.lines[dot.p].used + bytes > Size(st.lines[dot.p])
  }

  /**
   * What a successful linsert of ins (chars characters) at dot, byte offset `offset`, leaves behind:
   * a new line before the header, a larger copy of the dot line in its place, or the dot line
   * widened in place; the windows then follow the insertion.
   */
  function InsertResult(st: Store, cur: nat, dot: Pos, offset: int, ins: seq<byte>, chars: int): Store
    requires dot.p in st.lines && dot.p in st.ring
    requires 0 <= offset <= st.lines[dot.p].used
  {
    var l := st.lines[dot.p];
    var lp2 := st.nextHandle;
    if dot.p == st.ring[0] then
      Store(st.lines[lp2 := Filled(ins)], st.ring + [lp2], InsertAll(st.windows, cur, dot, lp2, chars), lp2 + 1)
    else if l.used + |ins| > Size(l) then
      Store((st.lines - {dot.p})[lp2 := Regrown(l, offset, ins)], st.ring[IndexOf(st.ring, dot.p) := lp2],
            InsertAll(st.windows, cur, dot, lp2, chars), lp2 + 1)
    else
      Store(st.lines[dot.p := Opened(l, offset, ins)], st.ring, InsertAll(st.windows, cur, dot, dot.p, chars), lp2)
  }

  /**
   * After linsert, dot has moved on by chars and its line reads the old dot line
   * with ins spliced in at the byte offset; every other line is as it was.
   */
  lemma InsertResultText(st: Store, cur: nat, dot: Pos, offset: int, ins: seq<byte>, chars: int)
    requires dot.p in st.lines && dot.p in st.ring && st.nextHandle !in st.lines
    requires 0 <= offset <= st.lines[dot.p].used && (dot.p == st.ring[0] ==> st.lines[dot.p].used == 0)
    ensures var r := InsertResult(st, cur, dot, offset, ins, chars);
            && |r.windows| == |st.windows|
            && (forall h :: h in st.lines && h != dot.p ==> h in r.lines && r.lines[h] == st.lines[h])
            && (cur < |st.windows| && st.windows[cur].dot == dot ==>
                  var nd, l := r.windows[cur].dot, st.lines[dot.p];
                  && nd.o == dot.o + chars && nd.p in r.lines
                  && Text(r.lines[nd.p]) == Text(l)[..offset] + ins + Text(l)[offset..])
  {
  }

  /** Entry k replaced by h (itself, or a line not in the ring) while every other line keeps its record. */
  lemma InsertFrame(lines: map<Handle, Line>, ring: seq<Handle>, k: nat, lines': map<Handle, Line>, h: Handle)
    requires Stored(lines, ring) && Distinct(ring) && 1 <= k < |ring|
    requires h in lines' && (h == ring[k] || h !in ring)
    requires forall x :: x in lines && x != ring[k] ==> x in lines' && lines'[x] == lines[x]
    ensures var ring' := ring[..k] + [h] + ring[k + 1..];
            Stored(lines', ring') && h !in ring[..k] && Kept(lines, lines', ring, 1, k) && Kept(lines, lines', ring, k + 1, |ring|)
  {
    assert forall i :: 0 <= i < |ring| && i != k ==> ring[i] != ring[k];
  }

  /** linsert's easy case as an edit of the text: ins goes in at byte `offset` of entry k. */
  lemma OpenedDoc(lines: map<Handle, Line>, ring: seq<Handle>, k: nat, offset: nat, ins: seq<byte>, o: int)
    requires Stored(lines, ring) && Distinct(ring) && 1 <= k < |ring|
    requires offset <= lines[ring[k]].used && lines[ring[k]].used + |ins| <= Size(lines[ring[k]])
    ensures var lp := ring[k];
            var lines' := lines[lp := Opened(lines[lp], offset, ins)];
            var d, p := Doc(lines, ring), DocPos(lines, ring, Pos(lp, offset));
            && Stored(lines', ring) && 0 <= p <= |d|
            && Doc(lines', ring) == d[..p] + ins + d[p..]
            && DocPos(lines', ring, Pos(lp, o)) == DocPos(lines, ring, Pos(lp, o))
  {
    var lp := ring[k];
    var lines' := lines[lp := Opened(lines[lp], offset, ins)];
    assert ring == ring[..k] + [lp] + ring[k + 1..];
    InsertFrame(lines, ring, k, lines', lp);
    LineEditDoc(lines, ring, lines', ring, k, lp, offset, offset, ins, o);
  }

  /** linsert's hard case as an edit of the text: the larger copy lp2 takes entry k's place. */
  lemma RegrownDoc(lines: map<Handle, Line>, ring: seq<Handle>, k: nat, lp2: Handle, offset: nat, ins: seq<byte>, o: int)
    requires Stored(lines, ring) && Distinct(ring) && 1 <= k < |ring| && lp2 !in lines
    requires offset <= lines[ring[k]].used
    ensures var lp := ring[k];
            var lines', ring' := (lines - {lp})[lp2 := Regrown(lines[lp], offset, ins)], ring[k := lp2];
            var d, p := Doc(lines, ring), DocPos(lines, ring, Pos(lp, offset));
            && Stored(lines', ring') && lp2 in ring' && 0 <= p <= |d|
            && Doc(lines', ring') == d[..p] + ins + d[p..]
            && DocPos(lines', ring', Pos(lp2, o)) == DocPos(lines, ring, Pos(lp, o))
  {
    var lp := ring[k];
    var lines' := (lines - {lp})[lp2 := Regrown(lines[lp], offset, ins)];
    assert ring[k := lp2] == ring[..k] + [lp2] + ring[k + 1..];
    assert lp2 !in ring;
    InsertFrame(lines, ring, k, lines', lp2);
    LineEditDoc(lines, ring, lines', ring[k := lp2], k, lp2, offset, offset, ins, o);
  }

  /** What InsertResultDoc promises: ins spliced into the text at dot's byte offset, dot moved on by chars. */
  ghost predicate InsertDocOk(st: Store, cur: nat, dot: Pos, offset: int, ins: seq<byte>, chars: int)
    requires RingOk(st.lines, st.ring, st.nextHandle) && cur < |st.windows| && st.windows[cur].dot == dot
    requires dot.p in st.ring && 0 <= offset <= st.lines[dot.p].used
  {
    var r := InsertResult(st, cur, dot, offset, ins, chars);
    var d, p := Doc(st.lines, st.ring), DocPos(st.lines, st.ring, Pos(dot.p, offset));
    && 1 <= |r.ring| && Stored(r.lines, r.ring) && cur < |r.windows| && r.windows[cur].dot.p in r.ring
    && r.ring[0] == st.ring[0] && r.windows[cur].dot.p != r.ring[0]
    && 0 <= p <= |d|
    && Doc(r.lines, r.ring) == (if dot.p == st.ring[0] then d + ins + [NL] else d[..p] + ins + d[p..])
    && DocPos(r.lines, r.ring, r.windows[cur].dot) == DocPos(st.lines, st.ring, dot) + chars
  }

  /**
   * linsert as an edit of the text: at the end of the buffer ins becomes a new
   * last line; anywhere else it goes in at the byte offset of dot's line.  Dot
   * moves on by chars.
   */
  lemma InsertResultDoc(st: Store, cur: nat, dot: Pos, offset: int, ins: seq<byte>, chars: int)
    requires RingOk(st.lines, st.ring, st.nextHandle) && cur < |st.windows| && st.windows[cur].dot == dot
    requires dot.p in st.ring && 0 <= dot.o <= st.lines[dot.p].used && 0 <= offset <= st.lines[dot.p].used
    ensures InsertDocOk(st, cur, dot, offset, ins, chars)
  {
    if dot.p == st.ring[0] {
      InsertAtEndResult(st, cur, dot, ins, chars);
    } else if st.lines[dot.p].used + |ins| > Size(st.lines[dot.p]) {
      InsertRegrownResult(st, cur, dot, offset, ins, chars);
    } else {
      InsertInPlaceResult(st, cur, dot, offset, ins, chars);
    }
  }

  lemma InsertAtEndResult(st: Store, cur: nat, dot: Pos, ins: seq<byte>, chars: int)
    requires RingOk(st.lines, st.ring, st.nextHandle) && cur < |st.windows| && st.windows[cur].dot == dot
    requires dot.p == st.ring[0] && dot.o == 0
    ensures InsertDocOk(st, cur, dot, 0, ins, chars)
  {
    var lp2 := st.nextHandle;
    var lines' := st.lines[lp2 := Filled(ins)];
    assert lp2 !in st.ring;
    AppendDoc(st.lines, st.ring, lines', lp2, chars);
    assert InsertResult(st, cur, dot, 0, ins, chars).windows[cur].dot == Pos(lp2, chars);
  }

  lemma InsertRegrownResult(st: Store, cur: nat, dot: Pos, offset: int, ins: seq<byte>, chars: int)
    requires RingOk(st.lines, st.ring, st.nextHandle) && cur < |st.windows| && st.windows[cur].dot == dot
    requires dot.p in st.ring && dot.p != st.ring[0] && 0 <= dot.o <= st.lines[dot.p].used
    requires 0 <= offset <= st.lines[dot.p].used && st.lines[dot.p].used + |ins| > Size(st.lines[dot.p])
    ensures InsertDocOk(st, cur, dot, offset, ins, chars)
  {
    var k := IndexOf(st.ring, dot.p);
    RegrownDoc(st.lines, st.ring, k, st.nextHandle, offset, ins, dot.o + chars);
    PosAt(st.lines, st.ring, k, dot.o);
    PosAt(st.lines, st.ring, k, dot.o + chars);
    assert InsertResult(st, cur, dot, offset, ins, chars).windows[cur].dot == Pos(st.nextHandle, dot.o + chars);
  }

  lemma InsertInPlaceResult(st: Store, cur: nat, dot: Pos, offset: int, ins: seq<byte>, chars: int)
    requires RingOk(st.lines, st.ring, st.nextHandle) && cur < |st.windows| && st.windows[cur].dot == dot
    requires dot.p in st.ring && dot.p != st.ring[0] && 0 <= dot.o <= st.lines[dot.p].used
    requires 0 <= offset <= st.lines[dot.p].used && st.lines[dot.p].used + |ins| <= Size(st.lines[dot.p])
    ensures InsertDocOk(st, cur, dot, offset, ins, chars)
  {
    var k := IndexOf(st.ring, dot.p);
    OpenedDoc(st.lines, st.ring, k, offset, ins, dot.o + chars);
    PosAt(st.lines, st.ring, k, dot.o);
    PosAt(st.lines, st.ring, k, dot.o + chars);
    assert InsertResult(st, cur, dot, offset, ins, chars).windows[cur].dot == Pos(dot.p, dot.o + chars);
  }

  /** What a successful lnewline leaves behind: dot's line split at dot into a new line lp2 and the rest. */
  function NewlineResult(st: Store, dot: Pos): Store
    requires dot.p in st.lines && dot.p in st.ring && 0 <= dot.o <= st.lines[dot.p].used
  {
    Store(SplitLines(st.lines, dot.p, st.nextHandle, dot.o), LinkBefore(st.ring, IndexOf(st.ring, dot.p), st.nextHandle),
          SplitAll(st.windows, dot.p, st.nextHandle, dot.o), st.nextHandle + 1)
  }

  /** What NewlineResultDoc promises: a line end put into the text at dot, and dot just after it. */
  ghost predicate NewlineDocOk(st: Store, cur: nat)
    requires RingOk(st.lines, st.ring, st.nextHandle) && cur < |st.windows|
    requires var dot := st.windows[cur].dot; dot.p in st.ring && 0 <= dot.o <= st.lines[dot.p].used
  {
    var dot := st.windows[cur].dot;
    var r := NewlineResult(st, dot);
    var d, p := Doc(st.lines, st.ring), DocPos(st.lines, st.ring, dot);
    && 1 <= |r.ring| && Stored(r.lines, r.ring) && cur < |r.windows| && r.ring[0] == st.ring[0]
    && r.windows[cur].dot == Pos(dot.p, 0) && dot.p in r.ring && dot.p in r.lines
    && 0 <= p <= |d|
    && Doc(r.lines, r.ring) == d[..p] + [NL] + d[p..]
    && DocPos(r.lines, r.ring, r.windows[cur].dot) == p + 1
  }

  /**
   * lnewline as an edit of the text: a line end goes in at dot, and dot ends
   * up at the start of the second half, just after it.
   */
  lemma NewlineResultDoc(st: Store, cur: nat)
    requires RingOk(st.lines, st.ring, st.nextHandle) && cur < |st.windows|
    requires var dot := st.windows[cur].dot; dot.p in st.ring && 0 <= dot.o <= st.lines[dot.p].used
    ensures NewlineDocOk(st, cur)
  {
    var dot := st.windows[cur].dot;
    var k := IndexOf(st.ring, dot.p);
    assert st.nextHandle !in st.ring;
    SplitDoc(st.lines, st.ring, k, st.nextHandle, dot.o);
    assert NewlineResult(st, dot).windows[cur].dot == SplitPos(dot, dot.p, st.nextHandle, dot.o);
    assert LinkBefore(st.ring, k, st.nextHandle)[0] == st.ring[0];
  }

  /** The text d with s[..i] put in at p, and pad (nothing, or the line end of a new last line) after it all. */
  function Spliced(d: seq<byte>, p: nat, s: seq<byte>, i: nat, pad: seq<byte>): (c: seq<byte>)
    requires p <= |d| && i <= |s|
    ensures |c| == |d| + i + |pad| && c[..p] == d[..p] && c[p..p + i] == s[..i]
  {
    d[..p] + s[..i] + d[p..] + pad
  }

  /** Putting s[i..j] in at the end of s[..i] extends the insertion to s[..j]. */
  lemma SpliceMore(d: seq<byte>, p: nat, s: seq<byte>, i: nat, j: nat, pad: seq<byte>)
    requires p <= |d| && i <= j <= |s|
    ensures var c := Spliced(d, p, s, i, pad);
            c[..p + i] + s[i..j] + c[p + i..] == Spliced(d, p, s, j, pad)
  {
    var c := Spliced(d, p, s, i, pad);
    assert c[..p + i] == d[..p] + s[..i];
    assert c[p + i..] == d[p..] + pad;
    assert s[..j] == s[..i] + s[i..j];
  }

  /** At the end of the text, putting s[i..j] in as a new last line extends the insertion to s[..j] and pads it. */
  lemma SpliceAtEnd(d: seq<byte>, s: seq<byte>, i: nat, j: nat)
    requires i <= j <= |s|
    ensures Spliced(d, |d|, s, i, []) + s[i..j] + [NL] == Spliced(d, |d|, s, j, [NL])
  {
    assert s[..j] == s[..i] + s[i..j];
    assert d[..|d|] == d && d[|d|..] == [];
  }

  /**
   * One linsert of ins as an edit of text c0 with point p0 (h0: the point is
   * on the header): on success ins goes in at the point, followed by a line
   * end when it went in at the header, and the point moves past it; on
   * failure nothing changes.
   */
  ghost predicate InsertStep(c0: seq<byte>, p0: int, h0: bool, c1: seq<byte>, p1: int, h1: bool, ins: seq<byte>, ok: bool)
  {
    && 0 <= p0 <= |c0| && (h0 ==> p0 == |c0|)
    && if ok then c1 == c0[..p0] + ins + c0[p0..] + (if h0 then [NL] else []) && p1 == p0 + |ins| && !h1
       else c1 == c0 && p1 == p0 && h1 == h0
  }

  /** One lnewline as an edit of text c0 with point p0: on success a line end goes in at the point, and the point moves past it. */
  ghost predicate NewlineTextStep(c0: seq<byte>, p0: int, h0: bool, c1: seq<byte>, p1: int, h1: bool, ok: bool)
  {
    && 0 <= p0 <= |c0| && (h0 ==> p0 == |c0|) && h1 == h0
    && if ok then c1 == c0[..p0] + [NL] + c0[p0..] && p1 == p0 + 1 else c1 == c0 && p1 == p0
  }

  /** linsert's Store-level result read as an InsertStep, when offsets are byte offsets and every byte is a character. */
  lemma InsertStepDoc(st: Store, cur: nat, ins: seq<byte>, ok: bool, r: Store)
    requires RingOk(st.lines, st.ring, st.nextHandle) && cur < |st.windows|
    requires var dot := st.windows[cur].dot; dot.p in st.ring && 0 <= dot.o <= st.lines[dot.p].used
    requires r == if ok then InsertResult(st, cur, st.windows[cur].dot, st.windows[cur].dot.o, ins, |ins|) else st
    ensures 1 <= |r.ring| && Stored(r.lines, r.ring) && cur < |r.windows| && r.windows[cur].dot.p in r.ring
    ensures r.windows[cur].dot.p in r.lines && 0 <= r.windows[cur].dot.o <= r.lines[r.windows[cur].dot.p].used
    ensures var dot := st.windows[cur].dot;
            InsertStep(Doc(st.lines, st.ring), DocPos(st.lines, st.ring, dot), dot.p == st.ring[0],
                       Doc(r.lines, r.ring), DocPos(r.lines, r.ring, r.windows[cur].dot), r.windows[cur].dot.p == r.ring[0],
                       ins, ok)
  {
    var dot := st.windows[cur].dot;
    PosInDoc(st.lines, st.ring, dot);
    if ok {
      InsertResultDoc(st, cur, dot, dot.o, ins, |ins|);
      var r := InsertResult(st, cur, dot, dot.o, ins, |ins|);
      InsertStepOf(Doc(st.lines, st.ring), DocPos(st.lines, st.ring, dot), dot.p == st.ring[0],
                   Doc(r.lines, r.ring), DocPos(r.lines, r.ring, r.windows[cur].dot), r.windows[cur].dot.p == r.ring[0], ins);
    }
  }

  /** The same for linsert's own result on the bytes ins, whose offset and character count are then exact. */
  lemma LinsertStep(st: Store, cur: nat, ins: seq<byte>, uclen: CharLength, wloffset: (seq<byte>, int) -> int,
                    ok: bool, r: Store)
    requires RingOk(st.lines, st.ring, st.nextHandle) && cur < |st.windows|
    requires var dot := st.windows[cur].dot; dot.p in st.ring && 0 <= dot.o <= st.lines[dot.p].used
    requires ByteOffsets(wloffset) && SingleBytes(uclen, ins)
    requires var dot := st.windows[cur].dot;
             r == if ok then InsertResult(st, cur, dot, wloffset(Text(st.lines[dot.p]), dot.o), Inserted(|ins|, 0, Some(ins)),
                                          InsertedChars(uclen, |ins|, Some(ins)))
                  else st
    ensures 1 <= |r.ring| && Stored(r.lines, r.ring) && cur < |r.windows| && r.windows[cur].dot.p in r.ring
    ensures r.windows[cur].dot.p in r.lines && 0 <= r.windows[cur].dot.o <= r.lines[r.windows[cur].dot.p].used
    ensures var dot := st.windows[cur].dot;
            InsertStep(Doc(st.lines, st.ring), DocPos(st.lines, st.ring, dot), dot.p == st.ring[0],
                       Doc(r.lines, r.ring), DocPos(r.lines, r.ring, r.windows[cur].dot), r.windows[cur].dot.p == r.ring[0],
                       ins, ok)
  {
    assert ins[..|ins|] == ins;
    UnsLenSingle(uclen, ins);
    InsertStepDoc(st, cur, ins, ok, r);
  }

  /** The text-level result of a successful linsert is an InsertStep. */
  lemma InsertStepOf(d: seq<byte>, p: int, h: bool, c: seq<byte>, pt: int, h': bool, ins: seq<byte>)
    requires 0 <= p <= |d| && (h ==> p == |d|) && !h' && pt == p + |ins|
    requires c == if h then d + ins + [NL] else d[..p] + ins + d[p..]
    ensures InsertStep(d, p, h, c, pt, h', ins, true)
  {
    assert d[..|d|] == d && d[|d|..] == [];
  }

  /** lnewline's Store-level result read as a NewlineTextStep. */
  lemma NewlineStepDoc(st: Store, cur: nat, ok: bool, r: Store)
    requires RingOk(st.lines, st.ring, st.nextHandle) && cur < |st.windows|
    requires var dot := st.windows[cur].dot; dot.p in st.ring && 0 <= dot.o <= st.lines[dot.p].used
    requires r == if ok then NewlineResult(st, st.windows[cur].dot) else st
    ensures 1 <= |r.ring| && Stored(r.lines, r.ring) && cur < |r.windows| && r.windows[cur].dot.p in r.ring
    ensures r.windows[cur].dot.p in r.lines && 0 <= r.windows[cur].dot.o <= r.lines[r.windows[cur].dot.p].used
    ensures var dot := st.windows[cur].dot;
            NewlineTextStep(Doc(st.lines, st.ring), DocPos(st.lines, st.ring, dot), dot.p == st.ring[0],
                            Doc(r.lines, r.ring), DocPos(r.lines, r.ring, r.windows[cur].dot), r.windows[cur].dot.p == r.ring[0],
                            ok)
  {
    PosInDoc(st.lines, st.ring, st.windows[cur].dot);
    if ok {
      NewlineResultDoc(st, cur);
    }
  }

  /** wloffset keeps an offset that lies within a line inside that line. */
  ghost predicate WithinLine(wloffset: (seq<byte>, int) -> int)
  {
    forall t: seq<byte>, o: int :: 0 <= o <= |t| ==> 0 <= wloffset(t, o) <= |t|
  }

  /** Window offsets are byte offsets: wloffset leaves an offset within a line as it is. */
  ghost predicate ByteOffsets(wloffset: (seq<byte>, int) -> int)
  {
    forall t: seq<byte>, o: int :: 0 <= o <= |t| ==> wloffset(t, o) == o
  }

  /** insertwithnl's text-level promise holds: offsets are byte offsets and every byte of s is a character. */
  ghost predicate Exact(uclen: CharLength, wloffset: (seq<byte>, int) -> int, s: seq<byte>)
  {
    ByteOffsets(wloffset) && SingleBytes(uclen, s)
  }

  /**
   * insertwithnl's progress: the text c is the text d with s[..k] put in at
   * p, then pad, and the point c is just after the inserted bytes.  pad is a
   * line end exactly when the insertion began at the end of the text and went
   * in as a new last line, which dot (not on the header, h false) is on; that
   * happens once a byte other than a line end has gone in.
   */
  ghost predicate Progress(d: seq<byte>, p: int, s: seq<byte>, k: nat, pad: seq<byte>, c: seq<byte>, pt: int, h: bool)
  {
    && 0 <= p <= |d| && k <= |s|
    && c == Spliced(d, p, s, k, pad) && pt == p + k
    && (pad == [] || (pad == [NL] && p == |d| && !h))
    && (pad == [] && p == |d| ==> h)
    && (p == |d| ==> (h <==> OnlyLineEnds(s[..k])))
  }

  /** Every byte of t is a line end. */
  ghost predicate OnlyLineEnds(t: seq<byte>)
  {
    forall i :: 0 <= i < |t| ==> t[i] == NL
  }

  /** A linsert of s[i..j] takes insertwithnl's progress from i to j, or leaves it at i when it fails. */
  lemma InsertProgress(d: seq<byte>, p: int, s: seq<byte>, i: nat, j: nat, pad: seq<byte>,
                       c0: seq<byte>, p0: int, h0: bool, c1: seq<byte>, p1: int, h1: bool, ok: bool)
    returns (pad': seq<byte>)
    requires i < j <= |s| && s[i] != NL && Progress(d, p, s, i, pad, c0, p0, h0)
    requires InsertStep(c0, p0, h0, c1, p1, h1, s[i..j], ok)
    ensures Progress(d, p, s, if ok then j else i, pad', c1, p1, h1)
  {
    pad' := pad;
    if ok {
      if h0 {
        assert pad == [] && p == |d|;
        assert c0[..p0] == c0 && c0[p0..] == [];
        SpliceAtEnd(d, s, i, j);
        pad' := [NL];
      } else {
        SpliceMore(d, p, s, i, j, pad);
      }
    }
  }

  /** An lnewline for the line end s[i] takes insertwithnl's progress from i to i + 1, or leaves it at i when it fails. */
  lemma NewlineProgress(d: seq<byte>, p: int, s: seq<byte>, i: nat, pad: seq<byte>,
                        c0: seq<byte>, p0: int, h0: bool, c1: seq<byte>, p1: int, h1: bool, ok: bool)
    requires i < |s| && s[i] == NL && Progress(d, p, s, i, pad, c0, p0, h0)
    requires NewlineTextStep(c0, p0, h0, c1, p1, h1, ok)
    ensures Progress(d, p, s, if ok then i + 1 else i, pad, c1, p1, h1)
  {
    if ok {
      assert s[i..i + 1] == [NL];
      assert s[..i + 1] == s[..i] + [NL];
      SpliceMore(d, p, s, i, i + 1, pad);
    }
  }

  /** memchr for a line end: the first position from `from` on that holds one. */
  method FindNl(s: seq<byte>, from: nat) returns (r: Option<nat>)
    requires from <= |s|
    ensures r.None? ==> NL !in s[from..]
    ensures r.Some? ==> from <= r.value < |s| && s[r.value] == NL && NL !in s[from..r.value]
  {
    var i := from;
    while i < |s|
      invariant from <= i <= |s| && NL !in s[from..i]
    {
      if s[i] == NL {
        return Some(i);
      }
      assert s[from..i + 1] == s[from..i] + [s[i]];
      i := i + 1;
    }
    r := None;
  }

  /** linsert's fill-or-copy step: n copies of unit (the UTF-8 form of c), or the first n bytes of s, written at `at`. */
  method PutBytes(buf: seq<byte>, at: nat, n: nat, unit: seq<byte>, s: Option<seq<byte>>) returns (r: seq<byte>)
    requires s.Some? ==> n <= |s.value|
    requires 1 <= |unit| && at + |Payload(n, unit, s)| <= |buf|
    ensures r == Write(buf, at, Payload(n, unit, s))
  {
    if s.None? {
      r := Fill(buf, at, unit, n);
    } else {
      r := Write(buf, at, s.value[..n]);
    }
  }

  /** linsert's count of what it inserts: the UTF-8 form of c, the characters and the bytes. */
  method Measure(uclen: CharLength, n: nat, c: int, s: Option<seq<byte>>) returns (unit: seq<byte>, chars: nat, bytes: nat)
    requires s.Some? ==> n <= |s.value|
    ensures unit == Encode(c) && chars == InsertedChars(uclen, n, s) && bytes == |Inserted(n, c, s)|
    ensures Payload(n, unit, s) == Inserted(n, c, s)
  {
    unit := Encode(c);
    if s.Some? {
      chars := UnsLen(uclen, s.value[..n]);
      bytes := n;
    } else {
      chars := n;
      assert Inserted(n, c, s) == Repeat(unit, n);
      bytes := n * |unit|;
    }
  }

  /** Overwriting ring slot k with h keeps every other line and adds h. */
  lemma ReplaceKeeps(ring: seq<Handle>, k: nat, h: Handle)
    requires k < |ring|
    ensures h in ring[k := h]
    ensures forall x :: x in ring && x != ring[k] ==> x in ring[k := h]
  {
    assert ring[k := h][k] == h;
    forall x | x in ring && x != ring[k]
      ensures x in ring[k := h]
    {
      var j :| 0 <= j < |ring| && ring[j] == x;
      assert ring[k := h][j] == x;
    }
  }

  /** linsert at the end of the buffer: the bytes written into a fresh line. */
  method FillLine(blank: Line, n: nat, unit: seq<byte>, s: Option<seq<byte>>) returns (r: Line)
    requires (s.Some? ==> n <= |s.value|) && 1 <= |unit| && blank == Fresh(|Payload(n, unit, s)|)
    ensures r == Filled(Payload(n, unit, s))
  {
    var b := PutBytes(blank.buf, 0, n, unit, s);
    r := LineData(b, blank.used);
  }

  /** linsert's hard case: head, then tail, copied into a fresh line, then the bytes put between them. */
  method RegrowLine(l: Line, offset: nat, blank: Line, n: nat, unit: seq<byte>, s: Option<seq<byte>>) returns (r: Line)
    requires (s.Some? ==> n <= |s.value|) && 1 <= |unit|
    requires offset <= l.used && blank == Fresh(l.used + |Payload(n, unit, s)|)
    ensures r == Regrown(l, offset, Payload(n, unit, s))
  {
    var bytes := |Payload(n, unit, s)|;
    var head := Write(blank.buf, 0, l.buf[..offset]);
    var copied := Write(head, offset + bytes, l.buf[offset..l.used]);
    var b := PutBytes(copied, offset, n, unit, s);
    RegrownIs(l, offset, Payload(n, unit, s), blank, head, copied, b);
    r := LineData(b, blank.used);
  }

  /** Regrown, as the fresh buffer with head and tail copied in and the bytes written between them. */
  lemma RegrownIs(l: Line, at: nat, ins: seq<byte>, blank: Line, head: seq<byte>, copied: seq<byte>, b: seq<byte>)
    requires at <= l.used && blank == Fresh(l.used + |ins|)
    requires head == Write(blank.buf, 0, l.buf[..at]) && copied == Write(head, at + |ins|, l.buf[at..l.used])
    requires b == Write(copied, at, ins)
    ensures blank.used <= |b| && LineData(b, blank.used) == Regrown(l, at, ins)
  {
  }

  /** linsert's easy case: the tail moved up within the line, then the bytes put in the gap. */
  method OpenLine(l: Line, offset: nat, n: nat, unit: seq<byte>, s: Option<seq<byte>>) returns (r: Line)
    requires (s.Some? ==> n <= |s.value|) && 1 <= |unit|
    requires offset <= l.used && l.used + |Payload(n, unit, s)| <= Size(l)
    ensures r == Opened(l, offset, Payload(n, unit, s))
  {
    var bytes := |Payload(n, unit, s)|;
    var moved := Write(l.buf, offset + bytes, l.buf[offset..l.used]);
    var b := PutBytes(moved, offset, n, unit, s);
    OpenedIs(l, offset, Payload(n, unit, s), moved, b);
    r := LineData(b, l.used + bytes);
  }

  /** Opened, as the moved buffer and the bytes written into its gap. */
  lemma OpenedIs(l: Line, at: nat, ins: seq<byte>, moved: seq<byte>, b: seq<byte>)
    requires at <= l.used && l.used + |ins| <= Size(l)
    requires moved == Write(l.buf, at + |ins|, l.buf[at..l.used]) && b == Write(moved, at, ins)
    ensures l.used + |ins| <= |b| && LineData(b, l.used + |ins|) == Opened(l, at, ins)
  {
  }

  /** linsert's window update retargets references into a ring that keeps every other line and holds the new one. */
  lemma InsertAllOk(ws: seq<Window>, bufp: nat, hs: seq<Handle>, hs': seq<Handle>,
                    cur: nat, oldpos: Pos, newlp: Handle, nchars: int)
    requires WindowsOk(ws, bufp, hs) && newlp in hs'
    requires forall h :: h in hs && h != oldpos.p ==> h in hs'
    ensures WindowsOk(InsertAll(ws, cur, oldpos, newlp, nchars), bufp, hs')
    ensures forall i :: 0 <= i < |ws| ==> InsertAll(ws, cur, oldpos, newlp, nchars)[i].bufp == ws[i].bufp
  {
    var r := InsertAll(ws, cur, oldpos, newlp, nchars);
    forall i | 0 <= i < |ws|
      ensures r[i].count <= |r[i].ring| && (r[i].bufp == bufp ==> Live(r[i], hs'))
    {
      assert r[i] == InsertFix(ws[i], i == cur, oldpos, newlp, nchars);
      if ws[i].count >= 1 {
        assert r[i].ring[0] == AdjustPos(ws[i].ring[0], oldpos, newlp, nchars);
      }
    }
  }

  /** Saves bytes to the kill buffer one kinsert at a time, stopping at the first failure. */
  method KillSave(kb: KillBuffer, mem: Allocator, bytes: seq<byte>) returns (ok: bool, ghost saved: nat)
    requires kb.Valid()
    modifies kb.Repr, mem
    ensures kb.Valid() && fresh(kb.Repr - old(kb.Repr))
    ensures saved <= |bytes| && (ok <==> saved == |bytes|)
    ensures kb.Contents() == old(kb.Contents()) + bytes[..saved]
    ensures AllYes(old(mem.script)) ==> ok && AllYes(mem.script)
  {
    var i := 0;
    while i < |bytes|
      invariant 0 <= i <= |bytes|
      invariant kb.Valid() && fresh(kb.Repr - old(kb.Repr))
      invariant AllYes(old(mem.script)) ==> AllYes(mem.script)
      invariant kb.Contents() == old(kb.Contents()) + bytes[..i]
    {
      var put := kb.Insert(bytes[i] as int, mem);
      if !put {
        return false, i;
      }
      assert bytes[..i + 1] == bytes[..i] + [bytes[i]];
      i := i + 1;
    }
    assert bytes[..i] == bytes;
    return true, i;
  }

  /** The two copy loops of lnewline: the first doto bytes into the fresh line, the rest down to the start. */
  method SplitBytes(l1: Line, doto: nat, blank: Line) returns (head: Line, tail: Line)
    requires doto <= l1.used && blank == Fresh(doto)
    ensures head == Head(l1, doto) && tail == Tail(l1, doto)
  {
    var b2 := CopyBytes(blank.buf, 0, l1.buf, 0, doto);
    assert l1.buf[0..doto] == Text(l1)[..doto];
    head := LineData(b2, doto);
    var b1 := MoveDown(l1.buf, 0, doto, l1.used);
    tail := LineData(b1, l1.used - doto);
  }

  class Editor {
    /** Every line, by handle. */
    var lines: map<Handle, Line>
    /** The line ring of the current buffer, its header line (b_linep) first. */
    var ring: seq<Handle>
    /** The window list, wheadp first. */
    var windows: seq<Window>
    /** curwp */
    var cur: nat
    /** The buffer list, bheadp first. */
    var buffers: seq<Buffer>
    /** curbp */
    var curbuf: nat
    /** The handle the next allocated line gets. */
    var nextHandle: Handle
    /** What saveundo has been told. */
    ghost var undo: seq<UndoRecord>

    ghost predicate Valid()
      reads this
    {
      && cur < |windows| && curbuf < |buffers| && windows[cur].bufp == curbuf
      && RingOk(lines, ring, nextHandle)
      && WindowsOk(windows, curbuf, ring)
    }

    /** Dot of the current window. */
    function Dot(): Pos
      reads this`windows, this`cur
      requires cur < |windows|
    {
      windows[cur].dot
    }

    /** The window list once lchange(flag) has run. */
    function Flagging(flag: set<WinFlag>): seq<Window>
      reads this`windows, this`buffers, this`curbuf
      requires curbuf < |buffers|
    {
      FlagAll(windows, curbuf, ChangeFlags(flag, buffers[curbuf].nwnd, buffers[curbuf].changed))
    }

    /** Dot of the current window lies within the text of its line, as a byte offset. */
    ghost predicate DotInLine()
      reads this`lines, this`windows, this`cur
    {
      cur < |windows| && Dot().p in lines && 0 <= Dot().o <= lines[Dot().p].used
    }

    /** Dot is on the header line: at the end of the text. */
    ghost predicate OnHeader()
      reads this`ring, this`windows, this`cur
    {
      cur < |windows| && 1 <= |ring| && Dot().p == ring[0]
    }

    /** The editor is well formed, and insertwithnl has put the first `done` bytes of s into the text d at p. */
    ghost predicate Inserting(uclen: CharLength, wloffset: (seq<byte>, int) -> int, s: seq<byte>,
                              d: seq<byte>, p: int, done: nat, pad: seq<byte>)
      reads this
    {
      && Valid() && DotInLine()
      && (Exact(uclen, wloffset, s) ==> Progress(d, p, s, done, pad, Contents(), Point(), OnHeader()))
    }

    /** The text of the current buffer: every line after the header, each with its line end. */
    ghost function Contents(): seq<byte>
      reads this`lines, this`ring
      requires 1 <= |ring| && Stored(lines, ring)
    {
      Doc(lines, ring)
    }

    /** Dot as an index into Contents(); dot on the header is the end of the text. */
    ghost function Point(): int
      reads this`lines, this`ring, this`windows, this`cur
      requires 1 <= |ring| && Stored(lines, ring) && cur < |windows| && Dot().p in ring
    {
      DocPos(lines, ring, Dot())
    }

    /** Dot at the end of a non-empty last line, where ldelnewline does nothing. */
    ghost predicate AtLastEnd()
      reads this`lines, this`ring, this`windows, this`cur
    {
      cur < |windows| && LastEnd(lines, ring, Dot())
    }

    /** One empty buffer shown in one window. */
    constructor ()
      ensures Valid() && DotInLine()
      ensures |ring| == 1 && |windows| == 1 && |buffers| == 1 && undo == []
    {
      lines := map[0 := Fresh(0)];
      ring := [0];
      windows := [Window(0, 0, Pos(0, 0), 0, [Pos(0, 0)], 1, {})];
      cur := 0;
      buffers := [Buffer(1, false, Pos(0, 0), Pos(0, 0))];
      curbuf := 0;
      nextHandle := 1;
      undo := [];
    }

    /** lalloc: a fresh line with room for `used` bytes, or nothing when memory runs out. */
    method Lalloc(used: nat, mem: Allocator) returns (lp: Option<Handle>)
      requires Valid()
      modifies this`lines, this`nextHandle, mem
      ensures Valid()
      ensures lp.Some? == old(mem.NextOk()) && mem.script == old(mem.After())
      ensures lp.Some? ==> lp.value == old(nextHandle) && lp.value !in old(lines)
                           && lines == old(lines)[lp.value := Fresh(used)] && nextHandle == old(nextHandle) + 1
      ensures lp.None? ==> lines == old(lines) && nextHandle == old(nextHandle)
    {
      var got := mem.Request();
      if !got {
        return None;
      }
      lp := Some(nextHandle);
      lines := lines[nextHandle := Fresh(used)];
      nextHandle := nextHandle + 1;
    }

    /**
     * lfree: unlink a line of the current buffer and release it, first moving
     * every window and undisplayed-buffer reference to it to offset 0 of its
     * successor.
     */
    method Lfree(lp: Handle)
      requires Valid() && lp in ring[1..]
      modifies this`lines, this`ring, this`windows, this`buffers
      ensures Valid()
      ensures var k := IndexOf(old(ring), lp);
              var next := Next(old(ring), k);
              && 1 <= k && next in ring
              && windows == FreeAll(old(windows), lp, next)
              && buffers == FreeAllBuffers(old(buffers), lp, next)
              && ring == Unlink(old(ring), k)
              && lines == old(lines) - {lp}
    {
      var k := IndexOf(ring, lp);
      assert 1 <= k;
      var next := Next(ring, k);
      windows := Walk(windows, FreeFn(lp, next));
      buffers := Walk(buffers, FreeBufferFn(lp, next));
      FreeAllOk(old(windows), curbuf, ring, k);
      UnlinkOk(lines, ring, nextHandle, k);
      ring := Unlink(ring, k);
      lines := lines - {lp};
    }

    /**
     * lchange: mark the current buffer changed and OR the redraw flag into
     * every window showing it.
     */
    method Lchange(flag: set<WinFlag>)
      requires Valid()
      modifies this`windows, this`buffers
      ensures Valid()
      ensures var b := old(buffers[curbuf]);
              && buffers == old(buffers)[curbuf := b.(changed := true)]
              && windows == old(Flagging(flag))
      ensures |windows| == old(|windows|) && Dot() == old(Dot())
      ensures lines == old(lines) && ring == old(ring) && nextHandle == old(nextHandle) && undo == old(undo)
    {
      var f := flag;
      var b := buffers[curbuf];
      if b.nwnd != 1 {
        f := {Hard};
      }
      if !b.changed {
        f := f + {Mode};
        buffers := buffers[curbuf := b.(changed := true)];
      }
      var bp := curbuf;
      FlagAllOk(windows, curbuf, ring, bp, f);
      assert FlagAll(windows, bp, f) == MapSeq(windows, FlagFn(bp, f));
      windows := Walk(windows, FlagFn(bp, f));
    }

    /** The second half of lnewline, once the new line lp2 has been allocated. */
    method SplitInto(lp2: Handle)
      requires Valid() && DotInLine()
      requires lp2 in lines && lp2 !in ring && lines[lp2] == Fresh(Dot().o)
      modifies this`lines, this`ring, this`windows
      ensures Valid()
      ensures var lp1, doto := old(Dot().p), old(Dot().o);
              && lines == old(lines)[lp2 := Head(old(lines[lp1]), doto)][lp1 := Tail(old(lines[lp1]), doto)]
              && ring == LinkBefore(old(ring), IndexOf(old(ring), lp1), lp2)
              && windows == SplitAll(old(windows), lp1, lp2, doto)
    {
      var lp1 := windows[cur].dot.p;
      var doto := windows[cur].dot.o;
      var head, tail := SplitBytes(lines[lp1], doto, lines[lp2]);
      var k := IndexOf(ring, lp1);
      NewlineOk(lines, ring, windows, curbuf, nextHandle, k, lp2, head, tail, doto);
      lines := lines[lp2 := head][lp1 := tail];
      ring := LinkBefore(ring, k, lp2);
      windows := Walk(windows, SplitFn(lp1, lp2, doto));
    }

    /** ldelnewline at the end of the buffer: an empty dot line is freed, anything else left alone. */
    method JoinAtEnd(ghost st: Store)
      requires Valid() && st == Store(lines, ring, windows, nextHandle)
      requires Dot().p != ring[0] && IndexOf(ring, Dot().p) + 1 == |ring|
      modifies this`lines, this`ring, this`windows, this`buffers
      ensures Valid() && Store(lines, ring, windows, nextHandle) == JoinResult(st, old(Dot().p))
      ensures buffers == if JoinFrees(st, old(Dot().p)) then FreeAllBuffers(old(buffers), old(Dot().p), st.ring[0]) else old(buffers)
    {
      var lp1 := windows[cur].dot.p;
      if lines[lp1].used == 0 {
        Lfree(lp1);
      }
    }

    /** ldelnewline's easy case: the successor's text fits in the spare room of the dot line. */
    method MergeInPlace(ghost st: Store)
      requires Valid() && st == Store(lines, ring, windows, nextHandle) && Dot().p != ring[0]
      requires var k := IndexOf(ring, Dot().p);
               k + 1 < |ring| && lines[ring[k + 1]].used <= Room(lines[ring[k]])
      modifies this`lines, this`ring, this`windows
      ensures Valid() && Store(lines, ring, windows, nextHandle) == JoinResult(st, old(Dot().p))
    {
      var k := IndexOf(ring, windows[cur].dot.p);
      var lp1, lp2 := ring[k], ring[k + 1];
      var l1, l2 := lines[lp1], lines[lp2];
      var merged := AbsorbBytes(l1, l2);
      AbsorbedOk(lines, ring, nextHandle, windows, curbuf, cur, k, merged);
      JoinAbsorbed(st, lp1);
      lines := (lines - {lp2})[lp1 := merged];
      ring := Unlink(ring, k + 1);
      windows := Walk(windows, MergeFn(lp1, lp2, lp1, l1.used));
    }

    /** ldelnewline's hard case, once the joined line lp3 has been allocated. */
    method MergeInto(ghost lines0: map<Handle, Line>, lp3: Handle)
      requires Valid() && Dot().p != ring[0]
      requires IndexOf(ring, Dot().p) + 1 < |ring|
      requires lp3 !in lines0 && lp3 !in ring && Dot().p in lines0 && ring[IndexOf(ring, Dot().p) + 1] in lines0
      requires lines == lines0[lp3 := Fresh(lines0[Dot().p].used + lines0[ring[IndexOf(ring, Dot().p) + 1]].used)]
      modifies this`lines, this`ring, this`windows
      ensures Valid()
      ensures var k := IndexOf(old(ring), old(Dot().p));
              var lp1, lp2 := old(ring[k]), old(ring[k + 1]);
              && lines == (lines0 - {lp1, lp2})[lp3 := Joined(lines0[lp1], lines0[lp2])]
              && ring == Unlink(old(ring), k + 1)[k := lp3]
              && windows == MergeAll(old(windows), lp1, lp2, lp3, lines0[lp1].used)
    {
      var k := IndexOf(ring, windows[cur].dot.p);
      var lp1, lp2 := ring[k], ring[k + 1];
      var l1, l2 := lines[lp1], lines[lp2];
      var merged := JoinBytes(l1, l2, lines[lp3]);
      JoinedOk(lines, ring, nextHandle, windows, curbuf, cur, k, lp3, merged);
      Reallocated2(lines0, lp3, lines[lp3], {lp1, lp2}, merged);
      lines := (lines - {lp1, lp2})[lp3 := merged];
      ring := Unlink(ring, k + 1)[k := lp3];
      windows := Walk(windows, MergeFn(lp1, lp2, lp3, l1.used));
    }

    /** ldelnewline's hard case: allocate the joined line, then copy both texts into it. */
    method MergeAlloc(ghost st: Store, mem: Allocator) returns (ok: bool)
      requires Valid() && st == Store(lines, ring, windows, nextHandle) && Dot().p != ring[0]
      requires var k := IndexOf(ring, Dot().p);
               k + 1 < |ring| && lines[ring[k + 1]].used > Room(lines[ring[k]])
      modifies this`lines, this`ring, this`windows, this`nextHandle, mem
      ensures Valid() && ok == old(mem.NextOk()) && mem.script == old(mem.After())
      ensures Store(lines, ring, windows, nextHandle) == if ok then JoinResult(st, old(Dot().p)) else st
    {
      var lp1 := windows[cur].dot.p;
      var lp2 := ring[IndexOf(ring, lp1) + 1];
      var r := Lalloc(lines[lp1].used + lines[lp2].used, mem);
      if r.None? {
        return false;
      }
      MergeInto(st.lines, r.value);
      JoinAllocated(st, lp1);
      ok := true;
    }

    /**
     * ldelnewline: join the dot line with its successor.  At the end of the
     * buffer an empty dot line is freed and anything else is left alone; in
     * every case but a failed allocation the answer is TRUE.
     */
    method Ldelnewline(mem: Allocator) returns (ok: bool)
      requires Valid() && Dot().p != ring[0]
      modifies this`lines, this`ring, this`windows, this`buffers, this`nextHandle, mem
      ensures Valid() && cur == old(cur) && curbuf == old(curbuf)
      ensures old(DotInLine()) ==> DotInLine()
      ensures var st, lp1 := Store(old(lines), old(ring), old(windows), old(nextHandle)), old(Dot().p);
              && ok == (!JoinAllocates(st, lp1) || old(mem.NextOk()))
              && mem.script == (if JoinAllocates(st, lp1) then old(mem.After()) else old(mem.script))
              && Store(lines, ring, windows, nextHandle) == (if ok then JoinResult(st, lp1) else st)
              && buffers == if JoinFrees(st, lp1) then FreeAllBuffers(old(buffers), lp1, old(ring[0])) else old(buffers)
    {
      ghost var st := Store(lines, ring, windows, nextHandle);
      var lp1 := windows[cur].dot.p;
      var k := IndexOf(ring, lp1);
      if k + 1 == |ring| {
        JoinAtEnd(st);
        return true;
      }
      if lines[ring[k + 1]].used <= Room(lines[lp1]) {
        MergeInPlace(st);
        return true;
      }
      ok := MergeAlloc(st, mem);
    }

    /** ldelete's scrunch: chunk bytes at dot squeezed out of the dot line, windows past them pulled back. */
    method Scrunch(chunk: nat)
      requires Valid() && DotInLine() && 0 < chunk <= lines[Dot().p].used - Dot().o
      modifies this`lines, this`windows
      ensures Valid() && DotInLine() && Dot() == old(Dot())
      ensures var dotp, doto := old(Dot().p), old(Dot().o);
              && lines == old(lines)[dotp := Cut(old(lines[dotp]), doto, chunk)]
              && windows == ChunkAll(old(windows), dotp, doto, chunk)
      ensures CutStep(old(Contents()), old(Point()), Contents(), Point(), chunk)
      ensures old(Contents())[old(Point())..old(Point()) + chunk] == old(Text(lines[Dot().p]))[old(Dot().o)..old(Dot().o) + chunk]
    {
      var dotp, doto := windows[cur].dot.p, windows[cur].dot.o;
      var l := lines[dotp];
      CutDoc(lines, ring, IndexOf(ring, dotp), doto, chunk);
      var b := MoveDown(l.buf, doto, doto + chunk, l.used);
      UpdateOk(lines, ring, nextHandle, dotp, LineData(b, l.used - chunk));
      ChunkAllOk(windows, curbuf, ring, dotp, doto, chunk);
      lines := lines[dotp := LineData(b, l.used - chunk)];
      windows := Walk(windows, ChunkFn(dotp, doto, chunk));
      assert windows[cur] == ChunkFix(old(windows[cur]), dotp, doto, chunk);
    }

    /**
     * lchange and ldelnewline, for ldelete at the end of a line.  `removed`
     * counts the line end taken out of the text, `phantom` the one ldelnewline
     * reports joined at the end of a non-empty last line, where nothing changes.
     */
    method JoinStep(mem: Allocator) returns (ok: bool, ghost removed: nat, ghost phantom: nat)
      requires Valid() && DotInLine() && Dot().p != ring[0] && Dot().o == lines[Dot().p].used
      modifies this`lines, this`ring, this`windows, this`buffers, this`nextHandle, mem
      ensures Valid() && DotInLine()
      ensures NewlineStep(old(Contents()), old(Point()), old(AtLastEnd()), Contents(), Point(), AtLastEnd(),
                          ok, removed, phantom)
      ensures AllYes(old(mem.script)) ==> ok && AllYes(mem.script)
    {
      Lchange({Hard});
      ghost var st := Store(lines, ring, windows, nextHandle);
      ok := Ldelnewline(mem);
      removed, phantom := JoinStepDoc(st, cur, Store(lines, ring, windows, nextHandle), ok);
    }

    /** One step of ldelete at the end of a line: join it with the next, then save the line end. */
    method DeleteNewline(kflag: bool, kb: KillBuffer, mem: Allocator) returns (ok: bool, ghost removed: nat, ghost phantom: nat)
      requires Valid() && DotInLine() && Dot().p != ring[0] && Dot().o == lines[Dot().p].used && kb.Valid()
      modifies this`lines, this`ring, this`windows, this`buffers, this`nextHandle, kb.Repr, mem
      ensures Valid() && DotInLine() && kb.Valid() && fresh(kb.Repr - old(kb.Repr))
      ensures NewlineStep(old(Contents()), old(Point()), old(AtLastEnd()), Contents(), Point(), AtLastEnd(),
                          removed + phantom == 1, removed, phantom)
      ensures ok ==> removed + phantom == 1
      ensures kflag && ok ==> kb.Contents() == old(kb.Contents()) + [NL]
      ensures !kflag ==> kb.Contents() == old(kb.Contents())
      ensures AllYes(old(mem.script)) ==> ok && AllYes(mem.script)
    {
      ok, removed, phantom := JoinStep(mem);
      if ok && kflag {
        ok := kb.Insert(NL as int, mem);
      }
    }

    /** The kill loop of ldelete: the chunk bytes at dot saved to the kill buffer one by one. */
    method SaveChunk(chunk: nat, kb: KillBuffer, mem: Allocator) returns (ok: bool)
      requires Valid() && DotInLine() && 0 < chunk <= lines[Dot().p].used - Dot().o && kb.Valid()
      modifies kb.Repr, mem
      ensures kb.Valid() && fresh(kb.Repr - old(kb.Repr)) && unchanged(this)
      ensures Point() + chunk <= |Contents()|
      ensures ok ==> kb.Contents() == old(kb.Contents()) + Contents()[Point()..Point() + chunk]
      ensures AllYes(old(mem.script)) ==> ok && AllYes(mem.script)
    {
      var dotp, doto := windows[cur].dot.p, windows[cur].dot.o;
      CutDoc(lines, ring, IndexOf(ring, dotp), doto, chunk);
      TextSlice(lines[dotp], doto, doto + chunk);
      ghost var saved;
      ok, saved := KillSave(kb, mem, lines[dotp].buf[doto..doto + chunk]);
    }

    /** The chunk bytes at dot saved to the kill buffer, then, if that worked, squeezed out. */
    method KillChunk(chunk: nat, kb: KillBuffer, mem: Allocator) returns (ok: bool)
      requires Valid() && DotInLine() && 0 < chunk <= lines[Dot().p].used - Dot().o && kb.Valid()
      modifies this`lines, this`windows, kb.Repr, mem
      ensures Valid() && DotInLine() && kb.Valid() && fresh(kb.Repr - old(kb.Repr))
      ensures ok ==> CutStep(old(Contents()), old(Point()), Contents(), Point(), chunk)
      ensures !ok ==> Contents() == old(Contents()) && Point() == old(Point())
      ensures ok ==> kb.Contents() == old(kb.Contents()) + old(Contents())[old(Point())..old(Point()) + chunk]
      ensures AllYes(old(mem.script)) ==> ok && AllYes(mem.script)
    {
      ok := SaveChunk(chunk, kb, mem);
      if ok {
        ghost var k1 := kb.Contents();
        Scrunch(chunk);
        assert kb.Contents() == k1;
      }
    }

    /** One step of ldelete inside a line: lchange, chunk bytes at dot saved, then squeezed out. */
    method DeleteChunk(chunk: nat, kflag: bool, kb: KillBuffer, mem: Allocator) returns (ok: bool)
      requires Valid() && DotInLine() && 0 < chunk <= lines[Dot().p].used - Dot().o && kb.Valid()
      modifies this`lines, this`windows, this`buffers, kb.Repr, mem
      ensures Valid() && DotInLine() && kb.Valid() && fresh(kb.Repr - old(kb.Repr))
      ensures ok ==> CutStep(old(Contents()), old(Point()), Contents(), Point(), chunk)
      ensures !ok ==> Contents() == old(Contents()) && Point() == old(Point())
      ensures kflag && ok ==> kb.Contents() == old(kb.Contents()) + old(Contents())[old(Point())..old(Point()) + chunk]
      ensures !kflag ==> ok && kb.Contents() == old(kb.Contents())
      ensures AllYes(old(mem.script)) ==> ok && AllYes(mem.script)
    {
      Lchange({Edit});
      if kflag {
        ok := KillChunk(chunk, kb, mem);
      } else {
        Scrunch(chunk);
        ok := true;
      }
    }

    /** A pass of ldelete's loop with dot at the end of its line: one line end, taken out or phantom. */
    method LineEndPass(kflag: bool, kb: KillBuffer, mem: Allocator) returns (ok: bool, ghost r: nat, ghost ph: nat)
      requires Valid() && DotInLine() && Dot().p != ring[0] && Dot().o == lines[Dot().p].used && kb.Valid()
      modifies this`lines, this`ring, this`windows, this`buffers, this`nextHandle, kb.Repr, mem
      ensures Valid() && DotInLine() && kb.Valid() && fresh(kb.Repr - old(kb.Repr))
      ensures DeleteStepped(old(Contents()), old(Point()), old(AtLastEnd()), Contents(), Point(), AtLastEnd(), r, ph)
      ensures r + ph <= 1 && (ok ==> r + ph == 1)
      ensures kflag && ok ==> kb.Contents() == old(kb.Contents()) + Saved(old(Contents()), old(Point()), r, ph)
      ensures !kflag ==> kb.Contents() == old(kb.Contents())
      ensures AllYes(old(mem.script)) ==> ok && AllYes(mem.script)
    {
      ghost var c0, p0, last0 := Contents(), Point(), AtLastEnd();
      ok, r, ph := DeleteNewline(kflag, kb, mem);
      NewlineStepped(c0, p0, last0, Contents(), Point(), AtLastEnd(), r + ph == 1, r, ph);
      if ok {
        LineEndSaved(c0, p0, r, ph);
      }
    }

    /** A pass of ldelete's loop inside a line: chunk bytes at dot, or nothing when saving them fails. */
    method ChunkPass(chunk: nat, kflag: bool, kb: KillBuffer, mem: Allocator) returns (ok: bool, ghost r: nat)
      requires Valid() && DotInLine() && 0 < chunk <= lines[Dot().p].used - Dot().o && kb.Valid()
      modifies this`lines, this`windows, this`buffers, kb.Repr, mem
      ensures Valid() && DotInLine() && kb.Valid() && fresh(kb.Repr - old(kb.Repr))
      ensures DeleteStepped(old(Contents()), old(Point()), old(AtLastEnd()), Contents(), Point(), AtLastEnd(), r, 0)
      ensures r == if ok then chunk else 0
      ensures kflag && ok ==> kb.Contents() == old(kb.Contents()) + Saved(old(Contents()), old(Point()), r, 0)
      ensures !kflag ==> kb.Contents() == old(kb.Contents())
      ensures AllYes(old(mem.script)) ==> ok && AllYes(mem.script)
    {
      ghost var c0, p0, last0 := Contents(), Point(), AtLastEnd();
      assert !last0;
      ok := DeleteChunk(chunk, kflag, kb, mem);
      if ok {
        CutStepped(c0, p0, last0, Contents(), Point(), AtLastEnd(), chunk);
        r := chunk;
        assert Saved(c0, p0, r, 0) == c0[p0..p0 + chunk];
      } else {
        PosInDoc(lines, ring, Dot());
        NoStep(c0, p0, last0);
        r := 0;
      }
    }

    /**
     * One pass of ldelete's loop with m bytes still to go: a line end when
     * dot is at the end of its line, otherwise as much of the rest of the dot
     * line as m allows.  `taken` is what a successful pass counts off m.
     */
    method DeleteStep(m: nat, kflag: bool, kb: KillBuffer, mem: Allocator)
      returns (ok: bool, taken: nat, ghost r: nat, ghost ph: nat)
      requires Valid() && DotInLine() && 0 < m && kb.Valid()
      modifies this`lines, this`ring, this`windows, this`buffers, this`nextHandle, kb.Repr, mem
      ensures Valid() && DotInLine() && kb.Valid() && fresh(kb.Repr - old(kb.Repr))
      ensures PassOk(old(Contents()), old(Point()), old(AtLastEnd()), old(kb.Contents()),
                     Contents(), Point(), AtLastEnd(), kb.Contents(), r, ph, kflag, ok)
      ensures r + ph <= m && (ok ==> 0 < taken == r + ph)
      ensures AllYes(old(mem.script)) ==> AllYes(mem.script)
      ensures !ok ==> OnHeader() || !AllYes(old(mem.script))
    {
      var dotp, doto := windows[cur].dot.p, windows[cur].dot.o;
      if dotp == ring[0] {
        PosInDoc(lines, ring, Dot());
        NoStep(Contents(), Point(), AtLastEnd());
        return false, 0, 0, 0;
      }
      var chunk := lines[dotp].used - doto;
      if chunk > m {
        chunk := m;
      }
      if chunk == 0 {
        ok, r, ph := LineEndPass(kflag, kb, mem);
        taken := 1;
      } else {
        ok, r := ChunkPass(chunk, kflag, kb, mem);
        taken, ph := chunk, 0;
      }
    }

    /** A pass of ldelete's loop, keeping the loop's account of the text d it started on and the kill buffer. */
    method DeletePass(m: nat, kflag: bool, kb: KillBuffer, mem: Allocator, ghost d: seq<byte>, ghost p: int,
                      ghost killed: seq<byte>, ghost removed: nat, ghost phantom: nat)
      returns (ok: bool, taken: nat, ghost removed': nat, ghost phantom': nat)
      requires Valid() && DotInLine() && 0 < m && kb.Valid()
      requires Deleted(d, p, Contents(), Point(), AtLastEnd(), removed, phantom)
      requires kflag ==> Killed(killed, d, p, removed, phantom, kb.Contents())
      requires !kflag ==> kb.Contents() == killed
      modifies this`lines, this`ring, this`windows, this`buffers, this`nextHandle, kb.Repr, mem
      ensures Valid() && DotInLine() && kb.Valid() && fresh(kb.Repr - old(kb.Repr))
      ensures Deleted(d, p, Contents(), Point(), AtLastEnd(), removed', phantom')
      ensures removed' + phantom' <= removed + phantom + m
      ensures ok ==> 0 < taken <= m && removed' + phantom' == removed + phantom + taken
      ensures kflag && ok ==> Killed(killed, d, p, removed', phantom', kb.Contents())
      ensures !kflag ==> kb.Contents() == killed
      ensures AllYes(old(mem.script)) ==> AllYes(mem.script)
      ensures !ok ==> OnHeader() || !AllYes(old(mem.script))
    {
      ghost var c0, p0, last0, k0 := Contents(), Point(), AtLastEnd(), kb.Contents();
      ghost var r, ph;
      ok, taken, r, ph := DeleteStep(m, kflag, kb, mem);
      PassAccount(killed, d, p, removed, phantom, c0, p0, last0, k0, Contents(), Point(), AtLastEnd(), kb.Contents(),
                  r, ph, kflag, ok);
      removed', phantom' := removed + r, phantom + ph;
    }

    /** ldelete's loop, keeping its account of the text d it started on and the kill buffer. */
    method DeleteLoop(n: nat, kflag: bool, kb: KillBuffer, mem: Allocator, ghost d: seq<byte>, ghost p: int,
                      ghost killed: seq<byte>)
      returns (ok: bool, ghost removed: nat, ghost phantom: nat)
      requires Valid() && DotInLine() && kb.Valid()
      requires Deleted(d, p, Contents(), Point(), AtLastEnd(), 0, 0)
      requires kflag ==> Killed(killed, d, p, 0, 0, kb.Contents())
      requires !kflag ==> kb.Contents() == killed
      modifies this`lines, this`ring, this`windows, this`buffers, this`nextHandle, kb.Repr, mem
      ensures Valid() && DotInLine() && kb.Valid() && fresh(kb.Repr - old(kb.Repr))
      ensures Deleted(d, p, Contents(), Point(), AtLastEnd(), removed, phantom)
      ensures removed + phantom <= n && (ok ==> removed + phantom == n)
      ensures kflag && ok ==> Killed(killed, d, p, removed, phantom, kb.Contents())
      ensures !kflag ==> kb.Contents() == killed
      ensures !ok ==> 0 < n && (OnHeader() || !AllYes(old(mem.script)))
    {
      removed, phantom := 0, 0;
      var m := n;
      while m != 0
        invariant Valid() && DotInLine() && 0 <= m <= n && removed + phantom == n - m
        invariant kb.Valid() && fresh(kb.Repr - old(kb.Repr))
        invariant Deleted(d, p, Contents(), Point(), AtLastEnd(), removed, phantom)
        invariant kflag ==> Killed(killed, d, p, removed, phantom, kb.Contents())
        invariant !kflag ==> kb.Contents() == killed
        invariant AllYes(old(mem.script)) ==> AllYes(mem.script)
        decreases m
      {
        var stepped, taken;
        stepped, taken, removed, phantom := DeletePass(m, kflag, kb, mem, d, p, killed, removed, phantom);
        if !stepped {
          return false, removed, phantom;
        }
        m := m - taken;
      }
      return true, removed, phantom;
    }

    /**
     * ldelete: delete n bytes forward from dot, a line end counting as one
     * byte, saving them to the kill buffer when kflag is set.  FALSE when dot
     * runs into the end of the buffer or storage runs out.  Of the n steps,
     * `removed` took a byte out of the text and `phantom` were line ends
     * reported joined at the end of a non-empty last line.
     */
    method Ldelete(n: int, kflag: bool, kb: KillBuffer, mem: Allocator) returns (ok: bool, ghost removed: nat, ghost phantom: nat)
      requires Valid() && DotInLine() && 0 <= n && kb.Valid()
      modifies this`lines, this`ring, this`windows, this`buffers, this`nextHandle, kb.Repr, mem
      ensures Valid() && DotInLine() && kb.Valid() && fresh(kb.Repr - old(kb.Repr))
      ensures old(Point()) + removed <= |old(Contents())| && Point() == old(Point())
      ensures Contents() == old(Contents())[..old(Point())] + old(Contents())[old(Point()) + removed..]
      ensures removed + phantom <= n && (ok ==> removed + phantom == n)
      ensures phantom > 0 ==> AtLastEnd() && old(Point()) + removed + 1 == |old(Contents())|
      ensures kflag && ok ==> kb.Contents() == old(kb.Contents()) + old(Contents())[old(Point())..old(Point()) + removed]
                                                + Repeat([NL], phantom)
      ensures !kflag ==> kb.Contents() == old(kb.Contents())
      ensures !ok ==> 0 < n && (OnHeader() || !AllYes(old(mem.script)))
    {
      ghost var d, p, killed := Contents(), Point(), kb.Contents();
      PosInDoc(lines, ring, Dot());
      SplitJoin(d, p);
      assert Killed(killed, d, p, 0, 0, killed) by {
        assert Saved(d, p, 0, 0) == [];
      }
      ok, removed, phantom := DeleteLoop(n, kflag, kb, mem, d, p, killed);
    }

    /** linsert's walk over the window list, adjusting each window for chars characters inserted at oldpos. */
    method FixForInsert(oldpos: Pos, newlp: Handle, chars: int)
      requires forall i :: 0 <= i < |windows| ==> windows[i].count <= |windows[i].ring|
      requires cur < |windows| && curbuf < |buffers| && RingOk(lines, ring, nextHandle)
      requires var r := InsertAll(windows, cur, oldpos, newlp, chars);
               WindowsOk(r, curbuf, ring) && r[cur].bufp == curbuf
      modifies this`windows
      ensures Valid()
      ensures windows == InsertAll(old(windows), cur, oldpos, newlp, chars)
      ensures cur < |old(windows)| && old(windows[cur].dot) == oldpos ==> windows[cur].dot == Pos(newlp, oldpos.o + chars)
    {
      var i := 0;
      while i < |windows|
        invariant 0 <= i <= |windows| == |old(windows)|
        invariant forall j :: 0 <= j < i ==> windows[j] == InsertFix(old(windows[j]), j == cur, oldpos, newlp, chars)
        invariant forall j :: i <= j < |windows| ==> windows[j] == old(windows[j])
      {
        var w := windows[i];
        var dot := w.dot;
        if dot.p == oldpos.p {
          dot := dot.(p := newlp);
          if i == cur || dot.o > oldpos.o {
            dot := dot.(o := dot.o + chars);
          }
        }
        var adjusted := AdjustForInsert(w.ring, w.count, oldpos, newlp, chars);
        windows := windows[i := w.(linep := Retarget(w.linep, oldpos.p, newlp),
                                   savep := Retarget(w.savep, oldpos.p, newlp),
                                   dot := dot, ring := adjusted)];
        i := i + 1;
      }
      assert windows == InsertAll(old(windows), cur, oldpos, newlp, chars);
    }

    /** linsert at the end of the buffer, once lp2 has been allocated: lp2 takes the bytes and goes last. */
    method InsertAtEnd(lp2: Handle, n: nat, unit: seq<byte>, s: Option<seq<byte>>, chars: int)
      requires Valid() && Dot().p == ring[0] && (s.Some? ==> n <= |s.value|) && 1 <= |unit|
      requires lp2 in lines && lp2 !in ring && lines[lp2] == Fresh(|Payload(n, unit, s)|)
      modifies this`lines, this`ring, this`windows
      ensures Valid()
      ensures lines == old(lines)[lp2 := Filled(Payload(n, unit, s))]
      ensures ring == old(ring) + [lp2]
      ensures windows == InsertAll(old(windows), cur, old(Dot()), lp2, chars)
      ensures Dot() == Pos(lp2, old(Dot().o) + chars)
    {
      var oldpos := windows[cur].dot;
      var l := FillLine(lines[lp2], n, unit, s);
      UpdateOk(lines, ring, nextHandle, lp2, l);
      LinkBeforeOk(lines[lp2 := l], ring, nextHandle, 0, lp2);
      InsertAllOk(windows, curbuf, ring, ring + [lp2], cur, oldpos, lp2, chars);
      lines := lines[lp2 := l];
      ring := ring + [lp2];
      FixForInsert(oldpos, lp2, chars);
    }

    /** linsert's hard case, once lp2 has been allocated: lp2 replaces the dot line, which is released. */
    method InsertRegrown(ghost lines0: map<Handle, Line>, lp2: Handle, offset: nat, n: nat, unit: seq<byte>,
                         s: Option<seq<byte>>, chars: int)
      requires Valid() && Dot().p != ring[0] && (s.Some? ==> n <= |s.value|) && 1 <= |unit|
      requires offset <= lines[Dot().p].used && lp2 !in lines0
      requires lines == lines0[lp2 := Fresh(lines[Dot().p].used + |Payload(n, unit, s)|)] && lp2 !in ring
      modifies this`lines, this`ring, this`windows
      ensures Valid()
      ensures var lp := old(Dot().p);
              && lines == (lines0 - {lp})[lp2 := Regrown(lines0[lp], offset, Payload(n, unit, s))]
              && ring == old(ring)[IndexOf(old(ring), lp) := lp2]
              && windows == InsertAll(old(windows), cur, old(Dot()), lp2, chars)
      ensures Dot() == Pos(lp2, old(Dot().o) + chars)
    {
      var oldpos := windows[cur].dot;
      var nl := RegrowLine(lines[oldpos.p], offset, lines[lp2], n, unit, s);
      var k := IndexOf(ring, oldpos.p);
      ReplaceOk(lines, ring, nextHandle, k, lp2);
      UpdateOk(lines - {oldpos.p}, ring[k := lp2], nextHandle, lp2, nl);
      ReplaceKeeps(ring, k, lp2);
      InsertAllOk(windows, curbuf, ring, ring[k := lp2], cur, oldpos, lp2, chars);
      assert InsertAll(windows, cur, oldpos, lp2, chars)[cur].bufp == curbuf;
      Reallocated(lines0, lp2, lines[lp2], oldpos.p, nl);
      lines := (lines - {oldpos.p})[lp2 := nl];
      ring := ring[k := lp2];
      FixForInsert(oldpos, lp2, chars);
    }

    /** linsert's easy case: the bytes fit in the dot line's spare room. */
    method InsertInPlace(offset: nat, n: nat, unit: seq<byte>, s: Option<seq<byte>>, chars: int)
      requires Valid() && Dot().p != ring[0] && (s.Some? ==> n <= |s.value|) && 1 <= |unit|
      requires offset <= lines[Dot().p].used && lines[Dot().p].used + |Payload(n, unit, s)| <= Size(lines[Dot().p])
      modifies this`lines, this`windows
      ensures Valid()
      ensures var lp := old(Dot().p);
              && lines == old(lines)[lp := Opened(old(lines[lp]), offset, Payload(n, unit, s))]
              && windows == InsertAll(old(windows), cur, old(Dot()), lp, chars)
      ensures Dot() == Pos(old(Dot().p), old(Dot().o) + chars)
    {
      var oldpos := windows[cur].dot;
      var nl := OpenLine(lines[oldpos.p], offset, n, unit, s);
      UpdateOk(lines, ring, nextHandle, oldpos.p, nl);
      InsertAllOk(windows, curbuf, ring, ring, cur, oldpos, oldpos.p, chars);
      lines := lines[oldpos.p := nl];
      FixForInsert(oldpos, oldpos.p, chars);
    }

    /**
     * lnewline: split the dot line at dot.  Its first doto bytes move to a
     * new line linked in before it; windows follow the text they pointed at.
     */
    method Lnewline(mem: Allocator) returns (ok: bool)
      requires Valid() && DotInLine()
      modifies this, mem
      ensures Valid()
      ensures undo == old(undo) && cur == old(cur) && curbuf == old(curbuf)
      ensures ok == old(mem.NextOk()) && mem.script == old(mem.After())
      ensures buffers == old(buffers)[curbuf := old(buffers[curbuf]).(changed := true)]
      ensures !ok ==> lines == old(lines) && ring == old(ring) && nextHandle == old(nextHandle)
      ensures !ok ==> windows == old(Flagging({Hard}))
      ensures ok ==> var lp1, doto, lp2 := old(Dot().p), old(Dot().o), old(nextHandle);
                     && lines == old(lines)[lp2 := Head(old(lines[lp1]), doto)][lp1 := Tail(old(lines[lp1]), doto)]
                     && ring == LinkBefore(old(ring), IndexOf(old(ring), lp1), lp2)
                     && nextHandle == old(nextHandle) + 1
      ensures ok ==> windows == SplitAll(old(Flagging({Hard})), old(Dot().p), old(nextHandle), old(Dot().o))
    {
      Lchange({Hard});
      ghost var lines0 := lines;
      var r := Lalloc(Dot().o, mem);
      if r.None? {
        return false;
      }
      SplitInto(r.value);
      Overwrite(lines0, r.value, Fresh(old(Dot().o)), Head(lines0[old(Dot().p)], old(Dot().o)));
      ok := true;
    }

    /** linsert at the end of the buffer: allocate the new line, then fill it and link it in. */
    method AllocAtEnd(n: nat, unit: seq<byte>, s: Option<seq<byte>>, bytes: nat, chars: int, mem: Allocator)
      returns (ok: bool)
      requires Valid() && Dot().p == ring[0] && (s.Some? ==> n <= |s.value|) && 1 <= |unit|
      requires bytes == |Payload(n, unit, s)|
      modifies this`lines, this`ring, this`windows, this`nextHandle, mem
      ensures Valid()
      ensures ok == old(mem.NextOk()) && mem.script == old(mem.After())
      ensures !ok ==> lines == old(lines) && ring == old(ring) && nextHandle == old(nextHandle) && windows == old(windows)
      ensures ok ==> var lp2 := old(nextHandle);
                     && lines == old(lines)[lp2 := Filled(Payload(n, unit, s))]
                     && ring == old(ring) + [lp2] && nextHandle == old(nextHandle) + 1
                     && windows == InsertAll(old(windows), cur, old(Dot()), lp2, chars)
                     && Dot() == Pos(lp2, old(Dot().o) + chars)
    {
      ghost var lines0 := lines;
      var r := Lalloc(bytes, mem);
      if r.None? {
        return false;
      }
      InsertAtEnd(r.value, n, unit, s, chars);
      Overwrite(lines0, r.value, Fresh(bytes), Filled(Payload(n, unit, s)));
      ok := true;
    }

    /** linsert's hard case: allocate the larger line, then copy into it and swap it for the dot line. */
    method AllocRegrown(offset: nat, n: nat, unit: seq<byte>, s: Option<seq<byte>>, bytes: nat, chars: int,
                        mem: Allocator) returns (ok: bool)
      requires Valid() && Dot().p != ring[0] && (s.Some? ==> n <= |s.value|) && 1 <= |unit|
      requires bytes == |Payload(n, unit, s)| && offset <= lines[Dot().p].used
      modifies this`lines, this`ring, this`windows, this`nextHandle, mem
      ensures Valid()
      ensures ok == old(mem.NextOk()) && mem.script == old(mem.After())
      ensures !ok ==> lines == old(lines) && ring == old(ring) && nextHandle == old(nextHandle) && windows == old(windows)
      ensures ok ==> var lp, lp2 := old(Dot().p), old(nextHandle);
                     && lines == (old(lines) - {lp})[lp2 := Regrown(old(lines[lp]), offset, Payload(n, unit, s))]
                     && ring == old(ring)[IndexOf(old(ring), lp) := lp2] && nextHandle == old(nextHandle) + 1
                     && windows == InsertAll(old(windows), cur, old(Dot()), lp2, chars)
                     && Dot() == Pos(lp2, old(Dot().o) + chars)
    {
      ghost var lines0 := lines;
      var lp := windows[cur].dot.p;
      var r := Lalloc(lines[lp].used + bytes, mem);
      if r.None? {
        return false;
      }
      InsertRegrown(lines0, r.value, offset, n, unit, s, chars);
      ok := true;
    }

    /** linsert once the offset is known: the three ways the bytes can go in, and the window update. */
    method Place(ghost st: Store, dot: Pos, offset: int, n: nat, unit: seq<byte>, s: Option<seq<byte>>, bytes: nat, chars: nat,
                 mem: Allocator) returns (ok: bool)
      requires Valid() && st == Store(lines, ring, windows, nextHandle)
      requires dot == Dot() && (s.Some? ==> n <= |s.value|) && 1 <= |unit|
      requires bytes == |Payload(n, unit, s)| && chars <= bytes
      requires dot.p != ring[0] ==> 0 <= offset <= lines[dot.p].used
      modifies this`lines, this`ring, this`windows, this`nextHandle, mem
      ensures Valid()
      ensures ok == (InsertAllowed(st, dot, offset)
                     && (InsertAllocates(st, dot, bytes) ==> old(mem.NextOk())))
      ensures mem.script == if InsertAllowed(st, dot, offset) && InsertAllocates(st, dot, bytes)
                            then old(mem.After()) else old(mem.script)
      ensures Store(lines, ring, windows, nextHandle) == if ok then InsertResult(st, cur, dot, offset, Payload(n, unit, s), chars)
                            else st
      ensures buffers == old(buffers) && undo == old(undo)
      ensures old(DotInLine()) ==> DotInLine()
    {
      if dot.p == ring[0] {
        if offset != 0 {
          return false;
        }
        ok := AllocAtEnd(n, unit, s, bytes, chars, mem);
      } else if lines[dot.p].used + bytes > Size(lines[dot.p]) {
        ok := AllocRegrown(offset, n, unit, s, bytes, chars, mem);
      } else {
        InsertInPlace(offset, n, unit, s, chars);
        ok := true;
      }
    }

    /** The first half of linsert: lchange, the byte offset of dot, the counts, and the undo record. */
    method Prepare(n: nat, c: int, s: Option<seq<byte>>, uclen: CharLength, wloffset: (seq<byte>, int) -> int)
      returns (dot: Pos, offset: int, unit: seq<byte>, chars: nat, bytes: nat)
      requires Valid() && (s.Some? ==> n <= |s.value|)
      modifies this`windows, this`buffers, this`undo
      ensures Valid() && dot == Dot() == old(Dot())
      ensures buffers == old(buffers)[curbuf := old(buffers[curbuf]).(changed := true)]
      ensures undo == old(undo) + [InsertRecord(uclen, n, c, s)]
      ensures Store(lines, ring, windows, nextHandle) == Store(old(lines), old(ring), old(Flagging({Edit})), old(nextHandle))
      ensures offset == wloffset(old(Text(lines[Dot().p])), dot.o)
      ensures 1 <= |unit| && Payload(n, unit, s) == Inserted(n, c, s)
      ensures chars == InsertedChars(uclen, n, s) && bytes == |Inserted(n, c, s)|
    {
      Lchange({Edit});
      dot := windows[cur].dot;
      offset := wloffset(Text(lines[dot.p]), dot.o);
      unit, chars, bytes := Measure(uclen, n, c, s);
      undo := undo + [InsertRecord(uclen, n, c, s)];
    }

    /** linsert once the buffer is known to be writable: mark the change, record the undo, put the bytes in. */
    method InsertWritable(n: nat, c: int, s: Option<seq<byte>>, uclen: CharLength,
                          wloffset: (seq<byte>, int) -> int, mem: Allocator) returns (ok: bool)
      requires Valid() && (s.Some? ==> n <= |s.value|)
      requires Dot().p != ring[0] ==> 0 <= wloffset(Text(lines[Dot().p]), Dot().o) <= lines[Dot().p].used
      modifies this`lines, this`ring, this`windows, this`buffers, this`nextHandle, this`undo, mem
      ensures Valid()
      ensures old(DotInLine()) ==> DotInLine()
      ensures buffers == old(buffers)[curbuf := old(buffers[curbuf]).(changed := true)]
      ensures undo == old(undo) + [InsertRecord(uclen, n, c, s)]
      ensures var st, dot := Store(old(lines), old(ring), old(Flagging({Edit})), old(nextHandle)), old(Dot());
              var offset, ins := wloffset(old(Text(lines[Dot().p])), dot.o), Inserted(n, c, s);
              && ok == (InsertAllowed(st, dot, offset) && (InsertAllocates(st, dot, |ins|) ==> old(mem.NextOk())))
              && mem.script == (if InsertAllowed(st, dot, offset) && InsertAllocates(st, dot, |ins|)
                                then old(mem.After()) else old(mem.script))
              && Store(lines, ring, windows, nextHandle) == if ok then InsertResult(st, cur, dot, offset, ins, InsertedChars(uclen, n, s)) else st
    {
      var dot, offset, unit, chars, bytes := Prepare(n, c, s, uclen, wloffset);
      ghost var st := Store(lines, ring, windows, nextHandle);
      assert st == Store(old(lines), old(ring), old(Flagging({Edit})), old(nextHandle));
      assert dot == old(Dot()) && offset == wloffset(old(Text(lines[Dot().p])), dot.o);
      ok := Place(st, dot, offset, n, unit, s, bytes, chars, mem);
    }

    /**
     * linsert: insert n copies of character c, or the first n bytes of s, at dot.
     * wloffset turns dot's offset into the byte offset the bytes go in at; uclen
     * is the announced length of a UTF-8 lead byte.
     */
    method Linsert(n: nat, c: int, s: Option<seq<byte>>, writable: bool, uclen: CharLength,
                   wloffset: (seq<byte>, int) -> int, mem: Allocator) returns (ok: bool)
      requires Valid() && (s.Some? ==> n <= |s.value|)
      requires Dot().p != ring[0] ==> 0 <= wloffset(Text(lines[Dot().p]), Dot().o) <= lines[Dot().p].used
      modifies this`lines, this`ring, this`windows, this`buffers, this`nextHandle, this`undo, mem
      ensures Valid()
      ensures old(DotInLine()) ==> DotInLine()
      ensures !writable ==> !ok && unchanged(this) && mem.script == old(mem.script)
      ensures writable ==> buffers == old(buffers)[curbuf := old(buffers[curbuf]).(changed := true)]
                           && undo == old(undo) + [InsertRecord(uclen, n, c, s)]
      ensures writable ==>
                var st, dot := Store(old(lines), old(ring), old(Flagging({Edit})), old(nextHandle)), old(Dot());
                var offset, ins := wloffset(old(Text(lines[Dot().p])), dot.o), Inserted(n, c, s);
                && ok == (InsertAllowed(st, dot, offset) && (InsertAllocates(st, dot, |ins|) ==> old(mem.NextOk())))
                && mem.script == (if InsertAllowed(st, dot, offset) && InsertAllocates(st, dot, |ins|)
                                  then old(mem.After()) else old(mem.script))
                && Store(lines, ring, windows, nextHandle) == if ok then InsertResult(st, cur, dot, offset, ins, InsertedChars(uclen, n, s)) else st
    {
      if !writable {
        return false;
      }
      ok := InsertWritable(n, c, s, uclen, wloffset, mem);
    }

    /** lnewline read as an edit of the text. */
    method NewlineText(mem: Allocator) returns (ok: bool)
      requires Valid() && DotInLine()
      modifies this, mem
      ensures Valid() && DotInLine() && cur == old(cur)
      ensures NewlineTextStep(old(Contents()), old(Point()), old(OnHeader()), Contents(), Point(), OnHeader(), ok)
      ensures AllYes(old(mem.script)) ==> ok && AllYes(mem.script)
    {
      ghost var st := Store(lines, ring, Flagging({Hard}), nextHandle);
      assert st.windows[cur].dot == Dot();
      ok := Lnewline(mem);
      NewlineStepDoc(st, cur, ok, Store(lines, ring, windows, nextHandle));
    }

    /** linsert of the bytes ins read as an edit of the text, when offsets are byte offsets and every byte is a character. */
    method InsertText(ins: seq<byte>, writable: bool, uclen: CharLength, wloffset: (seq<byte>, int) -> int, mem: Allocator)
      returns (ok: bool)
      requires Valid() && DotInLine() && 0 < |ins| && WithinLine(wloffset)
      modifies this`lines, this`ring, this`windows, this`buffers, this`nextHandle, this`undo, mem
      ensures Valid() && DotInLine()
      ensures ByteOffsets(wloffset) && SingleBytes(uclen, ins) ==>
                InsertStep(old(Contents()), old(Point()), old(OnHeader()), Contents(), Point(), OnHeader(), ins, ok)
      ensures AllYes(old(mem.script)) ==> AllYes(mem.script)
      ensures !ok ==> !writable || !AllYes(old(mem.script))
    {
      ghost var st := Store(lines, ring, Flagging({Edit}), nextHandle);
      assert st.windows[cur].dot == Dot();
      PosInDoc(lines, ring, Dot());
      ok := Linsert(|ins|, 0, Some(ins), writable, uclen, wloffset, mem);
      if writable && ByteOffsets(wloffset) && SingleBytes(uclen, ins) {
        LinsertStep(st, cur, ins, uclen, wloffset, ok, Store(lines, ring, windows, nextHandle));
      }
    }

    /** linsert of the run s[i..j] in insertwithnl, carrying its progress along. */
    method InsertRun(s: seq<byte>, i: nat, j: nat, writable: bool, uclen: CharLength, wloffset: (seq<byte>, int) -> int,
                     mem: Allocator, ghost d: seq<byte>, ghost p: int, ghost pad: seq<byte>)
      returns (ok: bool, ghost pad': seq<byte>)
      requires Valid() && DotInLine() && WithinLine(wloffset) && i < j <= |s| && s[i] != NL
      requires Exact(uclen, wloffset, s) ==> Progress(d, p, s, i, pad, Contents(), Point(), OnHeader())
      modifies this`lines, this`ring, this`windows, this`buffers, this`nextHandle, this`undo, mem
      ensures Valid() && DotInLine()
      ensures Exact(uclen, wloffset, s) ==> Progress(d, p, s, if ok then j else i, pad', Contents(), Point(), OnHeader())
      ensures AllYes(old(mem.script)) ==> AllYes(mem.script)
      ensures !ok ==> !writable || !AllYes(old(mem.script))
    {
      ghost var c0, p0, h0 := Contents(), Point(), OnHeader();
      ok := InsertText(s[i..j], writable, uclen, wloffset, mem);
      pad' := pad;
      if Exact(uclen, wloffset, s) {
        SingleBytesSlice(uclen, s, i, j);
        pad' := InsertProgress(d, p, s, i, j, pad, c0, p0, h0, Contents(), Point(), OnHeader(), ok);
      }
    }

    /** lnewline for the line end s[j] in insertwithnl, carrying its progress along. */
    method NewlineRun(s: seq<byte>, j: nat, uclen: CharLength, wloffset: (seq<byte>, int) -> int,
                      mem: Allocator, ghost d: seq<byte>, ghost p: int, ghost pad: seq<byte>)
      returns (ok: bool)
      requires Valid() && DotInLine() && j < |s| && s[j] == NL
      requires Exact(uclen, wloffset, s) ==> Progress(d, p, s, j, pad, Contents(), Point(), OnHeader())
      modifies this, mem
      ensures Valid() && DotInLine()
      ensures Exact(uclen, wloffset, s) ==> Progress(d, p, s, if ok then j + 1 else j, pad, Contents(), Point(), OnHeader())
      ensures AllYes(old(mem.script)) ==> ok && AllYes(mem.script)
    {
      ghost var c0, p0, h0 := Contents(), Point(), OnHeader();
      ok := NewlineText(mem);
      if Exact(uclen, wloffset, s) {
        NewlineProgress(d, p, s, j, pad, c0, p0, h0, Contents(), Point(), OnHeader(), ok);
      }
    }

    /**
     * One trip round insertwithnl's loop from s[i]: the run up to the next line
     * end (or the end of s) by linsert, then that line end by lnewline.  The
     * loop goes on from `next`; `done` bytes of s are in.
     */
    method InsertPass(s: seq<byte>, i: nat, writable: bool, uclen: CharLength, wloffset: (seq<byte>, int) -> int,
                      mem: Allocator, ghost d: seq<byte>, ghost p: int, ghost pad: seq<byte>)
      returns (ok: bool, next: nat, ghost done: nat, ghost pad': seq<byte>)
      requires WithinLine(wloffset) && i < |s| && Inserting(uclen, wloffset, s, d, p, i, pad)
      modifies this, mem
      ensures Inserting(uclen, wloffset, s, d, p, done, pad')
      ensures i < next <= |s| && i <= done <= next && (ok ==> done == next) && (!ok ==> done < |s|)
      ensures AllYes(old(mem.script)) ==> AllYes(mem.script)
      ensures !ok ==> !writable || !AllYes(old(mem.script))
    {
      var nl := FindNl(s, i);
      if nl.None? {
        ok, pad' := InsertRun(s, i, |s|, writable, uclen, wloffset, mem, d, p, pad);
        done := if ok then |s| else i;
        return ok, |s|, done, pad';
      }
      next := nl.value + 1;
      ok, done, pad' := LinePass(s, i, nl.value, writable, uclen, wloffset, mem, d, p, pad);
    }

    /** A trip round insertwithnl's loop that ends at the line end s[j]: the run s[i..j], if any, then the line end. */
    method LinePass(s: seq<byte>, i: nat, j: nat, writable: bool, uclen: CharLength, wloffset: (seq<byte>, int) -> int,
                    mem: Allocator, ghost d: seq<byte>, ghost p: int, ghost pad: seq<byte>)
      returns (ok: bool, ghost done: nat, ghost pad': seq<byte>)
      requires WithinLine(wloffset) && i <= j < |s| && s[j] == NL && NL !in s[i..j]
      requires Inserting(uclen, wloffset, s, d, p, i, pad)
      modifies this, mem
      ensures Inserting(uclen, wloffset, s, d, p, done, pad')
      ensures i <= done <= j + 1 && (ok <==> done == j + 1)
      ensures AllYes(old(mem.script)) ==> AllYes(mem.script)
      ensures !ok ==> !writable || !AllYes(old(mem.script))
    {
      pad' := pad;
      if j != i {
        assert s[i] == s[i..j][0];
        ok, pad' := InsertRun(s, i, j, writable, uclen, wloffset, mem, d, p, pad);
        if !ok {
          return false, i, pad';
        }
      }
      ok := NewlineRun(s, j, uclen, wloffset, mem, d, p, pad');
      done := if ok then j + 1 else j;
    }

    /**
     * insertwithnl: put the bytes of s in at dot, each line end in s by
     * lnewline and each run between them by linsert, stopping at the first
     * failure.  With byte offsets and single-byte characters, the text ends up
     * with the first `done` bytes of s in at the old point, dot just after
     * them; `done` is all of s exactly when the result is TRUE.  When the
     * insertion began at the end of the text and a byte other than a line end
     * went in, that byte started a new last line, and a line end follows.
     */
    method InsertWithNl(s: seq<byte>, writable: bool, uclen: CharLength, wloffset: (seq<byte>, int) -> int,
                        mem: Allocator) returns (status: bool, ghost done: nat)
      requires Valid() && DotInLine() && WithinLine(wloffset)
      modifies this, mem
      ensures Valid() && DotInLine()
      ensures done <= |s| && (status <==> done == |s|)
      ensures Exact(uclen, wloffset, s) ==>
                var d, p := old(Contents()), old(Point());
                && 0 <= p <= |d| && Point() == p + done
                && Contents() == Spliced(d, p, s, done, if p == |d| && !OnlyLineEnds(s[..done]) then [NL] else [])
      ensures !status ==> !writable || !AllYes(old(mem.script))
    {
      ghost var d, p := Contents(), Point();
      ghost var pad: seq<byte> := [];
      PosBeforeEnd(lines, ring, Dot());
      assert Spliced(d, p, s, 0, []) == d;
      status, done, pad := InsertLoop(s, writable, uclen, wloffset, mem, d, p);
    }

    /** insertwithnl's loop: pass after pass until s is used up or a pass fails. */
    method InsertLoop(s: seq<byte>, writable: bool, uclen: CharLength, wloffset: (seq<byte>, int) -> int,
                      mem: Allocator, ghost d: seq<byte>, ghost p: int)
      returns (status: bool, ghost done: nat, ghost pad: seq<byte>)
      requires WithinLine(wloffset) && Inserting(uclen, wloffset, s, d, p, 0, [])
      modifies this, mem
      ensures Inserting(uclen, wloffset, s, d, p, done, pad)
      ensures done <= |s| && (status <==> done == |s|)
      ensures !status ==> !writable || !AllYes(old(mem.script))
    {
      status, done, pad := true, 0, [];
      var i := 0;
      while status && i < |s|
        invariant Inserting(uclen, wloffset, s, d, p, done, pad)
        invariant done <= i <= |s| && (status ==> done == i) && (!status ==> done < |s|)
        invariant AllYes(old(mem.script)) ==> AllYes(mem.script)
        invariant !status ==> !writable || !AllYes(old(mem.script))
        decreases |s| - i, status
      {
        status, i, done, pad := InsertPass(s, i, writable, uclen, wloffset, mem, d, p, pad);
      }
    }
  }
}
