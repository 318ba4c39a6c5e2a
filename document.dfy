/*
 * A buffer's text as one byte sequence: the text of every line of the ring
 * after the header, each followed by its line end.  A position (a line and a
 * byte offset in it) is an index into that sequence, the header standing for
 * its end, and each edit line.c makes to the ring is a splice of it.
 */
module Document {
  import opened Utf8
  import opened Lines
  import opened Ring
  import opened Positions

  /** Every entry of hs has a line record. */
  predicate Stored(lines: map<Handle, Line>, hs: seq<Handle>)
  {
    forall i :: 0 <= i < |hs| ==> hs[i] in lines
  }

  /** The lines hs in order, each followed by a line end. */
  function DocOf(lines: map<Handle, Line>, hs: seq<Handle>): seq<byte>
    requires Stored(lines, hs)
  {
    if hs == [] then [] else DocOf(lines, hs[..|hs| - 1]) + Text(lines[hs[|hs| - 1]]) + [NL]
  }

  /** The text of the buffer whose ring, header first, is `ring`. */
  function Doc(lines: map<Handle, Line>, ring: seq<Handle>): seq<byte>
    requires 1 <= |ring| && Stored(lines, ring)
  {
    DocOf(lines, ring[1..])
  }

  /** Where entry k of the ring starts in the text. */
  function LineStart(lines: map<Handle, Line>, ring: seq<Handle>, k: nat): nat
    requires 1 <= k <= |ring| && Stored(lines, ring)
  {
    |DocOf(lines, ring[1..k])|
  }

  /** The index of position q in the text; a position on the header is the end of the text. */
  function DocPos(lines: map<Handle, Line>, ring: seq<Handle>, q: Pos): int
    requires 1 <= |ring| && Stored(lines, ring) && q.p in ring
  {
    if q.p == ring[0] then |Doc(lines, ring)| else LineStart(lines, ring, IndexOf(ring, q.p)) + q.o
  }

  /** The text of two runs of lines is the one text followed by the other. */
  lemma {:induction false} DocOfConcat(lines: map<Handle, Line>, a: seq<Handle>, b: seq<Handle>)
    requires Stored(lines, a + b)
    ensures Stored(lines, a) && Stored(lines, b)
    ensures DocOf(lines, a + b) == DocOf(lines, a) + DocOf(lines, b)
    decreases |b|
  {
    assert forall i :: 0 <= i < |a| ==> a[i] == (a + b)[i];
    assert forall i :: 0 <= i < |b| ==> b[i] == (a + b)[|a| + i];
    if b == [] {
      assert a + b == a;
    } else {
      var b' := b[..|b| - 1];
      assert (a + b)[..|a + b| - 1] == a + b';
      DocOfConcat(lines, a, b');
    }
  }

  lemma DocOfOne(lines: map<Handle, Line>, h: Handle)
    requires h in lines
    ensures Stored(lines, [h]) && DocOf(lines, [h]) == Text(lines[h]) + [NL]
  {
    assert [h][..0] == [];
  }

  /** Lines that kept their text give the same text. */
  lemma {:induction false} DocOfSame(lines: map<Handle, Line>, lines': map<Handle, Line>, hs: seq<Handle>)
    requires Stored(lines, hs) && Stored(lines', hs)
    requires forall i :: 0 <= i < |hs| ==> Text(lines'[hs[i]]) == Text(lines[hs[i]])
    ensures DocOf(lines', hs) == DocOf(lines, hs)
    decreases |hs|
  {
    if hs != [] {
      DocOfSame(lines, lines', hs[..|hs| - 1]);
    }
  }

  /** Entries lo .. hi-1 of the ring keep their text. */
  ghost predicate Kept(lines: map<Handle, Line>, lines': map<Handle, Line>, ring: seq<Handle>, lo: nat, hi: nat)
    requires hi <= |ring| && Stored(lines, ring)
  {
    forall i :: lo <= i < hi ==> ring[i] in lines' && Text(lines'[ring[i]]) == Text(lines[ring[i]])
  }

  lemma KeptDoc(lines: map<Handle, Line>, lines': map<Handle, Line>, ring: seq<Handle>, lo: nat, hi: nat)
    requires lo <= hi <= |ring| && Stored(lines, ring) && Kept(lines, lines', ring, lo, hi)
    ensures Stored(lines, ring[lo..hi]) && Stored(lines', ring[lo..hi])
    ensures DocOf(lines', ring[lo..hi]) == DocOf(lines, ring[lo..hi])
  {
    var hs := ring[lo..hi];
    assert forall i :: 0 <= i < |hs| ==> hs[i] == ring[lo + i];
    DocOfSame(lines, lines', hs);
  }

  lemma KeptDocFrom(lines: map<Handle, Line>, lines': map<Handle, Line>, ring: seq<Handle>, lo: nat)
    requires lo <= |ring| && Stored(lines, ring) && Kept(lines, lines', ring, lo, |ring|)
    ensures Stored(lines, ring[lo..]) && Stored(lines', ring[lo..])
    ensures DocOf(lines', ring[lo..]) == DocOf(lines, ring[lo..])
  {
    var hs := ring[lo..];
    assert forall i :: 0 <= i < |hs| ==> hs[i] == ring[lo + i];
    DocOfSame(lines, lines', hs);
  }

  /** The text of a ring cut at k and k+j is the texts of the three parts. */
  lemma Parts(lines: map<Handle, Line>, ring: seq<Handle>, k: nat, j: nat)
    requires Stored(lines, ring) && 1 <= k <= k + j <= |ring|
    ensures Stored(lines, ring[1..k]) && Stored(lines, ring[k..k + j]) && Stored(lines, ring[k + j..])
    ensures Doc(lines, ring) == DocOf(lines, ring[1..k]) + DocOf(lines, ring[k..k + j]) + DocOf(lines, ring[k + j..])
  {
    var x, y, z := ring[1..k], ring[k..k + j], ring[k + j..];
    assert ring[1..] == x + y + z;
    DocOfConcat(lines, x + y, z);
    DocOfConcat(lines, x, y);
  }

  /**
   * Entries k .. k+j-1 of the ring replaced by the run `mid`, every other line
   * keeping its text: only their part of the text changes.
   */
  lemma Splice(lines: map<Handle, Line>, ring: seq<Handle>, lines': map<Handle, Line>, ring': seq<Handle>,
               k: nat, j: nat, mid: seq<Handle>)
    requires Stored(lines, ring) && 1 <= k <= k + j <= |ring|
    requires ring' == ring[..k] + mid + ring[k + j..] && Stored(lines', ring')
    requires Kept(lines, lines', ring, 1, k) && Kept(lines, lines', ring, k + j, |ring|)
    ensures Stored(lines, ring[1..k]) && Stored(lines, ring[k + j..]) && Stored(lines', mid)
    ensures Doc(lines', ring') == DocOf(lines, ring[1..k]) + DocOf(lines', mid) + DocOf(lines, ring[k + j..])
  {
    var x, z := ring[1..k], ring[k + j..];
    forall i | 0 <= i < |ring'| - 1
      ensures ring'[1..][i] == (x + mid + z)[i]
    {
      if i < k - 1 {
        assert ring'[1 + i] == ring[1 + i];
      }
    }
    assert ring'[1..] == x + mid + z;
    DocOfConcat(lines', x + mid, z);
    DocOfConcat(lines', x, mid);
    KeptDoc(lines, lines', ring, 1, k);
    KeptDocFrom(lines, lines', ring, k + j);
  }

  /** After a splice at k, the first i entries of `mid` start where their text starts. */
  lemma SpliceStart(lines: map<Handle, Line>, ring: seq<Handle>, lines': map<Handle, Line>, ring': seq<Handle>,
                    k: nat, j: nat, mid: seq<Handle>, i: nat)
    requires Stored(lines, ring) && 1 <= k <= k + j <= |ring| && i <= |mid|
    requires ring' == ring[..k] + mid + ring[k + j..] && Stored(lines', ring')
    requires Kept(lines, lines', ring, 1, k)
    ensures Stored(lines', mid[..i])
    ensures LineStart(lines', ring', k + i) == LineStart(lines, ring, k) + |DocOf(lines', mid[..i])|
  {
    assert ring'[1..k + i] == ring[1..k] + mid[..i];
    DocOfConcat(lines', ring[1..k], mid[..i]);
    KeptDoc(lines, lines', ring, 1, k);
  }

  /** Position q in the ring as an index into the text, for a line other than the header. */
  lemma PosAt(lines: map<Handle, Line>, ring: seq<Handle>, k: nat, o: int)
    requires Stored(lines, ring) && Distinct(ring) && 1 <= k < |ring|
    ensures DocPos(lines, ring, Pos(ring[k], o)) == LineStart(lines, ring, k) + o
  {
    DistinctIndexOf(ring, k);
  }

  /** The text around entry k: the lines before it, its own line and line end, the lines after it. */
  lemma Around(lines: map<Handle, Line>, ring: seq<Handle>, k: nat)
    requires Stored(lines, ring) && 1 <= k < |ring|
    ensures Stored(lines, ring[1..k]) && Stored(lines, ring[k + 1..])
    ensures Doc(lines, ring) == DocOf(lines, ring[1..k]) + Text(lines[ring[k]]) + [NL] + DocOf(lines, ring[k + 1..])
  {
    Parts(lines, ring, k, 1);
    assert ring[k..k + 1] == [ring[k]];
    DocOfOne(lines, ring[k]);
  }

  /** After entries k .. k+j-1 are replaced by a run starting with line h, offsets in h read as offsets in entry k. */
  lemma EntryPos(lines: map<Handle, Line>, ring: seq<Handle>, lines': map<Handle, Line>, ring': seq<Handle>,
                 k: nat, j: nat, mid: seq<Handle>, o: int)
    requires Stored(lines, ring) && Distinct(ring) && 1 <= k < k + j <= |ring|
    requires ring' == ring[..k] + mid + ring[k + j..] && Stored(lines', ring')
    requires Kept(lines, lines', ring, 1, k) && 1 <= |mid| && mid[0] !in ring[..k]
    ensures mid[0] in ring' && DocPos(lines', ring', Pos(mid[0], o)) == DocPos(lines, ring, Pos(ring[k], o))
  {
    SpliceStart(lines, ring, lines', ring', k, j, mid, 0);
    assert mid[..0] == [];
    PosAt(lines, ring, k, o);
    assert ring'[..k] == ring[..k] && ring'[k] == mid[0];
    IndexOfAt(ring', k);
    assert ring[0] in ring[..k];
  }

  /** lnewline at the header: an empty line goes in before it, and the header offset moves past its line end. */
  lemma SplitAtHeader(lines: map<Handle, Line>, ring: seq<Handle>, lp2: Handle, doto: nat)
    requires Stored(lines, ring) && Distinct(ring) && 1 <= |ring| && lp2 !in ring
    requires doto <= lines[ring[0]].used == 0
    ensures var lp1, l := ring[0], lines[ring[0]];
            var lines', ring' := SplitLines(lines, lp1, lp2, doto), LinkBefore(ring, 0, lp2);
            var d, p := Doc(lines, ring), DocPos(lines, ring, Pos(lp1, doto));
            && Stored(lines', ring') && lp1 in ring' && p <= |d|
            && Doc(lines', ring') == d[..p] + [NL] + d[p..]
            && DocPos(lines', ring', Pos(lp1, 0)) == p + 1
  {
    var lp1, l := ring[0], lines[ring[0]];
    var lines' := SplitLines(lines, lp1, lp2, doto);
    assert forall i :: 1 <= i < |ring| ==> ring[i] != lp1 && ring[i] != lp2;
    AppendDoc(lines, ring, lines', lp2, 0);
  }

  /** A line end put into d = a + t + [NL] + c, doto bytes into t, splits t in two. */
  lemma SplitSeq(d: seq<byte>, p: nat, a: seq<byte>, t: seq<byte>, c: seq<byte>, doto: nat)
    requires doto <= |t| && d == a + t + [NL] + c && p == |a| + doto
    ensures p <= |d| && d[..p] + [NL] + d[p..] == a + (t[..doto] + [NL] + t[doto..] + [NL]) + c
  {
    var l, r := d[..p] + [NL] + d[p..], a + (t[..doto] + [NL] + t[doto..] + [NL]) + c;
    forall i | 0 <= i < |r|
      ensures l[i] == r[i]
    {
      if i < p {
        assert l[i] == d[i];
      } else if i > p {
        assert l[i] == d[i - 1];
      }
    }
  }


  /** The lines lnewline leaves when it splits entry k at doto into a new line lp2 and the rest of entry k. */
  function SplitLines(lines: map<Handle, Line>, lp1: Handle, lp2: Handle, doto: nat): map<Handle, Line>
    requires lp1 in lines && doto <= lines[lp1].used
  {
    lines[lp2 := Head(lines[lp1], doto)][lp1 := Tail(lines[lp1], doto)]
  }

  /** The two halves of a split line, in order, read as the line with a line end at the split. */
  lemma SplitHalves(lines: map<Handle, Line>, lp1: Handle, lp2: Handle, doto: nat)
    requires lp1 in lines && doto <= lines[lp1].used && lp1 != lp2
    ensures var t := Text(lines[lp1]);
            Stored(SplitLines(lines, lp1, lp2, doto), [lp2, lp1])
            && DocOf(SplitLines(lines, lp1, lp2, doto), [lp2, lp1]) == t[..doto] + [NL] + t[doto..] + [NL]
            && |DocOf(SplitLines(lines, lp1, lp2, doto), [lp2])| == doto + 1
  {
    var lines' := SplitLines(lines, lp1, lp2, doto);
    assert [lp2, lp1] == [lp2] + [lp1];
    DocOfConcat(lines', [lp2], [lp1]);
    DocOfOne(lines', lp2);
    DocOfOne(lines', lp1);
  }

  /** lnewline inside the text: the new line goes in just before entry k, and no other line changes. */
  lemma SplitFrame(lines: map<Handle, Line>, ring: seq<Handle>, k: nat, lp2: Handle, doto: nat)
    requires Stored(lines, ring) && Distinct(ring) && 1 <= k < |ring| && lp2 !in ring
    requires doto <= lines[ring[k]].used
    ensures var lines', ring' := SplitLines(lines, ring[k], lp2, doto), LinkBefore(ring, k, lp2);
            && ring' == ring[..k] + [lp2, ring[k]] + ring[k + 1..] && Stored(lines', ring')
            && Kept(lines, lines', ring, 1, k) && Kept(lines, lines', ring, k + 1, |ring|)
  {
    assert forall i :: 0 <= i < |ring| && i != k ==> ring[i] != ring[k] && ring[i] != lp2;
  }

  /** lnewline inside the text: the text of entry k gains a line end at doto. */
  lemma SplitInsideText(lines: map<Handle, Line>, ring: seq<Handle>, k: nat, lp2: Handle, doto: nat)
    requires Stored(lines, ring) && Distinct(ring) && 1 <= k < |ring| && lp2 !in ring
    requires doto <= lines[ring[k]].used
    ensures var lines', ring' := SplitLines(lines, ring[k], lp2, doto), LinkBefore(ring, k, lp2);
            var d, p := Doc(lines, ring), LineStart(lines, ring, k) + doto;
            && Stored(lines', ring') && p <= |d|
            && Doc(lines', ring') == d[..p] + [NL] + d[p..]
  {
    var lp1, t := ring[k], Text(lines[ring[k]]);
    var lines', ring' := SplitLines(lines, lp1, lp2, doto), LinkBefore(ring, k, lp2);
    SplitFrame(lines, ring, k, lp2, doto);
    Around(lines, ring, k);
    var a, c := DocOf(lines, ring[1..k]), DocOf(lines, ring[k + 1..]);
    assert Stored(lines', ring') && Doc(lines', ring') == a + (t[..doto] + [NL] + t[doto..] + [NL]) + c by {
      SplitHalves(lines, lp1, lp2, doto);
      Splice(lines, ring, lines', ring', k, 1, [lp2, lp1]);
    }
    SplitSeq(Doc(lines, ring), LineStart(lines, ring, k) + doto, a, t, c, doto);
  }

  /** lnewline inside the text: offset 0 of the rest of entry k comes just after the new line end. */
  lemma SplitInsidePos(lines: map<Handle, Line>, ring: seq<Handle>, k: nat, lp2: Handle, doto: nat)
    requires Stored(lines, ring) && Distinct(ring) && 1 <= k < |ring| && lp2 !in ring
    requires doto <= lines[ring[k]].used
    ensures var lines', ring' := SplitLines(lines, ring[k], lp2, doto), LinkBefore(ring, k, lp2);
            ring[k] in ring' && DocPos(lines', ring', Pos(ring[k], 0)) == LineStart(lines, ring, k) + doto + 1
  {
    var lp1 := ring[k];
    var lines', ring' := SplitLines(lines, lp1, lp2, doto), LinkBefore(ring, k, lp2);
    SplitFrame(lines, ring, k, lp2, doto);
    SplitHalves(lines, lp1, lp2, doto);
    SpliceStart(lines, ring, lines', ring', k, 1, [lp2, lp1], 1);
    assert [lp2, lp1][..1] == [lp2];
    assert ring'[..k + 1] == ring[..k] + [lp2];
    IndexOfAt(ring', k + 1);
    assert ring'[0] == ring[0] != lp1;
  }

  /** lnewline inside the text: both halves of the split together. */
  lemma SplitInside(lines: map<Handle, Line>, ring: seq<Handle>, k: nat, lp2: Handle, doto: nat)
    requires Stored(lines, ring) && Distinct(ring) && 1 <= k < |ring| && lp2 !in ring
    requires doto <= lines[ring[k]].used
    ensures var lp1 := ring[k];
            var lines', ring' := SplitLines(lines, lp1, lp2, doto), LinkBefore(ring, k, lp2);
            var d, p := Doc(lines, ring), DocPos(lines, ring, Pos(lp1, doto));
            && Stored(lines', ring') && lp1 in ring' && p <= |d|
            && Doc(lines', ring') == d[..p] + [NL] + d[p..]
            && DocPos(lines', ring', Pos(lp1, 0)) == p + 1
  {
    PosAt(lines, ring, k, doto);
    SplitInsideText(lines, ring, k, lp2, doto);
    SplitInsidePos(lines, ring, k, lp2, doto);
  }

  /**
   * lnewline's split of entry k at byte doto, the first part going to a new
   * line lp2 before it: a line end goes into the text at the split point, and
   * offset 0 of the second part comes just after it.
   */
  lemma SplitDoc(lines: map<Handle, Line>, ring: seq<Handle>, k: nat, lp2: Handle, doto: nat)
    requires Stored(lines, ring) && Distinct(ring) && k < |ring| && lp2 !in ring
    requires doto <= lines[ring[k]].used && (k == 0 ==> lines[ring[k]].used == 0)
    ensures var lp1, l := ring[k], lines[ring[k]];
            var lines', ring' := SplitLines(lines, lp1, lp2, doto), LinkBefore(ring, k, lp2);
            var d, p := Doc(lines, ring), DocPos(lines, ring, Pos(lp1, doto));
            && Stored(lines', ring') && lp1 in ring' && p <= |d|
            && Doc(lines', ring') == d[..p] + [NL] + d[p..]
            && DocPos(lines', ring', Pos(lp1, 0)) == p + 1
  {
    if k == 0 {
      SplitAtHeader(lines, ring, lp2, doto);
    } else {
      SplitInside(lines, ring, k, lp2, doto);
    }
  }

  /**
   * ldelnewline's join of entries k and k+1 into the one line h: the line end
   * between them leaves the text, and offsets in h read as offsets in entry k.
   */
  lemma JoinDoc(lines: map<Handle, Line>, ring: seq<Handle>, lines': map<Handle, Line>, ring': seq<Handle>,
                k: nat, h: Handle, o: int)
    requires Stored(lines, ring) && Distinct(ring) && 1 <= k && k + 1 < |ring|
    requires ring' == ring[..k] + [h] + ring[k + 2..] && Stored(lines', ring') && h !in ring[..k] && h in lines'
    requires Kept(lines, lines', ring, 1, k) && Kept(lines, lines', ring, k + 2, |ring|)
    requires Text(lines'[h]) == Text(lines[ring[k]]) + Text(lines[ring[k + 1]])
    ensures var d, q := Doc(lines, ring), DocPos(lines, ring, Pos(ring[k], lines[ring[k]].used));
            && 0 <= q < |d| && d[q] == NL
            && Doc(lines', ring') == d[..q] + d[q + 1..]
            && h in ring' && DocPos(lines', ring', Pos(h, o)) == DocPos(lines, ring, Pos(ring[k], o))
  {
    JoinText(lines, ring, lines', ring', k, h);
    PosAt(lines, ring, k, lines[ring[k]].used);
    EntryPos(lines, ring, lines', ring', k, 2, [h], o);
  }

  /** The text half of JoinDoc, with the joined line end found from the start of entry k. */
  lemma JoinText(lines: map<Handle, Line>, ring: seq<Handle>, lines': map<Handle, Line>, ring': seq<Handle>,
                 k: nat, h: Handle)
    requires Stored(lines, ring) && 1 <= k && k + 1 < |ring|
    requires ring' == ring[..k] + [h] + ring[k + 2..] && Stored(lines', ring') && h in lines'
    requires Kept(lines, lines', ring, 1, k) && Kept(lines, lines', ring, k + 2, |ring|)
    requires Text(lines'[h]) == Text(lines[ring[k]]) + Text(lines[ring[k + 1]])
    ensures var d, q := Doc(lines, ring), LineStart(lines, ring, k) + lines[ring[k]].used;
            && 0 <= q < |d| && d[q] == NL
            && Doc(lines', ring') == d[..q] + d[q + 1..]
  {
    var t1, t2 := Text(lines[ring[k]]), Text(lines[ring[k + 1]]);
    var a, c := DocOf(lines, ring[1..k]), DocOf(lines, ring[k + 2..]);
    assert Stored(lines, ring[1..k]) && Stored(lines, ring[k + 2..])
        && Doc(lines, ring) == a + (t1 + [NL] + t2 + [NL]) + c by {
      Parts(lines, ring, k, 2);
      assert ring[k..k + 2] == [ring[k]] + [ring[k + 1]];
      DocOfConcat(lines, [ring[k]], [ring[k + 1]]);
      DocOfOne(lines, ring[k]);
      DocOfOne(lines, ring[k + 1]);
    }
    assert Doc(lines', ring') == a + (t1 + t2 + [NL]) + c by {
      Splice(lines, ring, lines', ring', k, 2, [h]);
      DocOfOne(lines', h);
    }
    JoinSeq(Doc(lines, ring), LineStart(lines, ring, k) + lines[ring[k]].used, a, t1, t2, c);
  }

  /** Dropping the line end after t1 from d = a + (t1 + [NL] + t2 + [NL]) + c. */
  lemma JoinSeq(d: seq<byte>, q: nat, a: seq<byte>, t1: seq<byte>, t2: seq<byte>, c: seq<byte>)
    requires d == a + (t1 + [NL] + t2 + [NL]) + c && q == |a| + |t1|
    ensures q < |d| && d[q] == NL && d[..q] + d[q + 1..] == a + (t1 + t2 + [NL]) + c
  {
    var l, r := d[..q] + d[q + 1..], a + (t1 + t2 + [NL]) + c;
    forall i | 0 <= i < |r|
      ensures l[i] == r[i]
    {
      if i < q {
        assert l[i] == d[i];
      } else {
        assert l[i] == d[i + 1];
      }
    }
  }


  /** ldelnewline freeing an empty last line: the text loses its last line end, which is where dot was. */
  lemma FreeLastDoc(lines: map<Handle, Line>, ring: seq<Handle>)
    requires Stored(lines, ring) && Distinct(ring) && 2 <= |ring| && lines[ring[|ring| - 1]].used == 0
    ensures var k := |ring| - 1;
            var d, q := Doc(lines, ring), DocPos(lines, ring, Pos(ring[k], 0));
            && 0 <= q < |d| && d[q] == NL
            && Stored(lines - {ring[k]}, ring[..k])
            && Doc(lines - {ring[k]}, ring[..k]) == d[..q] + d[q + 1..]
            && DocPos(lines - {ring[k]}, ring[..k], Pos(ring[0], 0)) == q
  {
    var k := |ring| - 1;
    var lines' := lines - {ring[k]};
    assert forall i :: 0 <= i < k ==> ring[i] != ring[k];
    assert ring[..k] == ring[..k] + [] + ring[k + 1..];
    Around(lines, ring, k);
    Splice(lines, ring, lines', ring[..k], k, 1, []);
    PosAt(lines, ring, k, 0);
  }

  /**
   * An edit inside entry k that leaves line h (the same line or its
   * replacement) reading Text[..from] + mid + Text[to..]: the text changes the
   * same way at the line's start plus `from`, and offsets in h read as offsets
   * in entry k.
   */
  lemma LineEditDoc(lines: map<Handle, Line>, ring: seq<Handle>, lines': map<Handle, Line>, ring': seq<Handle>,
                    k: nat, h: Handle, from: nat, to: nat, mid: seq<byte>, o: int)
    requires Stored(lines, ring) && Distinct(ring) && 1 <= k < |ring|
    requires ring' == ring[..k] + [h] + ring[k + 1..] && Stored(lines', ring') && h !in ring[..k] && h in lines'
    requires Kept(lines, lines', ring, 1, k) && Kept(lines, lines', ring, k + 1, |ring|)
    requires from <= to <= lines[ring[k]].used
    requires Text(lines'[h]) == Text(lines[ring[k]])[..from] + mid + Text(lines[ring[k]])[to..]
    ensures var d, p := Doc(lines, ring), DocPos(lines, ring, Pos(ring[k], from));
            && 0 <= p && p + (to - from) <= |d|
            && d[p..p + (to - from)] == Text(lines[ring[k]])[from..to]
            && Doc(lines', ring') == d[..p] + mid + d[p + (to - from)..]
            && h in ring' && DocPos(lines', ring', Pos(h, o)) == DocPos(lines, ring, Pos(ring[k], o))
  {
    EditText(lines, ring, lines', ring', k, h, from, to, mid);
    PosAt(lines, ring, k, from);
    EntryPos(lines, ring, lines', ring', k, 1, [h], o);
  }

  /** The text half of LineEditDoc, with the edit found from the start of entry k. */
  lemma EditText(lines: map<Handle, Line>, ring: seq<Handle>, lines': map<Handle, Line>, ring': seq<Handle>,
                 k: nat, h: Handle, from: nat, to: nat, mid: seq<byte>)
    requires Stored(lines, ring) && 1 <= k < |ring|
    requires ring' == ring[..k] + [h] + ring[k + 1..] && Stored(lines', ring') && h in lines'
    requires Kept(lines, lines', ring, 1, k) && Kept(lines, lines', ring, k + 1, |ring|)
    requires from <= to <= lines[ring[k]].used
    requires Text(lines'[h]) == Text(lines[ring[k]])[..from] + mid + Text(lines[ring[k]])[to..]
    ensures var d, p := Doc(lines, ring), LineStart(lines, ring, k) + from;
            && 0 <= p && p + (to - from) <= |d|
            && d[p..p + (to - from)] == Text(lines[ring[k]])[from..to]
            && Doc(lines', ring') == d[..p] + mid + d[p + (to - from)..]
  {
    var t := Text(lines[ring[k]]);
    Around(lines, ring, k);
    var a, c := DocOf(lines, ring[1..k]), DocOf(lines, ring[k + 1..]);
    Replaced(lines, ring, lines', ring', k, h);
    var d, p := Doc(lines, ring), LineStart(lines, ring, k) + from;
    assert d == a + t + [NL] + c && p == |a| + from;
    EditSeq(d, p, a, t, c, from, to, mid);
  }

  /** The text once line k is replaced by line h: h's text and line end between the untouched lines. */
  lemma Replaced(lines: map<Handle, Line>, ring: seq<Handle>, lines': map<Handle, Line>, ring': seq<Handle>,
                 k: nat, h: Handle)
    requires Stored(lines, ring) && 1 <= k < |ring|
    requires ring' == ring[..k] + [h] + ring[k + 1..] && Stored(lines', ring') && h in lines'
    requires Kept(lines, lines', ring, 1, k) && Kept(lines, lines', ring, k + 1, |ring|)
    ensures Stored(lines, ring[1..k]) && Stored(lines, ring[k + 1..])
    ensures Doc(lines', ring') == DocOf(lines, ring[1..k]) + (Text(lines'[h]) + [NL]) + DocOf(lines, ring[k + 1..])
  {
    Splice(lines, ring, lines', ring', k, 1, [h]);
    DocOfOne(lines', h);
  }

  /** Replacing t[from..to] by mid inside d = a + t + [NL] + c. */
  lemma EditSeq(d: seq<byte>, p: nat, a: seq<byte>, t: seq<byte>, c: seq<byte>, from: nat, to: nat, mid: seq<byte>)
    requires from <= to <= |t| && d == a + t + [NL] + c && p == |a| + from
    ensures && p + (to - from) <= |d| && d[p..p + (to - from)] == t[from..to]
            && d[..p] + mid + d[p + (to - from)..] == a + (t[..from] + mid + t[to..] + [NL]) + c
  {
    var n := to - from;
    forall i | 0 <= i < n
      ensures d[p..p + n][i] == t[from..to][i]
    {
      assert d[p + i] == t[from + i];
    }
    var l, r := d[..p] + mid + d[p + n..], a + (t[..from] + mid + t[to..] + [NL]) + c;
    forall i | 0 <= i < |r|
      ensures l[i] == r[i]
    {
      if i < p {
        assert l[i] == d[i];
      } else if i >= p + |mid| {
        assert l[i] == d[i - |mid| + n];
      }
    }
  }


  /** linsert at the end of the buffer: a new last line h, its offsets counting from the old end of the text. */
  lemma AppendDoc(lines: map<Handle, Line>, ring: seq<Handle>, lines': map<Handle, Line>, h: Handle, o: int)
    requires Stored(lines, ring) && 1 <= |ring| && h !in ring
    requires Kept(lines, lines', ring, 1, |ring|) && h in lines' && ring[0] in lines'
    ensures Stored(lines', ring + [h])
    ensures Doc(lines', ring + [h]) == Doc(lines, ring) + Text(lines'[h]) + [NL]
    ensures DocPos(lines', ring + [h], Pos(h, o)) == |Doc(lines, ring)| + o
  {
    var n := |ring|;
    var ring' := ring + [h];
    KeptDocFrom(lines, lines', ring, 1);
    assert ring'[1..] == ring[1..] + [h];
    DocOfConcat(lines', ring[1..], [h]);
    DocOfOne(lines', h);
    assert ring'[1..n] == ring[1..];
    assert ring'[..n] == ring;
    IndexOfAt(ring', n);
  }

  /** The end of entry k's text is a line end in the text, the last one when entry k is the last line. */
  lemma LineEnd(lines: map<Handle, Line>, ring: seq<Handle>, k: nat)
    requires Stored(lines, ring) && Distinct(ring) && 1 <= k < |ring|
    ensures var d, q := Doc(lines, ring), DocPos(lines, ring, Pos(ring[k], lines[ring[k]].used));
            && 0 <= q < |d| && d[q] == NL && (k + 1 == |ring| ==> q + 1 == |d|)
  {
    Around(lines, ring, k);
    PosAt(lines, ring, k, lines[ring[k]].used);
    assert ring[k + 1..] == [] <== k + 1 == |ring|;
  }

  /** A position within its line's text is an index into the text (at most its end). */
  lemma PosInDoc(lines: map<Handle, Line>, ring: seq<Handle>, q: Pos)
    requires 1 <= |ring| && Stored(lines, ring) && Distinct(ring) && q.p in ring
    requires q.p != ring[0] ==> q.p in lines && 0 <= q.o <= lines[q.p].used
    ensures 0 <= DocPos(lines, ring, q) <= |Doc(lines, ring)|
  {
    PosBeforeEnd(lines, ring, q);
  }

  /** A position on a text line lies before the end of the text: at worst on that line's line end. */
  lemma PosBeforeEnd(lines: map<Handle, Line>, ring: seq<Handle>, q: Pos)
    requires 1 <= |ring| && Stored(lines, ring) && Distinct(ring) && q.p in ring
    requires q.p != ring[0] ==> q.p in lines && 0 <= q.o <= lines[q.p].used
    ensures 0 <= DocPos(lines, ring, q) <= |Doc(lines, ring)|
    ensures q.p != ring[0] ==> DocPos(lines, ring, q) < |Doc(lines, ring)|
  {
    if q.p != ring[0] {
      var k := IndexOf(ring, q.p);
      LineEnd(lines, ring, k);
      PosAt(lines, ring, k, q.o);
      PosAt(lines, ring, k, lines[q.p].used);
    }
  }
}
