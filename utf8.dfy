/*
 * The UTF-8 codec of line.c: `uputc`, which writes the 1..6 byte form of a
 * character (the original UTF-8 of RFC 2279, section 2, values up to
 * 0x7FFFFFFF), and the two walks `unslen` and `uoffset` that step through a
 * byte string by the length its lead bytes announce.
 */
module Utf8 {

  /** An unsigned char. */
  newtype byte = b: int | 0 <= b < 256

  /** The newline byte, '\n'. */
  const NL: byte := 10

  function Min(a: int, b: int): int { if a <= b then a else b }

  /** The low eight bits of `c`, which is what storing an int into an unsigned char keeps. */
  function LowByte(c: int): (b: byte)
    ensures (b as int - c) % 256 == 0
  {
    (c % 256) as byte
  }

  /** A continuation byte `10xxxxxx` carrying the low six bits of `x`. */
  function Cont(x: int): (b: byte)
    requires x >= 0
    ensures b / 64 == 2 && b as int % 64 == x % 64
  {
    (0x80 + x % 64) as byte
  }

  /*
   * uputc: the right shifts of the source are divisions by powers of two
   * (c is at least 0x80 in every branch that shifts).  A value that falls in
   * no range is stored as its low byte, length 1.
   */
  function Encode(c: int): (r: seq<byte>)
    ensures 1 <= |r| <= 6
    ensures c < 0x80 ==> r == [LowByte(c)]
    ensures 0x80 <= c <= 0x7FF <==> |r| == 2
    ensures 0x800 <= c <= 0xFFFF <==> |r| == 3
    ensures 0x10000 <= c <= 0x1FFFFF <==> |r| == 4
    ensures 0x200000 <= c <= 0x3FFFFFF <==> |r| == 5
    ensures 0x4000000 <= c <= 0x7FFFFFFF <==> |r| == 6
    ensures |r| == 2 ==> r[0] / 32 == 0x06     // 110xxxxx
    ensures |r| == 3 ==> r[0] / 16 == 0x0E     // 1110xxxx
    ensures |r| == 4 ==> r[0] / 8 == 0x1E      // 11110xxx
    ensures |r| == 5 ==> r[0] / 4 == 0x3E      // 111110xx
    ensures |r| == 6 ==> r[0] / 2 == 0x7E      // 1111110x
    ensures |r| > 1 ==> forall k :: 1 <= k < |r| ==> r[k] / 64 == 2
  {
    if c < 0x80 then
      [LowByte(c)]
    else if c >= 0x80 && c <= 0x7FF then
      [(0xC0 + (c / 0x40) % 0x20) as byte, Cont(c)]
    else if c >= 0x800 && c <= 0xFFFF then
      [(0xE0 + (c / 0x1000) % 0x10) as byte, Cont(c / 0x40), Cont(c)]
    else if c >= 0x10000 && c <= 0x1FFFFF then
      [(0xF0 + (c / 0x40000) % 0x08) as byte, Cont(c / 0x1000), Cont(c / 0x40), Cont(c)]
    else if c >= 0x200000 && c <= 0x3FFFFFF then
      [(0xF8 + (c / 0x1000000) % 0x04) as byte,
       Cont(c / 0x40000), Cont(c / 0x1000), Cont(c / 0x40), Cont(c)]
    else if c >= 0x4000000 && c <= 0x7FFFFFFF then
      [(0xFC + (c / 0x40000000) % 0x02) as byte,
       Cont(c / 0x1000000), Cont(c / 0x40000), Cont(c / 0x1000), Cont(c / 0x40), Cont(c)]
    else
      [LowByte(c)]
  }

  /*
   * A reference decoder, written independently of Encode: the sequence
   * length a lead byte announces, and the value obtained by concatenating the
   * lead byte's payload bits with six bits from each continuation byte.
   */

  /** Length announced by a lead byte; 0 for a continuation byte or 0xFE/0xFF. */
  function Announced(b: byte): nat
  {
    if b < 0x80 then 1
    else if b < 0xC0 then 0
    else if b < 0xE0 then 2
    else if b < 0xF0 then 3
    else if b < 0xF8 then 4
    else if b < 0xFC then 5
    else if b < 0xFE then 6
    else 0
  }

  /** Payload bits of a lead byte that starts a sequence of n bytes. */
  function LeadBits(b: byte, n: nat): int
  {
    if n <= 1 then b as int
    else if n == 2 then b as int % 0x20
    else if n == 3 then b as int % 0x10
    else if n == 4 then b as int % 0x08
    else if n == 5 then b as int % 0x04
    else b as int % 0x02
  }

  /** Appends six payload bits from each continuation byte of `cs` to `acc`. */
  function Gather(acc: int, cs: seq<byte>): int
    decreases |cs|
  {
    if cs == [] then acc else Gather(acc * 0x40 + cs[0] as int % 0x40, cs[1..])
  }

  function Decode(r: seq<byte>): int
    requires |r| >= 1
  {
    Gather(LeadBits(r[0], |r|), r[1..])
  }

  /** One continuation byte puts back the six bits that dividing by 64 shifted out. */
  lemma GatherCont(q: int, rest: seq<byte>)
    requires q >= 0
    ensures Gather(q / 0x40, [Cont(q)] + rest) == Gather(q, rest)
  {
    assert ([Cont(q)] + rest)[1..] == rest;
  }

  /** Every character up to 0x7FFFFFFF encodes to a well-formed sequence that decodes back to it. */
  lemma {:induction false} EncodeDecode(c: int)
    requires 0 <= c <= 0x7FFFFFFF
    ensures Announced(Encode(c)[0]) == |Encode(c)|
    ensures Decode(Encode(c)) == c
  {
    if c < 0x80 {
    } else if c <= 0x7FF {
      EncodeDecode2(c);
    } else if c <= 0xFFFF {
      EncodeDecode3(c);
    } else if c <= 0x1FFFFF {
      EncodeDecode4(c);
    } else if c <= 0x3FFFFFF {
      EncodeDecode5(c);
    } else {
      EncodeDecode6(c);
    }
  }

  lemma EncodeDecode2(c: int)
    requires 0x80 <= c <= 0x7FF
    ensures Announced(Encode(c)[0]) == 2
    ensures Decode(Encode(c)) == c
  {
    assert Encode(c)[1..] == [Cont(c)] + [];
    GatherCont(c, []);
  }

  lemma EncodeDecode3(c: int)
    requires 0x800 <= c <= 0xFFFF
    ensures Announced(Encode(c)[0]) == 3
    ensures Decode(Encode(c)) == c
  {
    var q1 := c / 0x40;
    assert q1 / 0x40 == c / 0x1000;
    assert Encode(c)[1..] == [Cont(q1)] + [Cont(c)];
    GatherCont(q1, [Cont(c)]);
    GatherCont(c, []);
  }

  lemma EncodeDecode4(c: int)
    requires 0x10000 <= c <= 0x1FFFFF
    ensures Announced(Encode(c)[0]) == 4
    ensures Decode(Encode(c)) == c
  {
    var q1, q2 := c / 0x40, c / 0x1000;
    assert q1 / 0x40 == q2 && q2 / 0x40 == c / 0x40000;
    assert Encode(c)[1..] == [Cont(q2)] + [Cont(q1), Cont(c)];
    GatherCont(q2, [Cont(q1), Cont(c)]);
    assert [Cont(q1), Cont(c)] == [Cont(q1)] + [Cont(c)];
    GatherCont(q1, [Cont(c)]);
    GatherCont(c, []);
  }

  lemma EncodeDecode5(c: int)
    requires 0x200000 <= c <= 0x3FFFFFF
    ensures Announced(Encode(c)[0]) == 5
    ensures Decode(Encode(c)) == c
  {
    var r := Encode(c);
    var q1, q2, q3 := c / 0x40, c / 0x1000, c / 0x40000;
    assert q1 / 0x40 == q2 && q2 / 0x40 == q3 && q3 / 0x40 == c / 0x1000000;
    assert LeadBits(r[0], |r|) == c / 0x1000000;
    assert r[1..] == [Cont(q3)] + [Cont(q2), Cont(q1), Cont(c)];
    GatherCont(q3, [Cont(q2), Cont(q1), Cont(c)]);
    assert [Cont(q2), Cont(q1), Cont(c)] == [Cont(q2)] + [Cont(q1), Cont(c)];
    GatherCont(q2, [Cont(q1), Cont(c)]);
    assert [Cont(q1), Cont(c)] == [Cont(q1)] + [Cont(c)];
    GatherCont(q1, [Cont(c)]);
    GatherCont(c, []);
  }

  lemma EncodeDecode6(c: int)
    requires 0x4000000 <= c <= 0x7FFFFFFF
    ensures Announced(Encode(c)[0]) == 6
    ensures Decode(Encode(c)) == c
  {
    var r := Encode(c);
    var q1, q2, q3, q4 := c / 0x40, c / 0x1000, c / 0x40000, c / 0x1000000;
    assert q1 / 0x40 == q2 && q2 / 0x40 == q3 && q3 / 0x40 == q4 && q4 / 0x40 == c / 0x40000000;
    assert LeadBits(r[0], |r|) == c / 0x40000000;
    assert r[1..] == [Cont(q4)] + [Cont(q3), Cont(q2), Cont(q1), Cont(c)];
    GatherCont(q4, [Cont(q3), Cont(q2), Cont(q1), Cont(c)]);
    assert [Cont(q3), Cont(q2), Cont(q1), Cont(c)] == [Cont(q3)] + [Cont(q2), Cont(q1), Cont(c)];
    GatherCont(q3, [Cont(q2), Cont(q1), Cont(c)]);
    assert [Cont(q2), Cont(q1), Cont(c)] == [Cont(q2)] + [Cont(q1), Cont(c)];
    GatherCont(q2, [Cont(q1), Cont(c)]);
    assert [Cont(q1), Cont(c)] == [Cont(q1)] + [Cont(c)];
    GatherCont(q1, [Cont(c)]);
    GatherCont(c, []);
  }

  lemma EncodeExamples()
    ensures Encode(0x41) == [0x41]
    ensures Encode(0xE9) == [0xC3, 0xA9]
    ensures Encode(0x20AC) == [0xE2, 0x82, 0xAC]
  {
  }

  /*
   * unslen and uoffset.  `uclen` is not part of this model: it is a
   * parameter, a length function of the lead byte known only to answer
   * between 1 and 6.
   */
  type CharLength = f: byte -> nat | forall b :: 1 <= f(b) <= 6 witness (b: byte) => 1

  /** unslen: the number of characters whose lead bytes lie in `s`; the last may overrun its end. */
  function UnsLen(uclen: CharLength, s: seq<byte>): (n: nat)
    ensures n <= |s|
    ensures n == 0 <==> s == []
    decreases |s|
  {
    if s == [] then 0 else 1 + UnsLen(uclen, s[Min(uclen(s[0]), |s|)..])
  }

  /** uoffset: the byte offset of character n, the sum of the first n announced lengths. */
  function UOffset(uclen: CharLength, s: seq<byte>, n: int): (off: nat)
    requires n <= UnsLen(uclen, s)
    ensures n <= off
    ensures 0 < n < UnsLen(uclen, s) ==> off < |s|
    decreases n
  {
    if n <= 0 then 0 else uclen(s[0]) + UOffset(uclen, s[Min(uclen(s[0]), |s|)..], n - 1)
  }

  /** unslen's loop: a cursor stepped by the length each lead byte announces, counting until it reaches the end. */
  method WalkUnsLen(uclen: CharLength, s: seq<byte>) returns (len: nat)
    ensures len == UnsLen(uclen, s)
  {
    len := 0;
    var i: nat := 0;
    ghost var rest := s;
    while i < |s|
      invariant rest == s[Min(i, |s|)..]
      invariant len + UnsLen(uclen, rest) == UnsLen(uclen, s)
      decreases |s| - i
    {
      rest := WalkStep(uclen, s, i, rest);
      i := i + uclen(s[i]);
      len := len + 1;
    }
    assert |rest| == 0;
  }

  /** uoffset's loop: the cursor stepped n times, the offset it ends at. */
  method WalkUOffset(uclen: CharLength, s: seq<byte>, n: int) returns (off: nat)
    requires n <= UnsLen(uclen, s)
    ensures off == UOffset(uclen, s, n)
  {
    off := 0;
    var k := n;
    ghost var rest := s;
    while k > 0
      invariant rest == s[Min(off, |s|)..] && k <= UnsLen(uclen, rest)
      invariant off + UOffset(uclen, rest, k) == UOffset(uclen, s, n)
    {
      assert off < |s|;
      rest := OffsetStep(uclen, s, off, rest, k);
      off := off + uclen(s[off]);
      k := k - 1;
    }
  }

  /** One step of either walk from byte i: what is left of s, one character on. */
  lemma WalkStep(uclen: CharLength, s: seq<byte>, i: nat, rest: seq<byte>) returns (rest': seq<byte>)
    requires i < |s| && rest == s[Min(i, |s|)..]
    ensures rest' == s[Min(i + uclen(s[i]), |s|)..]
    ensures rest != [] && rest[0] == s[i] && rest' == rest[Min(uclen(rest[0]), |rest|)..]
    ensures UnsLen(uclen, rest) == 1 + UnsLen(uclen, rest')
  {
    assert rest[0] == s[i];
    rest' := rest[Min(uclen(s[i]), |rest|)..];
  }

  /** The same step, for uoffset still k characters from its goal. */
  lemma OffsetStep(uclen: CharLength, s: seq<byte>, i: nat, rest: seq<byte>, k: int) returns (rest': seq<byte>)
    requires i < |s| && rest == s[Min(i, |s|)..] && 0 < k <= UnsLen(uclen, rest)
    ensures rest' == s[Min(i + uclen(s[i]), |s|)..] && k - 1 <= UnsLen(uclen, rest')
    ensures UOffset(uclen, rest, k) == uclen(s[i]) + UOffset(uclen, rest', k - 1)
  {
    rest' := WalkStep(uclen, s, i, rest);
  }

  /** The byte offset of character n spans exactly n characters. */
  lemma {:induction false} UnsLenUOffset(uclen: CharLength, s: seq<byte>, n: nat)
    requires n <= UnsLen(uclen, s)
    ensures UnsLen(uclen, s[..Min(UOffset(uclen, s, n), |s|)]) == n
  {
    if n > 0 {
      var rest := s[Min(uclen(s[0]), |s|)..];
      var off' := UOffset(uclen, rest, n - 1);
      UnsLenUOffset(uclen, rest, n - 1);
      PrefixRest(uclen, s, off');
      var pre := s[..Min(uclen(s[0]) + off', |s|)];
      assert UOffset(uclen, s, n) == uclen(s[0]) + off';
      assert UnsLen(uclen, pre) == 1 + UnsLen(uclen, pre[Min(uclen(pre[0]), |pre|)..]);
    }
  }

  /** Cutting s after its first character and k more bytes leaves that character and the first k bytes of the rest. */
  lemma PrefixRest(uclen: CharLength, s: seq<byte>, k: nat)
    requires s != []
    ensures var pre, rest := s[..Min(uclen(s[0]) + k, |s|)], s[Min(uclen(s[0]), |s|)..];
            pre != [] && pre[0] == s[0] && pre[Min(uclen(pre[0]), |pre|)..] == rest[..Min(k, |rest|)]
  {
    var m, c := Min(uclen(s[0]) + k, |s|), Min(uclen(s[0]), |s|);
    assert Min(uclen(s[0]), m) == c && m - c == Min(k, |s| - c);
    assert s[..m][c..] == s[c..][..m - c];
  }

  /** Every byte of s announces a one-byte character. */
  ghost predicate SingleBytes(uclen: CharLength, s: seq<byte>)
  {
    forall k :: 0 <= k < |s| ==> uclen(s[k]) == 1
  }

  /** Bytes that each announce a one-byte character are as many characters as bytes. */
  lemma {:induction false} UnsLenSingle(uclen: CharLength, s: seq<byte>)
    requires SingleBytes(uclen, s)
    ensures UnsLen(uclen, s) == |s|
  {
    if s != [] {
      assert SingleBytes(uclen, s[1..]) by {
        forall k | 0 <= k < |s| - 1
          ensures uclen(s[1..][k]) == 1
        {
          assert s[1..][k] == s[k + 1];
        }
      }
      UnsLenSingle(uclen, s[1..]);
    }
  }

  /** A slice of single-byte characters is single-byte characters. */
  lemma SingleBytesSlice(uclen: CharLength, s: seq<byte>, i: nat, j: nat)
    requires SingleBytes(uclen, s) && i <= j <= |s|
    ensures SingleBytes(uclen, s[i..j])
  {
    forall k | 0 <= k < j - i
      ensures uclen(s[i..j][k]) == 1
    {
      assert s[i..j][k] == s[i + k];
    }
  }

  /** n copies of `unit` laid end to end. */
  function Repeat(unit: seq<byte>, n: nat): (r: seq<byte>)
    ensures |r| == n * |unit|
  {
    if n == 0 then [] else unit + Repeat(unit, n - 1)
  }

  /** n copies of one encoded character count as n characters when uclen agrees with its length. */
  lemma {:induction false} UnsLenRepeat(uclen: CharLength, unit: seq<byte>, n: nat)
    requires |unit| >= 1 && uclen(unit[0]) == |unit|
    ensures UnsLen(uclen, Repeat(unit, n)) == n
  {
    if n > 0 {
      var r := Repeat(unit, n);
      assert r == unit + Repeat(unit, n - 1);
      assert r[0] == unit[0] && Min(uclen(r[0]), |r|) == |unit|;
      assert r[|unit|..] == Repeat(unit, n - 1);
      UnsLenRepeat(uclen, unit, n - 1);
    }
  }
}
