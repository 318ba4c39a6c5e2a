/*
 * The kill buffer of line.c (lines 35-40, 367-376, 497-529): one growable
 * byte register, kbufp/kused/ksize, grown KBLOCK bytes at a time, read back
 * byte by byte, and released as a whole.
 */
module KillBuf {
  import opened Utf8
  import opened Memory

  /** Growth step of the kill buffer. */
  const KBLOCK: nat := 1024

  class KillBuffer {
    /** kbufp; an array of length 0 stands for the NULL pointer. */
    var kbuf: array<byte>
    /** kused: the number of bytes held. */
    var kused: nat
    ghost var Repr: set<object>

    ghost predicate Valid()
      reads this, Repr
    {
      Repr == {this, kbuf} && kused <= kbuf.Length && kbuf.Length % KBLOCK == 0
    }

    /** ksize: the number of bytes allocated. */
    function Size(): nat
      reads this
    {
      kbuf.Length
    }

    /** The bytes held, oldest first. */
    ghost function Contents(): seq<byte>
      reads this, kbuf
      requires kused <= kbuf.Length
    {
      kbuf[..kused]
    }

    /** The initial state of the globals: no storage, nothing held. */
    constructor ()
      ensures Valid() && fresh(Repr)
      ensures kused == 0 && Size() == 0
    {
      kbuf := new byte[0];
      kused := 0;
      Repr := {this, kbuf};
    }

    /** kdelete: release the storage and forget the contents. */
    method Delete()
      requires Valid()
      modifies this
      ensures Valid() && fresh(Repr - old(Repr))
      ensures kused == 0 && Size() == 0 && Contents() == []
    {
      if kbuf.Length != 0 {
        kbuf := new byte[0];
        kused := 0;
        Repr := {this, kbuf};
      }
    }

    /** kinsert: append the low byte of `c`, first growing the storage by KBLOCK when it is full. */
    method Insert(c: int, mem: Allocator) returns (ok: bool)
      requires Valid()
      modifies Repr, mem
      ensures Valid() && fresh(Repr - old(Repr))
      ensures ok == (old(kused) < old(Size()) || old(mem.NextOk()))
      ensures ok ==> Contents() == old(Contents()) + [LowByte(c)]
      ensures !ok ==> kused == old(kused) && Contents() == old(Contents())
      ensures Size() == if ok && old(kused) == old(Size()) then old(Size()) + KBLOCK else old(Size())
      ensures mem.script == if old(kused) == old(Size()) then old(mem.After()) else old(mem.script)
    {
      if kused == kbuf.Length {
        var got := mem.Request();
        if !got {
          return false;
        }
        // malloc of the first block, or realloc keeping what is held
        var grown := new byte[kbuf.Length + KBLOCK];
        forall i | 0 <= i < kused {
          grown[i] := kbuf[i];
        }
        kbuf := grown;
        Repr := {this, kbuf};
      }
      kbuf[kused] := LowByte(c);
      kused := kused + 1;
      ok := true;
    }

    /** kremove: byte n of the register, or -1 once n is past the bytes held. */
    function Remove(n: int): (r: int)
      reads this, Repr
      requires Valid()
      ensures -1 <= r < 256
      ensures r == -1 <==> !(0 <= n < kused)
      ensures 0 <= n < kused ==> r == Contents()[n] as int
    {
      // n is compared as an unsigned long, so a negative n is past the end too
      if n < 0 || n >= kused then -1 else kbuf[n] as int
    }

    /** What a caller collects by reading from index k until Remove answers -1. */
    ghost function Scan(k: nat): seq<byte>
      reads this, Repr
      requires Valid()
      decreases kused - k
    {
      if Remove(k) == -1 then [] else [Remove(k) as byte] + Scan(k + 1)
    }

    /** Scanning from 0 until the -1 sentinel reproduces exactly the bytes held. */
    lemma {:induction false} ScanReadsContents(k: nat)
      requires Valid() && k <= kused
      ensures Scan(k) == Contents()[k..]
      decreases kused - k
    {
      if k < kused {
        ScanReadsContents(k + 1);
        assert Contents()[k..] == [Contents()[k]] + Contents()[k + 1..];
      }
    }
  }
}
