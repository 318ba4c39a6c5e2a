/*
 * A buffer's line ring (the l_fp/l_bp links) as the sequence of its
 * handles, header first, and the relinking line.c does on it.
 */
module Ring {
  import opened Lines

  /** No line appears twice. */
  predicate Distinct(hs: seq<Handle>)
  {
    forall i, j :: 0 <= i < j < |hs| ==> hs[i] != hs[j]
  }

  /** Where h sits in the ring. */
  function IndexOf(hs: seq<Handle>, h: Handle): (k: nat)
    requires h in hs
    ensures k < |hs| && hs[k] == h && h !in hs[..k]
  {
    if hs[0] == h then 0 else 1 + IndexOf(hs[1..], h)
  }

  /** An entry that does not occur earlier is found where it is. */
  lemma IndexOfAt(hs: seq<Handle>, i: nat)
    requires i < |hs| && hs[i] !in hs[..i]
    ensures IndexOf(hs, hs[i]) == i
  {
    var k := IndexOf(hs, hs[i]);
    assert forall j :: 0 <= j < i ==> hs[..i][j] == hs[j];
    assert forall j :: 0 <= j < k ==> hs[..k][j] == hs[j];
  }

  /** In a ring without repeats every entry occurs first where it is. */
  lemma DistinctIndexOf(hs: seq<Handle>, i: nat)
    requires Distinct(hs) && i < |hs|
    ensures IndexOf(hs, hs[i]) == i
  {
    forall j | 0 <= j < i
      ensures hs[..i][j] != hs[i]
    {
    }
    IndexOfAt(hs, i);
  }

  /** The ring with h linked in just before entry k; before the header is at the far end. */
  function LinkBefore(hs: seq<Handle>, k: nat, h: Handle): (r: seq<Handle>)
    requires k < |hs|
    ensures |r| == |hs| + 1 && h in r
    ensures forall x :: x in r <==> x in hs || x == h
  {
    if k == 0 then hs + [h] else hs[..k] + [h] + hs[k..]
  }

  /** The ring with entry k unlinked. */
  function Unlink(hs: seq<Handle>, k: nat): (r: seq<Handle>)
    requires k < |hs|
    ensures |r| == |hs| - 1
    ensures Distinct(hs) ==> forall x :: x in r <==> x in hs && x != hs[k]
  {
    hs[..k] + hs[k + 1..]
  }

  /** The successor of entry k around the ring (l_fp). */
  function Next(hs: seq<Handle>, k: nat): Handle
    requires k < |hs|
  {
    if k + 1 < |hs| then hs[k + 1] else hs[0]
  }

}
