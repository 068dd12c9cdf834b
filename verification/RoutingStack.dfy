/** The routing stack: the entries in memory, newest first. */
module RoutingStack {
  import opened Types
  import opened RoutingTable
  import opened AddressTrie

  /** The entries as values. */
  ghost function Views(es: seq<RoutingEntry>): (r: Table)
    reads es
    ensures |r| == |es| && forall i :: 0 <= i < |es| ==> r[i] == es[i].View()
  {
    seq(|es|, i requires 0 <= i < |es| reads es => es[i].View())
  }

  ghost predicate NoDuplicates(es: seq<RoutingEntry>) {
    forall i, j :: 0 <= i < j < |es| ==> es[i].destination != es[j].destination
  }

  class RoutingStack {
    var elems: seq<RoutingEntry>

    constructor ()
      ensures elems == []
    {
      elems := [];
    }

    method Put(e: RoutingEntry)
      modifies this
      ensures elems == [e] + old(elems) && Views(elems) == [e.View()] + old(Views(elems))
    {
      elems := [e] + elems;
    }

    /** Take out an entry that is in the stack. */
    method Remove(e: RoutingEntry) returns (ghost at: nat)
      requires e in elems
      modifies this
      ensures at < |old(elems)| && old(elems)[at] == e && elems == old(elems)[..at] + old(elems)[at + 1..]
    {
      var i := 0;
      while elems[i] != e
        invariant 0 <= i < |elems| && e !in elems[..i]
        decreases |elems| - i
      {
        assert elems == elems[..i + 1] + elems[i + 1..];
        i := i + 1;
      }
      at := i;
      elems := elems[..i] + elems[i + 1..];
    }

    /** The entries from the top of the stack down to the first one older than `fromBlock`. */
    method PeekFromBlock(fromBlock: uint64) returns (r: seq<RoutingEntry>)
      ensures r <= elems && Views(r) == Peek(Views(elems), fromBlock)
    {
      r := [];
      var i := 0;
      ghost var t := Views(elems);
      while i < |elems|
        invariant 0 <= i <= |elems| && r == elems[..i]
        invariant Views(r) + Peek(t[i..], fromBlock) == Peek(t, fromBlock)
      {
        assert t[i..][0] == elems[i].View() && t[i..][1..] == t[i + 1..];
        if elems[i].height < fromBlock {
          return;
        }
        r := r + [elems[i]];
        i := i + 1;
      }
    }
  }
}
