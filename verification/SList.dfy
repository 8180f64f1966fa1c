/** SLIST_REMOVE, the linear search that LIST_REMOVE's back links save. */
module SList {
  import opened Seqs

  class Node {
    var next: Node?
  }

  class Top {
    var first: Node?
  }

  function NodeAt(s: seq<Node>, i: int): Node? {
    if 0 <= i < |s| then s[i] else null
  }

  ghost predicate IsSList(h: Top, s: seq<Node>)
    reads h, s
  {
    && h.first == NodeAt(s, 0)
    && (forall i {:trigger s[i].next} :: 0 <= i < |s| ==> s[i].next == NodeAt(s, i + 1))
  }

  /** Ending in NULL rules out cycles: equal entries have equal tails. */
  lemma {:induction false} SameTail(h: Top, s: seq<Node>, i: nat, j: nat)
    requires IsSList(h, s) && i < j < |s|
    ensures s[i] != s[j]
    decreases |s| - j
  {
    if s[i] == s[j] {
      assert s[i].next == NodeAt(s, i + 1) && s[j].next == NodeAt(s, j + 1);
      if j + 1 < |s| { SameTail(h, s, i + 1, j + 1); }
    }
  }

  lemma NoCycle(h: Top, s: seq<Node>)
    requires IsSList(h, s)
    ensures Distinct(s)
  {
    forall i, j | 0 <= i < j < |s| ensures s[i] != s[j] {
      SameTail(h, s, i, j);
    }
  }

  /** SLIST_REMOVE finds any member, and does to the sequence what LIST_REMOVE does. */
  method RemoveBySearch(h: Top, elm: Node, ghost s: seq<Node>, ghost i: nat)
    requires IsSList(h, s)
    requires i < |s| && s[i] == elm
    modifies h, if i > 0 then {s[i - 1]} else {}
    ensures IsSList(h, Deleted(s, i))
  {
    NoCycle(h, s);
    if h.first == elm {
      h.first := h.first.next;
    } else {
      var curelm := h.first;
      ghost var k := 0;
      while curelm.next != elm
        invariant k < i && curelm == NodeAt(s, k)
        decreases i - k
      {
        curelm := curelm.next;
        k := k + 1;
      }
      curelm.next := curelm.next.next;
    }
  }
}
