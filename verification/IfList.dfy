/** The LIST macros, on the one list the program keeps with them: the interfaces named in the configuration.

  `le_prev`, the address of the link pointing at an entry, is a `Loc`: the `lh_first` of a head or the `le_next`
  of another entry.
  */
module IfList {
  import opened Seqs

  /** What a phyint line says about an interface. */
  datatype Phyint = Phyint(enabled: bool, addr: bv32, ifname: string)

  datatype Loc = Nowhere | FirstOf(head: Head) | NextOf(entry: Entry)

  /** struct iflist */
  class Entry {
    var next: Entry?
    var prev: Loc
    const item: Phyint

    constructor (item: Phyint)
      ensures this.item == item && next == null && prev == Nowhere
    {
      this.item := item;
      next, prev := null, Nowhere;
    }
  }

  class Head {
    var first: Entry?

    constructor ()
      ensures IsList(this, [])
    {
      first := null;
    }
  }

  // ---------------------------------------------------------------- the invariant

  function At(s: seq<Entry>, i: int): Entry? {
    if 0 <= i < |s| then s[i] else null
  }

  function Slot(h: Head, s: seq<Entry>, i: nat): Loc
    requires i <= |s|
  {
    if i == 0 then FirstOf(h) else NextOf(s[i - 1])
  }

  /** The list at `h` holds exactly the entries `s`, in order. */
  ghost predicate IsList(h: Head, s: seq<Entry>)
    reads h, s
  {
    && h.first == At(s, 0)
    && (forall i {:trigger s[i].next} :: 0 <= i < |s| ==> s[i].next == At(s, i + 1))
    && (forall i {:trigger s[i].prev} :: 0 <= i < |s| ==> s[i].prev == Slot(h, s, i))
  }

  lemma {:induction false} SamePlace(g: Head, s: seq<Entry>, i: nat, h: Head, t: seq<Entry>, j: nat)
    requires IsList(g, s) && IsList(h, t)
    requires i < |s| && j < |t| && s[i] == t[j]
    ensures g == h && i == j
    decreases i
  {
    assert s[i].prev == Slot(g, s, i) && t[j].prev == Slot(h, t, j);
    if i > 0 {
      SamePlace(g, s, i - 1, h, t, j - 1);
    }
  }

  /** The back links rule out cycles. */
  lemma Acyclic(h: Head, s: seq<Entry>)
    requires IsList(h, s)
    ensures Distinct(s)
  {
    forall i, j | 0 <= i < j < |s| ensures s[i] != s[j] {
      if s[i] == s[j] { SamePlace(h, s, i, h, s, j); }
    }
  }

  // ---------------------------------------------------------------- operations

  /** The entry at position `i`, if there is one. */
  ghost function Spot(s: seq<Entry>, i: int): set<Entry> {
    if 0 <= i < |s| then {s[i]} else {}
  }

  /** The head, where it is the owner of the link to position 0. */
  ghost function HeadIf(h: Head, i: nat): set<Head> {
    if i == 0 then {h} else {}
  }

  /** `*l = v` */
  method Store(l: Loc, v: Entry?)
    requires l != Nowhere
    modifies match l case Nowhere => {} case FirstOf(h) => {h} case NextOf(e) => {e}
    ensures l.FirstOf? ==> l.head.first == v
    ensures l.NextOf? ==> l.entry.next == v && l.entry.prev == old(l.entry.prev)
  {
    match l
    case FirstOf(h) => h.first := v;
    case NextOf(e) => e.next := v;
  }

  method InsertHead(h: Head, elm: Entry, ghost s: seq<Entry>)
    requires IsList(h, s) && elm !in s
    modifies h, elm, Spot(s, 0)
    ensures IsList(h, [elm] + s)
  {
    Acyclic(h, s);
    elm.next := h.first;
    if elm.next != null {
      h.first.prev := NextOf(elm);
    }
    h.first := elm;
    elm.prev := FirstOf(h);
  }

  method InsertAfter(listelm: Entry, elm: Entry, ghost h: Head, ghost s: seq<Entry>, ghost i: nat)
    requires IsList(h, s) && elm !in s
    requires i < |s| && s[i] == listelm
    modifies elm, listelm, Spot(s, i + 1)
    ensures IsList(h, Inserted(s, i + 1, elm))
  {
    Acyclic(h, s);
    elm.next := listelm.next;
    if elm.next != null {
      listelm.next.prev := NextOf(elm);
    }
    listelm.next := elm;
    elm.prev := NextOf(listelm);
  }

  method InsertBefore(listelm: Entry, elm: Entry, ghost h: Head, ghost s: seq<Entry>, ghost i: nat)
    requires IsList(h, s) && elm !in s
    requires i < |s| && s[i] == listelm
    modifies elm, HeadIf(h, i), listelm, Spot(s, i - 1)
    ensures IsList(h, Inserted(s, i, elm))
  {
    Acyclic(h, s);
    elm.prev := listelm.prev;
    elm.next := listelm;
    Store(listelm.prev, elm);
    listelm.prev := NextOf(elm);
  }

  /** LIST_REMOVE: neither head nor search. */
  method Remove(elm: Entry, ghost h: Head, ghost s: seq<Entry>, ghost i: nat)
    requires IsList(h, s)
    requires i < |s| && s[i] == elm
    modifies HeadIf(h, i), Spot(s, i - 1), Spot(s, i + 1)
    ensures IsList(h, Deleted(s, i))
  {
    Acyclic(h, s);
    if elm.next != null {
      elm.next.prev := elm.prev;
    }
    Store(elm.prev, elm.next);
  }

  method Replace(elm: Entry, elm2: Entry, ghost h: Head, ghost s: seq<Entry>, ghost i: nat)
    requires IsList(h, s) && elm2 !in s
    requires i < |s| && s[i] == elm
    modifies elm2, HeadIf(h, i), Spot(s, i - 1), Spot(s, i + 1)
    ensures IsList(h, s[i := elm2])
  {
    Acyclic(h, s);
    elm2.next := elm.next;
    if elm2.next != null {
      elm2.next.prev := NextOf(elm2);
    }
    elm2.prev := elm.prev;
    Store(elm2.prev, elm2);
  }

  /** Removing an entry right after inserting it behind `listelm` leaves no trace but in the entry itself. */
  method InsertAfterThenRemove(listelm: Entry, elm: Entry, ghost h: Head, ghost s: seq<Entry>, ghost i: nat)
    requires IsList(h, s) && elm !in s
    requires i < |s| && s[i] == listelm
    modifies elm, listelm, Spot(s, i + 1)
    ensures IsList(h, s)
    ensures h.first == old(h.first) && forall k :: 0 <= k < |s| ==> s[k].next == old(s[k].next) && s[k].prev == old(s[k].prev)
  {
    InsertAfter(listelm, elm, h, s, i);
    ghost var t := Inserted(s, i + 1, elm);
    assert t[i] == listelm && (i + 2 < |t| ==> t[i + 2] == s[i + 1]);
    Remove(elm, h, t, i + 1);
    assert Deleted(t, i + 1) == s;
  }

  /** The same for an entry inserted in front of `listelm`. */
  method InsertBeforeThenRemove(listelm: Entry, elm: Entry, ghost h: Head, ghost s: seq<Entry>, ghost i: nat)
    requires IsList(h, s) && elm !in s
    requires i < |s| && s[i] == listelm
    modifies elm, HeadIf(h, i), listelm, Spot(s, i - 1)
    ensures IsList(h, s)
    ensures h.first == old(h.first) && forall k :: 0 <= k < |s| ==> s[k].next == old(s[k].next) && s[k].prev == old(s[k].prev)
  {
    InsertBefore(listelm, elm, h, s, i);
    ghost var t := Inserted(s, i, elm);
    assert t[i + 1] == listelm && (i > 0 ==> t[i - 1] == s[i - 1]);
    Remove(elm, h, t, i);
    assert Deleted(t, i) == s;
  }

  // ---------------------------------------------------------------- the interface list

  /** iface_find's test of one entry. */
  predicate Matches(p: Phyint, ifname: string, addr: bv32) {
    p.ifname == ifname || (addr != 0 && addr != 0xffff_ffff && addr == p.addr)
  }

  /** iface_find: the first matching entry. */
  method IfaceFind(il: Head, ifname: string, addr: bv32, ghost s: seq<Entry>) returns (r: Entry?)
    requires IsList(il, s)
    ensures r == null ==> forall k :: 0 <= k < |s| ==> !Matches(s[k].item, ifname, addr)
    ensures r != null ==> exists k :: 0 <= k < |s| && s[k] == r && Matches(r.item, ifname, addr)
                                      && forall j :: 0 <= j < k ==> !Matches(s[j].item, ifname, addr)
  {
    ghost var k := 0;
    r := il.first;
    while r != null
      invariant k <= |s| && r == At(s, k)
      invariant forall j :: 0 <= j < k ==> !Matches(s[j].item, ifname, addr)
      decreases |s| - k
    {
      if Matches(r.item, ifname, addr) {
        return;
      }
      r := r.next;
      k := k + 1;
    }
  }

  /** The allocator's view: what has been freed.  Freeing leaves arbitrary values behind. */
  class Allocator {
    ghost var freed: seq<Entry>

    constructor ()
      ensures freed == []
    {
      freed := [];
    }

    method Free(e: Entry)
      requires e !in freed
      modifies this, e
      ensures freed == old(freed) + [e]
    {
      freed := freed + [e];
      e.next := *;
      e.prev := *;
    }
  }

  /** The body of tear_iflist's loop. */
  method RemoveAndFree(entry: Entry, il: Head, alloc: Allocator, ghost s: seq<Entry>)
    requires IsList(il, s) && s != [] && s[0] == entry && entry !in alloc.freed
    modifies il, entry, Spot(s, 1), alloc
    ensures IsList(il, s[1..]) && alloc.freed == old(alloc.freed) + [entry]
  {
    Acyclic(il, s);
    Remove(entry, il, s, 0);
    assert Deleted(s, 0) == s[1..];
    alloc.Free(entry);
  }

  /** tear_iflist: every entry is unlinked and freed once, in list order, and nothing freed is read again,
      since a freed entry's links may hold anything. */
  method TearIflist(il: Head, alloc: Allocator, ghost s: seq<Entry>)
    requires IsList(il, s) && forall e :: e in s ==> e !in alloc.freed
    modifies il, s, alloc
    ensures IsList(il, [])
    ensures alloc.freed == old(alloc.freed) + s
  {
    Acyclic(il, s);
    var entry, tmp := il.first, il.first;
    ghost var k := 0;
    while entry != null
      invariant k <= |s| && IsList(il, s[k..]) && entry == At(s, k)
      invariant alloc.freed == old(alloc.freed) + s[..k]
      decreases |s| - k
    {
      tmp := entry.next;
      assert tmp == At(s, k + 1);
      assert s[k] !in s[..k] && s[k..][1..] == s[k + 1..];
      RemoveAndFree(entry, il, alloc, s[k..]);
      assert s[..k + 1] == s[..k] + [s[k]];
      entry := tmp;
      k := k + 1;
    }
  }
}
