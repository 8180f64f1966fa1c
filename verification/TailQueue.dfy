/** Tail queues (TAILQ_*): doubly linked queues whose back links are addresses of next-fields.

  `struct type **` is modelled by `Loc`, the address of one next-field: either the `tqh_first` of a
  head or the `tqe_next` of an entry.  A head {tqh_first, tqh_last} and an entry {tqe_next, tqe_prev}
  have the same layout, and TAILQ_LAST and TAILQ_PREV read one through the type of the other; here that
  is `Second`, the field laid out right behind the next-field at a given address.
  */
module TailQueue {
  import opened Seqs

  datatype Loc = Nowhere | FirstOf(head: Head) | NextOf(entry: Entry)

  /** A zero-initialised entry (TAILQ_ENTRY). */
  class Entry {
    var next: Entry?
    var prev: Loc

    constructor ()
      ensures next == null && prev == Nowhere
    {
      next, prev := null, Nowhere;
    }
  }

  class Head {
    var first: Entry?
    var last: Loc

    /** TAILQ_HEAD_INITIALIZER */
    constructor ()
      ensures IsQueue(this, [])
    {
      first := null;
      last := Nowhere;
      new;
      last := FirstOf(this);
    }
  }

  /** The object in which the addressed next-field lives. */
  function Owner(l: Loc): set<object> {
    match l
    case Nowhere => {}
    case FirstOf(h) => {h}
    case NextOf(e) => {e}
  }

  /** `*l` */
  function Deref(l: Loc): Entry?
    requires l != Nowhere
    reads Owner(l)
  {
    match l
    case FirstOf(h) => h.first
    case NextOf(e) => e.next
  }

  /** The `struct type **` stored directly behind the next-field at `l`: the layout pun. */
  function Second(l: Loc): Loc
    requires l != Nowhere
    reads Owner(l)
  {
    match l
    case FirstOf(h) => h.last
    case NextOf(e) => e.prev
  }

  /** `*l = v` */
  method Store(l: Loc, v: Entry?)
    requires l != Nowhere
    modifies Owner(l)
    ensures Deref(l) == v
    ensures Second(l) == old(Second(l))
  {
    match l
    case FirstOf(h) => h.first := v;
    case NextOf(e) => e.next := v;
  }

  // ---------------------------------------------------------------- the invariant

  /** Element `i` of `s`, or NULL past its end. */
  function At(s: seq<Entry>, i: int): Entry? {
    if 0 <= i < |s| then s[i] else null
  }

  /** The address of the next-field that must point at position `i` of queue `h`. */
  function Slot(h: Head, s: seq<Entry>, i: nat): Loc
    requires i <= |s|
  {
    if i == 0 then FirstOf(h) else NextOf(s[i - 1])
  }

  /** The queue at `h` holds exactly the entries `s`, in order, every link being the right one. */
  ghost predicate IsQueue(h: Head, s: seq<Entry>)
    reads h, s
  {
    && h.first == At(s, 0)
    && h.last == Slot(h, s, |s|)
    && (forall i {:trigger s[i].next} :: 0 <= i < |s| ==> s[i].next == At(s, i + 1))
    && (forall i {:trigger s[i].prev} :: 0 <= i < |s| ==> s[i].prev == Slot(h, s, i))
  }

  /** Two positions holding the same entry are the same position of the same queue: walk back to the heads. */
  lemma {:induction false} SamePlace(g: Head, s: seq<Entry>, i: nat, h: Head, t: seq<Entry>, j: nat)
    requires IsQueue(g, s) && IsQueue(h, t)
    requires i < |s| && j < |t| && s[i] == t[j]
    ensures g == h && i == j
    decreases i
  {
    assert s[i].prev == Slot(g, s, i) && t[j].prev == Slot(h, t, j);
    if i > 0 {
      SamePlace(g, s, i - 1, h, t, j - 1);
    }
  }

  /** The chain is acyclic: no entry occurs twice. */
  lemma Acyclic(h: Head, s: seq<Entry>)
    requires IsQueue(h, s)
    ensures Distinct(s)
  {
    forall i, j | 0 <= i < j < |s| ensures s[i] != s[j] {
      if s[i] == s[j] { SamePlace(h, s, i, h, s, j); }
    }
  }

  /** Queues with different heads share no entry. */
  lemma Separate(g: Head, s: seq<Entry>, h: Head, t: seq<Entry>)
    requires IsQueue(g, s) && IsQueue(h, t) && g != h
    ensures forall e :: e in s ==> e !in t
  {
    forall e | e in s ensures e !in t {
      if e in t {
        var i :| 0 <= i < |s| && s[i] == e;
        var j :| 0 <= j < |t| && t[j] == e;
        SamePlace(g, s, i, h, t, j);
      }
    }
  }

  /** The memory at `h` determines the contents. */
  lemma ContentsUnique(h: Head, s: seq<Entry>, t: seq<Entry>)
    requires IsQueue(h, s) && IsQueue(h, t)
    ensures s == t
  {
    if |s| <= |t| {
      SamePrefix(h, s, t, |s|);
    } else {
      SamePrefix(h, t, s, |t|);
    }
  }

  lemma {:induction false} SamePrefix(h: Head, s: seq<Entry>, t: seq<Entry>, n: nat)
    requires IsQueue(h, s) && IsQueue(h, t)
    requires n <= |s| && n <= |t|
    ensures s[..n] == t[..n] && At(s, n) == At(t, n)
  {
    if n > 0 {
      SamePrefix(h, s, t, n - 1);
      assert s[n - 1].next == At(s, n) && t[n - 1].next == At(t, n);
    }
  }

  // ---------------------------------------------------------------- operations

  /** The entry at position `i`, if there is one. */
  ghost function Spot(s: seq<Entry>, i: int): (r: set<Entry>)
    ensures forall e :: e in r ==> e in s
  {
    if 0 <= i < |s| then {s[i]} else {}
  }

  /** TAILQ_INIT; whatever `h` held before, its links are not looked at. */
  method Init(h: Head)
    modifies h
    ensures IsQueue(h, [])
  {
    h.first := null;
    h.last := FirstOf(h);
  }

  method InsertHead(h: Head, elm: Entry, ghost s: seq<Entry>)
    requires IsQueue(h, s) && elm !in s
    modifies h, elm, Spot(s, 0)
    ensures IsQueue(h, [elm] + s)
  {
    Acyclic(h, s);
    elm.next := h.first;
    if elm.next != null {
      h.first.prev := NextOf(elm);
    } else {
      h.last := NextOf(elm);
    }
    h.first := elm;
    elm.prev := FirstOf(h);
  }

  method InsertTail(h: Head, elm: Entry, ghost s: seq<Entry>)
    requires IsQueue(h, s) && elm !in s
    modifies h, elm, Spot(s, |s| - 1)
    ensures IsQueue(h, s + [elm])
  {
    Acyclic(h, s);
    elm.next := null;
    elm.prev := h.last;
    Store(h.last, elm);
    h.last := NextOf(elm);
    assert forall i :: 0 <= i < |s| ==> (s + [elm])[i] == s[i];
  }

  method InsertAfter(h: Head, listelm: Entry, elm: Entry, ghost s: seq<Entry>, ghost i: nat)
    requires IsQueue(h, s) && elm !in s
    requires i < |s| && s[i] == listelm
    modifies h, elm, listelm, Spot(s, i + 1)
    ensures IsQueue(h, Inserted(s, i + 1, elm))
  {
    Acyclic(h, s);
    elm.next := listelm.next;
    if elm.next != null {
      elm.next.prev := NextOf(elm);
    } else {
      h.last := NextOf(elm);
    }
    listelm.next := elm;
    elm.prev := NextOf(listelm);
  }

  /** Needs no head: the back link of `listelm` is the address to overwrite. */
  method InsertBefore(listelm: Entry, elm: Entry, ghost h: Head, ghost s: seq<Entry>, ghost i: nat)
    requires IsQueue(h, s) && elm !in s
    requires i < |s| && s[i] == listelm
    modifies elm, if i == 0 then {h} else {}, listelm, Spot(s, i - 1)
    ensures IsQueue(h, Inserted(s, i, elm))
  {
    Acyclic(h, s);
    elm.prev := listelm.prev;
    elm.next := listelm;
    Store(listelm.prev, elm);
    listelm.prev := NextOf(elm);
  }

  method Remove(h: Head, elm: Entry, ghost s: seq<Entry>, ghost i: nat)
    requires IsQueue(h, s)
    requires i < |s| && s[i] == elm
    modifies h, Spot(s, i - 1), Spot(s, i + 1)
    ensures IsQueue(h, Deleted(s, i))
  {
    Acyclic(h, s);
    if elm.next != null {
      elm.next.prev := elm.prev;
    } else {
      h.last := elm.prev;
    }
    Store(elm.prev, elm.next);
  }

  method Replace(h: Head, elm: Entry, elm2: Entry, ghost s: seq<Entry>, ghost i: nat)
    requires IsQueue(h, s) && elm2 !in s
    requires i < |s| && s[i] == elm
    modifies h, elm2, Spot(s, i - 1), Spot(s, i + 1)
    ensures IsQueue(h, s[i := elm2])
  {
    Acyclic(h, s);
    elm2.next := elm.next;
    if elm2.next != null {
      elm2.next.prev := NextOf(elm2);
    } else {
      h.last := NextOf(elm2);
    }
    elm2.prev := elm.prev;
    Store(elm2.prev, elm2);
  }

  method Concat(h1: Head, h2: Head, ghost s1: seq<Entry>, ghost s2: seq<Entry>)
    requires h1 != h2 && IsQueue(h1, s1) && IsQueue(h2, s2)
    modifies h1, h2, Spot(s1, |s1| - 1), Spot(s2, 0)
    ensures IsQueue(h1, s1 + s2) && IsQueue(h2, [])
  {
    Acyclic(h1, s1);
    Acyclic(h2, s2);
    Separate(h1, s1, h2, s2);
    if h2.first != null {
      Store(h1.last, h2.first);
      h2.first.prev := h1.last;
      h1.last := h2.last;
      Init(h2);
    }
  }

  // ---------------------------------------------------------------- traversal

  /** TAILQ_LAST: the head's last-link address, read as a head, leads back to the last entry. */
  method Last(h: Head, ghost s: seq<Entry>) returns (r: Entry?)
    requires IsQueue(h, s)
    ensures r == At(s, |s| - 1)
  {
    ghost var n := |s|;
    assert n > 0 ==> s[n - 1].prev == Slot(h, s, n - 1);
    assert n > 1 ==> s[n - 2].next == At(s, n - 1);
    r := Deref(Second(h.last));
  }

  /** TAILQ_PREV: an entry's back link, read as a head, leads to the previous entry, or to NULL. */
  method Prev(elm: Entry, ghost h: Head, ghost s: seq<Entry>, ghost i: nat) returns (r: Entry?)
    requires IsQueue(h, s) && i < |s| && s[i] == elm
    ensures r == At(s, i - 1)
  {
    ghost var n := |s|;
    assert s[n - 1].next == null;
    assert i > 0 ==> s[i - 1].prev == Slot(h, s, i - 1);
    assert i > 1 ==> s[i - 2].next == At(s, i - 1);
    r := Deref(Second(elm.prev));
  }

  /** TAILQ_FOREACH */
  method Foreach(h: Head, ghost s: seq<Entry>) returns (visited: seq<Entry>)
    requires IsQueue(h, s)
    ensures visited == s
  {
    visited := [];
    var v := h.first;
    while v != null
      invariant |visited| <= |s| && visited == s[..|visited|] && v == At(s, |visited|)
      decreases |s| - |visited|
    {
      visited := visited + [v];
      v := v.next;
    }
  }

  /** TAILQ_FOREACH_REVERSE */
  method ForeachReverse(h: Head, ghost s: seq<Entry>) returns (visited: seq<Entry>)
    requires IsQueue(h, s)
    ensures visited == Reversed(s)
  {
    visited := [];
    var v := Last(h, s);
    while v != null
      invariant |visited| <= |s| && visited == Reversed(s)[..|visited|] && v == At(s, |s| - 1 - |visited|)
      decreases |s| - |visited|
    {
      ghost var i := |s| - 1 - |visited|;
      visited := visited + [v];
      v := Prev(v, h, s, i);
    }
  }

  // ---------------------------------------------------------------- every queue at once

  /** All the tail queues of a program: each head with its contents. */
  type World = map<Head, seq<Entry>>

  ghost function Entries(w: World): set<Entry> {
    set h, e | h in w && e in w[h] :: e
  }

  ghost predicate Queues(w: World)
    reads w.Keys, Entries(w)
  {
    forall h :: h in w ==> assert forall e :: e in w[h] ==> e in Entries(w); IsQueue(h, w[h])
  }

  /** An entry that is in no queue. */
  ghost predicate Loose(w: World, e: Entry) {
    forall h :: h in w ==> e !in w[h]
  }

  lemma Apart(w: World, h: Head)
    requires Queues(w) && h in w
    ensures Distinct(w[h])
    ensures forall g, e :: g in w && g != h && e in w[g] ==> e !in w[h]
  {
    Acyclic(h, w[h]);
    forall g, e | g in w && g != h && e in w[g] ensures e !in w[h] {
      Separate(g, w[g], h, w[h]);
    }
  }

  /** One use of a macro.  INSERT_BEFORE takes no head in C; `h` only names the queue meant. */
  datatype Op =
    | OpInit(h: Head)
    | OpInsertHead(h: Head, elm: Entry)
    | OpInsertTail(h: Head, elm: Entry)
    | OpInsertAfter(h: Head, at: Entry, elm: Entry)
    | OpInsertBefore(h: Head, at: Entry, elm: Entry)
    | OpRemove(h: Head, at: Entry)
    | OpReplace(h: Head, at: Entry, elm: Entry)
    | OpConcat(h: Head, h2: Head)

  /** What the macros ask of their callers. */
  ghost predicate Legal(w: World, op: Op) {
    && (op.OpInit? || op.h in w)
    && (op.OpInit? || op.OpRemove? || op.OpConcat? || Loose(w, op.elm))
    && (op.OpInsertAfter? || op.OpInsertBefore? || op.OpRemove? || op.OpReplace? ==> op.at in w[op.h])
    && (op.OpConcat? ==> op.h2 in w && op.h2 != op.h)
  }

  /** What each macro means for the contents of the queues. */
  ghost function Apply(w: World, op: Op): World
    requires Legal(w, op)
  {
    match op
    case OpInit(h) => w[h := []]
    case OpInsertHead(h, elm) => w[h := [elm] + w[h]]
    case OpInsertTail(h, elm) => w[h := w[h] + [elm]]
    case OpInsertAfter(h, at, elm) => w[h := Inserted(w[h], Find(w[h], at) + 1, elm)]
    case OpInsertBefore(h, at, elm) => w[h := Inserted(w[h], Find(w[h], at), elm)]
    case OpRemove(h, at) => w[h := Deleted(w[h], Find(w[h], at))]
    case OpReplace(h, at, elm) => w[h := w[h][Find(w[h], at) := elm]]
    case OpConcat(h, h2) => w[h := w[h] + w[h2]][h2 := []]
  }

  ghost predicate LegalRun(w: World, ops: seq<Op>)
    decreases |ops|
  {
    ops == [] || (Legal(w, ops[0]) && LegalRun(Apply(w, ops[0]), ops[1..]))
  }

  ghost function ApplyAll(w: World, ops: seq<Op>): World
    requires LegalRun(w, ops)
    decreases |ops|
  {
    if ops == [] then w else ApplyAll(Apply(w, ops[0]), ops[1..])
  }

  /** The queues a macro names, and their entries, and its loose operand. */
  ghost function Heads(op: Op): set<Head> {
    if op.OpConcat? then {op.h, op.h2} else {op.h}
  }

  ghost function Touched(w: World, op: Op): set<object> {
    Heads(op) + (set h: Head, e: Entry | h in Heads(op) && h in w && e in w[h] :: e as object)
    + (if op.OpInit? || op.OpRemove? || op.OpConcat? then {} else {op.elm})
  }

  method Perform(op: Op, ghost w: World)
    requires Queues(w) && Legal(w, op)
    modifies Touched(w, op)
    ensures forall h :: h in Heads(op) ==> IsQueue(h, Apply(w, op)[h])
  {
    match op {
      case OpInit(h) =>
        Init(h);
      case OpInsertHead(h, elm) =>
        InsertHead(h, elm, w[h]);
      case OpInsertTail(h, elm) =>
        InsertTail(h, elm, w[h]);
      case OpInsertAfter(h, at, elm) =>
        InsertAfter(h, at, elm, w[h], Find(w[h], at));
      case OpInsertBefore(h, at, elm) =>
        InsertBefore(at, elm, h, w[h], Find(w[h], at));
      case OpRemove(h, at) =>
        Remove(h, at, w[h], Find(w[h], at));
      case OpReplace(h, at, elm) =>
        Replace(h, at, elm, w[h], Find(w[h], at));
      case OpConcat(h, h2) =>
        Concat(h, h2, w[h], w[h2]);
    }
  }

  /** The queues a macro does not name. */
  lemma OthersStay(w: World, op: Op, g: Head)
    requires Queues(w) && Legal(w, op) && g in Apply(w, op) && g !in Heads(op)
    ensures g in w && Apply(w, op)[g] == w[g] && IsQueue(g, w[g])
    ensures g !in Touched(w, op) && forall e :: e in w[g] ==> e !in Touched(w, op)
  {
    forall h | h in Heads(op) && h in w { Apart(w, h); }
    hide IsQueue;
  }

  /** One macro keeps every queue of the program well linked, and changes only the contents it names. */
  method Step(op: Op, ghost w: World)
    requires Queues(w) && Legal(w, op)
    modifies Touched(w, op)
    ensures Queues(Apply(w, op))
  {
    hide Legal, Apply, Touched, Heads, IsQueue;
    ghost var u := Apply(w, op);
    forall g | g in u && g !in Heads(op)
      ensures g in w && u[g] == w[g] && IsQueue(g, w[g])
      ensures g !in Touched(w, op) && forall e :: e in w[g] ==> e !in Touched(w, op)
    {
      OthersStay(w, op, g);
    }
    Perform(op, w);
    forall g | g in u ensures IsQueue(g, u[g]) {
      assert g !in Heads(op) ==> old(IsQueue(g, w[g]));
    }
  }

  lemma StaysWithin(op: Op, w: World, all: set<object>)
    requires Legal(w, op)
    requires w.Keys <= all && Entries(w) <= all && Touched(map[], op) <= all
    ensures Touched(w, op) <= all
    ensures Apply(w, op).Keys <= all && Entries(Apply(w, op)) <= all
  {
    assert Heads(op) <= Touched(map[], op);
    forall e | e in Touched(w, op) ensures e in all {
      if e in (set h: Head, x: Entry | h in Heads(op) && h in w && x in w[h] :: x as object) {
        assert e in Entries(w);
      }
    }
    var u := Apply(w, op);
    forall e | e in Entries(u) ensures e in Entries(w) || e in Touched(map[], op) {
      var h :| h in u && e in u[h];
      if !(h in w && e in w[h]) && !(op.OpConcat? && e in w[op.h2]) {
        assert e == op.elm;
      }
    }
  }

  /** Any legal run of macros, over any number of queues, ends in well-linked queues holding what it says. */
  method Run(ops: seq<Op>, ghost w: World, ghost all: set<object>)
    requires Queues(w) && LegalRun(w, ops)
    requires w.Keys <= all && Entries(w) <= all && forall op :: op in ops ==> Touched(map[], op) <= all
    modifies all
    ensures Queues(ApplyAll(w, ops))
  {
    if ops != [] {
      assert ops[0] in ops;
      StaysWithin(ops[0], w, all);
      Step(ops[0], w);
      Run(ops[1..], Apply(w, ops[0]), all);
    }
  }
}
