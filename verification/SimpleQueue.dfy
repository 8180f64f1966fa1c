/** Simple queues (SIMPLEQ_*) on raw memory.

  Memory maps the address of every pointer-sized cell to its contents; addresses are values of a type `W` with a
  distinguished NULL.
  */
module SimpleQueue {
  import opened Seqs

  /** Where a queue's cells are: those of its head, and for each element it may hold, the address of the
      element's next-field. */
  datatype Layout<W(==)> = Layout(nil: W, first: W, last: W, fields: map<W, W>) {
    function Next(e: W): W {
      if e in fields then fields[e] else nil
    }

    /** The cells that hold links. */
    ghost function Links(): set<W> {
      {first, last} + fields.Values
    }

    /** Elements are not NULL, and no two cells overlap. */
    ghost predicate Valid() {
      && first != last
      && nil !in fields
      && (forall e :: e in fields ==> fields[e] != first && fields[e] != last)
      && (forall e, f :: e in fields && f in fields && fields[e] == fields[f] ==> e == f)
    }
  }

  // ---------------------------------------------------------------- SIMPLEQ on memory

  function At<W>(nil: W, s: seq<W>, i: int): W {
    if 0 <= i < |s| then s[i] else nil
  }

  /** The address of the link that must hold element `i`. */
  function Slot<W(==)>(q: Layout<W>, s: seq<W>, i: nat): W
    requires i <= |s|
  {
    if i == 0 then q.first else q.Next(s[i - 1])
  }

  /** Memory `m` holds the queue `q` with exactly the elements `s`. */
  ghost predicate IsQueue<W>(q: Layout<W>, m: map<W, W>, s: seq<W>) {
    && q.Valid() && q.Links() <= m.Keys
    && (forall i :: 0 <= i < |s| ==> s[i] in q.fields)
    && m[q.first] == At(q.nil, s, 0)
    && m[q.last] == Slot(q, s, |s|)
    && (forall i {:trigger m[q.Next(s[i])]} :: 0 <= i < |s| ==> m[q.Next(s[i])] == At(q.nil, s, i + 1))
  }

  lemma {:induction false} SameTail<W>(q: Layout<W>, m: map<W, W>, s: seq<W>, i: nat, j: nat)
    requires IsQueue(q, m, s) && i < j < |s|
    ensures s[i] != s[j]
    decreases |s| - j
  {
    if s[i] == s[j] {
      assert m[q.Next(s[i])] == At(q.nil, s, i + 1) && m[q.Next(s[j])] == At(q.nil, s, j + 1);
      if j + 1 < |s| { SameTail(q, m, s, i + 1, j + 1); }
    }
  }

  /** The queue ends in NULL, so no element is in it twice. */
  lemma NoCycle<W>(q: Layout<W>, m: map<W, W>, s: seq<W>)
    requires IsQueue(q, m, s)
    ensures Distinct(s)
  {
    forall i, j | 0 <= i < j < |s| ensures s[i] != s[j] {
      SameTail(q, m, s, i, j);
    }
  }

  /** A use of a macro after INIT. */
  datatype Op<W> = InsertHead(elm: W) | InsertTail(elm: W) | InsertAfter(at: W, elm: W)
              | RemoveHead | RemoveAfter(at: W)

  /** What the macro asks for, the queue holding `s`. */
  ghost predicate Legal<W>(q: Layout<W>, s: seq<W>, op: Op<W>) {
    match op
    case InsertHead(elm) => elm in q.fields && elm !in s
    case InsertTail(elm) => elm in q.fields && elm !in s
    case InsertAfter(at, elm) => elm in q.fields && elm !in s && at in s
    case RemoveHead => s != []
    case RemoveAfter(at) => at in s && at != s[|s| - 1]
  }

  /** What the macro means for the contents. */
  ghost function Apply<W>(q: Layout<W>, s: seq<W>, op: Op<W>): seq<W>
    requires Legal(q, s, op)
  {
    match op
    case InsertHead(elm) => [elm] + s
    case InsertTail(elm) => s + [elm]
    case InsertAfter(at, elm) => Inserted(s, Find(s, at) + 1, elm)
    case RemoveHead => s[1..]
    case RemoveAfter(at) => Deleted(s, Find(s, at) + 1)
  }

  function Load<W(==)>(q: Layout<W>, m: map<W, W>, a: W): W {
    if a in m then m[a] else q.nil
  }

  /** What the SIMPLEQ macro does to memory. */
  function Simple<W(==)>(q: Layout<W>, m: map<W, W>, op: Op<W>): map<W, W> {
    match op
    case InsertHead(elm) =>
      var m1 := m[q.Next(elm) := Load(q, m, q.first)];
      var m2 := if Load(q, m1, q.Next(elm)) == q.nil then m1[q.last := q.Next(elm)] else m1;
      m2[q.first := elm]
    case InsertTail(elm) =>
      var m1 := m[q.Next(elm) := q.nil];
      var m2 := m1[Load(q, m1, q.last) := elm];
      m2[q.last := q.Next(elm)]
    case InsertAfter(at, elm) =>
      var m1 := m[q.Next(elm) := Load(q, m, q.Next(at))];
      var m2 := if Load(q, m1, q.Next(elm)) == q.nil then m1[q.last := q.Next(elm)] else m1;
      m2[q.Next(at) := elm]
    case RemoveHead =>
      var m1 := m[q.first := Load(q, m, q.Next(Load(q, m, q.first)))];
      if Load(q, m1, q.first) == q.nil then m1[q.last := q.first] else m1
    case RemoveAfter(at) =>
      var m1 := m[q.Next(at) := Load(q, m, q.Next(Load(q, m, q.Next(at))))];
      if Load(q, m1, q.Next(at)) == q.nil then m1[q.last := q.Next(at)] else m1
  }

  /** SIMPLEQ_INIT */
  function SimpleInit<W(==)>(q: Layout<W>, m: map<W, W>): map<W, W> {
    m[q.first := q.nil][q.last := q.first]
  }

  lemma InitIsEmpty<W>(q: Layout<W>, m: map<W, W>)
    requires q.Valid() && q.Links() <= m.Keys
    ensures IsQueue(q, SimpleInit(q, m), [])
  {
  }

  /** What holds of the head, and of an element that may be inserted. */
  lemma HeadFacts<W>(q: Layout<W>, m: map<W, W>, s: seq<W>)
    requires IsQueue(q, m, s)
    ensures q.first in m && q.last in m && q.first != q.last
    ensures forall e :: e in q.fields ==> q.Next(e) in m && q.Next(e) != q.first && q.Next(e) != q.last && e != q.nil
    ensures forall e, f :: e in q.fields && f in q.fields && q.Next(e) == q.Next(f) ==> e == f
  {
    assert q.first in q.Links() && q.last in q.Links();
    forall e | e in q.fields ensures q.Next(e) in m {
      assert q.Next(e) in q.Links();
    }
  }

  /** What holds of the element at position `i`. */
  lemma ElementFacts<W>(q: Layout<W>, m: map<W, W>, s: seq<W>, i: nat)
    requires IsQueue(q, m, s) && i < |s|
    ensures s[i] in q.fields && s[i] != q.nil && q.Next(s[i]) in m
    ensures q.Next(s[i]) != q.first && q.Next(s[i]) != q.last
    ensures m[q.Next(s[i])] == At(q.nil, s, i + 1)
    ensures forall j :: 0 <= j < |s| && j != i ==> s[j] != s[i]
  {
    HeadFacts(q, m, s);
    NoCycle(q, m, s);
  }

  /** Every cell of `m'` is that of `m`, except those at `as`. */
  ghost predicate SameBut<W>(m: map<W, W>, m': map<W, W>, cells: set<W>) {
    m'.Keys == m.Keys && forall a :: a in m && a !in cells ==> m'[a] == m[a]
  }

  lemma InsertHeadCells<W>(q: Layout<W>, m: map<W, W>, elm: W)
    requires q.first in m && q.last in m && q.Next(elm) in m
    requires q.first != q.last && q.Next(elm) != q.first && q.Next(elm) != q.last
    ensures var m' := Simple(q, m, InsertHead(elm));
            && SameBut(m, m', {q.first, q.last, q.Next(elm)})
            && m'[q.Next(elm)] == m[q.first] && m'[q.first] == elm
            && m'[q.last] == if m[q.first] == q.nil then q.Next(elm) else m[q.last]
  {
  }

  lemma InsertHeadRefines<W>(q: Layout<W>, m: map<W, W>, s: seq<W>, elm: W)
    requires IsQueue(q, m, s) && Legal(q, s, InsertHead(elm))
    ensures IsQueue(q, Simple(q, m, InsertHead(elm)), [elm] + s)
  {
    hide Simple, Layout.Links, Layout.Valid;
    HeadFacts(q, m, s);
    InsertHeadCells(q, m, elm);
    var m', s' := Simple(q, m, InsertHead(elm)), [elm] + s;
    if s != [] { ElementFacts(q, m, s, |s| - 1); ElementFacts(q, m, s, 0); }
    forall i | 0 <= i < |s'| ensures m'[q.Next(s'[i])] == At(q.nil, s', i + 1) {
      if i > 0 { ElementFacts(q, m, s, i - 1); }
    }
  }

  lemma InsertTailCells<W>(q: Layout<W>, m: map<W, W>, elm: W)
    requires q.first in m && q.last in m && q.Next(elm) in m && m[q.last] in m
    requires q.first != q.last && q.Next(elm) != q.first && q.Next(elm) != q.last
    requires m[q.last] != q.last && m[q.last] != q.Next(elm)
    ensures var m' := Simple(q, m, InsertTail(elm));
            && SameBut(m, m', {m[q.last], q.last, q.Next(elm)})
            && m'[q.Next(elm)] == q.nil && m'[m[q.last]] == elm && m'[q.last] == q.Next(elm)
  {
  }

  lemma InsertTailRefines<W>(q: Layout<W>, m: map<W, W>, s: seq<W>, elm: W)
    requires IsQueue(q, m, s) && Legal(q, s, InsertTail(elm))
    ensures IsQueue(q, Simple(q, m, InsertTail(elm)), s + [elm])
  {
    hide Simple, Layout.Links, Layout.Valid;
    HeadFacts(q, m, s);
    if s != [] { ElementFacts(q, m, s, |s| - 1); }
    InsertTailCells(q, m, elm);
    var m', s' := Simple(q, m, InsertTail(elm)), s + [elm];
    forall i | 0 <= i < |s'| ensures m'[q.Next(s'[i])] == At(q.nil, s', i + 1) {
      if i < |s| { ElementFacts(q, m, s, i); }
    }
  }

  lemma InsertAfterCells<W>(q: Layout<W>, m: map<W, W>, at: W, elm: W)
    requires q.last in m && q.Next(at) in m && q.Next(elm) in m
    requires q.Next(at) != q.Next(elm) && q.Next(elm) != q.last && q.Next(at) != q.last
    ensures var m' := Simple(q, m, InsertAfter(at, elm));
            && SameBut(m, m', {q.Next(at), q.last, q.Next(elm)})
            && m'[q.Next(elm)] == m[q.Next(at)] && m'[q.Next(at)] == elm
            && m'[q.last] == if m[q.Next(at)] == q.nil then q.Next(elm) else m[q.last]
  {
  }

  lemma InsertAfterLink<W>(q: Layout<W>, m: map<W, W>, s: seq<W>, k: nat, elm: W, i: nat)
    requires IsQueue(q, m, s) && k < |s| && elm in q.fields && elm !in s && i <= |s|
    ensures var m', s' := Simple(q, m, InsertAfter(s[k], elm)), Inserted(s, k + 1, elm);
            q.Next(s'[i]) in m' && m'[q.Next(s'[i])] == At(q.nil, s', i + 1)
  {
    hide Simple, Layout.Links, Layout.Valid;
    HeadFacts(q, m, s);
    ElementFacts(q, m, s, k);
    InsertAfterCells(q, m, s[k], elm);
    if i <= k { ElementFacts(q, m, s, i); } else if i > k + 1 { ElementFacts(q, m, s, i - 1); }
  }

  lemma InsertAfterEnds<W>(q: Layout<W>, m: map<W, W>, s: seq<W>, k: nat, elm: W)
    requires IsQueue(q, m, s) && k < |s| && elm in q.fields && elm !in s
    ensures var m', s' := Simple(q, m, InsertAfter(s[k], elm)), Inserted(s, k + 1, elm);
            && m'.Keys == m.Keys && q.first in m && q.last in m && (forall x :: x in s' ==> x in q.fields)
            && m'[q.first] == At(q.nil, s', 0) && m'[q.last] == Slot(q, s', |s'|)
  {
    hide Simple, Layout.Links, Layout.Valid;
    HeadFacts(q, m, s);
    ElementFacts(q, m, s, k);
    InsertAfterCells(q, m, s[k], elm);
    if k + 1 < |s| { ElementFacts(q, m, s, k + 1); }
  }

  lemma InsertAfterRefines<W>(q: Layout<W>, m: map<W, W>, s: seq<W>, k: nat, elm: W)
    requires IsQueue(q, m, s) && k < |s| && elm in q.fields && elm !in s
    ensures IsQueue(q, Simple(q, m, InsertAfter(s[k], elm)), Inserted(s, k + 1, elm))
  {
    hide Simple, Layout.Links, Layout.Valid, Inserted;
    InsertAfterEnds(q, m, s, k, elm);
    var m', s' := Simple(q, m, InsertAfter(s[k], elm)), Inserted(s, k + 1, elm);
    forall i | 0 <= i < |s'| ensures q.Next(s'[i]) in m' && m'[q.Next(s'[i])] == At(q.nil, s', i + 1) {
      InsertAfterLink(q, m, s, k, elm, i);
    }
  }

  lemma RemoveHeadCells<W>(q: Layout<W>, m: map<W, W>)
    requires q.first in m && q.last in m && q.first != q.last && q.Next(m[q.first]) in m
    ensures var m', n := Simple(q, m, RemoveHead), m[q.Next(m[q.first])];
            && SameBut(m, m', {q.first, q.last})
            && m'[q.first] == n && m'[q.last] == if n == q.nil then q.first else m[q.last]
  {
  }

  lemma RemoveHeadRefines<W>(q: Layout<W>, m: map<W, W>, s: seq<W>)
    requires IsQueue(q, m, s) && s != []
    ensures IsQueue(q, Simple(q, m, RemoveHead), s[1..])
  {
    hide Simple, Layout.Links, Layout.Valid;
    HeadFacts(q, m, s);
    ElementFacts(q, m, s, 0);
    if |s| > 1 { ElementFacts(q, m, s, 1); }
    RemoveHeadCells(q, m);
    var m', s' := Simple(q, m, RemoveHead), s[1..];
    forall i | 0 <= i < |s'| ensures m'[q.Next(s'[i])] == At(q.nil, s', i + 1) {
      ElementFacts(q, m, s, i + 1);
    }
  }

  lemma RemoveAfterCells<W>(q: Layout<W>, m: map<W, W>, at: W)
    requires q.last in m && q.Next(at) in m && q.Next(m[q.Next(at)]) in m && q.Next(at) != q.last
    ensures var m', n := Simple(q, m, RemoveAfter(at)), m[q.Next(m[q.Next(at)])];
            && SameBut(m, m', {q.Next(at), q.last})
            && m'[q.Next(at)] == n && m'[q.last] == if n == q.nil then q.Next(at) else m[q.last]
  {
  }

  lemma RemoveAfterRefines<W>(q: Layout<W>, m: map<W, W>, s: seq<W>, k: nat)
    requires IsQueue(q, m, s) && k + 1 < |s|
    ensures IsQueue(q, Simple(q, m, RemoveAfter(s[k])), Deleted(s, k + 1))
  {
    hide Simple, Layout.Links, Layout.Valid;
    HeadFacts(q, m, s);
    ElementFacts(q, m, s, k);
    ElementFacts(q, m, s, k + 1);
    if k + 2 < |s| { ElementFacts(q, m, s, k + 2); }
    RemoveAfterCells(q, m, s[k]);
    var m', s' := Simple(q, m, RemoveAfter(s[k])), Deleted(s, k + 1);
    forall i | 0 <= i < |s'| ensures m'[q.Next(s'[i])] == At(q.nil, s', i + 1) {
      if i <= k { ElementFacts(q, m, s, i); } else { ElementFacts(q, m, s, i + 1); }
    }
  }

  /** Every SIMPLEQ macro does to the contents what its name says. */
  lemma SimpleRefines<W>(q: Layout<W>, m: map<W, W>, s: seq<W>, op: Op<W>)
    requires IsQueue(q, m, s) && Legal(q, s, op)
    ensures IsQueue(q, Simple(q, m, op), Apply(q, s, op))
  {
    NoCycle(q, m, s);
    hide IsQueue, Simple;
    match op {
      case InsertHead(elm) => InsertHeadRefines(q, m, s, elm);
      case InsertTail(elm) => InsertTailRefines(q, m, s, elm);
      case InsertAfter(at, elm) => InsertAfterRefines(q, m, s, Find(s, at), elm);
      case RemoveHead => RemoveHeadRefines(q, m, s);
      case RemoveAfter(at) => RemoveAfterRefines(q, m, s, Find(s, at));
    }
  }

  // ---------------------------------------------------------------- runs

  ghost predicate LegalRun<W>(q: Layout<W>, s: seq<W>, ops: seq<Op<W>>)
    decreases |ops|, 0
  {
    ops == [] || (LegalRun(q, s, ops[..|ops| - 1])
                  && Legal(q, ApplyAll(q, s, ops[..|ops| - 1]), ops[|ops| - 1]))
  }

  ghost function ApplyAll<W>(q: Layout<W>, s: seq<W>, ops: seq<Op<W>>): seq<W>
    requires LegalRun(q, s, ops)
    decreases |ops|, 1
  {
    if ops == [] then s else Apply(q, ApplyAll(q, s, ops[..|ops| - 1]), ops[|ops| - 1])
  }

  ghost function SimpleAll<W>(q: Layout<W>, m: map<W, W>, ops: seq<Op<W>>): map<W, W> {
    if ops == [] then m else Simple(q, SimpleAll(q, m, ops[..|ops| - 1]), ops[|ops| - 1])
  }

  /** Memory as a machine has it. */
  class Ram<W(==)> {
    var cells: map<W, W>

    constructor (cells: map<W, W>)
      ensures this.cells == cells
    {
      this.cells := cells;
    }

    function Load(a: W): W
      requires a in cells
      reads this
    {
      cells[a]
    }

    method Store(a: W, v: W)
      requires a in cells
      modifies this
      ensures cells == old(cells)[a := v]
    {
      cells := cells[a := v];
    }
  }

  /** SIMPLEQ_INIT */
  method Init<W(==)>(ram: Ram<W>, q: Layout<W>)
    requires q.Valid() && q.Links() <= ram.cells.Keys
    modifies ram
    ensures ram.cells == SimpleInit(q, old(ram.cells))
  {
    assert q.first in q.Links() && q.last in q.Links();
    ram.Store(q.first, q.nil);
    ram.Store(q.last, q.first);
  }

  /** The macros that change a queue: afterwards memory holds the queue with the contents the macro's name says. */
  method Perform<W(==)>(ram: Ram<W>, q: Layout<W>, op: Op<W>, ghost s: seq<W>)
    requires IsQueue(q, ram.cells, s) && Legal(q, s, op)
    modifies ram
    ensures IsQueue(q, ram.cells, Apply(q, s, op))
    ensures ram.cells == Simple(q, old(ram.cells), op)
  {
    SimpleRefines(q, ram.cells, s, op);
    Stores(ram, q, op, s);
    hide *;
  }

  /** Their stores, one by one. */
  method Stores<W(==)>(ram: Ram<W>, q: Layout<W>, op: Op<W>, ghost s: seq<W>)
    requires IsQueue(q, ram.cells, s) && Legal(q, s, op)
    modifies ram
    ensures ram.cells == Simple(q, old(ram.cells), op)
  {
    HeadFacts(q, ram.cells, s);
    if s != [] {
      ElementFacts(q, ram.cells, s, 0);
      ElementFacts(q, ram.cells, s, |s| - 1);
    }
    match op {
      case InsertHead(elm) =>
        ram.Store(q.Next(elm), ram.Load(q.first));
        if ram.Load(q.Next(elm)) == q.nil {
          ram.Store(q.last, q.Next(elm));
        }
        ram.Store(q.first, elm);
      case InsertTail(elm) =>
        ram.Store(q.Next(elm), q.nil);
        ram.Store(ram.Load(q.last), elm);
        ram.Store(q.last, q.Next(elm));
      case InsertAfter(at, elm) =>
        ElementFacts(q, ram.cells, s, Find(s, at));
        ram.Store(q.Next(elm), ram.Load(q.Next(at)));
        if ram.Load(q.Next(elm)) == q.nil {
          ram.Store(q.last, q.Next(elm));
        }
        ram.Store(q.Next(at), elm);
      case RemoveHead =>
        ram.Store(q.first, ram.Load(q.Next(ram.Load(q.first))));
        if ram.Load(q.first) == q.nil {
          ram.Store(q.last, q.first);
        }
      case RemoveAfter(at) =>
        ElementFacts(q, ram.cells, s, Find(s, at));
        ElementFacts(q, ram.cells, s, Find(s, at) + 1);
        ram.Store(q.Next(at), ram.Load(q.Next(ram.Load(q.Next(at)))));
        if ram.Load(q.Next(at)) == q.nil {
          ram.Store(q.last, q.Next(at));
        }
    }
  }
}
