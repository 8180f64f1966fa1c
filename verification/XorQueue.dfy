/** XOR simple queues (XSIMPLEQ_*): every stored link is masked with the head's random cookie.

  The claim is a simulation: looking at memory through the mask, each XSIMPLEQ macro does exactly what the SIMPLEQ
  macro of the same name does to unmasked memory.
  */
module XorQueue {
  import opened Seqs
  import opened SimpleQueue

  /** An `unsigned long`, or a pointer cast to one: 64 bits. */
  type Word = w: seq<bool> | |w| == 64 witness Zeros(64)

  type Memory = map<Word, Word>

  const NULL: Word := Zeros(64)

  function Zeros(n: nat): (z: seq<bool>)
    ensures |z| == n
  {
    if n == 0 then [] else Zeros(n - 1) + [false]
  }

  function Xor(v: Word, w: Word): Word {
    seq(64, i requires 0 <= i < 64 => v[i] != w[i])
  }

  lemma XorTwice(v: Word, c: Word)
    ensures Xor(c, Xor(c, v)) == v
  {
  }

  /** Memory with the links of queue `q` unmasked by cookie `c`, everything else as it is. */
  ghost function Decoded(q: Layout<Word>, c: Word, m: Memory): Memory {
    map a | a in m :: if a in q.Links() then Xor(c, m[a]) else m[a]
  }

  /** XSIMPLEQ_XOR(head, ptr) */
  function Masked(ram: Ram<Word>, cookie: Word, ptr: Word): Word
    requires cookie in ram.cells
    reads ram
  {
    Xor(ram.Load(cookie), ptr)
  }

  /** The masked queue `q`, its cookie in cell `cookie`, holds `s`. */
  ghost predicate IsXQueue(q: Layout<Word>, cookie: Word, m: Memory, s: seq<Word>) {
    && q.nil == NULL && cookie in m && cookie !in q.Links()
    && IsQueue(q, Decoded(q, m[cookie], m), s)
  }

  lemma MaskedIs(q: Layout<Word>, cookie: Word, m: Memory, a: Word)
    requires cookie in m && a in m && a in q.Links()
    ensures m[a] == Xor(m[cookie], Decoded(q, m[cookie], m)[a])
    ensures m[a] == Xor(m[cookie], NULL) <==> Decoded(q, m[cookie], m)[a] == NULL
  {
    XorTwice(m[a], m[cookie]);
    XorTwice(NULL, m[cookie]);
  }

  /** Bit by bit: a stored link differs from the link exactly in the bits that are set in the cookie. */
  lemma MaskedBits(q: Layout<Word>, cookie: Word, m: Memory, a: Word, i: nat)
    requires cookie in m && a in m && a in q.Links() && i < 64
    ensures m[a][i] != Decoded(q, m[cookie], m)[a][i] <==> m[cookie][i]
  {
  }

  /** An assignment to a link cell: storing a masked link is storing the link, seen through the mask. */
  method Assign(ram: Ram<Word>, q: Layout<Word>, cookie: Word, a: Word, v: Word, ghost link: Word)
    requires cookie in ram.cells && cookie !in q.Links() && a in ram.cells && a in q.Links()
    requires v == Xor(ram.cells[cookie], link)
    modifies ram
    ensures cookie in ram.cells && ram.cells[cookie] == old(ram.cells[cookie])
    ensures ram.cells == old(ram.cells)[a := v]
    ensures var c := ram.cells[cookie]; Decoded(q, c, ram.cells) == Decoded(q, c, old(ram.cells))[a := link]
  {
    XorTwice(link, ram.cells[cookie]);
    ram.Store(a, v);
  }

  /** XSIMPLEQ_INIT; `random` is what arc4random_buf writes. */
  method XInit(ram: Ram<Word>, q: Layout<Word>, cookie: Word, random: Word)
    requires q.nil == NULL && q.Valid() && q.Links() <= ram.cells.Keys
    requires cookie in ram.cells && cookie !in q.Links()
    modifies ram
    ensures ram.cells.Keys == old(ram.cells.Keys) && ram.cells[cookie] == random
    ensures Decoded(q, random, ram.cells) == SimpleInit(q, Decoded(q, random, old(ram.cells)[cookie := random]))
    ensures IsXQueue(q, cookie, ram.cells, [])
  {
    hide Xor;
    assert q.first in q.Links() && q.last in q.Links();
    ram.Store(cookie, random);
    Assign(ram, q, cookie, q.first, Masked(ram, cookie, NULL), NULL);
    Assign(ram, q, cookie, q.last, Masked(ram, cookie, q.first), q.first);
    InitIsEmpty(q, Decoded(q, random, old(ram.cells)[cookie := random]));
  }

  /** Memory seen through the mask. */
  ghost function View(q: Layout<Word>, cookie: Word, m: Memory): Memory
    requires cookie in m
  {
    Decoded(q, m[cookie], m)
  }

  lemma ViewKeys(q: Layout<Word>, cookie: Word, m: Memory)
    requires cookie in m
    ensures View(q, cookie, m).Keys == m.Keys
  {
  }

  ghost predicate SameCookie(cookie: Word, m: Memory, m': Memory) {
    m'.Keys == m.Keys && cookie in m && m'[cookie] == m[cookie]
  }

  lemma LinkCells(q: Layout<Word>, e: Word)
    requires e in q.fields
    ensures q.Next(e) in q.Links() && q.first in q.Links() && q.last in q.Links()
  {
  }

  lemma LastLink(q: Layout<Word>, d: Memory, s: seq<Word>)
    requires IsQueue(q, d, s)
    ensures q.last in d && d[q.last] in q.Links() && d[q.last] in d && d[q.last] != q.last
  {
    HeadFacts(q, d, s);
    if s != [] { LinkCells(q, s[|s| - 1]); }
  }

  lemma NextInQueue(q: Layout<Word>, d: Memory, s: seq<Word>, at: Word)
    requires IsQueue(q, d, s) && Legal(q, s, RemoveAfter(at))
    ensures q.Next(at) in d && d[q.Next(at)] in q.fields
  {
    ElementFacts(q, d, s, Find(s, at));
    ElementFacts(q, d, s, Find(s, at) + 1);
  }

  method XInsertHead(ram: Ram<Word>, q: Layout<Word>, cookie: Word, elm: Word, ghost s: seq<Word>)
    requires IsXQueue(q, cookie, ram.cells, s) && Legal(q, s, InsertHead(elm))
    modifies ram
    ensures SameCookie(cookie, old(ram.cells), ram.cells)
    ensures View(q, cookie, ram.cells) == Simple(q, old(View(q, cookie, ram.cells)), InsertHead(elm))
  {
    hide Xor, Decoded, Layout.Valid, Layout.Links;
    ghost var d := View(q, cookie, ram.cells);
    ViewKeys(q, cookie, ram.cells);
    HeadFacts(q, d, s);
    LinkCells(q, elm);
    MaskedIs(q, cookie, ram.cells, q.first);
    Assign(ram, q, cookie, q.Next(elm), ram.Load(q.first), d[q.first]);
    if ram.Load(q.Next(elm)) == Masked(ram, cookie, NULL) {
      Assign(ram, q, cookie, q.last, Masked(ram, cookie, q.Next(elm)), q.Next(elm));
    }
    Assign(ram, q, cookie, q.first, Masked(ram, cookie, elm), elm);
  }

  method XInsertTail(ram: Ram<Word>, q: Layout<Word>, cookie: Word, elm: Word, ghost s: seq<Word>)
    requires IsXQueue(q, cookie, ram.cells, s) && Legal(q, s, InsertTail(elm))
    modifies ram
    ensures SameCookie(cookie, old(ram.cells), ram.cells)
    ensures View(q, cookie, ram.cells) == Simple(q, old(View(q, cookie, ram.cells)), InsertTail(elm))
  {
    hide Xor, Decoded, Layout.Valid, Layout.Links;
    ghost var d := View(q, cookie, ram.cells);
    ViewKeys(q, cookie, ram.cells);
    HeadFacts(q, d, s);
    LinkCells(q, elm);
    LastLink(q, d, s);
    Assign(ram, q, cookie, q.Next(elm), Masked(ram, cookie, NULL), NULL);
    MaskedIs(q, cookie, ram.cells, q.last);
    XorTwice(d[q.last], ram.cells[cookie]);
    Assign(ram, q, cookie, Masked(ram, cookie, ram.Load(q.last)), Masked(ram, cookie, elm), elm);
    Assign(ram, q, cookie, q.last, Masked(ram, cookie, q.Next(elm)), q.Next(elm));
  }

  method XInsertAfter(ram: Ram<Word>, q: Layout<Word>, cookie: Word, at: Word, elm: Word, ghost s: seq<Word>)
    requires IsXQueue(q, cookie, ram.cells, s) && Legal(q, s, InsertAfter(at, elm))
    modifies ram
    ensures SameCookie(cookie, old(ram.cells), ram.cells)
    ensures View(q, cookie, ram.cells) == Simple(q, old(View(q, cookie, ram.cells)), InsertAfter(at, elm))
  {
    hide Xor, Decoded, Layout.Valid, Layout.Links;
    ghost var d := View(q, cookie, ram.cells);
    ViewKeys(q, cookie, ram.cells);
    HeadFacts(q, d, s);
    LinkCells(q, elm);
    ElementFacts(q, d, s, Find(s, at));
    LinkCells(q, at);
    MaskedIs(q, cookie, ram.cells, q.Next(at));
    Assign(ram, q, cookie, q.Next(elm), ram.Load(q.Next(at)), d[q.Next(at)]);
    if ram.Load(q.Next(elm)) == Masked(ram, cookie, NULL) {
      Assign(ram, q, cookie, q.last, Masked(ram, cookie, q.Next(elm)), q.Next(elm));
    }
    Assign(ram, q, cookie, q.Next(at), Masked(ram, cookie, elm), elm);
  }

  method XRemoveHead(ram: Ram<Word>, q: Layout<Word>, cookie: Word, ghost s: seq<Word>)
    requires IsXQueue(q, cookie, ram.cells, s) && Legal(q, s, RemoveHead)
    modifies ram
    ensures SameCookie(cookie, old(ram.cells), ram.cells)
    ensures View(q, cookie, ram.cells) == Simple(q, old(View(q, cookie, ram.cells)), RemoveHead)
  {
    hide Xor, Decoded, Layout.Valid, Layout.Links;
    ghost var d := View(q, cookie, ram.cells);
    ViewKeys(q, cookie, ram.cells);
    HeadFacts(q, d, s);
    LinkCells(q, s[0]);
    MaskedIs(q, cookie, ram.cells, q.first);
    XorTwice(s[0], ram.cells[cookie]);
    MaskedIs(q, cookie, ram.cells, q.Next(s[0]));
    Assign(ram, q, cookie, q.first, ram.Load(q.Next(Masked(ram, cookie, ram.Load(q.first)))), d[q.Next(s[0])]);
    if ram.Load(q.first) == Masked(ram, cookie, NULL) {
      Assign(ram, q, cookie, q.last, Masked(ram, cookie, q.first), q.first);
    }
  }

  method XRemoveAfter(ram: Ram<Word>, q: Layout<Word>, cookie: Word, at: Word, ghost s: seq<Word>)
    requires IsXQueue(q, cookie, ram.cells, s) && Legal(q, s, RemoveAfter(at))
    modifies ram
    ensures SameCookie(cookie, old(ram.cells), ram.cells)
    ensures View(q, cookie, ram.cells) == Simple(q, old(View(q, cookie, ram.cells)), RemoveAfter(at))
  {
    hide Xor, Decoded, Layout.Valid, Layout.Links;
    ghost var d := View(q, cookie, ram.cells);
    ViewKeys(q, cookie, ram.cells);
    HeadFacts(q, d, s);
    ghost var n := d[q.Next(at)];
    NextInQueue(q, d, s, at);
    LinkCells(q, at);
    LinkCells(q, n);
    MaskedIs(q, cookie, ram.cells, q.Next(at));
    XorTwice(n, ram.cells[cookie]);
    MaskedIs(q, cookie, ram.cells, q.Next(n));
    Assign(ram, q, cookie, q.Next(at), ram.Load(q.Next(Masked(ram, cookie, ram.Load(q.Next(at))))), d[q.Next(n)]);
    if ram.Load(q.Next(at)) == Masked(ram, cookie, NULL) {
      Assign(ram, q, cookie, q.last, Masked(ram, cookie, q.Next(at)), q.Next(at));
    }
  }

  /** The macros that change a queue: each does to unmasked memory what its SIMPLEQ namesake does, and to the
      contents what its name says. */
  method XPerform(ram: Ram<Word>, q: Layout<Word>, cookie: Word, op: Op<Word>, ghost s: seq<Word>)
    requires IsXQueue(q, cookie, ram.cells, s) && Legal(q, s, op)
    modifies ram
    ensures SameCookie(cookie, old(ram.cells), ram.cells)
    ensures View(q, cookie, ram.cells) == Simple(q, old(View(q, cookie, ram.cells)), op)
    ensures IsXQueue(q, cookie, ram.cells, Apply(q, s, op))
  {
    hide Xor, Simple, Legal, IsQueue, Decoded;
    SimpleRefines(q, View(q, cookie, ram.cells), s, op);
    match op {
      case InsertHead(elm) => XInsertHead(ram, q, cookie, elm, s);
      case InsertTail(elm) => XInsertTail(ram, q, cookie, elm, s);
      case InsertAfter(at, elm) => XInsertAfter(ram, q, cookie, at, elm, s);
      case RemoveHead => XRemoveHead(ram, q, cookie, s);
      case RemoveAfter(at) => XRemoveAfter(ram, q, cookie, at, s);
    }
  }

  /** Any legal run of XSIMPLEQ macros from XSIMPLEQ_INIT on, whatever the cookie: through the mask, memory goes
      through the very states of the SIMPLEQ macros, and the queue holds what the run says. */
  method XRun(ram: Ram<Word>, q: Layout<Word>, cookie: Word, random: Word, ops: seq<Op<Word>>)
    requires q.nil == NULL && q.Valid() && q.Links() <= ram.cells.Keys
    requires cookie in ram.cells && cookie !in q.Links()
    requires LegalRun(q, [], ops)
    modifies ram
    ensures ram.cells.Keys == old(ram.cells.Keys) && ram.cells[cookie] == random
    ensures var before := Decoded(q, random, old(ram.cells)[cookie := random]);
            View(q, cookie, ram.cells) == SimpleAll(q, SimpleInit(q, before), ops)
    ensures IsXQueue(q, cookie, ram.cells, ApplyAll(q, [], ops))
  {
    hide Decoded, IsXQueue, Simple, SimpleInit, Legal, Apply;
    XInit(ram, q, cookie, random);
    ghost var start := View(q, cookie, ram.cells);
    for n := 0 to |ops|
      invariant LegalRun(q, [], ops[..n])
      invariant SameCookieAs(cookie, random, ram.cells, old(ram.cells))
      invariant View(q, cookie, ram.cells) == SimpleAll(q, start, ops[..n])
      invariant IsXQueue(q, cookie, ram.cells, ApplyAll(q, [], ops[..n]))
    {
      LegalPrefix(q, ops, n + 1);
      assert ops[..n + 1][..n] == ops[..n];
      XPerform(ram, q, cookie, ops[n], ApplyAll(q, [], ops[..n]));
    }
    assert ops[..|ops|] == ops;
  }

  ghost predicate SameCookieAs(cookie: Word, random: Word, m: Memory, m0: Memory) {
    m.Keys == m0.Keys && cookie in m && m[cookie] == random
  }

  lemma {:induction false} LegalPrefix(q: Layout<Word>, ops: seq<Op<Word>>, n: nat)
    requires LegalRun(q, [], ops) && n <= |ops|
    ensures LegalRun(q, [], ops[..n])
    decreases |ops|
  {
    if n < |ops| {
      LegalPrefix(q, ops[..|ops| - 1], n);
      assert ops[..|ops| - 1][..n] == ops[..n];
    } else {
      assert ops[..n] == ops;
    }
  }

  /** XSIMPLEQ_FOREACH */
  method XForeach(ram: Ram<Word>, q: Layout<Word>, cookie: Word, ghost s: seq<Word>) returns (visited: seq<Word>)
    requires IsXQueue(q, cookie, ram.cells, s)
    ensures visited == s
  {
    hide Xor, Decoded, Layout.Valid, Layout.Links;
    ghost var d := View(q, cookie, ram.cells);
    ViewKeys(q, cookie, ram.cells);
    HeadFacts(q, d, s);
    HeadLink(q);
    MaskedIs(q, cookie, ram.cells, q.first);
    XorTwice(d[q.first], ram.cells[cookie]);
    visited := [];
    var v := Masked(ram, cookie, ram.Load(q.first));
    while v != NULL
      invariant |visited| <= |s| && visited == s[..|visited|] && v == At(NULL, s, |visited|)
      decreases |s| - |visited|
    {
      ElementFacts(q, d, s, |visited|);
      LinkCells(q, v);
      MaskedIs(q, cookie, ram.cells, q.Next(v));
      XorTwice(d[q.Next(v)], ram.cells[cookie]);
      visited := visited + [v];
      v := Masked(ram, cookie, ram.Load(q.Next(v)));
    }
  }

  lemma HeadLink(q: Layout<Word>)
    ensures q.first in q.Links()
  {
  }
}
