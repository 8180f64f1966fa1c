/** Starting and stopping the vifs: start_vif, stop_vif, start_all_vifs, stop_all_vifs.

  The kernel is its table of VIFs and its group memberships; calls into it take effect.
  */
module VifLife {
  import opened Seqs
  import opened Inet
  import opened Vif

  const ALL_ROUTERS: nat := 0x0200_00e0  // htonl(INADDR_ALLRTRS_GROUP)
  const ALL_REPORTS: nat := 0x1600_00e0  // htonl(INADDR_ALLRPTS_GROUP)

  /** A group joined on an interface index. */
  datatype Membership = Membership(group: nat, ifindex: int)

  class Kernel {
    var vifs: set<nat>
    var members: set<Membership>
    ghost var started: seq<nat>    // every k_add_vif so far, oldest first
    ghost var freed: seq<VifAcl>   // every access list node given back so far

    constructor ()
      ensures vifs == {} && members == {} && started == [] && freed == []
    {
      vifs, members, started, freed := {}, {}, [], [];
    }

    method AddVif(vifi: nat)
      modifies this`vifs, this`started
      ensures vifs == old(vifs) + {vifi} && started == old(started) + [vifi]
    {
      vifs := vifs + {vifi};
      started := started + [vifi];
    }

    method DelVif(vifi: nat)
      modifies this`vifs
      ensures vifs == old(vifs) - {vifi}
    {
      vifs := vifs - {vifi};
    }

    method Join(group: nat, ifindex: int)
      modifies this`members
      ensures members == old(members) + {Membership(group, ifindex)}
    {
      members := members + {Membership(group, ifindex)};
    }

    method Leave(group: nat, ifindex: int)
      modifies this`members
      ensures members == old(members) - {Membership(group, ifindex)}
    {
      members := members - {Membership(group, ifindex)};
    }

    /** Reading the link of a list node, which must not have been freed. */
    method AclNext(acl: VifAcl) returns (r: VifAcl?)
      requires acl !in freed
      ensures r == acl.next
    {
      r := acl.next;
    }

    method Free(acl: VifAcl)
      requires acl !in freed
      modifies this`freed
      ensures freed == old(freed) + [acl]
    {
      freed := freed + [acl];
    }
  }

  // ---------------------------------------------------------------- one vif

  predicate IsRegister(v: Uvif) { Has(v.flags, VIFF_REGISTER) }
  predicate IsDown(v: Uvif) { Has(v.flags, VIFF_DOWN) }
  predicate IsDisabled(v: Uvif) { Has(v.flags, VIFF_DISABLED) }
  predicate Startable(v: Uvif) { !Has(v.flags, VIFF_DISABLED | VIFF_DOWN) }

  /** The first thing start_vif does to the flags. */
  function Raised(f: bv32): bv32 {
    if Has(f, VIFF_REGISTER) then f & !VIFF_DOWN else (f | VIFF_DR | VIFF_NONBRS) & !VIFF_DOWN
  }

  function WithQuerier(f: bv32): bv32 {
    f | VIFF_QUERIER
  }

  /** The flags start_vif leaves. */
  function StartedFlags(f: bv32): bv32 {
    if Has(f, VIFF_REGISTER) then Raised(f) else WithQuerier(Raised(f))
  }

  /** The flags stop_vif leaves. */
  function StoppedFlags(f: bv32): bv32 {
    (f & !VIFF_DR & !VIFF_QUERIER & !VIFF_NONBRS) | VIFF_DOWN
  }

  lemma StartedFacts(f: bv32)
    ensures Has(StartedFlags(f), VIFF_REGISTER) == Has(f, VIFF_REGISTER)
    ensures Has(StartedFlags(f), VIFF_DISABLED) == Has(f, VIFF_DISABLED)
    ensures !Has(StartedFlags(f), VIFF_DOWN)
  {
    if Has(f, VIFF_REGISTER) { RegisterBits(f); } else { PhyintBits(f); }
  }

  lemma RegisterBits(f: bv32)
    ensures (f & !0x100) & 0x4 == f & 0x4 && (f & !0x100) & 0x200 == f & 0x200 && (f & !0x100) & 0x100 == 0
  {
  }

  lemma PhyintBits(f: bv32)
    ensures var g := ((f | 0x4_0000 | 0x8_0000) & !0x100) | 0x400;
            g & 0x4 == f & 0x4 && g & 0x200 == f & 0x200 && g & 0x100 == 0
  {
  }

  lemma StillRegister(f: bv32)
    ensures Has(Raised(f), VIFF_REGISTER) == Has(f, VIFF_REGISTER)
  {
    StillBits(f);
  }

  lemma StillBits(f: bv32)
    ensures (f & !0x100) & 0x4 == f & 0x4 && ((f | 0x4_0000 | 0x8_0000) & !0x100) & 0x4 == f & 0x4
  {
  }

  /** Starting again changes nothing. */
  lemma StartedTwice(f: bv32)
    ensures StartedFlags(StartedFlags(f)) == StartedFlags(f)
  {
  }

  lemma StoppedFacts(f: bv32)
    ensures Has(StoppedFlags(f), VIFF_REGISTER) == Has(f, VIFF_REGISTER)
    ensures Has(StoppedFlags(f), VIFF_DISABLED) == Has(f, VIFF_DISABLED)
    ensures Has(StoppedFlags(f), VIFF_DOWN)
  {
    StoppedBits(f);
  }

  lemma StoppedBits(f: bv32)
    ensures var g := (f & !0x4_0000 & !0x400 & !0x8_0000) | 0x100;
            g & 0x4 == f & 0x4 && g & 0x200 == f & 0x200 && g & 0x100 != 0
  {
  }

  lemma StartableIff(v: Uvif)
    ensures Startable(v) <==> !IsDisabled(v) && !IsDown(v)
  {
    EitherBit(v.flags);
  }

  lemma EitherBit(f: bv32)
    ensures f & (0x200 | 0x100) != 0 <==> f & 0x200 != 0 || f & 0x100 != 0
  {
  }

  /** Stopping a vif right after starting it leaves VIFF_DOWN and nothing else, if it had no role before. */
  lemma StopUndoesStart(f: bv32)
    requires !Has(f, VIFF_DR | VIFF_QUERIER | VIFF_NONBRS) && !Has(f, VIFF_REGISTER)
    ensures StoppedFlags(StartedFlags(f)) == f | VIFF_DOWN
  {
  }

  function Started(v: Uvif): Uvif {
    v.(flags := StartedFlags(v.flags))
  }

  function Stopped(v: Uvif): Uvif {
    v.(flags := StoppedFlags(v.flags), acl := null)
  }

  // ---------------------------------------------------------------- the invariant

  /** The memberships that the running vifs `up` hold. */
  ghost function Members(vs: seq<Uvif>, up: set<nat>): set<Membership> {
    set i, g | i in up && i < |vs| && !IsRegister(vs[i]) && g in {ALL_ROUTERS, ALL_REPORTS} :: Membership(g, vs[i].ifindex)
  }

  /** The groups start_vif joins. */
  ghost function Joined(v: Uvif): set<Membership> {
    if IsRegister(v) then {} else {Membership(ALL_ROUTERS, v.ifindex), Membership(ALL_REPORTS, v.ifindex)}
  }

  /** Two vifs that join groups do so on different interfaces. */
  ghost predicate DistinctIndexes(vs: seq<Uvif>) {
    forall i, j :: 0 <= i < j < |vs| && !IsRegister(vs[i]) && !IsRegister(vs[j]) ==> vs[i].ifindex != vs[j].ifindex
  }

  /** Access lists are well formed, share no node, and hold no freed node. */
  ghost predicate AclsOk(vs: seq<Uvif>, freed: seq<VifAcl>) {
    && (forall i :: 0 <= i < |vs| ==> IsAcl(vs[i].acl))
    && (forall i, a :: 0 <= i < |vs| && a in Nodes(vs[i].acl) ==> a !in freed)
    && (forall i, j, a :: 0 <= i < j < |vs| && a in Nodes(vs[i].acl) ==> a !in Nodes(vs[j].acl))
  }

  /** The kernel's VIFs are the vifs `up`, none of them down or disabled, and it has no memberships but theirs. */
  ghost predicate Bounded(vs: seq<Uvif>, k: Kernel, up: set<nat>)
    reads k
  {
    && AclsOk(vs, k.freed)
    && k.vifs == up && k.members <= Members(vs, up)
    && (forall i :: i in up ==> i < |vs| && Startable(vs[i]))
  }

  /** The kernel holds VIFs and memberships for the vifs `up` and no others. */
  ghost predicate Consistent(vs: seq<Uvif>, k: Kernel, up: set<nat>)
    reads k
  {
    Bounded(vs, k, up) && k.members == Members(vs, up)
  }

  // ---------------------------------------------------------------- start_vif and stop_vif

  lemma MembersStarted(vs: seq<Uvif>, up: set<nat>, i: nat)
    requires i < |vs|
    ensures Members(vs[i := Started(vs[i])], up + {i}) == Members(vs, up) + Joined(vs[i])
  {
    StartedFacts(vs[i].flags);
    MembersUpdated(vs, Started(vs[i]), up, i);
  }

  lemma MembersUpdated(vs: seq<Uvif>, v: Uvif, up: set<nat>, i: nat)
    requires i < |vs| && v.ifindex == vs[i].ifindex && IsRegister(v) == IsRegister(vs[i])
    ensures Members(vs[i := v], up + {i}) == Members(vs, up) + Joined(vs[i])
  {
    hide IsRegister;
    var l, r := Members(vs[i := v], up + {i}), Members(vs, up) + Joined(vs[i]);
    forall m | m in l ensures m in r {
      var j, g :| j in up + {i} && j < |vs| && !IsRegister(vs[i := v][j]) && g in {ALL_ROUTERS, ALL_REPORTS}
                  && m == Membership(g, vs[i := v][j].ifindex);
      assert j != i ==> vs[i := v][j] == vs[j];
    }
    forall m | m in r ensures m in l {
      if m in Joined(vs[i]) {
        assert vs[i := v][i] == v;
      } else {
        var j, g :| j in up && j < |vs| && !IsRegister(vs[j]) && g in {ALL_ROUTERS, ALL_REPORTS}
                    && m == Membership(g, vs[j].ifindex);
        assert vs[i := v][j].ifindex == vs[j].ifindex && IsRegister(vs[i := v][j]) == IsRegister(vs[j]);
      }
    }
  }

  /** Vif `i` shares its interface with another running vif. */
  ghost predicate SharesIndex(vs: seq<Uvif>, up: set<nat>, i: nat)
    requires i < |vs|
  {
    !IsRegister(vs[i])
    && exists j :: j in up && j != i && j < |vs| && !IsRegister(vs[j]) && vs[j].ifindex == vs[i].ifindex
  }

  /** What is left when vif `i` leaves its groups. */
  lemma MembersStopped(vs: seq<Uvif>, up: set<nat>, i: nat)
    requires i < |vs|
    ensures var rest := Members(vs[i := Stopped(vs[i])], up - {i});
            Members(vs, up) - Joined(vs[i]) <= rest
            && (Members(vs, up) - Joined(vs[i]) == rest <==> !SharesIndex(vs, up, i))
  {
    StoppedFacts(vs[i].flags);
    var vs' := vs[i := Stopped(vs[i])];
    assert forall j :: 0 <= j < |vs| ==> vs'[j].ifindex == vs[j].ifindex && IsRegister(vs'[j]) == IsRegister(vs[j]);
    hide IsRegister, Stopped;
    RestMembers(vs, vs', up, i);
  }

  lemma RestMembers(vs: seq<Uvif>, vs': seq<Uvif>, up: set<nat>, i: nat)
    requires i < |vs| == |vs'|
    requires forall j :: 0 <= j < |vs| ==> vs'[j].ifindex == vs[j].ifindex && IsRegister(vs'[j]) == IsRegister(vs[j])
    ensures var left, rest := Members(vs, up) - Joined(vs[i]), Members(vs', up - {i});
            left <= rest && (left == rest <==> !SharesIndex(vs, up, i))
  {
    hide IsRegister;
    var left, rest := Members(vs, up) - Joined(vs[i]), Members(vs', up - {i});
    forall m | m in left ensures m in rest {
      var j, g :| j in up && j < |vs| && !IsRegister(vs[j]) && g in {ALL_ROUTERS, ALL_REPORTS}
                  && m == Membership(g, vs[j].ifindex);
      assert j != i && vs'[j].ifindex == vs[j].ifindex;
    }
    if SharesIndex(vs, up, i) {
      OneLost(vs, vs', up, i);
    } else {
      forall m | m in rest ensures m in left {
        var j, g :| j in up - {i} && j < |vs'| && !IsRegister(vs'[j]) && g in {ALL_ROUTERS, ALL_REPORTS}
                    && m == Membership(g, vs'[j].ifindex);
        assert vs[j].ifindex == vs'[j].ifindex && !IsRegister(vs[j]);
      }
    }
  }

  lemma OneLost(vs: seq<Uvif>, vs': seq<Uvif>, up: set<nat>, i: nat)
    requires i < |vs| == |vs'| && SharesIndex(vs, up, i)
    requires forall j :: 0 <= j < |vs| ==> vs'[j].ifindex == vs[j].ifindex && IsRegister(vs'[j]) == IsRegister(vs[j])
    ensures var m := Membership(ALL_ROUTERS, vs[i].ifindex); m in Members(vs', up - {i}) && m in Joined(vs[i])
  {
    hide IsRegister;
    var j :| j in up && j != i && j < |vs| && !IsRegister(vs[j]) && vs[j].ifindex == vs[i].ifindex;
    assert vs'[j].ifindex == vs[j].ifindex;
  }

  /** What starting or stopping one vif leaves of the access lists. */
  lemma AclsKept(vs: seq<Uvif>, freed: seq<VifAcl>, i: nat, v: Uvif, freed': seq<VifAcl>)
    requires i < |vs| && AclsOk(vs, freed)
    requires (v.acl == vs[i].acl && freed' == freed) || (v.acl == null && freed' == freed + Nodes(vs[i].acl))
    ensures AclsOk(vs[i := v], freed')
  {
  }

  method StartVif(t: VifTable, k: Kernel, vifi: nat)
    requires t.Valid() && vifi < t.numvifs
    modifies t.uvifs, k`vifs, k`started, k`members
    ensures t.Vifs() == old(t.Vifs())[vifi := Started(old(t.Vifs()[vifi]))]
    ensures k.vifs == old(k.vifs) + {vifi} && k.started == old(k.started) + [vifi]
    ensures k.members == old(k.members) + Joined(old(t.Vifs()[vifi]))
  {
    hide Has, Raised, WithQuerier;
    var v := t.uvifs[vifi];
    var flags := Raised(v.flags);
    StillRegister(v.flags);
    k.AddVif(vifi);
    if !Has(flags, VIFF_REGISTER) {
      k.Join(ALL_ROUTERS, v.ifindex);
      k.Join(ALL_REPORTS, v.ifindex);
      flags := WithQuerier(flags);
    }
    t.Put(vifi, v.(flags := flags));
  }

  method StopVif(t: VifTable, k: Kernel, vifi: nat)
    requires t.Valid() && vifi < t.numvifs && AclsOk(t.Vifs(), k.freed)
    modifies t`vifsDown, t.uvifs, k`vifs, k`members, k`freed
    ensures t.vifsDown && t.Vifs() == old(t.Vifs())[vifi := Stopped(old(t.Vifs()[vifi]))]
    ensures k.vifs == old(k.vifs) - {vifi} && k.members == old(k.members) - Joined(old(t.Vifs()[vifi]))
    ensures k.freed == old(k.freed) + Nodes(old(t.Vifs()[vifi].acl))
  {
    hide Has, StoppedFlags;
    assert t.uvifs[vifi] == t.Vifs()[vifi];
    var v := t.uvifs[vifi];
    if !Has(v.flags, VIFF_REGISTER) {
      k.Leave(ALL_ROUTERS, v.ifindex);
      k.Leave(ALL_REPORTS, v.ifindex);
    }
    k.DelVif(vifi);
    var flags := StoppedFlags(v.flags);
    var acl := FreeAcl(k, v.acl);
    t.Put(vifi, v.(flags := flags, acl := acl));
    t.vifsDown := true;
  }

  /** The loop of stop_vif that gives back the access list, `list` being the value of uv_acl. */
  method FreeAcl(k: Kernel, list: VifAcl?) returns (rest: VifAcl?)
    requires IsAcl(list) && forall a :: a in Nodes(list) ==> a !in k.freed
    modifies k`freed
    ensures rest == null && k.freed == old(k.freed) + Nodes(list)
  {
    hide VifAcl.Valid;
    rest := list;
    ghost var all, n := Nodes(list), 0;
    NodesDistinct(list);
    while rest != null
      invariant IsAcl(rest) && n <= |all| && Nodes(rest) == all[n..] && k.freed == old(k.freed) + all[..n]
      decreases |all| - n
    {
      var acl: VifAcl := rest;
      AclTail(acl);
      assert all[n] == acl && all[n] in all && all[n] !in all[..n];
      rest := k.AclNext(acl);
      k.Free(acl);
      n := n + 1;
    }
  }

  lemma AclTail(acl: VifAcl)
    requires acl.Valid()
    ensures acl.nodes != [] && acl.nodes[0] == acl && IsAcl(acl.next) && Nodes(acl.next) == acl.nodes[1..]
  {
  }

  lemma StartKeeps(vs: seq<Uvif>, k: Kernel, up: set<nat>, i: nat)
    requires Consistent(vs, k, up) && i < |vs| && Startable(vs[i])
    ensures var v := Started(vs[i]);
            && AclsOk(vs[i := v], k.freed)
            && Members(vs[i := v], up + {i}) == k.members + Joined(vs[i]) && Startable(v)
  {
    hide Has;
    StartedFacts(vs[i].flags);
    StartableIff(vs[i]);
    StartableIff(Started(vs[i]));
    MembersStarted(vs, up, i);
    AclsKept(vs, k.freed, i, Started(vs[i]), k.freed);
  }

  /** Stopping any vif leaves no stray membership; and the kernel keeps those of the other running vifs exactly if none
      of them is on the same interface. */
  lemma StopKeeps(vs: seq<Uvif>, k: Kernel, up: set<nat>, i: nat)
    requires Bounded(vs, k, up) && i < |vs|
    ensures var v := Stopped(vs[i]);
            && AclsOk(vs[i := v], k.freed + Nodes(vs[i].acl))
            && k.members - Joined(vs[i]) <= Members(vs[i := v], up - {i}) && IsDown(v)
            && (Consistent(vs, k, up) ==>
                  (Members(vs[i := v], up - {i}) == k.members - Joined(vs[i]) <==> !SharesIndex(vs, up, i)))
  {
    hide Has;
    StoppedFacts(vs[i].flags);
    MembersStopped(vs, up, i);
    AclsKept(vs, k.freed, i, Stopped(vs[i]), k.freed + Nodes(vs[i].acl));
    hide IsRegister, Startable, Stopped, AclsOk, Joined, Members;
  }

  lemma DistinctShareNothing(vs: seq<Uvif>, up: set<nat>, i: nat)
    requires DistinctIndexes(vs) && i < |vs|
    ensures !SharesIndex(vs, up, i)
  {
    hide IsRegister;
  }

  /** A list holds each of its nodes once: they lie ever closer to its end. */
  lemma NodesDistinct(p: VifAcl?)
    requires IsAcl(p)
    ensures Distinct(Nodes(p))
  {
    forall i, j | 0 <= i < j < |Nodes(p)| ensures Nodes(p)[i] != Nodes(p)[j] {
      NodeAt(p, i);
      NodeAt(p, j);
    }
  }

  lemma {:induction false} NodeAt(p: VifAcl?, i: nat)
    requires IsAcl(p) && i < |Nodes(p)|
    ensures |Nodes(p)[i].nodes| == |Nodes(p)| - i
    decreases i
  {
    if i > 0 {
      assert Nodes(p)[1..] == Nodes(p.next);
      NodeAt(p.next, i - 1);
    }
  }

  // ---------------------------------------------------------------- start_all_vifs

  /** start_all_vifs passes over a vif in the pass for registers (`action` VIFF_REGISTER) or others (0). */
  predicate Skips(v: Uvif, action: bv32) {
    (v.flags & VIFF_REGISTER) ^ action != 0
  }

  lemma SkipsIff(v: Uvif)
    ensures Skips(v, 0) <==> IsRegister(v)
    ensures Skips(v, VIFF_REGISTER) <==> !IsRegister(v)
  {
    SkipBits(v.flags);
  }

  lemma SkipBits(f: bv32)
    ensures (f & 0x4) ^ 0x4 != 0 <==> f & 0x4 == 0
  {
  }

  /** The vifs a pass starts. */
  predicate Chosen(v: Uvif, register: bool) {
    IsRegister(v) == register && Startable(v)
  }

  /** Of the first `n` vifs, those a pass starts, in order. */
  function StartList(vs: seq<Uvif>, n: nat, register: bool): seq<nat>
    requires n <= |vs|
  {
    if n == 0 then [] else StartList(vs, n - 1, register) + (if Chosen(vs[n - 1], register) then [n - 1] else [])
  }

  /** The table when a pass has gone through its first `n` vifs. */
  ghost function Passed(vs: seq<Uvif>, n: nat, register: bool): (r: seq<Uvif>)
    requires n <= |vs|
    ensures |r| == |vs| && forall i :: 0 <= i < |vs| ==> r[i] == if i < n && Chosen(vs[i], register) then Started(vs[i]) else vs[i]
  {
    seq(|vs|, i requires 0 <= i < |vs| => if i < n && Chosen(vs[i], register) then Started(vs[i]) else vs[i])
  }

  /** The table after start_all_vifs. */
  ghost function AllStarted(vs: seq<Uvif>): (r: seq<Uvif>)
    ensures |r| == |vs| && forall i :: 0 <= i < |vs| ==> r[i] == if Startable(vs[i]) then Started(vs[i]) else vs[i]
  {
    seq(|vs|, i requires 0 <= i < |vs| => if Startable(vs[i]) then Started(vs[i]) else vs[i])
  }

  /** The vifs that are neither disabled nor down. */
  ghost function Ups(vs: seq<Uvif>): set<nat> {
    set i | 0 <= i < |vs| && Startable(vs[i])
  }

  lemma SameKind(v: Uvif)
    ensures IsRegister(Started(v)) == IsRegister(v) && (Startable(v) ==> Startable(Started(v)))
  {
    hide Has;
    StartedFacts(v.flags);
    StartableIff(v);
    StartableIff(Started(v));
  }

  /** A pass starts each chosen vif once, in ascending order, and no other. */
  lemma {:induction false} StartListIs(vs: seq<Uvif>, n: nat, register: bool)
    requires n <= |vs|
    ensures forall i :: i in StartList(vs, n, register) <==> 0 <= i < n && Chosen(vs[i], register)
    ensures Ascending(StartList(vs, n, register))
  {
    hide Chosen;
    if n > 0 {
      StartListIs(vs, n - 1, register);
      if Chosen(vs[n - 1], register) { AscendingSnoc(StartList(vs, n - 1, register), n - 1); }
    }
  }

  ghost predicate Ascending(l: seq<nat>) {
    forall a, b :: 0 <= a < b < |l| ==> l[a] < l[b]
  }

  lemma AscendingSnoc(l: seq<nat>, n: nat)
    requires Ascending(l) && forall i :: i in l ==> i < n
    ensures Ascending(l + [n])
  {
    assert forall a :: 0 <= a < |l| ==> l[a] in l;
  }

  ghost function ChosenBelow(vs: seq<Uvif>, n: nat, register: bool): set<nat>
    requires n <= |vs|
  {
    set i | 0 <= i < n && Chosen(vs[i], register)
  }

  lemma NotYetPassed(vs: seq<Uvif>, n: nat, register: bool)
    requires n < |vs|
    ensures |Passed(vs, n, register)| == |vs| && Passed(vs, n, register)[n] == vs[n]
  {
  }

  lemma PassStart(vs: seq<Uvif>, register: bool)
    ensures Passed(vs, 0, register) == vs && ChosenBelow(vs, 0, register) == {} && StartList(vs, 0, register) == []
  {
  }

  lemma PassStep(vs: seq<Uvif>, n: nat, register: bool)
    requires n < |vs|
    ensures if Chosen(vs[n], register) then
              && Passed(vs, n + 1, register) == Passed(vs, n, register)[n := Started(vs[n])]
              && ChosenBelow(vs, n + 1, register) == ChosenBelow(vs, n, register) + {n}
              && StartList(vs, n + 1, register) == StartList(vs, n, register) + [n]
            else
              && Passed(vs, n + 1, register) == Passed(vs, n, register)
              && ChosenBelow(vs, n + 1, register) == ChosenBelow(vs, n, register)
              && StartList(vs, n + 1, register) == StartList(vs, n, register)
  {
    hide Chosen, Started;
  }

  /** start_vif, with what it keeps. */
  method StartOne(t: VifTable, k: Kernel, vifi: nat, ghost up: set<nat>) returns (ghost up': set<nat>)
    requires t.Valid() && Consistent(t.Vifs(), k, up) && vifi < t.numvifs && Startable(t.Vifs()[vifi])
    modifies t.uvifs, k`vifs, k`started, k`members
    ensures t.Vifs() == old(t.Vifs())[vifi := Started(old(t.Vifs()[vifi]))]
    ensures up' == up + {vifi} && Consistent(t.Vifs(), k, up') && k.started == old(k.started) + [vifi]
  {
    hide Startable, AclsOk, Members, Joined, Started;
    up' := up + {vifi};
    StartKeeps(t.Vifs(), k, up, vifi);
    StartVif(t, k, vifi);
  }

  method StartPass(t: VifTable, k: Kernel, action: bv32, ghost register: bool, ghost up: set<nat>)
    returns (ghost up': set<nat>)
    requires t.Valid() && Consistent(t.Vifs(), k, up)
    requires action == if register then VIFF_REGISTER else 0
    modifies t.uvifs, k`vifs, k`started, k`members
    ensures t.Vifs() == Passed(old(t.Vifs()), |old(t.Vifs())|, register)
    ensures up' == up + ChosenBelow(old(t.Vifs()), |old(t.Vifs())|, register)
    ensures Consistent(t.Vifs(), k, up')
    ensures k.started == old(k.started) + StartList(old(t.Vifs()), |old(t.Vifs())|, register)
  {
    hide Skips, IsRegister, Startable, Consistent, StartList, ChosenBelow, Passed;
    ghost var vs := t.Vifs();
    up' := up;
    var vifi := 0;
    PassStart(vs, register);
    while vifi < t.numvifs
      invariant vifi <= t.numvifs && t.Vifs() == Passed(vs, vifi, register)
      invariant up' == up + ChosenBelow(vs, vifi, register)
      invariant Consistent(t.Vifs(), k, up')
      invariant k.started == old(k.started) + StartList(vs, vifi, register)
    {
      NotYetPassed(vs, vifi, register);
      assert t.uvifs[vifi] == t.Vifs()[vifi] == vs[vifi];
      SkipsIff(vs[vifi]);
      PassStep(vs, vifi, register);
      if !Skips(t.uvifs[vifi], action) && Startable(t.uvifs[vifi]) {
        up' := StartOne(t, k, vifi, up');
      }
      vifi := vifi + 1;
    }
  }

  /** Over both passes, each vif neither disabled nor down is started exactly once. */
  lemma StartedOnce(vs: seq<Uvif>)
    ensures var l := StartList(vs, |vs|, false) + StartList(vs, |vs|, true);
            Distinct(l) && forall i :: i in l <==> i in Ups(vs)
  {
    StartListIs(vs, |vs|, false);
    StartListIs(vs, |vs|, true);
    hide Startable, IsRegister, StartList;
    var a, b := StartList(vs, |vs|, false), StartList(vs, |vs|, true);
    forall i | i in a ensures i !in b {}
    DistinctAppend(a, b);
  }

  /** What the two passes come to. */
  lemma TwoPasses(vs: seq<Uvif>, up: set<nat>)
    requires forall i :: i in up ==> i < |vs| && Startable(vs[i])
    ensures var n, ws := |vs|, Passed(vs, |vs|, false);
            && Passed(ws, n, true) == AllStarted(vs)
            && StartList(ws, n, true) == StartList(vs, n, true)
            && (up + ChosenBelow(vs, n, false)) + ChosenBelow(ws, n, true) == Ups(vs)
  {
    var n, ws := |vs|, Passed(vs, |vs|, false);
    RegistersAlike(vs, ws, n);
    forall i | 0 <= i < n
      ensures Chosen(ws[i], true) == Chosen(vs[i], true)
      ensures Passed(ws, n, true)[i] == AllStarted(vs)[i]
    {
      SameKind(vs[i]);
      hide Startable, IsRegister, Started;
    }
    ChosenTogether(vs, ws);
  }

  lemma ChosenTogether(vs: seq<Uvif>, ws: seq<Uvif>)
    requires |ws| == |vs| && forall i :: 0 <= i < |vs| ==> Chosen(ws[i], true) == Chosen(vs[i], true)
    ensures ChosenBelow(vs, |vs|, false) + ChosenBelow(ws, |vs|, true) == Ups(vs)
  {
    hide Startable, IsRegister;
  }

  lemma {:induction false} RegistersAlike(vs: seq<Uvif>, ws: seq<Uvif>, n: nat)
    requires n <= |vs| && ws == Passed(vs, |vs|, false)
    ensures StartList(ws, n, true) == StartList(vs, n, true)
  {
    if n > 0 {
      RegistersAlike(vs, ws, n - 1);
      SameKind(vs[n - 1]);
      hide Startable, IsRegister, Started;
    }
  }

  /** start_all_vifs: every vif neither disabled nor down is started once, those that are no registers first. */
  method StartAllVifs(t: VifTable, k: Kernel, ghost up: set<nat>) returns (ghost up': set<nat>)
    requires t.Valid() && Consistent(t.Vifs(), k, up)
    modifies t.uvifs, k`vifs, k`started, k`members
    ensures t.Vifs() == AllStarted(old(t.Vifs()))
    ensures up' == Ups(old(t.Vifs())) && Consistent(t.Vifs(), k, up')
    ensures k.started == old(k.started) + StartList(old(t.Vifs()), |old(t.Vifs())|, false)
                                        + StartList(old(t.Vifs()), |old(t.Vifs())|, true)
  {
    ghost var vs, n, started := t.Vifs(), |t.Vifs()|, k.started;
    TwoPasses(vs, up);
    hide Startable, Consistent, StartList, ChosenBelow, Passed, AllStarted, Ups;
    up' := up;
    var action := 0;
    while true
      invariant action == 0 || action == VIFF_REGISTER
      invariant t.Valid() && Consistent(t.Vifs(), k, up')
      invariant action == 0 ==> t.Vifs() == vs && up' == up && k.started == started
      invariant action != 0 ==> t.Vifs() == Passed(vs, n, false) && up' == up + ChosenBelow(vs, n, false)
                                && k.started == started + StartList(vs, n, false)
      decreases action == 0
    {
      up' := StartPass(t, k, action, action == VIFF_REGISTER, up');
      if action == VIFF_REGISTER {
        break;
      }
      action := VIFF_REGISTER;
    }
  }

  // ---------------------------------------------------------------- stop_all_vifs

  /** The table when stop_all_vifs has gone through its first `n` vifs. */
  ghost function StoppedBelow(vs: seq<Uvif>, n: nat): (r: seq<Uvif>)
    requires n <= |vs|
    ensures |r| == |vs| && forall i :: 0 <= i < |vs| ==> r[i] == if i < n && !IsDown(vs[i]) then Stopped(vs[i]) else vs[i]
  {
    seq(|vs|, i requires 0 <= i < |vs| => if i < n && !IsDown(vs[i]) then Stopped(vs[i]) else vs[i])
  }

  /** The access list nodes of those of the first `n` vifs that are not down. */
  ghost function NodesBelow(vs: seq<Uvif>, n: nat): seq<VifAcl>
    requires n <= |vs|
  {
    if n == 0 then []
    else NodesBelow(vs, n - 1) + (if IsDown(vs[n - 1]) then [] else Nodes(vs[n - 1].acl))
  }

  ghost predicate AllDown(vs: seq<Uvif>) {
    forall i :: 0 <= i < |vs| ==> IsDown(vs[i])
  }

  lemma StopStep(vs: seq<Uvif>, n: nat)
    requires n < |vs|
    ensures StoppedBelow(vs, n)[n] == vs[n]
    ensures if IsDown(vs[n]) then
              StoppedBelow(vs, n + 1) == StoppedBelow(vs, n) && NodesBelow(vs, n + 1) == NodesBelow(vs, n)
            else
              && StoppedBelow(vs, n + 1) == StoppedBelow(vs, n)[n := Stopped(vs[n])]
              && NodesBelow(vs, n + 1) == NodesBelow(vs, n) + Nodes(vs[n].acl)
  {
    hide IsDown, Stopped;
  }

  lemma EverythingStopped(vs: seq<Uvif>)
    ensures AllDown(StoppedBelow(vs, |vs|))
  {
    forall i | 0 <= i < |vs| ensures IsDown(Stopped(vs[i])) {
      StoppedFacts(vs[i].flags);
    }
    hide IsDown, Stopped;
  }

  /** stop_vif, with what it keeps. */
  method StopOne(t: VifTable, k: Kernel, vifi: nat, ghost up: set<nat>) returns (ghost up': set<nat>)
    requires t.Valid() && Bounded(t.Vifs(), k, up) && vifi < t.numvifs
    modifies t`vifsDown, t.uvifs, k`vifs, k`members, k`freed
    ensures t.vifsDown && t.Vifs() == old(t.Vifs())[vifi := Stopped(old(t.Vifs()[vifi]))]
    ensures up' == up - {vifi} && Bounded(t.Vifs(), k, up')
    ensures old(Consistent(t.Vifs(), k, up)) ==>
              (Consistent(t.Vifs(), k, up') <==> !SharesIndex(old(t.Vifs()), up, vifi))
    ensures k.freed == old(k.freed) + Nodes(old(t.Vifs()[vifi].acl))
  {
    hide Startable, AclsOk, Members, Joined, Stopped, SharesIndex;
    up' := up - {vifi};
    StopKeeps(t.Vifs(), k, up, vifi);
    StopVif(t, k, vifi);
  }

  /** stop_all_vifs: afterwards every vif is down, the kernel has no VIF and no membership of ours, and the nodes of
      the access lists of the vifs that were not down are freed, each once. */
  method StopAllVifs(t: VifTable, k: Kernel, ghost up: set<nat>)
    requires t.Valid() && Bounded(t.Vifs(), k, up)
    modifies t`vifsDown, t.uvifs, k`vifs, k`members, k`freed
    ensures t.Vifs() == StoppedBelow(old(t.Vifs()), |old(t.Vifs())|) && AllDown(t.Vifs())
    ensures Consistent(t.Vifs(), k, {}) && k.vifs == {} && k.members == {}
    ensures k.freed == old(k.freed) + NodesBelow(old(t.Vifs()), |old(t.Vifs())|)
  {
    ghost var vs, freed, on := t.Vifs(), k.freed, up;
    hide Startable, Bounded, Consistent, SharesIndex, NodesBelow, StoppedBelow, IsDown, AllDown, Stopped, Nodes, AclsOk;
    StopNone(vs);
    for vifi := 0 to t.numvifs
      invariant t.Valid() && t.numvifs == |vs| && t.Vifs() == StoppedBelow(vs, vifi) && Bounded(t.Vifs(), k, on)
      invariant k.freed == freed + NodesBelow(vs, vifi)
    {
      StopStep(vs, vifi);
      assert t.uvifs[vifi] == t.Vifs()[vifi] == vs[vifi];
      if !IsDown(t.uvifs[vifi]) {
        on := StopOne(t, k, vifi, on);
        Assoc(freed, NodesBelow(vs, vifi), Nodes(vs[vifi].acl));
      }
    }
    EverythingStopped(vs);
    NothingUp(t.Vifs(), k, on);
  }

  lemma StopNone(vs: seq<Uvif>)
    ensures StoppedBelow(vs, 0) == vs && NodesBelow(vs, 0) == []
  {
  }

  lemma NothingUp(vs: seq<Uvif>, k: Kernel, up: set<nat>)
    requires Bounded(vs, k, up) && AllDown(vs)
    ensures up == {} && k.vifs == {} && k.members == {} && Consistent(vs, k, {})
  {
    forall i | i in up ensures false {
      StartableIff(vs[i]);
    }
    hide Startable, IsDown, AclsOk, IsRegister;
  }

  // ---------------------------------------------------------------- in plain numbers

  lemma StartableBits(v: Uvif)
    ensures Startable(v) <==> v.flags & 0x300 == 0
    ensures IsRegister(v) <==> v.flags & 0x4 != 0
    ensures IsDown(v) <==> v.flags & 0x100 != 0
    ensures IsDisabled(v) <==> v.flags & 0x200 != 0
  {
  }

  lemma StartedBits(f: bv32)
    requires f & 0x300 == 0
    ensures StartedFlags(f) == if f & 0x4 == 0 then f | 0xc_0400 else f
  {
  }

  lemma StoppedAre(f: bv32)
    ensures StoppedFlags(f) == (f & 0xfff3_fbff) | 0x100
  {
  }

  /** The flags after start_all_vifs: where none of 0x300 is set, 0x4_0000, 0x8_0000 and 0x400 get set, unless 0x4 is;
      nothing else changes. */
  function FlagsUp(f: bv32): bv32 {
    if f & 0x300 == 0 && f & 0x4 == 0 then f | 0xc_0400 else f
  }

  /** The flags after stop_all_vifs: where 0x100 is not set it gets set, and 0x4_0000, 0x8_0000 and 0x400 are
      cleared; nothing else changes. */
  function FlagsDown(f: bv32): bv32 {
    if f & 0x100 == 0 then (f & 0xfff3_fbff) | 0x100 else f
  }

  lemma FlagsUpAre(v: Uvif)
    ensures FlagsUp(v.flags) == if Startable(v) then StartedFlags(v.flags) else v.flags
  {
    hide Startable, StartedFlags, FlagsUp;
    StartableBits(v);
    FlagsUpCases(v.flags);
  }

  lemma FlagsUpCases(f: bv32)
    ensures f & 0x300 == 0 ==> FlagsUp(f) == StartedFlags(f)
    ensures f & 0x300 != 0 ==> FlagsUp(f) == f
  {
    if f & 0x300 == 0 { StartedBits(f); }
    hide StartedFlags;
  }

  lemma FlagsDownAre(v: Uvif)
    ensures FlagsDown(v.flags) == if IsDown(v) then v.flags else StoppedFlags(v.flags)
  {
    hide IsDown, StoppedFlags;
    StartableBits(v);
    StoppedAre(v.flags);
  }

  /** The table that start_all_vifs leaves. */
  lemma StartedTable(vs: seq<Uvif>)
    ensures |AllStarted(vs)| == |vs|
    ensures forall i :: 0 <= i < |vs| ==> AllStarted(vs)[i] == vs[i].(flags := FlagsUp(vs[i].flags))
  {
    hide Startable, StartedFlags, FlagsUp;
    forall i | 0 <= i < |vs| ensures AllStarted(vs)[i] == vs[i].(flags := FlagsUp(vs[i].flags)) {
      FlagsUpAre(vs[i]);
    }
  }

  /** The table that stop_all_vifs leaves, without the access lists of those it stopped. */
  lemma StoppedTable(vs: seq<Uvif>)
    ensures |StoppedBelow(vs, |vs|)| == |vs|
    ensures forall i :: 0 <= i < |vs| ==>
              StoppedBelow(vs, |vs|)[i]
              == vs[i].(flags := FlagsDown(vs[i].flags), acl := if IsDown(vs[i]) then vs[i].acl else null)
  {
    hide IsDown, StoppedFlags, FlagsDown;
    forall i | 0 <= i < |vs|
      ensures StoppedBelow(vs, |vs|)[i]
              == vs[i].(flags := FlagsDown(vs[i].flags), acl := if IsDown(vs[i]) then vs[i].acl else null)
    {
      FlagsDownAre(vs[i]);
    }
  }

  /** The groups of a running vif that is no register: 224.0.0.2 and 224.0.0.22, on its interface. */
  lemma GroupsAre(v: Uvif)
    ensures Joined(v) == if v.flags & 0x4 != 0 then {}
                         else {Membership(0x0200_00e0, v.ifindex), Membership(0x1600_00e0, v.ifindex)}
    ensures Ntohl(0x0200_00e0) == 0xe000_0002 && Ntohl(0x1600_00e0) == 0xe000_0016
  {
    StartableBits(v);
    hide IsRegister;
  }

  lemma MembersAre(vs: seq<Uvif>, up: set<nat>, m: Membership)
    ensures m in Members(vs, up) <==> exists i: nat :: i in up && i < |vs| && m in Joined(vs[i])
  {
    hide IsRegister;
    if m in Members(vs, up) {
      var i, g :| i in up && i < |vs| && !IsRegister(vs[i]) && g in {ALL_ROUTERS, ALL_REPORTS}
                  && m == Membership(g, vs[i].ifindex);
      assert m in Joined(vs[i]);
    }
  }

  // ---------------------------------------------------------------- whole runs

  datatype Command = StartAll | StopAll

  lemma KeptByStart(v: Uvif)
    ensures Startable(v) ==> !IsDown(v) && !IsDown(Started(v)) && Startable(Started(v))
    ensures Started(Started(v)) == Started(v) && Started(v).acl == v.acl
  {
    StartableIff(v);
    SameKind(v);
    StartableIff(Started(v));
    StartedTwice(v.flags);
  }

  /** Starting everything once more finds the same vifs to start, and the same lists to free. */
  lemma StartAgain(vs: seq<Uvif>)
    ensures AllStarted(AllStarted(vs)) == AllStarted(vs) && Ups(AllStarted(vs)) == Ups(vs)
    ensures NodesBelow(AllStarted(vs), |vs|) == NodesBelow(vs, |vs|)
  {
    var ws := AllStarted(vs);
    forall i | 0 <= i < |vs|
      ensures Startable(ws[i]) == Startable(vs[i]) && AllStarted(ws)[i] == ws[i]
      ensures IsDown(ws[i]) == IsDown(vs[i]) && ws[i].acl == vs[i].acl
    {
      KeptByStart(vs[i]);
      hide Startable, IsDown, Started;
    }
    hide Startable, IsDown, Started;
    SameNodes(vs, ws, |vs|);
  }

  /** When every vif is down there is nothing left to start or stop. */
  lemma DownForGood(vs: seq<Uvif>)
    requires AllDown(vs)
    ensures AllStarted(vs) == vs && Ups(vs) == {} && StartList(vs, |vs|, false) == StartList(vs, |vs|, true) == []
    ensures StoppedBelow(vs, |vs|) == vs && NodesBelow(vs, |vs|) == []
  {
    forall i | 0 <= i < |vs| ensures !Startable(vs[i]) {
      StartableIff(vs[i]);
    }
    hide Startable, IsDown, Started;
    NobodyChosen(vs, |vs|);
  }

  lemma {:induction false} SameNodes(vs: seq<Uvif>, ws: seq<Uvif>, n: nat)
    requires n <= |vs| == |ws|
    requires forall i :: 0 <= i < n ==> IsDown(ws[i]) == IsDown(vs[i]) && ws[i].acl == vs[i].acl
    ensures NodesBelow(ws, n) == NodesBelow(vs, n)
  {
    hide IsDown;
    if n > 0 { SameNodes(vs, ws, n - 1); }
  }

  lemma {:induction false} NobodyChosen(vs: seq<Uvif>, n: nat)
    requires n <= |vs| && forall i :: 0 <= i < n ==> !Startable(vs[i]) && IsDown(vs[i])
    ensures StartList(vs, n, false) == StartList(vs, n, true) == [] && NodesBelow(vs, n) == []
  {
    hide Startable, IsDown;
    if n > 0 { NobodyChosen(vs, n - 1); }
  }

  lemma {:induction false} NodesBelowDistinct(vs: seq<Uvif>, n: nat)
    requires n <= |vs| && AclsOk(vs, [])
    ensures Distinct(NodesBelow(vs, n))
    ensures forall a :: a in NodesBelow(vs, n) ==> exists i :: 0 <= i < n && a in Nodes(vs[i].acl)
  {
    hide IsDown;
    if n > 0 {
      NodesBelowDistinct(vs, n - 1);
      NodesDistinct(vs[n - 1].acl);
      var front, last := NodesBelow(vs, n - 1), Nodes(vs[n - 1].acl);
      forall a | a in front ensures a !in last {
        var i :| 0 <= i < n - 1 && a in Nodes(vs[i].acl);
      }
      DistinctAppend(front, last);
    }
  }

  /** Of a vif's access list exactly the nodes are freed whose vif is not down to begin with. */
  lemma {:induction false} FreedIff(vs: seq<Uvif>, n: nat, i: nat, a: VifAcl)
    requires AclsOk(vs, []) && i < |vs| && a in Nodes(vs[i].acl) && n <= |vs|
    ensures a in NodesBelow(vs, n) <==> i < n && !IsDown(vs[i])
  {
    hide IsDown, Nodes;
    if n > 0 { FreedIff(vs, n - 1, i, a); }
  }

  lemma DistinctAppend<T>(a: seq<T>, b: seq<T>)
    requires Distinct(a) && Distinct(b) && forall x :: x in a ==> x !in b
    ensures Distinct(a + b)
  {
    forall i, j | 0 <= i < j < |a + b| ensures (a + b)[i] != (a + b)[j] {
      if i < |a| <= j { assert a[i] in a && b[j - |a|] in b; }
    }
  }

  /** How often start_all_vifs is called before the first stop_all_vifs. */
  function StartsBeforeStop(cmds: seq<Command>): nat {
    if cmds == [] then 0
    else StartsBeforeStop(cmds[..|cmds| - 1])
         + if StopAll !in cmds[..|cmds| - 1] && cmds[|cmds| - 1] == StartAll then 1 else 0
  }

  /** What one start_all_vifs starts: the vifs that are no registers, then the registers. */
  ghost function Round(vs: seq<Uvif>): seq<nat> {
    StartList(vs, |vs|, false) + StartList(vs, |vs|, true)
  }

  ghost function Rounds(vs: seq<Uvif>, n: nat): seq<nat> {
    if n == 0 then [] else Rounds(vs, n - 1) + Round(vs)
  }

  /** Where a run stands that began with the table `vs0`, after `n` rounds of starting. */
  ghost predicate RunState(vs0: seq<Uvif>, vs: seq<Uvif>, up: set<nat>, freed: seq<VifAcl>, started: seq<nat>, n: nat,
                           ended: bool) {
    && started == Rounds(vs0, n)
    && if ended then AllDown(vs) && up == {} && freed == NodesBelow(vs0, |vs0|)
       else freed == [] && if n > 0 then vs == AllStarted(vs0) && up == Ups(vs0) else vs == vs0 && up == {}
  }

  /** Starting once more does not change who is to be started. */
  lemma SameRound(vs: seq<Uvif>)
    ensures Round(AllStarted(vs)) == Round(vs)
  {
    var ws := AllStarted(vs);
    forall i | 0 <= i < |vs| ensures IsRegister(ws[i]) == IsRegister(vs[i]) && Startable(ws[i]) == Startable(vs[i]) {
      SameKind(vs[i]);
      hide Startable, IsRegister, Started;
    }
    hide Startable, IsRegister, Started, AllStarted;
    SameStartList(vs, ws, |vs|);
  }

  lemma {:induction false} SameStartList(vs: seq<Uvif>, ws: seq<Uvif>, n: nat)
    requires n <= |vs| == |ws|
    requires forall i :: 0 <= i < n ==> IsRegister(ws[i]) == IsRegister(vs[i]) && Startable(ws[i]) == Startable(vs[i])
    ensures StartList(ws, n, false) == StartList(vs, n, false) && StartList(ws, n, true) == StartList(vs, n, true)
  {
    hide Startable, IsRegister;
    if n > 0 { SameStartList(vs, ws, n - 1); }
  }

  lemma AfterStart(vs0: seq<Uvif>, vs: seq<Uvif>, up: set<nat>, freed: seq<VifAcl>, started: seq<nat>, n: nat, ended: bool)
    requires RunState(vs0, vs, up, freed, started, n, ended)
    ensures RunState(vs0, AllStarted(vs), Ups(vs), freed, started + StartList(vs, |vs|, false) + StartList(vs, |vs|, true),
                     if ended then n else n + 1, ended)
  {
    hide AllStarted, AllDown, NodesBelow, StoppedBelow, StartList, Ups;
    StartAgain(vs0);
    SameRound(vs0);
    if ended { DownForGood(vs); }
    Assoc(started, StartList(vs, |vs|, false), StartList(vs, |vs|, true));
  }

  lemma AfterStop(vs0: seq<Uvif>, vs: seq<Uvif>, up: set<nat>, freed: seq<VifAcl>, started: seq<nat>, n: nat, ended: bool)
    requires RunState(vs0, vs, up, freed, started, n, ended)
    ensures RunState(vs0, StoppedBelow(vs, |vs|), {}, freed + NodesBelow(vs, |vs|), started, n, true)
  {
    hide AllStarted, AllDown, NodesBelow, StoppedBelow, Rounds, StartList, Ups;
    StartAgain(vs0);
    EverythingStopped(vs);
    if ended { DownForGood(vs); }
  }

  method RunCommand(t: VifTable, k: Kernel, cmd: Command, ghost vs0: seq<Uvif>, ghost up: set<nat>, ghost n: nat,
                    ghost ended: bool)
    returns (ghost up': set<nat>)
    requires t.Valid() && Consistent(t.Vifs(), k, up) && RunState(vs0, t.Vifs(), up, k.freed, k.started, n, ended)
    modifies t`vifsDown, t.uvifs, k
    ensures Consistent(t.Vifs(), k, up')
    ensures RunState(vs0, t.Vifs(), up', k.freed, k.started, if cmd == StartAll && !ended then n + 1 else n,
                     ended || cmd == StopAll)
  {
    AfterStart(vs0, t.Vifs(), up, k.freed, k.started, n, ended);
    AfterStop(vs0, t.Vifs(), up, k.freed, k.started, n, ended);
    hide *;
    if cmd == StartAll {
      up' := StartAllVifs(t, k, up);
    } else {
      StopAllVifs(t, k, up);
      up' := {};
    }
  }

  /** Any sequence of start_all_vifs and stop_all_vifs from a freshly configured table.  Before the first stop the
      running vifs are the ones neither disabled nor down, each start going through them all again, registers last;
      from then on everything stays down, whatever is called, and the access lists of the vifs that were not down have
      been freed, node by node, once. */
  method Run(t: VifTable, k: Kernel, cmds: seq<Command>) returns (ghost up: set<nat>)
    requires t.Valid() && Consistent(t.Vifs(), k, {}) && k.started == [] && k.freed == []
    modifies t`vifsDown, t.uvifs, k
    ensures Consistent(t.Vifs(), k, up)
    ensures RunState(old(t.Vifs()), t.Vifs(), up, k.freed, k.started, StartsBeforeStop(cmds), StopAll in cmds)
    ensures Distinct(k.freed)
    ensures forall i :: multiset(k.started)[i] == if i in Ups(old(t.Vifs())) then StartsBeforeStop(cmds) else 0
    ensures forall i, a :: 0 <= i < |old(t.Vifs())| && a in Nodes(old(t.Vifs())[i].acl) ==>
              (a in k.freed <==> StopAll in cmds && !IsDown(old(t.Vifs())[i]))
  {
    ghost var vs := t.Vifs();
    Unbegun(vs, k);
    hide *;
    up := RunCommands(t, k, cmds, vs);
    RunFacts(vs, t.Vifs(), up, k.freed, k.started, StartsBeforeStop(cmds), StopAll in cmds);
  }

  method RunCommands(t: VifTable, k: Kernel, cmds: seq<Command>, ghost vs: seq<Uvif>) returns (ghost up: set<nat>)
    requires t.Valid() && Consistent(t.Vifs(), k, {})
    requires RunState(vs, t.Vifs(), {}, k.freed, k.started, 0, false)
    modifies t`vifsDown, t.uvifs, k
    ensures Consistent(t.Vifs(), k, up)
    ensures RunState(vs, t.Vifs(), up, k.freed, k.started, StartsBeforeStop(cmds), StopAll in cmds)
  {
    up := {};
    ghost var rounds, ended := 0, false;
    assert cmds[..0] == [] && StartsBeforeStop([]) == 0;
    hide RunState, Consistent, StartsBeforeStop;
    for n := 0 to |cmds|
      invariant t.Valid() && Consistent(t.Vifs(), k, up)
      invariant rounds == StartsBeforeStop(cmds[..n]) && ended == (StopAll in cmds[..n])
      invariant RunState(vs, t.Vifs(), up, k.freed, k.started, rounds, ended)
    {
      CommandStep(cmds, n);
      up := RunCommand(t, k, cmds[n], vs, up, rounds, ended);
      rounds, ended := StartsBeforeStop(cmds[..n + 1]), StopAll in cmds[..n + 1];
    }
    assert cmds[..|cmds|] == cmds;
  }

  lemma CommandStep(cmds: seq<Command>, n: nat)
    requires n < |cmds|
    ensures StartsBeforeStop(cmds[..n + 1])
            == if cmds[n] == StartAll && StopAll !in cmds[..n] then StartsBeforeStop(cmds[..n]) + 1
               else StartsBeforeStop(cmds[..n])
    ensures StopAll in cmds[..n + 1] <==> StopAll in cmds[..n] || cmds[n] == StopAll
  {
    assert cmds[..n + 1][..n] == cmds[..n] && cmds[..n + 1] == cmds[..n] + [cmds[n]];
  }

  /** Every vif neither disabled nor down is started in each round once, and no other. */
  lemma {:induction false} RoundsCount(vs: seq<Uvif>, n: nat)
    ensures forall i :: multiset(Rounds(vs, n))[i] == if i in Ups(vs) then n else 0
  {
    hide Round, Ups;
    if n > 0 {
      RoundsCount(vs, n - 1);
      RoundIs(vs);
      OnceIn(Round(vs));
    }
  }

  lemma RoundIs(vs: seq<Uvif>)
    ensures Distinct(Round(vs)) && forall i :: i in Round(vs) <==> i in Ups(vs)
  {
    StartedOnce(vs);
    hide Ups, StartList;
  }

  lemma {:induction false} OnceIn(l: seq<nat>)
    requires Distinct(l)
    ensures forall i :: multiset(l)[i] == if i in l then 1 else 0
  {
    if l != [] {
      var n := |l| - 1;
      OnceIn(l[..n]);
      assert l == l[..n] + [l[n]];
    }
  }

  /** So over a run with a vif to start, every such vif is started exactly once if and only if start_all_vifs is called
      exactly once before the first stop. */
  lemma ExactlyOnceIff(vs: seq<Uvif>, cmds: seq<Command>, started: seq<nat>)
    requires started == Rounds(vs, StartsBeforeStop(cmds)) && Ups(vs) != {}
    ensures (forall i :: i in Ups(vs) ==> multiset(started)[i] == 1) <==> StartsBeforeStop(cmds) == 1
  {
    RoundsCount(vs, StartsBeforeStop(cmds));
    hide Ups, Rounds;
    var i :| i in Ups(vs);
  }

  lemma Unbegun(vs: seq<Uvif>, k: Kernel)
    requires Consistent(vs, k, {}) && k.started == [] && k.freed == []
    ensures RunState(vs, vs, {}, k.freed, k.started, 0, false) && Distinct(NodesBelow(vs, |vs|)) && AclsOk(vs, [])
  {
    NodesBelowDistinct(vs, |vs|);
    hide NodesBelow, IsDown, Members;
  }

  lemma RunFacts(vs0: seq<Uvif>, vs: seq<Uvif>, up: set<nat>, freed: seq<VifAcl>, started: seq<nat>, n: nat, ended: bool)
    requires RunState(vs0, vs, up, freed, started, n, ended) && Distinct(NodesBelow(vs0, |vs0|)) && AclsOk(vs0, [])
    ensures Distinct(freed) && forall i :: multiset(started)[i] == if i in Ups(vs0) then n else 0
    ensures forall i, a :: 0 <= i < |vs0| && a in Nodes(vs0[i].acl) ==> (a in freed <==> ended && !IsDown(vs0[i]))
  {
    hide Ups, NodesBelow, AllDown, AllStarted, Rounds, IsDown, Nodes, AclsOk;
    RoundsCount(vs0, n);
    forall i, a | 0 <= i < |vs0| && a in Nodes(vs0[i].acl) ensures a in freed <==> ended && !IsDown(vs0[i]) {
      FreedIff(vs0, |vs0|, i, a);
    }
  }

  // ---------------------------------------------------------------- the scan of init_vifs

  predicate Enabled(v: Uvif) {
    !Has(v.flags, VIFF_DISABLED | VIFF_DOWN | VIFF_REGISTER | VIFF_TUNNEL)
  }

  lemma EnabledBits(v: Uvif)
    ensures Enabled(v) <==> v.flags & 0x305 == 0
  {
  }

  /** The scan for enabled vifs: how many there are, and the first of them, or -1. */
  method ScanEnabled(t: VifTable) returns (enabledVifs: nat, physVif: int)
    requires t.Valid()
    ensures enabledVifs == |set i | 0 <= i < t.numvifs && Enabled(t.Vifs()[i])|
    ensures physVif == -1 <==> forall i :: 0 <= i < t.numvifs ==> !Enabled(t.Vifs()[i])
    ensures physVif != -1 ==> 0 <= physVif < t.numvifs && Enabled(t.Vifs()[physVif])
                              && forall i :: 0 <= i < physVif ==> !Enabled(t.Vifs()[i])
  {
    hide Enabled;
    ghost var vs := t.Vifs();
    enabledVifs, physVif := 0, -1;
    ghost var found: set<int> := {};
    for vifi := 0 to t.numvifs
      invariant found == (set i | 0 <= i < vifi && Enabled(vs[i])) && enabledVifs == |found|
      invariant physVif == -1 <==> forall i :: 0 <= i < vifi ==> !Enabled(vs[i])
      invariant physVif != -1 ==> 0 <= physVif < vifi && Enabled(vs[physVif])
                                  && forall i :: 0 <= i < physVif ==> !Enabled(vs[i])
    {
      assert t.uvifs[vifi] == vs[vifi];
      if !Enabled(t.uvifs[vifi]) {
        continue;
      }
      if physVif == -1 {
        physVif := vifi;
      }
      enabledVifs := enabledVifs + 1;
      found := found + {vifi};
    }
  }
}
