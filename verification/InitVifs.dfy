/** init_vifs from end to end: the kernel's interfaces and the configuration file decide which vifs run. */
module InitVifs {
  import opened Seqs
  import opened Inet
  import opened Words
  import opened Vif
  import opened IfList
  import opened PhyintLines
  import opened PhyintOptions
  import opened PhyintParser
  import opened VifConfig
  import opened VifLife
  import opened VifFile

  // ---------------------------------------------------------------- flags

  lemma DownBit(f: bv32, g: bv32)
    requires OtherFlags(f) == OtherFlags(g)
    ensures Has(f, VIFF_DOWN) == Has(g, VIFF_DOWN)
  {
  }

  lemma RegisterBit(f: bv32, g: bv32)
    requires OtherFlags(f) == OtherFlags(g)
    ensures Has(f, VIFF_REGISTER) == Has(g, VIFF_REGISTER)
  {
  }

  lemma TunnelBit(f: bv32, g: bv32)
    requires OtherFlags(f) == OtherFlags(g)
    ensures Has(f, VIFF_TUNNEL) == Has(g, VIFF_TUNNEL)
  {
  }

  lemma P2pBit(f: bv32, g: bv32)
    requires OtherFlags(f) == OtherFlags(g)
    ensures f & VIFF_POINT_TO_POINT == g & VIFF_POINT_TO_POINT
  {
  }

  lemma P2pStarted(f: bv32)
    ensures StartedFlags(f) & VIFF_POINT_TO_POINT == f & VIFF_POINT_TO_POINT
  {
  }

  lemma EnabledIff(v: Uvif)
    requires !Has(v.flags, VIFF_REGISTER) && !Has(v.flags, VIFF_TUNNEL)
    ensures Enabled(v) <==> Startable(v)
  {
    FourBits(v.flags);
  }

  lemma FourBits(f: bv32)
    requires f & 0x4 == 0 && f & 0x1 == 0
    ensures f & (0x200 | 0x100 | 0x4 | 0x1) == f & (0x200 | 0x100)
  {
  }

  // ---------------------------------------------------------------- vifs and their interfaces

  /** `v` is the vif of the interface `ifa`, and down just when that is. */
  ghost predicate Backed(v: Uvif, ifa: IfAddr, indexOf: string -> int) {
    && v.name == ifa.name && v.lclAddr == ifa.addr && v.subnet == ifa.Subnet() && v.subnetmask == ifa.mask
    && v.ifindex == indexOf(ifa.name)
    && (P2p(v) <==> ifa.PointToPoint() || ifa.mask == MASK_31)
    && (IsDown(v) <==> !ifa.Up())
    && !IsRegister(v) && !Has(v.flags, VIFF_TUNNEL)
  }

  /** `v` is the vif of an eligible interface of the kernel's. */
  ghost predicate HasInterface(v: Uvif, ifas: seq<IfAddr>, ps: seq<Phyint>, indexOf: string -> int) {
    exists n :: 0 <= n < |ifas| && Eligible(ps, ifas[n]) && Backed(v, ifas[n], indexOf)
  }

  ghost predicate FromKernel(vs: seq<Uvif>, ifas: seq<IfAddr>, ps: seq<Phyint>, indexOf: string -> int) {
    forall i :: 0 <= i < |vs| ==> HasInterface(vs[i], ifas, ps, indexOf)
  }

  /** An eligible interface has a vif, its own or an alias's, or the table is full. */
  ghost predicate Covered(vs: seq<Uvif>, ifa: IfAddr) {
    |vs| == MAXVIFS || exists i :: 0 <= i < |vs| && Alias(vs[i], ifa)
  }

  ghost predicate AllCovered(vs: seq<Uvif>, ifas: seq<IfAddr>, ps: seq<Phyint>) {
    forall n :: 0 <= n < |ifas| && Eligible(ps, ifas[n]) ==> Covered(vs, ifas[n])
  }

  /** Interface names are as short as the kernel keeps them. */
  ghost predicate NamesFit(ifas: seq<IfAddr>) {
    forall ifa :: ifa in ifas ==> |ifa.name| < IFNAMSIZ
  }

  /** Interfaces of different names have different indexes; a label such as eth0:1 has that of its interface. */
  ghost predicate IndexesApart(ifas: seq<IfAddr>, indexOf: string -> int) {
    forall a, b :: a in ifas && b in ifas && indexOf(a.name) == indexOf(b.name) ==> a.name == b.name
  }

  ghost predicate AllInRange(vs: seq<Uvif>) {
    AllAcls(vs) && forall i :: 0 <= i < |vs| ==> SettingsOk(SettingsOf(vs[i]), OtherFlags(vs[i].flags))
  }

  lemma NewVifFlags(ifa: IfAddr, allpimrouters: bv32, indexOf: string -> int)
    ensures var f := NewVif(ifa, allpimrouters, indexOf).flags;
            && !Has(f, VIFF_REGISTER) && !Has(f, VIFF_TUNNEL) && !Has(f, VIFF_DISABLED)
            && (Has(f, VIFF_DOWN) <==> !ifa.Up())
  {
  }

  lemma NewVifBacked(ifa: IfAddr, allpimrouters: bv32, indexOf: string -> int)
    requires |ifa.name| < IFNAMSIZ
    ensures var v := NewVif(ifa, allpimrouters, indexOf);
            Backed(v, ifa, indexOf) && !IsDisabled(v) && v.acl == null && SettingsOk(SettingsOf(v), OtherFlags(v.flags))
  {
    NewVifP2p(ifa, allpimrouters, indexOf);
    NewVifFlags(ifa, allpimrouters, indexOf);
    NewVifRest(ifa, allpimrouters, indexOf);
    hide NewVif, Has, P2p, OtherFlags, IfAddr.PointToPoint, IfAddr.Up;
  }

  lemma NewVifRest(ifa: IfAddr, allpimrouters: bv32, indexOf: string -> int)
    requires |ifa.name| < IFNAMSIZ
    ensures var v := NewVif(ifa, allpimrouters, indexOf);
            && v.name == ifa.name && v.lclAddr == ifa.addr && v.subnet == ifa.Subnet() && v.subnetmask == ifa.mask
            && v.ifindex == indexOf(ifa.name) && v.acl == null && v.addrs == []
            && v.threshold == 1 && v.localPref == 101 && v.localMetric == 1024 && v.drPrio == 1
  {
    hide IfAddr.PointToPoint, IfAddr.Up, IfAddr.Subnet, Peer;
  }

  lemma Installed(ifas: seq<IfAddr>, ps: seq<Phyint>, allpimrouters: bv32, indexOf: string -> int)
    requires NamesFit(ifas)
    ensures var vs := Install(ifas, ps, allpimrouters, indexOf);
            && TableOk(vs) && FromKernel(vs, ifas, ps, indexOf) && AllCovered(vs, ifas, ps) && AllInRange(vs)
            && forall i :: 0 <= i < |vs| ==> vs[i].acl == null && !IsDisabled(vs[i])
  {
    InstallTableOk(ifas, ps, allpimrouters, indexOf);
    var vs := Install(ifas, ps, allpimrouters, indexOf);
    forall i | 0 <= i < |vs|
      ensures HasInterface(vs[i], ifas, ps, indexOf)
      ensures vs[i].acl == null && SettingsOk(SettingsOf(vs[i]), OtherFlags(vs[i].flags)) && !IsDisabled(vs[i])
    {
      InstalledAreEligible(ifas, ps, allpimrouters, indexOf, i);
      hide Eligible, Backed, NewVif, Install, IsDisabled, SettingsOk, OtherFlags;
      var k :| 0 <= k < |ifas| && Eligible(ps, ifas[k]) && vs[i] == NewVif(ifas[k], allpimrouters, indexOf);
      assert ifas[k] in ifas;
      NewVifBacked(ifas[k], allpimrouters, indexOf);
    }
    hide HasInterface, Install, IsDisabled, SettingsOk, OtherFlags, TableOk, SettingsOf, Eligible, Alias;
    forall n | 0 <= n < |ifas| && Eligible(ps, ifas[n]) ensures Covered(vs, ifas[n]) {
      assert ifas[n] in ifas;
      Represented(ifas, n, ps, allpimrouters, indexOf);
    }
  }

  // ---------------------------------------------------------------- what the file and the start keep

  /** Of a vif, all that its interface decides. */
  ghost predicate SameVif(v: Uvif, v0: Uvif) {
    && v.name == v0.name && v.lclAddr == v0.lclAddr && v.subnet == v0.subnet && v.subnetmask == v0.subnetmask
    && v.ifindex == v0.ifindex
    && P2p(v) == P2p(v0) && IsDown(v) == IsDown(v0) && IsRegister(v) == IsRegister(v0)
    && Has(v.flags, VIFF_TUNNEL) == Has(v0.flags, VIFF_TUNNEL)
  }

  ghost predicate SameVifs(vs: seq<Uvif>, vs0: seq<Uvif>) {
    |vs| == |vs0| && forall i :: 0 <= i < |vs| ==> SameVif(vs[i], vs0[i])
  }

  lemma SameByFlags(v: Uvif, v0: Uvif)
    requires SameElse(v, v0) && OtherFlags(v.flags) == OtherFlags(v0.flags)
    ensures SameVif(v, v0)
  {
    DownBit(v.flags, v0.flags);
    RegisterBit(v.flags, v0.flags);
    TunnelBit(v.flags, v0.flags);
    P2pBit(v.flags, v0.flags);
    hide Has, OtherFlags;
  }

  lemma SameStarted(v: Uvif)
    requires Startable(v)
    ensures SameVif(Started(v), v)
  {
    P2pStarted(v.flags);
    StartedFacts(v.flags);
    StartableIff(v);
    TunnelStarted(v.flags);
    hide Has, StartedFlags, Startable;
  }

  lemma TunnelStarted(f: bv32)
    ensures Has(StartedFlags(f), VIFF_TUNNEL) == Has(f, VIFF_TUNNEL)
  {
  }

  lemma CoveredKept(vs: seq<Uvif>, vs0: seq<Uvif>, ifa: IfAddr)
    requires SameVifs(vs, vs0) && Covered(vs0, ifa)
    ensures Covered(vs, ifa)
  {
    hide P2p, IsDown, IsRegister, Has, IfAddr.PointToPoint, IfAddr.Subnet;
    if |vs| < MAXVIFS {
      var i :| 0 <= i < |vs0| && Alias(vs0[i], ifa);
      assert SameVif(vs[i], vs0[i]);
      assert Alias(vs[i], ifa);
    }
  }

  lemma KernelKept(vs: seq<Uvif>, vs0: seq<Uvif>, ifas: seq<IfAddr>, ps: seq<Phyint>, indexOf: string -> int)
    requires SameVifs(vs, vs0) && TableOk(vs0) && FromKernel(vs0, ifas, ps, indexOf) && AllCovered(vs0, ifas, ps)
    ensures TableOk(vs) && FromKernel(vs, ifas, ps, indexOf) && AllCovered(vs, ifas, ps)
  {
    hide P2p, IsDown, IsRegister, Has, Eligible, Covered;
    forall n | 0 <= n < |ifas| && Eligible(ps, ifas[n]) ensures Covered(vs, ifas[n]) {
      CoveredKept(vs, vs0, ifas[n]);
    }
    forall i | 0 <= i < |vs| ensures HasInterface(vs[i], ifas, ps, indexOf) {
      assert HasInterface(vs0[i], ifas, ps, indexOf) && SameVif(vs[i], vs0[i]);
      var n :| 0 <= n < |ifas| && Eligible(ps, ifas[n]) && Backed(vs0[i], ifas[n], indexOf);
      assert Backed(vs[i], ifas[n], indexOf);
    }
  }

  /** Then no vif shares its interface with another, and stopping one leaves the memberships of the others. */
  lemma IndexesDiffer(vs: seq<Uvif>, ifas: seq<IfAddr>, ps: seq<Phyint>, indexOf: string -> int)
    requires TableOk(vs) && FromKernel(vs, ifas, ps, indexOf) && IndexesApart(ifas, indexOf)
    ensures DistinctIndexes(vs)
  {
    hide P2p, IsDown, IsRegister, Has, Eligible;
    forall i, j | 0 <= i < j < |vs| ensures vs[i].ifindex != vs[j].ifindex {
      assert HasInterface(vs[i], ifas, ps, indexOf) && HasInterface(vs[j], ifas, ps, indexOf);
      var m :| 0 <= m < |ifas| && Eligible(ps, ifas[m]) && Backed(vs[i], ifas[m], indexOf);
      var n :| 0 <= n < |ifas| && Eligible(ps, ifas[n]) && Backed(vs[j], ifas[n], indexOf);
      assert ifas[m] in ifas && ifas[n] in ifas;
    }
  }

  /** What config_vifs_from_file leaves of a table fresh from config_vifs_from_kernel. */
  lemma AfterFile(vs: seq<Uvif>, vs0: seq<Uvif>, lines: seq<string>, undefined: nat -> bv32)
    requires AllAcls(vs) && AllInRange(vs0) && SameElseAll(vs, vs0)
    requires AllSettings(vs) == ReadFile(AllSettings(vs0), lines, FixedOf(vs0, undefined))
    ensures SameVifs(vs, vs0) && AllInRange(vs)
  {
    hide SettingsOk, OtherFlags, ReadFile, SameElse, SameVif, IsAcl;
    var others := seq(|vs0|, i requires 0 <= i < |vs0| => OtherFlags(vs0[i].flags));
    ReadFileKeeps(AllSettings(vs0), lines, FixedOf(vs0, undefined), others);
    forall i | 0 <= i < |vs|
      ensures SameVif(vs[i], vs0[i]) && SettingsOk(SettingsOf(vs[i]), OtherFlags(vs[i].flags))
    {
      assert AllSettings(vs)[i] == SettingsOf(vs[i]);
      OthersOf(SettingsOf(vs[i]), others[i]);
      SameByFlags(vs[i], vs0[i]);
    }
  }

  lemma OthersOf(s: Settings, other: bv32)
    requires SettingsOk(s, other)
    ensures OtherFlags(s.flags) == other
  {
    hide OtherFlags, NoHostBits, Broadcast;
  }

  lemma DisabledByFile(vs: seq<Uvif>, vs0: seq<Uvif>, lines: seq<string>, undefined: nat -> bv32, i: nat)
    requires AllAcls(vs) && AllAcls(vs0) && SameElseAll(vs, vs0) && i < |vs| && !IsDisabled(vs0[i])
    requires AllSettings(vs) == ReadFile(AllSettings(vs0), lines, FixedOf(vs0, undefined))
    ensures IsDisabled(vs[i]) <==> EndsDisabled(OptionsAbout(lines, i, FixedOf(vs, undefined)), 0)
  {
    FixedKept(vs, vs0, undefined);
    DisabledInTheEnd(AllSettings(vs0), lines, i, FixedOf(vs0, undefined));
    hide ReadFile, Has, OptionsAbout, EndsDisabled;
    assert AllSettings(vs)[i] == SettingsOf(vs[i]);
  }

  /** What start_all_vifs leaves. */
  lemma AfterStarting(vs: seq<Uvif>)
    requires AllInRange(vs)
    ensures SameVifs(AllStarted(vs), vs) && AllInRange(AllStarted(vs))
    ensures forall i :: 0 <= i < |vs| ==> IsDisabled(AllStarted(vs)[i]) == IsDisabled(vs[i])
  {
    hide SettingsOk, OtherFlags, SameVif, IsDisabled, Startable, Started, IsAcl, SettingsOf;
    forall i | 0 <= i < |vs|
      ensures SameVif(AllStarted(vs)[i], vs[i]) && IsDisabled(AllStarted(vs)[i]) == IsDisabled(vs[i])
      ensures IsAcl(AllStarted(vs)[i].acl)
      ensures SettingsOk(SettingsOf(AllStarted(vs)[i]), OtherFlags(AllStarted(vs)[i].flags))
    {
      StartedStays(vs[i]);
      SameItself(vs[i]);
    }
  }

  lemma SameItself(v: Uvif)
    ensures SameVif(v, v)
  {
    hide P2p, IsDown, IsRegister, Has;
  }

  lemma StartedStays(v: Uvif)
    requires IsAcl(v.acl) && SettingsOk(SettingsOf(v), OtherFlags(v.flags))
    ensures IsAcl(Started(v).acl) && SettingsOk(SettingsOf(Started(v)), OtherFlags(Started(v).flags))
    ensures IsDisabled(Started(v)) == IsDisabled(v) && (Startable(v) ==> SameVif(Started(v), v))
  {
    StartedFacts(v.flags);
    if Startable(v) { SameStarted(v); }
    hide SameVif, Startable, Has, StartedFlags, OtherFlags, NoHostBits, Broadcast, Scopes, VifAcl.Valid;
  }

  // ---------------------------------------------------------------- a list that is never freed

  /** A line with one scoped group adds that group to the vif. */
  lemma ScopedLine(name: string, g: string, addr: bv32, ss: seq<Settings>, x: Fixed)
    requires GoodWord(name) && GoodWord(g) && x.names == [Named(name, addr)] && addr != 0 && x.Fits(ss)
    requires IsGroup(Env(x.names, x.masks[0], x.undefined), BeforeSlash(g)) && MaskLength(LengthAfterSlash(g, 0))
    ensures var env := Env(x.names, x.masks[0], x.undefined);
            ReadFile(ss, [Join(["phyint", name, "scoped", g])], x)
            == [WithScope(ss[0], NamedOrParsed(env, BeforeSlash(g)), LengthAfterSlash(g, 0), env)]
  {
    var line, ws, env := Join(["phyint", name, "scoped", g]), ["phyint", name, "scoped", g], Env(x.names, x.masks[0], x.undefined);
    FourWords(name, g);
    AboutIt(name, addr, "igmpv2", x);
    assert From(ws, 1) == ws[1..] && ws[1..][0] == name && ws[1..][1..] == ["scoped"] + [g];
    LastScoped(g, State(ss[0], 0, 0), env);
    OnlyVif(name, addr, x);
    hide WordsOf, Join, Options, IsGroup, IsHost, NamedOrParsed, LengthAfterSlash, BeforeSlash, WithScope, GoodWord;
    assert [line][..0] == [];
    assert ReadFile(ss, [], x) == ss;
    assert ss[0 := WithScope(ss[0], NamedOrParsed(env, BeforeSlash(g)), LengthAfterSlash(g, 0), env)]
           == [WithScope(ss[0], NamedOrParsed(env, BeforeSlash(g)), LengthAfterSlash(g, 0), env)];
  }

  lemma FourWords(name: string, g: string)
    requires GoodWord(name) && GoodWord(g)
    ensures WordsOf(Join(["phyint", name, "scoped", g])) == ["phyint", name, "scoped", g]
  {
    assert GoodWord("phyint") && GoodWord("scoped");
    JoinRoundTrip(["phyint", name, "scoped", g]);
  }

  lemma OnlyVif(name: string, addr: bv32, x: Fixed)
    requires x.names == [Named(name, addr)] && addr != 0
    ensures var env := Env(x.names, 0, x.undefined);
            IsHost(env, name) && VifWith(x.names, NamedOrParsed(env, name)) == 0
  {
    hide InetParse, InetValidHost;
  }

  /** So for an interface that is not up, a scoped group leaves list nodes that stop_all_vifs never frees. */
  lemma DownScopeLeaks(name: string, g: string, vs0: seq<Uvif>, vs: seq<Uvif>, undefined: nat -> bv32)
    requires |vs0| == |vs| == 1 && AllAcls(vs0) && AclsOk(vs, []) && AllAcls(vs)
    requires vs0[0].name == name && vs0[0].lclAddr != 0 && IsDown(vs0[0]) && GoodWord(name) && GoodWord(g)
    requires IsGroup(Env(Names(vs0), vs0[0].subnetmask, undefined), BeforeSlash(g)) && MaskLength(LengthAfterSlash(g, 0))
    requires AllSettings(vs)
             == ReadFile(AllSettings(vs0), [Join(["phyint", name, "scoped", g])], FixedOf(vs0, undefined))
    ensures Nodes(vs[0].acl) != [] && forall a :: a in Nodes(vs[0].acl) ==> a !in NodesBelow(vs, 1)
  {
    hide GoodWord, IsGroup, BeforeSlash, LengthAfterSlash, NamedOrParsed, Names, ReadFile, Join, IsDown, NewScope, AclsOk,
         NodesBelow, Nodes, Scopes, VifAcl.Valid;
    ScopedLine(name, g, vs0[0].lclAddr, AllSettings(vs0), FixedOf(vs0, undefined));
    ScopeAndFlags(vs[0], vs0[0], AllSettings(vs)[0].scopes[0]);
    NothingFreed(vs);
  }

  lemma ScopeAndFlags(v: Uvif, v0: Uvif, g: Scope)
    requires IsAcl(v.acl) && g in Scopes(v.acl) && v.flags == v0.flags
    ensures Nodes(v.acl) != [] && IsDown(v) == IsDown(v0)
  {
  }

  lemma NothingFreed(vs: seq<Uvif>)
    requires |vs| == 1 && AclsOk(vs, []) && IsDown(vs[0])
    ensures forall a :: a in Nodes(vs[0].acl) ==> a !in NodesBelow(vs, 1)
  {
    forall a | a in Nodes(vs[0].acl) ensures a !in NodesBelow(vs, 1) {
      FreedIff(vs, 1, 0, a);
    }
  }

  // ---------------------------------------------------------------- the code

  /** The table is bounded and without duplicates, its vifs are those of eligible interfaces, none of which is left
      out, and all settings are in range. */
  ghost predicate Configured(vs: seq<Uvif>, ifas: seq<IfAddr>, ps: seq<Phyint>, indexOf: string -> int) {
    TableOk(vs) && FromKernel(vs, ifas, ps, indexOf) && AllCovered(vs, ifas, ps) && AllInRange(vs)
  }

  /** Exactly the vifs are disabled for which "disable" is the last enable/disable word among the options about them. */
  ghost predicate DisabledAsTold(vs: seq<Uvif>, lines: seq<string>, undefined: nat -> bv32) {
    forall i :: 0 <= i < |vs| ==>
      (IsDisabled(vs[i]) <==> EndsDisabled(OptionsAbout(lines, i, FixedOf(vs, undefined)), 0))
  }

  /** The vifs that run are those of interfaces that are up, unless the file disables them. */
  ghost predicate RunningOnes(vs: seq<Uvif>, up: set<nat>) {
    forall i :: i in up <==> 0 <= i < |vs| && !IsDown(vs[i]) && !IsDisabled(vs[i])
  }

  lemma Settled(vs: seq<Uvif>, ifas: seq<IfAddr>, lines: seq<string>, allpimrouters: bv32, indexOf: string -> int,
                undefined: nat -> bv32)
    requires NamesFit(ifas)
    requires var vs0 := Install(ifas, Entries(lines), allpimrouters, indexOf);
             && AllAcls(vs) && AllAcls(vs0) && SameElseAll(vs, vs0)
             && AllSettings(vs) == ReadFile(AllSettings(vs0), lines, FixedOf(vs0, undefined))
    ensures Configured(vs, ifas, Entries(lines), indexOf) && DisabledAsTold(vs, lines, undefined)
  {
    var ps := Entries(lines);
    var vs0 := Install(ifas, ps, allpimrouters, indexOf);
    hide Install, TableOk, FromKernel, AllCovered, AllInRange, NamesFit, SameVifs, AllAcls, AllSettings, SameElseAll, ReadFile,
         FixedOf, IsDisabled, EndsDisabled, OptionsAbout, Entries;
    Installed(ifas, ps, allpimrouters, indexOf);
    AfterFile(vs, vs0, lines, undefined);
    KernelKept(vs, vs0, ifas, ps, indexOf);
    SameLength(vs, vs0);
    forall i | 0 <= i < |vs|
      ensures IsDisabled(vs[i]) <==> EndsDisabled(OptionsAbout(lines, i, FixedOf(vs, undefined)), 0)
    {
      DisabledByFile(vs, vs0, lines, undefined, i);
    }
  }

  lemma SameLength(vs: seq<Uvif>, vs0: seq<Uvif>)
    requires SameElseAll(vs, vs0)
    ensures |vs| == |vs0|
  {
  }

  lemma NoLists(vs: seq<Uvif>)
    requires forall v :: v in vs ==> v.acl == null
    ensures AllAcls(vs) && AclsOk(vs, [])
  {
  }

  /** The two passes of init_vifs over the configuration file. */
  method Configure(lines: seq<string>, ifas: seq<IfAddr>, allpimrouters: bv32, indexOf: string -> int,
                   undefined: nat -> bv32, t: VifTable, lexer: Lexer, il: Head, alloc: Allocator) returns (ok: bool)
    requires t.Valid() && t.numvifs == 0 && lexer.Valid() && IsList(il, [])
    requires NamesFit(ifas)
    modifies t, t.uvifs, lexer.token, il, alloc
    ensures t.Valid()
    ensures ok == (CountEnabled(Entries(lines)) == 0 || Requested(ifas, Entries(lines)) >= CountEnabled(Entries(lines)))
    ensures ok ==> Configured(t.Vifs(), ifas, Entries(lines), indexOf) && DisabledAsTold(t.Vifs(), lines, undefined)
                   && AclsOk(t.Vifs(), [])
  {
    ghost var s;
    ok, s := ConfigVifsFromKernel(t, lines, ifas, allpimrouters, indexOf, lexer, il, alloc);
    if !ok {
      return;
    }
    ghost var vs0 := t.Vifs();
    Installed(ifas, Entries(lines), allpimrouters, indexOf);
    NoLists(vs0);
    hide *;
    ConfigVifsFromFile(t, lexer, lines, undefined, []);
    Settled(t.Vifs(), ifas, lines, allpimrouters, indexOf, undefined);
  }

  /** init_vifs */
  method InitVifs(lines: seq<string>, ifas: seq<IfAddr>, allpimrouters: bv32, indexOf: string -> int,
                  undefined: nat -> bv32, t: VifTable, k: Kernel, lexer: Lexer, il: Head, alloc: Allocator)
    returns (ok: bool, enabledVifs: nat, physVif: int, ghost up: set<nat>)
    requires t.Valid() && t.numvifs == 0 && lexer.Valid() && IsList(il, [])
    requires k.vifs == {} && k.members == {} && k.started == [] && k.freed == []
    requires NamesFit(ifas)
    modifies t, t.uvifs, lexer.token, il, alloc, k
    ensures t.Valid()
    ensures ok == (CountEnabled(Entries(lines)) == 0 || Requested(ifas, Entries(lines)) >= CountEnabled(Entries(lines)))
    ensures AllMet(lines, ifas) ==> ok
    ensures ok ==> Configured(t.Vifs(), ifas, Entries(lines), indexOf) && DisabledAsTold(t.Vifs(), lines, undefined)
    ensures ok ==> Consistent(t.Vifs(), k, up) && RunningOnes(t.Vifs(), up)
    ensures ok ==> Distinct(k.started) && forall i :: i in k.started <==> i in up
    ensures ok ==> enabledVifs == |up| && (physVif == -1 <==> up == {})
                   && (physVif != -1 ==> physVif in up && forall i :: i in up ==> physVif <= i)
  {
    ok := Configure(lines, ifas, allpimrouters, indexOf, undefined, t, lexer, il, alloc);
    enabledVifs, physVif, up := 0, -1, {};
    if AllMet(lines, ifas) { SuccessWhen(lines, ifas); }
    hide *;
    if ok {
      enabledVifs, physVif, up := StartConfigured(lines, ifas, indexOf, undefined, t, k);
    }
  }

  /** Its last part. */
  method StartConfigured(ghost lines: seq<string>, ghost ifas: seq<IfAddr>, ghost indexOf: string -> int,
                         ghost undefined: nat -> bv32, t: VifTable, k: Kernel)
    returns (enabledVifs: nat, physVif: int, ghost up: set<nat>)
    requires t.Valid() && AclsOk(t.Vifs(), [])
    requires Configured(t.Vifs(), ifas, Entries(lines), indexOf) && DisabledAsTold(t.Vifs(), lines, undefined)
    requires k.vifs == {} && k.members == {} && k.started == [] && k.freed == []
    modifies t.uvifs, k`vifs, k`started, k`members
    ensures Configured(t.Vifs(), ifas, Entries(lines), indexOf) && DisabledAsTold(t.Vifs(), lines, undefined)
    ensures Consistent(t.Vifs(), k, up) && RunningOnes(t.Vifs(), up)
    ensures Distinct(k.started) && forall i :: i in k.started <==> i in up
    ensures enabledVifs == |up| && (physVif == -1 <==> up == {})
    ensures physVif != -1 ==> physVif in up && forall i :: i in up ==> physVif <= i
  {
    ghost var vs := t.Vifs();
    enabledVifs, physVif := ScanStartable(t, ifas, Entries(lines), indexOf);
    NotYetStarted(vs, k);
    Running(vs, ifas, lines, indexOf, undefined);
    hide *;
    up := StartAllVifs(t, k, {});
    OnceEach(vs, k.started);
  }

  lemma OnceEach(vs: seq<Uvif>, started: seq<nat>)
    requires started == [] + StartList(vs, |vs|, false) + StartList(vs, |vs|, true)
    ensures Distinct(started) && forall i :: i in started <==> i in Ups(vs)
  {
    NothingBefore(StartList(vs, |vs|, false));
    StartedOnce(vs);
    hide *;
  }

  lemma NothingBefore(l: seq<nat>)
    ensures [] + l == l
  {
  }

  method ScanStartable(t: VifTable, ghost ifas: seq<IfAddr>, ghost ps: seq<Phyint>, ghost indexOf: string -> int)
    returns (enabledVifs: nat, physVif: int)
    requires t.Valid() && FromKernel(t.Vifs(), ifas, ps, indexOf)
    ensures enabledVifs == |Ups(t.Vifs())|
    ensures physVif == -1 <==> Ups(t.Vifs()) == {}
    ensures physVif != -1 ==> physVif in Ups(t.Vifs()) && forall i :: i in Ups(t.Vifs()) ==> physVif <= i
  {
    enabledVifs, physVif := ScanEnabled(t);
    ScanIsUps(t.Vifs(), ifas, ps, indexOf);
    assert forall i :: i in Ups(t.Vifs()) <==> 0 <= i < |t.Vifs()| && Enabled(t.Vifs()[i]);
    hide Startable, Enabled, FromKernel, Ups;
    if physVif == -1 {
      assert Ups(t.Vifs()) == {};
    }
  }

  lemma NotYetStarted(vs: seq<Uvif>, k: Kernel)
    requires AclsOk(vs, []) && k.vifs == {} && k.members == {} && k.freed == []
    ensures Consistent(vs, k, {})
  {
    hide IsRegister, AclsOk;
  }

  /** Of the vifs from the kernel none is a tunnel or register vif, so the enabled ones are those to start. */
  lemma ScanIsUps(vs: seq<Uvif>, ifas: seq<IfAddr>, ps: seq<Phyint>, indexOf: string -> int)
    requires FromKernel(vs, ifas, ps, indexOf)
    ensures (set i | 0 <= i < |vs| && Enabled(vs[i])) == Ups(vs)
    ensures forall i :: 0 <= i < |vs| ==> Enabled(vs[i]) == Startable(vs[i])
  {
    forall i | 0 <= i < |vs| ensures Enabled(vs[i]) == Startable(vs[i]) {
      assert HasInterface(vs[i], ifas, ps, indexOf);
      EnabledIff(vs[i]);
      hide Has, P2p, Eligible, Enabled, Startable, IsDown;
    }
    hide Has, P2p, Eligible, Enabled, Startable, IsDown;
  }

  lemma Running(vs: seq<Uvif>, ifas: seq<IfAddr>, lines: seq<string>, indexOf: string -> int, undefined: nat -> bv32)
    requires Configured(vs, ifas, Entries(lines), indexOf) && DisabledAsTold(vs, lines, undefined)
    ensures var ws := AllStarted(vs);
            && Configured(ws, ifas, Entries(lines), indexOf) && DisabledAsTold(ws, lines, undefined)
            && RunningOnes(ws, Ups(vs))
  {
    var ws, ps := AllStarted(vs), Entries(lines);
    AfterStarting(vs);
    KernelKept(ws, vs, ifas, ps, indexOf);
    forall i | 0 <= i < |vs|
      ensures SameElse(ws[i], vs[i]) && (Startable(vs[i]) <==> !IsDown(ws[i]) && !IsDisabled(ws[i]))
    {
      StartableIff(vs[i]);
      assert SameVif(ws[i], vs[i]);
      hide Startable, IsDisabled, IsDown, StartedFlags;
    }
    hide Startable, IsDisabled, IsDown, Entries, TableOk, FromKernel, AllCovered, AllInRange, SameElse, AllStarted;
    FixedKept(ws, vs, undefined);
  }
}
