/** Filling the `uvifs` array from the kernel's interface list: config_vifs_from_kernel. */
module VifConfig {
  import opened Seqs
  import opened Inet
  import opened Words
  import opened Vif
  import opened IfList
  import opened PhyintLines

  const IFF_UP: bv16 := 0x1
  const IFF_POINTOPOINT: bv16 := 0x10
  const IFF_MULTICAST: bv16 := 0x1000

  const HOST_MASK: bv32 := 0xffff_ffff
  const MASK_31: bv32 := 0xfeff_ffff  // htonl(0xfffffffe)
  const ONE_N: bv32 := 0x0100_0000    // htonl(1)

  /** An entry of the getifaddrs list; `inet` is false for one without address, without mask or not IPv4. */
  datatype IfAddr = IfAddr(name: string, inet: bool, addr: bv32, mask: bv32, dst: bv32, flags: bv16) {
    predicate PointToPoint() { flags & IFF_POINTOPOINT == IFF_POINTOPOINT }
    predicate Up() { flags & IFF_UP == IFF_UP }
    predicate Multicast() { flags & IFF_MULTICAST == IFF_MULTICAST }
    function Subnet(): bv32 { addr & mask }
  }

  // ---------------------------------------------------------------- which interfaces qualify

  /** The address check: a host mask passes; so does a proper host address in a valid subnet, and any unicast
      address on a point-to-point link or a /31. */
  predicate AddressOk(addr: bv32, mask: bv32, pointToPoint: bool) {
    var subnet := addr & mask;
    mask != HOST_MASK ==>
      (!InetValidSubnet(subnet, mask) || addr == subnet || addr == subnet | !mask)
      ==> InetValidHost(addr) && (mask == MASK_31 || pointToPoint)
  }

  predicate Eligible(ps: seq<Phyint>, ifa: IfAddr) {
    ifa.inet && !Disabled(ps, ifa.name, ifa.addr) && AddressOk(ifa.addr, ifa.mask, ifa.PointToPoint())
  }

  // ---------------------------------------------------------------- what is installed

  predicate P2p(v: Uvif) {
    v.flags & VIFF_POINT_TO_POINT == VIFF_POINT_TO_POINT
  }

  /** The interface is one already installed, under its name or as a non-point-to-point subnet. */
  predicate Alias(v: Uvif, ifa: IfAddr) {
    v.name == ifa.name
    || (!ifa.PointToPoint() && !P2p(v) && v.subnet == ifa.Subnet() && v.subnetmask == ifa.mask)
  }

  function Peer(addr: bv32, subnet: bv32): bv32 {
    if addr == subnet then addr + ONE_N else subnet
  }

  function P2pFlags(f: bv32): bv32 { f | VIFF_REXMIT_PRUNES | VIFF_POINT_TO_POINT }
  function DownFlags(f: bv32): bv32 { f | VIFF_DOWN }
  function SubnetBroadcast(subnet: bv32, mask: bv32): bv32 { subnet | !mask }

  /** The record of a newly installed interface. */
  function NewVif(ifa: IfAddr, allpimrouters: bv32, indexOf: string -> int): Uvif {
    Record(ifa.name, ifa.addr, ifa.Subnet(), ifa.mask, ifa.dst, ifa.PointToPoint(), ifa.Up(), allpimrouters, indexOf)
  }

  function Record(ifname: string, addr: bv32, subnet: bv32, mask: bv32, dst: bv32, pointToPoint: bool, up: bool,
                  allpimrouters: bv32, indexOf: string -> int): Uvif
  {
    var v := ZeroVif(false, allpimrouters);
    var name := Strlcpy(ifname, IFNAMSIZ);
    var flags := if pointToPoint || mask == MASK_31 then P2pFlags(v.flags) else v.flags;
    v.(lclAddr := addr,
       subnet := subnet,
       subnetmask := mask,
       subnetbcast := if mask != MASK_31 then SubnetBroadcast(subnet, mask) else 0xffff_ffff,
       name := name,
       rmtAddr := if pointToPoint then dst else if mask == MASK_31 then Peer(addr, subnet) else v.rmtAddr,
       ifindex := indexOf(name),
       flags := if up then flags else DownFlags(flags))
  }

  /** What one interface does to the installed vifs. */
  function Consider(vs: seq<Uvif>, ps: seq<Phyint>, ifa: IfAddr, allpimrouters: bv32, indexOf: string -> int): seq<Uvif>
  {
    if !Eligible(ps, ifa) || (exists i :: 0 <= i < |vs| && Alias(vs[i], ifa)) || |vs| == MAXVIFS then vs
    else vs + [NewVif(ifa, allpimrouters, indexOf)]
  }

  function Install(ifas: seq<IfAddr>, ps: seq<Phyint>, allpimrouters: bv32, indexOf: string -> int): seq<Uvif> {
    if ifas == [] then []
    else Consider(Install(ifas[..|ifas| - 1], ps, allpimrouters, indexOf), ps, ifas[|ifas| - 1], allpimrouters, indexOf)
  }

  // ---------------------------------------------------------------- what that guarantees

  /** The table is within bounds, without two vifs of one name, or two broadcast vifs on one subnet. */
  ghost predicate TableOk(vs: seq<Uvif>) {
    && |vs| <= MAXVIFS
    && (forall i, j :: 0 <= i < j < |vs| ==> vs[i].name != vs[j].name)
    && (forall i, j :: 0 <= i < j < |vs| && !P2p(vs[i]) && !P2p(vs[j])
          ==> vs[i].subnet != vs[j].subnet || vs[i].subnetmask != vs[j].subnetmask)
  }

  lemma NewVifP2p(ifa: IfAddr, allpimrouters: bv32, indexOf: string -> int)
    ensures P2p(NewVif(ifa, allpimrouters, indexOf)) <==> ifa.PointToPoint() || ifa.mask == MASK_31
  {
  }

  /** Over any kernel list whose names fit IFNAMSIZ, as the kernel's do. */
  lemma {:induction false} InstallTableOk(ifas: seq<IfAddr>, ps: seq<Phyint>, allpimrouters: bv32, indexOf: string -> int)
    requires forall ifa :: ifa in ifas ==> |ifa.name| < IFNAMSIZ
    ensures TableOk(Install(ifas, ps, allpimrouters, indexOf))
  {
    if ifas != [] {
      var n := |ifas| - 1;
      var ifa := ifas[n];
      var vs := Install(ifas[..n], ps, allpimrouters, indexOf);
      InstallTableOk(ifas[..n], ps, allpimrouters, indexOf);
      NewVifP2p(ifa, allpimrouters, indexOf);
    }
  }

  /** `vs` only grows. */
  lemma {:induction false} InstallGrows(ifas: seq<IfAddr>, n: nat, ps: seq<Phyint>, allpimrouters: bv32, indexOf: string -> int)
    requires n <= |ifas|
    ensures Install(ifas[..n], ps, allpimrouters, indexOf) <= Install(ifas, ps, allpimrouters, indexOf)
  {
    if n == |ifas| {
      assert ifas[..n] == ifas;
    } else {
      InstallGrows(ifas[..|ifas| - 1], n, ps, allpimrouters, indexOf);
      assert ifas[..|ifas| - 1][..n] == ifas[..n];
    }
  }

  lemma NewVifAlias(ifa: IfAddr, allpimrouters: bv32, indexOf: string -> int)
    requires |ifa.name| < IFNAMSIZ
    ensures Alias(NewVif(ifa, allpimrouters, indexOf), ifa)
  {
  }

  /** No eligible interface is forgotten while there is room: it is installed, or an alias of one installed. */
  lemma Represented(ifas: seq<IfAddr>, k: nat, ps: seq<Phyint>, allpimrouters: bv32, indexOf: string -> int)
    requires k < |ifas| && Eligible(ps, ifas[k]) && |ifas[k].name| < IFNAMSIZ
    ensures var vs := Install(ifas, ps, allpimrouters, indexOf);
            |vs| == MAXVIFS || exists i :: 0 <= i < |vs| && Alias(vs[i], ifas[k])
  {
    hide NewVif, Eligible, Alias;
    NewVifAlias(ifas[k], allpimrouters, indexOf);
    var before := Install(ifas[..k], ps, allpimrouters, indexOf);
    var after := Install(ifas[..k + 1], ps, allpimrouters, indexOf);
    assert ifas[..k + 1][..k] == ifas[..k];
    InstallGrows(ifas, k + 1, ps, allpimrouters, indexOf);
    InstallBounded(ifas, ps, allpimrouters, indexOf);
    if |before| < MAXVIFS && !exists i :: 0 <= i < |before| && Alias(before[i], ifas[k]) {
      assert after == before + [NewVif(ifas[k], allpimrouters, indexOf)];
      assert Alias(after[|before|], ifas[k]);
    }
  }

  lemma {:induction false} InstallBounded(ifas: seq<IfAddr>, ps: seq<Phyint>, allpimrouters: bv32, indexOf: string -> int)
    ensures |Install(ifas, ps, allpimrouters, indexOf)| <= 32
  {
    if ifas != [] { InstallBounded(ifas[..|ifas| - 1], ps, allpimrouters, indexOf); }
  }

  /** Nothing else is installed: every vif is the record of an eligible interface. */
  lemma {:induction false} InstalledAreEligible(ifas: seq<IfAddr>, ps: seq<Phyint>, allpimrouters: bv32, indexOf: string -> int, i: nat)
    requires i < |Install(ifas, ps, allpimrouters, indexOf)|
    ensures exists k :: 0 <= k < |ifas| && Eligible(ps, ifas[k])
                        && Install(ifas, ps, allpimrouters, indexOf)[i] == NewVif(ifas[k], allpimrouters, indexOf)
  {
    var n := |ifas| - 1;
    if i < |Install(ifas[..n], ps, allpimrouters, indexOf)| {
      InstalledAreEligible(ifas[..n], ps, allpimrouters, indexOf, i);
    } else {
      assert Eligible(ps, ifas[n]);
    }
  }

  /** A broadcast vif's address is a host address strictly inside a contiguous subnet of at least 4 addresses. */
  lemma BroadcastAddress(addr: bv32, mask: bv32) returns (k: nat)
    requires AddressOk(addr, mask, false) && mask != MASK_31 && mask != HOST_MASK
    ensures 2 <= k <= 32 && Ntohl(mask) == MaskFrom(k)
    ensures addr != addr & mask && addr != (addr & mask) | !mask
  {
    NtohlInvolution(mask);
    ValidSubnetIff(addr & mask, mask);
    ValidMaskIff(Ntohl(mask));
    k :| 0 <= k <= 32 && Ntohl(mask) == MaskFrom(k);
    assert MaskFrom(0) == Ntohl(HOST_MASK) && MaskFrom(1) == Ntohl(MASK_31);
  }

  /** On a /31 the remote address is the other address of the pair. */
  lemma PeerOf31(ifa: IfAddr, allpimrouters: bv32, indexOf: string -> int)
    requires ifa.mask == MASK_31 && !ifa.PointToPoint()
    ensures NewVif(ifa, allpimrouters, indexOf).rmtAddr == ifa.addr ^ 0x0100_0000 != ifa.addr
    ensures NewVif(ifa, allpimrouters, indexOf).rmtAddr & 0xfeff_ffff == NewVif(ifa, allpimrouters, indexOf).subnet
  {
    OtherOfPair(ifa.addr);
    RemoteIs(ifa, allpimrouters, indexOf);
  }

  lemma RemoteIs(ifa: IfAddr, allpimrouters: bv32, indexOf: string -> int)
    requires ifa.mask == MASK_31 && !ifa.PointToPoint()
    ensures NewVif(ifa, allpimrouters, indexOf).rmtAddr == Peer(ifa.addr, ifa.addr & 0xfeff_ffff)
    ensures NewVif(ifa, allpimrouters, indexOf).subnet == ifa.addr & 0xfeff_ffff
  {
    hide Peer, IfAddr.PointToPoint, Strlcpy;
  }

  lemma OtherOfPair(addr: bv32)
    ensures Peer(addr, addr & 0xfeff_ffff) == addr ^ 0x0100_0000 != addr
    ensures (addr ^ 0x0100_0000) & 0xfeff_ffff == addr & 0xfeff_ffff
  {
    assert ONE_N == 0x0100_0000;
    AddOrFlip(addr);
  }

  lemma AddOrFlip(addr: bv32)
    ensures addr & 0xfeff_ffff == addr ==> addr + 0x0100_0000 == addr ^ 0x0100_0000
    ensures addr & 0xfeff_ffff != addr ==> addr & 0xfeff_ffff == addr ^ 0x0100_0000
    ensures addr ^ 0x0100_0000 != addr && (addr ^ 0x0100_0000) & 0xfeff_ffff == addr & 0xfeff_ffff
  {
  }

  /** Two kernel lists that differ at most in who supports multicast. */
  ghost predicate SameButMulticast(ifas: seq<IfAddr>, other: seq<IfAddr>) {
    |ifas| == |other| && forall n :: 0 <= n < |ifas| ==> SameInterface(ifas[n], other[n])
  }

  ghost predicate SameInterface(a: IfAddr, b: IfAddr) {
    && a.name == b.name && a.inet == b.inet && a.addr == b.addr && a.mask == b.mask && a.dst == b.dst
    && a.PointToPoint() == b.PointToPoint() && a.Up() == b.Up()
  }

  lemma RecordAlike(a: IfAddr, b: IfAddr, allpimrouters: bv32, indexOf: string -> int)
    requires SameInterface(a, b)
    ensures NewVif(a, allpimrouters, indexOf) == NewVif(b, allpimrouters, indexOf)
  {
    SubnetAlike(a, b);
    hide Record, IfAddr.PointToPoint, IfAddr.Up, IfAddr.Subnet;
  }

  lemma SubnetAlike(a: IfAddr, b: IfAddr)
    requires a.addr == b.addr && a.mask == b.mask
    ensures a.Subnet() == b.Subnet()
  {
  }

  lemma EligibleAlike(ps: seq<Phyint>, a: IfAddr, b: IfAddr)
    requires SameInterface(a, b)
    ensures Eligible(ps, a) == Eligible(ps, b)
  {
    hide IfAddr.PointToPoint, IfAddr.Up, Disabled, AddressOk;
  }

  lemma AliasAlike(v: Uvif, a: IfAddr, b: IfAddr)
    requires SameInterface(a, b)
    ensures Alias(v, a) == Alias(v, b)
  {
    SubnetAlike(a, b);
    hide IfAddr.PointToPoint, IfAddr.Up, IfAddr.Subnet, P2p;
  }

  lemma ConsiderAlike(vs: seq<Uvif>, ps: seq<Phyint>, a: IfAddr, b: IfAddr, allpimrouters: bv32, indexOf: string -> int)
    requires SameInterface(a, b)
    ensures Consider(vs, ps, a, allpimrouters, indexOf) == Consider(vs, ps, b, allpimrouters, indexOf)
  {
    hide SameInterface, NewVif, Alias, Eligible;
    RecordAlike(a, b, allpimrouters, indexOf);
    EligibleAlike(ps, a, b);
    forall i | 0 <= i < |vs| ensures Alias(vs[i], a) == Alias(vs[i], b) {
      AliasAlike(vs[i], a, b);
    }
  }

  /** Multicast support does not decide what is installed: the same table comes of both lists. */
  lemma {:induction false} MulticastIgnored(ifas: seq<IfAddr>, other: seq<IfAddr>, ps: seq<Phyint>, allpimrouters: bv32,
                                            indexOf: string -> int)
    requires SameButMulticast(ifas, other)
    ensures Install(ifas, ps, allpimrouters, indexOf) == Install(other, ps, allpimrouters, indexOf)
  {
    hide Consider, SameInterface;
    if ifas != [] {
      var n := |ifas| - 1;
      MulticastIgnored(ifas[..n], other[..n], ps, allpimrouters, indexOf);
      ConsiderAlike(Install(ifas[..n], ps, allpimrouters, indexOf), ps, ifas[n], other[n], allpimrouters, indexOf);
    }
  }

  /** Interface `k` is installed exactly when it is eligible, no vif of an earlier one stands for it and there is room;
      with or without multicast. */
  lemma InstalledIff(ifas: seq<IfAddr>, k: nat, ps: seq<Phyint>, allpimrouters: bv32, indexOf: string -> int)
    requires k < |ifas|
    ensures var vs, vs' := Install(ifas[..k], ps, allpimrouters, indexOf), Install(ifas[..k + 1], ps, allpimrouters, indexOf);
            && vs' <= Install(ifas, ps, allpimrouters, indexOf)
            && (vs' == vs + [NewVif(ifas[k], allpimrouters, indexOf)]
                <==> Eligible(ps, ifas[k]) && (forall i :: 0 <= i < |vs| ==> !Alias(vs[i], ifas[k])) && |vs| < 32)
            && (vs' == vs || vs' == vs + [NewVif(ifas[k], allpimrouters, indexOf)])
  {
    hide Eligible, Alias, NewVif;
    assert ifas[..k + 1][..k] == ifas[..k];
    InstallGrows(ifas, k + 1, ps, allpimrouters, indexOf);
    InstallBounded(ifas[..k], ps, allpimrouters, indexOf);
  }

  /** Where multicast does matter: an interface without it satisfies no phyint line's request, so that without any a
      file that enables one makes config_vifs_from_kernel fail. */
  lemma {:induction false} NoneRequested(ifas: seq<IfAddr>, ps: seq<Phyint>)
    requires forall ifa :: ifa in ifas ==> !ifa.Multicast()
    ensures Requested(ifas, ps) == 0
  {
    hide IfAddr.Multicast;
    if ifas != [] { NoneRequested(ifas[..|ifas| - 1], ps); }
  }

  /** Why the names must fit: any two eligible interfaces with longer names that start alike are cut to one uv_name, and
      both installed unless their subnets coincide. */
  lemma LongNamesClash(a: IfAddr, b: IfAddr, ps: seq<Phyint>, allpimrouters: bv32, indexOf: string -> int)
    requires |a.name| >= IFNAMSIZ && |b.name| >= IFNAMSIZ && a.name[..IFNAMSIZ - 1] == b.name[..IFNAMSIZ - 1]
    requires Eligible(ps, a) && Eligible(ps, b)
    requires a.PointToPoint() || b.PointToPoint() || a.Subnet() != b.Subnet() || a.mask != b.mask
    ensures var v, w := NewVif(a, allpimrouters, indexOf), NewVif(b, allpimrouters, indexOf);
            Install([a] + [b], ps, allpimrouters, indexOf) == [v, w] && v.name == w.name
    ensures !TableOk(Install([a] + [b], ps, allpimrouters, indexOf))
  {
    var v, w := NewVif(a, allpimrouters, indexOf), NewVif(b, allpimrouters, indexOf);
    CutName(a, allpimrouters, indexOf);
    CutName(b, allpimrouters, indexOf);
    NewVifP2p(a, allpimrouters, indexOf);
    hide Eligible, NewVif, P2p, IfAddr.PointToPoint, IfAddr.Subnet;
    assert ([a] + [b])[..1] == [a] && [a][..0] == [];
    assert Install([], ps, allpimrouters, indexOf) == [];
    assert Install([a], ps, allpimrouters, indexOf) == [] + [v];
    assert !Alias(v, b) by { assert |v.name| < |b.name|; }
    assert Install([a] + [b], ps, allpimrouters, indexOf) == [v] + [w];
    assert ([v] + [w])[0].name == ([v] + [w])[1].name;
  }

  lemma CutName(ifa: IfAddr, allpimrouters: bv32, indexOf: string -> int)
    requires |ifa.name| >= IFNAMSIZ
    ensures var v := NewVif(ifa, allpimrouters, indexOf);
            v.name == ifa.name[..IFNAMSIZ - 1] && v.subnet == ifa.Subnet() && v.subnetmask == ifa.mask
  {
    hide IfAddr.PointToPoint, IfAddr.Up, IfAddr.Subnet, Peer;
  }

  // ---------------------------------------------------------------- in plain numbers

  lemma NtohlParts(a: bv32, b: bv32)
    ensures Ntohl(a & b) == Ntohl(a) & Ntohl(b) && Ntohl((a & b) | !b) == (Ntohl(a) & Ntohl(b)) | !Ntohl(b)
  {
  }

  lemma NtohlOnto(a: bv32, b: bv32)
    ensures Ntohl(a) == Ntohl(b) <==> a == b
  {
    NtohlInvolution(a);
    NtohlInvolution(b);
  }

  /** 1.0.0.0 to 223.255.255.255 */
  predicate Unicast(x: bv32) {
    0x0100_0000 <= x < 0xe000_0000
  }

  /** The first and the last address of the subnet of `x`. */
  function First(x: bv32, m: bv32): bv32 {
    x & m
  }

  function Last(x: bv32, m: bv32): bv32 {
    (x & m) | !m
  }

  predicate LowEnd(x: bv32, m: bv32) {
    x == First(x, m)
  }

  predicate HighEnd(x: bv32, m: bv32) {
    x == Last(x, m)
  }

  /** A subnet that is unicast, not the loopback's, and in class A no larger than its network. */
  predicate Proper(s: bv32, m: bv32) {
    Unicast(s) && !(0x7f00_0000 <= s < 0x8000_0000) && (s < 0x8000_0000 ==> m >= 0xff00_0000)
  }

  predicate ProperSubnet(x: bv32, m: bv32) {
    Proper(x & m, m)
  }

  /** `x` lies strictly inside its subnet, which has at least 4 addresses; `m` is 2^32 - 2^k. */
  ghost predicate Inside(x: bv32, m: bv32) {
    (exists k: nat :: 2 <= k <= 31 && m == MaskFrom(k)) && ProperSubnet(x, m) && !LowEnd(x, m) && !HighEnd(x, m)
  }

  /** The interface addresses to be taken: any with the mask 255.255.255.255; those inside a proper subnet; unicast ones
      on a point-to-point link or a /31; and, with the mask 0.0.0.0, all but the lowest and the highest. */
  ghost predicate Taken(x: bv32, m: bv32, pointToPoint: bool) {
    m == 0xffff_ffff || Inside(x, m) || (Unicast(x) && (m == 0xffff_fffe || pointToPoint))
    || (m == 0 && x != 0 && x != 0xffff_ffff)
  }

  predicate NoHostPart(s: bv32, m: bv32) {
    s & !m == 0
  }

  lemma ValidSubnetForm(nsubnet: bv32, nmask: bv32)
    ensures var s, m := Ntohl(nsubnet), Ntohl(nmask);
            InetValidSubnet(nsubnet, nmask)
            <==> (nsubnet == 0 && nmask == 0) || (Proper(s, m) && NoHostPart(s, m) && InetValidMask(m))
  {
    ValidSubnetIff(nsubnet, nmask);
    hide InetValidSubnet, Ntohl, InetValidMask;
  }

  lemma OwnSubnet(addr: bv32, mask: bv32)
    ensures var s, x, m := Ntohl(addr & mask), Ntohl(addr), Ntohl(mask);
            NoHostPart(s, m) && (Proper(s, m) <==> ProperSubnet(x, m)) && (mask == 0 ==> addr & mask == 0)
            && (m == 0 <==> mask == 0)
  {
    NtohlParts(addr, mask);
    NtohlOnto(mask, 0);
    MaskedParts(addr, mask);
    hide Ntohl, Proper;
  }

  lemma MaskedParts(x: bv32, m: bv32)
    ensures (Ntohl(x) & Ntohl(m)) & !Ntohl(m) == 0 && Ntohl(0) == 0 && (m == 0 ==> x & m == 0)
  {
  }

  /** The subnet test, on the subnet of an address. */
  lemma SubnetIff(addr: bv32, mask: bv32)
    ensures var x, m := Ntohl(addr), Ntohl(mask);
            InetValidSubnet(addr & mask, mask) <==> m == 0 || (ProperSubnet(x, m) && InetValidMask(m))
  {
    hide InetValidSubnet, Ntohl, InetValidMask, Proper, ProperSubnet, NoHostPart;
    ValidSubnetForm(addr & mask, mask);
    OwnSubnet(addr, mask);
  }

  /** Of the masks that inet_valid_mask accepts, those of fewer than 4 addresses, and none, leave nothing inside. */
  lemma InsideIff(x: bv32, m: bv32)
    requires !LowEnd(x, m) && !HighEnd(x, m) && ProperSubnet(x, m)
    ensures InetValidMask(m) <==> exists k: nat :: 2 <= k <= 31 && m == MaskFrom(k)
  {
    ValidMaskIff(m);
    SomeMasks();
    SmallSubnets(x, m);
    hide MaskFrom, InetValidMask, LowEnd, HighEnd, ProperSubnet;
    if InetValidMask(m) {
      var k: nat :| k <= 32 && m == MaskFrom(k);
      assert k != 0 && k != 1 && k != 32;
    }
  }

  lemma SmallSubnets(x: bv32, m: bv32)
    ensures m == 0xffff_fffe ==> LowEnd(x, m) || HighEnd(x, m)
    ensures m == 0xffff_ffff ==> LowEnd(x, m)
    ensures m == 0 ==> !ProperSubnet(x, m) && (LowEnd(x, m) <==> x == 0) && (HighEnd(x, m) <==> x == 0xffff_ffff)
  {
  }

  lemma AddressOkRaw(addr: bv32, mask: bv32, pointToPoint: bool)
    ensures AddressOk(addr, mask, pointToPoint)
            <==> mask == HOST_MASK
                 || (InetValidSubnet(addr & mask, mask) && !(addr == addr & mask || addr == (addr & mask) | !mask))
                 || (InetValidHost(addr) && (mask == MASK_31 || pointToPoint))
  {
    hide InetValidSubnet, InetValidHost;
  }

  lemma EndsRaw(x: bv32, m: bv32)
    ensures LowEnd(x, m) || HighEnd(x, m) <==> x == x & m || x == (x & m) | !m
  {
    hide First, Last;
    FirstLast(x, m);
  }

  lemma FirstLast(x: bv32, m: bv32)
    ensures First(x, m) == x & m && Last(x, m) == (x & m) | !m
  {
  }

  lemma AddressOkParts(addr: bv32, mask: bv32, pointToPoint: bool)
    ensures AddressOk(addr, mask, pointToPoint)
            <==> mask == HOST_MASK
                 || (InetValidSubnet(addr & mask, mask) && !(LowEnd(addr, mask) || HighEnd(addr, mask)))
                 || (InetValidHost(addr) && (mask == MASK_31 || pointToPoint))
  {
    hide InetValidSubnet, InetValidHost, AddressOk, LowEnd, HighEnd;
    AddressOkRaw(addr, mask, pointToPoint);
    EndsRaw(addr, mask);
  }

  lemma AddressOkIff(addr: bv32, mask: bv32, pointToPoint: bool)
    ensures AddressOk(addr, mask, pointToPoint) <==> Taken(Ntohl(addr), Ntohl(mask), pointToPoint)
  {
    hide AddressOk, InetValidSubnet, Ntohl, InetValidMask, MaskFrom, ProperSubnet, InetValidHost, LowEnd, HighEnd;
    var x, m := Ntohl(addr), Ntohl(mask);
    AddressOkParts(addr, mask, pointToPoint);
    SubnetIff(addr, mask);
    EndsAre(addr, mask);
    MasksAre(mask);
    SmallSubnets(x, m);
    if !LowEnd(x, m) && !HighEnd(x, m) && ProperSubnet(x, m) { InsideIff(x, m); }
  }

  lemma NtohlEnds(addr: bv32, mask: bv32)
    ensures Ntohl(First(addr, mask)) == First(Ntohl(addr), Ntohl(mask)) && Ntohl(Last(addr, mask)) == Last(Ntohl(addr), Ntohl(mask))
  {
    NtohlParts(addr, mask);
    hide Ntohl;
  }

  lemma EndsAre(addr: bv32, mask: bv32)
    ensures LowEnd(addr, mask) == LowEnd(Ntohl(addr), Ntohl(mask)) && HighEnd(addr, mask) == HighEnd(Ntohl(addr), Ntohl(mask))
  {
    hide Ntohl, First, Last;
    NtohlEnds(addr, mask);
    NtohlOnto(addr, First(addr, mask));
    NtohlOnto(addr, Last(addr, mask));
  }

  lemma MasksAre(mask: bv32)
    ensures mask == HOST_MASK <==> Ntohl(mask) == 0xffff_ffff
    ensures mask == MASK_31 <==> Ntohl(mask) == 0xffff_fffe
  {
  }

  lemma FlagsAre(ifa: IfAddr)
    ensures ifa.PointToPoint() <==> ifa.flags & 0x10 != 0
    ensures ifa.Up() <==> ifa.flags & 0x1 != 0
    ensures ifa.Multicast() <==> ifa.flags & 0x1000 != 0
  {
  }

  /** Which interfaces qualify: IPv4 ones that no line disables, with an address to be taken. */
  lemma EligibleIff(ps: seq<Phyint>, ifa: IfAddr)
    ensures Eligible(ps, ifa)
            <==> ifa.inet && !Disabled(ps, ifa.name, ifa.addr)
                 && Taken(Ntohl(ifa.addr), Ntohl(ifa.mask), ifa.flags & 0x10 != 0)
  {
    AddressOkIff(ifa.addr, ifa.mask, ifa.PointToPoint());
    FlagsAre(ifa);
    hide AddressOk, Taken, Disabled, IfAddr.PointToPoint, Ntohl;
  }

  /** So a lone interface is installed exactly if it is IPv4 and its address is to be taken. */
  lemma LoneInstalledIff(ifa: IfAddr, allpimrouters: bv32, indexOf: string -> int)
    ensures Install([ifa], [], allpimrouters, indexOf)
            == if ifa.inet && Taken(Ntohl(ifa.addr), Ntohl(ifa.mask), ifa.flags & 0x10 != 0)
               then [NewVif(ifa, allpimrouters, indexOf)] else []
  {
    EligibleIff([], ifa);
    hide Eligible, Taken, NewVif, Ntohl;
    assert [ifa][..0] == [];
    assert Install([], [], allpimrouters, indexOf) == [];
    assert !Disabled([], ifa.name, ifa.addr);
  }

  /** Of two qualifying interfaces the second is passed over exactly if it has the name of the first, or if neither is
      point-to-point (nor the first a /31) and both are on one subnet. */
  lemma PairInstalledIff(a: IfAddr, b: IfAddr, ps: seq<Phyint>, allpimrouters: bv32, indexOf: string -> int)
    requires Eligible(ps, a) && Eligible(ps, b) && |a.name| < 16
    ensures Install([a] + [b], ps, allpimrouters, indexOf)
            == if b.name == a.name || (b.flags & 0x10 == 0 && a.flags & 0x10 == 0 && Ntohl(a.mask) != 0xffff_fffe
                                       && a.Subnet() == b.Subnet() && a.mask == b.mask)
               then [NewVif(a, allpimrouters, indexOf)]
               else [NewVif(a, allpimrouters, indexOf)] + [NewVif(b, allpimrouters, indexOf)]
  {
    var v := NewVif(a, allpimrouters, indexOf);
    AliasOfNew(a, b, allpimrouters, indexOf);
    hide Eligible, NewVif, Alias, Ntohl, IfAddr.Subnet;
    assert ([a] + [b])[..1] == [a] && [a][..0] == [];
    assert Install([], ps, allpimrouters, indexOf) == [];
    assert Install([a], ps, allpimrouters, indexOf) == [] + [v] == [v];
    assert [v][0] == v;
    assert (exists i :: 0 <= i < |[v]| && Alias([v][i], b)) <==> Alias(v, b);
    assert Install([a] + [b], ps, allpimrouters, indexOf) == Consider([v], ps, b, allpimrouters, indexOf);
  }

  lemma AliasOfNew(a: IfAddr, b: IfAddr, allpimrouters: bv32, indexOf: string -> int)
    requires |a.name| < 16
    ensures Alias(NewVif(a, allpimrouters, indexOf), b)
            <==> b.name == a.name || (b.flags & 0x10 == 0 && a.flags & 0x10 == 0 && Ntohl(a.mask) != 0xffff_fffe
                                      && a.Subnet() == b.Subnet() && a.mask == b.mask)
  {
    FlagsAre(a);
    FlagsAre(b);
    MasksAre(a.mask);
    NewVifP2p(a, allpimrouters, indexOf);
    NewVifNames(a, allpimrouters, indexOf);
    hide NewVif, P2p, Ntohl, IfAddr.PointToPoint, IfAddr.Subnet;
  }

  lemma SubnetIs(ifa: IfAddr)
    ensures ifa.Subnet() == ifa.addr & ifa.mask
  {
  }

  lemma NewVifNames(ifa: IfAddr, allpimrouters: bv32, indexOf: string -> int)
    ensures var v := NewVif(ifa, allpimrouters, indexOf);
            v.name == (if |ifa.name| < 16 then ifa.name else ifa.name[..15]) && v.subnet == ifa.Subnet() && v.subnetmask == ifa.mask
  {
    hide IfAddr.PointToPoint, IfAddr.Up, IfAddr.Subnet, Peer;
  }

  /** The fields of a new record that no phyint line and no start or stop changes, and the defaults of the others. */
  lemma NewVifFields(ifa: IfAddr, allpimrouters: bv32, indexOf: string -> int)
    ensures var v := NewVif(ifa, allpimrouters, indexOf);
            && v.subnetbcast == (if ifa.mask == MASK_31 then 0xffff_ffff else ifa.Subnet() | !ifa.mask)
            && v.rmtAddr == (if ifa.PointToPoint() then ifa.dst
                             else if ifa.mask == MASK_31 then ifa.addr ^ 0x0100_0000 else 0)
            && v.dstAddr == allpimrouters && v.metric == 1 && v.rateLimit == 0
            && v.threshold == 1 && v.localPref == 101 && v.localMetric == 1024 && v.drPrio == 1
            && v.acl == null && v.addrs == []
  {
    if ifa.mask == MASK_31 && !ifa.PointToPoint() { PeerOf31(ifa, allpimrouters, indexOf); }
    hide IfAddr.PointToPoint, IfAddr.Up, IfAddr.Subnet, Peer, Strlcpy;
  }

  /** Its flags: VIFF_REXMIT_PRUNES and VIFF_POINT_TO_POINT on point-to-point links and /31, VIFF_DOWN if not up. */
  lemma NewVifFlagBits(ifa: IfAddr, allpimrouters: bv32, indexOf: string -> int)
    ensures NewVif(ifa, allpimrouters, indexOf).flags
            == (if ifa.PointToPoint() || ifa.mask == MASK_31 then 0x10_4000 else 0) | (if ifa.Up() then 0 else 0x100)
  {
    hide IfAddr.PointToPoint, IfAddr.Up, IfAddr.Subnet, Peer, Strlcpy;
  }

  // ---------------------------------------------------------------- the code

  /** How many kernel entries are not IPv4 interfaces. */
  function NonInet(ifas: seq<IfAddr>): nat {
    if ifas == [] then 0 else NonInet(ifas[..|ifas| - 1]) + (if ifas[|ifas| - 1].inet then 0 else 1)
  }

  /** How many IPv4 interfaces are not disabled. */
  function Candidates(ifas: seq<IfAddr>, ps: seq<Phyint>): nat {
    if ifas == [] then 0
    else
      var ifa := ifas[|ifas| - 1];
      Candidates(ifas[..|ifas| - 1], ps) + (if ifa.inet && !Disabled(ps, ifa.name, ifa.addr) then 1 else 0)
  }

  predicate Asked(ps: seq<Phyint>, ifa: IfAddr) {
    var k := FirstMatch(ps, ifa.name, ifa.addr);
    ifa.inet && ifa.Multicast() && k < |ps| && ps[k].enabled
  }

  /** How many multicast IPv4 interfaces an enabled phyint line asks for. */
  function Requested(ifas: seq<IfAddr>, ps: seq<Phyint>): nat {
    if ifas == [] then 0
    else Requested(ifas[..|ifas| - 1], ps) + (if Asked(ps, ifas[|ifas| - 1]) then 1 else 0)
  }

  /** iface_find, as a position in the list. */
  method Lookup(il: Head, ifa: IfAddr, ghost s: seq<Entry>) returns (r: Entry?)
    requires IsList(il, s)
    ensures var k := FirstMatch(Items(s), ifa.name, ifa.addr); r == if k < |s| then s[k] else null
    ensures (r != null && !r.item.enabled) == Disabled(Items(s), ifa.name, ifa.addr)
  {
    r := IfaceFind(il, ifa.name, ifa.addr, s);
    ghost var k := FirstMatch(Items(s), ifa.name, ifa.addr);
    if r != null {
      ghost var m :| 0 <= m < |s| && s[m] == r && Matches(r.item, ifa.name, ifa.addr)
                     && forall j :: 0 <= j < m ==> !Matches(s[j].item, ifa.name, ifa.addr);
      assert Items(s)[m] == s[m].item;
    }
  }

  /** compare_requested_with_kernel: looks at no interface when `num` is 0. */
  method CompareRequested(t: VifTable, ifas: seq<IfAddr>, num: nat, il: Head, ghost s: seq<Entry>) returns (count: nat)
    requires IsList(il, s)
    modifies t`totalInterfaces
    ensures count == if num == 0 then 0 else Requested(ifas, Items(s))
    ensures t.totalInterfaces == old(t.totalInterfaces) + if num == 0 then 0 else NonInet(ifas)
  {
    count := 0;
    var n := 0;
    while n < |ifas| && num != 0
      invariant n <= |ifas| && (num == 0 ==> n == 0)
      invariant count == Requested(ifas[..n], Items(s))
      invariant t.totalInterfaces == old(t.totalInterfaces) + NonInet(ifas[..n])
    {
      var ifa := ifas[n];
      assert ifas[..n + 1][..n] == ifas[..n];
      n := n + 1;
      if !ifa.inet {
        t.totalInterfaces := t.totalInterfaces + 1;
        continue;
      }
      if !ifa.Multicast() {
        continue;
      }
      var entry := Lookup(il, ifa, s);
      if entry == null || !entry.item.enabled {
        continue;
      }
      count := count + 1;
    }
    assert ifas[..|ifas|] == ifas;
  }

  // ---------------------------------------------------------------- when configuration succeeds

  /** The interface satisfies a request of the file: it is IPv4, does multicast, and the last line about it does not
      disable it. */
  ghost predicate Satisfies(ifa: IfAddr, file: seq<string>) {
    ifa.inet && ifa.flags & 0x1000 != 0 && exists k :: LastEnables(file, k, ifa.name, ifa.addr)
  }

  lemma AskedIff(ifa: IfAddr, file: seq<string>)
    ensures Asked(Entries(file), ifa) <==> Satisfies(ifa, file)
  {
    WantedIff(file, ifa.name, ifa.addr);
    FlagsAre(ifa);
    hide Entries, IfAddr.Multicast, LastEnables, FirstMatch;
  }

  /** The positions of the interfaces that satisfy a request. */
  ghost function Satisfying(ifas: seq<IfAddr>, file: seq<string>): set<int> {
    set n | 0 <= n < |ifas| && Satisfies(ifas[n], file)
  }

  lemma SatisfyingStep(ifas: seq<IfAddr>, file: seq<string>)
    requires ifas != []
    ensures var l := |ifas| - 1;
            && l !in Satisfying(ifas[..l], file)
            && Satisfying(ifas, file) == Satisfying(ifas[..l], file) + if Satisfies(ifas[l], file) then {l} else {}
  {
    hide Satisfies;
  }

  /** Every interface that satisfies a request counts for one, and no other for any. */
  lemma {:induction false} RequestedIs(ifas: seq<IfAddr>, file: seq<string>)
    ensures Requested(ifas, Entries(file)) == |Satisfying(ifas, file)|
  {
    hide Satisfies, Asked, Entries, Satisfying;
    if ifas == [] {
      NoneSatisfying(file);
    } else {
      RequestedIs(ifas[..|ifas| - 1], file);
      AskedIff(ifas[|ifas| - 1], file);
      SatisfyingStep(ifas, file);
    }
  }

  lemma NoneSatisfying(file: seq<string>)
    ensures Satisfying([], file) == {}
  {
  }

  /** The enabled lines that are the last ones about one of the first `n` interfaces. */
  ghost function Met(file: seq<string>, ifas: seq<IfAddr>, n: nat): set<int>
    requires n <= |ifas|
  {
    set k | k in EnabledLines(file) && exists m :: 0 <= m < n && MetBy(file, k, ifas[m])
  }

  ghost predicate MetBy(file: seq<string>, k: int, ifa: IfAddr) {
    ifa.inet && ifa.flags & 0x1000 != 0 && LastEnables(file, k, ifa.name, ifa.addr)
  }

  lemma OnlyOneMet(file: seq<string>, j: int, k: int, ifa: IfAddr)
    requires MetBy(file, j, ifa) && MetBy(file, k, ifa)
    ensures j == k
  {
    hide LineMatches, SaysDisable;
  }

  /** An interface meets at most one line. */
  lemma {:induction false} MetBound(file: seq<string>, ifas: seq<IfAddr>, n: nat)
    requires n <= |ifas|
    ensures |Met(file, ifas, n)| <= Requested(ifas[..n], Entries(file))
  {
    hide EnabledLines, Entries, Asked, LastEnables;
    if n == 0 {
      assert Met(file, ifas, 0) == {};
    } else {
      var ifa := ifas[n - 1];
      MetBound(file, ifas, n - 1);
      AskedIff(ifa, file);
      assert ifas[..n][..n - 1] == ifas[..n - 1];
      var before, now := Met(file, ifas, n - 1), Met(file, ifas, n);
      if k :| k in now && k !in before {
        assert MetBy(file, k, ifa);
        assert Satisfies(ifa, file);
        forall j | j in now ensures j in before + {k} {
          if j !in before { OnlyOneMet(file, j, k, ifa); }
        }
        assert now <= before + {k};
        SubsetSize(now, before + {k});
      } else {
        assert now <= before;
        SubsetSize(now, before);
      }
    }
  }

  lemma {:induction false} SubsetSize<T>(a: set<T>, b: set<T>)
    requires a <= b
    ensures |a| <= |b|
  {
    if |a| > 0 {
      var x :| x in a;
      SubsetSize(a - {x}, b - {x});
    }
  }

  /** Each enabled line is the last one about some multicast IPv4 interface. */
  ghost predicate AllMet(file: seq<string>, ifas: seq<IfAddr>) {
    forall k :: k in EnabledLines(file) ==> exists m :: 0 <= m < |ifas| && MetBy(file, k, ifas[m])
  }

  /** Then configuration succeeds. */
  lemma SuccessWhen(file: seq<string>, ifas: seq<IfAddr>)
    requires AllMet(file, ifas)
    ensures Requested(ifas, Entries(file)) >= CountEnabled(Entries(file))
  {
    hide EnabledLines, Entries, Requested, MetBy;
    CountEnabledIs(file);
    MetBound(file, ifas, |ifas|);
    assert ifas[..|ifas|] == ifas;
    forall k | k in EnabledLines(file) ensures k in Met(file, ifas, |ifas|) {
      var m :| 0 <= m < |ifas| && MetBy(file, k, ifas[m]);
    }
    SubsetSize(EnabledLines(file), Met(file, ifas, |ifas|));
  }

  /** The counter of interfaces: all that are not IPv4, and those that are and no line disables. */
  lemma {:induction false} CandidatesAre(ifas: seq<IfAddr>, file: seq<string>)
    ensures NonInet(ifas) == |Others(ifas)| && Candidates(ifas, Entries(file)) == |CandidateSet(ifas, file)|
  {
    hide Entries, Disabled, Others, CandidateSet, Candidate;
    CandidateStep(ifas, file);
    if ifas != [] {
      var ifa := ifas[|ifas| - 1];
      CandidatesAre(ifas[..|ifas| - 1], file);
      CandidateIff(ifa, file);
    }
  }

  ghost function Others(ifas: seq<IfAddr>): set<int> {
    set n | 0 <= n < |ifas| && !ifas[n].inet
  }

  ghost function CandidateSet(ifas: seq<IfAddr>, file: seq<string>): set<int> {
    set n | 0 <= n < |ifas| && Candidate(ifas[n], file)
  }

  lemma CandidateIff(ifa: IfAddr, file: seq<string>)
    ensures Candidate(ifa, file) <==> ifa.inet && !Disabled(Entries(file), ifa.name, ifa.addr)
  {
    DisabledIff(file, ifa.name, ifa.addr);
    hide Entries, Disabled, LastDisables;
  }

  lemma CandidateStep(ifas: seq<IfAddr>, file: seq<string>)
    ensures ifas == [] ==> Others(ifas) == {} && CandidateSet(ifas, file) == {}
    ensures ifas != [] ==>
              var l := |ifas| - 1;
              && l !in Others(ifas[..l]) && l !in CandidateSet(ifas[..l], file)
              && Others(ifas) == Others(ifas[..l]) + (if ifas[l].inet then {} else {l})
              && CandidateSet(ifas, file) == CandidateSet(ifas[..l], file) + if Candidate(ifas[l], file) then {l} else {}
  {
    hide Candidate;
  }

  ghost predicate Candidate(ifa: IfAddr, file: seq<string>) {
    ifa.inet && !(exists k :: LastDisables(file, k, ifa.name, ifa.addr))
  }

  /** One turn of the loop over the kernel's list. */
  method ConsiderInterface(t: VifTable, ifa: IfAddr, allpimrouters: bv32, indexOf: string -> int,
                           il: Head, ghost s: seq<Entry>)
    requires t.Valid() && IsList(il, s)
    modifies t, t.uvifs
    ensures t.Valid()
    ensures t.Vifs() == Consider(old(t.Vifs()), Items(s), ifa, allpimrouters, indexOf)
    ensures t.vifsDown == (old(t.vifsDown) || (t.numvifs > old(t.numvifs) && !ifa.Up()))
    ensures t.totalInterfaces == old(t.totalInterfaces)
              + if ifa.inet && Disabled(Items(s), ifa.name, ifa.addr) then 0 else 1
  {
    hide NewVif, AddressOk, Disabled, IfAddr.PointToPoint, IfAddr.Subnet, IfAddr.Up, P2p;
    ghost var vs := t.Vifs();
    if !ifa.inet {
      t.totalInterfaces := t.totalInterfaces + 1;
      return;
    }
    var entry := Lookup(il, ifa, s);
    if entry != null && !entry.item.enabled {
      return;
    }
    t.totalInterfaces := t.totalInterfaces + 1;
    if !AddressOk(ifa.addr, ifa.mask, ifa.PointToPoint()) {
      return;
    }
    var vifi := 0;
    while vifi < t.numvifs
      invariant vifi <= t.numvifs && forall i :: 0 <= i < vifi ==> !Alias(vs[i], ifa)
    {
      var v := t.uvifs[vifi];
      if v.name == ifa.name {
        break;
      }
      if ifa.PointToPoint() || P2p(v) {
        vifi := vifi + 1;
        continue;
      }
      if ifa.Subnet() == v.subnet && v.subnetmask == ifa.mask {
        break;
      }
      vifi := vifi + 1;
    }
    if vifi != t.numvifs {
      assert Alias(vs[vifi], ifa);
      return;
    }
    if t.numvifs == MAXVIFS {
      return;
    }
    InstallVif(t, ifa, allpimrouters, indexOf);
  }

  /** The second half of that turn: the next free record is zeroed and filled in. */
  method InstallVif(t: VifTable, ifa: IfAddr, allpimrouters: bv32, indexOf: string -> int)
    requires t.Valid() && t.numvifs < MAXVIFS
    modifies t`numvifs, t`vifsDown, t.uvifs
    ensures t.Valid() && t.Vifs() == old(t.Vifs()) + [NewVif(ifa, allpimrouters, indexOf)]
    ensures t.vifsDown == (old(t.vifsDown) || !ifa.Up())
  {
    hide NewVif, IfAddr.Up;
    var v := FillIn(ifa, allpimrouters, indexOf);
    t.uvifs[t.numvifs] := v;
    t.numvifs := t.numvifs + 1;
    if !ifa.Up() {
      t.vifsDown := true;
    }
  }

  method FillIn(ifa: IfAddr, allpimrouters: bv32, indexOf: string -> int) returns (v: Uvif)
    ensures v == NewVif(ifa, allpimrouters, indexOf)
  {
    hide Peer, IfAddr.PointToPoint, IfAddr.Up, IfAddr.Subnet, P2pFlags, DownFlags, SubnetBroadcast;
    var subnet := ifa.Subnet();
    var zero := ZeroVif(false, allpimrouters);
    var subnetbcast, rmtAddr, flags := 0xffff_ffff, zero.rmtAddr, zero.flags;
    if ifa.mask != MASK_31 {
      subnetbcast := SubnetBroadcast(subnet, ifa.mask);
    }
    if ifa.PointToPoint() {
      flags := P2pFlags(flags);
      rmtAddr := ifa.dst;
    } else if ifa.mask == MASK_31 {
      flags := P2pFlags(flags);
      rmtAddr := Peer(ifa.addr, subnet);
    }
    if !ifa.Up() {
      flags := DownFlags(flags);
    }
    var name := Strlcpy(ifa.name, IFNAMSIZ);
    v := zero.(lclAddr := ifa.addr, subnet := subnet, subnetmask := ifa.mask, subnetbcast := subnetbcast,
               name := name, rmtAddr := rmtAddr, ifindex := indexOf(name), flags := flags);
  }

  /** config_vifs_from_kernel, with empty tables and an empty interface list.  It fails when fewer interfaces are
      there than enabled phyint lines ask for, after freeing the list; what the code does next, going on with the
      freed lists, is not modelled. */
  method ConfigVifsFromKernel(t: VifTable, lines: seq<string>, ifas: seq<IfAddr>, allpimrouters: bv32,
                              indexOf: string -> int, lexer: Lexer, il: Head, alloc: Allocator)
    returns (ok: bool, ghost s: seq<Entry>)
    requires t.Valid() && t.numvifs == 0 && lexer.Valid() && IsList(il, [])
    modifies t, t.uvifs, lexer.token, il, alloc
    ensures t.Valid() && IsList(il, [])
    ensures ok == (CountEnabled(Entries(lines)) == 0 || Requested(ifas, Entries(lines)) >= CountEnabled(Entries(lines)))
    ensures fresh(s) && Items(s) == Entries(lines) && Distinct(s) && alloc.freed == old(alloc.freed) + s
    ensures ok ==> t.Vifs() == Install(ifas, Entries(lines), allpimrouters, indexOf)
    ensures ok ==> t.totalInterfaces == NonInet(ifas) + Candidates(ifas, Entries(lines))
                                        + if CountEnabled(Entries(lines)) == 0 then 0 else NonInet(ifas)
  {
    hide Consider, Disabled, Entries, CountEnabled, Requested, Items, IfAddr.Up, IfAddr.Multicast;
    ghost var ps := Entries(lines);
    ghost var freed0 := alloc.freed;
    var num;
    num, s := BuildIflist(lines, lexer, il);
    Acyclic(il, s);
    t.totalInterfaces := 0;
    var count := CompareRequested(t, ifas, num, il, s);
    ok := count >= num;
    assert forall e :: e in s ==> e !in alloc.freed;
    if !ok {
      TearIflist(il, alloc, s);
      return;
    }
    for n := 0 to |ifas|
      invariant t.Valid() && IsList(il, s) && alloc.freed == freed0
      invariant t.Vifs() == Install(ifas[..n], ps, allpimrouters, indexOf)
      invariant t.totalInterfaces == NonInet(ifas[..n]) + Candidates(ifas[..n], ps)
                                     + if num == 0 then 0 else NonInet(ifas)
    {
      assert ifas[..n + 1][..n] == ifas[..n];
      ConsiderInterface(t, ifas[n], allpimrouters, indexOf, il, s);
    }
    assert ifas[..|ifas|] == ifas;
    TearIflist(il, alloc, s);
  }
}
