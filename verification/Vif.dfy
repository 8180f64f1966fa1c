/** Virtual interfaces: the records of the `uvifs` array and what hangs off them. */
module Vif {

  const MAXVIFS := 32
  const IFNAMSIZ := 16

  const VIFF_TUNNEL: bv32 := 0x1
  const VIFF_REGISTER: bv32 := 0x4
  const VIFF_DOWN: bv32 := 0x100
  const VIFF_DISABLED: bv32 := 0x200
  const VIFF_QUERIER: bv32 := 0x400
  const VIFF_IGMPV1: bv32 := 0x2000
  const VIFF_REXMIT_PRUNES: bv32 := 0x4000
  const VIFF_DR: bv32 := 0x4_0000
  const VIFF_NONBRS: bv32 := 0x8_0000
  const VIFF_POINT_TO_POINT: bv32 := 0x10_0000
  const VIFF_IGMPV2: bv32 := 0x80_0000

  const UCAST_DEFAULT_ROUTE_METRIC := 1024
  const UCAST_DEFAULT_ROUTE_DISTANCE := 101

  /** Some of the bits of `flag` are set in `flags`. */
  predicate Has(flags: bv32, flag: bv32) {
    flags & flag != 0
  }

  /** A scoped group: struct vif_acl without its link. */
  datatype Scope = Scope(addr: bv32, mask: bv32)

  /** struct vif_acl, never changed once it is on a list. */
  class VifAcl {
    const next: VifAcl?
    const scope: Scope
    ghost const nodes: seq<VifAcl>  // this node and those behind it

    ghost predicate Valid()
      decreases |nodes|
    {
      && nodes != [] && nodes[0] == this
      && (if next == null then |nodes| == 1
          else nodes[1..] == next.nodes && next.Valid())
    }

    constructor (scope: Scope, next: VifAcl?)
      requires IsAcl(next)
      ensures this.scope == scope && this.next == next
      ensures Valid() && nodes == [this] + Nodes(next)
    {
      this.scope := scope;
      this.next := next;
      this.nodes := [this] + Nodes(next);
    }
  }

  ghost predicate IsAcl(p: VifAcl?) {
    p == null || p.Valid()
  }

  ghost function Nodes(p: VifAcl?): seq<VifAcl> {
    if p == null then [] else p.nodes
  }

  /** What an access list says, head first. */
  ghost function Scopes(p: VifAcl?): seq<Scope>
    requires IsAcl(p)
    decreases |Nodes(p)|
  {
    if p == null then [] else [p.scope] + Scopes(p.next)
  }

  /** struct phaddr: an additional subnet. */
  datatype Phaddr = Phaddr(subnet: bv32, subnetmask: bv32, subnetbcast: bv32)

  /** struct uvif, without the fields that nothing here reads or writes. */
  datatype Uvif = Uvif(
    flags: bv32,
    metric: nat,
    threshold: nat,
    rateLimit: nat,
    lclAddr: bv32,
    rmtAddr: bv32,
    dstAddr: bv32,
    subnet: bv32,
    subnetmask: bv32,
    subnetbcast: bv32,
    name: string,
    acl: VifAcl?,
    addrs: seq<Phaddr>,
    drPrio: nat,
    localPref: nat,
    localMetric: nat,
    ifindex: int)

  /** zero_vif for a phyint (`tunnel` false) or a tunnel or register vif; both default rate limits are 0. */
  function ZeroVif(tunnel: bool, allpimrouters: bv32): Uvif {
    Uvif(0, 1, 1, 0, 0, 0, if tunnel then 0 else allpimrouters, 0, 0, 0, "", null, [], 1,
         UCAST_DEFAULT_ROUTE_DISTANCE, UCAST_DEFAULT_ROUTE_METRIC, -1)
  }

  /** strlcpy into a buffer of `size` bytes. */
  function Strlcpy(src: string, size: nat): (dst: string)
    requires size > 0
    ensures |dst| < size && dst <= src && (|src| < size ==> dst == src)
  {
    if |src| > size - 1 then src[..size - 1] else src
  }

  /** The global interface table. */
  class VifTable {
    const uvifs: array<Uvif>
    var numvifs: nat
    var vifsDown: bool
    var totalInterfaces: nat

    ghost predicate Valid()
      reads this
    {
      uvifs.Length == MAXVIFS && numvifs <= MAXVIFS
    }

    /** The vifs in use. */
    ghost function Vifs(): seq<Uvif>
      requires Valid()
      reads this, uvifs
    {
      uvifs[..numvifs]
    }

    /** Writing one record in place. */
    method Put(i: nat, v: Uvif)
      requires Valid() && i < numvifs
      modifies uvifs
      ensures Valid() && Vifs() == old(Vifs())[i := v]
    {
      uvifs[i] := v;
    }

    /** init_vifs up to the call of config_vifs_from_kernel. */
    constructor (allpimrouters: bv32)
      ensures Valid() && Vifs() == [] && !vifsDown && totalInterfaces == 0 && fresh(uvifs)
    {
      uvifs := new Uvif[MAXVIFS](i => ZeroVif(false, allpimrouters));
      numvifs, vifsDown, totalInterfaces := 0, false, 0;
    }
  }
}
