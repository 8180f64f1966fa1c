/** The second pass over the configuration file: the options of a phyint line, as parse_phyint reads them.

  `w` in the source always points at next_word's static buffer, so a look-ahead changes it even when the cursor is
  put back.  The functions here say what that comes to, in terms of the words of the line.
  */
module PhyintOptions {
  import opened Inet
  import opened Vif
  import opened PhyintLines

  const DEFAULT_MASKLEN := 16

  // ---------------------------------------------------------------- what the options set

  /** The part of a vif that options change. */
  datatype Settings = Settings(flags: bv32, threshold: nat, localPref: nat, localMetric: nat, drPrio: nat,
                               addrs: seq<Phaddr>, scopes: seq<Scope>)

  /** The settings and the two mask lengths that carry over from option to option. */
  datatype State = State(s: Settings, altnetLen: nat, scopedLen: nat)

  /** The settings in the end, and whether parse_phyint returns true. */
  datatype Outcome = Outcome(s: Settings, ok: bool)

  /** The name and the local address of a vif. */
  datatype Named = Named(name: string, addr: bv32)

  /** What an option may depend on: the names of the vifs, the vif's own subnet mask, and what VAL_TO_MASK yields for
      the lengths that C leaves undefined. */
  datatype Env = Env(names: seq<Named>, subnetmask: bv32, undefined: nat -> bv32)

  function Disable(f: bv32): bv32 { f | VIFF_DISABLED }
  function Enable(f: bv32): bv32 { f & !VIFF_DISABLED }
  function IgmpV2(f: bv32): bv32 { (f & !VIFF_IGMPV1) | VIFF_IGMPV2 }
  function IgmpV3(f: bv32): bv32 { f & !VIFF_IGMPV1 & !VIFF_IGMPV2 }

  function MaskOf(len: nat, undefined: nat -> bv32): bv32 {
    if MaskLength(len) then ValToMask(len) else undefined(len)
  }

  /** ifname2addr */
  function NameToAddr(names: seq<Named>, name: string): bv32 {
    if names == [] then 0 else if names[0].name == name then names[0].addr else NameToAddr(names[1..], name)
  }

  function NamedOrParsed(env: Env, w: string): bv32 {
    var a := NameToAddr(env.names, w);
    if a != 0 then a else InetParse(w, 4)
  }

  /** An interface name, or the address of a host. */
  predicate IsHost(env: Env, w: string) {
    NameToAddr(env.names, w) != 0 || InetValidHost(InetParse(w, 4))
  }

  /** An interface name, or a multicast address. */
  predicate IsGroup(env: Env, w: string) {
    NameToAddr(env.names, w) != 0 || InMulticast(Ntohl(InetParse(w, 4)))
  }

  function SlashAt(w: string): (k: nat)
    ensures k <= |w| && (forall i :: 0 <= i < k ==> w[i] != '/') && (k < |w| ==> w[k] == '/')
  {
    if w == "" || w[0] == '/' then 0 else 1 + SlashAt(w[1..])
  }

  /** parse_prefix_len: the word up to its first slash. */
  function BeforeSlash(w: string): string {
    w[..SlashAt(w)]
  }

  /** parse_prefix_len: the length after the slash; an empty one leaves `len` alone. */
  function LengthAfterSlash(w: string, len: nat): nat {
    var k := SlashAt(w);
    if k == |w| then len
    else match ScanUnsigned(w[k + 1..])
         case Number(n, _) => n
         case NoMatch => DEFAULT_MASKLEN
         case Eof => len
  }

  function Network(addr: bv32, mask: bv32): bv32 { addr & mask }
  function Broadcast(subnet: bv32, mask: bv32): bv32 { subnet | !mask }

  function NewAltnet(addr: bv32, mask: bv32): Phaddr {
    Phaddr(Network(addr, mask), mask, Broadcast(Network(addr, mask), mask))
  }

  function NewScope(addr: bv32, mask: bv32): Scope {
    Scope(Network(addr, mask), mask)
  }

  function WithAltnet(s: Settings, addr: bv32, len: nat, env: Env): Settings {
    var mask := if len != 0 then MaskOf(len, env.undefined) else env.subnetmask;
    s.(addrs := [NewAltnet(addr, mask)] + s.addrs)
  }

  function WithScope(s: Settings, addr: bv32, len: nat, env: Env): Settings {
    s.(scopes := [NewScope(addr, MaskOf(len, env.undefined))] + s.scopes)
  }

  function AddAltnet(st: State, addr: bv32, env: Env): State {
    st.(s := WithAltnet(st.s, addr, st.altnetLen, env))
  }

  function AddScope(st: State, addr: bv32, env: Env): State {
    st.(s := WithScope(st.s, addr, st.scopedLen, env))
  }

  /** `sscanf(w, "%u%c", &n, &c) == 1 && lo <= n <= hi` */
  predicate InRange(w: string, lo: nat, hi: nat) {
    var r := ScanUnsigned(w);
    r.Number? && r.rest == "" && lo <= r.n <= hi
  }

  function ValueOf(w: string): nat {
    var r := ScanUnsigned(w);
    if r.Number? then r.n else 0
  }

  // ---------------------------------------------------------------- a network: address, slash, masklen

  /** An altnet must be a host's network, a scoped group multicast. */
  datatype Wanted = Host | Group

  predicate Wants(kind: Wanted, env: Env, w: string) {
    match kind
    case Host => IsHost(env, w)
    case Group => IsGroup(env, w)
  }

  /** An unusable address; a bad or missing masklen, skipped; or a network, with the word then in the buffer. */
  datatype NetRead = Bad | Skip(len: nat, rest: seq<string>) | Net(addr: bv32, len: nat, w: string, rest: seq<string>)

  /** The words of a network; without a length of its own it has the length carried over, `len`. */
  function ReadNet(ws: seq<string>, len: nat, kind: Wanted, env: Env): (r: NetRead)
    requires ws != []
    ensures !r.Bad? ==> |r.rest| < |ws|
  {
    var a, rest, len := BeforeSlash(ws[0]), ws[1..], LengthAfterSlash(ws[0], len);
    if !Wants(kind, env, a) then Bad
    else if Word(rest, 0) != "masklen" then Net(NamedOrParsed(env, a), len, Word(rest, 0), rest)
    else if |rest| == 1 then Skip(len, [])
    else
      match ScanUnsigned(rest[1])
      case Number(n, _) => Net(NamedOrParsed(env, a), n, rest[1], rest[2..])
      case NoMatch => Skip(len, rest[2..])
      case Eof => if kind == Host then Net(NamedOrParsed(env, a), len, rest[1], rest[2..]) else Skip(len, rest[2..])
  }

  // ---------------------------------------------------------------- the option loop, over words

  /** From the top of the loop, `ws` being the words not yet read. */
  function Options(ws: seq<string>, st: State, env: Env): Outcome
    decreases |ws|, 0
  {
    if ws == [] then Outcome(st.s, true)
    else
      var w, rest := ws[0], ws[1..];
      if w == "disable" then Options(rest, st.(s := st.s.(flags := Disable(st.s.flags))), env)
      else if w == "enable" then Options(rest, st.(s := st.s.(flags := Enable(st.s.flags))), env)
      else if w == "igmpv2" then Options(rest, st.(s := st.s.(flags := IgmpV2(st.s.flags))), env)
      else if w == "igmpv3" then Options(rest, st.(s := st.s.(flags := IgmpV3(st.s.flags))), env)
      else if w == "altnet" then Altnet(rest, st, env)
      else AtScoped(w, rest, st, env)
  }

  /** Behind the word "altnet". */
  function Altnet(ws: seq<string>, st: State, env: Env): Outcome
    decreases |ws|, 1
  {
    if ws == [] then Outcome(st.s, true)
    else
      match ReadNet(ws, st.altnetLen, Host, env)
      case Bad => Outcome(st.s, false)
      case Skip(len, rest) => Options(rest, st.(altnetLen := len), env)
      case Net(addr, len, w, rest) => AtScoped(w, rest, AddAltnet(st.(altnetLen := len), addr, env), env)
  }

  /** From the test for "scoped" on, `w` being the word in the buffer. */
  function AtScoped(w: string, ws: seq<string>, st: State, env: Env): Outcome
    decreases |ws|, 3
  {
    if w == "scoped" then Scoped(ws, st, env) else AtValues(w, ws, st, env)
  }

  /** Behind the word "scoped". */
  function Scoped(ws: seq<string>, st: State, env: Env): Outcome
    decreases |ws|, 2
  {
    if ws == [] then Outcome(st.s, true)
    else
      match ReadNet(ws, st.scopedLen, Group, env)
      case Bad => Outcome(st.s, false)
      case Skip(len, rest) => Options(rest, st.(scopedLen := len), env)
      case Net(addr, len, w, rest) =>
        if len == 0 then Options(rest, st.(scopedLen := len), env)
        else AtValues(w, rest, AddScope(st.(scopedLen := len), addr, env), env)
  }

  /** From the test for "threshold" on. */
  function AtValues(w: string, ws: seq<string>, st: State, env: Env): Outcome
    decreases |ws|, 1
  {
    if !TakesValue(w) then Options(ws, st, env)
    else if ws == [] then Outcome(st.s, true)
    else Options(ws[1..], st.(s := SetValue(w, ws[0], st.s)), env)
  }

  predicate TakesValue(w: string) {
    w in ["ttl-threshold", "threshold", "distance", "preference", "metric", "dr-priority"]
  }

  /** A value in range is stored, any other ignored. */
  function SetValue(w: string, value: string, s: Settings): Settings {
    if w == "ttl-threshold" || w == "threshold" then
      if InRange(value, 1, 255) then s.(threshold := ValueOf(value)) else s
    else if w == "distance" || w == "preference" then
      if InRange(value, 1, 255) then s.(localPref := ValueOf(value)) else s
    else if w == "metric" then
      if InRange(value, 1, 1024) then s.(localMetric := ValueOf(value)) else s
    else
      if InRange(value, 1, 4294967294) then s.(drPrio := ValueOf(value)) else s
  }

  // ---------------------------------------------------------------- what every line keeps

  predicate NoHostBits(addr: bv32, mask: bv32) {
    addr & !mask == 0
  }

  /** The flags that no option touches. */
  function OtherFlags(f: bv32): bv32 {
    f & 0xff7f_ddff
  }

  lemma SwitchesKeep(f: bv32)
    ensures OtherFlags(Disable(f)) == OtherFlags(f) && OtherFlags(Enable(f)) == OtherFlags(f)
  {
  }

  lemma IgmpV2Keeps(f: bv32)
    ensures OtherFlags(IgmpV2(f)) == OtherFlags(f)
  {
  }

  lemma IgmpV3Keeps(f: bv32)
    ensures OtherFlags(IgmpV3(f)) == OtherFlags(f)
  {
  }

  /** Every setting is within its documented range, every subnet and group free of host bits, and the flags that
      are no option's business are `other`. */
  ghost predicate SettingsOk(s: Settings, other: bv32) {
    && OtherFlags(s.flags) == other
    && 1 <= s.threshold <= 255 && 1 <= s.localPref <= 255 && 1 <= s.localMetric <= 1024
    && 1 <= s.drPrio <= 4294967294
    && (forall p :: p in s.addrs ==> NoHostBits(p.subnet, p.subnetmask) && p.subnetbcast == Broadcast(p.subnet, p.subnetmask))
    && (forall g :: g in s.scopes ==> NoHostBits(g.addr, g.mask))
  }

  lemma MaskedOk(addr: bv32, mask: bv32)
    ensures NoHostBits(Network(addr, mask), mask)
  {
  }

  lemma NewOk(addr: bv32, mask: bv32)
    ensures var p := NewAltnet(addr, mask); NoHostBits(p.subnet, p.subnetmask) && p.subnetbcast == Broadcast(p.subnet, p.subnetmask)
    ensures var g := NewScope(addr, mask); NoHostBits(g.addr, g.mask)
  {
    MaskedOk(addr, mask);
    hide NoHostBits, Network, Broadcast;
  }

  lemma AddedOk(st: State, addr: bv32, env: Env, other: bv32)
    requires SettingsOk(st.s, other)
    ensures SettingsOk(AddAltnet(st, addr, env).s, other) && SettingsOk(AddScope(st, addr, env).s, other)
  {
    hide MaskOf, NoHostBits, NewAltnet, NewScope, Broadcast, OtherFlags;
    NewOk(addr, if st.altnetLen != 0 then MaskOf(st.altnetLen, env.undefined) else env.subnetmask);
    NewOk(addr, MaskOf(st.scopedLen, env.undefined));
  }

  lemma ValueOk(w: string, value: string, s: Settings, other: bv32)
    requires SettingsOk(s, other) && TakesValue(w)
    ensures SettingsOk(SetValue(w, value, s), other)
  {
    hide ScanUnsigned, NoHostBits, Broadcast, OtherFlags;
  }

  lemma FlagsOk(s: Settings, flags: bv32, other: bv32)
    requires SettingsOk(s, other) && OtherFlags(flags) == OtherFlags(s.flags)
    ensures SettingsOk(s.(flags := flags), other)
  {
    hide NoHostBits, Broadcast, OtherFlags;
  }

  /** Whatever stands on the line, and whatever the undefined masks are. */
  lemma {:induction false} OptionsKeep(ws: seq<string>, st: State, env: Env, other: bv32)
    requires SettingsOk(st.s, other)
    ensures SettingsOk(Options(ws, st, env).s, other)
    decreases |ws|, 0
  {
    hide SetValue, AddAltnet, Altnet, AtScoped, Disable, Enable, IgmpV2, IgmpV3, OtherFlags, NoHostBits, Broadcast;
    if ws != [] {
      var w, rest, f := ws[0], ws[1..], st.s.flags;
      SwitchesKeep(f);
      IgmpV2Keeps(f);
      IgmpV3Keeps(f);
      FlagsOk(st.s, Disable(f), other);
      FlagsOk(st.s, Enable(f), other);
      FlagsOk(st.s, IgmpV2(f), other);
      FlagsOk(st.s, IgmpV3(f), other);
      if w == "disable" {
        OptionsKeep(rest, st.(s := st.s.(flags := Disable(f))), env, other);
      } else if w == "enable" {
        OptionsKeep(rest, st.(s := st.s.(flags := Enable(f))), env, other);
      } else if w == "igmpv2" {
        OptionsKeep(rest, st.(s := st.s.(flags := IgmpV2(f))), env, other);
      } else if w == "igmpv3" {
        OptionsKeep(rest, st.(s := st.s.(flags := IgmpV3(f))), env, other);
      } else if w == "altnet" {
        AltnetKeeps(rest, st, env, other);
      } else {
        AtScopedKeeps(w, rest, st, env, other);
      }
    }
  }

  lemma {:induction false} AltnetKeeps(ws: seq<string>, st: State, env: Env, other: bv32)
    requires SettingsOk(st.s, other)
    ensures SettingsOk(Altnet(ws, st, env).s, other)
    decreases |ws|, 1
  {
    hide SettingsOk, AddAltnet, Options, AtScoped, ReadNet;
    if ws != [] {
      match ReadNet(ws, st.altnetLen, Host, env) {
        case Bad =>
        case Skip(len, rest) =>
          OptionsKeep(rest, st.(altnetLen := len), env, other);
        case Net(addr, len, w, rest) =>
          AddedOk(st.(altnetLen := len), addr, env, other);
          AtScopedKeeps(w, rest, AddAltnet(st.(altnetLen := len), addr, env), env, other);
      }
    }
  }

  lemma {:induction false} AtScopedKeeps(w: string, ws: seq<string>, st: State, env: Env, other: bv32)
    requires SettingsOk(st.s, other)
    ensures SettingsOk(AtScoped(w, ws, st, env).s, other)
    decreases |ws|, 3
  {
    hide SettingsOk, Scoped, AtValues;
    if w == "scoped" { ScopedKeeps(ws, st, env, other); } else { AtValuesKeeps(w, ws, st, env, other); }
  }

  lemma {:induction false} ScopedKeeps(ws: seq<string>, st: State, env: Env, other: bv32)
    requires SettingsOk(st.s, other)
    ensures SettingsOk(Scoped(ws, st, env).s, other)
    decreases |ws|, 2
  {
    hide SettingsOk, AddScope, Options, AtValues, ReadNet;
    if ws != [] {
      match ReadNet(ws, st.scopedLen, Group, env) {
        case Bad =>
        case Skip(len, rest) =>
          OptionsKeep(rest, st.(scopedLen := len), env, other);
        case Net(addr, len, w, rest) =>
          if len == 0 {
            OptionsKeep(rest, st.(scopedLen := len), env, other);
          } else {
            AddedOk(st.(scopedLen := len), addr, env, other);
            AtValuesKeeps(w, rest, AddScope(st.(scopedLen := len), addr, env), env, other);
          }
      }
    }
  }

  lemma {:induction false} AtValuesKeeps(w: string, ws: seq<string>, st: State, env: Env, other: bv32)
    requires SettingsOk(st.s, other)
    ensures SettingsOk(AtValues(w, ws, st, env).s, other)
    decreases |ws|, 1
  {
    hide SettingsOk, Options, SetValue, TakesValue;
    if !TakesValue(w) {
      OptionsKeep(ws, st, env, other);
    } else if ws != [] {
      ValueOk(w, ws[0], st.s, other);
      OptionsKeep(ws[1..], st.(s := SetValue(w, ws[0], st.s)), env, other);
    }
  }

  // ---------------------------------------------------------------- the look-ahead

  /** Behind an altnet of a host's network without "masklen". */
  function AltnetState(a: string, st: State, env: Env): State {
    AddAltnet(st.(altnetLen := LengthAfterSlash(a, st.altnetLen)), NamedOrParsed(env, BeforeSlash(a)), env)
  }

  lemma AltnetStep(rest: seq<string>, st: State, env: Env)
    ensures Options(["altnet"] + rest, st, env) == Altnet(rest, st, env)
  {
    hide Altnet;
    assert (["altnet"] + rest)[1..] == rest;
  }

  lemma ValueStep(w: string, value: string, rest: seq<string>, st: State, env: Env)
    requires TakesValue(w)
    ensures AtScoped(w, [value] + rest, st, env) == Options(rest, st.(s := SetValue(w, value, st.s)), env)
  {
    hide SetValue, Options;
    assert ([value] + rest)[1..] == rest;
  }

  lemma PlainAltnetStep(a: string, w: string, rest: seq<string>, st: State, env: Env)
    requires IsHost(env, BeforeSlash(a)) && w != "masklen"
    ensures var st1 := AltnetState(a, st, env);
            Altnet([a] + ([w] + rest), st, env) == AtScoped(w, [w] + rest, st1, env)
  {
    hide IsHost, NamedOrParsed, LengthAfterSlash, BeforeSlash, AddAltnet, AtScoped, Options;
    assert ([a] + ([w] + rest))[1..] == [w] + rest;
  }

  lemma MasklenAltnetStep(a: string, len: string, rest: seq<string>, st: State, env: Env)
    requires IsHost(env, BeforeSlash(a)) && ScanUnsigned(len).Number?
    ensures var st1 := AddAltnet(st.(altnetLen := ValueOf(len)), NamedOrParsed(env, BeforeSlash(a)), env);
            Altnet([a] + (["masklen"] + ([len] + rest)), st, env) == AtScoped(len, rest, st1, env)
  {
    hide IsHost, NamedOrParsed, LengthAfterSlash, BeforeSlash, AddAltnet, AtScoped, Options, ScanUnsigned;
    assert ([a] + (["masklen"] + ([len] + rest)))[1..] == ["masklen"] + ([len] + rest);
    assert (["masklen"] + ([len] + rest))[2..] == rest;
  }

  /** An option with a value right behind an altnet without "masklen" is lost: the buffer already holds its name, and
      reading the value rereads the name.  The value is then taken for an option of its own. */
  lemma AltnetHidesOption(a: string, w: string, value: string, rest: seq<string>, st: State, env: Env)
    requires IsHost(env, BeforeSlash(a)) && TakesValue(w)
    ensures var st1 := AltnetState(a, st, env);
            Options(["altnet"] + ([a] + ([w] + ([value] + rest))), st, env) == Options([value] + rest, st1, env)
  {
    hide IsHost, NamedOrParsed, LengthAfterSlash, BeforeSlash, AddAltnet, Options, Altnet, AtScoped, SetValue;
    var st1 := AltnetState(a, st, env);
    NameIsNoNumber(w, st1.s);
    AltnetStep([a] + ([w] + ([value] + rest)), st, env);
    PlainAltnetStep(a, w, [value] + rest, st, env);
    ValueStep(w, w, [value] + rest, st1, env);
  }

  lemma NameIsNoNumber(w: string, s: Settings)
    requires TakesValue(w)
    ensures SetValue(w, w, s) == s && w != "masklen" && w != "scoped"
  {
    if ScanUnsigned(w).Number? { NumberIsNoOption(w); }
    hide ScanUnsigned;
  }

  /** In the form with "masklen" the option is read as written. */
  lemma MasklenFormKeepsOption(a: string, len: string, w: string, value: string, rest: seq<string>, st: State, env: Env)
    requires IsHost(env, BeforeSlash(a)) && ScanUnsigned(len).Number? && TakesValue(w)
    ensures var st1 := AddAltnet(st.(altnetLen := ValueOf(len)), NamedOrParsed(env, BeforeSlash(a)), env);
            Options(["altnet"] + ([a] + (["masklen"] + ([len] + ([w] + ([value] + rest))))), st, env)
            == Options(rest, st1.(s := SetValue(w, value, st1.s)), env)
  {
    hide IsHost, NamedOrParsed, LengthAfterSlash, BeforeSlash, AddAltnet, Options, Altnet, AtScoped, SetValue;
    var st1 := AddAltnet(st.(altnetLen := ValueOf(len)), NamedOrParsed(env, BeforeSlash(a)), env);
    AltnetStep([a] + (["masklen"] + ([len] + ([w] + ([value] + rest)))), st, env);
    MasklenAltnetStep(a, len, [w] + ([value] + rest), st, env);
    NumberIsNoOption(len);
    PassedOver(len, w, [value] + rest, st1, env);
    ValueStep(w, value, rest, st1, env);
  }

  lemma NumberStart(s: string)
    requires ScanUnsigned(s).Number?
    ensures s != "" && (IsSpace(s[0]) || s[0] == '+' || s[0] == '-' || IsDigit(s[0]))
  {
  }

  lemma NumberIsNoOption(len: string)
    requires ScanUnsigned(len).Number?
    ensures !TakesValue(len) && len != "scoped"
  {
    NumberStart(len);
    hide ScanUnsigned;
  }

  lemma PassedOver(len: string, w: string, rest: seq<string>, st: State, env: Env)
    requires !TakesValue(len) && len != "scoped" && TakesValue(w)
    ensures AtScoped(len, [w] + rest, st, env) == AtScoped(w, rest, st, env)
  {
    assert AtScoped(len, [w] + rest, st, env) == AtValues(len, [w] + rest, st, env) == Options([w] + rest, st, env);
    assert ([w] + rest)[1..] == rest;
  }

  /** A "scoped" right behind such an altnet makes parse_phyint give up: the word "scoped" is read again, as the
      group address. */
  lemma ScopedBehindAltnet(a: string, g: string, rest: seq<string>, st: State, env: Env)
    requires IsHost(env, BeforeSlash(a)) && NameToAddr(env.names, "scoped") == 0
    ensures Options(["altnet"] + ([a] + (["scoped"] + ([g] + rest))), st, env) == Outcome(AltnetState(a, st, env).s, false)
  {
    AltnetStep([a] + (["scoped"] + ([g] + rest)), st, env);
    PlainAltnetStep(a, "scoped", [g] + rest, st, env);
    ScopedTwice([g] + rest, AltnetState(a, st, env), env);
    hide *;
  }

  lemma ScopedTwice(rest: seq<string>, st: State, env: Env)
    requires NameToAddr(env.names, "scoped") == 0
    ensures AtScoped("scoped", ["scoped"] + rest, st, env) == Outcome(st.s, false)
  {
    NotAGroup(env);
    NoSlash("scoped");
    hide IsGroup, ScanUnsigned, LengthAfterSlash, BeforeSlash, Options;
  }

  lemma {:induction false} NoSlash(w: string)
    requires forall i :: 0 <= i < |w| ==> w[i] != '/'
    ensures BeforeSlash(w) == w
  {
    assert SlashAt(w) == |w|;
  }

  lemma NotAGroup(env: Env)
    requires NameToAddr(env.names, "scoped") == 0
    ensures !IsGroup(env, "scoped")
  {
    if ScanUnsigned("scoped").Number? { NumberStart("scoped"); }
    assert InetParse("scoped", 4) == FAILED by { NoQuad("scoped"); }
  }

  lemma NoQuad(w: string)
    requires !ScanUnsigned(w).Number?
    ensures InetParse(w, 4) == FAILED
  {
    hide ScanUnsigned;
  }

  // ---------------------------------------------------------------- the intended reading

  /** What the syntax of a phyint line means: behind a network, however it is written, comes the next option, and its
      mask has the length given with it.  Without a length an altnet has the vif's own mask and a scoped network is
      skipped; a length above 32 is none, and the network is skipped. */
  function Intended(ws: seq<string>, s: Settings, env: Env): Outcome
    decreases |ws|, 0
  {
    if ws == [] then Outcome(s, true)
    else
      var w, rest := ws[0], ws[1..];
      if w == "disable" then Intended(rest, s.(flags := Disable(s.flags)), env)
      else if w == "enable" then Intended(rest, s.(flags := Enable(s.flags)), env)
      else if w == "igmpv2" then Intended(rest, s.(flags := IgmpV2(s.flags)), env)
      else if w == "igmpv3" then Intended(rest, s.(flags := IgmpV3(s.flags)), env)
      else if w == "altnet" then IntendedAltnet(rest, s, env)
      else if w == "scoped" then IntendedScoped(rest, s, env)
      else if !TakesValue(w) then Intended(rest, s, env)
      else if rest == [] then Outcome(s, true)
      else Intended(rest[1..], SetValue(w, rest[0], s), env)
  }

  function IntendedAltnet(ws: seq<string>, s: Settings, env: Env): Outcome
    decreases |ws|, 1
  {
    if ws == [] then Outcome(s, true)
    else
      match ReadNet(ws, 0, Host, env)
      case Bad => Outcome(s, false)
      case Skip(_, rest) => Intended(rest, s, env)
      case Net(addr, len, _, rest) => Intended(rest, if len > 32 then s else WithAltnet(s, addr, len, env), env)
  }

  function IntendedScoped(ws: seq<string>, s: Settings, env: Env): Outcome
    decreases |ws|, 1
  {
    if ws == [] then Outcome(s, true)
    else
      match ReadNet(ws, 0, Group, env)
      case Bad => Outcome(s, false)
      case Skip(_, rest) => Intended(rest, s, env)
      case Net(addr, len, _, rest) => Intended(rest, if MaskLength(len) then WithScope(s, addr, len, env) else s, env)
  }

  // ---------------------------------------------------------------- turns of the loop

  /** Where the next turn of the loop starts, and with which mask lengths carried over; or the function is left. */
  datatype Turn = Over | Resume(ws: seq<string>, altnetLen: nat, scopedLen: nat)

  /** From the test for "threshold" on: where the loop's next turn starts. */
  function ValueTurn(w: string, ws: seq<string>, altnetLen: nat, scopedLen: nat): (t: Turn)
    ensures t.Resume? ==> |t.ws| <= |ws|
  {
    if !TakesValue(w) then Resume(ws, altnetLen, scopedLen)
    else if ws == [] then Over
    else Resume(ws[1..], altnetLen, scopedLen)
  }

  function ScopedTurn(w: string, ws: seq<string>, altnetLen: nat, scopedLen: nat, env: Env): (t: Turn)
    ensures t.Resume? ==> |t.ws| <= |ws|
  {
    if w != "scoped" then ValueTurn(w, ws, altnetLen, scopedLen)
    else if ws == [] then Over
    else
      match ReadNet(ws, scopedLen, Group, env)
      case Bad => Over
      case Skip(len, rest) => Resume(rest, altnetLen, len)
      case Net(_, len, w', rest) =>
        if len == 0 then Resume(rest, altnetLen, len) else ValueTurn(w', rest, altnetLen, len)
  }

  /** One turn of the loop, `ws` being the words not yet read. */
  function OneTurn(ws: seq<string>, altnetLen: nat, scopedLen: nat, env: Env): (t: Turn)
    requires ws != []
    ensures t.Resume? ==> |t.ws| < |ws|
  {
    var w, rest := ws[0], ws[1..];
    if FlagWord(w) then Resume(rest, altnetLen, scopedLen)
    else if w != "altnet" then ScopedTurn(w, rest, altnetLen, scopedLen, env)
    else if rest == [] then Over
    else
      match ReadNet(rest, altnetLen, Host, env)
      case Bad => Over
      case Skip(len, behind) => Resume(behind, len, scopedLen)
      case Net(_, len, w', behind) => ScopedTurn(w', behind, len, scopedLen, env)
  }

  /** The words left when an option has been read as intended; none when the line is over or wrong. */
  function IntendedRest(ws: seq<string>, env: Env): (rest: seq<string>)
    requires ws != []
    ensures |rest| < |ws|
  {
    var w, rest := ws[0], ws[1..];
    if w == "altnet" && rest != [] then
      var r := ReadNet(rest, 0, Host, env);
      if r.Bad? then [] else r.rest
    else if w == "scoped" && rest != [] then
      var r := ReadNet(rest, 0, Group, env);
      if r.Bad? then [] else r.rest
    else if TakesValue(w) && rest != [] then rest[1..]
    else rest
  }

  // ---------------------------------------------------------------- when a line is read as intended

  /** The network has a length of its own, behind its slash or behind "masklen". */
  predicate HasLength(ws: seq<string>) {
    var k := SlashAt(Word(ws, 0));
    || (k < |Word(ws, 0)| && !ScanUnsigned(Word(ws, 0)[k + 1..]).Eof?)
    || (Word(ws, 1) == "masklen" && ScanUnsigned(Word(ws, 2)).Number?)
  }

  /** The network that `ws` starts with is followed by an option that its look-ahead hides: an altnet without "masklen"
      by a value option or "scoped", a scoped network of nonzero length without "masklen" by a value option. */
  predicate HidesNext(ws: seq<string>, altnetLen: nat, scopedLen: nat, env: Env)
    requires ws != []
  {
    if |ws| == 1 then false
    else if ws[0] == "altnet" then
      var r := ReadNet(ws[1..], altnetLen, Host, env);
      r.Net? && Word(ws, 2) != "masklen" && (TakesValue(Word(ws, 2)) || Word(ws, 2) == "scoped")
    else if ws[0] == "scoped" then
      var r := ReadNet(ws[1..], scopedLen, Group, env);
      r.Net? && r.len != 0 && Word(ws, 2) != "masklen" && TakesValue(Word(ws, 2))
    else false
  }

  /** The network that `ws` starts with has no length, and gets one that an earlier network of its kind left. */
  predicate CarriesLength(ws: seq<string>, altnetLen: nat, scopedLen: nat, env: Env)
    requires ws != []
  {
    |ws| > 1 && !HasLength(ws[1..])
    && ((ws[0] == "altnet" && altnetLen != 0 && ReadNet(ws[1..], 0, Host, env).Net?)
        || (ws[0] == "scoped" && scopedLen != 0 && ReadNet(ws[1..], 0, Group, env).Net?))
  }

  /** The network that `ws` starts with has a length above 32. */
  predicate LengthTooLong(ws: seq<string>, env: Env)
    requires ws != []
  {
    |ws| > 1
    && ((ws[0] == "altnet" && ReadNet(ws[1..], 0, Host, env).Net? && ReadNet(ws[1..], 0, Host, env).len > 32)
        || (ws[0] == "scoped" && ReadNet(ws[1..], 0, Group, env).Net? && ReadNet(ws[1..], 0, Group, env).len > 32))
  }

  /** At no turn of the loop is an option hidden, a mask length carried over to a network, or a length above 32. */
  predicate AsIntended(ws: seq<string>, altnetLen: nat, scopedLen: nat, env: Env)
    decreases |ws|
  {
    ws == []
    || (&& !HidesNext(ws, altnetLen, scopedLen, env)
        && !CarriesLength(ws, altnetLen, scopedLen, env) && !LengthTooLong(ws, env)
        && match OneTurn(ws, altnetLen, scopedLen, env)
           case Over => true
           case Resume(rest, al, sl) => AsIntended(rest, al, sl, env))
  }

  /** The network an option adds: none, or one with a mask of that length. */
  datatype Made = NoNet | Mask(len: nat)

  /** A turn of the loop: how many words are left at its top, and the network that the option there adds. */
  datatype Step = Step(left: nat, made: Made)

  function CodeMade(ws: seq<string>, altnetLen: nat, scopedLen: nat, env: Env): Made
    requires ws != []
  {
    if |ws| == 1 then NoNet
    else if ws[0] == "altnet" then
      var r := ReadNet(ws[1..], altnetLen, Host, env);
      if r.Net? then Mask(r.len) else NoNet
    else if ws[0] == "scoped" then
      var r := ReadNet(ws[1..], scopedLen, Group, env);
      if r.Net? && r.len != 0 then Mask(r.len) else NoNet
    else NoNet
  }

  function IntendedMade(ws: seq<string>, env: Env): Made
    requires ws != []
  {
    if |ws| == 1 then NoNet
    else if ws[0] == "altnet" then
      var r := ReadNet(ws[1..], 0, Host, env);
      if r.Net? && r.len <= 32 then Mask(r.len) else NoNet
    else if ws[0] == "scoped" then
      var r := ReadNet(ws[1..], 0, Group, env);
      if r.Net? && MaskLength(r.len) then Mask(r.len) else NoNet
    else NoNet
  }

  /** The turns that the code makes of a line. */
  function Steps(ws: seq<string>, altnetLen: nat, scopedLen: nat, env: Env): seq<Step>
    decreases |ws|
  {
    if ws == [] then []
    else [Step(|ws|, CodeMade(ws, altnetLen, scopedLen, env))]
         + match OneTurn(ws, altnetLen, scopedLen, env)
           case Over => []
           case Resume(rest, al, sl) => Steps(rest, al, sl, env)
  }

  /** The turns that are intended. */
  function IntendedSteps(ws: seq<string>, env: Env): seq<Step>
    decreases |ws|
  {
    if ws == [] then []
    else [Step(|ws|, IntendedMade(ws, env))] + IntendedSteps(IntendedRest(ws, env), env)
  }

  /** The length carried over is all that tells one reading of a network from another. */
  lemma LengthAlone(ws: seq<string>, len: nat, kind: Wanted, env: Env)
    requires ws != []
    ensures var r, r0 := ReadNet(ws, len, kind, env), ReadNet(ws, 0, kind, env);
            && r.Bad? == r0.Bad? && r.Skip? == r0.Skip? && r.Net? == r0.Net?
            && (!r.Bad? ==> r.rest == r0.rest)
            && (r.Net? ==> r.addr == r0.addr && r.w == r0.w)
            && (r.Net? ==> if HasLength(ws) then r.len == r0.len else r.len == len && r0.len == 0)
  {
    hide IsHost, IsGroup, NamedOrParsed, ScanUnsigned;
    assert Word(ws[1..], 0) == Word(ws, 1) && Word(ws[1..], 1) == Word(ws, 2);
  }

  lemma MadeIff(ws: seq<string>, altnetLen: nat, scopedLen: nat, env: Env)
    requires ws != []
    ensures CodeMade(ws, altnetLen, scopedLen, env) == IntendedMade(ws, env)
            <==> !CarriesLength(ws, altnetLen, scopedLen, env) && !LengthTooLong(ws, env)
  {
    hide ReadNet, HasLength;
    if |ws| > 1 {
      LengthAlone(ws[1..], altnetLen, Host, env);
      LengthAlone(ws[1..], scopedLen, Group, env);
    }
  }

  /** The word in the buffer behind a network: the next one, not yet read; or the length, which is no option. */
  lemma BufferBehindNet(ws: seq<string>, len: nat, kind: Wanted, env: Env)
    requires ws != [] && ReadNet(ws, len, kind, env).Net?
    ensures var w := ReadNet(ws, len, kind, env).w;
            if Word(ws, 1) != "masklen" then w == Word(ws, 1) else !TakesValue(w) && w != "scoped"
  {
    hide IsHost, IsGroup, NamedOrParsed, LengthAfterSlash, BeforeSlash, ScanUnsigned;
    assert Word(ws[1..], 0) == Word(ws, 1);
    if Word(ws, 1) == "masklen" {
      LengthIsNoOption(ws[1..][1]);
    }
  }

  lemma LengthIsNoOption(w: string)
    requires !ScanUnsigned(w).NoMatch?
    ensures !TakesValue(w) && w != "scoped"
  {
    if ScanUnsigned(w).Number? { NumberIsNoOption(w); } else { BlankStart(w); }
    hide ScanUnsigned;
  }

  lemma BlankStart(w: string)
    requires ScanUnsigned(w).Eof?
    ensures w == "" || IsSpace(w[0])
  {
  }

  function RestOf(t: Turn): seq<string> {
    if t.Over? then [] else t.ws
  }

  /** With nothing hidden a turn ends where intended. */
  lemma TurnEnds(ws: seq<string>, altnetLen: nat, scopedLen: nat, env: Env)
    requires ws != [] && !HidesNext(ws, altnetLen, scopedLen, env)
    ensures RestOf(OneTurn(ws, altnetLen, scopedLen, env)) == IntendedRest(ws, env)
  {
    hide ReadNet, HasLength, TakesValue;
    if |ws| > 1 {
      TurnFacts(ws, altnetLen, scopedLen, env);
    }
  }

  lemma TurnFacts(ws: seq<string>, altnetLen: nat, scopedLen: nat, env: Env)
    requires |ws| > 1
    ensures TakesValue(ws[0]) ==> !FlagWord(ws[0]) && ws[0] != "altnet" && ws[0] != "scoped"
    ensures !FlagWord("altnet") && !FlagWord("scoped")
    ensures ReadNet(ws[1..], altnetLen, Host, env).Net? ==>
              var w := ReadNet(ws[1..], altnetLen, Host, env).w;
              if Word(ws, 2) != "masklen" then w == Word(ws, 2) else !TakesValue(w) && w != "scoped"
    ensures ReadNet(ws[1..], scopedLen, Group, env).Net? ==>
              var w := ReadNet(ws[1..], scopedLen, Group, env).w;
              if Word(ws, 2) != "masklen" then w == Word(ws, 2) else !TakesValue(w) && w != "scoped"
    ensures var r, r0 := ReadNet(ws[1..], altnetLen, Host, env), ReadNet(ws[1..], 0, Host, env);
            r.Bad? == r0.Bad? && (!r.Bad? ==> r.rest == r0.rest)
    ensures var r, r0 := ReadNet(ws[1..], scopedLen, Group, env), ReadNet(ws[1..], 0, Group, env);
            r.Bad? == r0.Bad? && (!r.Bad? ==> r.rest == r0.rest)
  {
    hide ReadNet, HasLength;
    assert Word(ws[1..], 1) == Word(ws, 2);
    LengthAlone(ws[1..], altnetLen, Host, env);
    LengthAlone(ws[1..], scopedLen, Group, env);
    if ReadNet(ws[1..], altnetLen, Host, env).Net? { BufferBehindNet(ws[1..], altnetLen, Host, env); }
    if ReadNet(ws[1..], scopedLen, Group, env).Net? { BufferBehindNet(ws[1..], scopedLen, Group, env); }
  }

  /** A hidden option costs at least one word: the turn ends later than intended, or the function is left. */
  lemma TurnEndsLater(ws: seq<string>, altnetLen: nat, scopedLen: nat, env: Env)
    requires ws != [] && HidesNext(ws, altnetLen, scopedLen, env)
    ensures |RestOf(OneTurn(ws, altnetLen, scopedLen, env))| < |IntendedRest(ws, env)|
  {
    hide ReadNet, HasLength, TakesValue;
    TurnFacts(ws, altnetLen, scopedLen, env);
    NoValueWords();
    if ws[0] == "altnet" { RestBehindNet(ws[1..], altnetLen, Host, env); } else { RestBehindNet(ws[1..], scopedLen, Group, env); }
  }

  lemma NoValueWords()
    ensures !TakesValue("") && !TakesValue("masklen") && !TakesValue("scoped")
  {
  }

  lemma RestBehindNet(ws: seq<string>, len: nat, kind: Wanted, env: Env)
    requires ws != [] && ReadNet(ws, len, kind, env).Net? && Word(ws, 1) != "masklen"
    ensures ReadNet(ws, len, kind, env).rest == ws[1..]
    ensures Word(ws, 1) != "" ==> |ws| > 1
  {
    assert Word(ws[1..], 0) == Word(ws, 1);
  }

  /** For every line: the code takes the turns that are intended, at the same words and with the same networks, if and
      only if at no turn an option is hidden, a length carried over, or a length above 32. */
  lemma {:induction false} TurnsAsIntendedIff(ws: seq<string>, altnetLen: nat, scopedLen: nat, env: Env)
    ensures Steps(ws, altnetLen, scopedLen, env) == IntendedSteps(ws, env) <==> AsIntended(ws, altnetLen, scopedLen, env)
    decreases |ws|
  {
    hide OneTurn, IntendedRest, CodeMade, IntendedMade, HidesNext, CarriesLength, LengthTooLong;
    if ws != [] {
      var t, rest := OneTurn(ws, altnetLen, scopedLen, env), IntendedRest(ws, env);
      var code, meant := Steps(ws, altnetLen, scopedLen, env), IntendedSteps(ws, env);
      assert code[0] == Step(|ws|, CodeMade(ws, altnetLen, scopedLen, env)) && meant[0] == Step(|ws|, IntendedMade(ws, env));
      assert code[1..] == if t.Over? then [] else Steps(t.ws, t.altnetLen, t.scopedLen, env);
      assert meant[1..] == IntendedSteps(rest, env);
      MadeIff(ws, altnetLen, scopedLen, env);
      if HidesNext(ws, altnetLen, scopedLen, env) {
        TurnEndsLater(ws, altnetLen, scopedLen, env);
        assert meant[1] == Step(|rest|, IntendedMade(rest, env));
        assert t.Over? || t.ws == [] || code[1].left == |t.ws|;
      } else {
        TurnEnds(ws, altnetLen, scopedLen, env);
        if t.Resume? { TurnsAsIntendedIff(t.ws, t.altnetLen, t.scopedLen, env); }
        assert code == [code[0]] + code[1..] && meant == [meant[0]] + meant[1..];
      }
    }
  }

  lemma NotHidden(w: string, ws: seq<string>, st: State, env: Env)
    requires !TakesValue(w)
    ensures AtValues(w, ws, st, env) == Options(ws, st, env)
    ensures w != "scoped" ==> AtScoped(w, ws, st, env) == Options(ws, st, env)
  {
    hide TakesValue, Options, Scoped;
  }

  /** And such a line is read as its syntax means. */
  lemma {:induction false} ReadAsIntended(ws: seq<string>, st: State, env: Env)
    requires AsIntended(ws, st.altnetLen, st.scopedLen, env)
    ensures Options(ws, st, env) == Intended(ws, st.s, env)
    decreases |ws|
  {
    hide Disable, Enable, IgmpV2, IgmpV3, SetValue, WithAltnet, WithScope, ReadNet;
    if ws != [] {
      var w, rest := ws[0], ws[1..];
      if w == "altnet" {
        if rest != [] { AltnetAsIntended(ws, st, env); }
      } else if w == "scoped" {
        assert Options(ws, st, env) == AtScoped(w, rest, st, env) == Scoped(rest, st, env);
        if rest != [] { ScopedAsIntended(ws, st, env); }
      } else if TakesValue(w) {
        assert Options(ws, st, env) == AtScoped(w, rest, st, env) == AtValues(w, rest, st, env);
        if rest != [] { ReadAsIntended(rest[1..], st.(s := SetValue(w, rest[0], st.s)), env); }
      } else {
        var f := st.s.flags;
        var f' := if w == "disable" then Disable(f) else if w == "enable" then Enable(f)
                  else if w == "igmpv2" then IgmpV2(f) else if w == "igmpv3" then IgmpV3(f) else f;
        if !FlagWord(w) {
          assert Options(ws, st, env) == AtScoped(w, rest, st, env);
          NotHidden(w, rest, st, env);
          assert st.(s := st.s.(flags := f')) == st;
        }
        ReadAsIntended(rest, st.(s := st.s.(flags := f')), env);
      }
    }
  }

  lemma {:induction false} AltnetAsIntended(ws: seq<string>, st: State, env: Env)
    requires |ws| > 1 && ws[0] == "altnet" && AsIntended(ws, st.altnetLen, st.scopedLen, env)
    ensures Options(ws, st, env) == Intended(ws, st.s, env)
    decreases |ws|, 0
  {
    hide Disable, Enable, IgmpV2, IgmpV3, SetValue, WithAltnet, WithScope, ReadNet, HasLength;
    var rest := ws[1..];
    var r := ReadNet(rest, st.altnetLen, Host, env);
    TurnFacts(ws, st.altnetLen, st.scopedLen, env);
    LengthAlone(rest, st.altnetLen, Host, env);
    assert Options(ws, st, env) == Altnet(rest, st, env);
    assert Intended(ws, st.s, env) == IntendedAltnet(rest, st.s, env);
    if r.Skip? {
      ReadAsIntended(r.rest, st.(altnetLen := r.len), env);
    } else if r.Net? {
      var st1 := AddAltnet(st.(altnetLen := r.len), r.addr, env);
      NotHidden(r.w, r.rest, st1, env);
      ReadAsIntended(r.rest, st1, env);
    }
  }

  lemma {:induction false} ScopedAsIntended(ws: seq<string>, st: State, env: Env)
    requires |ws| > 1 && ws[0] == "scoped" && AsIntended(ws, st.altnetLen, st.scopedLen, env)
    ensures Options(ws, st, env) == Intended(ws, st.s, env)
    decreases |ws|, 0
  {
    hide Disable, Enable, IgmpV2, IgmpV3, SetValue, WithAltnet, WithScope, ReadNet, HasLength;
    var rest := ws[1..];
    var r := ReadNet(rest, st.scopedLen, Group, env);
    TurnFacts(ws, st.altnetLen, st.scopedLen, env);
    LengthAlone(rest, st.scopedLen, Group, env);
    assert Options(ws, st, env) == AtScoped("scoped", rest, st, env) == Scoped(rest, st, env);
    assert Intended(ws, st.s, env) == IntendedScoped(rest, st.s, env);
    if r.Skip? {
      ReadAsIntended(r.rest, st.(scopedLen := r.len), env);
    } else if r.Net? {
      var st0 := st.(scopedLen := r.len);
      if r.len != 0 { NotHidden(r.w, r.rest, AddScope(st0, r.addr, env), env); }
      ReadAsIntended(r.rest, if r.len == 0 then st0 else AddScope(st0, r.addr, env), env);
    }
  }

  // ---------------------------------------------------------------- where it does not

  function ScopedState(g: string, st: State, env: Env): State {
    var len := LengthAfterSlash(g, st.scopedLen);
    if len == 0 then st.(scopedLen := 0) else AddScope(st.(scopedLen := len), NamedOrParsed(env, BeforeSlash(g)), env)
  }

  lemma PlainScopedStep(g: string, w: string, rest: seq<string>, st: State, env: Env)
    requires IsGroup(env, BeforeSlash(g)) && w != "masklen"
    ensures var st1 := ScopedState(g, st, env);
            Scoped([g] + ([w] + rest), st, env)
            == if LengthAfterSlash(g, st.scopedLen) == 0 then Options([w] + rest, st1, env)
               else AtValues(w, [w] + rest, st1, env)
  {
    hide IsGroup, NamedOrParsed, LengthAfterSlash, BeforeSlash, WithScope, AtValues, Options;
    assert ([g] + ([w] + rest))[1..] == [w] + rest;
  }

  lemma OptionStep(w: string, value: string, rest: seq<string>, st: State, env: Env)
    requires TakesValue(w)
    ensures Options([w] + ([value] + rest), st, env) == Options(rest, st.(s := SetValue(w, value, st.s)), env)
    ensures AtValues(w, [value] + rest, st, env) == Options(rest, st.(s := SetValue(w, value, st.s)), env)
  {
    hide SetValue;
    assert ([w] + ([value] + rest))[1..] == [value] + rest && ([value] + rest)[1..] == rest;
    assert AtScoped(w, [value] + rest, st, env) == AtValues(w, [value] + rest, st, env);
  }

  lemma ScopedStep(rest: seq<string>, st: State, env: Env)
    ensures Options(["scoped"] + rest, st, env) == Scoped(rest, st, env)
    ensures Intended(["scoped"] + rest, st.s, env) == IntendedScoped(rest, st.s, env)
  {
    hide Scoped, IntendedScoped;
    assert (["scoped"] + rest)[1..] == rest;
    assert AtScoped("scoped", rest, st, env) == Scoped(rest, st, env);
  }

  /** A scoped network without "masklen" hides an option with a value as an altnet does, unless its length is 0: then
      the loop starts over, and the option is read. */
  lemma ScopedHidesOption(g: string, w: string, value: string, rest: seq<string>, st: State, env: Env)
    requires IsGroup(env, BeforeSlash(g)) && TakesValue(w)
    ensures var st1 := ScopedState(g, st, env);
            Options(["scoped"] + ([g] + ([w] + ([value] + rest))), st, env)
            == if LengthAfterSlash(g, st.scopedLen) != 0 then Options([value] + rest, st1, env)
               else Options(rest, st1.(s := SetValue(w, value, st1.s)), env)
  {
    hide IsGroup, LengthAfterSlash, BeforeSlash, Options, Scoped, AtValues, SetValue, ScopedState;
    var st1 := ScopedState(g, st, env);
    NameIsNoNumber(w, st1.s);
    ScopedStep([g] + ([w] + ([value] + rest)), st, env);
    PlainScopedStep(g, w, [value] + rest, st, env);
    OptionStep(w, w, [value] + rest, st1, env);
    OptionStep(w, value, rest, st1, env);
  }

  /** What is intended behind an altnet, or a scoped network, without "masklen". */
  function IntendedAltnetState(a: string, s: Settings, env: Env): Settings {
    var len := LengthAfterSlash(a, 0);
    if len > 32 then s else WithAltnet(s, NamedOrParsed(env, BeforeSlash(a)), len, env)
  }

  function IntendedScopedState(g: string, s: Settings, env: Env): Settings {
    var len := LengthAfterSlash(g, 0);
    if MaskLength(len) then WithScope(s, NamedOrParsed(env, BeforeSlash(g)), len, env) else s
  }

  lemma IntendedStep(w: string, value: string, rest: seq<string>, s: Settings, env: Env)
    requires TakesValue(w)
    ensures Intended([w] + ([value] + rest), s, env) == Intended(rest, SetValue(w, value, s), env)
  {
    hide SetValue;
    assert ([w] + ([value] + rest))[1..] == [value] + rest && ([value] + rest)[1..] == rest;
  }

  lemma IntendedBehindAltnet(a: string, w: string, rest: seq<string>, s: Settings, env: Env)
    requires IsHost(env, BeforeSlash(a)) && w != "masklen"
    ensures Intended(["altnet"] + ([a] + ([w] + rest)), s, env) == Intended([w] + rest, IntendedAltnetState(a, s, env), env)
  {
    hide IsHost, NamedOrParsed, LengthAfterSlash, BeforeSlash, WithAltnet;
    assert (["altnet"] + ([a] + ([w] + rest)))[1..] == [a] + ([w] + rest);
    assert ([a] + ([w] + rest))[1..] == [w] + rest;
    assert Intended(["altnet"] + ([a] + ([w] + rest)), s, env) == IntendedAltnet([a] + ([w] + rest), s, env);
  }

  lemma IntendedBehindScoped(g: string, w: string, rest: seq<string>, s: Settings, env: Env)
    requires IsGroup(env, BeforeSlash(g)) && w != "masklen"
    ensures Intended(["scoped"] + ([g] + ([w] + rest)), s, env) == Intended([w] + rest, IntendedScopedState(g, s, env), env)
  {
    ScopedStep([g] + ([w] + rest), State(s, 0, 0), env);
    hide IsGroup, NamedOrParsed, LengthAfterSlash, BeforeSlash, WithScope, Intended;
    assert ([g] + ([w] + rest))[1..] == [w] + rest;
  }

  /** A number is no option. */
  lemma NumberSkipped(value: string, rest: seq<string>, st: State, env: Env)
    requires ScanUnsigned(value).Number?
    ensures Options([value] + rest, st, env) == Options(rest, st, env)
  {
    NumberStart(value);
    NumberIsNoOption(value);
    hide ScanUnsigned, SetValue, IsSpace, IsDigit;
    assert ([value] + rest)[1..] == rest;
    assert Options([value] + rest, st, env) == AtScoped(value, rest, st, env);
    NotHidden(value, rest, st, env);
  }

  /** At such a spot the code and the intended reading part, for good if nothing on the line sets the value again: on
      a line that ends there, the network being as intended, they agree exactly when storing the value would have
      changed nothing. */
  lemma AltnetLosesValue(a: string, w: string, value: string, rest: seq<string>, st: State, env: Env)
    requires IsHost(env, BeforeSlash(a)) && TakesValue(w) && ScanUnsigned(value).Number?
    ensures var line, st1, meant := ["altnet"] + ([a] + ([w] + ([value] + rest))), AltnetState(a, st, env),
                                    IntendedAltnetState(a, st.s, env);
            && Options(line, st, env) == Options(rest, st1, env)
            && Intended(line, st.s, env) == Intended(rest, SetValue(w, value, meant), env)
            && (rest == [] ==> (Options(line, st, env) == Intended(line, st.s, env) <==> st1.s == SetValue(w, value, meant)))
            && (rest == [] && st1.s == meant
                ==> (Options(line, st, env) == Intended(line, st.s, env) <==> SetValue(w, value, st1.s) == st1.s))
  {
    hide IsHost, NamedOrParsed, LengthAfterSlash, BeforeSlash, WithAltnet, SetValue, ScanUnsigned, Altnet, AtScoped;
    var st1 := AltnetState(a, st, env);
    NameIsNoNumber(w, st1.s);
    AltnetHidesOption(a, w, value, rest, st, env);
    NumberSkipped(value, rest, st1, env);
    IntendedBehindAltnet(a, w, [value] + rest, st.s, env);
    IntendedStep(w, value, rest, IntendedAltnetState(a, st.s, env), env);
  }

  lemma ScopedLosesValue(g: string, w: string, value: string, rest: seq<string>, st: State, env: Env)
    requires IsGroup(env, BeforeSlash(g)) && TakesValue(w) && ScanUnsigned(value).Number?
    requires LengthAfterSlash(g, st.scopedLen) != 0
    ensures var line, st1, meant := ["scoped"] + ([g] + ([w] + ([value] + rest))), ScopedState(g, st, env),
                                    IntendedScopedState(g, st.s, env);
            && Options(line, st, env) == Options(rest, st1, env)
            && Intended(line, st.s, env) == Intended(rest, SetValue(w, value, meant), env)
            && (rest == [] ==> (Options(line, st, env) == Intended(line, st.s, env) <==> st1.s == SetValue(w, value, meant)))
            && (rest == [] && st1.s == meant
                ==> (Options(line, st, env) == Intended(line, st.s, env) <==> SetValue(w, value, st1.s) == st1.s))
  {
    hide IsGroup, LengthAfterSlash, BeforeSlash, ScopedState, SetValue, ScanUnsigned, Scoped, AtScoped;
    var st1 := ScopedState(g, st, env);
    NameIsNoNumber(w, st1.s);
    ScopedHidesOption(g, w, value, rest, st, env);
    NumberSkipped(value, rest, st1, env);
    IntendedBehindScoped(g, w, [value] + rest, st.s, env);
    IntendedStep(w, value, rest, IntendedScopedState(g, st.s, env), env);
  }

  /** Behind an altnet that is as intended, a last option "scoped" is read as intended exactly when its group is
      none. */
  lemma AltnetLosesScoped(a: string, g: string, st: State, env: Env)
    requires IsHost(env, BeforeSlash(a)) && NameToAddr(env.names, "scoped") == 0
    ensures var line, st1 := ["altnet"] + ([a] + (["scoped"] + [g])), AltnetState(a, st, env);
            && Options(line, st, env) == Outcome(st1.s, false)
            && (Options(line, st, env) == Intended(line, st.s, env)
                <==> !IsGroup(env, BeforeSlash(g)) && st1.s == IntendedAltnetState(a, st.s, env))
  {
    var st1, meant := AltnetState(a, st, env), IntendedAltnetState(a, st.s, env);
    ScopedBehindAltnet(a, g, [], st, env);
    IntendedBehindAltnet(a, "scoped", [g], st.s, env);
    ScopedStep([g], State(meant, 0, 0), env);
    hide IsGroup, IsHost, NamedOrParsed, LengthAfterSlash, BeforeSlash, WithAltnet, WithScope, Options, AltnetState,
         IntendedAltnetState;
    assert [g] + [] == [g];
    assert [g][1..] == [];
  }

  // ---------------------------------------------------------------- lengths carried over

  lemma LastAltnet(b: string, st: State, env: Env)
    requires IsHost(env, BeforeSlash(b))
    ensures Options(["altnet"] + [b], st, env) == Outcome(AltnetState(b, st, env).s, true)
    ensures Intended(["altnet"] + [b], st.s, env) == Outcome(IntendedAltnetState(b, st.s, env), true)
  {
    hide IsHost, NamedOrParsed, LengthAfterSlash, BeforeSlash, WithAltnet;
    assert (["altnet"] + [b])[1..] == [b] && [b][1..] == [];
    assert Options(["altnet"] + [b], st, env) == Altnet([b], st, env);
    assert Intended(["altnet"] + [b], st.s, env) == IntendedAltnet([b], st.s, env)
           == Intended([], IntendedAltnetState(b, st.s, env), env);
    NoValueWords();
    NotHidden("", [], AltnetState(b, st, env), env);
  }

  lemma LastScoped(g: string, st: State, env: Env)
    requires IsGroup(env, BeforeSlash(g))
    ensures Options(["scoped"] + [g], st, env) == Outcome(ScopedState(g, st, env).s, true)
    ensures Intended(["scoped"] + [g], st.s, env) == Outcome(IntendedScopedState(g, st.s, env), true)
  {
    ScopedStep([g], st, env);
    NoValueWords();
    NotHidden("", [], ScopedState(g, st, env), env);
    hide IsGroup, NamedOrParsed, LengthAfterSlash, BeforeSlash, WithScope, TakesValue;
    assert [g][1..] == [];
  }

  lemma OptionBehindAltnet(a: string, rest: seq<string>, st: State, env: Env)
    requires IsHost(env, BeforeSlash(a))
    ensures Options(["altnet"] + ([a] + (["altnet"] + rest)), st, env)
            == Options(["altnet"] + rest, AltnetState(a, st, env), env)
  {
    hide IsHost, AltnetState, BeforeSlash, Options, Altnet, AtScoped, TakesValue;
    AltnetStep([a] + (["altnet"] + rest), st, env);
    PlainAltnetStep(a, "altnet", rest, st, env);
    NetworkWords();
    NotHidden("altnet", ["altnet"] + rest, AltnetState(a, st, env), env);
  }

  lemma NetworkWords()
    ensures !TakesValue("altnet") && !TakesValue("scoped")
  {
  }

  lemma OptionBehindScoped(g: string, rest: seq<string>, st: State, env: Env)
    requires IsGroup(env, BeforeSlash(g))
    ensures Options(["scoped"] + ([g] + (["scoped"] + rest)), st, env)
            == Options(["scoped"] + rest, ScopedState(g, st, env), env)
  {
    hide IsGroup, ScopedState, BeforeSlash, Options, Scoped, AtValues, TakesValue, LengthAfterSlash;
    ScopedStep([g] + (["scoped"] + rest), st, env);
    PlainScopedStep(g, "scoped", rest, st, env);
    NetworkWords();
    NotHidden("scoped", ["scoped"] + rest, ScopedState(g, st, env), env);
  }

  lemma NoLength(b: string, len: nat)
    requires SlashAt(b) == |b|
    ensures LengthAfterSlash(b, len) == len
  {
  }

  /** A second altnet without a length gets the mask of the first one's length, where the vif's own is meant. */
  lemma AltnetCarriesLength(a: string, b: string, st: State, env: Env)
    requires IsHost(env, BeforeSlash(a)) && IsHost(env, BeforeSlash(b)) && SlashAt(b) == |b|
    requires LengthAfterSlash(a, st.altnetLen) == LengthAfterSlash(a, 0) && MaskLength(LengthAfterSlash(a, 0))
    ensures var line, addr, len := ["altnet"] + ([a] + (["altnet"] + [b])), NamedOrParsed(env, BeforeSlash(b)), LengthAfterSlash(a, 0);
            var first := WithAltnet(st.s, NamedOrParsed(env, BeforeSlash(a)), len, env);
            && Options(line, st, env) == Outcome(WithAltnet(first, addr, len, env), true)
            && WithAltnet(first, addr, len, env).addrs[0].subnetmask == ValToMask(len)
            && Intended(line, st.s, env) == Outcome(WithAltnet(first, addr, 0, env), true)
            && WithAltnet(first, addr, 0, env).addrs[0].subnetmask == env.subnetmask
  {
    OptionBehindAltnet(a, [b], st, env);
    LastAltnet(b, AltnetState(a, st, env), env);
    LastAltnet(b, State(IntendedAltnetState(a, st.s, env), 0, 0), env);
    NoLength(b, LengthAfterSlash(a, 0));
    NoLength(b, 0);
    NetworkWords();
    IntendedBehindAltnet(a, "altnet", [b], st.s, env);
    hide IsHost, NamedOrParsed, LengthAfterSlash, BeforeSlash, Options, Intended, Network, Broadcast;
  }

  /** A second scoped network without a length gets that of the first, where it is to be skipped. */
  lemma ScopedCarriesLength(g: string, h: string, st: State, env: Env)
    requires IsGroup(env, BeforeSlash(g)) && IsGroup(env, BeforeSlash(h)) && SlashAt(h) == |h|
    requires LengthAfterSlash(g, st.scopedLen) == LengthAfterSlash(g, 0) && MaskLength(LengthAfterSlash(g, 0))
    ensures var line, addr, len := ["scoped"] + ([g] + (["scoped"] + [h])), NamedOrParsed(env, BeforeSlash(h)), LengthAfterSlash(g, 0);
            var first := WithScope(st.s, NamedOrParsed(env, BeforeSlash(g)), len, env);
            && Options(line, st, env) == Outcome(WithScope(first, addr, len, env), true)
            && Intended(line, st.s, env) == Outcome(first, true)
            && |WithScope(first, addr, len, env).scopes| == |first.scopes| + 1
  {
    OptionBehindScoped(g, [h], st, env);
    LastScoped(h, ScopedState(g, st, env), env);
    LastScoped(h, State(IntendedScopedState(g, st.s, env), 0, 0), env);
    NoLength(h, LengthAfterSlash(g, 0));
    NoLength(h, 0);
    NetworkWords();
    IntendedBehindScoped(g, "scoped", [h], st.s, env);
    hide IsGroup, NamedOrParsed, LengthAfterSlash, BeforeSlash, Options, Intended, NewScope;
  }

  /** A length above 32 is taken all the same, and the mask is whatever the undefined shift yields. */
  lemma LongLengthTaken(a: string, st: State, env: Env)
    requires IsHost(env, BeforeSlash(a)) && LengthAfterSlash(a, st.altnetLen) == LengthAfterSlash(a, 0) > 32
    ensures var line, len := ["altnet"] + [a], LengthAfterSlash(a, 0);
            && Options(line, st, env).s.addrs
               == [NewAltnet(NamedOrParsed(env, BeforeSlash(a)), env.undefined(len))] + st.s.addrs
            && Intended(line, st.s, env) == Outcome(st.s, true)
  {
    LastAltnet(a, st, env);
    hide IsHost, NamedOrParsed, LengthAfterSlash, BeforeSlash, Options, Intended, NewAltnet;
  }

  // ---------------------------------------------------------------- in plain words and numbers

  /** What "disable", "enable", "igmpv2" and "igmpv3" do to the flags. */
  lemma FlagOptions(rest: seq<string>, st: State, env: Env)
    ensures Options(["disable"] + rest, st, env) == Options(rest, WithFlags(st, st.s.flags | 0x200), env)
    ensures Options(["enable"] + rest, st, env) == Options(rest, WithFlags(st, st.s.flags & 0xffff_fdff), env)
    ensures Options(["igmpv2"] + rest, st, env) == Options(rest, WithFlags(st, (st.s.flags & 0xffff_dfff) | 0x80_0000), env)
    ensures Options(["igmpv3"] + rest, st, env) == Options(rest, WithFlags(st, st.s.flags & 0xff7f_dfff), env)
  {
    hide Disable, Enable, IgmpV2, IgmpV3, Options, WithFlags;
    FlagsAre(st.s.flags);
    FlagStep(rest, st, env);
  }

  function WithFlags(st: State, f: bv32): State {
    st.(s := st.s.(flags := f))
  }

  lemma FlagStep(rest: seq<string>, st: State, env: Env)
    ensures Options(["disable"] + rest, st, env) == Options(rest, WithFlags(st, Disable(st.s.flags)), env)
    ensures Options(["enable"] + rest, st, env) == Options(rest, WithFlags(st, Enable(st.s.flags)), env)
    ensures Options(["igmpv2"] + rest, st, env) == Options(rest, WithFlags(st, IgmpV2(st.s.flags)), env)
    ensures Options(["igmpv3"] + rest, st, env) == Options(rest, WithFlags(st, IgmpV3(st.s.flags)), env)
  {
    hide Disable, Enable, IgmpV2, IgmpV3, AtScoped, Altnet;
    assert (["disable"] + rest)[1..] == rest && (["enable"] + rest)[1..] == rest;
    assert (["igmpv2"] + rest)[1..] == rest && (["igmpv3"] + rest)[1..] == rest;
  }

  lemma FlagsAre(f: bv32)
    ensures Disable(f) == f | 0x200 && Enable(f) == f & 0xffff_fdff
    ensures IgmpV2(f) == (f & 0xffff_dfff) | 0x80_0000 && IgmpV3(f) == f & 0xff7f_dfff
  {
    hide Disable, Enable, IgmpV2, IgmpV3;
    SwitchIsBit(f);
    IgmpV2Is(f);
    IgmpV3Is(f);
  }

  lemma SwitchIsBit(f: bv32)
    ensures Disable(f) == f | 0x200 && Enable(f) == f & 0xffff_fdff
  {
  }

  lemma IgmpV2Is(f: bv32)
    ensures IgmpV2(f) == (f & 0xffff_dfff) | 0x80_0000
  {
  }

  lemma IgmpV3Is(f: bv32)
    ensures IgmpV3(f) == f & 0xff7f_dfff
  {
  }

  /** What a printed number in range sets. */
  lemma ThresholdOption(n: nat, rest: seq<string>, st: State, env: Env)
    requires 1 <= n <= 255
    ensures Options(["threshold"] + ([Dec(n)] + rest), st, env) == Options(rest, st.(s := st.s.(threshold := n)), env)
    ensures Options(["ttl-threshold"] + ([Dec(n)] + rest), st, env) == Options(rest, st.(s := st.s.(threshold := n)), env)
  {
    hide Options, SetValue, ScanUnsigned, Dec;
    PrintedScanned(n);
    NumbersSet(Dec(n), n, st.s);
    OptionStep("threshold", Dec(n), rest, st, env);
    OptionStep("ttl-threshold", Dec(n), rest, st, env);
  }

  lemma DistanceOption(n: nat, rest: seq<string>, st: State, env: Env)
    requires 1 <= n <= 255
    ensures Options(["distance"] + ([Dec(n)] + rest), st, env) == Options(rest, st.(s := st.s.(localPref := n)), env)
    ensures Options(["preference"] + ([Dec(n)] + rest), st, env) == Options(rest, st.(s := st.s.(localPref := n)), env)
  {
    hide Options, SetValue, ScanUnsigned, Dec;
    PrintedScanned(n);
    NumbersSet(Dec(n), n, st.s);
    OptionStep("distance", Dec(n), rest, st, env);
    OptionStep("preference", Dec(n), rest, st, env);
  }

  lemma MetricOption(n: nat, rest: seq<string>, st: State, env: Env)
    requires 1 <= n <= 1024
    ensures Options(["metric"] + ([Dec(n)] + rest), st, env) == Options(rest, st.(s := st.s.(localMetric := n)), env)
  {
    hide Options, SetValue, ScanUnsigned, Dec;
    PrintedScanned(n);
    NumbersSet(Dec(n), n, st.s);
    OptionStep("metric", Dec(n), rest, st, env);
  }

  lemma PriorityOption(n: nat, rest: seq<string>, st: State, env: Env)
    requires 1 <= n <= 4294967294
    ensures Options(["dr-priority"] + ([Dec(n)] + rest), st, env) == Options(rest, st.(s := st.s.(drPrio := n)), env)
  {
    hide Options, SetValue, ScanUnsigned, Dec;
    PrintedScanned(n);
    NumbersSet(Dec(n), n, st.s);
    OptionStep("dr-priority", Dec(n), rest, st, env);
  }

  lemma NumbersSet(value: string, n: nat, s: Settings)
    requires 1 <= n <= 4294967294 ==> ScanUnsigned(value) == Number(n, "")
    ensures 1 <= n <= 255 ==>
              && SetValue("threshold", value, s) == SetValue("ttl-threshold", value, s) == s.(threshold := n)
              && SetValue("distance", value, s) == SetValue("preference", value, s) == s.(localPref := n)
    ensures 1 <= n <= 1024 ==> SetValue("metric", value, s) == s.(localMetric := n)
    ensures 1 <= n <= 4294967294 ==> SetValue("dr-priority", value, s) == s.(drPrio := n)
  {
    hide ScanUnsigned;
  }

  /** A value that is no number, has something behind it, or is out of range is passed over. */
  lemma ValuesIgnored(value: string, rest: seq<string>, st: State, env: Env)
    ensures var r := ScanUnsigned(value);
            && (!r.Number? || r.rest != "" || r.n == 0 || r.n > 255 ==>
                  && Options(["threshold"] + ([value] + rest), st, env) == Options(rest, st, env)
                  && Options(["ttl-threshold"] + ([value] + rest), st, env) == Options(rest, st, env)
                  && Options(["distance"] + ([value] + rest), st, env) == Options(rest, st, env)
                  && Options(["preference"] + ([value] + rest), st, env) == Options(rest, st, env))
            && (!r.Number? || r.rest != "" || r.n == 0 || r.n > 1024 ==>
                  Options(["metric"] + ([value] + rest), st, env) == Options(rest, st, env))
            && (!r.Number? || r.rest != "" || r.n == 0 || r.n > 4294967294 ==>
                  Options(["dr-priority"] + ([value] + rest), st, env) == Options(rest, st, env))
  {
    hide Options, SetValue, ScanUnsigned;
    NothingSet(value, st.s);
    assert st.(s := st.s) == st;
    forall w | TakesValue(w)
      ensures Options([w] + ([value] + rest), st, env) == Options(rest, st.(s := SetValue(w, value, st.s)), env)
    {
      OptionStep(w, value, rest, st, env);
    }
  }

  lemma NothingSet(value: string, s: Settings)
    ensures var r := ScanUnsigned(value);
            && (!r.Number? || r.rest != "" || r.n == 0 || r.n > 255 ==>
                  SetValue("threshold", value, s) == SetValue("ttl-threshold", value, s)
                  == SetValue("distance", value, s) == SetValue("preference", value, s) == s)
            && (!r.Number? || r.rest != "" || r.n == 0 || r.n > 1024 ==> SetValue("metric", value, s) == s)
            && (!r.Number? || r.rest != "" || r.n == 0 || r.n > 4294967294 ==> SetValue("dr-priority", value, s) == s)
  {
    hide ScanUnsigned;
  }

  /** An address and a prefix length in one word. */
  function NetWord(a: bv32, n: nat): string {
    InetFmt(a) + "/" + Dec(n)
  }

  lemma {:induction false} SlashFound(a: string, b: string)
    requires forall i :: 0 <= i < |a| ==> a[i] != '/'
    ensures SlashAt(a + "/" + b) == |a|
  {
    var w := a + "/" + b;
    assert forall i :: 0 <= i < |a| ==> w[i] == a[i];
    assert w[|a|] == '/';
  }

  lemma NoSlashInFmt(a: bv32)
    ensures forall i :: 0 <= i < |InetFmt(a)| ==> InetFmt(a)[i] != '/'
  {
    hide Octet;
    NoSlashInDotted(Dec(Octet(a, 0) as nat), Dec(Octet(a, 1) as nat), Dec(Octet(a, 2) as nat), Dec(Octet(a, 3) as nat));
  }

  lemma NoSlashInDotted(d0: string, d1: string, d2: string, d3: string)
    requires Numeral(d0) && Numeral(d1) && Numeral(d2) && Numeral(d3)
    ensures forall i :: 0 <= i < |Dotted(d0, d1, d2, d3)| ==> Dotted(d0, d1, d2, d3)[i] != '/'
  {
  }

  lemma NetWordSplit(a: bv32, n: nat, len: nat)
    requires n < 0x1_0000_0000
    ensures BeforeSlash(NetWord(a, n)) == InetFmt(a) && LengthAfterSlash(NetWord(a, n), len) == n
  {
    hide InetFmt, Dec, ScanUnsigned, SlashAt;
    NoSlashInFmt(a);
    SlashFound(InetFmt(a), Dec(n));
    PrintedScanned(n);
    assert NetWord(a, n)[..|InetFmt(a)|] == InetFmt(a) && NetWord(a, n)[|InetFmt(a)| + 1..] == Dec(n);
  }

  /** Such a word read: the address, and the length. */
  lemma NetWordRead(a: bv32, n: nat, len: nat, env: Env)
    requires NameToAddr(env.names, InetFmt(a)) == 0 && n < 0x1_0000_0000
    ensures BeforeSlash(NetWord(a, n)) == InetFmt(a) && LengthAfterSlash(NetWord(a, n), len) == n
    ensures NamedOrParsed(env, InetFmt(a)) == a
    ensures IsHost(env, InetFmt(a)) <==> 0x0100_0000 <= Ntohl(a) < 0xe000_0000
    ensures IsGroup(env, InetFmt(a)) <==> 0xe000_0000 <= Ntohl(a) < 0xf000_0000
  {
    hide InetFmt, InetParse, Ntohl, InMulticast, InetValidHost, NetWord, BeforeSlash, LengthAfterSlash, NameToAddr;
    NetWordSplit(a, n, len);
    FmtRoundTrip(a);
    MulticastRange(Ntohl(a));
  }

  /** The mask of `n` ones in front, in network order. */
  function FrontOnes(n: nat): bv32
    requires n <= 32
  {
    Ntohl(MaskFrom(32 - n))
  }

  lemma LengthMask(n: nat, undefined: nat -> bv32)
    requires 1 <= n <= 32
    ensures MaskOf(n, undefined) == FrontOnes(n)
  {
    ValToMaskIs(n);
    NtohlInvolution(ValToMask(n));
  }

  /** The record of an altnet: the subnet, its mask and its broadcast address. */
  function AltnetOf(a: bv32, mask: bv32): Phaddr {
    Phaddr(a & mask, mask, (a & mask) | !mask)
  }

  function ScopeOf(a: bv32, mask: bv32): Scope {
    Scope(a & mask, mask)
  }

  lemma RecordsAre(a: bv32, mask: bv32)
    ensures NewAltnet(a, mask) == AltnetOf(a, mask) && NewScope(a, mask) == ScopeOf(a, mask)
  {
  }

  /** `altnet a/n`, n in 1..32: the network of that many bits, for an address from 1.0.0.0 to 223.255.255.255; any other
      is refused. */
  lemma AltnetRecord(a: bv32, n: nat, st: State, env: Env)
    requires NameToAddr(env.names, InetFmt(a)) == 0 && 1 <= n <= 32
    ensures Options(["altnet"] + [NetWord(a, n)], st, env)
            == if 0x0100_0000 <= Ntohl(a) < 0xe000_0000
               then Outcome(st.s.(addrs := [AltnetOf(a, FrontOnes(n))] + st.s.addrs), true)
               else Outcome(st.s, false)
  {
    hide Ntohl, InetFmt, FrontOnes, NetWord, IsHost, NamedOrParsed, BeforeSlash, LengthAfterSlash, MaskOf, NewAltnet,
         AltnetOf, Options, IsGroup, NameToAddr;
    NetWordRead(a, n, st.altnetLen, env);
    LengthMask(n, env.undefined);
    RecordsAre(a, FrontOnes(n));
    if IsHost(env, BeforeSlash(NetWord(a, n))) {
      LastAltnet(NetWord(a, n), st, env);
    } else {
      BadNetwork(NetWord(a, n), [], st, env);
      assert [NetWord(a, n)] + [] == [NetWord(a, n)];
    }
  }

  /** `scoped g/n`: the scope of that many bits, for an address from 224.0.0.0 to 239.255.255.255; any other is
      refused. */
  lemma ScopedRecord(a: bv32, n: nat, st: State, env: Env)
    requires NameToAddr(env.names, InetFmt(a)) == 0 && 1 <= n <= 32
    ensures Options(["scoped"] + [NetWord(a, n)], st, env)
            == if 0xe000_0000 <= Ntohl(a) < 0xf000_0000
               then Outcome(st.s.(scopes := [ScopeOf(a, FrontOnes(n))] + st.s.scopes), true)
               else Outcome(st.s, false)
  {
    hide Ntohl, InetFmt, FrontOnes, NetWord, IsGroup, NamedOrParsed, BeforeSlash, LengthAfterSlash, MaskOf, NewScope,
         ScopeOf, Options, IsHost, NameToAddr;
    NetWordRead(a, n, st.scopedLen, env);
    LengthMask(n, env.undefined);
    RecordsAre(a, FrontOnes(n));
    if IsGroup(env, BeforeSlash(NetWord(a, n))) {
      LastScoped(NetWord(a, n), st, env);
    } else {
      BadNetwork(NetWord(a, n), [], st, env);
      assert [NetWord(a, n)] + [] == [NetWord(a, n)];
    }
  }

  lemma BadNetwork(a: string, rest: seq<string>, st: State, env: Env)
    ensures !IsHost(env, BeforeSlash(a)) ==> Options(["altnet"] + ([a] + rest), st, env) == Outcome(st.s, false)
    ensures !IsGroup(env, BeforeSlash(a)) ==> Options(["scoped"] + ([a] + rest), st, env) == Outcome(st.s, false)
  {
    hide IsHost, IsGroup, BeforeSlash, Options, LengthAfterSlash;
    AltnetStep([a] + rest, st, env);
    ScopedStep([a] + rest, st, env);
  }

  /** The same networks in the form with "masklen". */
  lemma AltnetMasklenRecord(a: bv32, n: nat, st: State, env: Env)
    requires NameToAddr(env.names, InetFmt(a)) == 0 && 1 <= n <= 32 && 0x0100_0000 <= Ntohl(a) < 0xe000_0000
    ensures Options(["altnet"] + ([InetFmt(a)] + (["masklen"] + ([Dec(n)] + []))), st, env)
            == Outcome(st.s.(addrs := [AltnetOf(a, FrontOnes(n))] + st.s.addrs), true)
  {
    hide Ntohl, InetFmt, FrontOnes, NetWord, IsHost, IsGroup, NamedOrParsed, BeforeSlash, LengthAfterSlash, MaskOf, NewAltnet,
         AltnetOf, Options, NameToAddr, Dec, ScanUnsigned, Altnet, AtScoped, TakesValue;
    NetWordRead(a, n, 0, env);
    WholeWord(a);
    LengthMask(n, env.undefined);
    RecordsAre(a, FrontOnes(n));
    PrintedScanned(n);
    AltnetStep([InetFmt(a)] + (["masklen"] + ([Dec(n)] + [])), st, env);
    MasklenAltnetStep(InetFmt(a), Dec(n), [], st, env);
    NumberIsNoOption(Dec(n));
    var st1 := AddAltnet(st.(altnetLen := ValueOf(Dec(n))), NamedOrParsed(env, BeforeSlash(InetFmt(a))), env);
    NotHidden(Dec(n), [], st1, env);
    LineOver(st1, env);
  }

  lemma ScopedMasklenRecord(a: bv32, n: nat, st: State, env: Env)
    requires NameToAddr(env.names, InetFmt(a)) == 0 && 1 <= n <= 32 && 0xe000_0000 <= Ntohl(a) < 0xf000_0000
    ensures Options(["scoped"] + ([InetFmt(a)] + (["masklen"] + ([Dec(n)] + []))), st, env)
            == Outcome(st.s.(scopes := [ScopeOf(a, FrontOnes(n))] + st.s.scopes), true)
  {
    hide Ntohl, InetFmt, FrontOnes, NetWord, IsHost, IsGroup, NamedOrParsed, BeforeSlash, LengthAfterSlash, MaskOf, NewScope,
         ScopeOf, Options, NameToAddr, Dec, ScanUnsigned, Scoped, AtValues, TakesValue;
    NetWordRead(a, n, 0, env);
    WholeWord(a);
    LengthMask(n, env.undefined);
    RecordsAre(a, FrontOnes(n));
    PrintedScanned(n);
    ScopedStep([InetFmt(a)] + (["masklen"] + ([Dec(n)] + [])), st, env);
    MasklenScopedStep(InetFmt(a), Dec(n), n, [], st, env);
    NumberIsNoOption(Dec(n));
    var st1 := AddScope(st.(scopedLen := n), NamedOrParsed(env, BeforeSlash(InetFmt(a))), env);
    NotHidden(Dec(n), [], st1, env);
    LineOver(st1, env);
  }

  lemma MasklenScopedStep(g: string, len: string, n: nat, rest: seq<string>, st: State, env: Env)
    requires IsGroup(env, BeforeSlash(g)) && ScanUnsigned(len) == Number(n, "") && n != 0
    ensures Scoped([g] + (["masklen"] + ([len] + rest)), st, env)
            == AtValues(len, rest, AddScope(st.(scopedLen := n), NamedOrParsed(env, BeforeSlash(g)), env), env)
  {
    hide IsGroup, NamedOrParsed, LengthAfterSlash, BeforeSlash, WithScope, AtValues, Options, ScanUnsigned;
    assert ([g] + (["masklen"] + ([len] + rest)))[1..] == ["masklen"] + ([len] + rest);
    assert (["masklen"] + ([len] + rest))[2..] == rest;
  }

  lemma WholeWord(a: bv32)
    ensures BeforeSlash(InetFmt(a)) == InetFmt(a)
  {
    NoSlashInFmt(a);
    hide InetFmt;
    NoSlash(InetFmt(a));
  }

  lemma LineOver(st: State, env: Env)
    ensures Options([], st, env) == Outcome(st.s, true)
  {
  }

  /** The length in a word: 16 where no number is behind the slash, the one carried over where nothing is or there is no
      slash. */
  lemma LengthCases(a: string, t: string, len: nat)
    requires forall i :: 0 <= i < |a| ==> a[i] != '/'
    ensures BeforeSlash(a + "/" + t) == a && LengthAfterSlash(a, len) == len
    ensures LengthAfterSlash(a + "/" + t, len)
            == var r := ScanUnsigned(t); if r.Number? then r.n else if r.NoMatch? then 16 else len
  {
    SlashFound(a, t);
    NoSlash(a);
    hide ScanUnsigned;
    assert (a + "/" + t)[..|a|] == a && (a + "/" + t)[|a| + 1..] == t;
  }

  /** Any other word is passed over. */
  lemma UnknownSkipped(w: string, rest: seq<string>, st: State, env: Env)
    requires w !in ["disable", "enable", "igmpv2", "igmpv3", "altnet", "scoped", "ttl-threshold", "threshold", "distance",
                    "preference", "metric", "dr-priority"]
    ensures Options([w] + rest, st, env) == Options(rest, st, env)
  {
    assert ([w] + rest)[1..] == rest;
    assert Options([w] + rest, st, env) == AtScoped(w, rest, st, env);
    NotHidden(w, rest, st, env);
  }

  // ---------------------------------------------------------------- against the first pass

  predicate FlagWord(w: string) {
    w in ["disable", "enable", "igmpv2", "igmpv3"]
  }

  lemma SwitchBits(f: bv32)
    ensures Has(Disable(f), VIFF_DISABLED) && !Has(Enable(f), VIFF_DISABLED)
  {
  }

  lemma IgmpBits(f: bv32)
    ensures Has(IgmpV2(f), VIFF_DISABLED) == Has(f, VIFF_DISABLED)
    ensures Has(IgmpV3(f), VIFF_DISABLED) == Has(f, VIFF_DISABLED)
  {
    IgmpAre(f);
    OtherBits(f);
    DisabledBit(f);
    DisabledBit(IgmpV2(f));
    DisabledBit(IgmpV3(f));
    hide Has, IgmpV2, IgmpV3;
  }

  lemma IgmpAre(f: bv32)
    ensures IgmpV2(f) == (f & !0x2000) | 0x80_0000 && IgmpV3(f) == f & !0x2000 & !0x80_0000
  {
  }

  lemma DisabledBit(f: bv32)
    ensures Has(f, VIFF_DISABLED) == (f & 0x200 != 0)
  {
  }

  lemma OtherBits(f: bv32)
    ensures ((f & !0x2000) | 0x80_0000) & 0x200 == f & 0x200 && (f & !0x2000 & !0x80_0000) & 0x200 == f & 0x200
  {
  }

  /** The words that the second pass takes for options: those read at the top of the loop. */
  function Tops(ws: seq<string>, altnetLen: nat, scopedLen: nat, env: Env): seq<string>
    decreases |ws|
  {
    if ws == [] then []
    else [ws[0]] + match OneTurn(ws, altnetLen, scopedLen, env)
                   case Over => []
                   case Resume(rest, al, sl) => Tops(rest, al, sl, env)
  }

  lemma ValueTurnIs(w: string, ws: seq<string>, st: State, env: Env) returns (s: Settings)
    ensures s.flags == st.s.flags
    ensures var t := ValueTurn(w, ws, st.altnetLen, st.scopedLen);
            if t.Over? then AtValues(w, ws, st, env).s == s
            else AtValues(w, ws, st, env) == Options(t.ws, State(s, t.altnetLen, t.scopedLen), env)
  {
    hide Options, TakesValue, InRange, ValueOf;
    s := if TakesValue(w) && ws != [] then SetValue(w, ws[0], st.s) else st.s;
  }

  lemma ScopedTurnIs(w: string, ws: seq<string>, st: State, env: Env) returns (s: Settings)
    ensures s.flags == st.s.flags
    ensures var t := ScopedTurn(w, ws, st.altnetLen, st.scopedLen, env);
            if t.Over? then AtScoped(w, ws, st, env).s == s
            else AtScoped(w, ws, st, env) == Options(t.ws, State(s, t.altnetLen, t.scopedLen), env)
  {
    hide Options, AtValues, ReadNet, NewScope, MaskOf, ValueTurn;
    s := st.s;
    if w != "scoped" {
      s := ValueTurnIs(w, ws, st, env);
    } else if ws != [] && ReadNet(ws, st.scopedLen, Group, env).Net? {
      var r := ReadNet(ws, st.scopedLen, Group, env);
      if r.len != 0 { s := ValueTurnIs(r.w, r.rest, AddScope(st.(scopedLen := r.len), r.addr, env), env); }
    }
  }

  /** What a turn with any word but a flag word does: the flags stay. */
  lemma OneTurnIs(ws: seq<string>, st: State, env: Env) returns (s: Settings)
    requires ws != [] && !FlagWord(ws[0])
    ensures s.flags == st.s.flags
    ensures var t := OneTurn(ws, st.altnetLen, st.scopedLen, env);
            if t.Over? then Options(ws, st, env).s == s
            else Options(ws, st, env) == Options(t.ws, State(s, t.altnetLen, t.scopedLen), env)
  {
    hide AtScoped, ReadNet, NewAltnet, MaskOf, ScopedTurn;
    s := st.s;
    var w, rest := ws[0], ws[1..];
    if w != "altnet" {
      s := ScopedTurnIs(w, rest, st, env);
    } else {
      assert Options(ws, st, env) == Altnet(rest, st, env);
      if rest != [] && ReadNet(rest, st.altnetLen, Host, env).Net? {
        var r := ReadNet(rest, st.altnetLen, Host, env);
        s := ScopedTurnIs(r.w, r.rest, AddAltnet(st.(altnetLen := r.len), r.addr, env), env);
      }
    }
  }

  /** On every line: what the second pass makes of the disable flag is what the first pass's switch makes of the
      words taken for options. */
  lemma {:induction false} TopsDecide(ws: seq<string>, st: State, env: Env)
    ensures Has(Options(ws, st, env).s.flags, VIFF_DISABLED)
            == !Switch(Tops(ws, st.altnetLen, st.scopedLen, env), !Has(st.s.flags, VIFF_DISABLED))
    decreases |ws|
  {
    hide Has, Disable, Enable, IgmpV2, IgmpV3, AtScoped, Altnet, ReadNet, ScopedTurn;
    if ws != [] {
      var f, w, off := st.s.flags, ws[0], Has(st.s.flags, VIFF_DISABLED);
      var behind := Tops(ws, st.altnetLen, st.scopedLen, env)[1..];
      if FlagWord(w) {
        SwitchBits(f);
        IgmpBits(f);
        var f' := if w == "disable" then Disable(f) else if w == "enable" then Enable(f)
                  else if w == "igmpv2" then IgmpV2(f) else IgmpV3(f);
        TopsDecide(ws[1..], st.(s := st.s.(flags := f')), env);
      } else {
        var s := OneTurnIs(ws, st, env);
        var t := OneTurn(ws, st.altnetLen, st.scopedLen, env);
        if t.Resume? { TopsDecide(t.ws, State(s, t.altnetLen, t.scopedLen), env); }
      }
    }
  }

  /** The words without those that are values. */
  function WithoutValues(ws: seq<string>): seq<string> {
    if ws == [] then []
    else [ws[0]] + WithoutValues(if TakesValue(ws[0]) && |ws| > 1 then ws[2..] else ws[1..])
  }

  /** On a line without networks, the options are the words that are no values. */
  lemma {:induction false} TopsAreOptions(ws: seq<string>, altnetLen: nat, scopedLen: nat, env: Env)
    requires "altnet" !in ws && "scoped" !in ws
    ensures Tops(ws, altnetLen, scopedLen, env) == WithoutValues(ws)
    decreases |ws|
  {
    hide ReadNet, TakesValue;
    if ws != [] {
      if TakesValue(ws[0]) && |ws| > 1 {
        assert !FlagWord(ws[0]) by { ValueIsNoFlag(ws[0]); }
        TopsAreOptions(ws[2..], altnetLen, scopedLen, env);
        assert ws[1..][1..] == ws[2..];
      } else if |ws| > 1 {
        TopsAreOptions(ws[1..], altnetLen, scopedLen, env);
      }
    }
  }

  lemma ValueIsNoFlag(w: string)
    requires TakesValue(w)
    ensures !FlagWord(w)
  {
  }

  lemma {:induction false} AllFlagsAreOptions(ws: seq<string>, altnetLen: nat, scopedLen: nat, env: Env)
    requires forall w :: w in ws ==> FlagWord(w)
    ensures Tops(ws, altnetLen, scopedLen, env) == ws
    decreases |ws|
  {
    hide FlagWord, ScopedTurn;
    if ws != [] { AllFlagsAreOptions(ws[1..], altnetLen, scopedLen, env); }
  }

  /** In general they do not: the first pass takes every "disable" for the switch, the second one may read it as the
      value of another option. */
  lemma PassesDiffer(st: State, env: Env)
    ensures !Switch(["threshold", "disable"], true)
    ensures Options(["threshold", "disable"], st, env) == Outcome(st.s, true)
  {
    if ScanUnsigned("disable").Number? { NumberStart("disable"); }
    hide ScanUnsigned;
    var ws := ["threshold", "disable"];
    assert ws[1..] == ["disable"] && ["disable"][1..] == [];
    assert st.(s := st.s) == st;
    ValueStep("threshold", "disable", [], st, env);
    assert ["disable"] + [] == ["disable"];
  }
}
