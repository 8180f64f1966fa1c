/** parse_phyint itself: a cursor, the shared token buffer, and a vif record changed option by option. */
module PhyintParser {
  import opened Inet
  import opened Words
  import opened Vif
  import opened PhyintLines
  import opened PhyintOptions

  /** The settings a record holds. */
  ghost function SettingsOf(v: Uvif): Settings
    requires IsAcl(v.acl)
  {
    Settings(v.flags, v.threshold, v.localPref, v.localMetric, v.drPrio, v.addrs, Scopes(v.acl))
  }

  /** What the options leave alone. */
  ghost predicate SameElse(v: Uvif, v0: Uvif) {
    && v.metric == v0.metric && v.rateLimit == v0.rateLimit && v.lclAddr == v0.lclAddr && v.rmtAddr == v0.rmtAddr
    && v.dstAddr == v0.dstAddr && v.subnet == v0.subnet && v.subnetmask == v0.subnetmask
    && v.subnetbcast == v0.subnetbcast && v.name == v0.name && v.ifindex == v0.ifindex
  }

  function Names(vs: seq<Uvif>): (names: seq<Named>)
    ensures |names| == |vs| && forall i :: 0 <= i < |vs| ==> names[i] == Named(vs[i].name, vs[i].lclAddr)
  {
    seq(|vs|, i requires 0 <= i < |vs| => Named(vs[i].name, vs[i].lclAddr))
  }

  /** How a stretch of the loop body ends: back to the top, on to the next test, or out of the function. */
  datatype Next = Again | Onward | Fail

  /** ifname2addr */
  method IfName2Addr(t: VifTable, name: string) returns (addr: bv32)
    requires t.Valid()
    ensures addr == NameToAddr(Names(t.Vifs()), name)
  {
    ghost var names := Names(t.Vifs());
    assert names[0..] == names;
    for vifi := 0 to t.numvifs
      invariant NameToAddr(names, name) == NameToAddr(names[vifi..], name)
    {
      assert t.uvifs[vifi] == t.Vifs()[vifi];
      assert names[vifi..][0] == names[vifi] && names[vifi..][1..] == names[vifi + 1..];
      if t.uvifs[vifi].name == name {
        return t.uvifs[vifi].lclAddr;
      }
    }
    addr := 0;
  }

  method NamedOrParsedAddr(t: VifTable, w: string, ghost env: Env) returns (addr: bv32, named: bool)
    requires t.Valid() && env.names == Names(t.Vifs())
    ensures addr == NamedOrParsed(env, w) && named == (NameToAddr(env.names, w) != 0)
    ensures (named || InetValidHost(addr)) == IsHost(env, w)
    ensures (named || InMulticast(Ntohl(addr))) == IsGroup(env, w)
  {
    hide InetParse, InetValidHost, InMulticast, Ntohl;
    addr := IfName2Addr(t, w);
    named := addr != 0;
    if !named {
      addr := InetParse(w, 4);
    }
  }

  /** parse_prefix_len on the token buffer: the slash becomes the end of the token. */
  method ParsePrefixLen(lexer: Lexer, len: nat) returns (len': nat)
    requires lexer.Valid()
    modifies lexer.token
    ensures lexer.Text() == BeforeSlash(old(lexer.Text()))
    ensures len' == LengthAfterSlash(old(lexer.Text()), len)
  {
    hide ScanUnsigned;
    var w := lexer.Text();
    var masklen := SlashAt(w);
    len' := len;
    if masklen < |w| {
      var text := w[masklen + 1..];
      ghost var buf := lexer.token[..];
      lexer.token[masklen] := '\0';
      CutString(buf, masklen);
      assert lexer.token[..] == buf[masklen := '\0'];
      match ScanUnsigned(text) {
        case Number(n, _) => len' := n;
        case NoMatch => len' := DEFAULT_MASKLEN;
        case Eof =>
      }
    } else {
      assert w[..|w|] == w;
    }
  }

  lemma CutString(buf: seq<char>, k: nat)
    requires k < |CString(buf)|
    ensures CString(buf[k := '\0']) == CString(buf)[..k]
  {
    var cut := buf[k := '\0'];
    var n := Span(cut, Nul);
    assert Is(Nul, cut[k]);
    assert forall i :: 0 <= i < k ==> !Is(Nul, cut[i]) by {
      assert forall i :: 0 <= i < k ==> cut[i] == buf[i] && !Is(Nul, buf[i]);
    }
    assert n == k;
  }

  // ---------------------------------------------------------------- the options

  /** The look-ahead for "masklen": not there, and the cursor put back; there without a value; there with one. */
  datatype LookAhead = NotThere | NoValue | WithValue

  method LookForMasklen(lexer: Lexer, line: string, at: nat) returns (end: nat, r: LookAhead)
    requires lexer.Valid() && at <= |line|
    modifies lexer.token
    ensures at <= end <= |line|
    ensures var rest, behind := WordsOf(line[at..]), WordsOf(line[end..]);
            match r
            case NotThere => Word(rest, 0) != "masklen" && lexer.Text() == Word(rest, 0) && end == at
            case NoValue => Word(rest, 0) == "masklen" && |rest| == 1 && behind == []
            case WithValue => Word(rest, 0) == "masklen" && |rest| > 1 && lexer.Text() == rest[1] && behind == rest[2..]
  {
    hide WordsOf, CString;
    end := lexer.NextWord(line, at);
    if lexer.Text() != "masklen" {
      return at, NotThere;
    }
    ghost var behind := WordsOf(line[end..]);
    end := lexer.NextWord(line, end);
    if lexer.Text() == "" {
      return end, NoValue;
    }
    assert WordsOf(line[at..]) == ["masklen"] + ([lexer.Text()] + WordsOf(line[end..]));
    r := WithValue;
  }

  /** The words of a network, the first of them in the buffer already. */
  method ReadNetwork(t: VifTable, lexer: Lexer, line: string, at: nat, carried: nat, kind: Wanted, ghost env: Env)
    returns (end: nat, addr: bv32, len: nat, next: Next)
    requires t.Valid() && lexer.Valid() && at <= |line| && env.names == Names(t.Vifs())
    modifies lexer.token
    ensures at <= end <= |line|
    ensures ReadNet([old(lexer.Text())] + WordsOf(line[at..]), carried, kind, env) ==
              match next
              case Again => Skip(len, WordsOf(line[end..]))
              case Onward => Net(addr, len, lexer.Text(), WordsOf(line[end..]))
              case Fail => Bad
  {
    hide WordsOf, ScanUnsigned, CString, LengthAfterSlash, BeforeSlash, IsHost, IsGroup, NamedOrParsed;
    hide InMulticast, Ntohl, InetValidHost;
    assert ([lexer.Text()] + WordsOf(line[at..]))[1..] == WordsOf(line[at..]);
    len := ParsePrefixLen(lexer, carried);
    var named;
    addr, named := NamedOrParsedAddr(t, lexer.Text(), env);
    end := at;
    if !named && (if kind == Host then !InetValidHost(addr) else !InMulticast(Ntohl(addr))) {
      next := Fail;
      return;
    }
    var ahead;
    end, ahead := LookForMasklen(lexer, line, at);
    if ahead == NoValue {
      next := Again;
      return;
    }
    if ahead == WithValue {
      var r := ScanUnsigned(lexer.Text());
      if r.NoMatch? || (r.Eof? && kind == Group) {
        next := Again;
        return;
      }
      if r.Number? {
        len := r.n;
      }
    }
    next := Onward;
  }

  lemma AltnetAdded(v: Uvif, altnetLen: nat, scopedLen: nat, addr: bv32, env: Env)
    requires IsAcl(v.acl) && env.subnetmask == v.subnetmask
    ensures var mask := if altnetLen != 0 then MaskOf(altnetLen, env.undefined) else v.subnetmask;
            State(SettingsOf(v.(addrs := [NewAltnet(addr, mask)] + v.addrs)), altnetLen, scopedLen)
            == AddAltnet(State(SettingsOf(v), altnetLen, scopedLen), addr, env)
  {
    hide NewAltnet, MaskOf;
  }

  lemma ScopeAdded(v: Uvif, acl: VifAcl, altnetLen: nat, scopedLen: nat, addr: bv32, env: Env)
    requires IsAcl(v.acl) && IsAcl(acl) && acl.next == v.acl && acl.scope == NewScope(addr, MaskOf(scopedLen, env.undefined))
    ensures State(SettingsOf(v.(acl := acl)), altnetLen, scopedLen)
            == AddScope(State(SettingsOf(v), altnetLen, scopedLen), addr, env)
  {
    hide NewScope, MaskOf;
  }

  /** From "altnet" on: the words behind it, up to where the tests for other options go on. */
  method AltnetOption(t: VifTable, lexer: Lexer, line: string, at: nat, v: Uvif, altnetLen: nat, ghost scopedLen: nat,
                      undefined: nat -> bv32, ghost env: Env)
    returns (end: nat, v': Uvif, len: nat, next: Next)
    requires t.Valid() && lexer.Valid() && at <= |line| && IsAcl(v.acl)
    requires env == Env(Names(t.Vifs()), v.subnetmask, undefined)
    modifies lexer.token
    ensures at <= end <= |line| && v'.acl == v.acl && SameElse(v', v)
    ensures var st, st' := State(SettingsOf(v), altnetLen, scopedLen), State(SettingsOf(v'), len, scopedLen);
            Altnet(WordsOf(line[at..]), st, env) ==
              match next
              case Again => Options(WordsOf(line[end..]), st', env)
              case Onward => AtScoped(lexer.Text(), WordsOf(line[end..]), st', env)
              case Fail => Outcome(st'.s, false)
  {
    hide WordsOf, CString, AtScoped, AddAltnet, NewAltnet, MaskOf, SettingsOf, VifAcl.Valid, ReadNet;
    v', len, next := v, altnetLen, Again;
    end := lexer.NextWord(line, at);
    if lexer.Text() == "" {
      return;
    }
    var addr;
    end, addr, len, next := ReadNetwork(t, lexer, line, end, len, Host, env);
    if next == Onward {
      AltnetAdded(v, len, scopedLen, addr, env);
      v' := v.(addrs := [NewAltnet(addr, if len != 0 then MaskOf(len, undefined) else v.subnetmask)] + v.addrs);
    }
  }

  /** From "scoped" on. */
  method ScopedOption(t: VifTable, lexer: Lexer, line: string, at: nat, v: Uvif, ghost altnetLen: nat, scopedLen: nat,
                      undefined: nat -> bv32, ghost env: Env)
    returns (end: nat, v': Uvif, len: nat, next: Next)
    requires t.Valid() && lexer.Valid() && at <= |line| && IsAcl(v.acl)
    requires env == Env(Names(t.Vifs()), v.subnetmask, undefined)
    modifies lexer.token
    ensures at <= end <= |line| && IsAcl(v'.acl) && SameElse(v', v)
    ensures v'.acl != v.acl ==> v'.acl != null && fresh(v'.acl) && v'.acl.next == v.acl
    ensures var st, st' := State(SettingsOf(v), altnetLen, scopedLen), State(SettingsOf(v'), altnetLen, len);
            Scoped(WordsOf(line[at..]), st, env) ==
              match next
              case Again => Options(WordsOf(line[end..]), st', env)
              case Onward => AtValues(lexer.Text(), WordsOf(line[end..]), st', env)
              case Fail => Outcome(st'.s, false)
  {
    hide WordsOf, CString, AtValues, AddScope, NewScope, MaskOf, SettingsOf, VifAcl.Valid, ReadNet;
    v', len, next := v, scopedLen, Again;
    end := lexer.NextWord(line, at);
    if lexer.Text() == "" {
      return;
    }
    var addr;
    end, addr, len, next := ReadNetwork(t, lexer, line, end, len, Group, env);
    if next == Onward {
      if len == 0 {
        next := Again;
        return;
      }
      var acl := new VifAcl(NewScope(addr, MaskOf(len, undefined)), v.acl);
      ScopeAdded(v, acl, altnetLen, len, addr, env);
      v' := v.(acl := acl);
    }
  }

  /** From "threshold" on. */
  method ValueOption(lexer: Lexer, line: string, at: nat, v: Uvif, ghost altnetLen: nat, ghost scopedLen: nat, ghost env: Env)
    returns (end: nat, v': Uvif)
    requires lexer.Valid() && at <= |line| && IsAcl(v.acl)
    modifies lexer.token
    ensures at <= end <= |line| && IsAcl(v'.acl) && v'.acl == v.acl && SameElse(v', v)
    ensures var st, st' := State(SettingsOf(v), altnetLen, scopedLen), State(SettingsOf(v'), altnetLen, scopedLen);
            AtValues(old(lexer.Text()), WordsOf(line[at..]), st, env) == Options(WordsOf(line[end..]), st', env)
  {
    hide WordsOf, ScanUnsigned, CString, SetValue, TakesValue, AtScoped, Altnet;
    var w := lexer.Text();
    end, v' := at, v;
    if !TakesValue(w) {
      return;
    }
    end := lexer.NextWord(line, at);
    var value := lexer.Text();
    if value == "" {
      return;
    }
    v' := StoreValue(w, value, v);
  }

  method StoreValue(w: string, value: string, v: Uvif) returns (v': Uvif)
    requires TakesValue(w) && IsAcl(v.acl)
    ensures v'.acl == v.acl && SameElse(v', v) && SettingsOf(v') == SetValue(w, value, SettingsOf(v))
  {
    hide InRange, ValueOf, VifAcl.Valid, Scopes, Nodes;
    v' := v;
    if w == "ttl-threshold" || w == "threshold" {
      if InRange(value, 1, 255) {
        v' := v'.(threshold := ValueOf(value));
      }
    } else if w == "distance" || w == "preference" {
      if InRange(value, 1, 255) {
        v' := v'.(localPref := ValueOf(value));
      }
    } else if w == "metric" {
      if InRange(value, 1, 1024) {
        v' := v'.(localMetric := ValueOf(value));
      }
    } else {
      if InRange(value, 1, 4294967294) {
        v' := v'.(drPrio := ValueOf(value));
      }
    }
  }

  lemma FlagWordStep(w: string, rest: seq<string>, v: Uvif, flags: bv32, altnetLen: nat, scopedLen: nat, env: Env)
    requires IsAcl(v.acl) && FlagWord(w)
    requires flags == if w == "disable" then Disable(v.flags) else if w == "enable" then Enable(v.flags)
                      else if w == "igmpv2" then IgmpV2(v.flags) else IgmpV3(v.flags)
    ensures Options([w] + rest, State(SettingsOf(v), altnetLen, scopedLen), env)
            == Options(rest, State(SettingsOf(v.(flags := flags)), altnetLen, scopedLen), env)
    ensures SameElse(v.(flags := flags), v)
  {
    hide Disable, Enable, IgmpV2, IgmpV3, Scopes, AtScoped, Altnet, VifAcl.Valid;
    assert ([w] + rest)[1..] == rest;
  }

  lemma OtherWordStep(w: string, rest: seq<string>, st: State, env: Env)
    requires !FlagWord(w)
    ensures Options([w] + rest, st, env) == if w == "altnet" then Altnet(rest, st, env) else AtScoped(w, rest, st, env)
  {
    hide AtScoped, Altnet;
    assert ([w] + rest)[1..] == rest;
  }

  /** The body of parse_phyint's option loop, the option's name being in the buffer. */
  method OneOption(t: VifTable, lexer: Lexer, line: string, at: nat, v: Uvif, altnetLen: nat, scopedLen: nat,
                   undefined: nat -> bv32, ghost env: Env)
    returns (end: nat, v': Uvif, altnetLen': nat, scopedLen': nat, ok: bool)
    requires t.Valid() && lexer.Valid() && at <= |line| && IsAcl(v.acl)
    requires env == Env(Names(t.Vifs()), v.subnetmask, undefined)
    modifies lexer.token
    ensures at <= end <= |line| && IsAcl(v'.acl) && SameElse(v', v)
    ensures v'.acl != v.acl ==> v'.acl != null && fresh(v'.acl) && v'.acl.next == v.acl
    ensures var st, st' := State(SettingsOf(v), altnetLen, scopedLen), State(SettingsOf(v'), altnetLen', scopedLen');
            Options([old(lexer.Text())] + WordsOf(line[at..]), st, env)
            == if ok then Options(WordsOf(line[end..]), st', env) else Outcome(st'.s, false)
  {
    hide WordsOf, CString, Options, AtScoped, AtValues, Altnet, Scoped, SettingsOf, VifAcl.Valid;
    hide Disable, Enable, IgmpV2, IgmpV3, FlagWord, SameElse;
    SameElseSelf(v);
    var w := lexer.Text();
    end, v', altnetLen', scopedLen', ok := at, v, altnetLen, scopedLen, true;
    if FlagWord(w) {
      var flags := if w == "disable" then Disable(v.flags) else if w == "enable" then Enable(v.flags)
                   else if w == "igmpv2" then IgmpV2(v.flags) else IgmpV3(v.flags);
      FlagWordStep(w, WordsOf(line[at..]), v, flags, altnetLen, scopedLen, env);
      v' := v.(flags := flags);
      return;
    }
    OtherWordStep(w, WordsOf(line[at..]), State(SettingsOf(v), altnetLen, scopedLen), env);
    if w == "altnet" {
      var next;
      end, v', altnetLen', next := AltnetOption(t, lexer, line, at, v, altnetLen, scopedLen, undefined, env);
      ok := next != Fail;
      if next != Onward {
        return;
      }
      SameMask(v', v);
    }
    ghost var u := v';
    AtScopedStep(lexer.Text(), WordsOf(line[end..]), State(SettingsOf(v'), altnetLen', scopedLen'), env);
    if lexer.Text() == "scoped" {
      var next;
      end, v', scopedLen', next := ScopedOption(t, lexer, line, end, v', altnetLen', scopedLen', undefined, env);
      SameElseChain(v', u, v);
      u := v';
      ok := next != Fail;
      if next != Onward {
        return;
      }
    }
    end, v' := ValueOption(lexer, line, end, v', altnetLen', scopedLen', env);
    SameElseChain(v', u, v);
  }

  /** The option loop of parse_phyint on the record of the vif. */
  method ParseOptions(t: VifTable, lexer: Lexer, line: string, start: nat, v0: Uvif, undefined: nat -> bv32)
    returns (v: Uvif, ok: bool)
    requires t.Valid() && lexer.Valid() && start <= |line| && IsAcl(v0.acl)
    modifies lexer.token
    ensures IsAcl(v.acl) && SameElse(v, v0)
    ensures forall a :: a in Nodes(v.acl) ==> a in Nodes(v0.acl) || fresh(a)
    ensures Options(WordsOf(line[start..]), State(SettingsOf(v0), 0, 0), Env(Names(t.Vifs()), v0.subnetmask, undefined))
            == Outcome(SettingsOf(v), ok)
  {
    hide WordsOf, CString, Options, SettingsOf, VifAcl.Valid, SameElse, Nodes;
    ghost var env := Env(Names(t.Vifs()), v0.subnetmask, undefined);
    v, ok := v0, true;
    SameElseSelf(v0);
    var at, altnetLen, scopedLen := start, 0, 0;
    while true
      invariant at <= |line| && IsAcl(v.acl) && SameElse(v, v0) && ok
      invariant forall a :: a in Nodes(v.acl) ==> a in Nodes(v0.acl) || fresh(a)
      invariant Options(WordsOf(line[at..]), State(SettingsOf(v), altnetLen, scopedLen), env)
                == Options(WordsOf(line[start..]), State(SettingsOf(v0), 0, 0), env)
      decreases |line| - at
    {
      at := lexer.NextWord(line, at);
      if lexer.Text() == "" {
        OptionsEnd(State(SettingsOf(v), altnetLen, scopedLen), env);
        return;
      }
      ghost var before := v;
      SameMask(v, v0);
      at, v, altnetLen, scopedLen, ok := OneOption(t, lexer, line, at, v, altnetLen, scopedLen, undefined, env);
      NodesGrow(v.acl, before.acl);
      SameElseChain(v, before, v0);
      if !ok {
        return;
      }
    }
  }

  lemma SameElseSelf(v: Uvif)
    ensures SameElse(v, v)
  {
  }

  lemma SameMask(v: Uvif, v0: Uvif)
    requires SameElse(v, v0)
    ensures v.subnetmask == v0.subnetmask
  {
  }

  lemma SameElseChain(v: Uvif, u: Uvif, v0: Uvif)
    requires SameElse(v, u) && SameElse(u, v0)
    ensures SameElse(v, v0)
  {
  }

  lemma OptionsEnd(st: State, env: Env)
    ensures Options([], st, env) == Outcome(st.s, true)
  {
  }

  lemma AtScopedStep(w: string, ws: seq<string>, st: State, env: Env)
    ensures AtScoped(w, ws, st, env) == if w == "scoped" then Scoped(ws, st, env) else AtValues(w, ws, st, env)
  {
  }

  lemma NodesGrow(p: VifAcl?, q: VifAcl?)
    requires IsAcl(p) && IsAcl(q) && (p == q || (p != null && p.next == q))
    ensures forall a :: a in Nodes(p) ==> a == p || a in Nodes(q)
  {
    if p != q { assert p.nodes == [p] + Nodes(q); }
  }
}
