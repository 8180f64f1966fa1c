/** The second pass over the configuration file: parse_phyint on each phyint line, over the whole table. */
module VifFile {
  import opened Inet
  import opened Words
  import opened Vif
  import opened IfList
  import opened PhyintLines
  import opened PhyintOptions
  import opened PhyintParser
  import opened VifLife

  // ---------------------------------------------------------------- the table as settings

  /** What no line of the file changes: the vifs' names, addresses and subnet masks. */
  datatype Fixed = Fixed(names: seq<Named>, masks: seq<bv32>, undefined: nat -> bv32) {
    predicate Fits(ss: seq<Settings>) { |ss| == |names| == |masks| }
  }

  ghost predicate AllAcls(vs: seq<Uvif>) {
    forall i :: 0 <= i < |vs| ==> IsAcl(vs[i].acl)
  }

  ghost function AllSettings(vs: seq<Uvif>): (ss: seq<Settings>)
    requires AllAcls(vs)
    ensures |ss| == |vs| && forall i :: 0 <= i < |vs| ==> ss[i] == SettingsOf(vs[i])
  {
    seq(|vs|, i requires 0 <= i < |vs| => SettingsOf(vs[i]))
  }

  ghost function FixedOf(vs: seq<Uvif>, undefined: nat -> bv32): (x: Fixed)
    ensures |x.names| == |x.masks| == |vs|
  {
    Fixed(Names(vs), seq(|vs|, i requires 0 <= i < |vs| => vs[i].subnetmask), undefined)
  }

  ghost predicate SameElseAll(vs: seq<Uvif>, vs0: seq<Uvif>) {
    |vs| == |vs0| && forall i :: 0 <= i < |vs| ==> SameElse(vs[i], vs0[i])
  }

  /** The first vif with the address `addr`, or the number of vifs. */
  function VifWith(names: seq<Named>, addr: bv32): (i: nat)
    ensures i <= |names| && (i < |names| ==> names[i].addr == addr)
    ensures forall j :: 0 <= j < i ==> names[j].addr != addr
  {
    if names == [] || names[0].addr == addr then 0 else 1 + VifWith(names[1..], addr)
  }

  /** parse_phyint on the words behind "phyint".  A line for an address that no vif has is passed over in silence:
      the code's test for that case can never succeed. */
  function PhyintLine(ss: seq<Settings>, ws: seq<string>, x: Fixed): (r: (seq<Settings>, bool))
    requires x.Fits(ss)
    ensures x.Fits(r.0)
  {
    if ws == [] || !IsHost(Env(x.names, 0, x.undefined), ws[0]) then (ss, false)
    else
      var i := VifWith(x.names, NamedOrParsed(Env(x.names, 0, x.undefined), ws[0]));
      if i == |ss| then (ss, true)
      else
        var o := Options(ws[1..], State(ss[i], 0, 0), Env(x.names, x.masks[i], x.undefined));
        (ss[i := o.s], o.ok)
  }

  /** config_vifs_from_file */
  function ReadFile(ss: seq<Settings>, file: seq<string>, x: Fixed): (r: seq<Settings>)
    requires x.Fits(ss)
    ensures x.Fits(r)
  {
    if file == [] then ss
    else
      var n := |file| - 1;
      var before, ws := ReadFile(ss, file[..n], x), WordsOf(file[n]);
      if IsPhyint(ws) then PhyintLine(before, From(ws, 1), x).0 else before
  }

  /** Exactly these lines are rejected: one without an interface word, one whose interface word is neither a vif's name
      nor a host's address, one whose options fail on the vif found.  A host's address that no vif has is accepted, and
      nothing changes. */
  lemma RejectedIff(ss: seq<Settings>, ws: seq<string>, x: Fixed)
    requires x.Fits(ss)
    ensures var env := Env(x.names, 0, x.undefined);
            var named := ws != [] && IsHost(env, ws[0]);
            var i := if named then VifWith(x.names, NamedOrParsed(env, ws[0])) else |ss|;
            && (!PhyintLine(ss, ws, x).1
                <==> !named || (i < |ss| && !Options(ws[1..], State(ss[i], 0, 0), Env(x.names, x.masks[i], x.undefined)).ok))
            && (named && (forall j :: 0 <= j < |ss| ==> x.names[j].addr != NamedOrParsed(env, ws[0]))
                ==> PhyintLine(ss, ws, x) == (ss, true))
  {
    hide IsHost, NamedOrParsed, Options;
  }

  // ---------------------------------------------------------------- what every file keeps

  ghost predicate AllOk(ss: seq<Settings>, others: seq<bv32>) {
    |ss| == |others| && forall i :: 0 <= i < |ss| ==> SettingsOk(ss[i], others[i])
  }

  lemma PhyintLineKeeps(ss: seq<Settings>, ws: seq<string>, x: Fixed, others: seq<bv32>)
    requires x.Fits(ss) && AllOk(ss, others)
    ensures AllOk(PhyintLine(ss, ws, x).0, others)
  {
    hide SettingsOk, Options, IsHost, NamedOrParsed;
    if ws != [] {
      var i := VifWith(x.names, NamedOrParsed(Env(x.names, 0, x.undefined), ws[0]));
      if i < |ss| {
        OptionsKeep(ws[1..], State(ss[i], 0, 0), Env(x.names, x.masks[i], x.undefined), others[i]);
      }
    }
  }

  /** Whatever the file says, every vif keeps its settings in range and the flags that no option is about. */
  lemma {:induction false} ReadFileKeeps(ss: seq<Settings>, file: seq<string>, x: Fixed, others: seq<bv32>)
    requires x.Fits(ss) && AllOk(ss, others)
    ensures AllOk(ReadFile(ss, file, x), others)
  {
    hide AllOk, PhyintLine, WordsOf, IsPhyint;
    if file != [] {
      var n := |file| - 1;
      ReadFileKeeps(ss, file[..n], x, others);
      PhyintLineKeeps(ReadFile(ss, file[..n], x), From(WordsOf(file[n]), 1), x, others);
    }
  }

  // ---------------------------------------------------------------- who is disabled in the end

  /** A phyint line is about vif `i`. */
  predicate About(ws: seq<string>, i: nat, x: Fixed) {
    var env := Env(x.names, 0, x.undefined);
    IsPhyint(ws) && |ws| > 1 && IsHost(env, ws[1]) && VifWith(x.names, NamedOrParsed(env, ws[1])) == i
  }

  /** The words of a line about vif `i` that are taken for options. */
  function LineTops(ws: seq<string>, i: nat, x: Fixed): seq<string>
    requires i < |x.masks|
  {
    Tops(From(ws, 2), 0, 0, Env(x.names, x.masks[i], x.undefined))
  }

  /** Those of all the lines about vif `i`, in file order. */
  function OptionsAbout(file: seq<string>, i: nat, x: Fixed): seq<string>
    requires i < |x.masks|
  {
    if file == [] then []
    else
      var n := |file| - 1;
      var ws := WordsOf(file[n]);
      OptionsAbout(file[..n], i, x) + if About(ws, i, x) then LineTops(ws, i, x) else []
  }

  lemma {:induction false} SwitchAppend(a: seq<string>, b: seq<string>, enabled: bool)
    ensures Switch(a + b, enabled) == Switch(b, Switch(a, enabled))
  {
    if a == [] {
      assert a + b == b;
    } else {
      assert (a + b)[1..] == a[1..] + b;
      SwitchAppend(a[1..], b, if a[0] == "disable" then false else if a[0] == "enable" then true else enabled);
    }
  }

  lemma LineSwitches(ss: seq<Settings>, ws: seq<string>, i: nat, x: Fixed)
    requires x.Fits(ss) && i < |ss| && IsPhyint(ws)
    ensures Has(PhyintLine(ss, From(ws, 1), x).0[i].flags, VIFF_DISABLED)
            == if About(ws, i, x) then !Switch(LineTops(ws, i, x), !Has(ss[i].flags, VIFF_DISABLED))
               else Has(ss[i].flags, VIFF_DISABLED)
  {
    hide Has, Options, IsHost, NamedOrParsed, Switch, Tops;
    assert |ws| > 0;
    if |ws| > 1 {
      assert From(ws, 1)[0] == ws[1] && From(ws, 1)[1..] == From(ws, 2);
      if About(ws, i, x) {
        TopsDecide(From(ws, 2), State(ss[i], 0, 0), Env(x.names, x.masks[i], x.undefined));
      }
    }
  }

  /** Over any file, a vif ends up disabled exactly when "disable" is the last enable/disable word among the words
      taken for options on all the lines about it (or it was disabled before and there is none). */
  lemma {:induction false} DisabledInTheEnd(ss: seq<Settings>, file: seq<string>, i: nat, x: Fixed)
    requires x.Fits(ss) && i < |ss|
    ensures Has(ReadFile(ss, file, x)[i].flags, VIFF_DISABLED)
            == !Switch(OptionsAbout(file, i, x), !Has(ss[i].flags, VIFF_DISABLED))
    ensures Has(ReadFile(ss, file, x)[i].flags, VIFF_DISABLED)
            <==> EndsDisabled(OptionsAbout(file, i, x), 0)
                 || (Has(ss[i].flags, VIFF_DISABLED) && "enable" !in OptionsAbout(file, i, x))
  {
    hide Has, PhyintLine, WordsOf, IsPhyint, About, EndsDisabled, LineTops;
    if file != [] {
      var n := |file| - 1;
      var ws := WordsOf(file[n]);
      var before := ReadFile(ss, file[..n], x);
      DisabledInTheEnd(ss, file[..n], i, x);
      if IsPhyint(ws) {
        LineSwitches(before, ws, i, x);
      } else {
        NotAbout(ws, i, x);
      }
      SwitchAppend(OptionsAbout(file[..n], i, x), LineTops(ws, i, x), !Has(ss[i].flags, VIFF_DISABLED));
      assert OptionsAbout(file[..n], i, x) + [] == OptionsAbout(file[..n], i, x);
    }
    SwitchIs(OptionsAbout(file, i, x), !Has(ss[i].flags, VIFF_DISABLED));
  }

  lemma NotAbout(ws: seq<string>, i: nat, x: Fixed)
    requires !IsPhyint(ws)
    ensures !About(ws, i, x)
  {
  }

  // ---------------------------------------------------------------- when the two passes agree

  predicate SaysSwitch(ws: seq<string>) {
    "enable" in ws || "disable" in ws
  }

  /** The first pass on the interface: what the words of the last line matching it say, "enable" or not; without such
      a line, that it is enabled. */
  predicate FirstSaysEnable(file: seq<string>, name: string, addr: bv32) {
    file == [] ||
      if LineMatches(file[|file| - 1], name, addr) then Switch(From(WordsOf(file[|file| - 1]), 2), true)
      else FirstSaysEnable(file[..|file| - 1], name, addr)
  }

  /** The second pass on vif `i`: what the options say on the last line about it that has "enable" or "disable" among
      its options; without such a line, that it is enabled. */
  predicate SecondSaysEnable(file: seq<string>, i: nat, x: Fixed)
    requires i < |x.masks|
  {
    if file == [] then true
    else
      var ws := WordsOf(file[|file| - 1]);
      if About(ws, i, x) && SaysSwitch(LineTops(ws, i, x)) then Switch(LineTops(ws, i, x), true)
      else SecondSaysEnable(file[..|file| - 1], i, x)
  }

  lemma {:induction false} SwitchForgets(ws: seq<string>, enabled: bool)
    ensures Switch(ws, enabled) == if SaysSwitch(ws) then Switch(ws, true) else enabled
  {
    if ws != [] {
      SwitchForgets(ws[1..], if ws[0] == "disable" then false else if ws[0] == "enable" then true else enabled);
      SwitchForgets(ws[1..], if ws[0] == "disable" then false else true);
    }
  }

  lemma {:induction false} FirstPassIs(file: seq<string>, name: string, addr: bv32)
    ensures Disabled(Entries(file), name, addr) == !FirstSaysEnable(file, name, addr)
  {
    hide WordsOf, Disabled, LineMatches, SaysDisable, Entries;
    if file == [] {
      NothingDisabled(name, addr);
    } else {
      LastLine(file, name, addr);
      WordsDisable(file[|file| - 1]);
      FirstPassIs(file[..|file| - 1], name, addr);
    }
  }

  lemma {:induction false} SecondPassIs(file: seq<string>, i: nat, x: Fixed)
    requires i < |x.masks|
    ensures Switch(OptionsAbout(file, i, x), true) == SecondSaysEnable(file, i, x)
  {
    hide WordsOf, About, LineTops, SaysSwitch;
    if file != [] {
      var n := |file| - 1;
      var ws, before := WordsOf(file[n]), OptionsAbout(file[..n], i, x);
      SecondPassIs(file[..n], i, x);
      if About(ws, i, x) {
        SwitchAppend(before, LineTops(ws, i, x), true);
        SwitchForgets(LineTops(ws, i, x), Switch(before, true));
      } else {
        assert before + [] == before;
      }
    }
  }

  lemma NothingDisabled(name: string, addr: bv32)
    ensures !Disabled(Entries([]), name, addr)
  {
  }

  lemma WordsDisable(line: string)
    ensures SaysDisable(line) <==> !Switch(From(WordsOf(line), 2), true)
  {
    var ws := WordsOf(line);
    hide WordsOf;
    SwitchIs(From(ws, 2), true);
    if |ws| >= 2 { EndsShifted(ws, 2); }
  }

  /** Over any file: the first pass skips the interface exactly when the second disables its vif, if and only if those
      two lines say the same. */
  lemma PassesAgreeIff(ss: seq<Settings>, file: seq<string>, name: string, addr: bv32, i: nat, x: Fixed)
    requires x.Fits(ss) && i < |ss| && !Has(ss[i].flags, VIFF_DISABLED)
    ensures (Disabled(Entries(file), name, addr) <==> Has(ReadFile(ss, file, x)[i].flags, VIFF_DISABLED))
            <==> FirstSaysEnable(file, name, addr) == SecondSaysEnable(file, i, x)
  {
    DisabledInTheEnd(ss, file, i, x);
    FirstPassIs(file, name, addr);
    SecondPassIs(file, i, x);
    hide *;
  }

  // ---------------------------------------------------------------- when the same lines are about both

  /** For both passes the same lines are about the interface and its vif. */
  predicate SameLines(file: seq<string>, name: string, addr: bv32, i: nat, x: Fixed) {
    forall line :: line in file ==> (LineMatches(line, name, addr) <==> About(WordsOf(line), i, x))
  }

  predicate NamesVif(t: string, names: seq<Named>) {
    exists j :: 0 <= j < |names| && names[j].name == t
  }

  /** The two passes take an interface word differently, so far as vif `i` is concerned.  A word that starts with a digit
      is an address for the first pass, even if it is a vif's name; any other is a name, even if it can be read as an
      address, as "+10.0.0.1" can.  (An address that is no host's, or all ones, is a third cause.) */
  predicate Misread(t: string, i: nat, names: seq<Named>)
    requires i < |names|
  {
    var addr := names[i].addr;
    if t != "" && IsDigit(t[0]) then
      if NamesVif(t, names) then (t == names[i].name) != (InetParse(t, 4) == addr != 0xffff_ffff)
      else InetParse(t, 4) == addr != 0xffff_ffff && !InetValidHost(addr)
    else !NamesVif(t, names) && InetParse(t, 4) == addr && InetValidHost(addr)
  }

  /** Vif `i` alone has its name and its address; names fit, and no vif has the address 0. */
  ghost predicate OneOfAKind(i: nat, names: seq<Named>) {
    && i < |names| && 0 < |names[i].name| < IFNAMSIZ
    && (forall j :: 0 <= j < |names| && j != i ==> names[j].name != names[i].name && names[j].addr != names[i].addr)
    && (forall j :: 0 <= j < |names| ==> names[j].addr != 0)
  }

  lemma {:induction false} NameToAddrIs(names: seq<Named>, name: string) returns (j: nat)
    ensures j <= |names| && (forall k :: 0 <= k < j ==> names[k].name != name)
    ensures if j == |names| then NameToAddr(names, name) == 0
            else names[j].name == name && NameToAddr(names, name) == names[j].addr
  {
    if names == [] || names[0].name == name {
      j := 0;
    } else {
      var k := NameToAddrIs(names[1..], name);
      j := k + 1;
    }
  }

  /** Whether a phyint line with an interface word is about the vif, for the second pass. */
  lemma AboutIff(ws: seq<string>, i: nat, x: Fixed)
    requires OneOfAKind(i, x.names) && IsPhyint(ws) && |ws| > 1
    ensures About(ws, i, x)
            <==> if NamesVif(ws[1], x.names) then ws[1] == x.names[i].name
                 else InetParse(ws[1], 4) == x.names[i].addr && InetValidHost(x.names[i].addr)
  {
    hide InetValidHost, InetParse, NameToAddr;
    var j := NameToAddrIs(x.names, ws[1]);
    assert NamesVif(ws[1], x.names) <==> j < |x.names|;
  }

  /** And whether the first pass matches it with the interface. */
  lemma MatchesIff(ws: seq<string>, name: string, addr: bv32)
    requires 0 < |name| < IFNAMSIZ && |ws| > 1
    ensures Matches(EntryOf(ws), name, addr)
            <==> if ws[1] != "" && '0' <= ws[1][0] <= '9' then InetParse(ws[1], 4) == addr && addr != 0 && addr != 0xffff_ffff
                 else ws[1] == name
  {
    hide InetParse, Switch;
  }

  /** Exactly the misread words make a line be about the one and not the other. */
  lemma SameLineIff(line: string, i: nat, x: Fixed)
    requires OneOfAKind(i, x.names)
    ensures var ws, v := WordsOf(line), x.names[i];
            (LineMatches(line, v.name, v.addr) <==> About(ws, i, x))
            <==> !(IsPhyint(ws) && |ws| > 1 && Misread(ws[1], i, x.names))
  {
    var ws, v := WordsOf(line), x.names[i];
    hide WordsOf, InetValidHost, InetParse, IsDigit, NamesVif;
    if IsPhyint(ws) {
      if |ws| > 1 {
        AboutIff(ws, i, x);
        MatchesIff(ws, v.name, v.addr);
        hide EntryOf, Matches, About;
      } else {
        NoToken(ws, v.name, v.addr);
      }
    }
  }

  lemma NoToken(ws: seq<string>, name: string, addr: bv32)
    requires |ws| == 1 && name != "" && addr != 0
    ensures !Matches(EntryOf(ws), name, addr)
  {
    hide InetParse, Switch;
  }

  /** So on a file without misread words both passes take the same lines to be about the vif. */
  lemma SameLinesIff(file: seq<string>, i: nat, x: Fixed)
    requires OneOfAKind(i, x.names)
    ensures SameLines(file, x.names[i].name, x.names[i].addr, i, x)
            <==> forall line :: line in file && IsPhyint(WordsOf(line)) && |WordsOf(line)| > 1 ==>
                   !Misread(WordsOf(line)[1], i, x.names)
  {
    hide WordsOf, Misread, LineMatches, About, IsPhyint;
    forall line | line in file
      ensures (LineMatches(line, x.names[i].name, x.names[i].addr) <==> About(WordsOf(line), i, x))
              <==> !(IsPhyint(WordsOf(line)) && |WordsOf(line)| > 1 && Misread(WordsOf(line)[1], i, x.names))
    {
      SameLineIff(line, i, x);
    }
  }

  /** Where the same lines are about both, agreement is up to the last of them.  If one of its options is "enable" or
      "disable", the options must come to the same as all its words do; if none is, its words must come to the same as
      the lines before it. */
  predicate LastLineFits(file: seq<string>, i: nat, x: Fixed)
    requires i < |x.masks|
  {
    if file == [] then true
    else
      var n := |file| - 1;
      var ws := WordsOf(file[n]);
      if !About(ws, i, x) then LastLineFits(file[..n], i, x)
      else Switch(From(ws, 2), true)
           == if SaysSwitch(LineTops(ws, i, x)) then Switch(LineTops(ws, i, x), true)
              else Switch(OptionsAbout(file[..n], i, x), true)
  }

  lemma {:induction false} LastLineDecides(file: seq<string>, name: string, addr: bv32, i: nat, x: Fixed)
    requires i < |x.masks| && SameLines(file, name, addr, i, x)
    ensures FirstSaysEnable(file, name, addr) == SecondSaysEnable(file, i, x) <==> LastLineFits(file, i, x)
  {
    hide WordsOf, About, LineTops, LineMatches, SaysSwitch;
    if file != [] {
      var n := |file| - 1;
      assert file[n] in file;
      if About(WordsOf(file[n]), i, x) {
        SecondPassIs(file[..n], i, x);
      } else {
        LastLineDecides(file[..n], name, addr, i, x);
      }
    }
  }

  /** Where the last line about the vif only sets flags, the passes disagree exactly when it has neither "enable" nor
      "disable" and the lines before it leave the vif disabled. */
  lemma FlagLineFits(file: seq<string>, i: nat, x: Fixed)
    requires i < |x.masks| && file != [] && About(WordsOf(file[|file| - 1]), i, x)
    requires forall w :: w in From(WordsOf(file[|file| - 1]), 2) ==> FlagWord(w)
    ensures !LastLineFits(file, i, x)
            <==> !SaysSwitch(From(WordsOf(file[|file| - 1]), 2)) && !Switch(OptionsAbout(file[..|file| - 1], i, x), true)
  {
    var words := From(WordsOf(file[|file| - 1]), 2);
    AllFlagsAreOptions(words, 0, 0, Env(x.names, x.masks[i], x.undefined));
    SwitchForgets(words, true);
    hide WordsOf, About, FlagWord, Tops, OptionsAbout, Switch;
  }

  // ---------------------------------------------------------------- in the records

  /** A phyint line that names the vif by its name changes that vif alone, by the options on it. */
  lemma NamedLine(ss: seq<Settings>, i: nat, opts: seq<string>, x: Fixed)
    requires x.Fits(ss) && OneOfAKind(i, x.names)
    ensures var o := Options(opts, State(ss[i], 0, 0), Env(x.names, x.masks[i], x.undefined));
            PhyintLine(ss, [x.names[i].name] + opts, x) == (ss[i := o.s], o.ok)
  {
    var ws := ["phyint"] + ([x.names[i].name] + opts);
    assert ws[1] == x.names[i].name && ([x.names[i].name] + opts)[1..] == opts;
    assert NamesVif(ws[1], x.names);
    AboutIff(ws, i, x);
    hide Options, IsHost, NamedOrParsed, NamesVif, OneOfAKind;
  }

  lemma RecordOf(vs: seq<Uvif>, vs': seq<Uvif>, i: nat, s: Settings)
    requires i < |vs| && AllAcls(vs) && AllAcls(vs') && AllSettings(vs') == AllSettings(vs)[i := s]
    ensures |vs'| == |vs| && SettingsOf(vs'[i]) == s && forall j :: 0 <= j < |vs| && j != i ==> SettingsOf(vs'[j]) == SettingsOf(vs[j])
  {
    hide SettingsOf, VifAcl.Valid;
    assert AllSettings(vs')[i] == s;
    assert forall j :: 0 <= j < |vs| ==> AllSettings(vs')[j] == SettingsOf(vs'[j]) && AllSettings(vs)[j] == SettingsOf(vs[j]);
  }

  /** parse_phyint on `<name> threshold <n>`, `<name> distance <n>` and so on: the field of the record that is set, the
      others being as before. */
  lemma ValueLines(vs: seq<Uvif>, vs': seq<Uvif>, i: nat, option: string, n: nat, undefined: nat -> bv32)
    requires AllAcls(vs) && AllAcls(vs') && OneOfAKind(i, Names(vs))
    requires AllSettings(vs')
             == PhyintLine(AllSettings(vs), [vs[i].name] + ([option] + ([Dec(n)] + [])), FixedOf(vs, undefined)).0
    requires (option in ["threshold", "ttl-threshold", "distance", "preference"] && 1 <= n <= 255)
             || (option == "metric" && 1 <= n <= 1024) || (option == "dr-priority" && 1 <= n <= 4294967294)
    ensures |vs'| == |vs|
    ensures vs'[i].threshold == if option in ["threshold", "ttl-threshold"] then n else vs[i].threshold
    ensures vs'[i].localPref == if option in ["distance", "preference"] then n else vs[i].localPref
    ensures vs'[i].localMetric == if option == "metric" then n else vs[i].localMetric
    ensures vs'[i].drPrio == if option == "dr-priority" then n else vs[i].drPrio
    ensures vs'[i].flags == vs[i].flags && vs'[i].addrs == vs[i].addrs
  {
    var ss, x := AllSettings(vs), FixedOf(vs, undefined);
    var env, st := Env(x.names, x.masks[i], undefined), State(ss[i], 0, 0);
    NamedLine(ss, i, [option] + ([Dec(n)] + []), x);
    ValueSet(option, n, st, env);
    var o := Options([option] + ([Dec(n)] + []), st, env);
    hide Options, PhyintLine, Names, Dec, Scopes, IsAcl, OneOfAKind;
    assert ss[i] == SettingsOf(vs[i]);
    RecordOf(vs, vs', i, o.s);
  }

  lemma ValueSet(option: string, n: nat, st: State, env: Env)
    requires (option in ["threshold", "ttl-threshold", "distance", "preference"] && 1 <= n <= 255)
             || (option == "metric" && 1 <= n <= 1024) || (option == "dr-priority" && 1 <= n <= 4294967294)
    ensures var s := Options([option] + ([Dec(n)] + []), st, env).s;
            && s.threshold == (if option in ["threshold", "ttl-threshold"] then n else st.s.threshold)
            && s.localPref == (if option in ["distance", "preference"] then n else st.s.localPref)
            && s.localMetric == (if option == "metric" then n else st.s.localMetric)
            && s.drPrio == (if option == "dr-priority" then n else st.s.drPrio)
            && s.flags == st.s.flags && s.addrs == st.s.addrs && s.scopes == st.s.scopes
  {
    NoMoreOptions(env);
    hide Options, Dec;
    if option in ["threshold", "ttl-threshold"] {
      ThresholdOption(n, [], st, env);
    } else if option in ["distance", "preference"] {
      DistanceOption(n, [], st, env);
    } else if option == "metric" {
      MetricOption(n, [], st, env);
    } else {
      PriorityOption(n, [], st, env);
    }
  }

  lemma NoMoreOptions(env: Env)
    ensures forall st :: Options([], st, env) == Outcome(st.s, true)
  {
  }

  // ---------------------------------------------------------------- a file on which they do not

  lemma LineWords(name: string, option: string)
    requires GoodWord(name) && FlagWord(option)
    ensures WordsOf(Join(["phyint", name, option])) == ["phyint", name, option]
  {
    assert GoodWord("phyint") && GoodWord("disable") && GoodWord("enable") && GoodWord("igmpv2") && GoodWord("igmpv3");
    JoinRoundTrip(["phyint", name, option]);
  }

  /** The passes agree on a lone line that disables exactly when its interface word is not misread: otherwise one of them
      disables and the other knows nothing of it. */
  lemma OneDisableLine(t: string, ss: seq<Settings>, i: nat, x: Fixed)
    requires GoodWord(t) && x.Fits(ss) && OneOfAKind(i, x.names) && !Has(ss[i].flags, VIFF_DISABLED)
    ensures var file := [Join(["phyint", t, "disable"])];
            (Disabled(Entries(file), x.names[i].name, x.names[i].addr) <==> Has(ReadFile(ss, file, x)[i].flags, VIFF_DISABLED))
            <==> !Misread(t, i, x.names)
  {
    var line := Join(["phyint", t, "disable"]);
    var file := [line];
    LineWords(t, "disable");
    SameLineIff(line, i, x);
    LoneLine(line, t, i, x);
    PassesAgreeIff(ss, file, x.names[i].name, x.names[i].addr, i, x);
    hide *;
  }

  lemma LoneLine(line: string, t: string, i: nat, x: Fixed)
    requires i < |x.masks| == |x.names| && WordsOf(line) == ["phyint", t, "disable"]
    ensures FirstSaysEnable([line], x.names[i].name, x.names[i].addr) == !LineMatches(line, x.names[i].name, x.names[i].addr)
    ensures SecondSaysEnable([line], i, x) == !About(WordsOf(line), i, x)
    ensures IsPhyint(WordsOf(line)) && |WordsOf(line)| > 1 && WordsOf(line)[1] == t
  {
    var ws := ["phyint", t, "disable"];
    assert From(ws, 2) == ["disable"];
    assert FlagWord("disable");
    AllFlagsAreOptions(["disable"], 0, 0, Env(x.names, x.masks[i], x.undefined));
    OneDisable();
    assert [] + ["disable"] == ["disable"];
    assert SaysSwitch(["disable"]);
    hide WordsOf, LineMatches, About, Tops, FlagWord, Switch, SaysSwitch;
    assert [line][..0] == [];
  }

  /** An interface whose name starts with a digit: the first pass takes "3g0" for an address, which it is not. */
  lemma DigitNameMisread(addr: bv32)
    requires addr != 0
    ensures GoodWord("3g0") && Misread("3g0", 0, [Named("3g0", addr)])
  {
    NotAnAddress();
    assert [Named("3g0", addr)][0].name == "3g0";
  }

  lemma NotAnAddress()
    ensures InetParse("3g0", 4) == FAILED
  {
    assert ScanUnsigned("3g0").Number? && ScanUnsigned("3g0").rest == "g0" by {
      var s := "3g0";
      assert Digits(s) == 1 && s[1..] == "g0";
    }
    assert ScanQuad("3g0", []).count == 1;
  }

  /** An address behind a sign: only the second pass reads it. */
  lemma SignedAddressMisread(addr: bv32, name: string)
    requires InetValidHost(addr) && name != "+" + InetFmt(addr)
    ensures Misread("+" + InetFmt(addr), 0, [Named(name, addr)])
  {
    SignIgnored(addr);
    hide InetFmt, InetParse, InetValidHost;
  }

  /** Interface `name`, the only one, on two lines: disabled on the first, not mentioned so on the second. */
  function TwoLines(name: string): seq<string> {
    [Join(["phyint", name, "disable"])] + [Join(["phyint", name, "igmpv2"])]
  }

  /** The two passes over the file differ there: for the first the last line decides, and without the word "disable"
      on it the interface is enabled; for the second it remains disabled from the line before. */
  lemma PassesDisagree(name: string, addr: bv32, ss: seq<Settings>, x: Fixed)
    requires GoodWord(name) && !IsDigit(name[0]) && |name| < IFNAMSIZ
    requires x.names == [Named(name, addr)] && addr != 0 && x.Fits(ss)
    ensures !LastLineFits(TwoLines(name), 0, x)
    ensures !Disabled(Entries(TwoLines(name)), name, addr)
    ensures Has(ReadFile(ss, TwoLines(name), x)[0].flags, VIFF_DISABLED)
  {
    TwoLinesDoNotFit(name, addr, x);
    TwoLinesAreSame(name, addr, x);
    FirstPassEnables(name, addr);
    hide *;
    hide Fixed.Fits;
    if Has(ss[0].flags, VIFF_DISABLED) {
      DisabledInTheEnd(ss, TwoLines(name), 0, x);
    } else {
      LastLineDecides(TwoLines(name), name, addr, 0, x);
      PassesAgreeIff(ss, TwoLines(name), name, addr, 0, x);
    }
  }

  lemma OneLineOptions(name: string, addr: bv32, option: string, x: Fixed)
    requires GoodWord(name) && FlagWord(option) && |x.masks| == 1 && x.names == [Named(name, addr)] && addr != 0
    ensures WordsOf(Join(["phyint", name, option])) == ["phyint", name, option]
    ensures About(["phyint", name, option], 0, x) && From(["phyint", name, option], 2) == [option]
    ensures LineTops(["phyint", name, option], 0, x) == [option]
  {
    LineWords(name, option);
    AboutIt(name, addr, option, x);
    hide WordsOf, Join, About, FlagWord, Tops;
    assert From(["phyint", name, option], 2) == [option];
    AllFlagsAreOptions([option], 0, 0, Env(x.names, x.masks[0], x.undefined));
  }

  lemma OptionsSnoc(front: seq<string>, line: string, i: nat, x: Fixed)
    requires i < |x.masks| && About(WordsOf(line), i, x)
    ensures OptionsAbout(front + [line], i, x) == OptionsAbout(front, i, x) + LineTops(WordsOf(line), i, x)
    ensures (front + [line])[..|front|] == front
  {
    hide WordsOf, About, LineTops;
    assert (front + [line])[..|front|] == front;
  }

  lemma NoOptions(i: nat, x: Fixed)
    requires i < |x.masks|
    ensures OptionsAbout([], i, x) == []
  {
  }

  lemma OneDisable()
    ensures !Switch([] + ["disable"], true) && !SaysSwitch(["igmpv2"]) && "enable" !in [] + ["disable"] + ["igmpv2"]
  {
    assert [] + ["disable"] == ["disable"];
  }

  lemma TwoLinesDoNotFit(name: string, addr: bv32, x: Fixed)
    requires GoodWord(name) && |x.masks| == 1 && x.names == [Named(name, addr)] && addr != 0
    ensures !LastLineFits(TwoLines(name), 0, x)
    ensures "enable" !in OptionsAbout(TwoLines(name), 0, x)
  {
    OneLineOptions(name, addr, "disable", x);
    OneLineOptions(name, addr, "igmpv2", x);
    OneDisable();
    NoOptions(0, x);
    hide WordsOf, Join, About, LineTops, LastLineFits, OptionsAbout, Switch, SaysSwitch, GoodWord, From;
    var l0, l1 := Join(["phyint", name, "disable"]), Join(["phyint", name, "igmpv2"]);
    OptionsSnoc([], l0, 0, x);
    assert [] + [l0] == [l0];
    OptionsSnoc([l0], l1, 0, x);
    FlagLineFits([l0] + [l1], 0, x);
  }

  lemma TwoLinesAreSame(name: string, addr: bv32, x: Fixed)
    requires GoodWord(name) && !IsDigit(name[0]) && |name| < IFNAMSIZ
    requires |x.masks| == 1 && x.names == [Named(name, addr)] && addr != 0
    ensures SameLines(TwoLines(name), name, addr, 0, x)
  {
    OneLineOptions(name, addr, "disable", x);
    OneLineOptions(name, addr, "igmpv2", x);
    hide WordsOf, Join, About, LineTops, Switch, FlagWord;
  }

  lemma FirstPassEnables(name: string, addr: bv32)
    requires GoodWord(name) && !IsDigit(name[0]) && |name| < IFNAMSIZ
    ensures !Disabled(Entries(TwoLines(name)), name, addr)
  {
    var file, w1 := TwoLines(name), ["phyint", name, "igmpv2"];
    LineWords(name, "igmpv2");
    assert From(w1, 2) == ["igmpv2"];
    assert Switch(["igmpv2"], true);
    assert EntryOf(w1) == Phyint(true, 0, name);
    hide WordsOf, Join, Disabled, EntryOf;
    assert Entries(file) == [EntryOf(w1)] + Entries(file[..1]);
    FirstDecides(EntryOf(w1), Entries(file[..1]), name, addr);
  }

  lemma AboutIt(name: string, addr: bv32, option: string, x: Fixed)
    requires x.names == [Named(name, addr)] && addr != 0
    ensures About(["phyint", name, option], 0, x)
  {
    hide InetParse, InetValidHost;
  }

  // ---------------------------------------------------------------- the code

  lemma AclsPut(vs: seq<Uvif>, i: nat, v: Uvif, freed: seq<VifAcl>)
    requires AclsOk(vs, freed) && i < |vs| && IsAcl(v.acl)
    requires forall a :: a in Nodes(v.acl) && a !in Nodes(vs[i].acl) ==>
               a !in freed && forall j :: 0 <= j < |vs| ==> a !in Nodes(vs[j].acl)
    ensures AclsOk(vs[i := v], freed)
  {
    hide Nodes, VifAcl.Valid;
  }

  lemma SettingsPut(vs: seq<Uvif>, i: nat, v: Uvif)
    requires i < |vs| && IsAcl(v.acl) && AllAcls(vs)
    ensures AllAcls(vs[i := v]) && AllSettings(vs[i := v]) == AllSettings(vs)[i := SettingsOf(v)]
  {
    hide SettingsOf, VifAcl.Valid;
  }

  lemma SamePut(vs: seq<Uvif>, i: nat, v: Uvif)
    requires i < |vs| && SameElse(v, vs[i])
    ensures SameElseAll(vs[i := v], vs)
  {
    forall j | 0 <= j < |vs| ensures SameElse(vs[j], vs[j]) {
      SameElseSelf(vs[j]);
    }
    hide SameElse;
  }

  lemma FixedKept(vs: seq<Uvif>, vs0: seq<Uvif>, undefined: nat -> bv32)
    requires SameElseAll(vs, vs0)
    ensures FixedOf(vs, undefined) == FixedOf(vs0, undefined)
  {
    assert Names(vs) == Names(vs0);
  }

  /** The search of parse_phyint for the vif. */
  method FindVif(t: VifTable, local: bv32) returns (vifi: nat)
    requires t.Valid()
    ensures vifi == VifWith(Names(t.Vifs()), local)
  {
    ghost var vs, names := t.Vifs(), Names(t.Vifs());
    vifi := 0;
    while vifi < t.numvifs && t.uvifs[vifi].lclAddr != local
      invariant vifi <= t.numvifs && forall j :: 0 <= j < vifi ==> names[j].addr != local
    {
      assert t.uvifs[vifi] == vs[vifi];
      vifi := vifi + 1;
    }
    assert vifi < t.numvifs ==> t.uvifs[vifi] == vs[vifi];
  }

  /** parse_phyint, with the cursor behind "phyint". */
  method ParsePhyint(t: VifTable, lexer: Lexer, line: string, start: nat, undefined: nat -> bv32, ghost freed: seq<VifAcl>)
    returns (ok: bool)
    requires t.Valid() && lexer.Valid() && start <= |line| && AclsOk(t.Vifs(), freed) && AllAcls(t.Vifs())
    modifies t.uvifs, lexer.token
    ensures AclsOk(t.Vifs(), freed) && AllAcls(t.Vifs()) && SameElseAll(t.Vifs(), old(t.Vifs()))
    ensures (AllSettings(t.Vifs()), ok)
            == PhyintLine(AllSettings(old(t.Vifs())), WordsOf(line[start..]), FixedOf(old(t.Vifs()), undefined))
  {
    ghost var vs := t.Vifs();
    SamePutNone(vs);
    ghost var env := Env(Names(vs), 0, undefined);
    hide WordsOf, CString, NamedOrParsed, IsHost, IsGroup, InetValidHost, Options, SameElseAll, AclsOk, AllAcls, AllSettings;
    hide VifWith, Names, InMulticast, Ntohl;
    var at := lexer.NextWord(line, start);
    if lexer.Text() == "" {
      return false;
    }
    var local, named := NamedOrParsedAddr(t, lexer.Text(), env);
    if !named && !InetValidHost(local) {
      return false;
    }
    assert WordsOf(line[start..])[1..] == WordsOf(line[at..]);
    var vifi := FindVif(t, local);
    if vifi == t.numvifs {
      return true;
    }
    ok := OptionsInto(t, lexer, line, at, vifi, undefined, freed);
  }

  /** The body of its loop over the table. */
  method OptionsInto(t: VifTable, lexer: Lexer, line: string, at: nat, vifi: nat, undefined: nat -> bv32,
                     ghost freed: seq<VifAcl>) returns (ok: bool)
    requires t.Valid() && lexer.Valid() && at <= |line| && AclsOk(t.Vifs(), freed) && AllAcls(t.Vifs())
    requires vifi < t.numvifs
    modifies t.uvifs, lexer.token
    ensures AclsOk(t.Vifs(), freed) && AllAcls(t.Vifs()) && SameElseAll(t.Vifs(), old(t.Vifs()))
    ensures var ss, x := AllSettings(old(t.Vifs())), FixedOf(old(t.Vifs()), undefined);
            var o := Options(WordsOf(line[at..]), State(ss[vifi], 0, 0), Env(x.names, x.masks[vifi], undefined));
            AllSettings(t.Vifs()) == ss[vifi := o.s] && ok == o.ok
  {
    ghost var vs := t.Vifs();
    assert t.uvifs[vifi] == vs[vifi];
    hide WordsOf, SettingsOf, VifAcl.Valid, Options, SameElseAll, SameElse;
    var v;
    v, ok := ParseOptions(t, lexer, line, at, t.uvifs[vifi], undefined);
    AclsPut(vs, vifi, v, freed);
    SettingsPut(vs, vifi, v);
    SamePut(vs, vifi, v);
    t.Put(vifi, v);
  }

  lemma SamePutNone(vs: seq<Uvif>)
    ensures SameElseAll(vs, vs)
  {
    if vs != [] {
      SameElseSelf(vs[0]);
      SamePut(vs, 0, vs[0]);
      assert vs[0 := vs[0]] == vs;
    }
  }

  lemma SameElseAllChain(vs: seq<Uvif>, ws: seq<Uvif>, vs0: seq<Uvif>)
    requires SameElseAll(vs, ws) && SameElseAll(ws, vs0)
    ensures SameElseAll(vs, vs0)
  {
    forall i | 0 <= i < |vs| ensures SameElse(vs[i], vs0[i]) {
      SameElseChain(vs[i], ws[i], vs0[i]);
    }
    hide SameElse;
  }

  lemma ReadFileStep(ss: seq<Settings>, file: seq<string>, n: nat, x: Fixed)
    requires x.Fits(ss) && n < |file|
    ensures ReadFile(ss, file[..n + 1], x)
            == if IsPhyint(WordsOf(file[n])) then PhyintLine(ReadFile(ss, file[..n], x), From(WordsOf(file[n]), 1), x).0
               else ReadFile(ss, file[..n], x)
  {
    hide WordsOf, IsPhyint, PhyintLine;
    assert file[..n + 1][..n] == file[..n];
  }

  lemma FirstWordDecides(w: string, rest: seq<string>)
    ensures ParseOption(w) == ConfPhyint <==> IsPhyint([w] + rest)
    ensures From([w] + rest, 1) == rest
    ensures ParseOption("") != ConfPhyint && !IsPhyint([])
  {
  }

  /** One line of the file. */
  method ReadConfigLine(t: VifTable, lexer: Lexer, line: string, undefined: nat -> bv32, ghost freed: seq<VifAcl>)
    requires t.Valid() && lexer.Valid() && AclsOk(t.Vifs(), freed) && AllAcls(t.Vifs())
    modifies t.uvifs, lexer.token
    ensures AclsOk(t.Vifs(), freed) && AllAcls(t.Vifs()) && SameElseAll(t.Vifs(), old(t.Vifs()))
    ensures var ss, x, ws := AllSettings(old(t.Vifs())), FixedOf(old(t.Vifs()), undefined), WordsOf(line);
            AllSettings(t.Vifs()) == if IsPhyint(ws) then PhyintLine(ss, From(ws, 1), x).0 else ss
  {
    SamePutNone(t.Vifs());
    assert line[0..] == line;
    var at := lexer.NextWord(line, 0);
    FirstWordDecides(lexer.Text(), WordsOf(line[at..]));
    hide *;
    if ParseOption(lexer.Text()) == ConfPhyint {
      var ok := ParsePhyint(t, lexer, line, at, undefined, freed);
    }
  }

  /** config_vifs_from_file: `lines` is what fgets delivers; the lines for parse_rp_address are passed over. */
  method ConfigVifsFromFile(t: VifTable, lexer: Lexer, lines: seq<string>, undefined: nat -> bv32, ghost freed: seq<VifAcl>)
    requires t.Valid() && lexer.Valid() && AclsOk(t.Vifs(), freed) && AllAcls(t.Vifs())
    modifies t.uvifs, lexer.token
    ensures AclsOk(t.Vifs(), freed) && AllAcls(t.Vifs()) && SameElseAll(t.Vifs(), old(t.Vifs()))
    ensures AllSettings(t.Vifs()) == ReadFile(AllSettings(old(t.Vifs())), lines, FixedOf(old(t.Vifs()), undefined))
  {
    ghost var vs, x := t.Vifs(), FixedOf(t.Vifs(), undefined);
    SamePutNone(vs);
    assert ReadFile(AllSettings(vs), lines[..0], x) == AllSettings(vs);
    hide WordsOf, AllSettings, AllAcls, SameElseAll, FixedOf, PhyintLine, ReadFile, AclsOk, IsPhyint;
    for n := 0 to |lines|
      invariant t.Valid() && AclsOk(t.Vifs(), freed) && SameElseAll(t.Vifs(), vs)
      invariant AllAcls(t.Vifs()) && AllSettings(t.Vifs()) == ReadFile(AllSettings(vs), lines[..n], x)
    {
      ghost var us := t.Vifs();
      ReadFileStep(AllSettings(vs), lines, n, x);
      FixedKept(us, vs, undefined);
      ReadConfigLine(t, lexer, lines[n], undefined, freed);
      SameElseAllChain(t.Vifs(), us, vs);
    }
    assert lines[..|lines|] == lines;
  }
}
