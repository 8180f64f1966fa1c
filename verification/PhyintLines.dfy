/** The first pass over the configuration file: which interfaces the phyint lines enable or disable. */
module PhyintLines {
  import opened Inet
  import opened Words
  import opened Vif
  import opened IfList

  /** parse_option's codes. */
  datatype Conf =
    | ConfUnknown | ConfEmpty | ConfPhyint | ConfCandidateRp | ConfRpAddress | ConfGroupPrefix | ConfBootstrapRp
    | ConfSptThreshold | ConfDefaultRouteMetric | ConfDefaultRouteDistance | ConfAltnet | ConfMasklen | ConfScoped
    | ConfIgmpQueryInterval | ConfIgmpQuerierTimeout | ConfHelloInterval | ConfDisableVifs

  function ParseOption(word: string): Conf {
    if word == "" then ConfEmpty
    else if word == "disable-vifs" then ConfDisableVifs
    else if word == "phyint" then ConfPhyint
    else if word == "bsr-candidate" then ConfBootstrapRp
    else if word == "rp-candidate" then ConfCandidateRp
    else if word == "rp-address" then ConfRpAddress
    else if word == "group-prefix" then ConfGroupPrefix
    else if word == "spt-threshold" then ConfSptThreshold
    else if word == "default-route-metric" then ConfDefaultRouteMetric
    else if word == "default-route-distance" then ConfDefaultRouteDistance
    else if word == "igmp-query-interval" then ConfIgmpQueryInterval
    else if word == "igmp-querier-timeout" then ConfIgmpQuerierTimeout
    else if word == "altnet" then ConfAltnet
    else if word == "masklen" then ConfMasklen
    else if word == "scoped" then ConfScoped
    else if word == "hello-interval" then ConfHelloInterval
    else ConfUnknown
  }

  // ---------------------------------------------------------------- what a line says

  function Word(ws: seq<string>, i: nat): string {
    if i < |ws| then ws[i] else ""
  }

  predicate IsPhyint(ws: seq<string>) {
    Word(ws, 0) == "phyint"
  }

  /** The words from position `i` on. */
  function From(ws: seq<string>, i: nat): seq<string> {
    if i < |ws| then ws[i..] else []
  }

  /** The state of the enable/disable switch after the words `ws`. */
  function Switch(ws: seq<string>, enabled: bool): bool {
    if ws == [] then enabled
    else Switch(ws[1..], if ws[0] == "disable" then false else if ws[0] == "enable" then true else enabled)
  }

  /** The entry that a phyint line makes. */
  function EntryOf(ws: seq<string>): Phyint {
    var token := Word(ws, 1);
    var enabled := Switch(From(ws, 2), true);
    if token != "" && IsDigit(token[0]) then Phyint(enabled, InetParse(token, 4), "")
    else Phyint(enabled, 0, Strlcpy(token, IFNAMSIZ + 1))
  }

  /** The entries of a file's phyint lines, the last line's first. */
  function Entries(file: seq<string>): seq<Phyint> {
    if file == [] then []
    else
      var n := |file| - 1;
      var ws := WordsOf(file[n]);
      (if IsPhyint(ws) then [EntryOf(ws)] else []) + Entries(file[..n])
  }

  function CountEnabled(ps: seq<Phyint>): nat {
    if ps == [] then 0 else (if ps[0].enabled then 1 else 0) + CountEnabled(ps[1..])
  }

  ghost function Items(s: seq<Entry>): (ps: seq<Phyint>)
    ensures |ps| == |s| && forall i :: 0 <= i < |s| ==> ps[i] == s[i].item
  {
    seq(|s|, i requires 0 <= i < |s| => s[i].item)
  }

  // ---------------------------------------------------------------- the last line wins

  /** iface_find on the items of a list: the position of the first match, or the length. */
  function FirstMatch(ps: seq<Phyint>, ifname: string, addr: bv32): (k: nat)
    ensures k <= |ps|
    ensures forall j :: 0 <= j < k ==> !Matches(ps[j], ifname, addr)
    ensures k < |ps| ==> Matches(ps[k], ifname, addr)
  {
    if ps == [] || Matches(ps[0], ifname, addr) then 0 else 1 + FirstMatch(ps[1..], ifname, addr)
  }

  /** config_vifs_from_kernel skips an interface whose entry is there and not enabled. */
  predicate Disabled(ps: seq<Phyint>, ifname: string, addr: bv32) {
    var k := FirstMatch(ps, ifname, addr);
    k < |ps| && !ps[k].enabled
  }

  /** Line `line` is about the interface. */
  predicate LineMatches(line: string, ifname: string, addr: bv32) {
    var ws := WordsOf(line);
    IsPhyint(ws) && Matches(EntryOf(ws), ifname, addr)
  }

  /** The words end in a "disable" without an "enable" after it. */
  ghost predicate EndsDisabled(ws: seq<string>, start: nat) {
    exists k :: start <= k < |ws| && ws[k] == "disable" && forall j :: k < j < |ws| ==> ws[j] != "enable"
  }

  /** Behind the interface the line says "disable", and no "enable" after it. */
  ghost predicate SaysDisable(line: string) {
    EndsDisabled(WordsOf(line), 2)
  }

  lemma {:induction false} SwitchIs(ws: seq<string>, enabled: bool)
    ensures !Switch(ws, enabled) <==> EndsDisabled(ws, 0) || (!enabled && "enable" !in ws)
  {
    if ws != [] {
      SwitchIs(ws[1..], if ws[0] == "disable" then false else if ws[0] == "enable" then true else enabled);
      EndsShifted(ws, 1);
      assert EndsDisabled(ws, 0) <==> EndsDisabled(ws, 1) || (ws[0] == "disable" && "enable" !in ws[1..]);
    }
  }

  lemma EndsShifted(ws: seq<string>, n: nat)
    requires n <= |ws|
    ensures EndsDisabled(ws[n..], 0) <==> EndsDisabled(ws, n)
  {
    if EndsDisabled(ws[n..], 0) {
      var k :| 0 <= k < |ws[n..]| && ws[n..][k] == "disable" && forall j :: k < j < |ws[n..]| ==> ws[n..][j] != "enable";
      assert ws[n + k] == "disable" && forall j :: n + k < j < |ws| ==> ws[n..][j - n] == ws[j];
    }
  }

  /** Line `k` is the last one about the interface, and disables it. */
  ghost predicate LastDisables(file: seq<string>, k: int, ifname: string, addr: bv32) {
    && 0 <= k < |file| && LineMatches(file[k], ifname, addr) && SaysDisable(file[k])
    && forall j :: k < j < |file| ==> !LineMatches(file[j], ifname, addr)
  }

  /** An interface is skipped as disabled exactly when the last phyint line matching its name or its address has
      "disable" as its last enable/disable word. */
  lemma {:induction false} DisabledIff(file: seq<string>, ifname: string, addr: bv32)
    ensures Disabled(Entries(file), ifname, addr) <==> exists k :: LastDisables(file, k, ifname, addr)
  {
    if file != [] {
      var n := |file| - 1;
      DisabledIff(file[..n], ifname, addr);
      LastLine(file, ifname, addr);
      hide LineMatches, SaysDisable, Disabled, Entries, LastDisables;
      if LineMatches(file[n], ifname, addr) {
        LastIsMatch(file, ifname, addr);
      } else {
        LastIsNoMatch(file, file[..n], ifname, addr);
      }
    }
  }

  lemma LastIsMatch(file: seq<string>, ifname: string, addr: bv32)
    requires file != [] && LineMatches(file[|file| - 1], ifname, addr)
    ensures SaysDisable(file[|file| - 1]) <==> exists k :: LastDisables(file, k, ifname, addr)
  {
    hide LineMatches, SaysDisable;
    assert SaysDisable(file[|file| - 1]) ==> LastDisables(file, |file| - 1, ifname, addr);
  }

  lemma LastIsNoMatch(file: seq<string>, front: seq<string>, ifname: string, addr: bv32)
    requires file != [] && front == file[..|file| - 1] && !LineMatches(file[|file| - 1], ifname, addr)
    ensures (exists k :: LastDisables(front, k, ifname, addr)) <==> exists k :: LastDisables(file, k, ifname, addr)
  {
    hide LineMatches, SaysDisable;
    forall k ensures LastDisables(front, k, ifname, addr) == LastDisables(file, k, ifname, addr) {}
  }

  lemma LastLine(file: seq<string>, ifname: string, addr: bv32)
    requires file != []
    ensures var n := |file| - 1;
            Disabled(Entries(file), ifname, addr) <==>
              if LineMatches(file[n], ifname, addr) then SaysDisable(file[n])
              else Disabled(Entries(file[..n]), ifname, addr)
  {
    var n := |file| - 1;
    var ws, rest := WordsOf(file[n]), Entries(file[..n]);
    hide WordsOf, Disabled, EntryOf, Matches;
    if IsPhyint(ws) {
      FirstDecides(EntryOf(ws), rest, ifname, addr);
      EnabledIs(ws);
    } else {
      assert [] + rest == rest;
    }
  }

  lemma FirstDecides(p: Phyint, rest: seq<Phyint>, ifname: string, addr: bv32)
    ensures Disabled([p] + rest, ifname, addr)
            <==> if Matches(p, ifname, addr) then !p.enabled else Disabled(rest, ifname, addr)
  {
    hide Matches;
    assert ([p] + rest)[1..] == rest;
  }

  lemma EnabledIs(ws: seq<string>)
    ensures !EntryOf(ws).enabled <==> EndsDisabled(ws, 2)
  {
    SwitchIs(From(ws, 2), true);
    if |ws| >= 2 { EndsShifted(ws, 2); }
  }

  // ---------------------------------------------------------------- the enabled lines

  /** Line `k` is the last one about the interface, and does not disable it. */
  ghost predicate LastEnables(file: seq<string>, k: int, ifname: string, addr: bv32) {
    && 0 <= k < |file| && LineMatches(file[k], ifname, addr) && !SaysDisable(file[k])
    && forall j :: k < j < |file| ==> !LineMatches(file[j], ifname, addr)
  }

  /** The entries ask for the interface. */
  predicate Wanted(ps: seq<Phyint>, ifname: string, addr: bv32) {
    var k := FirstMatch(ps, ifname, addr);
    k < |ps| && ps[k].enabled
  }

  lemma FirstWants(p: Phyint, rest: seq<Phyint>, ifname: string, addr: bv32)
    ensures Wanted([p] + rest, ifname, addr) <==> if Matches(p, ifname, addr) then p.enabled else Wanted(rest, ifname, addr)
  {
    hide Matches;
    assert ([p] + rest)[1..] == rest;
  }

  /** An interface is asked for exactly when the last phyint line matching its name or its address does not disable
      it. */
  lemma {:induction false} WantedIff(file: seq<string>, ifname: string, addr: bv32)
    ensures Wanted(Entries(file), ifname, addr) <==> exists k :: LastEnables(file, k, ifname, addr)
  {
    if file != [] {
      var n := |file| - 1;
      WantedIff(file[..n], ifname, addr);
      LastLineWants(file, ifname, addr);
      hide LineMatches, SaysDisable, Wanted, Entries, LastEnables;
      if LineMatches(file[n], ifname, addr) {
        LastEnablesHere(file, ifname, addr);
      } else {
        LastEnablesBefore(file, file[..n], ifname, addr);
      }
    } else {
      hide LineMatches, SaysDisable;
    }
  }

  lemma LastEnablesHere(file: seq<string>, ifname: string, addr: bv32)
    requires file != [] && LineMatches(file[|file| - 1], ifname, addr)
    ensures !SaysDisable(file[|file| - 1]) <==> exists k :: LastEnables(file, k, ifname, addr)
  {
    hide LineMatches, SaysDisable;
    assert !SaysDisable(file[|file| - 1]) ==> LastEnables(file, |file| - 1, ifname, addr);
  }

  lemma LastEnablesBefore(file: seq<string>, front: seq<string>, ifname: string, addr: bv32)
    requires file != [] && front == file[..|file| - 1] && !LineMatches(file[|file| - 1], ifname, addr)
    ensures (exists k :: LastEnables(front, k, ifname, addr)) <==> exists k :: LastEnables(file, k, ifname, addr)
  {
    hide LineMatches, SaysDisable;
    forall k ensures LastEnables(front, k, ifname, addr) == LastEnables(file, k, ifname, addr) {}
  }

  lemma LastLineWants(file: seq<string>, ifname: string, addr: bv32)
    requires file != []
    ensures var n := |file| - 1;
            Wanted(Entries(file), ifname, addr) <==>
              if LineMatches(file[n], ifname, addr) then !SaysDisable(file[n])
              else Wanted(Entries(file[..n]), ifname, addr)
  {
    var n := |file| - 1;
    var ws, rest := WordsOf(file[n]), Entries(file[..n]);
    hide WordsOf, Wanted, EntryOf, Matches;
    if IsPhyint(ws) {
      FirstWants(EntryOf(ws), rest, ifname, addr);
      EnabledIs(ws);
    } else {
      assert [] + rest == rest;
    }
  }

  /** The phyint lines that do not disable. */
  ghost function EnabledLines(file: seq<string>): set<int> {
    set k | 0 <= k < |file| && Word(WordsOf(file[k]), 0) == "phyint" && !SaysDisable(file[k])
  }

  /** build_iflist counts exactly those. */
  lemma {:induction false} CountEnabledIs(file: seq<string>)
    ensures CountEnabled(Entries(file)) == |EnabledLines(file)|
  {
    if file != [] {
      var n := |file| - 1;
      var ws, front := WordsOf(file[n]), file[..n];
      CountEnabledIs(front);
      EntriesStep(file, n);
      assert file[..n + 1] == file;
      if IsPhyint(ws) { CountStep(EntryOf(ws), Entries(front)); }
      EnabledIs(ws);
      hide WordsOf, EntryOf, SaysDisable, Entries, CountEnabled;
      var more: set<int> := if IsPhyint(ws) && EntryOf(ws).enabled then {n} else {};
      assert EnabledLines(file) == EnabledLines(front) + more by { LinesStep(file, n, more); }
    }
  }

  lemma LinesStep(file: seq<string>, n: nat, more: set<int>)
    requires |file| == n + 1
    requires more == if Word(WordsOf(file[n]), 0) == "phyint" && !SaysDisable(file[n]) then {n} else {}
    ensures EnabledLines(file) == EnabledLines(file[..n]) + more
  {
    hide WordsOf, SaysDisable;
    assert forall k :: 0 <= k < n ==> file[..n][k] == file[k];
  }

  // ---------------------------------------------------------------- the code

  /** One line of build_iflist: whether it is a phyint line, and the entry it makes. */
  method ReadLine(line: string, lexer: Lexer) returns (found: bool, p: Phyint)
    requires lexer.Valid()
    modifies lexer.token
    ensures found == IsPhyint(WordsOf(line))
    ensures found ==> p == EntryOf(WordsOf(line))
  {
    hide WordsOf, InetParse, IsDigit, CString;
    ghost var ws := WordsOf(line);
    var addr: bv32, ifname := 0, "";
    p := Phyint(false, 0, "");
    assert line[0..] == line;
    var at := lexer.NextWord(line, 0);
    found := ParseOption(lexer.Text()) == ConfPhyint;
    if !found {
      return;
    }
    at := lexer.NextWord(line, at);
    var token := lexer.Text();
    if token != "" && IsDigit(token[0]) {
      addr := InetParse(token, 4);
    } else {
      ifname := Strlcpy(token, IFNAMSIZ + 1);
    }
    assert WordsOf(line[at..]) == From(ws, 2);
    var enabled := ReadSwitch(line, at, lexer);
    p := Phyint(enabled, if ifname != "" then 0 else addr, ifname);
  }

  /** Its inner loop. */
  method ReadSwitch(line: string, start: nat, lexer: Lexer) returns (enabled: bool)
    requires lexer.Valid() && start <= |line|
    modifies lexer.token
    ensures enabled == Switch(WordsOf(line[start..]), true)
  {
    hide WordsOf, CString;
    enabled := true;
    var at := lexer.NextWord(line, start);
    while lexer.Text() != ""
      invariant at <= |line|
      invariant Switch(WordsOf(line[start..]), true)
                == if lexer.Text() == "" then enabled else Switch([lexer.Text()] + WordsOf(line[at..]), enabled)
      decreases |line| - at, lexer.Text() != ""
    {
      ghost var rest := WordsOf(line[at..]);
      assert ([lexer.Text()] + rest)[1..] == rest;
      if lexer.Text() == "disable" {
        enabled := false;
      } else if lexer.Text() == "enable" {
        enabled := true;
      }
      at := lexer.NextWord(line, at);
    }
  }

  lemma EntriesStep(file: seq<string>, n: nat)
    requires n < |file|
    ensures Entries(file[..n + 1])
            == if IsPhyint(WordsOf(file[n])) then [EntryOf(WordsOf(file[n]))] + Entries(file[..n]) else Entries(file[..n])
  {
    hide WordsOf, EntryOf, IsPhyint;
    assert file[..n + 1][..n] == file[..n];
    assert [] + Entries(file[..n]) == Entries(file[..n]);
  }

  lemma CountStep(p: Phyint, ps: seq<Phyint>)
    ensures CountEnabled([p] + ps) == (if p.enabled then 1 else 0) + CountEnabled(ps)
  {
    assert ([p] + ps)[1..] == ps;
  }

  lemma NoEntries()
    ensures Items([]) == Entries([]) && CountEnabled(Entries([])) == 0
  {
  }

  method NewEntry(p: Phyint, il: Head, ghost s: seq<Entry>) returns (entry: Entry)
    requires IsList(il, s)
    modifies il, Spot(s, 0)
    ensures fresh(entry) && IsList(il, [entry] + s) && Items([entry] + s) == [p] + Items(s)
  {
    entry := new Entry(p);
    InsertHead(il, entry, s);
  }

  /** build_iflist: `lines` is what fopen and fgets deliver, nothing if the file cannot be opened.  The entries are
      on the list in reverse; returns the number of enabled ones. */
  method BuildIflist(lines: seq<string>, lexer: Lexer, il: Head) returns (count: nat, ghost s: seq<Entry>)
    requires lexer.Valid() && IsList(il, [])
    modifies lexer.token, il
    ensures IsList(il, s) && fresh(s)
    ensures Items(s) == Entries(lines)
    ensures count == CountEnabled(Entries(lines))
  {
    hide WordsOf, EntryOf, IsPhyint, Entries, CountEnabled, Items, IsList;
    count, s := 0, [];
    NoEntries();
    assert lines[..0] == [];
    for n := 0 to |lines|
      invariant IsList(il, s) && fresh(s)
      invariant Items(s) == Entries(lines[..n]) && count == CountEnabled(Entries(lines[..n]))
    {
      EntriesStep(lines, n);
      var found, p := ReadLine(lines[n], lexer);
      if found {
        var entry := NewEntry(p, il, s);
        CountStep(p, Items(s));
        if p.enabled {
          count := count + 1;
        }
        s := [entry] + s;
      }
    }
    assert lines[..|lines|] == lines;
  }
}
