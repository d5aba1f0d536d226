/** The firewall over whole runs of commands. */
module FirewallRuns {
  import opened Bytes
  import opened Firewall
  import opened FirewallScripts
  import opened FirewallControl

  /** A firewall command, with the package table of its moment. `Refresh` is the reload that comes
      before an installation. */
  datatype Op =
    | Change(verb: Verb, apps: seq<Name>, table: Table)
    | Clear(table: Table)
    | Refresh(table: Table)

  function Step(s: State, op: Op, defaults: seq<Name>): State {
    match op
    case Change(verb, apps, table) => Controlled(s, verb, apps, defaults, table)
    case Clear(table) => Flushed(s, defaults, table)
    case Refresh(table) => ReloadedState(s, defaults, table)
  }

  function Run(s: State, ops: seq<Op>, defaults: seq<Name>): State {
    if ops == [] then s else Step(Run(s, ops[..|ops| - 1], defaults), ops[|ops| - 1], defaults)
  }

  // ----- the same run on sets -----

  /** Whether the command reloads the firewall. */
  predicate Reloads(op: Op) {
    op.Change? ==> op.apps != [] && op.verb != ALLOW_TEMP
  }

  function ValidNames(apps: seq<Name>): set<Name> {
    set n | n in apps && ValidName(n)
  }

  /** Union, difference and empty, over the valid names. */
  function Names(start: set<Name>, ops: seq<Op>): set<Name> {
    if ops == [] then start else
      var before := Names(start, ops[..|ops| - 1]);
      match ops[|ops| - 1]
      case Change(ALLOW, apps, _) => before + ValidNames(apps)
      case Change(DENY, apps, _) => before - ValidNames(apps)
      case Change(ALLOW_TEMP, _, _) => before
      case Clear(_) => {}
      case Refresh(_) => before
  }

  /** The uids allowed temporarily since the last reload. */
  function Temps(ops: seq<Op>): set<nat> {
    if ops == [] then {} else
      var op := ops[|ops| - 1];
      if Reloads(op) then {}
      else if op.verb == ALLOW_TEMP then Temps(ops[..|ops| - 1]) + Uids(ValidNames(op.apps), op.table)
      else Temps(ops[..|ops| - 1])
  }

  /** The package table of the last reload. */
  function LastTable(start: Table, ops: seq<Op>): Table {
    if ops == [] then start
    else if Reloads(ops[|ops| - 1]) then ops[|ops| - 1].table
    else LastTable(start, ops[..|ops| - 1])
  }

  // ----- the whitelist file -----

  function Lines(w: Whitelist): seq<Name> {
    if w.None? then [] else w.value
  }

  ghost predicate NoDuplicates(lines: seq<Name>) {
    forall i, j :: 0 <= i < j < |lines| ==> lines[i] != lines[j]
  }

  lemma ToSetSnoc(lines: seq<Name>, n: Name)
    ensures ToSet(lines + [n]) == ToSet(lines) + {n}
    ensures NoDuplicates(lines + [n]) <==> NoDuplicates(lines) && n !in lines
  {
    var more := lines + [n];
    if NoDuplicates(more) {
      forall i, j | 0 <= i < j < |lines|
        ensures lines[i] != lines[j]
      {
        assert more[i] != more[j];
      }
      forall i | 0 <= i < |lines|
        ensures lines[i] != n
      {
        assert more[i] != more[|lines|];
      }
    }
  }

  lemma {:induction false} WithoutLines(lines: seq<Name>, n: Name)
    ensures ToSet(Without(lines, n)) == ToSet(lines) - {n}
    ensures NoDuplicates(lines) ==> NoDuplicates(Without(lines, n))
  {
    if lines != [] {
      var front, last := lines[..|lines| - 1], lines[|lines| - 1];
      assert lines == front + [last];
      WithoutLines(front, n);
      ToSetSnoc(front, last);
      ToSetSnoc(Without(front, n), last);
      assert last in Without(front, n) ==> last in ToSet(front);
    }
  }

  lemma ChangedLines(w: Whitelist, verb: Verb, n: Name)
    requires NoDuplicates(Lines(w))
    ensures NoDuplicates(Lines(Changed(w, verb, n)))
    ensures ToSet(Lines(Changed(w, verb, n))) ==
            if !ValidName(n) || verb == ALLOW_TEMP then ToSet(Lines(w))
            else if verb == ALLOW then ToSet(Lines(w)) + {n} else ToSet(Lines(w)) - {n}
  {
    hide ValidName, Without;
    ToSetSnoc(Lines(w), n);
    WithoutLines(Lines(w), n);
    assert [] + [n] == [n];
  }

  lemma {:induction false} AllChangedLines(w: Whitelist, verb: Verb, apps: seq<Name>)
    requires NoDuplicates(Lines(w))
    ensures NoDuplicates(Lines(AllChanged(w, verb, apps)))
    ensures ToSet(Lines(AllChanged(w, verb, apps))) ==
            if verb == ALLOW then ToSet(Lines(w)) + ValidNames(apps)
            else if verb == DENY then ToSet(Lines(w)) - ValidNames(apps) else ToSet(Lines(w))
  {
    hide ValidName, NoDuplicates, Changed, Lines;
    if apps != [] {
      var front, last := apps[..|apps| - 1], apps[|apps| - 1];
      AllChangedLines(w, verb, front);
      ChangedLines(AllChanged(w, verb, front), verb, last);
      assert apps == front + [last];
      assert ValidNames(apps) == ValidNames(front) + if ValidName(last) then {last} else {};
    }
  }

  lemma {:induction false} ValidOnlySet(apps: seq<Name>)
    ensures ToSet(ValidOnly(apps)) == ValidNames(apps)
  {
    hide ValidName;
    if apps != [] {
      var front, last := apps[..|apps| - 1], apps[|apps| - 1];
      ValidOnlySet(front);
      assert apps == front + [last];
      ToSetSnoc(ValidOnly(front), last);
    }
  }

  // ----- what a run means -----

  /** The state after booting: guard chains in place and both families freshly loaded. */
  ghost predicate Booted(s: State, defaults: seq<Name>, table: Table) {
    && s.sbox == Both(SBOX) && NoDuplicates(Lines(s.whitelist))
    && s.out == Both(ReloadedChain(Packages(Config(Some(defaults), s.whitelist)), table))
  }

  /** Who passes in a state. */
  ghost predicate Lets(s: State, temps: set<nat>, names: set<Name>, table: Table) {
    forall f: Family, p: Packet ::
      Passes(s.out.Of(f), s.sbox.Of(f), p) <==> p.uid in temps || Policy(names, table, p)
  }

  lemma ReloadedLets(s: State, defaults: seq<Name>, table: Table)
    requires s.sbox == Both(SBOX) && s.out == Both(ReloadedChain(Packages(Config(Some(defaults), s.whitelist)), table))
    ensures Lets(s, {}, ToSet(defaults) + ToSet(Lines(s.whitelist)), table)
  {
    hide ReloadedChain, Passes, Policy;
    var packages := defaults + Lines(s.whitelist);
    assert ToSet(packages) == ToSet(defaults) + ToSet(Lines(s.whitelist));
    forall f: Family, p: Packet
      ensures Passes(s.out.Of(f), s.sbox.Of(f), p) <==> Policy(ToSet(packages), table, p)
    {
      ReloadedMeansPolicy(packages, table, p);
    }
  }

  lemma TempLets(s: State, apps: seq<Name>, here: Table, temps: set<nat>, names: set<Name>, table: Table)
    requires Lets(s, temps, names, table)
    ensures Lets(s.(out := InFront(TempRules(apps, here), s.out)), temps + Uids(ValidNames(apps), here), names, table)
  {
    hide Passes, Policy, AllowRules, ValidOnly;
    ValidOnlySet(apps);
    forall f: Family, p: Packet
      ensures Passes(InFront(TempRules(apps, here), s.out).Of(f), s.sbox.Of(f), p) <==>
              p.uid in Uids(ValidNames(apps), here) || Passes(s.out.Of(f), s.sbox.Of(f), p)
    {
      PassesAllowRules(ValidOnly(apps), here, s.out.Of(f), s.sbox.Of(f), p);
    }
  }

  /** The state as a whole: the guard chains stand, the whitelist file has no duplicates and holds
      `names`, and the packets that pass are those of `temps` and those of the policy. */
  ghost predicate Means(s: State, defaults: seq<Name>, names: set<Name>, temps: set<nat>, table: Table) {
    && s.sbox == Both(SBOX) && NoDuplicates(Lines(s.whitelist)) && ToSet(Lines(s.whitelist)) == names
    && Lets(s, temps, ToSet(defaults) + names, table)
  }

  lemma NothingListed()
    ensures ToSet([]) == {} && NoDuplicates([])
  {
  }

  lemma StepMeans(s: State, op: Op, defaults: seq<Name>, names: set<Name>, temps: set<nat>, table: Table)
    requires Means(s, defaults, names, temps, table)
    ensures Means(Step(s, op, defaults), defaults, Names(names, [op]),
                  if Reloads(op) then {}
                  else if op.verb == ALLOW_TEMP then temps + Uids(ValidNames(op.apps), op.table) else temps,
                  if Reloads(op) then op.table else table)
  {
    hide NoDuplicates, Lets, ReloadedChain, Packages, InFront, TempRules, ValidName;
    assert [op][..0] == [];
    var s' := Step(s, op, defaults);
    if op.Change? {
      AllChangedLines(s.whitelist, op.verb, op.apps);
      assert op.apps == [] ==> ValidNames(op.apps) == {};
    }
    if Reloads(op) {
      assert op.Clear? ==> Lines(s'.whitelist) == [] && ToSet([]) == {} && NoDuplicates([]) by {
        NothingListed();
      }
      ReloadedLets(s', defaults, op.table);
    } else if op.apps == [] {
      assert names + {} == names && names - {} == names && temps + Uids({}, op.table) == temps;
    } else {
      TempLets(s, op.apps, op.table, temps, ToSet(defaults) + names, table);
    }
  }

  /** After any sequence of commands on a booted firewall, the whitelist file is free of duplicates
      and holds the fold of union, difference and empty over the valid names; and in both families a
      packet passes exactly when its uid was allowed temporarily since the last reload, or is root,
      or belongs to a listed package and leaves through the tunnel. */
  lemma {:induction false} RunMeans(s: State, ops: seq<Op>, defaults: seq<Name>, table: Table)
    requires Booted(s, defaults, table)
    ensures Means(Run(s, ops, defaults), defaults, Names(ToSet(Lines(s.whitelist)), ops), Temps(ops),
                  LastTable(table, ops))
  {
    hide Means, Step, NoDuplicates, Lets, ReloadedChain, Packages;
    if ops == [] {
      BootedMeans(s, defaults, table);
    } else {
      var front, op := ops[..|ops| - 1], ops[|ops| - 1];
      RunMeans(s, front, defaults, table);
      var names := Names(ToSet(Lines(s.whitelist)), front);
      StepMeans(Run(s, front, defaults), op, defaults, names, Temps(front), LastTable(table, front));
      assert [op][..0] == [];
    }
  }

  lemma BootedMeans(s: State, defaults: seq<Name>, table: Table)
    requires Booted(s, defaults, table)
    ensures Means(s, defaults, ToSet(Lines(s.whitelist)), {}, table)
  {
    hide ReloadedChain, Packages, NoDuplicates, Lets;
    ReloadedLets(s, defaults, table);
  }

  // ----- names, spelled out -----

  lemma ValidNamesIff(apps: seq<Name>, n: Name)
    ensures n in ValidNames(apps) <==> n in apps && PackageName(n)
  {
    hide PackageName, ValidName;
    ValidNameIff(n);
  }

  /** A package name that is allowed is in the whitelist afterwards, and its uid passes through the tunnel
      in both families. */
  lemma AllowedNamePasses(s: State, apps: seq<Name>, defaults: seq<Name>, table: Table, n: Name, f: Family)
    requires s.sbox == Both(SBOX) && NoDuplicates(Lines(s.whitelist)) && n in apps && PackageName(n)
    ensures var s' := Controlled(s, ALLOW, apps, defaults, table);
      && n in Lines(s'.whitelist)
      && (n in table ==> Passes(s'.out.Of(f), s'.sbox.Of(f), Packet(table[n], "tun0")))
  {
    hide PackageName, ReloadedChain, Packages, NoDuplicates, Passes, ValidName, AllChanged;
    var s' := Controlled(s, ALLOW, apps, defaults, table);
    ValidNamesIff(apps, n);
    AllChangedLines(s.whitelist, ALLOW, apps);
    ReloadedLets(s', defaults, table);
    assert n in ToSet(Lines(s'.whitelist));
    if n in table {
      assert table[n] in Uids(ToSet(defaults) + ToSet(Lines(s'.whitelist)), table);
    }
  }

  /** A package name that is denied is not in the whitelist afterwards. */
  lemma DeniedNameGone(s: State, apps: seq<Name>, defaults: seq<Name>, table: Table, n: Name)
    requires NoDuplicates(Lines(s.whitelist)) && n in apps && PackageName(n)
    ensures n !in Lines(Controlled(s, DENY, apps, defaults, table).whitelist)
  {
    hide PackageName, ReloadedChain, Packages, NoDuplicates, ValidName, AllChanged;
    ValidNamesIff(apps, n);
    AllChangedLines(s.whitelist, DENY, apps);
    assert n !in ToSet(Lines(AllChanged(s.whitelist, DENY, apps)));
  }

  /** The controller returns 0 exactly if there are names and each is a package name, installed if it is
      to be allowed temporarily; otherwise 1. Anything else is not added to the whitelist. */
  lemma ReturnCodeIff(verb: Verb, apps: seq<Name>, table: Table)
    ensures ReturnCode(verb, apps, table) ==
            if apps != [] && (forall n :: n in apps ==> PackageName(n) && (verb == ALLOW_TEMP ==> n in table))
            then 0 else 1
  {
    hide PackageName, ValidName;
    forall n | n in apps
      ensures ValidName(n) <==> PackageName(n)
    {
      ValidNameIff(n);
    }
  }

  lemma OtherNameNotAdded(s: State, verb: Verb, apps: seq<Name>, defaults: seq<Name>, table: Table, n: Name)
    requires NoDuplicates(Lines(s.whitelist)) && !PackageName(n)
    ensures n in Lines(Controlled(s, verb, apps, defaults, table).whitelist) ==> n in Lines(s.whitelist)
  {
    hide PackageName, ReloadedChain, Packages, NoDuplicates, ValidName, AllChanged, TempRules;
    ValidNamesIff(apps, n);
    AllChangedLines(s.whitelist, verb, apps);
    TempKeepsWhitelist(s.whitelist, apps);
    assert n in Lines(AllChanged(s.whitelist, verb, apps)) <==> n in ToSet(Lines(AllChanged(s.whitelist, verb, apps)));
    assert n in Lines(s.whitelist) <==> n in ToSet(Lines(s.whitelist));
  }
}
