/** The firewall controller with its whitelist file, and the flush command. */
module FirewallControl {
  import opened Bytes
  import opened Charsets
  import opened Firewall
  import opened FirewallFaults
  import opened FirewallScripts

  // ----- names and the whitelist file -----

  predicate NameChar(b: Byte) {
    97 <= b <= 122 || 65 <= b <= 90 || 48 <= b <= 57 || b == 95 || b == 46
  }

  /** `check_package_name`. */
  predicate ValidName(n: Name) {
    n != [] && forall i :: 0 <= i < |n| ==> NameChar(n[i])
  }

  /** A name of `[a-zA-Z0-9_.]`, spelled out. */
  predicate PackageName(n: Name) {
    n != [] && MadeOf(n, "abcdefghijklmnopqrstuvwxyzABCDEFGHIJKLMNOPQRSTUVWXYZ0123456789_.")
  }

  lemma ValidNameIff(n: Name)
    ensures ValidName(n) <==> PackageName(n)
  {
    hide Ascii;
    forall i | 0 <= i < |n|
      ensures NameChar(n[i]) <==>
              n[i] in Ascii("abcdefghijklmnopqrstuvwxyzABCDEFGHIJKLMNOPQRSTUVWXYZ0123456789_.")
    {
      PackageChars(n[i]);
    }
  }

  type Whitelist = Option<seq<Name>>

  /** `grep -Fvx`: the lines other than `n`. */
  function Without(lines: seq<Name>, n: Name): seq<Name> {
    if lines == [] then [] else
      var rest := Without(lines[..|lines| - 1], n);
      if lines[|lines| - 1] == n then rest else rest + [lines[|lines| - 1]]
  }

  function Added(w: Whitelist, n: Name): Whitelist {
    if w.None? then Some([n]) else if n in w.value then w else Some(w.value + [n])
  }

  function Removed(w: Whitelist, n: Name): Whitelist {
    if w.None? then None else if n in w.value then Some(Without(w.value, n)) else w
  }

  datatype Verb = ALLOW | DENY | ALLOW_TEMP

  function Changed(w: Whitelist, verb: Verb, n: Name): Whitelist {
    if !ValidName(n) then w
    else match verb
      case ALLOW => Added(w, n)
      case DENY => Removed(w, n)
      case ALLOW_TEMP => w
  }

  /** The whitelist after the controller's loop over the applications. */
  function AllChanged(w: Whitelist, verb: Verb, apps: seq<Name>): Whitelist {
    if apps == [] then w else Changed(AllChanged(w, verb, apps[..|apps| - 1]), verb, apps[|apps| - 1])
  }

  function ValidOnly(apps: seq<Name>): seq<Name> {
    if apps == [] then [] else
      var front, last := ValidOnly(apps[..|apps| - 1]), apps[|apps| - 1];
      if ValidName(last) then front + [last] else front
  }

  /** The rules that allow-temp leaves in front of `oem_out`. */
  function TempRules(apps: seq<Name>, table: Table): Chain {
    AllowRules(ValidOnly(apps), table)
  }

  // ----- the whole firewall -----

  datatype State = State(whitelist: Whitelist, out: Tables, sbox: Tables)

  function ReloadedState(s: State, defaults: seq<Name>, table: Table): State {
    s.(out := Both(ReloadedChain(Packages(Config(Some(defaults), s.whitelist)), table)))
  }

  /** `dumbos-firewallctl.sh` without faults. */
  function Controlled(s: State, verb: Verb, apps: seq<Name>, defaults: seq<Name>, table: Table): State {
    if apps == [] then s
    else if verb == ALLOW_TEMP then s.(out := InFront(TempRules(apps, table), s.out))
    else ReloadedState(s.(whitelist := AllChanged(s.whitelist, verb, apps)), defaults, table)
  }

  function Flushed(s: State, defaults: seq<Name>, table: Table): State {
    ReloadedState(s.(whitelist := None), defaults, table)
  }

  lemma {:induction false} TempKeepsWhitelist(w: Whitelist, apps: seq<Name>)
    ensures AllChanged(w, ALLOW_TEMP, apps) == w
  {
    if apps != [] {
      TempKeepsWhitelist(w, apps[..|apps| - 1]);
    }
  }

  /** Whether the controller can process the application at all. */
  predicate Processed(verb: Verb, app: Name, table: Table) {
    ValidName(app) && (verb == ALLOW_TEMP ==> app in table)
  }

  /** What the controller returns, if iptables does what it is told. */
  function ReturnCode(verb: Verb, apps: seq<Name>, table: Table): int {
    if apps != [] && forall n :: n in apps ==> Processed(verb, n, table) then 0 else 1
  }

  class Controller {
    var whitelist: Whitelist
    const defaults: seq<Name>
    const net: Netfilter

    constructor (defaults: seq<Name>, whitelist: Whitelist, net: Netfilter)
      ensures this.defaults == defaults && this.whitelist == whitelist && this.net == net
    {
      this.defaults, this.whitelist, this.net := defaults, whitelist, net;
    }

    ghost function Now(): State
      reads this, net
    {
      State(whitelist, net.out, net.sbox)
    }

    method AddPackage(package: Name)
      modifies this`whitelist
      ensures whitelist == Added(old(whitelist), package)
    {
      if whitelist.Some? {
        if package in whitelist.value {
          return;
        }
        whitelist := Some(whitelist.value + [package]);
      } else {
        whitelist := Some([package]);
      }
    }

    /** The filtered copy in TMPFILE replaces the whitelist. */
    method RemovePackage(package: Name)
      modifies this`whitelist
      ensures whitelist == Removed(old(whitelist), package)
    {
      if whitelist.None? || package !in whitelist.value {
        return;
      }
      var lines, tmp := whitelist.value, [];
      for i := 0 to |lines|
        invariant tmp == Without(lines[..i], package)
      {
        assert lines[..i + 1][..i] == lines[..i];
        if lines[i] != package {
          tmp := tmp + [lines[i]];
        }
      }
      assert lines[..|lines|] == lines;
      whitelist := Some(tmp);
    }

    method AddPackageTemp(package: Name, table: Table) returns (code: int)
      requires net.Valid()
      modifies net
      ensures net.Valid() && net.sbox == old(net.sbox)
      ensures net.NoFaults() ==> code == if package in table then 0 else 1
      ensures net.NoFaults() ==>
                net.out == if package in table then InFront([Allow(table[package])], old(net.out)) else old(net.out)
      ensures AllGrown(old(net.states), net.states, old(net.out), Uids({package}, table))
    {
      hide BothGrown;
      if package in table {
        assert Uids({package}, table) == {table[package]};
      }
      if package !in table {
        return 1;
      }
      var ok := net.FirewallAllow(table[package], {});
      code := if ok then 0 else 1;
    }

    /** The loop over the applications. */
    method Process(verb: Verb, apps: seq<Name>, table: Table) returns (returnCode: int)
      requires net.Valid()
      modifies this`whitelist, net
      ensures net.Valid() && net.sbox == old(net.sbox)
      ensures whitelist == AllChanged(old(whitelist), verb, apps)
      ensures verb != ALLOW_TEMP ==> net.out == old(net.out)
      ensures verb == ALLOW_TEMP && net.NoFaults() ==> net.out == InFront(TempRules(apps, table), old(net.out))
      ensures verb != ALLOW_TEMP ==> net.states == old(net.states)
      ensures old(net.states) <= net.states
      ensures AllGrown(old(net.states), net.states, old(net.out), Uids(ToSet(ValidOnly(apps)), table))
      ensures returnCode in {0, 1}
      ensures verb != ALLOW_TEMP || net.NoFaults() ==>
                (returnCode == 0 <==> forall n :: n in apps ==> Processed(verb, n, table))
    {
      hide AllChanged, TempRules, InFront, ValidName, AllGrown, BothGrown, Uids, ToSet, ValidOnly;
      returnCode := 0;
      NothingGrown(net.states, net.out, table);
      NothingProcessed(whitelist, verb, table, net.out);
      assert apps[..0] == [];
      for i := 0 to |apps|
        invariant net.Valid() && net.sbox == old(net.sbox)
        invariant whitelist == AllChanged(old(whitelist), verb, apps[..i])
        invariant verb != ALLOW_TEMP ==> net.out == old(net.out)
        invariant verb == ALLOW_TEMP && net.NoFaults() ==>
                    net.out == InFront(TempRules(apps[..i], table), old(net.out))
        invariant old(net.states) <= net.states && (verb != ALLOW_TEMP ==> net.states == old(net.states))
        invariant AllGrown(old(net.states), net.states, old(net.out), Uids(ToSet(ValidOnly(apps[..i])), table))
        invariant BothGrown(net.out, old(net.out), Uids(ToSet(ValidOnly(apps[..i])), table))
        invariant returnCode in {0, 1}
        invariant verb != ALLOW_TEMP || net.NoFaults() ==>
                    (returnCode == 0 <==> forall j :: 0 <= j < i ==> Processed(verb, apps[j], table))
      {
        NextProcessed(old(whitelist), verb, apps, i, table, old(net.out));
        NextUids(apps, i, table);
        ghost var states, out := net.states, net.out;
        if !ValidName(apps[i]) {
          returnCode := 1;
          continue;
        }
        WiderGrown(old(net.states), states, old(net.out), out, Uids(ToSet(ValidOnly(apps[..i])), table),
                   Uids({apps[i]}, table));
        if verb == ALLOW {
          AddPackage(apps[i]);
        } else if verb == DENY {
          RemovePackage(apps[i]);
        } else {
          var code := AddPackageTemp(apps[i], table);
          GrownMore(old(net.states), states, net.states, old(net.out), out, net.out,
                    Uids(ToSet(ValidOnly(apps[..i])), table), Uids({apps[i]}, table));
          if code != 0 {
            returnCode := 1;
          }
        }
      }
      assert apps[..|apps|] == apps;
    }

    /** `dumbos-firewallctl.sh`: the loop, and a reload unless the change is temporary. Whatever fails, the
        call is one episode of the history of `oem_out`. */
    method Control(verb: Verb, apps: seq<Name>, table: Table) returns (returnCode: int, ghost e: Episode)
      requires net.Valid()
      modifies this`whitelist, net
      ensures net.Valid()
      ensures net.NoFaults() ==> Now() == Controlled(old(Now()), verb, apps, defaults, table)
      ensures verb != ALLOW_TEMP || net.NoFaults() ==> returnCode == ReturnCode(verb, apps, table)
      ensures net.states == old(net.states) + e.states && Takes(old(net.out), e)
      ensures apps == [] ==> e.states == []
      ensures apps != [] && verb == ALLOW_TEMP ==> e == Allows(e.states, Uids(ToSet(ValidOnly(apps)), table))
      ensures apps != [] && verb != ALLOW_TEMP ==>
                e.Loads? && e.config == Config(Some(defaults), whitelist) && e.table == table
    {
      hide AllChanged, TempRules, InFront, ReloadedChain, Packages, Stages, AllGrown, Takes, Uids, ToSet, Allowed;
      TempKeepsWhitelist(whitelist, apps);
      e := Allows([], Uids(ToSet(ValidOnly(apps)), table));
      if |apps| + 1 < 2 {
        NothingAllowed(net.states, net.out, e.uids);
        return 1, e;
      }
      returnCode := Process(verb, apps, table);
      if verb != ALLOW_TEMP {
        ghost var before, out := net.states, net.out;
        var code, from4, from6 := net.Reload(Config(Some(defaults), whitelist), table);
        e := Loads(net.states[|before|..], Config(Some(defaults), whitelist), table, from4, from6);
        LoadTakes(before, net.states, out, e);
      } else {
        e := Allows(net.states[|old(net.states)|..], Uids(ToSet(ValidOnly(apps)), table));
        AllowTakes(old(net.states), net.states, old(net.out), e);
      }
    }

    /** `payload_cmd_firewall_flush`: remove the whitelist and reload. */
    method Flush(table: Table) returns (err: int, ghost e: Episode)
      requires net.Valid()
      modifies this`whitelist, net
      ensures net.Valid()
      ensures net.NoFaults() ==> err == 0 && Now() == Flushed(old(Now()), defaults, table)
      ensures net.states == old(net.states) + e.states && Takes(old(net.out), e)
      ensures e.Loads? && e.config == Config(Some(defaults), None) && e.table == table
    {
      hide ReloadedChain, Packages, Stages, Takes, Allowed;
      whitelist := None;
      var code, from4, from6 := net.Reload(Config(Some(defaults), whitelist), table);
      e := Loads(net.states[|old(net.states)|..], Config(Some(defaults), None), table, from4, from6);
      LoadTakes(old(net.states), net.states, old(net.out), e);
      err := code;
    }
  }

  lemma LoadTakes(before: seq<Tables>, after: seq<Tables>, out: Tables, e: Episode)
    requires before <= after && e.Loads? && e.states == after[|before|..]
    requires Stages(e.states, V4, out.v4, e.from4, Allowed(e.config, e.table))
    requires Stages(e.states, V6, out.v6, e.from6, Allowed(e.config, e.table))
    ensures after == before + e.states && Takes(out, e)
  {
    hide Stages, Allowed;
  }

  lemma AllowTakes(before: seq<Tables>, after: seq<Tables>, out: Tables, e: Episode)
    requires e.Allows? && AllGrown(before, after, out, e.uids) && e.states == after[|before|..]
    ensures after == before + e.states && Takes(out, e)
  {
    hide BothGrown;
  }

  lemma NothingAllowed(states: seq<Tables>, out: Tables, uids: set<nat>)
    ensures states == states + [] && Takes(out, Allows([], uids))
  {
  }

  lemma NothingGrown(states: seq<Tables>, out: Tables, table: Table)
    ensures AllGrown(states, states, out, Uids(ToSet(ValidOnly([])), table))
    ensures BothGrown(out, out, Uids(ToSet(ValidOnly([])), table))
  {
    assert Uids(ToSet(ValidOnly([])), table) == {};
    GrownOne(out.v4, 0);
    GrownOne(out.v6, 0);
  }

  lemma NextUids(apps: seq<Name>, i: nat, table: Table)
    requires i < |apps|
    ensures var uids := Uids(ToSet(ValidOnly(apps[..i])), table);
      Uids(ToSet(ValidOnly(apps[..i + 1])), table) ==
      if ValidName(apps[i]) then uids + Uids({apps[i]}, table) else uids
  {
    hide ValidName;
    assert apps[..i + 1][..i] == apps[..i];
    var front := ValidOnly(apps[..i]);
    assert ToSet(front + [apps[i]]) == ToSet(front) + {apps[i]};
  }

  lemma GrownMore(s0: seq<Tables>, s1: seq<Tables>, s2: seq<Tables>, t0: Tables, t1: Tables, t2: Tables,
                  uids: set<nat>, more: set<nat>)
    requires AllGrown(s0, s1, t0, uids) && BothGrown(t1, t0, uids) && AllGrown(s1, s2, t1, more)
    requires s1 != [] && s1[|s1| - 1] == t1 && s2 != [] && s2[|s2| - 1] == t2
    ensures s0 <= s2 && AllGrown(s0, s2, t0, uids + more) && BothGrown(t2, t0, uids + more)
  {
    hide Grown;
    assert |s1| == |s2| ==> s1 == s2;
    forall t | t == t1 || BothGrown(t, t1, more)
      ensures BothGrown(t, t0, uids + more)
    {
      if t == t1 {
        MoreGrown(t1.v4, t0.v4, uids, uids + more);
        MoreGrown(t1.v6, t0.v6, uids, uids + more);
      } else {
        GrownThen(t0.v4, t1.v4, t.v4, uids, more);
        GrownThen(t0.v6, t1.v6, t.v6, uids, more);
      }
    }
    forall i | |s0| <= i < |s2|
      ensures BothGrown(s2[i], t0, uids + more)
    {
      if i < |s1| {
        assert s2[i] == s1[i] && BothGrown(s1[i], t0, uids);
        MoreGrown(s1[i].v4, t0.v4, uids, uids + more);
        MoreGrown(s1[i].v6, t0.v6, uids, uids + more);
      }
    }
  }

  lemma WiderGrown(s0: seq<Tables>, s1: seq<Tables>, t0: Tables, t1: Tables, uids: set<nat>, more: set<nat>)
    requires AllGrown(s0, s1, t0, uids) && BothGrown(t1, t0, uids)
    ensures AllGrown(s0, s1, t0, uids + more) && BothGrown(t1, t0, uids + more)
  {
    hide Grown;
    forall t | BothGrown(t, t0, uids)
      ensures BothGrown(t, t0, uids + more)
    {
      MoreGrown(t.v4, t0.v4, uids, uids + more);
      MoreGrown(t.v6, t0.v6, uids, uids + more);
    }
  }

  lemma MoreGrown(chain: Chain, before: Chain, uids: set<nat>, more: set<nat>)
    requires Grown(chain, before, uids) && uids <= more
    ensures Grown(chain, before, more)
  {
  }

  lemma NothingProcessed(w: Whitelist, verb: Verb, table: Table, out: Tables)
    ensures AllChanged(w, verb, []) == w && InFront(TempRules([], table), out) == out
  {
    NothingInFront(table, out);
  }

  lemma NextProcessed(w: Whitelist, verb: Verb, apps: seq<Name>, i: nat, table: Table, out: Tables)
    requires i < |apps|
    ensures AllChanged(w, verb, apps[..i + 1]) == Changed(AllChanged(w, verb, apps[..i]), verb, apps[i])
    ensures InFront(TempRules(apps[..i + 1], table), out) ==
            if ValidName(apps[i]) && apps[i] in table
            then InFront([Allow(table[apps[i]])], InFront(TempRules(apps[..i], table), out))
            else InFront(TempRules(apps[..i], table), out)
  {
    hide ValidName, AllowRules, InFront;
    assert apps[..i + 1][..i] == apps[..i];
    if ValidName(apps[i]) {
      var v := ValidOnly(apps[..i]) + [apps[i]];
      AllowRulesNext(v, |v| - 1, table, out);
      assert v[..|v|] == v && v[..|v| - 1] == ValidOnly(apps[..i]);
    }
  }
}
