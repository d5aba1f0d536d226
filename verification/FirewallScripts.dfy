/** The reload script and the boot script, command by command. Every iptables command and every reading
    of a file may fail. */
module FirewallScripts {
  import opened Bytes
  import opened Firewall

  datatype Family = V4 | V6

  /** One chain for each IP family. */
  datatype Tables = Tables(v4: Chain, v6: Chain) {
    function Of(f: Family): Chain {
      if f == V4 then v4 else v6
    }

    function With(f: Family, chain: Chain): (t: Tables)
      ensures t.Of(f) == chain && forall g :: g != f ==> t.Of(g) == Of(g)
    {
      if f == V4 then this.(v4 := chain) else this.(v6 := chain)
    }
  }

  function Both(chain: Chain): Tables {
    Tables(chain, chain)
  }

  /** The default list in /system/etc and the whitelist in /data; a missing file is `None`. */
  datatype Config = Config(defaults: Option<seq<Name>>, whitelist: Option<seq<Name>>)

  function Packages(c: Config): seq<Name> {
    (if c.defaults.Some? then c.defaults.value else []) + (if c.whitelist.Some? then c.whitelist.value else [])
  }

  /** Who may pass at all. */
  function Allowed(c: Config, table: Table): set<nat> {
    Uids(ToSet(Packages(c)), table) + {0}
  }

  function InFront(rules: Chain, t: Tables): Tables {
    Tables(rules + t.v4, rules + t.v6)
  }

  function BehindFirst(r: Rule, t: Tables): Tables
    requires t.v4 != [] && t.v6 != []
  {
    Tables([t.v4[0], r] + t.v4[1..], [t.v6[0], r] + t.v6[1..])
  }

  ghost predicate BothGuarded(t: Tables, allowed: set<nat>) {
    Guarded(t.v4, allowed) && Guarded(t.v6, allowed)
  }

  /** What the states of a reload keep for one family: until index `from` its chain is as before, or
      open between flush and append; from then on it is guarded. */
  ghost predicate Stages(states: seq<Tables>, f: Family, before: Chain, from: nat, allowed: set<nat>) {
    && from <= |states|
    && (forall i :: 0 <= i < from ==> states[i].Of(f) in {before, []})
    && (forall i :: from <= i < |states| ==> Guarded(states[i].Of(f), allowed))
  }

  /** The states after some steps: those before, and then only guarded ones. */
  ghost predicate StaysGuarded(before: seq<Tables>, after: seq<Tables>, allowed: set<nat>) {
    before <= after && forall i :: |before| <= i < |after| ==> BothGuarded(after[i], allowed)
  }

  /** In the states after those of `before`, both families have grown from `out` by RETURNs for `uids`. */
  ghost predicate AllGrown(before: seq<Tables>, after: seq<Tables>, out: Tables, uids: set<nat>) {
    && before <= after
    && forall i :: |before| <= i < |after| ==> BothGrown(after[i], out, uids)
  }

  ghost predicate BothGrown(t: Tables, out: Tables, uids: set<nat>) {
    Grown(t.v4, out.v4, uids) && Grown(t.v6, out.v6, uids)
  }

  lemma StaysGuardedThen(a: seq<Tables>, b: seq<Tables>, c: seq<Tables>, allowed: set<nat>)
    requires StaysGuarded(a, b, allowed) && StaysGuarded(b, c, allowed)
    ensures StaysGuarded(a, c, allowed)
  {
    forall i | |a| <= i < |c|
      ensures BothGuarded(c[i], allowed)
    {
      if i < |b| {
        assert c[i] == b[i];
      }
    }
  }

  lemma StaysGuardedNow(a: seq<Tables>, allowed: set<nat>)
    ensures StaysGuarded(a, a, allowed)
  {
  }

  lemma AllowRulesNext(packages: seq<Name>, i: nat, table: Table, t: Tables)
    requires i < |packages|
    ensures InFront(AllowRules(packages[..i + 1], table), t) ==
            if packages[i] in table
            then InFront([Allow(table[packages[i]])], InFront(AllowRules(packages[..i], table), t))
            else InFront(AllowRules(packages[..i], table), t)
  {
    assert packages[..i + 1][..i] == packages[..i];
    var r := AllowRules(packages[..i], table);
    if packages[i] in table {
      var a := [Allow(table[packages[i]])];
      assert a + r + t.v4 == a + (r + t.v4) && a + r + t.v6 == a + (r + t.v6);
    }
  }

  lemma NothingInFront(table: Table, t: Tables)
    ensures InFront(AllowRules([], table), t) == t
  {
    assert [] + t.v4 == t.v4 && [] + t.v6 == t.v6;
  }

  class Netfilter {
    var out: Tables
    var sbox: Tables
    const faults: nat -> bool
    var clock: nat
    ghost var states: seq<Tables> // every state that `oem_out` has been in

    ghost predicate Valid()
      reads this
    {
      states != [] && states[|states| - 1] == out
    }

    ghost predicate NoFaults() {
      forall n :: !faults(n)
    }

    constructor (out: Tables, sbox: Tables, faults: nat -> bool)
      ensures Valid() && this.out == out && this.sbox == sbox && this.faults == faults && states == [out]
    {
      this.out, this.sbox, this.faults, this.clock := out, sbox, faults, 0;
      states := [out];
    }

    /** Whether the next command fails. */
    method Fails() returns (failed: bool)
      modifies this`clock
      ensures NoFaults() ==> !failed
    {
      failed := faults(clock);
      clock := clock + 1;
    }

    /** One iptables command that sets a chain of `oem_out`, unless it fails. */
    method Change(f: Family, chain: Chain) returns (ok: bool)
      requires Valid()
      modifies this`clock, this`out, this`states
      ensures Valid() && (NoFaults() ==> ok)
      ensures out == if ok then old(out).With(f, chain) else old(out)
      ensures states == old(states) + [out]
    {
      var failed := Fails();
      ok := !failed;
      if ok {
        out := out.With(f, chain);
      }
      states := states + [out];
    }

    /** One round of the first loop: flush, and append REJECT. */
    method Close(f: Family) returns (ok: bool)
      requires Valid()
      modifies this`clock, this`out, this`states
      ensures Valid() && (NoFaults() ==> ok)
      ensures ok ==> out == old(out).With(f, [REJECT_ALL])
      ensures ok ==> states == old(states) + [old(out).With(f, []), out]
      ensures !ok ==> (states == old(states) + [out] && out == old(out)) ||
                      (states == old(states) + [out, out] && out == old(out).With(f, []))
    {
      ok := Change(f, []);
      if ok {
        ok := Change(f, out.Of(f) + [REJECT_ALL]);
      }
    }

    /** `firewall_allow` and `add_package_temp`: a RETURN for the uid in front of both chains; the
        first failure ends it. */
    method FirewallAllow(uid: nat, ghost allowed: set<nat>) returns (ok: bool)
      requires Valid()
      modifies this`clock, this`out, this`states
      ensures Valid() && (NoFaults() ==> ok && out == InFront([Allow(uid)], old(out)))
      ensures BothGuarded(old(out), allowed) && uid in allowed ==>
                BothGuarded(out, allowed) && StaysGuarded(old(states), states, allowed)
      ensures AllGrown(old(states), states, old(out), {uid})
    {
      hide Grown, Guarded;
      GrownOne(out.v4, uid);
      GrownOne(out.v6, uid);
      if BothGuarded(out, allowed) && uid in allowed {
        GuardedInsert(out.v4, Allow(uid), allowed);
        GuardedInsert(out.v6, Allow(uid), allowed);
      }
      ok := Change(V4, [Allow(uid)] + out.v4);
      if ok {
        ok := Change(V6, [Allow(uid)] + out.v6);
      }
    }

    /** The loop over the packages. */
    method AllowPackages(packages: seq<Name>, table: Table, ghost allowed: set<nat>)
      requires Valid() && BothGuarded(out, allowed)
      requires forall n :: n in packages && n in table ==> table[n] in allowed
      modifies this`clock, this`out, this`states
      ensures Valid() && BothGuarded(out, allowed)
      ensures StaysGuarded(old(states), states, allowed)
      ensures NoFaults() ==> out == InFront(AllowRules(packages, table), old(out))
    {
      hide AllowRules, InFront, BothGuarded, StaysGuarded;
      NothingInFront(table, out);
      assert packages[..0] == [];
      StaysGuardedNow(states, allowed);
      for i := 0 to |packages|
        invariant Valid() && BothGuarded(out, allowed) && StaysGuarded(old(states), states, allowed)
        invariant NoFaults() ==> out == InFront(AllowRules(packages[..i], table), old(out))
      {
        AllowRulesNext(packages, i, table, old(out));
        if packages[i] in table {
          ghost var before := states;
          var ok := FirewallAllow(table[packages[i]], allowed);
          StaysGuardedThen(old(states), before, states, allowed);
        }
      }
      assert packages[..|packages|] == packages;
    }

    /** The last loop: the jump to `oem_sbox` behind the first rule. The script stops at a failure. */
    method InsertGuards(ghost allowed: set<nat>) returns (ok: bool)
      requires Valid() && BothGuarded(out, allowed)
      modifies this`clock, this`out, this`states
      ensures Valid() && BothGuarded(out, allowed)
      ensures StaysGuarded(old(states), states, allowed)
      ensures NoFaults() ==> ok && out == BehindFirst(GUARD, old(out))
    {
      GuardedInsertSecond(out.v4, allowed);
      GuardedInsertSecond(out.v6, allowed);
      ok := Change(V4, [out.v4[0], GUARD] + out.v4[1..]);
      if ok {
        ok := Change(V6, [out.v6[0], GUARD] + out.v6[1..]);
      }
    }

    /** The first loop of `dumbos-firewall.sh`, for both families. */
    method CloseAll(ghost allowed: set<nat>) returns (ok: bool, ghost from4: nat, ghost from6: nat)
      requires Valid()
      modifies this`clock, this`out, this`states
      ensures Valid() && old(states) <= states && (NoFaults() ==> ok)
      ensures Stages(states[|old(states)|..], V4, old(out).v4, from4, allowed)
      ensures Stages(states[|old(states)|..], V6, old(out).v6, from6, allowed)
      ensures ok ==> out == Both([REJECT_ALL])
    {
      hide Stages;
      ghost var s0, t0 := states, out;
      ok := Close(V4);
      ghost var a := History(ok, V4, t0, out, |states| - |s0|);
      HistoryBehind(s0, a, []);
      if !ok {
        from4, from6 := |a|, |a|;
        NotClosed(a, t0, allowed);
        return;
      }
      ghost var t1 := out;
      ok := Close(V6);
      ghost var b := History(ok, V6, t1, out, |states| - |s0| - |a|);
      HistoryBehind(s0, a, b);
      from4, from6 := 1, if ok then 3 else |a + b|;
      FirstClosed(a, b, t0, t1, out, ok, allowed);
    }

    /** `dumbos-firewall.sh`. Whatever fails and wherever the script stops, each family's chain is as
        before, or open between its flush and its REJECT, until index `from` of the new states; from
        then on it only lets through root and the uids of the configured packages. Without faults
        both chains end up as `ReloadedChain`, whatever they were before. */
    method Reload(config: Config, table: Table) returns (code: int, ghost from4: nat, ghost from6: nat)
      requires Valid()
      modifies this`clock, this`out, this`states
      ensures Valid() && old(states) <= states
      ensures Stages(states[|old(states)|..], V4, old(out).v4, from4, Allowed(config, table))
      ensures Stages(states[|old(states)|..], V6, old(out).v6, from6, Allowed(config, table))
      ensures NoFaults() && config.defaults.Some? ==>
                code == 0 && out == Both(ReloadedChain(Packages(config), table))
    {
      hide AllowRules, InFront, Guarded, Uids, Stages, Packages, ReloadedChain, StaysGuarded;
      ghost var allowed := Allowed(config, table);
      code := 1;
      var ok;
      ok, from4, from6 := CloseAll(allowed);
      if !ok || config.defaults.None? {
        return;
      }
      var failed := Fails(); // cat, mktemp or pm
      if failed {
        return;
      }
      ghost var closed := states;
      RejectIsGuarded(allowed);
      AllowedUids(config, table);
      AllowPackages(Packages(config), table, allowed);
      ghost var allowing := states;
      ok := FirewallAllow(0, allowed);
      StaysGuardedThen(closed, allowing, states, allowed);
      ghost var rooted := states;
      GuardedNotEmpty(out, allowed);
      ReloadedOut(Packages(config), table);
      ok := InsertGuards(allowed);
      StaysGuardedThen(closed, rooted, states, allowed);
      StagesMore(closed, states, |old(states)|, V4, old(out).v4, from4, allowed);
      StagesMore(closed, states, |old(states)|, V6, old(out).v6, from6, allowed);
      if !ok {
        return;
      }
      failed := Fails(); // rm
      code := if failed then 1 else 0;
    }

    /** One iptables command on `oem_sbox`. */
    method ChangeSbox(f: Family, chain: Chain)
      modifies this`clock, this`sbox
      ensures NoFaults() ==> sbox == old(sbox).With(f, chain)
    {
      var failed := Fails();
      if !failed {
        sbox := sbox.With(f, chain);
      }
    }

    /** One family's part of `dumbos-firewall-init.sh`: the guard chain is rebuilt rule by rule. */
    method BuildSbox(f: Family)
      modifies this`clock, this`sbox
      ensures NoFaults() ==> sbox == old(sbox).With(f, SBOX)
    {
      ChangeSbox(f, []);
      ChangeSbox(f, sbox.Of(f) + [Rule(Uid(0), RETURN)]);
      ChangeSbox(f, sbox.Of(f) + [Rule(Out("tun0"), RETURN)]);
      ChangeSbox(f, sbox.Of(f) + [Rule(Any, DROP)]);
    }

    /** The first loop of `dumbos-firewall-init.sh`, which goes on after failures. */
    method CloseAtBoot()
      requires Valid()
      modifies this`clock, this`out, this`states
      ensures Valid() && old(states) < states
      ensures forall i :: |old(states)| <= i < |states| ==> Closing(states[i], old(out))
    {
      ghost var none: Chain := [];
      assert none + [REJECT_ALL] == [REJECT_ALL];
      var ok := Change(V4, []);
      assert Closing(out, old(out));
      ok := Change(V4, out.v4 + [REJECT_ALL]);
      assert Closing(out, old(out));
      ok := Change(V6, []);
      assert Closing(out, old(out));
      ok := Change(V6, out.v6 + [REJECT_ALL]);
    }

    /** `dumbos-firewall-init.sh`: close both chains, build both guard chains, and reload. The first
        part goes on after failures; the reload, from index `at` of the history on, keeps what every
        reload keeps. */
    method Boot(config: Config, table: Table)
      returns (code: int, ghost at: nat, ghost from4: nat, ghost from6: nat)
      requires Valid()
      modifies this`clock, this`out, this`sbox, this`states
      ensures Valid() && old(states) <= states && |old(states)| < at <= |states|
      ensures forall i :: |old(states)| <= i < at ==> Closing(states[i], old(out))
      ensures Stages(states[at..], V4, states[at - 1].v4, from4, Allowed(config, table))
      ensures Stages(states[at..], V6, states[at - 1].v6, from6, Allowed(config, table))
      ensures NoFaults() && config.defaults.Some? ==>
                code == 0 && sbox == Both(SBOX) && out == Both(ReloadedChain(Packages(config), table))
    {
      hide ReloadedChain, Packages, Stages, Allowed, Closing;
      ghost var n := |states|;
      CloseAtBoot();
      at := |states|;
      ghost var closed := states;
      BuildSbox(V4);
      BuildSbox(V6);
      code, from4, from6 := Reload(config, table);
      assert forall i :: n <= i < at ==> states[i] == closed[i];
    }
  }

  /** Each family is as before or flushed, with or without the REJECT behind. */
  ghost predicate Closing(t: Tables, before: Tables) {
    && t.v4 in {before.v4, [], before.v4 + [REJECT_ALL], [REJECT_ALL]}
    && t.v6 in {before.v6, [], before.v6 + [REJECT_ALL], [REJECT_ALL]}
  }

  /** The states that closing one family adds to the history. */
  ghost function History(ok: bool, f: Family, before: Tables, after: Tables, n: int): seq<Tables> {
    if ok then [before.With(f, []), after] else if n == 1 then [after] else [after, after]
  }

  lemma HistoryBehind(s: seq<Tables>, a: seq<Tables>, b: seq<Tables>)
    ensures (s + a + b)[|s|..] == a + b && s + a + [] == s + a && a + [] == a
  {
  }

  /** The first family was not closed. */
  lemma NotClosed(a: seq<Tables>, t0: Tables, allowed: set<nat>)
    requires forall i :: 0 <= i < |a| ==> a[i] in {t0, t0.With(V4, [])}
    ensures Stages(a, V4, t0.v4, |a|, allowed) && Stages(a, V6, t0.v6, |a|, allowed)
  {
  }

  /** The first family was closed, and the second one as well if `ok`. */
  lemma FirstClosed(a: seq<Tables>, b: seq<Tables>, t0: Tables, t1: Tables, t2: Tables, ok: bool, allowed: set<nat>)
    requires a == [t0.With(V4, []), t1] && t1 == t0.With(V4, [REJECT_ALL])
    requires ok ==> b == [t1.With(V6, []), t2] && t2 == t1.With(V6, [REJECT_ALL])
    requires !ok ==> t2 in {t1, t1.With(V6, [])} && forall i :: 0 <= i < |b| ==> b[i] == t2
    ensures Stages(a + b, V4, t0.v4, 1, allowed)
    ensures Stages(a + b, V6, t0.v6, if ok then 3 else |a + b|, allowed)
  {
    RejectIsGuarded(allowed);
    assert forall i :: 0 <= i < |b| ==> b[i].v4 == [REJECT_ALL];
  }

  lemma RejectIsGuarded(allowed: set<nat>)
    ensures BothGuarded(Both([REJECT_ALL]), allowed)
  {
  }

  lemma AllowedUids(config: Config, table: Table)
    ensures 0 in Allowed(config, table)
    ensures forall n :: n in Packages(config) && n in table ==> table[n] in Allowed(config, table)
  {
    hide Packages;
  }

  lemma GuardedNotEmpty(t: Tables, allowed: set<nat>)
    requires BothGuarded(t, allowed)
    ensures t.v4 != [] && t.v6 != []
  {
  }

  lemma ReloadedOut(packages: seq<Name>, table: Table)
    ensures var t := InFront([Allow(0)], InFront(AllowRules(packages, table), Both([REJECT_ALL])));
      t.v4 != [] && t.v6 != [] && BehindFirst(GUARD, t) == Both(ReloadedChain(packages, table))
  {
    hide AllowRules;
    var rest := AllowRules(packages, table) + [REJECT_ALL];
    var c := [Allow(0)] + rest;
    assert c[0] == Allow(0) && c[1..] == rest;
  }

  /** Step safety: in every state of a reload from index `from` on, wherever it stops, only root and
      the uids of configured packages pass that family's chain, whatever `oem_sbox` holds. */
  lemma ReloadIsSafe(states: seq<Tables>, f: Family, before: Chain, from: nat, config: Config, table: Table,
                     i: nat, sbox: Chain, p: Packet)
    requires Stages(states, f, before, from, Allowed(config, table)) && from <= i < |states|
    requires Passes(states[i].Of(f), sbox, p)
    ensures p.uid == 0 || p.uid in Uids(ToSet(Packages(config)), table)
  {
    hide Passes, Packages, Uids, Guarded;
    GuardedIsSafe(states[i].Of(f), sbox, Allowed(config, table), p);
  }

  /** Only guarded states have been added. */
  lemma StagesMore(a: seq<Tables>, b: seq<Tables>, n: nat, f: Family, before: Chain, from: nat, allowed: set<nat>)
    requires n <= |a| && Stages(a[n..], f, before, from, allowed) && StaysGuarded(a, b, allowed)
    ensures n <= |b| && Stages(b[n..], f, before, from, allowed)
  {
    hide Guarded;
    forall i | 0 <= i < |b[n..]|
      ensures i < from ==> b[n..][i].Of(f) in {before, []}
      ensures from <= i ==> Guarded(b[n..][i].Of(f), allowed)
    {
      if n + i < |a| {
        assert b[n..][i] == a[n..][i];
      } else {
        assert BothGuarded(b[n + i], allowed);
      }
    }
  }
}
