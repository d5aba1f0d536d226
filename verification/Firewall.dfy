/** iptables chains as sequences of rules, and what a packet makes of them. */
module Firewall {
  import opened Bytes

  type Name = seq<Byte>

  /** The uid that owns a packet and the interface it leaves on. */
  datatype Packet = Packet(uid: nat, out: string)

  datatype Match = Any | Uid(uid: nat) | Out(out: string)
  datatype Target = RETURN | REJECT | DROP | OEM_SBOX
  datatype Rule = Rule(on: Match, target: Target)
  type Chain = seq<Rule>

  predicate Hits(m: Match, p: Packet) {
    match m
    case Any => true
    case Uid(u) => p.uid == u
    case Out(o) => p.out == o
  }

  /** First match, with a jump to the chain `sbox`. A packet that reaches the end, or a RETURN, goes
      on behind the chain. */
  predicate Passes(chain: Chain, sbox: Chain, p: Packet)
    decreases |chain| + |sbox|
  {
    if chain == [] then true
    else if !Hits(chain[0].on, p) then Passes(chain[1..], sbox, p)
    else
      match chain[0].target
      case RETURN => true
      case REJECT => false
      case DROP => false
      case OEM_SBOX => (|sbox| > 0 ==> Passes(sbox, [], p)) && Passes(chain[1..], sbox, p)
  }

  const REJECT_ALL := Rule(Any, REJECT)
  const GUARD := Rule(Any, OEM_SBOX)

  function Allow(uid: nat): Rule {
    Rule(Uid(uid), RETURN)
  }

  /** The `oem_sbox` chain that `dumbos-firewall-init.sh` builds. */
  const SBOX: Chain := [Rule(Uid(0), RETURN), Rule(Out("tun0"), RETURN), Rule(Any, DROP)]

  /** The package table of `pm list packages -U`. */
  type Table = map<Name, nat>

  /** The rules that the package loop leaves in front of REJECT: each one was inserted at the front. */
  function AllowRules(packages: seq<Name>, table: Table): Chain {
    if packages == [] then [] else
      var last, rest := packages[|packages| - 1], AllowRules(packages[..|packages| - 1], table);
      if last in table then [Allow(table[last])] + rest else rest
  }

  /** `oem_out` after a reload. */
  function ReloadedChain(packages: seq<Name>, table: Table): Chain {
    [Allow(0), GUARD] + AllowRules(packages, table) + [REJECT_ALL]
  }

  /** The uids of the packages that are installed. */
  function Uids(packages: set<Name>, table: Table): set<nat> {
    set n | n in packages && n in table :: table[n]
  }

  function ToSet(packages: seq<Name>): set<Name> {
    set n | n in packages
  }

  /** The policy: root passes; anybody else needs an allowed uid and the tunnel. */
  predicate Policy(packages: set<Name>, table: Table, p: Packet) {
    p.uid == 0 || (p.out == "tun0" && p.uid in Uids(packages, table))
  }

  // ----- the reloaded chain means the policy -----

  lemma PassesSbox(p: Packet)
    ensures Passes(SBOX, [], p) <==> p.uid == 0 || p.out == "tun0"
  {
    assert SBOX[1..] == [Rule(Out("tun0"), RETURN), Rule(Any, DROP)];
    assert SBOX[1..][1..] == [Rule(Any, DROP)];
  }

  /** Rules for packages in front of a chain let through their uids, and leave the rest to it. */
  lemma {:induction false} PassesAllowRules(packages: seq<Name>, table: Table, rest: Chain, sbox: Chain, p: Packet)
    ensures Passes(AllowRules(packages, table) + rest, sbox, p) <==>
            p.uid in Uids(ToSet(packages), table) || Passes(rest, sbox, p)
  {
    if packages == [] {
      assert [] + rest == rest;
    } else {
      var last, front := packages[|packages| - 1], packages[..|packages| - 1];
      PassesAllowRules(front, table, rest, sbox, p);
      UidsSnoc(packages, table);
      var chain := AllowRules(packages, table) + rest;
      if last in table {
        assert chain[0] == Allow(table[last]);
        assert chain[1..] == AllowRules(front, table) + rest;
      }
    }
  }

  lemma UidsSnoc(packages: seq<Name>, table: Table)
    requires packages != []
    ensures var last, front := packages[|packages| - 1], packages[..|packages| - 1];
      && ToSet(packages) == ToSet(front) + {last}
      && Uids(ToSet(packages), table) == Uids(ToSet(front), table) + if last in table then {table[last]} else {}
  {
    assert packages == packages[..|packages| - 1] + [packages[|packages| - 1]];
  }

  /** A packet passes a freshly loaded chain exactly when the policy lets it. */
  lemma ReloadedMeansPolicy(packages: seq<Name>, table: Table, p: Packet)
    ensures Passes(ReloadedChain(packages, table), SBOX, p) <==> Policy(ToSet(packages), table, p)
  {
    var chain, rest := ReloadedChain(packages, table), AllowRules(packages, table) + [REJECT_ALL];
    PassesAllowRules(packages, table, [REJECT_ALL], SBOX, p);
    PassesSbox(p);
    assert chain[0] == Allow(0) && chain[1..] == [GUARD] + rest;
    assert ([GUARD] + rest)[1..] == rest;
  }

  // ----- guarded chains -----

  /** Up to the first REJECT there are only jumps to `oem_sbox` and RETURNs for uids in `allowed`. */
  ghost predicate Guarded(chain: Chain, allowed: set<nat>) {
    chain != [] &&
    (chain[0] == REJECT_ALL || (Harmless(chain[0], allowed) && Guarded(chain[1..], allowed)))
  }

  ghost predicate Harmless(r: Rule, allowed: set<nat>) {
    r == GUARD || (r.on.Uid? && r.on.uid in allowed && r.target == RETURN)
  }

  /** Nothing outside `allowed` passes a guarded chain, whatever `oem_sbox` holds. */
  lemma {:induction false} GuardedIsSafe(chain: Chain, sbox: Chain, allowed: set<nat>, p: Packet)
    requires Guarded(chain, allowed) && Passes(chain, sbox, p)
    ensures p.uid in allowed
  {
    if Hits(chain[0].on, p) && chain[0].target == RETURN {
    } else {
      GuardedIsSafe(chain[1..], sbox, allowed, p);
    }
  }

  lemma GuardedInsert(chain: Chain, r: Rule, allowed: set<nat>)
    requires Guarded(chain, allowed) && Harmless(r, allowed)
    ensures Guarded([r] + chain, allowed)
  {
    assert ([r] + chain)[1..] == chain;
  }

  /** `-I chain 2`: behind the first rule, or at the end of a chain with one rule. */
  lemma GuardedInsertSecond(chain: Chain, allowed: set<nat>)
    requires Guarded(chain, allowed)
    ensures Guarded([chain[0], GUARD] + chain[1..], allowed)
  {
    var c := [chain[0], GUARD] + chain[1..];
    assert c[0] == chain[0];
    assert c[1..] == [GUARD] + chain[1..];
    if chain[0] != REJECT_ALL {
      GuardedInsert(chain[1..], GUARD, allowed);
    }
  }

  // ----- chains that grow in front -----

  /** `chain` is `before` with RETURNs for some of `uids` in front. */
  ghost predicate Grown(chain: Chain, before: Chain, uids: set<nat>) {
    && |before| <= |chain| && chain[|chain| - |before|..] == before
    && forall i :: 0 <= i < |chain| - |before| ==>
         chain[i].on.Uid? && chain[i].on.uid in uids && chain[i].target == RETURN
  }

  lemma GrownThen(a: Chain, b: Chain, c: Chain, uids: set<nat>, more: set<nat>)
    requires Grown(b, a, uids) && Grown(c, b, more)
    ensures Grown(c, a, uids + more)
  {
    assert c[|c| - |a|..] == b[|b| - |a|..];
    forall i | 0 <= i < |c| - |a|
      ensures c[i].on.Uid? && c[i].on.uid in uids + more && c[i].target == RETURN
    {
      if i >= |c| - |b| {
        assert c[i] == c[|c| - |b|..][i - (|c| - |b|)];
      }
    }
  }

  lemma GrownOne(chain: Chain, uid: nat)
    ensures Grown(chain, chain, {}) && Grown(chain, chain, {uid}) && Grown([Allow(uid)] + chain, chain, {uid})
  {
    assert chain[0..] == chain;
    assert ([Allow(uid)] + chain)[1..] == chain;
  }

  /** A guarded chain stays guarded while it grows, against more uids. */
  lemma {:induction false} GrownIsGuarded(chain: Chain, before: Chain, uids: set<nat>, allowed: set<nat>)
    requires Grown(chain, before, uids) && Guarded(before, allowed)
    ensures Guarded(chain, allowed + uids)
    decreases |chain|
  {
    if |chain| == |before| {
      assert chain[0..] == chain;
      GuardedMore(before, allowed, allowed + uids);
    } else {
      assert chain[1..][|chain| - 1 - |before|..] == chain[|chain| - |before|..];
      GrownIsGuarded(chain[1..], before, uids, allowed);
    }
  }

  lemma {:induction false} GuardedMore(chain: Chain, allowed: set<nat>, more: set<nat>)
    requires Guarded(chain, allowed) && allowed <= more
    ensures Guarded(chain, more)
  {
    if chain[0] != REJECT_ALL {
      GuardedMore(chain[1..], allowed, more);
    }
  }

  /** A chain that has just been flushed lets every packet through: between `-F` and the REJECT
      append the family is open. */
  lemma FlushedIsOpen(sbox: Chain, p: Packet)
    ensures Passes([], sbox, p)
  {
  }
}
