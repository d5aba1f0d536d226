/** Runs of firewall commands in which any iptables command may fail: who can pass in every state. */
module FirewallFaults {
  import opened Bytes
  import opened Firewall
  import opened FirewallScripts

  /** What one call adds to the history of `oem_out`: a reload, with the index from which on each family
      is closed, or rules in front for `uids`. */
  datatype Episode =
    | Loads(states: seq<Tables>, config: Config, table: Table, from4: nat, from6: nat)
    | Allows(states: seq<Tables>, uids: set<nat>)

  function From(e: Episode, f: Family): nat
    requires e.Loads?
  {
    if f == V4 then e.from4 else e.from6
  }

  ghost predicate Takes(before: Tables, e: Episode) {
    match e
    case Loads(states, config, table, _, _) =>
      forall f: Family :: Stages(states, f, before.Of(f), From(e, f), Allowed(config, table))
    case Allows(states, uids) => AllGrown([], states, before, uids)
  }

  function After(before: Tables, e: Episode): Tables {
    if e.states == [] then before else e.states[|e.states| - 1]
  }

  function Final(start: Tables, es: seq<Episode>): Tables {
    if es == [] then start else After(Final(start, es[..|es| - 1]), es[|es| - 1])
  }

  /** Every call starts from the state that the calls before it have left. */
  ghost predicate History(start: Tables, es: seq<Episode>) {
    forall n :: 0 <= n < |es| ==> TakesAt(start, es, n)
  }

  ghost predicate TakesAt(start: Tables, es: seq<Episode>, n: nat)
    requires n < |es|
  {
    Takes(Final(start, es[..n]), es[n])
  }

  // ----- who may pass -----

  /** Who may pass a family in a state of an episode, given who could before it: from its REJECT on, root
      and the uids of the configured packages; while nothing has changed, as before; in between nobody is
      kept out. Uids that are allowed temporarily are added. */
  function Passers(before: Tables, known: Option<set<nat>>, e: Episode, i: nat, f: Family): Option<set<nat>>
    requires i < |e.states|
  {
    match e
    case Loads(states, config, table, _, _) =>
      if i >= From(e, f) then Some(Allowed(config, table))
      else if states[i].Of(f) == before.Of(f) then known
      else None
    case Allows(_, uids) => if known.Some? then Some(known.value + uids) else None
  }

  /** The same after all the calls; nothing is known before the first REJECT. */
  function Known(start: Tables, es: seq<Episode>, f: Family): Option<set<nat>> {
    if es == [] then None else
      var front, e := es[..|es| - 1], es[|es| - 1];
      if e.states == [] then Known(start, front, f)
      else Passers(Final(start, front), Known(start, front, f), e, |e.states| - 1, f)
  }

  ghost predicate KeepsOut(chain: Chain, known: Option<set<nat>>) {
    known.Some? ==> Guarded(chain, known.value)
  }

  lemma EpisodeKeepsOut(before: Tables, known: Option<set<nat>>, e: Episode, i: nat, f: Family)
    requires Takes(before, e) && KeepsOut(before.Of(f), known) && i < |e.states|
    ensures KeepsOut(e.states[i].Of(f), Passers(before, known, e, i, f))
  {
    hide Guarded, Allowed, Grown;
    match e {
      case Loads(states, config, table, _, _) =>
        assert Stages(states, f, before.Of(f), From(e, f), Allowed(config, table));
      case Allows(states, uids) =>
        assert BothGrown(states[i], before, uids);
        if known.Some? {
          GrownIsGuarded(states[i].Of(f), before.Of(f), uids, known.value);
        }
    }
  }

  lemma {:induction false} RunKeepsOut(start: Tables, es: seq<Episode>, f: Family)
    requires History(start, es)
    ensures KeepsOut(Final(start, es).Of(f), Known(start, es, f))
  {
    hide KeepsOut, Takes, Passers;
    if es == [] {
      NothingKnown(start, f);
    } else {
      var front, e := es[..|es| - 1], es[|es| - 1];
      HistoryFront(start, es, |es| - 1);
      RunKeepsOut(start, front, f);
      assert TakesAt(start, es, |es| - 1);
      if e.states != [] {
        EpisodeKeepsOut(Final(start, front), Known(start, front, f), e, |e.states| - 1, f);
      }
    }
  }

  lemma NothingKnown(start: Tables, f: Family)
    ensures KeepsOut(start.Of(f), None)
  {
  }

  lemma HistoryFront(start: Tables, es: seq<Episode>, n: nat)
    requires History(start, es) && n <= |es|
    ensures History(start, es[..n])
  {
    hide Takes, Final;
    forall k | 0 <= k < n
      ensures TakesAt(start, es[..n], k)
    {
      assert TakesAt(start, es, k);
      assert es[..n][..k] == es[..k];
    }
  }

  /** Over every run, whatever fails: in every state of every call, a packet that passes a family has one
      of the uids that are known to pass it, whatever `oem_sbox` holds. */
  lemma FaultyRunIsSafe(start: Tables, es: seq<Episode>, n: nat, i: nat, f: Family, sbox: Chain, p: Packet)
    requires History(start, es) && n < |es| && i < |es[n].states|
    requires Passes(es[n].states[i].Of(f), sbox, p)
    ensures var known := Passers(Final(start, es[..n]), Known(start, es[..n], f), es[n], i, f);
      known.Some? ==> p.uid in known.value
  {
    hide Takes, Passes, Final, Known, Passers, Guarded;
    var before, known := Final(start, es[..n]), Known(start, es[..n], f);
    HistoryFront(start, es, n);
    RunKeepsOut(start, es[..n], f);
    assert TakesAt(start, es, n);
    EpisodeKeepsOut(before, known, es[n], i, f);
    var now := Passers(before, known, es[n], i, f);
    if now.Some? {
      GuardedIsSafe(es[n].states[i].Of(f), sbox, now.value, p);
    }
  }

  /** A family that has been closed once is only ever open again between a flush and the next REJECT: if
      nothing is known any more, some later reload has flushed it and not closed it. */
  ghost predicate FlushedOnly(e: Episode, f: Family) {
    e.Loads? && From(e, f) >= |e.states| && e.states != [] && e.states[|e.states| - 1].Of(f) == []
  }

  lemma {:induction false} OpenMeansFlushed(start: Tables, es: seq<Episode>, m: nat, f: Family) returns (k: nat)
    requires History(start, es) && m <= |es|
    requires Known(start, es[..m], f).Some? && Known(start, es, f).None?
    ensures m <= k < |es| && FlushedOnly(es[k], f)
  {
    hide Final, Stages;
    k := m;
    assert es[..|es|] == es;
    if m < |es| {
      var front, e := es[..|es| - 1], es[|es| - 1];
      assert front[..m] == es[..m];
      HistoryFront(start, es, |es| - 1);
      if Known(start, front, f).None? {
        k := OpenMeansFlushed(start, front, m, f);
        assert front[k] == es[k];
      } else {
        k := |es| - 1;
        assert TakesAt(start, es, k);
        LastFlushed(Final(start, front), e, f);
      }
    }
  }

  lemma LastFlushed(before: Tables, e: Episode, f: Family)
    requires Takes(before, e) && e.Loads? && e.states != [] && From(e, f) >= |e.states|
    ensures e.states[|e.states| - 1].Of(f) in {before.Of(f), []}
  {
    hide Allowed, Guarded;
    assert Stages(e.states, f, before.Of(f), From(e, f), Allowed(e.config, e.table));
  }
}
