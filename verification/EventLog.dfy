/** The event log: an indexed store under big-endian keys, and the cached list that shows it. */
module EventLog {
  import opened Bytes

  const KEY_SIZE := 8
  const U64_SIZE := 0x1_0000_0000_0000_0000

  /** `to_be_bytes` of a 64-bit index. */
  function Key(i: nat): (k: seq<Byte>)
    ensures |k| == KEY_SIZE
  {
    BigEndian(i, KEY_SIZE)
  }

  lemma KeyInjective(i: nat, j: nat)
    requires i < U64_SIZE && j < U64_SIZE
    ensures Key(i) == Key(j) ==> i == j
  {
    assert Pow256(8) == U64_SIZE;
    if Key(i) == Key(j) {
      BigEndianInjective(i, j, KEY_SIZE);
    }
  }

  /** The keyspace holds exactly the log: the keys of 0 to |log| - 1, each with its event. */
  ghost predicate Holds<E>(keyspace: map<seq<Byte>, E>, log: seq<E>) {
    && |log| < U64_SIZE
    && (forall i :: 0 <= i < |log| ==> Key(i) in keyspace && keyspace[Key(i)] == log[i])
    && (forall k :: k in keyspace ==> exists i :: 0 <= i < |log| && k == Key(i))
  }

  lemma HoldsNext<E>(keyspace: map<seq<Byte>, E>, log: seq<E>, e: E)
    requires Holds(keyspace, log) && |log| + 1 < U64_SIZE
    ensures Holds(keyspace[Key(|log|) := e], log + [e])
  {
    var next, longer := keyspace[Key(|log|) := e], log + [e];
    forall i | 0 <= i < |longer|
      ensures Key(i) in next && next[Key(i)] == longer[i]
    {
      KeyInjective(i, |log|);
    }
    forall k | k in next
      ensures exists i :: 0 <= i < |longer| && k == Key(i)
    {
      if k == Key(|log|) {
        assert 0 <= |log| < |longer|;
      } else {
        var i :| 0 <= i < |log| && k == Key(i);
        assert 0 <= i < |longer|;
      }
    }
  }

  lemma HoldsInit<E>(keyspace: map<seq<Byte>, E>, log: seq<E>)
    requires Holds(keyspace, log) && log != []
    ensures Holds(keyspace - {Key(|log| - 1)}, log[..|log| - 1])
  {
    hide Key;
    var n := |log| - 1;
    var front := keyspace - {Key(n)};
    forall i | 0 <= i < n
      ensures Key(i) in front && front[Key(i)] == log[..n][i]
    {
      KeyInjective(i, n);
    }
    forall k | k in front
      ensures exists i :: 0 <= i < n && k == Key(i)
    {
      var i :| 0 <= i < |log| && k == Key(i);
      assert i != n;
    }
  }

  /** The number of keys is the length of the log. */
  lemma {:induction false} HoldsSize<E>(keyspace: map<seq<Byte>, E>, log: seq<E>)
    requires Holds(keyspace, log)
    ensures |keyspace| == |log|
  {
    hide Key;
    if log == [] {
      assert keyspace.Keys == {};
    } else {
      var key := Key(|log| - 1);
      HoldsInit(keyspace, log);
      HoldsSize(keyspace - {key}, log[..|log| - 1]);
      assert key in keyspace.Keys && keyspace.Keys == (keyspace - {key}).Keys + {key};
    }
  }

  /** A keyspace determines the log it holds. */
  lemma HoldsUnique<E>(keyspace: map<seq<Byte>, E>, a: seq<E>, b: seq<E>)
    requires Holds(keyspace, a) && Holds(keyspace, b)
    ensures a == b
  {
    hide Key;
    HoldsSize(keyspace, a);
    HoldsSize(keyspace, b);
    assert forall i :: 0 <= i < |a| ==> a[i] == keyspace[Key(i)] == b[i];
  }

  function Fetch<E>(keyspace: map<seq<Byte>, E>, i: nat): Option<E> {
    if Key(i) in keyspace then Some(keyspace[Key(i)]) else None
  }

  lemma FetchIsEvent<E>(keyspace: map<seq<Byte>, E>, log: seq<E>, i: nat)
    requires Holds(keyspace, log) && i < U64_SIZE
    ensures Fetch(keyspace, i) == if i < |log| then Some(log[i]) else None
  {
    hide Key;
    if Key(i) in keyspace {
      var j :| 0 <= j < |log| && Key(i) == Key(j);
      KeyInjective(i, j);
    }
  }

  datatype Store<E> = Store(keyspace: map<seq<Byte>, E>, len: nat)

  /** `EventsTable`. The keyspace belongs to the database and outlives the table. */
  class EventsTable<E> {
    var keyspace: map<seq<Byte>, E>
    var len: nat

    function Contents(): Store<E>
      reads this
    {
      Store(keyspace, len)
    }

    /** `open`: the length is the number of keys. */
    constructor Open(keyspace: map<seq<Byte>, E>)
      ensures Contents() == Reopened(keyspace)
    {
      this.keyspace, this.len := keyspace, |keyspace|;
    }

    method Push(e: E)
      requires len + 1 < U64_SIZE
      modifies this
      ensures Contents() == Pushed(old(Contents()), e)
    {
      keyspace := keyspace[Key(len) := e];
      len := len + 1;
    }

    method Get(i: nat) returns (e: Option<E>)
      requires i < U64_SIZE
      ensures e == Fetch(keyspace, i)
    {
      if Key(i) in keyspace {
        return Some(keyspace[Key(i)]);
      }
      return None;
    }

    method Clear()
      modifies this
      ensures Contents() == Store(map[], 0)
    {
      keyspace := map[];
      len := 0;
    }
  }

  function Reopened<E>(keyspace: map<seq<Byte>, E>): Store<E> {
    Store(keyspace, |keyspace|)
  }

  function Pushed<E>(s: Store<E>, e: E): Store<E> {
    Store(s.keyspace[Key(s.len) := e], s.len + 1)
  }

  // ----- the cached view -----

  function Reverse<E>(s: seq<E>): (r: seq<E>)
    ensures |r| == |s|
  {
    if s == [] then [] else Reverse(s[1..]) + [s[0]]
  }

  lemma {:induction false} ReverseConcat<E>(s: seq<E>, t: seq<E>)
    ensures Reverse(s + t) == Reverse(t) + Reverse(s)
  {
    if s == [] {
      assert s + t == t;
    } else {
      assert (s + t)[1..] == s[1..] + t;
      ReverseConcat(s[1..], t);
    }
  }

  lemma ReverseSnoc<E>(s: seq<E>, e: E, list: seq<E>)
    ensures Reverse(s + [e]) + list == [e] + (Reverse(s) + list)
  {
    ReverseConcat(s, [e]);
    assert Reverse([e]) == [e];
  }

  lemma ReverseEmpty<E>(list: seq<E>)
    ensures Reverse([]) + list == list
  {
  }

  /** What the list becomes: the events it does not show yet go in front, the newest first. An event
      that cannot be fetched shows as the error `missing(i)`. */
  function Reloaded<E>(s: Store<E>, list: seq<E>, missing: nat -> E): (now: seq<E>)
    decreases s.len - |list|
  {
    if s.len <= |list| then
      list
    else
      var e := Fetch(s.keyspace, |list|);
      Reloaded(s, [if e.Some? then e.value else missing(|list|)] + list, missing)
  }

  /** `events_list_reload`: collect what the list does not show yet, then insert it at the front, one
      event at a time. */
  method EventsListReload<E>(list: seq<E>, table: EventsTable<E>, missing: nat -> E) returns (now: seq<E>)
    requires table.len < U64_SIZE
    ensures now == Reloaded(table.Contents(), list, missing)
  {
    hide Key, Fetch, U64_SIZE, Reverse;
    var oldLen, newLen := |list|, table.len;
    var unseen: seq<E> := [];
    var i := oldLen;
    ReverseEmpty(list);
    while i < newLen
      invariant oldLen <= i && |unseen| == i - oldLen
      invariant i <= newLen || unseen == []
      invariant Reloaded(table.Contents(), Reverse(unseen) + list, missing)
             == Reloaded(table.Contents(), list, missing)
    {
      var e := table.Get(i);
      var event := if e.Some? then e.value else missing(i);
      ReverseSnoc(unseen, event, list);
      unseen := unseen + [event];
      i := i + 1;
    }
    now := list;
    for j := 0 to |unseen|
      invariant now == Reverse(unseen[..j]) + list
    {
      assert unseen[..j + 1] == unseen[..j] + [unseen[j]];
      ReverseSnoc(unseen[..j], unseen[j], list);
      now := [unseen[j]] + now;
    }
    assert unseen[..|unseen|] == unseen;
  }

  /** A reload never touches what the list already shows. */
  lemma {:induction false} ReloadedAdds<E>(s: Store<E>, log: seq<E>, list: seq<E>, missing: nat -> E)
    requires Holds(s.keyspace, log) && s.len == |log|
    ensures Reloaded(s, list, missing) == (if |log| <= |list| then [] else Reverse(log[|list|..])) + list
    decreases s.len - |list|
  {
    hide Holds, Fetch, Key;
    if |list| < |log| {
      FetchWithin(s.keyspace, log, |list|);
      var next := [log[|list|]] + list;
      ReloadedAdds(s, log, next, missing);
      assert log[|list|..][1..] == log[|next|..];
      assert Reverse(log[|list|..]) == Reverse(log[|next|..]) + [log[|list|]];
    }
  }

  lemma FetchWithin<E>(keyspace: map<seq<Byte>, E>, log: seq<E>, i: nat)
    requires Holds(keyspace, log) && i < |log|
    ensures Fetch(keyspace, i) == Some(log[i])
  {
    FetchIsEvent(keyspace, log, i);
  }

  /** A reload shows the whole log exactly when the list showed the start of this log. */
  lemma ReloadIff<E>(s: Store<E>, log: seq<E>, list: seq<E>, missing: nat -> E)
    requires Holds(s.keyspace, log) && s.len == |log|
    ensures Reloaded(s, list, missing) == Reverse(log) <==> Shows(list, log)
  {
    hide Holds, Reloaded, Reverse;
    ReloadedAdds(s, log, list, missing);
    var n := |list|;
    if n > |log| {
      assert [] + list == list;
    } else {
      assert log == log[..n] + log[n..];
      ReverseConcat(log[..n], log[n..]);
      assert Reverse(log[|list|..]) == [] ==> n == |log|;
      assert (Reverse(log[n..]) + list)[|log| - n..] == list;
      assert (Reverse(log[n..]) + Reverse(log[..n]))[|log| - n..] == Reverse(log[..n]);
    }
  }

  /** The list is the reverse of the start of the log that it covers. */
  ghost predicate Shows<E>(list: seq<E>, log: seq<E>) {
    |list| <= |log| && list == Reverse(log[..|list|])
  }

  // ----- whole runs -----

  /** What happens to the table and to the screen that shows it. The server pushes events, the screen
      is entered and reloads. When the server ends and starts again, it opens the table anew; the tool
      that clears the table is a process of its own. Either way no list survives. */
  datatype Op<E> = Push(event: E) | Enter | Reload | Restart | Clear

  /** The table of the server, and the list of the screen. */
  datatype View<E> = View(store: Store<E>, list: seq<E>)

  function Next<E>(v: View<E>, op: Op<E>, missing: nat -> E): View<E> {
    match op
    case Push(e) => v.(store := Pushed(v.store, e))
    case Enter => v.(list := Reloaded(v.store, [], missing))
    case Reload => v.(list := Reloaded(v.store, v.list, missing))
    case Restart => View(Reopened(v.store.keyspace), [])
    case Clear => View(Reopened(map[]), [])
  }

  function Run<E>(ops: seq<Op<E>>, missing: nat -> E): View<E> {
    if ops == [] then
      View(Reopened(map[]), [])
    else
      Next(Run(ops[..|ops| - 1], missing), ops[|ops| - 1], missing)
  }

  function NextLog<E>(log: seq<E>, op: Op<E>): seq<E> {
    match op
    case Push(e) => log + [e]
    case Clear => []
    case _ => log
  }

  /** The events pushed since the last clear. */
  function LogOf<E>(ops: seq<Op<E>>): (log: seq<E>)
    ensures |log| <= |ops|
  {
    if ops == [] then [] else NextLog(LogOf(ops[..|ops| - 1]), ops[|ops| - 1])
  }

  ghost predicate Agrees<E>(v: View<E>, log: seq<E>) {
    Holds(v.store.keyspace, log) && v.store.len == |log|
  }

  lemma NextAgrees<E>(v: View<E>, log: seq<E>, op: Op<E>, missing: nat -> E)
    requires Agrees(v, log) && |log| + 1 < U64_SIZE
    ensures Agrees(Next(v, op, missing), NextLog(log, op))
  {
    hide Key, Reloaded;
    match op
    case Push(e) => HoldsNext(v.store.keyspace, log, e);
    case Restart => HoldsSize(v.store.keyspace, log);
    case _ =>
  }

  /** After any run, over any number of processes, the table is the log since the last clear. */
  lemma {:induction false} RunAgrees<E>(ops: seq<Op<E>>, missing: nat -> E)
    requires |ops| < U64_SIZE
    ensures Agrees(Run(ops, missing), LogOf(ops))
  {
    hide Next, NextLog, Agrees;
    if ops == [] {
      EmptyAgrees<E>(missing);
    } else {
      var front, last := ops[..|ops| - 1], ops[|ops| - 1];
      RunAgrees(front, missing);
      NextAgrees(Run(front, missing), LogOf(front), last, missing);
    }
  }

  lemma EmptyAgrees<E>(missing: nat -> E)
    ensures Agrees(Run<E>([], missing), [])
  {
  }

  /** `get(i)` over a run: the i-th event since the last clear, and nothing past the end. */
  lemma RunGet<E>(ops: seq<Op<E>>, missing: nat -> E, i: nat)
    requires |ops| < U64_SIZE && i < U64_SIZE
    ensures var log := LogOf(ops);
            Fetch(Run(ops, missing).store.keyspace, i) == if i < |log| then Some(log[i]) else None
  {
    RunAgrees(ops, missing);
    FetchIsEvent(Run(ops, missing).store.keyspace, LogOf(ops), i);
  }

  lemma NextShows<E>(v: View<E>, log: seq<E>, op: Op<E>, missing: nat -> E)
    requires Agrees(v, log) && Shows(v.list, log)
    ensures Shows(Next(v, op, missing).list, NextLog(log, op))
    ensures op.Enter? || op.Reload? ==> Next(v, op, missing).list == Reverse(log)
  {
    hide Holds, Reverse, Reloaded;
    ShowsNothing(NextLog(log, op));
    ShowsNothing(log);
    match op
    case Push(e) => assert (log + [e])[..|v.list|] == log[..|v.list|];
    case Enter => ReloadIff(v.store, log, [], missing); ShowsAll(log);
    case Reload => ReloadIff(v.store, log, v.list, missing); ShowsAll(log);
    case _ =>
  }

  lemma ShowsNothing<E>(log: seq<E>)
    ensures Shows([], log)
  {
  }

  lemma ShowsAll<E>(log: seq<E>)
    ensures Shows(Reverse(log), log)
  {
    assert log[..|log|] == log;
  }

  /** In every run the list is at all times the reverse of the start of the log that it covers, and
      after every reload of the whole log. */
  lemma {:induction false} RunShows<E>(ops: seq<Op<E>>, missing: nat -> E)
    requires |ops| < U64_SIZE
    ensures Shows(Run(ops, missing).list, LogOf(ops))
    ensures ops != [] && (ops[|ops| - 1].Enter? || ops[|ops| - 1].Reload?) ==>
              Run(ops, missing).list == Reverse(LogOf(ops))
  {
    hide Agrees, Reloaded, Shows, Reverse;
    if ops == [] {
      ShowsNothing<E>([]);
    } else {
      var front, last := ops[..|ops| - 1], ops[|ops| - 1];
      RunAgrees(front, missing);
      RunShows(front, missing);
      NextShows(Run(front, missing), LogOf(front), last, missing);
    }
  }
}
