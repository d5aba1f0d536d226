/** Two processes over FIFO byte streams with bounded buffers and arbitrarily short transfers: every
    interleaving does what the processes do when each is given its whole input at once. */
module SessionRuns {
  import opened Bytes
  import opened SessionPeers

  // ----- a process on a whole input -----

  /** What a process writes, given all the input it will ever get, and how it ends if it does. */
  datatype Big = Big(out: Text, end: Option<End>)

  function Whole(env: Env, p: Proc, input: Text): Big
    requires Live(p)
    decreases |input|, if p.Send? then 1 else 0
  {
    match p
    case Done(end) => Big([], Some(end))
    case Send(rest, next) =>
      var r := Whole(env, AfterSend(next), input);
      Big(rest + r.out, r.end)
    case Recv(got, need, wanted) =>
      var k := need - |got|;
      if |input| < k then Big([], None) else Whole(env, AfterRecv(env, wanted, got + input[..k]), input[k..])
  }

  function Prefixed(out: Text, b: Big): Big {
    Big(out + b.out, b.end)
  }

  function Rank(p: Proc): nat {
    match p
    case Done(_) => 0
    case Send(_, next) => if AfterSend(next).Done? then 1 else 3
    case Recv(_, _, _) => 2
  }

  /** What a process writes and how it ends when the stream is closed behind the input. */
  function ToEnd(env: Env, p: Proc, input: Text): (b: Big)
    requires Live(p)
    ensures b.end.Some?
    decreases |input|, Rank(p)
  {
    match p
    case Done(end) => Big([], Some(end))
    case Send(rest, next) => Prefixed(rest, ToEnd(env, AfterSend(next), input))
    case Recv(got, need, wanted) =>
      var k := need - |got|;
      if |input| < k then ToEnd(env, AtEof(wanted), [])
      else ToEnd(env, AfterRecv(env, wanted, got + input[..k]), input[k..])
  }

  // ----- small steps -----

  /** A process at its end of the connection, with everything that it has read and written. */
  datatype Peer = Peer(proc: Proc, input: Text, output: Text)

  datatype System = System(client: Peer, daemon: Peer)

  datatype Who = TheClient | TheDaemon

  function Self(s: System, who: Who): Peer {
    if who == TheClient then s.client else s.daemon
  }

  function Other(s: System, who: Who): Peer {
    if who == TheClient then s.daemon else s.client
  }

  function WithSelf(s: System, who: Who, p: Peer): System {
    if who == TheClient then s.(client := p) else s.(daemon := p)
  }

  /** One `write` or `read` that transfers `n` bytes. */
  datatype Act = Write(n: nat) | Take(n: nat)

  /** A write moves some of the rest into the buffer, as far as there is room; a read takes some of
      what the buffer holds, as far as it is wanted. */
  ghost predicate Enabled(self: Peer, other: Peer, act: Act, capacity: nat) {
    match act
    case Write(n) => self.proc.Send? && 0 < n <= |self.proc.rest| && |self.output| + n <= |other.input| + capacity
    case Take(n) => self.proc.Recv? && 0 < n <= self.proc.need - |self.proc.got| && |self.input| + n <= |other.output|
  }

  function Apply(env: Env, self: Peer, other: Peer, act: Act): Peer
    requires exists c :: Enabled(self, other, act, c)
  {
    match act
    case Write(n) =>
      var rest := self.proc.rest[n..];
      Peer(if rest == [] then AfterSend(self.proc.next) else Send(rest, self.proc.next),
           self.input, self.output + self.proc.rest[..n])
    case Take(n) =>
      var chunk := other.output[|self.input|..|self.input| + n];
      var got := self.proc.got + chunk;
      Peer(if |got| == self.proc.need then AfterRecv(env, self.proc.wanted, got)
           else Recv(got, self.proc.need, self.proc.wanted),
           self.input + chunk, self.output)
  }

  ghost predicate Next(env: Env, capacity: nat, s: System, s': System) {
    exists who, act :: Enabled(Self(s, who), Other(s, who), act, capacity) &&
      s' == WithSelf(s, who, Apply(env, Self(s, who), Other(s, who), act))
  }

  function Start(env: Env): System {
    System(Peer(Client(env), [], []), Peer(Daemon(env), [], []))
  }

  ghost predicate Run(env: Env, capacity: nat, states: seq<System>) {
    states != [] && states[0] == Start(env) &&
    forall i :: 0 <= i < |states| - 1 ==> Next(env, capacity, states[i], states[i + 1])
  }

  // ----- whole inputs and parts of them -----

  /** More input never takes back output, and an ended process ignores it. */
  lemma {:induction false} WholeMonotone(env: Env, p: Proc, input: Text, more: Text)
    requires Live(p)
    ensures Whole(env, p, input).out <= Whole(env, p, input + more).out
    ensures Whole(env, p, input).end.Some? ==> Whole(env, p, input + more) == Whole(env, p, input)
    decreases |input|, if p.Send? then 1 else 0
  {
    hide AfterSend, AfterRecv;
    match p {
      case Done(end) =>
      case Send(rest, next) => WholeMonotone(env, AfterSend(next), input, more);
      case Recv(got, need, wanted) =>
        var k := need - |got|;
        if k <= |input| {
          assert (input + more)[..k] == input[..k];
          assert (input + more)[k..] == input[k..] + more;
          WholeMonotone(env, AfterRecv(env, wanted, got + input[..k]), input[k..], more);
        }
    }
  }

  /** The peer has done exactly its part of what `init` does: on every further input, what `init`
      does on the whole is what the peer has written and what its process does with the rest. */
  ghost predicate Follows(env: Env, init: Proc, p: Peer) {
    Live(init) && Live(p.proc) && forall more :: FollowsOn(env, init, p, more)
  }

  ghost predicate FollowsOn(env: Env, init: Proc, p: Peer, more: Text)
    requires Live(init) && Live(p.proc)
  {
    Whole(env, init, p.input + more) == Prefixed(p.output, Whole(env, p.proc, more))
  }

  lemma WriteWhole(env: Env, p: Proc, n: nat, more: Text)
    requires Live(p) && p.Send? && 0 < n <= |p.rest|
    ensures var q := if p.rest[n..] == [] then AfterSend(p.next) else Send(p.rest[n..], p.next);
      Live(q) && Whole(env, p, more) == Prefixed(p.rest[..n], Whole(env, q, more))
  {
    hide AfterSend;
    CutAndJoin(p.rest, n, Whole(env, AfterSend(p.next), more).out);
  }

  lemma CutAndJoin(rest: Text, n: nat, w: Text)
    requires n <= |rest|
    ensures rest[..n] + (rest[n..] + w) == rest + w
    ensures rest[n..] == [] ==> rest[..n] + w == rest + w
  {
    assert rest == rest[..n] + rest[n..];
  }

  lemma TakeWhole(env: Env, p: Proc, chunk: Text, more: Text)
    requires Live(p) && p.Recv? && 0 < |chunk| <= p.need - |p.got|
    ensures var got := p.got + chunk;
      var q := if |got| == p.need then AfterRecv(env, p.wanted, got) else Recv(got, p.need, p.wanted);
      Live(q) && Whole(env, p, chunk + more) == Whole(env, q, more)
  {
    hide AfterRecv;
    var k := p.need - |p.got|;
    var all := chunk + more;
    if k <= |all| {
      assert all[..k] == chunk + more[..k - |chunk|];
      assert all[k..] == more[k - |chunk|..];
      assert p.got + all[..k] == p.got + chunk + more[..k - |chunk|];
      if |chunk| == k {
        assert more[..0] == [] && more[0..] == more && all[..k] == chunk;
      }
    }
  }

  lemma StepFollows(env: Env, init: Proc, self: Peer, other: Peer, act: Act, capacity: nat)
    requires Follows(env, init, self) && Enabled(self, other, act, capacity)
    ensures Follows(env, init, Apply(env, self, other, act))
  {
    hide AfterSend, AfterRecv, Whole;
    var p := Apply(env, self, other, act);
    match act {
      case Write(n) =>
        forall more
          ensures Live(p.proc) && FollowsOn(env, init, p, more)
        {
          assert FollowsOn(env, init, self, more);
          WriteWhole(env, self.proc, n, more);
          var w := Whole(env, p.proc, more).out;
          assert self.output + (self.proc.rest[..n] + w) == self.output + self.proc.rest[..n] + w;
        }
      case Take(n) =>
        var chunk := other.output[|self.input|..|self.input| + n];
        forall more
          ensures Live(p.proc) && FollowsOn(env, init, p, more)
        {
          assert FollowsOn(env, init, self, chunk + more);
          TakeWhole(env, self.proc, chunk, more);
          assert self.input + (chunk + more) == self.input + chunk + more;
        }
    }
  }

  // ----- dialogues -----

  /** The two streams of a session: `x` from the client and `y` from the daemon. The client first
      writes `hello`, and the rest of `x` once it has read two bytes; the daemon answers `hello` with
      two bytes, and the whole of `x` with the rest of `y`. The client does not end before it has read
      all, and neither does the daemon; the daemon may still be waiting for more then. */
  ghost predicate Dialogue(env: Env, hello: Text, x: Text, y: Text) {
    && hello != [] && 2 <= |y| && (|hello| < |x| || (|hello| == |x| && |y| == 2))
    && Whole(env, Client(env), y).out == x && Whole(env, Client(env), y).end.Some?
    && Whole(env, Daemon(env), x).out == y
    && (forall read :: read < y ==> ClientWaits(env, hello, x, read))
    && (forall read :: read < x ==> DaemonWaits(env, hello, y, read))
  }

  /** The daemon has read all that it will get, and waits for more. */
  ghost predicate WaitsForMore(env: Env, x: Text, s: System) {
    Whole(env, Daemon(env), x).end.None? && s.daemon.proc.Recv? && s.daemon.input == x
  }

  /** Both sides have come to their end, or the client has and the daemon waits for what never comes. */
  ghost predicate Over(env: Env, x: Text, s: System) {
    s.client.proc.Done? && (s.daemon.proc.Done? || WaitsForMore(env, x, s))
  }

  ghost predicate ClientWaits(env: Env, hello: Text, x: Text, read: Text) {
    Whole(env, Client(env), read) == Big(if |read| < 2 then hello else x, None)
  }

  ghost predicate DaemonWaits(env: Env, hello: Text, y: Text, read: Text)
    requires 2 <= |y|
  {
    Whole(env, Daemon(env), read) == Big(if |read| < |hello| then [] else y[..2], None)
  }

  /** What every state of a run keeps. */
  ghost predicate Inv(env: Env, x: Text, y: Text, s: System) {
    && Follows(env, Client(env), s.client) && Follows(env, Daemon(env), s.daemon)
    && s.client.input <= s.daemon.output && s.client.input <= y
    && s.daemon.input <= s.client.output && s.daemon.input <= x
  }

  /** So far: what a peer has written is part of what it writes in all. */
  lemma FollowsNow(env: Env, init: Proc, p: Peer, whole: Text)
    requires Follows(env, init, p) && p.input <= whole
    ensures Whole(env, init, p.input) == Prefixed(p.output, Whole(env, p.proc, []))
    ensures p.output <= Whole(env, init, whole).out
    ensures p.proc.Done? ==> Whole(env, init, whole) == Big(p.output, Some(p.proc.end))
  {
    hide AfterSend, AfterRecv;
    assert FollowsOn(env, init, p, []);
    assert p.input + [] == p.input;
    assert FollowsOn(env, init, p, whole[|p.input|..]);
    assert p.input + whole[|p.input|..] == whole;
  }

  lemma Bounds(env: Env, hello: Text, x: Text, y: Text, s: System)
    requires Dialogue(env, hello, x, y) && Inv(env, x, y, s)
    ensures s.client.output <= x && s.daemon.output <= y
  {
    hide Whole, Follows;
    FollowsNow(env, Client(env), s.client, y);
    FollowsNow(env, Daemon(env), s.daemon, x);
  }

  lemma StepInv(env: Env, hello: Text, x: Text, y: Text, capacity: nat, s: System, s': System)
    requires Dialogue(env, hello, x, y) && Inv(env, x, y, s) && Next(env, capacity, s, s')
    ensures Inv(env, x, y, s')
    ensures Volume(s) < Volume(s')
  {
    hide Whole, Follows, Dialogue, AfterSend, AfterRecv;
    Bounds(env, hello, x, y, s);
    var who, act :| Enabled(Self(s, who), Other(s, who), act, capacity) &&
                    s' == WithSelf(s, who, Apply(env, Self(s, who), Other(s, who), act));
    StepFollows(env, if who == TheClient then Client(env) else Daemon(env), Self(s, who), Other(s, who), act, capacity);
    Transfer(env, Self(s, who), Other(s, who), act, capacity);
  }

  /** All bytes written and read so far. */
  function Volume(s: System): nat {
    |s.client.input| + |s.client.output| + |s.daemon.input| + |s.daemon.output|
  }

  lemma Transfer(env: Env, self: Peer, other: Peer, act: Act, capacity: nat)
    requires Enabled(self, other, act, capacity) && self.input <= other.output && other.input <= self.output
    ensures var p := Apply(env, self, other, act);
      && self.input <= p.input <= other.output && self.output <= p.output
      && |self.input| + |self.output| < |p.input| + |p.output|
  {
    hide AfterSend, AfterRecv;
    if act.Take? {
      var chunk := other.output[|self.input|..|self.input| + act.n];
      assert self.input + chunk == other.output[..|self.input| + act.n];
    }
  }

  // ----- no deadlock -----

  lemma WaitingWritesNothing(env: Env, p: Proc)
    requires Live(p)
    ensures p.Recv? ==> Whole(env, p, []) == Big([], None)
    ensures p.Done? ==> Whole(env, p, []) == Big([], Some(p.end))
    ensures p.Send? ==> Whole(env, p, []).out != []
  {
    hide AfterSend, AfterRecv;
  }

  /** Where the client is, in terms of what it has read and written. */
  ghost predicate ClientAt(hello: Text, x: Text, y: Text, p: Peer) {
    && (p.proc.Done? ==> p.input == y && p.output == x)
    && (p.proc.Recv? ==> p.input < y && p.output == if |p.input| < 2 then hello else x)
    && (p.proc.Send? ==> |p.output| < if |p.input| < 2 then |hello| else |x|)
  }

  ghost predicate DaemonAt(hello: Text, x: Text, y: Text, p: Peer)
    requires 2 <= |y|
  {
    && (p.proc.Done? ==> p.input == x && p.output == y)
    && (p.proc.Recv? && p.input != x ==> p.input < x && p.output == if |p.input| < |hello| then [] else y[..2])
    && (p.proc.Recv? && p.input == x ==> p.output == y)
    && (p.proc.Send? ==> |p.output| < if |p.input| < |hello| then 0 else if |p.input| < |x| then 2 else |y|)
  }

  lemma ClientPlace(env: Env, hello: Text, x: Text, y: Text, p: Peer)
    requires Dialogue(env, hello, x, y) && Follows(env, Client(env), p) && p.input <= y
    ensures ClientAt(hello, x, y, p)
  {
    hide Whole, Daemon, Client, DaemonWaits;
    FollowsNow(env, Client(env), p, y);
    WaitingWritesNothing(env, p.proc);
    assert p.input < y ==> ClientWaits(env, hello, x, p.input);
    assert p.input == y || p.input < y;
    assert p.output + [] == p.output;
  }

  lemma DaemonPlace(env: Env, hello: Text, x: Text, y: Text, p: Peer)
    requires Dialogue(env, hello, x, y) && Follows(env, Daemon(env), p) && p.input <= x
    ensures DaemonAt(hello, x, y, p)
  {
    hide Whole, Daemon, Client, ClientWaits;
    FollowsNow(env, Daemon(env), p, x);
    WaitingWritesNothing(env, p.proc);
    assert p.input < x ==> DaemonWaits(env, hello, y, p.input);
    assert p.input == x || p.input < x;
    assert p.output + [] == p.output;
  }

  /** A peer that can neither write nor read: the buffer before it is full, or the one behind it empty. */
  ghost predicate Blocked(self: Peer, other: Peer, capacity: nat) {
    && (self.proc.Send? ==> |self.output| >= |other.input| + capacity)
    && (self.proc.Recv? ==> |self.input| >= |other.output|)
  }

  lemma BlockedOrNext(env: Env, capacity: nat, s: System, who: Who)
    requires Live(Self(s, who).proc)
    ensures Blocked(Self(s, who), Other(s, who), capacity) || exists s' :: Next(env, capacity, s, s')
  {
    hide Apply;
    var self, other := Self(s, who), Other(s, who);
    if !Blocked(self, other, capacity) {
      var act := if self.proc.Send? then Write(1) else Take(1);
      assert Enabled(self, other, act, capacity);
      assert Next(env, capacity, s, WithSelf(s, who, Apply(env, self, other, act)));
    }
  }

  lemma BothBlocked(hello: Text, x: Text, y: Text, c: Peer, d: Peer, capacity: nat)
    requires hello != [] && 2 <= |y| && (|hello| < |x| || (|hello| == |x| && |y| == 2)) && capacity > 0
    requires ClientAt(hello, x, y, c) && DaemonAt(hello, x, y, d)
    requires c.input <= d.output && d.input <= c.output
    requires Blocked(c, d, capacity) && Blocked(d, c, capacity)
    ensures c.proc.Done? && (d.proc.Done? || (d.proc.Recv? && d.input == x))
  {
  }

  /** The session never gets stuck: some transfer is possible, or it is over. */
  lemma NoDeadlock(env: Env, hello: Text, x: Text, y: Text, capacity: nat, s: System)
    requires Dialogue(env, hello, x, y) && Inv(env, x, y, s) && capacity > 0
    ensures (exists s' :: Next(env, capacity, s, s')) || Over(env, x, s)
  {
    hide Whole, Follows, Dialogue, ClientAt, DaemonAt, Blocked, Next;
    FollowsIsLive(env, Client(env), s.client);
    FollowsIsLive(env, Daemon(env), s.daemon);
    BlockedOrNext(env, capacity, s, TheClient);
    BlockedOrNext(env, capacity, s, TheDaemon);
    ClientPlace(env, hello, x, y, s.client);
    DaemonPlace(env, hello, x, y, s.daemon);
    DialogueSizes(env, hello, x, y);
    if Blocked(s.client, s.daemon, capacity) && Blocked(s.daemon, s.client, capacity) {
      BothBlocked(hello, x, y, s.client, s.daemon, capacity);
      WaitingIsNoEnd(env, s.daemon, x);
    }
  }

  lemma WaitingIsNoEnd(env: Env, p: Peer, x: Text)
    requires Follows(env, Daemon(env), p)
    ensures p.proc.Recv? && p.input == x ==> Whole(env, Daemon(env), x).end.None?
  {
    hide Whole, Daemon;
    assert FollowsOn(env, Daemon(env), p, []);
    WaitingWritesNothing(env, p.proc);
    assert p.input + [] == p.input;
  }

  lemma FollowsIsLive(env: Env, init: Proc, p: Peer)
    requires Follows(env, init, p)
    ensures Live(p.proc)
  {
  }

  lemma DialogueSizes(env: Env, hello: Text, x: Text, y: Text)
    requires Dialogue(env, hello, x, y)
    ensures hello != [] && 2 <= |y| && (|hello| < |x| || (|hello| == |x| && |y| == 2))
  {
  }

  // ----- runs -----

  lemma StartInv(env: Env, x: Text, y: Text)
    ensures Inv(env, x, y, Start(env))
  {
    hide Whole, AfterSend, AfterRecv;
    forall more
      ensures FollowsOn(env, Client(env), Start(env).client, more)
      ensures FollowsOn(env, Daemon(env), Start(env).daemon, more)
    {
      assert [] + more == more;
      assert [] + Whole(env, Client(env), more).out == Whole(env, Client(env), more).out;
      assert [] + Whole(env, Daemon(env), more).out == Whole(env, Daemon(env), more).out;
    }
  }

  lemma {:induction false} RunInv(env: Env, hello: Text, x: Text, y: Text, capacity: nat, states: seq<System>, i: nat)
    requires Dialogue(env, hello, x, y) && Run(env, capacity, states) && i < |states|
    ensures Inv(env, x, y, states[i]) && i <= Volume(states[i])
  {
    hide Dialogue, Inv, Next;
    if i == 0 {
      StartInv(env, x, y);
    } else {
      RunInv(env, hello, x, y, capacity, states, i - 1);
      assert Next(env, capacity, states[i - 1], states[i - 1 + 1]);
      StepInv(env, hello, x, y, capacity, states[i - 1], states[i]);
    }
  }

  lemma StateTheorem(env: Env, hello: Text, x: Text, y: Text, capacity: nat, s: System)
    requires Dialogue(env, hello, x, y) && Inv(env, x, y, s) && capacity > 0
    ensures Volume(s) <= 2 * |x| + 2 * |y| && s.client.output <= x && s.daemon.output <= y
    ensures s.client.proc.Done? ==> Some(s.client.proc.end) == Whole(env, Client(env), y).end
    ensures s.daemon.proc.Done? ==> Some(s.daemon.proc.end) == Whole(env, Daemon(env), x).end
    ensures (exists s' :: Next(env, capacity, s, s')) || Over(env, x, s)
  {
    hide Whole, Follows, Dialogue, Next;
    Bounds(env, hello, x, y, s);
    FollowsNow(env, Client(env), s.client, y);
    FollowsNow(env, Daemon(env), s.daemon, x);
    NoDeadlock(env, hello, x, y, capacity, s);
  }

  /** Every run of a dialogue, in whatever order and in whatever pieces the bytes are transferred: it
      is finite, it can go on until it is over, the peers write nothing but the two streams, and they end
      as they do on whole inputs. */
  lemma RunTheorem(env: Env, hello: Text, x: Text, y: Text, capacity: nat, states: seq<System>)
    requires Dialogue(env, hello, x, y) && Run(env, capacity, states) && capacity > 0
    ensures |states| <= 1 + 2 * |x| + 2 * |y|
    ensures var s := states[|states| - 1];
      && (s.client.proc.Done? ==> Some(s.client.proc.end) == Whole(env, Client(env), y).end)
      && (s.daemon.proc.Done? ==> Some(s.daemon.proc.end) == Whole(env, Daemon(env), x).end)
      && s.client.output <= x && s.daemon.output <= y
      && ((exists s' :: Next(env, capacity, s, s')) || Over(env, x, s))
  {
    hide *;
    RunEnds(env, capacity, states);
    RunInv(env, hello, x, y, capacity, states, |states| - 1);
    StateTheorem(env, hello, x, y, capacity, states[|states| - 1]);
  }

  lemma RunEnds(env: Env, capacity: nat, states: seq<System>)
    requires Run(env, capacity, states)
    ensures states != []
  {
  }

  // ----- reading exactly a string -----

  /** `p` reads exactly `s` without writing anything, and then is `q`. */
  ghost predicate Reads(env: Env, p: Proc, s: Text, q: Proc) {
    && Live(p) && Live(q)
    && (forall more :: ReadsInto(env, p, s, q, more))
    && (forall part :: part < s ==> Whole(env, p, part) == Big([], None))
  }

  ghost predicate ReadsInto(env: Env, p: Proc, s: Text, q: Proc, more: Text)
    requires Live(p) && Live(q)
  {
    Whole(env, p, s + more) == Whole(env, q, more) && ToEnd(env, p, s + more) == ToEnd(env, q, more)
  }

  lemma ReadsNothing(env: Env, p: Proc)
    requires Live(p)
    ensures Reads(env, p, [], p)
  {
    hide Whole;
    forall more
      ensures ReadsInto(env, p, [], p, more)
    {
      assert [] + more == more;
    }
  }

  lemma ReadsChunk(env: Env, wanted: Wanted, chunk: Text)
    requires chunk != []
    ensures Reads(env, Read(|chunk|, wanted), chunk, AfterRecv(env, wanted, chunk))
  {
    hide AfterRecv, AfterSend;
    var p, q := Read(|chunk|, wanted), AfterRecv(env, wanted, chunk);
    assert [] + chunk == chunk;
    forall more
      ensures ReadsInto(env, p, chunk, q, more)
    {
      TakeWhole(env, p, chunk, more);
      TakeToEnd(env, p, chunk, more);
    }
  }

  lemma TakeToEnd(env: Env, p: Proc, chunk: Text, more: Text)
    requires Live(p) && p.Recv? && p.got == [] && |chunk| == p.need
    ensures ToEnd(env, p, chunk + more) == ToEnd(env, AfterRecv(env, p.wanted, chunk), more)
  {
    hide AfterRecv, AtEof;
    assert (chunk + more)[..p.need] == chunk && (chunk + more)[p.need..] == more && [] + chunk == chunk;
  }

  lemma ReadsThen(env: Env, p: Proc, s: Text, q: Proc, t: Text, r: Proc)
    requires Reads(env, p, s, q) && Reads(env, q, t, r)
    ensures Reads(env, p, s + t, r)
  {
    hide Whole, AfterRecv, AfterSend;
    forall more
      ensures ReadsInto(env, p, s + t, r, more)
    {
      assert ReadsInto(env, p, s, q, t + more) && ReadsInto(env, q, t, r, more);
      assert s + t + more == s + (t + more);
    }
    forall part | part < s + t
      ensures Whole(env, p, part) == Big([], None)
    {
      if part < s {
      } else {
        PrefixSplit(s, t, part);
        var rest := part[|s|..];
        assert ReadsInto(env, p, s, q, rest);
      }
    }
  }

  lemma PrefixSplit(s: Text, t: Text, part: Text)
    requires part < s + t
    ensures part < s || (|s| <= |part| && part == s + part[|s|..] && part[|s|..] < t)
  {
    assert part == (s + t)[..|part|];
    if |part| < |s| {
      assert (s + t)[..|part|] == s[..|part|];
    } else {
      assert part[..|s|] == s;
      assert part[|s|..] == t[..|part| - |s|];
    }
  }

  /** A dialogue from its four turns: `hello`, two bytes `g`, the request `a`, the answer `b`. */
  lemma Turns(env: Env, hello: Text, g: Text, a: Text, b: Text, requested: Sent, greeted: Sent, finished: Sent,
              clientEnd: End, daemonEnd: End)
    requires |g| == 2 && hello != [] && a != [] && b != []
    requires Client(env) == Send(hello, Shake) && Reads(env, AfterSend(Shake), g, Send(a, requested))
    requires Reads(env, AfterSend(requested), b, Done(clientEnd))
    requires Reads(env, Daemon(env), hello, Send(g, greeted)) && Reads(env, AfterSend(greeted), a, Send(b, finished))
    requires AfterSend(finished) == Done(daemonEnd)
    ensures Dialogue(env, hello, hello + a, g + b)
    ensures Whole(env, Client(env), g + b).end == Some(clientEnd)
    ensures Whole(env, Daemon(env), hello + a).end == Some(daemonEnd)
  {
    hide AfterRecv, AfterSend, Reads, Client, Daemon;
    WholeClient(env, hello, g, a, b, requested, clientEnd);
    WholeDaemon(env, hello, g, a, b, greeted, finished, daemonEnd);
    forall read | read < g + b
      ensures ClientWaits(env, hello, hello + a, read)
    {
      ClientReads(env, hello, g, a, b, requested, clientEnd, read);
    }
    forall read | read < hello + a
      ensures DaemonWaits(env, hello, g + b, read)
    {
      DaemonReads(env, hello, g, a, greeted, Send(b, finished), read);
      assert (g + b)[..2] == g;
    }
  }

  lemma IntoOn(env: Env, p: Proc, s: Text, q: Proc, more: Text)
    requires Reads(env, p, s, q)
    ensures Live(p) && Live(q) && Whole(env, p, s + more) == Whole(env, q, more)
    ensures ToEnd(env, p, s + more) == ToEnd(env, q, more)
  {
    hide Whole;
    assert ReadsInto(env, p, s, q, more);
  }

  lemma WholeClient(env: Env, hello: Text, g: Text, a: Text, b: Text, requested: Sent, clientEnd: End)
    requires hello != [] && a != [] && Client(env) == Send(hello, Shake)
    requires Reads(env, AfterSend(Shake), g, Send(a, requested))
    requires Reads(env, AfterSend(requested), b, Done(clientEnd))
    ensures Whole(env, Client(env), g + b) == Big(hello + a, Some(clientEnd))
  {
    hide AfterRecv, AfterSend, Reads, Client;
    IntoOn(env, AfterSend(Shake), g, Send(a, requested), b);
    IntoOn(env, AfterSend(requested), b, Done(clientEnd), []);
    assert b + [] == b;
    assert a + [] == a;
  }

  lemma WholeDaemon(env: Env, hello: Text, g: Text, a: Text, b: Text, greeted: Sent, finished: Sent, daemonEnd: End)
    requires g != [] && b != [] && Reads(env, Daemon(env), hello, Send(g, greeted))
    requires Reads(env, AfterSend(greeted), a, Send(b, finished)) && AfterSend(finished) == Done(daemonEnd)
    ensures Whole(env, Daemon(env), hello + a) == Big(g + b, Some(daemonEnd))
  {
    hide AfterRecv, AfterSend, Reads, Daemon;
    IntoOn(env, Daemon(env), hello, Send(g, greeted), a);
    IntoOn(env, AfterSend(greeted), a, Send(b, finished), []);
    assert a + [] == a;
    assert b + [] == b;
  }

  lemma ClientReads(env: Env, hello: Text, g: Text, a: Text, b: Text, requested: Sent, clientEnd: End, read: Text)
    requires |g| == 2 && hello != [] && a != [] && Client(env) == Send(hello, Shake) && read < g + b
    requires Reads(env, AfterSend(Shake), g, Send(a, requested))
    requires Reads(env, AfterSend(requested), b, Done(clientEnd))
    ensures ClientWaits(env, hello, hello + a, read)
  {
    hide AfterRecv, AfterSend, Client;
    PrefixSplit(g, b, read);
    assert hello + [] == hello && a + [] == a;
    if read < g {
      assert |read| < 2;
      assert Whole(env, AfterSend(Shake), read) == Big([], None);
    } else {
      var rest := read[2..];
      IntoOn(env, AfterSend(Shake), g, Send(a, requested), rest);
      assert Whole(env, AfterSend(requested), rest) == Big([], None);
    }
  }

  lemma DaemonReads(env: Env, hello: Text, g: Text, a: Text, greeted: Sent, q: Proc, read: Text)
    requires |g| == 2 && read < hello + a
    requires Reads(env, Daemon(env), hello, Send(g, greeted)) && Reads(env, AfterSend(greeted), a, q)
    ensures Whole(env, Daemon(env), read) == Big(if |read| < |hello| then [] else g, None)
  {
    hide AfterRecv, AfterSend, Daemon;
    PrefixSplit(hello, a, read);
    assert g + [] == g;
    if !(read < hello) {
      var rest := read[|hello|..];
      IntoOn(env, Daemon(env), hello, Send(g, greeted), rest);
    }
  }
}
