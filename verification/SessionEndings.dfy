/** The sessions that do not get to an answer: a refused version, an argument that the client cannot send,
    too many arguments, and no command at all. */
module SessionEndings {
  import opened Bytes
  import opened Errno
  import opened SessionPeers
  import opened SessionRuns
  import opened Session
  import Programs = SessionPrograms

  // ----- dialogues with fewer turns -----

  /** `hello`, and two bytes that end both sides. */
  lemma TwoTurns(env: Env, hello: Text, g: Text, finished: Sent, clientEnd: End, daemonEnd: End)
    requires |g| == 2 && hello != [] && Client(env) == Send(hello, Shake)
    requires Reads(env, AfterSend(Shake), g, Done(clientEnd))
    requires Reads(env, Daemon(env), hello, Send(g, finished)) && AfterSend(finished) == Done(daemonEnd)
    ensures Dialogue(env, hello, hello, g)
    ensures Whole(env, Client(env), g).end == Some(clientEnd) && Whole(env, Daemon(env), hello).end == Some(daemonEnd)
  {
    hide AfterRecv, AfterSend, Client, Daemon;
    IntoOn(env, AfterSend(Shake), g, Done(clientEnd), []);
    IntoOn(env, Daemon(env), hello, Send(g, finished), []);
    assert g + [] == g && hello + [] == hello;
    forall read | read < g
      ensures ClientWaits(env, hello, hello, read)
    {
      ClientHeard(env, hello, hello, g, Done(clientEnd), read);
    }
    forall read | read < hello
      ensures DaemonWaits(env, hello, g, read)
    {
    }
  }

  /** `hello`, two bytes, and a request that breaks off while the daemon is reading it. */
  lemma BrokenTurns(env: Env, hello: Text, g: Text, a: Text, requested: Sent, greeted: Sent, clientEnd: End, q: Proc)
    requires |g| == 2 && hello != [] && a != [] && Client(env) == Send(hello, Shake)
    requires Reads(env, AfterSend(Shake), g, Send(a, requested)) && AfterSend(requested) == Done(clientEnd)
    requires Reads(env, Daemon(env), hello, Send(g, greeted)) && Reads(env, AfterSend(greeted), a, q) && q.Recv?
    ensures Dialogue(env, hello, hello + a, g)
    ensures Whole(env, Client(env), g).end == Some(clientEnd) && Whole(env, Daemon(env), hello + a).end == None
  {
    hide AfterRecv, AfterSend, Client, Daemon, Reads;
    BrokenWholes(env, hello, g, a, requested, greeted, clientEnd, q);
    forall read | read < g
      ensures ClientWaits(env, hello, hello + a, read)
    {
      ClientHeard(env, hello, hello + a, g, Send(a, requested), read);
    }
    forall read | read < hello + a
      ensures DaemonWaits(env, hello, g, read)
    {
      DaemonReads(env, hello, g, a, greeted, q, read);
      assert g[..2] == g;
    }
  }

  lemma BrokenWholes(env: Env, hello: Text, g: Text, a: Text, requested: Sent, greeted: Sent, clientEnd: End, q: Proc)
    requires hello != [] && a != [] && g != [] && Client(env) == Send(hello, Shake)
    requires Reads(env, AfterSend(Shake), g, Send(a, requested)) && AfterSend(requested) == Done(clientEnd)
    requires Reads(env, Daemon(env), hello, Send(g, greeted)) && Reads(env, AfterSend(greeted), a, q) && q.Recv?
    ensures Whole(env, Client(env), g) == Big(hello + a, Some(clientEnd))
    ensures Whole(env, Daemon(env), hello + a) == Big(g, None)
  {
    hide AfterRecv, AfterSend, Client, Daemon, Reads;
    IntoOn(env, AfterSend(Shake), g, Send(a, requested), []);
    assert g + [] == g && a + [] == a;
    IntoOn(env, Daemon(env), hello, Send(g, greeted), a);
    IntoOn(env, AfterSend(greeted), a, q, []);
    WaitingWritesNothing(env, q);
  }

  lemma ClientHeard(env: Env, hello: Text, x: Text, g: Text, q: Proc, read: Text)
    requires |g| == 2 && hello != [] && read < g && Client(env) == Send(hello, Shake)
    requires Reads(env, AfterSend(Shake), g, q)
    ensures ClientWaits(env, hello, x, read)
  {
    hide AfterRecv, AfterSend, Client;
    assert |read| < 2 && hello + [] == hello;
    assert Whole(env, AfterSend(Shake), read) == Big([], None);
  }

  // ----- different versions -----

  ghost predicate Differ(a: Version, b: Version) {
    a.major != b.major || a.minor != b.minor || a.patch != b.patch
  }

  lemma RefusedIsDialogue(env: Env)
    requires SaneVersion(env.client) && Differ(env.client, env.daemon)
    ensures Dialogue(env, Hello(env.client), Hello(env.client), Ushort(71))
    ensures Whole(env, Client(env), Ushort(71)).end == Some(ClientEnd(71, []))
    ensures Whole(env, Daemon(env), Hello(env.client)).end == Some(DaemonEnd(71, None))
  {
    hide Reads, Ushort, Hello, Dialogue, Whole, Daemon;
    ReadsHello(env);
    UshortValue(71);
    ReadsUshort(env, ReadShake, 71);
    TwoTurns(env, Hello(env.client), Ushort(71), Finish(71, None), ClientEnd(71, []), DaemonEnd(71, None));
  }

  /** Different versions, in every interleaving: the session is finite and not stuck, both sides end with
      EPROTO, nothing is run, and the client has written no more than its version. */
  lemma RefusedTheorem(env: Env, capacity: nat, states: seq<System>)
    requires SaneVersion(env.client) && Differ(env.client, env.daemon) && capacity > 0 && Run(env, capacity, states)
    ensures |states| <= 1 + 2 * |Hello(env.client)| + 2 * |Ushort(71)|
    ensures var s := states[|states| - 1];
      && s.client.output <= Hello(env.client)
      && (s.client.proc.Done? ==> s.client.proc.end == ClientEnd(71, []))
      && (s.daemon.proc.Done? ==> s.daemon.proc.end == DaemonEnd(71, None))
      && ((exists s' :: Next(env, capacity, s, s')) || (s.client.proc.Done? && s.daemon.proc.Done?))
  {
    hide *;
    RefusedIsDialogue(env);
    RunEnds(env, capacity, states);
    RunTheorem(env, Hello(env.client), Hello(env.client), Ushort(71), capacity, states);
    if Over(env, Hello(env.client), states[|states| - 1]) {
      OverIsEnd(env, Hello(env.client), states[|states| - 1]);
    }
  }

  // ----- an argument that is too long -----

  ghost predicate SameVersion(env: Env) {
    SaneVersion(env.client) && SaneVersion(env.daemon) && !Differ(env.client, env.daemon)
  }

  /** The `k`-th argument is the first one of 4096 bytes or more. */
  ghost predicate FirstTooLong(env: Env, k: nat) {
    && k < |env.args| <= 256 && |env.args[k]| >= 4096
    && forall i :: 0 <= i < k ==> Sane(env.args[i])
  }

  /** What the client sends of its request. */
  function Broken(env: Env, k: nat): Text
    requires k <= |env.args|
  {
    Ushort(|env.args|) + Strings(env.args[..k])
  }

  lemma BrokenRequest(env: Env, k: nat)
    requires FirstTooLong(env, k)
    ensures Sendable(env.args) == env.args[..k]
  {
    hide Sane;
    var args := env.args;
    forall i | 0 <= i < k
      ensures |args[i]| < MAX_STRING
    {
      SaneIsShort(args[i]);
    }
    Programs.SendableSplit(args, k);
    assert args[..k] + [] == args[..k];
  }

  lemma SaneIsShort(s: Text)
    requires Sane(s)
    ensures |s| < MAX_STRING
  {
  }

  /** The client once it has been let in. */
  lemma BreaksOff(env: Env, k: nat)
    requires FirstTooLong(env, k)
    ensures Reads(env, Read(2, ReadShake), Ushort(0), Send(Broken(env, k), Overflow))
  {
    hide Reads, Ushort, Strings, Sendable, Sane;
    UshortValue(0);
    ReadsUshort(env, ReadShake, 0);
    BrokenRequest(env, k);
  }

  /** The daemon on what the client sends of its request. */
  lemma ReadsBroken(env: Env, k: nat)
    requires FirstTooLong(env, k)
    ensures Reads(env, Read(2, Argc), Broken(env, k), Read(2, ArgLength(|env.args|, env.args[..k])))
  {
    hide Reads, Ushort, Strings, Sane;
    var n, args := |env.args|, env.args;
    UshortValue(n);
    ReadsUshort(env, Argc, n);
    ReadsSome(env, n, [], args[..k]);
    assert [] + args[..k] == args[..k];
    ReadsThen(env, Read(2, Argc), Ushort(n), NextArg(env, n, []), Strings(args[..k]), NextArg(env, n, args[..k]));
  }

  lemma BrokenIsDialogue(env: Env, k: nat)
    requires SameVersion(env) && FirstTooLong(env, k)
    ensures var x := Hello(env.client) + Broken(env, k);
      && Dialogue(env, Hello(env.client), x, Ushort(0))
      && Whole(env, Client(env), Ushort(0)).end == Some(ClientEnd(75, []))
      && Whole(env, Daemon(env), x).end == None
  {
    hide Reads, Ushort, Hello, Dialogue, Whole, Strings, Sane;
    ReadsHello(env);
    BreaksOff(env, k);
    ReadsBroken(env, k);
    BrokenTurns(env, Hello(env.client), Ushort(0), Broken(env, k), Overflow, AwaitArgc, ClientEnd(75, []),
                Read(2, ArgLength(|env.args|, env.args[..k])));
  }

  lemma {:induction false} ReadsSome(env: Env, argc: nat, argv: seq<Text>, rest: seq<Text>)
    requires |argv| + |rest| <= argc && forall i :: 0 <= i < |rest| ==> Sane(rest[i])
    ensures Reads(env, NextArg(env, argc, argv), Strings(rest), NextArg(env, argc, argv + rest))
    decreases |rest|
  {
    hide Reads, String, Answer, Sane;
    if rest == [] {
      LiveNextArg(env, argc, argv);
      ReadsNothing(env, NextArg(env, argc, argv));
      assert argv + [] == argv;
    } else {
      ReadsArg(env, argc, argv, rest[0]);
      ReadsSome(env, argc, argv + [rest[0]], rest[1..]);
      assert argv + [rest[0]] + rest[1..] == argv + rest;
      ReadsThen(env, NextArg(env, argc, argv), String(rest[0]), NextArg(env, argc, argv + [rest[0]]),
                Strings(rest[1..]), NextArg(env, argc, argv + rest));
    }
  }

  /** An argument of 4096 bytes or more, in every interleaving: the client writes the count and the
      arguments before it, and ends with EOVERFLOW; the daemon is left waiting for the rest. When the
      connection is closed then, the daemon reports EPIPE, ends with it and has run nothing. */
  lemma BrokenTheorem(env: Env, k: nat, capacity: nat, states: seq<System>)
    requires SameVersion(env) && FirstTooLong(env, k) && capacity > 0 && Run(env, capacity, states)
    ensures var x := Hello(env.client) + Broken(env, k);
      var s := states[|states| - 1];
      && |states| <= 1 + 2 * |x| + 2 * |Ushort(0)| && s.client.output <= x
      && (s.client.proc.Done? ==> s.client.proc.end == ClientEnd(75, []))
      && !s.daemon.proc.Done?
      && ((exists s' :: Next(env, capacity, s, s')) ||
          (s.client.proc.Done? && s.daemon.proc.Recv? && s.daemon.input == x))
    ensures ToEnd(env, Daemon(env), Hello(env.client) + Broken(env, k)) ==
            Big(Ushort(0) + Report(32), Some(DaemonEnd(32, None)))
  {
    hide *;
    TooLongIsOne(env, k);
    BrokenIsDialogue(env, k);
    var x := Hello(env.client) + Broken(env, k);
    RunEnds(env, capacity, states);
    RunTheorem(env, Hello(env.client), x, Ushort(0), capacity, states);
    if Over(env, x, states[|states| - 1]) {
      OverIsWaiting(env, x, states[|states| - 1]);
    }
    BrokenClosed(env, k);
  }

  lemma TooLongIsOne(env: Env, k: nat)
    requires FirstTooLong(env, k)
    ensures k < |env.args|
  {
  }

  lemma OverIsWaiting(env: Env, x: Text, s: System)
    requires Over(env, x, s) && !s.daemon.proc.Done?
    ensures s.client.proc.Done? && s.daemon.proc.Recv? && s.daemon.input == x
  {
    hide Whole, Daemon;
  }

  lemma BrokenClosed(env: Env, k: nat)
    requires SameVersion(env) && FirstTooLong(env, k)
    ensures ToEnd(env, Daemon(env), Hello(env.client) + Broken(env, k)) ==
            Big(Ushort(0) + Report(32), Some(DaemonEnd(32, None)))
  {
    hide Reads, Ushort, Hello, Daemon, ToEnd, Whole, Sane, Broken, Report;
    var a, argv := Broken(env, k), env.args[..k];
    ReadsHello(env);
    ReadsBroken(env, k);
    IntoOn(env, Daemon(env), Hello(env.client), Send(Ushort(0), AwaitArgc), a);
    IntoOn(env, Read(2, Argc), a, Read(2, ArgLength(|env.args|, argv)), []);
    assert a + [] == a;
    SendToEnd(env, Ushort(0), AwaitArgc, a);
    ArgClosed(env, |env.args|, argv);
  }

  lemma SendToEnd(env: Env, rest: Text, next: Sent, input: Text)
    requires rest != []
    ensures ToEnd(env, Send(rest, next), input) == Prefixed(rest, ToEnd(env, AfterSend(next), input))
  {
    hide AfterSend;
  }

  /** The report about an argument that cannot be read: a message, and the end of the session twice. */
  function Report(err: int): Text {
    String(Ascii("internal error")) + Ushort(0) + Ushort(err) + Ushort(0) + Ushort(err)
  }

  lemma ReportIsFailure(err: int)
    ensures ArgFailed(err) == Send(Report(err), Finish(err, None)) && Report(err) != []
  {
    hide Ushort, Ascii;
    var one := [Ascii("internal error")];
    assert one[1..] == [] && Strings([]) == [];
    assert Strings(one) == String(one[0]) + [];
    assert String([]) == Ushort(0) by {
      assert Ushort(0) + [] == Ushort(0);
    }
  }

  lemma ArgClosed(env: Env, argc: nat, argv: seq<Text>)
    ensures ToEnd(env, Read(2, ArgLength(argc, argv)), []) == Big(Report(32), Some(DaemonEnd(32, None)))
  {
    hide Answer, String, ArgFailed, Report;
    ReportIsFailure(EPIPE);
    SendToEnd(env, Report(EPIPE), Finish(EPIPE, None), []);
    assert Report(32) + [] == Report(32);
  }

  // ----- a client that hangs up -----

  /** The handler is still reading the version. */
  predicate Early(p: Proc) {
    p.Recv? && (p.wanted.VersionLength? || p.wanted.VersionText? ||
                p.wanted.Major? || p.wanted.Minor? || p.wanted.Patch?)
  }

  lemma EarlyNext(env: Env, wanted: Wanted, got: Text)
    requires Early(Read(1, wanted))
    ensures var q := AfterRecv(env, wanted, got);
      Early(q) || q.Done? || q.Send?
  {
  }

  lemma {:induction false} EarlyCut(env: Env, p: Proc, input: Text)
    requires Live(p) && Early(p)
    ensures var w := Whole(env, p, input);
      w == Big([], None) ==> ToEnd(env, p, input) == Big([], Some(DaemonEnd(32, None)))
    decreases |input|
  {
    hide AfterRecv, AfterSend;
    var k := p.need - |p.got|;
    if |input| < k {
      EarlyEof(env, p.wanted);
    } else {
      var q := AfterRecv(env, p.wanted, p.got + input[..k]);
      EarlyNext(env, p.wanted, p.got + input[..k]);
      if Early(q) {
        EarlyCut(env, q, input[k..]);
      }
    }
  }

  lemma EarlyEof(env: Env, wanted: Wanted)
    requires Early(Read(1, wanted))
    ensures ToEnd(env, AtEof(wanted), []) == Big([], Some(DaemonEnd(32, None)))
  {
  }

  /** A client that hangs up before the handler has answered its version: the handler ends with EPIPE. */
  lemma HungUpEarly(env: Env, input: Text)
    requires Whole(env, Daemon(env), input) == Big([], None)
    ensures ToEnd(env, Daemon(env), input) == Big([], Some(DaemonEnd(32, None)))
  {
    hide Whole, ToEnd;
    EarlyCut(env, Daemon(env), input);
  }

  /** One that hangs up between the version and the argument count: the handler ends with EPROTO. */
  lemma HungUpAtCount(env: Env, part: Text)
    requires SameVersion(env) && |part| < 2
    ensures ToEnd(env, Daemon(env), Hello(env.client) + part).end == Some(DaemonEnd(71, None))
  {
    hide Reads, Ushort, Hello, Daemon, Whole, Sane;
    ReadsHello(env);
    IntoOn(env, Daemon(env), Hello(env.client), Send(Ushort(0), AwaitArgc), part);
    SendToEnd(env, Ushort(0), AwaitArgc, part);
    CountClosed(env, part);
  }

  lemma CountClosed(env: Env, part: Text)
    requires |part| < 2
    ensures ToEnd(env, Read(2, Argc), part).end == Some(DaemonEnd(71, None))
  {
  }

  // ----- lengths that are too large -----

  /** A length of 4096 or more is refused with EOVERFLOW: in the version and for an argument by the
      handler, which then has run nothing, and for a message by the client, which has printed the messages before it. */
  lemma TooLongRefused(env: Env, n: nat, more: Text, argc: nat, argv: seq<Text>, printed: seq<Text>)
    requires 4096 <= n < 0x1_0000
    ensures Whole(env, Read(2, VersionLength), Ushort(n) + more) == Big([], Some(DaemonEnd(75, None)))
    ensures Whole(env, Read(2, ArgLength(argc, argv)), Ushort(n) + more) == Big(Report(75), Some(DaemonEnd(75, None)))
    ensures Whole(env, Read(2, MessageLength(printed)), Ushort(n) + more) == Big([], Some(ClientEnd(75, printed)))
  {
    hide Ushort, ArgFailed, AfterRecv, Report;
    UshortValue(n);
    TakeWhole(env, Read(2, VersionLength), Ushort(n), more);
    TakeWhole(env, Read(2, ArgLength(argc, argv)), Ushort(n), more);
    TakeWhole(env, Read(2, MessageLength(printed)), Ushort(n), more);
    assert [] + Ushort(n) == Ushort(n);
    LongNext(env, Ushort(n), argc, argv, printed);
    FailedWhole(env, more);
  }

  lemma LongNext(env: Env, got: Text, argc: nat, argv: seq<Text>, printed: seq<Text>)
    requires FromBigEndian(got) >= 4096
    ensures AfterRecv(env, VersionLength, got) == Done(DaemonEnd(75, None))
    ensures AfterRecv(env, ArgLength(argc, argv), got) == ArgFailed(75)
    ensures AfterRecv(env, MessageLength(printed), got) == Done(ClientEnd(75, printed))
  {
  }

  lemma FailedWhole(env: Env, more: Text)
    ensures Live(ArgFailed(75)) && Whole(env, ArgFailed(75), more) == Big(Report(75), Some(DaemonEnd(75, None)))
  {
    hide ArgFailed, Report;
    ReportIsFailure(75);
    assert Report(75) + [] == Report(75);
  }

  // ----- the bytes of a request -----

  /** The version and the request on the wire, every number in two bytes, the higher one first. */
  lemma WireFormat(env: Env, text: Text, arg: Text)
    requires |text| < 4096 && |arg| < 4096
    requires env.client == Version(text, 258, 772, 1286) && env.args == [arg]
    ensures Hello(env.client) == [|text| / 256, |text| % 256] + text + [1, 2, 3, 4, 5, 6]
    ensures Request(env) == [0, 1, |arg| / 256, |arg| % 256] + arg
  {
    hide Ushort;
    UshortBytes(|text|);
    UshortBytes(|arg|);
    UshortBytes(258);
    UshortBytes(772);
    UshortBytes(1286);
    UshortBytes(1);
    assert env.args[1..] == [] && Strings([]) == [];
  }

  lemma UshortBytes(n: nat)
    requires n < 0x1_0000
    ensures Ushort(n) == [n / 256, n % 256]
  {
    assert BigEndian(n, 2) == BigEndian(n / 256, 1) + [n % 256];
    assert BigEndian(n / 256, 1) == BigEndian(n / 256 / 256, 0) + [n / 256 % 256];
  }

  // ----- no command, and too many arguments -----

  /** Without arguments the client prints "No command" and returns 0, and nothing is run. */
  lemma NoCommandTheorem(env: Env, capacity: nat, states: seq<System>)
    requires SameVersion(env) && env.args == [] && capacity > 0 && Run(env, capacity, states)
    ensures var s := states[|states| - 1];
      && (s.client.proc.Done? ==> s.client.proc.end == ClientEnd(0, [Ascii("No command")]))
      && (s.daemon.proc.Done? ==> s.daemon.proc.end == DaemonEnd(0, None))
      && ((exists s' :: Next(env, capacity, s, s')) || (s.client.proc.Done? && s.daemon.proc.Done?))
  {
    hide Run, Next, Hello, Request, Answer, Ushort, Ascii;
    NoCommandSane();
    SessionTheorem(env, capacity, states);
  }

  lemma NoCommandSane()
    ensures Sane(Ascii("No command")) && Ascii("No command") != []
  {
  }

  /** What the handler answers to more than 256 arguments. */
  function TooMany(): Text {
    String(Ascii("too many arguments")) + Ushort(7)
  }

  ghost predicate ManyArguments(env: Env) {
    && SameVersion(env) && 256 < |env.args| < 0x1_0000
    && forall i :: 0 <= i < |env.args| ==> Sane(env.args[i])
  }

  /** More than 256 arguments: the handler answers with a message and E2BIG and ends without reading
      them. The client takes E2BIG for the length of another message, so it waits for 7 bytes, and once
      the daemon has closed the connection it returns EPIPE. */
  lemma TooManyArguments(env: Env)
    requires ManyArguments(env)
    ensures var x, y := Hello(env.client) + Request(env), Ushort(0) + TooMany();
      && Whole(env, Daemon(env), x) == Big(y, Some(DaemonEnd(7, None)))
      && Whole(env, Client(env), y) == Big(x, None)
      && ToEnd(env, Client(env), y) == Big(x, Some(ClientEnd(32, [Ascii("too many arguments")])))
  {
    hide *;
    DaemonTooMany(env);
    ClientTooMany(env);
  }

  lemma DaemonTooMany(env: Env)
    requires ManyArguments(env)
    ensures var x := Hello(env.client) + Request(env);
      Whole(env, Daemon(env), x) == Big(Ushort(0) + TooMany(), Some(DaemonEnd(7, None)))
  {
    hide Reads, Ushort, Hello, Daemon, Strings, TooMany, ToEnd, Sane;
    var n, rest := |env.args|, Strings(env.args);
    ReadsHello(env);
    UshortValue(n);
    ReadsUshort(env, Argc, n);
    IntoOn(env, Daemon(env), Hello(env.client), Send(Ushort(0), AwaitArgc), Request(env));
    ManyStart(env, n);
    IntoOn(env, Read(2, Argc), Ushort(n), Send(TooMany(), Finish(7, None)), rest);
    assert TooMany() + [] == TooMany();
  }

  lemma ManyStart(env: Env, n: nat)
    requires n > 256
    ensures StartArgs(env, n) == Send(TooMany(), Finish(7, None))
  {
  }

  lemma ClientTooMany(env: Env)
    requires ManyArguments(env)
    ensures var x, y := Hello(env.client) + Request(env), Ushort(0) + TooMany();
      && Whole(env, Client(env), y) == Big(x, None)
      && ToEnd(env, Client(env), y) == Big(x, Some(ClientEnd(32, [Ascii("too many arguments")])))
  {
    hide Reads, Ushort, Hello, Strings, String, Sane, Ascii;
    var m := Ascii("too many arguments");
    var waits := Read(7, MessageBody([m]));
    TooManySane();
    forall i | 0 <= i < |env.args|
      ensures |env.args[i]| < MAX_STRING
    {
      SaneIsShort(env.args[i]);
    }
    ReadsHandshake(env);
    ReadsMessage(env, [], m);
    assert [] + [m] == [m];
    UshortValue(7);
    ReadsUshort(env, MessageLength([m]), 7);
    ReadsThen(env, Read(2, MessageLength([])), String(m), Read(2, MessageLength([m])), Ushort(7), waits);
    ReadsWaiting(env, TooMany(), waits);
  }

  /** The client once the handshake is done, when what follows leaves it waiting. */
  lemma ReadsWaiting(env: Env, b: Text, waits: Proc)
    requires Reads(env, Read(2, ReadShake), Ushort(0), Send(Request(env), Listen))
    requires Reads(env, Read(2, MessageLength([])), b, waits) && waits.Recv?
    ensures var x, y := Hello(env.client) + Request(env), Ushort(0) + b;
      && Whole(env, Client(env), y) == Big(x, None)
      && ToEnd(env, Client(env), y) == Prefixed(x, ToEnd(env, AtEof(waits.wanted), []))
  {
    hide Reads, Ushort, Hello, Request, AtEof, AfterRecv;
    IntoOn(env, Read(2, ReadShake), Ushort(0), Send(Request(env), Listen), b);
    IntoOn(env, Read(2, MessageLength([])), b, waits, []);
    assert b + [] == b;
    assert Request(env) + [] == Request(env);
    var e := ToEnd(env, AtEof(waits.wanted), []);
    assert Hello(env.client) + (Request(env) + e.out) == Hello(env.client) + Request(env) + e.out;
  }

  lemma TooManySane()
    ensures Sane(Ascii("too many arguments")) && Ascii("too many arguments") != []
  {
  }
}
