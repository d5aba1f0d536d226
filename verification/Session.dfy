/** The client/daemon session: what every interleaving delivers. */
module Session {
  import opened Bytes
  import opened SessionPeers
  import opened SessionRuns

  // ----- what the peers make of each piece of the streams -----

  lemma UshortValue(n: int)
    ensures FromBigEndian(Ushort(n)) == n % 0x1_0000
  {
    assert Pow256(2) == 0x1_0000;
    BigEndianRoundTrip(n % 0x1_0000, 2);
  }

  lemma ReadsUshort(env: Env, wanted: Wanted, n: int)
    ensures Reads(env, Read(2, wanted), Ushort(n), AfterRecv(env, wanted, Ushort(n)))
  {
    hide AfterRecv, Reads;
    ReadsChunk(env, wanted, Ushort(n));
  }

  /** A C string that fits a frame. */
  ghost predicate Sane(s: Text) {
    |s| < 4096 && NulFree(s)
  }

  lemma SaneCString(s: Text)
    requires Sane(s)
    ensures CString(s) == s
  {
    assert NulAt(s, 0) == |s|;
    assert s[..|s|] == s;
  }

  /** `malloc_read_string` reads back what `write_string` wrote, for each of its three users. */
  lemma ReadsVersionText(env: Env, s: Text)
    requires Sane(s)
    ensures Reads(env, Read(2, VersionLength), String(s), Read(2, Major))
  {
    hide Reads, Ushort;
    UshortValue(|s|);
    ReadsUshort(env, VersionLength, |s|);
    if s == [] {
      assert Ushort(0) + [] == Ushort(0);
    } else {
      ReadsChunk(env, VersionText, s);
      ReadsThen(env, Read(2, VersionLength), Ushort(|s|), Read(|s|, VersionText), s, Read(2, Major));
    }
  }

  lemma ReadsArg(env: Env, argc: nat, argv: seq<Text>, s: Text)
    requires Sane(s)
    ensures Reads(env, Read(2, ArgLength(argc, argv)), String(s), NextArg(env, argc, argv + [s]))
  {
    hide Reads, Ushort, NextArg, CString;
    UshortValue(|s|);
    ReadsUshort(env, ArgLength(argc, argv), |s|);
    if s == [] {
      assert Ushort(0) + [] == Ushort(0);
    } else {
      SaneCString(s);
      ReadsChunk(env, ArgBody(argc, argv), s);
      ReadsThen(env, Read(2, ArgLength(argc, argv)), Ushort(|s|), Read(|s|, ArgBody(argc, argv)), s,
                NextArg(env, argc, argv + [s]));
    }
  }

  lemma ReadsMessage(env: Env, printed: seq<Text>, s: Text)
    requires Sane(s) && s != []
    ensures Reads(env, Read(2, MessageLength(printed)), String(s), Read(2, MessageLength(printed + [s])))
  {
    hide Reads, Ushort, CString;
    UshortValue(|s|);
    ReadsUshort(env, MessageLength(printed), |s|);
    SaneCString(s);
    ReadsChunk(env, MessageBody(printed), s);
    ReadsThen(env, Read(2, MessageLength(printed)), Ushort(|s|), Read(|s|, MessageBody(printed)), s,
              Read(2, MessageLength(printed + [s])));
  }

  lemma LiveNextArg(env: Env, argc: nat, argv: seq<Text>)
    ensures Live(NextArg(env, argc, argv))
  {
  }

  lemma {:induction false} ReadsArgs(env: Env, argc: nat, argv: seq<Text>, rest: seq<Text>)
    requires |argv| + |rest| == argc && forall i :: 0 <= i < |rest| ==> Sane(rest[i])
    ensures Reads(env, NextArg(env, argc, argv), Strings(rest), NextArg(env, argc, argv + rest))
    decreases |rest|
  {
    hide Reads, String, Answer, Sane;
    if rest == [] {
      LiveNextArg(env, argc, argv);
      ReadsNothing(env, NextArg(env, argc, argv));
      assert argv + [] == argv;
    } else {
      ReadsArg(env, argc, argv, rest[0]);
      ReadsArgs(env, argc, argv + [rest[0]], rest[1..]);
      assert argv + [rest[0]] + rest[1..] == argv + rest;
      ReadsThen(env, NextArg(env, argc, argv), String(rest[0]), NextArg(env, argc, argv + [rest[0]]),
                Strings(rest[1..]), NextArg(env, argc, argv + rest));
    }
  }

  lemma {:induction false} ReadsMessages(env: Env, printed: seq<Text>, rest: seq<Text>)
    requires forall i :: 0 <= i < |rest| ==> Sane(rest[i]) && rest[i] != []
    ensures Reads(env, Read(2, MessageLength(printed)), Strings(rest), Read(2, MessageLength(printed + rest)))
    decreases |rest|
  {
    hide Reads, String, Sane;
    if rest == [] {
      ReadsNothing(env, Read(2, MessageLength(printed)));
      assert printed + [] == printed;
    } else {
      ReadsMessage(env, printed, rest[0]);
      ReadsMessages(env, printed + [rest[0]], rest[1..]);
      assert printed + [rest[0]] + rest[1..] == printed + rest;
      ReadsThen(env, Read(2, MessageLength(printed)), String(rest[0]), Read(2, MessageLength(printed + [rest[0]])),
                Strings(rest[1..]), Read(2, MessageLength(printed + rest)));
    }
  }

  /** The client reads an answer to its end. */
  lemma ReadsAnswer(env: Env, r: Reply)
    requires forall i :: 0 <= i < |r.messages| ==> Sane(r.messages[i]) && r.messages[i] != []
    ensures Reads(env, Read(2, MessageLength([])), Answer(r), Done(ClientEnd(r.ret % 0x1_0000, r.messages)))
  {
    hide Reads, Ushort, Strings, Sane;
    var p := r.messages;
    ReadsMessages(env, [], p);
    assert [] + p == p;
    UshortValue(0);
    assert String([]) == Ushort(0) by {
      assert Ushort(0) + [] == Ushort(0);
    }
    ReadsUshort(env, MessageLength(p), 0);
    UshortValue(r.ret);
    ReadsUshort(env, Result(p), r.ret);
    ReadsThen(env, Read(2, MessageLength([])), Strings(p), Read(2, MessageLength(p)), Ushort(0), Read(2, Result(p)));
    ReadsThen(env, Read(2, MessageLength([])), Strings(p) + Ushort(0), Read(2, Result(p)), Ushort(r.ret),
              Done(ClientEnd(r.ret % 0x1_0000, p)));
  }

  // ----- a well-formed session -----

  ghost predicate SaneVersion(v: Version) {
    Sane(v.text) && v.major < 0x1_0000 && v.minor < 0x1_0000 && v.patch < 0x1_0000
  }

  /** The reply that the session ends with, and what `do_command` was given for it. */
  function Expected(env: Env): Reply {
    if env.args == [] then NO_COMMAND else env.command(env.args)
  }

  function Ran(env: Env): Option<seq<Text>> {
    if env.args == [] then None else Some(env.args)
  }

  /** Matching versions, at most 256 arguments of fewer than 4096 bytes, and messages that are not
      empty and have fewer than 4096 bytes. */
  ghost predicate WellFormed(env: Env) {
    && SaneVersion(env.client) && SaneVersion(env.daemon)
    && env.client.major == env.daemon.major && env.client.minor == env.daemon.minor
    && env.client.patch == env.daemon.patch
    && |env.args| <= 256 && (forall i :: 0 <= i < |env.args| ==> Sane(env.args[i]))
    && (forall i :: 0 <= i < |Expected(env).messages| ==>
          Sane(Expected(env).messages[i]) && Expected(env).messages[i] != [])
  }

  lemma ReadsHello(env: Env)
    requires SaneVersion(env.client)
    ensures Reads(env, Daemon(env), Hello(env.client),
                  CheckVersion(env.daemon, env.client.major, env.client.minor, env.client.patch))
  {
    hide Reads, Ushort, CheckVersion, String, Sane;
    var v := env.client;
    var d, p3 := Daemon(env), Read(2, Patch(v.major, v.minor));
    ReadsVersionText(env, v.text);
    UshortValue(v.major);
    UshortValue(v.minor);
    UshortValue(v.patch);
    ReadsUshort(env, Major, v.major);
    ReadsUshort(env, Minor(v.major), v.minor);
    ReadsUshort(env, Patch(v.major, v.minor), v.patch);
    ReadsThen(env, d, String(v.text), Read(2, Major), Ushort(v.major), Read(2, Minor(v.major)));
    ReadsThen(env, d, String(v.text) + Ushort(v.major), Read(2, Minor(v.major)), Ushort(v.minor), p3);
    ReadsThen(env, d, String(v.text) + Ushort(v.major) + Ushort(v.minor), p3, Ushort(v.patch),
              CheckVersion(env.daemon, v.major, v.minor, v.patch));
  }

  /** What the handler does with the argument count and the arguments. */
  lemma ReadsRequest(env: Env)
    requires |env.args| <= MAX_ARGS && forall i :: 0 <= i < |env.args| ==> Sane(env.args[i])
    ensures Reads(env, Read(2, Argc), Ushort(|env.args|) + Strings(env.args),
                  Send(Answer(Expected(env)), Finish(Expected(env).ret, Ran(env))))
  {
    hide Reads, Ushort, Strings, Answer, Sane;
    var n := |env.args|;
    UshortValue(n);
    ReadsUshort(env, Argc, n);
    if n == 0 {
      assert Strings([]) == [] by {
        NoStrings();
      }
      assert Ushort(0) + [] == Ushort(0);
    } else {
      ReadsArgs(env, n, [], env.args);
      assert [] + env.args == env.args;
      ReadsThen(env, Read(2, Argc), Ushort(n), NextArg(env, n, []), Strings(env.args), NextArg(env, n, env.args));
    }
  }

  lemma {:induction false} AllSendable(args: seq<Text>)
    requires forall i :: 0 <= i < |args| ==> |args[i]| < MAX_STRING
    ensures Sendable(args) == args
  {
    if args != [] {
      AllSendable(args[1..]);
    }
  }

  lemma ReadsHandshake(env: Env)
    requires forall i :: 0 <= i < |env.args| ==> |env.args[i]| < MAX_STRING
    ensures Reads(env, Read(2, ReadShake), Ushort(0), Send(Ushort(|env.args|) + Strings(env.args), Listen))
  {
    hide Reads, Ushort, Strings, Sendable;
    UshortValue(0);
    ReadsUshort(env, ReadShake, 0);
    AllSendable(env.args);
  }

  /** The request after the greeting. */
  function Request(env: Env): Text {
    Ushort(|env.args|) + Strings(env.args)
  }

  lemma SessionIsDialogue(env: Env)
    requires WellFormed(env)
    ensures var x, y := Hello(env.client) + Request(env), Ushort(0) + Answer(Expected(env));
      && Dialogue(env, Hello(env.client), x, y)
      && Whole(env, Client(env), y).end == Some(ClientEnd(Expected(env).ret % 0x1_0000, Expected(env).messages))
      && Whole(env, Daemon(env), x).end == Some(DaemonEnd(Expected(env).ret, Ran(env)))
  {
    hide Reads, Ushort, Strings, Hello, Daemon, Answer, Expected, Dialogue, Whole;
    ReadsHello(env);
    ReadsHandshake(env);
    ReadsRequest(env);
    ReadsAnswer(env, Expected(env));
    AnswerNotEmpty(Expected(env));
    Turns(env, Hello(env.client), Ushort(0), Request(env), Answer(Expected(env)), Listen, AwaitArgc,
          Finish(Expected(env).ret, Ran(env)),
          ClientEnd(Expected(env).ret % 0x1_0000, Expected(env).messages), DaemonEnd(Expected(env).ret, Ran(env)));
  }

  lemma OverIsEnd(env: Env, x: Text, s: System)
    requires Over(env, x, s) && Whole(env, Daemon(env), x).end.Some?
    ensures s.client.proc.Done? && s.daemon.proc.Done?
  {
    hide Whole, Daemon;
  }

  /** The session, in every interleaving, with buffers of any size and any short reads and writes: it
      is finite; until both sides have ended some transfer is possible; the handler ends having run
      exactly the arguments, and the client ends having printed exactly the messages, in order, and
      returns the result modulo 65536. */
  lemma SessionTheorem(env: Env, capacity: nat, states: seq<System>)
    requires WellFormed(env) && capacity > 0 && Run(env, capacity, states)
    ensures |states| <= 1 + 2 * |Hello(env.client) + Request(env)| + 2 * |Ushort(0) + Answer(Expected(env))|
    ensures var s := states[|states| - 1];
      && (s.client.proc.Done? ==> s.client.proc.end == ClientEnd(Expected(env).ret % 0x1_0000, Expected(env).messages))
      && (s.daemon.proc.Done? ==> s.daemon.proc.end == DaemonEnd(Expected(env).ret, Ran(env)))
      && ((exists s' :: Next(env, capacity, s, s')) || (s.client.proc.Done? && s.daemon.proc.Done?))
  {
    hide *;
    SessionIsDialogue(env);
    RunEnds(env, capacity, states);
    RunTheorem(env, Hello(env.client), Hello(env.client) + Request(env), Ushort(0) + Answer(Expected(env)), capacity,
               states);
    if Over(env, Hello(env.client) + Request(env), states[|states| - 1]) {
      OverIsEnd(env, Hello(env.client) + Request(env), states[|states| - 1]);
    }
  }
}
