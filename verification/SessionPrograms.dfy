/** The client and the handler as the straight programs they are, over a connection with short
    transfers: each does exactly what its process does. */
module SessionPrograms {
  import opened Bytes
  import opened Errno
  import opened SessionPeers
  import opened SessionRuns

  /** What `malloc_read_string` makes of the bytes to come. */
  datatype StringRead = Closed | TooLong(rest: Text) | Got(text: Text, rest: Text)

  function StringIn(input: Text): StringRead {
    if |input| < 2 then Closed else
      var n := FromBigEndian(input[..2]);
      if n >= MAX_STRING then TooLong(input[2..])
      else if n > |input| - 2 then Closed
      else Got(CString(input[2..2 + n]), input[2 + n..])
  }

  lemma TakeBytes(whole: Text, buf: Text, input: Text, r: nat)
    requires whole == buf + input && r <= |input|
    ensures whole == buf + input[..r] + input[r..]
  {
  }

  lemma AllTaken(whole: Text, buf: Text, input: Text)
    requires whole == buf + input
    ensures buf == whole[..|buf|] && input == whole[|buf|..]
  {
  }

  /** One end of a connection: the bytes that can still be read, the bytes written so far, and how
      much each system call transfers. */
  class Connection {
    var input: Text
    var output: Text
    const pace: nat -> nat
    var clock: nat

    constructor (input: Text, pace: nat -> nat)
      ensures this.input == input && output == []
    {
      this.input, this.output, this.pace, this.clock := input, [], pace, 0;
    }

    method Transferred(len: nat) returns (n: nat)
      requires len > 0
      modifies this`clock
      ensures 0 < n <= len
    {
      n := 1 + pace(clock) % len;
      clock := clock + 1;
    }

    method WriteAll(buf: Text)
      modifies this`clock, this`output
      ensures output == old(output) + buf
    {
      var done := 0;
      while done < |buf|
        invariant done <= |buf| && output == old(output) + buf[..done]
      {
        var r := Transferred(|buf| - done);
        output := output + buf[done..done + r];
        assert buf[..done] + buf[done..done + r] == buf[..done + r];
        done := done + r;
      }
      assert buf[..|buf|] == buf;
    }

    /** At the end of the input `read` returns 0, and reading fails. */
    method ReadAll(len: nat) returns (ok: bool, buf: Text)
      modifies this`clock, this`input
      ensures ok <==> len <= |old(input)|
      ensures ok ==> buf == old(input)[..len] && input == old(input)[len..]
      ensures !ok ==> input == []
    {
      ok, buf := true, [];
      while |buf| < len
        invariant |buf| <= len && old(input) == buf + input
      {
        if input == [] {
          return false, buf;
        }
        var r := Transferred(Min(len - |buf|, |input|));
        TakeBytes(old(input), buf, input, r);
        buf, input := buf + input[..r], input[r..];
      }
      AllTaken(old(input), buf, input);
    }

    method ReadUshort() returns (n: int)
      modifies this`clock, this`input
      ensures n == if |old(input)| < 2 then -1 else FromBigEndian(old(input)[..2])
      ensures n >= 0 ==> |old(input)| >= 2 && input == old(input)[2..]
      ensures n < 0 ==> input == []
    {
      var ok, buf := ReadAll(2);
      n := if ok then FromBigEndian(buf) else -1;
    }

    method WriteUshort(n: int)
      modifies this`clock, this`output
      ensures output == old(output) + Ushort(n)
    {
      WriteAll(Ushort(n));
    }

    method MallocReadString() returns (err: int, s: Text)
      modifies this`clock, this`input
      ensures err == match StringIn(old(input))
                     case Closed => EPIPE
                     case TooLong(_) => EOVERFLOW
                     case Got(_, _) => 0
      ensures err == EPIPE ==> input == []
      ensures err == EOVERFLOW ==> input == StringIn(old(input)).rest
      ensures err == 0 ==> StringIn(old(input)) == Got(s, input) && |input| < |old(input)|
    {
      hide CString, FromBigEndian;
      s := [];
      var len := ReadUshort();
      if len < 0 {
        return EPIPE, s;
      }
      if len >= MAX_STRING {
        return EOVERFLOW, s;
      }
      var ok, dest := ReadAll(len);
      if !ok {
        return EPIPE, s;
      }
      assert old(input)[2..][..len] == old(input)[2..2 + len];
      assert old(input)[2..][len..] == old(input)[2 + len..];
      err, s := 0, CString(dest);
    }

    method WriteString(s: Text) returns (err: int)
      modifies this`clock, this`output
      ensures err == if |s| < MAX_STRING then 0 else EOVERFLOW
      ensures output == old(output) + String(s)
    {
      if |s| >= MAX_STRING {
        return EOVERFLOW;
      }
      WriteUshort(|s|);
      WriteAll(s);
      err := 0;
    }
  }

  // ----- a process on all the input it will get -----

  /** What the handler waits for, and what the client waits for. */
  predicate HandlerWants(l: Wanted) {
    l.VersionLength? || l.VersionText? || l.Major? || l.Minor? || l.Patch? || l.Argc? || l.ArgLength? || l.ArgBody?
  }

  predicate IsHandler(p: Proc) {
    match p
    case Send(_, next) => next.AwaitArgc? || next.Finish?
    case Recv(_, _, wanted) => HandlerWants(wanted)
    case Done(end) => end.DaemonEnd?
  }

  lemma HandlerStays(env: Env, l: Wanted, got: Text)
    ensures IsHandler(AfterRecv(env, l, got)) <==> HandlerWants(l)
  {
    hide FromBigEndian, CString, Answer, Ushort, String, Strings;
  }

  lemma Prepend(a: Text, b: Text, c: Text)
    ensures a + (b + c) == a + b + c && [] + a == a
  {
  }

  /** One step of both, on the same input. */
  lemma Unfolded(env: Env, p: Proc, input: Text)
    requires Live(p)
    ensures var w, b := Whole(env, p, input), ToEnd(env, p, input);
      match p
      case Done(end) => b == w == Big([], Some(end))
      case Send(rest, next) =>
        w == Prefixed(rest, Whole(env, AfterSend(next), input)) &&
        b == Prefixed(rest, ToEnd(env, AfterSend(next), input))
      case Recv(got, need, l) =>
        var k := need - |got|;
        if |input| < k then w == Big([], None) && b == ToEnd(env, AtEof(l), [])
        else var q := AfterRecv(env, l, got + input[..k]);
          w == Whole(env, q, input[k..]) && b == ToEnd(env, q, input[k..])
  {
    hide AfterRecv, AtEof, AfterSend;
  }

  /** With enough input to end, closing the stream makes no difference. Otherwise the process is cut
      short while it is reading, and goes on from there. */
  lemma {:induction false} CutShort(env: Env, p: Proc, input: Text) returns (wanted: Wanted)
    requires Live(p)
    ensures var w, b := Whole(env, p, input), ToEnd(env, p, input);
      && (w.end.Some? ==> b == w)
      && (w.end.None? ==>
            b == Prefixed(w.out, ToEnd(env, AtEof(wanted), [])) && (HandlerWants(wanted) <==> IsHandler(p)))
    decreases |input|, if p.Send? then 1 else 0
  {
    hide AfterRecv, AtEof, Whole, ToEnd;
    wanted := Argc;
    Unfolded(env, p, input);
    match p {
      case Done(end) =>
      case Send(rest, next) =>
        wanted := CutShort(env, AfterSend(next), input);
        Prepend(rest, Whole(env, AfterSend(next), input).out, ToEnd(env, AtEof(wanted), []).out);
      case Recv(got, need, l) =>
        var k := need - |got|;
        if |input| < k {
          wanted := l;
          Prepend(ToEnd(env, AtEof(l), []).out, [], []);
        } else {
          HandlerStays(env, l, got + input[..k]);
          wanted := CutShort(env, AfterRecv(env, l, got + input[..k]), input[k..]);
        }
    }
  }

  /** What the handler sends when it cannot read an argument because the stream is closed. */
  function ClosedReport(): Text {
    ArgFailed(EPIPE).rest
  }

  /** A handler whose client goes away has run nothing. It has written what it had written, and at
      most the error report behind it, and returns EPROTO or EPIPE. */
  lemma HandlerCutShort(env: Env, input: Text)
    requires Whole(env, Daemon(env), input).end == None
    ensures var w, b := Whole(env, Daemon(env), input), ToEnd(env, Daemon(env), input);
      || (b.out == w.out && b.end in {Some(DaemonEnd(EPIPE, None)), Some(DaemonEnd(EPROTO, None))})
      || (b.out == w.out + ClosedReport() && b.end == Some(DaemonEnd(EPIPE, None)))
  {
    hide Whole, Answer;
    var wanted := CutShort(env, Daemon(env), input);
    var out := Whole(env, Daemon(env), input).out;
    assert out + [] == out && ClosedReport() + [] == ClosedReport();
  }

  /** A client whose daemon goes away writes nothing more, and returns EPIPE. */
  lemma ClientCutShort(env: Env, input: Text)
    requires Whole(env, Client(env), input).end == None
    ensures var w, b := Whole(env, Client(env), input), ToEnd(env, Client(env), input);
      b.out == w.out && b.end.value.ClientEnd? && b.end.value.ret == EPIPE
  {
    hide Whole, Hello;
    var wanted := CutShort(env, Client(env), input);
    var out := Whole(env, Client(env), input).out;
    assert out + [] == out;
  }

  // ----- what a program has done so far -----

  /** The process has `total` left to do in all; it has written `out`, and goes on as `p` on `input`. */
  ghost predicate Tracks(env: Env, total: Big, out: Text, p: Proc, input: Text) {
    Live(p) && total == Prefixed(out, ToEnd(env, p, input))
  }

  lemma TracksStart(env: Env, p: Proc, input: Text)
    requires Live(p)
    ensures Tracks(env, ToEnd(env, p, input), [], p, input)
  {
    hide ToEnd;
    assert [] + ToEnd(env, p, input).out == ToEnd(env, p, input).out;
  }

  lemma Wrote(env: Env, total: Big, out: Text, rest: Text, next: Sent, input: Text)
    requires Tracks(env, total, out, Send(rest, next), input)
    ensures Tracks(env, total, out + rest, AfterSend(next), input)
  {
    hide AfterSend;
    var w := ToEnd(env, AfterSend(next), input).out;
    assert out + (rest + w) == out + rest + w;
  }

  lemma ReadStep(env: Env, total: Big, out: Text, n: nat, wanted: Wanted, input: Text)
    requires n > 0 && Tracks(env, total, out, Read(n, wanted), input)
    ensures |input| < n ==> Tracks(env, total, out, AtEof(wanted), [])
    ensures |input| >= n ==> Tracks(env, total, out, AfterRecv(env, wanted, input[..n]), input[n..])
  {
    hide AfterRecv, AfterSend, AtEof;
    assert |input| >= n ==> [] + input[..n] == input[..n];
  }

  /** The process that reads a string: `long` if it is too long, `closed` if the stream ends, `got`
      when it has been read. */
  ghost predicate ReadsString(env: Env, length: Wanted, body: Wanted, closed: Proc, long: Proc, text: Text, got: Proc)
  {
    && Live(long) && Live(got) && AtEof(length) == closed == AtEof(body)
    && (forall b: Text :: |b| == 2 ==> FromBigEndian(b) >= MAX_STRING ==> AfterRecv(env, length, b) == long)
    && (forall b: Text :: |b| == 2 ==> 0 < FromBigEndian(b) < MAX_STRING ==>
          AfterRecv(env, length, b) == Read(FromBigEndian(b), body))
    && (forall b: Text :: |b| == 2 ==> FromBigEndian(b) == 0 ==> text == [] ==> AfterRecv(env, length, b) == got)
    && (forall b: Text :: b != [] && CString(b) == text ==> AfterRecv(env, body, b) == got)
  }

  lemma ReadStringStep(env: Env, total: Big, out: Text, length: Wanted, body: Wanted, closed: Proc, long: Proc,
                       got: Proc, input: Text)
    requires Tracks(env, total, out, Read(2, length), input)
    requires ReadsString(env, length, body, closed, long,
                         if StringIn(input).Got? then StringIn(input).text else [], got)
    ensures match StringIn(input)
            case Closed => Tracks(env, total, out, closed, [])
            case TooLong(rest) => Tracks(env, total, out, long, rest)
            case Got(_, rest) => Tracks(env, total, out, got, rest)
  {
    hide AfterRecv, AfterSend, AtEof, ToEnd, Tracks, CString, FromBigEndian;
    ReadStep(env, total, out, 2, length, input);
    if |input| >= 2 {
      var b, rest := input[..2], input[2..];
      var n := FromBigEndian(b);
      if n == 0 {
        assert input[2..2] == [];
        EmptyCString();
      } else if n < MAX_STRING {
        ReadStep(env, total, out, n, body, rest);
        if n <= |rest| {
          assert rest[..n] == input[2..2 + n] && rest[n..] == input[2 + n..];
        }
      }
    }
  }

  lemma EmptyCString()
    ensures CString([]) == []
  {
  }

  /** An ended process is all there is. */
  lemma TracksDone(env: Env, total: Big, out: Text, end: End, input: Text)
    requires Tracks(env, total, out, Done(end), input)
    ensures total == Big(out, Some(end))
  {
    assert out + [] == out;
  }

  lemma {:induction false} StringsSnoc(list: seq<Text>, s: Text)
    ensures Strings(list + [s]) == Strings(list) + String(s)
  {
    hide String;
    if list == [] {
      assert [s][1..] == [];
    } else {
      StringsSnoc(list[1..], s);
      assert (list + [s])[1..] == list[1..] + [s];
    }
  }

  // ----- handler.c -----

  lemma VersionString(env: Env, text: Text)
    ensures ReadsString(env, VersionLength, VersionText, Done(DaemonEnd(EPIPE, None)),
                        Done(DaemonEnd(EOVERFLOW, None)), text, Read(2, Major))
  {
    hide FromBigEndian, CString;
  }

  lemma ArgString(env: Env, argc: nat, argv: seq<Text>, text: Text)
    ensures ReadsString(env, ArgLength(argc, argv), ArgBody(argc, argv), ArgFailed(EPIPE), ArgFailed(EOVERFLOW),
                        text, NextArg(env, argc, argv + [text]))
  {
    hide FromBigEndian, CString, Answer, String, Ushort;
    AnswerNotEmpty(Reply([Ascii("internal error")], EOVERFLOW));
    AnswerNotEmpty(Reply([Ascii("internal error")], EPIPE));
    AnswerNotEmpty(env.command(argv + [text]));
  }

  /** The version string and the three numbers of the client. */
  method ReadClientVersion(c: Connection, env: Env, ghost total: Big)
    returns (err: int, major: int, minor: int, patch: int)
    requires Tracks(env, total, c.output, Daemon(env), c.input)
    modifies c
    ensures c.output == old(c.output)
    ensures err == 0 ==> major >= 0 && minor >= 0 && patch >= 0 &&
                         Tracks(env, total, c.output, CheckVersion(env.daemon, major, minor, patch), c.input)
    ensures err != 0 ==> total == Big(c.output, Some(DaemonEnd(err, None)))
  {
    hide ToEnd, CString, FromBigEndian, CheckVersion, Tracks, StringIn, ReadsString;
    major, minor, patch := -1, -1, -1;
    ghost var out, i0 := c.output, c.input;
    var text;
    err, text := c.MallocReadString();
    VersionString(env, if StringIn(i0).Got? then StringIn(i0).text else []);
    ReadStringStep(env, total, out, VersionLength, VersionText, Done(DaemonEnd(EPIPE, None)),
                   Done(DaemonEnd(EOVERFLOW, None)), Read(2, Major), i0);
    if err != 0 {
      TracksDone(env, total, out, DaemonEnd(err, None), c.input);
      return;
    }
    ReadStep(env, total, out, 2, Major, c.input);
    major := c.ReadUshort();
    if major >= 0 {
      ReadStep(env, total, out, 2, Minor(major), c.input);
      minor := c.ReadUshort();
      if minor >= 0 {
        ReadStep(env, total, out, 2, Patch(major, minor), c.input);
        patch := c.ReadUshort();
      }
    }
    if patch < 0 {
      err := EPIPE;
      TracksDone(env, total, out, DaemonEnd(EPIPE, None), []);
    }
  }

  /** The loop that fills `argv`; at the first string that cannot be read it reports the error. */
  method ReadArgv(c: Connection, env: Env, argc: nat, ghost total: Big) returns (err: int, argv: array<Text>)
    requires 0 < argc && Tracks(env, total, c.output, NextArg(env, argc, []), c.input)
    modifies c
    ensures fresh(argv) && argv.Length == argc
    ensures err == 0 ==> c.output == old(c.output) &&
                         Tracks(env, total, c.output, NextArg(env, argc, argv[..]), c.input)
    ensures err != 0 ==> c.output == old(c.output) + Answer(Reply([Ascii("internal error")], err))
    ensures err != 0 ==> Tracks(env, total, old(c.output), ArgFailed(err), c.input)
  {
    hide ToEnd, CString, FromBigEndian, Tracks, StringIn, ReadsString, ArgFailed, Answer;
    argv := new Text[argc](_ => []);
    assert argv[..0] == [];
    for i := 0 to argc
      invariant c.output == old(c.output)
      invariant Tracks(env, total, c.output, NextArg(env, argc, argv[..i]), c.input)
    {
      ghost var before, i0 := argv[..i], c.input;
      var arg;
      err, arg := c.MallocReadString();
      ghost var text := if StringIn(i0).Got? then StringIn(i0).text else [];
      ArgString(env, argc, before, text);
      ReadStringStep(env, total, c.output, ArgLength(argc, before), ArgBody(argc, before), ArgFailed(EPIPE),
                     ArgFailed(EOVERFLOW), NextArg(env, argc, before + [text]), i0);
      if err != 0 {
        SendAnswer(c, Ascii("internal error"), err);
        return;
      }
      argv[i] := arg;
      assert argv[..i + 1] == before + [arg];
    }
    assert argv[..argc] == argv[..];
    err := 0;
  }

  /** One message, the empty string, and a result. */
  method SendAnswer(c: Connection, message: Text, result: int)
    modifies c`clock, c`output
    ensures c.output == old(c.output) + Answer(Reply([message], result))
  {
    hide String, Ushort, Strings;
    var _ := c.WriteString(message);
    var _ := c.WriteString([]);
    c.WriteUshort(result);
    OneString(message);
  }

  lemma OneString(s: Text)
    ensures Strings([s]) == String(s)
  {
    hide String;
    assert [s][1..] == [];
    assert String(s) + [] == String(s);
  }

  /** `do_command`: the messages it sends, and its result. */
  method DoCommand(c: Connection, argv: seq<Text>, env: Env) returns (ret: int)
    modifies c`clock, c`output
    ensures c.output == old(c.output) + Strings(env.command(argv).messages) && ret == env.command(argv).ret
  {
    hide String;
    var reply := env.command(argv);
    for i := 0 to |reply.messages|
      invariant c.output == old(c.output) + Strings(reply.messages[..i])
    {
      StringsSnoc(reply.messages[..i], reply.messages[i]);
      assert reply.messages[..i + 1] == reply.messages[..i] + [reply.messages[i]];
      var _ := c.WriteString(reply.messages[i]);
    }
    assert reply.messages[..|reply.messages|] == reply.messages;
    ret := reply.ret;
  }

  /** `handler`, from the start of the session to its end: on any input, cut short anywhere, the program
      writes what the process writes and ends as it does. */
  method Handler(c: Connection, env: Env) returns (ret: int, ran: Option<seq<Text>>)
    requires c.output == []
    modifies c
    ensures ToEnd(env, Daemon(env), old(c.input)) == Big(c.output, Some(DaemonEnd(ret, ran)))
  {
    hide ToEnd, Tracks, CheckVersion, Ushort;
    ghost var total := ToEnd(env, Daemon(env), c.input);
    TracksStart(env, Daemon(env), c.input);
    ran := None;
    var err, major, minor, patch := ReadClientVersion(c, env, total);
    if err != 0 {
      return err, None;
    }
    ghost var i0 := c.input;
    Checked(env, major, minor, patch);
    if major != env.daemon.major || minor != env.daemon.minor || patch != env.daemon.patch {
      c.WriteUshort(EPROTO);
      Wrote(env, total, [], Ushort(EPROTO), Finish(EPROTO, None), i0);
      TracksDone(env, total, c.output, DaemonEnd(EPROTO, None), i0);
      return EPROTO, None;
    }
    c.WriteUshort(0);
    Wrote(env, total, [], Ushort(0), AwaitArgc, i0);
    ret, ran := HandleRequest(c, env, total);
  }

  lemma Checked(env: Env, major: nat, minor: nat, patch: nat)
    ensures var v := env.daemon;
      CheckVersion(v, major, minor, patch) ==
      if major == v.major && minor == v.minor && patch == v.patch then Send(Ushort(0), AwaitArgc)
      else Send(Ushort(EPROTO), Finish(EPROTO, None))
  {
  }

  /** The part of `handler` after the handshake. */
  method HandleRequest(c: Connection, env: Env, ghost total: Big) returns (ret: int, ran: Option<seq<Text>>)
    requires Tracks(env, total, c.output, Read(2, Argc), c.input)
    modifies c
    ensures total == Big(c.output, Some(DaemonEnd(ret, ran)))
  {
    hide ToEnd, Tracks, String, Strings, Ushort, FromBigEndian, NextArg, Answer;
    ran := None;
    ReadStep(env, total, c.output, 2, Argc, c.input);
    var argc := c.ReadUshort();
    if argc < 0 {
      TracksDone(env, total, c.output, DaemonEnd(EPROTO, None), []);
      return EPROTO, None;
    }
    ghost var out := c.output;
    if argc == 0 {
      SendAnswer(c, Ascii("No command"), 0);
      Wrote(env, total, out, Answer(NO_COMMAND), Finish(0, None), c.input);
      TracksDone(env, total, c.output, DaemonEnd(0, None), c.input);
      return 0, None;
    }
    if argc > MAX_ARGS {
      var message := Ascii("too many arguments");
      var _ := c.WriteString(message);
      c.WriteUshort(E2BIG);
      assert out + String(message) + Ushort(E2BIG) == out + (String(message) + Ushort(E2BIG));
      Wrote(env, total, out, String(message) + Ushort(E2BIG), Finish(E2BIG, None), c.input);
      TracksDone(env, total, c.output, DaemonEnd(E2BIG, None), c.input);
      return E2BIG, None;
    }
    var err, argv := ReadArgv(c, env, argc, total);
    ret := err;
    if err == 0 {
      ret := DoCommand(c, argv[..], env);
      ran := Some(argv[..]);
    }
    var _ := c.WriteString([]);
    c.WriteUshort(ret);
    if err == 0 {
      AnswerParts(env.command(argv[..]), out);
      NoMoreArgs(env, argc, argv[..]);
      Wrote(env, total, out, Answer(env.command(argv[..])), Finish(ret, ran), c.input);
      TracksDone(env, total, c.output, DaemonEnd(ret, ran), c.input);
    } else {
      var reported := Answer(Reply([Ascii("internal error")], err));
      assert out + reported + String([]) + Ushort(err) == out + (reported + String([]) + Ushort(err));
      Wrote(env, total, out, reported + String([]) + Ushort(err), Finish(err, None), c.input);
      TracksDone(env, total, c.output, DaemonEnd(err, None), c.input);
    }
  }

  lemma AnswerParts(r: Reply, out: Text)
    ensures out + Strings(r.messages) + String([]) + Ushort(r.ret) == out + Answer(r)
  {
  }

  lemma NoMoreArgs(env: Env, argc: nat, argv: seq<Text>)
    requires |argv| == argc
    ensures NextArg(env, argc, argv) == Send(Answer(env.command(argv)), Finish(env.command(argv).ret, Some(argv)))
  {
  }

  // ----- client.c -----

  lemma MessageString(env: Env, printed: seq<Text>, text: Text)
    ensures ReadsString(env, MessageLength(printed), MessageBody(printed), Done(ClientEnd(EPIPE, printed)),
                        Done(ClientEnd(EOVERFLOW, printed)), text,
                        if text == [] then Read(2, Result(printed)) else Read(2, MessageLength(printed + [text])))
  {
    hide FromBigEndian, CString;
  }

  method WriteHello(c: Connection, v: Version)
    modifies c`clock, c`output
    ensures c.output == old(c.output) + Hello(v)
  {
    hide String, Ushort;
    var _ := c.WriteString(v.text);
    c.WriteUshort(v.major);
    c.WriteUshort(v.minor);
    c.WriteUshort(v.patch);
  }

  lemma {:induction false} SendableSplit(args: seq<Text>, i: nat)
    requires i <= |args| && forall j :: 0 <= j < i ==> |args[j]| < MAX_STRING
    ensures Sendable(args) == args[..i] + Sendable(args[i..])
  {
    if i > 0 {
      SendableSplit(args[1..], i - 1);
      assert args[i..] == args[1..][i - 1..];
      assert args[..i] == [args[0]] + args[1..][..i - 1];
    } else {
      assert args[0..] == args;
    }
  }

  /** The arguments, up to the first one that is too long. */
  method WriteArgs(c: Connection, args: seq<Text>) returns (err: int)
    modifies c`clock, c`output
    ensures c.output == old(c.output) + Ushort(|args|) + Strings(Sendable(args))
    ensures err == if |Sendable(args)| == |args| then 0 else EOVERFLOW
  {
    hide String, Ushort, Strings;
    c.WriteUshort(|args|);
    ghost var out := c.output;
    assert Strings([]) == [] by {
      NoStrings();
    }
    for i := 0 to |args|
      invariant c.output == out + Strings(args[..i])
      invariant forall j :: 0 <= j < i ==> |args[j]| < MAX_STRING
    {
      SendableSplit(args, i);
      err := c.WriteString(args[i]);
      StringTooLong(args[i]);
      if err != 0 {
        assert args[..i] + [] == args[..i];
        return;
      }
      StringsSnoc(args[..i], args[i]);
      assert args[..i + 1] == args[..i] + [args[i]];
    }
    SendableSplit(args, |args|);
    assert args[..|args|] == args && args + [] == args;
    err := 0;
  }

  lemma StringTooLong(s: Text)
    ensures |s| >= MAX_STRING ==> String(s) == []
  {
  }

  /** `client`: on any input, cut short anywhere, the program writes and prints what the process does and
      ends as it does. */
  method RunClient(c: Connection, env: Env) returns (ret: int, printed: seq<Text>)
    requires c.output == []
    modifies c
    ensures ToEnd(env, Client(env), old(c.input)) == Big(c.output, Some(ClientEnd(ret, printed)))
  {
    hide ToEnd, Tracks, Hello, Ushort, Strings, Sendable, FromBigEndian;
    ghost var total := ToEnd(env, Client(env), c.input);
    TracksStart(env, Client(env), c.input);
    printed := [];
    Wrote(env, total, [], Hello(env.client), Shake, c.input);
    WriteHello(c, env.client);
    ReadStep(env, total, c.output, 2, ReadShake, c.input);
    ret := c.ReadUshort();
    if ret < 0 {
      TracksDone(env, total, c.output, ClientEnd(EPIPE, []), []);
      return EPIPE, [];
    } else if ret != 0 {
      TracksDone(env, total, c.output, ClientEnd(ret, []), c.input);
      return;
    }
    ghost var out, request := c.output, Ushort(|env.args|) + Strings(Sendable(env.args));
    var err := WriteArgs(c, env.args);
    assert out + Ushort(|env.args|) + Strings(Sendable(env.args)) == out + request;
    Wrote(env, total, out, request, if err == 0 then Listen else Overflow, c.input);
    if err != 0 {
      TracksDone(env, total, c.output, ClientEnd(EOVERFLOW, []), c.input);
      return err, [];
    }
    ret, printed := ReadAnswer(c, env, total);
  }

  /** The message loop, and the result. */
  method ReadAnswer(c: Connection, env: Env, ghost total: Big) returns (ret: int, printed: seq<Text>)
    requires Tracks(env, total, c.output, Read(2, MessageLength([])), c.input)
    modifies c
    ensures total == Big(c.output, Some(ClientEnd(ret, printed)))
  {
    hide ToEnd, Tracks, StringIn, ReadsString, FromBigEndian;
    printed := [];
    while true
      invariant Tracks(env, total, c.output, Read(2, MessageLength(printed)), c.input)
      decreases |c.input|
    {
      ghost var i0 := c.input;
      var err, message := c.MallocReadString();
      ghost var text := if StringIn(i0).Got? then StringIn(i0).text else [];
      MessageString(env, printed, text);
      ReadStringStep(env, total, c.output, MessageLength(printed), MessageBody(printed),
                     Done(ClientEnd(EPIPE, printed)), Done(ClientEnd(EOVERFLOW, printed)),
                     if text == [] then Read(2, Result(printed)) else Read(2, MessageLength(printed + [text])), i0);
      if err != 0 {
        TracksDone(env, total, c.output, ClientEnd(err, printed), c.input);
        return err, printed;
      }
      if message == [] {
        break;
      }
      printed := printed + [message];
    }
    ReadStep(env, total, c.output, 2, Result(printed), c.input);
    ret := c.ReadUshort();
    if ret < 0 {
      TracksDone(env, total, c.output, ClientEnd(EPIPE, printed), []);
      return EPIPE, printed;
    }
    TracksDone(env, total, c.output, ClientEnd(ret, printed), c.input);
  }
}
