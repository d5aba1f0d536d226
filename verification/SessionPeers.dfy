/** The client and the daemon's handler as processes that read and write a byte stream. */
module SessionPeers {
  import opened Bytes
  import opened Errno

  const MAX_STRING := 4096
  const MAX_ARGS := 256

  type Text = seq<Byte>

  datatype Version = Version(text: Text, major: nat, minor: nat, patch: nat)

  /** What `do_command` writes to the client, and what it returns. */
  datatype Reply = Reply(messages: seq<Text>, ret: int)

  datatype Env = Env(client: Version, daemon: Version, args: seq<Text>, command: seq<Text> -> Reply)

  // ----- framing (common.c) -----

  /** `write_ushort`. */
  function Ushort(n: int): (b: Text)
    ensures |b| == 2
  {
    BigEndian(n % 0x1_0000, 2)
  }

  /** `write_string`: nothing at all is written for a string that is too long. */
  function String(s: Text): Text {
    if |s| >= MAX_STRING then [] else Ushort(|s|) + s
  }

  function Strings(list: seq<Text>): Text {
    if list == [] then [] else String(list[0]) + Strings(list[1..])
  }

  lemma NoStrings()
    ensures Strings([]) == []
  {
  }

  // ----- processes -----

  /** Where a process goes on when everything is written. */
  datatype Sent =
    | Shake | Listen | Overflow                          // the client
    | AwaitArgc | Finish(ret: int, ran: Option<seq<Text>>) // the handler

  /** What a process is reading. */
  datatype Wanted =
    // the client
    | ReadShake | MessageLength(printed: seq<Text>) | MessageBody(printed: seq<Text>) | Result(printed: seq<Text>)
    // the handler
    | VersionLength | VersionText | Major | Minor(major: nat) | Patch(major: nat, minor: nat)
    | Argc | ArgLength(argc: nat, argv: seq<Text>) | ArgBody(argc: nat, argv: seq<Text>)

  /** How a process ends: what the client returns and has printed; what the handler returns and has
      passed to `do_command`. */
  datatype End = ClientEnd(ret: int, printed: seq<Text>) | DaemonEnd(ret: int, ran: Option<seq<Text>>)

  /** A process: inside `write_all`, inside `read_all`, or finished. Writes that follow each other
      without a read in between are one write. */
  datatype Proc =
    | Send(rest: Text, next: Sent)
    | Recv(got: Text, need: nat, wanted: Wanted)
    | Done(end: End)

  ghost predicate Live(p: Proc) {
    (p.Send? ==> p.rest != []) && (p.Recv? ==> |p.got| < p.need)
  }

  function Read(need: nat, wanted: Wanted): Proc {
    Recv([], need, wanted)
  }

  // ----- client.c -----

  function Hello(v: Version): (b: Text)
    ensures |b| >= 6
  {
    String(v.text) + Ushort(v.major) + Ushort(v.minor) + Ushort(v.patch)
  }

  /** The arguments up to the first one that is too long. */
  function Sendable(args: seq<Text>): seq<Text> {
    if args == [] || |args[0]| >= MAX_STRING then [] else [args[0]] + Sendable(args[1..])
  }

  function Client(env: Env): Proc {
    Send(Hello(env.client), Shake)
  }

  function SendArgs(args: seq<Text>): Proc {
    Send(Ushort(|args|) + Strings(Sendable(args)), if |Sendable(args)| == |args| then Listen else Overflow)
  }

  // ----- handler.c -----

  function Daemon(env: Env): Proc {
    Read(2, VersionLength)
  }

  function CheckVersion(v: Version, major: nat, minor: nat, patch: nat): Proc {
    if major == v.major && minor == v.minor && patch == v.patch then Send(Ushort(0), AwaitArgc)
    else Send(Ushort(EPROTO), Finish(EPROTO, None))
  }

  function Answer(r: Reply): Text {
    Strings(r.messages) + String([]) + Ushort(r.ret)
  }

  const NO_COMMAND := Reply([Ascii("No command")], 0)

  /** Read the next argument, or run the command. */
  function NextArg(env: Env, argc: nat, argv: seq<Text>): Proc {
    if |argv| < argc then Read(2, ArgLength(argc, argv))
    else Send(Answer(env.command(argv)), Finish(env.command(argv).ret, Some(argv)))
  }

  function StartArgs(env: Env, argc: nat): Proc {
    if argc == 0 then Send(Answer(NO_COMMAND), Finish(0, None))
    else if argc > MAX_ARGS then Send(String(Ascii("too many arguments")) + Ushort(E2BIG), Finish(E2BIG, None))
    else NextArg(env, argc, [])
  }

  /** An argument that cannot be read: the error is reported, and the end of the session follows. */
  function ArgFailed(err: int): Proc {
    Send(Answer(Reply([Ascii("internal error")], err)) + String([]) + Ushort(err), Finish(err, None))
  }

  lemma AnswerNotEmpty(r: Reply)
    ensures Answer(r) != []
  {
  }

  // ----- continuations -----

  function AfterSend(l: Sent): (p: Proc)
    ensures Live(p) && !p.Send?
  {
    match l
    case Shake => Read(2, ReadShake)
    case Listen => Read(2, MessageLength([]))
    case Overflow => Done(ClientEnd(EOVERFLOW, []))
    case AwaitArgc => Read(2, Argc)
    case Finish(ret, ran) => Done(DaemonEnd(ret, ran))
  }

  function AfterRecv(env: Env, l: Wanted, got: Text): (p: Proc)
    ensures Live(p)
  {
    var n := FromBigEndian(got);
    match l
    case ReadShake => if n != 0 then Done(ClientEnd(n, [])) else SendArgs(env.args)
    case MessageLength(printed) =>
      if n >= MAX_STRING then Done(ClientEnd(EOVERFLOW, printed))
      else if n == 0 then Read(2, Result(printed))
      else Read(n, MessageBody(printed))
    case MessageBody(printed) =>
      if CString(got) == [] then Read(2, Result(printed)) else Read(2, MessageLength(printed + [CString(got)]))
    case Result(printed) => Done(ClientEnd(n, printed))
    case VersionLength =>
      if n >= MAX_STRING then Done(DaemonEnd(EOVERFLOW, None))
      else if n == 0 then Read(2, Major) else Read(n, VersionText)
    case VersionText => Read(2, Major)
    case Major => Read(2, Minor(n))
    case Minor(major) => Read(2, Patch(major, n))
    case Patch(major, minor) => CheckVersion(env.daemon, major, minor, n)
    case Argc => StartArgs(env, n)
    case ArgLength(argc, argv) =>
      if n >= MAX_STRING then ArgFailed(EOVERFLOW)
      else if n == 0 then NextArg(env, argc, argv + [[]]) else Read(n, ArgBody(argc, argv))
    case ArgBody(argc, argv) => NextArg(env, argc, argv + [CString(got)])
  }

  /** How a process goes on when the stream is closed while it is reading. */
  function AtEof(l: Wanted): (p: Proc)
    ensures Live(p) && !p.Recv? && (p.Send? ==> AfterSend(p.next).Done?)
  {
    match l
    case ReadShake => Done(ClientEnd(EPIPE, []))
    case MessageLength(printed) => Done(ClientEnd(EPIPE, printed))
    case MessageBody(printed) => Done(ClientEnd(EPIPE, printed))
    case Result(printed) => Done(ClientEnd(EPIPE, printed))
    case Argc => Done(DaemonEnd(EPROTO, None))
    case ArgLength(_, _) => ArgFailed(EPIPE)
    case ArgBody(_, _) => ArgFailed(EPIPE)
    case _ => Done(DaemonEnd(EPIPE, None))
  }
}
