/** What the client shows of a run of the engine: the engine's messages travel through a session, and an
    empty message looks like their end. */
module Conversation {
  import opened Bytes
  import opened Payload
  import opened Engine
  import Peers = SessionPeers
  import Runs = SessionRuns
  import Session

  type Text = seq<Byte>

  // ----- what the client makes of any messages -----

  /** The messages before the first empty one. */
  function Shown(messages: seq<Text>): (shown: seq<Text>)
    ensures shown <= messages && forall i :: 0 <= i < |shown| ==> shown[i] != []
    ensures shown != messages ==> messages[|shown|] == []
  {
    if messages == [] || messages[0] == [] then [] else [messages[0]] + Shown(messages[1..])
  }

  /** What the client takes for the result: behind an empty message it is the length of the next one. */
  function Returned(messages: seq<Text>, ret: int): int {
    var k := |Shown(messages)|;
    if k == |messages| then ret % 0x1_0000
    else if k + 1 == |messages| then 0
    else |messages[k + 1]|
  }

  ghost predicate AllSane(messages: seq<Text>) {
    forall i :: 0 <= i < |messages| ==> Session.Sane(messages[i])
  }

  lemma {:induction false} StringsConcat(a: seq<Text>, b: seq<Text>)
    ensures Peers.Strings(a + b) == Peers.Strings(a) + Peers.Strings(b)
  {
    hide Peers.String;
    if a == [] {
      assert a + b == b;
    } else {
      assert (a + b)[1..] == a[1..] + b;
      StringsConcat(a[1..], b);
    }
  }

  /** The two bytes behind an empty message. */
  lemma NextLength(messages: seq<Text>, ret: int, k: nat)
    requires AllSane(messages) && k < |messages|
    ensures var rest := Peers.Strings(messages[k + 1..]) + Peers.String([]) + Peers.Ushort(ret);
      |rest| >= 2 && FromBigEndian(rest[..2]) == if k + 1 == |messages| then 0 else |messages[k + 1]|
  {
    hide Peers.Ushort;
    var more := messages[k + 1..];
    assert Peers.String([]) == Peers.Ushort(0) by {
      assert Peers.Ushort(0) + [] == Peers.Ushort(0);
    }
    var rest := Peers.Strings(more) + Peers.String([]) + Peers.Ushort(ret);
    if more == [] {
      Session.UshortValue(0);
      assert rest[..2] == Peers.Ushort(0);
    } else {
      assert Session.Sane(messages[k + 1]);
      Session.UshortValue(|more[0]|);
      assert rest[..2] == Peers.Ushort(|more[0]|);
    }
  }

  lemma AnswerSplit(messages: seq<Text>, ret: int, k: nat)
    requires k < |messages| && messages[k] == []
    ensures Peers.Answer(Peers.Reply(messages, ret)) ==
            Peers.Strings(messages[..k]) + Peers.Ushort(0) +
            (Peers.Strings(messages[k + 1..]) + Peers.String([]) + Peers.Ushort(ret))
  {
    hide Peers.Ushort, Peers.Strings;
    assert messages == messages[..k] + ([messages[k]] + messages[k + 1..]);
    StringsConcat(messages[..k], [messages[k]] + messages[k + 1..]);
    StringsConcat([messages[k]], messages[k + 1..]);
    OneEmpty();
  }

  lemma OneEmpty()
    ensures Peers.Strings([[]]) == Peers.Ushort(0)
  {
    var one: seq<Text> := [[]];
    assert one[1..] == [] && Peers.Strings([]) == [];
    assert Peers.Ushort(0) + [] == Peers.Ushort(0);
  }

  /** The client on an answer with any messages. */
  lemma AnswerSeen(env: Peers.Env, messages: seq<Text>, ret: int)
    requires AllSane(messages)
    ensures Runs.Whole(env, Peers.Read(2, Peers.MessageLength([])), Peers.Answer(Peers.Reply(messages, ret))).end ==
            Some(Peers.ClientEnd(Returned(messages, ret), Shown(messages)))
  {
    hide Runs.Whole, Runs.Reads, Peers.Answer, Peers.Strings, Peers.Ushort, Peers.String, Session.Sane;
    var start, shown := Peers.Read(2, Peers.MessageLength([])), Shown(messages);
    var k := |shown|;
    if k == |messages| {
      assert shown == messages;
      Session.ReadsAnswer(env, Peers.Reply(messages, ret));
      EndOf(env, start, Peers.Answer(Peers.Reply(messages, ret)), Peers.ClientEnd(ret % 0x1_0000, messages));
    } else {
      var rest := Peers.Strings(messages[k + 1..]) + Peers.String([]) + Peers.Ushort(ret);
      AnswerSplit(messages, ret, k);
      Session.ReadsMessages(env, [], shown);
      assert [] + shown == shown && shown == messages[..k];
      EmptyRead(env, shown);
      Runs.ReadsThen(env, start, Peers.Strings(shown), Peers.Read(2, Peers.MessageLength(shown)), Peers.Ushort(0),
                     Peers.Read(2, Peers.Result(shown)));
      Runs.IntoOn(env, start, Peers.Strings(shown) + Peers.Ushort(0), Peers.Read(2, Peers.Result(shown)), rest);
      NextLength(messages, ret, k);
      ResultRead(env, shown, rest);
    }
  }

  lemma EndOf(env: Peers.Env, p: Peers.Proc, s: Text, end: Peers.End)
    requires Runs.Reads(env, p, s, Peers.Done(end))
    ensures Peers.Live(p) && Runs.Whole(env, p, s).end == Some(end)
  {
    hide Peers.AfterRecv, Peers.AfterSend;
    Runs.IntoOn(env, p, s, Peers.Done(end), []);
    assert s + [] == s;
  }

  lemma EmptyRead(env: Peers.Env, shown: seq<Text>)
    ensures Runs.Reads(env, Peers.Read(2, Peers.MessageLength(shown)), Peers.Ushort(0),
                       Peers.Read(2, Peers.Result(shown)))
  {
    hide Runs.Reads, Peers.Ushort;
    Session.UshortValue(0);
    Session.ReadsUshort(env, Peers.MessageLength(shown), 0);
  }

  lemma ResultRead(env: Peers.Env, shown: seq<Text>, rest: Text)
    requires |rest| >= 2
    ensures Runs.Whole(env, Peers.Read(2, Peers.Result(shown)), rest).end ==
            Some(Peers.ClientEnd(FromBigEndian(rest[..2]), shown))
  {
    assert [] + rest[..2] == rest[..2];
  }

  /** The client of a whole session, on what a daemon sends it with any messages. */
  lemma ClientSees(env: Peers.Env, messages: seq<Text>, ret: int)
    requires AllSane(messages) && forall i :: 0 <= i < |env.args| ==> |env.args[i]| < Peers.MAX_STRING
    ensures Runs.Whole(env, Peers.Client(env), Peers.Ushort(0) + Peers.Answer(Peers.Reply(messages, ret))).end ==
            Some(Peers.ClientEnd(Returned(messages, ret), Shown(messages)))
  {
    hide Runs.Reads, Peers.Answer, Peers.Strings, Peers.Ushort, Peers.Hello, AllSane, Returned, Shown;
    var answer := Peers.Answer(Peers.Reply(messages, ret));
    Session.ReadsHandshake(env);
    Runs.IntoOn(env, Peers.Read(2, Peers.ReadShake), Peers.Ushort(0), Peers.Send(Session.Request(env), Peers.Listen),
                answer);
    AnswerSeen(env, messages, ret);
  }

  // ----- the messages of a run -----

  /** The messages of a trace; `said` gives those that a handler sends itself, as a function of what has
      happened up to its call. */
  function MessagesOf(trace: seq<Event>, said: seq<Event> -> seq<Text>): seq<Text> {
    if trace == [] then [] else
      MessagesOf(trace[..|trace| - 1], said) +
      match trace[|trace| - 1]
      case Said(text) => [Ascii(text)]
      case SaidCommand(name) => [name]
      case Ran(_) => said(trace)
  }

  /** Handlers send no empty message and none that is too long. */
  ghost predicate HandlersSane(said: seq<Event> -> seq<Text>) {
    forall h :: AllSane(said(h)) && [] !in said(h)
  }

  /** A message of the engine that is not an empty command. */
  ghost predicate Spoken(e: Event) {
    && (e.Said? ==> Session.Sane(Ascii(e.text)) && Ascii(e.text) != [])
    && (e.SaidCommand? ==> Session.Sane(e.name) && e.name != [])
  }

  ghost predicate AllSpoken(events: seq<Event>) {
    forall i :: 0 <= i < |events| ==> Spoken(events[i])
  }

  /** Up to the first empty command, which is followed by "unknown command:". */
  ghost predicate BreaksAt(events: seq<Event>, k: nat) {
    && k + 1 < |events| && AllSpoken(events[..k])
    && events[k] == SaidCommand([]) && events[k + 1] == Said("unknown command:")
    && forall i :: 0 <= i < |events| ==> events[i] != SaidCommand([]) ==> Spoken(events[i])
  }

  ghost predicate Breaks(events: seq<Event>) {
    exists k: nat :: BreaksAt(events, k)
  }

  /** Some payload that the run reaches and that passes both checks has an empty command. */
  predicate ReachesEmpty(t: Tree, time: int, w: World, trace: seq<Event>) {
    && Admit(t.raw, w.clock(trace), time, w.verify) == Admitted
    && var text := CommandText(t.raw);
       text == [] || (CommandOf(text).Composite? && FramesReachEmpty(t.nested, time, w, trace + Greeting(text)))
  }

  predicate FramesReachEmpty(fs: Frames, time: int, w: World, trace: seq<Event>) {
    fs.Frame? &&
    (ReachesEmpty(fs.first, time, w, trace) ||
     (Interp(fs.first, time, w, trace).err == 0 &&
      FramesReachEmpty(fs.rest, time, w, Interp(fs.first, time, w, trace).trace)))
  }

  // ----- which traces break -----

  lemma SpokenBoth(a: seq<Event>, b: seq<Event>)
    ensures AllSpoken(a) && AllSpoken(b) ==> AllSpoken(a + b)
  {
    hide Spoken;
    assert forall i :: 0 <= i < |a + b| ==> (a + b)[i] == if i < |a| then a[i] else b[i - |a|];
  }

  lemma BreaksLater(a: seq<Event>, b: seq<Event>)
    requires AllSpoken(a) && Breaks(b)
    ensures Breaks(a + b)
  {
    hide Spoken;
    var k: nat :| BreaksAt(b, k);
    var c := a + b;
    assert c[..|a| + k] == a + b[..k];
    SpokenBoth(a, b[..k]);
    assert c[|a| + k] == b[k] && c[|a| + k + 1] == b[k + 1];
    assert forall i :: 0 <= i < |c| ==> c[i] == if i < |a| then a[i] else b[i - |a|];
    assert BreaksAt(c, |a| + k);
  }

  lemma BreaksAlready(a: seq<Event>, b: seq<Event>)
    requires Breaks(a) && (AllSpoken(b) || Breaks(b))
    ensures Breaks(a + b)
  {
    hide Spoken;
    var k: nat :| BreaksAt(a, k);
    var c := a + b;
    assert c[..k] == a[..k];
    assert forall i :: 0 <= i < |c| ==> c[i] == if i < |a| then a[i] else b[i - |a|];
    assert BreaksAt(c, k);
  }

  /** `added` breaks if the condition holds, and is all spoken if it does not. */
  ghost predicate Goes(o: Outcome, trace: seq<Event>, empty: bool) {
    && trace <= o.trace
    && (if empty then Breaks(o.trace[|trace|..]) && o.err != 0 else AllSpoken(o.trace[|trace|..]))
  }

  lemma GoesAdded(o: Outcome, trace: seq<Event>, added: seq<Event>, empty: bool)
    requires o.trace == trace + added && (if empty then Breaks(added) && o.err != 0 else AllSpoken(added))
    ensures Goes(o, trace, empty)
  {
    assert o.trace[|trace|..] == added;
  }

  lemma GoesThen(trace: seq<Event>, added: seq<Event>, o: Outcome, empty: bool)
    requires AllSpoken(added) && Goes(o, trace + added, empty)
    ensures Goes(o, trace, empty)
  {
    hide AllSpoken, Breaks;
    var more := o.trace[|trace + added|..];
    assert trace + added + more == o.trace;
    assert o.trace == trace + (added + more);
    SpokenBoth(added, more);
    if empty {
      BreaksLater(added, more);
    }
    GoesAdded(o, trace, added + more, empty);
  }

  /** Printable ASCII, not empty and not long. */
  predicate Printable(text: string) {
    0 < |text| < 100 && forall i :: 0 <= i < |text| ==> 32 <= text[i] as int < 127
  }

  lemma PrintableSpoken(text: string)
    requires Printable(text)
    ensures Spoken(Said(text)) && |Ascii(text)| == |text|
  {
  }

  lemma Greetings()
    ensures Spoken(Said("loading...")) && Spoken(Said("command is"))
  {
    hide Spoken, Ascii;
    PrintableSpoken("loading...");
    PrintableSpoken("command is");
  }

  lemma UnknownSpoken()
    ensures Spoken(Said("unknown command:")) && |Ascii("unknown command:")| == 16
  {
    hide Spoken, Ascii;
    PrintableSpoken("unknown command:");
  }

  lemma RefusalsSpoken()
    ensures Spoken(Said("code expired")) && Spoken(Said("invalid signature"))
  {
    hide Spoken, Ascii;
    PrintableSpoken("code expired");
    PrintableSpoken("invalid signature");
  }

  lemma CompositeSpoken()
    ensures Spoken(Said("ok")) && Spoken(Said("invalid")) && Spoken(Said("something went wrong"))
  {
    hide Spoken, Ascii;
    PrintableSpoken("ok");
    PrintableSpoken("invalid");
    PrintableSpoken("something went wrong");
  }

  lemma Constants()
    ensures Spoken(Said("loading...")) && Spoken(Said("command is")) && Spoken(Said("ok"))
    ensures Spoken(Said("unknown command:")) && |Ascii("unknown command:")| == 16
    ensures Spoken(Said("code expired")) && Spoken(Said("invalid signature"))
    ensures Spoken(Said("invalid")) && Spoken(Said("something went wrong"))
  {
    hide *;
    Greetings();
    UnknownSpoken();
    RefusalsSpoken();
    CompositeSpoken();
  }

  lemma CommandSane(p: Raw)
    ensures Session.Sane(CommandText(p))
  {
  }

  lemma OneSpoken(e: Event)
    requires Spoken(e)
    ensures AllSpoken([e])
  {
  }

  lemma GreetingSpoken(p: Raw)
    ensures CommandText(p) != [] ==> AllSpoken(Greeting(CommandText(p)))
  {
    hide CommandText;
    Constants();
    CommandSane(p);
  }

  lemma EmptyIsUnknown()
    ensures CommandOf([]).Unknown?
  {
  }

  lemma EmptyBreaks(trace: seq<Event>, w: World, data: seq<Byte>)
    ensures Goes(InterpLeaf([], data, w, trace + Greeting([])), trace, true)
  {
    hide CommandOf, Spoken;
    Constants();
    EmptyIsUnknown();
    var added := Greeting([]) + [Said("unknown command:"), SaidCommand([])];
    assert added[..2] == [Said("loading..."), Said("command is")];
    assert BreaksAt(added, 2);
    var o := InterpLeaf([], data, w, trace + Greeting([]));
    assert o.trace == trace + added;
    GoesAdded(o, trace, added, true);
  }

  lemma LeafSpoken(p: Raw, w: World, trace: seq<Event>)
    requires CommandText(p) != [] && !CommandOf(CommandText(p)).Composite?
    ensures Goes(InterpLeaf(CommandText(p), Data(p), w, trace), trace, false)
  {
    hide CommandText, CommandOf, ScriptAction, Spoken, AllSpoken;
    Constants();
    CommandSane(p);
    var text, c := CommandText(p), CommandOf(CommandText(p));
    var o := InterpLeaf(text, Data(p), w, trace);
    NothingSpoken(trace);
    if c.Ok? {
      OneSpoken(Said("ok"));
      GoesAdded(o, trace, [Said("ok")], false);
    } else if c.Unknown? {
      TwoSpoken(Said("unknown command:"), text);
      GoesAdded(o, trace, [Said("unknown command:"), SaidCommand(text)], false);
    } else {
      match ActionOf(c, Data(p)) {
        case Return(err) => GoesAdded(o, trace, [], false);
        case Run(call) => CallSpoken(call); GoesAdded(o, trace, [Ran(call)], false);
      }
    }
  }

  lemma NothingSpoken(trace: seq<Event>)
    ensures AllSpoken([]) && trace + [] == trace
  {
  }

  lemma CallSpoken(call: Call)
    ensures AllSpoken([Ran(call)])
  {
  }

  lemma TwoSpoken(e: Event, name: Text)
    requires Spoken(e) && Session.Sane(name) && name != []
    ensures AllSpoken([e, SaidCommand(name)])
  {
  }

  /** Every run: its messages break off exactly if it reaches an empty command, and then it fails. */
  lemma {:induction false} RunGoes(t: Tree, time: int, w: World, trace: seq<Event>)
    ensures Goes(Interp(t, time, w, trace), trace, ReachesEmpty(t, time, w, trace))
  {
    hide Admit, CommandText, CommandOf, InterpLeaf, Goes, AllSpoken, Breaks, Spoken;
    var o, text := Interp(t, time, w, trace), CommandText(t.raw);
    Constants();
    match Admit(t.raw, w.clock(trace), time, w.verify) {
      case Expired => OneSpoken(Said("code expired")); GoesAdded(o, trace, [Said("code expired")], false);
      case BadSignature(err) =>
        OneSpoken(Said("invalid signature"));
        GoesAdded(o, trace, [Said("invalid signature")], false);
      case Admitted =>
        if text == [] {
          EmptyIsUnknown();
          EmptyBreaks(trace, w, Data(t.raw));
        } else {
          GreetingSpoken(t.raw);
          if CommandOf(text).Composite? {
            FramesGo(t.nested, time, w, trace + Greeting(text));
          } else {
            LeafSpoken(t.raw, w, trace + Greeting(text));
          }
          GoesThen(trace, Greeting(text), o, ReachesEmpty(t, time, w, trace));
        }
    }
  }

  lemma {:induction false} FramesGo(fs: Frames, time: int, w: World, trace: seq<Event>)
    ensures Goes(InterpFrames(fs, time, w, trace), trace, FramesReachEmpty(fs, time, w, trace))
  {
    hide Interp, ReachesEmpty, Goes, AllSpoken, Breaks, Spoken;
    var all := InterpFrames(fs, time, w, trace);
    Constants();
    match fs {
      case End => NothingSpoken(trace); GoesAdded(all, trace, [], false);
      case Malformed => OneSpoken(Said("invalid")); GoesAdded(all, trace, [Said("invalid")], false);
      case Frame(first, rest) =>
        var o := Interp(first, time, w, trace);
        RunGoes(first, time, w, trace);
        if o.err != 0 {
          OneSpoken(Said("something went wrong"));
          GoesOn(o, trace, [Said("something went wrong")], ReachesEmpty(first, time, w, trace));
        } else {
          FramesGo(rest, time, w, o.trace);
          GoesBoth(o, trace, ReachesEmpty(first, time, w, trace), all, FramesReachEmpty(rest, time, w, o.trace));
        }
    }
  }

  lemma GoesOn(o: Outcome, trace: seq<Event>, more: seq<Event>, empty: bool)
    requires Goes(o, trace, empty) && AllSpoken(more) && o.err != 0
    ensures Goes(Outcome(o.err, o.trace + more), trace, empty)
  {
    hide AllSpoken, Breaks;
    var added := o.trace[|trace|..];
    assert o.trace + more == trace + (added + more);
    SpokenBoth(added, more);
    if empty {
      BreaksAlready(added, more);
    }
    GoesAdded(Outcome(o.err, o.trace + more), trace, added + more, empty);
  }

  /** A run that succeeds has not met an empty command; the next one goes on from there. */
  lemma GoesBoth(o: Outcome, trace: seq<Event>, empty: bool, next: Outcome, empty': bool)
    requires Goes(o, trace, empty) && o.err == 0 && Goes(next, o.trace, empty')
    ensures !empty && Goes(next, trace, empty')
  {
    hide AllSpoken, Breaks;
    var added := o.trace[|trace|..];
    assert trace + added == o.trace;
    GoesThen(trace, added, next, empty');
  }

  // ----- from traces to messages -----

  lemma {:induction false} MessagesPrefix(trace: seq<Event>, k: nat, said: seq<Event> -> seq<Text>)
    requires k <= |trace|
    ensures MessagesOf(trace[..k], said) <= MessagesOf(trace, said)
    decreases |trace|
  {
    if k == |trace| {
      assert trace[..k] == trace;
    } else {
      var front := trace[..|trace| - 1];
      assert front[..k] == trace[..k];
      MessagesPrefix(front, k, said);
    }
  }

  lemma {:induction false} SpokenMessages(trace: seq<Event>, said: seq<Event> -> seq<Text>)
    requires AllSpoken(trace) && HandlersSane(said)
    ensures AllSane(MessagesOf(trace, said)) && [] !in MessagesOf(trace, said)
  {
    hide Session.Sane;
    if trace != [] {
      var front := trace[..|trace| - 1];
      assert forall i :: 0 <= i < |front| ==> Spoken(front[i]) by {
        assert forall i :: 0 <= i < |front| ==> front[i] == trace[i];
      }
      SpokenMessages(front, said);
      assert Spoken(trace[|trace| - 1]);
      var more := said(trace);
      assert AllSane(more) && [] !in more;
    }
  }

  lemma {:induction false} BreakingMessages(trace: seq<Event>, said: seq<Event> -> seq<Text>)
    requires (forall i :: 0 <= i < |trace| ==> trace[i] != SaidCommand([]) ==> Spoken(trace[i])) && HandlersSane(said)
    ensures AllSane(MessagesOf(trace, said))
  {
    hide Session.Sane;
    EmptySane();
    if trace != [] {
      var front := trace[..|trace| - 1];
      assert forall i :: 0 <= i < |front| ==> front[i] == trace[i];
      BreakingMessages(front, said);
      var more := said(trace);
      assert AllSane(more);
    }
  }

  lemma EmptySane()
    ensures Session.Sane([])
  {
  }

  lemma MessagesNext(trace: seq<Event>, k: nat, said: seq<Event> -> seq<Text>)
    requires k < |trace|
    ensures MessagesOf(trace[..k + 1], said) == MessagesOf(trace[..k], said) +
            match trace[k]
            case Said(text) => [Ascii(text)]
            case SaidCommand(name) => [name]
            case Ran(_) => said(trace[..k + 1])
  {
    assert trace[..k + 1][..k] == trace[..k];
  }

  lemma {:induction false} ShownUpTo(messages: seq<Text>, k: nat)
    requires k <= |messages| && (forall i :: 0 <= i < k ==> messages[i] != []) && (k < |messages| ==> messages[k] == [])
    ensures Shown(messages) == messages[..k]
  {
    if k > 0 {
      ShownUpTo(messages[1..], k - 1);
      assert messages[..k] == [messages[0]] + messages[1..][..k - 1];
    }
  }

  lemma BrokenMessages(trace: seq<Event>, said: seq<Event> -> seq<Text>, ret: int)
    requires Breaks(trace) && HandlersSane(said)
    ensures var m := MessagesOf(trace, said);
      AllSane(m) && Shown(m) != m && Returned(m, ret) == 16
  {
    hide Spoken, Shown, HandlersSane;
    var k: nat :| BreaksAt(trace, k);
    var before, m := MessagesOf(trace[..k], said), MessagesOf(trace, said);
    BreakingMessages(trace, said);
    SpokenMessages(trace[..k], said);
    MessagesNext(trace, k, said);
    MessagesNext(trace, k + 1, said);
    MessagesPrefix(trace, k + 2, said);
    Constants();
    var start := before + [[]] + [Ascii("unknown command:")];
    assert start <= m;
    assert m[..|start|] == start;
    assert forall i :: 0 <= i < |before| ==> m[i] == start[i] == before[i] && before[i] in before;
    assert m[|before|] == start[|before|] == [] && m[|before| + 1] == start[|before| + 1];
    ShownUpTo(m, |before|);
  }

  lemma SpokenShown(trace: seq<Event>, said: seq<Event> -> seq<Text>, ret: int)
    requires AllSpoken(trace) && HandlersSane(said)
    ensures var m := MessagesOf(trace, said);
      AllSane(m) && Shown(m) == m && Returned(m, ret) == ret % 0x1_0000
  {
    hide Spoken, HandlersSane, Session.Sane;
    var m := MessagesOf(trace, said);
    SpokenMessages(trace, said);
    assert forall i :: 0 <= i < |m| ==> m[i] in m;
    ShownUpTo(m, |m|);
    assert m[..|m|] == m;
  }

  /** The client of a session whose command runs the engine. Unless the run reaches an empty command, it
      prints exactly the messages and returns the engine's result modulo 65536. If the run does, the
      client stops at the empty message and returns 16, the length of the message behind it. */
  lemma EngineSeen(env: Peers.Env, t: Tree, time: int, w: World, said: seq<Event> -> seq<Text>)
    requires HandlersSane(said) && forall i :: 0 <= i < |env.args| ==> |env.args[i]| < Peers.MAX_STRING
    ensures var o := Interp(t, time, w, []);
      var m := MessagesOf(o.trace, said);
      var end := Runs.Whole(env, Peers.Client(env), Peers.Ushort(0) + Peers.Answer(Peers.Reply(m, o.err))).end;
      && (end == Some(Peers.ClientEnd(o.err % 0x1_0000, m)) <==> !ReachesEmpty(t, time, w, []))
      && (ReachesEmpty(t, time, w, []) ==>
            Shown(m) < m && o.err != 0 && end == Some(Peers.ClientEnd(16, Shown(m))))
  {
    hide *;
    var o := Interp(t, time, w, []);
    RunGoes(t, time, w, []);
    WholeTrace(o, ReachesEmpty(t, time, w, []));
    if ReachesEmpty(t, time, w, []) {
      BrokenMessages(o.trace, said, o.err);
    } else {
      SpokenShown(o.trace, said, o.err);
    }
    ClientSees(env, MessagesOf(o.trace, said), o.err);
  }

  lemma WholeTrace(o: Outcome, empty: bool)
    requires Goes(o, [], empty)
    ensures if empty then Breaks(o.trace) && o.err != 0 else AllSpoken(o.trace)
  {
    assert o.trace[0..] == o.trace;
  }
}
