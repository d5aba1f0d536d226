/** What every run of the engine keeps. */
module EngineProperties {
  import opened Bytes
  import opened Payload
  import opened Engine
  import Expiry

  // ----- nesting depth -----

  function Depth(t: Tree): nat {
    1 + FramesDepth(t.nested)
  }

  function FramesDepth(fs: Frames): nat {
    match fs
    case End => 0
    case Malformed => 0
    case Frame(first, rest) => if Depth(first) > FramesDepth(rest) then Depth(first) else FramesDepth(rest)
  }

  /** A count, a frame size and a header: what one level of nesting costs. */
  const LEVEL_SIZE := 2 + 4 + HEADER_SIZE

  lemma {:induction false} TreeDepth(p: Raw)
    ensures Depth(ParseTree(p)) * LEVEL_SIZE <= LEVEL_SIZE + |Data(p)|
    decreases |p|, 0
  {
    hide CommandOf, CommandText, ParseFrames;
    var d := Data(p);
    if CommandOf(CommandText(p)).Composite? && |d| >= 2 {
      FromBigEndianBound(d[..2]);
      assert Pow256(2) == 0x1_0000;
      FramesDepthBound(d, 2, FromBigEndian(d[..2]));
    }
  }

  lemma {:induction false} FramesDepthBound(d: seq<Byte>, offset: nat, count: nat)
    requires 2 <= offset <= |d|
    ensures FramesDepth(ParseFrames(d, offset, count)) * LEVEL_SIZE <= |d|
    decreases |d|, count
  {
    hide FromBigEndian, ParseTree;
    if count > 0 && offset + 4 <= |d| {
      var body, size := offset + 4, FromBigEndian(d[offset..offset + 4]);
      if body + size <= |d| && size >= HEADER_SIZE {
        TreeDepth(d[body..body + size]);
        FramesDepthBound(d, body + size, count - 1);
      }
    }
  }

  /** The recursion of the engine is at most one level for every 174 bytes of data. */
  lemma DepthBound(p: Raw)
    ensures Depth(ParseTree(p)) <= 1 + |Data(p)| / LEVEL_SIZE
  {
    TreeDepth(p);
  }

  // ----- which calls happen, and in which order -----

  function CallsOf(trace: seq<Event>): seq<Call> {
    if trace == [] then [] else
      CallsOf(trace[..|trace| - 1]) + if trace[|trace| - 1].Ran? then [trace[|trace| - 1].call] else []
  }

  /** The calls of a payload that is not a composite. */
  function LeafCalls(p: Raw): seq<Call> {
    var c := CommandOf(CommandText(p));
    if c.Ok? || c.Unknown? || ActionOf(c, Data(p)).Return? then [] else [ActionOf(c, Data(p)).call]
  }

  /** The calls of the whole tree, from left to right and depth first. */
  function Calls(t: Tree): seq<Call> {
    if CommandOf(CommandText(t.raw)).Composite? then FramesCalls(t.nested) else LeafCalls(t.raw)
  }

  function FramesCalls(fs: Frames): seq<Call> {
    match fs
    case End => []
    case Malformed => []
    case Frame(first, rest) => Calls(first) + FramesCalls(rest)
  }

  lemma {:induction false} CallsOfConcat(a: seq<Event>, b: seq<Event>)
    ensures CallsOf(a + b) == CallsOf(a) + CallsOf(b)
  {
    if b == [] {
      assert a + b == a;
    } else {
      CallsOfConcat(a, b[..|b| - 1]);
      assert (a + b)[..|a + b| - 1] == a + b[..|b| - 1];
    }
  }

  /** A run extends the trace; the calls it adds are a prefix of `calls`, all of them on success. */
  ghost predicate Makes(o: Outcome, trace: seq<Event>, calls: seq<Call>) {
    trace <= o.trace && CallsOf(o.trace[|trace|..]) <= calls && (o.err == 0 ==> CallsOf(o.trace[|trace|..]) == calls)
  }

  lemma MakesFrom(o: Outcome, trace: seq<Event>, added: seq<Event>, calls: seq<Call>)
    requires o.trace == trace + added && CallsOf(added) <= calls && (o.err == 0 ==> CallsOf(added) == calls)
    ensures Makes(o, trace, calls)
  {
    assert o.trace[|trace|..] == added;
  }

  lemma LeafMakes(text: seq<Byte>, p: Raw, w: World, trace: seq<Event>)
    requires text == CommandText(p) && !CommandOf(text).Composite?
    ensures Makes(InterpLeaf(text, Data(p), w, trace), trace, LeafCalls(p))
  {
    hide CommandText, ScriptAction, Makes;
    var c, o := CommandOf(text), InterpLeaf(text, Data(p), w, trace);
    hide CommandOf;
    if c.Ok? {
      MakesFrom(o, trace, [Said("ok")], []);
    } else if c.Unknown? {
      TwoMessages(Said("unknown command:"), SaidCommand(text));
      MakesFrom(o, trace, [Said("unknown command:"), SaidCommand(text)], []);
    } else {
      match ActionOf(c, Data(p)) {
        case Return(err) => MakesFrom(o, trace, [], []);
        case Run(call) => OneCall(call); MakesFrom(o, trace, [Ran(call)], [call]);
      }
    }
  }

  lemma OneCall(call: Call)
    ensures CallsOf([Ran(call)]) == [call]
  {
    assert [Ran(call)][..0] == [];
  }

  lemma TwoMessages(a: Event, b: Event)
    requires !a.Ran? && !b.Ran?
    ensures CallsOf([a, b]) == []
  {
    assert [a, b][..1] == [a];
    assert CallsOf([a]) == [] by {
      assert [a][..0] == [];
    }
  }

  lemma GreetingMakesNoCall(text: seq<Byte>)
    ensures CallsOf(Greeting(text)) == []
  {
    var g := Greeting(text);
    assert g[..2] == [Said("loading..."), Said("command is")];
    TwoMessages(g[0], g[1]);
  }

  lemma MakesThen(trace: seq<Event>, added: seq<Event>, o: Outcome, calls: seq<Call>)
    requires Makes(o, trace + added, calls) && CallsOf(added) == []
    ensures Makes(o, trace, calls)
  {
    hide CallsOf;
    TailBehind(trace, added, o.trace);
    CallsOfConcat(added, o.trace[|trace + added|..]);
    NoneInFront(CallsOf(o.trace[|trace + added|..]));
  }

  lemma TailBehind(trace: seq<Event>, added: seq<Event>, whole: seq<Event>)
    requires trace + added <= whole
    ensures trace <= whole && whole[|trace|..] == added + whole[|trace + added|..]
  {
    assert whole[..|trace + added|] == trace + added;
    assert trace == whole[..|trace|];
  }

  lemma NoneInFront(calls: seq<Call>)
    ensures [] + calls == calls
  {
  }

  /** Every run, whatever the buffer, the clock and the results of the calls: the calls it makes are
      a prefix of the tree's calls in depth-first order, and a run that succeeds makes all of them. */
  lemma {:induction false} RunMakesCalls(t: Tree, time: int, w: World, trace: seq<Event>)
    ensures Makes(Interp(t, time, w, trace), trace, Calls(t))
  {
    hide Makes, Admit, CommandText, CommandOf, CallsOf, InterpLeaf, LeafCalls;
    var o := Interp(t, time, w, trace);
    match Admit(t.raw, w.clock(trace), time, w.verify) {
      case Expired => RefusalMakesNoCall(o, trace, "code expired", Calls(t));
      case BadSignature(err) => VerdictIsError(t.raw, w.clock(trace), time, w.verify);
        RefusalMakesNoCall(o, trace, "invalid signature", Calls(t));
      case Admitted =>
        var text := CommandText(t.raw);
        GreetingMakesNoCall(text);
        if CommandOf(text).Composite? {
          RunFramesMakesCalls(t.nested, time, w, trace + Greeting(text));
        } else {
          LeafMakes(text, t.raw, w, trace + Greeting(text));
        }
        MakesThen(trace, Greeting(text), o, Calls(t));
    }
  }

  lemma RefusalMakesNoCall(o: Outcome, trace: seq<Event>, text: string, calls: seq<Call>)
    requires o.trace == trace + [Said(text)] && o.err != 0
    ensures Makes(o, trace, calls)
  {
    assert CallsOf([Said(text)]) == [] by {
      assert [Said(text)][..0] == [];
    }
    MakesFrom(o, trace, [Said(text)], calls);
  }

  lemma VerdictIsError(p: Raw, now: int, time: int, verify: (seq<Byte>, seq<Byte>) -> int)
    ensures Admit(p, now, time, verify).BadSignature? ==> Admit(p, now, time, verify).err != 0
  {
  }

  lemma {:induction false} RunFramesMakesCalls(fs: Frames, time: int, w: World, trace: seq<Event>)
    ensures Makes(InterpFrames(fs, time, w, trace), trace, FramesCalls(fs))
  {
    hide Makes, CallsOf, Interp, Calls;
    match fs {
      case End => NoCall(trace);
      case Malformed => RefusalMakesNoCall(InterpFrames(fs, time, w, trace), trace, "invalid", []);
      case Frame(first, rest) =>
        var o := Interp(first, time, w, trace);
        RunMakesCalls(first, time, w, trace);
        if o.err != 0 {
          FailureMakes(o, trace, Calls(first), "something went wrong", FramesCalls(rest));
        } else {
          RunFramesMakesCalls(rest, time, w, o.trace);
          MakesBoth(o, trace, Calls(first), InterpFrames(rest, time, w, o.trace), FramesCalls(rest));
        }
    }
  }

  lemma NoCall(trace: seq<Event>)
    ensures Makes(Outcome(0, trace), trace, [])
  {
    assert trace == trace + [];
    MakesFrom(Outcome(0, trace), trace, [], []);
  }

  lemma FailureMakes(o: Outcome, trace: seq<Event>, calls: seq<Call>, text: string, more: seq<Call>)
    requires Makes(o, trace, calls) && o.err != 0
    ensures Makes(Outcome(o.err, o.trace + [Said(text)]), trace, calls + more)
  {
    var added := o.trace[|trace|..];
    CallsOfConcat(added, [Said(text)]);
    assert CallsOf([Said(text)]) == [] by {
      assert [Said(text)][..0] == [];
    }
    assert o.trace + [Said(text)] == trace + (added + [Said(text)]);
    MakesFrom(Outcome(o.err, o.trace + [Said(text)]), trace, added + [Said(text)], calls + more);
  }

  lemma MakesBoth(o: Outcome, trace: seq<Event>, calls: seq<Call>, o': Outcome, calls': seq<Call>)
    requires Makes(o, trace, calls) && o.err == 0 && Makes(o', o.trace, calls')
    ensures Makes(o', trace, calls + calls')
  {
    var added, added' := o.trace[|trace|..], o'.trace[|o.trace|..];
    CallsOfConcat(added, added');
    assert o'.trace == trace + (added + added');
    MakesFrom(o', trace, added + added', calls + calls');
  }

  // ----- what is refused -----

  /** The payload with its expiry field resolved: what the signature is checked on. */
  function Settled(p: Raw, now: int): Raw {
    p[..129] + Expiry.GetExpireOrSet(p[129..145], now).field + p[145..]
  }

  /** The deadline of the payload when its field is resolved at `now`. */
  function DeadlineOf(p: Raw, now: int): int {
    Expiry.DeadlineAt(Expiry.KindOf(p[129..145]), now)
  }

  predicate InTime(p: Raw, now: int, time: int) {
    DeadlineOf(p, now) == 0 || time < DeadlineOf(p, now)
  }

  /** The size field fits the payload and the limit. */
  predicate WellSized(p: Raw) {
    168 + FromBigEndian(p[164..168]) == |p| && FromBigEndian(p[164..168]) <= 512 * 1024 * 1024
  }

  /** What the signature scheme says of the payload: the signature field holds its 128 digits, and
      everything behind that field, with 129 zero bytes in its place, is the message. */
  function SignatureAnswer(q: Raw, w: World): int {
    w.verify(Zeros(129) + q[129..], q[..128])
  }

  /** In time, of the right size, and signed. */
  ghost predicate Genuine(p: Raw, now: int, time: int, w: World) {
    InTime(p, now, time) && WellSized(Settled(p, now)) && SignatureAnswer(Settled(p, now), w) == 0
  }

  lemma SettledIsResolved(p: Raw, now: int)
    ensures Settled(p, now) == Resolve(p, now)
    ensures WellSized(Settled(p, now)) <==> ValidSize(Resolve(p, now))
    ensures DeadlineOf(p, now) == Expiry.GetExpireOrSet(ExpireField(p), now).expire
  {
    hide Expiry.GetExpireOrSet, Expiry.KindOf, FromBigEndian;
    Expiry.ResolveIff(p[129..145], now);
  }

  lemma AdmittedIff(p: Raw, now: int, time: int, w: World)
    ensures Admit(p, now, time, w.verify) ==
            if !InTime(p, now, time) then Expired
            else if !WellSized(Settled(p, now)) then BadSignature(22)
            else if SignatureAnswer(Settled(p, now), w) != 0 then BadSignature(SignatureAnswer(Settled(p, now), w))
            else Admitted
  {
    hide Settled, Resolve, DeadlineOf, Expiry.GetExpireOrSet, ValidSize, WellSized;
    SettledIsResolved(p, now);
  }

  /** What a run answers to a payload that is late, of the wrong size, or not signed, and how it starts
      on one that is genuine. */
  lemma RunAnswers(t: Tree, time: int, w: World, trace: seq<Event>)
    ensures var p, now := t.raw, w.clock(trace);
      var o, q := Interp(t, time, w, trace), Settled(p, now);
      && (!InTime(p, now, time) ==> o == Outcome(127, trace + [Said("code expired")]))
      && (InTime(p, now, time) && !WellSized(q) ==> o == Outcome(22, trace + [Said("invalid signature")]))
      && (InTime(p, now, time) && WellSized(q) && SignatureAnswer(q, w) != 0 ==>
            o == Outcome(SignatureAnswer(q, w), trace + [Said("invalid signature")]))
      && (Genuine(p, now, time, w) ==>
            trace + [Said("loading..."), Said("command is"), SaidCommand(CommandText(p))] <= o.trace)
  {
    hide Settled, InTime, WellSized, Admit, SignatureAnswer, CommandText, CommandOf, InterpLeaf;
    AdmittedIff(t.raw, w.clock(trace), time, w);
    if Genuine(t.raw, w.clock(trace), time, w) {
      var text := CommandText(t.raw);
      if CommandOf(text).Composite? {
        RunFramesExtends(t.nested, time, w, trace + Greeting(text));
      } else {
        LeafExtends(text, t.raw, w, trace + Greeting(text));
      }
    }
  }

  lemma LeafExtends(text: seq<Byte>, p: Raw, w: World, trace: seq<Event>)
    requires text == CommandText(p) && !CommandOf(text).Composite?
    ensures trace <= InterpLeaf(text, Data(p), w, trace).trace
  {
    LeafMakes(text, p, w, trace);
  }

  // ----- no call without authority -----

  /** `call` belongs to the payload `t` or to one nested in it, and that payload and every payload
      around it was genuine at `time`, at moments of `history` that follow each other from `from` on. */
  ghost predicate Authorised(t: Tree, call: Call, time: int, w: World, history: seq<Event>, from: nat)
    decreases t, 1
  {
    exists k: nat :: from <= k <= |history| && AuthorisedAt(t, call, time, w, history, k)
  }

  ghost predicate AuthorisedAt(t: Tree, call: Call, time: int, w: World, history: seq<Event>, k: nat)
    requires k <= |history|
    decreases t, 0
  {
    && Genuine(t.raw, w.clock(history[..k]), time, w)
    && if CommandOf(CommandText(t.raw)).Composite? then FramesAuthorise(t.nested, call, time, w, history, k)
       else call in LeafCalls(t.raw)
  }

  ghost predicate FramesAuthorise(fs: Frames, call: Call, time: int, w: World, history: seq<Event>, from: nat)
    decreases fs, 0
  {
    fs.Frame? &&
    (Authorised(fs.first, call, time, w, history, from) || FramesAuthorise(fs.rest, call, time, w, history, from))
  }

  lemma AuthorisedEarlier(t: Tree, call: Call, time: int, w: World, history: seq<Event>, from: nat, from': nat)
    requires Authorised(t, call, time, w, history, from) && from' <= from
    ensures Authorised(t, call, time, w, history, from')
  {
    hide AuthorisedAt;
  }

  /** No handler runs without authority. Every call that a run adds to the trace, at any depth,
      belongs to a payload that was in time, of the right size and signed, inside payloads that all were. */
  lemma {:induction false} RunIsAuthorised(t: Tree, time: int, w: World, trace: seq<Event>, i: nat)
    requires var o := Interp(t, time, w, trace); |trace| <= i < |o.trace| && o.trace[i].Ran?
    ensures var o := Interp(t, time, w, trace);
      Authorised(t, o.trace[i].call, time, w, o.trace[..i], |trace|)
  {
    hide Admit, CommandText, CommandOf, InterpLeaf, LeafCalls, FramesAuthorise, Settled, InTime, WellSized,
         SignatureAnswer;
    AdmittedIff(t.raw, w.clock(trace), time, w);
    RunExtends(t, time, w, trace);
    var o, text := Interp(t, time, w, trace), CommandText(t.raw);
    var call, history := o.trace[i].call, o.trace[..i];
    if Admit(t.raw, w.clock(trace), time, w.verify) == Admitted {
      var g := Greeting(text);
      if CommandOf(text).Composite? {
        RunFramesExtends(t.nested, time, w, trace + g);
        BeyondGreeting(trace, text, o.trace, i);
        RunFramesAuthorised(t.nested, time, w, trace + g, |trace|, i);
      } else {
        LeafAuthorised(text, t.raw, w, trace, i);
      }
      assert history[..|trace|] == trace;
      assert AuthorisedAt(t, call, time, w, history, |trace|);
    }
  }

  lemma BeyondGreeting(trace: seq<Event>, text: seq<Byte>, whole: seq<Event>, i: nat)
    requires trace + Greeting(text) <= whole
    ensures |trace| <= i < |trace + Greeting(text)| ==> !whole[i].Ran?
  {
    var start := trace + Greeting(text);
    if |trace| <= i < |start| {
      assert whole[i] == start[i] == Greeting(text)[i - |trace|];
    }
  }

  lemma LeafAuthorised(text: seq<Byte>, p: Raw, w: World, trace: seq<Event>, i: nat)
    requires text == CommandText(p) && !CommandOf(text).Composite?
    requires var o := InterpLeaf(text, Data(p), w, trace + Greeting(text)); |trace| <= i < |o.trace| && o.trace[i].Ran?
    ensures InterpLeaf(text, Data(p), w, trace + Greeting(text)).trace[i].call in LeafCalls(p)
  {
    hide CommandText, CommandOf;
    var o := InterpLeaf(text, Data(p), w, trace + Greeting(text));
    BeyondGreeting(trace, text, o.trace, i);
  }

  lemma {:induction false} RunFramesAuthorised(fs: Frames, time: int, w: World, trace: seq<Event>, from: nat, i: nat)
    requires var o := InterpFrames(fs, time, w, trace); from <= |trace| <= i < |o.trace| && o.trace[i].Ran?
    ensures var o := InterpFrames(fs, time, w, trace);
      FramesAuthorise(fs, o.trace[i].call, time, w, o.trace[..i], from)
  {
    hide Interp, Authorised;
    if fs.Frame? {
      var o, whole := Interp(fs.first, time, w, trace), InterpFrames(fs, time, w, trace);
      RunExtends(fs.first, time, w, trace);
      if o.err == 0 {
        RunFramesExtends(fs.rest, time, w, o.trace);
      }
      if i < |o.trace| {
        assert whole.trace[..i] == o.trace[..i] && whole.trace[i] == o.trace[i];
        RunIsAuthorised(fs.first, time, w, trace, i);
        AuthorisedEarlier(fs.first, o.trace[i].call, time, w, o.trace[..i], |trace|, from);
      } else {
        RunFramesAuthorised(fs.rest, time, w, o.trace, from, i);
      }
    }
  }

  lemma RunExtends(t: Tree, time: int, w: World, trace: seq<Event>)
    ensures trace <= Interp(t, time, w, trace).trace
  {
    RunMakesCalls(t, time, w, trace);
  }

  lemma RunFramesExtends(fs: Frames, time: int, w: World, trace: seq<Event>)
    ensures trace <= InterpFrames(fs, time, w, trace).trace
  {
    RunFramesMakesCalls(fs, time, w, trace);
  }

  // ----- what success means -----

  /** Every composite in the tree was well formed to its end. */
  ghost predicate WellFormed(t: Tree) {
    CommandOf(CommandText(t.raw)).Composite? ==> FramesWellFormed(t.nested)
  }

  ghost predicate FramesWellFormed(fs: Frames) {
    match fs
    case End => true
    case Malformed => false
    case Frame(first, rest) => WellFormed(first) && FramesWellFormed(rest)
  }

  /** A run that succeeds has found nothing malformed, at any depth. */
  lemma {:induction false} SuccessIsWellFormed(t: Tree, time: int, w: World, trace: seq<Event>)
    ensures Interp(t, time, w, trace).err == 0 ==> WellFormed(t)
  {
    hide CommandText, CommandOf, Admit, InterpLeaf;
    var text := CommandText(t.raw);
    VerdictIsError(t.raw, w.clock(trace), time, w.verify);
    if CommandOf(text).Composite? {
      FramesSuccess(t.nested, time, w, trace + Greeting(text));
    }
  }

  lemma {:induction false} FramesSuccess(fs: Frames, time: int, w: World, trace: seq<Event>)
    ensures InterpFrames(fs, time, w, trace).err == 0 ==> FramesWellFormed(fs)
  {
    hide Interp, WellFormed;
    if fs.Frame? {
      var o := Interp(fs.first, time, w, trace);
      SuccessIsWellFormed(fs.first, time, w, trace);
      FramesSuccess(fs.rest, time, w, o.trace);
    }
  }

  // ----- when everything succeeds -----

  /** Nothing in the tree is malformed, refused, or a command that fails by itself. */
  ghost predicate Ready(t: Tree, time: int, w: World) {
    && (forall now :: Admit(t.raw, now, time, w.verify) == Admitted)
    && var c := CommandOf(CommandText(t.raw));
       if c.Composite? then FramesReady(t.nested, time, w)
       else !c.Unknown? && (ActionOf(c, Data(t.raw)).Return? && !c.Ok? ==> ActionOf(c, Data(t.raw)).err == 0)
  }

  ghost predicate FramesReady(fs: Frames, time: int, w: World) {
    match fs
    case End => true
    case Malformed => false
    case Frame(first, rest) => Ready(first, time, w) && FramesReady(rest, time, w)
  }

  /** What a call answers, given the calls before it. */
  type Codes = (seq<Call>, Call) -> int

  ghost predicate Answers(w: World, call: Call, code: Codes) {
    forall h :: w.outcome(h + [Ran(call)]) == code(CallsOf(h), call)
  }

  /** The calls up to and including the first one that fails. */
  function Executed(prior: seq<Call>, calls: seq<Call>, code: Codes): seq<Call>
    decreases |calls|
  {
    if calls == [] then []
    else if code(prior, calls[0]) != 0 then [calls[0]]
    else [calls[0]] + Executed(prior + [calls[0]], calls[1..], code)
  }

  /** What the first call that fails answers, or 0. */
  function Failure(prior: seq<Call>, calls: seq<Call>, code: Codes): int
    decreases |calls|
  {
    if calls == [] then 0
    else if code(prior, calls[0]) != 0 then code(prior, calls[0])
    else Failure(prior + [calls[0]], calls[1..], code)
  }

  lemma {:induction false} ExecutedConcat(prior: seq<Call>, a: seq<Call>, b: seq<Call>, code: Codes)
    ensures Failure(prior, a, code) != 0 ==>
              Executed(prior, a + b, code) == Executed(prior, a, code) &&
              Failure(prior, a + b, code) == Failure(prior, a, code)
    ensures Failure(prior, a, code) == 0 ==>
              Executed(prior, a, code) == a && Executed(prior, a + b, code) == a + Executed(prior + a, b, code) &&
              Failure(prior, a + b, code) == Failure(prior + a, b, code)
    decreases |a|
  {
    if a == [] {
      assert a + b == b && prior + a == prior;
    } else {
      assert (a + b)[1..] == a[1..] + b;
      assert prior + [a[0]] + a[1..] == prior + a;
      ExecutedConcat(prior + [a[0]], a[1..], b, code);
    }
  }

  /** The run has made exactly the calls up to the first failure, and returns it. */
  ghost predicate Does(o: Outcome, trace: seq<Event>, calls: seq<Call>, code: Codes) {
    && CallsOf(o.trace) == CallsOf(trace) + Executed(CallsOf(trace), calls, code)
    && o.err == Failure(CallsOf(trace), calls, code)
  }

  lemma DoesThen(o: Outcome, trace: seq<Event>, added: seq<Event>, calls: seq<Call>, code: Codes)
    requires CallsOf(added) == [] && Does(o, trace + added, calls, code)
    ensures Does(o, trace, calls, code)
  {
    hide Executed, Failure;
    CallsOfConcat(trace, added);
    assert CallsOf(trace) + [] == CallsOf(trace);
  }

  lemma LeafDoes(text: seq<Byte>, p: Raw, w: World, trace: seq<Event>, code: Codes)
    requires text == CommandText(p) && !CommandOf(text).Composite?
    requires var c := CommandOf(text);
      !c.Unknown? && (ActionOf(c, Data(p)).Return? && !c.Ok? ==> ActionOf(c, Data(p)).err == 0)
    requires forall call :: call in LeafCalls(p) ==> Answers(w, call, code)
    ensures Does(InterpLeaf(text, Data(p), w, trace), trace, LeafCalls(p), code)
  {
    hide CommandText, CommandOf, ScriptAction, CallsOf, Answers, Executed, Failure;
    var c := CommandOf(text);
    NothingExecuted(CallsOf(trace), code);
    if c.Ok? {
      OneMessage("ok");
      CallsOfConcat(trace, [Said("ok")]);
    } else if ActionOf(c, Data(p)).Run? {
      var call := ActionOf(c, Data(p)).call;
      assert call in LeafCalls(p);
      OneExecuted(CallsOf(trace), call, code);
      Answered(w, call, code, trace);
      OneCall(call);
      CallsOfConcat(trace, [Ran(call)]);
    }
  }

  lemma OneExecuted(prior: seq<Call>, call: Call, code: Codes)
    ensures Executed(prior, [call], code) == [call] && Failure(prior, [call], code) == code(prior, call)
  {
    assert [call][1..] == [];
  }

  lemma Answered(w: World, call: Call, code: Codes, h: seq<Event>)
    requires Answers(w, call, code)
    ensures w.outcome(h + [Ran(call)]) == code(CallsOf(h), call)
  {
  }

  lemma OneMessage(text: string)
    ensures CallsOf([Said(text)]) == []
  {
    assert [Said(text)][..0] == [];
  }

  /** A ready tree, whatever its calls answer and whatever the device clock shows: the run makes
      exactly the tree's calls, in order, up to and including the first one that fails, and returns
      what that one answered; if none fails it makes them all and returns 0. */
  lemma {:induction false} ReadyRuns(t: Tree, time: int, w: World, trace: seq<Event>, code: Codes)
    requires Ready(t, time, w) && forall call :: call in Calls(t) ==> Answers(w, call, code)
    ensures Does(Interp(t, time, w, trace), trace, Calls(t), code)
  {
    hide CommandText, CommandOf, Admit, ActionOf, Does, Answers, CallsOf, InterpLeaf, LeafCalls;
    var text := CommandText(t.raw);
    GreetingMakesNoCall(text);
    if CommandOf(text).Composite? {
      ReadyFramesRun(t.nested, time, w, trace + Greeting(text), code);
    } else {
      LeafDoes(text, t.raw, w, trace + Greeting(text), code);
    }
    DoesThen(Interp(t, time, w, trace), trace, Greeting(text), Calls(t), code);
  }

  lemma {:induction false} ReadyFramesRun(fs: Frames, time: int, w: World, trace: seq<Event>, code: Codes)
    requires FramesReady(fs, time, w) && forall call :: call in FramesCalls(fs) ==> Answers(w, call, code)
    ensures Does(InterpFrames(fs, time, w, trace), trace, FramesCalls(fs), code)
  {
    hide Interp, Ready, Answers, CallsOf, Calls, Executed, Failure;
    if fs.Frame? {
      var o := Interp(fs.first, time, w, trace);
      ReadyRuns(fs.first, time, w, trace, code);
      ExecutedConcat(CallsOf(trace), Calls(fs.first), FramesCalls(fs.rest), code);
      if o.err != 0 {
        OneMessage("something went wrong");
        CallsOfConcat(o.trace, [Said("something went wrong")]);
        assert CallsOf(o.trace) + [] == CallsOf(o.trace);
      } else {
        ReadyFramesRun(fs.rest, time, w, o.trace, code);
        var p, a := CallsOf(trace), Calls(fs.first);
        var more := Executed(p + a, FramesCalls(fs.rest), code);
        assert p + a + more == p + (a + more);
      }
    } else {
      NothingExecuted(CallsOf(trace), code);
    }
  }

  lemma NothingExecuted(prior: seq<Call>, code: Codes)
    ensures Executed(prior, [], code) == [] && Failure(prior, [], code) == 0 && prior + [] == prior
  {
  }
}
