/** `handle_one_payload` and `payload_cmd_composite` on one mutable buffer. */
module EngineMachine {
  import opened Bytes
  import opened Errno
  import opened Payload
  import opened Engine
  import Expiry
  import ScriptArgs

  class Device {
    const world: World
    var trace: seq<Event>

    constructor (world: World)
      ensures this.world == world && trace == []
    {
      this.world := world;
      trace := [];
    }

    method Log(events: seq<Event>)
      modifies this`trace
      ensures trace == old(trace) + events
    {
      trace := trace + events;
    }

    method Call(call: Call) returns (err: int)
      modifies this`trace
      ensures Outcome(err, trace) == Invoke(call, world, old(trace))
    {
      trace := trace + [Ran(call)];
      err := world.outcome(trace);
    }
  }

  /** The strings that an argument vector for `execv` points to. */
  method Dereference(argv: seq<ScriptArgs.Slot>, buf: array<Byte>, ghost end: nat, ghost argv0: string,
                     ghost argv1: string, ghost list: seq<seq<Byte>>)
    returns (strings: seq<seq<Byte>>)
    requires end < buf.Length && ScriptArgs.Points(argv, buf[..], end, argv0, argv1, list)
    ensures strings == list
  {
    strings := [];
    for j := 0 to |argv| - 3
      invariant strings == list[..j]
    {
      assert ScriptArgs.PointsTo(argv[j + 2], buf[..], end, list[j]);
      var from := argv[j + 2].index;
      assert NulAt(buf[..], from) == from + |list[j]| by {
        assert forall i :: 0 <= i < |list[j]| ==> list[j][i] == buf[..][from + i];
        assert forall i :: from <= i < from + |list[j]| ==> buf[..][i] == list[j][i - from];
      }
      strings := strings + [buf[..][from..NulAt(buf[..], from)]];
    }
    assert list[..|list|] == list;
  }

  method RunScript(buf: array<Byte>, at: nat, size: nat, path: string, verb: string, dev: Device) returns (err: int)
    requires at + size <= buf.Length
    modifies buf, dev`trace
    ensures Outcome(err, dev.trace) ==
            match ScriptAction(path, verb, old(buf[at..at + size]))
            case Return(e) => Outcome(e, old(dev.trace))
            case Run(call) => Invoke(call, dev.world, old(dev.trace))
    ensures Within(old(buf[..]), buf[..], at, at + size)
  {
    ghost var parsed := ScriptArgs.Parse(buf[at..at + size]);
    var run, e, argv := ScriptArgs.ScriptHelper(buf, at, size, path, verb);
    if run {
      var strings := Dereference(argv, buf, at + size - 1, path, verb, parsed.list);
      err := dev.Call(Script(path, verb, strings));
    } else {
      err := e;
    }
  }

  /** The `else if` chain of `handle_one_payload`, for every command but "composite". */
  method RunLeaf(text: seq<Byte>, buf: array<Byte>, at: nat, size: nat, dev: Device) returns (err: int)
    requires at + size <= buf.Length && !CommandOf(text).Composite?
    modifies buf, dev`trace
    ensures Outcome(err, dev.trace) == InterpLeaf(text, old(buf[at..at + size]), dev.world, old(dev.trace))
    ensures Within(old(buf[..]), buf[..], at, at + size)
  {
    hide CommandOf, ScriptAction;
    var c := CommandOf(text);
    if c.Ok? {
      dev.Log([Said("ok")]);
      err := 0;
    } else if c.Unknown? {
      dev.Log([Said("unknown command:"), SaidCommand(text)]);
      err := ENOSYS;
    } else if ScriptOf(c).Some? {
      err := RunScript(buf, at, size, ScriptOf(c).value.0, ScriptOf(c).value.1, dev);
    } else {
      match c
      case InstallThis => err := dev.Call(InstallApk(buf[at..at + size]));
      case FileExport => err := dev.Call(ExportFiles);
      case FileImport => err := dev.Call(ImportFiles);
      case AdbEnable => err := dev.Call(SetAdb(true));
      case AdbDisable => err := dev.Call(SetAdb(false));
      case WifiEnable => err := dev.Call(SetWifi(true));
      case WifiDisable => err := dev.Call(SetWifi(false));
      case OemUnlock => err := dev.Call(SetOemLock(false));
      case OemLock => err := dev.Call(SetOemLock(true));
      case FwFlush => err := dev.Call(FlushFirewall);
      case InstallPath => err := ENOSYS;
    }
  }

  /** Reading the command through a buffer whose last command byte has been forced to NUL. */
  lemma ForcedNul(p: Raw, field: seq<Byte>)
    requires |field| == COMMAND_SIZE && field[COMMAND_SIZE - 1] == NUL
    requires field[..COMMAND_SIZE - 1] == p[COMMAND_AT..COMMAND_AT + COMMAND_SIZE - 1]
    ensures CString(field) == CommandText(p)
  {
    var short := field[..COMMAND_SIZE - 1];
    assert forall i :: 0 <= i < |short| ==> short[i] == field[i];
    assert NulAt(field, 0) == NulAt(short, 0);
  }

  /** The expiry part of `dp_is_expired_compare`, on the payload of `size` bytes at index `at`. */
  method ResolveInPlace(buf: array<Byte>, at: nat, size: nat, now: int) returns (expire: int)
    requires HEADER_SIZE <= size && at + size <= buf.Length
    modifies buf
    ensures expire == Expiry.GetExpireOrSet(ExpireField(old(buf[at..at + size])), now).expire
    ensures buf[at..at + size] == Resolve(old(buf[at..at + size]), now)
    ensures Within(old(buf[..]), buf[..], at + EXPIRE_AT, at + COMMAND_AT)
  {
    hide Expiry.GetExpireOrSet, WithExpire;
    ghost var p: Raw := buf[at..at + size];
    SliceOfSlice(buf[..], at, at + size, EXPIRE_AT, COMMAND_AT);
    assert buf[at + EXPIRE_AT..at + COMMAND_AT] == ExpireField(p);
    expire := GetExpireOrSetInPlace(buf, at + EXPIRE_AT, now);
    SliceOfSlice(buf[..], at, at + size, EXPIRE_AT, COMMAND_AT);
    FieldReplaced(p, buf[at..at + size], Expiry.GetExpireOrSet(ExpireField(p), now).field);
  }

  /** The expiry and signature checks of `handle_one_payload`, and the forced NUL. */
  method CheckPayload(buf: array<Byte>, at: nat, size: nat, time: int, dev: Device)
    returns (verdict: Verdict, text: seq<Byte>)
    requires HEADER_SIZE <= size && at + size <= buf.Length
    modifies buf
    ensures verdict == Admit(old(buf[at..at + size]), dev.world.clock(dev.trace), time, dev.world.verify)
    ensures verdict.Admitted? ==> text == CommandText(old(buf[at..at + size]))
    ensures Within(old(buf[..]), buf[..], at, at + HEADER_SIZE)
  {
    hide Verify, Expiry.GetExpireOrSet, Resolve, Within, CommandText;
    ghost var b0 := buf[..];
    text := [];
    var expire := ResolveInPlace(buf, at, size, dev.world.clock(dev.trace));
    ghost var b1 := buf[..];
    WithinWider(b0, b1, at + EXPIRE_AT, at + COMMAND_AT, at, at + HEADER_SIZE);
    if Expiry.IsExpired(expire, time) {
      return Expired, text;
    }
    var err := VerifyInPlace(buf, at, size, dev.world.verify);
    ghost var b2 := buf[..];
    WithinThen(b0, b1, b2, at, at + HEADER_SIZE, at, at + SIGNATURE_SIZE);
    if err != 0 {
      return BadSignature(err), text;
    }
    assert b2[at + COMMAND_AT..at + HEADER_SIZE] == b0[at + COMMAND_AT..at + HEADER_SIZE] by {
      WithinSlice(b1, b2, at, at + SIGNATURE_SIZE, at + COMMAND_AT, at + HEADER_SIZE);
      WithinSlice(b0, b1, at + EXPIRE_AT, at + COMMAND_AT, at + COMMAND_AT, at + HEADER_SIZE);
    }
    text := ReadCommand(buf, at, b0[at..at + size]);
    WithinThen(b0, b2, buf[..], at, at + HEADER_SIZE, at + COMMAND_AT, at + HEADER_SIZE);
    verdict := Admitted;
  }

  /** Forces the command's last byte to NUL and reads the command. */
  method ReadCommand(buf: array<Byte>, at: nat, ghost p: Raw) returns (text: seq<Byte>)
    requires at + HEADER_SIZE <= buf.Length
    requires buf[at + COMMAND_AT..at + HEADER_SIZE] == p[COMMAND_AT..HEADER_SIZE]
    modifies buf
    ensures text == CommandText(p)
    ensures Within(old(buf[..]), buf[..], at + COMMAND_AT, at + HEADER_SIZE)
  {
    hide CString, CommandText;
    ghost var before := buf[at + COMMAND_AT..at + HEADER_SIZE];
    buf[at + COMMAND_AT + COMMAND_SIZE - 1] := NUL;
    var field := buf[at + COMMAND_AT..at + COMMAND_AT + COMMAND_SIZE];
    text := CString(field);
    assert field[..COMMAND_SIZE - 1] == before[..COMMAND_SIZE - 1];
    SliceOfSlice(p, COMMAND_AT, HEADER_SIZE, 0, COMMAND_SIZE - 1);
    ForcedNul(p, field);
  }

  /** What an admitted payload does, given its command and its data. */
  ghost function InterpCommand(text: seq<Byte>, data: seq<Byte>, time: int, w: World, trace: seq<Event>): Outcome {
    if CommandOf(text).Composite? then InterpFrames(ParseComposite(data), time, w, trace + Greeting(text))
    else InterpLeaf(text, data, w, trace + Greeting(text))
  }

  lemma HeaderSize()
    ensures HEADER_SIZE == 168
  {
  }

  lemma InterpTree(p: Raw, time: int, w: World, trace: seq<Event>)
    ensures Interp(ParseTree(p), time, w, trace) ==
            match Admit(p, w.clock(trace), time, w.verify)
            case Expired => Outcome(EKEYEXPIRED, trace + [Said("code expired")])
            case BadSignature(err) => Outcome(err, trace + [Said("invalid signature")])
            case Admitted => InterpCommand(CommandText(p), Data(p), time, w, trace)
  {
    hide Admit, CommandText, CommandOf, ParseComposite;
  }

  /** `handle_one_payload` on the payload at index `at` with `size` data bytes: the same outcome as
      the interpreter on the parsed tree, writing only inside the payload. */
  method HandleOnePayload(buf: array<Byte>, at: nat, size: nat, time: int, dev: Device) returns (err: int)
    requires at + HEADER_SIZE + size <= buf.Length
    modifies buf, dev`trace
    ensures Outcome(err, dev.trace) ==
            Interp(ParseTree(old(buf[at..at + HEADER_SIZE + size])), time, dev.world, old(dev.trace))
    ensures Within(old(buf[..]), buf[..], at, at + HEADER_SIZE + size)
    decreases size, 3
  {
    hide *;
    HeaderSize();
    ghost var b0, trace := buf[..], dev.trace;
    ghost var p: Raw := buf[at..at + HEADER_SIZE + size];
    InterpTree(p, time, dev.world, trace);
    var verdict, text := CheckPayload(buf, at, HEADER_SIZE + size, time, dev);
    ghost var b1 := buf[..];
    if verdict.Expired? {
      dev.Log([Said("code expired")]);
      err := EKEYEXPIRED;
    } else if verdict.BadSignature? {
      dev.Log([Said("invalid signature")]);
      err := verdict.err;
    } else {
      DataUntouched(b0, b1, at, size);
      err := Dispatch(text, buf, at + HEADER_SIZE, size, time, dev);
    }
    WithinBoth(b0, b1, buf[..], at, at + HEADER_SIZE, at + HEADER_SIZE + size);
  }

  lemma DataUntouched(b0: seq<Byte>, b1: seq<Byte>, at: nat, size: nat)
    requires at + HEADER_SIZE + size <= |b0| && Within(b0, b1, at, at + HEADER_SIZE)
    ensures b1[at + HEADER_SIZE..at + HEADER_SIZE + size] == Data(b0[at..at + HEADER_SIZE + size])
  {
    WithinSlice(b0, b1, at, at + HEADER_SIZE, at + HEADER_SIZE, at + HEADER_SIZE + size);
    SliceOfSlice(b0, at, at + HEADER_SIZE + size, HEADER_SIZE, HEADER_SIZE + size);
  }

  /** Adjacent ranges. */
  lemma WithinBoth(a: seq<Byte>, b: seq<Byte>, c: seq<Byte>, lo: nat, mid: nat, hi: nat)
    requires lo <= mid <= hi && Within(a, b, lo, mid) && (b == c || Within(b, c, mid, hi))
    ensures Within(a, c, lo, hi)
  {
  }

  /** The greeting and the `else if` chain of `handle_one_payload`. */
  method Dispatch(text: seq<Byte>, buf: array<Byte>, at: nat, size: nat, time: int, dev: Device) returns (err: int)
    requires at + size <= buf.Length
    modifies buf, dev`trace
    ensures Outcome(err, dev.trace) == InterpCommand(text, old(buf[at..at + size]), time, dev.world, old(dev.trace))
    ensures Within(old(buf[..]), buf[..], at, at + size)
    decreases size, 2
  {
    hide Within, CommandOf, InterpLeaf, InterpFrames, ParseComposite;
    dev.Log(Greeting(text));
    if CommandOf(text).Composite? {
      err := PayloadCmdComposite(buf, at, size, time, dev);
    } else {
      err := RunLeaf(text, buf, at, size, dev);
    }
  }

  lemma WithinWider(a: seq<Byte>, b: seq<Byte>, lo: nat, hi: nat, lo': nat, hi': nat)
    requires Within(a, b, lo, hi) && lo' <= lo && hi <= hi'
    ensures Within(a, b, lo', hi')
  {
  }

  /** The outcome of one round of the composite loop, where `rest` is the data not yet walked: stop
      with a result, or go on after `n` bytes. */
  ghost predicate FrameOutcome(rest: seq<Byte>, time: int, w: World, trace: seq<Event>, stop: bool, o: Outcome, n: nat)
  {
    if |rest| < 4 then stop && o == Outcome(EINVAL, trace + [Said("invalid")]) else
      var size := FromBigEndian(rest[..4]);
      if 4 + size > |rest| || size < HEADER_SIZE then stop && o == Outcome(EINVAL, trace + [Said("invalid")]) else
        var inner := Interp(ParseTree(rest[4..4 + size]), time, w, trace);
        stop == (inner.err != 0) &&
        if stop then o == Outcome(inner.err, inner.trace + [Said("something went wrong")])
        else o == inner && n == 4 + size
  }

  /** One round of the loop is one frame of the interpreter. */
  lemma InterpFrame(d: seq<Byte>, offset: nat, count: nat, time: int, w: World, trace: seq<Event>,
                    stop: bool, o: Outcome, n: nat)
    requires 2 <= offset <= |d| && count > 0 && FrameOutcome(d[offset..], time, w, trace, stop, o, n)
    ensures stop ==> InterpFrames(ParseFrames(d, offset, count), time, w, trace) == o
    ensures !stop ==> offset + n <= |d| && InterpFrames(ParseFrames(d, offset, count), time, w, trace) ==
                                           InterpFrames(ParseFrames(d, offset + n, count - 1), time, w, o.trace)
  {
    hide Interp, ParseTree, FromBigEndian;
    var rest := d[offset..];
    if offset + 4 <= |d| {
      assert rest[..4] == d[offset..offset + 4];
      var size := FromBigEndian(rest[..4]);
      if offset + 4 + size <= |d| {
        assert rest[4..4 + size] == d[offset + 4..offset + 4 + size];
      }
    }
  }

  /** `payload_cmd_composite` on the `size` data bytes at index `at`. */
  method PayloadCmdComposite(buf: array<Byte>, at: nat, size: nat, time: int, dev: Device) returns (err: int)
    requires at + size <= buf.Length
    modifies buf, dev`trace
    ensures Outcome(err, dev.trace) ==
            InterpFrames(ParseComposite(old(buf[at..at + size])), time, dev.world, old(dev.trace))
    ensures Within(old(buf[..]), buf[..], at, at + size)
    decreases size, 1
  {
    hide *;
    ghost var b0, d := buf[..], buf[at..at + size];
    ParsesFrames(d);
    if size < 2 {
      InterpMalformed(time, dev.world, dev.trace);
      dev.Log([Said("invalid")]);
      WithinRefl(b0, at);
      return EINVAL;
    }
    assert buf[at..at + 2] == d[..2];
    var count := FromBigEndian(buf[at..at + 2]);
    var offset, i := 2, 0;
    ghost var all := InterpFrames(ParseFrames(d, 2, count), time, dev.world, dev.trace);
    WithinRefl(b0, at);
    while i < count
      invariant 0 <= i <= count
      invariant 2 <= offset <= size
      invariant Within(b0, buf[..], at, at + offset)
      invariant InterpFrames(ParseFrames(d, offset, count - i), time, dev.world, dev.trace) == all
    {
      ghost var b1, trace := buf[..], dev.trace;
      WithinSlice(b0, b1, at, at + offset, at + offset, at + size);
      SliceOfSlice(b0, at, at + size, offset, size);
      assert d[offset..] == d[offset..size];
      var stop, e, next := HandleFrame(buf, at, size, offset, time, dev);
      InterpFrame(d, offset, count - i, time, dev.world, trace, stop, Outcome(e, dev.trace), next - offset);
      WithinThen(b0, b1, buf[..], at, at + offset, at + offset, at + next);
      if stop {
        WithinWider(b0, buf[..], at, at + next, at, at + size);
        return e;
      }
      offset := next;
      i := i + 1;
    }
    InterpNoFrames(d, offset, time, dev.world, dev.trace);
    WithinWider(b0, buf[..], at, at + offset, at, at + size);
    err := 0;
  }

  lemma WithinRefl(a: seq<Byte>, at: nat)
    ensures forall n: nat :: Within(a, a, at, n)
  {
  }

  /** The body of the composite loop. */
  method HandleFrame(buf: array<Byte>, at: nat, size: nat, offset: nat, time: int, dev: Device)
    returns (stop: bool, err: int, next: nat)
    requires at + size <= buf.Length && 2 <= offset <= size
    modifies buf, dev`trace
    ensures offset <= next <= size && Within(old(buf[..]), buf[..], at + offset, at + next)
    ensures FrameOutcome(old(buf[at + offset..at + size]), time, dev.world, old(dev.trace), stop,
                         Outcome(err, dev.trace), next - offset)
    decreases size, 0
  {
    hide ParseTree, Interp, FromBigEndian, Within;
    ghost var b0, rest := buf[..], buf[at + offset..at + size];
    WithinRefl(b0, at + offset);
    stop, err, next := true, EINVAL, offset;
    if offset + 4 > size {
      dev.Log([Said("invalid")]);
      return;
    }
    assert buf[at + offset..at + offset + 4] == rest[..4];
    var payloadSize := FromBigEndian(buf[at + offset..at + offset + 4]);
    if offset + 4 + payloadSize > size || payloadSize < HEADER_SIZE {
      dev.Log([Said("invalid")]);
      return;
    }
    assert buf[at + offset + 4..at + offset + 4 + payloadSize] == rest[4..4 + payloadSize];
    err := HandleOnePayload(buf, at + offset + 4, payloadSize - HEADER_SIZE, time, dev);
    next := offset + 4 + payloadSize;
    WithinWider(b0, buf[..], at + offset + 4, at + next, at + offset, at + next);
    stop := err != 0;
    if stop {
      dev.Log([Said("something went wrong")]);
    }
  }

  lemma ParsesFrames(d: seq<Byte>)
    ensures ParseComposite(d) == if |d| < 2 then Malformed else ParseFrames(d, 2, FromBigEndian(d[..2]))
  {
  }

  lemma InterpMalformed(time: int, w: World, trace: seq<Event>)
    ensures InterpFrames(Malformed, time, w, trace) == Outcome(EINVAL, trace + [Said("invalid")])
  {
  }

  lemma InterpNoFrames(d: seq<Byte>, offset: nat, time: int, w: World, trace: seq<Event>)
    requires 2 <= offset <= |d|
    ensures InterpFrames(ParseFrames(d, offset, 0), time, w, trace) == Outcome(0, trace)
  {
  }

  /** The end of `secret_code`: the engine on a downloaded buffer of any size. */
  method RunBuffer(buf: array<Byte>, time: int, dev: Device) returns (err: int)
    modifies buf, dev`trace
    ensures Outcome(err, dev.trace) == InterpBuffer(old(buf[..]), time, dev.world, old(dev.trace))
  {
    hide Interp, ParseTree, Within;
    if buf.Length < HEADER_SIZE {
      dev.Log([Said("invalid")]);
      return EINVAL;
    }
    assert buf[0..0 + HEADER_SIZE + (buf.Length - HEADER_SIZE)] == buf[..];
    err := HandleOnePayload(buf, 0, buf.Length - HEADER_SIZE, time, dev);
  }
}
