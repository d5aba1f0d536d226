/** From the setters of the Rust tool, through packing, signing and serving, to the calls that the
    device makes. */
module Delivery {
  import opened Bytes
  import opened Payload
  import opened Engine
  import opened EngineProperties
  import Commands
  import Composite
  import Expiry
  import ScriptArgs
  import Server

  // ----- setters -----

  /** `dp_set_command`: at most 15 characters, padded with NULs. */
  function SetCommand(p: Raw, command: seq<Byte>): Option<Raw> {
    var text := CString(command);
    if |text| >= COMMAND_SIZE then None
    else Some(p[..COMMAND_AT] + (text + Zeros(COMMAND_SIZE - |text|)) + p[COMMAND_AT + COMMAND_SIZE..])
  }

  /** `dp_set_data`: the size field, and the data in a reallocated payload. */
  function SetData(p: Raw, data: seq<Byte>): Option<Raw> {
    if |data| > DATA_MAX_SIZE then None
    else Some(p[..DATA_SIZE_AT] + BigEndian(|data|, 4) + data)
  }

  /** `dp_malloc_get_data`, which trusts the size field. */
  function GetData(p: Raw): Option<seq<Byte>>
    requires HEADER_SIZE + DataSize(p) <= |p|
  {
    if DataSize(p) > DATA_MAX_SIZE then None
    else if DataSize(p) == 0 then Some([])
    else Some(p[HEADER_SIZE..HEADER_SIZE + DataSize(p)])
  }

  /** Setting data gives a payload whose size checks out and whose data reads back, and leaves the
      other fields alone. */
  lemma SetGetData(p: Raw, data: seq<Byte>)
    ensures SetData(p, data).Some? <==> |data| <= DATA_MAX_SIZE
    ensures SetData(p, data).Some? ==>
      var q := SetData(p, data).value;
      && ValidSize(q) && GetData(q) == Some(data) && Data(q) == data
      && ExpireField(q) == ExpireField(p) && CommandText(q) == CommandText(p)
  {
    hide BigEndian, FromBigEndian;
    if SetData(p, data).Some? {
      var q := SetData(p, data).value;
      Composite.Pow256s();
      BigEndianRoundTrip(|data|, 4);
      assert q[DATA_SIZE_AT..HEADER_SIZE] == BigEndian(|data|, 4);
      assert q[HEADER_SIZE..] == data;
      assert q[HEADER_SIZE..HEADER_SIZE + |data|] == q[HEADER_SIZE..];
      assert q[COMMAND_AT..COMMAND_AT + COMMAND_SIZE - 1] == p[COMMAND_AT..COMMAND_AT + COMMAND_SIZE - 1];
      assert q[EXPIRE_AT..COMMAND_AT] == p[EXPIRE_AT..COMMAND_AT];
    }
  }

  lemma PaddedCommand(text: seq<Byte>)
    requires |text| < COMMAND_SIZE && NulFree(text)
    ensures CString((text + Zeros(COMMAND_SIZE - |text|))[..COMMAND_SIZE - 1]) == text
  {
    var f := (text + Zeros(COMMAND_SIZE - |text|))[..COMMAND_SIZE - 1];
    assert f == text + Zeros(COMMAND_SIZE - 1 - |text|);
    assert forall i :: 0 <= i < |text| ==> f[i] == text[i];
    assert |text| < |f| ==> f[|text|] == NUL;
    assert NulAt(f, 0) == |text|;
  }

  /** A command of at most 15 characters reads back, and the other fields are left alone. */
  lemma SetGetCommand(p: Raw, text: seq<Byte>)
    requires NulFree(text)
    ensures SetCommand(p, text).Some? <==> |text| < COMMAND_SIZE
    ensures SetCommand(p, text).Some? ==>
      var q := SetCommand(p, text).value;
      CommandText(q) == text && ExpireField(q) == ExpireField(p) && ValidSize(q) == ValidSize(p) && Data(q) == Data(p)
  {
    assert NulAt(text, 0) == |text|;
    assert CString(text) == text;
    if |text| < COMMAND_SIZE {
      PaddedCommand(text);
      hide CString, FromBigEndian;
      var field := text + Zeros(COMMAND_SIZE - |text|);
      var q := SetCommand(p, text).value;
      assert q[COMMAND_AT..COMMAND_AT + COMMAND_SIZE - 1] == field[..COMMAND_SIZE - 1];
      assert q[EXPIRE_AT..COMMAND_AT] == p[EXPIRE_AT..COMMAND_AT];
      assert q[DATA_SIZE_AT..HEADER_SIZE] == p[DATA_SIZE_AT..HEADER_SIZE];
      assert q[HEADER_SIZE..] == p[HEADER_SIZE..];
    }
  }

  /** `command_firewall_allow`, `command_firewall_deny`, and the same for the third command with a list. */
  function FirewallPayload(p: Raw, command: string, apps: seq<seq<Byte>>): Option<Raw> {
    match SetCommand(p, Ascii(command))
    case None => None
    case Some(q) => SetData(q, ScriptArgs.StringListData(apps))
  }

  /** The firewall commands that take a list, and the verb each one passes to the script. */
  predicate IsListCommand(name: string, verb: string) {
    || (name == "fw-allow" && verb == "allow")
    || (name == "fw-deny" && verb == "deny")
    || (name == "fw-tmp-add" && verb == "allow-temp")
  }

  lemma ListNames(name: string, verb: string)
    requires IsListCommand(name, verb)
    ensures NulFree(Ascii(name)) && |Ascii(name)| < COMMAND_SIZE
  {
  }

  lemma ListCommand(name: string, verb: string)
    requires IsListCommand(name, verb)
    ensures ScriptOf(CommandOf(Ascii(name))) == Some(("/system/bin/dumbos-firewallctl.sh", verb))
  {
    hide CommandOf, Ascii;
    Commands.ShortNames();
    Commands.TenLetterNames();
  }

  /** The list that an administrator sets arrives at the firewall script as its arguments exactly
      when it can be written as a list at all. */
  lemma FirewallListArrives(p: Raw, apps: seq<seq<Byte>>, name: string, verb: string)
    requires IsListCommand(name, verb)
    ensures var q := FirewallPayload(p, name, apps);
      && (q.Some? <==> |ScriptArgs.StringListData(apps)| <= DATA_MAX_SIZE)
      && (q.Some? ==> ValidSize(q.value) && CommandText(q.value) == Ascii(name))
      && (q.Some? ==> (LeafCalls(q.value) == [Script("/system/bin/dumbos-firewallctl.sh", verb, apps)] <==>
                       ScriptArgs.Listable(apps)))
  {
    hide SetCommand, SetData, CString, CommandText, ScriptArgs.Parse, ScriptArgs.StringListData, CommandOf, ValidSize,
         Ascii, IsListCommand;
    ListNames(name, verb);
    ListCommand(name, verb);
    SetGetCommand(p, Ascii(name));
    var q := SetCommand(p, Ascii(name)).value;
    SetGetData(q, ScriptArgs.StringListData(apps));
    ScriptArgs.StringListRoundTrip(apps);
  }

  // ----- a served tree on the device -----

  /** The Rust server sent `p` at some time, and its deadline is after `time`. */
  ghost predicate Served(p: Raw, s: Scheme, time: int) {
    && (exists file, c :: ServedFrom(p, s, file, c))
    && (Expiry.GetExpire(ExpireField(p)) == 0 || time < Expiry.GetExpire(ExpireField(p)))
  }

  ghost predicate ServedFrom(p: Raw, s: Scheme, file: seq<Byte>, c: Server.Clock) {
    0 <= c.later && Server.ServePayload(file, c, s) == Some(p)
  }

  /** Every payload of the tree was served and is in time, every frame is well formed, and every
      command is known and does not fail by itself. */
  ghost predicate Delivered(t: Tree, s: Scheme, time: int) {
    && Served(t.raw, s, time)
    && var c := CommandOf(CommandText(t.raw));
       if c.Composite? then FramesDelivered(t.nested, s, time)
       else !c.Unknown? && (ActionOf(c, Data(t.raw)).Return? && !c.Ok? ==> ActionOf(c, Data(t.raw)).err == 0)
  }

  ghost predicate FramesDelivered(fs: Frames, s: Scheme, time: int) {
    match fs
    case End => true
    case Malformed => false
    case Frame(first, rest) => Delivered(first, s, time) && FramesDelivered(rest, s, time)
  }

  lemma ServedAdmitted(p: Raw, s: Scheme, time: int, clock: int)
    requires Correct(s) && Served(p, s, time)
    ensures Admit(p, clock, time, s.verify) == Admitted
  {
    hide Server.ServePayload, Admit, Expiry.GetExpire;
    var file, c :| ServedFrom(p, s, file, c);
    Server.ServedIsAdmitted(file, c, s, clock, time);
  }

  lemma {:induction false} DeliveredIsReady(t: Tree, s: Scheme, time: int, w: World)
    requires Correct(s) && w.verify == s.verify && Delivered(t, s, time)
    ensures Ready(t, time, w)
  {
    hide Served, Admit, CommandOf, CommandText, ActionOf;
    forall now
      ensures Admit(t.raw, now, time, w.verify) == Admitted
    {
      ServedAdmitted(t.raw, s, time, now);
    }
    if CommandOf(CommandText(t.raw)).Composite? {
      FramesDeliveredAreReady(t.nested, s, time, w);
    }
  }

  lemma {:induction false} FramesDeliveredAreReady(fs: Frames, s: Scheme, time: int, w: World)
    requires Correct(s) && w.verify == s.verify && FramesDelivered(fs, s, time)
    ensures FramesReady(fs, time, w)
  {
    hide Delivered, Ready;
    if fs.Frame? {
      DeliveredIsReady(fs.first, s, time, w);
      FramesDeliveredAreReady(fs.rest, s, time, w);
    }
  }

  /** End to end, at any depth of nesting, for any device clock and whatever the calls answer: a payload
      whose whole tree was served and is in time makes exactly the tree's calls, in depth-first order, up
      to and including the first one that fails, and returns what that one answered, or 0. */
  lemma DeliveredRuns(bytes: Raw, s: Scheme, time: int, w: World, code: Codes)
    requires Correct(s) && w.verify == s.verify && Delivered(ParseTree(bytes), s, time)
    requires forall call :: call in Calls(ParseTree(bytes)) ==> Answers(w, call, code)
    ensures var o, calls := InterpBuffer(bytes, time, w, []), Calls(ParseTree(bytes));
      CallsOf(o.trace) == Executed([], calls, code) && o.err == Failure([], calls, code)
  {
    hide Delivered, Ready, Interp, Calls, ParseTree, Answers, Executed, Failure;
    DeliveredIsReady(ParseTree(bytes), s, time, w);
    ReadyRuns(ParseTree(bytes), time, w, [], code);
    NoCallsYet();
    var executed := Executed([], Calls(ParseTree(bytes)), code);
    assert [] + executed == executed;
  }

  lemma NoCallsYet()
    ensures CallsOf([]) == []
  {
  }

  /** The calls of a packed composite are the calls of its payloads, one after the other. */
  function PackedCalls(ps: seq<Raw>): seq<Call> {
    if ps == [] then [] else Calls(ParseTree(ps[0])) + PackedCalls(ps[1..])
  }

  lemma {:induction false} FramesCallsArePacked(d: seq<Byte>, offset: nat, count: nat, ps: seq<Raw>)
    requires 2 <= offset <= |d|
    requires Composite.Walked(ParseFrames(d, offset, count)) == ps
    ensures FramesCalls(ParseFrames(d, offset, count)) == PackedCalls(ps)
    decreases count
  {
    hide ParseTree, FromBigEndian, Calls;
    var fs := ParseFrames(d, offset, count);
    if fs.Frame? {
      var size := FromBigEndian(d[offset..offset + 4]);
      assert fs.first == ParseTree(fs.first.raw);
      assert ps[0] == fs.first.raw && ps[1..] == Composite.Walked(fs.rest);
      FramesCallsArePacked(d, offset + 4 + size, count - 1, ps[1..]);
    }
  }

  /** What the device runs for a composite is what the server tool packed into it. */
  lemma PackedRuns(bytes: Raw, ps: seq<Raw>)
    requires CommandOf(CommandText(bytes)).Composite? && Data(bytes) == Composite.Pack(ps)
    requires |ps| <= 65535 && forall i :: 0 <= i < |ps| ==> Composite.Framable(ps[i])
    ensures Calls(ParseTree(bytes)) == PackedCalls(ps)
  {
    hide CommandOf, CommandText, Composite.PackFrames, BigEndian, FromBigEndian, ParseFrames, FramesCalls, PackedCalls;
    Composite.PackWalkIff(ps);
    var d := Data(bytes);
    assert ParseComposite(d) == ParseFrames(d, 2, FromBigEndian(d[..2]));
    FramesCallsArePacked(d, 2, FromBigEndian(d[..2]), ps);
  }
}
