/** The payload engine: an interpreter over a tree of commands, and the machine that works on one
    mutable buffer and refines it. */
module Engine {
  import opened Bytes
  import opened Errno
  import opened Payload
  import Expiry
  import ScriptArgs

  // ----- commands -----

  datatype Command =
    | Ok | InstallThis | InstallPath | FileExport | FileImport
    | AdbEnable | AdbDisable | WifiEnable | WifiDisable | OemUnlock | OemLock
    | Composite
    | FwAllow | FwDeny | FwTempAdd | FwFlush | SingboxAdd | SingboxRemove
    | Unknown

  function CommandOf(text: seq<Byte>): Command {
    if text == Ascii("ok") then Ok
    else if text == Ascii("install-this") then InstallThis
    else if text == Ascii("install-path") then InstallPath
    else if text == Ascii("export-files") then FileExport
    else if text == Ascii("import-files") then FileImport
    else if text == Ascii("adb-enable") then AdbEnable
    else if text == Ascii("adb-disable") then AdbDisable
    else if text == Ascii("wifi-enable") then WifiEnable
    else if text == Ascii("wifi-disable") then WifiDisable
    else if text == Ascii("oem-unlock") then OemUnlock
    else if text == Ascii("oem-lock") then OemLock
    else if text == Ascii("composite") then Composite
    else if text == Ascii("fw-allow") then FwAllow
    else if text == Ascii("fw-deny") then FwDeny
    else if text == Ascii("fw-tmp-add") then FwTempAdd
    else if text == Ascii("fw-flush") then FwFlush
    else if text == Ascii("singboxadd") then SingboxAdd
    else if text == Ascii("singboxdel") then SingboxRemove
    else Unknown
  }

  /** A call out of the engine: a setting, the files, the firewall, an application, or a script. */
  datatype Call =
    | SetAdb(enabled: bool) | SetWifi(enabled: bool) | SetOemLock(locked: bool)
    | ExportFiles | ImportFiles | FlushFirewall
    | InstallApk(apk: seq<Byte>)
    | Script(path: string, verb: string, args: seq<seq<Byte>>)

  /** What a command other than "ok" and "composite" does: return at once, or call out. */
  datatype Action = Return(err: int) | Run(call: Call)

  const FIREWALLCTL := "/system/bin/dumbos-firewallctl.sh"
  const SINGBOX := "/system/bin/sing-box-wrapper.sh"

  function ScriptAction(path: string, verb: string, data: seq<Byte>): Action {
    match ScriptArgs.Parse(data)
    case Nothing(err) => Return(err)
    case Strings(list) => Run(Script(path, verb, list))
  }

  /** The script and the verb of a command that runs one. */
  function ScriptOf(c: Command): Option<(string, string)> {
    match c
    case FwAllow => Some((FIREWALLCTL, "allow"))
    case FwDeny => Some((FIREWALLCTL, "deny"))
    case FwTempAdd => Some((FIREWALLCTL, "allow-temp"))
    case SingboxAdd => Some((SINGBOX, "add"))
    case SingboxRemove => Some((SINGBOX, "del"))
    case _ => None
  }

  function ActionOf(c: Command, data: seq<Byte>): Action {
    match ScriptOf(c)
    case Some(script) => ScriptAction(script.0, script.1, data)
    case None =>
      match c
      case InstallThis => Run(InstallApk(data))
      case FileExport => Run(ExportFiles)
      case FileImport => Run(ImportFiles)
      case AdbEnable => Run(SetAdb(true))
      case AdbDisable => Run(SetAdb(false))
      case WifiEnable => Run(SetWifi(true))
      case WifiDisable => Run(SetWifi(false))
      case OemUnlock => Run(SetOemLock(false))
      case OemLock => Run(SetOemLock(true))
      case FwFlush => Run(FlushFirewall)
      case _ => Return(ENOSYS)
  }

  // ----- the tree -----

  /** A received payload together with the payloads nested in it. */
  datatype Tree = Tree(raw: Raw, nested: Frames)

  /** The frames of a composite, up to the first one that is not well formed. */
  datatype Frames = End | Malformed | Frame(first: Tree, rest: Frames)

  function ParseTree(p: Raw): (t: Tree)
    ensures t.raw == p
    decreases |p|, 0
  {
    Tree(p, if CommandOf(CommandText(p)).Composite? then ParseComposite(Data(p)) else End)
  }

  function ParseComposite(d: seq<Byte>): Frames
    decreases |d|, 0x1_0000
  {
    if |d| < 2 then Malformed else
      FromBigEndianBound(d[..2]);
      assert Pow256(2) == 0x1_0000;
      ParseFrames(d, 2, FromBigEndian(d[..2]))
  }

  function ParseFrames(d: seq<Byte>, offset: nat, count: nat): Frames
    requires 2 <= offset <= |d|
    decreases |d|, count
  {
    if count == 0 then End
    else if offset + 4 > |d| then Malformed
    else
      var body, size := offset + 4, FromBigEndian(d[offset..offset + 4]);
      if body + size > |d| || size < HEADER_SIZE then Malformed
      else Frame(ParseTree(d[body..body + size]), ParseFrames(d, body + size, count - 1))
  }

  // ----- the interpreter -----

  datatype Event =
    | Said(text: string)           // a message to the client
    | SaidCommand(name: seq<Byte>) // a command name to the client
    | Ran(call: Call)

  /** Everything outside the engine: the device clock and the result of the last call, each as a
      function of what has happened so far, and signature verification. */
  datatype World = World(
    clock: seq<Event> -> int,
    outcome: seq<Event> -> int,
    verify: (seq<Byte>, seq<Byte>) -> int)

  datatype Outcome = Outcome(err: int, trace: seq<Event>)

  function Invoke(call: Call, w: World, trace: seq<Event>): Outcome {
    Outcome(w.outcome(trace + [Ran(call)]), trace + [Ran(call)])
  }

  function InterpLeaf(text: seq<Byte>, data: seq<Byte>, w: World, trace: seq<Event>): Outcome {
    var c := CommandOf(text);
    if c.Ok? then Outcome(0, trace + [Said("ok")])
    else if c.Unknown? then Outcome(ENOSYS, trace + [Said("unknown command:"), SaidCommand(text)])
    else
      match ActionOf(c, data)
      case Return(err) => Outcome(err, trace)
      case Run(call) => Invoke(call, w, trace)
  }

  function Greeting(text: seq<Byte>): seq<Event> {
    [Said("loading..."), Said("command is"), SaidCommand(text)]
  }

  /** Expiry, signature, command: a payload runs its command only after both checks. */
  function Interp(t: Tree, time: int, w: World, trace: seq<Event>): Outcome {
    match Admit(t.raw, w.clock(trace), time, w.verify)
    case Expired => Outcome(EKEYEXPIRED, trace + [Said("code expired")])
    case BadSignature(err) => Outcome(err, trace + [Said("invalid signature")])
    case Admitted =>
      var text := CommandText(t.raw);
      if CommandOf(text).Composite? then InterpFrames(t.nested, time, w, trace + Greeting(text))
      else InterpLeaf(text, Data(t.raw), w, trace + Greeting(text))
  }

  /** Left to right, depth first, up to the first failure. */
  function InterpFrames(fs: Frames, time: int, w: World, trace: seq<Event>): Outcome {
    match fs
    case End => Outcome(0, trace)
    case Malformed => Outcome(EINVAL, trace + [Said("invalid")])
    case Frame(first, rest) =>
      var o := Interp(first, time, w, trace);
      if o.err != 0 then Outcome(o.err, o.trace + [Said("something went wrong")])
      else InterpFrames(rest, time, w, o.trace)
  }

  /** A downloaded buffer as `secret_code` takes it: anything shorter than a header is refused. */
  function InterpBuffer(bytes: seq<Byte>, time: int, w: World, trace: seq<Event>): Outcome {
    if |bytes| < HEADER_SIZE then Outcome(EINVAL, trace + [Said("invalid")])
    else Interp(ParseTree(bytes), time, w, trace)
  }
}
