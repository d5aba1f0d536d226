/** What each command name makes the engine do, in terms of the outcome of a run. */
module Commands {
  import opened Bytes
  import opened Payload
  import opened Engine
  import opened EngineProperties
  import ScriptArgs

  /** On `p`, when it is genuine, a run greets, makes this one call, and returns what it answers. */
  ghost predicate JustCalls(p: Raw, call: Call) {
    forall time, w: World, trace :: Genuine(p, w.clock(trace), time, w) ==> CallsAt(p, call, time, w, trace)
  }

  ghost predicate CallsAt(p: Raw, call: Call, time: int, w: World, trace: seq<Event>) {
    var h := trace + [Said("loading..."), Said("command is"), SaidCommand(CommandText(p)), Ran(call)];
    Interp(ParseTree(p), time, w, trace) == Outcome(w.outcome(h), h)
  }

  /** On `p`, when it is genuine, a run greets, says `more`, and returns `err` without a call. */
  ghost predicate JustSays(p: Raw, more: seq<Event>, err: int) {
    forall time, w: World, trace :: Genuine(p, w.clock(trace), time, w) ==> SaysAt(p, more, err, time, w, trace)
  }

  ghost predicate SaysAt(p: Raw, more: seq<Event>, err: int, time: int, w: World, trace: seq<Event>) {
    var h := trace + ([Said("loading..."), Said("command is"), SaidCommand(CommandText(p))] + more);
    Interp(ParseTree(p), time, w, trace) == Outcome(err, h)
  }

  lemma LeafOutcome(p: Raw, time: int, w: World, trace: seq<Event>)
    requires !CommandOf(CommandText(p)).Composite? && Genuine(p, w.clock(trace), time, w)
    ensures Interp(ParseTree(p), time, w, trace) ==
            InterpLeaf(CommandText(p), Data(p), w, trace + Greeting(CommandText(p)))
  {
    hide CommandOf, CommandText, Admit, Settled, InTime, WellSized, SignatureAnswer, InterpLeaf;
    AdmittedIff(p, w.clock(trace), time, w);
  }

  lemma Calling(p: Raw, c: Command, call: Call)
    requires CommandOf(CommandText(p)) == c && !c.Composite? && !c.Ok? && !c.Unknown?
    requires ActionOf(c, Data(p)) == Run(call)
    ensures JustCalls(p, call)
  {
    hide CommandOf, CommandText, ActionOf, Genuine, Interp, ParseTree;
    forall time, w: World, trace | Genuine(p, w.clock(trace), time, w)
      ensures CallsAt(p, call, time, w, trace)
    {
      LeafOutcome(p, time, w, trace);
      var text := CommandText(p);
      assert trace + Greeting(text) + [Ran(call)] ==
             trace + [Said("loading..."), Said("command is"), SaidCommand(text), Ran(call)];
    }
  }

  lemma Saying(p: Raw, c: Command, more: seq<Event>, err: int)
    requires CommandOf(CommandText(p)) == c && !c.Composite?
    requires forall w, h :: InterpLeaf(CommandText(p), Data(p), w, h) == Outcome(err, h + more)
    ensures JustSays(p, more, err)
  {
    hide CommandOf, CommandText, InterpLeaf, Genuine, Interp, ParseTree;
    forall time, w: World, trace | Genuine(p, w.clock(trace), time, w)
      ensures SaysAt(p, more, err, time, w, trace)
    {
      LeafOutcome(p, time, w, trace);
      var g := Greeting(CommandText(p));
      assert trace + g + more == trace + (g + more);
    }
  }

  // ----- the names -----

  lemma ShortNames()
    ensures CommandOf(Ascii("ok")).Ok? && CommandOf(Ascii("composite")).Composite?
    ensures CommandOf(Ascii("oem-lock")).OemLock? && CommandOf(Ascii("fw-allow")).FwAllow?
    ensures CommandOf(Ascii("fw-flush")).FwFlush? && CommandOf(Ascii("fw-deny")).FwDeny?
  {
    assert Ascii("oem-lock")[3] == 45 && Ascii("fw-allow")[3] == 97 && Ascii("fw-flush")[3] == 102;
  }

  lemma TenLetterNames()
    ensures CommandOf(Ascii("adb-enable")).AdbEnable? && CommandOf(Ascii("oem-unlock")).OemUnlock?
    ensures CommandOf(Ascii("fw-tmp-add")).FwTempAdd?
  {
    assert Ascii("adb-enable")[0] == 97 && Ascii("oem-unlock")[0] == 111 && Ascii("fw-tmp-add")[0] == 102;
  }

  lemma ProxyNames()
    ensures CommandOf(Ascii("singboxadd")).SingboxAdd? && CommandOf(Ascii("singboxdel")).SingboxRemove?
  {
    assert Ascii("adb-enable")[0] == 97 && Ascii("oem-unlock")[0] == 111 && Ascii("fw-tmp-add")[0] == 102;
    assert Ascii("singboxadd")[0] == Ascii("singboxdel")[0] == 115;
    assert Ascii("singboxadd")[7] == 97 && Ascii("singboxdel")[7] == 100;
  }

  lemma LongNames()
    ensures CommandOf(Ascii("adb-disable")).AdbDisable? && CommandOf(Ascii("wifi-enable")).WifiEnable?
    ensures CommandOf(Ascii("export-files")).FileExport? && CommandOf(Ascii("import-files")).FileImport?
    ensures CommandOf(Ascii("wifi-disable")).WifiDisable?
    ensures CommandOf(Ascii("install-this")).InstallThis? && CommandOf(Ascii("install-path")).InstallPath?
  {
    assert Ascii("adb-disable")[0] == 97 && Ascii("wifi-enable")[0] == 119;
    assert Ascii("export-files")[1] == 120 && Ascii("import-files")[1] == 109 && Ascii("wifi-disable")[1] == 105;
    assert Ascii("install-this")[1] == Ascii("install-path")[1] == 110;
    assert Ascii("install-this")[8] == 116 && Ascii("install-path")[8] == 112;
  }

  // ----- settings, files, applications -----

  lemma AdbCommands(p: Raw)
    ensures CommandText(p) == Ascii("adb-enable") ==> JustCalls(p, SetAdb(true))
    ensures CommandText(p) == Ascii("adb-disable") ==> JustCalls(p, SetAdb(false))
  {
    hide CommandOf, CommandText, JustCalls, Ascii;
    TenLetterNames();
    LongNames();
    if CommandText(p) == Ascii("adb-enable") {
      Calling(p, AdbEnable, SetAdb(true));
    }
    if CommandText(p) == Ascii("adb-disable") {
      Calling(p, AdbDisable, SetAdb(false));
    }
  }

  lemma WifiCommands(p: Raw)
    ensures CommandText(p) == Ascii("wifi-enable") ==> JustCalls(p, SetWifi(true))
    ensures CommandText(p) == Ascii("wifi-disable") ==> JustCalls(p, SetWifi(false))
  {
    hide CommandOf, CommandText, JustCalls, Ascii;
    LongNames();
    if CommandText(p) == Ascii("wifi-enable") {
      Calling(p, WifiEnable, SetWifi(true));
    }
    if CommandText(p) == Ascii("wifi-disable") {
      Calling(p, WifiDisable, SetWifi(false));
    }
  }

  lemma OemCommands(p: Raw)
    ensures CommandText(p) == Ascii("oem-unlock") ==> JustCalls(p, SetOemLock(false))
    ensures CommandText(p) == Ascii("oem-lock") ==> JustCalls(p, SetOemLock(true))
  {
    hide CommandOf, CommandText, JustCalls, Ascii;
    ShortNames();
    TenLetterNames();
    if CommandText(p) == Ascii("oem-unlock") {
      Calling(p, OemUnlock, SetOemLock(false));
    }
    if CommandText(p) == Ascii("oem-lock") {
      Calling(p, OemLock, SetOemLock(true));
    }
  }

  lemma FileCommands(p: Raw)
    ensures CommandText(p) == Ascii("export-files") ==> JustCalls(p, ExportFiles)
    ensures CommandText(p) == Ascii("import-files") ==> JustCalls(p, ImportFiles)
  {
    hide CommandOf, CommandText, JustCalls, Ascii;
    LongNames();
    if CommandText(p) == Ascii("export-files") {
      Calling(p, FileExport, ExportFiles);
    }
    if CommandText(p) == Ascii("import-files") {
      Calling(p, FileImport, ImportFiles);
    }
  }

  lemma InstallCommands(p: Raw)
    ensures CommandText(p) == Ascii("install-this") ==> JustCalls(p, InstallApk(p[168..]))
    ensures CommandText(p) == Ascii("install-path") ==> JustSays(p, [], 38)
  {
    hide CommandOf, CommandText, JustCalls, JustSays, Ascii;
    LongNames();
    if CommandText(p) == Ascii("install-this") {
      Calling(p, InstallThis, InstallApk(p[168..]));
    }
    if CommandText(p) == Ascii("install-path") {
      PathLeaf(p);
      Saying(p, InstallPath, [], 38);
    }
  }

  lemma PathLeaf(p: Raw)
    requires CommandOf(CommandText(p)).InstallPath?
    ensures forall w, h :: InterpLeaf(CommandText(p), Data(p), w, h) == Outcome(38, h + [])
  {
    hide CommandOf, CommandText;
    assert forall h: seq<Event> :: h + [] == h;
  }

  lemma OkCommand(p: Raw)
    ensures CommandText(p) == Ascii("ok") ==> JustSays(p, [Said("ok")], 0)
  {
    hide CommandOf, CommandText, JustSays, Ascii;
    ShortNames();
    if CommandText(p) == Ascii("ok") {
      Saying(p, Ok, [Said("ok")], 0);
    }
  }

  /** The names of the commands that the device knows. */
  ghost predicate IsName(text: seq<Byte>) {
    || text == Ascii("ok") || text == Ascii("install-this") || text == Ascii("install-path")
    || text == Ascii("export-files") || text == Ascii("import-files")
    || text == Ascii("adb-enable") || text == Ascii("adb-disable")
    || text == Ascii("wifi-enable") || text == Ascii("wifi-disable")
    || text == Ascii("oem-unlock") || text == Ascii("oem-lock") || text == Ascii("composite")
    || text == Ascii("fw-allow") || text == Ascii("fw-deny") || text == Ascii("fw-tmp-add") || text == Ascii("fw-flush")
    || text == Ascii("singboxadd") || text == Ascii("singboxdel")
  }

  lemma UnknownCommand(p: Raw)
    ensures !IsName(CommandText(p)) ==>
              JustSays(p, [Said("unknown command:"), SaidCommand(CommandText(p))], 38)
  {
    hide CommandText, JustSays, Ascii;
    if !IsName(CommandText(p)) {
      UnknownLeaf(p);
      Saying(p, Unknown, [Said("unknown command:"), SaidCommand(CommandText(p))], 38);
    }
  }

  lemma UnknownLeaf(p: Raw)
    requires CommandOf(CommandText(p)).Unknown?
    ensures forall w, h :: InterpLeaf(CommandText(p), Data(p), w, h) ==
                           Outcome(38, h + [Said("unknown command:"), SaidCommand(CommandText(p))])
  {
    hide CommandOf, CommandText;
  }

  // ----- the firewall and the proxy -----

  lemma FlushCommand(p: Raw)
    ensures CommandText(p) == Ascii("fw-flush") ==> JustCalls(p, FlushFirewall)
  {
    hide CommandOf, CommandText, JustCalls, Ascii;
    ShortNames();
    if CommandText(p) == Ascii("fw-flush") {
      Calling(p, FwFlush, FlushFirewall);
    }
  }

  /** A command that runs a script: without data it does nothing, with a single byte or with an empty
      first string it fails, and otherwise it runs the script with the strings of its data. */
  ghost predicate RunsScript(p: Raw, path: string, verb: string) {
    && (p[168..] == [] ==> JustSays(p, [], 0))
    && (|p[168..]| == 1 || (p[168..] != [] && p[168] == 0) ==> JustSays(p, [], 22))
    && (|p[168..]| > 1 && p[168] != 0 ==>
          JustCalls(p, Script(path, verb, ScriptArgs.Split(p[168..|p| - 1], 0))))
  }

  lemma Scripting(p: Raw, c: Command, path: string, verb: string)
    requires CommandOf(CommandText(p)) == c && ScriptOf(c) == Some((path, verb))
    ensures RunsScript(p, path, verb)
  {
    hide CommandOf, CommandText, JustCalls, JustSays, ScriptArgs.Split;
    var d := p[168..];
    assert d == Data(p);
    if |d| > 1 && p[168] != 0 {
      assert d[..|d| - 1] == p[168..|p| - 1];
      Calling(p, c, Script(path, verb, ScriptArgs.Split(p[168..|p| - 1], 0)));
    } else {
      var err := if d == [] then 0 else 22;
      ScriptLeaf(p, c, err);
      Saying(p, c, [], err);
    }
  }

  lemma ScriptLeaf(p: Raw, c: Command, err: int)
    requires CommandOf(CommandText(p)) == c && ScriptOf(c).Some? && ScriptArgs.Parse(Data(p)) == ScriptArgs.Nothing(err)
    ensures forall w, h :: InterpLeaf(CommandText(p), Data(p), w, h) == Outcome(err, h + [])
  {
    hide CommandOf, CommandText, ScriptArgs.Parse;
    assert forall h: seq<Event> :: h + [] == h;
  }

  lemma FirewallScriptCommands(p: Raw)
    ensures CommandText(p) == Ascii("fw-allow") ==> RunsScript(p, "/system/bin/dumbos-firewallctl.sh", "allow")
    ensures CommandText(p) == Ascii("fw-deny") ==> RunsScript(p, "/system/bin/dumbos-firewallctl.sh", "deny")
    ensures CommandText(p) == Ascii("fw-tmp-add") ==> RunsScript(p, "/system/bin/dumbos-firewallctl.sh", "allow-temp")
  {
    hide CommandOf, CommandText, RunsScript, Ascii;
    ShortNames();
    TenLetterNames();
    if CommandText(p) == Ascii("fw-allow") {
      Scripting(p, FwAllow, FIREWALLCTL, "allow");
    }
    if CommandText(p) == Ascii("fw-deny") {
      Scripting(p, FwDeny, FIREWALLCTL, "deny");
    }
    if CommandText(p) == Ascii("fw-tmp-add") {
      Scripting(p, FwTempAdd, FIREWALLCTL, "allow-temp");
    }
  }

  lemma ProxyCommands(p: Raw)
    ensures CommandText(p) == Ascii("singboxadd") ==> RunsScript(p, "/system/bin/sing-box-wrapper.sh", "add")
    ensures CommandText(p) == Ascii("singboxdel") ==> RunsScript(p, "/system/bin/sing-box-wrapper.sh", "del")
  {
    hide CommandOf, CommandText, RunsScript, Ascii;
    ProxyNames();
    if CommandText(p) == Ascii("singboxadd") {
      Scripting(p, SingboxAdd, SINGBOX, "add");
    }
    if CommandText(p) == Ascii("singboxdel") {
      Scripting(p, SingboxRemove, SINGBOX, "del");
    }
  }

  /** A composite goes on with the frames of its data, in the interpreter of frames. */
  lemma CompositeCommand(p: Raw, time: int, w: World, trace: seq<Event>)
    requires CommandText(p) == Ascii("composite") && Genuine(p, w.clock(trace), time, w)
    ensures Interp(ParseTree(p), time, w, trace) ==
            InterpFrames(ParseComposite(p[168..]), time, w,
                         trace + [Said("loading..."), Said("command is"), SaidCommand(CommandText(p))])
  {
    hide CommandOf, CommandText, Admit, Settled, InTime, WellSized, SignatureAnswer, InterpFrames, ParseComposite,
         Ascii;
    ShortNames();
    AdmittedIff(p, w.clock(trace), time, w);
  }
}
