/** The firewall lists that an administrator asks for, all the way to the packets of the device. */
module Administration {
  import opened Bytes
  import opened Payload
  import opened Engine
  import opened EngineProperties
  import Composite
  import Delivery
  import Firewall
  import Runs = FirewallRuns
  import Control = FirewallControl
  import ScriptArgs
  import Scripts = FirewallScripts
  import Server

  /** A list of applications to allow, to deny, or to allow temporarily. */
  datatype Order = Order(verb: Control.Verb, apps: seq<Firewall.Name>)

  /** The command that carries the order to the device. */
  function CommandFor(verb: Control.Verb): string {
    match verb
    case ALLOW => "fw-allow"
    case DENY => "fw-deny"
    case ALLOW_TEMP => "fw-tmp-add"
  }

  function ScriptVerb(verb: Control.Verb): string {
    match verb
    case ALLOW => "allow"
    case DENY => "deny"
    case ALLOW_TEMP => "allow-temp"
  }

  /** The call of the firewall script that carries the order out. */
  function CallOf(o: Order): Call {
    Script("/system/bin/dumbos-firewallctl.sh", ScriptVerb(o.verb), o.apps)
  }

  /** `p` is what the Rust server sends for a payload set up with the order. */
  ghost predicate Carries(p: Raw, o: Order, s: Scheme) {
    exists base: Raw, c: Server.Clock :: CarriesFrom(p, o, s, base, c)
  }

  ghost predicate CarriesFrom(p: Raw, o: Order, s: Scheme, base: Raw, c: Server.Clock) {
    var payload := Delivery.FirewallPayload(base, CommandFor(o.verb), o.apps);
    payload.Some? && Server.ServePayload(payload.value, c, s) == Some(p)
  }

  lemma CarriedCall(p: Raw, o: Order, s: Scheme)
    requires Correct(s) && Carries(p, o, s) && ScriptArgs.Listable(o.apps)
    ensures Calls(ParseTree(p)) == [CallOf(o)]
  {
    hide Server.ServePayload, Delivery.FirewallPayload, CommandText, CommandOf, ScriptArgs.Listable, Ascii;
    var base: Raw, c: Server.Clock :| CarriesFrom(p, o, s, base, c);
    var q := Delivery.FirewallPayload(base, CommandFor(o.verb), o.apps).value;
    Delivery.FirewallListArrives(base, o.apps, CommandFor(o.verb), ScriptVerb(o.verb));
    Delivery.ListCommand(CommandFor(o.verb), ScriptVerb(o.verb));
    Server.ServedParts(q, c, s);
  }

  // ----- calls as firewall commands -----

  /** What a call of the engine does to the firewall, with the package table of its moment. */
  function OpsOfCall(call: Call, table: Firewall.Table): seq<Runs.Op> {
    match call
    case Script(path, verb, args) =>
      if path != FIREWALLCTL then []
      else if verb == "allow" then [Runs.Change(Control.ALLOW, args, table)]
      else if verb == "deny" then [Runs.Change(Control.DENY, args, table)]
      else if verb == "allow-temp" then [Runs.Change(Control.ALLOW_TEMP, args, table)]
      else []
    case FlushFirewall => [Runs.Clear(table)]
    case InstallApk(_) => [Runs.Refresh(table)]
    case _ => []
  }

  function OpsOf(calls: seq<Call>, table: Firewall.Table): seq<Runs.Op> {
    if calls == [] then [] else OpsOfCall(calls[0], table) + OpsOf(calls[1..], table)
  }

  /** The commands that were asked for. */
  function Asked(orders: seq<Order>, table: Firewall.Table): seq<Runs.Op> {
    if orders == [] then [] else
      [Runs.Change(orders[0].verb, orders[0].apps, table)] + Asked(orders[1..], table)
  }

  function CallsOfOrders(orders: seq<Order>): seq<Call> {
    if orders == [] then [] else [CallOf(orders[0])] + CallsOfOrders(orders[1..])
  }

  lemma {:induction false} OpsOfOrders(orders: seq<Order>, table: Firewall.Table)
    ensures OpsOf(CallsOfOrders(orders), table) == Asked(orders, table)
  {
    if orders != [] {
      var rest := CallsOfOrders(orders[1..]);
      assert ([CallOf(orders[0])] + rest)[1..] == rest;
      OpsOfOrders(orders[1..], table);
    }
  }

  lemma {:induction false} PackedOrders(ps: seq<Raw>, orders: seq<Order>, s: Scheme)
    requires Correct(s) && |ps| == |orders|
    requires forall i :: 0 <= i < |ps| ==> Carries(ps[i], orders[i], s) && ScriptArgs.Listable(orders[i].apps)
    ensures Delivery.PackedCalls(ps) == CallsOfOrders(orders)
  {
    hide Carries, ScriptArgs.Listable, Calls, ParseTree, CallOf;
    if ps != [] {
      CarriedCall(ps[0], orders[0], s);
      PackedOrders(ps[1..], orders[1..], s);
    }
  }

  // ----- orders that fail -----

  /** Whether every name of the order is a package name, and installed if it is a temporary order. */
  predicate Valid(o: Order, table: Firewall.Table) {
    forall n :: n in o.apps ==> Control.PackageName(n) && (o.verb == Control.ALLOW_TEMP ==> n in table)
  }

  /** The orders up to and including the first one that is not valid: the composite stops there, after
      the controller has processed the other names of that order too. */
  function Applied(orders: seq<Order>, table: Firewall.Table): seq<Order> {
    if orders == [] then []
    else if Valid(orders[0], table) then [orders[0]] + Applied(orders[1..], table)
    else [orders[0]]
  }

  lemma {:induction false} AppliedParts(orders: seq<Order>, table: Firewall.Table)
    ensures var applied := Applied(orders, table);
      && applied <= orders && (forall i :: 0 <= i < |applied| - 1 ==> Valid(applied[i], table))
      && (|applied| < |orders| ==> applied != [] && !Valid(applied[|applied| - 1], table))
  {
    hide Valid;
    if orders != [] && Valid(orders[0], table) {
      AppliedParts(orders[1..], table);
      var applied, rest := Applied(orders, table), Applied(orders[1..], table);
      assert forall i :: 0 < i < |applied| ==> applied[i] == rest[i - 1];
    }
  }

  /** The firewall script returns what the controller returns, whenever it is called with an order. */
  ghost predicate ScriptAnswers(w: World, table: Firewall.Table) {
    forall h, o: Order :: w.outcome(h + [Ran(CallOf(o))]) == Control.ReturnCode(o.verb, o.apps, table)
  }

  function ScriptCodes(table: Firewall.Table): Codes {
    (prior: seq<Call>, call: Call) =>
      if !call.Script? then 0
      else
        var verb := if call.verb == "deny" then Control.DENY
                    else if call.verb == "allow-temp" then Control.ALLOW_TEMP else Control.ALLOW;
        Control.ReturnCode(verb, call.args, table)
  }

  lemma OrderAnswers(w: World, table: Firewall.Table, o: Order)
    requires ScriptAnswers(w, table)
    ensures Answers(w, CallOf(o), ScriptCodes(table))
  {
    hide Control.ReturnCode;
  }

  lemma OrderCode(o: Order, prior: seq<Call>, table: Firewall.Table)
    requires o.apps != []
    ensures ScriptCodes(table)(prior, CallOf(o)) == if Valid(o, table) then 0 else 1
  {
    hide Control.PackageName, Control.ReturnCode;
    Runs.ReturnCodeIff(o.verb, o.apps, table);
  }

  lemma {:induction false} OrdersExecuted(orders: seq<Order>, prior: seq<Call>, table: Firewall.Table)
    requires forall i :: 0 <= i < |orders| ==> orders[i].apps != []
    ensures var calls, code := CallsOfOrders(orders), ScriptCodes(table);
      && Executed(prior, calls, code) == CallsOfOrders(Applied(orders, table))
      && (Failure(prior, calls, code) == if forall i :: 0 <= i < |orders| ==> Valid(orders[i], table) then 0 else 1)
    decreases |orders|
  {
    hide ScriptCodes, Valid, CallOf;
    if orders != [] {
      var rest, applied := CallsOfOrders(orders[1..]), Applied(orders[1..], table);
      OrderCode(orders[0], prior, table);
      assert ([CallOf(orders[0])] + rest)[1..] == rest;
      assert ([orders[0]] + applied)[1..] == applied;
      OrdersExecuted(orders[1..], prior + [CallOf(orders[0])], table);
      assert forall i :: 0 < i < |orders| ==> orders[i] == orders[1..][i - 1];
      assert forall i :: 0 <= i < |orders| - 1 ==> orders[1..][i] == orders[i + 1];
    }
  }

  lemma {:induction false} AskedEach(orders: seq<Order>, table: Firewall.Table, i: nat)
    requires i < |Asked(orders, table)|
    ensures |Asked(orders, table)| == |orders|
    ensures Asked(orders, table)[i] == Runs.Change(orders[i].verb, orders[i].apps, table)
  {
    AskedLength(orders, table);
    if i > 0 {
      AskedEach(orders[1..], table, i - 1);
    }
  }

  lemma {:induction false} AskedLength(orders: seq<Order>, table: Firewall.Table)
    ensures |Asked(orders, table)| == |orders|
  {
    if orders != [] {
      AskedLength(orders[1..], table);
    }
  }

  /** The package table stays the current one. */
  lemma AskedTable(orders: seq<Order>, table: Firewall.Table)
    ensures Runs.LastTable(table, Asked(orders, table)) == table
  {
    hide Asked;
    var ops := Asked(orders, table);
    forall i | 0 <= i < |ops|
      ensures ops[i].table == table
    {
      AskedEach(orders, table, i);
    }
    SameTable(table, ops);
  }

  lemma {:induction false} SameTable(table: Firewall.Table, ops: seq<Runs.Op>)
    requires forall i :: 0 <= i < |ops| ==> ops[i].table == table
    ensures Runs.LastTable(table, ops) == table
  {
    if ops != [] {
      SameTable(table, ops[..|ops| - 1]);
    }
  }

  lemma {:induction false} OrderCallsAnswer(w: World, orders: seq<Order>, table: Firewall.Table, call: Call)
    requires ScriptAnswers(w, table) && call in CallsOfOrders(orders)
    ensures Answers(w, call, ScriptCodes(table))
  {
    hide ScriptAnswers, Answers, ScriptCodes, CallOf;
    if call == CallOf(orders[0]) {
      OrderAnswers(w, table, orders[0]);
    } else {
      OrderCallsAnswer(w, orders[1..], table, call);
    }
  }

  /** The whole way: orders set up as payloads, served, packed into a composite that is itself served,
      downloaded in time and run by the device. The run succeeds exactly if the controller can process
      every name of every order. The script has been called for the orders up to and including the first
      one where it cannot, and the whitelist and the packets that pass are then those of these orders,
      applied one after the other, the other names of the last one included; temporary orders leave the
      whitelist as it is, and let their uids pass until the next order that is not temporary. */
  lemma OrdersTakeEffect(bytes: Raw, ps: seq<Raw>, orders: seq<Order>, s: Scheme, time: int, w: World,
                         state: Control.State, defaults: seq<Firewall.Name>, table: Firewall.Table)
    requires Correct(s) && w.verify == s.verify && ScriptAnswers(w, table)
    requires CommandOf(CommandText(bytes)).Composite? && Data(bytes) == Composite.Pack(ps)
    requires |ps| == |orders| <= 65535 && forall i :: 0 <= i < |ps| ==> Composite.Framable(ps[i])
    requires forall i :: 0 <= i < |ps| ==> Carries(ps[i], orders[i], s) && ScriptArgs.Listable(orders[i].apps)
    requires Delivery.Delivered(ParseTree(bytes), s, time) && Runs.Booted(state, defaults, table)
    ensures var o, asked := InterpBuffer(bytes, time, w, []), Asked(Applied(orders, table), table);
      && (o.err == if forall i :: 0 <= i < |orders| ==> Valid(orders[i], table) then 0 else 1)
      && CallsOf(o.trace) == CallsOfOrders(Applied(orders, table)) && OpsOf(CallsOf(o.trace), table) == asked
      && Runs.Means(Runs.Run(state, asked, defaults), defaults,
                    Runs.Names(Firewall.ToSet(Runs.Lines(state.whitelist)), asked), Runs.Temps(asked), table)
  {
    hide *;
    Delivery.PackedRuns(bytes, ps);
    PackedOrders(ps, orders, s);
    forall call | call in Calls(ParseTree(bytes))
      ensures Answers(w, call, ScriptCodes(table))
    {
      OrderCallsAnswer(w, orders, table, call);
    }
    Delivery.DeliveredRuns(bytes, s, time, w, ScriptCodes(table));
    forall i | 0 <= i < |orders|
      ensures orders[i].apps != [] && ScriptArgs.Listable(orders[i].apps)
    {
      ListableNotEmpty(orders[i]);
    }
    OrdersExecuted(orders, [], table);
    OpsOfOrders(Applied(orders, table), table);
    AskedTable(Applied(orders, table), table);
    Runs.RunMeans(state, Asked(Applied(orders, table), table), defaults, table);
  }

  lemma ListableNotEmpty(o: Order)
    requires ScriptArgs.Listable(o.apps)
    ensures o.apps != []
  {
  }

  // ----- single names -----

  /** No order from the `i`-th on denies the name. */
  predicate NotDenied(orders: seq<Order>, i: nat, n: Firewall.Name) {
    forall j :: i <= j < |orders| && orders[j].verb == Control.DENY ==> n !in orders[j].apps
  }

  lemma {:induction false} AskedSnoc(orders: seq<Order>, table: Firewall.Table)
    requires orders != []
    ensures var front, last := orders[..|orders| - 1], orders[|orders| - 1];
      Asked(orders, table) == Asked(front, table) + [Runs.Change(last.verb, last.apps, table)]
  {
    var rest := orders[1..];
    if rest == [] {
      assert orders[..0] == [];
    } else {
      AskedSnoc(rest, table);
      assert rest[..|rest| - 1] == orders[..|orders| - 1][1..];
    }
  }

  /** A package name that an order allows and no later one denies is in the whitelist at the end. */
  lemma {:induction false} AllowedStays(start: set<Firewall.Name>, orders: seq<Order>, table: Firewall.Table, i: nat,
                                        n: Firewall.Name)
    requires i < |orders| && orders[i].verb == Control.ALLOW && n in orders[i].apps && Control.PackageName(n)
    requires NotDenied(orders, i, n)
    ensures n in Runs.Names(start, Asked(orders, table))
  {
    hide Asked, Control.PackageName, Control.ValidName;
    AskedSnoc(orders, table);
    var front, last := orders[..|orders| - 1], orders[|orders| - 1];
    var ops := Asked(orders, table);
    assert ops[..|ops| - 1] == Asked(front, table);
    Runs.ValidNamesIff(last.apps, n);
    if i < |front| {
      AllowedStays(start, front, table, i, n);
    }
  }

  /** In what the orders leave, the uid of such a name passes through the tunnel, in both families. */
  lemma AllowedPasses(s: Control.State, defaults: seq<Firewall.Name>, start: set<Firewall.Name>, orders: seq<Order>,
                      table: Firewall.Table, i: nat, n: Firewall.Name, f: Scripts.Family)
    requires i < |orders| && orders[i].verb == Control.ALLOW && n in orders[i].apps && Control.PackageName(n)
    requires NotDenied(orders, i, n) && n in table
    requires var asked := Asked(orders, table);
      Runs.Means(s, defaults, Runs.Names(start, asked), Runs.Temps(asked), table)
    ensures n in Runs.Lines(s.whitelist)
    ensures Firewall.Passes(s.out.Of(f), s.sbox.Of(f), Firewall.Packet(table[n], "tun0"))
  {
    hide Asked, Control.PackageName, Runs.NoDuplicates, Firewall.Passes;
    AllowedStays(start, orders, table, i, n);
    var names := Runs.Names(start, Asked(orders, table));
    assert n in Firewall.ToSet(Runs.Lines(s.whitelist));
    assert table[n] in Firewall.Uids(Firewall.ToSet(defaults) + names, table);
  }
}
