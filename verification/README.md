# Dumbos, modelled in Dafny

Dumbos lets an administrator steer a phone through signed, expiring commands. A server resolves the
expiry of a stored code, signs it and sends it; a daemon on the device checks it and runs it. This
project models the parts of that system that carry loops, recursion, shared state or a protocol, and
proves what they promise over all inputs, all runs and all interleavings.

| area | modules |
|---|---|
| bytes, C strings, character sets, decimal text, the expiry field | `Bytes`, `Charsets`, `Errno`, `Decimal`, `Expiry` |
| the payload engine on the device | `Payload`, `ScriptArgs`, `Engine`, `EngineMachine`, `EngineProperties`, `Commands` |
| packing, serving and delivering payloads | `Composite`, `Server`, `Delivery` |
| the firewall, step by step, over runs and under faults | `Firewall`, `FirewallScripts`, `FirewallFaults`, `FirewallControl`, `FirewallRuns` |
| from an administrator's lists to the packets of a device | `Administration` |
| the session between client and daemon | `SessionPeers`, `SessionRuns`, `Session`, `SessionPrograms`, `SessionEndings` |
| what the client shows of a run of the engine | `Conversation` |
| the tree copier | `TreeFs`, `TreeCopy` |
| one-shot request ids | `Requests`, `SignedText` |
| the event log and its cached view | `EventLog` |

`dafny verify dfyconfig.toml` checks the whole project.

## How the model is laid out

- C code that changes a buffer, a file or a counter is a method on an array or on a class, proved equal
  to a function of the old state; the theorems are about that function. The engine's methods
  (`HandleOnePayload`, `PayloadCmdComposite`) work on one array and refine the interpreter `Interp` of a
  parsed tree. The session's programs (`Handler`, `RunClient`) are proved equal to processes, and every
  interleaving of the two processes is a run of small transfers. Handlers of the C server are steps over
  a shared set of files.
- Signatures are a pair of functions, `Scheme`; `Correct` says that `verify` accepts what `sign` made.
- The device clock and the results of handlers are functions of the trace so far (`World`), so that
  nothing depends on how they behave. A load on the server reads the clock twice, as `dp_is_expired` does
  (`Server.Clock`).
- Integers are unbounded. Where the width matters it is written out: `strtoll`'s 64-bit range, the 15
  characters of the expiry field, the casts to 16 and 32 bits in frames, the 64-bit byte counters of the
  copier, the doubling of the symlink buffer.
- Where C, the shell or Rust handle an error, the model has the branch.

## Where the code differs from what one would expect

- `dp_set_expire` cuts a deadline of more than 15 characters to another number (`Expiry.SetGetIff`), so
  such a code is not pinned to its deadline (`Server.CutDeadlineFails`). It takes a field without a NUL
  (`Server.CutDeadlineHappens`).
- `dp_get_expire` uses -1 for "not a number". A field that says -1 is taken for the default
  (`Expiry.LiteralMinusOne`). A deadline that comes out as -1 is stored, and the second use replaces it by
  the default, counted from then (`Expiry.MinusOneSettlesNext`). Rust takes -1 for a number, and rejects
  the white space that C accepts (`Expiry.AgreeIff`).
- A list whose first or last string is empty does not survive `script_helper`
  (`ScriptArgs.StringListRoundTrip`).
- Between the flush and the REJECT of one family every packet of that family passes
  (`Firewall.FlushedIsOpen`); the guarantee starts with the REJECT (`FirewallScripts.ReloadIsSafe`).
  Packages that are allowed temporarily pass on every interface, not only through the tunnel
  (`FirewallRuns.RunMeans`).
- Copying a file onto a FIFO or a device that takes it succeeds, and leaves the FIFO or device in place
  (`TreeCopy.CopyIff`, `TreeCopy.DeviceStays`).
- The text that is signed for a request has no separators. Among ids of one length it is accepted at
  most once for a user (`SignedText.SignedAtMostOnce`). Among all ids, for a time of at most 17 digits and
  past the much earlier times that longer ids would have (`SignedText.LongerVerifiesIff`), it can be
  accepted twice exactly if the id ends in a digit (`SignedText.SignatureTwiceIff`,
  `SignedText.MovedDigitAccepted`).
- The Rust server looks a request id up and inserts it in two steps; the pair of user and id is granted
  twice exactly if two calls are between these steps at the same time (`Requests.GrantedTwiceIff`).
- A relative code whose delay is not positive is refused, until some load comes at the very second that
  makes its deadline 0; from then on it is served for ever (`Server.NonPositiveDelay`).
- A request with more than 256 arguments is answered without the empty message that ends an answer: the
  client takes E2BIG for the length of a message, waits for seven bytes, and returns EPIPE instead of E2BIG
  (`SessionEndings.TooManyArguments`). A client whose argument is too long ends in the middle of its
  request (`SessionEndings.BrokenTheorem`).
- The daemon sends an empty command as an empty message, which the client takes for the end of the
  messages: it stops there and returns 16 (`Conversation.EngineSeen`).

## Model

| member | source | states |
|---|---|---|
| Bytes.NetworkOrder | common.c:113-134 | the first byte of a number counts most |
| Decimal.ParseLongLongLoop | common.c:354-397 | the loop accepts or rejects what is left after `strtoll` exactly as the specification does, and returns its number |
| Decimal.ParseLongLongIff | common.c:354-397 | accepted are exactly the spellings of 64-bit integers (bytes 32 and 9 to 13, a sign, digits, the same white space), with the integer they spell; junk, no digits and overflow are rejected |
| Decimal.PrintParse | common.c:354-397 | every 64-bit integer printed in decimal reads back as itself |
| Decimal.ParsedBound | common.c:354-397 | n bytes cannot denote a number of more than n digits |
| Decimal.CutDigitsValue | dumbpayload.c:73-76 | cutting a printed number leaves a strictly smaller number without a leading zero |
| Decimal.RustParseIff | dumbtool/src/dumbpayload.rs:45-52 | Rust reads a number exactly when C reads the same one and the text has no white space |
| Expiry.SetGetIff | dumbpayload.c:73-90 | a deadline survives writing and reading exactly when it has at most 15 characters, and a cut one never turns into -1 |
| Expiry.ResolveIff | dumbpayload.c:92-118 | resolving gives the deadline that the kind of field asks for; the stored number is that deadline exactly when the field was absolute or the deadline has at most 15 characters |
| Expiry.ResolveOnce | dumbpayload.c:92-118 | once resolved to anything but -1, a field is absolute and no later use changes a byte or the value |
| Expiry.SettlesIff | dumbpayload.c:92-118 | the first use settles a field exactly if the deadline does not come out as -1 |
| Expiry.MinusOneSettlesNext | dumbpayload.c:92-118 | a deadline of -1 is stored as such; the second use settles the field on 60 seconds from then, unless the clock shows -61, and later uses see that |
| Expiry.LiteralMinusOne | dumbpayload.c:78-118 | a field that says -1 asks for the default and settles at its first use, unless the clock shows -61 |
| Expiry.LongFieldCut | dumbpayload.c:99-115 | the field of a colon and fifteen nines, without a NUL, has a delay that no field can hold as a deadline |
| Expiry.NulTerminatedFits | dumbpayload.c:92-118 | for a terminated field and a clock before 9*10^14 no deadline is cut |
| Expiry.FieldStability | dumbpayload.c:73-118 | the value returned is the value read back, and a second call at any time changes neither bytes nor value |
| Expiry.AgreeIff | dumbtool/src/dumbpayload.rs:35-54 | the exact condition, on the numeric part, under which C and Rust give a terminated field the same deadline at a given time |
| Expiry.TwoImplementationsAgree | dumbtool/src/dumbpayload.rs:35-54 | without white space and without -1 the two implementations agree at every time |
| Expiry.SetTimestamp | dumbtool/src/dumbpayload.rs:61-63 | a timestamp is stored exactly when it has at most 15 characters, and both implementations then read that deadline back (C takes -1 for the default) |
| Expiry.SetRelative | dumbtool/src/dumbpayload.rs:58-60 | a delay is stored exactly when it has at most 14 characters, and both implementations then read that delay back (C takes -1 for the default) |
| Expiry.SetDefault | dumbtool/src/dumbpayload.rs:55-57 | a text without digits, such as "_", is the default of 60 seconds after the first use for both implementations |
| Payload.SetExpireInPlace | dumbpayload.c:73-76 | writes the 16 bytes of the new expiry and nothing else |
| Payload.GetExpireOrSetInPlace | dumbpayload.c:92-118 | the shifting and rewriting in the buffer gives the specified field and value, and touches no other byte |
| Payload.VerifyInPlace | dumbpayload.c:49-71 | checks the size and the signature of the payload as it was on entry, and changes nothing outside the signature; what that check answers is stated in `EngineProperties.RunAnswers` |
| Payload.SignedVerifies | dumbpayload.c:21-71 | signing keeps every byte behind the signature and the result verifies |
| Payload.SameButExpire | dumb.h:46-67 | rewriting the expiry leaves size, command and data as they were |
| ScriptArgs.SetDataStringList | dumbtool/src/dumbpayload.rs:89-99 | the loop writes each string and a NUL, or one NUL for no strings |
| ScriptArgs.CmdFirewall | server/src/dumb-tool-cmd-set.c:300-350 | the C tool writes the same data section, refuses an empty list, and counts the bytes it wrote |
| ScriptArgs.StringListRoundTrip | daemon/payload_cmd.c:342-376 | the device recovers the list from what the writers produce if and only if it is not empty, no string holds a NUL, and its first and last string are not empty |
| ScriptArgs.ParseIff | daemon/payload_cmd.c:342-376 | for any data: none at all is ignored, one byte or an empty first string is EINVAL; otherwise the last byte is dropped and the list is the only one whose strings hold no NUL and give the rest when each is closed by a NUL, the last one unless the rest ends in one |
| ScriptArgs.ScriptHelper | daemon/payload_cmd.c:342-376 | for any bytes: refused or ignored as specified without a write, or a vector of two given strings, pointers to exactly the split strings inside the data, and NULL; it changes nothing outside the data |
| ScriptArgs.CollectStrings | daemon/payload_cmd.c:358-373 | the loop terminates and every reallocation keeps the pointers collected so far |
| ScriptArgs.Grow | daemon/payload_cmd.c:359-370 | a vector grown by one entry keeps the old entries and the new store is inside it |
| EngineMachine.HandleOnePayload | daemon/secret_code.c:35-114 | for any buffer the outcome and the trace are those of the interpreter on the tree parsed from the original bytes, and only bytes of this payload change |
| EngineMachine.PayloadCmdComposite | daemon/payload_cmd.c:158-205 | the frame walker is the left-to-right interpreter of the parsed frames, stopped at the first failure, although nested calls rewrite the buffer |
| EngineMachine.HandleFrame | daemon/payload_cmd.c:171-202 | one round handles one frame, writes inside that frame only, and leaves the rest as it was |
| EngineMachine.CheckPayload | daemon/secret_code.c:39-62 | expiry before signature, on the original bytes; only the header changes; the verdict is the one of `EngineProperties.AdmittedIff` |
| EngineMachine.RunLeaf | daemon/secret_code.c:68-111 | each command makes the call, the message or the error that is specified for it; the lemmas of `Commands` say which, name by name |
| EngineMachine.RunBuffer | daemon/secret_code.c:210-223 | a download of any size, too short ones included, runs as specified |
| EngineProperties.DepthBound | daemon/payload_cmd.c:158-205 | the recursion nests at most one level for every 174 bytes of data |
| EngineProperties.RunMakesCalls | daemon/secret_code.c:35-114 | in every run the calls made are a prefix of the tree's calls in depth-first order, and all of them if it succeeds |
| EngineProperties.RunIsAuthorised | daemon/secret_code.c:39-51 | no handler at any depth runs unless, for its payload and every payload around it, at the clock of its check and with the expiry field resolved: the deadline is 0 or ahead of the download's time, 168 and the size field give the length, the size is at most 512 MiB, and the signature scheme accepts the 128 digits for the bytes with the signature zeroed |
| EngineProperties.AdmittedIff | daemon/secret_code.c:39-51 | admitted are exactly the payloads that are in time, of the right size and signed; a late one is expired, one of another size is EINVAL, and another signature is what the scheme answers |
| EngineProperties.RunAnswers | daemon/secret_code.c:35-62 | a late payload gives exactly the message "code expired" and 127, one of the wrong size or with a signature that is not accepted exactly "invalid signature" and the error, and nothing else happens; a genuine one starts with its greeting |
| EngineProperties.SuccessIsWellFormed | daemon/payload_cmd.c:158-205 | a run that succeeds has found no malformed frame at any depth |
| Commands.AdbCommands | daemon/secret_code.c:80-83 | "adb-enable" and "adb-disable" make exactly the call that sets adb on or off |
| Commands.WifiCommands | daemon/secret_code.c:84-87 | the same for "wifi-enable" and "wifi-disable" |
| Commands.OemCommands | daemon/secret_code.c:88-91 | the same for "oem-unlock" and "oem-lock" |
| Commands.FileCommands | daemon/secret_code.c:76-79 | "export-files" exports and "import-files" imports |
| Commands.InstallCommands | daemon/secret_code.c:72-75 | "install-this" installs exactly the data of the payload; "install-path" is ENOSYS |
| Commands.OkCommand | daemon/secret_code.c:68-71 | "ok" says so and makes no call |
| Commands.FlushCommand | daemon/secret_code.c:100-101 | "fw-flush" flushes the firewall |
| Commands.FirewallScriptCommands | daemon/payload_cmd.c:328-340 | "fw-allow", "fw-deny" and "fw-tmp-add" run the firewall script with "allow", "deny" and "allow-temp" and the strings of the data, or return what the data gives without running it |
| Commands.ProxyCommands | daemon/payload_cmd.c:419-437 | "singboxadd" and "singboxdel" run the proxy script with "add" and "del" |
| Commands.CompositeCommand | daemon/secret_code.c:92-93 | "composite" goes on with the frames of the data at the same time |
| Commands.UnknownCommand | daemon/secret_code.c:106-111 | any other name is reported and gives ENOSYS |
| EngineProperties.ReadyRuns | daemon/secret_code.c:35-114 | a tree without expired, unsigned, malformed or unknown parts makes exactly its calls in order up to and including the first one that fails, and returns what that one answered, or 0, whatever the device clock shows |
| EngineProperties.ExecutedConcat | daemon/payload_cmd.c:171-203 | siblings after the first failing call are not started; without a failure their calls follow |
| Composite.CmdComposite | server/src/dumb-tool-cmd-set.c:351-453 | the loop writes the count and the frames of all files in order, refuses an empty list, and counts the bytes of the section |
| Composite.PackWalkIff | daemon/payload_cmd.c:164-203 | the device walks what was packed as exactly the packed payloads, in order, using up the section, if and only if there are at most 65535 and each has a header and fewer than 2^32 bytes |
| Composite.WalkIff | daemon/payload_cmd.c:158-205 | on any bytes the walker gets to the end having handed out exactly these payloads if and only if there are at most 65535, each has a header and fewer than 2^32 bytes, and the bytes start with what is packed for them |
| Composite.WalkedFramable | daemon/payload_cmd.c:169-203 | from any bytes the walker hands out only payloads with a header, and as many as counted if it gets to the end |
| Server.SignInPlace | dumbpayload.c:21-47 | zeroing, signing and copying in the buffer gives the signed payload |
| Server.CodeFile.Load | server/src/dp_load.c:86-143 | for any file and any two readings of the clock: the reply and the stored bytes after a load; the signature is never stored, and a refused load stores nothing |
| Server.AbsoluteRun | server/src/dp_load.c:102-143 | over any run of loads an absolute code is served exactly while its deadline is ahead of the second reading of the clock (always if 0), and its stored bytes never change |
| Server.FirstUsePins | server/src/dp_load.c:102-143 | for every delay and over any run, a relative or default code is refused and unchanged until the first load that finds it not expired; that load is served and pins the code to its deadline, and from then on the code is served exactly before it, always if it is 0 |
| Server.PositiveDelay | server/src/dp_load.c:102-143 | with a positive delay and a clock that stands still during a load, the code is served exactly before the time of its first load plus the delay |
| Server.CutDeadlineFails | server/src/dp_load.c:102-143 | a deadline of more than 15 characters is refused one second before it, so the size condition of FirstUsePins is needed |
| Server.CutDeadlineHappens | server/src/dp_load.c:102-143 | a payload and a clock for which it happens |
| Server.NonPositiveDelay | server/src/dp_load.c:102-143 | a delay that is not positive is served exactly from the first load on that came at the time that makes the deadline 0, and the stored bytes change only then |
| Server.DumbCode | dumbtool/src/bin/dumbserver/dumbcode.rs:100-136 | the pipeline on a buffer serves exactly the specified bytes, and its second size check and cut never bite |
| Server.ServesIff | dumbtool/src/bin/dumbserver/dumbcode.rs:100-136 | served are exactly the files whose size field gives their length and is at most 512 MiB, while the deadline is 0 or ahead |
| Server.ServedBytes | dumbtool/src/bin/dumbserver/dumbcode.rs:100-136 | what is sent is the signature of the payload with its field resolved and its signature zeroed, a NUL, and that payload |
| Server.LoadedBytes | server/src/dp_load.c:102-143 | the same for the C server, and the file that it stores is the payload with its field resolved and its old signature |
| Server.TwoServersAgree | server/src/dp_load.c:102-143 | for a payload of the right size the C server sends byte for byte what the Rust server sends, or refuses it too, and the stored file changes in the expiry field only |
| Server.ServedIsAdmitted | dumbpayload.c:49-134 | what the Rust server sends is left byte-identical by the device's expiry step and admitted exactly before the deadline in its field |
| Server.ServerToDevice | dumbtool/src/bin/dumbserver/dumbcode.rs:100-136 | for a terminated field that deadline is the one the server resolved, so the payload reaches dispatch at exactly the network times before it (always if 0) |
| Server.ServedParts | dumbtool/src/bin/dumbserver/dumbcode.rs:100-136 | serving keeps length, command and data, stores the resolved expiry, and the result verifies |
| Delivery.SetGetData | dumbpayload.c:262-312 | data of at most 512 MiB is stored, the sizes check out and the data reads back, and the other fields stay; more is refused |
| Delivery.SetGetCommand | dumbpayload.c:206-214 | a command is stored exactly when it has at most 15 characters, reads back, and leaves the other fields alone |
| Delivery.FirewallListArrives | dumbtool/src/dumbpayload.rs:116-123 | for allow, deny and temporary allow, by the literal command names: the list that is set is the list of arguments that the firewall script gets with the literal verb, exactly when it can be written as a list |
| Delivery.DeliveredRuns | daemon/secret_code.c:35-114 | a download whose whole tree was served and is in time makes exactly the calls of the tree, at any depth and for any device clock, up to and including the first one that fails, and returns what that one answered, or 0 |
| Delivery.PackedRuns | daemon/payload_cmd.c:158-205 | what the device runs for a composite is what was packed, one payload after the other |
| Firewall.PassesAllowRules | firewall/dumbos-firewall.sh:53-62 | rules inserted at the front let through exactly the uids of installed packages and leave every other packet to the rest |
| Firewall.ReloadedMeansPolicy | firewall/dumbos-firewall.sh:32-71 | a packet passes the reloaded chain, with its jump to oem_sbox, exactly if it is root's, or its uid belongs to a configured package and it leaves through the tunnel |
| Firewall.GuardedIsSafe | firewall/dumbos-firewall.sh:32-71 | nothing outside the allowed uids passes a guarded chain, whatever oem_sbox holds |
| FirewallScripts.Netfilter.Close | firewall/dumbos-firewall.sh:32-35 | flush and append, with a failure of either |
| FirewallScripts.Netfilter.FirewallAllow | firewall/dumbos-firewall.sh:26-30 | a rule in front of both chains without faults; with them a guarded chain stays guarded |
| FirewallScripts.Netfilter.AllowPackages | firewall/dumbos-firewall.sh:53-62 | the loop goes on after failures, keeps both chains guarded in every state, and without faults leaves exactly the rules of the installed packages |
| FirewallScripts.Netfilter.InsertGuards | firewall/dumbos-firewall.sh:69-71 | the jump behind the first rule, for each family until a failure |
| FirewallScripts.Netfilter.Reload | firewall/dumbos-firewall.sh:26-73 | whatever fails and wherever the script stops, each family is as before or open up to one point and guarded in every state from then on; without faults both chains end up as specified, whatever they were before |
| FirewallScripts.ReloadIsSafe | firewall/dumbos-firewall.sh:32-71 | in every state of a reload from a family's REJECT on, only root and the uids of configured packages pass that family |
| FirewallScripts.Netfilter.BuildSbox | firewall/dumbos-firewall-init.sh:10-22 | rebuilds the guard chain rule by rule, whatever it was before |
| FirewallScripts.Netfilter.Boot | firewall/dumbos-firewall-init.sh:5-29 | whatever fails, every state before the reload is as before or flushed with or without the REJECT, and the reload keeps what every reload keeps; without faults both guard chains stand and both families are freshly loaded |
| Firewall.GrownIsGuarded | firewall/dumbos-firewallctl.sh:99-107 | a guarded chain that grows in front stays guarded against the uids that were added |
| FirewallFaults.EpisodeKeepsOut | firewall/dumbos-firewall.sh:32-71 | one call, whatever fails in it, keeps out in each of its states whoever is known to be kept out |
| FirewallFaults.FaultyRunIsSafe | firewall/dumbos-firewall.sh:32-71 | over any run with any faults: in every state after a family's first REJECT, outside its flush-to-REJECT windows, only root, the uids configured at the last reload that closed the family and the uids allowed temporarily since then pass |
| FirewallFaults.OpenMeansFlushed | firewall/dumbos-firewall.sh:32-35 | a family that has been closed is only open again if a later reload has flushed it and not closed it |
| FirewallControl.ValidNameIff | firewall/dumbos-firewallctl.sh:52-61 | a name is valid exactly if it is not empty and each byte occurs in the written-out letters, digits, "_" and "." |
| FirewallControl.Controller.AddPackage | firewall/dumbos-firewallctl.sh:71-97 | a name is appended unless it is listed, and the file is created if missing |
| FirewallControl.Controller.RemovePackage | firewall/dumbos-firewallctl.sh:109-148 | every line with the name goes, the others stay in order |
| FirewallControl.Controller.AddPackageTemp | firewall/dumbos-firewallctl.sh:99-107 | a rule in front of both chains for an installed package, an error for another; under faults the chains only grow by rules for that package |
| FirewallControl.Controller.Process | firewall/dumbos-firewallctl.sh:150-169 | the loop goes on after invalid and failing names; file, chains and return code are those of all names together, and for allow and deny the code is 0 exactly if all names are valid in the sense of `ValidNameIff`, whatever iptables does |
| FirewallControl.Controller.Control | firewall/dumbos-firewallctl.sh:36-177 | without faults the whole script takes the firewall to the specified state; the return code is 0 exactly if every name could be processed; and whatever fails, the call is one episode of the history of oem_out, a reload for the new whitelist or growth by the uids of the valid names |
| FirewallControl.Controller.Flush | daemon/payload_cmd.c:399-418 | without faults the whitelist is gone and the firewall freshly loaded from the default list; whatever fails, the call is a reload for the default list |
| FirewallRuns.StepMeans | firewall/dumbos-firewallctl.sh:71-174 | one command takes a firewall with a given meaning to the firewall with the updated meaning |
| FirewallRuns.RunMeans | firewall/dumbos-firewallctl.sh:71-174 | after any commands on a booted firewall the whitelist is duplicate-free and is the fold of union, difference and empty over the valid names, and a packet passes exactly if its uid was allowed temporarily since the last reload, or the policy of the last reload lets it |
| FirewallRuns.AllChangedLines | firewall/dumbos-firewallctl.sh:150-169 | adding is union and removing is difference over the valid names, and neither makes a duplicate |
| FirewallRuns.ReloadedLets | firewall/dumbos-firewall.sh:32-71 | a freshly loaded firewall is the policy for defaults and whitelist, in both families |
| FirewallRuns.TempLets | firewall/dumbos-firewallctl.sh:99-107 | allow-temp adds exactly the uids of its valid, installed names |
| FirewallRuns.AllowedNamePasses | firewall/dumbos-firewallctl.sh:52-174 | every such name that is allowed is in the whitelist afterwards, and its uid passes through the tunnel in both families |
| FirewallRuns.DeniedNameGone | firewall/dumbos-firewallctl.sh:109-174 | every such name that is denied is not in the whitelist afterwards |
| FirewallRuns.ReturnCodeIff | firewall/dumbos-firewallctl.sh:36-177 | the code is 0 exactly if there are names and each is such a name (and installed, for a temporary one), otherwise 1 |
| FirewallRuns.OtherNameNotAdded | firewall/dumbos-firewallctl.sh:52-61 | no name with another byte ever gets into the whitelist |
| Administration.OrdersTakeEffect | daemon/payload_cmd.c:328-397 | lists to allow, deny or allow temporarily, set, served, packed, served again, downloaded in time and run, with the firewall script returning what the controller returns: the run succeeds exactly if every name of every list is a package name (and installed, if temporary), the script is called for the lists up to and including the first one with another name, and the whitelist and the packets that pass are those of these lists applied one after the other, a temporary one lasting until the next reload |
| Administration.AppliedParts | daemon/payload_cmd.c:171-203 | the lists that take effect are a prefix of those asked for, all of them valid but perhaps the last, and a list is missing only behind one that is not valid |
| Administration.AllowedPasses | daemon/payload_cmd.c:328-397 | a package name that some list allows and no later one denies is in the whitelist after these lists, and its uid passes through the tunnel in both families |
| Administration.CarriedCall | daemon/payload_cmd.c:328-340 | a served firewall payload makes exactly one call, with the list that was set |
| Administration.OrdersExecuted | daemon/payload_cmd.c:380-397 | the controller's return code stops the lists at the first one with an invalid name |
| SessionPrograms.Connection.WriteAll | common.c:54-71 | writes the whole buffer, in whatever pieces |
| SessionPrograms.Connection.ReadAll | common.c:73-92 | reads exactly the bytes wanted, in whatever pieces, or fails at the end of the stream |
| SessionPrograms.Connection.MallocReadString | common.c:162-192 | a string, or an error for a closed stream or a length of 4096 and more |
| SessionPrograms.Connection.WriteString | common.c:194-215 | a length and the bytes, or nothing at all for a string that is too long |
| SessionPrograms.ReadArgv | daemon/handler.c:102-115 | the loop fills the vector with the arguments read, or reports the first one that cannot be read |
| SessionPrograms.Handler | daemon/handler.c:14-145 | on any input, the version mismatch, too many arguments, no command, the failing argument and a stream that is closed anywhere included, the program writes and returns what the handler process does |
| SessionPrograms.RunClient | caller/client.c:59-150 | on any input, a refused handshake, an argument that is too long and a stream that is closed anywhere included, the program writes, prints and returns what the client process does; the endings are those of `SessionEndings` |
| SessionPrograms.CutShort | common.c:54-92 | on an input that is enough to end, a closed stream makes no difference; on any other the process goes on from the read in which the stream is closed |
| SessionPrograms.HandlerCutShort | daemon/handler.c:23-115 | a handler whose client goes away early has run nothing, has written nothing more than at most the error report, and returns EPROTO or EPIPE |
| SessionPrograms.ClientCutShort | caller/client.c:79-145 | a client whose daemon goes away early writes nothing more and returns EPIPE |
| SessionPrograms.WriteArgs | caller/client.c:92-110 | the count and the arguments up to the first one that is too long |
| SessionPrograms.ReadAnswer | caller/client.c:118-150 | prints messages up to the empty one and returns the result, or ends at one that is too long or where the stream is closed |
| SessionRuns.WholeMonotone | common.c:54-92 | more input never takes back output, and a process that has ended ignores it |
| SessionRuns.StepFollows | common.c:54-92 | one short read or write keeps a peer on the course that it takes when given its whole input at once |
| SessionRuns.NoDeadlock | daemon/handler.c:14-145 | in every state of a dialogue some transfer is possible, or the client has ended and the daemon has too or waits for what never comes, for any buffer size above 0 |
| SessionRuns.RunTheorem | common.c:54-92 | every run of a dialogue is finite, never stuck before it is over, writes nothing but the two streams, and ends as on whole inputs |
| Session.ReadsArg | common.c:162-215 | the handler reads back exactly the argument that was written |
| Session.SessionIsDialogue | caller/client.c:59-150 | a well-formed session is a dialogue: handshake, request and answer, each waited for by the other side |
| Session.SessionTheorem | daemon/handler.c:14-145 | in every interleaving with arbitrary short transfers the session is finite and not stuck, the handler runs exactly the arguments, and the client prints exactly the messages in order and returns the result modulo 65536 |
| SessionEndings.RefusedTheorem | caller/client.c:79-90 | with different versions, in every interleaving: finite and not stuck, daemon and client both end with EPROTO, nothing is run, and the client has written no more than its version |
| SessionEndings.BrokenTheorem | caller/client.c:92-110 | with an argument of 4096 bytes or more, in every interleaving: finite, the client sends the count and the arguments before it and ends with EOVERFLOW, and the daemon waits; when the connection is closed then, it writes its report, ends with EPIPE and has run nothing |
| SessionEndings.NoCommandTheorem | daemon/handler.c:77-83 | without arguments, in every interleaving, the client prints "No command" and returns 0, and nothing is run |
| SessionEndings.TooManyArguments | daemon/handler.c:85-90 | with more than 256 arguments the handler answers with a message and E2BIG and has run nothing; the client prints the message, takes E2BIG for a length, and returns EPIPE when the connection is closed |
| SessionEndings.HungUpEarly | daemon/handler.c:23-47 | a handler whose client goes away before the version is answered writes nothing and returns EPIPE |
| SessionEndings.HungUpAtCount | daemon/handler.c:71-75 | one whose client goes away before the argument count returns EPROTO |
| SessionEndings.TooLongRefused | common.c:162-192 | a length of 4096 or more ends the handler or the client with EOVERFLOW; the handler has run nothing and writes its report if it is about an argument, and the client has printed what came before |
| SessionEndings.WireFormat | common.c:113-215 | an example of the bytes of a version and a request, each number in network order |
| Conversation.AnswerSeen | caller/client.c:117-150 | for any messages the client prints those before the first empty one, and returns the result, or the length of the message behind the empty one |
| Conversation.RunGoes | daemon/secret_code.c:35-114 | a run sends an empty message exactly if it reaches a payload with an empty command that passes both checks; then it fails, and "unknown command:" comes next |
| Conversation.EngineSeen | daemon/secret_code.c:53-66 | the client prints exactly the messages of a run and returns its result modulo 65536 if and only if the run reaches no such payload; otherwise it prints the messages before it and returns 16 |
| TreeCopy.Copier.MeasureTree | daemon/mount_copy_ns.c:104-174 | succeeds exactly if the path exists, nothing under it is special and the sum fits 64 bits, and adds exactly the bytes of the files |
| TreeCopy.Copier.MeasureEntries | daemon/mount_copy_ns.c:135-164 | the same for the entries of a directory, in any order |
| TreeCopy.Copier.WriteAll | daemon/mount_copy_ns.c:53-68 | appends the whole buffer to a file, in whatever pieces, and leaves a special node what it is |
| TreeCopy.Copier.OpenForWriting | daemon/mount_copy_ns.c:218-227 | replaces a link in the way, truncates a file, leaves a FIFO or device that opens, and fails for directories, sockets, other special nodes and a missing parent |
| TreeCopy.Copier.CopyContent | daemon/mount_copy_ns.c:233-248 | copies the content whatever the reads and writes transfer, and counts exactly its bytes, also into a special node |
| TreeCopy.Copier.CopyRegularFile | daemon/mount_copy_ns.c:205-271 | succeeds exactly if the destination can be a file or is a special node that takes it; then the first holds the source's content and the second is left |
| TreeCopy.Copier.ReadTarget | daemon/mount_copy_ns.c:275-302 | the doubling buffer ends with the full target, whatever size was reported |
| TreeCopy.Copier.CopySymlink | daemon/mount_copy_ns.c:273-314 | the destination becomes the same link, unless a directory is in the way |
| TreeCopy.Copier.CopyTree | daemon/mount_copy_ns.c:316-404 | succeeds exactly if the source has nothing special, no path pairs a directory with something else, and no file meets a special node that cannot take it; then every source path has landed in the destination and every other path is untouched; even a failure changes nothing outside the destination |
| TreeCopy.Copier.CopyEntries | daemon/mount_copy_ns.c:354-388 | the loop over the entries, in any order, lays each child over the destination without disturbing the others |
| TreeCopy.Copier.MeasureAndCopy | daemon/mount_copy_ns.c:461-474 | after a successful measurement the byte count never exceeds the total, equals it on success, never wraps, and the copy does not meet anything unsupported |
| TreeCopy.CopyTwice | daemon/mount_copy_ns.c:316-404 | the source stays as it was, has landed under the destination, and copying again changes nothing |
| TreeCopy.CopyIff | daemon/mount_copy_ns.c:205-271 | a successful copy gives every source path its equal exactly if no file of the source meets a special node |
| TreeCopy.DeviceStays | daemon/mount_copy_ns.c:218-248 | the smallest case: a file copied onto a device that takes it, which succeeds and is no copy |
| TreeFs.TreeOkSplit | daemon/mount_copy_ns.c:354-388 | a directory can be copied exactly when it and all its children can |
| TreeFs.ChildCompatible | daemon/mount_copy_ns.c:354-388 | copying some children does not change whether another one can be copied |
| Requests.CheckAllowedChars | common.c:401-408 | true exactly if every character is allowed |
| Requests.NamesInjective | server/src/dumb_handler.c:101-103 | different pairs of user and id have different files and different keys |
| Requests.HonestVerifies | requestid.c:24-90 | a request signed for time n verifies at time s exactly if s is at most n + 60 |
| SignedText.SameSignedIff | requestid.c:32-33 | two requests of one user share the signed text exactly if id and time written behind each other are the same |
| SignedText.SignedInjective | requestid.c:32-33 | among ids of one length the signed text determines id and time |
| SignedText.SharedSplit | requestid.c:59-90 | the requests that share the text of an honest one are those with a part of its id, and those with a part of its time in their id |
| SignedText.ShorterVerifiesIff | requestid.c:59-90 | one with a shorter id verifies exactly if what it lacks are digits, the number they give with the time fits 64 bits, and at most a minute has passed since that |
| SignedText.LongerVerifiesIff | requestid.c:59-90 | one with a longer id verifies exactly if some of the time is left, and at most a minute has passed since what is left |
| SignedText.ShorterExistsIff | requestid.c:59-90 | within the minute of an honest request one with a shorter id verifies exactly if the id ends in a digit |
| Requests.RequestFiles.DumbHandler | server/src/dumb_handler.c:83-162 | the handler's checks and its exclusive create are the two steps of the concurrent model; accepted are only authentic requests, and the file that is created has the name of user and id |
| Requests.StepAtMostOnce | server/src/dumb_handler.c:127-151 | one step of any handler keeps the files equal to the start plus one for every accepted handler; a request that fails its checks consumes nothing |
| Requests.HandlersAtMostOnce | server/src/dumb_handler.c:83-162 | over every interleaving of handlers, clocks and failing creates no two accepted handlers have the same user and id, and there is one new file for every accepted handler and none for another |
| Requests.ChecksIff | server/src/dumb_handler.c:83-145 | the checks pass exactly the requests whose user and id are made of the written-out characters, whose user has a key that accepts the signature of user, magic, id and time, and whose time is a number and at most a minute ago |
| Requests.ArrivedStep | server/src/dumb_handler.c:127-145 | the first step of a handler lets exactly the authentic requests past, rejects the others, and changes no file |
| Requests.PastChecks | server/src/dumb_handler.c:127-151 | over every interleaving, the request of a handler past its checks was authentic at the clock of some turn of the run |
| Requests.ForgedNever | server/src/dumb_handler.c:127-151 | over every interleaving, a request whose signature the user's key does not accept never gets past its checks, and no step of its handler changes the files |
| SignedText.SignedAtMostOnce | server/src/dumb_handler.c:127-151 | over every interleaving, among ids of one length a signed text is accepted at most once for a user |
| SignedText.SignatureAtMostOnce | server/src/dumb_handler.c:127-151 | over every interleaving past the time of the longer ids, the text of an honest request whose id does not end in a digit is accepted at most once |
| SignedText.MovedDigitAccepted | server/src/dumb_handler.c:127-151 | an id that ends in a digit: the run that accepts the request and then the one with that digit in its time, with the same signature |
| SignedText.SignatureTwiceIff | server/src/dumb_handler.c:127-151 | over all those runs the text can be accepted twice exactly if the id ends in a digit |
| Requests.HonestAccepted | server/src/dumb_handler.c:127-151 | an honest request passes the checks exactly up to a minute after its time, and nobody else's request can be in its way |
| Requests.RequestIdTable.DumbVerifyRequest | dumbtool/src/bin/dumbserver/server.rs:55-124 | granted are exactly the authentic requests with an allowed code and an unused pair, and the pair is consumed exactly if the request is granted; alone, the call is the two steps of the overlapping model |
| Requests.CallsAtMostOnce | dumbtool/src/bin/dumbserver/server.rs:55-124 | over every run, one request at a time, a pair of user and id is granted at most once |
| Requests.JudgeIff | dumbtool/src/bin/dumbserver/server.rs:55-124 | granted are exactly the authentic requests with a code of the written-out characters and an unused pair, an unknown user is an error, and everything else is refused |
| Requests.GrantedIff | dumbtool/src/bin/dumbserver/server.rs:55-124 | over every run, one request at a time, granted are exactly the authentic requests with such a code whose pair is unused at that moment |
| Requests.NoOverlap | dumbtool/src/bin/dumbserver/server.rs:91-123 | over every interleaving of look-ups and insertions without an overlap no two calls for one pair get past the look-up |
| Requests.GrantedTwiceIff | dumbtool/src/bin/dumbserver/server.rs:91-123 | when all calls have ended, a pair has been granted twice exactly if two calls for it were between look-up and insertion at the same time |
| Requests.GrantedTwice | dumbtool/src/bin/dumbserver/server.rs:91-123 | the smallest case: one granted request, sent twice, with both look-ups before both insertions |
| Requests.HonestGranted | dumbtool/src/bin/dumbserver/server.rs:55-124 | an honest request is granted exactly if its pair is unused and at most a minute has passed |
| SignedText.PrintedShorterIff | dumbtool/src/bin/dumbserver/server.rs:105-116 | the Rust server prints the time itself, so one with a shorter id can only be sent if what it lacks are digits without a leading zero |
| SignedText.GrantedSignedOnce | dumbtool/src/bin/dumbserver/server.rs:55-124 | over every run of the Rust server, among ids of one length a signed text is granted at most once for a user |
| EventLog.KeyInjective | dumbtool/src/tables.rs:51-52 | different 64-bit indices have different keys |
| EventLog.EventsTable.Open | dumbtool/src/tables.rs:36-43 | the length is the number of keys |
| EventLog.EventsTable.Push | dumbtool/src/tables.rs:44-54 | the event goes under the key of the old length |
| EventLog.EventsTable.Get | dumbtool/src/tables.rs:58-67 | what is stored under the key of the index, if anything |
| EventLog.EventsTable.Clear | dumbtool/src/tables.rs:68-72 | no keys and length 0 |
| EventLog.HoldsSize | dumbtool/src/tables.rs:36-43 | a keyspace that holds a log has as many keys as the log has events, so reopening finds the right length |
| EventLog.HoldsUnique | dumbtool/src/tables.rs:58-67 | a keyspace determines its log |
| EventLog.RunAgrees | dumbtool/src/tables.rs:35-72 | after any pushes, clears, restarts and reloads the keys are exactly those of 0 to length - 1 and hold the events since the last clear |
| EventLog.RunGet | dumbtool/src/tables.rs:58-67 | `get(i)` is the i-th event since the last clear, and nothing past the end |
| EventLog.EventsListReload | dumbtool/src/bin/dumbserver/ui/events.rs:12-40 | collecting the new events and inserting them one by one gives the specified list, missing events included |
| EventLog.ReloadedAdds | dumbtool/src/bin/dumbserver/ui/events.rs:12-40 | a reload puts the unseen events in front, the newest first, and keeps what was shown |
| EventLog.ReloadIff | dumbtool/src/bin/dumbserver/ui/events.rs:12-40 | a reload shows the whole log exactly when the list is the reverse of the start of this log; a list that is longer never does |
| EventLog.RunShows | dumbtool/src/bin/dumbserver/ui/events.rs:12-75 | in every run, restarts and clears by the other tool included, the list is at all times the reverse of the start of the log that it covers, and after entering the screen or reloading of the whole log |

## Left out

Weaker than the code on purpose:

- SessionTheorem: covers sessions with matching versions, at most 256 arguments and strings of fewer than 4096 bytes; other versions, longer arguments and no arguments are the subject of `SessionEndings`.
- TooManyArguments: states what each side does with all that the other one sends; the handler ends without reading the arguments, and an interleaving in which the client is still writing them then is not covered.
- CallsAtMostOnce: takes one request at a time; calls that overlap are the subject of `Requests.GrantedTwiceIff`.
- HonestVerifies: adds 60 to the request time without the 64-bit overflow that a time near 2^63 would cause.
- GetExpireOrSetInPlace: adds the clock to a delay without 64-bit overflow; for a terminated field and a clock before 9*10^14 none can happen.
- Load: open, read, seek and write failures of the code file are not modelled, nor is the choice between the user's and the global directory.
- CopyTree: states what holds when it returns; opening a FIFO that nobody reads does not return, and what a FIFO or device does with the bytes is not modelled. Without I/O faults, `EINTR`, file modes, hard links and links on the way to the two roots; the source does not change from outside.
- Boot: under faults it states what the `oem_out` chains keep, and nothing about `oem_sbox`.
- Control: the operations on the whitelist file itself do not fail, and every line of it ends in a newline.
- Process: `pm list packages` is one table for the whole call; a line of it is found by its package name.
- RunClient: writing to a peer that has gone away does not fail; neither does it for Handler.
- EngineSeen: speaks of the messages from the engine on; those that `secret_code` sends before it are not empty and are left out.
- RunBuffer: takes the downloaded bytes as given; network time, download and request signing in `secret_code` come before it.

Not modelled:

- The handlers behind a call: installing, exporting, importing, adb, wifi, OEM lock. They are entries in a trace with an arbitrary result, and the messages that they write themselves are a function of the trace (`Conversation.MessagesOf`).
- Ed25519, key files and the hexadecimal codecs (`ed25519.c`); an error of verification is some number other than 0.
- Failing allocations and logging; logging keeps `errno`.
- `DEBUG_MODE`, the shell command it adds and its default user.
- The outer header that `cmd_composite` and `cmd_firewall` of the C tool copy with its old data size; the round trips are stated for the data section, and whole payloads for the Rust setters.
- `cmdset.rs` of the Rust tool, which never writes its file back.
- `request_id_generate`, key generation and other randomness.
- `firewall/sing-box-wrapper.sh`, `curl.c`, the HTTP servers, mounting and namespaces, SELinux, the lock-screen text, the user interface and the argument parsers.
- fjall and postcard: a keyspace is a map, and an event is stored as itself.
- Text that is not UTF-8, on which the Rust side panics.
