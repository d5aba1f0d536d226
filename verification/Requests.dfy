/** One-shot request ids: how a request is verified, and that each id is consumed at most once. */
module Requests {
  import opened Bytes
  import opened Errno
  import opened Decimal
  import opened Payload
  import opened Charsets
  import Expiry

  type Text = seq<Byte>

  const SLASH: Byte := 47

  // ----- allowed characters -----

  predicate IsLetter(b: Byte) {
    97 <= b <= 122 || 65 <= b <= 90
  }

  /** DUMBOS_USER_ALLOWED_CHARS. */
  predicate UserChar(b: Byte) {
    IsLetter(b) || IsDigit(b) || b == 45 || b == 95
  }

  /** REQUESTID_ALLOWED_CHARS. */
  predicate RequestChar(b: Byte) {
    IsLetter(b) || IsDigit(b)
  }

  /** SECRET_CODE_ALLOWED_CHARS. */
  predicate CodeChar(b: Byte) {
    97 <= b <= 122 || IsDigit(b) || b == 45 || b == 95
  }

  predicate AllAllowed(s: Text, allowed: Byte -> bool) {
    forall i :: 0 <= i < |s| ==> allowed(s[i])
  }

  /** The loop of `check_allowed_chars`. */
  method CheckAllowedChars(s: Text, allowed: Byte -> bool) returns (ok: bool)
    ensures ok <==> AllAllowed(s, allowed)
  {
    var i := 0;
    while i < |s|
      invariant 0 <= i <= |s| && AllAllowed(s[..i], allowed)
    {
      if !allowed(s[i]) {
        return false;
      }
      assert s[..i + 1] == s[..i] + [s[i]];
      i := i + 1;
    }
    assert s[..|s|] == s;
    ok := true;
  }

  // ----- names of consumed requests -----

  /** The file that `dumb_handler` creates for a request. */
  function RequestPath(user: Text, id: Text): Text {
    Ascii("user/") + (user + [SLASH] + (Ascii("/request-") + id))
  }

  /** The key that `dumb_verify_request` inserts for a request. */
  function RequestKey(user: Text, id: Text): Text {
    user + [SLASH] + id
  }

  predicate NotSlash(b: Byte) {
    b != SLASH
  }

  lemma SlashAt(a: Text, x: Text)
    requires SLASH !in a
    ensures Span(a + [SLASH] + x, 0, NotSlash) == |a|
  {
    var s := a + [SLASH] + x;
    assert forall i :: 0 <= i < |a| ==> s[i] == a[i] && a[i] in a;
    assert s[|a|] == SLASH;
  }

  /** The text before the first slash, and the text after it, are determined by the whole. */
  lemma FirstSlash(a: Text, x: Text, b: Text, y: Text)
    requires a + [SLASH] + x == b + [SLASH] + y && SLASH !in a && SLASH !in b
    ensures a == b && x == y
  {
    SlashAt(a, x);
    SlashAt(b, y);
    var s := a + [SLASH] + x;
    assert a == s[..|a|] && x == s[|a| + 1..];
    assert b == s[..|b|] && y == s[|b| + 1..];
  }

  lemma NoSlash(user: Text)
    requires AllAllowed(user, UserChar)
    ensures SLASH !in user
  {
  }

  /** Distinct requests have distinct files and distinct keys. */
  lemma NamesInjective(user: Text, id: Text, user': Text, id': Text)
    requires AllAllowed(user, UserChar) && AllAllowed(user', UserChar)
    ensures RequestPath(user, id) == RequestPath(user', id') ==> user == user' && id == id'
    ensures RequestKey(user, id) == RequestKey(user', id') ==> user == user' && id == id'
  {
    hide Ascii;
    NoSlash(user);
    NoSlash(user');
    if RequestKey(user, id) == RequestKey(user', id') {
      FirstSlash(user, id, user', id');
    }
    if RequestPath(user, id) == RequestPath(user', id') {
      var u, r := Ascii("user/"), Ascii("/request-");
      CancelFront(u, user + [SLASH] + (r + id), user' + [SLASH] + (r + id'));
      FirstSlash(user, r + id, user', r + id');
      CancelFront(r, id, id');
    }
  }

  lemma CancelFront(f: Text, a: Text, b: Text)
    ensures f + a == f + b ==> a == b
  {
    assert (f + a)[|f|..] == a && (f + b)[|f|..] == b;
  }

  // ----- requestid.c -----

  datatype Request = Request(user: Text, id: Text, time: Text, signature: Text)

  const MAGIC := "af123oidoo"

  /** What is signed for a request. */
  function RequestText(user: Text, id: Text, time: Text): Text {
    user + Ascii(MAGIC) + id + time
  }

  /** `request_id_sign` at time `n`; `None` for an id with other characters. */
  function SignRequest(user: Text, id: Text, n: int, s: Scheme): Option<Request> {
    if !AllAllowed(id, RequestChar) then None
    else Some(Request(user, id, Print(n), s.sign(RequestText(user, id, Print(n)))))
  }

  /** `request_id_verify` with the server clock at `now`: 0, or an error number. */
  function VerifyRequest(r: Request, verify: (seq<Byte>, seq<Byte>) -> int, now: int): int {
    var err := verify(RequestText(r.user, r.id, r.time), r.signature);
    if err != 0 then err
    else match ParseLongLong(r.time)
      case None => EINVAL
      case Some(t) => if t + Expiry.DEFAULT_EXPIRE_TIME < now then EKEYEXPIRED else 0
  }

  /** An honest request made for time `n` verifies exactly up to a minute later. */
  lemma HonestVerifies(user: Text, id: Text, n: int, s: Scheme, now: int)
    requires Correct(s) && FitsInt64(n) && AllAllowed(id, RequestChar)
    ensures VerifyRequest(SignRequest(user, id, n, s).value, s.verify, now) == 0 <==> now <= n + 60
  {
    PrintParse(n);
  }

  // ----- dumb_handler.c: concurrent handlers -----

  /** The public key file of each user, as a verifier. */
  type Keys = map<Text, (seq<Byte>, seq<Byte>) -> int>

  /** Where a handler is: before its checks, before the exclusive create, or past it. */
  datatype Stage = Arrived | Verified | Accepted | Rejected

  datatype Handler = Handler(request: Request, stage: Stage)

  /** The handlers at work, and the request files. */
  datatype Server = Server(handlers: seq<Handler>, files: set<Text>)

  /** The checks before the create: characters, the key file, and the signature and its time. */
  predicate Checks(r: Request, keys: Keys, now: int) {
    && AllAllowed(r.user, UserChar) && AllAllowed(r.id, RequestChar)
    && r.user in keys && VerifyRequest(r, keys[r.user], now) == 0
  }

  /** A request in its own terms: written with the allowed characters, from a known user, whose key
      verifies the signature of user, magic, id and time, and not more than a minute old. */
  ghost predicate Authentic(r: Request, keys: Keys, now: int) {
    && MadeOf(r.user, "abcdefghijklmnopqrstuvwxyzABCDEFGHIJKLMNOPQRSTUVWXYZ0123456789-_")
    && MadeOf(r.id, "abcdefghijklmnopqrstuvwxyzABCDEFGHIJKLMNOPQRSTUVWXYZ0123456789")
    && r.user in keys
    && keys[r.user](r.user + Ascii("af123oidoo") + r.id + r.time, r.signature) == 0
    && ParseLongLong(r.time).Some? && now <= ParseLongLong(r.time).value + 60
  }

  predicate CodeAllowed(code: Text) {
    MadeOf(code, "abcdefghijklmnopqrstuvwxyz0123456789-_")
  }

  lemma AllowedIff(s: Text)
    ensures AllAllowed(s, UserChar) <==>
            MadeOf(s, "abcdefghijklmnopqrstuvwxyzABCDEFGHIJKLMNOPQRSTUVWXYZ0123456789-_")
    ensures AllAllowed(s, RequestChar) <==>
            MadeOf(s, "abcdefghijklmnopqrstuvwxyzABCDEFGHIJKLMNOPQRSTUVWXYZ0123456789")
    ensures AllAllowed(s, CodeChar) <==> CodeAllowed(s)
  {
    hide Ascii;
    forall i | 0 <= i < |s|
      ensures UserChar(s[i]) <==>
              s[i] in Ascii("abcdefghijklmnopqrstuvwxyzABCDEFGHIJKLMNOPQRSTUVWXYZ0123456789-_")
      ensures RequestChar(s[i]) <==>
              s[i] in Ascii("abcdefghijklmnopqrstuvwxyzABCDEFGHIJKLMNOPQRSTUVWXYZ0123456789")
      ensures CodeChar(s[i]) <==> s[i] in Ascii("abcdefghijklmnopqrstuvwxyz0123456789-_")
    {
      UserChars(s[i]);
      RequestChars(s[i]);
      CodeChars(s[i]);
    }
  }

  /** The checks pass exactly the authentic requests. */
  lemma ChecksIff(r: Request, keys: Keys, now: int)
    ensures Checks(r, keys, now) <==> Authentic(r, keys, now)
  {
    hide MadeOf, AllAllowed, Ascii, ParseLongLong;
    AllowedIff(r.user);
    AllowedIff(r.id);
  }

  /** The file of a request, spelled out. */
  lemma PathText(user: Text, id: Text)
    ensures RequestPath(user, id) == Ascii("user/") + user + Ascii("//request-") + id
  {
    assert Ascii("//request-") == [SLASH] + Ascii("/request-");
  }

  function PathOf(h: Handler): Text {
    RequestPath(h.request.user, h.request.id)
  }

  /** One step of one handler. The create is one atomic step; it may also fail for other reasons. */
  function Step(s: Server, i: nat, keys: Keys, now: int, fault: bool): Server
    requires i < |s.handlers|
  {
    var h := s.handlers[i];
    match h.stage
    case Arrived =>
      s.(handlers := s.handlers[i := h.(stage := if Checks(h.request, keys, now) then Verified else Rejected)])
    case Verified =>
      if PathOf(h) in s.files || fault then s.(handlers := s.handlers[i := h.(stage := Rejected)])
      else Server(s.handlers[i := h.(stage := Accepted)], s.files + {PathOf(h)})
    case Accepted => s
    case Rejected => s
  }

  /** The request files on disk. */
  class RequestFiles {
    var files: set<Text>

    constructor (files: set<Text>)
      ensures this.files == files
    {
      this.files := files;
    }

    /** `open` with O_CREAT and O_EXCL. */
    method CreateExclusive(path: Text, fault: bool) returns (ok: bool)
      modifies this
      ensures ok <==> path !in old(files) && !fault
      ensures files == if ok then old(files) + {path} else old(files)
    {
      ok := path !in files && !fault;
      if ok {
        files := files + {path};
      }
    }

    /** `dumb_handler` up to the loading of the code: the two steps of a handler, one after the other. */
    method DumbHandler(r: Request, keys: Keys, now: int, fault: bool) returns (accepted: bool)
      modifies this
      ensures var start := Server([Handler(r, Arrived)], old(files));
        Server([Handler(r, if accepted then Accepted else Rejected)], files) ==
        Step(Step(start, 0, keys, now, fault), 0, keys, now, fault)
      ensures var path := Ascii("user/") + r.user + Ascii("//request-") + r.id;
        && (accepted <==> Authentic(r, keys, now) && path !in old(files) && !fault)
        && files == if accepted then old(files) + {path} else old(files)
    {
      hide VerifyRequest, RequestPath, Authentic, Ascii, AllAllowed;
      ChecksIff(r, keys, now);
      PathText(r.user, r.id);
      var ok := CheckAllowedChars(r.user, UserChar);
      if !ok {
        return false;
      }
      ok := CheckAllowedChars(r.id, RequestChar);
      if !ok {
        return false;
      }
      if r.user !in keys {
        return false;
      }
      if VerifyRequest(r, keys[r.user], now) != 0 {
        return false;
      }
      accepted := CreateExclusive(RequestPath(r.user, r.id), fault);
    }
  }

  /** A schedule: which handler goes next, what the clock shows, and whether a create fails. */
  datatype Turn = Turn(i: nat, now: int, fault: bool)

  function Run(s: Server, turns: seq<Turn>, keys: Keys): Server {
    if turns == [] then s else
      var before, t := Run(s, turns[..|turns| - 1], keys), turns[|turns| - 1];
      if t.i < |before.handlers| then Step(before, t.i, keys, t.now, t.fault) else before
  }

  /** The request files of the handlers that have been accepted. */
  function AcceptedPaths(handlers: seq<Handler>): set<Text> {
    set i | 0 <= i < |handlers| && handlers[i].stage.Accepted? :: PathOf(handlers[i])
  }

  /** The files are those of the start and those of the accepted handlers; these are new, and no two
      accepted handlers have the same request. */
  ghost predicate AtMostOnce(start: set<Text>, s: Server) {
    && s.files == start + AcceptedPaths(s.handlers) && start !! AcceptedPaths(s.handlers)
    && (forall i :: 0 <= i < |s.handlers| && (s.handlers[i].stage.Accepted? || s.handlers[i].stage.Verified?) ==>
          AllAllowed(s.handlers[i].request.user, UserChar))
    && (forall i, j :: 0 <= i < j < |s.handlers| && s.handlers[i].stage.Accepted? && s.handlers[j].stage.Accepted? ==>
          PathOf(s.handlers[i]) != PathOf(s.handlers[j]))
  }

  lemma PathsAfter(handlers: seq<Handler>, i: nat, stage: Stage)
    requires i < |handlers| && !handlers[i].stage.Accepted?
    ensures AcceptedPaths(handlers[i := handlers[i].(stage := stage)]) ==
            AcceptedPaths(handlers) + if stage.Accepted? then {PathOf(handlers[i])} else {}
  {
    var after := handlers[i := handlers[i].(stage := stage)];
    forall p | p in AcceptedPaths(handlers)
      ensures p in AcceptedPaths(after)
    {
      var k :| 0 <= k < |handlers| && handlers[k].stage.Accepted? && p == PathOf(handlers[k]);
      assert after[k] == handlers[k];
    }
    if stage.Accepted? {
      assert PathOf(after[i]) == PathOf(handlers[i]);
    }
  }

  lemma StepAtMostOnce(start: set<Text>, s: Server, i: nat, keys: Keys, now: int, fault: bool)
    requires AtMostOnce(start, s) && i < |s.handlers|
    ensures AtMostOnce(start, Step(s, i, keys, now, fault))
    ensures s.handlers[i].stage.Arrived? ==> Step(s, i, keys, now, fault).files == s.files
  {
    hide VerifyRequest, AllAllowed, RequestPath;
    var h, s' := s.handlers[i], Step(s, i, keys, now, fault);
    if h.stage.Arrived? || h.stage.Verified? {
      PathsAfter(s.handlers, i, s'.handlers[i].stage);
      forall j | 0 <= j < |s.handlers| && j != i && s.handlers[j].stage.Accepted?
        ensures PathOf(s.handlers[j]) in s.files
      {
        assert PathOf(s.handlers[j]) in AcceptedPaths(s.handlers);
      }
    }
  }

  /** Every run keeps the invariant and the requests. */
  lemma {:induction false} RunAtMostOnce(s: Server, turns: seq<Turn>, keys: Keys)
    requires forall i :: 0 <= i < |s.handlers| ==> s.handlers[i].stage.Arrived?
    ensures AtMostOnce(s.files, Run(s, turns, keys))
    ensures var hs := Run(s, turns, keys).handlers;
      |hs| == |s.handlers| && forall i :: 0 <= i < |hs| ==> hs[i].request == s.handlers[i].request
  {
    hide AtMostOnce, AllAllowed, RequestPath, VerifyRequest;
    if turns == [] {
      NoneAccepted(s);
    } else {
      RunAtMostOnce(s, turns[..|turns| - 1], keys);
      var before, t := Run(s, turns[..|turns| - 1], keys), turns[|turns| - 1];
      if t.i < |before.handlers| {
        StepAtMostOnce(s.files, before, t.i, keys, t.now, t.fault);
      }
    }
  }

  /** A handler that has got past its checks did so on an authentic request, at some turn of the run. */
  lemma {:induction false} PastChecks(s: Server, turns: seq<Turn>, keys: Keys, i: nat)
    requires i < |s.handlers| && s.handlers[i].stage.Arrived?
    ensures |Run(s, turns, keys).handlers| == |s.handlers|
    ensures var h := Run(s, turns, keys).handlers[i];
      && h.request == s.handlers[i].request
      && (h.stage.Verified? || h.stage.Accepted? ==>
          exists k :: 0 <= k < |turns| && Authentic(h.request, keys, turns[k].now))
  {
    hide Checks, Authentic;
    if turns != [] {
      var front, last := turns[..|turns| - 1], turns[|turns| - 1];
      PastChecks(s, front, keys, i);
      var h := Run(s, front, keys).handlers[i];
      ChecksIff(h.request, keys, last.now);
      if h.stage.Verified? || h.stage.Accepted? {
        var k :| 0 <= k < |front| && Authentic(h.request, keys, front[k].now);
        assert turns[k] == front[k];
      } else if Checks(h.request, keys, last.now) {
        assert turns[|turns| - 1] == last;
      }
    }
  }

  /** A forged request, over every interleaving: it never gets past its checks, and no step of its
      handler changes the files. */
  lemma ForgedNever(s: Server, turns: seq<Turn>, keys: Keys, i: nat, now: int, fault: bool)
    requires i < |s.handlers| && s.handlers[i].stage.Arrived?
    requires var r := s.handlers[i].request;
      r.user in keys ==> keys[r.user](r.user + Ascii("af123oidoo") + r.id + r.time, r.signature) != 0
    ensures var after := Run(s, turns, keys);
      && i < |after.handlers| && (after.handlers[i].stage.Arrived? || after.handlers[i].stage.Rejected?)
      && Step(after, i, keys, now, fault).files == after.files
  {
    hide Run, Checks, Ascii, MadeOf;
    PastChecks(s, turns, keys, i);
  }

  /** The first step of a handler: authentic requests get past the checks, the others are rejected. */
  lemma ArrivedStep(s: Server, i: nat, keys: Keys, now: int, fault: bool)
    requires i < |s.handlers| && s.handlers[i].stage.Arrived?
    ensures var s' := Step(s, i, keys, now, fault);
      && (s'.handlers[i].stage.Verified? <==> Authentic(s.handlers[i].request, keys, now))
      && (s'.handlers[i].stage.Rejected? <==> !Authentic(s.handlers[i].request, keys, now))
      && s'.files == s.files
  {
    hide Checks, Authentic;
    ChecksIff(s.handlers[i].request, keys, now);
  }

  lemma NoneAccepted(s: Server)
    requires forall i :: 0 <= i < |s.handlers| ==> s.handlers[i].stage.Arrived?
    ensures AtMostOnce(s.files, s)
  {
    assert AcceptedPaths(s.handlers) == {};
  }

  predicate SamePair(a: Request, b: Request) {
    a.user == b.user && a.id == b.id
  }

  /** Over every interleaving of handlers, clocks and failing creates: two accepted handlers never have
      the same user and id; and the request files are those of the start and one new file for every
      accepted handler, so a handler that is not accepted has consumed nothing. */
  lemma HandlersAtMostOnce(s: Server, turns: seq<Turn>, keys: Keys)
    requires forall i :: 0 <= i < |s.handlers| ==> s.handlers[i].stage.Arrived?
    ensures var Server(hs, files) := Run(s, turns, keys);
      && |hs| == |s.handlers| && files == s.files + AcceptedPaths(hs) && s.files !! AcceptedPaths(hs)
      && (forall i, j | 0 <= i < j < |s.handlers| && hs[i].stage.Accepted? && hs[j].stage.Accepted?
            :: !SamePair(s.handlers[i].request, s.handlers[j].request))
  {
    hide Run, AcceptedPaths, RequestPath, AllAllowed;
    RunAtMostOnce(s, turns, keys);
    var hs := Run(s, turns, keys).handlers;
    forall i, j | 0 <= i < j < |hs| && hs[i].stage.Accepted? && hs[j].stage.Accepted?
      ensures !SamePair(s.handlers[i].request, s.handlers[j].request)
    {
      assert PathOf(hs[i]) != PathOf(hs[j]);
      assert hs[i].request == s.handlers[i].request && hs[j].request == s.handlers[j].request;
    }
  }

  /** An honest request of a known user passes the checks exactly up to a minute after the time it
      was made for. Having passed, it is accepted unless its create fails or its own pair of user and
      id has been used: no other request is in its way. */
  lemma HonestAccepted(start: set<Text>, s: Server, i: nat, keys: Keys, n: int, key: Scheme, now: int)
    requires AtMostOnce(start, s) && i < |s.handlers| && Correct(key) && FitsInt64(n)
    requires var r := s.handlers[i].request;
      && AllAllowed(r.user, UserChar) && AllAllowed(r.id, RequestChar)
      && SignRequest(r.user, r.id, n, key) == Some(r) && r.user in keys && keys[r.user] == key.verify
    requires forall p :: p in start ==> p != PathOf(s.handlers[i])
    requires forall j :: 0 <= j < |s.handlers| && s.handlers[j].stage.Accepted? ==>
      s.handlers[j].request.user != s.handlers[i].request.user || s.handlers[j].request.id != s.handlers[i].request.id
    ensures s.handlers[i].stage.Arrived? ==>
      (Step(s, i, keys, now, false).handlers[i].stage.Verified? <==> now <= n + 60)
    ensures s.handlers[i].stage.Verified? ==> Step(s, i, keys, now, false).handlers[i].stage.Accepted?
  {
    hide VerifyRequest, RequestPath, SignRequest, AllAllowed;
    var r := s.handlers[i].request;
    HonestVerifies(r.user, r.id, n, key, now);
    forall j | 0 <= j < |s.handlers| && s.handlers[j].stage.Accepted?
      ensures PathOf(s.handlers[j]) != PathOf(s.handlers[i])
    {
      NamesInjective(s.handlers[j].request.user, s.handlers[j].request.id, r.user, r.id);
    }
  }

  // ----- server.rs: one request after the other -----

  /** The inner result is the verdict on the request, the outer one an error of the server. */
  datatype Verdict = Granted | Refused | Failed

  /** `dumb_verify_request`: the verdict, without the effect on the table. */
  function Judge(r: Request, code: Text, used: set<Text>, keys: Keys, now: int): Verdict {
    if !AllAllowed(r.user, UserChar) || !AllAllowed(code, CodeChar) || !AllAllowed(r.id, RequestChar) then Refused
    else if r.user !in keys then Failed
    else if RequestKey(r.user, r.id) in used then Refused
    else if VerifyRequest(r, keys[r.user], now) != 0 then Refused
    else Granted
  }

  lemma KeyText(user: Text, id: Text)
    ensures RequestKey(user, id) == user + [47] + id
  {
  }

  /** Granted are exactly the authentic requests with an allowed code and an unused pair; an unknown user
      is an error, and everything else is refused. */
  lemma JudgeIff(r: Request, code: Text, used: set<Text>, keys: Keys, now: int)
    ensures Judge(r, code, used, keys, now) == Granted <==>
            Authentic(r, keys, now) && CodeAllowed(code) && r.user + [47] + r.id !in used
    ensures Judge(r, code, used, keys, now) == Failed <==>
            MadeOf(r.user, "abcdefghijklmnopqrstuvwxyzABCDEFGHIJKLMNOPQRSTUVWXYZ0123456789-_") && CodeAllowed(code) &&
            MadeOf(r.id, "abcdefghijklmnopqrstuvwxyzABCDEFGHIJKLMNOPQRSTUVWXYZ0123456789") && r.user !in keys
  {
    hide MadeOf, AllAllowed, Ascii, VerifyRequest;
    AllowedIff(r.user);
    AllowedIff(r.id);
    ChecksIff(r, keys, now);
    AllowedIff(code);
  }

  class RequestIdTable {
    var used: set<Text>

    constructor (used: set<Text>)
      ensures this.used == used
    {
      this.used := used;
    }

    /** `time` arrives as a 64-bit number and is printed for the check. */
    method DumbVerifyRequest(user: Text, code: Text, id: Text, signature: Text, time: nat, keys: Keys, now: int)
      returns (v: Verdict)
      modifies this
      ensures v == Judge(Request(user, id, Print(time), signature), code, old(used), keys, now)
      ensures used == if v.Granted? then old(used) + {user + [47] + id} else old(used)
      ensures v == Granted <==> Authentic(Request(user, id, Print(time), signature), keys, now) && CodeAllowed(code) &&
                                user + [47] + id !in old(used)
      ensures var r := Request(user, id, Print(time), signature);
        Calls([Caller(r, code, if v.Granted? then Inserted else Ended)], used) ==
        CallStep(CallStep(Calls([Caller(r, code, Waiting)], old(used)), 0, keys, now), 0, keys, now)
    {
      hide VerifyRequest, RequestKey, Print, Authentic, CodeAllowed, AllAllowed;
      JudgeIff(Request(user, id, Print(time), signature), code, used, keys, now);
      KeyText(user, id);
      var ok := CheckAllowedChars(user, UserChar);
      if !ok {
        return Refused;
      }
      ok := CheckAllowedChars(code, CodeChar);
      if !ok {
        return Refused;
      }
      ok := CheckAllowedChars(id, RequestChar);
      if !ok {
        return Refused;
      }
      var key := RequestKey(user, id);
      if user !in keys {
        return Failed;
      }
      if key in used {
        return Refused;
      }
      if VerifyRequest(Request(user, id, Print(time), signature), keys[user], now) != 0 {
        return Refused;
      }
      used := used + {key};
      v := Granted;
    }
  }

  /** A request as it reaches the Rust server, with its moment. */
  datatype Call = Call(request: Request, code: Text, now: int)

  function UsedAfter(used: set<Text>, calls: seq<Call>, keys: Keys): set<Text> {
    if calls == [] then used else
      var before, c := UsedAfter(used, calls[..|calls| - 1], keys), calls[|calls| - 1];
      if Judge(c.request, c.code, before, keys, c.now).Granted?
      then before + {RequestKey(c.request.user, c.request.id)} else before
  }

  predicate GrantedAt(used: set<Text>, calls: seq<Call>, keys: Keys, i: nat)
    requires i < |calls|
  {
    Judge(calls[i].request, calls[i].code, UsedAfter(used, calls[..i], keys), keys, calls[i].now).Granted?
  }

  lemma {:induction false} UsedGrows(used: set<Text>, calls: seq<Call>, keys: Keys, i: nat)
    requires i < |calls| && GrantedAt(used, calls, keys, i)
    ensures RequestKey(calls[i].request.user, calls[i].request.id) in UsedAfter(used, calls, keys)
  {
    hide Judge, RequestKey;
    var front := calls[..|calls| - 1];
    if i < |front| {
      assert front[..i] == calls[..i];
      UsedGrows(used, front, keys, i);
    } else {
      assert calls[..i] == front;
    }
  }

  /** Over every run of the Rust server, one request at a time: granted are exactly the authentic requests
      with an allowed code whose pair has not been granted or used before. */
  lemma GrantedIff(used: set<Text>, calls: seq<Call>, keys: Keys, i: nat)
    requires i < |calls|
    ensures var c := calls[i];
      GrantedAt(used, calls, keys, i) <==>
      Authentic(c.request, keys, c.now) && CodeAllowed(c.code) &&
      c.request.user + [47] + c.request.id !in UsedAfter(used, calls[..i], keys)
  {
    hide Authentic, CodeAllowed, Judge, UsedAfter;
    var c := calls[i];
    JudgeIff(c.request, c.code, UsedAfter(used, calls[..i], keys), keys, c.now);
  }

  /** Over every run of the Rust server, one request at a time: a pair of user and id is granted at
      most once, and what has been used changes only by what is granted. */
  lemma CallsAtMostOnce(used: set<Text>, calls: seq<Call>, keys: Keys, i: nat, j: nat)
    requires i < j < |calls| && GrantedAt(used, calls, keys, i) && GrantedAt(used, calls, keys, j)
    ensures calls[i].request.user != calls[j].request.user || calls[i].request.id != calls[j].request.id
  {
    hide VerifyRequest, RequestKey, AllAllowed;
    var front := calls[..j];
    assert front[..i] == calls[..i];
    UsedGrows(used, front, keys, i);
  }

  /** A granted pair was used by nobody before, and an honest request for an unused pair is granted
      exactly up to a minute after its time. */
  lemma HonestGranted(r: Request, code: Text, used: set<Text>, keys: Keys, n: int, key: Scheme, now: int)
    requires Correct(key) && FitsInt64(n) && SignRequest(r.user, r.id, n, key) == Some(r)
    requires AllAllowed(r.user, UserChar) && AllAllowed(code, CodeChar) && AllAllowed(r.id, RequestChar)
    requires r.user in keys && keys[r.user] == key.verify
    ensures Judge(r, code, used, keys, now) == Granted <==> RequestKey(r.user, r.id) !in used && now <= n + 60
  {
    hide VerifyRequest, RequestKey, SignRequest, AllAllowed;
    HonestVerifies(r.user, r.id, n, key, now);
  }

  // ----- server.rs: overlapping requests -----

  /** A call of `dumb_verify_request` before its look-up, between look-up and insertion, and past it. */
  datatype Phase = Waiting | LookedUp | Inserted | Ended

  datatype Caller = Caller(request: Request, code: Text, phase: Phase)

  /** The calls at work, and the keys in the table. */
  datatype Calls = Calls(callers: seq<Caller>, used: set<Text>)

  /** One step of one call: the checks with the look-up, or the insertion. */
  function CallStep(s: Calls, i: nat, keys: Keys, now: int): Calls
    requires i < |s.callers|
  {
    var c := s.callers[i];
    match c.phase
    case Waiting =>
      var granted := Judge(c.request, c.code, s.used, keys, now).Granted?;
      s.(callers := s.callers[i := c.(phase := if granted then LookedUp else Ended)])
    case LookedUp =>
      Calls(s.callers[i := c.(phase := Inserted)], s.used + {RequestKey(c.request.user, c.request.id)})
    case Inserted => s
    case Ended => s
  }

  datatype Move = Move(i: nat, now: int)

  function RunCalls(s: Calls, moves: seq<Move>, keys: Keys): Calls {
    if moves == [] then s else
      var before, m := RunCalls(s, moves[..|moves| - 1], keys), moves[|moves| - 1];
      if m.i < |before.callers| then CallStep(before, m.i, keys, m.now) else before
  }

  /** Two calls for the same user and id are both in one of these phases. */
  ghost predicate TwoIn(s: Calls, phases: set<Phase>) {
    exists i, j :: 0 <= i < j < |s.callers| && BothIn(s, phases, i, j)
  }

  ghost predicate BothIn(s: Calls, phases: set<Phase>, i: nat, j: nat)
    requires i < |s.callers| && j < |s.callers|
  {
    && s.callers[i].phase in phases && s.callers[j].phase in phases
    && SamePair(s.callers[i].request, s.callers[j].request)
  }

  /** At some time of the run two calls for the same user and id are both between look-up and insertion. */
  ghost predicate Overlap(s: Calls, moves: seq<Move>, keys: Keys) {
    exists k :: 0 <= k <= |moves| && TwoIn(RunCalls(s, moves[..k], keys), {LookedUp})
  }

  ghost predicate Recorded(s: Calls) {
    forall i :: 0 <= i < |s.callers| && s.callers[i].phase.Inserted? ==>
      RequestKey(s.callers[i].request.user, s.callers[i].request.id) in s.used
  }

  lemma StepExclusive(s: Calls, i: nat, keys: Keys, now: int)
    requires i < |s.callers| && Recorded(s) && !TwoIn(s, {LookedUp, Inserted})
    requires !TwoIn(CallStep(s, i, keys, now), {LookedUp})
    ensures Recorded(CallStep(s, i, keys, now)) && !TwoIn(CallStep(s, i, keys, now), {LookedUp, Inserted})
  {
    hide VerifyRequest, AllAllowed, RequestKey;
    var s' := CallStep(s, i, keys, now);
    forall a, b | 0 <= a < b < |s'.callers|
      ensures !BothIn(s', {LookedUp, Inserted}, a, b)
    {
      assert !BothIn(s, {LookedUp, Inserted}, a, b);
      assert !BothIn(s', {LookedUp}, a, b);
    }
  }

  /** Without overlap no two calls for the same user and id get past the look-up. */
  lemma {:induction false} NoOverlap(s: Calls, moves: seq<Move>, keys: Keys)
    requires (forall i :: 0 <= i < |s.callers| ==> s.callers[i].phase.Waiting?) && !Overlap(s, moves, keys)
    ensures Recorded(RunCalls(s, moves, keys)) && !TwoIn(RunCalls(s, moves, keys), {LookedUp, Inserted})
  {
    hide CallStep, Recorded, TwoIn;
    if moves == [] {
      NobodyPast(s);
    } else {
      var front, m := moves[..|moves| - 1], moves[|moves| - 1];
      forall k | 0 <= k <= |front|
        ensures !TwoIn(RunCalls(s, front[..k], keys), {LookedUp})
      {
        assert front[..k] == moves[..k];
      }
      NoOverlap(s, front, keys);
      assert moves[..|moves|] == moves;
      var before := RunCalls(s, front, keys);
      if m.i < |before.callers| {
        StepExclusive(before, m.i, keys, m.now);
      }
    }
  }

  lemma NobodyPast(s: Calls)
    requires forall i :: 0 <= i < |s.callers| ==> s.callers[i].phase.Waiting?
    ensures Recorded(s) && !TwoIn(s, {LookedUp, Inserted})
  {
  }

  /** A call keeps its request, and one that is past its look-up stays past it. */
  lemma {:induction false} StaysPast(s: Calls, moves: seq<Move>, keys: Keys, k: nat, i: nat)
    requires k <= |moves| && i < |RunCalls(s, moves[..k], keys).callers|
    ensures var before, after := RunCalls(s, moves[..k], keys).callers, RunCalls(s, moves, keys).callers;
      && |after| == |before| && after[i].request == before[i].request
      && (before[i].phase in {LookedUp, Inserted} ==> after[i].phase in {LookedUp, Inserted})
    decreases |moves|
  {
    hide Judge, RequestKey;
    if k == |moves| {
      assert moves[..k] == moves;
    } else {
      var front := moves[..|moves| - 1];
      assert front[..k] == moves[..k];
      StaysPast(s, front, keys, k, i);
    }
  }

  /** When all calls have come to their end, some user and id has been granted twice exactly if two calls
      for it were between look-up and insertion at the same time. */
  lemma GrantedTwiceIff(s: Calls, moves: seq<Move>, keys: Keys)
    requires forall i :: 0 <= i < |s.callers| ==> s.callers[i].phase.Waiting?
    requires forall i :: 0 <= i < |RunCalls(s, moves, keys).callers| ==>
               RunCalls(s, moves, keys).callers[i].phase in {Inserted, Ended}
    ensures TwoIn(RunCalls(s, moves, keys), {Inserted}) <==> Overlap(s, moves, keys)
  {
    hide RunCalls, Recorded;
    var after := RunCalls(s, moves, keys);
    if !Overlap(s, moves, keys) {
      NoOverlap(s, moves, keys);
      forall i, j | 0 <= i < j < |after.callers|
        ensures !BothIn(after, {Inserted}, i, j)
      {
        assert !BothIn(after, {LookedUp, Inserted}, i, j);
      }
    } else {
      var k :| 0 <= k <= |moves| && TwoIn(RunCalls(s, moves[..k], keys), {LookedUp});
      var between := RunCalls(s, moves[..k], keys);
      var i, j :| 0 <= i < j < |between.callers| && BothIn(between, {LookedUp}, i, j);
      StaysPast(s, moves, keys, k, i);
      StaysPast(s, moves, keys, k, j);
      assert BothIn(after, {Inserted}, i, j);
    }
  }

  /** The smallest case: one granted request, sent twice; both calls look up before either inserts. */
  lemma GrantedTwice(r: Request, code: Text, used: set<Text>, keys: Keys, now: int)
    requires Judge(r, code, used, keys, now).Granted?
    ensures var start := Calls([Caller(r, code, Waiting), Caller(r, code, Waiting)], used);
      RunCalls(start, [Move(0, now), Move(1, now), Move(0, now), Move(1, now)], keys).callers ==
      [Caller(r, code, Inserted), Caller(r, code, Inserted)]
  {
    hide Judge, RequestKey;
    var start := Calls([Caller(r, code, Waiting), Caller(r, code, Waiting)], used);
    var a, b := Move(0, now), Move(1, now);
    NextMove(start, [], a, keys);
    NextMove(start, [a], b, keys);
    NextMove(start, [a, b], a, keys);
    NextMove(start, [a, b, a], b, keys);
    assert [] + [a] == [a] && [a] + [b] == [a, b] && [a, b] + [a] == [a, b, a] && [a, b, a] + [b] == [a, b, a, b];
  }

  lemma NextMove(s: Calls, moves: seq<Move>, m: Move, keys: Keys)
    ensures var before := RunCalls(s, moves, keys);
      RunCalls(s, moves + [m], keys) == if m.i < |before.callers| then CallStep(before, m.i, keys, m.now) else before
  {
    hide CallStep;
    assert (moves + [m])[..|moves|] == moves;
  }
}
