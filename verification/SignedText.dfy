/** The text that is signed for a request: which requests share one, and when a signature is accepted
    for one request only. */
module SignedText {
  import opened Bytes
  import opened Decimal
  import opened Payload
  import opened Requests
  import Expiry

  // ----- which requests share a text -----

  /** Two requests of one user have the same signed text exactly when id and time, written behind each
      other, are the same. */
  lemma SameSignedIff(user: Text, id: Text, time: Text, id': Text, time': Text)
    ensures RequestText(user, id, time) == RequestText(user, id', time') <==> id + time == id' + time'
  {
    hide Ascii;
    var front := user + Ascii(MAGIC);
    assert RequestText(user, id, time) == front + (id + time) && RequestText(user, id', time') == front + (id' + time');
    CancelFront(front, id + time, id' + time');
  }

  /** So the signed text determines id and time among ids of one length. */
  lemma SignedInjective(user: Text, id: Text, time: Text, id': Text, time': Text)
    requires |id| == |id'|
    ensures RequestText(user, id, time) == RequestText(user, id', time') ==> id == id' && time == time'
  {
    SameSignedIff(user, id, time, id', time');
    if id + time == id' + time' {
      assert id == (id + time)[..|id|] && time == (id + time)[|id|..];
      assert id' == (id' + time')[..|id|] && time' == (id' + time')[|id|..];
    }
  }

  /** The request that shares the text of (id, n) and has the first `k` characters of the id. */
  function Shorter(user: Text, id: Text, n: int, signature: Text, k: nat): Request
    requires k <= |id|
  {
    Request(user, id[..k], id[k..] + Print(n), signature)
  }

  /** The request that shares the text of (id, n) and has the first `j` digits of the time in its id. */
  function Longer(user: Text, id: Text, n: int, signature: Text, j: nat): Request
    requires j <= |Print(n)|
  {
    Request(user, id + Print(n)[..j], Print(n)[j..], signature)
  }

  lemma SharedText(user: Text, id: Text, n: int, signature: Text)
    ensures forall k :: 0 <= k <= |id| ==>
      RequestText(user, id[..k], Shorter(user, id, n, signature, k).time) == RequestText(user, id, Print(n))
    ensures forall j :: 0 <= j <= |Print(n)| ==>
      RequestText(user, Longer(user, id, n, signature, j).id, Print(n)[j..]) == RequestText(user, id, Print(n))
  {
    hide Print, RequestText;
    forall k | 0 <= k <= |id|
      ensures RequestText(user, id[..k], id[k..] + Print(n)) == RequestText(user, id, Print(n))
    {
      assert id[..k] + (id[k..] + Print(n)) == id + Print(n);
      SameSignedIff(user, id[..k], id[k..] + Print(n), id, Print(n));
    }
    forall j | 0 <= j <= |Print(n)|
      ensures RequestText(user, id + Print(n)[..j], Print(n)[j..]) == RequestText(user, id, Print(n))
    {
      assert id + Print(n)[..j] + Print(n)[j..] == id + Print(n);
      SameSignedIff(user, id + Print(n)[..j], Print(n)[j..], id, Print(n));
    }
  }

  /** There are no others. */
  lemma SharedSplit(r: Request, user: Text, id: Text, n: int)
    requires r.user == user && RequestText(user, r.id, r.time) == RequestText(user, id, Print(n))
    ensures |r.id| <= |id| ==> r == Shorter(user, id, n, r.signature, |r.id|)
    ensures |r.id| > |id| ==> |r.id| - |id| <= |Print(n)| && r == Longer(user, id, n, r.signature, |r.id| - |id|)
  {
    hide Print, RequestText;
    SameSignedIff(user, r.id, r.time, id, Print(n));
    var whole := id + Print(n);
    assert r.id == whole[..|r.id|] && r.time == whole[|r.id|..];
  }

  // ----- which of them verify -----

  lemma AllowedTime(a: Text, ds: seq<Byte>)
    requires AllAllowed(a, RequestChar) && AllDigits(ds) && ds != []
    ensures ParseLongLong(a + ds) ==
            if AllDigits(a) && FitsInt64(Value(a + ds)) then Some(Value(a + ds)) else None
  {
    hide ParseLongLong, Value;
    var s := a + ds;
    assert forall i :: 0 <= i < |s| ==> RequestChar(s[i]);
    OnlyDigitsParse(s);
    DigitsInFront(a, ds);
    if AllDigits(a) {
      assert s[0..|s|] == s;
      SpellingParses(s, 0, 0, |s|);
    }
  }

  lemma DigitsInFront(a: Text, ds: seq<Byte>)
    ensures AllDigits(a + ds) ==> AllDigits(a)
  {
    assert forall i :: 0 <= i < |a| ==> (a + ds)[i] == a[i];
  }

  /** Letters and digits are no number unless they are all digits. */
  lemma OnlyDigitsParse(s: Text)
    requires forall i :: 0 <= i < |s| ==> RequestChar(s[i])
    ensures ParseLongLong(s).Some? ==> AllDigits(s)
  {
    hide ParseLongLong;
    assert forall i :: 0 <= i < |s| ==> !IsSpace(s[i]) && !IsSign(s[i]);
    if ParseLongLong(s).Some? {
      var a, b, c := ParsedIsSpelled(s);
      NoSpaceAround(s, a, b, c);
    }
  }

  /** A shorter id verifies exactly if what it lacks are digits, the number that they give together with
      the time fits 64 bits, and at most a minute has passed since that. */
  lemma ShorterVerifiesIff(user: Text, id: Text, n: int, key: Scheme, k: nat, now: int)
    requires Correct(key) && AllAllowed(id, RequestChar) && 0 <= n && k <= |id|
    ensures var signature := key.sign(RequestText(user, id, Print(n)));
      var v := Value(id[k..] + Digits(n));
      VerifyRequest(Shorter(user, id, n, signature, k), key.verify, now) == 0 <==>
      AllDigits(id[k..]) && FitsInt64(v) && now <= v + Expiry.DEFAULT_EXPIRE_TIME
  {
    hide Digits, ParseLongLong, RequestText, Value;
    var signature := key.sign(RequestText(user, id, Print(n)));
    SharedText(user, id, n, signature);
    AllowedTime(id[k..], Digits(n));
    assert key.verify(RequestText(user, id, Print(n)), signature) == 0;
  }

  /** A longer id verifies exactly if it leaves some of the time, and at most a minute has passed since
      what it leaves. */
  lemma LongerVerifiesIff(user: Text, id: Text, n: int, key: Scheme, j: nat, now: int)
    requires Correct(key) && AllAllowed(id, RequestChar) && 0 <= n && FitsInt64(n) && 0 < j <= |Print(n)|
    ensures var r := Longer(user, id, n, key.sign(RequestText(user, id, Print(n))), j);
      && AllAllowed(r.id, RequestChar)
      && (VerifyRequest(r, key.verify, now) == 0 <==>
          j < |Print(n)| && now <= Value(Print(n)[j..]) + Expiry.DEFAULT_EXPIRE_TIME)
  {
    hide Digits, ParseLongLong, RequestText, Value;
    var signature := key.sign(RequestText(user, id, Print(n)));
    SharedText(user, id, n, signature);
    TimeLeft(n, j);
    assert key.verify(RequestText(user, id, Print(n)), signature) == 0;
  }

  lemma TimeLeft(n: nat, j: nat)
    requires FitsInt64(n) && j <= |Print(n)|
    ensures ParseLongLong(Print(n)[j..]) == if j < |Print(n)| then Some(Value(Print(n)[j..])) else None
  {
    hide ParseLongLong, Value, Digits;
    var ds := Print(n)[j..];
    if ds != [] {
      DigitsValue(n);
      SuffixValue(Digits(n), j);
      AllowedTime([], ds);
      assert [] + ds == ds;
    } else {
      NothingParses();
    }
  }

  lemma NothingParses()
    ensures ParseLongLong([]).None?
  {
  }

  predicate EndsInDigit(id: Text) {
    id != [] && IsDigit(id[|id| - 1])
  }

  lemma DigitsAtEnd(id: Text, k: nat)
    requires k < |id|
    ensures AllDigits(id[k..]) ==> EndsInDigit(id)
  {
    assert id[k..][|id| - 1 - k] == id[|id| - 1];
  }

  lemma OneMoreDigit(c: Byte, n: nat)
    requires IsDigit(c) && n < 100_000_000_000_000_000
    ensures n <= Value([c] + Digits(n)) && FitsInt64(Value([c] + Digits(n)))
  {
    hide Digits, Value;
    Powers();
    DigitsLength(n, 17);
    DigitsValue(n);
    ValueBounds([c] + Digits(n));
    assert ([c] + Digits(n))[1..] == Digits(n);
    SuffixValue([c] + Digits(n), 1);
    Pow10Monotone(1 + |Digits(n)|, 18);
  }

  lemma Powers()
    ensures Pow10(17) == 100_000_000_000_000_000 && Pow10(18) == 1_000_000_000_000_000_000
  {
    assert Pow10(8) == 100_000_000;
    assert Pow10(12) == 1_000_000_000_000;
    assert Pow10(15) == 1_000_000_000_000_000;
  }

  /** Within the minute of an honest request some request with a shorter id verifies with its signature
      exactly if its own id ends in a digit. */
  lemma ShorterExistsIff(user: Text, id: Text, n: int, key: Scheme, now: int)
    requires Correct(key) && AllAllowed(id, RequestChar)
    requires 0 <= n < 100_000_000_000_000_000 && now <= n + Expiry.DEFAULT_EXPIRE_TIME
    ensures var signature := key.sign(RequestText(user, id, Print(n)));
      (exists k :: 0 <= k < |id| && VerifyRequest(Shorter(user, id, n, signature, k), key.verify, now) == 0) <==>
      EndsInDigit(id)
  {
    hide Digits, VerifyRequest, RequestText, Shorter, Value;
    var signature := key.sign(RequestText(user, id, Print(n)));
    forall k | 0 <= k < |id|
      ensures VerifyRequest(Shorter(user, id, n, signature, k), key.verify, now) == 0 ==> EndsInDigit(id)
    {
      ShorterVerifiesIff(user, id, n, key, k, now);
      DigitsAtEnd(id, k);
    }
    if EndsInDigit(id) {
      var k := |id| - 1;
      assert id[k..] == [id[k]];
      OneMoreDigit(id[k], n);
      ShorterVerifiesIff(user, id, n, key, k, now);
    }
  }

  // ----- runs of handlers -----

  /** The time after which no request with a longer id verifies any more. */
  function LongerOver(n: nat): int {
    Value(Digits(n)[1..]) + Expiry.DEFAULT_EXPIRE_TIME
  }

  /** If its id does not end in a digit, a request is then the only one with its text that can verify. */
  lemma OnlyItself(r: Request, user: Text, id: Text, n: nat, verify: (seq<Byte>, seq<Byte>) -> int, now: int)
    requires AllAllowed(id, RequestChar) && FitsInt64(n) && !EndsInDigit(id) && LongerOver(n) < now
    requires r.user == user && RequestText(user, r.id, r.time) == RequestText(user, id, Print(n))
    requires VerifyRequest(r, verify, now) == 0
    ensures r.id == id
  {
    hide Digits, ParseLongLong, RequestText, Value;
    SharedSplit(r, user, id, n);
    var k := |r.id|;
    if k < |id| {
      AllowedTime(id[k..], Digits(n));
      DigitsAtEnd(id, k);
    } else if k > |id| {
      TimeLeft(n, k - |id|);
      LaterSuffix(n, k - |id|);
    }
  }

  lemma LaterSuffix(n: nat, j: nat)
    requires 0 < j <= |Digits(n)|
    ensures Value(Digits(n)[j..]) <= Value(Digits(n)[1..])
  {
    hide Digits, Value;
    var ds := Digits(n)[1..];
    assert ds[j - 1..] == Digits(n)[j..];
    assert forall i :: 0 <= i < |ds| ==> ds[i] == Digits(n)[i + 1];
    SuffixValue(ds, j - 1);
  }

  /** Two handlers of one user have both been accepted with this text, in a run whose clock is always
      past `after`. */
  ghost predicate AcceptedTwice(s: Server, turns: seq<Turn>, keys: Keys, after: int, user: Text, text: Text) {
    && (forall i :: 0 <= i < |s.handlers| ==> s.handlers[i].stage.Arrived?)
    && (forall k :: 0 <= k < |turns| ==> after < turns[k].now)
    && exists i, j :: 0 <= i < j < |s.handlers| && BothAccepted(s, turns, keys, user, text, i, j)
  }

  ghost predicate BothAccepted(s: Server, turns: seq<Turn>, keys: Keys, user: Text, text: Text, i: nat, j: nat)
    requires i < |s.handlers| && j < |s.handlers|
  {
    && AcceptedWith(s, turns, keys, user, text, i)
    && AcceptedWith(s, turns, keys, user, text, j)
  }

  ghost predicate AcceptedWith(s: Server, turns: seq<Turn>, keys: Keys, user: Text, text: Text, i: nat)
    requires i < |s.handlers|
  {
    var r, hs := s.handlers[i].request, Run(s, turns, keys).handlers;
    && i < |hs| && hs[i].stage.Accepted?
    && r.user == user && RequestText(user, r.id, r.time) == text
  }

  lemma AcceptedIsItself(s: Server, turns: seq<Turn>, keys: Keys, user: Text, id: Text, n: nat, i: nat)
    requires i < |s.handlers| && s.handlers[i].stage.Arrived?
    requires forall k :: 0 <= k < |turns| ==> LongerOver(n) < turns[k].now
    requires AllAllowed(id, RequestChar) && FitsInt64(n) && !EndsInDigit(id)
    requires AcceptedWith(s, turns, keys, user, RequestText(user, id, Print(n)), i)
    ensures s.handlers[i].request.id == id
  {
    hide Run, VerifyRequest, RequestText, Print, LongerOver, EndsInDigit, AllAllowed;
    PastChecks(s, turns, keys, i);
    var r := s.handlers[i].request;
    var k :| 0 <= k < |turns| && Authentic(r, keys, turns[k].now);
    ChecksIff(r, keys, turns[k].now);
    OnlyItself(r, user, id, n, keys[user], turns[k].now);
  }

  /** An id that does not end in a digit: once the longer ids are over, a signature made for it is
      accepted at most once. */
  lemma SignatureAtMostOnce(s: Server, turns: seq<Turn>, keys: Keys, user: Text, id: Text, n: nat)
    requires AllAllowed(id, RequestChar) && FitsInt64(n) && !EndsInDigit(id)
    ensures !AcceptedTwice(s, turns, keys, LongerOver(n), user, RequestText(user, id, Print(n)))
  {
    hide Run, RequestText, Print, LongerOver, EndsInDigit, AllAllowed, AcceptedPaths, AcceptedWith;
    var text := RequestText(user, id, Print(n));
    if (forall i :: 0 <= i < |s.handlers| ==> s.handlers[i].stage.Arrived?) &&
       (forall k :: 0 <= k < |turns| ==> LongerOver(n) < turns[k].now)
    {
      HandlersAtMostOnce(s, turns, keys);
      forall i, j | 0 <= i < j < |s.handlers|
        ensures !BothAccepted(s, turns, keys, user, text, i, j)
      {
        if BothAccepted(s, turns, keys, user, text, i, j) {
          AcceptedIsItself(s, turns, keys, user, id, n, i);
          AcceptedIsItself(s, turns, keys, user, id, n, j);
          AcceptedParts(s, turns, keys, user, text, i);
          AcceptedParts(s, turns, keys, user, text, j);
        }
      }
    }
  }

  lemma AcceptedParts(s: Server, turns: seq<Turn>, keys: Keys, user: Text, text: Text, i: nat)
    requires i < |s.handlers| && AcceptedWith(s, turns, keys, user, text, i)
    ensures i < |Run(s, turns, keys).handlers| && Run(s, turns, keys).handlers[i].stage.Accepted?
    ensures s.handlers[i].request.user == user
  {
  }

  lemma RunNext(s: Server, turns: seq<Turn>, t: Turn, keys: Keys)
    ensures var before := Run(s, turns, keys);
      Run(s, turns + [t], keys) == if t.i < |before.handlers| then Step(before, t.i, keys, t.now, t.fault) else before
  {
    hide Step;
    assert (turns + [t])[..|turns|] == turns;
  }

  /** Two handlers, one after the other, whose requests both pass the checks and have different pairs of
      user and id, are both accepted. */
  lemma OneAfterTheOther(a: Request, b: Request, keys: Keys, now: int)
    requires Checks(a, keys, now) && Checks(b, keys, now) && !SamePair(a, b)
    ensures var s := Server([Handler(a, Arrived), Handler(b, Arrived)], {});
      var x, y := Turn(0, now, false), Turn(1, now, false);
      Run(s, [x, x, y, y], keys).handlers == [Handler(a, Accepted), Handler(b, Accepted)]
  {
    hide VerifyRequest, RequestPath, AllAllowed, Run;
    var s := Server([Handler(a, Arrived), Handler(b, Arrived)], {});
    var x, y := Turn(0, now, false), Turn(1, now, false);
    NamesInjective(a.user, a.id, b.user, b.id);
    NoTurns(s, keys);
    RunNext(s, [], x, keys);
    RunNext(s, [x], x, keys);
    RunNext(s, [x, x], y, keys);
    RunNext(s, [x, x, y], y, keys);
    assert [] + [x] == [x] && [x] + [x] == [x, x] && [x, x] + [y] == [x, x, y] && [x, x, y] + [y] == [x, x, y, y];
  }

  lemma NoTurns(s: Server, keys: Keys)
    ensures Run(s, [], keys) == s
  {
  }

  /** An id that ends in a digit: the request with that digit moved to its time passes the checks with
      the same signature. */
  lemma MovedDigitChecks(user: Text, id: Text, n: nat, key: Scheme, keys: Keys, now: int)
    requires Correct(key) && AllAllowed(user, UserChar) && AllAllowed(id, RequestChar) && EndsInDigit(id)
    requires user in keys && keys[user] == key.verify
    requires n < 100_000_000_000_000_000 && now <= n + Expiry.DEFAULT_EXPIRE_TIME
    ensures var signature := key.sign(RequestText(user, id, Print(n)));
      && Checks(Request(user, id, Print(n), signature), keys, now)
      && Checks(Shorter(user, id, n, signature, |id| - 1), keys, now)
      && RequestText(user, id[..|id| - 1], id[|id| - 1..] + Print(n)) == RequestText(user, id, Print(n))
  {
    hide Print, RequestText, VerifyRequest, Value, FitsInt64, RequestChar, UserChar;
    var signature, k := key.sign(RequestText(user, id, Print(n))), |id| - 1;
    SmallFits(n);
    HonestVerifies(user, id, n, key, now);
    assert id[k..] == [id[k]];
    OneMoreDigit(id[k], n);
    ShorterVerifiesIff(user, id, n, key, k, now);
    SharedText(user, id, n, signature);
    assert AllAllowed(id[..k], RequestChar);
  }

  lemma SmallFits(n: nat)
    requires n < 100_000_000_000_000_000
    ensures FitsInt64(n)
  {
  }

  /** The accepting run: the honest request and then the other one. */
  lemma MovedDigitAccepted(user: Text, id: Text, n: nat, key: Scheme, keys: Keys, now: int)
    requires Correct(key) && AllAllowed(user, UserChar) && AllAllowed(id, RequestChar) && EndsInDigit(id)
    requires user in keys && keys[user] == key.verify
    requires n < 100_000_000_000_000_000 && now <= n + Expiry.DEFAULT_EXPIRE_TIME
    ensures var signature := key.sign(RequestText(user, id, Print(n)));
      var a, b := Request(user, id, Print(n), signature), Shorter(user, id, n, signature, |id| - 1);
      var s := Server([Handler(a, Arrived), Handler(b, Arrived)], {});
      var x, y := Turn(0, now, false), Turn(1, now, false);
      && !SamePair(a, b)
      && Run(s, [x, x, y, y], keys).handlers == [Handler(a, Accepted), Handler(b, Accepted)]
  {
    hide Checks, Run, RequestText, Print;
    var signature := key.sign(RequestText(user, id, Print(n)));
    MovedDigitChecks(user, id, n, key, keys, now);
    OneAfterTheOther(Request(user, id, Print(n), signature), Shorter(user, id, n, signature, |id| - 1), keys, now);
  }

  /** When a signature made for an honest request can be accepted twice: over all runs that start after
      the longer ids are over, exactly if the id ends in a digit. */
  lemma SignatureTwiceIff(user: Text, id: Text, n: nat, key: Scheme, keys: Keys)
    requires Correct(key) && AllAllowed(user, UserChar) && AllAllowed(id, RequestChar)
    requires user in keys && keys[user] == key.verify && 0 < n < 100_000_000_000_000_000
    ensures var text := RequestText(user, id, Print(n));
      (exists s, turns :: AcceptedTwice(s, turns, keys, LongerOver(n), user, text)) <==> EndsInDigit(id)
  {
    hide *;
    SmallFits(n);
    forall s, turns
      ensures !EndsInDigit(id) ==>
        !AcceptedTwice(s, turns, keys, LongerOver(n), user, RequestText(user, id, Print(n)))
    {
      if !EndsInDigit(id) {
        SignatureAtMostOnce(s, turns, keys, user, id, n);
      }
    }
    if EndsInDigit(id) {
      var s, turns := TwiceWitness(user, id, n, key, keys);
    }
  }

  lemma TwiceWitness(user: Text, id: Text, n: nat, key: Scheme, keys: Keys) returns (s: Server, turns: seq<Turn>)
    requires Correct(key) && AllAllowed(user, UserChar) && AllAllowed(id, RequestChar) && EndsInDigit(id)
    requires user in keys && keys[user] == key.verify && 0 < n < 100_000_000_000_000_000
    ensures AcceptedTwice(s, turns, keys, LongerOver(n), user, RequestText(user, id, Print(n)))
  {
    hide Run, RequestText, Print, Checks, Digits, Value, AllAllowed;
    var signature, now := key.sign(RequestText(user, id, Print(n))), n + Expiry.DEFAULT_EXPIRE_TIME;
    var a, b := Request(user, id, Print(n), signature), Shorter(user, id, n, signature, |id| - 1);
    s := Server([Handler(a, Arrived), Handler(b, Arrived)], {});
    turns := [Turn(0, now, false), Turn(0, now, false), Turn(1, now, false), Turn(1, now, false)];
    WithoutFirst(n);
    MovedDigitChecks(user, id, n, key, keys, now);
    MovedDigitAccepted(user, id, n, key, keys, now);
    assert BothAccepted(s, turns, keys, user, RequestText(user, id, Print(n)), 0, 1);
  }

  /** Ids of one length: over every run a text is accepted at most once for a user, whatever the ids and
      the clocks are. */
  lemma SignedAtMostOnce(s: Server, turns: seq<Turn>, keys: Keys, i: nat, j: nat)
    requires forall k :: 0 <= k < |s.handlers| ==> s.handlers[k].stage.Arrived?
    requires i < j < |s.handlers|
    requires var a, b := s.handlers[i].request, s.handlers[j].request;
      a.user == b.user && |a.id| == |b.id| && RequestText(a.user, a.id, a.time) == RequestText(b.user, b.id, b.time)
    ensures var after := Run(s, turns, keys).handlers;
      |after| == |s.handlers| && !(after[i].stage.Accepted? && after[j].stage.Accepted?)
  {
    hide Run, RequestText, AcceptedPaths;
    var a, b := s.handlers[i].request, s.handlers[j].request;
    HandlersAtMostOnce(s, turns, keys);
    SignedInjective(a.user, a.id, a.time, b.id, b.time);
  }

  // ----- the Rust server -----

  /** The Rust server prints the time itself, so what a shorter id lacks must be digits without a leading
      zero. */
  lemma PrintedShorterIff(id: Text, n: nat, k: nat)
    requires k < |id| && AllAllowed(id, RequestChar)
    ensures (exists t: nat :: Print(t) == id[k..] + Print(n)) <==> AllDigits(id[k..]) && id[k] != 48
  {
    hide Digits, Value;
    var s := id[k..] + Digits(n);
    DigitsInFront(id[k..], Digits(n));
    forall t: nat | Print(t) == s
      ensures AllDigits(id[k..]) && id[k] != 48
    {
      FirstDigit(t);
      assert s[0] == id[k];
    }
    if AllDigits(id[k..]) && id[k] != 48 {
      PrintedIff(s);
      assert Print(Value(s)) == s;
    }
  }

  /** Over every run of the Rust server, among ids of one length a text is granted at most once for a
      user. */
  lemma GrantedSignedOnce(used: set<Text>, calls: seq<Call>, keys: Keys, i: nat, j: nat)
    requires i < j < |calls| && GrantedAt(used, calls, keys, i) && GrantedAt(used, calls, keys, j)
    requires calls[i].request.user == calls[j].request.user && |calls[i].request.id| == |calls[j].request.id|
    ensures var a, b := calls[i].request, calls[j].request;
      RequestText(a.user, a.id, a.time) != RequestText(b.user, b.id, b.time)
  {
    hide GrantedAt, RequestText;
    var a, b := calls[i].request, calls[j].request;
    CallsAtMostOnce(used, calls, keys, i, j);
    SignedInjective(a.user, a.id, a.time, b.id, b.time);
  }
}
