/** The two servers: the C server that pins a code's deadline on first use, and the Rust pipeline
    that resolves, signs and serialises a payload. */
module Server {
  import opened Bytes
  import opened Expiry
  import opened Payload

  /** The two readings of the clock in `dp_is_expired`: for the new deadline, and to compare it with. */
  datatype Clock = Clock(now: int, later: int)

  // ----- dp_load.c -----

  /** The stored file after a load, and the signed payload if the code is served. */
  datatype Loaded = Loaded(file: seq<Byte>, reply: Option<seq<Byte>>)

  function LoadCode(file: seq<Byte>, c: Clock, s: Scheme): Loaded {
    if |file| < HEADER_SIZE then Loaded(file, None)
    else if IsExpired(GetExpireOrSet(ExpireField(file), c.now).expire, c.later) then Loaded(file, None)
    else Loaded(Resolve(file, c.now), Some(Sign(Resolve(file, c.now), s)))
  }

  /** `dp_sign` on a whole buffer. */
  method SignInPlace(buf: array<Byte>, s: Scheme)
    requires HEADER_SIZE <= buf.Length && forall m :: |s.sign(m)| == SIGNATURE_SIZE - 1
    modifies buf
    ensures buf[..] == Sign(old(buf[..]), s)
  {
    ghost var p: Raw := buf[..];
    forall i | 0 <= i < SIGNATURE_SIZE {
      buf[i] := NUL;
    }
    assert buf[..] == Unsigned(p);
    var signature := s.sign(buf[..]) + [NUL];
    forall i | 0 <= i < SIGNATURE_SIZE {
      buf[i] := signature[i];
    }
    assert buf[..SIGNATURE_SIZE] == signature;
    assert buf[SIGNATURE_SIZE..] == p[SIGNATURE_SIZE..];
    assert buf[..] == buf[..SIGNATURE_SIZE] + buf[SIGNATURE_SIZE..];
  }

  /** A code file on the C server. */
  class CodeFile {
    var bytes: seq<Byte>

    constructor (bytes: seq<Byte>)
      ensures this.bytes == bytes
    {
      this.bytes := bytes;
    }

    /** `dp_malloc_check_load`: load, expire or pin, write back, sign the copy. */
    method Load(c: Clock, s: Scheme) returns (reply: Option<seq<Byte>>)
      requires forall m :: |s.sign(m)| == SIGNATURE_SIZE - 1
      modifies this
      ensures Loaded(bytes, reply) == LoadCode(old(bytes), c, s)
    {
      hide SetExpire, GetExpireOrSet, Sign;
      var size := |bytes|;
      if size < HEADER_SIZE {
        return None;
      }
      var payload := new Byte[size];
      forall i | 0 <= i < size {
        payload[i] := bytes[i];
      }
      assert payload[..] == bytes;
      var expire := ExpireWhole(payload, c.now);
      if IsExpired(expire, c.later) {
        return None;
      }
      bytes := payload[..];
      SignInPlace(payload, s);
      reply := Some(payload[..]);
    }
  }

  /** The expiry step on a buffer that holds one payload. */
  method ExpireWhole(buf: array<Byte>, now: int) returns (expire: int)
    requires HEADER_SIZE <= buf.Length
    modifies buf
    ensures expire == GetExpireOrSet(ExpireField(old(buf[..])), now).expire
    ensures buf[..] == Resolve(old(buf[..]), now)
  {
    hide GetExpireOrSet;
    ghost var p: Raw := buf[..];
    assert buf[EXPIRE_AT..EXPIRE_AT + EXPIRE_SIZE] == ExpireField(p);
    expire := GetExpireOrSetInPlace(buf, EXPIRE_AT, now);
    assert buf[..][EXPIRE_AT..COMMAND_AT] == buf[EXPIRE_AT..EXPIRE_AT + EXPIRE_SIZE];
    FieldReplaced(p, buf[..], GetExpireOrSet(ExpireField(p), now).field);
  }

  // ----- runs of loads -----

  /** The stored file after loads at the given times. */
  function FileAfter(file: seq<Byte>, clocks: seq<Clock>, s: Scheme): seq<Byte> {
    if clocks == [] then file
    else LoadCode(FileAfter(file, clocks[..|clocks| - 1], s), clocks[|clocks| - 1], s).file
  }

  /** Whether the `i`-th load of a run is served. */
  predicate ServedAt(file: seq<Byte>, clocks: seq<Clock>, i: nat, s: Scheme)
    requires i < |clocks|
  {
    LoadCode(FileAfter(file, clocks[..i], s), clocks[i], s).reply.Some?
  }

  /** A file whose field is settled on `e` is served while the deadline is ahead, and never changes. */
  lemma SettledLoad(file: Raw, c: Clock, s: Scheme)
    requires KindOf(ExpireField(file)).Absolute?
    ensures var e := KindOf(ExpireField(file)).deadline;
      LoadCode(file, c, s).file == file && (LoadCode(file, c, s).reply.Some? <==> !IsExpired(e, c.later))
  {
    hide Sign;
    WithSameExpire(file);
  }

  lemma NextFile(file: seq<Byte>, clocks: seq<Clock>, i: nat, s: Scheme)
    requires i <= |clocks|
    ensures FileAfter(file, clocks[..i], s) ==
            if i == 0 then file else LoadCode(FileAfter(file, clocks[..i - 1], s), clocks[i - 1], s).file
  {
    hide LoadCode;
    if i > 0 {
      assert clocks[..i][..i - 1] == clocks[..i - 1];
    }
  }

  /** An absolute code: over any run it is served exactly before its deadline (always if that is 0),
      and its stored bytes never change. */
  lemma {:induction false} AbsoluteRun(file: Raw, clocks: seq<Clock>, i: nat, s: Scheme)
    requires KindOf(ExpireField(file)).Absolute? && i < |clocks|
    ensures FileAfter(file, clocks[..i], s) == file
    ensures var e := KindOf(ExpireField(file)).deadline;
      ServedAt(file, clocks, i, s) <==> e == 0 || clocks[i].later < e
  {
    hide LoadCode, KindOf, FileAfter;
    SettledLoad(file, clocks[i], s);
    NextFile(file, clocks, i, s);
    if i > 0 {
      AbsoluteRun(file, clocks, i - 1, s);
      SettledLoad(file, clocks[i - 1], s);
    }
  }

  /** The deadline that a code with this delay would get from a load. */
  function Deadline(c: Clock, delay: int): int {
    c.now + delay
  }

  /** Loading a relative or default code for the first time: it is served, and pinned to the new
      deadline, unless that has passed at the second reading of the clock. */
  lemma FirstLoad(file: Raw, c: Clock, s: Scheme)
    requires KindOf(ExpireField(file)).After?
    ensures var e := Deadline(c, KindOf(ExpireField(file)).delay);
      LoadCode(file, c, s) ==
      if IsExpired(e, c.later) then Loaded(file, None)
      else Loaded(WithExpire(file, SetExpire(e)), Some(Sign(WithExpire(file, SetExpire(e)), s)))
  {
    hide SetExpire, Sign;
  }

  /** The field that a first use writes. */
  lemma PinnedField(file: Raw, deadline: int)
    requires FitsField(deadline) && deadline != -1
    ensures KindOf(ExpireField(WithExpire(file, SetExpire(deadline)))) == Absolute(deadline)
  {
    hide SetExpire;
    SameButExpire(file, SetExpire(deadline));
    SetGetIff(deadline);
  }

  /** The pinned field, and what it does to a later load. */
  lemma PinnedLoad(file: Raw, deadline: int, c: Clock, s: Scheme)
    requires FitsField(deadline) && deadline != -1
    ensures var pinned := WithExpire(file, SetExpire(deadline));
      LoadCode(pinned, c, s).file == pinned && (LoadCode(pinned, c, s).reply.Some? <==> !IsExpired(deadline, c.later))
  {
    hide LoadCode, SetExpire, KindOf;
    PinnedField(file, deadline);
    SettledLoad(WithExpire(file, SetExpire(deadline)), c, s);
  }

  /** The first load that finds a code with this delay not expired, or the end of the run. */
  function FirstUse(clocks: seq<Clock>, delay: int): (f: nat)
    ensures f <= |clocks|
    ensures forall i :: 0 <= i < f ==> IsExpired(Deadline(clocks[i], delay), clocks[i].later)
    ensures f < |clocks| ==> !IsExpired(Deadline(clocks[f], delay), clocks[f].later)
  {
    if clocks == [] then 0
    else if IsExpired(Deadline(clocks[0], delay), clocks[0].later) then 1 + FirstUse(clocks[1..], delay)
    else 0
  }

  /** If there is a first use, its clock is not before 1970 and its deadline has at most 15 characters. */
  ghost predicate FirstUseFits(clocks: seq<Clock>, delay: int) {
    var f := FirstUse(clocks, delay);
    f < |clocks| ==> 0 <= clocks[f].later && FitsField(Deadline(clocks[f], delay))
  }

  lemma {:induction false} PinnedFile(file: Raw, clocks: seq<Clock>, i: nat, s: Scheme)
    requires KindOf(ExpireField(file)).After? && i <= |clocks|
    requires FirstUseFits(clocks, KindOf(ExpireField(file)).delay)
    ensures var delay := KindOf(ExpireField(file)).delay;
      var f := FirstUse(clocks, delay);
      FileAfter(file, clocks[..i], s) ==
      if i <= f then file else WithExpire(file, SetExpire(Deadline(clocks[f], delay)))
  {
    hide LoadCode, KindOf, SetExpire, FileAfter, Sign, FirstUse;
    NextFile(file, clocks, i, s);
    if i > 0 {
      var delay := KindOf(ExpireField(file)).delay;
      PinnedFile(file, clocks, i - 1, s);
      FirstLoad(file, clocks[i - 1], s);
      var f := FirstUse(clocks, delay);
      if f < i - 1 {
        PinnedLoad(file, Deadline(clocks[f], delay), clocks[i - 1], s);
      }
    }
  }

  /** First use pins the deadline, whatever the delay. Over any run, a relative or default code is
      refused and left as it is until its first use, the first load that finds it not expired. That load
      is served, and from then on the code is served exactly before the deadline that this load gave it,
      always if that is 0. */
  lemma FirstUsePins(file: Raw, clocks: seq<Clock>, i: nat, s: Scheme)
    requires KindOf(ExpireField(file)).After? && i < |clocks|
    requires FirstUseFits(clocks, KindOf(ExpireField(file)).delay)
    ensures var delay := KindOf(ExpireField(file)).delay;
      var f := FirstUse(clocks, delay);
      && (i <= f ==> FileAfter(file, clocks[..i], s) == file && (ServedAt(file, clocks, i, s) <==> i == f))
      && (i > f ==> var e := Deadline(clocks[f], delay);
            && FileAfter(file, clocks[..i], s) == WithExpire(file, SetExpire(e))
            && (ServedAt(file, clocks, i, s) <==> e == 0 || clocks[i].later < e))
  {
    hide LoadCode, KindOf, SetExpire, FileAfter, Sign, FirstUse;
    var delay := KindOf(ExpireField(file)).delay;
    var f := FirstUse(clocks, delay);
    PinnedFile(file, clocks, i, s);
    FirstLoad(file, clocks[i], s);
    if f < i {
      PinnedLoad(file, Deadline(clocks[f], delay), clocks[i], s);
    }
  }

  /** A positive delay, when the clock stands still during a load: the first load is the first use, and
      the code is served exactly before the first load's time plus the delay. */
  lemma PositiveDelay(file: Raw, clocks: seq<Clock>, i: nat, s: Scheme)
    requires KindOf(ExpireField(file)).After? && KindOf(ExpireField(file)).delay > 0 && i < |clocks|
    requires 0 <= clocks[0].now == clocks[0].later
    requires FitsField(Deadline(clocks[0], KindOf(ExpireField(file)).delay))
    ensures ServedAt(file, clocks, i, s) <==> clocks[i].later < clocks[0].now + KindOf(ExpireField(file)).delay
  {
    hide KindOf, FileAfter, ServedAt;
    FirstUsePins(file, clocks, i, s);
  }

  /** A delay that is not positive: over any run of a clock that does not go back within a load, the
      code is refused and left as it is, unless a load comes at the very time that makes the deadline
      0. From then on it is served for ever. */
  lemma NonPositiveDelay(file: Raw, clocks: seq<Clock>, i: nat, s: Scheme)
    requires KindOf(ExpireField(file)).After? && KindOf(ExpireField(file)).delay <= 0 && i < |clocks|
    requires forall j :: 0 <= j < |clocks| ==> 0 <= clocks[j].now <= clocks[j].later
    ensures ServedAt(file, clocks, i, s) <==> MetZero(clocks, i + 1, KindOf(ExpireField(file)).delay)
    ensures FileAfter(file, clocks[..i], s) ==
            if MetZero(clocks, i, KindOf(ExpireField(file)).delay) then WithExpire(file, SetExpire(0)) else file
  {
    hide LoadCode, KindOf, SetExpire, FileAfter, FirstUse;
    var delay := KindOf(ExpireField(file)).delay;
    var f := FirstUse(clocks, delay);
    FirstUsePins(file, clocks, i, s);
    assert f < |clocks| ==> clocks[f].now + delay == 0;
    assert MetZero(clocks, i + 1, delay) <==> f <= i;
    assert MetZero(clocks, i, delay) <==> f < i;
  }

  /** One of the first `n` loads came at the time that makes the deadline 0. */
  ghost predicate MetZero(clocks: seq<Clock>, n: nat, delay: int)
    requires n <= |clocks|
  {
    exists j :: 0 <= j < n && Deadline(clocks[j], delay) == 0
  }

  /** A deadline of more than 15 characters is not pinned: one second before it, a second load is
      refused. So the size in `FirstUseFits` cannot be dropped. */
  lemma CutDeadlineFails(file: Raw, now: int, s: Scheme)
    requires KindOf(ExpireField(file)).After? && KindOf(ExpireField(file)).delay > 0 && 0 <= now
    requires !FitsField(now + KindOf(ExpireField(file)).delay)
    ensures var last := now + KindOf(ExpireField(file)).delay - 1;
      now <= last && !ServedAt(file, [Clock(now, now), Clock(last, last)], 1, s)
  {
    hide LoadCode, SetExpire, KindOf, FileAfter, GetExpire;
    var d := KindOf(ExpireField(file)).delay;
    var f, clocks := SetExpire(now + d), [Clock(now, now), Clock(now + d - 1, now + d - 1)];
    NextFile(file, clocks, 0, s);
    NextFile(file, clocks, 1, s);
    FirstLoad(file, clocks[0], s);
    SameButExpire(file, f);
    CutReadsSmaller(now + d);
    CutSettles(f);
    SettledLoad(WithExpire(file, f), clocks[1], s);
  }

  /** A payload with such a field: it is refused long before its deadline, however realistic the clock. */
  lemma CutDeadlineHappens(p: Raw, now: int, s: Scheme)
    requires 0 <= now
    ensures var last := now + 9_999_999_999_999_998;
      !ServedAt(WithExpire(p, LongField()), [Clock(now, now), Clock(last, last)], 1, s)
  {
    hide LongField, KindOf, ServedAt;
    LongFieldCut(now);
    SameButExpire(p, LongField());
    CutDeadlineFails(WithExpire(p, LongField()), now, s);
  }

  lemma CutSettles(f: Field)
    ensures GetExpire(f) != -1 ==> KindOf(f) == Absolute(GetExpire(f))
  {
  }

  // ----- dumbcode.rs -----

  /** `from_u8`, `check_expire_and_set`, `sign` and `to_u8`. */
  function ServePayload(file: seq<Byte>, c: Clock, s: Scheme): Option<seq<Byte>> {
    if |file| < HEADER_SIZE || !ValidSize(file) then None
    else if IsExpired(GetExpireOrSet(ExpireField(file), c.now).expire, c.later) then None
    else Some(Sign(Resolve(file, c.now), s))
  }

  /** The pipeline of `main`, on one payload in memory. */
  method DumbCode(file: seq<Byte>, c: Clock, s: Scheme) returns (reply: Option<seq<Byte>>)
    requires forall m :: |s.sign(m)| == SIGNATURE_SIZE - 1
    ensures reply == ServePayload(file, c, s)
  {
    hide GetExpireOrSet, Sign, DataSize, Resolve;
    if |file| < HEADER_SIZE || !ValidSize(file) {
      return None;
    }
    var payload := new Byte[|file|];
    forall i | 0 <= i < |file| {
      payload[i] := file[i];
    }
    assert payload[..] == file;
    var expire := ExpireWhole(payload, c.now);
    if IsExpired(expire, c.later) {
      return None;
    }
    ResolvedSize(file, c.now);
    assert ValidSize(payload[..]);
    SignInPlace(payload, s);
    SignedSize(Resolve(file, c.now), s);
    reply := Some(payload[..HEADER_SIZE + DataSize(payload[..])]);
    assert payload[..|payload[..]|] == payload[..];
  }

  /** What the pipeline serves: a payload whose size field fits its length and 512 MiB, while its
      deadline is ahead. */
  lemma ServesIff(file: seq<Byte>, c: Clock, s: Scheme)
    ensures ServePayload(file, c, s).Some? <==>
            && 168 <= |file| && 168 + FromBigEndian(file[164..168]) == |file|
            && FromBigEndian(file[164..168]) <= 512 * 1024 * 1024
            && var e := DeadlineAt(KindOf(file[129..145]), c.now);
               e == 0 || c.later < e
  {
    hide GetExpireOrSet, KindOf, FromBigEndian, Sign, Resolve;
    if 168 <= |file| {
      ResolveIff(file[129..145], c.now);
    }
  }

  /** The two servers agree: given a payload of the right size the C server sends the bytes that the
      pipeline sends, or refuses it too, and the file that it keeps differs in the expiry field only. */
  lemma TwoServersAgree(file: seq<Byte>, c: Clock, s: Scheme)
    requires |file| >= 168 && 168 + FromBigEndian(file[164..168]) == |file|
    requires FromBigEndian(file[164..168]) <= 512 * 1024 * 1024
    ensures LoadCode(file, c, s).reply == ServePayload(file, c, s)
    ensures Within(file, LoadCode(file, c, s).file, 129, 145)
  {
    hide GetExpireOrSet, FromBigEndian, Sign;
  }

  /** The bytes that are sent: the field resolved, and in front of it the 128 digits that sign what
      follows and a NUL. */
  lemma ServedBytes(file: seq<Byte>, c: Clock, s: Scheme)
    requires ServePayload(file, c, s).Some?
    ensures |file| >= 168
    ensures var tail := GetExpireOrSet(file[129..145], c.now).field + file[145..];
      ServePayload(file, c, s) == Some(s.sign(Zeros(129) + tail) + [0] + tail)
  {
    hide GetExpireOrSet, FromBigEndian;
    var tail := GetExpireOrSet(file[129..145], c.now).field + file[145..];
    assert Resolve(file, c.now)[129..] == tail;
  }

  /** The same for the C server, whatever the size of the payload. */
  lemma LoadedBytes(file: seq<Byte>, c: Clock, s: Scheme)
    requires LoadCode(file, c, s).reply.Some?
    ensures |file| >= 168
    ensures var tail := GetExpireOrSet(file[129..145], c.now).field + file[145..];
      && LoadCode(file, c, s).reply == Some(s.sign(Zeros(129) + tail) + [0] + tail)
      && LoadCode(file, c, s).file == file[..129] + tail
  {
    hide GetExpireOrSet;
    var tail := GetExpireOrSet(file[129..145], c.now).field + file[145..];
    assert Resolve(file, c.now)[129..] == tail;
  }

  lemma ResolvedSize(p: Raw, now: int)
    ensures ValidSize(Resolve(p, now)) == ValidSize(p)
  {
    hide GetExpireOrSet;
    SameButExpire(p, GetExpireOrSet(ExpireField(p), now).field);
  }

  lemma SignedSize(p: Raw, s: Scheme)
    requires |s.sign(Unsigned(p))| == SIGNATURE_SIZE - 1
    ensures |Sign(p, s)| == |p| && DataSize(Sign(p, s)) == DataSize(p)
  {
    SameTail(p, Sign(p, s));
  }

  // ----- server to device -----

  lemma ServedParts(file: seq<Byte>, c: Clock, s: Scheme)
    requires Correct(s) && ServePayload(file, c, s).Some?
    ensures var p, out := file, ServePayload(file, c, s).value;
      && |p| >= HEADER_SIZE && |out| == |p|
      && Verify(out, s.verify) == 0
      && ExpireField(out) == GetExpireOrSet(ExpireField(p), c.now).field
      && CommandText(out) == CommandText(p) && Data(out) == Data(p)
      && !IsExpired(GetExpireOrSet(ExpireField(p), c.now).expire, c.later)
  {
    hide GetExpireOrSet, Sign, Verify, CommandText, DataSize;
    ResolvedSize(file, c.now);
    SameButExpire(file, GetExpireOrSet(ExpireField(file), c.now).field);
    SignedVerifies(Resolve(file, c.now), s);
    SameTail(Resolve(file, c.now), Sign(Resolve(file, c.now), s));
  }

  /** What the server sends is settled: the device's expiry step leaves every byte as it is, whatever
      its clock shows, and the payload then passes both checks exactly at the times before the
      deadline in its field (always if that is 0). */
  lemma ServedIsAdmitted(file: seq<Byte>, c: Clock, s: Scheme, clock: int, time: int)
    requires Correct(s) && 0 <= c.later && ServePayload(file, c, s).Some?
    ensures var out := ServePayload(file, c, s).value;
      && |out| >= HEADER_SIZE && Resolve(out, clock) == out
      && GetExpire(ExpireField(out)) != -1
      && (Admit(out, clock, time, s.verify) == Admitted <==>
          GetExpire(ExpireField(out)) == 0 || time < GetExpire(ExpireField(out)))
  {
    hide Sign, SetExpire, Verify, ServePayload, GetExpire, KindOf;
    ServedParts(file, c, s);
    var p: Raw, out: Raw := file, ServePayload(file, c, s).value;
    ServedDeadline(ExpireField(p), c);
    WithSameExpire(out);
  }

  lemma ServedDeadline(f: Field, c: Clock)
    requires 0 <= c.later && !IsExpired(GetExpireOrSet(f, c.now).expire, c.later)
    ensures GetExpire(GetExpireOrSet(f, c.now).field) != -1
  {
    hide SetExpire, GetExpire;
    ResolveIff(f, c.now);
    SetGetIff(DeadlineAt(KindOf(f), c.now));
  }

  /** For a terminated field and a server clock before 9*10^14, the deadline in the field is the one
      the server resolved. So the payload reaches dispatch on the device exactly at the network times
      before that deadline, always if it is 0. */
  lemma ServerToDevice(file: seq<Byte>, c: Clock, s: Scheme, clock: int, time: int)
    requires Correct(s) && 0 <= c.now < 900_000_000_000_000 && 0 <= c.later && ServePayload(file, c, s).Some?
    requires NulTerminated(ExpireField(file))
    ensures var out, e := ServePayload(file, c, s).value, DeadlineAt(KindOf(ExpireField(file)), c.now);
      && |out| >= HEADER_SIZE && Resolve(out, clock) == out
      && (Admit(out, clock, time, s.verify) == Admitted <==> e == 0 || time < e)
  {
    hide ServePayload, Admit, KindOf, GetExpireOrSet, SetExpire, GetExpire;
    ServedIsAdmitted(file, c, s, clock, time);
    ServedParts(file, c, s);
    ResolveIff(ExpireField(file), c.now);
    NulTerminatedFits(ExpireField(file), c.now);
  }
}
