/** `struct DUMB_PAYLOAD`: layout, size check, signing and verifying, and the expiry check in place. */
module Payload {
  import opened Bytes
  import opened Errno
  import opened Expiry

  const SIGNATURE_SIZE := 129 // 128 hexadecimal digits and a NUL
  const EXPIRE_AT := SIGNATURE_SIZE
  const COMMAND_AT := EXPIRE_AT + EXPIRE_SIZE
  const COMMAND_SIZE := 16
  const DATA_SIZE_AT := COMMAND_AT + COMMAND_SIZE + 3 // aligned to four bytes
  const HEADER_SIZE := DATA_SIZE_AT + 4
  const DATA_MAX_SIZE := 512 * 1024 * 1024

  /** A payload in memory: the fixed header, then the data. */
  type Raw = p: seq<Byte> | |p| >= HEADER_SIZE witness Zeros(HEADER_SIZE)

  function ExpireField(p: Raw): Field {
    p[EXPIRE_AT..COMMAND_AT]
  }

  function WithExpire(p: Raw, f: Field): (q: Raw)
    ensures |q| == |p|
  {
    p[..EXPIRE_AT] + f + p[COMMAND_AT..]
  }

  /** The command as `handle_one_payload` reads it, with the last byte forced to NUL. */
  function CommandText(p: Raw): seq<Byte> {
    CString(p[COMMAND_AT..COMMAND_AT + COMMAND_SIZE - 1])
  }

  function DataSize(p: Raw): nat {
    FromBigEndian(p[DATA_SIZE_AT..HEADER_SIZE])
  }

  function Data(p: Raw): seq<Byte> {
    p[HEADER_SIZE..]
  }

  /** `dp_validate_size`, for a buffer that is at least as long as the header. */
  predicate ValidSize(p: Raw) {
    DataSize(p) <= DATA_MAX_SIZE && HEADER_SIZE + DataSize(p) == |p|
  }

  /** What is signed and verified: the whole payload with the signature zeroed. */
  function Unsigned(p: Raw): seq<Byte> {
    Zeros(SIGNATURE_SIZE) + p[SIGNATURE_SIZE..]
  }

  // ----- signatures -----

  /** An Ed25519 key pair seen from outside: `sign` gives 128 hexadecimal digits, `verify` gives 0
      or an error number. */
  datatype Scheme = Scheme(sign: seq<Byte> -> seq<Byte>, verify: (seq<Byte>, seq<Byte>) -> int)

  ghost predicate Correct(s: Scheme) {
    forall m :: |s.sign(m)| == SIGNATURE_SIZE - 1 && s.verify(m, s.sign(m)) == 0
  }

  /** `dp_sign`. */
  function Sign(p: Raw, s: Scheme): (q: seq<Byte>)
  {
    s.sign(Unsigned(p)) + [NUL] + p[SIGNATURE_SIZE..]
  }

  /** `dp_verify`: 0, or the error number it leaves behind. */
  function Verify(p: Raw, verify: (seq<Byte>, seq<Byte>) -> int): int {
    if ValidSize(p) then verify(Unsigned(p), p[..SIGNATURE_SIZE - 1]) else EINVAL
  }

  /** A signed payload keeps everything but the signature, and verifies. */
  lemma SignedVerifies(p: Raw, s: Scheme)
    requires Correct(s) && ValidSize(p)
    ensures |Sign(p, s)| == |p| && Sign(p, s)[SIGNATURE_SIZE..] == p[SIGNATURE_SIZE..]
    ensures ValidSize(Sign(p, s)) && Verify(Sign(p, s), s.verify) == 0
  {
    var q := Sign(p, s);
    SameTail(p, q);
    assert q[..SIGNATURE_SIZE - 1] == s.sign(Unsigned(p));
  }

  /** The header fields after the signature depend on the bytes after the signature only. */
  lemma SameTail(p: Raw, q: Raw)
    requires |q| == |p| && q[SIGNATURE_SIZE..] == p[SIGNATURE_SIZE..]
    ensures ExpireField(q) == ExpireField(p) && DataSize(q) == DataSize(p) && Unsigned(q) == Unsigned(p)
    ensures CommandText(q) == CommandText(p) && Data(q) == Data(p)
  {
    TailSlices(p);
    TailSlices(q);
  }

  lemma TailSlices(p: Raw)
    ensures var t := p[SIGNATURE_SIZE..];
      && ExpireField(p) == t[..EXPIRE_SIZE] && Data(p) == t[39..]
      && p[COMMAND_AT..COMMAND_AT + COMMAND_SIZE - 1] == t[16..31] && p[DATA_SIZE_AT..HEADER_SIZE] == t[35..39]
  {
  }

  /** Rewriting the expiry field changes nothing else. */
  lemma SameButExpire(p: Raw, f: Field)
    ensures ExpireField(WithExpire(p, f)) == f
    ensures DataSize(WithExpire(p, f)) == DataSize(p)
    ensures CommandText(WithExpire(p, f)) == CommandText(p) && Data(WithExpire(p, f)) == Data(p)
  {
    var q := WithExpire(p, f);
    assert q[DATA_SIZE_AT..HEADER_SIZE] == p[DATA_SIZE_AT..HEADER_SIZE];
    assert q[COMMAND_AT..COMMAND_AT + COMMAND_SIZE - 1] == p[COMMAND_AT..COMMAND_AT + COMMAND_SIZE - 1];
  }

  lemma WithSameExpire(p: Raw)
    ensures WithExpire(p, ExpireField(p)) == p
  {
  }

  lemma FieldReplaced(p: Raw, q: seq<Byte>, f: Field)
    requires |q| == |p| && q[EXPIRE_AT..COMMAND_AT] == f
    requires forall i :: 0 <= i < |p| && !(EXPIRE_AT <= i < COMMAND_AT) ==> q[i] == p[i]
    ensures q == WithExpire(p, f)
  {
    var r := WithExpire(p, f);
    assert forall i :: EXPIRE_AT <= i < COMMAND_AT ==> q[i] == f[i - EXPIRE_AT] == r[i];
  }

  // ----- the checks at the head of handle_one_payload -----

  datatype Verdict = Expired | BadSignature(err: int) | Admitted

  /** The payload after its expiry field has been resolved at time `now`. */
  function Resolve(p: Raw, now: int): Raw {
    WithExpire(p, GetExpireOrSet(ExpireField(p), now).field)
  }

  /** The expiry check, against `time` with the device clock at `now`, then the signature check. */
  function Admit(p: Raw, now: int, time: int, verify: (seq<Byte>, seq<Byte>) -> int): Verdict {
    if IsExpired(GetExpireOrSet(ExpireField(p), now).expire, time) then Expired else
      var err := Verify(Resolve(p, now), verify);
      if err != 0 then BadSignature(err) else Admitted
  }

  // ----- the same in place -----

  /** Only bytes `lo` to `hi` of the buffer have changed. */
  ghost predicate Within(before: seq<Byte>, after: seq<Byte>, lo: nat, hi: nat) {
    |before| == |after| && forall i :: 0 <= i < |before| && !(lo <= i < hi) ==> after[i] == before[i]
  }

  lemma WithinSlice(before: seq<Byte>, after: seq<Byte>, lo: nat, hi: nat, from: nat, to: nat)
    requires Within(before, after, lo, hi) && from <= to <= |before| && (to <= lo || hi <= from)
    ensures after[from..to] == before[from..to]
  {
  }

  lemma WithinThen(a: seq<Byte>, b: seq<Byte>, c: seq<Byte>, lo: nat, hi: nat, lo': nat, hi': nat)
    requires Within(a, b, lo, hi) && Within(b, c, lo', hi')
    ensures Within(a, c, if lo <= lo' then lo else lo', if hi <= hi' then hi' else hi)
  {
  }

  method SetExpireInPlace(buf: array<Byte>, at: nat, expire: int)
    requires at + EXPIRE_SIZE <= buf.Length
    modifies buf
    ensures buf[at..at + EXPIRE_SIZE] == SetExpire(expire)
    ensures Within(old(buf[..]), buf[..], at, at + EXPIRE_SIZE)
  {
    var text := SetExpire(expire);
    forall i | 0 <= i < EXPIRE_SIZE {
      buf[at + i] := text[i];
    }
    assert forall i :: 0 <= i < EXPIRE_SIZE ==> buf[at..at + EXPIRE_SIZE][i] == text[i];
  }

  /** `dp_get_expire_or_set` on the field at index `at`. */
  method GetExpireOrSetInPlace(buf: array<Byte>, at: nat, now: int) returns (expire: int)
    requires at + EXPIRE_SIZE <= buf.Length
    modifies buf
    ensures Resolved(buf[at..at + EXPIRE_SIZE], expire) == GetExpireOrSet(old(buf[at..at + EXPIRE_SIZE]), now)
    ensures Within(old(buf[..]), buf[..], at, at + EXPIRE_SIZE)
  {
    hide SetExpire, GetExpire;
    expire := GetExpire(buf[at..at + EXPIRE_SIZE]);
    if expire == -1 {
      if buf[at] == COLON {
        forall i | 0 <= i < EXPIRE_SIZE - 1 {
          buf[at + i] := buf[at + 1 + i];
        }
        assert buf[at..at + EXPIRE_SIZE] == Shift(old(buf[at..at + EXPIRE_SIZE]));
        expire := GetExpire(buf[at..at + EXPIRE_SIZE]);
        if expire == -1 {
          expire := now + DEFAULT_EXPIRE_TIME;
        } else {
          expire := expire + now;
        }
      } else {
        expire := now + DEFAULT_EXPIRE_TIME;
      }
      SetExpireInPlace(buf, at, expire);
    }
  }

  /** `dp_verify` on the payload of `size` bytes at index `at`: it leaves the signature zeroed. */
  method VerifyInPlace(buf: array<Byte>, at: nat, size: nat, verify: (seq<Byte>, seq<Byte>) -> int)
    returns (err: int)
    requires HEADER_SIZE <= size && at + size <= buf.Length
    modifies buf
    ensures err == Verify(old(buf[at..at + size]), verify)
    ensures Within(old(buf[..]), buf[..], at, at + SIGNATURE_SIZE)
  {
    var whole: Raw := buf[at..at + size];
    if !ValidSize(whole) {
      return EINVAL;
    }
    var signature := buf[at..at + SIGNATURE_SIZE - 1];
    assert signature == whole[..SIGNATURE_SIZE - 1];
    forall i | at <= i < at + SIGNATURE_SIZE {
      buf[i] := NUL;
    }
    assert buf[at..at + size] == Unsigned(whole);
    err := verify(buf[at..at + size], signature);
  }
}
