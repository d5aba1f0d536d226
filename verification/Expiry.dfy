/** The 16-byte expiry field of a payload: absolute, relative (`:n`), default or never. */
module Expiry {
  import opened Bytes
  import opened Decimal

  const EXPIRE_SIZE := 16
  const DEFAULT_EXPIRE_TIME := 60
  const COLON: Byte := 58

  type Field = f: seq<Byte> | |f| == EXPIRE_SIZE witness Zeros(EXPIRE_SIZE)

  // ----- dumbpayload.c -----

  /** -1 stands for every field that is not a number (and for a literal -1). */
  function GetExpire(f: Field): int {
    match ParseLongLong(CString(f))
    case Some(v) => v
    case None => -1
  }

  /** `snprintf` into a zeroed field keeps at most 15 characters. */
  function SetExpire(v: int): Field {
    var printed := Print(v);
    var kept := printed[..Min(|printed|, EXPIRE_SIZE - 1)];
    kept + Zeros(EXPIRE_SIZE - |kept|)
  }

  /** The `memmove` that drops the leading colon: the last byte stays where it was. */
  function Shift(f: Field): Field {
    f[1..] + [f[EXPIRE_SIZE - 1]]
  }

  datatype Resolved = Resolved(field: Field, expire: int)

  function GetExpireOrSet(f: Field, now: int): Resolved {
    if GetExpire(f) != -1 then Resolved(f, GetExpire(f)) else
      var amount := if f[0] == COLON then GetExpire(Shift(f)) else -1;
      var expire := now + if amount == -1 then DEFAULT_EXPIRE_TIME else amount;
      Resolved(SetExpire(expire), expire)
  }

  predicate IsExpired(expire: int, time: int) {
    expire != 0 && expire <= time
  }

  // ----- print, cut to 15 characters, parse -----

  /** The numbers that 15 characters can hold. */
  predicate FitsField(v: int) {
    -100_000_000_000_000 < v < 1_000_000_000_000_000
  }

  lemma PrintedLength(v: int)
    ensures |Print(v)| <= EXPIRE_SIZE - 1 <==> FitsField(v)
  {
    hide Digits;
    assert Pow10(14) == 100_000_000_000_000;
    assert Pow10(15) == 1_000_000_000_000_000;
    if v < 0 {
      DigitsLength(-v, 14);
    } else {
      DigitsLength(v, 15);
    }
  }

  lemma CStringOfPadded(kept: seq<Byte>, n: nat)
    requires n > 0 && forall i :: 0 <= i < |kept| ==> kept[i] != NUL
    ensures CString(kept + Zeros(n)) == kept
  {
    var f := kept + Zeros(n);
    assert f[|kept|] == NUL;
    assert forall i :: 0 <= i < |kept| ==> f[i] == kept[i];
  }

  /** The field holds the first 15 characters of the printed number. */
  lemma CStringOfSet(v: int)
    ensures CString(SetExpire(v)) == Print(v)[..Min(|Print(v)|, EXPIRE_SIZE - 1)]
  {
    var b := PrintIsSpelled(v);
    hide Print;
    var kept := Print(v)[..Min(|Print(v)|, EXPIRE_SIZE - 1)];
    assert forall i :: 0 <= i < |kept| ==> kept[i] == Print(v)[i];
    CStringOfPadded(kept, EXPIRE_SIZE - |kept|);
  }

  lemma FittingReadsBack(v: int)
    requires FitsField(v)
    ensures GetExpire(SetExpire(v)) == v
  {
    CStringOfSet(v);
    PrintedLength(v);
    hide Print;
    assert Print(v)[..|Print(v)|] == Print(v);
    PrintParse(v);
  }

  lemma CutIsSpelled(v: int) returns (b: nat)
    requires !FitsField(v)
    ensures var s := Print(v)[..Min(|Print(v)|, EXPIRE_SIZE - 1)];
      |s| == EXPIRE_SIZE - 1 && Spells(s, 0, b, |s|) &&
      (b == 0 <==> v > 0) && (b == 1 ==> s[0] == MINUS) && 1 < Value(s[b..|s|]) < if v < 0 then -v else v
  {
    hide Print, Value, Pow10, Digits, FitsField;
    PrintedLength(v);
    b := PrintParts(v);
    var n: nat := if v < 0 then -v else v;
    CutPower(b);
    CutBothEnds(Print(v), b, EXPIRE_SIZE - 1);
    CutDigitsValue(n, EXPIRE_SIZE - 1 - b);
    CutDigits(Print(v), b, EXPIRE_SIZE - 1);
    NotFitting(v);
  }

  lemma NotFitting(v: int)
    requires !FitsField(v)
    ensures v < 0 || v > 0
  {
  }

  lemma CutDigits(s: seq<Byte>, b: nat, k: nat)
    requires b < k <= |s| && AllDigits(s[b..])
    ensures forall i :: b <= i < k ==> IsDigit(s[..k][i])
  {
    assert forall i :: b <= i < k ==> s[..k][i] == s[b..][i - b];
  }

  lemma CutPower(b: nat)
    requires b <= 1
    ensures Pow10(EXPIRE_SIZE - 2 - b) > 1
  {
  }

  lemma CutReadsSmaller(v: int)
    requires !FitsField(v)
    ensures 1 < GetExpire(SetExpire(v)) < v || v < GetExpire(SetExpire(v)) < -1
  {
    CStringOfSet(v);
    var b := CutIsSpelled(v);
    hide Print, Value, SetExpire;
    var s := Print(v)[..Min(|Print(v)|, EXPIRE_SIZE - 1)];
    CutFitsInt64(s, b);
    SpellingParses(s, 0, b, |s|);
  }

  lemma CutFitsInt64(s: seq<Byte>, b: nat)
    requires |s| == EXPIRE_SIZE - 1 && Spells(s, 0, b, |s|)
    ensures FitsInt64(Spelled(s, 0, b, |s|))
  {
    hide Value;
    ValueBounds(s[b..|s|]);
    Pow10Of15();
    Pow10Monotone(|s| - b, 15);
  }

  lemma Pow10Of15()
    ensures Pow10(15) == 1_000_000_000_000_000
  {
    assert Pow10(8) == 100_000_000;
    assert Pow10(12) == 1_000_000_000_000;
  }

  /** A deadline survives being written to the field and read back exactly when its decimal form
      has at most 15 characters. A longer one is cut to a different number, never to -1. */
  lemma SetGetIff(v: int)
    ensures GetExpire(SetExpire(v)) == v <==> FitsField(v)
    ensures GetExpire(SetExpire(v)) == -1 ==> v == -1
  {
    if FitsField(v) {
      FittingReadsBack(v);
    } else {
      CutReadsSmaller(v);
    }
  }

  // ----- the three kinds of field -----

  /** What a field asks for: a fixed deadline (0 is "never"), or a delay counted from first use. */
  datatype Kind = Absolute(deadline: int) | After(delay: int)

  function KindOf(f: Field): Kind {
    if GetExpire(f) != -1 then Absolute(GetExpire(f))
    else if f[0] == COLON && GetExpire(Shift(f)) != -1 then After(GetExpire(Shift(f)))
    else After(DEFAULT_EXPIRE_TIME)
  }

  /** The deadline that a use at time `now` would give the field. */
  function DeadlineAt(k: Kind, now: int): int {
    match k
    case Absolute(e) => e
    case After(d) => now + d
  }

  /** Resolving gives the deadline its kind asks for. The number stored is the number returned
      exactly when the field already was a number or the new deadline has at most 15 characters. */
  lemma ResolveIff(f: Field, now: int)
    ensures GetExpireOrSet(f, now).expire == DeadlineAt(KindOf(f), now)
    ensures GetExpire(GetExpireOrSet(f, now).field) == DeadlineAt(KindOf(f), now) <==>
            KindOf(f).Absolute? || FitsField(DeadlineAt(KindOf(f), now))
  {
    hide SetExpire;
    SetGetIff(DeadlineAt(KindOf(f), now));
  }

  /** A resolved field is settled: unless the deadline came out as -1, no later use changes a byte,
      and later uses see the stored number. */
  lemma ResolveOnce(f: Field, now: int, later: int)
    requires DeadlineAt(KindOf(f), now) != -1
    ensures var once := GetExpireOrSet(f, now);
      GetExpireOrSet(once.field, later) == Resolved(once.field, GetExpire(once.field)) &&
      KindOf(once.field) == Absolute(GetExpire(once.field))
  {
    hide SetExpire;
    SetGetIff(DeadlineAt(KindOf(f), now));
  }

  /** The first use settles the field exactly when the deadline does not come out as -1. */
  lemma SettlesIff(f: Field, now: int)
    ensures KindOf(GetExpireOrSet(f, now).field).Absolute? <==> DeadlineAt(KindOf(f), now) != -1
  {
    hide SetExpire;
    if DeadlineAt(KindOf(f), now) == -1 {
      StoredMinusOne();
    } else {
      ResolveOnce(f, now, now);
    }
  }

  lemma StoredMinusOne()
    ensures KindOf(SetExpire(-1)) == After(DEFAULT_EXPIRE_TIME)
  {
    FittingReadsBack(-1);
    CStringOfSet(-1);
    assert SetExpire(-1)[0] == MINUS;
  }

  /** A deadline of -1 is stored as "-1". The second use takes that for the default and settles the
      field, unless the clock shows -61; later uses see what the second one stored. */
  lemma MinusOneSettlesNext(f: Field, now: int, second: int, later: int)
    requires DeadlineAt(KindOf(f), now) == -1
    ensures var next := GetExpireOrSet(GetExpireOrSet(f, now).field, second);
      && next.expire == second + DEFAULT_EXPIRE_TIME
      && (KindOf(next.field).Absolute? <==> second != -61)
      && (second != -61 ==> GetExpireOrSet(next.field, later) == Resolved(next.field, GetExpire(next.field)))
      && (FitsField(second + DEFAULT_EXPIRE_TIME) ==> GetExpire(next.field) == second + DEFAULT_EXPIRE_TIME)
  {
    hide SetExpire, KindOf;
    var once := GetExpireOrSet(f, now).field;
    StoredMinusOne();
    ResolveIff(f, now);
    WrittenDeadline(f, now);
    SettlesIff(once, second);
    ResolveIff(once, second);
    if second != -61 {
      ResolveOnce(once, second, later);
    }
  }

  lemma WrittenDeadline(f: Field, now: int)
    ensures KindOf(f).After? ==> GetExpireOrSet(f, now).field == SetExpire(DeadlineAt(KindOf(f), now))
    ensures KindOf(f).Absolute? ==> DeadlineAt(KindOf(f), now) != -1
  {
    hide SetExpire;
  }

  /** A field that says -1 itself asks for the default, and settles at its first use unless the clock
      shows -61. */
  lemma LiteralMinusOne(f: Field, now: int, later: int)
    requires ParseLongLong(CString(f)) == Some(-1)
    ensures KindOf(f) == After(DEFAULT_EXPIRE_TIME)
    ensures GetExpireOrSet(f, now).expire == now + DEFAULT_EXPIRE_TIME
    ensures now != -61 ==>
      var once := GetExpireOrSet(f, now).field;
      KindOf(once).Absolute? && GetExpireOrSet(once, later) == Resolved(once, GetExpire(once))
  {
    hide SetExpire, ParseLongLong;
    if f[0] == COLON {
      ColonIsNoNumber(f);
    }
    if now != -61 {
      ResolveOnce(f, now, later);
    }
  }

  predicate NulTerminated(f: Field) {
    NUL in f
  }

  lemma CStringOfShift(f: Field)
    requires NulTerminated(f) && f[0] != NUL
    ensures CString(Shift(f)) == CString(f)[1..]
    ensures 0 < |CString(f)| < EXPIRE_SIZE
  {
    var k := NulAt(f, 0);
    assert f[k] == NUL;
    assert Shift(f)[k - 1] == NUL;
    assert forall i :: 0 <= i < k - 1 ==> Shift(f)[i] == f[i + 1];
  }

  lemma DelayBound(f: Field)
    requires NulTerminated(f) && KindOf(f).After?
    ensures -100_000_000_000_000 < KindOf(f).delay < 100_000_000_000_000
  {
    if f[0] == COLON && GetExpire(Shift(f)) != -1 {
      CStringOfShift(f);
      ParsedBound(CString(Shift(f)));
      Pow10Monotone(|CString(Shift(f))|, 14);
      assert Pow10(14) == 100_000_000_000_000;
    }
  }

  /** For a NUL-terminated field and a clock before 9*10^14, no deadline is cut. */
  lemma NulTerminatedFits(f: Field, now: int)
    requires NulTerminated(f) && 0 <= now < 900_000_000_000_000
    ensures KindOf(f).Absolute? || FitsField(DeadlineAt(KindOf(f), now))
  {
    if KindOf(f).After? {
      DelayBound(f);
    }
  }

  /** Field stability: what `dp_get_expire_or_set` returns is what `dp_get_expire` reads back from
      the field, and a second call, at any time, changes neither the bytes nor the value. */
  lemma FieldStability(f: Field, now: int, later: int)
    requires NulTerminated(f) && 0 <= now < 900_000_000_000_000
    requires GetExpireOrSet(f, now).expire != -1
    ensures GetExpire(GetExpireOrSet(f, now).field) == GetExpireOrSet(f, now).expire
    ensures GetExpireOrSet(GetExpireOrSet(f, now).field, later) == GetExpireOrSet(f, now)
  {
    hide GetExpireOrSet, SetExpire, KindOf;
    ResolveIff(f, now);
    NulTerminatedFits(f, now);
    ResolveOnce(f, now, later);
  }

  // ----- dumbpayload.rs -----

  datatype Effective = Effective(relative: bool, isDefault: bool, amount: int)

  /** Rust's `effective_expire`; `None` when `dp_get_expire_str` rejects an unterminated field. */
  function EffectiveExpire(f: Field): Option<Effective> {
    if !NulTerminated(f) then None else
      var raw := CString(f);
      var relative := raw != [] && raw[0] == COLON;
      var number := if relative then raw[1..] else raw;
      match RustParse(number)
      case Some(n) => Some(Effective(relative, false, n))
      case None => Some(Effective(true, true, DEFAULT_EXPIRE_TIME))
  }

  /** The text after the optional colon. */
  function NumericPart(f: Field): seq<Byte> {
    var raw := CString(f);
    if raw != [] && raw[0] == COLON then raw[1..] else raw
  }

  /** The deadline that the Rust reading of a field gives at time `now`. */
  function EffectiveDeadline(e: Effective, now: int): int {
    if e.relative then now + e.amount else e.amount
  }

  ghost predicate Agree(f: Field, now: int) {
    EffectiveExpire(f).Some? &&
    GetExpireOrSet(f, now).expire == EffectiveDeadline(EffectiveExpire(f).value, now)
  }

  lemma ColonIsNoNumber(f: Field)
    requires f[0] == COLON
    ensures ParseLongLong(CString(f)).None? && CString(f) != [] && CString(f)[0] == COLON
  {
    var s := CString(f);
    assert s[0] == COLON;
    assert Span(s, 0, IsSpace) == 0;
  }

  /** C's reading of a terminated field, in terms of its numeric part. */
  lemma KindOfNumericPart(f: Field)
    requires NulTerminated(f)
    ensures KindOf(f) ==
            match ParseLongLong(NumericPart(f))
            case None => After(DEFAULT_EXPIRE_TIME)
            case Some(n) => if n == -1 then After(DEFAULT_EXPIRE_TIME)
                            else if f[0] == COLON then After(n) else Absolute(n)
  {
    if f[0] == COLON {
      ColonIsNoNumber(f);
      CStringOfShift(f);
    } else {
      assert CString(f) != [] ==> CString(f)[0] == f[0];
    }
  }

  /** Exactly when the two implementations agree at time `now`: Rust must not read the number -1
      (which C takes for "not a number"), and where C accepts white space that Rust rejects, C's
      number must happen to give Rust's default deadline. */
  lemma AgreeIff(f: Field, now: int)
    requires NulTerminated(f)
    ensures var number := NumericPart(f);
      var c, colon := ParseLongLong(number), f[0] == COLON;
      Agree(f, now) <==>
      && (c == Some(-1) && NoSpace(number) ==> !colon && now == -61)
      && (c.Some? && c.value != -1 && !NoSpace(number) ==> c.value == if colon then 60 else now + 60)
  {
    hide SetExpire, RustParse, ParseLongLong, KindOf;
    ResolveIff(f, now);
    KindOfNumericPart(f);
    var number := NumericPart(f);
    RustParseIff(number, if RustParse(number).Some? then RustParse(number).value else 0);
    if ParseLongLong(number).Some? {
      RustParseIff(number, ParseLongLong(number).value);
    }
    assert f[0] == COLON <==> CString(f) != [] && CString(f)[0] == COLON;
  }

  /** Without white space and without the number -1, the two readings give the same deadline at
      every time. */
  lemma TwoImplementationsAgree(f: Field, now: int)
    requires NulTerminated(f) && NoSpace(NumericPart(f)) && ParseLongLong(NumericPart(f)) != Some(-1)
    ensures Agree(f, now)
  {
    AgreeIff(f, now);
  }

  // ----- setting the field -----

  /** `dp_set_expire_str`: at most 15 characters. */
  function SetExpireStr(text: seq<Byte>): Option<Field> {
    var s := CString(text);
    if |s| >= EXPIRE_SIZE then None else Some(s + Zeros(EXPIRE_SIZE - |s|))
  }

  lemma StoredText(text: seq<Byte>)
    requires NulFree(text)
    ensures SetExpireStr(text).Some? <==> |text| < EXPIRE_SIZE
    ensures SetExpireStr(text).Some? ==>
      var f := SetExpireStr(text).value;
      NulTerminated(f) && CString(f) == text && (text != [] ==> f[0] == text[0])
  {
    assert NulAt(text, 0) == |text|;
    assert CString(text) == text;
    if |text| < EXPIRE_SIZE {
      CStringOfPadded(text, EXPIRE_SIZE - |text|);
      assert SetExpireStr(text).value[|text|] == NUL;
    }
  }

  lemma PrintedText(v: int)
    ensures Print(v) != [] && NulFree(Print(v)) && Print(v)[0] != COLON && NulFree([COLON] + Print(v))
  {
    var b := PrintIsSpelled(v);
  }

  /** A timestamp is stored exactly when it has at most 15 characters. Both implementations read it
      back as that deadline, except that C takes -1 for the default. */
  lemma SetTimestamp(t: int)
    requires FitsInt64(t)
    ensures SetExpireStr(Print(t)).Some? <==> FitsField(t)
    ensures SetExpireStr(Print(t)).Some? ==>
      var f := SetExpireStr(Print(t)).value;
      && KindOf(f) == (if t == -1 then After(DEFAULT_EXPIRE_TIME) else Absolute(t))
      && EffectiveExpire(f) == Some(Effective(false, false, t))
  {
    hide Print, KindOf, RustParse, ParseLongLong, SetExpireStr;
    PrintedText(t);
    PrintedLength(t);
    StoredText(Print(t));
    PrintParse(t);
    PrintNoSpace(t);
    RustParseIff(Print(t), t);
    if FitsField(t) {
      KindOfNumericPart(SetExpireStr(Print(t)).value);
    }
  }

  /** A delay is stored exactly when it has at most 14 characters. Both implementations read it back
      as that delay, except that C takes -1 for the default. */
  lemma SetRelative(d: int)
    requires FitsInt64(d)
    ensures SetExpireStr([COLON] + Print(d)).Some? <==> |Print(d)| <= EXPIRE_SIZE - 2
    ensures SetExpireStr([COLON] + Print(d)).Some? ==>
      var f := SetExpireStr([COLON] + Print(d)).value;
      && KindOf(f) == After(if d == -1 then DEFAULT_EXPIRE_TIME else d)
      && EffectiveExpire(f) == Some(Effective(true, false, d))
  {
    hide Print, KindOf, RustParse, ParseLongLong, SetExpireStr;
    PrintedText(d);
    var text := [COLON] + Print(d);
    assert text[1..] == Print(d);
    StoredText(text);
    PrintParse(d);
    PrintNoSpace(d);
    RustParseIff(Print(d), d);
    if |text| < EXPIRE_SIZE {
      KindOfNumericPart(SetExpireStr(text).value);
    }
  }

  /** A text without digits, such as the "_" that `set_expire_default` stores: both implementations take
      it for the default of a minute after the first use. */
  lemma SetDefault(text: seq<Byte>)
    requires 0 < |text| <= 15 && text[0] != 58 && forall i :: 0 <= i < |text| ==> text[i] != 0 && !(48 <= text[i] <= 57)
    ensures SetExpireStr(text).Some?
    ensures var f := SetExpireStr(text).value;
      KindOf(f) == After(60) && EffectiveExpire(f) == Some(Effective(true, true, 60))
  {
    hide KindOf, RustParse, ParseLongLong, SetExpireStr;
    StoredText(text);
    NoDigitsNoNumber(text);
    KindOfNumericPart(SetExpireStr(text).value);
  }

  lemma NoDigitsNoNumber(s: seq<Byte>)
    requires forall i :: 0 <= i < |s| ==> !(48 <= s[i] <= 57)
    ensures ParseLongLong(s).None? && RustParse(s).None?
  {
    hide ParseLongLong, RustParse;
    if RustParse(s).Some? {
      RustParsed(s);
    }
    if ParseLongLong(s).Some? {
      NumberHasDigit(s);
    }
  }

  lemma NumberHasDigit(s: seq<Byte>)
    requires ParseLongLong(s).Some?
    ensures exists i :: 0 <= i < |s| && 48 <= s[i] <= 57
  {
    var a, b, c := ParsedIsSpelled(s);
    assert 48 <= s[b] <= 57;
  }

  lemma PrintNoSpace(v: int)
    ensures NoSpace(Print(v))
  {
    var b := PrintIsSpelled(v);
    hide Print;
    assert forall i :: b <= i < |Print(v)| ==> IsDigit(Print(v)[i]);
  }

  // ----- a deadline that the field cannot hold -----

  function Nines(k: nat): (s: seq<Byte>)
    ensures |s| == k && AllDigits(s)
  {
    seq(k, _ => 57)
  }

  lemma {:induction false} ValueOfNines(k: nat)
    ensures Value(Nines(k)) == Pow10(k) - 1
  {
    if k > 0 {
      assert Nines(k)[..k - 1] == Nines(k - 1);
      ValueOfNines(k - 1);
    }
  }

  /** A colon and fifteen nines, without a NUL: `memmove` leaves sixteen nines. */
  function LongField(): Field {
    [COLON] + Nines(EXPIRE_SIZE - 1)
  }

  lemma Pow10Of16()
    ensures Pow10(EXPIRE_SIZE) == 10_000_000_000_000_000
  {
    Pow10Of15();
  }

  lemma SixteenNines()
    ensures Value(Nines(EXPIRE_SIZE)) == 9_999_999_999_999_999
  {
    hide Value;
    ValueOfNines(EXPIRE_SIZE);
    Pow10Of16();
  }

  lemma NinesParse()
    ensures CString(Nines(EXPIRE_SIZE)) == Nines(EXPIRE_SIZE)
    ensures ParseLongLong(Nines(EXPIRE_SIZE)) == Some(9_999_999_999_999_999)
  {
    hide Value, ParseLongLong;
    var s := Nines(EXPIRE_SIZE);
    assert s[..|s|] == s && s[0..|s|] == s;
    assert NulAt(s, 0) == |s|;
    SixteenNines();
    SpellingParses(s, 0, 0, |s|);
  }

  /** Its delay is too long for the field at every time from 1970 on. */
  lemma LongFieldCut(now: int)
    requires 0 <= now
    ensures KindOf(LongField()) == After(9_999_999_999_999_999)
    ensures !FitsField(DeadlineAt(KindOf(LongField()), now))
  {
    hide Value, ParseLongLong, CString;
    var f := LongField();
    ColonIsNoNumber(f);
    assert Shift(f) == Nines(EXPIRE_SIZE);
    NinesParse();
  }
}
