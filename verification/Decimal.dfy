/** Decimal printing (`%lld`) and the two integer parsers that read it back: C's
    `parse_long_long` and Rust's `i64::from_str`. */
module Decimal {
  import opened Bytes

  const PLUS: Byte := 43
  const MINUS: Byte := 45
  const INT64_MAX := 0x7FFF_FFFF_FFFF_FFFF
  const INT64_MIN := -0x8000_0000_0000_0000

  predicate IsSpace(b: Byte) {
    b == 32 || 9 <= b <= 13
  }

  predicate IsDigit(b: Byte) {
    48 <= b <= 57
  }

  predicate AllDigits(s: seq<Byte>) {
    forall i :: 0 <= i < |s| ==> IsDigit(s[i])
  }

  predicate FitsInt64(v: int) {
    INT64_MIN <= v <= INT64_MAX
  }

  // ----- values of digit strings -----

  function Value(ds: seq<Byte>): int {
    if ds == [] then 0 else Value(ds[..|ds| - 1]) * 10 + (ds[|ds| - 1] as int - 48)
  }

  function Signed(negative: bool, magnitude: int): int {
    if negative then -magnitude else magnitude
  }

  function Pow10(k: nat): (p: nat)
    ensures p > 0
  {
    if k == 0 then 1 else 10 * Pow10(k - 1)
  }

  lemma {:induction false} ValueBounds(ds: seq<Byte>)
    requires AllDigits(ds)
    ensures 0 <= Value(ds) < Pow10(|ds|)
  {
    if ds != [] {
      ValueBounds(ds[..|ds| - 1]);
    }
  }

  lemma {:induction false} ValueConcat(a: seq<Byte>, b: seq<Byte>)
    ensures Value(a + b) == Value(a) * Pow10(|b|) + Value(b)
  {
    if b == [] {
      assert a + b == a;
    } else {
      var front, last := b[..|b| - 1], b[|b| - 1];
      assert (a + b)[..|a + b| - 1] == a + front;
      ValueConcat(a, front);
      Distribute(Value(a), Pow10(|front|), Value(front));
    }
  }

  lemma Distribute(a: int, p: int, b: int)
    ensures (a * p + b) * 10 == a * (10 * p) + b * 10
  {
  }

  /** The end of a digit string denotes no more than the whole. */
  lemma SuffixValue(ds: seq<Byte>, j: nat)
    requires AllDigits(ds) && j <= |ds|
    ensures 0 <= Value(ds[j..]) <= Value(ds)
  {
    assert ds == ds[..j] + ds[j..];
    ValueConcat(ds[..j], ds[j..]);
    ValueBounds(ds[..j]);
    ValueBounds(ds[j..]);
    Product(Value(ds[..j]), Pow10(|ds| - j));
  }

  lemma Product(a: nat, b: nat)
    ensures 0 <= a * b && (a > 0 && b > 0 ==> a * b > 0)
  {
  }

  // ----- printing -----

  function Digits(n: nat): (ds: seq<Byte>)
    ensures ds != [] && AllDigits(ds)
  {
    if n < 10 then [48 + n] else Digits(n / 10) + [48 + n % 10]
  }

  function Print(v: int): seq<Byte> {
    if v < 0 then [MINUS] + Digits(-v) else Digits(v)
  }

  lemma {:induction false} DigitsValue(n: nat)
    ensures Value(Digits(n)) == n
  {
    if n >= 10 {
      DigitsValue(n / 10);
      assert Digits(n)[..|Digits(n)| - 1] == Digits(n / 10);
    } else {
      assert Digits(n)[..0] == [];
    }
  }

  lemma {:induction false} DigitsLength(n: nat, k: nat)
    requires k > 0
    ensures |Digits(n)| <= k <==> n < Pow10(k)
  {
    if n >= 10 {
      if k == 1 {
        assert Pow10(1) == 10;
      } else {
        DigitsLength(n / 10, k - 1);
      }
    } else {
      assert Pow10(k) == 10 * Pow10(k - 1);
    }
  }

  /** Cutting a printed number keeps its leading digits, which denote a smaller number with no
      leading zero. */
  lemma {:induction false} CutDigitsValue(n: nat, k: nat)
    requires 0 < k < |Digits(n)|
    ensures Pow10(k - 1) <= Value(Digits(n)[..k]) < n
  {
    if n >= 10 {
      var shorter := Digits(n / 10);
      assert Digits(n)[..k] == shorter[..k];
      if k == |shorter| {
        assert shorter[..k] == shorter;
        DigitsValue(n / 10);
        if k > 1 {
          DigitsLength(n / 10, k - 1);
        }
      } else {
        CutDigitsValue(n / 10, k);
      }
    }
  }

  /** Without its first digit, a printed positive number denotes a smaller one. */
  lemma WithoutFirst(n: nat)
    requires n > 0
    ensures 0 <= Value(Digits(n)[1..]) < n
  {
    hide Digits;
    var ds := Digits(n);
    DigitsValue(n);
    if |ds| > 1 {
      CutDigitsValue(n, 1);
    } else {
      assert ds[..1] == ds;
    }
    assert ds == ds[..1] + ds[1..];
    ValueConcat(ds[..1], ds[1..]);
    ValueBounds(ds[1..]);
    Product(Value(ds[..1]), Pow10(|ds| - 1));
  }

  /** A digit string is what printing its number gives exactly if it has no leading zero. */
  lemma {:induction false} PrintedIff(ds: seq<Byte>)
    requires |ds| > 1 && AllDigits(ds)
    ensures 0 <= Value(ds) && (Digits(Value(ds)) == ds <==> ds[0] != 48)
  {
    hide Digits;
    ValueBounds(ds);
    if ds[0] == 48 {
      FirstDigit(Value(ds));
    } else {
      NoLeadingZero(ds);
    }
  }

  lemma {:induction false} FirstDigit(n: nat)
    ensures |Digits(n)| > 1 ==> Digits(n)[0] != 48
  {
    if n >= 10 {
      FirstDigit(n / 10);
      assert Digits(n)[0] == Digits(n / 10)[0];
    }
  }

  lemma {:induction false} NoLeadingZero(ds: seq<Byte>)
    requires ds != [] && AllDigits(ds) && ds[0] != 48
    ensures Value(ds) > 0 && Digits(Value(ds)) == ds
  {
    var front, last := ds[..|ds| - 1], ds[|ds| - 1];
    if |ds| > 1 {
      NoLeadingZero(front);
      LastDigit(Value(front), last as int - 48);
    } else {
      assert front == [];
    }
    assert ds == front + [last];
  }

  lemma LastDigit(a: nat, d: int)
    requires 0 <= d < 10
    ensures (a * 10 + d) / 10 == a && (a * 10 + d) % 10 == d
  {
  }

  // ----- C: strtoll and parse_long_long -----

  predicate IsSign(b: Byte) {
    b == PLUS || b == MINUS
  }

  /** `strtoll(s, &end, 10)` before clamping: no digits, or a value and the index of `end`. */
  datatype Scan = NoDigits | Number(value: int, end: nat)

  function Strtoll(s: seq<Byte>): (r: Scan)
    ensures r.Number? ==> 0 < r.end <= |s|
  {
    var a := Span(s, 0, IsSpace);
    var b := if a < |s| && IsSign(s[a]) then a + 1 else a;
    var c := Span(s, b, IsDigit);
    if b == c then NoDigits else Number(Signed(a < b && s[a] == MINUS, Value(s[b..c])), c)
  }

  /** The result of `parse_long_long`: trailing space is allowed, trailing junk and
      out-of-range values are not. */
  function ParseLongLong(s: seq<Byte>): Option<int> {
    match Strtoll(s)
    case NoDigits => None
    case Number(v, end) => if Span(s, end, IsSpace) == |s| && FitsInt64(v) then Some(v) else None
  }

  /** The loop of `parse_long_long` over the bytes that `strtoll` left unread. */
  method ParseLongLongLoop(s: seq<Byte>) returns (ok: bool, value: int)
    ensures ok == ParseLongLong(s).Some?
    ensures ok ==> value == ParseLongLong(s).value
  {
    ok, value := false, 0;
    match Strtoll(s)
    case NoDigits =>
    case Number(v, first) =>
      var end := first;
      while end < |s|
        invariant first <= end <= |s|
        invariant Span(s, first, IsSpace) == Span(s, end, IsSpace)
      {
        if !IsSpace(s[end]) {
          return;
        }
        end := end + 1;
      }
      ok, value := FitsInt64(v), v;
  }

  /** `s` is spelled as white space up to `a`, an optional sign up to `b`, digits up to `c`, and
      white space from there on. */
  ghost predicate Spells(s: seq<Byte>, a: nat, b: nat, c: nat) {
    && a <= b < c <= |s|
    && (forall i :: 0 <= i < a ==> s[i] == 32 || 9 <= s[i] <= 13)
    && (b == a || (b == a + 1 && (s[a] == 43 || s[a] == 45)))
    && (forall i :: b <= i < c ==> 48 <= s[i] <= 57)
    && (forall i :: c <= i < |s| ==> s[i] == 32 || 9 <= s[i] <= 13)
  }

  ghost function Spelled(s: seq<Byte>, a: nat, b: nat, c: nat): int
    requires Spells(s, a, b, c)
  {
    if a < b && s[a] == 45 then -Value(s[b..c]) else Value(s[b..c])
  }

  lemma SpellingParses(s: seq<Byte>, a: nat, b: nat, c: nat)
    requires Spells(s, a, b, c)
    ensures ParseLongLong(s) == if FitsInt64(Spelled(s, a, b, c)) then Some(Spelled(s, a, b, c)) else None
  {
    hide Value;
    assert c < |s| ==> !IsDigit(s[c]);
    assert !IsSpace(s[a]);
    assert Span(s, 0, IsSpace) == a;
    assert Span(s, b, IsDigit) == c;
  }

  lemma ParsedIsSpelled(s: seq<Byte>) returns (a: nat, b: nat, c: nat)
    requires ParseLongLong(s).Some?
    ensures Spells(s, a, b, c) && ParseLongLong(s) == Some(Spelled(s, a, b, c))
  {
    hide Value;
    a := Span(s, 0, IsSpace);
    b := if a < |s| && IsSign(s[a]) then a + 1 else a;
    c := Span(s, b, IsDigit);
  }

  /** `parse_long_long` accepts exactly the spellings of 64-bit integers, and returns the integer. */
  lemma ParseLongLongIff(s: seq<Byte>, v: int)
    ensures ParseLongLong(s) == Some(v) <==>
            FitsInt64(v) && exists a: nat, b: nat, c: nat :: Spells(s, a, b, c) && v == Spelled(s, a, b, c)
  {
    if ParseLongLong(s) == Some(v) {
      var a, b, c := ParsedIsSpelled(s);
    }
    forall a: nat, b: nat, c: nat | Spells(s, a, b, c) {
      SpellingParses(s, a, b, c);
    }
  }

  lemma PrintParts(v: int) returns (b: nat)
    ensures b == if v < 0 then 1 else 0
    ensures b < |Print(v)| && Print(v)[b..] == Digits(if v < 0 then -v else v)
    ensures AllDigits(Print(v)[b..]) && Value(Print(v)[b..]) == if v < 0 then -v else v
    ensures v < 0 ==> Print(v)[0] == MINUS
  {
    b := if v < 0 then 1 else 0;
    var n: nat := if v < 0 then -v else v;
    DigitsValue(n);
    assert Print(v)[b..] == Digits(n);
  }

  lemma PrintIsSpelled(v: int) returns (b: nat)
    ensures Spells(Print(v), 0, b, |Print(v)|) && Spelled(Print(v), 0, b, |Print(v)|) == v
  {
    b := PrintParts(v);
    hide Print, Value;
    var s := Print(v);
    assert s[b..|s|] == s[b..];
    assert forall i :: b <= i < |s| ==> s[i] == s[b..][i - b];
    assert v >= 0 ==> b == 0;
  }

  /** What `%lld` prints, `parse_long_long` reads back. */
  lemma PrintParse(v: int)
    requires FitsInt64(v)
    ensures ParseLongLong(Print(v)) == Some(v)
  {
    var b := PrintIsSpelled(v);
    SpellingParses(Print(v), 0, b, |Print(v)|);
  }

  lemma {:induction false} Pow10Monotone(a: nat, b: nat)
    requires a <= b
    ensures Pow10(a) <= Pow10(b)
  {
    if a < b {
      Pow10Monotone(a, b - 1);
    }
  }

  /** A string of `n` bytes denotes a number of at most `n` digits. */
  lemma ParsedBound(s: seq<Byte>)
    requires ParseLongLong(s).Some?
    ensures -(Pow10(|s|) as int) < ParseLongLong(s).value < Pow10(|s|)
  {
    var a, b, c := ParsedIsSpelled(s);
    ValueBounds(s[b..c]);
    Pow10Monotone(c - b, |s|);
  }

  // ----- Rust: i64::from_str -----

  /** Rust's parser takes an optional sign and digits, and nothing around them. */
  function RustParse(s: seq<Byte>): Option<int> {
    var b := if s != [] && IsSign(s[0]) then 1 else 0;
    if b == |s| || !AllDigits(s[b..]) then None else
      var v := Signed(b == 1 && s[0] == MINUS, Value(s[b..]));
      if FitsInt64(v) then Some(v) else None
  }

  predicate NoSpace(s: seq<Byte>) {
    forall i :: 0 <= i < |s| ==> !IsSpace(s[i])
  }

  lemma RustParsed(s: seq<Byte>)
    requires RustParse(s).Some?
    ensures ParseLongLong(s) == RustParse(s) && NoSpace(s)
  {
    hide Value;
    var b := if s != [] && IsSign(s[0]) then 1 else 0;
    assert forall i :: b <= i < |s| ==> s[i] == s[b..][i - b];
    assert Spells(s, 0, b, |s|);
    assert s[b..|s|] == s[b..];
    SpellingParses(s, 0, b, |s|);
  }

  lemma NoSpaceAround(s: seq<Byte>, a: nat, b: nat, c: nat)
    requires Spells(s, a, b, c)
    ensures NoSpace(s) ==> a == 0 && c == |s|
  {
    assert a > 0 ==> IsSpace(s[0]);
    assert c < |s| ==> IsSpace(s[c]);
  }

  lemma RustParses(s: seq<Byte>)
    requires ParseLongLong(s).Some? && NoSpace(s)
    ensures RustParse(s) == ParseLongLong(s)
  {
    hide Value;
    var a, b, c := ParsedIsSpelled(s);
    NoSpaceAround(s, a, b, c);
    assert s[b..c] == s[b..];
  }

  /** Rust accepts a string exactly when C does and the string holds no white space; then both
      read the same number. */
  lemma RustParseIff(s: seq<Byte>, v: int)
    ensures RustParse(s) == Some(v) <==> ParseLongLong(s) == Some(v) && NoSpace(s)
  {
    if RustParse(s).Some? {
      RustParsed(s);
    }
    if ParseLongLong(s).Some? && NoSpace(s) {
      RustParses(s);
    }
  }
}
