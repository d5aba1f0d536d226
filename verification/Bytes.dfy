/** Bytes, C strings and network byte order. */
module Bytes {

  type Byte = b: int | 0 <= b < 256

  const NUL: Byte := 0

  datatype Option<+T> = None | Some(value: T)

  function Ascii(s: string): seq<Byte> {
    seq(|s|, i requires 0 <= i < |s| => s[i] as int % 256)
  }

  function Zeros(n: nat): (z: seq<Byte>)
    ensures |z| == n
  {
    seq(n, _ => NUL)
  }

  function Min(a: nat, b: nat): nat {
    if a <= b then a else b
  }

  lemma SliceOfSlice(s: seq<Byte>, a: nat, b: nat, c: nat, d: nat)
    requires a <= b <= |s| && c <= d <= b - a
    ensures s[a..b][c..d] == s[a + c..a + d]
  {
    var x, y := s[a..b][c..d], s[a + c..a + d];
    assert |x| == |y| && forall i :: 0 <= i < d - c ==> x[i] == y[i];
  }

  lemma CutBothEnds(s: seq<Byte>, b: nat, k: nat)
    requires b <= k <= |s|
    ensures s[..k][b..k] == s[b..][..k - b]
  {
    var x, y := s[..k][b..k], s[b..][..k - b];
    assert |x| == |y| && forall i :: 0 <= i < k - b ==> x[i] == y[i];
  }

  /** The end of the run of bytes satisfying `p` that starts at index `from`. */
  function Span(s: seq<Byte>, from: nat, p: Byte -> bool): (n: nat)
    requires from <= |s|
    ensures from <= n <= |s|
    ensures forall i :: from <= i < n ==> p(s[i])
    ensures n < |s| ==> !p(s[n])
    decreases |s| - from
  {
    if from == |s| || !p(s[from]) then from else Span(s, from + 1, p)
  }

  predicate NotNul(b: Byte) {
    b != NUL
  }

  predicate NulFree(s: seq<Byte>) {
    forall i :: 0 <= i < |s| ==> s[i] != NUL
  }

  /** The index of the first NUL at or after `from`, or `|s|`: `from + strlen(s + from)`. */
  function NulAt(s: seq<Byte>, from: nat): (n: nat)
    requires from <= |s|
    ensures from <= n <= |s|
    ensures forall i :: from <= i < n ==> s[i] != NUL
    ensures n < |s| ==> s[n] == NUL
  {
    Span(s, from, NotNul)
  }

  /** Everything before the first NUL, or all of `s` if there is none. */
  function CString(s: seq<Byte>): (c: seq<Byte>)
    ensures c == s[..NulAt(s, 0)]
  {
    s[..NulAt(s, 0)]
  }

  function Pow256(w: nat): (p: nat)
    ensures p > 0
  {
    if w == 0 then 1 else 256 * Pow256(w - 1)
  }

  /** `n` in network byte order, cut to `width` bytes as the C casts to uint16_t and uint32_t cut it. */
  function BigEndian(n: nat, width: nat): (b: seq<Byte>)
    ensures |b| == width
  {
    if width == 0 then [] else BigEndian(n / 256, width - 1) + [n % 256]
  }

  function FromBigEndian(b: seq<Byte>): nat {
    if b == [] then 0 else FromBigEndian(b[..|b| - 1]) * 256 + b[|b| - 1]
  }

  lemma {:induction false} BigEndianRoundTrip(n: nat, width: nat)
    requires n < Pow256(width)
    ensures FromBigEndian(BigEndian(n, width)) == n
  {
    if width > 0 {
      BigEndianRoundTrip(n / 256, width - 1);
      assert BigEndian(n, width)[..width - 1] == BigEndian(n / 256, width - 1);
    }
  }

  lemma {:induction false} FromBigEndianBound(b: seq<Byte>)
    ensures FromBigEndian(b) < Pow256(|b|)
  {
    if b != [] {
      FromBigEndianBound(b[..|b| - 1]);
    }
  }

  /** What has been read is written back as it was. */
  lemma {:induction false} FromBigEndianBack(b: seq<Byte>)
    ensures BigEndian(FromBigEndian(b), |b|) == b
  {
    if b != [] {
      FromBigEndianBack(b[..|b| - 1]);
      assert b == b[..|b| - 1] + [b[|b| - 1]];
    }
  }

  /** Network order: the first byte counts most. */
  lemma {:induction false} NetworkOrder(b: seq<Byte>)
    requires b != []
    ensures FromBigEndian(b) == b[0] * Pow256(|b| - 1) + FromBigEndian(b[1..])
  {
    if |b| > 1 {
      var front := b[..|b| - 1];
      NetworkOrder(front);
      assert front[1..] == b[1..][..|b| - 2];
      Shifted(b[0], Pow256(|b| - 2), FromBigEndian(front[1..]));
    } else {
      assert b[..0] == [] && b[1..] == [];
    }
  }

  lemma Shifted(a: nat, p: nat, rest: nat)
    ensures (a * p + rest) * 256 == a * (256 * p) + rest * 256
  {
  }

  /** Distinct numbers of the same width have distinct encodings. */
  lemma BigEndianInjective(m: nat, n: nat, width: nat)
    requires m < Pow256(width) && n < Pow256(width)
    requires BigEndian(m, width) == BigEndian(n, width)
    ensures m == n
  {
    BigEndianRoundTrip(m, width);
    BigEndianRoundTrip(n, width);
  }
}
