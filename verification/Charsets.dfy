/** Sets of characters, written out. */
module Charsets {
  import opened Bytes

  /** Every byte occurs in `chars`. */
  predicate MadeOf(s: seq<Byte>, chars: string) {
    forall i :: 0 <= i < |s| ==> s[i] in Ascii(chars)
  }

  /** The characters of `chars` follow each other from `lo` on. */
  predicate Consecutive(chars: string, lo: nat) {
    lo + |chars| <= 128 && forall i :: 0 <= i < |chars| ==> chars[i] as int == lo + i
  }

  lemma InConsecutive(chars: string, lo: nat, b: Byte)
    requires Consecutive(chars, lo)
    ensures b in Ascii(chars) <==> lo <= b < lo + |chars|
  {
    if lo <= b < lo + |chars| {
      assert Ascii(chars)[b - lo] == b;
    }
  }

  lemma InConcat(s: string, t: string, b: Byte)
    ensures b in Ascii(s + t) <==> b in Ascii(s) || b in Ascii(t)
  {
    assert Ascii(s + t) == Ascii(s) + Ascii(t);
  }

  lemma Ranges()
    ensures Consecutive("abcdefghijklmnopqrstuvwxyz", 97)
    ensures Consecutive("ABCDEFGHIJKLMNOPQRSTUVWXYZ", 65)
    ensures Consecutive("0123456789", 48)
  {
  }

  /** Letters and digits. */
  lemma Alphanumeric(b: Byte)
    ensures b in Ascii("abcdefghijklmnopqrstuvwxyz" + "ABCDEFGHIJKLMNOPQRSTUVWXYZ" + "0123456789") <==>
            97 <= b <= 122 || 65 <= b <= 90 || 48 <= b <= 57
  {
    hide Ascii, Consecutive;
    Ranges();
    InConsecutive("abcdefghijklmnopqrstuvwxyz", 97, b);
    InConsecutive("ABCDEFGHIJKLMNOPQRSTUVWXYZ", 65, b);
    InConsecutive("0123456789", 48, b);
    InConcat("abcdefghijklmnopqrstuvwxyz" + "ABCDEFGHIJKLMNOPQRSTUVWXYZ", "0123456789", b);
    InConcat("abcdefghijklmnopqrstuvwxyz", "ABCDEFGHIJKLMNOPQRSTUVWXYZ", b);
  }

  lemma AlphanumericText()
    ensures "abcdefghijklmnopqrstuvwxyz" + "ABCDEFGHIJKLMNOPQRSTUVWXYZ" + "0123456789" ==
            "abcdefghijklmnopqrstuvwxyzABCDEFGHIJKLMNOPQRSTUVWXYZ0123456789"
  {
  }

  lemma Pair(s: string, x: Byte, y: Byte, b: Byte)
    requires |s| == 2 && s[0] as int == x < 128 && s[1] as int == y < 128
    ensures b in Ascii(s) <==> b == x || b == y
  {
    assert Ascii(s)[0] == x && Ascii(s)[1] == y;
  }

  /** `[a-zA-Z0-9_.]`: the characters of a package name. */
  lemma PackageChars(b: Byte)
    ensures b in Ascii("abcdefghijklmnopqrstuvwxyzABCDEFGHIJKLMNOPQRSTUVWXYZ0123456789_.") <==>
            97 <= b <= 122 || 65 <= b <= 90 || 48 <= b <= 57 || b == 95 || b == 46
  {
    hide Ascii;
    var all := "abcdefghijklmnopqrstuvwxyzABCDEFGHIJKLMNOPQRSTUVWXYZ0123456789";
    AlphanumericText();
    Alphanumeric(b);
    Pair("_.", 95, 46, b);
    InConcat(all, "_.", b);
    assert all + "_." == "abcdefghijklmnopqrstuvwxyzABCDEFGHIJKLMNOPQRSTUVWXYZ0123456789_.";
  }

  /** The characters of a user name. */
  lemma UserChars(b: Byte)
    ensures b in Ascii("abcdefghijklmnopqrstuvwxyzABCDEFGHIJKLMNOPQRSTUVWXYZ0123456789-_") <==>
            97 <= b <= 122 || 65 <= b <= 90 || 48 <= b <= 57 || b == 45 || b == 95
  {
    hide Ascii;
    var all := "abcdefghijklmnopqrstuvwxyzABCDEFGHIJKLMNOPQRSTUVWXYZ0123456789";
    AlphanumericText();
    Alphanumeric(b);
    Pair("-_", 45, 95, b);
    InConcat(all, "-_", b);
    assert all + "-_" == "abcdefghijklmnopqrstuvwxyzABCDEFGHIJKLMNOPQRSTUVWXYZ0123456789-_";
  }

  /** The characters of a request id. */
  lemma RequestChars(b: Byte)
    ensures b in Ascii("abcdefghijklmnopqrstuvwxyzABCDEFGHIJKLMNOPQRSTUVWXYZ0123456789") <==>
            97 <= b <= 122 || 65 <= b <= 90 || 48 <= b <= 57
  {
    hide Ascii;
    AlphanumericText();
    Alphanumeric(b);
  }

  /** The characters of a secret code. */
  lemma CodeChars(b: Byte)
    ensures b in Ascii("abcdefghijklmnopqrstuvwxyz0123456789-_") <==>
            97 <= b <= 122 || 48 <= b <= 57 || b == 45 || b == 95
  {
    hide Ascii, Consecutive;
    Ranges();
    InConsecutive("abcdefghijklmnopqrstuvwxyz", 97, b);
    InConsecutive("0123456789", 48, b);
    Pair("-_", 45, 95, b);
    InConcat("abcdefghijklmnopqrstuvwxyz", "0123456789", b);
    InConcat("abcdefghijklmnopqrstuvwxyz" + "0123456789", "-_", b);
    assert "abcdefghijklmnopqrstuvwxyz" + "0123456789" + "-_" == "abcdefghijklmnopqrstuvwxyz0123456789-_";
  }
}
