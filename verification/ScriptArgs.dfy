/** `script_helper`: a NUL-separated list of strings becomes the argument vector of a script. */
module ScriptArgs {
  import opened Bytes
  import opened Errno
  import opened Payload

  /** The strings that start at index `from` of the list, whose closing NUL is at index `|content|`. */
  function Split(content: seq<Byte>, from: nat): seq<seq<Byte>>
    decreases |content| - from
  {
    if from >= |content| then [] else
      [content[from..NulAt(content, from)]] + Split(content, NulAt(content, from) + 1)
  }

  /** What `script_helper` makes of the data of a command: nothing to run, or a list of strings. */
  datatype Parsed = Nothing(err: int) | Strings(list: seq<seq<Byte>>)

  function Parse(data: seq<Byte>): Parsed {
    if |data| == 0 then Nothing(0)
    else if data[0] == NUL || |data| <= 1 then Nothing(EINVAL)
    else Strings(Split(data[..|data| - 1], 0))
  }

  // ----- the writers of such lists -----

  /** `set_data_stringlist` and `cmd_firewall`: each string and a NUL; Rust writes one NUL for an
      empty list. */
  function Join(list: seq<seq<Byte>>): seq<Byte> {
    if list == [] then [] else list[0] + [NUL] + Join(list[1..])
  }

  function StringListData(list: seq<seq<Byte>>): seq<Byte> {
    if list == [] then [NUL] else Join(list)
  }

  lemma {:induction false} JoinSnoc(list: seq<seq<Byte>>, last: seq<Byte>)
    ensures Join(list + [last]) == Join(list) + last + [NUL]
  {
    if list != [] {
      JoinSnoc(list[1..], last);
      assert (list + [last])[1..] == list[1..] + [last];
    } else {
      assert ([] + [last])[1..] == [];
    }
  }

  /** The loop of `set_data_stringlist`. */
  method SetDataStringList(list: seq<seq<Byte>>) returns (data: seq<Byte>)
    ensures data == StringListData(list)
  {
    data := [];
    if |list| == 0 {
      data := data + [NUL];
    }
    for i := 0 to |list|
      invariant list != [] ==> data == Join(list[..i])
      invariant list == [] ==> data == [NUL]
    {
      assert list[..i + 1] == list[..i] + [list[i]];
      JoinSnoc(list[..i], list[i]);
      data := data + list[i];
      data := data + [NUL];
    }
    assert list[..|list|] == list;
  }

  /** The loop of `cmd_firewall` over the arguments after the command name. */
  method CmdFirewall(apps: seq<seq<Byte>>) returns (err: int, data: seq<Byte>, totalWritten: nat)
    ensures err == if apps == [] then EINVAL else 0
    ensures apps != [] ==> data == StringListData(apps)
    ensures totalWritten == |data|
  {
    data, totalWritten := [], 0;
    if |apps| + 1 < 2 {
      return EINVAL, data, totalWritten;
    }
    for i := 0 to |apps|
      invariant data == Join(apps[..i]) && totalWritten == |data|
    {
      assert apps[..i + 1] == apps[..i] + [apps[i]];
      JoinSnoc(apps[..i], apps[i]);
      data := data + (apps[i] + [NUL]);
      assert data == Join(apps[..i]) + apps[i] + [NUL];
      totalWritten := totalWritten + |apps[i]| + 1;
    }
    assert apps[..|apps|] == apps;
    err := 0;
  }

  // ----- round trip -----

  /** A list that survives: no string holds a NUL, and neither the first nor the last is empty. */
  predicate Listable(list: seq<seq<Byte>>) {
    list != [] && list[0] != [] && list[|list| - 1] != [] && forall i :: 0 <= i < |list| ==> NulFree(list[i])
  }

  /** The list's encoding without its last NUL. */
  function Content(list: seq<seq<Byte>>): seq<Byte>
    requires list != []
  {
    if |list| == 1 then list[0] else list[0] + [NUL] + Content(list[1..])
  }

  lemma {:induction false} JoinIsContent(list: seq<seq<Byte>>)
    requires list != []
    ensures Join(list) == Content(list) + [NUL]
  {
    if |list| > 1 {
      JoinIsContent(list[1..]);
    } else {
      assert Join(list[1..]) == [];
    }
  }

  lemma NulAtShift(front: seq<Byte>, rest: seq<Byte>, from: nat)
    requires from <= |rest|
    ensures NulAt(front + rest, |front| + from) == |front| + NulAt(rest, from)
  {
    var whole, k := front + rest, NulAt(rest, from);
    assert forall i :: from <= i < |rest| ==> whole[|front| + i] == rest[i];
    assert forall i :: |front| + from <= i < |front| + k ==> whole[i] == rest[i - |front|];
  }

  /** The unfolding of `Split`. */
  lemma SplitNext(content: seq<Byte>, from: nat)
    ensures Split(content, from) ==
            if from >= |content| then []
            else [content[from..NulAt(content, from)]] + Split(content, NulAt(content, from) + 1)
  {
  }

  /** Splitting from a later index is splitting the rest. */
  lemma {:induction false} SplitShift(front: seq<Byte>, rest: seq<Byte>, from: nat)
    ensures Split(front + rest, |front| + from) == Split(rest, from)
    decreases |rest| - from
  {
    hide Split, NulAt;
    SplitNext(rest, from);
    SplitNext(front + rest, |front| + from);
    if from < |rest| {
      NulAtShift(front, rest, from);
      var k := NulAt(rest, from);
      SliceBehind(front, rest, from, k);
      SplitShift(front, rest, k + 1);
      assert |front| + k + 1 == |front| + (k + 1);
    }
  }

  lemma SliceBehind(front: seq<Byte>, rest: seq<Byte>, a: nat, b: nat)
    requires a <= b <= |rest|
    ensures (front + rest)[|front| + a..|front| + b] == rest[a..b]
  {
  }

  lemma SplitCons(s: seq<Byte>, rest: seq<Byte>)
    requires NulFree(s)
    ensures Split(s + [NUL] + rest, 0) == [s] + Split(rest, 0)
  {
    var whole := s + [NUL] + rest;
    assert whole[|s|] == NUL;
    assert forall i :: 0 <= i < |s| ==> whole[i] == s[i];
    assert NulAt(whole, 0) == |s|;
    assert whole[0..|s|] == s;
    SplitShift(s + [NUL], rest, 0);
  }

  lemma SplitOne(s: seq<Byte>)
    requires NulFree(s) && s != []
    ensures Split(s, 0) == [s]
  {
    assert NulAt(s, 0) == |s|;
    assert s[0..|s|] == s;
  }

  lemma {:induction false} SplitContent(list: seq<seq<Byte>>)
    requires list != [] && list[|list| - 1] != [] && forall i :: 0 <= i < |list| ==> NulFree(list[i])
    ensures Split(Content(list), 0) == list
  {
    if |list| == 1 {
      SplitOne(list[0]);
    } else {
      SplitContent(list[1..]);
      SplitCons(list[0], Content(list[1..]));
    }
  }

  /** Every string that splitting yields is free of NUL. */
  lemma {:induction false} SplitYields(content: seq<Byte>, from: nat)
    ensures forall i :: 0 <= i < |Split(content, from)| ==> NulFree(Split(content, from)[i])
    decreases |content| - from
  {
    if from < |content| {
      SplitYields(content, NulAt(content, from) + 1);
    }
  }

  lemma JoinSize(s: seq<Byte>, rest: seq<seq<Byte>>)
    ensures |Join([s] + rest)| == |s| + 1 + |Join(rest)|
  {
    assert ([s] + rest)[1..] == rest;
  }

  lemma JoinNothing()
    ensures Join([]) == []
  {
  }

  /** Joining the strings again uses up every byte, except that a NUL at the very end of the
      content does not start another string. */
  lemma {:induction false} SplitSize(content: seq<Byte>, from: nat)
    requires from < |content|
    ensures |Join(Split(content, from))| == |content| - from + if content[|content| - 1] == NUL then 0 else 1
    decreases |content| - from
  {
    hide Split, NulAt, Join;
    var k := NulAt(content, from);
    SplitNext(content, from);
    JoinSize(content[from..k], Split(content, k + 1));
    if k + 1 < |content| {
      SplitSize(content, k + 1);
    } else {
      SplitNext(content, k + 1);
      JoinNothing();
    }
  }

  /** `script_helper` recovers the list from what the writers produce exactly when the list is not
      empty, no string holds a NUL, and the first and the last string are not empty. */
  lemma StringListRoundTrip(list: seq<seq<Byte>>)
    ensures Parse(StringListData(list)) == Strings(list) <==> Listable(list)
  {
    if list != [] {
      var data := StringListData(list);
      JoinIsContent(list);
      assert data[..|data| - 1] == Content(list);
      assert list[0] == [] ==> data[0] == NUL;
      assert list[0] != [] ==> data[0] == list[0][0];
      if Listable(list) {
        SplitContent(list);
      }
      if Parse(data) == Strings(list) {
        SplitYields(Content(list), 0);
        LastByte(list);
        SplitSize(Content(list), 0);
      }
    }
  }

  /** Joining the strings again gives the content back, with a NUL behind it unless it ends in one. */
  lemma {:induction false} SplitJoins(content: seq<Byte>, from: nat)
    requires from < |content|
    ensures Join(Split(content, from)) == content[from..] + if content[|content| - 1] == NUL then [] else [NUL]
    decreases |content| - from
  {
    hide Split, NulAt, Join;
    var k := NulAt(content, from);
    SplitNext(content, from);
    JoinNext(content[from..k], Split(content, k + 1));
    assert content[from..] == content[from..k] + content[k..];
    if k < |content| {
      assert content[k..] == [NUL] + content[k + 1..];
    }
    if k + 1 < |content| {
      SplitJoins(content, k + 1);
    } else {
      SplitNext(content, k + 1);
      JoinNothing();
    }
  }

  lemma JoinNext(s: seq<Byte>, rest: seq<seq<Byte>>)
    ensures Join([s] + rest) == s + ([NUL] + Join(rest))
  {
    assert ([s] + rest)[1..] == rest;
  }

  lemma SameHead(s: seq<Byte>, t: seq<Byte>, a: seq<Byte>, b: seq<Byte>)
    requires NulFree(s) && NulFree(t) && s + [NUL] + a == t + [NUL] + b
    ensures s == t && a == b
  {
    var x, y := s + [NUL] + a, t + [NUL] + b;
    assert x[|s|] == NUL && y[|t|] == NUL;
    assert forall i :: 0 <= i < |s| ==> x[i] == s[i];
    assert forall i :: 0 <= i < |t| ==> y[i] == t[i];
    assert x[..|s|] == s && y[..|t|] == t;
    assert x[|s| + 1..] == a && y[|t| + 1..] == b;
  }

  /** Lists without a NUL in their strings are determined by what they are joined to. */
  lemma {:induction false} JoinInjective(a: seq<seq<Byte>>, b: seq<seq<Byte>>)
    requires forall i :: 0 <= i < |a| ==> NulFree(a[i])
    requires forall i :: 0 <= i < |b| ==> NulFree(b[i])
    requires Join(a) == Join(b)
    ensures a == b
  {
    if a != [] && b != [] {
      SameHead(a[0], b[0], Join(a[1..]), Join(b[1..]));
      JoinInjective(a[1..], b[1..]);
      assert a == [a[0]] + a[1..] && b == [b[0]] + b[1..];
    }
  }

  /** `script_helper` on any data. None at all is ignored; a single byte, or a first string that is empty,
      is an error. Otherwise the last byte is dropped, whatever it is, and the list is the one whose strings
      hold no NUL and which gives the rest when each is closed by a NUL, the last one unless the rest
      ends there. */
  lemma ParseIff(data: seq<Byte>, list: seq<seq<Byte>>)
    ensures Parse(data) == Nothing(0) <==> data == []
    ensures Parse(data) == Nothing(22) <==> |data| == 1 || (data != [] && data[0] == 0)
    ensures Parse(data) == Strings(list) <==>
            && |data| >= 2 && data[0] != 0 && (forall i :: 0 <= i < |list| ==> NulFree(list[i]))
            && Join(list) == data[..|data| - 1] + if data[|data| - 2] == 0 then [] else [0]
  {
    hide Split, Join;
    if |data| >= 2 && data[0] != 0 {
      var content := data[..|data| - 1];
      SplitJoins(content, 0);
      assert content[0..] == content;
      SplitYields(content, 0);
      if (forall i :: 0 <= i < |list| ==> NulFree(list[i])) && Join(list) == Join(Split(content, 0)) {
        JoinInjective(list, Split(content, 0));
      }
    }
  }

  /** An empty last string shows as a NUL at the end of the content. */
  lemma {:induction false} LastByte(list: seq<seq<Byte>>)
    requires list != []
    ensures list[|list| - 1] == [] && |list| > 1 ==> Content(list) != [] && Content(list)[|Content(list)| - 1] == NUL
  {
    if |list| > 2 {
      LastByte(list[1..]);
    }
  }

  // ----- script_helper itself -----

  /** An entry of the vector handed to `execv`: unset, a literal, a pointer into the data, or NULL. */
  datatype Slot = Unset | Literal(text: string) | At(index: nat) | Null

  /** The argument vector that stands for `list`, as pointers into the buffer `bytes`. */
  ghost predicate Points(argv: seq<Slot>, bytes: seq<Byte>, end: nat, argv0: string, argv1: string,
                         list: seq<seq<Byte>>)
    requires end < |bytes|
  {
    && |argv| == |list| + 3
    && argv[0] == Literal(argv0) && argv[1] == Literal(argv1) && argv[|list| + 2] == Null
    && PointsAt(argv, bytes, end, list)
  }

  ghost predicate PointsAt(argv: seq<Slot>, bytes: seq<Byte>, end: nat, list: seq<seq<Byte>>)
    requires end < |bytes| && |argv| >= |list| + 2
  {
    forall j :: 0 <= j < |list| ==> PointsTo(argv[j + 2], bytes, end, list[j])
  }

  ghost predicate PointsTo(slot: Slot, bytes: seq<Byte>, end: nat, s: seq<Byte>)
    requires end < |bytes|
  {
    slot.At? && slot.index < end && StringAt(bytes, slot.index, end, s)
  }

  /** The NUL-terminated string at `from` is `s`, and its NUL is no later than `end`. */
  ghost predicate StringAt(bytes: seq<Byte>, from: nat, end: nat, s: seq<Byte>)
    requires from <= end < |bytes|
  {
    from + |s| <= end && bytes[from..from + |s|] == s && NulFree(s) && bytes[from + |s|] == NUL
  }

  lemma SplitAt(content: seq<Byte>, bytes: seq<Byte>, at: nat, from: nat)
    requires from < |content| && at + |content| < |bytes|
    requires bytes[at..at + |content|] == content && bytes[at + |content|] == NUL
    ensures NulAt(bytes, at + from) == at + NulAt(content, from)
    ensures StringAt(bytes, at + from, at + |content|, content[from..NulAt(content, from)])
  {
    var k := NulAt(content, from);
    assert forall i :: 0 <= i < |content| ==> bytes[at + i] == content[i];
    assert forall i :: at + from <= i < at + k ==> bytes[i] == content[i - at];
    assert bytes[at + k] == NUL;
    SliceOfSlice(bytes, at, at + |content|, from, k);
  }

  /** `script_helper` on the `size` data bytes at index `at`. It returns an error without running
      anything, or the vector to run. The vector is reallocated for every string, as in C. */
  method ScriptHelper(buf: array<Byte>, at: nat, size: nat, argv0: string, argv1: string)
    returns (run: bool, err: int, argv: seq<Slot>)
    requires at + size <= buf.Length
    modifies buf
    ensures run == Parse(old(buf[at..at + size])).Strings?
    ensures !run ==> err == Parse(old(buf[at..at + size])).err && buf[..] == old(buf[..])
    ensures run ==> size > 0 && Points(argv, buf[..], at + size - 1, argv0, argv1, Parse(old(buf[at..at + size])).list)
    ensures Within(old(buf[..]), buf[..], at, at + size)
  {
    hide Split, PointsAt;
    run, err, argv := false, 0, [];
    if size == 0 {
      return;
    }
    if buf[at] == NUL || size <= 1 {
      err := EINVAL;
      return;
    }
    run := true;
    ghost var data := buf[at..at + size];
    var end := at + size - 1;
    buf[end] := NUL;
    assert buf[at..end] == data[..size - 1];
    argv := MakeArgv(buf, at, end, data[..size - 1], argv0, argv1);
  }

  /** The strings between index `at` and the NUL at `end`, behind the two given ones, then NULL. */
  method MakeArgv(buf: array<Byte>, at: nat, end: nat, ghost content: seq<Byte>, argv0: string, argv1: string)
    returns (argv: seq<Slot>)
    requires at < end < buf.Length && buf[at..end] == content && buf[end] == NUL
    ensures Points(argv, buf[..], end, argv0, argv1, Split(content, 0))
  {
    hide Split, PointsAt;
    var slots := CollectStrings(buf, at, end, content);
    ghost var pointers := slots[..];
    var count := slots.Length - 3;
    slots[0] := Literal(argv0);
    slots[1] := Literal(argv1);
    slots[count + 2] := Null;
    argv := slots[..];
    PointsAtSame(pointers, argv, buf[..], end, Split(content, 0));
  }

  lemma PointsAtSame(a: seq<Slot>, b: seq<Slot>, bytes: seq<Byte>, end: nat, list: seq<seq<Byte>>)
    requires end < |bytes| && |a| == |b| == |list| + 3 && PointsAt(a, bytes, end, list)
    requires forall i :: 2 <= i < |list| + 2 ==> a[i] == b[i]
    ensures PointsAt(b, bytes, end, list)
  {
    hide PointsTo;
    forall j | 0 <= j < |list|
      ensures PointsTo(b[j + 2], bytes, end, list[j])
    {
      assert PointsTo(a[j + 2], bytes, end, list[j]);
    }
  }

  /** The loop of `script_helper`: one more string, one larger vector, in every round. */
  method CollectStrings(buf: array<Byte>, at: nat, end: nat, ghost content: seq<Byte>)
    returns (slots: array<Slot>)
    requires at < end < buf.Length && buf[at..end] == content && buf[end] == NUL
    ensures fresh(slots) && slots.Length == |Split(content, 0)| + 3
    ensures PointsAt(slots[..], buf[..], end, Split(content, 0))
  {
    hide PointsAt, StringAt, Split, NulAt;
    ghost var list: seq<seq<Byte>> := [];
    ghost var bytes := buf[..];
    assert bytes[at..at + |content|] == content;
    var data, count := at, 0;
    slots := new Slot[0];
    while data < end
      invariant at <= data <= end + 1 && count == |list|
      invariant list + Split(content, data - at) == Split(content, 0)
      invariant fresh(slots) && slots.Length == if count == 0 then 0 else count + 3
      invariant count > 0 ==> PointsAt(slots[..], bytes, end, list)
      invariant data == at ==> count == 0
      invariant data > at ==> count > 0
    {
      count := count + 1;
      var grown := Grow(slots, count + 3, data, count + 1);
      SplitAt(content, bytes, at, data - at);
      ghost var next := content[data - at..NulAt(content, data - at)];
      PointsAtGrows(slots[..], grown[..], bytes, end, list, next, data);
      SplitStep(list, content, data - at);
      list := list + [next];
      slots := grown;
      data := NulAt(buf[..], data) + 1;
    }
    SplitEnd(list, content, data - at);
  }

  lemma SplitStep(list: seq<seq<Byte>>, content: seq<Byte>, from: nat)
    requires from < |content|
    ensures list + Split(content, from) ==
            list + [content[from..NulAt(content, from)]] + Split(content, NulAt(content, from) + 1)
  {
  }

  lemma SplitEnd(list: seq<seq<Byte>>, content: seq<Byte>, from: nat)
    requires from >= |content|
    ensures list + Split(content, from) == list
  {
  }

  /** `reallocarray` to `size` entries, and one store. */
  method Grow(slots: array<Slot>, size: nat, data: nat, index: nat) returns (grown: array<Slot>)
    requires slots.Length <= size && index < size
    ensures fresh(grown) && grown.Length == size && grown[index] == At(data)
    ensures forall i :: 0 <= i < slots.Length && i != index ==> grown[i] == slots[i]
  {
    grown := new Slot[size](_ => Unset);
    forall i | 0 <= i < slots.Length {
      grown[i] := slots[i];
    }
    grown[index] := At(data);
  }

  lemma PointsAtGrows(before: seq<Slot>, after: seq<Slot>, bytes: seq<Byte>, end: nat, list: seq<seq<Byte>>,
                      next: seq<Byte>, data: nat)
    requires data < end < |bytes| && |after| == |list| + 4 && StringAt(bytes, data, end, next)
    requires |before| == (if list == [] then 0 else |list| + 3)
    requires list != [] ==> PointsAt(before, bytes, end, list)
    requires after[|list| + 2] == At(data) && forall i :: 0 <= i < |before| && i != |list| + 2 ==> after[i] == before[i]
    ensures PointsAt(after, bytes, end, list + [next])
  {
    assert PointsTo(At(data), bytes, end, next);
    hide PointsTo;
    forall j | 0 <= j < |list + [next]|
      ensures PointsTo(after[j + 2], bytes, end, (list + [next])[j])
    {
      if j < |list| {
        assert PointsTo(before[j + 2], bytes, end, list[j]);
      }
    }
  }
}
