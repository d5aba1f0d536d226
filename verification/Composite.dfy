/** The composite writer of the server tool, and its agreement with the walker on the device. */
module Composite {
  import opened Bytes
  import opened Errno
  import opened Payload
  import opened Engine

  // ----- dumb-tool-cmd-set.c -----

  /** One frame: the size, cut to 32 bits, and the payload. */
  function PackFrame(p: seq<Byte>): seq<Byte> {
    BigEndian(|p|, 4) + p
  }

  function PackFrames(ps: seq<seq<Byte>>): seq<Byte> {
    if ps == [] then [] else PackFrame(ps[0]) + PackFrames(ps[1..])
  }

  /** The data section: the count, cut to 16 bits, and the frames. */
  function Pack(ps: seq<seq<Byte>>): seq<Byte> {
    BigEndian(|ps|, 2) + PackFrames(ps)
  }

  lemma {:induction false} PackSnoc(ps: seq<seq<Byte>>, p: seq<Byte>)
    ensures PackFrames(ps + [p]) == PackFrames(ps) + PackFrame(p)
  {
    hide PackFrame;
    if ps == [] {
      assert PackFrames([p][1..]) == [];
    } else {
      PackSnoc(ps[1..], p);
      assert (ps + [p])[1..] == ps[1..] + [p];
    }
  }

  /** `cmd_composite`: the arguments after the command name are the payload files. It writes the
      data section and counts what it has written. */
  method CmdComposite(files: seq<seq<Byte>>) returns (err: int, dest: seq<Byte>, totalWritten: nat)
    ensures err == if files == [] then EINVAL else 0
    ensures files != [] ==> dest == Pack(files)
    ensures totalWritten == |dest|
  {
    hide PackFrames, BigEndian;
    dest, totalWritten := [], 0;
    if |files| + 1 < 2 {
      return EINVAL, dest, totalWritten;
    }
    dest := dest + BigEndian(|files|, 2);
    totalWritten := totalWritten + 2;
    PackNothing();
    for i := 0 to |files|
      invariant dest == BigEndian(|files|, 2) + PackFrames(files[..i])
      invariant totalWritten == |dest|
    {
      PackedNext(BigEndian(|files|, 2), files, i);
      dest := dest + BigEndian(|files[i]|, 4);
      totalWritten := totalWritten + 4;
      dest := dest + files[i];
      totalWritten := totalWritten + |files[i]|;
    }
    assert files[..|files|] == files;
    err := 0;
  }

  lemma PackedNext(head: seq<Byte>, files: seq<seq<Byte>>, i: nat)
    requires i < |files|
    ensures head + PackFrames(files[..i + 1]) == head + PackFrames(files[..i]) + BigEndian(|files[i]|, 4) + files[i]
  {
    hide PackFrames, BigEndian;
    PackSnoc(files[..i], files[i]);
    assert files[..i + 1] == files[..i] + [files[i]];
    var before, size := head + PackFrames(files[..i]), BigEndian(|files[i]|, 4);
    assert before + size + files[i] == before + (size + files[i]);
  }

  lemma PackNothing()
    ensures PackFrames([]) == []
  {
  }

  // ----- what the walker makes of a data section -----

  /** The payloads handed out, in order. */
  function Walked(fs: Frames): seq<seq<Byte>> {
    match fs
    case End => []
    case Malformed => []
    case Frame(first, rest) => [first.raw] + Walked(rest)
  }

  predicate Complete(fs: Frames) {
    match fs
    case End => true
    case Malformed => false
    case Frame(_, rest) => Complete(rest)
  }

  /** The number of bytes that the frames take. */
  function FramesSize(fs: Frames): nat {
    match fs
    case End => 0
    case Malformed => 0
    case Frame(first, rest) => 4 + |first.raw| + FramesSize(rest)
  }

  predicate Framable(p: seq<Byte>) {
    HEADER_SIZE <= |p| < 0x1_0000_0000
  }

  lemma Pow256s()
    ensures Pow256(2) == 0x1_0000 && Pow256(4) == 0x1_0000_0000
  {
  }

  lemma FrameAt(front: seq<Byte>, p: seq<Byte>, back: seq<Byte>)
    requires Framable(p)
    ensures var d := front + (PackFrame(p) + back);
      && |d| == |front| + 4 + |p| + |back|
      && FromBigEndian(d[|front|..|front| + 4]) == |p|
      && d[|front| + 4..|front| + 4 + |p|] == p
      && d == front + PackFrame(p) + back
  {
    hide BigEndian, FromBigEndian;
    Pow256s();
    BigEndianRoundTrip(|p|, 4);
    var d := front + (PackFrame(p) + back);
    assert d[|front|..|front| + 4] == BigEndian(|p|, 4);
    assert d[|front| + 4..|front| + 4 + |p|] == p;
  }

  lemma {:induction false} WalkPacked(front: seq<Byte>, ps: seq<seq<Byte>>, back: seq<Byte>)
    requires 2 <= |front| && forall i :: 0 <= i < |ps| ==> Framable(ps[i])
    ensures var fs := ParseFrames(front + (PackFrames(ps) + back), |front|, |ps|);
      Complete(fs) && Walked(fs) == ps && FramesSize(fs) == |PackFrames(ps)|
    decreases |ps|
  {
    hide ParseTree, FromBigEndian, PackFrame;
    if ps != [] {
      var more := PackFrames(ps[1..]) + back;
      assert PackFrames(ps) + back == PackFrame(ps[0]) + more;
      FrameAt(front, ps[0], more);
      WalkPacked(front + PackFrame(ps[0]), ps[1..], back);
      PackFrameSize(ps[0]);
    }
  }

  /** What has been walked to the end was packed. */
  lemma {:induction false} WalkedIsPacked(d: seq<Byte>, offset: nat, count: nat)
    requires 2 <= offset <= |d|
    ensures var fs := ParseFrames(d, offset, count);
      Complete(fs) ==> PackFrames(Walked(fs)) <= d[offset..]
    decreases count
  {
    hide ParseTree, FromBigEndian, PackFrame, BigEndian;
    if count > 0 && offset + 4 <= |d| {
      var body, size := offset + 4, FromBigEndian(d[offset..offset + 4]);
      if body + size <= |d| && size >= HEADER_SIZE {
        FrameRead(d, offset);
        WalkedIsPacked(d, body + size, count - 1);
        assert d[offset..] == PackFrame(d[body..body + size]) + d[body + size..];
        var fs := ParseFrames(d, offset, count);
        assert Walked(fs)[1..] == Walked(fs.rest);
      }
    }
  }

  lemma FrameRead(d: seq<Byte>, offset: nat)
    requires offset + 4 <= |d| && offset + 4 + FromBigEndian(d[offset..offset + 4]) <= |d|
    ensures var size := FromBigEndian(d[offset..offset + 4]);
      d[offset..] == PackFrame(d[offset + 4..offset + 4 + size]) + d[offset + 4 + size..]
  {
    hide FromBigEndian, BigEndian;
    FromBigEndianBack(d[offset..offset + 4]);
  }

  lemma PackFrameSize(p: seq<Byte>)
    ensures |PackFrame(p)| == 4 + |p|
  {
  }

  /** The walker hands out only payloads whose sizes fit the frame's size field. */
  lemma {:induction false} WalkedFramable(d: seq<Byte>, offset: nat, count: nat)
    requires 2 <= offset <= |d|
    ensures var ps := Walked(ParseFrames(d, offset, count));
      |ps| <= count && forall i :: 0 <= i < |ps| ==> Framable(ps[i])
    ensures Complete(ParseFrames(d, offset, count)) ==> |Walked(ParseFrames(d, offset, count))| == count
    decreases count
  {
    hide FromBigEndian, ParseTree;
    if count > 0 && offset + 4 <= |d| {
      var body, size := offset + 4, FromBigEndian(d[offset..offset + 4]);
      FromBigEndianBound(d[offset..offset + 4]);
      Pow256s();
      if body + size <= |d| && size >= HEADER_SIZE {
        WalkedFramable(d, body + size, count - 1);
      }
    }
  }

  /** The walker on any bytes: it gets to the end having handed out exactly these payloads if and only if
      there are at most 65535 of them, each has a header and fewer than 2^32 bytes, and the bytes start
      with what the server packs for them. What is behind that is ignored. */
  lemma WalkIff(d: seq<Byte>, ps: seq<seq<Byte>>)
    ensures Complete(ParseComposite(d)) && Walked(ParseComposite(d)) == ps <==>
            |ps| <= 65535 && (forall i :: 0 <= i < |ps| ==> Framable(ps[i])) && Pack(ps) <= d
  {
    hide ParseFrames, FromBigEndian, BigEndian, Walked, PackFrames;
    if 2 <= |d| {
      WalkEnds(d, ps);
    }
    if |ps| <= 65535 && (forall i :: 0 <= i < |ps| ==> Framable(ps[i])) && Pack(ps) <= d {
      PackedWalks(d, ps);
    }
  }

  lemma WalkEnds(d: seq<Byte>, ps: seq<seq<Byte>>)
    requires 2 <= |d|
    ensures Complete(ParseComposite(d)) && Walked(ParseComposite(d)) == ps ==>
            |ps| <= 65535 && (forall i :: 0 <= i < |ps| ==> Framable(ps[i])) && Pack(ps) <= d
  {
    hide ParseFrames, FromBigEndian, BigEndian, Complete, Walked, PackFrames;
    Pow256s();
    FromBigEndianBound(d[..2]);
    FromBigEndianBack(d[..2]);
    WalkedFramable(d, 2, FromBigEndian(d[..2]));
    WalkedIsPacked(d, 2, FromBigEndian(d[..2]));
    assert d == d[..2] + d[2..];
  }

  lemma PackedWalks(d: seq<Byte>, ps: seq<seq<Byte>>)
    requires |ps| <= 65535 && (forall i :: 0 <= i < |ps| ==> Framable(ps[i])) && Pack(ps) <= d
    ensures var fs := ParseComposite(d);
      Complete(fs) && Walked(fs) == ps && 2 + FramesSize(fs) == |Pack(ps)|
  {
    hide ParseFrames, FromBigEndian, BigEndian, Complete, Walked, PackFrames;
    Pow256s();
    var back := d[|Pack(ps)|..];
    assert d == BigEndian(|ps|, 2) + (PackFrames(ps) + back);
    assert d[..2] == BigEndian(|ps|, 2);
    BigEndianRoundTrip(|ps|, 2);
    WalkPacked(BigEndian(|ps|, 2), ps, back);
  }

  /** The device walks what the server packed as exactly the packed payloads, byte for byte and in
      order, consuming the whole section, if and only if there are at most 65535 of them and each
      has a header and fewer than 2^32 bytes. */
  lemma PackWalkIff(ps: seq<seq<Byte>>)
    ensures var fs := ParseComposite(Pack(ps));
      (Complete(fs) && Walked(fs) == ps && 2 + FramesSize(fs) == |Pack(ps)|) <==>
      (|ps| <= 65535 && forall i :: 0 <= i < |ps| ==> Framable(ps[i]))
  {
    hide *;
    WalkIff(Pack(ps), ps);
    if |ps| <= 65535 && forall i :: 0 <= i < |ps| ==> Framable(ps[i]) {
      PackedWalks(Pack(ps), ps);
    }
  }
}
