/** Measuring and copying a tree of files. */
module TreeCopy {
  import opened Bytes
  import opened Errno
  import opened TreeFs

  const COPY_BUFFER_SIZE := 1024 * 1024
  const UINT64_MAX := 0xFFFF_FFFF_FFFF_FFFF
  const SIZE_MAX := 0xFFFF_FFFF_FFFF_FFFF

  ghost predicate NoSpecial(fs: Fs, p: Path) {
    forall q :: q in fs && p <= q ==> !fs[q].Special?
  }

  lemma UnderChild(fs: Fs, p: Path, name: string)
    requires p in fs
    ensures Under(fs, p + [name]) < Under(fs, p) && |Under(fs, p + [name])| < |Under(fs, p)|
  {
    forall q | q in Under(fs, p + [name])
      ensures q in Under(fs, p) - {p}
    {
      BelowChild(p, name, q);
    }
    SmallerSet(Under(fs, p + [name]), Under(fs, p) - {p});
    assert p in Under(fs, p);
  }

  lemma {:induction false} SmallerSet(a: set<Path>, b: set<Path>)
    requires a <= b
    ensures |a| <= |b|
  {
    if a != {} {
      var p :| p in a;
      SmallerSet(a - {p}, b - {p});
    }
  }

  lemma LeafTreeOk(fs: Fs, src: Path, dst: Path)
    requires Rooted(fs) && src in fs && !fs[src].Dir?
    ensures TreeOk(fs, src, dst, src) <==> NodeOk(fs, src, dst)
    ensures NoSpecial(fs, src) <==> !fs[src].Special?
  {
    SizeOfLeaf(fs, src);
    assert Source(dst, src, src) == dst;
    assert forall p :: p in fs && src <= p ==> p in Under(fs, src);
  }

  lemma LeafOverlay(fs: Fs, src: Path, dst: Path)
    requires Rooted(fs) && src in fs && !fs[src].Dir?
    ensures IsOverlay(fs, fs[dst := Landed(fs, src, dst)], src, dst)
  {
    SizeOfLeaf(fs, src);
    var fs' := fs[dst := Landed(fs, src, dst)];
    forall p
      ensures OverlayAt(fs, fs', src, dst, p)
    {
      if dst <= p && Source(src, dst, p) in fs {
        assert Source(src, dst, p) in Under(fs, src);
        assert p == dst + p[|dst|..];
      }
      if p == dst {
        assert Source(src, dst, p) == src;
      }
    }
  }

  lemma RootedUpdate(fs: Fs, p: Path, n: Node)
    requires Rooted(fs) && p != [] && InDir(fs, p) && (p in fs ==> !fs[p].Dir?)
    ensures Rooted(fs[p := n])
  {
    var fs' := fs[p := n];
    forall q | q in fs' && q != []
      ensures InDir(fs', q)
    {
      assert InDir(fs, q);
    }
  }

  /** What a node is after more bytes have been written to it. */
  function Written(n: Node, bytes: seq<Byte>): Node {
    if n.File? then File(n.content + bytes) else n
  }

  lemma WrittenNothing(fs: Fs, p: Path)
    requires p in fs
    ensures fs[p := Written(fs[p], [])] == fs
  {
    assert fs[p].File? ==> fs[p].content + [] == fs[p].content;
  }

  lemma WrittenMore(n: Node, a: seq<Byte>, b: seq<Byte>)
    ensures Written(Written(n, a), b) == Written(n, a + b)
  {
    assert n.File? ==> n.content + a + b == n.content + (a + b);
  }

  class Copier {
    var nodes: Fs
    var done: nat         // uint64_t
    ghost var copied: nat // the same without wrap-around
    var total: nat

    constructor (nodes: Fs)
      ensures this.nodes == nodes && done == copied == total == 0
    {
      this.nodes, done, copied, total := nodes, 0, 0, 0;
    }

    /** `read` on a regular file: at most a buffer, perhaps less, and nothing only at the end. */
    method ReadSome(src: Path, pos: nat) returns (chunk: seq<Byte>)
      requires src in nodes && nodes[src].File? && pos <= |nodes[src].content|
      ensures pos + |chunk| <= |nodes[src].content| && chunk == nodes[src].content[pos..pos + |chunk|]
      ensures chunk == [] <==> pos == |nodes[src].content|
    {
      var left := |nodes[src].content| - pos;
      if left == 0 {
        return [];
      }
      var n: nat :| 0 < n <= left && n <= COPY_BUFFER_SIZE;
      chunk := nodes[src].content[pos..pos + n];
    }

    /** `chatgpt_write_all` at the end of what has been opened: every `write` takes some of the rest. */
    method WriteAll(dst: Path, buf: seq<Byte>)
      requires dst in nodes && (nodes[dst].File? || Swallows(nodes[dst]))
      modifies this`nodes
      ensures nodes == old(nodes)[dst := Written(old(nodes)[dst], buf)]
    {
      ghost var start := nodes[dst];
      var p := 0;
      assert buf[..0] == [];
      assert start.File? ==> start.content + [] == start.content;
      while p != |buf|
        invariant 0 <= p <= |buf|
        invariant nodes == old(nodes)[dst := Written(start, buf[..p])]
      {
        var n: nat :| 0 < n <= |buf| - p;
        nodes := nodes[dst := Written(nodes[dst], buf[p..p + n])];
        assert buf[..p] + buf[p..p + n] == buf[..p + n];
        assert start.File? ==> start.content + buf[..p] + buf[p..p + n] == start.content + buf[..p + n];
        p := p + n;
      }
      assert buf[..|buf|] == buf;
    }

    /** The counter as C keeps it. */
    ghost predicate Counted()
      reads `done, `copied
    {
      done == copied % (UINT64_MAX + 1)
    }

    /** `open` for writing, with O_CREAT, O_TRUNC and O_NOFOLLOW: a link in the way is removed first. A
        special node may open; then it stays what it is. */
    method OpenForWriting(dst: Path) returns (err: int)
      requires Rooted(nodes) && dst != []
      modifies this`nodes
      ensures err == 0 <==> InDir(old(nodes), dst) &&
                            (dst in old(nodes) ==> !old(nodes)[dst].Dir? &&
                                                   (old(nodes)[dst].Special? ==> Swallows(old(nodes)[dst])))
      ensures nodes == if err == 0 && !(dst in old(nodes) && old(nodes)[dst].Special?)
                       then old(nodes)[dst := File([])] else old(nodes)
      ensures err != ENOTSUP
    {
      if dst in nodes && nodes[dst].Link? {
        nodes := nodes - {dst};
      }
      if dst in nodes {
        if nodes[dst].Dir? {
          return EISDIR;
        }
        if nodes[dst].Special? {
          return if Swallows(nodes[dst]) then 0 else ENXIO;
        }
      } else if !InDir(nodes, dst) {
        return ENOENT;
      }
      nodes := nodes[dst := File([])];
      err := 0;
    }

    /** `progress->done += nread`. */
    method Count(n: nat)
      requires Counted()
      modifies this`done, this`copied
      ensures Counted() && copied == old(copied) + n
    {
      done := (done + n) % (UINT64_MAX + 1);
      copied := copied + n;
    }

    /** The copy loop: reads until the end of the file, in whatever pieces. */
    method CopyContent(src: Path, dst: Path)
      requires src in nodes && nodes[src].File? && src != dst && dst in nodes && Counted()
      requires nodes[dst] == File([]) || Swallows(nodes[dst])
      modifies this`nodes, this`done, this`copied
      ensures nodes == old(nodes)[dst := if old(nodes)[dst].File? then old(nodes)[src] else old(nodes)[dst]]
      ensures Counted() && copied == old(copied) + |old(nodes)[src].content|
    {
      hide Counted;
      ghost var start, content := nodes, nodes[src].content;
      var pos := 0;
      WrittenNothing(start, dst);
      assert content[..0] == [];
      while true
        invariant src in nodes && nodes[src] == File(content) && pos <= |content|
        invariant nodes == start[dst := Written(start[dst], content[..pos])]
        invariant copied == old(copied) + pos && Counted()
        decreases |content| - pos
      {
        var chunk := ReadSome(src, pos);
        if chunk == [] {
          break;
        }
        WriteAll(dst, chunk);
        assert content[..pos] + chunk == content[..pos + |chunk|];
        WrittenMore(start[dst], content[..pos], chunk);
        Count(|chunk|);
        pos := pos + |chunk|;
      }
      assert content[..|content|] == content;
      assert [] + content == content;
    }

    /** `copy_regular_file`. */
    method CopyRegularFile(src: Path, dst: Path) returns (err: int)
      requires Rooted(nodes) && src in nodes && nodes[src].File? && src != dst && dst != [] && Counted()
      modifies this`nodes, this`done, this`copied
      ensures Counted() && err != ENOTSUP
      ensures err == 0 <==> InDir(old(nodes), dst) && NodeOk(old(nodes), src, dst)
      ensures nodes == if err == 0 then old(nodes)[dst := Landed(old(nodes), src, dst)] else old(nodes)
      ensures copied == old(copied) + if err == 0 then SizeOf(old(nodes)[src]) else 0
    {
      err := OpenForWriting(dst);
      if err == 0 {
        CopyContent(src, dst);
      }
    }

    /** The loop of `copy_symlink` around `readlink`, for any size that `lstat` may have reported: the
        buffer doubles until the whole target fits. */
    method ReadTarget(target: seq<Byte>, statSize: nat) returns (err: int, text: seq<Byte>)
      requires statSize < SIZE_MAX
      ensures |target| <= SIZE_MAX / 2 ==> err == 0
      ensures err == 0 ==> text == target
      ensures err == 0 || err == EOVERFLOW
    {
      var size := if statSize > 0 then statSize + 1 else 256;
      while true
        invariant 0 < size <= SIZE_MAX
        decreases SIZE_MAX - size
      {
        var n := Min(|target|, size);
        text := target[..n];
        if n < size {
          return 0, text;
        }
        if size > SIZE_MAX / 2 {
          return EOVERFLOW, [];
        }
        size := size * 2;
      }
    }

    /** `copy_symlink`. */
    method CopySymlink(src: Path, dst: Path, statSize: nat) returns (err: int)
      requires Rooted(nodes) && src in nodes && nodes[src].Link? && src != dst && dst != []
      requires statSize < SIZE_MAX && |nodes[src].target| <= SIZE_MAX / 2
      modifies this`nodes
      ensures err == 0 <==> InDir(old(nodes), dst) && NodeOk(old(nodes), src, dst)
      ensures nodes == if err == 0 then old(nodes)[dst := old(nodes)[src]] else old(nodes)
      ensures err != ENOTSUP
    {
      var target;
      err, target := ReadTarget(nodes[src].target, statSize);
      if dst in nodes {
        if nodes[dst].Dir? {
          return EISDIR;
        }
        nodes := nodes - {dst};
      }
      if !InDir(nodes, dst) {
        return ENOENT;
      }
      nodes := nodes[dst := Link(target)];
    }

    /** `measure_tree`. */
    method MeasureTree(path: Path, start: nat) returns (err: int, sum: nat)
      requires Rooted(nodes) && start <= UINT64_MAX
      ensures err == 0 <==> path in nodes && NoSpecial(nodes, path) && start + TreeSize(nodes, path) <= UINT64_MAX
      ensures err == 0 ==> sum == start + TreeSize(nodes, path)
      decreases |Under(nodes, path)|, 1
    {
      hide TreeSize, NoSpecial;
      sum := start;
      if path !in nodes {
        return ENOENT, sum;
      }
      if nodes[path].Dir? {
        err, sum := MeasureEntries(path, start);
        return;
      }
      SizeOfLeaf(nodes, path);
      LeafTreeOk(nodes, path, path);
      if nodes[path].File? {
        var size := |nodes[path].content|;
        if UINT64_MAX - sum < size {
          return EOVERFLOW, sum;
        }
        return 0, sum + size;
      }
      err := if nodes[path].Link? then 0 else ENOTSUP;
    }

    /** The loop of `measure_tree` over the entries of a directory, which come in any order. */
    method MeasureEntries(path: Path, start: nat) returns (err: int, sum: nat)
      requires Rooted(nodes) && start <= UINT64_MAX && path in nodes && nodes[path].Dir?
      ensures err == 0 <==> NoSpecial(nodes, path) && start + TreeSize(nodes, path) <= UINT64_MAX
      ensures err == 0 ==> sum == start + TreeSize(nodes, path)
      decreases |Under(nodes, path)|, 0
    {
      hide TreeSize, NoSpecial, NoSpecialBut, SumThrough, Rooted, Under;
      sum := start;
      ThroughAll(nodes, path);
      var remaining := Children(nodes, path);
      AllThrough(nodes, path);
      while remaining != {}
        invariant remaining <= Children(nodes, path) && sum <= UINT64_MAX
        invariant sum + SumThrough(nodes, path, remaining) == start + TreeSize(nodes, path)
        invariant NoSpecialBut(nodes, path, remaining)
      {
        var name :| name in remaining;
        ChildExists(nodes, path, name);
        UnderChild(nodes, path, name);
        ThroughOne(nodes, path, remaining, name);
        NoSpecialSplit(nodes, path, remaining, name);
        var e, more := MeasureTree(path + [name], sum);
        if e != 0 {
          return e, sum;
        }
        sum := more;
        remaining := remaining - {name};
      }
      NothingThrough(nodes, path);
      err := 0;
    }

    /** `mkdir`, which may find a directory in place. */
    method MakeDir(dst: Path) returns (err: int)
      requires Rooted(nodes) && dst != []
      modifies this`nodes
      ensures err == 0 <==> InDir(old(nodes), dst) && (dst in old(nodes) ==> old(nodes)[dst].Dir?)
      ensures nodes == if err == 0 then old(nodes)[dst := Dir] else old(nodes)
      ensures err != ENOTSUP
    {
      if dst in nodes {
        return if nodes[dst].Dir? then 0 else ENOTDIR;
      }
      if !InDir(nodes, dst) {
        return ENOENT;
      }
      nodes := nodes[dst := Dir];
      err := 0;
    }

    /** `copy_tree`, without I/O faults. It succeeds exactly when the trees are compatible, and then
        the destination is overlaid with the source. Even when it fails, no path outside the
        destination changes. It counts the bytes of the source, and never more. */
    method CopyTree(src: Path, dst: Path) returns (err: int)
      requires Rooted(nodes) && Disjoint(src, dst) && dst != [] && Counted()
      modifies this`nodes, this`done, this`copied
      ensures Rooted(nodes) && Counted() && KeepsRest(old(nodes), nodes, dst)
      ensures err == 0 <==> Compatible(old(nodes), src, dst)
      ensures err == 0 ==> IsOverlay(old(nodes), nodes, src, dst)
      ensures old(copied) <= copied <= old(copied) + TreeSize(old(nodes), src)
      ensures err == 0 ==> copied == old(copied) + TreeSize(old(nodes), src)
      ensures err == ENOTSUP ==> !NoSpecial(old(nodes), src)
      decreases |Under(nodes, src)|, 2
    {
      hide TreeSize, NoSpecial, Counted, IsOverlay, KeepsRest, TreeOk, Disjoint, Under, NodeOk, Rooted;
      if src !in nodes {
        KeepsAll(nodes, dst);
        return ENOENT;
      }
      if nodes[src].Dir? {
        err := CopyDirectory(src, dst);
      } else {
        err := CopyLeaf(src, dst);
      }
    }

    method CopyLeaf(src: Path, dst: Path) returns (err: int)
      requires Rooted(nodes) && Disjoint(src, dst) && dst != [] && Counted() && src in nodes && !nodes[src].Dir?
      modifies this`nodes, this`done, this`copied
      ensures Rooted(nodes) && Counted() && KeepsRest(old(nodes), nodes, dst)
      ensures err == 0 <==> Compatible(old(nodes), src, dst)
      ensures err == 0 ==> IsOverlay(old(nodes), nodes, src, dst)
      ensures old(copied) <= copied <= old(copied) + TreeSize(old(nodes), src)
      ensures err == 0 ==> copied == old(copied) + TreeSize(old(nodes), src)
      ensures err == ENOTSUP ==> !NoSpecial(old(nodes), src)
    {
      hide TreeSize, NoSpecial, Counted, IsOverlay, KeepsRest, TreeOk, Disjoint, Under, Rooted;
      ghost var f := nodes;
      KeepsAll(f, dst);
      DisjointPaths(src, dst, dst);
      SizeOfLeaf(f, src);
      LeafTreeOk(f, src, dst);
      if nodes[src].File? {
        err := CopyRegularFile(src, dst);
      } else if nodes[src].Link? {
        var statSize: nat :| statSize < SIZE_MAX;
        err := CopySymlink(src, dst, statSize);
      } else {
        err := ENOTSUP;
      }
      if err == 0 {
        LeafDone(f, src, dst);
      }
    }

    method CopyDirectory(src: Path, dst: Path) returns (err: int)
      requires Rooted(nodes) && Disjoint(src, dst) && dst != [] && Counted() && src in nodes && nodes[src].Dir?
      modifies this`nodes, this`done, this`copied
      ensures Rooted(nodes) && Counted() && KeepsRest(old(nodes), nodes, dst)
      ensures err == 0 <==> Compatible(old(nodes), src, dst)
      ensures err == 0 ==> IsOverlay(old(nodes), nodes, src, dst)
      ensures old(copied) <= copied <= old(copied) + TreeSize(old(nodes), src)
      ensures err == 0 ==> copied == old(copied) + TreeSize(old(nodes), src)
      ensures err == ENOTSUP ==> !NoSpecial(old(nodes), src)
      decreases |Under(nodes, src)|, 1
    {
      hide TreeSize, NoSpecial, Counted, IsOverlay, KeepsRest, TreeOk, Disjoint, Under, Rooted, Children;
      ghost var f := nodes;
      KeepsAll(f, dst);
      DisjointPaths(src, dst, dst);
      TreeOkSplit(f, src, dst);
      err := MakeDir(dst);
      if err != 0 {
        return;
      }
      MadeDir(f, src, dst);
      err := CopyEntries(src, dst);
      KeepsAfterMkdir(f, nodes, dst);
      if err == 0 {
        OverlayAfterMkdir(f, nodes, src, dst);
      }
    }

    /** The loop of `copy_tree` over the entries of a directory, which come in any order. */
    method CopyEntries(src: Path, dst: Path) returns (err: int)
      requires Rooted(nodes) && Disjoint(src, dst) && dst != [] && Counted()
      requires src in nodes && nodes[src].Dir? && dst in nodes && nodes[dst].Dir?
      modifies this`nodes, this`done, this`copied
      ensures Rooted(nodes) && Counted() && KeepsRest(old(nodes), nodes, dst)
      ensures err == 0 <==> ChildrenOk(old(nodes), src, dst, {})
      ensures err == 0 ==> IsOverlay(old(nodes), nodes, src, dst)
      ensures old(copied) <= copied <= old(copied) + TreeSize(old(nodes), src)
      ensures err == 0 ==> copied == old(copied) + TreeSize(old(nodes), src)
      ensures err == ENOTSUP ==> !NoSpecial(old(nodes), src)
      decreases |Under(nodes, src)|, 0
    {
      hide TreeSize, NoSpecial, Counted, IsOverlay, IsPartial, KeepsRest, Compatible, Disjoint, Under, Rooted,
           Children, SumThrough, ChildrenOk;
      ghost var f := nodes;
      PartialStart(f, src, dst);
      ThroughAll(f, src);
      var remaining := Children(nodes, src);
      NoneDone(f, src, dst);
      while remaining != {}
        invariant Rooted(nodes) && Counted() && remaining <= Children(f, src)
        invariant IsPartial(f, nodes, src, dst, remaining) && ChildrenOk(f, src, dst, remaining)
        invariant old(copied) <= copied && copied + SumThrough(f, src, remaining) == old(copied) + TreeSize(f, src)
      {
        var name :| name in remaining;
        ghost var mid := nodes;
        BeforeChild(f, mid, src, dst, remaining, name);
        err := CopyTree(src + [name], dst + [name]);
        PartialKeepsRest(f, mid, nodes, src, dst, remaining, name);
        ChildDone(f, src, dst, remaining, name);
        if err != 0 {
          return;
        }
        PartialStep(f, mid, nodes, src, dst, remaining, name);
        remaining := remaining - {name};
      }
      PartialEnd(f, nodes, src, dst);
      OverlayKeepsRest(f, nodes, src, dst);
      NothingThrough(f, src);
      err := 0;
    }

    /** The middle of `child_main`: measure, then copy. After a successful measurement the byte count
        never exceeds the total, equals it when the copy succeeds, and wraps nowhere; and the copy
        does not run into anything that is not supported. */
    method MeasureAndCopy(src: Path, dst: Path) returns (measured: bool, err: int)
      requires Rooted(nodes) && Disjoint(src, dst) && dst != [] && done == copied == 0
      modifies this
      ensures measured <==> src in old(nodes) && NoSpecial(old(nodes), src) && TreeSize(old(nodes), src) <= UINT64_MAX
      ensures !measured ==> nodes == old(nodes)
      ensures measured ==> done == copied <= total == TreeSize(old(nodes), src) && err != ENOTSUP
      ensures measured ==> (err == 0 <==> Compatible(old(nodes), src, dst))
      ensures measured && err == 0 ==> done == total && IsOverlay(old(nodes), nodes, src, dst)
    {
      hide TreeSize, NoSpecial, IsOverlay, KeepsRest, Compatible, Disjoint, Rooted;
      var sum;
      err, sum := MeasureTree(src, 0);
      measured := err == 0;
      if !measured {
        return;
      }
      total := sum;
      err := CopyTree(src, dst);
      assert done == copied % (UINT64_MAX + 1);
    }
  }

  /** After a copy the source is as it was, every source path has left its mark under the destination,
      and copying once more changes nothing. */
  lemma CopyTwice(before: Fs, once: Fs, twice: Fs, src: Path, dst: Path, p: Path)
    requires Disjoint(src, dst) && IsOverlay(before, once, src, dst) && IsOverlay(once, twice, src, dst)
    ensures src <= p && p in before ==>
      var d := Source(dst, src, p);
      p in once && once[p] == before[p] && d in once && once[d] == Landed(before, p, d)
    ensures SameAt(once, twice, p)
  {
    if src <= p {
      var d := Source(dst, src, p);
      DisjointPaths(src, dst, p);
      assert Source(src, dst, d) == p;
      assert OverlayAt(before, once, src, dst, p) && OverlayAt(before, once, src, dst, d);
    }
    assert OverlayAt(once, twice, src, dst, p) && OverlayAt(before, once, src, dst, p);
    if dst <= p {
      var s := Source(src, dst, p);
      DisjointPaths(src, dst, s);
      assert OverlayAt(before, once, src, dst, s);
    }
  }

  // ----- files written into special nodes -----

  /** Every source path has its equal under the destination. */
  ghost predicate IsCopy(before: Fs, after: Fs, src: Path, dst: Path) {
    forall p :: p in before && src <= p ==> CopiedAt(before, after, src, dst, p)
  }

  ghost predicate CopiedAt(before: Fs, after: Fs, src: Path, dst: Path, p: Path)
    requires p in before && src <= p
  {
    Source(dst, src, p) in after && after[Source(dst, src, p)] == before[p]
  }

  /** Some file of the source meets a special node. */
  ghost predicate FileMeetsSpecial(fs: Fs, src: Path, dst: Path) {
    exists p :: p in fs && src <= p && MeetsSpecial(fs, p, Source(dst, src, p))
  }

  predicate MeetsSpecial(fs: Fs, s: Path, d: Path)
    requires s in fs
  {
    fs[s].File? && d in fs && fs[d].Special?
  }

  /** A successful copy is a true copy exactly when no file of the source meets a FIFO or a device:
      writing into one succeeds, and leaves it in place of the file. */
  lemma CopyIff(before: Fs, after: Fs, src: Path, dst: Path)
    requires IsOverlay(before, after, src, dst)
    ensures IsCopy(before, after, src, dst) <==> !FileMeetsSpecial(before, src, dst)
  {
    forall p | p in before && src <= p
      ensures CopiedAt(before, after, src, dst, p) <==> !MeetsSpecial(before, p, Source(dst, src, p))
    {
      var d := Source(dst, src, p);
      assert Source(src, dst, d) == p;
      assert OverlayAt(before, after, src, dst, d);
    }
  }

  /** The smallest case: a file copied to a device that takes it. The copy succeeds, and the device is
      still there. */
  lemma DeviceStays(content: seq<Byte>, after: Fs)
    requires var fs := DeviceFs(content); IsOverlay(fs, after, ["file"], ["device"])
    ensures var fs := DeviceFs(content);
      && Rooted(fs) && Disjoint(["file"], ["device"]) && Compatible(fs, ["file"], ["device"])
      && !IsCopy(fs, after, ["file"], ["device"])
  {
    var fs, src, dst := DeviceFs(content), ["file"], ["device"];
    assert src[0] != dst[0];
    assert src[..0] == [] && dst[..0] == [];
    assert Source(dst, src, src) == dst;
    assert MeetsSpecial(fs, src, Source(dst, src, src));
    assert forall p :: p in fs && src <= p ==> p == src;
    CopyIff(fs, after, src, dst);
  }

  function DeviceFs(content: seq<Byte>): Fs {
    map[[] := Dir, ["file"] := File(content), ["device"] := Special(Device, true)]
  }

  lemma KeepsAll(fs: Fs, dst: Path)
    ensures KeepsRest(fs, fs, dst)
  {
  }

  lemma LeafDone(fs: Fs, src: Path, dst: Path)
    requires Rooted(fs) && src in fs && !fs[src].Dir? && dst != [] && Compatible(fs, src, dst)
    ensures var now := fs[dst := Landed(fs, src, dst)];
      Rooted(now) && IsOverlay(fs, now, src, dst) && KeepsRest(fs, now, dst)
  {
    hide Landed;
    LeafOverlay(fs, src, dst);
    OverlayKeepsRest(fs, fs[dst := Landed(fs, src, dst)], src, dst);
    LeafTreeOk(fs, src, dst);
    RootedUpdate(fs, dst, Landed(fs, src, dst));
  }

  lemma MadeDir(fs: Fs, src: Path, dst: Path)
    requires Rooted(fs) && Disjoint(src, dst) && src in fs && fs[src].Dir? && dst != []
    requires InDir(fs, dst) && (dst in fs ==> fs[dst].Dir?)
    ensures var made := fs[dst := Dir];
      && Rooted(made) && src in made && made[src].Dir?
      && TreeSize(made, src) == TreeSize(fs, src) && Under(made, src) == Under(fs, src)
      && (ChildrenOk(made, src, dst, {}) <==> Compatible(fs, src, dst))
      && (NoSpecial(fs, src) ==> NoSpecial(made, src))
  {
    hide TreeSize, Under, Children, TreeOk, Rooted;
    if dst in fs {
      assert fs[dst := Dir] == fs;
    } else {
      RootedUpdate(fs, dst, Dir);
    }
    DisjointPaths(src, dst, src);
    AfterMkdir(fs, src, dst);
    TreeOkSplit(fs, src, dst);
  }

  lemma KeepsAfterMkdir(fs: Fs, now: Fs, dst: Path)
    requires KeepsRest(fs[dst := Dir], now, dst)
    ensures KeepsRest(fs, now, dst)
  {
    var made := fs[dst := Dir];
    forall p | !(dst <= p)
      ensures SameAt(fs, now, p)
    {
      assert SameAt(made, now, p);
    }
  }

  lemma BeforeChild(f: Fs, mid: Fs, src: Path, dst: Path, remaining: set<string>, name: string)
    requires IsPartial(f, mid, src, dst, remaining) && Disjoint(src, dst) && name in remaining
    requires name in Children(f, src) && src in f && f[src].Dir?
    ensures Disjoint(src + [name], dst + [name])
    ensures Compatible(mid, src + [name], dst + [name]) <==> TreeOk(f, src, dst, src + [name])
    ensures TreeSize(mid, src + [name]) == TreeSize(f, src + [name])
    ensures |Under(mid, src + [name])| < |Under(f, src)|
    ensures SumThrough(f, src, remaining) == TreeSize(f, src + [name]) + SumThrough(f, src, remaining - {name})
    ensures NoSpecial(f, src) ==> NoSpecial(mid, src + [name])
  {
    hide TreeSize, Under, IsPartial, Disjoint, Children, SumThrough, TreeOk, Compatible, NoSpecial;
    ChildExists(f, src, name);
    DisjointChildren(src, dst, name);
    PartialRoot(f, mid, src, dst, remaining);
    ChildCompatible(f, mid, src, dst, remaining, name);
    ExtendsPrefix(src, name);
    SizeDuring(f, mid, src, dst, remaining, src + [name]);
    UnderChild(f, src, name);
    ThroughOne(f, src, remaining, name);
    NoSpecialSplit(f, src, remaining, name);
    NoSpecialDuring(f, mid, src, dst, remaining, src + [name]);
  }

  lemma ExtendsPrefix(p: Path, name: string)
    ensures p <= p + [name]
  {
  }

  /** The destination is a directory from the start of the copy on. */
  lemma PartialRoot(f: Fs, mid: Fs, src: Path, dst: Path, remaining: set<string>)
    requires IsPartial(f, mid, src, dst, remaining) && src in f && f[src].Dir?
    ensures dst in mid && mid[dst] == f[src]
  {
    assert PartialAt(f, mid, src, dst, remaining, dst);
    assert Source(src, dst, dst) == src;
  }

  lemma NoSpecialDuring(f: Fs, mid: Fs, src: Path, dst: Path, remaining: set<string>, at: Path)
    requires IsPartial(f, mid, src, dst, remaining) && Disjoint(src, dst) && src <= at
    ensures NoSpecial(f, at) ==> NoSpecial(mid, at)
  {
    forall p | p in mid && at <= p
      ensures p in f && f[p] == mid[p]
    {
      PartialSource(f, mid, src, dst, remaining, p);
    }
  }

  lemma ChildDone(f: Fs, src: Path, dst: Path, remaining: set<string>, name: string)
    requires name in Children(f, src) && ChildrenOk(f, src, dst, remaining)
    ensures TreeOk(f, src, dst, src + [name]) ==> ChildrenOk(f, src, dst, remaining - {name})
    ensures !TreeOk(f, src, dst, src + [name]) ==> !ChildrenOk(f, src, dst, {})
  {
    hide TreeOk, Children;
  }

  lemma NoneDone(f: Fs, src: Path, dst: Path)
    ensures ChildrenOk(f, src, dst, Children(f, src))
  {
  }

  /** Nothing special in a tree, except perhaps through the children named in `remaining`. */
  ghost predicate NoSpecialBut(fs: Fs, p: Path, remaining: set<string>) {
    forall q :: q in fs && p <= q && !(|q| > |p| && q[|p|] in remaining) ==> !fs[q].Special?
  }

  lemma NoSpecialSplit(fs: Fs, p: Path, remaining: set<string>, name: string)
    requires name in remaining
    ensures NoSpecial(fs, p) ==> NoSpecial(fs, p + [name])
    ensures NoSpecialBut(fs, p, remaining) && NoSpecial(fs, p + [name]) ==> NoSpecialBut(fs, p, remaining - {name})
  {
    forall q
      ensures p + [name] <= q <==> p <= q && |p| < |q| && q[|p|] == name
    {
      BelowChild(p, name, q);
    }
  }

  lemma AllThrough(fs: Fs, p: Path)
    requires Rooted(fs) && p in fs && fs[p].Dir?
    ensures NoSpecialBut(fs, p, Children(fs, p))
  {
    forall q | q in fs && p <= q && q != p
      ensures |q| > |p| && q[|p|] in Children(fs, p)
    {
      ThroughChild(fs, p, q);
    }
  }

  lemma NothingThrough(fs: Fs, p: Path)
    ensures SumThrough(fs, p, {}) == 0
    ensures NoSpecialBut(fs, p, {}) ==> NoSpecial(fs, p)
  {
    assert Through(fs, p, {}) == {};
  }
}
