/** File trees as maps from paths to nodes, and what it means to copy one tree over another. */
module TreeFs {
  import opened Bytes

  type Path = seq<string>

  /** The target of a symbolic link: no longer than a size can count twice over. */
  type Target = t: seq<Byte> | |t| <= 0x7FFF_FFFF_FFFF_FFFF witness []

  datatype Kind = Socket | Fifo | Device

  /** Anything but files, links and directories is special. `takes` says whether a FIFO or a device
      opens for writing and takes whatever is written; what becomes of it is not modelled. */
  datatype Node = File(content: seq<Byte>) | Link(target: Target) | Dir | Special(kind: Kind, takes: bool)

  /** Whether opening the node for writing succeeds and leaves it what it is. */
  predicate Swallows(n: Node) {
    n.Special? && n.kind != Socket && n.takes
  }

  type Fs = map<Path, Node>

  /** Every path but the root lies in a directory. */
  ghost predicate Rooted(fs: Fs) {
    forall p :: p in fs && p != [] ==> InDir(fs, p)
  }

  predicate InDir(fs: Fs, p: Path)
    requires p != []
  {
    p[..|p| - 1] in fs && fs[p[..|p| - 1]].Dir?
  }

  /** Neither path leads to the other: they part at some component. */
  ghost predicate Disjoint(a: Path, b: Path) {
    exists k :: 0 <= k < |a| && k < |b| && a[k] != b[k]
  }

  /** The path under `src` that corresponds to `p` under `dst`. */
  function Source(src: Path, dst: Path, p: Path): Path
    requires dst <= p
  {
    src + p[|dst|..]
  }

  ghost predicate SameAt(a: Fs, b: Fs, p: Path) {
    (p in a <==> p in b) && (p in a ==> a[p] == b[p])
  }

  /** What a copy of the node at `s` leaves at `d`: an equal node, except that a file written into a
      special node leaves that node. */
  function Landed(before: Fs, s: Path, d: Path): Node
    requires s in before
  {
    if before[s].File? && d in before && before[d].Special? then before[d] else before[s]
  }

  /** At `p`, `after` is `before` with the tree at `src` laid over `dst`: a path that has a
      counterpart under `src` holds what landed there, every other path what it held before. */
  ghost predicate OverlayAt(before: Fs, after: Fs, src: Path, dst: Path, p: Path) {
    if dst <= p && Source(src, dst, p) in before
    then p in after && after[p] == Landed(before, Source(src, dst, p), p)
    else SameAt(before, after, p)
  }

  ghost predicate IsOverlay(before: Fs, after: Fs, src: Path, dst: Path) {
    forall p :: OverlayAt(before, after, src, dst, p)
  }

  /** Whether the node at `s` can be copied to `d`. */
  ghost predicate NodeOk(fs: Fs, s: Path, d: Path)
    requires s in fs
  {
    && !fs[s].Special?
    && (d in fs ==> (fs[s].Dir? <==> fs[d].Dir?))
    && (d in fs && fs[s].File? && fs[d].Special? ==> Swallows(fs[d]))
  }

  /** Whether every node from `at` down can be copied to its counterpart. */
  ghost predicate TreeOk(fs: Fs, src: Path, dst: Path, at: Path)
    requires src <= at
  {
    forall p :: p in fs && at <= p ==> NodeOk(fs, p, Source(dst, src, p))
  }

  /** The source exists and has nothing special, the destination has a directory to be in, no path
      pairs a directory with something else, and no file meets a special node that cannot take it. */
  ghost predicate Compatible(fs: Fs, src: Path, dst: Path)
    requires dst != []
  {
    src in fs && InDir(fs, dst) && TreeOk(fs, src, dst, src)
  }

  // ----- ancestors and children -----

  lemma {:induction false} AncestorsExist(fs: Fs, p: Path, k: nat)
    requires Rooted(fs) && p in fs && k <= |p|
    ensures p[..k] in fs && (k < |p| ==> fs[p[..k]].Dir?)
    decreases |p| - k
  {
    if k == |p| {
      assert p[..k] == p;
    } else {
      AncestorsExist(fs, p, k + 1);
      assert p[..k + 1][..k] == p[..k];
      assert InDir(fs, p[..k + 1]);
    }
  }

  /** The names in a directory. */
  function Children(fs: Fs, p: Path): set<string> {
    set q | q in fs && |q| == |p| + 1 && p <= q :: q[|p|]
  }

  lemma ChildExists(fs: Fs, p: Path, name: string)
    ensures name in Children(fs, p) <==> p + [name] in fs
  {
    if p + [name] in fs {
      assert (p + [name])[|p|] == name;
    }
    if name in Children(fs, p) {
      var q :| q in fs && |q| == |p| + 1 && p <= q && q[|p|] == name;
      assert q == p + [name];
    }
  }

  /** Below a directory, every path goes through one of its children. */
  lemma ThroughChild(fs: Fs, p: Path, q: Path)
    requires Rooted(fs) && q in fs && p <= q && p != q
    ensures |p| < |q| && q[|p|] in Children(fs, p) && p + [q[|p|]] <= q && p in fs && fs[p].Dir?
  {
    assert |p| < |q|;
    AncestorsExist(fs, q, |p| + 1);
    AncestorsExist(fs, q, |p|);
    assert q[..|p|] == p;
    assert q[..|p| + 1] == p + [q[|p|]];
    ChildExists(fs, p, q[|p|]);
  }

  lemma BelowChild(p: Path, name: string, q: Path)
    ensures p + [name] <= q <==> p <= q && |p| < |q| && q[|p|] == name
  {
    if p <= q && |p| < |q| && q[|p|] == name {
      assert q[..|p| + 1] == p + [name];
    }
    if p + [name] <= q {
      assert q[|p|] == (p + [name])[|p|];
    }
  }

  lemma SourceOfChild(src: Path, dst: Path, name: string, p: Path)
    requires dst + [name] <= p
    ensures dst <= p && Source(src + [name], dst + [name], p) == Source(src, dst, p)
  {
    BelowChild(dst, name, p);
    assert p[|dst|..] == [name] + p[|dst| + 1..];
  }

  lemma DisjointChildren(src: Path, dst: Path, name: string)
    requires Disjoint(src, dst)
    ensures Disjoint(src + [name], dst + [name])
  {
    var k :| 0 <= k < |src| && k < |dst| && src[k] != dst[k];
    assert (src + [name])[k] != (dst + [name])[k];
  }

  /** Nothing is both under `src` and under `dst`. */
  lemma DisjointPaths(src: Path, dst: Path, p: Path)
    requires Disjoint(src, dst)
    ensures !(src <= p && dst <= p)
  {
  }

  // ----- sizes -----

  function SizeOf(n: Node): nat {
    if n.File? then |n.content| else 0
  }

  ghost function Sum(fs: Fs, ps: set<Path>): nat
    requires ps <= fs.Keys
  {
    if ps == {} then 0 else
      var p :| p in ps;
      SizeOf(fs[p]) + Sum(fs, ps - {p})
  }

  function Under(fs: Fs, p: Path): set<Path> {
    set q | q in fs && p <= q
  }

  /** The bytes in the files of a tree. */
  ghost function TreeSize(fs: Fs, p: Path): nat {
    Sum(fs, Under(fs, p))
  }

  lemma {:induction false} SumAnyOrder(fs: Fs, ps: set<Path>, p: Path)
    requires ps <= fs.Keys && p in ps
    ensures Sum(fs, ps) == SizeOf(fs[p]) + Sum(fs, ps - {p})
    decreases |ps|
  {
    var q :| q in ps && Sum(fs, ps) == SizeOf(fs[q]) + Sum(fs, ps - {q});
    if q != p {
      SumAnyOrder(fs, ps - {q}, p);
      SumAnyOrder(fs, ps - {p}, q);
      assert ps - {q} - {p} == ps - {p} - {q};
    }
  }

  lemma SumNothing(fs: Fs)
    ensures Sum(fs, {}) == 0
  {
  }

  lemma {:induction false} SumUnion(fs: Fs, a: set<Path>, b: set<Path>)
    requires a <= fs.Keys && b <= fs.Keys && a !! b
    ensures Sum(fs, a + b) == Sum(fs, a) + Sum(fs, b)
    decreases |a|
  {
    hide Sum;
    if a == {} {
      assert a + b == b;
      SumNothing(fs);
    } else {
      var p :| p in a;
      SumUnion(fs, a - {p}, b);
      SumAnyOrder(fs, a, p);
      SumAnyOrder(fs, a + b, p);
      assert a + b - {p} == (a - {p}) + b;
    }
  }

  lemma {:induction false} SumSame(fs: Fs, fs': Fs, ps: set<Path>)
    requires ps <= fs.Keys && ps <= fs'.Keys && forall p :: p in ps ==> fs[p] == fs'[p]
    ensures Sum(fs, ps) == Sum(fs', ps)
    decreases |ps|
  {
    if ps != {} {
      var p :| p in ps;
      SumAnyOrder(fs, ps, p);
      SumAnyOrder(fs', ps, p);
      SumSame(fs, fs', ps - {p});
    }
  }

  /** The paths below `p` that go through one of `names`. */
  function Through(fs: Fs, p: Path, names: set<string>): set<Path> {
    set q | q in fs && p <= q && |p| < |q| && q[|p|] in names
  }

  ghost function SumThrough(fs: Fs, p: Path, names: set<string>): nat {
    Sum(fs, Through(fs, p, names))
  }

  lemma ThroughAll(fs: Fs, p: Path)
    requires Rooted(fs) && p in fs
    ensures TreeSize(fs, p) == SizeOf(fs[p]) + SumThrough(fs, p, Children(fs, p))
  {
    forall q | q in Under(fs, p) && q != p
      ensures q in Through(fs, p, Children(fs, p))
    {
      ThroughChild(fs, p, q);
    }
    assert Under(fs, p) - {p} == Through(fs, p, Children(fs, p));
    SumAnyOrder(fs, Under(fs, p), p);
  }

  lemma ThroughOne(fs: Fs, p: Path, names: set<string>, name: string)
    requires name in names
    ensures SumThrough(fs, p, names) == TreeSize(fs, p + [name]) + SumThrough(fs, p, names - {name})
  {
    forall q
      ensures p + [name] <= q <==> p <= q && |p| < |q| && q[|p|] == name
    {
      BelowChild(p, name, q);
    }
    assert Through(fs, p, names) == Under(fs, p + [name]) + Through(fs, p, names - {name});
    SumUnion(fs, Under(fs, p + [name]), Through(fs, p, names - {name}));
  }

  lemma SizeOfLeaf(fs: Fs, p: Path)
    requires Rooted(fs) && p in fs && !fs[p].Dir?
    ensures Under(fs, p) == {p} && TreeSize(fs, p) == SizeOf(fs[p])
  {
    forall q | q in Under(fs, p)
      ensures q == p
    {
      if q != p {
        ThroughChild(fs, p, q);
      }
    }
    assert Under(fs, p) == {p};
    SumAnyOrder(fs, {p}, p);
    assert {p} - {p} == {};
  }

  // ----- a copy in progress -----

  /** At `p`, the copy is done except below the children named in `remaining`. */
  ghost predicate PartialAt(before: Fs, now: Fs, src: Path, dst: Path, remaining: set<string>, p: Path) {
    if dst <= p && Source(src, dst, p) in before && !(|p| > |dst| && p[|dst|] in remaining)
    then p in now && now[p] == Landed(before, Source(src, dst, p), p)
    else SameAt(before, now, p)
  }

  ghost predicate IsPartial(before: Fs, now: Fs, src: Path, dst: Path, remaining: set<string>) {
    forall p :: PartialAt(before, now, src, dst, remaining, p)
  }

  lemma PartialStart(fs: Fs, src: Path, dst: Path)
    requires Rooted(fs) && src in fs && fs[src].Dir? && dst in fs && fs[dst].Dir?
    ensures IsPartial(fs, fs, src, dst, Children(fs, src))
  {
    forall p
      ensures PartialAt(fs, fs, src, dst, Children(fs, src), p)
    {
      if dst <= p && Source(src, dst, p) in fs {
        var s := Source(src, dst, p);
        if |p| > |dst| {
          assert src <= s && s != src;
          ThroughChild(fs, src, s);
          assert s[|src|] == p[|dst|];
        } else {
          assert p == dst && s == src;
        }
      }
    }
  }

  lemma PartialSource(before: Fs, now: Fs, src: Path, dst: Path, remaining: set<string>, s: Path)
    requires IsPartial(before, now, src, dst, remaining) && Disjoint(src, dst) && src <= s
    ensures SameAt(before, now, s)
  {
    DisjointPaths(src, dst, s);
    assert PartialAt(before, now, src, dst, remaining, s);
  }

  lemma PartialStep(before: Fs, mid: Fs, now: Fs, src: Path, dst: Path, remaining: set<string>, name: string)
    requires IsPartial(before, mid, src, dst, remaining) && name in remaining && Disjoint(src, dst)
    requires IsOverlay(mid, now, src + [name], dst + [name])
    ensures IsPartial(before, now, src, dst, remaining - {name})
  {
    forall p
      ensures PartialAt(before, now, src, dst, remaining - {name}, p)
    {
      PartialStepAt(before, mid, now, src, dst, remaining, name, p);
    }
  }

  lemma PartialStepAt(before: Fs, mid: Fs, now: Fs, src: Path, dst: Path, remaining: set<string>, name: string, p: Path)
    requires IsPartial(before, mid, src, dst, remaining) && name in remaining && Disjoint(src, dst)
    requires IsOverlay(mid, now, src + [name], dst + [name])
    ensures PartialAt(before, now, src, dst, remaining - {name}, p)
  {
    assert PartialAt(before, mid, src, dst, remaining, p);
    assert OverlayAt(mid, now, src + [name], dst + [name], p);
    BelowChild(dst, name, p);
    if dst + [name] <= p {
      SourceOfChild(src, dst, name, p);
      PartialSource(before, mid, src, dst, remaining, Source(src, dst, p));
    }
  }

  lemma PartialEnd(before: Fs, now: Fs, src: Path, dst: Path)
    requires IsPartial(before, now, src, dst, {})
    ensures IsOverlay(before, now, src, dst)
  {
    forall p
      ensures OverlayAt(before, now, src, dst, p)
    {
      assert PartialAt(before, now, src, dst, {}, p);
    }
  }

  /** Whether a child can be copied now is whether it could be copied at the start. */
  lemma ChildCompatible(before: Fs, mid: Fs, src: Path, dst: Path, remaining: set<string>, name: string)
    requires IsPartial(before, mid, src, dst, remaining) && name in remaining && Disjoint(src, dst)
    requires src + [name] in before && dst in mid && mid[dst].Dir?
    ensures Compatible(mid, src + [name], dst + [name]) <==> TreeOk(before, src, dst, src + [name])
  {
    var s, d := src + [name], dst + [name];
    assert d[..|d| - 1] == dst;
    PartialSource(before, mid, src, dst, remaining, s);
    forall p | s <= p
      ensures p in mid <==> p in before
      ensures p in before ==> (NodeOk(mid, p, Source(d, s, p)) <==> NodeOk(before, p, Source(dst, src, p)))
    {
      BelowChild(src, name, p);
      PartialSource(before, mid, src, dst, remaining, p);
      SourceOfChild(dst, src, name, p);
      var q := Source(dst, src, p);
      assert q[|dst|] == name;
      assert PartialAt(before, mid, src, dst, remaining, q);
    }
  }

  /** A directory can be copied when it and all its children can. */
  lemma TreeOkSplit(fs: Fs, src: Path, dst: Path)
    requires Rooted(fs) && src in fs
    ensures TreeOk(fs, src, dst, src) <==>
            NodeOk(fs, src, dst) && forall n :: n in Children(fs, src) ==> TreeOk(fs, src, dst, src + [n])
  {
    assert Source(dst, src, src) == dst;
    forall p | p in fs && src <= p && p != src
      ensures p[|src|] in Children(fs, src) && src + [p[|src|]] <= p
    {
      ThroughChild(fs, src, p);
    }
    forall n | n in Children(fs, src)
      ensures TreeOk(fs, src, dst, src) ==> TreeOk(fs, src, dst, src + [n])
    {
      forall p | p in fs && src + [n] <= p
        ensures src <= p
      {
        BelowChild(src, n, p);
      }
    }
  }

  lemma MkdirUnder(fs: Fs, src: Path, dst: Path)
    requires Disjoint(src, dst)
    ensures Under(fs[dst := Dir], src) == Under(fs, src)
  {
    DisjointPaths(src, dst, dst);
  }

  /** Making the destination directory changes nothing that the rest of the copy depends on. */
  lemma AfterMkdir(fs: Fs, src: Path, dst: Path)
    requires src in fs && Disjoint(src, dst)
    ensures var made := fs[dst := Dir];
      && Children(made, src) == Children(fs, src) && TreeSize(made, src) == TreeSize(fs, src)
      && Under(made, src) == Under(fs, src)
      && forall n :: n in Children(fs, src) ==> (TreeOk(made, src, dst, src + [n]) <==> TreeOk(fs, src, dst, src + [n]))
  {
    var made := fs[dst := Dir];
    MkdirUnder(fs, src, dst);
    DisjointPaths(src, dst, dst);
    SumSame(fs, made, Under(fs, src));
    SameChildren(fs, made, src);
    forall n | n in Children(fs, src)
      ensures TreeOk(made, src, dst, src + [n]) <==> TreeOk(fs, src, dst, src + [n])
    {
      TreeOkAfterMkdir(fs, src, dst, n);
    }
  }

  lemma TreeOkAfterMkdir(fs: Fs, src: Path, dst: Path, n: string)
    requires Disjoint(src, dst)
    ensures TreeOk(fs[dst := Dir], src, dst, src + [n]) <==> TreeOk(fs, src, dst, src + [n])
  {
    var made := fs[dst := Dir];
    DisjointPaths(src, dst, dst);
    forall p: Path | src + [n] <= p
      ensures p in made <==> p in fs
      ensures src <= p
      ensures p in fs ==> (NodeOk(made, p, Source(dst, src, p)) <==> NodeOk(fs, p, Source(dst, src, p)))
    {
      BelowChild(src, n, p);
      assert |Source(dst, src, p)| > |dst|;
    }
  }

  lemma SameChildren(a: Fs, b: Fs, p: Path)
    requires Under(a, p) == Under(b, p)
    ensures Children(a, p) == Children(b, p)
  {
    forall n
      ensures n in Children(a, p) <==> n in Children(b, p)
    {
      ChildExists(a, p, n);
      ChildExists(b, p, n);
      BelowChild(p, n, p + [n]);
      assert p + [n] in a <==> p + [n] in Under(a, p);
      assert p + [n] in b <==> p + [n] in Under(b, p);
    }
  }

  lemma OverlayAfterMkdir(fs: Fs, now: Fs, src: Path, dst: Path)
    requires src in fs && fs[src].Dir? && Disjoint(src, dst) && IsOverlay(fs[dst := Dir], now, src, dst)
    ensures IsOverlay(fs, now, src, dst)
  {
    var made := fs[dst := Dir];
    forall p
      ensures OverlayAt(fs, now, src, dst, p)
    {
      assert OverlayAt(made, now, src, dst, p);
      if dst <= p {
        var s := Source(src, dst, p);
        DisjointPaths(src, dst, s);
        assert s != dst;
        assert p == dst ==> s == src;
      }
    }
  }

  /** A part of the tree under `src` has the same size before and during the copy. */
  lemma SizeDuring(before: Fs, mid: Fs, src: Path, dst: Path, remaining: set<string>, at: Path)
    requires IsPartial(before, mid, src, dst, remaining) && Disjoint(src, dst) && src <= at
    ensures TreeSize(mid, at) == TreeSize(before, at) && Under(mid, at) == Under(before, at)
  {
    forall p
      ensures p in Under(mid, at) <==> p in Under(before, at)
      ensures p in Under(mid, at) ==> mid[p] == before[p]
    {
      if at <= p {
        PartialSource(before, mid, src, dst, remaining, p);
      }
    }
    assert Under(mid, at) == Under(before, at);
    SumSame(mid, before, Under(mid, at));
  }

  /** No path outside the tree at `dst` has changed. */
  ghost predicate KeepsRest(before: Fs, after: Fs, dst: Path) {
    forall p :: !(dst <= p) ==> SameAt(before, after, p)
  }

  lemma OverlayKeepsRest(before: Fs, after: Fs, src: Path, dst: Path)
    requires IsOverlay(before, after, src, dst)
    ensures KeepsRest(before, after, dst)
  {
    forall p | !(dst <= p)
      ensures SameAt(before, after, p)
    {
      assert OverlayAt(before, after, src, dst, p);
    }
  }

  lemma PartialKeepsRest(before: Fs, mid: Fs, now: Fs, src: Path, dst: Path, remaining: set<string>, name: string)
    requires IsPartial(before, mid, src, dst, remaining) && KeepsRest(mid, now, dst + [name])
    ensures KeepsRest(before, now, dst)
  {
    forall p | !(dst <= p)
      ensures SameAt(before, now, p)
    {
      BelowChild(dst, name, p);
      assert PartialAt(before, mid, src, dst, remaining, p);
      assert SameAt(mid, now, p);
    }
  }

  /** The children that are no longer in `remaining` can be copied. */
  ghost predicate ChildrenOk(fs: Fs, src: Path, dst: Path, remaining: set<string>) {
    forall n :: n in Children(fs, src) && n !in remaining ==> TreeOk(fs, src, dst, src + [n])
  }
}
