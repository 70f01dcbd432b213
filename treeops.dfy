/** What the installer's two tree walks do to a filesystem, stated on values. */
module TreeOps {
  import opened Paths
  import opened FileSystems

  /** The locations of `root` and of everything below it, relative to `root`. */
  function Rel(fs: FileMap, root: Path): (rel: set<Path>)
    ensures forall x | x in rel :: root + x in fs
    ensures forall p | p in fs && IsPrefix(root, p) :: p[|root|..] in rel
  {
    forall p | p in fs && IsPrefix(root, p)
      ensures root + p[|root|..] == p
    {
      assert p == p[..|root|] + p[|root|..];
    }
    set p | p in fs && IsPrefix(root, p) :: p[|root|..]
  }

  /** The node recursiveCopy leaves at `dst + x` for the source entry `src + x`: the source file
      (any older file there was unlinked first), or the directory already there, or a new one. */
  function CopiedNode(fs: FileMap, src: Path, dst: Path, x: Path): (n: Node)
    requires src + x in fs
  {
    MergedNode(fs, src + x, dst + x)
  }

  /** What one step of the copy leaves at `d` for the entry `s`: a file replaces whatever was
      there, a directory keeps an existing entry and is created otherwise. */
  function MergedNode(fs: FileMap, s: Path, d: Path): (n: Node)
    requires s in fs
  {
    if fs[s].File? then fs[s]
    else if d in fs then fs[d]
    else Dir
  }

  /** `fs` once the source entries at the relative locations `done` have been merged into `dst`. */
  function MergeDone(fs: FileMap, src: Path, dst: Path, done: set<Path>): (r: FileMap)
    requires forall x | x in done :: src + x in fs
  {
    var added := set x | x in done :: dst + x;
    assert forall x | x in done :: (dst + x)[..|dst|] == dst && (dst + x)[|dst|..] == x;
    map q | q in fs.Keys + added ::
      if IsPrefix(dst, q) && q[|dst|..] in done then CopiedNode(fs, src, dst, q[|dst|..]) else fs[q]
  }

  /** The filesystem after recursiveCopy(src, dst). */
  function MergeCopy(fs: FileMap, src: Path, dst: Path): (r: FileMap)
    // every source file is at its counterpart, replacing what was there: the last write wins
    ensures forall p | p in fs && IsPrefix(src, p) && fs[p].File? ::
              dst + p[|src|..] in r && r[dst + p[|src|..]] == fs[p]
    // every source directory has a counterpart: the entry already there, or a new directory
    ensures forall p | p in fs && IsPrefix(src, p) && fs[p].Dir? ::
              dst + p[|src|..] in r &&
              r[dst + p[|src|..]] == if dst + p[|src|..] in fs then fs[dst + p[|src|..]] else Dir
    // every entry that is not the counterpart of a source entry is left as it was
    ensures forall q | q in fs && !(IsPrefix(dst, q) && src + q[|dst|..] in fs) :: q in r && r[q] == fs[q]
    // nothing else appears
    ensures forall q | q in r :: q in fs || (IsPrefix(dst, q) && src + q[|dst|..] in fs)
  {
    var rel := Rel(fs, src);
    var r := MergeDone(fs, src, dst, rel);
    forall p | p in fs && IsPrefix(src, p)
      ensures src + p[|src|..] == p
      ensures dst + p[|src|..] in r && r[dst + p[|src|..]] == CopiedNode(fs, src, dst, p[|src|..])
    {
      var x := p[|src|..];
      assert p == src + x;
      assert (dst + x)[..|dst|] == dst && (dst + x)[|dst|..] == x;
    }
    forall q | q in fs.Keys + (set x | x in rel :: dst + x)
      ensures IsPrefix(dst, q) && q[|dst|..] in rel <==> IsPrefix(dst, q) && src + q[|dst|..] in fs
    {
      if IsPrefix(dst, q) && src + q[|dst|..] in fs {
        var x := q[|dst|..];
        assert (src + x)[|src|..] == x;
        assert IsPrefix(src, src + x);
      }
    }
    r
  }

  lemma MergeDoneNone(fs: FileMap, src: Path, dst: Path)
    ensures MergeDone(fs, src, dst, {}) == fs
  {
  }

  /** Merging one more source entry updates exactly its counterpart. */
  lemma MergeDoneStep(fs: FileMap, src: Path, dst: Path, done: set<Path>, x: Path)
    requires forall y | y in done :: src + y in fs
    requires src + x in fs
    ensures MergeDone(fs, src, dst, done + {x})
         == MergeDone(fs, src, dst, done)[dst + x := CopiedNode(fs, src, dst, x)]
  {
    var a := MergeDone(fs, src, dst, done + {x});
    var b := MergeDone(fs, src, dst, done)[dst + x := CopiedNode(fs, src, dst, x)];
    assert (dst + x)[..|dst|] == dst && (dst + x)[|dst|..] == x;
    forall q | q in a
      ensures q in b && a[q] == b[q]
    {
      if q != dst + x && IsPrefix(dst, q) {
        assert q == q[..|dst|] + q[|dst|..];
        assert q[|dst|..] != x;
      }
    }
    forall q | q in b
      ensures q in a
    {
    }
    assert a == b;
  }

  /** What recursiveCopy demands to run to the end: the source is a directory, the destination
      neither contains nor lies in it, a missing destination can be created, no source file meets
      a directory, and no source directory with children meets a file. */
  ghost predicate Mergeable(fs: FileMap, src: Path, dst: Path) {
    && Disjoint(src, dst)
    && AllNames(dst)
    && IsDirIn(fs, src)
    && (dst !in fs ==> dst != [] && IsDirIn(fs, Parent(dst)))
    && (forall x | src + x in fs && fs[src + x].File? && dst + x in fs :: fs[dst + x].File?)
    && (forall x, c | src + x in fs && c in fs && c != [] && Parent(c) == src + x && dst + x in fs ::
          fs[dst + x].Dir?)
  }

  /** Entries at or below the source are not counterparts of source entries, so a merge keeps them. */
  lemma SourceUntouched(fs: FileMap, src: Path, dst: Path, p: Path)
    requires Disjoint(src, dst) && IsPrefix(src, p)
    ensures p in MergeCopy(fs, src, dst) <==> p in fs
    ensures p in fs ==> MergeCopy(fs, src, dst)[p] == fs[p]
  {
    if IsPrefix(dst, p) {
      PrefixesComparable(src, dst, p);
    }
  }

  /** Merging keeps the filesystem a well-formed tree. */
  lemma MergeCopyWellFormed(fs: FileMap, src: Path, dst: Path)
    requires WellFormed(fs) && Mergeable(fs, src, dst)
    ensures WellFormed(MergeCopy(fs, src, dst))
  {
    var r := MergeCopy(fs, src, dst);
    assert !IsPrefix(dst, []);
    forall q | q in r
      ensures AllNames(q) && (q != [] ==> IsDirIn(r, Parent(q)))
    {
      EntryFits(fs, src, dst, q);
    }
  }

  lemma EntryFits(fs: FileMap, src: Path, dst: Path, q: Path)
    requires WellFormed(fs) && Mergeable(fs, src, dst) && q in MergeCopy(fs, src, dst)
    ensures AllNames(q) && (q != [] ==> IsDirIn(MergeCopy(fs, src, dst), Parent(q)))
  {
    if IsPrefix(dst, q) && src + q[|dst|..] in fs {
      CounterpartFits(fs, src, dst, q[|dst|..]);
      assert q == dst + q[|dst|..];
    } else {
      KeptEntryFitsMerge(fs, src, dst, q);
    }
  }

  lemma CounterpartFits(fs: FileMap, src: Path, dst: Path, x: Path)
    requires WellFormed(fs) && Mergeable(fs, src, dst) && src + x in fs
    ensures AllNames(dst + x) && dst + x != [] && IsDirIn(MergeCopy(fs, src, dst), Parent(dst + x))
  {
    AllNamesConcat(src, x);
    AllNamesConcat(dst, x);
    if x == [] {
      assert dst + x == dst;
      DestinationFits(fs, src, dst);
    } else {
      ChildCounterpartFits(fs, src, dst, x);
    }
  }

  lemma DestinationFits(fs: FileMap, src: Path, dst: Path)
    requires WellFormed(fs) && Mergeable(fs, src, dst) && dst != []
    ensures IsDirIn(MergeCopy(fs, src, dst), Parent(dst))
  {
    assert !IsPrefix(dst, Parent(dst));
  }

  lemma ChildCounterpartFits(fs: FileMap, src: Path, dst: Path, x: Path)
    requires WellFormed(fs) && Mergeable(fs, src, dst) && src + x in fs && x != []
    ensures IsDirIn(MergeCopy(fs, src, dst), Parent(dst + x))
  {
    var p, c := src + Parent(x), src + x;
    assert Parent(c) == p;
    assert Parent(dst + x) == dst + Parent(x);
    assert p[|src|..] == Parent(x);
    assert IsPrefix(src, p);
  }

  lemma KeptEntryFitsMerge(fs: FileMap, src: Path, dst: Path, q: Path)
    requires WellFormed(fs) && Mergeable(fs, src, dst)
    requires q in fs && !(IsPrefix(dst, q) && src + q[|dst|..] in fs)
    ensures q != [] ==> IsDirIn(MergeCopy(fs, src, dst), Parent(q))
  {
    if q != [] {
      var p := Parent(q);
      if IsPrefix(dst, p) && src + p[|dst|..] in fs {
        var y := p[|dst|..];
        assert p == dst + y;
        assert (src + y)[|src|..] == y;
        assert IsPrefix(src, src + y);
      }
    }
  }

  /** Running recursiveCopy again with the same source changes nothing more. */
  lemma MergeCopyIdempotent(fs: FileMap, src: Path, dst: Path)
    requires Disjoint(src, dst)
    ensures MergeCopy(MergeCopy(fs, src, dst), src, dst) == MergeCopy(fs, src, dst)
  {
    var m1 := MergeCopy(fs, src, dst);
    var m2 := MergeCopy(m1, src, dst);
    forall q | q in m2
      ensures q in m1 && m2[q] == m1[q]
    {
      SecondMergeEntry(fs, src, dst, q);
    }
    forall q | q in m1
      ensures q in m2
    {
      FirstMergeEntryKept(fs, src, dst, q);
    }
  }

  /** An entry after the first merge survives the second. */
  lemma FirstMergeEntryKept(fs: FileMap, src: Path, dst: Path, q: Path)
    requires q in MergeCopy(fs, src, dst)
    ensures q in MergeCopy(MergeCopy(fs, src, dst), src, dst)
  {
    var m1 := MergeCopy(fs, src, dst);
    if IsPrefix(dst, q) && src + q[|dst|..] in m1 {
      var x := q[|dst|..];
      var p := src + x;
      assert q == dst + x;
      assert p[|src|..] == x && IsPrefix(src, p);
    }
  }

  /** An entry after the second merge is the entry after the first. */
  lemma SecondMergeEntry(fs: FileMap, src: Path, dst: Path, q: Path)
    requires Disjoint(src, dst) && q in MergeCopy(MergeCopy(fs, src, dst), src, dst)
    ensures q in MergeCopy(fs, src, dst)
    ensures MergeCopy(MergeCopy(fs, src, dst), src, dst)[q] == MergeCopy(fs, src, dst)[q]
  {
    var m1 := MergeCopy(fs, src, dst);
    if IsPrefix(dst, q) && src + q[|dst|..] in m1 {
      var x := q[|dst|..];
      var p := src + x;
      assert q == dst + x;
      assert p[|src|..] == x;
      SourceUntouched(fs, src, dst, p);
    }
  }

  /** After one merge the same merge can run again. */
  lemma MergeCopyStaysMergeable(fs: FileMap, src: Path, dst: Path)
    requires WellFormed(fs) && Mergeable(fs, src, dst)
    ensures Mergeable(MergeCopy(fs, src, dst), src, dst)
  {
    var m := MergeCopy(fs, src, dst);
    SourceUntouched(fs, src, dst, src);
    assert src[|src|..] == [] && dst + [] == dst;
    forall x | src + x in m && m[src + x].File? && dst + x in m
      ensures m[dst + x].File?
    {
      FileStaysMergeable(fs, src, dst, x);
    }
    forall x, c | src + x in m && c in m && c != [] && Parent(c) == src + x && dst + x in m
      ensures m[dst + x].Dir?
    {
      DirStaysMergeable(fs, src, dst, x, c);
    }
  }

  lemma FileStaysMergeable(fs: FileMap, src: Path, dst: Path, x: Path)
    requires Mergeable(fs, src, dst)
    requires var m := MergeCopy(fs, src, dst); src + x in m && m[src + x].File? && dst + x in m
    ensures MergeCopy(fs, src, dst)[dst + x].File?
  {
    SourceUntouched(fs, src, dst, src + x);
    assert (src + x)[|src|..] == x && IsPrefix(src, src + x);
  }

  lemma DirStaysMergeable(fs: FileMap, src: Path, dst: Path, x: Path, c: Path)
    requires WellFormed(fs) && Mergeable(fs, src, dst)
    requires var m := MergeCopy(fs, src, dst);
             src + x in m && c in m && c != [] && Parent(c) == src + x && dst + x in m
    ensures MergeCopy(fs, src, dst)[dst + x].Dir?
  {
    assert c[..|src|] == (src + x)[..|src|];
    SourceUntouched(fs, src, dst, src + x);
    SourceUntouched(fs, src, dst, c);
    assert (src + x)[|src|..] == x && IsPrefix(src, src + x);
  }

  /** The filesystem after removeDirectory(root), as far as the entries at relative locations
      `done` below it have been removed. */
  function RemovedDone(fs: FileMap, root: Path, done: set<Path>): (r: FileMap) {
    map q | q in fs && !(IsPrefix(root, q) && q[|root|..] in done) :: fs[q]
  }

  /** The filesystem after removeDirectory(root). */
  function RemoveTree(fs: FileMap, root: Path): (r: FileMap)
    ensures NothingBelow(r, root)
    ensures forall q | q in fs && !IsPrefix(root, q) :: q in r && r[q] == fs[q]
    ensures forall q | q in r :: q in fs
  {
    map q | q in fs && !IsPrefix(root, q) :: fs[q]
  }

  lemma RemovedDoneStep(fs: FileMap, root: Path, done: set<Path>, x: Path)
    requires root + x in fs
    ensures RemovedDone(fs, root, done + {x}) == RemovedDone(fs, root, done) - {root + x}
  {
    var a := RemovedDone(fs, root, done + {x});
    var b := RemovedDone(fs, root, done) - {root + x};
    assert (root + x)[..|root|] == root && (root + x)[|root|..] == x;
    forall q | q in fs && IsPrefix(root, q) && q[|root|..] == x
      ensures q == root + x
    {
      assert q == q[..|root|] + q[|root|..];
    }
    assert a.Keys == b.Keys;
    assert a == b;
  }

  /** Removing a tree other than the whole filesystem keeps the rest well-formed. */
  lemma RemoveTreeWellFormed(fs: FileMap, root: Path)
    requires WellFormed(fs) && root != []
    ensures WellFormed(RemoveTree(fs, root))
  {
    var r := RemoveTree(fs, root);
    forall q | q in r && q != []
      ensures IsDirIn(r, Parent(q))
    {
      if IsPrefix(root, Parent(q)) {
        assert false;
      }
    }
  }
}
