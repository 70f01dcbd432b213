/** The filesystem the installer works on, with the PHP primitives it calls. */
module FileSystems {
  import opened Paths
  import opened Bytes

  datatype Node = Dir | File(content: seq<byte>)

  /** Every entry of a filesystem, keyed by its location. */
  type FileMap = map<Path, Node>

  function Parent(p: Path): (r: Path)
    requires p != []
  {
    p[..|p| - 1]
  }

  predicate IsPrefix(a: Path, b: Path) {
    |a| <= |b| && b[..|a|] == a
  }

  /** Neither location lies at or below the other. */
  predicate Disjoint(a: Path, b: Path) {
    !IsPrefix(a, b) && !IsPrefix(b, a)
  }

  predicate IsDirIn(fs: FileMap, p: Path) {
    p in fs && fs[p].Dir?
  }

  predicate IsFileIn(fs: FileMap, p: Path) {
    p in fs && fs[p].File?
  }

  /** A tree rooted at a directory `/`, whose every other entry sits in a directory. */
  predicate WellFormed(fs: FileMap) {
    && IsDirIn(fs, [])
    && forall p | p in fs :: AllNames(p) && (p != [] ==> IsDirIn(fs, Parent(p)))
  }

  predicate IsEmptyDir(fs: FileMap, p: Path) {
    IsDirIn(fs, p) && forall q | q in fs && q != [] :: Parent(q) != p
  }

  /** No entry lies at or below `p`. */
  predicate NothingBelow(fs: FileMap, p: Path) {
    forall q | q in fs :: !IsPrefix(p, q)
  }

  /** An extracted archive: relative locations, each inside a directory of the archive
      unless it is at the top level. */
  predicate ValidTree(tree: FileMap) {
    forall r | r in tree :: r != [] && AllNames(r) && (|r| > 1 ==> IsDirIn(tree, Parent(r)))
  }

  lemma UpdateSame(m: FileMap, k: Path)
    requires k in m
    ensures m[k := m[k]] == m
  {
  }

  lemma RemoveThenUpdate(m: FileMap, k: Path, v: Node)
    ensures (m - {k})[k := v] == m[k := v]
  {
  }

  /** Adding an entry inside an existing directory keeps a tree well-formed, unless it
      replaces a directory. */
  lemma AddWellFormed(fs: FileMap, p: Path, n: Node)
    requires WellFormed(fs) && p != [] && AllNames(p) && IsDirIn(fs, Parent(p))
    requires IsDirIn(fs, p) ==> n.Dir?
    ensures WellFormed(fs[p := n])
  {
  }

  /** Removing a file keeps a tree well-formed. */
  lemma RemoveFileWellFormed(fs: FileMap, p: Path)
    requires WellFormed(fs) && IsFileIn(fs, p)
    ensures WellFormed(fs - {p})
  {
  }

  /** Two prefixes of one location are prefixes of one another. */
  lemma PrefixesComparable(a: Path, b: Path, q: Path)
    requires IsPrefix(a, q) && IsPrefix(b, q)
    ensures IsPrefix(a, b) || IsPrefix(b, a)
  {
    if |a| <= |b| {
      assert b[..|a|] == q[..|a|];
    } else {
      assert a[..|b|] == q[..|b|];
    }
  }

  /** Extending a location keeps it apart from a location it was apart from. */
  lemma DisjointExtends(a: Path, b: Path, c: Path)
    requires Disjoint(a, b)
    ensures Disjoint(a + c, b)
  {
    assert IsPrefix(a, a + c);
    if IsPrefix(b, a + c) {
      PrefixesComparable(a, b, a + c);
    }
  }

  lemma {:induction false} AncestorIn(fs: FileMap, q: Path, k: nat)
    requires WellFormed(fs) && q in fs && k <= |q|
    ensures q[..k] in fs
    ensures k < |q| ==> fs[q[..k]].Dir?
    decreases |q| - k
  {
    if k < |q| {
      var p := Parent(q);
      assert p[..k] == q[..k];
      if k < |p| {
        AncestorIn(fs, p, k);
      } else {
        assert p == q[..k];
      }
    } else {
      assert q[..k] == q;
    }
  }

  /** In a well-formed tree, a missing location has nothing below it. */
  lemma MissingHasNothingBelow(fs: FileMap, p: Path)
    requires WellFormed(fs) && p !in fs
    ensures NothingBelow(fs, p)
  {
    forall q | q in fs
      ensures !IsPrefix(p, q)
    {
      if IsPrefix(p, q) {
        AncestorIn(fs, q, |p|);
      }
    }
  }

  /** The tree ZipArchive::extractTo writes below `dest`; it overwrites same-named entries. */
  function Extract(fs: FileMap, dest: Path, tree: FileMap): (r: FileMap)
    ensures forall x | x in tree :: dest + x in r && r[dest + x] == tree[x]
    ensures forall q | q in fs && !(IsPrefix(dest, q) && q[|dest|..] in tree) :: q in r && r[q] == fs[q]
    ensures forall q | q in r :: q in fs || (IsPrefix(dest, q) && q[|dest|..] in tree)
  {
    var added := set x | x in tree :: dest + x;
    assert forall x | x in tree :: (dest + x)[..|dest|] == dest && (dest + x)[|dest|..] == x;
    map q | q in fs.Keys + added ::
      if IsPrefix(dest, q) && q[|dest|..] in tree then tree[q[|dest|..]] else fs[q]
  }

  lemma ExtractWellFormed(fs: FileMap, dest: Path, tree: FileMap)
    requires WellFormed(fs) && IsEmptyDir(fs, dest) && ValidTree(tree)
    ensures WellFormed(Extract(fs, dest, tree))
  {
    var r := Extract(fs, dest, tree);
    forall q | q in r
      ensures AllNames(q) && (q != [] ==> IsDirIn(r, Parent(q)))
    {
      if IsPrefix(dest, q) && q[|dest|..] in tree {
        ExtractedEntryFits(fs, dest, tree, q[|dest|..]);
        assert q == dest + q[|dest|..];
      } else {
        KeptEntryFits(fs, dest, tree, q);
      }
    }
  }

  lemma ExtractedEntryFits(fs: FileMap, dest: Path, tree: FileMap, x: Path)
    requires WellFormed(fs) && IsEmptyDir(fs, dest) && ValidTree(tree) && x in tree
    ensures AllNames(dest + x) && IsDirIn(Extract(fs, dest, tree), Parent(dest + x))
  {
    var r := Extract(fs, dest, tree);
    assert dest[|dest|..] == [];
    assert AllNames(dest);
    if |x| > 1 {
      assert Parent(dest + x) == dest + Parent(x);
    } else {
      assert Parent(dest + x) == dest;
      assert dest in fs && !(IsPrefix(dest, dest) && dest[|dest|..] in tree);
    }
  }

  lemma KeptEntryFits(fs: FileMap, dest: Path, tree: FileMap, q: Path)
    requires WellFormed(fs) && IsEmptyDir(fs, dest) && ValidTree(tree)
    requires q in fs && !(IsPrefix(dest, q) && q[|dest|..] in tree)
    ensures q != [] ==> IsDirIn(Extract(fs, dest, tree), Parent(q))
  {
    if q != [] {
      var p := Parent(q);
      if IsPrefix(dest, p) && p[|dest|..] in tree {
        assert |p| > |dest|;
        AncestorIn(fs, p, |dest| + 1);
        assert false;
      }
    }
  }

  /** `walk` lists once each the location, relative to `root`, of every entry strictly below `root`. */
  predicate Enumerates(fs: FileMap, root: Path, walk: seq<Path>) {
    && (forall i | 0 <= i < |walk| :: walk[i] != [] && root + walk[i] in fs)
    && (forall p | p in fs && IsPrefix(root, p) && p != root :: p[|root|..] in walk)
    && (forall i, j | 0 <= i < j < |walk| :: walk[i] != walk[j])
  }

  /** RecursiveIteratorIterator::SELF_FIRST: every directory comes before its children. */
  predicate IsSelfFirstWalk(fs: FileMap, root: Path, walk: seq<Path>) {
    && Enumerates(fs, root, walk)
    && forall i, j | 0 <= i < |walk| && 0 <= j < |walk| && walk[i] != [] && walk[j] == Parent(walk[i]) :: j < i
  }

  /** RecursiveIteratorIterator::CHILD_FIRST: every directory comes after its children. */
  predicate IsChildFirstWalk(fs: FileMap, root: Path, walk: seq<Path>) {
    && Enumerates(fs, root, walk)
    && forall i, j | 0 <= i < |walk| && 0 <= j < |walk| && walk[i] != [] && walk[j] == Parent(walk[i]) :: i < j
  }

  /** The state of a shortest-first walk: `walk` visited, `rest` still to visit,
      none of which is shorter than a visited entry. */
  predicate WalkSoFar(fs: FileMap, root: Path, walk: seq<Path>, rest: set<Path>) {
    WalkCovers(fs, root, walk, rest) && WalkOrdered(walk, rest)
  }

  predicate WalkCovers(fs: FileMap, root: Path, walk: seq<Path>, rest: set<Path>) {
    && (forall r | r in rest :: r != [] && root + r in fs)
    && (forall i | 0 <= i < |walk| :: walk[i] != [] && root + walk[i] in fs)
    && (forall p | p in fs && IsPrefix(root, p) && p != root :: p[|root|..] in walk || p[|root|..] in rest)
    && (forall i | 0 <= i < |walk| :: walk[i] !in rest)
    && (forall i, j | 0 <= i < j < |walk| :: walk[i] != walk[j])
  }

  predicate WalkOrdered(walk: seq<Path>, rest: set<Path>) {
    && (forall i, r | 0 <= i < |walk| && r in rest :: |walk[i]| <= |r|)
    && (forall i, j | 0 <= i < |walk| && 0 <= j < |walk| && walk[i] != [] && walk[j] == Parent(walk[i]) :: j < i)
  }

  /** Visiting a shortest remaining entry next keeps every directory ahead of its children. */
  lemma WalkStep(fs: FileMap, root: Path, walk: seq<Path>, rest: set<Path>, r: Path)
    requires WalkSoFar(fs, root, walk, rest)
    requires r in rest && forall x | x in rest :: |r| <= |x|
    ensures WalkSoFar(fs, root, walk + [r], rest - {r})
  {
    WalkStepCovers(fs, root, walk, rest, r);
    WalkStepOrdered(walk, rest, r);
  }

  lemma WalkStepCovers(fs: FileMap, root: Path, walk: seq<Path>, rest: set<Path>, r: Path)
    requires WalkCovers(fs, root, walk, rest) && r in rest
    ensures WalkCovers(fs, root, walk + [r], rest - {r})
  {
    var w := walk + [r];
    assert forall i | 0 <= i < |walk| :: w[i] == walk[i];
    assert w[|walk|] == r;
    forall p | p in fs && IsPrefix(root, p) && p != root
      ensures p[|root|..] in w || p[|root|..] in rest - {r}
    {
      if p[|root|..] in walk {
        var k :| 0 <= k < |walk| && walk[k] == p[|root|..];
        assert w[k] == walk[k];
      }
    }
  }

  lemma WalkStepOrdered(walk: seq<Path>, rest: set<Path>, r: Path)
    requires WalkOrdered(walk, rest)
    requires r in rest && forall x | x in rest :: |r| <= |x|
    ensures WalkOrdered(walk + [r], rest - {r})
  {
    var w := walk + [r];
    assert forall i | 0 <= i < |walk| :: w[i] == walk[i];
    assert w[|walk|] == r;
  }

  /** A set of locations holding `x` has a member no longer than any other. */
  lemma {:induction false} ShortestExists(s: set<Path>, x: Path)
    requires x in s
    ensures exists q :: q in s && forall r | r in s :: |q| <= |r|
    decreases |x|
  {
    if exists y :: y in s && |y| < |x| {
      var y :| y in s && |y| < |x|;
      ShortestExists(s, y);
    } else {
      assert forall r | r in s :: |x| <= |r|;
    }
  }

  /** The operating system's filesystem, changed in place by the PHP primitives. */
  class FileSystem {
    var entries: FileMap

    ghost predicate Valid()
      reads this
    {
      WellFormed(entries)
    }

    constructor (init: FileMap)
      requires WellFormed(init)
      ensures Valid() && entries == init
    {
      entries := init;
    }

    /** file_exists */
    method Exists(p: Path) returns (b: bool)
      ensures b == (p in entries)
    {
      b := p in entries;
    }

    /** is_dir */
    method IsDir(p: Path) returns (b: bool)
      ensures b == IsDirIn(entries, p)
    {
      b := IsDirIn(entries, p);
    }

    /** mkdir, non-recursive: the parent must already be a directory. */
    method Mkdir(p: Path)
      requires Valid() && p != [] && AllNames(p)
      requires p !in entries && IsDirIn(entries, Parent(p))
      modifies this
      ensures Valid() && entries == old(entries)[p := Dir]
    {
      entries := entries[p := Dir];
    }

    /** unlink, on a file. */
    method Unlink(p: Path)
      requires Valid() && IsFileIn(entries, p)
      modifies this
      ensures Valid() && entries == old(entries) - {p}
    {
      entries := entries - {p};
    }

    /** file_put_contents: creates or overwrites a file in an existing directory. */
    method PutContents(p: Path, content: seq<byte>)
      requires Valid() && p != [] && AllNames(p)
      requires IsDirIn(entries, Parent(p)) && !IsDirIn(entries, p)
      modifies this
      ensures Valid() && entries == old(entries)[p := File(content)]
    {
      entries := entries[p := File(content)];
    }

    /** copy: the file `src` to `dst`, overwriting a file but never a directory. */
    method Copy(src: Path, dst: Path)
      requires Valid() && IsFileIn(entries, src)
      requires dst != [] && AllNames(dst)
      requires IsDirIn(entries, Parent(dst)) && !IsDirIn(entries, dst)
      modifies this
      ensures Valid() && entries == old(entries)[dst := old(entries)[src]]
    {
      entries := entries[dst := entries[src]];
    }

    /** rmdir, on an empty directory other than the root. */
    method Rmdir(p: Path)
      requires Valid() && p != [] && IsEmptyDir(entries, p)
      modifies this
      ensures Valid() && entries == old(entries) - {p}
    {
      entries := entries - {p};
    }

    /** ZipArchive::extractTo, restricted to its one use: an empty destination, the staging
        directory just created. */
    method Unpack(dest: Path, tree: FileMap)
      requires Valid() && IsEmptyDir(entries, dest) && ValidTree(tree)
      modifies this
      ensures Valid() && entries == Extract(old(entries), dest, tree)
    {
      ExtractWellFormed(entries, dest, tree);
      entries := Extract(entries, dest, tree);
    }

    /** The entries a SELF_FIRST recursive directory iterator over `root` visits, in visiting order
        (shortest first here; the callers rely only on the order predicate). */
    method SelfFirstWalk(root: Path) returns (walk: seq<Path>)
      requires IsDirIn(entries, root)
      ensures IsSelfFirstWalk(entries, root, walk)
    {
      var rest := set p | p in entries && IsPrefix(root, p) && p != root :: p[|root|..];
      forall p | p in entries && IsPrefix(root, p) && p != root
        ensures root + p[|root|..] == p && p[|root|..] != []
      {
        assert p == p[..|root|] + p[|root|..];
      }
      walk := [];
      while rest != {}
        invariant WalkSoFar(entries, root, walk, rest)
        decreases |rest|
      {
        var some :| some in rest;
        ShortestExists(rest, some);
        var r :| r in rest && forall x | x in rest :: |r| <= |x|;
        WalkStep(entries, root, walk, rest, r);
        walk := walk + [r];
        rest := rest - {r};
      }
    }

    /** The entries a CHILD_FIRST recursive directory iterator over `root` visits, in visiting order. */
    method ChildFirstWalk(root: Path) returns (walk: seq<Path>)
      requires IsDirIn(entries, root)
      ensures IsChildFirstWalk(entries, root, walk)
    {
      var w := SelfFirstWalk(root);
      walk := [];
      var i := |w|;
      while i > 0
        invariant 0 <= i <= |w|
        invariant |walk| == |w| - i
        invariant forall k | 0 <= k < |walk| :: walk[k] == w[|w| - 1 - k]
      {
        i := i - 1;
        walk := walk + [w[i]];
      }
      forall p | p in entries && IsPrefix(root, p) && p != root
        ensures p[|root|..] in walk
      {
        var m :| 0 <= m < |w| && w[m] == p[|root|..];
        assert walk[|w| - 1 - m] == w[m];
      }
    }
  }
}
