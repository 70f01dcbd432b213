/** Textual paths as the installer builds them, and how the filesystem resolves them. */
module Paths {

  /** A resolved location: the names of the directories from the filesystem root down. */
  type Path = seq<string>

  /** DIRECTORY_SEPARATOR on the POSIX systems the installer writes to. */
  const Sep: char := '/'

  /** A piece of a path string between two separators: non-empty and free of separators. */
  predicate IsPart(s: string) {
    s != "" && Sep !in s
  }

  predicate AllParts(ps: seq<string>) {
    forall i | 0 <= i < |ps| :: IsPart(ps[i])
  }

  /** A segment of a resolved location: a part other than `.` (this directory) and `..`
      (the parent directory). */
  predicate IsName(s: string) {
    IsPart(s) && s != "." && s != ".."
  }

  predicate AllNames(p: Path) {
    forall i | 0 <= i < |p| :: IsName(p[i])
  }

  lemma AllNamesConcat(a: Path, b: Path)
    ensures AllNames(a + b) <==> AllNames(a) && AllNames(b)
  {
    if AllNames(a + b) {
      forall i | 0 <= i < |b|
        ensures IsName(b[i])
      {
        assert (a + b)[|a| + i] == b[i];
      }
      forall i | 0 <= i < |a|
        ensures IsName(a[i])
      {
        assert (a + b)[i] == a[i];
      }
    }
  }

  /** The part collected so far, if there is one. */
  function Flush(cur: string): (ps: seq<string>)
    ensures Sep !in cur ==> AllParts(ps)
  {
    if cur == "" then [] else [cur]
  }

  /** Splits `s` on separators, continuing a part `cur` already collected.
      Empty parts vanish, as they do when the operating system resolves `a//b`. */
  function Split(s: string, cur: string): (ps: seq<string>)
    requires Sep !in cur
    ensures AllParts(ps)
    decreases |s|
  {
    if s == "" then Flush(cur)
    else if s[0] == Sep then Flush(cur) + Split(s[1..], "")
    else Split(s[1..], cur + [s[0]])
  }

  /** The parts of a path string, in order. */
  function Parts(s: string): (ps: seq<string>)
    ensures AllParts(ps)
  {
    Split(s, "")
  }

  /** A path string made of names only: it leads downwards from wherever it is resolved. */
  predicate Plain(s: string) {
    AllNames(Parts(s))
  }

  /** The location one part leads to from `p`: `.` stays, `..` goes up (the root is its own
      parent), a name goes down. */
  function Step(p: Path, part: string): (r: Path)
    requires AllNames(p) && IsPart(part)
    ensures AllNames(r)
  {
    AllNamesConcat(p, [part]);
    if part == "." then p
    else if part == ".." then (if p == [] then [] else p[..|p| - 1])
    else p + [part]
  }

  /** The location reached from `base` by following `parts` in order. */
  function Resolve(base: Path, parts: seq<string>): (r: Path)
    requires AllNames(base) && AllParts(parts)
    ensures AllNames(r)
    ensures |r| <= |base| + |parts|
    decreases |parts|
  {
    if parts == [] then base
    else Step(Resolve(base, parts[..|parts| - 1]), parts[|parts| - 1])
  }

  /** Following `a` and then `b` is following `a + b`. */
  lemma {:induction false} ResolveConcat(base: Path, a: seq<string>, b: seq<string>)
    requires AllNames(base) && AllParts(a) && AllParts(b)
    ensures AllParts(a + b) && Resolve(base, a + b) == Resolve(Resolve(base, a), b)
    decreases |b|
  {
    assert AllParts(a + b) by {
      forall i | 0 <= i < |a + b|
        ensures IsPart((a + b)[i])
      {
        if i >= |a| {
          assert (a + b)[i] == b[i - |a|];
        }
      }
    }
    if b == [] {
      assert a + b == a;
    } else {
      var init := b[..|b| - 1];
      assert (a + b)[..|a + b| - 1] == a + init;
      assert (a + b)[|a + b| - 1] == b[|b| - 1];
      ResolveConcat(base, a, init);
    }
  }

  /** Names only lead down: following them appends them. */
  lemma {:induction false} ResolveNames(base: Path, names: seq<string>)
    requires AllNames(base) && AllNames(names)
    ensures AllParts(names) && Resolve(base, names) == base + names
    decreases |names|
  {
    if names != [] {
      var init := names[..|names| - 1];
      ResolveNames(base, init);
      assert base + init + [names[|names| - 1]] == base + names;
    }
  }

  /** The location a path string names, resolved from the filesystem root. */
  function Segments(s: string): (p: Path)
    ensures AllNames(p)
    ensures Plain(s) ==> p == Parts(s)
  {
    assert Plain(s) ==> Resolve([], Parts(s)) == Parts(s) by {
      if Plain(s) {
        ResolveNames([], Parts(s));
      }
    }
    Resolve([], Parts(s))
  }

  lemma {:induction false} SplitJoin(a: string, b: string, cur: string)
    requires Sep !in cur
    ensures Split(a + [Sep] + b, cur) == Split(a, cur) + Split(b, "")
    decreases |a|
  {
    var s := a + [Sep] + b;
    if a == "" {
      assert s == [Sep] + b;
      assert s[1..] == b;
    } else {
      assert s[0] == a[0];
      assert s[1..] == a[1..] + [Sep] + b;
      if a[0] == Sep {
        SplitJoin(a[1..], b, "");
      } else {
        SplitJoin(a[1..], b, cur + [a[0]]);
      }
    }
  }

  lemma {:induction false} SplitName(s: string, cur: string)
    requires Sep !in cur && Sep !in s
    ensures Split(s, cur) == Flush(cur + s)
    decreases |s|
  {
    if s == "" {
      assert cur + s == cur;
    } else {
      assert cur + s == (cur + [s[0]]) + s[1..];
      SplitName(s[1..], cur + [s[0]]);
    }
  }

  /** A string without separators is a single part, or none when it is empty. */
  lemma PartsOfPart(s: string)
    requires Sep !in s
    ensures Parts(s) == Flush(s)
  {
    SplitName(s, "");
    assert "" + s == s;
  }

  /** A name names itself. */
  lemma SegmentsOfName(s: string)
    requires IsName(s)
    ensures Parts(s) == [s] && Plain(s) && Segments(s) == [s]
  {
    PartsOfPart(s);
  }

  /** `a . DIRECTORY_SEPARATOR . b`: the result names `b` resolved from the location `a` names. */
  function Join(a: string, b: string): (r: string)
    ensures Parts(r) == Parts(a) + Parts(b)
    ensures Segments(r) == Resolve(Segments(a), Parts(b))
    ensures Plain(b) ==> Segments(r) == Segments(a) + Segments(b)
    ensures |r| == |a| + 1 + |b|
  {
    SplitJoin(a, b, "");
    ResolveConcat([], Parts(a), Parts(b));
    assert Plain(b) ==> Resolve(Segments(a), Parts(b)) == Segments(a) + Parts(b) by {
      if Plain(b) {
        ResolveNames(Segments(a), Parts(b));
      }
    }
    a + [Sep] + b
  }

  /** The relative path string a recursive directory iterator reports for an entry
      at relative location `r` (its sub-path name). */
  function SubPathName(r: Path): (s: string)
    requires r != [] && AllNames(r)
    ensures Parts(s) == r && Segments(s) == r
    decreases |r|
  {
    var last := r[|r| - 1];
    PartsOfPart(last);
    if |r| == 1 then
      assert [last] == r;
      last
    else
      var prefix := SubPathName(r[..|r| - 1]);
      JoinLast(prefix, r);
      Join(prefix, last)
  }

  lemma JoinLast(prefix: string, r: Path)
    requires |r| > 1 && Parts(prefix) == r[..|r| - 1] && Parts(r[|r| - 1]) == [r[|r| - 1]]
    ensures Parts(Join(prefix, r[|r| - 1])) == r
  {
    assert r[..|r| - 1] + [r[|r| - 1]] == r;
  }
}
