/** The theme installer: merges a downloaded theme's `assets` and `views` into place, and removes them. */
module Theme {
  import opened Paths
  import opened Bytes
  import opened FileSystems
  import opened TreeOps

  datatype Option<T> = None | Some(value: T)

  /** The shared temporary-files directory, with its trailing separator. */
  const Tmp: string := "/tmp/"

  /** The location `Tmp` names. */
  const TmpDir: Path := ["tmp"]

  /** The two subtrees of a theme archive that are installed. */
  const AssetsDir: string := "assets"
  const ViewsDir: string := "views"

  /** What the ZIP library knows of a downloaded archive: its entry names in index order,
      and the tree of relative locations extractTo writes. */
  datatype Archive = Archive(names: seq<string>, tree: FileMap)

  /** An archive whose first entry can be read (an empty one makes extractZipTo fail its
      string return type) and whose tree is a proper relative tree. */
  predicate ValidArchive(a: Archive) {
    |a.names| > 0 && ValidTree(a.tree)
  }

  /** The archive root: the first entry's name, or nothing when that entry is `assets`
      itself, meaning the payload sits at the top level of the archive. */
  function ArchiveRoot(first: string): (root: string)
    ensures first == AssetsDir ==> root == ""
    ensures first != AssetsDir ==> root == first
  {
    if first != AssetsDir then first else ""
  }

  /** The staging directory of an install whose random name is `name`: `/tmp/<name>`. */
  function StagingFolder(name: string): (s: string)
    ensures IsName(name) ==> Segments(s) == TmpDir + [name]
  {
    TmpEntry(name)
  }

  /** The file the archive is downloaded to: `/tmp/<name>.zip`, beside the staging directory. */
  function StagingZip(name: string): (s: string)
    ensures IsName(name) ==> Segments(s) == TmpDir + [name + ".zip"]
  {
    assert Tmp + name + ".zip" == Tmp + (name + ".zip");
    assert IsName(name) ==> IsName(name + ".zip") by {
      assert |name + ".zip"| > 2;
    }
    TmpEntry(name + ".zip")
  }

  /** `/tmp/` followed by `entry`. */
  function TmpEntry(entry: string): (s: string)
    ensures s == Tmp + entry
    ensures entry == "" ==> Segments(s) == TmpDir
    ensures IsName(entry) ==> Segments(s) == TmpDir + [entry]
  {
    SegmentsOfName("tmp");
    assert Parts("") == [] && Segments("") == [];
    assert IsName(entry) ==> Plain(entry) && Segments(entry) == [entry] by {
      if IsName(entry) {
        SegmentsOfName(entry);
      }
    }
    Join(Join("", "tmp"), entry)
  }

  /** The filesystem after uninstall, given the theme's assets directory and its views directory. */
  function UninstallOutcome(fs: FileMap, assets: Path, theme: Path): (r: FileMap)
    // with neither directory present, uninstall changes nothing
    ensures !IsDirIn(fs, assets) && !IsDirIn(fs, theme) ==> r == fs
    // a directory that was there is gone, with everything below it
    ensures IsDirIn(fs, assets) ==> NothingBelow(r, assets)
    ensures IsDirIn(fs, theme) ==> NothingBelow(r, theme)
    ensures !IsDirIn(r, assets) && !IsDirIn(r, theme)
    // uninstall only removes, and only what lies below a removed directory
    ensures forall q | q in r :: q in fs && r[q] == fs[q]
    ensures forall q | q in fs && q !in r ::
              (IsDirIn(fs, assets) && IsPrefix(assets, q)) || (IsDirIn(fs, theme) && IsPrefix(theme, q))
  {
    var fs1 := if IsDirIn(fs, assets) then RemoveTree(fs, assets) else fs;
    assert IsDirIn(fs, assets) ==> assets !in fs1 by {
      if IsDirIn(fs, assets) {
        assert IsPrefix(assets, assets);
      }
    }
    assert IsDirIn(fs1, theme) ==> theme !in RemoveTree(fs1, theme) by {
      assert IsPrefix(theme, theme);
    }
    if IsDirIn(fs1, theme) then RemoveTree(fs1, theme) else fs1
  }

  /** The relative location, inside the archive, of the subtree `sub` install merges:
      `<root>/<sub>`, for a root without `.` or `..` parts. */
  function PayloadDir(archive: Archive, sub: string): (p: Path)
    requires |archive.names| > 0
    ensures archive.names[0] == AssetsDir ==> p == [sub]
    ensures archive.names[0] != AssetsDir ==> p == Parts(archive.names[0]) + [sub]
  {
    assert Parts("") == [];
    Parts(ArchiveRoot(archive.names[0])) + [sub]
  }

  /** The location install reads the subtree `sub` from: `<folder>/<root>/<sub>`, where the
      root's `.` and `..` parts are resolved from the staging directory `folder`. A plain root
      keeps the subtree at its place in the archive, below `folder`. */
  function PayloadSource(folder: Path, archive: Archive, sub: string): (p: Path)
    requires |archive.names| > 0 && AllNames(folder)
    ensures Plain(archive.names[0]) ==> p == folder + PayloadDir(archive, sub)
  {
    var root := ArchiveRoot(archive.names[0]);
    assert Parts("") == [];
    assert Plain(archive.names[0]) ==> Resolve(folder, Parts(root)) == folder + Parts(root) by {
      if Plain(archive.names[0]) {
        ResolveNames(folder, Parts(root));
      }
    }
    Resolve(folder, Parts(root)) + [sub]
  }

  lemma SubtreeNames()
    ensures IsName(AssetsDir) && IsName(ViewsDir)
  {}

  /** Install reads the subtree `sub` from `<staging>/<root>/<sub>`: the subtree's place in the
      archive, below the staging directory. */
  lemma PayloadLocation(folder: string, archive: Archive, sub: string)
    requires |archive.names| > 0 && IsName(sub)
    ensures Segments(Join(Join(folder, ArchiveRoot(archive.names[0])), sub)) == PayloadSource(Segments(folder), archive, sub)
  {
    SegmentsOfName(sub);
  }

  /** The filesystem after install's staging steps, or None when one of them could not be
      carried out: a staging directory `folder` that cannot be created, a download `zip` that
      cannot be written, or an archive that cannot be read into the new directory. */
  ghost function StagingOutcome(fs: FileMap, folder: Path, zip: Path, download: seq<byte>, archive: Archive): (r: Option<FileMap>)
    ensures r.Some? ==> ValidArchive(archive) && AllNames(folder)
  {
    if !(folder != [] && AllNames(folder) && folder !in fs && IsDirIn(fs, Parent(folder))) then None
    else
      var fs1 := fs[folder := Dir];
      if !(zip != [] && AllNames(zip) && IsDirIn(fs1, Parent(zip)) && !IsDirIn(fs1, zip)) then None
      else
        var fs2 := fs1[zip := File(download)];
        if !(ValidArchive(archive) && IsEmptyDir(fs2, folder)) then None
        else Some(Extract(fs2, folder, archive.tree))
  }

  /** The filesystem after install's merge steps, from the staged filesystem `fs3`, or None when
      a merge would fail part way or the download has gone. `assets` and `theme` are the two
      target directories. */
  ghost function MergeOutcome(fs3: FileMap, folder: Path, zip: Path, archive: Archive, assets: Path, theme: Path): (r: Option<FileMap>)
    requires |archive.names| > 0 && AllNames(folder)
  {
    var assetsSrc := PayloadSource(folder, archive, AssetsDir);
    var viewsSrc := PayloadSource(folder, archive, ViewsDir);
    if !Mergeable(fs3, assetsSrc, assets) then None
    else
      var fs4 := MergeCopy(fs3, assetsSrc, assets);
      if !Mergeable(fs4, viewsSrc, theme) then None
      else
        var fs5 := MergeCopy(fs4, viewsSrc, theme);
        if !IsFileIn(fs5, zip) then None
        else Some(fs5 - {zip})
  }

  /** The filesystem after install, or None when one of its steps could not be carried out. */
  ghost function InstallOutcome(fs: FileMap, folder: Path, zip: Path, download: seq<byte>, archive: Archive,
                                assets: Path, theme: Path): (r: Option<FileMap>)
  {
    var staged := StagingOutcome(fs, folder, zip, download, archive);
    if staged.None? then None
    else MergeOutcome(staged.value, folder, zip, archive, assets, theme)
  }

  /** The relative locations a copy walk has merged before step `k`, the root included. */
  function Visited(walk: seq<Path>, k: nat): (v: set<Path>)
    requires k <= |walk|
  {
    {[]} + set i | 0 <= i < k :: walk[i]
  }

  /** The relative locations a removal walk has removed before step `k`. */
  function Removed(walk: seq<Path>, k: nat): (v: set<Path>)
    requires k <= |walk|
  {
    set i | 0 <= i < k :: walk[i]
  }

  /** A walk found after creating `d` outside `root` is a walk of the tree before. */
  lemma WalkBeforeMkdir(fs: FileMap, root: Path, d: Path, walk: seq<Path>)
    requires !IsPrefix(root, d) && IsSelfFirstWalk(fs[d := Dir], root, walk)
    ensures IsSelfFirstWalk(fs, root, walk)
  {
    forall i | 0 <= i < |walk|
      ensures root + walk[i] in fs
    {
      assert IsPrefix(root, root + walk[i]);
    }
  }

  /** Every location a copy walk has visited is a source entry. */
  lemma VisitedInSource(fs0: FileMap, src: Path, walk: seq<Path>, k: nat)
    requires IsDirIn(fs0, src) && Enumerates(fs0, src, walk) && k <= |walk|
    ensures forall x | x in Visited(walk, k) :: src + x in fs0
  {
    assert src + [] == src;
  }

  /** Before its walk, recursiveCopy has merged the source root: it made a missing destination. */
  lemma CopyStart(fs0: FileMap, src: Path, dst: Path, walk: seq<Path>)
    requires Mergeable(fs0, src, dst)
    ensures forall x | x in Visited(walk, 0) :: src + x in fs0
    ensures MergeDone(fs0, src, dst, Visited(walk, 0)) == if dst in fs0 then fs0 else fs0[dst := Dir]
  {
    assert src + [] == src && dst + [] == dst;
    assert Visited(walk, 0) == {} + {[]};
    MergeDoneNone(fs0, src, dst);
    MergeDoneStep(fs0, src, dst, {}, []);
    if dst in fs0 {
      UpdateSame(fs0, dst);
    }
  }

  /** After the whole walk, recursiveCopy has merged every entry of the source tree. */
  lemma CopyEnd(fs0: FileMap, src: Path, dst: Path, walk: seq<Path>)
    requires IsDirIn(fs0, src) && Enumerates(fs0, src, walk)
    ensures forall x | x in Visited(walk, |walk|) :: src + x in fs0
    ensures MergeDone(fs0, src, dst, Visited(walk, |walk|)) == MergeCopy(fs0, src, dst)
  {
    VisitedInSource(fs0, src, walk, |walk|);
    forall x | x in Rel(fs0, src)
      ensures x in Visited(walk, |walk|)
    {
      if x != [] {
        assert IsPrefix(src, src + x) && (src + x)[|src|..] == x;
        var j :| 0 <= j < |walk| && walk[j] == x;
      }
    }
    assert Visited(walk, |walk|) == Rel(fs0, src);
  }

  /** Step `k` of recursiveCopy: its source entry is as it was, its counterpart untouched so far,
      the counterpart's parent a directory, and the step merges exactly that one entry. */
  lemma CopyStep(fs0: FileMap, src: Path, dst: Path, walk: seq<Path>, k: nat)
    requires WellFormed(fs0) && Mergeable(fs0, src, dst) && IsSelfFirstWalk(fs0, src, walk)
    requires k < |walk|
    ensures forall x | x in Visited(walk, k + 1) :: src + x in fs0
    ensures var cur := MergeDone(fs0, src, dst, Visited(walk, k));
            var x := walk[k];
            && x != [] && AllNames(x)
            && (dst + x in cur <==> dst + x in fs0)
            && (dst + x in fs0 ==> cur[dst + x] == fs0[dst + x])
            && src + x in cur && cur[src + x] == fs0[src + x]
            && IsDirIn(cur, Parent(dst + x))
            && src + x != dst + x
            && (cur[src + x].File? && dst + x in cur ==> cur[dst + x].File?)
            && MergeDone(fs0, src, dst, Visited(walk, k + 1)) == cur[dst + x := MergedNode(cur, src + x, dst + x)]
  {
    VisitedInSource(fs0, src, walk, k);
    VisitedInSource(fs0, src, walk, k + 1);
    AllNamesConcat(src, walk[k]);
    CounterpartUntouched(fs0, src, dst, walk, k);
    CounterpartParentReady(fs0, src, dst, walk, k);
    MergeDoneStep(fs0, src, dst, Visited(walk, k), walk[k]);
    assert Visited(walk, k) + {walk[k]} == Visited(walk, k + 1);
  }

  lemma CounterpartUntouched(fs0: FileMap, src: Path, dst: Path, walk: seq<Path>, k: nat)
    requires Mergeable(fs0, src, dst) && IsSelfFirstWalk(fs0, src, walk) && k < |walk|
    requires forall x | x in Visited(walk, k) :: src + x in fs0
    ensures var cur := MergeDone(fs0, src, dst, Visited(walk, k));
            var x := walk[k];
            && (dst + x in cur <==> dst + x in fs0)
            && (dst + x in fs0 ==> cur[dst + x] == fs0[dst + x])
            && src + x in cur && cur[src + x] == fs0[src + x]
  {
    var x := walk[k];
    assert x !in Visited(walk, k);
    assert (dst + x)[..|dst|] == dst && (dst + x)[|dst|..] == x;
    assert !IsPrefix(dst, src + x) by {
      if IsPrefix(dst, src + x) {
        PrefixesComparable(src, dst, src + x);
      }
    }
  }

  lemma CounterpartParentReady(fs0: FileMap, src: Path, dst: Path, walk: seq<Path>, k: nat)
    requires WellFormed(fs0) && Mergeable(fs0, src, dst) && IsSelfFirstWalk(fs0, src, walk) && k < |walk|
    requires forall x | x in Visited(walk, k) :: src + x in fs0
    ensures IsDirIn(MergeDone(fs0, src, dst, Visited(walk, k)), Parent(dst + walk[k]))
  {
    var x := walk[k];
    var px := Parent(x);
    assert Parent(dst + x) == dst + px;
    assert Parent(src + x) == src + px;
    ParentVisited(fs0, src, walk, k);
    assert IsPrefix(src, src + px) && (src + px)[|src|..] == px;
    MergedDirIsDir(fs0, src, dst, Visited(walk, k), px);
  }

  /** The parent of a walk entry comes earlier in a self-first walk, or is the root. */
  lemma ParentVisited(fs0: FileMap, src: Path, walk: seq<Path>, k: nat)
    requires WellFormed(fs0) && IsSelfFirstWalk(fs0, src, walk) && k < |walk|
    ensures Parent(walk[k]) in Visited(walk, k)
  {
    var px := Parent(walk[k]);
    if px != [] {
      assert Parent(src + walk[k]) == src + px;
      var p := src + px;
      assert IsPrefix(src, p) && p != src && p[|src|..] == px;
      var j :| 0 <= j < |walk| && walk[j] == px;
    }
  }

  /** A merged source directory leaves a directory at its counterpart. */
  lemma MergedDirIsDir(fs0: FileMap, src: Path, dst: Path, done: set<Path>, x: Path)
    requires forall y | y in done :: src + y in fs0
    requires x in done && fs0[src + x].Dir? && (dst + x in fs0 ==> fs0[dst + x].Dir?)
    ensures IsDirIn(MergeDone(fs0, src, dst, done), dst + x)
  {
    assert (dst + x)[..|dst|] == dst && (dst + x)[|dst|..] == x;
  }

  /** What step `k` of removeDirectory finds: its entry as it was and, for a directory,
      every child already gone. */
  lemma RemoveStepReady(fs0: FileMap, root: Path, walk: seq<Path>, k: nat)
    requires WellFormed(fs0) && IsChildFirstWalk(fs0, root, walk) && k < |walk|
    ensures var cur := RemovedDone(fs0, root, Removed(walk, k));
            var item := root + walk[k];
            && item != [] && item in cur && cur[item] == fs0[item]
            && (fs0[item].Dir? ==> IsEmptyDir(cur, item))
  {
    var x := walk[k];
    var item := root + x;
    assert item[..|root|] == root && item[|root|..] == x;
    assert x !in Removed(walk, k);
    ChildrenRemoved(fs0, root, walk, k);
  }

  /** In a child-first walk, every child of step `k`'s entry was removed at an earlier step. */
  lemma ChildrenRemoved(fs0: FileMap, root: Path, walk: seq<Path>, k: nat)
    requires WellFormed(fs0) && IsChildFirstWalk(fs0, root, walk) && k < |walk|
    ensures var cur := RemovedDone(fs0, root, Removed(walk, k));
            forall q | q in cur && q != [] :: Parent(q) != root + walk[k]
  {
    var cur := RemovedDone(fs0, root, Removed(walk, k));
    var item := root + walk[k];
    forall q | q in cur && q != []
      ensures Parent(q) != item
    {
      ChildRemovedBefore(fs0, root, walk, k, q);
    }
  }

  /** A child of step `k`'s entry comes earlier in a child-first walk, so it is gone by step `k`. */
  lemma ChildRemovedBefore(fs0: FileMap, root: Path, walk: seq<Path>, k: nat, q: Path)
    requires IsChildFirstWalk(fs0, root, walk) && k < |walk| && q in fs0 && q != []
    ensures Parent(q) == root + walk[k] ==> q !in RemovedDone(fs0, root, Removed(walk, k))
  {
    if Parent(q) == root + walk[k] {
      assert q[..|root|] == root;
      var c := q[|root|..];
      assert c in walk;
      var j :| 0 <= j < |walk| && walk[j] == c;
      assert Parent(c) == walk[k];
      assert c in Removed(walk, k);
    }
  }

  /** Once every entry below `root` is removed, `root` is an empty directory whose removal
      leaves exactly the filesystem without the tree. */
  lemma RemoveLastReady(fs0: FileMap, root: Path, walk: seq<Path>)
    requires WellFormed(fs0) && IsDirIn(fs0, root) && IsChildFirstWalk(fs0, root, walk)
    ensures var cur := RemovedDone(fs0, root, Removed(walk, |walk|));
            && IsEmptyDir(cur, root)
            && cur - {root} == RemoveTree(fs0, root)
  {
    WalkRemovesAll(fs0, root, walk);
    RemovedAllIsTree(fs0, root, Removed(walk, |walk|));
    TreeAndRoot(fs0, root);
  }

  /** The filesystem without the tree at `root`, but with `root` itself, holds `root` as an
      empty directory. */
  lemma TreeAndRoot(fs0: FileMap, root: Path)
    requires IsDirIn(fs0, root)
    ensures var tree := RemoveTree(fs0, root);
            && IsEmptyDir(tree[root := fs0[root]], root)
            && tree[root := fs0[root]] - {root} == tree
  {
    var tree := RemoveTree(fs0, root);
    assert IsPrefix(root, root);
    assert tree[root := fs0[root]] - {root} == tree;
    forall q | q in tree[root := fs0[root]] && q != []
      ensures Parent(q) != root
    {
    }
  }

  /** A child-first walk of `root` lists every entry strictly below it and never `root` itself. */
  lemma WalkRemovesAll(fs0: FileMap, root: Path, walk: seq<Path>)
    requires IsChildFirstWalk(fs0, root, walk)
    ensures [] !in Removed(walk, |walk|)
    ensures forall q | q in fs0 && IsPrefix(root, q) && q != root :: q[|root|..] in Removed(walk, |walk|)
  {
    forall q | q in fs0 && IsPrefix(root, q) && q != root
      ensures q[|root|..] in Removed(walk, |walk|)
    {
      var j :| 0 <= j < |walk| && walk[j] == q[|root|..];
    }
  }

  /** Removing every entry strictly below `root` leaves the filesystem without the tree, and `root`. */
  lemma RemovedAllIsTree(fs0: FileMap, root: Path, done: set<Path>)
    requires root in fs0 && [] !in done
    requires forall q | q in fs0 && IsPrefix(root, q) && q != root :: q[|root|..] in done
    ensures RemovedDone(fs0, root, done) == RemoveTree(fs0, root)[root := fs0[root]]
  {
    assert root[|root|..] == [];
    var a, b := RemovedDone(fs0, root, done), RemoveTree(fs0, root)[root := fs0[root]];
    assert a.Keys == b.Keys;
  }

  /** The installer for one theme: where its archive comes from and where its two parts go. */
  class ThemeInstaller {
    const url: string
    const themeName: string
    const themesPath: string
    const assetsPath: string
    /** `themesPath/themeName`: where the views go. */
    const themePath: string := Join(themesPath, themeName)

    constructor (url: string, themeName: string, themesPath: string, assetsPath: string)
      ensures this.url == url && this.themeName == themeName
      ensures this.themesPath == themesPath && this.assetsPath == assetsPath
    {
      this.url := url;
      this.themeName := themeName;
      this.themesPath := themesPath;
      this.assetsPath := assetsPath;
    }

    /** `assetsPath/themeName`: where the assets go; install and uninstall both use it. The
        theme name is resolved from the assets root, so a plain name leads below it. */
    function ThemeAssetsPath(): (p: string)
      ensures Segments(p) == Resolve(Segments(assetsPath), Parts(themeName))
      ensures Plain(themeName) ==> Segments(p) == Segments(assetsPath) + Segments(themeName)
    {
      Join(assetsPath, themeName)
    }

    /** A theme name of `..`, resolved on the string, climbs out of the assets root: the theme's
        assets directory is the root's parent, and the modelled uninstall removes that whole
        directory. */
    lemma ParentThemeName(fs: FileMap, theme: Path)
      requires themeName == ".." && Segments(assetsPath) != []
      requires IsDirIn(fs, Parent(Segments(assetsPath)))
      ensures Segments(ThemeAssetsPath()) == Parent(Segments(assetsPath))
      ensures NothingBelow(UninstallOutcome(fs, Segments(ThemeAssetsPath()), theme), Parent(Segments(assetsPath)))
    {
      PartsOfPart("..");
      assert Parts(themeName) == [".."];
      assert Resolve(Segments(assetsPath), [".."]) == Step(Resolve(Segments(assetsPath), []), "..");
    }

    /** getRandomName, given the ten bytes of the entropy source. */
    function GetRandomName(randomBytes: seq<byte>): (name: string)
      requires |randomBytes| == 10
      ensures |name| == 20 && IsName(name)
      ensures forall i | 0 <= i < |name| :: IsHexChar(name[i])
      ensures Hex2Bin(name) == randomBytes
    {
      HexRoundTrip(randomBytes);
      Bin2Hex(randomBytes)
    }

    /** install: stage, download, extract, merge the assets and the views, delete the download. */
    method Install(fs: FileSystem, randomBytes: seq<byte>, download: seq<byte>, archive: Archive)
      requires fs.Valid() && |randomBytes| == 10
      requires InstallOutcome(fs.entries, Segments(StagingFolder(Bin2Hex(randomBytes))),
                              Segments(StagingZip(Bin2Hex(randomBytes))), download, archive,
                              Segments(ThemeAssetsPath()), Segments(themePath)).Some?
      modifies fs
      ensures fs.Valid()
      ensures fs.entries
           == InstallOutcome(old(fs.entries), Segments(StagingFolder(Bin2Hex(randomBytes))),
                             Segments(StagingZip(Bin2Hex(randomBytes))), download, archive,
                             Segments(ThemeAssetsPath()), Segments(themePath)).value
    {
      var randomName := GetRandomName(randomBytes);
      var randomZip := StagingZip(randomName);
      var randomFolder := StagingFolder(randomName);
      ghost var fs0, folder, zip := fs.entries, Segments(randomFolder), Segments(randomZip);

      fs.Mkdir(Segments(randomFolder));
      CopyFromUrl(fs, download, randomZip);
      var zipRoot := ExtractZipTo(fs, archive, randomZip, randomFolder);
      assert fs.entries == StagingOutcome(fs0, folder, zip, download, archive).value;

      randomFolder := Join(randomFolder, zipRoot);
      SubtreeNames();
      PayloadLocation(StagingFolder(randomName), archive, AssetsDir);
      PayloadLocation(StagingFolder(randomName), archive, ViewsDir);
      ghost var fs3 := fs.entries;
      MergeCopyWellFormed(fs3, Segments(Join(randomFolder, AssetsDir)), Segments(ThemeAssetsPath()));
      RecursiveCopy(fs, Join(randomFolder, AssetsDir), ThemeAssetsPath());
      RecursiveCopy(fs, Join(randomFolder, ViewsDir), themePath);
      fs.Unlink(Segments(randomZip));
      assert fs.entries == MergeOutcome(fs3, folder, zip, archive, Segments(ThemeAssetsPath()), Segments(themePath)).value;
    }

    /** uninstall: remove each of the theme's two directories that exists. */
    method Uninstall(fs: FileSystem)
      requires fs.Valid()
      requires Segments(ThemeAssetsPath()) != [] && Segments(themePath) != []
      modifies fs
      ensures fs.Valid() && fs.entries == UninstallOutcome(old(fs.entries), Segments(ThemeAssetsPath()), Segments(themePath))
    {
      var themeAssetsPath := ThemeAssetsPath();
      var isAssetsDir := fs.IsDir(Segments(themeAssetsPath));
      if isAssetsDir {
        RemoveDirectory(fs, themeAssetsPath);
      }

      var isThemeDir := fs.IsDir(Segments(themePath));
      if isThemeDir {
        RemoveDirectory(fs, themePath);
      }
    }

    /** recursiveCopy: merge the tree at `source` into `destination`, parents before children,
        creating missing directories and replacing files. */
    method RecursiveCopy(fs: FileSystem, source: string, destination: string)
      requires fs.Valid() && Mergeable(fs.entries, Segments(source), Segments(destination))
      modifies fs
      ensures fs.Valid()
      ensures fs.entries == MergeCopy(old(fs.entries), Segments(source), Segments(destination))
    {
      var src, dst := Segments(source), Segments(destination);
      ghost var fs0 := fs.entries;
      var present := fs.Exists(dst);
      if !present {
        fs.Mkdir(dst);
      }

      var walk := fs.SelfFirstWalk(src);
      if !present {
        WalkBeforeMkdir(fs0, src, dst, walk);
      }
      CopyStart(fs0, src, dst, walk);
      var k := 0;
      while k < |walk|
        invariant fs.Valid() && 0 <= k <= |walk|
        invariant fs.entries == MergeDone(fs0, src, dst, Visited(walk, k))
      {
        CopyStep(fs0, src, dst, walk, k);
        var subPathName := SubPathName(walk[k]);
        CopyEntry(fs, Join(source, subPathName), Join(destination, subPathName));
        k := k + 1;
      }
      CopyEnd(fs0, src, dst, walk);
    }

    /** One step of recursiveCopy's loop: the entry `pathName` of the source tree merged into
        `path`, its counterpart below the destination. */
    method CopyEntry(fs: FileSystem, pathName: string, path: string)
      requires fs.Valid() && Segments(pathName) in fs.entries && Segments(pathName) != Segments(path)
      requires Segments(path) != [] && IsDirIn(fs.entries, Parent(Segments(path)))
      requires fs.entries[Segments(pathName)].File? && Segments(path) in fs.entries
               ==> fs.entries[Segments(path)].File?
      modifies fs
      ensures fs.Valid()
      ensures fs.entries
           == old(fs.entries)[Segments(path) := MergedNode(old(fs.entries), Segments(pathName), Segments(path))]
    {
      var present := fs.Exists(Segments(path));
      var isDir := fs.IsDir(Segments(pathName));
      ghost var cur := fs.entries;
      if isDir {
        if !present {
          fs.Mkdir(Segments(path));
        } else {
          UpdateSame(cur, Segments(path));
        }
      } else {
        if present {
          fs.Unlink(Segments(path));
          RemoveThenUpdate(cur, Segments(path), cur[Segments(pathName)]);
        }
        fs.Copy(Segments(pathName), Segments(path));
      }
    }

    /** removeDirectory: delete everything below `path`, children before parents, then `path`. */
    method RemoveDirectory(fs: FileSystem, path: string)
      requires fs.Valid() && Segments(path) != [] && IsDirIn(fs.entries, Segments(path))
      modifies fs
      ensures fs.Valid() && fs.entries == RemoveTree(old(fs.entries), Segments(path))
    {
      var root := Segments(path);
      ghost var fs0 := fs.entries;
      var walk := fs.ChildFirstWalk(root);
      assert fs.entries == RemovedDone(fs0, root, Removed(walk, 0));
      var k := 0;
      while k < |walk|
        invariant fs.Valid() && 0 <= k <= |walk|
        invariant fs.entries == RemovedDone(fs0, root, Removed(walk, k))
      {
        RemoveStepReady(fs0, root, walk, k);
        var item := root + walk[k];
        var isDir := fs.IsDir(item);
        if isDir {
          fs.Rmdir(item);
        } else {
          fs.Unlink(item);
        }
        RemovedDoneStep(fs0, root, Removed(walk, k), walk[k]);
        assert Removed(walk, k) + {walk[k]} == Removed(walk, k + 1);
        k := k + 1;
      }
      RemoveLastReady(fs0, root, walk);
      fs.Rmdir(root);
    }

    /** copyFromUrl, given the bytes the URL served: writes them to `filename`. */
    method CopyFromUrl(fs: FileSystem, contents: seq<byte>, filename: string)
      requires fs.Valid() && Segments(filename) != []
      requires IsDirIn(fs.entries, Parent(Segments(filename))) && !IsDirIn(fs.entries, Segments(filename))
      modifies fs
      ensures fs.Valid() && fs.entries == old(fs.entries)[Segments(filename) := File(contents)]
    {
      fs.PutContents(Segments(filename), contents);
    }

    /** extractZipTo: unpack the archive stored at `filename` into the empty directory
        `destination` and report its root. */
    method ExtractZipTo(fs: FileSystem, archive: Archive, filename: string, destination: string)
      returns (root: string)
      requires fs.Valid() && ValidArchive(archive) && IsFileIn(fs.entries, Segments(filename))
      requires IsEmptyDir(fs.entries, Segments(destination))
      modifies fs
      ensures fs.Valid() && fs.entries == Extract(old(fs.entries), Segments(destination), archive.tree)
      ensures root == ArchiveRoot(archive.names[0])
    {
      var nameIndex0 := archive.names[0];
      root := ArchiveRoot(nameIndex0);
      fs.Unpack(Segments(destination), archive.tree);
    }
  }
}
