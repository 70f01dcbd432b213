/** What install achieves as a whole, and how uninstall undoes it. */
module InstallProperties {
  import opened Paths
  import opened Bytes
  import opened FileSystems
  import opened TreeOps
  import opened Theme

  /** A location outside `/tmp`, as a theme's target directories are. */
  predicate OutsideTmp(p: Path) {
    Disjoint(TmpDir, p)
  }

  /** A location at or below `/tmp`, as an install's staging directory and download are. */
  predicate InTmp(p: Path) {
    IsPrefix(TmpDir, p)
  }

  /** The staging directory and the download of an install named `name` are two different
      entries of `/tmp`. */
  lemma StagingInTmp(name: string)
    requires IsName(name)
    ensures Segments(StagingFolder(name)) == TmpDir + [name] && InTmp(Segments(StagingFolder(name)))
    ensures Segments(StagingZip(name)) == TmpDir + [name + ".zip"] && InTmp(Segments(StagingZip(name)))
    ensures Segments(StagingFolder(name)) != Segments(StagingZip(name))
  {
    assert |name + ".zip"| != |name|;
  }

  lemma PrefixTransitive(a: Path, b: Path, c: Path)
    ensures IsPrefix(a, b) && IsPrefix(b, c) ==> IsPrefix(a, c)
  {
    if IsPrefix(a, b) && IsPrefix(b, c) {
      assert c[..|a|] == c[..|b|][..|a|];
    }
  }

  /** Whatever lies below a place outside `/tmp` is apart from whatever lies below a place in it. */
  lemma TmpApart(p: Path, s: Path, c: Path)
    requires OutsideTmp(p) && InTmp(s)
    ensures !IsPrefix(s, p + c) && !IsPrefix(p, s + c)
  {
    var rest := s[|TmpDir|..] + c;
    assert s + c == TmpDir + rest;
    DisjointExtends(p, TmpDir, c);
    DisjointExtends(TmpDir, p, rest);
    PrefixTransitive(TmpDir, s, p + c);
  }

  /** The staging steps of a successful install, and the filesystem they leave. */
  lemma StagingSteps(fs: FileMap, folder: Path, zip: Path, download: seq<byte>, archive: Archive)
    requires StagingOutcome(fs, folder, zip, download, archive).Some?
    ensures var fs2 := fs[folder := Dir][zip := File(download)];
            && folder != [] && AllNames(folder) && folder !in fs && IsDirIn(fs, Parent(folder))
            && zip != [] && AllNames(zip) && zip != folder && IsDirIn(fs[folder := Dir], Parent(zip))
            && IsFileIn(fs2, zip) && IsDirIn(fs2, folder)
            && ValidArchive(archive) && IsEmptyDir(fs2, folder)
            && StagingOutcome(fs, folder, zip, download, archive).value == Extract(fs2, folder, archive.tree)
  {
  }

  /** The merge steps of a successful install, and the filesystems they leave. */
  lemma MergeSteps(fs3: FileMap, folder: Path, zip: Path, archive: Archive, a: Path, t: Path)
    returns (fs4: FileMap, fs5: FileMap)
    requires |archive.names| > 0 && AllNames(folder) && MergeOutcome(fs3, folder, zip, archive, a, t).Some?
    ensures && Mergeable(fs3, PayloadSource(folder, archive, AssetsDir), a)
            && fs4 == MergeCopy(fs3, PayloadSource(folder, archive, AssetsDir), a)
            && Mergeable(fs4, PayloadSource(folder, archive, ViewsDir), t)
            && fs5 == MergeCopy(fs4, PayloadSource(folder, archive, ViewsDir), t)
            && IsFileIn(fs5, zip)
            && MergeOutcome(fs3, folder, zip, archive, a, t).value == fs5 - {zip}
  {
    fs4 := MergeCopy(fs3, PayloadSource(folder, archive, AssetsDir), a);
    fs5 := MergeCopy(fs4, PayloadSource(folder, archive, ViewsDir), t);
  }

  /** The intermediate filesystems of a successful install, one per step. */
  lemma InstallStages(fs: FileMap, folder: Path, zip: Path, download: seq<byte>, archive: Archive, a: Path, t: Path)
    returns (fs3: FileMap, fs4: FileMap, fs5: FileMap)
    requires InstallOutcome(fs, folder, zip, download, archive, a, t).Some?
    ensures var fs2 := fs[folder := Dir][zip := File(download)];
            && folder != [] && AllNames(folder) && folder !in fs && IsDirIn(fs, Parent(folder))
            && zip != folder && IsFileIn(fs2, zip) && IsDirIn(fs2, folder)
            && |archive.names| > 0 && [] !in archive.tree
            && fs3 == Extract(fs2, folder, archive.tree)
    ensures && Disjoint(PayloadSource(folder, archive, AssetsDir), a)
            && IsDirIn(fs3, PayloadSource(folder, archive, AssetsDir))
            && fs4 == MergeCopy(fs3, PayloadSource(folder, archive, AssetsDir), a)
            && Disjoint(PayloadSource(folder, archive, ViewsDir), t)
            && IsDirIn(fs4, PayloadSource(folder, archive, ViewsDir))
            && fs5 == MergeCopy(fs4, PayloadSource(folder, archive, ViewsDir), t)
    ensures && IsFileIn(fs5, zip)
            && InstallOutcome(fs, folder, zip, download, archive, a, t).value == fs5 - {zip}
  {
    StagingSteps(fs, folder, zip, download, archive);
    fs3 := StagingOutcome(fs, folder, zip, download, archive).value;
    fs4, fs5 := MergeSteps(fs3, folder, zip, archive, a, t);
  }

  /** Install keeps the filesystem well-formed. */
  lemma InstallWellFormed(fs: FileMap, folder: Path, zip: Path, download: seq<byte>, archive: Archive, a: Path, t: Path)
    requires WellFormed(fs) && InstallOutcome(fs, folder, zip, download, archive, a, t).Some?
    ensures WellFormed(InstallOutcome(fs, folder, zip, download, archive, a, t).value)
  {
    StagingSteps(fs, folder, zip, download, archive);
    var fs3 := StagingOutcome(fs, folder, zip, download, archive).value;
    var fs4, fs5 := MergeSteps(fs3, folder, zip, archive, a, t);
    var fs2 := fs[folder := Dir][zip := File(download)];
    AddWellFormed(fs, folder, Dir);
    AddWellFormed(fs[folder := Dir], zip, File(download));
    ExtractWellFormed(fs2, folder, archive.tree);
    MergeCopyWellFormed(fs3, PayloadSource(folder, archive, AssetsDir), a);
    MergeCopyWellFormed(fs4, PayloadSource(folder, archive, ViewsDir), t);
    RemoveFileWellFormed(fs5, zip);
  }

  /** Install leaves the staging directory in place and deletes the downloaded archive. */
  lemma InstallKeepsStaging(fs: FileMap, folder: Path, zip: Path, download: seq<byte>, archive: Archive, a: Path, t: Path)
    requires InstallOutcome(fs, folder, zip, download, archive, a, t).Some?
    ensures var r := InstallOutcome(fs, folder, zip, download, archive, a, t).value;
            IsDirIn(r, folder) && zip !in r
  {
    StagingSteps(fs, folder, zip, download, archive);
    var fs3 := StagingOutcome(fs, folder, zip, download, archive).value;
    var fs4, fs5 := MergeSteps(fs3, folder, zip, archive, a, t);
    StagingSurvives(fs[folder := Dir][zip := File(download)], folder, zip, archive.tree, fs3,
                    PayloadSource(folder, archive, AssetsDir), a, fs4,
                    PayloadSource(folder, archive, ViewsDir), t, fs5);
  }

  /** Extraction and the two merges keep the staging directory. */
  lemma StagingSurvives(fs2: FileMap, folder: Path, zip: Path, tree: FileMap, fs3: FileMap,
                        srcA: Path, a: Path, fs4: FileMap, srcV: Path, t: Path, fs5: FileMap)
    requires IsDirIn(fs2, folder) && [] !in tree && fs3 == Extract(fs2, folder, tree) && zip != folder
    requires Mergeable(fs3, srcA, a) && fs4 == MergeCopy(fs3, srcA, a)
    requires Mergeable(fs4, srcV, t) && fs5 == MergeCopy(fs4, srcV, t)
    ensures IsDirIn(fs5 - {zip}, folder) && zip !in fs5 - {zip}
  {
    assert folder[|folder|..] == [];
    MergeKeepsDir(fs3, srcA, a, folder);
    MergeKeepsDir(fs4, srcV, t, folder);
  }

  /** A merge that can run leaves every directory a directory: a source file never meets one,
      and a source directory keeps the entry already there. */
  lemma MergeKeepsDir(fs: FileMap, src: Path, dst: Path, p: Path)
    requires Mergeable(fs, src, dst) && IsDirIn(fs, p)
    ensures IsDirIn(MergeCopy(fs, src, dst), p)
  {
    if IsPrefix(dst, p) && src + p[|dst|..] in fs {
      var x := p[|dst|..];
      assert dst + x == p;
      assert IsPrefix(src, src + x) && (src + x)[|src|..] == x;
    }
  }

  /** Install changes nothing outside the staging directory, the downloaded archive and the
      two target directories. */
  lemma InstallFrame(fs: FileMap, folder: Path, zip: Path, download: seq<byte>, archive: Archive, a: Path, t: Path)
    requires InstallOutcome(fs, folder, zip, download, archive, a, t).Some?
    ensures var r := InstallOutcome(fs, folder, zip, download, archive, a, t).value;
            forall q | q in fs && !IsPrefix(folder, q) && q != zip && !IsPrefix(a, q) && !IsPrefix(t, q) ::
              q in r && r[q] == fs[q]
  {
    var fs3, fs4, fs5 := InstallStages(fs, folder, zip, download, archive, a, t);
    StagesKeep(fs, folder, zip, download, archive.tree, fs3, PayloadSource(folder, archive, AssetsDir), a,
               fs4, PayloadSource(folder, archive, ViewsDir), t, fs5);
  }

  /** The steps of install keep what lies outside the places they write. */
  lemma StagesKeep(fs: FileMap, folder: Path, zip: Path, download: seq<byte>, tree: FileMap, fs3: FileMap,
                   srcA: Path, a: Path, fs4: FileMap, srcV: Path, t: Path, fs5: FileMap)
    requires fs3 == Extract(fs[folder := Dir][zip := File(download)], folder, tree)
    requires fs4 == MergeCopy(fs3, srcA, a) && fs5 == MergeCopy(fs4, srcV, t)
    ensures forall q | q in fs && !IsPrefix(folder, q) && q != zip && !IsPrefix(a, q) && !IsPrefix(t, q) ::
              q in fs5 - {zip} && (fs5 - {zip})[q] == fs[q]
  {
    forall q | q in fs && !IsPrefix(folder, q) && q != zip && !IsPrefix(a, q) && !IsPrefix(t, q)
      ensures q in fs5 - {zip} && (fs5 - {zip})[q] == fs[q]
    {
      StagingKeeps(fs, folder, zip, download, tree, q);
      MergeKeeps(fs3, srcA, a, q);
      MergeKeeps(fs4, srcV, t, q);
    }
  }

  /** Staging and extraction leave alone what is neither the staging directory, nor in it,
      nor the download. */
  lemma StagingKeeps(fs: FileMap, folder: Path, zip: Path, download: seq<byte>, tree: FileMap, q: Path)
    requires q in fs && !IsPrefix(folder, q) && q != zip
    ensures var fs3 := Extract(fs[folder := Dir][zip := File(download)], folder, tree);
            q in fs3 && fs3[q] == fs[q]
  {
    assert IsPrefix(folder, folder);
  }

  /** A merge leaves alone what is not below its destination. */
  lemma MergeKeeps(fs: FileMap, src: Path, dst: Path, q: Path)
    requires q in fs && !IsPrefix(dst, q)
    ensures q in MergeCopy(fs, src, dst) && MergeCopy(fs, src, dst)[q] == fs[q]
  {
  }

  /** Everything install creates lies in the staging directory or in a target directory. */
  lemma InstallAdds(fs: FileMap, folder: Path, zip: Path, download: seq<byte>, archive: Archive, a: Path, t: Path)
    requires InstallOutcome(fs, folder, zip, download, archive, a, t).Some?
    ensures var r := InstallOutcome(fs, folder, zip, download, archive, a, t).value;
            forall q | q in r :: q in fs || IsPrefix(folder, q) || IsPrefix(a, q) || IsPrefix(t, q)
  {
    var fs3, fs4, fs5 := InstallStages(fs, folder, zip, download, archive, a, t);
    StagesAdd(fs, folder, zip, download, archive.tree, fs3, PayloadSource(folder, archive, AssetsDir), a,
              fs4, PayloadSource(folder, archive, ViewsDir), t, fs5);
  }

  /** The steps of install add entries only in the places they write. */
  lemma StagesAdd(fs: FileMap, folder: Path, zip: Path, download: seq<byte>, tree: FileMap, fs3: FileMap,
                  srcA: Path, a: Path, fs4: FileMap, srcV: Path, t: Path, fs5: FileMap)
    requires fs3 == Extract(fs[folder := Dir][zip := File(download)], folder, tree)
    requires fs4 == MergeCopy(fs3, srcA, a) && fs5 == MergeCopy(fs4, srcV, t)
    ensures forall q | q in fs5 - {zip} :: q in fs || IsPrefix(folder, q) || IsPrefix(a, q) || IsPrefix(t, q)
  {
    assert IsPrefix(folder, folder);
  }

  /** Every file of the archive's `views` subtree ends up at its place below the theme's views
      directory, when staging happens in `/tmp` and both targets lie outside it. */
  lemma InstallPlacesViews(fs: FileMap, folder: Path, zip: Path, download: seq<byte>, archive: Archive, a: Path, t: Path)
    requires InTmp(folder) && InTmp(zip) && OutsideTmp(a) && OutsideTmp(t)
    requires |archive.names| > 0 && Plain(archive.names[0])
    requires InstallOutcome(fs, folder, zip, download, archive, a, t).Some?
    ensures var r := InstallOutcome(fs, folder, zip, download, archive, a, t).value;
            var pv := PayloadDir(archive, ViewsDir);
            forall y | pv + y in archive.tree && archive.tree[pv + y].File? ::
              t + y in r && r[t + y] == archive.tree[pv + y]
  {
    var pv := PayloadDir(archive, ViewsDir);
    forall y | pv + y in archive.tree && archive.tree[pv + y].File?
      ensures var r := InstallOutcome(fs, folder, zip, download, archive, a, t).value;
              t + y in r && r[t + y] == archive.tree[pv + y]
    {
      ViewsFilePlaced(fs, folder, zip, download, archive, a, t, y);
    }
  }

  lemma ViewsFilePlaced(fs: FileMap, folder: Path, zip: Path, download: seq<byte>, archive: Archive,
                        a: Path, t: Path, y: Path)
    requires InTmp(folder) && InTmp(zip) && OutsideTmp(a) && OutsideTmp(t)
    requires |archive.names| > 0 && Plain(archive.names[0])
    requires InstallOutcome(fs, folder, zip, download, archive, a, t).Some?
    requires PayloadDir(archive, ViewsDir) + y in archive.tree
    requires archive.tree[PayloadDir(archive, ViewsDir) + y].File?
    ensures var r := InstallOutcome(fs, folder, zip, download, archive, a, t).value;
            t + y in r && r[t + y] == archive.tree[PayloadDir(archive, ViewsDir) + y]
  {
    var fs3, fs4, fs5 := InstallStages(fs, folder, zip, download, archive, a, t);
    ViewsFileStaged(fs, folder, zip, download, archive, a, t, y, fs3, fs4, fs5);
  }

  lemma ViewsFileStaged(fs: FileMap, folder: Path, zip: Path, download: seq<byte>, archive: Archive,
                        a: Path, t: Path, y: Path, fs3: FileMap, fs4: FileMap, fs5: FileMap)
    requires InTmp(folder) && InTmp(zip) && OutsideTmp(a) && OutsideTmp(t) && |archive.names| > 0
    requires fs3 == Extract(fs[folder := Dir][zip := File(download)], folder, archive.tree)
    requires fs4 == MergeCopy(fs3, folder + PayloadDir(archive, AssetsDir), a)
    requires fs5 == MergeCopy(fs4, folder + PayloadDir(archive, ViewsDir), t)
    requires PayloadDir(archive, ViewsDir) + y in archive.tree
    requires archive.tree[PayloadDir(archive, ViewsDir) + y].File?
    ensures t + y in fs5 - {zip} && (fs5 - {zip})[t + y] == archive.tree[PayloadDir(archive, ViewsDir) + y]
  {
    PayloadFileStaged(fs, folder, zip, download, archive, a, fs3, ViewsDir, y);
    PayloadFileMerged(fs4, folder + PayloadDir(archive, ViewsDir), t, y, zip);
  }

  /** Every file of the archive's `assets` subtree ends up at its place below the theme's assets
      directory, when staging happens in `/tmp` and both targets lie outside it and apart from
      each other. */
  lemma InstallPlacesAssets(fs: FileMap, folder: Path, zip: Path, download: seq<byte>, archive: Archive, a: Path, t: Path)
    requires InTmp(folder) && InTmp(zip) && OutsideTmp(a) && OutsideTmp(t) && Disjoint(a, t)
    requires |archive.names| > 0 && Plain(archive.names[0])
    requires InstallOutcome(fs, folder, zip, download, archive, a, t).Some?
    ensures var r := InstallOutcome(fs, folder, zip, download, archive, a, t).value;
            var pa := PayloadDir(archive, AssetsDir);
            forall y | pa + y in archive.tree && archive.tree[pa + y].File? ::
              a + y in r && r[a + y] == archive.tree[pa + y]
  {
    var pa := PayloadDir(archive, AssetsDir);
    forall y | pa + y in archive.tree && archive.tree[pa + y].File?
      ensures var r := InstallOutcome(fs, folder, zip, download, archive, a, t).value;
              a + y in r && r[a + y] == archive.tree[pa + y]
    {
      AssetsFilePlaced(fs, folder, zip, download, archive, a, t, y);
    }
  }

  lemma AssetsFilePlaced(fs: FileMap, folder: Path, zip: Path, download: seq<byte>, archive: Archive,
                         a: Path, t: Path, y: Path)
    requires InTmp(folder) && InTmp(zip) && OutsideTmp(a) && OutsideTmp(t) && Disjoint(a, t)
    requires |archive.names| > 0 && Plain(archive.names[0])
    requires InstallOutcome(fs, folder, zip, download, archive, a, t).Some?
    requires PayloadDir(archive, AssetsDir) + y in archive.tree
    requires archive.tree[PayloadDir(archive, AssetsDir) + y].File?
    ensures var r := InstallOutcome(fs, folder, zip, download, archive, a, t).value;
            a + y in r && r[a + y] == archive.tree[PayloadDir(archive, AssetsDir) + y]
  {
    var fs3, fs4, fs5 := InstallStages(fs, folder, zip, download, archive, a, t);
    AssetsFileStaged(fs, folder, zip, download, archive, a, t, y, fs3, fs4, fs5);
  }

  lemma AssetsFileStaged(fs: FileMap, folder: Path, zip: Path, download: seq<byte>, archive: Archive,
                         a: Path, t: Path, y: Path, fs3: FileMap, fs4: FileMap, fs5: FileMap)
    requires InTmp(folder) && InTmp(zip) && OutsideTmp(a) && OutsideTmp(t) && Disjoint(a, t)
    requires |archive.names| > 0
    requires fs3 == Extract(fs[folder := Dir][zip := File(download)], folder, archive.tree)
    requires fs4 == MergeCopy(fs3, folder + PayloadDir(archive, AssetsDir), a)
    requires fs5 == MergeCopy(fs4, folder + PayloadDir(archive, ViewsDir), t)
    requires PayloadDir(archive, AssetsDir) + y in archive.tree
    requires archive.tree[PayloadDir(archive, AssetsDir) + y].File?
    ensures a + y in fs5 - {zip} && (fs5 - {zip})[a + y] == archive.tree[PayloadDir(archive, AssetsDir) + y]
  {
    PayloadFileStaged(fs, folder, zip, download, archive, a, fs3, AssetsDir, y);
    PayloadFileMerged(fs3, folder + PayloadDir(archive, AssetsDir), a, y, zip);
    AssetsFileKept(fs4, folder + PayloadDir(archive, ViewsDir), a, t, y);
  }

  /** A merged source file lands at its counterpart, which is not the downloaded archive. */
  lemma PayloadFileMerged(fs: FileMap, src: Path, dst: Path, y: Path, zip: Path)
    requires InTmp(zip) && OutsideTmp(dst) && src + y in fs && fs[src + y].File?
    ensures dst + y in MergeCopy(fs, src, dst) && MergeCopy(fs, src, dst)[dst + y] == fs[src + y]
    ensures dst + y != zip
  {
    assert (src + y)[|src|..] == y && IsPrefix(src, src + y);
    TmpApart(dst, zip, y);
    assert IsPrefix(zip, zip);
  }

  /** The views merge leaves the assets directory alone when the two targets are apart. */
  lemma AssetsFileKept(fs: FileMap, src: Path, a: Path, t: Path, y: Path)
    requires Disjoint(a, t) && a + y in fs
    ensures a + y in MergeCopy(fs, src, t) && MergeCopy(fs, src, t)[a + y] == fs[a + y]
  {
    DisjointExtends(a, t, y);
  }

  /** An archive entry of the subtree `sub` is extracted to its place below install's source
      directory for `sub`, and the assets merge leaves it there. */
  lemma PayloadFileStaged(fs: FileMap, folder: Path, zip: Path, download: seq<byte>, archive: Archive,
                          a: Path, fs3: FileMap, sub: string, y: Path)
    requires InTmp(folder) && OutsideTmp(a) && |archive.names| > 0
    requires fs3 == Extract(fs[folder := Dir][zip := File(download)], folder, archive.tree)
    requires PayloadDir(archive, sub) + y in archive.tree
    ensures var src := folder + PayloadDir(archive, sub);
            var fs4 := MergeCopy(fs3, folder + PayloadDir(archive, AssetsDir), a);
            && src + y in fs3 && fs3[src + y] == archive.tree[PayloadDir(archive, sub) + y]
            && src + y in fs4 && fs4[src + y] == fs3[src + y]
  {
    var x := PayloadDir(archive, sub) + y;
    assert folder + PayloadDir(archive, sub) + y == folder + x;
    TmpApart(a, folder, x);
  }

  /** After install both target directories are directories, unless one was a file before. */
  lemma InstallCreatesTargets(fs: FileMap, folder: Path, zip: Path, download: seq<byte>, archive: Archive, a: Path, t: Path)
    requires InTmp(folder) && InTmp(zip) && OutsideTmp(a) && OutsideTmp(t) && Disjoint(a, t)
    requires !IsFileIn(fs, a) && !IsFileIn(fs, t)
    requires InstallOutcome(fs, folder, zip, download, archive, a, t).Some?
    ensures var r := InstallOutcome(fs, folder, zip, download, archive, a, t).value;
            IsDirIn(r, a) && IsDirIn(r, t)
  {
    var fs3, fs4, fs5 := InstallStages(fs, folder, zip, download, archive, a, t);
    TargetCreated(fs, folder, zip, download, archive.tree, fs3, fs4, fs5,
                  PayloadSource(folder, archive, AssetsDir), a, PayloadSource(folder, archive, ViewsDir), t);
  }

  /** The two merges of install leave directories at both targets. */
  lemma TargetCreated(fs: FileMap, folder: Path, zip: Path, download: seq<byte>, tree: FileMap,
                      fs3: FileMap, fs4: FileMap, fs5: FileMap, srcA: Path, a: Path, srcV: Path, t: Path)
    requires InTmp(folder) && InTmp(zip) && OutsideTmp(a) && OutsideTmp(t) && Disjoint(a, t)
    requires !IsFileIn(fs, a) && !IsFileIn(fs, t)
    requires fs3 == Extract(fs[folder := Dir][zip := File(download)], folder, tree)
    requires IsDirIn(fs3, srcA) && fs4 == MergeCopy(fs3, srcA, a)
    requires IsDirIn(fs4, srcV) && fs5 == MergeCopy(fs4, srcV, t)
    ensures IsDirIn(fs5 - {zip}, a) && IsDirIn(fs5 - {zip}, t)
  {
    TargetOutsideStaging(fs, folder, zip, download, tree, fs3, a);
    TargetOutsideStaging(fs, folder, zip, download, tree, fs3, t);
    MergedTargetIsDir(fs3, srcA, a);
    assert !IsPrefix(a, t) && (IsDirIn(fs4, t) || t !in fs4);
    MergedTargetIsDir(fs4, srcV, t);
    assert !IsPrefix(t, a);
    TmpApart(a, zip, []);
    TmpApart(t, zip, []);
    assert zip + [] == zip && IsPrefix(a, a) && IsPrefix(t, t);
  }

  /** A merge leaves a directory at its destination, unless a file was there. */
  lemma MergedTargetIsDir(fs: FileMap, src: Path, dst: Path)
    requires IsDirIn(fs, src) && !IsFileIn(fs, dst)
    ensures IsDirIn(MergeCopy(fs, src, dst), dst)
  {
    assert src[|src|..] == [] && dst + [] == dst && IsPrefix(src, src);
  }

  /** A location outside `/tmp` is extracted over by nothing: it is as before staging. */
  lemma TargetOutsideStaging(fs: FileMap, folder: Path, zip: Path, download: seq<byte>, tree: FileMap,
                             fs3: FileMap, p: Path)
    requires OutsideTmp(p) && InTmp(folder) && InTmp(zip)
    requires fs3 == Extract(fs[folder := Dir][zip := File(download)], folder, tree)
    ensures p in fs3 <==> p in fs
    ensures p in fs ==> fs3[p] == fs[p]
  {
    TmpApart(p, folder, []);
    TmpApart(p, zip, []);
    assert p + [] == p && IsPrefix(zip, zip) && IsPrefix(folder, folder);
  }

  /** Uninstall undoes an install of a theme that was not there before: every entry that existed
      before is back as it was, and what remains besides lies in the staging directory, which
      install never removes. */
  lemma InstallThenUninstall(fs: FileMap, folder: Path, zip: Path, download: seq<byte>, archive: Archive, a: Path, t: Path)
    requires WellFormed(fs) && InTmp(folder) && InTmp(zip)
    requires OutsideTmp(a) && OutsideTmp(t) && Disjoint(a, t)
    requires a !in fs && t !in fs && zip !in fs
    requires InstallOutcome(fs, folder, zip, download, archive, a, t).Some?
    ensures var r := InstallOutcome(fs, folder, zip, download, archive, a, t).value;
            var u := UninstallOutcome(r, a, t);
            && (forall q | q in fs :: q in u && u[q] == fs[q])
            && (forall q | q in u && q !in fs :: IsPrefix(folder, q))
  {
    var fs3, fs4, fs5 := InstallStages(fs, folder, zip, download, archive, a, t);
    InstallFrame(fs, folder, zip, download, archive, a, t);
    InstallAdds(fs, folder, zip, download, archive, a, t);
    InstallCreatesTargets(fs, folder, zip, download, archive, a, t);
    MissingHasNothingBelow(fs, folder);
    MissingHasNothingBelow(fs, a);
    MissingHasNothingBelow(fs, t);
  }
}
