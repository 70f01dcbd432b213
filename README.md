# Theme installer, modelled in Dafny

This project models `ThemeInstaller`, the class of phlexus-library-theme that installs a theme
and removes it again. Installing a theme takes these steps:

1. Pick a random staging name in `/tmp`.
2. Download the theme's ZIP archive next to the staging directory.
3. Extract the archive into the staging directory.
4. Work out the archive's root directory.
5. Merge the archive's `assets` subtree into `assetsPath/themeName`.
6. Merge its `views` subtree into `themesPath/themeName`.
7. Delete the download.

Uninstalling removes each of those two directories that exists.

The model is built from six modules:

- **`Paths`** (`paths.dfy`): the installer's path strings and the locations they name.
  - A location (`Path`) is the sequence of directory names from the filesystem root down.
  - `Parts` splits a string on separators and drops empty parts, as `a//b` does.
  - `Segments` follows those parts from the root: `.` stays, `..` goes up to the parent (the
    root is its own parent), and a name goes down. So `a/./b` and `a/x/../b` name `a/b`, and a
    theme name `..` names the parent of the directory it is joined to.
  - `Plain` holds of a string made of names only. Such a string leads downwards from wherever
    it is resolved.
  - `Join` is PHP's `a . DIRECTORY_SEPARATOR . b`.
  - `SubPathName` is a directory iterator's sub-path name.
- **`Bytes`** (`bytes.dfy`): `bin2hex` and its inverse.
- **`FileSystems`** (`filesystem.dfy`): the filesystem as a map from locations to nodes
  (`Dir` or `File(content)`). `WellFormed` holds when the root is a directory and every entry
  sits in a directory.
  - The class `FileSystem` holds that map, and its methods are the PHP primitives the installer
    calls: `file_exists`, `is_dir`, `mkdir`, `unlink`, `copy`, `rmdir`, `file_put_contents`
    and `ZipArchive::extractTo`.
  - Each primitive's precondition is what that primitive needs to succeed, with one exception.
    `Unpack` also requires an empty destination. `extractTo` does not need one, but the model
    calls `Unpack` only at its one call site, the freshly created staging directory.
  - `SelfFirstWalk` and `ChildFirstWalk` model the two `RecursiveIteratorIterator` orders. Each
    returns the relative locations below a directory, in an order proved to satisfy the
    iterator's promise.
- **`TreeOps`** (`treeops.dfy`): what `recursiveCopy` and `removeDirectory` do to a filesystem,
  stated on values.
  - `MergeCopy` and `RemoveTree` describe the end result.
  - Their well-formedness, idempotence and frame properties are proved here.
- **`Theme`** (`theme.dfy`): the installer itself.
  - The pure parts are functions: the archive root, the staging names, the two target paths,
    and the install and uninstall outcomes.
  - The class `ThemeInstaller` has `Install`, `Uninstall`, `RecursiveCopy`, `RemoveDirectory`,
    `CopyFromUrl` and `ExtractZipTo` as methods over a `FileSystem`.
  - `RecursiveCopy` and `RemoveDirectory` keep the source's `foreach` loops. Their invariants
    tie the filesystem after `k` steps to the specification functions.
- **`InstallProperties`** (`install_props.dfy`): what an install achieves as a whole, and how
  uninstall undoes it.

The download, the archive's contents and the random bytes are parameters. `InstallOutcome` is
the filesystem after install, or `None` when a step of install would fail. `Install` requires
`Some` and ends in exactly that filesystem.

## Model

| member | source | states |
|---|---|---|
| Paths.Segments | src/ThemeInstaller.php:113-118 | the location `is_dir` and the other primitives resolve a string to is a sequence of names; for a plain string it is the string's parts |
| Paths.Join | src/ThemeInstaller.php:63 | the joined string's parts are the first's followed by the second's, so it names the second string resolved from the first's location; for a plain second string, the first's location followed by the second's names |
| Paths.SubPathName | src/ThemeInstaller.php:132 | the sub-path name of an entry names exactly that entry's location relative to the walked directory |
| Bytes.Bin2Hex | src/ThemeInstaller.php:179 | bin2hex renders n bytes as 2n lower-case hexadecimal digits |
| Bytes.HexRoundTrip | src/ThemeInstaller.php:179 | decoding the rendered digits gives back the bytes |
| Bytes.Bin2HexInjective | src/ThemeInstaller.php:179 | different random bytes give different staging names |
| Theme.ThemeInstaller.GetRandomName | src/ThemeInstaller.php:177-180 | the name for ten random bytes is 20 hexadecimal digits, a single path name, and decodes to those bytes |
| Theme.ThemeInstaller.constructor | src/ThemeInstaller.php:60-67 | the installer keeps the url, theme name, themes path and assets path it is given |
| Theme.ThemeInstaller.ThemeAssetsPath | src/ThemeInstaller.php:113 | the assets target `assetsPath/themeName` is the theme name resolved from the assets root; a plain theme name leads below the root |
| Theme.ThemeInstaller.ParentThemeName | src/ThemeInstaller.php:113-116 | with the theme name `..`, the model's lexical resolution makes the assets target the assets root's parent, and the modelled uninstall then leaves nothing at or below that parent |
| Theme.TmpEntry | src/ThemeInstaller.php:75-76 | `/tmp/` followed by an entry is that string; on its own `/tmp/` names the temporary directory, and with a single name it names that entry of it |
| Theme.StagingFolder | src/ThemeInstaller.php:76 | for a random name, `/tmp/<name>` is the entry `name` of `/tmp` |
| Theme.StagingZip | src/ThemeInstaller.php:75 | for a random name, `/tmp/<name>.zip` is the entry `<name>.zip` of `/tmp` |
| Theme.ArchiveRoot | src/ThemeInstaller.php:203-204 | the root is empty when entry 0 is named `assets`, and is entry 0's name otherwise |
| Theme.PayloadDir | src/ThemeInstaller.php:82-96 | the subtree install merges lies at `<sub>` in the archive when entry 0 is `assets`, and at `<entry 0>/<sub>` otherwise |
| Theme.PayloadSource | src/ThemeInstaller.php:82-96 | the location install reads a subtree from; for a plain root it is the subtree's place in the archive, below the staging directory |
| Theme.PayloadLocation | src/ThemeInstaller.php:82-96 | `<staging>/<root>/<sub>`, as install composes it, names the payload source: the root's parts resolved from the staging directory, then the subtree |
| Theme.StagingOutcome | src/ThemeInstaller.php:74-81 | the filesystem after mkdir, the download and extraction, or None when one of them fails; a result means the archive has a first entry and a proper tree |
| Theme.MergeOutcome | src/ThemeInstaller.php:82-100 | the filesystem after the assets merge, the views merge and the unlink, or None when a merge is not `Mergeable` or the download is no longer a file |
| Theme.InstallOutcome | src/ThemeInstaller.php:72-101 | the filesystem after the whole install: the staging outcome followed by the merge outcome, None when a step fails or a merge lies outside the modelled cases |
| Theme.UninstallOutcome | src/ThemeInstaller.php:111-121 | with neither target present nothing changes; afterwards neither target is a directory, nothing is left below a removed one, and only entries below a removed target are gone |
| Theme.ThemeInstaller.Uninstall | src/ThemeInstaller.php:111-121 | uninstall on a well-formed filesystem leaves exactly the uninstall outcome, still well-formed |
| Theme.ThemeInstaller.Install | src/ThemeInstaller.php:72-101 | when every step can be carried out, install leaves exactly the install outcome, still well-formed |
| Theme.ThemeInstaller.RecursiveCopy | src/ThemeInstaller.php:123-149 | the loop over the self-first walk leaves exactly the merge of the source into the destination, well-formed at every step |
| Theme.ThemeInstaller.CopyEntry | src/ThemeInstaller.php:132-147 | one loop step puts at the counterpart the source file, or the directory already there, or a new directory, and changes nothing else |
| Theme.ThemeInstaller.RemoveDirectory | src/ThemeInstaller.php:159-172 | the child-first loop and the final rmdir leave exactly the filesystem without the tree |
| Theme.ThemeInstaller.CopyFromUrl | src/ThemeInstaller.php:186-191 | the served bytes are written to the download file, creating or overwriting it |
| Theme.ThemeInstaller.ExtractZipTo | src/ThemeInstaller.php:198-210 | the archive's tree is unpacked into the empty staging directory and the root selected from entry 0 is returned |
| Theme.CopyStart | src/ThemeInstaller.php:125-127 | before the walk, a missing destination has been created and an existing one is left as it was |
| Theme.CopyStep | src/ThemeInstaller.php:131-147 | at each step the source entry is as it was, its counterpart is untouched so far, the counterpart's parent is already a directory, and a source file never meets a directory |
| Theme.CopyEnd | src/ThemeInstaller.php:129-131 | once the walk is done, every entry of the source tree has been merged |
| Theme.RemoveStepReady | src/ThemeInstaller.php:163-168 | each entry the walk reaches is still as it was, and each directory it reaches is already empty |
| Theme.RemoveLastReady | src/ThemeInstaller.php:171 | after the walk the root is an empty directory, and removing it leaves the filesystem without the tree |
| Theme.WalkBeforeMkdir | src/ThemeInstaller.php:125-130 | creating the destination outside the source does not change the source walk |
| TreeOps.Mergeable | src/ThemeInstaller.php:123-147 | when recursiveCopy runs to the end without a PHP failure: source and destination apart, the source a directory, a missing destination's parent a directory, no source file meeting a directory, no source directory with children meeting a file |
| TreeOps.MergedNode | src/ThemeInstaller.php:135-147 | the node one loop step leaves at the counterpart: the source file, or the entry already there for a directory, or a new directory |
| TreeOps.CopiedNode | src/ThemeInstaller.php:132-147 | the node at the counterpart `destination/<sub-path name>` of the source entry at that sub-path |
| TreeOps.MergeDone | src/ThemeInstaller.php:131-148 | the filesystem once the walk has merged the entries at the given relative locations: their counterparts hold the copied nodes, everything else is unchanged |
| TreeOps.MergeCopy | src/ThemeInstaller.php:123-149 | every source file is at its counterpart, replacing any file there; every source directory has a counterpart, the entry already there or else a new directory; every other entry is unchanged; nothing else appears |
| TreeOps.MergeDoneStep | src/ThemeInstaller.php:131-147 | merging one more source entry changes exactly its counterpart |
| TreeOps.SourceUntouched | src/ThemeInstaller.php:131-148 | a merge into a destination apart from the source leaves the source tree as it was |
| TreeOps.MergeCopyWellFormed | src/ThemeInstaller.php:135-139 | merging keeps a well-formed filesystem well-formed |
| TreeOps.MergeCopyIdempotent | src/ThemeInstaller.php:123-149 | running the same merge a second time gives the filesystem the first run left |
| TreeOps.MergeCopyStaysMergeable | src/ThemeInstaller.php:123-149 | after a merge the same merge can run again without failing |
| TreeOps.RemovedDone | src/ThemeInstaller.php:163-169 | the filesystem once the walk has removed the entries at the given relative locations below the root, and nothing else |
| TreeOps.RemoveTree | src/ThemeInstaller.php:159-172 | nothing is left at or below the removed directory and every entry outside it is unchanged |
| TreeOps.RemovedDoneStep | src/ThemeInstaller.php:163-169 | removing one more walk entry removes exactly that entry |
| TreeOps.RemoveTreeWellFormed | src/ThemeInstaller.php:159-172 | removing a tree keeps the filesystem well-formed |
| FileSystems.Extract | src/ThemeInstaller.php:206 | every archive entry lands below the destination, every other entry is unchanged, and nothing else appears |
| FileSystems.ExtractWellFormed | src/ThemeInstaller.php:206 | extracting a proper relative tree into an empty directory keeps the filesystem well-formed |
| FileSystems.AddWellFormed | src/ThemeInstaller.php:78 | creating an entry in an existing directory keeps the filesystem well-formed |
| FileSystems.RemoveFileWellFormed | src/ThemeInstaller.php:100 | unlinking a file keeps the filesystem well-formed |
| FileSystems.FileSystem.SelfFirstWalk | src/ThemeInstaller.php:129-130 | the walk lists every entry below the directory exactly once, each directory before its children |
| FileSystems.FileSystem.ChildFirstWalk | src/ThemeInstaller.php:161-162 | the walk lists every entry below the directory exactly once, each directory after its children |
| FileSystems.FileSystem.Exists | src/ThemeInstaller.php:133 | file_exists reports whether an entry is there |
| FileSystems.FileSystem.IsDir | src/ThemeInstaller.php:114 | is_dir reports whether a directory is there |
| FileSystems.FileSystem.Mkdir | src/ThemeInstaller.php:126 | mkdir adds one directory in an existing directory |
| FileSystems.FileSystem.Unlink | src/ThemeInstaller.php:143 | unlink removes one file |
| FileSystems.FileSystem.Copy | src/ThemeInstaller.php:146 | copy puts the source file's content at the target, which is not a directory |
| FileSystems.FileSystem.Rmdir | src/ThemeInstaller.php:165 | rmdir removes one empty directory |
| FileSystems.FileSystem.PutContents | src/ThemeInstaller.php:190 | file_put_contents creates or overwrites one file in an existing directory |
| FileSystems.FileSystem.Unpack | src/ThemeInstaller.php:206 | extractTo writes the archive's tree into an empty directory |
| InstallProperties.StagingInTmp | src/ThemeInstaller.php:75-76 | the staging directory and the download are two different entries of `/tmp` |
| InstallProperties.InstallStages | src/ThemeInstaller.php:72-101 | a successful install runs its steps in order: mkdir, download, extract, the assets merge, the views merge, unlink |
| InstallProperties.InstallWellFormed | src/ThemeInstaller.php:72-101 | install keeps a well-formed filesystem well-formed |
| InstallProperties.InstallKeepsStaging | src/ThemeInstaller.php:76-100 | after every successful install the staging directory is still a directory and the download is gone |
| InstallProperties.InstallFrame | src/ThemeInstaller.php:72-101 | install changes nothing outside the staging directory, the download and the two targets |
| InstallProperties.InstallAdds | src/ThemeInstaller.php:72-101 | every entry install creates lies at or below the staging directory or a target |
| InstallProperties.InstallPlacesAssets | src/ThemeInstaller.php:87-90 | when the staging directory and the download are in `/tmp`, both targets are outside `/tmp` and apart from each other, and entry 0 is plain: every file of the archive's assets subtree ends up, with its content, at its place below the assets target |
| InstallProperties.InstallPlacesViews | src/ThemeInstaller.php:95-98 | when the staging directory and the download are in `/tmp`, both targets are outside `/tmp`, and entry 0 is plain: every file of the archive's views subtree ends up, with its content, at its place below the views target |
| InstallProperties.InstallCreatesTargets | src/ThemeInstaller.php:87-98 | when the staging directory and the download are in `/tmp` and both targets are outside `/tmp` and apart from each other: after install both targets are directories, unless one of them was a file before |
| InstallProperties.InstallThenUninstall | src/ThemeInstaller.php:72-121 | on a well-formed filesystem where neither target nor the download exists, with the staging directory and the download in `/tmp` and both targets outside `/tmp` and apart from each other: uninstall after install restores every earlier entry, and what remains besides lies in the staging directory |

## Left out

- The download: `file_get_contents($this->url)` is network I/O. The bytes it returns are a parameter of `Install` and `CopyFromUrl`.
- Theme.ThemeInstaller.CopyFromUrl: does not return the boolean `copyFromUrl` reports, because `install` ignores it and a failed write is a precondition here.
- ZIP decoding: `ZipArchive::open` and `extractTo` belong to a foreign library. An `Archive` is the list of entry names and the tree of relative locations extraction writes.
- The entropy source `openssl_random_pseudo_bytes` is a parameter: the ten bytes `Install` receives. Only their hexadecimal rendering is modelled.
- Warnings and failures of PHP primitives are preconditions, not error paths. `InstallOutcome` is `None` exactly when a step of install would fail or a merge lies outside the modelled cases, and `Install` requires that it is not. The cases are:
  - the staging directory exists already, or `/tmp` is missing (`mkdir`, line 78);
  - the download location is a directory (`file_put_contents`, line 190);
  - the archive has no entries, or its tree is not a proper relative tree (lines 201-206);
  - a merge source is missing or not a directory (line 129). This includes an archive without an `assets` or a `views` subtree; PHP has already created the missing target at line 126 by then;
  - a missing target whose parent is missing (line 126);
  - a target at, inside or containing its merge source. This is excluded rather than a failure: PHP copies entries upward into a target above the source without a warning. See the `Theme.ThemeInstaller.RecursiveCopy` line below;
  - a source file meeting a directory, or a source directory with children meeting a file (lines 138-146);
  - the download no longer a file at the final `unlink` (line 100).

  The partial state PHP leaves behind in these cases is not modelled.
- Theme.ThemeInstaller.Uninstall: requires both targets to name a location below the root. A target that resolves to `/` itself under the model's lexical resolution (a theme name `..` beside a top-level root) is left out.
- Relative paths: `Segments` resolves every string from the filesystem root. PHP resolves a string without a leading `/` from the process's working directory, which the model does not have. The staging paths are absolute; configured roots given as relative strings are read as if the working directory were `/`.
- `..` is resolved on the string. The operating system resolves it directory by directory, so `a/../b` fails there when `a` is missing or a file, and goes elsewhere when `a` is a symbolic link.
- Theme.ThemeInstaller.ParentThemeName: states the model's lexical outcome for a theme name `..`, not what PHP does. Take `assetsPath` `/srv/assets`. When `/srv/assets` is missing, `is_dir('/srv/assets/..')` (line 114) is false and PHP removes nothing, while the model removes `/srv`. When it exists, the child-first walk deletes `/srv/assets` itself. After that, the final `rmdir('/srv/assets/..')` (line 171) cannot resolve and `/srv` stays, and a later entry's `getRealPath()` (lines 165-167) returns `false`.
- InstallProperties.InstallPlacesAssets: proved only for an archive whose entry 0 is plain. A root with a `..` part makes install read its subtrees from outside the extracted archive (`PayloadSource`), so what lands in the targets is then not the archive's content.
- InstallProperties.InstallPlacesViews: proved only for an archive whose entry 0 is plain, for the same reason.
- Theme.ThemeInstaller.RecursiveCopy: requires `Mergeable`, so the model does not capture a merge that fails half way. A destination inside or containing the source, a source file meeting a directory, and a source directory meeting a file are left out.
- Theme.ThemeInstaller.ExtractZipTo: requires a non-empty archive. For an empty one `getNameIndex(0)` returns `false`, which the `string` return type refuses under strict types.
- Disk space, permissions, symbolic links and `getRealPath` resolution are not modelled.
- Directory iteration order: the operating system order of entries is left open. The walks list entries shortest first, and the loops rely only on the proved self-first or child-first property, so any order with that property gives the same result.
- Concurrency: the source has none, and concurrent installs and uninstalls are not modelled.
