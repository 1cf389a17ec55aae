# Namcap shared-library, bytecode-staleness and split-PKGBUILD rules in Dafny

This project models three Namcap rules as pure functions over strings,
sequences, sets and maps, and proves properties of them.

- **`sodepends`** checks shared-library dependencies. The model covers:
  - deriving the library key `soname=version-bits` from a linkage name
    (module `SoKey`);
  - filing `ldconfig -p` entries into the two architecture maps
    (`LibCache`);
  - recording each binary's needed and provided libraries (`ScanLibs`);
  - `finddepends`, which matches recorded library paths against the file
    lists of installed packages (`Resolver`);
  - the classification of the results into info, warning and error records
    (`Reconcile`).
- **`py_mtime`** flags compiled Python files whose source is newer. The model
  covers `_quick_filter`, `_split_all`, `_source_py`, `_mtime_filter`,
  `_try_mtree`, `_try_tar` and the rule's verdict (`PyMtime`, `PosixPath`).
- **`splitpkgbuild`** covers the `package_*` function check and the
  split-`makedepends` coverage check (`SplitPkg`).

Python's `in`, `startswith`, `endswith`, `split` and `join` are written out in
`Strings`. `os.path.split`, `dirname` and `join` are written out in
`PosixPath`. The two regular-expression rewrites of the key and the
`so_end` pattern are written out as hand-made string functions.
`os.path.realpath`, `os.path.abspath` and `Namcap.depends.getcovered` are
function parameters.

Behaviours of the code a reader may not expect, which the model keeps:

- The version of a name with no `.so.` (such as `libfoo.so`) is the whole
  name, because `re.sub(r"^.*\.so\.", "", name)` leaves a name without a
  match unchanged (`SoKey.Version`, `SoKey.UnversionedKeyExample`).
- A needed library found in the per-file override map is not recorded at
  all: the loop reaches `continue` before anything is stored, so a file
  scans as if its overridden libraries were absent
  (`ScanLibs.OverriddenTagIgnored`, `ScanLibs.ScanTagsSkipsOverrides`).
- When several installed packages match a key, each match overwrites the
  owner, so the last one stays. A key can end up in both `libdependlist` and
  `missing_provides` (`Resolver.LastOwnerWins`, `Resolver.KeyInBothMaps`).
- The numeric-suffix check accepts any extension of the library path,
  although the comment at `sodepends.py` lines 108-110 describes only `.N`
  endings. This is reported under Findings. The resolver takes the rule as
  a parameter, so both readings are available.
- A declared `provides` of `libfoo.so` that the scan did not see gives one
  error and also one warning (`Reconcile.UnversionedProvisionExample`).

## Model

| member | source | states |
|---|---|---|
| SoKey.ArchOf | Namcap/rules/sodepends.py:45-50 | a 32-bit binary is looked up in `i686` and a 64-bit binary in `x86-64`, nothing else |
| SoKey.SonameWithoutSo | Namcap/rules/sodepends.py:60 | a name containing no `.so` is its own soname |
| SoKey.SonameCutsAtFirstSo | Namcap/rules/sodepends.py:53 | on a one-line name, the soname is the prefix up to and including the first `.so` |
| SoKey.Version | Namcap/rules/sodepends.py:54 | with no `.so.` in the name, the version is the whole name; the version is never longer than the name |
| SoKey.VersionAfterLastSoDot | Namcap/rules/sodepends.py:61 | on a one-line name, the version is the text after the last `.so.` |
| SoKey.SonameExample | Namcap/rules/sodepends.py:53 | `libfoo.so.1.2.3` and `libfoo.so` both have soname `libfoo.so` |
| SoKey.VersionExample | Namcap/rules/sodepends.py:54 | `libfoo.so.1.2.3` has version `1.2.3` |
| SoKey.UnversionedExample | Namcap/rules/sodepends.py:61 | `libfoo.so` has version `libfoo.so` |
| SoKey.VersionedKeyExample | Namcap/rules/sodepends.py:70 | a 64-bit `libfoo.so.1.2.3` is keyed `libfoo.so=1.2.3-64` |
| SoKey.UnversionedKeyExample | Namcap/rules/sodepends.py:70 | a 32-bit `libfoo.so` is keyed `libfoo.so=libfoo.so-32`: the name stands in for its version |
| LibCache.FillKeys | Namcap/rules/sodepends.py:132-136 | each class gains exactly the names of the lines filed under it; `x86-64` takes the lines whose arch field starts with `libc6,x86-64`, `i686` takes all the others |
| LibCache.FillLastWins | Namcap/rules/sodepends.py:133-136 | the last line for a name in a class decides that name's path |
| LibCache.FillUntouched | Namcap/rules/sodepends.py:132-136 | a name that no line files under a class keeps its earlier entry |
| ScanLibs.NeededPath | Namcap/rules/sodepends.py:65-69 | the recorded path is the cache path for the binary's own class without its leading `/`, or the raw name when the cache has no entry |
| ScanLibs.AddTo | Namcap/rules/sodepends.py:71 | adding to a `defaultdict(set)` adds the value under the key and leaves every other key as it was |
| ScanLibs.ProvidesOnlyFromLibDirs | Namcap/rules/sodepends.py:52 | a file outside `usr/lib` and `usr/lib32` records no provision |
| ScanLibs.ProvidesFromLibDirs | Namcap/rules/sodepends.py:52-55 | a file in a library directory adds exactly the keys of its self-identification tags, each listing the file |
| ScanLibs.ProvidesOnlyThisFile | Namcap/rules/sodepends.py:55 | scanning a file adds no other file name to any provision |
| ScanLibs.NeededKeysSnoc | Namcap/rules/sodepends.py:57-70 | one more tag adds its key to the recorded key set exactly when it is a needed library outside the overrides |
| ScanLibs.ScanTagsDependsKeys | Namcap/rules/sodepends.py:57-70 | `libdepends` gains exactly the keys of the needed libraries that are not in the overrides |
| ScanLibs.ScanTagsNeededPath | Namcap/rules/sodepends.py:65-71 | the last tag recorded for a key decides the key's path, and the file is listed under that path |
| ScanLibs.OverridesAreDropped | Namcap/rules/sodepends.py:62-64 | a file none of whose needed libraries is recorded, every one being overridden, leaves `libdepends` and `liblist` unchanged |
| ScanLibs.OverriddenTagIgnored | Namcap/rules/sodepends.py:62-64 | one more overridden needed library, after any other tags, changes nothing |
| ScanLibs.ScanTagsSkipsOverrides | Namcap/rules/sodepends.py:57-71 | scanning a file that mixes overridden and cache-resolved libraries gives the same maps as scanning it with the overridden ones removed |
| ScanLibs.ScanTagsWellFormed | Namcap/rules/sodepends.py:70-71 | every path recorded in `libdepends` is a `liblist` key |
| ScanLibs.ScanPackageWellFormed | Namcap/rules/sodepends.py:154-168 | after scanning every regular file of the archive, every recorded path is a `liblist` key |
| Resolver.DigitRun | Namcap/rules/sodepends.py:98 | the length of the leading run of digits: all digits before it, none at it |
| Resolver.SoEndMatch | Namcap/rules/sodepends.py:98 | `so_end.match` always returns a match, whatever the text |
| Resolver.LiteralIsPrefix | Namcap/rules/sodepends.py:111 | the condition as written holds exactly when the file path starts with the library path |
| Resolver.AnchoredImpliesLiteral | Namcap/rules/sodepends.py:108-111 | every file the anchored rule accepts is accepted as written |
| Resolver.DotRunCoversIffDotNumeric | Namcap/rules/sodepends.py:98 | the greedy pattern consumes the whole suffix exactly when the suffix is made of `.N` groups |
| Resolver.AnchoredMeansNumericSuffix | Namcap/rules/sodepends.py:108-111 | the anchored rule accepts exactly an equal path or a `.N`-group extension |
| Resolver.LiteralAcceptsNonNumericSuffix | Namcap/rules/sodepends.py:111 | `usr/lib/libgpm.so.1abc` matches `usr/lib/libgpm.so.1` as written but not under the anchored rule |
| Resolver.AnchoredAcceptsVersionedFile | Namcap/rules/sodepends.py:108-110 | `usr/lib/libgpm.so.1.19.0` matches `usr/lib/libgpm.so.1` under both rules |
| Resolver.Override | Namcap/rules/sodepends.py:115-118 | writing one owner for a set of keys sets those keys and keeps every other entry |
| Resolver.AddAll | Namcap/rules/sodepends.py:112 | adding paths to a package's entry leaves every other package's entry as it was |
| Resolver.AbsorbTwice | Namcap/rules/sodepends.py:103-118 | a package's hits from two files combine into one batch |
| Resolver.MatchFilesAbsorbs | Namcap/rules/sodepends.py:103-118 | going through a package's files one by one is the same as taking every key some file hits in one step |
| Resolver.HitKeysSnoc | Namcap/rules/sodepends.py:103-111 | the keys hit by the files plus one are the earlier hits plus that file's hits |
| Resolver.PackageStep | Namcap/rules/sodepends.py:111-118 | after one package, a key it serves is found and names it as owner in `libdependlist` (if it provides the key) or in `missing_provides`; any other key is unchanged |
| Resolver.FoundIffServed | Namcap/rules/sodepends.py:111-113 | a key is found exactly when some package has a `.so` file matching its path |
| Resolver.LastClaimWins | Namcap/rules/sodepends.py:115-118 | the last matching package of a kind names the key's owner in that kind's map |
| Resolver.UnclaimedUnchanged | Namcap/rules/sodepends.py:114-118 | with no matching package of a kind, the key's entry in that map is unchanged |
| Resolver.MatchPackagesConsistent | Namcap/rules/sodepends.py:111-120 | owner maps only hold found keys, found keys are recorded keys, and `dependlist` only holds recorded paths |
| Resolver.ServedPathListed | Namcap/rules/sodepends.py:112 | a package that serves a key lists the key's recorded path in its `dependlist` entry |
| Resolver.FindDepends | Namcap/rules/sodepends.py:84-121 | orphans are exactly the keys no package serves; they are disjoint from both owner maps; every `dependlist` value is a set of recorded paths |
| Resolver.LastOwnerWins | Namcap/rules/sodepends.py:111-118 | the last package that serves a key owns it: in `libdependlist` if it provides the key, otherwise in `missing_provides` |
| Resolver.NoClaimNoOwner | Namcap/rules/sodepends.py:114-118 | a key that no serving package provides is absent from `libdependlist`; likewise for `missing_provides` |
| Resolver.KeyInBothMaps | Namcap/rules/sodepends.py:115-118 | a key served first by a package that provides it and then by one that does not appears in both maps |
| Resolver.FindDependsLoop | Namcap/rules/sodepends.py:102-121 | the nested loops over packages and files compute the same four results as the functional model |
| Reconcile.LevelOf | Namcap/rules/sodepends.py:179-252 | only the without-version records are errors; only the no-package and not-needed/missing records are warnings |
| Reconcile.FilterOwned | Namcap/rules/sodepends.py:175-176 | exactly the entries not owned by the analysed package remain, with their owners |
| Reconcile.Detection | Namcap/rules/sodepends.py:204-226 | a detected key is reported satisfied if it is in `depends`, else optional if it is in `optdepends`, else not included |
| Reconcile.DeclaredChecksSound | Namcap/rules/sodepends.py:228-232 | a declared entry is warned about exactly when it contains `.so` and was not detected, and is an error exactly when it ends in `.so`; nothing else is reported |
| Reconcile.UnversionedEntries | Namcap/rules/sodepends.py:231-232 | the entries ending in `.so`, and only those |
| Reconcile.ErrorsOf | Namcap/rules/sodepends.py:232 | the error records among a list, and only those |
| Reconcile.ErrorsOfAppend | Namcap/rules/sodepends.py:228-252 | the errors of two lists appended are the errors of each, in order |
| Reconcile.DeclaredErrorCount | Namcap/rules/sodepends.py:248-252 | a declared list yields one error per entry ending in `.so` |
| Reconcile.UnversionedProvisionExample | Namcap/rules/sodepends.py:248-252 | an undetected declared provision `libfoo.so` draws one not-seen warning and exactly one error |
| Reconcile.Analyze | Namcap/rules/sodepends.py:175-254 | one warning per orphan; detection and missing-provides records exactly for the keys not owned by the package itself; one link-level record and one reason per `dependlist` package; one provision record per provided key |
| Reconcile.DetectionClassified | Namcap/rules/sodepends.py:204-226 | each detected key not owned by the package gets exactly one of the three records, naming its owner and the files needing it; a self-owned key gets none |
| Reconcile.ProvisionClassified | Namcap/rules/sodepends.py:242-246 | each provided key gets one record listing its providing files, the satisfied one exactly when `provides` declares the key |
| Reconcile.MissingProvidesNamesOwner | Namcap/rules/sodepends.py:176-191 | a key served without a provision is reported with its last serving package and the files needing it, unless that package is the one analysed |
| Reconcile.LinkLevelRecords | Namcap/rules/sodepends.py:194-201 | each `dependlist` package gets a link-level record with its library paths and a reason naming them and exactly the files needing one of them |
| Reconcile.BySightLeavesOutSelf | Namcap/rules/sodepends.py:234-239 | the suggested `depends` line lists every detected key and every missing-provides owner other than the package itself |
| Reconcile.ChecksComeFromDeclared | Namcap/rules/sodepends.py:228-252 | every declared-list warning or error names an entry of that list |
| Reconcile.SharedLibs | Namcap/rules/sodepends.py:143-254 | across scan, resolution and reporting, orphan warnings and detection records concern only recorded keys and never the same key |
| Reconcile.OrphanWarningNamesPath | Namcap/rules/sodepends.py:179-184 | an orphan's warning names its recorded path and the files listed as needing it |
| PyMtime.AnyEndsWith | Namcap/rules/py_mtime.py:17-19 | true exactly when some name ends with the suffix |
| PyMtime.QuickFilter | Namcap/rules/py_mtime.py:13-24 | an empty list is skipped; otherwise the package is checked exactly when it has a `.py` name and a `.pyc` or `.pyo` name |
| PyMtime.DropTag | Namcap/rules/py_mtime.py:88-90 | removing the tag raises `IndexError` exactly when the name has no dot |
| PyMtime.SourcePy | Namcap/rules/py_mtime.py:74-91 | a path that is not compiled has no source; without `__pycache__` the source is the path minus its last character; otherwise the split components decide |
| PyMtime.SourceOfCachedFile | Namcap/rules/py_mtime.py:83-91 | `dir/__pycache__/mod.tag.pyc` and `.pyo` come from `dir/mod.py` |
| PyMtime.NoSourceOutsideCacheDir | Namcap/rules/py_mtime.py:83-85 | a compiled file `top/__pycache__/parent/name` has no source when `parent` is not `__pycache__`: only the directly enclosing directory counts |
| PyMtime.FieldsOfCacheName | Namcap/rules/py_mtime.py:87-90 | `mod.tag.py` splits into three fields and joins back as `mod.py` without its tag |
| PyMtime.FromPairs | Namcap/rules/py_mtime.py:29 | the dictionary holds exactly the given names, each once |
| PyMtime.FromPairsLastWins | Namcap/rules/py_mtime.py:29 | a repeated name takes its last value |
| PyMtime.Timed | Namcap/rules/py_mtime.py:34 | the manifest stamps are exactly the entries with a time |
| PyMtime.MtimeScanMeans | Namcap/rules/py_mtime.py:94-106 | the flagged names are exactly the sources of compiled keys that are present with a strictly later time; `IndexError` escapes exactly when some compiled key raises it |
| PyMtime.MtimeFilter | Namcap/rules/py_mtime.py:94-106 | the same over the whole dictionary, stated per name |
| PyMtime.MtimeScanWhole | Namcap/rules/py_mtime.py:97 | going over the keys in order covers every name in the dictionary |
| PyMtime.Names | Namcap/rules/py_mtime.py:56 | the member names in archive order |
| PyMtime.TryMtree | Namcap/rules/py_mtime.py:44-51 | no `.MTREE` member gives `None`; a skippable manifest gives good; bad exactly when there is a manifest, it is not skippable and the filter finds a stale source; `IndexError` exactly when the filter over the manifest raises it |
| PyMtime.TryTar | Namcap/rules/py_mtime.py:54-60 | a skippable archive is good; bad exactly when it is not skippable and the member times show a stale source; `IndexError` exactly when the filter over the member times raises it |
| PyMtime.Analyze | Namcap/rules/py_mtime.py:113-122 | `IndexError` escapes exactly when one of the three filters raises it; otherwise a warning exactly when the manifest check fails and the archive check passes, an error exactly when the archive check fails, never both, and one info per stale source without its first character |
| PosixPath.RStripSlashes | Namcap/rules/py_mtime.py:68 | the path minus its trailing slashes, which are all that is removed |
| PosixPath.TailStart | Namcap/rules/py_mtime.py:68 | the tail starts right after the last `/` and holds none |
| PosixPath.Split | Namcap/rules/py_mtime.py:68 | the tail holds no `/`, and the head is shorter than any path that is not all slashes |
| PosixPath.SplitRecombines | Namcap/rules/py_mtime.py:68 | the path is the head, a run of slashes, then the tail |
| PosixPath.DirnameOfChild | Namcap/rules/sodepends.py:52 | the directory of `dir/base` is `dir` |
| PosixPath.SplitAllFuel | Namcap/rules/py_mtime.py:63-71 | the components found by the loop as written hold no `/` |
| PosixPath.SplitAll | Namcap/rules/py_mtime.py:63-71 | the components hold no `/` |
| PosixPath.SplitAllFuelLoopsOnDoubleSlash | Namcap/rules/py_mtime.py:67-68 | the loop as written never ends on `//` |
| PosixPath.SplitAllFuelLoopsUnderDoubleSlashRoot | Namcap/rules/py_mtime.py:67-68 | the loop as written never ends on `//name` |
| PosixPath.SplitAllAgreesOnRelative | Namcap/rules/py_mtime.py:63-71 | on paths not starting with `/`, the corrected loop gives what the loop as written gives, within as many steps as the path has characters |
| PosixPath.SplitAllJoin | Namcap/rules/py_mtime.py:63-71 | for a relative path without empty components, joining the components gives the path back |
| PosixPath.SplitAllChild | Namcap/rules/py_mtime.py:63-71 | appending a component to a path appends it to the split |
| PosixPath.SplitAllUnderDoubleSlashRoot | Namcap/rules/py_mtime.py:63-71 | on `//rest`, where the loop as written never ends, the corrected loop ends and gives the components of `rest` |
| Strings.SplitOn | Namcap/rules/py_mtime.py:88 | at least one field and no separator in any field |
| Strings.JoinSplitRoundTrip | Namcap/rules/py_mtime.py:88-90 | joining the fields of a split gives the string back |
| Strings.SplitJoinRoundTrip | Namcap/rules/py_mtime.py:88-90 | splitting a join of separator-free fields gives the fields back |
| SplitPkg.MissingFunctions | Namcap/rules/splitpkgbuild.py:24-26 | never more reports than subpackages |
| SplitPkg.MissingFunctionsAppend | Namcap/rules/splitpkgbuild.py:24-26 | the reports follow subpackage order: two lists appended give the two report lists appended |
| SplitPkg.MissingFunctionsExactly | Namcap/rules/splitpkgbuild.py:24-26 | a name is reported exactly when some subpackage of that name has no `package_*` function |
| SplitPkg.PackageFunctionsErrors | Namcap/rules/splitpkgbuild.py:20-26 | nothing for an unsplit PKGBUILD; otherwise exactly the subpackages without a function |
| SplitPkg.GlobalDeps | Namcap/rules/splitpkgbuild.py:43-50 | the global set is the names, `depends` and `makedepends` together with what `getcovered` says they cover |
| SplitPkg.LocalDepsExactly | Namcap/rules/splitpkgbuild.py:53-58 | a name is local exactly when some subpackage lists it in `depends` or `makedepends` |
| SplitPkg.LexIrreflexive | Namcap/rules/splitpkgbuild.py:62 | no string sorts before itself |
| SplitPkg.LexTransitive | Namcap/rules/splitpkgbuild.py:62 | string order is transitive |
| SplitPkg.LexTotal | Namcap/rules/splitpkgbuild.py:62 | of two different strings one sorts first |
| SplitPkg.Insert | Namcap/rules/splitpkgbuild.py:62 | inserting keeps the list strictly sorted and adds exactly the new element |
| SplitPkg.SortedList | Namcap/rules/splitpkgbuild.py:61-62 | the sorted list is strictly increasing and holds exactly the set's elements |
| SplitPkg.MakedepsCheck | Namcap/rules/splitpkgbuild.py:39-62 | an error exactly for a split PKGBUILD whose local dependencies are not covered; it lists, sorted and without duplicates, exactly the local names outside the global set |
| SplitPkg.MissingMeans | Namcap/rules/splitpkgbuild.py:43-62 | a name is missing exactly when some subpackage lists it and neither the global lists nor what they cover contain it |

## Left out

- ELF parsing (`is_elf`, `ELFFile`, the dynamic section) is not modelled. A binary is its word size and its already-decoded tags; a file the ELF check rejects is `None`.
- Running `ldconfig -p`, decoding its output and its line regex are left out. The cache is filled from already-split `(name, archinfo, path)` lines.
- `os.path.realpath` and `os.path.abspath` are function parameters, because they depend on the file system.
- The override map is an input per archive member. Building it from `get_rpaths`, `get_runpaths`, `$ORIGIN` and `normpath` calls code outside the three rule files.
- The installed packages are an input sequence. Enumerating them, and the testing-release check (`load_testing_package`, `load_from_db`), need the package databases.
- `Namcap.depends.getcovered` is a function parameter, because it lives outside the three rule files.
- Tar and `.MTREE` reading are left out. The archive is its members' names and times plus the manifest entries with their optional `time`.
- Message rendering is left out. Records keep their arguments as values. Lists printed from sets (`str(list(...))`) are kept as sets, so their order is not modelled.
- The dictionary-driven report sections are maps from the iterated key to its record, so their order is not modelled. The sections driven by the declared lists keep list order.
- The `libdepends-by-namcap-sight` and `libprovides-by-namcap-sight` lines are kept as the sets they are joined from.
- `os.environ["LC_ALL"]` and `pkginfo.detected_deps` bookkeeping are left out. The `libraries-needed` reasons appear as a map from package to record.
- Times are exact `real` numbers. Floating-point rounding of manifest times is not modelled.
- Resolver.DigitRun: `\d` is taken as the ASCII digits `0` to `9`, whereas Python's `\d` also matches other Unicode decimal digits.
- PyMtime.SourcePy: it uses the `_split_all` loop that stops at any root (`PosixPath.SplitAll`), not the loop as written, which never ends on paths starting with `//`. The two agree on relative paths (`PosixPath.SplitAllAgreesOnRelative`). On paths under a `//` root, where the loop as written never ends, the corrected loop gives the components of the rest (`PosixPath.SplitAllUnderDoubleSlashRoot`).
- SoKey.SonameCutsAtFirstSo: it is stated for names without a newline. `Soname` itself models the newline behaviour of `.` in the regular expression.
- SoKey.VersionAfterLastSoDot: it is stated for names without a newline, like the soname lemma.
- Reconcile.Analyze: `str(list(...))` output and the order of messages within a dictionary-driven section are not modelled.
- A subpackage with no `depends` or `makedepends` key is modelled with an empty list. Both read the same in the union.

## Findings

| source | as written | input that shows it | evidently intended | confidence | as-written member | corrected member |
|---|---|---|---|---|---|---|
| Namcap/rules/sodepends.py:98-111 | `so_end.match(rest)` with `so_end = (\.\d+)*` always returns a match, because the pattern can match the empty string. So any file path that merely starts with the library path matches. | `usr/lib/libgpm.so.1abc` against `usr/lib/libgpm.so.1` | the suffix after the library path consists only of `.N` groups to the end (the comment at lines 108-110) | not executed; the pattern semantics are certain | Resolver.LiteralAcceptsNonNumericSuffix | Resolver.AnchoredMeansNumericSuffix |
| Namcap/rules/py_mtime.py:67-68 | `while p2 and p2 != "/"` stops only at an empty head or exactly `/`. `os.path.split("//")` returns `("//", "")`, so the loop never ends once the head is `//`. | `_source_py("//__pycache__/m.cpython-311.pyc")` | stop at any root made of slashes | not executed; archive member names are normally relative, so the input may not arise in practice | PosixPath.SplitAllFuelLoopsUnderDoubleSlashRoot | PosixPath.SplitAll, PosixPath.SplitAllUnderDoubleSlashRoot |
