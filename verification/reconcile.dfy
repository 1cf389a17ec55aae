/** The reporting half of `SharedLibsRule.analyze`: the resolver's results
    and the package's declared `depends`, `optdepends` and `provides` become
    info, warning and error records. */
module Reconcile {
  import opened Strings
  import opened LibCache
  import opened ScanLibs
  import opened Resolver

  datatype Level = Info | Warning | Error

  /** The two declared lists checked entry by entry. */
  datatype Section = DependsSection | ProvidesSection

  /** One record, its template identified by the constructor and its
      arguments kept as values (lists printed from sets are kept as sets). */
  datatype Diag =
    | NoPackageAssociated(path: string, needing: set<string>)
    | MissingProvides(key: string, owner: string, needing: set<string>)
    | LinkLevel(pkg: string, files: set<string>)
    | LibrariesNeeded(files: set<string>, needing: set<string>)
    | DetectedSatisfied(key: string, owner: string, needing: set<string>)
    | DetectedOptional(key: string, owner: string, needing: set<string>)
    | DetectedNotIncluded(key: string, owner: string, needing: set<string>)
    | Unneeded(section: Section, name: string)
    | Unversioned(section: Section, name: string)
    | ProvidesSatisfied(key: string, files: set<string>)
    | ProvidesUnsatisfied(key: string, files: set<string>)

  /** Which of the rule's lists a record is appended to; a reason of
      `detected_deps` is not a message and is filed as an info. */
  function LevelOf(d: Diag): (l: Level)
    ensures l == Error <==> d.Unversioned?
    ensures l == Warning <==> d.NoPackageAssociated? || d.Unneeded?
  {
    match d
    case NoPackageAssociated(_, _) => Warning
    case Unneeded(_, _) => Warning
    case Unversioned(_, _) => Error
    case _ => Info
  }

  /** The declared package metadata the rule reads. */
  datatype PkgInfo = PkgInfo(name: string, depends: seq<string>, optdepends: seq<string>, provided: seq<string>)

  /** Everything the rule reports. Sections driven by a dictionary are maps
      from the iterated key to its record; sections driven by a declared
      list keep the list's order. */
  datatype Report = Report(
    orphanWarnings: map<string, Diag>,
    missingInfos: map<string, Diag>,
    linkInfos: map<string, Diag>,
    reasons: map<string, Diag>,
    detectionInfos: map<string, Diag>,
    dependsChecks: seq<Diag>,
    dependsBySight: set<string>,
    provideInfos: map<string, Diag>,
    providesChecks: seq<Diag>,
    providesBySight: set<string>)

  /** `dict(filter(lambda elem: elem[1] != name, m.items()))`. */
  function FilterOwned(m: map<string, string>, name: string): (r: map<string, string>)
    ensures forall k :: k in r <==> k in m && m[k] != name
    ensures forall k :: k in r ==> r[k] == m[k]
  {
    map k | k in m && m[k] != name :: m[k]
  }

  /** `liblist[path]` on a `defaultdict(set)`. */
  function Needing(liblist: map<string, set<string>>, path: string): set<string>
  {
    if path in liblist then liblist[path] else {}
  }

  /** `libdepends[k]` on a `defaultdict(str)`. */
  function PathOf(libdepends: map<string, string>, k: string): string
  {
    if k in libdepends then libdepends[k] else ""
  }

  /** The files needing a key's library. */
  function KeyNeeding(st: ScanState, k: string): set<string>
  {
    Needing(st.liblist, PathOf(st.libdepends, k))
  }

  /** The record for one detected key: declared in `depends` is checked
      before declared in `optdepends`. */
  function Detection(k: string, owner: string, needing: set<string>, pkg: PkgInfo): (d: Diag)
    ensures d.DetectedSatisfied? <==> k in pkg.depends
    ensures d.DetectedOptional? <==> k !in pkg.depends && k in pkg.optdepends
    ensures d.DetectedNotIncluded? <==> k !in pkg.depends && k !in pkg.optdepends
    ensures d.key == k && d.owner == owner && d.needing == needing
  {
    if k in pkg.depends then DetectedSatisfied(k, owner, needing)
    else if k in pkg.optdepends then DetectedOptional(k, owner, needing)
    else DetectedNotIncluded(k, owner, needing)
  }

  /** The records for one declared entry: a warning when it names a `.so`
      the scan did not detect, and independently an error when it ends in
      `.so` (no version). */
  function EntryChecks(x: string, detected: set<string>, sec: Section): seq<Diag>
  {
    (if Contains(x, ".so") && x !in detected then [Unneeded(sec, x)] else []) +
    (if EndsWith(x, ".so") then [Unversioned(sec, x)] else [])
  }

  /** The loop over a declared list. */
  function DeclaredChecks(declared: seq<string>, detected: set<string>, sec: Section): seq<Diag>
  {
    if |declared| == 0 then []
    else DeclaredChecks(declared[..|declared| - 1], detected, sec) + EntryChecks(declared[|declared| - 1], detected, sec)
  }

  /** A declared entry draws the warning exactly when it names an
      undetected `.so`, the error exactly when it ends in `.so`, and nothing
      else is reported for the list. */
  lemma {:induction false} DeclaredChecksSound(declared: seq<string>, detected: set<string>, sec: Section)
    ensures forall x :: Unneeded(sec, x) in DeclaredChecks(declared, detected, sec) <==>
                          x in declared && Contains(x, ".so") && x !in detected
    ensures forall x :: Unversioned(sec, x) in DeclaredChecks(declared, detected, sec) <==>
                          x in declared && EndsWith(x, ".so")
    ensures forall d :: d in DeclaredChecks(declared, detected, sec) ==>
                          (d.Unneeded? || d.Unversioned?) && d.section == sec
  {
    if |declared| > 0 {
      var init := declared[..|declared| - 1];
      DeclaredChecksSound(init, detected, sec);
      assert declared == init + [declared[|declared| - 1]];
    }
  }

  /** Only the entries ending in `.so` raise errors, one each. */
  lemma {:induction false} DeclaredErrorCount(declared: seq<string>, detected: set<string>, sec: Section)
    ensures |ErrorsOf(DeclaredChecks(declared, detected, sec))| == |UnversionedEntries(declared)|
  {
    if |declared| > 0 {
      var init := declared[..|declared| - 1];
      var x := declared[|declared| - 1];
      DeclaredErrorCount(init, detected, sec);
      ErrorsOfAppend(DeclaredChecks(init, detected, sec), EntryChecks(x, detected, sec));
      if Contains(x, ".so") && x !in detected {
        ErrorsOfAppend([Unneeded(sec, x)], if EndsWith(x, ".so") then [Unversioned(sec, x)] else []);
      }
    }
  }

  /** The entries of a list that end in `.so`, in order. */
  function UnversionedEntries(declared: seq<string>): (r: seq<string>)
    ensures |r| <= |declared|
    ensures forall x :: x in r <==> x in declared && EndsWith(x, ".so")
  {
    if |declared| == 0 then []
    else
      var x := declared[|declared| - 1];
      UnversionedEntries(declared[..|declared| - 1]) + (if EndsWith(x, ".so") then [x] else [])
  }

  /** The error records among `ds`, in order. */
  function ErrorsOf(ds: seq<Diag>): (r: seq<Diag>)
    ensures forall d :: d in r <==> d in ds && LevelOf(d) == Error
  {
    if |ds| == 0 then []
    else ErrorsOf(ds[..|ds| - 1]) + (if LevelOf(ds[|ds| - 1]) == Error then [ds[|ds| - 1]] else [])
  }

  lemma {:induction false} ErrorsOfAppend(a: seq<Diag>, b: seq<Diag>)
    ensures ErrorsOf(a + b) == ErrorsOf(a) + ErrorsOf(b)
    decreases |b|
  {
    if |b| == 0 {
      assert a + b == a;
    } else {
      var b' := b[..|b| - 1];
      ErrorsOfAppend(a, b');
      assert (a + b)[..|a + b| - 1] == a + b';
    }
  }

  /** A declared provision `libfoo.so` that the scan did not see draws one
      warning and one error. */
  lemma UnversionedProvisionExample(x: string, detected: set<string>)
    requires x == "libfoo.so" && x !in detected
    ensures DeclaredChecks([x], detected, ProvidesSection) == [Unneeded(ProvidesSection, x), Unversioned(ProvidesSection, x)]
    ensures |ErrorsOf(DeclaredChecks([x], detected, ProvidesSection))| == 1
  {
    assert OccursAt(x, ".so", 6);
    assert EndsWith(x, ".so");
    assert [x][..0] == [];
    var ds := [Unneeded(ProvidesSection, x), Unversioned(ProvidesSection, x)];
    assert ds[..1] == [Unneeded(ProvidesSection, x)];
    assert ds[..1][..0] == [];
    assert ErrorsOf(ds[..1]) == [];
  }

  /** The rule's reporting, given what the scan and the resolver produced. */
  function Analyze(pkg: PkgInfo, st: ScanState, out: Output): (rep: Report)
    ensures rep.orphanWarnings.Keys == out.orphans
    ensures forall k :: k in rep.detectionInfos <==> k in out.libdependlist && out.libdependlist[k] != pkg.name
    ensures forall k :: k in rep.missingInfos <==> k in out.missingProvides && out.missingProvides[k] != pkg.name
    ensures rep.linkInfos.Keys == rep.reasons.Keys == out.dependlist.Keys
    ensures rep.provideInfos.Keys == st.libprovides.Keys
    ensures rep.providesBySight == st.libprovides.Keys
  {
    var libdependlist := FilterOwned(out.libdependlist, pkg.name);
    var missing := FilterOwned(out.missingProvides, pkg.name);
    Report(
      map k | k in out.orphans :: NoPackageAssociated(PathOf(st.libdepends, k), KeyNeeding(st, k)),
      map k | k in missing :: MissingProvides(k, missing[k], KeyNeeding(st, k)),
      map p | p in out.dependlist :: LinkLevel(p, out.dependlist[p]),
      map p | p in out.dependlist :: LibrariesNeeded(out.dependlist[p], NeedingAll(st.liblist, out.dependlist[p])),
      map k | k in libdependlist :: Detection(k, libdependlist[k], KeyNeeding(st, k), pkg),
      DeclaredChecks(pkg.depends, libdependlist.Keys, DependsSection),
      libdependlist.Keys + missing.Values,
      map k | k in st.libprovides :: if k in pkg.provided then ProvidesSatisfied(k, st.libprovides[k])
                                     else ProvidesUnsatisfied(k, st.libprovides[k]),
      DeclaredChecks(pkg.provided, st.libprovides.Keys, ProvidesSection),
      st.libprovides.Keys)
  }

  /** `set().union(*[liblist[lib] for lib in libraries])`. */
  function NeedingAll(liblist: map<string, set<string>>, libraries: set<string>): (r: set<string>)
    ensures forall f :: f in r <==> exists lib :: lib in libraries && f in Needing(liblist, lib)
  {
    set lib, f | lib in libraries && f in Needing(liblist, lib) :: f
  }

  /** Each detected key gets exactly one of the three records, named after
      its owner; a key the analysed package owns itself gets none. */
  lemma DetectionClassified(pkg: PkgInfo, st: ScanState, out: Output, k: string)
    requires k in out.libdependlist
    ensures var rep := Analyze(pkg, st, out);
            && (out.libdependlist[k] == pkg.name ==> k !in rep.detectionInfos)
            && (out.libdependlist[k] != pkg.name ==>
                  k in rep.detectionInfos &&
                  rep.detectionInfos[k].owner == out.libdependlist[k] &&
                  rep.detectionInfos[k].needing == KeyNeeding(st, k) &&
                  (rep.detectionInfos[k].DetectedSatisfied? <==> k in pkg.depends) &&
                  (rep.detectionInfos[k].DetectedOptional? <==> k !in pkg.depends && k in pkg.optdepends) &&
                  (rep.detectionInfos[k].DetectedNotIncluded? <==> k !in pkg.depends && k !in pkg.optdepends))
  {
  }

  /** Every provided key gets one record listing its providing files: the
      satisfied one exactly when the package declares the key in
      `provides`. */
  lemma ProvisionClassified(pkg: PkgInfo, st: ScanState, out: Output, k: string)
    requires k in st.libprovides
    ensures var rep := Analyze(pkg, st, out);
            && k in rep.provideInfos
            && rep.provideInfos[k].key == k
            && rep.provideInfos[k].files == st.libprovides[k]
            && (rep.provideInfos[k].ProvidesSatisfied? <==> k in pkg.provided)
            && (rep.provideInfos[k].ProvidesUnsatisfied? <==> k !in pkg.provided)
  {
  }

  /** A key served only without a provision is reported under its last
      serving package, with the files needing it, unless that package is
      the one analysed. */
  lemma MissingProvidesNamesOwner(pkg: PkgInfo, st: ScanState, out: Output, k: string)
    requires k in out.missingProvides
    ensures var rep := Analyze(pkg, st, out);
            && (out.missingProvides[k] == pkg.name ==> k !in rep.missingInfos)
            && (out.missingProvides[k] != pkg.name ==>
                  k in rep.missingInfos &&
                  rep.missingInfos[k] == MissingProvides(k, out.missingProvides[k], KeyNeeding(st, k)))
  {
  }

  /** Each package of `dependlist` gets a link-level record with its
      library paths, and a reason naming those paths and every file that
      needs one of them. */
  lemma LinkLevelRecords(pkg: PkgInfo, st: ScanState, out: Output, p: string)
    requires p in out.dependlist
    ensures var rep := Analyze(pkg, st, out);
            && p in rep.linkInfos && p in rep.reasons
            && rep.linkInfos[p] == LinkLevel(p, out.dependlist[p])
            && rep.reasons[p].LibrariesNeeded?
            && rep.reasons[p].files == out.dependlist[p]
            && (forall f :: f in rep.reasons[p].needing <==>
                  exists lib :: lib in out.dependlist[p] && lib in st.liblist && f in st.liblist[lib])
  {
    var rep := Analyze(pkg, st, out);
    assert rep.reasons[p] == LibrariesNeeded(out.dependlist[p], NeedingAll(st.liblist, out.dependlist[p]));
  }

  /** The declared-dependency suggestion lists the detected keys and the
      owners of the keys without a provision, leaving out the package
      itself. */
  lemma BySightLeavesOutSelf(pkg: PkgInfo, st: ScanState, out: Output)
    ensures var rep := Analyze(pkg, st, out);
            && pkg.name !in rep.dependsBySight - out.libdependlist.Keys
            && (forall k :: k in out.libdependlist && out.libdependlist[k] != pkg.name ==> k in rep.dependsBySight)
            && (forall k :: k in out.missingProvides && out.missingProvides[k] != pkg.name ==>
                  out.missingProvides[k] in rep.dependsBySight)
  {
    var rep := Analyze(pkg, st, out);
    var missing := FilterOwned(out.missingProvides, pkg.name);
    forall k | k in out.missingProvides && out.missingProvides[k] != pkg.name
      ensures out.missingProvides[k] in rep.dependsBySight
    {
      assert missing[k] in missing.Values;
    }
  }

  /** Every warning and error of the declared lists comes from an entry of
      those lists. */
  lemma ChecksComeFromDeclared(pkg: PkgInfo, st: ScanState, out: Output)
    ensures var rep := Analyze(pkg, st, out);
            && (forall d :: d in rep.dependsChecks ==> (d.Unneeded? || d.Unversioned?) && d.section == DependsSection && d.name in pkg.depends)
            && (forall d :: d in rep.providesChecks ==> (d.Unneeded? || d.Unversioned?) && d.section == ProvidesSection && d.name in pkg.provided)
  {
    var rep := Analyze(pkg, st, out);
    DeclaredChecksSound(pkg.depends, FilterOwned(out.libdependlist, pkg.name).Keys, DependsSection);
    DeclaredChecksSound(pkg.provided, st.libprovides.Keys, ProvidesSection);
    forall d | d in rep.dependsChecks ensures (d.Unneeded? || d.Unversioned?) && d.section == DependsSection && d.name in pkg.depends {
      if d.Unneeded? {
        assert Unneeded(DependsSection, d.name) in rep.dependsChecks;
      } else {
        assert Unversioned(DependsSection, d.name) in rep.dependsChecks;
      }
    }
    forall d | d in rep.providesChecks ensures (d.Unneeded? || d.Unversioned?) && d.section == ProvidesSection && d.name in pkg.provided {
      if d.Unneeded? {
        assert Unneeded(ProvidesSection, d.name) in rep.providesChecks;
      } else {
        assert Unversioned(ProvidesSection, d.name) in rep.providesChecks;
      }
    }
  }

  /** The whole rule: scan the archive, resolve against the installed
      packages, report. */
  function SharedLibs(pkg: PkgInfo, entries: seq<TarEntry>, cache: Cache, abspath: string -> string,
                      installed: seq<Installed>, realpath: string -> string, rule: MatchRule): (rep: Report)
    ensures var st := ScanPackage(entries, cache, abspath);
            && rep.orphanWarnings.Keys <= st.libdepends.Keys
            && rep.detectionInfos.Keys <= st.libdepends.Keys
            && rep.missingInfos.Keys <= st.libdepends.Keys
            && rep.orphanWarnings.Keys !! rep.detectionInfos.Keys
            && rep.orphanWarnings.Keys !! rep.missingInfos.Keys
  {
    var st := ScanPackage(entries, cache, abspath);
    Analyze(pkg, st, FindDepends(st.libdepends, installed, realpath, rule))
  }

  /** An orphan's warning names the path it was recorded under and the
      files needing it, which the scan has listed. */
  lemma OrphanWarningNamesPath(pkg: PkgInfo, entries: seq<TarEntry>, cache: Cache, abspath: string -> string,
                               installed: seq<Installed>, realpath: string -> string, rule: MatchRule, k: string)
    ensures k in SharedLibs(pkg, entries, cache, abspath, installed, realpath, rule).orphanWarnings ==>
            var st := ScanPackage(entries, cache, abspath);
            && k in st.libdepends
            && st.libdepends[k] in st.liblist
            && SharedLibs(pkg, entries, cache, abspath, installed, realpath, rule).orphanWarnings[k] ==
               NoPackageAssociated(st.libdepends[k], st.liblist[st.libdepends[k]])
  {
    var st := ScanPackage(entries, cache, abspath);
    var out := FindDepends(st.libdepends, installed, realpath, rule);
    ScanPackageWellFormed(entries, cache, abspath);
    assert SharedLibs(pkg, entries, cache, abspath, installed, realpath, rule) == Analyze(pkg, st, out);
  }
}
