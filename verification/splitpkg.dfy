/** The split-PKGBUILD coherence rules: every subpackage of a split
    PKGBUILD needs its own `package_*` function, and the global
    `makedepends` must cover what the subpackages depend on. */
module SplitPkg {
  import opened Wrappers

  /** One subpackage: its name, the kind of its `package_*` object, and its
      own dependency lists (an absent list is empty). */
  datatype Subpackage = Subpackage(name: string, pkgfunction: string, depends: seq<string>, makedepends: seq<string>)

  /** The parsed PKGBUILD as the two rules read it. */
  datatype SplitInfo = SplitInfo(
    isSplit: bool,
    names: seq<string>,
    depends: seq<string>,
    makedepends: seq<string>,
    subpackages: seq<Subpackage>)

  /** The subpackages missing a `package_*` function, in order. */
  function MissingFunctions(subs: seq<Subpackage>): (r: seq<string>)
    ensures |r| <= |subs|
  {
    if |subs| == 0 then []
    else
      var s := subs[|subs| - 1];
      MissingFunctions(subs[..|subs| - 1]) + (if s.pkgfunction != "function" then [s.name] else [])
  }

  /** Reports for a list of subpackages split anywhere are the reports of
      the two parts, one after the other. */
  lemma {:induction false} MissingFunctionsAppend(a: seq<Subpackage>, b: seq<Subpackage>)
    ensures MissingFunctions(a + b) == MissingFunctions(a) + MissingFunctions(b)
    decreases |b|
  {
    if |b| > 0 {
      var b' := b[..|b| - 1];
      MissingFunctionsAppend(a, b');
      assert (a + b)[..|a + b| - 1] == a + b';
    } else {
      assert a + b == a;
    }
  }

  /** A name is reported exactly when some subpackage of that name has no
      function. */
  lemma {:induction false} MissingFunctionsExactly(subs: seq<Subpackage>)
    ensures forall x :: x in MissingFunctions(subs) <==>
              exists i :: 0 <= i < |subs| && subs[i].name == x && subs[i].pkgfunction != "function"
  {
    if |subs| > 0 {
      var init := subs[..|subs| - 1];
      MissingFunctionsExactly(init);
      assert forall i :: 0 <= i < |init| ==> init[i] == subs[i];
    }
  }

  /** `PackageFunctionsRule.analyze`: one `missing-pkgfunction` error per
      subpackage without a function, none for a PKGBUILD that is not split. */
  function PackageFunctionsErrors(info: SplitInfo): (errors: seq<string>)
    ensures !info.isSplit ==> errors == []
    ensures info.isSplit ==> forall x :: x in errors <==>
              exists i :: 0 <= i < |info.subpackages| && info.subpackages[i].name == x &&
                          info.subpackages[i].pkgfunction != "function"
  {
    if !info.isSplit then []
    else
      MissingFunctionsExactly(info.subpackages);
      MissingFunctions(info.subpackages)
  }

  function SetOf(s: seq<string>): (r: set<string>)
    ensures forall x :: x in r <==> x in s
  {
    set x | x in s
  }

  /** The global dependency set: the package names, the global `depends`
      and `makedepends`, and whatever `getcovered` says they cover. */
  function GlobalDeps(info: SplitInfo, getcovered: set<string> -> set<string>): (g: set<string>)
    ensures var declared := SetOf(info.names) + SetOf(info.depends) + SetOf(info.makedepends);
            declared <= g && getcovered(declared) <= g && g <= declared + getcovered(declared)
  {
    var declared := SetOf(info.names) + SetOf(info.depends) + SetOf(info.makedepends);
    declared + getcovered(declared)
  }

  /** The union of every subpackage's `depends` and `makedepends`. */
  function LocalDeps(subs: seq<Subpackage>): (l: set<string>)
  {
    if |subs| == 0 then {}
    else
      var s := subs[|subs| - 1];
      LocalDeps(subs[..|subs| - 1]) + SetOf(s.depends) + SetOf(s.makedepends)
  }

  /** A name is a local dependency exactly when some subpackage lists it. */
  lemma {:induction false} LocalDepsExactly(subs: seq<Subpackage>)
    ensures forall x :: x in LocalDeps(subs) <==>
              exists i :: 0 <= i < |subs| && (x in subs[i].depends || x in subs[i].makedepends)
  {
    if |subs| > 0 {
      var init := subs[..|subs| - 1];
      LocalDepsExactly(init);
      assert forall i :: 0 <= i < |init| ==> init[i] == subs[i];
    }
  }

  /** Python's `a < b` on strings: code point by code point, a proper prefix
      first. */
  predicate LexLess(a: string, b: string)
  {
    if |a| == 0 then |b| > 0
    else if |b| == 0 then false
    else if a[0] != b[0] then a[0] < b[0]
    else LexLess(a[1..], b[1..])
  }

  lemma {:induction false} LexIrreflexive(a: string)
    ensures !LexLess(a, a)
  {
    if |a| > 0 {
      LexIrreflexive(a[1..]);
    }
  }

  lemma {:induction false} LexTransitive(a: string, b: string, c: string)
    requires LexLess(a, b) && LexLess(b, c)
    ensures LexLess(a, c)
  {
    if |a| > 0 && |b| > 0 && |c| > 0 && a[0] == b[0] && b[0] == c[0] {
      LexTransitive(a[1..], b[1..], c[1..]);
    }
  }

  lemma {:induction false} LexTotal(a: string, b: string)
    requires a != b
    ensures LexLess(a, b) || LexLess(b, a)
  {
    if |a| > 0 && |b| > 0 && a[0] == b[0] {
      assert a == [a[0]] + a[1..] && b == [b[0]] + b[1..];
      LexTotal(a[1..], b[1..]);
    }
  }

  /** Strictly increasing, hence free of duplicates. */
  predicate SortedStrict(s: seq<string>)
  {
    forall i, j :: 0 <= i < j < |s| ==> LexLess(s[i], s[j])
  }

  /** `x` put in its place in a sorted list not containing it. */
  function Insert(s: seq<string>, x: string): (r: seq<string>)
    requires SortedStrict(s) && x !in s
    ensures SortedStrict(r)
    ensures |r| == |s| + 1
    ensures forall y :: y in r <==> y in s || y == x
  {
    if |s| == 0 then [x]
    else if LexLess(x, s[0]) then
      forall j | 0 <= j < |s| ensures LexLess(x, s[j]) {
        if j > 0 {
          LexTransitive(x, s[0], s[j]);
        }
      }
      [x] + s
    else
      LexTotal(x, s[0]);
      assert forall i :: 0 <= i < |s| - 1 ==> s[1..][i] == s[i + 1];
      var rest := Insert(s[1..], x);
      assert forall y :: y in rest ==> LexLess(s[0], y);
      [s[0]] + rest
  }

  /** `sorted(missing)` for the elements of a set. */
  method SortedList(s: set<string>) returns (r: seq<string>)
    ensures SortedStrict(r)
    ensures |r| == |s|
    ensures forall x :: x in r <==> x in s
  {
    r := [];
    var rest := s;
    while rest != {}
      invariant SortedStrict(r)
      invariant rest <= s
      invariant forall x :: x in r <==> x in s && x !in rest
      invariant |r| + |rest| == |s|
      decreases |rest|
    {
      var x :| x in rest;
      r := Insert(r, x);
      rest := rest - {x};
    }
  }

  /** `SplitPkgMakedepsRule.analyze`: `None` when nothing is reported, or
      the sorted names the subpackages need but the global lists do not
      cover. */
  method MakedepsCheck(info: SplitInfo, getcovered: set<string> -> set<string>) returns (missing: Option<seq<string>>)
    ensures missing.Some? <==>
              info.isSplit && !(LocalDeps(info.subpackages) <= GlobalDeps(info, getcovered))
    ensures missing.Some? ==> SortedStrict(missing.value)
    ensures missing.Some? ==> forall x :: x in missing.value <==>
              x in LocalDeps(info.subpackages) && x !in GlobalDeps(info, getcovered)
  {
    if !info.isSplit {
      return None;
    }
    var globalDeps := GlobalDeps(info, getcovered);
    var localDeps := LocalDeps(info.subpackages);
    if localDeps <= globalDeps {
      return None;
    }
    var sorted := SortedList(localDeps - globalDeps);
    return Some(sorted);
  }

  /** A missing name is one some subpackage lists and neither the global
      lists nor what they cover contain. */
  lemma MissingMeans(info: SplitInfo, getcovered: set<string> -> set<string>, x: string)
    requires info.isSplit
    ensures x in LocalDeps(info.subpackages) && x !in GlobalDeps(info, getcovered) <==>
              (exists i :: 0 <= i < |info.subpackages| &&
                 (x in info.subpackages[i].depends || x in info.subpackages[i].makedepends)) &&
              x !in info.names && x !in info.depends && x !in info.makedepends &&
              x !in getcovered(SetOf(info.names) + SetOf(info.depends) + SetOf(info.makedepends))
  {
    LocalDepsExactly(info.subpackages);
  }
}
