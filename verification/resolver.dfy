/** `finddepends` of `sodepends`: the recorded library paths are matched
    against the file lists of the installed packages, and every key ends up
    owned (with or without a matching provision) or orphaned. */
module Resolver {
  import opened Wrappers
  import opened Strings

  /** An installed package: its name, its file list and its `provides`. */
  datatype Installed = Installed(name: string, files: seq<string>, provisions: set<string>)

  /** Which suffix rule decides that a file is a version of a library path:
      the rule as the code applies it, or the anchored rule its comment
      describes. */
  datatype MatchRule = AsWritten | Anchored

  predicate IsDigit(c: char)
  {
    '0' <= c <= '9'
  }

  /** Length of the longest run of digits at the start of `s`. */
  function DigitRun(s: string): (n: nat)
    ensures n <= |s|
    ensures forall i :: 0 <= i < n ==> IsDigit(s[i])
    ensures n < |s| ==> !IsDigit(s[n])
  {
    if |s| > 0 && IsDigit(s[0]) then 1 + DigitRun(s[1..]) else 0
  }

  /** Length of what the greedy pattern `(\.\d+)*` consumes at the start of
      `s`. */
  function DotRun(s: string): (n: nat)
    ensures n <= |s|
    decreases |s|
  {
    if |s| >= 2 && s[0] == '.' && IsDigit(s[1]) then
      var d := DigitRun(s[1..]);
      1 + d + DotRun(s[1 + d..])
    else 0
  }

  /** `so_end.match(s)`: the pattern may match the empty string, so a match
      object (the matched length) is always returned. */
  function SoEndMatch(s: string): (r: Option<nat>)
    ensures r.Some? && r.value <= |s|
  {
    Some(DotRun(s))
  }

  /** The suffix is nothing but `.N` groups: it is empty, or starts with a
      dot, has only digits and dots, and every dot is followed by a digit. */
  predicate DotNumeric(s: string)
  {
    s == "" || (s[0] == '.' && forall i :: 0 <= i < |s| ==> DigitOrDotDigit(s, i))
  }

  /** Position `i` holds a digit, or a dot with a digit after it. */
  predicate DigitOrDotDigit(s: string, i: nat)
    requires i < |s|
  {
    IsDigit(s[i]) || (s[i] == '.' && i + 1 < |s| && IsDigit(s[i + 1]))
  }

  /** The condition as the code tests it: equal, or a prefix whose rest
      `so_end.match` accepts. */
  predicate LiteralMatch(j: string, ap: string)
  {
    j == ap || (StartsWith(j, ap) && SoEndMatch(j[|ap|..]).Some?)
  }

  /** The condition the comment describes: equal, or a prefix whose rest the
      pattern matches in full. */
  predicate AnchoredMatch(j: string, ap: string)
  {
    j == ap || (StartsWith(j, ap) && SoEndMatch(j[|ap|..]) == Some(|j| - |ap|))
  }

  predicate Matches(rule: MatchRule, j: string, ap: string)
  {
    match rule
    case AsWritten => LiteralMatch(j, ap)
    case Anchored => AnchoredMatch(j, ap)
  }

  /** The suffix check as written accepts every extension of the path. */
  lemma LiteralIsPrefix(j: string, ap: string)
    ensures LiteralMatch(j, ap) <==> StartsWith(j, ap)
  {
  }

  /** The anchored rule only accepts what the literal one does. */
  lemma AnchoredImpliesLiteral(j: string, ap: string)
    ensures AnchoredMatch(j, ap) ==> LiteralMatch(j, ap)
  {
  }

  /** A dot and a run of digits in front of a `.N` suffix form one. */
  lemma NumericPrepend(s: string, d: nat)
    requires |s| >= 2 && s[0] == '.' && d == DigitRun(s[1..]) && d >= 1
    requires DotNumeric(s[1 + d..])
    ensures DotNumeric(s)
  {
    var rest := s[1 + d..];
    forall i | 0 <= i < |s|
      ensures DigitOrDotDigit(s, i)
    {
      if 1 <= i < 1 + d {
        assert s[i] == s[1..][i - 1];
      } else if i >= 1 + d {
        assert s[i] == rest[i - 1 - d];
        assert DigitOrDotDigit(rest, i - 1 - d);
        if rest[i - 1 - d] == '.' {
          assert s[i + 1] == rest[i - d];
        }
      }
    }
  }

  /** What follows the first group of a `.N` suffix is again one. */
  lemma NumericRest(s: string, d: nat)
    requires |s| >= 2 && d == DigitRun(s[1..])
    requires DotNumeric(s) && s != ""
    ensures DotNumeric(s[1 + d..])
  {
    var rest := s[1 + d..];
    if rest != "" {
      assert s[1 + d] == s[1..][d];
      assert DigitOrDotDigit(s, 1 + d);
      forall i | 0 <= i < |rest|
        ensures DigitOrDotDigit(rest, i)
      {
        var m := 1 + d + i;
        assert rest[i] == s[m];
        assert DigitOrDotDigit(s, m);
        if rest[i] == '.' {
          assert rest[i + 1] == s[m + 1];
        }
      }
    }
  }

  /** The greedy pattern consumes the whole suffix exactly when the suffix
      is made of `.N` groups. */
  lemma {:induction false} DotRunCoversIffDotNumeric(s: string)
    ensures DotRun(s) == |s| <==> DotNumeric(s)
    decreases |s|
  {
    if |s| >= 2 && s[0] == '.' && IsDigit(s[1]) {
      var d := DigitRun(s[1..]);
      DotRunCoversIffDotNumeric(s[1 + d..]);
      if DotNumeric(s[1 + d..]) {
        NumericPrepend(s, d);
      }
      if DotNumeric(s) {
        NumericRest(s, d);
      }
    } else if |s| > 0 {
      if s[0] == '.' {
        assert !DigitOrDotDigit(s, 0);
      }
    }
  }

  /** The anchored rule accepts exactly the equal path and the extensions by
      `.N` groups. */
  lemma AnchoredMeansNumericSuffix(j: string, ap: string)
    ensures AnchoredMatch(j, ap) <==> j == ap || (StartsWith(j, ap) && DotNumeric(j[|ap|..]))
  {
    if StartsWith(j, ap) {
      DotRunCoversIffDotNumeric(j[|ap|..]);
    }
  }

  /** A file that merely starts with the library path, like `libgpm.so.1abc`
      for `libgpm.so.1`, passes the check as written but not the anchored
      one. */
  lemma LiteralAcceptsNonNumericSuffix(j: string, ap: string)
    requires j == "usr/lib/libgpm.so.1abc" && ap == "usr/lib/libgpm.so.1"
    ensures LiteralMatch(j, ap)
    ensures !AnchoredMatch(j, ap)
  {
    assert ap <= j;
    assert j[|ap|..] == "abc";
    assert DotRun("abc") == 0;
  }

  /** The case the comment has in mind: `libgpm.so.1.19.0` serves
      `libgpm.so.1` under both rules. */
  lemma AnchoredAcceptsVersionedFile(j: string, ap: string)
    requires j == "usr/lib/libgpm.so.1.19.0" && ap == "usr/lib/libgpm.so.1"
    ensures AnchoredMatch(j, ap) && LiteralMatch(j, ap)
  {
    assert ap <= j;
    var rest := j[|ap|..];
    assert rest == ".19.0";
    assert DotNumeric(rest) by {
      assert rest[0] == '.' && rest[1] == '1' && rest[2] == '9' && rest[3] == '.' && rest[4] == '0';
    }
    AnchoredMeansNumericSuffix(j, ap);
  }

  /** A file is only looked at when it contains `.so`, and then it hits a
      library path when the rule matches. */
  predicate FileHits(rule: MatchRule, j: string, ap: string)
  {
    Contains(j, ".so") && Matches(rule, j, ap)
  }

  /** `actualpath`: each key's recorded path resolved through `realpath`
      from the root, without its leading `/`. */
  function ActualPaths(libdepends: map<string, string>, realpath: string -> string): (r: map<string, string>)
    ensures r.Keys == libdepends.Keys
    ensures forall k :: k in r ==> r[k] == DropFirst(realpath("/" + libdepends[k]))
  {
    map k | k in libdepends :: DropFirst(realpath("/" + libdepends[k]))
  }

  /** The keys one file hits. */
  function Hits(rule: MatchRule, j: string, actual: map<string, string>): (r: set<string>)
    ensures forall k :: k in r <==> k in actual && FileHits(rule, j, actual[k])
  {
    set k | k in actual && FileHits(rule, j, actual[k])
  }

  /** The four results being accumulated: `dependlist`, `libdependlist`,
      `missing_provides`, and the keys found so far. */
  datatype Resolution = Resolution(
    dependlist: map<string, set<string>>,
    libdependlist: map<string, string>,
    missingProvides: map<string, string>,
    found: set<string>)

  const Start := Resolution(map[], map[], map[], {})

  /** `m[k] = v` for every `k` in `ks`. */
  function Override(m: map<string, string>, ks: set<string>, v: string): (r: map<string, string>)
    ensures r.Keys == m.Keys + ks
    ensures forall k :: k in ks ==> r[k] == v
    ensures forall k :: k in m && k !in ks ==> r[k] == m[k]
  {
    map k | k in m.Keys + ks :: if k in ks then v else m[k]
  }

  /** `m[name].add(x)` for every `x` in `vs` on a `defaultdict(set)`. */
  function AddAll(m: map<string, set<string>>, name: string, vs: set<string>): (r: map<string, set<string>>)
    ensures r.Keys == m.Keys + {name}
    ensures r[name] == (if name in m then m[name] else {}) + vs
    ensures forall n :: n in m && n != name ==> r[n] == m[n]
  {
    m[name := (if name in m then m[name] else {}) + vs]
  }

  /** The recorded paths of some keys. */
  function PathsOf(ks: set<string>, libdepends: map<string, string>): (r: set<string>)
    requires ks <= libdepends.Keys
    ensures forall k :: k in ks ==> libdepends[k] in r
    ensures forall x :: x in r ==> exists k :: k in ks && libdepends[k] == x
  {
    set k | k in ks :: libdepends[k]
  }

  /** What package `p` does for the keys `hits` it serves: it gains their
      paths in `dependlist`, becomes their owner in `libdependlist` when it
      provides them and in `missing_provides` otherwise, and they are found.
      With no hit nothing changes, not even `dependlist`'s keys. */
  function Absorb(r: Resolution, p: Installed, hits: set<string>, libdepends: map<string, string>): Resolution
    requires hits <= libdepends.Keys
  {
    if hits == {} then r
    else Resolution(
      AddAll(r.dependlist, p.name, PathsOf(hits, libdepends)),
      Override(r.libdependlist, hits * p.provisions, p.name),
      Override(r.missingProvides, hits - p.provisions, p.name),
      r.found + hits)
  }

  /** The files of one package in order. */
  function MatchFiles(r: Resolution, p: Installed, files: seq<string>, libdepends: map<string, string>,
                      actual: map<string, string>, rule: MatchRule): Resolution
    requires actual.Keys == libdepends.Keys
  {
    if |files| == 0 then r
    else
      var r' := MatchFiles(r, p, files[..|files| - 1], libdepends, actual, rule);
      Absorb(r', p, Hits(rule, files[|files| - 1], actual), libdepends)
  }

  /** The installed packages in order. */
  function MatchPackages(r: Resolution, pkgs: seq<Installed>, libdepends: map<string, string>,
                         actual: map<string, string>, rule: MatchRule): Resolution
    requires actual.Keys == libdepends.Keys
  {
    if |pkgs| == 0 then r
    else
      var r' := MatchPackages(r, pkgs[..|pkgs| - 1], libdepends, actual, rule);
      var p := pkgs[|pkgs| - 1];
      MatchFiles(r', p, p.files, libdepends, actual, rule)
  }

  /** Some file of `files` hits the path `ap`. */
  ghost predicate HasIn(files: seq<string>, ap: string, rule: MatchRule)
  {
    exists n :: 0 <= n < |files| && FileHits(rule, files[n], ap)
  }

  /** The keys some file of `files` hits. */
  ghost function HitKeys(files: seq<string>, actual: map<string, string>, rule: MatchRule): set<string>
  {
    set k | k in actual && HasIn(files, actual[k], rule)
  }

  lemma HitKeysSnoc(files: seq<string>, actual: map<string, string>, rule: MatchRule)
    requires |files| > 0
    ensures HitKeys(files, actual, rule) ==
            HitKeys(files[..|files| - 1], actual, rule) + Hits(rule, files[|files| - 1], actual)
  {
    var init := files[..|files| - 1];
    forall k | k in actual
      ensures HasIn(files, actual[k], rule) <==> HasIn(init, actual[k], rule) || FileHits(rule, files[|files| - 1], actual[k])
    {
      if HasIn(files, actual[k], rule) {
        var n :| 0 <= n < |files| && FileHits(rule, files[n], actual[k]);
        if n < |init| {
          assert init[n] == files[n];
        }
      }
      if HasIn(init, actual[k], rule) {
        var n :| 0 <= n < |init| && FileHits(rule, init[n], actual[k]);
        assert files[n] == init[n];
      }
    }
  }

  lemma OverrideTwice(m: map<string, string>, a: set<string>, b: set<string>, v: string)
    ensures Override(Override(m, a, v), b, v) == Override(m, a + b, v)
  {
    var x := Override(Override(m, a, v), b, v);
    var y := Override(m, a + b, v);
    assert x.Keys == y.Keys;
    forall k | k in x.Keys ensures x[k] == y[k] {
    }
  }

  lemma AddAllTwice(m: map<string, set<string>>, name: string, a: set<string>, b: set<string>)
    ensures AddAll(AddAll(m, name, a), name, b) == AddAll(m, name, a + b)
  {
    var x := AddAll(AddAll(m, name, a), name, b);
    var y := AddAll(m, name, a + b);
    assert x.Keys == y.Keys;
    forall n | n in x.Keys ensures x[n] == y[n] {
    }
  }

  lemma PathsOfUnion(a: set<string>, b: set<string>, libdepends: map<string, string>)
    requires a <= libdepends.Keys && b <= libdepends.Keys
    ensures PathsOf(a + b, libdepends) == PathsOf(a, libdepends) + PathsOf(b, libdepends)
  {
  }

  /** Absorbing two batches of keys from the same package is absorbing
      both at once. */
  lemma AbsorbTwice(r: Resolution, p: Installed, a: set<string>, b: set<string>, libdepends: map<string, string>)
    requires a <= libdepends.Keys && b <= libdepends.Keys
    ensures Absorb(Absorb(r, p, a, libdepends), p, b, libdepends) == Absorb(r, p, a + b, libdepends)
  {
    if a != {} && b != {} {
      PathsOfUnion(a, b, libdepends);
      AddAllTwice(r.dependlist, p.name, PathsOf(a, libdepends), PathsOf(b, libdepends));
      OverrideTwice(r.libdependlist, a * p.provisions, b * p.provisions, p.name);
      OverrideTwice(r.missingProvides, a - p.provisions, b - p.provisions, p.name);
      assert a * p.provisions + b * p.provisions == (a + b) * p.provisions;
      assert (a - p.provisions) + (b - p.provisions) == (a + b) - p.provisions;
    } else if a == {} {
      assert a + b == b;
    } else {
      assert a + b == a;
    }
  }

  /** Going through a package's files one by one comes to the same as
      taking every key some file hits in one step. */
  lemma {:induction false} MatchFilesAbsorbs(r: Resolution, p: Installed, files: seq<string>,
                                             libdepends: map<string, string>, actual: map<string, string>, rule: MatchRule)
    requires actual.Keys == libdepends.Keys
    ensures HitKeys(files, actual, rule) <= libdepends.Keys
    ensures MatchFiles(r, p, files, libdepends, actual, rule) == Absorb(r, p, HitKeys(files, actual, rule), libdepends)
  {
    if |files| == 0 {
      assert HitKeys(files, actual, rule) == {};
    } else {
      var init := files[..|files| - 1];
      MatchFilesAbsorbs(r, p, init, libdepends, actual, rule);
      HitKeysSnoc(files, actual, rule);
      AbsorbTwice(r, p, HitKeys(init, actual, rule), Hits(rule, files[|files| - 1], actual), libdepends);
    }
  }

  /** A package serves a path when one of its files hits it. */
  ghost predicate Serves(p: Installed, ap: string, rule: MatchRule)
  {
    HasIn(p.files, ap, rule)
  }

  /** The owner map that a package of the given kind is entered in:
      `libdependlist` for a provider of the key, `missing_provides`
      otherwise. */
  function OwnerMap(r: Resolution, provider: bool): map<string, string>
  {
    if provider then r.libdependlist else r.missingProvides
  }

  /** One package: a key it serves is found and names it as owner in the
      map of its kind; a key it does not serve keeps its state. */
  lemma PackageStep(r: Resolution, p: Installed, libdepends: map<string, string>, actual: map<string, string>,
                    rule: MatchRule, k: string, provider: bool)
    requires actual.Keys == libdepends.Keys && k in actual
    ensures var r' := MatchFiles(r, p, p.files, libdepends, actual, rule);
            && (k in r'.found <==> k in r.found || Serves(p, actual[k], rule))
            && (Serves(p, actual[k], rule) && (k in p.provisions) == provider ==>
                  k in OwnerMap(r', provider) && OwnerMap(r', provider)[k] == p.name)
            && (!(Serves(p, actual[k], rule) && (k in p.provisions) == provider) ==>
                  (k in OwnerMap(r', provider) <==> k in OwnerMap(r, provider)) &&
                  (k in OwnerMap(r, provider) ==> OwnerMap(r', provider)[k] == OwnerMap(r, provider)[k]))
  {
    MatchFilesAbsorbs(r, p, p.files, libdepends, actual, rule);
  }

  /** Some package serves the key's path. */
  ghost predicate AnyServes(pkgs: seq<Installed>, ap: string, rule: MatchRule)
  {
    exists i :: 0 <= i < |pkgs| && Serves(pkgs[i], ap, rule)
  }

  /** A key is found exactly when some package serves its path. */
  lemma {:induction false} FoundIffServed(r: Resolution, pkgs: seq<Installed>, libdepends: map<string, string>,
                                          actual: map<string, string>, rule: MatchRule, k: string)
    requires actual.Keys == libdepends.Keys && k in actual
    ensures k in MatchPackages(r, pkgs, libdepends, actual, rule).found <==>
            k in r.found || AnyServes(pkgs, actual[k], rule)
  {
    if |pkgs| > 0 {
      var init := pkgs[..|pkgs| - 1];
      FoundIffServed(r, init, libdepends, actual, rule, k);
      PackageStep(MatchPackages(r, init, libdepends, actual, rule), pkgs[|pkgs| - 1], libdepends, actual, rule, k, true);
      if AnyServes(pkgs, actual[k], rule) && !Serves(pkgs[|pkgs| - 1], actual[k], rule) {
        var i :| 0 <= i < |pkgs| && Serves(pkgs[i], actual[k], rule);
        assert init[i] == pkgs[i];
      }
      if AnyServes(init, actual[k], rule) {
        var i :| 0 <= i < |init| && Serves(init[i], actual[k], rule);
        assert pkgs[i] == init[i];
      }
    }
  }

  /** Package `p` serves the key and is of the given kind. */
  ghost predicate Claims(p: Installed, k: string, ap: string, rule: MatchRule, provider: bool)
  {
    Serves(p, ap, rule) && (k in p.provisions) == provider
  }

  /** The last serving package of a kind names the key's owner in the map
      of that kind, whatever earlier packages did. */
  lemma {:induction false} LastClaimWins(r: Resolution, pkgs: seq<Installed>, libdepends: map<string, string>,
                                         actual: map<string, string>, rule: MatchRule, k: string, provider: bool, i: nat)
    requires actual.Keys == libdepends.Keys && k in actual
    requires i < |pkgs| && Claims(pkgs[i], k, actual[k], rule, provider)
    requires forall j :: i < j < |pkgs| ==> !Claims(pkgs[j], k, actual[k], rule, provider)
    ensures var r' := MatchPackages(r, pkgs, libdepends, actual, rule);
            k in OwnerMap(r', provider) && OwnerMap(r', provider)[k] == pkgs[i].name
  {
    var init := pkgs[..|pkgs| - 1];
    var last := pkgs[|pkgs| - 1];
    var mid := MatchPackages(r, init, libdepends, actual, rule);
    PackageStep(mid, last, libdepends, actual, rule, k, provider);
    if i < |pkgs| - 1 {
      assert init[i] == pkgs[i];
      assert forall j :: i < j < |init| ==> init[j] == pkgs[j];
      LastClaimWins(r, init, libdepends, actual, rule, k, provider, i);
    }
  }

  /** With no serving package of a kind, the key's entry in that map is
      what it was. */
  lemma {:induction false} UnclaimedUnchanged(r: Resolution, pkgs: seq<Installed>, libdepends: map<string, string>,
                                              actual: map<string, string>, rule: MatchRule, k: string, provider: bool)
    requires actual.Keys == libdepends.Keys && k in actual
    requires forall j :: 0 <= j < |pkgs| ==> !Claims(pkgs[j], k, actual[k], rule, provider)
    ensures var r' := MatchPackages(r, pkgs, libdepends, actual, rule);
            && (k in OwnerMap(r', provider) <==> k in OwnerMap(r, provider))
            && (k in OwnerMap(r, provider) ==> OwnerMap(r', provider)[k] == OwnerMap(r, provider)[k])
  {
    if |pkgs| > 0 {
      var init := pkgs[..|pkgs| - 1];
      assert forall j :: 0 <= j < |init| ==> init[j] == pkgs[j];
      UnclaimedUnchanged(r, init, libdepends, actual, rule, k, provider);
      PackageStep(MatchPackages(r, init, libdepends, actual, rule), pkgs[|pkgs| - 1], libdepends, actual, rule, k, provider);
    }
  }

  /** What the accumulated results keep: owner maps only hold found keys,
      found keys are recorded ones, and `dependlist` only holds recorded
      paths. */
  ghost predicate Consistent(r: Resolution, libdepends: map<string, string>)
  {
    && r.libdependlist.Keys <= r.found
    && r.missingProvides.Keys <= r.found
    && r.found <= libdepends.Keys
    && forall n :: n in r.dependlist ==> r.dependlist[n] <= libdepends.Values
  }

  lemma {:induction false} MatchPackagesConsistent(r: Resolution, pkgs: seq<Installed>, libdepends: map<string, string>,
                                                   actual: map<string, string>, rule: MatchRule)
    requires actual.Keys == libdepends.Keys
    requires Consistent(r, libdepends)
    ensures Consistent(MatchPackages(r, pkgs, libdepends, actual, rule), libdepends)
  {
    if |pkgs| > 0 {
      var init := pkgs[..|pkgs| - 1];
      var p := pkgs[|pkgs| - 1];
      var mid := MatchPackages(r, init, libdepends, actual, rule);
      MatchPackagesConsistent(r, init, libdepends, actual, rule);
      MatchFilesAbsorbs(mid, p, p.files, libdepends, actual, rule);
      var h := HitKeys(p.files, actual, rule);
      if h != {} {
        forall x | x in PathsOf(h, libdepends) ensures x in libdepends.Values {
          var k :| k in h && libdepends[k] == x;
        }
      }
    }
  }

  /** A serving package lists the key's recorded path in `dependlist`. */
  lemma {:induction false} ServedPathListed(r: Resolution, pkgs: seq<Installed>, libdepends: map<string, string>,
                                            actual: map<string, string>, rule: MatchRule, k: string, i: nat)
    requires actual.Keys == libdepends.Keys && k in actual
    requires i < |pkgs| && Serves(pkgs[i], actual[k], rule)
    ensures var r' := MatchPackages(r, pkgs, libdepends, actual, rule);
            pkgs[i].name in r'.dependlist && libdepends[k] in r'.dependlist[pkgs[i].name]
  {
    var init := pkgs[..|pkgs| - 1];
    var p := pkgs[|pkgs| - 1];
    var mid := MatchPackages(r, init, libdepends, actual, rule);
    MatchFilesAbsorbs(mid, p, p.files, libdepends, actual, rule);
    var h := HitKeys(p.files, actual, rule);
    if i < |pkgs| - 1 {
      assert init[i] == pkgs[i];
      ServedPathListed(r, init, libdepends, actual, rule, k, i);
    } else {
      assert k in h;
    }
  }

  /** The four results of `finddepends`. */
  datatype Output = Output(
    dependlist: map<string, set<string>>,
    libdependlist: map<string, string>,
    orphans: set<string>,
    missingProvides: map<string, string>)

  /** `finddepends(libdepends)` against the installed packages `pkgs`, with
      `realpath` standing for the file system's symlink resolution. */
  function FindDepends(libdepends: map<string, string>, pkgs: seq<Installed>, realpath: string -> string,
                       rule: MatchRule): (o: Output)
    ensures o.orphans == set k | k in libdepends && !AnyServes(pkgs, ActualPaths(libdepends, realpath)[k], rule)
    ensures o.libdependlist.Keys + o.missingProvides.Keys + o.orphans <= libdepends.Keys
    ensures o.libdependlist.Keys !! o.orphans && o.missingProvides.Keys !! o.orphans
    ensures forall n :: n in o.dependlist ==> o.dependlist[n] <= libdepends.Values
  {
    var actual := ActualPaths(libdepends, realpath);
    var r := MatchPackages(Start, pkgs, libdepends, actual, rule);
    MatchPackagesConsistent(Start, pkgs, libdepends, actual, rule);
    forall k | k in libdepends
      ensures k in r.found <==> AnyServes(pkgs, actual[k], rule)
    {
      FoundIffServed(Start, pkgs, libdepends, actual, rule, k);
    }
    Output(r.dependlist, r.libdependlist, libdepends.Keys - r.found, r.missingProvides)
  }

  /** A key goes to `libdependlist` exactly when some serving package
      provisions it, and then the last such package owns it; likewise for
      `missing_provides` and the serving packages that do not provide it. */
  lemma LastOwnerWins(libdepends: map<string, string>, pkgs: seq<Installed>, realpath: string -> string,
                      rule: MatchRule, k: string, provider: bool, i: nat)
    requires k in libdepends
    requires i < |pkgs| && Claims(pkgs[i], k, ActualPaths(libdepends, realpath)[k], rule, provider)
    requires forall j :: i < j < |pkgs| ==> !Claims(pkgs[j], k, ActualPaths(libdepends, realpath)[k], rule, provider)
    ensures var o := FindDepends(libdepends, pkgs, realpath, rule);
            var m := if provider then o.libdependlist else o.missingProvides;
            k in m && m[k] == pkgs[i].name
  {
    var actual := ActualPaths(libdepends, realpath);
    LastClaimWins(Start, pkgs, libdepends, actual, rule, k, provider, i);
  }

  /** Without a serving package of a kind the key is absent from that map. */
  lemma NoClaimNoOwner(libdepends: map<string, string>, pkgs: seq<Installed>, realpath: string -> string,
                       rule: MatchRule, k: string, provider: bool)
    requires k in libdepends
    requires forall j :: 0 <= j < |pkgs| ==> !Claims(pkgs[j], k, ActualPaths(libdepends, realpath)[k], rule, provider)
    ensures var o := FindDepends(libdepends, pkgs, realpath, rule);
            k !in (if provider then o.libdependlist else o.missingProvides)
  {
    var actual := ActualPaths(libdepends, realpath);
    UnclaimedUnchanged(Start, pkgs, libdepends, actual, rule, k, provider);
  }

  /** A key served first by a package that provisions it and then by one that
      does not lands in both owner maps. */
  lemma KeyInBothMaps(libdepends: map<string, string>, realpath: string -> string, k: string, ap: string,
                      a: Installed, b: Installed)
    requires k in libdepends && ActualPaths(libdepends, realpath)[k] == ap && Contains(ap, ".so")
    requires a.files == [ap] && k in a.provisions
    requires b.files == [ap] && k !in b.provisions
    ensures var o := FindDepends(libdepends, [a, b], realpath, AsWritten);
            && k in o.libdependlist && o.libdependlist[k] == a.name
            && k in o.missingProvides && o.missingProvides[k] == b.name
  {
    var pkgs := [a, b];
    assert FileHits(AsWritten, a.files[0], ap);
    assert Claims(pkgs[0], k, ap, AsWritten, true);
    assert Claims(pkgs[1], k, ap, AsWritten, false);
    LastOwnerWins(libdepends, pkgs, realpath, AsWritten, k, true, 0);
    LastOwnerWins(libdepends, pkgs, realpath, AsWritten, k, false, 1);
  }

  /** The loops of `finddepends` as written: packages in order, then their
      files; the per-key inner loop touches each key independently, so a
      file's hits are taken together. */
  method FindDependsLoop(libdepends: map<string, string>, pkgs: seq<Installed>, realpath: string -> string,
                         rule: MatchRule)
    returns (dependlist: map<string, set<string>>, libdependlist: map<string, string>,
             orphans: set<string>, missingProvides: map<string, string>)
    ensures Output(dependlist, libdependlist, orphans, missingProvides) == FindDepends(libdepends, pkgs, realpath, rule)
  {
    var actual := ActualPaths(libdepends, realpath);
    var r := Start;
    var i := 0;
    while i < |pkgs|
      invariant 0 <= i <= |pkgs|
      invariant r == MatchPackages(Start, pkgs[..i], libdepends, actual, rule)
    {
      var p := pkgs[i];
      var n := 0;
      var mid := r;
      while n < |p.files|
        invariant 0 <= n <= |p.files|
        invariant mid == MatchFiles(r, p, p.files[..n], libdepends, actual, rule)
      {
        mid := Absorb(mid, p, Hits(rule, p.files[n], actual), libdepends);
        assert p.files[..n + 1][..n] == p.files[..n];
        n := n + 1;
      }
      assert p.files[..n] == p.files;
      assert pkgs[..i + 1][..i] == pkgs[..i];
      r := mid;
      i := i + 1;
    }
    assert pkgs[..i] == pkgs;
    dependlist, libdependlist, missingProvides := r.dependlist, r.libdependlist, r.missingProvides;
    orphans := libdepends.Keys - r.found;
  }
}
