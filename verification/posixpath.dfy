/** The parts of Python's `posixpath` the rules rely on: `split`, `dirname`,
    `join`, and the rules' own `_split_all` loop. */
module PosixPath {
  import opened Wrappers
  import opened Strings

  /** `s` with every trailing `/` removed (Python's `s.rstrip("/")`). */
  function RStripSlashes(s: string): (r: string)
    ensures r <= s
    ensures forall j :: |r| <= j < |s| ==> s[j] == '/'
    ensures |r| == 0 || r[|r| - 1] != '/'
  {
    if |s| > 0 && s[|s| - 1] == '/' then RStripSlashes(s[..|s| - 1]) else s
  }

  /** Index just past the last `/` of `p`, or 0 when it has none. */
  function TailStart(p: string): (i: nat)
    ensures i <= |p|
    ensures i > 0 ==> p[i - 1] == '/'
    ensures forall j :: i <= j < |p| ==> p[j] != '/'
  {
    match LastBefore(p, "/", |p|)
    case Some(k) =>
      assert OccursAt(p, "/", k);
      assert p[k..k + 1][0] == p[k];
      forall j | k + 1 <= j < |p| ensures p[j] != '/' {
        assert !OccursAt(p, "/", j);
        assert p[j..j + 1] == [p[j]];
      }
      k + 1
    case None =>
      forall j | 0 <= j < |p| ensures p[j] != '/' {
        assert !OccursAt(p, "/", j);
        assert p[j..j + 1] == [p[j]];
      }
      0
  }

  /** Python's `os.path.split(p)`: the tail is everything after the last
      `/`; the head is everything up to it, with its trailing slashes
      stripped unless the head consists of slashes only. */
  function Split(p: string): (r: (string, string))
    ensures '/' !in r.1
    ensures |p| > 0 && !AllSlashes(p) ==> |r.0| < |p|
  {
    var i := TailStart(p);
    var head := p[..i];
    var tail := p[i..];
    if head != "" && !AllSlashes(head) then
      var h := RStripSlashes(head);
      assert head[|head| - 1] == '/';
      (h, tail)
    else
      (head, tail)
  }

  /** What `Split` drops between head and tail is slashes only: the path is
      the head, then a run of `/`, then the tail. */
  lemma SplitRecombines(p: string)
    ensures var r := Split(p);
      r.0 <= p && EndsWith(p, r.1) && |r.0| + |r.1| <= |p|
    ensures var r := Split(p);
      forall j :: |r.0| <= j < |p| - |r.1| ==> p[j] == '/'
  {
    var r := Split(p);
    var i := TailStart(p);
    assert r.1 == p[i..];
    if p[..i] != "" && !AllSlashes(p[..i]) {
      assert r.0 == RStripSlashes(p[..i]);
    } else {
      assert r.0 == p[..i];
    }
  }

  /** Python's `os.path.dirname(p)`. */
  function Dirname(p: string): string
  {
    Split(p).0
  }

  /** In `dir/base` with no `/` in `base`, the tail starts right after the
      separator. */
  lemma TailStartOfChild(dir: string, base: string)
    requires '/' !in base
    ensures TailStart(dir + "/" + base) == |dir| + 1
  {
    var p := dir + "/" + base;
    assert p[|dir|] == '/';
    assert forall j :: |dir| < j < |p| ==> p[j] == base[j - |dir| - 1];
  }

  /** The directory part of `dir/base` is `dir` whenever `base` has no `/`
      and `dir` does not end in `/`. */
  lemma DirnameOfChild(dir: string, base: string)
    requires '/' !in base
    requires |dir| > 0 && dir[|dir| - 1] != '/'
    ensures Dirname(dir + "/" + base) == dir
  {
    var p := dir + "/" + base;
    TailStartOfChild(dir, base);
    var head := p[..|dir| + 1];
    assert head == dir + "/";
    assert head[|dir| - 1] != '/';
    assert head[|dir|] == '/';
    var h := RStripSlashes(head);
    assert h == head[..|h|];
    assert |h| == |dir|;
  }

  /** `_split_all` as written: the loop `while p2 and p2 != "/"` splits off
      the last component until the head is empty or exactly `/`. Python
      gives no bound on the loop; `fuel` bounds it here and `None` means the
      bound ran out. */
  function SplitAllFuel(p: string, fuel: nat): (r: Option<seq<string>>)
    ensures r.Some? ==> forall i :: 0 <= i < |r.value| ==> '/' !in r.value[i]
    decreases fuel
  {
    if p == "" || p == "/" then Some([])
    else if fuel == 0 then None
    else
      var parts := Split(p);
      var rest := SplitAllFuel(parts.0, fuel - 1);
      if rest.None? then None else Some(rest.value + [parts.1])
  }

  /** `_split_all` with the loop stopping at any root, however many slashes
      spell it. */
  function SplitAll(p: string): (r: seq<string>)
    ensures forall i :: 0 <= i < |r| ==> '/' !in r[i]
    decreases |p|
  {
    if p == "" || AllSlashes(p) then []
    else
      var parts := Split(p);
      SplitAll(parts.0) + [parts.1]
  }

  /** Once the head reaches `//` the as-written loop makes no progress:
      `os.path.split("//")` is `("//", "")`, so no fuel is ever enough. */
  lemma {:induction false} SplitAllFuelLoopsOnDoubleSlash(fuel: nat)
    ensures SplitAllFuel("//", fuel) == None
  {
    var p := "//";
    assert OccursAt(p, "/", 1);
    assert LastBefore(p, "/", 2) == Some(1);
    assert TailStart(p) == 2;
    assert p[..2] == p;
    assert p[2..] == "";
    assert AllSlashes(p[..2]);
    assert Split(p) == ("//", "");
    if fuel > 0 {
      SplitAllFuelLoopsOnDoubleSlash(fuel - 1);
    }
  }

  /** A path that starts with `//` and has one more component reaches the
      `//` head after one step, so the loop never ends. */
  lemma SplitAllFuelLoopsUnderDoubleSlashRoot(name: string, fuel: nat)
    requires |name| > 0 && '/' !in name
    ensures SplitAllFuel("//" + name, fuel) == None
  {
    var p := "//" + name;
    assert p == "/" + "/" + name;
    TailStartOfChild("/", name);
    assert p[..2] == "//";
    assert AllSlashes(p[..2]);
    assert !AllSlashes(p) by { assert p[2] == name[0]; }
    assert Split(p) == ("//", name);
    if fuel > 0 {
      SplitAllFuelLoopsOnDoubleSlash(fuel - 1);
    }
  }

  /** On paths that do not start with `/` the corrected loop agrees with the
      as-written one, which then needs no more steps than the path has
      characters. */
  lemma {:induction false} SplitAllAgreesOnRelative(p: string, fuel: nat)
    requires p == "" || p[0] != '/'
    requires fuel > |p|
    ensures SplitAllFuel(p, fuel) == Some(SplitAll(p))
    decreases fuel
  {
    if p == "" {
      assert SplitAll(p) == [];
    } else {
      var h := Split(p).0;
      assert !AllSlashes(p) && |h| < |p| && (h == "" || h[0] != '/') by {
        var h' := HeadOfRelative(p);
      }
      assert SplitAllFuel(h, fuel - 1) == Some(SplitAll(h)) by {
        SplitAllAgreesOnRelative(h, fuel - 1);
      }
      SplitSteps(p, fuel);
    }
  }

  /** The head of a path that starts with another character is shorter and
      starts the same way. */
  lemma HeadOfRelative(p: string) returns (h: string)
    requires p != "" && p[0] != '/'
    ensures h == Split(p).0
    ensures p != "/" && !AllSlashes(p)
    ensures |h| < |p|
    ensures h == "" || h[0] != '/'
  {
    assert !AllSlashes(p);
    SplitRecombines(p);
    h := Split(p).0;
    assert h == "" || h[0] == p[0];
  }

  /** One turn of both loops. */
  lemma SplitSteps(p: string, fuel: nat)
    requires p != "" && !AllSlashes(p) && fuel > 0
    requires SplitAllFuel(Split(p).0, fuel - 1) == Some(SplitAll(Split(p).0))
    ensures SplitAllFuel(p, fuel) == Some(SplitAll(p))
  {
    assert p != "/";
  }

  /** Python's `os.path.join(a, b)`. */
  function JoinTwo(a: string, b: string): string
  {
    if StartsWith(b, "/") then b
    else if a == "" || EndsWith(a, "/") then a + b
    else a + "/" + b
  }

  /** Python's `os.path.join(*parts)` for at least one part. */
  function JoinPath(parts: seq<string>): string
    requires |parts| >= 1
  {
    if |parts| == 1 then parts[0]
    else JoinTwo(JoinPath(parts[..|parts| - 1]), parts[|parts| - 1])
  }

  /** A relative path with no empty component: no leading, trailing or
      doubled `/`. */
  predicate Relative(p: string)
  {
    && |p| > 0
    && p[0] != '/'
    && p[|p| - 1] != '/'
    && forall i :: 0 <= i < |p| - 1 ==> !(p[i] == '/' && p[i + 1] == '/')
  }

  /** Splitting `a/t` peels off exactly `t` and leaves `a`. */
  lemma SplitChild(a: string, t: string)
    requires Relative(a)
    requires |t| > 0 && '/' !in t
    ensures Split(a + "/" + t) == (a, t)
  {
    DirnameOfChild(a, t);
    TailStartOfChild(a, t);
    var p := a + "/" + t;
    assert p[|a| + 1..] == t;
  }

  /** Splitting every component and joining them back gives the path. */
  lemma {:induction false} SplitAllJoin(p: string)
    requires Relative(p)
    ensures |SplitAll(p)| >= 1
    ensures JoinPath(SplitAll(p)) == p
    decreases |p|
  {
    assert !AllSlashes(p);
    var i := TailStart(p);
    if i == 0 {
      assert Split(p) == ("", p);
      assert SplitAll(p) == [] + [p];
    } else {
      var a, t := ParentAndLast(p);
      SplitAllChild(a, t);
      SplitAllJoin(a);
      var parts := SplitAll(a) + [t];
      assert parts[..|parts| - 1] == SplitAll(a);
      assert JoinPath(parts) == JoinTwo(a, t);
      assert t[0] != '/' && a[|a| - 1] != '/';
    }
  }

  /** Appending a component appends it to the split. */
  lemma SplitAllChild(a: string, t: string)
    requires Relative(a)
    requires |t| > 0 && '/' !in t
    ensures SplitAll(a + "/" + t) == SplitAll(a) + [t]
  {
    SplitChild(a, t);
    assert (a + "/" + t)[0] == a[0];
  }

  /** Where the as-written loop never ends, the corrected one stops at the
      `//` root: under it, the components are those of the relative rest. */
  lemma {:induction false} SplitAllUnderDoubleSlashRoot(a: string)
    requires Relative(a)
    ensures SplitAll("//" + a) == SplitAll(a)
    decreases |a|
  {
    if TailStart(a) == 0 {
      DoubleSlashRootSingle(a);
    } else {
      var b, t := ParentAndLast(a);
      SplitAllUnderDoubleSlashRoot(b);
      DoubleSlashRootChild(b, t);
      PrefixOfChild("//", a, b, t);
    }
  }

  /** One turn of the corrected loop. */
  lemma SplitAllStep(p: string)
    requires p != "" && !AllSlashes(p)
    ensures SplitAll(p) == SplitAll(Split(p).0) + [Split(p).1]
  {
  }

  /** Prefixing a child path re-associates onto its parent. */
  lemma PrefixOfChild(x: string, a: string, b: string, t: string)
    requires a == b + "/" + t
    ensures x + a == x + b + "/" + t
  {
  }

  /** A single component under a `//` root splits to itself. */
  lemma DoubleSlashRootSingle(a: string)
    requires Relative(a) && TailStart(a) == 0
    ensures SplitAll("//" + a) == SplitAll(a)
  {
    assert Split(a) == ("", a);
    assert SplitAll(a) == [] + [a];
    SplitUnderDoubleSlash(a);
  }

  /** Adding a last component under a `//` root adds it to both splits. */
  lemma DoubleSlashRootChild(b: string, t: string)
    requires Relative(b)
    requires |t| > 0 && '/' !in t
    requires SplitAll("//" + b) == SplitAll(b)
    ensures SplitAll("//" + b + "/" + t) == SplitAll(b + "/" + t)
  {
    SplitChildUnderDoubleSlash(b, t);
    SplitAllStep("//" + b + "/" + t);
    SplitAllChild(b, t);
  }

  /** A relative path with a `/` is a relative parent, a `/`, and a last
      component. */
  lemma ParentAndLast(a: string) returns (b: string, t: string)
    requires Relative(a) && TailStart(a) > 0
    ensures a == b + "/" + t
    ensures Relative(b) && |t| > 0 && '/' !in t
  {
    var k := TailStart(a) - 1;
    assert a[k] == '/';
    b := a[..k];
    t := a[k + 1..];
    assert a == b + "/" + t;
    assert b[k - 1] == a[k - 1];
  }

  /** `os.path.split("//name")` is `("//", "name")`. */
  lemma SplitUnderDoubleSlash(a: string)
    requires |a| > 0 && '/' !in a
    ensures !AllSlashes("//" + a) && Split("//" + a) == ("//", a)
  {
    var p := "//" + a;
    assert p[2] == a[0];
    TailStartOfChild("/", a);
    assert p == "/" + "/" + a;
    assert p[..2] == "//";
    assert AllSlashes(p[..2]);
  }

  /** `os.path.split("//b/t")` is `("//b", "t")`. */
  lemma SplitChildUnderDoubleSlash(b: string, t: string)
    requires Relative(b)
    requires |t| > 0 && '/' !in t
    ensures !AllSlashes("//" + b + "/" + t) && Split("//" + b + "/" + t) == ("//" + b, t)
  {
    var q := "//" + b;
    var p := q + "/" + t;
    assert p[2] == b[0];
    assert q[|q| - 1] == b[|b| - 1];
    DirnameOfChild(q, t);
    TailStartOfChild(q, t);
    assert p[|q| + 1..] == t;
  }

  /** A further component keeps a path relative. */
  lemma RelativeChild(a: string, t: string)
    requires Relative(a)
    requires |t| > 0 && '/' !in t
    ensures Relative(a + "/" + t)
  {
    var p := a + "/" + t;
    forall i | 0 <= i < |p| - 1 ensures !(p[i] == '/' && p[i + 1] == '/') {
      if i < |a| - 1 {
        assert p[i] == a[i] && p[i + 1] == a[i + 1];
      } else if i == |a| - 1 {
        assert p[i] == a[|a| - 1];
      } else if i == |a| {
        assert p[i + 1] == t[0];
      } else {
        assert p[i] == t[i - |a| - 1];
      }
    }
    assert p[|p| - 1] == t[|t| - 1];
  }
}
