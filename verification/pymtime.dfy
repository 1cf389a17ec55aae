/** The `py_mtime` rule: a compiled Python file whose source is newer than
    itself is stale. Timestamps come from the archive's members and, when
    present, from its `.MTREE` manifest. */
module PyMtime {
  import opened Wrappers
  import opened Strings
  import opened PosixPath

  /** A compiled Python file. */
  predicate Compiled(name: string)
  {
    EndsWith(name, ".pyc") || EndsWith(name, ".pyo")
  }

  /** `any(n.endswith(suffix) for n in names)`. */
  function AnyEndsWith(names: seq<string>, suffix: string): (r: bool)
    ensures r <==> exists i :: 0 <= i < |names| && EndsWith(names[i], suffix)
  {
    if |names| == 0 then false
    else
      assert forall i :: 0 <= i < |names| - 1 ==> names[1..][i] == names[i + 1];
      EndsWith(names[0], suffix) || AnyEndsWith(names[1..], suffix)
  }

  /** `_quick_filter`: the package can be skipped unless it has both a
      source and a compiled file. */
  function QuickFilter(names: seq<string>): (skip: bool)
    ensures |names| == 0 ==> skip
    ensures !skip <==> (exists i :: 0 <= i < |names| && EndsWith(names[i], ".py")) &&
                       (exists j :: 0 <= j < |names| && Compiled(names[j]))
  {
    if |names| == 0 then true
    else
      var foundPy := AnyEndsWith(names, ".py");
      var foundPyc := AnyEndsWith(names, ".pyc");
      var foundPyo := AnyEndsWith(names, ".pyo");
      if foundPy && foundPyc then false
      else if foundPy && foundPyo then false
      else true
  }

  /** `f.split(".")`, `f.pop(-2)`, `".".join(f)`: the second-to-last
      dot-separated field (the interpreter tag) is removed; popping from a
      one-field list raises `IndexError`. */
  function DropTag(name: string): (r: Result<string, PyError>)
    ensures r.Err? <==> '.' !in name
  {
    var f := SplitOn(name, '.');
    if |f| < 2 then
      JoinSplitRoundTrip(name, '.');
      Err(IndexError)
    else
      assert '.' !in name ==> f == [name];
      Ok(JoinWith(f[..|f| - 2] + [f[|f| - 1]], '.'))
  }

  /** The `__pycache__` branch of `_source_py` on the split components. */
  function CacheSource(parts: seq<string>): Result<Option<string>, PyError>
  {
    if |parts| < 2 then Err(IndexError)
    else if parts[|parts| - 2] != "__pycache__" then Ok(None)
    else
      match DropTag(parts[|parts| - 1])
      case Err(e) => Err(e)
      case Ok(n) => Ok(Some(JoinPath(parts[..|parts| - 2] + [n])))
  }

  /** `_source_py`: the source of a compiled file. The split uses the loop
      that stops at any root (the loop as written does not end on paths
      starting with `//`). */
  function SourcePy(path: string): (r: Result<Option<string>, PyError>)
    ensures !Compiled(path) ==> r == Ok(None)
    ensures Compiled(path) && !Contains(path[..|path| - 1], "__pycache__") ==> r == Ok(Some(path[..|path| - 1]))
    ensures Compiled(path) && Contains(path[..|path| - 1], "__pycache__") ==>
              r == CacheSource(SplitAll(path[..|path| - 1]))
  {
    if !Compiled(path) then Ok(None)
    else
      var p := path[..|path| - 1];
      if !Contains(p, "__pycache__") then Ok(Some(p))
      else CacheSource(SplitAll(p))
  }

  /** The `__pycache__` branch of `SourcePy`, as a step a proof can take. */
  lemma SourceInCacheBranch(path: string)
    requires Compiled(path) && Contains(path[..|path| - 1], "__pycache__")
    ensures SourcePy(path) == CacheSource(SplitAll(path[..|path| - 1]))
  {
  }

  /** In a cache directory, `dir/__pycache__/mod.tag.pyc` comes from
      `dir/mod.py` (the layout of section "Proposal" of PEP 3147). */
  lemma SourceOfCachedFile(dir: string, mod: string, tag: string, e: char)
    requires Relative(dir)
    requires |mod| > 0 && '/' !in mod && '.' !in mod
    requires '/' !in tag && '.' !in tag
    requires e == 'c' || e == 'o'
    ensures SourcePy(dir + "/__pycache__/" + mod + "." + tag + ".py" + [e]) == Ok(Some(dir + "/" + mod + ".py"))
  {
    var path := dir + "/__pycache__/" + mod + "." + tag + ".py" + [e];
    var p := dir + "/" + "__pycache__" + "/" + (mod + "." + tag + ".py");
    CachedPathShape(dir, mod, tag, e);
    CachedPathSource(dir, mod, tag);
    assert SourcePy(path) == CacheSource(SplitAll(p));
  }

  /** The compiled path minus its last character, and why it takes the
      `__pycache__` branch. */
  lemma CachedPathShape(dir: string, mod: string, tag: string, e: char)
    requires e == 'c' || e == 'o'
    ensures var path := dir + "/__pycache__/" + mod + "." + tag + ".py" + [e];
            var p := dir + "/" + "__pycache__" + "/" + (mod + "." + tag + ".py");
            && Compiled(path)
            && path[..|path| - 1] == p
            && Contains(p, "__pycache__")
  {
    var path := dir + "/__pycache__/" + mod + "." + tag + ".py" + [e];
    var p := dir + "/" + "__pycache__" + "/" + (mod + "." + tag + ".py");
    assert path[..|path| - 1] == p;
    assert path[|path| - 4..] == ".py" + [e];
    assert p[|dir| + 1..|dir| + 1 + 11] == "__pycache__";
    assert OccursAt(p, "__pycache__", |dir| + 1);
  }

  /** The `__pycache__` branch on `dir/__pycache__/mod.tag.py`. */
  lemma CachedPathSource(dir: string, mod: string, tag: string)
    requires Relative(dir)
    requires |mod| > 0 && '/' !in mod && '.' !in mod
    requires '/' !in tag && '.' !in tag
    ensures CacheSource(SplitAll(dir + "/" + "__pycache__" + "/" + (mod + "." + tag + ".py"))) ==
            Ok(Some(dir + "/" + mod + ".py"))
  {
    var base := mod + "." + tag + ".py";
    NoSlashInCacheName(mod, tag);
    CachedComponents(dir, base);
    var parts := SplitAll(dir) + ["__pycache__", base];
    FieldsOfCacheName(mod, tag);
    assert DropTag(base) == Ok(mod + ".py");
    var kept := SplitAll(dir) + [mod + ".py"];
    assert parts[..|parts| - 2] + [mod + ".py"] == kept;
    assert CacheSource(parts) == Ok(Some(JoinPath(kept)));
    JoinUnderDir(dir, mod);
  }

  /** Joining the components of `dir` and then `mod.py`. */
  lemma JoinUnderDir(dir: string, mod: string)
    requires Relative(dir)
    requires |mod| > 0 && '/' !in mod
    ensures JoinPath(SplitAll(dir) + [mod + ".py"]) == dir + "/" + mod + ".py"
  {
    var f := mod + ".py";
    assert f[0] == mod[0];
    JoinComponent(dir, f);
    assert dir + "/" + f == dir + "/" + mod + ".py";
  }

  /** Joining the components of `dir` and then a relative name `f`. */
  lemma JoinComponent(dir: string, f: string)
    requires Relative(dir)
    requires |f| > 0 && f[0] != '/'
    ensures JoinPath(SplitAll(dir) + [f]) == dir + "/" + f
  {
    var kept := SplitAll(dir) + [f];
    SplitAllJoin(dir);
    assert kept[..|kept| - 1] == SplitAll(dir);
    assert JoinPath(kept) == JoinTwo(dir, f);
    assert !StartsWith(f, "/");
    assert !EndsWith(dir, "/") by {
      assert dir[|dir| - 1..] == [dir[|dir| - 1]];
    }
  }

  /** The components of `dir/__pycache__/base`. */
  lemma CachedComponents(dir: string, base: string)
    requires Relative(dir)
    requires |base| > 0 && '/' !in base
    ensures SplitAll(dir + "/" + "__pycache__" + "/" + base) == SplitAll(dir) + ["__pycache__", base]
  {
    var cache := dir + "/" + "__pycache__";
    RelativeChild(dir, "__pycache__");
    SplitAllChild(cache, base);
    SplitAllChild(dir, "__pycache__");
  }

  lemma NoSlashInCacheName(mod: string, tag: string)
    requires '/' !in mod && '/' !in tag
    ensures '/' !in mod + "." + tag + ".py"
  {
    var base := mod + "." + tag + ".py";
    assert forall i :: 0 <= i < |base| ==> base[i] in mod || base[i] in tag || base[i] in ".py" || base[i] == '.';
  }

  /** `mod.tag.py` splits into its three fields and loses the tag. */
  lemma FieldsOfCacheName(mod: string, tag: string)
    requires '.' !in mod && '.' !in tag
    ensures SplitOn(mod + "." + tag + ".py", '.') == [mod, tag, "py"]
    ensures JoinWith([mod, "py"], '.') == mod + ".py"
  {
    var f := [mod, tag, "py"];
    assert JoinWith(f[2..], '.') == "py";
    assert f[1..][1..] == f[2..];
    assert JoinWith(f[1..], '.') == tag + "." + "py";
    assert JoinWith(f, '.') == mod + "." + tag + ".py";
    SplitJoinRoundTrip(f, '.');
    assert [mod, "py"][1..] == ["py"];
  }

  /** A compiled file under a directory named `__pycache__` somewhere
      higher up, but not directly, has no source. */
  lemma NoSourceOutsideCacheDir(top: string, parent: string, name: string)
    requires Relative(top)
    requires |parent| > 0 && '/' !in parent && parent != "__pycache__"
    requires |name| > 0 && '/' !in name && Compiled(name)
    ensures SourcePy(top + "/" + "__pycache__" + "/" + parent + "/" + name) == Ok(None)
  {
    var dir := top + "/" + "__pycache__" + "/" + parent;
    CacheParentShape(top, parent);
    NoSourceUnderOtherDir(dir, name);
  }

  /** `top/__pycache__/parent` is relative, contains `__pycache__`, and
      ends in `parent`. */
  lemma CacheParentShape(top: string, parent: string)
    requires Relative(top)
    requires |parent| > 0 && '/' !in parent
    ensures var dir := top + "/" + "__pycache__" + "/" + parent;
            && Relative(dir)
            && Contains(dir, "__pycache__")
            && SplitAll(dir)[|SplitAll(dir)| - 1] == parent
  {
    var cache := top + "/" + "__pycache__";
    var dir := cache + "/" + parent;
    RelativeChild(top, "__pycache__");
    RelativeChild(cache, parent);
    assert OccursAt(dir, "__pycache__", |top| + 1) by {
      assert dir[|top| + 1..|top| + 12] == "__pycache__";
    }
    SplitAllChild(cache, parent);
  }

  /** The same for any relative directory containing `__pycache__` whose
      last component is something else. */
  lemma NoSourceUnderOtherDir(dir: string, name: string)
    requires Relative(dir) && Contains(dir, "__pycache__")
    requires SplitAll(dir)[|SplitAll(dir)| - 1] != "__pycache__"
    requires |name| > 0 && '/' !in name && Compiled(name)
    ensures SourcePy(dir + "/" + name) == Ok(None)
  {
    var path := dir + "/" + name;
    var t := name[..|name| - 1];
    ChildPathShape(dir, name);
    SourceInCacheBranch(path);
    SplitAllChild(dir, t);
    SplitAllJoin(dir);
    var parts := SplitAll(dir) + [t];
    assert SplitAll(path[..|path| - 1]) == parts;
    assert parts[|parts| - 2] == SplitAll(dir)[|SplitAll(dir)| - 1];
    assert CacheSource(parts) == Ok(None);
  }

  /** `dir/name` minus its last character, and why it takes the
      `__pycache__` branch. */
  lemma ChildPathShape(dir: string, name: string)
    requires Contains(dir, "__pycache__")
    requires |name| > 0 && '/' !in name && Compiled(name)
    ensures var path := dir + "/" + name;
            var t := name[..|name| - 1];
            && Compiled(path)
            && path[..|path| - 1] == dir + "/" + t
            && Contains(dir + "/" + t, "__pycache__")
            && |t| > 0 && '/' !in t
  {
    var path := dir + "/" + name;
    var t := name[..|name| - 1];
    assert path[..|path| - 1] == dir + "/" + t;
    assert path[|path| - 4..] == name[|name| - 4..];
    var i: nat :| i <= |dir| && OccursAt(dir, "__pycache__", i);
    assert (dir + "/" + t)[i..i + 11] == dir[i..i + 11];
    assert OccursAt(dir + "/" + t, "__pycache__", i);
    assert forall i :: 0 <= i < |t| ==> t[i] == name[i];
  }

  /** A dictionary of timestamps: keys in insertion order, and the value of
      each. */
  datatype Stamps = Stamps(keys: seq<string>, time: map<string, real>)

  ghost predicate ValidStamps(d: Stamps)
  {
    && (forall i, j :: 0 <= i < j < |d.keys| ==> d.keys[i] != d.keys[j])
    && (forall k :: k in d.time <==> k in d.keys)
  }

  /** `dict(pairs)`: a repeated name keeps its first position and takes its
      last value. */
  function FromPairs(pairs: seq<(string, real)>): (d: Stamps)
    ensures ValidStamps(d)
    ensures forall k :: k in d.time <==> exists i :: 0 <= i < |pairs| && pairs[i].0 == k
  {
    if |pairs| == 0 then Stamps([], map[])
    else
      var d := FromPairs(pairs[..|pairs| - 1]);
      var (k, v) := pairs[|pairs| - 1];
      if k in d.time then Stamps(d.keys, d.time[k := v])
      else Stamps(d.keys + [k], d.time[k := v])
  }

  /** The value a name ends up with is its last one. */
  lemma {:induction false} FromPairsLastWins(pairs: seq<(string, real)>, i: nat)
    requires i < |pairs|
    requires forall j :: i < j < |pairs| ==> pairs[j].0 != pairs[i].0
    ensures pairs[i].0 in FromPairs(pairs).time && FromPairs(pairs).time[pairs[i].0] == pairs[i].1
  {
    if i < |pairs| - 1 {
      var init := pairs[..|pairs| - 1];
      assert init[i] == pairs[i];
      assert forall j :: i < j < |init| ==> init[j] == pairs[j];
      FromPairsLastWins(init, i);
    }
  }

  /** `x` is the source of `name`, present with a strictly later time. */
  ghost predicate StaleSource(d: Stamps, name: string, x: string)
  {
    && Compiled(name)
    && SourcePy(name) == Ok(Some(x))
    && name in d.time && x in d.time
    && d.time[x] > d.time[name]
  }

  /** The loop of `_mtime_filter` over the first keys. */
  function MtimeScan(d: Stamps, keys: seq<string>): (r: Result<seq<string>, PyError>)
    ensures r.Ok? ==> |r.value| <= |keys|
  {
    if |keys| == 0 then Ok([])
    else
      var name := keys[|keys| - 1];
      var rest := MtimeScan(d, keys[..|keys| - 1]);
      if rest.Err? then rest
      else if !Compiled(name) then rest
      else
        match SourcePy(name)
        case Err(e) => Err(e)
        case Ok(src) =>
          if src.Some? && src.value in d.time && name in d.time && d.time[src.value] > d.time[name] then
            Ok(rest.value + [src.value])
          else rest
  }

  /** The loop fails exactly when some compiled key makes `_source_py`
      raise, and otherwise collects exactly the stale sources of the keys. */
  lemma {:induction false} MtimeScanMeans(d: Stamps, keys: seq<string>)
    ensures MtimeScan(d, keys).Err? <==> exists i :: 0 <= i < |keys| && Compiled(keys[i]) && SourcePy(keys[i]).Err?
    ensures MtimeScan(d, keys).Ok? ==> forall x :: x in MtimeScan(d, keys).value <==>
              exists i :: 0 <= i < |keys| && StaleSource(d, keys[i], x)
  {
    if |keys| > 0 {
      var init := keys[..|keys| - 1];
      MtimeScanMeans(d, init);
      assert forall i :: 0 <= i < |init| ==> init[i] == keys[i];
    }
  }

  /** `_mtime_filter`: the sources newer than their compiled files, in
      dictionary order; `IndexError` escapes from `_source_py`. */
  function MtimeFilter(d: Stamps): (r: Result<seq<string>, PyError>)
    requires ValidStamps(d)
    ensures r.Ok? ==> forall x :: x in r.value <==> exists name :: name in d.time && StaleSource(d, name, x)
    ensures r.Err? <==> exists name :: name in d.time && Compiled(name) && SourcePy(name).Err?
  {
    MtimeScanWhole(d);
    MtimeScan(d, d.keys)
  }

  /** Over all keys, "some key" is "some name in the dictionary". */
  lemma MtimeScanWhole(d: Stamps)
    requires ValidStamps(d)
    ensures var r := MtimeScan(d, d.keys);
            && (r.Ok? ==> forall x :: x in r.value <==> exists name :: name in d.time && StaleSource(d, name, x))
            && (r.Err? <==> exists name :: name in d.time && Compiled(name) && SourcePy(name).Err?)
  {
    var r := MtimeScan(d, d.keys);
    MtimeScanMeans(d, d.keys);
    if r.Ok? {
      forall x | x in r.value ensures exists name :: name in d.time && StaleSource(d, name, x) {
        var i :| 0 <= i < |d.keys| && StaleSource(d, d.keys[i], x);
      }
      forall x, name | name in d.time && StaleSource(d, name, x) ensures x in r.value {
        var i :| 0 <= i < |d.keys| && d.keys[i] == name;
      }
    } else {
      var i :| 0 <= i < |d.keys| && Compiled(d.keys[i]) && SourcePy(d.keys[i]).Err?;
      assert d.keys[i] in d.time;
    }
    forall name | name in d.time && Compiled(name) && SourcePy(name).Err? ensures r.Err? {
      var i :| 0 <= i < |d.keys| && d.keys[i] == name;
    }
  }

  /** Equal times are not stale: only a strictly newer source counts. */
  lemma EqualTimesNotStale(d: Stamps, name: string, x: string)
    requires name in d.time && x in d.time && d.time[x] == d.time[name]
    ensures !StaleSource(d, name, x)
  {
  }

  /** One archive member: its name and modification time. */
  datatype Member = Member(name: string, mtime: real)

  /** One `.MTREE` entry: its path and its `time` keyword, if any. */
  datatype MtreeEntry = MtreeEntry(path: string, time: Option<real>)

  function Names(members: seq<Member>): (r: seq<string>)
    ensures |r| == |members|
    ensures forall i :: 0 <= i < |members| ==> r[i] == members[i].name
  {
    if |members| == 0 then [] else Names(members[..|members| - 1]) + [members[|members| - 1].name]
  }

  /** `_tar_timestamps`. */
  function TarStamps(members: seq<Member>): Stamps
  {
    FromPairs(seq(|members|, i requires 0 <= i < |members| => (members[i].name, members[i].mtime)))
  }

  /** `_mtree_timestamps`: entries without a time are left out. */
  function MtreeStamps(entries: seq<MtreeEntry>): Stamps
  {
    FromPairs(Timed(entries))
  }

  function Timed(entries: seq<MtreeEntry>): (r: seq<(string, real)>)
    ensures forall e :: e in entries && e.time.Some? ==> (e.path, e.time.value) in r
    ensures forall p :: p in r ==> MtreeEntry(p.0, Some(p.1)) in entries
  {
    if |entries| == 0 then []
    else
      var init := entries[..|entries| - 1];
      var e := entries[|entries| - 1];
      assert entries == init + [e];
      Timed(init) + (if e.time.Some? then [(e.path, e.time.value)] else [])
  }

  /** The archive as the rule sees it. */
  datatype Archive = Archive(members: seq<Member>, mtree: seq<MtreeEntry>)

  /** `_try_mtree`: `None` without a manifest, else whether it shows no
      stale file. */
  function TryMtree(a: Archive): (r: Result<Option<bool>, PyError>)
    ensures ".MTREE" !in Names(a.members) ==> r == Ok(None)
    ensures ".MTREE" in Names(a.members) && QuickFilter(MtreeStamps(a.mtree).keys) ==> r == Ok(Some(true))
    ensures r == Ok(Some(false)) <==>
              ".MTREE" in Names(a.members) && !QuickFilter(MtreeStamps(a.mtree).keys) &&
              MtimeFilter(MtreeStamps(a.mtree)).Ok? && |MtimeFilter(MtreeStamps(a.mtree)).value| > 0
    ensures r.Err? <==>
              ".MTREE" in Names(a.members) && !QuickFilter(MtreeStamps(a.mtree).keys) &&
              MtimeFilter(MtreeStamps(a.mtree)).Err?
  {
    if ".MTREE" !in Names(a.members) then Ok(None)
    else
      var stamps := MtreeStamps(a.mtree);
      if QuickFilter(stamps.keys) then Ok(Some(true))
      else
        match MtimeFilter(stamps)
        case Err(e) => Err(e)
        case Ok(bad) => Ok(Some(|bad| == 0))
  }

  /** `_try_tar`: whether the member times show no stale file. */
  function TryTar(a: Archive): (r: Result<bool, PyError>)
    ensures QuickFilter(Names(a.members)) ==> r == Ok(true)
    ensures r == Ok(false) <==>
              !QuickFilter(Names(a.members)) &&
              MtimeFilter(TarStamps(a.members)).Ok? && |MtimeFilter(TarStamps(a.members)).value| > 0
    ensures r.Err? <==> !QuickFilter(Names(a.members)) && MtimeFilter(TarStamps(a.members)).Err?
  {
    if QuickFilter(Names(a.members)) then Ok(true)
    else
      match MtimeFilter(TarStamps(a.members))
      case Err(e) => Err(e)
      case Ok(bad) => Ok(|bad| == 0)
  }

  /** `_generic_timestamps`. */
  function GenericStamps(a: Archive): Stamps
  {
    if ".MTREE" in Names(a.members) then MtreeStamps(a.mtree) else TarStamps(a.members)
  }

  /** What the rule reports: the warning, the error, and the stale sources
      without their first character. */
  datatype Verdict = Verdict(warning: bool, error: bool, infos: seq<string>)

  /** How `package.analyze` combines the two checks and the stale-source
      scan into one report; the first error met is the one raised. */
  function Combine(mtree: Result<Option<bool>, PyError>, tar: Result<bool, PyError>,
                   bad: Result<seq<string>, PyError>): (r: Result<Verdict, PyError>)
    ensures r.Err? <==> mtree.Err? || tar.Err? || bad.Err?
    ensures r.Ok? ==> (r.value.warning <==> mtree.value == Some(false) && tar.value)
    ensures r.Ok? ==> (r.value.error <==> !tar.value)
    ensures r.Ok? ==> !(r.value.warning && r.value.error)
    ensures r.Ok? ==> |r.value.infos| == |bad.value|
    ensures r.Ok? ==> forall i :: 0 <= i < |bad.value| ==> r.value.infos[i] == DropFirst(bad.value[i])
  {
    match mtree
    case Err(e) => Err(e)
    case Ok(mtreeStatus) =>
      match tar
      case Err(e) => Err(e)
      case Ok(tarStatus) =>
        var warning := mtreeStatus == Some(false) && tarStatus;
        var error := !warning && !tarStatus;
        match bad
        case Err(e) => Err(e)
        case Ok(b) => Ok(Verdict(warning, error, seq(|b|, i requires 0 <= i < |b| => DropFirst(b[i]))))
  }

  /** `package.analyze`. */
  function Analyze(a: Archive): (r: Result<Verdict, PyError>)
    ensures r.Err? <==> TryMtree(a).Err? || TryTar(a).Err? || MtimeFilter(GenericStamps(a)).Err?
    ensures r.Ok? ==> (r.value.warning <==> TryMtree(a).value == Some(false) && TryTar(a).value)
    ensures r.Ok? ==> (r.value.error <==> !TryTar(a).value)
    ensures r.Ok? ==> !(r.value.warning && r.value.error)
    ensures r.Ok? ==> var bad := MtimeFilter(GenericStamps(a));
              && bad.Ok?
              && |r.value.infos| == |bad.value|
              && forall i :: 0 <= i < |bad.value| ==> r.value.infos[i] == DropFirst(bad.value[i])
  {
    Combine(TryMtree(a), TryTar(a), MtimeFilter(GenericStamps(a)))
  }
}
