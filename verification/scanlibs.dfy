/** `scanlibs` of `sodepends`, past the ELF reader: one binary's dynamic
    tags are turned into needed-library and provided-library records. */
module ScanLibs {
  import opened Wrappers
  import opened Strings
  import opened PosixPath
  import opened SoKey
  import opened LibCache

  /** One entry of a binary's dynamic section, already decoded. */
  datatype Tag = SonameTag(soname: string) | NeededTag(needed: string) | OtherTag

  /** A binary the ELF reader accepted: its word size and its dynamic tags. */
  datatype ElfFile = ElfFile(elfclass: ElfClass, tags: seq<Tag>)

  /** The three package-wide maps `scanlibs` fills:
      `liblist` (library path to the files needing it),
      `libdepends` (key to library path) and
      `libprovides` (key to the files providing it). */
  datatype ScanState = ScanState(
    liblist: map<string, set<string>>,
    libdepends: map<string, string>,
    libprovides: map<string, set<string>>)

  const Empty := ScanState(map[], map[], map[])

  /** The directories whose libraries count as provisions. */
  const LibDirs: set<string> := {"usr/lib", "usr/lib32"}

  /** `m[k].add(v)` on a `defaultdict(set)`. */
  function AddTo(m: map<string, set<string>>, k: string, v: string): (r: map<string, set<string>>)
    ensures r.Keys == m.Keys + {k}
    ensures v in r[k] && r[k] == (if k in m then m[k] else {}) + {v}
    ensures forall k' :: k' in m && k' != k ==> r[k'] == m[k']
  {
    m[k := (if k in m then m[k] else {}) + {v}]
  }

  /** The path a needed library not listed in the overrides is recorded
      under: `os.path.abspath` of the cache entry for the binary's own class
      without its leading `/`, or the raw name when the cache has none. */
  function NeededPath(lib: string, c: ElfClass, cache: Cache, abspath: string -> string): (p: string)
    ensures lib !in Lookup(cache, ArchOf(c)) ==> p == lib
    ensures lib in Lookup(cache, ArchOf(c)) ==> p == DropFirst(abspath(Lookup(cache, ArchOf(c))[lib]))
  {
    var m := Lookup(cache, ArchOf(c));
    if lib in m then DropFirst(abspath(m[lib])) else lib
  }

  /** What the scanner needs besides the tags. */
  datatype Context = Context(
    filename: string,
    elfclass: ElfClass,
    custom: map<string, string>,
    cache: Cache,
    abspath: string -> string)

  /** One tag. */
  function ScanTag(st: ScanState, t: Tag, ctx: Context): ScanState
  {
    match t
    case SonameTag(s) =>
      if Dirname(ctx.filename) in LibDirs then
        st.(libprovides := AddTo(st.libprovides, Key(s, ctx.elfclass), ctx.filename))
      else st
    case NeededTag(lib) =>
      if lib in ctx.custom then st
      else
        var path := NeededPath(lib, ctx.elfclass, ctx.cache, ctx.abspath);
        st.(libdepends := st.libdepends[Key(lib, ctx.elfclass) := path],
            liblist := AddTo(st.liblist, path, ctx.filename))
    case OtherTag => st
  }

  /** The tags in order. */
  function ScanTags(st: ScanState, tags: seq<Tag>, ctx: Context): ScanState
  {
    if |tags| == 0 then st
    else ScanTag(ScanTags(st, tags[..|tags| - 1], ctx), tags[|tags| - 1], ctx)
  }

  /** `scanlibs`: a file the ELF check rejects (`None`) changes nothing. */
  function ScanFile(st: ScanState, file: Option<ElfFile>, filename: string, custom: map<string, string>,
                    cache: Cache, abspath: string -> string): ScanState
  {
    match file
    case None => st
    case Some(f) => ScanTags(st, f.tags, Context(filename, f.elfclass, custom, cache, abspath))
  }

  /** A needed library the scanner records: not served by the overrides. */
  predicate Recorded(t: Tag, custom: map<string, string>)
  {
    t.NeededTag? && t.needed !in custom
  }

  /** Every recorded path is a `liblist` key. */
  ghost predicate WellFormed(st: ScanState)
  {
    forall k :: k in st.libdepends ==> st.libdepends[k] in st.liblist
  }

  /** Scanning keeps every recorded path listed in `liblist`. */
  lemma {:induction false} ScanTagsWellFormed(st: ScanState, tags: seq<Tag>, ctx: Context)
    requires WellFormed(st)
    ensures WellFormed(ScanTags(st, tags, ctx))
  {
    if |tags| > 0 {
      ScanTagsWellFormed(st, tags[..|tags| - 1], ctx);
    }
  }

  /** The names the self-identification tags among `tags` carry. */
  ghost function SonameNames(tags: seq<Tag>): set<string>
  {
    set i | 0 <= i < |tags| && tags[i].SonameTag? :: tags[i].soname
  }

  /** Their keys. */
  ghost function SonameKeys(tags: seq<Tag>, c: ElfClass): set<string>
  {
    set n | n in SonameNames(tags) :: Key(n, c)
  }

  /** The needed libraries among `tags` the scanner records. */
  ghost function NeededNames(tags: seq<Tag>, custom: map<string, string>): set<string>
  {
    set i | 0 <= i < |tags| && Recorded(tags[i], custom) :: tags[i].needed
  }

  /** Their keys. */
  ghost function NeededKeys(tags: seq<Tag>, custom: map<string, string>, c: ElfClass): set<string>
  {
    set n | n in NeededNames(tags, custom) :: Key(n, c)
  }

  lemma SonameNamesSnoc(tags: seq<Tag>)
    requires |tags| > 0
    ensures SonameNames(tags) ==
            SonameNames(tags[..|tags| - 1]) +
            (if tags[|tags| - 1].SonameTag? then {tags[|tags| - 1].soname} else {})
  {
    var init := tags[..|tags| - 1];
    forall x | x in SonameNames(tags)
      ensures x in SonameNames(init) || (tags[|tags| - 1].SonameTag? && x == tags[|tags| - 1].soname)
    {
      var i :| 0 <= i < |tags| && tags[i].SonameTag? && x == tags[i].soname;
      if i < |init| {
        assert init[i] == tags[i];
      }
    }
    forall x | x in SonameNames(init) ensures x in SonameNames(tags) {
      var i :| 0 <= i < |init| && init[i].SonameTag? && x == init[i].soname;
      assert tags[i] == init[i];
    }
  }

  lemma SonameKeysSnoc(tags: seq<Tag>, c: ElfClass)
    requires |tags| > 0
    ensures SonameKeys(tags, c) ==
            SonameKeys(tags[..|tags| - 1], c) +
            (if tags[|tags| - 1].SonameTag? then {Key(tags[|tags| - 1].soname, c)} else {})
  {
    SonameNamesSnoc(tags);
  }

  lemma NeededNamesSnoc(tags: seq<Tag>, custom: map<string, string>)
    requires |tags| > 0
    ensures NeededNames(tags, custom) ==
            NeededNames(tags[..|tags| - 1], custom) +
            (if Recorded(tags[|tags| - 1], custom) then {tags[|tags| - 1].needed} else {})
  {
    var init := tags[..|tags| - 1];
    forall x | x in NeededNames(tags, custom)
      ensures x in NeededNames(init, custom) || (Recorded(tags[|tags| - 1], custom) && x == tags[|tags| - 1].needed)
    {
      var i :| 0 <= i < |tags| && Recorded(tags[i], custom) && x == tags[i].needed;
      if i < |init| {
        assert init[i] == tags[i];
      }
    }
    forall x | x in NeededNames(init, custom) ensures x in NeededNames(tags, custom) {
      var i :| 0 <= i < |init| && Recorded(init[i], custom) && x == init[i].needed;
      assert tags[i] == init[i];
    }
  }

  lemma NeededKeysSnoc(tags: seq<Tag>, custom: map<string, string>, c: ElfClass)
    requires |tags| > 0
    ensures NeededKeys(tags, custom, c) ==
            NeededKeys(tags[..|tags| - 1], custom, c) +
            (if Recorded(tags[|tags| - 1], custom) then {Key(tags[|tags| - 1].needed, c)} else {})
  {
    NeededNamesSnoc(tags, custom);
  }

  /** Provisions come only from files whose directory is `usr/lib` or
      `usr/lib32`. */
  lemma {:induction false} ProvidesOnlyFromLibDirs(st: ScanState, tags: seq<Tag>, ctx: Context)
    requires Dirname(ctx.filename) !in LibDirs
    ensures ScanTags(st, tags, ctx).libprovides == st.libprovides
  {
    if |tags| > 0 {
      ProvidesOnlyFromLibDirs(st, tags[..|tags| - 1], ctx);
    }
  }

  /** From a library directory, `libprovides` gains exactly the keys of the
      self-identification tags, and each lists the file. */
  lemma {:induction false} ProvidesFromLibDirs(st: ScanState, tags: seq<Tag>, ctx: Context)
    requires Dirname(ctx.filename) in LibDirs
    ensures ScanTags(st, tags, ctx).libprovides.Keys == st.libprovides.Keys + SonameKeys(tags, ctx.elfclass)
    ensures forall k :: k in SonameKeys(tags, ctx.elfclass) ==> ctx.filename in ScanTags(st, tags, ctx).libprovides[k]
  {
    if |tags| > 0 {
      var init := tags[..|tags| - 1];
      var prev := ScanTags(st, init, ctx);
      ProvidesFromLibDirs(st, init, ctx);
      SonameKeysSnoc(tags, ctx.elfclass);
      assert ScanTags(st, tags, ctx) == ScanTag(prev, tags[|tags| - 1], ctx);
    }
  }

  /** A provision lists no file other than the one being scanned besides
      those it already had. */
  lemma {:induction false} ProvidesOnlyThisFile(st: ScanState, tags: seq<Tag>, ctx: Context)
    ensures forall k :: k in ScanTags(st, tags, ctx).libprovides ==>
              ScanTags(st, tags, ctx).libprovides[k] <= (if k in st.libprovides then st.libprovides[k] else {}) + {ctx.filename}
  {
    if |tags| > 0 {
      ProvidesOnlyThisFile(st, tags[..|tags| - 1], ctx);
    }
  }

  /** `libdepends` gains exactly the keys of the recorded needed libraries. */
  lemma {:induction false} ScanTagsDependsKeys(st: ScanState, tags: seq<Tag>, ctx: Context)
    ensures ScanTags(st, tags, ctx).libdepends.Keys == st.libdepends.Keys + NeededKeys(tags, ctx.custom, ctx.elfclass)
  {
    if |tags| > 0 {
      ScanTagsDependsKeys(st, tags[..|tags| - 1], ctx);
      NeededKeysSnoc(tags, ctx.custom, ctx.elfclass);
    }
  }

  /** A recorded needed library lists the file under its path, and the last
      one recorded for a key decides the key's path. */
  lemma {:induction false} ScanTagsNeededPath(st: ScanState, tags: seq<Tag>, ctx: Context, i: nat)
    requires i < |tags| && Recorded(tags[i], ctx.custom)
    requires forall j :: i < j < |tags| && Recorded(tags[j], ctx.custom) ==>
                Key(tags[j].needed, ctx.elfclass) != Key(tags[i].needed, ctx.elfclass)
    ensures var path := NeededPath(tags[i].needed, ctx.elfclass, ctx.cache, ctx.abspath);
            && Key(tags[i].needed, ctx.elfclass) in ScanTags(st, tags, ctx).libdepends
            && ScanTags(st, tags, ctx).libdepends[Key(tags[i].needed, ctx.elfclass)] == path
            && path in ScanTags(st, tags, ctx).liblist
            && ctx.filename in ScanTags(st, tags, ctx).liblist[path]
  {
    var init := tags[..|tags| - 1];
    if i < |tags| - 1 {
      assert forall j :: i < j < |init| ==> init[j] == tags[j];
      ScanTagsNeededPath(st, init, ctx, i);
    }
  }

  /** A file none of whose needed libraries the scanner records (every one
      is served by the overrides) leaves `libdepends` and `liblist` as they
      were. */
  lemma {:induction false} OverridesAreDropped(st: ScanState, tags: seq<Tag>, ctx: Context)
    requires forall i :: 0 <= i < |tags| ==> !Recorded(tags[i], ctx.custom)
    ensures ScanTags(st, tags, ctx).libdepends == st.libdepends
    ensures ScanTags(st, tags, ctx).liblist == st.liblist
  {
    if |tags| > 0 {
      OverridesAreDropped(st, tags[..|tags| - 1], ctx);
    }
  }

  /** A needed library served by the overrides, which the scanner skips. */
  predicate Overridden(t: Tag, custom: map<string, string>)
  {
    t.NeededTag? && t.needed in custom
  }

  /** `tags` with the overridden needed libraries taken out, order kept. */
  function WithoutOverridden(tags: seq<Tag>, custom: map<string, string>): (r: seq<Tag>)
    ensures |r| <= |tags|
    ensures forall t :: t in r ==> t in tags && !Overridden(t, custom)
  {
    if |tags| == 0 then []
    else
      var t := tags[|tags| - 1];
      WithoutOverridden(tags[..|tags| - 1], custom) + (if Overridden(t, custom) then [] else [t])
  }

  /** An overridden needed library changes nothing, wherever it occurs among
      the file's tags: the loop reaches `continue` before storing anything. */
  lemma OverriddenTagIgnored(st: ScanState, tags: seq<Tag>, ctx: Context, lib: string)
    requires lib in ctx.custom
    ensures ScanTags(st, tags + [NeededTag(lib)], ctx) == ScanTags(st, tags, ctx)
  {
    assert (tags + [NeededTag(lib)])[..|tags|] == tags;
  }

  /** Scanning a file, overridden and cache-resolved libraries mixed, is
      scanning it with the overridden ones removed. */
  lemma {:induction false} ScanTagsSkipsOverrides(st: ScanState, tags: seq<Tag>, ctx: Context)
    ensures ScanTags(st, tags, ctx) == ScanTags(st, WithoutOverridden(tags, ctx.custom), ctx)
  {
    if |tags| > 0 {
      var init := tags[..|tags| - 1];
      var t := tags[|tags| - 1];
      var w := WithoutOverridden(init, ctx.custom);
      ScanTagsSkipsOverrides(st, init, ctx);
      assert ScanTags(st, tags, ctx) == ScanTag(ScanTags(st, init, ctx), t, ctx);
      if Overridden(t, ctx.custom) {
        assert WithoutOverridden(tags, ctx.custom) == w + [];
        assert w + [] == w;
      } else {
        assert WithoutOverridden(tags, ctx.custom) == w + [t];
        assert (w + [t])[..|w|] == w;
        assert ScanTags(st, w + [t], ctx) == ScanTag(ScanTags(st, w, ctx), t, ctx);
      }
    }
  }

  /** One member of the package archive: only regular files are scanned,
      each with the override map computed from its own search paths. */
  datatype TarEntry = TarEntry(name: string, isFile: bool, elf: Option<ElfFile>, custom: map<string, string>)

  /** The scanning loop of `SharedLibsRule.analyze`. */
  function ScanPackage(entries: seq<TarEntry>, cache: Cache, abspath: string -> string): ScanState
  {
    if |entries| == 0 then Empty
    else
      var st := ScanPackage(entries[..|entries| - 1], cache, abspath);
      var e := entries[|entries| - 1];
      if e.isFile then ScanFile(st, e.elf, e.name, e.custom, cache, abspath) else st
  }

  /** After a whole package every recorded path is a `liblist` key. */
  lemma {:induction false} ScanPackageWellFormed(entries: seq<TarEntry>, cache: Cache, abspath: string -> string)
    ensures WellFormed(ScanPackage(entries, cache, abspath))
  {
    if |entries| > 0 {
      var st := ScanPackage(entries[..|entries| - 1], cache, abspath);
      ScanPackageWellFormed(entries[..|entries| - 1], cache, abspath);
      var e := entries[|entries| - 1];
      if e.isFile && e.elf.Some? {
        ScanTagsWellFormed(st, e.elf.value.tags, Context(e.name, e.elf.value.elfclass, e.custom, cache, abspath));
      }
    }
  }
}
