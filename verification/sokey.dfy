/** Library keys of `sodepends`: a raw linkage name such as `libfoo.so.1.2.3`
    becomes the key `libfoo.so=1.2.3-64` through two regular-expression
    rewrites, written out here by hand. */
module SoKey {
  import opened Strings

  /** ELF word size (`elffile.elfclass`); the ELF reader only yields 32 or 64. */
  datatype ElfClass = Elf32 | Elf64

  /** The two cache classes of the dynamic-linker registry. */
  datatype Arch = I686 | X8664

  /** A 32-bit binary always resolves against `i686`, a 64-bit one against
      `x86-64`. */
  function ArchOf(c: ElfClass): (a: Arch)
    ensures a == I686 <==> c == Elf32
  {
    match c
    case Elf32 => I686
    case Elf64 => X8664
  }

  /** `str(bitsize)`. */
  function BitsText(c: ElfClass): (s: string)
    ensures |s| == 2 && '-' !in s && '=' !in s
  {
    match c
    case Elf32 => "32"
    case Elf64 => "64"
  }

  /** `re.sub(r"\.so.*", ".so", name)`: every `.so` together with the rest
      of its line becomes `.so` (`.` in a regular expression does not match
      a newline, so scanning resumes at the next line). */
  function Soname(name: string): (r: string)
    decreases |name|
  {
    if |name| < 3 then name
    else if name[..3] == ".so" then ".so" + Soname(name[LineEnd(name, 3)..])
    else [name[0]] + Soname(name[1..])
  }

  /** `re.sub(r"^.*\.so\.", "", name)`: the anchored, greedy pattern removes
      everything up to and including the last `.so.` of the first line; with
      no such occurrence the name is returned whole. */
  function Version(name: string): (r: string)
    ensures !Contains(name, ".so.") ==> r == name
    ensures |r| <= |name|
  {
    match LastBefore(name, ".so.", LineEnd(name, 0))
    case Some(i) => name[i + 4..]
    case None => name
  }

  /** The map key `soname + "=" + soversion + "-" + str(bitsize)`. */
  function Key(name: string, c: ElfClass): string
  {
    Soname(name) + "=" + Version(name) + "-" + BitsText(c)
  }

  /** Occurrences in a suffix are occurrences in the whole, shifted. */
  lemma OccursShift(s: string, pat: string, i: nat)
    requires |s| > 0
    ensures OccursAt(s[1..], pat, i) <==> OccursAt(s, pat, i + 1)
  {
    if i + |pat| <= |s| - 1 {
      assert s[1..][i..i + |pat|] == s[i + 1..i + 1 + |pat|];
    }
  }

  /** A name without `.so` is left as it is. */
  lemma {:induction false} SonameWithoutSo(name: string)
    requires !Contains(name, ".so")
    ensures Soname(name) == name
    decreases |name|
  {
    if |name| >= 3 {
      assert !OccursAt(name, ".so", 0);
      forall i: nat | i <= |name| - 1 ensures !OccursAt(name[1..], ".so", i) {
        OccursShift(name, ".so", i);
      }
      SonameWithoutSo(name[1..]);
      assert [name[0]] + name[1..] == name;
    }
  }

  /** On a one-line name the soname is the name cut right after its first
      `.so`. */
  lemma {:induction false} SonameCutsAtFirstSo(name: string, i: nat)
    requires '\n' !in name
    requires OccursAt(name, ".so", i)
    requires forall j: nat :: j < i ==> !OccursAt(name, ".so", j)
    ensures Soname(name) == name[..i + 3]
    decreases i
  {
    if i == 0 {
      assert name[..3] == ".so";
      assert LineEnd(name, 3) == |name|;
      assert Soname(name[|name|..]) == "";
    } else {
      assert !OccursAt(name, ".so", 0);
      assert name[..3] != ".so";
      OccursShift(name, ".so", i - 1);
      forall j: nat | j < i - 1 ensures !OccursAt(name[1..], ".so", j) {
        OccursShift(name, ".so", j);
      }
      SonameCutsAtFirstSo(name[1..], i - 1);
      assert [name[0]] + name[1..][..i + 2] == name[..i + 3];
    }
  }

  /** On a one-line name the version is what follows its last `.so.`. */
  lemma VersionAfterLastSoDot(name: string, i: nat)
    requires '\n' !in name
    requires OccursAt(name, ".so.", i)
    requires forall j: nat :: i < j ==> !OccursAt(name, ".so.", j)
    ensures Version(name) == name[i + 4..]
  {
    assert LineEnd(name, 0) == |name|;
    var r := LastBefore(name, ".so.", |name|);
    assert r.Some?;
  }

  /** A character other than the pattern's first rules an occurrence out. */
  lemma NotAt(s: string, pat: string, j: nat, m: nat)
    requires m < |pat|
    requires j + m < |s| && s[j + m] != pat[m]
    ensures !OccursAt(s, pat, j)
  {
    if j + |pat| <= |s| {
      assert s[j..j + |pat|][m] == s[j + m];
    }
  }

  /** The soname of `libfoo.so.1.2.3` and of `libfoo.so` is `libfoo.so`. */
  lemma SonameExample(a: string)
    requires a == "libfoo.so.1.2.3" || a == "libfoo.so"
    ensures Soname(a) == "libfoo.so"
  {
    assert OccursAt(a, ".so", 6);
    forall j: nat | j < 6 ensures !OccursAt(a, ".so", j) {
      NotAt(a, ".so", j, 0);
    }
    SonameCutsAtFirstSo(a, 6);
    assert a[..9] == "libfoo.so";
  }

  /** The version of `libfoo.so.1.2.3` is `1.2.3`. */
  lemma VersionExample(a: string)
    requires a == "libfoo.so.1.2.3"
    ensures Version(a) == "1.2.3"
  {
    assert OccursAt(a, ".so.", 6);
    forall j: nat | 6 < j ensures !OccursAt(a, ".so.", j) {
      if j + 1 < |a| {
        if a[j] != '.' {
          NotAt(a, ".so.", j, 0);
        } else {
          NotAt(a, ".so.", j, 1);
        }
      }
    }
    VersionAfterLastSoDot(a, 6);
    assert a[10..] == "1.2.3";
  }

  /** The version of `libfoo.so` is the whole name, not the empty string. */
  lemma UnversionedExample(b: string)
    requires b == "libfoo.so"
    ensures Version(b) == "libfoo.so"
  {
    forall j: nat | j <= |b| ensures !OccursAt(b, ".so.", j) {
      if j < 6 {
        NotAt(b, ".so.", j, 0);
      }
    }
  }

  /** The worked key: `libfoo.so.1.2.3` on a 64-bit binary gives
      `libfoo.so=1.2.3-64`. */
  lemma VersionedKeyExample(a: string)
    requires a == "libfoo.so.1.2.3"
    ensures Key(a, Elf64) == "libfoo.so=1.2.3-64"
  {
    SonameExample(a);
    VersionExample(a);
  }

  /** The unversioned key: `libfoo.so` on a 32-bit binary gives
      `libfoo.so=libfoo.so-32`, the name standing in for its version. */
  lemma UnversionedKeyExample(b: string)
    requires b == "libfoo.so"
    ensures Key(b, Elf32) == b + "=" + b + "-32"
  {
    SonameExample(b);
    UnversionedExample(b);
  }
}
