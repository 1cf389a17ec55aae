/** The dynamic-linker cache of `sodepends` (`filllibcache`): entries already
    split out of `ldconfig -p` lines are filed under one of two
    architecture maps, library file name to path. */
module LibCache {
  import opened Strings
  import opened SoKey

  /** One map per architecture class. */
  datatype Cache = Cache(i686: map<string, string>, x8664: map<string, string>)

  /** One `name (archinfo) => path` line of `ldconfig -p`, already split. */
  datatype LdconfigLine = LdconfigLine(name: string, archinfo: string, path: string)

  /** The map for one architecture class. */
  function Lookup(c: Cache, a: Arch): map<string, string>
  {
    match a
    case I686 => c.i686
    case X8664 => c.x8664
  }

  /** The class a line is filed under: `x86-64` when its architecture field
      starts with `libc6,x86-64`, `i686` for anything else. */
  function ClassOf(line: LdconfigLine): Arch
  {
    if StartsWith(line.archinfo, "libc6,x86-64") then X8664 else I686
  }

  /** Files one line, overwriting any earlier path for the same name in the
      same class. */
  function Record(c: Cache, line: LdconfigLine): Cache
  {
    match ClassOf(line)
    case X8664 => c.(x8664 := c.x8664[line.name := line.path])
    case I686 => c.(i686 := c.i686[line.name := line.path])
  }

  /** Files every line in order into the (process-wide, never cleared) cache. */
  function Fill(c: Cache, lines: seq<LdconfigLine>): Cache
  {
    if |lines| == 0 then c else Record(Fill(c, lines[..|lines| - 1]), lines[|lines| - 1])
  }

  /** A class gains exactly the names of the lines filed under it. */
  lemma {:induction false} FillKeys(c: Cache, lines: seq<LdconfigLine>, a: Arch)
    ensures Lookup(Fill(c, lines), a).Keys ==
            Lookup(c, a).Keys + (set i | 0 <= i < |lines| && ClassOf(lines[i]) == a :: lines[i].name)
  {
    if |lines| > 0 {
      var init := lines[..|lines| - 1];
      FillKeys(c, init, a);
      assert forall i :: 0 <= i < |init| ==> init[i] == lines[i];
    }
  }

  /** The last line for a name in a class decides that name's path. */
  lemma {:induction false} FillLastWins(c: Cache, lines: seq<LdconfigLine>, k: nat)
    requires k < |lines|
    requires forall j :: k < j < |lines| && ClassOf(lines[j]) == ClassOf(lines[k]) ==>
                lines[j].name != lines[k].name
    ensures lines[k].name in Lookup(Fill(c, lines), ClassOf(lines[k]))
    ensures Lookup(Fill(c, lines), ClassOf(lines[k]))[lines[k].name] == lines[k].path
  {
    var init := lines[..|lines| - 1];
    if k < |lines| - 1 {
      assert forall j :: k < j < |init| ==> init[j] == lines[j];
      FillLastWins(c, init, k);
    }
  }

  /** A name no line files under a class keeps whatever the class had. */
  lemma {:induction false} FillUntouched(c: Cache, lines: seq<LdconfigLine>, a: Arch, name: string)
    requires forall j :: 0 <= j < |lines| && ClassOf(lines[j]) == a ==> lines[j].name != name
    ensures (name in Lookup(Fill(c, lines), a)) == (name in Lookup(c, a))
    ensures name in Lookup(c, a) ==> Lookup(Fill(c, lines), a)[name] == Lookup(c, a)[name]
  {
    if |lines| > 0 {
      var init := lines[..|lines| - 1];
      assert forall j :: 0 <= j < |init| ==> init[j] == lines[j];
      FillUntouched(c, init, a, name);
    }
  }
}
