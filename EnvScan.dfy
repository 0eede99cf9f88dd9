/**
 * `get_envs` of src/clangd.cpp: the environment names declared in
 * platformio.ini, found line by line as `[env:NAME]` sections. The regular
 * expression `\[env:([a-zA-Z0-9_\-]+)\]` is replaced by a matcher that finds
 * its leftmost match in a line.
 */
module EnvScan {
  import opened Wrappers

  /** The characters the name class `[a-zA-Z0-9_\-]` admits. */
  predicate IsNameChar(c: char) {
    ('a' <= c <= 'z') || ('A' <= c <= 'Z') || ('0' <= c <= '9') || c == '_' || c == '-'
  }

  /** A name the capture group can match: one or more name characters. */
  predicate IsEnvName(name: string) {
    |name| > 0 && forall i :: 0 <= i < |name| ==> IsNameChar(name[i])
  }

  const SectionOpen: string := "[env:"

  /** `[env:NAME]` occurs in `line` starting at position `p`. */
  ghost predicate OccursAt(line: string, p: nat, name: string) {
    && IsEnvName(name)
    && p + |SectionOpen| + |name| + 1 <= |line|
    && line[p..p + |SectionOpen| + |name| + 1] == SectionOpen + name + "]"
  }

  /** The length of the longest run of name characters starting at `i`. */
  function NameRun(line: string, i: nat): (n: nat)
    requires i <= |line|
    ensures i + n <= |line|
    ensures forall j :: i <= j < i + n ==> IsNameChar(line[j])
    ensures i + n < |line| ==> !IsNameChar(line[i + n])
    decreases |line| - i
  {
    if i < |line| && IsNameChar(line[i]) then 1 + NameRun(line, i + 1) else 0
  }

  /** The match of the pattern starting exactly at `p`, if there is one. */
  function MatchAt(line: string, p: nat): Option<string>
    requires p <= |line|
  {
    var start := p + |SectionOpen|;
    if start <= |line| && line[p..start] == SectionOpen then
      var n := NameRun(line, start);
      if n > 0 && start + n < |line| && line[start + n] == ']' then Some(line[start..start + n])
      else None
    else None
  }

  /** `regex_search` from position `p` on: the first position where the pattern matches. */
  function SearchFrom(line: string, p: nat): Option<string>
    requires p <= |line|
    decreases |line| - p
  {
    match MatchAt(line, p)
    case Some(name) => Some(name)
    case None => if p == |line| then None else SearchFrom(line, p + 1)
  }

  /** The environment name a line declares, if any. */
  function MatchEnv(line: string): Option<string> {
    SearchFrom(line, 0)
  }

  /** The matcher at a position agrees with the occurrence of `[env:NAME]` there. */
  lemma MatchAtOccurs(line: string, p: nat, name: string)
    requires p <= |line|
    ensures MatchAt(line, p) == Some(name) <==> OccursAt(line, p, name)
  {
    var start := p + |SectionOpen|;
    if OccursAt(line, p, name) {
      var text := line[p..p + |SectionOpen| + |name| + 1];
      assert line[p..start] == text[..|SectionOpen|] == SectionOpen;
      assert forall j :: start <= j < start + |name| ==> line[j] == name[j - start] == text[j - p];
      assert line[start + |name|] == text[|SectionOpen| + |name|] == ']';
      var n := NameRun(line, start);
      assert n == |name|;
      assert line[start..start + n] == name;
    }
    if MatchAt(line, p) == Some(name) {
      var n := NameRun(line, start);
      assert name == line[start..start + n];
      assert line[p..p + |SectionOpen| + |name| + 1] == line[p..start] + line[start..start + n] + [line[start + n]];
    }
  }

  /** No position in `[lo, hi)` starts an occurrence. */
  ghost predicate NoneBetween(line: string, lo: nat, hi: nat) {
    forall q: nat, name :: lo <= q < hi && OccursAt(line, q, name) ==> false
  }

  lemma {:induction false} SearchFromSpec(line: string, p: nat)
    requires p <= |line|
    ensures match SearchFrom(line, p)
      case Some(name) => exists q: nat :: p <= q <= |line| && OccursAt(line, q, name) && NoneBetween(line, p, q)
      case None => NoneBetween(line, p, |line| + 1)
    decreases |line| - p
  {
    forall name | OccursAt(line, p, name) ensures MatchAt(line, p) == Some(name) {
      MatchAtOccurs(line, p, name);
    }
    match MatchAt(line, p)
    case Some(name) =>
      MatchAtOccurs(line, p, name);
      assert NoneBetween(line, p, p);
    case None =>
      assert forall name :: !OccursAt(line, p, name);
      if p < |line| {
        SearchFromSpec(line, p + 1);
        match SearchFrom(line, p + 1)
        case Some(name) =>
          var q :| p + 1 <= q <= |line| && OccursAt(line, q, name) && NoneBetween(line, p + 1, q);
          assert NoneBetween(line, p, q);
        case None =>
      }
  }

  /**
   * `regex_search` finds the leftmost `[env:NAME]` of a line, and the name
   * holds only characters of `[a-zA-Z0-9_-]`; no match means the line has no
   * such section header anywhere.
   */
  lemma MatchEnvLeftmost(line: string)
    ensures match MatchEnv(line)
      case Some(name) =>
        && IsEnvName(name)
        && exists p: nat :: p <= |line| && OccursAt(line, p, name) && NoneBetween(line, 0, p)
      case None => forall p: nat, name :: OccursAt(line, p, name) ==> false
  {
    SearchFromSpec(line, 0);
  }

  /** The names the lines declare, in line order, at most one per line. */
  function EnvNames(lines: seq<string>): seq<string> {
    if |lines| == 0 then []
    else
      var last := lines[|lines| - 1];
      EnvNames(lines[..|lines| - 1]) + match MatchEnv(last) { case Some(name) => [name] case None => [] }
  }

  datatype EnvsError = NoEnvironments

  /**
   * `get_envs` after the file is open: scans the lines, collecting the first
   * section name of each, and fails when there is none.
   */
  method GetEnvs(lines: seq<string>) returns (r: Result<seq<string>, EnvsError>)
    ensures r == if EnvNames(lines) == [] then Err(NoEnvironments) else Ok(EnvNames(lines))
  {
    var environments: seq<string> := [];
    var i := 0;
    while i < |lines|
      invariant 0 <= i <= |lines|
      invariant environments == EnvNames(lines[..i])
    {
      assert lines[..i + 1][..i] == lines[..i];
      match MatchEnv(lines[i]) {
        case Some(name) => environments := environments + [name];
        case None =>
      }
      i := i + 1;
    }
    assert lines[..|lines|] == lines;
    if |environments| == 0 {
      return Err(NoEnvironments);
    }
    return Ok(environments);
  }

  /** Scanning two blocks of lines gives the names of the first, then those of the second. */
  lemma {:induction false} EnvNamesAppend(a: seq<string>, b: seq<string>)
    ensures EnvNames(a + b) == EnvNames(a) + EnvNames(b)
    decreases |b|
  {
    if |b| > 0 {
      var ab := a + b;
      assert ab[..|ab| - 1] == a + b[..|b| - 1];
      assert ab[|ab| - 1] == b[|b| - 1];
      EnvNamesAppend(a, b[..|b| - 1]);
    } else {
      assert a + b == a;
    }
  }

  /** Each name is a valid environment name, and there are at most as many names as lines. */
  lemma {:induction false} EnvNamesWellFormed(lines: seq<string>)
    ensures |EnvNames(lines)| <= |lines|
    ensures forall n :: n in EnvNames(lines) ==> IsEnvName(n)
  {
    if |lines| > 0 {
      var init := lines[..|lines| - 1];
      EnvNamesWellFormed(init);
      MatchEnvLeftmost(lines[|lines| - 1]);
    }
  }

  /** A line's contribution is exactly its first section name. */
  lemma EnvNamesOfLine(line: string)
    ensures EnvNames([line]) == match MatchEnv(line) { case Some(name) => [name] case None => [] }
  {
    assert [line][..0] == [];
  }
}
