/**
 * gen_config.py: the `.clangd` file generated from one environment's
 * PlatformIO metadata — the `CompileFlags` block listing the defines, the
 * include paths and the kept compiler flags, then the compiler path — with
 * the statistics reported about it and the choice of environment.
 */
module ClangdConfig {
  import opened Wrappers

  /** The part of one environment's metadata the generator reads (`env_data`). */
  datatype EnvData = EnvData(
    includes: map<string, seq<string>>,
    defines: seq<string>,
    cxxFlags: seq<string>,
    cxxPath: string)

  /** The project metadata: environment names in the order the dictionary lists them, and their data. */
  datatype Metadata = Metadata(names: seq<string>, envs: map<string, EnvData>)

  /** A dictionary lists each of its keys once. */
  ghost predicate ValidMetadata(m: Metadata) {
    && (forall i, j :: 0 <= i < j < |m.names| ==> m.names[i] != m.names[j])
    && (forall n :: n in m.names <==> n in m.envs)
  }

  /** The include categories, in the order their paths are emitted. */
  const Categories: seq<string> := ["build", "compatlib", "toolchain"]

  /** GCC-specific flags clangd does not accept (`_DEFAULT_FLAGS_TO_SKIP`). */
  const DefaultFlagsToSkip: set<string> := {
    "-MMD",
    "-fno-rtti",
    "-fno-tree-switch-conversion",
    "-fno-jump-tables",
    "-freorder-blocks",
    "-fstrict-volatile-bitfields",
    "-Wno-old-style-declaration",
    "-Wno-error=unused-but-set-variable",
    "-mlongcalls"
  }

  /** `_DEFAULT_FLAG_TRANSFORMS`, empty. */
  const DefaultFlagTransforms: map<string, string> := map[]

  /*
   * The generated text
   */

  /** Each element with `p` in front of it, in order. */
  function Prefixed(p: string, xs: seq<string>): (r: seq<string>)
    ensures |r| == |xs|
    ensures forall i :: 0 <= i < |xs| ==> r[i] == p + xs[i]
  {
    if |xs| == 0 then [] else Prefixed(p, xs[..|xs| - 1]) + [p + xs[|xs| - 1]]
  }

  lemma {:induction false} PrefixedAppend(p: string, a: seq<string>, b: seq<string>)
    ensures Prefixed(p, a + b) == Prefixed(p, a) + Prefixed(p, b)
  {
    var l := Prefixed(p, a + b);
    var r := Prefixed(p, a) + Prefixed(p, b);
    assert |l| == |r|;
    forall i | 0 <= i < |l| ensures l[i] == r[i] {
      if i < |a| {
        assert (a + b)[i] == a[i];
      } else {
        assert (a + b)[i] == b[i - |a|];
      }
    }
  }

  /** `env_data['includes'].get(cat, [])`. */
  function CategoryPaths(includes: map<string, seq<string>>, cat: string): seq<string> {
    if cat in includes then includes[cat] else []
  }

  /** The `-I` flags of the categories in `cats`, category by category, absent categories skipped. */
  function IncludeFlags(includes: map<string, seq<string>>, cats: seq<string>): seq<string> {
    if |cats| == 0 then []
    else
      var cat := cats[|cats| - 1];
      IncludeFlags(includes, cats[..|cats| - 1]) + if cat in includes then Prefixed("-I", includes[cat]) else []
  }

  /**
   * The include flags are `-I` in front of the build paths, then the
   * compatlib paths, then the toolchain paths.
   */
  lemma IncludeFlagsOrder(includes: map<string, seq<string>>)
    ensures IncludeFlags(includes, Categories) ==
      Prefixed("-I", CategoryPaths(includes, "build") + CategoryPaths(includes, "compatlib") + CategoryPaths(includes, "toolchain"))
  {
    var b := CategoryPaths(includes, "build");
    var c := CategoryPaths(includes, "compatlib");
    var t := CategoryPaths(includes, "toolchain");
    CategoryFlags(includes, "build");
    CategoryFlags(includes, "compatlib");
    CategoryFlags(includes, "toolchain");
    assert Categories[..1][..0] == [];
    assert IncludeFlags(includes, Categories[..1]) == Prefixed("-I", b);
    assert Categories[..2][..1] == Categories[..1];
    assert IncludeFlags(includes, Categories[..2]) == Prefixed("-I", b) + Prefixed("-I", c);
    assert Categories[..2] == Categories[..|Categories| - 1];
    assert IncludeFlags(includes, Categories) == Prefixed("-I", b) + Prefixed("-I", c) + Prefixed("-I", t);
    PrefixedAppend("-I", b, c);
    PrefixedAppend("-I", b + c, t);
  }

  /** An absent category contributes no flag. */
  lemma CategoryFlags(includes: map<string, seq<string>>, cat: string)
    ensures (if cat in includes then Prefixed("-I", includes[cat]) else []) == Prefixed("-I", CategoryPaths(includes, cat))
  {
  }

  /** `flag_transforms.get(flag, flag)`. */
  function Transform(transforms: map<string, string>, flag: string): string {
    if flag in transforms then transforms[flag] else flag
  }

  /** The flags outside the skip set, each mapped through the transforms, in order. */
  function Kept(flags: seq<string>, skip: set<string>, transforms: map<string, string>): seq<string> {
    if |flags| == 0 then []
    else
      var flag := flags[|flags| - 1];
      Kept(flags[..|flags| - 1], skip, transforms) + if flag in skip then [] else [Transform(transforms, flag)]
  }

  /** The kept flags of a concatenation are those of its parts, in order. */
  lemma {:induction false} KeptAppend(a: seq<string>, b: seq<string>, skip: set<string>, transforms: map<string, string>)
    ensures Kept(a + b, skip, transforms) == Kept(a, skip, transforms) + Kept(b, skip, transforms)
    decreases |b|
  {
    if |b| == 0 {
      assert a + b == a;
    } else {
      var init := b[..|b| - 1];
      KeptAppend(a, init, skip, transforms);
      assert (a + b)[..|a + b| - 1] == a + init;
    }
  }

  /** A single flag is dropped when skipped and transformed otherwise. */
  lemma KeptOne(f: string, skip: set<string>, transforms: map<string, string>)
    ensures Kept([f], skip, transforms) == if f in skip then [] else [Transform(transforms, f)]
  {
    assert [f][..0] == [];
  }

  /**
   * Every kept flag is the transform of a flag outside the skip set, and
   * every flag outside the skip set contributes its transform.
   */
  lemma {:induction false} KeptElements(flags: seq<string>, skip: set<string>, transforms: map<string, string>)
    ensures forall k :: k in Kept(flags, skip, transforms) ==>
      exists f :: f in flags && f !in skip && k == Transform(transforms, f)
    ensures forall f :: f in flags && f !in skip ==> Transform(transforms, f) in Kept(flags, skip, transforms)
  {
    if |flags| > 0 {
      var init := flags[..|flags| - 1];
      KeptElements(init, skip, transforms);
      assert forall f :: f in flags <==> f in init || f == flags[|flags| - 1];
    }
  }

  /** When no transform produces a skipped flag, no skipped flag is emitted. */
  lemma KeptAvoidsSkip(flags: seq<string>, skip: set<string>, transforms: map<string, string>)
    requires forall f :: f in transforms ==> transforms[f] !in skip
    ensures forall k :: k in Kept(flags, skip, transforms) ==> k !in skip
  {
    KeptElements(flags, skip, transforms);
  }

  /**
   * The lines of the `.clangd` file: the header, one item per define, per
   * include flag and per kept flag, and the compiler line.
   */
  function ConfigLines(env: EnvData, skip: set<string>, transforms: map<string, string>): seq<string> {
    ["CompileFlags:", "  Add:"] +
    Prefixed("    - ", Prefixed("-D", env.defines)) +
    Prefixed("    - ", IncludeFlags(env.includes, Categories)) +
    Prefixed("    - ", Kept(env.cxxFlags, skip, transforms)) +
    ["  Compiler: " + env.cxxPath]
  }

  /** `'\n'.join(lines)`. */
  function JoinLines(lines: seq<string>): string {
    if |lines| == 0 then ""
    else if |lines| == 1 then lines[0]
    else lines[0] + "\n" + JoinLines(lines[1..])
  }

  /** The text of the `.clangd` file. */
  function ConfigText(env: EnvData, skip: set<string>, transforms: map<string, string>): string {
    JoinLines(ConfigLines(env, skip, transforms)) + "\n"
  }

  /**
   * The lines are the two header lines, one `-D` line per define in input
   * order, one `-I` line per include path, one line per kept flag, and the
   * compiler line: 3 + |defines| + |includes| + |kept flags| in all.
   */
  lemma ConfigLinesLayout(env: EnvData, skip: set<string>, transforms: map<string, string>)
    ensures var lines := ConfigLines(env, skip, transforms);
      var d := |env.defines|;
      var inc := IncludeFlags(env.includes, Categories);
      var kept := Kept(env.cxxFlags, skip, transforms);
      && |lines| == 3 + d + |inc| + |kept|
      && lines[0] == "CompileFlags:" && lines[1] == "  Add:"
      && (forall i :: 0 <= i < d ==> lines[2 + i] == "    - " + ("-D" + env.defines[i]))
      && (forall i :: 0 <= i < |inc| ==> lines[2 + d + i] == "    - " + inc[i])
      && (forall i :: 0 <= i < |kept| ==> lines[2 + d + |inc| + i] == "    - " + kept[i])
      && lines[|lines| - 1] == "  Compiler: " + env.cxxPath
  {
    LinesFrame(env, skip, transforms);
    DefineLines(env, skip, transforms);
    IncludeLines(env, skip, transforms);
    KeptLines(env, skip, transforms);
  }

  /** The number of lines, the two header lines and the compiler line. */
  lemma LinesFrame(env: EnvData, skip: set<string>, transforms: map<string, string>)
    ensures var lines := ConfigLines(env, skip, transforms);
      && |lines| == 3 + |env.defines| + |IncludeFlags(env.includes, Categories)| + |Kept(env.cxxFlags, skip, transforms)|
      && lines[0] == "CompileFlags:" && lines[1] == "  Add:"
      && lines[|lines| - 1] == "  Compiler: " + env.cxxPath
  {
  }

  /** The items of one group land after everything in front of it. */
  lemma GroupLines(front: seq<string>, item: string, xs: seq<string>, rest: seq<string>)
    ensures forall i :: 0 <= i < |xs| ==> (front + Prefixed(item, xs) + rest)[|front| + i] == item + xs[i]
  {
    var g := Prefixed(item, xs);
    forall i | 0 <= i < |xs| ensures (front + g + rest)[|front| + i] == item + xs[i] {
      assert (front + g + rest)[|front| + i] == g[i];
    }
  }

  lemma DefineLines(env: EnvData, skip: set<string>, transforms: map<string, string>)
    ensures forall i :: 0 <= i < |env.defines| ==> ConfigLines(env, skip, transforms)[2 + i] == "    - " + ("-D" + env.defines[i])
  {
    var h := ["CompileFlags:", "  Add:"];
    var defs := Prefixed("-D", env.defines);
    var rest := Prefixed("    - ", IncludeFlags(env.includes, Categories)) + Prefixed("    - ", Kept(env.cxxFlags, skip, transforms)) + ["  Compiler: " + env.cxxPath];
    assert ConfigLines(env, skip, transforms) == h + Prefixed("    - ", defs) + rest;
    GroupLines(h, "    - ", defs, rest);
  }

  lemma IncludeLines(env: EnvData, skip: set<string>, transforms: map<string, string>)
    ensures var inc := IncludeFlags(env.includes, Categories);
      forall i :: 0 <= i < |inc| ==> ConfigLines(env, skip, transforms)[2 + |env.defines| + i] == "    - " + inc[i]
  {
    var inc := IncludeFlags(env.includes, Categories);
    var front := ["CompileFlags:", "  Add:"] + Prefixed("    - ", Prefixed("-D", env.defines));
    var rest := Prefixed("    - ", Kept(env.cxxFlags, skip, transforms)) + ["  Compiler: " + env.cxxPath];
    assert ConfigLines(env, skip, transforms) == front + Prefixed("    - ", inc) + rest;
    GroupLines(front, "    - ", inc, rest);
  }

  lemma KeptLines(env: EnvData, skip: set<string>, transforms: map<string, string>)
    ensures var kept := Kept(env.cxxFlags, skip, transforms);
      var n := 2 + |env.defines| + |IncludeFlags(env.includes, Categories)|;
      forall i :: 0 <= i < |kept| ==> ConfigLines(env, skip, transforms)[n + i] == "    - " + kept[i]
  {
    var kept := Kept(env.cxxFlags, skip, transforms);
    var front := ["CompileFlags:", "  Add:"] + Prefixed("    - ", Prefixed("-D", env.defines)) + Prefixed("    - ", IncludeFlags(env.includes, Categories));
    var rest := ["  Compiler: " + env.cxxPath];
    assert ConfigLines(env, skip, transforms) == front + Prefixed("    - ", kept) + rest;
    GroupLines(front, "    - ", kept, rest);
  }

  /** The number of newline characters in `s`. */
  function Newlines(s: string): nat {
    if |s| == 0 then 0 else Newlines(s[..|s| - 1]) + if s[|s| - 1] == '\n' then 1 else 0
  }

  lemma {:induction false} NewlinesAppend(a: string, b: string)
    ensures Newlines(a + b) == Newlines(a) + Newlines(b)
    decreases |b|
  {
    if |b| == 0 {
      assert a + b == a;
    } else {
      NewlinesAppend(a, b[..|b| - 1]);
      assert (a + b)[..|a + b| - 1] == a + b[..|b| - 1];
    }
  }

  /** Joining newline-free lines puts exactly one newline between neighbours. */
  lemma {:induction false} JoinLinesNewlines(lines: seq<string>)
    requires |lines| > 0
    requires forall l :: l in lines ==> '\n' !in l
    ensures Newlines(JoinLines(lines)) == |lines| - 1
  {
    NewlineFree(lines[0]);
    if |lines| > 1 {
      JoinLinesNewlines(lines[1..]);
      NewlinesAppend(lines[0] + "\n", JoinLines(lines[1..]));
      NewlinesAppend(lines[0], "\n");
      assert "\n"[..0] == "";
    }
  }

  lemma {:induction false} NewlineFree(s: string)
    requires '\n' !in s
    ensures Newlines(s) == 0
  {
    if |s| > 0 {
      assert forall c :: c in s[..|s| - 1] ==> c in s;
      NewlineFree(s[..|s| - 1]);
    }
  }

  /** The joined lines end with the last line. */
  lemma {:induction false} JoinLinesEnds(lines: seq<string>)
    requires |lines| > 0
    ensures |lines[|lines| - 1]| <= |JoinLines(lines)|
    ensures JoinLines(lines)[|JoinLines(lines)| - |lines[|lines| - 1]|..] == lines[|lines| - 1]
  {
    if |lines| > 1 {
      JoinLinesEnds(lines[1..]);
    }
  }

  /** Newline-terminated joined lines: the first two lines, then the rest, and the last line at the end. */
  lemma JoinedFrame(lines: seq<string>)
    requires |lines| >= 3
    ensures JoinLines(lines) + "\n" == lines[0] + "\n" + lines[1] + "\n" + (JoinLines(lines[2..]) + "\n")
    ensures var last := lines[|lines| - 1] + "\n";
      var text := JoinLines(lines) + "\n";
      |last| <= |text| && text[|text| - |last|..] == last
  {
    assert lines[1..][1..] == lines[2..];
    JoinLinesEnds(lines);
  }

  /**
   * The text begins with `CompileFlags:` and `  Add:` on lines of their own
   * and ends with `  Compiler: <cxx_path>` and a newline.
   */
  lemma ConfigTextFrame(env: EnvData, skip: set<string>, transforms: map<string, string>)
    ensures var text := ConfigText(env, skip, transforms);
      var head := "CompileFlags:\n  Add:\n";
      var tail := "  Compiler: " + env.cxxPath + "\n";
      && |tail| <= |text| && text[|text| - |tail|..] == tail
      && |head| <= |text| && text[..|head|] == head
  {
    LinesFrame(env, skip, transforms);
    TextFrame(ConfigLines(env, skip, transforms));
  }

  /** Joined lines that open with the header have the header text in front and the last line at the end. */
  lemma TextFrame(lines: seq<string>)
    requires |lines| >= 3 && lines[0] == "CompileFlags:" && lines[1] == "  Add:"
    ensures var text := JoinLines(lines) + "\n";
      var head := "CompileFlags:\n  Add:\n";
      var tail := lines[|lines| - 1] + "\n";
      && |tail| <= |text| && text[|text| - |tail|..] == tail
      && |head| <= |text| && text[..|head|] == head
  {
    JoinedFrame(lines);
    var head := "CompileFlags:\n  Add:\n";
    var body := JoinLines(lines[2..]) + "\n";
    assert JoinLines(lines) + "\n" == head + body;
    assert (head + body)[..|head|] == head;
  }

  /**
   * When no define, include path, flag or the compiler path holds a newline,
   * the text has one newline per line: 3 + |defines| + |includes| + |kept flags|.
   */
  lemma ConfigTextNewlines(env: EnvData, skip: set<string>, transforms: map<string, string>)
    requires forall l :: l in ConfigLines(env, skip, transforms) ==> '\n' !in l
    ensures Newlines(ConfigText(env, skip, transforms)) ==
      3 + |env.defines| + |IncludeFlags(env.includes, Categories)| + |Kept(env.cxxFlags, skip, transforms)|
  {
    var lines := ConfigLines(env, skip, transforms);
    LinesFrame(env, skip, transforms);
    JoinLinesNewlines(lines);
    NewlinesAppend(JoinLines(lines), "\n");
    assert "\n"[..0] == "";
  }

  /**
   * `_generate_clangd_config`: collects the include flags category by
   * category, the define flags, and the kept flags, then builds the lines and
   * joins them.
   */
  method GenerateClangdConfig(env: EnvData, skip: set<string>, transforms: map<string, string>) returns (text: string)
    ensures text == ConfigText(env, skip, transforms)
  {
    var allIncludes := CollectIncludes(env.includes);
    var allDefines := Prefixed("-D", env.defines);
    var compilerFlags := CollectFlags(env.cxxFlags, skip, transforms);

    var lines := ["CompileFlags:", "  Add:"];
    lines := AppendPrefixed(lines, "    - ", allDefines);
    lines := AppendPrefixed(lines, "    - ", allIncludes);
    lines := AppendPrefixed(lines, "    - ", compilerFlags);
    lines := lines + ["  Compiler: " + env.cxxPath];
    text := JoinLines(lines) + "\n";
  }

  /** The include loop: `-I<path>` for each path of each present category, in category order. */
  method CollectIncludes(includes: map<string, seq<string>>) returns (allIncludes: seq<string>)
    ensures allIncludes == IncludeFlags(includes, Categories)
  {
    allIncludes := [];
    var c := 0;
    while c < |Categories|
      invariant 0 <= c <= |Categories|
      invariant allIncludes == IncludeFlags(includes, Categories[..c])
    {
      var category := Categories[c];
      assert Categories[..c + 1][..c] == Categories[..c];
      if category in includes {
        allIncludes := AppendPrefixed(allIncludes, "-I", includes[category]);
      }
      c := c + 1;
    }
    assert Categories[..|Categories|] == Categories;
  }

  /** The flag loop: each flag outside the skip set, through the transforms. */
  method CollectFlags(flags: seq<string>, skip: set<string>, transforms: map<string, string>) returns (compilerFlags: seq<string>)
    ensures compilerFlags == Kept(flags, skip, transforms)
  {
    compilerFlags := [];
    var i := 0;
    while i < |flags|
      invariant 0 <= i <= |flags|
      invariant compilerFlags == Kept(flags[..i], skip, transforms)
    {
      var flag := flags[i];
      assert flags[..i + 1][..i] == flags[..i];
      if flag !in skip {
        var transformed := if flag in transforms then transforms[flag] else flag;
        compilerFlags := compilerFlags + [transformed];
      }
      i := i + 1;
    }
    assert flags[..|flags|] == flags;
  }

  /** One `<prefix><item>` entry appended per item, in order. */
  method AppendPrefixed(lines: seq<string>, prefix: string, items: seq<string>) returns (r: seq<string>)
    ensures r == lines + Prefixed(prefix, items)
  {
    r := lines;
    var i := 0;
    while i < |items|
      invariant 0 <= i <= |items|
      invariant r == lines + Prefixed(prefix, items[..i])
    {
      assert items[..i + 1][..i] == items[..i];
      r := r + [prefix + items[i]];
      i := i + 1;
    }
    assert items[..|items|] == items;
  }

  /*
   * Statistics
   */

  datatype Stats = Stats(defines: nat, includes: nat, flags: nat, filteredFlags: int)

  /** The number of flags outside the skip set. */
  function UnskippedCount(flags: seq<string>, skip: set<string>): nat {
    if |flags| == 0 then 0
    else UnskippedCount(flags[..|flags| - 1], skip) + if flags[|flags| - 1] in skip then 0 else 1
  }

  /** `_get_config_stats`. */
  function ConfigStats(env: EnvData, skip: set<string>): Stats {
    var totalIncludes :=
      |CategoryPaths(env.includes, "build")| + |CategoryPaths(env.includes, "compatlib")| + |CategoryPaths(env.includes, "toolchain")|;
    var filteredCount := UnskippedCount(env.cxxFlags, skip);
    Stats(|env.defines|, totalIncludes, filteredCount, |env.cxxFlags| - filteredCount)
  }

  lemma {:induction false} KeptCount(flags: seq<string>, skip: set<string>, transforms: map<string, string>)
    ensures |Kept(flags, skip, transforms)| == UnskippedCount(flags, skip) <= |flags|
  {
    if |flags| > 0 {
      KeptCount(flags[..|flags| - 1], skip, transforms);
    }
  }

  /**
   * The statistics describe the generated file: `defines` and `includes`
   * count its `-D` and `-I` lines, `flags` counts its kept flags, and
   * `flags + filtered_flags` is the number of compiler flags, none negative.
   */
  lemma StatsMatchConfig(env: EnvData, skip: set<string>, transforms: map<string, string>)
    ensures var s := ConfigStats(env, skip);
      && s.defines == |env.defines|
      && s.includes == |IncludeFlags(env.includes, Categories)|
      && s.flags == |Kept(env.cxxFlags, skip, transforms)|
      && 0 <= s.filteredFlags
      && s.flags + s.filteredFlags == |env.cxxFlags|
  {
    IncludeFlagsOrder(env.includes);
    KeptCount(env.cxxFlags, skip, transforms);
  }

  /*
   * Options and environment choice in `gen_clangd`
   */

  /** The default skip set with the caller's flags added (`combined_flags_to_skip`). */
  method CombineFlagsToSkip(flagsToSkip: Option<seq<string>>) returns (combined: set<string>)
    ensures forall f :: f in combined <==> f in DefaultFlagsToSkip || (flagsToSkip.Some? && f in flagsToSkip.value)
  {
    combined := DefaultFlagsToSkip;
    if flagsToSkip.Some? && |flagsToSkip.value| > 0 {
      var extra := flagsToSkip.value;
      var i := 0;
      while i < |extra|
        invariant 0 <= i <= |extra|
        invariant forall f :: f in combined <==> f in DefaultFlagsToSkip || f in extra[..i]
      {
        assert extra[..i + 1] == extra[..i] + [extra[i]];
        combined := combined + {extra[i]};
        i := i + 1;
      }
      assert extra[..|extra|] == extra;
    }
  }

  /** The default transforms overridden by the caller's (`combined_flag_transforms`). */
  method CombineFlagTransforms(flagTransforms: Option<map<string, string>>) returns (combined: map<string, string>)
    ensures forall f :: f in combined <==> f in DefaultFlagTransforms || (flagTransforms.Some? && f in flagTransforms.value)
    ensures forall f :: f in combined ==>
      combined[f] == if flagTransforms.Some? && f in flagTransforms.value then flagTransforms.value[f] else DefaultFlagTransforms[f]
  {
    combined := DefaultFlagTransforms;
    if flagTransforms.Some? && |flagTransforms.value| > 0 {
      var user := flagTransforms.value;
      var remaining := user.Keys;
      while remaining != {}
        invariant remaining <= user.Keys
        invariant forall f :: f in combined <==> f in DefaultFlagTransforms || (f in user && f !in remaining)
        invariant forall f :: f in combined ==>
          combined[f] == if f in user && f !in remaining then user[f] else DefaultFlagTransforms[f]
        decreases remaining
      {
        var f :| f in remaining;
        combined := combined[f := user[f]];
        remaining := remaining - {f};
      }
    }
  }

  datatype SelectError =
    | EnvNotFound(name: string, available: seq<string>)  // ValueError
    | NoEnvironment                                       // IndexError on `env_names[0]`

  /**
   * The environment `gen_clangd` uses: a non-empty requested name must be in
   * the metadata; no name (or an empty one) selects the first.
   */
  function SelectEnv(names: seq<string>, envName: Option<string>): (r: Result<string, SelectError>)
    ensures r.Ok? ==> r.value in names
    ensures envName.Some? && envName.value != "" ==>
      (r.Ok? <==> envName.value in names) && (r.Ok? ==> r.value == envName.value)
    ensures envName.Some? && envName.value != "" && envName.value !in names ==> r == Err(EnvNotFound(envName.value, names))
    ensures (envName.None? || envName.value == "") ==>
      (r.Ok? <==> |names| > 0) && (r.Ok? ==> r.value == names[0])
  {
    if envName.Some? && envName.value != "" then
      if envName.value !in names then Err(EnvNotFound(envName.value, names)) else Ok(envName.value)
    else if |names| == 0 then Err(NoEnvironment)
    else Ok(names[0])
  }

  /** What `gen_clangd` produces: the chosen environment, the file text, and its statistics. */
  datatype Generated = Generated(env: string, text: string, stats: Stats)

  /** The combined skip set, as a value. */
  function CombinedSkip(flagsToSkip: Option<seq<string>>): set<string> {
    DefaultFlagsToSkip + if flagsToSkip.Some? then set f | f in flagsToSkip.value else {}
  }

  /** The combined transforms, as a value. */
  function CombinedTransforms(flagTransforms: Option<map<string, string>>): map<string, string> {
    DefaultFlagTransforms + if flagTransforms.Some? then flagTransforms.value else map[]
  }

  /**
   * `gen_clangd` once the metadata is fetched: combine the options, choose
   * the environment, generate the text and its statistics.
   */
  method GenClangd(flagsToSkip: Option<seq<string>>, flagTransforms: Option<map<string, string>>, metadata: Metadata, envName: Option<string>)
    returns (r: Result<Generated, SelectError>)
    requires ValidMetadata(metadata)
    ensures SelectEnv(metadata.names, envName).Err? ==> r == Err(SelectEnv(metadata.names, envName).error)
    ensures SelectEnv(metadata.names, envName).Ok? ==>
      var name := SelectEnv(metadata.names, envName).value;
      var env := metadata.envs[name];
      r == Ok(Generated(name,
        ConfigText(env, CombinedSkip(flagsToSkip), CombinedTransforms(flagTransforms)),
        ConfigStats(env, CombinedSkip(flagsToSkip))))
  {
    var skip := CombineFlagsToSkip(flagsToSkip);
    assert skip == CombinedSkip(flagsToSkip);
    var transforms := CombineFlagTransforms(flagTransforms);
    assert transforms == CombinedTransforms(flagTransforms);
    var selected := SelectEnv(metadata.names, envName);
    if selected.Err? {
      return Err(selected.error);
    }
    var name := selected.value;
    var env := metadata.envs[name];
    var text := GenerateClangdConfig(env, skip, transforms);
    return Ok(Generated(name, text, ConfigStats(env, skip)));
  }
}
