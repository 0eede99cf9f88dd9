/**
 * `gen_cmds` of src/clangd.cpp: after the per-environment databases are
 * loaded, resolve the target environment, merge the records under their
 * deduplication keys with the target environment first, rewrite every
 * surviving record's arguments through the flag filter, and hand the records
 * to the writer.
 */
module Aggregator {
  import opened Wrappers
  import opened Tokenizer
  import opened TokenFilter
  import opened EnvScan
  import opened DedupKey

  /** One entry of compile_commands.json (`CompileCommand`). */
  datatype CompileCommand = CompileCommand(
    directory: string,
    file: string,
    command: string,
    arguments: seq<string>,
    output: Option<string>)

  /** What reading one environment's compile_commands.json gave. */
  datatype LoadResult = Loaded(commands: seq<CompileCommand>) | LoadFailed(reason: string)

  /** A failed read, reported as "Failed to read <path>: <reason>". */
  datatype LoadError = LoadError(env: string, reason: string)

  datatype GenError =
    | ConfigError(error: EnvsError)
    | LoadErrors(errors: seq<LoadError>, environments: nat)

  /** The environment whose records win, and whether the requested one had to be replaced. */
  datatype Target = Target(name: string, warned: bool)

  type Table = map<string, CompileCommand>

  predicate Distinct(s: seq<string>) {
    forall i, j :: 0 <= i < j < |s| ==> s[i] != s[j]
  }

  /*
   * Target resolution
   */

  /**
   * An empty request selects the first environment; a request that names no
   * declared environment is warned about and also falls back to the first.
   */
  function ResolveTarget(envs: seq<string>, requested: string): (t: Target)
    requires |envs| > 0
    ensures t.name in envs
    ensures requested == "" ==> t == Target(envs[0], false)
    ensures requested != "" && requested in envs ==> t == Target(requested, false)
    ensures requested != "" && requested !in envs ==> t == Target(envs[0], true)
  {
    var name := if requested == "" then envs[0] else requested;
    if name in envs then Target(name, false) else Target(envs[0], true)
  }

  /*
   * Load phase: the joined results of the per-environment readers
   */

  /** The read failures, in the order of the declared environments. */
  function FailedLoads(envs: seq<string>, loaded: map<string, LoadResult>): seq<LoadError>
    requires forall e :: e in envs ==> e in loaded
  {
    if |envs| == 0 then []
    else
      var e := envs[|envs| - 1];
      FailedLoads(envs[..|envs| - 1], loaded) +
        match loaded[e] { case LoadFailed(reason) => [LoadError(e, reason)] case Loaded(_) => [] }
  }

  /**
   * The run fails exactly when some environment could not be read. Every failed
   * read is reported, and there is at most one error per declared entry.
   */
  lemma {:induction false} FailedLoadsSpec(envs: seq<string>, loaded: map<string, LoadResult>)
    requires forall e :: e in envs ==> e in loaded
    ensures FailedLoads(envs, loaded) == [] <==> forall e :: e in envs ==> loaded[e].Loaded?
    ensures |FailedLoads(envs, loaded)| <= |envs|
    ensures forall err :: err in FailedLoads(envs, loaded) ==> err.env in envs && loaded[err.env] == LoadFailed(err.reason)
    ensures forall e :: e in envs && loaded[e].LoadFailed? ==> LoadError(e, loaded[e].reason) in FailedLoads(envs, loaded)
  {
    if |envs| > 0 {
      var init := envs[..|envs| - 1];
      FailedLoadsSpec(init, loaded);
      assert forall e :: e in envs <==> e in init || e == envs[|envs| - 1];
    }
  }

  /** The database of every environment that was read, keyed by its name (`db`). */
  function LoadedDb(envs: seq<string>, loaded: map<string, LoadResult>): map<string, seq<CompileCommand>>
    requires forall e :: e in envs ==> e in loaded
  {
    if |envs| == 0 then map[]
    else
      var e := envs[|envs| - 1];
      var db := LoadedDb(envs[..|envs| - 1], loaded);
      match loaded[e]
      case Loaded(commands) => if e in db then db else db[e := commands]
      case LoadFailed(_) => db
  }

  /** The database holds exactly the environments that were read, each with the records read for it. */
  lemma {:induction false} LoadedDbSpec(envs: seq<string>, loaded: map<string, LoadResult>)
    requires forall e :: e in envs ==> e in loaded
    ensures forall e :: e in LoadedDb(envs, loaded) <==> e in envs && loaded[e].Loaded?
    ensures forall e :: e in LoadedDb(envs, loaded) ==> LoadedDb(envs, loaded)[e] == loaded[e].commands
  {
    if |envs| > 0 {
      var init := envs[..|envs| - 1];
      LoadedDbSpec(init, loaded);
      assert forall e :: e in envs <==> e in init || e == envs[|envs| - 1];
    }
  }

  /**
   * The load phase after the join: every reader either adds its environment's
   * records to the database or adds its error to the list.
   */
  method LoadAll(envs: seq<string>, loaded: map<string, LoadResult>)
    returns (db: map<string, seq<CompileCommand>>, errors: seq<LoadError>)
    requires forall e :: e in envs ==> e in loaded
    ensures db == LoadedDb(envs, loaded)
    ensures errors == FailedLoads(envs, loaded)
  {
    db := map[];
    errors := [];
    var i := 0;
    while i < |envs|
      invariant 0 <= i <= |envs|
      invariant db == LoadedDb(envs[..i], loaded)
      invariant errors == FailedLoads(envs[..i], loaded)
    {
      var env := envs[i];
      assert envs[..i + 1][..i] == envs[..i];
      match loaded[env] {
        case LoadFailed(reason) =>
          errors := errors + [LoadError(env, reason)];
        case Loaded(commands) =>
          if env !in db {
            db := db[env := commands];
          }
      }
      i := i + 1;
    }
    assert envs[..|envs|] == envs;
  }

  /*
   * Merge phase
   */

  /** The deduplication key of one record. */
  function KeyOf(norm: PathNormaliser, c: CompileCommand): string {
    Key(norm, c.directory, c.file)
  }

  /** The keys of a sequence of records. */
  ghost function KeysOf(cmds: seq<CompileCommand>, norm: PathNormaliser): set<string> {
    if |cmds| == 0 then {} else KeysOf(cmds[..|cmds| - 1], norm) + {KeyOf(norm, cmds[|cmds| - 1])}
  }

  /** Exactly the records' keys are in `KeysOf`. */
  lemma {:induction false} KeysOfSpec(cmds: seq<CompileCommand>, norm: PathNormaliser)
    ensures forall j :: 0 <= j < |cmds| ==> KeyOf(norm, cmds[j]) in KeysOf(cmds, norm)
    ensures forall k :: k in KeysOf(cmds, norm) ==> exists j :: 0 <= j < |cmds| && KeyOf(norm, cmds[j]) == k
  {
    if |cmds| > 0 {
      var init := cmds[..|cmds| - 1];
      KeysOfSpec(init, norm);
      assert forall j :: 0 <= j < |init| ==> cmds[j] == init[j];
    }
  }

  /** The position of the first record with key `k`. */
  ghost function FirstIndex(cmds: seq<CompileCommand>, k: string, norm: PathNormaliser): (i: nat)
    requires k in KeysOf(cmds, norm)
    ensures i < |cmds| && KeyOf(norm, cmds[i]) == k
    ensures forall j :: 0 <= j < i ==> KeyOf(norm, cmds[j]) != k
    decreases |cmds|
  {
    var init := cmds[..|cmds| - 1];
    if k in KeysOf(init, norm) then
      var i := FirstIndex(init, k, norm);
      assert forall j :: 0 <= j <= i ==> cmds[j] == init[j];
      i
    else
      KeysOfSpec(init, norm);
      assert forall j :: 0 <= j < |init| ==> cmds[j] == init[j];
      |cmds| - 1
  }

  /** `emplace`: inserts only when the key is absent. */
  function Emplace(table: Table, k: string, c: CompileCommand): Table {
    if k in table then table else table[k := c]
  }

  /** The table after emplacing `cmds` one after another. */
  ghost function InsertAbsent(table: Table, cmds: seq<CompileCommand>, norm: PathNormaliser): (r: Table)
    ensures r.Keys == table.Keys + KeysOf(cmds, norm)
    ensures forall k :: k in table ==> r[k] == table[k]
    decreases |cmds|
  {
    if |cmds| == 0 then table
    else
      var c := cmds[|cmds| - 1];
      Emplace(InsertAbsent(table, cmds[..|cmds| - 1], norm), KeyOf(norm, c), c)
  }

  /** Each record adds at most one entry. */
  lemma {:induction false} InsertAbsentSize(table: Table, cmds: seq<CompileCommand>, norm: PathNormaliser)
    ensures |InsertAbsent(table, cmds, norm)| <= |table| + |cmds|
    decreases |cmds|
  {
    if |cmds| > 0 {
      var m := InsertAbsent(table, cmds[..|cmds| - 1], norm);
      InsertAbsentSize(table, cmds[..|cmds| - 1], norm);
      var c := cmds[|cmds| - 1];
      if KeyOf(norm, c) !in m {
        assert m[KeyOf(norm, c) := c].Keys == m.Keys + {KeyOf(norm, c)};
      }
    }
  }

  /** A key new to the table gets the first record that carries it. */
  lemma {:induction false} InsertAbsentFirstWins(table: Table, cmds: seq<CompileCommand>, norm: PathNormaliser, k: string)
    requires k !in table && k in KeysOf(cmds, norm)
    ensures InsertAbsent(table, cmds, norm)[k] == cmds[FirstIndex(cmds, k, norm)]
    decreases |cmds|
  {
    var init := cmds[..|cmds| - 1];
    if k in KeysOf(init, norm) {
      InsertAbsentFirstWins(table, init, norm, k);
      assert cmds[FirstIndex(init, k, norm)] == init[FirstIndex(init, k, norm)];
    }
  }

  /**
   * The other loaded environments' records, visited in `order`, inserted only
   * for absent keys.
   */
  ghost function MergeOthers(table: Table, db: map<string, seq<CompileCommand>>, order: seq<string>, target: string, norm: PathNormaliser): (r: Table)
    ensures forall k :: k in r <==> k in table || exists e :: e in order && e != target && e in db && k in KeysOf(db[e], norm)
    ensures forall k :: k in table ==> r[k] == table[k]
    decreases |order|
  {
    if |order| == 0 then table
    else
      var init := order[..|order| - 1];
      var e := order[|order| - 1];
      var r := MergeOthers(table, db, init, target, norm);
      assert forall x :: x in order <==> x in init || x == e;
      if e == target || e !in db then r else InsertAbsent(r, db[e], norm)
  }

  /** One more environment visited by the merge: skipped when it is the target or absent, else inserted. */
  lemma MergeOthersStep(table: Table, db: map<string, seq<CompileCommand>>, order: seq<string>, j: nat, target: string, norm: PathNormaliser)
    requires j < |order|
    ensures var before := MergeOthers(table, db, order[..j], target, norm);
      MergeOthers(table, db, order[..j + 1], target, norm) ==
        if order[j] == target || order[j] !in db then before else InsertAbsent(before, db[order[j]], norm)
  {
    assert order[..j + 1][..j] == order[..j];
  }

  /** The target environment's records, then the others' (`filtered_commands` after both passes). */
  ghost function Merged(db: map<string, seq<CompileCommand>>, target: string, order: seq<string>, norm: PathNormaliser): Table {
    var first := if target in db then InsertAbsent(map[], db[target], norm) else map[];
    MergeOthers(first, db, order, target, norm)
  }

  /** The record that is first, in its environment, to carry key `k`. */
  ghost function FirstWithKey(cmds: seq<CompileCommand>, k: string, norm: PathNormaliser): CompileCommand
    requires k in KeysOf(cmds, norm)
  {
    cmds[FirstIndex(cmds, k, norm)]
  }

  /** Every key the merge added came from some visited environment, through its first record with that key. */
  lemma {:induction false} MergeOthersSource(table: Table, db: map<string, seq<CompileCommand>>, order: seq<string>, target: string, norm: PathNormaliser, k: string)
    requires k in MergeOthers(table, db, order, target, norm) && k !in table
    ensures exists e :: (e in order && e != target && e in db && k in KeysOf(db[e], norm) &&
      MergeOthers(table, db, order, target, norm)[k] == FirstWithKey(db[e], k, norm))
    decreases |order|
  {
    var init := order[..|order| - 1];
    var e := order[|order| - 1];
    var r := MergeOthers(table, db, init, target, norm);
    if k in r {
      MergeOthersSource(table, db, init, target, norm, k);
      var e' :| e' in init && e' != target && e' in db && k in KeysOf(db[e'], norm) && r[k] == FirstWithKey(db[e'], k, norm);
      assert e' in order;
    } else {
      InsertAbsentFirstWins(r, db[e], norm, k);
    }
  }

  /**
   * The merged keys are the union of the keys of all loaded records,
   * whatever the order the other environments are visited in.
   */
  lemma MergedKeys(db: map<string, seq<CompileCommand>>, target: string, order: seq<string>, norm: PathNormaliser)
    requires forall e :: e in order <==> e in db
    ensures forall k :: k in Merged(db, target, order, norm) <==> exists e :: e in db && k in KeysOf(db[e], norm)
  {
  }

  /** On every key the target environment has, its first record with that key wins. */
  lemma TargetWins(db: map<string, seq<CompileCommand>>, target: string, order: seq<string>, norm: PathNormaliser)
    requires target in db
    ensures forall k :: k in KeysOf(db[target], norm) ==>
      k in Merged(db, target, order, norm) && Merged(db, target, order, norm)[k] == FirstWithKey(db[target], k, norm)
  {
    forall k | k in KeysOf(db[target], norm)
      ensures Merged(db, target, order, norm)[k] == FirstWithKey(db[target], k, norm)
    {
      InsertAbsentFirstWins(map[], db[target], norm, k);
    }
  }

  /**
   * A key the target environment lacks belongs to the first record with that
   * key in some other environment.
   */
  lemma OthersFillIn(db: map<string, seq<CompileCommand>>, target: string, order: seq<string>, norm: PathNormaliser, k: string)
    requires k in Merged(db, target, order, norm)
    requires target in db ==> k !in KeysOf(db[target], norm)
    ensures exists e :: (e in order && e != target && e in db && k in KeysOf(db[e], norm) &&
      Merged(db, target, order, norm)[k] == FirstWithKey(db[e], k, norm))
  {
    var first := if target in db then InsertAbsent(map[], db[target], norm) else map[];
    MergeOthersSource(first, db, order, target, norm, k);
  }

  /** Two visiting orders of the same environments give the same keys and the same target records. */
  lemma MergeOrderIndependent(db: map<string, seq<CompileCommand>>, target: string, order1: seq<string>, order2: seq<string>, norm: PathNormaliser)
    requires forall e :: e in order1 <==> e in db
    requires forall e :: e in order2 <==> e in db
    ensures Merged(db, target, order1, norm).Keys == Merged(db, target, order2, norm).Keys
    ensures target in db ==> forall k :: k in KeysOf(db[target], norm) ==>
      Merged(db, target, order1, norm)[k] == Merged(db, target, order2, norm)[k]
  {
    MergedKeys(db, target, order1, norm);
    MergedKeys(db, target, order2, norm);
    if target in db {
      TargetWins(db, target, order1, norm);
      TargetWins(db, target, order2, norm);
    }
  }

  /** `total_commands`: the number of records over the environments in `order`. */
  ghost function TotalCommands(db: map<string, seq<CompileCommand>>, order: seq<string>): nat
    requires forall e :: e in order ==> e in db
  {
    if |order| == 0 then 0
    else TotalCommands(db, order[..|order| - 1]) + |db[order[|order| - 1]]|
  }

  /** The number of records over the environments in `order` other than `target`. */
  ghost function OtherCommands(db: map<string, seq<CompileCommand>>, order: seq<string>, target: string): nat
    requires forall e :: e in order ==> e in db
  {
    if |order| == 0 then 0
    else
      var e := order[|order| - 1];
      OtherCommands(db, order[..|order| - 1], target) + if e == target then 0 else |db[e]|
  }

  lemma {:induction false} MergeOthersSize(table: Table, db: map<string, seq<CompileCommand>>, order: seq<string>, target: string, norm: PathNormaliser)
    requires forall e :: e in order ==> e in db
    ensures |MergeOthers(table, db, order, target, norm)| <= |table| + OtherCommands(db, order, target)
    decreases |order|
  {
    if |order| > 0 {
      var init := order[..|order| - 1];
      var e := order[|order| - 1];
      MergeOthersSize(table, db, init, target, norm);
      if e != target {
        InsertAbsentSize(MergeOthers(table, db, init, target, norm), db[e], norm);
      }
    }
  }

  lemma {:induction false} TotalSplits(db: map<string, seq<CompileCommand>>, order: seq<string>, target: string)
    requires forall e :: e in order ==> e in db
    requires Distinct(order)
    ensures TotalCommands(db, order) == OtherCommands(db, order, target) + if target in order then |db[target]| else 0
    decreases |order|
  {
    if |order| > 0 {
      var init := order[..|order| - 1];
      TotalSplits(db, init, target);
      assert forall x :: x in order <==> x in init || x == order[|order| - 1];
      if order[|order| - 1] == target {
        assert target !in init;
      }
    }
  }

  /** There are never more merged records than loaded ones. */
  lemma MergedSize(db: map<string, seq<CompileCommand>>, target: string, order: seq<string>, norm: PathNormaliser)
    requires forall e :: e in order <==> e in db
    requires Distinct(order)
    ensures |Merged(db, target, order, norm)| <= TotalCommands(db, order)
  {
    if target in db {
      InsertAbsentSize(map[], db[target], norm);
    }
    MergeOthersSize(if target in db then InsertAbsent(map[], db[target], norm) else map[], db, order, target, norm);
    TotalSplits(db, order, target);
  }

  /** One insertion pass over an environment's records: each is inserted only if its key is absent. */
  method InsertAll(table: Table, cmds: seq<CompileCommand>, norm: PathNormaliser) returns (r: Table)
    ensures r == InsertAbsent(table, cmds, norm)
  {
    r := table;
    var i := 0;
    while i < |cmds|
      invariant 0 <= i <= |cmds|
      invariant r == InsertAbsent(table, cmds[..i], norm)
    {
      assert cmds[..i + 1][..i] == cmds[..i];
      var cmd := cmds[i];
      var k := KeyOf(norm, cmd);
      if k !in r {
        r := r[k := cmd];
      }
      i := i + 1;
    }
    assert cmds[..|cmds|] == cmds;
  }

  /**
   * The two insertion passes: the target environment's records first, then
   * every other environment's records, in the database's iteration order
   * `order`, for keys not yet present.
   */
  method MergeCommands(db: map<string, seq<CompileCommand>>, target: string, order: seq<string>, norm: PathNormaliser)
    returns (table: Table)
    requires forall e :: e in order ==> e in db
    ensures table == Merged(db, target, order, norm)
  {
    table := map[];
    if target in db {
      table := InsertAll(table, db[target], norm);
    }
    ghost var first := table;
    var j := 0;
    while j < |order|
      invariant 0 <= j <= |order|
      invariant table == MergeOthers(first, db, order[..j], target, norm)
    {
      MergeOthersStep(first, db, order, j, target, norm);
      var env := order[j];
      if env != target {
        table := InsertAll(table, db[env], norm);
      }
      j := j + 1;
    }
    assert order[..|order|] == order;
  }

  /*
   * Per-record rewrite
   */

  /**
   * The record as written out: `arguments` filtered (from the original
   * arguments when there are any, else from the tokenized command), and
   * `command` cleared.
   */
  function Rewritten(c: CompileCommand): CompileCommand {
    var arguments :=
      if |c.arguments| > 0 then Processed(c.arguments)
      else if |c.command| > 0 then Processed(Tokenize(c.command))
      else [];
    c.(command := "", arguments := arguments)
  }

  /**
   * A rewritten record keeps its directory, file and output, has no command,
   * and its arguments are an order-preserving selection, with every essential
   * token kept, of the arguments after the program name: of the original
   * arguments when there were any, else of the tokenized command. Every kept
   * argument is essential or the value of the value flag kept just before it.
   */
  lemma RewrittenSpec(c: CompileCommand)
    ensures var r := Rewritten(c);
      && r.directory == c.directory && r.file == c.file && r.output == c.output
      && r.command == ""
      && (|c.arguments| > 0 ==>
            IsSubsequence(r.arguments, c.arguments[1..]) && Essentials(r.arguments) == Essentials(c.arguments[1..])
            && Justified(r.arguments))
      && (|c.arguments| == 0 && |Tokenize(c.command)| > 0 ==>
            IsSubsequence(r.arguments, Tokenize(c.command)[1..]) && Essentials(r.arguments) == Essentials(Tokenize(c.command)[1..])
            && Justified(r.arguments))
      && (|c.arguments| == 0 && |Tokenize(c.command)| == 0 ==> r.arguments == [])
  {
    if |c.arguments| > 0 {
      FilterArgsSubsequence(c.arguments[1..]);
      FilterArgsKeepsEssentials(c.arguments[1..]);
      FilterArgsJustified(c.arguments[1..]);
    } else if |Tokenize(c.command)| > 0 {
      FilterArgsSubsequence(Tokenize(c.command)[1..]);
      FilterArgsKeepsEssentials(Tokenize(c.command)[1..]);
      FilterArgsJustified(Tokenize(c.command)[1..]);
    }
  }

  /** Every entry of the table rewritten, in place. */
  method FilterCommands(table: Table) returns (result: Table)
    ensures result.Keys == table.Keys
    ensures forall k :: k in table ==> result[k] == Rewritten(table[k])
  {
    result := table;
    var remaining := table.Keys;
    while remaining != {}
      invariant remaining <= table.Keys
      invariant result.Keys == table.Keys
      invariant forall k :: k in table ==> result[k] == if k in remaining then table[k] else Rewritten(table[k])
      decreases remaining
    {
      var k :| k in remaining;
      var cmd := result[k];
      var filtered: seq<string> := [];
      if |cmd.arguments| > 0 {
        filtered := ProcessTokens(cmd.arguments, filtered);
      } else if |cmd.command| > 0 {
        filtered := ProcessTokens(Tokenize(cmd.command), filtered);
      }
      result := result[k := cmd.(arguments := filtered, command := "")];
      remaining := remaining - {k};
    }
  }

  /** `out` lists the table's values, one per key, in the order `keys` gives. */
  ghost predicate Enumerates(out: seq<CompileCommand>, keys: seq<string>, table: Table) {
    && |out| == |keys|
    && Distinct(keys)
    && (forall k :: k in keys <==> k in table)
    && forall i :: 0 <= i < |out| ==> out[i] == table[keys[i]]
  }

  /** The values of the table, one per key, in the table's own iteration order. */
  method ExtractValues(table: Table) returns (out: seq<CompileCommand>, ghost keys: seq<string>)
    ensures Enumerates(out, keys, table)
    ensures |out| == |table|
  {
    out := [];
    keys := [];
    var remaining := table.Keys;
    while remaining != {}
      invariant remaining <= table.Keys
      invariant |out| == |keys| && Distinct(keys)
      invariant forall k :: k in keys <==> k in table && k !in remaining
      invariant forall i :: 0 <= i < |out| ==> out[i] == table[keys[i]]
      invariant |keys| + |remaining| == |table.Keys|
      decreases remaining
    {
      var k :| k in remaining;
      out := out + [table[k]];
      keys := keys + [k];
      remaining := remaining - {k};
    }
    assert |table| == |table.Keys|;
  }

  /** The unified database: the merged table with every record rewritten. */
  ghost function Unified(db: map<string, seq<CompileCommand>>, target: string, order: seq<string>, norm: PathNormaliser): Table
  {
    var merged := Merged(db, target, order, norm);
    map k | k in merged :: Rewritten(merged[k])
  }

  /**
   * `gen_cmds` from the lines of platformio.ini to the records written to the
   * project's compile_commands.json. `loaded` holds each environment's read
   * result once every reader has finished, `order` is the iteration order of
   * the loaded-database hash map, and `norm` is the path normaliser.
   */
  method GenCmds(iniLines: seq<string>, requested: string, loaded: map<string, LoadResult>, order: seq<string>, norm: PathNormaliser)
    returns (r: Result<seq<CompileCommand>, GenError>, warned: bool, ghost keys: seq<string>)
    requires forall e :: e in EnvNames(iniLines) ==> e in loaded
    requires forall e :: e in order <==> e in EnvNames(iniLines)
    requires Distinct(order)
    ensures EnvNames(iniLines) == [] ==> r == Err(ConfigError(NoEnvironments)) && !warned
    ensures EnvNames(iniLines) != [] ==>
      var envs := EnvNames(iniLines);
      var target := ResolveTarget(envs, requested);
      && warned == target.warned
      && (FailedLoads(envs, loaded) != [] ==> r == Err(LoadErrors(FailedLoads(envs, loaded), |envs|)))
      && (FailedLoads(envs, loaded) == [] ==>
            r.Ok? && Enumerates(r.value, keys, Unified(LoadedDb(envs, loaded), target.name, order, norm)))
  {
    keys := [];
    warned := false;
    var environments := GetEnvs(iniLines);
    if environments.Err? {
      return Err(ConfigError(environments.error)), warned, keys;
    }
    var envs := environments.value;
    var target := ResolveTarget(envs, requested);
    warned := target.warned;

    var db, errors := LoadAll(envs, loaded);
    if |errors| > 0 {
      return Err(LoadErrors(errors, |envs|)), warned, keys;
    }
    FailedLoadsSpec(envs, loaded);
    LoadedDbSpec(envs, loaded);

    var table := MergeCommands(db, target.name, order, norm);
    var rewritten := FilterCommands(table);
    assert rewritten == Unified(db, target.name, order, norm);
    var out;
    out, keys := ExtractValues(rewritten);
    return Ok(out), warned, keys;
  }
}
