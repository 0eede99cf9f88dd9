# pio-clangd in Dafny

A model of the core of pio-clangd. The tool merges the per-environment
`compile_commands.json` files of a PlatformIO project into one filtered
database for clangd, and it writes a `.clangd` configuration file from the
project metadata.

The model is split into modules:

- `Lexicographic`: the byte-lexicographic order `std::string_view` compares
  with, and the `starts_with` prefix test.
- `Classifier`: the sorted tables `STEMS` and `FLAGS_WITH_VALUES`, and the
  two tests built on them:
  - `essential_flag`, the `upper_bound` predecessor test;
  - the `binary_search` test for flags that take a separate value.
- `Tokenizer`: `tokenize_command`, which splits on `' '` and drops empty
  pieces.
- `TokenFilter`: `process_tokens`. It is the imperative loop that appends to
  the caller's vector, proved against the specification function
  `FilterArgs`.
- `EnvScan`: `get_envs` over the lines of platformio.ini. A hand-written
  leftmost matcher stands in for the regular expression
  `\[env:([a-zA-Z0-9_\-]+)\]`.
- `DedupKey`: `make_dedup_key`. It strips the environment segment after the
  first `.pio/libdeps/`.
- `Aggregator`: `gen_cmds`, covering:
  - target resolution;
  - the load results once the readers have joined, and the error gate;
  - the two-pass priority merge under deduplication keys;
  - the per-record rewrite of the arguments;
  - the extraction of the output records.
- `ClangdConfig`: the `gen_config.py` generator, covering:
  - the `.clangd` text;
  - its statistics;
  - the merge of the default and user skip sets and transforms;
  - the choice of environment.

Each loop that builds the output is a method with loop invariants, proved
against a specification function. The counting loop for `total_commands`
only feeds statistics, so it is the function `TotalCommands` instead. The
properties of these functions are proved as lemmas:

- both tables are sorted and prefix-free;
- `essential_flag` is exactly "some stem is a prefix";
- tokenizing round-trips the space-joined tokens, and runs of spaces,
  leading or trailing ones included, yield no tokens;
- the filter is an order-preserving selection that keeps every essential
  token, and keeps the separate value of a value flag right after it;
- the target environment wins the merge, and the merged key set does not
  depend on the hash-map order;
- the config text has its fixed layout and line count.

## Model

| member | source | states |
|---|---|---|
| Classifier.TablesSorted | include/clangd.h:38-63 | `STEMS` and `FLAGS_WITH_VALUES` are strictly sorted, each element before every later one, as `upper_bound` and `binary_search` require |
| Classifier.StemsNeighbours | include/clangd.h:41-58 | each stem is smaller than the next one and is not a prefix of it |
| Classifier.StemsPrefixFree | include/clangd.h:41-58 | no stem is a prefix of another stem |
| Classifier.ValueFlagsPrefixFree | include/clangd.h:60-63 | no flag that takes a separate value is a prefix of another (`-I` is not a prefix of `-include`, since the case differs) |
| Classifier.ValueFlagsAreStems | include/clangd.h:41-63 | every flag that takes a separate value is also a stem |
| Classifier.UpperBoundSplits | include/clangd.h:71-72 | on a sorted table, `upper_bound` returns the index that separates the elements not greater than the token from those greater than it |
| Classifier.LowerBoundSplits | include/clangd.h:111-112 | on a sorted table, `lower_bound` (the search inside `binary_search`) separates the smaller elements from the rest |
| Classifier.BinarySearchIsMembership | include/clangd.h:111-112 | on a sorted table, `binary_search` holds exactly when the token is an element |
| Classifier.TakesValueIsMembership | include/clangd.h:60-63 | the value-flag test holds exactly for `--sysroot`, `-I`, `-include` and `-isystem` |
| Classifier.PredecessorTest | include/clangd.h:71-81 | on a sorted, prefix-free table, "the element just below the upper bound is a prefix of the token" is equivalent to "some element is a prefix of the token" |
| Classifier.EssentialFlagIsStemPrefix | include/clangd.h:66-82 | `essential_flag(t)` holds exactly when some stem is a prefix of `t` (so it is false for the empty token) |
| Classifier.EssentialStartsWithDash | include/clangd.h:66-82 | every essential token starts with `-` |
| Classifier.ValueFlagIsEssential | include/clangd.h:60-63 | a flag that takes a separate value is always essential |
| Tokenizer.SplitJoin | include/clangd.h:91 | the pieces of `split(' ')`, joined with single spaces, give back the input |
| Tokenizer.NonEmptyElements | include/clangd.h:92 | a string is among the kept pieces exactly when it is a non-empty piece |
| Tokenizer.NonEmptyAppend | include/clangd.h:92 | the filter works piece by piece: it keeps each non-empty piece and drops each empty one, in order and with repeats, so filtering a concatenation filters each part |
| Tokenizer.TokensWellFormed | include/clangd.h:87-95 | every token is non-empty and contains no `' '` |
| Tokenizer.TokenizeKeepsOrder | include/clangd.h:87-95 | the tokens, concatenated in order, are exactly the non-space characters of the command |
| Tokenizer.TokenizeEmpty | include/clangd.h:87-95 | there are no tokens exactly when the command is empty or all spaces |
| Tokenizer.JoinSplit | include/clangd.h:91 | splitting the single-space join of space-free pieces gives back those pieces |
| Tokenizer.TokenizeJoin | include/clangd.h:91-94 | tokenizing the single-space join of non-empty, space-free tokens gives back those tokens |
| Tokenizer.SplitAtSpace | include/clangd.h:91 | splitting at a space gives the pieces of the text before it, then those of the text after it |
| Tokenizer.TokenizeAtSpace | include/clangd.h:87-95 | the tokens of `a + " " + b` are the tokens of `a`, then those of `b` |
| Tokenizer.TokenizeWord | include/clangd.h:87-95 | a non-empty, space-free command is one token |
| Tokenizer.TokenizeSpaceRun | include/clangd.h:89-94 | a run of one or more spaces separates the tokens on either side and yields no token, also at the start or end of the command |
| Tokenizer.SpacedWords | tests/test_utilities.cpp:97-108 | three words separated by runs of spaces, as in `"gcc   -I/path    -DDEBUG"`, are exactly those three tokens |
| Tokenizer.PaddedCommand | tests/test_utilities.cpp:120-130 | spaces before and after a command, as in `"  g++ -c file.cpp  "`, do not change its tokens |
| TokenFilter.ProcessTokens | include/clangd.h:98-119 | the loop appends exactly `FilterArgs(tokens[1..])` to the caller's vector, and nothing for an empty range |
| TokenFilter.ProcessedIsSelection | include/clangd.h:100-118 | prior contents stay as a prefix, and the appended tokens are an order-preserving subsequence of the tokens after the first, so at most n-1 are appended |
| TokenFilter.FilterArgsSubsequence | include/clangd.h:105-118 | the kept arguments appear in the input in the same order |
| TokenFilter.FilterArgsJustified | include/clangd.h:107-116 | each kept argument is essential, or it directly follows, in the output, a flag taking a value and does not start with `-` |
| TokenFilter.SplitBeforeDash | include/clangd.h:111-116 | a token starting with `-` is never taken as a value, so the arguments before it and from it on are filtered independently |
| TokenFilter.SeparatedValueKept | include/clangd.h:111-116 | an exact value flag followed by a value not starting with `-` is kept together with that value, in place, wherever the pair stands in the input |
| TokenFilter.FilterArgsKeepsEssentials | include/clangd.h:105-118 | the essential arguments of the output are exactly those of the input, in order: none is lost or duplicated |
| TokenFilter.EssentialIsEmitted | include/clangd.h:107-108 | every essential token after the first is emitted |
| TokenFilter.DanglingValueFlag | include/clangd.h:111-116 | a value flag with no successor is emitted on its own, after exactly what the arguments before it give |
| EnvScan.NameRun | src/clangd.cpp:33 | the greedy `[a-zA-Z0-9_\-]+` run is maximal: all name characters, then a non-name character or the end of the line |
| EnvScan.MatchAtOccurs | src/clangd.cpp:33 | the matcher at a position returns `NAME` exactly when `[env:NAME]` with a valid name starts there |
| EnvScan.MatchEnvLeftmost | src/clangd.cpp:38-43 | `regex_search` gives the name of the leftmost `[env:NAME]` in the line, or nothing when the line has none |
| EnvScan.GetEnvs | src/clangd.cpp:33-51 | the names are collected in line order, at most one per line, and the result is an error when there are none |
| EnvScan.EnvNamesAppend | src/clangd.cpp:38-44 | scanning two blocks of lines gives the names of the first block, then those of the second |
| EnvScan.EnvNamesWellFormed | src/clangd.cpp:38-44 | there are at most as many names as lines, and every name is made of `[A-Za-z0-9_-]+` |
| EnvScan.EnvNamesOfLine | src/clangd.cpp:39-43 | one line contributes exactly its first match |
| DedupKey.Find | src/clangd.cpp:161 | `string::find` returns the leftmost occurrence at or after the start position, or none when there is no occurrence |
| DedupKey.StripWithoutMarker | src/clangd.cpp:161-162 | a path without `.pio/libdeps/` is its own key |
| DedupKey.StripWithoutSegmentEnd | src/clangd.cpp:163-165 | when no `/` follows the first marker, the path is its own key |
| DedupKey.StripSegment | src/clangd.cpp:154-172 | the key is the path with exactly the segment after the first marker, and its trailing slash, removed; the rest of the path is unchanged |
| DedupKey.EnvironmentsCollapse | src/clangd.cpp:158-168 | the same library file under two environment directories gets one key, the path without the segment |
| Aggregator.ResolveTarget | src/clangd.cpp:76-89 | the target is always a declared environment: an empty request gives the first one, a declared name gives itself, an unknown name gives the first one with a warning |
| Aggregator.FailedLoadsSpec | src/clangd.cpp:97-131 | the error list is empty exactly when every environment was read; there is at most one error per declared entry (a name declared twice is read, and can fail, twice), and each names a failed read. Every failed read is reported, as the loop at src/clangd.cpp:125-131 prints them all |
| Aggregator.LoadedDbSpec | src/clangd.cpp:111-112 | the database holds exactly the environments that were read, each with its records |
| Aggregator.LoadAll | src/clangd.cpp:97-122 | after the join, the database and the error list are those of the per-environment results |
| Aggregator.InsertAbsent | src/clangd.cpp:179-181 | emplacing records adds the keys of those records and never changes an existing entry |
| Aggregator.InsertAbsentSize | src/clangd.cpp:179-181 | each record adds at most one entry |
| Aggregator.InsertAbsentFirstWins | src/clangd.cpp:179-181 | a new key maps to the first record that carries it, because `emplace` does not overwrite |
| Aggregator.MergeOthers | src/clangd.cpp:184-196 | the non-target pass adds exactly the keys of the other loaded environments and never replaces an entry |
| Aggregator.MergeOthersSource | src/clangd.cpp:184-196 | every key the non-target pass adds comes from some visited environment, through its first record with that key |
| Aggregator.MergedKeys | src/clangd.cpp:174-196 | the final key set is the union of the keys of all loaded records |
| Aggregator.TargetWins | src/clangd.cpp:174-182 | every key of a target record maps to the target's first record with that key |
| Aggregator.OthersFillIn | src/clangd.cpp:184-196 | a key the target lacks maps to the first record with that key in some other environment |
| Aggregator.MergeOrderIndependent | src/clangd.cpp:185-196 | any two iteration orders of the hash map give the same keys and the same target records |
| Aggregator.MergedSize | src/clangd.cpp:135-138 | the merged table has at most `total_commands` entries |
| Aggregator.InsertAll | src/clangd.cpp:179-181 | the emplace loop over one environment's records builds the table that `InsertAbsent` describes |
| Aggregator.MergeCommands | src/clangd.cpp:174-196 | the two passes build the merged table: the target first, then the others in hash-map order, each for absent keys only |
| Aggregator.RewrittenSpec | src/clangd.cpp:201-215 | a rewritten record keeps its directory, file and output, and has an empty command. Its arguments are an order-preserving, essentials-preserving selection from the original arguments when there were any, else from the tokenized command, else empty. Every kept argument is essential, or it is the value of the value flag kept just before it, so the non-essential arguments are dropped |
| Aggregator.FilterCommands | src/clangd.cpp:201-215 | every entry is rewritten in place, and the keys are unchanged |
| Aggregator.ExtractValues | src/clangd.cpp:217-222 | the output has exactly one record per key of the table, each that key's record |
| Aggregator.GenCmds | src/clangd.cpp:65-222 | three outcomes. No environment gives the configuration error. Any failed read gives the list of errors and no records. Otherwise the output enumerates the merged, rewritten database, one record per distinct key |
| ClangdConfig.IncludeFlagsOrder | gen_config.py:64-68 | the include flags are `-I` in front of the build paths, then the compatlib paths, then the toolchain paths, with absent categories skipped |
| ClangdConfig.KeptAppend | gen_config.py:74-79 | the flag filter preserves order: the kept flags of a concatenation are those of its parts |
| ClangdConfig.KeptElements | gen_config.py:74-79 | every kept flag is the transform (identity by default) of a flag outside the skip set, and every such flag contributes its transform |
| ClangdConfig.KeptAvoidsSkip | gen_config.py:74-79 | when no transform produces a skipped flag, no skipped flag is emitted |
| ClangdConfig.ConfigLinesLayout | gen_config.py:81-100 | the lines are `CompileFlags:`, `  Add:`, one `    - -D<d>` per define in order, one line per include flag, one per kept flag, and `  Compiler: <cxx_path>`; there are 3 + defines + includes + kept lines |
| ClangdConfig.ConfigTextFrame | gen_config.py:82-102 | the text starts with `CompileFlags:\n  Add:\n` and ends with `  Compiler: <cxx_path>` and a newline |
| ClangdConfig.ConfigTextNewlines | gen_config.py:82-102 | when no entry holds a newline, the text has 3 + defines + includes + kept flags newlines |
| ClangdConfig.GenerateClangdConfig | gen_config.py:58-102 | the generator's loops produce exactly the joined config lines with a trailing newline |
| ClangdConfig.CollectIncludes | gen_config.py:64-68 | the include loop yields the `-I` flags of the present categories, in category order |
| ClangdConfig.CollectFlags | gen_config.py:73-79 | the flag loop yields the transformed flags outside the skip set, in order |
| ClangdConfig.AppendPrefixed | gen_config.py:88-97 | each append loop adds one prefixed entry per item, in order, after the existing lines |
| ClangdConfig.KeptCount | gen_config.py:118 | the number of kept flags equals the number of flags outside the skip set, which is at most the number of flags |
| ClangdConfig.StatsMatchConfig | gen_config.py:112-125 | `defines` and `includes` count the `-D` and `-I` entries generated, `flags` counts the kept flags, and `flags + filtered_flags` is the number of compiler flags |
| ClangdConfig.CombineFlagsToSkip | gen_config.py:151-154 | the effective skip set is the defaults together with the user flags |
| ClangdConfig.CombineFlagTransforms | gen_config.py:156-158 | the effective transforms are the defaults overridden by the user map |
| ClangdConfig.SelectEnv | gen_config.py:165-176 | a non-empty requested name is used only when it is in the metadata, and otherwise is the `ValueError`; no name selects the first environment |
| ClangdConfig.GenClangd | gen_config.py:151-197 | the result is the selection error, or the chosen environment with the config text and statistics generated from its data under the combined options |

## Left out

- Threads, mutexes and the join barrier (src/clangd.cpp:91-122) are not modelled. The load phase takes the joined per-environment results as a map. The model puts the errors in declaration order; in the source their order depends on thread scheduling.
- The `boost::unordered_flat_map` iteration order is not computed. It is the `order` parameter of the merge, which may be any duplicate-free listing of the loaded environments. The output order is that of the model's own iteration over the table, recorded in the ghost `keys`. Only order-independent facts and "target wins" are claimed about it.
- JSON reading and writing, the existence check and the open errors of platformio.ini are foreign I/O and are not modelled. `get_envs` starts from the lines of the file. The write of compile_commands.json and its error are not modelled either.
- `std::regex` is not modelled. A hand-written leftmost matcher for `[env:NAME]` stands in for it.
- `fs::path::lexically_normal` of `directory / file` is library behaviour, so it is the parameter `norm`; only the marker stripping is specified.
- Progress printing, warnings on stderr and the floating-point "Reduction" percentage (src/clangd.cpp:144-147, 198-199, 234-238) are output only. The model keeps the fallback warning as the flag `warned`.
- The `environments->empty()` branch of `gen_cmds` (src/clangd.cpp:71-74) is not modelled separately: `get_envs` already returns an error for an empty list.
- src/main.cpp, pio_targets.py and scripts/env_compiledb.py are CLI parsing and subprocess wrappers, outside this model.
- `_get_pio_metadata` and `_write_clangd_file` of gen_config.py are subprocess, JSON and file I/O. The metadata is a given value.
- gen_config.py computes the statistics only when `verbose` is set, and then prints them. GenClangd always returns them and prints nothing.
- Malformed metadata (a missing `includes`, `defines`, `cxx_flags` or `cxx_path` key, raising `KeyError`) cannot occur: `EnvData` always has these fields.
- Tokenizer.Split gives one empty piece for an empty string, while `views::split` gives none. The difference disappears once empty pieces are filtered, so tokenizing is unaffected.
- Classifier.UpperBound, Classifier.LowerBound and Classifier.BinarySearch do not require a sorted table, because they are defined for any table. Their meaning is proved only for sorted tables, and only sorted tables are searched.
