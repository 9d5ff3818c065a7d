# tin-summer, the core in Dafny

tin-summer (`sn`) reports disk usage and finds build artifacts. This project
models its core:

- **Size tree.** `FileSize`, `NamePair` and `FileTree` are in `types.dfy`. A
  `FileTree` is a class whose `Add`/`Push` update it in place. `Sort` and
  `Filtered` are specified by a stable sort and a filter on the entry list.
- **Ignore files.** The nom grammars that turn `.gitignore`/`.ignore` files
  and darcs `boring` files into a regex set are in `nom.dfy` and
  `gitignore.dfy`. Their output is proved equal to a character-by-character
  translation, `Rewrite`, including the cases where nom gives up with
  `Incomplete`.
- **Command-line helpers.** `cli_helpers.dfy` covers the threshold grammar
  (`30M`, `2G`, ...) and the depth, count, directory and exclusion
  arguments.
- **Utilities.** `utils.dfy` covers the ignore-file probe `mk_ignores`, the
  worker count and the size of a file.
- **Classification.** `classify.dfy` covers what is an executable, a build
  artifact, or a project's output directory. The three built-in regexes are
  written out as predicates on the name.
- **Walks.** `walk.dfy` holds the four single-threaded walks: `read_size`,
  `read_all`, `read_no_excludes` and `read_all_fast`.

The filesystem is a value (`Walk.Node`), a tree of entries in the order
`read_dir` yields them. A directory may be unreadable, a file's metadata may
be missing, and a name may not be valid UTF-8. Anything the walks learn
besides listing directories is a parameter (`Walk.Env`):

- the contents of the ignore files;
- which paths exist and which globs match;
- the regex engine, as two oracles: `matches` (does a pattern match a text)
  and `compiles` (does a token list build a `RegexSet`).

Each walk is a recursive method with the source's loop over the entries,
proved against a specification function. The lemmas then relate the walks to
each other:

- the tree `read_all` builds accounts for every byte `read_size` counts;
- artifact mode never reports more than plain mode;
- the depth limit holds;
- without filters, `read_all_fast` lists exactly what `read_all` lists.

A call that can panic or exit returns `Wrappers.Outcome` (`Value`, `Panic`,
`Exit(code)`). Arithmetic overflow is a panic, as in a debug build.

Notes on the code:

- `is_artifact` counts a file outside the artifact table only when it is
  executable AND its name is in the secondary table AND the ignore set
  matches it (`src/walk_parallel/single_threaded.rs:195-205`).
- The artifact and project-directory suffixes are case-sensitive
  (`src/walk_parallel/single_threaded.rs:56`,
  `src/walk_parallel/single_threaded.rs:191`).
- A first line `#...` of an ignore file is dropped from the output
  (`src/gitignore.rs:90-96`), and a file that is only such a line with no
  newline gives an empty set.

## Model

| member | source | states |
|---|---|---|
| Types.FileSize.Get | src/types.rs:25-27 | `get` returns the wrapped byte count |
| Types.FileSize.Add | src/types.rs:21-23 | `add` yields the sum of the two counts, which must fit a `u64` |
| Types.NewFileSize | src/types.rs:17-19 | `new(i).get() == i` |
| Types.NewGetRoundTrip | src/types.rs:11-28 | `get(new(i)) == i`, and the derived order on `FileSize` is the order of the counts |
| Types.PassesMeaning | src/types.rs:138-146 | an entry passes the filter iff it is a directory (when only directories are wanted), strictly above the threshold (when there is one), and no deeper than the limit (when there is one) |
| Types.Passes | src/types.rs:138-146 | the filter closure: a directory when only directories are asked for, strictly above the threshold, and no deeper than the depth limit |
| Types.Keep | src/types.rs:126-146 | `filter` over the entries: the passing ones, in their order |
| Types.SortBySize | src/types.rs:38-40 | `sort_by(sort_by_size)`: the entries in descending or ascending order of size, stably, by insertion |
| Types.TopN | src/types.rs:90-106 | `sort(Some(n), ..)`: sort descending, filter, then take `n` |
| Types.Ascending | src/types.rs:108-123 | `sort(None, ..)`: sort ascending, then filter |
| Types.KeptTotal | src/types.rs:83-87 | the total is kept iff it is strictly above the threshold (always without one), else it becomes 0 |
| Types.FileTree.constructor | src/types.rs:154-159 | `FileTree::new` is an empty tree with total 0 |
| Types.FileTree.FromParts | src/types.rs:148-151 | the struct literal holds exactly the given total and entries |
| Types.FileTree.Add | src/types.rs:161-163 | the total grows by the size; the entries are unchanged |
| Types.FileTree.Push | src/types.rs:165-183 | the total grows by the size; the subtree's entries move to the end, followed by the new entry; the subtree is left empty |
| Types.FileTree.Sort | src/types.rs:76-124 | with a count `n`, the result is the first `n` passing entries of the descending stable sort; without one, all passing entries in ascending stable order; the total follows `KeptTotal` |
| Types.FileTree.Filtered | src/types.rs:126-152 | the passing entries in their original order; the total follows `KeptTotal` |
| Types.KeepCount | src/types.rs:138-146 | the filter keeps each entry as many times as it occurs, if it passes, and never otherwise |
| Types.KeepSubset | src/types.rs:138-146 | the filtered list is a sub-multiset of the input and holds exactly the passing entries |
| Types.FilterMonotone | src/types.rs:138-146 | a higher threshold keeps a sub-multiset of what a lower one keeps, all strictly above it |
| Types.KeepPreservesSorted | src/types.rs:90-123 | filtering a sorted list leaves it sorted |
| Types.OfSizeConcat | src/types.rs:38-40 | the entries of one size in a concatenation are those of each part, in order |
| Types.KeepOfSizeCommute | src/types.rs:138-146 | filtering and selecting one size commute |
| Types.InsertMultiset | src/types.rs:38-40 | inserting adds exactly one entry |
| Types.InsertSorted | src/types.rs:38-40 | inserting into a sorted list keeps it sorted |
| Types.InsertOfSize | src/types.rs:38-40 | inserting after every entry that may precede it keeps entries of equal size in their original order |
| Types.SortBySizeFacts | src/types.rs:91 | `sort_by` with `sort_by_size` is a permutation, sorted, and stable (every size class keeps its order) |
| Types.SortedKeep | src/types.rs:90-106 | sorting then filtering keeps the passing entries as a multiset, sorted |
| Types.AscendingFacts | src/types.rs:108-123 | `sort(None, ..)` keeps exactly the passing entries, ascending, each size class in original order |
| Types.TakeOfDescending | src/types.rs:90-106 | `take(n)` of a descending list keeps `min(n, len)` entries, none smaller than any dropped |
| Types.DescendingSplit | src/types.rs:90-106 | in a descending list, every entry before position `n` is at least every entry after it |
| Types.TopNFacts | src/types.rs:90-106 | `sort(Some(n), ..)` keeps `min(n, passing)` passing entries, largest first, none smaller than a passing entry it drops |
| Nom.RunLength | src/gitignore.rs:128-133 | the run `is_not!` consumes: the leading characters outside the stop set, ending at a stop character or the end |
| Nom.Tag | src/gitignore.rs:152-157 | `tag!` succeeds iff the input starts with the tag; it is `Incomplete` iff the input is a proper prefix of the tag |
| Nom.IsNot | src/gitignore.rs:128-133 | `is_not!` fails iff the input starts with a stop character, never asks for more input, and otherwise splits off the longest run outside the stop set |
| Gitignore.Options | src/gitignore.rs:115-126 | `options`: the first alternative that does not fail, in the source's order |
| Gitignore.Darcs | src/gitignore.rs:98-106 | `darcs`: the first alternative that does not fail, in the source's order |
| Gitignore.FirstLine | src/gitignore.rs:135-142 | `first_line`: a `#`, a run without newline, then a newline, all dropped |
| Gitignore.Many0 | src/gitignore.rs:82-96 | nom 3's `many0!` of one step: repeats until the step fails or the input is empty, fails when a step consumes nothing, and passes `Incomplete` on |
| Gitignore.Process | src/gitignore.rs:82-96 | `process`/`process_darcs`: an optional first line, then `many0!` of the dialect's step |
| Gitignore.ProcessToVector | src/gitignore.rs:54-80 | the pieces when the grammar finishes, and no pieces otherwise |
| Gitignore.FileContentsToRegex | src/gitignore.rs:33-52 | the gitignore translation, split on whitespace and compiled, or the empty set |
| Gitignore.DarcsContentsToRegex | src/gitignore.rs:10-29 | the darcs translation, split on whitespace and compiled, or the empty set |
| Gitignore.Step | src/gitignore.rs:98-126 | one step of `options`/`darcs` consumes a suffix of the input |
| Gitignore.StepConsumes | src/gitignore.rs:98-126 | every alternative of `options` and of `darcs` that succeeds leaves a suffix of its input |
| Gitignore.StepOnComment | src/gitignore.rs:98-133 | on a `#`, every alternative before `parse_not_comment` fails, in both grammars |
| Gitignore.StepOnRun | src/gitignore.rs:98-126 | on a character that is neither a newline nor a stop character of the dialect, the step is the `is_not!` run up to the next stop character |
| Gitignore.SpaceRun | src/gitignore.rs:36 | the leading whitespace of the text |
| Gitignore.WordRun | src/gitignore.rs:36 | the leading non-whitespace of the text |
| Gitignore.SplitWhitespace | src/gitignore.rs:36 | `split_whitespace` yields non-empty tokens without whitespace |
| Gitignore.ToRegexSet | src/gitignore.rs:36-51 | the set is the whitespace-split tokens, or empty when they do not compile |
| Gitignore.ClosedAppend | src/gitignore.rs:144-150 | text without `#` does not change whether comments are closed |
| Gitignore.ClosedComment | src/gitignore.rs:128-133 | a comment is closed iff a newline follows it and the rest is closed |
| Gitignore.RunCopied | src/gitignore.rs:118-120 | a run of plain characters is copied unchanged by the translation |
| Gitignore.StallsAfter | src/gitignore.rs:90-96 | whether the grammar stalls is decided by the text after a comment-free prefix |
| Gitignore.StepTranslates | src/gitignore.rs:98-126 | every step of either grammar agrees with `Rewrite` on what it consumes, or stalls exactly when the input stalls |
| Gitignore.CommentStep | src/gitignore.rs:128-133 | a `#` step emits `#` and skips to the end of the line |
| Gitignore.GitNewlineStep | src/gitignore.rs:108-113 | a newline becomes `$\n` |
| Gitignore.DarcsNewlineStep | src/gitignore.rs:98-106 | a newline is copied in the darcs grammar |
| Gitignore.RunStep | src/gitignore.rs:115-126 | a plain run is copied |
| Gitignore.OptionsOnGlob | src/gitignore.rs:115-126 | on `*`/`?`, `options` is the glob parser |
| Gitignore.ParseGlobResult | src/gitignore.rs:176-190 | `*`/`?` is `Incomplete` at the end of input, swallows a final newline, and otherwise consumes one character |
| Gitignore.GlobStep | src/gitignore.rs:176-190 | a glob step agrees with `Rewrite` |
| Gitignore.OptionsOnEscape | src/gitignore.rs:152-164 | `.` and `+` are escaped |
| Gitignore.EscapeStep | src/gitignore.rs:152-164 | an escape step agrees with `Rewrite` |
| Gitignore.DarcsOnBackslash | src/gitignore.rs:98-106 | on `\`, `darcs` is `parse_backslash` |
| Gitignore.BackslashStep | src/gitignore.rs:166-174 | `\_` becomes `_`, any other `\` is copied, and a final `\` stalls |
| Gitignore.Many0Translates | src/gitignore.rs:82-96 | `many0!` stalls exactly when the input stalls, and otherwise consumes everything and concatenates to `Rewrite` |
| Gitignore.FirstLineFacts | src/gitignore.rs:135-142 | `first_line` removes a `#` line of two or more characters, and asks for more input on an unterminated one |
| Gitignore.ProcessTranslates | src/gitignore.rs:54-96 | the pieces either grammar produces concatenate to `Translation` |
| Gitignore.FileContentsToRegexMeaning | src/gitignore.rs:33-52 | the set is the tokens of the gitignore translation, or empty when they do not compile |
| Gitignore.DarcsContentsToRegexMeaning | src/gitignore.rs:10-29 | the set is the tokens of the darcs translation, or empty when they do not compile |
| Gitignore.LineAnchored | src/gitignore.rs:108-126 | a pattern line followed by more text becomes its escaped regex anchored with `$` |
| Gitignore.LastLineAnchored | src/gitignore.rs:176-190 | a last line ending in a glob is left unanchored; any other last line is anchored |
| Gitignore.SplitSkipsSpace | src/gitignore.rs:36 | leading whitespace does not change the tokens |
| Gitignore.SplitToken | src/gitignore.rs:36 | a token followed by whitespace is split off first |
| Gitignore.WordRunOf | src/gitignore.rs:36 | a token's run ends at the whitespace after it |
| Gitignore.SplitJoinRoundTrip | src/gitignore.rs:36 | splitting tokens joined with spaces gives the tokens back |
| Gitignore.SplitSpacedToken | src/gitignore.rs:36 | a token then a space then more text splits into that token and the rest's tokens |
| Gitignore.EndsInNewline | src/gitignore.rs:176-190 | a file ending in a newline never stalls |
| Gitignore.EscapeAllToken | src/gitignore.rs:115-126 | escaping introduces no whitespace and never shortens a pattern |
| Gitignore.LastLineRegex | src/gitignore.rs:108-126 | a single pattern line translates to its regex, keeping the newline only when anchored |
| Gitignore.LineRegexToken | src/gitignore.rs:36 | a pattern without whitespace gives a regex without whitespace |
| Gitignore.SingleLineFile | src/gitignore.rs:33-52 | a one-pattern file yields exactly that pattern's regex, when it compiles |
| CliHelpers.Decimal | src/cli_helpers.rs:74-87 | a number's decimal text is non-empty and all digits |
| CliHelpers.DecimalRoundTrip | src/cli_helpers.rs:60-72 | the value of a number's decimal text is the number |
| CliHelpers.ParseDecimal | src/cli_helpers.rs:22-38 | `parse` reads back every value in range, with or without a leading `+` |
| CliHelpers.ParseRejects | src/cli_helpers.rs:22-38 | `parse` rejects empty text, text that is not digits, and values out of range |
| CliHelpers.CharAlt | src/cli_helpers.rs:74-87 | `one_of`-style choice: `Incomplete` iff the input is empty, done iff the first character is listed |
| CliHelpers.DigitChar | src/cli_helpers.rs:74-87 | `digit_char` accepts exactly an ASCII digit and consumes it |
| CliHelpers.MoreDigits | src/cli_helpers.rs:89-95 | `many0!(digit_char)` splits off leading digits, stopping at a non-digit |
| CliHelpers.PreThreshold | src/cli_helpers.rs:53-58 | the grammar's value when it finishes, 1048576 otherwise |
| CliHelpers.GetThreshold | src/cli_helpers.rs:89-95 | `get_threshold`: one or more digits, a unit, then `to_u64` |
| CliHelpers.ToU64 | src/cli_helpers.rs:60-72 | the number times the unit's bytes, a panic past `u64`, and exit 0x0f01 on another unit |
| CliHelpers.Many1Digits | src/cli_helpers.rs:89-95 | `many1!(digit_char)`: a digit, then `many0!` of digits |
| CliHelpers.SizeTag | src/cli_helpers.rs:89-95 | `alt!(tag!("M") \| tag!("G") \| tag!("k") \| tag!("b"))` |
| CliHelpers.ParseUnsigned | src/cli_helpers.rs:22-38 | `str::parse` for an unsigned type: an optional `+`, then one or more ASCII digits whose value is at most the maximum |
| CliHelpers.Threshold | src/cli_helpers.rs:49-51 | no argument gives no threshold; an argument gives the parsed threshold or its panic |
| CliHelpers.LeadingDigits | src/cli_helpers.rs:89-95 | the length of the leading digit run |
| CliHelpers.MoreDigitsSplit | src/cli_helpers.rs:89-95 | `many0!` of digits is exactly the leading digit run |
| CliHelpers.Many1DigitsSplit | src/cli_helpers.rs:89-95 | `many1!` of digits fails without a leading digit, and otherwise is the leading digit run |
| CliHelpers.Many1DigitsIsMore | src/cli_helpers.rs:89-95 | after a first digit, `many1!(digit_char)` takes the same run as the repetition that follows it |
| CliHelpers.SizeTagResult | src/cli_helpers.rs:89-95 | the unit tag is `M`, `G`, `k` or `b`, case-sensitive |
| CliHelpers.ToU64Unit | src/cli_helpers.rs:60-72 | the value is the number times the unit, and panics past `u64` |
| CliHelpers.ThresholdGrammar | src/cli_helpers.rs:53-95 | digits then a unit give the scaled value, or a panic on overflow; anything else gives 1 MiB |
| CliHelpers.ThresholdNeverExits | src/cli_helpers.rs:60-72 | the unknown-unit exit of `to_u64` is unreachable |
| CliHelpers.ThresholdIgnoresTrailing | src/cli_helpers.rs:89-95 | text after the unit is ignored |
| CliHelpers.LeadingDigitsOf | src/cli_helpers.rs:89-95 | the digit run of digits followed by a non-digit is exactly those digits |
| CliHelpers.ThirtyMegabytes | src/test.rs:168-171 | `30M` is 31457280 bytes |
| CliHelpers.ThresholdFallback | src/cli_helpers.rs:53-58 | digits followed by something that is neither a digit nor a unit give 1 MiB |
| CliHelpers.GetDepth | src/cli_helpers.rs:22-29 | 2 by default; otherwise the parsed `u8`, or a panic when the text is not one |
| CliHelpers.GetNum | src/cli_helpers.rs:31-38 | 8 by default; otherwise the parsed `usize`, or a panic when the text is not one |
| CliHelpers.GetDepthRoundTrip | src/cli_helpers.rs:22-29 | every `u8` is read back from its decimal text |
| CliHelpers.GetNumRoundTrip | src/cli_helpers.rs:31-38 | every `usize` is read back from its decimal text |
| CliHelpers.GetDir | src/cli_helpers.rs:40-47 | the given path, or `.` by default |
| CliHelpers.GetExcludes | src/cli_helpers.rs:10-20 | with no pattern, the default `\.git/`; with a pattern `x`, `x` itself when it compiles, and exit 0x0f01 when it does not; never a panic |
| CliHelpers.GetExcludesIntended | src/cli_helpers.rs:10-20 | with no pattern, the default `\.git/`; with a pattern `x`, the text `x\|\.git` when it compiles, and exit 0x0f01 when it does not; never a panic |
| CliHelpers.GetExcludesDropsGit | src/cli_helpers.rs:10-20 | as written, the user pattern `target` is used without a `.git` alternative |
| CliHelpers.GetExcludesIntendedKeepsGit | src/cli_helpers.rs:10-20 | with the intended code, every accepted pattern is the default or ends in the `\|\.git` alternative, and a user pattern is accepted exactly when that extended text compiles |
| CliHelpers.WrittenVersusIntended | src/cli_helpers.rs:10-20 | the written and intended versions agree without a pattern; with one, the intended text is the written one followed by `\|\.git` whenever both compile |
| Paths.JoinPath | src/walk_parallel/single_threaded.rs:61-67 | `PathBuf::push`: an absolute component replaces the path; otherwise the path, maybe a `/`, then the component |
| Paths.JoinPathExtends | src/walk_parallel/single_threaded.rs:61-67 | pushing a relative component extends the path |
| Utils.MkIgnores | src/utils.rs:54-87 | an inherited set is kept; otherwise there is no set iff none of `.ignore`, `.gitignore`, `_darcs/prefs/boring` exists |
| Utils.MkIgnoresTranslates | src/utils.rs:57-86 | the set is the translation of the first of the three files that opens, in its dialect |
| Utils.IgnoreShadows | src/utils.rs:57-65 | an `.ignore` file decides alone; the other two do not matter |
| Utils.GetProcessors | src/utils.rs:91-98 | one less than the cores, but at least one when there is one |
| Utils.Size | src/utils.rs:24-30 | the allocated 512-byte blocks when asked for, else the length |
| Classify.IsExecutable | src/walk_parallel/single_threaded.rs:17-21 | `mode & 0o111 != 0` |
| Classify.IsArtifact | src/walk_parallel/single_threaded.rs:175-207 | the name matches the artifact table (or is `tags` with vimtags), or the file is executable, in the secondary table and matched by the ignore set, or is `flxg_stats.txt` without a set |
| Classify.IsProjectDir | src/walk_parallel/single_threaded.rs:52-140 | a name the suffix regex accepts, with the sibling file or glob its arm asks for |
| Classify.ExecutableBits | src/walk_parallel/single_threaded.rs:19-21 | executable iff the owner, group or other execute bit is set |
| Classify.ArtifactByTable | src/walk_parallel/single_threaded.rs:195-197 | a name in the artifact table (or `tags` with vimtags) is an artifact whatever the ignore set |
| Classify.ArtifactOutsideTable | src/walk_parallel/single_threaded.rs:198-205 | otherwise, with an ignore set: executable AND in the secondary table AND matched; without one: only `flxg_stats.txt` |
| Classify.NoDotNoTable | src/walk_parallel/single_threaded.rs:183-192 | a name without a dot is in neither artifact table |
| Classify.ExtensionlessArtifact | src/walk_parallel/single_threaded.rs:175-207 | a name without a dot is an artifact iff it is `tags` and vimtags is on |
| Classify.ObjectFileIsArtifact | src/walk_parallel/single_threaded.rs:191 | every `.o` file is an artifact |
| Classify.SharedLibraryIsArtifact | src/walk_parallel/single_threaded.rs:191 | `.so` followed by any version on the same line is an artifact |
| Classify.ProjectDirNeedsTable | src/walk_parallel/single_threaded.rs:60-140 | a name outside the project-directory table is never a project directory |
| Classify.NodeModulesAlways | src/walk_parallel/single_threaded.rs:128 | `node_modules` always is one |
| Classify.TargetProbes | src/walk_parallel/single_threaded.rs:75-84 | `target` is one iff `Cargo.toml`, `atspkg.dhall`, `shake.hs` or `elba.toml` lies beside it |
| Classify.ElmStuffProbes | src/walk_parallel/single_threaded.rs:101-105 | `elm-stuff` is one iff `elm-package.json` lies beside it |
| Classify.StackWorkProbes | src/walk_parallel/single_threaded.rs:64-70 | `.stack-work` is one iff `../cabal.project`, its own `package.yaml`, or a `.cabal` file beside it exists |
| Classify.NimcacheNever | src/walk_parallel/single_threaded.rs:56-74 | `nimcache` is not in the table, so its probe is unreachable |
| Walk.SizeOfDir | src/walk_parallel/single_threaded.rs:210-296 | the bytes `read_size` counts under a directory: visible, non-excluded entries, artifacts only in artifact mode |
| Walk.ReadSize | src/walk_parallel/single_threaded.rs:210-296 | the total is `SizeOfDir`: each visible, counted file's length plus each subdirectory's total, a project directory counted whole |
| Walk.ReadSizeEntry | src/walk_parallel/single_threaded.rs:234-294 | one entry adds `SizeOfEntry` |
| Walk.ReadSizeRoot | src/walk_parallel/single_threaded.rs:224-324 | a missing path gives 0, a non-directory exits with 1, a directory gives its total |
| Walk.ArtifactsBounded | src/walk_parallel/single_threaded.rs:259-282 | artifact mode never counts more than plain mode |
| Walk.ArtifactsBoundedEntries | src/walk_parallel/single_threaded.rs:226-296 | the same over a list of entries |
| Walk.ArtifactsBoundedEntry | src/walk_parallel/single_threaded.rs:259-282 | the same for one entry |
| Walk.TreeOfDir | src/walk_parallel/single_threaded.rs:328-459 | the entries `read_all` pushes, subtrees before the entry of their directory |
| Walk.ReadAll | src/walk_parallel/single_threaded.rs:328-459 | the entries are `TreeOfDir` and the total is the `read_size` total |
| Walk.ReadAllEntry | src/walk_parallel/single_threaded.rs:376-455 | one entry appends `TreeOfEntry` and adds `SizeOfEntry` |
| Walk.ReadAllRoot | src/walk_parallel/single_threaded.rs:346-500 | a directory gives its tree; anything else an empty tree |
| Walk.TreeDepths | src/walk_parallel/single_threaded.rs:393-453 | every entry lies below the directory listed |
| Walk.TreeDepthsEntries | src/walk_parallel/single_threaded.rs:348-455 | the same over a list of entries |
| Walk.TreeDepthsEntry | src/walk_parallel/single_threaded.rs:393-453 | the same for one entry |
| Walk.TreeDepthLimit | src/walk_parallel/single_threaded.rs:399-404 | in plain mode no entry is deeper than the limit (or the first level) |
| Walk.TreeDepthLimitEntries | src/walk_parallel/single_threaded.rs:399-404 | the same over a list of entries |
| Walk.TreeDepthLimitEntry | src/walk_parallel/single_threaded.rs:399-404 | the same for one entry |
| Walk.TopLevelSum | src/walk_parallel/single_threaded.rs:393-453 | the entries one level down add up to the `read_size` total |
| Walk.TopLevelSumEntries | src/walk_parallel/single_threaded.rs:348-455 | the same over a list of entries |
| Walk.TopLevelSumEntry | src/walk_parallel/single_threaded.rs:393-453 | the same for one entry |
| Walk.AllBytes | src/walk_parallel/single_threaded.rs:504-542 | the length of every file with metadata under a directory, at any depth |
| Walk.ReadNoExcludes | src/walk_parallel/single_threaded.rs:504-542 | the total is `AllBytes`: every file with metadata and every subdirectory, whatever the names |
| Walk.ReadNoExcludesRoot | src/walk_parallel/single_threaded.rs:512-573 | a missing path gives 0, a non-directory exits with 1, a directory gives `AllBytes` |
| Walk.PlainSizeIsAllBytes | src/walk_parallel/single_threaded.rs:504-573 | without excludes, outside artifact mode and with valid names, `read_size` equals `read_no_excludes` |
| Walk.PlainSizeIsAllBytesEntries | src/walk_parallel/single_threaded.rs:516-541 | the same over a list of entries |
| Walk.PlainSizeIsAllBytesEntry | src/walk_parallel/single_threaded.rs:525-540 | the same for one entry |
| Walk.FastTree | src/walk_parallel/single_threaded.rs:576-676 | the entries `read_all_fast` pushes, with `""` for a path that is not UTF-8 |
| Walk.ReadAllFast | src/walk_parallel/single_threaded.rs:576-676 | the entries are `FastTree` and the total is `AllBytes` |
| Walk.ReadAllFastEntry | src/walk_parallel/single_threaded.rs:592-675 | one entry appends `FastTreeEntry` and adds `AllBytesEntry` |
| Walk.ReadAllFastRoot | src/walk_parallel/single_threaded.rs:580-710 | a directory gives its tree; anything else an empty tree |
| Walk.FastIsReadAll | src/walk_parallel/single_threaded.rs:576-711 | without excludes, outside artifact mode and with valid names, the fast walk lists exactly what `read_all` lists |
| Walk.FastIsReadAllEntries | src/walk_parallel/single_threaded.rs:582-677 | the same over a list of entries |
| Walk.FastIsReadAllEntry | src/walk_parallel/single_threaded.rs:594-675 | the same for one entry |

## Left out

- The parallel walker (`src/walk_parallel.rs`, `src/walk_parallel/mod.rs`), `main.rs`, `lib.rs` and `artifact_type.rs` are not part of this model.
- Printing and display (`display_item`, `display_tree`, the `Display` impls, warnings on stderr) are output only. Printing the size of a non-directory root in `read_all`/`read_all_fast` is not modelled either: the model returns the empty tree.
- The regex engine is an oracle. This covers matching user patterns and exclusions, and whether a token list compiles into a `RegexSet`. Globs (`glob_exists`) and `Path::exists` are a fixed set of answers (`Paths.Probes`). The ignore files are a map from path to contents, not tied to the `Node` tree.
- `\d` in the `.ghc.environment` artifact pattern is read as an ASCII digit; the regex crate also accepts other Unicode decimal digits.
- A failing `read_dir` entry, and the `file_type().unwrap()` after it, are not modelled: every listed entry is well-formed. So are the panic when an ignore file is not valid UTF-8 and filesystem races, such as an entry that is a directory when listed but not when read.
- The root of a walk is a `Node` already resolved. Following a symbolic link given on the command line is not modelled.
- `NamePair` depths and `max_depth` are `nat`, not `u8`: `depth + 1` overflowing at 255 is not modelled.
- Walk.ReadSize: requires that the total fits a `u64`, because the source's `add` would overflow (panic in a debug build) only on more than 16 EiB of files. The same holds for Walk.ReadAll, Walk.ReadNoExcludes, Walk.ReadAllFast and the `Root` wrappers.
- Utils.Size: requires that the block count times 512 fits a `u64`. The BSD and Windows variants (`src/utils.rs:33-50`) are the same formula or just the length. The Windows `is_executable` (an extension test) is not modelled.
- The threshold grammar works on the argument as characters, while the source parses its UTF-8 bytes. The two agree on every digit, unit and ASCII character.
- Classify.IsProjectDir: returns a bool, but `glob_exists` unwraps the result of `glob` (`src/walk_parallel/single_threaded.rs:35-37`), so a pattern that does not parse panics. The pattern is built from the directory's own path, so a path such as `./a[b` holding a `dist` directory without `setup.py` panics in the source. The model answers every glob from `Paths.Probes` and does not capture that panic.
- CliHelpers.GetExcludesIntendedKeepsGit: states that the accepted text ends in the `|\.git` alternative, not that the compiled regex excludes `.git`. After an odd number of trailing backslashes (`foo\`) the `|` is a literal, and under the `x` flag a trailing `#` comment swallows it. Regex semantics are an oracle here.
- Arithmetic overflow is modelled as the panic of a debug build. A release build, which `cargo install` produces, wraps around silently instead. This affects the unit scaling of `to_u64` (`src/cli_helpers.rs:66-68`) and `FileSize::add` (`src/types.rs:21-23`).
- The message `check_regex` prints (`src/error.rs:9-18`) is output; its exit code 0x0f01 is modelled in `CliHelpers.GetExcludes`.

## Findings

| source | as written | input that shows it | evidently intended | confidence | as-written member | corrected member |
|---|---|---|---|---|---|---|
| src/cli_helpers.rs:10-20 | `get_excludes(Some(x))` appends `\|\.git` to a temporary `String` that is dropped, then compiles `x` alone | `--exclude target`: the compiled pattern is `target`, so `.git` directories are walked | compile `x\|\.git`, so that a user pattern, like the default `\.git/`, carries a `\.git` alternative | not executed | CliHelpers.GetExcludes, CliHelpers.GetExcludesDropsGit | CliHelpers.GetExcludesIntended, CliHelpers.GetExcludesIntendedKeepsGit |
