/** The helpers of `src/utils.rs`: the ignore-file probe of a directory, the
    worker count and the size of a file. */
module Utils {
  import opened Wrappers
  import opened Paths
  import opened Gitignore

  /** The three ignore files a directory is searched for, in order. */
  const IgnoreName: string := ".ignore"
  const GitignoreName: string := ".gitignore"
  const BoringName: string := "_darcs/prefs/boring"

  /** `mk_ignores`: an inherited pattern set is kept unchanged; otherwise the
      first of `.ignore`, `.gitignore` and `_darcs/prefs/boring` in `dir`
      that opens (a key of `files`, which gives its contents) is translated,
      the first two by the gitignore grammar and the third by the darcs
      grammar. `compiles` is the regex engine's verdict on a token list. */
  function MkIgnores(dir: string, inherited: Option<PatternSet>, files: map<string, string>,
                     compiles: seq<string> -> bool): (r: Option<PatternSet>)
    ensures inherited.Some? ==> r == inherited
    ensures inherited.None? ==> (r.None? <==> (JoinPath(dir, IgnoreName) !in files
                                               && JoinPath(dir, GitignoreName) !in files
                                               && JoinPath(dir, BoringName) !in files))
  {
    if inherited.Some? then inherited
    else if JoinPath(dir, IgnoreName) in files then
      Some(FileContentsToRegex(files[JoinPath(dir, IgnoreName)], compiles))
    else if JoinPath(dir, GitignoreName) in files then
      Some(FileContentsToRegex(files[JoinPath(dir, GitignoreName)], compiles))
    else if JoinPath(dir, BoringName) in files then
      Some(DarcsContentsToRegex(files[JoinPath(dir, BoringName)], compiles))
    else None
  }

  /** The file `mk_ignores` reads, when it reads one: the first of the three
      that opens. */
  function ChosenIgnoreFile(dir: string, files: map<string, string>): Option<(string, Dialect)>
  {
    if JoinPath(dir, IgnoreName) in files then Some((JoinPath(dir, IgnoreName), GitIgnore))
    else if JoinPath(dir, GitignoreName) in files then Some((JoinPath(dir, GitignoreName), GitIgnore))
    else if JoinPath(dir, BoringName) in files then Some((JoinPath(dir, BoringName), DarcsBoring))
    else None
  }

  /** Without an inherited set, the result is the translation of the chosen
      file, split into tokens, or the empty set when the tokens do not
      compile. */
  lemma MkIgnoresTranslates(dir: string, files: map<string, string>, compiles: seq<string> -> bool)
    ensures var r := MkIgnores(dir, None, files, compiles);
      match ChosenIgnoreFile(dir, files)
      case None => r.None?
      case Some((path, d)) =>
        var tokens := SplitWhitespace(Translation(files[path], d));
        r == Some(PatternSet(if compiles(tokens) then tokens else []))
  {
    match ChosenIgnoreFile(dir, files)
    case None =>
    case Some((path, d)) =>
      if d == GitIgnore {
        FileContentsToRegexMeaning(files[path], compiles);
      } else {
        DarcsContentsToRegexMeaning(files[path], compiles);
      }
  }

  /** An `.ignore` file shadows the other two: what they contain, and whether
      they exist, does not matter. */
  lemma IgnoreShadows(dir: string, files: map<string, string>, other: map<string, string>,
                      compiles: seq<string> -> bool)
    requires JoinPath(dir, IgnoreName) in files && JoinPath(dir, IgnoreName) in other
    requires files[JoinPath(dir, IgnoreName)] == other[JoinPath(dir, IgnoreName)]
    ensures MkIgnores(dir, None, files, compiles) == MkIgnores(dir, None, other, compiles)
  {
  }

  /** `get_processors`: one fewer than the number of logical cores `cores`
      (the spawning thread is one of them), but never below one core. */
  function GetProcessors(cores: nat): (r: nat)
    ensures cores >= 1 ==> 1 <= r <= cores
    ensures cores > 1 ==> r + 1 == cores
    ensures cores <= 1 ==> r == cores
  {
    if cores > 1 then cores - 1 else cores
  }

  /** The largest block count whose size in bytes fits a `u64`. */
  const MAX_BLOCKS: int := U64_MAX / 512

  /** `size` on Linux: the space allocated (`st_blocks` 512-byte blocks)
      when `blocks` is set, the length otherwise. */
  function Size(len: u64, stBlocks: nat, blocks: bool): (r: u64)
    requires stBlocks <= MAX_BLOCKS
    ensures blocks ==> r == stBlocks * 512 && r % 512 == 0
    ensures !blocks ==> r == len
  {
    if blocks then stBlocks * 512 else len
  }
}
