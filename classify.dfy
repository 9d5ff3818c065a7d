/** The per-entry decisions of `src/walk_parallel/single_threaded.rs`: whether
    a file is executable, whether it is a build artifact, and whether a
    directory is a project's generated-output directory.

    The three fixed regexes of that file are written out as predicates on the
    name, with the regex crate's meaning: an unanchored search, `$` at the
    end of the text only, and `.` matching any character but a newline. The
    user's pattern sets are matched by the regex engine, the oracle
    `matches`. */
module Classify {
  import opened Wrappers
  import opened Paths
  import opened Gitignore

  // ---------------------------------------------------------------------
  // Regex building blocks

  /** The regex `suffix$`. */
  predicate EndsWith(text: string, suffix: string)
  {
    |suffix| <= |text| && text[|text| - |suffix|..] == suffix
  }

  predicate StartsWith(text: string, prefix: string)
  {
    |prefix| <= |text| && text[..|prefix|] == prefix
  }

  predicate OccursAt(text: string, lit: string, i: int)
  {
    0 <= i && i + |lit| <= |text| && text[i..i + |lit|] == lit
  }

  /** The regex `lit` (unanchored). */
  predicate Contains(text: string, lit: string)
  {
    exists i | 0 <= i <= |text| :: OccursAt(text, lit, i)
  }

  /** The regex `lit.*$`: `lit` occurs with no newline after it. */
  predicate OccursBeforeEnd(text: string, lit: string)
  {
    exists i | 0 <= i <= |text| :: OccursAt(text, lit, i) && '\n' !in text[i + |lit|..]
  }

  /** `\d`, read as an ASCII digit. */
  predicate IsDigitChar(c: char)
  {
    '0' <= c <= '9'
  }

  /** The regex `\.ghc\.environment\..*\d.\d.\d$`. */
  predicate GhcEnvironment(text: string)
  {
    exists i | 0 <= i <= |text| :: OccursAt(text, ".ghc.environment.", i) &&
      var t := text[i + 17..];
      '\n' !in t && |t| >= 5 && IsDigitChar(t[|t| - 5]) && IsDigitChar(t[|t| - 3]) && IsDigitChar(t[|t| - 1])
  }

  // ---------------------------------------------------------------------
  // The tables

  /** The plain alternatives of the artifact regex `\.(a|i|ii|...|ttc)$`. */
  const ArtifactExtensions: seq<string> := ArtifactExtensionsHead + ArtifactExtensionsMiddle + ArtifactExtensionsTail

  const ArtifactExtensionsHead: seq<string> := [
    "a", "i", "ii", "la", "lo", "o", "keter", "bc", "dyn_o", "d", "rlib", "crate", "hi", "hc",
    "chi", "dyn_hi", "S", "jsexe", "webapp", "js.externs", "ibc", "toc"]

  const ArtifactExtensionsMiddle: seq<string> := [
    "aux", "fdb_latexmk", "fls", "egg-info", "whl", "js_a", "js_hi", "jld", "ji", "js_o",
    "vmb", "crx", "orig", "elmo", "elmi", "hspec-failures", "pyc", "vo", "agdai", "beam",
    "mod", "go.v"]

  const ArtifactExtensionsTail: seq<string> := [
    "go.teak", "go.xmldef", "go.rewrittenast", "go.rewrittengo", "go.simplego", "go.tree-bind",
    "go.tree-eval", "go.tree-finish", "go.tree-parse", "p_hi", "p_o", "prof", "hide-cache",
    "tix", "synctex.gz", "hl", "hp", "sandbox.config", "exe", "eventlog", "ipa", "ttc"]

  /** The built-in artifact regex: a listed extension at the end, or `.so`,
      `.dump-` or `.ghc.environment.` followed by the rest of the line. */
  predicate ArtifactTable(name: string)
  {
    || (exists ext :: ext in ArtifactExtensions && EndsWith(name, "." + ext))
    || OccursBeforeEnd(name, ".so")
    || OccursBeforeEnd(name, ".dump-")
    || GhcEnvironment(name)
  }

  const GitignoreExtensions: seq<string> := ["stats", "conf", "h", "c", "out", "dat", "pc", "info", "ll", "js"]

  /** The regex `\.(stats|conf|h|c|out|cache.*|dat|pc|info|ll|js)$` that an
      executable must also match before the ignore set is consulted. */
  predicate GitignoreTable(name: string)
  {
    (exists ext :: ext in GitignoreExtensions && EndsWith(name, "." + ext)) || OccursBeforeEnd(name, ".cache")
  }

  const ProjectDirSuffixes: seq<string> := [
    ".stack-work", "build", "gen", "cbits", "ats-deps", ".atspkg", "target", ".reco-work",
    ".cabal-sandbox", "dist", ".criterion", "target", ".egg-info", "elm-stuff", ".pulp-cache",
    ".psc-package", "output", "bower_components", "node_modules", ".liquid"]

  /** The project-directory regex: `_minted` anywhere, a listed name at the
      end, or `dist-newstyle` followed by the rest of the line. */
  predicate ProjectDirTable(name: string)
  {
    || Contains(name, "_minted")
    || (exists suffix :: suffix in ProjectDirSuffixes && EndsWith(name, suffix))
    || OccursBeforeEnd(name, "dist-newstyle")
  }

  // ---------------------------------------------------------------------
  // The decisions

  /** `is_executable` on Unix: some execute bit (owner, group or other) of
      the permission mode is set. */
  predicate IsExecutable(mode: bv32)
  {
    mode & 0x49 != 0
  }

  lemma ExecutableBits(mode: bv32)
    ensures IsExecutable(mode) <==> (mode & 0x40 != 0 || mode & 0x8 != 0 || mode & 0x1 != 0)
  {
  }

  /** `is_artifact`: a name in the artifact table (or vim's `tags` file when
      `vimtags` is set) always is one; otherwise, with an ignore set, an
      executable whose name is in the secondary table and whose full path
      the ignore set matches is one; without an ignore set, only
      `flxg_stats.txt` is. */
  predicate IsArtifact(name: string, fullPath: string, mode: bv32, vimtags: bool,
                       gitignore: Option<PatternSet>, matches: (string, string) -> bool)
  {
    if ArtifactTable(name) || (name == "tags" && vimtags) then true
    else if gitignore.Some? then
      if IsExecutable(mode) && GitignoreTable(name) then IsMatch(gitignore.value, fullPath, matches) else false
    else name == "flxg_stats.txt"
  }

  /** The table decides whatever the ignore context. */
  lemma ArtifactByTable(name: string, fullPath: string, mode: bv32, vimtags: bool,
                        gitignore: Option<PatternSet>, matches: (string, string) -> bool)
    requires ArtifactTable(name) || (name == "tags" && vimtags)
    ensures IsArtifact(name, fullPath, mode, vimtags, gitignore, matches)
  {
  }

  /** Outside the table, an ignore set makes three conditions necessary and
      together sufficient; without one, only `flxg_stats.txt` qualifies. */
  lemma ArtifactOutsideTable(name: string, fullPath: string, mode: bv32, vimtags: bool,
                             gitignore: Option<PatternSet>, matches: (string, string) -> bool)
    requires !ArtifactTable(name) && !(name == "tags" && vimtags)
    ensures gitignore.Some? ==> (IsArtifact(name, fullPath, mode, vimtags, gitignore, matches)
      <==> IsExecutable(mode) && GitignoreTable(name) && IsMatch(gitignore.value, fullPath, matches))
    ensures gitignore.None? ==> (IsArtifact(name, fullPath, mode, vimtags, gitignore, matches)
      <==> name == "flxg_stats.txt")
  {
  }

  lemma EndsWithDot(name: string, ext: string)
    requires EndsWith(name, "." + ext)
    ensures '.' in name
  {
    assert name[|name| - |ext| - 1] == ("." + ext)[0];
  }

  lemma OccursDot(name: string, lit: string, i: int)
    requires lit != [] && lit[0] == '.' && OccursAt(name, lit, i)
    ensures '.' in name
  {
    assert name[i] == name[i..i + |lit|][0];
  }

  /** A name without a dot is in neither artifact table. */
  lemma NoDotNoTable(name: string)
    requires '.' !in name
    ensures !ArtifactTable(name) && !GitignoreTable(name)
  {
    forall ext | EndsWith(name, "." + ext) ensures false {
      EndsWithDot(name, ext);
    }
    forall lit, i | lit in [".so", ".dump-", ".ghc.environment.", ".cache"] && OccursAt(name, lit, i)
      ensures false
    {
      OccursDot(name, lit, i);
    }
  }

  /** So a file without an extension is an artifact only as vim's `tags`, or
      by being an executable the ignore set matches... which the secondary
      table, all of whose names have a dot, rules out. */
  lemma ExtensionlessArtifact(name: string, fullPath: string, mode: bv32, vimtags: bool,
                              gitignore: Option<PatternSet>, matches: (string, string) -> bool)
    requires '.' !in name
    ensures IsArtifact(name, fullPath, mode, vimtags, gitignore, matches) <==> name == "tags" && vimtags
  {
    NoDotNoTable(name);
  }

  lemma ObjectFileIsArtifact(stem: string)
    ensures ArtifactTable(stem + ".o")
  {
    var name := stem + ".o";
    assert ArtifactExtensionsHead[5] == "o";
    assert name[|stem|..] == ".o" == "." + "o";
  }

  /** A shared library with a version after `.so` (`libz.so.1.2`) is one. */
  lemma SharedLibraryIsArtifact(stem: string, version: string)
    requires '\n' !in version
    ensures ArtifactTable(stem + ".so" + version)
  {
    var name := stem + ".so" + version;
    assert OccursAt(name, ".so", |stem|);
    assert name[|stem| + 3..] == version;
  }

  /** `is_project_dir(p, name)`: the name must be in the project-directory
      table; each listed name then probes its own marker files, found with
      `Path::exists` on `p` pushed with a relative path, or with `glob` on
      `p` followed by a pattern. */
  predicate IsProjectDir(p: string, name: string, probes: Probes)
  {
    if !ProjectDirTable(name) then false
    else if name == ".stack-work" then
      probes.Exists(JoinPath(p, "../cabal.project")) || probes.Exists(JoinPath(p, "package.yaml"))
      || probes.GlobExists(p + "/../*.cabal")
    else if name == "nimcache" then probes.GlobExists(p + "/../*.nim")
    else if name == "target" then
      probes.Exists(JoinPath(p, "../Cargo.toml")) || probes.Exists(JoinPath(p, "../atspkg.dhall"))
      || probes.Exists(JoinPath(p, "../shake.hs")) || probes.Exists(JoinPath(p, "../elba.toml"))
    else if name in {".atspkg", "ats-deps", "cbits", "gen"} then probes.Exists(JoinPath(p, "../atspkg.dhall"))
    else if name == ".criterion" then probes.Exists(JoinPath(p, "../Cargo.toml"))
    else if name == ".liquid" then probes.GlobExists(p + "/../*.hs")
    else if name == ".reco-work" then probes.Exists(JoinPath(p, "../main.go"))
    else if name == "elm-stuff" then probes.Exists(JoinPath(p, "../elm-package.json"))
    else if name in {".pulp-cache", "output", ".psc-package"} then probes.Exists(JoinPath(p, "../psc-package.json"))
    else if name in {"build", "dist", ".cabal-sandbox", "dist-newstyle", "dist-newstyle-meta"} then
      probes.Exists(JoinPath(p, "../setup.py")) || probes.GlobExists(p + "/../*.cabal")
      || probes.Exists(JoinPath(p, "../cabal.project")) || probes.GlobExists(p + "/../*.blod")
    else if name == "bower_components" then probes.Exists(JoinPath(p, "../bower.json"))
    else if name == "node_modules" then true
    else
      (probes.Exists(JoinPath(p, "../setup.py")) && EndsWith(name, ".egg-info"))
      || (probes.GlobExists(JoinPath(p, "../*.tex")) && StartsWith(name, "_minted"))
  }

  lemma ProjectDirNeedsTable(p: string, name: string, probes: Probes)
    requires !ProjectDirTable(name)
    ensures !IsProjectDir(p, name, probes)
  {
  }

  lemma InSuffixTable(name: string)
    requires name in ProjectDirSuffixes
    ensures ProjectDirTable(name)
  {
    assert EndsWith(name, name);
  }

  /** `node_modules` is a project directory whatever surrounds it. */
  lemma NodeModulesAlways(p: string, probes: Probes)
    ensures IsProjectDir(p, "node_modules", probes)
  {
    InSuffixTable("node_modules");
  }

  /** `target` needs a Rust, ATS, Shake or Elba build file beside it. */
  lemma TargetProbes(p: string, probes: Probes)
    ensures IsProjectDir(p, "target", probes) <==>
      probes.Exists(JoinPath(p, "../Cargo.toml")) || probes.Exists(JoinPath(p, "../atspkg.dhall"))
      || probes.Exists(JoinPath(p, "../shake.hs")) || probes.Exists(JoinPath(p, "../elba.toml"))
  {
    InSuffixTable("target");
  }

  /** `elm-stuff` needs `elm-package.json` beside it. */
  lemma ElmStuffProbes(p: string, probes: Probes)
    ensures IsProjectDir(p, "elm-stuff", probes) <==> probes.Exists(JoinPath(p, "../elm-package.json"))
  {
    InSuffixTable("elm-stuff");
  }

  /** `.stack-work` looks for `package.yaml` inside itself, not beside it. */
  lemma StackWorkProbes(p: string, probes: Probes)
    ensures IsProjectDir(p, ".stack-work", probes) <==>
      probes.Exists(JoinPath(p, "../cabal.project")) || probes.Exists(JoinPath(p, "package.yaml"))
      || probes.GlobExists(p + "/../*.cabal")
  {
    InSuffixTable(".stack-work");
  }

  lemma AbsentFirstChar(text: string, lit: string)
    requires lit != [] && lit[0] !in text
    ensures !Contains(text, lit)
  {
    forall i | 0 <= i <= |text| ensures !OccursAt(text, lit, i) {
      if i + |lit| <= |text| {
        assert text[i..i + |lit|][0] == text[i];
      }
    }
  }

  /** `nimcache` is not in the table, so its own probe is never reached. */
  lemma NimcacheNever(p: string, probes: Probes)
    ensures !IsProjectDir(p, "nimcache", probes)
  {
    var name := "nimcache";
    assert '_' !in name;
    AbsentFirstChar(name, "_minted");
    assert !OccursBeforeEnd(name, "dist-newstyle");
    assert !exists suffix :: suffix in ProjectDirSuffixes && EndsWith(name, suffix);
  }
}
