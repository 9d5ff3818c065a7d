/** The single-threaded directory walks of
    `src/walk_parallel/single_threaded.rs`: `read_size` (the total of a
    directory), `read_all` (the tree of entries with their sizes),
    `read_no_excludes` and `read_all_fast` (the same without filters).

    The filesystem is a value: a directory is a `Node` whose children are
    listed in the order `read_dir` yields them. A path is built from the
    root path with `PathBuf::push` and is valid UTF-8 when every name on
    the way is. Each walk is specified by a function on the node
    (`SizeOfDir`, `TreeOfDir`, `AllBytes`, `FastTree`) and implemented by a
    recursive method with the source's loop over the entries. */
module Walk {
  import opened Wrappers
  import opened Paths
  import opened Gitignore
  import opened Utils
  import opened Classify
  import opened Types

  /** The part of an entry's metadata the walks read: its length and its
      permission bits. */
  datatype Meta = Meta(len: u64, mode: bv32)

  /** A directory entry. `utf8` says whether its name is valid UTF-8; a file
      whose metadata cannot be read (a broken link) has `meta == None`; a
      directory that cannot be listed has `readable == false`; `Other` is
      anything that is neither a file nor a directory (a symbolic link, a
      socket). */
  datatype Node =
    | File(name: string, utf8: bool, meta: Option<Meta>)
    | Dir(name: string, utf8: bool, readable: bool, children: seq<Node>)
    | Other(name: string, utf8: bool)

  /** What the walks consult besides the tree: the exclusion regex, the
      `vimtags` flag, the answers to `exists`/`glob` probes, the ignore
      files by path, and the regex engine (`matches` decides a match,
      `compiles` whether a token list builds a `RegexSet`). */
  datatype Env = Env(excludes: Option<string>, vimtags: bool, probes: Probes,
                     ignoreFiles: map<string, string>,
                     matches: (string, string) -> bool, compiles: seq<string> -> bool)

  /** The exclusion regex matches the path. */
  predicate Excluded(env: Env, path: string)
  {
    env.excludes.Some? && env.matches(env.excludes.value, path)
  }

  /** The ignore set a directory walk uses: looked up only in artifact mode. */
  function Ignores(path: string, inherited: Option<PatternSet>, artifactsOnly: bool, env: Env): Option<PatternSet>
  {
    if artifactsOnly then MkIgnores(path, inherited, env.ignoreFiles, env.compiles) else None
  }

  /** The mode a subdirectory is measured in: a project directory met in
      artifact mode is counted whole. */
  predicate ChildMode(artifactsOnly: bool, path: string, name: string, env: Env)
  {
    artifactsOnly && !IsProjectDir(path, name, env.probes)
  }

  /** A file with readable metadata that is counted: every one in plain
      mode, only artifacts in artifact mode. */
  predicate Counted(c: Node, path: string, gi: Option<PatternSet>, artifactsOnly: bool, env: Env)
    requires c.File?
  {
    c.meta.Some? && (!artifactsOnly || IsArtifact(c.name, path, c.meta.value.mode, env.vimtags, gi, env.matches))
  }

  // ---------------------------------------------------------------------
  // read_size

  /** The total `read_size` returns for a directory at `path`: nothing when
      it cannot be listed, otherwise the sum over its entries. */
  ghost function SizeOfDir(d: Node, path: string, inherited: Option<PatternSet>, artifactsOnly: bool, env: Env): nat
    requires d.Dir?
    decreases d, 0
  {
    if !d.readable then 0
    else SizeOfEntries(d.children, path, Ignores(path, inherited, artifactsOnly, env), artifactsOnly, env)
  }

  ghost function SizeOfEntries(cs: seq<Node>, parent: string, gi: Option<PatternSet>, artifactsOnly: bool, env: Env): nat
    decreases cs, 1
  {
    if cs == [] then 0
    else SizeOfEntries(cs[..|cs| - 1], parent, gi, artifactsOnly, env) + SizeOfEntry(cs[|cs| - 1], parent, gi, artifactsOnly, env)
  }

  /** An entry whose path is not UTF-8 or is excluded counts nothing; a
      counted file its length; a directory its own total. */
  ghost function SizeOfEntry(c: Node, parent: string, gi: Option<PatternSet>, artifactsOnly: bool, env: Env): nat
    decreases c, 2
  {
    var path := JoinPath(parent, c.name);
    if !c.utf8 || Excluded(env, path) then 0
    else match c
      case File(_, _, meta) => if Counted(c, path, gi, artifactsOnly, env) then meta.value.len else 0
      case Dir(_, _, _, _) => SizeOfDir(c, path, gi, ChildMode(artifactsOnly, path, c.name, env), env)
      case Other(_, _) => 0
  }

  lemma {:induction false} SizeOfEntriesPrefix(cs: seq<Node>, j: nat, parent: string, gi: Option<PatternSet>, artifactsOnly: bool, env: Env)
    requires j <= |cs|
    ensures SizeOfEntries(cs[..j], parent, gi, artifactsOnly, env) <= SizeOfEntries(cs, parent, gi, artifactsOnly, env)
    decreases |cs|
  {
    if j < |cs| {
      var init := cs[..|cs| - 1];
      SizeOfEntriesPrefix(init, j, parent, gi, artifactsOnly, env);
      assert init[..j] == cs[..j];
    } else {
      assert cs[..j] == cs;
    }
  }

  /** `read_size` on a directory: the loop adds each entry's share. */
  method ReadSize(d: Node, path: string, inherited: Option<PatternSet>, artifactsOnly: bool, env: Env)
    returns (size: FileSize)
    requires d.Dir? && SizeOfDir(d, path, inherited, artifactsOnly, env) <= U64_MAX
    ensures size.Get() == SizeOfDir(d, path, inherited, artifactsOnly, env)
    decreases d, 0
  {
    size := NewFileSize(0);
    var gi := Ignores(path, inherited, artifactsOnly, env);
    if d.readable {
      var i := 0;
      while i < |d.children|
        invariant 0 <= i <= |d.children|
        invariant size.Get() == SizeOfEntries(d.children[..i], path, gi, artifactsOnly, env)
      {
        SizeOfEntriesPrefix(d.children, i + 1, path, gi, artifactsOnly, env);
        assert d.children[..i + 1][..i] == d.children[..i];
        var share := ReadSizeEntry(d.children[i], path, gi, artifactsOnly, env);
        size := size.Add(share);
        i := i + 1;
      }
      assert d.children[..|d.children|] == d.children;
    }
  }

  /** The body of `read_size`'s loop: what one entry adds to the total. */
  method ReadSizeEntry(c: Node, parent: string, gi: Option<PatternSet>, artifactsOnly: bool, env: Env)
    returns (share: FileSize)
    requires SizeOfEntry(c, parent, gi, artifactsOnly, env) <= U64_MAX
    ensures share.Get() == SizeOfEntry(c, parent, gi, artifactsOnly, env)
    decreases c, 1
  {
    share := NewFileSize(0);
    var path := JoinPath(parent, c.name);
    if c.utf8 && !Excluded(env, path) {
      match c
      case File(name, _, meta) =>
        if meta.Some? && (!artifactsOnly || IsArtifact(name, path, meta.value.mode, env.vimtags, gi, env.matches)) {
          share := NewFileSize(meta.value.len);
        }
      case Dir(name, _, _, _) =>
        if artifactsOnly && IsProjectDir(path, name, env.probes) {
          share := ReadSize(c, path, gi, false, env);
        } else {
          share := ReadSize(c, path, gi, artifactsOnly, env);
        }
      case Other(_, _) =>
    }
  }

  /** `read_size` on the path given on the command line: a missing path
      gives 0 (after an error message), a path that is not a directory exits
      with code 1, a directory is measured. */
  method ReadSizeRoot(root: Option<Node>, path: string, inherited: Option<PatternSet>, artifactsOnly: bool, env: Env)
    returns (r: Outcome<FileSize>)
    requires root.Some? && root.value.Dir? ==> SizeOfDir(root.value, path, inherited, artifactsOnly, env) <= U64_MAX
    ensures root.None? ==> r == Value(FileSize(0))
    ensures root.Some? && root.value.Dir? ==> r.Value? && r.value.Get() == SizeOfDir(root.value, path, inherited, artifactsOnly, env)
    ensures root.Some? && !root.value.Dir? ==> r == Exit(1)
  {
    if root.None? {
      r := Value(NewFileSize(0));
    } else if !root.value.Dir? {
      r := Exit(1);
    } else {
      var size := ReadSize(root.value, path, inherited, artifactsOnly, env);
      r := Value(size);
    }
  }

  /** Artifact mode never reports more than plain mode: it counts a subset
      of the files, and a project directory in full. */
  lemma {:induction false} ArtifactsBounded(d: Node, path: string, inherited: Option<PatternSet>, env: Env)
    requires d.Dir?
    ensures SizeOfDir(d, path, inherited, true, env) <= SizeOfDir(d, path, None, false, env)
    decreases d, 0
  {
    if d.readable {
      ArtifactsBoundedEntries(d.children, path, Ignores(path, inherited, true, env), env);
    }
  }

  lemma {:induction false} ArtifactsBoundedEntries(cs: seq<Node>, parent: string, gi: Option<PatternSet>, env: Env)
    ensures SizeOfEntries(cs, parent, gi, true, env) <= SizeOfEntries(cs, parent, None, false, env)
    decreases cs, 1
  {
    if cs != [] {
      ArtifactsBoundedEntries(cs[..|cs| - 1], parent, gi, env);
      ArtifactsBoundedEntry(cs[|cs| - 1], parent, gi, env);
    }
  }

  lemma {:induction false} ArtifactsBoundedEntry(c: Node, parent: string, gi: Option<PatternSet>, env: Env)
    ensures SizeOfEntry(c, parent, gi, true, env) <= SizeOfEntry(c, parent, None, false, env)
    decreases c, 2
  {
    var path := JoinPath(parent, c.name);
    if c.Dir? && c.utf8 && !Excluded(env, path) && ChildMode(true, path, c.name, env) {
      ArtifactsBounded(c, path, gi, env);
    }
  }

  // ---------------------------------------------------------------------
  // read_all

  /** Whether `read_all` measures a subdirectory whole instead of listing
      it: below the depth limit in plain mode, or a project directory in
      artifact mode. */
  predicate Collapses(depth: nat, maxDepth: Option<nat>, artifactsOnly: bool, project: bool)
  {
    (maxDepth.Some? && depth + 1 >= maxDepth.value && !artifactsOnly) || (artifactsOnly && project)
  }

  /** The entries `read_all` collects for a directory at depth `depth`. */
  ghost function TreeOfDir(d: Node, path: string, depth: nat, maxDepth: Option<nat>, inherited: Option<PatternSet>,
                           artifactsOnly: bool, env: Env): seq<NamePair>
    requires d.Dir? && SizeOfDir(d, path, inherited, artifactsOnly, env) <= U64_MAX
    decreases d, 0
  {
    if !d.readable then []
    else TreeOfEntries(d.children, path, depth, maxDepth, Ignores(path, inherited, artifactsOnly, env), artifactsOnly, env)
  }

  ghost function TreeOfEntries(cs: seq<Node>, parent: string, depth: nat, maxDepth: Option<nat>, gi: Option<PatternSet>,
                               artifactsOnly: bool, env: Env): seq<NamePair>
    requires SizeOfEntries(cs, parent, gi, artifactsOnly, env) <= U64_MAX
    decreases cs, 1
  {
    if cs == [] then []
    else TreeOfEntries(cs[..|cs| - 1], parent, depth, maxDepth, gi, artifactsOnly, env)
         + TreeOfEntry(cs[|cs| - 1], parent, depth, maxDepth, gi, artifactsOnly, env)
  }

  /** A counted file gives one entry; a directory gives its own entries
      (unless it collapses) followed by one entry with its total. */
  ghost function TreeOfEntry(c: Node, parent: string, depth: nat, maxDepth: Option<nat>, gi: Option<PatternSet>,
                             artifactsOnly: bool, env: Env): seq<NamePair>
    requires SizeOfEntry(c, parent, gi, artifactsOnly, env) <= U64_MAX
    decreases c, 2
  {
    var path := JoinPath(parent, c.name);
    if !c.utf8 || Excluded(env, path) then []
    else match c
      case File(_, _, meta) =>
        if Counted(c, path, gi, artifactsOnly, env) then [NamePair(path, FileSize(meta.value.len), depth + 1, false)] else []
      case Dir(_, _, _, _) =>
        var entry := NamePair(path, FileSize(SizeOfEntry(c, parent, gi, artifactsOnly, env)), depth + 1, true);
        if Collapses(depth, maxDepth, artifactsOnly, IsProjectDir(path, c.name, env.probes)) then [entry]
        else TreeOfDir(c, path, depth + 1, maxDepth, gi, artifactsOnly, env) + [entry]
      case Other(_, _) => []
  }

  /** `read_all` on a directory: entries in the order met, each directory's
      entries before its own; the tree's total is what `read_size` gives. */
  method ReadAll(d: Node, path: string, depth: nat, maxDepth: Option<nat>, inherited: Option<PatternSet>,
                 artifactsOnly: bool, env: Env) returns (tree: FileTree)
    requires d.Dir? && SizeOfDir(d, path, inherited, artifactsOnly, env) <= U64_MAX
    ensures fresh(tree)
    ensures tree.files == TreeOfDir(d, path, depth, maxDepth, inherited, artifactsOnly, env)
    ensures tree.fileSize.Get() == SizeOfDir(d, path, inherited, artifactsOnly, env)
    decreases d, 0
  {
    tree := new FileTree();
    var gi := Ignores(path, inherited, artifactsOnly, env);
    if d.readable {
      var i := 0;
      while i < |d.children|
        invariant 0 <= i <= |d.children|
        invariant fresh(tree)
        invariant SizeOfEntries(d.children[..i], path, gi, artifactsOnly, env) <= U64_MAX
        invariant tree.files == TreeOfEntries(d.children[..i], path, depth, maxDepth, gi, artifactsOnly, env)
        invariant tree.fileSize.Get() == SizeOfEntries(d.children[..i], path, gi, artifactsOnly, env)
      {
        SizeOfEntriesPrefix(d.children, i + 1, path, gi, artifactsOnly, env);
        assert d.children[..i + 1][..i] == d.children[..i];
        ReadAllEntry(tree, d.children[i], path, depth, maxDepth, gi, artifactsOnly, env);
        i := i + 1;
      }
      assert d.children[..|d.children|] == d.children;
    }
  }

  /** The body of `read_all`'s loop: push one entry (and, for a directory
      that does not collapse, its own entries first). */
  method ReadAllEntry(tree: FileTree, c: Node, parent: string, depth: nat, maxDepth: Option<nat>, gi: Option<PatternSet>,
                      artifactsOnly: bool, env: Env)
    requires tree.fileSize.size + SizeOfEntry(c, parent, gi, artifactsOnly, env) <= U64_MAX
    modifies tree
    ensures tree.files == old(tree.files) + TreeOfEntry(c, parent, depth, maxDepth, gi, artifactsOnly, env)
    ensures tree.fileSize.Get() == old(tree.fileSize.Get()) + SizeOfEntry(c, parent, gi, artifactsOnly, env)
    decreases c, 1
  {
    var path := JoinPath(parent, c.name);
    if c.utf8 && !Excluded(env, path) {
      match c
      case File(name, _, meta) =>
        if meta.Some? && (!artifactsOnly || IsArtifact(name, path, meta.value.mode, env.vimtags, gi, env.matches)) {
          tree.Push(path, NewFileSize(meta.value.len), null, depth + 1, false);
        }
      case Dir(name, _, _, _) =>
        if maxDepth.Some? && depth + 1 >= maxDepth.value && !artifactsOnly {
          var dirSize := ReadSize(c, path, gi, artifactsOnly, env);
          tree.Push(path, dirSize, null, depth + 1, true);
        } else if artifactsOnly && IsProjectDir(path, name, env.probes) {
          var dirSize := ReadSize(c, path, gi, false, env);
          tree.Push(path, dirSize, null, depth + 1, true);
        } else {
          var subtree := ReadAll(c, path, depth + 1, maxDepth, gi, artifactsOnly, env);
          var dirSize := subtree.fileSize;
          tree.Push(path, dirSize, subtree, depth + 1, true);
        }
      case Other(_, _) =>
    }
  }

  /** `read_all` on the path given on the command line: anything but a
      directory gives an empty tree (a file's size is printed instead). */
  method ReadAllRoot(root: Option<Node>, path: string, depth: nat, maxDepth: Option<nat>, inherited: Option<PatternSet>,
                     artifactsOnly: bool, env: Env) returns (tree: FileTree)
    requires root.Some? && root.value.Dir? ==> SizeOfDir(root.value, path, inherited, artifactsOnly, env) <= U64_MAX
    ensures fresh(tree)
    ensures root.Some? && root.value.Dir? ==>
      tree.files == TreeOfDir(root.value, path, depth, maxDepth, inherited, artifactsOnly, env)
      && tree.fileSize.Get() == SizeOfDir(root.value, path, inherited, artifactsOnly, env)
    ensures !(root.Some? && root.value.Dir?) ==> tree.files == [] && tree.fileSize == FileSize(0)
  {
    if root.Some? && root.value.Dir? {
      tree := ReadAll(root.value, path, depth, maxDepth, inherited, artifactsOnly, env);
    } else {
      tree := new FileTree();
    }
  }

  /** Every entry lies strictly below the directory listed. */
  lemma {:induction false} TreeDepths(d: Node, path: string, depth: nat, maxDepth: Option<nat>, inherited: Option<PatternSet>,
                                      artifactsOnly: bool, env: Env)
    requires d.Dir? && SizeOfDir(d, path, inherited, artifactsOnly, env) <= U64_MAX
    ensures forall e :: e in TreeOfDir(d, path, depth, maxDepth, inherited, artifactsOnly, env) ==> e.depth > depth
    decreases d, 0
  {
    if d.readable {
      TreeDepthsEntries(d.children, path, depth, maxDepth, Ignores(path, inherited, artifactsOnly, env), artifactsOnly, env);
    }
  }

  lemma {:induction false} TreeDepthsEntries(cs: seq<Node>, parent: string, depth: nat, maxDepth: Option<nat>, gi: Option<PatternSet>,
                                             artifactsOnly: bool, env: Env)
    requires SizeOfEntries(cs, parent, gi, artifactsOnly, env) <= U64_MAX
    ensures forall e :: e in TreeOfEntries(cs, parent, depth, maxDepth, gi, artifactsOnly, env) ==> e.depth > depth
    decreases cs, 1
  {
    if cs != [] {
      TreeDepthsEntries(cs[..|cs| - 1], parent, depth, maxDepth, gi, artifactsOnly, env);
      TreeDepthsEntry(cs[|cs| - 1], parent, depth, maxDepth, gi, artifactsOnly, env);
    }
  }

  lemma {:induction false} TreeDepthsEntry(c: Node, parent: string, depth: nat, maxDepth: Option<nat>, gi: Option<PatternSet>,
                                           artifactsOnly: bool, env: Env)
    requires SizeOfEntry(c, parent, gi, artifactsOnly, env) <= U64_MAX
    ensures forall e :: e in TreeOfEntry(c, parent, depth, maxDepth, gi, artifactsOnly, env) ==> e.depth > depth
    decreases c, 2
  {
    var path := JoinPath(parent, c.name);
    if c.Dir? && c.utf8 && !Excluded(env, path) && !Collapses(depth, maxDepth, artifactsOnly, IsProjectDir(path, c.name, env.probes)) {
      TreeDepths(c, path, depth + 1, maxDepth, gi, artifactsOnly, env);
    }
  }

  /** The deepest entry a plain-mode listing with limit `m` can hold. */
  function DepthBound(depth: nat, m: nat): nat
  {
    if depth < m then m else depth + 1
  }

  /** In plain mode the depth limit holds: no entry lies deeper than the
      limit (or than the first level, when the walk starts at the limit). */
  lemma {:induction false} TreeDepthLimit(d: Node, path: string, depth: nat, m: nat, inherited: Option<PatternSet>, env: Env)
    requires d.Dir? && SizeOfDir(d, path, inherited, false, env) <= U64_MAX
    ensures forall e :: e in TreeOfDir(d, path, depth, Some(m), inherited, false, env) ==> e.depth <= DepthBound(depth, m)
    decreases d, 0
  {
    if d.readable {
      TreeDepthLimitEntries(d.children, path, depth, m, env);
    }
  }

  lemma {:induction false} TreeDepthLimitEntries(cs: seq<Node>, parent: string, depth: nat, m: nat, env: Env)
    requires SizeOfEntries(cs, parent, None, false, env) <= U64_MAX
    ensures forall e :: e in TreeOfEntries(cs, parent, depth, Some(m), None, false, env) ==> e.depth <= DepthBound(depth, m)
    decreases cs, 1
  {
    if cs != [] {
      TreeDepthLimitEntries(cs[..|cs| - 1], parent, depth, m, env);
      TreeDepthLimitEntry(cs[|cs| - 1], parent, depth, m, env);
    }
  }

  lemma {:induction false} TreeDepthLimitEntry(c: Node, parent: string, depth: nat, m: nat, env: Env)
    requires SizeOfEntry(c, parent, None, false, env) <= U64_MAX
    ensures forall e :: e in TreeOfEntry(c, parent, depth, Some(m), None, false, env) ==> e.depth <= DepthBound(depth, m)
    decreases c, 2
  {
    var path := JoinPath(parent, c.name);
    if c.Dir? && c.utf8 && !Excluded(env, path) && depth + 1 < m {
      TreeDepthLimit(c, path, depth + 1, m, None, env);
    }
  }

  /** The total of the entries found at one depth. */
  ghost function SumAtDepth(s: seq<NamePair>, k: nat): nat
  {
    if s == [] then 0
    else SumAtDepth(s[..|s| - 1], k) + (if s[|s| - 1].depth == k then s[|s| - 1].bytes.size else 0)
  }

  lemma {:induction false} SumAtDepthConcat(a: seq<NamePair>, b: seq<NamePair>, k: nat)
    ensures SumAtDepth(a + b, k) == SumAtDepth(a, k) + SumAtDepth(b, k)
    decreases |b|
  {
    if b != [] {
      SumAtDepthConcat(a, b[..|b| - 1], k);
      assert (a + b)[..|a + b| - 1] == a + b[..|b| - 1];
    } else {
      assert a + b == a;
    }
  }

  lemma {:induction false} SumAtDepthDeeper(s: seq<NamePair>, k: nat)
    requires forall e :: e in s ==> e.depth > k
    ensures SumAtDepth(s, k) == 0
    decreases |s|
  {
    if s != [] {
      SumAtDepthDeeper(s[..|s| - 1], k);
    }
  }

  /** The entries one level down add up to the directory's total, so the
      tree `read_all` lists accounts for every byte `read_size` counts. */
  lemma {:induction false} TopLevelSum(d: Node, path: string, depth: nat, maxDepth: Option<nat>, inherited: Option<PatternSet>,
                                       artifactsOnly: bool, env: Env)
    requires d.Dir? && SizeOfDir(d, path, inherited, artifactsOnly, env) <= U64_MAX
    ensures SumAtDepth(TreeOfDir(d, path, depth, maxDepth, inherited, artifactsOnly, env), depth + 1)
            == SizeOfDir(d, path, inherited, artifactsOnly, env)
    decreases d, 0
  {
    if d.readable {
      TopLevelSumEntries(d.children, path, depth, maxDepth, Ignores(path, inherited, artifactsOnly, env), artifactsOnly, env);
    }
  }

  lemma {:induction false} TopLevelSumEntries(cs: seq<Node>, parent: string, depth: nat, maxDepth: Option<nat>, gi: Option<PatternSet>,
                                              artifactsOnly: bool, env: Env)
    requires SizeOfEntries(cs, parent, gi, artifactsOnly, env) <= U64_MAX
    ensures SumAtDepth(TreeOfEntries(cs, parent, depth, maxDepth, gi, artifactsOnly, env), depth + 1)
            == SizeOfEntries(cs, parent, gi, artifactsOnly, env)
    decreases cs, 1
  {
    if cs != [] {
      var init, last := cs[..|cs| - 1], cs[|cs| - 1];
      TopLevelSumEntries(init, parent, depth, maxDepth, gi, artifactsOnly, env);
      TopLevelSumEntry(last, parent, depth, maxDepth, gi, artifactsOnly, env);
      SumAtDepthConcat(TreeOfEntries(init, parent, depth, maxDepth, gi, artifactsOnly, env),
                       TreeOfEntry(last, parent, depth, maxDepth, gi, artifactsOnly, env), depth + 1);
    }
  }

  lemma {:induction false} TopLevelSumEntry(c: Node, parent: string, depth: nat, maxDepth: Option<nat>, gi: Option<PatternSet>,
                                            artifactsOnly: bool, env: Env)
    requires SizeOfEntry(c, parent, gi, artifactsOnly, env) <= U64_MAX
    ensures SumAtDepth(TreeOfEntry(c, parent, depth, maxDepth, gi, artifactsOnly, env), depth + 1)
            == SizeOfEntry(c, parent, gi, artifactsOnly, env)
    decreases c, 2
  {
    var path := JoinPath(parent, c.name);
    var r := TreeOfEntry(c, parent, depth, maxDepth, gi, artifactsOnly, env);
    if c.utf8 && !Excluded(env, path) {
      match c
      case File(_, _, _) =>
        assert r == [] || r[..0] == [];
      case Dir(_, _, _, _) =>
        if Collapses(depth, maxDepth, artifactsOnly, IsProjectDir(path, c.name, env.probes)) {
          assert r[..0] == [];
        } else {
          var sub := TreeOfDir(c, path, depth + 1, maxDepth, gi, artifactsOnly, env);
          TreeDepths(c, path, depth + 1, maxDepth, gi, artifactsOnly, env);
          SumAtDepthDeeper(sub, depth + 1);
          assert r[..|r| - 1] == sub;
        }
      case Other(_, _) =>
    }
  }

  // ---------------------------------------------------------------------
  // read_no_excludes

  /** The total `read_no_excludes` returns: every file with readable
      metadata and every directory, whatever the names. */
  ghost function AllBytes(d: Node): nat
    requires d.Dir?
    decreases d, 0
  {
    if !d.readable then 0 else AllBytesEntries(d.children)
  }

  ghost function AllBytesEntries(cs: seq<Node>): nat
    decreases cs, 1
  {
    if cs == [] then 0 else AllBytesEntries(cs[..|cs| - 1]) + AllBytesEntry(cs[|cs| - 1])
  }

  ghost function AllBytesEntry(c: Node): nat
    decreases c, 2
  {
    match c
    case File(_, _, meta) => if meta.Some? then meta.value.len else 0
    case Dir(_, _, _, _) => AllBytes(c)
    case Other(_, _) => 0
  }

  lemma {:induction false} AllBytesPrefix(cs: seq<Node>, j: nat)
    requires j <= |cs|
    ensures AllBytesEntries(cs[..j]) <= AllBytesEntries(cs)
    decreases |cs|
  {
    if j < |cs| {
      var init := cs[..|cs| - 1];
      AllBytesPrefix(init, j);
      assert init[..j] == cs[..j];
    } else {
      assert cs[..j] == cs;
    }
  }

  /** `read_no_excludes` on a directory. */
  method ReadNoExcludes(d: Node) returns (size: FileSize)
    requires d.Dir? && AllBytes(d) <= U64_MAX
    ensures size.Get() == AllBytes(d)
    decreases d
  {
    size := NewFileSize(0);
    if d.readable {
      var i := 0;
      while i < |d.children|
        invariant 0 <= i <= |d.children|
        invariant size.Get() == AllBytesEntries(d.children[..i])
      {
        var c := d.children[i];
        AllBytesPrefix(d.children, i + 1);
        assert d.children[..i + 1][..i] == d.children[..i];
        match c {
          case File(_, _, meta) =>
            if meta.Some? {
              size := size.Add(NewFileSize(meta.value.len));
            }
          case Dir(_, _, _, _) =>
            var dirSize := ReadNoExcludes(c);
            size := size.Add(dirSize);
          case Other(_, _) =>
        }
        i := i + 1;
      }
      assert d.children[..|d.children|] == d.children;
    }
  }

  /** `read_no_excludes` on the path given on the command line, with the
      error cases of `read_size`. */
  method ReadNoExcludesRoot(root: Option<Node>) returns (r: Outcome<FileSize>)
    requires root.Some? && root.value.Dir? ==> AllBytes(root.value) <= U64_MAX
    ensures root.None? ==> r == Value(FileSize(0))
    ensures root.Some? && root.value.Dir? ==> r.Value? && r.value.Get() == AllBytes(root.value)
    ensures root.Some? && !root.value.Dir? ==> r == Exit(1)
  {
    if root.None? {
      r := Value(NewFileSize(0));
    } else if !root.value.Dir? {
      r := Exit(1);
    } else {
      var size := ReadNoExcludes(root.value);
      r := Value(size);
    }
  }

  /** Every name on the tree is valid UTF-8. */
  ghost predicate AllUtf8(n: Node)
    decreases n
  {
    n.utf8 && (n.Dir? ==> forall i :: 0 <= i < |n.children| ==> AllUtf8(n.children[i]))
  }

  /** Without excludes, outside artifact mode and with valid names,
      `read_size` and `read_no_excludes` agree. */
  lemma {:induction false} PlainSizeIsAllBytes(d: Node, path: string, inherited: Option<PatternSet>, env: Env)
    requires d.Dir? && env.excludes.None?
    requires forall i :: 0 <= i < |d.children| ==> AllUtf8(d.children[i])
    ensures SizeOfDir(d, path, inherited, false, env) == AllBytes(d)
    decreases d, 0
  {
    if d.readable {
      PlainSizeIsAllBytesEntries(d.children, path, env);
    }
  }

  lemma {:induction false} PlainSizeIsAllBytesEntries(cs: seq<Node>, parent: string, env: Env)
    requires env.excludes.None?
    requires forall i :: 0 <= i < |cs| ==> AllUtf8(cs[i])
    ensures SizeOfEntries(cs, parent, None, false, env) == AllBytesEntries(cs)
    decreases cs, 1
  {
    if cs != [] {
      PlainSizeIsAllBytesEntries(cs[..|cs| - 1], parent, env);
      PlainSizeIsAllBytesEntry(cs[|cs| - 1], parent, env);
    }
  }

  lemma {:induction false} PlainSizeIsAllBytesEntry(c: Node, parent: string, env: Env)
    requires env.excludes.None? && AllUtf8(c)
    ensures SizeOfEntry(c, parent, None, false, env) == AllBytesEntry(c)
    decreases c, 2
  {
    if c.Dir? {
      PlainSizeIsAllBytes(c, JoinPath(parent, c.name), None, env);
    }
  }

  // ---------------------------------------------------------------------
  // read_all_fast

  /** The entries `read_all_fast` collects: no filter at all; an entry whose
      path is not UTF-8 is recorded under the empty name; a directory at
      the depth limit is measured with `read_no_excludes`. */
  ghost function FastTree(d: Node, path: string, pathOk: bool, depth: nat, maxDepth: Option<nat>): seq<NamePair>
    requires d.Dir? && AllBytes(d) <= U64_MAX
    decreases d, 0
  {
    if !d.readable then [] else FastTreeEntries(d.children, path, pathOk, depth, maxDepth)
  }

  ghost function FastTreeEntries(cs: seq<Node>, parent: string, parentOk: bool, depth: nat, maxDepth: Option<nat>): seq<NamePair>
    requires AllBytesEntries(cs) <= U64_MAX
    decreases cs, 1
  {
    if cs == [] then []
    else FastTreeEntries(cs[..|cs| - 1], parent, parentOk, depth, maxDepth) + FastTreeEntry(cs[|cs| - 1], parent, parentOk, depth, maxDepth)
  }

  ghost function FastTreeEntry(c: Node, parent: string, parentOk: bool, depth: nat, maxDepth: Option<nat>): seq<NamePair>
    requires AllBytesEntry(c) <= U64_MAX
    decreases c, 2
  {
    var path := JoinPath(parent, c.name);
    var ok := parentOk && c.utf8;
    var shown := if ok then path else "";
    match c
    case File(_, _, meta) =>
      if meta.Some? then [NamePair(shown, FileSize(meta.value.len), depth + 1, false)] else []
    case Dir(_, _, _, _) =>
      var entry := NamePair(shown, FileSize(AllBytes(c)), depth + 1, true);
      if maxDepth.Some? && depth + 1 >= maxDepth.value then [entry]
      else FastTree(c, path, ok, depth + 1, maxDepth) + [entry]
    case Other(_, _) => []
  }

  /** `read_all_fast` on a directory whose path is UTF-8 exactly when
      `pathOk` holds. */
  method ReadAllFast(d: Node, path: string, pathOk: bool, depth: nat, maxDepth: Option<nat>) returns (tree: FileTree)
    requires d.Dir? && AllBytes(d) <= U64_MAX
    ensures fresh(tree)
    ensures tree.files == FastTree(d, path, pathOk, depth, maxDepth)
    ensures tree.fileSize.Get() == AllBytes(d)
    decreases d, 0
  {
    tree := new FileTree();
    if d.readable {
      var i := 0;
      while i < |d.children|
        invariant 0 <= i <= |d.children|
        invariant fresh(tree)
        invariant AllBytesEntries(d.children[..i]) <= U64_MAX
        invariant tree.files == FastTreeEntries(d.children[..i], path, pathOk, depth, maxDepth)
        invariant tree.fileSize.Get() == AllBytesEntries(d.children[..i])
      {
        AllBytesPrefix(d.children, i + 1);
        assert d.children[..i + 1][..i] == d.children[..i];
        ReadAllFastEntry(tree, d.children[i], path, pathOk, depth, maxDepth);
        i := i + 1;
      }
      assert d.children[..|d.children|] == d.children;
    }
  }

  /** The body of `read_all_fast`'s loop. */
  method ReadAllFastEntry(tree: FileTree, c: Node, parent: string, parentOk: bool, depth: nat, maxDepth: Option<nat>)
    requires tree.fileSize.size + AllBytesEntry(c) <= U64_MAX
    modifies tree
    ensures tree.files == old(tree.files) + FastTreeEntry(c, parent, parentOk, depth, maxDepth)
    ensures tree.fileSize.Get() == old(tree.fileSize.Get()) + AllBytesEntry(c)
    decreases c, 1
  {
    var path := JoinPath(parent, c.name);
    var ok := parentOk && c.utf8;
    var shown := if ok then path else "";
    match c
    case File(_, _, meta) =>
      if meta.Some? {
        tree.Push(shown, NewFileSize(meta.value.len), null, depth + 1, false);
      }
    case Dir(_, _, _, _) =>
      if maxDepth.Some? && depth + 1 >= maxDepth.value {
        var dirSize := ReadNoExcludes(c);
        tree.Push(shown, dirSize, null, depth + 1, true);
      } else {
        var subtree := ReadAllFast(c, path, ok, depth + 1, maxDepth);
        var dirSize := subtree.fileSize;
        tree.Push(shown, dirSize, subtree, depth + 1, true);
      }
    case Other(_, _) =>
  }

  /** `read_all_fast` on the path given on the command line (a UTF-8
      string): anything but a directory gives an empty tree. */
  method ReadAllFastRoot(root: Option<Node>, path: string, depth: nat, maxDepth: Option<nat>) returns (tree: FileTree)
    requires root.Some? && root.value.Dir? ==> AllBytes(root.value) <= U64_MAX
    ensures fresh(tree)
    ensures root.Some? && root.value.Dir? ==>
      tree.files == FastTree(root.value, path, true, depth, maxDepth) && tree.fileSize.Get() == AllBytes(root.value)
    ensures !(root.Some? && root.value.Dir?) ==> tree.files == [] && tree.fileSize == FileSize(0)
  {
    if root.Some? && root.value.Dir? {
      tree := ReadAllFast(root.value, path, true, depth, maxDepth);
    } else {
      tree := new FileTree();
    }
  }

  /** Without excludes, outside artifact mode and with valid names, the fast
      walk lists exactly what `read_all` lists. */
  lemma {:induction false} FastIsReadAll(d: Node, path: string, depth: nat, maxDepth: Option<nat>,
                                         inherited: Option<PatternSet>, env: Env)
    requires d.Dir? && env.excludes.None? && AllBytes(d) <= U64_MAX
    requires forall i :: 0 <= i < |d.children| ==> AllUtf8(d.children[i])
    ensures SizeOfDir(d, path, inherited, false, env) == AllBytes(d)
    ensures FastTree(d, path, true, depth, maxDepth) == TreeOfDir(d, path, depth, maxDepth, inherited, false, env)
    decreases d, 0
  {
    PlainSizeIsAllBytes(d, path, inherited, env);
    if d.readable {
      FastIsReadAllEntries(d.children, path, depth, maxDepth, env);
    }
  }

  lemma {:induction false} FastIsReadAllEntries(cs: seq<Node>, parent: string, depth: nat, maxDepth: Option<nat>, env: Env)
    requires env.excludes.None? && AllBytesEntries(cs) <= U64_MAX
    requires forall i :: 0 <= i < |cs| ==> AllUtf8(cs[i])
    ensures SizeOfEntries(cs, parent, None, false, env) == AllBytesEntries(cs)
    ensures FastTreeEntries(cs, parent, true, depth, maxDepth) == TreeOfEntries(cs, parent, depth, maxDepth, None, false, env)
    decreases cs, 1
  {
    PlainSizeIsAllBytesEntries(cs, parent, env);
    if cs != [] {
      FastIsReadAllEntries(cs[..|cs| - 1], parent, depth, maxDepth, env);
      FastIsReadAllEntry(cs[|cs| - 1], parent, depth, maxDepth, env);
    }
  }

  lemma {:induction false} FastIsReadAllEntry(c: Node, parent: string, depth: nat, maxDepth: Option<nat>, env: Env)
    requires env.excludes.None? && AllBytesEntry(c) <= U64_MAX && AllUtf8(c)
    ensures SizeOfEntry(c, parent, None, false, env) == AllBytesEntry(c)
    ensures FastTreeEntry(c, parent, true, depth, maxDepth) == TreeOfEntry(c, parent, depth, maxDepth, None, false, env)
    decreases c, 2
  {
    PlainSizeIsAllBytesEntry(c, parent, env);
    if c.Dir? {
      FastIsReadAll(c, JoinPath(parent, c.name), depth + 1, maxDepth, None, env);
    }
  }
}
