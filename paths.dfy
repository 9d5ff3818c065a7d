/** Paths as the tool builds them with `PathBuf::push`, and the questions it
    asks the filesystem about them (`Path::exists`, a `glob` with at least
    one match), answered by a fixed set of paths. */
module Paths {

  /** `PathBuf::push` on Unix: an absolute component replaces the path;
      otherwise a `/` is inserted unless the path is empty or already ends
      in one. */
  function JoinPath(p: string, c: string): (r: string)
    ensures c != [] && c[0] == '/' ==> r == c
    ensures (c == [] || c[0] != '/') ==> r == p + c || r == p + "/" + c
  {
    if c != [] && c[0] == '/' then c
    else if p == [] || p[|p| - 1] == '/' then p + c
    else p + "/" + c
  }

  /** A relative component always lands below the path it is pushed on. */
  lemma JoinPathExtends(p: string, c: string)
    requires c == [] || c[0] != '/'
    ensures |JoinPath(p, c)| >= |p| && JoinPath(p, c)[..|p|] == p
  {
    var r := JoinPath(p, c);
    if p == [] || p[|p| - 1] == '/' {
      assert r == p + c;
    } else {
      assert r == p + ("/" + c);
    }
  }

  /** What a walk may learn about paths other than by listing directories. */
  datatype Probes = Probes(existing: set<string>, globHits: set<string>)
  {
    /** `Path::exists`. */
    predicate Exists(path: string)
    {
      path in existing
    }

    /** `glob_exists`: the pattern matches at least one path. */
    predicate GlobExists(pattern: string)
    {
      pattern in globHits
    }
  }
}
