/** The ignore-file translator of `src/gitignore.rs`: two nom grammars that
    turn the text of a `.gitignore`/`.ignore` file, or of a darcs `boring`
    file, into regular-expression sources, one per whitespace-separated token.

    The grammars are modelled combinator by combinator with nom 3's results:
    a parser ends `Done(rest, output)`, `Error`, or `Incomplete` (a `tag!`
    whose input is a proper prefix of the tag, including the empty input).
    `alt!` tries its branches in order and stops at the first one that is not
    `Error`; `opt!` turns `Error` into "nothing" but passes `Incomplete` on;
    `many0!` stops at the end of its input or at an `Error`, and passes
    `Incomplete` on. */
module Gitignore {
  import opened Wrappers
  import opened Nom

  /** The two dialects: `process`/`options` and `process_darcs`/`darcs`. */
  datatype Dialect = GitIgnore | DarcsBoring

  predicate IsSuffix(r: string, s: string)
  {
    |r| <= |s| && s[|s| - |r|..] == r
  }

  const LineStop: set<char> := {'\n'}
  const GlobStop: set<char> := {'*', '?', '+', '.', '#', '\n'}
  const DarcsStop: set<char> := {'\\', '#'}

  /** What `is_not!` leaves is a suffix of its input. */
  lemma SplitSuffix(p: IResult<string>, s: string)
    requires p.Done? ==> p.out + p.rest == s
    ensures p.Done? ==> IsSuffix(p.rest, s)
  {
    if p.Done? {
      assert s[|p.out|..] == p.rest;
    }
  }

  lemma SuffixTrans(p: IResult<string>, r: string, s: string)
    requires IsSuffix(r, s)
    requires p.Done? ==> IsSuffix(p.rest, r)
    ensures p.Done? ==> IsSuffix(p.rest, s)
  {
    if p.Done? {
      assert s[|s| - |p.rest|..] == s[|s| - |r|..][|r| - |p.rest|..];
    }
  }

  // ---------------------------------------------------------------------
  // The named parsers of the grammar

  /** `line`: a newline becomes `$\n`. */
  function Line(s: string): IResult<string>
  {
    Emit(Tag(s, "\n"), "$\n")
  }

  /** `parse_not_comment`: the rest of a line collapses to `#`. */
  function ParseNotComment(s: string): IResult<string>
  {
    Emit(IsNot(s, LineStop), "#")
  }

  /** `first_line`: a first line `#...\n` with at least one character after
      the `#`. */
  function FirstLine(s: string): IResult<string>
  {
    match Tag(s, "#")
    case Error => Error
    case Incomplete => Incomplete
    case Done(r1, _) =>
      match IsNot(r1, LineStop)
      case Error => Error
      case Incomplete => Incomplete
      case Done(r2, _) => Emit(Tag(r2, "\n"), "\n")
  }

  /** `gitignore_comment`: `\n#` and the rest of its line become `\n`. */
  function GitignoreComment(s: string): IResult<string>
  {
    match Tag(s, "\n#")
    case Error => Error
    case Incomplete => Incomplete
    case Done(r, _) => Emit(IsNot(r, LineStop), "\n")
  }

  function ParsePlus(s: string): IResult<string>
  {
    Emit(Tag(s, "+"), "\\+")
  }

  function ParsePeriod(s: string): IResult<string>
  {
    Emit(Tag(s, "."), "\\.")
  }

  /** `parse_asterix` / `parse_questionmark`: the glob character, and with it
      a newline that ends the input (`opt!(tag!("\n") >> eof!())`). */
  function ParseGlob(s: string, glob: char, out: string): IResult<string>
  {
    match Tag(s, [glob])
    case Error => Error
    case Incomplete => Incomplete
    case Done(r, _) =>
      match Tag(r, "\n")
      case Incomplete => Incomplete
      case Error => Done(r, out)
      case Done(r2, _) => if r2 == [] then Done(r2, out) else Done(r, out)
  }

  function ParseAsterix(s: string): IResult<string>
  {
    ParseGlob(s, '*', ".*")
  }

  function ParseQuestionmark(s: string): IResult<string>
  {
    ParseGlob(s, '?', ".")
  }

  /** `parse_backslash`: `\_` becomes `_`, any other backslash stays. */
  function ParseBackslash(s: string): IResult<string>
  {
    Alt(Emit(Tag(s, "\\_"), "_"), Emit(Tag(s, "\\"), "\\"))
  }

  /** `options`, one step of the gitignore grammar. */
  function Options(s: string): IResult<string>
  {
    Alt(Line(s), Alt(GitignoreComment(s), Alt(IsNot(s, GlobStop), Alt(ParseAsterix(s),
      Alt(ParsePeriod(s), Alt(ParseQuestionmark(s), Alt(ParsePlus(s), ParseNotComment(s))))))))
  }

  /** `darcs`, one step of the boring-file grammar. */
  function Darcs(s: string): IResult<string>
  {
    Alt(Emit(Tag(s, "\n"), "\n"), Alt(GitignoreComment(s), Alt(IsNot(s, DarcsStop),
      Alt(ParseBackslash(s), ParseNotComment(s)))))
  }

  function Step(s: string, d: Dialect): (r: IResult<string>)
    ensures r.Done? ==> IsSuffix(r.rest, s)
  {
    StepConsumes(s, d);
    if d == GitIgnore then Options(s) else Darcs(s)
  }

  /** A parser that succeeds leaves a suffix of its input. */
  predicate Consumes(p: IResult<string>, s: string)
  {
    p.Done? ==> IsSuffix(p.rest, s)
  }

  lemma CommentConsumes(s: string)
    ensures Consumes(ParseNotComment(s), s)
    ensures Consumes(GitignoreComment(s), s)
  {
    SplitSuffix(IsNot(s, LineStop), s);
    var t := Tag(s, "\n#");
    if t.Done? {
      SplitSuffix(IsNot(t.rest, LineStop), t.rest);
      SuffixTrans(IsNot(t.rest, LineStop), t.rest, s);
    }
  }

  lemma TagConsumes(s: string, t: string, out: string)
    ensures Consumes(Tag(s, t), s) && Consumes(Emit(Tag(s, t), out), s)
  {
    if |s| >= |t| && s[..|t|] == t {
      assert s[|s| - (|s| - |t|)..] == s[|t|..];
    }
  }

  lemma GlobConsumes(s: string, glob: char, out: string)
    ensures Consumes(ParseGlob(s, glob, out), s)
  {
    TagConsumes(s, [glob], out);
    var t := Tag(s, [glob]);
    if t.Done? {
      TagConsumes(t.rest, "\n", out);
      SuffixTrans(Tag(t.rest, "\n"), t.rest, s);
    }
  }

  lemma AltConsumes(a: IResult<string>, b: IResult<string>, s: string)
    requires Consumes(a, s) && Consumes(b, s)
    ensures Consumes(Alt(a, b), s)
  {
  }

  lemma StepConsumes(s: string, d: Dialect)
    ensures Consumes(Options(s), s) && Consumes(Darcs(s), s)
  {
    CommentConsumes(s);
    SplitSuffix(IsNot(s, GlobStop), s);
    SplitSuffix(IsNot(s, DarcsStop), s);
    TagConsumes(s, "\n", "$\n");
    TagConsumes(s, "\n", "\n");
    TagConsumes(s, "+", "\\+");
    TagConsumes(s, ".", "\\.");
    TagConsumes(s, "\\_", "_");
    TagConsumes(s, "\\", "\\");
    GlobConsumes(s, '*', ".*");
    GlobConsumes(s, '?', ".");
    var bs := ParseBackslash(s);
    AltConsumes(Emit(Tag(s, "\\_"), "_"), Emit(Tag(s, "\\"), "\\"), s);
    var o7 := Alt(ParsePlus(s), ParseNotComment(s));
    AltConsumes(ParsePlus(s), ParseNotComment(s), s);
    var o6 := Alt(ParseQuestionmark(s), o7);
    AltConsumes(ParseQuestionmark(s), o7, s);
    var o5 := Alt(ParsePeriod(s), o6);
    AltConsumes(ParsePeriod(s), o6, s);
    var o4 := Alt(ParseAsterix(s), o5);
    AltConsumes(ParseAsterix(s), o5, s);
    var o3 := Alt(IsNot(s, GlobStop), o4);
    AltConsumes(IsNot(s, GlobStop), o4, s);
    var o2 := Alt(GitignoreComment(s), o3);
    AltConsumes(GitignoreComment(s), o3, s);
    AltConsumes(Line(s), o2, s);
    var d4 := Alt(ParseBackslash(s), ParseNotComment(s));
    AltConsumes(ParseBackslash(s), ParseNotComment(s), s);
    var d3 := Alt(IsNot(s, DarcsStop), d4);
    AltConsumes(IsNot(s, DarcsStop), d4, s);
    var d2 := Alt(GitignoreComment(s), d3);
    AltConsumes(GitignoreComment(s), d3, s);
    AltConsumes(Emit(Tag(s, "\n"), "\n"), d2, s);
  }


  /** `many0!(options)` / `many0!(darcs)`. */
  function Many0(s: string, d: Dialect): IResult<seq<string>>
    decreases |s|
  {
    if s == [] then Done(s, [])
    else
      match Step(s, d)
      case Error => Done(s, [])
      case Incomplete => Incomplete
      case Done(r, o) =>
        if r == s then Error   // "loop trip must always consume"
        else
          match Many0(r, d)
          case Done(r2, os) => Done(r2, [o] + os)
          case Error => Error
          case Incomplete => Incomplete
  }

  /** `process` / `process_darcs`: an optional first comment line, whose
      output `do_parse!` discards, then the steps. */
  function Process(s: string, d: Dialect): IResult<seq<string>>
  {
    match FirstLine(s)
    case Incomplete => Incomplete
    case Error => Many0(s, d)
    case Done(r, _) => Many0(r, d)
  }

  /** `process_to_vector` / `process_darcs_full`: a grammar that does not
      finish with `Done` gives no pieces (after a diagnostic). */
  function ProcessToVector(s: string, d: Dialect): seq<string>
  {
    match Process(s, d)
    case Done(_, pieces) => pieces
    case _ => []
  }

  /** `Vec::join("")`. */
  function Concat(pieces: seq<string>): string
  {
    if pieces == [] then [] else pieces[0] + Concat(pieces[1..])
  }

  // ---------------------------------------------------------------------
  // Splitting and compiling

  /** Unicode's White_Space property, which `str::split_whitespace` uses. */
  predicate IsWhitespace(c: char)
  {
    || ('\U{9}' <= c <= '\U{D}') || c == ' ' || c == '\U{85}' || c == '\U{A0}' || c == '\U{1680}'
    || ('\U{2000}' <= c <= '\U{200A}') || c == '\U{2028}' || c == '\U{2029}' || c == '\U{202F}'
    || c == '\U{205F}' || c == '\U{3000}'
  }

  function SpaceRun(s: string): (n: nat)
    ensures n <= |s|
    ensures forall i :: 0 <= i < n ==> IsWhitespace(s[i])
    ensures n < |s| ==> !IsWhitespace(s[n])
  {
    if s == [] || !IsWhitespace(s[0]) then 0 else 1 + SpaceRun(s[1..])
  }

  function WordRun(s: string): (n: nat)
    ensures n <= |s|
    ensures forall i :: 0 <= i < n ==> !IsWhitespace(s[i])
    ensures n < |s| ==> IsWhitespace(s[n])
  {
    if s == [] || IsWhitespace(s[0]) then 0 else 1 + WordRun(s[1..])
  }

  /** `str::split_whitespace`: the maximal non-empty runs of non-whitespace. */
  function SplitWhitespace(s: string): (r: seq<string>)
    ensures forall t :: t in r ==> t != [] && forall c :: c in t ==> !IsWhitespace(c)
    decreases |s|
  {
    var lead := SpaceRun(s);
    if lead == |s| then []
    else
      var t := s[lead..];
      var n := WordRun(t);
      [t[..n]] + SplitWhitespace(t[n..])
  }

  /** A compiled `RegexSet`: the sources of its alternatives. */
  datatype PatternSet = PatternSet(patterns: seq<string>)

  /** `RegexSet::new(tokens)`, falling back to the empty set when the regex
      engine (the oracle `compiles`) rejects the tokens. */
  function ToRegexSet(text: string, compiles: seq<string> -> bool): (r: PatternSet)
    ensures r.patterns == SplitWhitespace(text) || r.patterns == []
  {
    var tokens := SplitWhitespace(text);
    if compiles(tokens) then PatternSet(tokens) else PatternSet([])
  }

  /** `file_contents_to_regex`. */
  function FileContentsToRegex(file: string, compiles: seq<string> -> bool): PatternSet
  {
    ToRegexSet(Concat(ProcessToVector(file, GitIgnore)), compiles)
  }

  /** `darcs_contents_to_regex`. */
  function DarcsContentsToRegex(file: string, compiles: seq<string> -> bool): PatternSet
  {
    ToRegexSet(Concat(ProcessToVector(file, DarcsBoring)), compiles)
  }

  /** `RegexSet::is_match`: some alternative matches, by the regex engine
      `matches(pattern, text)`. */
  predicate IsMatch(ps: PatternSet, text: string, matches: (string, string) -> bool)
  {
    exists i :: 0 <= i < |ps.patterns| && matches(ps.patterns[i], text)
  }

  // ---------------------------------------------------------------------
  // The translation, character by character

  /** How the gitignore dialect rewrites one glob or regex metacharacter. */
  function Escape(c: char): string
  {
    if c == '*' then ".*"
    else if c == '?' then "."
    else if c == '.' then "\\."
    else if c == '+' then "\\+"
    else [c]
  }

  /** The translation both grammars compute, stated one character at a time:
      a `#` and the rest of its line become `#`; in the gitignore dialect a
      newline becomes `$\n`, glob metacharacters are escaped, and a `*` or `?`
      directly before a final newline takes that newline with it; in the darcs
      dialect only `\_` changes, to `_`. */
  function Rewrite(s: string, d: Dialect): string
    decreases |s|
  {
    if s == [] then []
    else if s[0] == '#' then "#" + Rewrite(s[RunLength(s, LineStop)..], d)
    else if d == GitIgnore then
      if s[0] == '\n' then "$\n" + Rewrite(s[1..], d)
      else if (s[0] == '*' || s[0] == '?') && s[1..] == "\n" then Escape(s[0])
      else Escape(s[0]) + Rewrite(s[1..], d)
    else if s[0] == '\\' && |s| > 1 && s[1] == '_' then "_" + Rewrite(s[2..], d)
    else [s[0]] + Rewrite(s[1..], d)
  }

  /** Every `#` is followed, somewhere later, by a newline: the last line
      holds no comment. */
  predicate CommentsClosed(s: string)
  {
    forall i :: 0 <= i < |s| && s[i] == '#' ==> '\n' in s[i + 1..]
  }

  /** When the grammar gives up with `Incomplete`: the input ends, outside a
      comment, with a `*` or `?` (gitignore) or with a `\` (darcs), whose
      parser then asks for more input. */
  predicate Stalls(s: string, d: Dialect)
  {
    && |s| > 0
    && (if d == GitIgnore then s[|s| - 1] == '*' || s[|s| - 1] == '?' else s[|s| - 1] == '\\')
    && CommentsClosed(s)
  }

  /** A first line `#...` with at least one character after the `#`, which
      `first_line` removes; `None` when the grammar gives up on it. */
  function AfterFirstLine(file: string): Option<string>
  {
    var eol := RunLength(file, LineStop);
    if file == [] || (file[0] == '#' && eol == |file|) then None
    else if file[0] == '#' && eol > 1 then Some(file[eol + 1..])
    else Some(file)
  }

  /** The text a file translates to, before it is split into tokens. */
  function Translation(file: string, d: Dialect): string
  {
    match AfterFirstLine(file)
    case None => []
    case Some(body) => if Stalls(body, d) then [] else Rewrite(body, d)
  }

  // ---------------------------------------------------------------------
  // The grammar computes the translation

  lemma ClosedAppend(a: string, r: string)
    requires forall i :: 0 <= i < |a| ==> a[i] != '#'
    ensures CommentsClosed(a + r) <==> CommentsClosed(r)
  {
    var s := a + r;
    if CommentsClosed(r) {
      forall i | 0 <= i < |s| && s[i] == '#' ensures '\n' in s[i + 1..] {
        assert s[i] == r[i - |a|];
        assert s[i + 1..] == r[i - |a| + 1..];
      }
    }
    if CommentsClosed(s) {
      forall j | 0 <= j < |r| && r[j] == '#' ensures '\n' in r[j + 1..] {
        assert s[|a| + j] == r[j];
        assert s[|a| + j + 1..] == r[j + 1..];
      }
    }
  }

  /** A comment runs to its newline, so it closes exactly when the input after
      it still has that newline and closes itself. */
  lemma ClosedComment(s: string, n: nat)
    requires 0 < n <= |s| && s[0] == '#'
    requires forall i :: 0 <= i < n ==> s[i] != '\n'
    requires n < |s| ==> s[n] == '\n'
    ensures CommentsClosed(s) <==> n < |s| && CommentsClosed(s[n..])
  {
    if n == |s| {
      assert s[1..] == s[1..n];
      assert '\n' !in s[1..];
    } else {
      var r := s[n..];
      assert s == s[..n] + r;
      if CommentsClosed(r) {
        forall i | 0 <= i < |s| && s[i] == '#' ensures '\n' in s[i + 1..] {
          if i < n {
            assert s[i + 1..][n - i - 1] == '\n';
          } else {
            assert s[i + 1..] == r[i - n + 1..];
          }
        }
      }
      if CommentsClosed(s) {
        forall j | 0 <= j < |r| && r[j] == '#' ensures '\n' in r[j + 1..] {
          assert s[n + j] == r[j];
          assert s[n + j + 1..] == r[j + 1..];
        }
      }
    }
  }

  /** A run without the dialect's special characters translates to itself. */
  lemma {:induction false} RunCopied(run: string, r: string, d: Dialect)
    requires forall i :: 0 <= i < |run| ==> run[i] !in (if d == GitIgnore then GlobStop else DarcsStop)
    ensures Rewrite(run + r, d) == run + Rewrite(r, d)
  {
    if run != [] {
      var s := run + r;
      assert s[0] == run[0] && s[1..] == run[1..] + r;
      RunCopied(run[1..], r, d);
    } else {
      assert run + r == r;
    }
  }

  /** What one step of a grammar on `s` must do: consume a non-empty prefix
      and emit that prefix's translation, giving up only on the last
      character of a stalling input. */
  predicate StepSound(s: string, d: Dialect, st: IResult<string>)
  {
    && (st.Incomplete? ==> Stalls(s, d))
    && (!st.Incomplete? ==>
          && st.Done?
          && |st.rest| < |s|
          && st.out + Rewrite(st.rest, d) == Rewrite(s, d)
          && (Stalls(s, d) <==> Stalls(st.rest, d)))
  }

  /** Dropping a comment-free prefix does not change whether the input
      stalls, unless the prefix is the whole input. */
  lemma StallsAfter(s: string, n: nat, d: Dialect)
    requires 0 < n <= |s|
    requires forall i :: 0 <= i < n ==> s[i] != '#'
    requires n == |s| ==> !Stalls(s, d)
    ensures Stalls(s, d) <==> Stalls(s[n..], d)
  {
    assert s == s[..n] + s[n..];
    ClosedAppend(s[..n], s[n..]);
    if n < |s| {
      assert s[|s| - 1] == s[n..][|s| - n - 1];
    }
  }

  lemma StepTranslates(s: string, d: Dialect)
    requires s != []
    ensures StepSound(s, d, Step(s, d))
  {
    var c := s[0];
    if c == '#' {
      CommentStep(s, d);
    } else if d == GitIgnore {
      if c == '\n' {
        GitNewlineStep(s);
      } else if c !in GlobStop {
        RunStep(s, d);
      } else if c == '*' || c == '?' {
        GlobStep(s);
      } else {
        EscapeStep(s);
      }
    } else {
      if c == '\n' {
        DarcsNewlineStep(s);
      } else if c != '\\' {
        RunStep(s, d);
      } else {
        BackslashStep(s);
      }
    }
  }

  /** On a `#` every alternative before `parse_not_comment` fails. */
  lemma StepOnComment(s: string, d: Dialect)
    requires s != [] && s[0] == '#'
    ensures Step(s, d) == ParseNotComment(s)
  {
    assert Line(s).Error? && GitignoreComment(s).Error?;
    if d == GitIgnore {
      assert IsNot(s, GlobStop).Error? && ParseAsterix(s).Error? && ParsePeriod(s).Error?;
      assert ParseQuestionmark(s).Error? && ParsePlus(s).Error?;
    } else {
      assert IsNot(s, DarcsStop).Error? && ParseBackslash(s).Error?;
    }
  }

  lemma CommentStep(s: string, d: Dialect)
    requires s != [] && s[0] == '#'
    ensures StepSound(s, d, Step(s, d))
  {
    var n := RunLength(s, LineStop);
    StepOnComment(s, d);
    assert ParseNotComment(s) == Done(s[n..], "#");
    ClosedComment(s, n);
    if n < |s| {
      assert s[|s| - 1] == s[n..][|s| - n - 1];
    }
  }

  lemma GitNewlineStep(s: string)
    requires s != [] && s[0] == '\n'
    ensures StepSound(s, GitIgnore, Step(s, GitIgnore))
  {
    assert Options(s) == Done(s[1..], "$\n");
    StallsAfter(s, 1, GitIgnore);
  }

  lemma DarcsNewlineStep(s: string)
    requires s != [] && s[0] == '\n'
    ensures StepSound(s, DarcsBoring, Step(s, DarcsBoring))
  {
    assert Darcs(s) == Done(s[1..], "\n");
    StallsAfter(s, 1, DarcsBoring);
  }

  /** On an ordinary character the run parser (`is_not!`) wins. */
  lemma StepOnRun(s: string, d: Dialect)
    requires s != [] && s[0] != '\n' && s[0] !in (if d == GitIgnore then GlobStop else DarcsStop)
    ensures var n := RunLength(s, if d == GitIgnore then GlobStop else DarcsStop);
      Step(s, d) == Done(s[n..], s[..n])
  {
    assert s[..1] != "\n";
    assert Tag(s, "\n").Error? && Tag(s, "\n#").Error?;
    assert Line(s).Error? && GitignoreComment(s).Error?;
  }

  lemma RunStep(s: string, d: Dialect)
    requires s != [] && s[0] != '\n' && s[0] !in (if d == GitIgnore then GlobStop else DarcsStop)
    ensures StepSound(s, d, Step(s, d))
  {
    var stop := if d == GitIgnore then GlobStop else DarcsStop;
    var n := RunLength(s, stop);
    StepOnRun(s, d);
    assert s == s[..n] + s[n..];
    RunCopied(s[..n], s[n..], d);
    StallsAfter(s, n, d);
  }

  lemma OptionsOnGlob(s: string)
    requires s != [] && (s[0] == '*' || s[0] == '?')
    ensures Options(s) == ParseGlob(s, s[0], Escape(s[0]))
  {
    assert Line(s).Error? && GitignoreComment(s).Error? && IsNot(s, GlobStop).Error?;
    if s[0] == '?' {
      assert ParseAsterix(s).Error? && ParsePeriod(s).Error?;
    }
  }

  /** A glob character gives up when it ends the input, and takes a newline
      that ends the input with it. */
  lemma ParseGlobResult(s: string, glob: char, out: string)
    requires s != [] && s[0] == glob
    ensures ParseGlob(s, glob, out)
      == if s[1..] == [] then Incomplete else if s[1..] == "\n" then Done([], out) else Done(s[1..], out)
  {
    assert Tag(s, [glob]) == Done(s[1..], [glob]);
  }

  lemma GlobStep(s: string)
    requires s != [] && (s[0] == '*' || s[0] == '?')
    ensures StepSound(s, GitIgnore, Step(s, GitIgnore))
  {
    var c := s[0];
    var r := s[1..];
    OptionsOnGlob(s);
    ParseGlobResult(s, c, Escape(c));
    if r == [] {
      assert CommentsClosed(s);
    } else if r != "\n" {
      StallsAfter(s, 1, GitIgnore);
    }
  }

  lemma OptionsOnEscape(s: string)
    requires s != [] && (s[0] == '.' || s[0] == '+')
    ensures Options(s) == Done(s[1..], Escape(s[0]))
  {
    assert Line(s).Error? && GitignoreComment(s).Error? && IsNot(s, GlobStop).Error?;
    assert ParseAsterix(s).Error?;
    if s[0] == '+' {
      assert ParsePeriod(s).Error? && ParseQuestionmark(s).Error?;
      assert ParsePlus(s) == Done(s[1..], "\\+");
    } else {
      assert ParsePeriod(s) == Done(s[1..], "\\.");
    }
  }

  lemma EscapeStep(s: string)
    requires s != [] && (s[0] == '.' || s[0] == '+')
    ensures StepSound(s, GitIgnore, Step(s, GitIgnore))
  {
    OptionsOnEscape(s);
    StallsAfter(s, 1, GitIgnore);
  }

  lemma DarcsOnBackslash(s: string)
    requires s != [] && s[0] == '\\'
    ensures Darcs(s) == ParseBackslash(s)
  {
    assert Emit(Tag(s, "\n"), "\n").Error? && GitignoreComment(s).Error? && IsNot(s, DarcsStop).Error?;
    assert !ParseBackslash(s).Error?;
  }

  lemma BackslashStep(s: string)
    requires s != [] && s[0] == '\\'
    ensures StepSound(s, DarcsBoring, Step(s, DarcsBoring))
  {
    DarcsOnBackslash(s);
    if |s| == 1 {
      assert Tag(s, "\\_").Incomplete?;
      assert CommentsClosed(s);
    } else if s[1] == '_' {
      assert Tag(s, "\\_") == Done(s[2..], "\\_");
      StallsAfter(s, 2, DarcsBoring);
    } else {
      assert Tag(s, "\\_").Error?;
      assert Tag(s, "\\") == Done(s[1..], "\\");
      StallsAfter(s, 1, DarcsBoring);
    }
  }

  /** `many0!` over the whole input: it gives up exactly on a stalling input,
      and otherwise consumes everything and emits the translation. */
  lemma {:induction false} Many0Translates(s: string, d: Dialect)
    ensures Many0(s, d).Incomplete? <==> Stalls(s, d)
    ensures !Stalls(s, d) ==> Many0(s, d).Done? && Many0(s, d).rest == [] && Concat(Many0(s, d).out) == Rewrite(s, d)
    decreases |s|
  {
    if s != [] {
      StepTranslates(s, d);
      var st := Step(s, d);
      assert StepSound(s, d, st);
      if st.Done? {
        Many0Translates(st.rest, d);
        var m := Many0(st.rest, d);
        if m.Done? {
          assert Many0(s, d) == Done(m.rest, [st.out] + m.out);
          assert ([st.out] + m.out)[1..] == m.out;
        }
      }
    }
  }

  lemma FirstLineFacts(file: string)
    ensures FirstLine(file).Incomplete? <==> AfterFirstLine(file).None?
    ensures FirstLine(file).Done? ==> AfterFirstLine(file) == Some(FirstLine(file).rest)
    ensures FirstLine(file).Error? ==> AfterFirstLine(file) == Some(file)
  {
    var eol := RunLength(file, LineStop);
    if file != [] && file[0] == '#' {
      var r1 := file[1..];
      assert RunLength(r1, LineStop) == eol - 1;
    }
  }

  /** Both grammars, joined, produce exactly `Translation`: the first comment
      line dropped, comments collapsed, the dialect's rewriting applied, and
      nothing at all when the grammar gives up. */
  lemma ProcessTranslates(file: string, d: Dialect)
    ensures Concat(ProcessToVector(file, d)) == Translation(file, d)
  {
    FirstLineFacts(file);
    match AfterFirstLine(file)
    case None =>
    case Some(body) =>
      Many0Translates(body, d);
  }

  /** The pattern set of a `.gitignore`/`.ignore` file: the tokens of its
      translation when the regex engine accepts them, the empty set
      otherwise. Errors never propagate. */
  lemma FileContentsToRegexMeaning(file: string, compiles: seq<string> -> bool)
    ensures var tokens := SplitWhitespace(Translation(file, GitIgnore));
      FileContentsToRegex(file, compiles).patterns == (if compiles(tokens) then tokens else [])
  {
    ProcessTranslates(file, GitIgnore);
  }

  lemma DarcsContentsToRegexMeaning(file: string, compiles: seq<string> -> bool)
    ensures var tokens := SplitWhitespace(Translation(file, DarcsBoring));
      DarcsContentsToRegex(file, compiles).patterns == (if compiles(tokens) then tokens else [])
  {
    ProcessTranslates(file, DarcsBoring);
  }

  // ---------------------------------------------------------------------
  // Consequences for single pattern lines

  /** A pattern line with every glob metacharacter rewritten. */
  function EscapeAll(p: string): string
  {
    if p == [] then [] else Escape(p[0]) + EscapeAll(p[1..])
  }

  /** A pattern line followed by more input is anchored at its end with `$`. */
  lemma {:induction false} LineAnchored(p: string, r: string)
    requires forall i :: 0 <= i < |p| ==> p[i] != '#' && p[i] != '\n'
    requires r != []
    ensures Rewrite(p + "\n" + r, GitIgnore) == EscapeAll(p) + "$\n" + Rewrite(r, GitIgnore)
  {
    var s := p + "\n" + r;
    if p == [] {
      assert s == "\n" + r;
      assert s[1..] == r;
    } else {
      assert s[0] == p[0] && s[1..] == p[1..] + "\n" + r;
      assert s[1..] != "\n";
      LineAnchored(p[1..], r);
    }
  }

  /** The last pattern line is anchored too, unless it ends in `*` or `?`,
      which swallows the final newline. */
  lemma {:induction false} LastLineAnchored(p: string)
    requires forall i :: 0 <= i < |p| ==> p[i] != '#' && p[i] != '\n'
    ensures Rewrite(p + "\n", GitIgnore)
      == if p != [] && (p[|p| - 1] == '*' || p[|p| - 1] == '?') then EscapeAll(p) else EscapeAll(p) + "$\n"
  {
    var s := p + "\n";
    if p == [] {
      assert s[1..] == [];
    } else {
      assert s[0] == p[0] && s[1..] == p[1..] + "\n";
      LastLineAnchored(p[1..]);
      if |p| == 1 {
        assert s[1..] == "\n";
      }
    }
  }

  // ---------------------------------------------------------------------
  // Splitting at whitespace

  /** Tokens written out with a single space between them. */
  function JoinSpaced(tokens: seq<string>): string
  {
    if tokens == [] then []
    else if |tokens| == 1 then tokens[0]
    else tokens[0] + " " + JoinSpaced(tokens[1..])
  }

  predicate IsToken(t: string)
  {
    t != [] && forall i :: 0 <= i < |t| ==> !IsWhitespace(t[i])
  }

  lemma SplitSkipsSpace(c: char, x: string)
    requires IsWhitespace(c)
    ensures SplitWhitespace([c] + x) == SplitWhitespace(x)
  {
    var s := [c] + x;
    assert s[1..] == x;
    var lead := SpaceRun(x);
    assert SpaceRun(s) == 1 + lead;
    if lead < |x| {
      assert s[1 + lead..] == x[lead..];
    }
  }

  lemma SplitToken(t: string, x: string)
    requires IsToken(t)
    requires x == [] || IsWhitespace(x[0])
    ensures SplitWhitespace(t + x) == [t] + SplitWhitespace(x)
  {
    var s := t + x;
    assert s[0] == t[0];
    assert SpaceRun(s) == 0;
    WordRunOf(t, x);
    assert s[..|t|] == t && s[|t|..] == x;
  }

  lemma {:induction false} WordRunOf(t: string, x: string)
    requires forall i :: 0 <= i < |t| ==> !IsWhitespace(t[i])
    requires x == [] || IsWhitespace(x[0])
    ensures WordRun(t + x) == |t|
  {
    if t != [] {
      var s := t + x;
      assert s[0] == t[0] && s[1..] == t[1..] + x;
      WordRunOf(t[1..], x);
    } else {
      assert t + x == x;
    }
  }

  /** Splitting undoes writing tokens out with spaces between them. */
  lemma {:induction false} SplitJoinRoundTrip(tokens: seq<string>)
    requires forall i :: 0 <= i < |tokens| ==> IsToken(tokens[i])
    ensures SplitWhitespace(JoinSpaced(tokens)) == tokens
  {
    if tokens == [] {
    } else if |tokens| == 1 {
      SplitToken(tokens[0], []);
      assert tokens[0] + [] == tokens[0];
    } else {
      SplitJoinRoundTrip(tokens[1..]);
      SplitSpacedToken(tokens[0], JoinSpaced(tokens[1..]));
      assert [tokens[0]] + tokens[1..] == tokens;
    }
  }

  lemma SplitSpacedToken(t: string, rest: string)
    requires IsToken(t)
    ensures SplitWhitespace(t + " " + rest) == [t] + SplitWhitespace(rest)
  {
    var x := [' '] + rest;
    assert IsWhitespace(x[0]);
    SplitSkipsSpace(' ', rest);
    SplitToken(t, x);
    assert t + " " + rest == t + x;
  }

  // ---------------------------------------------------------------------
  // Two files

  lemma EndsInNewline(s: string)
    requires s != [] && s[|s| - 1] == '\n'
    ensures !Stalls(s, GitIgnore) && !Stalls(s, DarcsBoring)
  {
  }

  /** Rewriting glob characters introduces no whitespace. */
  lemma {:induction false} EscapeAllToken(p: string)
    requires forall i :: 0 <= i < |p| ==> !IsWhitespace(p[i])
    ensures forall i :: 0 <= i < |EscapeAll(p)| ==> !IsWhitespace(EscapeAll(p)[i])
    ensures |EscapeAll(p)| >= |p|
  {
    if p != [] {
      EscapeAllToken(p[1..]);
      var e, rest := Escape(p[0]), EscapeAll(p[1..]);
      assert EscapeAll(p) == e + rest;
      forall i | 0 <= i < |e + rest| ensures !IsWhitespace((e + rest)[i]) {
        if i >= |e| {
          assert (e + rest)[i] == rest[i - |e|];
        }
      }
    }
  }

  /** The regex a single pattern line becomes: its glob characters rewritten,
      anchored with `$` unless it ends in `*` or `?`. */
  function LineRegex(p: string): string
    requires p != []
  {
    if p[|p| - 1] == '*' || p[|p| - 1] == '?' then EscapeAll(p) else EscapeAll(p) + "$"
  }

  /** A last line keeps its newline after its regex only when anchored. */
  lemma LastLineRegex(p: string)
    requires p != []
    requires forall i :: 0 <= i < |p| ==> p[i] != '#' && p[i] != '\n'
    ensures Rewrite(p + "\n", GitIgnore)
      == if p[|p| - 1] == '*' || p[|p| - 1] == '?' then LineRegex(p) else LineRegex(p) + "\n"
  {
    LastLineAnchored(p);
    var e := EscapeAll(p);
    if !(p[|p| - 1] == '*' || p[|p| - 1] == '?') {
      assert e + "$\n" == (e + "$") + "\n";
    }
  }

  lemma LineRegexToken(p: string)
    requires p != []
    requires forall i :: 0 <= i < |p| ==> !IsWhitespace(p[i])
    ensures IsToken(LineRegex(p))
  {
    EscapeAllToken(p);
    var e := EscapeAll(p);
    forall i | 0 <= i < |LineRegex(p)| ensures !IsWhitespace(LineRegex(p)[i]) {
      if i < |e| {
        assert LineRegex(p)[i] == e[i];
      }
    }
  }

  /** A `.gitignore` of one pattern line gives exactly one regex. */
  lemma SingleLineFile(p: string, compiles: seq<string> -> bool)
    requires p != [] && p[0] != '#'
    requires forall i :: 0 <= i < |p| ==> p[i] != '#' && !IsWhitespace(p[i])
    ensures FileContentsToRegex(p + "\n", compiles).patterns
      == if compiles([LineRegex(p)]) then [LineRegex(p)] else []
  {
    var file := p + "\n";
    FileContentsToRegexMeaning(file, compiles);
    var glob := p[|p| - 1] == '*' || p[|p| - 1] == '?';
    var t := if glob then LineRegex(p) else LineRegex(p) + "\n";
    assert Translation(file, GitIgnore) == t by {
      assert file[0] == p[0];
      EndsInNewline(file);
      LastLineRegex(p);
    }
    assert SplitWhitespace(t) == [LineRegex(p)] by {
      LineRegexToken(p);
      if glob {
        SplitToken(LineRegex(p), []);
        assert LineRegex(p) + [] == LineRegex(p);
      } else {
        SplitToken(LineRegex(p), "\n");
        SplitSkipsSpace('\n', []);
        assert ['\n'] + [] == "\n";
      }
    }
  }
}
