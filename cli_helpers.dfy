/** The command-line value readers of `src/cli_helpers.rs`: the byte
    threshold (`30M`, `4k`, ...), the depth and count arguments, the
    directory argument and the exclusion pattern. */
module CliHelpers {
  import opened Wrappers
  import opened Nom

  // ---------------------------------------------------------------------
  // Decimal numbers

  predicate IsDigit(c: char)
  {
    '0' <= c <= '9'
  }

  function DigitValue(c: char): nat
    requires IsDigit(c)
  {
    c as int - '0' as int
  }

  predicate AllDigits(s: string)
  {
    forall i :: 0 <= i < |s| ==> IsDigit(s[i])
  }

  /** The number a string of decimal digits denotes. */
  function DecimalValue(ds: string): nat
    requires AllDigits(ds)
  {
    if ds == [] then 0 else 10 * DecimalValue(ds[..|ds| - 1]) + DigitValue(ds[|ds| - 1])
  }

  /** The decimal rendering of `n`, without leading zeros. */
  function Decimal(n: nat): (r: string)
    ensures r != [] && AllDigits(r)
  {
    if n < 10 then ['0' + n as char] else Decimal(n / 10) + ['0' + (n % 10) as char]
  }

  /** `str::parse` for an unsigned integer type whose largest value is `max`:
      an optional `+`, then one or more digits, and no overflow. */
  function ParseUnsigned(s: string, max: nat): Option<nat>
  {
    var ds := if s != [] && s[0] == '+' then s[1..] else s;
    if ds == [] || !AllDigits(ds) || DecimalValue(ds) > max then None
    else Some(DecimalValue(ds))
  }

  lemma {:induction false} DecimalRoundTrip(n: nat)
    ensures DecimalValue(Decimal(n)) == n
  {
    if n >= 10 {
      DecimalRoundTrip(n / 10);
      var r := Decimal(n);
      assert r[..|r| - 1] == Decimal(n / 10);
    }
  }

  /** Parsing undoes rendering, for every value of the type. */
  lemma ParseDecimal(n: nat, max: nat)
    requires n <= max
    ensures ParseUnsigned(Decimal(n), max) == Some(n)
    ensures ParseUnsigned("+" + Decimal(n), max) == Some(n)
  {
    DecimalRoundTrip(n);
    assert ("+" + Decimal(n))[1..] == Decimal(n);
  }

  /** Values beyond the type, text with a non-digit and the empty text are
      all rejected. */
  lemma ParseRejects(s: string, max: nat)
    requires s == [] || (s[0] != '+' && !AllDigits(s)) || (AllDigits(s) && DecimalValue(s) > max)
    ensures ParseUnsigned(s, max) == None
  {
  }

  // ---------------------------------------------------------------------
  // The threshold grammar

  /** `char!(c)` on the bytes of the argument. */
  function Char(s: string, c: char): IResult<char>
  {
    if s == [] then Incomplete else if s[0] == c then Done(s[1..], c) else Error
  }

  /** `alt!(char!(alts[0]) | char!(alts[1]) | ...)`. */
  function CharAlt(s: string, alts: string): (r: IResult<char>)
    requires alts != []
    ensures r.Incomplete? <==> s == []
    ensures r.Done? <==> s != [] && s[0] in alts
    ensures r.Done? ==> r.rest == s[1..] && r.out == s[0]
  {
    if |alts| == 1 then Char(s, alts[0])
    else Alt(Char(s, alts[0]), CharAlt(s, alts[1..]))
  }

  /** `digit_char`: one ASCII digit. */
  function DigitChar(s: string): (r: IResult<char>)
    ensures r.Incomplete? <==> s == []
    ensures r.Done? <==> s != [] && IsDigit(s[0])
    ensures r.Done? ==> r.rest == s[1..] && r.out == s[0]
  {
    var r := CharAlt(s, "1234567890");
    assert s != [] && IsDigit(s[0]) ==> s[0] in "1234567890" by {
      if s != [] && IsDigit(s[0]) {
        var i := DigitValue(s[0]);
        assert s[0] == "0123456789"[i];
      }
    }
    r
  }

  /** The loop of `many1!` after its first item: digits up to the first
      non-digit or the end of the input. */
  function MoreDigits(s: string): (r: IResult<string>)
    ensures r.Done? && r.out + r.rest == s && AllDigits(r.out)
    ensures r.rest != [] ==> !IsDigit(r.rest[0])
  {
    if s == [] then Done(s, [])
    else
      match DigitChar(s)
      case Done(r, c) =>
        (match MoreDigits(r)
         case Done(r2, cs) => DigitsCons(s, cs, r2); Done(r2, [c] + cs)
         case Error => Error
         case Incomplete => Incomplete)
      case Error => Done(s, [])
      case Incomplete => Incomplete
  }

  lemma DigitsCons(s: string, cs: string, rest: string)
    requires s != [] && IsDigit(s[0]) && cs + rest == s[1..] && AllDigits(cs)
    ensures [s[0]] + cs + rest == s && AllDigits([s[0]] + cs)
  {
    assert s == [s[0]] + s[1..];
  }

  /** `many1!(digit_char)`. */
  function Many1Digits(s: string): IResult<string>
  {
    match DigitChar(s)
    case Error => Error
    case Incomplete => Incomplete
    case Done(r, c) =>
      match MoreDigits(r)
      case Done(r2, cs) => Done(r2, [c] + cs)
      case Error => Error
      case Incomplete => Incomplete
  }

  /** `alt!(tag!("M") | tag!("G") | tag!("k") | tag!("b"))`. */
  function SizeTag(s: string): IResult<string>
  {
    Alt(Tag(s, "M"), Alt(Tag(s, "G"), Alt(Tag(s, "k"), Tag(s, "b"))))
  }

  const DefaultThreshold: u64 := 1048576

  /** `to_u64`: the digits as a `u64`, scaled by the unit; an unknown unit
      exits with code 0x0f01. Parsing and scaling panic on overflow. */
  function ToU64(nums: string, sizeTag: string): Outcome<u64>
  {
    if nums == [] || !AllDigits(nums) || DecimalValue(nums) > U64_MAX then Panic
    else
      var n := DecimalValue(nums);
      var scaled :=
        if sizeTag == "G" then Some(n * 1073741824)
        else if sizeTag == "M" then Some(n * 1048576)
        else if sizeTag == "k" then Some(n * 1024)
        else if sizeTag == "b" then Some(n)
        else None;
      match scaled
      case None => Exit(0x0f01)
      case Some(v) => if v > U64_MAX then Panic else Value(v)
  }

  /** `get_threshold`: digits, then a unit. */
  function GetThreshold(s: string): IResult<Outcome<u64>>
  {
    match Many1Digits(s)
    case Error => Error
    case Incomplete => Incomplete
    case Done(r, nums) =>
      match SizeTag(r)
      case Error => Error
      case Incomplete => Incomplete
      case Done(r2, tag) => Done(r2, ToU64(nums, tag))
  }

  /** `pre_threshold`: the parsed threshold, or 1 MiB (after a warning) when
      the argument does not parse. */
  function PreThreshold(t: string): Outcome<u64>
  {
    match GetThreshold(t)
    case Done(_, n) => n
    case _ => Value(DefaultThreshold)
  }

  /** `threshold`: `Option::map(pre_threshold)`. */
  function Threshold(s: Option<string>): (r: Outcome<Option<u64>>)
    ensures s.None? ==> r == Value(None)
    ensures s.Some? ==> match PreThreshold(s.value)
      case Value(n) => r == Value(Some(n))
      case Panic => r == Panic
      case Exit(c) => r == Exit(c)
  {
    match s
    case None => Value(None)
    case Some(t) =>
      match PreThreshold(t)
      case Value(n) => Value(Some(n))
      case Panic => Panic
      case Exit(c) => Exit(c)
  }

  // ---------------------------------------------------------------------
  // What the threshold grammar accepts

  /** How many bytes one unit of each suffix stands for. */
  function UnitBytes(c: char): nat
  {
    match c
    case 'G' => 1024 * 1024 * 1024
    case 'M' => 1024 * 1024
    case 'k' => 1024
    case _ => 1
  }

  predicate IsUnit(c: char)
  {
    c == 'M' || c == 'G' || c == 'k' || c == 'b'
  }

  function LeadingDigits(s: string): (n: nat)
    ensures n <= |s| && AllDigits(s[..n])
    ensures n < |s| ==> !IsDigit(s[n])
  {
    if s == [] || !IsDigit(s[0]) then 0
    else
      var n := 1 + LeadingDigits(s[1..]);
      assert s[..n] == [s[0]] + s[1..][..n - 1];
      n
  }

  lemma {:induction false} MoreDigitsSplit(s: string)
    ensures MoreDigits(s) == Done(s[LeadingDigits(s)..], s[..LeadingDigits(s)])
  {
    if s != [] && IsDigit(s[0]) {
      MoreDigitsSplit(s[1..]);
      var n := LeadingDigits(s);
      assert s[1..][n - 1..] == s[n..];
      assert s[..n] == [s[0]] + s[1..][..n - 1];
    }
  }

  lemma Many1DigitsSplit(s: string)
    ensures Many1Digits(s).Incomplete? <==> s == []
    ensures Many1Digits(s).Done? <==> LeadingDigits(s) > 0
    ensures Many1Digits(s).Done? ==>
      Many1Digits(s) == Done(s[LeadingDigits(s)..], s[..LeadingDigits(s)])
  {
    if s != [] && IsDigit(s[0]) {
      Many1DigitsIsMore(s);
      MoreDigitsSplit(s);
    } else {
      assert LeadingDigits(s) == 0;
    }
  }

  /** Once the first digit is there, `many1!` and `many0!` agree. */
  lemma Many1DigitsIsMore(s: string)
    requires s != [] && IsDigit(s[0])
    ensures Many1Digits(s) == MoreDigits(s)
  {
    assert DigitChar(s) == Done(s[1..], s[0]);
  }

  lemma SizeTagResult(r: string)
    ensures SizeTag(r) == if r == [] then Incomplete else if IsUnit(r[0]) then Done(r[1..], [r[0]]) else Error
  {
    if r != [] {
      assert Tag(r, "M").Done? <==> r[0] == 'M';
      assert Tag(r, "G").Done? <==> r[0] == 'G';
      assert Tag(r, "k").Done? <==> r[0] == 'k';
      assert Tag(r, "b").Done? <==> r[0] == 'b';
    }
  }

  lemma ToU64Unit(nums: string, c: char)
    requires nums != [] && AllDigits(nums) && IsUnit(c)
    ensures var v := DecimalValue(nums);
      ToU64(nums, [c]) == if v > U64_MAX || v * UnitBytes(c) > U64_MAX then Panic else Value(v * UnitBytes(c))
  {
  }

  /** The threshold grammar accepts exactly one or more ASCII digits followed
      by one of the case-sensitive units `M`, `G`, `k`, `b`; whatever follows
      the unit is ignored. Anything else is 1 MiB. An accepted threshold is
      the number times the unit, and a number or product beyond `u64` panics. */
  lemma ThresholdGrammar(t: string)
    ensures var n := LeadingDigits(t);
      PreThreshold(t) ==
        if 0 < n < |t| && IsUnit(t[n]) then
          var v := DecimalValue(t[..n]);
          if v > U64_MAX || v * UnitBytes(t[n]) > U64_MAX then Panic else Value(v * UnitBytes(t[n]))
        else Value(DefaultThreshold)
  {
    Many1DigitsSplit(t);
    var n := LeadingDigits(t);
    if 0 < n {
      SizeTagResult(t[n..]);
      if n < |t| {
        assert t[n..][0] == t[n];
        if IsUnit(t[n]) {
          ToU64Unit(t[..n], t[n]);
          assert GetThreshold(t) == Done(t[n + 1..], ToU64(t[..n], [t[n]]));
        }
      }
    }
  }

  /** A threshold never reaches the unknown-unit exit of `to_u64`. */
  lemma ThresholdNeverExits(t: string)
    ensures !PreThreshold(t).Exit?
  {
    ThresholdGrammar(t);
  }

  /** Text after the unit does not change the threshold. */
  lemma ThresholdIgnoresTrailing(digits: string, unit: char, tail: string)
    requires digits != [] && AllDigits(digits) && IsUnit(unit)
    ensures PreThreshold(digits + [unit] + tail) == PreThreshold(digits + [unit])
  {
    var a, b := digits + [unit] + tail, digits + [unit];
    LeadingDigitsOf(digits, [unit] + tail);
    LeadingDigitsOf(digits, [unit]);
    assert a == digits + ([unit] + tail);
    assert a[..|digits|] == digits && b[..|digits|] == digits;
    ThresholdGrammar(a);
    ThresholdGrammar(b);
  }

  lemma {:induction false} LeadingDigitsOf(digits: string, rest: string)
    requires AllDigits(digits)
    requires rest == [] || !IsDigit(rest[0])
    ensures LeadingDigits(digits + rest) == |digits|
  {
    if digits != [] {
      assert (digits + rest)[1..] == digits[1..] + rest;
      LeadingDigitsOf(digits[1..], rest);
    } else {
      assert digits + rest == rest;
    }
  }

  /** `30M` is thirty mebibytes. */
  lemma ThirtyMegabytes()
    ensures PreThreshold("30M") == Value(31457280)
  {
    LeadingDigitsOf("30", "M");
    assert "30M" == "30" + "M";
    assert DecimalValue("30") == 30 by {
      assert "30"[..1] == "3";
      assert DecimalValue("3") == 3 by {
        assert "3"[..0] == [];
      }
    }
    ThresholdGrammar("30M");
  }

  /** With no unit, or with a unit in the wrong case, the threshold is 1 MiB. */
  lemma ThresholdFallback(digits: string, tail: string)
    requires digits != [] && AllDigits(digits)
    requires tail == [] || (!IsDigit(tail[0]) && !IsUnit(tail[0]))
    ensures PreThreshold(digits + tail) == Value(1048576)
  {
    LeadingDigitsOf(digits, tail);
    var t := digits + tail;
    if tail != [] {
      assert t[|digits|] == tail[0];
    }
    ThresholdGrammar(t);
  }

  // ---------------------------------------------------------------------
  // The other arguments

  const U8_MAX: nat := 255
  /** `usize` on the 64-bit targets the tool is built for. */
  const USIZE_MAX: nat := U64_MAX

  /** `get_depth`: the depth argument as a `u8`, 2 by default; text that is
      not a `u8` panics. */
  function GetDepth(depth: Option<string>): (r: Outcome<nat>)
    ensures depth.None? ==> r == Value(2)
    ensures depth.Some? ==> (r.Value? <==> ParseUnsigned(depth.value, U8_MAX).Some?) && !r.Exit?
    ensures depth.Some? && r.Value? ==> ParseUnsigned(depth.value, U8_MAX) == Some(r.value)
    ensures r.Value? ==> r.value <= U8_MAX
  {
    match depth
    case None => Value(2)
    case Some(n) =>
      match ParseUnsigned(n, U8_MAX)
      case Some(v) => Value(v)
      case None => Panic
  }

  /** `get_num`: the count argument as a `usize`, 8 by default; text that is
      not a `usize` panics. */
  function GetNum(num: Option<string>): (r: Outcome<nat>)
    ensures num.None? ==> r == Value(8)
    ensures num.Some? ==> (r.Value? <==> ParseUnsigned(num.value, USIZE_MAX).Some?) && !r.Exit?
    ensures num.Some? && r.Value? ==> ParseUnsigned(num.value, USIZE_MAX) == Some(r.value)
    ensures r.Value? ==> r.value <= USIZE_MAX
  {
    match num
    case None => Value(8)
    case Some(n) =>
      match ParseUnsigned(n, USIZE_MAX)
      case Some(v) => Value(v)
      case None => Panic
  }

  /** Every depth the type can hold is read back from its decimal form. */
  lemma GetDepthRoundTrip(d: nat)
    requires d <= U8_MAX
    ensures GetDepth(Some(Decimal(d))) == Value(d)
  {
    ParseDecimal(d, U8_MAX);
  }

  lemma GetNumRoundTrip(n: nat)
    requires n <= USIZE_MAX
    ensures GetNum(Some(Decimal(n))) == Value(n)
  {
    ParseDecimal(n, USIZE_MAX);
  }

  /** `get_dir`: the directory argument as a path, `.` by default. */
  function GetDir(path: Option<string>): (r: string)
    ensures path.Some? ==> r == path.value
    ensures path.None? ==> r == "."
  {
    match path
    case Some(p) => p
    case None => "."
  }

  /** The pattern that `get_excludes` uses when none is given. */
  const DefaultExcludes: string := "\\.git/"

  const InvalidRegexExit: nat := 0x0f01

  /** `get_excludes` as written: the user's pattern is compiled unchanged
      (`check_regex` exits with code 0x0f01 when the regex engine, the oracle
      `compiles`, rejects it), since the `|\.git` alternative is appended to
      a temporary copy that is then dropped. */
  function GetExcludes(excludes: Option<string>, compiles: string -> bool): (r: Outcome<string>)
    ensures !r.Panic?
    ensures excludes.None? ==> r == Value(DefaultExcludes)
    ensures excludes.Some? ==>
      r == (if compiles(excludes.value) then Value(excludes.value) else Exit(InvalidRegexExit))
  {
    match excludes
    case None => Value(DefaultExcludes)
    case Some(x) => if compiles(x) then Value(x) else Exit(InvalidRegexExit)
  }

  /** `get_excludes` as its code evidently intends: the user's pattern with a
      `\.git` alternative added. */
  function GetExcludesIntended(excludes: Option<string>, compiles: string -> bool): (r: Outcome<string>)
    ensures !r.Panic?
    ensures excludes.None? ==> r == Value(DefaultExcludes)
    ensures excludes.Some? ==>
      r == (if compiles(excludes.value + "|\\.git") then Value(excludes.value + "|\\.git")
            else Exit(InvalidRegexExit))
  {
    match excludes
    case None => Value(DefaultExcludes)
    case Some(x) => var p := x + "|\\.git"; if compiles(p) then Value(p) else Exit(InvalidRegexExit)
  }

  /** The text of an exclusion pattern names `.git`: it is the default
      itself, or it ends in the `|\.git` alternative. This is a statement
      about the text only; whether the regex engine then reads that last
      `|` as an alternation (it does not after an odd number of
      backslashes, nor inside a verbose-mode comment) is not modelled. */
  predicate EndsWithGitAlternative(src: string)
  {
    src == DefaultExcludes || (|src| >= 6 && src[|src| - 6..] == "|\\.git")
  }

  /** As written, a user pattern loses the `.git` exclusion. */
  lemma GetExcludesDropsGit(compiles: string -> bool)
    requires compiles("target")
    ensures GetExcludes(Some("target"), compiles) == Value("target")
    ensures !EndsWithGitAlternative(GetExcludes(Some("target"), compiles).value)
  {
    assert "target"[0] != '\\';
    assert "target"[|"target"| - 6..] == "target";
  }

  /** As intended, every pattern that compiles ends in the `|\.git`
      alternative, and it compiles exactly when the extended text does. */
  lemma GetExcludesIntendedKeepsGit(excludes: Option<string>, compiles: string -> bool)
    ensures var r := GetExcludesIntended(excludes, compiles);
      r.Value? ==> EndsWithGitAlternative(r.value)
    ensures excludes.Some? ==>
      (GetExcludesIntended(excludes, compiles).Value? <==> compiles(excludes.value + "|\\.git"))
  {
    if excludes.Some? {
      var p := excludes.value + "|\\.git";
      assert p[|p| - 6..] == "|\\.git";
    }
  }

  /** The two versions agree when no pattern is given; given one, the
      intended pattern is the written one with the `|\.git` alternative
      appended, whenever both compile. */
  lemma WrittenVersusIntended(excludes: Option<string>, compiles: string -> bool)
    ensures excludes.None? ==> GetExcludes(excludes, compiles) == GetExcludesIntended(excludes, compiles)
    ensures excludes.Some? && GetExcludes(excludes, compiles).Value?
            && GetExcludesIntended(excludes, compiles).Value? ==>
      GetExcludesIntended(excludes, compiles).value == GetExcludes(excludes, compiles).value + "|\\.git"
  {
  }
}
