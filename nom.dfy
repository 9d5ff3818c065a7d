/** The parts of the nom 3 parser-combinator library that the grammars of
    the tool use, on `&str` input. A parser ends `Done(rest, output)`, fails
    with `Error`, or asks for more input with `Incomplete`. */
module Nom {

  datatype IResult<T> = Done(rest: string, out: T) | Error | Incomplete

  /** The number of leading characters of `s` outside `stop`. */
  function RunLength(s: string, stop: set<char>): (n: nat)
    ensures n <= |s|
    ensures forall i :: 0 <= i < n ==> s[i] !in stop
    ensures n < |s| ==> s[n] in stop
  {
    if s == [] || s[0] in stop then 0 else 1 + RunLength(s[1..], stop)
  }

  /** `tag!(t)`: nom compares character by character; a mismatch is an
      `Error`, an input that runs out first is `Incomplete`. */
  function Tag(s: string, t: string): (r: IResult<string>)
    ensures r.Done? <==> |s| >= |t| && s[..|t|] == t
    ensures r.Done? ==> r.rest == s[|t|..] && r.out == t
    ensures r.Incomplete? <==> |s| < |t| && s == t[..|s|]
  {
    if |s| >= |t| && s[..|t|] == t then Done(s[|t|..], t)
    else if |s| < |t| && s == t[..|s|] then Incomplete
    else Error
  }

  /** `is_not!(stop)`: the longest non-empty run of characters outside
      `stop`; on the empty input it succeeds with an empty run. */
  function IsNot(s: string, stop: set<char>): (r: IResult<string>)
    ensures r.Error? <==> s != [] && s[0] in stop
    ensures r.Done? ==> r.out + r.rest == s && (forall c :: c in r.out ==> c !in stop)
                        && (r.rest != [] ==> r.rest[0] in stop)
    ensures !r.Incomplete?
  {
    var n := RunLength(s, stop);
    if n == 0 && s != [] then Error else Done(s[n..], s[..n])
  }

  /** Replaces the output of a successful parser (`do_parse!(... >> (out))`). */
  function Emit(p: IResult<string>, out: string): IResult<string>
  {
    match p
    case Done(r, _) => Done(r, out)
    case Error => Error
    case Incomplete => Incomplete
  }

  /** `alt!(a | b)`: `b` is tried only when `a` fails with `Error`. */
  function Alt<T>(a: IResult<T>, b: IResult<T>): IResult<T>
  {
    if a.Error? then b else a
  }

}
