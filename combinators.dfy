/**
 The two parser combinators the ruby grammar is built from, `tag` and
 `take_while1` over complete `&str` input, as pure functions on code-point
 sequences. A parser either succeeds with the unconsumed input and the value
 it recognised, or fails; the library's error kinds are collapsed into one
 failure, since no caller inspects them.
 */
module Combinators {

  /** Outcome of running a parser: `Ok(rest, value)` mirrors `Ok((rest, value))`. */
  datatype IResult<T> = Ok(rest: string, value: T) | Fail

  /** `p` holds of every character of `s`. */
  ghost predicate All(p: char -> bool, s: string) {
    forall k :: 0 <= k < |s| ==> p(s[k])
  }

  /** Where a greedy scan for `p` must stop: at the end or before a character `p` rejects. */
  ghost predicate StopsScan(p: char -> bool, rest: string) {
    rest == [] || !p(rest[0])
  }

  /** Length of the longest prefix of `i` whose characters all satisfy `p`. */
  function PrefixLength(p: char -> bool, i: string): (n: nat)
    ensures n <= |i|
    ensures All(p, i[..n])
    ensures StopsScan(p, i[n..])
  {
    if |i| == 0 || !p(i[0]) then 0 else 1 + PrefixLength(p, i[1..])
  }

  /**
   `take_while1(p)`: consumes the longest non-empty prefix of characters that
   satisfy `p`, and fails when there is none.
   */
  function TakeWhile1(p: char -> bool, i: string): (r: IResult<string>)
    ensures r.Ok? <==> |i| > 0 && p(i[0])
    ensures r.Ok? ==> |r.value| > 0 && All(p, r.value) && r.value + r.rest == i
    ensures r.Ok? ==> StopsScan(p, r.rest)
  {
    var n := PrefixLength(p, i);
    if n == 0 then Fail else Ok(i[n..], i[..n])
  }

  /** The greedy scan over a run of `p` stops exactly at the end of the run. */
  lemma {:induction false} PrefixLengthOfRun(p: char -> bool, run: string, rest: string)
    requires All(p, run)
    requires StopsScan(p, rest)
    ensures PrefixLength(p, run + rest) == |run|
  {
    if run != [] {
      assert (run + rest)[1..] == run[1..] + rest;
      PrefixLengthOfRun(p, run[1..], rest);
    }
  }

  /**
   Maximal munch determines the split: a non-empty run of `p` followed by a
   point where the scan stops is exactly what `TakeWhile1` returns.
   */
  lemma TakeWhile1Unique(p: char -> bool, run: string, rest: string)
    requires |run| > 0 && All(p, run)
    requires StopsScan(p, rest)
    ensures TakeWhile1(p, run + rest) == Ok(rest, run)
  {
    PrefixLengthOfRun(p, run, rest);
    assert (run + rest)[..|run|] == run;
    assert (run + rest)[|run|..] == rest;
  }

  /** `tag(t)`: succeeds exactly when the input starts with the literal `t`, and consumes it. */
  function Tag(t: string, i: string): (r: IResult<string>)
    ensures r.Ok? <==> |t| <= |i| && i[..|t|] == t
    ensures r.Ok? ==> r.value == t && t + r.rest == i
  {
    if t <= i then Ok(i[|t|..], t) else Fail
  }

  /** A tag that is not empty always makes progress. */
  lemma TagShortens(t: string, i: string)
    requires |t| > 0 && Tag(t, i).Ok?
    ensures |Tag(t, i).rest| < |i|
  {
    assert |t + Tag(t, i).rest| == |i|;
  }
}
