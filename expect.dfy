/**
 * The pattern-matching layer of the expect engine (src/expect.rs).
 *
 * A pattern looks at the window of bytes read so far and at a flag telling
 * whether the stream has ended, and reports either no match or a half-open
 * span [start, end) of the window.  The four kinds of pattern are a literal
 * byte string, a byte count, end-of-stream and a regular expression.
 */
module Patterns {
  import opened Wrappers

  type byte = bv8

  /** A half-open span [start, end) of the window; `Match::new`, `start()` and `end()`. */
  datatype Match = Match(start: nat, end: nat)

  /** The one error this layer raises: a regular expression that does not compile. */
  datatype Error = RegexParsing

  /**
   * The regular-expression engine, which is not part of this model: whether
   * a pattern compiles, and the match it finds in a window.
   */
  datatype RegexEngine = RegexEngine(compiles: string -> bool, find: (string, seq<byte>) -> Option<Match>)

  /**
   * The implementors of the `Expect` trait.  `Literal` stands for every
   * `AsRef<[u8]>` value (`&str`, `String`, byte strings, byte arrays).
   */
  datatype Pattern =
    | Literal(needle: seq<byte>)
    | NBytes(count: nat)
    | Eof
    | Regex(source: string)

  /**
   * The needle is found at index `i` of the window, counting only the
   * indexes the search visits (`i < |buf|`).
   */
  ghost predicate OccursAt(needle: seq<byte>, buf: seq<byte>, i: nat) {
    i < |buf| && i + |needle| <= |buf| && buf[i..i + |needle|] == needle
  }

  /** `r` is the result of a leftmost search for `needle` in `buf`. */
  ghost predicate IsLeftmost(needle: seq<byte>, buf: seq<byte>, r: Option<Match>) {
    match r
    case None => forall i: nat :: !OccursAt(needle, buf, i)
    case Some(m) =>
      && OccursAt(needle, buf, m.start)
      && m.end == m.start + |needle|
      && forall i: nat :: i < m.start ==> !OccursAt(needle, buf, i)
  }

  /** At most one result is a leftmost search result. */
  lemma LeftmostUnique(needle: seq<byte>, buf: seq<byte>, r1: Option<Match>, r2: Option<Match>)
    requires IsLeftmost(needle, buf, r1) && IsLeftmost(needle, buf, r2)
    ensures r1 == r2
  {
  }

  /** The search loop of the literal matcher, from index `from` on. */
  function SearchFrom(needle: seq<byte>, buf: seq<byte>, from: nat): (r: Option<Match>)
    ensures r.None? ==> forall i: nat :: from <= i ==> !OccursAt(needle, buf, i)
    ensures r.Some? ==>
      && from <= r.value.start
      && OccursAt(needle, buf, r.value.start)
      && r.value.end == r.value.start + |needle|
      && forall i: nat :: from <= i < r.value.start ==> !OccursAt(needle, buf, i)
    decreases |buf| - from
  {
    if from >= |buf| then None
    else if from + |needle| > |buf| then None
    else if buf[from..from + |needle|] == needle then Some(Match(from, from + |needle|))
    else SearchFrom(needle, buf, from + 1)
  }

  /** The literal matcher: the leftmost occurrence of `needle` in `buf`. */
  function FindLiteral(needle: seq<byte>, buf: seq<byte>): (r: Option<Match>)
    ensures IsLeftmost(needle, buf, r)
  {
    if |buf| < |needle| then None else SearchFrom(needle, buf, 0)
  }

  /**
   * The literal matcher as the source runs it: a scan of every left bound
   * with early returns.
   */
  method ScanLiteral(needle: seq<byte>, buf: seq<byte>) returns (r: Option<Match>)
    ensures IsLeftmost(needle, buf, r)
    ensures r == FindLiteral(needle, buf)
  {
    if |buf| < |needle| {
      r := None;
    } else {
      r := None;
      var lBound := 0;
      while lBound < |buf|
        invariant lBound <= |buf|
        invariant forall i: nat :: i < lBound ==> !OccursAt(needle, buf, i)
      {
        var rBound := lBound + |needle|;
        if rBound > |buf| {
          break;
        }
        if needle == buf[lBound..rBound] {
          r := Some(Match(lBound, rBound));
          break;
        }
        lBound := lBound + 1;
      }
    }
    LeftmostUnique(needle, buf, r, FindLiteral(needle, buf));
  }

  /**
   * `Expect::expect` for every pattern.  Only a regular expression can fail,
   * and every other pattern reports a span that lies inside the window.
   */
  function Expect(p: Pattern, buf: seq<byte>, eof: bool, engine: RegexEngine): (r: Result<Option<Match>, Error>)
    ensures r.Err? ==> p.Regex? && r.error == RegexParsing
    ensures !p.Regex? && r.Ok? && r.value.Some? ==> r.value.value.start <= r.value.value.end <= |buf|
  {
    match p
    // the literal matcher: the leftmost occurrence of the needle
    case Literal(needle) => Ok(FindLiteral(needle, buf))
    // the first `n` bytes, once the window holds more than `n`
    case NBytes(n) => Ok(if |buf| > n then Some(Match(0, n)) else None)
    // the whole window, once the stream has ended
    case Eof => Ok(if eof then Some(Match(0, |buf|)) else None)
    // compile the expression, then let the engine search the window
    case Regex(source) =>
      if engine.compiles(source) then Ok(engine.find(source, buf)) else Err(RegexParsing)
  }
}
