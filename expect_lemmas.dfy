/** Properties of the pattern matchers of src/expect.rs. */
module ExpectLemmas {
  import opened Wrappers
  import opened Patterns
  import opened Capturing

  /** `Match::new(s, e)` gives back `s` from `start()` and `e` from `end()`. */
  lemma MatchRoundTrip(s: nat, e: nat)
    ensures Match(s, e).start == s && Match(s, e).end == e
  {
  }

  /**
   * `Eof` never fails; it matches exactly when the stream has ended, and then
   * it captures the whole window with nothing before or after it.
   */
  lemma EofMatchesWholeWindow(buf: seq<byte>, eof: bool, engine: RegexEngine)
    ensures Expect(Eof, buf, eof, engine).Ok?
    ensures Expect(Eof, buf, eof, engine).value.Some? <==> eof
    ensures eof ==> Expect(Eof, buf, eof, engine) == Ok(Some(Match(0, |buf|)))
    ensures Expect(Eof, buf, eof, engine).value.Some? ==>
      var c := Split(buf, Expect(Eof, buf, eof, engine).value.value);
      c.before == [] && c.found == buf && c.rest == []
  {
  }

  /**
   * `NBytes(n)` never fails; it matches exactly when the window holds MORE
   * than `n` bytes (a window of exactly `n` bytes gives no match), and then
   * it captures the first `n` bytes, nothing before them and at least one
   * byte after them.
   */
  lemma NBytesMatchesStrictlyLonger(n: nat, buf: seq<byte>, eof: bool, engine: RegexEngine)
    ensures Expect(NBytes(n), buf, eof, engine).Ok?
    ensures Expect(NBytes(n), buf, eof, engine).value.Some? <==> |buf| > n
    ensures |buf| == n ==> Expect(NBytes(n), buf, eof, engine) == Ok(None)
    ensures Expect(NBytes(n), buf, eof, engine).value.Some? ==>
      var m := Expect(NBytes(n), buf, eof, engine).value.value;
      && m == Match(0, n)
      && m.end < |buf|
      && var c := Split(buf, m);
         c.before == [] && c.found == buf[..n] && c.rest != []
  {
  }

  /**
   * Literal soundness: a match covers `|needle|` bytes of the window, they
   * are the needle, and they are what the split reports as found.
   */
  lemma LiteralSound(needle: seq<byte>, buf: seq<byte>, eof: bool, engine: RegexEngine)
    requires Expect(Literal(needle), buf, eof, engine).Ok?
    requires Expect(Literal(needle), buf, eof, engine).value.Some?
    ensures var m := Expect(Literal(needle), buf, eof, engine).value.value;
      && m.end == m.start + |needle|
      && m.start < |buf|
      && m.end <= |buf|
      && buf[m.start..m.end] == needle
      && Split(buf, m).found == needle
  {
  }

  /** Literal leftmost: the needle occurs at no index before the reported start. */
  lemma LiteralLeftmost(needle: seq<byte>, buf: seq<byte>, eof: bool, engine: RegexEngine)
    requires Expect(Literal(needle), buf, eof, engine).Ok?
    requires Expect(Literal(needle), buf, eof, engine).value.Some?
    ensures var m := Expect(Literal(needle), buf, eof, engine).value.value;
      forall i: nat :: i < m.start ==> !OccursAt(needle, buf, i)
  {
  }

  /**
   * Literal completeness: there is no match exactly when the needle occurs
   * at no index `i < |buf|` with `i + |needle| <= |buf|`.
   */
  lemma LiteralComplete(needle: seq<byte>, buf: seq<byte>, eof: bool, engine: RegexEngine)
    ensures Expect(Literal(needle), buf, eof, engine) == Ok(None) <==>
      forall i: nat :: !OccursAt(needle, buf, i)
  {
  }

  /**
   * Literal edge cases: no match in a window shorter than the needle, no
   * match in an empty window (even for an empty needle), and an empty needle
   * matches the empty span at 0 of any non-empty window.
   */
  lemma LiteralEdgeCases(needle: seq<byte>, buf: seq<byte>, eof: bool, engine: RegexEngine)
    ensures |buf| < |needle| ==> Expect(Literal(needle), buf, eof, engine) == Ok(None)
    ensures buf == [] ==> Expect(Literal(needle), buf, eof, engine) == Ok(None)
    ensures needle == [] && buf != [] ==> Expect(Literal(needle), buf, eof, engine) == Ok(Some(Match(0, 0)))
  {
    if needle == [] && buf != [] {
      assert OccursAt(needle, buf, 0);
    }
  }

  /**
   * Every pattern except `Eof` looks only at the window: the end-of-stream
   * flag does not change its result.
   */
  lemma EofFlagIgnored(p: Pattern, buf: seq<byte>, engine: RegexEngine)
    requires !p.Eof?
    ensures Expect(p, buf, true, engine) == Expect(p, buf, false, engine)
  {
  }

  /**
   * The only failure is a regular expression that does not compile, and it
   * is reported as `RegexParsing`; a regular expression that compiles
   * reports what the engine finds.
   */
  lemma OnlyRegexFails(p: Pattern, buf: seq<byte>, eof: bool, engine: RegexEngine)
    ensures Expect(p, buf, eof, engine).Err? <==> p.Regex? && !engine.compiles(p.source)
    ensures Expect(p, buf, eof, engine).Err? ==> Expect(p, buf, eof, engine).error == RegexParsing
    ensures p.Regex? && engine.compiles(p.source) ==> Expect(p, buf, eof, engine) == Ok(engine.find(p.source, buf))
  {
  }

  /**
   * A match found by a literal or byte-count pattern does not move when more
   * bytes are appended to the window: no later read can change it.
   */
  lemma {:induction false} MatchStableUnderAppend(p: Pattern, buf: seq<byte>, extra: seq<byte>, eof: bool, eof': bool, engine: RegexEngine)
    requires p.Literal? || p.NBytes?
    requires Expect(p, buf, eof, engine).Ok? && Expect(p, buf, eof, engine).value.Some?
    ensures Expect(p, buf + extra, eof', engine) == Expect(p, buf, eof, engine)
  {
    if p.Literal? {
      var needle, longer := p.needle, buf + extra;
      var r := FindLiteral(needle, buf);
      var m := r.value;
      assert longer[m.start..m.start + |needle|] == buf[m.start..m.start + |needle|];
      forall i: nat | i < m.start
        ensures !OccursAt(needle, longer, i)
      {
        assert !OccursAt(needle, buf, i);
        assert longer[i..i + |needle|] == buf[i..i + |needle|];
      }
      assert IsLeftmost(needle, longer, r);
      LeftmostUnique(needle, longer, r, FindLiteral(needle, longer));
    }
  }
}
