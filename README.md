# expectrl pattern matchers, modelled in Dafny

expectrl drives terminal programs and waits for their output to match a
pattern. This project models the layer that decides whether a pattern
matches: the `Expect` trait of `src/expect.rs` and its four implementors.
A matcher is given the window of bytes read so far and a flag that says
whether the stream has ended. It returns no match, a half-open span
`Match(start, end)` of the window, or an error.

- `Literal(needle)` stands for every `AsRef<[u8]>` value (`&str`, `String`,
  byte strings, byte arrays). It is a leftmost substring search over bytes.
  The search is modelled twice. `Patterns.FindLiteral` is a recursive
  function and the dispatcher uses it. `Patterns.ScanLiteral` is a method
  with the source's loop over left bounds. Both are proved against the
  predicate `IsLeftmost`, and the method is proved equal to the function.
- `NBytes(n)` matches the first `n` bytes, but only when the window holds
  MORE than `n` bytes.
- `Eof` matches the whole window, but only when the stream has ended.
- `Regex(source)` goes to a regular-expression engine. The engine is a
  parameter of `Patterns.Expect` with two parts: `compiles` and `find`.
  Only the error path and the handling of the end-of-stream flag are modelled.

`Capturing.Split` cuts the window by a match into the bytes before it, the
bytes it covers and the bytes after it. The integration tests read these
parts as `before_match`, `found_match` and the bytes still unread.

A needle "occurs at" index `i` (`Patterns.OccursAt`) when `i < |buf|`,
`i + |needle| <= |buf|` and `buf[i..i + |needle|] == needle`. The condition
`i < |buf|` comes from the loop range `0..buf.len()`. Because of it, an empty
needle does not match an empty window.

`NBytes(n)` needs strictly more than `n` bytes (`src/expect.rs:63`), so a
window of exactly `n` bytes gives no match. No matcher has a "need more
input" outcome: each answers match or no match.

Modules: `Wrappers` (`Option`, `Result`), `Patterns` (src/expect.rs),
`Capturing` (the split of a window by a match), `ExpectLemmas` (properties),
`ExpectTests` (the unit tests of src/expect.rs as lemmas).

## Model

| member | source | states |
|---|---|---|
| `Patterns.LeftmostUnique` | src/expect.rs:77-86 | at most one result is a leftmost search result, so the search is deterministic |
| `Patterns.SearchFrom` | src/expect.rs:77-86 | scanning from `from`: no match means the needle occurs at no index `>= from`; a match lies at an occurrence `>= from`, spans `|needle|` bytes, and no occurrence lies between `from` and it |
| `Patterns.FindLiteral` | src/expect.rs:70-90 | the literal matcher returns the leftmost occurrence of the needle, or none exactly when the needle occurs nowhere |
| `Patterns.ScanLiteral` | src/expect.rs:70-90 | the loop with early returns returns the leftmost occurrence, and the same result as `FindLiteral` |
| `Patterns.Expect` | src/expect.rs:33-90 | the four `Expect` impls (regex, `Eof`, `NBytes`, literal) in one dispatch: only a regex can fail, with `RegexParsing`; every match of a non-regex pattern lies inside the window |
| `Capturing.Split` | tests/expect.rs:35-41 | before, found and rest concatenate back to the window in order; before has `start` bytes and found has `end - start` |
| `ExpectLemmas.MatchRoundTrip` | src/expect.rs:14-24 | `Match::new(s, e)` gives back `s` from `start()` and `e` from `end()` |
| `ExpectLemmas.EofMatchesWholeWindow` | src/expect.rs:44-51 | `Eof` never fails; it matches iff the stream ended; then it captures the whole window with nothing before or after |
| `ExpectLemmas.NBytesMatchesStrictlyLonger` | src/expect.rs:61-67 | `NBytes(n)` never fails; it matches iff `|buf| > n`, so a window of exactly `n` bytes gives none; a match is `Match(0, n)` with `end < |buf|`, nothing before it, the first `n` bytes found and at least one byte left |
| `ExpectLemmas.LiteralSound` | src/expect.rs:77-85 | a literal match has `end == start + |needle|`, `start < |buf|`, `end <= |buf|`, covers exactly the needle, and the split finds the needle |
| `ExpectLemmas.LiteralLeftmost` | src/expect.rs:77-86 | the needle occurs at no index before the reported start |
| `ExpectLemmas.LiteralComplete` | src/expect.rs:70-90 | there is no literal match iff the needle occurs at no index `i < |buf|` with `i + |needle| <= |buf|` |
| `ExpectLemmas.LiteralEdgeCases` | src/expect.rs:73-88 | no match when the window is shorter than the needle; no match in an empty window, even for an empty needle; an empty needle matches `0..0` of a non-empty window |
| `ExpectLemmas.EofFlagIgnored` | src/expect.rs:35-71 | for every pattern except `Eof`, the end-of-stream flag does not change the result |
| `ExpectLemmas.OnlyRegexFails` | src/expect.rs:35-39 | the result is an error iff the pattern is a regex that does not compile; the error is `RegexParsing`; a compiling regex returns what the engine finds |
| `ExpectLemmas.MatchStableUnderAppend` | src/expect.rs:61-86 | a match of a literal or byte-count pattern is unchanged when more bytes are appended to the window, whatever the end-of-stream flag |
| `ExpectTests.EofTest` | src/expect.rs:110-113 | `Eof` on "qwe" gives `0..3` after the end of the stream and no match before it |
| `ExpectTests.NBytesTest` | src/expect.rs:116-126 | on "qwe", `NBytes(1)` gives `0..1`, `NBytes(0)` gives `0..0`, `NBytes(10)` gives no match |
| `ExpectTests.LiteralFoundTest` | src/expect.rs:129-164 | in "qwerty", "wer" is found at `1..4`, "qwe" at `0..3`, and the empty literal at `0..0` |
| `ExpectTests.LiteralMissingTest` | src/expect.rs:134 | "123" is not found in "qwerty" |

## Left out

- The regex crate is not modelled. `Patterns.RegexEngine` stands for it: whether a pattern compiles, and the match `find` returns. The regex unit tests (src/expect.rs:96-107) depend on the engine and are not stated. The conversion from the crate's match type (src/expect.rs:27-31) is folded into `find`.
- The source recompiles the regex on every call. The model cannot tell this apart from compiling once.
- Integer width: positions are `nat`, not `usize`. The search computes `l_bound + |needle|` only with `|needle| <= |buf|` and `l_bound < |buf|`, and a window cannot be large enough to overflow.
- The session (src/session/mod.rs): process spawning, platform type aliases, stream logging and the interactive hand-off are operating-system I/O.
- The read, match and consume loop of a session, expect timeouts and the async variants are not part of this model. They depend on wall-clock time and concurrency. `Capturing.Split` gives only the parts that such a loop hands back.
- tests/repl.rs drives real shells and interpreters; it is process I/O.
