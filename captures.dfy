/**
 * Splitting the window by a match into the bytes before it, the bytes it
 * covers and the bytes after it, which stay unread for the next call.
 */
module Capturing {
  import opened Patterns

  datatype Captures = Captures(before: seq<byte>, found: seq<byte>, rest: seq<byte>)

  /** The three parts partition the window in order, and the middle part is exactly the span. */
  function Split(buf: seq<byte>, m: Match): (c: Captures)
    requires m.start <= m.end <= |buf|
    ensures c.before + c.found + c.rest == buf
    ensures |c.before| == m.start && |c.found| == m.end - m.start
  {
    assert buf[..m.start] + buf[m.start..m.end] + buf[m.end..] == buf;
    Captures(buf[..m.start], buf[m.start..m.end], buf[m.end..])
  }
}
