/** The unit tests of src/expect.rs, stated as lemmas about the model. */
module ExpectTests {
  import opened Wrappers
  import opened Patterns

  /** The bytes of "qwerty". */
  const Qwerty: seq<byte> := [0x71, 0x77, 0x65, 0x72, 0x74, 0x79]
  /** The bytes of "qwe". */
  const Qwe: seq<byte> := [0x71, 0x77, 0x65]
  /** The bytes of "wer". */
  const Wer: seq<byte> := [0x77, 0x65, 0x72]
  /** The bytes of "123". */
  const Digits: seq<byte> := [0x31, 0x32, 0x33]

  lemma EofTest(engine: RegexEngine)
    ensures Expect(Eof, Qwe, true, engine) == Ok(Some(Match(0, 3)))
    ensures Expect(Eof, Qwe, false, engine) == Ok(None)
  {
  }

  lemma NBytesTest(engine: RegexEngine)
    ensures Expect(NBytes(1), Qwe, false, engine) == Ok(Some(Match(0, 1)))
    ensures Expect(NBytes(0), Qwe, false, engine) == Ok(Some(Match(0, 0)))
    ensures Expect(NBytes(10), Qwe, false, engine) == Ok(None)
  {
  }

  /** "wer" is found at 1..4 of "qwerty", "qwe" at 0..3, and the empty literal at 0..0. */
  lemma LiteralFoundTest(engine: RegexEngine)
    ensures Expect(Literal(Wer), Qwerty, false, engine) == Ok(Some(Match(1, 4)))
    ensures Expect(Literal(Qwe), Qwerty, false, engine) == Ok(Some(Match(0, 3)))
    ensures Expect(Literal([]), Qwerty, false, engine) == Ok(Some(Match(0, 0)))
  {
    assert Qwerty[0..3] != Wer by { assert Qwerty[0..3][0] != Wer[0]; }
    assert Qwerty[1..4] == Wer;
    assert Qwerty[0..3] == Qwe;
  }

  /** "123" is not found in "qwerty". */
  lemma LiteralMissingTest(engine: RegexEngine)
    ensures Expect(Literal(Digits), Qwerty, false, engine) == Ok(None)
  {
    forall i: nat
      ensures !OccursAt(Digits, Qwerty, i)
    {
      if i <= 3 {
        assert Qwerty[i..i + 3][0] != Digits[0];
      }
    }
  }
}
