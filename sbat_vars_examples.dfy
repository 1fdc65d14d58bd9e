/** The SBAT-variable parser on a few variable texts: the variable shim
    writes by default, the same behind a byte-order mark, a name alone on
    its line, and a last line without a newline.  Each text is followed by
    a terminator that the size does not count. */
module SbatVarsExamples {
  import opened Wrappers
  import opened CStrings
  import opened SbatTypes
  import opened SbatVars
  import opened SbatVarsProps

  /** The line `sbat,1,2021030218`: the pair `sbat`, 1 and a comment. */
  const DefaultLine := Revocation(SbatVar("sbat", "1"), Some("2021030218"))

  lemma DefaultLineText()
    ensures WellFormedVar(DefaultLine)
    ensures EncodeVars([DefaultLine]) == "sbat,1,2021030218\n"
    ensures Entries([DefaultLine]) == [SbatVar("sbat", "1")]
  {
    assert [DefaultLine][1..] == [];
  }

  /** The default variable is the one pair `sbat`, 1: its date is dropped
      as a comment. */
  lemma DefaultVariable()
    ensures var b := "sbat,1,2021030218\n" + [NUL];
      |b| == 19 && NulFrom(b, DataStart(b, 18)) &&
      ParseVariable(b, 18, NeverFails) == VarParsed(Success, [SbatVar("sbat", "1")])
  {
    var b := "sbat,1,2021030218\n" + [NUL];
    DefaultLineText();
    assert b == [] + EncodeVars([DefaultLine]) + [NUL];
    assert !IsUtf8BomAsWritten(b, 18) by {
      assert b[..|Bom|][0] == 's';
    }
    VariableRoundTrip([DefaultLine], [], b, 18, NeverFails);
  }

  /** Behind a byte-order mark the same text gives the same list. */
  lemma MarkedVariable()
    ensures var b := Bom + "sbat,1,2021030218\n" + [NUL];
      |b| == 22 && NulFrom(b, DataStart(b, 21)) &&
      ParseVariable(b, 21, NeverFails) == VarParsed(Success, [SbatVar("sbat", "1")])
  {
    var b := Bom + "sbat,1,2021030218\n" + [NUL];
    DefaultLineText();
    assert b == Bom + EncodeVars([DefaultLine]) + [NUL];
    VariableRoundTrip([DefaultLine], Bom, b, 21, NeverFails);
  }

  /** The two lines `a` and `b,c` are read as one pair, up to the
      terminator. */
  lemma NameAloneLine() returns (b': seq<char>, n: nat)
    ensures var b := "a\nb,c\n" + [NUL];
      && NulFrom(b, 0) && n == 6 && |b'| == 7 && NulFrom(b', n) && b'[n] == NUL
      && ReadPair(b, Some(0), 6, 0, ',', []) == Read("a", "b", Some(n), b')
  {
    var b := "a\nb,c\n" + [NUL];
    assert b[6] == NUL;
    assert b[0..] == "a" + ['\n'] + "b" + [','] + "c" + ['\n'] + [NUL];
    b', n := NameOnlyLine(b, 0, 6, "a", "b", "c", [NUL]);
    assert b'[6] == b'[6..][0] == NUL;
  }

  /** `a` alone on its line takes `b`, the next line's first field, as its
      generation, and `c` is dropped as a comment. */
  lemma NameAlone()
    ensures var b := "a\nb,c\n" + [NUL];
      |b| == 7 && NulFrom(b, DataStart(b, 6)) &&
      ParseVariable(b, 6, NeverFails) == VarParsed(Success, [SbatVar("a", "b")])
  {
    var b := "a\nb,c\n" + [NUL];
    assert b[6] == NUL;
    assert DataStart(b, 6) == 0 by {
      assert b[..|Bom|][0] == 'a';
    }
    var b', n := NameAloneLine();
    TurnRead(b, 0, 6, 0, NeverFails, [], "a", "b", n, b');
  }

  /** `sbat,1` without a newline is rejected. */
  lemma Unterminated()
    ensures var b := "sbat,1" + [NUL];
      |b| == 7 && NulFrom(b, DataStart(b, 6)) &&
      ParseVariable(b, 6, NeverFails) == VarParsed(InvalidParameter, [])
  {
    var b := "sbat,1" + [NUL];
    assert DataStart(b, 6) == 0 by {
      assert b[..|Bom|][0] == 's';
    }
    assert b == EncodeVars([]) + ("sbat" + [','] + "1" + [NUL]);
    UnterminatedRejected([], "sbat", "1", b, 6, NeverFails);
  }
}
