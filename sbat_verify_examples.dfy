/** The revocation decision on the records and lists of the repository's
    unit tests (test-sbat.c:427-838): with the section records `test1` at
    generation 1 and `test2` at generation 2, which trusted lists revoke
    the image. */
module SbatVerifyExamples {
  import opened SbatTypes
  import opened SbatVerify

  /** A one-digit generation is that digit's value. */
  lemma {:induction false} OneDigitGeneration(c: char)
    requires IsDigit(c)
    ensures Generation([c]) == DigitValue(c)
  {
    assert [c][1..] == [];
    assert DigitRun([c]) == 1;
    assert [c][..1] == [c];
    assert [c][..0] == [];
    assert Decimal([c]) == 10 * Decimal([]) + DigitValue(c);
    assert Atoi([c]) == DigitValue(c);
  }

  /** The generations the tests use. */
  lemma TestGenerations()
    ensures Generation("1") == 1 && Generation("2") == 2 && Generation("3") == 3 && Generation("5") == 5
  {
    OneDigitGeneration('1');
    OneDigitGeneration('2');
    OneDigitGeneration('3');
    OneDigitGeneration('5');
  }

  const Test1 := SbatEntry("test1", "1", "SBAT test1", "acme", "1", "testURL")
  const Test2 := SbatEntry("test2", "2", "SBAT test2", "acme2", "2", "testURL2")

  /** test-sbat.c:427-460: the list names `test1` at the record's own
      generation. */
  lemma MatchOneExact()
    ensures !Revoked([Test1, Test2], [SbatVar("test1", "1")])
  {
    TestGenerations();
  }

  /** test-sbat.c:462-495: the list names `test2` below the record's
      generation. */
  lemma MatchOneHigher()
    ensures !Revoked([Test1, Test2], [SbatVar("test2", "1")])
  {
    TestGenerations();
  }

  /** test-sbat.c:497-530: the list names `test2` above the record's
      generation. */
  lemma RejectOne()
    ensures Revoked([Test1, Test2], [SbatVar("test2", "3")])
  {
    TestGenerations();
    assert Revokes([SbatVar("test2", "3")][0], [Test1, Test2][1]);
  }

  /** test-sbat.c:532-574: one of the two list entries revokes a record. */
  lemma RejectMany()
    ensures Revoked([Test1, Test2], [SbatVar("test1", "1"), SbatVar("test2", "3")])
  {
    TestGenerations();
    assert Revokes([SbatVar("test1", "1"), SbatVar("test2", "3")][1], [Test1, Test2][1]);
  }

  /** test-sbat.c:576-618: records at generations 3 and 5 against a list at
      1 and 2. */
  lemma MatchManyHigher()
    ensures !Revoked([SbatEntry("test1", "3", "SBAT test1", "acme", "1", "testURL"),
                      SbatEntry("test2", "5", "SBAT test2", "acme2", "2", "testURL2")],
                     [SbatVar("test1", "1"), SbatVar("test2", "2")])
  {
    TestGenerations();
  }

  /** test-sbat.c:620-662: every record at exactly its listed generation. */
  lemma MatchManyExact()
    ensures !Revoked([Test1, Test2], [SbatVar("test1", "1"), SbatVar("test2", "2")])
  {
    TestGenerations();
  }

  /** test-sbat.c:664-706: both records listed above their generations. */
  lemma RejectManyAll()
    ensures Revoked([Test1, Test2], [SbatVar("test1", "3"), SbatVar("test2", "5")])
  {
    TestGenerations();
    assert Revokes([SbatVar("test1", "3"), SbatVar("test2", "5")][0], [Test1, Test2][0]);
  }

  /** test-sbat.c:708-750: a list of other components revokes nothing,
      whatever their generations. */
  lemma MatchDiffName()
    ensures !Revoked([Test1, Test2], [SbatVar("foo", "5"), SbatVar("bar", "2")])
  {
  }

  /** test-sbat.c:752-794: one entry at the record's generation, one for
      another component. */
  lemma MatchDiffNameMixed()
    ensures !Revoked([Test1, Test2], [SbatVar("test1", "1"), SbatVar("bar", "2")])
  {
    TestGenerations();
  }

  /** test-sbat.c:796-838: the matching entry is above the record's
      generation; the other component is ignored. */
  lemma RejectDiffNameMixed()
    ensures Revoked([Test1, Test2], [SbatVar("test1", "5"), SbatVar("bar", "2")])
    ensures !Revoked([Test1, Test2], [SbatVar("bar", "2")])
  {
    TestGenerations();
    assert Revokes([SbatVar("test1", "5"), SbatVar("bar", "2")][0], [Test1, Test2][0]);
  }
}
