/** The `.sbat` parser on the sections of the repository's unit tests
    (test-sbat.c:241-326), and on a record split across two lines.  Each
    section is given to the parser with its terminator counted in the
    size, as the tests pass `sizeof` of a string literal. */
module SbatSectionExamples {
  import opened CStrings
  import opened SbatTypes
  import opened SbatSection
  import opened SbatSectionProps

  /** The record of test-sbat.c:254-271: a seventh field stays in the
      vendor URL. */
  const UrlWithComma := SbatEntry("test1", "1", "SBAT test1", "acme", "1", "testURL,testURL2")

  /** No field of `UrlWithComma` holds its delimiter. */
  lemma UrlWithCommaDelimiters()
    ensures ',' !in UrlWithComma.componentName && ',' !in UrlWithComma.componentGeneration && ',' !in UrlWithComma.vendorName
    ensures ',' !in UrlWithComma.vendorPackageName && ',' !in UrlWithComma.vendorVersion && '\n' !in UrlWithComma.vendorUrl
  {
  }

  /** No field of `UrlWithComma` holds a terminator. */
  lemma UrlWithCommaTerminators()
    ensures NUL !in UrlWithComma.componentName && NUL !in UrlWithComma.componentGeneration && NUL !in UrlWithComma.vendorName
    ensures NUL !in UrlWithComma.vendorPackageName && NUL !in UrlWithComma.vendorVersion && NUL !in UrlWithComma.vendorUrl
  {
  }

  lemma UrlWithCommaWellFormed()
    ensures WellFormed(UrlWithComma)
  {
    UrlWithCommaDelimiters();
    UrlWithCommaTerminators();
    WellFormedFields(UrlWithComma);
  }

  /** The section text of that one record. */
  lemma UrlWithCommaText()
    ensures Encode([UrlWithComma]) + [NUL] ==
      "test1" + [','] + "1" + [','] + "SBAT test1" + [','] + "acme" + [','] + "1" + [',']
      + "testURL,testURL2" + ['\n'] + [NUL]
  {
    LineIs(UrlWithComma);
    EncodeOne(UrlWithComma);
  }

  /** A seventh field is not split off: it stays in the vendor URL. */
  lemma TooManyFields()
    ensures var b := "test1" + [','] + "1" + [','] + "SBAT test1" + [','] + "acme" + [','] + "1" + [',']
                     + "testURL,testURL2" + ['\n'] + [NUL];
      |b| == 44 && NulFrom(b, 0) &&
      var p := ParseFrom(b, 0, 43, 0, NeverFails, NeverFails, []);
      p.Parsed? && p.status == Success && p.entries == [UrlWithComma]
  {
    UrlWithCommaWellFormed();
    UrlWithCommaText();
    RoundTrip([UrlWithComma], Encode([UrlWithComma]) + [NUL], 43, NeverFails, NeverFails);
  }

  /** The first record of the two-record tests (test-sbat.c:274-326). */
  const First := SbatEntry("test1", "1", "SBAT test1", "acme", "1", "testURL")

  /** The second record of test-sbat.c:302-326. */
  const SecondWithComma := SbatEntry("test2", "2", "SBAT test2", "acme2", "2", "testURL2,test3")

  lemma FirstWellFormed()
    ensures WellFormed(First)
  {
    WellFormedFields(First);
  }

  /** No field of `SecondWithComma` holds its delimiter. */
  lemma SecondWithCommaDelimiters()
    ensures ',' !in SecondWithComma.componentName && ',' !in SecondWithComma.componentGeneration && ',' !in SecondWithComma.vendorName
    ensures ',' !in SecondWithComma.vendorPackageName && ',' !in SecondWithComma.vendorVersion && '\n' !in SecondWithComma.vendorUrl
  {
  }

  /** No field of `SecondWithComma` holds a terminator. */
  lemma SecondWithCommaTerminators()
    ensures NUL !in SecondWithComma.componentName && NUL !in SecondWithComma.componentGeneration && NUL !in SecondWithComma.vendorName
    ensures NUL !in SecondWithComma.vendorPackageName && NUL !in SecondWithComma.vendorVersion && NUL !in SecondWithComma.vendorUrl
  {
  }

  lemma SecondWithCommaWellFormed()
    ensures WellFormed(SecondWithComma)
  {
    SecondWithCommaDelimiters();
    SecondWithCommaTerminators();
    WellFormedFields(SecondWithComma);
  }

  /** The section text of the two records. */
  lemma TwoLinesText()
    ensures Encode([First, SecondWithComma]) + [NUL] ==
      ("test1" + [','] + "1" + [','] + "SBAT test1" + [','] + "acme" + [','] + "1" + [','] + "testURL" + ['\n'])
      + ("test2" + [','] + "2" + [','] + "SBAT test2" + [','] + "acme2" + [','] + "2" + [','] + "testURL2,test3" + ['\n'])
      + [NUL]
  {
    LineIs(First);
    LineIs(SecondWithComma);
    EncodeTwo(First, SecondWithComma);
  }

  /** A seventh field on the second line stays in that record's URL. */
  lemma TooManyFieldsSecondLine()
    ensures var b := ("test1" + [','] + "1" + [','] + "SBAT test1" + [','] + "acme" + [','] + "1" + [',']
                      + "testURL" + ['\n'])
                     + ("test2" + [','] + "2" + [','] + "SBAT test2" + [','] + "acme2" + [','] + "2" + [',']
                        + "testURL2,test3" + ['\n'])
                     + [NUL];
      |b| == 77 && NulFrom(b, 0) &&
      var p := ParseFrom(b, 0, 76, 0, NeverFails, NeverFails, []);
      p.Parsed? && p.status == Success && p.entries == [First, SecondWithComma]
  {
    FirstWellFormed();
    SecondWithCommaWellFormed();
    TwoLinesText();
    RoundTrip([First, SecondWithComma], Encode([First, SecondWithComma]) + [NUL], 76, NeverFails, NeverFails);
  }

  /** A record whose second field holds a newline: "a,b" and "c,d,e,f,g"
      on two lines are read as one record, because only the last field
      ends at a newline. */
  const Merged := SbatEntry("a", "b\nc", "d", "e", "f", "g")

  lemma MergedWellFormed()
    ensures WellFormed(Merged)
  {
    WellFormedFields(Merged);
  }

  /** The record's line is its fields, each followed by its delimiter. */
  lemma MergedLine()
    ensures Line(Merged) == "a" + [','] + "b\nc" + [','] + "d" + [','] + "e" + [','] + "f" + [','] + "g" + ['\n']
  {
    LineIs(Merged);
  }

  /** Those fields and delimiters spell the two lines. */
  lemma MergedChars()
    ensures "a" + [','] + "b\nc" + [','] + "d" + [','] + "e" + [','] + "f" + [','] + "g" + ['\n'] == "a,b\nc,d,e,f,g\n"
  {
  }

  /** The two lines are the text of the one record. */
  lemma MergedText()
    ensures Encode([Merged]) + [NUL] == "a,b\nc,d,e,f,g\n" + [NUL]
  {
    MergedLine();
    MergedChars();
    EncodeOne(Merged);
  }

  lemma LinesMerge()
    ensures var b := "a,b\nc,d,e,f,g\n" + [NUL];
      |b| == 15 && NulFrom(b, 0) &&
      var p := ParseFrom(b, 0, 14, 0, NeverFails, NeverFails, []);
      p.Parsed? && p.status == Success && p.entries == [Merged]
  {
    MergedWellFormed();
    MergedText();
    RoundTrip([Merged], Encode([Merged]) + [NUL], 14, NeverFails, NeverFails);
  }

  /** A line with five fields is rejected (test-sbat.c:241-252). */
  lemma TooFewFields()
    ensures var b := "test1" + [','] + "1" + [','] + "SBAT test1" + [','] + "acme" + [','] + "1\n" + [NUL];
      |b| == 27 && NulFrom(b, 0) &&
      var p := ParseFrom(b, 0, 26, 0, NeverFails, NeverFails, []);
      p.Parsed? && p.status == InvalidParameter && p.entries == []
  {
    var b := "test1" + [','] + "1" + [','] + "SBAT test1" + [','] + "acme" + [','] + "1\n" + [NUL];
    assert Encode([]) + b == b;
    FiveFieldsRejected([], "test1", "1", "SBAT test1", "acme", "1\n", b, 26, NeverFails, NeverFails);
  }

  /** A well-formed first record does not save a section whose second line
      has five fields: the whole section is rejected (test-sbat.c:288-300). */
  lemma TooFewFieldsSecondLine()
    ensures var b := Line(First)
                     + ("test2" + [','] + "2" + [','] + "SBAT test2" + [','] + "acme2" + [','] + "2\n" + [NUL]);
      |b| == 62 && NulFrom(b, 0) &&
      var p := ParseFrom(b, 0, 61, 0, NeverFails, NeverFails, []);
      p.Parsed? && p.status == InvalidParameter && p.entries == []
  {
    FirstWellFormed();
    EncodeOne(First);
    FiveFieldsRejected([First], "test2", "2", "SBAT test2", "acme2", "2\n",
                       Line(First) + ("test2" + [','] + "2" + [','] + "SBAT test2" + [','] + "acme2" + [','] + "2\n" + [NUL]),
                       61, NeverFails, NeverFails);
  }

  /** An allocation oracle under which every allocation fails. */
  predicate AlwaysFails(i: nat)
  {
    true
  }

  /** A record on a last line without a newline. */
  const Open := SbatEntry("a", "1", "v", "p", "1", "u")

  lemma OpenWellFormed()
    ensures WellFormed(Open)
  {
    WellFormedFields(Open);
  }

  /** Its fields and delimiters, without the newline. */
  lemma OpenText()
    ensures JoinOpen(Texts(Open), 0) == "a,1,v,p,1,u"
  {
    var ts := Texts(Open);
    assert JoinOpen(ts, 5) == "u";
    assert JoinOpen(ts, 4) == "1,u";
    assert JoinOpen(ts, 3) == "p,1,u";
    assert JoinOpen(ts, 2) == "v,p,1,u";
    assert JoinOpen(ts, 1) == "1,v,p,1,u";
  }

  /** A last record without a newline leaves no cursor, but the C compares
      that NULL cursor with `end` and grows the array before it reads
      through it: when growing fails, the section is refused with
      `EFI_OUT_OF_RESOURCES` (sbat.c:93-104); when it succeeds, the loop
      test reads through the NULL cursor (sbat.c:111). */
  lemma UnterminatedGrowFails()
    ensures var b := "a,1,v,p,1,u" + [NUL];
      |b| == 12 && NulFrom(b, 0) &&
      var p := ParseFrom(b, 0, 11, 0, NeverFails, AlwaysFails, []);
      p.Parsed? && p.status == OutOfResources && p.entries == [] &&
      ParseFrom(b, 0, 11, 0, NeverFails, NeverFails, []).Stuck?
  {
    var b := "a,1,v,p,1,u" + [NUL];
    assert b[11] == NUL;
    OpenWellFormed();
    OpenText();
    assert b[0..] == JoinOpen(Texts(Open), 0) + ([NUL] + []);
    ParseFromUnterminated(b, 0, 11, 0, NeverFails, AlwaysFails, [], Open, []);
    ParseFromUnterminated(b, 0, 11, 0, NeverFails, NeverFails, [], Open, []);
  }
}
