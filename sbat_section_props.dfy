/** What the `.sbat` section parser is proved to do: a section written as
    one line per record is read back record for record, in order; a record
    with too few fields is rejected together with everything read before
    it. */
module SbatSectionProps {
  import opened Wrappers
  import opened CStrings
  import opened SbatTypes
  import opened SbatField
  import opened SbatSection
  import opened SeqFacts

  /** The six texts of a record, in the order they are written. */
  function Texts(e: SbatEntry): (ts: seq<seq<char>>)
    ensures |ts| == 6
  {
    [e.componentName, e.componentGeneration, e.vendorName, e.vendorPackageName, e.vendorVersion, e.vendorUrl]
  }

  /** Fields `k..` of `ts`, each followed by its delimiter. */
  function Join(ts: seq<seq<char>>, k: nat): seq<char>
    requires k <= |ts|
    decreases |ts| - k
  {
    if k == |ts| then [] else ts[k] + [Delimiter(k)] + Join(ts, k + 1)
  }

  /** The line of the section that holds record `e`. */
  function Line(e: SbatEntry): seq<char>
  {
    Join(Texts(e), 0)
  }

  /** A section text: its records' lines, in order. */
  function Encode(rs: seq<SbatEntry>): seq<char>
  {
    if |rs| == 0 then [] else Line(rs[0]) + Encode(rs[1..])
  }

  /** A record that can be written as one line: no field holds its own
      delimiter or a terminator.  (The first five may hold newlines.) */
  predicate WellFormed(e: SbatEntry)
  {
    forall k :: 0 <= k < 6 ==> Delimiter(k) !in Texts(e)[k] && NUL !in Texts(e)[k]
  }

  /** `WellFormed`, field by field. */
  lemma {:induction false} WellFormedFields(e: SbatEntry)
    requires ',' !in e.componentName && ',' !in e.componentGeneration && ',' !in e.vendorName
    requires ',' !in e.vendorPackageName && ',' !in e.vendorVersion && '\n' !in e.vendorUrl
    requires NUL !in e.componentName && NUL !in e.componentGeneration && NUL !in e.vendorName
    requires NUL !in e.vendorPackageName && NUL !in e.vendorVersion && NUL !in e.vendorUrl
    ensures WellFormed(e)
  {
  }

  /** `p` holds the texts of `e` in its first `k` fields. */
  predicate Agrees(p: SbatEntry, e: SbatEntry, k: nat)
  {
    forall i :: 0 <= i < k && i < 6 ==> Texts(p)[i] == Texts(e)[i]
  }

  /** No allocation fails for records `k..k+n-1`. */
  ghost predicate NoOom(entryOom: nat -> bool, growOom: nat -> bool, k: nat, n: nat)
  {
    forall i :: k <= i < k + n ==> !entryOom(i) && !growOom(i)
  }

  /** Setting field `k` changes that text only. */
  lemma {:induction false} SetFieldTexts(p: SbatEntry, k: nat, t: seq<char>)
    requires k < 6
    ensures Texts(SetField(p, k, t)) == Texts(p)[k := t]
  {
  }

  /** A record is determined by its six texts. */
  lemma {:induction false} AgreesAll(p: SbatEntry, e: SbatEntry)
    requires Agrees(p, e, 6)
    ensures p == e
  {
    assert Texts(p)[0] == Texts(e)[0] && Texts(p)[1] == Texts(e)[1] && Texts(p)[2] == Texts(e)[2];
    assert Texts(p)[3] == Texts(e)[3] && Texts(p)[4] == Texts(e)[4] && Texts(p)[5] == Texts(e)[5];
  }

  /** Field `k` read where the buffer holds `t` and then its delimiter. */
  lemma {:induction false} ReadFieldsAt(b: seq<char>, c: nat, end: nat, k: nat, p: SbatEntry, t: seq<char>)
    returns (b': seq<char>, c': nat)
    requires k < 6 && c < end && NulFrom(b, c) && c + |t| < |b|
    requires b[c..c + |t|] == t && b[c + |t|] == Delimiter(k) && Delimiter(k) !in t && NUL !in t
    ensures b' == b[c + |t| := NUL] && c' == c + |t| + 1 && NulFrom(b', c')
    ensures ReadFields(b, Some(c), end, k, p) == ReadFields(b', Some(c'), end, k + 1, SetField(p, k, t))
  {
    b', c' := b[c + |t| := NUL], c + |t| + 1;
    GetFieldSplit(b, c, end, t, Delimiter(k));
    ReadFieldsStep(b, c, end, k, p);
    var f := GetField(b, Some(c), Some(end), Delimiter(k));
    assert f.buf == b' && f.next == Some(c') && f.start == Some(c);
    assert Text(f) == t;
  }

  /** One field of a line: `t` and its delimiter are consumed, the
      delimiter is overwritten, and the rest of the buffer is left alone. */
  lemma {:induction false} ReadFieldsSplit(b: seq<char>, c: nat, end: nat, k: nat, p: SbatEntry, t: seq<char>, rest: seq<char>)
    returns (b': seq<char>, c': nat)
    requires k < 6 && c < end && NulFrom(b, c)
    requires b[c..] == t + [Delimiter(k)] + rest && Delimiter(k) !in t && NUL !in t
    ensures c' == c + |t| + 1 && b' == b[c + |t| := NUL]
    ensures |b'| == |b| && b'[c'..] == rest && NulFrom(b', c')
    ensures ReadFields(b, Some(c), end, k, p) == ReadFields(b', Some(c'), end, k + 1, SetField(p, k, t))
  {
    var d := Delimiter(k);
    assert b[c..c + |t|] == t && b[c + |t|] == d by {
      assert b[c..][..|t|] == t && b[c..][|t|] == d;
    }
    b', c' := ReadFieldsAt(b, c, end, k, p, t);
    UpdateBefore(b, c + |t|, NUL, c');
    assert b[c'..] == b[c..][|t| + 1..];
  }

  /** A line from field `k` on starts with that field and its delimiter,
      neither of which the field holds. */
  lemma {:induction false} JoinHead(e: SbatEntry, k: nat, rest: seq<char>)
    requires k < 6 && WellFormed(e)
    ensures Join(Texts(e), k) + rest == Texts(e)[k] + [Delimiter(k)] + (Join(Texts(e), k + 1) + rest)
    ensures |Join(Texts(e), k)| == |Texts(e)[k]| + 1 + |Join(Texts(e), k + 1)|
    ensures Delimiter(k) !in Texts(e)[k] && NUL !in Texts(e)[k]
  {
    assert Join(Texts(e), k) == Texts(e)[k] + [Delimiter(k)] + Join(Texts(e), k + 1);
    Associative(Texts(e)[k] + [Delimiter(k)], Join(Texts(e), k + 1), rest);
  }

  /** One field of a line, in the terms of `ReadFieldsJoin`. */
  lemma {:induction false} JoinStep(b: seq<char>, c: nat, end: nat, k: nat, p: SbatEntry, e: SbatEntry, rest: seq<char>)
    returns (b': seq<char>, c': nat, p': SbatEntry)
    requires k < 6 && WellFormed(e) && NulFrom(b, c)
    requires b[c..] == Join(Texts(e), k) + rest && c + |Join(Texts(e), k)| <= end
    requires Agrees(p, e, k)
    ensures |b'| == |b| && NulFrom(b', c') && b'[c'..] == Join(Texts(e), k + 1) + rest
    ensures c + |Join(Texts(e), k)| == c' + |Join(Texts(e), k + 1)|
    ensures Agrees(p', e, k + 1)
    ensures ReadFields(b, Some(c), end, k, p) == ReadFields(b', Some(c'), end, k + 1, p')
  {
    var t := Texts(e)[k];
    JoinHead(e, k, rest);
    b', c' := ReadFieldsSplit(b, c, end, k, p, t, Join(Texts(e), k + 1) + rest);
    p' := SetField(p, k, t);
    SetFieldTexts(p, k, t);
  }

  /** With all six fields stored, the record read is the one they agree
      with, and the cursor stays where it is. */
  lemma {:induction false} ReadFieldsComplete(b: seq<char>, c: nat, end: nat, p: SbatEntry, e: SbatEntry, rest: seq<char>)
    requires NulFrom(b, c) && b[c..] == Join(Texts(e), 6) + rest && Agrees(p, e, 6)
    ensures var r := ReadFields(b, Some(c), end, 6, p);
      && r.status == Success && r.entry == Some(e) && r.cur == Some(c + |Join(Texts(e), 6)|)
      && r.buf == b && b[c + |Join(Texts(e), 6)|..] == rest
  {
    AgreesAll(p, e);
    assert |Join(Texts(e), 6)| == 0;
  }

  /** The fields of a line are read back in place: the cursor ends just past
      the newline and only the delimiters were overwritten. */
  lemma {:induction false} ReadFieldsJoin(b: seq<char>, c: nat, end: nat, k: nat, p: SbatEntry, e: SbatEntry, rest: seq<char>)
    requires k <= 6 && WellFormed(e) && NulFrom(b, c)
    requires b[c..] == Join(Texts(e), k) + rest && c + |Join(Texts(e), k)| <= end
    requires Agrees(p, e, k)
    ensures var r, n := ReadFields(b, Some(c), end, k, p), c + |Join(Texts(e), k)|;
      && r.status == Success && r.entry == Some(e) && r.cur.Some? && r.cur.value == n
      && |r.buf| == |b| && r.buf[n..] == rest
    decreases 6 - k
  {
    if k == 6 {
      ReadFieldsComplete(b, c, end, p, e, rest);
    } else {
      var b', c', p' := JoinStep(b, c, end, k, p, e, rest);
      ReadFieldsJoin(b', c', end, k + 1, p', e, rest);
      var r, r' := ReadFields(b, Some(c), end, k, p), ReadFields(b', Some(c'), end, k + 1, p');
      var n, n' := c + |Join(Texts(e), k)|, c' + |Join(Texts(e), k + 1)|;
      assert r == r' && n == n';
      assert r.buf[n..] == r'.buf[n'..];
    }
  }

  /** A line whose component name holds no terminator does not start with
      one, so the parser goes on reading after the line before it. */
  lemma {:induction false} LineHead(e: SbatEntry)
    requires NUL !in e.componentName
    ensures |Line(e)| > 0 && Line(e)[0] != NUL
  {
    assert Line(e) == e.componentName + [','] + Join(Texts(e), 1);
    if |e.componentName| > 0 {
      assert e.componentName[0] in e.componentName;
    }
  }

  /** A line spelled out: the six texts, each followed by its delimiter. */
  lemma {:induction false} LineIs(e: SbatEntry)
    ensures Line(e) == e.componentName + [','] + e.componentGeneration + [','] + e.vendorName + [',']
                       + e.vendorPackageName + [','] + e.vendorVersion + [','] + e.vendorUrl + ['\n']
  {
    var ts := Texts(e);
    assert Join(ts, 6) == [];
    assert Join(ts, 5) == e.vendorUrl + ['\n'];
    assert Join(ts, 4) == e.vendorVersion + [','] + e.vendorUrl + ['\n'];
    assert Join(ts, 3) == e.vendorPackageName + [','] + e.vendorVersion + [','] + e.vendorUrl + ['\n'];
    assert Join(ts, 2) == e.vendorName + [','] + e.vendorPackageName + [','] + e.vendorVersion + [',']
                          + e.vendorUrl + ['\n'];
    assert Join(ts, 1) == e.componentGeneration + [','] + e.vendorName + [','] + e.vendorPackageName + [',']
                          + e.vendorVersion + [','] + e.vendorUrl + ['\n'];
  }

  /** The text of a section of one record is that record's line. */
  lemma {:induction false} EncodeOne(e: SbatEntry)
    ensures Encode([e]) == Line(e)
  {
    assert [e][1..] == [];
  }

  /** The text of a section of two records is their lines, in order. */
  lemma {:induction false} EncodeTwo(e1: SbatEntry, e2: SbatEntry)
    ensures Encode([e1, e2]) == Line(e1) + Line(e2)
  {
    assert [e1, e2][1..] == [e2];
    EncodeOne(e2);
  }

  /** A section text is its first line followed by the others. */
  lemma {:induction false} EncodeCons(rs: seq<SbatEntry>, rest: seq<char>)
    requires |rs| > 0
    ensures Encode(rs) + rest == Line(rs[0]) + (Encode(rs[1..]) + rest)
  {
    Associative(Line(rs[0]), Encode(rs[1..]), rest);
  }

  /** The same for a section text of at least one record. */
  lemma {:induction false} EncodeHead(rs: seq<SbatEntry>, rest: seq<char>)
    requires |rs| > 0 && NUL !in rs[0].componentName
    ensures (Encode(rs) + rest)[0] != NUL
  {
    EncodeCons(rs, rest);
    LineHead(rs[0]);
  }

  /** A well-formed record holds no terminator in its component name. */
  lemma {:induction false} WellFormedName(e: SbatEntry)
    requires WellFormed(e)
    ensures NUL !in e.componentName
  {
    assert Texts(e)[0] == e.componentName;
  }

  /** A well-formed line is read as its record: the cursor ends just past
      the newline and the rest of the section is left alone. */
  lemma {:induction false} LineRead(b: seq<char>, c: nat, end: nat, e: SbatEntry, rest: seq<char>) returns (b': seq<char>, n: nat)
    requires WellFormed(e) && NulFrom(b, c) && b[c..] == Line(e) + rest && c + |Line(e)| <= end
    ensures n == c + |Line(e)| && |b'| == |b| && b'[n..] == rest
    ensures var r := ReadFields(b, Some(c), end, 0, Blank);
      r.status == Success && r.entry == Some(e) && r.cur.Some? && r.cur.value == n && r.buf == b'
  {
    assert Agrees(Blank, e, 0);
    ReadFieldsJoin(b, c, end, 0, Blank, e, rest);
    b', n := ReadFields(b, Some(c), end, 0, Blank).buf, c + |Line(e)|;
  }

  /** One turn of the loop over the first line of a section text. */
  lemma {:induction false} EncodeStep(b: seq<char>, c: nat, end: nat, k: nat, entryOom: nat -> bool, growOom: nat -> bool,
                   acc: seq<SbatEntry>, rs: seq<SbatEntry>, rest: seq<char>) returns (b': seq<char>, n: nat)
    requires NulFrom(b, c) && b[c..] == Encode(rs) + rest && c + |Encode(rs)| <= end
    requires |rs| > 0 && WellFormed(rs[0]) && !entryOom(k) && !growOom(k)
    ensures n + |Encode(rs[1..])| == c + |Encode(rs)| && |b'| == |b| && b'[n..] == Encode(rs[1..]) + rest
    ensures NulFrom(b', n)
    ensures ParseFrom(b, c, end, k, entryOom, growOom, acc) ==
      if b'[n] == NUL then Parsed(Success, acc + [rs[0]], b')
      else ParseFrom(b', n, end, k + 1, entryOom, growOom, acc + [rs[0]])
  {
    EncodeCons(rs, rest);
    b', n := LineRead(b, c, end, rs[0], Encode(rs[1..]) + rest);
    ParseFromNext(b, c, end, k, entryOom, growOom, acc, rs[0], b', n);
  }

  /** A section text of well-formed records followed by a terminator is
      read back completely, in order, after what was already collected. */
  lemma {:induction false} ParseFromAll(b: seq<char>, c: nat, end: nat, k: nat, entryOom: nat -> bool,
                                        growOom: nat -> bool, acc: seq<SbatEntry>, rs: seq<SbatEntry>,
                                        rest: seq<char>) returns (b': seq<char>)
    requires NulFrom(b, c) && b[c..] == Encode(rs) + rest && c + |Encode(rs)| <= end
    requires |rs| > 0 && |rest| > 0 && rest[0] == NUL
    requires forall i :: 0 <= i < |rs| ==> WellFormed(rs[i])
    requires NoOom(entryOom, growOom, k, |rs|)
    ensures ParseFrom(b, c, end, k, entryOom, growOom, acc) == Parsed(Success, acc + rs, b')
    decreases |rs|
  {
    assert !entryOom(k) && !growOom(k);
    var b1, n1 := EncodeStep(b, c, end, k, entryOom, growOom, acc, rs, rest);
    if |rs| == 1 {
      assert Encode(rs[1..]) + rest == rest;
      b' := b1;
      AppendCons(acc, rs);
    } else {
      assert b1[n1] != NUL by {
        WellFormedName(rs[1]);
        EncodeHead(rs[1..], rest);
      }
      b' := ParseFromAll(b1, n1, end, k + 1, entryOom, growOom, acc + [rs[0]], rs[1..], rest);
      AppendCons(acc, rs);
    }
  }

  /** When the search stops at a delimiter, the string from the cursor is
      the text before it, the delimiter, and the string after it (which the
      overwrite leaves alone). */
  lemma {:induction false} DelimiterSplit(b: seq<char>, c: nat, p: nat, d: char)
    requires NulFrom(b, c) && d != NUL && p == ChrNul(b, c, d) && b[p] == d
    ensures NulFrom(b[p := NUL], p + 1) && CStr(b, c) == b[c..p] + [d] + CStr(b[p := NUL], p + 1)
  {
    var e := StrEnd(b, c);
    ChrNulWithinString(b, c, d);
    var b' := b[p := NUL];
    assert b'[e] == NUL;
    ChrNulAt(b', p + 1, e, NUL);
    assert b'[p + 1..e] == b[p + 1..e];
    SplitAt(b, c, p, e);
  }

  /** A comma between two texts adds one to their commas. */
  lemma {:induction false} CommaCount(x: seq<char>, y: seq<char>)
    ensures multiset(x + [','] + y)[','] == multiset(x)[','] + 1 + multiset(y)[',']
  {
    assert multiset(x + [','] + y) == multiset(x) + multiset([',']) + multiset(y);
  }

  /** Cutting the string at its first comma leaves a string with one comma
      fewer after the cut. */
  lemma {:induction false} CommaTaken(b: seq<char>, c: nat, p: nat, b': seq<char>)
    requires NulFrom(b, c) && c <= p < |b| && b' == b[p := NUL] && NulFrom(b', p + 1)
    requires CStr(b, c) == b[c..p] + [','] + CStr(b', p + 1)
    ensures multiset(CStr(b', p + 1))[','] < multiset(CStr(b, c))[',']
  {
    CommaCount(b[c..p], CStr(b', p + 1));
  }

  /** Cutting the string at `c` at its first comma, at `p`, leaves a
      string with one comma fewer after the cut. */
  lemma {:induction false} CutAtComma(b: seq<char>, c: nat, p: nat)
    requires NulFrom(b, c) && p == ChrNul(b, c, ',') && b[p] == ','
    ensures NulFrom(b[p := NUL], p + 1) && multiset(CStr(b[p := NUL], p + 1))[','] < multiset(CStr(b, c))[',']
  {
    DelimiterSplit(b, c, p, ',');
    CommaTaken(b, c, p, b[p := NUL]);
  }

  /** A comma-ended field consumes a comma of the remaining text. */
  lemma {:induction false} FieldTakesComma(b: seq<char>, c: nat, end: nat)
    requires c < end && NulFrom(b, c)
    ensures var f := GetField(b, Some(c), Some(end), ',');
      f.next.Some? ==> multiset(CStr(f.buf, f.next.value))[','] < multiset(CStr(b, c))[',']
  {
    var p := GetFieldCut(b, c, end, ',');
    if b[p] != NUL {
      CutAtComma(b, c, p);
    }
  }

  /** A record whose remaining text holds fewer commas than it has
      comma-ended fields left is invalid: some field is not stored. */
  lemma {:induction false} ReadFieldsShort(b: seq<char>, cur: Option<nat>, end: nat, k: nat, e: SbatEntry)
    requires k <= 5 && Scannable(b, cur)
    requires cur.Some? ==> multiset(CStr(b, cur.value))[','] < 5 - k
    ensures ReadFields(b, cur, end, k, e).status == InvalidParameter
    decreases 6 - k
  {
    if cur.Some? && cur.value < end {
      var f := GetField(b, cur, Some(end), Delimiter(k));
      assert Delimiter(k) == ',';
      FieldTakesComma(b, cur.value, end);
      ReadFieldsStep(b, cur.value, end, k, e);
      ReadFieldsShort(f.buf, f.next, end, k + 1, SetField(e, k, Text(f)));
    }
  }


  /** A line of five comma-free fields holds four commas. */
  lemma {:induction false} FiveFieldCommas(t: seq<char>, f0: seq<char>, f1: seq<char>, f2: seq<char>, f3: seq<char>,
                                           f4: seq<char>)
    requires t == f0 + [','] + f1 + [','] + f2 + [','] + f3 + [','] + f4
    requires ',' !in f0 && ',' !in f1 && ',' !in f2 && ',' !in f3 && ',' !in f4
    requires NUL !in f0 && NUL !in f1 && NUL !in f2 && NUL !in f3 && NUL !in f4
    ensures multiset(t)[','] == 4 && NUL !in t && |t| > 0
  {
    Absent(f0, ',');
    Absent(f1, ',');
    Absent(f2, ',');
    Absent(f3, ',');
    Absent(f4, ',');
  }

  /** A line with fewer than five commas is rejected as the first record. */
  lemma {:induction false} ParseFromShortHere(b: seq<char>, c: nat, end: nat, k: nat, entryOom: nat -> bool,
                                              growOom: nat -> bool, acc: seq<SbatEntry>) returns (b': seq<char>)
    requires NulFrom(b, c) && multiset(CStr(b, c))[','] < 5 && !entryOom(k)
    ensures ParseFrom(b, c, end, k, entryOom, growOom, acc) == Parsed(InvalidParameter, [], b')
  {
    ReadFieldsShort(b, Some(c), end, 0, Blank);
    b' := ReadFields(b, Some(c), end, 0, Blank).buf;
  }

  /** The same, for a section text that starts with the short line `t`. */
  lemma {:induction false} ParseFromShortText(b: seq<char>, c: nat, end: nat, k: nat, entryOom: nat -> bool,
                                              growOom: nat -> bool, acc: seq<SbatEntry>, t: seq<char>, rest: seq<char>)
    returns (b': seq<char>)
    requires NulFrom(b, c) && b[c..] == t + [NUL] + rest && !entryOom(k)
    requires NUL !in t && multiset(t)[','] < 5
    ensures ParseFrom(b, c, end, k, entryOom, growOom, acc) == Parsed(InvalidParameter, [], b')
  {
    assert b[c..c + |t|] == t && b[c + |t|] == NUL by {
      assert b[c..][..|t|] == t && b[c..][|t|] == NUL;
    }
    CStrIs(b, c, t);
    b' := ParseFromShortHere(b, c, end, k, entryOom, growOom, acc);
  }

  /** After the first of some well-formed lines, the text does not start
      with a terminator when a nonempty line follows. */
  lemma {:induction false} EncodeTailHead(rs: seq<SbatEntry>, t: seq<char>, rest: seq<char>)
    requires |rs| > 0 && forall i :: 0 <= i < |rs| ==> WellFormed(rs[i])
    requires |t| > 0 && NUL !in t
    ensures (Encode(rs[1..]) + (t + [NUL] + rest))[0] != NUL
  {
    if |rs| == 1 {
      assert Encode(rs[1..]) + (t + [NUL] + rest) == t + [NUL] + rest;
      assert t[0] in t;
    } else {
      WellFormedName(rs[1]);
      EncodeHead(rs[1..], t + [NUL] + rest);
    }
  }

  /** Well-formed lines followed by one with fewer than five commas: the
      section is rejected and every record read before is discarded. */
  lemma {:induction false} ParseFromShort(b: seq<char>, c: nat, end: nat, k: nat, entryOom: nat -> bool,
                                          growOom: nat -> bool, acc: seq<SbatEntry>, rs: seq<SbatEntry>,
                                          t: seq<char>, rest: seq<char>, last: nat)
    returns (b': seq<char>)
    requires NulFrom(b, c) && b[c..] == Encode(rs) + (t + [NUL] + rest) && c + |Encode(rs)| <= end
    requires forall i :: 0 <= i < |rs| ==> WellFormed(rs[i])
    requires NoOom(entryOom, growOom, k, |rs|) && last == k + |rs| && !entryOom(last)
    requires |t| > 0 && NUL !in t && multiset(t)[','] < 5
    ensures ParseFrom(b, c, end, k, entryOom, growOom, acc) == Parsed(InvalidParameter, [], b')
    decreases |rs|
  {
    if |rs| == 0 {
      assert Encode(rs) + (t + [NUL] + rest) == t + [NUL] + rest;
      b' := ParseFromShortText(b, c, end, k, entryOom, growOom, acc, t, rest);
    } else {
      assert !entryOom(k) && !growOom(k);
      var b1, n1 := EncodeStep(b, c, end, k, entryOom, growOom, acc, rs, t + [NUL] + rest);
      EncodeTailHead(rs, t, rest);
      b' := ParseFromShort(b1, n1, end, k + 1, entryOom, growOom, acc + [rs[0]], rs[1..], t, rest, last);
    }
  }

  /** A section whose well-formed lines are followed by a nonempty line
      with fewer than five commas is rejected as a whole. */
  lemma {:induction false} ShortLineRejected(rs: seq<SbatEntry>, t: seq<char>, b: seq<char>, end: nat,
                                             entryOom: nat -> bool, growOom: nat -> bool)
    requires b == Encode(rs) + (t + [NUL]) && end == |b| - 1
    requires forall i :: 0 <= i < |rs| ==> WellFormed(rs[i])
    requires |t| > 0 && NUL !in t && multiset(t)[','] < 5
    requires NoOom(entryOom, growOom, 0, |rs|) && !entryOom(|rs|)
    ensures NulFrom(b, 0)
    ensures var p := ParseFrom(b, 0, end, 0, entryOom, growOom, []);
      p.Parsed? && p.status == InvalidParameter && p.entries == []
  {
    assert b[end] == NUL;
    AppendEmpty(b);
    AppendEmpty<char>(t + [NUL]);
    assert t + [NUL] + [] == t + [NUL];
    var b' := ParseFromShort(b, 0, end, 0, entryOom, growOom, [], rs, t, [], |rs|);
  }


  /** In particular a line of only five fields: test-sbat.c:241-300. */
  lemma {:induction false} FiveFieldsRejected(rs: seq<SbatEntry>, f0: seq<char>, f1: seq<char>, f2: seq<char>,
                                              f3: seq<char>, f4: seq<char>, b: seq<char>, end: nat,
                                              entryOom: nat -> bool, growOom: nat -> bool)
    requires b == Encode(rs) + (f0 + [','] + f1 + [','] + f2 + [','] + f3 + [','] + f4 + [NUL])
    requires end == |b| - 1
    requires forall i :: 0 <= i < |rs| ==> WellFormed(rs[i])
    requires ',' !in f0 && ',' !in f1 && ',' !in f2 && ',' !in f3 && ',' !in f4
    requires NUL !in f0 && NUL !in f1 && NUL !in f2 && NUL !in f3 && NUL !in f4
    requires NoOom(entryOom, growOom, 0, |rs|) && !entryOom(|rs|)
    ensures NulFrom(b, 0)
    ensures var p := ParseFrom(b, 0, end, 0, entryOom, growOom, []);
      p.Parsed? && p.status == InvalidParameter && p.entries == []
  {
    var t := f0 + [','] + f1 + [','] + f2 + [','] + f3 + [','] + f4;
    FiveFieldCommas(t, f0, f1, f2, f3, f4);
    ShortLineRejected(rs, t, b, end, entryOom, growOom);
  }

  /** The round trip: `parse_sbat` on the lines of well-formed records,
      terminated as a C string and with the terminator counted in the size,
      succeeds with exactly those records, in order. */
  lemma {:induction false} RoundTrip(rs: seq<SbatEntry>, b: seq<char>, end: nat, entryOom: nat -> bool,
                                     growOom: nat -> bool)
    requires b == Encode(rs) + [NUL] && end == |b| - 1
    requires |rs| > 0 && forall i :: 0 <= i < |rs| ==> WellFormed(rs[i])
    requires NoOom(entryOom, growOom, 0, |rs|)
    ensures NulFrom(b, 0)
    ensures var p := ParseFrom(b, 0, end, 0, entryOom, growOom, []);
      p.Parsed? && p.status == Success && p.entries == rs
  {
    assert b[end] == NUL;
    AppendEmpty(b);
    var b' := ParseFromAll(b, 0, end, 0, entryOom, growOom, [], rs, [NUL]);
    AppendEmpty(rs);
  }


  /** Fields `k..` of `ts` as a last line without its newline: the vendor
      URL ends the text. */
  function JoinOpen(ts: seq<seq<char>>, k: nat): seq<char>
    requires k <= 5 && |ts| == 6
    decreases 5 - k
  {
    if k == 5 then ts[5] else ts[k] + [Delimiter(k)] + JoinOpen(ts, k + 1)
  }

  /** The vendor URL of a last record that ends at the terminator: the
      field is stored, but the tokenizer returns no cursor. */
  lemma {:induction false} ReadFieldsUnterminated(b: seq<char>, c: nat, end: nat, p: SbatEntry, u: seq<char>,
                                                  rest: seq<char>)
    requires c < end && NulFrom(b, c)
    requires b[c..] == u + [NUL] + rest && '\n' !in u && NUL !in u
    ensures ReadFields(b, Some(c), end, 5, p) == EntryResult(Success, Some(SetField(p, 5, u)), None, b)
  {
    var q := c + |u|;
    assert b[c..q] == u && b[q] == NUL by {
      assert b[c..][..|u|] == u && b[c..][|u|] == NUL;
    }
    forall i | c <= i < q
      ensures b[i] != '\n' && b[i] != NUL
    {
      assert b[i] == u[i - c];
    }
    ChrNulAt(b, c, q, '\n');
    ReadFieldsStep(b, c, end, 5, p);
    GetFieldSearch(b, c, end, '\n');
    var f := GetField(b, Some(c), Some(end), '\n');
    assert f == Field(None, Some(c), b);
    assert Text(f) == u;
  }

  /** A line without its newline, from field `k < 5` on, starts with that
      field and its comma, neither of which the field holds. */
  lemma {:induction false} OpenHead(e: SbatEntry, k: nat, rest: seq<char>)
    requires k < 5 && WellFormed(e)
    ensures JoinOpen(Texts(e), k) + rest == Texts(e)[k] + [Delimiter(k)] + (JoinOpen(Texts(e), k + 1) + rest)
    ensures |JoinOpen(Texts(e), k)| == |Texts(e)[k]| + 1 + |JoinOpen(Texts(e), k + 1)|
    ensures Delimiter(k) !in Texts(e)[k] && NUL !in Texts(e)[k]
  {
    assert JoinOpen(Texts(e), k) == Texts(e)[k] + [Delimiter(k)] + JoinOpen(Texts(e), k + 1);
    Associative(Texts(e)[k] + [Delimiter(k)], JoinOpen(Texts(e), k + 1), rest);
  }

  /** One comma-ended field of a line without its newline. */
  lemma {:induction false} OpenStep(b: seq<char>, c: nat, end: nat, k: nat, p: SbatEntry, e: SbatEntry, rest: seq<char>)
    returns (b': seq<char>, c': nat, p': SbatEntry)
    requires k < 5 && WellFormed(e) && NulFrom(b, c)
    requires b[c..] == JoinOpen(Texts(e), k) + rest && c + |JoinOpen(Texts(e), k)| <= end
    requires Agrees(p, e, k)
    ensures |b'| == |b| && NulFrom(b', c') && b'[c'..] == JoinOpen(Texts(e), k + 1) + rest
    ensures c + |JoinOpen(Texts(e), k)| == c' + |JoinOpen(Texts(e), k + 1)|
    ensures Agrees(p', e, k + 1)
    ensures ReadFields(b, Some(c), end, k, p) == ReadFields(b', Some(c'), end, k + 1, p')
  {
    var t := Texts(e)[k];
    OpenHead(e, k, rest);
    b', c' := ReadFieldsSplit(b, c, end, k, p, t, JoinOpen(Texts(e), k + 1) + rest);
    p' := SetField(p, k, t);
    SetFieldTexts(p, k, t);
  }

  /** A last record without a newline is read in full from field `k` on,
      but leaves no cursor behind. */
  lemma {:induction false} ReadFieldsOpen(b: seq<char>, c: nat, end: nat, k: nat, p: SbatEntry, e: SbatEntry,
                                          rest: seq<char>)
    requires k <= 5 && WellFormed(e) && |e.vendorUrl| > 0 && NulFrom(b, c)
    requires b[c..] == JoinOpen(Texts(e), k) + ([NUL] + rest) && c + |JoinOpen(Texts(e), k)| <= end
    requires Agrees(p, e, k)
    ensures var r := ReadFields(b, Some(c), end, k, p);
      r.status == Success && r.entry == Some(e) && r.cur.None?
    decreases 5 - k
  {
    if k == 5 {
      var u := e.vendorUrl;
      assert Texts(e)[5] == u && JoinOpen(Texts(e), 5) == u;
      assert u + ([NUL] + rest) == u + [NUL] + rest;
      ReadFieldsUnterminated(b, c, end, p, u, rest);
      SetFieldTexts(p, 5, u);
      AgreesAll(SetField(p, 5, u), e);
    } else {
      var b', c', p' := OpenStep(b, c, end, k, p, e, [NUL] + rest);
      ReadFieldsOpen(b', c', end, k + 1, p', e, rest);
    }
  }

  /** A last record without a newline: the C compares its NULL cursor with
      `end` and grows the array before the loop test reads through that
      cursor.  A failed growth refuses the section with
      `EFI_OUT_OF_RESOURCES`; otherwise the parser is stuck. */
  lemma {:induction false} ParseFromUnterminated(b: seq<char>, c: nat, end: nat, k: nat, entryOom: nat -> bool,
                                                 growOom: nat -> bool, acc: seq<SbatEntry>, e: SbatEntry,
                                                 rest: seq<char>)
    requires WellFormed(e) && |e.vendorUrl| > 0 && NulFrom(b, c) && !entryOom(k)
    requires b[c..] == JoinOpen(Texts(e), 0) + ([NUL] + rest) && c + |JoinOpen(Texts(e), 0)| <= end
    ensures var p := ParseFrom(b, c, end, k, entryOom, growOom, acc);
      if growOom(k) then p.Parsed? && p.status == OutOfResources && p.entries == [] else p.Stuck?
  {
    assert Agrees(Blank, e, 0);
    ReadFieldsOpen(b, c, end, 0, Blank, e, rest);
  }
}
