/** What the SBAT-variable parser is proved to do: a variable written as
    `name,generation[,comment]` lines is read back pair for pair, in order,
    with the comments dropped; a name alone on its line takes the next
    line's first field as its generation; a last line without a newline is
    rejected; and a failed allocation rejects the whole variable. */
module SbatVarsProps {
  import opened Wrappers
  import opened CStrings
  import opened SbatTypes
  import opened SbatField
  import opened SbatVars
  import opened SeqFacts
  import opened Compiler

  /** Text a field of the variable can hold: no comma, newline or
      terminator. */
  predicate Plain(t: seq<char>)
  {
    ',' !in t && '\n' !in t && NUL !in t
  }

  /** One line of the variable: the pair it names and an optional comment. */
  datatype Revocation = Revocation(entry: SbatVar, comment: Option<seq<char>>)

  /** The comment may hold commas, but no newline or terminator. */
  predicate WellFormedVar(r: Revocation)
  {
    && Plain(r.entry.componentName)
    && Plain(r.entry.componentGeneration)
    && (r.comment.Some? ==> '\n' !in r.comment.value && NUL !in r.comment.value)
  }

  /** `name,generation\n` or `name,generation,comment\n`. */
  function VarLine(r: Revocation): seq<char>
  {
    r.entry.componentName + [','] + r.entry.componentGeneration
    + (if r.comment.Some? then [','] + r.comment.value else []) + ['\n']
  }

  /** The text of a variable holding the lines `rs`. */
  function EncodeVars(rs: seq<Revocation>): seq<char>
  {
    if |rs| == 0 then [] else VarLine(rs[0]) + EncodeVars(rs[1..])
  }

  /** The pairs the lines `rs` name, in order. */
  function Entries(rs: seq<Revocation>): (vs: seq<SbatVar>)
    ensures |vs| == |rs|
  {
    if |rs| == 0 then [] else [rs[0].entry] + Entries(rs[1..])
  }

  /** No allocation fails for entries `k..k+n-1`. */
  ghost predicate NoAddOom(addOom: nat -> bool, k: nat, n: nat)
  {
    forall i :: k <= i < k + n ==> !addOom(i)
  }

  /** A plain field followed by a comma or a newline makes `Pick` choose that
      delimiter: the field never reaches past the end of its line. */
  lemma {:induction false} PickAt(b: seq<char>, c: nat, t: seq<char>, d: char)
    requires NulFrom(b, c) && c + |t| < |b| && b[c..c + |t|] == t && b[c + |t|] == d
    requires (d == ',' || d == '\n') && Plain(t)
    ensures Pick(b, c) == d
  {
    var p := c + |t|;
    forall k | c <= k < p
      ensures b[k] != ',' && b[k] != '\n' && b[k] != NUL
    {
      assert b[k] == t[k - c];
    }
    ChrNulAt(b, c, p, d);
    var other := if d == ',' then '\n' else ',';
    assert ChrNul(b, c, other) != p;
  }

  /** The field `Pick` delimits holds neither a comma nor a newline, and it
      ends at the first comma, newline or terminator. */
  lemma {:induction false} PickField(b: seq<char>, s: nat)
    requires NulFrom(b, s)
    ensures var p := ChrNul(b, s, Pick(b, s));
      && (b[p] == ',' || b[p] == '\n' || b[p] == NUL)
      && forall k :: s <= k < p ==> b[k] != ',' && b[k] != '\n' && b[k] != NUL
  {
    var n, c := ChrNul(b, s, '\n'), ChrNul(b, s, ',');
    var p := ChrNul(b, s, Pick(b, s));
    forall k | s <= k < p
      ensures b[k] != ',' && b[k] != '\n'
    {
      assert k < n && k < c;
    }
  }

  /** Turn `i` (0 or 1) of the inner loop when `get_sbat_field` stores a
      field: the loop goes on from the cursor it returns. */
  lemma {:induction false} ReadPairStep(b: seq<char>, c: nat, end: nat, i: nat, delim: char, fields: seq<seq<char>>)
    requires i < 2 && |fields| == i && c < end && NulFrom(b, c)
    ensures var d := Pick(b, c);
      var f := GetField(b, Some(c), Some(end), d);
      ReadPair(b, Some(c), end, i, delim, fields) == ReadPair(f.buf, f.next, end, i + 1, d, fields + [Text(f)])
  {
  }

  /** The text after a field and its delimiter is what follows them. */
  lemma {:induction false} RestAfterCut(b: seq<char>, c: nat, t: seq<char>, d: char, rest: seq<char>)
    requires c <= |b| && b[c..] == t + [d] + rest
    ensures b[c + |t| := NUL][c + |t| + 1..] == rest
  {
    UpdateBefore(b, c + |t|, NUL, c + |t| + 1);
    assert b[c + |t| + 1..] == b[c..][|t| + 1..];
  }

  /** Turn `i` (0 or 1) where the buffer holds the plain field `t` and
      then `d`. */
  lemma {:induction false} ReadPairAt(b: seq<char>, c: nat, end: nat, i: nat, delim: char, fields: seq<seq<char>>,
                                      t: seq<char>, d: char) returns (b': seq<char>, c': nat)
    requires i < 2 && |fields| == i && c < end && NulFrom(b, c) && c + |t| < |b|
    requires b[c..c + |t|] == t && b[c + |t|] == d && (d == ',' || d == '\n') && Plain(t)
    ensures b' == b[c + |t| := NUL] && c' == c + |t| + 1 && NulFrom(b', c')
    ensures ReadPair(b, Some(c), end, i, delim, fields) == ReadPair(b', Some(c'), end, i + 1, d, fields + [t])
  {
    b', c' := b[c + |t| := NUL], c + |t| + 1;
    PickAt(b, c, t, d);
    GetFieldSplit(b, c, end, t, d);
    ReadPairStep(b, c, end, i, delim, fields);
    var f := GetField(b, Some(c), Some(end), d);
    assert f.buf == b' && f.next == Some(c') && f.start == Some(c);
    assert Text(f) == t;
  }

  /** Turn `i` (0 or 1) of the inner loop on a plain field `t` ended by
      `d`: the field is stored, `d` becomes the previous delimiter, and
      the cursor moves past it. */
  lemma {:induction false} VarFieldSplit(b: seq<char>, c: nat, end: nat, i: nat, delim: char, fields: seq<seq<char>>,
                                         t: seq<char>, d: char, rest: seq<char>)
    returns (b': seq<char>, c': nat, fields': seq<seq<char>>)
    requires i < 2 && |fields| == i && c < end && NulFrom(b, c)
    requires b[c..] == t + [d] + rest && (d == ',' || d == '\n') && Plain(t)
    ensures c' == c + |t| + 1 && b' == b[c + |t| := NUL] && fields' == fields + [t]
    ensures |b'| == |b| && b'[c'..] == rest && NulFrom(b', c')
    ensures ReadPair(b, Some(c), end, i, delim, fields) == ReadPair(b', Some(c'), end, i + 1, d, fields')
  {
    assert b[c..c + |t|] == t && b[c + |t|] == d by {
      assert b[c..][..|t|] == t && b[c..][|t|] == d;
    }
    b', c' := ReadPairAt(b, c, end, i, delim, fields, t, d);
    fields' := fields + [t];
    RestAfterCut(b, c, t, d, rest);
  }

  /** Turn 2 after a generation that ended at a comma: the comment `x` and
      its newline are consumed. */
  lemma {:induction false} CommentSplit(b: seq<char>, c: nat, end: nat, fields: seq<seq<char>>, x: seq<char>,
                                        rest: seq<char>) returns (b': seq<char>, c': nat)
    requires |fields| == 2 && c < end && NulFrom(b, c)
    requires b[c..] == x + ['\n'] + rest && '\n' !in x && NUL !in x
    ensures c' == c + |x| + 1 && b' == b[c + |x| := NUL]
    ensures |b'| == |b| && b'[c'..] == rest && NulFrom(b', c')
    ensures ReadPair(b, Some(c), end, 2, ',', fields) == Read(fields[0], fields[1], Some(c'), b')
  {
    assert b[c..c + |x|] == x && b[c + |x|] == '\n' by {
      assert b[c..][..|x|] == x && b[c..][|x|] == '\n';
    }
    GetFieldSplit(b, c, end, x, '\n');
    RestAfterCut(b, c, x, '\n', rest);
    b', c' := b[c + |x| := NUL], c + |x| + 1;
    assert Read(fields[0], fields[1], Some(c'), b') == Read(fields[0], fields[1], Some(c + |x| + 1), b[c + |x| := NUL]);
  }

  /** A line never starts with a terminator, so the loop reads it. */
  lemma {:induction false} VarLineHead(r: Revocation, rest: seq<char>)
    requires WellFormedVar(r)
    ensures (VarLine(r) + rest)[0] != NUL
  {
    var nm := r.entry.componentName;
    if |nm| > 0 {
      assert (VarLine(r) + rest)[0] == nm[0];
    } else {
      assert (VarLine(r) + rest)[0] == ',';
    }
  }

  /** A line `name,generation,comment\n` is read as its pair, the comment
      dropped, and the cursor left just past its newline. */
  lemma {:induction false} CommentLineRead(b: seq<char>, c: nat, end: nat, nm: seq<char>, g: seq<char>, x: seq<char>,
                                           rest: seq<char>) returns (b': seq<char>, n: nat)
    requires NulFrom(b, c) && b[c..] == nm + [','] + g + [','] + x + ['\n'] + rest
    requires Plain(nm) && Plain(g) && '\n' !in x && NUL !in x
    requires c + |nm| + |g| + |x| + 3 <= end
    ensures n == c + |nm| + |g| + |x| + 3 && |b'| == |b| && b'[n..] == rest && NulFrom(b', n)
    ensures ReadPair(b, Some(c), end, 0, ',', []) == Read(nm, g, Some(n), b')
  {
    assert nm + [','] + g + [','] + x + ['\n'] + rest == nm + [','] + (g + [','] + (x + ['\n'] + rest));
    var b1, c1, f1 := VarFieldSplit(b, c, end, 0, ',', [], nm, ',', g + [','] + (x + ['\n'] + rest));
    var b2, c2, f2 := VarFieldSplit(b1, c1, end, 1, ',', f1, g, ',', x + ['\n'] + rest);
    b', n := CommentSplit(b2, c2, end, f2, x, rest);
  }

  /** A generation that ended at a newline ends the line: the cursor is
      left where it is. */
  lemma {:induction false} LineDone(b: seq<char>, c: nat, end: nat, fields: seq<seq<char>>)
    requires |fields| == 2 && NulFrom(b, c)
    ensures ReadPair(b, Some(c), end, 2, '\n', fields) == Read(fields[0], fields[1], Some(c), b)
  {
  }

  /** A line `name,generation\n` is read as its pair, and the cursor left
      just past its newline. */
  lemma {:induction false} PlainLineRead(b: seq<char>, c: nat, end: nat, nm: seq<char>, g: seq<char>,
                                         rest: seq<char>) returns (b': seq<char>, n: nat)
    requires NulFrom(b, c) && b[c..] == nm + [','] + g + ['\n'] + rest
    requires Plain(nm) && Plain(g)
    requires c + |nm| + |g| + 2 <= end
    ensures n == c + |nm| + |g| + 2 && |b'| == |b| && b'[n..] == rest && NulFrom(b', n)
    ensures ReadPair(b, Some(c), end, 0, ',', []) == Read(nm, g, Some(n), b')
  {
    assert nm + [','] + g + ['\n'] + rest == nm + [','] + (g + ['\n'] + rest);
    var b1, c1, f1 := VarFieldSplit(b, c, end, 0, ',', [], nm, ',', g + ['\n'] + rest);
    var b2, c2, f2 := VarFieldSplit(b1, c1, end, 1, ',', f1, g, '\n', rest);
    LineDone(b2, c2, end, f2);
    b', n := b2, c2;
  }

  /** A well-formed line is read as its pair, the comment dropped, and the
      cursor left just past its newline. */
  lemma {:induction false} VarLineRead(b: seq<char>, c: nat, end: nat, r: Revocation, rest: seq<char>)
    returns (b': seq<char>, n: nat)
    requires WellFormedVar(r) && NulFrom(b, c) && b[c..] == VarLine(r) + rest && c + |VarLine(r)| <= end
    ensures n == c + |VarLine(r)| && |b'| == |b| && b'[n..] == rest && NulFrom(b', n)
    ensures ReadPair(b, Some(c), end, 0, ',', []) ==
      Read(r.entry.componentName, r.entry.componentGeneration, Some(n), b')
  {
    var nm, g := r.entry.componentName, r.entry.componentGeneration;
    if r.comment.Some? {
      var x := r.comment.value;
      assert VarLine(r) == nm + [','] + g + [','] + x + ['\n'];
      b', n := CommentLineRead(b, c, end, nm, g, x, rest);
    } else {
      assert VarLine(r) == nm + [','] + g + ['\n'];
      b', n := PlainLineRead(b, c, end, nm, g, rest);
    }
  }

    /** A turn of the `while` loop that reads a line and lists its pair goes
      on from the cursor the line left. */
  lemma {:induction false} TurnRead(b: seq<char>, c: nat, end: nat, k: nat, addOom: nat -> bool, acc: seq<SbatVar>,
                                    nm: seq<char>, g: seq<char>, n: nat, b': seq<char>)
    requires NulFrom(b, c) && b[c] != NUL && !addOom(k) && NulFrom(b', n)
    requires ReadPair(b, Some(c), end, 0, ',', []) == Read(nm, g, Some(n), b')
    ensures ParseVarsFrom(b, c, end, k, addOom, acc) == ParseVarsFrom(b', n, end, k + 1, addOom, acc + [SbatVar(nm, g)])
  {
  }

  /** A turn whose allocation fails rejects the variable. */
  lemma {:induction false} TurnOom(b: seq<char>, c: nat, end: nat, k: nat, addOom: nat -> bool, acc: seq<SbatVar>)
    requires NulFrom(b, c) && b[c] != NUL && addOom(k)
    requires ReadPair(b, Some(c), end, 0, ',', []).Read?
    ensures ParseVarsFrom(b, c, end, k, addOom, acc) == VarParsed(InvalidParameter, [])
  {
  }

  /** A turn that reads a line but leaves no cursor is stuck. */
  lemma {:induction false} TurnNoCursor(b: seq<char>, c: nat, end: nat, k: nat, addOom: nat -> bool, acc: seq<SbatVar>)
    requires NulFrom(b, c) && b[c] != NUL && !addOom(k)
    requires ReadPair(b, Some(c), end, 0, ',', []).Read? && ReadPair(b, Some(c), end, 0, ',', []).next.None?
    ensures ParseVarsFrom(b, c, end, k, addOom, acc).Stuck?
  {
  }

  /** A turn whose line is rejected rejects the variable. */
  lemma {:induction false} TurnRejected(b: seq<char>, c: nat, end: nat, k: nat, addOom: nat -> bool, acc: seq<SbatVar>)
    requires NulFrom(b, c) && b[c] != NUL
    requires ReadPair(b, Some(c), end, 0, ',', []).Rejected?
    ensures ParseVarsFrom(b, c, end, k, addOom, acc) == VarParsed(InvalidParameter, [])
  {
  }

  /** One turn of the `while` loop over the first line of a variable text. */
  lemma {:induction false} VarsStep(b: seq<char>, c: nat, end: nat, k: nat, addOom: nat -> bool, acc: seq<SbatVar>,
                                    rs: seq<Revocation>, rest: seq<char>) returns (b': seq<char>, n: nat)
    requires NulFrom(b, c) && b[c..] == EncodeVars(rs) + rest && c + |EncodeVars(rs)| <= end
    requires |rs| > 0 && WellFormedVar(rs[0]) && !addOom(k)
    ensures n + |EncodeVars(rs[1..])| == c + |EncodeVars(rs)| && |b'| == |b| && NulFrom(b', n)
    ensures b'[n..] == EncodeVars(rs[1..]) + rest
    ensures ParseVarsFrom(b, c, end, k, addOom, acc) == ParseVarsFrom(b', n, end, k + 1, addOom, acc + [rs[0].entry])
  {
    Associative(VarLine(rs[0]), EncodeVars(rs[1..]), rest);
    VarLineHead(rs[0], EncodeVars(rs[1..]) + rest);
    assert b[c] == b[c..][0];
    b', n := VarLineRead(b, c, end, rs[0], EncodeVars(rs[1..]) + rest);
    TurnRead(b, c, end, k, addOom, acc, rs[0].entry.componentName, rs[0].entry.componentGeneration, n, b');
  }

  /** The lines `rs` are read one after the other: parsing from `c` goes on
      from `stop`, just past them, with their pairs appended to the list. */
  lemma {:induction false} VarsPrefix(b: seq<char>, c: nat, end: nat, k: nat, addOom: nat -> bool, acc: seq<SbatVar>,
                                      rs: seq<Revocation>, rest: seq<char>, stop: nat, last: nat)
    returns (b': seq<char>)
    requires NulFrom(b, c) && b[c..] == EncodeVars(rs) + rest && NUL in rest
    requires stop == c + |EncodeVars(rs)| && stop <= end && last == k + |rs|
    requires forall i :: 0 <= i < |rs| ==> WellFormedVar(rs[i])
    requires NoAddOom(addOom, k, |rs|)
    ensures |b'| == |b| && b'[stop..] == rest && NulFrom(b', stop)
    ensures ParseVarsFrom(b, c, end, k, addOom, acc) == ParseVarsFrom(b', stop, end, last, addOom, acc + Entries(rs))
    decreases |rs|
  {
    if |rs| == 0 {
      assert b[c..] == rest;
      assert acc + Entries(rs) == acc;
      b' := b;
    } else {
      assert !addOom(k);
      var b1, n1 := VarsStep(b, c, end, k, addOom, acc, rs, rest);
      b' := VarsPrefix(b1, n1, end, k + 1, addOom, acc + [rs[0].entry], rs[1..], rest, stop, last);
      Associative(acc, [rs[0].entry], Entries(rs[1..]));
    }
  }

  /** Round trip: a variable whose text is well-formed lines, after an
      optional byte-order mark and followed by a terminator, is read back as
      their pairs, in order, with the comments dropped.  The size may count
      the terminator or not.  A variable without a mark must not pass the
      mark check as written (only the empty variable counted without its
      terminator does: see `EmptyVariableStuck`). */
  lemma {:induction false} VariableRoundTrip(rs: seq<Revocation>, prefix: seq<char>, b: seq<char>, size: nat,
                                             addOom: nat -> bool)
    requires b == prefix + EncodeVars(rs) + [NUL] && |b| - 1 <= size <= |b|
    requires prefix == Bom || (prefix == [] && !IsUtf8BomAsWritten(b, size))
    requires forall i :: 0 <= i < |rs| ==> WellFormedVar(rs[i])
    requires NoAddOom(addOom, 0, |rs|)
    ensures NulFrom(b, DataStart(b, size))
    ensures ParseVariable(b, size, addOom) == VarParsed(Success, Entries(rs))
  {
    var c := DataStart(b, size);
    assert c == |prefix| && DataStartAsWritten(b, size) == c by {
      if prefix == Bom {
        assert b[..|Bom|] == Bom;
      }
    }
    assert b[c..] == EncodeVars(rs) + [NUL];
    assert NulFrom(b, c) by {
      assert b[|b| - 1] == NUL;
    }
    var b' := VarsPrefix(b, c, size, 0, addOom, [], rs, [NUL], |b| - 1, |rs|);
    assert b'[|b| - 1] == NUL;
    AppendEmpty(Entries(rs));
  }

  /** A failed allocation for a well-formed line rejects the variable. */
  lemma {:induction false} LineOom(b: seq<char>, c: nat, end: nat, k: nat, addOom: nat -> bool, acc: seq<SbatVar>,
                                   r: Revocation, rest: seq<char>)
    requires NulFrom(b, c) && b[c..] == VarLine(r) + rest && c + |VarLine(r)| <= end
    requires WellFormedVar(r) && addOom(k)
    ensures ParseVarsFrom(b, c, end, k, addOom, acc) == VarParsed(InvalidParameter, [])
  {
    VarLineHead(r, rest);
    assert b[c] == b[c..][0];
    var b2, n := VarLineRead(b, c, end, r, rest);
    TurnOom(b, c, end, k, addOom, acc);
  }

  /** A failed allocation for the line after `rs` rejects the whole
      variable, including the pairs already listed. */
  lemma {:induction false} AllocationFailureRejects(rs: seq<Revocation>, r: Revocation, rest: seq<char>,
                                                    b: seq<char>, end: nat, addOom: nat -> bool)
    requires b == EncodeVars(rs) + VarLine(r) + rest && NUL in rest && |EncodeVars(rs) + VarLine(r)| <= end
    requires WellFormedVar(r) && forall i :: 0 <= i < |rs| ==> WellFormedVar(rs[i])
    requires NoAddOom(addOom, 0, |rs|) && addOom(|rs|)
    ensures NulFrom(b, 0)
    ensures ParseVarsFrom(b, 0, end, 0, addOom, []) == VarParsed(InvalidParameter, [])
  {
    var stop := |EncodeVars(rs)|;
    var t := VarLine(r) + rest;
    Associative(EncodeVars(rs), VarLine(r), rest);
    AppendEmpty(b);
    var m :| 0 <= m < |rest| && rest[m] == NUL;
    assert t[|VarLine(r)| + m] == NUL;
    assert b[stop + |VarLine(r)| + m] == NUL;
    var b' := VarsPrefix(b, 0, end, 0, addOom, [], rs, t, stop, |rs|);
    LineOom(b', stop, end, |rs|, addOom, [] + Entries(rs), r, rest);
  }

  /** A plain generation that ends at the terminator: the field is
      stored, but no cursor is left, so the third turn fails. */
  lemma {:induction false} GenerationUnterminated(b: seq<char>, c: nat, end: nat, delim: char, fields: seq<seq<char>>,
                                                  g: seq<char>, rest: seq<char>)
    requires |fields| == 1 && c < end && NulFrom(b, c)
    requires b[c..] == g + [NUL] + rest && Plain(g)
    ensures ReadPair(b, Some(c), end, 1, delim, fields) == Rejected
  {
    assert b[c..c + |g|] == g && b[c + |g|] == NUL by {
      assert b[c..][..|g|] == g && b[c..][|g|] == NUL;
    }
    forall j | c <= j < c + |g|
      ensures b[j] != '\n' && b[j] != ',' && b[j] != NUL
    {
      assert b[j] == g[j - c];
    }
    ChrNulAt(b, c, c + |g|, '\n');
    ChrNulAt(b, c, c + |g|, ',');
    assert Pick(b, c) == '\n';
  }

  /** A turn on the line `name,generation` that the terminator ends is
      rejected: the generation field leaves no cursor. */
  lemma {:induction false} LastLineRejected(b: seq<char>, c: nat, end: nat, k: nat, addOom: nat -> bool,
                                            acc: seq<SbatVar>, nm: seq<char>, g: seq<char>)
    requires NulFrom(b, c) && b[c..] == nm + [','] + g + [NUL] && c + |nm| + 1 < end
    requires Plain(nm) && Plain(g)
    ensures ParseVarsFrom(b, c, end, k, addOom, acc) == VarParsed(InvalidParameter, [])
  {
    assert b[c] != NUL by {
      assert b[c] == b[c..][0];
      if |nm| > 0 {
        assert b[c..][0] == nm[0];
      } else {
        assert b[c..][0] == ',';
      }
    }
    assert nm + [','] + g + [NUL] == nm + [','] + (g + [NUL] + []);
    var b1, c1, f1 := VarFieldSplit(b, c, end, 0, ',', [], nm, ',', g + [NUL] + []);
    GenerationUnterminated(b1, c1, end, ',', f1, g, []);
    TurnRejected(b, c, end, k, addOom, acc);
  }

  /** A last line `name,generation` without a newline is rejected, and
      with it every pair before it: the generation field ends at the
      terminator, so no cursor is left for the third turn. */
  lemma {:induction false} UnterminatedRejected(rs: seq<Revocation>, nm: seq<char>, g: seq<char>, b: seq<char>,
                                                end: nat, addOom: nat -> bool)
    requires b == EncodeVars(rs) + (nm + [','] + g + [NUL]) && |EncodeVars(rs)| + |nm| + 1 < end
    requires Plain(nm) && Plain(g) && forall i :: 0 <= i < |rs| ==> WellFormedVar(rs[i])
    requires NoAddOom(addOom, 0, |rs|)
    ensures NulFrom(b, 0)
    ensures ParseVarsFrom(b, 0, end, 0, addOom, []) == VarParsed(InvalidParameter, [])
  {
    var stop := |EncodeVars(rs)|;
    var rest := nm + [','] + g + [NUL];
    AppendEmpty(b);
    assert rest[|rest| - 1] == NUL;
    assert b[|b| - 1] == NUL;
    var b' := VarsPrefix(b, 0, end, 0, addOom, [], rs, rest, stop, |rs|);
    LastLineRejected(b', stop, end, |rs|, addOom, [] + Entries(rs), nm, g);
  }

  /** A name alone on its line does not end the pair: the name is taken
      up to its newline, and the generation is the next line's first
      field; the rest of that line is dropped as a comment. */
  lemma {:induction false} NameOnlyLine(b: seq<char>, c: nat, end: nat, nm: seq<char>, g: seq<char>, x: seq<char>,
                                        rest: seq<char>) returns (b': seq<char>, n: nat)
    requires NulFrom(b, c) && b[c..] == nm + ['\n'] + g + [','] + x + ['\n'] + rest
    requires Plain(nm) && Plain(g) && '\n' !in x && NUL !in x
    requires c + |nm| + |g| + |x| + 3 <= end
    ensures n == c + |nm| + |g| + |x| + 3 && |b'| == |b| && b'[n..] == rest && NulFrom(b', n)
    ensures ReadPair(b, Some(c), end, 0, ',', []) == Read(nm, g, Some(n), b')
  {
    assert nm + ['\n'] + g + [','] + x + ['\n'] + rest == nm + ['\n'] + (g + [','] + (x + ['\n'] + rest));
    var b1, c1, f1 := VarFieldSplit(b, c, end, 0, ',', [], nm, '\n', g + [','] + (x + ['\n'] + rest));
    var b2, c2, f2 := VarFieldSplit(b1, c1, end, 1, '\n', f1, g, ',', x + ['\n'] + rest);
    b', n := CommentSplit(b2, c2, end, f2, x, rest);
  }

  /** A comment that ends at the terminator leaves no cursor after the
      line. */
  lemma {:induction false} CommentUnterminated(b: seq<char>, c: nat, end: nat, fields: seq<seq<char>>, x: seq<char>)
    requires |fields| == 2 && c < end && NulFrom(b, c)
    requires b[c..] == x + [NUL] && '\n' !in x && NUL !in x
    ensures ReadPair(b, Some(c), end, 2, ',', fields) == Read(fields[0], fields[1], None, b)
  {
    assert b[c..c + |x|] == x && b[c + |x|] == NUL by {
      assert b[c..][..|x|] == x && b[c..][|x|] == NUL;
    }
    forall j | c <= j < c + |x|
      ensures b[j] != '\n' && b[j] != NUL
    {
      assert b[j] == x[j - c];
    }
    ChrNulAt(b, c, c + |x|, '\n');
  }

  /** The line `name,generation,comment` that the terminator ends is read
      as its pair with no cursor after it. */
  lemma {:induction false} CommentLineUnterminated(b: seq<char>, c: nat, end: nat, nm: seq<char>, g: seq<char>,
                                                   x: seq<char>) returns (b': seq<char>)
    requires NulFrom(b, c) && b[c..] == nm + [','] + g + [','] + x + [NUL]
    requires Plain(nm) && Plain(g) && '\n' !in x && NUL !in x
    requires c + |nm| + |g| + 2 < end
    ensures ReadPair(b, Some(c), end, 0, ',', []) == Read(nm, g, None, b')
  {
    assert nm + [','] + g + [','] + x + [NUL] == nm + [','] + (g + [','] + (x + [NUL]));
    var b1, c1, f1 := VarFieldSplit(b, c, end, 0, ',', [], nm, ',', g + [','] + (x + [NUL]));
    var b2, c2, f2 := VarFieldSplit(b1, c1, end, 1, ',', f1, g, ',', x + [NUL]);
    CommentUnterminated(b2, c2, end, f2, x);
    b' := b2;
  }

  /** A comment on the last line without a newline leaves no cursor: the
      loop test then reads through NULL, for which nothing is promised. */
  lemma {:induction false} UnterminatedCommentStuck(b: seq<char>, c: nat, end: nat, k: nat, addOom: nat -> bool,
                                                    acc: seq<SbatVar>, nm: seq<char>, g: seq<char>, x: seq<char>)
    requires NulFrom(b, c) && b[c..] == nm + [','] + g + [','] + x + [NUL]
    requires Plain(nm) && Plain(g) && '\n' !in x && NUL !in x
    requires c + |nm| + |g| + 2 < end && !addOom(k)
    ensures ParseVarsFrom(b, c, end, k, addOom, acc).Stuck?
  {
    assert b[c] != NUL by {
      if |nm| > 0 {
        assert b[c] == b[c..][0] == nm[0];
      } else {
        assert b[c] == b[c..][0] == ',';
      }
    }
    var b' := CommentLineUnterminated(b, c, end, nm, g, x);
    TurnNoCursor(b, c, end, k, addOom, acc);
  }

  /** As written, the byte-order-mark check passes on an empty variable,
      so the parser would start three bytes past the end of its data. */
  lemma {:induction false} EmptyVariableSkipsPastData(buf: seq<char>)
    ensures IsUtf8BomAsWritten(buf, 0) && !IsUtf8Bom(buf, 0)
    ensures DataStartAsWritten(buf, 0) == |Bom| > 0 == DataStart(buf, 0)
  {
  }

  /** As written, a variable of one or two bytes that begin the mark also
      passes, and the parser would start past its data: no outcome is
      defined. */
  lemma {:induction false} ShortMarkSkipsPastData(buf: seq<char>, size: nat, addOom: nat -> bool)
    requires 0 < size < |Bom| && size <= |buf| && buf[..size] == Bom[..size]
    ensures IsUtf8BomAsWritten(buf, size) && !IsUtf8Bom(buf, size)
    ensures DataStartAsWritten(buf, size) > size
    ensures NulFrom(buf, DataStart(buf, size)) ==> ParseVariable(buf, size, addOom).Stuck?
  {
    assert buf[..Min(|Bom|, size)] == buf[..size];
  }

  /** As written, the parser reads the empty variable three bytes past its
      data: no outcome is defined. */
  lemma {:induction false} EmptyVariableStuck(buf: seq<char>, addOom: nat -> bool)
    requires |buf| > 0 && buf[0] == NUL
    ensures NulFrom(buf, DataStart(buf, 0))
    ensures ParseVariable(buf, 0, addOom).Stuck?
  {
    assert DataStart(buf, 0) == 0;
  }

  /** With the corrected check the loop starts at the empty variable's
      terminator, and the variable is an empty list. */
  lemma {:induction false} EmptyVariableAccepted(buf: seq<char>, addOom: nat -> bool)
    requires |buf| > 0 && buf[0] == NUL
    ensures DataStart(buf, 0) == 0 && NulFrom(buf, DataStart(buf, 0))
    ensures ParseVarsFrom(buf, DataStart(buf, 0), 0, 0, addOom, []) == VarParsed(Success, [])
  {
    assert DataStart(buf, 0) == 0;
  }
}
