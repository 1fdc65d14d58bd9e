/** `get_sbat_field` (sbat.c:9-25): the tokenizer both SBAT parsers share.
    It searches from a cursor for a delimiter, overwrites the delimiter with
    a terminator, and hands back the field's start and the cursor after it. */
module SbatField {
  import opened Wrappers
  import opened CStrings

  /** What one call leaves behind: the cursor it returns, the pointer it
      stored in `*field` (`None` when it stored nothing), and the buffer. */
  datatype Field = Field(next: Option<nat>, start: Option<nat>, buf: seq<char>)

  /** The entry check of `get_sbat_field` passes: both cursors are present
      and `current` lies before `end`.  (The `field` pointer is the caller's
      concern; see `GetSbatField`.) */
  predicate Ready(current: Option<nat>, end: Option<nat>)
  {
    current.Some? && end.Some? && current.value < end.value
  }

  /** A cursor from which a string can be read: absent, or a terminator
      lies at or after it. */
  ghost predicate Scannable(b: seq<char>, current: Option<nat>)
  {
    current.Some? ==> NulFrom(b, current.value)
  }

  /** `get_sbat_field(current, end, &field, delim)` on the buffer `b`.  The
      contract says what the callers chain on; `GetFieldSearch` says where
      the field ends. */
  function GetField(b: seq<char>, current: Option<nat>, end: Option<nat>, delim: char): (f: Field)
    requires Ready(current, end) ==> NulFrom(b, current.value)
    ensures !Ready(current, end) ==> f == Field(None, None, b)
    ensures Ready(current, end) ==> f.start == current && NulFrom(f.buf, current.value)
    ensures |f.buf| == |b| && Scannable(f.buf, f.next)
    ensures f.next.Some? ==> f.start.Some? && f.start.value < f.next.value
  {
    if !Ready(current, end) then Field(None, None, b)
    else
      var c := current.value;
      var p := ChrNul(b, c, delim);
      if b[p] == NUL then Field(None, current, b)
      else
        var b' := b[p := NUL];
        assert NulFrom(b', c) by { assert b'[p] == NUL; }
        assert NulFrom(b', p + 1) by { NulAfterDelimiter(b, c, delim); }
        Field(Some(p + 1), current, b')
  }

  /** Where a call ends the field: at `p`, the first delimiter or terminator
      after the cursor.  Only that byte changes (to a terminator), so the
      field's text is the bytes before it; a cursor is returned exactly when
      a delimiter stopped the search, and it points just past it. */
  lemma {:induction false} GetFieldSearch(b: seq<char>, c: nat, end: nat, delim: char)
    requires c < end && NulFrom(b, c)
    ensures var f, p := GetField(b, Some(c), Some(end), delim), ChrNul(b, c, delim);
      && (forall k :: 0 <= k < |b| && k != p ==> f.buf[k] == b[k])
      && f.buf[p] == NUL
      && Text(f) == b[c..p]
      && (f.next.Some? <==> b[p] != NUL)
      && (f.next.Some? ==> f.next.value == p + 1 && b[p] == delim)
  {
    var f, p := GetField(b, Some(c), Some(end), delim), ChrNul(b, c, delim);
    ChrNulAt(f.buf, c, p, NUL);
  }

  /** A call cuts the buffer at `p`, the first delimiter or terminator
      after the cursor: nothing is cut at a terminator. */
  lemma {:induction false} GetFieldCut(b: seq<char>, c: nat, end: nat, delim: char) returns (p: nat)
    requires c < end && NulFrom(b, c)
    ensures p == ChrNul(b, c, delim)
    ensures GetField(b, Some(c), Some(end), delim) ==
      if b[p] == NUL then Field(None, Some(c), b) else Field(Some(p + 1), Some(c), b[p := NUL])
  {
    p := ChrNul(b, c, delim);
  }

  /** When the search stops at a delimiter, the string's terminator lies
      further on. */
  lemma {:induction false} NulAfterDelimiter(b: seq<char>, c: nat, delim: char)
    requires NulFrom(b, c) && b[ChrNul(b, c, delim)] != NUL
    ensures NulFrom(b[ChrNul(b, c, delim) := NUL], ChrNul(b, c, delim) + 1)
  {
    var p, e := ChrNul(b, c, delim), StrEnd(b, c);
    ChrNulWithinString(b, c, delim);
    assert p < e;
    assert b[p := NUL][e] == NUL;
  }

  /** The text of the field a call stored, as the buffer holds it afterwards. */
  function Text(f: Field): (t: seq<char>)
    requires f.start.Some? && NulFrom(f.buf, f.start.value)
    ensures NUL !in t
  {
    CStr(f.buf, f.start.value)
  }

  /** The inverse of the tokenizer: a field `t` followed by the delimiter is
      split off exactly, with the cursor placed just after the delimiter and
      only the delimiter overwritten. */
  lemma {:induction false} GetFieldSplit(b: seq<char>, c: nat, end: nat, t: seq<char>, delim: char)
    requires c < end && NulFrom(b, c) && c + |t| < |b|
    requires b[c..c + |t|] == t && b[c + |t|] == delim
    requires delim != NUL && delim !in t && NUL !in t
    ensures GetField(b, Some(c), Some(end), delim) == Field(Some(c + |t| + 1), Some(c), b[c + |t| := NUL])
    ensures NulFrom(b[c + |t| := NUL], c) && CStr(b[c + |t| := NUL], c) == t
  {
    var p := c + |t|;
    forall k | c <= k < p
      ensures b[k] != delim && b[k] != NUL
    {
      assert b[k] == t[k - c];
    }
    ChrNulAt(b, c, p, delim);
    GetFieldSearch(b, c, end, delim);
  }

  /** The pointer cell `*field`: `get_sbat_field` stores the field's start
      into it, or leaves it alone. */
  class FieldSlot {
    var target: Option<nat>

    constructor ()
      ensures target == None
    {
      target := None;
    }
  }

  /** `get_sbat_field(current, end, field, delim)` on the memory `buf`: a
      NULL `field` is refused like a NULL cursor, and otherwise the cell,
      the buffer and the returned cursor are those of `GetField`. */
  method GetSbatField(buf: array<char>, current: Option<nat>, end: Option<nat>, field: FieldSlot?, delim: char)
    returns (next: Option<nat>)
    requires Ready(current, end) ==> NulFrom(buf[..], current.value)
    modifies buf, field
    ensures field == null ==> next == None && buf[..] == old(buf[..])
    ensures field != null ==>
      var f := GetField(old(buf[..]), current, end, delim);
      && next == f.next
      && buf[..] == f.buf
      && field.target == (if f.start.Some? then f.start else old(field.target))
  {
    if field == null || !Ready(current, end) {
      return None;
    }
    var offset := StrChrNul(buf, current.value, delim);
    field.target := current;
    if buf[offset.value] == NUL {
      return None;
    }
    buf[offset.value] := NUL;
    return Some(offset.value + 1);
  }
}
