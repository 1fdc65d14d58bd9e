/** The parser of an image's `.sbat` section (sbat.c:27-119): a CSV text of
    six-field records, one per line, read in place from the section's
    memory into a growing array of records. */
module SbatSection {
  import opened Wrappers
  import opened CStrings
  import opened SbatTypes
  import opened SbatField

  /** What `parse_sbat_entry` leaves behind: its status, the record it
      stored in `*sbat_entry` (if any), the cursor it stored in `*current`,
      and the buffer. */
  datatype EntryResult = EntryResult(status: Status, entry: Option<SbatEntry>, cur: Option<nat>, buf: seq<char>)

  /** The delimiter that ends field `k` of a record: a comma for the first
      five, a newline for the vendor URL. */
  function Delimiter(k: nat): char
  {
    if k < 5 then ',' else '\n'
  }

  /** The record as zero-allocated: every text empty. */
  const Blank := SbatEntry([], [], [], [], [], [])

  /** The record `e` with field `k` (in declaration order) set to `t`. */
  function SetField(e: SbatEntry, k: nat, t: seq<char>): SbatEntry
    requires k < 6
  {
    match k
    case 0 => e.(componentName := t)
    case 1 => e.(componentGeneration := t)
    case 2 => e.(vendorName := t)
    case 3 => e.(vendorPackageName := t)
    case 4 => e.(vendorVersion := t)
    case 5 => e.(vendorUrl := t)
  }

  /** The record fields `k..5` read on from cursor `cur` into the partly
      filled record `e`: the first field the tokenizer does not store makes
      the record invalid. */
  function ReadFields(b: seq<char>, cur: Option<nat>, end: nat, k: nat, e: SbatEntry): (r: EntryResult)
    requires k <= 6 && Scannable(b, cur)
    ensures |r.buf| == |b|
    ensures r.status == Success || r.status == InvalidParameter
    ensures r.status == Success <==> r.entry.Some?
    ensures r.status == Success ==> Scannable(r.buf, r.cur)
    ensures r.status == Success && r.cur.Some? ==>
      cur.Some? && cur.value <= r.cur.value && (k < 6 ==> cur.value < r.cur.value)
    decreases 6 - k
  {
    if k == 6 then EntryResult(Success, Some(e), cur, b)
    else
      var f := GetField(b, cur, Some(end), Delimiter(k));
      if f.start.None? then EntryResult(InvalidParameter, None, f.next, f.buf)
      else ReadFields(f.buf, f.next, end, k + 1, SetField(e, k, Text(f)))
  }

  /** One field of a record, from a cursor that passes the entry check. */
  lemma {:induction false} ReadFieldsStep(b: seq<char>, c: nat, end: nat, k: nat, e: SbatEntry)
    requires k < 6 && c < end && NulFrom(b, c)
    ensures var f := GetField(b, Some(c), Some(end), Delimiter(k));
      ReadFields(b, Some(c), end, k, e) == ReadFields(f.buf, f.next, end, k + 1, SetField(e, k, Text(f)))
  {
  }

  /** `parse_sbat_entry(&current, end, &entry)` on the buffer `b`; `oom` says
      whether the record allocation fails. */
  function ParseEntry(b: seq<char>, cur: Option<nat>, end: nat, oom: bool): (r: EntryResult)
    requires Scannable(b, cur)
    ensures |r.buf| == |b|
    ensures oom ==> r == EntryResult(OutOfResources, None, cur, b)
    ensures !oom ==> (r.status == Success || r.status == InvalidParameter)
    ensures r.status == Success <==> r.entry.Some?
    ensures r.status == Success ==> Scannable(r.buf, r.cur)
    ensures r.status == Success && r.cur.Some? ==> cur.Some? && cur.value < r.cur.value
  {
    if oom then EntryResult(OutOfResources, None, cur, b)
    else ReadFields(b, cur, end, 0, Blank)
  }

  /** One stanza of `parse_sbat_entry`: field `k` of the zero-allocated
      record is filled by a tokenizer call with that field's delimiter, and
      `stored` says whether the call stored a pointer into it; on success the
      field holds the text the pointer designates. */
  method ReadField(buf: array<char>, current: Option<nat>, end: nat, k: nat, record: SbatEntry)
    returns (stored: bool, next: Option<nat>, filled: SbatEntry)
    requires k < 6 && Scannable(buf[..], current)
    modifies buf
    ensures Scannable(buf[..], next)
    ensures ReadFields(old(buf[..]), current, end, k, record) ==
      if stored then ReadFields(buf[..], next, end, k + 1, filled)
      else EntryResult(InvalidParameter, None, next, buf[..])
  {
    ghost var f := GetField(buf[..], current, Some(end), Delimiter(k));
    var slot := new FieldSlot();
    next := GetSbatField(buf, current, Some(end), slot, Delimiter(k));
    if slot.target.None? {
      return false, next, record;
    }
    var text := CStr(buf[..], slot.target.value);
    assert text == Text(f);
    return true, next, SetField(record, k, text);
  }

  /** `parse_sbat_entry`: six stanzas, one per field, each leaving the record
      invalid when its field is not stored. */
  method ParseSbatEntry(buf: array<char>, current: Option<nat>, end: nat, oom: bool)
    returns (status: Status, entry: Option<SbatEntry>, next: Option<nat>)
    requires Scannable(buf[..], current)
    modifies buf
    ensures var r := ParseEntry(old(buf[..]), current, end, oom);
      status == r.status && entry == r.entry && next == r.cur && buf[..] == r.buf
  {
    if oom {
      return OutOfResources, None, current;
    }
    var record := Blank;
    var stored: bool;
    var k := 0;
    next := current;
    ghost var goal := ReadFields(buf[..], next, end, k, record);
    stored, next, record := ReadField(buf, next, end, k, record);
    if !stored {
      assert goal == EntryResult(InvalidParameter, None, next, buf[..]);
      return InvalidParameter, None, next;
    }
    k := k + 1;
    assert goal == ReadFields(buf[..], next, end, k, record);
    stored, next, record := ReadField(buf, next, end, k, record);
    if !stored {
      assert goal == EntryResult(InvalidParameter, None, next, buf[..]);
      return InvalidParameter, None, next;
    }
    k := k + 1;
    assert goal == ReadFields(buf[..], next, end, k, record);
    stored, next, record := ReadField(buf, next, end, k, record);
    if !stored {
      assert goal == EntryResult(InvalidParameter, None, next, buf[..]);
      return InvalidParameter, None, next;
    }
    k := k + 1;
    assert goal == ReadFields(buf[..], next, end, k, record);
    stored, next, record := ReadField(buf, next, end, k, record);
    if !stored {
      assert goal == EntryResult(InvalidParameter, None, next, buf[..]);
      return InvalidParameter, None, next;
    }
    k := k + 1;
    assert goal == ReadFields(buf[..], next, end, k, record);
    stored, next, record := ReadField(buf, next, end, k, record);
    if !stored {
      assert goal == EntryResult(InvalidParameter, None, next, buf[..]);
      return InvalidParameter, None, next;
    }
    k := k + 1;
    assert goal == ReadFields(buf[..], next, end, k, record);
    stored, next, record := ReadField(buf, next, end, k, record);
    if !stored {
      assert goal == EntryResult(InvalidParameter, None, next, buf[..]);
      return InvalidParameter, None, next;
    }
    k := k + 1;
    assert goal == ReadFields(buf[..], next, end, k, record);
    return Success, Some(record), next;
  }

  /** Where parsing the section ends: a status, the records held afterwards
      and the buffer; or `Stuck` when the C code would read through a NULL
      cursor (the last record has no newline and the array grew for it),
      for which it promises nothing. */
  datatype Parsed = Parsed(status: Status, entries: seq<SbatEntry>, buf: seq<char>) | Stuck

  /** The `do ... while` loop of `parse_sbat` from cursor `cur`, with record
      number `k` next and the records `acc` collected so far.
      `entryOom(k)` and `growOom(k)` say whether allocating record `k`, and
      growing the array for it, fails.  Any failure discards every record. */
  function ParseFrom(b: seq<char>, cur: nat, end: nat, k: nat, entryOom: nat -> bool, growOom: nat -> bool,
                     acc: seq<SbatEntry>): (p: Parsed)
    requires NulFrom(b, cur)
    ensures p.Parsed? && p.status == Success ==> acc < p.entries
    ensures p.Parsed? && p.status != Success ==> p.entries == []
    ensures p.Parsed? ==> |p.buf| == |b|
    ensures p.Parsed? ==> p.status == Success || p.status == InvalidParameter || p.status == OutOfResources
    decreases |b| - cur
  {
    var r := ParseEntry(b, Some(cur), end, entryOom(k));
    if r.status != Success then Parsed(r.status, [], r.buf)
    else if r.cur.Some? && end < r.cur.value then Parsed(InvalidParameter, [], r.buf)
    else if growOom(k) then Parsed(OutOfResources, [], r.buf)
    else if r.cur.None? then Stuck
    else
      var acc' := acc + [r.entry.value];
      if r.buf[r.cur.value] == NUL then Parsed(Success, acc', r.buf)
      else ParseFrom(r.buf, r.cur.value, end, k + 1, entryOom, growOom, acc')
  }

  /** One turn of the loop when record `e` is read and stored, leaving the
      buffer `b'` and the cursor `n`: parsing stops with success exactly
      when the cursor then points at a terminator. */
  lemma {:induction false} ParseFromNext(b: seq<char>, c: nat, end: nat, k: nat, entryOom: nat -> bool, growOom: nat -> bool,
                      acc: seq<SbatEntry>, e: SbatEntry, b': seq<char>, n: nat)
    requires NulFrom(b, c) && !entryOom(k) && !growOom(k) && n <= end
    requires var r := ReadFields(b, Some(c), end, 0, Blank);
      r.status == Success && r.entry == Some(e) && r.cur.Some? && r.cur.value == n && r.buf == b'
    ensures NulFrom(b', n)
    ensures ParseFrom(b, c, end, k, entryOom, growOom, acc) ==
      if b'[n] == NUL then Parsed(Success, acc + [e], b')
      else ParseFrom(b', n, end, k + 1, entryOom, growOom, acc + [e])
  {
  }

  /** `struct sbat`: the records parsed so far (`size` is the length). */
  class Sbat {
    var entries: seq<SbatEntry>

    constructor ()
      ensures entries == []
    {
      entries := [];
    }
  }

  /** `parse_sbat(sbat_base, sbat_size, sbat)`: the section occupies
      `sbat_size` bytes of `base`, its last byte being `end`.  A NULL
      argument, an empty section or a one-byte section is refused before
      anything is read. */
  method ParseSbat(base: array?<char>, size: nat, sbat: Sbat?, entryOom: nat -> bool, growOom: nat -> bool)
    returns (status: Status)
    requires base != null && sbat != null && size > 1 ==>
      size <= base.Length && NulFrom(base[..], 0) &&
      !ParseFrom(base[..], 0, size - 1, 0, entryOom, growOom, sbat.entries).Stuck?
    modifies base, sbat
    ensures base == null || sbat == null || size <= 1 ==>
      && status == InvalidParameter
      && (base != null ==> base[..] == old(base[..]))
      && (sbat != null ==> sbat.entries == old(sbat.entries))
    ensures base != null && sbat != null && size > 1 ==>
      var p := ParseFrom(old(base[..]), 0, size - 1, 0, entryOom, growOom, old(sbat.entries));
      && status == p.status && sbat.entries == p.entries && base[..] == p.buf
  {
    if base == null || sbat == null || size == 0 {
      return InvalidParameter;
    }
    var end := size - 1;
    if end == 0 {
      return InvalidParameter;
    }
    var current: nat := 0;
    var k := 0;
    ghost var goal := ParseFrom(base[..], current, end, k, entryOom, growOom, sbat.entries);
    while true
      invariant NulFrom(base[..], current)
      invariant ParseFrom(base[..], current, end, k, entryOom, growOom, sbat.entries) == goal
      invariant goal.Parsed?
      decreases base.Length - current
    {
      var entryStatus, entry, next := ParseSbatEntry(base, Some(current), end, entryOom(k));
      if entryStatus != Success {
        sbat.entries := [];
        return entryStatus;
      }
      // A NULL cursor is not past `end`: the C compares the pointers.
      if next.Some? && end < next.value {
        sbat.entries := [];
        return InvalidParameter;
      }
      if growOom(k) {
        sbat.entries := [];
        return OutOfResources;
      }
      assert next.Some?;
      sbat.entries := sbat.entries + [entry.value];
      current, k := next.value, k + 1;
      if base[current] == NUL {
        return Success;
      }
    }
  }
}
