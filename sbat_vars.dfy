/** The trusted SBAT variable (sbat.c:197-307): the byte-order-mark check,
    the list of revocation entries, and the loop of `parse_sbat_var` that
    reads `name,generation[,comment]` lines into that list.  The variable's
    bytes are given: reading them from the variable store is a parameter. */
module SbatVars {
  import opened Wrappers
  import opened CStrings
  import opened SbatTypes
  import opened SbatField
  import opened Compiler

  /** The UTF-8 byte-order mark EF BB BF. */
  const Bom: seq<char> := [0xEF as char, 0xBB as char, 0xBF as char]

  /** `is_utf8_bom(buf, bufsize)` as written: only the first
      `MIN(sizeof(bom), bufsize)` bytes are compared with the mark, so a
      buffer shorter than the mark passes when its bytes begin the mark
      (the empty buffer always does). */
  function IsUtf8BomAsWritten(buf: seq<char>, size: nat): (r: bool)
    requires size <= |buf|
    ensures r <==> forall i :: 0 <= i < Min(|Bom|, size) ==> buf[i] == Bom[i]
  {
    buf[..Min(|Bom|, size)] == Bom[..Min(|Bom|, size)]
  }

  /** `is_utf8_bom` as evidently intended: the buffer holds all three bytes
      of the mark, so skipping them stays within the data. */
  function IsUtf8Bom(buf: seq<char>, size: nat): (r: bool)
    requires size <= |buf|
    ensures r ==> |Bom| <= size && buf[..|Bom|] == Bom
    ensures r <==> |Bom| <= size && IsUtf8BomAsWritten(buf, size)
  {
    |Bom| <= size && buf[..|Bom|] == Bom
  }

  /** Where `parse_sbat_var` starts reading: past the mark, if there is one. */
  function DataStart(buf: seq<char>, size: nat): (start: nat)
    requires size <= |buf|
    ensures start <= size
  {
    if IsUtf8Bom(buf, size) then |Bom| else 0
  }

  /** Where `parse_sbat_var` as written starts reading: three bytes in
      whenever the as-written check passes, even when the variable has
      fewer than three bytes. */
  function DataStartAsWritten(buf: seq<char>, size: nat): (start: nat)
    requires size <= |buf|
    ensures start == 0 || start == |Bom|
    ensures |Bom| <= size ==> start == DataStart(buf, size)
    ensures start <= size ==> start == DataStart(buf, size)
  {
    if IsUtf8BomAsWritten(buf, size) then |Bom| else 0
  }

  /** The delimiter chosen for the next field at `s`: a newline when the
      next newline comes no later than the next comma, where a missing one
      counts as found at the terminator; a comma otherwise.  (The source
      compares the two lengths `strchrnula(s, c) - s + 1`, which order as
      the positions do.) */
  function Pick(b: seq<char>, s: nat): (d: char)
    requires NulFrom(b, s)
    ensures d == '\n' || d == ','
    ensures d == '\n' <==> ChrNul(b, s, '\n') <= ChrNul(b, s, ',')
  {
    if ChrNul(b, s, '\n') <= ChrNul(b, s, ',') then '\n' else ','
  }

  /** How one turn of the `while` loop reads a line: the two fields and the
      cursor after the line; `Rejected` when the parser jumps to its error
      label; `Indeterminate` when it would read the field pointer that
      `get_sbat_field` left unset (the cursor reached `end`). */
  datatype LineRead =
    | Read(name: seq<char>, gen: seq<char>, next: Option<nat>, buf: seq<char>)
    | Rejected
    | Indeterminate

  /** The inner `for` loop from turn `i`, with cursor `start`, the
      delimiter `delim` of the previous field and the fields read so far.
      Turns 0 and 1 each read a field with the delimiter `Pick` chooses;
      turn 2 discards the rest of the line as a comment when the generation
      ended at a comma.  A missing cursor before turn 2 is an error. */
  function ReadPair(b: seq<char>, start: Option<nat>, end: nat, i: nat, delim: char, fields: seq<seq<char>>)
    : (r: LineRead)
    requires i <= 2 && |fields| == i && Scannable(b, start)
    ensures r.Read? ==> |r.buf| == |b| && Scannable(r.buf, r.next)
    ensures r.Read? && r.next.Some? ==> start.Some? && start.value + 2 - i <= r.next.value
    decreases 2 - i
  {
    if i == 2 && start.Some? then
      if delim == ',' then
        var f := GetField(b, start, Some(end), '\n');
        Read(fields[0], fields[1], f.next, f.buf)
      else Read(fields[0], fields[1], start, b)
    else if start.None? then Rejected
    else
      var d := Pick(b, start.value);
      var f := GetField(b, start, Some(end), d);
      if f.start.None? then Indeterminate
      else ReadPair(f.buf, f.next, end, i + 1, d, fields + [Text(f)])
  }

  /** Where parsing the variable ends: a status and the list afterwards, or
      `Stuck` when the C code would dereference a NULL or unset pointer, or
      read before the data's first byte past its end. */
  datatype VarParsed = VarParsed(status: Status, vars: seq<SbatVar>) | Stuck

  /** The `while` loop of `parse_sbat_var` from cursor `start`, with entry
      number `k` next and the list `acc` built so far; `addOom(k)` says
      whether allocating entry `k` fails.  Every error empties the list and
      is reported as `EFI_INVALID_PARAMETER`. */
  function ParseVarsFrom(b: seq<char>, start: nat, end: nat, k: nat, addOom: nat -> bool, acc: seq<SbatVar>)
    : (p: VarParsed)
    requires NulFrom(b, start)
    ensures p.VarParsed? ==> p.status == Success || p.status == InvalidParameter
    ensures p.VarParsed? && p.status == Success ==> acc <= p.vars
    ensures p.VarParsed? && p.status != Success ==> p.vars == []
    decreases |b| - start
  {
    if b[start] == NUL then VarParsed(Success, acc)
    else
      var r := ReadPair(b, Some(start), end, 0, ',', []);
      if r.Rejected? then VarParsed(InvalidParameter, [])
      else if r.Indeterminate? then Stuck
      else if addOom(k) then VarParsed(InvalidParameter, [])
      else if r.next.None? then Stuck
      else ParseVarsFrom(r.buf, r.next.value, end, k + 1, addOom, acc + [SbatVar(r.name, r.gen)])
  }

  /** What `parse_sbat_var` computes from the variable's `size` bytes in
      `buf` once they have been read.  The mark check is the one written in
      sbat.c:197-203: when it lets the start move past the data, the loop
      test reads outside the variable, and the parser is `Stuck`.  Wherever
      the start stays within the data it is the corrected `DataStart`. */
  function ParseVariable(buf: seq<char>, size: nat, addOom: nat -> bool): (p: VarParsed)
    requires size <= |buf| && NulFrom(buf, DataStart(buf, size))
  {
    var start := DataStartAsWritten(buf, size);
    if size < start then Stuck
    else ParseVarsFrom(buf, start, size, 0, addOom, [])
  }

  /** The caller's `list_t` of `struct sbat_var`, in list order. */
  class TrustList {
    var vars: seq<SbatVar>

    constructor ()
      ensures vars == []
    {
      vars := [];
    }
  }

  /** `add_entry(list, name, gen)`: allocating the node may fail
      (`oom`); otherwise the pair is linked in at the tail. */
  method AddEntry(list: TrustList, name: seq<char>, gen: seq<char>, oom: bool) returns (status: Status)
    modifies list
    ensures oom ==> status == OutOfResources && list.vars == old(list.vars)
    ensures !oom ==> status == Success && list.vars == old(list.vars) + [SbatVar(name, gen)]
  {
    if oom {
      return OutOfResources;
    }
    list.vars := list.vars + [SbatVar(name, gen)];
    return Success;
  }

  /** `clean_up_vars(list)`: every node is unlinked and freed. */
  method CleanUpVars(list: TrustList)
    modifies list
    ensures list.vars == []
  {
    list.vars := [];
  }

  /** The inner `for` loop of `parse_sbat_var` on the line at `s`: `ok`
      is false where the source jumps to its error label; otherwise the
      two fields (copied as `strndupa` copies them) and the cursor after
      the line. */
  method ReadLine(data: array<char>, s: nat, end: nat)
    returns (ok: bool, name: seq<char>, gen: seq<char>, start: Option<nat>)
    requires NulFrom(data[..], s) && !ReadPair(data[..], Some(s), end, 0, ',', []).Indeterminate?
    modifies data
    ensures var r := ReadPair(old(data[..]), Some(s), end, 0, ',', []);
      && (ok <==> r.Read?)
      && (ok ==> name == r.name && gen == r.gen && start == r.next && data[..] == r.buf)
  {
    ghost var line := ReadPair(data[..], Some(s), end, 0, ',', []);
    start := Some(s);
    var fields: seq<seq<char>> := [];
    var delim := ',';
    for i := 0 to 3
      invariant i <= 2 && |fields| == i && Scannable(data[..], start)
      invariant ReadPair(data[..], start, end, i, delim, fields) == line
    {
      if i == 2 && start.Some? {
        if delim == ',' {
          var tmp := new FieldSlot();
          start := GetSbatField(data, start, Some(end), tmp, '\n');
        }
        break;
      }
      delim := ',';
      if start.Some? {
        var nl := StrChrNul(data, start.value, '\n');
        var comma := StrChrNul(data, start.value, ',');
        if nl.value - start.value + 1 <= comma.value - start.value + 1 {
          delim := '\n';
        }
      } else {
        // Both searches give NULL: the lengths are equal.
        delim := '\n';
      }
      if start.None? {
        return false, [], [], None;
      }
      var tmp := new FieldSlot();
      start := GetSbatField(data, start, Some(end), tmp, delim);
      assert tmp.target.Some?;
      fields := fields + [CStr(data[..], tmp.target.value)];
    }
    return true, fields[0], fields[1], start;
  }

  /** `parse_sbat_var(list)` on the variable's bytes `data`, of which the
      first `size` belong to the variable; `read` is the status of reading
      it from the variable store.  A failed read is passed on; otherwise
      the result is that of `ParseVariable`. */
  method ParseSbatVar(list: TrustList, read: Status, data: array<char>, size: nat, addOom: nat -> bool)
    returns (status: Status)
    requires read == Success ==>
      size <= data.Length && NulFrom(data[..], DataStart(data[..], size)) &&
      !ParseVariable(data[..], size, addOom).Stuck?
    modifies list, data
    ensures read != Success ==> status == read && list.vars == []
    ensures read == Success ==>
      var p := ParseVariable(old(data[..]), size, addOom);
      status == p.status && list.vars == p.vars
  {
    list.vars := [];
    if IsError(read) {
      return read;
    }
    var start: Option<nat> := Some(0);
    var end := size;
    if IsUtf8BomAsWritten(data[..], size) {
      start := Some(|Bom|);
    }
    var k := 0;
    ghost var goal := ParseVarsFrom(data[..], start.value, end, k, addOom, list.vars);
    while data[start.value] != NUL
      invariant start.Some? && NulFrom(data[..], start.value)
      invariant ParseVarsFrom(data[..], start.value, end, k, addOom, list.vars) == goal
      invariant goal.VarParsed?
      decreases data.Length - start.value
    {
      var ok, name, gen;
      ok, name, gen, start := ReadLine(data, start.value, end);
      if !ok {
        CleanUpVars(list);
        return InvalidParameter;
      }
      var added := AddEntry(list, name, gen, addOom(k));
      if IsError(added) {
        CleanUpVars(list);
        return InvalidParameter;
      }
      k := k + 1;
    }
    return Success;
  }
}
