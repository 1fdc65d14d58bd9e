/** The revocation decision (sbat.c:121-195): each record of the image's
    `.sbat` section is compared with each entry of the trusted list, and a
    record whose component is listed with a higher generation is revoked. */
module SbatVerify {
  import opened SbatTypes
  import opened SbatSection
  import opened SbatVars

  /** The list entry `v` revokes the record `e`: the component names are
      equal and the record's generation, read as a 16-bit number, is lower
      than the entry's. */
  predicate Revokes(v: SbatVar, e: SbatEntry): (r: bool)
    ensures r ==> e.componentName == v.componentName && 0 < Generation(v.componentGeneration)
  {
    && e.componentName == v.componentName
    && Generation(e.componentGeneration) < Generation(v.componentGeneration)
  }

  /** Some list entry revokes some record. */
  predicate Revoked(es: seq<SbatEntry>, vs: seq<SbatVar>): (r: bool)
    ensures r ==> |es| > 0 && |vs| > 0
  {
    exists i, j :: 0 <= i < |es| && 0 <= j < |vs| && Revokes(vs[j], es[i])
  }

  /** `verify_single_entry(entry, sbat_var_entry)`: only an entry of the
      same component is looked at; a generation that does not parse reads
      as 0. */
  function VerifySingleEntry(e: SbatEntry, v: SbatVar): (r: Status)
    ensures r == Success || r == SecurityViolation
    ensures r == SecurityViolation <==> Revokes(v, e)
  {
    if e.componentName == v.componentName then
      var sbatGen := Generation(e.componentGeneration);
      var varGen := Generation(v.componentGeneration);
      if sbatGen < varGen then SecurityViolation else Success
    else Success
  }

  /** An entry for another component never revokes the record. */
  lemma {:induction false} OtherComponentAllowed(e: SbatEntry, v: SbatVar)
    requires e.componentName != v.componentName
    ensures VerifySingleEntry(e, v) == Success
  {
  }

  /** Decimal generations `m` and `n` of the same component: the record is
      revoked exactly when `m` is below `n` once both are cut to 16 bits,
      so the list entry of generation 65537 revokes only generation 0. */
  lemma {:induction false} DecimalGenerations(e: SbatEntry, v: SbatVar, m: nat, n: nat)
    requires e.componentName == v.componentName
    requires e.componentGeneration == ToDecimal(m) && v.componentGeneration == ToDecimal(n)
    ensures VerifySingleEntry(e, v) == SecurityViolation <==> m % 0x1_0000 < n % 0x1_0000
  {
    GenerationTruncates(m);
    GenerationTruncates(n);
  }

  /** A record generation that does not start with a digit counts as 0: any
      entry of the component with a nonzero generation revokes it. */
  lemma {:induction false} UnparsableRecordGeneration(e: SbatEntry, v: SbatVar)
    requires e.componentName == v.componentName
    requires |e.componentGeneration| == 0 || !IsDigit(e.componentGeneration[0])
    ensures VerifySingleEntry(e, v) == SecurityViolation <==> Generation(v.componentGeneration) != 0
  {
    AtoiNoDigits(e.componentGeneration);
  }

  /** An entry generation that does not start with a digit counts as 0 and
      revokes nothing. */
  lemma {:induction false} UnparsableListGeneration(e: SbatEntry, v: SbatVar)
    requires |v.componentGeneration| == 0 || !IsDigit(v.componentGeneration[0])
    ensures VerifySingleEntry(e, v) == Success
  {
    AtoiNoDigits(v.componentGeneration);
  }

  /** A record at the listed generation, or above it, is allowed, and so is
      any record of the component with a higher generation. */
  lemma {:induction false} HigherGenerationAllowed(e: SbatEntry, e': SbatEntry, v: SbatVar)
    requires VerifySingleEntry(e, v) == Success
    requires e'.componentName == e.componentName
    requires Generation(e.componentGeneration) <= Generation(e'.componentGeneration)
    ensures VerifySingleEntry(e', v) == Success
  {
  }

  /** `verify_sbat(sbat, sbat_entries)`: an absent or empty list is refused
      and left as it was.  Otherwise every record is checked against every
      entry, in order; the first violation is returned at once with the list
      kept, and when none is found the list is emptied (`clean_up_vars`). */
  method VerifySbat(sbat: Sbat, list: TrustList?) returns (status: Status)
    modifies list
    ensures list == null || |old(list.vars)| == 0 ==>
      status == InvalidParameter && (list != null ==> list.vars == old(list.vars))
    ensures list != null && |old(list.vars)| > 0 ==>
      && (status == Success || status == SecurityViolation)
      && (status == SecurityViolation <==> Revoked(sbat.entries, old(list.vars)))
      && list.vars == (if status == Success then [] else old(list.vars))
  {
    if list == null || |list.vars| == 0 {
      return InvalidParameter;
    }
    status := Success;
    var i := 0;
    while i < |sbat.entries|
      invariant 0 <= i <= |sbat.entries| && status == Success && list.vars == old(list.vars)
      invariant forall i', j :: 0 <= i' < i && 0 <= j < |list.vars| ==> !Revokes(list.vars[j], sbat.entries[i'])
    {
      var entry := sbat.entries[i];
      var j := 0;
      while j < |list.vars|
        invariant 0 <= j <= |list.vars| && status == Success
        invariant forall j' :: 0 <= j' < j ==> !Revokes(list.vars[j'], entry)
      {
        status := VerifySingleEntry(entry, list.vars[j]);
        if IsError(status) {
          return status;
        }
        j := j + 1;
      }
      i := i + 1;
    }
    CleanUpVars(list);
  }
}
