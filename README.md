# SBAT revocation check of shim, in Dafny

shim refuses to boot an image that a newer trusted list revokes. This is
SBAT (Secure Boot Advanced Targeting). This project models the SBAT code
in `sbat.c` and proves properties of it.

The code has four parts:

- **Field tokenizer.** `get_sbat_field` searches a byte buffer for a
  delimiter. It overwrites the delimiter with NUL and returns the cursor
  after it.
- **Section parser.** `parse_sbat_entry` and `parse_sbat` read the image's
  `.sbat` section. The section is CSV text with six fields per record: five
  end at a comma and the vendor URL ends at a newline. The records go into
  a growing array.
- **Trusted-list parser.** `parse_sbat_var`, with `is_utf8_bom` and
  `add_entry`, reads the trusted SBAT variable. The variable is a list of
  `name,generation[,comment]` lines. Each field's delimiter is whichever of
  newline and comma comes first, and trailing comments are dropped. The
  pairs go into a list.
- **Verifier.** `verify_single_entry` and `verify_sbat` compare every
  record with every list entry of the same component. A record is revoked
  when its generation, read by `atoi` and cut to 16 bits, is lower.

The small helpers these rely on are modelled too:

- `strchrnul` and `translate_slashes` from `include/system/string.h`;
- the `MIN`, `MAX`, `ALIGN` and `ALIGN_DOWN` macros of `include/compiler.h`;
- the harness comparators `StrCmp` and `StrnCmp` of `test.c`.

### How the C is represented

- **Memory.** The memory a parser writes into is an `array<char>`, or a
  `seq<char>` in the specification functions.
- **Pointers.** A pointer into memory is an index. A NULL pointer is
  `Option.None`.
- **Scanning.** "A terminator lies at or after the cursor" (`NulFrom`) is
  what a scan needs before it starts.
- **Pure code** becomes functions: `verify_single_entry`, `is_utf8_bom`
  and the macros.
- **Code that changes state** becomes methods over classes, each proved
  against a specification function:
  - `get_sbat_field` writes NUL into the buffer;
  - `parse_sbat` grows `struct sbat`;
  - `parse_sbat_var` and `add_entry` append to the list;
  - `verify_sbat` empties the list;
  - `strchrnul`, `translate_slashes`, `StrCmp` and `StrnCmp` are index
    loops.
- **Allocation failure** is an oracle `nat -> bool`, indexed by record or
  entry number.
- **Reading through a NULL or unset pointer, or past the data.** Where
  the C does this, the specification function answers `Stuck` (or
  `Indeterminate`), and the method requires that this does not happen. No
  outcome is invented for these paths.

### Files

| file | contents |
|---|---|
| `wrappers.dfy` | `Option` |
| `seq_facts.dfy` | sequence lemmas shared by the parser proofs |
| `compiler.dfy` | `MIN`, `MAX`, `ALIGN`, `ALIGN_DOWN` on 64-bit unsigned words |
| `cstrings.dfy` | C strings, `strchrnul`, `translate_slashes` |
| `teststr.dfy` | `StrCmp`, `StrnCmp` |
| `sbat_types.dfy` | status codes, records, list entries, `atoi` and the 16-bit generation |
| `sbat_field.dfy` | `get_sbat_field` |
| `sbat_section.dfy` | `parse_sbat_entry`, `parse_sbat` |
| `sbat_section_props.dfy` | round trip and rejection lemmas for the section parser |
| `sbat_section_examples.dfy` | the section parser on the unit-test sections |
| `sbat_vars.dfy` | `is_utf8_bom`, `add_entry`, `clean_up_vars`, `parse_sbat_var` |
| `sbat_vars_props.dfy` | round trip, rejection and byte-order-mark lemmas for the list parser |
| `sbat_vars_examples.dfy` | the list parser on sample variables |
| `sbat_verify.dfy` | `verify_single_entry`, `verify_sbat` |
| `sbat_verify_examples.dfy` | the verifier on the unit-test lists |

### Where the code is followed rather than the design

- **Line merging in `.sbat`.** The five comma-ended fields of a record may
  hold newlines. A line with too few fields therefore takes fields from
  the next line (`SbatSectionExamples.LinesMerge`).
- **A name alone on its line.** In the trusted variable it takes the next
  line's first field as its generation. The rest of that line is dropped
  as a comment (`SbatVarsProps.NameOnlyLine`).
- **The `end` bound.** `get_sbat_field` compares the cursor with `end`
  only on entry (sbat.c:14). Its search then runs to the first NUL,
  even past `end` (sbat.c:17).
- **No trailing-newline check in `parse_sbat`.** `parse_sbat` refuses only
  a NULL base, a NULL output, size 0 and size 1 (sbat.c:81-85). It never
  checks that the last byte is a newline. A last record without a newline
  leaves a NULL cursor (sbat.c:58). The C then compares it with `end`,
  which does not fail, and grows the array (sbat.c:93-104). If growing
  fails, the result is `EFI_OUT_OF_RESOURCES`. Otherwise the loop test
  reads through the NULL cursor (sbat.c:111). That is a crash path, not an
  invalid-parameter result (`SbatSectionProps.ParseFromUnterminated`).
- **The list after a revocation.** `verify_sbat` returns a security
  violation at once and keeps the list (sbat.c:187-188). It empties the
  list only on success (sbat.c:192).
- **Allocation failure in the list parser.** A failed `add_entry` is
  reported as `EFI_INVALID_PARAMETER`, like any other failure of
  `parse_sbat_var` (sbat.c:296-306), not as `EFI_OUT_OF_RESOURCES`.

## Model

| member | source | states |
|---|---|---|
| Compiler.Min | include/compiler.h:212 | `MIN(a, b)` is one of `a`, `b` and at most both |
| Compiler.Max | include/compiler.h:213 | `MAX(a, b)` is one of `a`, `b` and at least both |
| Compiler.WordAdd | include/compiler.h:150 | unsigned addition wraps below 2^64 |
| Compiler.WordSub | include/compiler.h:155 | unsigned subtraction wraps below 2^64 |
| Compiler.AlignMask | include/compiler.h:150 | `__ALIGN_MASK(x, mask)` is a 64-bit word no greater than `~mask` |
| Compiler.Align | include/compiler.h:150-152 | `ALIGN(x, a)` is a 64-bit word |
| Compiler.AlignDown | include/compiler.h:155 | `ALIGN_DOWN(x, a)` is a 64-bit word |
| Compiler.AlignMaskValue | include/compiler.h:149-152 | `ALIGN(x, a)` is the wrapped sum `x + a - 1` ANDed with the complement of `a - 1` |
| Compiler.AlignNoWrap | include/compiler.h:149-152 | without wrap-around, `ALIGN(x, a)` masks `x + a - 1` itself |
| Compiler.ClearLowWord | include/compiler.h:150 | ANDing a word with `~(2^k - 1)` clears its low `k` bits |
| Compiler.AlignValue | include/compiler.h:149-152 | for `a = 2^k` and no overflow, `ALIGN(x, a)` is `x + a - 1` rounded down to a multiple of `a` |
| Compiler.AlignRoundsUp | include/compiler.h:149-152 | for `a = 2^k` and no overflow, `ALIGN(x, a)` is the least multiple of `a` that is at least `x` |
| Compiler.AlignAligned | include/compiler.h:149-152 | `ALIGN(x, a) == x` when `x` is already a multiple of `a` |
| Compiler.WordSubAdd | include/compiler.h:155 | in `ALIGN_DOWN`, subtracting `a - 1` and adding it back cancels, wrap-around or not |
| Compiler.AlignDownMask | include/compiler.h:154-156 | `ALIGN_DOWN(x, a)` is `x` ANDed with the complement of `a - 1` |
| Compiler.AlignDownValue | include/compiler.h:155 | for `a = 2^k`, `ALIGN_DOWN(x, a)` is `x` with its low `k` bits cleared |
| Compiler.AlignDownRoundsDown | include/compiler.h:155 | for `a = 2^k`, `ALIGN_DOWN(x, a)` is the greatest multiple of `a` that is at most `x` |
| CStrings.ChrNul | include/system/string.h:65-68 | the search result holds `c` or NUL, and no earlier byte from the cursor is either |
| CStrings.ChrNulWithinString | include/system/string.h:65-68 | the search never passes the first terminator; it stops before it exactly when `c` occurs in the string; searching for NUL finds the terminator |
| CStrings.ChrNulAt | include/system/string.h:65-68 | the search result is the unique index with those properties |
| CStrings.ChrNulEmbeddedNul | test-str.c:18-23 | in "abcd\0fghi", `a` is at 0, `d` at 3, and both NUL and `i` give the embedded terminator at 4 |
| CStrings.StrChrNul | include/system/string.h:57-69 | NULL in, NULL out; otherwise the index `ChrNul` specifies |
| CStrings.TranslatedFrom | include/system/string.h:45-51 | what the loop writes from input index `i` on is no longer than the rest of the input |
| CStrings.Translated | include/system/string.h:45-51 | the translation is no longer than the input and at least half as long |
| CStrings.Out | include/system/string.h:46-51 | a backslash becomes `/`, and any other byte is copied |
| CStrings.Skip | include/system/string.h:46-49 | the reader advances past the byte, and past one more directly following backslash |
| CStrings.TranslatedShape | include/system/string.h:45-53 | the translation is no longer than the input, holds no backslash and adds no terminator |
| CStrings.TranslatedPlain | include/system/string.h:50-51 | a string without backslashes is copied unchanged |
| CStrings.TranslatedPairExample | include/system/string.h:46-49 | `\\a\b` becomes `/a/b` |
| CStrings.TranslatedTripleExample | include/system/string.h:46-49 | three backslashes become two slashes |
| CStrings.TranslatedNext | include/system/string.h:45-52 | one turn of the loop writes `Out(s[i])` and resumes at `Skip(s, i)` |
| CStrings.TranslateInto | include/system/string.h:45-52 | the loop writes exactly the translation of the input string to the front of `out` and leaves the rest alone |
| CStrings.TranslateSlashes | include/system/string.h:37-55 | NULL when either pointer is NULL, with `out` unchanged; otherwise `out` holds the translation and a terminator, and `out` is returned |
| TestHarness.Compare | test.c:25-29 | the result is the difference of two 16-bit characters, or 0; its meaning is proved by the `Compare*` lemmas |
| TestHarness.CompareN | test.c:38-43 | the same bound, and 0 once the limit is reached |
| TestHarness.StrCmp | test.c:19-30 | the loop returns `Compare` of the two strings |
| TestHarness.StrnCmp | test.c:32-44 | the loop returns `CompareN` of the two strings and the limit; a zero limit gives 0 |
| TestHarness.CompareSelf | test.c:25-29 | a string compares equal to itself |
| TestHarness.CompareFirstDifference | test.c:25-27 | after a common run, the first position where both hold different characters gives `s2[k] - s1[k]` |
| TestHarness.ComparePrefix | test.c:25-29 | after a common run, a terminator in either string gives 0, so a string equals its extensions |
| TestHarness.CompareAntisymmetric | test.c:26-27 | swapping the arguments negates the result |
| TestHarness.CompareZeroIff | test.c:25-29 | 0 exactly when the strings agree up to the first terminator of either |
| TestHarness.CompareNUnbounded | test.c:38-43 | a limit beyond the first terminator does not bind: `StrnCmp` agrees with `StrCmp` |
| TestHarness.CompareNFirstDifference | test.c:38-40 | within the limit, the same first-difference rule |
| TestHarness.CompareNLimit | test.c:38-43 | strings that agree on the first `len` positions compare equal |
| SbatTypes.Atoi | sbat.c:131-136 | `atoi` reads at most the leading digits: the value is below 10 to the power of their count, so text without a leading digit reads 0 |
| SbatTypes.DigitRun | sbat.c:131-136 | the length of the leading run of decimal digits |
| SbatTypes.Generation | sbat.c:123-136 | `(UINT16)atoi(s)` is below 2^16 |
| SbatTypes.AtoiToDecimal | sbat.c:131-136 | `atoi` reads a decimal number back, whatever non-digit text follows |
| SbatTypes.AtoiNoDigits | sbat.c:131-136 | text that does not start with a digit has generation 0 |
| SbatTypes.GenerationTruncates | sbat.c:123-136 | only the low 16 bits of the number survive |
| SbatField.GetField | sbat.c:9-25 | fails, storing nothing and changing nothing, when a cursor is missing or `current >= end`; otherwise stores `current` and leaves the field scannable; memory keeps its size, and a returned cursor lies past the field's start |
| SbatField.GetFieldSearch | sbat.c:17-24 | the field ends at the first delimiter or terminator; only that byte changes, to NUL; a cursor is returned exactly when a delimiter was found, and it points just past it |
| SbatField.GetFieldSplit | sbat.c:17-24 | a field `t` followed by a delimiter is stored as `t`, with the delimiter overwritten and the cursor just past it |
| SbatField.GetSbatField | sbat.c:9-25 | a NULL `field` is refused; otherwise the memory, the returned cursor and `*field` are those of `GetField`, and `*field` is untouched when nothing is stored |
| SbatSection.ReadFields | sbat.c:36-68 | the status is success exactly when a record is returned, and the cursor only advances |
| SbatSection.ReadFieldsStep | sbat.c:36-60 | one turn stores the text `get_sbat_field` cuts as field `k` and goes on with field `k + 1` from the cursor it returns |
| SbatSection.ParseEntry | sbat.c:27-69 | an allocation failure gives `EFI_OUT_OF_RESOURCES` with nothing read; otherwise success exactly when a record is returned, and invalid parameter otherwise |
| SbatSection.ReadField | sbat.c:36-38 | one stanza of `parse_sbat_entry` does what `ReadFields` says |
| SbatSection.ParseSbatEntry | sbat.c:27-69 | status, record, cursor and memory are those of `ParseEntry` |
| SbatSection.ParseFrom | sbat.c:87-118 | success appends at least one record to those held; any failure leaves none; the status is success, invalid parameter or out of resources; memory keeps its size. The checks come in the C's order: cursor past `end`, failed growth, then the read through a NULL cursor |
| SbatSection.ParseFromNext | sbat.c:87-111 | after a stored record, parsing stops with success exactly when the cursor points at a terminator |
| SbatSection.ParseSbat | sbat.c:71-119 | NULL base, NULL output, size 0 or size 1 are refused with nothing changed; otherwise status, records and memory are those of `ParseFrom`, whose only excluded case is the read through a NULL cursor at sbat.c:111 |
| SbatSectionProps.ReadFieldsSplit | sbat.c:36-60 | one field of a line is consumed with its delimiter, and only that delimiter is overwritten |
| SbatSectionProps.ReadFieldsJoin | sbat.c:36-64 | the fields of a well-formed line are read back as the record, with the cursor just past the newline |
| SbatSectionProps.LineRead | sbat.c:27-64 | a well-formed line is read as its record, and the rest of the section is untouched |
| SbatSectionProps.EncodeStep | sbat.c:87-111 | one turn of the loop over the first line appends its record |
| SbatSectionProps.ParseFromAll | sbat.c:87-113 | well-formed lines followed by a terminator are read back completely, in order, after what was held |
| SbatSectionProps.FieldTakesComma | sbat.c:36-56 | a comma-ended field that is followed by a cursor consumed a comma of the record's text |
| SbatSectionProps.ReadFieldsShort | sbat.c:36-68 | text with fewer commas than comma-ended fields are left makes the record invalid |
| SbatSectionProps.ParseFromShortHere | sbat.c:87-96 | text with fewer than five commas before the terminator is rejected and keeps no record |
| SbatSectionProps.ParseFromShortText | sbat.c:87-96 | the same, for a last record `t` given before the terminator |
| SbatSectionProps.ParseFromShort | sbat.c:87-118 | well-formed lines followed by a short one: rejected, and every record before it is discarded |
| SbatSectionProps.ShortLineRejected | sbat.c:71-118 | `parse_sbat` on well-formed lines and a last line with fewer than five commas returns invalid parameter and keeps no record |
| SbatSectionProps.FiveFieldsRejected | sbat.c:66-68 | in particular a line of five fields |
| SbatSectionProps.ReadFieldsUnterminated | sbat.c:17-21 | a vendor URL that ends at the terminator is stored, but no cursor is returned |
| SbatSectionProps.ReadFieldsOpen | sbat.c:36-64 | a last record without a newline is read in full and leaves no cursor |
| SbatSectionProps.ParseFromUnterminated | sbat.c:87-111 | a last record without a newline: `EFI_OUT_OF_RESOURCES` with no record when growing the array fails, otherwise a read through the NULL cursor |
| SbatSectionProps.RoundTrip | sbat.c:71-113 | `parse_sbat` on the lines of well-formed records succeeds with exactly those records, in order |
| SbatSectionExamples.TooManyFields | test-sbat.c:253-271 | a seventh field stays in the vendor URL, `testURL,testURL2` |
| SbatSectionExamples.TooManyFieldsSecondLine | test-sbat.c:301-326 | the same on the second record |
| SbatSectionExamples.LinesMerge | sbat.c:36-58 | "a,b" and "c,d,e,f,g" on two lines are one record with a newline in its generation |
| SbatSectionExamples.UnterminatedGrowFails | sbat.c:87-111 | `a,1,v,p,1,u` without a newline: out of resources when growing fails, stuck otherwise |
| SbatSectionExamples.TooFewFields | test-sbat.c:240-251 | a record of five fields is rejected |
| SbatSectionExamples.TooFewFieldsSecondLine | test-sbat.c:287-299 | a short second record rejects the whole section |
| SbatVars.IsUtf8BomAsWritten | sbat.c:197-203 | as written: true exactly when the first `MIN(3, size)` bytes match EF BB BF |
| SbatVars.IsUtf8Bom | sbat.c:197-203 | corrected: all three mark bytes are present and match, and it agrees with the as-written check whenever `size >= 3` |
| SbatVars.DataStart | sbat.c:253-254 | the corrected start is never past the data |
| SbatVars.DataStartAsWritten | sbat.c:253-254 | the as-written start is 0 or 3, and for `size >= 3` it is the corrected start |
| SbatVars.Pick | sbat.c:277-283 | the delimiter is a newline exactly when the next newline comes no later than the next comma, either counting as found at the terminator when missing; a comma otherwise |
| SbatVars.ReadPair | sbat.c:262-294 | a read line leaves memory of the same size and a scannable cursor, advanced by at least a byte per remaining field |
| SbatVars.ParseVarsFrom | sbat.c:258-306 | the status is success or invalid parameter; success keeps the pairs held and appends; an error empties the list |
| SbatVars.TrustList.constructor | sbat.c:238 | `INIT_LIST_HEAD`: the list starts empty |
| SbatVars.AddEntry | sbat.c:205-230 | a failed allocation gives `EFI_OUT_OF_RESOURCES` with the list unchanged; otherwise the pair is appended at the tail |
| SbatVars.CleanUpVars | sbat.c:148-165 | the list becomes empty |
| SbatVars.ReadLine | sbat.c:262-294 | the inner loop succeeds exactly when `ReadPair` reads a line, and yields its fields, cursor and memory |
| SbatVars.ParseSbatVar | sbat.c:232-307 | a failed read is passed on with an empty list; otherwise, with the mark check as written, status and list are those of `ParseVariable` |
| SbatVarsProps.PickAt | sbat.c:277-283 | a plain field followed by a comma or a newline makes that the delimiter |
| SbatVarsProps.PickField | sbat.c:277-283 | the field the chosen delimiter ends holds no comma or newline, and it ends at the first comma, newline or terminator |
| SbatVarsProps.ReadPairStep | sbat.c:277-292 | one field turn goes on from the cursor `get_sbat_field` returns |
| SbatVarsProps.VarFieldSplit | sbat.c:277-292 | a plain field and its delimiter are consumed, and the loop goes on with the field stored |
| SbatVarsProps.CommentSplit | sbat.c:270-275 | after a comma-ended generation, the comment up to the newline is dropped |
| SbatVarsProps.LineDone | sbat.c:270-275 | after a newline-ended generation, the line ends where the cursor is |
| SbatVarsProps.CommentLineRead | sbat.c:262-294 | `name,generation,comment\n` is read as its pair, with the cursor just past the newline |
| SbatVarsProps.PlainLineRead | sbat.c:262-294 | `name,generation\n` is read as its pair, with the cursor just past the newline |
| SbatVarsProps.VarLineRead | sbat.c:262-294 | any well-formed line is read as its pair, with the comment dropped |
| SbatVarsProps.TurnRead | sbat.c:258-299 | a read line whose entry is allocated is appended, and the loop goes on from its cursor |
| SbatVarsProps.TurnOom | sbat.c:296-306 | a failed `add_entry` rejects the variable with an empty list |
| SbatVarsProps.TurnNoCursor | sbat.c:258-300 | a line that leaves no cursor gets the loop stuck on the NULL test |
| SbatVarsProps.TurnRejected | sbat.c:284-306 | a rejected line rejects the variable with an empty list |
| SbatVarsProps.VarsStep | sbat.c:258-299 | one turn over the first well-formed line appends its pair |
| SbatVarsProps.VarsPrefix | sbat.c:258-299 | well-formed lines are read one after the other, their pairs appended in order |
| SbatVarsProps.VariableRoundTrip | sbat.c:232-307 | a variable of well-formed lines, with or without a byte-order mark, reads back as their pairs in order, comments dropped, whether or not the size counts the terminator; an unmarked variable must not pass the as-written mark check |
| SbatVarsProps.LineOom | sbat.c:296-306 | a failed allocation for a well-formed line rejects the variable |
| SbatVarsProps.AllocationFailureRejects | sbat.c:296-306 | a failed allocation after some lines rejects the whole variable, including the pairs already listed |
| SbatVarsProps.GenerationUnterminated | sbat.c:270-286 | a generation ending at the terminator leaves no cursor, so the `!start` check rejects the line |
| SbatVarsProps.LastLineRejected | sbat.c:258-306 | a last `name,generation` line that ends at the terminator rejects the variable with an empty list |
| SbatVarsProps.UnterminatedRejected | sbat.c:258-306 | a last `name,generation` line without a newline rejects the variable, and every pair before it |
| SbatVarsProps.NameOnlyLine | sbat.c:277-283 | a name alone on its line takes the next line's first field as its generation |
| SbatVarsProps.CommentUnterminated | sbat.c:270-275 | a comment that ends at the terminator leaves no cursor |
| SbatVarsProps.CommentLineUnterminated | sbat.c:262-275 | `name,generation,comment` ending at the terminator is read as its pair but leaves no cursor |
| SbatVarsProps.UnterminatedCommentStuck | sbat.c:258-275 | a last line with a comment but no newline gets the loop stuck on the NULL test |
| SbatVarsProps.EmptyVariableSkipsPastData | sbat.c:197-203 | as written, the empty variable passes the mark check and the start is 3 bytes past its data |
| SbatVarsProps.ShortMarkSkipsPastData | sbat.c:197-258 | as written, one or two bytes that begin the mark also pass, the start is past the data, and the parser is stuck |
| SbatVarsProps.EmptyVariableStuck | sbat.c:197-258 | as written, the empty variable leaves the parser stuck reading past its data |
| SbatVarsProps.EmptyVariableAccepted | sbat.c:253-258 | with the corrected check, the loop starts at the empty variable's terminator and the list is empty |
| SbatVarsExamples.DefaultVariable | sbat.c:258-300 | `sbat,1,2021030218\n` is the single pair `sbat`, 1 |
| SbatVarsExamples.MarkedVariable | sbat.c:253-254 | the same text behind a byte-order mark gives the same list |
| SbatVarsExamples.NameAloneLine | sbat.c:262-294 | the line `a\nb,c\n` is read as the pair `a`, `b`, the cursor ends at the terminator, and `c` is dropped |
| SbatVarsExamples.NameAlone | sbat.c:277-283 | `a\nb,c\n` is the pair `a`, `b` |
| SbatVarsExamples.Unterminated | sbat.c:270-286 | `sbat,1` without a newline is rejected |
| SbatVerify.Revokes | sbat.c:124-143 | the entry revokes the record only for the same component name and a nonzero entry generation |
| SbatVerify.Revoked | sbat.c:181-190 | some entry revokes some record; never for an empty section or an empty list |
| SbatVerify.VerifySingleEntry | sbat.c:121-146 | a security violation exactly when the names are equal and the record's 16-bit generation is lower; success otherwise |
| SbatVerify.OtherComponentAllowed | sbat.c:126-127 | an entry for another component never revokes |
| SbatVerify.DecimalGenerations | sbat.c:135-143 | decimal generations `m`, `n` of one component revoke exactly when `m mod 2^16 < n mod 2^16` |
| SbatVerify.UnparsableRecordGeneration | sbat.c:131-136 | an unparsable record generation counts as 0, so any nonzero entry generation revokes it |
| SbatVerify.UnparsableListGeneration | sbat.c:131-136 | an unparsable entry generation counts as 0 and revokes nothing |
| SbatVerify.HigherGenerationAllowed | sbat.c:138-143 | raising an allowed record's generation keeps it allowed |
| SbatVerify.VerifySbat | sbat.c:167-195 | an absent or empty list is refused and left as it was; otherwise a security violation exactly when some entry revokes some record, with the list kept; success otherwise, with the list emptied |
| SbatVerifyExamples.OneDigitGeneration | sbat.c:135-136 | a one-digit generation is that digit's value |
| SbatVerifyExamples.MatchOneExact | test-sbat.c:427-460 | an entry at the record's own generation does not revoke |
| SbatVerifyExamples.MatchOneHigher | test-sbat.c:462-495 | an entry below the record's generation does not revoke |
| SbatVerifyExamples.RejectOne | test-sbat.c:497-530 | an entry above the record's generation revokes |
| SbatVerifyExamples.RejectMany | test-sbat.c:532-574 | one revoking entry among two is enough |
| SbatVerifyExamples.MatchManyHigher | test-sbat.c:576-618 | records above their entries are allowed |
| SbatVerifyExamples.MatchManyExact | test-sbat.c:620-662 | records at their entries' generations are allowed |
| SbatVerifyExamples.RejectManyAll | test-sbat.c:664-706 | both records listed above their generations: revoked |
| SbatVerifyExamples.MatchDiffName | test-sbat.c:708-750 | entries for other components revoke nothing |
| SbatVerifyExamples.MatchDiffNameMixed | test-sbat.c:752-794 | a matching entry at the record's generation and another component: allowed |
| SbatVerifyExamples.RejectDiffNameMixed | test-sbat.c:796-838 | a matching entry above the record's generation revokes; the other component alone revokes nothing |

## Left out

- Reading the variable. `get_variable` (sbat.c:244) is firmware I/O. Its status is the `read` parameter of `ParseSbatVar`, and its bytes are the `data` array. `FreePool(data)` is not modelled.
- Unterminated data. The C scans the variable's data until a NUL, with `end` checked only when `get_sbat_field` is entered. The model requires a terminator at or after the start (`NulFrom`), which the C never checks.
- Logging. `dprint`, `LogError` and `perror` only print.
- Allocation. `AllocatePool`, `AllocateZeroPool` and `ReallocatePool` failures are the oracles `oom`, `entryOom`, `growOom` and `addOom`. `FreePool` is left out.
- `strndupa`. It copies on the stack and cannot fail, so the `!fields[i]` check at sbat.c:291-293 is dead and not modelled. The copies live in `parse_sbat_var`'s frame and dangle once it returns. The model keeps their text and does not model that lifetime.
- `list_t`. The intrusive list and its macros are a sequence with appends at the tail.
- `clean_up_vars`. It is modelled as "the list becomes empty". Its swapped NULL guards (sbat.c:159-162) free memory only, so they are not modelled.
- `atoi`. It is not part of this model. `Atoi` reads the leading decimal digits and gives 0 when there are none. Leading blanks, signs and `int` overflow are not modelled. Only the 16-bit cut matters to the comparison.
- `strcmp`, `strlen` and `CompareMem`. They are not part of this model. They become sequence equality, string length and prefix comparison.
- `strchrnula`. It is not part of this model. It is taken to be the `strchrnul` of include/system/string.h:57-69, which returns NULL for NULL. So in `parse_sbat_var` a NULL `start` gives two equal lengths, `delim` becomes a newline, and the `!start` check at sbat.c:284 rejects the variable. If `strchrnula` dereferenced its argument, that path would crash instead.
- A NULL list in `parse_sbat_var`. `INIT_LIST_HEAD(entries)` (sbat.c:238) writes through the pointer before the NULL check at sbat.c:241. So `ParseSbatVar` takes a non-null `TrustList`, and the outcome test-sbat.c:379-386 expects for a NULL list is not modelled.
- A NULL `sbat` in `verify_sbat`. Its size is read at sbat.c:181 whenever the list is non-empty (the test at test-sbat.c:393-405 is disabled). So `VerifySbat` takes a non-null `Sbat`.
- Crash paths. The C reads through a NULL or unset pointer in these cases:
  - in the section, a last record without a newline, once the array has grown for it (sbat.c:58, 111);
  - in the variable, a last line whose comment has no newline (sbat.c:258);
  - in the variable, the loop test after a mark check that passed on fewer than three bytes (sbat.c:253-258);
  - in the variable, a field pointer `get_sbat_field` did not set because the cursor reached `end` (sbat.c:287-290).

  These are the `Stuck` and `Indeterminate` outcomes, and the methods require that they do not happen.
- `parse_sbat` error path. It frees every record but leaves `sbat->size` and `sbat->entries` as they were. The model empties `entries`, which is what a caller may rely on.
- Pointer arithmetic. `sbat_base + sbat_size - 1` and `data + datasize` are taken not to overflow the address space. The `int` indexes of `translate_slashes` are unbounded. `TranslateInto` and `TranslateSlashes` require `out` to be large enough, which the C leaves to its callers.
- `StrCmp` and `StrnCmp` assert non-NULL arguments (test.c:21-22, 34-35). They take non-null arrays.
- Compiler attributes, builtin wrappers, compile-time asserts and `READ_ONCE`/`WRITE_ONCE` (include/compiler.h:1-147, 158-211), and the builtin aliases of include/system/string.h:4-35, are outside the modelled core.
- SbatVars.ParseVariable: it defines what `parse_sbat_var` computes and has no contract of its own. Its properties are the SbatVarsProps lemmas. It uses the mark check as written, and it answers `Stuck` where that check moves the start past the data.

## Findings

| source | as written | input that shows it | evidently intended | confidence | as-written member | corrected member |
|---|---|---|---|---|---|---|
| sbat.c:197-203 | `is_utf8_bom` compares only `MIN(3, bufsize)` bytes with EF BB BF, and `parse_sbat_var` then skips 3 bytes (sbat.c:253-254) | an empty SBAT variable (`datasize` 0), or one whose one or two bytes are EF or EF BB: the check passes and `start` points past the data | skip the mark only when all three of its bytes are present | medium; not executed | SbatVarsProps.EmptyVariableSkipsPastData | SbatVarsProps.EmptyVariableAccepted |

The as-written check is `SbatVars.IsUtf8BomAsWritten` and its start is
`SbatVars.DataStartAsWritten`. `SbatVarsProps.ShortMarkSkipsPastData`
covers the one- and two-byte cases.

The corrected check `SbatVars.IsUtf8Bom` agrees with the as-written one on
every variable of three or more bytes. `SbatVars.DataStart`, the corrected
start, is never past the data. `ParseSbatVar` and `ParseVariable` use the
as-written check. On every input where they are defined, its start is the
corrected one (`SbatVars.DataStartAsWritten`). The inputs where the two
differ are the `Stuck` outcome (`SbatVarsProps.EmptyVariableStuck`).
