/** The values the SBAT check works on: the EFI status codes it returns, a
    record of the image's `.sbat` section, an entry of the trusted SBAT
    variable, and the reading of a generation number. */
module SbatTypes {

  /** The EFI status codes the SBAT functions return.  `NotFound` stands for
      any error that reading the variable store reports; it is passed on. */
  datatype Status = Success | InvalidParameter | OutOfResources | SecurityViolation | NotFound

  /** An allocation oracle under which no allocation fails. */
  predicate NeverFails(i: nat)
  {
    false
  }

  /** `EFI_ERROR(status)`. */
  predicate IsError(s: Status)
  {
    s != Success
  }

  /** One record of the `.sbat` section (`struct sbat_entry`): six text
      fields, held here as the characters each field pointer designates. */
  datatype SbatEntry = SbatEntry(
    componentName: seq<char>,
    componentGeneration: seq<char>,
    vendorName: seq<char>,
    vendorPackageName: seq<char>,
    vendorVersion: seq<char>,
    vendorUrl: seq<char>)

  /** One entry of the trusted SBAT variable (`struct sbat_var`). */
  datatype SbatVar = SbatVar(componentName: seq<char>, componentGeneration: seq<char>)

  predicate IsDigit(c: char)
  {
    '0' <= c <= '9'
  }

  function DigitValue(c: char): (r: nat)
    requires IsDigit(c)
    ensures r < 10
  {
    c as int - '0' as int
  }

  function Digit(d: nat): (c: char)
    requires d < 10
    ensures IsDigit(c) && DigitValue(c) == d
  {
    (d + '0' as int) as char
  }

  /** Length of the run of decimal digits at the front of `s`. */
  function DigitRun(s: seq<char>): (n: nat)
    ensures n <= |s|
    ensures forall i :: 0 <= i < n ==> IsDigit(s[i])
    ensures n < |s| ==> !IsDigit(s[n])
  {
    if |s| == 0 || !IsDigit(s[0]) then 0 else 1 + DigitRun(s[1..])
  }

  /** The number a string of decimal digits denotes. */
  function Decimal(d: seq<char>): nat
    requires forall i :: 0 <= i < |d| ==> IsDigit(d[i])
  {
    if |d| == 0 then 0 else 10 * Decimal(d[..|d| - 1]) + DigitValue(d[|d| - 1])
  }

  function Pow10(k: nat): (r: nat)
    ensures r >= 1
  {
    if k == 0 then 1 else 10 * Pow10(k - 1)
  }

  /** A string of `k` decimal digits denotes a number below 10^k. */
  lemma {:induction false} DecimalBound(d: seq<char>)
    requires forall i :: 0 <= i < |d| ==> IsDigit(d[i])
    ensures Decimal(d) < Pow10(|d|)
  {
    if |d| > 0 {
      var d' := d[..|d| - 1];
      DecimalBound(d');
      assert Decimal(d) == 10 * Decimal(d') + DigitValue(d[|d| - 1]);
      assert Decimal(d) <= 10 * (Pow10(|d'|) - 1) + 9;
    }
  }

  /** `atoi`: the value of the leading decimal digits, 0 when there are
      none. */
  function Atoi(s: seq<char>): (n: nat)
    ensures n < Pow10(DigitRun(s))
  {
    DecimalBound(s[..DigitRun(s)]);
    Decimal(s[..DigitRun(s)])
  }

  /** `(UINT16)atoi(s)`: the generation number `verify_single_entry`
      compares. */
  function Generation(s: seq<char>): (g: nat)
    ensures g < 0x1_0000
  {
    Atoi(s) % 0x1_0000
  }

  /** The decimal spelling of `n`, without leading zeros. */
  function ToDecimal(n: nat): (d: seq<char>)
    ensures |d| >= 1 && forall i :: 0 <= i < |d| ==> IsDigit(d[i])
  {
    if n < 10 then [Digit(n)] else ToDecimal(n / 10) + [Digit(n % 10)]
  }

  /** The digits `ToDecimal` writes are read back as `n`. */
  lemma {:induction false} DecimalToDecimal(n: nat)
    ensures Decimal(ToDecimal(n)) == n
  {
    var d := ToDecimal(n);
    if n >= 10 {
      DecimalToDecimal(n / 10);
      assert d[..|d| - 1] == ToDecimal(n / 10);
    }
  }

  /** The digit run of a digit string followed by a non-digit is that
      string. */
  lemma {:induction false} DigitRunPrefix(d: seq<char>, rest: seq<char>)
    requires forall i :: 0 <= i < |d| ==> IsDigit(d[i])
    requires |rest| == 0 || !IsDigit(rest[0])
    ensures DigitRun(d + rest) == |d|
  {
    if |d| > 0 {
      assert (d + rest)[1..] == d[1..] + rest;
      DigitRunPrefix(d[1..], rest);
    } else {
      assert d + rest == rest;
    }
  }

  /** `atoi` reads back a number written in decimal, whatever non-digit text
      follows it. */
  lemma {:induction false} AtoiToDecimal(n: nat, rest: seq<char>)
    requires |rest| == 0 || !IsDigit(rest[0])
    ensures Atoi(ToDecimal(n) + rest) == n
  {
    var d := ToDecimal(n);
    DigitRunPrefix(d, rest);
    assert (d + rest)[..|d|] == d;
    DecimalToDecimal(n);
  }

  /** Text that does not start with a digit has generation 0: a badly formed
      generation counts as zero. */
  lemma {:induction false} AtoiNoDigits(s: seq<char>)
    requires |s| == 0 || !IsDigit(s[0])
    ensures Atoi(s) == 0 && Generation(s) == 0
  {
  }

  /** Only the low 16 bits of the number survive: 65537 is generation 1. */
  lemma {:induction false} GenerationTruncates(n: nat)
    ensures Generation(ToDecimal(n)) == n % 0x1_0000
  {
    AtoiToDecimal(n, []);
    assert ToDecimal(n) + [] == ToDecimal(n);
  }
}
