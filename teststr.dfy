/** The wide-string comparators of the unit-test harness (test.c).  They
    differ from libc's `strcmp`: the result is `s2[i] - s1[i]` at the first
    difference (positive when the second string is larger), and the loop
    stops at the first terminator of either string, so a string and any
    extension of it compare equal. */
module TestHarness {

  /** A UCS-2 code unit (`CHAR16`). */
  type Char16 = x: int | 0 <= x < 0x1_0000

  /** The wide string starting at index `i` of `s` is terminated within `s`. */
  ghost predicate Terminated(s: seq<Char16>, i: nat)
  {
    exists j :: i <= j < |s| && s[j] == 0
  }

  /** A terminator after a non-terminator position is also after the next one. */
  lemma {:induction false} TerminatedNext(s: seq<Char16>, i: nat)
    requires Terminated(s, i) && i < |s| && s[i] != 0
    ensures Terminated(s, i + 1)
  {
    var j :| i <= j < |s| && s[j] == 0;
    assert i + 1 <= j;
  }

  /** What `StrCmp(s1 + i, s2 + i)` returns. */
  function Compare(s1: seq<Char16>, s2: seq<Char16>, i: nat): (r: int)
    requires Terminated(s1, i) && Terminated(s2, i)
    ensures -0x1_0000 < r < 0x1_0000
    decreases |s1| - i
  {
    if s1[i] == 0 || s2[i] == 0 then 0
    else if s1[i] != s2[i] then s2[i] as int - s1[i] as int
    else
      TerminatedNext(s1, i);
      TerminatedNext(s2, i);
      Compare(s1, s2, i + 1)
  }

  /** What `StrnCmp(s1 + i, s2 + i, len - i)` returns: positions from `len` on
      are not looked at. */
  function CompareN(s1: seq<Char16>, s2: seq<Char16>, i: nat, len: nat): (r: int)
    requires Terminated(s1, i) && Terminated(s2, i)
    ensures -0x1_0000 < r < 0x1_0000
    ensures len <= i ==> r == 0
    decreases |s1| - i
  {
    if i >= len || s1[i] == 0 || s2[i] == 0 then 0
    else if s1[i] != s2[i] then s2[i] as int - s1[i] as int
    else
      TerminatedNext(s1, i);
      TerminatedNext(s2, i);
      CompareN(s1, s2, i + 1, len)
  }

  /** `s1` and `s2` agree, without a terminator, on the positions `i..k`. */
  ghost predicate SameRun(s1: seq<Char16>, s2: seq<Char16>, i: nat, k: nat)
  {
    k <= |s1| && k <= |s2| && forall j :: i <= j < k ==> s1[j] == s2[j] && s1[j] != 0
  }

  /** `StrCmp(s1, s2)`. */
  method StrCmp(s1: array<Char16>, s2: array<Char16>) returns (r: int)
    requires Terminated(s1[..], 0) && Terminated(s2[..], 0)
    ensures r == Compare(s1[..], s2[..], 0)
  {
    var i := 0;
    while s1[i] != 0 && s2[i] != 0
      invariant Terminated(s1[..], i) && Terminated(s2[..], i)
      invariant Compare(s1[..], s2[..], i) == Compare(s1[..], s2[..], 0)
      decreases s1.Length - i
    {
      if s1[i] != s2[i] {
        return s2[i] as int - s1[i] as int;
      }
      TerminatedNext(s1[..], i);
      TerminatedNext(s2[..], i);
      i := i + 1;
    }
    return 0;
  }

  /** `StrnCmp(s1, s2, len)`. */
  method StrnCmp(s1: array<Char16>, s2: array<Char16>, len: nat) returns (r: int)
    requires Terminated(s1[..], 0) && Terminated(s2[..], 0)
    ensures r == CompareN(s1[..], s2[..], 0, len)
    ensures len == 0 ==> r == 0
  {
    var i := 0;
    while i < len && s1[i] != 0 && s2[i] != 0
      invariant Terminated(s1[..], i) && Terminated(s2[..], i)
      invariant CompareN(s1[..], s2[..], i, len) == CompareN(s1[..], s2[..], 0, len)
      decreases s1.Length - i
    {
      if s1[i] != s2[i] {
        return s2[i] as int - s1[i] as int;
      }
      TerminatedNext(s1[..], i);
      TerminatedNext(s2[..], i);
      i := i + 1;
    }
    return 0;
  }

  /** A string compares equal to itself. */
  lemma {:induction false} CompareSelf(s: seq<Char16>, i: nat)
    requires Terminated(s, i)
    ensures Compare(s, s, i) == 0
    decreases |s| - i
  {
    if s[i] != 0 {
      TerminatedNext(s, i);
      CompareSelf(s, i + 1);
    }
  }

  /** After a common run, the first position where both strings hold a
      character and the characters differ decides: `s2[k] - s1[k]`. */
  lemma {:induction false} CompareFirstDifference(s1: seq<Char16>, s2: seq<Char16>, i: nat, k: nat)
    requires Terminated(s1, i) && Terminated(s2, i) && i <= k
    requires SameRun(s1, s2, i, k) && k < |s1| && k < |s2|
    requires s1[k] != 0 && s2[k] != 0 && s1[k] != s2[k]
    ensures Compare(s1, s2, i) == s2[k] as int - s1[k] as int
    decreases k - i
  {
    if i < k {
      TerminatedNext(s1, i);
      TerminatedNext(s2, i);
      CompareFirstDifference(s1, s2, i + 1, k);
    }
  }

  /** After a common run, a terminator in either string gives 0: a string
      compares equal to every extension of it. */
  lemma {:induction false} ComparePrefix(s1: seq<Char16>, s2: seq<Char16>, i: nat, k: nat)
    requires Terminated(s1, i) && Terminated(s2, i) && i <= k
    requires SameRun(s1, s2, i, k) && k < |s1| && k < |s2|
    requires s1[k] == 0 || s2[k] == 0
    ensures Compare(s1, s2, i) == 0
    decreases k - i
  {
    if i < k {
      TerminatedNext(s1, i);
      TerminatedNext(s2, i);
      ComparePrefix(s1, s2, i + 1, k);
    }
  }

  /** Swapping the arguments negates the result. */
  lemma {:induction false} CompareAntisymmetric(s1: seq<Char16>, s2: seq<Char16>, i: nat)
    requires Terminated(s1, i) && Terminated(s2, i)
    ensures Compare(s2, s1, i) == -Compare(s1, s2, i)
    decreases |s1| - i
  {
    if s1[i] != 0 && s2[i] != 0 && s1[i] == s2[i] {
      TerminatedNext(s1, i);
      TerminatedNext(s2, i);
      CompareAntisymmetric(s1, s2, i + 1);
    }
  }

  /** The result is 0 exactly when the strings agree up to the first
      terminator of either one, i.e. one is a prefix of the other. */
  lemma {:induction false} CompareZeroIff(s1: seq<Char16>, s2: seq<Char16>, i: nat)
    requires Terminated(s1, i) && Terminated(s2, i)
    ensures Compare(s1, s2, i) == 0 <==>
      exists k :: i <= k && SameRun(s1, s2, i, k) && k < |s1| && k < |s2| && (s1[k] == 0 || s2[k] == 0)
    decreases |s1| - i
  {
    if s1[i] == 0 || s2[i] == 0 {
      assert SameRun(s1, s2, i, i);
    } else if s1[i] != s2[i] {
      forall k | i <= k && SameRun(s1, s2, i, k) && k < |s1| && k < |s2|
        ensures s1[k] != 0 && s2[k] != 0
      {
        assert k == i;
      }
    } else {
      TerminatedNext(s1, i);
      TerminatedNext(s2, i);
      CompareZeroIff(s1, s2, i + 1);
      if Compare(s1, s2, i) == 0 {
        var k :| i + 1 <= k && SameRun(s1, s2, i + 1, k) && k < |s1| && k < |s2| && (s1[k] == 0 || s2[k] == 0);
        assert SameRun(s1, s2, i, k);
      } else {
        forall k | i <= k && SameRun(s1, s2, i, k) && k < |s1| && k < |s2|
          ensures s1[k] != 0 && s2[k] != 0
        {
          if i < k {
            assert SameRun(s1, s2, i + 1, k);
          }
        }
      }
    }
  }

  /** A limit beyond the first terminator of `s1` does not bind: `StrnCmp`
      then agrees with `StrCmp`. */
  lemma {:induction false} CompareNUnbounded(s1: seq<Char16>, s2: seq<Char16>, i: nat, len: nat)
    requires Terminated(s1, i) && Terminated(s2, i)
    requires exists j :: i <= j < len && j < |s1| && s1[j] == 0
    ensures CompareN(s1, s2, i, len) == Compare(s1, s2, i)
    decreases |s1| - i
  {
    if s1[i] != 0 && s2[i] != 0 && s1[i] == s2[i] {
      var j :| i <= j < len && j < |s1| && s1[j] == 0;
      assert i + 1 <= j;
      TerminatedNext(s1, i);
      TerminatedNext(s2, i);
      CompareNUnbounded(s1, s2, i + 1, len);
    }
  }

  /** Within the first `len` positions, `StrnCmp` follows the same
      first-difference rule. */
  lemma {:induction false} CompareNFirstDifference(s1: seq<Char16>, s2: seq<Char16>, i: nat, k: nat, len: nat)
    requires Terminated(s1, i) && Terminated(s2, i) && i <= k < len
    requires SameRun(s1, s2, i, k) && k < |s1| && k < |s2|
    requires s1[k] != 0 && s2[k] != 0 && s1[k] != s2[k]
    ensures CompareN(s1, s2, i, len) == s2[k] as int - s1[k] as int
    decreases k - i
  {
    if i < k {
      TerminatedNext(s1, i);
      TerminatedNext(s2, i);
      CompareNFirstDifference(s1, s2, i + 1, k, len);
    }
  }

  /** Positions at or beyond the limit are ignored: strings that agree on the
      first `len` positions compare equal. */
  lemma {:induction false} CompareNLimit(s1: seq<Char16>, s2: seq<Char16>, i: nat, len: nat)
    requires Terminated(s1, i) && Terminated(s2, i) && i <= len
    requires SameRun(s1, s2, i, len)
    ensures CompareN(s1, s2, i, len) == 0
    decreases len - i
  {
    if i < len {
      TerminatedNext(s1, i);
      TerminatedNext(s2, i);
      CompareNLimit(s1, s2, i + 1, len);
    }
  }
}
