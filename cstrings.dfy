/** The NUL-terminated byte-string helpers of include/system/string.h:
    `strchrnul` and `translate_slashes`.  A C string is an array of `char`
    together with an index into it; the array stands for the memory that can
    be read, so a scan is only defined when a terminator lies at or after the
    starting index. */
module CStrings {
  import opened Wrappers

  const NUL: char := '\0'
  const Backslash: char := '\\'
  const Slash: char := '/'

  /** The memory `s` holds a terminator at or after index `i`. */
  ghost predicate NulFrom(s: seq<char>, i: nat)
  {
    exists j :: i <= j < |s| && s[j] == NUL
  }

  /** Index of the first byte at or after `i` that is `c` or the terminator:
      what `strchrnul(s + i, c)` points at. */
  function ChrNul(s: seq<char>, i: nat, c: char): (r: nat)
    requires NulFrom(s, i)
    ensures i <= r < |s|
    ensures s[r] == c || s[r] == NUL
    ensures forall k :: i <= k < r ==> s[k] != c && s[k] != NUL
    decreases |s| - i
  {
    if s[i] == NUL || s[i] == c then i else ChrNul(s, i + 1, c)
  }

  /** Index of the terminator of the string that starts at `i`. */
  function StrEnd(s: seq<char>, i: nat): (r: nat)
    requires NulFrom(s, i)
    ensures i <= r < |s| && s[r] == NUL
    ensures forall k :: i <= k < r ==> s[k] != NUL
  {
    ChrNul(s, i, NUL)
  }

  /** The string that starts at index `i`, without its terminator. */
  function CStr(s: seq<char>, i: nat): (r: seq<char>)
    requires NulFrom(s, i)
    ensures i + |r| < |s| && r == s[i..i + |r|] && s[i + |r|] == NUL
    ensures NUL !in r
  {
    s[i..StrEnd(s, i)]
  }

  /** The search never passes the first terminator, and a character that
      occurs in the string is found at its first occurrence. */
  lemma {:induction false} ChrNulWithinString(s: seq<char>, i: nat, c: char)
    requires NulFrom(s, i)
    ensures ChrNul(s, i, c) <= StrEnd(s, i)
    ensures ChrNul(s, i, c) < StrEnd(s, i) <==> c in CStr(s, i)
    ensures c == NUL ==> ChrNul(s, i, c) == StrEnd(s, i)
  {
    var r, e := ChrNul(s, i, c), StrEnd(s, i);
    if c in CStr(s, i) {
      var k :| 0 <= k < e - i && CStr(s, i)[k] == c;
      assert s[i + k] == c;
    }
    if r < e {
      assert CStr(s, i)[r - i] == c;
    }
  }

  /** The search result is determined by its three defining properties. */
  lemma {:induction false} ChrNulAt(s: seq<char>, i: nat, j: nat, c: char)
    requires NulFrom(s, i) && i <= j < |s|
    requires s[j] == c || s[j] == NUL
    requires forall k :: i <= k < j ==> s[k] != c && s[k] != NUL
    ensures ChrNul(s, i, c) == j
  {
  }

  /** A string is read back as the text before the first terminator. */
  lemma {:induction false} CStrIs(s: seq<char>, i: nat, t: seq<char>)
    requires i + |t| < |s| && s[i..i + |t|] == t && s[i + |t|] == NUL && NUL !in t
    ensures NulFrom(s, i) && CStr(s, i) == t
  {
    forall k | i <= k < i + |t|
      ensures s[k] != NUL
    {
      assert s[k] == t[k - i];
    }
    ChrNulAt(s, i, i + |t|, NUL);
  }

  /** The string "abcd", a terminator, then "fghi" and its terminator: a
      character is found at its first place, the terminator is found as
      itself, and a character after the first terminator is not found. */
  lemma ChrNulEmbeddedNul()
    ensures var s := "abcd" + [NUL] + "fghi" + [NUL];
      NulFrom(s, 0) &&
      ChrNul(s, 0, 'a') == 0 && ChrNul(s, 0, 'd') == 3 &&
      ChrNul(s, 0, NUL) == 4 && ChrNul(s, 0, 'i') == 4
  {
    var s := "abcd" + [NUL] + "fghi" + [NUL];
    assert s[4] == NUL;
    ChrNulAt(s, 0, 0, 'a');
    ChrNulAt(s, 0, 3, 'd');
    ChrNulAt(s, 0, 4, NUL);
    ChrNulAt(s, 0, 4, 'i');
  }

  /** `strchrnul`: NULL for a NULL string, otherwise a pointer (here the
      index) of the first `c` or the terminator. */
  method StrChrNul(s: array?<char>, from: nat, c: char) returns (r: Option<nat>)
    requires s != null ==> NulFrom(s[..], from)
    ensures s == null <==> r == None
    ensures s != null ==> r == Some(ChrNul(s[..], from, c))
  {
    if s == null {
      return None;
    }
    ghost var stop := ChrNul(s[..], from, c);
    var i := from;
    while s[i] != NUL && s[i] != c
      invariant from <= i <= stop
      decreases stop - i
    {
      i := i + 1;
    }
    return Some(i);
  }

  /** The byte `translate_slashes` writes for the input byte `c`. */
  function Out(c: char): (r: char)
    ensures r != Backslash && (c != Backslash ==> r == c)
  {
    if c == Backslash then Slash else c
  }

  /** Where `translate_slashes` resumes after the byte at `i` of `s`: a
      backslash swallows one directly following backslash. */
  function Skip(s: seq<char>, i: nat): (r: nat)
    requires i < |s|
    ensures i < r <= |s|
  {
    if s[i] == Backslash && i + 1 < |s| && s[i + 1] == Backslash then i + 2 else i + 1
  }

  /** What `translate_slashes` writes for the string `s` from index `i` on. */
  function TranslatedFrom(s: seq<char>, i: nat): (r: seq<char>)
    requires i <= |s|
    ensures |r| <= |s| - i
    decreases |s| - i
  {
    if i == |s| then [] else [Out(s[i])] + TranslatedFrom(s, Skip(s, i))
  }

  /** The translation of a whole string. */
  function Translated(s: seq<char>): (r: seq<char>)
    ensures |r| <= |s| <= 2 * |r|
  {
    TranslatedShape(s, 0);
    TranslatedFrom(s, 0)
  }

  /** The translation is never longer than its input nor shorter than half
      of it, holds no backslash, and adds no terminator. */
  lemma {:induction false} TranslatedShape(s: seq<char>, i: nat)
    requires i <= |s|
    ensures |TranslatedFrom(s, i)| <= |s| - i <= 2 * |TranslatedFrom(s, i)|
    ensures i < |s| ==> |TranslatedFrom(s, i)| >= 1
    ensures Backslash !in TranslatedFrom(s, i)
    ensures NUL !in s ==> NUL !in TranslatedFrom(s, i)
    decreases |s| - i
  {
    if i < |s| {
      TranslatedShape(s, Skip(s, i));
      assert NUL !in s ==> s[i] != NUL;
    }
  }

  /** A string without backslashes is copied unchanged. */
  lemma {:induction false} TranslatedPlain(s: seq<char>, i: nat)
    requires i <= |s| && Backslash !in s
    ensures TranslatedFrom(s, i) == s[i..]
    decreases |s| - i
  {
    if i < |s| {
      assert s[i] != Backslash;
      TranslatedPlain(s, i + 1);
      assert s[i..] == [s[i]] + s[i + 1..];
    }
  }

  /** A doubled backslash becomes a single slash, as does a lone one. */
  lemma TranslatedPairExample()
    ensures Translated("\\\\a\\b") == "/a/b"
  {
  }

  /** A third backslash starts a new pair: three become two slashes. */
  lemma TranslatedTripleExample()
    ensures Translated("\\\\\\") == "//"
  {
  }

  /** One step of the copying loop: if the translation from `i` is the tail
      of `total` from `j`, the byte written next is `Out(s[i])` and the rest
      continues from `Skip(s, i)`. */
  lemma {:induction false} TranslatedNext(s: seq<char>, i: nat, total: seq<char>, j: nat)
    requires i < |s| && j <= |total| && TranslatedFrom(s, i) == total[j..]
    ensures j < |total| && total[j] == Out(s[i])
    ensures TranslatedFrom(s, Skip(s, i)) == total[j + 1..]
  {
    assert total[j..] == [Out(s[i])] + TranslatedFrom(s, Skip(s, i));
    assert total[j..][1..] == total[j + 1..];
  }

  /** The copying loop of `translate_slashes`: writes the translation of the
      string `str` to the front of `out` and returns its length, leaving the
      rest of `out` alone.  `out` may be `str` itself. */
  method TranslateInto(out: array<char>, str: array<char>) returns (j: nat)
    requires NulFrom(str[..], 0)
    requires |Translated(CStr(str[..], 0))| < out.Length
    modifies out
    ensures j == |Translated(CStr(old(str[..]), 0))|
    ensures out[..j] == Translated(CStr(old(str[..]), 0))
    ensures out[j..] == old(out[..])[j..]
  {
    ghost var cs := CStr(str[..], 0);
    ghost var n := |cs|;
    ghost var total := Translated(cs);
    var i := 0;
    j := 0;
    while str[i] != NUL
      invariant 0 <= j <= i <= n && j <= |total| < out.Length
      invariant forall k :: i <= k < n ==> str[k] == cs[k]
      invariant str[n] == NUL
      invariant TranslatedFrom(cs, i) == total[j..]
      invariant forall k :: 0 <= k < j ==> out[k] == total[k]
      invariant forall k :: j <= k < out.Length ==> out[k] == old(out[k])
      decreases n - i
    {
      TranslatedNext(cs, i, total, j);
      ghost var next := Skip(cs, i);
      assert i < n && str[i] == cs[i] && str[i + 1] == (if i + 1 < n then cs[i + 1] else NUL);
      if str[i] == Backslash {
        out[j] := Slash;
        if str[i + 1] == Backslash {
          i := i + 1;
        }
      } else {
        out[j] := str[i];
      }
      assert i + 1 == next;
      i, j := i + 1, j + 1;
    }
    assert out[..j] == total;
    assert out[j..] == old(out[..])[j..];
  }

  /** `translate_slashes(out, str)`: NULL when either pointer is NULL;
      otherwise `out` receives the translation of `str` and its terminator,
      and `out` is returned.  `out` may be `str` itself. */
  method TranslateSlashes(out: array?<char>, str: array?<char>) returns (r: array?<char>)
    requires str != null ==> NulFrom(str[..], 0)
    requires str != null && out != null ==> |Translated(CStr(str[..], 0))| < out.Length
    modifies out
    ensures str == null || out == null ==> r == null && (out != null ==> out[..] == old(out[..]))
    ensures str != null && out != null ==>
      var t := Translated(CStr(old(str[..]), 0));
      && r == out
      && out[..] == t + [NUL] + old(out[..])[|t| + 1..]
  {
    if str == null || out == null {
      return null;
    }
    ghost var t := Translated(CStr(str[..], 0));
    var j := TranslateInto(out, str);
    ghost var mid := out[..];
    out[j] := NUL;
    assert out[..j] == t && out[j] == NUL && out[j + 1..] == mid[j + 1..];
    assert out[..] == out[..j] + [out[j]] + out[j + 1..];
    return out;
  }
}
