/** Small facts about sequences that the parser proofs share. */
module SeqFacts {
  /** Concatenation is associative. */
  lemma {:induction false} Associative<T>(x: seq<T>, y: seq<T>, z: seq<T>)
    ensures (x + y) + z == x + (y + z)
  {
  }

  /** Appending a non-empty sequence is appending its head, then its tail. */
  lemma {:induction false} AppendCons<T>(acc: seq<T>, rs: seq<T>)
    requires |rs| > 0
    ensures acc + [rs[0]] + rs[1..] == acc + rs
    ensures |rs| == 1 ==> acc + [rs[0]] == acc + rs
  {
    assert rs == [rs[0]] + rs[1..];
  }

  /** Appending to nothing, and the suffix from 0. */
  lemma {:induction false} AppendEmpty<T>(rs: seq<T>)
    ensures [] + rs == rs && rs[0..] == rs
  {
  }

  /** Writing a byte before `q` leaves the bytes from `q` on alone. */
  lemma {:induction false} UpdateBefore(b: seq<char>, p: nat, x: char, q: nat)
    requires p < q <= |b|
    ensures b[p := x][q..] == b[q..]
  {
  }

  /** A slice is the part before `p`, the element at `p`, and the part after. */
  lemma {:induction false} SplitAt<T>(s: seq<T>, i: nat, p: nat, j: nat)
    requires i <= p < j <= |s|
    ensures s[i..j] == s[i..p] + [s[p]] + s[p + 1..j]
  {
    assert s[i..j] == s[i..p] + s[p..j];
    assert s[p..j] == [s[p]] + s[p + 1..j];
  }

  /** A value absent from a sequence has no occurrences in its multiset. */
  lemma {:induction false} Absent<T>(s: seq<T>, x: T)
    requires x !in s
    ensures multiset(s)[x] == 0
  {
  }
}
