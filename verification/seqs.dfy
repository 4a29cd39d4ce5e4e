/** Splitting and regrouping facts about sequences, used to keep large proofs small. */
module Seqs {
  lemma ConcatAssoc<T>(a: seq<T>, b: seq<T>, c: seq<T>)
    ensures a + b + c == a + (b + c)
  {
  }

  lemma ConcatAssoc4<T>(a: seq<T>, b: seq<T>, c: seq<T>, d: seq<T>)
    ensures a + (b + c + d) == a + b + c + d
  {
  }

  lemma SingleSeq<T>(a: seq<T>)
    requires |a| == 1
    ensures a == [a[0]]
  {
  }

  /** A non-empty slice is its first element followed by the rest. */
  lemma SliceCons<T>(x: seq<T>, j: nat, e: nat)
    requires j < e <= |x|
    ensures x[j..e] == [x[j]] + x[j + 1..e]
  {
  }

  lemma SliceSplit<T>(v: seq<T>, j: nat, m: nat)
    requires j <= m <= |v|
    ensures v[j..] == v[j..m] + v[m..]
  {
  }

  /** Splitting `before + [n] + after` at the front when `before` is empty. */
  lemma JoinEmpty<T>(before: seq<T>, n: T, after: seq<T>)
    requires |before| == 0
    ensures var s := before + [n] + after; |s| > 0 && s[0] == n && s[1..] == after
    ensures before + after == after
  {
    assert before + [n] + after == [n] + after;
  }

  /** Splitting `before + [n] + after` and `before + after` at the front. */
  lemma JoinTail<T>(before: seq<T>, n: T, after: seq<T>)
    requires |before| > 0
    ensures var s := before + [n] + after; s[0] == before[0] && s[1..] == before[1..] + [n] + after
    ensures var t := before + after; t[0] == before[0] && t[1..] == before[1..] + after
  {
  }
}
