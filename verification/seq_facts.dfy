/** Small facts about sequence concatenation, stated once so that the
    proofs about growing edge queues can cite them instead of re-deriving
    them element by element. */
module SeqFacts {

  /** Appending a block to a queue in two steps or in one gives the same queue. */
  lemma AppendAssoc<T>(a: seq<T>, b: seq<T>, c: seq<T>)
    ensures (a + b) + c == a + (b + c)
  {
  }

  /** Every entry of a sequence is a member of it. */
  lemma IndexIn<T>(s: seq<T>, i: int)
    requires 0 <= i < |s|
    ensures s[i] in s
  {
  }

  /** An entry of the first part keeps its position in a concatenation. */
  lemma IndexBefore<T>(a: seq<T>, b: seq<T>, k: int)
    requires 0 <= k < |a|
    ensures (a + b)[k] == a[k]
  {
  }

  /** An entry of the second part is shifted by the length of the first. */
  lemma IndexAfter<T>(a: seq<T>, b: seq<T>, k: int)
    requires 0 <= k < |b|
    ensures |a| + k < |a + b| && (a + b)[|a| + k] == b[k]
  {
  }
}
