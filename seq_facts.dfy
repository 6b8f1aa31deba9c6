/** Small facts about sequences, stated once so that the string proofs can cite them. */
module SeqFacts {
  /** Concatenation is associative. */
  lemma AppendAssoc<T>(a: seq<T>, b: seq<T>, c: seq<T>)
    ensures a + (b + c) == (a + b) + c
  {
  }

  /** The prefix of length n + 1 extends the prefix of length n by element n. */
  lemma PrefixStep<T>(s: seq<T>, n: nat)
    requires n < |s|
    ensures s[..n + 1][..n] == s[..n] && s[..n + 1] == s[..n] + [s[n]]
  {
  }

  /** The three parts of a concatenation sit at their offsets. */
  lemma ConcatSlices<T>(a: seq<T>, b: seq<T>, c: seq<T>)
    ensures var s := a + b + c;
      s[..|a|] == a && s[|a|..|a| + |b|] == b && s[|a| + |b|..] == c
  {}
}
