/** Concatenation laws for sequences, stated once for the modules that
    rebuild logs and strings piece by piece. */
module Seqs {

  /** A sequence is its prefix `p` followed by the rest. */
  lemma PrefixSplit<T>(p: seq<T>, s: seq<T>)
    requires p <= s
    ensures p + s[|p|..] == s
  {
  }

  lemma AppendAssoc<T>(a: seq<T>, b: seq<T>, c: seq<T>)
    ensures a + b + c == a + (b + c)
  {
  }

  lemma AppendTwo<T>(s: seq<T>, x1: T, x2: T)
    ensures s + [x1] + [x2] == s + [x1, x2]
  {
  }

  lemma AppendAfterTwo<T>(s: seq<T>, x1: T, x2: T, x3: T, x4: T)
    ensures s + [x1, x2] + [x3] + [x4] == s + [x1, x2, x3, x4]
  {
  }

  lemma AppendPairs<T>(s: seq<T>, x1: T, x2: T, x3: T, x4: T)
    ensures s + [x1, x2] + [x3, x4] == s + [x1, x2, x3, x4]
  {
  }
}
