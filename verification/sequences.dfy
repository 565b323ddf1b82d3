/** Small facts about sequences that the proofs of the other modules call at
    chosen points, so that the solver does not have to find them itself. */
module Sequences {
  /** A sequence is its prefix, a middle slice and its suffix. */
  lemma SplitTwice<T>(s: seq<T>, i: nat, j: nat)
    requires i <= j <= |s|
    ensures s == s[..i] + s[i..j] + s[j..]
  {
  }

  lemma AppendEmpty<T>(s: seq<T>)
    ensures [] + s == s && s + [] == s
  {
  }

  lemma SeqAssoc<T>(a: seq<T>, b: seq<T>, c: seq<T>)
    ensures (a + b) + c == a + (b + c)
  {
  }

  /** A non-empty sequence is its front followed by its last element. */
  lemma LastSplit<T>(p: seq<T>, q: seq<T>)
    requires q != []
    ensures q == q[..|q| - 1] + [q[|q| - 1]]
    ensures p + q == (p + q[..|q| - 1]) + [q[|q| - 1]]
  {
  }

  lemma ConsAssoc<T>(x: T, s: seq<T>, t: seq<T>)
    ensures [x] + (s + t) == ([x] + s) + t
  {
  }
}
