/** Two facts about sequences that the list proofs use at every step. */
module Sequences {
  /** A suffix is its first element followed by the rest. */
  lemma SplitFirst<T>(s: seq<T>, k: nat)
    requires k < |s|
    ensures s[k..] == [s[k]] + s[k + 1..]
    ensures k == 0 ==> s == [s[0]] + s[1..]
  {
    assert s[k..][1..] == s[k + 1..];
  }

  lemma Associative<T>(a: seq<T>, b: seq<T>, c: seq<T>)
    ensures (a + b) + c == a + (b + c)
  {
  }
}
