/** What several modules need: an optional value, and a few words and facts about
    sequences and numbers. */
module Wrappers {

  datatype Option<+T> = None | Some(value: T)

  ghost predicate NoDuplicates<T>(s: seq<T>)
  {
    forall i, j :: 0 <= i < j < |s| ==> s[i] != s[j]
  }

  function AtLeast(n: nat, least: nat): nat { if n < least then least else n }

  /** Concatenation may be grouped either way. */
  lemma {:induction false} Regroup<T>(a: seq<T>, b: seq<T>, c: seq<T>)
    ensures a + (b + c) == (a + b) + c
  {
  }
}
