/** Facts about taking a sequence apart at its last element. */
module Seqs {
  /** A non-empty sequence is its front followed by its last element. */
  lemma DropLast<T>(s: seq<T>)
    requires |s| >= 1
    ensures s[..|s| - 1] + [s[|s| - 1]] == s
  {
  }

  /** Dropping the first element commutes with splitting off the last one. */
  lemma DropLastTail<T>(s: seq<T>)
    requires |s| >= 2
    ensures s[..|s| - 1][1..] + [s[|s| - 1]] == s[1..]
  {
    assert s[..|s| - 1][1..] == s[1..|s| - 1];
  }
}
