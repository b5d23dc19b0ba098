/** Small facts about sequences, kept apart so that proofs elsewhere cite them instead of re-deriving them. */
module Sequences {

  lemma Unpadded<T>(x: seq<T>)
    ensures [] + x + [] == x
  {
  }

  lemma Snoc<T>(s: seq<T>)
    requires |s| > 0
    ensures s == s[..|s| - 1] + [s[|s| - 1]]
  {
  }

  /** A sequence that starts with `h + added` is `h`, then `added`, then the rest. */
  lemma PrefixThenRest<T>(r: seq<T>, h: seq<T>, added: seq<T>)
    requires |r| >= |h + added| && r[..|h + added|] == h + added
    ensures r[..|h|] == h
    ensures r[|h|..] == added + r[|h + added|..]
  {
    assert r == (h + added) + r[|h + added|..];
  }
}
