/**
 * Generic facts about sequences, stated once so that the proofs about strings
 * and lists of lines need not rediscover them.
 */
module Seqs {

  lemma AppendAssoc<T>(a: seq<T>, b: seq<T>, c: seq<T>)
    ensures a + (b + c) == (a + b) + c
  {
  }

  lemma ConsParts<T>(x: T, xs: seq<T>)
    ensures ([x] + xs)[0] == x && ([x] + xs)[1..] == xs
  {
  }

  lemma AppendEmpty<T>(a: seq<T>)
    ensures a + [] == a
  {
  }

  lemma PrefixSplit<T>(u: seq<T>, s: seq<T>)
    requires u <= s
    ensures s == u + s[|u|..]
  {
  }

  lemma LastSplit<T>(u: seq<T>)
    requires |u| > 0
    ensures u == u[..|u| - 1] + [u[|u| - 1]]
  {
  }
}
