/**
 * Small facts about sequences, stated for any element type so that the
 * verifier need not look inside the elements when it uses them.
 */
module Sequences {

  lemma PrefixExtend<T>(s: seq<T>, i: nat)
    requires i < |s|
    ensures s[..i + 1] == s[..i] + [s[i]]
  {
  }

  lemma PrefixWhole<T>(s: seq<T>)
    ensures s[..|s|] == s
  {
  }

  lemma PrefixOfAppend<T>(s: seq<T>, x: T)
    ensures (s + [x])[..|s|] == s
  {
  }

  lemma Associative<T>(a: seq<T>, b: seq<T>, c: seq<T>)
    ensures a + (b + c) == (a + b) + c
  {
  }

  lemma LeftUnit<T>(s: seq<T>)
    ensures [] + s == s
  {
  }

  lemma RightUnit<T>(s: seq<T>)
    ensures s + [] == s
  {
  }
}
