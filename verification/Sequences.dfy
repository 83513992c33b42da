/** Concatenation and splitting. */
module Sequences {
  lemma Assoc<T>(a: seq<T>, b: seq<T>, c: seq<T>)
    ensures a + b + c == a + (b + c)
  {
  }

  lemma AroundTwo<T>(s: seq<T>, i: nat)
    requires i + 2 <= |s|
    ensures s == s[..i] + [s[i], s[i + 1]] + s[i + 2..]
  {
  }
}
