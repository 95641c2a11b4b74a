/** Facts about sequences that the solver does not find by itself when the
    elements are strings or records. They state nothing about the backend;
    the lemmas of the other modules call them as hints. */
module Seqs {

  /** Concatenation is associative. */
  lemma AppendAssoc<T>(x: seq<T>, y: seq<T>, z: seq<T>)
    ensures x + (y + z) == (x + y) + z
  {
  }

  /** The empty sequence is a left unit of concatenation. */
  lemma EmptyPrefix<T>(s: seq<T>)
    ensures [] + s == s
  {
  }

  /** A sequence is its head followed by its tail. */
  lemma HeadThenTail<T>(xs: seq<T>, ys: seq<T>, zs: seq<T>, ps: seq<T>)
    requires |ps| >= 1
    requires xs == ys + zs && ys == [ps[0]] && zs == ps[1..]
    ensures xs == ps
  {
    assert ps == [ps[0]] + ps[1..];
  }

  /** A left-nested concatenation regrouped around its first piece. */
  lemma RegroupFive<T>(l: seq<T>, a: seq<T>, b: seq<T>, c: seq<T>, d: seq<T>, e: seq<T>)
    ensures ((((l + a) + b) + c) + d) + e == l + ((a + b) + ((c + d) + e))
  {
  }

  /** One element, nothing, and another element make a pair. */
  lemma TwoAround<T>(xs: seq<T>, l: seq<T>, m: seq<T>, b: seq<T>, r: seq<T>, p: T, q: T)
    requires xs == l + m && m == b + r && b == [] && l == [p] && r == [q]
    ensures xs == [p, q]
  {
  }
}
