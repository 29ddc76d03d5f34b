/** Facts about sequences that several modules use. */
module Sequences {

  /** Concatenation is associative; stated once so that proofs can cite it without their other facts in scope. */
  lemma AppendAssoc<T>(x: seq<T>, y: seq<T>, z: seq<T>)
    ensures x + (y + z) == x + y + z
  { }


  /** A sequence that extends `a` by one element: past any point of `a`, it holds `a`'s elements and that one more. */
  lemma ExtendsByOne<T>(a: seq<T>, b: seq<T>, n: nat)
    requires |b| == |a| + 1 && b[..|a|] == a && n <= |a|
    ensures multiset(b[n..]) == multiset(a[n..]) + multiset{b[|a|]}
  {
    assert b == a + [b[|a|]];
    assert b[n..] == a[n..] + [b[|a|]];
  }
}
