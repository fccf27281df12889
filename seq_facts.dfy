/**
 * Small facts about sequence slices and concatenation. The verifier proves
 * each on its own, but not inside the larger proofs of the counter: those
 * call them to put the one equation they need in front of the solver.
 */
module SeqFacts {

  lemma TakeSnoc<T>(s: seq<T>, i: nat)
    requires i < |s|
    ensures s[..i + 1] == s[..i] + [s[i]]
  {
  }

  lemma SliceSnoc<T>(s: seq<T>, lo: nat, hi: nat)
    requires lo <= hi < |s|
    ensures s[lo..hi + 1] == s[lo..hi] + [s[hi]]
  {
  }

  lemma AppendAssoc<T>(a: seq<T>, b: seq<T>, c: seq<T>)
    ensures (a + b) + c == a + (b + c)
  {
  }

  lemma AppendEmpty<T>(a: seq<T>)
    ensures a + [] == a && [] + a == a
  {
  }

  lemma SliceEmpty<T>(s: seq<T>, lo: nat)
    requires lo <= |s|
    ensures s[lo..lo] == []
  {
  }
}
