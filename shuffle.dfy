/** `shuffleArray` (App.tsx:9-11): a copy of the input, sorted with a comparator
    that answers at random. Whatever the random answers, a sort only moves
    elements, so its effect is a rearrangement of the positions; that
    rearrangement is the parameter `order` here, standing for the random choices. */
module Shuffle {

  /** `order` lists every position of a length-`n` sequence exactly once. */
  predicate IsIndexPermutation(order: seq<nat>, n: nat) {
    && |order| == n
    && (forall i :: 0 <= i < n ==> order[i] < n)
    && (forall i, j :: 0 <= i < j < n ==> order[i] != order[j])
  }

  /** Element i of the result is element order[i] of `a`. */
  function Rearrange<T>(a: seq<T>, order: seq<nat>): seq<T>
    requires forall i :: 0 <= i < |order| ==> order[i] < |a|
  {
    seq(|order|, i requires 0 <= i < |order| => a[order[i]])
  }

  /** `shuffleArray(a)` for the random choices that amount to `order`: a new
      sequence with the same length and the same elements, each as often. */
  function ShuffleArray<T>(a: seq<T>, order: seq<nat>): (r: seq<T>)
    requires IsIndexPermutation(order, |a|)
    ensures |r| == |a| && multiset(r) == multiset(a)
  {
    RearrangePermutes(a, order);
    Rearrange(a, order)
  }

  /** Rearranging by an index permutation keeps the multiset of elements. */
  lemma {:induction false} RearrangePermutes<T>(a: seq<T>, order: seq<nat>)
    requires IsIndexPermutation(order, |a|)
    ensures multiset(Rearrange(a, order)) == multiset(a)
  {
    var n := |a|;
    if n > 0 {
      var k := order[n - 1];
      // Remove position k from `a` and renumber the remaining positions of `order`.
      var rest := a[..k] + a[k + 1..];
      var order' := seq(n - 1, i requires 0 <= i < n - 1 => if order[i] > k then order[i] - 1 else order[i]);
      forall i | 0 <= i < n - 1 ensures order'[i] < n - 1 {
        assert order[i] != order[n - 1];
      }
      forall i, j | 0 <= i < j < n - 1 ensures order'[i] != order'[j] {
        assert order[i] != order[n - 1] && order[j] != order[n - 1];
      }
      RearrangePermutes(rest, order');
      var front := Rearrange(a, order)[..n - 1];
      assert front == Rearrange(rest, order');
      assert Rearrange(a, order) == front + [a[k]];
      assert a == a[..k] + [a[k]] + a[k + 1..];
    }
  }
}
