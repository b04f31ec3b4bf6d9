/**
 * A client that relies only on the contracts of BinaryHeap: draining a heap
 * by repeated extraction yields its entries in non-decreasing order.
 */
module Scenarios {
  import opened HeapOrder
  import opened MinHeap

  /** Sorted under `cmp`: no entry compares greater than a later one. */
  ghost predicate SortedBy<K, V>(cmp: Comparator<K, V>, s: seq<Entry<K, V>>) {
    forall i, j :: 0 <= i < j < |s| ==> cmp(s[i], s[j]) <= 0
  }

  /**
   * Extracts the minimum until the heap is empty; the extracted entries are
   * the heap's former contents, sorted under its comparator.
   */
  method ExtractAll<K(!new), V(!new)>(h: BinaryHeap<K, V>) returns (out: seq<Entry<K, V>>)
    requires h.Valid()
    modifies h
    ensures h.Valid() && h.IsEmpty()
    ensures multiset(out) == old(h.Contents())
    ensures SortedBy(h.compare, out)
  {
    out := [];
    while !h.IsEmpty()
      invariant h.Valid()
      invariant multiset(out) + h.Contents() == old(h.Contents())
      invariant SortedBy(h.compare, out)
      invariant forall i, e :: 0 <= i < |out| && e in h.Contents() ==> h.compare(out[i], e) <= 0
      decreases h.Size()
    {
      ghost var before := h.Contents();
      var r := h.ExtractMinimum();
      var next := out + [r.value];
      assert r.value in before;
      forall i, j | 0 <= i < j < |next|
        ensures h.compare(next[i], next[j]) <= 0
      {
        if j == |out| {
          assert next[j] in before;
        }
      }
      forall i, e | 0 <= i < |next| && e in h.Contents()
        ensures h.compare(next[i], e) <= 0
      {
        if i < |out| {
          assert e in before;
        }
      }
      out := next;
    }
  }

  /**
   * Peeking and then popping a non-empty heap yield the same entry, even
   * when several entries compare equal to it.
   */
  method PeekThenPop<K(!new), V(!new)>(h: BinaryHeap<K, V>) returns (peeked: Option<Entry<K, V>>, popped: Option<Entry<K, V>>)
    requires h.Valid()
    modifies h
    ensures h.Valid()
    ensures peeked == popped
    ensures popped.None? <==> old(h.IsEmpty())
  {
    peeked := h.FindMinimum();
    popped := h.ExtractMinimum();
  }
}
