/**
 * The binary min-heap: a dense sequence of entries kept in heap order under
 * a comparator fixed at construction.
 */
module MinHeap {
  import opened TreeIndex
  import opened HeapOrder

  /** An entry, or nothing (for an empty heap). */
  datatype Option<T> = None | Some(value: T)

  datatype Error = InvalidArgument

  /** Whether an operation completed or was refused with an error. */
  datatype Outcome = Pass | Fail(error: Error)

  class BinaryHeap<K(!new), V(!new)> {
    /** The entries, laid out as an implicit complete binary tree. */
    var list: seq<Entry<K, V>>
    /** Every ordering decision goes through this comparator. */
    const compare: Comparator<K, V>

    /** The object invariant: a consistent comparator and the heap order over `list`. */
    ghost predicate Valid()
      reads this
    {
      TotalPreorder(compare) && IsHeap(compare, list)
    }

    /** The entries the heap holds, regardless of their positions. */
    ghost function Contents(): multiset<Entry<K, V>>
      reads this
    {
      multiset(list)
    }

    /** An empty heap ordered by `customCompare`. */
    constructor (customCompare: Comparator<K, V>)
      requires TotalPreorder(customCompare)
      ensures Valid() && compare == customCompare
      ensures Contents() == multiset{}
    {
      list := [];
      compare := customCompare;
    }

    /**
     * Replaces the heap's data with the entries (keys[i], values[i]); refuses
     * key and value sequences of different lengths and then keeps the data.
     */
    method BuildHeap(keys: seq<K>, values: seq<V>) returns (outcome: Outcome)
      requires Valid()
      modifies this
      ensures Valid()
      ensures |keys| != |values| ==> outcome == Fail(InvalidArgument) && list == old(list)
      ensures |keys| == |values| ==>
                && outcome == Pass
                && Contents() == multiset(Pairs(keys, values))
                && Size() == |keys|
    {
      if |keys| != |values| {
        return Fail(InvalidArgument);
      }
      BuildHeapFromNodeArray(Pairs(keys, values));
      outcome := Pass;
    }

    /** Discards every entry. */
    method Clear()
      requires Valid()
      modifies this
      ensures Valid()
      ensures Contents() == multiset{} && Size() == 0 && IsEmpty()
    {
      list := [];
    }

    /**
     * Removes and returns the root, an entry no greater than any other; on
     * an empty heap returns None and changes nothing.
     */
    method ExtractMinimum() returns (r: Option<Entry<K, V>>)
      requires Valid()
      modifies this
      ensures Valid()
      ensures old(list) == [] ==> r == None && list == old(list)
      ensures old(list) != [] ==>
                && r == Some(old(list)[0])
                && old(Contents()) == Contents() + multiset{r.value}
                && Size() == old(Size()) - 1
                && forall e :: e in Contents() ==> compare(r.value, e) <= 0
    {
      if |list| == 0 {
        return None;
      }
      ghost var s := list;
      var min := list[0];
      RootIsLeast(compare, list);
      if |list| == 1 {
        list := [];
        assert s == [min];
      } else {
        LastToRoot(compare, list);
        var last := list[|list| - 1];
        list := list[..|list| - 1];
        list := list[0 := last];
        Heapify(0);
      }
      forall e | e in Contents()
        ensures compare(min, e) <= 0
      {
        assert e in multiset(s);
      }
      r := Some(min);
    }

    /** The root, an entry no greater than any other, or None when the heap is empty. */
    method FindMinimum() returns (r: Option<Entry<K, V>>)
      requires Valid()
      ensures r.None? <==> list == []
      ensures r.Some? ==> r.value == list[0]
      ensures r.Some? ==> r.value in Contents() && forall e :: e in Contents() ==> compare(r.value, e) <= 0
    {
      if |list| == 0 {
        return None;
      }
      RootIsLeast(compare, list);
      r := Some(list[0]);
    }

    /** Adds the entry (key, value) and returns it. */
    method Insert(key: K, value: V) returns (node: Entry<K, V>)
      requires Valid()
      modifies this
      ensures Valid()
      ensures node.key == key && node.value == value
      ensures Contents() == old(Contents()) + multiset{node}
      ensures Size() == old(Size()) + 1
    {
      node := Entry(key, value);
      list := list + [node];
      var i: nat := |list| - 1;
      while 0 < i && compare(list[i], list[Parent(i)]) < 0
        invariant i < |list| == old(|list|) + 1
        invariant multiset(list) == old(multiset(list)) + multiset{node}
        invariant HeapExcept(compare, list, i)
        invariant 0 < i ==> ParentBoundsChildren(compare, list, i)
        decreases i
      {
        var p := Parent(i);
        SiftUpStep(compare, list, i);
        Swap(i, p);
        i := p;
      }
    }

    /** Whether the heap holds no entries. */
    function IsEmpty(): (b: bool)
      reads this
      ensures b <==> Size() == 0
      ensures b <==> Contents() == multiset{}
    {
      |list| == 0
    }

    /** The number of entries the heap holds. */
    function Size(): (n: nat)
      reads this
      ensures n == |Contents()|
    {
      |list|
    }

    /** Joins the entries of `other` to this heap. */
    method Union(other: BinaryHeap<K, V>)
      requires Valid()
      modifies this
      ensures Valid()
      ensures Contents() == old(Contents()) + old(other.Contents())
      ensures Size() == old(Size()) + old(other.Size())
    {
      BuildHeapFromNodeArray(list + other.list);
    }

    /**
     * Sift-down from index `i`: given the heap order on every pair whose
     * parent lies beyond `i`, restores it on every pair whose parent is at
     * `i` or beyond, moving entries only at `i` and beyond.
     */
    method Heapify(i: nat)
      requires TotalPreorder(compare)
      requires OrderedFrom(compare, list, i + 1)
      modifies this
      ensures OrderedFrom(compare, list, i)
      ensures multiset(list) == old(multiset(list)) && |list| == old(|list|)
      ensures forall k :: 0 <= k < i && k < |list| ==> list[k] == old(list[k])
    {
      var c := i;
      while true
        invariant i <= c && (c < |list| || c == i)
        invariant multiset(list) == old(multiset(list)) && |list| == old(|list|)
        invariant forall k :: 0 <= k < i && k < |list| ==> list[k] == old(list[k])
        invariant OrderedFromExcept(compare, list, i, c)
        invariant i < c ==> ParentBoundsChildren(compare, list, c)
        decreases |list| - c
      {
        var l, r := Left(c), Right(c);
        var smallest := c;
        if l < |list| && compare(list[l], list[c]) < 0 {
          smallest := l;
        }
        if r < |list| && compare(list[r], list[smallest]) < 0 {
          smallest := r;
        }
        if smallest == c {
          SiftDownDone(compare, list, i, c);
          return;
        }
        assert l < |list| ==> compare(list[smallest], list[l]) <= 0;
        SiftDownStep(compare, list, i, c, smallest);
        Swap(c, smallest);
        c := smallest;
      }
    }

    /** Replaces the heap's data with `nodes`, then builds the heap order bottom-up. */
    method BuildHeapFromNodeArray(nodes: seq<Entry<K, V>>)
      requires TotalPreorder(compare)
      modifies this
      ensures Valid()
      ensures Contents() == multiset(nodes) && Size() == |nodes|
    {
      list := nodes;
      var i: nat := |list| / 2;
      while 0 < i
        invariant i <= |list| / 2
        invariant multiset(list) == multiset(nodes) && |list| == |nodes|
        invariant OrderedFrom(compare, list, i)
      {
        i := i - 1;
        Heapify(i);
      }
    }

    /** Exchanges the entries at `a` and `b`. */
    method Swap(a: nat, b: nat)
      requires a < |list| && b < |list|
      modifies this
      ensures list == Swapped(old(list), a, b)
    {
      list := Swapped(list, a, b);
    }
  }
}
