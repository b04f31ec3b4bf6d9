/**
 * Entries, the caller's three-way comparator, and the heap order over a
 * dense sequence of entries, with the facts the sift-up, sift-down and
 * bottom-up build rest on.
 */
module HeapOrder {
  import opened TreeIndex

  /** A key-value pair: the unit the heap stores and returns. */
  datatype Entry<K, V> = Entry(key: K, value: V)

  /** A three-way comparison result: -1 (less), 0 (equal) or 1 (greater). */
  type Sign = x: int | -1 <= x <= 1

  /** The caller-supplied comparison of two entries. */
  type Comparator<!K, !V> = (Entry<K, V>, Entry<K, V>) -> Sign

  /**
   * A comparator is consistent when it answers "greater" exactly where the
   * swapped question answers "less", and "not greater" is transitive; then
   * "not greater" is a total preorder on entries. Transitivity fires only
   * when its conclusion is already being asked about, so that it does not
   * close every collection of entries under comparison.
   */
  ghost predicate TotalPreorder<K(!new), V(!new)>(cmp: Comparator<K, V>) {
    && (forall a, b :: cmp(a, b) == -cmp(b, a))
    && (forall a, b, c {:trigger cmp(a, b), cmp(b, c), cmp(a, c)} :: cmp(a, b) <= 0 && cmp(b, c) <= 0 ==> cmp(a, c) <= 0)
  }

  /** The heap order: no node compares greater than any of its children. */
  ghost predicate IsHeap<K, V>(cmp: Comparator<K, V>, s: seq<Entry<K, V>>) {
    forall j :: 0 < j < |s| ==> cmp(s[Parent(j)], s[j]) <= 0
  }

  /** The heap order on every parent-child pair whose parent index is at least `lo`. */
  ghost predicate OrderedFrom<K, V>(cmp: Comparator<K, V>, s: seq<Entry<K, V>>, lo: nat) {
    forall j :: 0 < j < |s| && lo <= Parent(j) ==> cmp(s[Parent(j)], s[j]) <= 0
  }

  /** Like OrderedFrom, except possibly for the two pairs whose parent is `c`. */
  ghost predicate OrderedFromExcept<K, V>(cmp: Comparator<K, V>, s: seq<Entry<K, V>>, lo: nat, c: nat) {
    forall j :: 0 < j < |s| && lo <= Parent(j) && Parent(j) != c ==> cmp(s[Parent(j)], s[j]) <= 0
  }

  /** The heap order on every pair except the one joining node `i` to its parent. */
  ghost predicate HeapExcept<K, V>(cmp: Comparator<K, V>, s: seq<Entry<K, V>>, i: nat) {
    forall j :: 0 < j < |s| && j != i ==> cmp(s[Parent(j)], s[j]) <= 0
  }

  /** The parent of `c` compares not greater than the children of `c`. */
  ghost predicate ParentBoundsChildren<K, V>(cmp: Comparator<K, V>, s: seq<Entry<K, V>>, c: nat)
    requires 0 < c < |s|
  {
    && (Left(c) < |s| ==> cmp(s[Parent(c)], s[Left(c)]) <= 0)
    && (Right(c) < |s| ==> cmp(s[Parent(c)], s[Right(c)]) <= 0)
  }

  /** The sequence with the elements at `a` and `b` exchanged. */
  function Swapped<T>(s: seq<T>, a: nat, b: nat): (r: seq<T>)
    requires a < |s| && b < |s|
    ensures |r| == |s| && r[a] == s[b] && r[b] == s[a]
    ensures forall k :: 0 <= k < |s| && k != a && k != b ==> r[k] == s[k]
    ensures multiset(r) == multiset(s)
  {
    s[a := s[b]][b := s[a]]
  }

  /** The entries formed by pairing keys and values position by position. */
  function Pairs<K, V>(keys: seq<K>, values: seq<V>): (r: seq<Entry<K, V>>)
    requires |keys| == |values|
    ensures |r| == |keys|
    ensures forall i :: 0 <= i < |r| ==> r[i].key == keys[i] && r[i].value == values[i]
  {
    if keys == [] then [] else [Entry(keys[0], values[0])] + Pairs(keys[1..], values[1..])
  }

  /** In a heap, the entry at the root compares not greater than the entry at any index. */
  lemma {:induction false} RootIsMinimum<K(!new), V(!new)>(cmp: Comparator<K, V>, s: seq<Entry<K, V>>, j: nat)
    requires TotalPreorder(cmp) && IsHeap(cmp, s) && j < |s|
    ensures cmp(s[0], s[j]) <= 0
    decreases j
  {
    if j == 0 {
      assert cmp(s[0], s[0]) == -cmp(s[0], s[0]);
    } else {
      RootIsMinimum(cmp, s, Parent(j));
    }
  }

  /** In a non-empty heap, the root compares not greater than every entry the heap holds. */
  lemma RootIsLeast<K(!new), V(!new)>(cmp: Comparator<K, V>, s: seq<Entry<K, V>>)
    requires TotalPreorder(cmp) && IsHeap(cmp, s) && |s| > 0
    ensures forall e :: e in s ==> cmp(s[0], e) <= 0
  {
    forall e | e in s
      ensures cmp(s[0], e) <= 0
    {
      var j :| 0 <= j < |s| && s[j] == e;
      RootIsMinimum(cmp, s, j);
    }
  }

  /**
   * One step of sift-up: when the entry at `i` is less than its parent,
   * exchanging the two moves the only possible disorder up to the parent.
   */
  lemma SiftUpStep<K(!new), V(!new)>(cmp: Comparator<K, V>, s: seq<Entry<K, V>>, i: nat)
    requires TotalPreorder(cmp) && 0 < i < |s|
    requires HeapExcept(cmp, s, i) && ParentBoundsChildren(cmp, s, i)
    requires cmp(s[i], s[Parent(i)]) < 0
    ensures HeapExcept(cmp, Swapped(s, i, Parent(i)), Parent(i))
    ensures 0 < Parent(i) ==> ParentBoundsChildren(cmp, Swapped(s, i, Parent(i)), Parent(i))
  {
    var p := Parent(i);
    var t := Swapped(s, i, p);
    forall j | 0 < j < |t| && j != p
      ensures cmp(t[Parent(j)], t[j]) <= 0
    {
      ParentHasChild(p, j);
      ParentHasChild(i, j);
      if j == i {
      } else if Parent(j) == p {
        assert cmp(s[p], s[j]) <= 0;
      } else if Parent(j) == i {
        assert cmp(s[Parent(i)], s[j]) <= 0;
      } else {
        assert t[j] == s[j];
      }
    }
    if 0 < p {
      var g := Parent(p);
      assert cmp(s[g], s[p]) <= 0;
      ChildrenHaveParent(p);
      if Left(p) != i && Left(p) < |s| {
        assert cmp(s[p], s[Left(p)]) <= 0;
      }
      if Right(p) != i && Right(p) < |s| {
        assert cmp(s[p], s[Right(p)]) <= 0;
      }
    }
  }

  /**
   * One step of sift-down: when the smaller child `m` of `c` is less than
   * `c`, exchanging the two moves the only possible disorder down to `m`.
   */
  lemma SiftDownStep<K(!new), V(!new)>(cmp: Comparator<K, V>, s: seq<Entry<K, V>>, lo: nat, c: nat, m: nat)
    requires TotalPreorder(cmp) && lo <= c && m < |s|
    requires m == Left(c) || m == Right(c)
    requires OrderedFromExcept(cmp, s, lo, c)
    requires lo < c ==> ParentBoundsChildren(cmp, s, c)
    requires cmp(s[m], s[c]) < 0
    requires Left(c) < |s| ==> cmp(s[m], s[Left(c)]) <= 0
    requires Right(c) < |s| ==> cmp(s[m], s[Right(c)]) <= 0
    ensures OrderedFromExcept(cmp, Swapped(s, c, m), lo, m)
    ensures ParentBoundsChildren(cmp, Swapped(s, c, m), m)
  {
    var t := Swapped(s, c, m);
    ChildrenHaveParent(c);
    ChildrenHaveParent(m);
    forall j | 0 < j < |t| && lo <= Parent(j) && Parent(j) != m
      ensures cmp(t[Parent(j)], t[j]) <= 0
    {
      ParentHasChild(c, j);
      ParentHasChild(m, j);
      if j == c {
        assert cmp(s[Parent(c)], s[m]) <= 0;
      } else if Parent(j) == c {
      } else {
        assert t[j] == s[j];
      }
    }
    if Left(m) < |s| {
      assert cmp(s[m], s[Left(m)]) <= 0;
    }
    if Right(m) < |s| {
      assert cmp(s[m], s[Right(m)]) <= 0;
    }
  }

  /**
   * Sift-down stops: when neither child of `c` is less than `c`, the heap
   * order holds on every pair whose parent is at `lo` or beyond.
   */
  lemma SiftDownDone<K(!new), V(!new)>(cmp: Comparator<K, V>, s: seq<Entry<K, V>>, lo: nat, c: nat)
    requires TotalPreorder(cmp) && lo <= c
    requires OrderedFromExcept(cmp, s, lo, c)
    requires Left(c) < |s| ==> 0 <= cmp(s[Left(c)], s[c])
    requires Right(c) < |s| ==> 0 <= cmp(s[Right(c)], s[c])
    ensures OrderedFrom(cmp, s, lo)
  {
  }

  /**
   * Removing the root by moving the last entry into its place keeps the heap
   * order on every pair below the root and loses exactly the old root.
   */
  lemma LastToRoot<K, V>(cmp: Comparator<K, V>, s: seq<Entry<K, V>>)
    requires IsHeap(cmp, s) && 2 <= |s|
    ensures OrderedFrom(cmp, s[..|s| - 1][0 := s[|s| - 1]], 1)
    ensures multiset(s) == multiset(s[..|s| - 1][0 := s[|s| - 1]]) + multiset{s[0]}
  {
    var t := s[..|s| - 1][0 := s[|s| - 1]];
    forall j | 0 < j < |t| && 1 <= Parent(j)
      ensures cmp(t[Parent(j)], t[j]) <= 0
    {
      assert t[Parent(j)] == s[Parent(j)] && t[j] == s[j];
    }
    assert s == [s[0]] + s[1..|s| - 1] + [s[|s| - 1]];
    assert t == [s[|s| - 1]] + s[1..|s| - 1];
  }
}
