/**
 * The distance heap (graph.go): a binary min-heap of (vertex, priority)
 * entries, stored as edges whose weight is the priority. A negative priority
 * means "no distance yet" and sorts after every non-negative one.
 *
 * The heap algorithms (init, pop, fix and the sift-up and sift-down steps
 * they use) are those of Go's container/heap, written out over the entry
 * list with the distance heap's own Less, Swap, Push and Pop.
 */
module DistanceHeaps {
  import opened Vertices

  /**
   * distanceHeap.Less on the priorities of two entries: a negative priority
   * is never less; a non-negative one is less than any negative one; two
   * non-negative ones compare numerically.
   */
  predicate Less(wi: int, wj: int)
  {
    if wi < 0 then false else if wj < 0 then true else wi < wj
  }

  /** Less is a strict weak order that puts every negative priority after every non-negative one. */
  lemma LessOrder()
    ensures forall a :: !Less(a, a)
    ensures forall a, b, c :: Less(a, b) && Less(b, c) ==> Less(a, c)
    ensures forall a, b, c :: !Less(a, b) && !Less(b, c) ==> !Less(a, c)
    ensures forall a, b :: a >= 0 && b < 0 ==> Less(a, b) && !Less(b, a)
    ensures forall a, b :: a < 0 && b < 0 ==> !Less(a, b)
    ensures forall a, b :: a >= 0 && b >= 0 ==> (Less(a, b) <==> a < b)
  {
  }

  /** Entry a may sit above entry b: b's priority is not less than a's. */
  predicate Above(a: Edge, b: Edge)
  {
    !Less(b.weight, a.weight)
  }

  /** Index of the parent of slot k. */
  function Parent(k: nat): nat
    requires k > 0
  {
    (k - 1) / 2
  }

  /**
   * Every parent/child pair among the first n slots whose parent index is at
   * least lo is in order, except the pairs whose parent is `hole` and the pair
   * whose child is `skip` (-1 excludes nothing).
   */
  ghost predicate OrderedExcept(h: seq<Edge>, n: nat, lo: nat, hole: int, skip: int)
    requires n <= |h|
  {
    forall k {:trigger Parent(k)} :: 0 < k < n && lo <= Parent(k) && Parent(k) != hole && k != skip ==> Above(h[Parent(k)], h[k])
  }

  /** The parent of slot i may sit above each child of i (when that parent is in scope). */
  ghost predicate Bridged(h: seq<Edge>, n: nat, lo: nat, i: nat)
    requires n <= |h|
  {
    0 < i < n && lo <= Parent(i) ==> forall k {:trigger Parent(k)} :: 0 < k < n && Parent(k) == i ==> Above(h[Parent(i)], h[k])
  }

  /** The heap property over the first n slots. */
  ghost predicate HeapOrdered(h: seq<Edge>, n: nat)
    requires n <= |h|
  {
    OrderedExcept(h, n, 0, -1, -1)
  }

  function Swapped(h: seq<Edge>, i: nat, j: nat): seq<Edge>
    requires i < |h| && j < |h|
  {
    h[i := h[j]][j := h[i]]
  }

  /** Swapping two slots is a permutation. */
  lemma SwappedPermutes(h: seq<Edge>, i: nat, j: nat)
    requires i < |h| && j < |h|
    ensures multiset(Swapped(h, i, j)) == multiset(h)
  {
  }

  /** The root of a heap may sit above every entry. */
  lemma {:induction false} RootAbove(h: seq<Edge>, k: nat)
    requires HeapOrdered(h, |h|) && k < |h|
    ensures Above(h[0], h[k])
    decreases k
  {
    if k > 0 {
      RootAbove(h, Parent(k));
      LessOrder();
    }
  }

  /** One step of sift-down: the entry at i swaps with its least child j. */
  lemma DownStep(h: seq<Edge>, n: nat, lo: nat, i0: nat, i: nat, j: nat)
    requires n <= |h| && lo <= i0 <= i && 0 < j < n && Parent(j) == i
    requires i != i0 ==> i0 <= Parent(i)
    requires OrderedExcept(h, n, lo, i, if i != i0 then -1 else i0)
    requires Bridged(h, n, lo, i)
    requires Less(h[j].weight, h[i].weight)
    requires forall k :: 0 < k < n && Parent(k) == i ==> Above(h[j], h[k])
    ensures OrderedExcept(Swapped(h, i, j), n, lo, j, -1)
    ensures Bridged(Swapped(h, i, j), n, lo, j)
  {
    LessOrder();
    var g := Swapped(h, i, j);
    forall k | 0 < k < n && lo <= Parent(k) && Parent(k) != j
      ensures Above(g[Parent(k)], g[k])
    {
      if k == i {
        assert g[k] == h[j];
      } else if k == j {
      } else if Parent(k) == i {
        assert g[k] == h[k];
      } else {
        assert g[k] == h[k];
        assert Parent(k) != j && Parent(k) != i;
        assert g[Parent(k)] == h[Parent(k)];
      }
    }
    forall k | 0 < k < n && Parent(k) == j
      ensures Above(g[i], g[k])
    {
      assert k != i && k != j && g[k] == h[k];
      assert Above(h[j], h[k]);
    }
  }

  /** One step of sift-up: the entry at j, less than its parent p, swaps with it. */
  lemma UpStep(h: seq<Edge>, j: nat)
    requires 0 < j < |h|
    requires OrderedExcept(h, |h|, 0, -1, j)
    requires Bridged(h, |h|, 0, j)
    requires Less(h[j].weight, h[Parent(j)].weight)
    ensures OrderedExcept(Swapped(h, Parent(j), j), |h|, 0, -1, Parent(j))
    ensures Bridged(Swapped(h, Parent(j), j), |h|, 0, Parent(j))
  {
    LessOrder();
    var p := Parent(j);
    var g := Swapped(h, p, j);
    forall k | 0 < k < |h| && k != p
      ensures Above(g[Parent(k)], g[k])
    {
      if k == j {
      } else if Parent(k) == j {
        assert g[k] == h[k];
      } else if Parent(k) == p {
        assert g[k] == h[k];
        assert Above(h[p], h[k]);
      } else {
        assert g[k] == h[k];
        assert g[Parent(k)] == h[Parent(k)];
      }
    }
    if p > 0 {
      forall k | 0 < k < |h| && Parent(k) == p
        ensures Above(g[Parent(p)], g[k])
      {
        assert g[Parent(p)] == h[Parent(p)];
        assert Above(h[Parent(p)], h[p]);
        if k != j {
          assert g[k] == h[k];
          assert Above(h[p], h[k]);
        }
      }
    }
  }

  /** The children of slot i are the slots 2i+1 and 2i+2. */
  lemma ChildrenOf(i: nat, k: nat)
    requires k > 0
    ensures Parent(k) == i <==> k == 2 * i + 1 || k == 2 * i + 2
  {
  }

  /** A slot whose first child index is n or more has no child among the first n slots. */
  lemma NoChildren(i: nat, n: nat)
    requires 2 * i + 1 >= n
    ensures forall k :: 0 < k < n ==> Parent(k) != i
  {
  }

  /** Sift-down picks as j the least of the children of i. */
  lemma LeastChild(h: seq<Edge>, n: nat, i: nat, j: nat)
    requires n <= |h| && 2 * i + 1 < n
    requires j == 2 * i + 1 || j == 2 * i + 2
    requires j == 2 * i + 2 ==> j < n && Less(h[j].weight, h[2 * i + 1].weight)
    requires j == 2 * i + 1 && 2 * i + 2 < n ==> !Less(h[2 * i + 2].weight, h[j].weight)
    ensures 0 < j < n && Parent(j) == i
    ensures forall k :: 0 < k < n && Parent(k) == i ==> Above(h[j], h[k])
  {
    LessOrder();
    forall k | 0 < k < n && Parent(k) == i
      ensures Above(h[j], h[k])
    {
      ChildrenOf(i, k);
    }
  }

  /** Sift-down stops once the entry at i may sit above each of its children. */
  lemma DownStop(h: seq<Edge>, n: nat, lo: nat, i: nat, skip: int)
    requires n <= |h| && lo <= i
    requires OrderedExcept(h, n, lo, i, skip)
    requires forall k :: 0 < k < n && Parent(k) == i ==> Above(h[i], h[k])
    ensures OrderedExcept(h, n, lo, -1, skip)
  {
  }

  /** Changing the entry at i of a heap breaks at most the pairs that involve i. */
  lemma ChangedSlot(h: seq<Edge>, i: nat, x: Edge)
    requires HeapOrdered(h, |h|) && i < |h|
    ensures OrderedExcept(h[i := x], |h|, 0, i, i)
    ensures Bridged(h[i := x], |h|, 0, i)
  {
    LessOrder();
    var g := h[i := x];
    if 0 < i {
      forall k | 0 < k < |h| && Parent(k) == i
        ensures Above(g[Parent(i)], g[k])
      {
        assert Above(h[Parent(i)], h[i]) && Above(h[i], h[k]);
      }
    }
  }

  /** The heap as container/heap drives it, with the distance heap's own methods. */
  class DistanceHeap {
    var items: seq<Edge>

    ghost predicate Valid()
      reads this
    {
      HeapOrdered(items, |items|)
    }

    constructor (items: seq<Edge>)
      ensures this.items == items
    {
      this.items := items;
    }

    function Len(): (n: nat)
      reads this
      ensures n == |items|
    {
      |items|
    }

    method Swap(i: nat, j: nat)
      requires i < |items| && j < |items|
      modifies this
      ensures items == Swapped(old(items), i, j)
      ensures multiset(items) == multiset(old(items))
    {
      SwappedPermutes(items, i, j);
      items := items[i := items[j]][j := items[i]];
    }

    /** Appends an entry at the end (the heap.Interface primitive). */
    method Push(x: Edge)
      modifies this
      ensures items == old(items) + [x]
    {
      items := items + [x];
    }

    /** Removes and returns the last entry (the heap.Interface primitive). */
    method Pop() returns (x: Edge)
      requires |items| > 0
      modifies this
      ensures x == old(items)[|old(items)| - 1]
      ensures items == old(items)[..|old(items)| - 1]
    {
      x := items[|items| - 1];
      items := items[..|items| - 1];
    }

    /**
     * container/heap's down: sinks the entry at i0 within the first n slots and
     * reports whether it moved. lo bounds the parent indices whose order is
     * tracked (the slot being built by Init, or 0).
     */
    method Down(i0: nat, n: nat, ghost lo: nat) returns (moved: bool)
      requires n <= |items| && lo <= i0
      requires OrderedExcept(items, n, lo, i0, i0)
      requires Bridged(items, n, lo, i0)
      modifies this
      ensures |items| == |old(items)| && items[n..] == old(items)[n..]
      ensures multiset(items) == multiset(old(items))
      ensures OrderedExcept(items, n, lo, -1, if moved then -1 else i0)
      ensures !moved ==> items == old(items)
    {
      var i := i0;
      while true
        invariant lo <= i0 <= i
        invariant i != i0 ==> i < n && i0 <= Parent(i)
        invariant i == i0 ==> items == old(items)
        invariant |items| == |old(items)| && items[n..] == old(items)[n..]
        invariant multiset(items) == multiset(old(items))
        invariant OrderedExcept(items, n, lo, i, if i != i0 then -1 else i0)
        invariant Bridged(items, n, lo, i)
        decreases n - i
      {
        var j1 := 2 * i + 1;
        if j1 >= n {
          NoChildren(i, n);
          DownStop(items, n, lo, i, if i != i0 then -1 else i0);
          break;
        }
        var j := j1;
        var j2 := j1 + 1;
        if j2 < n && Less(items[j2].weight, items[j1].weight) {
          j := j2;
        }
        LeastChild(items, n, i, j);
        if !Less(items[j].weight, items[i].weight) {
          DownStop(items, n, lo, i, if i != i0 then -1 else i0);
          break;
        }
        DownStep(items, n, lo, i0, i, j);
        Swap(i, j);
        i := j;
      }
      moved := i > i0;
    }

    /** container/heap's up: raises the entry at j0 while it is less than its parent. */
    method Up(j0: nat)
      requires j0 < |items|
      requires OrderedExcept(items, |items|, 0, -1, j0)
      requires Bridged(items, |items|, 0, j0)
      modifies this
      ensures Valid()
      ensures |items| == |old(items)| && multiset(items) == multiset(old(items))
    {
      var j: nat := j0;
      while true
        invariant j < |items| == |old(items)|
        invariant multiset(items) == multiset(old(items))
        invariant OrderedExcept(items, |items|, 0, -1, j)
        invariant Bridged(items, |items|, 0, j)
        decreases j
      {
        // Go computes the parent as (j - 1) / 2, which truncates to 0 at the
        // root, and stops when it equals j.
        if j == 0 {
          break;
        }
        var i := Parent(j);
        if !Less(items[j].weight, items[i].weight) {
          break;
        }
        UpStep(items, j);
        Swap(i, j);
        j := i;
      }
    }

    /** heap.Init: establishes the heap order over the whole list. */
    method Init()
      modifies this
      ensures Valid()
      ensures |items| == |old(items)| && multiset(items) == multiset(old(items))
    {
      var n := |items|;
      var i := n / 2 - 1;
      while i >= 0
        invariant -1 <= i <= n / 2 - 1
        invariant |items| == n && multiset(items) == multiset(old(items))
        invariant forall k :: 0 < k < n && i < Parent(k) ==> Above(items[Parent(k)], items[k])
        decreases i
      {
        var _ := Down(i, n, i);
        i := i - 1;
      }
    }

    /** heap.Pop: removes and returns an entry of least priority under Less. */
    method PopMin() returns (e: Edge)
      requires Valid() && |items| > 0
      modifies this
      ensures Valid()
      ensures |items| == |old(items)| - 1
      ensures multiset(old(items)) == multiset(items) + multiset{e}
      ensures forall x :: x in items ==> !Less(x.weight, e.weight)
    {
      forall k | 0 <= k < |items|
        ensures Above(items[0], items[k])
      {
        RootAbove(items, k);
      }
      ghost var root := items[0];
      ghost var before := items;
      var n := |items| - 1;
      Swap(0, n);
      ghost var swapped := items;
      var _ := Down(0, n, 0);
      ghost var sunk := items;
      e := Pop();
      assert e == sunk[n] == swapped[n] == root;
      assert sunk == items + [e];
      forall x | x in items
        ensures !Less(x.weight, e.weight)
      {
        assert x in multiset(sunk);
        assert x in before;
      }
    }

    /** heap.Fix: restores the heap order after the entry at i changed. */
    method Fix(i: nat)
      requires i < |items|
      requires OrderedExcept(items, |items|, 0, i, i)
      requires Bridged(items, |items|, 0, i)
      modifies this
      ensures Valid()
      ensures |items| == |old(items)| && multiset(items) == multiset(old(items))
    {
      var moved := Down(i, |items|, 0);
      if !moved {
        Up(i);
      }
    }

    /**
     * Sets the priority of v's entry and restores the heap order; does nothing
     * when no entry belongs to v. The entry is found by a linear scan.
     */
    method Update(v: VertexID, weight: int)
      requires Valid()
      modifies this
      ensures Valid()
      ensures |items| == |old(items)|
      ensures (forall k :: 0 <= k < |old(items)| ==> old(items)[k].to != v) ==> items == old(items)
      ensures forall k ::
                (0 <= k < |old(items)| && old(items)[k].to == v &&
                 forall m :: 0 <= m < k ==> old(items)[m].to != v) ==>
                multiset(items) == multiset(old(items)[k := Edge(v, weight)])
    {
      var i := 0;
      while i < |items|
        invariant 0 <= i <= |items|
        invariant items == old(items)
        invariant forall m :: 0 <= m < i ==> items[m].to != v
      {
        if items[i].to == v {
          ghost var before := items;
          ChangedSlot(items, i, items[i].(weight := weight));
          items := items[i := items[i].(weight := weight)];
          Fix(i);
          assert before[i := Edge(v, weight)] == before[i := before[i].(weight := weight)];
          forall k | 0 <= k < |before| && before[k].to == v && (forall m :: 0 <= m < k ==> before[m].to != v)
            ensures k == i
          {
          }
          return;
        }
        i := i + 1;
      }
    }
  }
}
