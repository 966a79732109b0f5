/** The binary min-heap `PriorityQueue<T>` that the TypeScript best-first
    and A* searches use. The heap is an array of (priority, item) entries in
    which every parent's priority is at most its children's (children of
    index i sit at 2i+1 and 2i+2). */
module MinHeap {
  import opened Wrappers

  datatype Entry<T> = Entry(priority: int, item: T)

  function ParentIndex(j: nat): nat
    requires j > 0
  {
    (j - 1) / 2
  }

  /** The min-heap property: no child has a smaller priority than its parent. */
  ghost predicate IsHeap<T>(h: seq<Entry<T>>)
  {
    forall j :: 0 < j < |h| ==> h[ParentIndex(j)].priority <= h[j].priority
  }

  /** The heap property with one exception, the edge from index k to its
      parent, as `bubbleUp` sees it at index k; k's parent is still no larger
      than k's children. */
  ghost predicate HeapAbove<T>(h: seq<Entry<T>>, k: nat)
  {
    && k < |h|
    && (forall j :: 0 < j < |h| && j != k ==> h[ParentIndex(j)].priority <= h[j].priority)
    && (0 < k ==> forall j :: 0 < j < |h| && ParentIndex(j) == k ==>
                   h[ParentIndex(k)].priority <= h[j].priority)
  }

  /** The heap property with the edges from index k to its children
      excepted, as `bubbleDown` sees it at index k; k's parent is still no
      larger than k's children. */
  ghost predicate HeapBelow<T>(h: seq<Entry<T>>, k: nat)
  {
    && (forall j :: 0 < j < |h| && ParentIndex(j) != k ==> h[ParentIndex(j)].priority <= h[j].priority)
    && (0 < k < |h| ==> forall j :: 0 < j < |h| && ParentIndex(j) == k ==>
                          h[ParentIndex(k)].priority <= h[j].priority)
  }

  /** The root of a heap holds a minimal priority. */
  lemma {:induction false} RootIsMin<T>(h: seq<Entry<T>>, i: nat)
    requires IsHeap(h) && i < |h|
    ensures h[0].priority <= h[i].priority
    decreases i
  {
    if i > 0 {
      RootIsMin(h, ParentIndex(i));
    }
  }

  /** What is left after taking the root out of a heap has no smaller priority. */
  lemma RootBelowRest<T>(h: seq<Entry<T>>, rest: seq<Entry<T>>)
    requires IsHeap(h) && |h| > 0
    requires multiset(rest) == multiset(h) - multiset{h[0]}
    ensures forall e :: e in rest ==> h[0].priority <= e.priority
  {
    forall e | e in rest ensures h[0].priority <= e.priority {
      assert e in multiset(rest);
      assert e in multiset(h);
      var i :| 0 <= i < |h| && h[i] == e;
      RootIsMin(h, i);
    }
  }

  /** The items waiting in the queue. */
  ghost function Items<T>(h: seq<Entry<T>>): set<T>
  {
    set e | e in h :: e.item
  }

  lemma ItemsAfterEnqueue<T>(h: seq<Entry<T>>, h': seq<Entry<T>>, e: Entry<T>)
    requires multiset(h') == multiset(h) + multiset{e}
    ensures Items(h') == Items(h) + {e.item}
  {
    forall x | x in Items(h') ensures x in Items(h) + {e.item} {
      var d :| d in h' && d.item == x;
      assert d in multiset(h');
    }
    forall x | x in Items(h) + {e.item} ensures x in Items(h') {
      if x == e.item {
        assert e in multiset(h');
      } else {
        var d :| d in h && d.item == x;
        assert d in multiset(h);
        assert d in multiset(h');
      }
    }
  }

  /** Taking one entry out loses at most that entry's item. */
  lemma ItemsAfterDequeue<T>(h: seq<Entry<T>>, h': seq<Entry<T>>, e: Entry<T>)
    requires multiset(h') == multiset(h) - multiset{e}
    ensures Items(h) <= Items(h') + {e.item}
    ensures Items(h') <= Items(h)
  {
    forall x | x in Items(h) ensures x in Items(h') + {e.item} {
      var d :| d in h && d.item == x;
      if d != e {
        assert d in multiset(h);
        assert d in multiset(h');
      }
    }
    forall x | x in Items(h') ensures x in Items(h) {
      var d :| d in h' && d.item == x;
      assert d in multiset(h');
      assert d in multiset(h);
    }
  }

  class PriorityQueue<T> {
    var heap: seq<Entry<T>>

    ghost predicate Valid()
      reads this
    {
      IsHeap(heap)
    }

    constructor ()
      ensures Valid() && heap == []
    {
      heap := [];
    }

    /** Adds the entry at the end and restores the heap by sifting it up. */
    method Enqueue(item: T, priority: int)
      requires Valid()
      modifies this
      ensures Valid()
      ensures multiset(heap) == multiset(old(heap)) + multiset{Entry(priority, item)}
      ensures |heap| == |old(heap)| + 1
    {
      heap := heap + [Entry(priority, item)];
      BubbleUp(|heap| - 1);
    }

    /** Removes and returns the item of the root, a least-priority entry; an
        empty queue gives `undefined`, here `None`. */
    method Dequeue() returns (r: Option<T>)
      requires Valid()
      modifies this
      ensures Valid()
      ensures old(heap) == [] ==> r == None && heap == []
      ensures old(heap) != [] ==>
                && r == Some(old(heap)[0].item)
                && multiset(heap) == multiset(old(heap)) - multiset{old(heap)[0]}
                && |heap| == |old(heap)| - 1
                && (forall e :: e in heap ==> old(heap)[0].priority <= e.priority)
    {
      if IsEmpty() {
        return None;
      }
      ghost var h0 := heap;
      Swap(0, |heap| - 1);
      var last := heap[|heap| - 1];
      heap := heap[..|heap| - 1];
      RemoveRootKeeps(h0, heap, last);
      BubbleDown(0);
      RootBelowRest(h0, heap);
      r := Some(last.item);
    }

    function IsEmpty(): (b: bool)
      reads this
      ensures b <==> multiset(heap) == multiset{}
    {
      |heap| == 0
    }

    /** The root's item without removing it: an item of least priority. */
    function Peek(): (r: Option<T>)
      reads this
      requires Valid()
      ensures r.None? <==> heap == []
      ensures r.Some? ==> exists e :: e in heap && e.item == r.value &&
                            forall d :: d in heap ==> e.priority <= d.priority
    {
      if heap == [] then None
      else
        var e := heap[0];
        assert forall d :: d in heap ==> e.priority <= d.priority by {
          forall d | d in heap ensures e.priority <= d.priority {
            var i :| 0 <= i < |heap| && heap[i] == d;
            RootIsMin(heap, i);
          }
        }
        Some(e.item)
    }

    function Size(): (n: nat)
      reads this
      ensures n == |multiset(heap)|
    {
      |heap|
    }

    method Clear()
      modifies this
      ensures Valid() && IsEmpty() && Size() == 0
    {
      heap := [];
    }

    method Swap(i: nat, j: nat)
      requires i < |heap| && j < |heap|
      modifies this
      ensures heap == old(heap)[i := old(heap)[j]][j := old(heap)[i]]
      ensures multiset(heap) == multiset(old(heap))
    {
      heap := heap[i := heap[j]][j := heap[i]];
    }

    /** Moves the entry at `index` towards the root while it is smaller than
        its parent. */
    method BubbleUp(index: nat)
      requires HeapAbove(heap, index)
      modifies this
      ensures Valid()
      ensures multiset(heap) == multiset(old(heap)) && |heap| == |old(heap)|
    {
      var k: nat := index;
      while k > 0
        invariant HeapAbove(heap, k)
        invariant multiset(heap) == multiset(old(heap)) && |heap| == |old(heap)|
        decreases k
      {
        var p := ParentIndex(k);
        if heap[k].priority >= heap[p].priority {
          break;
        }
        ghost var h := heap;
        Swap(k, p);
        SwapUpKeeps(h, k);
        k := p;
      }
    }

    /** Moves the entry at `index` away from the root while a child is
        strictly smaller, swapping with the smaller child. */
    method BubbleDown(index: nat)
      requires HeapBelow(heap, index)
      modifies this
      ensures Valid()
      ensures multiset(heap) == multiset(old(heap)) && |heap| == |old(heap)|
    {
      var k: nat := index;
      while true
        invariant HeapBelow(heap, k)
        invariant multiset(heap) == multiset(old(heap)) && |heap| == |old(heap)|
        decreases |heap| - k
      {
        var smallest := SmallestOf(heap, k);
        if smallest == k {
          SettledIsHeap(heap, k);
          break;
        }
        ghost var h := heap;
        Swap(k, smallest);
        SwapDownKeeps(h, k, smallest);
        k := smallest;
      }
    }
  }

  /** The index among k and its children holding the least priority, the
      parent winning ties and the left child winning ties with the right. */
  function SmallestOf<T>(h: seq<Entry<T>>, k: nat): (m: nat)
    ensures m == k || (m == 2 * k + 1 && m < |h|) || (m == 2 * k + 2 && m < |h|)
    ensures m == k ==>
              && (2 * k + 1 < |h| ==> h[k].priority <= h[2 * k + 1].priority)
              && (2 * k + 2 < |h| ==> h[k].priority <= h[2 * k + 2].priority)
    ensures m != k ==>
              && h[m].priority < h[k].priority
              && (2 * k + 1 < |h| ==> h[m].priority <= h[2 * k + 1].priority)
              && (2 * k + 2 < |h| ==> h[m].priority <= h[2 * k + 2].priority)
  {
    var left := 2 * k + 1;
    var right := 2 * k + 2;
    var s1 := if left < |h| && h[left].priority < h[k].priority then left else k;
    if right < |h| && h[right].priority < h[s1].priority then right else s1
  }

  /** Moving the last entry to the root and dropping the last slot leaves a
      heap with only the root's edges in doubt, and loses exactly the old root. */
  lemma RemoveRootKeeps<T>(h: seq<Entry<T>>, rest: seq<Entry<T>>, last: Entry<T>)
    requires IsHeap(h) && |h| > 0
    requires rest + [last] == h[0 := h[|h| - 1]][|h| - 1 := h[0]]
    ensures HeapBelow(rest, 0)
    ensures multiset(rest) == multiset(h) - multiset{h[0]}
    ensures last == h[0]
  {
    var h' := h[0 := h[|h| - 1]][|h| - 1 := h[0]];
    assert last == h'[|h'| - 1];
    calc {
      multiset(h);
      multiset(h');
      multiset(rest + [h[0]]);
      multiset(rest) + multiset{h[0]};
    }
    forall j | 0 < j < |rest| && ParentIndex(j) != 0 ensures rest[ParentIndex(j)].priority <= rest[j].priority {
      assert rest[j] == h'[j] && rest[ParentIndex(j)] == h'[ParentIndex(j)];
      assert h'[j] == h[j] && h'[ParentIndex(j)] == h[ParentIndex(j)];
    }
  }

  /** Once no child of k is smaller than k, the exception at k is gone. */
  lemma SettledIsHeap<T>(h: seq<Entry<T>>, k: nat)
    requires HeapBelow(h, k)
    requires 2 * k + 1 < |h| ==> h[k].priority <= h[2 * k + 1].priority
    requires 2 * k + 2 < |h| ==> h[k].priority <= h[2 * k + 2].priority
    ensures IsHeap(h)
  {
    forall j | 0 < j < |h| && ParentIndex(j) == k ensures h[k].priority <= h[j].priority {
      assert j == 2 * k + 1 || j == 2 * k + 2;
    }
  }

  lemma SwapUpKeeps<T>(h: seq<Entry<T>>, k: nat)
    requires HeapAbove(h, k) && 0 < k
    requires h[k].priority < h[ParentIndex(k)].priority
    ensures HeapAbove(h[k := h[ParentIndex(k)]][ParentIndex(k) := h[k]], ParentIndex(k))
  {
    var p := ParentIndex(k);
    var h' := h[k := h[p]][p := h[k]];
    forall j | 0 < j < |h'| && j != p ensures h'[ParentIndex(j)].priority <= h'[j].priority {
      if ParentIndex(j) == k {
      } else if ParentIndex(j) == p {
      }
    }
  }

  lemma SwapDownKeeps<T>(h: seq<Entry<T>>, k: nat, m: nat)
    requires HeapBelow(h, k) && k < |h| && m < |h|
    requires m == 2 * k + 1 || m == 2 * k + 2
    requires h[m].priority < h[k].priority
    requires 2 * k + 1 < |h| ==> h[m].priority <= h[2 * k + 1].priority
    requires 2 * k + 2 < |h| ==> h[m].priority <= h[2 * k + 2].priority
    ensures HeapBelow(h[k := h[m]][m := h[k]], m)
  {
    SwapDownEdges(h, k, m);
    SwapDownChildren(h, k, m);
  }

  /** After the swap every edge but those below m holds. */
  lemma SwapDownEdges<T>(h: seq<Entry<T>>, k: nat, m: nat)
    requires HeapBelow(h, k) && k < |h| && m < |h|
    requires m == 2 * k + 1 || m == 2 * k + 2
    requires h[m].priority < h[k].priority
    requires 2 * k + 1 < |h| ==> h[m].priority <= h[2 * k + 1].priority
    requires 2 * k + 2 < |h| ==> h[m].priority <= h[2 * k + 2].priority
    ensures var h' := h[k := h[m]][m := h[k]];
            forall j :: 0 < j < |h'| && ParentIndex(j) != m ==> h'[ParentIndex(j)].priority <= h'[j].priority
  {
    var h' := h[k := h[m]][m := h[k]];
    assert ParentIndex(m) == k;
    forall j | 0 < j < |h'| && ParentIndex(j) != m ensures h'[ParentIndex(j)].priority <= h'[j].priority {
      var p := ParentIndex(j);
      if j == m {
        assert h'[p] == h[m] && h'[j] == h[k];
      } else if j == k {
        assert p < k && h'[p] == h[p] && h'[j] == h[m];
      } else if p == k {
        assert h'[p] == h[m] && h'[j] == h[j];
      } else {
        assert h'[p] == h[p] && h'[j] == h[j];
      }
    }
  }

  /** After the swap the entry above m is no larger than m's children. */
  lemma SwapDownChildren<T>(h: seq<Entry<T>>, k: nat, m: nat)
    requires HeapBelow(h, k) && k < |h| && m < |h|
    requires m == 2 * k + 1 || m == 2 * k + 2
    ensures var h' := h[k := h[m]][m := h[k]];
            forall j :: 0 < j < |h'| && ParentIndex(j) == m ==> h'[k].priority <= h'[j].priority
  {
    var h' := h[k := h[m]][m := h[k]];
    forall j | 0 < j < |h'| && ParentIndex(j) == m ensures h'[k].priority <= h'[j].priority {
      assert j > m && h'[k] == h[m] && h'[j] == h[j];
    }
  }
}
