/** The frontier of the Rust best-first and A* searches:
    `BinaryHeap<Reverse<(i64, (usize, usize))>>`. `Reverse` turns the
    max-heap into a min-heap, so `pop` hands out the least entry in the
    order of the tuple: by key, then by column, then by row. Only the bag of
    entries matters to the searches, so the heap is a multiset here. */
module RustHeap {
  import opened Wrappers
  import opened Grid

  /** One `Reverse((key, (x, y)))`. */
  datatype HeapEntry = HeapEntry(f: int, p: Pos)

  /** The order of `(i64, (usize, usize))`: lexicographic. */
  predicate Le(a: HeapEntry, b: HeapEntry)
  {
    a.f < b.f || (a.f == b.f && (a.p.x < b.p.x || (a.p.x == b.p.x && a.p.y <= b.p.y)))
  }

  predicate IsLeast(e: HeapEntry, H: multiset<HeapEntry>)
  {
    e in H && forall e' :: e' in H ==> Le(e, e')
  }

  /** The tuple order is total and antisymmetric: any two entries compare,
      and entries below each other are equal. */
  lemma LeTotal(a: HeapEntry, b: HeapEntry)
    ensures Le(a, b) || Le(b, a)
    ensures Le(a, b) && Le(b, a) ==> a == b
  {
  }

  lemma LeTrans(a: HeapEntry, b: HeapEntry, c: HeapEntry)
    requires Le(a, b) && Le(b, c)
    ensures Le(a, c)
  {
  }

  /** A non-empty heap has a least entry. */
  lemma {:induction false} ExistsLeast(H: multiset<HeapEntry>)
    requires |H| > 0
    ensures exists e :: IsLeast(e, H)
    decreases |H|
  {
    var x :| x in H;
    var rest := H - multiset{x};
    if |rest| == 0 {
      assert H == multiset{x};
      assert IsLeast(x, H);
    } else {
      ExistsLeast(rest);
      var m :| IsLeast(m, rest);
      LeTotal(x, m);
      if Le(x, m) {
        forall e' | e' in H ensures Le(x, e') {
          if e' != x {
            assert e' in rest;
            LeTrans(x, m, e');
          }
        }
        assert IsLeast(x, H);
      } else {
        forall e' | e' in H ensures Le(m, e') {
          if e' != x {
            assert e' in rest;
          }
        }
        assert IsLeast(m, H);
      }
    }
  }

  /** The least entry is unique, so `pop` is determined by the bag alone. */
  lemma LeastUnique(a: HeapEntry, b: HeapEntry, H: multiset<HeapEntry>)
    requires IsLeast(a, H) && IsLeast(b, H)
    ensures a == b
  {
    LeTotal(a, b);
  }

  /** `pop`: `None` from an empty heap; otherwise the least entry, removed
      once, everything else staying. */
  method Pop(H: multiset<HeapEntry>) returns (e: Option<HeapEntry>, H': multiset<HeapEntry>)
    ensures |H| == 0 <==> e.None?
    ensures e.None? ==> H' == H
    ensures e.Some? ==> IsLeast(e.value, H) && H' + multiset{e.value} == H
  {
    if |H| == 0 {
      return None, H;
    }
    ExistsLeast(H);
    var m :| IsLeast(m, H);
    return Some(m), H - multiset{m};
  }

  /** The cells waiting in the heap. */
  ghost function Cells(H: multiset<HeapEntry>): set<Pos>
  {
    set e | e in H :: e.p
  }

  lemma CellsPush(H: multiset<HeapEntry>, e: HeapEntry)
    ensures Cells(H + multiset{e}) == Cells(H) + {e.p}
  {
    var H' := H + multiset{e};
    forall q | q in Cells(H') ensures q in Cells(H) + {e.p} {
      var d :| d in H' && d.p == q;
      if d != e {
        assert d in H;
      }
    }
    forall q | q in Cells(H) + {e.p} ensures q in Cells(H') {
      if q != e.p {
        var d :| d in H && d.p == q;
        assert d in H';
      } else {
        assert e in H';
      }
    }
  }

  lemma CellsPop(H: multiset<HeapEntry>, H': multiset<HeapEntry>, e: HeapEntry)
    requires H' + multiset{e} == H
    ensures Cells(H') <= Cells(H) <= Cells(H') + {e.p}
    ensures e.p in Cells(H)
  {
    CellsPush(H', e);
  }
}
