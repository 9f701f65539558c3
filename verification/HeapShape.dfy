/**
 * The array heap of `priorityqueue.c` on sequences: what each operation does to
 * the live entries, and what that keeps.
 */
module HeapShape {
  datatype Entry<T> = Entry(value: T, priority: int)

  function Parent(i: nat): nat
    requires i > 0
  {
    (i - 1) / 2
  }

  function Swap<T>(h: seq<T>, i: nat, j: nat): (r: seq<T>)
    requires i < |h| && j < |h|
    ensures |r| == |h|
  {
    h[i := h[j]][j := h[i]]
  }

  lemma {:induction false} SwapPermutes<T>(h: seq<T>, i: nat, j: nat)
    requires i < |h| && j < |h|
    ensures multiset(Swap(h, i, j)) == multiset(h)
  {
  }

  /**
   * `heapify`: the sift-down of slot i in a heap of n entries. It looks at slot
   * 2i + 2 even when that is slot n, just past the heap.
   */
  function Sift<T>(h: seq<Entry<T>>, n: nat, i: nat): (r: seq<Entry<T>>)
    requires n < |h|
    ensures |r| == |h|
    decreases n - i
  {
    if 2 * i + 1 >= n then h
    else
      var l, r := 2 * i + 1, 2 * i + 2;
      if h[l].priority <= h[i].priority && h[l].priority <= h[r].priority then
        Sift(Swap(h, i, l), n, l)
      else if h[r].priority <= h[i].priority && h[r].priority <= h[l].priority then
        Sift(Swap(h, i, r), n, r)
      else h
  }

  /** The loop of `priorityqueue_insert`: parents move down until e fits at slot i. */
  function Raise<T>(h: seq<Entry<T>>, i: nat, e: Entry<T>): (r: seq<Entry<T>>)
    requires i < |h|
    ensures |r| == |h|
    decreases i
  {
    if i > 0 && h[Parent(i)].priority > e.priority then
      Raise(h[i := h[Parent(i)]], Parent(i), e)
    else h[i := e]
  }

  function Push<T>(h: seq<Entry<T>>, e: Entry<T>): seq<Entry<T>> {
    Raise(h + [e], |h|, e)
  }

  /** Takes out slot i: the last entry moves there and is sifted down, never up. */
  function Delete<T>(h: seq<Entry<T>>, i: nat): (r: seq<Entry<T>>)
    requires i < |h|
    ensures |r| == |h| - 1
  {
    var n := |h| - 1;
    Sift(h[i := h[n]], n, i)[..n]
  }

  function Pop<T>(h: seq<Entry<T>>): seq<Entry<T>>
    requires h != []
  {
    Delete(h, 0)
  }

  ghost predicate IsHeap<T>(h: seq<Entry<T>>, n: nat)
    requires n <= |h|
  {
    forall j {:trigger Parent(j)} | 1 <= j < n :: h[Parent(j)].priority <= h[j].priority
  }

  /** Heap order except between slot i and its children. */
  ghost predicate HeapExcept<T>(h: seq<Entry<T>>, n: nat, i: nat)
    requires n <= |h|
  {
    && (forall j {:trigger Parent(j)} | 1 <= j < n && Parent(j) != i :: h[Parent(j)].priority <= h[j].priority)
    && (forall j {:trigger Parent(j)} | 1 <= j < n && Parent(j) == i && i > 0 :: h[Parent(i)].priority <= h[j].priority)
  }

  /**
   * The look past the end does no harm while slot n holds a copy of the entry
   * being sifted, which both callers of `heapify` see to: a swap with slot n then
   * changes nothing.
   */
  lemma {:induction false} SiftKeepsEntries<T>(h: seq<Entry<T>>, n: nat, i: nat)
    requires i <= n < |h| && h[n] == h[i]
    ensures Sift(h, n, i)[n..] == h[n..]
    ensures multiset(Sift(h, n, i)[..n]) == multiset(h[..n])
    decreases n - i
  {
    if 2 * i + 1 < n {
      var l, r := 2 * i + 1, 2 * i + 2;
      if h[l].priority <= h[i].priority && h[l].priority <= h[r].priority {
        SwapBelow(h, n, i, l);
        SiftKeepsEntries(Swap(h, i, l), n, l);
      } else if h[r].priority <= h[i].priority && h[r].priority <= h[l].priority {
        if r < n {
          SwapBelow(h, n, i, r);
        } else {
          assert Swap(h, i, r) == h;
        }
        SiftKeepsEntries(Swap(h, i, r), n, r);
      }
    }
  }

  lemma {:induction false} SwapBelow<T>(h: seq<T>, n: nat, i: nat, j: nat)
    requires i < j < n <= |h|
    ensures Swap(h, i, j)[n..] == h[n..] && multiset(Swap(h, i, j)[..n]) == multiset(h[..n])
  {
  }

  /** Sifting closes the gap: a heap that is in order except at slot i becomes one. */
  lemma {:induction false} SiftRestores<T>(h: seq<Entry<T>>, n: nat, i: nat)
    requires i <= n < |h| && h[n] == h[i] && HeapExcept(h, n, i)
    ensures IsHeap(Sift(h, n, i), n)
    decreases n - i
  {
    hide IsHeap, HeapExcept;
    var l, r := 2 * i + 1, 2 * i + 2;
    if l < n && h[l].priority <= h[i].priority && h[l].priority <= h[r].priority {
      SwapMovesGap(h, n, i, l);
      SiftRestores(Swap(h, i, l), n, l);
      assert Sift(h, n, i) == Sift(Swap(h, i, l), n, l);
    } else if r < n && h[r].priority <= h[i].priority && h[r].priority <= h[l].priority {
      SwapMovesGap(h, n, i, r);
      SiftRestores(Swap(h, i, r), n, r);
      assert Sift(h, n, i) == Sift(Swap(h, i, r), n, r);
    } else {
      if r == n {
        assert Swap(h, i, r) == h;
      }
      assert Sift(h, n, i) == h;
      NoGap(h, n, i);
    }
  }

  lemma {:induction false} NoGap<T>(h: seq<Entry<T>>, n: nat, i: nat)
    requires n < |h| && HeapExcept(h, n, i)
    requires 2 * i + 1 < n ==> h[i].priority <= h[2 * i + 1].priority
    requires 2 * i + 2 < n ==> h[i].priority <= h[2 * i + 2].priority
    ensures IsHeap(h, n)
  {
  }

  lemma {:induction false} SwapMovesGap<T>(h: seq<Entry<T>>, n: nat, i: nat, c: nat)
    requires n < |h| && 1 <= c < n && Parent(c) == i && HeapExcept(h, n, i)
    requires h[c].priority <= h[i].priority
    requires h[c].priority <= h[2 * i + 1].priority
    requires 2 * i + 2 < n ==> h[c].priority <= h[2 * i + 2].priority
    ensures HeapExcept(Swap(h, i, c), n, c)
  {
    var g := Swap(h, i, c);
    forall j | 1 <= j < n && Parent(j) != c
      ensures g[Parent(j)].priority <= g[j].priority
    {
      if Parent(j) == i {
        assert j == 2 * i + 1 || j == 2 * i + 2;
      } else if j == i {
        assert h[Parent(i)].priority <= h[c].priority;
      } else {
        assert g[j] == h[j] && g[Parent(j)] == h[Parent(j)];
      }
    }
    forall j | 1 <= j < n && Parent(j) == c
      ensures g[Parent(c)].priority <= g[j].priority
    {
      assert h[Parent(j)].priority <= h[j].priority;
    }
  }

  // ---------- The operations ----------

  lemma {:induction false} RaiseKeepsEntries<T>(h: seq<Entry<T>>, i: nat, e: Entry<T>)
    requires i < |h|
    ensures multiset(Raise(h, i, e)) == multiset(h[i := e])
    decreases i
  {
    if i > 0 && h[Parent(i)].priority > e.priority {
      var p := Parent(i);
      RaiseKeepsEntries(h[i := h[p]], p, e);
      assert h[i := h[p]][p := e] == Swap(h[i := e], i, p);
      SwapPermutes(h[i := e], i, p);
    }
  }

  lemma {:induction false} RaiseRestores<T>(h: seq<Entry<T>>, i: nat, e: Entry<T>)
    requires i < |h|
    requires forall j | 1 <= j < |h| && j != i && Parent(j) != i :: h[Parent(j)].priority <= h[j].priority
    requires forall j | 1 <= j < |h| && Parent(j) == i ::
               e.priority <= h[j].priority && (i > 0 ==> h[Parent(i)].priority <= h[j].priority)
    ensures IsHeap(Raise(h, i, e), |h|)
    decreases i
  {
    if i > 0 && h[Parent(i)].priority > e.priority {
      RaiseRestores(h[i := h[Parent(i)]], Parent(i), e);
    }
  }

  /** What slot i held before does not matter. */
  lemma {:induction false} RaiseFillsSlot<T>(h: seq<Entry<T>>, i: nat, x: Entry<T>, e: Entry<T>)
    requires i < |h|
    ensures Raise(h[i := x], i, e) == Raise(h, i, e)
  {
    if i > 0 {
      assert h[i := x][i := h[Parent(i)]] == h[i := h[Parent(i)]];
    }
    assert h[i := x][i := e] == h[i := e];
  }

  /** Insertion adds exactly its entry and keeps heap order. */
  lemma {:induction false} PushCorrect<T>(h: seq<Entry<T>>, e: Entry<T>)
    ensures multiset(Push(h, e)) == multiset(h) + multiset{e} && |Push(h, e)| == |h| + 1
    ensures IsHeap(h, |h|) ==> IsHeap(Push(h, e), |h| + 1)
  {
    RaiseKeepsEntries(h + [e], |h|, e);
    assert (h + [e])[|h| := e] == h + [e];
    if IsHeap(h, |h|) {
      RaiseRestores(h + [e], |h|, e);
    }
  }

  lemma {:induction false} DropLast<T>(h: seq<T>, i: nat)
    requires i < |h|
    ensures multiset(h[i := h[|h| - 1]][..|h| - 1]) == multiset(h) - multiset{h[i]}
  {
    var n := |h| - 1;
    assert h == h[..n] + [h[n]];
    if i < n {
      assert h[i := h[n]][..n] == h[..n][i := h[n]];
    } else {
      assert h[i := h[n]][..n] == h[..n];
    }
  }

  /** The moved entry does not have to go up from slot i. */
  predicate MovesDownOnly<T>(h: seq<Entry<T>>, i: nat)
    requires i < |h|
  {
    i == 0 || i == |h| - 1 || h[Parent(i)].priority <= h[|h| - 1].priority
  }

  /**
   * Deletion takes out exactly the entry of its slot, and keeps heap order if and
   * only if the moved entry is not smaller than the parent of the vacated slot.
   */
  lemma {:induction false} DeleteCorrect<T>(h: seq<Entry<T>>, i: nat)
    requires i < |h|
    ensures multiset(Delete(h, i)) == multiset(h) - multiset{h[i]}
    ensures IsHeap(h, |h|) ==> (IsHeap(Delete(h, i), |h| - 1) <==> MovesDownOnly(h, i))
  {
    SiftKeepsEntries(h[i := h[|h| - 1]], |h| - 1, i);
    DropLast(h, i);
    if IsHeap(h, |h|) {
      if MovesDownOnly(h, i) {
        HeapAfterMove(h, i);
      } else {
        SmallStaysPut(h, i);
      }
    }
  }

  lemma {:induction false} HeapAfterMove<T>(h: seq<Entry<T>>, i: nat)
    requires i < |h| && IsHeap(h, |h|) && MovesDownOnly(h, i)
    ensures IsHeap(Delete(h, i), |h| - 1)
  {
    hide IsHeap, HeapExcept, MovesDownOnly, Sift;
    var n := |h| - 1;
    var g := h[i := h[n]];
    HeapExceptMoved(h, i);
    SiftRestores(g, n, i);
    HeapOfPrefix(Sift(g, n, i), n);
  }

  lemma {:induction false} HeapOfPrefix<T>(h: seq<Entry<T>>, n: nat)
    requires n <= |h| && IsHeap(h, n)
    ensures IsHeap(h[..n], n)
  {
  }

  lemma {:induction false} HeapExceptMoved<T>(h: seq<Entry<T>>, i: nat)
    requires i < |h| && IsHeap(h, |h|) && MovesDownOnly(h, i)
    ensures HeapExcept(h[i := h[|h| - 1]], |h| - 1, i)
  {
  }

  /** A moved entry smaller than its new parent is smaller than its children too, and stays there. */
  lemma {:induction false} SmallStaysPut<T>(h: seq<Entry<T>>, i: nat)
    requires i < |h| && IsHeap(h, |h|) && !MovesDownOnly(h, i)
    ensures !IsHeap(Delete(h, i), |h| - 1)
  {
    var n := |h| - 1;
    var g := h[i := h[n]];
    assert h[Parent(i)].priority <= h[i].priority;
    SmallIsFixed(h, i);
    assert Delete(h, i)[Parent(i)].priority > Delete(h, i)[i].priority;
  }

  lemma {:induction false} SmallIsFixed<T>(h: seq<Entry<T>>, i: nat)
    requires i < |h| - 1 && IsHeap(h, |h|) && h[|h| - 1].priority < h[i].priority
    ensures Sift(h[i := h[|h| - 1]], |h| - 1, i) == h[i := h[|h| - 1]]
  {
    var n := |h| - 1;
    var g := h[i := h[n]];
    if 2 * i + 1 < n {
      var l, r := 2 * i + 1, 2 * i + 2;
      assert Parent(l) == i && h[i].priority <= h[l].priority;
      assert Parent(r) == i && h[i].priority <= h[r].priority;
      assert g[l].priority > g[i].priority;
    }
  }

  /** In a heap the first entry has the least priority. */
  lemma {:induction false} FirstIsLeast<T>(h: seq<Entry<T>>, k: nat)
    requires k < |h| && IsHeap(h, |h|)
    ensures h[0].priority <= h[k].priority
    decreases k
  {
    if k > 0 {
      FirstIsLeast(h, Parent(k));
    }
  }

  /** Extraction takes out an entry of least priority and nothing else, and keeps heap order. */
  lemma {:induction false} PopCorrect<T>(h: seq<Entry<T>>)
    requires h != []
    ensures |Pop(h)| == |h| - 1 && multiset(Pop(h)) == multiset(h) - multiset{h[0]}
    ensures IsHeap(h, |h|) ==>
              IsHeap(Pop(h), |h| - 1) && forall e <- multiset(h) :: h[0].priority <= e.priority
  {
    DeleteCorrect(h, 0);
    if IsHeap(h, |h|) {
      forall e | e in multiset(h)
        ensures h[0].priority <= e.priority
      {
        assert e in h;
        var k :| 0 <= k < |h| && h[k] == e;
        FirstIsLeast(h, k);
      }
    }
  }

  // ---------- Runs ----------

  function PushAll<T>(h: seq<Entry<T>>, es: seq<Entry<T>>): seq<Entry<T>>
    decreases |es|
  {
    if es == [] then h else PushAll(Push(h, es[0]), es[1..])
  }

  function PopAll<T>(h: seq<Entry<T>>): seq<Entry<T>>
    decreases |h|
  {
    if h == [] then []
    else [h[0]] + PopAll(Pop(h))
  }

  ghost predicate SortedByPriority<T>(es: seq<Entry<T>>) {
    forall i, j | 0 <= i < j < |es| :: es[i].priority <= es[j].priority
  }

  lemma {:induction false} PushAllCorrect<T>(h: seq<Entry<T>>, es: seq<Entry<T>>)
    requires IsHeap(h, |h|)
    ensures IsHeap(PushAll(h, es), |PushAll(h, es)|)
    ensures multiset(PushAll(h, es)) == multiset(h) + multiset(es)
    decreases |es|
  {
    if es != [] {
      PushCorrect(h, es[0]);
      PushAllCorrect(Push(h, es[0]), es[1..]);
      assert es == [es[0]] + es[1..];
    }
  }

  lemma {:induction false} FirstBeforeRest<T>(e: Entry<T>, rest: seq<Entry<T>>, bag: multiset<Entry<T>>)
    requires e in bag && multiset(rest) == bag - multiset{e} && SortedByPriority(rest)
    requires forall x <- bag :: e.priority <= x.priority
    ensures multiset([e] + rest) == bag && SortedByPriority([e] + rest)
  {
    forall i | 0 <= i < |rest|
      ensures e.priority <= rest[i].priority
    {
      assert rest[i] in multiset(rest);
    }
  }

  lemma {:induction false} PopAllCorrect<T>(h: seq<Entry<T>>)
    requires IsHeap(h, |h|)
    ensures multiset(PopAll(h)) == multiset(h) && SortedByPriority(PopAll(h))
    decreases |h|
  {
    if h != [] {
      PopCorrect(h);
      PopAllCorrect(Pop(h));
      FirstBeforeRest(h[0], PopAll(Pop(h)), multiset(h));
    }
  }

  /** Inserting entries into an empty queue and extracting them all sorts them by priority. */
  lemma {:induction false} InsertThenExtractSorts<T>(es: seq<Entry<T>>)
    ensures var out := PopAll(PushAll([], es));
            multiset(out) == multiset(es) && SortedByPriority(out)
  {
    PushAllCorrect([], es);
    PopAllCorrect(PushAll([], es));
  }
}
