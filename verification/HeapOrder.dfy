/**
 * The order in which the array heap gives back entries of equal priority, and what
 * that does to processes of equal priority under the scheduler. The header
 * promises that the entry inserted first comes out first.
 */
module HeapOrder {
  import opened HeapShape

  ghost predicate AllEqual<T>(h: seq<Entry<T>>) {
    forall i, j | 0 <= i < |h| && 0 <= j < |h| :: h[i].priority == h[j].priority
  }

  lemma {:induction false} EqualsPile<T>(h: seq<Entry<T>>, es: seq<Entry<T>>)
    requires AllEqual(h + es)
    ensures PushAll(h, es) == h + es
    decreases |es|
  {
    if es != [] {
      var e := es[0];
      assert e == (h + es)[|h|] && forall k | 0 <= k < |h| :: h[k] == (h + es)[k];
      assert Push(h, e) == h + [e];
      assert h + es == (h + [e]) + es[1..];
      EqualsPile(h + [e], es[1..]);
    } else {
      assert h + es == h;
    }
  }

  /** Sifting slot i down leaves every slot before it alone. */
  lemma {:induction false} SiftLeavesBefore<T>(h: seq<Entry<T>>, n: nat, i: nat, k: nat)
    requires n < |h| && k < i < |h|
    ensures Sift(h, n, i)[k] == h[k]
    decreases n - i
  {
    if 2 * i + 1 < n {
      var l, r := 2 * i + 1, 2 * i + 2;
      if h[l].priority <= h[i].priority && h[l].priority <= h[r].priority {
        SiftLeavesBefore(Swap(h, i, l), n, l, k);
      } else if h[r].priority <= h[i].priority && h[r].priority <= h[l].priority {
        SiftLeavesBefore(Swap(h, i, r), n, r, k);
      }
    }
  }

  /** Among equals the second entry moves to the front, and with four or more the fourth follows it. */
  lemma {:induction false} PopOfEquals<T>(h: seq<Entry<T>>)
    requires AllEqual(h) && |h| >= 2
    ensures |Pop(h)| == |h| - 1 && AllEqual(Pop(h)) && Pop(h)[0] == h[1]
    ensures |h| == 3 ==> Pop(h)[1] == h[2]
    ensures |h| >= 4 ==> Pop(h)[1] == h[3]
  {
    EqualsStay(h);
    var n := |h| - 1;
    var g := h[0 := h[n]];
    if n > 1 {
      var g1 := Swap(g, 0, 1);
      assert Sift(g, n, 0) == Sift(g1, n, 1);
      SiftLeavesBefore(g1, n, 1, 0);
      if n > 3 {
        var g3 := Swap(g1, 1, 3);
        assert Sift(g1, n, 1) == Sift(g3, n, 3);
        SiftLeavesBefore(g3, n, 3, 0);
        SiftLeavesBefore(g3, n, 3, 1);
      }
    }
  }

  lemma {:induction false} EqualsStay<T>(h: seq<Entry<T>>)
    requires AllEqual(h) && h != []
    ensures AllEqual(Pop(h))
  {
    hide Pop, Delete;
    PopCorrect(h);
    forall i | 0 <= i < |Pop(h)|
      ensures Pop(h)[i] in h
    {
      assert Pop(h)[i] in multiset(Pop(h)) && Pop(h)[i] in multiset(h);
    }
  }

  lemma {:induction false} FewInOrder<T>(h: seq<Entry<T>>)
    requires AllEqual(h) && |h| <= 3
    ensures PopAll(h) == h
    decreases |h|
  {
    hide Pop;
    if |h| >= 2 {
      PopOfEquals(h);
      FewInOrder(Pop(h));
      assert Pop(h) == h[1..];
    } else if |h| == 1 {
      PopCorrect(h);
      assert Pop(h) == [];
    }
  }

  // ---------- Entries of one priority ----------

  /** A queue is used by insertions and extractions; an extraction from an empty queue gives nothing. */
  datatype Use<T> = In(e: Entry<T>) | Out

  function Ins<T>(uses: seq<Use<T>>): seq<Entry<T>> {
    if uses == [] then [] else if uses[0].In? then [uses[0].e] + Ins(uses[1..]) else Ins(uses[1..])
  }

  function Used<T>(h: seq<Entry<T>>, use: Use<T>): seq<Entry<T>> {
    match use
    case In(e) => Push(h, e)
    case Out => if h == [] then [] else Pop(h)
  }

  function After<T>(h: seq<Entry<T>>, uses: seq<Use<T>>): seq<Entry<T>>
    decreases |uses|
  {
    if uses == [] then h else After(Used(h, uses[0]), uses[1..])
  }

  function Outs<T>(h: seq<Entry<T>>, uses: seq<Use<T>>): seq<Entry<T>>
    decreases |uses|
  {
    if uses == [] then []
    else if uses[0].Out? && h != [] then [h[0]] + Outs(Used(h, uses[0]), uses[1..])
    else Outs(Used(h, uses[0]), uses[1..])
  }

  /** Some extraction finds more than three entries. */
  predicate Crowded<T>(h: seq<Entry<T>>, uses: seq<Use<T>>)
    decreases |uses|
  {
    uses != [] && ((uses[0].Out? && |h| > 3) || Crowded(Used(h, uses[0]), uses[1..]))
  }

  ghost predicate Distinct<T>(es: seq<Entry<T>>) {
    forall i, j | 0 <= i < j < |es| :: es[i] != es[j]
  }

  ghost predicate HavePriority<T>(es: seq<Entry<T>>, p: int) {
    forall i | 0 <= i < |es| :: es[i].priority == p
  }

  lemma {:induction false} PushOfEquals<T>(h: seq<Entry<T>>, e: Entry<T>)
    requires HavePriority(h, e.priority)
    ensures Push(h, e) == h + [e]
  {
    assert (h + [e])[|h|] == e;
    if |h| > 0 {
      assert (h + [e])[Parent(|h|)] == h[Parent(|h|)];
    }
  }

  /** One use of a queue whose entries have one priority. */
  lemma {:induction false} StepOfEquals<T>(h: seq<Entry<T>>, use: Use<T>, p: int)
    requires HavePriority(h, p) && (use.In? ==> use.e.priority == p)
    ensures HavePriority(Used(h, use), p)
    ensures use.In? ==> Used(h, use) == h + [use.e]
    ensures use.Out? && h != [] ==> |Used(h, use)| == |h| - 1
    ensures use.Out? && 0 < |h| <= 3 ==> Used(h, use) == h[1..]
    ensures use.Out? && |h| >= 2 ==> Used(h, use)[0] == h[1]
    ensures use.Out? && |h| >= 4 ==> Used(h, use)[1] == h[3]
  {
    hide Pop, Push;
    if use.In? {
      PushOfEquals(h, use.e);
    } else if |h| == 1 {
      PopCorrect(h);
      assert Pop(h) == [];
    } else if |h| >= 2 {
      PopOfEquals(h);
      PopKeepsPriority(h, p);
      if |h| <= 3 {
        assert Pop(h) == h[1..];
      }
    }
  }

  lemma {:induction false} PopKeepsPriority<T>(h: seq<Entry<T>>, p: int)
    requires HavePriority(h, p) && h != []
    ensures HavePriority(Pop(h), p)
  {
    hide Pop;
    PopCorrect(h);
    forall i | 0 <= i < |Pop(h)|
      ensures Pop(h)[i] in h
    {
      assert Pop(h)[i] in multiset(Pop(h)) && Pop(h)[i] in multiset(h);
    }
  }

  /** A queue that is not crowded is first-in-first-out. */
  lemma {:induction false} InOrderUncrowded<T>(h: seq<Entry<T>>, uses: seq<Use<T>>, p: int)
    requires HavePriority(h, p) && HavePriority(Ins(uses), p) && !Crowded(h, uses)
    ensures Outs(h, uses) + After(h, uses) == h + Ins(uses)
    decreases |uses|
  {
    hide Used;
    if uses != [] {
      var use, rest := uses[0], uses[1..];
      InsUnfold(uses, p);
      StepOfEquals(h, use, p);
      InOrderUncrowded(Used(h, use), rest, p);
      if use.In? {
        assert (h + [use.e]) + Ins(rest) == h + Ins(uses);
      } else if h == [] {
        EmptyOut<T>();
      } else {
        assert [h[0]] + (h[1..] + Ins(rest)) == h + Ins(rest);
        assert ([h[0]] + Outs(Used(h, use), rest)) + After(h, uses)
            == [h[0]] + (Outs(Used(h, use), rest) + After(h, uses));
      }
    }
  }

  lemma EmptyOut<T>()
    ensures Used([], Use<T>.Out) == []
  {
  }

  lemma {:induction false} InsUnfold<T>(uses: seq<Use<T>>, p: int)
    requires uses != [] && HavePriority(Ins(uses), p)
    ensures HavePriority(Ins(uses[1..]), p)
    ensures if uses[0].In? then uses[0].e.priority == p && Ins(uses) == [uses[0].e] + Ins(uses[1..])
            else Ins(uses) == Ins(uses[1..])
  {
    var r := Ins(uses[1..]);
    if uses[0].In? {
      assert Ins(uses)[0] == uses[0].e && forall i | 0 <= i < |r| :: r[i] == Ins(uses)[i + 1];
    }
  }

  /** The first two entries are the next two to come out, whatever is inserted meanwhile. */
  lemma {:induction false} NextOuts<T>(h: seq<Entry<T>>, uses: seq<Use<T>>, p: int)
    requires HavePriority(h, p) && HavePriority(Ins(uses), p) && After(h, uses) == [] && h != []
    ensures |Outs(h, uses)| >= |h| && Outs(h, uses)[0] == h[0]
    ensures |h| >= 2 ==> Outs(h, uses)[1] == h[1]
    decreases |uses|
  {
    hide Used;
    var use, rest := uses[0], uses[1..];
    InsUnfold(uses, p);
    StepOfEquals(h, use, p);
    if Used(h, use) != [] {
      NextOuts(Used(h, use), rest, p);
    }
  }

  lemma {:induction false} FourthIsNotThird<T>(h: seq<Entry<T>>, es: seq<Entry<T>>)
    requires |h| >= 4 && Distinct(h + es)
    ensures h[2] != h[3]
  {
    assert (h + es)[2] == h[2] && (h + es)[3] == h[3];
  }

  /** A crowded queue gives the fourth entry before the third one. */
  lemma {:induction false} FourthOvertakes<T>(h: seq<Entry<T>>, uses: seq<Use<T>>, p: int)
    requires HavePriority(h, p) && HavePriority(Ins(uses), p) && After(h, uses) == []
    requires uses != [] && uses[0].Out? && |h| > 3 && Distinct(h + Ins(uses))
    ensures Outs(h, uses) != h + Ins(uses)
  {
    hide Used, Distinct, HavePriority;
    InsUnfold(uses, p);
    StepOfEquals(h, uses[0], p);
    NextOuts(Used(h, uses[0]), uses[1..], p);
    FourthIsNotThird(h, Ins(uses[1..]));
    assert Outs(h, uses)[2] == h[3] && (h + Ins(uses))[2] == h[2];
  }

  lemma {:induction false} OvertakesCrowded<T>(h: seq<Entry<T>>, uses: seq<Use<T>>, p: int)
    requires HavePriority(h, p) && HavePriority(Ins(uses), p) && After(h, uses) == []
    requires Crowded(h, uses) && Distinct(h + Ins(uses))
    ensures Outs(h, uses) != h + Ins(uses)
    decreases |uses|
  {
    hide Used, Distinct, HavePriority;
    var use, rest := uses[0], uses[1..];
    InsUnfold(uses, p);
    StepOfEquals(h, use, p);
    if use.In? {
      assert (h + [use.e]) + Ins(rest) == h + Ins(uses);
      OvertakesCrowded(Used(h, use), rest, p);
    } else if |h| > 3 {
      FourthOvertakes(h, uses, p);
    } else if h == [] {
      EmptyOut<T>();
      OvertakesCrowded([], rest, p);
    } else {
      DistinctTail(h, Ins(rest));
      OvertakesCrowded(h[1..], rest, p);
      OneMoreInFront(h, Ins(rest), Outs(h[1..], rest));
    }
  }

  lemma {:induction false} OneMoreInFront<T>(h: seq<T>, es: seq<T>, outs: seq<T>)
    requires h != [] && outs != h[1..] + es
    ensures [h[0]] + outs != h + es
  {
    assert ([h[0]] + outs)[1..] == outs && (h + es)[1..] == h[1..] + es;
  }

  lemma {:induction false} DistinctTail<T>(h: seq<Entry<T>>, es: seq<Entry<T>>)
    requires h != [] && Distinct(h + es)
    ensures Distinct(h[1..] + es)
  {
    var all, tail := h + es, h[1..] + es;
    assert tail == all[1..];
    assert forall i | 0 <= i < |tail| :: tail[i] == all[i + 1];
  }

  /**
   * A queue that is used for distinct entries of one priority until it is empty
   * again gives them back in the order of their insertion if and only if no
   * extraction ever finds more than three entries.
   */
  lemma {:induction false} InOrderExactly<T>(uses: seq<Use<T>>, p: int)
    requires HavePriority(Ins(uses), p) && Distinct(Ins(uses)) && After([], uses) == []
    ensures Outs([], uses) == Ins(uses) <==> !Crowded([], uses)
  {
    assert [] + Ins(uses) == Ins(uses);
    if Crowded([], uses) {
      OvertakesCrowded([], uses, p);
    } else {
      InOrderUncrowded([], uses, p);
      assert Outs([], uses) + [] == Outs([], uses);
    }
  }

  lemma {:induction false} FourthComesThird<T>(h: seq<Entry<T>>)
    requires AllEqual(h) && |h| >= 4
    ensures |PopAll(h)| >= 3 && PopAll(h)[2] == h[3]
  {
    hide Pop, AllEqual;
    PopOfEquals(h);
    PopOfEquals(Pop(h));
    var rest := PopAll(Pop(Pop(h)));
    assert PopAll(h) == [h[0]] + ([h[1]] + rest) && rest[0] == h[3];
  }

  /**
   * Entries of equal priority come out in the order in which they went in if and
   * only if there are at most three of them.
   */
  lemma {:induction false} EqualsInOrderExactly<T>(es: seq<Entry<T>>)
    requires AllEqual(es) && forall i, j | 0 <= i < j < |es| :: es[i] != es[j]
    ensures PopAll(PushAll([], es)) == es <==> |es| <= 3
  {
    hide PopAll, PushAll;
    assert [] + es == es;
    EqualsPile([], es);
    if |es| <= 3 {
      FewInOrder(es);
    } else {
      FourthComesThird(es);
    }
  }

  /** Four entries of equal priority, of which the fourth overtakes the third. */
  lemma EqualPrioritiesOvertake()
    ensures PopAll(PushAll([], [Entry(1, 1), Entry(2, 1), Entry(3, 1), Entry(4, 1)]))
            == [Entry(1, 1), Entry(2, 1), Entry(4, 1), Entry(3, 1)]
  {
    var a, b, c, d := Entry(1, 1), Entry(2, 1), Entry(3, 1), Entry(4, 1);
    EqualsPile([], [a, b, c, d]);
    assert [] + [a, b, c, d] == [a, b, c, d];
    FourPopped(a, b, c, d);
  }

  lemma FourPopped<T>(a: Entry<T>, b: Entry<T>, c: Entry<T>, d: Entry<T>)
    requires a.priority == b.priority == c.priority == d.priority
    ensures PopAll([a, b, c, d]) == [a, b, d, c]
  {
    assert [a, b, c, d][0 := d] == [d, b, c, d] && Swap([d, b, c, d], 0, 1) == [b, d, c, d];
    assert Sift([b, d, c, d], 3, 1) == [b, d, c, d] && [b, d, c, d][..3] == [b, d, c];
    assert Pop([a, b, c, d]) == [b, d, c];
    assert [b, d, c][0 := c] == [c, d, c] && Swap([c, d, c], 0, 1) == [d, c, c];
    assert Pop([b, d, c]) == [d, c];
    assert [d, c][0 := c] == [c, c] && Pop([d, c]) == [c];
    assert [c][0 := c] == [c] && Pop([c]) == [];
    assert PopAll([c]) == [c] + PopAll(Pop([c]));
    assert PopAll([d, c]) == [d] + PopAll([c]);
    assert PopAll([b, d, c]) == [b] + PopAll([d, c]);
  }

  // ---------- Entries of any priority ----------

  /** x comes before y. */
  ghost predicate Before<T>(out: seq<Entry<T>>, x: Entry<T>, y: Entry<T>) {
    exists p, q :: 0 <= p < q < |out| && out[p] == x && out[q] == y
  }

  /** Entries of equal priority come out in the order in which they went in. */
  ghost predicate KeepsEquals<T>(es: seq<Entry<T>>, out: seq<Entry<T>>) {
    forall i, j | 0 <= i < j < |es| && es[i].priority == es[j].priority :: Before(out, es[i], es[j])
  }

  /** Entries no smaller than all before them pile up at the end. */
  lemma {:induction false} LargerPile<T>(h: seq<Entry<T>>, rest: seq<Entry<T>>, p: int)
    requires HavePriority(rest, p) && forall i | 0 <= i < |h| :: h[i].priority <= p
    ensures PushAll(h, rest) == h + rest
    decreases |rest|
  {
    if rest == [] {
      assert h + rest == h;
    } else {
      var e := rest[0];
      assert (h + [e])[|h|] == e;
      assert Push(h, e) == h + [e];
      LargerPile(h + [e], rest[1..], p);
      assert h + rest == (h + [e]) + rest[1..];
    }
  }

  /** Of two equal entries the later one overtakes when a smaller one is inserted after them. */
  lemma {:induction false} SmallerTurnsEqualsRound<T>(
      a: Entry<T>, b: Entry<T>, c: Entry<T>, rest: seq<Entry<T>>, p: int)
    requires c.priority < a.priority == b.priority < p && HavePriority(rest, p)
    ensures var out := PopAll(PushAll([], [a, b, c] + rest)); |out| >= 2 && out[0] == c && out[1] == b
  {
    ThreePushed(a, b, c);
    PushAllSplits([], [a, b, c], rest);
    LargerPile([c, b, a], rest, p);
    var h := [c, b, a] + rest;
    SecondComesUp(h);
    PopCorrect(h);
    assert PopAll(h) == [c] + PopAll(Pop(h));
    assert PopAll(Pop(h)) == [Pop(h)[0]] + PopAll(Pop(Pop(h)));
  }

  lemma {:induction false} ThreePushed<T>(a: Entry<T>, b: Entry<T>, c: Entry<T>)
    requires c.priority < a.priority == b.priority
    ensures PushAll([], [a, b, c]) == [c, b, a]
  {
    assert Push([], a) == [a] && Push([a], b) == [a, b];
    assert ([a, b] + [c])[2 := a][0 := c] == [c, b, a];
    assert Push([a, b], c) == [c, b, a];
    assert [a, b, c][1..] == [b, c] && [b, c][1..] == [c];
    assert PushAll([a, b], [c]) == [c, b, a];
    assert PushAll([a], [b, c]) == PushAll([a, b], [c]);
  }

  lemma {:induction false} PushAllSplits<T>(h: seq<Entry<T>>, es: seq<Entry<T>>, fs: seq<Entry<T>>)
    ensures PushAll(h, es + fs) == PushAll(PushAll(h, es), fs)
    decreases |es|
  {
    if es == [] {
      assert es + fs == fs;
    } else {
      assert (es + fs)[1..] == es[1..] + fs;
      PushAllSplits(Push(h, es[0]), es[1..], fs);
    }
  }

  /** The second entry follows the first when it is not larger than the third and the last. */
  lemma {:induction false} SecondComesUp<T>(h: seq<Entry<T>>)
    requires |h| >= 3 && h[1].priority <= h[2].priority && h[1].priority <= h[|h| - 1].priority
    ensures |Pop(h)| == |h| - 1 && Pop(h)[0] == h[1]
  {
    var n := |h| - 1;
    var g := h[0 := h[n]];
    assert Sift(g, n, 0) == Sift(Swap(g, 0, 1), n, 1);
    SiftLeavesBefore(Swap(g, 0, 1), n, 1, 0);
  }

  lemma {:induction false} SameOrderKeeps<T>(es: seq<Entry<T>>)
    ensures KeepsEquals(es, es)
  {
    forall i, j | 0 <= i < j < |es|
      ensures Before(es, es[i], es[j])
    {
    }
  }

  lemma {:induction false} TwoStayInOrder<T>(es: seq<Entry<T>>)
    requires |es| <= 2
    ensures KeepsEquals(es, PopAll(PushAll([], es)))
  {
    hide PopAll, PushAll, Before;
    if AllEqual(es) {
      assert [] + es == es;
      EqualsPile([], es);
      FewInOrder(es);
      SameOrderKeeps(es);
    }
  }

  /** A list of n entries that is not given back in order, for each n from three on. */
  function Disorder(n: nat): seq<Entry<int>>
    requires n >= 3
  {
    [Entry(0, 1), Entry(1, 1), Entry(2, 0)] + seq(n - 3, i requires 0 <= i < n - 3 => Entry(i + 3, 2))
  }

  lemma DisorderFails(n: nat)
    requires n >= 3
    ensures |Disorder(n)| == n && Distinct(Disorder(n)) && !KeepsEquals(Disorder(n), PopAll(PushAll([], Disorder(n))))
  {
    var es := Disorder(n);
    var out := PopAll(PushAll([], es));
    SmallerTurnsEqualsRound(es[0], es[1], es[2], seq(n - 3, i requires 0 <= i < n - 3 => Entry(i + 3, 2)), 2);
    InsertThenExtractSorts(es);
    OnceEach(es, out, 1, es[1]);
    assert !Before(out, es[0], es[1]);
  }

  /** A permutation of distinct entries has each in one place. */
  lemma {:induction false} OnceEach<T>(es: seq<Entry<T>>, out: seq<Entry<T>>, p: nat, x: Entry<T>)
    requires Distinct(es) && multiset(out) == multiset(es) && p < |out| && out[p] == x
    ensures forall q | 0 <= q < |out| && out[q] == x :: q == p
  {
    forall q | 0 <= q < |out| && out[q] == x
      ensures q == p
    {
      if q != p {
        TwiceCounts(out, if p < q then p else q, if p < q then q else p);
        assert x in multiset(out) && x in es;
        DistinctCounts(es, x);
      }
    }
  }

  lemma {:induction false} TwiceCounts<T>(s: seq<T>, p: nat, q: nat)
    requires p < q < |s| && s[p] == s[q]
    ensures multiset(s)[s[p]] >= 2
  {
    assert s == s[..q] + s[q..] && s[p] in s[..q] && s[p] in s[q..];
  }

  lemma {:induction false} DistinctCounts<T>(es: seq<Entry<T>>, x: Entry<T>)
    requires Distinct(es)
    ensures multiset(es)[x] <= 1
    decreases |es|
  {
    if es != [] {
      assert es == [es[0]] + es[1..];
      DistinctCounts(es[1..], x);
      assert forall k | 1 <= k < |es| :: es[k] != es[0];
      assert es[0] !in es[1..];
    }
  }

  /**
   * The promise of the header, for queues that are filled and then emptied: equal
   * entries come out in the order of their insertion from every list of n distinct
   * entries if and only if n is at most two.
   */
  lemma EqualsKeepOrderExactly(n: nat)
    ensures (forall es: seq<Entry<int>> | |es| == n && Distinct(es) :: KeepsEquals(es, PopAll(PushAll([], es))))
        <==> n <= 2
  {
    if n <= 2 {
      forall es: seq<Entry<int>> | |es| == n && Distinct(es)
        ensures KeepsEquals(es, PopAll(PushAll([], es)))
      {
        TwoStayInOrder(es);
      }
    } else {
      DisorderFails(n);
    }
  }

  // ---------- Preemption among equals ----------

  /**
   * n preemptions and nothing else: each puts the active entry into the queue and
   * extracts the next one.
   */
  function Rounds<T>(active: Entry<T>, h: seq<Entry<T>>, n: nat): (Entry<T>, seq<Entry<T>>)
    decreases n
  {
    if n == 0 then (active, h)
    else
      var (a, r) := Rounds(active, h, n - 1);
      var g := Push(r, a);
      (g[0], Pop(g))
  }

  /** The runnable entries, the active one first. */
  function Runnable<T>(active: Entry<T>, h: seq<Entry<T>>): seq<Entry<T>> {
    [active] + h
  }

  /** x is active at some point of the |h| + 1 rounds that begin with round m. */
  ghost predicate RunsFrom<T>(active: Entry<T>, h: seq<Entry<T>>, m: nat, x: Entry<T>) {
    exists n: nat :: m <= n <= m + |h| && Rounds(active, h, n).0 == x
  }

  /** One preemption among equals: the first one runs, and from four on the third one stays the third. */
  lemma {:induction false} RoundOfEquals<T>(a: Entry<T>, r: seq<Entry<T>>)
    requires HavePriority(r, a.priority) && r != []
    ensures var g := Push(r, a);
            && g == r + [a] && g[0] == r[0] && |Pop(g)| == |r|
            && HavePriority(Pop(g), a.priority) && multiset(Runnable(g[0], Pop(g))) == multiset(Runnable(a, r))
            && (|r| <= 2 ==> Pop(g) == r[1..] + [a])
            && (|r| >= 3 ==> Pop(g)[2] == r[2])
  {
    hide Pop, Push, HavePriority, AllEqual, Runnable;
    PushOfEquals(r, a);
    var g := r + [a];
    OneMore(r, a);
    PopKeepsPriority(g, a.priority);
    BagOfRound(r, a);
    if |r| <= 2 {
      FewInOrderPop(g);
      assert g[1..] == r[1..] + [a];
    } else {
      ThirdStays(g);
    }
  }

  lemma {:induction false} OneMore<T>(r: seq<Entry<T>>, a: Entry<T>)
    requires HavePriority(r, a.priority)
    ensures HavePriority(r + [a], a.priority) && AllEqual(r + [a])
  {
  }

  lemma {:induction false} BagOfRound<T>(r: seq<Entry<T>>, a: Entry<T>)
    requires r != []
    ensures |Pop(r + [a])| == |r| && multiset(Runnable(r[0], Pop(r + [a]))) == multiset(Runnable(a, r))
  {
    hide Pop;
    var g := r + [a];
    PopCorrect(g);
    assert g[0] in multiset(g);
    assert multiset([g[0]] + Pop(g)) == multiset{g[0]} + multiset(Pop(g));
  }

  lemma {:induction false} FewInOrderPop<T>(g: seq<Entry<T>>)
    requires AllEqual(g) && 2 <= |g| <= 3
    ensures Pop(g) == g[1..]
  {
    hide Pop;
    PopOfEquals(g);
  }

  lemma {:induction false} ThirdStays<T>(g: seq<Entry<T>>)
    requires AllEqual(g) && |g| >= 4
    ensures |Pop(g)| == |g| - 1 && Pop(g)[2] == g[2]
  {
    var n := |g| - 1;
    var g0 := g[0 := g[n]];
    var g1 := Swap(g0, 0, 1);
    assert Sift(g0, n, 0) == Sift(g1, n, 1);
    if n > 3 {
      var g3 := Swap(g1, 1, 3);
      assert Sift(g1, n, 1) == Sift(g3, n, 3);
      SiftLeavesBefore(g3, n, 3, 2);
    }
  }

  /** What preemption among equals keeps, and who it passes over. */
  lemma {:induction false} RoundsKeep<T>(active: Entry<T>, h: seq<Entry<T>>, n: nat)
    requires HavePriority(h, active.priority) && h != []
    ensures var (a, r) := Rounds(active, h, n);
            && |r| == |h| && a.priority == active.priority && HavePriority(r, a.priority)
            && multiset(Runnable(a, r)) == multiset(Runnable(active, h))
            && (|h| >= 3 ==> r[2] == h[2])
    decreases n
  {
    hide Pop, Push, Runnable;
    if n > 0 {
      var (a, r) := Rounds(active, h, n - 1);
      RoundsKeep(active, h, n - 1);
      RoundOfEquals(a, r);
    }
  }

  lemma {:induction false} RoundsAdd<T>(active: Entry<T>, h: seq<Entry<T>>, m: nat, n: nat)
    ensures var (a, r) := Rounds(active, h, m); Rounds(active, h, m + n) == Rounds(a, r, n)
    decreases n
  {
    hide Pop, Push;
    if n > 0 {
      RoundsAdd(active, h, m, n - 1);
    }
  }

  /** With at most three runnable entries everyone has a turn, whatever round one starts to wait in. */
  lemma {:induction false} FewTakeTurns<T>(active: Entry<T>, h: seq<Entry<T>>, m: nat, x: Entry<T>)
    requires HavePriority(h, active.priority) && |h| <= 2 && x in Runnable(active, h)
    ensures RunsFrom(active, h, m, x)
  {
    hide Pop, Push;
    var (a, r) := Rounds(active, h, m);
    TurnsKeep(active, h, m);
    assert x in multiset(Runnable(active, h)) && x in multiset(Runnable(a, r)) && x in Runnable(a, r);
    var k :| 0 <= k < |Runnable(a, r)| && Runnable(a, r)[k] == x;
    TurnsCome(a, r, k);
    RoundsAdd(active, h, m, k);
    assert Rounds(active, h, m + k).0 == x;
  }

  lemma {:induction false} TurnsKeep<T>(active: Entry<T>, h: seq<Entry<T>>, m: nat)
    requires HavePriority(h, active.priority)
    ensures var (a, r) := Rounds(active, h, m);
            && |r| == |h| && HavePriority(r, a.priority)
            && multiset(Runnable(a, r)) == multiset(Runnable(active, h))
  {
    if h == [] {
      AloneAgain(active, m);
    } else {
      RoundsKeep(active, h, m);
    }
  }

  lemma {:induction false} AloneAgain<T>(active: Entry<T>, m: nat)
    ensures Rounds(active, [], m) == (active, [])
    decreases m
  {
    if m > 0 {
      AloneAgain(active, m - 1);
      assert Push([], active) == [active];
      PopCorrect([active]);
    }
  }

  lemma {:induction false} TurnsCome<T>(a: Entry<T>, r: seq<Entry<T>>, k: nat)
    requires HavePriority(r, a.priority) && |r| <= 2 && k <= |r|
    ensures Rounds(a, r, k).0 == Runnable(a, r)[k]
  {
    hide Pop, Push;
    if k >= 1 {
      RoundOfEquals(a, r);
      assert Rounds(a, r, 1) == (r[0], r[1..] + [a]);
      if k == 2 {
        RoundOfEquals(r[0], r[1..] + [a]);
      }
    }
  }

  /** With four or more the one in slot 2 never has. */
  lemma {:induction false} ThirdStarves<T>(active: Entry<T>, h: seq<Entry<T>>, n: nat)
    requires HavePriority(h, active.priority) && |h| >= 3 && Distinct(Runnable(active, h))
    ensures Rounds(active, h, n).0 != h[2]
  {
    hide Rounds;
    RoundsKeep(active, h, n);
    var (a, r) := Rounds(active, h, n);
    if a == h[2] {
      assert Runnable(a, r)[0] == a && Runnable(a, r)[3] == a;
      TwiceCounts(Runnable(a, r), 0, 3);
      DistinctCounts(Runnable(active, h), a);
    }
  }

  /**
   * Under preemption alone everyone of equal priority has a turn in each sequence of
   * as many rounds as there are runnable entries if and only if there are at most
   * three of them. From four on one of them never runs.
   */
  lemma {:induction false} TurnsExactly<T(!new)>(active: Entry<T>, h: seq<Entry<T>>)
    requires HavePriority(h, active.priority) && Distinct(Runnable(active, h))
    ensures (forall x: Entry<T>, m: nat | x in Runnable(active, h) :: RunsFrom(active, h, m, x))
        <==> |Runnable(active, h)| <= 3
  {
    if |h| <= 2 {
      forall x: Entry<T>, m: nat | x in Runnable(active, h)
        ensures RunsFrom(active, h, m, x)
      {
        FewTakeTurns(active, h, m, x);
      }
    } else {
      var x := h[2];
      assert Runnable(active, h)[3] == x;
      forall n: nat
        ensures Rounds(active, h, n).0 != x
      {
        ThirdStarves(active, h, n);
      }
      assert !RunsFrom(active, h, 0, x);
    }
  }
}
