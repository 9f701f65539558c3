/**
 * Heights and balance: with the child-first rotation every operation keeps an
 * AVL tree one. AvlWritten says what the written order does.
 */
module AvlBalance {
  import opened AvlShape

  /** A node with exact heights and balanced children, at most one step out of balance. */
  ghost predicate NearAvl<V>(t: Tree<V>) {
    && t.Branch? && Exact(t)
    && Balanced(t.left) && Balanced(t.right)
    && -2 <= Balance(t) <= 2
  }

  /** What a repair of `t` gives: a balanced node, lower by `drop` levels. */
  ghost predicate Repaired<V>(t: Tree<V>, r: Tree<V>, drop: int) {
    Exact(r) && Balanced(r) && TrueHeight(r) == TrueHeight(t) - drop
  }

  lemma {:induction false} RotateRightExact<V>(t: Tree<V>)
    requires CanRotateRight(t) && Exact(t.left) && Exact(t.right)
    ensures Exact(RotateRight(t, ChildFirst)) && Exact(RotateRight(t, ChildFirst).right)
  {
  }

  lemma {:induction false} RotateLeftExact<V>(t: Tree<V>)
    requires CanRotateLeft(t) && Exact(t.left) && Exact(t.right)
    ensures Exact(RotateLeft(t)) && Exact(RotateLeft(t).left)
  {
  }

  /** One right rotation repairs a left-heavy node whose left child does not lean right. */
  lemma {:induction false} SingleRight<V>(t: Tree<V>)
    requires CanRotateRight(t) && NearAvl(t) && Balance(t) == 2 && Balance(t.left) >= 0
    ensures Repaired(t, RotateRight(t, ChildFirst), if Balance(t.left) == 0 then 0 else 1)
  {
    var x, r := t.left, RotateRight(t, ChildFirst);
    assert Exact(x) && Balanced(x) && Exact(x.left) && Exact(x.right) && Exact(t.right);
    RotateRightExact(t);
    assert Balanced(r.right);
  }

  lemma {:induction false} SingleLeft<V>(t: Tree<V>)
    requires CanRotateLeft(t) && NearAvl(t) && Balance(t) == -2 && Balance(t.right) <= 0
    ensures Repaired(t, RotateLeft(t), if Balance(t.right) == 0 then 0 else 1)
  {
    var y, r := t.right, RotateLeft(t);
    assert Exact(y) && Balanced(y) && Exact(y.left) && Exact(y.right) && Exact(t.left);
    RotateLeftExact(t);
    assert Balanced(r.left);
  }

  /** A double rotation repairs a left-heavy node whose left child leans right. */
  lemma {:induction false} DoubleRight<V>(t: Tree<V>)
    requires t.Branch? && CanRotateLeft(t.left) && NearAvl(t) && Balance(t) == 2 && Balance(t.left) < 0
    ensures Repaired(t, RotateRight(t.(left := RotateLeft(t.left)), ChildFirst), 1)
  {
    var x := t.left;
    var z := x.right;
    var u := t.(left := RotateLeft(x));
    var r := RotateRight(u, ChildFirst);
    assert Exact(x) && Balanced(x) && Exact(x.left) && Exact(z) && Balanced(z) && Exact(t.right);
    assert Exact(z.left) && Exact(z.right);
    RotateLeftExact(x);
    RotateRightExact(u);
    assert r.left.left == x.left && r.left.right == z.left && r.right.left == z.right && r.right.right == t.right;
    assert Exact(r.left) && Exact(r.right) && Balanced(r.left) && Balanced(r.right);
  }

  lemma {:induction false} DoubleLeft<V>(t: Tree<V>)
    requires t.Branch? && CanRotateRight(t.right) && NearAvl(t) && Balance(t) == -2 && Balance(t.right) > 0
    ensures Repaired(t, RotateLeft(t.(right := RotateRight(t.right, ChildFirst))), 1)
  {
    var y := t.right;
    var z := y.left;
    var u := t.(right := RotateRight(y, ChildFirst));
    var r := RotateLeft(u);
    assert Exact(y) && Balanced(y) && Exact(y.right) && Exact(z) && Balanced(z) && Exact(t.left);
    assert Exact(z.left) && Exact(z.right);
    RotateRightExact(y);
    RotateLeftExact(u);
    assert r.left.left == t.left && r.left.right == z.left && r.right.left == z.right && r.right.right == y.right;
    assert Exact(r.left) && Exact(r.right) && Balanced(r.left) && Balanced(r.right);
  }

  lemma {:induction false} FixRemoveRepairs<V>(t: Tree<V>)
    requires NearAvl(t)
    ensures Repaired(t, FixRemove(t, ChildFirst),
                     if (Balance(t) == 2 && Balance(t.left) != 0) || (Balance(t) == -2 && Balance(t.right) != 0)
                     then 1 else 0)
    ensures -1 <= Balance(t) <= 1 ==> FixRemove(t, ChildFirst) == t
  {
    assert Exact(t.left) && Exact(t.right);
    if Balance(t) == 2 {
      assert t.left.Branch? && Exact(t.left.left) && Exact(t.left.right);
      if Balance(t.left) >= 0 { SingleRight(t); } else { DoubleRight(t); }
    } else if Balance(t) == -2 {
      assert t.right.Branch? && Exact(t.right.left) && Exact(t.right.right);
      if Balance(t.right) <= 0 { SingleLeft(t); } else { DoubleLeft(t); }
    }
  }

  /** The side of a node that a key belongs to is the deeper one, by one level. */
  ghost predicate LeansTo<V>(t: Tree<V>, key: int) {
    t.Branch? && ((key < t.key && Balance(t) == 1) || (key > t.key && Balance(t) == -1))
  }

  lemma {:induction false} FixInsertRepairs<V>(t: Tree<V>, key: int)
    requires NearAvl(t)
    requires Balance(t) == 2 ==> LeansTo(t.left, key)
    requires Balance(t) == -2 ==> LeansTo(t.right, key)
    ensures Repaired(t, FixInsert(t, key, ChildFirst), if -1 <= Balance(t) <= 1 then 0 else 1)
    ensures -1 <= Balance(t) <= 1 ==> FixInsert(t, key, ChildFirst) == t
  {
    assert Exact(t.left) && Exact(t.right);
    if Balance(t) == 2 {
      assert Exact(t.left.left) && Exact(t.left.right);
      if key < t.left.key { SingleRight(t); } else { DoubleRight(t); }
    } else if Balance(t) == -2 {
      assert Exact(t.right.left) && Exact(t.right.right);
      if key > t.right.key { SingleLeft(t); } else { DoubleLeft(t); }
    }
  }

  /** Insertion keeps exact heights and balance and raises the height by at most one. */
  lemma {:induction false} InsertHeights<V>(t: Tree<V>, key: int, value: V)
    requires Exact(t) && Balanced(t)
    ensures var r := Insert(t, key, value, ChildFirst);
            && Exact(r) && Balanced(r)
            && TrueHeight(t) <= TrueHeight(r) <= TrueHeight(t) + 1
            && (t.Branch? && TrueHeight(r) == TrueHeight(t) + 1 ==> LeansTo(r, key))
    decreases t
  {
    if t.Branch? && key != t.key {
      var child := if key < t.key then t.left else t.right;
      InsertHeights(child, key, value);
      var u := Update(if key < t.key then t.(left := Insert(child, key, value, ChildFirst))
                                     else t.(right := Insert(child, key, value, ChildFirst)));
      assert Exact(t.left) && Exact(t.right) && Exact(u.left) && Exact(u.right) && Exact(u);
      FixInsertRepairs(u, key);
    }
  }

  /** `avl_insert` with the child-first rotation keeps an AVL tree one. */
  lemma {:induction false} InsertKeepsAvl<V>(t: Tree<V>, key: int, value: V)
    requires Avl(t)
    ensures var r := Insert(t, key, value, ChildFirst);
            Avl(r) && TrueHeight(t) <= TrueHeight(r) <= TrueHeight(t) + 1
  {
    ExactIsPositive(t);
    InsertContents(t, key, value, ChildFirst);
    InsertHeights(t, key, value);
  }

  /** On an AVL tree every rotation that a child-first insertion selects has its children. */
  lemma {:induction false} InsertIsSafe<V>(t: Tree<V>, key: int, value: V)
    requires Exact(t) && Balanced(t)
    ensures InsertSafe(t, key, value, ChildFirst)
    decreases t
  {
    if t.Branch? && key != t.key {
      var child := if key < t.key then t.left else t.right;
      InsertIsSafe(child, key, value);
      InsertHeights(child, key, value);
      var c := Insert(child, key, value, ChildFirst);
      var u := if key < t.key then t.(left := c) else t.(right := c);
      assert Exact(t.left) && Exact(t.right) && Exact(c);
      if c.Branch? {
        assert Exact(c.left) && Exact(c.right);
      }
      assert FixSafe(Update(u), key);
    }
  }

  lemma {:induction false} ExactIsPositive<V>(t: Tree<V>)
    requires Exact(t)
    ensures Positive(t)
    decreases t
  {
    if t.Branch? {
      ExactIsPositive(t.left);
      ExactIsPositive(t.right);
    }
  }

  /** One child lost at most one level: the repaired node loses at most one as well. */
  lemma {:induction false} RepairAfterRemove<V>(t: Tree<V>, u: Tree<V>)
    requires t.Branch? && u.Branch? && Exact(t) && Balanced(t)
    requires Exact(u.left) && Exact(u.right) && Balanced(u.left) && Balanced(u.right)
    requires TrueHeight(t.left) - 1 <= TrueHeight(u.left) <= TrueHeight(t.left)
    requires TrueHeight(t.right) - 1 <= TrueHeight(u.right) <= TrueHeight(t.right)
    requires u.left == t.left || u.right == t.right
    ensures var r := FixRemove(Update(u), ChildFirst);
            && Exact(r) && Balanced(r)
            && TrueHeight(t) - 1 <= TrueHeight(r) <= TrueHeight(t)
  {
    assert Exact(t.left) && Exact(t.right) && Exact(Update(u));
    FixRemoveRepairs(Update(u));
  }

  /** The splice case: the remaining child takes the place of the node. */
  lemma {:induction false} SpliceHeights<V>(t: Tree<V>)
    requires t.Branch? && Exact(t) && Balanced(t) && (t.left.Leaf? || t.right.Leaf?)
    ensures var child := if t.left.Leaf? then t.right else t.left;
            && Exact(child) && Balanced(child) && TrueHeight(child) == TrueHeight(t) - 1
            && (child.Branch? ==> FixRemove(Update(child), ChildFirst) == child)
  {
  }

  /** Removal keeps exact heights and balance and lowers the height by at most one. */
  lemma {:induction false} RemoveHeights<V>(t: Tree<V>, key: int)
    requires Exact(t) && Balanced(t)
    ensures var r := Remove(t, key, ChildFirst);
            && Exact(r) && Balanced(r)
            && TrueHeight(t) - 1 <= TrueHeight(r) <= TrueHeight(t)
    decreases t
  {
    if t.Leaf? {
    } else if key != t.key {
      var child := if key < t.key then t.left else t.right;
      RemoveHeights(child, key);
      var u := if key < t.key then t.(left := Remove(child, key, ChildFirst))
               else t.(right := Remove(child, key, ChildFirst));
      RepairAfterRemove(t, u);
      assert Remove(t, key, ChildFirst) == FixRemove(Update(u), ChildFirst);
    } else if t.left.Branch? && t.right.Branch? {
      var least := Least(t.right);
      RemoveHeights(t.right, least.key);
      var u := t.(key := least.key, value := least.value, right := Remove(t.right, least.key, ChildFirst));
      RepairAfterRemove(t, u);
      assert Remove(t, key, ChildFirst) == FixRemove(Update(u), ChildFirst);
    } else {
      SpliceHeights(t);
    }
  }

  lemma {:induction false} RemoveKeepsAvl<V>(t: Tree<V>, key: int)
    requires Avl(t)
    ensures var r := Remove(t, key, ChildFirst);
            Avl(r) && TrueHeight(t) - 1 <= TrueHeight(r) <= TrueHeight(t)
  {
    ExactIsPositive(t);
    RemoveContents(t, key, ChildFirst);
    RemoveHeights(t, key);
  }

  function Fib(n: nat): nat {
    if n < 2 then n else Fib(n - 1) + Fib(n - 2)
  }

  lemma {:induction false} FibGrows(n: nat)
    ensures Fib(n) <= Fib(n + 1)
  {
  }

  lemma {:induction false} DisjointSize<V>(l: map<int, V>, r: map<int, V>, key: int, value: V)
    requires l.Keys !! r.Keys && key !in l && key !in r
    ensures |(l + r)[key := value]| == |l| + |r| + 1
  {
  }

  lemma {:induction false} ModelSize<V>(t: Tree<V>)
    requires t.Branch? && Ordered(t)
    ensures |Model(t)| == |Model(t.left)| + |Model(t.right)| + 1
  {
    var l, r := Model(t.left), Model(t.right);
    assert forall k <- l.Keys :: k < t.key && (k in r.Keys ==> t.key < k);
    DisjointSize(Model(t.left), Model(t.right), t.key, t.value);
  }

  /** An AVL tree of height h holds at least Fib(h + 2) - 1 keys, so lookups are logarithmic. */
  lemma {:induction false} HeightBound<V>(t: Tree<V>)
    requires Ordered(t) && Balanced(t)
    ensures |Model(t)| + 1 >= Fib(TrueHeight(t) + 2)
    decreases t
  {
    if t.Branch? {
      HeightBound(t.left);
      HeightBound(t.right);
      ModelSize(t);
      FibGrows(TrueHeight(t));
      assert TrueHeight(t.left) + 1 == TrueHeight(t) || TrueHeight(t.right) + 1 == TrueHeight(t);
      FibStep(TrueHeight(t), TrueHeight(t.left), TrueHeight(t.right));
    }
  }

  lemma {:induction false} FibStep(h: nat, l: nat, r: nat)
    requires h == 1 + Max(l, r) && -1 <= l - r <= 1
    ensures Fib(l + 2) + Fib(r + 2) >= Fib(h + 2)
  {
  }
}
