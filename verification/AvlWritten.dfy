/**
 * The order in which the source has the two height updates of the right rotation
 * (`avltree.c`, lines 53 and 54: the new root first). When insertion and removal
 * still build the tree that the child-first order builds, and what can happen
 * when they do not.
 */
module AvlWritten {
  import opened AvlShape
  import opened AvlBalance

  /**
   * The written right rotation of a node with exact heights leaves them exact if
   * and only if its left side is not the deeper one. Insertion and removal call
   * it as their last step on deeper left sides only.
   */
  lemma {:induction false} WrittenRotationExact<V>(t: Tree<V>)
    requires CanRotateRight(t) && Exact(t)
    ensures Exact(RotateRight(t, RootFirst)) <==> Balance(t) <= 0
    ensures Balance(t) > 0 ==> RotateRight(t, RootFirst).height > TrueHeight(RotateRight(t, RootFirst))
  {
  }

  /** The written order and the child-first order give trees with the same contents. */
  lemma {:induction false} OrdersAgreeOnContents<V>(t: Tree<V>, key: int, value: V)
    requires Searchable(t)
    ensures Model(Insert(t, key, value, RootFirst)) == Model(Insert(t, key, value, ChildFirst))
    ensures Model(Remove(t, key, RootFirst)) == Model(Remove(t, key, ChildFirst))
  {
    InsertContents(t, key, value, RootFirst);
    InsertContents(t, key, value, ChildFirst);
    RemoveContents(t, key, RootFirst);
    RemoveContents(t, key, ChildFirst);
  }

  /** The deepest node on the search path of an absent key that leans to one side. */
  function Critical<V>(t: Tree<V>, key: int): Tree<V> {
    if t.Leaf? || key == t.key then Leaf
    else
      var below := Critical(if key < t.key then t.left else t.right, key);
      if below.Branch? then below else if Balance(t) != 0 then t else Leaf
  }

  /** An absent key that goes to the deeper, left side of the critical node. */
  ghost predicate TurnsRight<V>(t: Tree<V>, key: int) {
    && key !in Model(t)
    && var c := Critical(t, key); c.Branch? && Balance(c) > 0 && key < c.key
  }

  /** A node grows with a child exactly when it was level. */
  lemma {:induction false} GrowsAtNode<V>(t: Tree<V>, u: Tree<V>, key: int, growth: int)
    requires t.Branch? && Exact(t) && Balanced(t) && NearAvl(u) && 0 <= growth <= 1
    requires key < t.key ==> u.right == t.right && TrueHeight(u.left) == TrueHeight(t.left) + growth
    requires key >= t.key ==> u.left == t.left && TrueHeight(u.right) == TrueHeight(t.right) + growth
    requires Balance(u) == 2 ==> LeansTo(u.left, key)
    requires Balance(u) == -2 ==> LeansTo(u.right, key)
    ensures TrueHeight(FixInsert(u, key, ChildFirst)) == TrueHeight(t) + 1 <==> growth == 1 && Balance(t) == 0
  {
    FixInsertRepairs(u, key);
    hide FixInsert;
    assert Exact(t.left) && Exact(t.right) && Exact(u.left) && Exact(u.right);
  }

  /** Insertion raises the height exactly when the key is absent and nothing on its path leans. */
  lemma {:induction false} GrowsExactly<V>(t: Tree<V>, key: int, value: V)
    requires Avl(t)
    ensures TrueHeight(Insert(t, key, value, ChildFirst)) == TrueHeight(t) + 1 <==>
            key !in Model(t) && Critical(t, key).Leaf?
    decreases t
  {
    if t.Branch? && key != t.key {
      var child := if key < t.key then t.left else t.right;
      assert Avl(child) && (key in Model(t) <==> key in Model(child));
      GrowsExactly(child, key, value);
      InsertHeights(child, key, value);
      var c := Insert(child, key, value, ChildFirst);
      var u := Update(if key < t.key then t.(left := c) else t.(right := c));
      assert Exact(t.left) && Exact(t.right) && Exact(u.left) && Exact(u.right) && Exact(u);
      assert Insert(t, key, value, ChildFirst) == FixInsert(u, key, ChildFirst);
      GrowsAtNode(t, u, key, TrueHeight(c) - TrueHeight(child));
    }
  }

  /** A rotation always brings another key to the root. */
  lemma {:induction false} FixInsertMovesRoot<V>(t: Tree<V>, key: int, order: Order)
    requires t.Branch? && Searchable(t)
    ensures FixInsert(t, key, order) == t || FixInsert(t, key, order).key != t.key
  {
    assert t.left.Branch? ==> t.left.key in Model(t.left) && Searchable(t.left);
    assert t.right.Branch? ==> t.right.key in Model(t.right) && Searchable(t.right);
    if CanRotateLeft(t.left) {
      assert t.left.right.key in Model(t.left.right) && t.left.right.key in Model(t.left);
    }
    if CanRotateRight(t.right) {
      assert t.right.left.key in Model(t.right.left) && t.right.left.key in Model(t.right);
    }
  }

  /** Different subtrees give different results, rotated or not, when only one of them rotates. */
  lemma {:induction false} DifferenceStays<V>(u: Tree<V>, w: Tree<V>, key: int)
    requires u.Branch? && w.Branch? && Searchable(w) && u.key == w.key
    requires u.left != w.left || u.right != w.right
    requires FixInsert(u, key, ChildFirst) == u
    ensures FixInsert(w, key, RootFirst) != FixInsert(u, key, ChildFirst)
  {
    FixInsertMovesRoot(w, key, RootFirst);
  }

  /** At the critical node itself both orders rotate the same tree, and only a left side shows it. */
  lemma {:induction false} OrdersAtNode<V>(u: Tree<V>, key: int)
    requires NearAvl(u)
    requires Balance(u) == 2 ==> LeansTo(u.left, key)
    requires Balance(u) == -2 ==> LeansTo(u.right, key)
    ensures FixInsert(u, key, RootFirst) == FixInsert(u, key, ChildFirst) <==> Balance(u) != 2
  {
    assert Exact(u.left) && Exact(u.right);
    if Balance(u) == 2 {
      FixInsertRepairs(u, key);
      var v := if key < u.left.key then u else u.(left := RotateLeft(u.left));
      if key > u.left.key {
        assert Exact(u.left.left) && Exact(u.left.right);
        assert Exact(u.left.right.left) && Exact(u.left.right.right);
        RotateLeftExact(u.left);
      }
      WrittenHeight(v);
    } else if Balance(u) == -2 && key < u.right.key {
      assert Exact(u.right.left) && Exact(u.right.right);
    }
  }

  lemma {:induction false} WrittenHeight<V>(t: Tree<V>)
    requires CanRotateRight(t) && Exact(t.left) && Exact(t.right)
    requires t.height > TrueHeight(t.left.right) + 1 && t.height > TrueHeight(t.right) + 1
    requires t.height > TrueHeight(t.left.left)
    ensures RotateRight(t, RootFirst) != RotateRight(t, ChildFirst)
  {
  }

  /**
   * `avl_insert` as written gives the tree that the child-first order gives if and
   * only if the insertion does not end in a right rotation, which the tree before
   * the call decides.
   */
  lemma {:induction false} WrittenInsertExactly<V>(t: Tree<V>, key: int, value: V)
    requires Avl(t)
    ensures Insert(t, key, value, RootFirst) == Insert(t, key, value, ChildFirst) <==> !TurnsRight(t, key)
    decreases t
  {
    if t.Branch? && key != t.key {
      var child := if key < t.key then t.left else t.right;
      assert Avl(child) && Exact(t.left) && Exact(t.right);
      assert key in Model(t) <==> key in Model(child);
      WrittenInsertExactly(child, key, value);
      GrowsExactly(child, key, value);
      InsertHeights(child, key, value);
      ExactIsPositive(t);
      InsertContents(t, key, value, RootFirst);
      InsertContents(child, key, value, RootFirst);
      var c, d := Insert(child, key, value, ChildFirst), Insert(child, key, value, RootFirst);
      var u := Update(if key < t.key then t.(left := c) else t.(right := c));
      var w := Update(if key < t.key then t.(left := d) else t.(right := d));
      assert Exact(u.left) && Exact(u.right) && Exact(u);
      if TurnsRight(child, key) {
        FixInsertRepairs(u, key);
        if key < t.key { ReplaceLeft(t, d, key, value); } else { ReplaceRight(t, d, key, value); }
        DifferenceStays(u, w, key);
      } else {
        OrdersAtNode(u, key);
      }
    }
  }

  /** A key that a tree holds, but not at its root, is on the side that the comparison points to. */
  lemma {:induction false} KeyBelowRoot<V>(c: Tree<V>, key: int)
    requires c.Branch? && Ordered(c) && key in Model(c)
    ensures key < c.key ==> c.left.Branch?
    ensures key > c.key ==> c.right.Branch?
  {
  }

  /** The last lines of a written insertion, one of whose children may have grown by any amount. */
  lemma {:induction false} WrittenFixAtNode<V>(t: Tree<V>, u: Tree<V>, key: int)
    requires t.Branch? && Exact(t) && Balanced(t) && u.Branch? && u == Update(u) && u.key == t.key
    requires if key < t.key then u.right == t.right && Height(u.left) >= TrueHeight(t.left) && u.left.Branch?
             else u.left == t.left && Height(u.right) >= TrueHeight(t.right) && u.right.Branch? && key > t.key
    requires var c := if key < t.key then u.left else u.right;
             (key < c.key ==> c.left.Branch?) && (key > c.key ==> c.right.Branch?)
    ensures FixSafe(u, key) && Height(FixInsert(u, key, RootFirst)) >= TrueHeight(t)
  {
    assert Exact(t.left) && Exact(t.right);
  }

  /**
   * On an AVL tree the written insertion dereferences no null child either, and
   * leaves no stored height too low. The null dereference further down needs a
   * tree that an earlier insertion has damaged.
   */
  lemma {:induction false} WrittenInsertIsSafe<V>(t: Tree<V>, key: int, value: V)
    requires Avl(t)
    ensures InsertSafe(t, key, value, RootFirst)
    ensures Height(Insert(t, key, value, RootFirst)) >= TrueHeight(t)
    decreases t
  {
    if t.Branch? && key != t.key {
      var child := if key < t.key then t.left else t.right;
      assert Avl(child);
      WrittenInsertIsSafe(child, key, value);
      ExactIsPositive(child);
      InsertContents(child, key, value, RootFirst);
      var c := Insert(child, key, value, RootFirst);
      KeyBelowRoot(c, key);
      WrittenFixAtNode(t, Update(if key < t.key then t.(left := c) else t.(right := c)), key);
    }
  }

  /** Insertion as written keeps an AVL tree one whenever it does not turn right. */
  lemma {:induction false} WrittenInsertKeepsAvl<V>(t: Tree<V>, key: int, value: V)
    requires Avl(t) && !TurnsRight(t, key)
    ensures Avl(Insert(t, key, value, RootFirst))
  {
    WrittenInsertExactly(t, key, value);
    InsertKeepsAvl(t, key, value);
  }

  /** Numbers that only rise, as process numbers do, never turn right. */
  lemma {:induction false} RisingKeysKeepAvl<V>(t: Tree<V>, key: int, value: V)
    requires Avl(t) && forall k <- Model(t) :: k < key
    ensures Avl(Insert(t, key, value, RootFirst)) && InsertSafe(t, key, value, RootFirst)
  {
    RisingKeysTurnLeft(t, key);
    WrittenInsertKeepsAvl(t, key, value);
    WrittenInsertIsSafe(t, key, value);
  }

  lemma {:induction false} RisingKeysTurnLeft<V>(t: Tree<V>, key: int)
    requires Ordered(t) && forall k <- Model(t) :: k < key
    ensures Critical(t, key).Branch? ==> Critical(t, key).key < key
    decreases t
  {
    if t.Branch? {
      assert t.key in Model(t) && forall k <- Model(t.right) :: k in Model(t);
      RisingKeysTurnLeft(t.right, key);
    }
  }

  // ---------- Removal ----------

  /** The key that leaves the right subtree: the successor stands in for a key with two children. */
  function RightKey<V>(t: Tree<V>, key: int): int
    requires t.Branch? && (key > t.key || t.right.Branch?)
  {
    if key > t.key then key else Least(t.right).key
  }

  /** A node without two children whose own key is removed. */
  predicate Spliced<V>(t: Tree<V>, key: int) {
    t.Branch? && key == t.key && (t.left.Leaf? || t.right.Leaf?)
  }

  /** Whether a removal lowers the tree, told from the tree before the call. */
  predicate Shrinks<V>(t: Tree<V>, key: int) {
    if t.Leaf? then false
    else if Spliced(t, key) then true
    else if key < t.key then
      Shrinks(t.left, key) && (Balance(t) > 0 || (Balance(t) < 0 && t.right.Branch? && Balance(t.right) != 0))
    else
      && Shrinks(t.right, RightKey(t, key))
      && (Balance(t) < 0 || (Balance(t) > 0 && t.left.Branch? && Balance(t.left) != 0))
  }

  /**
   * Whether a removal ends a step on its path in a right rotation, told from the
   * tree before the call: the right subtree of a node that leans left gets lower.
   */
  predicate RemovalTurns<V>(t: Tree<V>, key: int) {
    if t.Leaf? || Spliced(t, key) then false
    else if key < t.key then RemovalTurns(t.left, key)
    else RemovalTurns(t.right, RightKey(t, key)) || (Shrinks(t.right, RightKey(t, key)) && Balance(t) > 0)
  }

  /** A node shrinks with a child when it leaned to that side, or when its repair costs a level. */
  lemma {:induction false} ShrinksAtNode<V>(t: Tree<V>, u: Tree<V>, left: bool)
    requires t.Branch? && u.Branch? && Exact(t) && Balanced(t) && u == Update(u)
    requires Exact(u.left) && Exact(u.right) && Balanced(u.left) && Balanced(u.right)
    requires if left then u.right == t.right && TrueHeight(t.left) - 1 <= TrueHeight(u.left) <= TrueHeight(t.left)
             else u.left == t.left && TrueHeight(t.right) - 1 <= TrueHeight(u.right) <= TrueHeight(t.right)
    ensures TrueHeight(FixRemove(u, ChildFirst)) == TrueHeight(t) - 1 <==>
            if left then
              && TrueHeight(u.left) < TrueHeight(t.left)
              && (Balance(t) > 0 || (Balance(t) < 0 && t.right.Branch? && Balance(t.right) != 0))
            else
              && TrueHeight(u.right) < TrueHeight(t.right)
              && (Balance(t) < 0 || (Balance(t) > 0 && t.left.Branch? && Balance(t.left) != 0))
    ensures NearAvl(u)
    ensures Balance(u) == 2 <==> !left && TrueHeight(u.right) < TrueHeight(t.right) && Balance(t) > 0
  {
    hide FixRemove;
    assert Exact(t.left) && Exact(t.right) && Exact(u);
    FixRemoveRepairs(u);
  }

  /** Removal lowers an AVL tree exactly when `Shrinks` says so. */
  lemma {:induction false} ShrinksExactly<V>(t: Tree<V>, key: int)
    requires Avl(t)
    ensures TrueHeight(Remove(t, key, ChildFirst)) == TrueHeight(t) - 1 <==> Shrinks(t, key)
    decreases t
  {
    if t.Branch? {
      hide FixRemove, BeforeFix, Remove, Update, TrueHeight, RightKey;
      assert Avl(t.left) && Avl(t.right);
      if Spliced(t, key) {
        SplicedAlike(t, key);
      } else {
        var left := key < t.key;
        var child, k := if left then t.left else t.right, if left then key else RightKey(t, key);
        ShrinksExactly(child, k);
        RemoveHeights(child, k);
        UnfoldRemoval(t, key, ChildFirst);
        ShrinksAtNode(t, BeforeFix(t, key, ChildFirst), left);
      }
    }
  }

  /** At one node the two orders part exactly when it has to be rotated to the right. */
  lemma {:induction false} OrdersAtRemoval<V>(u: Tree<V>)
    requires NearAvl(u)
    ensures FixRemove(u, RootFirst) == FixRemove(u, ChildFirst) <==> Balance(u) != 2
  {
    assert Exact(u.left) && Exact(u.right);
    if Balance(u) == 2 {
      assert Exact(u.left.left) && Exact(u.left.right);
      if Balance(u.left) < 0 {
        assert Exact(u.left.right.left) && Exact(u.left.right.right);
        RotateLeftExact(u.left);
        WrittenHeight(u.(left := RotateLeft(u.left)));
      } else {
        WrittenHeight(u);
      }
    } else if Balance(u) == -2 && Balance(u.right) > 0 {
      assert Exact(u.right.left) && Exact(u.right.right);
    }
  }

  /** The root of a rebalanced node tells which way it was rotated, if at all; the far subtree is kept. */
  lemma {:induction false} SidesOfRemoval<V>(t: Tree<V>, order: Order)
    requires t.Branch? && Searchable(t)
    ensures var r := FixRemove(t, order);
            || r == t
            || (Balance(t) > 1 && r.Branch? && r.key < t.key && r.right.Branch? && r.right.right == t.right)
            || (Balance(t) < -1 && r.Branch? && r.key > t.key && r.left.Branch? && r.left.left == t.left)
  {
    assert t.left.Branch? ==> t.left.key in Model(t.left) && Searchable(t.left);
    assert t.right.Branch? ==> t.right.key in Model(t.right) && Searchable(t.right);
    if CanRotateLeft(t.left) {
      assert t.left.right.key in Model(t.left.right) && t.left.right.key in Model(t.left);
    }
    if CanRotateRight(t.right) {
      assert t.right.left.key in Model(t.right.left) && t.right.left.key in Model(t.right);
    }
  }

  /** A child in which the two orders differ makes the rebalanced node differ. */
  lemma {:induction false} DifferenceGoesUp<V>(u: Tree<V>, w: Tree<V>)
    requires u.Branch? && w.Branch? && Searchable(u) && Searchable(w) && u.key == w.key
    requires if u.left == w.left then u.right != w.right && Balance(u) >= -1
             else u.right == w.right && Balance(u) <= 1
    ensures FixRemove(w, RootFirst) != FixRemove(u, ChildFirst)
  {
    SidesOfRemoval(u, ChildFirst);
    SidesOfRemoval(w, RootFirst);
  }

  /**
   * `avl_remove` as written gives the tree that the child-first order gives if and
   * only if no step of it ends in a right rotation, which the tree before the call
   * decides.
   */
  lemma {:induction false} WrittenRemoveExactly<V>(t: Tree<V>, key: int)
    requires Avl(t)
    ensures Remove(t, key, RootFirst) == Remove(t, key, ChildFirst) <==> !RemovalTurns(t, key)
    decreases t
  {
    if t.Branch? {
      assert Avl(t.left) && Avl(t.right) && Exact(t.left) && Exact(t.right);
      if Spliced(t, key) {
        SplicedAlike(t, key);
      } else {
        var left := key < t.key;
        var child, k := if left then t.left else t.right, if left then key else RightKey(t, key);
        WrittenRemoveExactly(child, k);
        StepOfRemoval(t, key);
      }
    }
  }

  /** Removal as written keeps an AVL tree one whenever it does not turn right. */
  lemma {:induction false} WrittenRemoveKeepsAvl<V>(t: Tree<V>, key: int)
    requires Avl(t) && !RemovalTurns(t, key)
    ensures Avl(Remove(t, key, RootFirst))
  {
    WrittenRemoveExactly(t, key);
    RemoveKeepsAvl(t, key);
  }

  lemma {:induction false} SplicedAlike<V>(t: Tree<V>, key: int)
    requires Avl(t) && Spliced(t, key)
    ensures Remove(t, key, RootFirst) == Remove(t, key, ChildFirst)
    ensures TrueHeight(Remove(t, key, ChildFirst)) == TrueHeight(t) - 1
  {
    SpliceHeights(t);
    var child := if t.left.Leaf? then t.right else t.left;
    if child.Branch? {
      assert Exact(child) && Exact(child.left) && Exact(child.right) && Update(child) == child;
      OrdersAtRemoval(child);
    }
  }

  /** One step of a removal: a difference below goes up, and only a right rotation makes a new one. */
  lemma {:induction false} StepOfRemoval<V>(t: Tree<V>, key: int)
    requires Avl(t) && t.Branch? && !Spliced(t, key)
    ensures var left := key < t.key;
            var child, k := if left then t.left else t.right, if left then key else RightKey(t, key);
            Remove(t, key, RootFirst) == Remove(t, key, ChildFirst) <==>
            && Remove(child, k, RootFirst) == Remove(child, k, ChildFirst)
            && (left || !Shrinks(child, k) || Balance(t) <= 0)
  {
    var left := key < t.key;
    var child, k := if left then t.left else t.right, if left then key else RightKey(t, key);
    var u, w := BeforeFix(t, key, ChildFirst), BeforeFix(t, key, RootFirst);
    assert Avl(child) && Exact(t.left) && Exact(t.right);
    RemoveHeights(child, k);
    ShrinksExactly(child, k);
    ShrinksAtNode(t, u, left);
    UnfoldRemoval(t, key, ChildFirst);
    UnfoldRemoval(t, key, RootFirst);
    if Remove(child, k, RootFirst) == Remove(child, k, ChildFirst) {
      OrdersAtRemoval(u);
    } else {
      DifferenceGoesUp(u, w);
    }
  }

  /** A removal rebalances a tree with one new child, which can still be searched. */
  lemma {:induction false} UnfoldRemoval<V>(t: Tree<V>, key: int, order: Order)
    requires Avl(t) && t.Branch? && !Spliced(t, key)
    ensures var u := BeforeFix(t, key, order);
            && u.Branch? && u == Update(u) && Searchable(u) && Remove(t, key, order) == FixRemove(u, order)
            && u.key == (if key == t.key then Least(t.right).key else t.key)
            && if key < t.key then u.left == Remove(t.left, key, order) && u.right == t.right
               else u.left == t.left && u.right == Remove(t.right, RightKey(t, key), order)
  {
    ExactIsPositive(t);
    SearchableBeforeFix(t, key, order);
  }

  lemma {:induction false} SearchableBeforeFix<V>(t: Tree<V>, key: int, order: Order)
    requires Searchable(t) && t.Branch? && !Spliced(t, key)
    ensures Searchable(BeforeFix(t, key, order))
  {
    hide Update;
    if key < t.key {
      RemoveContents(t.left, key, order);
      DropLeft(t, Remove(t.left, key, order), key);
    } else if key > t.key {
      RemoveContents(t.right, key, order);
      DropRight(t, Remove(t.right, key, order), key);
    } else {
      var least := Least(t.right);
      LeastIsLeast(t.right);
      RemoveContents(t.right, least.key, order);
      DropRoot(t, least, Remove(t.right, least.key, order));
    }
  }

  function Single(key: int): Tree<int> {
    Branch(Leaf, key, 0, 1, Leaf)
  }

  /** The tree of the insertions 5, 3, 7, 8, 2, which no order has to rotate. */
  lemma FiveInsertions(order: Order)
    ensures var t := Insert(Insert(Insert(Leaf, 5, 0, order), 3, 0, order), 7, 0, order);
            Insert(Insert(t, 8, 0, order), 2, 0, order) == FIVE
  {
    assert Insert(Leaf, 5, 0, order) == Single(5);
    assert Insert(Single(5), 3, 0, order) == Branch(Single(3), 5, 0, 2, Leaf);
    assert Insert(Branch(Single(3), 5, 0, 2, Leaf), 7, 0, order) == Branch(Single(3), 5, 0, 2, Single(7));
    assert Insert(Single(7), 8, 0, order) == SEVEN;
    assert Insert(Branch(Single(3), 5, 0, 2, Single(7)), 8, 0, order) == Branch(Single(3), 5, 0, 3, SEVEN);
    assert Insert(Single(3), 2, 0, order) == Branch(Single(2), 3, 0, 2, Leaf);
  }

  const THREE := Branch(Single(2), 3, 0, 2, Leaf)
  const SEVEN := Branch(Leaf, 7, 0, 2, Single(8))
  const FIVE := Branch(THREE, 5, 0, 3, SEVEN)

  lemma FiveIsAvl()
    ensures Avl(FIVE) && Model(FIVE).Keys == {2, 3, 5, 7, 8}
  {
    assert Exact(SEVEN) && Exact(THREE) && Exact(FIVE);
    assert Ordered(THREE) && Model(THREE).Keys == {2, 3};
    assert Ordered(SEVEN) && Model(SEVEN).Keys == {7, 8};
    assert Balanced(THREE) && Balanced(SEVEN);
  }

  lemma SixthInsertion()
    ensures Insert(FIVE, 1, 0, RootFirst) == Branch(Single(1), 2, 0, 6, Branch(Single(3), 5, 0, 3, SEVEN))
  {
  }

  lemma SixthTurnsRight()
    ensures Avl(FIVE) && TurnsRight(FIVE, 1)
  {
    FiveIsAvl();
    hide Avl;
    assert Critical(THREE, 1) == THREE;
  }

  /** The sixth insertion, of 1, leaves the written tree out of balance. */
  lemma WrittenOrderUnbalances()
    ensures Avl(FIVE) && TurnsRight(FIVE, 1)
    ensures !Balanced(Insert(FIVE, 1, 0, RootFirst)) && Balanced(Insert(FIVE, 1, 0, ChildFirst))
  {
    SixthTurnsRight();
    InsertKeepsAvl(FIVE, 1, 0);
    SixthInsertion();
    hide TurnsRight, Insert;
    var right := Branch(Single(3), 5, 0, 3, SEVEN);
    assert TrueHeight(SEVEN) == 2 && TrueHeight(right) == 3 && TrueHeight(Single(1)) == 1;
    assert !Balanced(Branch(Single(1), 2, 0, 6, right));
  }

  const LOW := Branch(Single(10), 20, 0, 2, Leaf)
  const FIFTY := Branch(Single(45), 50, 0, 2, Single(55))
  const SIXTY := Branch(FIFTY, 60, 0, 3, Single(70))
  const THIRTY := Branch(LOW, 30, 0, 4, SIXTY)

  /** The trees around a left rotation that repairs, by accident, what a right rotation below it left stale. */
  lemma RecoveryTrees()
    ensures Insert(THIRTY, 57, 0, RootFirst)
            == Branch(Branch(LOW, 30, 0, 3, Branch(Single(45), 50, 0, 2, Leaf)), 55, 0, 4,
                      Branch(Single(57), 60, 0, 2, Single(70)))
  {
    var fifty := Branch(Single(45), 50, 0, 3, Branch(Leaf, 55, 0, 2, Single(57)));
    assert Insert(Single(55), 57, 0, RootFirst) == Branch(Leaf, 55, 0, 2, Single(57));
    assert Insert(FIFTY, 57, 0, RootFirst) == fifty;
    assert RotateLeft(fifty) == Branch(Branch(Single(45), 50, 0, 2, Leaf), 55, 0, 3, Single(57));
    assert Insert(SIXTY, 57, 0, RootFirst)
        == Branch(Branch(Single(45), 50, 0, 2, Leaf), 55, 0, 5, Branch(Single(57), 60, 0, 2, Single(70)));
  }

  ghost predicate AvlWithin(t: Tree<int>, low: int, high: int) {
    Avl(t) && forall k <- Model(t) :: low < k < high
  }

  lemma AvlNode(l: Tree<int>, key: int, height: int, r: Tree<int>, low: int, high: int)
    requires low < key < high && AvlWithin(l, low, key) && AvlWithin(r, key, high)
    requires -1 <= TrueHeight(l) - TrueHeight(r) <= 1 && height == 1 + Max(TrueHeight(l), TrueHeight(r))
    ensures AvlWithin(Branch(l, key, 0, height, r), low, high)
    ensures TrueHeight(Branch(l, key, 0, height, r)) == height
  {
  }

  lemma RecoveryParts()
    ensures AvlWithin(LOW, 0, 30) && TrueHeight(LOW) == 2
    ensures AvlWithin(FIFTY, 30, 60) && TrueHeight(FIFTY) == 2
    ensures AvlWithin(SIXTY, 30, 99) && TrueHeight(SIXTY) == 3
    ensures AvlWithin(THIRTY, 0, 99)
  {
    hide AvlWithin, TrueHeight;
    Singles();
    AvlNode(Single(10), 20, 2, Leaf, 0, 30);
    AvlNode(Single(45), 50, 2, Single(55), 30, 60);
    AvlNode(FIFTY, 60, 3, Single(70), 30, 99);
    AvlNode(LOW, 30, 4, SIXTY, 0, 99);
  }

  lemma Singles()
    ensures forall k: int, low: int, high: int | low < k < high :: AvlWithin(Single(k), low, high)
    ensures forall k: int :: TrueHeight(Single(k)) == 1
    ensures forall low: int, high: int :: AvlWithin(Leaf, low, high)
    ensures TrueHeight<int>(Leaf) == 0
  {
    forall k: int
      ensures Avl(Single(k)) && Model(Single(k)).Keys == {k}
    {
      assert Single(k).left == Leaf && Single(k).right == Leaf;
    }
  }

  lemma RecoveredIsAvl()
    ensures Avl(Branch(Branch(LOW, 30, 0, 3, Branch(Single(45), 50, 0, 2, Leaf)), 55, 0, 4,
                       Branch(Single(57), 60, 0, 2, Single(70))))
  {
    hide TrueHeight;
    Singles();
    RecoveryParts();
    AvlNode(Single(45), 50, 2, Leaf, 30, 55);
    AvlNode(LOW, 30, 3, Branch(Single(45), 50, 0, 2, Leaf), 0, 55);
    AvlNode(Single(57), 60, 2, Single(70), 55, 99);
    AvlNode(Branch(LOW, 30, 0, 3, Branch(Single(45), 50, 0, 2, Leaf)), 55, 4,
            Branch(Single(57), 60, 0, 2, Single(70)), 0, 99);
  }

  /**
   * A right turn need not show in the end: here the written insertion turns right
   * and gives another tree than the child-first one, but still an AVL tree.
   */
  lemma WrittenOrderCanRecover()
    ensures Avl(THIRTY) && TurnsRight(THIRTY, 57)
    ensures Insert(THIRTY, 57, 0, RootFirst) != Insert(THIRTY, 57, 0, ChildFirst)
    ensures Avl(Insert(THIRTY, 57, 0, RootFirst))
  {
    hide Avl, Insert, TrueHeight;
    RecoveryParts();
    RecoveryTrees();
    RecoveredIsAvl();
    assert Critical(FIFTY, 57) == Leaf;
    assert Critical(THIRTY, 57) == SIXTY;
    WrittenInsertExactly(THIRTY, 57, 0);
  }

  const HOUSE := Branch(THREE, 5, 0, 3, Single(8))

  lemma HouseIsAvl()
    ensures AvlWithin(HOUSE, 0, 9)
  {
    hide AvlWithin, TrueHeight;
    Singles();
    AvlNode(Single(2), 3, 2, Leaf, 0, 5);
    AvlNode(THREE, 5, 3, Single(8), 0, 9);
  }

  /** Removing 8 from 5(3(2, -), 8) turns right: the height stored at the new root is one too large. */
  lemma WrittenRemovalGoesStale()
    ensures Avl(HOUSE) && RemovalTurns(HOUSE, 8)
    ensures !Exact(Remove(HOUSE, 8, RootFirst)) && Exact(Remove(HOUSE, 8, ChildFirst))
  {
    HouseIsAvl();
    RemoveHeights(HOUSE, 8);
    assert Shrinks(Single(8), 8);
    assert Remove(HOUSE, 8, RootFirst) == Branch(Single(2), 3, 0, 4, Single(5));
  }

  // Eight insertions in the written order, and a ninth that dereferences a null child.

  const A5 := Branch(Branch(Leaf, 1, 0, 2, Single(4)), 5, 0, 3, Single(8))
  const B7 := Branch(Leaf, 7, 0, 2, Single(8))
  const B6 := Branch(Branch(Branch(Leaf, 1, 0, 2, Single(4)), 5, 0, 3, Leaf), 6, 0, 4, B7)
  const C6 := Branch(Branch(Single(4), 5, 0, 2, Leaf), 6, 0, 3, B7)
  const D4 := Branch(Leaf, 4, 0, 4, Branch(Single(5), 6, 0, 3, B7))
  const D3 := Branch(Branch(Single(0), 1, 0, 2, Leaf), 3, 0, 5, D4)

  function Then(t: Tree<int>, key: int): Tree<int> {
    Insert(t, key, 0, RootFirst)
  }

  lemma FirstSix()
    ensures Then(Then(Then(Then(Then(Then(Leaf, 1), 5), 8), 4), 7), 6) == B6
  {
    assert Then(Leaf, 1) == Single(1);
    assert Then(Single(1), 5) == Branch(Leaf, 1, 0, 2, Single(5));
    assert Then(Branch(Leaf, 1, 0, 2, Single(5)), 8) == Branch(Single(1), 5, 0, 2, Single(8));
    assert Insert(Single(1), 4, 0, RootFirst) == Branch(Leaf, 1, 0, 2, Single(4));
    assert Then(Branch(Single(1), 5, 0, 2, Single(8)), 4) == A5;
    assert Insert(Single(8), 7, 0, RootFirst) == Branch(Single(7), 8, 0, 2, Leaf);
    var a := A5.(right := Branch(Single(7), 8, 0, 2, Leaf));
    assert Then(A5, 7) == a;
    assert Insert(Single(7), 6, 0, RootFirst) == Branch(Single(6), 7, 0, 2, Leaf);
    assert Insert(a.right, 6, 0, RootFirst) == Branch(Single(6), 7, 0, 4, Single(8));
    assert Then(a, 6) == B6;
  }

  lemma SeventhAndEighth()
    ensures Then(Then(B6, 0), 3) == D3
  {
    var one := Branch(Single(0), 1, 0, 2, Single(4));
    assert Insert(B6.left.left, 0, 0, RootFirst) == one;
    assert Then(B6, 0) == Branch(Single(0), 1, 0, 6, C6);
  }

  /** The ninth insertion, of 2, selects a double rotation whose inner child is null. */
  lemma WrittenOrderDereferencesNull()
    ensures Then(Then(Then(Then(Then(Then(Then(Then(Leaf, 1), 5), 8), 4), 7), 6), 0), 3) == D3
    ensures !InsertSafe(D3, 2, 0, RootFirst)
  {
    FirstSix();
    SeventhAndEighth();
    assert Insert(D3.left, 2, 0, RootFirst) == Branch(Single(0), 1, 0, 2, Single(2));
  }
}
