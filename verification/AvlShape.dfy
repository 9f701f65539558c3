/**
 * The value of an AVL tree: its nodes with the heights that are stored in them,
 * and the tree algorithms as functions on such values.
 *
 * `avl_right_rotate` recomputes the height of the new root before that of its
 * new child, so the stored height of the root comes from a stale one.
 * `RootFirst` is that written order; `ChildFirst` is the order in which
 * `avl_left_rotate` does the same job. Search order and contents hold for both;
 * exact heights and balance hold for `ChildFirst` only.
 */
module AvlShape {
  import opened Types

  datatype Order = RootFirst | ChildFirst

  datatype Tree<V> =
    | Leaf
    | Branch(left: Tree<V>, key: int, value: V, height: int, right: Tree<V>)

  // ---------- The algorithms ----------

  function Height<V>(t: Tree<V>): int {
    if t.Leaf? then 0 else t.height
  }

  function Balance<V>(t: Tree<V>): int {
    if t.Leaf? then 0 else Height(t.left) - Height(t.right)
  }

  function Max(a: int, b: int): int {
    if a > b then a else b
  }

  function Update<V>(t: Tree<V>): Tree<V> {
    if t.Leaf? then t else t.(height := 1 + Max(Height(t.left), Height(t.right)))
  }

  predicate CanRotateRight<V>(t: Tree<V>) {
    t.Branch? && t.left.Branch?
  }

  predicate CanRotateLeft<V>(t: Tree<V>) {
    t.Branch? && t.right.Branch?
  }

  function RotateRight<V>(y: Tree<V>, order: Order): Tree<V>
    requires CanRotateRight(y)
  {
    var x := y.left;
    var down := y.(left := x.right);
    match order
    case RootFirst => Update(x.(right := down)).(right := Update(down))
    case ChildFirst => Update(x.(right := Update(down)))
  }

  function RotateLeft<V>(x: Tree<V>): Tree<V>
    requires CanRotateLeft(x)
  {
    var y := x.right;
    Update(y.(left := Update(x.(right := y.left))))
  }

  /** The rotations at the end of `avl_insert`; a tree that cannot rotate stays as it is. */
  function FixInsert<V>(t: Tree<V>, key: int, order: Order): Tree<V>
    requires t.Branch?
  {
    var balance := Balance(t);
    if balance > 1 && t.left.Branch? && key < t.left.key then
      RotateRight(t, order)
    else if balance < -1 && t.right.Branch? && key > t.right.key then
      RotateLeft(t)
    else if balance > 1 && t.left.Branch? && key > t.left.key && CanRotateLeft(t.left) then
      RotateRight(t.(left := RotateLeft(t.left)), order)
    else if balance < -1 && t.right.Branch? && key < t.right.key && CanRotateRight(t.right) then
      RotateLeft(t.(right := RotateRight(t.right, order)))
    else t
  }

  function Insert<V>(t: Tree<V>, key: int, value: V, order: Order): Tree<V> {
    if t.Leaf? then Branch(Leaf, key, value, 1, Leaf)
    else if key < t.key then
      FixInsert(Update(t.(left := Insert(t.left, key, value, order))), key, order)
    else if key > t.key then
      FixInsert(Update(t.(right := Insert(t.right, key, value, order))), key, order)
    else t
  }

  /** The case that the last lines of `avl_insert` select has the children that its rotations dereference. */
  predicate FixSafe<V>(t: Tree<V>, key: int)
    requires t.Branch?
  {
    && (Balance(t) > 1 ==> t.left.Branch? && (key > t.left.key ==> CanRotateLeft(t.left)))
    && (Balance(t) < -1 ==> t.right.Branch? && (key < t.right.key ==> CanRotateRight(t.right)))
  }

  /** No step of an insertion dereferences a null child. */
  predicate InsertSafe<V>(t: Tree<V>, key: int, value: V, order: Order) {
    if t.Branch? && key < t.key then
      && InsertSafe(t.left, key, value, order)
      && FixSafe(Update(t.(left := Insert(t.left, key, value, order))), key)
    else if t.Branch? && key > t.key then
      && InsertSafe(t.right, key, value, order)
      && FixSafe(Update(t.(right := Insert(t.right, key, value, order))), key)
    else true
  }

  /** The rotations at the end of `avl_remove`. */
  function FixRemove<V>(t: Tree<V>, order: Order): Tree<V>
    requires t.Branch?
  {
    var balance := Balance(t);
    if balance > 1 && t.left.Branch? && Balance(t.left) >= 0 then
      RotateRight(t, order)
    else if balance > 1 && CanRotateLeft(t.left) && Balance(t.left) < 0 then
      RotateRight(t.(left := RotateLeft(t.left)), order)
    else if balance < -1 && t.right.Branch? && Balance(t.right) <= 0 then
      RotateLeft(t)
    else if balance < -1 && CanRotateRight(t.right) && Balance(t.right) > 0 then
      RotateLeft(t.(right := RotateRight(t.right, order)))
    else t
  }

  /** The node that the pointer loop of `avl_remove` stops at. */
  function Least<V>(t: Tree<V>): Tree<V>
    requires t.Branch?
    ensures Least(t).Branch?
  {
    if t.left.Leaf? then t else Least(t.left)
  }

  function Remove<V>(t: Tree<V>, key: int, order: Order): Tree<V> {
    if t.Leaf? then Leaf
    else if key < t.key then
      FixRemove(Update(t.(left := Remove(t.left, key, order))), order)
    else if key > t.key then
      FixRemove(Update(t.(right := Remove(t.right, key, order))), order)
    else if t.left.Leaf? || t.right.Leaf? then
      var child := if t.left.Leaf? then t.right else t.left;
      if child.Leaf? then Leaf else FixRemove(Update(child), order)
    else
      var least := Least(t.right);
      var right := Remove(t.right, least.key, order);
      FixRemove(Update(t.(key := least.key, value := least.value, right := right)), order)
  }

  // ---------- What a tree means ----------

  /** The key-value pairs that a tree holds. */
  ghost function Model<V>(t: Tree<V>): map<int, V> {
    if t.Leaf? then map[] else (Model(t.left) + Model(t.right))[t.key := t.value]
  }

  ghost predicate Ordered<V>(t: Tree<V>) {
    t.Branch? ==>
      && Ordered(t.left) && Ordered(t.right)
      && (forall k <- Model(t.left) :: k < t.key)
      && (forall k <- Model(t.right) :: t.key < k)
  }

  /** Every stored height is positive: enough to keep each rotation off a null child. */
  ghost predicate Positive<V>(t: Tree<V>)
    ensures Positive(t) ==> Height(t) >= 0
  {
    t.Branch? ==> t.height >= 1 && Positive(t.left) && Positive(t.right)
  }

  /** What holds of every tree that the operations build, in either order. */
  ghost predicate Searchable<V>(t: Tree<V>) {
    Ordered(t) && Positive(t)
  }

  ghost function TrueHeight<V>(t: Tree<V>): nat {
    if t.Leaf? then 0 else 1 + Max(TrueHeight(t.left), TrueHeight(t.right))
  }

  ghost predicate Exact<V>(t: Tree<V>)
    ensures Exact(t) ==> Height(t) == TrueHeight(t)
  {
    t.Branch? ==> t.height == TrueHeight(t) && Exact(t.left) && Exact(t.right)
  }

  ghost predicate Balanced<V>(t: Tree<V>) {
    t.Branch? ==>
      && Balanced(t.left) && Balanced(t.right)
      && -1 <= TrueHeight(t.left) - TrueHeight(t.right) <= 1
  }

  ghost predicate Avl<V>(t: Tree<V>) {
    Ordered(t) && Exact(t) && Balanced(t)
  }

  // ---------- Rotations keep contents and order ----------

  lemma {:induction false} RotateRightKeeps<V>(t: Tree<V>, order: Order)
    requires CanRotateRight(t) && Searchable(t)
    ensures Searchable(RotateRight(t, order))
    ensures Model(RotateRight(t, order)) == Model(t)
  {
    var x, r := t.left, RotateRight(t, order);
    assert Positive(x) && Positive(x.right) && Positive(t.right);
    assert Searchable(x) && Model(x) == (Model(x.left) + Model(x.right))[x.key := x.value];
    assert x.key in Model(x) && Model(x.left).Keys + Model(x.right).Keys <= Model(x).Keys;
    assert Searchable(r.right) && r.right == Branch(x.right, t.key, t.value, r.right.height, t.right);
    assert Model(r.right) == (Model(x.right) + Model(t.right))[t.key := t.value];
    assert r == Branch(x.left, x.key, x.value, r.height, r.right);
  }

  lemma {:induction false} RotateLeftKeeps<V>(t: Tree<V>)
    requires CanRotateLeft(t) && Searchable(t)
    ensures Searchable(RotateLeft(t))
    ensures Model(RotateLeft(t)) == Model(t)
  {
    var y, r := t.right, RotateLeft(t);
    assert Positive(y) && Positive(y.left) && Positive(t.left);
    assert Searchable(y) && Model(y) == (Model(y.left) + Model(y.right))[y.key := y.value];
    assert y.key in Model(y) && Model(y.left).Keys + Model(y.right).Keys <= Model(y).Keys;
    assert Searchable(r.left) && r.left == Branch(t.left, t.key, t.value, r.left.height, y.left);
    assert Model(r.left) == (Model(t.left) + Model(y.left))[t.key := t.value];
    assert r == Branch(r.left, y.key, y.value, r.height, y.right);
  }

  /** Replacing a subtree by one with the same contents changes nothing above it. */
  lemma {:induction false} SubtreeKeeps<V>(t: Tree<V>, left: Tree<V>, right: Tree<V>)
    requires t.Branch? && Searchable(t) && Searchable(left) && Searchable(right)
    requires Model(left) == Model(t.left) && Model(right) == Model(t.right)
    ensures Searchable(t.(left := left, right := right))
    ensures Model(t.(left := left, right := right)) == Model(t)
  {
  }

  lemma {:induction false} FixInsertKeeps<V>(t: Tree<V>, key: int, order: Order)
    requires t.Branch? && Searchable(t)
    ensures Searchable(FixInsert(t, key, order))
    ensures Model(FixInsert(t, key, order)) == Model(t)
  {
    var balance := Balance(t);
    if balance > 1 && t.left.Branch? && key < t.left.key {
      RotateRightKeeps(t, order);
    } else if balance < -1 && t.right.Branch? && key > t.right.key {
      RotateLeftKeeps(t);
    } else if balance > 1 && t.left.Branch? && key > t.left.key && CanRotateLeft(t.left) {
      RotateLeftKeeps(t.left);
      SubtreeKeeps(t, RotateLeft(t.left), t.right);
      RotateRightKeeps(t.(left := RotateLeft(t.left)), order);
    } else if balance < -1 && t.right.Branch? && key < t.right.key && CanRotateRight(t.right) {
      RotateRightKeeps(t.right, order);
      SubtreeKeeps(t, t.left, RotateRight(t.right, order));
      RotateLeftKeeps(t.(right := RotateRight(t.right, order)));
    }
  }

  lemma {:induction false} FixRemoveKeeps<V>(t: Tree<V>, order: Order)
    requires t.Branch? && Searchable(t)
    ensures Searchable(FixRemove(t, order))
    ensures Model(FixRemove(t, order)) == Model(t)
  {
    var balance := Balance(t);
    if balance > 1 && t.left.Branch? && Balance(t.left) >= 0 {
      RotateRightKeeps(t, order);
    } else if balance > 1 && CanRotateLeft(t.left) && Balance(t.left) < 0 {
      RotateLeftKeeps(t.left);
      SubtreeKeeps(t, RotateLeft(t.left), t.right);
      RotateRightKeeps(t.(left := RotateLeft(t.left)), order);
    } else if balance < -1 && t.right.Branch? && Balance(t.right) <= 0 {
      RotateLeftKeeps(t);
    } else if balance < -1 && CanRotateRight(t.right) && Balance(t.right) > 0 {
      RotateRightKeeps(t.right, order);
      SubtreeKeeps(t, t.left, RotateRight(t.right, order));
      RotateLeftKeeps(t.(right := RotateRight(t.right, order)));
    }
  }

  lemma {:induction false} UpdateKeeps<V>(t: Tree<V>)
    requires t.Branch? && Ordered(t) && Positive(t.left) && Positive(t.right)
    ensures Searchable(Update(t)) && Model(Update(t)) == Model(t)
  {
  }

  // ---------- Insertion ----------

  /** The contents of a map after insertion: a present key keeps its value. */
  ghost function Added<V>(m: map<int, V>, key: int, value: V): map<int, V> {
    if key in m then m else m[key := value]
  }

  lemma {:induction false} ReplaceLeft<V>(t: Tree<V>, left: Tree<V>, key: int, value: V)
    requires t.Branch? && Searchable(t) && Searchable(left) && key < t.key
    requires Model(left) == Added(Model(t.left), key, value)
    ensures Searchable(Update(t.(left := left)))
    ensures Model(Update(t.(left := left))) == Added(Model(t), key, value)
  {
  }

  lemma {:induction false} ReplaceRight<V>(t: Tree<V>, right: Tree<V>, key: int, value: V)
    requires t.Branch? && Searchable(t) && Searchable(right) && key > t.key
    requires Model(right) == Added(Model(t.right), key, value)
    ensures Searchable(Update(t.(right := right)))
    ensures Model(Update(t.(right := right))) == Added(Model(t), key, value)
  {
  }

  /** Insertion adds an absent key and leaves the value of a present one alone, in either order. */
  lemma {:induction false} InsertContents<V>(t: Tree<V>, key: int, value: V, order: Order)
    requires Searchable(t)
    ensures Searchable(Insert(t, key, value, order))
    ensures Model(Insert(t, key, value, order)) ==
            if key in Model(t) then Model(t) else Model(t)[key := value]
    decreases t
  {
    if t.Branch? && key < t.key {
      var left := Insert(t.left, key, value, order);
      InsertContents(t.left, key, value, order);
      ReplaceLeft(t, left, key, value);
      FixInsertKeeps(Update(t.(left := left)), key, order);
    } else if t.Branch? && key > t.key {
      var right := Insert(t.right, key, value, order);
      InsertContents(t.right, key, value, order);
      ReplaceRight(t, right, key, value);
      FixInsertKeeps(Update(t.(right := right)), key, order);
    }
  }

  // ---------- Removal ----------

  lemma {:induction false} LeastIsLeast<V>(t: Tree<V>)
    requires t.Branch? && Searchable(t)
    ensures var m := Least(t);
            m.key in Model(t) && Model(t)[m.key] == m.value && forall k <- Model(t) :: m.key <= k
    decreases t
  {
    if t.left.Branch? {
      LeastIsLeast(t.left);
      assert Least(t).key in Model(t.left);
    }
  }

  lemma {:induction false} DropLeft<V>(t: Tree<V>, left: Tree<V>, key: int)
    requires t.Branch? && Searchable(t) && Searchable(left) && key < t.key
    requires Model(left) == Model(t.left) - {key}
    ensures Searchable(Update(t.(left := left)))
    ensures Model(Update(t.(left := left))) == Model(t) - {key}
  {
  }

  lemma {:induction false} DropRight<V>(t: Tree<V>, right: Tree<V>, key: int)
    requires t.Branch? && Searchable(t) && Searchable(right) && key > t.key
    requires Model(right) == Model(t.right) - {key}
    ensures Searchable(Update(t.(right := right)))
    ensures Model(Update(t.(right := right))) == Model(t) - {key}
  {
  }

  /** The two-child case: the root takes the least pair of its right subtree. */
  lemma {:induction false} DropRoot<V>(t: Tree<V>, least: Tree<V>, right: Tree<V>)
    requires t.Branch? && Searchable(t) && Searchable(right) && least.Branch?
    requires least.key in Model(t.right) && Model(t.right)[least.key] == least.value
    requires forall k <- Model(t.right) :: least.key <= k
    requires Model(right) == Model(t.right) - {least.key}
    ensures var u := Update(t.(key := least.key, value := least.value, right := right));
            Searchable(u) && Model(u) == Model(t) - {t.key}
  {
    var l, r := Model(t.left), Model(t.right);
    var u := t.(key := least.key, value := least.value, right := right);
    assert Model(u) == (l + Model(right))[least.key := least.value];
    assert t.key !in l && t.key !in r;
    assert (l + (r - {least.key}))[least.key := least.value] == (l + r)[t.key := t.value] - {t.key};
    assert Positive(t.left) && Ordered(t.left);
    assert Ordered(u);
    UpdateKeeps(u);
  }

  /** Removal takes out exactly the given key, and nothing when it is absent, in either order. */
  lemma {:induction false} RemoveContents<V>(t: Tree<V>, key: int, order: Order)
    requires Searchable(t)
    ensures Searchable(Remove(t, key, order))
    ensures Model(Remove(t, key, order)) == Model(t) - {key}
    decreases t
  {
    if t.Leaf? {
    } else if key < t.key {
      var left := Remove(t.left, key, order);
      RemoveContents(t.left, key, order);
      DropLeft(t, left, key);
      FixRemoveKeeps(Update(t.(left := left)), order);
    } else if key > t.key {
      var right := Remove(t.right, key, order);
      RemoveContents(t.right, key, order);
      DropRight(t, right, key);
      FixRemoveKeeps(Update(t.(right := right)), order);
    } else if t.left.Leaf? || t.right.Leaf? {
      var child := if t.left.Leaf? then t.right else t.left;
      assert Model(child) == Model(t) - {key};
      if child.Branch? {
        assert Searchable(child) && Positive(child.left) && Positive(child.right);
        UpdateKeeps(child);
        FixRemoveKeeps(Update(child), order);
      }
    } else {
      var least := Least(t.right);
      var right := Remove(t.right, least.key, order);
      RemoveContents(t.right, least.key, order);
      LeastIsLeast(t.right);
      DropRoot(t, least, right);
      FixRemoveKeeps(Update(t.(key := least.key, value := least.value, right := right)), order);
    }
  }

  /** The tree on which a removal rebalances last. */
  function BeforeFix<V>(t: Tree<V>, key: int, order: Order): Tree<V>
    requires t.Branch?
  {
    if key < t.key then Update(t.(left := Remove(t.left, key, order)))
    else if key > t.key then Update(t.(right := Remove(t.right, key, order)))
    else if t.left.Leaf? || t.right.Leaf? then Update(if t.left.Leaf? then t.right else t.left)
    else
      var least := Least(t.right);
      Update(t.(key := least.key, value := least.value, right := Remove(t.right, least.key, order)))
  }

  lemma {:induction false} PositiveAfterRemove<V>(t: Tree<V>, key: int, order: Order)
    requires t.Branch? && Searchable(t)
    ensures Positive(BeforeFix(t, key, order))
  {
    assert Searchable(t.left) && Searchable(t.right);
    if key < t.key {
      RemoveContents(t.left, key, order);
      UpdatePositive(t.(left := Remove(t.left, key, order)));
    } else if key > t.key {
      RemoveContents(t.right, key, order);
      UpdatePositive(t.(right := Remove(t.right, key, order)));
    } else if t.left.Leaf? || t.right.Leaf? {
      UpdatePositive(if t.left.Leaf? then t.right else t.left);
    } else {
      var least := Least(t.right);
      RemoveContents(t.right, least.key, order);
      UpdatePositive(t.(key := least.key, value := least.value, right := Remove(t.right, least.key, order)));
    }
  }

  lemma {:induction false} UpdatePositive<V>(t: Tree<V>)
    requires t.Branch? ==> Positive(t.left) && Positive(t.right)
    ensures Positive(Update(t))
  {
  }

  // ---------- Values do not matter to the shape ----------

  /** The keys and heights of a tree. */
  function Erase<V>(t: Tree<V>): Tree<()> {
    if t.Leaf? then Leaf else Branch(Erase(t.left), t.key, (), t.height, Erase(t.right))
  }

  lemma {:induction false} EraseNode<V>(t: Tree<V>)
    ensures Height(Erase(t)) == Height(t) && Balance(Erase(t)) == Balance(t) && Erase(Update(t)) == Update(Erase(t))
  {
  }

  lemma {:induction false} EraseKeepsBranches<V>(t: Tree<V>)
    ensures t.Branch? <==> Erase(t).Branch?
    ensures CanRotateLeft(t) <==> CanRotateLeft(Erase(t))
    ensures CanRotateRight(t) <==> CanRotateRight(Erase(t))
    ensures t.Branch? ==>
              Erase(t).left == Erase(t.left) && Erase(t).right == Erase(t.right) && Erase(t).key == t.key
  {
  }

  lemma {:induction false} EraseRight<V>(t: Tree<V>, order: Order)
    requires CanRotateRight(t)
    ensures CanRotateRight(Erase(t)) && Erase(RotateRight(t, order)) == RotateRight(Erase(t), order)
  {
    var x := t.left;
    EraseNode(t.(left := x.right));
    EraseNode(x.(right := t.(left := x.right)));
    EraseNode(x.(right := Update(t.(left := x.right))));
  }

  lemma {:induction false} EraseLeft<V>(t: Tree<V>)
    requires CanRotateLeft(t)
    ensures CanRotateLeft(Erase(t)) && Erase(RotateLeft(t)) == RotateLeft(Erase(t))
  {
    var y := t.right;
    EraseNode(t.(right := y.left));
    EraseNode(y.(left := Update(t.(right := y.left))));
  }

  lemma {:induction false} EraseFix<V>(t: Tree<V>, key: int, order: Order)
    requires t.Branch?
    ensures Erase(FixInsert(t, key, order)) == FixInsert(Erase(t), key, order)
    ensures FixSafe(t, key) <==> FixSafe(Erase(t), key)
  {
    hide RotateRight, RotateLeft, Erase;
    EraseNode(t);
    EraseKeepsBranches(t);
    EraseKeepsBranches(t.left);
    EraseKeepsBranches(t.right);
    if CanRotateLeft(t) { EraseLeft(t); }
    if CanRotateRight(t) { EraseRight(t, order); }
    if CanRotateLeft(t.left) {
      EraseLeft(t.left);
      LeftStaysBranch(t.left);
      var u := t.(left := RotateLeft(t.left));
      EraseRight(u, order);
      EraseSwap(t, u.left, t.right);
    }
    if CanRotateRight(t.right) {
      EraseRight(t.right, order);
      RightStaysBranch(t.right, order);
      var u := t.(right := RotateRight(t.right, order));
      EraseLeft(u);
      EraseSwap(t, t.left, u.right);
    }
  }

  lemma {:induction false} EraseSwap<V>(t: Tree<V>, left: Tree<V>, right: Tree<V>)
    requires t.Branch?
    ensures Erase(t.(left := left, right := right)) == Branch(Erase(left), t.key, (), t.height, Erase(right))
    ensures Erase(t) == Branch(Erase(t.left), t.key, (), t.height, Erase(t.right))
  {
  }

  lemma {:induction false} LeftStaysBranch<V>(t: Tree<V>)
    requires CanRotateLeft(t)
    ensures RotateLeft(t).Branch?
  {
  }

  lemma {:induction false} RightStaysBranch<V>(t: Tree<V>, order: Order)
    requires CanRotateRight(t)
    ensures RotateRight(t, order).Branch?
  {
  }

  lemma {:induction false} EraseInsert<V>(t: Tree<V>, key: int, value: V, order: Order)
    ensures Erase(Insert(t, key, value, order)) == Insert(Erase(t), key, (), order)
    decreases t
  {
    if t.Branch? && key != t.key {
      EraseInsert(if key < t.key then t.left else t.right, key, value, order);
      var u := if key < t.key then t.(left := Insert(t.left, key, value, order))
               else t.(right := Insert(t.right, key, value, order));
      EraseNode(u);
      EraseFix(Update(u), key, order);
    }
  }

  /** Whether an insertion is safe can be told before its value is known. */
  lemma {:induction false} SafetyIgnoresValues<V>(t: Tree<V>, key: int, value: V, order: Order)
    ensures InsertSafe(t, key, value, order) <==> InsertSafe(Erase(t), key, (), order)
    decreases t
  {
    if t.Branch? && key != t.key {
      var child := if key < t.key then t.left else t.right;
      SafetyIgnoresValues(child, key, value, order);
      EraseInsert(child, key, value, order);
      var u := if key < t.key then t.(left := Insert(t.left, key, value, order))
               else t.(right := Insert(t.right, key, value, order));
      EraseNode(u);
      EraseFix(Update(u), key, order);
    }
  }
}
