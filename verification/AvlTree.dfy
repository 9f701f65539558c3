/**
 * `avltree.c` on nodes in memory. Each operation rewrites the nodes in place and
 * is proved against the function of the same name on tree values, so what
 * AvlShape and AvlBalance prove of those functions holds of the nodes.
 */
module AvlTree {
  import opened Types
  import opened AvlShape

  class Node<V> {
    var height: int
    var key: int
    var value: V
    var left: Node?<V>
    var right: Node?<V>
    ghost var Repr: set<Node<V>>
    ghost var Shape: Tree<V>

    ghost predicate Valid()
      reads this, Repr
      ensures Valid() ==> this in Repr
    {
      && this in Repr
      && (left != null ==>
            left in Repr && left.Repr <= Repr && this !in left.Repr && left.Valid())
      && (right != null ==>
            right in Repr && right.Repr <= Repr && this !in right.Repr && right.Valid())
      && (left != null && right != null ==> left.Repr !! right.Repr)
      && Shape == Branch(ShapeOf(left), key, value, height, ShapeOf(right))
    }

    constructor (key: int, value: V)
      ensures Valid() && fresh(Repr) && Shape == Branch(Leaf, key, value, 1, Leaf)
    {
      height, left, right := 1, null, null;
      this.key, this.value := key, value;
      Repr := {this};
      Shape := Branch(Leaf, key, value, 1, Leaf);
    }
  }

  ghost function ShapeOf<V>(n: Node?<V>): Tree<V>
    reads n
  {
    if n == null then Leaf else n.Shape
  }

  ghost function ReprOf<V>(n: Node?<V>): set<Node<V>>
    reads n
  {
    if n == null then {} else n.Repr
  }

  ghost predicate ValidTree<V>(n: Node?<V>)
    reads n, ReprOf(n)
  {
    n != null ==> n.Valid()
  }

  /** Everything of `Valid` except that the ghost fields of `n` are up to date. */
  ghost predicate Linked<V>(n: Node<V>)
    reads n, n.left, n.right, ReprOf(n.left), ReprOf(n.right)
  {
    && ValidTree(n.left) && ValidTree(n.right)
    && n !in ReprOf(n.left) && n !in ReprOf(n.right)
    && ReprOf(n.left) !! ReprOf(n.right)
  }

  /** One level of `Valid`. */
  lemma Open<V>(n: Node<V>)
    requires n.Valid()
    ensures Linked(n) && {n} + ReprOf(n.left) + ReprOf(n.right) <= n.Repr
    ensures n.Shape == Branch(ShapeOf(n.left), n.key, n.value, n.height, ShapeOf(n.right))
  {
  }

  method GetHeight<V>(n: Node?<V>) returns (h: int)
    requires ValidTree(n)
    ensures h == Height(ShapeOf(n))
  {
    if n == null { h := 0; } else { h := n.height; }
  }

  method GetBalance<V>(n: Node?<V>) returns (b: int)
    requires ValidTree(n)
    ensures b == Balance(ShapeOf(n))
  {
    if n == null { return 0; }
    var l := GetHeight(n.left);
    var r := GetHeight(n.right);
    b := l - r;
  }

  /** Brings the ghost fields of a node up to date with its children. */
  ghost method Refresh<V>(n: Node<V>)
    requires Linked(n)
    modifies n`Repr, n`Shape
    ensures n.Valid() && n.Repr == {n} + ReprOf(n.left) + ReprOf(n.right)
    ensures n.Shape == Branch(ShapeOf(n.left), n.key, n.value, n.height, ShapeOf(n.right))
  {
    n.Repr := {n} + ReprOf(n.left) + ReprOf(n.right);
    n.Shape := Branch(ShapeOf(n.left), n.key, n.value, n.height, ShapeOf(n.right));
  }

  /** Recomputes the height of a node; its ghost fields follow. */
  method UpdateHeight<V>(n: Node<V>)
    requires Linked(n)
    modifies n
    ensures n.Valid() && n.left == old(n.left) && n.right == old(n.right)
    ensures n.Repr == {n} + ReprOf(n.left) + ReprOf(n.right)
    ensures n.Shape == Update(Branch(ShapeOf(n.left), old(n.key), old(n.value), old(n.height), ShapeOf(n.right)))
  {
    var l := GetHeight(n.left);
    var r := GetHeight(n.right);
    n.height := 1 + if l > r then l else r;
    Refresh(n);
  }

  /** Heights after a right rotation of y under x, the new root first as the code has it. */
  method UpdateRootFirst<V>(x: Node<V>, y: Node<V>)
    requires x.right == y && x != y && Linked(y) && ValidTree(x.left)
    requires x !in ReprOf(x.left) + ReprOf(y.left) + ReprOf(y.right) && y !in ReprOf(x.left)
    requires ReprOf(x.left) !! ReprOf(y.left) + ReprOf(y.right)
    modifies x, y
    ensures x.Valid() && x.Repr <= {x, y} + old(ReprOf(x.left) + ReprOf(y.left) + ReprOf(y.right))
    ensures var raw := Branch(old(ShapeOf(y.left)), old(y.key), old(y.value), old(y.height), old(ShapeOf(y.right)));
            var up := Branch(old(ShapeOf(x.left)), old(x.key), old(x.value), old(x.height), raw);
            x.Shape == Update(up).(right := Update(raw))
  {
    hide Node.Valid;
    ghost var a := x.left;
    // The height of x is computed from the height that y still has.
    var l := GetHeight(x.left);
    x.height := 1 + if l > y.height then l else y.height;
    UpdateHeight(y);
    assert ValidTree(a);
    Refresh(x);
  }

  method RotateRightNode<V>(y: Node<V>, order: Order) returns (x: Node<V>)
    requires y.Valid() && y.left != null
    modifies y, y.left
    ensures x.Valid() && x.Repr <= old(y.Repr)
    ensures old(CanRotateRight(y.Shape)) && x.Shape == RotateRight(old(y.Shape), order)
  {
    Open(y);
    Open(y.left);
    hide Node.Valid;
    x := y.left;
    var z := x.right;
    ghost var a, c := x.left, y.right;
    x.right := y;
    y.left := z;
    assert ValidTree(a) && ValidTree(z) && ValidTree(c);
    if order == RootFirst {
      UpdateRootFirst(x, y);
    } else {
      UpdateHeight(y);
      assert ValidTree(a);
      UpdateHeight(x);
    }
  }

  method RotateLeftNode<V>(x: Node<V>) returns (y: Node<V>)
    requires x.Valid() && x.right != null
    modifies x, x.right
    ensures y.Valid() && y.Repr <= old(x.Repr)
    ensures old(CanRotateLeft(x.Shape)) && y.Shape == RotateLeft(old(x.Shape))
  {
    Open(x);
    Open(x.right);
    hide Node.Valid;
    y := x.right;
    var z := y.left;
    ghost var a, c := x.left, y.right;
    ghost var raw := Branch(ShapeOf(a), x.key, x.value, x.height, ShapeOf(z));
    assert RotateLeft(x.Shape) == Update(Branch(Update(raw), y.key, y.value, y.height, ShapeOf(c)));
    y.left := x;
    x.right := z;
    assert ValidTree(a) && ValidTree(z) && ValidTree(c);
    UpdateHeight(x);
    assert ValidTree(c) && x.Shape == Update(raw);
    UpdateHeight(y);
  }

  /** Rotates the left child of a node to the left, below the node. */
  method RotateLeftChild<V>(tree: Node<V>)
    requires tree.Valid() && CanRotateLeft(tree.Shape.left)
    modifies tree.Repr
    ensures tree.Valid() && tree.Repr <= old(tree.Repr)
    ensures tree.Shape == old(tree.Shape.(left := RotateLeft(tree.Shape.left)))
  {
    ghost var other := tree.right;
    var l := RotateLeftNode(tree.left);
    tree.left := l;
    tree.Shape := tree.Shape.(left := l.Shape);
    assert ValidTree(other);
  }

  /** Rotates the right child of a node to the right, below the node. */
  method RotateRightChild<V>(tree: Node<V>, order: Order)
    requires tree.Valid() && CanRotateRight(tree.Shape.right)
    modifies tree.Repr
    ensures tree.Valid() && tree.Repr <= old(tree.Repr)
    ensures tree.Shape == old(tree.Shape.(right := RotateRight(tree.Shape.right, order)))
  {
    ghost var other := tree.left;
    var t := RotateRightNode(tree.right, order);
    tree.right := t;
    tree.Shape := tree.Shape.(right := t.Shape);
    assert ValidTree(other);
  }

  /** The rotations at the end of an insertion. */
  method RebalanceInserted<V>(tree: Node<V>, key: int, order: Order) returns (r: Node<V>)
    requires tree.Valid() && FixSafe(tree.Shape, key)
    modifies tree.Repr
    ensures r.Valid() && r.Repr <= old(tree.Repr)
    ensures r.Shape == FixInsert(old(tree.Shape), key, order)
  {
    var balance := GetBalance(tree);
    if balance > 1 && key < tree.left.key {
      r := RotateRightNode(tree, order);
    } else if balance < -1 && key > tree.right.key {
      r := RotateLeftNode(tree);
    } else if balance > 1 && key > tree.left.key {
      RotateLeftChild(tree);
      r := RotateRightNode(tree, order);
    } else if balance < -1 && key < tree.right.key {
      RotateRightChild(tree, order);
      r := RotateLeftNode(tree);
    } else {
      r := tree;
    }
  }

  /** Gives a node a new left child and recomputes its height. */
  method AttachLeft<V>(tree: Node<V>, l: Node?<V>, ghost other: Node?<V>)
    requires tree.right == other && ValidTree(other) && ValidTree(l)
    requires tree !in ReprOf(l) + ReprOf(other) && ReprOf(l) !! ReprOf(other)
    modifies tree
    ensures tree.Valid() && tree.Repr == {tree} + ReprOf(l) + ReprOf(other)
    ensures tree.Shape == Update(Branch(ShapeOf(l), old(tree.key), old(tree.value), old(tree.height), ShapeOf(other)))
  {
    tree.left := l;
    UpdateHeight(tree);
  }

  method AttachRight<V>(tree: Node<V>, t: Node?<V>, ghost other: Node?<V>)
    requires tree.left == other && ValidTree(other) && ValidTree(t)
    requires tree !in ReprOf(t) + ReprOf(other) && ReprOf(t) !! ReprOf(other)
    modifies tree
    ensures tree.Valid() && tree.Repr == {tree} + ReprOf(t) + ReprOf(other)
    ensures tree.Shape == Update(Branch(ShapeOf(other), old(tree.key), old(tree.value), old(tree.height), ShapeOf(t)))
  {
    tree.right := t;
    UpdateHeight(tree);
  }

  method InsertLeft<V>(tree: Node<V>, key: int, value: V, order: Order)
    requires tree.Valid() && InsertSafe(tree.Shape.left, key, value, order)
    modifies tree.Repr
    ensures tree.Valid() && fresh(tree.Repr - old(tree.Repr))
    ensures tree.Shape == Update(old(tree.Shape.(left := Insert(tree.Shape.left, key, value, order))))
    decreases tree.Shape, 0
  {
    ghost var other := tree.right;
    var l := InsertNode(tree.left, key, value, order);
    AttachLeft(tree, l, other);
  }

  method InsertRight<V>(tree: Node<V>, key: int, value: V, order: Order)
    requires tree.Valid() && InsertSafe(tree.Shape.right, key, value, order)
    modifies tree.Repr
    ensures tree.Valid() && fresh(tree.Repr - old(tree.Repr))
    ensures tree.Shape == Update(old(tree.Shape.(right := Insert(tree.Shape.right, key, value, order))))
    decreases tree.Shape, 0
  {
    ghost var other := tree.left;
    var t := InsertNode(tree.right, key, value, order);
    AttachRight(tree, t, other);
  }

  /** `avl_insert`. The requirement is what the code needs to stay off null children. */
  method InsertNode<V>(tree: Node?<V>, key: int, value: V, order: Order) returns (r: Node<V>)
    requires ValidTree(tree) && InsertSafe(ShapeOf(tree), key, value, order)
    modifies ReprOf(tree)
    ensures r.Valid() && fresh(r.Repr - old(ReprOf(tree)))
    ensures r.Shape == Insert(old(ShapeOf(tree)), key, value, order)
    decreases ShapeOf(tree), 1
  {
    if tree == null {
      r := new Node(key, value);
    } else if key < tree.key {
      InsertLeft(tree, key, value, order);
      r := RebalanceInserted(tree, key, order);
    } else if key > tree.key {
      InsertRight(tree, key, value, order);
      r := RebalanceInserted(tree, key, order);
    } else {
      r := tree;
    }
  }

  /** The rotations at the end of a removal. */
  method RebalanceRemoved<V>(tree: Node<V>, order: Order) returns (r: Node<V>)
    requires tree.Valid() && Positive(tree.Shape)
    modifies tree.Repr
    ensures r.Valid() && r.Repr <= old(tree.Repr)
    ensures r.Shape == FixRemove(old(tree.Shape), order)
  {
    var balance := GetBalance(tree);
    ghost var left, right := tree.Shape.left, tree.Shape.right;
    assert Positive(left) && Positive(right);
    assert left.Branch? ==> Positive(left.left);
    assert right.Branch? ==> Positive(right.right);
    var leanLeft := GetBalance(tree.left);
    var leanRight := GetBalance(tree.right);
    if balance > 1 && leanLeft >= 0 {
      r := RotateRightNode(tree, order);
    } else if balance > 1 && leanLeft < 0 {
      RotateLeftChild(tree);
      r := RotateRightNode(tree, order);
    } else if balance < -1 && leanRight <= 0 {
      r := RotateLeftNode(tree);
    } else if balance < -1 && leanRight > 0 {
      RotateRightChild(tree, order);
      r := RotateLeftNode(tree);
    } else {
      r := tree;
    }
  }

  /** The loop of the two-child case: walks to the least node below `tree`. */
  method FindLeast<V>(tree: Node<V>) returns (min: Node<V>)
    requires tree.Valid()
    ensures min in tree.Repr && min.Valid()
    ensures min.key == Least(tree.Shape).key && min.value == Least(tree.Shape).value
  {
    min := tree;
    while min.left != null
      invariant min.Valid() && min.Repr <= tree.Repr
      invariant Least(min.Shape) == Least(tree.Shape)
      decreases min.Shape
    {
      min := min.left;
    }
  }

  /** The splice: the only child is copied over the node and then freed. */
  method Splice<V>(tree: Node<V>, child: Node<V>)
    requires tree.Valid() && (child == tree.left || child == tree.right)
    modifies tree
    ensures tree.Valid() && tree.Repr <= old(tree.Repr) && child !in tree.Repr
    ensures tree.Shape == old(child.Shape)
  {
    ghost var l, r := child.left, child.right;
    tree.height, tree.key, tree.value := child.height, child.key, child.value;
    tree.left, tree.right := child.left, child.right;
    tree.Repr := {tree} + ReprOf(l) + ReprOf(r);
    tree.Shape := child.Shape;
  }

  method RemoveLeft<V>(tree: Node<V>, key: int, order: Order)
    requires tree.Valid() && Searchable(tree.Shape.left)
    modifies tree.Repr
    ensures tree.Valid() && tree.Repr <= old(tree.Repr)
    ensures tree.Shape == Update(old(tree.Shape.(left := Remove(tree.Shape.left, key, order))))
    decreases tree.Shape, 0
  {
    ghost var other := tree.right;
    var l := RemoveNode(tree.left, key, order);
    AttachLeft(tree, l, other);
  }

  method RemoveRight<V>(tree: Node<V>, key: int, order: Order)
    requires tree.Valid() && Searchable(tree.Shape.right)
    modifies tree.Repr
    ensures tree.Valid() && tree.Repr <= old(tree.Repr)
    ensures tree.Shape == Update(old(tree.Shape.(right := Remove(tree.Shape.right, key, order))))
    decreases tree.Shape, 0
  {
    ghost var other := tree.left;
    var t := RemoveNode(tree.right, key, order);
    AttachRight(tree, t, other);
  }

  /** The two-child case: the node takes over the least pair of its right subtree. */
  method ReplaceByLeast<V>(tree: Node<V>, order: Order)
    requires tree.Valid() && tree.right != null && Searchable(tree.Shape.right)
    modifies tree.Repr
    ensures tree.Valid() && tree.Repr <= old(tree.Repr) && old(tree.Shape.right).Branch?
    ensures var least := Least(old(tree.Shape.right));
            tree.Shape == Update(old(tree.Shape).(key := least.key, value := least.value,
                                 right := Remove(old(tree.Shape.right), least.key, order)))
    decreases tree.Shape, 1
  {
    var min := FindLeast(tree.right);
    ghost var l := tree.left;
    var r := tree.right;
    tree.key := min.key;
    tree.value := min.value;
    assert ValidTree(l) && ValidTree(r);
    var t := RemoveNode(r, min.key, order);
    AttachRight(tree, t, l);
  }

  /** `avl_remove`, in either order; no case dereferences a null child. */
  method RemoveNode<V>(tree: Node?<V>, key: int, order: Order) returns (r: Node?<V>)
    requires ValidTree(tree) && Searchable(ShapeOf(tree))
    modifies ReprOf(tree)
    ensures ValidTree(r) && ReprOf(r) <= old(ReprOf(tree))
    ensures ShapeOf(r) == Remove(old(ShapeOf(tree)), key, order)
    decreases ShapeOf(tree), 2
  {
    if tree == null {
      return null;
    }
    ghost var shape := tree.Shape;
    assert Searchable(shape.left) && Searchable(shape.right);
    if key < tree.key {
      RemoveLeft(tree, key, order);
    } else if key > tree.key {
      RemoveRight(tree, key, order);
    } else if tree.left == null || tree.right == null {
      var child := if tree.left == null then tree.right else tree.left;
      if child == null {
        return null;
      }
      Splice(tree, child);
      assert tree.Shape == if shape.left.Leaf? then shape.right else shape.left;
      UpdateHeight(tree);
    } else {
      assert tree.left.Valid() && tree.right.Valid();
      ReplaceByLeast(tree, order);
    }
    assert tree.Shape == BeforeFix(shape, key, order);
    PositiveAfterRemove(shape, key, order);
    r := RebalanceRemoved(tree, order);
  }

  /** `avl_get`; `None` stands for the null pointer of an absent key. */
  method Get<V>(tree: Node?<V>, key: int) returns (value: Option<V>)
    requires ValidTree(tree) && Searchable(ShapeOf(tree))
    ensures value == if key in Model(ShapeOf(tree)) then Some(Model(ShapeOf(tree))[key]) else None
  {
    var n := tree;
    while n != null
      invariant ValidTree(n) && Searchable(ShapeOf(n))
      invariant key in Model(ShapeOf(n)) <==> key in Model(ShapeOf(tree))
      invariant key in Model(ShapeOf(n)) ==> Model(ShapeOf(n))[key] == Model(ShapeOf(tree))[key]
      decreases ShapeOf(n)
    {
      ghost var shape := n.Shape;
      assert Searchable(shape.left) && Searchable(shape.right);
      if key < n.key {
        n := n.left;
      } else if key > n.key {
        n := n.right;
      } else {
        return Some(n.value);
      }
    }
    value := None;
  }
}
