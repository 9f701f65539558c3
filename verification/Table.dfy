/**
 * An AVL tree in memory as a table: a finite map from numbers to objects. The
 * kernel keeps its processes and ports in two of these. A table has the order of
 * its right rotations (see AvlShape.Order). In either order it is a map; in the
 * child-first order it is an AVL tree as well, and takes every new key. In the
 * written order a new key has to be one that its rotations can take, which the
 * keys and heights in the table decide.
 */
module Table {
  import opened Types
  import A = AvlShape
  import B = AvlBalance
  import W = AvlWritten
  import T = AvlTree

  ghost predicate Ok<V>(n: T.Node?<V>, order: A.Order)
    reads n, T.ReprOf(n)
  {
    && T.ValidTree(n) && A.Searchable(T.ShapeOf(n))
    && (order == A.ChildFirst ==> A.Avl(T.ShapeOf(n)))
  }

  ghost function Contents<V>(n: T.Node?<V>): map<int, V>
    reads n
  {
    A.Model(T.ShapeOf(n))
  }

  /** No step of an insertion of the key dereferences a null child. */
  ghost predicate CanAdd<V>(n: T.Node?<V>, key: int, order: A.Order)
    reads n
  {
    A.InsertSafe(A.Erase(T.ShapeOf(n)), key, (), order)
  }

  /** While the tree is an AVL tree, as it always is child first, every key can be added. */
  lemma AvlTakesAll<V>(n: T.Node?<V>, key: int, order: A.Order)
    requires A.Avl(T.ShapeOf(n))
    ensures CanAdd(n, key, order)
  {
    var t := T.ShapeOf(n);
    if t.Branch? {
      if order == A.ChildFirst {
        B.InsertIsSafe(t, key, t.value);
      } else {
        W.WrittenInsertIsSafe(t, key, t.value);
      }
      A.SafetyIgnoresValues(t, key, t.value, order);
    }
  }

  /** In either order an AVL tree stays one when it gets a number above all that it has. */
  lemma RisingStaysAvl<V>(t: A.Tree<V>, key: int, value: V, order: A.Order)
    requires A.Avl(t) && forall k <- A.Model(t) :: k < key
    ensures A.Avl(A.Insert(t, key, value, order))
  {
    if order == A.ChildFirst {
      B.InsertKeepsAvl(t, key, value);
    } else {
      W.RisingKeysKeepAvl(t, key, value);
    }
  }

  lemma Takes<V>(n: T.Node?<V>, key: int, order: A.Order)
    requires Ok(n, order) && (order == A.RootFirst ==> CanAdd(n, key, order))
    ensures CanAdd(n, key, order)
  {
    if order == A.ChildFirst {
      AvlTakesAll(n, key, order);
    }
  }

  /** A null result means that the key is absent, since tables hold no null values. */
  method Lookup<V>(n: T.Node?<V>, key: int, ghost order: A.Order) returns (value: Option<V>)
    requires Ok(n, order)
    ensures value == if key in Contents(n) then Some(Contents(n)[key]) else None
  {
    value := T.Get(n, key);
  }

  method Add<V>(n: T.Node?<V>, key: int, value: V, order: A.Order) returns (r: T.Node<V>)
    requires Ok(n, order) && CanAdd(n, key, order)
    modifies T.ReprOf(n)
    ensures Ok(r, order) && fresh(T.ReprOf(r) - old(T.ReprOf(n)))
    ensures Contents(r) == A.Added(old(Contents(n)), key, value)
    ensures T.ShapeOf(r) == A.Insert(old(T.ShapeOf(n)), key, value, order)
  {
    ghost var t := T.ShapeOf(n);
    A.SafetyIgnoresValues(t, key, value, order);
    A.InsertContents(t, key, value, order);
    if order == A.ChildFirst {
      B.InsertKeepsAvl(t, key, value);
    }
    r := T.InsertNode(n, key, value, order);
  }

  method Drop<V>(n: T.Node?<V>, key: int, order: A.Order) returns (r: T.Node?<V>)
    requires Ok(n, order)
    modifies T.ReprOf(n)
    ensures Ok(r, order) && T.ReprOf(r) <= old(T.ReprOf(n))
    ensures Contents(r) == old(Contents(n)) - {key}
    ensures T.ShapeOf(r) == A.Remove(old(T.ShapeOf(n)), key, order)
  {
    ghost var t := T.ShapeOf(n);
    A.RemoveContents(t, key, order);
    if order == A.ChildFirst {
      B.RemoveKeepsAvl(t, key);
    }
    r := T.RemoveNode(n, key, order);
  }
}
