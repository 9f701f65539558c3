/**
 * `queue.c`: a linked first-in-first-out queue. (The comment of include/queue.h
 * calls it last-in-first-out; the code takes from the end that it does not
 * insert at.) `Contents` is the queue as a sequence, oldest entry first.
 */
module Queue {
  import opened Types

  class QueueNode<T> {
    var ptr: T
    var next: QueueNode?<T>

    constructor (ptr: T)
      ensures this.ptr == ptr && next == null
    {
      this.ptr, next := ptr, null;
    }
  }

  class Queue<T> {
    var first: QueueNode?<T>
    var last: QueueNode?<T>
    var count: int
    ghost var Contents: seq<T>
    ghost var Spine: seq<QueueNode<T>>
    ghost var Nodes: set<QueueNode<T>>

    ghost predicate Valid()
      reads this, Nodes
    {
      && (forall i | 0 <= i < |Spine| :: Spine[i] in Nodes)
      && count == |Spine| == |Contents|
      && first == (if |Spine| == 0 then null else Spine[0])
      && last == (if |Spine| == 0 then null else Spine[|Spine| - 1])
      && (forall i | 0 <= i < |Spine| :: Spine[i].ptr == Contents[i])
      && (forall i | 0 <= i < |Spine| - 1 :: Spine[i].next == Spine[i + 1])
      && (last != null ==> last.next == null)
      && (forall i, j | 0 <= i < j < |Spine| :: Spine[i] != Spine[j])
    }

    constructor ()
      ensures Valid() && fresh(Nodes) && Contents == []
    {
      first, last, count := null, null, 0;
      Contents, Spine, Nodes := [], [], {};
    }

    /** `queue_insert`; `memory` says whether the allocation of its node succeeds. */
    method Insert(ptr: T, memory: bool) returns (status: Status)
      requires Valid()
      modifies this, Nodes
      ensures Valid() && fresh(Nodes - old(Nodes))
      ensures status == if memory then ENone else ENoMem
      ensures Contents == if memory then old(Contents) + [ptr] else old(Contents)
    {
      if !memory {
        return ENoMem;
      }
      var node := new QueueNode(ptr);
      if last == null {
        first, last := node, node;
      } else {
        last.next := node;
        last := node;
      }
      count := count + 1;
      Contents, Spine, Nodes := Contents + [ptr], Spine + [node], Nodes + {node};
      status := ENone;
    }

    /** `queue_get_next`; `None` stands for the null pointer of an empty queue. */
    method GetNext() returns (ptr: Option<T>)
      requires Valid()
      modifies this
      ensures Valid() && Nodes == old(Nodes)
      ensures old(Contents) == [] ==> ptr == None && Contents == []
      ensures old(Contents) != [] ==> ptr == Some(old(Contents)[0]) && Contents == old(Contents)[1..]
    {
      var node := first;
      if node == null {
        return None;
      }
      assert node == Spine[0];
      first := node.next;
      if first == null {
        last := null;
      }
      count := count - 1;
      ptr := Some(node.ptr);
      ghost var old0 := Spine;
      Contents, Spine := Contents[1..], Spine[1..];
      assert forall i | 0 <= i < |Spine| :: Spine[i] == old0[i + 1];
    }
  }

  /** The draining loop of `kernel_terminate_process`: every entry comes out once, oldest first. */
  method Drain<T>(queue: Queue<T>) returns (taken: seq<T>)
    requires queue.Valid()
    modifies queue
    ensures queue.Valid() && queue.Nodes == old(queue.Nodes) && queue.Contents == []
    ensures taken == old(queue.Contents)
  {
    taken := [];
    var msg := queue.GetNext();
    while msg != None
      invariant queue.Valid() && queue.Nodes == old(queue.Nodes)
      invariant msg == None ==> queue.Contents == [] && taken == old(queue.Contents)
      invariant msg.Some? ==> taken + [msg.value] + queue.Contents == old(queue.Contents)
      decreases |queue.Contents| + if msg.Some? then 1 else 0
    {
      taken := taken + [msg.value];
      msg := queue.GetNext();
    }
  }
}
