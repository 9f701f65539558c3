/**
 * `priorityqueue.c` on its array. `Contents()` is the live part of the array;
 * every operation is proved against the function of HeapShape that says what it
 * does to the live entries, and states what that means for the queue.
 */
module PriorityQueue {
  import opened Types
  import opened HeapShape

  class PriorityQueue<T(0, ==)> {
    const heap: array<Entry<T>>
    var size: nat

    ghost predicate Valid()
      reads this
    {
      size <= heap.Length
    }

    ghost function Contents(): seq<Entry<T>>
      requires Valid()
      reads this, heap
    {
      heap[..size]
    }

    /** `construct_priority_queue`; `memory` says whether the allocation of the heap succeeds. */
    static method Construct(capacity: nat, memory: bool) returns (status: Status, queue: PriorityQueue?<T>)
      ensures status == if memory then ENone else ENoMem
      ensures queue != null <==> memory
      ensures queue != null ==>
                && fresh(queue) && fresh(queue.heap) && queue.Valid()
                && queue.heap.Length == capacity && queue.Contents() == []
    {
      if !memory {
        return ENoMem, null;
      }
      queue := new PriorityQueue(capacity);
      status := ENone;
    }

    constructor (capacity: nat)
      ensures Valid() && fresh(heap) && heap.Length == capacity && Contents() == []
    {
      heap := new Entry<T>[capacity];
      size := 0;
    }

    method SwapSlots(i: nat, j: nat)
      requires i <= size < heap.Length && j <= size
      modifies heap
      ensures heap[..size + 1] == Swap(old(heap[..size + 1]), i, j)
    {
      var buffer := heap[i];
      heap[i] := heap[j];
      heap[j] := buffer;
    }

    /** `heapify`. Slot `size` is read, so it has to be inside the array. */
    method Heapify(i: nat)
      requires size < heap.Length
      modifies heap
      ensures heap[..size + 1] == Sift(old(heap[..size + 1]), size, i)
      decreases size - i
    {
      hide Swap;
      var l, r := 2 * i + 1, 2 * i + 2;
      if l >= size {
        return;
      } else if heap[l].priority <= heap[i].priority && heap[l].priority <= heap[r].priority {
        SwapSlots(i, l);
        Heapify(l);
      } else if heap[r].priority <= heap[i].priority && heap[r].priority <= heap[l].priority {
        SwapSlots(i, r);
        Heapify(r);
      }
    }

    /** `priorityqueue_insert`. */
    method Insert(value: T, priority: int) returns (status: Status)
      requires Valid()
      modifies this, heap
      ensures Valid()
      ensures status == if old(size) == heap.Length then ENoMem else ENone
      ensures Contents() == if old(size) == heap.Length then old(Contents())
                            else Push(old(Contents()), Entry(value, priority))
    {
      if size == heap.Length {
        return ENoMem;
      }
      ghost var before := Contents();
      ghost var e := Entry(value, priority);
      var i: nat := size;
      size := size + 1;
      RaiseFillsSlot(heap[..size], i, e, e);
      assert heap[..size][i := e] == before + [e];
      while i > 0 && heap[(i - 1) / 2].priority > priority
        invariant i < size <= heap.Length
        invariant Raise(heap[..size], i, e) == Push(before, e)
      {
        assert Raise(heap[..size], i, e) == Raise(heap[..size][i := heap[Parent(i)]], Parent(i), e);
        heap[i] := heap[(i - 1) / 2];
        i := (i - 1) / 2;
      }
      heap[i] := Entry(value, priority);
      status := ENone;
    }

    /** `priorityqueue_extract_min`; `None` stands for the null pointer of an empty queue. */
    method ExtractMin() returns (value: Option<T>)
      requires Valid()
      modifies this, heap
      ensures Valid()
      ensures old(Contents()) == [] ==> value == None && Contents() == []
      ensures old(Contents()) != [] ==>
                && value == Some(old(Contents())[0].value)
                && Contents() == Pop(old(Contents()))
    {
      if size == 0 {
        return None;
      }
      size := size - 1;
      value := Some(heap[0].value);
      heap[0] := heap[size];
      assert heap[..size + 1] == old(Contents())[0 := old(Contents())[size]];
      Heapify(0);
    }

    /** `priorityqueue_remove`: takes out the first entry with the given value. */
    method Remove(value: T) returns (status: Status, ghost slot: nat)
      requires Valid()
      modifies this, heap
      ensures Valid()
      ensures status == EOutOfBounds || status == ENone
      ensures status == EOutOfBounds ==>
                && Contents() == old(Contents())
                && forall e <- old(Contents()) :: e.value != value
      ensures status == ENone ==>
                && slot < |old(Contents())| && old(Contents())[slot].value == value
                && (forall j | 0 <= j < slot :: old(Contents())[j].value != value)
                && Contents() == Delete(old(Contents()), slot)
    {
      slot := 0;
      var i := 0;
      while i < size
        invariant i <= size == old(size) && heap[..] == old(heap[..])
        invariant forall j | 0 <= j < i :: heap[j].value != value
      {
        if heap[i].value == value {
          size := size - 1;
          heap[i] := heap[size];
          slot := i;
          assert heap[..size + 1] == old(Contents())[i := old(Contents())[size]];
          Heapify(i);
          return ENone, slot;
        }
        i := i + 1;
      }
      status := EOutOfBounds;
    }
  }
}
