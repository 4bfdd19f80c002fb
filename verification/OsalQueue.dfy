/** The event queue without an operating system (src/osal/osal_none.h): whole items over
    the byte FIFO.  A send or receive reports success when any byte moved; that is right
    only because the depth is a whole number of items. */
module OsalQueue {
  import opened Basics
  import opened RingIndex
  import opened RingFifo

  predicate AreItems(items: seq<seq<byte>>, size: nat) {
    forall i :: 0 <= i < |items| ==> |items[i]| == size
  }

  lemma {:induction false} FlattenLength(items: seq<seq<byte>>, size: nat)
    requires AreItems(items, size)
    ensures |Flatten(items)| == |items| * size
  {
    if items != [] {
      FlattenLength(items[1..], size);
      assert |items| * size == size + (|items| - 1) * size;
    }
  }

  /** Whole items leave whole items of room: either none is free, or one fits. */
  lemma RoomIsWhole(held: nat, capacity: nat, size: nat)
    requires held <= capacity && 0 < size
    ensures held < capacity <==> size <= capacity * size - held * size
    ensures held == capacity ==> capacity * size - held * size == 0
  {
    assert capacity * size - held * size == (capacity - held) * size;
    assert capacity - held >= 1 ==> (capacity - held) * size >= size;
  }

  class Queue {
    const itemSize: nat
    const capacity: nat
    const ff: Fifo
    /** The items held, oldest first. */
    ghost var items: seq<seq<byte>>

    ghost predicate Valid()
      reads this, ff, ff.buffer
    {
      && 0 < itemSize && itemSize < U16 && 0 < capacity
      && ff.Valid() && !ff.overwritable && ff.Unread() <= ff.depth && ff.depth == capacity * itemSize
      && AreItems(items, itemSize) && |items| <= capacity
      && ff.Contents() == Flatten(items)
    }

    /** `OSAL_QUEUE_DEF` and `osal_queue_create`. */
    constructor (itemSize: nat, capacity: nat, buf: array<byte>)
      requires 0 < itemSize < U16 && 0 < capacity && buf.Length == capacity * itemSize <= 0x8000
      ensures Valid() && items == [] && this.itemSize == itemSize && this.capacity == capacity
      ensures fresh(ff) && ff.buffer == buf
    {
      assert capacity * itemSize >= 1;
      this.itemSize, this.capacity := itemSize, capacity;
      ff := new Fifo(buf, false);
      items := [];
    }

    /** `osal_queue_send`: it fails exactly when the queue is full, and never stores part of
        an item. */
    method Send(item: seq<byte>) returns (ok: bool)
      requires Valid() && |item| == itemSize
      modifies this`items, ff`wr_idx, ff.buffer
      ensures Valid() && (ok <==> |old(items)| < capacity)
      ensures items == if ok then old(items) + [item] else old(items)
    {
      FlattenLength(items, itemSize);
      RoomIsWhole(|items|, capacity, itemSize);
      FlattenSnoc(items, item);
      var n := ff.WriteN(item);
      ok := n > 0;
      if ok {
        assert item[..n] == item;
        items := items + [item];
      } else {
        assert ff.Contents() == Flatten(items) + item[..0];
      }
    }

    /** `osal_queue_receive`: it fails exactly when the queue is empty, and always takes one
        whole item, the oldest. */
    method Receive() returns (ok: bool, item: seq<byte>)
      requires Valid()
      modifies this`items, ff`rd_idx
      ensures Valid() && (ok <==> old(items) != [])
      ensures ok ==> [item] + items == old(items)
      ensures !ok ==> items == old(items)
    {
      FlattenLength(items, itemSize);
      if items != [] { assert |items| * itemSize >= itemSize; }
      item := ff.ReadN(itemSize);
      ok := |item| > 0;
      if ok {
        assert item == items[0] && ff.Contents() == Flatten(items[1..]);
        items := items[1..];
      }
    }
  }
}
