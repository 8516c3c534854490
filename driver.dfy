/** Scenarios over the list: the program's `main`, with what each of its
    `print_list` calls walks; a slab filled up to its capacity; and the reuse
    order of freed slots. */
module Driver {
  import opened Slab
  import opened LinkedLists

  /** `first_mut().unwrap().next().unwrap().remove()`: remove the second
      element through cursors. */
  method RemoveSecond<T>(list: LinkedList<T>)
    requires list.Valid() && |list.Contents| >= 2
    modifies list, list.buff
    ensures list.Valid() && list.buff == old(list.buff)
    ensures list.Contents == old(list.Contents[..1] + list.Contents[2..])
  {
    var first := list.First();
    list.NextAt(0);
    var second := list.Next(first.value);
    IndexOfDistinct(list.LiveSlots, 1);
    list.RemoveEntry(second.value);
  }

  /** `last_mut().unwrap().pre().unwrap().remove()`: remove the element
      before the last through cursors. */
  method RemoveBeforeLast<T>(list: LinkedList<T>)
    requires list.Valid() && |list.Contents| >= 2
    modifies list, list.buff
    ensures list.Valid() && list.buff == old(list.buff)
    ensures var n := |old(list.Contents)|;
      list.Contents == old(list.Contents[..n - 2] + list.Contents[n - 1..])
  {
    var n := |list.Contents|;
    var last := list.Last();
    list.PreAt(n - 1);
    var before := list.Pre(last.value);
    IndexOfDistinct(list.LiveSlots, n - 2);
    list.RemoveEntry(before.value);
  }

  /** `first_mut().unwrap().insert_after_this(v)`. */
  method InsertAfterFirst<T>(list: LinkedList<T>, v: T)
    requires list.Valid() && 1 <= |list.Contents| < CHUNK_SIZE - 2
    modifies list, list.buff
    ensures list.Valid() && list.buff == old(list.buff)
    ensures list.Contents == old(list.Contents[..1]) + [v] + old(list.Contents[1..])
  {
    var first := list.First();
    IndexOfDistinct(list.LiveSlots, 0);
    var _ := list.InsertAfterEntry(first.value, v);
  }

  /** `last_mut().unwrap().insert_before_this(v)`. */
  method InsertBeforeLast<T>(list: LinkedList<T>, v: T)
    requires list.Valid() && 1 <= |list.Contents| < CHUNK_SIZE - 2
    modifies list, list.buff
    ensures list.Valid() && list.buff == old(list.buff)
    ensures var n := |old(list.Contents)|;
      list.Contents == old(list.Contents[..n - 1]) + [v] + old(list.Contents[n - 1..])
  {
    var last := list.Last();
    IndexOfDistinct(list.LiveSlots, |list.LiveSlots| - 1);
    var _ := list.InsertBeforeEntry(last.value, v);
  }

  /** The first lines of `main`: push 1, 2, 3 onto a new list and walk it. */
  method Start() returns (list: LinkedList<int>, a: seq<int>)
    ensures fresh(list) && fresh(list.buff) && list.Valid()
    ensures list.Contents == [1, 2, 3] && a == [1, 2, 3]
  {
    list := FillThree();
    a := list.ForwardValues();
  }

  /** The middle lines of `main`: remove the second element and walk the
      list, push 4 at the head and walk it, remove the element before the
      last and walk it. */
  method Middle(list: LinkedList<int>) returns (b: seq<int>, c: seq<int>, d: seq<int>)
    requires list.Valid() && list.Contents == [1, 2, 3]
    modifies list, list.buff
    ensures list.Valid() && list.buff == old(list.buff)
    ensures list.Contents == [4, 3] && b == [1, 3] && c == [4, 1, 3] && d == [4, 3]
  {
    RemoveSecond(list);
    b := list.ForwardValues();
    var _ := list.PushHead(4);
    c := list.ForwardValues();
    RemoveBeforeLast(list);
    d := list.ForwardValues();
  }

  /** The last lines of `main`: insert 5 after the first element and 6
      before the last, and walk the list. */
  method Finish(list: LinkedList<int>) returns (e: seq<int>)
    requires list.Valid() && list.Contents == [4, 3]
    modifies list, list.buff
    ensures list.Valid() && list.buff == old(list.buff)
    ensures e == [4, 5, 6, 3]
  {
    InsertAfterFirst(list, 5);
    InsertBeforeLast(list, 6);
    e := list.ForwardValues();
  }

  /** `main`: the sequences its five `print_list` calls walk. */
  method Demo() returns (a: seq<int>, b: seq<int>, c: seq<int>, d: seq<int>, e: seq<int>)
    ensures a == [1, 2, 3] && b == [1, 3] && c == [4, 1, 3] && d == [4, 3] && e == [4, 5, 6, 3]
  {
    var list;
    list, a := Start();
    b, c, d := Middle(list);
    e := Finish(list);
  }

  /** Filling a new list: CHUNK_SIZE - 2 pushes succeed, and the next
      insertion does not hand its value back through the range guard on
      `none_index` but panics, the free chain having run into the Tail. */
  method Exhaust() returns (succeeded: nat, last: InsertOutcome<int>)
    ensures succeeded == CHUNK_SIZE - 2 && last.Panicked?
  {
    var list := new LinkedList<int>();
    succeeded := 0;
    var i := 0;
    while i < CHUNK_SIZE - 2
      invariant i <= CHUNK_SIZE - 2 && succeeded == i
      invariant list.Valid() && fresh(list.buff) && |list.Contents| == i
    {
      var panicked := list.PushBack(i);
      if !panicked {
        succeeded := succeeded + 1;
      }
      i := i + 1;
    }
    last := list.InsertBefore(TAIL, i);
  }

  /** Pushing 1, 2, 3 onto a new list fills slots 2, 3, 4, the first three
      of the free chain. */
  method FillThree() returns (list: LinkedList<int>)
    ensures fresh(list) && fresh(list.buff) && list.Valid()
    ensures list.LiveSlots == [2, 3, 4] && list.Contents == [1, 2, 3]
  {
    list := new LinkedList<int>();
    assert list.FreeSlots[0] == 2 && list.FreeSlots[1] == 3 && list.FreeSlots[2] == 4;
    var _ := list.PushBack(1);
    var _ := list.PushBack(2);
    var _ := list.PushBack(3);
  }

  /** Removing the values in slots 4 and then 2 puts slot 2 in front of
      slot 4 on the free chain. */
  method FreeTwo() returns (list: LinkedList<int>)
    ensures fresh(list) && fresh(list.buff) && list.Valid()
    ensures list.LiveSlots == [3] && |list.FreeSlots| >= 2
    ensures list.FreeSlots[0] == 2 && list.FreeSlots[1] == 4
  {
    list := FillThree();
    IndexOfDistinct(list.LiveSlots, 2);
    var _ := list.Remove(4);
    assert list.LiveSlots == [2, 3];
    IndexOfDistinct(list.LiveSlots, 0);
    var _ := list.Remove(2);
  }

  /** Freed slots are reused last in, first out: after `FreeTwo` the next two
      pushes land in slot 2 and then slot 4. */
  method Reuse() returns (firstSlot: nat, secondSlot: nat)
    ensures firstSlot == 2 && secondSlot == 4
  {
    var list := FreeTwo();
    var _ := list.PushBack(7);
    var last := list.Last();
    firstSlot := last.value.index;
    var _ := list.PushBack(8);
    last := list.Last();
    secondSlot := last.value.index;
  }
}
