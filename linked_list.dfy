/** The slab-backed doubly-linked list: a fixed slab of CHUNK_SIZE slots whose
    links are slot indices, with the free slots threaded through the same slab
    as a singly-linked free chain; its insertion and removal splices, its read
    accessors, and the cursors (`LinkedEntry`, `LinkedEntryMut`) over it. */
module LinkedLists {
  import opened Slab

  /** Number of slots in the slab; construction takes no capacity. */
  const CHUNK_SIZE: nat := 1024

  /** What an insertion comes to.  `Inserted` is the source's `None` and
      `Rejected(value)` its `Some(value)`, the value handed back.  `Panicked`
      is the `unreachable!("none_index is invalid")` the source runs into once
      the free chain is exhausted: the chain ends at index 1, the Tail, so the
      range guard on `none_index` never rejects and the free-slot lookup finds
      the Tail instead. */
  datatype InsertOutcome<T> = Inserted | Rejected(value: T) | Panicked

  /** What `get` returns for a Value slot: its value and neighbour indices. */
  datatype ValueRef<T> = ValueRef(value: T, pre: nat, next: nat)

  /** A cursor, `LinkedEntry` or `LinkedEntryMut`: a slot index with the
      neighbour indices cached when the cursor was made. */
  datatype Entry = Entry(index: nat, pre: nat, next: nat)

  /** `s` back to front. */
  ghost function Reversed<X>(s: seq<X>): (r: seq<X>)
    ensures |r| == |s|
    ensures forall k :: 0 <= k < |s| ==> r[k] == s[|s| - 1 - k]
  {
    if s == [] then [] else [s[|s| - 1]] + Reversed(s[..|s| - 1])
  }

  class LinkedList<T> {
    var buff: array<Node<T>>
    var noneIndex: nat

    /** The abstract view: the slots of the value chain from Header to Tail,
        the values stored along it, and the free chain from `noneIndex`. */
    ghost var LiveSlots: seq<nat>
    ghost var Contents: seq<T>
    ghost var FreeSlots: seq<nat>

    ghost predicate Valid()
      reads this, buff
    {
      buff.Length == CHUNK_SIZE && WellFormed(buff[..], LiveSlots, Contents, FreeSlots, noneIndex)
    }

    /** The cursor at the `k`-th element, as `first`, `last`, `next` and `pre`
        make it. */
    ghost function EntryAt(k: nat): Entry
      reads this
      requires k < |LiveSlots|
    {
      Entry(LiveSlots[k], Before(LiveSlots, k), After(LiveSlots, k + 1))
    }

    /** `new`: Header and Tail linked to each other, every other slot free and
        chained in ascending order, the last one ending the chain at the Tail. */
    constructor ()
      ensures Valid() && fresh(buff)
      ensures Contents == [] && LiveSlots == [] && FreeSlots == InitialFree(CHUNK_SIZE)
      ensures noneIndex == 2
      ensures buff[HEADER] == Header(TAIL) && buff[TAIL] == Tail(HEADER)
      ensures forall j :: 2 <= j < CHUNK_SIZE - 1 ==> buff[j] == Free(j + 1)
      ensures buff[CHUNK_SIZE - 1] == Free(TAIL)
    {
      var b := new Node<T>[CHUNK_SIZE](j => if j == HEADER then Header(TAIL) else Tail(HEADER));
      // resize_with: a counter starting at 2, incremented before each new slot
      var i := 2;
      var slot := 2;
      while slot < CHUNK_SIZE
        invariant 2 <= slot <= CHUNK_SIZE && i == slot
        invariant b[HEADER] == Header(TAIL) && b[TAIL] == Tail(HEADER)
        invariant forall j :: 2 <= j < slot ==> b[j] == Free(j + 1)
      {
        i := i + 1;
        b[slot] := Free(i);
        slot := slot + 1;
      }
      b[CHUNK_SIZE - 1] := Free(TAIL);
      InitialWellFormed(b[..]);
      buff := b;
      noneIndex := 2;
      LiveSlots, Contents, FreeSlots := [], [], InitialFree(CHUNK_SIZE);
    }

    /** The mutable borrow of the `next` link of slot `i`, a Header or a
        Value, redirected to `n`. */
    method SetNext(i: nat, n: nat)
      requires i < buff.Length && (buff[i].Header? || buff[i].Value?)
      modifies buff
      ensures buff[..] == old(buff[..])[i := old(buff[i]).(next := n)]
    {
      match buff[i] {
        case Header(_) => buff[i] := Header(n);
        case Value(_, pre, v) => buff[i] := Value(n, pre, v);
      }
    }

    /** The mutable borrow of the `pre` link of slot `i`, a Tail or a Value,
        redirected to `p`. */
    method SetPre(i: nat, p: nat)
      requires i < buff.Length && (buff[i].Tail? || buff[i].Value?)
      modifies buff
      ensures buff[..] == old(buff[..])[i := old(buff[i]).(pre := p)]
    {
      match buff[i] {
        case Tail(_) => buff[i] := Tail(p);
        case Value(next, _, v) => buff[i] := Value(next, p, v);
      }
    }

    /** The three writes both insertions end with, on a list whose free-chain
        head `h` has just been taken (`noneIndex` already moved on): `h`
        becomes a Value holding `value` between `pre` and `next`, the two ends
        of gap `p` of the value chain.  `insert_before` makes the first two
        writes in the other order; they touch different slots. */
    method LinkIn(pre: nat, next: nat, h: nat, value: T, ghost p: nat)
      requires buff.Length == CHUNK_SIZE
      requires WellFormed(buff[..], LiveSlots, Contents, FreeSlots, h)
      requires FreeSlots != [] && noneIndex == After(FreeSlots, 1)
      requires p <= |LiveSlots| && pre == Before(LiveSlots, p) && next == After(LiveSlots, p)
      modifies this, buff
      ensures Valid() && buff == old(buff) && noneIndex == old(noneIndex)
      ensures LiveSlots == old(LiveSlots[..p]) + [h] + old(LiveSlots[p..])
      ensures Contents == old(Contents[..p]) + [value] + old(Contents[p..])
      ensures old(FreeSlots) == [h] + FreeSlots
      ensures SplicedIn(old(buff[..]), buff[..], old(LiveSlots), h, p, value)
    {
      ghost var s := buff[..];
      ghost var live', contents' := LiveSlots[..p] + [h] + LiveSlots[p..], Contents[..p] + [value] + Contents[p..];
      SpliceIn(s, LiveSlots, Contents, FreeSlots, h, p, value, live', contents', FreeSlots[1..], noneIndex);
      SetNext(pre, h);
      SetPre(next, h);
      buff[h] := Value(next, pre, value);
      assert buff[..] == LinkBetween(s, pre, next, h, value);
      assert FreeSlots == [h] + FreeSlots[1..];
      LiveSlots, Contents, FreeSlots := live', contents', FreeSlots[1..];
    }

    /** `insert_after`: splice a new value in just after slot `index`, which
        must be the Header or a Value.  The head of the free chain becomes the
        new Value; an anchor out of range or of another kind hands the value
        back and leaves the list as it was. */
    method InsertAfter(index: nat, value: T) returns (r: InsertOutcome<T>)
      requires Valid()
      modifies this, buff
      ensures Valid() && buff == old(buff)
      ensures r.Inserted? <==>
        index < CHUNK_SIZE && old(FreeSlots) != [] && (index == HEADER || index in old(LiveSlots))
      ensures r.Panicked? <==> index < CHUNK_SIZE && |old(Contents)| == CHUNK_SIZE - 2
      ensures r.Rejected? ==> r.value == value
      ensures !r.Inserted? ==> unchanged(this) && unchanged(buff)
      ensures r.Inserted? ==>
        var p := if index == HEADER then 0 else IndexOf(old(LiveSlots), index) + 1;
        && old(FreeSlots) == [old(noneIndex)] + FreeSlots
        && LiveSlots == old(LiveSlots[..p]) + [old(noneIndex)] + old(LiveSlots[p..])
        && Contents == old(Contents[..p]) + [value] + old(Contents[p..])
        && SplicedIn(old(buff[..]), buff[..], old(LiveSlots), old(noneIndex), p, value)
    {
      if index >= buff.Length || noneIndex >= buff.Length {
        return Rejected(value);
      }
      Capacity(buff[..], LiveSlots, Contents, FreeSlots, noneIndex);
      SlotKinds(buff[..], LiveSlots, Contents, FreeSlots, noneIndex, noneIndex);
      SlotKinds(buff[..], LiveSlots, Contents, FreeSlots, noneIndex, index);
      var newIndex := noneIndex;
      match buff[noneIndex] {
        case Free(next) =>
          assert buff[FreeSlots[0]] == Free(After(FreeSlots, 1));
          noneIndex := next;
        case _ => return Panicked;
      }
      ghost var p: nat := 0;
      var next: nat;
      match buff[index] {
        case Value(n, _, _) =>
          p := IndexOf(LiveSlots, index) + 1;
          assert buff[LiveSlots[p - 1]] == Value(After(LiveSlots, p), Before(LiveSlots, p - 1), Contents[p - 1]);
          next := n;
        case Header(n) =>
          next := n;
        case _ =>
          noneIndex := newIndex;
          return Rejected(value);
      }
      LinkIn(index, next, newIndex, value, p);
      r := Inserted;
    }

    /** `insert_before`: splice a new value in just before slot `index`, which
        must be the Tail or a Value; otherwise as `insert_after`. */
    method InsertBefore(index: nat, value: T) returns (r: InsertOutcome<T>)
      requires Valid()
      modifies this, buff
      ensures Valid() && buff == old(buff)
      ensures r.Inserted? <==>
        index < CHUNK_SIZE && old(FreeSlots) != [] && (index == TAIL || index in old(LiveSlots))
      ensures r.Panicked? <==> index < CHUNK_SIZE && |old(Contents)| == CHUNK_SIZE - 2
      ensures r.Rejected? ==> r.value == value
      ensures !r.Inserted? ==> unchanged(this) && unchanged(buff)
      ensures r.Inserted? ==>
        var p := if index == TAIL then |old(LiveSlots)| else IndexOf(old(LiveSlots), index);
        && old(FreeSlots) == [old(noneIndex)] + FreeSlots
        && LiveSlots == old(LiveSlots[..p]) + [old(noneIndex)] + old(LiveSlots[p..])
        && Contents == old(Contents[..p]) + [value] + old(Contents[p..])
        && SplicedIn(old(buff[..]), buff[..], old(LiveSlots), old(noneIndex), p, value)
    {
      if index >= buff.Length || noneIndex >= buff.Length {
        return Rejected(value);
      }
      Capacity(buff[..], LiveSlots, Contents, FreeSlots, noneIndex);
      SlotKinds(buff[..], LiveSlots, Contents, FreeSlots, noneIndex, noneIndex);
      SlotKinds(buff[..], LiveSlots, Contents, FreeSlots, noneIndex, index);
      var newIndex := noneIndex;
      match buff[noneIndex] {
        case Free(next) =>
          assert buff[FreeSlots[0]] == Free(After(FreeSlots, 1));
          noneIndex := next;
        case _ => return Panicked;
      }
      ghost var p: nat := |LiveSlots|;
      var pre: nat;
      match buff[index] {
        case Value(_, n, _) =>
          p := IndexOf(LiveSlots, index);
          assert buff[LiveSlots[p]] == Value(After(LiveSlots, p + 1), Before(LiveSlots, p), Contents[p]);
          pre := n;
        case Tail(n) =>
          pre := n;
        case _ =>
          noneIndex := newIndex;
          return Rejected(value);
      }
      LinkIn(pre, index, newIndex, value, p);
      r := Inserted;
    }

    /** `push_back`: `insert_before` the Tail, the outcome discarded.  It
        appends the value, or panics once the slab is full. */
    method PushBack(value: T) returns (panicked: bool)
      requires Valid()
      modifies this, buff
      ensures Valid() && buff == old(buff)
      ensures panicked <==> |old(Contents)| == CHUNK_SIZE - 2
      ensures panicked ==> unchanged(this) && unchanged(buff)
      ensures !panicked ==>
        && Contents == old(Contents) + [value]
        && LiveSlots == old(LiveSlots) + [old(noneIndex)]
        && old(FreeSlots) == [old(noneIndex)] + FreeSlots
    {
      ghost var c, live := Contents, LiveSlots;
      Capacity(buff[..], LiveSlots, Contents, FreeSlots, noneIndex);
      var r := InsertBefore(TAIL, value);
      panicked := r.Panicked?;
      if r.Inserted? {
        assert c[..|c|] == c && live[..|live|] == live;
      }
    }

    /** `push_head`: `insert_after` the Header, the outcome discarded.  It
        prepends the value, or panics once the slab is full. */
    method PushHead(value: T) returns (panicked: bool)
      requires Valid()
      modifies this, buff
      ensures Valid() && buff == old(buff)
      ensures panicked <==> |old(Contents)| == CHUNK_SIZE - 2
      ensures panicked ==> unchanged(this) && unchanged(buff)
      ensures !panicked ==>
        && Contents == [value] + old(Contents)
        && LiveSlots == [old(noneIndex)] + old(LiveSlots)
        && old(FreeSlots) == [old(noneIndex)] + FreeSlots
    {
      ghost var c, live := Contents, LiveSlots;
      Capacity(buff[..], LiveSlots, Contents, FreeSlots, noneIndex);
      var r := InsertAfter(HEADER, value);
      panicked := r.Panicked?;
      if r.Inserted? {
        assert c[0..] == c && live[0..] == live;
      }
    }

    /** The three writes of a removal: slot `i`, the `k`-th of the value chain,
        is unlinked from between its neighbours `pre` and `next` and put back
        as a Free slot at the head of the free chain, whose value it returns.
        The final write is `std::mem::replace`, whose old Value is matched. */
    method UnlinkOut(pre: nat, i: nat, next: nat, ghost k: nat) returns (v: T)
      requires Valid()
      requires k < |LiveSlots| && i == LiveSlots[k]
      requires pre == Before(LiveSlots, k) && next == After(LiveSlots, k + 1)
      modifies this, buff
      ensures Valid() && buff == old(buff)
      ensures v == old(Contents[k])
      ensures LiveSlots == old(LiveSlots[..k] + LiveSlots[k + 1..])
      ensures Contents == old(Contents[..k] + Contents[k + 1..])
      ensures FreeSlots == [i] + old(FreeSlots) && noneIndex == i
      ensures SplicedOut(old(buff[..]), buff[..], old(LiveSlots), k, old(noneIndex))
    {
      ghost var s := buff[..];
      ghost var live', contents', free' :=
        LiveSlots[..k] + LiveSlots[k + 1..], Contents[..k] + Contents[k + 1..], [i] + FreeSlots;
      SpliceOut(s, LiveSlots, Contents, FreeSlots, noneIndex, k, live', contents', free', i);
      SetNext(pre, next);
      SetPre(next, pre);
      var old_node := buff[i];
      buff[i] := Free(noneIndex);
      assert buff[..] == Unlink(s, pre, next, i, noneIndex);
      match old_node {
        case Value(_, _, value) =>
          noneIndex := i;
          v := value;
      }
      LiveSlots, Contents, FreeSlots := live', contents', free';
    }

    /** `remove`: take the Value at slot `index` out of the list and return
        its value.  Its neighbours are linked to each other and the slot goes
        to the front of the free chain, so it is the first one the next
        insertion takes.  Any other index, in range or not, is a no-op
        answered with None. */
    method Remove(index: nat) returns (r: Option<T>)
      requires Valid()
      modifies this, buff
      ensures Valid() && buff == old(buff)
      ensures r.Some? <==> index in old(LiveSlots)
      ensures r.None? ==> unchanged(this) && unchanged(buff)
      ensures r.Some? ==>
        var k := IndexOf(old(LiveSlots), index);
        && r.value == old(Contents[k])
        && LiveSlots == old(LiveSlots[..k] + LiveSlots[k + 1..])
        && Contents == old(Contents[..k] + Contents[k + 1..])
        && FreeSlots == [index] + old(FreeSlots) && noneIndex == index
        && SplicedOut(old(buff[..]), buff[..], old(LiveSlots), k, old(noneIndex))
    {
      if index >= buff.Length {
        return None;
      }
      SlotKinds(buff[..], LiveSlots, Contents, FreeSlots, noneIndex, index);
      var pre: nat, next: nat;
      match buff[index] {
        case Value(n, p, _) =>
          pre, next := p, n;
        case _ =>
          return None;
      }
      ghost var k := IndexOf(LiveSlots, index);
      assert buff[LiveSlots[k]] == Value(After(LiveSlots, k + 1), Before(LiveSlots, k), Contents[k]);
      var v := UnlinkOut(pre, index, next, k);
      r := Some(v);
    }

    /** `get`: the value and neighbour indices of slot `index` when it holds a
        Value; None for any other slot and for an index out of range. */
    function Get(index: nat): (r: Option<ValueRef<T>>)
      reads this, buff
      requires Valid()
      ensures r.Some? <==> index in LiveSlots
      ensures r.Some? ==>
        var k := IndexOf(LiveSlots, index);
        r.value == ValueRef(Contents[k], Before(LiveSlots, k), After(LiveSlots, k + 1))
    {
      if index >= buff.Length then None
      else
        SlotKinds(buff[..], LiveSlots, Contents, FreeSlots, noneIndex, index);
        assert index in LiveSlots ==>
          var k := IndexOf(LiveSlots, index);
          buff[LiveSlots[k]] == Value(After(LiveSlots, k + 1), Before(LiveSlots, k), Contents[k]);
        match buff[index]
        case Value(next, pre, value) => Some(ValueRef(value, pre, next))
        case _ => None
    }

    /** `get` at the `k`-th slot of the value chain. */
    lemma GetAt(k: int)
      requires Valid()
      ensures 0 <= k < |LiveSlots| ==>
        Get(LiveSlots[k]) == Some(ValueRef(Contents[k], Before(LiveSlots, k), After(LiveSlots, k + 1)))
    {
      if 0 <= k < |LiveSlots| {
        IndexOfDistinct(LiveSlots, k);
      }
    }

    /** `get_mut`, together with the store the caller makes through the
        reference it returns: when slot `index` holds a Value, its value
        becomes `v` and the result is what `get` gave before; otherwise
        nothing changes. */
    method GetMut(index: nat, v: T) returns (r: Option<ValueRef<T>>)
      requires Valid()
      modifies this, buff
      ensures Valid() && buff == old(buff)
      ensures r == old(Get(index))
      ensures r.None? ==> unchanged(this) && unchanged(buff)
      ensures LiveSlots == old(LiveSlots) && FreeSlots == old(FreeSlots) && noneIndex == old(noneIndex)
      ensures r.Some? ==>
        && Contents == old(Contents)[IndexOf(LiveSlots, index) := v]
        && buff[..] == old(buff[..])[index := old(buff[index]).(value := v)]
    {
      if index >= buff.Length {
        return None;
      }
      SlotKinds(buff[..], LiveSlots, Contents, FreeSlots, noneIndex, index);
      match buff[index] {
        case Value(next, pre, value) =>
          r := Some(ValueRef(value, pre, next));
          ghost var k := IndexOf(LiveSlots, index);
          ghost var s := buff[..];
          ghost var c := Contents[k := v];
          buff[index] := Value(next, pre, v);
          Contents := c;
          assert Linked(buff[..], LiveSlots, Contents) by {
            DistinctPairs(LiveSlots);
            forall j | 0 <= j < |LiveSlots|
              ensures buff[..][LiveSlots[j]] == Value(After(LiveSlots, j + 1), Before(LiveSlots, j), Contents[j])
            {
              assert s[LiveSlots[j]] == Value(After(LiveSlots, j + 1), Before(LiveSlots, j), old(Contents)[j]);
            }
          }
          assert FreeLinked(buff[..], FreeSlots) by {
            forall j | 0 <= j < |FreeSlots| ensures buff[..][FreeSlots[j]] == Free(After(FreeSlots, j + 1)) {
              assert s[FreeSlots[j]] == Free(After(FreeSlots, j + 1));
            }
          }
        case _ =>
          r := None;
      }
    }

    /** `first` and `first_mut`: the cursor at the first element, made from
        the Header's link; None exactly when the list is empty. */
    function First(): (r: Option<Entry>)
      reads this, buff
      requires Valid()
      ensures r.None? <==> Contents == []
      ensures r.Some? ==> r.value == EntryAt(0)
    {
      match buff[HEADER]
      case Header(index) =>
        GetAt(0);
        match Get(index)
        case None => None
        case Some(v) => Some(Entry(index, v.pre, v.next))
    }

    /** `last` and `last_mut`: the cursor at the last element, made from the
        Tail's link; None exactly when the list is empty. */
    function Last(): (r: Option<Entry>)
      reads this, buff
      requires Valid()
      ensures r.None? <==> Contents == []
      ensures r.Some? ==> r.value == EntryAt(|Contents| - 1)
    {
      match buff[TAIL]
      case Tail(index) =>
        GetAt(|LiveSlots| - 1);
        match Get(index)
        case None => None
        case Some(v) => Some(Entry(index, v.pre, v.next))
    }

    /** `next` of `LinkedEntry` and of `LinkedEntryMut`: the cursor at the
        slot the cursor's cached `next` index names, None when that is not a
        Value (the Tail, for a cursor of this list). */
    function Next(e: Entry): (r: Option<Entry>)
      reads this, buff
      requires Valid()
      ensures r.Some? <==> e.next in LiveSlots
      ensures r.Some? ==> r.value == EntryAt(IndexOf(LiveSlots, e.next))
    {
      match Get(e.next)
      case None => None
      case Some(v) => Some(Entry(e.next, v.pre, v.next))
    }

    /** `pre` of `LinkedEntry` and of `LinkedEntryMut`: the cursor at the slot
        the cursor's cached `pre` index names, None when that is not a Value
        (the Header, for a cursor of this list). */
    function Pre(e: Entry): (r: Option<Entry>)
      reads this, buff
      requires Valid()
      ensures r.Some? <==> e.pre in LiveSlots
      ensures r.Some? ==> r.value == EntryAt(IndexOf(LiveSlots, e.pre))
    {
      match Get(e.pre)
      case None => None
      case Some(v) => Some(Entry(e.pre, v.pre, v.next))
    }

    /** `value` of `LinkedEntry`: the value at the cursor's slot, if it holds
        one. */
    function EntryValue(e: Entry): (r: Option<T>)
      reads this, buff
      requires Valid()
      ensures r.Some? <==> e.index in LiveSlots
      ensures r.Some? ==> r.value == Contents[IndexOf(LiveSlots, e.index)]
    {
      match Get(e.index)
      case None => None
      case Some(v) => Some(v.value)
    }

    /** Moving a cursor of this list forward reaches the next element, and
        runs off the end exactly at the last one. */
    lemma NextAt(k: nat)
      requires Valid() && k < |LiveSlots|
      ensures Next(EntryAt(k)) == if k + 1 < |LiveSlots| then Some(EntryAt(k + 1)) else None
    {
      DistinctPairs(LiveSlots);
      if k + 1 < |LiveSlots| {
        IndexOfDistinct(LiveSlots, k + 1);
      }
    }

    /** Moving a cursor of this list backward reaches the previous element,
        and runs off the front exactly at the first one. */
    lemma PreAt(k: nat)
      requires Valid() && k < |LiveSlots|
      ensures Pre(EntryAt(k)) == if k > 0 then Some(EntryAt(k - 1)) else None
    {
      if k > 0 {
        IndexOfDistinct(LiveSlots, k - 1);
      }
    }

    /** The cursor at the `k`-th element reads the `k`-th value. */
    lemma ValueAt(k: nat)
      requires Valid() && k < |LiveSlots|
      ensures EntryValue(EntryAt(k)) == Some(Contents[k])
    {
      IndexOfDistinct(LiveSlots, k);
    }

    /** `value` of `LinkedEntryMut`, with the store the caller makes through
        the reference it returns: the value at the cursor's slot becomes `v`,
        and the result is the value that was there. */
    method EntryValueMut(e: Entry, v: T) returns (r: Option<T>)
      requires Valid()
      modifies this, buff
      ensures Valid() && buff == old(buff)
      ensures r == old(EntryValue(e))
      ensures r.None? ==> unchanged(this) && unchanged(buff)
      ensures LiveSlots == old(LiveSlots) && FreeSlots == old(FreeSlots) && noneIndex == old(noneIndex)
      ensures r.Some? ==> Contents == old(Contents)[IndexOf(LiveSlots, e.index) := v]
    {
      var g := GetMut(e.index, v);
      r := if g.Some? then Some(g.value.value) else None;
    }

    /** `remove` of `LinkedEntryMut`: `remove` at the cursor's slot, its
        result dropped. */
    method RemoveEntry(e: Entry)
      requires Valid()
      modifies this, buff
      ensures Valid() && buff == old(buff)
      ensures e.index !in old(LiveSlots) ==> unchanged(this) && unchanged(buff)
      ensures e.index in old(LiveSlots) ==>
        var k := IndexOf(old(LiveSlots), e.index);
        && LiveSlots == old(LiveSlots[..k] + LiveSlots[k + 1..])
        && Contents == old(Contents[..k] + Contents[k + 1..])
        && FreeSlots == [e.index] + old(FreeSlots) && noneIndex == e.index
    {
      var _ := Remove(e.index);
    }

    /** `insert_after_this` of `LinkedEntryMut`: `insert_after` the cursor's
        slot, the outcome dropped; a full slab panics. */
    method InsertAfterEntry(e: Entry, value: T) returns (panicked: bool)
      requires Valid()
      modifies this, buff
      ensures Valid() && buff == old(buff)
      ensures panicked <==> e.index < CHUNK_SIZE && |old(Contents)| == CHUNK_SIZE - 2
      ensures panicked || (e.index != HEADER && e.index !in old(LiveSlots)) ==> unchanged(this) && unchanged(buff)
      ensures !panicked && (e.index == HEADER || e.index in old(LiveSlots)) ==>
        var p := if e.index == HEADER then 0 else IndexOf(old(LiveSlots), e.index) + 1;
        && old(FreeSlots) == [old(noneIndex)] + FreeSlots
        && LiveSlots == old(LiveSlots[..p]) + [old(noneIndex)] + old(LiveSlots[p..])
        && Contents == old(Contents[..p]) + [value] + old(Contents[p..])
        && SplicedIn(old(buff[..]), buff[..], old(LiveSlots), old(noneIndex), p, value)
    {
      Capacity(buff[..], LiveSlots, Contents, FreeSlots, noneIndex);
      var r := InsertAfter(e.index, value);
      panicked := r.Panicked?;
    }

    /** `insert_before_this` of `LinkedEntryMut`: `insert_before` the cursor's
        slot, the outcome dropped; a full slab panics. */
    method InsertBeforeEntry(e: Entry, value: T) returns (panicked: bool)
      requires Valid()
      modifies this, buff
      ensures Valid() && buff == old(buff)
      ensures panicked <==> e.index < CHUNK_SIZE && |old(Contents)| == CHUNK_SIZE - 2
      ensures panicked || (e.index != TAIL && e.index !in old(LiveSlots)) ==> unchanged(this) && unchanged(buff)
      ensures !panicked && (e.index == TAIL || e.index in old(LiveSlots)) ==>
        var p := if e.index == TAIL then |old(LiveSlots)| else IndexOf(old(LiveSlots), e.index);
        && old(FreeSlots) == [old(noneIndex)] + FreeSlots
        && LiveSlots == old(LiveSlots[..p]) + [old(noneIndex)] + old(LiveSlots[p..])
        && Contents == old(Contents[..p]) + [value] + old(Contents[p..])
        && SplicedIn(old(buff[..]), buff[..], old(LiveSlots), old(noneIndex), p, value)
    {
      Capacity(buff[..], LiveSlots, Contents, FreeSlots, noneIndex);
      var r := InsertBefore(e.index, value);
      panicked := r.Panicked?;
    }

    /** The walk of `print_list`: from `first`, read each cursor's value and
        move to `next` until there is none.  It visits the values in order. */
    method ForwardValues() returns (vs: seq<T>)
      requires Valid()
      ensures vs == Contents
    {
      vs := [];
      var node := First();
      while node.Some?
        invariant |vs| <= |Contents| && vs == Contents[..|vs|]
        invariant node == if |vs| < |Contents| then Some(EntryAt(|vs|)) else None
        decreases |Contents| - |vs|
      {
        var e := node.value;
        ValueAt(|vs|);
        NextAt(|vs|);
        var v := EntryValue(e);
        vs := vs + [v.value];
        node := Next(e);
      }
    }

    /** The values met walking `pre` links from cursor `node`, at most `n` of
        them. */
    ghost function WalkBack(node: Option<Entry>, n: nat): seq<T>
      reads this, buff
      requires Valid()
      decreases n
    {
      if n == 0 || node.None? then []
      else match EntryValue(node.value)
        case None => []
        case Some(v) => [v] + WalkBack(Pre(node.value), n - 1)
    }

    /** Walking backward from the `k`-th element reads the first `k + 1`
        values back to front. */
    lemma {:induction false} WalkBackAt(k: nat)
      requires Valid() && k < |LiveSlots|
      ensures WalkBack(Some(EntryAt(k)), k + 1) == Reversed(Contents[..k + 1])
    {
      var c := Contents[..k + 1];
      ValueAt(k);
      PreAt(k);
      assert WalkBack(Some(EntryAt(k)), k + 1) == [Contents[k]] + WalkBack(Pre(EntryAt(k)), k);
      assert Reversed(c) == [Contents[k]] + Reversed(c[..k]);
      if k > 0 {
        WalkBackAt(k - 1);
        assert c[..k] == Contents[..k];
      }
    }

    /** Walking backward from `last` reads the whole list back to front. */
    lemma BackwardIsReversed()
      requires Valid()
      ensures WalkBack(Last(), |Contents|) == Reversed(Contents)
    {
      if Contents != [] {
        WalkBackAt(|Contents| - 1);
        assert Contents[..|Contents|] == Contents;
      }
    }
  }
}
