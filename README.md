# Slab-backed doubly-linked list

A model of `src/main.rs` of the `mylinkedlist` crate.

`LinkedList<T>` keeps every node in one `Vec` of `CHUNK_SIZE` (1024) slots. All links are slot indices:

- Slot 0 is the `Header` and slot 1 the `Tail`.
- Every other slot is either a `Value` on the doubly-linked value chain or a `None` slot on the free chain.
- The free chain is a singly-linked chain threaded through the same slots. It starts at `none_index` and ends at index 1.

Insertions take the head of the free chain and splice it into the value chain after or before an anchor. Removal splices a Value out and pushes its slot back on the front of the free chain. The cursors `LinkedEntry` and `LinkedEntryMut` are a slot index with the neighbour indices cached. They move along the chain and read, overwrite, remove or insert at their slot.

The model has three modules.

**`Slab`** (`slab.dfy`) is pure. It holds:

- the `Node` datatype (the source's `None` slot is called `Free` here);
- the invariant `WellFormed`, which ties a slab to three abstract sequences:
  - `live`, the slot indices of the value chain from Header to Tail;
  - `contents`, the values stored along it;
  - `free`, the free chain from `none_index`;
- the lemmas that show the two splices preserve `WellFormed`.

The invariant is made of three parts:

- **`Linked`:** the Header and Tail point at the two ends of the chain, and each live slot is a `Value` whose links are its neighbours in `live`. So following `next` from the Header and `pre` from the Tail walk the same chain, in opposite directions.
- **`FreeLinked`:** each free slot points at the next one, and the last one points at index 1.
- **`Partitioned`:** every slot other than the two sentinels lies on exactly one chain, exactly once.

**`LinkedLists`** (`linked_list.dfy`) holds the list itself. The class `LinkedList` keeps the slab as an `array<Node<T>>` and `none_index` as a field, with the three sequences as ghost fields. Every operation of the source is a method or function whose contract states its effect on those sequences. The cursors are the datatype `Entry`, and the cursor operations are members of the class.

**`Driver`** (`driver.dfy`) replays the program's `main` and proves what each of its `print_list` calls walks. It also fills a list up to capacity and shows the order in which freed slots are reused.

The code's own range check shows what was intended for a full list: the test `none_index >= self.buff.len()` at lines 48 and 88 of `src/main.rs` is meant to hand the value back and leave the list unchanged. It can never fire, because the free chain ends at index 1, the Tail, which is in range. The code then finds the Tail where it expects a free slot and reaches `unreachable!("none_index is invalid")`. The model follows the code as written. An insertion whose anchor is in range returns `Panicked`, leaving the list unchanged, exactly when the list already holds 1022 values; an anchor out of range is still handed back as `Rejected`. `Driver.Exhaust` proves that the 1023rd insertion on a new list panics.

## Model

| member | source | states |
|---|---|---|
| `Slab.SlotKinds` | src/main.rs:3-23 | In a well-formed slab, a slot's kind follows from the chains: Header only at 0, Tail only at 1, Value exactly on the value chain, a free slot exactly on the free chain, and no slot on both chains. |
| `Slab.Capacity` | src/main.rs:26-45 | The value chain and the free chain together hold all CHUNK_SIZE - 2 non-sentinel slots, so the free chain is empty exactly when the list holds 1022 values. |
| `Slab.InitialWellFormed` | src/main.rs:28-45 | A slab built as `new` builds it is a well-formed empty list. Its free chain is 2, 3, ..., 1023 and `none_index` is 2. |
| `Slab.SpliceIn` | src/main.rs:52-83 | Linking the free-chain head into gap `p` of the value chain gives a well-formed list whose value chain has the new slot at position `p` and whose contents have the value there. The free chain loses its head, and only the new slot and its two neighbours change. |
| `Slab.SpliceOut` | src/main.rs:142-183 | Unlinking the `k`-th Value and turning it into the free-chain head gives a well-formed list without that element. Its neighbours point at each other, the slot becomes free pointing at the old head, and nothing else changes. |
| `LinkedLists.LinkedList.constructor` | src/main.rs:28-45 | `new`: the Header links to the Tail and the Tail back to the Header. Slot `i` for 2 <= i < 1023 is free pointing at `i + 1`, slot 1023 is free pointing at 1, `none_index` is 2, and the list is empty. |
| `LinkedLists.LinkedList.SetNext` | src/main.rs:59-68 | Writing through the borrowed `next_index` of a Header or Value changes exactly that link of that one slot. |
| `LinkedLists.LinkedList.SetPre` | src/main.rs:70-77 | Writing through the borrowed `pre_index` of a Tail or Value changes exactly that link of that one slot. |
| `LinkedLists.LinkedList.LinkIn` | src/main.rs:67-83 | The three writes that end an insertion. They put the taken free slot into gap `p` holding the value and keep the invariant. |
| `LinkedLists.LinkedList.InsertAfter` | src/main.rs:47-85 | `insert_after` succeeds exactly when the anchor is in range, the free chain is not empty, and the anchor is the Header or a Value. The new element then follows the anchor and occupies the old `none_index` slot, taken from the free-chain head. It panics exactly when the anchor is in range and the list is full. Otherwise it hands the value back, with `none_index` restored and nothing changed. |
| `LinkedLists.LinkedList.InsertBefore` | src/main.rs:87-127 | `insert_before` behaves like `insert_after`, with the Tail or a Value as anchor and the new element placed just before it. |
| `LinkedLists.LinkedList.PushBack` | src/main.rs:129-131 | `push_back` appends the value in the free-chain head slot. It panics, changing nothing, exactly when the list is full. |
| `LinkedLists.LinkedList.PushHead` | src/main.rs:133-135 | `push_head` prepends the value in the free-chain head slot. It panics, changing nothing, exactly when the list is full. |
| `LinkedLists.LinkedList.UnlinkOut` | src/main.rs:153-185 | The three writes of a removal, the last being `mem::replace`. They unlink the `k`-th Value, make its slot the free-chain head, and return its value. |
| `LinkedLists.LinkedList.Remove` | src/main.rs:137-186 | `remove` returns `Some` exactly when the slot holds a Value. It then returns that element's value and drops it from the list. Its slot goes to the front of the free chain (`none_index` becomes the slot) and only the slot and its two neighbours change. For an index out of range or any other slot it returns `None` and changes nothing. |
| `LinkedLists.LinkedList.Get` | src/main.rs:188-201 | `get` is `Some` exactly for a Value slot, and then gives that element's value and its neighbours in the chain. |
| `LinkedLists.LinkedList.GetAt` | src/main.rs:188-201 | `get` at the `k`-th slot of the chain gives the `k`-th value and the slots before and after it. |
| `LinkedLists.LinkedList.GetMut` | src/main.rs:203-216 | `get_mut` returns what `get` returned. A store through the returned reference replaces exactly that element, and for any other slot nothing changes. |
| `LinkedLists.LinkedList.First` | src/main.rs:218-231 | `first` (and `first_mut`) is `None` exactly when the list is empty, and otherwise the cursor at the first element. |
| `LinkedLists.LinkedList.Last` | src/main.rs:233-246 | `last` (and `last_mut`) is `None` exactly when the list is empty, and otherwise the cursor at the last element. |
| `LinkedLists.LinkedList.Next` | src/main.rs:289-298 | A cursor's `next` is `Some` exactly when its cached next index is a Value slot, and then it is the cursor at that element. |
| `LinkedLists.LinkedList.Pre` | src/main.rs:300-308 | A cursor's `pre` is `Some` exactly when its cached pre index is a Value slot, and then it is the cursor at that element. |
| `LinkedLists.LinkedList.EntryValue` | src/main.rs:310-312 | A cursor's `value` is `Some` exactly when its slot holds a Value, and then it is that element. |
| `LinkedLists.LinkedList.NextAt` | src/main.rs:289-298 | From the cursor at element `k`, `next` reaches element `k + 1`, and is `None` exactly at the last element. |
| `LinkedLists.LinkedList.PreAt` | src/main.rs:300-308 | From the cursor at element `k`, `pre` reaches element `k - 1`, and is `None` exactly at the first element. |
| `LinkedLists.LinkedList.ValueAt` | src/main.rs:310-312 | The cursor at element `k` reads the `k`-th value. |
| `LinkedLists.LinkedList.EntryValueMut` | src/main.rs:343-345 | The mutable cursor's `value` returns the value at its slot. A store through it replaces that element, and nothing else changes. |
| `LinkedLists.LinkedList.RemoveEntry` | src/main.rs:347-349 | The cursor's `remove` removes the element at the cursor. |
| `LinkedLists.LinkedList.InsertAfterEntry` | src/main.rs:351-353 | `insert_after_this` is `insert_after` at the cursor's slot. It panics exactly when the slot is in range and the list is full, and then nothing changes. Otherwise, at a Header or Value slot, the value takes the old `none_index` slot, taken from the free-chain head, just after the cursor's element. At any other slot nothing changes. |
| `LinkedLists.LinkedList.InsertBeforeEntry` | src/main.rs:355-357 | `insert_before_this` is `insert_before` at the cursor's slot. It panics exactly when the slot is in range and the list is full, and then nothing changes. Otherwise, at a Tail or Value slot, the value takes the old `none_index` slot, taken from the free-chain head, just before the cursor's element. At any other slot nothing changes. |
| `LinkedLists.LinkedList.ForwardValues` | src/main.rs:360-370 | The walk of `print_list` (from `first`, read `value` and follow `next` until `None`) visits the list's values in order. |
| `LinkedLists.LinkedList.WalkBackAt` | src/main.rs:300-308 | Following `pre` from the cursor at element `k` reads elements `k`, `k - 1`, ..., 0. |
| `LinkedLists.LinkedList.BackwardIsReversed` | src/main.rs:233-246 | Following `pre` from `last` reads the whole list in reverse. |
| `Driver.FillThree` | src/main.rs:373-376 | Pushing 1, 2, 3 onto a new list puts them in slots 2, 3, 4. |
| `Driver.Start` | src/main.rs:373-377 | The first `print_list` walks [1, 2, 3]. |
| `Driver.RemoveSecond` | src/main.rs:380 | `first_mut().unwrap().next().unwrap().remove()` removes the second element, and neither `unwrap` fails. |
| `Driver.RemoveBeforeLast` | src/main.rs:388 | `last_mut().unwrap().pre().unwrap().remove()` removes the element before the last, and neither `unwrap` fails. |
| `Driver.InsertAfterFirst` | src/main.rs:392 | `first_mut().unwrap().insert_after_this(v)` puts `v` second. |
| `Driver.InsertBeforeLast` | src/main.rs:393 | `last_mut().unwrap().insert_before_this(v)` puts `v` just before the last element. |
| `Driver.Middle` | src/main.rs:379-389 | Three more steps of `main`, which walk [1, 3], then [4, 1, 3], then [4, 3]. |
| `Driver.Finish` | src/main.rs:391-394 | The last step of `main`, which walks [4, 5, 6, 3]. |
| `Driver.Demo` | src/main.rs:372-395 | `main`'s five `print_list` calls walk [1, 2, 3], [1, 3], [4, 1, 3], [4, 3] and [4, 5, 6, 3]. |
| `Driver.Exhaust` | src/main.rs:87-98 | On a new list, 1022 `push_back`s succeed. The next insertion is not turned away by the `none_index` range check but panics at the free-slot lookup. |
| `Driver.FreeTwo` | src/main.rs:177-182 | Removing the values in slots 4 and then 2 leaves slot 2, then slot 4, at the front of the free chain. |
| `Driver.Reuse` | src/main.rs:92-94 | After those removals, the next two insertions take slot 2 and then slot 4: freed slots are reused last in, first out. |

## Left out

- `print_list`'s `println!` output is left out. `ForwardValues` returns the values the walk reads instead of printing their `Debug` form.
- `first_mut` and `last_mut` build the same cursor as `first` and `last`, and the `next` and `pre` of `LinkedEntryMut` build the same cursor as those of `LinkedEntry`. Each pair has one member: `First`, `Last`, `Next` and `Pre`.
- Rust's borrows and lifetimes are not modelled. A cursor is the value `Entry`, and the cursor functions and methods are members of the list. The exclusive borrow that keeps a mutable cursor's cached indices current is not modelled either.
- The references that `get_mut` and `LinkedEntryMut::value` return become a store of a given value: `GetMut` and `EntryValueMut` take the value the caller writes through the reference.
- A panic (`unreachable!`) is modelled as the `Panicked` outcome, or the `panicked` flag of the pushes and cursor insertions. The list is unchanged, as it is at the point the source panics. Unwinding and process exit are not modelled. All other `unreachable!` arms are matches whose missing cases are proved impossible.
- The `Option` that `push_back`, `push_head`, `insert_after_this` and `insert_before_this` discard, and the dropping of a handed-back value, are not modelled.
- `insert_before` redirects its anchor's `pre` before its predecessor's `next`. `LinkIn` makes these two writes in the other order; they touch different slots.
- `Vec::with_capacity`, `push` and `resize_with` are not modelled. They become an `array` of CHUNK_SIZE slots filled by a loop with the same counter. `usize` is modelled as `nat`; every index stays below 1025, so nothing can wrap.
- No growth and no concurrency: the source has neither.
- `LinkedLists.LinkedList.WalkBack`: this backward walk is a ghost function bounded by a step count. The source has no backward walk; `WalkBackAt` and `BackwardIsReversed` use it to state what repeated `pre` calls read.
