/** The slot representation of the slab-backed doubly-linked list, the invariant
    that ties a slab to its abstract view, and the lemmas that show how the
    splices performed by insertion and removal preserve that invariant. */
module Slab {

  datatype Option<T> = None | Some(value: T)

  /** One slot of the slab.  `Free` is the variant the source calls `None`:
      a slot on the free chain, whose `next` is the next free slot. */
  datatype Node<T> =
    | Header(next: nat)
    | Value(next: nat, pre: nat, value: T)
    | Free(next: nat)
    | Tail(pre: nat)

  /** The two sentinels live at fixed positions.  TAIL also terminates the
      free chain. */
  const HEADER: nat := 0
  const TAIL: nat := 1

  /** No slot occurs twice in the chain `s`. */
  ghost predicate Distinct(s: seq<nat>) {
    s == [] || (s[0] !in s[1..] && Distinct(s[1..]))
  }

  /** `Distinct` as a statement about every pair of positions. */
  ghost predicate AllDifferent(s: seq<nat>) {
    forall i, j :: 0 <= i < j < |s| ==> s[i] != s[j]
  }

  lemma {:induction false} DistinctPairs(s: seq<nat>)
    ensures Distinct(s) <==> AllDifferent(s)
  {
    if s != [] {
      DistinctPairs(s[1..]);
      assert forall j :: 0 < j < |s| ==> s[j] == s[1..][j - 1];
      if AllDifferent(s) {
        assert AllDifferent(s[1..]) by {
          forall a, b | 0 <= a < b < |s[1..]| ensures s[1..][a] != s[1..][b] {
            assert s[1..][a] == s[a + 1] && s[1..][b] == s[b + 1];
          }
        }
      }
      if Distinct(s) {
        forall a, b | 0 <= a < b < |s| ensures s[a] != s[b] {
          if a > 0 {
            assert s[1..][a - 1] != s[1..][b - 1];
          } else {
            assert s[b] in s[1..];
          }
        }
      }
    }
  }

  /** The first position at which `x` occurs in `s`. */
  ghost function IndexOf(s: seq<nat>, x: nat): (k: nat)
    requires x in s
    ensures k < |s| && s[k] == x
    ensures forall j :: 0 <= j < k ==> s[j] != x
  {
    if s[0] == x then 0 else 1 + IndexOf(s[1..], x)
  }

  /** In a chain without repetitions, `IndexOf` recovers every position. */
  lemma IndexOfDistinct(s: seq<nat>, k: nat)
    requires Distinct(s) && k < |s|
    ensures IndexOf(s, s[k]) == k
  {
    DistinctPairs(s);
  }

  /** With `s` a chain of slots between the two sentinels, the slot just before
      gap `p` (the gap before `s[p]`) and the slot just after it. */
  ghost function Before(s: seq<nat>, p: nat): nat
    requires p <= |s|
  {
    if p == 0 then HEADER else s[p - 1]
  }

  ghost function After(s: seq<nat>, p: nat): nat
    requires p <= |s|
  {
    if p == |s| then TAIL else s[p]
  }

  /** The value chain `live` is linked through the slab: slot 0 is Header and
      slot 1 is Tail, pointing at the two ends of the chain, and every live slot
      is a Value holding its element of `contents`, whose `pre`/`next` are its
      neighbours in `live`.  So the chain followed by `next` from Header and the
      one followed by `pre` from Tail are the same chain, reversed. */
  ghost predicate Linked<T>(slab: seq<Node<T>>, live: seq<nat>, contents: seq<T>) {
    && |slab| >= 2
    && |contents| == |live|
    && slab[HEADER] == Header(After(live, 0))
    && slab[TAIL] == Tail(Before(live, |live|))
    && (forall k :: 0 <= k < |live| ==> live[k] < |slab|)
    && (forall k {:trigger slab[live[k]]} :: 0 <= k < |live| ==>
          slab[live[k]] == Value(After(live, k + 1), Before(live, k), contents[k]))
  }

  /** The free chain `free` is threaded through the slab: each free slot is a
      Free pointing at the next one, the last one pointing at TAIL. */
  ghost predicate FreeLinked<T>(slab: seq<Node<T>>, free: seq<nat>) {
    && (forall k :: 0 <= k < |free| ==> free[k] < |slab|)
    && (forall k {:trigger slab[free[k]]} :: 0 <= k < |free| ==>
          slab[free[k]] == Free(After(free, k + 1)))
  }

  /** Every slot of a slab of `n` slots other than the two sentinels lies on
      exactly one of the two chains, exactly once. */
  ghost predicate Partitioned(n: nat, live: seq<nat>, free: seq<nat>) {
    && (forall k :: 0 <= k < |live| ==> 2 <= live[k] < n)
    && (forall k :: 0 <= k < |free| ==> 2 <= free[k] < n)
    && Distinct(live)
    && Distinct(free)
    && (forall x :: x in live ==> x !in free)
    && (forall i :: 2 <= i < n ==> i in live || i in free)
  }

  /** The list invariant: `live` is the value chain in order, `contents` the
      values stored along it, `free` the free chain in order, starting at
      `noneIndex` (TAIL when the free chain is empty). */
  ghost predicate WellFormed<T>(slab: seq<Node<T>>, live: seq<nat>, contents: seq<T>,
                                free: seq<nat>, noneIndex: nat)
  {
    && Linked(slab, live, contents)
    && FreeLinked(slab, free)
    && Partitioned(|slab|, live, free)
    && noneIndex == After(free, 0)
  }

  /** The kind of every slot is determined by the chains: Header and Tail only
      at their fixed positions, Value exactly on the value chain, Free exactly
      on the free chain, and no slot on both. */
  lemma SlotKinds<T>(slab: seq<Node<T>>, live: seq<nat>, contents: seq<T>,
                     free: seq<nat>, noneIndex: nat, i: nat)
    requires WellFormed(slab, live, contents, free, noneIndex)
    requires i < |slab|
    ensures slab[i].Header? <==> i == HEADER
    ensures slab[i].Tail? <==> i == TAIL
    ensures slab[i].Value? <==> i in live
    ensures slab[i].Free? <==> i in free
    ensures !(i in live && i in free)
  {
    if i in live {
      var k := IndexOf(live, i);
      assert slab[live[k]].Value?;
    }
    if i in free {
      var k := IndexOf(free, i);
      assert slab[free[k]].Free?;
    }
  }

  /** The slots lo, lo+1, ..., hi-1. */
  ghost function Span(lo: nat, hi: nat): (r: set<nat>)
    ensures forall x :: x in r <==> lo <= x < hi
    ensures lo <= hi ==> |r| == hi - lo
    decreases hi - lo
  {
    if lo >= hi then {} else {lo} + Span(lo + 1, hi)
  }

  ghost function Elements(s: seq<nat>): set<nat> {
    set x: nat | x in s
  }

  lemma {:induction false} DistinctSize(s: seq<nat>)
    requires Distinct(s)
    ensures |Elements(s)| == |s|
  {
    if s != [] {
      assert Distinct(s[1..]);
      assert Elements(s) == {s[0]} + Elements(s[1..]);
      assert s[0] !in Elements(s[1..]);
      DistinctSize(s[1..]);
    } else {
      assert Elements(s) == {};
    }
  }

  /** Every slot but the two sentinels is on exactly one chain: the value
      chain and the free chain together hold |slab| - 2 slots.  In particular
      the free chain is empty exactly when the list holds |slab| - 2 values. */
  lemma Capacity<T>(slab: seq<Node<T>>, live: seq<nat>, contents: seq<T>,
                    free: seq<nat>, noneIndex: nat)
    requires WellFormed(slab, live, contents, free, noneIndex)
    ensures |live| + |free| == |slab| - 2
  {
    var L, F := Elements(live), Elements(free);
    assert L * F == {};
    assert L + F == Span(2, |slab|);
    DistinctSize(live);
    DistinctSize(free);
  }

  /** The free chain threaded through a fresh slab of `n` slots: 2, 3, ..., n-1. */
  ghost function InitialFree(n: nat): (free: seq<nat>)
    requires n >= 2
    ensures |free| == n - 2
  {
    seq(n - 2, k => k + 2)
  }

  /** The slab that construction builds is an empty, well-formed list whose free
      chain is every non-sentinel slot in ascending order. */
  lemma InitialWellFormed<T>(slab: seq<Node<T>>)
    requires |slab| >= 3
    requires slab[HEADER] == Header(TAIL) && slab[TAIL] == Tail(HEADER)
    requires forall i :: 2 <= i < |slab| - 1 ==> slab[i] == Free(i + 1)
    requires slab[|slab| - 1] == Free(TAIL)
    ensures WellFormed(slab, [], [], InitialFree(|slab|), 2)
  {
    var free := InitialFree(|slab|);
    DistinctPairs(free);
    forall i | 2 <= i < |slab| ensures i in free {
      assert free[i - 2] == i;
    }
  }

  /** The slab `t` is `s` with free slot `h` spliced into gap `p` of the value
      chain, holding `v`: `h` becomes a Value between `Before(live, p)` and
      `After(live, p)`, those two neighbours point at `h`, and no other slot
      changes. */
  ghost predicate SplicedIn<T>(s: seq<Node<T>>, t: seq<Node<T>>, live: seq<nat>, h: nat, p: nat, v: T)
    requires p <= |live|
  {
    var pre, next := Before(live, p), After(live, p);
    && |t| == |s| && h < |s| && pre < |s| && next < |s|
    && t[h] == Value(next, pre, v)
    && (s[pre].Header? || s[pre].Value?) && t[pre] == s[pre].(next := h)
    && (s[next].Tail? || s[next].Value?) && t[next] == s[next].(pre := h)
    && (forall j :: 0 <= j < |s| && j != h && j != pre && j != next ==> t[j] == s[j])
  }

  /** The slab `t` is `s` with the `k`-th live slot spliced out: its neighbours
      point at each other, the slot becomes a Free whose next is `oldHead`, and
      no other slot changes. */
  ghost predicate SplicedOut<T>(s: seq<Node<T>>, t: seq<Node<T>>, live: seq<nat>, k: nat, oldHead: nat)
    requires k < |live|
  {
    var i, pre, next := live[k], Before(live, k), After(live, k + 1);
    && |t| == |s| && i < |s| && pre < |s| && next < |s|
    && (s[pre].Header? || s[pre].Value?) && t[pre] == s[pre].(next := next)
    && (s[next].Tail? || s[next].Value?) && t[next] == s[next].(pre := pre)
    && t[i] == Free(oldHead)
    && (forall j :: 0 <= j < |s| && j != i && j != pre && j != next ==> t[j] == s[j])
  }

  /** Positions in `live[..p] + [h] + live[p..]`. */
  lemma InsertedAt<X>(live: seq<X>, h: X, p: nat)
    requires p <= |live|
    ensures var live' := live[..p] + [h] + live[p..];
      && |live'| == |live| + 1
      && live'[p] == h
      && (forall k :: 0 <= k < p ==> live'[k] == live[k])
      && (forall k :: p < k < |live'| ==> live'[k] == live[k - 1])
  {
  }

  /** The slots of `live[..p] + [h] + live[p..]`. */
  lemma InsertedMembers(live: seq<nat>, h: nat, p: nat)
    requires p <= |live|
    ensures forall x :: x in live[..p] + [h] + live[p..] <==> x in live || x == h
  {
    assert live == live[..p] + live[p..];
  }

  /** Inserting a slot not yet in a chain keeps it free of repetitions. */
  lemma InsertedDistinct(live: seq<nat>, h: nat, p: nat)
    requires p <= |live| && Distinct(live) && h !in live
    ensures Distinct(live[..p] + [h] + live[p..])
  {
    var live' := live[..p] + [h] + live[p..];
    DistinctPairs(live);
    InsertedAt(live, h, p);
    assert AllDifferent(live') by {
      forall a, b | 0 <= a < b < |live'| ensures live'[a] != live'[b] {
        if a != p && b != p {
          assert live'[a] == live[if a < p then a else a - 1];
          assert live'[b] == live[if b < p then b else b - 1];
        } else {
          assert live[if a == p then b - 1 else a] in live;
        }
      }
    }
    DistinctPairs(live');
  }

  /** The slots of `live[..k] + live[k + 1..]` when `live` is distinct. */
  lemma RemovedMembers(live: seq<nat>, k: nat)
    requires Distinct(live) && k < |live|
    ensures forall x :: x in live[..k] + live[k + 1..] <==> x in live && x != live[k]
    ensures Distinct(live[..k] + live[k + 1..])
  {
    var live' := live[..k] + live[k + 1..];
    DistinctPairs(live);
    RemovedAt(live, k);
    assert live == live[..k] + [live[k]] + live[k + 1..];
    forall x | x in live' ensures x != live[k] {
      var m := IndexOf(live', x);
      assert x == live[if m < k then m else m + 1];
    }
    assert AllDifferent(live') by {
      forall a, b | 0 <= a < b < |live'| ensures live'[a] != live'[b] {
        assert live'[a] == live[if a < k then a else a + 1];
        assert live'[b] == live[if b < k then b else b + 1];
      }
    }
    DistinctPairs(live');
  }

  /** Taking the head of the free chain into the value chain keeps the slots
      partitioned. */
  lemma PartitionPop(n: nat, live: seq<nat>, free: seq<nat>, p: nat)
    requires Partitioned(n, live, free)
    requires free != [] && p <= |live|
    ensures Partitioned(n, live[..p] + [free[0]] + live[p..], free[1..])
  {
    var h := free[0];
    assert h in free;
    InsertedMembers(live, h, p);
    InsertedDistinct(live, h, p);
    InsertedAt(live, h, p);
    assert forall x :: x in free[1..] <==> x in free && x != h by {
      assert free == [h] + free[1..];
    }
  }

  /** Moving the `k`-th slot of the value chain to the front of the free chain
      keeps the slots partitioned. */
  lemma PartitionPush(n: nat, live: seq<nat>, free: seq<nat>, k: nat)
    requires Partitioned(n, live, free)
    requires k < |live|
    ensures Partitioned(n, live[..k] + live[k + 1..], [live[k]] + free)
  {
    var i := live[k];
    assert i in live;
    RemovedMembers(live, k);
    RemovedAt(live, k);
    assert ([i] + free)[1..] == free;
  }

  /** Positions in `live[..k] + live[k + 1..]`. */
  lemma RemovedAt<X>(live: seq<X>, k: nat)
    requires k < |live|
    ensures var live' := live[..k] + live[k + 1..];
      && |live'| == |live| - 1
      && (forall j :: 0 <= j < k ==> live'[j] == live[j])
      && (forall j :: k <= j < |live'| ==> live'[j] == live[j + 1])
  {
  }

  /** One slot of the value chain after insertion is linked correctly. */
  lemma SpliceInLinkAt<T>(s: seq<Node<T>>, t: seq<Node<T>>, live: seq<nat>, contents: seq<T>,
                          free: seq<nat>, p: nat, v: T, k: nat)
    requires Linked(s, live, contents) && Partitioned(|s|, live, free)
    requires free != [] && p <= |live| && k <= |live|
    requires SplicedIn(s, t, live, free[0], p, v)
    ensures var live', contents' := live[..p] + [free[0]] + live[p..], contents[..p] + [v] + contents[p..];
      t[live'[k]] == Value(After(live', k + 1), Before(live', k), contents'[k])
  {
    var h := free[0];
    var live' := live[..p] + [h] + live[p..];
    InsertedAt(live, h, p);
    InsertedAt(contents, v, p);
    DistinctPairs(live);
    assert h in free;
    if k < p {
      assert s[live[k]] == Value(After(live, k + 1), Before(live, k), contents[k]);
      if k + 1 < p {
        assert After(live', k + 1) == After(live, k + 1);
        assert live[k] != live[p - 1];
      }
    } else if k > p {
      assert s[live[k - 1]] == Value(After(live, k), Before(live, k - 1), contents[k - 1]);
      if k - 1 > p {
        assert Before(live', k) == Before(live, k - 1);
        assert live[k - 1] != live[p];
        assert p > 0 ==> live[k - 1] != live[p - 1];
      }
    }
  }

  lemma SpliceInLinks<T>(s: seq<Node<T>>, t: seq<Node<T>>, live: seq<nat>, contents: seq<T>,
                         free: seq<nat>, p: nat, v: T)
    requires Linked(s, live, contents) && Partitioned(|s|, live, free)
    requires free != [] && p <= |live|
    requires SplicedIn(s, t, live, free[0], p, v)
    ensures Linked(t, live[..p] + [free[0]] + live[p..], contents[..p] + [v] + contents[p..])
  {
    var live' := live[..p] + [free[0]] + live[p..];
    InsertedAt(live, free[0], p);
    InsertedAt(contents, v, p);
    forall k | 0 <= k < |live'|
      ensures t[live'[k]] == Value(After(live', k + 1), Before(live', k), (contents[..p] + [v] + contents[p..])[k])
    {
      SpliceInLinkAt(s, t, live, contents, free, p, v, k);
    }
  }

  lemma SpliceInFreeLinks<T>(s: seq<Node<T>>, t: seq<Node<T>>, live: seq<nat>,
                             free: seq<nat>, p: nat, v: T)
    requires FreeLinked(s, free) && Partitioned(|s|, live, free)
    requires free != [] && p <= |live|
    requires SplicedIn(s, t, live, free[0], p, v)
    ensures FreeLinked(t, free[1..])
  {
    var free' := free[1..];
    forall k | 0 <= k < |free'| ensures t[free'[k]] == Free(After(free', k + 1)) {
      assert s[free[k + 1]] == Free(After(free, k + 2));
      assert free[k + 1] !in live;
    }
  }

  /** The slab `s` with slot `h`, holding `v`, linked in between `pre`, a
      Header or Value, and `next`, a Tail or Value: the three writes of an
      insertion. */
  ghost function LinkBetween<T>(s: seq<Node<T>>, pre: nat, next: nat, h: nat, v: T): seq<Node<T>>
    requires pre < |s| && next < |s| && h < |s|
    requires (s[pre].Header? || s[pre].Value?) && (s[next].Tail? || s[next].Value?)
  {
    var s1 := s[pre := s[pre].(next := h)];
    s1[next := s1[next].(pre := h)][h := Value(next, pre, v)]
  }

  /** Insertion preserves the invariant: the head of the free chain is linked
      into gap `p` of the value chain holding `v`, between two distinct slots of
      the right kinds; the free chain loses its head and `noneIndex` moves on
      to the next free slot.  The chains after the splice are parameters so
      that callers can name them. */
  lemma SpliceIn<T>(s: seq<Node<T>>, live: seq<nat>, contents: seq<T>,
                    free: seq<nat>, noneIndex: nat, p: nat, v: T,
                    live': seq<nat>, contents': seq<T>, free': seq<nat>, noneIndex': nat)
    requires WellFormed(s, live, contents, free, noneIndex)
    requires free != [] && p <= |live|
    requires live' == live[..p] + [free[0]] + live[p..]
    requires contents' == contents[..p] + [v] + contents[p..]
    requires free' == free[1..] && noneIndex' == After(free, 1)
    ensures var pre, next, h := Before(live, p), After(live, p), free[0];
      && pre < |s| && next < |s| && h < |s|
      && (s[pre].Header? || s[pre].Value?) && (s[next].Tail? || s[next].Value?)
      && pre != next && h != pre && h != next
      && SplicedIn(s, LinkBetween(s, pre, next, h, v), live, h, p, v)
      && WellFormed(LinkBetween(s, pre, next, h, v), live', contents', free', noneIndex')
  {
    var pre, next, h := Before(live, p), After(live, p), free[0];
    DistinctPairs(live);
    assert h in free;
    assert h !in live;
    if p > 0 {
      assert s[live[p - 1]] == Value(After(live, p), Before(live, p - 1), contents[p - 1]);
    }
    if p < |live| {
      assert s[live[p]] == Value(After(live, p + 1), Before(live, p), contents[p]);
    }
    var t := LinkBetween(s, pre, next, h, v);
    assert SplicedIn(s, t, live, h, p, v);
    SpliceInLinks(s, t, live, contents, free, p, v);
    SpliceInFreeLinks(s, t, live, free, p, v);
    PartitionPop(|s|, live, free, p);
  }

  /** One slot of the value chain after removal is linked correctly. */
  lemma SpliceOutLinkAt<T>(s: seq<Node<T>>, t: seq<Node<T>>, live: seq<nat>, contents: seq<T>,
                           free: seq<nat>, k: nat, oldHead: nat, j: nat)
    requires Linked(s, live, contents) && Partitioned(|s|, live, free)
    requires k < |live| && j < |live| - 1
    requires SplicedOut(s, t, live, k, oldHead)
    ensures var live', contents' := live[..k] + live[k + 1..], contents[..k] + contents[k + 1..];
      t[live'[j]] == Value(After(live', j + 1), Before(live', j), contents'[j])
  {
    var live' := live[..k] + live[k + 1..];
    DistinctPairs(live);
    RemovedAt(live, k);
    RemovedAt(contents, k);
    if j < k {
      assert s[live[j]] == Value(After(live, j + 1), Before(live, j), contents[j]);
      if j + 1 < k {
        assert After(live', j + 1) == After(live, j + 1);
      }
    } else {
      assert s[live[j + 1]] == Value(After(live, j + 2), Before(live, j + 1), contents[j + 1]);
      if j > k {
        assert Before(live', j) == Before(live, j + 1);
      }
    }
  }

  lemma SpliceOutLinks<T>(s: seq<Node<T>>, t: seq<Node<T>>, live: seq<nat>, contents: seq<T>,
                          free: seq<nat>, k: nat, oldHead: nat)
    requires Linked(s, live, contents) && Partitioned(|s|, live, free)
    requires k < |live|
    requires SplicedOut(s, t, live, k, oldHead)
    ensures Linked(t, live[..k] + live[k + 1..], contents[..k] + contents[k + 1..])
  {
    var live' := live[..k] + live[k + 1..];
    var contents' := contents[..k] + contents[k + 1..];
    RemovedAt(live, k);
    RemovedAt(contents, k);
    forall j | 0 <= j < |live'|
      ensures t[live'[j]] == Value(After(live', j + 1), Before(live', j), contents'[j])
    {
      SpliceOutLinkAt(s, t, live, contents, free, k, oldHead, j);
    }
  }

  lemma SpliceOutFreeLinks<T>(s: seq<Node<T>>, t: seq<Node<T>>, live: seq<nat>,
                              free: seq<nat>, k: nat)
    requires FreeLinked(s, free) && Partitioned(|s|, live, free)
    requires k < |live|
    requires SplicedOut(s, t, live, k, After(free, 0))
    ensures FreeLinked(t, [live[k]] + free)
  {
    var free' := [live[k]] + free;
    forall j | 0 <= j < |free'| ensures t[free'[j]] == Free(After(free', j + 1)) {
      if j > 0 {
        assert s[free[j - 1]] == Free(After(free, j));
        assert free[j - 1] !in live;
      }
    }
  }

  /** The slab `s` with slot `i` unlinked from between `pre`, a Header or
      Value, and `next`, a Tail or Value, and put back as a Free slot pointing
      at `head`: the three writes of a removal. */
  ghost function Unlink<T>(s: seq<Node<T>>, pre: nat, next: nat, i: nat, head: nat): seq<Node<T>>
    requires pre < |s| && next < |s| && i < |s|
    requires (s[pre].Header? || s[pre].Value?) && (s[next].Tail? || s[next].Value?)
  {
    var s1 := s[pre := s[pre].(next := next)];
    s1[next := s1[next].(pre := pre)][i := Free(head)]
  }

  /** Removal preserves the invariant: the `k`-th live slot, whose neighbours
      are two distinct slots of the right kinds, leaves the value chain and
      becomes the head of the free chain, so `noneIndex` is that slot. */
  lemma SpliceOut<T>(s: seq<Node<T>>, live: seq<nat>, contents: seq<T>,
                     free: seq<nat>, noneIndex: nat, k: nat,
                     live': seq<nat>, contents': seq<T>, free': seq<nat>, noneIndex': nat)
    requires WellFormed(s, live, contents, free, noneIndex)
    requires k < |live|
    requires live' == live[..k] + live[k + 1..] && contents' == contents[..k] + contents[k + 1..]
    requires free' == [live[k]] + free && noneIndex' == live[k]
    ensures var i, pre, next := live[k], Before(live, k), After(live, k + 1);
      && pre < |s| && next < |s| && i < |s|
      && s[i] == Value(next, pre, contents[k])
      && (s[pre].Header? || s[pre].Value?) && (s[next].Tail? || s[next].Value?)
      && pre != next && i != pre && i != next
      && SplicedOut(s, Unlink(s, pre, next, i, noneIndex), live, k, noneIndex)
      && WellFormed(Unlink(s, pre, next, i, noneIndex), live', contents', free', noneIndex')
  {
    var i, pre, next := live[k], Before(live, k), After(live, k + 1);
    DistinctPairs(live);
    assert s[live[k]] == Value(After(live, k + 1), Before(live, k), contents[k]);
    if k > 0 {
      assert s[live[k - 1]] == Value(After(live, k), Before(live, k - 1), contents[k - 1]);
    }
    if k + 1 < |live| {
      assert s[live[k + 1]] == Value(After(live, k + 2), Before(live, k + 1), contents[k + 1]);
    }
    var t := Unlink(s, pre, next, i, noneIndex);
    assert SplicedOut(s, t, live, k, noneIndex);
    SpliceOutLinks(s, t, live, contents, free, k, noneIndex);
    SpliceOutFreeLinks(s, t, live, free, k);
    PartitionPush(|s|, live, free, k);
  }
}
