/**
  The buddy allocator of lib/buddy.c.

  The manager array is updated in place. It is proved to be, after every call, the array that BuddyTree assigns to
  the set of live blocks; the live set and the shape are ghost. The two panics of the source appear as assertions.
 */
module Buddy {
  import opened Words
  import opened BuddyTree

  // The order buddy_alloc looks for: the request rounded up to a power of two, but at least one smallest block.
  ghost function WantedOrder(request: bv32, leaf: nat): nat {
    var k := LogOf2(NextPow2(request));
    if NextPow2(request) as int > Pow2(leaf) then k else leaf
  }

  // Every request up to 2^31 bytes is covered by the wanted block, and by no smaller admissible one.
  lemma WantedOrderCovers(request: bv32, leaf: nat)
    requires request != 0
    ensures WantedOrder(request, leaf) >= leaf
    ensures request <= 0x8000_0000 ==> request as int <= Pow2(WantedOrder(request, leaf))
    ensures request <= 0x8000_0000 ==>
              forall j: nat :: leaf <= j && request as int <= Pow2(j) ==> WantedOrder(request, leaf) <= j
    ensures request > 0x8000_0000 ==> WantedOrder(request, leaf) == leaf
  {
    if request <= 0x8000_0000 {
      var k := NextPow2IsLeast(request);
      if k < leaf { Pow2Monotone(k, leaf); }
      if leaf < k { Pow2Monotone(leaf, k); }
    } else {
      NextPow2WrapsAbove(request);
    }
  }

  function Larger(l: nat, r: nat): nat {
    if l > r then l else r
  }

  lemma LargerEntry(s: Shape, live: set<nat>, taken: nat, p: nat)
    requires s.leaf >= 1 && taken in live && Within(taken, p) && p !in live && Node(s, p) && Order(s, p) > s.leaf
    ensures Node(s, 2 * p) && Node(s, 2 * p + 1)
    ensures Entry(s, live, p) == Larger(Entry(s, live, 2 * p), Entry(s, live, 2 * p + 1))
  {
    EntryFromChildren(s, live, p);
    EntryBound(s, live, p);
  }

  lemma ParentNode(s: Shape, n: nat, p: nat)
    requires Node(s, n) && n > 1 && p == n / 2
    ensures p >= 1 && Node(s, p) && Order(s, p) == Order(s, n) + 1 && Within(n, p)
  {
    ParentOf(s, n);
  }

  lemma NotLiveAbove(s: Shape, live: set<nat>, taken: nat, n: nat, p: nat)
    requires Antichain(s, live) && taken in live && Within(taken, n) && n > 1 && p == n / 2 && Within(n, p)
    ensures Within(taken, p) && p !in live
  {
    WithinTransitive(taken, n, p);
    WithinGrows(taken, n);
  }

  lemma LargerValue(m: seq<nat>, s: Shape, live: set<nat>, taken: nat, n: nat, p: nat)
    requires s.leaf >= 1 && taken in live && p == n / 2 && RightBelow(m, s, live, n)
    requires Node(s, n) && n > 1 && Node(s, p) && p !in live && Within(taken, p) && Order(s, p) == Order(s, n) + 1
    ensures 1 <= p && 2 * p < |m| && Larger(m[2 * p - 1], m[2 * p]) == Entry(s, live, p)
  {
    SiblingsRight(m, s, live, n);
    LargerEntry(s, live, taken, p);
  }

  // Above a live node the larger child entry is the right one.
  lemma RaiseStep(m: seq<nat>, s: Shape, live: set<nat>, taken: nat, n: nat, p: nat)
    requires s.leaf >= 1 && Antichain(s, live) && taken in live && p == n / 2
    requires Node(s, n) && n > 1 && Within(taken, n) && RightBelow(m, s, live, n)
    ensures 1 <= p && Node(s, p) && Within(taken, p) && 2 * p < |m|
    ensures RightBelow(m[p - 1 := Larger(m[2 * p - 1], m[2 * p])], s, live, p)
  {
    ParentNode(s, n, p);
    NotLiveAbove(s, live, taken, n, p);
    LargerValue(m, s, live, taken, n, p);
    RightOneUpWith(m, s, live, n, p, Larger(m[2 * p - 1], m[2 * p]));
  }

  // The upward loop of buddy_alloc.
  method RaiseMaxima(manager: array<nat>, first: nat, ghost s: Shape, ghost live: set<nat>)
    requires s.leaf >= 1 && first + 1 in live && Antichain(s, live)
    requires RightBelow(manager[..], s, live, first + 1)
    modifies manager
    ensures Represents(manager[..], s, live)
  {
    var i: nat := first;
    while i != 0
      invariant Node(s, i + 1) && Within(first + 1, i + 1)
      invariant RightBelow(manager[..], s, live, i + 1)
    {
      ghost var m := manager[..];
      var p := (i + 1) / 2;
      RaiseStep(m, s, live, first + 1, i + 1, p);
      SetLarger(manager, p - 1);
      assert manager[..] == m[p - 1 := Larger(m[2 * p - 1], m[2 * p])];
      i := p - 1;
    }
    RightAtRoot(manager[..], s, live);
  }

  // manager[i] = MAX(manager[left], manager[right])
  method SetLarger(manager: array<nat>, i: nat)
    requires 2 * i + 2 < manager.Length
    modifies manager
    ensures manager[..] == old(manager[..])[i := Larger(old(manager[..])[2 * i + 1], old(manager[..])[2 * i + 2])]
  {
    manager[i] := Larger(manager[2 * i + 1], manager[2 * i + 2]);
  }

  function Merged(l: nat, r: nat, order: nat): nat {
    if l == order && r == order then Larger(l, r) + 1 else Larger(l, r)
  }

  lemma MergedEntry(s: Shape, live: set<nat>, p: nat, order: nat)
    requires Node(s, p) && p !in live && order >= s.leaf >= 1 && Order(s, p) == order + 1
    ensures Node(s, 2 * p) && Node(s, 2 * p + 1)
    ensures Entry(s, live, p) == Merged(Entry(s, live, 2 * p), Entry(s, live, 2 * p + 1), order)
  {
    EntryFromChildren(s, live, p);
  }

  lemma MergedValue(m: seq<nat>, s: Shape, live: set<nat>, n: nat, p: nat, order: nat)
    requires Node(s, n) && n > 1 && Node(s, p) && p !in live && order == Order(s, n) && Order(s, p) == order + 1
    requires s.leaf >= 1 && p == n / 2 && RightBelow(m, s, live, n)
    ensures 1 <= p && 2 * p < |m| && Merged(m[2 * p - 1], m[2 * p], order) == Entry(s, live, p)
  {
    SiblingsRight(m, s, live, n);
    MergedEntry(s, live, p, order);
  }

  lemma NotCoveredAbove(live: set<nat>, freed: nat, n: nat, p: nat)
    requires Uncovered(live, freed) && Within(freed, n) && Within(n, p)
    ensures Within(freed, p) && p !in live
  {
    WithinTransitive(freed, n, p);
  }

  lemma MergeStep(m: seq<nat>, s: Shape, live: set<nat>, freed: nat, n: nat, p: nat)
    requires s.leaf >= 1 && Antichain(s, live) && Uncovered(live, freed) && p == n / 2
    requires Node(s, n) && n > 1 && Within(freed, n) && RightBelow(m, s, live, n)
    ensures 1 <= p && Node(s, p) && Within(freed, p) && 2 * p < |m| && Order(s, p) == Order(s, n) + 1
    ensures RightBelow(m[p - 1 := Merged(m[2 * p - 1], m[2 * p], Order(s, n))], s, live, p)
  {
    ParentNode(s, n, p);
    NotCoveredAbove(live, freed, n, p);
    MergedValue(m, s, live, n, p, Order(s, n));
    RightOneUpWith(m, s, live, n, p, Merged(m[2 * p - 1], m[2 * p], Order(s, n)));
  }

  // The upward loop of buddy_free: two wholly free buddies merge into their parent.
  method MergeBuddies(manager: array<nat>, first: nat, firstOrder: nat, ghost s: Shape, ghost live: set<nat>)
    requires s.leaf >= 1 && Antichain(s, live) && FreeNode(s, live, first + 1) && firstOrder == Order(s, first + 1)
    requires RightBelow(manager[..], s, live, first + 1)
    modifies manager
    ensures Represents(manager[..], s, live)
  {
    var i: nat, order := first, firstOrder;
    while i != 0
      invariant Node(s, i + 1) && Within(first + 1, i + 1) && order == Order(s, i + 1)
      invariant RightBelow(manager[..], s, live, i + 1)
    {
      ghost var m := manager[..];
      var p := (i + 1) / 2;
      MergeStep(m, s, live, first + 1, i + 1, p);
      SetMerged(manager, p - 1, order);
      assert manager[..] == m[p - 1 := Merged(m[2 * p - 1], m[2 * p], order)];
      i, order := p - 1, order + 1;
    }
    RightAtRoot(manager[..], s, live);
  }

  method SetMerged(manager: array<nat>, i: nat, order: nat)
    requires 2 * i + 2 < manager.Length
    modifies manager
    ensures manager[..] ==
            old(manager[..])[i := Merged(old(manager[..])[2 * i + 1], old(manager[..])[2 * i + 2], order)]
  {
    var l, r := manager[2 * i + 1], manager[2 * i + 2];
    manager[i] := Larger(l, r);
    if l == order && r == order { manager[i] := manager[i] + 1; }
  }

  // The search loop of buddy_alloc.
  method Search(manager: array<nat>, order: nat) returns (i: nat)
    requires Descend(manager[..], 1, order) >= 2
    ensures i + 1 == Descend(manager[..], 1, order) / 2
  {
    i := 0;
    while i < manager.Length && manager[i] >= order
      invariant Descend(manager[..], i + 1, order) == Descend(manager[..], 1, order)
      decreases manager.Length - i
    {
      if 2 * i + 2 < manager.Length && manager[2 * i + 1] >= order {
        i := 2 * i + 1;
      } else {
        i := 2 * i + 2;
      }
    }
    i := (i + 1) / 2 - 1;
  }

  // What the array holds at a node within the live node n.
  lemma EntryOnTheWay(m: seq<nat>, s: Shape, live: set<nat>, a: nat, n: nat)
    requires s.leaf >= 1 && Antichain(s, live) && Represents(m, s, live) && n in live && Node(s, a) && Within(a, n)
    ensures a <= |m| && m[a - 1] == if a == n then 0 else Order(s, a)
  {
    assert EntryAt(m, s, live, a);
    EntryBelowLive(s, live, a, n);
  }

  lemma ParentOnTheWay(s: Shape, a: nat, n: nat)
    requires Node(s, a) && a > 1 && Within(a, n) && a != n
    ensures Node(s, a / 2) && Within(a / 2, n) && Order(s, a / 2) == Order(s, a) + 1
  {
    ParentOf(s, a);
  }

  // The climb of buddy_free, from the smallest block at the freed address to the node that was handed out.
  method Climb(manager: array<nat>, leafIndex: nat, leafOrder: nat,
               ghost s: Shape, ghost live: set<nat>, ghost n: nat)
    returns (i: nat, order: nat)
    requires s.leaf >= 1 && Antichain(s, live) && Represents(manager[..], s, live) && n in live
    requires Node(s, leafIndex + 1) && Within(leafIndex + 1, n) && leafOrder == Order(s, leafIndex + 1)
    ensures i + 1 == n && order == Order(s, n)
  {
    i, order := leafIndex, leafOrder;
    EntryOnTheWay(manager[..], s, live, i + 1, n);
    while i != 0 && manager[i] != 0
      invariant Node(s, i + 1) && Within(i + 1, n) && order == Order(s, i + 1)
      invariant i < manager.Length && manager[i] == if i + 1 == n then 0 else order
    {
      var p := (i + 1) / 2;
      ParentOnTheWay(s, i + 1, n);
      EntryOnTheWay(manager[..], s, live, p, n);
      order, i := order + 1, p - 1;
    }
  }

  lemma PoolShape(top: nat, leaf: nat)
    requires Pow2(top) % Pow2(leaf) == 0
    ensures leaf <= top && Pow2(top) / Pow2(leaf) == Pow2(top - leaf)
  {
    if top < leaf {
      Pow2Monotone(top, leaf);
      SmallMod(Pow2(top), Pow2(leaf));
    } else {
      Pow2Add(top - leaf, leaf);
      MultipleMod(Pow2(top), Pow2(top - leaf), Pow2(leaf));
    }
  }

  lemma SmallMod(x: nat, m: nat)
    requires x < m
    ensures x % m == x
  {
  }

  lemma LeafPositive(w: bv32, leaf: nat)
    requires w != 1 && w as int == Pow2(leaf)
    ensures leaf >= 1
  {
    if leaf == 0 { EqualValues(w, 1); }
  }

  // The argument checks of buddy_init.
  method SizesAccepted(size: bv32, nodeSize: bv32) returns (ok: bool, ghost s: Shape)
    ensures ok <==> size != 0 && nodeSize != 0 && IsPowerOf2(size as int) && IsPowerOf2(nodeSize as int)
                    && size as int % nodeSize as int == 0
    ensures ok ==>
              && s.leaf <= s.top < 32 && size as int == Pow2(s.top) && nodeSize as int == Pow2(s.leaf)
              && size as int / nodeSize as int == Pow2(s.top - s.leaf)
              && LogOf2(size) == s.top && IsPow2Word(nodeSize) && (nodeSize != 1 ==> s.leaf >= 1)
  {
    ok, s := false, Shape(0, 0);
    if size == 0 || nodeSize == 0 { return; }
    BitTrickDecides(size);
    BitTrickDecides(nodeSize);
    if !IsPow2Word(size) || !IsPow2Word(nodeSize) { return; }
    if size as int % nodeSize as int != 0 { return; }
    ghost var top := OneBit(size);
    ghost var leaf := OneBit(nodeSize);
    PoolShape(top, leaf);
    if nodeSize != 1 { LeafPositive(nodeSize, leaf); }
    ok, s := true, Shape(top, leaf);
  }

  // The initialising loop of buddy_init: the order drops by one at each power of two.
  method FillOrders(manager: array<nat>, order: nat, ghost s: Shape)
    requires s.leaf <= s.top == order && manager.Length == 2 * Pow2(s.top - s.leaf) - 1
    modifies manager
    ensures Represents(manager[..], s, {})
  {
    var childOrder: nat := order + 1;
    for i := 0 to manager.Length
      invariant childOrder == if i == 0 then s.top + 1 else s.top - Depth(i)
      invariant forall n: nat :: Node(s, n) && n <= i ==> manager[n - 1] == Order(s, n)
    {
      if i > 0 { DepthSteps(i + 1); }
      NodeIffIndex(s, i + 1);
      if IsPowerOf2(i + 1) {
        childOrder := childOrder - 1;
      }
      manager[i] := childOrder;
      assert manager[i] == Order(s, i + 1);
    }
    forall n: nat | Node(s, n)
      ensures n <= manager.Length && manager[n - 1] == Entry(s, {}, n)
    {
      NodeIffIndex(s, n);
    }
  }

  // The rounding at the head of buddy_alloc.
  method RoundRequest(request: bv32, nodeSize: bv32, ghost leaf: nat) returns (blockSize: nat, order: nat)
    requires request != 0 && leaf < 32 && nodeSize as int == Pow2(leaf) && IsPow2Word(nodeSize)
    ensures order == WantedOrder(request, leaf) && blockSize == Pow2(order) && leaf <= order < 32
  {
    var rounded := NextPow2(request);
    var larger := if rounded > nodeSize then rounded else nodeSize;
    blockSize, order := larger as int, LogOf2(larger);
    OneBitOfNode(nodeSize, leaf);
    CompareWithOneBit(rounded, nodeSize);
    if rounded > nodeSize {
      NextPow2WrapsAbove(request);
      var k := NextPow2IsLeast(request);
      if k < leaf { Pow2Monotone(k, leaf); }
    }
  }

  lemma OneBitOfNode(w: bv32, k: nat)
    requires IsPow2Word(w) && w as int == Pow2(k)
    ensures w != 0 && LogOf2(w) == k
  {
    assert (0 as bv32) as int == 0;
    var j := OneBit(w);
    Pow2Injective(j, k);
  }

  // Where buddy_free starts its climb.
  method FirstIndex(offset: nat, size: nat, nodeSize: bv32, ghost s: Shape, ghost n: nat)
    returns (i: nat, order: nat)
    requires Node(s, n) && offset == Lo(s, n) && size == Pow2(s.top)
    requires nodeSize as int == Pow2(s.leaf) && IsPow2Word(nodeSize)
    ensures Node(s, i + 1) && Within(i + 1, n) && order == Order(s, i + 1)
  {
    LeafIndex(s, n);
    LeafWithin(s, n);
    OneBitOfNode(nodeSize, s.leaf);
    i := (offset + size) / nodeSize as int - 1;
    order := LogOf2(nodeSize);
  }

  class BuddyPool {
    var start: nat
    var size: nat
    var nodeSize: bv32
    var manager: array<nat>
    var currSize: nat
    ghost var shape: Shape
    ghost var live: set<nat>

    ghost predicate Valid()
      reads this, manager
    {
      && start != 0
      && 1 <= shape.leaf <= shape.top < 32
      && size == Pow2(shape.top) && nodeSize as int == Pow2(shape.leaf) && IsPow2Word(nodeSize)
      && Antichain(shape, live)
      && Represents(manager[..], shape, live)
      && currSize + Total(shape, live) == Pow2(shape.top)
    }

    // buddy_init: refuses sizes that are zero, not powers of two or not multiples; otherwise every block is free.
    method Init(start: nat, size: bv32, managerArea: array<nat>, nodeSize: bv32) returns (ok: bool)
      requires size != 0 && nodeSize != 0 && size as int % nodeSize as int == 0 ==>
                 managerArea.Length == 2 * (size as int / nodeSize as int) - 1
      modifies this, managerArea
      ensures ok <==> size != 0 && nodeSize != 0 && IsPowerOf2(size as int) && IsPowerOf2(nodeSize as int)
                      && size as int % nodeSize as int == 0
      ensures ok ==> Represents(manager[..], shape, {}) && live == {} && currSize == size as int
      ensures ok && start != 0 && nodeSize != 1 ==> Valid()
    {
      ghost var s: Shape;
      ok, s := SizesAccepted(size, nodeSize);
      if !ok { return; }
      this.start, this.size, this.nodeSize, manager := start, size as int, nodeSize, managerArea;
      currSize := size as int;
      shape, live := s, {};
      FillOrders(managerArea, LogOf2(size), s);
    }

    // The size test and the search of buddy_alloc.
    method Find(order: nat, blockSize: nat) returns (found: bool, i: nat, offset: int)
      requires Valid() && shape.leaf <= order && blockSize == Pow2(order)
      ensures !found ==> forall off :: !FreeBlock(shape, live, off, order)
      ensures found ==>
                && FreeNode(shape, live, i + 1) && Order(shape, i + 1) == order
                && offset == Lo(shape, i + 1) >= 0
                && FreeBlock(shape, live, offset, order) && NodeOf(shape, offset, order) == i + 1
    {
      i, offset := 0, 0;
      RootDecides(manager[..], shape, live, order);
      if manager[0] < order {
        Pow2Monotone(manager[0], order);
      } else {
        Pow2Monotone(order, manager[0]);
      }
      found := blockSize <= Pow2(manager[0]);
      if found {
        i := Search(manager, order);
        offset := (i + 1) * blockSize - size;
        FreeNodeIsFreeBlock(shape, live, i + 1);
        NodeOfItsBlock(shape, i + 1);
      }
    }

    method Take(i: nat, order: nat)
      requires Valid() && FreeNode(shape, live, i + 1) && order == Order(shape, i + 1)
      modifies this`currSize, this`live, manager
      ensures Valid()
      ensures live == old(live) + {i + 1} && i + 1 !in old(live)
      ensures currSize == old(currSize) - Pow2(order)
    {
      TakeNode(shape, live, i + 1);
      ghost var before, live' := manager[..], live + {i + 1};
      NodeIffIndex(shape, i + 1);
      MarkTaken(before, shape, live, i + 1);
      TotalOfPart(shape, live', i + 1);
      assert live' - {i + 1} == live;
      LiveBlocksFitPool(shape, live');
      manager[i] := 0;
      assert manager[..] == before[i := 0];
      live := live';
      currSize := currSize - Pow2(order);
      RaiseMaxima(manager, i, shape, live');
    }

    // What an allocation of a block of the order does: 0 exactly when no free aligned block of that order exists, and
    // then nothing changes; otherwise one such block is live now.
    ghost predicate Allocated(addr: nat, before: set<nat>, m: seq<nat>, free: int, order: nat)
      requires Antichain(shape, before)
      reads this, manager
    {
      && (addr == 0 <==> forall off :: !FreeBlock(shape, before, off, order))
      && (addr == 0 ==> live == before && manager[..] == m && currSize == free)
      && (addr != 0 ==> addr >= start && Handed(before, addr - start, order) && currSize == free - Pow2(order))
    }

    method AllocOrder(order: nat, blockSize: nat) returns (addr: nat)
      requires Valid() && shape.leaf <= order && blockSize == Pow2(order)
      modifies this`currSize, this`live, manager
      ensures Valid() && Allocated(addr, old(live), old(manager[..]), old(currSize), order)
    {
      addr := 0;
      var found, i, offset := Find(order, blockSize);
      if !found { return; }
      Take(i, order);
      addr := start + offset;
    }

    // The block at off was free before and is the one block that is live now but was not before.
    ghost predicate Handed(before: set<nat>, off: nat, order: nat)
      requires Antichain(shape, before)
      reads this
    {
      && FreeBlock(shape, before, off, order)
      && NodeOf(shape, off, order) !in before
      && live == before + {NodeOf(shape, off, order)}
    }

    // buddy_alloc
    method Alloc(request: bv32) returns (addr: nat)
      requires Valid()
      modifies this`currSize, this`live, manager
      ensures Valid()
      ensures request == 0 ==>
                addr == 0 && live == old(live) && manager[..] == old(manager[..]) && currSize == old(currSize)
      ensures request != 0 ==>
                Allocated(addr, old(live), old(manager[..]), old(currSize), WantedOrder(request, shape.leaf))
    {
      if request == 0 { return 0; }
      var blockSize, order := RoundRequest(request, nodeSize, shape.leaf);
      addr := AllocOrder(order, blockSize);
    }

    method GiveBack(i: nat, order: nat)
      requires Valid() && i + 1 in live && order == Order(shape, i + 1)
      modifies this`currSize, this`live, manager
      ensures Valid()
      ensures live == old(live) - {i + 1}
      ensures currSize == old(currSize) + Pow2(order)
    {
      ReturnNode(shape, live, i + 1);
      ghost var before, live' := manager[..], live - {i + 1};
      NodeIffIndex(shape, i + 1);
      MarkFree(before, shape, live, i + 1);
      TotalOfPart(shape, live, i + 1);
      manager[i] := order;
      assert manager[..] == before[i := order];
      live := live';
      currSize := currSize + Pow2(order);
      MergeBuddies(manager, i, order, shape, live');
    }

    method Locate(offset: nat, ghost n: nat) returns (i: nat, order: nat)
      requires Valid() && n in live && offset == Lo(shape, n)
      ensures i + 1 == n && order == Order(shape, n)
      ensures offset <= size && offset == (i + 1) * Pow2(order) - size
    {
      i, order := FirstIndex(offset, size, nodeSize, shape, n);
      i, order := Climb(manager, i, order, shape, live, n);
      LoOfNode(shape, n);
    }

    // buddy_free of the null address, or of the address of the live block n.
    method Free(addr: nat, ghost n: nat)
      requires Valid()
      requires addr != 0 ==> n in live && addr == start + Lo(shape, n)
      modifies this`currSize, this`live, manager
      ensures Valid()
      ensures addr == 0 ==> live == old(live) && manager[..] == old(manager[..]) && currSize == old(currSize)
      ensures addr != 0 ==> live == old(live) - {n} && currSize == old(currSize) + Pow2(Order(shape, n))
    {
      if addr == 0 { return; }
      LoOfNode(shape, n);
      var offset := addr - start;
      var i, order := Locate(offset, n);
      assert offset <= size && offset == (i + 1) * Pow2(order) - size;
      GiveBack(i, order);
    }
  }

  // A block freed right after it was allocated leaves no trace.
  method AllocThenFree(pool: BuddyPool, request: bv32)
    requires pool.Valid()
    modifies pool`currSize, pool`live, pool.manager
    ensures pool.Valid()
    ensures pool.manager[..] == old(pool.manager[..])
    ensures pool.live == old(pool.live) && pool.currSize == old(pool.currSize)
  {
    ghost var before, live := pool.manager[..], pool.live;
    var addr := pool.Alloc(request);
    if addr != 0 {
      ghost var order := WantedOrder(request, pool.shape.leaf);
      ghost var n := NodeOf(pool.shape, addr - pool.start, order);
      NodeOfBlock(pool.shape, addr - pool.start, order);
      assert n in pool.live;
      pool.Free(addr, n);
      assert pool.live == live;
      RepresentsUnique(before, pool.manager[..], pool.shape, live);
    }
  }

  // The addresses are those of the nodes, and the nodes are the live blocks, each once.
  ghost predicate ListsLive(s: Shape, start: nat, live: set<nat>, addrs: seq<nat>, nodes: seq<nat>)
    requires Antichain(s, live)
  {
    && |addrs| == |nodes|
    && (forall n :: n in live <==> n in nodes)
    && (forall j, k :: 0 <= j < k < |nodes| ==> nodes[j] != nodes[k])
    && (forall k :: 0 <= k < |nodes| ==> nodes[k] in live && addrs[k] == start + Lo(s, nodes[k]))
  }

  lemma ListsLiveTail(s: Shape, start: nat, live: set<nat>, addrs: seq<nat>, nodes: seq<nat>)
    requires Antichain(s, live) && ListsLive(s, start, live, addrs, nodes) && |addrs| > 0
    ensures nodes[0] in live && addrs[0] == start + Lo(s, nodes[0]) >= start
    ensures Antichain(s, live - {nodes[0]}) && ListsLive(s, start, live - {nodes[0]}, addrs[1..], nodes[1..])
  {
    LoOfNode(s, nodes[0]);
    assert nodes == [nodes[0]] + nodes[1..];
  }

  // Freeing every live block, in whatever order, restores the array of buddy_init.
  method FreeAll(pool: BuddyPool, addrs: seq<nat>, ghost nodes: seq<nat>)
    requires pool.Valid() && ListsLive(pool.shape, pool.start, pool.live, addrs, nodes)
    modifies pool`currSize, pool`live, pool.manager
    ensures pool.Valid() && pool.live == {} && pool.currSize == pool.size
    ensures forall n: nat :: Node(pool.shape, n) ==>
                               n <= pool.manager.Length && pool.manager[n - 1] == Order(pool.shape, n)
    decreases |addrs|
  {
    if |addrs| == 0 {
      assert pool.live == {};
      NothingLive(pool.manager[..], pool.shape);
    } else {
      ListsLiveTail(pool.shape, pool.start, pool.live, addrs, nodes);
      pool.Free(addrs[0], nodes[0]);
      FreeAll(pool, addrs[1..], nodes[1..]);
    }
  }
}
