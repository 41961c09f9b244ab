/**
  The implicit binary tree of lib/buddy.c, as a function of the set of live blocks.

  Nodes are numbered from 1 (manager[n - 1] belongs to node n), so node n has children 2n and 2n + 1. A node at
  depth d stands for an aligned block of 2^(top - d) bytes, and the smallest blocks have 2^leaf bytes.
 */
module BuddyTree {
  import opened Words

  datatype Shape = Shape(top: nat, leaf: nat)

  ghost function Depth(n: nat): nat
    requires n >= 1
  {
    if n == 1 then 0 else 1 + Depth(n / 2)
  }

  ghost predicate Node(s: Shape, n: nat) {
    n >= 1 && s.leaf + Depth(n) <= s.top
  }

  ghost function Order(s: Shape, n: nat): nat
    requires Node(s, n)
  {
    s.top - Depth(n)
  }

  // Node a lies in the subtree rooted at node n.
  ghost predicate Within(a: nat, n: nat) {
    a == n || (a > n && Within(a / 2, n))
  }

  // No live block lies in the subtree of n.
  ghost predicate Untouched(live: set<nat>, n: nat) {
    forall a :: a in live ==> !Within(a, n)
  }

  // No live block contains node n.
  ghost predicate Uncovered(live: set<nat>, n: nat) {
    forall a :: a in live ==> !Within(n, a)
  }

  ghost predicate Antichain(s: Shape, live: set<nat>) {
    && (forall a :: a in live ==> Node(s, a))
    && (forall a, b :: a in live && b in live && a != b ==> !Within(a, b))
  }

  // The value manager[n - 1].order must hold.
  ghost function Entry(s: Shape, live: set<nat>, n: nat): nat
    requires Node(s, n)
    decreases s.top - Depth(n)
  {
    if n in live then 0
    else if Untouched(live, n) then Order(s, n)
    else if Order(s, n) == s.leaf then 0
    else
      var l, r := Entry(s, live, 2 * n), Entry(s, live, 2 * n + 1);
      if l < r then r else l
  }

  // First byte of the block of node n, relative to the start of the pool.
  ghost function Lo(s: Shape, n: nat): (lo: int)
    requires Node(s, n)
  {
    n * Pow2(Order(s, n)) - Pow2(s.top)
  }

  ghost function Hi(s: Shape, n: nat): int
    requires Node(s, n)
  {
    Lo(s, n) + Pow2(Order(s, n))
  }

  // An aligned block of 2^o bytes at offset off, inside the pool and apart from every live block.
  ghost predicate FreeBlock(s: Shape, live: set<nat>, off: int, o: nat)
    requires Antichain(s, live)
  {
    && s.leaf <= o <= s.top
    && 0 <= off && off % Pow2(o) == 0 && off + Pow2(o) <= Pow2(s.top)
    && forall a :: a in live ==> off + Pow2(o) <= Lo(s, a) || Hi(s, a) <= off
  }

  // ----- Shape of the tree -----

  lemma DepthBounds(n: nat)
    requires n >= 1
    ensures Pow2(Depth(n)) <= n < 2 * Pow2(Depth(n))
  {
  }

  lemma DepthUnique(n: nat, d: nat)
    requires Pow2(d) <= n < 2 * Pow2(d)
    ensures Depth(n) == d
  {
    DepthBounds(n);
    if Depth(n) < d { Pow2Monotone(Depth(n), d); }
    if Depth(n) > d { Pow2Monotone(d, Depth(n)); }
  }

  // The manager array has exactly one entry per node.
  lemma NodeIffIndex(s: Shape, n: nat)
    requires s.leaf <= s.top && n >= 1
    ensures Node(s, n) <==> n < 2 * Pow2(s.top - s.leaf)
  {
    DepthBounds(n);
    if Node(s, n) {
      Pow2Monotone(Depth(n), s.top - s.leaf);
    } else {
      Pow2Monotone(s.top - s.leaf, Depth(n));
    }
  }

  lemma Children(s: Shape, n: nat)
    requires Node(s, n)
    ensures Depth(2 * n) == Depth(2 * n + 1) == Depth(n) + 1
    ensures Order(s, n) > s.leaf ==> Node(s, 2 * n) && Node(s, 2 * n + 1)
    ensures Order(s, n) > s.leaf ==>
              && Lo(s, 2 * n) == Lo(s, n)
              && Hi(s, 2 * n) == Lo(s, 2 * n + 1)
              && Hi(s, 2 * n + 1) == Hi(s, n)
  {
  }

  lemma {:induction false} WithinTransitive(a: nat, b: nat, c: nat)
    requires Within(a, b) && Within(b, c)
    ensures Within(a, c)
    ensures a >= b >= c
  {
    WithinGrows(b, c);
    if a != b { WithinTransitive(a / 2, b, c); }
  }

  lemma WithinGrows(a: nat, b: nat)
    requires Within(a, b)
    ensures a >= b
  {
  }

  lemma {:induction false} WithinDepth(a: nat, b: nat)
    requires Within(a, b) && b >= 1
    ensures a >= 1 && Depth(a) >= Depth(b)
    ensures Depth(a) == Depth(b) ==> a == b
  {
    if a != b { WithinDepth(a / 2, b); }
  }

  // A node below n lies below exactly one of its children.
  lemma {:induction false} WithinChild(a: nat, n: nat)
    requires Within(a, n) && a != n && n >= 1
    ensures Within(a, 2 * n) != Within(a, 2 * n + 1)
  {
    if a / 2 == n {
      assert a == 2 * n || a == 2 * n + 1;
      assert !Within(n, 2 * n) && !Within(n, 2 * n + 1);
    } else {
      WithinChild(a / 2, n);
      WithinGrows(a / 2, n);
    }
  }

  lemma {:induction false} WithinInterval(s: Shape, a: nat, n: nat)
    requires Node(s, a) && Node(s, n) && Within(a, n)
    ensures Lo(s, n) <= Lo(s, a) && Hi(s, a) <= Hi(s, n)
  {
    if a != n {
      WithinInterval(s, a / 2, n);
      Children(s, a / 2);
      assert a == 2 * (a / 2) || a == 2 * (a / 2) + 1;
    }
  }

  lemma NextMultiple(k: nat, p: nat)
    ensures (k + 1) * p == k * p + p
  {
  }

  lemma {:induction false} MultiplesApart(i: nat, j: nat, p: nat)
    requires i < j
    ensures i * p + p <= j * p
    decreases j
  {
    NextMultiple(j - 1, p);
    if i < j - 1 { MultiplesApart(i, j - 1, p); }
  }

  // Nodes neither of which contains the other stand for disjoint blocks.
  lemma {:induction false} UnrelatedDisjoint(s: Shape, a: nat, b: nat)
    requires Node(s, a) && Node(s, b) && !Within(a, b) && !Within(b, a)
    ensures Hi(s, a) <= Lo(s, b) || Hi(s, b) <= Lo(s, a)
    decreases a + b
  {
    if Depth(a) == Depth(b) {
      MultiplesApart(if a < b then a else b, if a < b then b else a, Pow2(Order(s, a)));
    } else if Depth(a) > Depth(b) {
      UnrelatedToParent(a, b);
      UnrelatedDisjoint(s, a / 2, b);
      WithinInterval(s, a, a / 2);
    } else {
      UnrelatedToParent(b, a);
      UnrelatedDisjoint(s, a, b / 2);
      WithinInterval(s, b, b / 2);
    }
  }

  lemma UnrelatedToParent(a: nat, b: nat)
    requires a >= 1 && b >= 1 && !Within(a, b) && Depth(a) > Depth(b)
    ensures !Within(a / 2, b) && !Within(b, a / 2)
  {
    if Within(a / 2, b) { WithinGrows(a / 2, b); }
    if Within(b, a / 2) { WithinDepth(b, a / 2); }
  }

  // ----- What an entry means -----

  lemma EntryBound(s: Shape, live: set<nat>, n: nat)
    requires Node(s, n)
    ensures Entry(s, live, n) <= Order(s, n)
    ensures Order(s, n) >= 1 ==> (Entry(s, live, n) == Order(s, n) <==> Untouched(live, n))
    decreases s.top - Depth(n)
  {
    Children(s, n);
    if n !in live && !Untouched(live, n) && Order(s, n) > s.leaf {
      EntryBound(s, live, 2 * n);
      EntryBound(s, live, 2 * n + 1);
    }
    assert n in live ==> Within(n, n);
  }

  // Entries depend only on the live blocks of their own subtree.
  lemma {:induction false} EntryFrame(s: Shape, live: set<nat>, live': set<nat>, n: nat)
    requires Node(s, n)
    requires forall a :: Within(a, n) ==> (a in live <==> a in live')
    ensures Entry(s, live, n) == Entry(s, live', n)
    decreases s.top - Depth(n)
  {
    assert Within(n, n);
    assert Untouched(live, n) <==> Untouched(live', n);
    if Order(s, n) > s.leaf {
      Children(s, n);
      forall c, a | c in {2 * n, 2 * n + 1} && Within(a, c)
        ensures a in live <==> a in live'
      {
        assert Within(c, n);
        WithinTransitive(a, c, n);
      }
      EntryFrame(s, live, live', 2 * n);
      EntryFrame(s, live, live', 2 * n + 1);
    }
  }

  // A positive entry is realised by a free node of that order in the subtree.
  lemma {:induction false} EntryRealised(s: Shape, live: set<nat>, n: nat) returns (m: nat)
    requires Node(s, n) && Uncovered(live, n) && Entry(s, live, n) > 0
    ensures Node(s, m) && Within(m, n) && Order(s, m) == Entry(s, live, n)
    ensures Untouched(live, m) && Uncovered(live, m)
    decreases s.top - Depth(n)
  {
    if Untouched(live, n) {
      m := n;
    } else {
      Children(s, n);
      var c := if Entry(s, live, 2 * n) < Entry(s, live, 2 * n + 1) then 2 * n + 1 else 2 * n;
      UncoveredChild(s, live, n, c);
      m := EntryRealised(s, live, c);
      assert Within(c, n);
      WithinTransitive(m, c, n);
    }
  }

  lemma UncoveredChild(s: Shape, live: set<nat>, n: nat, c: nat)
    requires n >= 1 && Uncovered(live, n) && c in {2 * n, 2 * n + 1} && (c !in live)
    ensures Uncovered(live, c)
  {
    forall a | a in live ensures !Within(c, a) {
      assert c / 2 == n;
    }
  }

  ghost predicate FreeNode(s: Shape, live: set<nat>, m: nat) {
    Node(s, m) && Untouched(live, m) && Uncovered(live, m)
  }

  lemma MultipleMod(x: int, q: nat, p: nat)
    requires p >= 1 && x == q * p
    ensures x % p == 0 && x / p == q
  {
    var d := x / p;
    assert x == p * d + x % p;
    if d < q { MultiplesApart(d, q, p); }
    if d > q { MultiplesApart(q, d, p); }
  }

  lemma SplitPool(m: nat, w: nat, p: nat)
    requires w <= m < 2 * w && p >= 1
    ensures m * p - w * p == (m - w) * p
    ensures 0 <= (m - w) * p && (m - w) * p + p <= w * p
  {
    MultiplesApart(m - w, w, p);
  }

  lemma LoOfNode(s: Shape, m: nat)
    requires Node(s, m)
    ensures Lo(s, m) == (m - Pow2(Depth(m))) * Pow2(Order(s, m))
    ensures 0 <= Lo(s, m) && Hi(s, m) <= Pow2(s.top) && Lo(s, m) % Pow2(Order(s, m)) == 0
  {
    DepthBounds(m);
    Pow2Add(Depth(m), Order(s, m));
    SplitPool(m, Pow2(Depth(m)), Pow2(Order(s, m)));
    MultipleMod(Lo(s, m), m - Pow2(Depth(m)), Pow2(Order(s, m)));
  }

  lemma FreeNodeIsFreeBlock(s: Shape, live: set<nat>, m: nat)
    requires Antichain(s, live) && FreeNode(s, live, m)
    ensures FreeBlock(s, live, Lo(s, m), Order(s, m))
  {
    LoOfNode(s, m);
    forall a | a in live
      ensures Hi(s, m) <= Lo(s, a) || Hi(s, a) <= Lo(s, m)
    {
      UnrelatedDisjoint(s, a, m);
    }
  }

  // The node of an aligned block: the index that buddy_free computes, at the block's own level.
  ghost function NodeOf(s: Shape, off: nat, o: nat): nat
    requires o <= s.top
  {
    off / Pow2(o) + Pow2(s.top - o)
  }

  lemma ExactQuotient(off: nat, p: nat)
    requires p >= 1 && off % p == 0
    ensures off == (off / p) * p
  {
  }

  lemma ShiftedMultiple(q: nat, w: nat, p: nat)
    requires p >= 1 && q * p + p <= w * p
    ensures q < w && (q + w) * p == q * p + w * p
  {
    if q >= w { MultiplesApart(w, q + 1, p); }
  }

  lemma NodeAtMultiple(s: Shape, q: nat, o: nat)
    requires s.leaf <= o <= s.top && q * Pow2(o) + Pow2(o) <= Pow2(s.top)
    ensures var m := q + Pow2(s.top - o); Node(s, m) && Order(s, m) == o && Lo(s, m) == q * Pow2(o)
  {
    Pow2Add(s.top - o, o);
    ShiftedMultiple(q, Pow2(s.top - o), Pow2(o));
    DepthUnique(q + Pow2(s.top - o), s.top - o);
  }

  lemma NodeOfBlock(s: Shape, off: nat, o: nat)
    requires s.leaf <= o <= s.top && off % Pow2(o) == 0 && off + Pow2(o) <= Pow2(s.top)
    ensures Node(s, NodeOf(s, off, o)) && Order(s, NodeOf(s, off, o)) == o && Lo(s, NodeOf(s, off, o)) == off
  {
    ExactQuotient(off, Pow2(o));
    NodeAtMultiple(s, off / Pow2(o), o);
  }

  lemma FreeBlockIsFreeNode(s: Shape, live: set<nat>, off: int, o: nat) returns (m: nat)
    requires Antichain(s, live) && FreeBlock(s, live, off, o)
    ensures FreeNode(s, live, m) && Lo(s, m) == off && Order(s, m) == o
  {
    m := NodeOf(s, off, o);
    NodeOfBlock(s, off, o);
    forall a | a in live
      ensures !Within(a, m) && !Within(m, a)
    {
      if Within(a, m) { WithinInterval(s, a, m); }
      if Within(m, a) { WithinInterval(s, m, a); }
    }
  }

  lemma {:induction false} FreeNodeBelowEntry(s: Shape, live: set<nat>, n: nat, m: nat)
    requires Node(s, n) && FreeNode(s, live, m) && Within(m, n)
    ensures Order(s, m) <= Entry(s, live, n)
    decreases s.top - Depth(n)
  {
    WithinDepth(m, n);
    assert Within(n, n);
    if n in live {
      assert false;
    } else if !Untouched(live, n) {
      WithinChild(m, n);
      Children(s, n);
      var c := if Within(m, 2 * n) then 2 * n else 2 * n + 1;
      WithinDepth(m, c);
      FreeNodeBelowEntry(s, live, c, m);
    }
  }

  lemma InsideIntervalIsWithin(s: Shape, m: nat, n: nat)
    requires Node(s, m) && Node(s, n) && Lo(s, n) <= Lo(s, m) && Hi(s, m) <= Hi(s, n)
    ensures Within(m, n)
  {
    if !Within(m, n) {
      if Within(n, m) {
        WithinInterval(s, n, m);
        Pow2Injective(Order(s, n), Order(s, m));
        WithinDepth(n, m);
      } else {
        UnrelatedDisjoint(s, m, n);
      }
    }
  }

  // An entry not under a live block is the order of the largest free aligned block of its subtree, or 0 if there
  // is none.
  lemma EntryIsLargestFree(s: Shape, live: set<nat>, n: nat)
    requires Antichain(s, live) && Node(s, n) && Uncovered(live, n)
    ensures forall off, o: nat :: FreeBlock(s, live, off, o) && Lo(s, n) <= off && off + Pow2(o) <= Hi(s, n)
                             ==> o <= Entry(s, live, n)
    ensures Entry(s, live, n) > 0 ==>
              exists off :: FreeBlock(s, live, off, Entry(s, live, n)) && Lo(s, n) <= off
                            && off + Pow2(Entry(s, live, n)) <= Hi(s, n)
  {
    forall off, o: nat | FreeBlock(s, live, off, o) && Lo(s, n) <= off && off + Pow2(o) <= Hi(s, n)
      ensures o <= Entry(s, live, n)
    {
      var m := FreeBlockIsFreeNode(s, live, off, o);
      InsideIntervalIsWithin(s, m, n);
      FreeNodeBelowEntry(s, live, n, m);
    }
    if Entry(s, live, n) > 0 {
      var m := EntryRealised(s, live, n);
      FreeNodeIsFreeBlock(s, live, m);
      WithinInterval(s, m, n);
    }
  }

  // ----- Taking and returning a node -----

  lemma TakeNode(s: Shape, live: set<nat>, m: nat)
    requires Antichain(s, live) && FreeNode(s, live, m)
    ensures Antichain(s, live + {m}) && m !in live
  {
    assert Within(m, m);
  }

  lemma ReturnNode(s: Shape, live: set<nat>, m: nat)
    requires Antichain(s, live) && m in live
    ensures Antichain(s, live - {m}) && FreeNode(s, live - {m}, m)
    ensures (live - {m}) + {m} == live
  {
  }

  // An entry that is not itself live is determined by its children, as both update loops compute it.
  lemma EntryFromChildren(s: Shape, live: set<nat>, p: nat)
    requires Node(s, p) && p !in live && Order(s, p) > s.leaf >= 1
    ensures Node(s, 2 * p) && Node(s, 2 * p + 1)
    ensures var l, r := Entry(s, live, 2 * p), Entry(s, live, 2 * p + 1);
            Entry(s, live, p) == if l == r == Order(s, p) - 1 then Order(s, p) else if l < r then r else l
  {
    Children(s, p);
    EntryBound(s, live, 2 * p);
    EntryBound(s, live, 2 * p + 1);
    UntouchedFromChildren(live, p);
  }

  lemma UntouchedFromChildren(live: set<nat>, p: nat)
    requires p >= 1 && p !in live
    ensures Untouched(live, p) <==> Untouched(live, 2 * p) && Untouched(live, 2 * p + 1)
  {
    if Untouched(live, p) {
      forall a, c | a in live && c in {2 * p, 2 * p + 1} ensures !Within(a, c) {
        assert Within(c, p);
        if Within(a, c) { WithinTransitive(a, c, p); }
      }
    } else {
      var a :| a in live && Within(a, p);
      WithinChild(a, p);
    }
  }

  // Total number of bytes in the live blocks.
  ghost function Total(s: Shape, live: set<nat>): nat
    requires forall a :: a in live ==> Node(s, a)
  {
    if live == {} then 0
    else
      var a :| a in live;
      Pow2(Order(s, a)) + Total(s, live - {a})
  }

  lemma {:induction false} TotalOfPart(s: Shape, live: set<nat>, a: nat)
    requires (forall b :: b in live ==> Node(s, b)) && a in live
    ensures Total(s, live) == Pow2(Order(s, a)) + Total(s, live - {a})
    decreases live
  {
    var b :| b in live && Total(s, live) == Pow2(Order(s, b)) + Total(s, live - {b});
    if a != b {
      TotalOfPart(s, live - {b}, a);
      TotalOfPart(s, live - {a}, b);
      assert (live - {a}) - {b} == (live - {b}) - {a};
    }
  }

  lemma {:induction false} TotalOfUnion(s: Shape, a: set<nat>, b: set<nat>)
    requires (forall x :: x in a + b ==> Node(s, x)) && a !! b
    ensures Total(s, a + b) == Total(s, a) + Total(s, b)
    decreases a
  {
    if a == {} {
      assert a + b == b;
    } else {
      var x :| x in a;
      TotalOfUnion(s, a - {x}, b);
      TotalOfPart(s, a, x);
      TotalOfPart(s, a + b, x);
      assert (a + b) - {x} == (a - {x}) + b;
    }
  }

  ghost function Under(live: set<nat>, n: nat): set<nat> {
    set a | a in live && Within(a, n)
  }

  // The live blocks of a subtree fit into it.
  lemma {:induction false} LiveBlocksFit(s: Shape, live: set<nat>, n: nat)
    requires Antichain(s, live) && Node(s, n)
    ensures Total(s, Under(live, n)) <= Pow2(Order(s, n))
    decreases s.top - Depth(n)
  {
    var under := Under(live, n);
    if n in live {
      assert Within(n, n);
      assert under == {n};
      TotalOfPart(s, {n}, n);
      assert {n} - {n} == {};
    } else if Order(s, n) == s.leaf {
      forall a | a in under ensures false { WithinDepth(a, n); }
      assert under == {};
    } else {
      Children(s, n);
      LiveBlocksFit(s, live, 2 * n);
      LiveBlocksFit(s, live, 2 * n + 1);
      var l, r := Under(live, 2 * n), Under(live, 2 * n + 1);
      SplitUnder(s, live, n);
      TotalOfUnion(s, l, r);
    }
  }

  lemma SplitUnder(s: Shape, live: set<nat>, n: nat)
    requires n >= 1 && n !in live
    ensures var l, r := Under(live, 2 * n), Under(live, 2 * n + 1);
            l !! r && Under(live, n) == l + r
  {
    assert Within(2 * n, n) && Within(2 * n + 1, n);
    forall a | a in live
      ensures Within(a, n) <==> Within(a, 2 * n) || Within(a, 2 * n + 1)
      ensures !(Within(a, 2 * n) && Within(a, 2 * n + 1))
    {
      if Within(a, n) { WithinChild(a, n); }
      if Within(a, 2 * n) { WithinTransitive(a, 2 * n, n); }
      if Within(a, 2 * n + 1) { WithinTransitive(a, 2 * n + 1, n); }
    }
  }

  lemma LiveBlocksFitPool(s: Shape, live: set<nat>)
    requires Antichain(s, live) && s.leaf <= s.top
    ensures Total(s, live) <= Pow2(s.top)
  {
    LiveBlocksFit(s, live, 1);
    forall a | a in live ensures Within(a, 1) { WithinRoot(a); }
    assert Under(live, 1) == live;
  }

  // ----- The search of buddy_alloc -----

  // Where the search loop stops when it is started at node n.
  function Descend(m: seq<nat>, n: nat, order: nat): (r: nat)
    requires n >= 1
    ensures r >= n
    decreases |m| + 1 - n
  {
    if n - 1 < |m| && m[n - 1] >= order then
      if 2 * n < |m| && m[2 * n - 1] >= order then Descend(m, 2 * n, order) else Descend(m, 2 * n + 1, order)
    else n
  }

  // The array holds the entries that belong to the live blocks.
  ghost predicate Represents(m: seq<nat>, s: Shape, live: set<nat>) {
    && s.leaf <= s.top
    && |m| == 2 * Pow2(s.top - s.leaf) - 1
    && forall n: nat :: EntryAt(m, s, live, n)
  }

  // The entry of node n is right.
  ghost predicate EntryAt(m: seq<nat>, s: Shape, live: set<nat>, n: nat) {
    Node(s, n) ==> n <= |m| && m[n - 1] == Entry(s, live, n)
  }

  lemma DescendStops(m: seq<nat>, s: Shape, live: set<nat>, n: nat, order: nat)
    requires s.leaf >= 1 && Represents(m, s, live) && Node(s, n) && Order(s, n) == order <= Entry(s, live, n)
    ensures Descend(m, n, order) == 2 * n + 1 && Untouched(live, n)
  {
    assert EntryAt(m, s, live, n) && EntryAt(m, s, live, 2 * n) && EntryAt(m, s, live, 2 * n + 1);
    EntryBound(s, live, n);
    Children(s, n);
    NodeIffIndex(s, 2 * n);
    NodeIffIndex(s, 2 * n + 1);
    if Order(s, n) > s.leaf {
      EntryBound(s, live, 2 * n);
      EntryBound(s, live, 2 * n + 1);
    }
  }

  lemma DescendGoesOn(m: seq<nat>, s: Shape, live: set<nat>, n: nat, order: nat) returns (c: nat)
    requires Represents(m, s, live) && Node(s, n) && Uncovered(live, n)
    requires 1 <= s.leaf <= order < Order(s, n) && order <= Entry(s, live, n)
    ensures c in {2 * n, 2 * n + 1} && Node(s, c) && Uncovered(live, c) && Entry(s, live, c) >= order
    ensures Descend(m, n, order) == Descend(m, c, order)
  {
    EntryFromChildren(s, live, n);
    assert EntryAt(m, s, live, n) && EntryAt(m, s, live, 2 * n) && EntryAt(m, s, live, 2 * n + 1);
    c := if m[2 * n - 1] >= order then 2 * n else 2 * n + 1;
    UncoveredChild(s, live, n, c);
  }

  lemma NodeOfItsBlock(s: Shape, n: nat)
    requires Node(s, n)
    ensures Lo(s, n) >= 0 && NodeOf(s, Lo(s, n), Order(s, n)) == n
  {
    LoOfNode(s, n);
    DepthBounds(n);
    MultipleMod(Lo(s, n), n - Pow2(Depth(n)), Pow2(Order(s, n)));
  }

  // One step above the stopping point lies a free node of exactly the order asked for.
  lemma {:induction false} DescendFindsFreeNode(m: seq<nat>, s: Shape, live: set<nat>, n: nat, order: nat)
    requires 1 <= s.leaf <= order && Represents(m, s, live)
    requires Node(s, n) && Uncovered(live, n) && Entry(s, live, n) >= order
    ensures FreeNode(s, live, Descend(m, n, order) / 2) && Order(s, Descend(m, n, order) / 2) == order
    decreases s.top - Depth(n)
  {
    EntryBound(s, live, n);
    if Order(s, n) == order {
      DescendStops(m, s, live, n, order);
    } else {
      var c := DescendGoesOn(m, s, live, n, order);
      Children(s, n);
      DescendFindsFreeNode(m, s, live, c, order);
    }
  }

  // ----- The update loops -----

  // All entries are right, except possibly those of the proper ancestors of n.
  ghost predicate RightBelow(m: seq<nat>, s: Shape, live: set<nat>, n: nat) {
    && s.leaf <= s.top
    && |m| == 2 * Pow2(s.top - s.leaf) - 1
    && forall k: nat :: RightAt(m, s, live, n, k)
  }

  ghost predicate RightAt(m: seq<nat>, s: Shape, live: set<nat>, n: nat, k: nat) {
    !(Within(n, k) && k != n) ==> EntryAt(m, s, live, k)
  }

  lemma RightAtRoot(m: seq<nat>, s: Shape, live: set<nat>)
    requires RightBelow(m, s, live, 1)
    ensures Represents(m, s, live)
  {
    forall n: nat ensures EntryAt(m, s, live, n) { assert RightAt(m, s, live, 1, n); }
  }

  lemma ParentOf(s: Shape, n: nat)
    requires Node(s, n) && n > 1
    ensures Node(s, n / 2) && Order(s, n / 2) == Order(s, n) + 1
    ensures Within(n, n / 2)
    ensures !Within(n, n / 2 * 2) || n / 2 * 2 == n
    ensures !Within(n, n / 2 * 2 + 1) || n / 2 * 2 + 1 == n
  {
    var p := n / 2;
    if n == 2 * p + 1 {
      assert !Within(p, 2 * p);
    }
  }

  lemma RightOneUp(m: seq<nat>, s: Shape, live: set<nat>, n: nat)
    requires Node(s, n) && n > 1 && RightBelow(m, s, live, n)
    ensures Node(s, n / 2) && n / 2 <= |m|
    ensures RightBelow(m[n / 2 - 1 := Entry(s, live, n / 2)], s, live, n / 2)
  {
    var p := n / 2;
    ParentOf(s, n);
    NodeIffIndex(s, p);
    var m' := m[p - 1 := Entry(s, live, p)];
    forall k: nat ensures RightAt(m', s, live, p, k) {
      assert RightAt(m, s, live, n, k);
      if Node(s, k) { NodeIffIndex(s, k); }
    }
  }

  lemma RightOneUpWith(m: seq<nat>, s: Shape, live: set<nat>, n: nat, p: nat, v: nat)
    requires Node(s, n) && n > 1 && p == n / 2 && RightBelow(m, s, live, n) && Node(s, p) && v == Entry(s, live, p)
    ensures 1 <= p <= |m| && RightBelow(m[p - 1 := v], s, live, p)
  {
    RightOneUp(m, s, live, n);
  }

  lemma SiblingsRight(m: seq<nat>, s: Shape, live: set<nat>, n: nat)
    requires Node(s, n) && n > 1 && RightBelow(m, s, live, n)
    ensures var p := n / 2;
            && Node(s, p) && Node(s, 2 * p) && Node(s, 2 * p + 1) && 2 * p < |m|
            && m[2 * p - 1] == Entry(s, live, 2 * p) && m[2 * p] == Entry(s, live, 2 * p + 1)
  {
    var p := n / 2;
    ParentOf(s, n);
    Children(s, p);
    assert RightAt(m, s, live, n, 2 * p) && RightAt(m, s, live, n, 2 * p + 1);
  }

  // Marking node n live leaves only its proper ancestors to be brought up to date.
  lemma MarkTaken(m: seq<nat>, s: Shape, live: set<nat>, n: nat)
    requires Represents(m, s, live) && FreeNode(s, live, n) && n <= |m|
    ensures RightBelow(m[n - 1 := 0], s, live + {n}, n)
  {
    var m', live' := m[n - 1 := 0], live + {n};
    forall k: nat ensures RightAt(m', s, live', n, k) {
      assert EntryAt(m, s, live, k);
      if Node(s, k) && k != n && !Within(n, k) { EntryFrame(s, live, live', k); }
    }
  }

  lemma MarkFree(m: seq<nat>, s: Shape, live: set<nat>, n: nat)
    requires Represents(m, s, live) && Antichain(s, live) && n in live && n <= |m|
    ensures RightBelow(m[n - 1 := Order(s, n)], s, live - {n}, n)
  {
    ReturnNode(s, live, n);
    var m', live' := m[n - 1 := Order(s, n)], live - {n};
    EntryBound(s, live', n);
    forall k: nat ensures RightAt(m', s, live', n, k) {
      assert EntryAt(m, s, live, k);
      if Node(s, k) && k != n && !Within(n, k) { EntryFrame(s, live, live', k); }
    }
  }

  // The array is determined by the live blocks, stale-looking entries included.
  lemma RepresentsUnique(m: seq<nat>, m': seq<nat>, s: Shape, live: set<nat>)
    requires Represents(m, s, live) && Represents(m', s, live)
    ensures m == m'
  {
    forall i | 0 <= i < |m| ensures m[i] == m'[i] {
      NodeIffIndex(s, i + 1);
      assert EntryAt(m, s, live, i + 1) && EntryAt(m', s, live, i + 1);
    }
  }

  // ----- The climb of buddy_free -----

  lemma ShiftedQuotient(x: nat, y: nat, q: nat, w: nat, p: nat)
    requires p >= 1 && x == q * p && y == w * p
    ensures x % p == 0 && x / p == q && (x + y) / p == q + w
  {
    Distribute(q, w, p);
    MultipleMod(x, q, p);
    MultipleMod(x + y, q + w, p);
  }

  lemma LeafAligned(s: Shape, n: nat) returns (q: nat)
    requires Node(s, n)
    ensures Lo(s, n) == q * Pow2(s.leaf)
  {
    LoOfNode(s, n);
    DepthBounds(n);
    var k := Pow2(Order(s, n) - s.leaf);
    Pow2Add(Order(s, n) - s.leaf, s.leaf);
    Associate(n - Pow2(Depth(n)), k, Pow2(s.leaf));
    q := (n - Pow2(Depth(n))) * k;
  }

  // The first index that buddy_free looks at belongs to the smallest block at the freed offset.
  lemma LeafIndex(s: Shape, n: nat)
    requires Node(s, n)
    ensures Lo(s, n) >= 0
    ensures (Lo(s, n) + Pow2(s.top)) / Pow2(s.leaf) == NodeOf(s, Lo(s, n), s.leaf)
    ensures Lo(s, n) % Pow2(s.leaf) == 0
  {
    var q := LeafAligned(s, n);
    LoOfNode(s, n);
    Pow2Add(s.top - s.leaf, s.leaf);
    ShiftedQuotient(Lo(s, n), Pow2(s.top), q, Pow2(s.top - s.leaf), Pow2(s.leaf));
  }

  lemma LeafWithin(s: Shape, n: nat)
    requires Node(s, n) && Lo(s, n) >= 0 && Lo(s, n) % Pow2(s.leaf) == 0
    ensures Node(s, NodeOf(s, Lo(s, n), s.leaf)) && Order(s, NodeOf(s, Lo(s, n), s.leaf)) == s.leaf
    ensures Within(NodeOf(s, Lo(s, n), s.leaf), n)
  {
    LoOfNode(s, n);
    Pow2Monotone(s.leaf, Order(s, n));
    NodeOfBlock(s, Lo(s, n), s.leaf);
    InsideIntervalIsWithin(s, NodeOf(s, Lo(s, n), s.leaf), n);
  }

  lemma Associate(a: nat, b: nat, c: nat)
    ensures a * (b * c) == (a * b) * c
  {
  }

  lemma Distribute(a: nat, b: nat, c: nat)
    ensures (a + b) * c == a * c + b * c
  {
  }

  // Below a live block every entry is positive, so the climb passes through and stops at the block itself.
  lemma EntryBelowLive(s: Shape, live: set<nat>, a: nat, n: nat)
    requires s.leaf >= 1 && Antichain(s, live) && n in live && Node(s, a) && Within(a, n)
    ensures Entry(s, live, a) == if a == n then 0 else Order(s, a)
  {
    if a != n {
      WithinGrows(a, n);
      forall b | b in live ensures !Within(b, a) {
        if Within(b, a) {
          WithinTransitive(b, a, n);
        }
      }
      assert Untouched(live, a);
      assert Within(a, a);
    }
  }

  // Going from node n - 1 to node n, the depth grows exactly at a power of two.
  lemma DepthSteps(n: nat)
    requires n >= 2
    ensures Depth(n) == Depth(n - 1) + (if IsPowerOf2(n) then 1 else 0)
  {
    DepthBounds(n);
    DepthBounds(n - 1);
    if IsPowerOf2(n) {
      var k := PowerOf2Exponent(n);
      assert k >= 1;
      DepthUnique(n, k);
      DepthUnique(n - 1, k - 1);
    } else {
      var d := Depth(n);
      if n == Pow2(d) { Pow2IsPowerOf2(d); }
      DepthUnique(n - 1, d);
    }
  }

  lemma {:induction false} WithinRoot(m: nat)
    requires m >= 1
    ensures Within(m, 1)
  {
    if m > 1 { WithinRoot(m / 2); }
  }

  // The root entry decides whether a block of order o can be had.
  lemma RootDecides(m: seq<nat>, s: Shape, live: set<nat>, o: nat)
    requires 1 <= s.leaf <= o && Antichain(s, live) && Represents(m, s, live)
    ensures |m| >= 1
    ensures m[0] < o ==> forall off :: !FreeBlock(s, live, off, o)
    ensures m[0] >= o ==> FreeNode(s, live, Descend(m, 1, o) / 2) && Order(s, Descend(m, 1, o) / 2) == o
  {
    assert EntryAt(m, s, live, 1);
    if m[0] < o {
      forall off ensures !FreeBlock(s, live, off, o) {
        if FreeBlock(s, live, off, o) {
          var f := FreeBlockIsFreeNode(s, live, off, o);
          WithinRoot(f);
          FreeNodeBelowEntry(s, live, 1, f);
        }
      }
    } else {
      DescendFindsFreeNode(m, s, live, 1, o);
    }
  }

  // With no live block the array is the one that buddy_init wrote.
  lemma NothingLive(m: seq<nat>, s: Shape)
    requires Represents(m, s, {})
    ensures forall n: nat :: Node(s, n) ==> n <= |m| && m[n - 1] == Order(s, n)
  {
    forall n: nat | Node(s, n) ensures n <= |m| && m[n - 1] == Order(s, n) { assert EntryAt(m, s, {}, n); }
  }

  // ----- Smallest blocks of one byte -----

  // Looking for order 0 the search ignores the array and runs down the left edge.
  lemma {:induction false} OrderZeroRunsLeft(m: seq<nat>, s: Shape, n: nat)
    requires s.leaf == 0 && |m| == 2 * Pow2(s.top) - 1 && Node(s, n) && n == Pow2(Depth(n))
    ensures Descend(m, n, 0) == 2 * Pow2(s.top) + 1
    decreases s.top - Depth(n)
  {
    NodeIffIndex(s, n);
    Children(s, n);
    NodeIffIndex(s, 2 * n);
    if Depth(n) < s.top {
      NodeIffIndex(s, 2 * n + 1);
      OrderZeroRunsLeft(m, s, 2 * n);
    } else {
      assert n == Pow2(s.top);
    }
  }

  // Two successive allocations of a smallest block from a fresh pool with room for two give different blocks exactly
  // when the smallest block has at least two bytes: order 0 is also the mark for "taken".
  lemma SmallestBlocksDistinctIff(m: seq<nat>, m': seq<nat>, s: Shape)
    requires s.leaf < s.top && Represents(m, s, {})
    requires s.leaf >= 1 ==> Represents(m', s, {Descend(m, 1, s.leaf) / 2})
    requires s.leaf == 0 ==> |m'| == |m|
    ensures Descend(m, 1, s.leaf) / 2 != Descend(m', 1, s.leaf) / 2 <==> s.leaf >= 1
  {
    if s.leaf == 0 {
      OrderZeroRunsLeft(m, s, 1);
      OrderZeroRunsLeft(m', s, 1);
    } else {
      var f := Descend(m, 1, s.leaf) / 2;
      assert Node(s, 1);
      DescendFindsFreeNode(m, s, {}, 1, s.leaf);
      assert Entry(s, {f}, 1) >= s.leaf by { OneTakenLeavesRoom(s, f); }
      DescendFindsFreeNode(m', s, {f}, 1, s.leaf);
      assert Within(f, f);
    }
  }

  lemma OneTakenLeavesRoom(s: Shape, f: nat)
    requires 1 <= s.leaf < s.top && Node(s, f) && Order(s, f) == s.leaf
    ensures Entry(s, {f}, 1) >= s.leaf && Uncovered({f}, 1)
  {
    var sibling := if f % 2 == 0 then f + 1 else f - 1;
    assert f > 1;
    ParentOf(s, f);
    Children(s, f / 2);
    assert sibling / 2 == f / 2 && Depth(sibling) == Depth(f);
    assert !Within(f, sibling) && !Within(sibling, f) by {
      if Within(f, sibling) { WithinDepth(f, sibling); }
      if Within(sibling, f) { WithinDepth(sibling, f); }
    }
    WithinRoot(sibling);
    FreeNodeBelowEntry(s, {f}, 1, sibling);
  }
}
