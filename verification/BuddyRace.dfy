/**
  Several callers of buddy_alloc and buddy_free (lib/buddy.c). The size test of buddy_alloc comes before the lock is
  taken, so other callers may run between the test and the search.
 */
module BuddyRace {
  import opened BuddyTree
  import opened Words

  // Where a caller is. Tested: it has passed the size test and waits for the lock. Crashed: it found no block after all.
  datatype Caller = Outside | Tested(order: nat) | Holding(node: nat) | Refused | Crashed

  datatype Pool = Pool(live: set<nat>, callers: seq<Caller>)

  // Take names the block that the search ends at.
  datatype Step = Test(t: nat, order: nat) | Take(t: nat, node: nat) | Crash(t: nat) | Return(t: nat)

  // What the root entry of the manager array decides: there is a free aligned block of the order.
  ghost predicate Fits(s: Shape, live: set<nat>, order: nat)
    requires Antichain(s, live)
  {
    exists off :: FreeBlock(s, live, off, order)
  }

  ghost predicate Enabled(s: Shape, p: Pool, step: Step)
    requires Antichain(s, p.live)
  {
    && step.t < |p.callers|
    && var c := p.callers[step.t];
       match step
       case Test(_, order) => c == Outside && s.leaf <= order
       case Take(_, node) => c.Tested? && FreeNode(s, p.live, node) && Order(s, node) == c.order
       case Crash(_) => c.Tested? && !Fits(s, p.live, c.order)
       case Return(_) => c.Holding?
  }

  ghost function Apply(s: Shape, p: Pool, step: Step): Pool
    requires Antichain(s, p.live) && Enabled(s, p, step)
  {
    match step
    case Test(t, order) => p.(callers := p.callers[t := if Fits(s, p.live, order) then Tested(order) else Refused])
    case Take(t, node) => Pool(p.live + {node}, p.callers[t := Holding(node)])
    case Crash(t) => p.(callers := p.callers[t := Crashed])
    case Return(t) => Pool(p.live - {p.callers[t].node}, p.callers[t := Outside])
  }

  // What a caller holds is live, and no other caller holds it.
  ghost predicate HeldAt(p: Pool, t: nat, u: nat)
    requires t < |p.callers| && u < |p.callers|
  {
    p.callers[t].Holding? ==>
      p.callers[t].node in p.live && (u != t && p.callers[u].Holding? ==> p.callers[u].node != p.callers[t].node)
  }

  ghost predicate TestedAt(s: Shape, p: Pool, t: nat)
    requires t < |p.callers|
  {
    p.callers[t].Tested? ==> s.leaf <= p.callers[t].order
  }

  ghost predicate Inv(s: Shape, p: Pool) {
    && 1 <= s.leaf <= s.top && Antichain(s, p.live)
    && (forall t: nat, u: nat :: t < |p.callers| && u < |p.callers| ==> HeldAt(p, t, u))
    && (forall t: nat :: t < |p.callers| ==> TestedAt(s, p, t))
  }

  // What ends in the panic: the search of buddy_alloc stays at the root, whose parent is number -1, and the offset that is
  // computed from it is negative, exactly if no block of the order is free.
  lemma SearchPanicsIff(m: seq<nat>, s: Shape, live: set<nat>, order: nat)
    requires 1 <= s.leaf <= order && Antichain(s, live) && Represents(m, s, live)
    ensures Descend(m, 1, order) == 1 <==> !Fits(s, live, order)
    ensures Descend(m, 1, order) / 2 * Pow2(order) - Pow2(s.top) < 0 <==> !Fits(s, live, order)
  {
    RootDecides(m, s, live, order);
    var f := Descend(m, 1, order) / 2;
    if m[0] >= order {
      FreeNodeIsFreeBlock(s, live, f);
      assert FreeBlock(s, live, Lo(s, f), order);
    } else {
      assert Descend(m, 1, order) == 1 && f * Pow2(order) == 0;
    }
  }

  lemma StepKeepsInv(s: Shape, p: Pool, step: Step)
    requires Inv(s, p) && Enabled(s, p, step)
    ensures Inv(s, Apply(s, p, step))
  {
    var p' := Apply(s, p, step);
    assert HeldAt(p, step.t, step.t);
    if step.Take? { TakeNode(s, p.live, step.node); }
    if step.Return? { ReturnNode(s, p.live, p.callers[step.t].node); }
    forall t: nat, u: nat | t < |p'.callers| && u < |p'.callers| ensures HeldAt(p', t, u) {
      assert HeldAt(p, t, u) && HeldAt(p, u, t) && HeldAt(p, t, step.t) && HeldAt(p, u, u);
    }
    forall t: nat | t < |p'.callers| ensures TestedAt(s, p', t) { assert TestedAt(s, p, t); }
  }

  ghost predicate Reaches(s: Shape, p: Pool, steps: seq<Step>, p': Pool)
    decreases steps
  {
    Antichain(s, p.live) &&
    if steps == [] then p' == p
    else Enabled(s, p, steps[0]) && Reaches(s, Apply(s, p, steps[0]), steps[1..], p')
  }

  // Whatever the callers do, no block is in two hands.
  lemma {:induction false} RunKeepsInv(s: Shape, p: Pool, steps: seq<Step>, p': Pool)
    requires Inv(s, p) && Reaches(s, p, steps, p')
    ensures Inv(s, p')
    decreases steps
  {
    if steps != [] {
      StepKeepsInv(s, p, steps[0]);
      RunKeepsInv(s, Apply(s, p, steps[0]), steps[1..], p');
    }
  }

  // In every run, blocks in different hands are apart.
  lemma HandsApart(s: Shape, p: Pool, steps: seq<Step>, p': Pool, t: nat, u: nat)
    requires Inv(s, p) && Reaches(s, p, steps, p') && t < |p'.callers| && u < |p'.callers| && t != u
    requires p'.callers[t].Holding? && p'.callers[u].Holding?
    ensures Node(s, p'.callers[t].node) && Node(s, p'.callers[u].node)
    ensures var a, b := p'.callers[t].node, p'.callers[u].node; Hi(s, a) <= Lo(s, b) || Hi(s, b) <= Lo(s, a)
  {
    RunKeepsInv(s, p, steps, p');
    assert HeldAt(p', t, u) && HeldAt(p', u, t);
    UnrelatedDisjoint(s, p'.callers[t].node, p'.callers[u].node);
  }

  // ----- The panic -----

  // A caller that has passed the test can go on to take a block, or to crash, and never to both.
  lemma TakesOrCrashes(s: Shape, p: Pool, t: nat)
    requires Inv(s, p) && t < |p.callers| && p.callers[t].Tested?
    ensures Enabled(s, p, Crash(t)) <==> !exists node :: Enabled(s, p, Take(t, node))
  {
    var order := p.callers[t].order;
    if Fits(s, p.live, order) {
      var off :| FreeBlock(s, p.live, off, order);
      var node := FreeBlockIsFreeNode(s, p.live, off, order);
      assert Enabled(s, p, Take(t, node));
    } else {
      forall node ensures !Enabled(s, p, Take(t, node)) {
        if FreeNode(s, p.live, node) { FreeNodeIsFreeBlock(s, p.live, node); }
      }
    }
  }

  // After node has been taken, a caller that wanted 2^order bytes crashes exactly if every block that it could have had
  // before overlaps the one taken.
  lemma CrashIff(s: Shape, live: set<nat>, node: nat, order: nat)
    requires Antichain(s, live) && FreeNode(s, live, node)
    ensures Antichain(s, live + {node})
    ensures !Fits(s, live + {node}, order) <==>
            forall off :: FreeBlock(s, live, off, order) ==> Lo(s, node) < off + Pow2(order) && off < Hi(s, node)
  {
    TakeNode(s, live, node);
    forall off
      ensures FreeBlock(s, live + {node}, off, order) <==>
              FreeBlock(s, live, off, order) && (off + Pow2(order) <= Lo(s, node) || Hi(s, node) <= off)
    {
    }
  }

  // Nobody crashes whose test and search are not separated by another caller's taking a block.
  lemma UndisturbedIsSafe(s: Shape, p: Pool, t: nat, order: nat)
    requires Inv(s, p) && Enabled(s, p, Test(t, order)) && Fits(s, p.live, order)
    ensures !Enabled(s, Apply(s, p, Test(t, order)), Crash(t))
  {
  }

  lemma RootIsFree(s: Shape)
    requires 1 <= s.leaf <= s.top
    ensures Antichain(s, {}) && FreeNode(s, {}, 1) && Order(s, 1) == s.top && FreeBlock(s, {}, 0, s.top)
  {
    FreeNodeIsFreeBlock(s, {}, 1);
    assert Lo(s, 1) == 0;
  }

  // With two callers and an empty pool of any shape, both asking for all of it: the second crashes.
  lemma SecondCrashes(s: Shape) returns (steps: seq<Step>, p': Pool)
    requires 1 <= s.leaf <= s.top
    ensures Inv(s, Pool({}, [Outside, Outside])) && Reaches(s, Pool({}, [Outside, Outside]), steps, p')
    ensures p'.callers == [Holding(1), Crashed]
  {
    RootIsFree(s);
    var p0, p1 := Pool({}, [Outside, Outside]), Pool({}, [Tested(s.top), Outside]);
    var p2, p3 := Pool({}, [Tested(s.top), Tested(s.top)]), Pool({1}, [Holding(1), Tested(s.top)]);
    p' := Pool({1}, [Holding(1), Crashed]);
    assert Apply(s, p0, Test(0, s.top)) == p1;
    assert Apply(s, p1, Test(1, s.top)) == p2;
    assert {} + {1} == {1};
    assert Apply(s, p2, Take(0, 1)) == p3;
    CrashIff(s, {}, 1, s.top);
    assert forall off :: FreeBlock(s, {}, off, s.top) ==> Lo(s, 1) < off + Pow2(s.top) && off < Hi(s, 1);
    assert Apply(s, p3, Crash(1)) == p';
    steps := [Test(0, s.top), Test(1, s.top), Take(0, 1), Crash(1)];
    assert steps[1..] == [Test(1, s.top), Take(0, 1), Crash(1)];
    assert steps[1..][1..] == [Take(0, 1), Crash(1)];
    assert steps[1..][1..][1..] == [Crash(1)] && [Crash(1)][1..] == [];
    assert Reaches(s, p3, [Crash(1)], p');
    assert Reaches(s, p2, [Take(0, 1), Crash(1)], p');
    assert Reaches(s, p1, [Test(1, s.top), Take(0, 1), Crash(1)], p');
  }
}
