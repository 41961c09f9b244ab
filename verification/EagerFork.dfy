/**
  The reference for lib/fork.c: fork copies every page that is not PTE_SHARE at once, as user/dumbfork.c does, and a
  write to a copy-on-write page copies it at once. A run of the copy-on-write machine is a run of this one unless a page
  that fork treats as private is not private, or what is mapped at address 0 differs from the zero page.
 */
module EagerFork {
  import opened CowMemory

  ghost function Above(a: set<nat>): (q: nat)
    ensures forall p :: p in a ==> p < q
  {
    if a == {} then 0
    else
      var x :| x in a;
      var q := Above(a - {x});
      assert forall p :: p in a ==> p == x || p in a - {x};
      if q > x then q else x + 1
  }

  // A page number above every page in use; the allocator's choice does not matter.
  ghost function SparePage(c: State): nat {
    Above(c.mem.Keys)
  }

  ghost predicate Copied(c: State, p: nat, va: nat) {
    va < USTACKTOP && Slot(p, va) in c.pt && !c.pt[Slot(p, va)].share
  }

  // The copy of the parent's page at va goes to page base + va.
  ghost function EagerMem(c: State, p: nat, base: nat): map<nat, Bytes>
    requires Backed(c)
  {
    var copies := set s | s in c.pt && s.env == p && Copied(c, p, s.va) :: base + s.va;
    map q: nat | q in c.mem.Keys + copies + {base + UXSTACK} ::
      if q < base && q in c.mem then c.mem[q]
      else if q >= base && Copied(c, p, q - base) then c.mem[c.pt[Slot(p, q - base)].page]
      else seq(PGSIZE, i => 0)
  }

  // What the child gets for the mapping e of address va.
  function CopyPte(e: Pte, va: nat, base: nat): Pte {
    if e.share then e else Pte(base + va, e.w || e.cow, false, false)
  }

  ghost function EagerPt(c: State, p: nat, child: nat, base: nat): map<Slot, Pte>
    requires CanFork(c, p, child)
  {
    map s: Slot | s in c.pt.Keys + ChildSlots(c, p, child) ::
      if s == Slot(child, UXSTACK) then Pte(base + UXSTACK, true, false, false)
      else if s.env == child then CopyPte(c.pt[Slot(p, s.va)], s.va, base)
      else c.pt[s]
  }

  ghost function CopyFork(c: State, p: nat, child: nat): (c': State)
    requires Backed(c) && CanFork(c, p, child)
    ensures Backed(c')
  {
    var base := SparePage(c);
    var c' := State(EagerPt(c, p, child, base), EagerMem(c, p, base), c.handler);
    EagerBacked(c, p, child, base, c');
    c'
  }

  // The pages of the copying fork: the old ones, the copies and the new exception stack.
  lemma EagerMemAt(c: State, p: nat, base: nat, q: nat)
    requires Backed(c) && forall k :: k in c.mem ==> k < base
    ensures q in c.mem ==> q in EagerMem(c, p, base) && EagerMem(c, p, base)[q] == c.mem[q]
    ensures q >= base && Copied(c, p, q - base) ==>
              q in EagerMem(c, p, base) && EagerMem(c, p, base)[q] == c.mem[c.pt[Slot(p, q - base)].page]
    ensures q == base + UXSTACK ==> q in EagerMem(c, p, base) && EagerMem(c, p, base)[q] == seq(PGSIZE, i => 0)
  {
    if q >= base && Copied(c, p, q - base) {
      var s := Slot(p, q - base);
      assert s in c.pt && s.env == p && q == base + s.va;
    }
  }

  // The slot that the mapping at s was duplicated from.
  function Origin(s: Slot, p: nat, child: nat): Slot {
    if s.env == child then Slot(p, s.va) else s
  }

  // What the copying fork has at s, where base is the first new page.
  ghost predicate CopiedTo(c: State, pt: map<Slot, Pte>, p: nat, child: nat, base: nat, s: Slot) {
    var t := Origin(s, p, child);
    if s == Slot(child, UXSTACK) then s in pt && pt[s] == Pte(base + UXSTACK, true, false, false)
    else
      && (s in pt <==> t in c.pt && (s.env == child ==> s.va < USTACKTOP))
      && (s in pt && t in c.pt ==> pt[s] == if s.env == child then CopyPte(c.pt[t], s.va, base) else c.pt[t])
  }

  lemma EagerPtAt(c: State, p: nat, child: nat, base: nat, s: Slot)
    requires CanFork(c, p, child)
    ensures CopiedTo(c, EagerPt(c, p, child, base), p, child, base, s)
  {
  }

  // The bytes at s after the copying fork.
  lemma EagerBytes(c: State, p: nat, child: nat, base: nat, s: Slot, c': State)
    requires Backed(c) && CanFork(c, p, child) && forall k :: k in c.mem ==> k < base
    requires CopiedTo(c, c'.pt, p, child, base, s) && c'.mem == EagerMem(c, p, base) && s in c'.pt
    ensures PageThere(c', c'.pt[s].page)
    ensures c'.mem[c'.pt[s].page] ==
            if s == Slot(child, UXSTACK) then seq(PGSIZE, i => 0)
            else if Origin(s, p, child) in c.pt then c.mem[c.pt[Origin(s, p, child)].page] else []
  {
    EagerMemAt(c, p, base, c'.pt[s].page);
  }

  lemma EagerBacked(c: State, p: nat, child: nat, base: nat, c': State)
    requires Backed(c) && CanFork(c, p, child) && base == SparePage(c)
    requires c' == State(EagerPt(c, p, child, base), EagerMem(c, p, base), c.handler)
    ensures Backed(c')
  {
    EagerMemAt(c, p, base, ZERO_PAGE);
    forall s | s in c'.pt ensures PageThere(c', c'.pt[s].page) {
      EagerPtAt(c, p, child, base, s);
      EagerBytes(c, p, child, base, s, c');
    }
  }

  // A write that copies a copy-on-write page on the spot.
  ghost function EagerWrite(c: State, s: Slot, off: nat, b: int): (c': State)
    requires Backed(c) && s in c.pt && off < PGSIZE
    ensures Backed(c')
  {
    if c.pt[s].w then StoreAt(c, s, off, b)
    else
      var q := SparePage(c);
      State(c.pt[s := Pte(q, true, false, false)], c.mem[q := c.mem[c.pt[s].page][off := b]], c.handler)
  }

  // What the eager machine does for an event.
  ghost predicate Enabled(d: State, ev: Event)
    requires Backed(d)
  {
    match ev
    case DidRead(s, off, v) => s in d.pt && off < PGSIZE && d.mem[d.pt[s].page][off] == v
    case DidWrite(s, off, b) => s in d.pt && off < PGSIZE && (d.pt[s].w || d.pt[s].cow)
    case DidFork(p, child) => CanFork(d, p, child)
  }

  ghost function Perform(d: State, ev: Event): (d': State)
    requires Backed(d) && Enabled(d, ev)
    ensures Backed(d')
  {
    match ev
    case DidRead(_, _, _) => d
    case DidWrite(s, off, b) => EagerWrite(d, s, off, b)
    case DidFork(p, child) => CopyFork(d, p, child)
  }

  // The events could have happened, in this order and with these values, on the eager machine started in d.
  ghost predicate Explained(d: State, events: seq<Event>)
    requires Backed(d)
    decreases events
  {
    events == [] || (Enabled(d, events[0]) && Explained(Perform(d, events[0]), events[1..]))
  }

  // Nobody is inside a page fault.
  ghost predicate Quiet(c: State) {
    (forall e :: HandlerOf(c, e).Idle?) && forall s :: s in c.pt ==> s.va != PFTEMP
  }

  // A state of the eager machine.
  ghost predicate WellMapped(x: set<nat>, d: State) {
    && Backed(d) && Quiet(d)
    && (forall s :: SlotFits(x, d, s))
    && (forall s, t :: PairFits(x, d, s, t))
    && (forall q :: q in x ==> q in d.mem)
  }

  // ----- Both forks do the same to the memory that programs see -----

  ghost function ViewFork(v: View, p: nat, child: nat): View {
    var inherited := set s: Slot | s in v.cells && s.env == p && s.va < USTACKTOP :: Slot(child, s.va);
    v.(cells := map s: Slot | s in v.cells.Keys + inherited + {Slot(child, UXSTACK)} ::
                  if s == Slot(child, UXSTACK) then Private(seq(PGSIZE, i => 0), true)
                  else if s.env == child && Slot(p, s.va) in v.cells then v.cells[Slot(p, s.va)]
                  else if s in v.cells then v.cells[s]
                  else Private([], false))
  }

  // At s the state after a fork shows what the parent's slot showed.
  ghost predicate ForkedAt(x: set<nat>, c: State, c': State, p: nat, child: nat, s: Slot)
    requires Backed(c) && Backed(c')
  {
    var t := Origin(s, p, child);
    if s == Slot(child, UXSTACK) then s in c'.pt && CellOf(x, c', s) == Private(seq(PGSIZE, i => 0), true)
    else
      && (s in c'.pt <==> t in c.pt && (s.env == child ==> s.va < USTACKTOP))
      && (s in c'.pt && t in c.pt ==> CellOf(x, c', s) == CellOf(x, c, t))
  }

  lemma ForkedCell(x: set<nat>, c: State, p: nat, child: nat, s: Slot)
    requires Backed(c) && CanFork(c, p, child) && Slot(p, PFTEMP) !in c.pt
    ensures var v, t := ViewFork(ViewOf(x, c), p, child), Origin(s, p, child);
            if s == Slot(child, UXSTACK) then s in v.cells && v.cells[s] == Private(seq(PGSIZE, i => 0), true)
            else
              && (s in v.cells <==> s.va != PFTEMP && t in c.pt && (s.env == child ==> s.va < USTACKTOP))
              && (s in v.cells && t in c.pt ==> v.cells[s] == CellOf(x, c, t))
  {
    var v := ViewOf(x, c);
    if s.env == child && Slot(p, s.va) in c.pt && s.va < USTACKTOP {
      assert Slot(p, s.va) in v.cells;
    }
  }

  lemma ForkedCells(x: set<nat>, c: State, c': State, p: nat, child: nat)
    requires Backed(c) && Backed(c') && CanFork(c, p, child) && Slot(p, PFTEMP) !in c.pt
    requires forall s: Slot :: ForkedAt(x, c, c', p, child, s)
    ensures ViewOf(x, c').cells == ViewFork(ViewOf(x, c), p, child).cells
  {
    var v, v' := ViewFork(ViewOf(x, c), p, child).cells, ViewOf(x, c').cells;
    forall s: Slot ensures s in v <==> s in v' ensures s in v && s in v' ==> v[s] == v'[s] {
      ForkedCell(x, c, p, child, s);
      assert ForkedAt(x, c, c', p, child, s);
    }
  }

  lemma SameCommon(x: set<nat>, c: State, c': State)
    requires Backed(c) && Backed(c') && forall q :: q in x ==> SamePage(c, c', q)
    ensures ViewOf(x, c').common == ViewOf(x, c).common
  {
    var v, v' := ViewOf(x, c).common, ViewOf(x, c').common;
    forall q ensures q in v <==> q in v' ensures q in v && q in v' ==> v[q] == v'[q] {
      assert q in x ==> SamePage(c, c', q);
    }
  }

  lemma ForkedView(x: set<nat>, c: State, c': State, p: nat, child: nat)
    requires Backed(c) && Backed(c') && CanFork(c, p, child) && Slot(p, PFTEMP) !in c.pt
    requires forall s: Slot :: ForkedAt(x, c, c', p, child, s)
    requires forall q :: q in x ==> SamePage(c, c', q)
    ensures ViewOf(x, c') == ViewFork(ViewOf(x, c), p, child)
  {
    ForkedCells(x, c, c', p, child);
    SameCommon(x, c, c');
  }

  // ----- The copy-on-write fork -----

  // What the copy-on-write fork has at s.
  ghost predicate DuppedTo(c: State, pt: map<Slot, Pte>, p: nat, child: nat, spare: nat, s: Slot) {
    var t := Origin(s, p, child);
    if s == Slot(child, UXSTACK) then s in pt && pt[s] == Pte(spare, true, false, false)
    else
      && (s in pt <==> t in c.pt && (s.env == child ==> s.va < USTACKTOP))
      && (s in pt && t in c.pt ==>
            pt[s] == if s.env == child then DupPte(c.pt[t], s.va)
                     else if s.env == p && s.va < USTACKTOP then OwnPte(c.pt[t], s.va) else c.pt[t])
  }

  lemma CowForkAt(c: State, p: nat, child: nat, spare: nat, s: Slot)
    requires Backed(c) && CanFork(c, p, child) && PageUnused(c, spare)
    ensures DuppedTo(c, CowFork(c, p, child, spare).pt, p, child, spare, s)
  {
  }

  ghost predicate AfterFork(c: State, p: nat, child: nat, spare: nat, c': State) {
    && CanFork(c, p, child) && Forkable(c, p) && Slot(p, PFTEMP) !in c.pt && PageUnused(c, spare) && Backed(c')
    && c'.handler == c.handler && c'.mem == c.mem[spare := seq(PGSIZE, i => 0)]
    && forall s :: DuppedTo(c, c'.pt, p, child, spare, s)
  }

  lemma CowForkIsAfter(c: State, p: nat, child: nat, spare: nat)
    requires Backed(c) && CanFork(c, p, child) && Forkable(c, p) && Slot(p, PFTEMP) !in c.pt && PageUnused(c, spare)
    ensures AfterFork(c, p, child, spare, CowFork(c, p, child, spare))
  {
    forall s ensures DuppedTo(c, CowFork(c, p, child, spare).pt, p, child, spare, s) { CowForkAt(c, p, child, spare, s); }
  }

  // Every page that is not common lies outside x, and so does the new one.
  lemma SpareNotCommon(x: set<nat>, c: State, spare: nat)
    requires Fits(x, c) && PageUnused(c, spare)
    ensures spare !in x
  {
    assert spare in x ==> KeptAt(c, spare);
  }

  lemma ZeroNotCommon(x: set<nat>, c: State)
    requires Fits(x, c)
    ensures ZERO_PAGE !in x
  {
    assert ZERO_PAGE in x ==> KeptAt(c, ZERO_PAGE);
  }

  // The page at address 0 of a forking environment is not common, and no mapping of it is writable.
  lemma ZeroSlot(x: set<nat>, c: State, p: nat)
    requires Fits(x, c) && Forkable(c, p) && Slot(p, 0) in c.pt
    ensures c.pt[Slot(p, 0)].page !in x && !c.pt[Slot(p, 0)].w && !c.pt[Slot(p, 0)].cow
    ensures c.mem[c.pt[Slot(p, 0)].page] == c.mem[ZERO_PAGE] && NoWriter(c, c.pt[Slot(p, 0)].page)
  {
    assert ZeroSafeAt(c, p);
    var q := c.pt[Slot(p, 0)].page;
    assert q in x ==> KeptAt(c, q);
  }

  // A mapping that is writable after the fork is one that was so before, or the child's share of a common page.
  lemma StillWritable(x: set<nat>, c: State, p: nat, child: nat, spare: nat, c': State, s: Slot)
    requires Fits(x, c) && AfterFork(c, p, child, spare, c') && s in c'.pt && s != Slot(child, UXSTACK)
    ensures var t := Origin(s, p, child);
            && t in c.pt
            && (c'.pt[s].w ==> c'.pt[s] == c.pt[t] && (t.env == p && t.va < USTACKTOP ==> c.pt[t].page in x))
  {
    var t := Origin(s, p, child);
    assert DuppedTo(c, c'.pt, p, child, spare, s);
    assert SlotFits(x, c, t);
    if t == Slot(p, 0) { ZeroSlot(x, c, p); }
  }

  // The page of a slot after the fork: the old one, or, at address 0 of the child, the zero page with the same bytes.
  lemma PageAfter(x: set<nat>, c: State, p: nat, child: nat, spare: nat, c': State, s: Slot)
    requires Fits(x, c) && AfterFork(c, p, child, spare, c') && s in c'.pt && s != Slot(child, UXSTACK)
    ensures var t := Origin(s, p, child);
            && t in c.pt
            && c'.pt[s].page == (if s == Slot(child, 0) then ZERO_PAGE else c.pt[t].page)
            && c'.mem[c'.pt[s].page] == c.mem[c.pt[t].page] && c'.pt[s].page != spare
            && (c'.pt[s].w || c'.pt[s].cow <==> c.pt[t].w || c.pt[t].cow) && c'.pt[s].share == c.pt[t].share
            && (c'.pt[s].page in x <==> c.pt[t].page in x)
  {
    var t := Origin(s, p, child);
    assert DuppedTo(c, c'.pt, p, child, spare, s);
    ZeroNotCommon(x, c);
    if t == Slot(p, 0) { ZeroSlot(x, c, p); }
  }

  lemma ForkableAfter(x: set<nat>, c: State, p: nat, child: nat, spare: nat, c': State, e: nat)
    requires Fits(x, c) && AfterFork(c, p, child, spare, c')
    ensures Forkable(c', e) == if e == child then true else Forkable(c, e)
  {
    assert DuppedTo(c, c'.pt, p, child, spare, Slot(e, 0));
  }

  lemma ForkSlotFits(x: set<nat>, c: State, p: nat, child: nat, spare: nat, c': State, s: Slot)
    requires Fits(x, c) && AfterFork(c, p, child, spare, c')
    ensures SlotFits(x, c', s)
  {
    assert DuppedTo(c, c'.pt, p, child, spare, s);
    if s == Slot(child, UXSTACK) {
      SpareNotCommon(x, c, spare);
    } else if s in c'.pt && s.va != PFTEMP {
      var t := Origin(s, p, child);
      assert SlotFits(x, c, t);
      ForkableAfter(x, c, p, child, spare, c', s.env);
      PageAfter(x, c, p, child, spare, c', s);
    }
  }

  lemma ForkPairFits(x: set<nat>, c: State, p: nat, child: nat, spare: nat, c': State, s: Slot, t: Slot)
    requires Fits(x, c) && AfterFork(c, p, child, spare, c')
    requires s in c'.pt && t in c'.pt && s != t && s.va != PFTEMP && t.va != PFTEMP
    requires c'.pt[s].page == c'.pt[t].page && c'.pt[s].page !in x
    ensures !c'.pt[s].w
  {
    assert DuppedTo(c, c'.pt, p, child, spare, s) && DuppedTo(c, c'.pt, p, child, spare, t);
    if s != Slot(child, UXSTACK) { PageAfter(x, c, p, child, spare, c', s); }
    if t != Slot(child, UXSTACK) { PageAfter(x, c, p, child, spare, c', t); }
    if s != Slot(child, UXSTACK) && t != Slot(child, UXSTACK) {
      var s0, t0 := Origin(s, p, child), Origin(t, p, child);
      StillWritable(x, c, p, child, spare, c', s);
      assert PairFits(x, c, s0, t0);
      assert t0 != s0 || s0.env == p;
    }
  }

  lemma ForkNoWriter(x: set<nat>, c: State, p: nat, child: nat, spare: nat, c': State, q: nat)
    requires Fits(x, c) && AfterFork(c, p, child, spare, c') && NoWriter(c, q) && q != spare
    ensures NoWriter(c', q)
  {
    forall t | t in c'.pt && c'.pt[t].page == q ensures !c'.pt[t].w {
      assert DuppedTo(c, c'.pt, p, child, spare, t);
      if t != Slot(child, UXSTACK) { StillWritable(x, c, p, child, spare, c', t); }
    }
  }

  lemma ForkZeroSafe(x: set<nat>, c: State, p: nat, child: nat, spare: nat, c': State, e: nat)
    requires Fits(x, c) && AfterFork(c, p, child, spare, c')
    ensures ZeroSafeAt(c', e)
  {
    var z := Slot(e, 0);
    assert DuppedTo(c, c'.pt, p, child, spare, z);
    ForkableAfter(x, c, p, child, spare, c', e);
    if z in c'.pt && Forkable(c', e) {
      ZeroSlot(x, c, Origin(z, p, child).env);
      PageAfter(x, c, p, child, spare, c', z);
      ForkNoWriter(x, c, p, child, spare, c', c'.pt[z].page);
    }
  }

  lemma ForkKept(x: set<nat>, c: State, p: nat, child: nat, spare: nat, c': State, q: nat)
    requires Fits(x, c) && AfterFork(c, p, child, spare, c') && q in x
    ensures KeptAt(c', q) && SamePage(c, c', q)
  {
    assert KeptAt(c, q);
    var s :| s in c.pt && s.va != PFTEMP && c.pt[s].page == q && c.pt[s].w;
    assert SlotFits(x, c, s) && DuppedTo(c, c'.pt, p, child, spare, s);
    SpareNotCommon(x, c, spare);
  }

  lemma ForkFits(x: set<nat>, c: State, p: nat, child: nat, spare: nat, c': State)
    requires Fits(x, c) && AfterFork(c, p, child, spare, c')
    ensures Fits(x, c')
  {
    ForkNoWriter(x, c, p, child, spare, c', ZERO_PAGE);
    forall s ensures SlotFits(x, c', s) { ForkSlotFits(x, c, p, child, spare, c', s); }
    forall s, t ensures PairFits(x, c', s, t) {
      if s in c'.pt && t in c'.pt && s != t && s.va != PFTEMP && t.va != PFTEMP
         && c'.pt[s].page == c'.pt[t].page && c'.pt[s].page !in x {
        ForkPairFits(x, c, p, child, spare, c', s, t);
        ForkPairFits(x, c, p, child, spare, c', t, s);
      }
    }
    forall q | q in x ensures KeptAt(c', q) { ForkKept(x, c, p, child, spare, c', q); }
    forall e ensures ZeroSafeAt(c', e) { ForkZeroSafe(x, c, p, child, spare, c', e); }
  }

  // The pages that the handler of e works on stay its own.
  lemma ForkOnlyMapped(x: set<nat>, c: State, p: nat, child: nat, spare: nat, c': State, e: nat, q: nat, slots: set<Slot>)
    requires Fits(x, c) && AfterFork(c, p, child, spare, c') && e != p && e != child
    requires OnlyMappedAt(c, q, slots) && (forall s :: s in slots ==> s.env == e) && Slot(e, PFTEMP) in c.pt
    requires c.pt[Slot(e, PFTEMP)].page == q
    ensures OnlyMappedAt(c', q, slots)
  {
    forall s | s in c'.pt && c'.pt[s].page == q ensures s in slots {
      assert DuppedTo(c, c'.pt, p, child, spare, s);
      if s != Slot(child, UXSTACK) { PageAfter(x, c, p, child, spare, c', s); }
    }
  }

  lemma ForkHandler(x: set<nat>, c: State, p: nat, child: nat, spare: nat, c': State, e: nat)
    requires Inv(x, c) && AfterFork(c, p, child, spare, c')
    ensures HandlerOk(c', e)
  {
    var h, temp := HandlerOf(c, e), Slot(e, PFTEMP);
    assert HandlerOk(c, e) && HandlerOk(c, p);
    assert DuppedTo(c, c'.pt, p, child, spare, temp);
    if !h.Idle? {
      var s := Slot(e, h.va);
      assert DuppedTo(c, c'.pt, p, child, spare, s);
      if h.Allocated? || h.Copied? { ForkOnlyMapped(x, c, p, child, spare, c', e, c.pt[temp].page, {temp}); }
      if h.Mapped? { ForkOnlyMapped(x, c, p, child, spare, c', e, c.pt[temp].page, {temp, s}); }
    }
  }

  lemma CowForkView(x: set<nat>, c: State, p: nat, child: nat, spare: nat)
    requires Inv(x, c) && CanFork(c, p, child) && Forkable(c, p) && PageUnused(c, spare)
    ensures Inv(x, CowFork(c, p, child, spare))
    ensures ViewOf(x, CowFork(c, p, child, spare)) == ViewFork(ViewOf(x, c), p, child)
  {
    var c' := CowFork(c, p, child, spare);
    assert HandlerOk(c, p);
    CowForkIsAfter(c, p, child, spare);
    ForkFits(x, c, p, child, spare, c');
    forall e ensures HandlerOk(c', e) { ForkHandler(x, c, p, child, spare, c', e); }
    forall s: Slot ensures ForkedAt(x, c, c', p, child, s) { ForkShows(x, c, p, child, spare, c', s); }
    forall q | q in x ensures SamePage(c, c', q) { ForkKept(x, c, p, child, spare, c', q); }
    ForkedView(x, c, c', p, child);
  }

  lemma ForkShows(x: set<nat>, c: State, p: nat, child: nat, spare: nat, c': State, s: Slot)
    requires Fits(x, c) && AfterFork(c, p, child, spare, c')
    ensures ForkedAt(x, c, c', p, child, s)
  {
    assert DuppedTo(c, c'.pt, p, child, spare, s);
    SpareNotCommon(x, c, spare);
    if s in c'.pt && s != Slot(child, UXSTACK) { PageAfter(x, c, p, child, spare, c', s); }
  }

  // ----- The eager machine -----

  lemma EagerForkAt(d: State, p: nat, child: nat, s: Slot)
    requires Backed(d) && CanFork(d, p, child)
    ensures var d' := CopyFork(d, p, child);
            && CopiedTo(d, d'.pt, p, child, SparePage(d), s)
            && (s in d'.pt ==>
                  d'.mem[d'.pt[s].page] == if s == Slot(child, UXSTACK) then seq(PGSIZE, i => 0)
                                           else if Origin(s, p, child) in d.pt then d.mem[d.pt[Origin(s, p, child)].page]
                                           else [])
  {
    var d' := CopyFork(d, p, child);
    EagerPtAt(d, p, child, SparePage(d), s);
    if s in d'.pt { EagerBytes(d, p, child, SparePage(d), s, d'); }
  }

  ghost predicate AfterCopy(x: set<nat>, d: State, p: nat, child: nat, base: nat, d': State) {
    && WellMapped(x, d) && CanFork(d, p, child) && Forkable(d, p) && Backed(d') && d'.handler == d.handler
    && (forall q :: q in d.mem ==> q < base && q in d'.mem && d'.mem[q] == d.mem[q])
    && forall s :: CopiedTo(d, d'.pt, p, child, base, s)
  }

  lemma CopyForkIsAfter(x: set<nat>, d: State, p: nat, child: nat)
    requires WellMapped(x, d) && CanFork(d, p, child) && Forkable(d, p)
    ensures AfterCopy(x, d, p, child, SparePage(d), CopyFork(d, p, child))
  {
    var base := SparePage(d);
    forall s ensures CopiedTo(d, CopyFork(d, p, child).pt, p, child, base, s) { EagerPtAt(d, p, child, base, s); }
    forall q | q in d.mem ensures q < base && q in CopyFork(d, p, child).mem && CopyFork(d, p, child).mem[q] == d.mem[q] {
      EagerMemAt(d, p, base, q);
    }
  }

  lemma CopySlotFits(x: set<nat>, d: State, p: nat, child: nat, base: nat, d': State, s: Slot)
    requires AfterCopy(x, d, p, child, base, d')
    ensures SlotFits(x, d', s) && (s in d'.pt ==> s.va != PFTEMP)
  {
    var t := Origin(s, p, child);
    assert CopiedTo(d, d'.pt, p, child, base, s) && SlotFits(x, d, t);
    if s.env != child { assert CopiedTo(d, d'.pt, p, child, base, Slot(s.env, 0)); }
  }

  lemma CopyPairFits(x: set<nat>, d: State, p: nat, child: nat, base: nat, d': State, s: Slot, t: Slot)
    requires AfterCopy(x, d, p, child, base, d')
    ensures PairFits(x, d', s, t)
  {
    var s0, t0 := Origin(s, p, child), Origin(t, p, child);
    assert CopiedTo(d, d'.pt, p, child, base, s) && CopiedTo(d, d'.pt, p, child, base, t);
    assert PairFits(x, d, s0, t0) && SlotFits(x, d, s0) && SlotFits(x, d, t0);
  }

  lemma EagerForkWellMapped(x: set<nat>, d: State, p: nat, child: nat)
    requires WellMapped(x, d) && CanFork(d, p, child) && Forkable(d, p)
    ensures WellMapped(x, CopyFork(d, p, child))
  {
    var d', base := CopyFork(d, p, child), SparePage(d);
    CopyForkIsAfter(x, d, p, child);
    forall s ensures SlotFits(x, d', s) && (s in d'.pt ==> s.va != PFTEMP) { CopySlotFits(x, d, p, child, base, d', s); }
    forall s, t ensures PairFits(x, d', s, t) { CopyPairFits(x, d, p, child, base, d', s, t); }
    forall e ensures HandlerOf(d', e).Idle? { assert HandlerOf(d', e) == HandlerOf(d, e); }
  }

  lemma CopyShows(x: set<nat>, d: State, p: nat, child: nat, s: Slot)
    requires WellMapped(x, d) && CanFork(d, p, child) && Forkable(d, p)
    ensures ForkedAt(x, d, CopyFork(d, p, child), p, child, s)
  {
    var base := SparePage(d);
    EagerForkAt(d, p, child, s);
    assert SlotFits(x, d, Origin(s, p, child));
    assert forall q :: q in x ==> q < base;
  }

  lemma EagerForkView(x: set<nat>, d: State, p: nat, child: nat)
    requires WellMapped(x, d) && CanFork(d, p, child) && Forkable(d, p)
    ensures ViewOf(x, CopyFork(d, p, child)) == ViewFork(ViewOf(x, d), p, child)
  {
    var d' := CopyFork(d, p, child);
    CopyForkIsAfter(x, d, p, child);
    forall s: Slot ensures ForkedAt(x, d, d', p, child, s) { CopyShows(x, d, p, child, s); }
    forall q | q in x ensures SamePage(d, d', q) {}
    ForkedView(x, d, d', p, child);
  }

  lemma EagerStoreView(x: set<nat>, d: State, s: Slot, off: nat, b: int)
    requires WellMapped(x, d) && s in d.pt && off < PGSIZE && d.pt[s].w
    ensures WellMapped(x, StoreAt(d, s, off, b))
    ensures Covers(ViewOf(x, d), s, off)
    ensures ViewOf(x, StoreAt(d, s, off, b)) == ViewWrite(ViewOf(x, d), s, off, b)
  {
    var d' := StoreAt(d, s, off, b);
    forall e ensures HandlerOf(d', e).Idle? { assert HandlerOf(d', e) == HandlerOf(d, e); }
    forall t ensures SlotFits(x, d', t) { assert SlotFits(x, d, t); }
    forall t, u ensures PairFits(x, d', t, u) { assert PairFits(x, d, t, u); }
    ViewCovers(x, d, s, off);
    var v, v' := ViewOf(x, d'), ViewWrite(ViewOf(x, d), s, off, b);
    assert v.cells.Keys == v'.cells.Keys;
    forall t | t in v.cells ensures v.cells[t] == v'.cells[t] { assert PairFits(x, d, s, t); }
    assert v.cells == v'.cells;
    assert v.common == v'.common;
  }

  // A write to a copy-on-write page.
  lemma EagerCopyFits(x: set<nat>, d: State, s: Slot, bytes: Bytes, q: nat, d': State)
    requires WellMapped(x, d) && s in d.pt && d.pt[s].cow && q !in d.mem && |bytes| == PGSIZE
    requires d' == State(d.pt[s := Pte(q, true, false, false)], d.mem[q := bytes], d.handler)
    ensures WellMapped(x, d')
  {
    forall e ensures HandlerOf(d', e).Idle? { assert HandlerOf(d', e) == HandlerOf(d, e); }
    assert SlotFits(x, d, s);
    forall t ensures SlotFits(x, d', t) { assert SlotFits(x, d, t); }
    forall t, u ensures PairFits(x, d', t, u) { assert PairFits(x, d, t, u); }
  }

  lemma EagerCopyCells(x: set<nat>, d: State, s: Slot, bytes: Bytes, q: nat, d': State)
    requires WellMapped(x, d) && s in d.pt && d.pt[s].cow && q !in d.mem && Backed(d')
    requires d' == State(d.pt[s := Pte(q, true, false, false)], d.mem[q := bytes], d.handler)
    ensures ViewOf(x, d').cells == ViewOf(x, d).cells[s := Private(bytes, true)]
  {
    var v, v' := ViewOf(x, d').cells, ViewOf(x, d).cells[s := Private(bytes, true)];
    assert q !in x;
    forall t ensures t in v <==> t in v' ensures t in v && t in v' ==> v[t] == v'[t] {}
  }

  lemma EagerCopyView(x: set<nat>, d: State, s: Slot, off: nat, b: int, q: nat, d': State)
    requires WellMapped(x, d) && s in d.pt && off < PGSIZE && d.pt[s].cow && q !in d.mem && Backed(d')
    requires d' == State(d.pt[s := Pte(q, true, false, false)], d.mem[q := d.mem[d.pt[s].page][off := b]], d.handler)
    ensures Covers(ViewOf(x, d), s, off)
    ensures ViewOf(x, d') == ViewWrite(ViewOf(x, d), s, off, b)
  {
    ViewCovers(x, d, s, off);
    assert SlotFits(x, d, s);
    EagerCopyCells(x, d, s, d.mem[d.pt[s].page][off := b], q, d');
    forall p | p in x ensures SamePage(d, d', p) {}
    SameCommon(x, d, d');
  }

  lemma EagerWriteView(x: set<nat>, d: State, s: Slot, off: nat, b: int)
    requires WellMapped(x, d) && s in d.pt && off < PGSIZE && (d.pt[s].w || d.pt[s].cow)
    ensures WellMapped(x, EagerWrite(d, s, off, b))
    ensures Covers(ViewOf(x, d), s, off)
    ensures ViewOf(x, EagerWrite(d, s, off, b)) == ViewWrite(ViewOf(x, d), s, off, b)
  {
    if d.pt[s].w {
      EagerStoreView(x, d, s, off, b);
    } else {
      var q, d' := SparePage(d), EagerWrite(d, s, off, b);
      EagerCopyFits(x, d, s, d.mem[d.pt[s].page][off := b], q, d');
      EagerCopyView(x, d, s, off, b, q, d');
    }
  }

  // ----- Refinement -----

  lemma ReadExplained(x: set<nat>, d: State, s: Slot, off: nat, v: int)
    requires Backed(d) && Covers(ViewOf(x, d), s, off) && v == ViewRead(ViewOf(x, d), s, off)
    ensures s in d.pt && d.mem[d.pt[s].page][off] == v
  {
    ViewCovers(x, d, s, off);
  }

  lemma SameViewSameForks(x: set<nat>, c: State, d: State, p: nat, child: nat)
    requires Inv(x, c) && WellMapped(x, d) && ViewOf(x, c) == ViewOf(x, d) && CanFork(c, p, child) && Forkable(c, p)
    ensures CanFork(d, p, child) && Forkable(d, p)
  {
    var z := Slot(p, 0);
    forall s | s in d.pt ensures s.env != child { assert s in ViewOf(x, d).cells; }
    if z in d.pt {
      assert z in ViewOf(x, d).cells && z in ViewOf(x, c).cells;
      assert CellOf(x, c, z) == CellOf(x, d, z);
      assert SlotFits(x, d, z) && SlotFits(x, c, z);
    }
  }

  ghost predicate Shows(v: View, ev: Event, v': View) {
    match ev
    case DidRead(s, off, b) => Covers(v, s, off) && b == ViewRead(v, s, off) && v' == v
    case DidWrite(s, off, b) => Covers(v, s, off) && v.cells[s].writable && v' == ViewWrite(v, s, off, b)
    case DidFork(p, child) => v' == ViewFork(v, p, child)
  }

  lemma StepOk(x: set<nat>, c: State, a: Action)
    requires Inv(x, c)
    ensures var o := Step(c, a);
            && Inv(x, o.state) && |o.events| <= 1
            && (o.events == [] ==> ViewOf(x, o.state) == ViewOf(x, c))
            && (o.events != [] ==> Shows(ViewOf(x, c), o.events[0], ViewOf(x, o.state)))
            && (o.events != [] && o.events[0].DidFork? ==>
                  CanFork(c, o.events[0].parent, o.events[0].child) && Forkable(c, o.events[0].parent))
  {
    match a
    case Read(e, va, off) => ReadOk(x, c, Slot(e, va), off);
    case Write(e, va, off, b) => WriteOk(x, c, Slot(e, va), off, b);
    case Handle(e, spare) => HandleOk(x, c, e, spare);
    case Fork(p, child, spare) =>
      if CanFork(c, p, child) && Forkable(c, p) && PageUnused(c, spare) { CowForkView(x, c, p, child, spare); }
  }

  lemma HandleOk(x: set<nat>, c: State, e: nat, spare: nat)
    requires Inv(x, c)
    ensures var o := DoHandle(c, e, spare);
            && Inv(x, o.state) && |o.events| <= 1
            && (o.events == [] ==> ViewOf(x, o.state) == ViewOf(x, c))
            && (o.events != [] ==> o.events[0].DidWrite? && Shows(ViewOf(x, c), o.events[0], ViewOf(x, o.state)))
  {
    match HandlerOf(c, e)
    case Idle =>
    case Entered(_, _, _) => AllocateOk(x, c, e, spare);
    case Allocated(_, _, _) => CopyOk(x, c, e, spare);
    case Copied(_, _, _) => MapOk(x, c, e, spare);
    case Mapped(_, _, _) => UnmapOk(x, c, e, spare);
    case Returning(_, _, _) => RestartOk(x, c, e, spare);
  }

  // The states look alike, one of the copy-on-write machine and one of the eager one.
  ghost predicate Alike(x: set<nat>, c: State, d: State) {
    Inv(x, c) && WellMapped(x, d) && ViewOf(x, c) == ViewOf(x, d)
  }

  lemma FollowRead(x: set<nat>, d: State, ev: Event, v': View)
    requires WellMapped(x, d) && ev.DidRead? && Shows(ViewOf(x, d), ev, v')
    ensures Enabled(d, ev) && ViewOf(x, Perform(d, ev)) == v'
  {
    ReadExplained(x, d, ev.slot, ev.off, ev.v);
  }

  lemma FollowWrite(x: set<nat>, d: State, ev: Event, v': View)
    requires WellMapped(x, d) && ev.DidWrite? && Shows(ViewOf(x, d), ev, v')
    ensures Enabled(d, ev) && WellMapped(x, Perform(d, ev)) && ViewOf(x, Perform(d, ev)) == v'
  {
    assert ev.slot in d.pt && CellOf(x, d, ev.slot).writable;
    EagerWriteView(x, d, ev.slot, ev.off, ev.b);
  }

  lemma FollowFork(x: set<nat>, d: State, ev: Event, v': View)
    requires WellMapped(x, d) && ev.DidFork? && Shows(ViewOf(x, d), ev, v')
    requires CanFork(d, ev.parent, ev.child) && Forkable(d, ev.parent)
    ensures Enabled(d, ev) && WellMapped(x, Perform(d, ev)) && ViewOf(x, Perform(d, ev)) == v'
  {
    EagerForkWellMapped(x, d, ev.parent, ev.child);
    EagerForkView(x, d, ev.parent, ev.child);
  }

  lemma Follow(x: set<nat>, c: State, d: State, a: Action)
    requires Alike(x, c, d) && Step(c, a).events != []
    ensures Enabled(d, Step(c, a).events[0]) && Alike(x, Step(c, a).state, Perform(d, Step(c, a).events[0]))
  {
    StepOk(x, c, a);
    var ev, v' := Step(c, a).events[0], ViewOf(x, Step(c, a).state);
    match ev
    case DidRead(_, _, _) => FollowRead(x, d, ev, v');
    case DidWrite(_, _, _) => FollowWrite(x, d, ev, v');
    case DidFork(p, child) =>
      SameViewSameForks(x, c, d, p, child);
      FollowFork(x, d, ev, v');
  }

  lemma OneMoreEvent(d: State, ev: Event, rest: seq<Event>, events: seq<Event>)
    requires Backed(d) && Enabled(d, ev) && Explained(Perform(d, ev), rest) && events == [ev] + rest
    ensures Explained(d, events)
  {
    assert events[1..] == rest;
  }

  // From states that look alike, whatever the copy-on-write machine does the eager machine can do too.
  lemma {:induction false} RunExplained(x: set<nat>, c: State, d: State, run: seq<Action>)
    requires Alike(x, c, d)
    ensures Explained(d, Trace(c, run))
    decreases run
  {
    if run != [] {
      var o, rest := Step(c, run[0]), run[1..];
      StepOk(x, c, run[0]);
      if o.events == [] {
        RunExplained(x, o.state, d, rest);
        assert Trace(c, run) == Trace(o.state, rest);
      } else {
        Follow(x, c, d, run[0]);
        RunExplained(x, o.state, Perform(d, o.events[0]), rest);
        assert o.events == [o.events[0]];
        OneMoreEvent(d, o.events[0], Trace(o.state, rest), Trace(c, run));
      }
    }
  }

  // ----- Where it starts -----

  // Nobody is inside a page fault, the zero page is read-only, and copy-on-write is what fork makes of mappings: it is
  // found only where fork puts it.
  ghost predicate Formed(c: State) {
    && Backed(c) && Quiet(c) && NoWriter(c, ZERO_PAGE)
    && forall s :: s in c.pt && c.pt[s].cow ==> Dupable(c, s)
  }

  // Mappings s and t of one page are at odds: not both shared, and one of them writable.
  ghost predicate AtOdds(c: State, s: Slot, t: Slot) {
    && s in c.pt && t in c.pt && s != t && c.pt[s].page == c.pt[t].page
    && !(c.pt[s].share && c.pt[t].share) && (c.pt[s].w || c.pt[t].w)
  }

  // No mapping that a fork would duplicate is at odds with another.
  ghost predicate Separate(c: State) {
    forall s, t :: AtOdds(c, s, t) ==> !Dupable(c, s)
  }

  ghost predicate ZeroSafe(c: State)
    requires Backed(c)
  {
    forall e :: ZeroSafeAt(c, e)
  }

  ghost predicate CommonAt(c: State, s: Slot) {
    s in c.pt && c.pt[s].w && (c.pt[s].share || exists t :: t in c.pt && t != s && c.pt[t].page == c.pt[s].page)
  }

  // The pages that a writable mapping has in common with another mapping.
  ghost function CommonPages(c: State): set<nat> {
    set s | s in c.pt && CommonAt(c, s) :: c.pt[s].page
  }

  lemma StartSlotFits(c: State, s: Slot)
    requires Formed(c) && Separate(c)
    ensures SlotFits(CommonPages(c), c, s)
  {
    if s in c.pt {
      var q := c.pt[s].page;
      if c.pt[s].share && c.pt[s].w { assert CommonAt(c, s); }
      if q in CommonPages(c) {
        var u :| u in c.pt && CommonAt(c, u) && c.pt[u].page == q;
        if u != s {
          assert !(c.pt[s].share && c.pt[u].share) ==> AtOdds(c, s, u);
        } else if !c.pt[s].share {
          var t :| t in c.pt && t != s && c.pt[t].page == q;
          assert AtOdds(c, s, t);
        }
      }
    }
  }

  lemma StartInv(c: State)
    requires Formed(c) && Separate(c) && ZeroSafe(c)
    ensures Inv(CommonPages(c), c) && WellMapped(CommonPages(c), c)
  {
    var x := CommonPages(c);
    forall s ensures SlotFits(x, c, s) { StartSlotFits(c, s); }
    forall s, t ensures PairFits(x, c, s, t) {
      if s in c.pt && t in c.pt && s != t && c.pt[s].page == c.pt[t].page {
        if c.pt[s].w { assert CommonAt(c, s); }
        if c.pt[t].w { assert CommonAt(c, t); }
      }
    }
  }

  // Copy-on-write fork refines copying at fork time: in every run from a state in which no mapping that fork duplicates
  // is at odds with another and page 0 is safe, with any number of forks and faults, every read returns what it would
  // under eager copying.
  lemma CowRefinesEager(c: State, run: seq<Action>)
    requires Formed(c) && Separate(c) && ZeroSafe(c)
    ensures Explained(c, Trace(c, run))
  {
    StartInv(c);
    RunExplained(CommonPages(c), c, c, run);
  }
}
