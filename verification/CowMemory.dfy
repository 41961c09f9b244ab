/**
  Copy-on-write fork of lib/fork.c, as seen by later reads, writes and page faults.

  A state holds every environment's page table, the physical pages, and for each environment how far its page-fault
  handler has got. Virtual addresses are page numbers. The handler's system calls are separate steps, so the steps of
  other environments may come between them.
 */
module CowMemory {

  const PGSIZE: nat := 4096
  const PFTEMP: nat := 0x7ff
  const USTACKTOP: nat := 0xeebfe
  const UXSTACK: nat := 0xeebff

  // The physical page that sys_page_map takes for source address 0. It is never handed out.
  const ZERO_PAGE: nat := 0

  type Bytes = seq<int>

  datatype Slot = Slot(env: nat, va: nat)

  // A present page-table entry; every mapping made through a system call also has PTE_U.
  datatype Pte = Pte(page: nat, w: bool, cow: bool, share: bool)

  // The faulting write, remembered by the trap frame, is restarted when the handler returns.
  datatype Handler =
    | Idle
    | Entered(va: nat, off: nat, b: int)
    | Allocated(va: nat, off: nat, b: int)
    | Copied(va: nat, off: nat, b: int)
    | Mapped(va: nat, off: nat, b: int)
    | Returning(va: nat, off: nat, b: int)

  datatype State = State(pt: map<Slot, Pte>, mem: map<nat, Bytes>, handler: map<nat, Handler>)

  datatype Action =
    | Read(env: nat, va: nat, off: nat)
    | Write(env: nat, va: nat, off: nat, b: int)
    | Handle(env: nat, spare: nat)
    | Fork(env: nat, child: nat, spare: nat)

  datatype Event =
    | DidRead(slot: Slot, off: nat, v: int)
    | DidWrite(slot: Slot, off: nat, b: int)
    | DidFork(parent: nat, child: nat)

  datatype Outcome = Outcome(state: State, events: seq<Event>)

  function HandlerOf(c: State, e: nat): Handler {
    if e in c.handler then c.handler[e] else Idle
  }

  predicate PageUnused(c: State, p: nat) {
    p != ZERO_PAGE && forall s :: s in c.pt ==> c.pt[s].page != p
  }

  predicate PageThere(c: State, p: nat) {
    p in c.mem && |c.mem[p]| == PGSIZE
  }

  // The zero page and every mapped page exist.
  predicate Backed(c: State) {
    PageThere(c, ZERO_PAGE) && forall s :: s in c.pt ==> PageThere(c, c.pt[s].page)
  }

  // ----- The copy-on-write machine -----

  function StoreAt(c: State, s: Slot, off: nat, b: int): (c': State)
    requires s in c.pt && Backed(c) && off < PGSIZE
    ensures Backed(c')
  {
    var p := c.pt[s].page;
    c.(mem := c.mem[p := c.mem[p][off := b]])
  }

  function Enter(c: State, e: nat, h: Handler): State {
    c.(handler := c.handler[e := h])
  }

  function DoRead(c: State, s: Slot, off: nat): (o: Outcome)
    requires Backed(c)
    ensures Backed(o.state)
  {
    if HandlerOf(c, s.env).Idle? && s in c.pt && off < PGSIZE then
      Outcome(c, [DidRead(s, off, c.mem[c.pt[s].page][off])])
    else Outcome(c, [])
  }

  // A write to a writable page happens; one to a copy-on-write page enters pgfault; any other is refused.
  function DoWrite(c: State, s: Slot, off: nat, b: int): (o: Outcome)
    requires Backed(c)
    ensures Backed(o.state)
  {
    if !HandlerOf(c, s.env).Idle? || s !in c.pt || off >= PGSIZE || s.va == PFTEMP then Outcome(c, [])
    else if c.pt[s].w then Outcome(StoreAt(c, s, off, b), [DidWrite(s, off, b)])
    else if c.pt[s].cow then Outcome(Enter(c, s.env, Entered(s.va, off, b)), [])
    else Outcome(c, [])
  }

  // One step of pgfault: allocate at PFTEMP, copy, map over the faulting page, unmap PFTEMP, restart the write.
  function DoHandle(c: State, e: nat, spare: nat): (o: Outcome)
    requires Backed(c)
    ensures Backed(o.state)
  {
    var temp := Slot(e, PFTEMP);
    match HandlerOf(c, e)
    case Idle => Outcome(c, [])
    case Entered(va, off, b) =>
      if PageUnused(c, spare) then
        var c' := State(c.pt[temp := Pte(spare, true, false, false)],
                        c.mem[spare := seq(PGSIZE, i => 0)], c.handler);
        Outcome(Enter(c', e, Allocated(va, off, b)), [])
      else Outcome(c, [])
    case Allocated(va, off, b) =>
      if temp in c.pt && Slot(e, va) in c.pt then
        var c' := c.(mem := c.mem[c.pt[temp].page := c.mem[c.pt[Slot(e, va)].page]]);
        Outcome(Enter(c', e, Copied(va, off, b)), [])
      else Outcome(c, [])
    case Copied(va, off, b) =>
      if temp in c.pt then
        var c' := c.(pt := c.pt[Slot(e, va) := Pte(c.pt[temp].page, true, false, false)]);
        Outcome(Enter(c', e, Mapped(va, off, b)), [])
      else Outcome(c, [])
    case Mapped(va, off, b) =>
      Outcome(Enter(c.(pt := c.pt - {temp}), e, Returning(va, off, b)), [])
    case Returning(va, off, b) =>
      if Slot(e, va) in c.pt && off < PGSIZE then
        Outcome(Enter(StoreAt(c, Slot(e, va), off, b), e, Idle), [DidWrite(Slot(e, va), off, b)])
      else Outcome(c, [])
  }

  // ----- fork -----

  // What duppage makes of the mapping e of address va, in the child. At address 0 sys_page_map substitutes the zero page.
  function DupPte(e: Pte, va: nat): Pte {
    var page := if va == 0 then ZERO_PAGE else e.page;
    if !e.share && (e.w || e.cow) then Pte(page, false, true, false) else e.(page := page)
  }

  // What it makes of the mapping in the parent.
  function OwnPte(e: Pte, va: nat): Pte {
    if !e.share && (e.w || e.cow) then DupPte(e, va) else e
  }

  // The child is a blank environment.
  predicate CanFork(c: State, p: nat, child: nat) {
    && p != child && HandlerOf(c, p).Idle? && HandlerOf(c, child).Idle?
    && forall s :: s in c.pt ==> s.env != child
  }

  // duppage does not panic: sys_page_map refuses to map address 0 writable, which PTE_SHARE would ask of it.
  predicate Forkable(c: State, p: nat) {
    Slot(p, 0) in c.pt ==> !(c.pt[Slot(p, 0)].share && c.pt[Slot(p, 0)].w)
  }

  function ChildSlots(c: State, p: nat, child: nat): set<Slot> {
    (set s | s in c.pt && s.env == p && s.va < USTACKTOP :: Slot(child, s.va)) + {Slot(child, UXSTACK)}
  }

  function DuppedPt(c: State, p: nat, child: nat, spare: nat): map<Slot, Pte>
    requires CanFork(c, p, child)
  {
    map s: Slot | s in c.pt.Keys + ChildSlots(c, p, child) ::
      if s == Slot(child, UXSTACK) then Pte(spare, true, false, false)
      else if s.env == child then DupPte(c.pt[Slot(p, s.va)], s.va)
      else if s.env == p && s.va < USTACKTOP then OwnPte(c.pt[s], s.va)
      else c.pt[s]
  }

  // The pages of the mappings after a fork are old ones, the zero page and the new one.
  lemma DuppedPage(c: State, p: nat, child: nat, spare: nat, s: Slot)
    requires Backed(c) && CanFork(c, p, child) && s in DuppedPt(c, p, child, spare)
    ensures var q := DuppedPt(c, p, child, spare)[s].page; q == spare || PageThere(c, q)
  {
  }

  function CowFork(c: State, p: nat, child: nat, spare: nat): (c': State)
    requires Backed(c) && CanFork(c, p, child) && PageUnused(c, spare)
    ensures Backed(c')
  {
    var c' := State(DuppedPt(c, p, child, spare), c.mem[spare := seq(PGSIZE, i => 0)], c.handler);
    assert forall s :: s in c'.pt ==> PageThere(c', c'.pt[s].page) by {
      forall s | s in c'.pt ensures PageThere(c', c'.pt[s].page) { DuppedPage(c, p, child, spare, s); }
    }
    c'
  }

  function DoFork(c: State, p: nat, child: nat, spare: nat): (o: Outcome)
    requires Backed(c)
    ensures Backed(o.state)
  {
    if CanFork(c, p, child) && Forkable(c, p) && PageUnused(c, spare) then
      Outcome(CowFork(c, p, child, spare), [DidFork(p, child)])
    else Outcome(c, [])
  }

  function Step(c: State, a: Action): (o: Outcome)
    requires Backed(c)
    ensures Backed(o.state)
  {
    match a
    case Read(e, va, off) => DoRead(c, Slot(e, va), off)
    case Write(e, va, off, b) => DoWrite(c, Slot(e, va), off, b)
    case Handle(e, spare) => DoHandle(c, e, spare)
    case Fork(e, child, spare) => DoFork(c, e, child, spare)
  }

  // The reads, writes and forks that a run performs, in the order in which they take effect.
  function Trace(c: State, run: seq<Action>): seq<Event>
    requires Backed(c)
    decreases run
  {
    if run == [] then []
    else
      var o := Step(c, run[0]);
      o.events + Trace(o.state, run[1..])
  }

  // ----- What holds between steps -----

  // A mapping that a fork of its environment would duplicate.
  ghost predicate Dupable(c: State, s: Slot) {
    s in c.pt && s.va < USTACKTOP && !c.pt[s].share && Forkable(c, s.env)
  }

  // x is the set of pages that several mappings see and some can write. No other page has a PTE_SHARE mapping that is
  // writable, and the pages of x are neither copy-on-write nor duplicated by any fork.
  ghost predicate SlotFits(x: set<nat>, c: State, s: Slot) {
    s in c.pt && s.va != PFTEMP ==>
      var e := c.pt[s];
      && (e.cow ==> !e.share && e.page !in x)
      && (e.share && e.w ==> e.page in x)
      && (e.page in x ==> !Dupable(c, s))
  }

  // Outside x, two mappings of one page, PFTEMP aside, are both read-only.
  ghost predicate PairFits(x: set<nat>, c: State, s: Slot, t: Slot) {
    s in c.pt && t in c.pt && s != t && s.va != PFTEMP && t.va != PFTEMP
    && c.pt[s].page == c.pt[t].page && c.pt[s].page !in x
    ==> !c.pt[s].w && !c.pt[t].w
  }

  // Page q stays in use.
  ghost predicate KeptAt(c: State, q: nat) {
    exists s :: s in c.pt && s.va != PFTEMP && c.pt[s].page == q && c.pt[s].w
  }

  ghost predicate NoWriter(c: State, q: nat) {
    forall t :: t in c.pt && c.pt[t].page == q ==> !c.pt[t].w
  }

  // A fork of e does no harm at address 0: the page there holds what the zero page holds, and nobody can change it.
  ghost predicate ZeroSafeAt(c: State, e: nat)
    requires Backed(c)
  {
    Slot(e, 0) in c.pt && Forkable(c, e) ==>
      var m := c.pt[Slot(e, 0)];
      !m.cow && c.mem[m.page] == c.mem[ZERO_PAGE] && NoWriter(c, m.page)
  }

  ghost predicate CopyOnWriteAt(c: State, s: Slot) {
    s in c.pt && s.va != PFTEMP && !c.pt[s].w && c.pt[s].cow && !c.pt[s].share
  }

  ghost predicate OnlyMappedAt(c: State, p: nat, slots: set<Slot>) {
    p != ZERO_PAGE && forall s :: s in c.pt && c.pt[s].page == p ==> s in slots
  }

  ghost predicate HandlerOk(c: State, e: nat) {
    var temp := Slot(e, PFTEMP);
    match HandlerOf(c, e)
    case Idle => temp !in c.pt
    case Entered(va, off, b) => temp !in c.pt && CopyOnWriteAt(c, Slot(e, va)) && off < PGSIZE
    case Allocated(va, off, b) =>
      && temp in c.pt && CopyOnWriteAt(c, Slot(e, va)) && off < PGSIZE
      && OnlyMappedAt(c, c.pt[temp].page, {temp})
    case Copied(va, off, b) =>
      && temp in c.pt && CopyOnWriteAt(c, Slot(e, va)) && off < PGSIZE
      && OnlyMappedAt(c, c.pt[temp].page, {temp})
      && c.pt[temp].page in c.mem && c.pt[Slot(e, va)].page in c.mem
      && c.mem[c.pt[temp].page] == c.mem[c.pt[Slot(e, va)].page]
    case Mapped(va, off, b) =>
      && temp in c.pt && va != PFTEMP && off < PGSIZE && Slot(e, va) in c.pt
      && c.pt[Slot(e, va)] == Pte(c.pt[temp].page, true, false, false)
      && OnlyMappedAt(c, c.pt[temp].page, {temp, Slot(e, va)})
    case Returning(va, off, b) =>
      && temp !in c.pt && va != PFTEMP && off < PGSIZE && Slot(e, va) in c.pt
      && c.pt[Slot(e, va)].w && !c.pt[Slot(e, va)].share
  }

  // Nobody can write the zero page.
  ghost predicate Fits(x: set<nat>, c: State) {
    && Backed(c) && NoWriter(c, ZERO_PAGE)
    && (forall s :: SlotFits(x, c, s))
    && (forall s, t :: PairFits(x, c, s, t))
    && (forall q :: q in x ==> KeptAt(c, q))
    && (forall e :: ZeroSafeAt(c, e))
  }

  ghost predicate Inv(x: set<nat>, c: State) {
    Fits(x, c) && forall e :: HandlerOk(c, e)
  }

  // ----- The memory that programs see -----

  datatype Cell = Private(bytes: Bytes, writable: bool) | Common(page: nat, writable: bool)

  datatype View = View(cells: map<Slot, Cell>, common: map<nat, Bytes>)

  function CellOf(x: set<nat>, c: State, s: Slot): Cell
    requires s in c.pt && Backed(c)
  {
    var e := c.pt[s];
    if e.page in x then Common(e.page, e.w || e.cow) else Private(c.mem[e.page], e.w || e.cow)
  }

  function ViewOf(x: set<nat>, c: State): View
    requires Backed(c)
  {
    View(map s | s in c.pt && s.va != PFTEMP :: CellOf(x, c, s), map q | q in x && q in c.mem :: c.mem[q])
  }

  predicate Covers(v: View, s: Slot, off: nat) {
    && s in v.cells && off < PGSIZE
    && match v.cells[s]
       case Private(bytes, _) => |bytes| == PGSIZE
       case Common(p, _) => p in v.common && |v.common[p]| == PGSIZE
  }

  function ViewRead(v: View, s: Slot, off: nat): int
    requires Covers(v, s, off)
  {
    match v.cells[s]
    case Private(bytes, _) => bytes[off]
    case Common(p, _) => v.common[p][off]
  }

  function ViewWrite(v: View, s: Slot, off: nat, b: int): View
    requires Covers(v, s, off)
  {
    match v.cells[s]
    case Private(bytes, w) => v.(cells := v.cells[s := Private(bytes[off := b], w)])
    case Common(p, _) => v.(common := v.common[p := v.common[p][off := b]])
  }

  lemma ViewCovers(x: set<nat>, c: State, s: Slot, off: nat)
    requires Backed(c) && s in c.pt && s.va != PFTEMP && off < PGSIZE
    ensures Covers(ViewOf(x, c), s, off) && ViewRead(ViewOf(x, c), s, off) == c.mem[c.pt[s].page][off]
  {
  }

  // s is mapped in both states or in neither, and shows the same.
  ghost predicate SameCell(x: set<nat>, c: State, c': State, s: Slot)
    requires Backed(c) && Backed(c')
  {
    s.va != PFTEMP ==>
      && (s in c.pt <==> s in c'.pt)
      && (s in c.pt && s in c'.pt ==> CellOf(x, c, s) == CellOf(x, c', s))
  }

  ghost predicate SamePage(c: State, c': State, q: nat) {
    (q in c.mem <==> q in c'.mem) && (q in c.mem && q in c'.mem ==> c.mem[q] == c'.mem[q])
  }

  lemma SameView(x: set<nat>, c: State, c': State)
    requires Backed(c) && Backed(c')
    requires forall s: Slot :: SameCell(x, c, c', s)
    requires forall q :: q in x ==> SamePage(c, c', q)
    ensures ViewOf(x, c) == ViewOf(x, c')
  {
    var v, v' := ViewOf(x, c), ViewOf(x, c');
    forall s: Slot ensures (s in v.cells <==> s in v'.cells) && (s in v.cells && s in v'.cells ==> v.cells[s] == v'.cells[s]) {
      assert SameCell(x, c, c', s);
    }
    assert v.cells == v'.cells;
    forall q ensures (q in v.common <==> q in v'.common) && (q in v.common && q in v'.common ==> v.common[q] == v'.common[q])
    {
      assert q in x ==> SamePage(c, c', q);
    }
    assert v.common == v'.common;
  }

  // ----- Each step is invisible, or is the read or write it reports -----

  ghost predicate CanStore(x: set<nat>, c: State, s: Slot, off: nat) {
    Fits(x, c) && s in c.pt && s.va != PFTEMP && c.pt[s].w && off < PGSIZE
  }

  // What a store through s does to the cell of t.
  lemma StoreCell(x: set<nat>, c: State, s: Slot, off: nat, b: int, t: Slot)
    requires CanStore(x, c, s, off) && t in c.pt && t.va != PFTEMP
    ensures CellOf(x, StoreAt(c, s, off, b), t) ==
            if t == s && c.pt[s].page !in x then Private(c.mem[c.pt[s].page][off := b], true)
            else CellOf(x, c, t)
  {
    assert PairFits(x, c, s, t);
  }

  // A store through a writable mapping changes what that slot sees, and what the others see only if the page is common.
  lemma StoreShows(x: set<nat>, c: State, s: Slot, off: nat, b: int)
    requires CanStore(x, c, s, off)
    ensures Covers(ViewOf(x, c), s, off)
    ensures ViewOf(x, StoreAt(c, s, off, b)) == ViewWrite(ViewOf(x, c), s, off, b)
  {
    ViewCovers(x, c, s, off);
    var v, v' := ViewOf(x, StoreAt(c, s, off, b)), ViewWrite(ViewOf(x, c), s, off, b);
    assert v.cells.Keys == v'.cells.Keys;
    forall t | t in v.cells ensures v.cells[t] == v'.cells[t] { StoreCell(x, c, s, off, b, t); }
    assert v.cells == v'.cells;
    assert v.common == v'.common;
  }

  lemma StoreZero(x: set<nat>, c: State, s: Slot, off: nat, b: int, e: nat)
    requires CanStore(x, c, s, off)
    ensures ZeroSafeAt(StoreAt(c, s, off, b), e)
  {
    assert ZeroSafeAt(c, e);
  }

  lemma StoreFits(x: set<nat>, c: State, s: Slot, off: nat, b: int)
    requires CanStore(x, c, s, off)
    ensures Fits(x, StoreAt(c, s, off, b))
  {
    var c' := StoreAt(c, s, off, b);
    forall t ensures SlotFits(x, c', t) { assert SlotFits(x, c, t); }
    forall t, u ensures PairFits(x, c', t, u) { assert PairFits(x, c, t, u); }
    forall q | q in x ensures KeptAt(c', q) { assert KeptAt(c, q); }
    forall e ensures ZeroSafeAt(c', e) { StoreZero(x, c, s, off, b, e); }
  }

  // Nobody stores to a page that a handler copies from or to.
  lemma StoreHandler(x: set<nat>, c: State, s: Slot, off: nat, b: int, e: nat)
    requires CanStore(x, c, s, off) && HandlerOk(c, e)
    ensures HandlerOk(StoreAt(c, s, off, b), e)
  {
    var h := HandlerOf(c, e);
    if h.Copied? { assert PairFits(x, c, s, Slot(e, h.va)) && SlotFits(x, c, Slot(e, h.va)); }
  }

  lemma ReadOk(x: set<nat>, c: State, s: Slot, off: nat)
    requires Inv(x, c)
    ensures var o := DoRead(c, s, off);
            && o.state == c
            && (o.events == [] || (exists v :: o.events == [DidRead(s, off, v)] && Covers(ViewOf(x, c), s, off)
                                               && v == ViewRead(ViewOf(x, c), s, off)))
  {
    assert HandlerOk(c, s.env);
    if DoRead(c, s, off).events != [] {
      ViewCovers(x, c, s, off);
      assert DoRead(c, s, off).events == [DidRead(s, off, ViewRead(ViewOf(x, c), s, off))];
    }
  }

  // A step of the handler of e that changes only what e sees at PFTEMP, or replaces a page by a copy of it.
  lemma EnterOk(x: set<nat>, c: State, e: nat, h: Handler)
    requires Fits(x, c)
    requires forall e' :: e' != e ==> HandlerOk(c, e')
    requires HandlerOk(Enter(c, e, h), e)
    ensures Inv(x, Enter(c, e, h)) && ViewOf(x, Enter(c, e, h)) == ViewOf(x, c)
  {
    var c' := Enter(c, e, h);
    forall e' ensures HandlerOk(c', e') { if e' != e { assert HandlerOk(c, e'); } }
    forall s ensures SlotFits(x, c', s) { assert SlotFits(x, c, s); }
    forall s, t ensures PairFits(x, c', s, t) { assert PairFits(x, c, s, t); }
    forall q | q in x ensures KeptAt(c', q) { assert KeptAt(c, q); }
    forall e' ensures ZeroSafeAt(c', e') { assert ZeroSafeAt(c, e'); }
  }

  lemma NotCommon(x: set<nat>, c: State, q: nat, slots: set<Slot>, e: nat)
    requires Fits(x, c) && OnlyMappedAt(c, q, slots) && slots <= {Slot(e, PFTEMP)}
    ensures q !in x
  {
    assert q in x ==> KeptAt(c, q);
  }

  // --- allocate ---

  lemma AllocatedFits(x: set<nat>, c: State, e: nat, spare: nat, c': State)
    requires Fits(x, c) && PageUnused(c, spare) && Slot(e, PFTEMP) !in c.pt
    requires c' == State(c.pt[Slot(e, PFTEMP) := Pte(spare, true, false, false)],
                         c.mem[spare := seq(PGSIZE, i => 0)], c.handler)
    ensures Fits(x, c') && ViewOf(x, c') == ViewOf(x, c)
  {
    forall s ensures SlotFits(x, c', s) && SameCell(x, c, c', s) { assert SlotFits(x, c, s); }
    forall s, t ensures PairFits(x, c', s, t) { assert PairFits(x, c, s, t); }
    forall q | q in x ensures KeptAt(c', q) && SamePage(c, c', q) {
      var s :| s in c.pt && s.va != PFTEMP && c.pt[s].page == q && c.pt[s].w;
      assert s in c'.pt && c'.pt[s] == c.pt[s];
    }
    forall e' ensures ZeroSafeAt(c', e') { assert ZeroSafeAt(c, e'); }
    SameView(x, c, c');
  }

  lemma AllocatedHandler(c: State, e: nat, spare: nat, c': State, e': nat)
    requires Backed(c) && PageUnused(c, spare) && Slot(e, PFTEMP) !in c.pt && e' != e && HandlerOk(c, e')
    requires c' == State(c.pt[Slot(e, PFTEMP) := Pte(spare, true, false, false)],
                         c.mem[spare := seq(PGSIZE, i => 0)], c.handler)
    ensures HandlerOk(c', e')
  {
  }

  lemma AllocateOk(x: set<nat>, c: State, e: nat, spare: nat)
    requires Inv(x, c) && HandlerOf(c, e).Entered?
    ensures var o := DoHandle(c, e, spare); o.events == [] && Inv(x, o.state) && ViewOf(x, o.state) == ViewOf(x, c)
  {
    var h := HandlerOf(c, e);
    assert HandlerOk(c, e);
    if PageUnused(c, spare) {
      var c' := State(c.pt[Slot(e, PFTEMP) := Pte(spare, true, false, false)],
                      c.mem[spare := seq(PGSIZE, i => 0)], c.handler);
      AllocatedFits(x, c, e, spare, c');
      forall e' | e' != e ensures HandlerOk(c', e') {
        assert HandlerOk(c, e');
        AllocatedHandler(c, e, spare, c', e');
      }
      EnterOk(x, c', e, Allocated(h.va, h.off, h.b));
    }
  }

  // --- copy ---

  lemma CopiedFits(x: set<nat>, c: State, e: nat, bytes: Bytes, c': State)
    requires Fits(x, c) && Slot(e, PFTEMP) in c.pt && OnlyMappedAt(c, c.pt[Slot(e, PFTEMP)].page, {Slot(e, PFTEMP)})
    requires |bytes| == PGSIZE && c' == c.(mem := c.mem[c.pt[Slot(e, PFTEMP)].page := bytes])
    ensures Fits(x, c') && ViewOf(x, c') == ViewOf(x, c)
    ensures forall e' :: e' != e && HandlerOk(c, e') ==> HandlerOk(c', e')
  {
    NotCommon(x, c, c.pt[Slot(e, PFTEMP)].page, {Slot(e, PFTEMP)}, e);
    forall s ensures SlotFits(x, c', s) && SameCell(x, c, c', s) { assert SlotFits(x, c, s); }
    forall s, t ensures PairFits(x, c', s, t) { assert PairFits(x, c, s, t); }
    forall q | q in x ensures KeptAt(c', q) && SamePage(c, c', q) { assert KeptAt(c, q); }
    forall e' ensures ZeroSafeAt(c', e') { assert ZeroSafeAt(c, e'); }
    SameView(x, c, c');
  }

  lemma CopyOk(x: set<nat>, c: State, e: nat, spare: nat)
    requires Inv(x, c) && HandlerOf(c, e).Allocated?
    ensures var o := DoHandle(c, e, spare); o.events == [] && Inv(x, o.state) && ViewOf(x, o.state) == ViewOf(x, c)
  {
    var h, temp := HandlerOf(c, e), Slot(e, PFTEMP);
    assert HandlerOk(c, e);
    var bytes := c.mem[c.pt[Slot(e, h.va)].page];
    var c' := c.(mem := c.mem[c.pt[temp].page := bytes]);
    CopiedFits(x, c, e, bytes, c');
    forall e' | e' != e ensures HandlerOk(c', e') { assert HandlerOk(c, e'); }
    EnterOk(x, c', e, Copied(h.va, h.off, h.b));
  }

  // --- map ---

  ghost predicate ReadyToMap(x: set<nat>, c: State, s: Slot, q: nat) {
    && Fits(x, c) && CopyOnWriteAt(c, s) && PageThere(c, q) && OnlyMappedAt(c, q, {Slot(s.env, PFTEMP)})
    && c.mem[q] == c.mem[c.pt[s].page]
  }

  lemma MappedFits(x: set<nat>, c: State, s: Slot, q: nat, c': State)
    requires ReadyToMap(x, c, s, q) && c' == c.(pt := c.pt[s := Pte(q, true, false, false)])
    ensures Fits(x, c') && ViewOf(x, c') == ViewOf(x, c)
  {
    NotCommon(x, c, q, {Slot(s.env, PFTEMP)}, s.env);
    assert SlotFits(x, c, s) && ZeroSafeAt(c, s.env);
    forall t ensures SlotFits(x, c', t) && SameCell(x, c, c', t) { assert SlotFits(x, c, t); }
    forall t, u ensures PairFits(x, c', t, u) { assert PairFits(x, c, t, u); }
    forall p | p in x ensures KeptAt(c', p) {
      var t :| t in c.pt && t.va != PFTEMP && c.pt[t].page == p && c.pt[t].w;
      assert t in c'.pt && c'.pt[t] == c.pt[t];
    }
    forall p | p in x ensures SamePage(c, c', p) {}
    forall e ensures ZeroSafeAt(c', e) { assert ZeroSafeAt(c, e); }
    SameView(x, c, c');
  }

  lemma MappedHandler(c: State, s: Slot, q: nat, c': State, e: nat)
    requires Backed(c) && CopyOnWriteAt(c, s) && OnlyMappedAt(c, q, {Slot(s.env, PFTEMP)}) && HandlerOk(c, e)
    requires c' == c.(pt := c.pt[s := Pte(q, true, false, false)]) && e != s.env
    ensures HandlerOk(c', e)
  {
  }

  lemma MapOk(x: set<nat>, c: State, e: nat, spare: nat)
    requires Inv(x, c) && HandlerOf(c, e).Copied?
    ensures var o := DoHandle(c, e, spare); o.events == [] && Inv(x, o.state) && ViewOf(x, o.state) == ViewOf(x, c)
  {
    var h, temp := HandlerOf(c, e), Slot(e, PFTEMP);
    assert HandlerOk(c, e);
    var s, q := Slot(e, h.va), c.pt[temp].page;
    var c' := c.(pt := c.pt[s := Pte(q, true, false, false)]);
    MappedFits(x, c, s, q, c');
    forall e' | e' != e ensures HandlerOk(c', e') {
      assert HandlerOk(c, e');
      MappedHandler(c, s, q, c', e');
    }
    EnterOk(x, c', e, Mapped(h.va, h.off, h.b));
  }

  // --- unmap ---

  lemma UnmappedFits(x: set<nat>, c: State, e: nat, c': State)
    requires Fits(x, c) && c' == c.(pt := c.pt - {Slot(e, PFTEMP)})
    ensures Fits(x, c') && ViewOf(x, c') == ViewOf(x, c)
    ensures forall e' :: e' != e && HandlerOk(c, e') ==> HandlerOk(c', e')
  {
    forall s ensures SlotFits(x, c', s) && SameCell(x, c, c', s) { assert SlotFits(x, c, s); }
    forall s, t ensures PairFits(x, c', s, t) { assert PairFits(x, c, s, t); }
    forall q | q in x ensures KeptAt(c', q) && SamePage(c, c', q) {
      var s :| s in c.pt && s.va != PFTEMP && c.pt[s].page == q && c.pt[s].w;
      assert s in c'.pt && c'.pt[s] == c.pt[s];
    }
    forall e' ensures ZeroSafeAt(c', e') { assert ZeroSafeAt(c, e'); }
    SameView(x, c, c');
  }

  lemma UnmapOk(x: set<nat>, c: State, e: nat, spare: nat)
    requires Inv(x, c) && HandlerOf(c, e).Mapped?
    ensures var o := DoHandle(c, e, spare); o.events == [] && Inv(x, o.state) && ViewOf(x, o.state) == ViewOf(x, c)
  {
    var h := HandlerOf(c, e);
    assert HandlerOk(c, e);
    var c' := c.(pt := c.pt - {Slot(e, PFTEMP)});
    UnmappedFits(x, c, e, c');
    forall e' | e' != e ensures HandlerOk(c', e') { assert HandlerOk(c, e'); }
    EnterOk(x, c', e, Returning(h.va, h.off, h.b));
  }

  // --- restart ---

  lemma RestartOk(x: set<nat>, c: State, e: nat, spare: nat)
    requires Inv(x, c) && HandlerOf(c, e).Returning?
    ensures var o, h := DoHandle(c, e, spare), HandlerOf(c, e);
            var s := Slot(e, h.va);
            && o.events == [DidWrite(s, h.off, h.b)] && Inv(x, o.state)
            && Covers(ViewOf(x, c), s, h.off) && ViewOf(x, c).cells[s].writable
            && ViewOf(x, o.state) == ViewWrite(ViewOf(x, c), s, h.off, h.b)
  {
    var h := HandlerOf(c, e);
    var s := Slot(e, h.va);
    assert HandlerOk(c, e);
    StoreShows(x, c, s, h.off, h.b);
    StoreFits(x, c, s, h.off, h.b);
    var c' := StoreAt(c, s, h.off, h.b);
    forall e' ensures HandlerOk(c', e') {
      assert HandlerOk(c, e');
      StoreHandler(x, c, s, h.off, h.b, e');
    }
    EnterOk(x, c', e, Idle);
  }

  lemma WriteOk(x: set<nat>, c: State, s: Slot, off: nat, b: int)
    requires Inv(x, c)
    ensures var o := DoWrite(c, s, off, b);
            && Inv(x, o.state)
            && (o.events == [] ==> ViewOf(x, o.state) == ViewOf(x, c))
            && (o.events != [] ==>
                  && o.events == [DidWrite(s, off, b)] && Covers(ViewOf(x, c), s, off) && ViewOf(x, c).cells[s].writable
                  && ViewOf(x, o.state) == ViewWrite(ViewOf(x, c), s, off, b))
  {
    assert HandlerOk(c, s.env) && SlotFits(x, c, s);
    if HandlerOf(c, s.env).Idle? && s in c.pt && off < PGSIZE && s.va != PFTEMP {
      if c.pt[s].w {
        StoreShows(x, c, s, off, b);
        StoreFits(x, c, s, off, b);
        forall e ensures HandlerOk(StoreAt(c, s, off, b), e) {
          assert HandlerOk(c, e);
          StoreHandler(x, c, s, off, b, e);
        }
      } else if c.pt[s].cow {
        EnterOk(x, c, s.env, Entered(s.va, off, b));
      }
    }
  }
}
