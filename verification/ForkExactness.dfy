/**
  The condition under which fork behaves like copying is exact. If a mapping that fork duplicates copy-on-write shares its
  page with another mapping, one of the two writable and not both PTE_SHARE, or if a forking environment has something
  other than the zero page at address 0, then some run shows the difference.
 */
module ForkExactness {
  import opened CowMemory
  import opened EagerFork

  lemma TraceStep(c: State, a: Action, rest: seq<Action>)
    requires Backed(c)
    ensures Trace(c, [a] + rest) == Step(c, a).events + Trace(Step(c, a).state, rest)
  {
    assert ([a] + rest)[1..] == rest;
  }

  // The state after an undisturbed page fault.
  function AfterFault(c: State, s: Slot, off: nat, b: int, q: nat): (c': State)
    requires Backed(c) && s in c.pt && off < PGSIZE
    ensures Backed(c')
  {
    State(c.pt[s := Pte(q, true, false, false)], c.mem[q := c.mem[c.pt[s].page][off := b]], c.handler[s.env := Idle])
  }

  function FaultRun(s: Slot, off: nat, b: int, q: nat): seq<Action> {
    [Write(s.env, s.va, off, b)] + Handles(s.env, q, 5)
  }

  function Handles(e: nat, q: nat, n: nat): seq<Action> {
    if n == 0 then [] else [Handle(e, q)] + Handles(e, q, n - 1)
  }

  // The state when n steps of the handler are still to come.
  function Stage(c: State, s: Slot, off: nat, b: int, q: nat, n: nat): (c': State)
    requires Backed(c) && s in c.pt && off < PGSIZE
    ensures Backed(c')
  {
    var e, temp, bytes, own := s.env, Slot(s.env, PFTEMP), c.mem[c.pt[s].page], Pte(q, true, false, false);
    match n
    case 5 => Enter(c, e, Entered(s.va, off, b))
    case 4 => Enter(State(c.pt[temp := own], c.mem[q := seq(PGSIZE, i => 0)], c.handler), e, Allocated(s.va, off, b))
    case 3 => Enter(State(c.pt[temp := own], c.mem[q := bytes], c.handler), e, Copied(s.va, off, b))
    case 2 => Enter(State(c.pt[temp := own][s := own], c.mem[q := bytes], c.handler), e, Mapped(s.va, off, b))
    case 1 => Enter(State(c.pt[s := own], c.mem[q := bytes], c.handler), e, Returning(s.va, off, b))
    case _ => AfterFault(c, s, off, b, q)
  }

  ghost predicate FaultReady(c: State, s: Slot, off: nat, q: nat) {
    Backed(c) && Quiet(c) && CopyOnWriteAt(c, s) && off < PGSIZE && PageUnused(c, q)
  }

  lemma StageStep(c: State, s: Slot, off: nat, b: int, q: nat, n: nat)
    requires FaultReady(c, s, off, q) && 2 <= n <= 5
    ensures Step(Stage(c, s, off, b, q, n), Handle(s.env, q)) == Outcome(Stage(c, s, off, b, q, n - 1), [])
  {
    match n
    case 5 => StageEntered(c, s, off, b, q);
    case 4 => StageAllocated(c, s, off, b, q);
    case 3 => StageCopied(c, s, off, b, q);
    case _ => StageMapped(c, s, off, b, q);
  }

  lemma StageEntered(c: State, s: Slot, off: nat, b: int, q: nat)
    requires FaultReady(c, s, off, q)
    ensures Step(Stage(c, s, off, b, q, 5), Handle(s.env, q)) == Outcome(Stage(c, s, off, b, q, 4), [])
  {
  }

  lemma StageMapped(c: State, s: Slot, off: nat, b: int, q: nat)
    requires FaultReady(c, s, off, q)
    ensures Step(Stage(c, s, off, b, q, 2), Handle(s.env, q)) == Outcome(Stage(c, s, off, b, q, 1), [])
  {
    var own, temp := Pte(q, true, false, false), Slot(s.env, PFTEMP);
    assert temp !in c.pt;
    assert c.pt[temp := own][s := own] - {temp} == c.pt[s := own];
  }

  lemma StageAllocated(c: State, s: Slot, off: nat, b: int, q: nat)
    requires FaultReady(c, s, off, q)
    ensures Step(Stage(c, s, off, b, q, 4), Handle(s.env, q)) == Outcome(Stage(c, s, off, b, q, 3), [])
  {
  }

  lemma StageCopied(c: State, s: Slot, off: nat, b: int, q: nat)
    requires FaultReady(c, s, off, q)
    ensures Step(Stage(c, s, off, b, q, 3), Handle(s.env, q)) == Outcome(Stage(c, s, off, b, q, 2), [])
  {
  }

  lemma StageLast(c: State, s: Slot, off: nat, b: int, q: nat)
    requires FaultReady(c, s, off, q)
    ensures Step(Stage(c, s, off, b, q, 1), Handle(s.env, q))
            == Outcome(AfterFault(c, s, off, b, q), [DidWrite(s, off, b)])
  {
  }

  lemma {:induction false} HandlesTrace(c: State, s: Slot, off: nat, b: int, q: nat, n: nat, rest: seq<Action>)
    requires FaultReady(c, s, off, q) && 1 <= n <= 5
    ensures Trace(Stage(c, s, off, b, q, n), Handles(s.env, q, n) + rest)
            == [DidWrite(s, off, b)] + Trace(AfterFault(c, s, off, b, q), rest)
  {
    var later := Handles(s.env, q, n - 1) + rest;
    assert Handles(s.env, q, n) + rest == [Handle(s.env, q)] + later;
    TraceStep(Stage(c, s, off, b, q, n), Handle(s.env, q), later);
    if n == 1 {
      StageLast(c, s, off, b, q);
      assert later == rest;
    } else {
      StageStep(c, s, off, b, q, n);
      HandlesTrace(c, s, off, b, q, n - 1, rest);
    }
  }

  lemma FaultTrace(c: State, s: Slot, off: nat, b: int, q: nat, rest: seq<Action>)
    requires FaultReady(c, s, off, q)
    ensures Trace(c, FaultRun(s, off, b, q) + rest)
            == [DidWrite(s, off, b)] + Trace(AfterFault(c, s, off, b, q), rest)
  {
    var a, later := Write(s.env, s.va, off, b), Handles(s.env, q, 5) + rest;
    assert FaultRun(s, off, b, q) + rest == [a] + later;
    TraceStep(c, a, later);
    assert Step(c, a) == Outcome(Stage(c, s, off, b, q, 5), []);
    HandlesTrace(c, s, off, b, q, 5, rest);
  }

  ghost predicate ReadyToFork(c: State, p: nat, child: nat, spare: nat) {
    Backed(c) && Quiet(c) && CanFork(c, p, child) && Forkable(c, p) && PageUnused(c, spare)
  }

  // There is always a blank environment and an unused page.
  lemma FreshFork(c: State, p: nat) returns (child: nat, spare: nat)
    requires Backed(c) && Quiet(c) && Forkable(c, p)
    ensures ReadyToFork(c, p, child, spare)
  {
    var envs := set s | s in c.pt :: s.env;
    child, spare := Above(envs + {p}), SparePage(c);
    forall s | s in c.pt ensures s.env != child { assert s.env in envs; }
  }

  lemma CowForkQuiet(c: State, p: nat, child: nat, spare: nat)
    requires ReadyToFork(c, p, child, spare)
    ensures Quiet(CowFork(c, p, child, spare))
  {
    var c' := CowFork(c, p, child, spare);
    forall s | s in c'.pt ensures s.va != PFTEMP { CowForkAt(c, p, child, spare, s); }
    forall e ensures HandlerOf(c', e).Idle? { assert HandlerOf(c', e) == HandlerOf(c, e); }
  }

  // A run that begins with a fork.
  lemma TraceFork(c: State, p: nat, child: nat, spare: nat, rest: seq<Action>, events: seq<Event>)
    requires ReadyToFork(c, p, child, spare) && Trace(CowFork(c, p, child, spare), rest) == events
    ensures Trace(c, [Fork(p, child, spare)] + rest) == [DidFork(p, child)] + events
  {
    TraceStep(c, Fork(p, child, spare), rest);
  }

  // ----- Two events that eager copying does not allow -----

  lemma NotOne(d: State, r: Event, events: seq<Event>)
    requires Backed(d) && events == [r] && !Enabled(d, r)
    ensures !Explained(d, events)
  {
  }

  lemma NotTwo(d: State, w: Event, r: Event, events: seq<Event>)
    requires Backed(d) && events == [w, r] && (Enabled(d, w) ==> !Enabled(Perform(d, w), r))
    ensures !Explained(d, events)
  {
    assert events[1..] == [r];
    if Enabled(d, w) { NotOne(Perform(d, w), r, [r]); }
  }

  lemma FirstEvent(d: State, w: Event, rest: seq<Event>, events: seq<Event>)
    requires Backed(d) && events == [w] + rest && Enabled(d, w) && !Explained(Perform(d, w), rest)
    ensures !Explained(d, events)
  {
    assert events[1..] == rest;
  }

  // A run that performs a fork, then w, then r, where eager copying does not allow r after w.
  lemma NotExplained(c: State, p: nat, child: nat, w: Event, r: Event, events: seq<Event>)
    requires Backed(c) && CanFork(c, p, child) && events == [DidFork(p, child), w, r]
    requires Enabled(CopyFork(c, p, child), w) && !Enabled(Perform(CopyFork(c, p, child), w), r)
    ensures !Explained(c, events)
  {
    var d, rest := CopyFork(c, p, child), [w, r];
    NotTwo(d, w, r, rest);
    FirstEvent(c, DidFork(p, child), rest, events);
  }

  // ----- A page with two mappings -----

  // The parent's mapping s is writable and would be duplicated, at an address other than 0; so is t's page that of s.
  ghost predicate Astray(c: State, p: nat, s: Slot, t: Slot) {
    Dupable(c, s) && s.env == p && s.va != 0 && t != Slot(p, 0) && AtOdds(c, s, t) && c.pt[s].w
  }

  lemma ForkThenFault(c: State, p: nat, child: nat, spare: nat, s: Slot, t: Slot) returns (q: nat)
    requires ReadyToFork(c, p, child, spare) && Astray(c, p, s, t)
    ensures var c1 := CowFork(c, p, child, spare);
            && FaultReady(c1, s, 0, q) && t in c1.pt && c1.pt[t].page == c.pt[t].page
            && c1.mem[c1.pt[t].page] == c.mem[c.pt[t].page]
  {
    q := SparePage(CowFork(c, p, child, spare));
    CowForkAt(c, p, child, spare, s);
    CowForkAt(c, p, child, spare, t);
    CowForkQuiet(c, p, child, spare);
  }

  lemma LastRead(c: State, s: Slot, t: Slot, v: int, q: nat)
    requires FaultReady(c, s, 0, q) && t in c.pt && t != s && c.mem[c.pt[t].page][0] == v
    ensures Trace(AfterFault(c, s, 0, v + 1, q), [Read(t.env, t.va, 0)]) == [DidRead(t, 0, v)]
  {
    var c', a := AfterFault(c, s, 0, v + 1, q), Read(t.env, t.va, 0);
    assert HandlerOf(c, t.env).Idle?;
    assert HandlerOf(c', t.env).Idle?;
    assert [a] + [] == [a];
    TraceStep(c', a, []);
  }

  lemma FaultThenRead(c: State, s: Slot, t: Slot, v: int, q: nat)
    requires FaultReady(c, s, 0, q) && t in c.pt && t != s && c.mem[c.pt[t].page][0] == v
    ensures Trace(c, FaultRun(s, 0, v + 1, q) + [Read(t.env, t.va, 0)]) == [DidWrite(s, 0, v + 1), DidRead(t, 0, v)]
  {
    FaultTrace(c, s, 0, v + 1, q, [Read(t.env, t.va, 0)]);
    LastRead(c, s, t, v, q);
  }

  // After the parent's next write through s, t still reads the old byte.
  lemma AstrayTrace(c: State, p: nat, child: nat, spare: nat, s: Slot, t: Slot, v: int) returns (run: seq<Action>)
    requires ReadyToFork(c, p, child, spare) && Astray(c, p, s, t) && v == c.mem[c.pt[s].page][0]
    ensures Trace(c, [Fork(p, child, spare)] + run) == [DidFork(p, child), DidWrite(s, 0, v + 1), DidRead(t, 0, v)]
  {
    var read := Read(t.env, t.va, 0);
    var q := ForkThenFault(c, p, child, spare, s, t);
    run := FaultRun(s, 0, v + 1, q) + [read];
    FaultThenRead(CowFork(c, p, child, spare), s, t, v, q);
    TraceFork(c, p, child, spare, run, [DidWrite(s, 0, v + 1), DidRead(t, 0, v)]);
  }

  lemma EagerWriteThenRead(d: State, s: Slot, t: Slot, v: int)
    requires Backed(d) && s in d.pt && t in d.pt && d.pt[s].page == d.pt[t].page && d.pt[s].w
    ensures Enabled(d, DidWrite(s, 0, v + 1)) && !Enabled(Perform(d, DidWrite(s, 0, v + 1)), DidRead(t, 0, v))
  {
  }

  lemma EagerSeesWrite(c: State, p: nat, child: nat, s: Slot, t: Slot, v: int)
    requires Backed(c) && CanFork(c, p, child) && Astray(c, p, s, t)
    ensures Enabled(CopyFork(c, p, child), DidWrite(s, 0, v + 1))
    ensures !Enabled(Perform(CopyFork(c, p, child), DidWrite(s, 0, v + 1)), DidRead(t, 0, v))
  {
    EagerForkAt(c, p, child, s);
    EagerForkAt(c, p, child, t);
    EagerWriteThenRead(CopyFork(c, p, child), s, t, v);
  }

  // fork makes a write through s go astray: t, which has the same page, does not see it.
  lemma WriteGoesAstray(c: State, p: nat, child: nat, spare: nat, s: Slot, t: Slot) returns (run: seq<Action>)
    requires ReadyToFork(c, p, child, spare) && Astray(c, p, s, t)
    ensures !Explained(c, Trace(c, [Fork(p, child, spare)] + run))
  {
    var v := c.mem[c.pt[s].page][0];
    run := AstrayTrace(c, p, child, spare, s, t, v);
    assert !Explained(c, Trace(c, [Fork(p, child, spare)] + run)) by {
      EagerSeesWrite(c, p, child, s, t, v);
      NotExplained(c, p, child, DidWrite(s, 0, v + 1), DidRead(t, 0, v), Trace(c, [Fork(p, child, spare)] + run));
    }
  }

  // s would be duplicated, at an address other than 0, and t stays writable after the fork.
  ghost predicate Leaky(c: State, p: nat, s: Slot, t: Slot) {
    && Dupable(c, s) && s.env == p && s.va != 0 && AtOdds(c, s, t) && c.pt[t].w
    && (t.env == p && t.va < USTACKTOP ==> c.pt[t].share)
  }

  lemma ForkThenLeak(c: State, p: nat, child: nat, spare: nat, s: Slot, t: Slot)
    requires ReadyToFork(c, p, child, spare) && Leaky(c, p, s, t)
    ensures var c1, k := CowFork(c, p, child, spare), Slot(child, s.va);
            Quiet(c1) && t in c1.pt && c1.pt[t].w && k in c1.pt && c1.pt[k].page == c1.pt[t].page
  {
    CowForkAt(c, p, child, spare, Slot(child, s.va));
    CowForkAt(c, p, child, spare, t);
    CowForkQuiet(c, p, child, spare);
  }

  lemma TwoStepTrace(c: State, t: Slot, k: Slot, v: int)
    requires Backed(c) && Quiet(c) && t in c.pt && c.pt[t].w && k in c.pt && c.pt[k].page == c.pt[t].page
    ensures Trace(c, [Write(t.env, t.va, 0, v), Read(k.env, k.va, 0)]) == [DidWrite(t, 0, v), DidRead(k, 0, v)]
  {
    var write, read := Write(t.env, t.va, 0, v), Read(k.env, k.va, 0);
    assert HandlerOf(c, t.env).Idle? && HandlerOf(c, k.env).Idle?;
    assert [write] + [read] == [write, read] && [read] + [] == [read];
    TraceStep(c, write, [read]);
    var c' := Step(c, write).state;
    assert HandlerOf(c', k.env) == HandlerOf(c, k.env);
    TraceStep(c', read, []);
  }

  lemma LeakTrace(c: State, p: nat, child: nat, spare: nat, s: Slot, t: Slot, v: int) returns (run: seq<Action>)
    requires ReadyToFork(c, p, child, spare) && Leaky(c, p, s, t)
    ensures Trace(c, [Fork(p, child, spare)] + run)
            == [DidFork(p, child), DidWrite(t, 0, v), DidRead(Slot(child, s.va), 0, v)]
  {
    var k := Slot(child, s.va);
    ForkThenLeak(c, p, child, spare, s, t);
    run := [Write(t.env, t.va, 0, v), Read(k.env, k.va, 0)];
    TwoStepTrace(CowFork(c, p, child, spare), t, k, v);
    TraceFork(c, p, child, spare, run, [DidWrite(t, 0, v), DidRead(k, 0, v)]);
  }

  lemma EagerHidesWrite(c: State, p: nat, child: nat, s: Slot, t: Slot, v: int)
    requires Backed(c) && CanFork(c, p, child) && Leaky(c, p, s, t) && v != c.mem[c.pt[s].page][0]
    ensures Enabled(CopyFork(c, p, child), DidWrite(t, 0, v))
    ensures !Enabled(Perform(CopyFork(c, p, child), DidWrite(t, 0, v)), DidRead(Slot(child, s.va), 0, v))
  {
    EagerForkAt(c, p, child, Slot(child, s.va));
    EagerForkAt(c, p, child, t);
  }

  // The child sees a write made through t after the fork.
  lemma WriteLeaks(c: State, p: nat, child: nat, spare: nat, s: Slot, t: Slot) returns (run: seq<Action>)
    requires ReadyToFork(c, p, child, spare) && Leaky(c, p, s, t)
    ensures !Explained(c, Trace(c, [Fork(p, child, spare)] + run))
  {
    var v, k := c.mem[c.pt[s].page][0] + 1, Slot(child, s.va);
    run := LeakTrace(c, p, child, spare, s, t, v);
    assert !Explained(c, Trace(c, [Fork(p, child, spare)] + run)) by {
      EagerHidesWrite(c, p, child, s, t, v);
      NotExplained(c, p, child, DidWrite(t, 0, v), DidRead(k, 0, v), Trace(c, [Fork(p, child, spare)] + run));
    }
  }

  // ----- Page 0 -----

  // The child reads the zero page at address 0.
  lemma ZeroTrace(c: State, p: nat, child: nat, spare: nat, off: nat)
    requires ReadyToFork(c, p, child, spare) && Slot(p, 0) in c.pt && off < PGSIZE
    ensures Trace(c, [Fork(p, child, spare), Read(child, 0, off)])
            == [DidFork(p, child), DidRead(Slot(child, 0), off, c.mem[ZERO_PAGE][off])]
  {
    var fork, read, c1 := Fork(p, child, spare), Read(child, 0, off), CowFork(c, p, child, spare);
    assert [fork] + [read] == [fork, read];
    CowForkAt(c, p, child, spare, Slot(child, 0));
    CowForkQuiet(c, p, child, spare);
    OneRead(c1, Slot(child, 0), off);
    TraceFork(c, p, child, spare, [read], [DidRead(Slot(child, 0), off, c.mem[ZERO_PAGE][off])]);
  }

  lemma OneRead(c: State, s: Slot, off: nat)
    requires Backed(c) && Quiet(c) && s in c.pt && off < PGSIZE
    ensures Trace(c, [Read(s.env, s.va, off)]) == [DidRead(s, off, c.mem[c.pt[s].page][off])]
  {
    var read := Read(s.env, s.va, off);
    assert HandlerOf(c, s.env).Idle?;
    assert [read] + [] == [read];
    TraceStep(c, read, []);
  }

  // Under eager copying it reads what its parent has there.
  lemma ZeroNotExplained(d: State, p: nat, child: nat, off: nat, v: int)
    requires Backed(d) && Slot(p, 0) in d.pt && off < PGSIZE && d.mem[d.pt[Slot(p, 0)].page][off] != v
    ensures !Explained(d, [DidFork(p, child), DidRead(Slot(child, 0), off, v)])
  {
    var fork, read := DidFork(p, child), DidRead(Slot(child, 0), off, v);
    if CanFork(d, p, child) { EagerForkAt(d, p, child, Slot(child, 0)); }
    NotTwo(d, fork, read, [fork, read]);
  }

  // The page at address 0 is not a copy of the zero page: the child does not get it.
  lemma ZeroLost(c: State, p: nat) returns (run: seq<Action>)
    requires Backed(c) && Quiet(c) && Forkable(c, p) && Slot(p, 0) in c.pt
    requires c.mem[c.pt[Slot(p, 0)].page] != c.mem[ZERO_PAGE]
    ensures !Explained(c, Trace(c, run))
  {
    var child, spare := FreshFork(c, p);
    var mine, zero := c.mem[c.pt[Slot(p, 0)].page], c.mem[ZERO_PAGE];
    var off: nat :| off < PGSIZE && mine[off] != zero[off];
    run := [Fork(p, child, spare), Read(child, 0, off)];
    ZeroTrace(c, p, child, spare, off);
    ZeroNotExplained(c, p, child, off, zero[off]);
  }

  // Nor does the parent keep it, if it could write to it.
  lemma ZeroLostByParent(c: State, p: nat, child: nat, spare: nat)
    requires ReadyToFork(c, p, child, spare) && Slot(p, 0) in c.pt && !c.pt[Slot(p, 0)].share
    requires c.pt[Slot(p, 0)].w || c.pt[Slot(p, 0)].cow
    ensures CowFork(c, p, child, spare).pt[Slot(p, 0)] == Pte(ZERO_PAGE, false, true, false)
    ensures CopyFork(c, p, child).pt[Slot(p, 0)] == c.pt[Slot(p, 0)]
  {
    CowForkAt(c, p, child, spare, Slot(p, 0));
    EagerForkAt(c, p, child, Slot(p, 0));
  }

  // First somebody writes to the page at address 0 of p, then p forks.
  lemma StoreDiffers(c: State, p: nat, t: Slot, v: int)
    requires Backed(c) && Quiet(c) && NoWriter(c, ZERO_PAGE) && Forkable(c, p) && Slot(p, 0) in c.pt
    requires t in c.pt && c.pt[t].page == c.pt[Slot(p, 0)].page && c.pt[t].w && v != c.mem[ZERO_PAGE][0]
    ensures var c1 := StoreAt(c, t, 0, v);
            && Quiet(c1) && Forkable(c1, p) && c1.mem[ZERO_PAGE] == c.mem[ZERO_PAGE]
            && c1.mem[c1.pt[Slot(p, 0)].page][0] == v
    ensures Step(c, Write(t.env, t.va, 0, v)) == Outcome(StoreAt(c, t, 0, v), [DidWrite(t, 0, v)])
  {
    var c1 := StoreAt(c, t, 0, v);
    forall e ensures HandlerOf(c1, e).Idle? { assert HandlerOf(c1, e) == HandlerOf(c, e); }
    assert HandlerOf(c, t.env).Idle?;
  }

  lemma WrittenThenLost(c: State, p: nat, t: Slot) returns (run: seq<Action>)
    requires Backed(c) && Quiet(c) && NoWriter(c, ZERO_PAGE) && Forkable(c, p) && Slot(p, 0) in c.pt
    requires t in c.pt && c.pt[t].page == c.pt[Slot(p, 0)].page && c.pt[t].w
    ensures !Explained(c, Trace(c, run))
  {
    var v := c.mem[ZERO_PAGE][0] + 1;
    var c1, a := StoreAt(c, t, 0, v), Write(t.env, t.va, 0, v);
    StoreDiffers(c, p, t, v);
    var rest := ZeroLost(c1, p);
    run := [a] + rest;
    TraceStep(c, a, rest);
    FirstEvent(c, DidWrite(t, 0, v), Trace(c1, rest), Trace(c, run));
  }

  // The same through a page fault, where the page at address 0 is copy-on-write.
  lemma FaultedThenLost(c: State, p: nat) returns (run: seq<Action>)
    requires Formed(c) && Forkable(c, p) && Slot(p, 0) in c.pt && c.pt[Slot(p, 0)].cow && !c.pt[Slot(p, 0)].w
    ensures !Explained(c, Trace(c, run))
  {
    var z, v, q := Slot(p, 0), c.mem[ZERO_PAGE][0] + 1, SparePage(c);
    assert Dupable(c, z);
    var c1 := AfterFault(c, z, 0, v, q);
    AfterFaultQuiet(c, z, v, q);
    var child, spare := FreshFork(c1, p);
    var rest := [Fork(p, child, spare), Read(child, 0, 0)];
    run := FaultRun(z, 0, v, q) + rest;
    FaultTrace(c, z, 0, v, q, rest);
    ZeroTrace(c1, p, child, spare, 0);
    var d1, last := EagerWrite(c, z, 0, v), [DidFork(p, child), DidRead(Slot(child, 0), 0, v - 1)];
    ZeroNotExplained(d1, p, child, 0, v - 1);
    FirstEvent(c, DidWrite(z, 0, v), last, Trace(c, run));
  }

  lemma AfterFaultQuiet(c: State, s: Slot, v: int, q: nat)
    requires FaultReady(c, s, 0, q) && Forkable(c, s.env)
    ensures var c1 := AfterFault(c, s, 0, v, q);
            Quiet(c1) && Forkable(c1, s.env) && c1.mem[ZERO_PAGE] == c.mem[ZERO_PAGE]
  {
    var c1 := AfterFault(c, s, 0, v, q);
    forall e ensures HandlerOf(c1, e).Idle? { assert HandlerOf(c, e).Idle?; }
  }

  // Page 0 of some environment that can fork is not safe: a run shows it.
  lemma ZeroUnsafe(c: State, p: nat) returns (run: seq<Action>)
    requires Formed(c) && !ZeroSafeAt(c, p)
    ensures !Explained(c, Trace(c, run))
  {
    var m := c.pt[Slot(p, 0)];
    if c.mem[m.page] != c.mem[ZERO_PAGE] {
      run := ZeroLost(c, p);
    } else if t :| t in c.pt && c.pt[t].page == m.page && c.pt[t].w {
      run := WrittenThenLost(c, p, t);
    } else {
      run := FaultedThenLost(c, p);
    }
  }

  // ----- Exactly when -----

  // At address 0 of an environment that can fork, a safe page is at odds with no other.
  lemma ZeroNotAtOdds(c: State, p: nat, s: Slot, t: Slot)
    requires Backed(c) && ZeroSafe(c) && Forkable(c, p) && AtOdds(c, s, t)
    ensures s != Slot(p, 0) && t != Slot(p, 0)
  {
    assert ZeroSafeAt(c, p);
  }

  lemma NotSeparate(c: State, s: Slot, t: Slot) returns (run: seq<Action>)
    requires Formed(c) && ZeroSafe(c) && AtOdds(c, s, t) && Dupable(c, s)
    ensures !Explained(c, Trace(c, run))
  {
    var p := s.env;
    ZeroNotAtOdds(c, p, s, t);
    var child, spare := FreshFork(c, p);
    var rest: seq<Action>;
    if c.pt[s].w {
      rest := WriteGoesAstray(c, p, child, spare, s, t);
    } else if t.env == p && t.va < USTACKTOP && !c.pt[t].share {
      assert AtOdds(c, t, s);
      rest := WriteGoesAstray(c, p, child, spare, t, s);
    } else {
      rest := WriteLeaks(c, p, child, spare, s, t);
    }
    run := [Fork(p, child, spare)] + rest;
  }

  // Every run, with any forks of any environments, behaves like copying if and only if no mapping that fork duplicates
  // is at odds with another, and page 0 of every environment that can fork is safe.
  lemma FaithfulIff(c: State)
    requires Formed(c)
    ensures (forall run :: Explained(c, Trace(c, run))) <==> Separate(c) && ZeroSafe(c)
  {
    if ZeroSafe(c) {
      if Separate(c) {
        forall run ensures Explained(c, Trace(c, run)) { CowRefinesEager(c, run); }
      } else {
        var s, t :| AtOdds(c, s, t) && Dupable(c, s);
        var _ := NotSeparate(c, s, t);
      }
    } else {
      var p :| !ZeroSafeAt(c, p);
      var _ := ZeroUnsafe(c, p);
    }
  }
}
