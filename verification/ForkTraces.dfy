/**
  What programs can observe of copy-on-write fork is exactly what they can observe of eager copying: the events of a run
  are those of a run of the eager machine, and every run of the eager machine in which no fork panics is one.
 */
module ForkTraces {
  import opened CowMemory
  import opened EagerFork

  // The events can happen on the eager machine started in d, and no fork among them panics.
  ghost predicate Orderly(d: State, events: seq<Event>)
    requires Backed(d)
    decreases events
  {
    events == [] ||
    (&& Enabled(d, events[0]) && (events[0].DidFork? ==> Forkable(d, events[0].parent))
     && Orderly(Perform(d, events[0]), events[1..]))
  }

  ghost function PerformAll(d: State, events: seq<Event>): (d': State)
    requires Backed(d) && Orderly(d, events)
    ensures Backed(d')
    decreases events
  {
    if events == [] then d else PerformAll(Perform(d, events[0]), events[1..])
  }

  function After(c: State, run: seq<Action>): (c': State)
    requires Backed(c)
    ensures Backed(c')
    decreases run
  {
    if run == [] then c else After(Step(c, run[0]).state, run[1..])
  }

  // ----- Every run of the copy-on-write machine is orderly -----

  lemma FollowOrderly(x: set<nat>, c: State, d: State, a: Action)
    requires Alike(x, c, d) && Step(c, a).events != []
    ensures var ev := Step(c, a).events[0];
            && Step(c, a).events == [ev] && Enabled(d, ev) && (ev.DidFork? ==> Forkable(d, ev.parent))
            && Alike(x, Step(c, a).state, Perform(d, ev))
  {
    Follow(x, c, d, a);
    AtMostOne(x, c, d, a, Step(c, a).events);
  }

  lemma AtMostOne(x: set<nat>, c: State, d: State, a: Action, events: seq<Event>)
    requires Alike(x, c, d) && events == Step(c, a).events && events != []
    ensures events == [events[0]] && (events[0].DidFork? ==> Forkable(d, events[0].parent))
  {
    StepOk(x, c, a);
    if events[0].DidFork? { SameViewSameForks(x, c, d, events[0].parent, events[0].child); }
  }

  lemma OneMore(d: State, ev: Event, rest: seq<Event>, events: seq<Event>)
    requires Backed(d) && Enabled(d, ev) && (ev.DidFork? ==> Forkable(d, ev.parent)) && Orderly(Perform(d, ev), rest)
    requires events == [ev] + rest
    ensures Orderly(d, events) && PerformAll(d, events) == PerformAll(Perform(d, ev), rest)
  {
    assert events[1..] == rest;
  }

  lemma {:induction false} RunOrderly(x: set<nat>, c: State, d: State, run: seq<Action>)
    requires Alike(x, c, d)
    ensures Orderly(d, Trace(c, run)) && Alike(x, After(c, run), PerformAll(d, Trace(c, run)))
    decreases run
  {
    if run != [] {
      var o, rest := Step(c, run[0]), run[1..];
      if o.events == [] {
        StepOk(x, c, run[0]);
        RunOrderly(x, o.state, d, rest);
        assert Trace(c, run) == Trace(o.state, rest);
      } else {
        FollowOrderly(x, c, d, run[0]);
        RunOrderly(x, o.state, Perform(d, o.events[0]), rest);
        OneMore(d, o.events[0], Trace(o.state, rest), Trace(c, run));
      }
    }
  }

  // ----- Every orderly run of the eager machine is one of the copy-on-write machine -----

  lemma StepThen(c: State, a: Action, rest: seq<Action>)
    requires Backed(c)
    ensures Trace(c, [a] + rest) == Step(c, a).events + Trace(Step(c, a).state, rest)
    ensures After(c, [a] + rest) == After(Step(c, a).state, rest)
  {
    assert ([a] + rest)[1..] == rest;
  }

  lemma {:induction false} Joined(c: State, run: seq<Action>, more: seq<Action>)
    requires Backed(c)
    ensures Trace(c, run + more) == Trace(c, run) + Trace(After(c, run), more)
    ensures After(c, run + more) == After(After(c, run), more)
    decreases run
  {
    if run == [] {
      assert run + more == more;
    } else {
      var rest, o := run[1..], Step(c, run[0]);
      assert run + more == [run[0]] + (rest + more) && run == [run[0]] + rest;
      StepThen(c, run[0], rest + more);
      StepThen(c, run[0], rest);
      Joined(o.state, rest, more);
      Appended(o.events, Trace(o.state, rest), Trace(After(o.state, rest), more));
    }
  }

  lemma Appended<T>(a: seq<T>, b: seq<T>, c: seq<T>)
    ensures a + (b + c) == (a + b) + c
  {
  }

  lemma EventThen(c: State, run: seq<Action>, more: seq<Action>, events: seq<Event>)
    requires Backed(c) && events != [] && Trace(c, run) == [events[0]] && Trace(After(c, run), more) == events[1..]
    ensures Trace(c, run + more) == events
  {
    Joined(c, run, more);
    assert events == [events[0]] + events[1..];
  }

  lemma SpareIsUnused(c: State)
    requires Backed(c)
    ensures PageUnused(c, SparePage(c))
  {
    assert PageThere(c, ZERO_PAGE);
    forall s | s in c.pt ensures c.pt[s].page != SparePage(c) { assert PageThere(c, c.pt[s].page); }
  }

  function Handles(e: nat, spare: nat, n: nat): seq<Action> {
    if n == 0 then [] else [Handle(e, spare)] + Handles(e, spare, n - 1)
  }

  // The copy is made and mapped.
  lemma FirstHalf(c: State, s: Slot, off: nat, b: int, spare: nat)
    requires Backed(c) && HandlerOf(c, s.env) == Entered(s.va, off, b) && PageUnused(c, spare)
    requires s in c.pt && s.va != PFTEMP
    ensures var temp, run := Slot(s.env, PFTEMP), Handles(s.env, spare, 3);
            && Trace(c, run) == []
            && After(c, run) == State(c.pt[temp := Pte(spare, true, false, false)][s := Pte(spare, true, false, false)],
                                      c.mem[spare := c.mem[c.pt[s].page]], c.handler[s.env := Mapped(s.va, off, b)])
  {
    var e, temp := s.env, Slot(s.env, PFTEMP);
    var c1 := Step(c, Handle(e, spare)).state;
    var c2 := Step(c1, Handle(e, spare)).state;
    var c3 := Step(c2, Handle(e, spare)).state;
    StepThen(c, Handle(e, spare), Handles(e, spare, 2));
    StepThen(c1, Handle(e, spare), Handles(e, spare, 1));
    StepThen(c2, Handle(e, spare), Handles(e, spare, 0));
    assert c1 == State(c.pt[temp := Pte(spare, true, false, false)], c.mem[spare := seq(PGSIZE, i => 0)],
                       c.handler[e := Allocated(s.va, off, b)]);
    assert c2.mem == c.mem[spare := c.mem[c.pt[s].page]];
    assert c3.handler == c.handler[e := Mapped(s.va, off, b)];
  }

  // PFTEMP is unmapped and the write is done.
  lemma SecondHalf(c: State, s: Slot, off: nat, b: int, spare: nat)
    requires Backed(c) && HandlerOf(c, s.env) == Mapped(s.va, off, b) && s in c.pt && s.va != PFTEMP && off < PGSIZE
    ensures var temp, run := Slot(s.env, PFTEMP), Handles(s.env, spare, 2);
            && Trace(c, run) == [DidWrite(s, off, b)]
            && After(c, run).pt == c.pt - {temp} && After(c, run).handler == c.handler[s.env := Idle]
  {
    var e := s.env;
    var c1 := Step(c, Handle(e, spare)).state;
    StepThen(c, Handle(e, spare), Handles(e, spare, 1));
    StepThen(c1, Handle(e, spare), Handles(e, spare, 0));
    assert s in c1.pt && HandlerOf(c1, e) == Returning(s.va, off, b);
    assert c1.handler[e := Idle] == c.handler[e := Idle];
  }

  // Undisturbed, a write to a copy-on-write page is done when the handler has made its five steps, and nobody is inside
  // a page fault then.
  lemma FaultCompletes(c: State, s: Slot, off: nat, b: int) returns (run: seq<Action>)
    requires Backed(c) && Quiet(c) && s in c.pt && off < PGSIZE && !c.pt[s].w && c.pt[s].cow
    ensures Trace(c, run) == [DidWrite(s, off, b)] && Quiet(After(c, run))
  {
    var spare, e, write := SparePage(c), s.env, Write(s.env, s.va, off, b);
    SpareIsUnused(c);
    assert HandlerOf(c, e).Idle?;
    var c1 := Step(c, write).state;
    assert c1 == Enter(c, e, Entered(s.va, off, b)) && Step(c, write).events == [];
    var first, second := Handles(e, spare, 3), Handles(e, spare, 2);
    FirstHalf(c1, s, off, b, spare);
    SecondHalf(After(c1, first), s, off, b, spare);
    Joined(c1, first, second);
    StepThen(c, write, first + second);
    run := [write] + (first + second);
    forall f ensures HandlerOf(After(c, run), f).Idle? { assert HandlerOf(c, f).Idle?; }
  }

  lemma WriteCompletes(c: State, s: Slot, off: nat, b: int) returns (run: seq<Action>)
    requires Backed(c) && Quiet(c) && s in c.pt && off < PGSIZE && (c.pt[s].w || c.pt[s].cow)
    ensures Trace(c, run) == [DidWrite(s, off, b)] && Quiet(After(c, run))
  {
    if c.pt[s].w {
      assert HandlerOf(c, s.env).Idle?;
      StepThen(c, Write(s.env, s.va, off, b), []);
      run := [Write(s.env, s.va, off, b)] + [];
      forall f ensures HandlerOf(After(c, run), f).Idle? { assert HandlerOf(c, f).Idle?; }
    } else {
      run := FaultCompletes(c, s, off, b);
    }
  }

  lemma ReadCompletes(c: State, s: Slot, off: nat) returns (run: seq<Action>)
    requires Backed(c) && Quiet(c) && s in c.pt && off < PGSIZE
    ensures Trace(c, run) == [DidRead(s, off, c.mem[c.pt[s].page][off])] && Quiet(After(c, run))
  {
    assert HandlerOf(c, s.env).Idle?;
    StepThen(c, Read(s.env, s.va, off), []);
    run := [Read(s.env, s.va, off)] + [];
  }

  lemma ForkCompletes(c: State, p: nat, child: nat) returns (run: seq<Action>)
    requires Backed(c) && Quiet(c) && CanFork(c, p, child) && Forkable(c, p)
    ensures Trace(c, run) == [DidFork(p, child)] && Quiet(After(c, run))
  {
    var spare := SparePage(c);
    SpareIsUnused(c);
    StepThen(c, Fork(p, child, spare), []);
    run := [Fork(p, child, spare)] + [];
    var c' := CowFork(c, p, child, spare);
    assert After(c, run) == c';
    forall f ensures HandlerOf(c', f).Idle? { assert HandlerOf(c, f).Idle?; }
    forall s | s in c'.pt ensures s.va != PFTEMP { CowForkAt(c, p, child, spare, s); }
  }

  // What the eager machine can do, a copy-on-write machine that looks alike can do.
  lemma SameViewCanFork(x: set<nat>, c: State, d: State, p: nat, child: nat)
    requires Alike(x, c, d) && Quiet(c) && CanFork(d, p, child) && Forkable(d, p)
    ensures CanFork(c, p, child) && Forkable(c, p)
  {
    var z := Slot(p, 0);
    forall s | s in c.pt ensures s.env != child { assert s in ViewOf(x, c).cells; }
    assert HandlerOf(c, p).Idle? && HandlerOf(c, child).Idle?;
    if z in c.pt {
      assert z in ViewOf(x, d).cells && z in ViewOf(x, c).cells;
      assert CellOf(x, c, z) == CellOf(x, d, z);
      assert SlotFits(x, d, z) && SlotFits(x, c, z);
    }
  }

  lemma SameViewSlot(x: set<nat>, c: State, d: State, s: Slot)
    requires Alike(x, c, d) && s in d.pt
    ensures s in c.pt && CellOf(x, c, s) == CellOf(x, d, s)
    ensures c.pt[s].w || c.pt[s].cow <==> d.pt[s].w || d.pt[s].cow
  {
    assert s in ViewOf(x, d).cells && s in ViewOf(x, c).cells;
    assert ViewOf(x, c).cells[s] == ViewOf(x, d).cells[s];
  }

  lemma Completes(x: set<nat>, c: State, d: State, ev: Event) returns (run: seq<Action>)
    requires Alike(x, c, d) && Quiet(c) && Enabled(d, ev) && (ev.DidFork? ==> Forkable(d, ev.parent))
    ensures Trace(c, run) == [ev] && Quiet(After(c, run)) && Alike(x, After(c, run), Perform(d, ev))
  {
    run := Does(x, c, d, ev);
    RunOrderly(x, c, d, run);
    assert [ev][1..] == [] && PerformAll(d, [ev]) == Perform(d, ev);
  }

  lemma Does(x: set<nat>, c: State, d: State, ev: Event) returns (run: seq<Action>)
    requires Alike(x, c, d) && Quiet(c) && Enabled(d, ev) && (ev.DidFork? ==> Forkable(d, ev.parent))
    ensures Trace(c, run) == [ev] && Quiet(After(c, run))
  {
    match ev
    case DidRead(s, off, v) =>
      SameViewSlot(x, c, d, s);
      ViewCovers(x, c, s, off);
      ViewCovers(x, d, s, off);
      run := ReadCompletes(c, s, off);
    case DidWrite(s, off, b) =>
      SameViewSlot(x, c, d, s);
      run := WriteCompletes(c, s, off, b);
    case DidFork(p, child) =>
      SameViewCanFork(x, c, d, p, child);
      run := ForkCompletes(c, p, child);
  }

  lemma {:induction false} EagerReached(x: set<nat>, c: State, d: State, events: seq<Event>) returns (run: seq<Action>)
    requires Alike(x, c, d) && Quiet(c) && Orderly(d, events)
    ensures Trace(c, run) == events
    decreases events
  {
    run := [];
    if events != [] {
      var ev, rest := events[0], events[1..];
      var first := Completes(x, c, d, ev);
      var more := EagerReached(x, After(c, first), Perform(d, ev), rest);
      EventThen(c, first, more, events);
      run := first + more;
    }
  }

  // From a state in which no mapping that fork duplicates is at odds with another and page 0 is safe, the sequences of
  // reads, writes and forks that can be observed are exactly those of eager copying in which no fork panics.
  lemma SameTraces(c: State, events: seq<Event>)
    requires Formed(c) && Separate(c) && ZeroSafe(c)
    ensures (exists run :: Trace(c, run) == events) <==> Orderly(c, events)
  {
    var x := CommonPages(c);
    StartInv(c);
    if Orderly(c, events) {
      var run := EagerReached(x, c, c, events);
    }
    forall run | Trace(c, run) == events ensures Orderly(c, events) { RunOrderly(x, c, c, run); }
  }
}
