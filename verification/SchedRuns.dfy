/** Whole runs of the kernel: any traps of any processors, one after the other. */
module SchedRuns {
  import opened SchedSpec
  import opened Words

  datatype Event = Event(cpu: nat, action: Action)

  // One trap, within the side conditions, after which the lock is released.
  ghost predicate StepOk(s: State, v: Event, s': State) {
    && Leads(s, v.cpu, v.action, s')
    && Allowed(s, v.cpu, v.action) && !Stuck(Handled(s, v.cpu, v.action))
  }

  ghost predicate IsRun(states: seq<State>, events: seq<Event>) {
    && |states| == |events| + 1
    && forall k: nat :: k < |events| ==> StepAt(states, events, k)
  }

  ghost predicate StepAt(states: seq<State>, events: seq<Event>, k: nat)
    requires |states| == |events| + 1 && k < |events|
  {
    StepOk(states[k], events[k], states[k + 1])
  }

  lemma StepKeepsInv(s: State, v: Event, s': State)
    requires StepOk(s, v, s') && Inv(s)
    ensures Inv(s')
  {
    TrapKeepsInv(s, v.cpu, v.action);
  }

  lemma NextKeepsInv(states: seq<State>, events: seq<Event>, k: nat)
    requires IsRun(states, events) && k < |events| && Inv(states[k])
    ensures Inv(states[k + 1])
  {
    assert StepAt(states, events, k);
    StepKeepsInv(states[k], events[k], states[k + 1]);
  }

  // At every release of the lock the invariant holds.
  lemma {:induction false} RunKeepsInv(states: seq<State>, events: seq<Event>, k: nat)
    requires IsRun(states, events) && Inv(states[0]) && k <= |events|
    ensures Inv(states[k])
  {
    if k > 0 {
      RunKeepsInv(states, events, k - 1);
      NextKeepsInv(states, events, k - 1);
    }
  }

  // ----- Bounded bypass -----

  // The environment that sched_yield selects in this trap, or -1.
  ghost function Selected(s: State, v: Event): int
    requires Shape(s) && v.cpu < |s.cur| && Shape(Handled(s, v.cpu, v.action))
    requires |Handled(s, v.cpu, v.action).cur| == |s.cur|
  {
    var s1 := Handled(s, v.cpu, v.action);
    if GoesOn(s1, v.cpu, v.action.Yield?) then -1 else Chosen(s1, v.cpu)
  }

  // 1 if f is selected in this trap, otherwise 0.
  ghost function Hit(s: State, v: Event, f: nat): nat {
    if && Shape(s) && v.cpu < |s.cur| && Shape(Handled(s, v.cpu, v.action))
       && |Handled(s, v.cpu, v.action).cur| == |s.cur| && Selected(s, v) == f
    then 1 else 0
  }

  ghost function TimesSelected(states: seq<State>, events: seq<Event>, f: nat, k: nat): nat
    requires |states| == |events| + 1 && k <= |events|
  {
    if k == 0 then 0 else TimesSelected(states, events, f, k - 1) + Hit(states[k - 1], events[k - 1], f)
  }

  // What the kernel does before choosing changes no run counter, unless an environment is created.
  lemma HandledRuns(s: State, v: Event, i: nat)
    requires Shape(s) && v.cpu < |s.cur| && i < NENV && !v.action.Exofork?
    ensures |Handled(s, v.cpu, v.action).envs| == NENV && Handled(s, v.cpu, v.action).envs[i].runs == s.envs[i].runs
  {
  }

  // What the end of a trap does to environment i.
  lemma ResumeRuns(s: State, c: nat, givesUp: bool, i: nat)
    requires |s.envs| == NENV && c < |s.cur| && -1 <= s.cur[c] < NENV && i < NENV
    ensures var s' := Resume(s, c, givesUp);
            && |s'.envs| == NENV && s'.envs[i].runs >= s.envs[i].runs
            && (!GoesOn(s, c, givesUp) && Chosen(s, c) == i ==> s'.envs[i].runs == s.envs[i].runs + 1)
            && (i != s.cur[c] && s'.envs[i].status == RUNNABLE ==>
                  s.envs[i].status == RUNNABLE && s'.envs[i].runs == s.envs[i].runs)
  {
  }

  lemma StepRuns(s: State, v: Event, s': State, i: nat)
    requires StepOk(s, v, s') && i < NENV && !v.action.Exofork?
    ensures |s'.envs| == NENV && s'.envs[i].runs >= s.envs[i].runs
    ensures Selected(s, v) == i ==> s'.envs[i].runs == s.envs[i].runs + 1
  {
    HandledRuns(s, v, i);
    ResumeRuns(Handled(s, v.cpu, v.action), v.cpu, v.action.Yield?, i);
  }

  lemma HandledCur(s: State, v: Event)
    requires Shape(s) && v.cpu < |s.cur|
    ensures var s1 := Handled(s, v.cpu, v.action);
            |s1.cur| == |s.cur| && (s1.cur[v.cpu] == s.cur[v.cpu] || s1.cur[v.cpu] == -1)
  {
  }

  // An environment that is runnable before and after was runnable when the choice was made, and was not chosen.
  lemma StaysRunnable(s: State, v: Event, s': State, e: nat)
    requires StepOk(s, v, s') && Inv(s) && e < NENV && !v.action.Exofork?
    requires s.envs[e].status == RUNNABLE && |s'.envs| == NENV && s'.envs[e].status == RUNNABLE
    ensures var s1 := Handled(s, v.cpu, v.action); s1.envs[e].status == RUNNABLE && s1.envs[e].runs == s.envs[e].runs
    ensures s'.envs[e].runs == s.envs[e].runs
  {
    assert Busy(s, v.cpu);
    HandledRuns(s, v, e);
    HandledCur(s, v);
    ResumeRuns(Handled(s, v.cpu, v.action), v.cpu, v.action.Yield?, e);
  }

  // Whoever is selected while e is runnable has not run more than e.
  lemma SelectedBefore(s: State, v: Event, s': State, e: nat)
    requires StepOk(s, v, s') && Inv(s) && e < NENV && !v.action.Exofork?
    requires s.envs[e].status == RUNNABLE && |s'.envs| == NENV && s'.envs[e].status == RUNNABLE
    ensures var f := Selected(s, v); 0 <= f < NENV ==> s.envs[f].runs <= s.envs[e].runs
  {
    StaysRunnable(s, v, s', e);
    var f := Selected(s, v);
    if f >= 0 {
      var s1 := Handled(s, v.cpu, v.action);
      FullScan(s1.envs, StartOf(s1, v.cpu), e);
      HandledRuns(s, v, f);
    }
  }

  // Up to state k, e is runnable and no environment is created.
  ghost predicate Patient(states: seq<State>, events: seq<Event>, e: nat, k: nat)
    requires |states| == |events| + 1
  {
    && k <= |events| && e < NENV
    && (forall j: nat :: j <= k ==> RunnableAt(states[j], e))
    && (forall j: nat :: j < k ==> !events[j].action.Exofork?)
  }

  ghost predicate RunnableAt(s: State, e: nat) {
    e < NENV && |s.envs| == NENV && s.envs[e].status == RUNNABLE
  }

  // One step of the count.
  lemma OneStep(states: seq<State>, events: seq<Event>, e: nat, f: nat, k: nat)
    requires IsRun(states, events) && Inv(states[0]) && f < NENV && k < |events| && Patient(states, events, e, k + 1)
    ensures |states[k].envs| == NENV && |states[k + 1].envs| == NENV
    ensures states[k + 1].envs[e].runs == states[k].envs[e].runs
    ensures states[k + 1].envs[f].runs >= states[k].envs[f].runs + Hit(states[k], events[k], f)
    ensures Hit(states[k], events[k], f) > 0 ==> states[k].envs[f].runs <= states[k].envs[e].runs
  {
    RunKeepsInv(states, events, k);
    assert StepAt(states, events, k);
    var s, v, s' := states[k], events[k], states[k + 1];
    assert RunnableAt(s, e) && RunnableAt(s', e);
    StaysRunnable(s, v, s', e);
    StepRuns(s, v, s', f);
    SelectedBefore(s, v, s', e);
  }

  // While e is runnable and nothing is created, f is selected at most max(0, e.runs - f.runs + 1) times.
  lemma {:induction false} BoundedBypass(states: seq<State>, events: seq<Event>, e: nat, f: nat, k: nat)
    requires IsRun(states, events) && Inv(states[0]) && f < NENV && Patient(states, events, e, k)
    ensures |states[k].envs| == NENV && states[k].envs[e].runs == states[0].envs[e].runs
    ensures states[k].envs[f].runs >= states[0].envs[f].runs + TimesSelected(states, events, f, k)
    ensures var left := states[0].envs[e].runs - states[0].envs[f].runs + 1;
            TimesSelected(states, events, f, k) <= if left > 0 then left else 0
  {
    if k > 0 {
      var m := k - 1;
      BoundedBypass(states, events, e, f, m);
      OneStep(states, events, e, f, m);
      var times, hit := TimesSelected(states, events, f, m), Hit(states[m], events[m], f);
      assert TimesSelected(states, events, f, k) == times + hit;
    } else {
      assert RunnableAt(states[0], e);
    }
  }

  // ----- Messages -----

  // What the receiver is told: value, sender, permission.
  function Message(e: Env): (int, int, int) {
    (e.value, e.from, e.perm)
  }

  // The current environment of the trapping processor makes a system call.
  ghost predicate Calls(s: State, v: Event)
    requires Shape(s)
  {
    v.cpu < |s.cur| && s.cur[v.cpu] >= 0 && s.envs[s.cur[v.cpu]].status != DYING
  }

  // A send to i succeeds.
  ghost predicate Delivery(s: State, v: Event, i: nat)
    requires Shape(s)
  {
    && Calls(s, v) && v.action.Send? && Delivers(s, v.cpu, v.action)
    && Lookup(s, v.cpu, v.action.envid, false) == i
  }

  // i calls sys_ipc_recv.
  ghost predicate Reception(s: State, v: Event, i: nat)
    requires Shape(s)
  {
    Calls(s, v) && v.action.Recv? && GoodVa(v.action.dstva) && s.cur[v.cpu] == i
  }

  // A send fails for exactly these reasons, and then the whole trap changes nothing but the sender's run counter.
  lemma FailedSend(s: State, v: Event, s': State)
    requires StepOk(s, v, s') && Inv(s) && Calls(s, v) && v.action.Send?
    ensures var a, c := v.action, v.cpu;
            !Delivers(s, c, a) <==>
            || a.envid == 0 || !GoodVa(a.srcva)
            || (forall k :: 0 <= k < NENV && s.envs[k].status != FREE && s.envs[k].id == a.envid ==>
                  || !s.envs[k].recving
                  || (s.envs[k].dstva != 0 && a.srcva != 0 &&
                      (a.page == NoPage || a.page == NoMemory || (a.page == ReadOnly && (a.perm / 2) % 2 == 1))))
    ensures !Delivers(s, v.cpu, v.action) ==>
              var i := s.cur[v.cpu]; s' == SetEnv(s, i, s.envs[i].(runs := s.envs[i].runs + 1))
  {
    var a, c := v.action, v.cpu;
    var i := Lookup(s, c, a.envid, false);
    assert Busy(s, c) && Sound(s, s.cur[c]);
    if a.envid != 0 { LookupIsExact(s, c, a.envid, false); }
    forall k | 0 <= k < NENV && s.envs[k].status != FREE && s.envs[k].id == a.envid ensures a.envid == 0 || k == i {
      assert Sound(s, k);
    }
  }

  lemma HandledMessage(s: State, v: Event, i: nat)
    requires Shape(s) && v.cpu < |s.cur| && i < NENV
    ensures var s1 := Handled(s, v.cpu, v.action);
            && |s1.envs| == NENV
            && (!Delivery(s, v, i) ==> Message(s1.envs[i]) == Message(s.envs[i]))
            && (Delivery(s, v, i) ==>
                  && s.envs[i].recving && !s1.envs[i].recving && s1.envs[i].value == v.action.value
                  && s1.envs[i].from == s.envs[s.cur[v.cpu]].id
                  && s1.envs[i].perm == if s.envs[i].dstva != 0 && v.action.srcva != 0
                                        then BitOr(v.action.perm, PTE_U_P) else 0)
            && (!Reception(s, v, i) && !s.envs[i].recving ==> !s1.envs[i].recving)
  {
  }

  lemma EnvRunMessage(s: State, c: nat, j: nat, i: nat)
    requires |s.envs| == NENV && c < |s.cur| && -1 <= s.cur[c] < NENV && j < NENV && i < NENV
    ensures var e, e' := s.envs[i], EnvRun(s, c, j).envs[i]; Message(e') == Message(e) && e'.recving == e.recving
  {
  }

  lemma StepMessage(s: State, v: Event, s': State, i: nat)
    requires StepOk(s, v, s') && i < NENV
    ensures |s'.envs| == NENV
    ensures var s1 := Handled(s, v.cpu, v.action);
            Message(s'.envs[i]) == Message(s1.envs[i]) && s'.envs[i].recving == s1.envs[i].recving
  {
    var s1, c := Handled(s, v.cpu, v.action), v.cpu;
    if s1.cur[c] >= 0 { EnvRunMessage(s1, c, s1.cur[c], i); }
    if Chosen(s1, c) >= 0 { EnvRunMessage(s1, c, Chosen(s1, c), i); }
  }

  ghost function Delivered(states: seq<State>, events: seq<Event>, i: nat, k: nat): nat
    requires IsRun(states, events) && k < |events|
  {
    assert StepAt(states, events, k);
    if Delivery(states[k], events[k], i) then 1 else 0
  }

  ghost function Deliveries(states: seq<State>, events: seq<Event>, i: nat, k: nat): nat
    requires IsRun(states, events) && k <= |events|
  {
    if k == 0 then 0 else Deliveries(states, events, i, k - 1) + Delivered(states, events, i, k - 1)
  }

  ghost predicate NoReception(states: seq<State>, events: seq<Event>, i: nat, k: nat)
    requires IsRun(states, events) && k <= |events|
  {
    forall j: nat :: j < k ==> QuietAt(states, events, i, j)
  }

  ghost predicate QuietAt(states: seq<State>, events: seq<Event>, i: nat, j: nat)
    requires IsRun(states, events) && j < |events|
  {
    assert StepAt(states, events, j);
    !Reception(states[j], events[j], i)
  }

  lemma MessageStep(states: seq<State>, events: seq<Event>, i: nat, k: nat)
    requires IsRun(states, events) && k < |events| && i < NENV && QuietAt(states, events, i, k)
    ensures |states[k].envs| == NENV && |states[k + 1].envs| == NENV
    ensures !states[k].envs[i].recving ==>
              && Delivered(states, events, i, k) == 0 && !states[k + 1].envs[i].recving
              && Message(states[k + 1].envs[i]) == Message(states[k].envs[i])
    ensures Delivered(states, events, i, k) == 1 ==> !states[k + 1].envs[i].recving
  {
    assert StepAt(states, events, k);
    HandledMessage(states[k], events[k], i);
    StepMessage(states[k], events[k], states[k + 1], i);
  }

  // Between two receptions of i at most one send to it succeeds, and nothing overwrites what was delivered.
  lemma {:induction false} AtMostOneDelivery(states: seq<State>, events: seq<Event>, i: nat, k: nat)
    requires IsRun(states, events) && |events| > 0 && k <= |events| && i < NENV && NoReception(states, events, i, k)
    ensures |states[0].envs| == NENV && |states[k].envs| == NENV
    ensures Deliveries(states, events, i, k) <= if states[0].envs[i].recving then 1 else 0
    ensures Deliveries(states, events, i, k) == 1 || !states[0].envs[i].recving ==> !states[k].envs[i].recving
    ensures !states[0].envs[i].recving ==> Message(states[k].envs[i]) == Message(states[0].envs[i])
  {
    if k > 0 {
      AtMostOneDelivery(states, events, i, k - 1);
      assert QuietAt(states, events, i, k - 1);
      MessageStep(states, events, i, k - 1);
    } else {
      assert StepAt(states, events, 0);
    }
  }

  // ----- Stale ids -----

  // The id of slot i after n more allocations.
  function IdAfter(id: int, i: nat, n: nat): int {
    if n == 0 then id else NewId(IdAfter(id, i, n - 1), i)
  }

  const GENERATIONS: nat := 524287

  // The id of slot i in generation g.
  function IdOf(g: nat, i: nat): int {
    g * GENERATION + i
  }

  function NextGeneration(g: nat): nat {
    if g == GENERATIONS then 1 else g + 1
  }

  // Generations run from 1 to GENERATIONS, round and round.
  function GenerationAfter(g: nat, n: nat): (r: nat)
    requires g >= 1
    ensures 1 <= r <= GENERATIONS
  {
    (g - 1 + n) % GENERATIONS + 1
  }

  lemma NewIdIsNext(g: nat, i: nat)
    requires 1 <= g <= GENERATIONS && i < NENV
    ensures NewId(IdOf(g, i), i) == IdOf(NextGeneration(g), i)
  {
    var y := (g + 1) * GENERATION + i;
    assert IdOf(g, i) + GENERATION == y;
    DivModUnique(y, 0, y, 0x1_0000_0000);
    if g == GENERATIONS {
      DivModUnique(Wrap32(y), -0x20_0000, i, NENV);
    } else {
      DivModUnique(y, (g + 1) * 4, i, NENV);
    }
  }

  lemma OneGenerationMore(g: nat, n: nat)
    requires 1 <= g
    ensures GenerationAfter(g, n + 1) == NextGeneration(GenerationAfter(g, n))
  {
    NextRemainder(g - 1 + n, GENERATIONS);
  }

  lemma {:induction false} IdCounts(g: nat, i: nat, n: nat)
    requires 1 <= g <= GENERATIONS && i < NENV
    ensures IdAfter(IdOf(g, i), i, n) == IdOf(GenerationAfter(g, n), i)
  {
    if n == 0 {
      assert GenerationAfter(g, 0) == g;
    } else {
      IdCounts(g, i, n - 1);
      NewIdIsNext(GenerationAfter(g, n - 1), i);
      OneGenerationMore(g, n - 1);
    }
  }

  // An old id names a later environment of its slot only after all generations have been used.
  lemma StaleId(g: nat, i: nat, n: nat)
    requires 1 <= g <= GENERATIONS && i < NENV
    ensures IdAfter(IdOf(g, i), i, n) == IdOf(g, i) <==> n % GENERATIONS == 0
  {
    IdCounts(g, i, n);
    var q, r := n / GENERATIONS, n % GENERATIONS;
    var sum := g - 1 + r;
    if sum < GENERATIONS {
      DivModUnique(g - 1 + n, q, sum, GENERATIONS);
    } else {
      DivModUnique(g - 1 + n, q + 1, sum - GENERATIONS, GENERATIONS);
    }
  }

  // Step v creates an environment in slot i.
  ghost predicate Creates(s: State, v: Event, i: nat)
    requires Shape(s)
  {
    Calls(s, v) && v.action.Exofork? && v.action.vmOk && s.free != [] && s.free[0] == i
  }

  ghost function Created(s: State, v: Event, i: nat): nat {
    if Shape(s) && Creates(s, v, i) then 1 else 0
  }

  // How many environments have been created in slot i by state k.
  ghost function Creations(states: seq<State>, events: seq<Event>, i: nat, k: nat): nat
    requires |states| == |events| + 1 && k <= |events|
  {
    if k == 0 then 0 else Creations(states, events, i, k - 1) + Created(states[k - 1], events[k - 1], i)
  }

  lemma HandledId(s: State, v: Event, i: nat)
    requires Shape(s) && v.cpu < |s.cur| && i < NENV
    ensures |Handled(s, v.cpu, v.action).envs| == NENV
    ensures Handled(s, v.cpu, v.action).envs[i].id ==
            if Creates(s, v, i) then NewId(s.envs[i].id, i) else s.envs[i].id
  {
  }

  lemma StepId(s: State, v: Event, s': State, i: nat)
    requires StepOk(s, v, s') && i < NENV
    ensures |s'.envs| == NENV
    ensures s'.envs[i].id == if Creates(s, v, i) then NewId(s.envs[i].id, i) else s.envs[i].id
  {
    HandledId(s, v, i);
  }

  lemma OneCreation(states: seq<State>, events: seq<Event>, id: int, i: nat, m: nat, k: nat)
    requires |states| == |events| + 1 && k == m + 1 && k <= |events| && Shape(states[m])
    ensures var before := IdAfter(id, i, Creations(states, events, i, m));
            IdAfter(id, i, Creations(states, events, i, k)) ==
            if Creates(states[m], events[m], i) then NewId(before, i) else before
  {
    var n, more := Creations(states, events, i, m), Created(states[m], events[m], i);
    assert Creations(states, events, i, k) == n + more;
  }

  // In every run the id of a slot is decided by how many environments have been created in it.
  lemma {:induction false} IdsCount(states: seq<State>, events: seq<Event>, i: nat, k: nat)
    requires IsRun(states, events) && k <= |events| && |states[0].envs| == NENV && i < NENV
    ensures |states[k].envs| == NENV
    ensures states[k].envs[i].id == IdAfter(states[0].envs[i].id, i, Creations(states, events, i, k))
  {
    if k > 0 {
      var m := k - 1;
      IdsCount(states, events, i, m);
      assert StepAt(states, events, m);
      StepId(states[m], events[m], states[m + 1], i);
      OneCreation(states, events, states[0].envs[i].id, i, m, k);
    }
  }

  lemma IdOfSlot(g: nat, i: nat)
    requires 1 <= g && i < NENV
    ensures IdOf(g, i) != 0 && IdOf(g, i) % NENV == i
  {
    DivModUnique(IdOf(g, i), g * 4, i, NENV);
  }

  // In every run, an id taken down at the start names something in state k exactly if its slot is in use there and the
  // environments created in the slot since then are a multiple of all generations.
  lemma StaleIdInRuns(states: seq<State>, events: seq<Event>, g: nat, i: nat, k: nat, c: nat)
    requires IsRun(states, events) && k <= |events| && i < NENV && 1 <= g <= GENERATIONS
    requires |states[0].envs| == NENV && states[0].envs[i].id == IdOf(g, i)
    requires c < |states[k].cur| && 0 <= states[k].cur[c] < NENV
    ensures |states[k].envs| == NENV
    ensures Lookup(states[k], c, IdOf(g, i), false) != -1 <==>
            states[k].envs[i].status != FREE && Creations(states, events, i, k) % GENERATIONS == 0
    ensures Lookup(states[k], c, IdOf(g, i), true) != -1 ==> Creations(states, events, i, k) % GENERATIONS == 0
  {
    IdsCount(states, events, i, k);
    IdOfSlot(g, i);
    StaleId(g, i, Creations(states, events, i, k));
  }

  // A system call that names an id reaches only an environment that has this id now.
  lemma LookupIsExact(s: State, c: nat, envid: int, checkperm: bool)
    requires Shape(s) && c < |s.cur| && s.cur[c] >= 0 && envid != 0
    ensures var i := Lookup(s, c, envid, checkperm);
            && (i != -1 ==> s.envs[i].id == envid && s.envs[i].status != FREE)
            && (i == -1 && !checkperm && Inv(s) ==>
                  forall k :: 0 <= k < NENV && s.envs[k].status != FREE ==> s.envs[k].id != envid)
  {
    if Inv(s) {
      forall k: nat | k < NENV && s.envs[k].status != FREE ensures s.envs[k].id % NENV == k { assert Sound(s, k); }
    }
  }

  // ----- The side conditions are needed -----

  // sys_env_set_status keeps the invariant exactly within its side condition.
  lemma SetStatusExact(s: State, c: nat, envid: int, status: Status)
    requires InKernel(s, c) && s.cur[c] >= 0 && s.envs[s.cur[c]].status == RUNNING
    requires (status == RUNNABLE || status == NOT_RUNNABLE) && Lookup(s, c, envid, true) != -1
    ensures InKernel(PutStatus(s, c, envid, status), c) <==> Allowed(s, c, SetStatus(envid, status))
  {
    var i, s' := Lookup(s, c, envid, true), PutStatus(s, c, envid, status);
    if Allowed(s, c, SetStatus(envid, status)) {
      PutStatusInKernel(s, c, envid, status);
    } else if Active(s.envs[i]) {
      assert Placed(s, i);
      var b: nat :| b < |s.cur| && s.cur[b] == i;
      assert !Busy(s', b);
    } else {
      assert !Sound(s', i);
    }
  }

  // env_destroy keeps the invariant exactly when its target is not dying already.
  lemma DestroyExact(s: State, c: nat, i: nat)
    requires InKernel(s, c) && s.cur[c] >= 0 && s.envs[s.cur[c]].status == RUNNING && i < NENV && s.envs[i].status != FREE
    ensures InKernel(EnvDestroy(s, c, i), c) <==> s.envs[i].status != DYING
  {
    var s' := EnvDestroy(s, c, i);
    if s.envs[i].status != DYING {
      DestroyInKernel(s, c, i);
    } else {
      assert Placed(s, i);
      var b: nat :| b < |s.cur| && s.cur[b] == i;
      assert !Busy(s', b);
    }
  }

  // Two environments and two processors; all other slots are free.
  function Pair(a: Env, b: Env, cur0: int, cur1: int): (s: State)
    requires -1 <= cur0 <= 1 && -1 <= cur1 <= 1
    ensures Shape(s)
  {
    var unused := Env(0, FREE, 0, 0, false, 0, 0, 0, 0);
    State(seq(NENV, i => if i == 0 then a else if i == 1 then b else unused), [cur0, cur1],
          seq(NENV - 2, k requires k >= 0 => k + 2))
  }

  function Sender(runs: nat, status: Status): Env {
    Env(4096, status, runs, 0, false, 0, 0, 0, 0)
  }

  function Child(status: Status, runs: nat, recving: bool, value: int): Env {
    Env(4097, status, runs, 4096, recving, 0, if recving then 0 else 4096, value, 0)
  }

  lemma OneRunnable(envs: seq<Env>, start: nat, i: nat)
    requires |envs| == NENV && start < NENV && i < NENV && envs[i].status == RUNNABLE
    requires forall k :: 0 <= k < NENV && envs[k].status == RUNNABLE ==> k == i
    ensures Pick(envs, start, NENV) == i
  {
    FullScan(envs, start, i);
  }

  lemma FirstInv()
    ensures Inv(Pair(Sender(1, RUNNING), Child(NOT_RUNNABLE, 1, true, 0), 0, -1))
  {
    var s0 := Pair(Sender(1, RUNNING), Child(NOT_RUNNABLE, 1, true, 0), 0, -1);
    forall i: nat | i < NENV ensures Placed(s0, i) && Sound(s0, i) {
      if i == 0 { assert s0.cur[0] == 0; }
      if i >= 2 { assert s0.free[i - 2] == i; }
    }
  }

  lemma MadeRunnable()
    ensures Leads(Pair(Sender(1, RUNNING), Child(NOT_RUNNABLE, 1, true, 0), 0, -1), 0, SetStatus(4097, RUNNABLE),
                  Pair(Sender(2, RUNNING), Child(RUNNABLE, 1, true, 0), 0, -1))
  {
  }

  lemma RunsOnOne()
    ensures Leads(Pair(Sender(2, RUNNING), Child(RUNNABLE, 1, true, 0), 0, -1), 1, Yield,
                  Pair(Sender(2, RUNNING), Child(RUNNING, 2, true, 0), 0, 1))
  {
    var s := Pair(Sender(2, RUNNING), Child(RUNNABLE, 1, true, 0), 0, -1);
    OneRunnable(s.envs, 0, 1);
  }

  lemma SentWhileRunning()
    ensures Leads(Pair(Sender(2, RUNNING), Child(RUNNING, 2, true, 0), 0, 1), 0, Send(4097, 7, 0, 0, NoPage),
                  Pair(Sender(3, RUNNING), Child(RUNNABLE, 2, false, 7), 0, 1))
  {
  }

  lemma YieldLeads(s: State, c: nat, p: nat)
    requires Shape(s) && c < |s.cur| && s.cur[c] >= 0 && s.envs[s.cur[c]].status != DYING && Chosen(s, c) == p
    ensures p < NENV && Leads(s, c, Yield, EnvRun(s, c, p))
  {
  }

  lemma PairSwitches()
    ensures EnvRun(Pair(Sender(3, RUNNING), Child(RUNNABLE, 2, false, 7), 0, 1), 0, 1) ==
            Pair(Sender(3, RUNNABLE), Child(RUNNING, 3, false, 7), 1, 1)
  {
  }

  lemma RunsOnBoth()
    ensures Leads(Pair(Sender(3, RUNNING), Child(RUNNABLE, 2, false, 7), 0, 1), 0, Yield,
                  Pair(Sender(3, RUNNABLE), Child(RUNNING, 3, false, 7), 1, 1))
  {
    var s := Pair(Sender(3, RUNNING), Child(RUNNABLE, 2, false, 7), 0, 1);
    OneRunnable(s.envs, StartOf(s, 0), 1);
    YieldLeads(s, 0, 1);
    PairSwitches();
  }

  // A waiting receiver is made runnable by its parent while it is neither running nor dying. It is then sent a
  // message while it runs, and ends up as the current environment of both processors.
  lemma ReceiverOnTwoProcessors(s0: State)
    requires s0 == Pair(Sender(1, RUNNING), Child(NOT_RUNNABLE, 1, true, 0), 0, -1)
    ensures Inv(s0) && exists s1, s2, s3, s4 ::
              && Leads(s0, 0, SetStatus(4097, RUNNABLE), s1) && Leads(s1, 1, Yield, s2)
              && Leads(s2, 0, Send(4097, 7, 0, 0, NoPage), s3) && Leads(s3, 0, Yield, s4) && s4.cur == [1, 1]
  {
    FirstInv();
    MadeRunnable();
    RunsOnOne();
    SentWhileRunning();
    RunsOnBoth();
  }
}
