/** What each system call means for every environment: whom it can reach, what it does to them, whom it leaves alone. */
module SchedLaws {
  import opened SchedSpec
  import opened SchedRuns
  import opened Words

  // ----- Whom a system call can reach -----

  // Environment i is the current one of processor c or a child of it.
  ghost predicate OwnOrChild(s: State, c: nat, i: nat)
    requires Shape(s) && c < |s.cur| && s.cur[c] >= 0 && i < NENV
  {
    i == s.cur[c] || s.envs[i].parent == s.envs[s.cur[c]].id
  }

  // The id that the current environment of processor c gives names i, and i is one that it may change if it must be.
  ghost predicate Reaches(s: State, c: nat, envid: int, checkperm: bool, i: nat)
    requires Shape(s) && c < |s.cur| && s.cur[c] >= 0
  {
    && i < NENV && (envid == 0 ==> i == s.cur[c])
    && (envid != 0 ==> s.envs[i].status != FREE && s.envs[i].id == envid)
    && (checkperm ==> OwnOrChild(s, c, i))
  }

  // envid2env finds just the environment that the id reaches.
  lemma LookupFinds(s: State, c: nat, envid: int, checkperm: bool, i: nat)
    requires Inv(s) && c < |s.cur| && s.cur[c] >= 0 && i < NENV
    ensures Lookup(s, c, envid, checkperm) == i <==> Reaches(s, c, envid, checkperm, i)
  {
    assert Sound(s, i);
  }

  lemma LookupSucceeds(s: State, c: nat, envid: int, checkperm: bool)
    requires Inv(s) && c < |s.cur| && s.cur[c] >= 0
    ensures Lookup(s, c, envid, checkperm) != -1 <==> exists i: nat :: Reaches(s, c, envid, checkperm, i)
  {
    var j := Lookup(s, c, envid, checkperm);
    if j >= 0 { LookupFinds(s, c, envid, checkperm, j); }
    forall i: nat | Reaches(s, c, envid, checkperm, i) ensures j == i { LookupFinds(s, c, envid, checkperm, i); }
  }

  // What the calls answer: success just when there is someone to act on, and what the call needs is there.
  lemma Answers(s: State, c: nat, a: Action)
    requires Inv(s) && c < |s.cur| && s.cur[c] >= 0
    ensures a.SetStatus? ==>
              (Result(s, c, a) == 0 <==>
               (a.status == RUNNABLE || a.status == NOT_RUNNABLE) && exists i: nat :: Reaches(s, c, a.envid, true, i))
    ensures a.Destroy? ==> (Result(s, c, a) == 0 <==> exists i: nat :: Reaches(s, c, a.envid, true, i))
    ensures a.Exofork? ==> (Result(s, c, a) > 0 <==> a.vmOk && exists i: nat :: i < NENV && s.envs[i].status == FREE)
    ensures a.Recv? ==> (Result(s, c, a) == 0 <==> GoodVa(a.dstva))
    ensures a.SetStatus? || a.Destroy? || a.Recv? ==> Result(s, c, a) <= 0
  {
    if a.SetStatus? || a.Destroy? { LookupSucceeds(s, c, a.envid, true); }
    if a.Exofork? {
      if s.free != [] {
        NewIdOfSlot(s.envs[s.free[0]].id, s.free[0]);
        assert Sound(s, s.free[0]);
      }
      forall i: nat | i < NENV && s.envs[i].status == FREE ensures s.free != [] { assert Sound(s, i); }
    }
  }

  // ----- Whom it leaves alone -----

  // A message is delivered to i, or its status is set or it is destroyed by itself or its parent.
  ghost predicate Disturbs(s: State, v: Event, i: nat)
    requires Shape(s)
  {
    && Calls(s, v)
    && match v.action
       case SetStatus(envid, status) =>
         (status == RUNNABLE || status == NOT_RUNNABLE) && Reaches(s, v.cpu, envid, true, i)
       case Destroy(envid) => Reaches(s, v.cpu, envid, true, i)
       case Send(_, _, _, _, _) => Delivery(s, v, i)
       case _ => false
  }

  // Nothing has happened to i, except that it may have been given the processor.
  ghost predicate OnlyScheduled(s: State, v: Event, e: Env, e': Env, i: nat) {
    e' == e || (Hit(s, v, i) == 1 && e.status == RUNNABLE && e' == e.(status := RUNNING, runs := e.runs + 1))
  }

  // What the end of a trap does to an environment that is not the current one of the processor.
  lemma ResumeOther(s: State, c: nat, givesUp: bool, i: nat)
    requires InKernel(s, c) && i < NENV && i != s.cur[c]
    ensures var e, e' := s.envs[i], Resume(s, c, givesUp).envs[i];
            e' == e || (!GoesOn(s, c, givesUp) && Chosen(s, c) == i && e.status == RUNNABLE &&
                        e' == e.(status := RUNNING, runs := e.runs + 1))
  {
    PickIsLeastRun(s.envs, StartOf(s, c), NENV);
  }

  // The current environment, when it has stopped running.
  lemma ResumeStopped(s: State, c: nat, givesUp: bool)
    requires InKernel(s, c) && s.cur[c] >= 0 && s.envs[s.cur[c]].status == NOT_RUNNABLE
    ensures Resume(s, c, givesUp).envs[s.cur[c]] == s.envs[s.cur[c]]
  {
    PickIsLeastRun(s.envs, StartOf(s, c), NENV);
  }

  // The current environment, when it has made itself runnable.
  lemma ResumeRunnable(s: State, c: nat, givesUp: bool)
    requires InKernel(s, c) && s.cur[c] >= 0 && s.envs[s.cur[c]].status == RUNNABLE
    ensures var i := s.cur[c];
            var e, e' := s.envs[i], Resume(s, c, givesUp).envs[i];
            && !GoesOn(s, c, givesUp)
            && (e' == e || (Chosen(s, c) == i && e' == e.(status := RUNNING, runs := e.runs + 1)))
  {
    FullScan(s.envs, StartOf(s, c), s.cur[c]);
  }

  lemma HandledOther(s: State, v: Event, i: nat)
    requires Inv(s) && v.cpu < |s.cur| && i < NENV && i != s.cur[v.cpu] && !Disturbs(s, v, i) && !Creates(s, v, i)
    ensures |Handled(s, v.cpu, v.action).envs| == NENV && Handled(s, v.cpu, v.action).envs[i] == s.envs[i]
  {
    if s.cur[v.cpu] >= 0 {
      match v.action
      case SetStatus(envid, _) => LookupFinds(s, v.cpu, envid, true, i);
      case Destroy(envid) => LookupFinds(s, v.cpu, envid, true, i);
      case _ =>
    }
  }

  // A trap leaves every environment as it is, apart from scheduling, but for the caller, whom the call disturbs, and
  // the slot in which it creates. No system call changes an environment that is neither the caller nor its child,
  // except by a message that it waits for.
  lemma BystanderKept(s: State, v: Event, s': State, i: nat)
    requires StepOk(s, v, s') && Inv(s) && i < NENV && i != s.cur[v.cpu]
    requires !Disturbs(s, v, i) && !Creates(s, v, i)
    ensures |s'.envs| == NENV && OnlyScheduled(s, v, s.envs[i], s'.envs[i], i)
  {
    HandledOther(s, v, i);
    TrapKeepsInv(s, v.cpu, v.action);
    HandledCur(s, v);
    ResumeOther(Handled(s, v.cpu, v.action), v.cpu, v.action.Yield?, i);
  }

  // In every run sys_env_set_status and sys_env_destroy leave alone whoever is neither the caller nor its child.
  lemma StrangersKept(states: seq<State>, events: seq<Event>, k: nat, i: nat)
    requires IsRun(states, events) && Inv(states[0]) && k < |events| && i < NENV
    requires events[k].action.SetStatus? || events[k].action.Destroy?
    requires Shape(states[k]) && Calls(states[k], events[k]) ==> !OwnOrChild(states[k], events[k].cpu, i)
    requires events[k].cpu < |states[k].cur| ==> states[k].cur[events[k].cpu] != i
    ensures |states[k].envs| == |states[k + 1].envs| == NENV
    ensures OnlyScheduled(states[k], events[k], states[k].envs[i], states[k + 1].envs[i], i)
  {
    RunKeepsInv(states, events, k);
    assert StepAt(states, events, k);
    BystanderKept(states[k], events[k], states[k + 1], i);
  }

  ghost predicate CalmAt(states: seq<State>, events: seq<Event>, i: nat, j: nat)
    requires IsRun(states, events) && j < |events|
  {
    assert StepAt(states, events, j);
    !Disturbs(states[j], events[j], i)
  }

  ghost predicate Calm(states: seq<State>, events: seq<Event>, i: nat, m: nat, k: nat)
    requires IsRun(states, events) && k <= |events|
  {
    forall j: nat :: m <= j < k ==> CalmAt(states, events, i, j)
  }

  lemma RestsOn(s: State, v: Event, s': State, i: nat)
    requires StepOk(s, v, s') && Inv(s) && i < NENV && s.envs[i].status == NOT_RUNNABLE && !Disturbs(s, v, i)
    ensures |s'.envs| == NENV && s'.envs[i] == s.envs[i]
  {
    assert Busy(s, v.cpu) && Sound(s, i);
    assert Creates(s, v, i) ==> i in s.free;
    BystanderKept(s, v, s', i);
  }

  // An environment that cannot run stays exactly as it is until a message comes, or it is set runnable or destroyed.
  lemma {:induction false} StaysAtRest(states: seq<State>, events: seq<Event>, i: nat, m: nat, k: nat)
    requires IsRun(states, events) && Inv(states[0]) && i < NENV && m <= k <= |events|
    requires |states[m].envs| == NENV && states[m].envs[i].status == NOT_RUNNABLE && Calm(states, events, i, m, k)
    ensures |states[k].envs| == NENV && states[k].envs[i] == states[m].envs[i]
    decreases k
  {
    if m < k {
      StaysAtRest(states, events, i, m, k - 1);
      RunKeepsInv(states, events, k - 1);
      assert StepAt(states, events, k - 1) && CalmAt(states, events, i, k - 1);
      RestsOn(states[k - 1], events[k - 1], states[k], i);
    }
  }

  // ----- sys_ipc_recv and sys_ipc_try_send -----

  lemma ReceptionStep(s: State, v: Event, s': State, i: nat)
    requires StepOk(s, v, s') && Inv(s) && Reception(s, v, i)
    ensures i < NENV && |s'.envs| == NENV
    ensures s'.envs[i] == s.envs[i].(recving := true, dstva := v.action.dstva, status := NOT_RUNNABLE)
  {
    assert Busy(s, v.cpu);
    TrapKeepsInv(s, v.cpu, v.action);
    ResumeStopped(Handled(s, v.cpu, v.action), v.cpu, false);
  }

  // The page that the sender offers, if the receiver wants one, can be given.
  ghost predicate PageFits(e: Env, a: Action)
    requires a.Send?
  {
    e.dstva != 0 && a.srcva != 0 ==> a.page == Mapped || (a.page == ReadOnly && (a.perm / 2) % 2 == 0)
  }

  lemma WaitingAccepts(s: State, v: Event, i: nat)
    requires Inv(s) && Calls(s, v) && i < NENV && s.envs[i].recving && s.envs[i].status != FREE
    requires v.action.Send? && v.action.envid == s.envs[i].id && v.action.envid != 0
    requires GoodVa(v.action.srcva) && PageFits(s.envs[i], v.action)
    ensures Delivery(s, v, i)
  {
    LookupFinds(s, v.cpu, v.action.envid, false, i);
  }

  // After a reception i waits, at the address it gave, until a message is delivered or it is set runnable or destroyed;
  // as long as it waits, every send to its id with a good address, and with its page if one is sent, is delivered.
  lemma ReceiverWaits(states: seq<State>, events: seq<Event>, i: nat, k: nat, m: nat)
    requires IsRun(states, events) && Inv(states[0]) && k < m <= |events|
    requires Shape(states[k]) && Reception(states[k], events[k], i) && Calm(states, events, i, k + 1, m)
    ensures i < NENV && |states[m].envs| == NENV
    ensures states[m].envs[i] == states[k].envs[i].(recving := true, dstva := events[k].action.dstva, status := NOT_RUNNABLE)
    ensures m < |events| && Shape(states[m]) && Calls(states[m], events[m]) && events[m].action.Send? &&
            events[m].action.envid == states[m].envs[i].id && events[m].action.envid != 0 &&
            GoodVa(events[m].action.srcva) && PageFits(states[m].envs[i], events[m].action) ==>
              Delivery(states[m], events[m], i)
  {
    RunKeepsInv(states, events, k);
    RunKeepsInv(states, events, m);
    assert StepAt(states, events, k);
    ReceptionStep(states[k], events[k], states[k + 1], i);
    StaysAtRest(states, events, i, k + 1, m);
    if m < |events| && Calls(states[m], events[m]) && events[m].action.Send? && events[m].action.envid != 0 &&
       events[m].action.envid == states[m].envs[i].id && GoodVa(events[m].action.srcva) &&
       PageFits(states[m].envs[i], events[m].action)
    {
      WaitingAccepts(states[m], events[m], i);
    }
  }

  // A delivery wakes the receiver with what was sent, and changes nothing else of it.
  lemma DeliveryStep(s: State, v: Event, s': State, i: nat)
    requires StepOk(s, v, s') && Inv(s) && i < NENV && Delivery(s, v, i)
    ensures |s'.envs| == NENV && s.envs[i].recving
    ensures var a := v.action;
            var perm := if s.envs[i].dstva != 0 && a.srcva != 0 then BitOr(a.perm, PTE_U_P) else 0;
            s'.envs[i] == s.envs[i].(value := a.value, from := s.envs[s.cur[v.cpu]].id, perm := perm, recving := false,
                                     status := RUNNABLE)
  {
    assert Busy(s, v.cpu) && Sound(s, i) && Sound(s, s.cur[v.cpu]);
    LookupFinds(s, v.cpu, v.action.envid, false, i);
    TrapKeepsInv(s, v.cpu, v.action);
    ResumeOther(Handled(s, v.cpu, v.action), v.cpu, false, i);
  }

  // ----- sys_exofork, sys_env_set_status, sys_env_destroy -----

  // The new environment is a child of its creator, which cannot run yet and waits for nothing.
  lemma ForkStep(s: State, v: Event, s': State, i: nat)
    requires StepOk(s, v, s') && Inv(s) && Creates(s, v, i)
    ensures i < NENV && s.envs[i].status == FREE && |s'.envs| == NENV && s.free == [i] + s'.free
    ensures s'.envs[i] == s.envs[i].(id := Result(s, v.cpu, v.action), parent := s.envs[s.cur[v.cpu]].id, runs := 0,
                                     recving := false, status := NOT_RUNNABLE)
  {
    assert Busy(s, v.cpu) && Sound(s, i);
    TrapKeepsInv(s, v.cpu, v.action);
    ResumeOther(Handled(s, v.cpu, v.action), v.cpu, false, i);
  }

  // The status of the target is the one asked for; the caller, if it made itself runnable, may go on at once.
  lemma SetStatusStep(s: State, v: Event, s': State, i: nat)
    requires StepOk(s, v, s') && Inv(s) && Calls(s, v) && v.action.SetStatus? && Reaches(s, v.cpu, v.action.envid, true, i)
    requires v.action.status == RUNNABLE || v.action.status == NOT_RUNNABLE
    ensures |s'.envs| == NENV && s'.free == s.free
    ensures var e := s.envs[i].(status := v.action.status);
            s'.envs[i] == e || (i == s.cur[v.cpu] && OnlyScheduled(s, v, e, s'.envs[i], i))
  {
    LookupFinds(s, v.cpu, v.action.envid, true, i);
    assert Busy(s, v.cpu);
    TrapKeepsInv(s, v.cpu, v.action);
    var s1 := Handled(s, v.cpu, v.action);
    if i != s.cur[v.cpu] {
      ResumeOther(s1, v.cpu, false, i);
    } else if v.action.status == RUNNABLE {
      ResumeRunnable(s1, v.cpu, false);
    } else {
      ResumeStopped(s1, v.cpu, false);
    }
  }

  // The target's slot is free, unless it runs on another processor: then it is dying.
  lemma DestroyStep(s: State, v: Event, s': State, i: nat)
    requires StepOk(s, v, s') && Inv(s) && Calls(s, v) && v.action.Destroy? && Reaches(s, v.cpu, v.action.envid, true, i)
    ensures |s'.envs| == NENV
    ensures s.envs[i].status == RUNNING && i != s.cur[v.cpu] ==>
              s'.envs[i] == s.envs[i].(status := DYING) && s'.free == s.free
    ensures s.envs[i].status != RUNNING || i == s.cur[v.cpu] ==>
              s'.envs[i] == s.envs[i].(status := FREE) && s'.free == [i] + s.free && !OnCpu(s', i)
  {
    LookupFinds(s, v.cpu, v.action.envid, true, i);
    assert Busy(s, v.cpu);
    TrapKeepsInv(s, v.cpu, v.action);
    ResumeOther(Handled(s, v.cpu, v.action), v.cpu, false, i);
    if s'.envs[i].status == FREE { FreeNowhere(s', i); }
  }

  lemma FreeNowhere(s: State, i: nat)
    requires Inv(s) && i < NENV && s.envs[i].status == FREE
    ensures !OnCpu(s, i)
  {
    forall b: nat | b < |s.cur| ensures s.cur[b] != i { assert Busy(s, b); }
  }

  lemma DyingFreed(s: State, v: Event, s': State, i: nat)
    requires StepOk(s, v, s') && Inv(s) && s.cur[v.cpu] == i && s.envs[i].status == DYING
    ensures |s'.envs| == NENV && |s'.cur| == |s.cur|
    ensures s'.envs[i] == s.envs[i].(status := FREE) && s'.free == [i] + s.free && !OnCpu(s', i)
  {
    TrapKeepsInv(s, v.cpu, v.action);
    ResumeOther(Handled(s, v.cpu, v.action), v.cpu, v.action.Yield?, i);
    FreeNowhere(s', i);
  }

  lemma DyingLeftAlone(s: State, v: Event, i: nat)
    requires Inv(s) && v.cpu < |s.cur| && Allowed(s, v.cpu, v.action)
    requires i < NENV && s.envs[i].status == DYING && s.cur[v.cpu] != i
    ensures !Creates(s, v, i) && !Disturbs(s, v, i)
  {
    assert Sound(s, i);
    if Calls(s, v) {
      match v.action
      case SetStatus(envid, _) => LookupFinds(s, v.cpu, envid, true, i);
      case Destroy(envid) => LookupFinds(s, v.cpu, envid, true, i);
      case Send(envid, _, _, _, _) => LookupFinds(s, v.cpu, envid, false, i);
      case _ =>
    }
  }

  lemma DyingKept(s: State, v: Event, s': State, i: nat, b: nat)
    requires StepOk(s, v, s') && Inv(s) && b < |s.cur| && s.cur[b] == i && s.envs[i].status == DYING && v.cpu != b
    ensures |s'.envs| == NENV && |s'.cur| == |s.cur| && s'.envs[i] == s.envs[i] && s'.cur[b] == i
  {
    assert Apart(s, b, v.cpu);
    DyingLeftAlone(s, v, i);
    BystanderKept(s, v, s', i);
    NoneWaitsForIdle(s, v, s');
  }

  // In every run an environment destroyed while it ran elsewhere stays dying until that processor traps; then its slot
  // is free.
  lemma {:induction false} DyingUntilTrap(states: seq<State>, events: seq<Event>, i: nat, b: nat, m: nat, k: nat)
    requires IsRun(states, events) && Inv(states[0]) && m <= k <= |events| && Shape(states[m])
    requires b < |states[m].cur| && states[m].cur[b] == i && states[m].envs[i].status == DYING
    requires forall j :: m <= j < k ==> events[j].cpu != b
    ensures Shape(states[k]) && b < |states[k].cur| && states[k].cur[b] == i && states[k].envs[i] == states[m].envs[i]
    ensures k < |events| && events[k].cpu == b ==>
              && |states[k + 1].envs| == NENV && states[k + 1].envs[i] == states[m].envs[i].(status := FREE)
              && states[k + 1].free == [i] + states[k].free && !OnCpu(states[k + 1], i)
    decreases k
  {
    RunKeepsInv(states, events, k);
    if m < k {
      DyingUntilTrap(states, events, i, b, m, k - 1);
      RunKeepsInv(states, events, k - 1);
      assert StepAt(states, events, k - 1);
      DyingKept(states[k - 1], events[k - 1], states[k], i, b);
    }
    if k < |events| && events[k].cpu == b {
      assert StepAt(states, events, k);
      DyingFreed(states[k], events[k], states[k + 1], i);
    }
  }

  // ----- Whom the processor turns to -----

  // How far behind slot i, in circular order, slot k comes; without a current environment the order starts at slot 0.
  ghost function Behind(i: int, k: nat): nat {
    (k - i - 1) % NENV
  }

  lemma TurnOf(start: nat, k: nat, j: nat)
    requires start < NENV && k < NENV && j < NENV
    ensures At(start, j) == k <==> j == if k >= start then k - start else k - start + NENV
  {
    DivModUnique(start + j, if start + j < NENV then 0 else 1, if start + j < NENV then start + j else start + j - NENV, NENV);
  }

  lemma BehindIsTurn(i: int, k: nat)
    requires -1 <= i < NENV && k < NENV
    ensures Behind(i, k) == if k > i then k - i - 1 else k - i - 1 + NENV
  {
    DivModUnique(k - i - 1, if k > i then 0 else -1, if k > i then k - i - 1 else k - i - 1 + NENV, NENV);
  }

  // The slots are scanned in that order.
  lemma ScanOrder(i: int, k: nat, j: nat)
    requires -1 <= i < NENV && k < NENV && j < NENV
    ensures At(if i == -1 then 0 else (i + 1) % NENV, j) == k <==> j == Behind(i, k)
  {
    var start := if i + 1 < NENV then i + 1 else 0;
    DivModUnique(i + 1, if i + 1 < NENV then 0 else 1, start, NENV);
    TurnOf(start, k, j);
    BehindIsTurn(i, k);
  }

  // Whoever is selected is runnable, and of all that are it has run least; among equals it comes first behind the
  // current environment.
  lemma SelectedIsNext(s: State, v: Event, s': State, k: nat)
    requires StepOk(s, v, s') && Inv(s) && Selected(s, v) >= 0 && k < NENV
    requires Handled(s, v.cpu, v.action).envs[k].status == RUNNABLE
    ensures var s1, p := Handled(s, v.cpu, v.action), Selected(s, v);
            && s1.envs[p].status == RUNNABLE && s1.envs[p].runs <= s1.envs[k].runs
            && (s1.envs[p].runs == s1.envs[k].runs ==> Behind(s1.cur[v.cpu], p) <= Behind(s1.cur[v.cpu], k))
  {
    TrapKeepsInv(s, v.cpu, v.action);
    NextInOrder(Handled(s, v.cpu, v.action), v.cpu, k);
  }

  lemma NextInOrder(s: State, c: nat, k: nat)
    requires InKernel(s, c) && Chosen(s, c) >= 0 && k < NENV && s.envs[k].status == RUNNABLE
    ensures var p := Chosen(s, c);
            && s.envs[p].status == RUNNABLE && s.envs[p].runs <= s.envs[k].runs
            && (s.envs[p].runs == s.envs[k].runs ==> Behind(s.cur[c], p) <= Behind(s.cur[c], k))
  {
    var i, start, p := s.cur[c], StartOf(s, c), Chosen(s, c);
    if i >= 0 { assert Sound(s, i); }
    PickIsLeastRun(s.envs, start, NENV);
    FullScan(s.envs, start, k);
    var t: nat :| t < NENV && FirstAt(s.envs, start, t, p);
    ScanOrder(i, p, t);
    BehindIsTurn(i, k);
    ScanOrder(i, k, Behind(i, k));
    if Behind(i, k) < t { assert Worse(s.envs, start, Behind(i, k), p); }
  }

  // What the end of a trap does to the processors.
  lemma ResumeCpu(s: State, c: nat, givesUp: bool)
    requires InKernel(s, c) && !Stuck(s)
    ensures var s' := Resume(s, c, givesUp);
            && |s'.cur| == |s.cur| && -1 <= s'.cur[c] < NENV && (forall b :: 0 <= b < |s.cur| && b != c ==> s'.cur[b] == s.cur[b])
            && (s'.cur[c] == -1 ==> Chosen(s, c) == -1 && s'.envs == s.envs)
            && (s'.cur[c] >= 0 ==> s'.envs[s'.cur[c]].status == RUNNING &&
                                   s'.envs[s'.cur[c]].runs == s.envs[s'.cur[c]].runs + 1)
  {
  }

  // A processor is left without an environment only if none is runnable; otherwise its environment has been given one
  // more turn. The other processors keep theirs.
  lemma NoneWaitsForIdle(s: State, v: Event, s': State)
    requires StepOk(s, v, s') && Inv(s)
    ensures |s'.envs| == NENV && |s'.cur| == |s.cur|
    ensures forall b :: 0 <= b < |s.cur| && b != v.cpu ==> s'.cur[b] == s.cur[b]
    ensures var i := s'.cur[v.cpu];
            && (i == -1 ==> forall k :: 0 <= k < NENV ==> s'.envs[k].status != RUNNABLE)
            && (0 <= i < NENV ==>
                  s'.envs[i].status == RUNNING && s'.envs[i].runs == Handled(s, v.cpu, v.action).envs[i].runs + 1)
  {
    TrapKeepsInv(s, v.cpu, v.action);
    HandledOthersCur(s, v);
    var s1, c := Handled(s, v.cpu, v.action), v.cpu;
    ResumeCpu(s1, c, v.action.Yield?);
    if s'.cur[c] == -1 {
      forall k: nat | k < NENV ensures s'.envs[k].status != RUNNABLE {
        if s1.envs[k].status == RUNNABLE { FullScan(s1.envs, StartOf(s1, c), k); }
      }
    }
  }

  // A caller that does not yield and still runs after its call keeps the processor, and everyone else is as the call
  // left them.
  lemma CallerGoesOn(s: State, v: Event, s': State)
    requires StepOk(s, v, s') && Inv(s) && Calls(s, v) && !v.action.Yield?
    requires Handled(s, v.cpu, v.action).cur[v.cpu] == s.cur[v.cpu]
    requires Handled(s, v.cpu, v.action).envs[s.cur[v.cpu]].status == RUNNING
    ensures var s1, i := Handled(s, v.cpu, v.action), s.cur[v.cpu];
            s' == SetEnv(s1, i, s1.envs[i].(runs := s1.envs[i].runs + 1))
  {
    TrapKeepsInv(s, v.cpu, v.action);
    RunsOn(Handled(s, v.cpu, v.action), v.cpu);
  }

  lemma RunsOn(s: State, c: nat)
    requires InKernel(s, c) && s.cur[c] >= 0 && s.envs[s.cur[c]].status == RUNNING
    ensures var i := s.cur[c]; Resume(s, c, false) == SetEnv(s, i, s.envs[i].(runs := s.envs[i].runs + 1))
  {
    var i, s' := s.cur[c], EnvRun(s, c, s.cur[c]);
    assert s'.envs == s.envs[i := s.envs[i].(runs := s.envs[i].runs + 1)] && s'.cur == s.cur;
  }

  // A caller that yields gives way if anyone is runnable, and waits for its turn; otherwise it goes on.
  lemma YieldGivesWay(s: State, v: Event, s': State)
    requires StepOk(s, v, s') && Inv(s) && Calls(s, v) && v.action.Yield?
    ensures var i := s.cur[v.cpu];
            && |s'.envs| == NENV && |s'.cur| == |s.cur|
            && ((exists k :: 0 <= k < NENV && s.envs[k].status == RUNNABLE) ==>
                  s'.cur[v.cpu] != i && s'.envs[i] == s.envs[i].(status := RUNNABLE))
            && ((forall k :: 0 <= k < NENV ==> s.envs[k].status != RUNNABLE) ==>
                  s' == SetEnv(s, i, s.envs[i].(runs := s.envs[i].runs + 1)))
  {
    var c := v.cpu;
    assert Busy(s, c);
    PickIsLeastRun(s.envs, StartOf(s, c), NENV);
    if k :| 0 <= k < NENV && s.envs[k].status == RUNNABLE { FullScan(s.envs, StartOf(s, c), k); }
  }

  lemma HandledOthersCur(s: State, v: Event)
    requires Shape(s) && v.cpu < |s.cur|
    ensures |Handled(s, v.cpu, v.action).cur| == |s.cur|
    ensures forall b :: 0 <= b < |s.cur| && b != v.cpu ==> Handled(s, v.cpu, v.action).cur[b] == s.cur[b]
  {
  }
}
