/**
  Environments and processors of the kernel, as values: what each trap does to them between taking and releasing the
  kernel lock (kernel/sched.c, kernel/env.c, kernel/trap.c, kernel/syscall.c). Memory is left out: whether a page
  directory or a mapping could be made is an input.
 */
module SchedSpec {
  import opened Words

  const NENV: nat := 1024

  datatype Status = FREE | DYING | RUNNABLE | RUNNING | NOT_RUNNABLE

  datatype Env = Env(id: int, status: Status, runs: nat, parent: int,
                     recving: bool, dstva: nat, from: int, value: int, perm: int)

  // cur[c] is the index of the current environment of processor c, or -1; free is the free list.
  datatype State = State(envs: seq<Env>, cur: seq<int>, free: seq<nat>)

  // ----- Changing one environment -----

  function SetEnv(s: State, i: int, e: Env): State {
    if 0 <= i < |s.envs| then s.(envs := s.envs[i := e]) else s
  }

  function SetCur(s: State, c: nat, i: int): State {
    if c < |s.cur| then s.(cur := s.cur[c := i]) else s
  }

  ghost predicate Shape(s: State) {
    && |s.envs| == NENV
    && (forall c :: 0 <= c < |s.cur| ==> -1 <= s.cur[c] < NENV)
    && (forall k :: 0 <= k < |s.free| ==> s.free[k] < NENV)
  }

  // ----- What holds at every release of the lock -----

  ghost predicate OnCpu(s: State, i: nat) {
    exists c :: 0 <= c < |s.cur| && s.cur[c] == i
  }

  // A running or dying environment is current somewhere.
  ghost predicate Placed(s: State, i: nat)
    requires |s.envs| == NENV && i < NENV
  {
    s.envs[i].status == RUNNING || s.envs[i].status == DYING ==> OnCpu(s, i)
  }

  // The current environment of processor c runs or is dying.
  ghost predicate Busy(s: State, c: nat)
    requires |s.envs| == NENV && c < |s.cur|
  {
    0 <= s.cur[c] < NENV ==> s.envs[s.cur[c]].status == RUNNING || s.envs[s.cur[c]].status == DYING
  }

  // No environment is current on two processors.
  ghost predicate Apart(s: State, c: nat, b: nat)
    requires c < |s.cur| && b < |s.cur|
  {
    c != b && s.cur[c] == s.cur[b] ==> s.cur[c] == -1
  }

  // An environment that waits for a message is not runnable; free slots are on the free list, with ids of their slot.
  ghost predicate Sound(s: State, i: nat)
    requires |s.envs| == NENV && i < NENV
  {
    var e := s.envs[i];
    && (e.recving && e.status != FREE ==> e.status == NOT_RUNNABLE)
    && (e.status != FREE ==> e.id % NENV == i)
    && (i in s.free <==> e.status == FREE)
  }

  // The kernel runs on processor c; nothing is said yet of what its current environment is doing.
  ghost predicate Almost(s: State, c: nat) {
    && Shape(s) && c < |s.cur|
    && (forall i: nat :: i < NENV ==> Placed(s, i))
    && (forall i: nat :: i < NENV ==> Sound(s, i))
    && (forall b: nat :: b < |s.cur| && b != c ==> Busy(s, b))
    && (forall a: nat, b: nat :: a < |s.cur| && b < |s.cur| ==> Apart(s, a, b))
    && (forall j, k :: 0 <= j < k < |s.free| ==> s.free[j] != s.free[k])
  }

  // On processor c the kernel runs: its current environment, if any, exists and is not dying.
  ghost predicate InKernel(s: State, c: nat) {
    && Almost(s, c)
    && (s.cur[c] >= 0 ==> s.envs[s.cur[c]].status != FREE && s.envs[s.cur[c]].status != DYING)
  }

  // The lock is free.
  ghost predicate Inv(s: State) {
    && Shape(s)
    && (forall i: nat :: i < NENV ==> Placed(s, i))
    && (forall i: nat :: i < NENV ==> Sound(s, i))
    && (forall b: nat :: b < |s.cur| ==> Busy(s, b))
    && (forall a: nat, b: nat :: a < |s.cur| && b < |s.cur| ==> Apart(s, a, b))
    && (forall j, k :: 0 <= j < k < |s.free| ==> s.free[j] != s.free[k])
  }

  // Then each running or dying environment is the current one of exactly one processor.
  lemma ExactlyOneCpu(s: State, i: nat)
    requires Inv(s) && i < NENV && (s.envs[i].status == RUNNING || s.envs[i].status == DYING)
    ensures exists c :: 0 <= c < |s.cur| && s.cur[c] == i && forall b :: 0 <= b < |s.cur| && s.cur[b] == i ==> b == c
  {
    assert Placed(s, i);
    var c :| 0 <= c < |s.cur| && s.cur[c] == i;
    forall b | 0 <= b < |s.cur| && s.cur[b] == i ensures b == c { assert Apart(s, b, c); }
  }

  // ----- env_run -----

  // Moves processor c from its current environment to i.
  function EnvRun(s: State, c: nat, i: nat): State
    requires |s.envs| == NENV && c < |s.cur| && -1 <= s.cur[c] < NENV && i < NENV
  {
    var p := s.cur[c];
    var s1 := if p >= 0 && s.envs[p].status == RUNNING then SetEnv(s, p, s.envs[p].(status := RUNNABLE)) else s;
    SetCur(SetEnv(s1, i, s1.envs[i].(status := RUNNING, runs := s1.envs[i].runs + 1)), c, i)
  }

  lemma EnvRunInv(s: State, c: nat, i: nat)
    requires InKernel(s, c) && i < NENV
    requires s.envs[i].status == RUNNABLE || (s.cur[c] == i && s.envs[i].status == RUNNING)
    ensures Inv(EnvRun(s, c, i))
  {
    var s' := EnvRun(s, c, i);
    assert Placed(s, i) && Sound(s, i);
    forall b: nat | b < |s.cur| && b != c ensures s.cur[b] != i {
      assert Busy(s, b) && Apart(s, b, c);
    }
    forall k: nat | k < NENV ensures Placed(s', k) && Sound(s', k) {
      assert Placed(s, k) && Sound(s, k);
      if k == i { assert s'.cur[c] == i; }
      if k != i && (s.envs[k].status == RUNNING || s.envs[k].status == DYING) && k != s.cur[c] {
        var b :| 0 <= b < |s.cur| && s.cur[b] == k;
        assert s'.cur[b] == k;
      }
    }
    forall b: nat | b < |s'.cur| ensures Busy(s', b) {
      if b != c { assert Busy(s, b) && Apart(s, b, c); }
    }
    forall a: nat, b: nat | a < |s'.cur| && b < |s'.cur| ensures Apart(s', a, b) { assert Apart(s, a, b); }
  }

  // ----- sched_yield -----

  // One turn of the scan: i replaces best if it is runnable and has run less.
  function Better(envs: seq<Env>, i: nat, best: int): int
    requires |envs| == NENV && i < NENV && -1 <= best < NENV
  {
    if envs[i].status != RUNNABLE then best
    else if best >= 0 && envs[i].runs >= envs[best].runs then best
    else i
  }

  // The slot met at turn j of a circular scan from start.
  function At(start: nat, j: nat): (i: nat)
    ensures i < NENV
  {
    (start + j) % NENV
  }

  lemma NextAt(start: nat, j: nat)
    ensures At(start, j + 1) == (At(start, j) + 1) % NENV
  {
  }

  // The choice after the first n turns.
  function Pick(envs: seq<Env>, start: nat, n: nat): (p: int)
    requires |envs| == NENV
    ensures -1 <= p < NENV
  {
    if n == 0 then -1 else Better(envs, At(start, n - 1), Pick(envs, start, n - 1))
  }

  // p is the first, in scan order, of the least-run runnable environments met in n turns.
  ghost predicate LeastRun(envs: seq<Env>, start: nat, n: nat, p: int)
    requires |envs| == NENV && -1 <= p < NENV
  {
    && (p >= 0 ==> envs[p].status == RUNNABLE && exists k: nat :: k < n && FirstAt(envs, start, k, p))
    && (forall j: nat :: j < n ==> NotBetter(envs, start, j, p))
  }

  // What is met at turn j is not runnable, or has run at least as much as p.
  ghost predicate NotBetter(envs: seq<Env>, start: nat, j: nat, p: int)
    requires |envs| == NENV && -1 <= p < NENV
  {
    envs[At(start, j)].status == RUNNABLE ==> p >= 0 && envs[p].runs <= envs[At(start, j)].runs
  }

  // What is met at turn j is not runnable, or has run more than p.
  ghost predicate Worse(envs: seq<Env>, start: nat, j: nat, p: nat)
    requires |envs| == NENV && p < NENV
  {
    envs[At(start, j)].status == RUNNABLE ==> envs[p].runs < envs[At(start, j)].runs
  }

  ghost predicate FirstAt(envs: seq<Env>, start: nat, k: nat, p: nat)
    requires |envs| == NENV && p < NENV
  {
    At(start, k) == p && forall j: nat :: j < k ==> Worse(envs, start, j, p)
  }

  lemma {:induction false} PickIsLeastRun(envs: seq<Env>, start: nat, n: nat)
    requires |envs| == NENV
    ensures LeastRun(envs, start, n, Pick(envs, start, n))
  {
    if n > 0 {
      var m := n - 1;
      PickIsLeastRun(envs, start, m);
      var q, p := Pick(envs, start, m), Pick(envs, start, n);
      forall j: nat | j < n ensures NotBetter(envs, start, j, p) {
        if j < m { assert NotBetter(envs, start, j, q); }
      }
      if p == q {
        if p >= 0 { var k: nat :| k < m && FirstAt(envs, start, k, p); }
      } else {
        forall j: nat | j < m ensures Worse(envs, start, j, p) { assert NotBetter(envs, start, j, q); }
        assert FirstAt(envs, start, m, p);
      }
    }
  }

  // A full scan meets everyone: the choice has run least of all runnable environments.
  lemma FullScan(envs: seq<Env>, start: nat, i: nat)
    requires |envs| == NENV && start < NENV && i < NENV && envs[i].status == RUNNABLE
    ensures var p := Pick(envs, start, NENV); p >= 0 && envs[p].status == RUNNABLE && envs[p].runs <= envs[i].runs
  {
    PickIsLeastRun(envs, start, NENV);
    var j := if i >= start then i - start else i + NENV - start;
    assert At(start, j) == i;
    assert NotBetter(envs, start, j, Pick(envs, start, NENV));
  }

  function StartOf(s: State, c: nat): nat
    requires |s.envs| == NENV && c < |s.cur| && -1 <= s.cur[c] < NENV
  {
    if s.cur[c] >= 0 then (s.envs[s.cur[c]].id % NENV + 1) % NENV else 0
  }

  function Chosen(s: State, c: nat): (p: int)
    requires |s.envs| == NENV && c < |s.cur| && -1 <= s.cur[c] < NENV
    ensures -1 <= p < NENV
  {
    Pick(s.envs, StartOf(s, c), NENV)
  }

  // Nothing is left to run anywhere: the processor stays in the monitor and keeps the lock.
  predicate Stuck(s: State) {
    forall i :: 0 <= i < |s.envs| ==>
      s.envs[i].status != RUNNABLE && s.envs[i].status != RUNNING && s.envs[i].status != DYING
  }

  function Sched(s: State, c: nat): State
    requires |s.envs| == NENV && c < |s.cur| && -1 <= s.cur[c] < NENV
  {
    var p := Chosen(s, c);
    if p >= 0 then EnvRun(s, c, p)
    else if s.cur[c] >= 0 && s.envs[s.cur[c]].status == RUNNING then EnvRun(s, c, s.cur[c])
    else if Stuck(s) then s
    else SetCur(s, c, -1)
  }

  lemma HaltInv(s: State, c: nat)
    requires InKernel(s, c) && (s.cur[c] >= 0 ==> s.envs[s.cur[c]].status != RUNNING)
    ensures Inv(SetCur(s, c, -1))
  {
    var s' := SetCur(s, c, -1);
    forall k: nat | k < NENV ensures Placed(s', k) && Sound(s', k) {
      assert Placed(s, k) && Sound(s, k);
      if s.envs[k].status == RUNNING || s.envs[k].status == DYING {
        var b :| 0 <= b < |s.cur| && s.cur[b] == k;
        assert s'.cur[b] == k;
      }
    }
    forall b: nat | b < |s'.cur| ensures Busy(s', b) { if b != c { assert Busy(s, b); } }
    forall a: nat, b: nat | a < |s'.cur| && b < |s'.cur| ensures Apart(s', a, b) { assert Apart(s, a, b); }
  }

  lemma SchedInv(s: State, c: nat)
    requires InKernel(s, c) && !Stuck(s)
    ensures Inv(Sched(s, c))
  {
    PickIsLeastRun(s.envs, StartOf(s, c), NENV);
    var p := Chosen(s, c);
    if p >= 0 {
      EnvRunInv(s, c, p);
    } else if s.cur[c] >= 0 && s.envs[s.cur[c]].status == RUNNING {
      EnvRunInv(s, c, s.cur[c]);
    } else {
      HaltInv(s, c);
    }
  }

  // ----- Environment ids -----

  const GENERATION: nat := 4096

  function Wrap32(x: int): int {
    var w := x % 0x1_0000_0000;
    if w >= 0x8000_0000 then w - 0x1_0000_0000 else w
  }

  // The id that env_alloc gives to slot i, whose last id was id.
  function NewId(id: int, i: nat): int {
    var x := Wrap32(id + GENERATION);
    var generation := x - x % NENV;
    (if generation <= 0 then GENERATION else generation) + i
  }

  // envid2env; -1 stands for -E_BAD_ENV.
  function Lookup(s: State, c: nat, envid: int, checkperm: bool): (i: int)
    requires |s.envs| == NENV && c < |s.cur| && 0 <= s.cur[c] < NENV
    ensures -1 <= i < NENV
  {
    if envid == 0 then s.cur[c]
    else
      var i := envid % NENV;
      if s.envs[i].status == FREE || s.envs[i].id != envid then -1
      else if checkperm && i != s.cur[c] && s.envs[i].parent != s.envs[s.cur[c]].id then -1
      else i
  }

  // ----- What a trap can ask for -----

  // How the lookup and mapping of a page to be sent turn out.
  datatype PageCase = NoPage | ReadOnly | NoMemory | Mapped

  datatype Action =
    | Yield
    | Other
    | Exofork(vmOk: bool)
    | SetStatus(envid: int, status: Status)
    | Destroy(envid: int)
    | Send(envid: int, value: int, srcva: nat, perm: nat, page: PageCase)
    | Recv(dstva: nat)

  const E_BAD_ENV: int := 2
  const E_INVAL: int := 3
  const E_NO_MEM: int := 4
  const E_NO_FREE_ENV: int := 5
  const E_IPC_NOT_RECV: int := 7

  const PGSIZE: nat := 4096
  const UTOP: nat := 0xeec00000
  const PTE_U_P: nat := 5

  predicate GoodVa(va: nat) {
    va % PGSIZE == 0 && va < UTOP
  }

  // env_free
  function EnvFree(s: State, i: nat): State
    requires |s.envs| == NENV && i < NENV
  {
    SetEnv(s, i, s.envs[i].(status := FREE)).(free := [i] + s.free)
  }

  // env_destroy, up to the call of sched_yield
  function EnvDestroy(s: State, c: nat, i: nat): State
    requires |s.envs| == NENV && c < |s.cur| && i < NENV
  {
    if s.envs[i].status == RUNNING && s.cur[c] != i then SetEnv(s, i, s.envs[i].(status := DYING))
    else if s.cur[c] == i then SetCur(EnvFree(s, i), c, -1)
    else EnvFree(s, i)
  }

  // env_alloc and the rest of sys_exofork
  function Fork(s: State, c: nat, vmOk: bool): State
    requires Shape(s) && c < |s.cur| && 0 <= s.cur[c]
  {
    if s.free == [] || !vmOk then s
    else
      var i := s.free[0];
      var e := s.envs[i].(id := NewId(s.envs[i].id, i), parent := s.envs[s.cur[c]].id, runs := 0, recving := false,
                          status := NOT_RUNNABLE);
      SetEnv(s, i, e).(free := s.free[1..])
  }

  function PutStatus(s: State, c: nat, envid: int, status: Status): State
    requires |s.envs| == NENV && c < |s.cur| && 0 <= s.cur[c] < NENV
  {
    var i := Lookup(s, c, envid, true);
    if (status != NOT_RUNNABLE && status != RUNNABLE) || i == -1 then s
    else SetEnv(s, i, s.envs[i].(status := status))
  }

  // The send is accepted.
  predicate Delivers(s: State, c: nat, a: Action)
    requires |s.envs| == NENV && c < |s.cur| && 0 <= s.cur[c] < NENV && a.Send?
  {
    var i := Lookup(s, c, a.envid, false);
    && GoodVa(a.srcva) && i != -1 && s.envs[i].recving
    && (s.envs[i].dstva != 0 && a.srcva != 0 ==>
          a.page == Mapped || (a.page == ReadOnly && (a.perm / 2) % 2 == 0))
  }

  function SendTo(s: State, c: nat, a: Action): State
    requires |s.envs| == NENV && c < |s.cur| && 0 <= s.cur[c] < NENV && a.Send?
  {
    if !Delivers(s, c, a) then s
    else
      var i := Lookup(s, c, a.envid, false);
      var e := s.envs[i];
      var perm := if e.dstva != 0 && a.srcva != 0 then BitOr(a.perm, PTE_U_P) else 0;
      SetEnv(s, i, e.(perm := perm, value := a.value, from := s.envs[s.cur[c]].id, recving := false, status := RUNNABLE))
  }

  function Receive(s: State, c: nat, dstva: nat): State
    requires |s.envs| == NENV && c < |s.cur| && 0 <= s.cur[c] < NENV
  {
    if !GoodVa(dstva) then s
    else SetEnv(s, s.cur[c], s.envs[s.cur[c]].(recving := true, dstva := dstva, status := NOT_RUNNABLE))
  }

  // What the kernel does for the current environment of processor c, before it looks for what to run.
  function Do(s: State, c: nat, a: Action): State
    requires Shape(s) && c < |s.cur| && 0 <= s.cur[c]
  {
    match a
    case Yield => s
    case Other => s
    case Exofork(vmOk) => Fork(s, c, vmOk)
    case SetStatus(envid, status) => PutStatus(s, c, envid, status)
    case Destroy(envid) => var i := Lookup(s, c, envid, true); if i == -1 then s else EnvDestroy(s, c, i)
    case Send(_, _, _, _, _) => SendTo(s, c, a)
    case Recv(dstva) => Receive(s, c, dstva)
  }

  // What sys_ipc_try_send returns.
  function SendResult(s: State, c: nat, a: Action): int
    requires |s.envs| == NENV && c < |s.cur| && 0 <= s.cur[c] < NENV && a.Send?
  {
    var i := Lookup(s, c, a.envid, false);
    if !GoodVa(a.srcva) then -E_INVAL
    else if i == -1 then -E_BAD_ENV
    else if !s.envs[i].recving then -E_IPC_NOT_RECV
    else if s.envs[i].dstva != 0 && a.srcva != 0 && a.page == NoMemory then -E_NO_MEM
    else if Delivers(s, c, a) then 0 else -E_INVAL
  }

  // What the system call returns to its caller; sys_ipc_recv returns 0 only when a message has come.
  function Result(s: State, c: nat, a: Action): int
    requires Shape(s) && c < |s.cur| && 0 <= s.cur[c]
  {
    match a
    case Yield => 0
    case Other => 0
    case Exofork(vmOk) =>
      if s.free == [] then -E_NO_FREE_ENV
      else if !vmOk then -E_NO_MEM
      else NewId(s.envs[s.free[0]].id, s.free[0])
    case SetStatus(envid, status) =>
      if status != NOT_RUNNABLE && status != RUNNABLE then -E_INVAL
      else if Lookup(s, c, envid, true) == -1 then -E_BAD_ENV else 0
    case Destroy(envid) => if Lookup(s, c, envid, true) == -1 then -E_BAD_ENV else 0
    case Send(_, _, _, _, _) => SendResult(s, c, a)
    case Recv(dstva) => if GoodVa(dstva) then 0 else -E_INVAL
  }

  // A system call that reports an error has changed nothing. An id that sys_exofork returns names the new environment,
  // which its creator may change.
  lemma ErrorsChangeNothing(s: State, c: nat, a: Action)
    requires Shape(s) && c < |s.cur| && 0 <= s.cur[c]
    ensures Result(s, c, a) < 0 ==> Do(s, c, a) == s
    ensures a.Send? ==> (Result(s, c, a) == 0 <==> Delivers(s, c, a))
    ensures a.Exofork? && Result(s, c, a) >= 0 ==>
              && s.free != [] && Lookup(Do(s, c, a), c, Result(s, c, a), true) == s.free[0]
              && Do(s, c, a).envs[s.free[0]].status == NOT_RUNNABLE
  {
    if a.Exofork? && s.free != [] { NewIdOfSlot(s.envs[s.free[0]].id, s.free[0]); }
  }

  // The state in which the kernel decides what to run.
  function Handled(s: State, c: nat, a: Action): State
    requires Shape(s) && c < |s.cur|
  {
    if s.cur[c] == -1 then s
    else if s.envs[s.cur[c]].status == DYING then SetCur(EnvFree(s, s.cur[c]), c, -1)
    else Do(s, c, a)
  }

  // The current environment goes on, unless it yields or cannot.
  predicate GoesOn(s: State, c: nat, givesUp: bool)
    requires |s.envs| == NENV && c < |s.cur| && -1 <= s.cur[c] < NENV
  {
    !givesUp && s.cur[c] >= 0 && s.envs[s.cur[c]].status == RUNNING
  }

  // The end of a trap: back to the current environment, or on to another.
  function Resume(s: State, c: nat, givesUp: bool): State
    requires |s.envs| == NENV && c < |s.cur| && -1 <= s.cur[c] < NENV
  {
    if GoesOn(s, c, givesUp) then EnvRun(s, c, s.cur[c]) else Sched(s, c)
  }

  // From trap() to the release of the lock.
  function Trap(s: State, c: nat, a: Action): State
    requires Shape(s) && c < |s.cur| && Shape(Handled(s, c, a)) && |Handled(s, c, a).cur| == |s.cur|
  {
    Resume(Handled(s, c, a), c, a.Yield?)
  }

  // From s, the trap of processor c with request a ends in s'.
  ghost predicate Leads(s: State, c: nat, a: Action, s': State) {
    && Shape(s) && c < |s.cur| && Shape(Handled(s, c, a)) && |Handled(s, c, a).cur| == |s.cur|
    && s' == Trap(s, c, a)
  }

  // ----- Every trap keeps the invariant -----

  ghost predicate Active(e: Env) {
    e.status == RUNNING || e.status == DYING
  }

  // The record of one environment may change like this.
  ghost predicate MayBecome(s: State, c: nat, i: nat, e: Env)
    requires |s.envs| == NENV && c < |s.cur| && i < NENV
  {
    && (Active(e) ==> OnCpu(s, i))
    && (forall b: nat :: b < |s.cur| && b != c && s.cur[b] == i ==> Active(e))
    && (e.recving && e.status != FREE ==> e.status == NOT_RUNNABLE)
    && e.id == s.envs[i].id && (e.status == FREE <==> s.envs[i].status == FREE)
  }

  lemma SetEnvAlmost(s: State, c: nat, i: nat, e: Env)
    requires Almost(s, c) && i < NENV && MayBecome(s, c, i, e)
    ensures Almost(SetEnv(s, i, e), c)
  {
    var s' := SetEnv(s, i, e);
    forall k: nat | k < NENV ensures Placed(s', k) && Sound(s', k) {
      assert Placed(s, k) && Sound(s, k);
      if Active(s'.envs[k]) {
        assert OnCpu(s, k);
        var b :| 0 <= b < |s.cur| && s.cur[b] == k;
        assert s'.cur[b] == k;
      }
    }
    forall b: nat | b < |s'.cur| && b != c ensures Busy(s', b) { assert Busy(s, b); }
    forall a: nat, b: nat | a < |s'.cur| && b < |s'.cur| ensures Apart(s', a, b) { assert Apart(s, a, b); }
  }

  // The current environment of c is on no other processor.
  lemma OnlyHere(s: State, c: nat, b: nat)
    requires Almost(s, c) && s.cur[c] >= 0 && b < |s.cur| && b != c
    ensures s.cur[b] != s.cur[c]
  {
    assert Apart(s, b, c);
  }

  // An environment that is not active is on no other processor.
  lemma NotElsewhere(s: State, c: nat, i: nat, b: nat)
    requires Almost(s, c) && i < NENV && !Active(s.envs[i]) && b < |s.cur| && b != c
    ensures s.cur[b] != i
  {
    assert Busy(s, b);
  }

  lemma FreeAlmost(s: State, c: nat, i: nat)
    requires Almost(s, c) && i < NENV && s.envs[i].status != FREE && (s.cur[c] == i || !Active(s.envs[i]))
    ensures var s1 := EnvFree(s, i); Almost(if s.cur[c] == i then SetCur(s1, c, -1) else s1, c)
  {
    var s1 := EnvFree(s, i);
    var s' := if s.cur[c] == i then SetCur(s1, c, -1) else s1;
    assert Sound(s, i);
    forall b: nat | b < |s.cur| && b != c ensures s.cur[b] != i {
      if s.cur[c] == i { OnlyHere(s, c, b); } else { NotElsewhere(s, c, i, b); }
    }
    forall k: nat | k < NENV ensures Placed(s', k) && Sound(s', k) {
      assert Placed(s, k) && Sound(s, k);
      if Active(s'.envs[k]) {
        var b :| 0 <= b < |s.cur| && s.cur[b] == k;
        assert s'.cur[b] == k;
      }
    }
    forall b: nat | b < |s'.cur| && b != c ensures Busy(s', b) { assert Busy(s, b); }
    forall a: nat, b: nat | a < |s'.cur| && b < |s'.cur| ensures Apart(s', a, b) { assert Apart(s, a, b); }
    forall j, k | 0 <= j < k < |s'.free| ensures s'.free[j] != s'.free[k] { assert s.free[k - 1] in s.free; }
  }

  lemma ForkAlmost(s: State, c: nat, vmOk: bool)
    requires Almost(s, c) && 0 <= s.cur[c] && !(s.envs[s.cur[c]].status == FREE)
    ensures Almost(Fork(s, c, vmOk), c)
  {
    if s.free != [] && vmOk {
      var i, s' := s.free[0], Fork(s, c, vmOk);
      assert Sound(s, i);
      NewIdOfSlot(s.envs[i].id, i);
      forall k: nat | k < NENV ensures Placed(s', k) && Sound(s', k) {
        assert Placed(s, k) && Sound(s, k);
        assert k in s.free <==> k == i || k in s'.free;
        if Active(s'.envs[k]) {
          var b :| 0 <= b < |s.cur| && s.cur[b] == k;
          assert s'.cur[b] == k;
        }
      }
      forall b: nat | b < |s'.cur| && b != c ensures Busy(s', b) { assert Busy(s, b); }
      forall a: nat, b: nat | a < |s'.cur| && b < |s'.cur| ensures Apart(s', a, b) { assert Apart(s, a, b); }
    }
  }

  lemma NewIdOfSlot(id: int, i: nat)
    requires i < NENV
    ensures NewId(id, i) % NENV == i && NewId(id, i) > 0
  {
  }

  // The side conditions: no status is given to an environment that is current on another processor, none that waits
  // for a message is made runnable, and none that is dying is destroyed again.
  ghost predicate Allowed(s: State, c: nat, a: Action)
    requires |s.envs| == NENV && c < |s.cur| && -1 <= s.cur[c] < NENV
  {
    s.cur[c] >= 0 ==>
      match a
      case SetStatus(envid, status) =>
        var i := Lookup(s, c, envid, true);
        i == -1 || i == s.cur[c] || status == FREE || status == DYING || status == RUNNING ||
        (!Active(s.envs[i]) && !(s.envs[i].recving && status == RUNNABLE))
      case Destroy(envid) =>
        var i := Lookup(s, c, envid, true);
        i == -1 || s.envs[i].status != DYING
      case _ => true
  }

  lemma PutStatusInKernel(s: State, c: nat, envid: int, status: Status)
    requires InKernel(s, c) && 0 <= s.cur[c] && s.envs[s.cur[c]].status == RUNNING
    requires Allowed(s, c, SetStatus(envid, status))
    ensures InKernel(PutStatus(s, c, envid, status), c)
  {
    var i := Lookup(s, c, envid, true);
    if i != -1 && (status == NOT_RUNNABLE || status == RUNNABLE) {
      assert Sound(s, i);
      forall b: nat | b < |s.cur| && b != c ensures s.cur[b] != i {
        if i == s.cur[c] { OnlyHere(s, c, b); } else { NotElsewhere(s, c, i, b); }
      }
      SetEnvAlmost(s, c, i, s.envs[i].(status := status));
    }
  }

  lemma SendInKernel(s: State, c: nat, a: Action)
    requires InKernel(s, c) && 0 <= s.cur[c] && s.envs[s.cur[c]].status == RUNNING && a.Send?
    ensures InKernel(SendTo(s, c, a), c)
  {
    if Delivers(s, c, a) {
      var i := Lookup(s, c, a.envid, false);
      assert Sound(s, i);
      forall b: nat | b < |s.cur| && b != c ensures s.cur[b] != i { NotElsewhere(s, c, i, b); }
      SetEnvAlmost(s, c, i, SendTo(s, c, a).envs[i]);
    }
  }

  lemma ReceiveInKernel(s: State, c: nat, dstva: nat)
    requires InKernel(s, c) && 0 <= s.cur[c]
    ensures InKernel(Receive(s, c, dstva), c)
  {
    if GoodVa(dstva) {
      forall b: nat | b < |s.cur| && b != c ensures s.cur[b] != s.cur[c] { OnlyHere(s, c, b); }
      SetEnvAlmost(s, c, s.cur[c], Receive(s, c, dstva).envs[s.cur[c]]);
    }
  }

  lemma DestroyInKernel(s: State, c: nat, i: nat)
    requires InKernel(s, c) && i < NENV && s.envs[i].status != FREE && s.envs[i].status != DYING
    ensures InKernel(EnvDestroy(s, c, i), c)
  {
    assert Placed(s, i) && Sound(s, i);
    if s.envs[i].status == RUNNING && s.cur[c] != i {
      SetEnvAlmost(s, c, i, s.envs[i].(status := DYING));
    } else {
      FreeAlmost(s, c, i);
    }
  }

  lemma DoInKernel(s: State, c: nat, a: Action)
    requires InKernel(s, c) && 0 <= s.cur[c] && s.envs[s.cur[c]].status == RUNNING && Allowed(s, c, a)
    ensures InKernel(Do(s, c, a), c) && |Do(s, c, a).cur| == |s.cur|
  {
    match a
    case Yield =>
    case Other =>
    case Exofork(vmOk) =>
      ForkAlmost(s, c, vmOk);
      assert s.free != [] ==> Sound(s, s.free[0]);
    case SetStatus(envid, status) => PutStatusInKernel(s, c, envid, status);
    case Destroy(envid) => if Lookup(s, c, envid, true) != -1 { DestroyInKernel(s, c, Lookup(s, c, envid, true)); }
    case Send(_, _, _, _, _) => SendInKernel(s, c, a);
    case Recv(dstva) => ReceiveInKernel(s, c, dstva);
  }

  lemma HandledInKernel(s: State, c: nat, a: Action)
    requires Inv(s) && c < |s.cur| && Allowed(s, c, a)
    ensures InKernel(Handled(s, c, a), c) && |Handled(s, c, a).cur| == |s.cur|
  {
    assert Almost(s, c) && Busy(s, c);
    if s.cur[c] >= 0 {
      if s.envs[s.cur[c]].status == DYING { FreeAlmost(s, c, s.cur[c]); } else { DoInKernel(s, c, a); }
    }
  }

  // Main result: under the side conditions every trap of every processor keeps the invariant.
  lemma TrapKeepsInv(s: State, c: nat, a: Action)
    requires Inv(s) && c < |s.cur| && Allowed(s, c, a)
    ensures InKernel(Handled(s, c, a), c) && |Handled(s, c, a).cur| == |s.cur|
    ensures !Stuck(Handled(s, c, a)) ==> Inv(Trap(s, c, a))
  {
    HandledInKernel(s, c, a);
    var s1 := Handled(s, c, a);
    if !Stuck(s1) {
      if !a.Yield? && s1.cur[c] >= 0 && s1.envs[s1.cur[c]].status == RUNNING {
        EnvRunInv(s1, c, s1.cur[c]);
      } else {
        SchedInv(s1, c);
      }
    }
  }
}
