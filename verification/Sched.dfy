/** The kernel's environment table and processors, changed in place; every method is tied to its value in SchedSpec. */
module Sched {
  import S = SchedSpec
  import opened Words

  type Env = S.Env

  class Kernel {
    const envs: array<Env>
    var cur: seq<int>
    var free: seq<nat>

    function State(): S.State
      reads this, envs
    {
      S.State(envs[..], cur, free)
    }

    ghost predicate Shaped(c: nat)
      reads this, envs
    {
      envs.Length == S.NENV && S.Shape(State()) && c < |cur|
    }

    // env_init: every slot is free, in order, and the processors have nothing to run.
    constructor (ncpu: nat)
      ensures S.Inv(State()) && |cur| == ncpu && |free| == S.NENV == envs.Length && fresh(envs)
      ensures forall i :: 0 <= i < S.NENV ==> envs[i].status == S.FREE && free[i] == i
    {
      envs := new Env[S.NENV](i => S.Env(0, S.FREE, 0, 0, false, 0, 0, 0, 0));
      cur := seq(ncpu, c => -1);
      free := seq(S.NENV, k requires k >= 0 => k);
      new;
      ghost var s := State();
      forall i: nat | i < S.NENV ensures S.Placed(s, i) && S.Sound(s, i) { assert s.free[i] == i; }
    }

    // envs[i] = e
    method Store(i: nat, e: Env)
      requires i < envs.Length
      modifies envs
      ensures State() == S.SetEnv(old(State()), i, e)
    {
      envs[i] := e;
      assert envs[..] == old(envs[..])[i := e];
    }

    // env_run
    method EnvRun(c: nat, i: nat)
      requires Shaped(c) && i < S.NENV
      modifies this`cur, envs
      ensures State() == S.EnvRun(old(State()), c, i)
    {
      var p := cur[c];
      if p >= 0 && envs[p].status == S.RUNNING { Store(p, envs[p].(status := S.RUNNABLE)); }
      cur := cur[c := i];
      Store(i, envs[i].(status := S.RUNNING, runs := envs[i].runs + 1));
    }

    // The scan of sched_yield: the first least-run runnable environment after start, or -1.
    method Scan(start: nat) returns (min: int)
      requires envs.Length == S.NENV && start < S.NENV
      ensures -1 <= min < S.NENV && min == S.Pick(envs[..], start, S.NENV)
      ensures S.LeastRun(envs[..], start, S.NENV, min)
    {
      min := -1;
      ghost var es := envs[..];
      var i, j := start, 0;
      while j < S.NENV
        invariant 0 <= j <= S.NENV && i == S.At(start, j) && -1 <= min < S.NENV && min == S.Pick(es, start, j)
      {
        ghost var best := min;
        if envs[i].status == S.RUNNABLE {
          if min >= 0 {
            min := if envs[i].runs < envs[min].runs then i else min;
          } else {
            min := i;
          }
        }
        assert min == S.Better(es, i, best);
        S.NextAt(start, j);
        j := j + 1;
        i := (i + 1) % S.NENV;
      }
      S.PickIsLeastRun(es, start, S.NENV);
    }

    // The search of sched_halt for anything that may still run.
    method AnythingLeft() returns (found: bool)
      ensures found <==> !S.Stuck(State())
    {
      var i := 0;
      while i < envs.Length
        invariant 0 <= i <= envs.Length
        invariant forall k :: 0 <= k < i ==>
                    envs[k].status != S.RUNNABLE && envs[k].status != S.RUNNING && envs[k].status != S.DYING
      {
        if envs[i].status == S.RUNNABLE || envs[i].status == S.RUNNING || envs[i].status == S.DYING {
          assert State().envs[i] == envs[i];
          return true;
        }
        i := i + 1;
      }
      found := false;
    }

    // sched_yield and sched_halt
    method SchedYield(c: nat)
      requires Shaped(c)
      modifies this`cur, envs
      ensures State() == S.Sched(old(State()), c)
    {
      var idle := cur[c];
      var start := if idle >= 0 then (envs[idle].id % S.NENV + 1) % S.NENV else 0;
      var min := Scan(start);
      assert min == S.Chosen(State(), c);
      if min >= 0 {
        EnvRun(c, min);
        return;
      }
      if idle >= 0 && envs[idle].status == S.RUNNING {
        EnvRun(c, idle);
        return;
      }
      var found := AnythingLeft();
      if found { cur := cur[c := -1]; }
    }

    // env_free, of what the scheduler sees
    method EnvFree(i: nat)
      requires i < envs.Length == S.NENV
      modifies this`free, envs
      ensures State() == S.EnvFree(old(State()), i)
    {
      Store(i, envs[i].(status := S.FREE));
      free := [i] + free;
    }

    // env_destroy, up to its call of sched_yield
    method EnvDestroy(c: nat, i: nat)
      requires Shaped(c) && i < S.NENV
      modifies this`cur, this`free, envs
      ensures State() == S.EnvDestroy(old(State()), c, i)
    {
      if envs[i].status == S.RUNNING && cur[c] != i {
        Store(i, envs[i].(status := S.DYING));
        return;
      }
      EnvFree(i);
      if cur[c] == i { cur := cur[c := -1]; }
    }

    // envid2env
    method Envid2Env(c: nat, envid: int, checkperm: bool) returns (i: int)
      requires Shaped(c) && cur[c] >= 0
      ensures -1 <= i < S.NENV && i == S.Lookup(State(), c, envid, checkperm)
    {
      if envid == 0 { return cur[c]; }
      i := envid % S.NENV;
      if envs[i].status == S.FREE || envs[i].id != envid { return -1; }
      if checkperm && i != cur[c] && envs[i].parent != envs[cur[c]].id { return -1; }
    }

    // sys_exofork, with env_alloc
    method SysExofork(c: nat, vmOk: bool) returns (r: int)
      requires Shaped(c) && cur[c] >= 0
      modifies this`free, envs
      ensures State() == S.Fork(old(State()), c, vmOk) && r == S.Result(old(State()), c, S.Exofork(vmOk))
    {
      if free == [] { return -S.E_NO_FREE_ENV; }
      if !vmOk { return -S.E_NO_MEM; }
      var i := free[0];
      var x := S.Wrap32(envs[i].id + S.GENERATION);
      var generation := x - x % S.NENV;
      if generation <= 0 { generation := S.GENERATION; }
      var parent := envs[cur[c]].id;
      Store(i, envs[i].(id := generation + i, parent := parent, status := S.RUNNABLE, runs := 0, recving := false));
      free := free[1..];
      Store(i, envs[i].(status := S.NOT_RUNNABLE));
      r := envs[i].id;
    }

    // sys_env_set_status
    method SysEnvSetStatus(c: nat, envid: int, status: S.Status) returns (r: int)
      requires Shaped(c) && cur[c] >= 0
      modifies envs
      ensures State() == S.PutStatus(old(State()), c, envid, status)
      ensures r == S.Result(old(State()), c, S.SetStatus(envid, status))
    {
      if status != S.NOT_RUNNABLE && status != S.RUNNABLE { return -S.E_INVAL; }
      var i := Envid2Env(c, envid, true);
      if i == -1 { return -S.E_BAD_ENV; }
      Store(i, envs[i].(status := status));
      r := 0;
    }

    // sys_env_destroy
    method SysEnvDestroy(c: nat, envid: int) returns (r: int)
      requires Shaped(c) && cur[c] >= 0
      modifies this`cur, this`free, envs
      ensures State() == S.Do(old(State()), c, S.Destroy(envid)) && r == S.Result(old(State()), c, S.Destroy(envid))
    {
      var i := Envid2Env(c, envid, true);
      if i == -1 { return -S.E_BAD_ENV; }
      EnvDestroy(c, i);
      r := 0;
    }

    // sys_ipc_try_send
    method SysIpcTrySend(c: nat, a: S.Action) returns (r: int)
      requires Shaped(c) && cur[c] >= 0 && a.Send?
      modifies envs
      ensures State() == S.SendTo(old(State()), c, a) && r == S.Result(old(State()), c, a)
    {
      if a.srcva % S.PGSIZE != 0 || a.srcva >= S.UTOP { return -S.E_INVAL; }
      var i := Envid2Env(c, a.envid, false);
      if i == -1 { return -S.E_BAD_ENV; }
      if !envs[i].recving { return -S.E_IPC_NOT_RECV; }
      var perm := 0;
      if envs[i].dstva != 0 && a.srcva != 0 {
        if a.page == S.NoPage { return -S.E_INVAL; }
        if a.page == S.ReadOnly && (a.perm / 2) % 2 == 1 { return -S.E_INVAL; }
        if a.page == S.NoMemory { return -S.E_NO_MEM; }
        perm := BitOr(a.perm, S.PTE_U_P);
      }
      var from := envs[cur[c]].id;
      Store(i, envs[i].(perm := perm, value := a.value, from := from, recving := false, status := S.RUNNABLE));
      r := 0;
    }

    // sys_ipc_recv, up to its call of sched_yield; the 0 is left in the trap frame.
    method SysIpcRecv(c: nat, dstva: nat) returns (r: int)
      requires Shaped(c) && cur[c] >= 0
      modifies envs
      ensures State() == S.Receive(old(State()), c, dstva) && r == S.Result(old(State()), c, S.Recv(dstva))
    {
      if dstva % S.PGSIZE != 0 || dstva >= S.UTOP { return -S.E_INVAL; }
      Store(cur[c], envs[cur[c]].(recving := true, dstva := dstva, status := S.NOT_RUNNABLE));
      r := 0;
    }

    // The system call or other work of a trap.
    method Dispatch(c: nat, a: S.Action) returns (r: int)
      requires Shaped(c) && cur[c] >= 0
      modifies this`cur, this`free, envs
      ensures State() == S.Do(old(State()), c, a) && r == S.Result(old(State()), c, a)
    {
      r := 0;
      match a
      case Yield =>
      case Other =>
      case Exofork(vmOk) => r := SysExofork(c, vmOk);
      case SetStatus(envid, status) => r := SysEnvSetStatus(c, envid, status);
      case Destroy(envid) => r := SysEnvDestroy(c, envid);
      case Send(_, _, _, _, _) => r := SysIpcTrySend(c, a);
      case Recv(dstva) => r := SysIpcRecv(c, dstva);
    }

    // trap, from taking the lock to releasing it
    method Trap(c: nat, a: S.Action)
      requires S.Inv(State()) && c < |cur| && S.Allowed(State(), c, a) && !S.Stuck(S.Handled(State(), c, a))
      modifies this`cur, this`free, envs
      ensures S.Inv(State()) && S.Leads(old(State()), c, a, State())
    {
      S.TrapKeepsInv(State(), c, a);
      if cur[c] >= 0 && envs[cur[c]].status == S.DYING {
        EnvFree(cur[c]);
        cur := cur[c := -1];
        SchedYield(c);
        return;
      }
      if cur[c] >= 0 { var _ := Dispatch(c, a); }
      if !a.Yield? && cur[c] >= 0 && envs[cur[c]].status == S.RUNNING {
        EnvRun(c, cur[c]);
      } else {
        SchedYield(c);
      }
    }
  }
}
