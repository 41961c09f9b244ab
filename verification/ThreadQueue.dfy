/**
  The cooperative threads of lib/thread.c: the linked queue of include/threadq.h, and yielding, which runs the
  threads in turn.
 */
module ThreadQueue {
  import opened Words

  class ThreadContext {
    var waitAddr: nat
    var wakeup: bool
    var link: ThreadContext?

    constructor ()
      ensures waitAddr == 0 && !wakeup && link == null
    {
      waitAddr, wakeup, link := 0, false, null;
    }
  }

  ghost predicate Distinct(s: seq<ThreadContext>) {
    forall i, j :: 0 <= i < j < |s| ==> s[i] != s[j]
  }

  ghost function LinkOf(s: seq<ThreadContext>, i: nat): ThreadContext?
    requires i < |s|
  {
    if i == |s| - 1 then null else s[i + 1]
  }

  class Queue {
    var first: ThreadContext?
    var last: ThreadContext?
    ghost var contents: seq<ThreadContext>

    // last is meaningful only while the queue is not empty.
    ghost predicate Valid()
      reads this, contents
    {
      && Distinct(contents)
      && first == (if contents == [] then null else contents[0])
      && (contents != [] ==> last == contents[|contents| - 1])
      && forall i :: 0 <= i < |contents| ==> contents[i].link == LinkOf(contents, i)
    }

    // threadq_init
    constructor ()
      ensures Valid() && contents == []
    {
      first, last, contents := null, null, [];
    }

    // threadq_push
    method Push(tc: ThreadContext)
      requires Valid() && tc !in contents
      modifies this, tc`link, (if contents == [] then {} else {contents[|contents| - 1]})`link
      ensures Valid() && contents == old(contents) + [tc]
    {
      tc.link := null;
      if first == null {
        first, last := tc, tc;
      } else {
        last.link := tc;
        last := tc;
      }
      ghost var was := contents;
      contents := contents + [tc];
      forall i | 0 <= i < |contents| ensures contents[i].link == LinkOf(contents, i) {
        if i < |was| - 1 { assert was[i].link == LinkOf(was, i) && was[i] != was[|was| - 1]; }
      }
    }

    // threadq_pop
    method Pop() returns (tc: ThreadContext?)
      requires Valid()
      modifies this`first, this`contents, (if contents == [] then {} else {contents[0]})`link
      ensures Valid()
      ensures tc == null <==> old(contents) == []
      ensures tc == null ==> contents == old(contents)
      ensures tc != null ==> old(contents) == [tc] + contents && tc.link == null
    {
      tc := first;
      if tc == null { return; }
      first := tc.link;
      tc.link := null;
      contents := contents[1..];
    }

    // Thread k is marked if it was before, or if it is below n and waits on addr.
    ghost predicate MarkedAt(was: seq<bool>, addr: nat, n: nat, k: nat)
      requires k < |contents| == |was|
      reads this, contents
    {
      contents[k].wakeup <==> was[k] || (k < n && contents[k].waitAddr == addr)
    }

    // One turn of thread_wakeup, at thread n.
    method MarkIf(tc: ThreadContext, addr: nat, ghost was: seq<bool>, ghost n: nat, ghost next: nat)
      requires Valid() && n < |contents| == |was| && tc == contents[n] && next == n + 1
      requires forall k: nat :: k < |contents| ==> MarkedAt(was, addr, n, k)
      modifies tc`wakeup
      ensures Valid()
      ensures forall k: nat :: k < |contents| ==> MarkedAt(was, addr, next, k)
    {
      assert MarkedAt(was, addr, n, n);
      if tc.waitAddr == addr { tc.wakeup := true; }
      forall k: nat | k < |contents| ensures MarkedAt(was, addr, next, k) {
        assert old(MarkedAt(was, addr, n, k));
        assert k != n ==> contents[k] != tc;
      }
    }

    // thread_wakeup: the waiters on addr, and no others, are marked.
    method Wakeup(addr: nat)
      requires Valid()
      modifies contents`wakeup
      ensures Valid()
      ensures forall tc :: tc in contents ==> (tc.wakeup <==> old(tc.wakeup) || tc.waitAddr == addr)
    {
      var tc := first;
      ghost var i, q := 0, contents;
      ghost var was := seq(|q|, k requires 0 <= k < |q| reads q => q[k].wakeup);
      assert forall k: nat :: k < |contents| ==> MarkedAt(was, addr, 0, k);
      while tc != null
        invariant Valid() && 0 <= i <= |contents| && tc == (if i < |contents| then contents[i] else null)
        invariant forall k: nat :: k < |contents| ==> MarkedAt(was, addr, i, k)
        decreases |contents| - i
      {
        MarkIf(tc, addr, was, i, i + 1);
        tc := tc.link;
        i := i + 1;
      }
      forall t | t in contents ensures t.wakeup <==> old(t.wakeup) || t.waitAddr == addr {
        var k: nat :| k < |contents| && contents[k] == t;
        assert MarkedAt(was, addr, i, k);
      }
    }
  }

  // The threads of a process: the one that runs, and the queue of the others.
  class Threads {
    var cur: ThreadContext
    const ready: Queue

    constructor (main: ThreadContext)
      ensures Valid() && cur == main && ready.contents == [] && fresh(ready)
    {
      cur := main;
      ready := new Queue();
    }

    ghost predicate Valid()
      reads this, ready, ready.contents
    {
      ready.Valid() && cur !in ready.contents
    }

    // All threads, in the order in which they will run.
    ghost function Order(): seq<ThreadContext>
      reads this, ready
    {
      [cur] + ready.contents
    }

    // thread_create puts a new thread at the end.
    method Create(tc: ThreadContext)
      requires Valid() && tc !in Order()
      modifies ready, tc`link, ready.contents`link
      ensures Valid() && Order() == old(Order()) + [tc]
    {
      ready.Push(tc);
    }

    // thread_yield: the first waiting thread runs and the running one goes to the end.
    method Yield()
      requires Valid()
      modifies this, ready, cur`link, ready.contents`link
      ensures Valid() && Order() == Cycle(old(Order()))
    {
      ghost var was := ready.contents;
      var next := ready.Pop();
      if next == null { return; }
      assert ready.contents != [] ==> ready.contents[|ready.contents| - 1] == was[|was| - 1];
      ready.Push(cur);
      cur := next;
      assert Order() == was + [old(cur)];
    }
  }

  // The first goes to the end.
  function Cycle<T>(s: seq<T>): (r: seq<T>)
    requires s != []
    ensures |r| == |s| && forall x :: x in r ==> x in s
  {
    s[1..] + [s[0]]
  }

  function Cycled<T>(s: seq<T>, n: nat): (r: seq<T>)
    requires s != []
    ensures |r| == |s|
  {
    if n == 0 then s else Cycle(Cycled(s, n - 1))
  }

  // After n yields the threads are in their old order, counted round from place n.
  lemma {:induction false} CycledRotates<T>(s: seq<T>, n: nat)
    requires s != []
    ensures Cycled(s, n) == Rotate(s, n)
  {
    if n == 0 {
      RotateNone(s);
    } else {
      var m := n - 1;
      CycledRotates(s, m);
      RotateMore(s, m, n);
    }
  }

  // So the thread at place n runs after n yields.
  lemma RunsAfter<T>(s: seq<T>, n: nat)
    requires n < |s|
    ensures Cycled(s, n)[0] == s[n]
  {
    CycledRotates(s, n);
    DivModUnique(n, 0, n, |s|);
  }

  // s with its first n elements, counted round and round, moved to the end.
  function Rotate<T>(s: seq<T>, n: nat): (r: seq<T>)
    requires s != []
    ensures |r| == |s|
  {
    Turn(s, n % |s|)
  }

  function Turn<T>(s: seq<T>, a: nat): (r: seq<T>)
    requires a < |s|
    ensures |r| == |s|
  {
    s[a..] + s[..a]
  }

  lemma TurnMore<T>(s: seq<T>, a: nat)
    requires a < |s|
    ensures Cycle(Turn(s, a)) == Turn(s, if a == |s| - 1 then 0 else a + 1)
  {
  }

  lemma RotateNone<T>(s: seq<T>)
    requires s != []
    ensures Rotate(s, 0) == s
  {
    assert 0 % |s| == 0;
  }

  lemma RotateMore<T>(s: seq<T>, k: nat, next: nat)
    requires s != [] && next == k + 1
    ensures Cycle(Rotate(s, k)) == Rotate(s, next)
  {
    NextRemainder(k, |s|);
    TurnMore(s, k % |s|);
  }
}
