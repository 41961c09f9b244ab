/**
  Mailboxes of lib/itc.c: a ring of MBOXSLOTS messages guarded by two semaphores, used by cooperative threads. Between
  two yields a thread runs alone, so each method here is what one thread does in one turn: start a call, or go on with
  the call it is waiting in. Any thread may have the next turn. The mailbox is not freed while in use.
 */
module Mailbox {

  const MBOXSLOTS: nat := 32

  // The two halves of the word a waiting thread watches.
  datatype Sem = Sem(counter: nat, waiters: nat)

  datatype SemName = FreeMsg | QueuedMsg

  datatype Patience = Forever | Timed | NoWait

  datatype Call<T> = Post(msg: T) | Fetch(patience: Patience)

  // What a thread is doing between its turns: nothing here, or waiting since it read val.
  datatype Thread<T> = Idle | Waiting(call: Call<T>, val: Sem, woken: bool)

  datatype Outcome<T> = Posted | Got(msg: T) | Blocked | TimedOut

  function Watched<T>(call: Call<T>): SemName {
    if call.Post? then FreeMsg else QueuedMsg
  }

  function Next(i: int): int {
    (i + 1) % MBOXSLOTS
  }

  // ----- The ring -----

  function Count(head: int, nextq: int): int {
    if head == -1 then 0 else if nextq > head then nextq - head else nextq + MBOXSLOTS - head
  }

  ghost predicate Indices(head: int, nextq: int) {
    -1 <= head < MBOXSLOTS && 0 <= nextq < MBOXSLOTS
  }

  // The slot i places after head, round the end of the ring.
  function Place(head: int, i: int): int {
    if head + i < MBOXSLOTS then head + i else head + i - MBOXSLOTS
  }

  // The messages from head on, up to nextq.
  ghost function Ring<T>(msg: seq<T>, head: int, nextq: int): (r: seq<T>)
    requires Indices(head, nextq) && |msg| == MBOXSLOTS
    ensures |r| == Count(head, nextq) && forall i :: 0 <= i < |r| ==> r[i] == msg[Place(head, i)]
  {
    seq(Count(head, nextq), i requires 0 <= i < Count(head, nextq) => msg[Place(head, i)])
  }

  lemma RingPut<T>(msg: seq<T>, head: int, nextq: int, m: T, head': int, nextq': int)
    requires Indices(head, nextq) && |msg| == MBOXSLOTS && nextq != head
    requires nextq' == Next(nextq) && head' == if head == -1 then nextq else head
    ensures Ring(msg[nextq := m], head', nextq') == Ring(msg, head, nextq) + [m]
  {
    var was, now := Ring(msg, head, nextq), Ring(msg[nextq := m], head', nextq');
    assert |now| == |was| + 1;
    forall i | 0 <= i < |now| ensures now[i] == (was + [m])[i] {
      assert now[i] == msg[nextq := m][Place(head', i)];
    }
  }

  lemma RingTake<T>(msg: seq<T>, head: int, nextq: int, head': int)
    requires Indices(head, nextq) && |msg| == MBOXSLOTS && head != -1
    requires head' == if Next(head) == nextq then -1 else Next(head)
    ensures Ring(msg, head, nextq) == [msg[head]] + Ring(msg, head', nextq)
  {
    var was, now := Ring(msg, head, nextq), Ring(msg, head', nextq);
    assert |was| == |now| + 1;
    forall i | 0 <= i < |was| ensures was[i] == ([msg[head]] + now)[i] {
      assert was[i] == msg[Place(head, i)];
    }
  }

  // ----- Threads -----

  ghost predicate WaitsForMore<T(!new)>(threads: map<nat, Thread<T>>) {
    forall t :: t in threads && threads[t].Waiting? ==>
                  threads[t].val.counter == 0 && threads[t].call != Fetch(NoWait)
  }

  // thread_wakeup: the threads that watch semaphore w are marked.
  function Wake<T>(threads: map<nat, Thread<T>>, w: SemName): (woken: map<nat, Thread<T>>)
    ensures woken.Keys == threads.Keys
    ensures forall t :: t in threads && threads[t].Waiting? && Watched(threads[t].call) == w ==>
                           woken[t] == threads[t].(woken := true)
  {
    map t | t in threads ::
      if threads[t].Waiting? && Watched(threads[t].call) == w then threads[t].(woken := true) else threads[t]
  }

  // Every thread but t is doing what it did, though it may have been woken.
  ghost predicate Bystanders<T(!new)>(threads: map<nat, Thread<T>>, threads': map<nat, Thread<T>>, t: nat) {
    forall u :: u in threads && u != t ==> u in threads' && OnlyWoken(threads[u], threads'[u])
  }

  ghost predicate AllOnlyWoken<T(!new)>(threads: map<nat, Thread<T>>, threads': map<nat, Thread<T>>) {
    threads'.Keys == threads.Keys && forall u :: u in threads ==> u in threads' && OnlyWoken(threads[u], threads'[u])
  }

  ghost predicate OnlyWoken<T(!new)>(a: Thread<T>, b: Thread<T>) {
    b == a || (a.Waiting? && b == a.(woken := true))
  }

  // The turns of a run, and what they did.
  datatype Turn<T> = Turn(thread: nat, call: Call<T>, expired: bool)

  function Sent<T>(log: seq<(Call<T>, Outcome<T>)>): seq<T> {
    if log == [] then []
    else
      var (call, r) := log[|log| - 1];
      Sent(log[..|log| - 1]) + if r.Posted? && call.Post? then [call.msg] else []
  }

  function Received<T>(log: seq<(Call<T>, Outcome<T>)>): seq<T> {
    if log == [] then []
    else
      var (_, r) := log[|log| - 1];
      Received(log[..|log| - 1]) + if r.Got? then [r.msg] else []
  }

  // One more turn keeps what came in equal to what went out and what is there.
  lemma OneMoreTurn<T>(start: seq<T>, log: seq<(Call<T>, Outcome<T>)>, was: seq<T>, now: seq<T>,
                       call: Call<T>, r: Outcome<T>)
    requires start + Sent(log) == Received(log) + was
    requires r.Posted? ==> call.Post? && now == was + [call.msg]
    requires r.Got? ==> was == [r.msg] + now
    requires !r.Posted? && !r.Got? ==> now == was
    ensures start + Sent(log + [(call, r)]) == Received(log + [(call, r)]) + now
  {
    var more := log + [(call, r)];
    assert more[..|more| - 1] == log && more[|more| - 1] == (call, r);
    if r.Got? {
      assert Received(more) + now == Received(log) + was;
    } else if r.Posted? {
      assert start + Sent(more) == (start + Sent(log)) + [call.msg];
      assert Received(more) == Received(log) + [];
      assert Received(more) + now == (Received(log) + was) + [call.msg];
    } else {
      assert Sent(more) == Sent(log) && Received(more) == Received(log);
    }
  }

  class Mailbox<T(0, !new)> {
    var head: int
    var nextq: int
    const msg: array<T>
    var queued: Sem
    var free: Sem
    var threads: map<nat, Thread<T>>

    ghost function Contents(): seq<T>
      requires msg.Length == MBOXSLOTS && Indices(head, nextq)
      reads this, msg
    {
      Ring(msg[..], head, nextq)
    }

    // Of the units of the two semaphores, q and f are in the hands of the running thread.
    ghost predicate Counted(q: nat, f: nat)
      reads this, msg
    {
      && msg.Length == MBOXSLOTS && Indices(head, nextq) && WaitsForMore(threads)
      && queued.counter + q == |Contents()| && free.counter + f + |Contents()| == MBOXSLOTS
    }

    ghost predicate Valid()
      reads this, msg
    {
      Counted(0, 0)
    }

    // sys_mbox_new; the semaphores may have been in use before, and keep their waiters marks.
    constructor (names: set<nat>, mark: nat, mark': nat)
      ensures Valid() && Contents() == [] && threads.Keys == names && fresh(msg)
      ensures forall t :: t in names ==> threads[t] == Idle
    {
      head, nextq := -1, 0;
      msg := new T[MBOXSLOTS];
      queued, free := Sem(0, mark), Sem(MBOXSLOTS, mark');
      threads := map t | t in names :: Idle;
    }

    function S(w: SemName): Sem
      reads this
    {
      if w == FreeMsg then free else queued
    }

    method SetS(w: SemName, v: Sem)
      modifies this`queued, this`free
      ensures S(w) == v
      ensures w == FreeMsg ==> queued == old(queued)
      ensures w == QueuedMsg ==> free == old(free)
    {
      if w == FreeMsg { free := v; } else { queued := v; }
    }

    // sys_sem_signal
    method Signal(w: SemName)
      modifies this`queued, this`free, this`threads
      ensures S(w).counter == old(S(w)).counter + 1
      ensures w == FreeMsg ==> queued == old(queued)
      ensures w == QueuedMsg ==> free == old(free)
      ensures threads == if old(S(w)).waiters != 0 then Wake(old(threads), w) else old(threads)
      ensures WaitsForMore(old(threads)) ==> WaitsForMore(threads)
      ensures AllOnlyWoken(old(threads), threads)
    {
      SetS(w, S(w).(counter := S(w).counter + 1));
      if S(w).waiters != 0 {
        SetS(w, S(w).(waiters := 0));
        threads := Wake(threads, w);
      }
    }

    // The loop of sys_arch_sem_wait, up to where the thread yields or goes on with a unit in hand.
    method TakeOrWait(t: nat, call: Call<T>) returns (got: bool)
      requires WaitsForMore(threads) && t in threads && (call == Fetch(NoWait) ==> queued.counter > 0)
      modifies this`queued, this`free, this`threads
      ensures WaitsForMore(threads) && threads.Keys == old(threads.Keys)
      ensures got <==> old(S(Watched(call))).counter > 0
      ensures S(Watched(call)).counter == old(S(Watched(call))).counter - if got then 1 else 0
      ensures Watched(call) == FreeMsg ==> queued == old(queued)
      ensures Watched(call) == QueuedMsg ==> free == old(free)
      ensures threads == old(threads)[t := if got then Idle else Waiting(call, Sem(0, 1), false)]
    {
      var w := Watched(call);
      var v := S(w);
      while v.counter == 0 && v.waiters != 1
        invariant v == S(w) && v.counter == old(S(w)).counter && threads == old(threads)
        invariant w == FreeMsg ==> queued == old(queued)
        invariant w == QueuedMsg ==> free == old(free)
        decreases v.waiters != 1
      {
        // The word has changed since it was read, so thread_wait returns at once.
        SetS(w, v.(waiters := 1));
        v := S(w);
      }
      got := v.counter > 0;
      if got {
        SetS(w, v.(counter := v.counter - 1));
        threads := threads[t := Idle];
      } else {
        threads := threads[t := Waiting(call, v, false)];
      }
    }

    // The rest of sys_mbox_trypost, with a unit of free_msg in hand; ERR_MEM is never returned.
    method Put(m: T)
      requires Counted(0, 1)
      modifies this`head, this`nextq, this`queued, this`free, this`threads, msg
      ensures Valid() && Contents() == old(Contents()) + [m] && AllOnlyWoken(old(threads), threads)
    {
      assert nextq != head;
      ghost var ring, h, n := msg[..], head, nextq;
      var slot := nextq;
      nextq := Next(slot);
      msg[slot] := m;
      if head == -1 { head := slot; }
      assert msg[..] == ring[n := m];
      RingPut(ring, h, n, m, head, nextq);
      Signal(QueuedMsg);
    }

    // The rest of sys_arch_mbox_fetch, with a unit of queued_msg in hand; there is always a message.
    method Take() returns (m: T)
      requires Counted(1, 0)
      modifies this`head, this`queued, this`free, this`threads
      ensures Valid() && old(Contents()) == [m] + Contents() && AllOnlyWoken(old(threads), threads)
    {
      assert head != -1;
      ghost var h := head;
      m := msg[head];
      head := Next(head);
      if head == nextq { head := -1; }
      RingTake(msg[..], h, nextq, head);
      Signal(FreeMsg);
    }

    // The call thread t is in, or the one it is about to make.
    function CallOf(t: nat, start: Call<T>): Call<T>
      reads this
    {
      if t in threads && threads[t].Waiting? then threads[t].call else start
    }

    // A turn of thread t: it makes the call start, or goes on with the call it waits in. A timed wait may have expired.
    method TakeTurn(t: nat, start: Call<T>, expired: bool) returns (r: Outcome<T>)
      requires Valid() && t in threads
      modifies this`head, this`nextq, this`queued, this`free, this`threads, msg
      ensures Valid() && threads.Keys == old(threads.Keys)
      ensures var call := old(CallOf(t, start));
              && (r.Posted? <==> call.Post? && |old(Contents())| < MBOXSLOTS)
              && (r.Got? <==> call.Fetch? && old(Contents()) != [] && !old(Expires(t, expired)))
              && (r.TimedOut? <==> old(Expires(t, expired)) || (call == Fetch(NoWait) && old(Contents()) == []))
              && (r.Posted? ==> Contents() == old(Contents()) + [call.msg])
              && (r.Got? ==> old(Contents()) == [r.msg] + Contents())
              && (!r.Posted? && !r.Got? ==> Contents() == old(Contents()))
              && (if r.Blocked? then threads[t].Waiting? && threads[t].call == call else threads[t] == Idle)
              && Bystanders(old(threads), threads, t)
    {
      var call := CallOf(t, start);
      var w := Watched(call);
      if threads[t].Waiting? {
        if Expires(t, expired) {
          threads := threads[t := Idle];
          return TimedOut;
        }
        if S(w) == threads[t].val && !threads[t].woken && !expired { return Blocked; }
      }
      if call == Fetch(NoWait) && queued.counter == 0 { return TimedOut; }
      var got := TakeOrWait(t, call);
      if !got { return Blocked; }
      match call
      case Post(m) =>
        Put(m);
        r := Posted;
      case Fetch(_) =>
        var m := Take();
        r := Got(m);
    }

    // The time of a timed fetch that is waiting is over.
    predicate Expires(t: nat, expired: bool)
      reads this
    {
      expired && t in threads && threads[t].Waiting? && threads[t].call == Fetch(Timed)
    }

    // Any sequence of turns: what is received is what was there and then what is sent, in order, each once.
    method Run(turns: seq<Turn<T>>) returns (log: seq<(Call<T>, Outcome<T>)>)
      requires Valid() && forall i :: 0 <= i < |turns| ==> turns[i].thread in threads
      modifies this`head, this`nextq, this`queued, this`free, this`threads, msg
      ensures Valid() && |log| == |turns|
      ensures old(Contents()) + Sent(log) == Received(log) + Contents()
    {
      log := [];
      ghost var start := Contents();
      var i := 0;
      while i < |turns|
        invariant 0 <= i == |log| <= |turns| && Valid() && threads.Keys == old(threads.Keys)
        invariant start + Sent(log) == Received(log) + Contents()
      {
        var call := CallOf(turns[i].thread, turns[i].call);
        ghost var before, was := log, Contents();
        var r := TakeTurn(turns[i].thread, turns[i].call, turns[i].expired);
        OneMoreTurn(start, before, was, Contents(), call, r);
        log := log + [(call, r)];
        i := i + 1;
      }
    }
  }
}
