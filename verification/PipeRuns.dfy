/** Runs of environments that share a pipe: where its end is misread, and what an end of file means. */
module PipeRuns {
  import opened PipeRefs

  lemma {:induction false} Joined(a: seq<Proc>, s: seq<Step>, b: seq<Proc>, t: seq<Step>, c: seq<Proc>)
    requires Reaches(a, s, b) && Reaches(b, t, c)
    ensures Reaches(a, s + t, c)
    decreases s
  {
    if s == [] {
      assert s + t == t;
    } else {
      var whole, rest := s + t, s[1..] + t;
      assert whole[0] == s[0] && whole[1..] == rest;
      Joined(Apply(a, s[0]), s[1..], b, t, c);
    }
  }

  lemma OneStep(a: seq<Proc>, s: Step)
    requires Enabled(a, s)
    ensures Reaches(a, [s], Apply(a, s))
  {
    assert [s][1..] == [];
  }

  // ----- Whole calls, undisturbed -----

  // p is at the given turn of a fork of child.
  function AtTurn(procs: seq<Proc>, p: nat, child: nat, turn: nat): seq<Proc>
    requires p < |procs| && child < |procs|
  {
    procs[child := Proc(CopiedSlots(procs[p].slots, turn), Unborn)][p := procs[p].(pc := Forking(child, turn))]
  }

  function ForkTurns(p: nat, n: nat, turn: nat): seq<Step>
    requires turn <= 2 * n
    decreases 2 * n - turn
  {
    if turn == 2 * n then [] else [if turn < n then ForkMapFd(p) else ForkMapData(p)] + ForkTurns(p, n, turn + 1)
  }

  lemma OneTurn(procs: seq<Proc>, p: nat, child: nat, turn: nat)
    requires p < |procs| && child < |procs| && p != child && turn < 2 * |procs[p].slots|
    ensures var s := if turn < |procs[p].slots| then ForkMapFd(p) else ForkMapData(p);
            && Enabled(AtTurn(procs, p, child, turn), s)
            && Apply(AtTurn(procs, p, child, turn), s) == AtTurn(procs, p, child, turn + 1)
  {
    NextCopied(procs[p].slots, turn);
  }

  lemma {:induction false} AllTurns(procs: seq<Proc>, p: nat, child: nat, turn: nat)
    requires p < |procs| && child < |procs| && p != child && turn <= 2 * |procs[p].slots|
    ensures var n := |procs[p].slots|;
            Reaches(AtTurn(procs, p, child, turn), ForkTurns(p, n, turn), AtTurn(procs, p, child, 2 * n))
    decreases 2 * |procs[p].slots| - turn
  {
    if turn < 2 * |procs[p].slots| {
      OneTurn(procs, p, child, turn);
      AllTurns(procs, p, child, turn + 1);
    }
  }

  lemma ForkBegins(procs: seq<Proc>, p: nat, child: nat)
    requires Inv(procs) && Enabled(procs, ForkStart(p, child))
    ensures Reaches(procs, [ForkStart(p, child)], AtTurn(procs, p, child, 0))
  {
    assert ProcOk(procs[child]);
    forall k: nat | k < |procs[p].slots| ensures procs[child].slots[k] == EMPTY { assert EmptyAt(procs[child], k); }
    assert procs[child].slots == CopiedSlots(procs[p].slots, 0);
    OneStep(procs, ForkStart(p, child));
    assert Apply(procs, ForkStart(p, child)) == AtTurn(procs, p, child, 0);
  }

  lemma ForkEnds(procs: seq<Proc>, p: nat, child: nat)
    requires p < |procs| && child < |procs| && p != child && procs[p].pc == Idle
    ensures var last := AtTurn(procs, p, child, 2 * |procs[p].slots|);
            Reaches(last, [ForkDone(p)], procs[child := Proc(procs[p].slots, Idle)])
  {
    var n := |procs[p].slots|;
    var last := AtTurn(procs, p, child, 2 * n);
    assert CopiedSlots(procs[p].slots, 2 * n) == procs[p].slots;
    OneStep(last, ForkDone(p));
    assert Apply(last, ForkDone(p)) == procs[child := Proc(procs[p].slots, Idle)];
  }

  // fork gives the child every mapping of its parent.
  lemma WholeFork(procs: seq<Proc>, p: nat, child: nat) returns (steps: seq<Step>)
    requires Inv(procs) && Enabled(procs, ForkStart(p, child))
    ensures Reaches(procs, steps, procs[child := Proc(procs[p].slots, Idle)])
  {
    var n, start := |procs[p].slots|, ForkStart(p, child);
    var first, last := AtTurn(procs, p, child, 0), AtTurn(procs, p, child, 2 * n);
    ForkBegins(procs, p, child);
    AllTurns(procs, p, child, 0);
    ForkEnds(procs, p, child);
    Joined(procs, [start], first, ForkTurns(p, n, 0), last);
    steps := [start] + ForkTurns(p, n, 0) + [ForkDone(p)];
    Joined(procs, [start] + ForkTurns(p, n, 0), last, [ForkDone(p)], procs[child := Proc(procs[p].slots, Idle)]);
  }

  // close takes both mappings away.
  lemma WholeClose(procs: seq<Proc>, p: nat, k: nat) returns (steps: seq<Step>)
    requires Enabled(procs, CloseUnmapFd(p, k))
    ensures Reaches(procs, steps, procs[p := Proc(procs[p].slots[k := EMPTY], Idle)])
  {
    var fd, data := CloseUnmapFd(p, k), CloseUnmapData(p);
    OneStep(procs, fd);
    var mid := Apply(procs, fd);
    OneStep(mid, data);
    assert Apply(mid, data)[p].slots == procs[p].slots[k := EMPTY];
    assert Apply(mid, data) == procs[p := Proc(procs[p].slots[k := EMPTY], Idle)];
    Joined(procs, [fd], mid, [data], Apply(mid, data));
    steps := [fd] + [data];
  }

  // ----- A new pipe -----

  function Unused(n: nat): Proc {
    Proc(seq(n, k => EMPTY), Free)
  }

  // pipe: one environment has both ends, in descriptors 0 and 1.
  function NewPipe(n: nat, others: nat): seq<Proc>
    requires n >= 2
  {
    [Proc(seq(n, k => if k == 0 then Slot(ReadEnd, true) else if k == 1 then Slot(WriteEnd, true) else EMPTY), Idle)]
    + seq(others, i => Unused(n))
  }

  lemma NewPipeInv(n: nat, others: nat)
    requires n >= 2
    ensures Inv(NewPipe(n, others))
  {
    var procs := NewPipe(n, others);
    forall i: nat | i < |procs| ensures ProcOk(procs[i]) && ForkOk(procs, i) {
      if i == 0 {
        forall k: nat | k < n ensures SlotOk(procs[0], k) {}
      } else {
        assert procs[i] == Unused(n);
        forall k: nat | k < n ensures EmptyAt(procs[i], k) {}
      }
    }
  }

  // The descriptors of an environment that has kept what ends it wants, out of the two it got from pipe.
  function Ends(r: bool, w: bool): Proc {
    Proc([if r then Slot(ReadEnd, true) else EMPTY, if w then Slot(WriteEnd, true) else EMPTY], Idle)
  }

  lemma TwoDescriptors()
    ensures NewPipe(2, 3) == [Ends(true, true), Unused(2), Unused(2), Unused(2)]
  {
    var procs := NewPipe(2, 3);
    assert procs[0].slots == Ends(true, true).slots;
    assert procs[1] == Unused(2) && procs[2] == Unused(2) && procs[3] == Unused(2);
  }

  lemma TwoForks() returns (steps: seq<Step>)
    ensures Reaches(NewPipe(2, 3), steps, [Ends(true, true), Ends(true, true), Ends(true, true), Unused(2)])
  {
    var a, both, none := NewPipe(2, 3), Ends(true, true), Unused(2);
    NewPipeInv(2, 3);
    TwoDescriptors();
    var s1 := WholeFork(a, 0, 1);
    var b := [both, both, none, none];
    assert a[1 := Proc(both.slots, Idle)] == b;
    RunKeepsInv(a, s1, b);
    var s2 := WholeFork(b, 0, 2);
    var c := [both, both, both, none];
    assert b[2 := Proc(both.slots, Idle)] == c;
    Joined(a, s1, b, s2, c);
    steps := s1 + s2;
  }

  lemma ThreeCloses(both: Proc, w: Proc, r: Proc, none: Proc) returns (steps: seq<Step>)
    requires both == Ends(true, true) && w == Ends(false, true) && r == Ends(true, false)
    ensures Reaches([both, both, both, none], steps, [w, r, r, none])
  {
    var c := [both, both, both, none];
    var s3 := KeepsOne(c, 0, 0, w);
    var d := [w, both, both, none];
    assert c[0 := w] == d;
    var s4 := KeepsOne(d, 1, 1, r);
    var e := [w, r, both, none];
    assert d[1 := r] == e;
    var s5 := KeepsOne(e, 2, 1, r);
    var f := [w, r, r, none];
    assert e[2 := r] == f;
    Joined(c, s3, d, s4, e);
    Joined(c, s3 + s4, e, s5, f);
    steps := s3 + s4 + s5;
  }

  // A writer and two readers that share a pipe made by pipe and passed on by two forks.
  lemma TwoReaders() returns (steps: seq<Step>)
    ensures Reaches(NewPipe(2, 3), steps, [Ends(false, true), Ends(true, false), Ends(true, false), Unused(2)])
  {
    var s := TwoForks();
    var t := ThreeCloses(Ends(true, true), Ends(false, true), Ends(true, false), Unused(2));
    Joined(NewPipe(2, 3), s, [Ends(true, true), Ends(true, true), Ends(true, true), Unused(2)], t,
           [Ends(false, true), Ends(true, false), Ends(true, false), Unused(2)]);
    steps := s + t;
  }

  lemma KeepsOne(procs: seq<Proc>, p: nat, k: nat, q: Proc) returns (steps: seq<Step>)
    requires p < |procs| && procs[p] == Ends(true, true) && k < 2 && q == Ends(k != 0, k != 1)
    ensures Reaches(procs, steps, procs[p := q])
  {
    steps := WholeClose(procs, p, k);
    assert Ends(true, true).slots[k := EMPTY] == q.slots;
  }

  // ----- The wrong answer -----

  lemma OneProcMore(procs: seq<Proc>, q: Proc)
    ensures PagerefData(procs + [q]) == PagerefData(procs) + DataRefs(q.slots)
    ensures PagerefFd(procs + [q], ReadEnd) == PagerefFd(procs, ReadEnd) + FdRefs(q.slots, ReadEnd)
    ensures PagerefFd(procs + [q], WriteEnd) == PagerefFd(procs, WriteEnd) + FdRefs(q.slots, WriteEnd)
  {
    assert (procs + [q])[..|procs + [q]| - 1] == procs;
  }

  lemma FourProcs(a: Proc, b: Proc, c: Proc, d: Proc)
    ensures PagerefData([a, b, c, d]) == DataRefs(a.slots) + DataRefs(b.slots) + DataRefs(c.slots) + DataRefs(d.slots)
    ensures PagerefFd([a, b, c, d], ReadEnd) ==
            FdRefs(a.slots, ReadEnd) + FdRefs(b.slots, ReadEnd) + FdRefs(c.slots, ReadEnd) + FdRefs(d.slots, ReadEnd)
    ensures PagerefFd([a, b, c, d], WriteEnd) ==
            FdRefs(a.slots, WriteEnd) + FdRefs(b.slots, WriteEnd) + FdRefs(c.slots, WriteEnd) + FdRefs(d.slots, WriteEnd)
  {
    OneProcMore([], a);
    OneProcMore([a], b);
    OneProcMore([a, b], c);
    OneProcMore([a, b, c], d);
    assert [] + [a] == [a] && [a] + [b] == [a, b] && [a, b] + [c] == [a, b, c] && [a, b, c] + [d] == [a, b, c, d];
  }

  lemma TwoSlotRefs(a: Slot, b: Slot)
    ensures DataRefs([a, b]) == One(a.data) + One(b.data)
    ensures FdRefs([a, b], ReadEnd) == One(a.fd == ReadEnd) + One(b.fd == ReadEnd)
    ensures FdRefs([a, b], WriteEnd) == One(a.fd == WriteEnd) + One(b.fd == WriteEnd)
  {
    assert [a, b][..1] == [a] && [a][..0] == [];
    assert DataRefs([a]) == One(a.data);
    assert FdRefs([a], ReadEnd) == One(a.fd == ReadEnd) && FdRefs([a], WriteEnd) == One(a.fd == WriteEnd);
  }

  // The reader r forks and has mapped one descriptor page in its child.
  lemma HalfFork(w: Proc, r: Proc, none: Proc, kid: Proc) returns (steps: seq<Step>)
    requires r == Ends(true, false) && none == Unused(2) && kid == Proc([Slot(ReadEnd, false), EMPTY], Unborn)
    ensures Reaches([w, r, r, none], steps, [w, r, Proc(r.slots, Forking(3, 1)), kid])
  {
    var before, start, turn := [w, r, r, none], ForkStart(2, 3), ForkMapFd(2);
    var unborn := Proc([EMPTY, EMPTY], Unborn);
    assert none.slots == unborn.slots;
    var mid := [w, r, Proc(r.slots, Forking(3, 0)), unborn];
    OneStep(before, start);
    assert Apply(before, start) == mid;
    var after := [w, r, Proc(r.slots, Forking(3, 1)), kid];
    OneStep(mid, turn);
    assert unborn.slots[0 := Slot(ReadEnd, false)] == kid.slots;
    assert Apply(mid, turn) == after;
    Joined(before, [start], mid, [turn], after);
    steps := [start] + [turn];
  }

  // A run from a new pipe: one of two readers forks, and when the descriptor page is mapped in its child and the data
  // page is not yet, the other reader is told that the pipe is closed, although a writer has it open.
  lemma ClosedTooEarly() returns (steps: seq<Step>, procs: seq<Proc>)
    ensures Reaches(NewPipe(2, 3), steps, procs)
    ensures |procs| == 4 && procs[1] == Ends(true, false)
    ensures SaysClosed(procs, ReadEnd) && PagerefFd(procs, WriteEnd) == 1
  {
    var w, r, none, kid := Ends(false, true), Ends(true, false), Unused(2), Proc([Slot(ReadEnd, false), EMPTY], Unborn);
    var s := TwoReaders();
    var t := HalfFork(w, r, none, kid);
    procs := [w, r, Proc(r.slots, Forking(3, 1)), kid];
    Joined(NewPipe(2, 3), s, [w, r, r, none], t, procs);
    steps := s + t;
    CountFour(w, r, Proc(r.slots, Forking(3, 1)), kid);
  }

  lemma CountFour(w: Proc, r: Proc, forking: Proc, kid: Proc)
    requires w == Ends(false, true) && r == Ends(true, false) && forking.slots == r.slots
    requires kid.slots == [Slot(ReadEnd, false), EMPTY]
    ensures var procs := [w, r, forking, kid];
            SaysClosed(procs, ReadEnd) && PagerefFd(procs, WriteEnd) == 1
  {
    TwoSlotRefs(EMPTY, Slot(WriteEnd, true));
    TwoSlotRefs(Slot(ReadEnd, true), EMPTY);
    TwoSlotRefs(Slot(ReadEnd, false), EMPTY);
    FourProcs(w, r, forking, kid);
  }

  // With both readers on processors of their own: one looks at its descriptor page, the other closes, the first looks at
  // the data page and takes the pipe for closed.
  lemma ClosedBetweenLooks() returns (steps: seq<Step>, x: seq<Proc>, more: seq<Step>, y: seq<Proc>)
    ensures Reaches(NewPipe(2, 3), steps, x) && Reaches(x, more, y)
    ensures |x| == |y| == 4 && x[1] == y[1] == Ends(true, false)
    ensures PagerefFd(x, ReadEnd) == PagerefData(y) && PagerefFd(y, WriteEnd) == 1
  {
    x := [Ends(false, true), Ends(true, false), Ends(true, false), Unused(2)];
    steps := TwoReaders();
    more := WholeClose(x, 2, 0);
    var w, r, gone := Ends(false, true), Ends(true, false), Ends(false, false);
    assert r.slots[0 := EMPTY] == gone.slots;
    y := x[2 := gone];
    var none := Unused(2);
    assert none.slots == [EMPTY, EMPTY] && y == [w, r, gone, none];
    CountThree(w, r, r, none);
    CountThree(w, r, gone, none);
  }

  lemma CountThree(w: Proc, r: Proc, q: Proc, none: Proc)
    requires w == Ends(false, true) && r == Ends(true, false) && none.slots == [EMPTY, EMPTY]
    requires q == r || q == Ends(false, false)
    ensures var procs := [w, r, q, none];
            && PagerefFd(procs, ReadEnd) == (if q == r then 2 else 1) && PagerefFd(procs, WriteEnd) == 1
            && PagerefData(procs) == if q == r then 3 else 2
  {
    TwoSlotRefs(EMPTY, Slot(WriteEnd, true));
    TwoSlotRefs(Slot(ReadEnd, true), EMPTY);
    TwoSlotRefs(EMPTY, EMPTY);
    FourProcs(w, r, q, none);
  }

  // ----- End of file -----

  const PIPEBUFSIZ: nat := 32

  // The environments, how many bytes have been stored in the pipe, and how many have been taken out.
  datatype System = System(procs: seq<Proc>, stored: nat, taken: nat)

  datatype Move = Map(step: Step) | Store(p: nat) | Take(p: nat)

  predicate Has(procs: seq<Proc>, p: nat, end: End) {
    p < |procs| && procs[p].pc == Idle && exists k :: 0 <= k < |procs[p].slots| && procs[p].slots[k].fd == end
  }

  predicate CanMove(x: System, m: Move) {
    match m
    case Map(s) => Enabled(x.procs, s)
    case Store(p) => Has(x.procs, p, WriteEnd) && x.stored < x.taken + PIPEBUFSIZ
    case Take(p) => Has(x.procs, p, ReadEnd) && x.taken < x.stored
  }

  function Moved(x: System, m: Move): System
    requires CanMove(x, m)
  {
    match m
    case Map(s) => x.(procs := Apply(x.procs, s))
    case Store(_) => x.(stored := x.stored + 1)
    case Take(_) => x.(taken := x.taken + 1)
  }

  predicate Leads(x: System, moves: seq<Move>, y: System)
    decreases moves
  {
    if moves == [] then y == x else CanMove(x, moves[0]) && Leads(Moved(x, moves[0]), moves[1..], y)
  }

  function Stores(moves: seq<Move>): nat {
    if moves == [] then 0 else One(moves[0].Store?) + Stores(moves[1..])
  }

  function Takes(moves: seq<Move>): nat {
    if moves == [] then 0 else One(moves[0].Take?) + Takes(moves[1..])
  }

  lemma {:induction false} LeadsCounts(x: System, moves: seq<Move>, y: System)
    requires Inv(x.procs) && Leads(x, moves, y)
    ensures Inv(y.procs) && y.stored == x.stored + Stores(moves) && y.taken == x.taken + Takes(moves)
    decreases moves
  {
    if moves != [] {
      if moves[0].Map? { StepKeepsInv(x.procs, moves[0].step); }
      LeadsCounts(Moved(x, moves[0]), moves[1..], y);
    }
  }

  // No descriptor of the end is mapped anywhere.
  ghost predicate Shut(procs: seq<Proc>, end: End) {
    forall i: nat :: i < |procs| ==> ShutAt(procs[i], end)
  }

  ghost predicate ShutAt(q: Proc, end: End) {
    forall k: nat :: k < |q.slots| ==> q.slots[k].fd != end
  }

  lemma {:induction false} NoRefs(slots: seq<Slot>, end: End)
    requires FdRefs(slots, end) == 0
    ensures forall k: nat :: k < |slots| ==> slots[k].fd != end
    decreases |slots|
  {
    if slots != [] {
      NoRefs(slots[..|slots| - 1], end);
      assert forall k: nat :: k < |slots| - 1 ==> slots[k] == slots[..|slots| - 1][k];
    }
  }

  lemma {:induction false} NoPagerefs(procs: seq<Proc>, end: End)
    requires PagerefFd(procs, end) == 0
    ensures Shut(procs, end)
    decreases |procs|
  {
    if procs != [] {
      var front, last := procs[..|procs| - 1], |procs| - 1;
      NoPagerefs(front, end);
      NoRefs(procs[last].slots, end);
      forall i: nat | i < |procs| ensures ShutAt(procs[i], end) { if i < last { assert ShutAt(front[i], end); } }
    }
  }

  // Nothing opens an end again that nobody has open.
  lemma StaysShut(procs: seq<Proc>, s: Step, end: End)
    requires Shut(procs, end) && end != NoEnd && Enabled(procs, s)
    ensures Shut(Apply(procs, s), end)
  {
    var procs' := Apply(procs, s);
    assert ShutAt(procs[s.p], end);
    forall i: nat | i < |procs'| ensures ShutAt(procs'[i], end) { assert ShutAt(procs[i], end); }
  }

  lemma NotOpen(procs: seq<Proc>, p: nat, end: End)
    requires Shut(procs, end)
    ensures !Has(procs, p, end)
  {
    assert p < |procs| ==> ShutAt(procs[p], end);
  }

  lemma {:induction false} NothingStored(x: System, moves: seq<Move>, y: System)
    requires Shut(x.procs, WriteEnd) && Leads(x, moves, y)
    ensures Shut(y.procs, WriteEnd) && y.stored == x.stored
    decreases moves
  {
    if moves != [] {
      if moves[0].Map? { StaysShut(x.procs, moves[0].step, WriteEnd); }
      if moves[0].Store? { NotOpen(x.procs, moves[0].p, WriteEnd); }
      NothingStored(Moved(x, moves[0]), moves[1..], y);
    }
  }

  // devpipe_read returns 0: it found the pipe empty in state x and closed in state y, where no fork was unfinished. No
  // byte is stored after that. All bytes have been taken exactly if between the two tests as many were taken as stored.
  lemma EndOfFile(x: System, moves: seq<Move>, y: System, later: seq<Move>, z: System)
    requires Inv(x.procs) && x.taken == x.stored && Leads(x, moves, y) && Leads(y, later, z)
    requires SaysClosed(y.procs, ReadEnd) && forall i: nat :: i < |y.procs| ==> y.procs[i].pc != Unborn
    ensures z.stored == y.stored
    ensures y.taken == z.stored <==> Stores(moves) == Takes(moves)
  {
    LeadsCounts(x, moves, y);
    ClosedIsTrue(y.procs, [], y.procs, ReadEnd);
    NoPagerefs(y.procs, WriteEnd);
    NothingStored(y, later, z);
  }

  function Lifted(steps: seq<Step>): seq<Move> {
    if steps == [] then [] else [Map(steps[0])] + Lifted(steps[1..])
  }

  lemma {:induction false} Lift(a: seq<Proc>, steps: seq<Step>, b: seq<Proc>, stored: nat, taken: nat)
    requires Reaches(a, steps, b)
    ensures Leads(System(a, stored, taken), Lifted(steps), System(b, stored, taken))
    decreases steps
  {
    if steps != [] {
      Lift(Apply(a, steps[0]), steps[1..], b, stored, taken);
      assert Lifted(steps)[1..] == Lifted(steps[1..]);
    }
  }

  // The writer w stores a byte and closes.
  lemma StoreAndClose(w: Proc, r: Proc, gone: Proc, none: Proc) returns (moves: seq<Move>)
    requires w == Ends(false, true) && gone == Ends(false, false)
    ensures Leads(System([w, r, r, none], 0, 0), moves, System([gone, r, r, none], 1, 0))
  {
    var procs, procs' := [w, r, r, none], [gone, r, r, none];
    var t := WholeClose(procs, 0, 1);
    assert w.slots[1 := EMPTY] == gone.slots;
    assert procs[0 := gone] == procs';
    Lift(procs, t, procs', 1, 0);
    assert w.slots[1].fd == WriteEnd;
    assert Has(procs, 0, WriteEnd);
    moves := [Store(0)] + Lifted(t);
    assert moves[1..] == Lifted(t);
  }

  // A run from a new pipe in which a reader reports the end of the file and leaves a byte unread: the writer stores it
  // and closes after the reader has found the pipe empty and before it asks whether the pipe is closed.
  lemma ByteMissed() returns (before: seq<Move>, x: System, between: seq<Move>, y: System)
    ensures Leads(System(NewPipe(2, 3), 0, 0), before, x) && x.taken == x.stored
    ensures Leads(x, between, y) && SaysClosed(y.procs, ReadEnd) && y.taken < y.stored
    ensures |x.procs| == |y.procs| == 4 && x.procs[1] == y.procs[1] == Ends(true, false)
  {
    var w, r, gone, none := Ends(false, true), Ends(true, false), Ends(false, false), Unused(2);
    var s := TwoReaders();
    Lift(NewPipe(2, 3), s, [w, r, r, none], 0, 0);
    before, x := Lifted(s), System([w, r, r, none], 0, 0);
    between := StoreAndClose(w, r, gone, none);
    y := System([gone, r, r, none], 1, 0);
    CountReaders(gone, r, none);
  }

  lemma CountReaders(gone: Proc, r: Proc, none: Proc)
    requires gone == Ends(false, false) && r == Ends(true, false) && none == Unused(2)
    ensures SaysClosed([gone, r, r, none], ReadEnd)
  {
    assert none.slots == [EMPTY, EMPTY];
    TwoSlotRefs(Slot(ReadEnd, true), EMPTY);
    TwoSlotRefs(EMPTY, EMPTY);
    FourProcs(gone, r, r, none);
  }
}
