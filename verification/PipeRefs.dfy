/**
  Who still has a pipe open, told by page reference counts (lib/pipe.c, lib/fd.c, lib/fork.c). Every open descriptor of
  the pipe is a slot with two mappings: a descriptor page, that of the read end or of the write end, and the shared data
  page. dup, close and fork change these mappings one system call at a time, and between two of the calls anything can
  happen elsewhere.
 */
module PipeRefs {

  datatype End = NoEnd | ReadEnd | WriteEnd

  // One descriptor number of one environment: which descriptor page is mapped, and whether the data page is.
  datatype Slot = Slot(fd: End, data: bool)

  // What an environment is in the middle of. Free: it does not exist. Unborn: it was made by a fork that has not yet
  // made it runnable.
  datatype Pc = Free | Unborn | Idle | Duping(src: nat, dst: nat) | Closing(dst: nat) | Forking(child: nat, turn: nat)

  datatype Proc = Proc(slots: seq<Slot>, pc: Pc)

  const EMPTY := Slot(NoEnd, false)

  // ----- Reference counts -----

  function One(b: bool): nat {
    if b then 1 else 0
  }

  function FdRefs(slots: seq<Slot>, end: End): nat {
    if slots == [] then 0 else FdRefs(slots[..|slots| - 1], end) + One(slots[|slots| - 1].fd == end)
  }

  function DataRefs(slots: seq<Slot>): nat {
    if slots == [] then 0 else DataRefs(slots[..|slots| - 1]) + One(slots[|slots| - 1].data)
  }

  // pageref of a descriptor page
  function PagerefFd(procs: seq<Proc>, end: End): nat {
    if procs == [] then 0 else PagerefFd(procs[..|procs| - 1], end) + FdRefs(procs[|procs| - 1].slots, end)
  }

  // pageref of the data page
  function PagerefData(procs: seq<Proc>): nat {
    if procs == [] then 0 else PagerefData(procs[..|procs| - 1]) + DataRefs(procs[|procs| - 1].slots)
  }

  // ----- Steps -----

  datatype Step =
    | DupMapData(p: nat, src: nat, dst: nat)
    | DupMapFd(p: nat, ok: bool)
    | CloseUnmapFd(p: nat, dst: nat)
    | CloseUnmapData(p: nat)
    | Exit(p: nat)
    | ForkStart(p: nat, child: nat)
    | ForkMapFd(p: nat)
    | ForkMapData(p: nat)
    | ForkDone(p: nat)

  // p is in the middle of a fork whose child is there.
  predicate InFork(procs: seq<Proc>, p: nat)
    requires p < |procs|
  {
    && procs[p].pc.Forking? && procs[p].pc.child < |procs| && procs[p].pc.child != p
    && |procs[procs[p].pc.child].slots| == |procs[p].slots|
  }

  predicate Enabled(procs: seq<Proc>, s: Step) {
    && s.p < |procs|
    && var q := procs[s.p];
       match s
       case DupMapData(_, src, dst) =>
         && q.pc == Idle && src < |q.slots| && dst < |q.slots| && q.slots[src].fd != NoEnd && q.slots[src].data
         && q.slots[dst] == EMPTY
       case DupMapFd(_, _) => q.pc.Duping? && q.pc.src < |q.slots| && q.pc.dst < |q.slots|
       case CloseUnmapFd(_, dst) => q.pc == Idle && dst < |q.slots| && q.slots[dst].fd != NoEnd
       case CloseUnmapData(_) => q.pc.Closing? && q.pc.dst < |q.slots|
       case Exit(_) => q.pc != Free && q.pc != Unborn
       case ForkStart(_, child) =>
         && q.pc == Idle && child < |procs| && child != s.p && procs[child].pc == Free
         && |procs[child].slots| == |q.slots|
       case ForkMapFd(_) => InFork(procs, s.p) && q.pc.turn < |q.slots|
       case ForkMapData(_) => InFork(procs, s.p) && |q.slots| <= q.pc.turn < 2 * |q.slots|
       case ForkDone(_) => InFork(procs, s.p) && q.pc.turn == 2 * |q.slots|
  }

  // What a step of dup, close or exit leaves of the environment.
  function After(q: Proc, s: Step): Proc {
    match s
    case DupMapData(_, src, dst) =>
      if dst < |q.slots| then Proc(q.slots[dst := q.slots[dst].(data := true)], Duping(src, dst)) else q
    case DupMapFd(_, ok) =>
      if q.pc.Duping? && q.pc.src < |q.slots| && q.pc.dst < |q.slots| then
        var slot := q.slots[q.pc.dst];
        Proc(q.slots[q.pc.dst := if ok then slot.(fd := q.slots[q.pc.src].fd) else slot.(data := false)], Idle)
      else q
    case CloseUnmapFd(_, dst) =>
      if dst < |q.slots| then Proc(q.slots[dst := q.slots[dst].(fd := NoEnd)], Closing(dst)) else q
    case CloseUnmapData(_) =>
      if q.pc.Closing? && q.pc.dst < |q.slots| then
        Proc(q.slots[q.pc.dst := q.slots[q.pc.dst].(data := false)], Idle)
      else q
    case Exit(_) => Proc(seq(|q.slots|, i => EMPTY), Free)
    case _ => q
  }

  // The fork of p goes from the slots of its child to slots, and from its turn to turn.
  function ForkTurn(procs: seq<Proc>, p: nat, slots: seq<Slot>): seq<Proc>
    requires p < |procs| && InFork(procs, p)
  {
    var q := procs[p];
    procs[q.pc.child := Proc(slots, Unborn)][p := q.(pc := q.pc.(turn := q.pc.turn + 1))]
  }

  // fork maps the pages of the parent in the order of their addresses: every descriptor page comes before the data pages.
  function Apply(procs: seq<Proc>, s: Step): seq<Proc>
    requires Enabled(procs, s)
  {
    var q := procs[s.p];
    match s
    case ForkStart(p, child) =>
      procs[child := procs[child].(pc := Unborn)][p := q.(pc := Forking(child, 0))]
    case ForkMapFd(p) =>
      var kid, k := procs[q.pc.child].slots, q.pc.turn;
      ForkTurn(procs, p, kid[k := kid[k].(fd := q.slots[k].fd)])
    case ForkMapData(p) =>
      var kid, k := procs[q.pc.child].slots, q.pc.turn - |q.slots|;
      ForkTurn(procs, p, kid[k := kid[k].(data := q.slots[k].data)])
    case ForkDone(p) =>
      procs[q.pc.child := procs[q.pc.child].(pc := Idle)][p := q.(pc := Idle)]
    case _ => procs[s.p := After(q, s)]
  }

  // The steps can be taken one after the other, and lead from procs to procs'.
  predicate Reaches(procs: seq<Proc>, steps: seq<Step>, procs': seq<Proc>)
    decreases steps
  {
    if steps == [] then procs' == procs
    else Enabled(procs, steps[0]) && Reaches(Apply(procs, steps[0]), steps[1..], procs')
  }

  // ----- The invariant -----

  ghost predicate WorkedOn(q: Proc, k: nat) {
    (q.pc.Duping? || q.pc.Closing?) && q.pc.dst == k
  }

  // A mapped descriptor page comes with a mapped data page; only the slot being worked on may have the latter alone.
  ghost predicate SlotOk(q: Proc, k: nat)
    requires k < |q.slots|
  {
    && (q.slots[k].fd != NoEnd ==> q.slots[k].data)
    && (q.slots[k].data && q.slots[k].fd == NoEnd <==> WorkedOn(q, k))
  }

  // A child that does not run yet has no data page alone.
  ghost predicate UnbornOk(q: Proc, k: nat)
    requires k < |q.slots|
  {
    q.slots[k].data ==> q.slots[k].fd != NoEnd
  }

  ghost predicate EmptyAt(q: Proc, k: nat)
    requires k < |q.slots|
  {
    q.slots[k] == EMPTY
  }

  ghost predicate ProcOk(q: Proc) {
    match q.pc
    case Free => forall k: nat :: k < |q.slots| ==> EmptyAt(q, k)
    case Unborn => forall k: nat :: k < |q.slots| ==> UnbornOk(q, k)
    case Duping(src, dst) =>
      && (forall k: nat :: k < |q.slots| ==> SlotOk(q, k))
      && dst < |q.slots| && src < |q.slots| && q.slots[src].fd != NoEnd
    case Closing(dst) => (forall k: nat :: k < |q.slots| ==> SlotOk(q, k)) && dst < |q.slots|
    case _ => forall k: nat :: k < |q.slots| ==> SlotOk(q, k)
  }

  // What the child of a fork has after the given number of turns.
  function CopiedSlots(slots: seq<Slot>, turn: nat): seq<Slot> {
    seq(|slots|, k requires 0 <= k < |slots| =>
      Slot(if k < turn then slots[k].fd else NoEnd, |slots| + k < turn && slots[k].data))
  }

  ghost predicate ForkOk(procs: seq<Proc>, i: nat)
    requires i < |procs|
  {
    procs[i].pc.Forking? ==>
      var child, turn := procs[i].pc.child, procs[i].pc.turn;
      && child < |procs| && child != i && procs[child].pc == Unborn && turn <= 2 * |procs[i].slots|
      && procs[child].slots == CopiedSlots(procs[i].slots, turn)
  }

  ghost predicate OtherChild(procs: seq<Proc>, i: nat, j: nat)
    requires i < |procs| && j < |procs|
  {
    i != j && procs[i].pc.Forking? && procs[j].pc.Forking? ==> procs[i].pc.child != procs[j].pc.child
  }

  ghost predicate Inv(procs: seq<Proc>) {
    && (forall i: nat :: i < |procs| ==> ProcOk(procs[i]))
    && (forall i: nat :: i < |procs| ==> ForkOk(procs, i))
    && (forall i: nat, j: nat :: i < |procs| && j < |procs| ==> OtherChild(procs, i, j))
  }

  lemma LocalKeepsProc(q: Proc, s: Step, procs: seq<Proc>)
    requires ProcOk(q) && Enabled(procs, s) && procs[s.p] == q
    requires !s.ForkStart? && !s.ForkMapFd? && !s.ForkMapData? && !s.ForkDone?
    ensures ProcOk(After(q, s))
  {
    var q' := After(q, s);
    if s.Exit? {
      forall k: nat | k < |q'.slots| ensures EmptyAt(q', k) {}
    } else {
      forall k: nat | k < |q'.slots| ensures SlotOk(q', k) { assert SlotOk(q, k); }
    }
  }

  lemma LocalKeepsInv(procs: seq<Proc>, s: Step)
    requires Inv(procs) && Enabled(procs, s)
    requires !s.ForkStart? && !s.ForkMapFd? && !s.ForkMapData? && !s.ForkDone?
    ensures Inv(Apply(procs, s))
  {
    var procs' := Apply(procs, s);
    assert ProcOk(procs[s.p]);
    LocalKeepsProc(procs[s.p], s, procs);
    assert procs' == procs[s.p := After(procs[s.p], s)] && procs[s.p].pc != Unborn && !procs'[s.p].pc.Forking?;
    forall i: nat | i < |procs'| ensures ProcOk(procs'[i]) { assert ProcOk(procs[i]); }
    forall i: nat | i < |procs'| ensures ForkOk(procs', i) { assert ForkOk(procs, i); }
    forall i: nat, j: nat | i < |procs'| && j < |procs'| ensures OtherChild(procs', i, j) {
      assert OtherChild(procs, i, j);
    }
  }

  lemma StartKeepsInv(procs: seq<Proc>, s: Step)
    requires Inv(procs) && Enabled(procs, s) && s.ForkStart?
    ensures Inv(Apply(procs, s))
  {
    var procs', p, child := Apply(procs, s), s.p, s.child;
    assert ProcOk(procs[p]) && ProcOk(procs[child]);
    forall k: nat | k < |procs[child].slots|
      ensures procs[child].slots[k] == EMPTY && UnbornOk(procs'[child], k) && SlotOk(procs'[p], k)
    {
      assert EmptyAt(procs[child], k) && SlotOk(procs[p], k);
    }
    assert procs[child].slots == CopiedSlots(procs[p].slots, 0);
    forall i: nat | i < |procs'| ensures ProcOk(procs'[i]) && ForkOk(procs', i) {
      assert ProcOk(procs[i]) && ForkOk(procs, i);
    }
    forall i: nat, j: nat | i < |procs'| && j < |procs'| ensures OtherChild(procs', i, j) {
      assert OtherChild(procs, i, j) && ForkOk(procs, i) && ForkOk(procs, j);
    }
  }

  lemma NextCopied(slots: seq<Slot>, turn: nat)
    requires turn < 2 * |slots|
    ensures var n, kid := |slots|, CopiedSlots(slots, turn);
            CopiedSlots(slots, turn + 1) ==
            if turn < n then kid[turn := kid[turn].(fd := slots[turn].fd)]
            else kid[turn - n := kid[turn - n].(data := slots[turn - n].data)]
  {
  }

  lemma CopyOfUnborn(q: Proc, turn: nat)
    requires ProcOk(q) && q.pc.Forking?
    ensures ProcOk(Proc(CopiedSlots(q.slots, turn), Unborn))
  {
    var kid := Proc(CopiedSlots(q.slots, turn), Unborn);
    forall k: nat | k < |kid.slots| ensures UnbornOk(kid, k) { assert SlotOk(q, k); }
  }

  // What one turn of the fork of p leaves behind.
  lemma TurnApplied(procs: seq<Proc>, s: Step)
    requires Inv(procs) && Enabled(procs, s) && (s.ForkMapFd? || s.ForkMapData?)
    ensures var q := procs[s.p];
            Apply(procs, s) == procs[q.pc.child := Proc(CopiedSlots(q.slots, q.pc.turn + 1), Unborn)]
                                    [s.p := q.(pc := q.pc.(turn := q.pc.turn + 1))]
  {
    assert ForkOk(procs, s.p);
    NextCopied(procs[s.p].slots, procs[s.p].pc.turn);
  }

  lemma TurnKeepsInv(procs: seq<Proc>, p: nat, child: nat, turn: nat, procs': seq<Proc>)
    requires Inv(procs) && p < |procs| && procs[p].pc == Forking(child, turn) && turn < 2 * |procs[p].slots|
    requires child < |procs| && child != p
    requires procs' == procs[child := Proc(CopiedSlots(procs[p].slots, turn + 1), Unborn)]
                            [p := Proc(procs[p].slots, Forking(child, turn + 1))]
    ensures Inv(procs')
  {
    var q, q' := procs[p], procs'[p];
    assert ProcOk(q) && ForkOk(procs, p);
    CopyOfUnborn(q, turn + 1);
    forall k: nat | k < |q'.slots| ensures SlotOk(q', k) { assert SlotOk(q, k); }
    forall i: nat | i < |procs'| ensures ProcOk(procs'[i]) { assert ProcOk(procs[i]); }
    forall i: nat | i < |procs'| ensures ForkOk(procs', i) { assert ForkOk(procs, i) && OtherChild(procs, i, p); }
    forall i: nat, j: nat | i < |procs'| && j < |procs'| ensures OtherChild(procs', i, j) {
      assert OtherChild(procs, i, j);
    }
  }

  lemma DoneKeepsInv(procs: seq<Proc>, s: Step)
    requires Inv(procs) && Enabled(procs, s) && s.ForkDone?
    ensures Inv(Apply(procs, s))
    ensures Apply(procs, s)[procs[s.p].pc.child] == Proc(procs[s.p].slots, Idle)
  {
    var procs', p, q := Apply(procs, s), s.p, procs[s.p];
    var q' := q.(pc := Idle);
    assert ProcOk(q) && ForkOk(procs, p);
    assert CopiedSlots(q.slots, q.pc.turn) == q.slots;
    forall k: nat | k < |q'.slots| ensures SlotOk(q', k) { assert SlotOk(q, k); }
    assert procs'[q.pc.child] == q';
    forall i: nat | i < |procs'| ensures ProcOk(procs'[i]) && ForkOk(procs', i) {
      assert ProcOk(procs[i]) && ForkOk(procs, i) && OtherChild(procs, i, p);
    }
    forall i: nat, j: nat | i < |procs'| && j < |procs'| ensures OtherChild(procs', i, j) {
      assert OtherChild(procs, i, j);
    }
  }

  lemma StepKeepsInv(procs: seq<Proc>, s: Step)
    requires Inv(procs) && Enabled(procs, s)
    ensures Inv(Apply(procs, s))
  {
    match s
    case ForkStart(_, _) => StartKeepsInv(procs, s);
    case ForkMapFd(p) =>
      TurnApplied(procs, s);
      TurnKeepsInv(procs, p, procs[p].pc.child, procs[p].pc.turn, Apply(procs, s));
    case ForkMapData(p) =>
      TurnApplied(procs, s);
      TurnKeepsInv(procs, p, procs[p].pc.child, procs[p].pc.turn, Apply(procs, s));
    case ForkDone(_) => DoneKeepsInv(procs, s);
    case _ => LocalKeepsInv(procs, s);
  }

  // The invariant holds in every state of every run.
  lemma {:induction false} RunKeepsInv(procs: seq<Proc>, steps: seq<Step>, procs': seq<Proc>)
    requires Inv(procs) && Reaches(procs, steps, procs')
    ensures Inv(procs')
    decreases steps
  {
    if steps != [] {
      StepKeepsInv(procs, steps[0]);
      RunKeepsInv(Apply(procs, steps[0]), steps[1..], procs');
    }
  }

  // ----- What the counts tell -----

  // Descriptor pages mapped without the data page, as during fork, and data pages mapped without a descriptor page.
  function HalfRefs(slots: seq<Slot>): nat {
    if slots == [] then 0
    else
      var last := slots[|slots| - 1];
      HalfRefs(slots[..|slots| - 1]) + One(last.fd != NoEnd && !last.data)
  }

  function BusyRefs(slots: seq<Slot>): nat {
    if slots == [] then 0
    else
      var last := slots[|slots| - 1];
      BusyRefs(slots[..|slots| - 1]) + One(last.fd == NoEnd && last.data)
  }

  function Half(procs: seq<Proc>): nat {
    if procs == [] then 0 else Half(procs[..|procs| - 1]) + HalfRefs(procs[|procs| - 1].slots)
  }

  function Busy(procs: seq<Proc>): nat {
    if procs == [] then 0 else Busy(procs[..|procs| - 1]) + BusyRefs(procs[|procs| - 1].slots)
  }

  lemma {:induction false} SlotsBalance(slots: seq<Slot>)
    ensures DataRefs(slots) + HalfRefs(slots) == FdRefs(slots, ReadEnd) + FdRefs(slots, WriteEnd) + BusyRefs(slots)
    decreases |slots|
  {
    if slots != [] { SlotsBalance(slots[..|slots| - 1]); }
  }

  // The four counts balance in every state.
  lemma {:induction false} CountsBalance(procs: seq<Proc>)
    ensures PagerefData(procs) + Half(procs) == PagerefFd(procs, ReadEnd) + PagerefFd(procs, WriteEnd) + Busy(procs)
    decreases |procs|
  {
    if procs != [] {
      CountsBalance(procs[..|procs| - 1]);
      SlotsBalance(procs[|procs| - 1].slots);
    }
  }

  ghost predicate HalfAt(procs: seq<Proc>, i: nat, k: nat) {
    i < |procs| && k < |procs[i].slots| && procs[i].slots[k].fd != NoEnd && !procs[i].slots[k].data
  }

  ghost predicate BusyAt(procs: seq<Proc>, i: nat, k: nat) {
    i < |procs| && k < |procs[i].slots| && procs[i].slots[k].fd == NoEnd && procs[i].slots[k].data
  }

  lemma {:induction false} SlotsWithout(slots: seq<Slot>)
    ensures HalfRefs(slots) == 0 <==> forall k: nat :: k < |slots| ==> slots[k].fd == NoEnd || slots[k].data
    ensures BusyRefs(slots) == 0 <==> forall k: nat :: k < |slots| ==> slots[k].fd != NoEnd || !slots[k].data
    decreases |slots|
  {
    if slots != [] {
      var front, last := slots[..|slots| - 1], |slots| - 1;
      SlotsWithout(front);
      assert forall k: nat :: k < |slots| ==> k == last || slots[k] == front[k];
    }
  }

  lemma {:induction false} ProcsWithout(procs: seq<Proc>)
    ensures Half(procs) == 0 <==> forall i: nat, k: nat :: !HalfAt(procs, i, k)
    ensures Busy(procs) == 0 <==> forall i: nat, k: nat :: !BusyAt(procs, i, k)
    decreases |procs|
  {
    if procs != [] {
      var front, last := procs[..|procs| - 1], |procs| - 1;
      ProcsWithout(front);
      SlotsWithout(procs[last].slots);
      assert forall i: nat :: i < |procs| ==> i == last || procs[i] == front[i];
      forall i: nat, k: nat | i != last
        ensures HalfAt(procs, i, k) == HalfAt(front, i, k) && BusyAt(procs, i, k) == BusyAt(front, i, k)
      {}
      forall i: nat, k: nat | i >= last ensures !HalfAt(front, i, k) && !BusyAt(front, i, k) {}
      forall k: nat | k < |procs[last].slots|
        ensures HalfAt(procs, last, k) <==> procs[last].slots[k].fd != NoEnd && !procs[last].slots[k].data
        ensures BusyAt(procs, last, k) <==> procs[last].slots[k].fd == NoEnd && procs[last].slots[k].data
      {}
    }
  }

  function Other(end: End): End {
    match end
    case ReadEnd => WriteEnd
    case WriteEnd => ReadEnd
    case NoEnd => NoEnd
  }

  // _pipeisclosed, when nothing happens between its two looks.
  predicate SaysClosed(procs: seq<Proc>, end: End) {
    PagerefFd(procs, end) == PagerefData(procs)
  }

  // The answer "closed" is false in a state exactly if the other end is open and as many descriptors are mapped without
  // their data page as there are descriptors of the other end and data pages without descriptor.
  lemma FalseExactlyWhen(procs: seq<Proc>, end: End)
    requires end != NoEnd
    ensures SaysClosed(procs, end) <==> PagerefFd(procs, Other(end)) + Busy(procs) == Half(procs)
  {
    CountsBalance(procs);
  }

  // Only a child whose fork has not finished has a descriptor without its data page.
  lemma HalfIsUnborn(procs: seq<Proc>, i: nat, k: nat)
    requires Inv(procs) && HalfAt(procs, i, k)
    ensures procs[i].pc == Unborn
  {
    assert ProcOk(procs[i]);
    assert procs[i].pc == Free ==> EmptyAt(procs[i], k);
    assert procs[i].pc != Free && procs[i].pc != Unborn ==> SlotOk(procs[i], k);
  }

  // In every run: while no child of an unfinished fork is about, who is told that the other end is closed is told the
  // truth.
  lemma ClosedIsTrue(procs: seq<Proc>, steps: seq<Step>, procs': seq<Proc>, end: End)
    requires Inv(procs) && Reaches(procs, steps, procs') && end != NoEnd
    requires forall i: nat :: i < |procs'| ==> procs'[i].pc != Unborn
    ensures SaysClosed(procs', end) ==> PagerefFd(procs', Other(end)) == 0
  {
    RunKeepsInv(procs, steps, procs');
    forall i: nat, k: nat ensures !HalfAt(procs', i, k) {
      if HalfAt(procs', i, k) { HalfIsUnborn(procs', i, k); }
    }
    ProcsWithout(procs');
    FalseExactlyWhen(procs', end);
  }

  // While moreover no environment is in the middle of dup or close, the answer is exact.
  lemma ClosedIsExact(procs: seq<Proc>, steps: seq<Step>, procs': seq<Proc>, end: End)
    requires Inv(procs) && Reaches(procs, steps, procs') && end != NoEnd
    requires forall i: nat :: i < |procs'| ==> procs'[i].pc == Idle || procs'[i].pc == Free
    ensures SaysClosed(procs', end) <==> PagerefFd(procs', Other(end)) == 0
  {
    RunKeepsInv(procs, steps, procs');
    ClosedIsTrue(procs, steps, procs', end);
    forall i: nat, k: nat ensures !HalfAt(procs', i, k) && !BusyAt(procs', i, k) {
      if i < |procs'| && k < |procs'[i].slots| {
        assert ProcOk(procs'[i]);
        if procs'[i].pc == Free { assert EmptyAt(procs'[i], k); } else { assert SlotOk(procs'[i], k); }
      }
    }
    ProcsWithout(procs');
    FalseExactlyWhen(procs', end);
  }

  // _pipeisclosed when other processors run between its look at the descriptor page, in state x, and its look at the
  // data page, in state y: the answer is false exactly if the other end is open in y and descriptors of the own end have
  // gone since, as many as the count of the data page is short of.
  lemma LooksApart(x: seq<Proc>, y: seq<Proc>, end: End)
    requires end != NoEnd
    ensures PagerefFd(x, end) == PagerefData(y) <==>
            PagerefFd(x, end) + Half(y) == PagerefFd(y, end) + PagerefFd(y, Other(end)) + Busy(y)
    ensures Half(y) == 0 && PagerefFd(x, end) <= PagerefFd(y, end) && PagerefFd(x, end) == PagerefData(y) ==>
              PagerefFd(y, Other(end)) == 0
  {
    CountsBalance(y);
  }
}
