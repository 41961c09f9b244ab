/**
  Runs of malloc, free and realloc on the block list, with an sbrk that may fail and the assertions of valid_addr.

  extend_heap links its new block at the break whether or not the break has moved. If it has not, the list goes on behind
  the break: its last block lies at the break, and the next block to be added would lie there too.
 */
module MallocRuns {
  import opened MallocList

  const MAXMALLOC: nat := 1024 * 1024

  // What sbrk does when extend_heap asks for more: the break moves; it stays and the new block can be written; it stays
  // and writing to the new block ends the program.
  datatype Supply = Moves | Stays | Faults

  // The list and the break; or the list has become a ring, because one address was handed out twice; or the program has
  // been ended, by an assertion or by a page fault.
  datatype Heap = Live(l: List, brk: nat) | Ring | Stopped

  datatype Op = DoMalloc(n: nat, u: Supply) | DoFree(k: nat) | DoRealloc(k: nat, n: nat, u: Supply)

  predicate Fits(l: List, s: nat) {
    FirstFit(l.bs, l.end, s, 0) < |l.bs|
  }

  // malloc of s bytes, rounded up already
  function Allocate(h: Heap, s: nat, u: Supply): Heap
    requires h.Live?
  {
    if Fits(h.l, s) then Live(Malloc(h.l, s), h.brk)
    else if h.l.end != h.brk then Ring
    else
      match u
      case Moves => Live(Malloc(h.l, s), h.brk + HEADER + s)
      case Stays => Live(Malloc(h.l, s), h.brk)
      case Faults => Stopped
  }

  // The assertion of valid_addr that does not always hold: the data of block k lies below the break.
  predicate Below(h: Heap, k: nat)
    requires h.Live? && k < |h.l.bs|
  {
    h.l.bs[k].at + HEADER < h.brk
  }

  function Release(h: Heap, k: nat): Heap
    requires h.Live? && k < |h.l.bs|
  {
    if !Below(h, k) then Stopped
    else
      var l := Free(h.l, k);
      Live(l, if h.l.end == h.brk then l.end else h.brk)
  }

  // realloc to s bytes, rounded up already
  function Resize(h: Heap, k: nat, s: nat, u: Supply): Heap
    requires h.Live? && k < |h.l.bs| && !h.l.bs[k].free
  {
    if !Below(h, k) then Stopped
    else if FitsInPlace(h.l, k, s) then Live(InPlace(h.l, k, s), h.brk)
    else if s >= MAXMALLOC then h
    else
      var h1 := Allocate(h, s, u);
      if h1.Live? then AfterMalloc(h.l, s, k); Release(h1, KeptAt(h.l, s, k)) else h1
  }

  // The last case of realloc: what is left of it once there is a new block.
  lemma ResizeMoves(h: Heap, k: nat, s: nat, u: Supply)
    requires h.Live? && k < |h.l.bs| && !h.l.bs[k].free && Below(h, k) && !FitsInPlace(h.l, k, s) && s < MAXMALLOC
    ensures var h1, k1 := Allocate(h, s, u), KeptAt(h.l, s, k);
            if h1.Live? then k1 < |h1.l.bs| && h1.l == Malloc(h.l, s) && h1.l.bs[k1] == h.l.bs[k] && h1.brk >= h.brk
                             && Resize(h, k, s, u) == Release(h1, k1) && Release(h1, k1).Live?
            else Resize(h, k, s, u) == h1
  {
    AfterMalloc(h.l, s, k);
  }

  // A program frees and resizes only what it has.
  predicate Enabled(h: Heap, op: Op) {
    h.Live? && (op.DoMalloc? || (op.k < |h.l.bs| && !h.l.bs[op.k].free))
  }

  function Apply(h: Heap, op: Op): Heap
    requires Enabled(h, op)
  {
    match op
    case DoMalloc(n, u) => if n >= MAXMALLOC then h else Allocate(h, Align4(n), u)
    case DoFree(k) => Release(h, k)
    case DoRealloc(k, n, u) => Resize(h, k, Align4(n), u)
  }

  ghost predicate Reaches(h: Heap, ops: seq<Op>, h': Heap)
    decreases ops
  {
    if ops == [] then h' == h else Enabled(h, ops[0]) && Reaches(Apply(h, ops[0]), ops[1..], h')
  }

  function NewHeap(start: nat): Heap {
    Live(List([], start), start)
  }

  // ----- What every run keeps -----

  // The blocks tile the heap up to the break, or up to the end of a last block in use at the break.
  ghost predicate Inv(h: Heap, start: nat) {
    h.Live? ==>
      && Tiling(h.l.bs, start, h.l.end)
      && (h.l.end == h.brk || (h.l.bs != [] && h.l.bs[|h.l.bs| - 1] == Block(h.brk, false)))
  }

  lemma TrimKeepsTiling(l: List, start: nat, k: nat, s: nat)
    requires Tiling(l.bs, start, l.end) && k < |l.bs| && SizeOf(l.bs, l.end, k) >= s && s % 4 == 0
    ensures Tiling(Trim(l, k, s).bs, start, l.end)
  {
    assert Sized(l.bs, l.end, k);
    if SizeOf(l.bs, l.end, k) - s >= HEADER + 4 { CutTiling(l.bs, start, l.end, k, l.bs[k].at + HEADER + s); }
  }

  lemma MallocKeepsTiling(l: List, start: nat, s: nat)
    requires Tiling(l.bs, start, l.end) && s % 4 == 0
    ensures var l' := Malloc(l, s); Tiling(l'.bs, start, l'.end)
  {
    var k := FirstFit(l.bs, l.end, s, 0);
    if k < |l.bs| {
      TrimKeepsTiling(l, start, k, s);
      MarkTiling(Trim(l, k, s).bs, start, l.end, k, false);
    } else {
      AppendTiling(l.bs, start, l.end, s);
    }
  }

  lemma FreeKeepsTiling(l: List, start: nat, k: nat)
    requires Tiling(l.bs, start, l.end) && k < |l.bs|
    ensures var l' := Free(l, k); Tiling(l'.bs, start, l'.end)
  {
    var (back, j) := Back(l.bs, k);
    MarkTiling(l.bs, start, l.end, k, true);
    if j != k { MergeTiling(Mark(l.bs, k, true), start, l.end, k - 1); }
    if j + 1 < |back| {
      if back[j + 1].free { MergeTiling(back, start, l.end, j); }
    } else {
      DropTiling(back, start, l.end);
    }
  }

  lemma InPlaceKeepsTiling(l: List, start: nat, k: nat, s: nat)
    requires Tiling(l.bs, start, l.end) && k < |l.bs| && FitsInPlace(l, k, s) && s % 4 == 0
    ensures Tiling(InPlace(l, k, s).bs, start, l.end)
  {
    if SizeOf(l.bs, l.end, k) >= s {
      TrimKeepsTiling(l, start, k, s);
    } else {
      MergeTiling(l.bs, start, l.end, k);
      TrimKeepsTiling(l.(bs := Merge(l.bs, k)), start, k, s);
    }
  }

  lemma AllocateInv(h: Heap, start: nat, s: nat, u: Supply)
    requires Inv(h, start) && h.Live? && s % 4 == 0
    ensures Inv(Allocate(h, s, u), start)
  {
    MallocKeepsTiling(h.l, start, s);
  }

  // In a list that goes on behind the break, a block below the break is not the last.
  lemma BelowIsNotLast(h: Heap, start: nat, k: nat)
    requires Inv(h, start) && h.Live? && k < |h.l.bs| && Below(h, k) && h.l.end != h.brk
    ensures k + 1 < |h.l.bs|
  {
  }

  // Freeing another block leaves the last one where it is, if it is in use.
  lemma FreeKeepsLast(l: List, k: nat)
    requires k + 1 < |l.bs| && !l.bs[|l.bs| - 1].free
    ensures var l' := Free(l, k); l'.end == l.end && l'.bs != [] && l'.bs[|l'.bs| - 1] == l.bs[|l.bs| - 1]
  {
  }

  lemma ReleaseInv(h: Heap, start: nat, k: nat)
    requires Inv(h, start) && h.Live? && k < |h.l.bs| && !h.l.bs[k].free
    ensures Inv(Release(h, k), start)
  {
    FreeKeepsTiling(h.l, start, k);
    if Below(h, k) && h.l.end != h.brk {
      BelowIsNotLast(h, start, k);
      FreeKeepsLast(h.l, k);
    }
  }

  lemma ResizeInv(h: Heap, start: nat, k: nat, s: nat, u: Supply)
    requires Inv(h, start) && h.Live? && k < |h.l.bs| && !h.l.bs[k].free && s % 4 == 0
    ensures Inv(Resize(h, k, s, u), start)
  {
    if Below(h, k) {
      if FitsInPlace(h.l, k, s) {
        InPlaceKeepsTiling(h.l, start, k, s);
        if h.l.end != h.brk { BelowIsNotLast(h, start, k); }
      } else if s < MAXMALLOC {
        AllocateInv(h, start, s, u);
        AfterMalloc(h.l, s, k);
        if Allocate(h, s, u).Live? { ReleaseInv(Allocate(h, s, u), start, KeptAt(h.l, s, k)); }
      }
    }
  }

  lemma StepKeepsInv(h: Heap, op: Op, start: nat)
    requires Inv(h, start) && Enabled(h, op)
    ensures Inv(Apply(h, op), start)
  {
    match op
    case DoMalloc(n, u) => AllocateInv(h, start, Align4(n), u);
    case DoFree(k) => ReleaseInv(h, start, k);
    case DoRealloc(k, n, u) => ResizeInv(h, start, k, Align4(n), u);
  }

  lemma {:induction false} RunKeepsInv(h: Heap, ops: seq<Op>, h': Heap, start: nat)
    requires Inv(h, start) && Reaches(h, ops, h')
    ensures Inv(h', start)
    decreases ops
  {
    if ops != [] {
      StepKeepsInv(h, ops[0], start);
      RunKeepsInv(Apply(h, ops[0]), ops[1..], h', start);
    }
  }

  // ----- When free and realloc end the program -----

  // Block k is the last that begins below the break.
  predicate LastBelow(h: Heap, k: nat)
    requires h.Live?
  {
    k + (if h.l.end == h.brk then 1 else 2) == |h.l.bs|
  }

  // Exactly for the last block below the break if it is empty, and for a block at a break that has not moved.
  lemma StopsIff(h: Heap, start: nat, k: nat)
    requires Inv(h, start) && h.Live? && k < |h.l.bs|
    ensures !Below(h, k) <==>
            (LastBelow(h, k) && SizeOf(h.l.bs, h.l.end, k) == 0) || (k + 1 == |h.l.bs| && h.l.end != h.brk)
  {
    var bs, end := h.l.bs, h.l.end;
    assert Sized(bs, end, k);
    if k + 1 < |bs| {
      Ascending(bs, start, end, k + 1, |bs| - 1);
      assert Sized(bs, end, k + 1);
    }
  }

  // Block i, if in use, has room for data.
  ghost predicate Positive(bs: seq<Block>, end: nat, i: nat) {
    i < |bs| && !bs[i].free ==> SizeOf(bs, end, i) > 0
  }

  ghost predicate NoneEmpty(bs: seq<Block>, end: nat) {
    forall i: nat :: Positive(bs, end, i)
  }

  lemma CutNoneEmpty(bs: seq<Block>, end: nat, k: nat, cut: nat)
    requires NoneEmpty(bs, end) && k < |bs| && cut > bs[k].at + HEADER
    ensures NoneEmpty(Cut(bs, k, cut), end)
  {
    forall i: nat ensures Positive(Cut(bs, k, cut), end, i) {
      if i < k { assert Positive(bs, end, i); } else if i > k { assert Positive(bs, end, i - 1); }
    }
  }

  lemma MergeNoneEmpty(bs: seq<Block>, start: nat, end: nat, k: nat)
    requires NoneEmpty(bs, end) && Tiling(bs, start, end) && k + 1 < |bs|
    ensures NoneEmpty(Merge(bs, k), end)
  {
    assert Sized(bs, end, k + 1);
    forall i: nat ensures Positive(Merge(bs, k), end, i) {
      if i <= k { assert Positive(bs, end, i); } else { assert Positive(bs, end, i + 1); }
    }
  }

  lemma MarkNoneEmpty(bs: seq<Block>, end: nat, k: nat, free: bool)
    requires NoneEmpty(bs, end) && k < |bs| && (free || SizeOf(bs, end, k) > 0)
    ensures NoneEmpty(Mark(bs, k, free), end)
  {
    forall i: nat ensures Positive(Mark(bs, k, free), end, i) { assert Positive(bs, end, i); }
  }

  lemma TrimNoneEmpty(l: List, k: nat, s: nat)
    requires NoneEmpty(l.bs, l.end) && k < |l.bs| && s > 0
    ensures NoneEmpty(Trim(l, k, s).bs, l.end)
  {
    if SizeOf(l.bs, l.end, k) - s >= HEADER + 4 { CutNoneEmpty(l.bs, l.end, k, l.bs[k].at + HEADER + s); }
  }

  lemma MallocNoneEmpty(l: List, s: nat)
    requires NoneEmpty(l.bs, l.end) && s > 0
    ensures var l' := Malloc(l, s); NoneEmpty(l'.bs, l'.end)
  {
    var k := FirstFit(l.bs, l.end, s, 0);
    if k < |l.bs| {
      TrimNoneEmpty(l, k, s);
      MarkNoneEmpty(Trim(l, k, s).bs, l.end, k, false);
    } else {
      var l' := Malloc(l, s);
      forall i: nat ensures Positive(l'.bs, l'.end, i) { assert Positive(l.bs, l.end, i); }
    }
  }

  lemma BackNoneEmpty(l: List, start: nat, k: nat)
    requires NoneEmpty(l.bs, l.end) && Tiling(l.bs, start, l.end) && k < |l.bs|
    ensures var (back, j) := Back(l.bs, k); NoneEmpty(back, l.end) && Tiling(back, start, l.end)
  {
    var (back, j) := Back(l.bs, k);
    MarkTiling(l.bs, start, l.end, k, true);
    MarkNoneEmpty(l.bs, l.end, k, true);
    if j != k {
      MergeTiling(Mark(l.bs, k, true), start, l.end, k - 1);
      MergeNoneEmpty(Mark(l.bs, k, true), start, l.end, k - 1);
    }
  }

  lemma FreeNoneEmpty(l: List, start: nat, k: nat)
    requires NoneEmpty(l.bs, l.end) && Tiling(l.bs, start, l.end) && k < |l.bs|
    ensures var l' := Free(l, k); NoneEmpty(l'.bs, l'.end)
  {
    var (back, j) := Back(l.bs, k);
    BackNoneEmpty(l, start, k);
    if j + 1 < |back| {
      if back[j + 1].free { MergeNoneEmpty(back, start, l.end, j); }
    } else {
      forall i: nat ensures Positive(back[..j], back[j].at, i) { assert Positive(back, l.end, i); }
    }
  }

  lemma InPlaceNoneEmpty(l: List, start: nat, k: nat, s: nat)
    requires NoneEmpty(l.bs, l.end) && Tiling(l.bs, start, l.end) && k < |l.bs| && FitsInPlace(l, k, s) && s > 0
    ensures NoneEmpty(InPlace(l, k, s).bs, l.end)
  {
    if SizeOf(l.bs, l.end, k) >= s {
      TrimNoneEmpty(l, k, s);
    } else {
      MergeNoneEmpty(l.bs, start, l.end, k);
      TrimNoneEmpty(l.(bs := Merge(l.bs, k)), k, s);
    }
  }

  // The list ends at the break, and no block in use is empty.
  ghost predicate Sane(h: Heap, start: nat) {
    h.Live? && Inv(h, start) && h.l.end == h.brk && NoneEmpty(h.l.bs, h.l.end)
  }

  // A request that does not round to 0, of a heap that can grow.
  predicate Decent(op: Op) {
    match op
    case DoMalloc(n, u) => (n < MAXMALLOC ==> Align4(n) > 0) && u == Moves
    case DoFree(_) => true
    case DoRealloc(_, n, u) => Align4(n) > 0 && u == Moves
  }

  // In a sane heap no assertion fails.
  lemma SaneIsBelow(h: Heap, start: nat, k: nat)
    requires Sane(h, start) && k < |h.l.bs| && !h.l.bs[k].free
    ensures Below(h, k)
  {
    StopsIff(h, start, k);
    assert Positive(h.l.bs, h.l.end, k);
  }

  lemma ReleaseSane(h: Heap, start: nat, k: nat)
    requires Sane(h, start) && k < |h.l.bs| && !h.l.bs[k].free
    ensures Sane(Release(h, k), start)
  {
    SaneIsBelow(h, start, k);
    ReleaseInv(h, start, k);
    FreeNoneEmpty(h.l, start, k);
  }

  lemma AllocateSane(h: Heap, start: nat, s: nat)
    requires Sane(h, start) && s > 0 && s % 4 == 0
    ensures Sane(Allocate(h, s, Moves), start)
  {
    AllocateInv(h, start, s, Moves);
    MallocNoneEmpty(h.l, s);
  }

  lemma ResizeSane(h: Heap, start: nat, k: nat, s: nat)
    requires Sane(h, start) && k < |h.l.bs| && !h.l.bs[k].free && s > 0 && s % 4 == 0
    ensures Sane(Resize(h, k, s, Moves), start)
  {
    SaneIsBelow(h, start, k);
    ResizeInv(h, start, k, s, Moves);
    if FitsInPlace(h.l, k, s) {
      InPlaceNoneEmpty(h.l, start, k, s);
    } else if s < MAXMALLOC {
      AllocateSane(h, start, s);
      AfterMalloc(h.l, s, k);
      ReleaseSane(Allocate(h, s, Moves), start, KeptAt(h.l, s, k));
    }
  }

  lemma {:induction false} StaysSane(h: Heap, ops: seq<Op>, h': Heap, start: nat)
    requires Sane(h, start) && Reaches(h, ops, h') && forall i :: 0 <= i < |ops| ==> Decent(ops[i])
    ensures Sane(h', start)
    decreases ops
  {
    if ops != [] {
      assert Decent(ops[0]);
      match ops[0] {
        case DoMalloc(n, u) => if n < MAXMALLOC { AllocateSane(h, start, Align4(n)); }
        case DoFree(k) => ReleaseSane(h, start, k);
        case DoRealloc(k, n, u) => ResizeSane(h, start, k, Align4(n));
      }
      StaysSane(Apply(h, ops[0]), ops[1..], h', start);
    }
  }

  // In every run in which no request rounds to 0 and the heap can grow, the blocks tile the heap up to the break, no block
  // in use is empty, and nothing that is freed or resized next ends the program.
  lemma NothingStops(start: nat, ops: seq<Op>, h: Heap, k: nat)
    requires start > 0 && start % 4 == 0 && Reaches(NewHeap(start), ops, h)
    requires forall i :: 0 <= i < |ops| ==> Decent(ops[i])
    ensures h.Live? && Tiling(h.l.bs, start, h.brk)
    ensures k < |h.l.bs| && !h.l.bs[k].free ==> Below(h, k) && h.l.bs[k].at + HEADER < EndOf(h.l.bs, h.brk, k)
  {
    assert Sane(NewHeap(start), start) by {
      forall i: nat ensures Positive([], start, i) {}
    }
    StaysSane(NewHeap(start), ops, h, start);
    assert Positive(h.l.bs, h.l.end, k);
    if k < |h.l.bs| && !h.l.bs[k].free { SaneIsBelow(h, start, k); }
  }

  // free(malloc(0)) and realloc(malloc(0), n) end the program.
  lemma EmptyBlockStops(start: nat, n: nat, u: Supply)
    ensures Reaches(NewHeap(start), [DoMalloc(0, Moves), DoFree(0)], Stopped)
    ensures Reaches(NewHeap(start), [DoMalloc(0, Moves), DoRealloc(0, n, u)], Stopped)
  {
    var h := NewHeap(start);
    var h1 := Apply(h, DoMalloc(0, Moves));
    assert h1 == Live(List([Block(start, false)], start + HEADER), start + HEADER);
    ReachesTwo(h, DoMalloc(0, Moves), DoFree(0));
    ReachesTwo(h, DoMalloc(0, Moves), DoRealloc(0, n, u));
  }

  lemma ReachesTwo(h: Heap, a: Op, b: Op)
    requires Enabled(h, a) && Enabled(Apply(h, a), b)
    ensures Reaches(h, [a, b], Apply(Apply(h, a), b))
  {
    assert [a, b][1..] == [b] && [b][1..] == [];
    assert Reaches(Apply(h, a), [b], Apply(Apply(h, a), b));
  }
}
