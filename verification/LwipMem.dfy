/**
  mem_init, mem_malloc, mem_free, mem_realloc and plug_holes of net/lwip/core/mem.c. Pointers are offsets from the
  start of the heap; 0, which is inside the first header, stands for NULL.
 */
module LwipMem {
  import opened LwipHeap

  // What mem_malloc does to block k: mark it used, and cut off what is left if another block fits there.
  function Allocate(bs: seq<Block>, end: nat, size: nat, k: nat): seq<Block>
    requires k < |bs|
  {
    if bs[k].at + HEADER + size + HEADER + MIN_DATA <= EndOf(bs, end, k)
    then Cut(bs, k, bs[k].at + HEADER + size, true)
    else bs[k := Block(bs[k].at, true)]
  }

  // What plug_holes does around the free block k.
  function Plug(bs: seq<Block>, k: nat): seq<Block>
    requires k < |bs|
  {
    var forward := Forward(bs, k);
    if k > 0 && !bs[k - 1].used then Merge(forward, k - 1) else forward
  }

  ghost predicate ApartExcept(bs: seq<Block>, k: nat) {
    forall i :: 0 <= i < |bs| && i != k && i + 1 != k ==> Apart(bs, i)
  }

  // Merging block k with its free successor, if any.
  function Forward(bs: seq<Block>, k: nat): (r: seq<Block>)
    requires k < |bs|
    ensures k < |r| && r[..k + 1] == bs[..k + 1]
  {
    if k + 1 < |bs| && !bs[k + 1].used then Merge(bs, k) else bs
  }

  lemma ForwardApart(bs: seq<Block>, k: nat, i: nat)
    requires k < |bs| && !bs[k].used && ApartExcept(bs, k) && i < |Forward(bs, k)| && i + 1 != k
    ensures Apart(Forward(bs, k), i)
  {
    if i < k {
      assert Apart(bs, i);
    } else if k + 1 < |bs| && !bs[k + 1].used {
      assert Apart(bs, i + 1);
    } else if i > k {
      assert Apart(bs, i);
    }
  }

  lemma PlugLeavesNoNeighbours(bs: seq<Block>, k: nat)
    requires k < |bs| && !bs[k].used && ApartExcept(bs, k)
    ensures NoFreeNeighbours(Plug(bs, k))
  {
    var forward, bs' := Forward(bs, k), Plug(bs, k);
    assert forall i :: 0 <= i <= k ==> forward[i] == forward[..k + 1][i] == bs[i];
    forall i | 0 <= i < |bs'| ensures Apart(bs', i) {
      if k > 0 && !bs[k - 1].used {
        if i >= k - 1 { ForwardApart(bs, k, i + 1); }
        if i < k - 1 { ForwardApart(bs, k, i); }
      } else if i + 1 != k {
        ForwardApart(bs, k, i);
      }
    }
  }

  lemma FirstFreeAfterMerge(bs: seq<Block>, end: nat, k: nat)
    requires Tiling(bs, end) && k + 1 < |bs| && !bs[k].used
    ensures FirstFree(Merge(bs, k)) == FirstFree(bs) <= k
    ensures StartOf(Merge(bs, k), end, FirstFree(bs)) == StartOf(bs, end, FirstFree(bs)) < bs[k + 1].at
  {
    FirstFreeUnique(Merge(bs, k), FirstFree(bs));
    Ascending(bs, end, FirstFree(bs), k + 1);
  }

  lemma ReleaseChain(hdr: map<nat, Header>, bs: seq<Block>, end: nat, k: nat)
    requires Tiling(bs, end) && Linked(hdr, bs, end) && NoFreeNeighbours(bs) && k < |bs| && bs[k].used
    ensures LinkedAt(hdr, bs, end, k)
    ensures var bs' := bs[k := Block(bs[k].at, false)];
            && Tiling(bs', end) && Linked(hdr[bs[k].at := hdr[bs[k].at].(used := false)], bs', end)
            && ApartExcept(bs', k)
            && StartOf(bs', end, FirstFree(bs'))
               == if bs[k].at < StartOf(bs, end, FirstFree(bs)) then bs[k].at else StartOf(bs, end, FirstFree(bs))
  {
    assert LinkedAt(hdr, bs, end, k);
    var bs', f := bs[k := Block(bs[k].at, false)], FirstFree(bs);
    forall i | 0 <= i < |bs'| ensures Sized(bs', end, i) { assert Sized(bs, end, i); }
    var hdr' := hdr[bs[k].at := hdr[bs[k].at].(used := false)];
    forall i | 0 <= i < |bs'| ensures LinkedAt(hdr', bs', end, i) {
      assert LinkedAt(hdr, bs, end, i);
      Ascending(bs, end, if i < k then i else k, if i < k then k else i);
    }
    forall i | 0 <= i < |bs'| && i != k && i + 1 != k ensures Apart(bs', i) { assert Apart(bs, i); }
    FirstFreeUnique(bs', if k < f then k else f);
    Ascending(bs, end, k, k);
    if f < |bs| { Ascending(bs, end, if f < k then f else k, if f < k then k else f); }
  }

  lemma TooLarge(bs: seq<Block>, end: nat, size: nat)
    requires Tiling(bs, end) && size > end
    ensures forall i: nat :: !Fits(bs, end, size, i)
  {
    forall i: nat ensures !Fits(bs, end, size, i) {
      if Fits(bs, end, size, i) { BlockInside(bs, end, i); }
    }
  }

  lemma BlockInside(bs: seq<Block>, end: nat, i: nat)
    requires Tiling(bs, end) && i < |bs|
    ensures EndOf(bs, end, i) <= end
  {
    if i + 1 < |bs| { Ascending(bs, end, i + 1, |bs| - 1); }
  }

  lemma NothingAbove(bs: seq<Block>, end: nat, size: nat, k: nat)
    requires Tiling(bs, end) && k <= |bs| && StartOf(bs, end, k) + size >= end
    requires forall i: nat :: i < k ==> !Fits(bs, end, size, i)
    ensures forall i: nat :: !Fits(bs, end, size, i)
  {
    forall i: nat ensures !Fits(bs, end, size, i) {
      if i >= k && Fits(bs, end, size, i) {
        BlockInside(bs, end, i);
        Ascending(bs, end, k, i);
      }
    }
  }

  lemma AllocateChain(hdr: map<nat, Header>, bs: seq<Block>, end: nat, size: nat, k: nat)
    requires Tiling(bs, end) && Linked(hdr, bs, end) && NoFreeNeighbours(bs)
    requires size % ALIGNMENT == 0 && size >= MIN_DATA && Fits(bs, end, size, k)
    ensures LinkedAt(hdr, bs, end, k) && EndOf(bs, end, k) in hdr
    ensures var bs' := Allocate(bs, end, size, k);
            && Tiling(bs', end) && NoFreeNeighbours(bs')
            && Linked(if |bs'| > |bs| then CutHeaders(hdr, end, bs[k].at, bs[k].at + HEADER + size, true)
                      else hdr[bs[k].at := hdr[bs[k].at].(used := true)], bs', end)
            && (FirstFree(bs) < k ==> StartOf(bs', end, FirstFree(bs')) == StartOf(bs, end, FirstFree(bs)) != bs[k].at)
            && FirstFree(bs) <= k && k < |bs'| && bs'[k].at == bs[k].at
            && (FirstFree(bs) == k ==> forall i :: 0 <= i < k ==> bs'[i].used)
  {
    NextHeader(hdr, bs, end, k);
    var bs', cut := Allocate(bs, end, size, k), bs[k].at + HEADER + size;
    assert Sized(bs, end, k);
    if |bs'| > |bs| {
      CutTiling(bs, end, k, cut, true);
      CutLinked(hdr, bs, end, k, cut, true);
      forall i | 0 <= i < |bs'| ensures Apart(bs', i) {
        if i != k { assert Apart(bs, if i < k then i else i - 1); }
      }
    } else {
      MarkUsed(hdr, bs, end, k);
    }
    var f := FirstFree(bs);
    if f < k {
      FirstFreeUnique(bs', f);
      Ascending(bs, end, f, k);
    }
  }

  lemma MarkUsed(hdr: map<nat, Header>, bs: seq<Block>, end: nat, k: nat)
    requires Tiling(bs, end) && Linked(hdr, bs, end) && NoFreeNeighbours(bs) && k < |bs|
    ensures LinkedAt(hdr, bs, end, k)
    ensures var bs' := bs[k := Block(bs[k].at, true)];
            && Tiling(bs', end) && NoFreeNeighbours(bs')
            && Linked(hdr[bs[k].at := hdr[bs[k].at].(used := true)], bs', end)
  {
    assert LinkedAt(hdr, bs, end, k);
    var bs', hdr' := bs[k := Block(bs[k].at, true)], hdr[bs[k].at := hdr[bs[k].at].(used := true)];
    forall i | 0 <= i < |bs'| ensures Sized(bs', end, i) && LinkedAt(hdr', bs', end, i) && Apart(bs', i) {
      assert Sized(bs, end, i) && LinkedAt(hdr, bs, end, i) && Apart(bs, i);
      Ascending(bs, end, if i < k then i else k, if i < k then k else i);
    }
    Ascending(bs, end, k, k);
  }

  // What mem_realloc does to block k: give the rest to the free block behind it, or cut it off if it makes a block.
  function Shrink(bs: seq<Block>, end: nat, k: nat, size: nat): seq<Block>
    requires k < |bs|
  {
    var cut, limit := bs[k].at + HEADER + size, EndOf(bs, end, k);
    if cut >= limit then bs
    else if k + 1 < |bs| && !bs[k + 1].used then Shift(bs, k, cut)
    else if cut + HEADER + MIN_DATA <= limit then Cut(bs, k, cut, true)
    else bs
  }

  lemma ShiftChain(hdr: map<nat, Header>, bs: seq<Block>, end: nat, k: nat, cut: nat)
    requires Tiling(bs, end) && Linked(hdr, bs, end) && NoFreeNeighbours(bs)
    requires k + 1 < |bs| && bs[k].used && !bs[k + 1].used
    requires cut % ALIGNMENT == 0 && bs[k].at + HEADER + MIN_DATA <= cut < bs[k + 1].at
    ensures var bs', low := Shift(bs, k, cut), StartOf(bs, end, FirstFree(bs));
            && Tiling(bs', end) && NoFreeNeighbours(bs')
            && LinkedAt(hdr, bs, end, k) && LinkedAt(hdr, bs, end, k + 1) && EndOf(bs, end, k + 1) in hdr
            && Linked(ShiftHeaders(hdr, end, bs[k].at, bs[k + 1].at, cut), bs', end)
            && StartOf(bs', end, FirstFree(bs')) == if low == bs[k + 1].at then cut else low
  {
    var bs', f := Shift(bs, k, cut), FirstFree(bs);
    ShiftKeeps(hdr, bs, end, k, cut);
    forall i | 0 <= i < |bs'| ensures Apart(bs', i) { assert Apart(bs, i); }
    FirstFreeUnique(bs', f);
    Ascending(bs, end, f, k + 1);
  }

  lemma CutChain(hdr: map<nat, Header>, bs: seq<Block>, end: nat, k: nat, cut: nat)
    requires Tiling(bs, end) && Linked(hdr, bs, end) && NoFreeNeighbours(bs) && CutFits(bs, end, k, cut) && bs[k].used
    requires k + 1 < |bs| ==> bs[k + 1].used
    ensures var bs', low := Cut(bs, k, cut, true), StartOf(bs, end, FirstFree(bs));
            && Tiling(bs', end) && NoFreeNeighbours(bs')
            && LinkedAt(hdr, bs, end, k) && EndOf(bs, end, k) in hdr
            && Linked(CutHeaders(hdr, end, bs[k].at, cut, true), bs', end)
            && StartOf(bs', end, FirstFree(bs')) == if cut < low then cut else low
  {
    NextHeader(hdr, bs, end, k);
    var bs' := Cut(bs, k, cut, true);
    CutTiling(bs, end, k, cut, true);
    CutLinked(hdr, bs, end, k, cut, true);
    forall i | 0 <= i < |bs'| ensures Apart(bs', i) {
      if i != k { assert Apart(bs, if i < k then i else i - 1); }
    }
    CutFirstFree(bs, end, k, cut);
  }

  lemma CutElements(bs: seq<Block>, k: nat, cut: nat)
    requires k < |bs|
    ensures var bs' := Cut(bs, k, cut, true);
            && |bs'| == |bs| + 1 && bs'[k] == Block(bs[k].at, true) && bs'[k + 1] == Block(cut, false)
            && (forall i :: 0 <= i < k ==> bs'[i] == bs[i])
  {
  }

  lemma CutFirstFree(bs: seq<Block>, end: nat, k: nat, cut: nat)
    requires Tiling(bs, end) && k < |bs| && bs[k].used && bs[k].at < cut < EndOf(bs, end, k)
    ensures var bs', low := Cut(bs, k, cut, true), StartOf(bs, end, FirstFree(bs));
            StartOf(bs', end, FirstFree(bs')) == if cut < low then cut else low
  {
    var bs', f := Cut(bs, k, cut, true), FirstFree(bs);
    CutElements(bs, k, cut);
    if f < k {
      FirstFreeUnique(bs', f);
      Ascending(bs, end, f, k);
    } else {
      FirstFreeUnique(bs', k + 1);
      CutBelowFree(bs, end, k, f);
    }
  }

  // The first free block, if it lies behind block k, or the end lies behind the whole of block k.
  lemma CutBelowFree(bs: seq<Block>, end: nat, k: nat, f: nat)
    requires Tiling(bs, end) && k < f <= |bs|
    ensures EndOf(bs, end, k) <= StartOf(bs, end, f)
  {
    BlockInside(bs, end, k);
    if k + 1 < f < |bs| { Ascending(bs, end, k + 1, f); }
  }

  // ----- The allocations that a client holds -----

  // First and one-past-last offset of each used block, header included.
  ghost function Spans(bs: seq<Block>, end: nat): set<(nat, nat)> {
    set k | 0 <= k < |bs| && bs[k].used :: (bs[k].at, EndOf(bs, end, k))
  }

  // Two allocations never overlap, every allocation lies inside the heap, and its data is aligned.
  lemma SpansApart(bs: seq<Block>, end: nat, a: (nat, nat), b: (nat, nat))
    requires Tiling(bs, end) && a in Spans(bs, end) && b in Spans(bs, end) && a != b
    ensures a.1 <= b.0 || b.1 <= a.0
    ensures a.0 + HEADER + MIN_DATA <= a.1 <= end && (a.0 + HEADER) % ALIGNMENT == 0
  {
    var i :| 0 <= i < |bs| && bs[i].used && a == (bs[i].at, EndOf(bs, end, i));
    var j :| 0 <= j < |bs| && bs[j].used && b == (bs[j].at, EndOf(bs, end, j));
    assert Sized(bs, end, i);
    BlockInside(bs, end, i);
    if i < j { Ascending(bs, end, i + 1, j); } else { Ascending(bs, end, j + 1, i); }
  }

  // The offsets from x.0 to x.1 lie in one free block.
  ghost predicate InHole(bs: seq<Block>, end: nat, x: (nat, nat)) {
    exists i: nat :: HoleAround(bs, end, i, x)
  }

  ghost predicate HoleAround(bs: seq<Block>, end: nat, i: nat, x: (nat, nat)) {
    i < |bs| && !bs[i].used && bs[i].at <= x.0 && x.1 <= EndOf(bs, end, i)
  }

  // mem_malloc adds one allocation of at least the size asked for and keeps all others. What is left of the block is
  // free, if it has room for a block.
  lemma AllocateSpans(bs: seq<Block>, end: nat, size: nat, k: nat)
    requires Tiling(bs, end) && Fits(bs, end, size, k)
    ensures var bs' := Allocate(bs, end, size, k);
            && k < |bs'| && Spans(bs', end) == Spans(bs, end) + {(bs[k].at, EndOf(bs', end, k))}
            && bs[k].at + HEADER + size <= EndOf(bs', end, k) <= EndOf(bs, end, k)
            && (if bs[k].at + HEADER + size + HEADER + MIN_DATA <= EndOf(bs, end, k)
                then EndOf(bs', end, k) == bs[k].at + HEADER + size && InHole(bs', end, (EndOf(bs', end, k), EndOf(bs, end, k)))
                else EndOf(bs', end, k) == EndOf(bs, end, k))
  {
    var bs' := Allocate(bs, end, size, k);
    if |bs'| > |bs| { assert HoleAround(bs', end, k + 1, (EndOf(bs', end, k), EndOf(bs, end, k))); }
    forall x ensures x in Spans(bs', end) <==> x in Spans(bs, end) || x == (bs[k].at, EndOf(bs', end, k)) {
      if i :| 0 <= i < |bs| && bs[i].used && x == (bs[i].at, EndOf(bs, end, i)) {
        var j := if i < k || |bs'| == |bs| then i else i + 1;
        assert bs'[j] == bs[i] && x == (bs'[j].at, EndOf(bs', end, j));
      }
      if j :| 0 <= j < |bs'| && bs'[j].used && x == (bs'[j].at, EndOf(bs', end, j)) {
        var i := if j <= k || |bs'| == |bs| then j else j - 1;
        assert j != k ==> bs[i] == bs'[j] && x == (bs[i].at, EndOf(bs, end, i));
      }
      assert bs'[k].used && bs'[k].at == bs[k].at;
    }
  }

  // Block k has been shrunk to size bytes: it still begins where it did and holds them, and every other allocation is as
  // it was. What was cut off lies in a free block. It is all that was not needed if a free block follows or if the rest
  // has room for a block.
  ghost predicate ShrunkTo(bs: seq<Block>, end: nat, k: nat, size: nat, bs': seq<Block>)
    requires k < |bs|
  {
    && k < |bs'| && bs'[k] == bs[k]
    && var limit, cut, e := EndOf(bs, end, k), bs[k].at + HEADER + size, EndOf(bs', end, k);
       && Spans(bs', end) == Spans(bs, end) - {(bs[k].at, limit)} + {(bs[k].at, e)}
       && cut <= e <= limit && (e < limit ==> InHole(bs', end, (e, limit)))
       && ((k + 1 < |bs| && !bs[k + 1].used) || cut + HEADER + MIN_DATA <= limit ==> e == cut)
  }

  lemma SpanMoves(bs: seq<Block>, end: nat, k: nat, bs': seq<Block>)
    requires Tiling(bs, end) && k < |bs| && bs[k].used && k < |bs'| && bs'[k] == bs[k]
    requires forall i: nat, x :: i != k && HeldAt(bs, end, i, x) ==> exists j: nat :: j != k && HeldAt(bs', end, j, x)
    requires forall i: nat, x :: i != k && HeldAt(bs', end, i, x) ==> exists j: nat :: j != k && HeldAt(bs, end, j, x)
    ensures Spans(bs', end) == Spans(bs, end) - {(bs[k].at, EndOf(bs, end, k))} + {(bs[k].at, EndOf(bs', end, k))}
  {
    var gone, come := (bs[k].at, EndOf(bs, end, k)), (bs[k].at, EndOf(bs', end, k));
    forall i: nat | i < |bs| && i != k ensures bs[i].at != bs[k].at {
      Ascending(bs, end, if i < k then i else k, if i < k then k else i);
    }
    forall x ensures x in Spans(bs', end) <==> x in Spans(bs, end) - {gone} + {come} {
      if i :| 0 <= i < |bs| && bs[i].used && x == (bs[i].at, EndOf(bs, end, i)) {
        if i != k {
          assert HeldAt(bs, end, i, x);
          var j: nat :| j != k && HeldAt(bs', end, j, x);
        }
      }
      if i :| 0 <= i < |bs'| && bs'[i].used && x == (bs'[i].at, EndOf(bs', end, i)) {
        if i != k {
          assert HeldAt(bs', end, i, x);
          var j: nat :| j != k && HeldAt(bs, end, j, x);
        }
      }
    }
  }

  ghost predicate HeldAt(bs: seq<Block>, end: nat, i: nat, x: (nat, nat)) {
    i < |bs| && bs[i].used && x == (bs[i].at, EndOf(bs, end, i))
  }

  lemma ShrinkSpans(bs: seq<Block>, end: nat, k: nat, size: nat)
    requires Tiling(bs, end) && k < |bs| && bs[k].used && bs[k].at + HEADER + size <= EndOf(bs, end, k)
    ensures ShrunkTo(bs, end, k, size, Shrink(bs, end, k, size))
  {
    var bs', limit := Shrink(bs, end, k, size), EndOf(bs, end, k);
    var more := |bs'| - |bs|;
    forall i: nat, x | i != k && HeldAt(bs, end, i, x) ensures exists j: nat :: j != k && HeldAt(bs', end, j, x) {
      assert HeldAt(bs', end, if i < k then i else i + more, x);
    }
    forall i: nat, x | i != k && HeldAt(bs', end, i, x) ensures exists j: nat :: j != k && HeldAt(bs, end, j, x) {
      assert HeldAt(bs, end, if i < k then i else i - more, x);
    }
    SpanMoves(bs, end, k, bs');
    if EndOf(bs', end, k) < limit {
      if k + 1 < |bs| && !bs[k + 1].used { assert Sized(bs, end, k + 1); }
      assert HoleAround(bs', end, k + 1, (EndOf(bs', end, k), limit));
    }
  }

  lemma {:induction false} MergeSpans(bs: seq<Block>, end: nat, k: nat)
    requires k + 1 < |bs| && !bs[k].used && !bs[k + 1].used
    ensures Spans(Merge(bs, k), end) == Spans(bs, end)
  {
    var bs' := Merge(bs, k);
    forall x ensures x in Spans(bs', end) <==> x in Spans(bs, end) {
      if i :| 0 <= i < |bs| && bs[i].used && x == (bs[i].at, EndOf(bs, end, i)) {
        var j := if i < k then i else i - 1;
        assert bs'[j] == bs[i] && x == (bs'[j].at, EndOf(bs', end, j));
      }
      if j :| 0 <= j < |bs'| && bs'[j].used && x == (bs'[j].at, EndOf(bs', end, j)) {
        var i := if j < k then j else j + 1;
        assert bs[i] == bs'[j] && x == (bs[i].at, EndOf(bs, end, i));
      }
    }
  }

  lemma ReleaseSpans(bs: seq<Block>, bs1: seq<Block>, end: nat, k: nat)
    requires Tiling(bs, end) && k < |bs| && bs[k].used && bs1 == bs[k := Block(bs[k].at, false)]
    ensures Spans(bs1, end) == Spans(bs, end) - {(bs[k].at, EndOf(bs, end, k))}
  {
    forall i | 0 <= i < |bs| ensures EndOf(bs1, end, i) == EndOf(bs, end, i) {}
    forall i | 0 <= i < |bs| && i != k ensures bs[i].at != bs[k].at {
      Ascending(bs, end, if i < k then i else k, if i < k then k else i);
    }
    forall x ensures x in Spans(bs1, end) <==> x in Spans(bs, end) - {(bs[k].at, EndOf(bs, end, k))} {
      if i :| 0 <= i < |bs| && bs[i].used && x == (bs[i].at, EndOf(bs, end, i)) {
        assert i != k ==> bs1[i] == bs[i];
      }
      if i :| 0 <= i < |bs1| && bs1[i].used && x == (bs1[i].at, EndOf(bs1, end, i)) {
        assert i != k && bs[i] == bs1[i];
      }
    }
  }

  // mem_free drops exactly the freed allocation.
  lemma FreeSpans(bs: seq<Block>, end: nat, k: nat)
    requires Tiling(bs, end) && k < |bs| && bs[k].used
    ensures Spans(Plug(bs[k := Block(bs[k].at, false)], k), end) == Spans(bs, end) - {(bs[k].at, EndOf(bs, end, k))}
  {
    var bs1 := bs[k := Block(bs[k].at, false)];
    ReleaseSpans(bs, bs1, end, k);
    var forward := Forward(bs1, k);
    if forward != bs1 { MergeSpans(bs1, end, k); }
    if k > 0 && !bs1[k - 1].used { MergeSpans(forward, end, k - 1); }
  }

  lemma PlugAfterCut(bs: seq<Block>, k: nat, cut: nat, bs1: seq<Block>)
    requires NoFreeNeighbours(bs) && k < |bs| && !bs[k].used
    requires bs1 == Cut(bs, k, cut, true)[k := Block(bs[k].at, false)]
    ensures Plug(bs1, k) == bs
  {
    assert Apart(bs, k) && (k > 0 ==> Apart(bs, k - 1));
    assert Merge(bs1, k) == bs;
  }

  lemma PlugWhole(bs: seq<Block>, k: nat)
    requires NoFreeNeighbours(bs) && k < |bs| && !bs[k].used
    ensures Plug(bs, k) == bs
  {
    assert Apart(bs, k) && (k > 0 ==> Apart(bs, k - 1));
  }

  // A block that was allocated and freed again leaves the heap as it was.
  lemma FreeUndoesMalloc(bs: seq<Block>, end: nat, size: nat, k: nat)
    requires NoFreeNeighbours(bs) && Fits(bs, end, size, k)
    ensures k < |Allocate(bs, end, size, k)|
    ensures Plug(Allocate(bs, end, size, k)[k := Block(bs[k].at, false)], k) == bs
  {
    var bs1 := Allocate(bs, end, size, k)[k := Block(bs[k].at, false)];
    if |bs1| > |bs| {
      PlugAfterCut(bs, k, bs[k].at + HEADER + size, bs1);
    } else {
      assert bs1 == bs;
      PlugWhole(bs, k);
    }
  }

  class Heap {
    var hdr: map<nat, Header>
    var lfree: int
    const end: nat
    ghost var bs: seq<Block>

    // The chain is right and lfree is the lowest free block, or the end marker.
    ghost predicate Chain()
      reads this
    {
      Tiling(bs, end) && Linked(hdr, bs, end) && lfree == StartOf(bs, end, FirstFree(bs))
    }

    ghost predicate Valid()
      reads this
    {
      Chain() && NoFreeNeighbours(bs)
    }

    // mem_init
    constructor (size: nat)
      requires size % ALIGNMENT == 0 && size >= HEADER + MIN_DATA
      ensures Valid() && end == size && bs == [Block(0, false)]
    {
      end := size;
      hdr := map[0 := Header(size, 0, false), size := Header(size, size, true)];
      lfree := 0;
      bs := [Block(0, false)];
      new;
      FirstFreeUnique(bs, 0);
      assert Sized(bs, end, 0) && LinkedAt(hdr, bs, end, 0);
    }

    // plug_holes
    method PlugHoles(mem: nat, ghost k: nat)
      requires Chain() && k < |bs| && bs[k] == Block(mem, false) && ApartExcept(bs, k)
      modifies this`hdr, this`lfree, this`bs
      ensures Valid() && bs == Plug(old(bs), k)
    {
      PlugLeavesNoNeighbours(bs, k);
      PlugForward(mem, k);
      assert LinkedAt(hdr, bs, end, k);
      var pmem := hdr[mem].prev;
      if k > 0 { NextHeader(hdr, bs, end, k - 1); Ascending(bs, end, k - 1, k); }
      if pmem != mem && !hdr[pmem].used {
        MergeLinked(hdr, bs, end, k - 1);
        MergeTiling(bs, end, k - 1);
        FirstFreeAfterMerge(bs, end, k - 1);
        lfree := if lfree == mem then pmem else lfree;
        var next := hdr[mem].next;
        hdr := hdr[pmem := hdr[pmem].(next := next)];
        hdr := hdr[next := hdr[next].(prev := pmem)];
        bs := Merge(bs, k - 1);
      }
    }

    method PlugForward(mem: nat, ghost k: nat)
      requires Chain() && k < |bs| && bs[k] == Block(mem, false)
      modifies this`hdr, this`lfree, this`bs
      ensures Chain() && bs == if k + 1 < |old(bs)| && !old(bs)[k + 1].used then Merge(old(bs), k) else old(bs)
    {
      NextHeader(hdr, bs, end, k);
      Ascending(bs, end, k, k);
      var nmem := hdr[mem].next;
      if k + 1 < |bs| { Ascending(bs, end, k, k + 1); }
      if mem != nmem && !hdr[nmem].used && nmem != end {
        MergeLinked(hdr, bs, end, k);
        MergeTiling(bs, end, k);
        FirstFreeAfterMerge(bs, end, k);
        lfree := if lfree == nmem then mem else lfree;
        var next := hdr[nmem].next;
        hdr := hdr[mem := hdr[mem].(next := next)];
        hdr := hdr[next := hdr[next].(prev := mem)];
        bs := Merge(bs, k);
      }
    }

    // mem_free of block k, or of an address outside the heap, which is ignored.
    method Free(rmem: nat, ghost k: nat)
      requires Valid()
      requires 0 < rmem < end ==> k < |bs| && bs[k].used && rmem == bs[k].at + HEADER
      modifies this`hdr, this`lfree, this`bs
      ensures Valid()
      ensures bs == if 0 < rmem < end then Plug(old(bs)[k := Block(rmem - HEADER, false)], k) else old(bs)
    {
      if rmem == 0 || rmem >= end { return; }
      var mem := rmem - HEADER;
      assert LinkedAt(hdr, bs, end, k);
      Release(mem, k);
      PlugHoles(mem, k);
    }

    method Release(mem: nat, ghost k: nat)
      requires Valid() && k < |bs| && bs[k] == Block(mem, true)
      modifies this`hdr, this`lfree, this`bs
      ensures Chain() && bs == old(bs)[k := Block(mem, false)] && ApartExcept(bs, k)
    {
      ghost var bs' := bs[k := Block(mem, false)];
      ReleaseChain(hdr, bs, end, k);
      hdr := hdr[mem := hdr[mem].(used := false)];
      if mem < lfree {
        lfree := mem;
      }
      bs := bs';
    }

    // mem_malloc: succeeds exactly when some free block fits, takes the lowest one, and leaves the others alone.
    method Malloc(request: nat) returns (rmem: nat, ghost k: nat)
      requires Valid() && request < WORD
      modifies this`hdr, this`lfree, this`bs
      ensures Valid()
      ensures rmem == 0 <==> request == 0 || forall i: nat :: !Fits(old(bs), end, RoundUp(request), i)
      ensures rmem == 0 ==> bs == old(bs) && hdr == old(hdr)
      ensures rmem != 0 ==>
                && Fits(old(bs), end, RoundUp(request), k) && rmem == old(bs)[k].at + HEADER
                && (forall i: nat :: i < k ==> !Fits(old(bs), end, RoundUp(request), i))
                && bs == Allocate(old(bs), end, RoundUp(request), k)
    {
      rmem, k := 0, 0;
      if request == 0 { return; }
      var size := RoundUp(request);
      if size > end {
        TooLarge(bs, end, size);
        return;
      }
      var ptr;
      ptr, k := Scan(size);
      if ptr == end { return; }
      rmem := ptr + HEADER;
      Take(ptr, size, k);
    }

    method Take(ptr: nat, size: nat, ghost k: nat)
      requires Valid() && size % ALIGNMENT == 0 && size >= MIN_DATA && Fits(bs, end, size, k) && ptr == bs[k].at
      modifies this`hdr, this`lfree, this`bs
      ensures Valid() && bs == Allocate(old(bs), end, size, k)
    {
      AllocateChain(hdr, bs, end, size, k);
      NextHeader(hdr, bs, end, k);
      ghost var bs' := Allocate(bs, end, size, k);
      var mem := hdr[ptr];
      if mem.next - (ptr + HEADER) >= size + HEADER + MIN_DATA {
        var ptr2 := ptr + HEADER + size;
        hdr := hdr[ptr2 := Header(mem.next, ptr, false)];
        hdr := hdr[ptr := mem.(next := ptr2, used := true)];
        if mem.next != end {
          hdr := hdr[mem.next := hdr[mem.next].(prev := ptr2)];
        }
      } else {
        hdr := hdr[ptr := mem.(used := true)];
      }
      bs := bs';
      if ptr == lfree {
        FindLowest(k);
      }
    }

    // The search for the new lowest free block, starting from block k.
    method FindLowest(ghost k: nat)
      requires Tiling(bs, end) && Linked(hdr, bs, end) && k < |bs| && lfree == bs[k].at
      requires forall i :: 0 <= i < k ==> bs[i].used
      modifies this`lfree
      ensures lfree == StartOf(bs, end, FirstFree(bs))
    {
      ghost var j := k;
      Ascending(bs, end, k, k);
      assert LinkedAt(hdr, bs, end, k);
      while hdr[lfree].used && lfree != end
        invariant k <= j <= |bs| && lfree == StartOf(bs, end, j) && lfree in hdr
        invariant forall i :: 0 <= i < j ==> bs[i].used
        decreases |bs| - j
      {
        NextHeader(hdr, bs, end, j);
        lfree := hdr[lfree].next;
        j := j + 1;
      }
      if j < |bs| {
        assert LinkedAt(hdr, bs, end, j);
        Ascending(bs, end, j, j);
      }
      FirstFreeUnique(bs, j);
    }

    // The scan of mem_malloc: the lowest block that fits, or the end.
    method Scan(size: nat) returns (ptr: nat, ghost k: nat)
      requires Valid() && size <= end
      ensures ptr == end <==> forall i: nat :: !Fits(bs, end, size, i)
      ensures ptr != end ==>
                && Fits(bs, end, size, k) && ptr == bs[k].at < end
                && forall i: nat :: i < k ==> !Fits(bs, end, size, i)
    {
      ptr, k := lfree, FirstFree(bs);
      while ptr < end - size
        invariant k <= |bs| && ptr == StartOf(bs, end, k)
        invariant forall i: nat :: i < k ==> !Fits(bs, end, size, i)
        decreases |bs| - k
      {
        NextHeader(hdr, bs, end, k);
        Ascending(bs, end, k, k);
        var mem := hdr[ptr];
        if !mem.used && mem.next - (ptr + HEADER) >= size {
          assert Fits(bs, end, size, k);
          return;
        }
        ptr, k := mem.next, k + 1;
      }
      NothingAbove(bs, end, size, k);
      ptr := end;
    }

    // mem_realloc, which can only shrink block k: NULL if the new size is larger than the old one.
    method Realloc(rmem: nat, request: nat, ghost k: nat) returns (r: nat)
      requires Valid() && request < WORD
      requires 0 < rmem < end ==> k < |bs| && bs[k].used && rmem == bs[k].at + HEADER
      modifies this`hdr, this`lfree, this`bs
      ensures Valid()
      ensures RoundUp(request) > end ==> r == 0 && bs == old(bs)
      ensures RoundUp(request) <= end && !(0 < rmem < end) ==> r == rmem && bs == old(bs)
      ensures RoundUp(request) <= end && 0 < rmem < end ==>
                && (r == if rmem + RoundUp(request) <= EndOf(old(bs), end, k) then rmem else 0)
                && bs == Shrink(old(bs), end, k, RoundUp(request))
                && (r == rmem ==> ShrunkTo(old(bs), end, k, RoundUp(request), bs))
    {
      var newsize := RoundUp(request);
      if newsize > end { return 0; }
      if rmem == 0 || rmem >= end { return rmem; }
      var ptr := rmem - HEADER;
      NextHeader(hdr, bs, end, k);
      var size := hdr[ptr].next - ptr - HEADER;
      if newsize > size { return 0; }
      ShrinkSpans(bs, end, k, newsize);
      if newsize == size { return rmem; }
      ShrinkBlock(ptr, size, newsize, k);
      r := rmem;
    }

    method ShrinkBlock(ptr: nat, size: nat, newsize: nat, ghost k: nat)
      requires Valid() && k < |bs| && bs[k] == Block(ptr, true) && ptr + HEADER + size == EndOf(bs, end, k)
      requires newsize % ALIGNMENT == 0 && MIN_DATA <= newsize < size
      modifies this`hdr, this`lfree, this`bs
      ensures Valid() && bs == Shrink(old(bs), end, k, newsize) && ShrunkTo(old(bs), end, k, newsize, bs)
    {
      NextHeader(hdr, bs, end, k);
      assert Sized(bs, end, k);
      ShrinkSpans(bs, end, k, newsize);
      var ptr2 := ptr + HEADER + newsize;
      if !hdr[hdr[ptr].next].used {
        MoveNext(ptr, ptr2, k);
      } else if newsize + HEADER + MIN_DATA <= size {
        CutOff(ptr, ptr2, k);
      }
    }

    // The free block behind block k moves down to ptr2.
    method MoveNext(ptr: nat, ptr2: nat, ghost k: nat)
      requires Valid() && k + 1 < |bs| && bs[k] == Block(ptr, true) && !bs[k + 1].used
      requires ptr2 % ALIGNMENT == 0 && ptr + HEADER + MIN_DATA <= ptr2 < bs[k + 1].at
      modifies this`hdr, this`lfree, this`bs
      ensures Valid() && bs == Shift(old(bs), k, ptr2)
    {
      ShiftChain(hdr, bs, end, k, ptr2);
      var mem := hdr[ptr];
      var next := hdr[mem.next].next;
      lfree := if lfree == mem.next then ptr2 else lfree;
      hdr := hdr[ptr2 := Header(next, ptr, false)];
      hdr := hdr[ptr := mem.(next := ptr2)];
      if next != end {
        hdr := hdr[next := hdr[next].(prev := ptr2)];
      }
      bs := Shift(bs, k, ptr2);
    }

    // Block k ends at ptr2, where a free block begins.
    method CutOff(ptr: nat, ptr2: nat, ghost k: nat)
      requires Valid() && CutFits(bs, end, k, ptr2) && bs[k] == Block(ptr, true) && (k + 1 < |bs| ==> bs[k + 1].used)
      modifies this`hdr, this`lfree, this`bs
      ensures Valid() && bs == Cut(old(bs), k, ptr2, true)
    {
      CutChain(hdr, bs, end, k, ptr2);
      var mem := hdr[ptr];
      lfree := if ptr2 < lfree then ptr2 else lfree;
      hdr := hdr[ptr2 := Header(mem.next, ptr, false)];
      hdr := hdr[ptr := mem.(next := ptr2)];
      if mem.next != end {
        hdr := hdr[mem.next := hdr[mem.next].(prev := ptr2)];
      }
      bs := Cut(bs, k, ptr2, true);
    }
  }
}
