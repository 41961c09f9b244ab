/** What malloc, free and realloc mean for the memory that clients hold, without reference to how the list is changed. */
module MallocSpans {
  import opened MallocList
  import opened MallocRuns

  // First and one-past-last address, header included, of each used block.
  ghost function Used(l: List): set<(nat, nat)> {
    set k | 0 <= k < |l.bs| && !l.bs[k].free :: (l.bs[k].at, EndOf(l.bs, l.end, k))
  }

  ghost function Span(l: List, k: nat): (nat, nat)
    requires k < |l.bs|
  {
    (l.bs[k].at, EndOf(l.bs, l.end, k))
  }

  // The addresses from x.0 to x.1 are one free block, or part of one.
  ghost predicate InFree(l: List, x: (nat, nat)) {
    exists i: nat :: FreeAround(l, i, x)
  }

  ghost predicate FreeAround(l: List, i: nat, x: (nat, nat)) {
    i < |l.bs| && l.bs[i].free && l.bs[i].at <= x.0 && x.1 <= EndOf(l.bs, l.end, i)
  }

  // ----- Used blocks and the others -----

  ghost predicate NoneUsedAt(l: List, a: nat) {
    forall k :: 0 <= k < |l.bs| && !l.bs[k].free ==> l.bs[k].at != a
  }

  lemma AllOthers(l: List, a: nat)
    requires NoneUsedAt(l, a)
    ensures Used(l) == Others(l, a)
  {
  }

  lemma OneAndOthers(l: List, start: nat, k: nat)
    requires Tiling(l.bs, start, l.end) && k < |l.bs| && !l.bs[k].free
    ensures Used(l) == Others(l, l.bs[k].at) + {Span(l, k)} && Span(l, k) !in Others(l, l.bs[k].at)
  {
    forall i | 0 <= i < |l.bs| && i != k ensures l.bs[i].at != l.bs[k].at {
      Ascending(l.bs, start, l.end, if i < k then i else k, if i < k then k else i);
    }
  }

  // ----- malloc -----

  // The end of a block from a to top that is to hold s bytes: what is left is cut off if it has room for a block with
  // four bytes of data.
  function CutAt(a: nat, s: nat, top: nat): nat {
    if top - (a + HEADER + s) >= HEADER + 4 then a + HEADER + s else top
  }

  // malloc hands out one new span of at least s bytes, which no one holds; what is cut off is a free block.
  lemma MallocHands(l: List, start: nat, s: nat)
    requires Tiling(l.bs, start, l.end) && s % 4 == 0
    ensures var l', a := Malloc(l, s), MallocAt(l, s);
            var top := if Fits(l, s) then EndOf(l.bs, l.end, FirstFit(l.bs, l.end, s, 0)) else l.end + HEADER + s;
            var e := CutAt(a, s, top);
            && Tiling(l'.bs, start, l'.end) && a + HEADER + s <= e
            && Used(l') == Used(l) + {(a, e)} && NoneUsedAt(l, a)
            && (e < top ==> InFree(l', (e, top))) && l'.end == (if Fits(l, s) then l.end else top)
  {
    var l', a, n := Malloc(l, s), MallocAt(l, s), FirstFit(l.bs, l.end, s, 0);
    MallocTiling(l, start, s);
    MallocKeepsTiling(l, start, s);
    MallocOthers(l, s);
    AllOthers(l, a);
    MallocPlace(l, s);
    OneAndOthers(l', start, n);
  }

  lemma MallocPlace(l: List, s: nat)
    ensures var l', a, n := Malloc(l, s), MallocAt(l, s), FirstFit(l.bs, l.end, s, 0);
            var top := if Fits(l, s) then EndOf(l.bs, l.end, n) else l.end + HEADER + s;
            && n < |l'.bs| && l'.bs[n] == Block(a, false) && EndOf(l'.bs, l'.end, n) == CutAt(a, s, top)
            && (CutAt(a, s, top) < top ==> InFree(l', (CutAt(a, s, top), top)))
            && l'.end == (if Fits(l, s) then l.end else top)
  {
    var l', a, n := Malloc(l, s), MallocAt(l, s), FirstFit(l.bs, l.end, s, 0);
    if n < |l.bs| && EndOf(l.bs, l.end, n) - (a + HEADER + s) >= HEADER + 4 {
      assert FreeAround(l', n + 1, (a + HEADER + s, EndOf(l.bs, l.end, n)));
    }
  }

  // ----- free -----

  // What becomes of the memory of block k when it is freed.
  ghost predicate GivenBack(l: List, k: nat, l': List)
    requires k < |l.bs|
  {
    if k + 1 < |l.bs| then l'.end == l.end && InFree(l', Span(l, k)) else l'.end <= l.bs[k].at
  }

  // The used blocks are those from before except for k. Its memory is in a free block, or has been given back to the
  // system if there was nothing behind it.
  lemma FreeTakes(l: List, start: nat, k: nat)
    requires Tiling(l.bs, start, l.end) && k < |l.bs| && !l.bs[k].free
    ensures var l' := Free(l, k);
            Tiling(l'.bs, start, l'.end) && Used(l') == Used(l) - {Span(l, k)} && GivenBack(l, k, l')
  {
    var l', a := Free(l, k), l.bs[k].at;
    FreeKeepsTiling(l, start, k);
    FreeOthers(l, k);
    OneAndOthers(l, start, k);
    NoLongerUsed(l, start, k);
    AllOthers(l', a);
    FreeGivesBack(l, start, k);
  }

  lemma MarkNoneUsed(l: List, start: nat, k: nat)
    requires Tiling(l.bs, start, l.end) && k < |l.bs|
    ensures NoneUsedAt(l.(bs := Mark(l.bs, k, true)), l.bs[k].at)
  {
    forall i | 0 <= i < |l.bs| && i != k ensures l.bs[i].at != l.bs[k].at {
      Ascending(l.bs, start, l.end, if i < k then i else k, if i < k then k else i);
    }
  }

  lemma MergeNoneUsed(l: List, k: nat, a: nat)
    requires k + 1 < |l.bs| && NoneUsedAt(l, a)
    ensures NoneUsedAt(l.(bs := Merge(l.bs, k)), a)
  {
    var bs' := Merge(l.bs, k);
    forall i | 0 <= i < |bs'| && !bs'[i].free ensures bs'[i].at != a { assert bs'[i] == l.bs[if i <= k then i else i + 1]; }
  }

  lemma NoLongerUsed(l: List, start: nat, k: nat)
    requires Tiling(l.bs, start, l.end) && k < |l.bs|
    ensures NoneUsedAt(Free(l, k), l.bs[k].at)
  {
    var a := l.bs[k].at;
    var (back, j) := Back(l.bs, k);
    MarkNoneUsed(l, start, k);
    if j != k { MergeNoneUsed(l.(bs := Mark(l.bs, k, true)), k - 1, a); }
    assert NoneUsedAt(l.(bs := back), a);
    if j + 1 < |back| && back[j + 1].free { MergeNoneUsed(l.(bs := back), j, a); }
  }

  lemma BackAround(l: List, start: nat, k: nat)
    requires Tiling(l.bs, start, l.end) && k < |l.bs|
    ensures var (back, j) := Back(l.bs, k);
            FreeAround(l.(bs := back), j, Span(l, k)) && (j + 1 < |back| <==> k + 1 < |l.bs|)
  {
    if k > 0 { assert Sized(l.bs, l.end, k - 1); }
  }

  lemma FreeGivesBack(l: List, start: nat, k: nat)
    requires Tiling(l.bs, start, l.end) && k < |l.bs|
    ensures GivenBack(l, k, Free(l, k))
  {
    var (back, j) := Back(l.bs, k);
    BackAround(l, start, k);
    if j + 1 < |back| {
      if back[j + 1].free {
        BackTiling(l, start, k);
        assert Sized(back, l.end, j + 1);
      }
      assert FreeAround(Free(l, k), j, Span(l, k));
    }
  }

  lemma BackTiling(l: List, start: nat, k: nat)
    requires Tiling(l.bs, start, l.end) && k < |l.bs|
    ensures Tiling(Back(l.bs, k).0, start, l.end)
  {
    MarkTiling(l.bs, start, l.end, k, true);
    if Back(l.bs, k).1 != k { MergeTiling(Mark(l.bs, k, true), start, l.end, k - 1); }
  }

  // Memory in a free block is handed out again before the heap grows.
  lemma FreeFits(l: List, x: (nat, nat), s: nat)
    requires InFree(l, x) && x.0 + HEADER + s <= x.1
    ensures Fits(l, s)
  {
    var i: nat :| FreeAround(l, i, x);
    assert l.bs[i].free && SizeOf(l.bs, l.end, i) >= s;
  }

  // free, with the break: the memory is in a free block, or at or above the new end of the list and the new break.
  lemma ReleaseTakes(h: Heap, start: nat, k: nat)
    requires Inv(h, start) && h.Live? && k < |h.l.bs| && !h.l.bs[k].free && Below(h, k)
    ensures var h' := Release(h, k);
            && h'.Live? && Used(h'.l) == Used(h.l) - {Span(h.l, k)}
            && (k + 1 < |h.l.bs| ==> InFree(h'.l, Span(h.l, k)) && h'.brk == h.brk)
            && (k + 1 == |h.l.bs| ==> h'.l.end == h'.brk <= h.l.bs[k].at)
  {
    FreeTakes(h.l, start, k);
    if h.l.end != h.brk { BelowIsNotLast(h, start, k); }
  }

  // So a malloc of no more bytes than were freed does not grow the heap, unless the block was given back.
  lemma FreedIsReused(h: Heap, start: nat, k: nat, s: nat, u: Supply)
    requires Inv(h, start) && h.Live? && k + 1 < |h.l.bs| && !h.l.bs[k].free && Below(h, k)
    requires s <= SizeOf(h.l.bs, h.l.end, k)
    ensures var h1 := Release(h, k);
            h1.Live? && var h2 := Allocate(h1, s, u); h2.Live? && h2.brk == h.brk && h2.l.end == h.l.end
  {
    ReleaseTakes(h, start, k);
    FreeTakes(h.l, start, k);
    FreeFits(Release(h, k).l, Span(h.l, k), s);
  }

  // ----- realloc -----

  lemma TrimSpan(l: List, k: nat, s: nat)
    requires k < |l.bs| && SizeOf(l.bs, l.end, k) >= s
    ensures var l', a, top := Trim(l, k, s), l.bs[k].at, EndOf(l.bs, l.end, k);
            && k < |l'.bs| && l'.bs[k] == l.bs[k] && EndOf(l'.bs, l'.end, k) == CutAt(a, s, top)
            && (CutAt(a, s, top) < top ==> InFree(l', (CutAt(a, s, top), top))) && KeepsOthers(l, l', a)
  {
    var l', a, top := Trim(l, k, s), l.bs[k].at, EndOf(l.bs, l.end, k);
    if top - (a + HEADER + s) >= HEADER + 4 {
      OthersCut(l, k, a + HEADER + s);
      assert FreeAround(l', k + 1, (a + HEADER + s, top));
    }
  }

  // realloc in place: the block stays where it is, with at least s bytes; the others stay as they are. What it does not
  // need, of its own and of a free successor that it had to take, is a free block if it has room for one.
  lemma InPlaceSpans(l: List, start: nat, k: nat, s: nat)
    requires Tiling(l.bs, start, l.end) && k < |l.bs| && !l.bs[k].free && FitsInPlace(l, k, s) && s % 4 == 0
    ensures var l', a := InPlace(l, k, s), l.bs[k].at;
            var top := if SizeOf(l.bs, l.end, k) >= s then EndOf(l.bs, l.end, k) else EndOf(l.bs, l.end, k + 1);
            var e := CutAt(a, s, top);
            && a + HEADER + s <= e && Used(l') == Used(l) - {Span(l, k)} + {(a, e)}
            && (e < top ==> InFree(l', (e, top))) && l'.end == l.end
  {
    InPlaceKeepsTiling(l, start, k, s);
    OneAndOthers(l, start, k);
    var t := if SizeOf(l.bs, l.end, k) >= s then l else l.(bs := Merge(l.bs, k));
    if t != l { OthersMerge(l, k, l.bs[k].at); }
    TrimSpan(t, k, s);
    OneAndOthers(InPlace(l, k, s), start, k);
  }

  // The old block k1 of h1, which has one span more than h, is freed.
  lemma OldGoes(h: Heap, h1: Heap, start: nat, k: nat, k1: nat, x: (nat, nat))
    requires h.Live? && k < |h.l.bs| && Inv(h1, start) && h1.Live? && k1 < |h1.l.bs| && !h1.l.bs[k1].free && Below(h1, k1)
    requires Span(h1.l, k1) == Span(h.l, k) && Used(h1.l) == Used(h.l) + {x} && x.0 != h.l.bs[k].at
    ensures Release(h1, k1).Live? && Moved(h, k, x, Release(h1, k1))
  {
    ReleaseTakes(h1, start, k1);
  }

  // Span x has come and that of block k has gone, into a free block or back to the system.
  ghost predicate Moved(h: Heap, k: nat, x: (nat, nat), h': Heap)
    requires h.Live? && k < |h.l.bs| && h'.Live?
  {
    && Used(h'.l) == Used(h.l) - {Span(h.l, k)} + {x} && x.0 != h.l.bs[k].at
    && (InFree(h'.l, Span(h.l, k)) || (h'.l.end == h'.brk <= h.l.bs[k].at))
  }

  // realloc that moves: the new span, of at least s bytes, comes and the old one goes. The old memory is in a free
  // block of the new list, or at or above its end and the break.
  lemma MoveSpans(h: Heap, start: nat, k: nat, s: nat, u: Supply)
    requires Inv(h, start) && h.Live? && k < |h.l.bs| && !h.l.bs[k].free && s % 4 == 0 && s < MAXMALLOC
    requires Below(h, k) && !FitsInPlace(h.l, k, s) && Allocate(h, s, u).Live?
    ensures Resize(h, k, s, u).Live?
    ensures exists x: (nat, nat) :: Moved(h, k, x, Resize(h, k, s, u)) && x.0 == MallocAt(h.l, s) && x.0 + HEADER + s <= x.1
  {
    var h1, k1 := Allocate(h, s, u), KeptAt(h.l, s, k);
    ResizeMoves(h, k, s, u);
    AfterMalloc(h.l, s, k);
    AllocateInv(h, start, s, u);
    var x := NewSpan(h.l, start, s);
    OldGoes(h, h1, start, k, k1, x);
  }

  lemma NewSpan(l: List, start: nat, s: nat) returns (x: (nat, nat))
    requires Tiling(l.bs, start, l.end) && s % 4 == 0
    ensures x.0 == MallocAt(l, s) && x.0 + HEADER + s <= x.1 && Used(Malloc(l, s)) == Used(l) + {x} && NoneUsedAt(l, x.0)
  {
    MallocHands(l, start, s);
    var a := MallocAt(l, s);
    var top := if Fits(l, s) then EndOf(l.bs, l.end, FirstFit(l.bs, l.end, s, 0)) else l.end + HEADER + s;
    x := (a, CutAt(a, s, top));
  }
}
