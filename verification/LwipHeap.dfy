/**
  The heap of net/lwip/core/mem.c. Headers live inside the heap and are linked by index; the model keeps them in a map
  from index to header. The sequence of blocks is ghost and tied to the headers by Rep.
 */
module LwipHeap {

  const ALIGNMENT: nat := 4
  const HEADER: nat := 12
  const MIN_DATA: nat := 12
  const WORD: nat := 0x1_0000_0000

  datatype Header = Header(next: nat, prev: nat, used: bool)

  datatype Block = Block(at: nat, used: bool)

  // LWIP_MEM_ALIGN_SIZE on 32-bit sizes, then the minimum size.
  function RoundUp(size: nat): (r: nat)
    ensures r % ALIGNMENT == 0 && r >= MIN_DATA
    ensures size + ALIGNMENT <= WORD ==> r >= size
  {
    var aligned := (size + ALIGNMENT - 1) % WORD / ALIGNMENT * ALIGNMENT;
    if aligned < MIN_DATA then MIN_DATA else aligned
  }

  // The block handed out holds what was asked for exactly if rounding up does not wrap around; then it has the minimum
  // size.
  lemma RoundUpIsEnough(size: nat)
    requires size < WORD
    ensures RoundUp(size) >= size <==> size + ALIGNMENT <= WORD
    ensures size + ALIGNMENT > WORD ==> RoundUp(size) == MIN_DATA
  {
    if size + ALIGNMENT > WORD {
      assert (size + ALIGNMENT - 1) % WORD == size + ALIGNMENT - 1 - WORD;
    }
  }

  // ----- The blocks of a heap of `end` bytes -----

  function EndOf(bs: seq<Block>, end: nat, k: nat): nat
    requires k < |bs|
  {
    if k + 1 < |bs| then bs[k + 1].at else end
  }

  function PrevOf(bs: seq<Block>, k: nat): nat
    requires k < |bs|
  {
    if k == 0 then 0 else bs[k - 1].at
  }

  // The blocks tile the heap without a gap; each has room for its header and some data and is aligned.
  ghost predicate Tiling(bs: seq<Block>, end: nat) {
    bs != [] && bs[0].at == 0 && end % ALIGNMENT == 0 && forall k :: 0 <= k < |bs| ==> Sized(bs, end, k)
  }

  ghost predicate Sized(bs: seq<Block>, end: nat, k: nat) {
    k < |bs| && bs[k].at % ALIGNMENT == 0 && bs[k].at + HEADER + MIN_DATA <= EndOf(bs, end, k)
  }

  ghost predicate NoFreeNeighbours(bs: seq<Block>) {
    forall k :: 0 <= k < |bs| ==> Apart(bs, k)
  }

  // Block k and its successor are not both free.
  ghost predicate Apart(bs: seq<Block>, k: nat) {
    k + 1 < |bs| ==> bs[k].used || bs[k + 1].used
  }

  // Index of the lowest free block, or the number of blocks.
  ghost function FirstFree(bs: seq<Block>): (k: nat)
    ensures k <= |bs|
    ensures forall i :: 0 <= i < k ==> bs[i].used
    ensures k < |bs| ==> !bs[k].used
  {
    if bs == [] then 0
    else if !bs[0].used then 0
    else 1 + FirstFree(bs[1..])
  }

  ghost function StartOf(bs: seq<Block>, end: nat, k: nat): nat
    requires k <= |bs|
  {
    if k < |bs| then bs[k].at else end
  }

  // A free block with room for size bytes of data.
  ghost predicate Fits(bs: seq<Block>, end: nat, size: nat, k: nat) {
    k < |bs| && !bs[k].used && bs[k].at + HEADER + size <= EndOf(bs, end, k)
  }

  ghost predicate Linked(hdr: map<nat, Header>, bs: seq<Block>, end: nat) {
    && end in hdr && hdr[end].used
    && forall k :: 0 <= k < |bs| ==> LinkedAt(hdr, bs, end, k)
  }

  ghost predicate LinkedAt(hdr: map<nat, Header>, bs: seq<Block>, end: nat, k: nat) {
    k < |bs| && bs[k].at in hdr && hdr[bs[k].at] == Header(EndOf(bs, end, k), PrevOf(bs, k), bs[k].used)
  }

  lemma {:induction false} Ascending(bs: seq<Block>, end: nat, i: nat, j: nat)
    requires Tiling(bs, end) && i <= j < |bs|
    ensures bs[i].at <= bs[j].at < end
    ensures i < j ==> bs[i].at + HEADER + MIN_DATA <= bs[j].at
    decreases |bs| - i
  {
    assert Sized(bs, end, i);
    if i < j {
      Ascending(bs, end, i + 1, j);
    } else if i + 1 < |bs| {
      Ascending(bs, end, i + 1, |bs| - 1);
    }
  }

  lemma FirstFreeUnique(bs: seq<Block>, k: nat)
    requires k <= |bs| && (forall i :: 0 <= i < k ==> bs[i].used) && (k < |bs| ==> !bs[k].used)
    ensures FirstFree(bs) == k
  {
    var f := FirstFree(bs);
    if f < k { assert false; }
  }

  // ----- Changing the chain of headers -----

  // Stores back-links the way the source does: the end marker's is left alone.
  function BackLink(hdr: map<nat, Header>, end: nat, at: nat, prev: nat): map<nat, Header>
    requires at in hdr
  {
    if at != end then hdr[at := hdr[at].(prev := prev)] else hdr
  }

  // Block k becomes one that ends at cut, followed by a free block up to its old end.
  function Cut(bs: seq<Block>, k: nat, cut: nat, used: bool): seq<Block>
    requires k < |bs|
  {
    bs[..k] + [Block(bs[k].at, used), Block(cut, false)] + bs[k + 1..]
  }

  function CutHeaders(hdr: map<nat, Header>, end: nat, at: nat, cut: nat, used: bool): map<nat, Header>
    requires at in hdr && hdr[at].next in hdr
  {
    var next := hdr[at].next;
    BackLink(hdr[cut := Header(next, at, false)][at := hdr[at].(next := cut, used := used)], end, next, cut)
  }

  ghost predicate CutFits(bs: seq<Block>, end: nat, k: nat, cut: nat) {
    && k < |bs| && cut % ALIGNMENT == 0
    && bs[k].at + HEADER + MIN_DATA <= cut && cut + HEADER + MIN_DATA <= EndOf(bs, end, k)
  }

  lemma CutTiling(bs: seq<Block>, end: nat, k: nat, cut: nat, used: bool)
    requires Tiling(bs, end) && CutFits(bs, end, k, cut)
    ensures Tiling(Cut(bs, k, cut, used), end)
  {
    var bs' := Cut(bs, k, cut, used);
    forall i | 0 <= i < |bs'|
      ensures Sized(bs', end, i)
    {
      assert Sized(bs, end, if i <= k then i else i - 1);
    }
  }

  lemma Distinct(bs: seq<Block>, end: nat, at: nat, k: nat, i: nat)
    requires Tiling(bs, end) && k < |bs| && i < |bs| && bs[k].at < at < EndOf(bs, end, k)
    ensures at != bs[i].at && at != end
  {
    Ascending(bs, end, if i <= k then i else k + 1, if i <= k then k else i);
    if k + 1 < |bs| { Ascending(bs, end, k + 1, |bs| - 1); }
  }

  // The successor of a block, or the end marker, has a header.
  lemma NextHeader(hdr: map<nat, Header>, bs: seq<Block>, end: nat, k: nat)
    requires Linked(hdr, bs, end) && k < |bs|
    ensures LinkedAt(hdr, bs, end, k) && hdr[bs[k].at].next in hdr
    ensures k + 1 < |bs| ==> LinkedAt(hdr, bs, end, k + 1)
  {
    assert LinkedAt(hdr, bs, end, k);
    if k + 1 < |bs| { assert LinkedAt(hdr, bs, end, k + 1); }
  }

  lemma CutLinked(hdr: map<nat, Header>, bs: seq<Block>, end: nat, k: nat, cut: nat, used: bool)
    requires Tiling(bs, end) && Linked(hdr, bs, end) && CutFits(bs, end, k, cut)
    ensures bs[k].at in hdr && hdr[bs[k].at].next in hdr
    ensures Linked(CutHeaders(hdr, end, bs[k].at, cut, used), Cut(bs, k, cut, used), end)
  {
    NextHeader(hdr, bs, end, k);
    var bs', hdr' := Cut(bs, k, cut, used), CutHeaders(hdr, end, bs[k].at, cut, used);
    forall i | 0 <= i < |bs'|
      ensures LinkedAt(hdr', bs', end, i)
    {
      CutLinkedAt(hdr, bs, end, k, cut, used, i);
    }
    Distinct(bs, end, cut, k, k);
    Ascending(bs, end, k, k);
  }

  lemma CutLinkedAt(hdr: map<nat, Header>, bs: seq<Block>, end: nat, k: nat, cut: nat, used: bool, i: nat)
    requires Tiling(bs, end) && Linked(hdr, bs, end) && CutFits(bs, end, k, cut) && i < |bs| + 1
    ensures bs[k].at in hdr && hdr[bs[k].at].next in hdr
    ensures LinkedAt(CutHeaders(hdr, end, bs[k].at, cut, used), Cut(bs, k, cut, used), end, i)
  {
    assert LinkedAt(hdr, bs, end, k);
    NextHeader(hdr, bs, end, k);
    assert LinkedAt(hdr, bs, end, if i <= k then i else i - 1);
    Ascending(bs, end, k, k);
    Distinct(bs, end, cut, k, if i <= k then i else i - 1);
    if i < k {
      Ascending(bs, end, i, k);
      if k + 1 < |bs| { Ascending(bs, end, i, k + 1); }
    } else if i > k + 1 {
      Ascending(bs, end, k, i - 1);
      Ascending(bs, end, k + 1, i - 1);
    } else if k + 1 < |bs| {
      Ascending(bs, end, k, k + 1);
    }
  }

  // Blocks k and k + 1 become one, which keeps the mark of block k.
  function Merge(bs: seq<Block>, k: nat): seq<Block>
    requires k + 1 < |bs|
  {
    bs[..k + 1] + bs[k + 2..]
  }

  // plug_holes relinks the header after the merged block even when that is the end marker.
  function MergeHeaders(hdr: map<nat, Header>, at: nat, second: nat): map<nat, Header>
    requires at in hdr && second in hdr && hdr[second].next in hdr && at != hdr[second].next
  {
    var next := hdr[second].next;
    var hdr1 := hdr[at := hdr[at].(next := next)];
    hdr1[next := hdr1[next].(prev := at)]
  }

  lemma MergeTiling(bs: seq<Block>, end: nat, k: nat)
    requires Tiling(bs, end) && k + 1 < |bs|
    ensures Tiling(Merge(bs, k), end)
  {
    var bs' := Merge(bs, k);
    assert Sized(bs, end, k) && Sized(bs, end, k + 1);
    forall i | 0 <= i < |bs'| ensures Sized(bs', end, i) {
      assert Sized(bs, end, if i <= k then i else i + 1);
    }
  }

  lemma MergeLinked(hdr: map<nat, Header>, bs: seq<Block>, end: nat, k: nat)
    requires Tiling(bs, end) && Linked(hdr, bs, end) && k + 1 < |bs|
    ensures LinkedAt(hdr, bs, end, k) && LinkedAt(hdr, bs, end, k + 1) && EndOf(bs, end, k + 1) in hdr
    ensures bs[k].at < bs[k + 1].at < EndOf(bs, end, k + 1)
    ensures Linked(MergeHeaders(hdr, bs[k].at, bs[k + 1].at), Merge(bs, k), end)
  {
    NextHeader(hdr, bs, end, k);
    NextHeader(hdr, bs, end, k + 1);
    Ascending(bs, end, k, k + 1);
    assert Sized(bs, end, k + 1);
    var bs', hdr' := Merge(bs, k), MergeHeaders(hdr, bs[k].at, bs[k + 1].at);
    forall i | 0 <= i < |bs'| ensures LinkedAt(hdr', bs', end, i) {
      MergeLinkedAt(hdr, bs, end, k, i);
    }
  }

  lemma MergeLinkedAt(hdr: map<nat, Header>, bs: seq<Block>, end: nat, k: nat, i: nat)
    requires Tiling(bs, end) && Linked(hdr, bs, end) && k + 1 < |bs| && i < |bs| - 1
    requires bs[k].at in hdr && bs[k + 1].at in hdr && hdr[bs[k + 1].at].next in hdr
    requires hdr[bs[k + 1].at].next != bs[k].at
    ensures LinkedAt(MergeHeaders(hdr, bs[k].at, bs[k + 1].at), Merge(bs, k), end, i)
  {
    var j := if i <= k then i else i + 1;
    assert LinkedAt(hdr, bs, end, j) && LinkedAt(hdr, bs, end, k + 1);
    Ascending(bs, end, k, k + 1);
    assert Sized(bs, end, k + 1);
    if i < k {
      Ascending(bs, end, i, k);
      Ascending(bs, end, i, k + 1);
      if k + 2 < |bs| { Ascending(bs, end, i, k + 2); }
    } else if i > k {
      Ascending(bs, end, k, j);
      Ascending(bs, end, k + 2, j);
    } else {
      Ascending(bs, end, k, k);
    }
  }

  // The free block after k starts at cut instead.
  function Shift(bs: seq<Block>, k: nat, cut: nat): seq<Block>
    requires k + 1 < |bs|
  {
    bs[k + 1 := Block(cut, false)]
  }

  function ShiftHeaders(hdr: map<nat, Header>, end: nat, at: nat, second: nat, cut: nat): map<nat, Header>
    requires at in hdr && second in hdr && hdr[second].next in hdr
  {
    var next := hdr[second].next;
    var hdr1 := hdr[cut := Header(next, at, false)];
    BackLink(hdr1[at := hdr1[at].(next := cut)], end, next, cut)
  }

  lemma ShiftKeeps(hdr: map<nat, Header>, bs: seq<Block>, end: nat, k: nat, cut: nat)
    requires Tiling(bs, end) && Linked(hdr, bs, end) && k + 1 < |bs| && !bs[k + 1].used
    requires cut % ALIGNMENT == 0 && bs[k].at + HEADER + MIN_DATA <= cut < bs[k + 1].at
    ensures Tiling(Shift(bs, k, cut), end)
    ensures LinkedAt(hdr, bs, end, k) && LinkedAt(hdr, bs, end, k + 1) && EndOf(bs, end, k + 1) in hdr
    ensures Linked(ShiftHeaders(hdr, end, bs[k].at, bs[k + 1].at, cut), Shift(bs, k, cut), end)
  {
    var bs' := Shift(bs, k, cut);
    assert Sized(bs, end, k) && Sized(bs, end, k + 1);
    forall i | 0 <= i < |bs'| ensures Sized(bs', end, i) {
      assert Sized(bs, end, i);
    }
    NextHeader(hdr, bs, end, k);
    NextHeader(hdr, bs, end, k + 1);
    var hdr' := ShiftHeaders(hdr, end, bs[k].at, bs[k + 1].at, cut);
    Distinct(bs, end, cut, k, k);
    Ascending(bs, end, k, k + 1);
    forall i | 0 <= i < |bs'| ensures LinkedAt(hdr', bs', end, i) {
      ShiftLinkedAt(hdr, bs, end, k, cut, i);
    }
  }

  lemma ShiftLinkedAt(hdr: map<nat, Header>, bs: seq<Block>, end: nat, k: nat, cut: nat, i: nat)
    requires Tiling(bs, end) && Linked(hdr, bs, end) && k + 1 < |bs| && !bs[k + 1].used && i < |bs|
    requires cut % ALIGNMENT == 0 && bs[k].at + HEADER + MIN_DATA <= cut < bs[k + 1].at
    requires bs[k].at in hdr && bs[k + 1].at in hdr && hdr[bs[k + 1].at].next in hdr
    ensures LinkedAt(ShiftHeaders(hdr, end, bs[k].at, bs[k + 1].at, cut), Shift(bs, k, cut), end, i)
  {
    assert LinkedAt(hdr, bs, end, i) && LinkedAt(hdr, bs, end, k) && LinkedAt(hdr, bs, end, k + 1);
    Distinct(bs, end, cut, k, i);
    Ascending(bs, end, k, k + 1);
    assert Sized(bs, end, k + 1);
    if i < k {
      Ascending(bs, end, i, k);
      if k + 2 < |bs| { Ascending(bs, end, i, k + 2); }
    } else if i > k + 1 {
      Ascending(bs, end, k, i);
      Ascending(bs, end, k + 2, i);
    } else {
      Ascending(bs, end, i, i);
    }
  }
}
