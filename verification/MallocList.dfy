/**
  The block list behind lib/malloc.c: a doubly linked list of headers that tiles the heap from its start to the break.
  The sequence of blocks is the abstract value; Linked ties it to the headers.
 */
module MallocList {

  const HEADER: nat := 20
  const WORD: nat := 0x1_0000_0000

  // struct m_block; 0 is NULL.
  datatype Header = Header(size: nat, prev: nat, next: nat, free: bool, ptr: nat)

  datatype Block = Block(at: nat, free: bool)

  // align4 on 32-bit sizes: the two low bits are cleared.
  function Align4(n: nat): (s: nat)
    ensures s % 4 == 0
    ensures n + 3 < WORD ==> n <= s < n + 4
  {
    var r := (n + 3) % WORD;
    assert n + 3 < WORD ==> r == n + 3;
    r - r % 4
  }

  // Rounding up gives at least what was asked for, exactly if it does not wrap around; then it gives 0.
  lemma AlignIsEnough(n: nat)
    requires n < WORD
    ensures Align4(n) >= n <==> n + 3 < WORD
    ensures n + 3 >= WORD ==> Align4(n) == 0
  {
    if n + 3 >= WORD {
      assert (n + 3) % WORD == n + 3 - WORD;
      assert n + 3 - WORD < 4;
    }
  }

  function EndOf(bs: seq<Block>, brk: nat, k: nat): nat
    requires k < |bs|
  {
    if k + 1 < |bs| then bs[k + 1].at else brk
  }

  function SizeOf(bs: seq<Block>, brk: nat, k: nat): int
    requires k < |bs|
  {
    EndOf(bs, brk, k) - bs[k].at - HEADER
  }

  ghost predicate Sized(bs: seq<Block>, brk: nat, k: nat) {
    k < |bs| && bs[k].at % 4 == 0 && bs[k].at + HEADER <= EndOf(bs, brk, k)
  }

  // The blocks tile the range from start to the break.
  ghost predicate Tiling(bs: seq<Block>, start: nat, brk: nat) {
    && start > 0 && start % 4 == 0 && brk % 4 == 0
    && (if bs == [] then brk == start else bs[0].at == start)
    && forall k :: 0 <= k < |bs| ==> Sized(bs, brk, k)
  }

  ghost predicate LinkedAt(hdr: map<nat, Header>, bs: seq<Block>, brk: nat, k: nat) {
    && k < |bs| && bs[k].at in hdr
    && hdr[bs[k].at].size == SizeOf(bs, brk, k)
    && hdr[bs[k].at].prev == (if k == 0 then 0 else bs[k - 1].at)
    && hdr[bs[k].at].next == (if k + 1 < |bs| then bs[k + 1].at else 0)
    && hdr[bs[k].at].free == bs[k].free
    && hdr[bs[k].at].ptr == bs[k].at + HEADER
  }

  ghost predicate Linked(hdr: map<nat, Header>, bs: seq<Block>, brk: nat) {
    forall k :: 0 <= k < |bs| ==> LinkedAt(hdr, bs, brk, k)
  }

  // Block k and its successor are not both free, and a free block is not the last.
  ghost predicate Apart(bs: seq<Block>, k: nat) {
    k < |bs| && bs[k].free ==> k + 1 < |bs| && !bs[k + 1].free
  }

  ghost predicate Coalesced(bs: seq<Block>) {
    forall k :: 0 <= k < |bs| ==> Apart(bs, k)
  }

  lemma {:induction false} Ascending(bs: seq<Block>, start: nat, brk: nat, i: nat, j: nat)
    requires Tiling(bs, start, brk) && i <= j < |bs|
    ensures start <= bs[i].at <= bs[j].at && bs[j].at + HEADER <= brk
    ensures i < j ==> bs[i].at + HEADER <= EndOf(bs, brk, i) <= bs[j].at
    decreases |bs| - i, i
  {
    assert Sized(bs, brk, i);
    if i < j {
      Ascending(bs, start, brk, i + 1, j);
      if i > 0 { StartsAt(bs, start, brk, i); }
    } else {
      StartsAt(bs, start, brk, i);
      EndsAt(bs, start, brk, i);
    }
  }

  lemma {:induction false} StartsAt(bs: seq<Block>, start: nat, brk: nat, i: nat)
    requires Tiling(bs, start, brk) && i < |bs|
    ensures start <= bs[i].at
  {
    if i > 0 {
      StartsAt(bs, start, brk, i - 1);
      assert Sized(bs, brk, i - 1);
    }
  }

  lemma {:induction false} EndsAt(bs: seq<Block>, start: nat, brk: nat, i: nat)
    requires Tiling(bs, start, brk) && i < |bs|
    ensures bs[i].at + HEADER <= EndOf(bs, brk, i) <= brk
    decreases |bs| - i
  {
    assert Sized(bs, brk, i);
    if i + 1 < |bs| { EndsAt(bs, start, brk, i + 1); }
  }

  // ----- Changing the list -----

  // Block k ends at cut and is followed by a free block up to its old end.
  function Cut(bs: seq<Block>, k: nat, cut: nat): seq<Block>
    requires k < |bs|
  {
    bs[..k + 1] + [Block(cut, true)] + bs[k + 1..]
  }

  function CutHeaders(hdr: map<nat, Header>, at: nat, s: nat): map<nat, Header>
    requires at in hdr && (hdr[at].next != 0 ==> hdr[at].next in hdr) && hdr[at].size >= s + HEADER
  {
    var b, cut := hdr[at], at + HEADER + s;
    var rest := Header(b.size - s - HEADER, at, b.next, true, cut + HEADER);
    var hdr1 := hdr[cut := rest][at := b.(size := s, next := cut)];
    if b.next != 0 && b.next in hdr1 then hdr1[b.next := hdr1[b.next].(prev := cut)] else hdr1
  }

  lemma CutTiling(bs: seq<Block>, start: nat, brk: nat, k: nat, cut: nat)
    requires Tiling(bs, start, brk) && k < |bs| && cut % 4 == 0
    requires bs[k].at + HEADER <= cut && cut + HEADER <= EndOf(bs, brk, k)
    ensures Tiling(Cut(bs, k, cut), start, brk)
  {
    var bs' := Cut(bs, k, cut);
    forall i | 0 <= i < |bs'| ensures Sized(bs', brk, i) {
      assert Sized(bs, brk, if i <= k then i else i - 1);
    }
  }

  lemma Neighbours(hdr: map<nat, Header>, bs: seq<Block>, brk: nat, k: nat)
    requires Linked(hdr, bs, brk) && k < |bs|
    ensures LinkedAt(hdr, bs, brk, k)
    ensures k + 1 < |bs| ==> LinkedAt(hdr, bs, brk, k + 1)
    ensures k > 0 ==> LinkedAt(hdr, bs, brk, k - 1)
  {
    assert LinkedAt(hdr, bs, brk, k);
    if k + 1 < |bs| { assert LinkedAt(hdr, bs, brk, k + 1); }
    if k > 0 { assert LinkedAt(hdr, bs, brk, k - 1); }
  }

  lemma CutLinked(hdr: map<nat, Header>, bs: seq<Block>, start: nat, brk: nat, k: nat, s: nat)
    requires Tiling(bs, start, brk) && Linked(hdr, bs, brk) && k < |bs| && SizeOf(bs, brk, k) >= s + HEADER
    ensures LinkedAt(hdr, bs, brk, k) && (hdr[bs[k].at].next != 0 ==> hdr[bs[k].at].next in hdr)
    ensures Linked(CutHeaders(hdr, bs[k].at, s), Cut(bs, k, bs[k].at + HEADER + s), brk)
  {
    Neighbours(hdr, bs, brk, k);
    var bs', hdr' := Cut(bs, k, bs[k].at + HEADER + s), CutHeaders(hdr, bs[k].at, s);
    forall i | 0 <= i < |bs'| ensures LinkedAt(hdr', bs', brk, i) {
      CutLinkedAt(hdr, bs, start, brk, k, s, i);
    }
  }

  // The blocks before the cut one keep their headers.
  lemma CutLinkedBefore(hdr: map<nat, Header>, bs: seq<Block>, start: nat, brk: nat, k: nat, s: nat, i: nat)
    requires Tiling(bs, start, brk) && Linked(hdr, bs, brk) && i < k < |bs| && SizeOf(bs, brk, k) >= s + HEADER
    requires LinkedAt(hdr, bs, brk, k) && (hdr[bs[k].at].next != 0 ==> hdr[bs[k].at].next in hdr)
    ensures LinkedAt(CutHeaders(hdr, bs[k].at, s), Cut(bs, k, bs[k].at + HEADER + s), brk, i)
  {
    assert LinkedAt(hdr, bs, brk, i);
    Ascending(bs, start, brk, k, k);
    Ascending(bs, start, brk, i, k);
    if k + 1 < |bs| { Ascending(bs, start, brk, i, k + 1); Ascending(bs, start, brk, k, k + 1); }
  }

  // The blocks behind the cut one keep theirs, but for the link back to the new block.
  lemma CutLinkedAfter(hdr: map<nat, Header>, bs: seq<Block>, start: nat, brk: nat, k: nat, s: nat, j: nat)
    requires Tiling(bs, start, brk) && Linked(hdr, bs, brk) && k < j < |bs| && SizeOf(bs, brk, k) >= s + HEADER
    requires LinkedAt(hdr, bs, brk, k) && (hdr[bs[k].at].next != 0 ==> hdr[bs[k].at].next in hdr)
    ensures LinkedAt(CutHeaders(hdr, bs[k].at, s), Cut(bs, k, bs[k].at + HEADER + s), brk, j + 1)
  {
    assert LinkedAt(hdr, bs, brk, j);
    Ascending(bs, start, brk, k, k);
    Ascending(bs, start, brk, k, j);
    Ascending(bs, start, brk, k + 1, j);
    Ascending(bs, start, brk, k, k + 1);
  }

  lemma CutLinkedHere(hdr: map<nat, Header>, bs: seq<Block>, start: nat, brk: nat, k: nat, s: nat, i: nat)
    requires Tiling(bs, start, brk) && Linked(hdr, bs, brk) && k < |bs| && SizeOf(bs, brk, k) >= s + HEADER
    requires LinkedAt(hdr, bs, brk, k) && (hdr[bs[k].at].next != 0 ==> hdr[bs[k].at].next in hdr) && k <= i <= k + 1
    ensures LinkedAt(CutHeaders(hdr, bs[k].at, s), Cut(bs, k, bs[k].at + HEADER + s), brk, i)
  {
    Neighbours(hdr, bs, brk, k);
    Ascending(bs, start, brk, k, k);
    if k + 1 < |bs| { Ascending(bs, start, brk, k, k + 1); }
  }

  lemma CutLinkedAt(hdr: map<nat, Header>, bs: seq<Block>, start: nat, brk: nat, k: nat, s: nat, i: nat)
    requires Tiling(bs, start, brk) && Linked(hdr, bs, brk) && k < |bs| && SizeOf(bs, brk, k) >= s + HEADER
    requires i < |bs| + 1 && LinkedAt(hdr, bs, brk, k) && (hdr[bs[k].at].next != 0 ==> hdr[bs[k].at].next in hdr)
    ensures LinkedAt(CutHeaders(hdr, bs[k].at, s), Cut(bs, k, bs[k].at + HEADER + s), brk, i)
  {
    if i < k {
      CutLinkedBefore(hdr, bs, start, brk, k, s, i);
    } else if i <= k + 1 {
      CutLinkedHere(hdr, bs, start, brk, k, s, i);
    } else {
      CutLinkedAfter(hdr, bs, start, brk, k, s, i - 1);
    }
  }

  // Blocks k and k + 1 become one, with the mark of block k.
  function Merge(bs: seq<Block>, k: nat): seq<Block>
    requires k + 1 < |bs|
  {
    bs[..k + 1] + bs[k + 2..]
  }

  function MergeHeaders(hdr: map<nat, Header>, at: nat): map<nat, Header>
    requires at in hdr && hdr[at].next in hdr
  {
    var b, n := hdr[at], hdr[hdr[at].next];
    var hdr1 := hdr[at := b.(size := b.size + HEADER + n.size, next := n.next)];
    if n.next != 0 && n.next in hdr1 then hdr1[n.next := hdr1[n.next].(prev := at)] else hdr1
  }

  lemma MergeTiling(bs: seq<Block>, start: nat, brk: nat, k: nat)
    requires Tiling(bs, start, brk) && k + 1 < |bs|
    ensures Tiling(Merge(bs, k), start, brk)
  {
    var bs' := Merge(bs, k);
    assert Sized(bs, brk, k) && Sized(bs, brk, k + 1);
    forall i | 0 <= i < |bs'| ensures Sized(bs', brk, i) {
      assert Sized(bs, brk, if i <= k then i else i + 1);
    }
  }

  lemma MergeLinked(hdr: map<nat, Header>, bs: seq<Block>, start: nat, brk: nat, k: nat)
    requires Tiling(bs, start, brk) && Linked(hdr, bs, brk) && k + 1 < |bs|
    ensures LinkedAt(hdr, bs, brk, k) && LinkedAt(hdr, bs, brk, k + 1)
    ensures Linked(MergeHeaders(hdr, bs[k].at), Merge(bs, k), brk)
  {
    Neighbours(hdr, bs, brk, k);
    var bs', hdr' := Merge(bs, k), MergeHeaders(hdr, bs[k].at);
    forall i | 0 <= i < |bs'| ensures LinkedAt(hdr', bs', brk, i) {
      MergeLinkedAt(hdr, bs, start, brk, k, i);
    }
  }

  lemma MergeLinkedAt(hdr: map<nat, Header>, bs: seq<Block>, start: nat, brk: nat, k: nat, i: nat)
    requires Tiling(bs, start, brk) && Linked(hdr, bs, brk) && k + 1 < |bs| && i < |bs| - 1
    requires LinkedAt(hdr, bs, brk, k) && LinkedAt(hdr, bs, brk, k + 1)
    ensures LinkedAt(MergeHeaders(hdr, bs[k].at), Merge(bs, k), brk, i)
  {
    var j := if i <= k then i else i + 1;
    Neighbours(hdr, bs, brk, k + 1);
    assert LinkedAt(hdr, bs, brk, j);
    Ascending(bs, start, brk, k, k + 1);
    if j < k {
      Ascending(bs, start, brk, j, k);
      if k + 2 < |bs| { Ascending(bs, start, brk, j, k + 2); }
    } else if j > k {
      Ascending(bs, start, brk, k, j);
      Ascending(bs, start, brk, k + 2, j);
    } else if k + 2 < |bs| {
      Ascending(bs, start, brk, k, k + 2);
    }
  }

  function Mark(bs: seq<Block>, k: nat, free: bool): seq<Block>
    requires k < |bs|
  {
    bs[k := Block(bs[k].at, free)]
  }

  lemma MarkTiling(bs: seq<Block>, start: nat, brk: nat, k: nat, free: bool)
    requires Tiling(bs, start, brk) && k < |bs|
    ensures Tiling(Mark(bs, k, free), start, brk)
  {
    var bs' := Mark(bs, k, free);
    forall i | 0 <= i < |bs'| ensures Sized(bs', brk, i) { assert Sized(bs, brk, i); }
  }

  lemma MarkKeeps(hdr: map<nat, Header>, bs: seq<Block>, start: nat, brk: nat, k: nat, free: bool)
    requires Tiling(bs, start, brk) && Linked(hdr, bs, brk) && k < |bs|
    ensures LinkedAt(hdr, bs, brk, k)
    ensures Tiling(Mark(bs, k, free), start, brk)
    ensures Linked(hdr[bs[k].at := hdr[bs[k].at].(free := free)], Mark(bs, k, free), brk)
  {
    assert LinkedAt(hdr, bs, brk, k);
    var bs', hdr' := Mark(bs, k, free), hdr[bs[k].at := hdr[bs[k].at].(free := free)];
    forall i | 0 <= i < |bs'| ensures Sized(bs', brk, i) && LinkedAt(hdr', bs', brk, i) {
      assert Sized(bs, brk, i) && LinkedAt(hdr, bs, brk, i);
      Ascending(bs, start, brk, if i < k then i else k, if i < k then k else i);
    }
  }

  // extend_heap: a used block at the break.
  function AppendHeaders(hdr: map<nat, Header>, last: nat, brk: nat, s: nat): map<nat, Header>
    requires last != 0 ==> last in hdr
  {
    var hdr1 := hdr[brk := Header(s, last, 0, false, brk + HEADER)];
    if last != 0 && last in hdr1 then hdr1[last := hdr1[last].(next := brk)] else hdr1
  }

  lemma AppendSized(bs: seq<Block>, start: nat, brk: nat, s: nat, i: nat)
    requires Tiling(bs, start, brk) && s % 4 == 0 && i <= |bs|
    ensures Sized(bs + [Block(brk, false)], brk + HEADER + s, i)
  {
    if i < |bs| { assert Sized(bs, brk, i); }
  }

  lemma AppendTiling(bs: seq<Block>, start: nat, brk: nat, s: nat)
    requires Tiling(bs, start, brk) && s % 4 == 0
    ensures Tiling(bs + [Block(brk, false)], start, brk + HEADER + s)
  {
    var bs', brk' := bs + [Block(brk, false)], brk + HEADER + s;
    forall i | 0 <= i < |bs'| ensures Sized(bs', brk', i) { AppendSized(bs, start, brk, s, i); }
  }

  lemma AppendLinkedAt(hdr: map<nat, Header>, bs: seq<Block>, start: nat, brk: nat, s: nat, last: nat, i: nat)
    requires Tiling(bs, start, brk) && Linked(hdr, bs, brk) && i <= |bs|
    requires last == (if bs == [] then 0 else bs[|bs| - 1].at) && (last != 0 ==> last in hdr)
    ensures LinkedAt(AppendHeaders(hdr, last, brk, s), bs + [Block(brk, false)], brk + HEADER + s, i)
  {
    var n := |bs|;
    if n > 0 {
      Neighbours(hdr, bs, brk, n - 1);
      Ascending(bs, start, brk, if i < n then i else n - 1, n - 1);
    }
    if i < n { assert Sized(bs, brk, i) && LinkedAt(hdr, bs, brk, i); }
  }

  lemma AppendKeeps(hdr: map<nat, Header>, bs: seq<Block>, start: nat, brk: nat, s: nat)
    requires Tiling(bs, start, brk) && Linked(hdr, bs, brk) && s % 4 == 0
    ensures var last := if bs == [] then 0 else bs[|bs| - 1].at;
            && (last != 0 ==> last in hdr)
            && Tiling(bs + [Block(brk, false)], start, brk + HEADER + s)
            && Linked(AppendHeaders(hdr, last, brk, s), bs + [Block(brk, false)], brk + HEADER + s)
  {
    var n, bs', brk' := |bs|, bs + [Block(brk, false)], brk + HEADER + s;
    var last := if bs == [] then 0 else bs[n - 1].at;
    if n > 0 { Neighbours(hdr, bs, brk, n - 1); }
    AppendTiling(bs, start, brk, s);
    var hdr' := AppendHeaders(hdr, last, brk, s);
    forall i | 0 <= i < |bs'| ensures LinkedAt(hdr', bs', brk', i) {
      AppendLinkedAt(hdr, bs, start, brk, s, last, i);
    }
  }

  lemma DropTiling(bs: seq<Block>, start: nat, brk: nat)
    requires Tiling(bs, start, brk) && bs != []
    ensures Tiling(bs[..|bs| - 1], start, bs[|bs| - 1].at)
  {
    var n := |bs| - 1;
    assert Sized(bs, brk, n);
    forall i | 0 <= i < n ensures Sized(bs[..n], bs[n].at, i) { assert Sized(bs, brk, i); }
  }

  // Giving the last block back to the system.
  lemma DropKeeps(hdr: map<nat, Header>, bs: seq<Block>, start: nat, brk: nat)
    requires Tiling(bs, start, brk) && Linked(hdr, bs, brk) && bs != []
    ensures var n := |bs| - 1;
            && LinkedAt(hdr, bs, brk, n) && Tiling(bs[..n], start, bs[n].at)
            && (n > 0 ==> LinkedAt(hdr, bs, brk, n - 1)
                          && Linked(hdr[bs[n - 1].at := hdr[bs[n - 1].at].(next := 0)], bs[..n], bs[n].at))
  {
    var n := |bs| - 1;
    Neighbours(hdr, bs, brk, n);
    assert Sized(bs, brk, n);
    forall i | 0 <= i < n ensures Sized(bs[..n], bs[n].at, i) {
      assert Sized(bs, brk, i);
    }
    if n > 0 {
      var hdr' := hdr[bs[n - 1].at := hdr[bs[n - 1].at].(next := 0)];
      forall i | 0 <= i < n ensures LinkedAt(hdr', bs[..n], bs[n].at, i) {
        assert LinkedAt(hdr, bs, brk, i);
        Ascending(bs, start, brk, i, n - 1);
      }
    }
  }

  // ----- malloc and free on the list -----

  // The first free block of at least s bytes, or the number of blocks.
  function FirstFit(bs: seq<Block>, brk: nat, s: nat, from: nat): (k: nat)
    requires from <= |bs|
    ensures from <= k <= |bs|
    ensures k < |bs| ==> bs[k].free && SizeOf(bs, brk, k) >= s
    ensures forall i :: from <= i < k ==> !(bs[i].free && SizeOf(bs, brk, i) >= s)
    decreases |bs| - from
  {
    if from == |bs| || (bs[from].free && SizeOf(bs, brk, from) >= s) then from else FirstFit(bs, brk, s, from + 1)
  }

  // The blocks, and where the last one ends by its header.
  datatype List = List(bs: seq<Block>, end: nat)

  // Cuts block k down to s bytes if the rest makes a block with at least four bytes of data.
  function Trim(l: List, k: nat, s: nat): List
    requires k < |l.bs|
  {
    if SizeOf(l.bs, l.end, k) - s >= HEADER + 4 then l.(bs := Cut(l.bs, k, l.bs[k].at + HEADER + s)) else l
  }

  function Malloc(l: List, s: nat): List {
    var k := FirstFit(l.bs, l.end, s, 0);
    if k < |l.bs| then
      var t := Trim(l, k, s);
      t.(bs := Mark(t.bs, k, false))
    else List(l.bs + [Block(l.end, false)], l.end + HEADER + s)
  }

  // The first half of free: mark the block, merge it into a free predecessor, and say where it ends up.
  function Back(bs: seq<Block>, k: nat): (seq<Block>, nat)
    requires k < |bs|
  {
    var marked := Mark(bs, k, true);
    if k > 0 && marked[k - 1].free then (Merge(marked, k - 1), k - 1) else (marked, k)
  }

  function Free(l: List, k: nat): List
    requires k < |l.bs|
  {
    var (back, j) := Back(l.bs, k);
    if j + 1 < |back| then
      if back[j + 1].free then l.(bs := Merge(back, j)) else l.(bs := back)
    else List(back[..j], back[j].at)
  }

  // In runs of malloc and free alone, free neighbours never remain and the last block is in use.
  lemma MallocCoalesced(l: List, s: nat)
    requires Coalesced(l.bs)
    ensures Coalesced(Malloc(l, s).bs)
  {
    var k, l' := FirstFit(l.bs, l.end, s, 0), Malloc(l, s);
    if k < |l.bs| { assert Apart(l.bs, k); }
    forall i | 0 <= i < |l'.bs| ensures Apart(l'.bs, i) {
      if i < k {
        assert Apart(l.bs, i);
      } else if i > k && |l'.bs| > |l.bs| && k < |l.bs| {
        assert Apart(l.bs, i - 1);
      } else if i < |l.bs| {
        assert Apart(l.bs, i);
      }
    }
  }

  lemma BackApart(bs: seq<Block>, k: nat)
    requires Coalesced(bs) && k < |bs| && !bs[k].free
    ensures var (back, j) := Back(bs, k);
            j < |back| && back[j].free && forall i :: 0 <= i < |back| && i != j ==> Apart(back, i)
  {
    var (back, j) := Back(bs, k);
    if k > 1 { assert Apart(bs, k - 2); }
    forall i | 0 <= i < |back| && i != j ensures Apart(back, i) {
      assert Apart(bs, if i < j || j == k then i else i + 1);
    }
  }

  lemma FreeCoalesced(l: List, k: nat)
    requires Coalesced(l.bs) && k < |l.bs| && !l.bs[k].free
    ensures Coalesced(Free(l, k).bs)
  {
    var (back, j) := Back(l.bs, k);
    BackApart(l.bs, k);
    var bs' := Free(l, k).bs;
    if j + 1 < |back| && back[j + 1].free { assert Apart(back, j + 1); }
    forall i | 0 <= i < |bs'| ensures Apart(bs', i) {
      if i < j {
        assert Apart(back, i);
      } else if i > j {
        assert Apart(back, if |bs'| < |back| then i + 1 else i);
      }
    }
  }

  // ----- The blocks that clients hold -----

  // First and one-past-last address, header included, of each used block other than the one at address a.
  ghost function Others(l: List, a: nat): set<(nat, nat)> {
    set k | 0 <= k < |l.bs| && !l.bs[k].free && l.bs[k].at != a :: (l.bs[k].at, EndOf(l.bs, l.end, k))
  }

  // Both lists hold the same used blocks, that at a aside.
  ghost predicate KeepsOthers(l: List, l': List, a: nat) {
    Others(l', a) == Others(l, a)
  }

  ghost predicate IsOther(l: List, a: nat, k: nat, x: (nat, nat)) {
    k < |l.bs| && !l.bs[k].free && l.bs[k].at != a && x == (l.bs[k].at, EndOf(l.bs, l.end, k))
  }

  // Two lists hold the same other blocks if each one's are found in the other list.
  lemma SameOthers(l: List, l': List, a: nat)
    requires forall k: nat, x :: IsOther(l, a, k, x) ==> x in Others(l', a)
    requires forall k: nat, x :: IsOther(l', a, k, x) ==> x in Others(l, a)
    ensures Others(l, a) == Others(l', a)
  {
    forall x ensures x in Others(l, a) <==> x in Others(l', a) {
      if k :| 0 <= k < |l.bs| && !l.bs[k].free && l.bs[k].at != a && x == (l.bs[k].at, EndOf(l.bs, l.end, k)) {
        assert IsOther(l, a, k, x);
      }
      if k :| 0 <= k < |l'.bs| && !l'.bs[k].free && l'.bs[k].at != a && x == (l'.bs[k].at, EndOf(l'.bs, l'.end, k)) {
        assert IsOther(l', a, k, x);
      }
    }
  }

  // Two blocks never overlap.
  lemma OthersApart(l: List, start: nat, k: nat, x: (nat, nat))
    requires Tiling(l.bs, start, l.end) && k < |l.bs| && x in Others(l, l.bs[k].at)
    ensures x.1 <= l.bs[k].at || EndOf(l.bs, l.end, k) <= x.0
    ensures start <= x.0 && x.0 + HEADER <= x.1 <= l.end
  {
    var i :| 0 <= i < |l.bs| && !l.bs[i].free && l.bs[i].at != l.bs[k].at && x == (l.bs[i].at, EndOf(l.bs, l.end, i));
    EndsAt(l.bs, start, l.end, i);
    StartsAt(l.bs, start, l.end, i);
    Ascending(l.bs, start, l.end, if i < k then i else k, if i < k then k else i);
  }

  lemma OthersCut(l: List, k: nat, cut: nat)
    requires k < |l.bs|
    ensures Others(l.(bs := Cut(l.bs, k, cut)), l.bs[k].at) == Others(l, l.bs[k].at)
  {
    var a, l' := l.bs[k].at, l.(bs := Cut(l.bs, k, cut));
    forall i: nat, x | IsOther(l, a, i, x) ensures x in Others(l', a) {
      assert IsOther(l', a, if i <= k then i else i + 1, x);
    }
    forall i: nat, x | IsOther(l', a, i, x) ensures x in Others(l, a) {
      assert IsOther(l, a, if i <= k then i else i - 1, x);
    }
    SameOthers(l, l', a);
  }

  lemma OthersMark(l: List, k: nat, free: bool)
    requires k < |l.bs|
    ensures Others(l.(bs := Mark(l.bs, k, free)), l.bs[k].at) == Others(l, l.bs[k].at)
  {
    var a, l' := l.bs[k].at, l.(bs := Mark(l.bs, k, free));
    forall i: nat, x | IsOther(l, a, i, x) ensures x in Others(l', a) { assert IsOther(l', a, i, x); }
    forall i: nat, x | IsOther(l', a, i, x) ensures x in Others(l, a) { assert IsOther(l, a, i, x); }
    SameOthers(l, l', a);
  }

  // Merging a free block into its predecessor, which is free too or is the block at a.
  lemma OthersMerge(l: List, k: nat, a: nat)
    requires k + 1 < |l.bs| && l.bs[k + 1].free && (l.bs[k].free || l.bs[k].at == a)
    ensures Others(l.(bs := Merge(l.bs, k)), a) == Others(l, a)
  {
    var l' := l.(bs := Merge(l.bs, k));
    forall i: nat, x | IsOther(l, a, i, x) ensures x in Others(l', a) {
      assert IsOther(l', a, if i <= k then i else i - 1, x);
    }
    forall i: nat, x | IsOther(l', a, i, x) ensures x in Others(l, a) {
      assert IsOther(l, a, if i <= k then i else i + 1, x);
    }
    SameOthers(l, l', a);
  }

  lemma OthersAppend(l: List, s: nat)
    ensures Others(List(l.bs + [Block(l.end, false)], l.end + HEADER + s), l.end) == Others(l, l.end)
  {
    var a, l' := l.end, List(l.bs + [Block(l.end, false)], l.end + HEADER + s);
    forall i: nat, x | IsOther(l, a, i, x) ensures x in Others(l', a) { assert IsOther(l', a, i, x); }
    forall i: nat, x | IsOther(l', a, i, x) ensures x in Others(l, a) { assert IsOther(l, a, i, x); }
    SameOthers(l, l', a);
  }

  lemma OthersDrop(l: List, a: nat)
    requires l.bs != [] && l.bs[|l.bs| - 1].free
    ensures Others(List(l.bs[..|l.bs| - 1], l.bs[|l.bs| - 1].at), a) == Others(l, a)
  {
    var l' := List(l.bs[..|l.bs| - 1], l.bs[|l.bs| - 1].at);
    forall i: nat, x | IsOther(l, a, i, x) ensures x in Others(l', a) { assert IsOther(l', a, i, x); }
    forall i: nat, x | IsOther(l', a, i, x) ensures x in Others(l, a) { assert IsOther(l, a, i, x); }
    SameOthers(l, l', a);
  }

  function MallocAt(l: List, s: nat): nat {
    var k := FirstFit(l.bs, l.end, s, 0);
    if k < |l.bs| then l.bs[k].at else l.end
  }

  // malloc leaves every other block in use where it is.
  lemma MallocOthers(l: List, s: nat)
    ensures KeepsOthers(l, Malloc(l, s), MallocAt(l, s))
  {
    var k := FirstFit(l.bs, l.end, s, 0);
    if k < |l.bs| {
      var t := Trim(l, k, s);
      if t != l { OthersCut(l, k, l.bs[k].at + HEADER + s); }
      OthersMark(t, k, false);
    } else {
      OthersAppend(l, s);
    }
  }

  // So does free.
  lemma FreeOthers(l: List, k: nat)
    requires k < |l.bs|
    ensures KeepsOthers(l, Free(l, k), l.bs[k].at)
  {
    var a := l.bs[k].at;
    var (back, j) := Back(l.bs, k);
    OthersMark(l, k, true);
    if j != k { OthersMerge(l.(bs := Mark(l.bs, k, true)), k - 1, a); }
    if j + 1 < |back| {
      if back[j + 1].free { OthersMerge(l.(bs := back), j, a); }
    } else {
      OthersDrop(l.(bs := back), a);
    }
  }

  // Where block k is in the list after malloc.
  function KeptAt(l: List, s: nat, k: nat): nat {
    var f := FirstFit(l.bs, l.end, s, 0);
    if f < |l.bs| && |Malloc(l, s).bs| > |l.bs| && f < k then k + 1 else k
  }

  // Where the new block is.
  function NewAt(l: List, s: nat): nat {
    FirstFit(l.bs, l.end, s, 0)
  }

  lemma AfterMalloc(l: List, s: nat, k: nat)
    requires k < |l.bs| && !l.bs[k].free
    ensures var l', k', n := Malloc(l, s), KeptAt(l, s, k), NewAt(l, s);
            && k' < |l'.bs| && l'.bs[k'] == l.bs[k] && EndOf(l'.bs, l'.end, k') == EndOf(l.bs, l.end, k)
            && n < |l'.bs| && n != k' && l'.bs[n] == Block(MallocAt(l, s), false) && SizeOf(l'.bs, l'.end, n) >= s
  {
  }

  lemma MallocTiling(l: List, start: nat, s: nat)
    requires Tiling(l.bs, start, l.end)
    ensures forall k :: 0 <= k < |l.bs| && !l.bs[k].free ==> l.bs[k].at != MallocAt(l, s)
  {
    var f := FirstFit(l.bs, l.end, s, 0);
    forall k | 0 <= k < |l.bs| && !l.bs[k].free ensures l.bs[k].at != MallocAt(l, s) {
      if f < |l.bs| {
        Ascending(l.bs, start, l.end, if f < k then f else k, if f < k then k else f);
      } else {
        EndsAt(l.bs, start, l.end, k);
      }
    }
  }

  // The used blocks other than those at a and b.
  ghost function Bystanders(l: List, a: nat, b: nat): set<(nat, nat)> {
    set x | x in Others(l, a) && x.0 != b
  }

  lemma BystandersSame(l: List, l1: List, l2: List, a: nat, b: nat)
    requires KeepsOthers(l, l1, b) && KeepsOthers(l1, l2, a)
    ensures Bystanders(l2, a, b) == Bystanders(l, a, b)
  {
    forall x ensures x in Bystanders(l2, a, b) <==> x in Bystanders(l, a, b) {
      SwapOthers(l, a, b, x);
      SwapOthers(l1, a, b, x);
      SwapOthers(l2, a, b, x);
    }
  }

  lemma SwapOthers(l: List, a: nat, b: nat, x: (nat, nat))
    ensures x in Others(l, a) && x.0 != b <==> x in Others(l, b) && x.0 != a
  {
  }

  // ----- realloc on the list -----

  // Block k has s bytes, or gets them with its free successor.
  predicate FitsInPlace(l: List, k: nat, s: nat)
    requires k < |l.bs|
  {
    || SizeOf(l.bs, l.end, k) >= s
    || (k + 1 < |l.bs| && l.bs[k + 1].free && SizeOf(l.bs, l.end, k) + HEADER + SizeOf(l.bs, l.end, k + 1) >= s)
  }

  // The first two cases of realloc.
  function InPlace(l: List, k: nat, s: nat): List
    requires k < |l.bs| && FitsInPlace(l, k, s)
  {
    if SizeOf(l.bs, l.end, k) >= s then Trim(l, k, s) else Trim(l.(bs := Merge(l.bs, k)), k, s)
  }

  // ----- The list that the headers make -----

  // Following the links of two lists over the same headers leads to the same blocks.
  lemma {:induction false} SameBlocks(hdr: map<nat, Header>, start: nat, bs: seq<Block>, end: nat, bs': seq<Block>,
                                      end': nat, k: nat)
    requires Tiling(bs, start, end) && Linked(hdr, bs, end) && Tiling(bs', start, end') && Linked(hdr, bs', end')
    requires k < |bs| && k < |bs'|
    ensures bs[k].at == bs'[k].at
  {
    if k > 0 {
      SameBlocks(hdr, start, bs, end, bs', end', k - 1);
      assert LinkedAt(hdr, bs, end, k - 1) && LinkedAt(hdr, bs', end', k - 1);
    }
  }

  lemma NoLonger(hdr: map<nat, Header>, start: nat, bs: seq<Block>, end: nat, bs': seq<Block>, end': nat)
    requires Tiling(bs, start, end) && Linked(hdr, bs, end) && Tiling(bs', start, end') && Linked(hdr, bs', end')
    requires bs != []
    ensures |bs'| <= |bs|
  {
    var n := |bs| - 1;
    assert LinkedAt(hdr, bs, end, n);
    assert n < |bs'| ==> LinkedAt(hdr, bs', end', n);
    if |bs'| > n + 1 {
      StartsAt(bs', start, end', n + 1);
      SameBlocks(hdr, start, bs, end, bs', end', n);
    }
  }

  // The headers decide where the list ends.
  lemma SameEnd(hdr: map<nat, Header>, start: nat, bs: seq<Block>, end: nat, bs': seq<Block>, end': nat)
    requires Tiling(bs, start, end) && Linked(hdr, bs, end) && Tiling(bs', start, end') && Linked(hdr, bs', end')
    requires bs != [] && bs' != []
    ensures end == end'
  {
    NoLonger(hdr, start, bs, end, bs', end');
    NoLonger(hdr, start, bs', end', bs, end);
    var n := |bs| - 1;
    SameBlocks(hdr, start, bs, end, bs', end', n);
    assert LinkedAt(hdr, bs, end, n) && LinkedAt(hdr, bs', end', n);
  }

  // The block reached from b by n links; 0 behind the last one.
  function Follow(hdr: map<nat, Header>, b: nat, n: nat): nat
    decreases n
  {
    if n == 0 || b !in hdr then b else Follow(hdr, hdr[b].next, n - 1)
  }
}
