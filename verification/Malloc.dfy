/**
  malloc, free and realloc of lib/malloc.c, with find_block, split_block, extend_heap, valid_addr, fusion and copy_block,
  and sbrk of lib/sbrk.c.

  Headers are kept in a map from address to header, the bytes of the heap in a sequence indexed by address; writing a
  new header destroys the bytes under it. How many pages can still be mapped is an argument of the calls that may grow
  the heap.
 */
module MallocHeap {
  import opened MallocList
  import opened MallocRuns

  // ----- Pages of the heap -----

  const PGSIZE: nat := 4096
  const E_INVAL: int := 3
  const E_NO_MEM: int := 4

  // The number of the page that begins at a, or of the next one.
  function PageUp(a: nat): nat {
    (a + PGSIZE - 1) / PGSIZE
  }

  predicate Within(from: nat, to: nat, p: nat) {
    from <= p < to
  }

  function Pages(from: nat, to: nat): set<nat> {
    set p | from <= p < to && Within(from, to, p)
  }

  // The n bytes at a are mapped.
  predicate Reachable(mapped: set<nat>, a: nat, n: nat) {
    n > 0 ==> forall p :: a / PGSIZE <= p <= (a + n - 1) / PGSIZE ==> p in mapped
  }

  // Pages are mapped within the limit, and up to the break.
  ghost predicate Backed(mapped: set<nat>, start: nat, brk: nat, limit: nat) {
    && start % PGSIZE == 0 && limit % PGSIZE == 0 && start <= brk <= limit
    && (forall p :: p in mapped ==> p < limit / PGSIZE)
    && (forall p :: start / PGSIZE <= p < PageUp(brk) ==> p in mapped)
  }

  // So is the header of a last block at the break.
  ghost predicate PagesRight(mapped: set<nat>, start: nat, brk: nat, top: nat, limit: nat) {
    Backed(mapped, start, brk, limit) && (top != brk ==> Reachable(mapped, brk, HEADER))
  }

  lemma ReachableInside(mapped: set<nat>, start: nat, brk: nat, limit: nat, a: nat, n: nat)
    requires Backed(mapped, start, brk, limit) && Reachable(mapped, a, n) && n > 0
    ensures a + n <= limit
  {
    assert (a + n - 1) / PGSIZE in mapped;
  }

  lemma BelowIsReachable(mapped: set<nat>, start: nat, brk: nat, limit: nat, a: nat, n: nat)
    requires Backed(mapped, start, brk, limit) && start <= a && a + n <= brk
    ensures Reachable(mapped, a, n)
  {
  }

  lemma ReachableJoin(mapped: set<nat>, a: nat, n: nat, c: nat)
    requires n > 0
    ensures Reachable(mapped, a, n + c) <==> Reachable(mapped, a, n) && Reachable(mapped, a + n, c)
  {
  }

  // sbrk moves the break up by n: there is room, and pages enough.
  predicate Moving(brk: nat, limit: nat, n: nat, supply: nat) {
    brk + n <= limit && PageUp(brk + n) - PageUp(brk) <= supply
  }

  // The pages mapped after sbrk has tried; those that it has mapped before a failure stay.
  function MappedAfter(mapped: set<nat>, brk: nat, limit: nat, n: nat, supply: nat): set<nat> {
    if brk + n > limit then mapped
    else mapped + Pages(PageUp(brk), if Moving(brk, limit, n, supply) then PageUp(brk + n) else PageUp(brk) + supply)
  }

  // ----- Bytes of the heap -----

  // The bytes after a header has been written at `at`.
  function Stamp(mem: seq<int>, at: nat): (mem': seq<int>)
    requires at + HEADER <= |mem|
    ensures |mem'| == |mem| && mem'[..at] == mem[..at] && mem'[at + HEADER..] == mem[at + HEADER..]
  {
    mem[..at] + seq(HEADER, i => 0) + mem[at + HEADER..]
  }

  // The bytes of the listed blocks are the same in both memories.
  ghost predicate SameBytes(mem: seq<int>, mem': seq<int>, spans: set<(nat, nat)>) {
    |mem| == |mem'| && forall x :: SameSpan(mem, mem', spans, x)
  }

  ghost predicate SameSpan(mem: seq<int>, mem': seq<int>, spans: set<(nat, nat)>, x: (nat, nat))
    requires |mem| == |mem'|
  {
    x in spans && x.0 + HEADER <= x.1 <= |mem| ==> mem'[x.0 + HEADER..x.1] == mem[x.0 + HEADER..x.1]
  }

  lemma SameBytesThrough(m0: seq<int>, m1: seq<int>, m2: seq<int>, spans: set<(nat, nat)>)
    requires SameBytes(m0, m1, spans) && SameBytes(m1, m2, spans)
    ensures SameBytes(m0, m2, spans)
  {
    forall x ensures SameSpan(m0, m2, spans, x) { assert SameSpan(m0, m1, spans, x) && SameSpan(m1, m2, spans, x); }
  }

  lemma SameBytesOfSome(m0: seq<int>, m1: seq<int>, spans: set<(nat, nat)>, some: set<(nat, nat)>)
    requires SameBytes(m0, m1, spans) && some <= spans
    ensures SameBytes(m0, m1, some)
  {
    forall x ensures SameSpan(m0, m1, some, x) { assert SameSpan(m0, m1, spans, x); }
  }

  lemma SameMemory(mem: seq<int>, spans: set<(nat, nat)>)
    ensures SameBytes(mem, mem, spans)
  {
    forall x ensures SameSpan(mem, mem, spans, x) {}
  }

  lemma StampApart(mem: seq<int>, at: nat, lo: nat, hi: nat)
    requires at + HEADER <= |mem| && lo <= hi <= |mem| && (hi <= at || at + HEADER <= lo)
    ensures Stamp(mem, at)[lo..hi] == mem[lo..hi]
  {
  }

  // A header written inside block k harms no other block.
  lemma StampInside(l: List, start: nat, mem: seq<int>, k: nat, at: nat)
    requires Tiling(l.bs, start, l.end) && k < |l.bs|
    requires l.bs[k].at <= at && at + HEADER <= EndOf(l.bs, l.end, k) <= |mem|
    ensures SameBytes(mem, Stamp(mem, at), Others(l, l.bs[k].at))
  {
    var mem', spans := Stamp(mem, at), Others(l, l.bs[k].at);
    forall x: (nat, nat) ensures SameSpan(mem, mem', spans, x) {
      if x in spans && x.0 + HEADER <= x.1 <= |mem| {
        OthersApart(l, start, k, x);
        StampApart(mem, at, x.0 + HEADER, x.1);
      }
    }
  }

  // Nor does one written at the break.
  lemma StampOutside(l: List, start: nat, mem: seq<int>, at: nat)
    requires Tiling(l.bs, start, l.end) && at == l.end && at + HEADER <= |mem|
    ensures SameBytes(mem, Stamp(mem, at), Others(l, at))
  {
    var mem', spans := Stamp(mem, at), Others(l, at);
    forall x: (nat, nat) ensures SameSpan(mem, mem', spans, x) {
      if x in spans && x.0 + HEADER <= x.1 <= |mem| {
        var i :| 0 <= i < |l.bs| && !l.bs[i].free && l.bs[i].at != at && x == (l.bs[i].at, EndOf(l.bs, l.end, i));
        EndsAt(l.bs, start, l.end, i);
        StampApart(mem, at, x.0 + HEADER, x.1);
      }
    }
  }

  // mem' is mem after its first c bytes at src have been copied to dst.
  ghost predicate Copied(mem: seq<int>, mem': seq<int>, src: nat, dst: nat, c: nat) {
    && |mem'| == |mem| && src + c <= |mem| && dst + c <= |mem|
    && forall i: nat :: CopiedAt(mem, mem', src, dst, c, i)
  }

  ghost predicate CopiedAt(mem: seq<int>, mem': seq<int>, src: nat, dst: nat, c: nat, i: nat)
    requires |mem'| == |mem| && src + c <= |mem| && dst + c <= |mem|
  {
    i < |mem| ==> mem'[i] == if dst <= i < dst + c then mem[src + (i - dst)] else mem[i]
  }

  lemma NothingCopied(mem: seq<int>, src: nat, dst: nat)
    requires src <= |mem| && dst <= |mem|
    ensures Copied(mem, mem, src, dst, 0)
  {
    forall i: nat ensures CopiedAt(mem, mem, src, dst, 0, i) {}
  }

  // The word at src + c is copied to dst + c.
  function WordCopied(mem: seq<int>, src: nat, dst: nat, c: nat): seq<int>
    requires src + c + 4 <= |mem| && dst + c + 4 <= |mem|
  {
    mem[..dst + c] + mem[src + c..src + c + 4] + mem[dst + c + 4..]
  }

  lemma CopyWord(mem: seq<int>, part: seq<int>, src: nat, dst: nat, c: nat, d: nat, n: nat, m: nat)
    requires src + n <= |mem| && dst + m <= |mem| && (src + n <= dst || dst + m <= src)
    requires d == c + 4 && d <= n && d <= m && Copied(mem, part, src, dst, c)
    ensures Copied(mem, WordCopied(part, src, dst, c), src, dst, d)
  {
    var next := WordCopied(part, src, dst, c);
    forall i: nat ensures CopiedAt(mem, next, src, dst, d, i) {
      assert CopiedAt(mem, part, src, dst, c, i);
      if dst + c <= i < dst + d {
        assert CopiedAt(mem, part, src, dst, c, src + (i - dst));
        assert next[i] == part[src + (i - dst)];
      }
    }
  }

  lemma NextWord(c: nat, n: nat)
    requires c % 4 == 0 && n % 4 == 0 && c < n
    ensures c + 4 <= n
  {
  }

  function Smaller(a: int, b: int): int {
    if a < b then a else b
  }

  // The n bytes at a in mem are the n bytes at b in mem'.
  ghost predicate SameSlice(mem: seq<int>, a: nat, mem': seq<int>, b: nat, n: int) {
    0 <= n && a + n <= |mem| && b + n <= |mem'| && forall i: nat :: SameByte(mem, a, mem', b, n, i)
  }

  ghost predicate SameByte(mem: seq<int>, a: nat, mem': seq<int>, b: nat, n: int, i: nat)
    requires a + n <= |mem| && b + n <= |mem'|
  {
    i < n ==> mem[a + i] == mem'[b + i]
  }

  lemma SlicesAre(mem: seq<int>, a: nat, mem': seq<int>, b: nat, n: int)
    requires 0 <= n && a + n <= |mem| && b + n <= |mem'| && mem[a..a + n] == mem'[b..b + n]
    ensures SameSlice(mem, a, mem', b, n)
  {
    forall i: nat ensures SameByte(mem, a, mem', b, n, i) {
      if i < n { assert mem[a..a + n][i] == mem'[b..b + n][i]; }
    }
  }

  lemma SpanIsSlice(mem: seq<int>, mem': seq<int>, spans: set<(nat, nat)>, x: (nat, nat))
    requires SameBytes(mem, mem', spans) && x in spans && x.0 + HEADER <= x.1 <= |mem|
    ensures SameSlice(mem, x.0 + HEADER, mem', x.0 + HEADER, x.1 - x.0 - HEADER)
  {
    assert SameSpan(mem, mem', spans, x);
    SlicesAre(mem, x.0 + HEADER, mem', x.0 + HEADER, x.1 - x.0 - HEADER);
  }

  lemma SlicePrefix(mem: seq<int>, a: nat, mem': seq<int>, b: nat, n: int, m: int)
    requires SameSlice(mem, a, mem', b, n) && 0 <= m <= n
    ensures SameSlice(mem, a, mem', b, m)
  {
    forall i: nat ensures SameByte(mem, a, mem', b, m, i) { assert SameByte(mem, a, mem', b, n, i); }
  }

  lemma SliceThrough(m0: seq<int>, a: nat, m1: seq<int>, b: nat, m2: seq<int>, c: nat, n: int, m: int, s: int)
    requires SameSlice(m0, a, m1, b, n) && SameSlice(m1, b, m2, c, Smaller(n, m)) && 0 <= s <= m
    ensures SameSlice(m0, a, m2, c, Smaller(n, s))
  {
    var k, j := Smaller(n, s), Smaller(n, m);
    forall i: nat ensures SameByte(m0, a, m2, c, k, i) {
      assert SameByte(m0, a, m1, b, n, i) && SameByte(m1, b, m2, c, j, i);
    }
  }

  lemma SizeAligned(bs: seq<Block>, start: nat, brk: nat, k: nat)
    requires Tiling(bs, start, brk) && k < |bs|
    ensures SizeOf(bs, brk, k) % 4 == 0
  {
    assert Sized(bs, brk, k);
    if k + 1 < |bs| { assert Sized(bs, brk, k + 1); }
  }

  lemma CopyRanges(bs: seq<Block>, start: nat, brk: nat, k: nat, j: nat)
    requires Tiling(bs, start, brk) && k < |bs| && j < |bs| && k != j
    ensures SizeOf(bs, brk, k) % 4 == 0 && SizeOf(bs, brk, j) % 4 == 0
    ensures 0 <= SizeOf(bs, brk, k) && 0 <= SizeOf(bs, brk, j)
    ensures EndOf(bs, brk, k) <= bs[j].at || EndOf(bs, brk, j) <= bs[k].at
  {
    SizeAligned(bs, start, brk, k);
    SizeAligned(bs, start, brk, j);
    EndsAt(bs, start, brk, k);
    EndsAt(bs, start, brk, j);
    Ascending(bs, start, brk, if k < j then k else j, if k < j then j else k);
  }

  lemma CopyHurtsNoOther(l: List, start: nat, mem: seq<int>, mem': seq<int>, j: nat, src: nat, c: nat)
    requires Tiling(l.bs, start, l.end) && j < |l.bs| && c <= SizeOf(l.bs, l.end, j)
    requires Copied(mem, mem', src, l.bs[j].at + HEADER, c)
    ensures SameBytes(mem, mem', Others(l, l.bs[j].at)) && SameSlice(mem, src, mem', l.bs[j].at + HEADER, c)
  {
    var dst := l.bs[j].at + HEADER;
    var spans := Others(l, l.bs[j].at);
    forall x: (nat, nat) ensures SameSpan(mem, mem', spans, x) {
      if x in spans && x.0 + HEADER <= x.1 <= |mem| {
        OthersApart(l, start, j, x);
        forall i | x.0 + HEADER <= i < x.1 ensures mem'[i] == mem[i] { assert CopiedAt(mem, mem', src, dst, c, i); }
      }
    }
    forall i: nat ensures SameByte(mem, src, mem', dst, c, i) {
      if i < c { assert CopiedAt(mem, mem', src, dst, c, dst + i); }
    }
  }

  lemma BystandersAreOthers(l: List, a: nat, b: nat)
    ensures Bystanders(l, a, b) <= Others(l, b)
  {
    forall x | x in Bystanders(l, a, b) ensures x in Others(l, b) { SwapOthers(l, a, b, x); }
  }

  lemma BystandersKept(l: List, l1: List, l2: List, m: seq<int>, m': seq<int>, a: nat, b: nat)
    requires KeepsOthers(l, l1, b) && KeepsOthers(l1, l2, a) && SameBytes(m, m', Others(l, b))
    ensures SameBystanders(l, l2, a, b) && SameBytes(m, m', Bystanders(l, a, b))
  {
    BystandersSame(l, l1, l2, a, b);
    forall x ensures BystanderKept(l, l2, a, b, x) {}
    BystandersAreOthers(l, a, b);
    SameBytesOfSome(m, m', Others(l, b), Bystanders(l, a, b));
  }

  lemma BystandersInPlace(l: List, l': List, m: seq<int>, m': seq<int>, a: nat)
    requires Others(l', a) == Others(l, a) && SameBytes(m, m', Others(l, a))
    ensures SameBystanders(l, l', a, a) && SameBytes(m, m', Bystanders(l, a, a))
  {
    forall x ensures BystanderKept(l, l', a, a, x) {}
    SameBytesOfSome(m, m', Others(l, a), Bystanders(l, a, a));
  }

  // Both lists have the same blocks in use, those at a and b aside.
  ghost predicate SameBystanders(l: List, l': List, a: nat, b: nat) {
    forall x :: BystanderKept(l, l', a, b, x)
  }

  ghost predicate BystanderKept(l: List, l': List, a: nat, b: nat, x: (nat, nat)) {
    x in Bystanders(l', a, b) <==> x in Bystanders(l, a, b)
  }

  lemma TrimOthers(l: List, k: nat, s: nat)
    requires k < |l.bs|
    ensures Others(Trim(l, k, s), l.bs[k].at) == Others(l, l.bs[k].at)
  {
    OthersCut(l, k, l.bs[k].at + HEADER + s);
  }

  // A block below the break ends at or below it.
  lemma EndsBelow(h: MallocRuns.Heap, start: nat, k: nat)
    requires Inv(h, start) && h.Live? && k < |h.l.bs| && Below(h, k)
    ensures EndOf(h.l.bs, h.l.end, k) <= h.brk
  {
    EndsAt(h.l.bs, start, h.l.end, k);
    if k + 1 < |h.l.bs| { Ascending(h.l.bs, start, h.l.end, k + 1, |h.l.bs| - 1); }
  }

  // So does a free one.
  lemma FreeEndsBelow(h: MallocRuns.Heap, start: nat, k: nat)
    requires Inv(h, start) && h.Live? && k < |h.l.bs| && h.l.bs[k].free
    ensures EndOf(h.l.bs, h.l.end, k) <= h.brk
  {
    EndsAt(h.l.bs, start, h.l.end, k);
    if k + 1 < |h.l.bs| { Ascending(h.l.bs, start, h.l.end, k + 1, |h.l.bs| - 1); }
  }

  ghost function BaseOf(bs: seq<Block>, start: nat): nat {
    if bs == [] then 0 else start
  }

  // The headers from base on are a list that tiles the heap up to the break.
  ghost predicate Tiles(hdr: map<nat, Header>, base: nat, start: nat, brk: nat) {
    exists bs :: TiledBy(hdr, base, start, brk, bs)
  }

  ghost predicate TiledBy(hdr: map<nat, Header>, base: nat, start: nat, brk: nat, bs: seq<Block>) {
    Tiling(bs, start, brk) && Linked(hdr, bs, brk) && base == BaseOf(bs, start)
  }

  // A list that goes on behind the break is no tiling.
  lemma TilesIff(hdr: map<nat, Header>, base: nat, start: nat, brk: nat, bs: seq<Block>, end: nat)
    requires Tiling(bs, start, end) && Linked(hdr, bs, end) && base == BaseOf(bs, start) && (bs == [] ==> end == brk)
    ensures Tiles(hdr, base, start, brk) <==> end == brk
  {
    if end == brk { assert TiledBy(hdr, base, start, brk, bs); }
    if bs' :| TiledBy(hdr, base, start, brk, bs') {
      if bs != [] { SameEnd(hdr, start, bs, end, bs', brk); }
    }
  }

  // Links that lead from each block to the next, and from the last one to itself.
  ghost predicate RingAt(hdr: map<nat, Header>, bs: seq<Block>, k: nat) {
    k < |bs| && bs[k].at in hdr && bs[k].at != 0 && hdr[bs[k].at].next == bs[if k + 1 < |bs| then k + 1 else k].at
  }

  // Following them never ends.
  lemma {:induction false} RingNeverEnds(hdr: map<nat, Header>, bs: seq<Block>, k: nat, n: nat)
    requires (forall i: nat :: i < |bs| ==> RingAt(hdr, bs, i)) && k < |bs|
    ensures Follow(hdr, bs[k].at, n) != 0
    decreases n
  {
    assert RingAt(hdr, bs, k);
    if n > 0 { RingNeverEnds(hdr, bs, if k + 1 < |bs| then k + 1 else k, n - 1); }
  }

  // extend_heap at a break at which the last block lies already
  lemma ExtendedTwice(hdr: map<nat, Header>, bs: seq<Block>, start: nat, end: nat, brk: nat, s: nat, n: nat)
    requires Tiling(bs, start, end) && Linked(hdr, bs, end) && bs != [] && bs[|bs| - 1].at == brk
    ensures Follow(AppendHeaders(hdr[brk := Header(s, brk, 0, false, brk + HEADER)], brk, brk, s), start, n) != 0
  {
    var hdr' := AppendHeaders(hdr[brk := Header(s, brk, 0, false, brk + HEADER)], brk, brk, s);
    forall i: nat | i < |bs| ensures RingAt(hdr', bs, i) {
      assert LinkedAt(hdr, bs, end, i);
      Ascending(bs, start, end, i, |bs| - 1);
    }
    RingNeverEnds(hdr', bs, 0, n);
  }

  // Whether c bytes of the new block can be written, seen before malloc and after it.
  lemma CopyOk(h: MallocRuns.Heap, start: nat, pages: set<nat>, mapped: set<nat>, limit: nat, s: nat, supply: nat, c: nat,
               brk: nat)
    requires Inv(h, start) && h.Live? && Backed(mapped, start, brk, limit) && c <= s
    requires Fits(h.l, s) ==> brk == h.brk
    requires !Fits(h.l, s) ==> mapped == MappedAfter(pages, h.brk, limit, HEADER + s, supply) && h.l.end == h.brk
    requires !Fits(h.l, s) && Moving(h.brk, limit, HEADER + s, supply) ==> brk == h.brk + HEADER + s
    requires !Fits(h.l, s) && !Moving(h.brk, limit, HEADER + s, supply) ==> Reachable(mapped, h.brk, HEADER)
    ensures Reachable(mapped, MallocAt(h.l, s) + HEADER, c) <==>
            Fits(h.l, s) || Moving(h.brk, limit, HEADER + s, supply) || Reachable(mapped, h.brk, HEADER + c)
  {
    var f := FirstFit(h.l.bs, h.l.end, s, 0);
    if Fits(h.l, s) {
      FreeEndsBelow(h, start, f);
      StartsAt(h.l.bs, start, h.l.end, f);
      BelowIsReachable(mapped, start, brk, limit, h.l.bs[f].at + HEADER, c);
    } else if Moving(h.brk, limit, HEADER + s, supply) {
      if h.l.bs != [] { Ascending(h.l.bs, start, h.l.end, 0, 0); }
      BelowIsReachable(mapped, start, brk, limit, h.brk + HEADER, c);
    } else {
      ReachableJoin(mapped, h.brk, HEADER, c);
    }
  }

  // Whether the heap lives on after the copy, given what sbrk did (u) and whether the copy could be written (u').
  lemma CopyDecides(h: MallocRuns.Heap, start: nat, pages: set<nat>, mapped: set<nat>, limit: nat, s: nat, supply: nat,
                    c: nat, brk: nat, u: Supply, u': Supply)
    requires Inv(h, start) && h.Live? && Backed(mapped, start, brk, limit) && c <= s
    requires Allocate(h, s, u).Live? && Allocate(h, s, u).brk == brk
    requires !Fits(h.l, s) ==> mapped == MappedAfter(pages, h.brk, limit, HEADER + s, supply)
    requires u == Moves <==> Moving(h.brk, limit, HEADER + s, supply)
    requires !Fits(h.l, s) && u != Moves ==> Reachable(mapped, h.brk, HEADER)
    requires var after := MappedAfter(pages, h.brk, limit, HEADER + s, supply);
             u' == if u == Stays && !Reachable(after, h.brk, HEADER + c) then Faults else u
    ensures Reachable(mapped, MallocAt(h.l, s) + HEADER, c) <==> Allocate(h, s, u').Live?
    ensures Allocate(h, s, u').Live? ==> Allocate(h, s, u') == Allocate(h, s, u)
    ensures !Allocate(h, s, u').Live? ==> Allocate(h, s, u') == Stopped
  {
    CopyOk(h, start, pages, mapped, limit, s, supply, c, brk);
  }

  // What a call gives back: an address, NULL, an address that has been handed out already, or nothing because it has ended
  // the program.
  datatype Outcome = Got(p: nat) | Null | Again(p: nat) | Ended

  class Heap {
    var base: nat
    var brk: nat
    var hdr: map<nat, Header>
    var mem: seq<int>
    var mapped: set<nat>
    const start: nat
    const limit: nat
    ghost var bs: seq<Block>
    ghost var top: nat

    ghost function Blocks(): List
      reads this
    {
      List(bs, top)
    }

    ghost function State(): MallocRuns.Heap
      reads this
    {
      Live(Blocks(), brk)
    }

    // The list is what its headers say, and the break lies within the heap.
    ghost predicate Listed()
      reads this
    {
      && Inv(State(), start) && Linked(hdr, bs, top) && base == BaseOf(bs, start) && brk <= |mem| == limit
    }

    ghost predicate Valid()
      reads this
    {
      Listed() && PagesRight(mapped, start, brk, top, limit)
    }

    constructor (start: nat, limit: nat)
      requires 0 < start <= limit && start % PGSIZE == 0 && limit % PGSIZE == 0
      ensures Valid() && State() == NewHeap(start) && this.limit == limit && this.start == start && mapped == {}
    {
      this.start, this.limit, base, brk, hdr, mapped := start, limit, 0, start, map[], {};
      mem := seq(limit, i => 0);
      bs, top := [], start;
    }

    // sbrk, when supply pages can still be mapped. No failure is reported as -1.
    method Sbrk(increment: int, supply: nat) returns (r: int)
      requires Backed(mapped, start, brk, limit)
      modifies this`brk, this`mapped
      ensures Backed(mapped, start, brk, limit) && r != -1
      ensures r < 0 ==> brk == old(brk)
      ensures r >= 0 ==> r == brk == old(brk) + increment
      ensures increment > 0 ==>
                && (r >= 0 <==> Moving(old(brk), limit, increment, supply))
                && mapped == MappedAfter(old(mapped), old(brk), limit, increment, supply)
      ensures increment <= 0 ==> (r >= 0 <==> start <= old(brk) + increment)
    {
      if increment == 0 { return brk; }
      if brk + increment < start || brk + increment > limit { return -E_INVAL; }
      var to := brk + increment;
      if to > brk {
        var ok := MapPages(PageUp(brk), PageUp(to), supply);
        if !ok { return -E_NO_MEM; }
      } else {
        UnmapPages(brk / PGSIZE, PageUp(to));
      }
      brk := to;
      r := brk;
    }

    // The loop that maps the pages from one up to another.
    method MapPages(from: nat, to: nat, supply: nat) returns (ok: bool)
      requires from <= to
      modifies this`mapped
      ensures ok <==> to - from <= supply
      ensures mapped == old(mapped) + Pages(from, if ok then to else from + supply)
    {
      var i := from;
      while i < to
        invariant from <= i <= to && i - from <= supply && mapped == old(mapped) + Pages(from, i)
      {
        if i - from == supply { return false; }
        mapped := mapped + {i};
        i := i + 1;
      }
      ok := true;
    }

    // The loop that unmaps the pages from one down to another.
    method UnmapPages(from: nat, to: nat)
      modifies this`mapped
      ensures mapped == old(mapped) - Pages(to, from + 1)
    {
      var i: int := from;
      while i >= to
        invariant i <= from && (from >= to ==> i + 1 >= to) && (from < to ==> i == from)
        invariant i >= -1 && mapped == old(mapped) - Pages(if i + 1 >= to then i + 1 else to, from + 1)
      {
        mapped := mapped - {i};
        i := i - 1;
      }
    }

    // find_block: the first fitting block and, failing that, the last block of the list.
    method FindBlock(s: nat) returns (b: nat, last: nat, ghost k: nat)
      requires Listed()
      ensures k == FirstFit(bs, top, s, 0)
      ensures var first := FirstFit(bs, top, s, 0);
              && b == (if first < |bs| then bs[first].at else 0)
              && (first == |bs| ==> last == if bs == [] then 0 else bs[|bs| - 1].at)
    {
      b, last, k := base, 0, 0;
      while b != 0 && !(hdr[b].free && hdr[b].size >= s)
        invariant k <= |bs| && b == (if k < |bs| then bs[k].at else 0) && last == (if k == 0 then 0 else bs[k - 1].at)
        invariant b != 0 ==> k < |bs| && LinkedAt(hdr, bs, top, k)
        invariant k < |bs| ==> b != 0
        invariant FirstFit(bs, top, s, 0) == FirstFit(bs, top, s, k)
        decreases |bs| - k
      {
        Neighbours(hdr, bs, top, k);
        last := b;
        b := hdr[b].next;
        k := k + 1;
        if k < |bs| { StartsAt(bs, start, top, k); }
      }
    }

    // split_block, for a block that is large enough.
    method SplitBlock(b: nat, s: nat, ghost k: nat)
      requires Listed() && k < |bs| && b == bs[k].at && s % 4 == 0 && SizeOf(bs, top, k) >= s + HEADER
      requires EndOf(bs, top, k) <= brk
      modifies this`hdr, this`mem, this`bs
      ensures Listed() && bs == Cut(old(bs), k, b + HEADER + s)
      ensures b + HEADER + s + HEADER <= |mem| && mem == Stamp(old(mem), b + HEADER + s)
    {
      CutLinked(hdr, bs, start, top, k, s);
      assert Sized(bs, top, k);
      CutTiling(bs, start, top, k, b + HEADER + s);
      EndsAt(bs, start, top, k);
      var blk, rest := hdr[b], b + HEADER + s;
      hdr := hdr[rest := Header(blk.size - s - HEADER, b, blk.next, true, rest + HEADER)];
      hdr := hdr[b := blk.(size := s, next := rest)];
      mem := Stamp(mem, rest);
      if blk.next != 0 {
        hdr := hdr[blk.next := hdr[blk.next].(prev := rest)];
      }
      bs := Cut(bs, k, rest);
    }

    // What becomes of extend_heap for s bytes, if c bytes of the new block are written next.
    ghost function SupplyOf(s: nat, supply: nat, c: nat): Supply
      reads this
    {
      if Moving(brk, limit, HEADER + s, supply) then Moves
      else if Reachable(MappedAfter(mapped, brk, limit, HEADER + s, supply), brk, HEADER + c) then Stays
      else Faults
    }

    // The stores of extend_heap.
    method LinkLast(b: nat, last: nat, s: nat)
      requires b + HEADER <= |mem| && (last != 0 ==> last == b || last in hdr)
      modifies this`hdr, this`mem, this`base
      ensures mem == Stamp(old(mem), b) && base == if last == 0 then b else old(base)
      ensures hdr == AppendHeaders(old(hdr)[b := Header(s, last, 0, false, b + HEADER)], last, b, s)
    {
      hdr := hdr[b := Header(s, last, 0, false, b + HEADER)];
      mem := Stamp(mem, b);
      if last != 0 {
        hdr := hdr[last := hdr[last].(next := b)];
      } else {
        base := b;
      }
    }

    // The rest of extend_heap after sbrk, in a list that ended at the old break b.
    method AppendBlock(b: nat, last: nat, s: nat)
      requires Tiling(bs, start, b) && Linked(hdr, bs, b) && top == b && base == BaseOf(bs, start) && s % 4 == 0
      requires |mem| == limit
      requires last == (if bs == [] then 0 else bs[|bs| - 1].at)
      requires Backed(mapped, start, brk, limit) && Reachable(mapped, b, HEADER) && (brk == b || brk == b + HEADER + s)
      modifies this`hdr, this`mem, this`base, this`bs, this`top
      ensures Valid() && Blocks() == List(old(bs) + [Block(b, false)], b + HEADER + s)
      ensures b + HEADER <= |mem| == |old(mem)| && mem == Stamp(old(mem), b)
    {
      AppendKeeps(hdr, bs, start, b, s);
      ReachableInside(mapped, start, brk, limit, b, HEADER);
      if bs != [] { StartsAt(bs, start, b, |bs| - 1); Ascending(bs, start, b, |bs| - 1, |bs| - 1); }
      LinkLast(b, last, s);
      assert hdr == AppendHeaders(old(hdr), last, b, s);
      bs, top := bs + [Block(b, false)], b + HEADER + s;
    }

    // extend_heap, which does not see whether sbrk has failed. The new block lies at the old break.
    method ExtendHeap(last: nat, s: nat, supply: nat) returns (r: Outcome)
      requires Valid() && s % 4 == 0 && last == if bs == [] then 0 else bs[|bs| - 1].at
      modifies this
      ensures |mem| == |old(mem)|
      ensures old(top) == old(brk) ==>
                && (r.Ended? <==> old(SupplyOf(s, supply, 0)) == Faults)
                && (!r.Ended? ==> r == Got(old(brk) + HEADER) && Extended(old(State()), old(mem), old(mapped), s, supply))
      ensures old(top) != old(brk) ==>
                r == Again(old(brk) + HEADER) && last == old(brk) && forall n :: Follow(hdr, base, n) != 0
    {
      var b := brk;
      ghost var h, m := hdr, mapped;
      var moved := Sbrk(HEADER + s, supply);
      // The test for failure never succeeds.
      assert moved != -1;
      if moved >= 0 { BelowIsReachable(mapped, start, brk, limit, b, HEADER); }
      assert m <= mapped && (top != b ==> Reachable(mapped, b, HEADER));
      if !Reachable(mapped, b, HEADER) { return Ended; }
      if bs != [] && top == b { Ascending(bs, start, b, |bs| - 1, |bs| - 1); }
      if b == last {
        ReachableInside(mapped, start, brk, limit, b, HEADER);
        LinkLast(b, last, s);
        forall n ensures Follow(hdr, base, n) != 0 { ExtendedTwice(h, bs, start, top, b, s, n); }
        return Again(b + HEADER);
      }
      AppendBlock(b, last, s);
      r := Got(b + HEADER);
    }

    // The heap after extend_heap.
    ghost predicate Extended(h: MallocRuns.Heap, m: seq<int>, pages: set<nat>, s: nat, supply: nat)
      reads this
    {
      && Valid() && h.Live? && h.brk + HEADER <= |m| && mem == Stamp(m, h.brk)
      && Blocks() == List(h.l.bs + [Block(h.brk, false)], h.brk + HEADER + s)
      && brk == (if Moving(h.brk, limit, HEADER + s, supply) then top else h.brk)
      && mapped == MappedAfter(pages, h.brk, limit, HEADER + s, supply)
    }

    // malloc, when supply pages can still be mapped.
    method Malloc(n: nat, supply: nat) returns (r: Outcome)
      requires Valid()
      modifies this
      ensures |mem| == |old(mem)|
      ensures n >= MAXMALLOC ==> r == Null && Valid() && State() == old(State()) && mem == old(mem)
      ensures n < MAXMALLOC ==>
                MallocDone(old(Blocks()), old(brk), old(mem), Align4(n),
                           Allocate(old(State()), Align4(n), old(SupplyOf(Align4(n), supply, 0))), r)
      ensures n < MAXMALLOC && old(top) == old(brk) && r.Got? ==>
                (Tiles(hdr, base, start, brk) <==>
                 Fits(old(Blocks()), Align4(n)) || Moving(old(brk), limit, HEADER + Align4(n), supply))
    {
      if n >= MAXMALLOC { return Null; }
      r := MallocAligned(Align4(n), supply);
      if r.Got? { TilesIff(hdr, base, start, brk, bs, top); }
    }

    // What malloc of s bytes has done to the list l with the bytes m and the break at, which should make it h.
    ghost predicate MallocDone(l: List, at: nat, m: seq<int>, s: nat, h: MallocRuns.Heap, r: Outcome)
      reads this
    {
      match h
      case Live(_, _) =>
        && r == Got(MallocAt(l, s) + HEADER) && Valid() && State() == h
        && SameBytes(m, mem, Others(l, MallocAt(l, s)))
      case Stopped => r == Ended
      case Ring =>
        && l.bs != [] && l.bs[|l.bs| - 1] == Block(at, false) && r == Again(at + HEADER)
        && forall n :: Follow(hdr, base, n) != 0
    }

    // malloc once the size is rounded up
    method MallocAligned(s: nat, supply: nat) returns (r: Outcome)
      requires Valid() && s % 4 == 0
      modifies this
      ensures |mem| == |old(mem)|
      ensures MallocDone(old(Blocks()), old(brk), old(mem), s,
                         Allocate(old(State()), s, old(SupplyOf(s, supply, 0))), r)
      ensures r.Got? && !Fits(old(Blocks()), s) ==>
                mapped == MappedAfter(old(mapped), old(brk), limit, HEADER + s, supply)
    {
      var b, last;
      ghost var k;
      b, last, k := FindBlock(s);
      if k < |bs| { StartsAt(bs, start, top, k); }
      if b != 0 {
        r := MallocFound(b, s, k);
      } else {
        r := MallocNew(last, s, supply);
      }
    }

    // malloc with the block that find_block has found.
    method MallocFound(b: nat, s: nat, ghost k: nat) returns (r: Outcome)
      requires Valid() && s % 4 == 0 && k == FirstFit(bs, top, s, 0) < |bs| && b == bs[k].at
      modifies this`hdr, this`mem, this`bs
      ensures |mem| == |old(mem)|
      ensures MallocDone(old(Blocks()), brk, old(mem), s, Live(MallocList.Malloc(old(Blocks()), s), brk), r)
    {
      FreeEndsBelow(State(), start, k);
      TakeBlock(b, s, k);
      r := Got(b + HEADER);
    }

    // malloc with a new block.
    method MallocNew(last: nat, s: nat, supply: nat) returns (r: Outcome)
      requires Valid() && s % 4 == 0 && !Fits(Blocks(), s) && last == if bs == [] then 0 else bs[|bs| - 1].at
      modifies this
      ensures |mem| == |old(mem)|
      ensures MallocDone(old(Blocks()), old(brk), old(mem), s,
                         Allocate(old(State()), s, old(SupplyOf(s, supply, 0))), r)
      ensures r.Got? ==> mapped == MappedAfter(old(mapped), old(brk), limit, HEADER + s, supply)
    {
      ghost var l, at := Blocks(), brk;
      r := ExtendHeap(last, s, supply);
      if r.Got? { StampOutside(l, start, old(mem), at); }
    }

    method TakeBlock(b: nat, s: nat, ghost k: nat)
      requires Listed() && k < |bs| && b == bs[k].at && s % 4 == 0 && SizeOf(bs, top, k) >= s && EndOf(bs, top, k) <= brk
      modifies this`hdr, this`mem, this`bs
      ensures Listed() && |mem| == |old(mem)|
      ensures var t := Trim(old(Blocks()), k, s); bs == Mark(t.bs, k, false)
      ensures SameBytes(old(mem), mem, Others(old(Blocks()), b))
    {
      TrimBlock(b, s, k);
      MarkKeeps(hdr, bs, start, top, k, false);
      hdr := hdr[b := hdr[b].(free := false)];
      bs := Mark(bs, k, false);
    }

    // fusion: absorbs a free successor.
    method Fusion(b: nat, ghost k: nat)
      requires Listed() && k < |bs| && b == bs[k].at
      modifies this`hdr, this`bs
      ensures Listed()
      ensures bs == if k + 1 < |old(bs)| && old(bs)[k + 1].free then Merge(old(bs), k) else old(bs)
    {
      Neighbours(hdr, bs, top, k);
      if k + 1 < |bs| { StartsAt(bs, start, top, k + 1); }
      var blk := hdr[b];
      if blk.next != 0 && hdr[blk.next].free {
        MergeLinked(hdr, bs, start, top, k);
        MergeTiling(bs, start, top, k);
        var n := hdr[blk.next];
        if k + 2 < |bs| { Neighbours(hdr, bs, top, k + 1); StartsAt(bs, start, top, k + 2); }
        hdr := hdr[b := blk.(size := blk.size + HEADER + n.size, next := n.next)];
        if n.next != 0 {
          hdr := hdr[n.next := hdr[n.next].(prev := b)];
        }
        bs := Merge(bs, k);
      }
    }

    // The assertions of valid_addr, for the address of a block in use.
    method ValidAddr(v: nat, ghost k: nat) returns (ok: bool)
      requires Listed() && k < |bs| && !bs[k].free && v == bs[k].at + HEADER
      ensures ok <==> Below(State(), k)
    {
      assert LinkedAt(hdr, bs, top, k);
      StartsAt(bs, start, top, k);
      ok := base != 0 && base < v < brk && hdr[v - HEADER].ptr == v;
    }

    // The first half of free: mark the block and fuse it with a free predecessor.
    method MarkAndFuse(b: nat, ghost k: nat) returns (c: nat, ghost j: nat)
      requires Listed() && k < |bs| && b == bs[k].at && Below(State(), k)
      modifies this`hdr, this`bs
      ensures Listed() && (bs, j) == Back(old(bs), k) && j < |bs| && c == bs[j].at
      ensures top != brk ==> j + 1 < |bs|
    {
      if top != brk { BelowIsNotLast(State(), start, k); }
      MarkKeeps(hdr, bs, start, top, k, true);
      hdr := hdr[b := hdr[b].(free := true)];
      bs := Mark(bs, k, true);
      c, j := b, k;
      Neighbours(hdr, bs, top, k);
      if k > 0 { StartsAt(bs, start, top, k - 1); }
      var prev := hdr[b].prev;
      if prev != 0 && hdr[prev].free {
        c, j := prev, k - 1;
        Fusion(prev, k - 1);
      }
    }

    // The end of free for the last block: it is given back to the system.
    method DropLast(b: nat, ghost j: nat)
      requires Valid() && top == brk && j + 1 == |bs| && b == bs[j].at
      modifies this`hdr, this`base, this`brk, this`mapped, this`bs, this`top
      ensures Valid() && State() == Live(List(old(bs)[..j], b), b)
    {
      DropKeeps(hdr, bs, start, top);
      StartsAt(bs, start, top, j);
      if j > 0 { StartsAt(bs, start, top, j - 1); }
      var blk := hdr[b];
      if blk.prev != 0 {
        hdr := hdr[blk.prev := hdr[blk.prev].(next := 0)];
      } else {
        base := 0;
      }
      var moved := Sbrk(-(blk.size + HEADER), 0);
      bs, top := bs[..j], b;
    }

    // free of the used block k; false when an assertion of valid_addr ends the program.
    method Free(v: nat, ghost k: nat) returns (ok: bool)
      requires Valid() && k < |bs| && !bs[k].free && v == bs[k].at + HEADER
      modifies this`hdr, this`base, this`brk, this`mapped, this`bs, this`top
      ensures ok <==> Below(old(State()), k)
      ensures Valid() && State() == if ok then Release(old(State()), k) else old(State())
    {
      ok := ValidAddr(v, k);
      if !ok { return; }
      var b;
      ghost var j;
      b, j := MarkAndFuse(v - HEADER, k);
      Neighbours(hdr, bs, top, j);
      if j + 1 < |bs| { StartsAt(bs, start, top, j + 1); }
      if hdr[b].next != 0 {
        Fusion(b, j);
      } else {
        DropLast(b, j);
      }
    }

    // copy_block: copies words while both blocks last.
    method CopyBlock(src: nat, dst: nat, n: nat, m: nat)
      requires n % 4 == 0 && m % 4 == 0 && src + n <= |mem| && (src + n <= dst || dst + m <= src)
      requires dst + (if n < m then n else m) <= |mem|
      modifies this`mem
      ensures Copied(old(mem), mem, src, dst, if n < m then n else m)
    {
      var c := 0;
      ghost var was, all := mem, Smaller(n, m);
      NothingCopied(was, src, dst);
      while c < n && c < m
        invariant c <= all && c % 4 == 0 && Copied(was, mem, src, dst, c)
      {
        NextWord(c, n);
        NextWord(c, m);
        var d := c + 4;
        CopyOneWord(was, src, dst, c, d, n, all);
        c := d;
      }
    }

    // One turn of the loop of copy_block.
    method CopyOneWord(ghost was: seq<int>, src: nat, dst: nat, c: nat, ghost d: nat, ghost n: nat, ghost m: nat)
      requires src + n <= |was| && dst + m <= |was| && (src + n <= dst || dst + m <= src)
      requires d == c + 4 && d <= n && d <= m && Copied(was, mem, src, dst, c)
      modifies this`mem
      ensures Copied(was, mem, src, dst, d)
    {
      CopyWord(was, mem, src, dst, c, d, n, m);
      mem := WordCopied(mem, src, dst, c);
    }

    // Cuts block k down to s bytes where split_block is called for.
    method TrimBlock(b: nat, s: nat, ghost k: nat)
      requires Listed() && k < |bs| && b == bs[k].at && s % 4 == 0 && SizeOf(bs, top, k) >= s && EndOf(bs, top, k) <= brk
      modifies this`hdr, this`mem, this`bs
      ensures Listed() && Blocks() == Trim(old(Blocks()), k, s) && |mem| == |old(mem)|
      ensures SameBytes(old(mem), mem, Others(old(Blocks()), b))
      ensures SameSlice(old(mem), b + HEADER, mem, b + HEADER, s)
      ensures k < |bs| && bs[k] == old(bs)[k] && SizeOf(bs, top, k) >= s
    {
      assert LinkedAt(hdr, bs, top, k);
      EndsAt(bs, start, top, k);
      if hdr[b].size - s >= HEADER + 4 {
        StampInside(Blocks(), start, mem, k, b + HEADER + s);
        StampApart(mem, b + HEADER + s, b + HEADER, b + HEADER + s);
        SplitBlock(b, s, k);
      } else {
        SameMemory(mem, Others(Blocks(), b));
      }
      SlicesAre(old(mem), b + HEADER, mem, b + HEADER, s);
    }

    // realloc when the block is large enough, or becomes so with its free successor.
    method ReallocInPlace(b: nat, s: nat, ghost k: nat) returns (done: bool)
      requires Listed() && k < |bs| && !bs[k].free && b == bs[k].at && s % 4 == 0 && Below(State(), k)
      modifies this`hdr, this`mem, this`bs
      ensures Listed() && |mem| == |old(mem)|
      ensures done <==> FitsInPlace(old(Blocks()), k, s)
      ensures !done ==> State() == old(State()) && mem == old(mem) && hdr == old(hdr)
      ensures done ==> Blocks() == InPlace(old(Blocks()), k, s)
      ensures done ==> Moved(old(Blocks()), old(mem), b + HEADER, SizeOf(old(bs), top, k), s, b + HEADER, k)
    {
      Neighbours(hdr, bs, top, k);
      EndsBelow(State(), start, k);
      ghost var l := Blocks();
      var blk := hdr[b];
      if blk.size >= s {
        TrimOthers(l, k, s);
        TrimBlock(b, s, k);
        BystandersInPlace(l, Blocks(), old(mem), mem, b);
        return true;
      }
      if k + 1 < |bs| { StartsAt(bs, start, top, k + 1); }
      if blk.next != 0 && hdr[blk.next].free && blk.size + HEADER + hdr[blk.next].size >= s {
        GrowInPlace(b, s, blk.size, k);
        return true;
      }
      done := false;
    }

    // The second case of realloc: block k takes over its free successor.
    method GrowInPlace(b: nat, s: nat, ghost n: nat, ghost k: nat)
      requires Listed() && k + 1 < |bs| && !bs[k].free && bs[k + 1].free && b == bs[k].at && s % 4 == 0
      requires n == SizeOf(bs, top, k) < s && SizeOf(bs, top, k) + HEADER + SizeOf(bs, top, k + 1) >= s
      modifies this`hdr, this`mem, this`bs
      ensures Listed() && |mem| == |old(mem)| && Blocks() == InPlace(old(Blocks()), k, s)
      ensures Moved(old(Blocks()), old(mem), b + HEADER, n, s, b + HEADER, k)
    {
      ghost var l := Blocks();
      FreeEndsBelow(State(), start, k + 1);
      OthersMerge(l, k, b);
      Fusion(b, k);
      TrimOthers(Blocks(), k, s);
      TrimBlock(b, s, k);
      SlicePrefix(old(mem), b + HEADER, mem, b + HEADER, s, n);
      BystandersInPlace(l, Blocks(), old(mem), mem, b);
    }

    // The n bytes of data at ptr have become block j with its data at p, of at least s bytes; no other block has changed.
    ghost predicate Moved(l: List, m: seq<int>, ptr: nat, n: int, s: nat, p: nat, j: nat)
      reads this
    {
      && ptr >= HEADER && p >= HEADER && j < |bs| && bs[j] == Block(p - HEADER, false) && SizeOf(bs, top, j) >= s
      && SameSlice(m, ptr, mem, p, Smaller(n, s))
      && Untouched(l, m, ptr - HEADER, p - HEADER)
    }

    // Blocks other than those at a and b have not changed.
    ghost predicate Untouched(l: List, m: seq<int>, a: nat, b: nat)
      reads this
    {
      SameBystanders(l, Blocks(), a, b) && SameBytes(m, mem, Bystanders(l, a, b))
    }

    // copy_block from block k to block j, which damages no other block. False when the new block cannot be written.
    method CopyToNew(r: nat, ptr: nat, ghost k: nat, ghost j: nat) returns (ok: bool)
      requires Valid() && k < |bs| && j < |bs| && k != j && ptr == bs[k].at + HEADER && r == bs[j].at + HEADER
      requires Below(State(), k) && SizeOf(bs, top, k) <= SizeOf(bs, top, j)
      modifies this`mem
      ensures Valid() && |mem| == |old(mem)|
      ensures 0 <= SizeOf(bs, top, k) && (ok <==> Reachable(mapped, r, SizeOf(bs, top, k)))
      ensures ok ==> SameSlice(old(mem), ptr, mem, r, SizeOf(bs, top, k))
      ensures ok ==> SameBytes(old(mem), mem, Others(Blocks(), r - HEADER))
    {
      assert LinkedAt(hdr, bs, top, k) && LinkedAt(hdr, bs, top, j);
      CopyRanges(bs, start, top, k, j);
      EndsBelow(State(), start, k);
      var n, m := hdr[ptr - HEADER].size, hdr[r - HEADER].size;
      if !Reachable(mapped, r, n) { return false; }
      CopyReach(r, n, j);
      CopyBlock(ptr, r, n, m);
      CopyHurtsNoOther(Blocks(), start, old(mem), mem, j, ptr, n);
      ok := true;
    }

    // What can be reached lies within the memory.
    lemma CopyReach(r: nat, n: nat, j: nat)
      requires Valid() && j < |bs| && r == bs[j].at + HEADER && Reachable(mapped, r, n)
      ensures r + n <= |mem|
    {
      if n > 0 {
        ReachableInside(mapped, start, brk, limit, r, n);
      } else {
        Ascending(bs, start, top, j, |bs| - 1);
        if j + 1 == |bs| && top != brk { ReachableInside(mapped, start, brk, limit, brk, HEADER); }
      }
    }

    // malloc of s bytes, with block k's bytes followed through it.
    method MallocKeeping(s: nat, supply: nat, ptr: nat, ghost k: nat) returns (r: Outcome)
      requires Valid() && k < |bs| && !bs[k].free && ptr == bs[k].at + HEADER && s % 4 == 0 && s < MAXMALLOC
      requires Below(State(), k)
      modifies this
      ensures |mem| == |old(mem)|
      ensures MallocDone(old(Blocks()), old(brk), old(mem), s,
                         Allocate(old(State()), s, old(SupplyOf(s, supply, 0))), r)
      ensures r.Got? ==> SameSlice(old(mem), ptr, mem, ptr, SizeOf(old(bs), old(top), k))
      ensures r.Got? && !Fits(old(Blocks()), s) ==>
                mapped == MappedAfter(old(mapped), old(brk), limit, HEADER + s, supply)
    {
      ghost var l, x := Blocks(), (bs[k].at, EndOf(bs, top, k));
      MallocTiling(l, start, s);
      EndsAt(bs, start, top, k);
      EndsBelow(State(), start, k);
      assert IsOther(l, MallocAt(l, s), k, x);
      assert x in Others(l, MallocAt(l, s));
      r := MallocAligned(s, supply);
      if r.Got? { SpanIsSlice(old(mem), mem, Others(l, MallocAt(l, s)), x); }
    }

    // Writing c bytes more to the new block can only turn Stays into Faults.
    lemma SupplyFor(s: nat, supply: nat, c: nat)
      ensures var u, after := SupplyOf(s, supply, 0), MappedAfter(mapped, brk, limit, HEADER + s, supply);
              && (u == Moves <==> Moving(brk, limit, HEADER + s, supply))
              && SupplyOf(s, supply, c) == if u == Stays && !Reachable(after, brk, HEADER + c) then Faults else u
    {
      ReachableJoin(MappedAfter(mapped, brk, limit, HEADER + s, supply), brk, HEADER, c);
    }

    // The list l with the bytes m after malloc of a block at b and a copy of block k, which should make it h.
    ghost predicate CopyDone(l: List, at: nat, m: seq<int>, b: nat, h: MallocRuns.Heap, k: nat, r: Outcome)
      requires k < |l.bs|
      reads this
    {
      match h
      case Live(_, _) =>
        && r == Got(b + HEADER) && Valid() && State() == h
        && SameSlice(m, l.bs[k].at + HEADER, mem, r.p, SizeOf(l.bs, l.end, k))
        && SameBytes(m, mem, Others(l, b))
      case Stopped => r == Ended
      case Ring => r == Again(at + HEADER)
    }

    // The copy that follows a successful malloc.
    method CopyAfter(r: nat, ptr: nat, s: nat, ghost l: List, ghost m: seq<int>, ghost k: nat) returns (ok: bool)
      requires k < |l.bs| && !l.bs[k].free && l.bs[k].at + HEADER == ptr < brk && 0 <= SizeOf(l.bs, l.end, k) <= s
      requires Valid() && Blocks() == MallocList.Malloc(l, s) && r == MallocAt(l, s) + HEADER
      requires SameBytes(m, mem, Others(l, MallocAt(l, s))) && SameSlice(m, ptr, mem, ptr, SizeOf(l.bs, l.end, k))
      modifies this`mem
      ensures Valid() && |mem| == |old(mem)|
      ensures ok <==> Reachable(mapped, r, SizeOf(l.bs, l.end, k))
      ensures ok ==> SameSlice(m, ptr, mem, r, SizeOf(l.bs, l.end, k)) && SameBytes(m, mem, Others(l, MallocAt(l, s)))
    {
      ghost var c, m1, spans := SizeOf(l.bs, l.end, k), mem, Others(l, MallocAt(l, s));
      AfterMalloc(l, s, k);
      MallocOthers(l, s);
      assert Others(Blocks(), r - HEADER) == spans && SameBytes(m, m1, spans);
      ok := CopyToNew(r, ptr, KeptAt(l, s, k), NewAt(l, s));
      if ok {
        SameBytesThrough(m, m1, mem, spans);
        SliceThrough(m, ptr, m1, ptr, mem, r, c, c, c);
      }
    }

    // The copy, or the end of the program.
    method CopyOrEnd(p: nat, ptr: nat, s: nat, ghost l: List, ghost at: nat, ghost m: seq<int>, ghost h: MallocRuns.Heap,
                     ghost k: nat)
      returns (r: Outcome)
      requires k < |l.bs| && !l.bs[k].free && l.bs[k].at + HEADER == ptr < brk && 0 <= SizeOf(l.bs, l.end, k) <= s
      requires Valid() && Blocks() == MallocList.Malloc(l, s) && p == MallocAt(l, s) + HEADER && |m| == |mem|
      requires SameBytes(m, mem, Others(l, MallocAt(l, s))) && SameSlice(m, ptr, mem, ptr, SizeOf(l.bs, l.end, k))
      requires h == if Reachable(mapped, p, SizeOf(l.bs, l.end, k)) then State() else Stopped
      modifies this`mem
      ensures |mem| == |old(mem)| && CopyDone(l, at, m, MallocAt(l, s), h, k, r)
    {
      var ok := CopyAfter(p, ptr, s, l, m, k);
      r := if ok then Got(p) else Ended;
    }

    // The first two steps of the last case of realloc: a new block and a copy.
    method MallocAndCopy(ptr: nat, s: nat, supply: nat, ghost k: nat) returns (r: Outcome)
      requires Valid() && k < |bs| && !bs[k].free && ptr == bs[k].at + HEADER && s % 4 == 0 && s < MAXMALLOC
      requires Below(State(), k) && 0 <= SizeOf(bs, top, k) <= s
      modifies this
      ensures |mem| == |old(mem)|
      ensures CopyDone(old(Blocks()), old(brk), old(mem), MallocAt(old(Blocks()), s),
                       Allocate(old(State()), s, old(SupplyOf(s, supply, SizeOf(bs, top, k)))), k, r)
    {
      ghost var h, m, pages, c := State(), mem, mapped, SizeOf(bs, top, k);
      ghost var u, u' := SupplyOf(s, supply, 0), SupplyOf(s, supply, c);
      SupplyFor(s, supply, c);
      r := MallocKeeping(s, supply, ptr, k);
      if r.Got? {
        CopyDecides(h, start, pages, mapped, limit, s, supply, c, brk, u, u');
        r := CopyOrEnd(r.p, ptr, s, h.l, h.brk, m, Allocate(h, s, u'), k);
      } else {
        assert Allocate(h, s, u') == Allocate(h, s, u);
      }
    }

    // free of block k, which lies below the break, with block i followed through it.
    method FreeKeeping(ptr: nat, ghost k: nat, ghost i: nat) returns (ghost j: nat)
      requires Valid() && k < |bs| && !bs[k].free && ptr == bs[k].at + HEADER && i < |bs| && i != k && !bs[i].free
      requires Below(State(), k)
      modifies this`hdr, this`base, this`brk, this`mapped, this`bs, this`top
      ensures Valid() && State() == Release(old(State()), k)
      ensures KeepsOthers(old(Blocks()), Blocks(), ptr - HEADER)
      ensures j < |bs| && bs[j] == old(bs)[i] && SizeOf(bs, top, j) == SizeOf(old(bs), old(top), i)
    {
      ghost var l, a, y := Blocks(), bs[k].at, (bs[i].at, EndOf(bs, top, i));
      FreeOthers(l, k);
      Ascending(bs, start, top, if k < i then k else i, if k < i then i else k);
      assert IsOther(l, a, i, y);
      assert y in Others(l, a);
      var ok := Free(ptr, k);
      j :| 0 <= j < |bs| && !bs[j].free && bs[j].at != a && y == (bs[j].at, EndOf(bs, top, j));
    }

    // What realloc of block k to s bytes has done to the list l with the bytes m, which should make it h.
    ghost predicate ReallocDone(l: List, at: nat, m: seq<int>, k: nat, s: nat, h: MallocRuns.Heap, r: Outcome, j: nat)
      requires k < |l.bs|
      reads this
    {
      match h
      case Live(_, _) =>
        && Valid() && State() == h && (r == Null <==> !FitsInPlace(l, k, s) && s >= MAXMALLOC)
        && (r == Null ==> mem == m)
        && (r != Null ==>
              r.Got? && Moved(l, m, l.bs[k].at + HEADER, SizeOf(l.bs, l.end, k), s, r.p, j))
      case Stopped => r == Ended
      case Ring => r == Again(at + HEADER)
    }

    // The end of the last case of realloc: the old block k is freed, of which n bytes are in the new block i.
    method FreeOld(ptr: nat, ghost b: nat, ghost s: nat, ghost l: List, ghost m: seq<int>, ghost n: nat, ghost k: nat,
                   ghost i: nat)
      returns (ghost j: nat)
      requires Valid() && k < |bs| && !bs[k].free && ptr == bs[k].at + HEADER && Below(State(), k)
      requires i < |bs| && i != k && bs[i] == Block(b, false) && SizeOf(bs, top, i) >= s >= n
      requires SameSlice(m, ptr, mem, b + HEADER, n) && SameBytes(m, mem, Others(l, b)) && KeepsOthers(l, Blocks(), b)
      modifies this`hdr, this`base, this`brk, this`mapped, this`bs, this`top
      ensures Valid() && State() == Release(old(State()), k)
      ensures Moved(l, m, ptr, n, s, b + HEADER, j)
    {
      ghost var l1 := Blocks();
      j := FreeKeeping(ptr, k, i);
      BystandersKept(l, l1, Blocks(), m, mem, ptr - HEADER, b);
    }

    // The last case of realloc: a new block, a copy, and the old block freed.
    method ReallocMove(ptr: nat, s: nat, supply: nat, ghost k: nat) returns (r: Outcome, ghost j: nat)
      requires Valid() && k < |bs| && !bs[k].free && ptr == bs[k].at + HEADER && s % 4 == 0
      requires Below(State(), k) && !FitsInPlace(Blocks(), k, s) && 0 <= SizeOf(bs, top, k)
      modifies this
      ensures |mem| == |old(mem)|
      ensures ReallocDone(old(Blocks()), old(brk), old(mem), k, s,
                          Resize(old(State()), k, s, old(SupplyOf(s, supply, SizeOf(bs, top, k)))), r, j)
    {
      ghost var h, u := State(), SupplyOf(s, supply, SizeOf(bs, top, k));
      r, j := Null, 0;
      if s >= MAXMALLOC { return; }
      ResizeMoves(h, k, s, u);
      r, j := MoveBlock(ptr, s, supply, k, h.l, h.brk, mem, Allocate(h, s, u), Resize(h, k, s, u));
    }

    // The same for a size that malloc accepts: h1 is the heap after malloc, h the heap after realloc.
    method MoveBlock(ptr: nat, s: nat, supply: nat, ghost k: nat, ghost l: List, ghost at: nat, ghost m: seq<int>,
                     ghost h1: MallocRuns.Heap, ghost h: MallocRuns.Heap)
      returns (r: Outcome, ghost j: nat)
      requires Valid() && k < |bs| && !bs[k].free && ptr == bs[k].at + HEADER && s % 4 == 0 && s < MAXMALLOC
      requires l == Blocks() && at == brk && m == mem && Below(State(), k) && 0 <= SizeOf(bs, top, k) <= s
      requires h1 == Allocate(State(), s, SupplyOf(s, supply, SizeOf(bs, top, k)))
      requires if h1.Live? then h1.l == MallocList.Malloc(l, s) && KeptAt(l, s, k) < |h1.l.bs| && ptr < h1.brk
                                && h == Release(h1, KeptAt(l, s, k)) && h.Live?
               else h == h1
      modifies this
      ensures |mem| == |m| && ReallocDone(l, at, m, k, s, h, r, j)
    {
      r := MallocAndCopy(ptr, s, supply, k);
      AfterMalloc(l, s, k);
      MallocOthers(l, s);
      j := FinishMove(ptr, r, s, k, l, at, m, MallocAt(l, s), h1, h, KeptAt(l, s, k), NewAt(l, s));
    }

    // The rest of it, when the old block is block k1 of the heap h1 after malloc and the new one at b is block i.
    method FinishMove(ptr: nat, r: Outcome, ghost s: nat, ghost k: nat, ghost l: List, ghost at: nat, ghost m: seq<int>,
                      ghost b: nat, ghost h1: MallocRuns.Heap, ghost h: MallocRuns.Heap, ghost k1: nat, ghost i: nat)
      returns (ghost j: nat)
      requires k < |l.bs| && ptr == l.bs[k].at + HEADER && 0 <= SizeOf(l.bs, l.end, k) <= s < MAXMALLOC
      requires CopyDone(l, at, m, b, h1, k, r)
      requires h1.Live? ==>
                 && k1 < |h1.l.bs| && h1.l.bs[k1] == Block(ptr - HEADER, false) && Below(h1, k1)
                 && i < |h1.l.bs| && i != k1 && h1.l.bs[i] == Block(b, false) && SizeOf(h1.l.bs, h1.l.end, i) >= s
                 && KeepsOthers(l, h1.l, b) && h == Release(h1, k1)
      requires !h1.Live? ==> h == h1
      modifies this`hdr, this`base, this`brk, this`mapped, this`bs, this`top
      ensures ReallocDone(l, at, m, k, s, h, r, j)
    {
      j := 0;
      if r.Got? { j := FreeOld(ptr, b, s, l, m, SizeOf(l.bs, l.end, k), k1, i); }
    }

    // realloc of block k to s bytes
    method ReallocBlock(ptr: nat, s: nat, supply: nat, ghost k: nat) returns (r: Outcome, ghost j: nat)
      requires Valid() && k < |bs| && !bs[k].free && ptr == bs[k].at + HEADER && s % 4 == 0
      requires 0 <= SizeOf(bs, top, k)
      modifies this
      ensures |mem| == |old(mem)|
      ensures ReallocDone(old(Blocks()), old(brk), old(mem), k, s,
                          Resize(old(State()), k, s, old(SupplyOf(s, supply, SizeOf(bs, top, k)))), r, j)
    {
      ghost var h, m := State(), mem;
      r, j := Ended, 0;
      var ok := ValidAddr(ptr, k);
      if !ok { return; }
      var done := ReallocInPlace(ptr - HEADER, s, k);
      if done { return Got(ptr), k; }
      assert State() == h && mem == m;
      r, j := ReallocMove(ptr, s, supply, k);
    }

    // realloc of block k, or malloc for NULL. The old bytes survive up to the smaller of the two sizes. The size is a
    // 32-bit word; rounding the largest ones up gives 0.
    method Realloc(ptr: nat, size: nat, supply: nat, ghost k: nat) returns (r: Outcome, ghost j: nat)
      requires Valid() && size < WORD
      requires ptr != 0 ==> k < |bs| && !bs[k].free && ptr == bs[k].at + HEADER
      modifies this
      ensures ptr == 0 && size >= MAXMALLOC ==> r == Null && State() == old(State()) && mem == old(mem)
      ensures ptr == 0 && size < MAXMALLOC ==>
                MallocDone(old(Blocks()), old(brk), old(mem), Align4(size),
                           Allocate(old(State()), Align4(size), old(SupplyOf(Align4(size), supply, 0))), r)
      ensures ptr != 0 ==>
                && 0 <= SizeOf(old(bs), old(top), k)
                && ReallocDone(old(Blocks()), old(brk), old(mem), k, Align4(size),
                               Resize(old(State()), k, Align4(size),
                                      old(SupplyOf(Align4(size), supply, SizeOf(bs, top, k)))), r, j)
    {
      j := 0;
      if ptr == 0 {
        r := Malloc(size, supply);
      } else {
        assert Sized(bs, top, k);
        r, j := ReallocBlock(ptr, Align4(size), supply, k);
      }
    }
  }

  // Two requests that no free block can serve, the first of them when sbrk fails: both get the same address, and from then
  // on the list is a ring.
  method MallocTwice(h: Heap, n: nat, n': nat, supply: nat, supply': nat) returns (p: Outcome, q: Outcome)
    requires h.Valid() && h.top == h.brk && n < MAXMALLOC && n' < MAXMALLOC
    requires !Fits(h.Blocks(), Align4(n)) && !Fits(h.Blocks(), Align4(n')) && h.SupplyOf(Align4(n), supply, 0) == Stays
    modifies h
    ensures p == Got(old(h.brk) + HEADER) && q == Again(old(h.brk) + HEADER)
    ensures forall i :: Follow(h.hdr, h.base, i) != 0
  {
    ghost var l, s := h.Blocks(), Align4(n);
    p := h.Malloc(n, supply);
    NoFitBehind(l, s, Align4(n'));
    q := h.Malloc(n', supply');
  }

  // A new block in use does not serve another request.
  lemma NoFitBehind(l: List, s: nat, s': nat)
    requires !Fits(l, s) && !Fits(l, s')
    ensures !Fits(MallocList.Malloc(l, s), s')
  {
    var l' := MallocList.Malloc(l, s);
    var f := FirstFit(l'.bs, l'.end, s', 0);
  }

  lemma OnePage(start: nat, limit: nat)
    requires start % PGSIZE == 0 && start + 2 * PGSIZE <= limit
    ensures Align4(100) == 100 && Align4(5000) == 5000 && Align4(6000) == 6000
    ensures Moving(start, limit, HEADER + 100, 1) && !Moving(start + 120, limit, HEADER + 5000, 0)
  {
  }

  lemma HeaderInPage(mapped: set<nat>, start: nat, limit: nat)
    requires Backed(mapped, start, start + 120, limit) && start + 2 * PGSIZE <= limit
    ensures Reachable(MappedAfter(mapped, start + 120, limit, HEADER + 5000, 0), start + 120, HEADER)
  {
    assert start / PGSIZE < PageUp(start + 120);
  }

  // A run from a new heap in which that happens: one page is mapped, and more cannot be when the second request comes.
  method HandedOutTwice(start: nat, limit: nat, supply: nat) returns (p: Outcome, q: Outcome)
    requires 0 < start && start % PGSIZE == 0 && limit % PGSIZE == 0 && start + 2 * PGSIZE <= limit
    ensures p.Got? && q == Again(p.p)
  {
    var h := new Heap(start, limit);
    OnePage(start, limit);
    var first := h.Malloc(100, 1);
    assert h.State() == Live(List([Block(start, false)], start + 120), start + 120);
    HeaderInPage(h.mapped, start, limit);
    p, q := MallocTwice(h, 5000, 6000, 0, supply);
  }
}
