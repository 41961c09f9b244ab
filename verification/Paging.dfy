/**
  The physical page allocator and page-table functions of kernel/pmap.c, the address-space part of kernel/env.c and
  the page system calls of kernel/syscall.c.

  pp_ref is an unbounded count. The panics of page_free appear as assertions.
 */
module Paging {
  import opened PageTables
  import opened Words

  datatype Option<T> = None | Some(value: T)

  datatype Status = Ok | EInval | ENoMem

  // A user virtual page: directory and table index. It lies below UTOP when pdx < UPDE.
  datatype Va = Va(pdx: nat, ptx: nat)

  const PTE_U: nat := 4

  predicate Writable(perm: nat) {
    perm / 2 % 2 == 1
  }

  const MPENTRY_PAGE: nat := 7

  // The pages that page_init does not put on the free list.
  predicate BootReserved(p: nat, basemem: nat, hole: nat, boot: nat) {
    p == 0 || p == MPENTRY_PAGE || basemem <= p < basemem + hole + boot
  }

  // Page q holds the same words in both.
  ghost predicate SameWords(t: map<nat, seq<Entry>>, t': map<nat, seq<Entry>>, q: nat) {
    (q in t' <==> q in t) && (q in t && q in t' ==> t'[q] == t[q])
  }

  // So does every page but a and b.
  ghost predicate Elsewhere(t: map<nat, seq<Entry>>, t': map<nat, seq<Entry>>, a: nat, b: nat) {
    forall q :: q == a || q == b || SameWords(t, t', q)
  }

  lemma ElsewhereTwice(t: map<nat, seq<Entry>>, t1: map<nat, seq<Entry>>, t': map<nat, seq<Entry>>, a: nat, b: nat)
    requires Elsewhere(t, t1, a, b) && Elsewhere(t1, t', a, b)
    ensures Elsewhere(t, t', a, b)
  {
    forall q ensures q == a || q == b || SameWords(t, t', q) {
      assert q == a || q == b || (SameWords(t, t1, q) && SameWords(t1, t', q));
    }
  }

  // Taking a mapping out of its page table.
  lemma LeafCleared(t: Tables, names: map<Ref, nat>, e: nat, i: nat, j: nat)
    requires Describes(names, t) && Formed(t, names) && Leaf(e, i, j) in names
    ensures Dir(e, i) in names && e in t.pgdir && i < UPDE && j < NPTE
    ensures t.pgdir[e] in t.table && i < |t.table[t.pgdir[e]]| && t.table[t.pgdir[e]][i].Present?
    ensures t.table[t.pgdir[e]][i].page == names[Dir(e, i)]
    ensures var pt := names[Dir(e, i)];
            && pt in t.table && j < |t.table[pt]|
            && var t', names' := SetEntry(t, pt, j, Absent), names - {Leaf(e, i, j)};
               Describes(names', t') && Formed(t', names') && LeavesKept(t, t', e, i, j)
  {
    LeafHasTable(t, names, e, i, j);
    SetLeaf(t, names, e, i, j, Absent);
    SetLeafFormed(t, names, e, i, j, Absent);
    SetLeafKeeps(t, names, e, i, j, Absent);
  }

  class Kernel {
    var ref: seq<nat>
    var freeList: seq<nat>
    var pgdir: map<nat, nat>
    var table: map<nat, seq<Entry>>
    ghost var names: map<Ref, nat>
    ghost const reserved: set<nat>

    ghost function Mem(): Tables
      reads this
    {
      Tables(pgdir, table)
    }

    ghost predicate Valid(held: set<nat>)
      reads this
    {
      && Describes(names, Mem()) && Formed(Mem(), names)
      && CountsRight(names, ref, reserved)
      && ListRight(ref, freeList, held)
    }

    // page_init: page 0, the page of the CPU start code, the I/O hole and the boot allocations are in use; the rest is
    // pushed onto the free list.
    constructor (npages: nat, basemem: nat, hole: nat, boot: nat)
      ensures Valid({}) && names == map[] && pgdir == map[] && |ref| == npages
      ensures reserved == set p | 0 <= p < npages && BootReserved(p, basemem, hole, boot)
    {
      reserved := set p | 0 <= p < npages && BootReserved(p, basemem, hole, boot);
      pgdir, table, names := map[], map[], map[];
      ref, freeList := seq(npages, i => 0), [];
      new;
      var i := 0;
      while i < npages
        invariant 0 <= i <= npages && |ref| == npages && pgdir == map[] && names == map[]
        invariant forall p :: 0 <= p < npages ==> ref[p] == if p < i && BootReserved(p, basemem, hole, boot) then 1 else 0
        invariant forall p :: p in freeList <==> 0 <= p < i && !BootReserved(p, basemem, hole, boot)
        invariant forall k, l :: 0 <= k < l < |freeList| ==> freeList[k] != freeList[l]
      {
        if BootReserved(i, basemem, hole, boot) {
          ref := ref[i := 1];
        } else {
          freeList := [i] + freeList;
        }
        i := i + 1;
      }
      forall p | 0 <= p < npages ensures ref[p] == |Refs(names, p)| + (if p in reserved then 1 else 0) {
        assert Refs(names, p) == {};
      }
    }

    // page_alloc; the page is zeroed when asked.
    method PageAlloc(zero: bool, ghost held: set<nat>) returns (p: Option<nat>)
      requires Valid(held)
      modifies this`freeList, this`table
      ensures p.None? <==> old(freeList) == []
      ensures p.None? ==> freeList == old(freeList) && table == old(table) && Valid(held)
      ensures p.Some? ==>
                && p.value !in held && p.value < |ref| && ref[p.value] == 0 && Unnamed(names, p.value)
                && p.value !in reserved
                && freeList == old(freeList)[1..] && p.value == old(freeList)[0]
                && table == (if zero then old(table)[p.value := seq(NPTE, k => Absent)] else old(table))
                && Valid(held + {p.value})
    {
      if freeList == [] { return None; }
      var q := freeList[0];
      ListAfterTake(ref, freeList, held, q, freeList[1..]);
      ZeroCountUnnamed(names, ref, reserved, q);
      freeList := freeList[1..];
      if zero {
        ClearPage(Mem(), names, q);
        table := table[q := seq(NPTE, k => Absent)];
      }
      p := Some(q);
    }

    // page_free of a page that was handed out and never referenced.
    method PageFree(p: nat, ghost held: set<nat>)
      requires Valid(held) && p in held
      modifies this`freeList
      ensures freeList == [p] + old(freeList) && Valid(held - {p})
    {
      assert ref[p] == 0;
      freeList := [p] + freeList;
    }

    // page_decref; the caller removes the reference itself.
    method PageDecref(p: nat)
      requires p < |ref| && ref[p] >= 1
      modifies this`ref, this`freeList
      ensures ref == old(ref)[p := old(ref)[p] - 1]
      ensures freeList == if ref[p] == 0 then [p] + old(freeList) else old(freeList)
    {
      ref := ref[p := ref[p] - 1];
      if ref[p] == 0 {
        freeList := [p] + freeList;
      }
    }

    // Every mapping but that of va is as in t, with its permissions.
    ghost predicate Kept(t: Tables, e: nat, va: Va)
      reads this
    {
      LeavesKept(t, Mem(), e, va.pdx, va.ptx)
    }

    // The part of pgdir_walk that makes a page table: a zeroed page becomes directory entry i of e.
    method AddTable(e: nat, i: nat, ghost held: set<nat>) returns (pt: Option<nat>)
      requires Valid(held) && e in pgdir && i < UPDE && Dir(e, i) !in names
      modifies this
      ensures Valid(held) && pgdir == old(pgdir)
      ensures pt.Some? <==> old(freeList) != []
      ensures pt.None? ==> Unchanged(old(ref), old(freeList), old(table), old(names))
      ensures pt.Some? ==> names == old(names)[Dir(e, i) := pt.value] && pt.value == old(freeList)[0]
                           && ref == old(ref)[pt.value := 1]
      ensures SameLeaves(old(Mem()), Mem())
      ensures pt.Some? ==> Elsewhere(old(table), table, pgdir[e], pt.value)
    {
      ghost var t := Mem();
      pt := PageAlloc(true, held);
      if pt.None? { return; }
      ghost var t1 := Mem();
      CleanPageKept(t, t1, names, pt.value);
      assert Elsewhere(t.table, t1.table, pgdir[e], pt.value);
      InstallTable(e, i, pt.value, held);
      SameLeavesTwice(t, t1, Mem());
      ElsewhereTwice(t.table, t1.table, table, pgdir[e], pt.value);
    }

    // The zeroed page q becomes directory entry i of e.
    method InstallTable(e: nat, i: nat, q: nat, ghost held: set<nat>)
      requires Valid(held + {q}) && q !in held && e in pgdir && i < UPDE && Dir(e, i) !in names && q !in reserved
      requires q < |ref| && ref[q] == 0 && Unnamed(names, q) && q in table && table[q] == seq(NPTE, k => Absent)
      modifies this`table, this`ref, this`names
      ensures Valid(held) && names == old(names)[Dir(e, i) := q] && ref == old(ref)[q := 1]
      ensures SameLeaves(old(Mem()), Mem()) && Elsewhere(old(table), table, pgdir[e], q)
    {
      LinkTable(Mem(), names, e, i, q, 7);
      CountUp(names, ref, reserved, Dir(e, i), q);
      ListAfterIncref(ref, freeList, held + {q}, q);
      assert held + {q} - {q} == held;
      TableLinked(Mem(), names, e, i, q);
      StoreTable(e, i, q);
    }

    // The stores of pgdir_walk.
    method StoreTable(e: nat, i: nat, q: nat)
      requires e in pgdir && pgdir[e] in table && i < |table[pgdir[e]]| && q < |ref|
      modifies this`table, this`ref, this`names
      ensures Mem() == SetEntry(old(Mem()), pgdir[e], i, Present(q, 7))
      ensures ref == old(ref)[q := old(ref)[q] + 1] && names == old(names)[Dir(e, i) := q]
    {
      table := table[pgdir[e] := table[pgdir[e]][i := Present(q, 7)]];
      ref := ref[q := ref[q] + 1];
      names := names[Dir(e, i) := q];
    }

    // pgdir_walk, returning the page that holds the page table of va.
    method PgdirWalk(e: nat, va: Va, create: bool, ghost held: set<nat>) returns (pt: Option<nat>)
      requires Valid(held) && e in pgdir && va.pdx < UPDE
      modifies this
      ensures Valid(held) && pgdir == old(pgdir)
      ensures pt.Some? ==> Dir(e, va.pdx) in names && names[Dir(e, va.pdx)] == pt.value
      ensures Dir(e, va.pdx) in old(names) ==> pt.Some? && Unchanged(old(ref), old(freeList), old(table), old(names))
      ensures Dir(e, va.pdx) !in old(names) ==> (pt.Some? <==> create && old(freeList) != [])
      ensures pt.None? ==> Unchanged(old(ref), old(freeList), old(table), old(names))
      ensures pt.Some? && Dir(e, va.pdx) !in old(names) ==>
                names == old(names)[Dir(e, va.pdx) := pt.value] && pt.value == old(freeList)[0]
                && ref == old(ref)[pt.value := 1]
      ensures SameLeaves(old(Mem()), Mem())
      ensures pt.Some? ==> Elsewhere(old(table), table, pgdir[e], pt.value)
    {
      assert Holds(Mem(), Root(e), pgdir[e]);
      var dir := table[pgdir[e]][va.pdx];
      assert dir == DirEntry(Mem(), e, va.pdx);
      if dir.Present? {
        assert Holds(Mem(), Dir(e, va.pdx), dir.page);
        return Some(dir.page);
      }
      assert Dir(e, va.pdx) !in names by {
        assert Dir(e, va.pdx) in names ==> Holds(Mem(), Dir(e, va.pdx), names[Dir(e, va.pdx)]);
      }
      if !create { return None; }
      pt := AddTable(e, va.pdx, held);
    }

    ghost predicate Unchanged(ref0: seq<nat>, freeList0: seq<nat>, table0: map<nat, seq<Entry>>, names0: map<Ref, nat>)
      reads this
    {
      ref == ref0 && freeList == freeList0 && table == table0 && names == names0
    }

    // page_lookup: the mapped page and its entry.
    method PageLookup(e: nat, va: Va, ghost held: set<nat>) returns (r: Option<Entry>)
      requires Valid(held) && e in pgdir && va.pdx < UPDE && va.ptx < NPTE
      ensures r.Some? <==> Leaf(e, va.pdx, va.ptx) in names
      ensures r.Some? ==> r.value == LeafEntry(Mem(), e, va.pdx, va.ptx)
      ensures r.Some? ==> r.value.Present? && r.value.page == names[Leaf(e, va.pdx, va.ptx)]
    {
      assert Holds(Mem(), Root(e), pgdir[e]);
      var dir := table[pgdir[e]][va.pdx];
      assert dir == DirEntry(Mem(), e, va.pdx);
      ghost var leaf := Leaf(e, va.pdx, va.ptx);
      assert leaf in names ==> Holds(Mem(), leaf, names[leaf]);
      if !dir.Present? { return None; }
      assert Holds(Mem(), Dir(e, va.pdx), dir.page);
      var entry := table[dir.page][va.ptx];
      assert entry == LeafEntry(Mem(), e, va.pdx, va.ptx);
      if !entry.Present? { return None; }
      assert Holds(Mem(), leaf, entry.page);
      r := Some(entry);
    }

    // page_remove: drops the reference at va, if any.
    method PageRemove(e: nat, va: Va, ghost held: set<nat>)
      requires Valid(held) && e in pgdir && va.pdx < UPDE && va.ptx < NPTE
      modifies this
      ensures Valid(held) && pgdir == old(pgdir)
      ensures names == old(names) - {Leaf(e, va.pdx, va.ptx)} && Kept(old(Mem()), e, va)
      ensures Dir(e, va.pdx) in names ==> Elsewhere(old(table), table, pgdir[e], names[Dir(e, va.pdx)])
    {
      var r := PageLookup(e, va, held);
      ghost var leaf := Leaf(e, va.pdx, va.ptx);
      if r.None? {
        assert names == names - {leaf};
        assert SameLeaves(old(Mem()), Mem());
        return;
      }
      var page := r.value.page;
      LeafCleared(Mem(), names, e, va.pdx, va.ptx);
      CountDown(names, ref, reserved, leaf);
      ListAfterDecref(ref, freeList, held, page);
      PageDecref(page);
      ClearLeaf(e, va, table[pgdir[e]][va.pdx].page);
    }

    // The store of page_remove.
    method ClearLeaf(e: nat, va: Va, pt: nat)
      requires pt in table && va.ptx < |table[pt]|
      modifies this`table, this`names
      ensures Mem() == SetEntry(old(Mem()), pt, va.ptx, Absent) && Elsewhere(old(table), table, pt, pt)
      ensures names == old(names) - {Leaf(e, va.pdx, va.ptx)}
    {
      table := table[pt := table[pt][va.ptx := Absent]];
      names := names - {Leaf(e, va.pdx, va.ptx)};
    }

    // The last two stores of page_insert: the words of the page and of its page table. The tables name what was asked for
    // exactly if the permissions change neither page number.
    method Link(e: nat, va: Va, pt: nat, page: nat, perm: nat)
      requires Describes(names, Mem()) && Formed(Mem(), names)
      requires Dir(e, va.pdx) in names && names[Dir(e, va.pdx)] == pt && va.ptx < NPTE
      requires forall r :: r in names && names[r] == page ==> r.Leaf?
      modifies this`table, this`names
      ensures names == old(names)[Leaf(e, va.pdx, va.ptx) := page]
      ensures Describes(names, Mem()) <==> Harmless(page, pt, perm)
      ensures Harmless(page, pt, perm) ==> Formed(Mem(), names) && As(old(Mem()), e, va, perm)
      ensures e in pgdir && Elsewhere(old(table), table, pgdir[e], pt)
    {
      InsertedWellDefined(Mem(), names, e, va.pdx);
      if Harmless(page, pt, perm) {
        InsertedMaps(Mem(), names, e, va.pdx, va.ptx, page, perm);
      } else {
        InsertedMisnames(Mem(), names, e, va.pdx, va.ptx, page, perm);
      }
      table := table[pt := table[pt][va.ptx := NewEntry(page, perm)]];
      table := table[pgdir[e] := table[pgdir[e]][va.pdx := Ored(table[pgdir[e]][va.pdx], perm)]];
      names := names[Leaf(e, va.pdx, va.ptx) := page];
      assert Mem() == Inserted(old(Mem()), e, va.pdx, va.ptx, pt, page, perm);
    }

    // Compared with t, va has these permissions and every other mapping is kept.
    ghost predicate As(t: Tables, e: nat, va: Va, perm: nat)
      reads this
    {
      Kept(t, e, va) && PermAt(Mem(), e, va) == BitOr(PTE_P, perm % PTE_BITS)
    }

    // A page that page_insert may be given: just allocated, or in use and not a directory or table.
    ghost predicate Mappable(page: nat, held: set<nat>)
      reads this
    {
      && page < |ref| && (page in held || ref[page] >= 1)
      && forall r :: r in names && names[r] == page ==> r.Leaf?
    }

    // page_insert once the page table pt of va is known to exist.
    method Place(e: nat, pp: Option<nat>, va: Va, pt: nat, perm: nat, ghost held: set<nat>)
      requires Valid(held) && e in pgdir && va.pdx < UPDE && va.ptx < NPTE
      requires Dir(e, va.pdx) in names && names[Dir(e, va.pdx)] == pt
      requires if pp.Some? then Mappable(pp.value, held) else Leaf(e, va.pdx, va.ptx) in names
      modifies this
      ensures pgdir == old(pgdir)
      ensures names == old(names)[Leaf(e, va.pdx, va.ptx) := if pp.Some? then pp.value
                                                             else old(names)[Leaf(e, va.pdx, va.ptx)]]
      ensures var page := names[Leaf(e, va.pdx, va.ptx)];
              && (Valid(if pp.Some? then held - {pp.value} else held) <==> Harmless(page, pt, perm))
              && (Harmless(page, pt, perm) ==> As(old(Mem()), e, va, perm))
      ensures Elsewhere(old(table), table, pgdir[e], pt)
    {
      ghost var leaf := Leaf(e, va.pdx, va.ptx);
      var there := PageLookup(e, va, held);
      if there.Some? && (pp.None? || there.value.page == pp.value) {
        assert names == names[leaf := there.value.page];
        LeafPageHasCount(held, leaf);
        Link(e, va, pt, there.value.page, perm);
        return;
      }
      Replace(e, va, pt, pp.value, perm, held);
    }

    // Maps another page than the one at va, if there is one.
    method Replace(e: nat, va: Va, pt: nat, page: nat, perm: nat, ghost held: set<nat>)
      requires Valid(held) && e in pgdir && va.pdx < UPDE && va.ptx < NPTE && Mappable(page, held)
      requires Dir(e, va.pdx) in names && names[Dir(e, va.pdx)] == pt
      requires Leaf(e, va.pdx, va.ptx) in names ==> names[Leaf(e, va.pdx, va.ptx)] != page
      modifies this
      ensures pgdir == old(pgdir) && names == old(names)[Leaf(e, va.pdx, va.ptx) := page]
      ensures Valid(held - {page}) <==> Harmless(page, pt, perm)
      ensures Harmless(page, pt, perm) ==> As(old(Mem()), e, va, perm)
      ensures Elsewhere(old(table), table, pgdir[e], pt)
    {
      ghost var leaf := Leaf(e, va.pdx, va.ptx);
      Evict(e, va, page, held);
      assert names[leaf := page] == old(names)[leaf := page];
      ghost var t1 := Mem();
      AddMapping(e, va, pt, page, perm, held);
      ElsewhereTwice(old(table), t1.table, table, pgdir[e], pt);
      if Harmless(page, pt, perm) { LeavesKeptTwice(old(Mem()), t1, Mem(), e, va.pdx, va.ptx); }
    }

    method AddMapping(e: nat, va: Va, pt: nat, page: nat, perm: nat, ghost held: set<nat>)
      requires Valid(held) && va.ptx < NPTE && Leaf(e, va.pdx, va.ptx) !in names
      requires Dir(e, va.pdx) in names && names[Dir(e, va.pdx)] == pt && Mappable(page, held)
      modifies this`ref, this`table, this`names
      ensures names == old(names)[Leaf(e, va.pdx, va.ptx) := page]
      ensures Valid(held - {page}) <==> Harmless(page, pt, perm)
      ensures Harmless(page, pt, perm) ==> As(old(Mem()), e, va, perm)
      ensures e in pgdir && Elsewhere(old(table), table, pgdir[e], pt)
    {
      AddCount(page, Leaf(e, va.pdx, va.ptx), held);
      Link(e, va, pt, page, perm);
    }

    method AddCount(page: nat, ghost leaf: Ref, ghost held: set<nat>)
      requires Valid(held) && leaf.Leaf? && leaf !in names && page < |ref| && (page in held || ref[page] >= 1)
      modifies this`ref
      ensures CountsRight(names[leaf := page], ref, reserved) && ListRight(ref, freeList, held - {page})
    {
      CountUp(names, ref, reserved, leaf, page);
      ListAfterIncref(ref, freeList, held, page);
      ref := ref[page := ref[page] + 1];
    }

    // Removes the page at va, if any, which is not the page keep.
    method Evict(e: nat, va: Va, keep: nat, ghost held: set<nat>)
      requires Valid(held) && e in pgdir && va.pdx < UPDE && va.ptx < NPTE && Mappable(keep, held)
      requires Leaf(e, va.pdx, va.ptx) in names ==> names[Leaf(e, va.pdx, va.ptx)] != keep
      modifies this
      ensures Valid(held) && Mappable(keep, held) && pgdir == old(pgdir)
      ensures names == old(names) - {Leaf(e, va.pdx, va.ptx)} && Kept(old(Mem()), e, va)
      ensures Dir(e, va.pdx) in names ==> Elsewhere(old(table), table, pgdir[e], names[Dir(e, va.pdx)])
    {
      if Leaf(e, va.pdx, va.ptx) in names { OtherCountsKept(names, Leaf(e, va.pdx, va.ptx), keep); }
      PageRemove(e, va, held);
    }

    lemma LeafPageHasCount(held: set<nat>, leaf: Ref)
      requires Valid(held) && leaf in names && leaf.Leaf?
      ensures ref[names[leaf]] >= 1 && names[leaf] !in held
      ensures forall r :: r in names && names[r] == names[leaf] ==> r.Leaf?
    {
      assert leaf in Refs(names, names[leaf]);
    }

    lemma OtherCountsKept(names: map<Ref, nat>, leaf: Ref, q: nat)
      requires leaf in names && names[leaf] != q
      ensures |Refs(names - {leaf}, q)| == |Refs(names, q)|
    {
      DropRef(names, leaf, q);
    }

    // page_insert; no page stands for the NULL that asks to remap the page already there.
    method PageInsert(e: nat, pp: Option<nat>, va: Va, perm: nat, ghost held: set<nat>) returns (ok: bool)
      requires Valid(held) && e in pgdir && va.pdx < UPDE && va.ptx < NPTE
      requires if pp.Some? then Mappable(pp.value, held) else Leaf(e, va.pdx, va.ptx) in names
      modifies this
      ensures pgdir == old(pgdir)
      ensures ok <==> Dir(e, va.pdx) in old(names) || old(freeList) != []
      ensures !ok ==> Valid(held) && Unchanged(old(ref), old(freeList), old(table), old(names))
      ensures ok ==> Dir(e, va.pdx) in names && Mapped(old(names), e, va, pp, names[Dir(e, va.pdx)])
      ensures ok ==> var page, pt := names[Leaf(e, va.pdx, va.ptx)], names[Dir(e, va.pdx)];
                     && (Valid(if pp.Some? then held - {pp.value} else held) <==> Harmless(page, pt, perm))
                     && (Harmless(page, pt, perm) ==> As(old(Mem()), e, va, perm))
                     && Elsewhere(old(table), table, pgdir[e], pt) && (pp.Some? ==> SameWords(old(table), table, page))
    {
      var pt := PgdirWalk(e, va, true, held);
      if pt.None? { return false; }
      ghost var t1 := Mem();
      assert names == old(names)[Dir(e, va.pdx) := pt.value];
      assert pp.Some? ==> pp.value != pgdir[e] by { assert Holds(Mem(), Root(e), pgdir[e]); }
      Place(e, pp, va, pt.value, perm, held);
      if Harmless(names[Leaf(e, va.pdx, va.ptx)], pt.value, perm) {
        SameThenKept(old(Mem()), t1, Mem(), e, va.pdx, va.ptx);
      }
      ElsewhereTwice(old(table), t1.table, table, pgdir[e], pt.value);
      ok := true;
    }

    // Compared with before, va maps pp (or what it mapped already) and its page table is pt.
    ghost predicate Mapped(before: map<Ref, nat>, e: nat, va: Va, pp: Option<nat>, pt: nat)
      reads this
    {
      && (Dir(e, va.pdx) in before ==> before[Dir(e, va.pdx)] == pt)
      && (pp.None? ==> Leaf(e, va.pdx, va.ptx) in before)
      && names == before[Dir(e, va.pdx) := pt]
                        [Leaf(e, va.pdx, va.ptx) := if pp.Some? then pp.value else before[Leaf(e, va.pdx, va.ptx)]]
    }

    // env_setup_vm: a zeroed page becomes the page directory of e.
    method EnvSetupVm(e: nat) returns (ok: bool)
      requires Valid({}) && e !in pgdir
      modifies this
      ensures Valid({})
      ensures ok <==> old(freeList) != []
      ensures !ok ==> pgdir == old(pgdir) && Unchanged(old(ref), old(freeList), old(table), old(names))
      ensures ok ==> names == old(names)[Root(e) := old(freeList)[0]] && pgdir == old(pgdir)[e := old(freeList)[0]]
    {
      var p := PageAlloc(true, {});
      if p.None? { return false; }
      InstallRoot(e, p.value);
      ok := true;
    }

    // The zeroed page q becomes the directory of e.
    method InstallRoot(e: nat, q: nat)
      requires Valid({} + {q}) && e !in pgdir && q !in reserved && q < |ref| && ref[q] == 0 && Unnamed(names, q)
      requires q in table && table[q] == seq(NPTE, k => Absent)
      modifies this`pgdir, this`ref, this`names
      ensures Valid({}) && names == old(names)[Root(e) := q] && pgdir == old(pgdir)[e := q]
    {
      LinkRoot(Mem(), names, e, q);
      assert Root(e) in names ==> Holds(Mem(), Root(e), names[Root(e)]);
      CountUp(names, ref, reserved, Root(e), q);
      ListAfterIncref(ref, freeList, {} + {q}, q);
      assert {} + {q} - {q} == {};
      pgdir := pgdir[e := q];
      ref := ref[q := ref[q] + 1];
      names := names[Root(e) := q];
    }

    // The inner loop of env_free.
    method UnmapTable(e: nat, i: nat, ghost before: map<Ref, nat>)
      requires Valid({}) && e in pgdir && i < UPDE && names == Remaining(before, e, i, 0)
      modifies this
      ensures Valid({}) && pgdir == old(pgdir) && names == Remaining(before, e, i, NPTE)
    {
      for j := 0 to NPTE
        invariant Valid({}) && pgdir == old(pgdir) && names == Remaining(before, e, i, j)
      {
        RemainingLeaf(before, e, i, j);
        var r := PageLookup(e, Va(i, j), {});
        if r.Some? {
          PageRemove(e, Va(i, j), {});
        } else {
          assert names == names - {Leaf(e, i, j)};
        }
      }
    }

    // Unlinks the emptied page table of directory entry i and drops its page.
    method DropTable(e: nat, i: nat)
      requires Valid({}) && Dir(e, i) in names && forall j :: Leaf(e, i, j) !in names
      modifies this
      ensures Valid({}) && pgdir == old(pgdir) && names == old(names) - {Dir(e, i)}
    {
      DirHasRoot(Mem(), names, e, i);
      UnlinkTable(Mem(), names, e, i);
      CountDown(names, ref, reserved, Dir(e, i));
      var pa := table[pgdir[e]][i].page;
      ListAfterDecref(ref, freeList, {}, pa);
      table := table[pgdir[e] := table[pgdir[e]][i := Absent]];
      PageDecref(pa);
      names := names - {Dir(e, i)};
    }

    // One round of the outer loop of env_free.
    method FreeTable(e: nat, i: nat, ghost before: map<Ref, nat>)
      requires Valid({}) && e in pgdir && i < UPDE && InRange(before) && names == Remaining(before, e, i, 0)
      modifies this
      ensures Valid({}) && pgdir == old(pgdir) && names == Remaining(before, e, i + 1, 0)
    {
      assert Holds(Mem(), Root(e), pgdir[e]);
      var dir := table[pgdir[e]][i];
      assert dir == DirEntry(Mem(), e, i);
      if !dir.Present? {
        assert Dir(e, i) in names ==> Holds(Mem(), Dir(e, i), names[Dir(e, i)]);
        assert Dir(e, i) in before ==> Dir(e, i) in names;
        RemainingSkip(before, e, i);
        return;
      }
      assert Holds(Mem(), Dir(e, i), dir.page);
      UnmapTable(e, i, before);
      RemainingDir(before, e, i);
      DropTable(e, i);
    }

    // Drops the emptied page directory.
    method DropDirectory(e: nat)
      requires Valid({}) && e in pgdir && forall i :: Dir(e, i) !in names
      modifies this
      ensures Valid({}) && pgdir == old(pgdir) - {e} && names == old(names) - {Root(e)}
    {
      UnlinkRoot(Mem(), names, e);
      CountDown(names, ref, reserved, Root(e));
      var pa := pgdir[e];
      ListAfterDecref(ref, freeList, {}, pa);
      pgdir := pgdir - {e};
      PageDecref(pa);
      names := names - {Root(e)};
    }

    // env_free: afterwards no reference of e is left, and every page that only e used is free.
    method EnvFree(e: nat)
      requires Valid({}) && e in pgdir
      modifies this
      ensures Valid({}) && pgdir == old(pgdir) - {e}
      ensures names == map r | r in old(names) && r.env != e :: old(names)[r]
    {
      ghost var before := names;
      DescribedInRange(Mem(), names);
      assert Remaining(names, e, 0, 0) == names;
      for i := 0 to UPDE
        invariant Valid({}) && pgdir == old(pgdir) && names == Remaining(before, e, i, 0)
      {
        FreeTable(e, i, before);
      }
      RemainingRoot(before, e);
      DropDirectory(e);
    }

    // sys_page_alloc, between environments the caller may change.
    method SysPageAlloc(e: nat, va: Va, perm: nat) returns (st: Status)
      requires Valid({}) && e in pgdir && va.ptx < NPTE
      modifies this
      ensures pgdir == old(pgdir)
      ensures st == EInval <==> va.pdx >= UPDE
      ensures st != Ok ==> Valid({}) && names == old(names) && ref == old(ref) && freeList == old(freeList)
      ensures st == Ok ==>
                && old(freeList) != [] && Dir(e, va.pdx) in names
                && Mapped(old(names), e, va, Some(old(freeList)[0]), names[Dir(e, va.pdx)])
                && InsertedRight(old(Mem()), e, va, old(freeList)[0], perm)
                && old(freeList)[0] in table && table[old(freeList)[0]] == seq(NPTE, k => Absent)
      ensures st == ENoMem <==>
                va.pdx < UPDE && |old(freeList)| < if Dir(e, va.pdx) in old(names) then 1 else 2
    {
      if va.pdx >= UPDE { return EInval; }
      var page := PageAlloc(true, {});
      if page.None? { return ENoMem; }
      assert {} + {page.value} - {page.value} == {};
      UserBits(perm);
      LowBitsAreSafe(perm);
      ghost var t1 := Mem();
      CleanPageKept(old(Mem()), t1, names, page.value);
      var ok := PageInsert(e, Some(page.value), va, BitOr(perm, PTE_U), {} + {page.value});
      if !ok {
        PageFree(page.value, {} + {page.value});
        assert freeList == old(freeList);
        return ENoMem;
      }
      if Harmless(page.value, names[Dir(e, va.pdx)], perm) { SameThenKept(old(Mem()), t1, Mem(), e, va.pdx, va.ptx); }
      st := Ok;
    }

    // After a system call has mapped page at va: what it did is right exactly if the permissions change neither the number
    // of the page nor that of its page table, as those below 4096 never do.
    ghost predicate InsertedRight(t: Tables, e: nat, va: Va, page: nat, perm: nat)
      reads this
    {
      && Dir(e, va.pdx) in names
      && (Valid({}) <==> Harmless(page, names[Dir(e, va.pdx)], perm))
      && (Valid({}) ==> As(t, e, va, BitOr(perm, PTE_U)))
      && (perm < PTE_BITS ==> Valid({}))
    }

    // sys_page_map, between environments the caller may change. Source address 0 stands for the zero page.
    method SysPageMap(srcEnv: nat, src: Va, dstEnv: nat, dst: Va, perm: nat) returns (st: Status)
      requires Valid({}) && srcEnv in pgdir && dstEnv in pgdir && src.ptx < NPTE && dst.ptx < NPTE
      requires 0 in reserved
      modifies this
      ensures pgdir == old(pgdir)
      ensures st == EInval <==>
                (|| src.pdx >= UPDE || dst.pdx >= UPDE
                 || (src == Va(0, 0) && Writable(perm))
                 || (src != Va(0, 0) && (Leaf(srcEnv, src.pdx, src.ptx) !in old(names)
                                         || (Writable(perm) && !Writable(PermAt(old(Mem()), srcEnv, src))))))
      ensures st != Ok ==> Valid({}) && Unchanged(old(ref), old(freeList), old(table), old(names))
      ensures st == ENoMem <==> st != EInval && Dir(dstEnv, dst.pdx) !in old(names) && old(freeList) == []
      ensures st == Ok ==>
                var page := if src == Va(0, 0) then 0
                            else if Leaf(srcEnv, src.pdx, src.ptx) in old(names)
                            then old(names)[Leaf(srcEnv, src.pdx, src.ptx)] else 0;
                && Dir(dstEnv, dst.pdx) in names && Mapped(old(names), dstEnv, dst, Some(page), names[Dir(dstEnv, dst.pdx)])
                && InsertedRight(old(Mem()), dstEnv, dst, page, perm) && SameWords(old(table), table, page)
    {
      if src.pdx >= UPDE || dst.pdx >= UPDE { return EInval; }
      var page;
      if src == Va(0, 0) {
        page := 0;
        if Writable(perm) { return EInval; }
      } else {
        var r := PageLookup(srcEnv, src, {});
        if r.None? { return EInval; }
        LeafPageHasCount({}, Leaf(srcEnv, src.pdx, src.ptx));
        page := r.value.page;
        if !Writable(r.value.perm) && Writable(perm) { return EInval; }
      }
      UserBits(perm);
      LowBitsAreSafe(perm);
      var ok := PageInsert(dstEnv, Some(page), dst, BitOr(perm, PTE_U), {});
      assert {} - {page} == {};
      st := if ok then Ok else ENoMem;
    }

    // The page part of sys_ipc_try_send: the sender's page at src appears at dst in the receiver.
    method IpcTransfer(sender: nat, src: Va, receiver: nat, dst: Va, perm: nat) returns (st: Status)
      requires Valid({}) && sender in pgdir && receiver in pgdir
      requires src.pdx < UPDE && dst.pdx < UPDE && src.ptx < NPTE && dst.ptx < NPTE
      modifies this
      ensures pgdir == old(pgdir)
      ensures st == EInval <==>
                Leaf(sender, src.pdx, src.ptx) !in old(names)
                || (Writable(perm) && !Writable(PermAt(old(Mem()), sender, src)))
      ensures st != Ok ==> Valid({}) && Unchanged(old(ref), old(freeList), old(table), old(names))
      ensures st == ENoMem <==> st != EInval && Dir(receiver, dst.pdx) !in old(names) && old(freeList) == []
      ensures st == Ok ==>
                && Leaf(sender, src.pdx, src.ptx) in old(names) && Dir(receiver, dst.pdx) in names
                && Mapped(old(names), receiver, dst, Some(old(names)[Leaf(sender, src.pdx, src.ptx)]),
                          names[Dir(receiver, dst.pdx)])
                && InsertedRight(old(Mem()), receiver, dst, old(names)[Leaf(sender, src.pdx, src.ptx)], perm)
                && SameWords(old(table), table, old(names)[Leaf(sender, src.pdx, src.ptx)])
    {
      var r := PageLookup(sender, src, {});
      if r.None? { return EInval; }
      LeafPageHasCount({}, Leaf(sender, src.pdx, src.ptx));
      if !Writable(r.value.perm) && Writable(perm) { return EInval; }
      UserBits(perm);
      LowBitsAreSafe(perm);
      var ok := PageInsert(receiver, Some(r.value.page), dst, BitOr(perm, PTE_U), {});
      assert {} - {r.value.page} == {};
      st := if ok then Ok else ENoMem;
    }

    // sys_page_unmap.
    method SysPageUnmap(e: nat, va: Va) returns (st: Status)
      requires Valid({}) && e in pgdir && va.ptx < NPTE
      modifies this
      ensures Valid({}) && pgdir == old(pgdir)
      ensures st == if va.pdx >= UPDE then EInval else Ok
      ensures names == if st == Ok then old(names) - {Leaf(e, va.pdx, va.ptx)} else old(names)
    {
      if va.pdx >= UPDE { return EInval; }
      PageRemove(e, va, {});
      st := Ok;
    }
  }

  // PTE_U is below the page number.
  lemma UserBits(perm: nat)
    ensures BitOr(perm, PTE_U) / PTE_BITS == perm / PTE_BITS
    ensures forall page, pt :: Harmless(page, pt, BitOr(perm, PTE_U)) <==> Harmless(page, pt, perm)
  {
    OrOfParts(perm, PTE_U);
    BitOrZero(perm / PTE_BITS);
  }

  lemma LowBitsAreSafe(perm: nat)
    ensures perm < PTE_BITS ==> forall page, pt :: Harmless(page, pt, perm)
  {
    forall page, pt ensures perm < PTE_BITS ==> Harmless(page, pt, perm) {
      if perm < PTE_BITS { LowBitsHarmless(page, pt, perm); }
    }
  }

  lemma CleanPageKept(t: Tables, t1: Tables, names: map<Ref, nat>, q: nat)
    requires Describes(names, t) && Formed(t, names) && Unnamed(names, q) && t1 == Zeroed(t, q)
    ensures SameLeaves(t, t1)
  {
    forall f: nat, k: nat, l: nat ensures LeafKept(t, t1, f, k, l) { ClearPageKeeps(t, names, q, f, k, l); }
  }

  // Linking an empty page as a page table leaves every mapping as it was.
  lemma TableLinked(t: Tables, names: map<Ref, nat>, e: nat, i: nat, q: nat)
    requires Describes(names, t) && Formed(t, names) && e in t.pgdir && i < UPDE && Dir(e, i) !in names
    requires Unnamed(names, q) && q in t.table && t.table[q] == seq(NPTE, k => Absent)
    ensures SameLeaves(t, SetEntry(t, t.pgdir[e], i, Present(q, 7)))
  {
    var t' := SetEntry(t, t.pgdir[e], i, Present(q, 7));
    forall f: nat, k: nat, l: nat ensures LeafKept(t, t', f, k, l) {
      LinkTableKeeps(t, names, e, i, q, 7, f, k, l);
    }
  }

  // The permission bits of a user mapping.
  ghost function PermAt(t: Tables, e: nat, va: Va): nat {
    var x := LeafEntry(t, e, va.pdx, va.ptx);
    if x.Present? then x.perm else 0
  }

  // After env_free, the free list is what it must be: exactly the unreserved pages that some other environment does not
  // reference.
  lemma NothingLeaks(names: map<Ref, nat>, ref: seq<nat>, reserved: set<nat>, freeList: seq<nat>, p: nat)
    requires CountsRight(names, ref, reserved) && ListRight(ref, freeList, {}) && p < |ref|
    ensures p in freeList <==> p !in reserved && Unnamed(names, p)
  {
    if Unnamed(names, p) {
      assert Refs(names, p) == {};
    } else {
      var r :| r in names && names[r] == p;
      assert r in Refs(names, p);
    }
  }
}
