/**
  The code of lib/fork.c: duppage, fork and pgfault, with the system calls they make, on a mutable machine.
  Each method is proved to produce the state that CowMemory gives for it.
 */
module ForkCode {
  import opened CowMemory
  import opened EagerFork

  datatype Perm = Perm(w: bool, cow: bool, share: bool)

  class Machine {
    var pt: map<Slot, Pte>
    var mem: map<nat, Bytes>
    var handler: map<nat, Handler>

    ghost function View(): State
      reads this
    {
      State(pt, mem, handler)
    }

    // sys_page_map between environments that the caller may change; false stands for -E_INVAL.
    method SysPageMap(src: Slot, dst: Slot, perm: Perm) returns (ok: bool)
      modifies this`pt
      ensures ok <==> if src.va == 0 then !perm.w else src in old(pt) && (perm.w ==> old(pt)[src].w)
      ensures pt == if ok
                    then var page := if src.va == 0 then ZERO_PAGE else old(pt)[src].page;
                         old(pt)[dst := Pte(page, perm.w, perm.cow, perm.share)]
                    else old(pt)
    {
      var page;
      if src.va == 0 {
        page := ZERO_PAGE;
        if perm.w { return false; }
      } else {
        if src !in pt { return false; }
        page := pt[src].page;
        if !pt[src].w && perm.w { return false; }
      }
      pt := pt[dst := Pte(page, perm.w, perm.cow, perm.share)];
      ok := true;
    }

    // sys_page_alloc with permission PTE_W, given the page that page_alloc hands out.
    method SysPageAlloc(dst: Slot, spare: nat)
      modifies this`pt, this`mem
      ensures pt == old(pt)[dst := Pte(spare, true, false, false)]
      ensures mem == old(mem)[spare := seq(PGSIZE, i => 0)]
    {
      pt := pt[dst := Pte(spare, true, false, false)];
      mem := mem[spare := seq(PGSIZE, i => 0)];
    }

    // duppage: false stands for its panics, which leave everything as it was.
    method DupPage(p: nat, child: nat, va: nat) returns (ok: bool)
      requires p != child && Slot(p, va) in pt
      modifies this`pt
      ensures ok <==> va != 0 || !old(pt)[Slot(p, va)].share || !old(pt)[Slot(p, va)].w
      ensures pt == if ok
                    then old(pt)[Slot(child, va) := DupPte(old(pt)[Slot(p, va)], va)]
                                [Slot(p, va) := OwnPte(old(pt)[Slot(p, va)], va)]
                    else old(pt)
    {
      var e := pt[Slot(p, va)];
      var perm := Perm(e.w, e.cow, e.share);
      if perm.share {
        ok := SysPageMap(Slot(p, va), Slot(child, va), perm);
        return;
      }
      if perm.w || perm.cow {
        perm := perm.(w := false);
        perm := perm.(cow := true);
        ok := SysPageMap(Slot(p, va), Slot(child, va), perm);
        if !ok { return; }
        ok := SysPageMap(Slot(p, va), Slot(p, va), perm);
        return;
      }
      ok := SysPageMap(Slot(p, va), Slot(child, va), perm);
    }

    // The page-table part of fork, from a fresh child to one that can be made runnable; false stands for a panic.
    method Fork(p: nat, child: nat, spare: nat) returns (ok: bool)
      requires Backed(View()) && CanFork(View(), p, child) && PageUnused(View(), spare)
      modifies this`pt, this`mem
      ensures ok <==> Forkable(old(View()), p)
      ensures View() == if ok then CowFork(old(View()), p, child, spare) else old(View())
    {
      ghost var c := View();
      ok := true;
      for va := 0 to USTACKTOP
        invariant mem == c.mem && handler == c.handler && (va > 0 ==> Forkable(c, p))
        invariant PartlyForked(c, pt, p, child, va)
      {
        PartStep(c, pt, p, child, va, va + 1);
        if Slot(p, va) in pt {
          ok := DupPage(p, child, va);
          if !ok {
            NothingDone(c, pt, p, child);
            return;
          }
        }
      }
      PartDone(c, pt, p, child, spare);
      SysPageAlloc(Slot(child, UXSTACK), spare);
      ok := true;
    }

    // pgfault, undisturbed: a write to a copy-on-write page gets a private writable copy of it; anything else is a panic.
    // What was mapped at PFTEMP is lost.
    method PgFault(e: nat, va: nat, spare: nat, write: bool) returns (handled: bool)
      requires Backed(View()) && va != PFTEMP && PageUnused(View(), spare)
      modifies this`pt, this`mem
      ensures handled <==> write && Slot(e, va) in old(pt) && old(pt)[Slot(e, va)].cow
      ensures !handled ==> View() == old(View())
      ensures handled ==>
                && pt == (old(pt) - {Slot(e, PFTEMP)})[Slot(e, va) := Pte(spare, true, false, false)]
                && mem == old(mem)[spare := old(mem)[old(pt)[Slot(e, va)].page]]
    {
      handled := write && Slot(e, va) in pt && pt[Slot(e, va)].cow;
      if !handled { return; }
      var temp := Slot(e, PFTEMP);
      SysPageAlloc(temp, spare);
      mem := mem[pt[temp].page := mem[pt[Slot(e, va)].page]];
      var ok := SysPageMap(temp, Slot(e, va), Perm(true, false, false));
      assert ok;
      pt := pt - {temp};
    }
  }

  // What is at s when the loop of fork has dealt with the addresses below va.
  ghost predicate PartAt(c: State, pt: map<Slot, Pte>, p: nat, child: nat, va: nat, s: Slot) {
    var t := Slot(p, s.va);
    if s.env == child then
      (s in pt <==> s.va < va && t in c.pt) && (s in pt && t in c.pt ==> pt[s] == DupPte(c.pt[t], s.va))
    else
      && (s in pt <==> s in c.pt)
      && (s in pt && s in c.pt ==> pt[s] == if s.env == p && s.va < va then OwnPte(c.pt[s], s.va) else c.pt[s])
  }

  ghost predicate PartlyForked(c: State, pt: map<Slot, Pte>, p: nat, child: nat, va: nat) {
    forall s: Slot :: PartAt(c, pt, p, child, va, s)
  }

  // The page tables after the loop's turn for va.
  function Turned(pt: map<Slot, Pte>, p: nat, child: nat, va: nat): map<Slot, Pte> {
    if Slot(p, va) !in pt then pt
    else pt[Slot(child, va) := DupPte(pt[Slot(p, va)], va)][Slot(p, va) := OwnPte(pt[Slot(p, va)], va)]
  }

  lemma PartStep(c: State, pt: map<Slot, Pte>, p: nat, child: nat, va: nat, next: nat)
    requires CanFork(c, p, child) && PartlyForked(c, pt, p, child, va) && next == va + 1
    ensures Slot(p, va) in pt <==> Slot(p, va) in c.pt
    ensures Slot(p, va) in pt && Slot(p, va) in c.pt ==> pt[Slot(p, va)] == c.pt[Slot(p, va)]
    ensures PartlyForked(c, Turned(pt, p, child, va), p, child, next)
  {
    assert PartAt(c, pt, p, child, va, Slot(p, va));
    forall s: Slot ensures PartAt(c, Turned(pt, p, child, va), p, child, next, s) {
      assert PartAt(c, pt, p, child, va, s);
    }
  }

  // Only address 0 makes duppage panic, and it comes first.
  lemma NothingDone(c: State, pt: map<Slot, Pte>, p: nat, child: nat)
    requires CanFork(c, p, child) && PartlyForked(c, pt, p, child, 0)
    ensures pt == c.pt
  {
    forall s: Slot ensures s in pt <==> s in c.pt ensures s in pt && s in c.pt ==> pt[s] == c.pt[s] {
      assert PartAt(c, pt, p, child, 0, s);
    }
  }

  lemma PartDone(c: State, pt: map<Slot, Pte>, p: nat, child: nat, spare: nat)
    requires Backed(c) && CanFork(c, p, child) && PageUnused(c, spare) && PartlyForked(c, pt, p, child, USTACKTOP)
    ensures pt[Slot(child, UXSTACK) := Pte(spare, true, false, false)] == CowFork(c, p, child, spare).pt
  {
    var pt' := pt[Slot(child, UXSTACK) := Pte(spare, true, false, false)];
    var after := CowFork(c, p, child, spare).pt;
    forall s: Slot
      ensures s in pt' <==> s in after
      ensures s in pt' && s in after ==> pt'[s] == after[s]
    {
      assert PartAt(c, pt, p, child, USTACKTOP, s);
      CowForkAt(c, p, child, spare, s);
    }
  }
}
