/**
  Shortening a directory in use. file_truncate_blocks gives up the blocks of a directory without looking at the records
  in them: what those records name is named by nobody afterwards.
 */
module FsCuts {
  import opened FsBlocks
  import opened FsState
  import opened FileSystem

  // ----- Slots that lose their blocks -----

  // The slot belongs to a record in one of these blocks.
  ghost predicate Lost(blocks: set<nat>, q: Slot) {
    q.loc.Rec? && q.loc.block in blocks
  }

  // The slots of own are cleared, and the records in blocks are gone.
  ghost predicate CutTo(d: Disk, d': Disk, own: set<Slot>, blocks: set<nat>) {
    forall q: Slot :: AfterCut(d, d', own, blocks, q)
  }

  ghost predicate AfterCut(d: Disk, d': Disk, own: set<Slot>, blocks: set<nat>, q: Slot) {
    PointerAt(d', q) == if q in own || Lost(blocks, q) then 0 else PointerAt(d, q)
  }

  // The blocks that the slots name.
  function Named(d: Disk, own: set<Slot>): set<nat> {
    set q | q in own && PointerAt(d, q) != 0 :: PointerAt(d, q)
  }

  // No record in blocks names a block.
  ghost predicate NoneIn(d: Disk, blocks: set<nat>) {
    forall q: Slot :: Lost(blocks, q) ==> PointerAt(d, q) == 0
  }

  // Every used block has one owner, when the blocks of free are free.
  ghost predicate Accounted(d: Disk, size: nat, reserved: set<nat>, free: set<nat>) {
    exists o: map<nat, Slot> :: AccountedBy(d, o, size, reserved, free)
  }

  ghost predicate AccountedBy(d: Disk, o: map<nat, Slot>, size: nat, reserved: set<nat>, free: set<nat>) {
    Owned(d, o) && Partition(size, reserved, free, o.Keys, {})
  }

  // What is left of the owners.
  ghost function Left(owner: map<nat, Slot>, freed: set<nat>): map<nat, Slot> {
    map b | b in owner && b !in freed :: owner[b]
  }

  lemma LeftOwns(d: Disk, owner: map<nat, Slot>, d': Disk, own: set<Slot>, blocks: set<nat>, b: nat)
    requires Owned(d, owner) && CutTo(d, d', own, blocks) && NoneIn(d, blocks)
    ensures OwnsAt(d', Left(owner, Named(d, own)), b)
  {
    assert OwnsAt(d, owner, b);
    if b in owner { assert AfterCut(d, d', own, blocks, owner[b]); }
  }

  lemma LeftNames(d: Disk, owner: map<nat, Slot>, d': Disk, own: set<Slot>, blocks: set<nat>, q: Slot)
    requires Owned(d, owner) && CutTo(d, d', own, blocks)
    ensures NamedAt(d', Left(owner, Named(d, own)), q)
  {
    assert AfterCut(d, d', own, blocks, q) && NamedAt(d, owner, q);
    forall r | r in own && PointerAt(d, r) != 0 ensures PointerAt(d, r) != PointerAt(d, q) || r == q {
      assert NamedAt(d, owner, r);
    }
  }

  lemma LeftPlaces(d: Disk, owner: map<nat, Slot>, own: set<Slot>, size: nat, reserved: set<nat>, free: set<nat>, b: nat)
    requires Owned(d, owner) && Partition(size, reserved, free, owner.Keys, {})
    ensures PlaceOf(size, reserved, free + Named(d, own), Left(owner, Named(d, own)).Keys, {}, b)
  {
    assert PlaceOf(size, reserved, free, owner.Keys, {}, b);
    forall r | r in own && PointerAt(d, r) != 0 ensures PointerAt(d, r) in owner { assert NamedAt(d, owner, r); }
  }

  lemma AccountedIfNone(d: Disk, owner: map<nat, Slot>, d': Disk, own: set<Slot>, blocks: set<nat>, size: nat,
                        reserved: set<nat>, free: set<nat>)
    requires Owned(d, owner) && Partition(size, reserved, free, owner.Keys, {}) && CutTo(d, d', own, blocks)
    requires NoneIn(d, blocks)
    ensures Accounted(d', size, reserved, free + Named(d, own))
  {
    var o := Left(owner, Named(d, own));
    forall b: nat ensures OwnsAt(d', o, b) && PlaceOf(size, reserved, free + Named(d, own), o.Keys, {}, b) {
      LeftOwns(d, owner, d', own, blocks, b);
      LeftPlaces(d, owner, own, size, reserved, free, b);
    }
    forall q: Slot ensures NamedAt(d', o, q) { LeftNames(d, owner, d', own, blocks, q); }
    assert AccountedBy(d', o, size, reserved, free + Named(d, own));
  }

  // What a lost slot named nobody names any more.
  lemma Unnamed(d: Disk, owner: map<nat, Slot>, d': Disk, own: set<Slot>, blocks: set<nat>, q: Slot, s: Slot)
    requires Owned(d, owner) && CutTo(d, d', own, blocks) && Lost(blocks, q) && PointerAt(d, q) != 0
    ensures PointerAt(d', s) != PointerAt(d, q)
  {
    assert AfterCut(d, d', own, blocks, s) && NamedAt(d, owner, s) && NamedAt(d, owner, q);
  }

  lemma NoneIfAccounted(d: Disk, owner: map<nat, Slot>, d': Disk, own: set<Slot>, blocks: set<nat>, size: nat,
                        reserved: set<nat>, free: set<nat>, o: map<nat, Slot>, q: Slot)
    requires Owned(d, owner) && Partition(size, reserved, free, owner.Keys, {}) && CutTo(d, d', own, blocks)
    requires (forall r :: r in own ==> !Lost(blocks, r)) && AccountedBy(d', o, size, reserved, free + Named(d, own))
    requires Lost(blocks, q)
    ensures PointerAt(d, q) == 0
  {
    var x := PointerAt(d, q);
    assert x != 0 && x in o ==> PointerAt(d', o[x]) != x by {
      if x != 0 && x in o { Unnamed(d, owner, d', own, blocks, q, o[x]); }
    }
    assert NamedAt(d, owner, q) && OwnsAt(d', o, x);
    assert x !in Named(d, own) by {
      forall r | r in own && PointerAt(d, r) == x && x != 0 ensures r == q { assert NamedAt(d, owner, r); }
    }
    assert PlaceOf(size, reserved, free, owner.Keys, {}, x);
    assert PlaceOf(size, reserved, free + Named(d, own), o.Keys, {}, x);
  }

  // ----- file_truncate_blocks of a directory -----

  // No other file has the indirect block of l, and records have the indices that records have.
  ghost predicate Steady(d: Disk, l: Loc) {
    && l in d.files && d.files[l].isDir && FormedAt(d, l)
    && (forall m :: m in d.files && m != l && d.files[l].indirect != 0 ==> d.files[m].indirect != d.files[l].indirect)
    && (forall m :: m in d.files && m.Rec? ==> m.index < BLKFILES)
  }

  lemma GoodIsSteady(c: Contents, owner: map<nat, Slot>, l: Loc)
    requires Good(c, owner) && l in c.disk.files && c.disk.files[l].isDir
    ensures Steady(c.disk, l)
  {
    assert FormedAt(c.disk, l);
    forall m | m in c.disk.files && m != l && c.disk.files[l].indirect != 0
      ensures c.disk.files[m].indirect != c.disk.files[l].indirect
    {
      IndirectApart(c.disk, owner, l, m);
    }
    forall m | m in c.disk.files && m.Rec? ensures m.index < BLKFILES { assert RecordAt(c.disk, owner, m.block, m.index); }
  }

  // The blocks that the loop gives up, from block k of the directory on.
  function GivenUp(d: Disk, l: Loc, k: nat, n: nat): set<nat>
    decreases n - k
  {
    if k >= n then {}
    else (if PointerAt(d, SlotOf(l, k)) != 0 then {PointerAt(d, SlotOf(l, k))} else {}) + GivenUp(d, l, k + 1, n)
  }

  function Slots(l: Loc, k: nat, n: nat): set<Slot>
    decreases n - k
  {
    if k >= n then {} else {SlotOf(l, k)} + Slots(l, k + 1, n)
  }

  // The loop of file_truncate_blocks, over blocks k to n, makes c' of c.
  ghost predicate CutRun(c: Contents, l: Loc, k: nat, n: nat, c': Contents)
    decreases n - k
  {
    if k >= n then c' == c
    else if PointerAt(c.disk, SlotOf(l, k)) == 0 then CutRun(c, l, k + 1, n, c')
    else Writable(c.disk, SlotOf(l, k)) && FormedAt(c.disk, l) && CutRun(DropBlock(c, l, k), l, k + 1, n, c')
  }

  lemma DropPointer(c: Contents, l: Loc, k: nat, q: Slot)
    requires Steady(c.disk, l) && Writable(c.disk, SlotOf(l, k))
    ensures var r := SlotOf(l, k);
            PointerAt(DropBlock(c, l, k).disk, q) ==
            if q == r || (q.loc.Rec? && q.loc.block == PointerAt(c.disk, r)) then 0 else PointerAt(c.disk, q)
  {
    var d, r := c.disk, SlotOf(l, k);
    assert PointerAt(SetPointer(d, r, 0), q) == if q == r then 0 else PointerAt(d, q);
    ShrunkPointer(SetPointer(d, r, 0), PointerAt(d, r), q);
  }

  lemma ShrunkPointer(d: Disk, b: nat, q: Slot)
    ensures PointerAt(Shrunk(d, true, b), q) ==
            if q.loc.Rec? && q.loc.block == b && q.loc.index < BLKFILES then 0 else PointerAt(d, q)
  {
  }

  lemma DropSteady(c: Contents, l: Loc, k: nat)
    requires Steady(c.disk, l) && Writable(c.disk, SlotOf(l, k))
    requires l.Rec? ==> l.block != PointerAt(c.disk, SlotOf(l, k))
    ensures Steady(DropBlock(c, l, k).disk, l)
  {
  }

  lemma {:induction false} SameGivenUp(d: Disk, d': Disk, l: Loc, k: nat, n: nat)
    requires forall j: nat :: k <= j < n ==> PointerAt(d', SlotOf(l, j)) == PointerAt(d, SlotOf(l, j))
    ensures GivenUp(d', l, k, n) == GivenUp(d, l, k, n)
    decreases n - k
  {
    if k < n { SameGivenUp(d, d', l, k + 1, n); }
  }

  lemma {:induction false} SlotsFrom(l: Loc, k: nat, n: nat, q: Slot)
    ensures q in Slots(l, k, n) ==> exists j: nat :: k <= j < n && q == SlotOf(l, j)
    decreases n - k
  {
    if k < n { SlotsFrom(l, k + 1, n, q); }
  }

  lemma RestGivenUp(c: Contents, l: Loc, k: nat, n: nat)
    requires Steady(c.disk, l) && Writable(c.disk, SlotOf(l, k))
    requires l.Rec? ==> l.block != PointerAt(c.disk, SlotOf(l, k))
    ensures GivenUp(DropBlock(c, l, k).disk, l, k + 1, n) == GivenUp(c.disk, l, k + 1, n)
  {
    var d, d1 := c.disk, DropBlock(c, l, k).disk;
    forall j: nat | k + 1 <= j < n ensures PointerAt(d1, SlotOf(l, j)) == PointerAt(d, SlotOf(l, j)) {
      DropPointer(c, l, k, SlotOf(l, j));
    }
    SameGivenUp(d, d1, l, k + 1, n);
  }

  lemma OneMoreCut(c: Contents, l: Loc, k: nat, n: nat, d': Disk, q: Slot)
    requires Steady(c.disk, l) && Writable(c.disk, SlotOf(l, k)) && PointerAt(c.disk, SlotOf(l, k)) != 0 && k < n
    requires AfterCut(DropBlock(c, l, k).disk, d', Slots(l, k + 1, n), GivenUp(c.disk, l, k + 1, n), q)
    ensures AfterCut(c.disk, d', Slots(l, k, n), GivenUp(c.disk, l, k, n), q)
  {
    DropPointer(c, l, k, q);
  }

  // The loop clears the slots and takes the records of the blocks along.
  lemma {:induction false} CutRunIs(c: Contents, l: Loc, k: nat, n: nat, c': Contents)
    requires Steady(c.disk, l) && CutRun(c, l, k, n, c') && (l.Rec? ==> l.block !in GivenUp(c.disk, l, k, n))
    ensures CutTo(c.disk, c'.disk, Slots(l, k, n), GivenUp(c.disk, l, k, n)) && Steady(c'.disk, l)
    decreases n - k
  {
    var d, d' := c.disk, c'.disk;
    if k >= n {
      forall q: Slot ensures AfterCut(d, d', Slots(l, k, n), GivenUp(d, l, k, n), q) {}
    } else if PointerAt(d, SlotOf(l, k)) == 0 {
      CutRunIs(c, l, k + 1, n, c');
      forall q: Slot ensures AfterCut(d, d', Slots(l, k, n), GivenUp(d, l, k, n), q) {
        assert AfterCut(d, d', Slots(l, k + 1, n), GivenUp(d, l, k + 1, n), q);
      }
    } else {
      var c1 := DropBlock(c, l, k);
      DropSteady(c, l, k);
      RestGivenUp(c, l, k, n);
      CutRunIs(c1, l, k + 1, n, c');
      forall q: Slot ensures AfterCut(d, d', Slots(l, k, n), GivenUp(d, l, k, n), q) {
        assert AfterCut(c1.disk, d', Slots(l, k + 1, n), GivenUp(d, l, k + 1, n), q);
        OneMoreCut(c, l, k, n, d', q);
      }
    }
  }

  // The end of file_truncate_blocks: the indirect block goes when it is not needed any more.
  function WithoutIndirect(d: Disk, l: Loc, m: nat): Disk
    requires l in d.files && FormedAt(d, l)
  {
    if m <= NDIRECT && d.files[l].indirect != 0 then SetPointer(d, Indirect(l), 0) else d
  }

  // The slots that a directory of n blocks loses when it is cut to m.
  function Cleared(l: Loc, m: nat, n: nat): set<Slot> {
    Slots(l, m, n) + if m <= NDIRECT then {Indirect(l)} else {}
  }

  lemma {:induction false} InSlots(l: Loc, k: nat, n: nat, j: nat)
    requires k <= j < n
    ensures SlotOf(l, j) in Slots(l, k, n)
    decreases n - k
  {
    if k < j { InSlots(l, k + 1, n, j); }
  }

  // After the loop no entry of the indirect block is in use, if it is to go.
  lemma EntriesCleared(d: Disk, d1: Disk, l: Loc, m: nat, n: nat, i: nat)
    requires CutTo(d, d1, Slots(l, m, n), GivenUp(d, l, m, n)) && m <= NDIRECT
    requires forall k: nat :: n <= k < MAXBLOCKS ==> PointerAt(d, SlotOf(l, k)) == 0
    ensures PointerAt(d1, Entry(l, i)) == 0
  {
    assert Entry(l, i) == SlotOf(l, NDIRECT + i);
    assert AfterCut(d, d1, Slots(l, m, n), GivenUp(d, l, m, n), Entry(l, i));
    if NDIRECT + i < n { InSlots(l, m, n, NDIRECT + i); }
  }

  lemma TruncatedIs(d: Disk, d1: Disk, l: Loc, m: nat, n: nat)
    requires CutTo(d, d1, Slots(l, m, n), GivenUp(d, l, m, n)) && l in d1.files && FormedAt(d1, l)
    requires forall k: nat :: n <= k < MAXBLOCKS ==> PointerAt(d, SlotOf(l, k)) == 0
    ensures CutTo(d, WithoutIndirect(d1, l, m), Cleared(l, m, n), GivenUp(d, l, m, n))
  {
    var d' := WithoutIndirect(d1, l, m);
    forall q: Slot ensures AfterCut(d, d', Cleared(l, m, n), GivenUp(d, l, m, n), q) {
      assert AfterCut(d, d1, Slots(l, m, n), GivenUp(d, l, m, n), q);
      SlotsFrom(l, m, n, q);
      if q.Entry? && q.loc == l && m <= NDIRECT { EntriesCleared(d, d1, l, m, n, q.i); }
    }
  }

  // file_truncate_blocks cuts a directory to m blocks. Every used block still has an owner exactly if no record in the
  // blocks given up names a block; otherwise what they name is lost.
  lemma CutLeaksUnless(c: Contents, owner: map<nat, Slot>, l: Loc, m: nat, c1: Contents, size: nat, reserved: set<nat>,
                       free: set<nat>)
    requires Good(c, owner) && Partition(size, reserved, free, owner.Keys, {})
    requires l in c.disk.files && c.disk.files[l].isDir
    requires var n := BlocksFor(c.disk.files[l].size);
             CutRun(c, l, m, n, c1) && (l.Rec? ==> l.block !in GivenUp(c.disk, l, m, n))
    ensures l in c1.disk.files && FormedAt(c1.disk, l)
    ensures var n := BlocksFor(c.disk.files[l].size);
            Accounted(WithoutIndirect(c1.disk, l, m), size, reserved, free + Named(c.disk, Cleared(l, m, n)))
            <==> NoneIn(c.disk, GivenUp(c.disk, l, m, n))
  {
    var d, n := c.disk, BlocksFor(c.disk.files[l].size);
    var own, blocks := Cleared(l, m, n), GivenUp(d, l, m, n);
    GoodIsSteady(c, owner, l);
    CutRunIs(c, l, m, n, c1);
    forall k: nat | n <= k < MAXBLOCKS ensures PointerAt(d, SlotOf(l, k)) == 0 { assert EmptyPast(d, l, k); }
    TruncatedIs(d, c1.disk, l, m, n);
    var d' := WithoutIndirect(c1.disk, l, m);
    if NoneIn(d, blocks) { AccountedIfNone(d, owner, d', own, blocks, size, reserved, free); }
    forall r | r in own ensures !Lost(blocks, r) { SlotsFrom(l, m, n, r); }
    if o: map<nat, Slot> :| AccountedBy(d', o, size, reserved, free + Named(d, own)) {
      forall q: Slot | Lost(blocks, q) ensures PointerAt(d, q) == 0 {
        NoneIfAccounted(d, owner, d', own, blocks, size, reserved, free, o, q);
      }
    }
  }
}
