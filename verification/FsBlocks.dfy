/**
  The block pointers of fs/fs.c. A file record has direct pointers and one indirect block whose entries are further
  pointers; 0 means no block. A slot is a place that can hold a pointer. Every invariant is a for-all over a named
  predicate about one slot, one block or one record, which proofs instantiate by name.
 */
module FsBlocks {

  const BLKSIZE: nat := 4096
  const NDIRECT: nat := 10
  const NINDIRECT: nat := 1024
  const MAXBLOCKS: nat := NDIRECT + NINDIRECT
  const BLKFILES: nat := 16

  // Where a struct File lies: in the super block, or as one of the records of a directory block.
  datatype Loc = Root | Rec(block: nat, index: nat)

  datatype File = File(name: string, size: nat, isDir: bool, direct: seq<nat>, indirect: nat)

  const ZERO_FILE: File := File("", 0, false, [0, 0, 0, 0, 0, 0, 0, 0, 0, 0], 0)

  datatype Slot = Direct(loc: Loc, i: nat) | Indirect(loc: Loc) | Entry(loc: Loc, i: nat)

  // The records and the contents of the indirect blocks.
  datatype Disk = Disk(files: map<Loc, File>, table: map<nat, seq<nat>>)

  // ----- What the slots hold -----

  function PointerAt(d: Disk, r: Slot): nat {
    if r.loc !in d.files then 0
    else
      var f := d.files[r.loc];
      match r
      case Direct(_, i) => if i < NDIRECT && i < |f.direct| then f.direct[i] else 0
      case Indirect(_) => f.indirect
      case Entry(_, i) =>
        if f.indirect != 0 && f.indirect in d.table && i < NINDIRECT && i < |d.table[f.indirect]|
        then d.table[f.indirect][i] else 0
  }

  ghost predicate FormedAt(d: Disk, l: Loc) {
    l in d.files ==>
      && |d.files[l].direct| == NDIRECT
      && (d.files[l].indirect != 0 ==>
            d.files[l].indirect in d.table && |d.table[d.files[l].indirect]| == NINDIRECT)
  }

  ghost predicate Formed(d: Disk) {
    forall l :: FormedAt(d, l)
  }

  // The map gives, for each block named by a slot, the one slot that names it.
  ghost predicate Owned(d: Disk, owner: map<nat, Slot>) {
    && (forall b: nat :: OwnsAt(d, owner, b))
    && (forall r: Slot :: NamedAt(d, owner, r))
  }

  ghost predicate OwnsAt(d: Disk, owner: map<nat, Slot>, b: nat) {
    b in owner ==> b != 0 && PointerAt(d, owner[b]) == b
  }

  ghost predicate NamedAt(d: Disk, owner: map<nat, Slot>, r: Slot) {
    PointerAt(d, r) != 0 ==> PointerAt(d, r) in owner && owner[PointerAt(d, r)] == r
  }

  function BlocksFor(size: nat): nat {
    (size + BLKSIZE - 1) / BLKSIZE
  }

  // The slot of a file's n-th block.
  function SlotOf(l: Loc, n: nat): Slot {
    if n < NDIRECT then Direct(l, n) else Entry(l, n - NDIRECT)
  }

  // No pointer lies at or past the end of its file, and files with few blocks have no indirect block.
  ghost predicate WithinSize(d: Disk) {
    && (forall l :: SizeFits(d, l))
    && (forall l, k: nat :: EmptyPast(d, l, k))
  }

  ghost predicate SizeFits(d: Disk, l: Loc) {
    l in d.files && BlocksFor(d.files[l].size) <= NDIRECT ==> PointerAt(d, Indirect(l)) == 0
  }

  ghost predicate EmptyPast(d: Disk, l: Loc, k: nat) {
    l in d.files && BlocksFor(d.files[l].size) <= k < MAXBLOCKS ==> PointerAt(d, SlotOf(l, k)) == 0
  }

  // ----- Changing one slot -----

  // The slot is there to be written.
  ghost predicate Writable(d: Disk, r: Slot) {
    && r.loc in d.files
    && match r
       case Direct(_, i) => i < NDIRECT
       case Indirect(_) => true
       case Entry(l, i) => i < NINDIRECT && d.files[l].indirect != 0
  }

  function SetPointer(d: Disk, r: Slot, b: nat): Disk
    requires Writable(d, r) && FormedAt(d, r.loc)
  {
    var f := d.files[r.loc];
    match r
    case Direct(l, i) => d.(files := d.files[l := f.(direct := f.direct[i := b])])
    case Indirect(l) => d.(files := d.files[l := f.(indirect := b)])
    case Entry(_, i) =>
      var entries: seq<nat> := d.table[f.indirect][i := b];
      d.(table := d.table[f.indirect := entries])
  }

  // d' differs from d in the pointer of slot r only.
  ghost predicate OneSlot(d: Disk, d': Disk, r: Slot, b: nat) {
    forall q: Slot :: SlotAfter(d, d', r, b, q)
  }

  ghost predicate SlotAfter(d: Disk, d': Disk, r: Slot, b: nat, q: Slot) {
    PointerAt(d', q) == if q == r then b else PointerAt(d, q)
  }

  // Two files never share an indirect block.
  lemma IndirectApart(d: Disk, owner: map<nat, Slot>, l: Loc, m: Loc)
    requires Owned(d, owner) && l in d.files && m in d.files && l != m && d.files[l].indirect != 0
    ensures d.files[l].indirect != d.files[m].indirect
  {
    assert NamedAt(d, owner, Indirect(l)) && NamedAt(d, owner, Indirect(m));
  }

  lemma SetPointerAt(d: Disk, owner: map<nat, Slot>, r: Slot, b: nat, q: Slot)
    requires Owned(d, owner) && !r.Indirect? && Writable(d, r) && FormedAt(d, r.loc)
    ensures SlotAfter(d, SetPointer(d, r, b), r, b, q)
  {
    if r.Entry? && q.loc in d.files && q.loc != r.loc { IndirectApart(d, owner, r.loc, q.loc); }
  }

  lemma SetPointerOneSlot(d: Disk, owner: map<nat, Slot>, r: Slot, b: nat)
    requires Owned(d, owner) && !r.Indirect? && Writable(d, r) && Formed(d)
    ensures FormedAt(d, r.loc) && OneSlot(d, SetPointer(d, r, b), r, b) && Formed(SetPointer(d, r, b))
  {
    assert FormedAt(d, r.loc);
    var d' := SetPointer(d, r, b);
    forall q: Slot ensures SlotAfter(d, d', r, b, q) { SetPointerAt(d, owner, r, b, q); }
    forall l ensures FormedAt(d', l) { assert FormedAt(d, l); }
  }

  // A fresh zeroed indirect block changes the indirect pointer only.
  function AddIndirect(d: Disk, l: Loc, b: nat): Disk
    requires l in d.files
  {
    Disk(d.files[l := d.files[l].(indirect := b)], d.table[b := seq(NINDIRECT, i => 0)])
  }

  lemma AddIndirectOneSlot(d: Disk, owner: map<nat, Slot>, l: Loc, b: nat)
    requires Formed(d) && Owned(d, owner) && l in d.files && d.files[l].indirect == 0 && b != 0 && b !in owner
    ensures OneSlot(d, AddIndirect(d, l, b), Indirect(l), b) && Formed(AddIndirect(d, l, b))
  {
    var d' := AddIndirect(d, l, b);
    forall q: Slot ensures SlotAfter(d, d', Indirect(l), b, q) { assert NamedAt(d, owner, Indirect(q.loc)); }
    forall m ensures FormedAt(d', m) { assert FormedAt(d, m) && NamedAt(d, owner, Indirect(m)); }
  }

  // Forgetting an indirect block whose entries are all empty.
  lemma DropIndirectOneSlot(d: Disk, l: Loc)
    requires Formed(d) && l in d.files
    requires forall i: nat :: i < NINDIRECT ==> PointerAt(d, Entry(l, i)) == 0
    ensures FormedAt(d, l) && OneSlot(d, SetPointer(d, Indirect(l), 0), Indirect(l), 0)
    ensures Formed(SetPointer(d, Indirect(l), 0))
  {
    assert FormedAt(d, l);
    var d' := SetPointer(d, Indirect(l), 0);
    forall q: Slot ensures SlotAfter(d, d', Indirect(l), 0, q) {
      if q.Entry? && q.loc == l && q.i < NINDIRECT { assert PointerAt(d, Entry(l, q.i)) == 0; }
    }
    forall m ensures FormedAt(d', m) { assert FormedAt(d, m); }
  }

  // ----- Ownership -----

  lemma OwnFresh(d: Disk, d': Disk, owner: map<nat, Slot>, r: Slot, b: nat)
    requires Owned(d, owner) && OneSlot(d, d', r, b) && PointerAt(d, r) == 0 && b != 0 && b !in owner
    ensures Owned(d', owner[b := r])
  {
    var owner' := owner[b := r];
    forall x: nat ensures OwnsAt(d', owner', x) {
      assert OwnsAt(d, owner, x) && SlotAfter(d, d', r, b, r);
      if x in owner { assert SlotAfter(d, d', r, b, owner[x]); }
    }
    forall q: Slot ensures NamedAt(d', owner', q) {
      assert SlotAfter(d, d', r, b, q) && NamedAt(d, owner, q);
    }
  }

  lemma Disown(d: Disk, d': Disk, owner: map<nat, Slot>, r: Slot)
    requires Owned(d, owner) && OneSlot(d, d', r, 0) && PointerAt(d, r) != 0
    ensures PointerAt(d, r) in owner && owner[PointerAt(d, r)] == r && Owned(d', owner - {PointerAt(d, r)})
  {
    var b := PointerAt(d, r);
    var owner' := owner - {b};
    assert NamedAt(d, owner, r);
    forall x: nat ensures OwnsAt(d', owner', x) {
      assert OwnsAt(d, owner, x);
      if x in owner { assert SlotAfter(d, d', r, 0, owner[x]); }
    }
    forall q: Slot ensures NamedAt(d', owner', q) {
      assert SlotAfter(d, d', r, 0, q) && NamedAt(d, owner, q);
    }
  }

  lemma Unowned(d: Disk, owner: map<nat, Slot>, b: nat, r: Slot)
    requires Owned(d, owner) && b !in owner && b != 0
    ensures PointerAt(d, r) != b
  {
    assert NamedAt(d, owner, r);
  }

  // ----- Sizes -----

  // d' has the files of d, up to pointers and names, and perhaps some unused records.
  ghost predicate SameFiles(d: Disk, d': Disk) {
    forall l :: FileAfter(d, d', l)
  }

  ghost predicate FileAfter(d: Disk, d': Disk, l: Loc) {
    l in d'.files ==>
      if l in d.files then d'.files[l].size == d.files[l].size && d'.files[l].isDir == d.files[l].isDir
      else d'.files[l] == ZERO_FILE
  }

  // The slot belongs to a block below the end of its file.
  ghost predicate Fits(d: Disk, r: Slot) {
    && r.loc in d.files
    && var n := BlocksFor(d.files[r.loc].size);
       match r
       case Direct(_, i) => i < n && i < NDIRECT
       case Indirect(_) => NDIRECT < n
       case Entry(_, i) => i + NDIRECT < n && i < NINDIRECT
  }

  lemma WithinAfter(d: Disk, d': Disk, r: Slot, b: nat)
    requires WithinSize(d) && OneSlot(d, d', r, b) && SameFiles(d, d') && (b != 0 ==> Fits(d, r))
    ensures WithinSize(d')
  {
    forall l ensures SizeFits(d', l) {
      assert SizeFits(d, l) && FileAfter(d, d', l) && SlotAfter(d, d', r, b, Indirect(l));
    }
    forall l, k: nat ensures EmptyPast(d', l, k) {
      assert EmptyPast(d, l, k) && FileAfter(d, d', l) && SlotAfter(d, d', r, b, SlotOf(l, k));
    }
  }
}
