/**
  The file system as a value: records, indirect blocks and data bytes, what keeps them in order, and what each
  change of one pointer, one size or one data block does to the bytes of every file.
 */
module FsState {
  import opened FsBlocks

  datatype Contents = Contents(disk: Disk, data: map<nat, seq<int>>)

  function Zeroes(): seq<int> {
    seq(BLKSIZE, i => 0)
  }

  // The byte of file l at position p; positions without a block read as zero.
  ghost function ByteAt(c: Contents, l: Loc, p: nat): int {
    if p / BLKSIZE >= MAXBLOCKS then 0 else BlockByte(c, PointerAt(c.disk, SlotOf(l, p / BLKSIZE)), p % BLKSIZE)
  }

  ghost function BlockByte(c: Contents, b: nat, k: nat): int {
    if b != 0 && b in c.data && k < |c.data[b]| then c.data[b][k] else 0
  }

  ghost predicate SameBytes(c: Contents, c': Contents) {
    forall l, p: nat :: ByteAt(c', l, p) == ByteAt(c, l, p)
  }

  // Every data block has its bytes.
  ghost predicate BackedAt(c: Contents, r: Slot) {
    !r.Indirect? && PointerAt(c.disk, r) != 0 ==>
      PointerAt(c.disk, r) in c.data && |c.data[PointerAt(c.disk, r)]| == BLKSIZE
  }

  // Block b holds directory records.
  ghost predicate DirBlock(d: Disk, owner: map<nat, Slot>, b: nat) {
    b in owner && !owner[b].Indirect? && owner[b].loc in d.files && d.files[owner[b].loc].isDir
  }

  // The file records are the root and those in the blocks of directories.
  ghost predicate RecordAt(d: Disk, owner: map<nat, Slot>, b: nat, j: nat) {
    Rec(b, j) in d.files <==> j < BLKFILES && DirBlock(d, owner, b)
  }

  ghost predicate RecordsOk(d: Disk, owner: map<nat, Slot>) {
    && Root in d.files && d.files[Root].isDir
    && forall b: nat, j: nat :: RecordAt(d, owner, b, j)
  }

  // Records without a name are unused.
  ghost predicate UnusedAt(d: Disk, l: Loc) {
    l in d.files && l.Rec? && d.files[l].name == "" ==> d.files[l] == ZERO_FILE
  }

  // One owner per block, no pointer past the end of its file, every data block with its bytes.
  ghost predicate Good(c: Contents, owner: map<nat, Slot>) {
    && Formed(c.disk) && Owned(c.disk, owner) && WithinSize(c.disk) && RecordsOk(c.disk, owner)
    && (forall r: Slot :: BackedAt(c, r))
    && (forall l :: UnusedAt(c.disk, l))
  }

  // Blocks keep their owners; others may get one.
  ghost predicate OwnersKept(owner: map<nat, Slot>, owner': map<nat, Slot>) {
    forall b :: b in owner ==> b in owner' && owner'[b] == owner[b]
  }

  // Pointers of files other than l are as before.
  ghost predicate ElsewhereAt(d: Disk, d': Disk, l: Loc, q: Slot) {
    q.loc != l ==> PointerAt(d', q) == PointerAt(d, q)
  }

  // ----- One slot changes -----

  // The data of c, with block b zeroed if it is now a data block.
  ghost predicate DataAfter(c: Contents, c': Contents, r: Slot, b: nat) {
    c'.data == if b != 0 && !r.Indirect? then c.data[b := Zeroes()] else c.data
  }

  // The bytes of the block at slot r are gone or new, and zero; all others are as before.
  lemma ByteAfter(c: Contents, c': Contents, owner: map<nat, Slot>, r: Slot, b: nat, l: Loc, p: nat)
    requires Owned(c.disk, owner) && OneSlot(c.disk, c'.disk, r, b) && DataAfter(c, c', r, b) && b !in owner
    ensures ByteAt(c', l, p) ==
            if p / BLKSIZE < MAXBLOCKS && SlotOf(l, p / BLKSIZE) == r then 0 else ByteAt(c, l, p)
  {
    if p / BLKSIZE < MAXBLOCKS {
      var q := SlotOf(l, p / BLKSIZE);
      assert SlotAfter(c.disk, c'.disk, r, b, q);
      if b != 0 { Unowned(c.disk, owner, b, q); }
    }
  }

  lemma LinkKeepsBytes(c: Contents, c': Contents, owner: map<nat, Slot>, r: Slot, b: nat)
    requires Owned(c.disk, owner) && OneSlot(c.disk, c'.disk, r, b) && DataAfter(c, c', r, b) && b !in owner
    requires r.Indirect? || PointerAt(c.disk, r) == 0
    ensures SameBytes(c, c')
  {
    forall l, p: nat ensures ByteAt(c', l, p) == ByteAt(c, l, p) { ByteAfter(c, c', owner, r, b, l, p); }
  }

  lemma BackedAfter(c: Contents, c': Contents, r: Slot, b: nat)
    requires OneSlot(c.disk, c'.disk, r, b) && DataAfter(c, c', r, b)
    requires forall q: Slot :: BackedAt(c, q)
    ensures forall q: Slot :: BackedAt(c', q)
  {
    forall q: Slot ensures BackedAt(c', q) { assert BackedAt(c, q) && SlotAfter(c.disk, c'.disk, r, b, q); }
  }

  // Record l is in use.
  ghost predicate Live(d: Disk, l: Loc) {
    l in d.files && (l.Rec? ==> d.files[l].name != "")
  }

  // Apart from the pointers of l and the coming and going of unused records, the files are as before.
  ghost predicate FilesAfter(d: Disk, d': Disk, l: Loc) {
    && l in d.files && l in d'.files && d'.files[l].name == d.files[l].name
    && d'.files[l].size == d.files[l].size && d'.files[l].isDir == d.files[l].isDir
    && forall m :: OtherAfter(d, d', l, m)
  }

  ghost predicate OtherAfter(d: Disk, d': Disk, l: Loc, m: Loc) {
    m in d'.files && m != l ==> if m in d.files then d'.files[m] == d.files[m] else d'.files[m] == ZERO_FILE
  }

  // Only unused records disappear.
  ghost predicate GoneAt(d: Disk, d': Disk, m: Loc) {
    m in d.files && m !in d'.files ==> d.files[m] == ZERO_FILE
  }

  lemma RestAfter(d: Disk, d': Disk, l: Loc)
    requires FilesAfter(d, d', l) && Live(d, l)
    requires forall m :: UnusedAt(d, m)
    ensures SameFiles(d, d') && Live(d', l) && forall m :: UnusedAt(d', m)
  {
    forall m ensures FileAfter(d, d', m) { assert OtherAfter(d, d', l, m); }
    forall m ensures UnusedAt(d', m) { assert UnusedAt(d, m) && OtherAfter(d, d', l, m); }
  }

  // Slot r, empty so far, comes to name the fresh block b.
  lemma LinkGood(c: Contents, c': Contents, owner: map<nat, Slot>, r: Slot, b: nat)
    requires Good(c, owner) && Live(c.disk, r.loc) && Fits(c.disk, r) && b != 0 && b !in owner
    requires PointerAt(c.disk, r) == 0 && OneSlot(c.disk, c'.disk, r, b) && DataAfter(c, c', r, b)
    requires Formed(c'.disk) && FilesAfter(c.disk, c'.disk, r.loc) && RecordsOk(c'.disk, owner[b := r])
    ensures Good(c', owner[b := r]) && SameBytes(c, c')
  {
    RestAfter(c.disk, c'.disk, r.loc);
    OwnFresh(c.disk, c'.disk, owner, r, b);
    WithinAfter(c.disk, c'.disk, r, b);
    BackedAfter(c, c', r, b);
    LinkKeepsBytes(c, c', owner, r, b);
  }

  // Slot r gives up its block.
  lemma UnlinkGood(c: Contents, c': Contents, owner: map<nat, Slot>, r: Slot)
    requires Good(c, owner) && Live(c.disk, r.loc) && PointerAt(c.disk, r) != 0
    requires OneSlot(c.disk, c'.disk, r, 0) && c'.data == c.data
    requires Formed(c'.disk) && FilesAfter(c.disk, c'.disk, r.loc)
    requires RecordsOk(c'.disk, owner - {PointerAt(c.disk, r)})
    ensures PointerAt(c.disk, r) in owner && Good(c', owner - {PointerAt(c.disk, r)})
  {
    RestAfter(c.disk, c'.disk, r.loc);
    Disown(c.disk, c'.disk, owner, r);
    WithinAfter(c.disk, c'.disk, r, 0);
    BackedAfter(c, c', r, 0);
  }

  // ----- Indirect blocks -----

  // A change of an indirect pointer leaves the directory blocks as they are.
  lemma RecordsAfterIndirect(d: Disk, d': Disk, owner: map<nat, Slot>, owner': map<nat, Slot>, l: Loc)
    requires RecordsOk(d, owner) && d.files.Keys == d'.files.Keys && FilesAfter(d, d', l)
    requires forall b: nat :: DirBlock(d, owner, b) <==> DirBlock(d, owner', b)
    ensures RecordsOk(d', owner')
  {
    assert OtherAfter(d, d', l, Root);
    forall b: nat, j: nat ensures RecordAt(d', owner', b, j) {
      assert RecordAt(d, owner, b, j);
      if b in owner' { assert OtherAfter(d, d', l, owner'[b].loc); }
    }
  }

  lemma LinkIndirectGood(c: Contents, owner: map<nat, Slot>, l: Loc, b: nat)
    requires Good(c, owner) && Live(c.disk, l) && c.disk.files[l].indirect == 0 && b != 0 && b !in owner
    requires BlocksFor(c.disk.files[l].size) > NDIRECT
    ensures var c' := c.(disk := AddIndirect(c.disk, l, b));
            && Good(c', owner[b := Indirect(l)]) && SameBytes(c, c') && OneSlot(c.disk, c'.disk, Indirect(l), b)
            && Live(c'.disk, l)
  {
    var c' := c.(disk := AddIndirect(c.disk, l, b));
    AddIndirectOneSlot(c.disk, owner, l, b);
    RecordsAfterIndirect(c.disk, c'.disk, owner, owner[b := Indirect(l)], l);
    LinkGood(c, c', owner, Indirect(l), b);
  }

  lemma DropIndirectGood(c: Contents, owner: map<nat, Slot>, l: Loc)
    requires Good(c, owner) && Live(c.disk, l) && c.disk.files[l].indirect != 0
    requires forall i: nat :: i < NINDIRECT ==> PointerAt(c.disk, Entry(l, i)) == 0
    ensures FormedAt(c.disk, l)
    ensures var c' := c.(disk := SetPointer(c.disk, Indirect(l), 0));
            && c.disk.files[l].indirect in owner && Good(c', owner - {c.disk.files[l].indirect})
            && SameBytes(c, c') && OneSlot(c.disk, c'.disk, Indirect(l), 0) && Live(c'.disk, l)
  {
    DropIndirectOneSlot(c.disk, l);
    var c' := c.(disk := SetPointer(c.disk, Indirect(l), 0));
    assert PointerAt(c.disk, Indirect(l)) == c.disk.files[l].indirect;
    assert NamedAt(c.disk, owner, Indirect(l));
    RecordsAfterIndirect(c.disk, c'.disk, owner, owner - {c.disk.files[l].indirect}, l);
    UnlinkGood(c, c', owner, Indirect(l));
    assert OwnsAt(c.disk, owner, 0);
    LinkKeepsBytes(c, c', owner, Indirect(l), 0);
  }

  // ----- Data blocks -----

  // The first n records of a directory block, unused.
  function Records(b: nat, n: nat): (m: map<Loc, File>)
    ensures forall l :: l in m <==> l.Rec? && l.block == b && l.index < n
    ensures forall l :: l in m ==> m[l] == ZERO_FILE
  {
    if n == 0 then map[] else Records(b, n - 1)[Rec(b, n - 1) := ZERO_FILE]
  }

  // The block of a directory brings its records with it.
  function Grown(d: Disk, dir: bool, b: nat): Disk {
    if dir then d.(files := d.files + Records(b, BLKFILES)) else d
  }

  function Shrunk(d: Disk, dir: bool, b: nat): Disk {
    if dir then d.(files := d.files - Records(b, BLKFILES).Keys) else d
  }

  lemma GrownSame(d: Disk, dir: bool, b: nat)
    requires Formed(d) && forall j: nat :: Rec(b, j) !in d.files
    ensures Formed(Grown(d, dir, b)) && forall q: Slot :: PointerAt(Grown(d, dir, b), q) == PointerAt(d, q)
  {
    var d' := Grown(d, dir, b);
    forall l ensures FormedAt(d', l) { assert FormedAt(d, l); }
  }

  lemma ShrunkSame(d: Disk, dir: bool, b: nat)
    requires Formed(d) && forall q: Slot :: q.loc.Rec? && q.loc.block == b ==> PointerAt(d, q) == 0
    ensures Formed(Shrunk(d, dir, b)) && forall q: Slot :: PointerAt(Shrunk(d, dir, b), q) == PointerAt(d, q)
  {
    var d' := Shrunk(d, dir, b);
    forall l ensures FormedAt(d', l) { assert FormedAt(d, l); }
  }

  // Block b becomes block n of file l.
  function AddBlock(c: Contents, l: Loc, n: nat, b: nat): Contents
    requires Writable(c.disk, SlotOf(l, n)) && FormedAt(c.disk, l)
  {
    Contents(Grown(SetPointer(c.disk, SlotOf(l, n), b), c.disk.files[l].isDir, b), c.data[b := Zeroes()])
  }

  lemma NoRecords(d: Disk, owner: map<nat, Slot>, b: nat)
    requires RecordsOk(d, owner) && b !in owner
    ensures forall j: nat :: Rec(b, j) !in d.files
  {
    forall j: nat ensures Rec(b, j) !in d.files { assert RecordAt(d, owner, b, j); }
  }

  lemma AddBlockOneSlot(c: Contents, owner: map<nat, Slot>, l: Loc, n: nat, b: nat)
    requires Formed(c.disk) && Owned(c.disk, owner) && RecordsOk(c.disk, owner)
    requires Writable(c.disk, SlotOf(l, n)) && b !in owner
    ensures FormedAt(c.disk, l)
    ensures var d' := AddBlock(c, l, n, b).disk;
            OneSlot(c.disk, d', SlotOf(l, n), b) && Formed(d') && FilesAfter(c.disk, d', l)
  {
    var d, r, dir := c.disk, SlotOf(l, n), c.disk.files[l].isDir;
    SetPointerOneSlot(d, owner, r, b);
    var d1 := SetPointer(d, r, b);
    NoRecords(d, owner, b);
    GrownSame(d1, dir, b);
    var d' := Grown(d1, dir, b);
    forall q: Slot ensures SlotAfter(d, d', r, b, q) { assert SlotAfter(d, d1, r, b, q); }
    forall m ensures OtherAfter(d, d', l, m) {}
  }

  lemma RecordsAfterAdd(d: Disk, d': Disk, owner: map<nat, Slot>, r: Slot, b: nat)
    requires Owned(d, owner) && RecordsOk(d, owner) && !r.Indirect? && FilesAfter(d, d', r.loc) && b !in owner
    requires d'.files.Keys == d.files.Keys + if d.files[r.loc].isDir then Records(b, BLKFILES).Keys else {}
    ensures RecordsOk(d', owner[b := r])
  {
    var owner' := owner[b := r];
    assert OtherAfter(d, d', r.loc, Root);
    NoRecords(d, owner, b);
    forall x: nat, j: nat ensures RecordAt(d', owner', x, j) {
      assert RecordAt(d, owner, x, j) && OwnsAt(d, owner, x);
      if x in owner { assert OtherAfter(d, d', r.loc, owner[x].loc); }
    }
  }

  lemma AddBlockGood(c: Contents, owner: map<nat, Slot>, l: Loc, n: nat, b: nat)
    requires Good(c, owner) && Live(c.disk, l) && n < BlocksFor(c.disk.files[l].size)
    requires Writable(c.disk, SlotOf(l, n)) && PointerAt(c.disk, SlotOf(l, n)) == 0 && b != 0 && b !in owner
    ensures FormedAt(c.disk, l)
    ensures var c' := AddBlock(c, l, n, b);
            && Good(c', owner[b := SlotOf(l, n)]) && SameBytes(c, c') && OneSlot(c.disk, c'.disk, SlotOf(l, n), b)
            && Live(c'.disk, l) && FilesAfter(c.disk, c'.disk, l) && c.disk.files.Keys <= c'.disk.files.Keys
  {
    AddBlockOneSlot(c, owner, l, n, b);
    RecordsAfterAdd(c.disk, AddBlock(c, l, n, b).disk, owner, SlotOf(l, n), b);
    LinkGood(c, AddBlock(c, l, n, b), owner, SlotOf(l, n), b);
  }

  // Block n of file l is given up.
  function DropBlock(c: Contents, l: Loc, n: nat): Contents
    requires Writable(c.disk, SlotOf(l, n)) && FormedAt(c.disk, l)
  {
    var b := PointerAt(c.disk, SlotOf(l, n));
    c.(disk := Shrunk(SetPointer(c.disk, SlotOf(l, n), 0), c.disk.files[l].isDir, b))
  }

  // If b holds records, none of them has a block.
  ghost predicate Emptied(d: Disk, b: nat) {
    forall j: nat :: Rec(b, j) in d.files ==> d.files[Rec(b, j)] == ZERO_FILE
  }

  lemma EmptiedSlot(d: Disk, b: nat, q: Slot)
    requires Emptied(d, b) && q.loc.Rec? && q.loc.block == b
    ensures PointerAt(d, q) == 0
  {
    assert q.loc == Rec(b, q.loc.index);
  }

  lemma DropBlockOneSlot(c: Contents, owner: map<nat, Slot>, l: Loc, n: nat)
    requires Formed(c.disk) && Owned(c.disk, owner) && Live(c.disk, l) && Writable(c.disk, SlotOf(l, n))
    requires PointerAt(c.disk, SlotOf(l, n)) != 0 && Emptied(c.disk, PointerAt(c.disk, SlotOf(l, n)))
    ensures FormedAt(c.disk, l)
    ensures var d' := DropBlock(c, l, n).disk;
            OneSlot(c.disk, d', SlotOf(l, n), 0) && Formed(d') && FilesAfter(c.disk, d', l)
  {
    var d, r, dir := c.disk, SlotOf(l, n), c.disk.files[l].isDir;
    var b := PointerAt(d, r);
    SetPointerOneSlot(d, owner, r, 0);
    var d1 := SetPointer(d, r, 0);
    forall q: Slot | q.loc.Rec? && q.loc.block == b ensures PointerAt(d1, q) == 0 {
      EmptiedSlot(d, b, q);
      assert SlotAfter(d, d1, r, 0, q);
    }
    ShrunkSame(d1, dir, b);
    var d' := Shrunk(d1, dir, b);
    forall q: Slot ensures SlotAfter(d, d', r, 0, q) { assert SlotAfter(d, d1, r, 0, q); }
    if l.Rec? && l.block == b { EmptiedSlot(d, b, r); }
    forall m ensures OtherAfter(d, d', l, m) {}
  }

  lemma RecordsAfterDrop(d: Disk, d': Disk, owner: map<nat, Slot>, r: Slot)
    requires Owned(d, owner) && RecordsOk(d, owner) && !r.Indirect? && FilesAfter(d, d', r.loc)
    requires PointerAt(d, r) != 0 && Emptied(d, PointerAt(d, r))
    requires d'.files.Keys == d.files.Keys - if d.files[r.loc].isDir then Records(PointerAt(d, r), BLKFILES).Keys else {}
    ensures RecordsOk(d', owner - {PointerAt(d, r)})
  {
    var b := PointerAt(d, r);
    var owner' := owner - {b};
    assert OtherAfter(d, d', r.loc, Root) && NamedAt(d, owner, r);
    forall x: nat, j: nat ensures RecordAt(d', owner', x, j) {
      assert RecordAt(d, owner, x, j) && OwnsAt(d, owner, x);
      if x in owner {
        assert OtherAfter(d, d', r.loc, owner[x].loc);
        if owner[x].loc.Rec? && owner[x].loc.block == b { EmptiedSlot(d, b, owner[x]); }
      }
    }
  }

  lemma DropBlockGood(c: Contents, owner: map<nat, Slot>, l: Loc, n: nat)
    requires Good(c, owner) && Live(c.disk, l) && Writable(c.disk, SlotOf(l, n))
    requires PointerAt(c.disk, SlotOf(l, n)) != 0 && Emptied(c.disk, PointerAt(c.disk, SlotOf(l, n)))
    ensures FormedAt(c.disk, l)
    ensures var c', b := DropBlock(c, l, n), PointerAt(c.disk, SlotOf(l, n));
            && b in owner && Good(c', owner - {b}) && OneSlot(c.disk, c'.disk, SlotOf(l, n), 0)
            && Live(c'.disk, l) && FilesAfter(c.disk, c'.disk, l) && c'.disk.files.Keys <= c.disk.files.Keys
            && (!c.disk.files[l].isDir ==> c'.disk.files.Keys == c.disk.files.Keys)
            && forall m :: GoneAt(c.disk, c'.disk, m)
  {
    DropBlockOneSlot(c, owner, l, n);
    var b, c' := PointerAt(c.disk, SlotOf(l, n)), DropBlock(c, l, n);
    forall m ensures GoneAt(c.disk, c'.disk, m) { if m.Rec? && m.block == b { assert m == Rec(b, m.index); } }
    RecordsAfterDrop(c.disk, DropBlock(c, l, n).disk, owner, SlotOf(l, n));
    UnlinkGood(c, DropBlock(c, l, n), owner, SlotOf(l, n));
  }

  // ----- Sizes and bytes -----

  function SetSize(d: Disk, l: Loc, size: nat): Disk
    requires l in d.files
  {
    d.(files := d.files[l := d.files[l].(size := size)])
  }

  lemma SetSizeGood(c: Contents, owner: map<nat, Slot>, l: Loc, size: nat)
    requires Good(c, owner) && Live(c.disk, l)
    requires forall k: nat :: BlocksFor(size) <= k < MAXBLOCKS ==> PointerAt(c.disk, SlotOf(l, k)) == 0
    requires BlocksFor(size) <= NDIRECT ==> c.disk.files[l].indirect == 0
    ensures var c' := c.(disk := SetSize(c.disk, l, size)); Good(c', owner) && SameBytes(c, c') && Live(c'.disk, l)
  {
    var d, d' := c.disk, SetSize(c.disk, l, size);
    var c' := c.(disk := d');
    forall q: Slot ensures PointerAt(d', q) == PointerAt(d, q) && BackedAt(c', q) && NamedAt(d', owner, q) {
      assert BackedAt(c, q) && NamedAt(d, owner, q);
    }
    forall m, k: nat ensures EmptyPast(d', m, k) { assert EmptyPast(d, m, k); }
    forall m ensures SizeFits(d', m) && FormedAt(d', m) && UnusedAt(d', m) {
      assert SizeFits(d, m) && FormedAt(d, m) && UnusedAt(d, m);
    }
    forall b: nat ensures OwnsAt(d', owner, b) { assert OwnsAt(d, owner, b); }
    forall b: nat, j: nat ensures RecordAt(d', owner, b, j) { assert RecordAt(d, owner, b, j); }
  }

  // Bytes bs are stored in block b from position k on.
  function Store(c: Contents, b: nat, k: nat, bs: seq<int>): Contents
    requires b in c.data && k + |bs| <= |c.data[b]|
  {
    c.(data := c.data[b := c.data[b][..k] + bs + c.data[b][k + |bs|..]])
  }

  lemma StoreGood(c: Contents, owner: map<nat, Slot>, b: nat, k: nat, bs: seq<int>)
    requires Good(c, owner) && b in c.data && k + |bs| <= |c.data[b]|
    ensures Good(Store(c, b, k, bs), owner)
  {
    var c' := Store(c, b, k, bs);
    forall q: Slot ensures BackedAt(c', q) { assert BackedAt(c, q); }
  }

  // Only the bytes of block n of l, from position k of the block on, are changed.
  lemma StoreByte(c: Contents, owner: map<nat, Slot>, l: Loc, n: nat, k: nat, bs: seq<int>, m: Loc, p: nat)
    requires Owned(c.disk, owner) && n < MAXBLOCKS && k + |bs| <= BLKSIZE
    requires var b := PointerAt(c.disk, SlotOf(l, n)); b != 0 && b in c.data && |c.data[b]| == BLKSIZE
    ensures var from := n * BLKSIZE + k;
            ByteAt(Store(c, PointerAt(c.disk, SlotOf(l, n)), k, bs), m, p) ==
            if m == l && from <= p < from + |bs| then bs[p - from] else ByteAt(c, m, p)
  {
    if p / BLKSIZE < MAXBLOCKS {
      assert NamedAt(c.disk, owner, SlotOf(l, n)) && NamedAt(c.disk, owner, SlotOf(m, p / BLKSIZE));
    }
  }

  // ----- Clearing slots -----

  // The pointers of a set of slots are gone, their blocks are free, and nothing else changed.
  ghost predicate Clears(d: Disk, d': Disk, owner: map<nat, Slot>, owner': map<nat, Slot>,
                         free: set<nat>, free': set<nat>, slots: set<Slot>)
  {
    && (forall q: Slot :: ClearedAt(d, d', slots, q))
    && (forall b: nat :: DisownedAt(owner, owner', slots, b))
    && free' == free + (owner.Keys - owner'.Keys)
    && |free'| == |free| + |InUse(d, slots)|
  }

  ghost predicate ClearedAt(d: Disk, d': Disk, slots: set<Slot>, q: Slot) {
    PointerAt(d', q) == if q in slots then 0 else PointerAt(d, q)
  }

  ghost predicate DisownedAt(owner: map<nat, Slot>, owner': map<nat, Slot>, slots: set<Slot>, b: nat) {
    if b in owner && owner[b] !in slots then b in owner' && owner'[b] == owner[b] else b !in owner'
  }

  // The slots that name a block.
  ghost function InUse(d: Disk, slots: set<Slot>): set<Slot> {
    set r | r in slots && PointerAt(d, r) != 0
  }

  lemma ClearsNothing(d: Disk, owner: map<nat, Slot>, free: set<nat>)
    ensures Clears(d, d, owner, owner, free, free, {})
  {
    var none: set<Slot> := {};
    forall q: Slot ensures ClearedAt(d, d, none, q) {}
    forall b: nat ensures DisownedAt(owner, owner, none, b) {}
    assert InUse(d, none) == {};
    assert free == free + (owner.Keys - owner.Keys);
  }

  lemma DisownOneMore(o: map<nat, Slot>, o1: map<nat, Slot>, slots: set<Slot>, r: Slot, b: nat)
    requires forall x: nat :: DisownedAt(o, o1, slots, x)
    requires b in o && o[b] == r && (forall x :: x in o && o[x] == r ==> x == b) && r !in slots
    ensures forall x: nat :: DisownedAt(o, o1 - {b}, slots + {r}, x)
    ensures b in o1 && o.Keys - (o1 - {b}).Keys == (o.Keys - o1.Keys) + {b}
  {
    var o', more := o1 - {b}, slots + {r};
    assert DisownedAt(o, o1, slots, b);
    forall x: nat ensures DisownedAt(o, o', more, x) { assert DisownedAt(o, o1, slots, x); }
  }

  lemma DisownEmpty(o: map<nat, Slot>, o1: map<nat, Slot>, slots: set<Slot>, r: Slot)
    requires forall x: nat :: DisownedAt(o, o1, slots, x)
    requires forall x :: x in o ==> o[x] != r
    ensures forall x: nat :: DisownedAt(o, o1, slots + {r}, x)
  {
    var more := slots + {r};
    forall x: nat ensures DisownedAt(o, o1, more, x) { assert DisownedAt(o, o1, slots, x); }
  }

  lemma InUseOneMore(d: Disk, slots: set<Slot>, r: Slot)
    requires r !in slots
    ensures |InUse(d, slots + {r})| == |InUse(d, slots)| + if PointerAt(d, r) != 0 then 1 else 0
  {
    if PointerAt(d, r) != 0 {
      assert InUse(d, slots + {r}) == InUse(d, slots) + {r};
    } else {
      assert InUse(d, slots + {r}) == InUse(d, slots);
    }
  }

  lemma FreeOneMore(f: set<nat>, f1: set<nat>, gone: set<nat>, b: nat)
    requires f1 == f + gone && b !in f1
    ensures f1 + {b} == f + (gone + {b}) && |f1 + {b}| == |f1| + 1
  {
  }

  lemma ClearOneMore(d: Disk, d1: Disk, d': Disk, slots: set<Slot>, r: Slot)
    requires (forall q: Slot :: ClearedAt(d, d1, slots, q)) && OneSlot(d1, d', r, 0)
    ensures forall q: Slot :: ClearedAt(d, d', slots + {r}, q)
  {
    var more := slots + {r};
    forall q: Slot ensures ClearedAt(d, d', more, q) {
      assert ClearedAt(d, d1, slots, q) && SlotAfter(d1, d', r, 0, q);
    }
  }

  // One more slot is cleared; it named a block.
  lemma ClearsUsed(d: Disk, d1: Disk, d': Disk, o: map<nat, Slot>, o1: map<nat, Slot>,
                   f: set<nat>, f1: set<nat>, slots: set<Slot>, r: Slot, b: nat)
    requires Clears(d, d1, o, o1, f, f1, slots) && r !in slots && b !in f1
    requires Owned(d, o) && OneSlot(d1, d', r, 0) && b == PointerAt(d1, r) && b != 0
    ensures b in o1 && Clears(d, d', o, o1 - {b}, f, f1 + {b}, slots + {r})
  {
    assert ClearedAt(d, d1, slots, r) && NamedAt(d, o, r);
    ClearOneMore(d, d1, d', slots, r);
    forall x | x in o && o[x] == r ensures x == b { assert OwnsAt(d, o, x); }
    DisownOneMore(o, o1, slots, r, b);
    FreeOneMore(f, f1, o.Keys - o1.Keys, b);
    InUseOneMore(d, slots, r);
  }

  // One more slot is cleared; it was empty.
  lemma ClearsUnused(d: Disk, d1: Disk, o: map<nat, Slot>, o1: map<nat, Slot>,
                     f: set<nat>, f1: set<nat>, slots: set<Slot>, r: Slot)
    requires Clears(d, d1, o, o1, f, f1, slots) && r !in slots && Owned(d, o) && PointerAt(d1, r) == 0
    ensures Clears(d, d1, o, o1, f, f1, slots + {r})
  {
    assert ClearedAt(d, d1, slots, r);
    forall q: Slot ensures SlotAfter(d1, d1, r, 0, q) {}
    ClearOneMore(d, d1, d1, slots, r);
    forall x | x in o ensures o[x] != r { assert OwnsAt(d, o, x); }
    DisownEmpty(o, o1, slots, r);
    InUseOneMore(d, slots, r);
  }

  // The bytes of the cleared blocks read as zero, all others as before.
  lemma ClearsBytes(c: Contents, c': Contents, o: map<nat, Slot>, o': map<nat, Slot>, f: set<nat>, f': set<nat>,
                    slots: set<Slot>, l: Loc, p: nat)
    requires Clears(c.disk, c'.disk, o, o', f, f', slots) && c'.data == c.data
    ensures ByteAt(c', l, p) ==
            if p / BLKSIZE < MAXBLOCKS && SlotOf(l, p / BLKSIZE) in slots then 0 else ByteAt(c, l, p)
  {
    if p / BLKSIZE < MAXBLOCKS { assert ClearedAt(c.disk, c'.disk, slots, SlotOf(l, p / BLKSIZE)); }
  }

  // Which block of its file a slot is for.
  function BlockOf(r: Slot): nat
    requires !r.Indirect?
  {
    if r.Direct? then r.i else r.i + NDIRECT
  }

  // The slots of blocks lo to hi of file l.
  ghost predicate IsRange(slots: set<Slot>, l: Loc, lo: nat, hi: nat) {
    forall r: Slot :: RangeAt(slots, l, lo, hi, r)
  }

  ghost predicate RangeAt(slots: set<Slot>, l: Loc, lo: nat, hi: nat, r: Slot) {
    r in slots <==> r.loc == l && !r.Indirect? && lo <= BlockOf(r) < hi && (r.Direct? <==> BlockOf(r) < NDIRECT)
  }

  lemma RangeOneMore(slots: set<Slot>, more: set<Slot>, l: Loc, lo: nat, hi: nat, end: nat)
    requires IsRange(slots, l, lo, hi) && lo <= hi && end == hi + 1 && more == slots + {SlotOf(l, hi)}
    ensures SlotOf(l, hi) !in slots && IsRange(more, l, lo, end)
  {
    assert RangeAt(slots, l, lo, hi, SlotOf(l, hi));
    forall r: Slot ensures RangeAt(more, l, lo, end, r) { assert RangeAt(slots, l, lo, hi, r); }
  }

  ghost function SlotRange(l: Loc, lo: nat, hi: nat): (s: set<Slot>)
    ensures IsRange(s, l, lo, hi)
    decreases hi
  {
    var none: set<Slot> := {};
    if hi <= lo then
      assert forall r: Slot :: RangeAt(none, l, lo, hi, r);
      none
    else
      var less := SlotRange(l, lo, hi - 1);
      var all := less + {SlotOf(l, hi - 1)};
      RangeOneMore(less, all, l, lo, hi - 1, hi);
      all
  }

  lemma RangeEnd(slots: set<Slot>, l: Loc, lo: nat, n: nat, hi: nat)
    requires IsRange(slots, l, lo, n) && (n == hi || hi <= n == lo)
    ensures slots == SlotRange(l, lo, hi)
  {
    var s := SlotRange(l, lo, hi);
    forall r: Slot ensures r in s <==> r in slots { assert RangeAt(s, l, lo, hi, r) && RangeAt(slots, l, lo, n, r); }
  }

  // What a file of hi blocks need not keep when it is cut to lo blocks.
  ghost function Surplus(l: Loc, lo: nat, hi: nat): set<Slot> {
    SlotRange(l, lo, hi) + if lo <= NDIRECT then {Indirect(l)} else {}
  }

  // ----- Records -----

  // No slot of record l names a block.
  ghost predicate Pointerless(d: Disk, l: Loc) {
    forall q: Slot :: BareAt(d, l, q)
  }

  ghost predicate BareAt(d: Disk, l: Loc, q: Slot) {
    q.loc == l ==> PointerAt(d, q) == 0
  }

  // The record of an empty file.
  function EmptyFile(name: string, isDir: bool): File {
    ZERO_FILE.(name := name, isDir := isDir)
  }

  function PutRecord(d: Disk, l: Loc, f: File): Disk {
    d.(files := d.files[l := f])
  }

  // A record without blocks may be replaced by that of an empty file.
  lemma PutRecordGood(c: Contents, owner: map<nat, Slot>, l: Loc, name: string, isDir: bool)
    requires Good(c, owner) && l in c.disk.files && l.Rec? && Pointerless(c.disk, l) && (name == "" ==> !isDir)
    ensures var c' := c.(disk := PutRecord(c.disk, l, EmptyFile(name, isDir)));
            Good(c', owner) && SameBytes(c, c') && Pointerless(c'.disk, l)
  {
    var d, d' := c.disk, PutRecord(c.disk, l, EmptyFile(name, isDir));
    var c' := c.(disk := d');
    forall q: Slot ensures PointerAt(d', q) == PointerAt(d, q) { assert BareAt(d, l, q); }
    forall q: Slot ensures BareAt(d', l, q) {}
    forall q: Slot ensures BackedAt(c', q) && NamedAt(d', owner, q) { assert BackedAt(c, q) && NamedAt(d, owner, q); }
    PutRecordRest(c, owner, l, EmptyFile(name, isDir));
  }

  lemma PutRecordRest(c: Contents, owner: map<nat, Slot>, l: Loc, f: File)
    requires Good(c, owner) && l in c.disk.files && l.Rec? && Pointerless(c.disk, l)
    requires f == EmptyFile(f.name, f.isDir) && (f.name == "" ==> !f.isDir)
    requires forall q: Slot :: PointerAt(PutRecord(c.disk, l, f), q) == PointerAt(c.disk, q)
    ensures var d' := PutRecord(c.disk, l, f);
            && Formed(d') && WithinSize(d') && RecordsOk(d', owner)
            && (forall b: nat :: OwnsAt(d', owner, b)) && (forall m :: UnusedAt(d', m))
  {
    var d, d' := c.disk, PutRecord(c.disk, l, f);
    forall m ensures FormedAt(d', m) && SizeFits(d', m) && UnusedAt(d', m) {
      assert FormedAt(d, m) && SizeFits(d, m) && UnusedAt(d, m);
    }
    forall m, k: nat ensures EmptyPast(d', m, k) { assert EmptyPast(d, m, k) && BareAt(d, l, SlotOf(m, k)); }
    forall b: nat ensures OwnsAt(d', owner, b) { assert OwnsAt(d, owner, b); }
    forall b: nat, j: nat ensures RecordAt(d', owner, b, j) {
      assert RecordAt(d, owner, b, j) && OwnsAt(d, owner, b);
      if b in owner { assert BareAt(d, l, owner[b]); }
    }
  }

  // The record at src moves to the unused record at dst.
  function MoveRecord(d: Disk, src: Loc, dst: Loc): Disk
    requires src in d.files
  {
    d.(files := d.files[dst := d.files[src]][src := ZERO_FILE])
  }

  function Moved(l: Loc, src: Loc, dst: Loc): Loc {
    if l == src then dst else l
  }

  // Blocks of src now belong to dst.
  ghost function MoveOwner(owner: map<nat, Slot>, src: Loc, dst: Loc): map<nat, Slot> {
    map b | b in owner :: owner[b].(loc := Moved(owner[b].loc, src, dst))
  }

  lemma MovedPointer(d: Disk, src: Loc, dst: Loc, q: Slot)
    requires src in d.files && dst in d.files && src != dst && d.files[dst] == ZERO_FILE
    ensures PointerAt(MoveRecord(d, src, dst), q) ==
            if q.loc == src then 0 else if q.loc == dst then PointerAt(d, q.(loc := src)) else PointerAt(d, q)
  {
  }

  lemma MovedOwned(d: Disk, owner: map<nat, Slot>, src: Loc, dst: Loc)
    requires Owned(d, owner) && src in d.files && dst in d.files && src != dst && d.files[dst] == ZERO_FILE
    ensures Owned(MoveRecord(d, src, dst), MoveOwner(owner, src, dst))
  {
    var d', owner' := MoveRecord(d, src, dst), MoveOwner(owner, src, dst);
    forall b: nat ensures OwnsAt(d', owner', b) {
      assert OwnsAt(d, owner, b);
      if b in owner { MovedPointer(d, src, dst, owner'[b]); }
    }
    forall q: Slot ensures NamedAt(d', owner', q) {
      MovedPointer(d, src, dst, q);
      assert NamedAt(d, owner, q) && NamedAt(d, owner, q.(loc := src));
    }
  }

  lemma MovedRecords(d: Disk, owner: map<nat, Slot>, src: Loc, dst: Loc)
    requires Owned(d, owner) && RecordsOk(d, owner)
    requires src in d.files && dst in d.files && src != dst && src != Root && d.files[dst] == ZERO_FILE
    ensures RecordsOk(MoveRecord(d, src, dst), MoveOwner(owner, src, dst))
  {
    var d', owner' := MoveRecord(d, src, dst), MoveOwner(owner, src, dst);
    forall b: nat, j: nat ensures RecordAt(d', owner', b, j) {
      assert RecordAt(d, owner, b, j) && OwnsAt(d, owner, b);
    }
  }

  lemma MovedWithin(d: Disk, src: Loc, dst: Loc)
    requires WithinSize(d) && Formed(d) && (forall m :: UnusedAt(d, m)) && Live(d, src) && src.Rec?
    requires dst in d.files && src != dst && d.files[dst] == ZERO_FILE
    ensures var d' := MoveRecord(d, src, dst); WithinSize(d') && Formed(d') && forall m :: UnusedAt(d', m)
  {
    var d' := MoveRecord(d, src, dst);
    forall m ensures SizeFits(d', m) && FormedAt(d', m) && UnusedAt(d', m) {
      MovedPointer(d, src, dst, Indirect(m));
      assert SizeFits(d, m) && SizeFits(d, src) && FormedAt(d, m) && FormedAt(d, src) && UnusedAt(d, m);
    }
    forall m, k: nat ensures EmptyPast(d', m, k) {
      MovedPointer(d, src, dst, SlotOf(m, k));
      assert EmptyPast(d, m, k) && EmptyPast(d, src, k);
    }
  }

  // The bytes move with the record.
  lemma MovedByte(c: Contents, src: Loc, dst: Loc, l: Loc, p: nat)
    requires src in c.disk.files && dst in c.disk.files && src != dst && c.disk.files[dst] == ZERO_FILE
    ensures ByteAt(c.(disk := MoveRecord(c.disk, src, dst)), l, p) ==
            if l == src then 0 else if l == dst then ByteAt(c, src, p) else ByteAt(c, l, p)
  {
    MovedPointer(c.disk, src, dst, SlotOf(l, p / BLKSIZE));
  }

  lemma MoveRecordGood(c: Contents, owner: map<nat, Slot>, src: Loc, dst: Loc)
    requires Good(c, owner) && Live(c.disk, src) && src.Rec? && dst in c.disk.files && dst.Rec?
    requires src != dst && c.disk.files[dst] == ZERO_FILE
    ensures Good(c.(disk := MoveRecord(c.disk, src, dst)), MoveOwner(owner, src, dst))
  {
    var d := c.disk;
    var c' := c.(disk := MoveRecord(d, src, dst));
    MovedOwned(d, owner, src, dst);
    MovedRecords(d, owner, src, dst);
    MovedWithin(d, src, dst);
    forall q: Slot ensures BackedAt(c', q) {
      MovedPointer(d, src, dst, q);
      assert BackedAt(c, q) && BackedAt(c, q.(loc := src));
    }
  }
}
