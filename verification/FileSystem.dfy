/**
  The block layer and the file operations of fs/fs.c, on one mutable file system. Flushing to disk is not modelled:
  a block is its cached page, and a freshly allocated block is a page of zeroes.
 */
module FileSystem {
  import opened FsBlocks
  import opened FsState
  import opened Bitmap

  datatype Status = Ok | ENotFound | ENoDisk | EInval

  ghost function Below(n: nat): (s: set<nat>)
    ensures forall x :: x in s <==> 0 <= x < n
  {
    if n == 0 then {} else Below(n - 1) + {n - 1}
  }

  // Every block below n is reserved, free, owned by a slot or held, and only one of these.
  ghost predicate Partition(n: nat, reserved: set<nat>, free: set<nat>, owned: set<nat>, held: set<nat>) {
    forall x: nat :: PlaceOf(n, reserved, free, owned, held, x)
  }

  ghost predicate PlaceOf(n: nat, reserved: set<nat>, free: set<nat>, owned: set<nat>, held: set<nat>, x: nat) {
    if x in reserved then x < n && x !in free && x !in owned && x !in held
    else if x in free then x < n && x !in owned && x !in held
    else if x in owned then x < n && x !in held
    else x in held <==> x < n
  }

  lemma TakeFree(n: nat, reserved: set<nat>, free: set<nat>, owned: set<nat>, held: set<nat>, b: nat)
    requires Partition(n, reserved, free, owned, held) && b in free
    ensures Partition(n, reserved, free - {b}, owned, held + {b}) && b < n && b !in reserved && b !in owned
  {
    var free', held' := free - {b}, held + {b};
    assert PlaceOf(n, reserved, free, owned, held, b);
    forall x: nat ensures PlaceOf(n, reserved, free', owned, held', x) {
      assert PlaceOf(n, reserved, free, owned, held, x);
    }
  }

  lemma OwnHeld(n: nat, reserved: set<nat>, free: set<nat>, owned: set<nat>, held: set<nat>, b: nat)
    requires Partition(n, reserved, free, owned, held) && b in held
    ensures Partition(n, reserved, free, owned + {b}, held - {b}) && b < n && b !in reserved && b !in owned
  {
    var owned', held' := owned + {b}, held - {b};
    assert PlaceOf(n, reserved, free, owned, held, b);
    forall x: nat ensures PlaceOf(n, reserved, free, owned', held', x) {
      assert PlaceOf(n, reserved, free, owned, held, x);
    }
  }

  lemma FreeOwned(n: nat, reserved: set<nat>, free: set<nat>, owned: set<nat>, held: set<nat>, b: nat)
    requires Partition(n, reserved, free, owned, held) && b in owned
    ensures Partition(n, reserved, free + {b}, owned - {b}, held) && b < n && b !in reserved && b !in free
  {
    var free', owned' := free + {b}, owned - {b};
    assert PlaceOf(n, reserved, free, owned, held, b);
    forall x: nat ensures PlaceOf(n, reserved, free', owned', held, x) {
      assert PlaceOf(n, reserved, free, owned, held, x);
    }
  }

  // Free, owned and reserved blocks add up to the disk.
  lemma BlocksConserved(n: nat, reserved: set<nat>, free: set<nat>, owned: set<nat>)
    requires Partition(n, reserved, free, owned, {})
    ensures |reserved| + |free| + |owned| == n
  {
    CardinalityOfBelow(n);
    forall x: nat ensures x in reserved + free + owned <==> x in Below(n) {
      assert PlaceOf(n, reserved, free, owned, {}, x);
    }
    assert reserved + free + owned == Below(n);
    assert reserved !! free && (reserved + free) !! owned by {
      forall x: nat ensures !(x in reserved && x in free) && !(x in reserved + free && x in owned) {
        assert PlaceOf(n, reserved, free, owned, {}, x);
      }
    }
    assert |reserved + free| == |reserved| + |free|;
    assert |reserved + free + owned| == |reserved + free| + |owned|;
  }

  // Every block that is neither free nor reserved is named by exactly one slot, no slot names a free or reserved block,
  // and no slot at or past the end of its file is in use.
  lemma BlocksNamedOnce(c: Contents, owner: map<nat, Slot>, n: nat, reserved: set<nat>, free: set<nat>)
    requires Good(c, owner) && Partition(n, reserved, free, owner.Keys, {})
    ensures forall b: nat :: b < n && b !in reserved && b !in free ==>
              exists r: Slot :: PointerAt(c.disk, r) == b && forall q: Slot :: PointerAt(c.disk, q) == b ==> q == r
    ensures forall r: Slot :: PointerAt(c.disk, r) != 0 ==>
              PointerAt(c.disk, r) < n && PointerAt(c.disk, r) !in free && PointerAt(c.disk, r) !in reserved
    ensures forall l, k: nat :: l in c.disk.files && BlocksFor(c.disk.files[l].size) <= k < MAXBLOCKS ==>
              PointerAt(c.disk, SlotOf(l, k)) == 0
  {
    forall b: nat | b < n && b !in reserved && b !in free
      ensures exists r: Slot :: PointerAt(c.disk, r) == b && forall q: Slot :: PointerAt(c.disk, q) == b ==> q == r
    {
      assert PlaceOf(n, reserved, free, owner.Keys, {}, b) && OwnsAt(c.disk, owner, b);
      forall q: Slot | PointerAt(c.disk, q) == b ensures q == owner[b] { assert NamedAt(c.disk, owner, q); }
    }
    forall r: Slot | PointerAt(c.disk, r) != 0
      ensures PointerAt(c.disk, r) < n && PointerAt(c.disk, r) !in free && PointerAt(c.disk, r) !in reserved
    {
      assert NamedAt(c.disk, owner, r) && PlaceOf(n, reserved, free, owner.Keys, {}, PointerAt(c.disk, r));
    }
    forall l, k: nat | l in c.disk.files && BlocksFor(c.disk.files[l].size) <= k < MAXBLOCKS
      ensures PointerAt(c.disk, SlotOf(l, k)) == 0
    {
      assert EmptyPast(c.disk, l, k);
    }
  }

  lemma {:induction false} CardinalityOfBelow(n: nat)
    ensures |Below(n)| == n
  {
    if n > 0 {
      CardinalityOfBelow(n - 1);
    }
  }

  // ----- What a walk may change -----

  // Pointers are only added, and only to file l.
  ghost predicate Extends(d: Disk, d': Disk, l: Loc) {
    forall q: Slot :: KeptAt(d, d', l, q)
  }

  ghost predicate KeptAt(d: Disk, d': Disk, l: Loc, q: Slot) {
    PointerAt(d, q) != 0 || q.loc != l ==> PointerAt(d', q) == PointerAt(d, q)
  }


  lemma NothingChanged(d: Disk, l: Loc)
    requires Live(d, l)
    ensures Walked(d, d, l)
  {
    forall m ensures OtherAfter(d, d, l, m) {}
    forall q: Slot ensures KeptAt(d, d, l, q) {}
  }

  lemma OneSlotExtends(d: Disk, d': Disk, r: Slot, b: nat)
    requires OneSlot(d, d', r, b) && PointerAt(d, r) == 0
    ensures Extends(d, d', r.loc)
  {
    forall q: Slot ensures KeptAt(d, d', r.loc, q) { assert SlotAfter(d, d', r, b, q); }
  }

  // What may happen to file l while its block pointers are walked.
  ghost predicate Walked(d: Disk, d': Disk, l: Loc) {
    Live(d', l) && FilesAfter(d, d', l) && Extends(d, d', l) && d.files.Keys <= d'.files.Keys
  }

  // The slot of block n is there, with the pointer it had, and any indirect block came from the free blocks.
  ghost predicate Provided(d: Disk, d': Disk, l: Loc, n: nat, free: nat, free': nat) {
    && l in d.files && n < MAXBLOCKS && Writable(d', SlotOf(l, n))
    && PointerAt(d', SlotOf(l, n)) == PointerAt(d, SlotOf(l, n))
    && free - Needed(d, l, n) == free' - if PointerAt(d, SlotOf(l, n)) == 0 then 1 else 0
  }

  ghost predicate OneTaken(free: set<nat>, free': set<nat>, b: nat) {
    b in free && free' == free - {b}
  }

  // The empty indirect pointer of l became b, and nothing else changed.
  ghost predicate IndirectAdded(d: Disk, d': Disk, l: Loc, b: nat) {
    && l in d.files && d.files[l].indirect == 0 && b != 0
    && d'.files == d.files[l := d.files[l].(indirect := b)] && OneSlot(d, d', Indirect(l), b)
  }

  lemma IndirectWalked(d: Disk, d': Disk, l: Loc, b: nat, n: nat, free: set<nat>, free': set<nat>)
    requires Live(d, l) && IndirectAdded(d, d', l, b) && NDIRECT <= n < MAXBLOCKS && OneTaken(free, free', b)
    ensures Walked(d, d', l) && Provided(d, d', l, n, |free|, |free'|)
  {
    OneSlotExtends(d, d', Indirect(l), b);
    forall m ensures OtherAfter(d, d', l, m) {}
    assert SlotAfter(d, d', Indirect(l), b, SlotOf(l, n));
  }

  // What may happen to the files while l gives up blocks: records of a directory block go with the block.
  ghost predicate Shortened(d: Disk, d': Disk, l: Loc) {
    && Live(d', l) && FilesAfter(d, d', l) && d'.files.Keys <= d.files.Keys
    && (!d.files[l].isDir ==> d'.files.Keys == d.files.Keys)
    && forall m :: GoneAt(d, d', m)
  }

  lemma NothingShortened(d: Disk, l: Loc)
    requires Live(d, l)
    ensures Shortened(d, d, l)
  {
    forall m ensures OtherAfter(d, d, l, m) && GoneAt(d, d, m) {}
  }

  lemma ShortenedTrans(d: Disk, d1: Disk, d': Disk, l: Loc)
    requires Shortened(d, d1, l) && Shortened(d1, d', l)
    ensures Shortened(d, d', l)
  {
    forall m ensures GoneAt(d, d', m) { assert GoneAt(d, d1, m) && GoneAt(d1, d', m) && OtherAfter(d, d1, l, m); }
    forall m ensures OtherAfter(d, d', l, m) { assert OtherAfter(d, d1, l, m) && OtherAfter(d1, d', l, m); }
  }

  // The blocks of l from n on hold no records in use.
  ghost predicate Emptyable(d: Disk, l: Loc, n: nat) {
    forall k: nat :: EmptyableAt(d, l, n, k)
  }

  ghost predicate EmptyableAt(d: Disk, l: Loc, n: nat, k: nat) {
    n <= k < MAXBLOCKS ==> Emptied(d, PointerAt(d, SlotOf(l, k)))
  }

  lemma RegularEmptyable(d: Disk, owner: map<nat, Slot>, l: Loc)
    requires Owned(d, owner) && RecordsOk(d, owner) && l in d.files && !d.files[l].isDir
    ensures Emptyable(d, l, 0)
  {
    forall k: nat ensures EmptyableAt(d, l, 0, k) {
      var b := PointerAt(d, SlotOf(l, k));
      assert NamedAt(d, owner, SlotOf(l, k)) && OwnsAt(d, owner, 0);
      forall j: nat ensures Rec(b, j) !in d.files { assert RecordAt(d, owner, b, j); }
    }
  }

  lemma StillEmptied(d: Disk, d': Disk, l: Loc, b: nat)
    requires Live(d, l) && Shortened(d, d', l) && Emptied(d, b)
    ensures Emptied(d', b)
  {
    forall j: nat | Rec(b, j) in d'.files ensures d'.files[Rec(b, j)] == ZERO_FILE {
      assert OtherAfter(d, d', l, Rec(b, j)) && Rec(b, j) in d.files;
    }
  }

  lemma EmptyableNext(d: Disk, l: Loc, n: nat, n': nat)
    requires Emptyable(d, l, n) && n' == n + 1
    ensures Emptyable(d, l, n')
  {
    forall k: nat ensures EmptyableAt(d, l, n', k) { assert EmptyableAt(d, l, n, k); }
  }

  lemma StillEmptyable(d: Disk, d': Disk, l: Loc, n: nat, n': nat)
    requires Live(d, l) && Shortened(d, d', l) && OneSlot(d, d', SlotOf(l, n), 0) && Emptyable(d, l, n) && n' == n + 1
    ensures Emptyable(d', l, n')
  {
    forall k: nat ensures EmptyableAt(d', l, n', k) {
      assert SlotAfter(d, d', SlotOf(l, n), 0, SlotOf(l, k)) && EmptyableAt(d, l, n, k);
      if n < k < MAXBLOCKS { StillEmptied(d, d', l, PointerAt(d, SlotOf(l, k))); }
    }
  }

  // Once the blocks from n on are gone, no entry of the indirect block is in use.
  lemma EntriesGone(d: Disk, d': Disk, o: map<nat, Slot>, o': map<nat, Slot>, f: set<nat>, f': set<nat>,
                    l: Loc, n: nat, hi: nat)
    requires WithinSize(d) && l in d.files && hi == BlocksFor(d.files[l].size)
    requires Clears(d, d', o, o', f, f', SlotRange(l, n, hi))
    ensures Indirect(l) !in SlotRange(l, n, hi)
    ensures forall k: nat :: n <= k < MAXBLOCKS ==> PointerAt(d', SlotOf(l, k)) == 0
    ensures n <= NDIRECT ==> forall i: nat :: i < NINDIRECT ==> PointerAt(d', Entry(l, i)) == 0
  {
    var slots := SlotRange(l, n, hi);
    assert RangeAt(slots, l, n, hi, Indirect(l));
    forall k: nat | n <= k < MAXBLOCKS ensures PointerAt(d', SlotOf(l, k)) == 0 {
      assert ClearedAt(d, d', slots, SlotOf(l, k)) && EmptyPast(d, l, k);
      assert RangeAt(slots, l, n, hi, SlotOf(l, k));
    }
    if n <= NDIRECT {
      forall i: nat | i < NINDIRECT ensures PointerAt(d', Entry(l, i)) == 0 {
        assert Entry(l, i) == SlotOf(l, i + NDIRECT);
      }
    }
  }

  // l has another size; records of given-up directory blocks are gone; the rest is as before.
  ghost predicate Resized(d: Disk, d': Disk, l: Loc, size: nat) {
    && l in d.files && Live(d', l) && d'.files.Keys <= d.files.Keys
    && d'.files[l].size == size && d'.files[l].name == d.files[l].name && d'.files[l].isDir == d.files[l].isDir
    && (!d.files[l].isDir ==> d'.files.Keys == d.files.Keys)
    && (forall m :: OtherAfter(d, d', l, m)) && (forall m :: GoneAt(d, d', m))
    && (forall q: Slot :: ElsewhereAt(d, d', l, q))
  }

  // The first n blocks of l are as before, the others read as zero, and other files are as before.
  ghost predicate CutAt(c: Contents, c': Contents, l: Loc, n: nat, m: Loc, p: nat) {
    ByteAt(c', m, p) == if m == l && n <= p / BLKSIZE then 0 else ByteAt(c, m, p)
  }

  lemma CutBytes(c: Contents, c': Contents, o: map<nat, Slot>, o': map<nat, Slot>, f: set<nat>, f': set<nat>,
                 l: Loc, n: nat, hi: nat)
    requires WithinSize(c.disk) && l in c.disk.files && hi == BlocksFor(c.disk.files[l].size)
    requires Clears(c.disk, c'.disk, o, o', f, f', Surplus(l, n, hi)) && c'.data == c.data
    ensures forall m, p: nat :: CutAt(c, c', l, n, m, p)
  {
    forall m, p: nat ensures CutAt(c, c', l, n, m, p) {
      var k := p / BLKSIZE;
      ClearsBytes(c, c', o, o', f, f', Surplus(l, n, hi), m, p);
      assert RangeAt(SlotRange(l, n, hi), l, n, hi, SlotOf(m, k)) && EmptyPast(c.disk, l, k);
    }
  }

  lemma SurplusGone(d: Disk, d': Disk, o: map<nat, Slot>, o': map<nat, Slot>, f: set<nat>, f': set<nat>,
                    l: Loc, n: nat, hi: nat)
    requires WithinSize(d) && l in d.files && hi == BlocksFor(d.files[l].size) && l in d'.files
    requires Clears(d, d', o, o', f, f', Surplus(l, n, hi))
    ensures forall k: nat :: n <= k < MAXBLOCKS ==> PointerAt(d', SlotOf(l, k)) == 0
    ensures n <= NDIRECT ==> d'.files[l].indirect == 0
  {
    forall k: nat | n <= k < MAXBLOCKS ensures PointerAt(d', SlotOf(l, k)) == 0 {
      assert ClearedAt(d, d', Surplus(l, n, hi), SlotOf(l, k)) && EmptyPast(d, l, k);
      assert RangeAt(SlotRange(l, n, hi), l, n, hi, SlotOf(l, k));
    }
    if n <= NDIRECT { assert ClearedAt(d, d', Surplus(l, n, hi), Indirect(l)); }
  }

  // l has another size, blocks past the new end read as zero, and other files keep their bytes.
  ghost predicate SizeSet(c: Contents, c': Contents, l: Loc, size: nat) {
    Resized(c.disk, c'.disk, l, size) && forall m, p: nat :: CutAt(c, c', l, BlocksFor(size), m, p)
  }

  lemma GrowEffect(c: Contents, c': Contents, l: Loc, size: nat, n: nat)
    requires WithinSize(c.disk) && Live(c.disk, l) && BlocksFor(c.disk.files[l].size) <= n && SameBytes(c, c')
    requires n == BlocksFor(size) && c'.disk == SetSize(c.disk, l, size)
    ensures SizeSet(c, c', l, size)
  {
    forall m, p: nat ensures CutAt(c, c', l, n, m, p) { assert EmptyPast(c.disk, l, p / BLKSIZE); }
    forall m ensures OtherAfter(c.disk, c'.disk, l, m) && GoneAt(c.disk, c'.disk, m) {}
    forall q: Slot ensures ElsewhereAt(c.disk, c'.disk, l, q) {}
  }

  lemma RoomToGrow(d: Disk, l: Loc, n: nat)
    requires WithinSize(d) && l in d.files && BlocksFor(d.files[l].size) <= n
    ensures forall k: nat :: n <= k < MAXBLOCKS ==> PointerAt(d, SlotOf(l, k)) == 0
    ensures n <= NDIRECT ==> d.files[l].indirect == 0
  {
    forall k: nat | n <= k < MAXBLOCKS ensures PointerAt(d, SlotOf(l, k)) == 0 { assert EmptyPast(d, l, k); }
    assert SizeFits(d, l);
  }

  // Setting a size changes no pointer.
  lemma ShrinkSlots(d: Disk, d1: Disk, d': Disk, o: map<nat, Slot>, o': map<nat, Slot>, f: set<nat>, f': set<nat>,
                    l: Loc, size: nat, n: nat, hi: nat)
    requires Clears(d, d1, o, o', f, f', Surplus(l, n, hi)) && l in d1.files && d' == SetSize(d1, l, size)
    ensures Clears(d, d', o, o', f, f', Surplus(l, n, hi)) && forall q: Slot :: ElsewhereAt(d, d', l, q)
  {
    var slots := Surplus(l, n, hi);
    forall q: Slot ensures ClearedAt(d, d', slots, q) && ElsewhereAt(d, d', l, q) {
      assert ClearedAt(d, d1, slots, q) && RangeAt(SlotRange(l, n, hi), l, n, hi, q);
    }
  }

  lemma ShrinkRecords(d: Disk, d1: Disk, d': Disk, l: Loc, size: nat)
    requires Shortened(d, d1, l) && d' == SetSize(d1, l, size)
    ensures (forall m :: OtherAfter(d, d', l, m)) && (forall m :: GoneAt(d, d', m))
  {
    forall m ensures OtherAfter(d, d', l, m) && GoneAt(d, d', m) { assert OtherAfter(d, d1, l, m) && GoneAt(d, d1, m); }
  }

  lemma ShrinkEffect(c: Contents, c1: Contents, c': Contents, o: map<nat, Slot>, o': map<nat, Slot>,
                     f: set<nat>, f': set<nat>, l: Loc, size: nat, n: nat, hi: nat)
    requires WithinSize(c.disk) && l in c.disk.files && hi == BlocksFor(c.disk.files[l].size) && n == BlocksFor(size)
    requires Clears(c.disk, c1.disk, o, o', f, f', Surplus(l, n, hi)) && Shortened(c.disk, c1.disk, l)
    requires c1.data == c.data && c' == c1.(disk := SetSize(c1.disk, l, size)) && SameBytes(c1, c')
    ensures Clears(c.disk, c'.disk, o, o', f, f', Surplus(l, n, hi)) && SizeSet(c, c', l, size)
  {
    ShrinkSlots(c.disk, c1.disk, c'.disk, o, o', f, f', l, size, n, hi);
    ShrinkRecords(c.disk, c1.disk, c'.disk, l, size);
    CutBytes(c, c1, o, o', f, f', l, n, hi);
    forall m, p: nat ensures CutAt(c, c', l, n, m, p) { assert CutAt(c, c1, l, n, m, p); }
  }

  const MAXFILESIZE: nat := MAXBLOCKS * BLKSIZE

  // How many bytes of a file of the given size lie in the count bytes from offset on.
  function Readable(size: nat, count: nat, offset: nat): (n: nat)
    ensures n <= count && (n > 0 ==> offset + n <= size) && (n == count || offset + n >= size)
  {
    if offset >= size then 0 else if count < size - offset then count else size - offset
  }

  // The length of the piece at pos that stays within one block and below end.
  function Piece(pos: nat, end: nat): nat
    requires pos < end
  {
    if BLKSIZE - pos % BLKSIZE < end - pos then BLKSIZE - pos % BLKSIZE else end - pos
  }

  ghost predicate Reads(c: Contents, l: Loc, offset: nat, buf: seq<int>) {
    forall i: nat :: i < |buf| ==> buf[i] == ByteAt(c, l, offset + i)
  }

  // Bytes of one block, read from position pos on.
  lemma ReadsMore(c: Contents, c': Contents, l: Loc, offset: nat, buf: seq<int>, pos: nat, piece: seq<int>)
    requires Reads(c, l, offset, buf) && SameBytes(c, c') && pos == offset + |buf| && Reads(c', l, pos, piece)
    ensures Reads(c, l, offset, buf + piece)
  {
    forall i: nat | i < |buf + piece| ensures (buf + piece)[i] == ByteAt(c, l, offset + i) {
      if i >= |buf| {
        assert piece[i - |buf|] == ByteAt(c', l, pos + (i - |buf|));
      }
    }
  }

  lemma PieceReads(c: Contents, l: Loc, pos: nat, k: nat, b: nat, piece: seq<int>)
    requires k == pos / BLKSIZE && k < MAXBLOCKS && b == PointerAt(c.disk, SlotOf(l, k)) && b != 0 && b in c.data
    requires |c.data[b]| == BLKSIZE && pos % BLKSIZE + |piece| <= BLKSIZE
    requires piece == c.data[b][pos % BLKSIZE..pos % BLKSIZE + |piece|]
    ensures Reads(c, l, pos, piece)
  {
    forall i: nat | i < |piece| ensures piece[i] == ByteAt(c, l, pos + i) {
      assert (pos + i) / BLKSIZE == k && (pos + i) % BLKSIZE == pos % BLKSIZE + i;
    }
  }

  // c' is c with the first done bytes of buf written to l from offset on.
  ghost predicate Wrote(c: Contents, c': Contents, l: Loc, offset: nat, buf: seq<int>, done: nat) {
    done <= |buf| && forall m, p: nat :: WroteAt(c, c', l, offset, buf, done, m, p)
  }

  ghost predicate WroteAt(c: Contents, c': Contents, l: Loc, offset: nat, buf: seq<int>, done: nat, m: Loc, p: nat)
    requires done <= |buf|
  {
    ByteAt(c', m, p) == if m == l && offset <= p < offset + done then buf[p - offset] else ByteAt(c, m, p)
  }

  lemma NothingWritten(c: Contents, l: Loc, offset: nat, buf: seq<int>)
    ensures Wrote(c, c, l, offset, buf, 0)
  {
  }

  lemma WroteThenSame(c: Contents, c1: Contents, c': Contents, l: Loc, offset: nat, buf: seq<int>, done: nat)
    requires Wrote(c, c1, l, offset, buf, done) && SameBytes(c1, c')
    ensures Wrote(c, c', l, offset, buf, done)
  {
    forall m, p: nat ensures WroteAt(c, c', l, offset, buf, done, m, p) {
      assert WroteAt(c, c1, l, offset, buf, done, m, p);
    }
  }

  lemma WroteAfterSame(c: Contents, c1: Contents, c': Contents, l: Loc, offset: nat, buf: seq<int>, done: nat)
    requires SameBytes(c, c1) && Wrote(c1, c', l, offset, buf, done)
    ensures Wrote(c, c', l, offset, buf, done)
  {
    forall m, p: nat ensures WroteAt(c, c', l, offset, buf, done, m, p) {
      assert WroteAt(c1, c', l, offset, buf, done, m, p);
    }
  }

  lemma WroteMore(c: Contents, c1: Contents, c': Contents, l: Loc, offset: nat, buf: seq<int>, done: nat, n: nat)
    requires Wrote(c, c1, l, offset, buf, done) && done + n <= |buf|
    requires Wrote(c1, c', l, offset + done, buf[done..done + n], n)
    ensures Wrote(c, c', l, offset, buf, done + n)
  {
    var next, from, piece := done + n, offset + done, buf[done..done + n];
    forall m, p: nat ensures WroteAt(c, c', l, offset, buf, next, m, p) {
      assert WroteAt(c, c1, l, offset, buf, done, m, p) && WroteAt(c1, c', l, from, piece, n, m, p);
    }
  }

  // Every position of l in a range has a block.
  ghost predicate NoHoles(d: Disk, l: Loc, lo: nat, hi: nat) {
    forall p: nat :: HasBlock(d, l, lo, hi, p)
  }

  ghost predicate HasBlock(d: Disk, l: Loc, lo: nat, hi: nat, p: nat) {
    lo <= p < hi ==> PointerAt(d, SlotOf(l, p / BLKSIZE)) != 0
  }

  lemma HoleWasThere(d: Disk, d1: Disk, l: Loc, lo: nat, hi: nat, p: nat)
    requires Extends(d, d1, l) && lo <= p < hi && PointerAt(d1, SlotOf(l, p / BLKSIZE)) == 0
    ensures !NoHoles(d, l, lo, hi)
  {
    assert KeptAt(d, d1, l, SlotOf(l, p / BLKSIZE));
    assert !HasBlock(d, l, lo, hi, p);
  }

  // One more piece of the range has its block.
  lemma HolesFilled(d: Disk, d': Disk, l: Loc, lo: nat, pos: nat, n: nat, hi: nat)
    requires NoHoles(d, l, lo, pos) && Extends(d, d', l) && hi == pos + n
    requires n <= BLKSIZE - pos % BLKSIZE && PointerAt(d', SlotOf(l, pos / BLKSIZE)) != 0
    ensures NoHoles(d', l, lo, hi)
  {
    forall p: nat ensures HasBlock(d', l, lo, hi, p) {
      assert HasBlock(d, l, lo, pos, p) && KeptAt(d, d', l, SlotOf(l, p / BLKSIZE));
    }
  }

  // l is written to: its size may change, and unused records may appear.
  ghost predicate Rewritten(d: Disk, d': Disk, l: Loc, size: nat) {
    && l in d.files && Live(d', l) && d.files.Keys <= d'.files.Keys
    && d'.files[l].size == size && d'.files[l].name == d.files[l].name && d'.files[l].isDir == d.files[l].isDir
    && (forall m :: OtherAfter(d, d', l, m))
    && (forall q: Slot :: ElsewhereAt(d, d', l, q))
  }

  lemma ResizedThenWalked(d: Disk, d1: Disk, d': Disk, l: Loc, size: nat)
    requires Live(d, l) && (d1 == SetSize(d, l, size) || (d1 == d && d.files[l].size == size)) && Walked(d1, d', l)
    ensures Rewritten(d, d', l, size)
  {
    forall m ensures OtherAfter(d, d', l, m) { assert OtherAfter(d1, d', l, m); }
    forall q: Slot ensures ElsewhereAt(d, d', l, q) { assert KeptAt(d1, d', l, q); }
  }

  lemma AllGone(d: Disk, d': Disk, o: map<nat, Slot>, o': map<nat, Slot>, f: set<nat>, f': set<nat>, l: Loc, hi: nat)
    requires WithinSize(d) && l in d.files && hi == BlocksFor(d.files[l].size) && l in d'.files
    requires Clears(d, d', o, o', f, f', Surplus(l, 0, hi))
    ensures Pointerless(d', l)
  {
    SurplusGone(d, d', o, o', f, f', l, 0, hi);
    forall q: Slot ensures BareAt(d', l, q) {
      if q.loc == l && q.Direct? && q.i < NDIRECT { assert q == SlotOf(l, q.i); }
    }
  }

  // The record of l is unused and its blocks are free; bytes of other files are as before.
  ghost predicate Removed(c: Contents, c': Contents, l: Loc) {
    && l in c'.disk.files && c'.disk.files[l] == ZERO_FILE
    && c'.disk.files.Keys <= c.disk.files.Keys
    && (l in c.disk.files && !c.disk.files[l].isDir ==> c'.disk.files.Keys == c.disk.files.Keys)
    && (forall m :: OtherAfter(c.disk, c'.disk, l, m)) && (forall m :: GoneAt(c.disk, c'.disk, m))
    && (forall m, p: nat :: CutAt(c, c', l, 0, m, p))
  }

  lemma RemoveSlots(d: Disk, d1: Disk, d': Disk, o: map<nat, Slot>, o': map<nat, Slot>, f: set<nat>, f': set<nat>,
                    l: Loc, slots: set<Slot>)
    requires Clears(d, d1, o, o', f, f', slots) && d' == PutRecord(d1, l, ZERO_FILE) && Pointerless(d1, l)
    ensures Clears(d, d', o, o', f, f', slots) && forall q: Slot :: PointerAt(d', q) == PointerAt(d1, q)
  {
    forall q: Slot ensures PointerAt(d', q) == PointerAt(d1, q) { assert BareAt(d1, l, q); }
    forall q: Slot ensures ClearedAt(d, d', slots, q) { assert ClearedAt(d, d1, slots, q); }
  }

  lemma RemoveRecords(d: Disk, d1: Disk, d': Disk, l: Loc)
    requires Shortened(d, d1, l) && d' == PutRecord(d1, l, ZERO_FILE)
    ensures (forall m :: OtherAfter(d, d', l, m)) && (forall m :: GoneAt(d, d', m))
  {
    forall m ensures OtherAfter(d, d', l, m) && GoneAt(d, d', m) { assert OtherAfter(d, d1, l, m) && GoneAt(d, d1, m); }
  }

  lemma RemoveEffect(c: Contents, c1: Contents, c': Contents, o: map<nat, Slot>, o': map<nat, Slot>,
                     f: set<nat>, f': set<nat>, l: Loc, hi: nat)
    requires WithinSize(c.disk) && l in c.disk.files && hi == BlocksFor(c.disk.files[l].size)
    requires Clears(c.disk, c1.disk, o, o', f, f', Surplus(l, 0, hi)) && Shortened(c.disk, c1.disk, l)
    requires c1.data == c.data && c' == c1.(disk := PutRecord(c1.disk, l, ZERO_FILE)) && Pointerless(c1.disk, l)
    ensures Clears(c.disk, c'.disk, o, o', f, f', Surplus(l, 0, hi)) && Removed(c, c', l)
  {
    RemoveSlots(c.disk, c1.disk, c'.disk, o, o', f, f', l, Surplus(l, 0, hi));
    RemoveRecords(c.disk, c1.disk, c'.disk, l);
    CutBytes(c, c1, o, o', f, f', l, 0, hi);
    forall m, p: nat ensures CutAt(c, c', l, 0, m, p) { assert CutAt(c, c1, l, 0, m, p); }
  }

  lemma WalkedTrans(d: Disk, d1: Disk, d': Disk, l: Loc)
    requires Walked(d, d1, l) && Walked(d1, d', l)
    ensures Walked(d, d', l)
  {
    forall m ensures OtherAfter(d, d', l, m) { assert OtherAfter(d, d1, l, m) && OtherAfter(d1, d', l, m); }
    forall q: Slot ensures KeptAt(d, d', l, q) { assert KeptAt(d, d1, l, q) && KeptAt(d1, d', l, q); }
  }

  // Blocks that must be allocated before block n of l can be used.
  ghost function Needed(d: Disk, l: Loc, n: nat): nat
    requires l in d.files
  {
    (if n >= NDIRECT && d.files[l].indirect == 0 then 1 else 0) + if PointerAt(d, SlotOf(l, n)) == 0 then 1 else 0
  }

  // ----- How many blocks a range takes -----

  // The blocks from m up to n that l does not have.
  ghost function Absent(d: Disk, l: Loc, m: nat, n: nat): nat
    decreases n
  {
    if n <= m then 0 else Absent(d, l, m, n - 1) + if PointerAt(d, SlotOf(l, n - 1)) == 0 then 1 else 0
  }

  // The blocks that must be allocated before all of them can be used: with them the indirect block, if they reach it.
  ghost function Missing(d: Disk, l: Loc, m: nat, n: nat): nat
    requires l in d.files
  {
    Absent(d, l, m, n) + if m < n && n > NDIRECT && d.files[l].indirect == 0 then 1 else 0
  }

  lemma {:induction false} MissingGrows(d: Disk, l: Loc, m: nat, j: nat, n: nat)
    requires l in d.files && m <= j <= n
    ensures Missing(d, l, m, j) <= Missing(d, l, m, n)
    decreases n
  {
    if j < n { MissingGrows(d, l, m, j, n - 1); }
  }

  // A range without holes takes no block.
  lemma {:induction false} NoneAbsent(d: Disk, l: Loc, offset: nat, end: nat, n: nat)
    requires NoHoles(d, l, offset, end) && offset < end && n <= BlocksFor(end)
    ensures Absent(d, l, offset / BLKSIZE, n) == 0
    decreases n
  {
    if n > offset / BLKSIZE {
      NoneAbsent(d, l, offset, end, n - 1);
      var p := if n - 1 == offset / BLKSIZE then offset else (n - 1) * BLKSIZE;
      assert offset <= p < end && p / BLKSIZE == n - 1;
      assert HasBlock(d, l, offset, end, p);
    }
  }

  lemma NoneMissing(d: Disk, l: Loc, offset: nat, end: nat)
    requires l in d.files && NoHoles(d, l, offset, end) && offset < end
    ensures Missing(d, l, offset / BLKSIZE, BlocksFor(end)) == 0
  {
    NoneAbsent(d, l, offset, end, BlocksFor(end));
    assert HasBlock(d, l, offset, end, end - 1);
  }

  // d' differs from d in having blocks m to k of l: the later ones are as they were.
  ghost predicate Had(d: Disk, d': Disk, l: Loc, m: nat, k: nat) {
    && l in d.files && l in d'.files && (forall j: nat :: LaterAt(d, d', l, k, j))
    && (d'.files[l].indirect != 0 <==> d.files[l].indirect != 0 || (m < k && k > NDIRECT))
  }

  ghost predicate LaterAt(d: Disk, d': Disk, l: Loc, k: nat, j: nat) {
    j >= k ==> PointerAt(d', SlotOf(l, j)) == PointerAt(d, SlotOf(l, j))
  }

  // d' differs from d, as far as the blocks of l go, in having block n.
  ghost predicate GotBlock(d: Disk, d': Disk, l: Loc, n: nat) {
    && l in d.files && l in d'.files && (forall j: nat :: OthersAt(d, d', l, n, j))
    && (d'.files[l].indirect != 0 <==> d.files[l].indirect != 0 || n >= NDIRECT)
  }

  ghost predicate OthersAt(d: Disk, d': Disk, l: Loc, n: nat, j: nat) {
    j != n ==> PointerAt(d', SlotOf(l, j)) == PointerAt(d, SlotOf(l, j))
  }

  lemma GotIndirect(d: Disk, d': Disk, l: Loc, b: nat, n: nat)
    requires IndirectAdded(d, d', l, b) && n >= NDIRECT
    ensures GotBlock(d, d', l, n)
  {
    forall j: nat ensures OthersAt(d, d', l, n, j) { assert SlotAfter(d, d', Indirect(l), b, SlotOf(l, j)); }
  }

  lemma GotSlot(d: Disk, d': Disk, l: Loc, n: nat, b: nat)
    requires l in d.files && l in d'.files && OneSlot(d, d', SlotOf(l, n), b) && Writable(d, SlotOf(l, n))
    ensures GotBlock(d, d', l, n)
  {
    forall j: nat ensures OthersAt(d, d', l, n, j) { assert SlotAfter(d, d', SlotOf(l, n), b, SlotOf(l, j)); }
    assert SlotAfter(d, d', SlotOf(l, n), b, Indirect(l));
  }

  lemma GotBoth(d: Disk, d1: Disk, d': Disk, l: Loc, n: nat)
    requires GotBlock(d, d1, l, n) && GotBlock(d1, d', l, n)
    ensures GotBlock(d, d', l, n)
  {
    forall j: nat ensures OthersAt(d, d', l, n, j) { assert OthersAt(d, d1, l, n, j) && OthersAt(d1, d', l, n, j); }
  }

  // What the next block takes.
  lemma NextMissing(d: Disk, d1: Disk, l: Loc, m: nat, k: nat, next: nat)
    requires Had(d, d1, l, m, k) && m <= k && next == k + 1
    ensures Missing(d, l, m, next) == Missing(d, l, m, k) + Needed(d1, l, k)
  {
    assert LaterAt(d, d1, l, k, k);
  }

  lemma HadNext(d: Disk, d1: Disk, d': Disk, l: Loc, m: nat, k: nat, next: nat)
    requires Had(d, d1, l, m, k) && GotBlock(d1, d', l, k) && m <= k && next == k + 1
    ensures Had(d, d', l, m, next)
  {
    forall j: nat ensures LaterAt(d, d', l, next, j) { assert LaterAt(d, d1, l, k, j) && OthersAt(d1, d', l, k, j); }
  }

  // A loop over blocks m to hi of l, with free blocks to begin with, stopped at block k with this status.
  ghost predicate Stops(d: Disk, l: Loc, m: nat, hi: nat, free: nat, k: nat, st: Status) {
    && l in d.files && m <= k <= hi && Missing(d, l, m, k) <= free && (m < k ==> k <= MAXBLOCKS)
    && match st
       case Ok => k == hi
       case EInval => MAXBLOCKS <= k < hi
       case ENoDisk => k < hi && k < MAXBLOCKS && Missing(d, l, m, k + 1) > free
       case ENotFound => false
  }

  lemma {:induction false} SameAbsent(d: Disk, d': Disk, l: Loc, m: nat, n: nat)
    requires l in d.files && (d' == d || exists size :: d' == SetSize(d, l, size))
    ensures Absent(d', l, m, n) == Absent(d, l, m, n)
    decreases n
  {
    if m < n { SameAbsent(d, d', l, m, n - 1); }
  }

  // The size of a file does not matter for the blocks that it has.
  lemma SameStops(d: Disk, d': Disk, l: Loc, m: nat, hi: nat, free: nat, k: nat, st: Status)
    requires l in d.files && (d' == d || exists size :: d' == SetSize(d, l, size)) && Stops(d', l, m, hi, free, k, st)
    ensures Stops(d, l, m, hi, free, k, st)
  {
    SameAbsent(d, d', l, m, k);
    SameAbsent(d, d', l, m, k + 1);
  }

  // Then the status is decided by the blocks there are and the blocks it takes.
  lemma StopsExactly(d: Disk, l: Loc, m: nat, hi: nat, free: nat, k: nat, st: Status)
    requires Stops(d, l, m, hi, free, k, st) && m < hi
    ensures st == Ok <==> hi <= MAXBLOCKS && Missing(d, l, m, hi) <= free
    ensures st == EInval <==> hi > MAXBLOCKS && (m >= MAXBLOCKS || Missing(d, l, m, MAXBLOCKS) <= free)
  {
    if k < hi { MissingGrows(d, l, m, k + 1, hi); }
    if k < MAXBLOCKS <= hi { MissingGrows(d, l, m, k + 1, MAXBLOCKS); }
    if hi <= MAXBLOCKS && k < MAXBLOCKS { MissingGrows(d, l, m, k, hi); }
  }

  // The first block behind the range.
  function LastBlock(offset: nat, end: nat): nat {
    if offset < end then BlocksFor(end) else offset / BLKSIZE
  }

  // The position that a loop over the range has reached when it comes to block k; m is the block of offset.
  function Reached(m: nat, offset: nat, end: nat, k: nat): nat {
    if k <= m then offset else if k * BLKSIZE < end then k * BLKSIZE else end
  }

  // Blocks m to hi are those of the range.
  predicate Covers(m: nat, hi: nat, offset: nat, end: nat) {
    offset <= end && m == offset / BLKSIZE && hi == LastBlock(offset, end)
  }

  lemma ReachedNext(m: nat, hi: nat, offset: nat, end: nat, k: nat, pos: nat, next: nat)
    requires Covers(m, hi, offset, end) && m <= k && pos == Reached(m, offset, end, k) < end && pos / BLKSIZE == k
    requires next == pos + Piece(pos, end)
    ensures next == Reached(m, offset, end, k + 1) && pos < next <= end && k + 1 <= hi
    ensures next < end ==> next / BLKSIZE == k + 1 && k + 1 < hi
    ensures next == end ==> k + 1 == hi
  {
  }

  // How far a loop over blocks m to hi of l has got since state d, with free blocks: it is at block k.
  ghost predicate Looping(d: Disk, d': Disk, l: Loc, m: nat, hi: nat, free: nat, free': nat, k: nat) {
    && l in d.files && m <= k <= hi && (m < k ==> k <= MAXBLOCKS)
    && Had(d, d', l, m, k) && free' + Missing(d, l, m, k) == free
  }

  // The loop is at position pos.
  ghost predicate At(m: nat, hi: nat, offset: nat, end: nat, k: nat, pos: nat) {
    && Covers(m, hi, offset, end) && m <= k <= hi && offset <= pos == Reached(m, offset, end, k) <= end
    && (pos < end ==> pos / BLKSIZE == k && k < hi) && (pos == end ==> k == hi)
  }

  lemma AtFirst(m: nat, hi: nat, offset: nat, end: nat)
    requires Covers(m, hi, offset, end)
    ensures At(m, hi, offset, end, m, offset)
  {
  }

  lemma AtNext(m: nat, hi: nat, offset: nat, end: nat, k: nat, pos: nat, next: nat)
    requires At(m, hi, offset, end, k, pos) && pos < end && next == pos + Piece(pos, end)
    ensures At(m, hi, offset, end, k + 1, next)
  {
    ReachedNext(m, hi, offset, end, k, pos, next);
  }

  lemma LoopStarts(d: Disk, l: Loc, m: nat, hi: nat, free: nat)
    requires l in d.files && m <= hi
    ensures Looping(d, d, l, m, hi, free, free, m)
  {
    forall j: nat ensures LaterAt(d, d, l, m, j) {}
  }

  lemma LoopGoesOn(d: Disk, d1: Disk, d': Disk, l: Loc, m: nat, hi: nat, free: nat, free1: nat, free': nat, k: nat)
    requires Looping(d, d1, l, m, hi, free, free1, k) && k < hi && k < MAXBLOCKS
    requires GotBlock(d1, d', l, k) && free' == free1 - Needed(d1, l, k)
    ensures Looping(d, d', l, m, hi, free, free', k + 1)
  {
    NextMissing(d, d1, l, m, k, k + 1);
    HadNext(d, d1, d', l, m, k, k + 1);
  }

  // The loop ends, because the range does or because block k cannot be had.
  lemma LoopStops(d: Disk, d1: Disk, l: Loc, m: nat, hi: nat, free: nat, free1: nat, k: nat, st: Status)
    requires Looping(d, d1, l, m, hi, free, free1, k) && st != ENotFound
    requires (st == Ok <==> k == hi) && (st == EInval <==> k < hi && k >= MAXBLOCKS)
    requires st == ENoDisk ==> free1 < Needed(d1, l, k)
    ensures Stops(d, l, m, hi, free, k, st)
  {
    NextMissing(d, d1, l, m, k, k + 1);
  }

  // Block k of l was asked for: what became of the blocks.
  ghost predicate Asked(d: Disk, d': Disk, free: nat, free': nat, l: Loc, k: nat, st: Status) {
    && l in d.files && Walked(d, d', l) && st != ENotFound
    && (st == EInval <==> k >= MAXBLOCKS) && (st == ENoDisk <==> k < MAXBLOCKS && free < Needed(d, l, k))
    && (st == Ok ==> GotBlock(d, d', l, k) && free' == free - Needed(d, l, k) && PointerAt(d', SlotOf(l, k)) != 0)
  }

  // The loop is at block k and position pos.
  ghost predicate Going(d: Disk, d': Disk, l: Loc, m: nat, hi: nat, offset: nat, end: nat, free: nat, free': nat, k: nat,
                        pos: nat)
  {
    && Live(d', l) && end <= d'.files[l].size && Walked(d, d', l)
    && Looping(d, d', l, m, hi, free, free', k) && At(m, hi, offset, end, k, pos)
  }

  lemma StartsGoing(d: Disk, l: Loc, m: nat, hi: nat, offset: nat, end: nat, free: nat)
    requires Live(d, l) && Covers(m, hi, offset, end) && end <= d.files[l].size
    ensures Going(d, d, l, m, hi, offset, end, free, free, m, offset)
  {
    NothingChanged(d, l);
    LoopStarts(d, l, m, hi, free);
    AtFirst(m, hi, offset, end);
  }

  // What the answer means for the loop.
  lemma GoesOn(d: Disk, d1: Disk, d': Disk, l: Loc, m: nat, hi: nat, offset: nat, end: nat, free: nat, free1: nat,
               free': nat, k: nat, pos: nat, st: Status)
    requires Going(d, d1, l, m, hi, offset, end, free, free1, k, pos) && pos < end && Asked(d1, d', free1, free', l, k, st)
    ensures Walked(d, d', l)
    ensures if st == Ok then Going(d, d', l, m, hi, offset, end, free, free', k + 1, pos + Piece(pos, end))
            else Stops(d, l, m, hi, free, k, st)
  {
    WalkedTrans(d, d1, d', l);
    if st == Ok {
      LoopGoesOn(d, d1, d', l, m, hi, free, free1, free', k);
      AtNext(m, hi, offset, end, k, pos, pos + Piece(pos, end));
      assert OtherAfter(d1, d', l, l);
    } else {
      LoopStops(d, d1, l, m, hi, free, free1, k, st);
    }
  }

  lemma SameBytesTwice(c: Contents, c1: Contents, c': Contents)
    requires SameBytes(c, c1) && SameBytes(c1, c')
    ensures SameBytes(c, c')
  {
  }

  // The bytes that file_read has got so far.
  ghost predicate ReadTo(c: Contents, c': Contents, l: Loc, offset: nat, buf: seq<int>) {
    SameBytes(c, c') && Reads(c, l, offset, buf)
  }

  lemma ReadsOn(c: Contents, c1: Contents, c': Contents, l: Loc, offset: nat, buf: seq<int>, piece: seq<int>)
    requires ReadTo(c, c1, l, offset, buf) && SameBytes(c1, c') && Reads(c', l, offset + |buf|, piece)
    ensures ReadTo(c, c', l, offset, buf + piece)
  {
    SameBytesTwice(c, c1, c');
    ReadsMore(c, c', l, offset, buf, offset + |buf|, piece);
  }

  // file_read goes on, at block k.
  ghost predicate StillReading(c: Contents, c': Contents, l: Loc, m: nat, hi: nat, offset: nat, end: nat, free: nat,
                               free': nat, k: nat, buf: seq<int>)
  {
    && ReadTo(c, c', l, offset, buf)
    && Going(c.disk, c'.disk, l, m, hi, offset, end, free, free', k, offset + |buf|)
  }

  // The loop of file_read has ended at block k.
  ghost predicate EndedReading(c: Contents, c': Contents, l: Loc, m: nat, hi: nat, offset: nat, end: nat, free: nat,
                               k: nat, buf: seq<int>, st: Status)
  {
    && Walked(c.disk, c'.disk, l) && ReadTo(c, c', l, offset, buf)
    && At(m, hi, offset, end, k, offset + |buf|) && Stops(c.disk, l, m, hi, free, k, st)
  }

  // A piece at pos was to be read, and the state c1 became c'.
  ghost predicate PieceRead(c1: Contents, c': Contents, free1: nat, free': nat, l: Loc, pos: nat, end: nat, piece: seq<int>,
                            st: Status)
    requires pos < end
  {
    && SameBytes(c1, c') && Asked(c1.disk, c'.disk, free1, free', l, pos / BLKSIZE, st)
    && (st == Ok ==> |piece| == Piece(pos, end) && Reads(c', l, pos, piece))
  }

  lemma ReadStep(c: Contents, c1: Contents, c': Contents, l: Loc, m: nat, hi: nat, offset: nat, end: nat, free: nat,
                 free1: nat, free': nat, k: nat, buf: seq<int>, piece: seq<int>, st: Status)
    requires StillReading(c, c1, l, m, hi, offset, end, free, free1, k, buf) && offset + |buf| < end
    requires PieceRead(c1, c', free1, free', l, offset + |buf|, end, piece, st)
    ensures if st == Ok then StillReading(c, c', l, m, hi, offset, end, free, free', k + 1, buf + piece) && piece != []
            else EndedReading(c, c', l, m, hi, offset, end, free, k, buf, st)
  {
    GoesOn(c.disk, c1.disk, c'.disk, l, m, hi, offset, end, free, free1, free', k, offset + |buf|, st);
    if st == Ok {
      ReadsOn(c, c1, c', l, offset, buf, piece);
    } else {
      SameBytesTwice(c, c1, c');
    }
  }

  lemma ReadFinished(c: Contents, c': Contents, l: Loc, m: nat, hi: nat, offset: nat, end: nat, free: nat, free': nat,
                     k: nat, buf: seq<int>)
    requires StillReading(c, c', l, m, hi, offset, end, free, free', k, buf) && offset + |buf| >= end
    ensures EndedReading(c, c', l, m, hi, offset, end, free, k, buf, Ok)
  {
    LoopStops(c.disk, c'.disk, l, m, hi, free, free', k, Ok);
  }

  // The bytes that file_write has written so far.
  ghost predicate WrittenTo(c: Contents, c': Contents, l: Loc, offset: nat, buf: seq<int>, done: nat) {
    done <= |buf| && Wrote(c, c', l, offset, buf, done) && NoHoles(c'.disk, l, offset, offset + done)
  }

  lemma WritesOn(c: Contents, c1: Contents, c': Contents, l: Loc, offset: nat, buf: seq<int>, done: nat, n: nat)
    requires WrittenTo(c, c1, l, offset, buf, done) && done + n <= |buf| && Walked(c1.disk, c'.disk, l)
    requires n <= BLKSIZE - (offset + done) % BLKSIZE
    requires Wrote(c1, c', l, offset + done, buf[done..done + n], n)
    requires PointerAt(c'.disk, SlotOf(l, (offset + done) / BLKSIZE)) != 0
    ensures WrittenTo(c, c', l, offset, buf, done + n)
  {
    HolesFilled(c1.disk, c'.disk, l, offset, offset + done, n, offset + done + n);
    WroteMore(c, c1, c', l, offset, buf, done, n);
  }

  // A piece at pos was to be written, and the state c1 became c'.
  ghost predicate PieceDone(c1: Contents, c': Contents, free1: nat, free': nat, l: Loc, pos: nat, piece: seq<int>, st: Status)
  {
    && Asked(c1.disk, c'.disk, free1, free', l, pos / BLKSIZE, st)
    && if st == Ok then Wrote(c1, c', l, pos, piece, |piece|) else SameBytes(c1, c')
  }

  // file_write goes on, at block k.
  ghost predicate StillWriting(c: Contents, c': Contents, l: Loc, m: nat, hi: nat, offset: nat, free: nat, free': nat,
                               k: nat, buf: seq<int>, done: nat)
  {
    && WrittenTo(c, c', l, offset, buf, done)
    && Going(c.disk, c'.disk, l, m, hi, offset, offset + |buf|, free, free', k, offset + done)
  }

  // The loop of file_write has ended at block k.
  ghost predicate EndedWriting(c: Contents, c': Contents, l: Loc, m: nat, hi: nat, offset: nat, free: nat, k: nat,
                               buf: seq<int>, done: nat, st: Status)
  {
    && Walked(c.disk, c'.disk, l) && Wrote(c, c', l, offset, buf, done)
    && At(m, hi, offset, offset + |buf|, k, offset + done) && Stops(c.disk, l, m, hi, free, k, st)
    && (st == Ok ==> done == |buf| && NoHoles(c'.disk, l, offset, offset + |buf|))
  }

  lemma WriteFinished(c: Contents, c': Contents, l: Loc, m: nat, hi: nat, offset: nat, free: nat, free': nat, k: nat,
                      buf: seq<int>, done: nat)
    requires StillWriting(c, c', l, m, hi, offset, free, free', k, buf, done) && done >= |buf|
    ensures EndedWriting(c, c', l, m, hi, offset, free, k, buf, done, Ok)
  {
    LoopStops(c.disk, c'.disk, l, m, hi, free, free', k, Ok);
  }

  lemma WriteStarts(c: Contents, l: Loc, m: nat, hi: nat, offset: nat, free: nat, buf: seq<int>)
    requires Live(c.disk, l) && Covers(m, hi, offset, offset + |buf|) && offset + |buf| <= c.disk.files[l].size
    ensures StillWriting(c, c, l, m, hi, offset, free, free, m, buf, 0)
  {
    NothingWritten(c, l, offset, buf);
    StartsGoing(c.disk, l, m, hi, offset, offset + |buf|, free);
  }

  lemma WriteStep(c: Contents, c1: Contents, c': Contents, l: Loc, m: nat, hi: nat, offset: nat, free: nat, free1: nat,
                  free': nat, k: nat, buf: seq<int>, done: nat, n: nat, st: Status)
    requires StillWriting(c, c1, l, m, hi, offset, free, free1, k, buf, done) && done < |buf|
    requires n == Piece(offset + done, offset + |buf|)
    requires PieceDone(c1, c', free1, free', l, offset + done, buf[done..done + n], st)
    ensures if st == Ok then StillWriting(c, c', l, m, hi, offset, free, free', k + 1, buf, done + n)
            else EndedWriting(c, c', l, m, hi, offset, free, k, buf, done, st)
  {
    var end := offset + |buf|;
    GoesOn(c.disk, c1.disk, c'.disk, l, m, hi, offset, end, free, free1, free', k, offset + done, st);
    if st == Ok {
      WritesOn(c, c1, c', l, offset, buf, done, n);
    } else {
      WroteThenSame(c, c1, c', l, offset, buf, done);
    }
  }

  // Work on the positions from offset up to end of l, in a state d with free blocks, ended with this status at block k and
  // position pos. It succeeds exactly if the range lies within the largest size and there are blocks enough; otherwise it
  // ends at the first block that is out of range or that cannot be had.
  ghost predicate RangeStatus(d: Disk, l: Loc, offset: nat, end: nat, free: nat, pos: nat, k: nat, st: Status) {
    && l in d.files && offset < end && pos == Reached(offset / BLKSIZE, offset, end, k)
    && (st == Ok <==> end <= MAXFILESIZE && Missing(d, l, offset / BLKSIZE, BlocksFor(end)) <= free)
    && (st == EInval <==>
          end > MAXFILESIZE
          && (offset >= MAXFILESIZE || Missing(d, l, offset / BLKSIZE, MAXBLOCKS) <= free))
    && (st == EInval ==> k == if offset >= MAXFILESIZE then offset / BLKSIZE else MAXBLOCKS)
    && (st == ENoDisk ==>
          && offset / BLKSIZE <= k < BlocksFor(end) && k < MAXBLOCKS
          && Missing(d, l, offset / BLKSIZE, k) <= free < Missing(d, l, offset / BLKSIZE, k + 1))
    && st != ENotFound
  }

  lemma RangeDecides(d: Disk, l: Loc, offset: nat, end: nat, free: nat, k: nat, st: Status)
    requires Stops(d, l, offset / BLKSIZE, LastBlock(offset, end), free, k, st) && offset < end
    ensures RangeStatus(d, l, offset, end, free, Reached(offset / BLKSIZE, offset, end, k), k, st)
  {
    StopsExactly(d, l, offset / BLKSIZE, BlocksFor(end), free, k, st);
    assert BlocksFor(end) <= MAXBLOCKS <==> end <= MAXFILESIZE;
    assert offset / BLKSIZE >= MAXBLOCKS <==> offset >= MAXFILESIZE;
  }

  lemma WriteEnds(d: Disk, d1: Disk, l: Loc, offset: nat, n: nat, free: nat, k: nat, st: Status)
    requires l in d.files && (d1 == d || exists size :: d1 == SetSize(d, l, size))
    requires Stops(d1, l, offset / BLKSIZE, LastBlock(offset, offset + n), free, k, st)
    ensures n == 0 ==> st == Ok
    ensures n > 0 ==>
              RangeStatus(d, l, offset, offset + n, free, Reached(offset / BLKSIZE, offset, offset + n, k), k, st)
  {
    SameStops(d, d1, l, offset / BLKSIZE, LastBlock(offset, offset + n), free, k, st);
    if n > 0 { RangeDecides(d, l, offset, offset + n, free, k, st); }
  }

  // What file_read has made of c, and its result, when it was to read n bytes.
  ghost predicate FileGot(c: Contents, c': Contents, l: Loc, offset: nat, n: nat, free: nat, buf: seq<int>, k: nat,
                          st: Status)
  {
    && SameBytes(c, c') && Walked(c.disk, c'.disk, l)
    && Reads(c, l, offset, buf) && (st == Ok ==> |buf| == n)
    && (n == 0 ==> st == Ok)
    && (n > 0 ==> RangeStatus(c.disk, l, offset, offset + n, free, offset + |buf|, k, st))
  }

  lemma ReadDone(c: Contents, c': Contents, l: Loc, offset: nat, n: nat, free: nat, buf: seq<int>, k: nat, st: Status)
    requires l in c.disk.files
    requires EndedReading(c, c', l, offset / BLKSIZE, LastBlock(offset, offset + n), offset, offset + n, free, k, buf, st)
    ensures FileGot(c, c', l, offset, n, free, buf, k, st)
  {
    if n > 0 { RangeDecides(c.disk, l, offset, offset + n, free, k, st); }
  }

  // What file_write has made of c, and its result.
  ghost predicate FileWritten(c: Contents, c': Contents, l: Loc, offset: nat, buf: seq<int>, free: nat, done: nat, k: nat,
                              st: Status)
  {
    var end := offset + |buf|;
    && l in c.disk.files
    && Rewritten(c.disk, c'.disk, l, if end > c.disk.files[l].size then end else c.disk.files[l].size)
    && (buf == [] ==> st == Ok)
    && (buf != [] ==> RangeStatus(c.disk, l, offset, end, free, offset + done, k, st))
    && Wrote(c, c', l, offset, buf, done)
    && (st == Ok ==> done == |buf| && NoHoles(c'.disk, l, offset, end))
  }

  lemma WriteDone(c: Contents, c1: Contents, c': Contents, l: Loc, offset: nat, buf: seq<int>, free: nat, done: nat,
                  k: nat, st: Status)
    requires Live(c.disk, l) && SameBytes(c, c1)
    requires var end := offset + |buf|;
             c1.disk == if end > c.disk.files[l].size then SetSize(c.disk, l, end) else c.disk
    requires EndedWriting(c1, c', l, offset / BLKSIZE, LastBlock(offset, offset + |buf|), offset, free, k, buf, done, st)
    ensures FileWritten(c, c', l, offset, buf, free, done, k, st)
  {
    WriteEnds(c.disk, c1.disk, l, offset, |buf|, free, k, st);
    ResizedThenWalked(c.disk, c1.disk, c'.disk, l, c1.disk.files[l].size);
    WroteAfterSame(c, c1, c', l, offset, buf, done);
  }

  lemma EmptyDiskGood(c: Contents, root: File)
    requires root == EmptyFile("/", true) && c == Contents(Disk(map[Root := root], map[]), map[])
    ensures Good(c, map[])
  {
    var none: map<nat, Slot> := map[];
    forall r: Slot ensures NamedAt(c.disk, none, r) && BackedAt(c, r) {}
    forall b: nat ensures OwnsAt(c.disk, none, b) {}
    forall l ensures FormedAt(c.disk, l) && SizeFits(c.disk, l) && UnusedAt(c.disk, l) {}
    forall l, k: nat ensures EmptyPast(c.disk, l, k) {}
    forall b: nat, j: nat ensures RecordAt(c.disk, none, b, j) {}
  }

  class FileSystem {
    const nblocks: nat
    ghost const reserved: set<nat>
    var words: seq<nat>
    var files: map<Loc, File>
    var table: map<nat, seq<nat>>
    var data: map<nat, seq<int>>
    ghost var owner: map<nat, Slot>

    ghost function D(): Disk
      reads this
    {
      Disk(files, table)
    }

    ghost function C(): Contents
      reads this
    {
      Contents(D(), data)
    }

    ghost function Free(): set<nat>
      reads this
    {
      FreeSet(words, nblocks)
    }

    // held: blocks taken from the bitmap and not yet named by a slot.
    ghost predicate Valid(held: set<nat>)
      reads this
    {
      && nblocks <= 32 * |words| && 0 in reserved
      && Good(C(), owner)
      && Partition(nblocks, reserved, Free(), owner.Keys, held)
    }

    // A disk with an empty root directory, as fs_init finds it: the blocks in use are the reserved ones.
    constructor (bitmap: seq<nat>, n: nat)
      requires 0 < n <= 32 * |bitmap| && !IsFree(bitmap, 0)
      ensures Valid({}) && owner == map[] && files.Keys == {Root} && nblocks == n
      ensures Free() == FreeSet(bitmap, n) && files[Root] == EmptyFile("/", true)
    {
      nblocks := n;
      reserved := Below(n) - FreeSet(bitmap, n);
      words := bitmap;
      files := map[Root := EmptyFile("/", true)];
      table := map[];
      data := map[];
      owner := map[];
      new;
      EmptyDiskGood(C(), EmptyFile("/", true));
      forall x: nat ensures PlaceOf(nblocks, reserved, Free(), {}, {}, x) {}
    }

    // alloc_block; 0 stands for -E_NO_DISK.
    method AllocBlock(ghost held: set<nat>) returns (b: nat)
      requires Valid(held)
      modifies this`words
      ensures b == 0 <==> old(Free()) == {}
      ensures b == 0 ==> words == old(words)
      ensures b != 0 ==>
                && b in old(Free()) && (forall x :: x in old(Free()) ==> b <= x)
                && Free() == old(Free()) - {b}
      ensures Valid(if b == 0 then held else held + {b})
    {
      b := LowestFree(words, nblocks);
      if b == nblocks { return 0; }
      FreeSetChanges(words, nblocks, b);
      TakeFree(nblocks, reserved, Free(), owner.Keys, held, b);
      words := SetUsed(words, b);
    }

    // free_block; the panic for block 0 appears as a precondition of the callers' bookkeeping.
    method FreeBlock(b: nat)
      requires 0 < b < nblocks <= 32 * |words|
      modifies this`words
      ensures Free() == old(Free()) + {b} && |words| == |old(words)|
    {
      FreeSetChanges(words, nblocks, b);
      words := SetFree(words, b);
    }

    // Makes the held block b the zeroed indirect block of l.
    method LinkIndirect(l: Loc, b: nat)
      requires Valid({b}) && Live(D(), l) && files[l].indirect == 0 && BlocksFor(files[l].size) > NDIRECT
      modifies this`files, this`table, this`owner
      ensures Valid({}) && SameBytes(old(C()), C()) && OwnersKept(old(owner), owner)
      ensures IndirectAdded(old(D()), D(), l, b)
    {
      OwnHeld(nblocks, reserved, Free(), owner.Keys, {b}, b);
      LinkIndirectGood(C(), owner, l, b);
      ghost var c' := C().(disk := AddIndirect(D(), l, b));
      files := files[l := files[l].(indirect := b)];
      table := table[b := seq(NINDIRECT, i => 0)];
      owner := owner[b := Indirect(l)];
      assert C() == c';
      assert {b} - {b} == {} && owner.Keys == old(owner).Keys + {b};
    }

    // Gives l an indirect block, unless the disk is full.
    method NewIndirect(l: Loc) returns (st: Status)
      requires Valid({}) && Live(D(), l) && files[l].indirect == 0 && BlocksFor(files[l].size) > NDIRECT
      modifies this`words, this`files, this`table, this`owner
      ensures Valid({}) && SameBytes(old(C()), C()) && OwnersKept(old(owner), owner)
      ensures st == if old(Free()) == {} then ENoDisk else Ok
      ensures st == ENoDisk ==> D() == old(D()) && words == old(words)
      ensures st == Ok ==>
                && l in files && IndirectAdded(old(D()), D(), l, files[l].indirect)
                && OneTaken(old(Free()), Free(), files[l].indirect)
    {
      var b := AllocBlock({});
      if b == 0 { return ENoDisk; }
      assert {} + {b} == {b};
      LinkIndirect(l, b);
      st := Ok;
    }

    // file_block_walk: makes sure that the slot of block n exists.
    method FileBlockWalk(l: Loc, n: nat, alloc: bool) returns (st: Status)
      requires Valid({}) && Live(D(), l) && (alloc ==> n < BlocksFor(files[l].size) || n >= MAXBLOCKS)
      modifies this`words, this`files, this`table, this`owner
      ensures Valid({}) && SameBytes(old(C()), C()) && OwnersKept(old(owner), owner) && Walked(old(D()), D(), l)
      ensures st == EInval <==> n >= MAXBLOCKS
      ensures st == ENotFound <==> NDIRECT <= n < MAXBLOCKS && old(files)[l].indirect == 0 && !alloc
      ensures st == ENoDisk <==> NDIRECT <= n < MAXBLOCKS && old(files)[l].indirect == 0 && alloc && old(Free()) == {}
      ensures st == Ok ==> Provided(old(D()), D(), l, n, |old(Free())|, |Free()|)
      ensures !alloc ==> D() == old(D()) && words == old(words) && owner == old(owner)
      ensures st != Ok ==> D() == old(D()) && words == old(words)
      ensures st == Ok ==> GotBlock(old(D()), D(), l, n)
      ensures n < NDIRECT || old(files)[l].indirect != 0 ==> D() == old(D()) && words == old(words)
    {
      NothingChanged(D(), l);
      if n >= MAXBLOCKS { return EInval; }
      if n < NDIRECT { return Ok; }
      if files[l].indirect == 0 {
        if !alloc { return ENotFound; }
        ghost var d, free := D(), Free();
        st := NewIndirect(l);
        if st == Ok {
          IndirectWalked(d, D(), l, files[l].indirect, n, free, Free());
          GotIndirect(d, D(), l, files[l].indirect, n);
        }
        return;
      }
      st := Ok;
    }

    // *pdiskbno, for the slot of block n.
    method GetSlot(l: Loc, n: nat) returns (b: nat)
      requires Writable(D(), SlotOf(l, n)) && FormedAt(D(), l)
      ensures b == PointerAt(D(), SlotOf(l, n))
    {
      b := if n < NDIRECT then files[l].direct[n] else table[files[l].indirect][n - NDIRECT];
    }

    // *pdiskbno = b, for the slot of block n.
    method SetSlot(l: Loc, n: nat, b: nat)
      requires Writable(D(), SlotOf(l, n)) && FormedAt(D(), l)
      modifies this`files, this`table
      ensures D() == SetPointer(old(D()), SlotOf(l, n), b)
    {
      if n < NDIRECT {
        files := files[l := files[l].(direct := files[l].direct[n := b])];
      } else {
        var entries: seq<nat> := table[files[l].indirect][n - NDIRECT := b];
        table := table[files[l].indirect := entries];
      }
    }

    // Names block b at the slot of block n and zeroes it.
    method FillSlot(l: Loc, n: nat, b: nat)
      requires Writable(D(), SlotOf(l, n)) && FormedAt(D(), l)
      modifies this`files, this`table, this`data
      ensures C() == AddBlock(old(C()), l, n, b)
    {
      var dir := files[l].isDir;
      SetSlot(l, n, b);
      if dir { files := files + Records(b, BLKFILES); }
      data := data[b := Zeroes()];
    }

    // Clears the slot of block n, which named b.
    method EmptySlot(l: Loc, n: nat, b: nat)
      requires Writable(D(), SlotOf(l, n)) && FormedAt(D(), l) && b == PointerAt(D(), SlotOf(l, n))
      modifies this`files, this`table
      ensures C() == DropBlock(old(C()), l, n)
    {
      var dir := files[l].isDir;
      SetSlot(l, n, 0);
      if dir { files := files - Records(b, BLKFILES).Keys; }
    }

    // Makes the held block b the zeroed block n of l.
    method LinkBlock(l: Loc, n: nat, b: nat)
      requires Valid({b}) && Live(D(), l) && n < BlocksFor(files[l].size)
      requires Writable(D(), SlotOf(l, n)) && PointerAt(D(), SlotOf(l, n)) == 0
      modifies this`files, this`table, this`data, this`owner
      ensures Valid({}) && SameBytes(old(C()), C()) && owner == old(owner)[b := SlotOf(l, n)] && b != 0
      ensures Live(D(), l) && FilesAfter(old(D()), D(), l) && OneSlot(old(D()), D(), SlotOf(l, n), b)
      ensures old(files).Keys <= files.Keys
    {
      OwnHeld(nblocks, reserved, Free(), owner.Keys, {b}, b);
      AddBlockGood(C(), owner, l, n, b);
      FillSlot(l, n, b);
      owner := owner[b := SlotOf(l, n)];
      assert {b} - {b} == {} && owner.Keys == old(owner).Keys + {b};
    }

    // Gives l a zeroed block n, unless the disk is full.
    method NewBlock(l: Loc, n: nat) returns (st: Status)
      requires Valid({}) && Live(D(), l) && n < BlocksFor(files[l].size)
      requires Writable(D(), SlotOf(l, n)) && PointerAt(D(), SlotOf(l, n)) == 0
      modifies this`words, this`files, this`table, this`data, this`owner
      ensures Valid({}) && SameBytes(old(C()), C()) && st == if old(Free()) == {} then ENoDisk else Ok
      ensures st == Ok ==> PointerAt(D(), SlotOf(l, n)) != 0
      ensures st == Ok ==> GotBlock(old(D()), D(), l, n) && |Free()| == |old(Free())| - 1
      ensures st != Ok ==> D() == old(D())
      ensures Walked(old(D()), D(), l) && OwnersKept(old(owner), owner)
    {
      NothingChanged(D(), l);
      var b := AllocBlock({});
      if b == 0 { return ENoDisk; }
      assert {} + {b} == {b};
      ghost var d := D();
      OwnHeld(nblocks, reserved, Free(), owner.Keys, {b}, b);
      LinkBlock(l, n, b);
      OneSlotExtends(d, D(), SlotOf(l, n), b);
      assert SlotAfter(d, D(), SlotOf(l, n), b, SlotOf(l, n));
      GotSlot(d, D(), l, n, b);
      st := Ok;
    }

    // file_get_block: the block number of block n of l, allocated if need be.
    method FileGetBlock(l: Loc, n: nat) returns (st: Status, b: nat)
      requires Valid({}) && Live(D(), l) && (n < BlocksFor(files[l].size) || n >= MAXBLOCKS)
      modifies this`words, this`files, this`table, this`data, this`owner
      ensures Valid({}) && SameBytes(old(C()), C())
      ensures Walked(old(D()), D(), l) && OwnersKept(old(owner), owner)
      ensures st == EInval <==> n >= MAXBLOCKS
      ensures st == ENoDisk <==> n < MAXBLOCKS && |old(Free())| < Needed(old(D()), l, n)
      ensures st == Ok <==> n < MAXBLOCKS && |old(Free())| >= Needed(old(D()), l, n)
      ensures st == Ok ==> b != 0 && b == PointerAt(D(), SlotOf(l, n))
      ensures st == Ok ==> GotBlock(old(D()), D(), l, n) && |Free()| == |old(Free())| - Needed(old(D()), l, n)
      ensures PointerAt(old(D()), SlotOf(l, n)) != 0 ==> C() == old(C()) && words == old(words)
      ensures st != Ok ==> PointerAt(D(), SlotOf(l, n)) == 0
    {
      b := 0;
      st := FileBlockWalk(l, n, true);
      if st != Ok { return; }
      assert FormedAt(D(), l);
      b := GetSlot(l, n);
      if b == 0 {
        ghost var d1 := D();
        st := NewBlock(l, n);
        WalkedTrans(old(D()), d1, D(), l);
        if st == Ok {
          GotBoth(old(D()), d1, D(), l, n);
          assert FormedAt(D(), l);
          b := GetSlot(l, n);
        }
      }
    }

    // Gives back block n of l.
    method UnlinkBlock(l: Loc, n: nat, b: nat)
      requires Valid({}) && Live(D(), l) && Writable(D(), SlotOf(l, n))
      requires b == PointerAt(D(), SlotOf(l, n)) && b != 0 && Emptied(D(), b)
      modifies this`words, this`files, this`table, this`owner
      ensures Valid({}) && Shortened(old(D()), D(), l) && OneSlot(old(D()), D(), SlotOf(l, n), 0)
      ensures owner == old(owner) - {b} && Free() == old(Free()) + {b} && b !in old(Free())
    {
      DropBlockGood(C(), owner, l, n);
      FreeOwned(nblocks, reserved, Free(), owner.Keys, {}, b);
      FreeBlock(b);
      EmptySlot(l, n, b);
      owner := owner - {b};
    }

    // file_free_block
    method FileFreeBlock(l: Loc, n: nat) returns (st: Status)
      requires Valid({}) && Live(D(), l) && (n < MAXBLOCKS ==> Emptied(D(), PointerAt(D(), SlotOf(l, n))))
      modifies this`words, this`files, this`table, this`owner
      ensures Valid({}) && Shortened(old(D()), D(), l)
      ensures st == EInval <==> n >= MAXBLOCKS
      ensures st == ENotFound <==> NDIRECT <= n < MAXBLOCKS && old(files)[l].indirect == 0
      ensures st != ENoDisk
      ensures var b := PointerAt(old(D()), SlotOf(l, n));
              if n >= MAXBLOCKS || b == 0 then D() == old(D()) && owner == old(owner) && words == old(words)
              else
                && OneSlot(old(D()), D(), SlotOf(l, n), 0)
                && owner == old(owner) - {b} && Free() == old(Free()) + {b} && b !in old(Free())
    {
      NothingShortened(D(), l);
      st := FileBlockWalk(l, n, false);
      if st != Ok { return; }
      assert FormedAt(D(), l);
      var b := GetSlot(l, n);
      if b != 0 { UnlinkBlock(l, n, b); }
    }

    // One turn of the loop of file_truncate_blocks.
    method FreeNext(l: Loc, n: nat, ghost next: nat, ghost d: Disk, ghost o: map<nat, Slot>, ghost f: set<nat>,
                    ghost slots: set<Slot>, ghost more: set<Slot>)
      requires Freeing(d, o, f, l, n, slots) && SlotOf(l, n) !in slots
      requires next == n + 1 && more == slots + {SlotOf(l, n)}
      modifies this`words, this`files, this`table, this`owner
      ensures Freeing(d, o, f, l, next, more)
    {
      ghost var d1, o1, f1, b := D(), owner, Free(), PointerAt(D(), SlotOf(l, n));
      assert EmptyableAt(D(), l, n, n);
      var _ := FileFreeBlock(l, n);
      ShortenedTrans(d, d1, D(), l);
      if b == 0 {
        EmptyableNext(d1, l, n, next);
        ClearsUnused(d, d1, o, o1, f, f1, slots, SlotOf(l, n));
      } else {
        StillEmptyable(d1, D(), l, n, next);
        ClearsUsed(d, d1, D(), o, o1, f, f1, slots, SlotOf(l, n), b);
      }
    }

    // The given slots of l have been cleared since the state d, o, f, and those from n on are to come.
    ghost predicate Freeing(d: Disk, o: map<nat, Slot>, f: set<nat>, l: Loc, n: nat, slots: set<Slot>)
      reads this
    {
      && Valid({}) && Live(D(), l) && Emptyable(D(), l, n) && Shortened(d, D(), l)
      && Owned(d, o) && Clears(d, D(), o, owner, f, Free(), slots)
    }

    // Gives back the indirect block of l, none of whose entries is in use.
    method UnlinkIndirect(l: Loc, b: nat)
      requires Valid({}) && Live(D(), l) && b == files[l].indirect && b != 0
      requires forall i: nat :: i < NINDIRECT ==> PointerAt(D(), Entry(l, i)) == 0
      modifies this`words, this`files, this`owner
      ensures Valid({}) && Shortened(old(D()), D(), l) && OneSlot(old(D()), D(), Indirect(l), 0)
      ensures owner == old(owner) - {b} && Free() == old(Free()) + {b} && b !in old(Free())
    {
      DropIndirectGood(C(), owner, l);
      ghost var c' := C().(disk := SetPointer(D(), Indirect(l), 0));
      FreeOwned(nblocks, reserved, Free(), owner.Keys, {}, b);
      FreeBlock(b);
      files := files[l := files[l].(indirect := 0)];
      owner := owner - {b};
      assert C() == c';
      forall m ensures OtherAfter(old(D()), D(), l, m) && GoneAt(old(D()), D(), m) {}
    }

    // The tail of file_truncate_blocks: the indirect block goes if n blocks can do without it.
    method DropUnneeded(l: Loc, n: nat, ghost d: Disk, ghost o: map<nat, Slot>, ghost f: set<nat>, ghost slots: set<Slot>)
      requires Valid({}) && Live(D(), l) && Shortened(d, D(), l) && Owned(d, o) && Indirect(l) !in slots
      requires Clears(d, D(), o, owner, f, Free(), slots)
      requires n <= NDIRECT ==> forall i: nat :: i < NINDIRECT ==> PointerAt(D(), Entry(l, i)) == 0
      modifies this`words, this`files, this`owner
      ensures Valid({}) && Shortened(d, D(), l)
      ensures Clears(d, D(), o, owner, f, Free(), slots + if n <= NDIRECT then {Indirect(l)} else {})
    {
      if n <= NDIRECT {
        ghost var d1, o1, f1 := D(), owner, Free();
        var b := files[l].indirect;
        if b != 0 {
          UnlinkIndirect(l, b);
          ShortenedTrans(d, d1, D(), l);
          ClearsUsed(d, d1, D(), o, o1, f, f1, slots, Indirect(l), b);
        } else {
          ClearsUnused(d, d1, o, o1, f, f1, slots, Indirect(l));
        }
      } else {
        assert slots + {} == slots;
      }
    }

    // The loop of file_truncate_blocks: gives back blocks lo to hi.
    method FreeBlocks(l: Loc, lo: nat, hi: nat)
      requires Valid({}) && Live(D(), l) && Emptyable(D(), l, lo)
      modifies this`words, this`files, this`table, this`owner
      ensures Valid({}) && Live(D(), l) && Shortened(old(D()), D(), l)
      ensures Clears(old(D()), D(), old(owner), owner, old(Free()), Free(), SlotRange(l, lo, hi))
    {
      ghost var d, o, f := D(), owner, Free();
      NothingShortened(d, l);
      ClearsNothing(d, o, f);
      var n := lo;
      ghost var slots := SlotRange(l, lo, lo);
      while n < hi
        invariant lo <= n && (n <= hi || n == lo) && IsRange(slots, l, lo, n) && Freeing(d, o, f, l, n, slots)
      {
        var next := n + 1;
        ghost var more := slots + {SlotOf(l, n)};
        RangeOneMore(slots, more, l, lo, n, next);
        FreeNext(l, n, next, d, o, f, slots, more);
        slots := more;
        n := next;
      }
      RangeEnd(slots, l, lo, n, hi);
    }

    // file_truncate_blocks
    method FileTruncateBlocks(l: Loc, newsize: nat)
      requires Valid({}) && Live(D(), l) && Emptyable(D(), l, BlocksFor(newsize))
      modifies this`words, this`files, this`table, this`owner
      ensures Valid({}) && Shortened(old(D()), D(), l)
      ensures Clears(old(D()), D(), old(owner), owner, old(Free()), Free(),
                     Surplus(l, BlocksFor(newsize), BlocksFor(old(files)[l].size)))
    {
      var oldBlocks, newBlocks := BlocksFor(files[l].size), BlocksFor(newsize);
      ghost var d, o, f := D(), owner, Free();
      FreeBlocks(l, newBlocks, oldBlocks);
      EntriesGone(d, D(), o, owner, f, Free(), l, newBlocks, oldBlocks);
      DropUnneeded(l, newBlocks, d, o, f, SlotRange(l, newBlocks, oldBlocks));
    }

    // f->f_size = size
    method PutSize(l: Loc, size: nat)
      requires Valid({}) && Live(D(), l)
      requires forall k: nat :: BlocksFor(size) <= k < MAXBLOCKS ==> PointerAt(D(), SlotOf(l, k)) == 0
      requires BlocksFor(size) <= NDIRECT ==> files[l].indirect == 0
      modifies this`files
      ensures Valid({}) && SameBytes(old(C()), C()) && Live(D(), l) && D() == SetSize(old(D()), l, size)
    {
      SetSizeGood(C(), owner, l, size);
      files := files[l := files[l].(size := size)];
    }

    // file_set_size, when blocks may have to go.
    method Shrink(l: Loc, size: nat)
      requires Valid({}) && Live(D(), l) && Emptyable(D(), l, BlocksFor(size))
      modifies this`words, this`files, this`table, this`owner
      ensures Valid({}) && SizeSet(old(C()), C(), l, size)
      ensures Clears(old(D()), D(), old(owner), owner, old(Free()), Free(),
                     Surplus(l, BlocksFor(size), BlocksFor(old(files)[l].size)))
    {
      ghost var c, o, f, n, hi := C(), owner, Free(), BlocksFor(size), BlocksFor(files[l].size);
      FileTruncateBlocks(l, size);
      ghost var c1 := C();
      SurplusGone(c.disk, c1.disk, o, owner, f, Free(), l, n, hi);
      PutSize(l, size);
      ShrinkEffect(c, c1, C(), o, owner, f, Free(), l, size, n, hi);
    }

    // file_set_size, when the file does not get shorter.
    method Grow(l: Loc, size: nat)
      requires Valid({}) && Live(D(), l) && files[l].size <= size
      modifies this`files
      ensures Valid({}) && D() == SetSize(old(D()), l, size) && SizeSet(old(C()), C(), l, size)
      ensures SameBytes(old(C()), C())
    {
      ghost var c := C();
      RoomToGrow(D(), l, BlocksFor(size));
      PutSize(l, size);
      GrowEffect(c, C(), l, size, BlocksFor(size));
    }

    // file_set_size
    method FileSetSize(l: Loc, size: nat)
      requires Valid({}) && Live(D(), l)
      requires size < files[l].size ==> Emptyable(D(), l, BlocksFor(size))
      modifies this`words, this`files, this`table, this`owner
      ensures Valid({}) && SizeSet(old(C()), C(), l, size)
      ensures size < old(files)[l].size ==>
                Clears(old(D()), D(), old(owner), owner, old(Free()), Free(),
                       Surplus(l, BlocksFor(size), BlocksFor(old(files)[l].size)))
      ensures size >= old(files)[l].size ==>
                && owner == old(owner) && words == old(words) && D() == SetSize(old(D()), l, size)
                && SameBytes(old(C()), C())
    {
      if files[l].size > size {
        Shrink(l, size);
      } else {
        Grow(l, size);
      }
    }

    // One turn of the loop of file_read.
    method ReadPiece(l: Loc, pos: nat, end: nat) returns (st: Status, piece: seq<int>)
      requires Valid({}) && Live(D(), l) && pos < end <= files[l].size
      modifies this`words, this`files, this`table, this`data, this`owner
      ensures Valid({}) && PieceRead(old(C()), C(), |old(Free())|, |Free()|, l, pos, end, piece, st)
    {
      piece := [];
      var k := pos / BLKSIZE;
      var b;
      st, b := FileGetBlock(l, k);
      if st != Ok { return; }
      assert BackedAt(C(), SlotOf(l, k));
      var n := Piece(pos, end);
      piece := data[b][pos % BLKSIZE..pos % BLKSIZE + n];
      PieceReads(C(), l, pos, k, b, piece);
    }

    // One turn of the loop of file_read, at block k of the blocks m to hi.
    method ReadTurn(l: Loc, end: nat, offset: nat, buf: seq<int>, ghost c: Contents, ghost free: nat, ghost m: nat,
                    ghost hi: nat, ghost k: nat)
      returns (st: Status, more: seq<int>)
      requires Valid({}) && StillReading(c, C(), l, m, hi, offset, end, free, |Free()|, k, buf) && offset + |buf| < end
      modifies this`words, this`files, this`table, this`data, this`owner
      ensures Valid({})
      ensures if st == Ok then |more| > |buf| && StillReading(c, C(), l, m, hi, offset, end, free, |Free()|, k + 1, more)
              else more == buf && EndedReading(c, C(), l, m, hi, offset, end, free, k, buf, st)
    {
      ghost var c1, free1 := C(), |Free()|;
      var piece;
      st, piece := ReadPiece(l, offset + |buf|, end);
      ReadStep(c, c1, C(), l, m, hi, offset, end, free, free1, |Free()|, k, buf, piece, st);
      more := if st == Ok then buf + piece else buf;
    }

    // The loop of file_read; it ends at block k of the blocks m to hi.
    method ReadAll(l: Loc, offset: nat, end: nat, ghost m: nat, ghost hi: nat) returns (st: Status, buf: seq<int>, ghost k: nat)
      requires Valid({}) && Live(D(), l) && offset <= end <= files[l].size && Covers(m, hi, offset, end)
      modifies this`words, this`files, this`table, this`data, this`owner
      ensures Valid({}) && EndedReading(old(C()), C(), l, m, hi, offset, end, |old(Free())|, k, buf, st)
    {
      buf, st, k := [], Ok, m;
      ghost var c, free := C(), |Free()|;
      StartsGoing(D(), l, m, hi, offset, end, free);
      while offset + |buf| < end
        invariant st == Ok && Valid({})
        invariant StillReading(c, C(), l, m, hi, offset, end, free, |Free()|, k, buf)
        decreases end - |buf|
      {
        var more;
        st, more := ReadTurn(l, end, offset, buf, c, free, m, hi, k);
        if st != Ok { return; }
        buf, k := more, k + 1;
      }
      ReadFinished(c, C(), l, m, hi, offset, end, free, |Free()|, k, buf);
    }

    // file_read; when the disk is too full to fill a hole, the bytes before it have been read. It succeeds exactly if the
    // range lies within the largest size and there are blocks enough to fill its holes.
    method FileRead(l: Loc, count: nat, offset: nat) returns (st: Status, buf: seq<int>, ghost k: nat)
      requires Valid({}) && Live(D(), l) && !files[l].isDir
      modifies this`words, this`files, this`table, this`data, this`owner
      ensures Valid({})
      ensures FileGot(old(C()), C(), l, offset, Readable(old(files)[l].size, count, offset), |old(Free())|, buf, k, st)
    {
      if offset >= files[l].size {
        NothingChanged(D(), l);
        return Ok, [], 0;
      }
      ghost var c, free := C(), |Free()|;
      var n := Readable(files[l].size, count, offset);
      st, buf, k := ReadAll(l, offset, offset + n, offset / BLKSIZE, LastBlock(offset, offset + n));
      ReadDone(c, C(), l, offset, n, free, buf, k, st);
    }

    // memmove into block n of l.
    method PutBytes(l: Loc, n: nat, b: nat, k: nat, bs: seq<int>)
      requires Valid({}) && n < MAXBLOCKS && b == PointerAt(D(), SlotOf(l, n)) && b != 0 && k + |bs| <= BLKSIZE
      modifies this`data
      ensures Valid({}) && Wrote(old(C()), C(), l, n * BLKSIZE + k, bs, |bs|)
    {
      assert BackedAt(C(), SlotOf(l, n));
      ghost var c, from := C(), n * BLKSIZE + k;
      StoreGood(c, owner, b, k, bs);
      data := data[b := data[b][..k] + bs + data[b][k + |bs|..]];
      forall m, p: nat ensures WroteAt(c, C(), l, from, bs, |bs|, m, p) { StoreByte(c, owner, l, n, k, bs, m, p); }
    }

    // One turn of the loop of file_write.
    method WritePiece(l: Loc, pos: nat, piece: seq<int>) returns (st: Status)
      requires Valid({}) && Live(D(), l) && pos + |piece| <= files[l].size && 0 < |piece| <= BLKSIZE - pos % BLKSIZE
      modifies this`words, this`files, this`table, this`data, this`owner
      ensures Valid({}) && PieceDone(old(C()), C(), |old(Free())|, |Free()|, l, pos, piece, st)
    {
      var b;
      ghost var c := C();
      st, b := FileGetBlock(l, pos / BLKSIZE);
      if st != Ok { return; }
      ghost var c1 := C();
      PutBytes(l, pos / BLKSIZE, b, pos % BLKSIZE, piece);
      forall m, p: nat ensures WroteAt(c, C(), l, pos, piece, |piece|, m, p) {
        assert WroteAt(c1, C(), l, pos, piece, |piece|, m, p);
      }
    }

    // One turn of the loop of file_write, at block k of the blocks m to hi.
    method WriteTurn(l: Loc, buf: seq<int>, offset: nat, done: nat, ghost c: Contents, ghost free: nat, ghost m: nat,
                     ghost hi: nat, ghost k: nat)
      returns (st: Status, more: nat)
      requires Valid({}) && StillWriting(c, C(), l, m, hi, offset, free, |Free()|, k, buf, done) && done < |buf|
      modifies this`words, this`files, this`table, this`data, this`owner
      ensures Valid({})
      ensures if st == Ok then more > done && StillWriting(c, C(), l, m, hi, offset, free, |Free()|, k + 1, buf, more)
              else more == done && EndedWriting(c, C(), l, m, hi, offset, free, k, buf, done, st)
    {
      ghost var c1, free1 := C(), |Free()|;
      var n := Piece(offset + done, offset + |buf|);
      st := WritePiece(l, offset + done, buf[done..done + n]);
      WriteStep(c, c1, C(), l, m, hi, offset, free, free1, |Free()|, k, buf, done, n, st);
      more := if st == Ok then done + n else done;
    }

    // The loop of file_write; it ends at block k of the blocks m to hi, after done bytes.
    method WriteAll(l: Loc, buf: seq<int>, offset: nat, ghost end: nat, ghost m: nat, ghost hi: nat)
      returns (st: Status, ghost done: nat, ghost k: nat)
      requires Valid({}) && Live(D(), l) && offset + |buf| == end <= files[l].size && Covers(m, hi, offset, end)
      modifies this`words, this`files, this`table, this`data, this`owner
      ensures Valid({}) && EndedWriting(old(C()), C(), l, m, hi, offset, |old(Free())|, k, buf, done, st)
    {
      ghost var c, free := C(), |Free()|;
      var n := 0;
      st, done, k := Ok, 0, m;
      WriteStarts(c, l, m, hi, offset, free, buf);
      while n < |buf|
        invariant st == Ok && done == n <= |buf| && Valid({})
        invariant StillWriting(c, C(), l, m, hi, offset, free, |Free()|, k, buf, n)
        decreases |buf| - n
      {
        var more;
        st, more := WriteTurn(l, buf, offset, n, c, free, m, hi, k);
        if st != Ok { return; }
        n, done, k := more, more, k + 1;
      }
      WriteFinished(c, C(), l, m, hi, offset, free, |Free()|, k, buf, n);
    }

    // file_write; done bytes were written before it ended at block k. It succeeds exactly if the range lies within the
    // largest size and there are blocks enough to fill its holes.
    method FileWrite(l: Loc, buf: seq<int>, offset: nat) returns (st: Status, ghost done: nat, ghost k: nat)
      requires Valid({}) && Live(D(), l) && !files[l].isDir
      modifies this`words, this`files, this`table, this`data, this`owner
      ensures Valid({}) && FileWritten(old(C()), C(), l, offset, buf, |old(Free())|, done, k, st)
    {
      ghost var c, free := C(), |Free()|;
      if offset + |buf| > files[l].size { FileSetSize(l, offset + |buf|); }
      ghost var c1 := C();
      assert |Free()| == free;
      st, done, k := WriteAll(l, buf, offset, offset + |buf|, offset / BLKSIZE, LastBlock(offset, offset + |buf|));
      WriteDone(c, c1, C(), l, offset, buf, free, done, k, st);
    }

    // Fills in a record that has no blocks.
    method SetRecord(l: Loc, name: string, isDir: bool)
      requires Valid({}) && l in files && l.Rec? && Pointerless(D(), l) && (name == "" ==> !isDir)
      modifies this`files
      ensures Valid({}) && SameBytes(old(C()), C()) && D() == PutRecord(old(D()), l, EmptyFile(name, isDir))
    {
      PutRecordGood(C(), owner, l, name, isDir);
      files := files[l := EmptyFile(name, isDir)];
    }

    // file_remove: a regular file, or a directory with no records in use.
    method FileRemove(l: Loc)
      requires Valid({}) && Live(D(), l) && l.Rec? && Emptyable(D(), l, 0)
      modifies this`words, this`files, this`table, this`owner
      ensures Valid({}) && Removed(old(C()), C(), l)
      ensures Clears(old(D()), D(), old(owner), owner, old(Free()), Free(), Surplus(l, 0, BlocksFor(old(files)[l].size)))
    {
      ghost var c, o, f, hi := C(), owner, Free(), BlocksFor(files[l].size);
      FileTruncateBlocks(l, 0);
      ghost var c1 := C();
      AllGone(c.disk, c1.disk, o, owner, f, Free(), l, hi);
      SetRecord(l, "", false);
      RemoveEffect(c, c1, C(), o, owner, f, Free(), l, hi);
    }
  }
}
