/** Directories and paths of fs/fs.c, over the mutable file system. */
module Directories {
  import opened FsBlocks
  import opened FsState
  import opened FsTree
  import opened FileSystem
  import opened Paths

  // ----- Searching a directory -----

  // Children of dir called name lie in block i of dir or later.
  ghost predicate NotBefore(d: Disk, o: map<nat, Slot>, dir: Loc, name: string, i: nat) {
    forall l :: LaterAt(d, o, dir, name, i, l)
  }

  ghost predicate LaterAt(d: Disk, o: map<nat, Slot>, dir: Loc, name: string, i: nat, l: Loc) {
    IsChild(d, o, dir, name, l) ==> BlockNo(o, l) >= i
  }

  lemma StartOfSearch(d: Disk, o: map<nat, Slot>, dir: Loc, name: string)
    ensures NotBefore(d, o, dir, name, 0)
  {
    forall l ensures LaterAt(d, o, dir, name, 0, l) {}
  }

  lemma ChildBelow(d: Disk, o: map<nat, Slot>, dir: Loc, name: string, l: Loc)
    requires Owned(d, o) && RecordsOk(d, o) && WithinSize(d) && dir in d.files && IsChild(d, o, dir, name, l)
    ensures BlockNo(o, l) < BlocksFor(d.files[dir].size)
  {
    ChildSlot(d, o, dir, name, l);
    assert EmptyPast(d, dir, BlockNo(o, l));
  }

  lemma EndOfSearch(d: Disk, o: map<nat, Slot>, dir: Loc, name: string, n: nat)
    requires Owned(d, o) && RecordsOk(d, o) && WithinSize(d) && dir in d.files
    requires NotBefore(d, o, dir, name, n) && n == BlocksFor(d.files[dir].size)
    ensures ChildOf(d, o, dir, name) == None
  {
    forall l ensures !IsFirst(d, o, dir, name, l) {
      assert LaterAt(d, o, dir, name, n, l);
      if IsChild(d, o, dir, name, l) { ChildBelow(d, o, dir, name, l); }
    }
  }

  // Block i, with number b, holds no record called name.
  lemma NotInBlock(d: Disk, o: map<nat, Slot>, d': Disk, o': map<nat, Slot>, dir: Loc, name: string,
                   i: nat, next: nat, b: nat)
    requires Owned(d, o) && RecordsOk(d, o) && Grew(d, d', o, o') && Extends(d, d', dir)
    requires NotBefore(d, o, dir, name, i) && next == i + 1 && b == PointerAt(d', SlotOf(dir, i))
    requires forall j: nat :: j < BLKFILES && Rec(b, j) in d'.files ==> d'.files[Rec(b, j)].name != name
    ensures NotBefore(d, o, dir, name, next)
  {
    forall l ensures LaterAt(d, o, dir, name, next, l) {
      if IsChild(d, o, dir, name, l) {
        ChildSlot(d, o, dir, name, l);
        assert LaterAt(d, o, dir, name, i, l) && KeptAt(d, d', dir, o[l.block]) && GrewAt(d, d', l);
        assert l == Rec(l.block, l.index);
      }
    }
  }

  // Record j of block i is the first called name, and nothing before it in the directory is.
  lemma FoundFirst(d: Disk, o: map<nat, Slot>, d': Disk, o': map<nat, Slot>, dir: Loc, name: string,
                   i: nat, b: nat, j: nat)
    requires Owned(d, o) && RecordsOk(d, o) && Grew(d, d', o, o') && Extends(d, d', dir) && name != ""
    requires NotBefore(d, o, dir, name, i) && b == PointerAt(d', SlotOf(dir, i)) && b in o' && o'[b] == SlotOf(dir, i)
    requires Rec(b, j) in d'.files && d'.files[Rec(b, j)].name == name
    requires forall k: nat :: k < j && Rec(b, k) in d'.files ==> d'.files[Rec(b, k)].name != name
    ensures IsFirst(d, o, dir, name, Rec(b, j)) && BlockNo(o, Rec(b, j)) == i
  {
    var l := Rec(b, j);
    GrewChild(d, d', o, o', dir, name, l);
    forall m ensures NotEarlier(d, o, dir, name, l, m) {
      if IsChild(d, o, dir, name, m) {
        ChildSlot(d, o, dir, name, m);
        assert LaterAt(d, o, dir, name, i, m) && KeptAt(d, d', dir, o[m.block]) && GrewAt(d, d', m);
        assert m == Rec(m.block, m.index);
      }
    }
  }

  // ----- Directories without holes -----

  ghost predicate FilledAt(d: Disk, dir: Loc, k: nat) {
    PointerAt(d, SlotOf(dir, k)) != 0
  }

  // The first n blocks of dir are there.
  ghost predicate FilledTo(d: Disk, dir: Loc, n: nat) {
    forall k: nat :: k < n ==> FilledAt(d, dir, k)
  }

  // The blocks of dir up to that of record l are there.
  ghost predicate FilledUpTo(d: Disk, o: map<nat, Slot>, dir: Loc, l: Loc) {
    forall k: nat :: k <= BlockNo(o, l) ==> FilledAt(d, dir, k)
  }

  lemma StillNamed(d: Disk, o: map<nat, Slot>, d': Disk, o': map<nat, Slot>, dir: Loc, k: nat)
    requires Owned(d, o) && Owned(d', o') && OwnersKept(o, o') && FilledAt(d, dir, k)
    ensures FilledAt(d', dir, k)
  {
    assert NamedAt(d, o, SlotOf(dir, k)) && OwnsAt(d', o', PointerAt(d, SlotOf(dir, k)));
  }

  lemma StillFilled(d: Disk, o: map<nat, Slot>, d': Disk, o': map<nat, Slot>, dir: Loc, n: nat)
    requires Owned(d, o) && Owned(d', o') && OwnersKept(o, o') && FilledTo(d, dir, n)
    ensures FilledTo(d', dir, n)
  {
    forall k: nat | k < n ensures FilledAt(d', dir, k) {
      assert FilledAt(d, dir, k);
      StillNamed(d, o, d', o', dir, k);
    }
  }

  lemma FilledNext(d: Disk, dir: Loc, n: nat, next: nat)
    requires FilledTo(d, dir, n) && FilledAt(d, dir, n) && next == n + 1
    ensures FilledTo(d, dir, next)
  {
    forall k: nat | k < next ensures FilledAt(d, dir, k) { assert k < n ==> FilledAt(d, dir, k); }
  }

  lemma FilledIncluding(d: Disk, o: map<nat, Slot>, dir: Loc, l: Loc, next: nat)
    requires FilledTo(d, dir, next) && next == BlockNo(o, l) + 1
    ensures FilledUpTo(d, o, dir, l)
  {
    forall k: nat | k <= BlockNo(o, l) ensures FilledAt(d, dir, k) { assert k < next; }
  }

  // A search that cannot go on at block i has a hole before the record it looks for.
  lemma StoppedShort(d: Disk, o: map<nat, Slot>, dir: Loc, name: string, i: nat)
    requires Owned(d, o) && RecordsOk(d, o) && NotBefore(d, o, dir, name, i)
    requires !FilledAt(d, dir, i) || i >= MAXBLOCKS
    ensures var l := ChildOf(d, o, dir, name); l.Some? ==> !FilledUpTo(d, o, dir, l.loc)
  {
    var l := ChildOf(d, o, dir, name);
    if l.Some? {
      assert LaterAt(d, o, dir, name, i, l.loc);
      ChildSlot(d, o, dir, name, l.loc);
      assert FilledUpTo(d, o, dir, l.loc) ==> FilledAt(d, dir, i);
    }
  }

  lemma WalkedGrew(d: Disk, d': Disk, o: map<nat, Slot>, o': map<nat, Slot>, dir: Loc)
    requires Walked(d, d', dir) && OwnersKept(o, o')
    ensures Grew(d, d', o, o')
  {
    forall l ensures GrewAt(d, d', l) { assert OtherAfter(d, d', dir, l); }
  }

  // The inner loop of dir_lookup and dir_alloc_file: the first record of block b called name.
  method ScanBlock(fs: FileSystem, b: nat, name: string) returns (j: nat)
    requires forall k: nat :: k < BLKFILES ==> Rec(b, k) in fs.files
    ensures j <= BLKFILES && (j < BLKFILES ==> fs.files[Rec(b, j)].name == name)
    ensures forall k: nat :: k < j ==> fs.files[Rec(b, k)].name != name
  {
    j := 0;
    while j < BLKFILES
      invariant j <= BLKFILES && forall k: nat :: k < j ==> fs.files[Rec(b, k)].name != name
    {
      if fs.files[Rec(b, j)].name == name { return; }
      j := j + 1;
    }
  }

  // The block of a directory holds its records.
  lemma BlockHasRecords(d: Disk, o: map<nat, Slot>, dir: Loc, i: nat, b: nat)
    requires Owned(d, o) && RecordsOk(d, o) && DirAt(d, dir) && b == PointerAt(d, SlotOf(dir, i)) && b != 0
    ensures b in o && o[b] == SlotOf(dir, i) && forall k: nat :: k < BLKFILES ==> Rec(b, k) in d.files
  {
    assert NamedAt(d, o, SlotOf(dir, i));
    forall k: nat | k < BLKFILES ensures Rec(b, k) in d.files { assert RecordAt(d, o, b, k); }
  }

  // The search through block i of dir, for a record called name.
  method SearchBlock(fs: FileSystem, dir: Loc, name: string, i: nat) returns (st: Status, b: nat, j: nat)
    requires fs.Valid({}) && DirAt(fs.D(), dir) && Live(fs.D(), dir) && i < BlocksFor(fs.files[dir].size)
    modifies fs`words, fs`files, fs`table, fs`data, fs`owner
    ensures fs.Valid({}) && SameBytes(old(fs.C()), fs.C()) && st != ENotFound
    ensures Walked(old(fs.D()), fs.D(), dir) && OwnersKept(old(fs.owner), fs.owner)
    ensures Asked(old(fs.D()), fs.D(), |old(fs.Free())|, |fs.Free()|, dir, i, st)
    ensures FilledAt(old(fs.D()), dir, i) ==> st == Ok && fs.C() == old(fs.C()) && fs.words == old(fs.words)
    ensures st == Ok ==>
              && b == PointerAt(fs.D(), SlotOf(dir, i)) && b in fs.owner && fs.owner[b] == SlotOf(dir, i) && j <= BLKFILES
              && FilledAt(fs.D(), dir, i)
              && (forall k: nat :: k < BLKFILES ==> Rec(b, k) in fs.files)
              && (j < BLKFILES ==> fs.files[Rec(b, j)].name == name)
              && (forall k: nat :: k < j ==> fs.files[Rec(b, k)].name != name)
  {
    j := 0;
    st, b := fs.FileGetBlock(dir, i);
    if st != Ok { return; }
    BlockHasRecords(fs.D(), fs.owner, dir, i, b);
    j := ScanBlock(fs, b, name);
  }

  // How far a search of dir, begun in state (c, o), has got.
  ghost predicate Searching(c: Contents, o: map<nat, Slot>, c': Contents, o': map<nat, Slot>, dir: Loc, name: string,
                            i: nat)
  {
    && SameBytes(c, c') && Walked(c.disk, c'.disk, dir) && Grew(c.disk, c'.disk, o, o')
    && NotBefore(c.disk, o, dir, name, i) && FilledTo(c'.disk, dir, i)
  }

  lemma SearchStarts(c: Contents, o: map<nat, Slot>, dir: Loc, name: string)
    requires Live(c.disk, dir)
    ensures Searching(c, o, c, o, dir, name, 0)
  {
    NothingChanged(c.disk, dir);
    StartOfSearch(c.disk, o, dir, name);
    WalkedGrew(c.disk, c.disk, o, o, dir);
  }

  // Whatever came of block i, the search has only walked dir.
  lemma SearchWalked(c: Contents, o: map<nat, Slot>, c1: Contents, o1: map<nat, Slot>, c': Contents, o': map<nat, Slot>,
                     dir: Loc, name: string, i: nat)
    requires Searching(c, o, c1, o1, dir, name, i) && SameBytes(c1, c') && Walked(c1.disk, c'.disk, dir)
    requires OwnersKept(o1, o') && Owned(c1.disk, o1) && Owned(c'.disk, o')
    ensures Searching(c, o, c', o', dir, name, i)
  {
    WalkedTrans(c.disk, c1.disk, c'.disk, dir);
    WalkedGrew(c.disk, c'.disk, o, o', dir);
    StillFilled(c1.disk, o1, c'.disk, o', dir, i);
  }

  lemma SearchOn(c: Contents, o: map<nat, Slot>, c': Contents, o': map<nat, Slot>, dir: Loc, name: string,
                 i: nat, next: nat, b: nat)
    requires Owned(c.disk, o) && RecordsOk(c.disk, o) && Searching(c, o, c', o', dir, name, i) && next == i + 1
    requires b == PointerAt(c'.disk, SlotOf(dir, i)) && FilledAt(c'.disk, dir, i)
    requires forall k: nat :: k < BLKFILES && Rec(b, k) in c'.disk.files ==> c'.disk.files[Rec(b, k)].name != name
    ensures Searching(c, o, c', o', dir, name, next)
  {
    NotInBlock(c.disk, o, c'.disk, o', dir, name, i, next, b);
    FilledNext(c'.disk, dir, i, next);
  }

  lemma SearchStopped(c: Contents, o: map<nat, Slot>, c1: Contents, o1: map<nat, Slot>, dir: Loc, name: string, i: nat)
    requires Owned(c.disk, o) && RecordsOk(c.disk, o) && Searching(c, o, c1, o1, dir, name, i)
    requires !FilledAt(c1.disk, dir, i) || i >= MAXBLOCKS
    ensures var l := ChildOf(c.disk, o, dir, name); l.Some? ==> !FilledUpTo(c.disk, o, dir, l.loc)
  {
    assert KeptAt(c.disk, c1.disk, dir, SlotOf(dir, i));
    StoppedShort(c.disk, o, dir, name, i);
  }

  // The blocks of dir that a search for name goes through.
  ghost function Extent(d: Disk, o: map<nat, Slot>, dir: Loc, name: string): nat
    requires dir in d.files
  {
    var l := ChildOf(d, o, dir, name);
    if l.Some? then BlockNo(o, l.loc) + 1 else d.files[dir].size / BLKSIZE
  }

  // The search gets through all of them just when they can be had.
  ghost predicate CanSearch(d: Disk, o: map<nat, Slot>, dir: Loc, name: string, free: nat)
    requires dir in d.files
  {
    var n := Extent(d, o, dir, name);
    n <= MAXBLOCKS && Missing(d, dir, 0, n) <= free
  }

  lemma SearchEnds(d: Disk, d1: Disk, o: map<nat, Slot>, dir: Loc, name: string, n: nat, free: nat, free1: nat, i: nat)
    requires Looping(d, d1, dir, 0, n, free, free1, i) && i == Extent(d, o, dir, name)
    ensures CanSearch(d, o, dir, name, free)
  {
  }

  lemma SearchFails(d: Disk, d1: Disk, o: map<nat, Slot>, dir: Loc, name: string, n: nat, free: nat, free1: nat, i: nat)
    requires Looping(d, d1, dir, 0, n, free, free1, i) && NotBefore(d, o, dir, name, i) && i < n
    requires n == d.files[dir].size / BLKSIZE && (i >= MAXBLOCKS || free1 < Needed(d1, dir, i))
    ensures !CanSearch(d, o, dir, name, free)
  {
    var h := Extent(d, o, dir, name);
    var l := ChildOf(d, o, dir, name);
    if l.Some? { assert LaterAt(d, o, dir, name, i, l.loc); }
    assert h > i;
    NextMissing(d, d1, dir, 0, i, i + 1);
    MissingGrows(d, dir, 0, i + 1, h);
  }

  // How far dir_lookup, begun in state (c, o) with bitmap w, has got: it is at block i of n.
  ghost predicate Looking(c: Contents, o: map<nat, Slot>, w: seq<nat>, c': Contents, o': map<nat, Slot>, w': seq<nat>,
                          dir: Loc, name: string, n: nat, free: nat, free': nat, i: nat)
  {
    && Searching(c, o, c', o', dir, name, i) && Looping(c.disk, c'.disk, dir, 0, n, free, free', i)
    && (FilledTo(c.disk, dir, n) ==> c' == c && w' == w)
  }

  // dir_lookup has ended with st.
  ghost predicate Looked(c: Contents, o: map<nat, Slot>, w: seq<nat>, c': Contents, o': map<nat, Slot>, w': seq<nat>,
                         dir: Loc, name: string, free: nat, st: Status, file: Loc)
  {
    && dir in c.disk.files && SameBytes(c, c') && Walked(c.disk, c'.disk, dir) && Grew(c.disk, c'.disk, o, o')
    && (FilledTo(c.disk, dir, c.disk.files[dir].size / BLKSIZE) ==> c' == c && w' == w)
    && (st == Ok ==> ChildOf(c.disk, o, dir, name) == Some(file) && FilledUpTo(c'.disk, o, dir, file))
    && (st == ENotFound ==> ChildOf(c.disk, o, dir, name) == None)
    && (st == Ok || st == ENotFound <==> CanSearch(c.disk, o, dir, name, free))
    && (st == EInval ==> c.disk.files[dir].size > MAXFILESIZE)
    && (st == ENoDisk ==> !NoHoles(c.disk, dir, 0, c.disk.files[dir].size))
    && (ChildOf(c.disk, o, dir, name).Some? && FilledUpTo(c.disk, o, dir, ChildOf(c.disk, o, dir, name).loc) ==> st == Ok)
  }

  lemma LookFailed(c: Contents, o: map<nat, Slot>, w: seq<nat>, c1: Contents, o1: map<nat, Slot>, w1: seq<nat>,
                   c': Contents, o': map<nat, Slot>, w': seq<nat>, dir: Loc, name: string, n: nat,
                   free: nat, free1: nat, free': nat, i: nat, st: Status)
    requires Owned(c.disk, o) && RecordsOk(c.disk, o) && Looking(c, o, w, c1, o1, w1, dir, name, n, free, free1, i)
    requires i < n && n == c.disk.files[dir].size / BLKSIZE && c.disk.files[dir].size % BLKSIZE == 0
    requires Searching(c, o, c', o', dir, name, i) && st != Ok && Asked(c1.disk, c'.disk, free1, free', dir, i, st)
    requires !FilledAt(c1.disk, dir, i)
    ensures Looked(c, o, w, c', o', w', dir, name, free, st, Root)
  {
    assert FilledTo(c.disk, dir, n) ==> FilledAt(c1.disk, dir, i);
    SearchStopped(c, o, c1, o1, dir, name, i);
    SearchFails(c.disk, c1.disk, o, dir, name, n, free, free1, i);
    if st == ENoDisk { HoleWasThere(c.disk, c1.disk, dir, 0, c.disk.files[dir].size, i * BLKSIZE); }
  }

  lemma LookFound(c: Contents, o: map<nat, Slot>, w: seq<nat>, c': Contents, o': map<nat, Slot>, w': seq<nat>,
                  dir: Loc, name: string, n: nat, free: nat, free': nat, i: nat, b: nat, j: nat)
    requires Owned(c.disk, o) && RecordsOk(c.disk, o) && Searching(c, o, c', o', dir, name, i) && name != ""
    requires Looping(c.disk, c'.disk, dir, 0, n, free, free', i + 1) && n == c.disk.files[dir].size / BLKSIZE
    requires FilledTo(c.disk, dir, n) ==> c' == c && w' == w
    requires b == PointerAt(c'.disk, SlotOf(dir, i)) && b in o' && o'[b] == SlotOf(dir, i) && FilledAt(c'.disk, dir, i)
    requires Rec(b, j) in c'.disk.files && c'.disk.files[Rec(b, j)].name == name
    requires forall k: nat :: k < j && Rec(b, k) in c'.disk.files ==> c'.disk.files[Rec(b, k)].name != name
    ensures Looked(c, o, w, c', o', w', dir, name, free, Ok, Rec(b, j))
  {
    var file := Rec(b, j);
    FoundFirst(c.disk, o, c'.disk, o', dir, name, i, b, j);
    ChildIs(c.disk, o, dir, name, file);
    FilledNext(c'.disk, dir, i, i + 1);
    FilledIncluding(c'.disk, o, dir, file, i + 1);
    SearchEnds(c.disk, c'.disk, o, dir, name, n, free, free', i + 1);
  }

  lemma LookStarts(c: Contents, o: map<nat, Slot>, w: seq<nat>, dir: Loc, name: string, n: nat, free: nat)
    requires Live(c.disk, dir)
    ensures Looking(c, o, w, c, o, w, dir, name, n, free, free, 0)
  {
    SearchStarts(c, o, dir, name);
    LoopStarts(c.disk, dir, 0, n, free);
  }

  lemma LookedInAll(c: Contents, o: map<nat, Slot>, w: seq<nat>, c': Contents, o': map<nat, Slot>, w': seq<nat>,
                    dir: Loc, name: string, n: nat, free: nat, free': nat)
    requires Owned(c.disk, o) && RecordsOk(c.disk, o) && WithinSize(c.disk) && WholeAt(c.disk, dir) && DirAt(c.disk, dir)
    requires Looking(c, o, w, c', o', w', dir, name, n, free, free', n) && n == c.disk.files[dir].size / BLKSIZE
    ensures Looked(c, o, w, c', o', w', dir, name, free, ENotFound, Root)
  {
    EndOfSearch(c.disk, o, dir, name, n);
    SearchEnds(c.disk, c'.disk, o, dir, name, n, free, free', n);
  }

  // One turn of the loop of dir_lookup.
  method LookIn(fs: FileSystem, dir: Loc, name: string, i: nat, ghost c: Contents, ghost o: map<nat, Slot>,
                ghost w: seq<nat>, ghost n: nat, ghost free: nat) returns (st: Status, found: bool, file: Loc)
    requires fs.Valid({}) && DirAt(fs.D(), dir) && Live(fs.D(), dir) && i < BlocksFor(fs.files[dir].size)
    requires Owned(c.disk, o) && RecordsOk(c.disk, o) && name != "" && i < n && WholeAt(c.disk, dir)
    requires Looking(c, o, w, fs.C(), fs.owner, fs.words, dir, name, n, free, |fs.Free()|, i)
    requires n == c.disk.files[dir].size / BLKSIZE
    modifies fs`words, fs`files, fs`table, fs`data, fs`owner
    ensures fs.Valid({}) && st != ENotFound
    ensures st != Ok || found ==> Looked(c, o, w, fs.C(), fs.owner, fs.words, dir, name, free, st, file)
    ensures st == Ok && !found ==> Looking(c, o, w, fs.C(), fs.owner, fs.words, dir, name, n, free, |fs.Free()|, i + 1)
  {
    ghost var c1, o1, w1, free1 := fs.C(), fs.owner, fs.words, |fs.Free()|;
    assert FilledTo(c.disk, dir, n) ==> FilledAt(c.disk, dir, i);
    var b, j;
    st, b, j := SearchBlock(fs, dir, name, i);
    SearchWalked(c, o, c1, o1, fs.C(), fs.owner, dir, name, i);
    found, file := st == Ok && j < BLKFILES, Root;
    if st != Ok {
      LookFailed(c, o, w, c1, o1, w1, fs.C(), fs.owner, fs.words, dir, name, n, free, free1, |fs.Free()|, i, st);
      return;
    }
    LoopGoesOn(c.disk, c1.disk, fs.D(), dir, 0, n, free, free1, |fs.Free()|, i);
    if found {
      file := Rec(b, j);
      LookFound(c, o, w, fs.C(), fs.owner, fs.words, dir, name, n, free, |fs.Free()|, i, b, j);
    } else {
      SearchOn(c, o, fs.C(), fs.owner, dir, name, i, i + 1, b);
    }
  }

  // dir_lookup: the first record of the name, unless a hole before it cannot be filled.
  method DirLookup(fs: FileSystem, dir: Loc, name: string) returns (st: Status, file: Loc)
    requires fs.Valid({}) && AllWhole(fs.D()) && DirAt(fs.D(), dir) && Live(fs.D(), dir) && name != ""
    modifies fs`words, fs`files, fs`table, fs`data, fs`owner
    ensures fs.Valid({})
    ensures Looked(old(fs.C()), old(fs.owner), old(fs.words), fs.C(), fs.owner, fs.words, dir, name, |old(fs.Free())|,
                   st, file)
  {
    ghost var c, o, w, free := fs.C(), fs.owner, fs.words, |fs.Free()|;
    var n := fs.files[dir].size / BLKSIZE;
    assert WholeAt(c.disk, dir);
    var i := 0;
    LookStarts(c, o, w, dir, name, n, free);
    while i < n
      invariant i <= n && fs.Valid({}) && DirAt(fs.D(), dir) && Live(fs.D(), dir) && n <= BlocksFor(fs.files[dir].size)
      invariant Looking(c, o, w, fs.C(), fs.owner, fs.words, dir, name, n, free, |fs.Free()|, i)
    {
      var found;
      st, found, file := LookIn(fs, dir, name, i, c, o, w, n, free);
      if st != Ok || found { return; }
      i := i + 1;
    }
    LookedInAll(c, o, w, fs.C(), fs.owner, fs.words, dir, name, n, free, |fs.Free()|);
    return ENotFound, Root;
  }

  lemma WalkedTree(d: Disk, d': Disk, o: map<nat, Slot>, o': map<nat, Slot>, dir: Loc)
    requires Walked(d, d', dir) && Grew(d, d', o, o') && RecordsOk(d, o) && AllWhole(d)
    ensures AllWhole(d')
  {
    forall l ensures WholeAt(d', l) { assert WholeAt(d, l) && OtherAfter(d, d', dir, l); }
  }

  // ----- Walking a path -----

  datatype PathStatus = Done | NotFound | BadPath | NoDisk | Invalid | Exists

  // dir and last: where the last name was looked for, and that name, if only it was not found.
  datatype WalkResult = WalkResult(st: PathStatus, dir: Opt, file: Opt, last: string)

  const LOST := WalkResult(NotFound, None, None, "")

  // Looking up one name after the other, starting from l, which was found in dir.
  ghost function Walk(d: Disk, o: map<nat, Slot>, dir: Opt, l: Loc, path: seq<string>): WalkResult
    decreases |path|
  {
    if path == [] then WalkResult(Done, dir, Some(l), "")
    else if |path[0]| >= MAXNAMELEN then LOST.(st := BadPath)
    else if !DirAt(d, l) then LOST
    else
      match ChildOf(d, o, l, path[0])
      case Some(c) => Walk(d, o, Some(l), c, path[1..])
      case None => if |path| == 1 then WalkResult(NotFound, Some(l), None, path[0]) else LOST
  }

  lemma WalkNext(d: Disk, o: map<nat, Slot>, dir: Opt, l: Loc, name: string, rest: seq<string>)
    ensures Walk(d, o, dir, l, [name] + rest) ==
            if |name| >= MAXNAMELEN then LOST.(st := BadPath)
            else if !DirAt(d, l) then LOST
            else
              match ChildOf(d, o, l, name)
              case Some(c) => Walk(d, o, Some(l), c, rest)
              case None => if rest == [] then WalkResult(NotFound, Some(l), None, name) else LOST
  {
    assert ([name] + rest)[1..] == rest;
  }

  // The walk is the fold of the lookups: it ends where the path resolves to.
  lemma {:induction false} WalkResolves(d: Disk, o: map<nat, Slot>, dir: Opt, l: Loc, path: seq<string>)
    ensures var r := Walk(d, o, dir, l, path);
            && (r.st == Done || r.st == NotFound || r.st == BadPath)
            && (r.st == BadPath ==> exists i :: 0 <= i < |path| && |path[i]| >= MAXNAMELEN)
            && (r.st != BadPath ==> r.file == Resolve(d, o, l, path) && (r.st == Done <==> r.file.Some?))
            && (r.st == NotFound && r.dir.Some? ==>
                  && path != [] && r.dir == Resolve(d, o, l, path[..|path| - 1]) && DirAt(d, r.dir.loc)
                  && r.last == path[|path| - 1] && ChildOf(d, o, r.dir.loc, r.last) == None)
            && (r.st == NotFound && r.dir.None? ==>
                  && path != []
                  && var up := Resolve(d, o, l, path[..|path| - 1]); up.None? || !DirAt(d, up.loc))
    decreases |path|
  {
    if path != [] {
      assert path[..|path| - 1] == [] <==> |path| == 1;
      if |path| > 1 { assert path[..|path| - 1][1..] == path[1..][..|path| - 2]; }
      if |path[0]| < MAXNAMELEN && DirAt(d, l) && ChildOf(d, o, l, path[0]).Some? {
        WalkResolves(d, o, Some(l), ChildOf(d, o, l, path[0]).loc, path[1..]);
      }
    }
  }

  // Every directory has all its blocks.
  ghost predicate DirsFull(d: Disk) {
    forall l :: FullAt(d, l)
  }

  ghost predicate FullAt(d: Disk, l: Loc) {
    DirAt(d, l) ==> d.files[l].size <= MAXFILESIZE && NoHoles(d, l, 0, d.files[l].size)
  }

  lemma FullFilled(d: Disk, dir: Loc)
    requires DirAt(d, dir) && FullAt(d, dir)
    ensures FilledTo(d, dir, d.files[dir].size / BLKSIZE)
  {
    forall k: nat | k < d.files[dir].size / BLKSIZE ensures FilledAt(d, dir, k) {
      assert HasBlock(d, dir, 0, d.files[dir].size, k * BLKSIZE);
    }
  }

  lemma StillFull(d: Disk, d': Disk, dir: Loc)
    requires DirsFull(d) && Walked(d, d', dir)
    ensures DirsFull(d')
  {
    forall l ensures FullAt(d', l) {
      assert FullAt(d, l) && OtherAfter(d, d', dir, l);
      if DirAt(d', l) {
        var size := d.files[l].size;
        forall p: nat ensures HasBlock(d', l, 0, size, p) {
          assert HasBlock(d, l, 0, size, p) && KeptAt(d, d', dir, SlotOf(l, p / BLKSIZE));
        }
      }
    }
  }

  // Looking up name in l succeeds, whatever the state of the disk: no block is missing before the record.
  ghost predicate ClearStep(d: Disk, o: map<nat, Slot>, l: Loc, name: string) {
    && DirAt(d, l) && |name| < MAXNAMELEN && ChildOf(d, o, l, name).Some?
    && FilledUpTo(d, o, l, ChildOf(d, o, l, name).loc)
  }

  ghost predicate Clear(d: Disk, o: map<nat, Slot>, l: Loc, path: seq<string>)
    decreases |path|
  {
    path == [] || (ClearStep(d, o, l, path[0]) && Clear(d, o, ChildOf(d, o, l, path[0]).loc, path[1..]))
  }

  lemma {:induction false} ClearSnoc(d: Disk, o: map<nat, Slot>, l: Loc, path: seq<string>, name: string, m: Loc)
    requires Clear(d, o, l, path) && Resolve(d, o, l, path) == Some(m) && ClearStep(d, o, m, name)
    ensures Clear(d, o, l, path + [name])
    decreases |path|
  {
    if path == [] {
      assert (path + [name])[1..] == [];
    } else {
      assert (path + [name])[1..] == path[1..] + [name];
      ClearSnoc(d, o, ChildOf(d, o, l, path[0]).loc, path[1..], name, m);
    }
  }

  lemma StepKept(d: Disk, o: map<nat, Slot>, d': Disk, o': map<nat, Slot>, l: Loc, name: string)
    requires Owned(d, o) && Owned(d', o') && OwnersKept(o, o') && (DirAt(d, l) ==> DirAt(d', l))
    requires (forall m :: SameChild(d, o, d', o', l, name, m)) && name != "" && ClearStep(d, o, l, name)
    ensures ClearStep(d', o', l, name) && ChildOf(d', o', l, name) == ChildOf(d, o, l, name)
  {
    SameChildOf(d, o, d', o', l, name);
    var c := ChildOf(d, o, l, name).loc;
    assert SameChild(d, o, d', o', l, name, c);
    forall k: nat | k <= BlockNo(o', c) ensures FilledAt(d', l, k) {
      assert FilledAt(d, l, k);
      StillNamed(d, o, d', o', l, k);
    }
  }

  lemma {:induction false} ClearKept(d: Disk, o: map<nat, Slot>, d': Disk, o': map<nat, Slot>, l: Loc, path: seq<string>)
    requires Owned(d, o) && Owned(d', o') && OwnersKept(o, o') && SameNames(d, o, d', o') && Proper(path)
    requires Clear(d, o, l, path)
    ensures Clear(d', o', l, path)
    decreases |path|
  {
    if path != [] {
      forall m ensures SameChild(d, o, d', o', l, path[0], m) {}
      StepKept(d, o, d', o', l, path[0]);
      ClearKept(d, o, d', o', ChildOf(d, o, l, path[0]).loc, path[1..]);
    }
  }

  // A new name elsewhere leaves clear paths clear.
  lemma {:induction false} ClearOneMore(d: Disk, o: map<nat, Slot>, d': Disk, o': map<nat, Slot>,
                                        dir: Loc, name: string, f: Loc, l: Loc, path: seq<string>)
    requires Owned(d, o) && Owned(d', o') && OwnersKept(o, o') && OneMore(d, o, d', o', dir, name, f)
    requires Proper(path) && Clear(d, o, l, path) && !DirAt(d, f)
    ensures Clear(d', o', l, path)
    decreases |path|
  {
    if path != [] {
      var n := path[0];
      var c := ChildOf(d, o, l, n).loc;
      forall m ensures SameChild(d, o, d', o', l, n, m) {
        assert ChildAfter(d, o, d', o', dir, name, f, l, n, m);
        assert IsChild(d, o, l, n, c);
      }
      StepKept(d, o, d', o', l, n);
      ClearOneMore(d, o, d', o', dir, name, f, c, path[1..]);
    }
  }

  // What a walk that started in state (c, o) may have done to the file system.
  ghost predicate Explored(c: Contents, c': Contents, o: map<nat, Slot>, o': map<nat, Slot>) {
    && SameBytes(c, c') && Grew(c.disk, c'.disk, o, o') && AllWhole(c'.disk) && StaysUnique(c.disk, o, c'.disk, o')
    && (DirsFull(c.disk) ==> DirsFull(c'.disk))
  }

  lemma ExploredStart(c: Contents, o: map<nat, Slot>)
    requires AllWhole(c.disk)
    ensures Explored(c, c, o, o)
  {
    forall l ensures GrewAt(c.disk, c.disk, l) {}
  }

  lemma ExploredMore(c: Contents, c1: Contents, c': Contents, o: map<nat, Slot>, o1: map<nat, Slot>, o': map<nat, Slot>,
                     dir: Loc)
    requires Explored(c, c1, o, o1) && RecordsOk(c1.disk, o1) && SameBytes(c1, c')
    requires Grew(c1.disk, c'.disk, o1, o') && Walked(c1.disk, c'.disk, dir)
    ensures Explored(c, c', o, o')
  {
    GrewTrans(c.disk, c1.disk, c'.disk, o, o1, o');
    GrewNames(c1.disk, c'.disk, o1, o');
    SameUnique(c1.disk, o1, c'.disk, o');
    WalkedTree(c1.disk, c'.disk, o1, o', dir);
    if DirsFull(c.disk) { StillFull(c1.disk, c'.disk, dir); }
  }

  // One name of the path, looked up in dir after a walk from (c, o).
  method LookupNext(fs: FileSystem, dir: Loc, name: string, ghost c: Contents, ghost o: map<nat, Slot>)
    returns (st: Status, file: Loc)
    requires fs.Valid({}) && Explored(c, fs.C(), o, fs.owner) && name != ""
    requires Owned(c.disk, o) && RecordsOk(c.disk, o) && DirAt(fs.D(), dir) && Live(fs.D(), dir)
    modifies fs`words, fs`files, fs`table, fs`data, fs`owner
    ensures fs.Valid({}) && Explored(c, fs.C(), o, fs.owner) && OwnersKept(old(fs.owner), fs.owner)
    ensures SameNames(old(fs.D()), old(fs.owner), fs.D(), fs.owner)
    ensures st == Ok ==>
              && ChildOf(c.disk, o, dir, name) == Some(file) && Live(fs.D(), file)
              && ChildOf(fs.D(), fs.owner, dir, name) == Some(file) && FilledUpTo(fs.D(), fs.owner, dir, file)
    ensures st == ENotFound ==> ChildOf(c.disk, o, dir, name) == None
    ensures DirsFull(c.disk) ==> st == Ok || st == ENotFound
    ensures DirsFull(c.disk) ==> fs.C() == old(fs.C()) && fs.words == old(fs.words)
    ensures ChildOf(c.disk, o, dir, name).Some? && FilledUpTo(c.disk, o, dir, ChildOf(c.disk, o, dir, name).loc) ==>
              st == Ok
  {
    ghost var c1, o1 := fs.C(), fs.owner;
    GrewNames(c.disk, c1.disk, o, o1);
    assert DirsFull(c1.disk) ==> FullAt(c1.disk, dir);
    if DirsFull(c1.disk) { FullFilled(c1.disk, dir); }
    ghost var l := ChildOf(c.disk, o, dir, name);
    SameLookup(c.disk, o, c1.disk, o1, dir, name);
    st, file := DirLookup(fs, dir, name);
    ExploredMore(c, c1, fs.C(), o, o1, fs.owner, dir);
    GrewNames(c1.disk, fs.D(), o1, fs.owner);
    if st == Ok {
      assert GrewAt(c1.disk, fs.D(), file);
      NowFilled(c1.disk, o1, fs.D(), fs.owner, dir, name, file);
    }
  }

  lemma SameLookup(d: Disk, o: map<nat, Slot>, d': Disk, o': map<nat, Slot>, dir: Loc, name: string)
    requires Owned(d, o) && Owned(d', o') && OwnersKept(o, o') && SameNames(d, o, d', o') && name != ""
    ensures ChildOf(d', o', dir, name) == ChildOf(d, o, dir, name)
    ensures var l := ChildOf(d, o, dir, name);
            l.Some? && FilledUpTo(d, o, dir, l.loc) ==> FilledUpTo(d', o', dir, l.loc)
  {
    forall m ensures SameChild(d, o, d', o', dir, name, m) {}
    SameChildOf(d, o, d', o', dir, name);
    var l := ChildOf(d, o, dir, name);
    if l.Some? && FilledUpTo(d, o, dir, l.loc) {
      assert SameChild(d, o, d', o', dir, name, l.loc);
      forall k: nat | k <= BlockNo(o', l.loc) ensures FilledAt(d', dir, k) {
        assert FilledAt(d, dir, k);
        StillNamed(d, o, d', o', dir, k);
      }
    }
  }

  lemma NowFilled(d: Disk, o: map<nat, Slot>, d': Disk, o': map<nat, Slot>, dir: Loc, name: string, l: Loc)
    requires SameNames(d, o, d', o') && name != "" && ChildOf(d, o, dir, name) == Some(l) && FilledUpTo(d', o, dir, l)
    ensures ChildOf(d', o', dir, name) == Some(l) && FilledUpTo(d', o', dir, l)
  {
    forall m ensures SameChild(d, o, d', o', dir, name, m) {}
    SameChildOf(d, o, d', o', dir, name);
    assert SameChild(d, o, d', o', dir, name, l);
    forall k: nat | k <= BlockNo(o', l) ensures FilledAt(d', dir, k) { assert k <= BlockNo(o, l); }
  }

  // A walk along parts, begun in state (c, o), has followed the names in done and is at file.
  ghost predicate Walking(c: Contents, o: map<nat, Slot>, c': Contents, o': map<nat, Slot>, dir: Opt, file: Loc,
                          done: seq<string>, rest: seq<string>, parts: seq<string>)
  {
    && Explored(c, c', o, o') && done + rest == parts && file in c.disk.files && Live(c'.disk, file)
    && Resolve(c.disk, o, Root, done) == Some(file) && Clear(c'.disk, o', Root, done)
    && Walk(c.disk, o, None, Root, parts) == Walk(c.disk, o, dir, file, rest)
    && (Clear(c.disk, o, Root, parts) ==> Clear(c.disk, o, file, rest))
  }

  lemma WalkingStarts(c: Contents, o: map<nat, Slot>, parts: seq<string>)
    requires AllWhole(c.disk) && RecordsOk(c.disk, o)
    ensures Walking(c, o, c, o, None, Root, [], parts, parts)
  {
    ExploredStart(c, o);
    assert [] + parts == parts;
  }

  lemma ClearHead(d: Disk, o: map<nat, Slot>, l: Loc, name: string, rest: seq<string>)
    ensures Clear(d, o, l, [name] + rest) <==>
            ClearStep(d, o, l, name) && Clear(d, o, ChildOf(d, o, l, name).loc, rest)
  {
    assert ([name] + rest)[1..] == rest;
  }

  // One name further.
  lemma WalkingOn(c: Contents, o: map<nat, Slot>, c1: Contents, o1: map<nat, Slot>, c': Contents, o': map<nat, Slot>,
                  dir: Opt, file: Loc, name: string, rest: seq<string>, done: seq<string>, parts: seq<string>, next: Loc)
    requires Walking(c, o, c1, o1, dir, file, done, [name] + rest, parts) && Proper(parts)
    requires RecordsOk(c.disk, o) && Owned(c1.disk, o1) && Owned(c'.disk, o') && OwnersKept(o1, o')
    requires SameNames(c1.disk, o1, c'.disk, o') && Explored(c, c', o, o') && |name| < MAXNAMELEN && DirAt(c.disk, file)
    requires ChildOf(c.disk, o, file, name) == Some(next) && Live(c'.disk, next)
    requires ChildOf(c'.disk, o', file, name) == Some(next) && FilledUpTo(c'.disk, o', file, next)
    ensures Walking(c, o, c', o', Some(file), next, done + [name], rest, parts)
  {
    assert (done + [name]) + rest == done + ([name] + rest);
    forall i | 0 <= i < |done| ensures done[i] != "" { assert done[i] == parts[i]; }
    WalkNext(c.disk, o, dir, file, name, rest);
    ResolveSnoc(c.disk, o, Root, done, name);
    ClearHead(c.disk, o, file, name, rest);
    ClearKept(c1.disk, o1, c'.disk, o', Root, done);
    GrewNames(c.disk, c'.disk, o, o');
    SameResolve(c.disk, o, c'.disk, o', Root, done);
    assert GrewAt(c.disk, c'.disk, file);
    ClearSnoc(c'.disk, o', Root, done, name, file);
  }

  // Where the walk cannot go on, the path was not clear.
  lemma WalkingStopped(c: Contents, o: map<nat, Slot>, c1: Contents, o1: map<nat, Slot>, dir: Opt, file: Loc,
                       name: string, rest: seq<string>, done: seq<string>, parts: seq<string>)
    requires Walking(c, o, c1, o1, dir, file, done, [name] + rest, parts) && !ClearStep(c.disk, o, file, name)
    ensures !Clear(c.disk, o, Root, parts)
  {
    ClearHead(c.disk, o, file, name, rest);
  }

  // The walk of the path has ended with r.
  ghost predicate WalkEnds(c: Contents, o: map<nat, Slot>, c': Contents, o': map<nat, Slot>, parts: seq<string>,
                           r: WalkResult)
  {
    && Explored(c, c', o, o')
    && (r.st != NoDisk && r.st != Invalid ==> r == Walk(c.disk, o, None, Root, parts))
    && (DirsFull(c.disk) ==> r.st != NoDisk && r.st != Invalid)
    && (Clear(c.disk, o, Root, parts) ==> r.st == Done)
    && (r.st == NotFound && r.dir.Some? ==>
          parts != [] && |r.last| < MAXNAMELEN && Clear(c'.disk, o', Root, parts[..|parts| - 1]))
  }

  // The lookup of the name came to nothing, for the reason st.
  function Ended(st: Status, file: Loc, name: string, last: bool): WalkResult {
    match st
    case ENotFound => if last then WalkResult(NotFound, Some(file), None, name) else LOST
    case EInval => LOST.(st := Invalid)
    case _ => LOST.(st := NoDisk)
  }

  lemma LookupEnds(c: Contents, o: map<nat, Slot>, c1: Contents, o1: map<nat, Slot>, c': Contents, o': map<nat, Slot>,
                   dir: Opt, file: Loc, name: string, rest: seq<string>, done: seq<string>, parts: seq<string>, st: Status)
    requires Walking(c, o, c1, o1, dir, file, done, [name] + rest, parts) && Proper(parts)
    requires Owned(c1.disk, o1) && Owned(c'.disk, o') && OwnersKept(o1, o') && SameNames(c1.disk, o1, c'.disk, o')
    requires Explored(c, c', o, o') && |name| < MAXNAMELEN && DirAt(c.disk, file) && st != Ok
    requires st == ENotFound ==> ChildOf(c.disk, o, file, name) == None
    requires DirsFull(c.disk) ==> st == ENotFound
    requires !ClearStep(c.disk, o, file, name)
    ensures WalkEnds(c, o, c', o', parts, Ended(st, file, name, rest == []))
  {
    WalkNext(c.disk, o, dir, file, name, rest);
    WalkingStopped(c, o, c1, o1, dir, file, name, rest, done, parts);
    if rest == [] { UpToLast(c1.disk, o1, c'.disk, o', done, name, rest, parts); }
  }

  lemma TooEarly(c: Contents, o: map<nat, Slot>, c1: Contents, o1: map<nat, Slot>, dir: Opt, file: Loc,
                 name: string, rest: seq<string>, done: seq<string>, parts: seq<string>)
    requires Walking(c, o, c1, o1, dir, file, done, [name] + rest, parts)
    ensures |name| >= MAXNAMELEN ==> WalkEnds(c, o, c1, o1, parts, LOST.(st := BadPath))
    ensures |name| < MAXNAMELEN && !DirAt(c.disk, file) ==> WalkEnds(c, o, c1, o1, parts, LOST)
  {
    WalkNext(c.disk, o, dir, file, name, rest);
    if !ClearStep(c.disk, o, file, name) { WalkingStopped(c, o, c1, o1, dir, file, name, rest, done, parts); }
  }

  // One turn of walk_path: the next name, which may be the last.
  method WalkName(fs: FileSystem, dir: Opt, file: Loc, name: string, last: bool, ghost rest: seq<string>,
                  ghost c: Contents, ghost o: map<nat, Slot>, ghost done: seq<string>, ghost parts: seq<string>)
    returns (on: bool, r: WalkResult, next: Loc)
    requires fs.Valid({}) && Walking(c, o, fs.C(), fs.owner, dir, file, done, [name] + rest, parts)
    requires Proper(parts) && name != "" && (last <==> rest == []) && Owned(c.disk, o) && RecordsOk(c.disk, o)
    modifies fs`words, fs`files, fs`table, fs`data, fs`owner
    ensures fs.Valid({})
    ensures DirsFull(c.disk) ==> fs.C() == old(fs.C()) && fs.words == old(fs.words)
    ensures on ==> Walking(c, o, fs.C(), fs.owner, Some(file), next, done + [name], rest, parts)
    ensures !on ==> WalkEnds(c, o, fs.C(), fs.owner, parts, r)
  {
    ghost var c1, o1 := fs.C(), fs.owner;
    next := file;
    assert GrewAt(c.disk, c1.disk, file);
    TooEarly(c, o, c1, o1, dir, file, name, rest, done, parts);
    if |name| >= MAXNAMELEN { return false, LOST.(st := BadPath), file; }
    if !fs.files[file].isDir { return false, LOST, file; }
    var st;
    st, next := LookupNext(fs, file, name, c, o);
    on, r := st == Ok, Ended(st, file, name, last);
    if on {
      WalkingOn(c, o, c1, o1, fs.C(), fs.owner, dir, file, name, rest, done, parts, next);
    } else {
      LookupEnds(c, o, c1, o1, fs.C(), fs.owner, dir, file, name, rest, done, parts, st);
    }
  }

  // walk_path
  method WalkPath(fs: FileSystem, path: string) returns (r: WalkResult)
    requires fs.Valid({}) && AllWhole(fs.D())
    modifies fs`words, fs`files, fs`table, fs`data, fs`owner
    ensures fs.Valid({}) && Explored(old(fs.C()), fs.C(), old(fs.owner), fs.owner)
    ensures DirsFull(old(fs.D())) ==> fs.C() == old(fs.C()) && fs.words == old(fs.words)
    ensures path == "" || path[0] != '/' ==> r == LOST.(st := BadPath)
    ensures path != "" && path[0] == '/' ==>
              WalkEnds(old(fs.C()), old(fs.owner), fs.C(), fs.owner, Components(path), r)
  {
    ghost var c, o, w, parts := fs.C(), fs.owner, fs.words, Components(path);
    if path == "" || path[0] != '/' {
      ExploredStart(c, o);
      return LOST.(st := BadPath);
    }
    var i := SkipSlash(path, 0);
    assert path[0..] == path;
    var file, dir := Root, None;
    ghost var done: seq<string> := [];
    WalkingStarts(c, o, parts);
    while i < |path|
      invariant i <= |path| && (i < |path| ==> path[i] != '/') && fs.Valid({})
      invariant Walking(c, o, fs.C(), fs.owner, dir, file, done, Components(path[i..]), parts)
      invariant DirsFull(c.disk) ==> fs.C() == c && fs.words == w
    {
      var name, k := NextName(path, i);
      var on, next;
      on, r, next := WalkName(fs, dir, file, name, k == |path|, Components(path[k..]), c, o, done, parts);
      if !on { return; }
      i := k;
      done := done + [name];
      dir, file := Some(file), next;
    }
    r := WalkResult(Done, dir, Some(file), "");
  }

  lemma UpToLast(d: Disk, o: map<nat, Slot>, d': Disk, o': map<nat, Slot>, done: seq<string>, name: string,
                 rest: seq<string>, parts: seq<string>)
    requires Owned(d, o) && Owned(d', o') && OwnersKept(o, o') && SameNames(d, o, d', o') && Clear(d, o, Root, done)
    requires done + ([name] + rest) == parts && rest == [] && Proper(parts)
    ensures parts != [] && Clear(d', o', Root, parts[..|parts| - 1])
  {
    assert parts[..|parts| - 1] == done;
    ClearKept(d, o, d', o', Root, done);
  }

  // ----- A record for a new file -----

  // A block that dir did not have before holds unused records only.
  lemma FreshBlock(d: Disk, o: map<nat, Slot>, d': Disk, o': map<nat, Slot>, dir: Loc, n: nat, b: nat)
    requires Owned(d, o) && RecordsOk(d, o) && Owned(d', o') && RecordsOk(d', o') && Walked(d, d', dir) && dir in d.files
    requires PointerAt(d, SlotOf(dir, n)) == 0 && b == PointerAt(d', SlotOf(dir, n)) && b != 0 && DirAt(d', dir)
    ensures b in o' && o'[b] == SlotOf(dir, n) && Rec(b, 0) in d'.files && d'.files[Rec(b, 0)] == ZERO_FILE
  {
    assert NamedAt(d', o', SlotOf(dir, n)) && RecordAt(d', o', b, 0) && RecordAt(d, o, b, 0);
    if b in o {
      assert OwnsAt(d, o, b) && KeptAt(d, d', dir, o[b]) && NamedAt(d', o', o[b]);
    }
    assert OtherAfter(d, d', dir, Rec(b, 0));
  }

  // Record file is an unused one of directory dir.
  ghost predicate Spare(d: Disk, o: map<nat, Slot>, dir: Loc, file: Loc) {
    && file.Rec? && file in d.files && d.files[file] == ZERO_FILE
    && file.block in o && o[file.block].loc == dir
  }

  lemma GrownTree(d: Disk, o: map<nat, Slot>, dir: Loc, size: nat)
    requires AllWhole(d) && RecordsOk(d, o) && DirAt(d, dir) && size % BLKSIZE == 0
    ensures AllWhole(SetSize(d, dir, size)) && Grew(d, SetSize(d, dir, size), o, o)
  {
    var d' := SetSize(d, dir, size);
    forall l ensures GrewAt(d, d', l) {}
    forall l ensures WholeAt(d', l) { assert WholeAt(d, l); }
  }

  lemma GrownThenWalked(d: Disk, o: map<nat, Slot>, d1: Disk, d': Disk, o': map<nat, Slot>, dir: Loc)
    requires Grew(d, d1, o, o) && RecordsOk(d1, o) && AllWhole(d1) && Walked(d1, d', dir) && OwnersKept(o, o')
    ensures Grew(d, d', o, o') && AllWhole(d')
  {
    WalkedGrew(d1, d', o, o', dir);
    WalkedTree(d1, d', o, o', dir);
    GrewTrans(d, d1, d', o, o, o');
  }

  // The new block n gives an unused record with no hole before it.
  lemma GrownByBlock(d: Disk, o: map<nat, Slot>, d1: Disk, d': Disk, o': map<nat, Slot>, dir: Loc, n: nat, b: nat)
    requires Owned(d, o) && FilledTo(d, dir, n) && Owned(d1, o) && RecordsOk(d1, o) && Owned(d', o') && RecordsOk(d', o')
    requires OwnersKept(o, o') && Walked(d1, d', dir) && dir in d1.files && DirAt(d', dir)
    requires PointerAt(d1, SlotOf(dir, n)) == 0 && b == PointerAt(d', SlotOf(dir, n)) && b != 0
    ensures Spare(d', o', dir, Rec(b, 0)) && FilledUpTo(d', o', dir, Rec(b, 0)) && BlockNo(o', Rec(b, 0)) == n
  {
    FreshBlock(d1, o, d', o', dir, n, b);
    StillFilled(d, o, d', o', dir, n);
    FilledNext(d', dir, n, n + 1);
    FilledIncluding(d', o', dir, Rec(b, 0), n + 1);
  }

  // Block i of dir is there, and all its records are in use.
  ghost predicate FullBlock(d: Disk, dir: Loc, i: nat) {
    FilledAt(d, dir, i) && NoneSpare(d, PointerAt(d, SlotOf(dir, i)))
  }

  ghost predicate NoneSpare(d: Disk, b: nat) {
    forall j: nat :: j < BLKFILES && Rec(b, j) in d.files ==> d.files[Rec(b, j)].name != ""
  }

  ghost predicate FullTo(d: Disk, dir: Loc, n: nat) {
    forall k: nat :: k < n ==> FullBlock(d, dir, k)
  }

  // The first block of dir that is missing or has an unused record can be had.
  ghost predicate HasRoom(d: Disk, dir: Loc, free: nat)
    requires dir in d.files
  {
    exists i: nat :: RoomIn(d, dir, free, i)
  }

  ghost predicate RoomIn(d: Disk, dir: Loc, free: nat, i: nat)
    requires dir in d.files
  {
    FullTo(d, dir, i) && !FullBlock(d, dir, i) && i < MAXBLOCKS && Needed(d, dir, i) <= free
  }

  lemma RoomDecides(d: Disk, dir: Loc, free: nat, i: nat)
    requires dir in d.files && FullTo(d, dir, i) && !FullBlock(d, dir, i)
    ensures HasRoom(d, dir, free) <==> i < MAXBLOCKS && Needed(d, dir, i) <= free
    ensures FullTo(d, dir, MAXBLOCKS) <==> i >= MAXBLOCKS
  {
    assert RoomIn(d, dir, free, i) <==> i < MAXBLOCKS && Needed(d, dir, i) <= free;
    forall k: nat ensures RoomIn(d, dir, free, k) ==> k == i {
      assert (k < i ==> FullBlock(d, dir, k)) && (i < k && FullTo(d, dir, k) ==> FullBlock(d, dir, i));
    }
    if i >= MAXBLOCKS {
      forall k: nat | k < MAXBLOCKS ensures FullBlock(d, dir, k) {}
    }
  }

  lemma FullNext(d: Disk, dir: Loc, i: nat, next: nat)
    requires FullTo(d, dir, i) && FullBlock(d, dir, i) && next == i + 1
    ensures FullTo(d, dir, next)
  {
    forall k: nat | k < next ensures FullBlock(d, dir, k) { assert k < i ==> FullBlock(d, dir, k); }
  }

  // The end of dir_alloc_file: one more block for dir. If it cannot be had, dir is longer all the same and ends in a hole.
  method ExpandDir(fs: FileSystem, dir: Loc) returns (st: Status, file: Loc)
    requires fs.Valid({}) && AllWhole(fs.D()) && DirAt(fs.D(), dir) && Live(fs.D(), dir)
    requires FilledTo(fs.D(), dir, fs.files[dir].size / BLKSIZE)
    modifies fs`words, fs`files, fs`table, fs`data, fs`owner
    ensures fs.Valid({}) && SameBytes(old(fs.C()), fs.C()) && AllWhole(fs.D())
    ensures Grew(old(fs.D()), fs.D(), old(fs.owner), fs.owner) && st != ENotFound
    ensures st == Ok ==> Spare(fs.D(), fs.owner, dir, file) && FilledUpTo(fs.D(), fs.owner, dir, file)
    ensures var n := old(fs.files)[dir].size / BLKSIZE;
            && PointerAt(old(fs.D()), SlotOf(dir, n)) == 0 && (st == EInval <==> n >= MAXBLOCKS)
            && (st == Ok <==> n < MAXBLOCKS && Needed(old(fs.D()), dir, n) <= |old(fs.Free())|)
            && (st == Ok ==> BlockNo(fs.owner, file) == n && file.index == 0)
    ensures dir in fs.files && fs.files[dir].size == old(fs.files)[dir].size + BLKSIZE
    ensures st != Ok ==> PointerAt(fs.D(), SlotOf(dir, old(fs.files)[dir].size / BLKSIZE)) == 0
  {
    file := Root;
    ghost var c, o := fs.C(), fs.owner;
    var n := fs.files[dir].size / BLKSIZE;
    assert WholeAt(c.disk, dir);
    GrownTree(c.disk, o, dir, fs.files[dir].size + BLKSIZE);
    fs.Grow(dir, fs.files[dir].size + BLKSIZE);
    ghost var d1 := fs.D();
    assert PointerAt(d1, SlotOf(dir, n)) == 0 == PointerAt(c.disk, SlotOf(dir, n)) by { assert EmptyPast(c.disk, dir, n); }
    var b;
    st, b := fs.FileGetBlock(dir, n);
    GrownThenWalked(c.disk, o, d1, fs.D(), fs.owner, dir);
    if st == Ok {
      file := Rec(b, 0);
      GrownByBlock(c.disk, o, d1, fs.D(), fs.owner, dir, n, b);
    }
  }

  // How far the search of dir for an unused record has got: everything before block i is in use, and nothing has changed.
  ghost predicate Seeking(c: Contents, o: map<nat, Slot>, w: seq<nat>, c': Contents, o': map<nat, Slot>, w': seq<nat>,
                          dir: Loc, i: nat)
  {
    c' == c && w' == w && OwnersKept(o, o') && FullTo(c.disk, dir, i) && FilledTo(c.disk, dir, i)
  }

  // What dir_alloc_file makes of the file system, and when it succeeds.
  ghost predicate Sought(c: Contents, o: map<nat, Slot>, c': Contents, o': map<nat, Slot>, dir: Loc, free: nat,
                         st: Status, file: Loc)
  {
    && dir in c.disk.files && SameBytes(c, c') && AllWhole(c'.disk) && Grew(c.disk, c'.disk, o, o') && st != ENotFound
    && (st == Ok <==> HasRoom(c.disk, dir, free)) && (st == EInval <==> FullTo(c.disk, dir, MAXBLOCKS))
    && (st == Ok ==>
          && Spare(c'.disk, o', dir, file) && FilledUpTo(c'.disk, o', dir, file)
          && RoomIn(c.disk, dir, free, BlockNo(o', file)) && FirstSpare(c'.disk, file))
  }

  // The records before file in its block are in use.
  ghost predicate FirstSpare(d: Disk, file: Loc)
    requires file.Rec?
  {
    forall k: nat :: k < file.index && Rec(file.block, k) in d.files ==> d.files[Rec(file.block, k)].name != ""
  }

  lemma SeekFailed(c: Contents, o: map<nat, Slot>, c': Contents, o': map<nat, Slot>, dir: Loc, free: nat, free': nat,
                   i: nat, st: Status)
    requires Owned(c.disk, o) && RecordsOk(c.disk, o) && Owned(c'.disk, o') && OwnersKept(o, o') && AllWhole(c.disk)
    requires SameBytes(c, c') && FullTo(c.disk, dir, i) && !FilledAt(c.disk, dir, i)
    requires Asked(c.disk, c'.disk, free, free', dir, i, st) && st != Ok
    ensures Sought(c, o, c', o', dir, free, st, Root)
  {
    WalkedGrew(c.disk, c'.disk, o, o', dir);
    WalkedTree(c.disk, c'.disk, o, o', dir);
    RoomDecides(c.disk, dir, free, i);
  }

  lemma SeekFound(c: Contents, o: map<nat, Slot>, c': Contents, o': map<nat, Slot>, dir: Loc, free: nat, free': nat,
                  i: nat, b: nat, j: nat)
    requires Owned(c.disk, o) && RecordsOk(c.disk, o) && Owned(c'.disk, o') && OwnersKept(o, o') && AllWhole(c.disk)
    requires SameBytes(c, c') && FullTo(c.disk, dir, i) && FilledTo(c.disk, dir, i) && UnusedAt(c'.disk, Rec(b, j))
    requires Asked(c.disk, c'.disk, free, free', dir, i, Ok) && (FilledAt(c.disk, dir, i) ==> c' == c)
    requires b == PointerAt(c'.disk, SlotOf(dir, i)) && b in o' && o'[b] == SlotOf(dir, i)
    requires Rec(b, j) in c'.disk.files && c'.disk.files[Rec(b, j)].name == "" && j < BLKFILES
    requires forall k: nat :: k < j && Rec(b, k) in c'.disk.files ==> c'.disk.files[Rec(b, k)].name != ""
    ensures Sought(c, o, c', o', dir, free, Ok, Rec(b, j))
  {
    var file := Rec(b, j);
    WalkedGrew(c.disk, c'.disk, o, o', dir);
    WalkedTree(c.disk, c'.disk, o, o', dir);
    assert !FullBlock(c.disk, dir, i) by { if FilledAt(c.disk, dir, i) { assert !NoneSpare(c.disk, b); } }
    RoomDecides(c.disk, dir, free, i);
    StillFilled(c.disk, o, c'.disk, o', dir, i);
    FilledNext(c'.disk, dir, i, i + 1);
    FilledIncluding(c'.disk, o', dir, file, i + 1);
  }

  // One turn of the loop of dir_alloc_file.
  method SeekIn(fs: FileSystem, dir: Loc, i: nat, ghost c: Contents, ghost o: map<nat, Slot>, ghost w: seq<nat>,
                ghost free: nat) returns (st: Status, found: bool, file: Loc)
    requires fs.Valid({}) && AllWhole(fs.D()) && DirAt(fs.D(), dir) && Live(fs.D(), dir)
    requires i < BlocksFor(fs.files[dir].size) && free == |fs.Free()| && Owned(c.disk, o) && RecordsOk(c.disk, o)
    requires Seeking(c, o, w, fs.C(), fs.owner, fs.words, dir, i)
    modifies fs`words, fs`files, fs`table, fs`data, fs`owner
    ensures fs.Valid({}) && (found ==> st == Ok)
    ensures st != Ok || found ==> Sought(c, o, fs.C(), fs.owner, dir, free, st, file)
    ensures st == Ok && !found ==> Seeking(c, o, w, fs.C(), fs.owner, fs.words, dir, i + 1)
  {
    ghost var o1 := fs.owner;
    var b, j;
    st, b, j := SearchBlock(fs, dir, "", i);
    found, file := st == Ok && j < BLKFILES, Root;
    if st != Ok {
      SeekFailed(c, o, fs.C(), fs.owner, dir, free, |fs.Free()|, i, st);
    } else if found {
      file := Rec(b, j);
      assert UnusedAt(fs.D(), file);
      SeekFound(c, o, fs.C(), fs.owner, dir, free, |fs.Free()|, i, b, j);
    } else {
      if !FilledAt(c.disk, dir, i) { FreshBlock(c.disk, o1, fs.D(), fs.owner, dir, i, b); }
      FullNext(c.disk, dir, i, i + 1);
      FilledNext(c.disk, dir, i, i + 1);
    }
  }

  // dir_alloc_file
  method DirAllocFile(fs: FileSystem, dir: Loc) returns (st: Status, file: Loc)
    requires fs.Valid({}) && AllWhole(fs.D()) && DirAt(fs.D(), dir) && Live(fs.D(), dir)
    modifies fs`words, fs`files, fs`table, fs`data, fs`owner
    ensures fs.Valid({})
    ensures Sought(old(fs.C()), old(fs.owner), fs.C(), fs.owner, dir, |old(fs.Free())|, st, file)
  {
    ghost var c, o, w, free := fs.C(), fs.owner, fs.words, |fs.Free()|;
    var n := fs.files[dir].size / BLKSIZE;
    assert WholeAt(c.disk, dir);
    var i := 0;
    while i < n
      invariant i <= n && fs.Valid({}) && Seeking(c, o, w, fs.C(), fs.owner, fs.words, dir, i)
    {
      var found;
      st, found, file := SeekIn(fs, dir, i, c, o, w, free);
      if st != Ok || found { return; }
      i := i + 1;
    }
    ghost var o1 := fs.owner;
    st, file := ExpandDir(fs, dir);
    RoomDecides(c.disk, dir, free, n);
    forall l ensures GrewAt(c.disk, c.disk, l) {}
    GrewTrans(c.disk, c.disk, fs.D(), o, o1, fs.owner);
  }

  // ----- Creating a file -----

  // A spare record of dir has no blocks, and is nobody's directory.
  lemma SpareBare(d: Disk, o: map<nat, Slot>, dir: Loc, f: Loc)
    requires Owned(d, o) && Spare(d, o, dir, f)
    ensures Pointerless(d, f) && forall b :: b in o ==> o[b].loc != f
  {
    forall q: Slot ensures BareAt(d, f, q) {}
    forall b | b in o ensures o[b].loc != f { assert OwnsAt(d, o, b) && BareAt(d, f, o[b]); }
  }

  lemma NamingOneMore(d: Disk, o: map<nat, Slot>, dir: Loc, name: string, isDir: bool, f: Loc)
    requires Owned(d, o) && RecordsOk(d, o) && Spare(d, o, dir, f) && name != "" && ChildOf(d, o, dir, name) == None
    ensures OneMore(d, o, PutRecord(d, f, EmptyFile(name, isDir)), o, dir, name, f)
  {
    var d' := PutRecord(d, f, EmptyFile(name, isDir));
    SpareBare(d, o, dir, f);
    forall l ensures !IsChild(d, o, dir, name, l) { NoChild(d, o, dir, name, l); }
    forall dir2, n, l ensures ChildAfter(d, o, d', o, dir, name, f, dir2, n, l) {}
  }

  lemma NamingTree(d: Disk, o: map<nat, Slot>, dir: Loc, name: string, isDir: bool, f: Loc)
    requires AllWhole(d) && OneMore(d, o, PutRecord(d, f, EmptyFile(name, isDir)), o, dir, name, f)
    ensures AllWhole(PutRecord(d, f, EmptyFile(name, isDir)))
    ensures StaysUnique(d, o, PutRecord(d, f, EmptyFile(name, isDir)), o)
  {
    var d' := PutRecord(d, f, EmptyFile(name, isDir));
    forall l ensures WholeAt(d', l) { assert WholeAt(d, l); }
    if UniqueNames(d, o) { OneMoreUnique(d, o, d', o, dir, name, f); }
  }

  // Every path leads where it did.
  ghost predicate SamePaths(d: Disk, o: map<nat, Slot>, d': Disk, o': map<nat, Slot>) {
    forall q :: PathAfter(d, o, d', o', q)
  }

  ghost predicate PathAfter(d: Disk, o: map<nat, Slot>, d': Disk, o': map<nat, Slot>, q: seq<string>) {
    Proper(q) ==> Resolve(d', o', Root, q) == Resolve(d, o, Root, q)
  }

  // Path p, which led nowhere, leads to f, and every other path leads where it did.
  ghost predicate PathAdded(d: Disk, o: map<nat, Slot>, d': Disk, o': map<nat, Slot>, p: seq<string>, f: Loc) {
    && Resolve(d, o, Root, p) == None && Resolve(d', o', Root, p) == Some(f)
    && forall q :: q == p || PathAfter(d, o, d', o', q)
  }

  lemma GrewPaths(d: Disk, o: map<nat, Slot>, d': Disk, o': map<nat, Slot>)
    requires Grew(d, d', o, o') && RecordsOk(d, o)
    ensures SamePaths(d, o, d', o') && StaysUnique(d, o, d', o')
  {
    GrewNames(d, d', o, o');
    SameUnique(d, o, d', o');
    forall q ensures PathAfter(d, o, d', o', q) { if Proper(q) { SameResolve(d, o, d', o', Root, q); } }
  }

  lemma OneMorePath(d: Disk, o: map<nat, Slot>, d': Disk, o': map<nat, Slot>, dir: Loc, name: string, f: Loc,
                    up: seq<string>)
    requires OneMore(d, o, d', o', dir, name, f) && Resolve(d, o, Root, up) == Some(dir) && DirAt(d, dir) && Proper(up)
    ensures PathAdded(d, o, d', o', up + [name], f)
  {
    ResolveSnoc(d, o, Root, up, name);
    OneMoreResolve(d, o, d', o', dir, name, f, up, up + [name]);
    forall q ensures q == up + [name] || PathAfter(d, o, d', o', q) {
      if Proper(q) { OneMoreResolve(d, o, d', o', dir, name, f, up, q); }
    }
  }

  lemma SameThenAdded(d: Disk, o: map<nat, Slot>, d1: Disk, o1: map<nat, Slot>, d': Disk, o': map<nat, Slot>,
                      p: seq<string>, f: Loc)
    requires SamePaths(d, o, d1, o1) && PathAdded(d1, o1, d', o', p, f) && Proper(p)
    ensures PathAdded(d, o, d', o', p, f)
  {
    assert PathAfter(d, o, d1, o1, p);
    forall q ensures q == p || PathAfter(d, o, d', o', q) {
      assert PathAfter(d, o, d1, o1, q) && (q == p || PathAfter(d1, o1, d', o', q));
    }
  }

  // Gives the spare record f of dir its name and type.
  method NameRecord(fs: FileSystem, dir: Loc, f: Loc, name: string, isDir: bool, ghost up: seq<string>)
    requires fs.Valid({}) && AllWhole(fs.D()) && Spare(fs.D(), fs.owner, dir, f) && DirAt(fs.D(), dir)
    requires name != "" && Proper(up) && Resolve(fs.D(), fs.owner, Root, up) == Some(dir)
    requires ChildOf(fs.D(), fs.owner, dir, name) == None
    modifies fs`files
    ensures fs.Valid({}) && AllWhole(fs.D()) && StaysUnique(old(fs.D()), fs.owner, fs.D(), fs.owner)
    ensures SameBytes(old(fs.C()), fs.C()) && OneMore(old(fs.D()), fs.owner, fs.D(), fs.owner, dir, name, f)
    ensures PathAdded(old(fs.D()), fs.owner, fs.D(), fs.owner, up + [name], f)
    ensures fs.D() == PutRecord(old(fs.D()), f, EmptyFile(name, isDir))
  {
    ghost var d := fs.D();
    SpareBare(d, fs.owner, dir, f);
    fs.SetRecord(f, name, isDir);
    NamingOneMore(d, fs.owner, dir, name, isDir, f);
    NamingTree(d, fs.owner, dir, name, isDir, f);
    OneMorePath(d, fs.owner, fs.D(), fs.owner, dir, name, f, up);
  }

  function StatusOf(st: Status): PathStatus {
    match st
    case Ok => Done
    case ENotFound => NotFound
    case ENoDisk => NoDisk
    case EInval => Invalid
  }

  // The records other than f are as before, up to pointers, directory sizes and new unused records.
  ghost predicate OthersKept(d: Disk, d': Disk, f: Loc) {
    forall l :: l == f || GrewAt(d, d', l)
  }

  // After a successful file_create.
  ghost predicate FileAdded(d: Disk, o: map<nat, Slot>, d': Disk, o': map<nat, Slot>, p: seq<string>, f: Loc,
                            isDir: bool)
  {
    && OwnersKept(o, o') && OthersKept(d, d', f)
    && p != [] && f in d'.files && d'.files[f] == EmptyFile(p[|p| - 1], isDir)
    && PathAdded(d, o, d', o', p, f)
  }

  lemma GrewThenNamed(d: Disk, o: map<nat, Slot>, d1: Disk, o1: map<nat, Slot>, d': Disk, p: seq<string>, f: Loc,
                      isDir: bool)
    requires Grew(d, d1, o, o1) && RecordsOk(d, o) && Proper(p) && p != []
    requires PathAdded(d1, o1, d', o1, p, f) && d' == PutRecord(d1, f, EmptyFile(p[|p| - 1], isDir))
    ensures FileAdded(d, o, d', o1, p, f, isDir)
  {
    GrewPaths(d, o, d1, o1);
    SameThenAdded(d, o, d1, o1, d', o1, p, f);
    forall l ensures l == f || GrewAt(d, d', l) { assert GrewAt(d, d1, l); }
  }

  // The path to the new record is clear if the path to its directory was.
  lemma NewPathClear(d: Disk, o: map<nat, Slot>, d': Disk, dir: Loc, name: string, f: Loc, up: seq<string>)
    requires Owned(d, o) && Owned(d', o) && OneMore(d, o, d', o, dir, name, f) && Spare(d, o, dir, f) && Proper(up)
    requires DirAt(d, dir) && Resolve(d, o, Root, up) == Some(dir) && FilledUpTo(d, o, dir, f) && |name| < MAXNAMELEN
    requires Clear(d, o, Root, up)
    ensures Clear(d', o, Root, up + [name])
  {
    ClearOneMore(d, o, d', o, dir, name, f, Root, up);
    OneMoreResolve(d, o, d', o, dir, name, f, up, up);
    ChildOfAfter(d, o, d', o, dir, name, f, dir, name);
    forall k: nat | k <= BlockNo(o, f) ensures FilledAt(d', dir, k) {
      assert FilledAt(d, dir, k);
      StillNamed(d, o, d', o, dir, k);
    }
    ClearSnoc(d', o, Root, up, name, dir);
  }

  // A new file called name in dir, which path up leads to.
  method AddFile(fs: FileSystem, dir: Loc, name: string, isDir: bool, ghost up: seq<string>)
    returns (st: Status, file: Loc)
    requires fs.Valid({}) && AllWhole(fs.D()) && DirAt(fs.D(), dir) && Live(fs.D(), dir)
    requires name != "" && |name| < MAXNAMELEN && Proper(up) && Resolve(fs.D(), fs.owner, Root, up) == Some(dir)
    requires ChildOf(fs.D(), fs.owner, dir, name) == None && Clear(fs.D(), fs.owner, Root, up)
    modifies fs`words, fs`files, fs`table, fs`data, fs`owner
    ensures fs.Valid({}) && AllWhole(fs.D()) && SameBytes(old(fs.C()), fs.C()) && st != ENotFound
    ensures StaysUnique(old(fs.D()), old(fs.owner), fs.D(), fs.owner)
    ensures st == Ok <==> HasRoom(old(fs.D()), dir, |old(fs.Free())|)
    ensures st == Ok ==> FileAdded(old(fs.D()), old(fs.owner), fs.D(), fs.owner, up + [name], file, isDir)
    ensures st == Ok ==> Clear(fs.D(), fs.owner, Root, up + [name])
    ensures st != Ok ==> Grew(old(fs.D()), fs.D(), old(fs.owner), fs.owner)
  {
    ghost var d, o := fs.D(), fs.owner;
    st, file := DirAllocFile(fs, dir);
    ghost var d1, o1 := fs.D(), fs.owner;
    GrewPaths(d, o, d1, o1);
    if st != Ok { return; }
    GrewNames(d, d1, o, o1);
    ClearKept(d, o, d1, o1, Root, up);
    SameResolve(d, o, d1, o1, Root, up);
    SameLookup(d, o, d1, o1, dir, name);
    assert GrewAt(d, d1, dir);
    NameRecord(fs, dir, file, name, isDir, up);
    NewPathClear(d1, o1, fs.D(), dir, name, file, up);
    GrewThenNamed(d, o, d1, o1, fs.D(), up + [name], file, isDir);
  }

  lemma GrewThenAdded(d: Disk, o: map<nat, Slot>, d1: Disk, o1: map<nat, Slot>, d': Disk, o': map<nat, Slot>,
                      p: seq<string>, f: Loc, isDir: bool)
    requires Grew(d, d1, o, o1) && RecordsOk(d, o) && Proper(p)
    requires FileAdded(d1, o1, d', o', p, f, isDir)
    ensures FileAdded(d, o, d', o', p, f, isDir)
  {
    GrewPaths(d, o, d1, o1);
    SameThenAdded(d, o, d1, o1, d', o', p, f);
    forall l ensures l == f || GrewAt(d, d', l) { assert GrewAt(d, d1, l) && (l == f || GrewAt(d1, d', l)); }
  }

  // An absolute path whose names are short enough.
  ghost predicate Usable(path: string) {
    && path != "" && path[0] == '/'
    && forall i :: 0 <= i < |Components(path)| ==> |Components(path)[i]| < MAXNAMELEN
  }

  // What file_create makes of the file system, whatever its result.
  ghost predicate Tried(c: Contents, o: map<nat, Slot>, c': Contents, o': map<nat, Slot>, p: seq<string>,
                        st: PathStatus, f: Loc, isDir: bool)
  {
    && AllWhole(c'.disk) && SameBytes(c, c') && StaysUnique(c.disk, o, c'.disk, o')
    && (st == Done ==> FileAdded(c.disk, o, c'.disk, o', p, f, isDir) && Clear(c'.disk, o', Root, p))
    && (st != Done ==> Grew(c.disk, c'.disk, o, o') && SamePaths(c.disk, o, c'.disk, o'))
  }

  // The second half of file_create: a new file, once the walk from (c, o) has found where it belongs.
  method CreateIn(fs: FileSystem, dir: Loc, name: string, isDir: bool, ghost up: seq<string>,
                  ghost c: Contents, ghost o: map<nat, Slot>) returns (st: PathStatus, file: Loc)
    requires fs.Valid({}) && Explored(c, fs.C(), o, fs.owner) && Owned(c.disk, o) && RecordsOk(c.disk, o)
    requires name != "" && |name| < MAXNAMELEN && Proper(up) && Clear(fs.D(), fs.owner, Root, up)
    requires Resolve(c.disk, o, Root, up) == Some(dir) && DirAt(c.disk, dir) && ChildOf(c.disk, o, dir, name) == None
    modifies fs`words, fs`files, fs`table, fs`data, fs`owner
    ensures fs.Valid({}) && st != Exists && st != NotFound && st != BadPath
    ensures dir in old(fs.files) && (st == Done <==> HasRoom(old(fs.D()), dir, |old(fs.Free())|))
    ensures Tried(c, o, fs.C(), fs.owner, up + [name], st, file, isDir)
  {
    ghost var c1, o1 := fs.C(), fs.owner;
    PlaceForNew(c.disk, o, c1.disk, o1, up, dir, name);
    var s;
    s, file := AddFile(fs, dir, name, isDir, up);
    st := StatusOf(s);
    if s == Ok {
      GrewThenAdded(c.disk, o, c1.disk, o1, fs.D(), fs.owner, up + [name], file, isDir);
    } else {
      GrewTrans(c.disk, c1.disk, fs.D(), o, o1, fs.owner);
      GrewPaths(c.disk, o, fs.D(), fs.owner);
    }
  }

  // What the end of a walk tells about the path.
  lemma WalkTells(c: Contents, o: map<nat, Slot>, c': Contents, o': map<nat, Slot>, path: string, r: WalkResult)
    requires path != "" && path[0] == '/' && WalkEnds(c, o, c', o', Components(path), r)
    ensures var to := Resolve(c.disk, o, Root, Components(path));
            && (r.st == Done ==> to.Some? && r.file == to)
            && (r.st == NotFound ==> to == None)
            && (DirsFull(c.disk) && Usable(path) ==> r.st == Done || r.st == NotFound)
            && r.st != Exists
    ensures r.st == NotFound && r.dir.Some? ==>
              var parts := Components(path);
              && parts != [] && r.last == parts[|parts| - 1] && DirAt(c.disk, r.dir.loc)
              && Resolve(c.disk, o, Root, parts[..|parts| - 1]) == r.dir && ChildOf(c.disk, o, r.dir.loc, r.last) == None
    ensures r.st == NotFound && r.dir.None? ==>
              var parts := Components(path);
              && parts != []
              && var up := Resolve(c.disk, o, Root, parts[..|parts| - 1]); up.None? || !DirAt(c.disk, up.loc)
  {
    WalkResolves(c.disk, o, None, Root, Components(path));
  }

  // The path names no file yet, but the directory that it belongs in, which has room for it.
  ghost predicate CanCreate(d: Disk, o: map<nat, Slot>, free: nat, path: string) {
    var parts := Components(path);
    && parts != []
    && var up := Resolve(d, o, Root, parts[..|parts| - 1]);
       && up.Some? && DirAt(d, up.loc) && ChildOf(d, o, up.loc, parts[|parts| - 1]) == None
       && HasRoom(d, up.loc, free)
  }

  lemma CanCreateNew(d: Disk, o: map<nat, Slot>, free: nat, path: string)
    requires Resolve(d, o, Root, Components(path)).Some?
    ensures !CanCreate(d, o, free, path)
  {
    var parts := Components(path);
    if parts != [] {
      var up, last := parts[..|parts| - 1], parts[|parts| - 1];
      assert parts == up + [last];
      if Resolve(d, o, Root, up).Some? { ResolveSnoc(d, o, Root, up, last); }
    }
  }

  // file_create
  method FileCreate(fs: FileSystem, path: string, isDir: bool) returns (st: PathStatus, file: Loc)
    requires fs.Valid({}) && AllWhole(fs.D())
    modifies fs`words, fs`files, fs`table, fs`data, fs`owner
    ensures fs.Valid({}) && Tried(old(fs.C()), old(fs.owner), fs.C(), fs.owner, Components(path), st, file, isDir)
    ensures st == Done ==> path != "" && path[0] == '/'
    ensures st == Exists ==> Resolve(old(fs.D()), old(fs.owner), Root, Components(path)).Some?
    ensures st == NotFound ==> Resolve(old(fs.D()), old(fs.owner), Root, Components(path)) == None
    ensures DirsFull(old(fs.D())) && Usable(path) ==>
              (st == Exists <==> Resolve(old(fs.D()), old(fs.owner), Root, Components(path)).Some?)
    ensures DirsFull(old(fs.D())) && Usable(path) ==>
              (st == Done <==> CanCreate(old(fs.D()), old(fs.owner), |old(fs.Free())|, path))
  {
    ghost var c, o, parts := fs.C(), fs.owner, Components(path);
    file := Root;
    var r := WalkPath(fs, path);
    GrewPaths(c.disk, o, fs.D(), fs.owner);
    if path == "" || path[0] != '/' { return BadPath, Root; }
    WalkTells(c, o, fs.C(), fs.owner, path, r);
    if r.st == Done {
      CanCreateNew(c.disk, o, |old(fs.Free())|, path);
      return Exists, Root;
    }
    if r.st != NotFound || r.dir == None { return r.st, Root; }
    ghost var up := parts[..|parts| - 1];
    assert parts == up + [r.last];
    st, file := CreateIn(fs, r.dir.loc, r.last, isDir, up, c, o);
  }

  // The directory that the walk found for the new name is still there, without that name.
  lemma PlaceForNew(d: Disk, o: map<nat, Slot>, d1: Disk, o1: map<nat, Slot>, up: seq<string>, dir: Loc, name: string)
    requires Owned(d, o) && RecordsOk(d, o) && Owned(d1, o1) && RecordsOk(d1, o1) && Grew(d, d1, o, o1)
    requires Proper(up) && name != "" && Resolve(d, o, Root, up) == Some(dir) && DirAt(d, dir)
    requires ChildOf(d, o, dir, name) == None
    ensures Resolve(d1, o1, Root, up) == Some(dir) && DirAt(d1, dir) && Live(d1, dir)
    ensures ChildOf(d1, o1, dir, name) == None
  {
    assert GrewAt(d, d1, dir);
    GrewNames(d, d1, o, o1);
    SameResolve(d, o, d1, o1, Root, up);
    SameLookup(d, o, d1, o1, dir, name);
    ReachedLive(d1, o1, up);
  }

  // What a proper path leads to is in use.
  lemma ReachedLive(d: Disk, o: map<nat, Slot>, p: seq<string>)
    requires RecordsOk(d, o) && Resolve(d, o, Root, p).Some? && Proper(p)
    ensures Live(d, Resolve(d, o, Root, p).loc)
  {
    if p != [] { LastStep(d, o, p); }
  }

  // file_open
  method FileOpen(fs: FileSystem, path: string) returns (st: PathStatus, file: Opt)
    requires fs.Valid({}) && AllWhole(fs.D())
    modifies fs`words, fs`files, fs`table, fs`data, fs`owner
    ensures fs.Valid({}) && Explored(old(fs.C()), fs.C(), old(fs.owner), fs.owner)
    ensures st == Done ==> file.Some? && Resolve(old(fs.D()), old(fs.owner), Root, Components(path)) == file
    ensures st == NotFound ==> Resolve(old(fs.D()), old(fs.owner), Root, Components(path)) == None
    ensures DirsFull(old(fs.D())) && Usable(path) ==> st == Done || st == NotFound
    ensures path != "" && path[0] == '/' && Clear(old(fs.D()), old(fs.owner), Root, Components(path)) ==> st == Done
  {
    ghost var c, o := fs.C(), fs.owner;
    var r := WalkPath(fs, path);
    if path != "" && path[0] == '/' { WalkTells(c, o, fs.C(), fs.owner, path, r); }
    st, file := r.st, r.file;
  }

  // ----- Removing a file -----

  // What file_remove did to a record f that had no records in use of its own.
  ghost predicate Gone(c: Contents, o: map<nat, Slot>, c': Contents, o': map<nat, Slot>, f: Loc) {
    && Good(c, o) && Good(c', o') && Live(c.disk, f) && f.Rec? && Emptyable(c.disk, f, 0) && Removed(c, c', f)
    && exists slots :: OnlyDisowned(o, o', slots)
  }

  ghost predicate OnlyDisowned(o: map<nat, Slot>, o': map<nat, Slot>, slots: set<Slot>) {
    forall b: nat :: DisownedAt(o, o', slots, b)
  }

  lemma GoneChild(c: Contents, o: map<nat, Slot>, c': Contents, o': map<nat, Slot>, f: Loc, dir2: Loc, n: string, l: Loc)
    requires Gone(c, o, c', o', f) && n != "" && l != f
    ensures SameChild(c.disk, o, c'.disk, o', dir2, n, l)
  {
    var slots :| OnlyDisowned(o, o', slots);
    if l.Rec? {
      assert OtherAfter(c.disk, c'.disk, f, l) && GoneAt(c.disk, c'.disk, l) && DisownedAt(o, o', slots, l.block);
      assert RecordAt(c'.disk, o', l.block, l.index);
    }
  }

  lemma OwnRecordsUnused(c: Contents, o: map<nat, Slot>, f: Loc, n: string, l: Loc)
    requires Good(c, o) && Emptyable(c.disk, f, 0) && IsChild(c.disk, o, f, n, l)
    ensures n == ""
  {
    ChildSlot(c.disk, o, f, n, l);
    assert EmptyableAt(c.disk, f, 0, BlockNo(o, l));
    assert l == Rec(l.block, l.index);
  }

  lemma GoneUnique(c: Contents, o: map<nat, Slot>, c': Contents, o': map<nat, Slot>, f: Loc)
    requires Gone(c, o, c', o', f) && UniqueNames(c.disk, o)
    ensures UniqueNames(c'.disk, o')
  {
    var d, d' := c.disk, c'.disk;
    forall a, b ensures DistinctAt(d', o', a, b) {
      assert DistinctAt(d, o, a, b);
      if b in d'.files && b.Rec? && b.block in o' && d'.files[b].name != "" && a != f && b != f {
        GoneChild(c, o, c', o', f, o'[b.block].loc, d'.files[b].name, a);
        GoneChild(c, o, c', o', f, o'[b.block].loc, d'.files[b].name, b);
      }
    }
  }

  // No record of dir but f is called name.
  ghost predicate NoTwin(d: Disk, o: map<nat, Slot>, dir: Loc, name: string, f: Loc) {
    forall l :: l != f ==> !IsChild(d, o, dir, name, l)
  }

  lemma GoneOneMore(c: Contents, o: map<nat, Slot>, c': Contents, o': map<nat, Slot>, f: Loc, dir: Loc, name: string)
    requires Gone(c, o, c', o', f) && NoTwin(c.disk, o, dir, name, f) && IsChild(c.disk, o, dir, name, f) && name != ""
    ensures OneMore(c'.disk, o', c.disk, o, dir, name, f)
  {
    var d, d' := c.disk, c'.disk;
    forall dir2, n, l ensures ChildAfter(d', o', d, o, dir, name, f, dir2, n, l) {
      if n != "" && l != f { GoneChild(c, o, c', o', f, dir2, n, l); }
    }
    forall l | l != f ensures DirAt(d, l) <==> DirAt(d', l) {
      assert OtherAfter(d, d', f, l) && GoneAt(d, d', l);
    }
    forall n, l | n != "" ensures !IsChild(d, o, f, n, l) {
      if IsChild(d, o, f, n, l) { OwnRecordsUnused(c, o, f, n, l); }
    }
    forall l ensures !IsChild(d', o', dir, name, l) {
      assert ChildAfter(d', o', d, o, dir, name, f, dir, name, l);
    }
  }

  lemma GoneTree(c: Contents, o: map<nat, Slot>, c': Contents, o': map<nat, Slot>, f: Loc)
    requires Gone(c, o, c', o', f) && AllWhole(c.disk)
    ensures AllWhole(c'.disk) && StaysUnique(c.disk, o, c'.disk, o')
  {
    if UniqueNames(c.disk, o) { GoneUnique(c, o, c', o', f); }
    forall l ensures WholeAt(c'.disk, l) { assert WholeAt(c.disk, l) && OtherAfter(c.disk, c'.disk, f, l); }
  }

  lemma GonePath(c: Contents, o: map<nat, Slot>, c': Contents, o': map<nat, Slot>, f: Loc, p: seq<string>, dir: Loc)
    requires Gone(c, o, c', o', f) && Proper(p) && p != [] && Resolve(c.disk, o, Root, p) == Some(f)
    requires Resolve(c.disk, o, Root, p[..|p| - 1]) == Some(dir) && NoTwin(c.disk, o, dir, p[|p| - 1], f)
    ensures PathAdded(c'.disk, o', c.disk, o, p, f)
  {
    var k := |p| - 1;
    LastStep(c.disk, o, p);
    GoneOneMore(c, o, c', o', f, dir, p[k]);
    OnTheWay(c'.disk, o', c.disk, o, dir, p[k], f, p, k);
    ResolveSnoc(c.disk, o, Root, p[..k], p[k]);
    assert p == p[..k] + [p[k]];
    OneMorePath(c'.disk, o', c.disk, o, dir, p[k], f, p[..k]);
  }

  // Paths that do not lead through the removed record lead where they did, even if another record has its name.
  lemma {:induction false} GoneBeside(c: Contents, o: map<nat, Slot>, c': Contents, o': map<nat, Slot>, f: Loc,
                                      p: seq<string>, q: seq<string>)
    requires Gone(c, o, c', o', f) && p != [] && Resolve(c.disk, o, Root, p) == Some(f) && Proper(q) && !(p <= q)
    ensures Resolve(c'.disk, o', Root, q) == Resolve(c.disk, o, Root, q)
    decreases |q|
  {
    if q != [] {
      var d, d', q0, n := c.disk, c'.disk, q[..|q| - 1], q[|q| - 1];
      assert q == q0 + [n] && !(p <= q0);
      GoneBeside(c, o, c', o', f, p, q0);
      ResolveSnoc(d, o, Root, q0, n);
      ResolveSnoc(d', o', Root, q0, n);
      if Resolve(d, o, Root, q0).Some? {
        var m := Resolve(d, o, Root, q0).loc;
        if m == f { ResolveInjective(d, o, q0, p); }
        assert OtherAfter(d, d', f, m) && GoneAt(d, d', m);
        NotThrough(d, o, p, f, q0, n, m);
        forall l ensures SameChild(d, o, d', o', m, n, l) {
          if l != f { GoneChild(c, o, c', o', f, m, n, l); }
        }
        SameChildOf(d, o, d', o', m, n);
      }
    }
  }

  // If q0 + [n] is not the path of f, then f is not called n in the directory of q0.
  lemma NotThrough(d: Disk, o: map<nat, Slot>, p: seq<string>, f: Loc, q0: seq<string>, n: string, m: Loc)
    requires p != [] && Resolve(d, o, Root, p) == Some(f) && Resolve(d, o, Root, q0) == Some(m) && !(p <= q0 + [n])
    ensures !IsChild(d, o, m, n, f)
  {
    LastStep(d, o, p);
    assert p == p[..|p| - 1] + [p[|p| - 1]];
    if IsChild(d, o, m, n, f) { ResolveInjective(d, o, q0, p[..|p| - 1]); }
  }

  lemma RemovedIsGone(c: Contents, o: map<nat, Slot>, c': Contents, o': map<nat, Slot>, f: Loc, slots: set<Slot>,
                      free: set<nat>, free': set<nat>)
    requires Good(c, o) && Good(c', o') && Live(c.disk, f) && f.Rec? && Emptyable(c.disk, f, 0) && Removed(c, c', f)
    requires Clears(c.disk, c'.disk, o, o', free, free', slots)
    ensures Gone(c, o, c', o', f)
  {
    assert OnlyDisowned(o, o', slots);
  }

  // file_remove of what path p leads to: paths beside p lead where they did. If no other record of the directory has the
  // name, p leads nowhere and every other path leads where it did.
  method RemoveAt(fs: FileSystem, f: Loc, ghost p: seq<string>, ghost dir: Loc)
    requires fs.Valid({}) && AllWhole(fs.D()) && Proper(p) && p != []
    requires Resolve(fs.D(), fs.owner, Root, p) == Some(f) && Emptyable(fs.D(), f, 0)
    requires Resolve(fs.D(), fs.owner, Root, p[..|p| - 1]) == Some(dir)
    modifies fs`words, fs`files, fs`table, fs`owner
    ensures fs.Valid({}) && AllWhole(fs.D()) && Removed(old(fs.C()), fs.C(), f)
    ensures StaysUnique(old(fs.D()), old(fs.owner), fs.D(), fs.owner)
    ensures forall q :: p <= q || PathAfter(old(fs.D()), old(fs.owner), fs.D(), fs.owner, q)
    ensures NoTwin(old(fs.D()), old(fs.owner), dir, p[|p| - 1], f) ==>
              PathAdded(fs.D(), fs.owner, old(fs.D()), old(fs.owner), p, f)
  {
    ghost var c, o, free := fs.C(), fs.owner, fs.Free();
    ReachedLive(c.disk, o, p);
    LastStep(c.disk, o, p);
    fs.FileRemove(f);
    RemovedIsGone(c, o, fs.C(), fs.owner, f, Surplus(f, 0, BlocksFor(c.disk.files[f].size)), free, fs.Free());
    GoneTree(c, o, fs.C(), fs.owner, f);
    forall q ensures p <= q || PathAfter(c.disk, o, fs.D(), fs.owner, q) {
      if Proper(q) && !(p <= q) { GoneBeside(c, o, fs.C(), fs.owner, f, p, q); }
    }
    if NoTwin(c.disk, o, dir, p[|p| - 1], f) { GonePath(c, o, fs.C(), fs.owner, f, p, dir); }
  }

  // ----- Renaming -----

  // The record at src, of a file or a directory, moves to the unused record dst of directory dir.
  ghost predicate Movable(d: Disk, o: map<nat, Slot>, src: Loc, dst: Loc, dir: Loc) {
    && Owned(d, o) && RecordsOk(d, o) && Live(d, src) && src.Rec? && Spare(d, o, dir, dst) && DirAt(d, dir)
  }

  // The directory that is dir2 after the move. Nothing belongs to src any more.
  ghost function Before(dir2: Loc, src: Loc, dst: Loc): Loc {
    if dir2 == dst then src else dir2
  }

  // An unused record owns no block.
  lemma UnusedOwnsNothing(d: Disk, o: map<nat, Slot>, l: Loc, b: nat)
    requires Owned(d, o) && l in d.files && d.files[l] == ZERO_FILE && b in o
    ensures o[b].loc != l
  {
    assert OwnsAt(d, o, b);
  }

  // After the move, the named records are those of before, with dst in place of src. What lay in src lies in dst.
  lemma MovedChild(d: Disk, o: map<nat, Slot>, src: Loc, dst: Loc, dir: Loc, dir2: Loc, n: string, l: Loc)
    requires Movable(d, o, src, dst, dir) && n != ""
    ensures IsChild(MoveRecord(d, src, dst), MoveOwner(o, src, dst), dir2, n, l) <==>
            if l == dst then dir2 == Moved(dir, src, dst) && n == d.files[src].name
            else l != src && dir2 != src && IsChild(d, o, Before(dir2, src, dst), n, l)
    ensures BlockNo(MoveOwner(o, src, dst), l) == BlockNo(o, l)
  {
    if l.Rec? {
      assert RecordAt(d, o, l.block, l.index);
      if l.block in o { UnusedOwnsNothing(d, o, dst, l.block); }
    }
  }

  // Renaming keeps the names of dir unique exactly when no other record of dir has the name already.
  lemma MovedUnique(d: Disk, o: map<nat, Slot>, src: Loc, dst: Loc, dir: Loc)
    requires Movable(d, o, src, dst, dir) && UniqueNames(d, o)
    ensures UniqueNames(MoveRecord(d, src, dst), MoveOwner(o, src, dst)) <==> NoTwin(d, o, dir, d.files[src].name, src)
  {
    var d', o', name := MoveRecord(d, src, dst), MoveOwner(o, src, dst), d.files[src].name;
    if UniqueNames(d', o') {
      forall l | l != src ensures !IsChild(d, o, dir, name, l) {
        MovedChild(d, o, src, dst, dir, Moved(dir, src, dst), name, l);
        MovedChild(d, o, src, dst, dir, Moved(dir, src, dst), name, dst);
        assert DistinctAt(d', o', l, dst);
      }
    }
    if NoTwin(d, o, dir, name, src) {
      forall a, b ensures DistinctAt(d', o', a, b) {
        if b in d'.files && b.Rec? && b.block in o' && d'.files[b].name != "" {
          var dir2, n := o'[b.block].loc, d'.files[b].name;
          MovedChild(d, o, src, dst, dir, dir2, n, a);
          MovedChild(d, o, src, dst, dir, dir2, n, b);
          assert DistinctAt(d, o, a, b);
        }
      }
    }
  }

  ghost predicate BytesMoved(c: Contents, c': Contents, src: Loc, dst: Loc) {
    forall l, p: nat :: MovedAt(c, c', src, dst, l, p)
  }

  ghost predicate MovedAt(c: Contents, c': Contents, src: Loc, dst: Loc, l: Loc, p: nat) {
    ByteAt(c', l, p) == if l == src then 0 else if l == dst then ByteAt(c, src, p) else ByteAt(c, l, p)
  }

  // memcpy and memset of file_rename.
  method PutMoved(fs: FileSystem, src: Loc, dst: Loc, ghost dir: Loc)
    requires fs.Valid({}) && Live(fs.D(), src) && src.Rec? && Spare(fs.D(), fs.owner, dir, dst)
    modifies fs`files, fs`owner
    ensures fs.Valid({}) && BytesMoved(old(fs.C()), fs.C(), src, dst)
    ensures fs.D() == MoveRecord(old(fs.D()), src, dst) && fs.owner == MoveOwner(old(fs.owner), src, dst)
  {
    ghost var c, o := fs.C(), fs.owner;
    MoveRecordGood(c, o, src, dst);
    fs.files := fs.files[dst := fs.files[src]][src := ZERO_FILE];
    fs.owner := MoveOwner(o, src, dst);
    assert fs.C() == c.(disk := MoveRecord(c.disk, src, dst)) && fs.owner.Keys == o.Keys;
    forall l, p: nat ensures MovedAt(c, fs.C(), src, dst, l, p) { MovedByte(c, src, dst, l, p); }
  }

  lemma MovedWhole(d: Disk, src: Loc, dst: Loc)
    requires AllWhole(d) && src in d.files
    ensures AllWhole(MoveRecord(d, src, dst))
  {
    assert WholeAt(d, src);
    forall l ensures WholeAt(MoveRecord(d, src, dst), l) { assert WholeAt(d, l); }
  }

  // What a successful rename did, through a state (d1, o1) in which unused records may have come.
  ghost predicate MovedFrom(d: Disk, o: map<nat, Slot>, d': Disk, o': map<nat, Slot>, dir: Loc, src: Loc, dst: Loc) {
    && src in d.files && dst in d'.files && src in d'.files && d'.files[src] == ZERO_FILE
    && d'.files[dst].name == d.files[src].name && d'.files[dst].isDir == d.files[src].isDir
    && (!d.files[src].isDir ==> d'.files[dst].size == d.files[src].size)
    && IsChild(d', o', Moved(dir, src, dst), d.files[src].name, dst)
    && exists d1, o1 :: RenamedVia(d, o, d1, o1, d', o', dir, src, dst)
  }

  ghost predicate RenamedVia(d: Disk, o: map<nat, Slot>, d1: Disk, o1: map<nat, Slot>, d': Disk, o': map<nat, Slot>,
                             dir: Loc, src: Loc, dst: Loc)
  {
    && Grew(d, d1, o, o1) && Movable(d1, o1, src, dst, dir)
    && d' == MoveRecord(d1, src, dst) && o' == MoveOwner(o1, src, dst)
  }

  lemma RenameNames(d: Disk, o: map<nat, Slot>, d1: Disk, o1: map<nat, Slot>, src: Loc, dst: Loc, dir: Loc)
    requires RecordsOk(d, o) && Grew(d, d1, o, o1) && Live(d, src) && Movable(d1, o1, src, dst, dir)
    ensures var d', o' := MoveRecord(d1, src, dst), MoveOwner(o1, src, dst);
            && MovedFrom(d, o, d', o', dir, src, dst)
            && (UniqueNames(d, o) ==> (UniqueNames(d', o') <==> NoTwin(d, o, dir, d.files[src].name, src)))
  {
    var d', o', name := MoveRecord(d1, src, dst), MoveOwner(o1, src, dst), d.files[src].name;
    assert GrewAt(d, d1, src);
    MovedChild(d1, o1, src, dst, dir, Moved(dir, src, dst), name, dst);
    assert RenamedVia(d, o, d1, o1, d', o', dir, src, dst);
    TwinKept(d, o, d1, o1, dir, name, src);
    GrewNames(d, d1, o, o1);
    SameUnique(d, o, d1, o1);
    if UniqueNames(d, o) { MovedUnique(d1, o1, src, dst, dir); }
  }

  lemma TwinKept(d: Disk, o: map<nat, Slot>, d1: Disk, o1: map<nat, Slot>, dir: Loc, name: string, src: Loc)
    requires RecordsOk(d, o) && Grew(d, d1, o, o1) && name != ""
    ensures NoTwin(d1, o1, dir, name, src) <==> NoTwin(d, o, dir, name, src)
  {
    forall l ensures IsChild(d1, o1, dir, name, l) <==> IsChild(d, o, dir, name, l) {
      GrewChild(d, d1, o, o1, dir, name, l);
    }
  }

  // file_rename, of a file or a directory, also into itself.
  method FileRename(fs: FileSystem, dir: Loc, src: Loc) returns (st: Status, dst: Loc)
    requires fs.Valid({}) && AllWhole(fs.D()) && Live(fs.D(), dir) && Live(fs.D(), src) && src.Rec?
    modifies fs`words, fs`files, fs`table, fs`data, fs`owner
    ensures fs.Valid({}) && AllWhole(fs.D()) && st != ENotFound
    ensures !old(fs.files)[dir].isDir ==> st == EInval
    ensures st == Ok <==> DirAt(old(fs.D()), dir) && HasRoom(old(fs.D()), dir, |old(fs.Free())|)
    ensures st != Ok ==>
              && Grew(old(fs.D()), fs.D(), old(fs.owner), fs.owner) && SameBytes(old(fs.C()), fs.C())
              && SamePaths(old(fs.D()), old(fs.owner), fs.D(), fs.owner)
              && StaysUnique(old(fs.D()), old(fs.owner), fs.D(), fs.owner)
    ensures st == Ok ==> BytesMoved(old(fs.C()), fs.C(), src, dst)
    ensures st == Ok ==> MovedFrom(old(fs.D()), old(fs.owner), fs.D(), fs.owner, dir, src, dst)
    ensures st == Ok && UniqueNames(old(fs.D()), old(fs.owner)) ==>
              (UniqueNames(fs.D(), fs.owner) <==>
               NoTwin(old(fs.D()), old(fs.owner), dir, old(fs.files)[src].name, src))
  {
    ghost var c, o, name := fs.C(), fs.owner, fs.files[src].name;
    dst := Root;
    if !fs.files[dir].isDir {
      ExploredStart(c, o);
      GrewPaths(c.disk, o, c.disk, o);
      return EInval, Root;
    }
    st, dst := DirAllocFile(fs, dir);
    ghost var c1, o1 := fs.C(), fs.owner;
    GrewPaths(c.disk, o, c1.disk, o1);
    if st != Ok { return; }
    assert GrewAt(c.disk, c1.disk, src) && GrewAt(c.disk, c1.disk, dir);
    PutMoved(fs, src, dst, dir);
    MovedWhole(c1.disk, src, dst);
    RenameNames(c.disk, o, c1.disk, o1, src, dst, dir);
    forall l, p: nat ensures MovedAt(c, fs.C(), src, dst, l, p) {
      assert MovedAt(c1, fs.C(), src, dst, l, p);
    }
  }

  // ----- The paths of a rename -----

  // src is the one record called name in srcDir, and dir has no other of that name.
  ghost predicate MoveOk(d: Disk, o: map<nat, Slot>, src: Loc, dst: Loc, dir: Loc, srcDir: Loc) {
    && Movable(d, o, src, dst, dir) && srcDir != src
    && IsChild(d, o, srcDir, d.files[src].name, src)
    && NoTwin(d, o, srcDir, d.files[src].name, src) && NoTwin(d, o, dir, d.files[src].name, src)
  }

  // Directories keep their other children.
  lemma MovedElsewhere(d: Disk, o: map<nat, Slot>, src: Loc, dst: Loc, dir: Loc, srcDir: Loc, m: Loc, n: string)
    requires MoveOk(d, o, src, dst, dir, srcDir) && n != "" && m != src && m != dst
    requires n == d.files[src].name ==> m != srcDir && m != dir
    ensures ChildOf(MoveRecord(d, src, dst), MoveOwner(o, src, dst), m, n) == ChildOf(d, o, m, n)
  {
    forall l ensures SameChild(d, o, MoveRecord(d, src, dst), MoveOwner(o, src, dst), m, n, l) {
      MovedChild(d, o, src, dst, dir, m, n, l);
    }
    SameChildOf(d, o, MoveRecord(d, src, dst), MoveOwner(o, src, dst), m, n);
  }

  // What src had, dst has.
  lemma MovedInside(d: Disk, o: map<nat, Slot>, src: Loc, dst: Loc, dir: Loc, srcDir: Loc, n: string)
    requires MoveOk(d, o, src, dst, dir, srcDir) && n != "" && dir != src
    ensures ChildOf(MoveRecord(d, src, dst), MoveOwner(o, src, dst), dst, n) == ChildOf(d, o, src, n)
  {
    var d', o' := MoveRecord(d, src, dst), MoveOwner(o, src, dst);
    forall l ensures IsFirst(d', o', dst, n, l) <==> IsFirst(d, o, src, n, l) {
      MovedChild(d, o, src, dst, dir, dst, n, l);
      forall m ensures NotEarlier(d', o', dst, n, l, m) <==> NotEarlier(d, o, src, n, l, m) {
        MovedChild(d, o, src, dst, dir, dst, n, m);
      }
    }
    var c := ChildOf(d, o, src, n);
    if c.Some? { ChildIs(d', o', dst, n, c.loc); }
  }

  // dst is found in dir, and src is not found any more.
  lemma MovedHere(d: Disk, o: map<nat, Slot>, src: Loc, dst: Loc, dir: Loc, srcDir: Loc)
    requires MoveOk(d, o, src, dst, dir, srcDir)
    ensures var d', o', name := MoveRecord(d, src, dst), MoveOwner(o, src, dst), d.files[src].name;
            && (dir != src ==> ChildOf(d', o', dir, name) == Some(dst))
            && (dir != srcDir ==> ChildOf(d', o', srcDir, name) == None)
  {
    var d', o', name := MoveRecord(d, src, dst), MoveOwner(o, src, dst), d.files[src].name;
    forall l ensures dir != src ==> (IsChild(d', o', dir, name, l) <==> l == dst) {
      MovedChild(d, o, src, dst, dir, dir, name, l);
    }
    if dir != src {
      forall m ensures NotEarlier(d', o', dir, name, dst, m) {}
      ChildIs(d', o', dir, name, dst);
    }
    UnusedOwnsNothing(d, o, dst, src.block);
    forall l ensures dir != srcDir ==> !IsChild(d', o', srcDir, name, l) {
      MovedChild(d, o, src, dst, dir, srcDir, name, l);
      assert l != src ==> !IsChild(d, o, srcDir, name, l);
    }
  }

  ghost function MovedOpt(l: Opt, src: Loc, dst: Loc): Opt {
    if l.None? then None else Some(Moved(l.loc, src, dst))
  }

  // Where path q leads after what p led to has moved into the directory of path up: paths through the new place lead
  // where those through the old one did, and those through the old one lead nowhere. If up leads through p, everything
  // below p is lost.
  ghost function AfterMove(d: Disk, o: map<nat, Slot>, p: seq<string>, up: seq<string>, name: string, src: Loc, dst: Loc,
                           q: seq<string>): Opt
  {
    if !(p <= up) && up + [name] <= q then MovedOpt(Resolve(d, o, Root, p + q[|up| + 1..]), src, dst)
    else if p <= q then None
    else Resolve(d, o, Root, q)
  }

  ghost predicate MovePaths(d: Disk, o: map<nat, Slot>, src: Loc, dst: Loc, dir: Loc, srcDir: Loc, p: seq<string>,
                            up: seq<string>)
  {
    && MoveOk(d, o, src, dst, dir, srcDir) && Proper(p) && p != [] && Proper(up)
    && p[|p| - 1] == d.files[src].name && Resolve(d, o, Root, p) == Some(src)
    && Resolve(d, o, Root, p[..|p| - 1]) == Some(srcDir) && Resolve(d, o, Root, up) == Some(dir)
  }

  // No path leads to an unused record.
  lemma UnusedNotReached(d: Disk, o: map<nat, Slot>, l: Loc, q: seq<string>)
    requires l.Rec? && l in d.files && d.files[l].name == "" && Proper(q)
    ensures Resolve(d, o, Root, q) != Some(l)
  {
    if q != [] && Resolve(d, o, Root, q) == Some(l) { LastStep(d, o, q); }
  }

  // The paths of two files that are one file are one path.
  lemma SamePlace(d: Disk, o: map<nat, Slot>, q: seq<string>, p: seq<string>, m: Loc)
    requires Resolve(d, o, Root, q) == Some(m) && q != p
    ensures Resolve(d, o, Root, p) != Some(m)
  {
    if Resolve(d, o, Root, p) == Some(m) { ResolveInjective(d, o, q, p); }
  }

  // One part more, where the path before it was not touched.
  lemma MovedBeside(d: Disk, o: map<nat, Slot>, src: Loc, dst: Loc, dir: Loc, srcDir: Loc, p: seq<string>,
                    up: seq<string>, q0: seq<string>, n: string)
    requires MovePaths(d, o, src, dst, dir, srcDir, p, up) && Proper(q0) && n != ""
    requires q0 != p && q0 + [n] != p && q0 + [n] != up + [d.files[src].name]
    ensures Step(MoveRecord(d, src, dst), MoveOwner(o, src, dst), Resolve(d, o, Root, q0), n)
            == Resolve(d, o, Root, q0 + [n])
  {
    ResolveSnoc(d, o, Root, q0, n);
    if Resolve(d, o, Root, q0).Some? {
      var m := Resolve(d, o, Root, q0).loc;
      SamePlace(d, o, q0, p, m);
      UnusedNotReached(d, o, dst, q0);
      if n == d.files[src].name {
        assert p == p[..|p| - 1] + [n];
        SamePlace(d, o, q0, p[..|p| - 1], m);
        SamePlace(d, o, q0, up, m);
      }
      MovedElsewhere(d, o, src, dst, dir, srcDir, m, n);
    }
  }

  // One part more behind the new place.
  lemma MovedBehind(d: Disk, o: map<nat, Slot>, src: Loc, dst: Loc, dir: Loc, srcDir: Loc, p: seq<string>,
                    up: seq<string>, r: seq<string>, n: string)
    requires MovePaths(d, o, src, dst, dir, srcDir, p, up) && Proper(r) && n != "" && !(p <= up)
    ensures Step(MoveRecord(d, src, dst), MoveOwner(o, src, dst), MovedOpt(Resolve(d, o, Root, p + r), src, dst), n)
            == MovedOpt(Resolve(d, o, Root, p + r + [n]), src, dst)
  {
    var q0 := p + r;
    ResolveSnoc(d, o, Root, q0, n);
    SamePlace(d, o, p, up, src);
    if r == [] {
      assert q0 == p;
      MovedInside(d, o, src, dst, dir, srcDir, n);
      NotItself(d, o, p, q0 + [n], src);
    } else {
      assert q0 + [n] != p && q0 != up;
      assert up == (up + [d.files[src].name])[..|up|] && q0 == (q0 + [n])[..|q0|];
      MovedBeside(d, o, src, dst, dir, srcDir, p, up, q0, n);
      NotItself(d, o, p, q0, src);
      NotItself(d, o, p, q0 + [n], src);
    }
  }

  lemma NotItself(d: Disk, o: map<nat, Slot>, p: seq<string>, q: seq<string>, src: Loc)
    requires Resolve(d, o, Root, p) == Some(src) && q != p
    ensures Resolve(d, o, Root, q) != Some(src)
  {
    if Resolve(d, o, Root, q) == Some(src) { SamePlace(d, o, q, p, src); }
  }

  lemma {:induction false} MovedResolve(d: Disk, o: map<nat, Slot>, src: Loc, dst: Loc, dir: Loc, srcDir: Loc,
                                        p: seq<string>, up: seq<string>, q: seq<string>)
    requires MovePaths(d, o, src, dst, dir, srcDir, p, up) && Proper(q)
    ensures Resolve(MoveRecord(d, src, dst), MoveOwner(o, src, dst), Root, q)
            == AfterMove(d, o, p, up, d.files[src].name, src, dst, q)
    decreases |q|
  {
    if q != [] {
      var d', o', name := MoveRecord(d, src, dst), MoveOwner(o, src, dst), d.files[src].name;
      var q0, n := q[..|q| - 1], q[|q| - 1];
      assert q == q0 + [n];
      MovedResolve(d, o, src, dst, dir, srcDir, p, up, q0);
      ResolveSnoc(d', o', Root, q0, n);
      MovedPart(d, o, src, dst, dir, srcDir, p, up, q0, n);
    }
  }

  // AfterMove goes from q0 to q0 + [n] as a walk does.
  ghost predicate PartAfter(d: Disk, o: map<nat, Slot>, src: Loc, dst: Loc, p: seq<string>, up: seq<string>,
                            q0: seq<string>, n: string)
  {
    src in d.files &&
    Step(MoveRecord(d, src, dst), MoveOwner(o, src, dst), AfterMove(d, o, p, up, d.files[src].name, src, dst, q0), n)
    == AfterMove(d, o, p, up, d.files[src].name, src, dst, q0 + [n])
  }

  // Behind the new place.
  lemma PartBehind(d: Disk, o: map<nat, Slot>, src: Loc, dst: Loc, dir: Loc, srcDir: Loc, p: seq<string>,
                   up: seq<string>, q0: seq<string>, n: string)
    requires MovePaths(d, o, src, dst, dir, srcDir, p, up) && Proper(q0) && n != ""
    requires !(p <= up) && up + [d.files[src].name] <= q0
    ensures PartAfter(d, o, src, dst, p, up, q0, n)
  {
    var q, r := q0 + [n], q0[|up| + 1..];
    assert q[|up| + 1..] == r + [n] && p + (r + [n]) == p + r + [n] && up + [d.files[src].name] <= q;
    MovedBehind(d, o, src, dst, dir, srcDir, p, up, r, n);
  }

  // At the new place.
  lemma PartNew(d: Disk, o: map<nat, Slot>, src: Loc, dst: Loc, dir: Loc, srcDir: Loc, p: seq<string>,
                up: seq<string>, q0: seq<string>, n: string)
    requires MovePaths(d, o, src, dst, dir, srcDir, p, up) && Proper(q0) && n != ""
    requires !(p <= up) && q0 == up && n == d.files[src].name
    ensures PartAfter(d, o, src, dst, p, up, q0, n)
  {
    assert (q0 + [n])[|up| + 1..] == [] && p + [] == p;
    SamePlace(d, o, p, up, src);
    MovedHere(d, o, src, dst, dir, srcDir);
  }

  // At the old place.
  lemma PartOld(d: Disk, o: map<nat, Slot>, src: Loc, dst: Loc, dir: Loc, srcDir: Loc, p: seq<string>,
                up: seq<string>, q0: seq<string>, n: string)
    requires MovePaths(d, o, src, dst, dir, srcDir, p, up) && Proper(q0) && n != ""
    requires q0 == p[..|p| - 1] && n == d.files[src].name && q0 != up
    requires p <= up || !(up + [n] <= q0)
    ensures PartAfter(d, o, src, dst, p, up, q0, n)
  {
    assert p == q0 + [n] && (up + [n])[..|up|] == up && p[..|p| - 1] == q0;
    SamePlace(d, o, up, q0, dir);
    MovedHere(d, o, src, dst, dir, srcDir);
  }

  // Elsewhere.
  lemma PartBeside(d: Disk, o: map<nat, Slot>, src: Loc, dst: Loc, dir: Loc, srcDir: Loc, p: seq<string>,
                   up: seq<string>, q0: seq<string>, n: string)
    requires MovePaths(d, o, src, dst, dir, srcDir, p, up) && Proper(q0) && n != ""
    requires !(p <= q0) && q0 + [n] != p
    requires p <= up || !(up + [d.files[src].name] <= q0 + [n])
    ensures PartAfter(d, o, src, dst, p, up, q0, n)
  {
    var q := q0 + [n];
    assert q[..|q| - 1] == q0;
    if p <= up { assert (up + [d.files[src].name])[..|up|] == up; }
    MovedBeside(d, o, src, dst, dir, srcDir, p, up, q0, n);
  }

  // One part more.
  lemma MovedPart(d: Disk, o: map<nat, Slot>, src: Loc, dst: Loc, dir: Loc, srcDir: Loc, p: seq<string>,
                  up: seq<string>, q0: seq<string>, n: string)
    requires MovePaths(d, o, src, dst, dir, srcDir, p, up) && Proper(q0) && n != ""
    ensures PartAfter(d, o, src, dst, p, up, q0, n)
  {
    var name, q, k := d.files[src].name, q0 + [n], |p| - 1;
    assert p == p[..k] + [name] && q[..|q| - 1] == q0 && (up + [name])[..|up|] == up;
    if !(p <= up) && up + [name] <= q0 {
      PartBehind(d, o, src, dst, dir, srcDir, p, up, q0, n);
    } else if !(p <= up) && q == up + [name] {
      PartNew(d, o, src, dst, dir, srcDir, p, up, q0, n);
    } else if q == p {
      PartOld(d, o, src, dst, dir, srcDir, p, up, q0, n);
    } else if !(p <= q0) {
      PartBeside(d, o, src, dst, dir, srcDir, p, up, q0, n);
    }
  }

  // The unused records that come before the move change no path.
  lemma MoveStart(d: Disk, o: map<nat, Slot>, d1: Disk, o1: map<nat, Slot>, src: Loc, dst: Loc, dir: Loc, srcDir: Loc,
                  p: seq<string>, up: seq<string>)
    requires RecordsOk(d, o) && Grew(d, d1, o, o1) && Live(d, src) && Movable(d1, o1, src, dst, dir)
    requires Proper(p) && p != [] && Proper(up) && Resolve(d, o, Root, p) == Some(src)
    requires Resolve(d, o, Root, p[..|p| - 1]) == Some(srcDir) && Resolve(d, o, Root, up) == Some(dir)
    requires NoTwin(d, o, srcDir, d.files[src].name, src) && NoTwin(d, o, dir, d.files[src].name, src)
    ensures d1.files[src].name == d.files[src].name && MovePaths(d1, o1, src, dst, dir, srcDir, p, up)
  {
    var k := |p| - 1;
    assert GrewAt(d, d1, src);
    LastStep(d, o, p);
    GrewPaths(d, o, d1, o1);
    assert PathAfter(d, o, d1, o1, p) && PathAfter(d, o, d1, o1, p[..k]) && PathAfter(d, o, d1, o1, up);
    LastStep(d1, o1, p);
    SamePlace(d1, o1, p, p[..k], src);
    TwinKept(d, o, d1, o1, srcDir, d.files[src].name, src);
    TwinKept(d, o, d1, o1, dir, d.files[src].name, src);
  }

  lemma SameAfterMove(d: Disk, o: map<nat, Slot>, d1: Disk, o1: map<nat, Slot>, p: seq<string>, up: seq<string>,
                      name: string, src: Loc, dst: Loc, q: seq<string>)
    requires SamePaths(d, o, d1, o1) && Proper(p) && Proper(q)
    ensures AfterMove(d1, o1, p, up, name, src, dst, q) == AfterMove(d, o, p, up, name, src, dst, q)
  {
    assert PathAfter(d, o, d1, o1, q);
    if up + [name] <= q { assert PathAfter(d, o, d1, o1, p + q[|up| + 1..]); }
  }

  lemma MovedIsReached(d: Disk, o: map<nat, Slot>, src: Loc, dst: Loc, dir: Loc, srcDir: Loc, p: seq<string>,
                       up: seq<string>, q: seq<string>)
    requires MovePaths(d, o, src, dst, dir, srcDir, p, up) && Proper(q)
    ensures var name := d.files[src].name;
            && (!(p <= up) ==> AfterMove(d, o, p, up, name, src, dst, up + [name]) == Some(dst))
            && (p <= up ==> AfterMove(d, o, p, up, name, src, dst, q) != Some(dst))
  {
    assert p + (up + [d.files[src].name])[|up| + 1..] == p;
    UnusedNotReached(d, o, dst, q);
  }

  ghost predicate LeadsTo(d: Disk, o: map<nat, Slot>, q: seq<string>, l: Loc) {
    Proper(q) && Resolve(d, o, Root, q) == Some(l)
  }

  ghost predicate PathMoved(d: Disk, o: map<nat, Slot>, d': Disk, o': map<nat, Slot>, p: seq<string>, up: seq<string>,
                            name: string, src: Loc, dst: Loc, q: seq<string>)
  {
    Proper(q) ==> Resolve(d', o', Root, q) == AfterMove(d, o, p, up, name, src, dst, q)
  }

  lemma PathAfterMove(d: Disk, o: map<nat, Slot>, d1: Disk, o1: map<nat, Slot>, src: Loc, dst: Loc, dir: Loc,
                      srcDir: Loc, p: seq<string>, up: seq<string>, q: seq<string>)
    requires SamePaths(d, o, d1, o1) && MovePaths(d1, o1, src, dst, dir, srcDir, p, up)
    ensures var d', o' := MoveRecord(d1, src, dst), MoveOwner(o1, src, dst);
            PathMoved(d, o, d', o', p, up, d1.files[src].name, src, dst, q) && (p <= up ==> !LeadsTo(d', o', q, dst))
  {
    if Proper(q) {
      MovedResolve(d1, o1, src, dst, dir, srcDir, p, up, q);
      SameAfterMove(d, o, d1, o1, p, up, d1.files[src].name, src, dst, q);
      MovedIsReached(d1, o1, src, dst, dir, srcDir, p, up, q);
    }
  }

  lemma NewPathLeads(d: Disk, o: map<nat, Slot>, src: Loc, dst: Loc, dir: Loc, srcDir: Loc, p: seq<string>,
                     up: seq<string>)
    requires MovePaths(d, o, src, dst, dir, srcDir, p, up) && !(p <= up)
    ensures LeadsTo(MoveRecord(d, src, dst), MoveOwner(o, src, dst), up + [d.files[src].name], dst)
  {
    MovedResolve(d, o, src, dst, dir, srcDir, p, up, up + [d.files[src].name]);
    MovedIsReached(d, o, src, dst, dir, srcDir, p, up, up);
  }

  lemma AllPathsAfter(d: Disk, o: map<nat, Slot>, d1: Disk, o1: map<nat, Slot>, src: Loc, dst: Loc, dir: Loc,
                      srcDir: Loc, p: seq<string>, up: seq<string>)
    requires SamePaths(d, o, d1, o1) && MovePaths(d1, o1, src, dst, dir, srcDir, p, up)
    ensures var d', o' := MoveRecord(d1, src, dst), MoveOwner(o1, src, dst);
            && (forall q :: PathMoved(d, o, d', o', p, up, d1.files[src].name, src, dst, q))
            && ((exists q :: LeadsTo(d', o', q, dst)) <==> !(p <= up))
  {
    var d', o', name := MoveRecord(d1, src, dst), MoveOwner(o1, src, dst), d1.files[src].name;
    forall q ensures PathMoved(d, o, d', o', p, up, name, src, dst, q) && (p <= up ==> !LeadsTo(d', o', q, dst)) {
      PathAfterMove(d, o, d1, o1, src, dst, dir, srcDir, p, up, q);
    }
    if !(p <= up) { NewPathLeads(d1, o1, src, dst, dir, srcDir, p, up); }
  }

  // The paths after a successful rename, when neither directory has another record of the name. What was renamed can be
  // reached afterwards exactly if it did not go into itself.
  lemma RenamePaths(d: Disk, o: map<nat, Slot>, d': Disk, o': map<nat, Slot>, dir: Loc, src: Loc, dst: Loc,
                    p: seq<string>, srcDir: Loc, up: seq<string>)
    requires RecordsOk(d, o) && Live(d, src) && MovedFrom(d, o, d', o', dir, src, dst)
    requires Proper(p) && p != [] && Proper(up) && Resolve(d, o, Root, p) == Some(src)
    requires Resolve(d, o, Root, p[..|p| - 1]) == Some(srcDir) && Resolve(d, o, Root, up) == Some(dir)
    requires NoTwin(d, o, srcDir, d.files[src].name, src) && NoTwin(d, o, dir, d.files[src].name, src)
    ensures forall q :: PathMoved(d, o, d', o', p, up, d.files[src].name, src, dst, q)
    ensures (exists q :: LeadsTo(d', o', q, dst)) <==> !(p <= up)
  {
    var d1, o1 :| RenamedVia(d, o, d1, o1, d', o', dir, src, dst);
    MoveStart(d, o, d1, o1, src, dst, dir, srcDir, p, up);
    GrewPaths(d, o, d1, o1);
    AllPathsAfter(d, o, d1, o1, src, dst, dir, srcDir, p, up);
  }

  // An empty directory has no children.
  lemma EmptyHasNone(d: Disk, o: map<nat, Slot>, l: Loc, name: string, isDir: bool, n: string, m: Loc)
    requires Owned(d, o) && l in d.files && d.files[l] == EmptyFile(name, isDir)
    ensures !IsChild(d, o, l, n, m)
  {
    if m.Rec? && m.block in o { assert OwnsAt(d, o, m.block); }
  }

  // A use of file_rename that loses a directory: it is renamed into itself right after it was made.
  method CreateThenLose(fs: FileSystem, path: string) returns (created: PathStatus, renamed: Status, dst: Loc)
    requires fs.Valid({}) && AllWhole(fs.D()) && UniqueNames(fs.D(), fs.owner)
    modifies fs`words, fs`files, fs`table, fs`data, fs`owner
    ensures fs.Valid({}) && AllWhole(fs.D())
    ensures created == Done && renamed == Ok ==>
              && Live(fs.D(), dst) && DirAt(fs.D(), dst) && IsChild(fs.D(), fs.owner, dst, fs.files[dst].name, dst)
              && forall q :: !LeadsTo(fs.D(), fs.owner, q, dst)
  {
    var f;
    created, f := FileCreate(fs, path, true);
    renamed, dst := EInval, Root;
    if created != Done { return; }
    ghost var d, o, p := fs.D(), fs.owner, Components(path);
    LastStep(d, o, p);
    ghost var srcDir := Resolve(d, o, Root, p[..|p| - 1]).loc;
    forall l | l != f ensures !IsChild(d, o, srcDir, d.files[f].name, l) { assert DistinctAt(d, o, l, f); }
    forall l | l != f ensures !IsChild(d, o, f, d.files[f].name, l) {
      EmptyHasNone(d, o, f, p[|p| - 1], true, d.files[f].name, l);
    }
    renamed, dst := FileRename(fs, f, f);
    if renamed == Ok { RenamePaths(d, o, fs.D(), fs.owner, f, f, dst, p, srcDir, p); }
  }

  // ----- Reading, writing and resizing regular files -----

  // file_read, file_write and file_set_size of a regular file keep every name and every path.
  lemma ContentsKeepTree(d: Disk, o: map<nat, Slot>, d': Disk, o': map<nat, Slot>, l: Loc, size: nat)
    requires Owned(d, o) && RecordsOk(d, o) && Owned(d', o') && AllWhole(d) && l in d.files && !d.files[l].isDir
    requires Walked(d, d', l) || Rewritten(d, d', l, size) || Resized(d, d', l, size)
    ensures AllWhole(d') && StaysUnique(d, o, d', o') && SamePaths(d, o, d', o')
  {
    if Walked(d, d', l) {
      forall q: Slot ensures ElsewhereAt(d, d', l, q) { assert KeptAt(d, d', l, q); }
    }
    OnlyFileTree(d, o, d', o', l);
    forall q ensures PathAfter(d, o, d', o', q) {}
  }

  // ----- Whole uses -----

  lemma ReadBack(c: Contents, c1: Contents, c': Contents, l: Loc, offset: nat, buf: seq<int>, free: nat, free1: nat,
                 done: nat, k: nat, back: seq<int>, k': nat, st: Status)
    requires FileWritten(c, c1, l, offset, buf, free, done, k, Ok) && buf != []
    requires FileGot(c1, c', l, offset, Readable(c1.disk.files[l].size, |buf|, offset), free1, back, k', st)
    ensures st == Ok && back == buf
  {
    NoneMissing(c1.disk, l, offset, offset + |buf|);
    forall i | 0 <= i < |back| ensures back[i] == buf[i] {
      assert WroteAt(c, c1, l, offset, buf, |buf|, l, offset + i);
    }
  }

  // The write succeeds exactly if the range lies within the largest size and there are blocks enough. Then the read does,
  // and returns what was written.
  method WriteThenRead(fs: FileSystem, l: Loc, buf: seq<int>, offset: nat)
    returns (wrote: Status, st: Status, back: seq<int>)
    requires fs.Valid({}) && Live(fs.D(), l) && !fs.files[l].isDir && buf != []
    modifies fs`words, fs`files, fs`table, fs`data, fs`owner
    ensures fs.Valid({})
    ensures wrote == Ok <==>
            && offset + |buf| <= MAXFILESIZE
            && Missing(old(fs.D()), l, offset / BLKSIZE, BlocksFor(offset + |buf|)) <= |old(fs.Free())|
    ensures wrote == Ok ==> st == Ok && back == buf
  {
    ghost var c, free := fs.C(), |fs.Free()|;
    ghost var done, k, k';
    back, st := [], ENoDisk;
    wrote, done, k := fs.FileWrite(l, buf, offset);
    if wrote != Ok { return; }
    ghost var c1, free1 := fs.C(), |fs.Free()|;
    st, back, k' := fs.FileRead(l, |buf|, offset);
    ReadBack(c, c1, fs.C(), l, offset, buf, free, free1, done, k, back, k', st);
  }

  // A created file is found by its path, also when the disk is full by then.
  method CreateThenOpen(fs: FileSystem, path: string, isDir: bool)
    returns (created: PathStatus, reopened: PathStatus, file: Loc, found: Opt)
    requires fs.Valid({}) && AllWhole(fs.D())
    modifies fs`words, fs`files, fs`table, fs`data, fs`owner
    ensures fs.Valid({}) && AllWhole(fs.D())
    ensures created == Done ==> reopened == Done && found == Some(file)
  {
    created, file := FileCreate(fs, path, isDir);
    reopened, found := NotFound, None;
    if created != Done { return; }
    reopened, found := FileOpen(fs, path);
  }
}
