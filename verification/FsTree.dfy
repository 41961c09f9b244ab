/**
  Names and paths over the file records: what a path resolves to, and how resolution changes when a record is named
  or cleared. A record's directory is the file that owns the block the record lies in.
 */
module FsTree {
  import opened FsBlocks
  import opened FsState

  datatype Opt = None | Some(loc: Loc)

  ghost predicate IsChild(d: Disk, o: map<nat, Slot>, dir: Loc, name: string, l: Loc) {
    l.Rec? && l in d.files && l.block in o && o[l.block].loc == dir && d.files[l].name == name
  }

  // Two named records of one directory have different names.
  ghost predicate UniqueNames(d: Disk, o: map<nat, Slot>) {
    forall a, b :: DistinctAt(d, o, a, b)
  }

  ghost predicate DistinctAt(d: Disk, o: map<nat, Slot>, a: Loc, b: Loc) {
    b in d.files && b.Rec? && b.block in o && d.files[b].name != "" ==>
      (IsChild(d, o, o[b.block].loc, d.files[b].name, a) ==> a == b)
  }

  ghost predicate DirAt(d: Disk, l: Loc) {
    l in d.files && d.files[l].isDir
  }

  // Directories consist of whole blocks.
  ghost predicate WholeAt(d: Disk, l: Loc) {
    DirAt(d, l) ==> d.files[l].size % BLKSIZE == 0
  }

  ghost predicate AllWhole(d: Disk) {
    forall l :: WholeAt(d, l)
  }

  ghost predicate TreeOk(d: Disk, o: map<nat, Slot>) {
    UniqueNames(d, o) && AllWhole(d)
  }

  ghost predicate StaysUnique(d: Disk, o: map<nat, Slot>, d': Disk, o': map<nat, Slot>) {
    UniqueNames(d, o) ==> UniqueNames(d', o')
  }

  // ----- Which of several records of one name counts -----

  // The number of the block, within its directory, that record l lies in.
  ghost function BlockNo(o: map<nat, Slot>, l: Loc): nat {
    if l.Rec? && l.block in o && !o[l.block].Indirect? then BlockOf(o[l.block]) else 0
  }

  // A search of the directory, block by block and record by record, meets m before l.
  ghost predicate Earlier(o: map<nat, Slot>, m: Loc, l: Loc) {
    m.Rec? && l.Rec?
    && (BlockNo(o, m) < BlockNo(o, l) || (BlockNo(o, m) == BlockNo(o, l) && m.index < l.index))
  }

  ghost predicate IsFirst(d: Disk, o: map<nat, Slot>, dir: Loc, name: string, l: Loc) {
    IsChild(d, o, dir, name, l) && forall m :: NotEarlier(d, o, dir, name, l, m)
  }

  ghost predicate NotEarlier(d: Disk, o: map<nat, Slot>, dir: Loc, name: string, l: Loc, m: Loc) {
    IsChild(d, o, dir, name, m) ==> m == l || Earlier(o, l, m)
  }

  // The first record of dir called name.
  ghost function ChildOf(d: Disk, o: map<nat, Slot>, dir: Loc, name: string): Opt {
    if exists l :: IsFirst(d, o, dir, name, l) then var l :| IsFirst(d, o, dir, name, l); Some(l) else None
  }

  lemma ChildIs(d: Disk, o: map<nat, Slot>, dir: Loc, name: string, l: Loc)
    requires IsFirst(d, o, dir, name, l)
    ensures ChildOf(d, o, dir, name) == Some(l)
  {
    var m := ChildOf(d, o, dir, name).loc;
    assert NotEarlier(d, o, dir, name, l, m) && NotEarlier(d, o, dir, name, m, l);
  }

  // A child lies in a data block of its directory.
  lemma ChildSlot(d: Disk, o: map<nat, Slot>, dir: Loc, name: string, l: Loc)
    requires Owned(d, o) && RecordsOk(d, o) && IsChild(d, o, dir, name, l)
    ensures var r := o[l.block];
            && !r.Indirect? && l.index < BLKFILES && PointerAt(d, r) == l.block != 0
            && r == SlotOf(dir, BlockNo(o, l)) && BlockNo(o, l) < MAXBLOCKS
  {
    assert RecordAt(d, o, l.block, l.index) && OwnsAt(d, o, l.block);
  }

  lemma SearchOrderTotal(d: Disk, o: map<nat, Slot>, dir: Loc, name: string, l: Loc, m: Loc)
    requires Owned(d, o) && RecordsOk(d, o) && IsChild(d, o, dir, name, l) && IsChild(d, o, dir, name, m)
    ensures m == l || Earlier(o, l, m) || Earlier(o, m, l)
  {
    ChildSlot(d, o, dir, name, l);
    ChildSlot(d, o, dir, name, m);
  }

  // If there is a child of the name, there is a first one.
  lemma {:induction false} HasFirst(d: Disk, o: map<nat, Slot>, dir: Loc, name: string, l: Loc)
    requires Owned(d, o) && RecordsOk(d, o) && IsChild(d, o, dir, name, l)
    ensures ChildOf(d, o, dir, name).Some?
    decreases BlockNo(o, l), l.index
  {
    if m :| IsChild(d, o, dir, name, m) && Earlier(o, m, l) {
      HasFirst(d, o, dir, name, m);
    } else {
      forall m ensures NotEarlier(d, o, dir, name, l, m) {
        if IsChild(d, o, dir, name, m) { SearchOrderTotal(d, o, dir, name, l, m); }
      }
      ChildIs(d, o, dir, name, l);
    }
  }

  lemma NoChild(d: Disk, o: map<nat, Slot>, dir: Loc, name: string, l: Loc)
    requires Owned(d, o) && RecordsOk(d, o) && ChildOf(d, o, dir, name) == None
    ensures !IsChild(d, o, dir, name, l)
  {
    if IsChild(d, o, dir, name, l) { HasFirst(d, o, dir, name, l); }
  }

  // Where names are unique, any child of the name is the one.
  lemma OnlyChild(d: Disk, o: map<nat, Slot>, dir: Loc, name: string, l: Loc)
    requires UniqueNames(d, o) && IsChild(d, o, dir, name, l) && name != ""
    ensures ChildOf(d, o, dir, name) == Some(l)
  {
    forall m ensures NotEarlier(d, o, dir, name, l, m) { assert DistinctAt(d, o, m, l); }
    ChildIs(d, o, dir, name, l);
  }

  // A disk with an empty root directory only.
  lemma FreshTree(d: Disk, o: map<nat, Slot>)
    requires d.files.Keys == {Root} && d.files[Root].size == 0
    ensures TreeOk(d, o) && forall path: seq<string> :: path != [] ==> Resolve(d, o, Root, path) == None
  {
    forall a, b ensures DistinctAt(d, o, a, b) {}
    forall l ensures WholeAt(d, l) {}
    forall path: seq<string> | path != [] ensures Resolve(d, o, Root, path) == None {
      assert forall l :: !IsChild(d, o, Root, path[0], l);
    }
  }

  // ----- Resolution -----

  ghost predicate Proper(path: seq<string>) {
    forall i :: 0 <= i < |path| ==> path[i] != ""
  }

  ghost function Resolve(d: Disk, o: map<nat, Slot>, l: Loc, path: seq<string>): Opt
    decreases |path|
  {
    if path == [] then Some(l)
    else if !DirAt(d, l) then None
    else
      match ChildOf(d, o, l, path[0])
      case None => None
      case Some(c) => Resolve(d, o, c, path[1..])
  }

  ghost function Step(d: Disk, o: map<nat, Slot>, l: Opt, name: string): Opt {
    if l.None? || !DirAt(d, l.loc) then None else ChildOf(d, o, l.loc, name)
  }

  lemma {:induction false} ResolveSnoc(d: Disk, o: map<nat, Slot>, l: Loc, path: seq<string>, name: string)
    ensures Resolve(d, o, l, path + [name]) == Step(d, o, Resolve(d, o, l, path), name)
    decreases |path|
  {
    if path == [] {
      assert (path + [name])[1..] == [];
      assert Resolve(d, o, l, path + [name]) == Step(d, o, Some(l), name);
    } else if DirAt(d, l) && ChildOf(d, o, l, path[0]).Some? {
      assert (path + [name])[1..] == path[1..] + [name];
      ResolveSnoc(d, o, ChildOf(d, o, l, path[0]).loc, path[1..], name);
    }
  }

  // A file has at most one path from the root.
  lemma {:induction false} ResolveInjective(d: Disk, o: map<nat, Slot>, p: seq<string>, q: seq<string>)
    requires Resolve(d, o, Root, p).Some? && Resolve(d, o, Root, p) == Resolve(d, o, Root, q)
    ensures p == q
    decreases |p|
  {
    if p != [] { LastStep(d, o, p); }
    if q != [] { LastStep(d, o, q); }
    if p != [] && q != [] {
      ResolveInjective(d, o, p[..|p| - 1], q[..|q| - 1]);
      assert p == p[..|p| - 1] + [p[|p| - 1]] && q == q[..|q| - 1] + [q[|q| - 1]];
    }
  }

  lemma LastStep(d: Disk, o: map<nat, Slot>, p: seq<string>)
    requires p != [] && Resolve(d, o, Root, p).Some?
    ensures var dir := Resolve(d, o, Root, p[..|p| - 1]);
            dir.Some? && IsChild(d, o, dir.loc, p[|p| - 1], Resolve(d, o, Root, p).loc)
  {
    assert p == p[..|p| - 1] + [p[|p| - 1]];
    ResolveSnoc(d, o, Root, p[..|p| - 1], p[|p| - 1]);
  }

  // The root is a record like any other: once it is cleared, as file_remove and file_rename do, no path leads anywhere,
  // and no disk without a root directory is in order.
  lemma WithoutRoot(d: Disk, o: map<nat, Slot>, path: seq<string>)
    requires Root in d.files && path != []
    ensures var d' := PutRecord(d, Root, ZERO_FILE);
            Resolve(d', o, Root, path) == None && forall o': map<nat, Slot> :: !RecordsOk(d', o')
  {
  }

  // ----- Unused records appear -----

  // Records keep name and type, regular files their size, and new records are unused.
  ghost predicate GrewAt(d: Disk, d': Disk, l: Loc) {
    if l in d.files then
      && l in d'.files && d'.files[l].name == d.files[l].name && d'.files[l].isDir == d.files[l].isDir
      && (d.files[l].isDir || d'.files[l].size == d.files[l].size)
    else l in d'.files ==> d'.files[l].name == "" && !d'.files[l].isDir
  }

  ghost predicate Grew(d: Disk, d': Disk, o: map<nat, Slot>, o': map<nat, Slot>) {
    OwnersKept(o, o') && forall l :: GrewAt(d, d', l)
  }

  lemma GrewTrans(d: Disk, d1: Disk, d': Disk, o: map<nat, Slot>, o1: map<nat, Slot>, o': map<nat, Slot>)
    requires Grew(d, d1, o, o1) && Grew(d1, d', o1, o')
    ensures Grew(d, d', o, o')
  {
    forall l ensures GrewAt(d, d', l) { assert GrewAt(d, d1, l) && GrewAt(d1, d', l); }
  }

  lemma GrewChild(d: Disk, d': Disk, o: map<nat, Slot>, o': map<nat, Slot>, dir: Loc, name: string, l: Loc)
    requires Grew(d, d', o, o') && RecordsOk(d, o) && name != ""
    ensures SameChild(d, o, d', o', dir, name, l)
  {
    assert GrewAt(d, d', l);
    if l.Rec? { assert RecordAt(d, o, l.block, l.index); }
  }

  // Both states have the same named records and the same directories.
  ghost predicate SameNames(d: Disk, o: map<nat, Slot>, d': Disk, o': map<nat, Slot>) {
    && (forall dir, n, l :: SameChild(d, o, d', o', dir, n, l))
    && (forall l :: DirAt(d', l) <==> DirAt(d, l))
  }

  // l is called n in dir in both states or in neither, and in the same block of dir.
  ghost predicate SameChild(d: Disk, o: map<nat, Slot>, d': Disk, o': map<nat, Slot>, dir: Loc, n: string, l: Loc) {
    n != "" ==>
      && (IsChild(d', o', dir, n, l) <==> IsChild(d, o, dir, n, l))
      && (IsChild(d, o, dir, n, l) ==> BlockNo(o', l) == BlockNo(o, l))
  }

  lemma SameUnique(d: Disk, o: map<nat, Slot>, d': Disk, o': map<nat, Slot>)
    requires SameNames(d, o, d', o')
    ensures StaysUnique(d, o, d', o')
  {
    if UniqueNames(d, o) {
      forall a, b ensures DistinctAt(d', o', a, b) {
        assert DistinctAt(d, o, a, b);
        if b in d'.files && b.Rec? && b.block in o' {
          assert SameChild(d, o, d', o', o'[b.block].loc, d'.files[b].name, a);
          assert SameChild(d, o, d', o', o'[b.block].loc, d'.files[b].name, b);
        }
      }
    }
  }

  lemma SameFirst(d: Disk, o: map<nat, Slot>, d': Disk, o': map<nat, Slot>, dir: Loc, name: string, l: Loc)
    requires (forall m :: SameChild(d, o, d', o', dir, name, m)) && name != ""
    ensures IsFirst(d', o', dir, name, l) <==> IsFirst(d, o, dir, name, l)
  {
    assert SameChild(d, o, d', o', dir, name, l);
    if IsChild(d, o, dir, name, l) {
      forall m ensures NotEarlier(d', o', dir, name, l, m) <==> NotEarlier(d, o, dir, name, l, m) {
        assert SameChild(d, o, d', o', dir, name, m);
      }
    }
  }

  lemma SameChildOf(d: Disk, o: map<nat, Slot>, d': Disk, o': map<nat, Slot>, dir: Loc, name: string)
    requires (forall m :: SameChild(d, o, d', o', dir, name, m)) && name != ""
    ensures ChildOf(d', o', dir, name) == ChildOf(d, o, dir, name)
  {
    forall l ensures IsFirst(d', o', dir, name, l) <==> IsFirst(d, o, dir, name, l) {
      SameFirst(d, o, d', o', dir, name, l);
    }
    var c := ChildOf(d, o, dir, name);
    if c.Some? { ChildIs(d', o', dir, name, c.loc); }
  }

  lemma {:induction false} SameResolve(d: Disk, o: map<nat, Slot>, d': Disk, o': map<nat, Slot>, l: Loc, path: seq<string>)
    requires SameNames(d, o, d', o') && Proper(path)
    ensures Resolve(d', o', l, path) == Resolve(d, o, l, path)
    decreases |path|
  {
    if path != [] && DirAt(d, l) {
      forall m ensures SameChild(d, o, d', o', l, path[0], m) {}
      SameChildOf(d, o, d', o', l, path[0]);
      var c := ChildOf(d, o, l, path[0]);
      if c.Some? { SameResolve(d, o, d', o', c.loc, path[1..]); }
    }
  }

  lemma GrewNames(d: Disk, d': Disk, o: map<nat, Slot>, o': map<nat, Slot>)
    requires Grew(d, d', o, o') && RecordsOk(d, o)
    ensures SameNames(d, o, d', o')
  {
    forall dir, n, l ensures SameChild(d, o, d', o', dir, n, l) { if n != "" { GrewChild(d, d', o, o', dir, n, l); } }
    forall l ensures DirAt(d', l) <==> DirAt(d, l) { assert GrewAt(d, d', l); }
  }

  // ----- The blocks of one regular file change -----

  // Other files keep their records and pointers; unused records may come.
  ghost predicate OnlyFile(d: Disk, d': Disk, l: Loc) {
    && l in d.files && l in d'.files && !d.files[l].isDir && d.files.Keys <= d'.files.Keys
    && d'.files[l].name == d.files[l].name && !d'.files[l].isDir
    && (forall m :: OtherAfter(d, d', l, m))
    && (forall q: Slot :: ElsewhereAt(d, d', l, q))
  }

  // Then all names and all paths stay as they are.
  lemma OnlyFileNames(d: Disk, o: map<nat, Slot>, d': Disk, o': map<nat, Slot>, l: Loc)
    requires Owned(d, o) && RecordsOk(d, o) && Owned(d', o') && OnlyFile(d, d', l)
    ensures SameNames(d, o, d', o')
  {
    forall dir, n, x ensures SameChild(d, o, d', o', dir, n, x) {
      if x.Rec? {
        assert RecordAt(d, o, x.block, x.index) && OtherAfter(d, d', l, x) && OwnsAt(d, o, x.block);
        if x in d.files { assert ElsewhereAt(d, d', l, o[x.block]) && NamedAt(d', o', o[x.block]); }
      }
    }
    forall x ensures DirAt(d', x) <==> DirAt(d, x) { assert OtherAfter(d, d', l, x); }
  }

  lemma OnlyFileTree(d: Disk, o: map<nat, Slot>, d': Disk, o': map<nat, Slot>, l: Loc)
    requires Owned(d, o) && RecordsOk(d, o) && Owned(d', o') && OnlyFile(d, d', l) && AllWhole(d)
    ensures AllWhole(d') && StaysUnique(d, o, d', o')
    ensures forall path :: Proper(path) ==> Resolve(d', o', Root, path) == Resolve(d, o, Root, path)
  {
    OnlyFileNames(d, o, d', o', l);
    SameUnique(d, o, d', o');
    forall x ensures WholeAt(d', x) { assert WholeAt(d, x) && OtherAfter(d, d', l, x); }
    forall path | Proper(path) ensures Resolve(d', o', Root, path) == Resolve(d, o, Root, path) {
      SameResolve(d, o, d', o', Root, path);
    }
  }

  // ----- One name more -----

  // The named records of (d', o') are those of (d, o) and f, called name in dir; f has no records of its own.
  ghost predicate OneMore(d: Disk, o: map<nat, Slot>, d': Disk, o': map<nat, Slot>, dir: Loc, name: string, f: Loc) {
    && f.Rec? && name != ""
    && (forall l :: !IsChild(d, o, dir, name, l))
    && (forall dir2, n, l :: ChildAfter(d, o, d', o', dir, name, f, dir2, n, l))
    && (forall l :: l != f ==> (DirAt(d', l) <==> DirAt(d, l)))
    && (forall dir2, n :: n != "" ==> !IsChild(d, o, dir2, n, f))
    && (forall n, l :: n != "" ==> !IsChild(d', o', f, n, l))
  }

  ghost predicate ChildAfter(d: Disk, o: map<nat, Slot>, d': Disk, o': map<nat, Slot>, dir: Loc, name: string, f: Loc,
                             dir2: Loc, n: string, l: Loc)
  {
    n != "" ==>
      && (IsChild(d', o', dir2, n, l) <==> IsChild(d, o, dir2, n, l) || (l == f && dir2 == dir && n == name))
      && (IsChild(d, o, dir2, n, l) ==> BlockNo(o', l) == BlockNo(o, l))
  }

  lemma ChildOfAfter(d: Disk, o: map<nat, Slot>, d': Disk, o': map<nat, Slot>, dir: Loc, name: string, f: Loc,
                     dir2: Loc, n: string)
    requires OneMore(d, o, d', o', dir, name, f) && n != ""
    ensures ChildOf(d', o', dir2, n) == if dir2 == dir && n == name then Some(f) else ChildOf(d, o, dir2, n)
  {
    if dir2 == dir && n == name {
      assert ChildAfter(d, o, d', o', dir, name, f, dir2, n, f);
      forall m ensures NotEarlier(d', o', dir2, n, f, m) {
        assert ChildAfter(d, o, d', o', dir, name, f, dir2, n, m);
      }
      ChildIs(d', o', dir2, n, f);
    } else {
      forall m ensures SameChild(d, o, d', o', dir2, n, m) {
        assert ChildAfter(d, o, d', o', dir, name, f, dir2, n, m);
      }
      SameChildOf(d, o, d', o', dir2, n);
    }
  }

  lemma OneMoreUnique(d: Disk, o: map<nat, Slot>, d': Disk, o': map<nat, Slot>, dir: Loc, name: string, f: Loc)
    requires OneMore(d, o, d', o', dir, name, f) && UniqueNames(d, o)
    ensures UniqueNames(d', o')
  {
    forall a, b ensures DistinctAt(d', o', a, b) {
      if b in d'.files && b.Rec? && b.block in o' && d'.files[b].name != "" {
        var dir2, n := o'[b.block].loc, d'.files[b].name;
        assert ChildAfter(d, o, d', o', dir, name, f, dir2, n, a) && ChildAfter(d, o, d', o', dir, name, f, dir2, n, b);
        assert DistinctAt(d, o, a, b);
      }
    }
  }

  // The new path leads to f, and every other path leads where it did.
  lemma {:induction false} OneMoreResolve(d: Disk, o: map<nat, Slot>, d': Disk, o': map<nat, Slot>,
                                          dir: Loc, name: string, f: Loc, up: seq<string>, q: seq<string>)
    requires OneMore(d, o, d', o', dir, name, f) && Proper(q)
    requires Resolve(d, o, Root, up) == Some(dir) && DirAt(d, dir)
    ensures Resolve(d', o', Root, q) == if q == up + [name] then Some(f) else Resolve(d, o, Root, q)
    decreases |q|
  {
    if q != [] {
      var q0, n := q[..|q| - 1], q[|q| - 1];
      assert q == q0 + [n];
      ResolveSnoc(d, o, Root, q0, n);
      ResolveSnoc(d', o', Root, q0, n);
      OneMoreResolve(d, o, d', o', dir, name, f, up, q0);
      ResolveSnoc(d, o, Root, up, name);
      if q0 == up + [name] {
        if ChildOf(d', o', f, n).Some? { assert false; }
      } else if Resolve(d, o, Root, q0).Some? {
        var m := Resolve(d, o, Root, q0).loc;
        if q0 != [] { LastStep(d, o, q0); }
        ChildOfAfter(d, o, d', o', dir, name, f, m, n);
        if m == dir { ResolveInjective(d, o, q0, up); }
      }
    }
  }

  // Paths on the way to f do not depend on f.
  lemma {:induction false} OnTheWay(d: Disk, o: map<nat, Slot>, d': Disk, o': map<nat, Slot>,
                                    dir: Loc, name: string, f: Loc, p: seq<string>, k: nat)
    requires OneMore(d, o, d', o', dir, name, f) && Proper(p)
    requires Resolve(d', o', Root, p) == Some(f) && k < |p|
    ensures Resolve(d, o, Root, p[..k]) == Resolve(d', o', Root, p[..k])
    decreases k
  {
    if k > 0 {
      var u0, n := p[..k - 1], p[k - 1];
      assert p[..k] == u0 + [n];
      OnTheWay(d, o, d', o', dir, name, f, p, k - 1);
      ResolveSnoc(d, o, Root, u0, n);
      ResolveSnoc(d', o', Root, u0, n);
      var m := Resolve(d', o', Root, u0);
      if m.Some? {
        if m.loc == f { ResolveInjective(d', o', u0, p); }
        ChildOfAfter(d, o, d', o', dir, name, f, m.loc, n);
        if Resolve(d', o', Root, p[..k]) == Some(f) { ResolveInjective(d', o', p[..k], p); }
      }
    }
  }
}
