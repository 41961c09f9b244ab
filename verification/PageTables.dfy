/**
  Two-level page tables in physical pages, and the references they make.

  A reference is a page-directory root, a page-directory entry or a page-table entry of the user part of an address
  space. Directories and tables are ordinary pages: table[p] is the content of page p seen as an array of entries.
 */
module PageTables {
  import opened Words

  // Entries of the user part of a page directory (PDX(UTOP)), and entries of a page table.
  const UPDE: nat := 0x3bb
  const NPTE: nat := 1024

  datatype Entry = Absent | Present(page: nat, perm: nat)

  datatype Tables = Tables(pgdir: map<nat, nat>, table: map<nat, seq<Entry>>)

  datatype Ref = Root(env: nat) | Dir(env: nat, pdx: nat) | Leaf(env: nat, pdx: nat, ptx: nat)

  // ----- Entries as words -----

  const PTE_P: nat := 1
  const PTE_BITS: nat := 4096

  // The entry that a word stands for: the page number above the twelve permission bits.
  function EntryOf(w: nat): Entry {
    if w % 2 == 1 then Present(w / PTE_BITS, w % PTE_BITS) else Absent
  }

  // What page_insert stores for a page, given the permissions it was passed.
  function NewEntry(page: nat, perm: nat): Entry {
    Present(BitOr(page, perm / PTE_BITS), BitOr(PTE_P, perm % PTE_BITS))
  }

  // What or-ing permissions into a present entry makes of it.
  function Ored(x: Entry, perm: nat): Entry
    requires x.Present?
  {
    Present(BitOr(x.page, perm / PTE_BITS), BitOr(x.perm, BitOr(perm % PTE_BITS, PTE_P)))
  }

  lemma OrOfParts(a: nat, b: nat)
    ensures BitOr(a, b) / PTE_BITS == BitOr(a / PTE_BITS, b / PTE_BITS)
    ensures BitOr(a, b) % PTE_BITS == BitOr(a % PTE_BITS, b % PTE_BITS)
  {
    var ah, al, bh, bl := a / PTE_BITS, a % PTE_BITS, b / PTE_BITS, b % PTE_BITS;
    assert Pow2(12) == PTE_BITS by { EvenPowers(); }
    BitOrSplit(ah, al, bh, bl, 12, ah * PTE_BITS, bh * PTE_BITS, BitOr(ah, bh) * PTE_BITS);
    assert a == ah * PTE_BITS + al && b == bh * PTE_BITS + bl;
    DivModUnique(BitOr(a, b), BitOr(ah, bh), BitOr(al, bl), PTE_BITS);
  }

  lemma OrPresent(a: nat, b: nat)
    requires a % 2 == 1
    ensures BitOr(a, b) % 2 == 1 && BitOr(b, a) % 2 == 1
  {
    BitOrOdd(a, b, BitOr(a / 2, b / 2));
    BitOrOdd(b, a, BitOr(b / 2, a / 2));
  }

  lemma PageWord(page: nat)
    ensures var pa := BitOr(page * PTE_BITS, PTE_P); pa / PTE_BITS == page && pa % PTE_BITS == PTE_P && pa % 2 == 1
  {
    var a := page * PTE_BITS;
    OrOfParts(a, PTE_P);
    BitOrZero(page);
    BitOrZero(PTE_P);
    OrPresent(PTE_P, a);
  }

  lemma NewEntryIsWord(page: nat, perm: nat)
    ensures EntryOf(BitOr(BitOr(page * PTE_BITS, PTE_P), perm)) == NewEntry(page, perm)
  {
    var pa := BitOr(page * PTE_BITS, PTE_P);
    PageWord(page);
    OrOfParts(pa, perm);
    OrPresent(pa, perm);
  }

  lemma OredIsWord(w: nat, perm: nat)
    requires w % 2 == 1
    ensures EntryOf(BitOr(w, BitOr(perm, PTE_P))) == Ored(EntryOf(w), perm)
  {
    OrOfParts(perm, PTE_P);
    OrOfParts(w, BitOr(perm, PTE_P));
    OrPresent(w, BitOr(perm, PTE_P));
    BitOrZero(perm / PTE_BITS);
  }

  // ----- What a location holds -----

  ghost function DirEntry(t: Tables, e: nat, i: nat): Entry {
    if e in t.pgdir && t.pgdir[e] in t.table && i < UPDE && i < |t.table[t.pgdir[e]]|
    then t.table[t.pgdir[e]][i] else Absent
  }

  ghost function LeafEntry(t: Tables, e: nat, i: nat, j: nat): Entry {
    var d := DirEntry(t, e, i);
    if d.Present? && d.page in t.table && j < NPTE && j < |t.table[d.page]|
    then t.table[d.page][j] else Absent
  }

  ghost predicate Holds(t: Tables, r: Ref, p: nat) {
    match r
    case Root(e) => e in t.pgdir && t.pgdir[e] == p
    case Dir(e, i) => DirEntry(t, e, i).Present? && DirEntry(t, e, i).page == p
    case Leaf(e, i, j) => LeafEntry(t, e, i, j).Present? && LeafEntry(t, e, i, j).page == p
  }

  // The references of an address space, as a map; it is kept as ghost state and tied to the tables by Describes.
  ghost predicate Describes(names: map<Ref, nat>, t: Tables) {
    forall r, p :: Holds(t, r, p) <==> r in names && names[r] == p
  }

  // Directories and tables are well formed, and nothing else names their pages.
  ghost predicate Formed(t: Tables, names: map<Ref, nat>) {
    && (forall e :: e in t.pgdir ==> t.pgdir[e] in t.table && |t.table[t.pgdir[e]]| == NPTE)
    && (forall r :: r in names && !r.Leaf? ==> names[r] in t.table && |t.table[names[r]]| == NPTE)
    && (forall r, r' :: r in names && r' in names && r != r' && names[r] == names[r'] ==> r.Leaf? && r'.Leaf?)
  }

  ghost function Refs(names: map<Ref, nat>, p: nat): set<Ref> {
    set r | r in names && names[r] == p
  }

  lemma AddRef(names: map<Ref, nat>, r: Ref, p: nat, q: nat)
    requires r !in names
    ensures |Refs(names[r := p], q)| == |Refs(names, q)| + (if q == p then 1 else 0)
  {
    if q == p {
      assert Refs(names[r := p], q) == Refs(names, q) + {r};
    } else {
      assert Refs(names[r := p], q) == Refs(names, q);
    }
  }

  lemma DropRef(names: map<Ref, nat>, r: Ref, q: nat)
    requires r in names
    ensures |Refs(names - {r}, q)| == |Refs(names, q)| - (if q == names[r] then 1 else 0)
  {
    if q == names[r] {
      assert Refs(names - {r}, q) == Refs(names, q) - {r};
    } else {
      assert Refs(names - {r}, q) == Refs(names, q);
    }
  }

  // ----- How a store into a table changes the references -----

  function SetEntry(t: Tables, p: nat, k: nat, e: Entry): Tables
    requires p in t.table && k < |t.table[p]|
  {
    t.(table := t.table[p := t.table[p][k := e]])
  }

  ghost function WithLeaf(names: map<Ref, nat>, r: Ref, e: Entry): map<Ref, nat> {
    if e.Present? then names[r := e.page] else names - {r}
  }

  // A store into the page table of (e, i) changes that one leaf reference.
  lemma SetLeaf(t: Tables, names: map<Ref, nat>, e: nat, i: nat, j: nat, x: Entry)
    requires Describes(names, t) && Formed(t, names) && Dir(e, i) in names && j < NPTE
    ensures var t' := SetEntry(t, names[Dir(e, i)], j, x); Describes(WithLeaf(names, Leaf(e, i, j), x), t')
  {
    var t' := SetEntry(t, names[Dir(e, i)], j, x);
    var names' := WithLeaf(names, Leaf(e, i, j), x);
    forall r, p ensures Holds(t', r, p) <==> r in names' && names'[r] == p {
      SetLeafAt(t, names, e, i, j, x, r, p);
    }
  }

  lemma SetLeafAt(t: Tables, names: map<Ref, nat>, e: nat, i: nat, j: nat, x: Entry, r: Ref, p: nat)
    requires Describes(names, t) && Formed(t, names) && Dir(e, i) in names && j < NPTE
    ensures Holds(SetEntry(t, names[Dir(e, i)], j, x), r, p) <==>
            if r == Leaf(e, i, j) then x.Present? && x.page == p else Holds(t, r, p)
  {
    var t' := SetEntry(t, names[Dir(e, i)], j, x);
    var own := names[Dir(e, i)];
    assert Holds(t, Dir(e, i), own);
    match r
    case Root(f) =>
    case Dir(f, k) => OtherDirectory(t, names, e, i, f);
    case Leaf(f, k, l) =>
      OtherDirectory(t, names, e, i, f);
      OtherDirectory(t, names, e, i, e);
      assert DirEntry(t', f, k) == DirEntry(t, f, k);
      if DirEntry(t, f, k).Present? {
        assert Holds(t, Dir(f, k), DirEntry(t, f, k).page);
      }
  }

  // The mapping at (f, k, l) is the same in both, with its permissions.
  ghost predicate LeafKept(t: Tables, t': Tables, f: nat, k: nat, l: nat) {
    LeafEntry(t', f, k, l) == LeafEntry(t, f, k, l)
  }

  // All mappings but that of (e, i, j) are the same.
  ghost predicate LeavesKept(t: Tables, t': Tables, e: nat, i: nat, j: nat) {
    forall f: nat, k: nat, l: nat :: LeafKept(t, t', f, k, l) || Leaf(f, k, l) == Leaf(e, i, j)
  }

  // All mappings are the same.
  ghost predicate SameLeaves(t: Tables, t': Tables) {
    forall f: nat, k: nat, l: nat :: LeafKept(t, t', f, k, l)
  }

  lemma SameLeavesTwice(t: Tables, t1: Tables, t2: Tables)
    requires SameLeaves(t, t1) && SameLeaves(t1, t2)
    ensures SameLeaves(t, t2)
  {
    forall f: nat, k: nat, l: nat ensures LeafKept(t, t2, f, k, l) {
      assert LeafKept(t, t1, f, k, l) && LeafKept(t1, t2, f, k, l);
    }
  }

  lemma SameThenKept(t: Tables, t1: Tables, t2: Tables, e: nat, i: nat, j: nat)
    requires SameLeaves(t, t1) && LeavesKept(t1, t2, e, i, j)
    ensures LeavesKept(t, t2, e, i, j)
  {
    forall f: nat, k: nat, l: nat ensures LeafKept(t, t2, f, k, l) || Leaf(f, k, l) == Leaf(e, i, j) {
      assert LeafKept(t, t1, f, k, l);
      assert LeafKept(t1, t2, f, k, l) || Leaf(f, k, l) == Leaf(e, i, j);
    }
  }

  lemma KeptThenSame(t: Tables, t1: Tables, t2: Tables, e: nat, i: nat, j: nat)
    requires LeavesKept(t, t1, e, i, j) && SameLeaves(t1, t2)
    ensures LeavesKept(t, t2, e, i, j) && LeafEntry(t2, e, i, j) == LeafEntry(t1, e, i, j)
  {
    forall f: nat, k: nat, l: nat ensures LeafKept(t, t2, f, k, l) || Leaf(f, k, l) == Leaf(e, i, j) {
      assert LeafKept(t, t1, f, k, l) || Leaf(f, k, l) == Leaf(e, i, j);
      assert LeafKept(t1, t2, f, k, l);
    }
    assert LeafKept(t1, t2, e, i, j);
  }

  lemma LeavesKeptTwice(t: Tables, t1: Tables, t2: Tables, e: nat, i: nat, j: nat)
    requires LeavesKept(t, t1, e, i, j) && LeavesKept(t1, t2, e, i, j)
    ensures LeavesKept(t, t2, e, i, j)
  {
    forall f: nat, k: nat, l: nat ensures LeafKept(t, t2, f, k, l) || Leaf(f, k, l) == Leaf(e, i, j) {
      assert LeafKept(t, t1, f, k, l) || Leaf(f, k, l) == Leaf(e, i, j);
      assert LeafKept(t1, t2, f, k, l) || Leaf(f, k, l) == Leaf(e, i, j);
    }
  }

  lemma SetLeafKeeps(t: Tables, names: map<Ref, nat>, e: nat, i: nat, j: nat, x: Entry)
    requires Describes(names, t) && Formed(t, names) && Dir(e, i) in names && j < NPTE
    ensures var t' := SetEntry(t, names[Dir(e, i)], j, x);
            LeavesKept(t, t', e, i, j) && LeafEntry(t', e, i, j) == x
  {
    var t' := SetEntry(t, names[Dir(e, i)], j, x);
    assert Holds(t, Dir(e, i), names[Dir(e, i)]);
    OtherDirectory(t, names, e, i, e);
    forall f: nat, k: nat, l: nat ensures LeafKept(t, t', f, k, l) || Leaf(f, k, l) == Leaf(e, i, j) {
      OtherDirectory(t, names, e, i, f);
      assert DirEntry(t', f, k) == DirEntry(t, f, k);
      if DirEntry(t, f, k).Present? { assert Holds(t, Dir(f, k), DirEntry(t, f, k).page); }
    }
  }

  // The directory of an environment is not the page table of (e, i).
  lemma OtherDirectory(t: Tables, names: map<Ref, nat>, e: nat, i: nat, f: nat)
    requires Describes(names, t) && Formed(t, names) && Dir(e, i) in names
    ensures f in t.pgdir ==> t.pgdir[f] != names[Dir(e, i)]
  {
    if f in t.pgdir { assert Holds(t, Root(f), t.pgdir[f]); }
  }

  lemma SetLeafFormed(t: Tables, names: map<Ref, nat>, e: nat, i: nat, j: nat, x: Entry)
    requires Describes(names, t) && Formed(t, names) && Dir(e, i) in names && j < NPTE
    requires x.Present? ==> forall r :: r in names && names[r] == x.page ==> r.Leaf?
    ensures Formed(SetEntry(t, names[Dir(e, i)], j, x), WithLeaf(names, Leaf(e, i, j), x))
  {
  }

  ghost predicate Unnamed(names: map<Ref, nat>, p: nat) {
    forall r :: r in names ==> names[r] != p
  }

  lemma NoRefs(names: map<Ref, nat>, p: nat)
    requires |Refs(names, p)| == 0
    ensures Unnamed(names, p)
  {
    forall r | r in names ensures names[r] != p {
      assert r !in Refs(names, p);
    }
  }

  function Zeroed(t: Tables, q: nat): Tables {
    t.(table := t.table[q := seq(NPTE, k => Absent)])
  }

  // Clearing a page that nothing names changes no reference.
  lemma ClearPage(t: Tables, names: map<Ref, nat>, q: nat)
    requires Describes(names, t) && Formed(t, names) && Unnamed(names, q)
    ensures Describes(names, Zeroed(t, q)) && Formed(Zeroed(t, q), names)
  {
    var t' := Zeroed(t, q);
    forall r, p ensures Holds(t', r, p) <==> Holds(t, r, p) {
      KeepsAt(t, names, t', r, p);
    }
  }

  // If the pages that names uses as directories and tables are untouched, so is every location.
  lemma KeepsAt(t: Tables, names: map<Ref, nat>, t': Tables, r: Ref, p: nat)
    requires Describes(names, t) && Formed(t, names) && t'.pgdir == t.pgdir
    requires forall q :: q in names && !q.Leaf? ==> names[q] in t'.table && t'.table[names[q]] == t.table[names[q]]
    ensures Holds(t', r, p) <==> Holds(t, r, p)
  {
    if r.env in t.pgdir {
      assert Holds(t, Root(r.env), t.pgdir[r.env]);
    }
    if !r.Root? && DirEntry(t, r.env, r.pdx).Present? {
      assert Holds(t, Dir(r.env, r.pdx), DirEntry(t, r.env, r.pdx).page);
    }
  }

  // Stores into the directory of e, seen location by location.
  lemma SetDirAt(t: Tables, names: map<Ref, nat>, e: nat, i: nat, x: Entry, r: Ref, p: nat)
    requires Describes(names, t) && Formed(t, names) && e in t.pgdir && i < UPDE
    requires r.Root? || r.env != e || r.pdx != i
    ensures Holds(SetEntry(t, t.pgdir[e], i, x), r, p) <==> Holds(t, r, p)
  {
    var t' := SetEntry(t, t.pgdir[e], i, x);
    assert Holds(t, Root(e), t.pgdir[e]);
    if !r.Root? {
      if r.env in t.pgdir && r.env != e {
        assert Holds(t, Root(r.env), t.pgdir[r.env]);
      }
      assert DirEntry(t', r.env, r.pdx) == DirEntry(t, r.env, r.pdx);
      if DirEntry(t, r.env, r.pdx).Present? {
        assert Holds(t, Dir(r.env, r.pdx), DirEntry(t, r.env, r.pdx).page);
      }
    }
  }

  lemma SetDirKeeps(t: Tables, names: map<Ref, nat>, e: nat, i: nat, x: Entry, f: nat, k: nat, l: nat)
    requires Describes(names, t) && Formed(t, names) && e in t.pgdir && i < UPDE
    requires f != e || k != i
    ensures LeafKept(t, SetEntry(t, t.pgdir[e], i, x), f, k, l)
  {
    var t' := SetEntry(t, t.pgdir[e], i, x);
    assert Holds(t, Root(e), t.pgdir[e]);
    if f in t.pgdir && f != e { assert Holds(t, Root(f), t.pgdir[f]); }
    assert DirEntry(t', f, k) == DirEntry(t, f, k);
    if DirEntry(t, f, k).Present? { assert Holds(t, Dir(f, k), DirEntry(t, f, k).page); }
  }

  lemma ClearPageKeeps(t: Tables, names: map<Ref, nat>, q: nat, f: nat, k: nat, l: nat)
    requires Describes(names, t) && Formed(t, names) && Unnamed(names, q)
    ensures LeafKept(t, Zeroed(t, q), f, k, l)
  {
    if f in t.pgdir { assert Holds(t, Root(f), t.pgdir[f]); }
    if DirEntry(t, f, k).Present? { assert Holds(t, Dir(f, k), DirEntry(t, f, k).page); }
  }

  lemma LinkTableKeeps(t: Tables, names: map<Ref, nat>, e: nat, i: nat, q: nat, perm: nat, f: nat, k: nat, l: nat)
    requires Describes(names, t) && Formed(t, names) && e in t.pgdir && i < UPDE && Dir(e, i) !in names
    requires Unnamed(names, q) && q in t.table && t.table[q] == seq(NPTE, k => Absent)
    ensures LeafKept(t, SetEntry(t, t.pgdir[e], i, Present(q, perm)), f, k, l)
  {
    var t' := SetEntry(t, t.pgdir[e], i, Present(q, perm));
    assert Holds(t, Root(e), t.pgdir[e]);
    if f != e || k != i {
      SetDirKeeps(t, names, e, i, Present(q, perm), f, k, l);
    } else {
      assert DirEntry(t', e, i) == Present(q, perm);
      assert t'.table[q] == t.table[q];
      if DirEntry(t, e, i).Present? { assert Holds(t, Dir(e, i), DirEntry(t, e, i).page); }
    }
  }

  lemma SetDirPermKeeps(t: Tables, names: map<Ref, nat>, e: nat, i: nat, perm: nat, f: nat, k: nat, l: nat)
    requires Describes(names, t) && Formed(t, names) && Dir(e, i) in names && e in t.pgdir && i < UPDE
    ensures LeafKept(t, SetEntry(t, t.pgdir[e], i, Present(names[Dir(e, i)], perm)), f, k, l)
  {
    assert Holds(t, Dir(e, i), names[Dir(e, i)]);
    assert Holds(t, Root(e), t.pgdir[e]);
    var t' := SetEntry(t, t.pgdir[e], i, Present(names[Dir(e, i)], perm));
    if f != e || k != i {
      SetDirKeeps(t, names, e, i, Present(names[Dir(e, i)], perm), f, k, l);
    } else {
      assert t'.table[names[Dir(e, i)]] == t.table[names[Dir(e, i)]];
    }
  }

  // Linking an empty, unnamed page as a page table adds its directory reference only.
  lemma LinkTable(t: Tables, names: map<Ref, nat>, e: nat, i: nat, q: nat, perm: nat)
    requires Describes(names, t) && Formed(t, names) && e in t.pgdir && i < UPDE && Dir(e, i) !in names
    requires Unnamed(names, q) && q in t.table && t.table[q] == seq(NPTE, k => Absent)
    ensures var t', names' := SetEntry(t, t.pgdir[e], i, Present(q, perm)), names[Dir(e, i) := q];
            Describes(names', t') && Formed(t', names')
  {
    var t', names' := SetEntry(t, t.pgdir[e], i, Present(q, perm)), names[Dir(e, i) := q];
    assert Holds(t, Root(e), t.pgdir[e]);
    forall r, p ensures Holds(t', r, p) <==> r in names' && names'[r] == p {
      if r.Root? || r.env != e || r.pdx != i {
        SetDirAt(t, names, e, i, Present(q, perm), r, p);
      } else {
        assert DirEntry(t', e, i) == Present(q, perm);
        assert t'.table[q] == t.table[q];
        UnlinkedLeaf(t, names, r, p);
      }
    }
  }

  lemma UnlinkedLeaf(t: Tables, names: map<Ref, nat>, r: Ref, p: nat)
    requires Describes(names, t) && !r.Root? && Dir(r.env, r.pdx) !in names
    ensures !Holds(t, r, p)
  {
    if DirEntry(t, r.env, r.pdx).Present? {
      assert Holds(t, Dir(r.env, r.pdx), DirEntry(t, r.env, r.pdx).page);
    }
  }

  // Changing only the permission bits of a directory entry changes no reference.
  lemma SetDirPerm(t: Tables, names: map<Ref, nat>, e: nat, i: nat, perm: nat)
    requires Describes(names, t) && Formed(t, names) && Dir(e, i) in names
    ensures e in t.pgdir && i < UPDE
    ensures var t' := SetEntry(t, t.pgdir[e], i, Present(names[Dir(e, i)], perm));
            Describes(names, t') && Formed(t', names)
  {
    assert Holds(t, Dir(e, i), names[Dir(e, i)]);
    assert Holds(t, Root(e), t.pgdir[e]);
    var t' := SetEntry(t, t.pgdir[e], i, Present(names[Dir(e, i)], perm));
    forall r, p ensures Holds(t', r, p) <==> Holds(t, r, p) {
      if r.Root? || r.env != e || r.pdx != i {
        SetDirAt(t, names, e, i, Present(names[Dir(e, i)], perm), r, p);
      } else {
        assert t'.table[names[Dir(e, i)]] == t.table[names[Dir(e, i)]];
      }
    }
  }

  // Unlinking a page table whose entries are all gone drops its directory reference only.
  lemma UnlinkTable(t: Tables, names: map<Ref, nat>, e: nat, i: nat)
    requires Describes(names, t) && Formed(t, names) && Dir(e, i) in names
    requires forall j :: Leaf(e, i, j) !in names
    ensures e in t.pgdir && i < UPDE
    ensures var t', names' := SetEntry(t, t.pgdir[e], i, Absent), names - {Dir(e, i)};
            Describes(names', t') && Formed(t', names')
  {
    assert Holds(t, Dir(e, i), names[Dir(e, i)]);
    assert Holds(t, Root(e), t.pgdir[e]);
    var t', names' := SetEntry(t, t.pgdir[e], i, Absent), names - {Dir(e, i)};
    forall r, p ensures Holds(t', r, p) <==> r in names' && names'[r] == p {
      if r.Root? || r.env != e || r.pdx != i {
        SetDirAt(t, names, e, i, Absent, r, p);
      } else {
        assert DirEntry(t', e, i) == Absent;
      }
    }
  }

  lemma LinkRoot(t: Tables, names: map<Ref, nat>, e: nat, q: nat)
    requires Describes(names, t) && Formed(t, names) && e !in t.pgdir
    requires Unnamed(names, q) && q in t.table && t.table[q] == seq(NPTE, k => Absent)
    ensures var t', names' := t.(pgdir := t.pgdir[e := q]), names[Root(e) := q];
            Describes(names', t') && Formed(t', names')
  {
    var t', names' := t.(pgdir := t.pgdir[e := q]), names[Root(e) := q];
    assert Root(e) in names ==> Holds(t, Root(e), names[Root(e)]);
    forall r, p ensures Holds(t', r, p) <==> r in names' && names'[r] == p {
      if r.env != e {
        assert Holds(t', r, p) <==> Holds(t, r, p);
      } else {
        assert Holds(t, r, p) <==> r in names && names[r] == p;
      }
    }
  }

  lemma UnlinkRoot(t: Tables, names: map<Ref, nat>, e: nat)
    requires Describes(names, t) && Formed(t, names) && e in t.pgdir
    requires forall i :: Dir(e, i) !in names
    ensures Root(e) in names && names[Root(e)] == t.pgdir[e]
    ensures var t', names' := t.(pgdir := t.pgdir - {e}), names - {Root(e)};
            Describes(names', t') && Formed(t', names')
  {
    assert Holds(t, Root(e), t.pgdir[e]);
    var t', names' := t.(pgdir := t.pgdir - {e}), names - {Root(e)};
    forall r, p ensures Holds(t', r, p) <==> r in names' && names'[r] == p {
      if r.env != e {
        assert Holds(t', r, p) <==> Holds(t, r, p);
      } else if !r.Root? {
        UnlinkedLeaf(t, names, r, p);
      }
    }
  }

  // Whatever a program stores into a page it has mapped, no directory, table or reference changes.
  lemma UserStoresAreIsolated(t: Tables, names: map<Ref, nat>, leaf: Ref, bytes: seq<Entry>)
    requires Describes(names, t) && Formed(t, names) && leaf.Leaf? && leaf in names
    ensures var t' := t.(table := t.table[names[leaf] := bytes]); Describes(names, t') && Formed(t', names)
  {
    var t' := t.(table := t.table[names[leaf] := bytes]);
    forall r, p ensures Holds(t', r, p) <==> Holds(t, r, p) {
      KeepsAt(t, names, t', r, p);
    }
    forall e | e in t.pgdir ensures t.pgdir[e] in t'.table && |t'.table[t.pgdir[e]]| == NPTE {
      assert Holds(t, Root(e), t.pgdir[e]);
    }
  }

  // ----- Reference counts and the free list -----

  ghost predicate CountsRight(names: map<Ref, nat>, ref: seq<nat>, reserved: set<nat>) {
    && (forall p :: p in reserved ==> p < |ref|)
    && (forall r :: r in names ==> names[r] < |ref| && (names[r] in reserved ==> r.Leaf?))
    && (forall p :: 0 <= p < |ref| ==> ref[p] == |Refs(names, p)| + (if p in reserved then 1 else 0))
  }

  // The list holds, once each, the pages with count zero that nobody is holding between allocation and first use.
  ghost predicate ListRight(ref: seq<nat>, freeList: seq<nat>, held: set<nat>) {
    && (forall i, j :: 0 <= i < j < |freeList| ==> freeList[i] != freeList[j])
    && (forall p :: p in freeList <==> 0 <= p < |ref| && ref[p] == 0 && p !in held)
    && (forall p :: p in held ==> p < |ref| && ref[p] == 0)
  }

  lemma CountUp(names: map<Ref, nat>, ref: seq<nat>, reserved: set<nat>, r: Ref, p: nat)
    requires CountsRight(names, ref, reserved) && r !in names && p < |ref| && (p in reserved ==> r.Leaf?)
    ensures CountsRight(names[r := p], ref[p := ref[p] + 1], reserved)
  {
    forall q | 0 <= q < |ref|
      ensures ref[p := ref[p] + 1][q] == |Refs(names[r := p], q)| + (if q in reserved then 1 else 0)
    {
      AddRef(names, r, p, q);
    }
  }

  lemma CountDown(names: map<Ref, nat>, ref: seq<nat>, reserved: set<nat>, r: Ref)
    requires CountsRight(names, ref, reserved) && r in names
    ensures ref[names[r]] >= 1
    ensures CountsRight(names - {r}, ref[names[r] := ref[names[r]] - 1], reserved)
  {
    DropRef(names, r, names[r]);
    assert r in Refs(names, names[r]);
    forall q | 0 <= q < |ref|
      ensures ref[names[r] := ref[names[r]] - 1][q] == |Refs(names - {r}, q)| + (if q in reserved then 1 else 0)
    {
      DropRef(names, r, q);
    }
  }

  lemma ZeroCountUnnamed(names: map<Ref, nat>, ref: seq<nat>, reserved: set<nat>, p: nat)
    requires CountsRight(names, ref, reserved) && p < |ref| && ref[p] == 0
    ensures Unnamed(names, p) && p !in reserved
  {
    NoRefs(names, p);
  }

  // Or-ing the permissions into the entries of page and of its page table leaves both page numbers alone.
  predicate Harmless(page: nat, pt: nat, perm: nat) {
    BitOr(page, perm / PTE_BITS) == page && BitOr(pt, perm / PTE_BITS) == pt
  }

  lemma LowBitsHarmless(page: nat, pt: nat, perm: nat)
    requires perm < PTE_BITS
    ensures Harmless(page, pt, perm)
  {
    BitOrZero(page);
    BitOrZero(pt);
  }

  // One when a is b.
  function Is(a: nat, b: nat): nat {
    if a == b then 1 else 0
  }

  lemma MoveRef(names: map<Ref, nat>, r: Ref, p: nat, q: nat)
    requires r in names
    ensures |Refs(names[r := p], q)| == |Refs(names, q)| - Is(names[r], q) + Is(p, q)
  {
    DropRef(names, r, q);
    AddRef(names - {r}, r, p, q);
    assert (names - {r})[r := p] == names[r := p];
  }

  // page_insert has counted a reference to page at leaf, whose page table is that of dir; then it stores two words. The
  // counts are right for the pages that the words name exactly if the permissions change neither page number.
  lemma InsertCountsIff(names: map<Ref, nat>, ref: seq<nat>, reserved: set<nat>, leaf: Ref, dir: Ref, perm: nat)
    requires CountsRight(names, ref, reserved) && leaf in names && dir in names && leaf.Leaf? && dir.Dir?
    ensures var h, page, pt := perm / PTE_BITS, names[leaf], names[dir];
            CountsRight(names[leaf := BitOr(page, h)][dir := BitOr(pt, h)], ref, reserved) <==> Harmless(page, pt, perm)
  {
    var h, page, pt := perm / PTE_BITS, names[leaf], names[dir];
    var page', pt' := BitOr(page, h), BitOr(pt, h);
    var names' := names[leaf := page'][dir := pt'];
    if CountsRight(names', ref, reserved) {
      BitOrGrows(page, h);
      BitOrGrows(pt, h);
      assert names'[leaf] == page' && names'[dir] == pt';
      SameCounts(names, leaf, page', dir, pt', ref, reserved, page);
      SameCounts(names, leaf, page', dir, pt', ref, reserved, pt);
    } else {
      assert Harmless(page, pt, perm) ==> names' == names;
    }
  }

  lemma SameCounts(names: map<Ref, nat>, leaf: Ref, page': nat, dir: Ref, pt': nat, ref: seq<nat>, reserved: set<nat>,
                   q: nat)
    requires leaf in names && dir in names && leaf != dir && q < |ref|
    requires CountsRight(names, ref, reserved) && CountsRight(names[leaf := page'][dir := pt'], ref, reserved)
    ensures Is(page', q) + Is(pt', q) == Is(names[leaf], q) + Is(names[dir], q)
  {
    MoveRef(names, leaf, page', q);
    MoveRef(names[leaf := page'], dir, pt', q);
  }

  // The tables after the two stores of page_insert.
  function Inserted(t: Tables, e: nat, i: nat, j: nat, pt: nat, page: nat, perm: nat): Tables
    requires pt in t.table && j < |t.table[pt]| && e in t.pgdir && t.pgdir[e] in t.table && t.pgdir[e] != pt
    requires i < |t.table[t.pgdir[e]]| && t.table[t.pgdir[e]][i].Present?
  {
    var t1 := SetEntry(t, pt, j, NewEntry(page, perm));
    SetEntry(t1, t.pgdir[e], i, Ored(t.table[t.pgdir[e]][i], perm))
  }

  lemma InsertedWellDefined(t: Tables, names: map<Ref, nat>, e: nat, i: nat)
    requires Describes(names, t) && Formed(t, names) && Dir(e, i) in names
    ensures e in t.pgdir && i < UPDE && t.pgdir[e] in t.table && |t.table[t.pgdir[e]]| == NPTE
    ensures t.pgdir[e] != names[Dir(e, i)] && names[Dir(e, i)] in t.table && |t.table[names[Dir(e, i)]]| == NPTE
    ensures t.table[t.pgdir[e]][i].Present? && t.table[t.pgdir[e]][i].page == names[Dir(e, i)]
  {
    DirHasRoot(t, names, e, i);
    OtherDirectory(t, names, e, i, e);
  }

  // Where the permissions are harmless, the two stores make the one mapping asked for.
  lemma InsertedMaps(t: Tables, names: map<Ref, nat>, e: nat, i: nat, j: nat, page: nat, perm: nat)
    requires Describes(names, t) && Formed(t, names) && Dir(e, i) in names && j < NPTE
    requires (forall r :: r in names && names[r] == page ==> r.Leaf?) && Harmless(page, names[Dir(e, i)], perm)
    ensures e in t.pgdir && t.pgdir[e] in t.table
    ensures var pt, names' := names[Dir(e, i)], names[Leaf(e, i, j) := page];
            && pt in t.table && j < |t.table[pt]| && t.pgdir[e] != pt && i < |t.table[t.pgdir[e]]|
            && t.table[t.pgdir[e]][i].Present?
            && var t' := Inserted(t, e, i, j, pt, page, perm);
               && Describes(names', t') && Formed(t', names') && LeavesKept(t, t', e, i, j)
               && LeafEntry(t', e, i, j) == Present(page, BitOr(PTE_P, perm % PTE_BITS))
  {
    InsertedWellDefined(t, names, e, i);
    var pt, names', entry := names[Dir(e, i)], names[Leaf(e, i, j) := page], NewEntry(page, perm);
    SetLeaf(t, names, e, i, j, entry);
    SetLeafFormed(t, names, e, i, j, entry);
    SetLeafKeeps(t, names, e, i, j, entry);
    var t1, wider := SetEntry(t, pt, j, entry), Ored(t.table[t.pgdir[e]][i], perm);
    SetDirPerm(t1, names', e, i, wider.perm);
    var t' := Inserted(t, e, i, j, pt, page, perm);
    forall f: nat, k: nat, l: nat ensures LeafKept(t1, t', f, k, l) {
      SetDirPermKeeps(t1, names', e, i, wider.perm, f, k, l);
    }
    KeptThenSame(t, t1, t', e, i, j);
  }

  // Where they are not, the tables do not say what was asked for.
  lemma InsertedMisnames(t: Tables, names: map<Ref, nat>, e: nat, i: nat, j: nat, page: nat, perm: nat)
    requires Describes(names, t) && Formed(t, names) && Dir(e, i) in names && j < NPTE
    requires !Harmless(page, names[Dir(e, i)], perm)
    ensures e in t.pgdir && t.pgdir[e] in t.table
    ensures var pt := names[Dir(e, i)];
            && pt in t.table && j < |t.table[pt]| && t.pgdir[e] != pt && i < |t.table[t.pgdir[e]]|
            && t.table[t.pgdir[e]][i].Present?
            && !Describes(names[Leaf(e, i, j) := page], Inserted(t, e, i, j, pt, page, perm))
  {
    InsertedWellDefined(t, names, e, i);
    var pt, names' := names[Dir(e, i)], names[Leaf(e, i, j) := page];
    var t' := Inserted(t, e, i, j, pt, page, perm);
    assert DirEntry(t', e, i) == Ored(t.table[t.pgdir[e]][i], perm);
    assert Holds(t', Dir(e, i), BitOr(pt, perm / PTE_BITS));
    if BitOr(pt, perm / PTE_BITS) == pt {
      assert LeafEntry(t', e, i, j) == NewEntry(page, perm);
      assert Holds(t', Leaf(e, i, j), BitOr(page, perm / PTE_BITS));
    }
  }

  // An odd page in an even page table, with permission 0x1000: the entry of the page is right, and the directory entry
  // names another page table.
  lemma DirectoryGoesAstray(names: map<Ref, nat>, ref: seq<nat>, reserved: set<nat>, leaf: Ref, dir: Ref)
    requires CountsRight(names, ref, reserved) && leaf in names && dir in names && leaf.Leaf? && dir.Dir?
    requires names[leaf] == 1 && names[dir] == 2
    ensures NewEntry(1, 0x1000).page == 1 && Ored(Present(2, 7), 0x1000).page == 3
    ensures !CountsRight(names[leaf := 1][dir := 3], ref, reserved)
  {
    BitOrZero(1);
    assert BitOr(1, 1) == 1 && BitOr(2, 1) == 3 by { assert BitOr(0, 0) == 0 && BitOr(1, 0) == 1; }
    InsertCountsIff(names, ref, reserved, leaf, dir, 0x1000);
  }

  lemma ListAfterDecref(ref: seq<nat>, freeList: seq<nat>, held: set<nat>, p: nat)
    requires ListRight(ref, freeList, held) && p < |ref| && ref[p] >= 1
    ensures ListRight(ref[p := ref[p] - 1], if ref[p] == 1 then [p] + freeList else freeList, held)
  {
    var list := if ref[p] == 1 then [p] + freeList else freeList;
    forall q ensures q in list <==> 0 <= q < |ref| && ref[p := ref[p] - 1][q] == 0 && q !in held {
    }
  }

  // The head of the list is taken off and held.
  lemma ListAfterTake(ref: seq<nat>, freeList: seq<nat>, held: set<nat>, q: nat, rest: seq<nat>)
    requires ListRight(ref, freeList, held) && freeList == [q] + rest
    ensures q < |ref| && ref[q] == 0 && q !in held && ListRight(ref, rest, held + {q})
  {
    assert q in freeList && freeList[0] == q;
    assert forall i :: 0 <= i < |rest| ==> rest[i] == freeList[i + 1];
    forall p ensures p in rest <==> p in freeList && p != q {
      if p in rest { var i :| 0 <= i < |rest| && rest[i] == p; }
    }
  }

  lemma ListAfterIncref(ref: seq<nat>, freeList: seq<nat>, held: set<nat>, p: nat)
    requires ListRight(ref, freeList, held) && p < |ref| && (ref[p] >= 1 || p in held)
    ensures ListRight(ref[p := ref[p] + 1], freeList, held - {p})
  {
  }

  lemma LeafHasTable(t: Tables, names: map<Ref, nat>, e: nat, i: nat, j: nat)
    requires Describes(names, t) && Leaf(e, i, j) in names
    ensures Dir(e, i) in names && e in t.pgdir && i < UPDE && j < NPTE
    ensures LeafEntry(t, e, i, j).Present? && LeafEntry(t, e, i, j).page == names[Leaf(e, i, j)]
    ensures t.pgdir[e] in t.table && DirEntry(t, e, i) == t.table[t.pgdir[e]][i]
    ensures DirEntry(t, e, i).Present? && DirEntry(t, e, i).page == names[Dir(e, i)]
  {
    assert Holds(t, Leaf(e, i, j), names[Leaf(e, i, j)]);
    assert Holds(t, Dir(e, i), DirEntry(t, e, i).page);
  }

  lemma DirHasRoot(t: Tables, names: map<Ref, nat>, e: nat, i: nat)
    requires Describes(names, t) && Dir(e, i) in names
    ensures e in t.pgdir && i < UPDE && t.pgdir[e] in t.table && i < |t.table[t.pgdir[e]]|
    ensures t.table[t.pgdir[e]][i].Present? && t.table[t.pgdir[e]][i].page == names[Dir(e, i)]
  {
    assert Holds(t, Dir(e, i), names[Dir(e, i)]);
  }

  // The references left when env_free has finished with the directory entries of e below i, and in entry i with the
  // page-table entries below j.
  ghost predicate Freed(r: Ref, e: nat, i: nat, j: nat) {
    r.env == e && match r
                  case Root(_) => false
                  case Dir(_, k) => k < i
                  case Leaf(_, k, l) => k < i || (k == i && l < j)
  }

  ghost function Remaining(names: map<Ref, nat>, e: nat, i: nat, j: nat): map<Ref, nat> {
    map r | r in names && !Freed(r, e, i, j) :: names[r]
  }

  lemma RemainingLeaf(names: map<Ref, nat>, e: nat, i: nat, j: nat)
    ensures Remaining(names, e, i, j + 1) == Remaining(names, e, i, j) - {Leaf(e, i, j)}
  {
  }

  // Indices are in range, and leaves exist only under present directory entries.
  ghost predicate InRange(names: map<Ref, nat>) {
    && (forall r :: r in names && !r.Root? ==> r.pdx < UPDE)
    && (forall r :: r in names && r.Leaf? ==> r.ptx < NPTE && Dir(r.env, r.pdx) in names)
  }

  lemma DescribedInRange(t: Tables, names: map<Ref, nat>)
    requires Describes(names, t)
    ensures InRange(names)
  {
    forall r | r in names
      ensures !r.Root? ==> r.pdx < UPDE
      ensures r.Leaf? ==> r.ptx < NPTE && Dir(r.env, r.pdx) in names
    {
      assert Holds(t, r, names[r]);
      if r.Leaf? { LeafHasTable(t, names, r.env, r.pdx, r.ptx); }
    }
  }

  lemma RemainingDir(names: map<Ref, nat>, e: nat, i: nat)
    requires InRange(names)
    ensures Remaining(names, e, i + 1, 0) == Remaining(names, e, i, NPTE) - {Dir(e, i)}
    ensures forall j :: Leaf(e, i, j) !in Remaining(names, e, i, NPTE)
  {
  }

  lemma RemainingSkip(names: map<Ref, nat>, e: nat, i: nat)
    requires InRange(names) && Dir(e, i) !in names
    ensures Remaining(names, e, i + 1, 0) == Remaining(names, e, i, 0)
  {
    forall r | r in names ensures Freed(r, e, i + 1, 0) <==> Freed(r, e, i, 0) {
      if r.Leaf? { assert Dir(r.env, r.pdx) in names; }
    }
  }

  lemma RemainingRoot(names: map<Ref, nat>, e: nat)
    requires InRange(names)
    ensures Remaining(names, e, UPDE, 0) - {Root(e)} == map r | r in names && r.env != e :: names[r]
    ensures forall i :: Dir(e, i) !in Remaining(names, e, UPDE, 0)
  {
  }
}
