// What each call returns, in the numbers its callers see: types, sizes, names and return codes written out.

module FsReturns {
  import opened Bits
  import opened Bytes
  import opened Format
  import opened Tree
  import opened FsModel
  import opened FsInv
  import opened FsLookup
  import opened FsCreat
  import opened FsWrite
  import opened FsAppend
  import opened FsRead
  import opened FsAnswers
  import opened FsCommit
  import opened FsUnlinkModel
  import opened FsMarks
  import opened FsForest

  // ---------- read ----------

  // In every state: outside the file, or of nothing, or in no file, -1 and no byte.
  lemma ReadRefused(st: State, i: I32, offset: I32, nbytes: I32)
    requires !Allocated(st, i) || offset < 0 || nbytes <= 0 || offset + nbytes > st.m.inodes[i].size
    ensures Read(st, i, offset, nbytes) == ReadResult(Ret(-1), [])
  {
  }

  // Any read of a file of the tree: 0 and the bytes exactly when all of the range lies in the file, else -1.
  lemma FileReads(st: State, t: Tree, i: I32, offset: I32, nbytes: I32)
    requires Shows(st.s, st.m, st.disk, t) && i in t && t[i].File?
    ensures Read(st, i, offset, nbytes) ==
            if 0 <= offset && 0 < nbytes && offset + nbytes <= |t[i].data|
            then ReadResult(Ret(0), t[i].data[offset..offset + nbytes]) else ReadResult(Ret(-1), [])
  {
    hide Read;
    assert ShowsAt(st.s, st.m, st.disk, t, i);
    if 0 <= offset && 0 < nbytes && offset + nbytes <= |t[i].data| {
      ReadFile(st, t, i, offset, nbytes);
    } else {
      ReadRefused(st, i, offset, nbytes);
    }
  }

  lemma FileSizes(st: State, t: Tree, i: I32)
    requires Shows(st.s, st.m, st.disk, t) && i in t && t[i].File?
    ensures |t[i].data| <= 122880
  {
    assert ShowsAt(st.s, st.m, st.disk, t, i);
  }

  // Reading a file byte by byte goes on exactly as long as there are bytes.
  lemma ByteReads(st: State, t: Tree, i: I32, offset: I32)
    requires Shows(st.s, st.m, st.disk, t) && i in t && t[i].File?
    ensures Read(st, i, offset, 1).out == Ret(0) <==> 0 <= offset < |t[i].data|
    ensures Read(st, i, offset, 1).out == Ret(0) ==> Read(st, i, offset, 1).data == [t[i].data[offset]]
    ensures Read(st, i, offset, 1).out != Ret(0) ==> Read(st, i, offset, 1) == ReadResult(Ret(-1), [])
  {
    hide Read, Shows;
    FileReads(st, t, i, offset, 1);
  }

  lemma EntryShown(st: State, t: Tree, d: I32, e: nat)
    requires Shows(st.s, st.m, st.disk, t) && IsDir(t, d) && e < |t[d].entries|
    ensures Allocated(st, d) && st.m.inodes[d].kind == DIRECTORY && st.m.inodes[d].size == 32 * |t[d].entries|
    ensures e < DIRECT_PTRS * ENTRIES && RangeReadable(st.disk, st.m.inodes[d], 32 * e, 32)
    ensures EntryAt(st.disk, st.m.inodes[d], e) == t[d].entries[e]
  {
    assert ShowsAt(st.s, st.m, st.disk, t, d);
    BackedReadable(st.s, st.disk, st.m.inodes[d], 32 * e, 32);
  }

  lemma EntryRange(d: seq<Byte>, ino: Inode, e: nat)
    requires e < DIRECT_PTRS * ENTRIES && RangeReadable(d, ino, 32 * e, 32)
    ensures DecodeEntry(Range(d, ino, 32 * e, 32)) == EntryAt(d, ino, e)
  {
    hide DecodeEntry, PtrBlock;
    var p := ino.direct[e / ENTRIES];
    assert 32 * e / BLOCK == e / ENTRIES && Readable(d, p);
    forall j | 0 <= j < 32
      ensures Range(d, ino, 32 * e, 32)[j] == SlotBytes(PtrBlock(d, p), e % ENTRIES)[j]
    {
      assert (32 * e + j) / BLOCK == e / ENTRIES && (32 * e + j) % BLOCK == 32 * (e % ENTRIES) + j;
    }
    assert Range(d, ino, 32 * e, 32) == SlotBytes(PtrBlock(d, p), e % ENTRIES);
  }

  lemma DirInode(st: State, t: Tree, d: I32)
    requires Shows(st.s, st.m, st.disk, t) && IsDir(t, d)
    ensures Allocated(st, d) && st.m.inodes[d].kind == 0 && st.m.inodes[d].size == 32 * |t[d].entries| <= 122880
  {
    assert ShowsAt(st.s, st.m, st.disk, t, d);
  }

  // Reading a directory entry by entry gives its entries in their order, and -1 behind the last.
  lemma EntryReads(st: State, t: Tree, d: I32, e: nat)
    requires Shows(st.s, st.m, st.disk, t) && IsDir(t, d) && 32 * e < 0x8000_0000
    ensures Allocated(st, d) && |t[d].entries| <= 3840
    ensures if e < |t[d].entries|
            then Read(st, d, 32 * e, 32).out == Ret(0) && |Read(st, d, 32 * e, 32).data| == 32
                 && DecodeEntry(Read(st, d, 32 * e, 32).data) == t[d].entries[e]
            else Read(st, d, 32 * e, 32) == ReadResult(Ret(-1), [])
  {
    hide Read, Shows, DecodeEntry, EntryAt;
    DirInode(st, t, d);
    if e < |t[d].entries| {
      EntryShown(st, t, d, e);
      ReadIs(st, d, 32 * e, 32);
      EntryRange(st.disk, st.m.inodes[d], e);
    } else {
      ReadRefused(st, d, 32 * e, 32);
    }
  }

  // ---------- lookup, and the names "." and ".." ----------

  // Which error code, for which inode.
  lemma LookupCodes(st: State, t: Tree, u: Tree, p: I32, name: Name)
    requires Grown(st, t, u)
    ensures Lookup(st, p, name) == Ret(-2) <==> p < 0 || st.s.numInodes <= p
    ensures Lookup(st, p, name) == Ret(-3) <==> 0 <= p < st.s.numInodes && !Get(st.m.ibm, p)
    ensures Lookup(st, p, name) == Ret(-4) <==> Allocated(st, p) && st.m.inodes[p].kind != 0
  {
    hide Lookup, TreeOK;
    ShownAnswers(st, u, p, name);
    if p in u {
      assert ShowsAt(st.s, st.m, st.disk, u, p);
      assert IsDir(u, p) ==> LiveEntries(u[p].entries);
    } else {
      assert Live(st.m, p) ==> Stuck(st.m, p);
    }
  }

  lemma DotsFound(t: Tree, d: I32)
    requires TreeOK(t) && IsDir(t, d)
    ensures Find(t[d].entries, [46]) == d && Find(t[d].entries, [46, 46]) == Parent(t, d)
  {
    assert DirShape(t, d);
    var es := t[d].entries;
    assert es[1..][0] == es[1];
  }

  // In every directory of the tree "." is the directory and ".." its parent.
  lemma LookupDots(st: State, t: Tree, u: Tree, d: I32)
    requires Grown(st, t, u) && IsDir(t, d)
    ensures Lookup(st, d, [46]) == Ret(d) && Lookup(st, d, [46, 46]) == Ret(Parent(t, d))
  {
    hide Lookup, TreeOK, Find, Shows, AllocOK;
    DotsFound(t, d);
    ShownAnswers(st, u, d, [46]);
    ShownAnswers(st, u, d, [46, 46]);
  }

  lemma ParentInside(t: Tree, d: I32)
    requires TreeOK(t) && IsDir(t, d)
    ensures d >= 0 && Parent(t, d) >= 0
  {
    assert DirShape(t, d) && DirShape(t, Parent(t, d));
  }

  // Neither name can be unlinked anywhere, nor created in a directory of the tree.
  lemma DotsRefused(st: State, t: Tree, u: Tree, d: I32, name: Name, kind: I32, base: nat, junk: Junk)
    requires Grown(st, t, u) && IsDir(t, d) && name in {[46], [46, 46]} && JunkOK(junk)
    ensures Creat(st, d, kind, name, junk) == Step(Ret(-1), st, [])
    ensures Unlink(st, d, name, base, junk) == Step(Ret(-1), st, [])
  {
    hide TreeOK, Find, Shows, AllocOK, Lookup, CreatClaimed, DropChild, DropEntry;
    DotsFound(t, d);
    assert d >= 0 && Parent(t, d) >= 0 by {
      ParentInside(t, d);
    }
    assert IsDir(u, d) && LiveEntries(u[d].entries);
    CreatChecks(st, u, d, kind, name, junk);
  }

  // ---------- creat ----------

  // In every state, whatever else holds: no directory to put it in, or a name that does not fit.
  lemma CreatRefused(st: State, p: I32, kind: I32, name: Name, junk: Junk)
    requires JunkOK(junk) && (!Allocated(st, p) || st.m.inodes[p].kind != 0 || |name| > 27)
    ensures Creat(st, p, kind, name, junk) == Step(Ret(-1), st, [])
  {
  }

  // In a directory of the tree: 0 exactly for a new name of at most 27 bytes, with an inode free, fewer than 3840
  // entries there, and a block free for each that is needed; else -1.
  lemma CreatReturns(st: State, t: Tree, u: Tree, p: I32, kind: I32, name: Name, junk: Junk)
    requires Grown(st, t, u) && IsDir(u, p) && JunkOK(junk)
    ensures Creat(st, p, kind, name, junk).out == Ret(0) <==>
            && |name| <= 27 && Find(u[p].entries, name) == -1
            && (exists e: nat :: e < st.s.numInodes && !Get(st.m.ibm, e))
            && |u[p].entries| < 3840
            && (if kind == 0 then 1 else 0) + (if |u[p].entries| % 128 == 0 then 1 else 0)
               <= FreeBlocks(st.m.dbm, 0, st.s.numData)
    ensures Creat(st, p, kind, name, junk).out in {Ret(0), Ret(-1)}
  {
    hide Creat, Find, Shows, AllocOK, TreeOK, FreeBlocks;
    assert LiveEntries(u[p].entries);
    CreatAnywhere(st, u, p, kind, name, junk);
    var e := FirstClear(st.m.ibm, 0, st.s.numInodes);
    assert e != -1 ==> !Get(st.m.ibm, e);
  }

  lemma LinkTakes(st: State, p: I32, ent: DirEnt, full: bool, b: int, junk: Junk, n: nat)
    requires InRange(st, p) && -1 <= b < st.s.numData && JunkOK(junk) && |ent.name| < NAME_SIZE
    requires full ==> FirstNone(st.m.inodes[p].direct, 0) == n / ENTRIES && n < DIRECT_PTRS * ENTRIES
    requires Link(st, p, ent, full, b, junk).out == Ret(0)
    ensures full ==> b != -1
    ensures var m' := Link(st, p, ent, full, b, junk).st.m;
      && m'.dbm == (if full then Set(st.m.dbm, b) else st.m.dbm)
      && (full ==> m'.inodes[p].direct[n / ENTRIES] == st.s.dataRegionAddr + b)
      && forall j :: 0 <= j < st.s.numInodes && j != p ==> m'.inodes[j] == st.m.inodes[j]
  {
    hide FirstNone, FindSlot, EncodeEntry, DirBlock, Splice;
  }

  lemma PlaceTakes(st: State, p: I32, kind: I32, ent: DirEnt, full: bool, b: int, b2: int, junk: Junk, n: nat)
    requires InRange(st, p) && InRange(st, ent.inum) && p != ent.inum && JunkOK(junk) && |ent.name| < NAME_SIZE
    requires -1 <= b < st.s.numData && -1 <= b2 < st.s.numData
    requires full ==> FirstNone(st.m.inodes[p].direct, 0) == n / ENTRIES && n < DIRECT_PTRS * ENTRIES
    requires Place(st, p, kind, ent, full, b, b2, junk).out == Ret(0)
    ensures kind == DIRECTORY ==> b != -1 && (full ==> b2 != -1)
    ensures kind != DIRECTORY && full ==> b != -1
    ensures var m' := Place(st, p, kind, ent, full, b, b2, junk).st.m;
      && (kind != DIRECTORY ==> m'.dbm == if full then Set(st.m.dbm, b) else st.m.dbm)
      && (kind == DIRECTORY ==> m'.inodes[ent.inum].direct[0] == st.s.dataRegionAddr + b)
      && (kind == DIRECTORY ==> m'.dbm == if full then Set(Set(st.m.dbm, b), b2) else Set(st.m.dbm, b))
      && (full ==> m'.inodes[p].direct[n / ENTRIES] == st.s.dataRegionAddr + if kind == DIRECTORY then b2 else b)
  {
    hide Link, FirstNone, DirBlock, Splice;
    if kind != DIRECTORY {
      LinkTakes(PutInode(st, ent.inum, st.m.inodes[ent.inum].(size := 0)), p, ent, full, b, junk, n);
    } else {
      LinkTakes(MakeDir(st, ent.inum, p, b, junk).st, p, ent, full, b2, junk, n);
    }
  }

  // The blocks a creat takes: the first free one for a new directory, and the first after that for a new block of
  // the parent.
  lemma CreatTakes(st: State, t: Tree, u: Tree, p: I32, kind: I32, name: Name, junk: Junk) returns (m': Meta)
    requires Grown(st, t, u) && CanCreate(st, u, p, kind, name) && JunkOK(junk)
    ensures m' == Creat(st, p, kind, name, junk).st.m && InRange(st, p)
    ensures
      var e, n := FirstClear(st.m.ibm, 0, st.s.numInodes), |u[p].entries|;
      var b, b2 := FirstClear(st.m.dbm, 0, st.s.numData), SecondClear(st.m.dbm, st.s.numData);
      && InRange(st, e) && n < 3840
      && (kind != 0 && n % 128 != 0 ==> m'.dbm == st.m.dbm)
      && (kind != 0 && n % 128 == 0 ==>
            b != -1 && m'.dbm == Set(st.m.dbm, b) && m'.inodes[p].direct[n / 128] == st.s.dataRegionAddr + b)
      && (kind == 0 ==> b != -1 && m'.inodes[e].direct[0] == st.s.dataRegionAddr + b)
      && (kind == 0 && n % 128 != 0 ==> m'.dbm == Set(st.m.dbm, b))
      && (kind == 0 && n % 128 == 0 ==> b2 != -1 && m'.dbm == Set(Set(st.m.dbm, b), b2)
                                        && m'.inodes[p].direct[n / 128] == st.s.dataRegionAddr + b2)
  {
    hide Creat, FullScan, Link, FirstNone, Refines, TreeOK, FreeBlocks;
    var e, n := FirstClear(st.m.ibm, 0, st.s.numInodes), |u[p].entries|;
    assert LiveEntries(u[p].entries) && |name| <= 27;
    CreatAnywhere(st, u, p, kind, name, junk);
    CreatChecks(st, u, p, kind, name, junk);
    ClaimKeeps(st, u, e, kind);
    var st1 := ClaimInode(st, e, kind);
    ScanTells(st1, u, p, DirEnt(name, e));
    if n % ENTRIES == 0 {
      FullDir(st1, u, p, DirEnt(name, e));
    }
    m' := Creat(st, p, kind, name, junk).st.m;
    PlaceTakes(st1, p, kind, DirEnt(name, e), n % ENTRIES == 0, FirstClear(st.m.dbm, 0, st.s.numData),
               SecondClear(st.m.dbm, st.s.numData), junk, n);
  }

  // The inode it makes: of the type asked for; a directory of 64 bytes in one block, or an empty file; every pointer
  // that is not used is 0xFFFFFFFF.
  lemma CreatMakes(st: State, t: Tree, u: Tree, p: I32, kind: I32, name: Name, junk: Junk) returns (ino: Inode)
    requires Grown(st, t, u) && CanCreate(st, u, p, kind, name) && JunkOK(junk)
    ensures InRange(st, FirstClear(st.m.ibm, 0, st.s.numInodes))
    ensures ino == Creat(st, p, kind, name, junk).st.m.inodes[FirstClear(st.m.ibm, 0, st.s.numInodes)]
    ensures ino.kind == kind && ino.size == if kind == 0 then 64 else 0
    ensures forall k {:trigger ino.direct[k]} :: 0 <= k < 30 && (k > 0 || kind != 0) ==> ino.direct[k] == 0xFFFF_FFFF
    ensures kind == 0 ==> ino.direct[0] != 0xFFFF_FFFF
  {
    hide Creat, TreeOK, FreeBlocks, AllocOK, EntryAt, ByteAt, Compact, CanCreate, Stuck;
    var e := FirstClear(st.m.ibm, 0, st.s.numInodes);
    var r, t', u' := CreatGrows(st, t, u, p, kind, name, junk);
    assert u'[e] == NewNode(p, kind, e);
    assert ShowsAt(r.st.s, r.st.m, r.st.disk, u', e);
    ino := r.st.m.inodes[e];
  }

  lemma LeastFree(ws: seq<Word>, n: nat)
    requires n <= WORD_BITS * |ws|
    ensures var b, b2 := FirstClear(ws, 0, n), SecondClear(ws, n);
      && (b != -1 ==> FreeBlocks(Set(ws, b), 0, n) + 1 == FreeBlocks(ws, 0, n))
      && (b2 != -1 ==> b != -1 && FreeBlocks(Set(Set(ws, b), b2), 0, n) + 2 == FreeBlocks(ws, 0, n))
  {
    var b, b2 := FirstClear(ws, 0, n), SecondClear(ws, n);
    if b != -1 {
      FreeBlocksAfterSet(ws, 0, b, n);
      if b2 != -1 {
        FreeBlocksAfterSet(Set(ws, b), 0, b2, n);
      }
    }
  }

  lemma IsParent(st: State, u: Tree, p: I32, kind: I32, name: Name)
    requires CanCreate(st, u, p, kind, name)
    ensures IsDir(u, p)
  {
  }

  // And there are fewer free blocks by just those.
  lemma CreatCounts(st: State, t: Tree, u: Tree, p: I32, kind: I32, name: Name, junk: Junk)
    requires Grown(st, t, u) && CanCreate(st, u, p, kind, name) && JunkOK(junk)
    ensures FreeBlocks(Creat(st, p, kind, name, junk).st.m.dbm, 0, st.s.numData) + Needed(kind, |u[p].entries|)
            == FreeBlocks(st.m.dbm, 0, st.s.numData)
  {
    hide Creat, FreeBlocks, Grown, CanCreate, FirstClear, SecondClear, Set;
    IsParent(st, u, p, kind, name);
    var m' := CreatTakes(st, t, u, p, kind, name, junk);
    LeastFree(st.m.dbm, st.s.numData);
  }

  // What lookups in it answer: in a directory "." and ".." and nothing else, in a file never.
  lemma LookupInNew(st: State, t: Tree, u: Tree, p: I32, kind: I32, name: Name, junk: Junk, other: Name)
    returns (st1: State, e: I32)
    requires Good(st, t, u) && CanCreate(st, u, p, kind, name) && JunkOK(junk)
    ensures st1 == Finish(Creat(st, p, kind, name, junk)) && e == FirstClear(st.m.ibm, 0, st.s.numInodes)
    ensures Lookup(st1, p, name) == Ret(e)
    ensures kind == 0 ==> Lookup(st1, e, [46]) == Ret(e) && Lookup(st1, e, [46, 46]) == Ret(p)
    ensures kind == 0 && other != [46] && other != [46, 46] ==> Lookup(st1, e, other) == Ret(-1)
    ensures kind != 0 ==> Lookup(st1, e, other) == Ret(-4)
  {
    hide Creat, Lookup, Commit, Marked, Refines, TreeOK, Forest, Loose, AllPlaced, FreeBlocks;
    st1, e := Finish(Creat(st, p, kind, name, junk)), FirstClear(st.m.ibm, 0, st.s.numInodes);
    LookupAfterCreat(st, t, u, p, kind, name, junk, p, name);
    LookupAfterCreat(st, t, u, p, kind, name, junk, e, [46]);
    LookupAfterCreat(st, t, u, p, kind, name, junk, e, [46, 46]);
    LookupAfterCreat(st, t, u, p, kind, name, junk, e, other);
    ClaimKeeps(st, u, e, kind);
  }

  lemma LinkFails(st: State, p: I32, ent: DirEnt, full: bool, b: int, junk: Junk)
    requires InRange(st, p) && -1 <= b < st.s.numData && JunkOK(junk) && |ent.name| < NAME_SIZE
    requires Link(st, p, ent, full, b, junk).out == Ret(-1)
    ensures full && (b == -1 || st.m.inodes[p].size == MAX_SIZE)
    ensures Link(st, p, ent, full, b, junk).st.m == st.m && Link(st, p, ent, full, b, junk).pre == []
  {
    hide FirstNone, FindSlot, EncodeEntry, DirBlock, Splice;
  }

  lemma PlaceFails(st: State, p: I32, kind: I32, ent: DirEnt, full: bool, b: int, b2: int, junk: Junk)
    requires InRange(st, p) && InRange(st, ent.inum) && p != ent.inum && JunkOK(junk) && |ent.name| < NAME_SIZE
    requires -1 <= b < st.s.numData && -1 <= b2 < st.s.numData && st.m.inodes[p].size != MAX_SIZE
    requires Place(st, p, kind, ent, full, b, b2, junk).out == Ret(-1)
    ensures Place(st, p, kind, ent, full, b, b2, junk).pre == []
    ensures Place(st, p, kind, ent, full, b, b2, junk).st.m ==
            if kind == DIRECTORY then st.m else PutInode(st, ent.inum, st.m.inodes[ent.inum].(size := 0)).m
  {
    hide Link, DirBlock, Splice;
    if kind != DIRECTORY {
      LinkFails(PutInode(st, ent.inum, st.m.inodes[ent.inum].(size := 0)), p, ent, full, b, junk);
    } else if b != -1 && !(full && b2 == -1) {
      var mk := MakeDir(st, ent.inum, p, b, junk);
      if Link(mk.st, p, ent, full, b2, junk).out == Ret(-1) {
        LinkFails(mk.st, p, ent, full, b2, junk);
      }
    }
  }

  lemma NotItsOwn(st: State, u: Tree, p: I32, e: I32)
    requires Ref(st, u) && p in u && e == FirstClear(st.m.ibm, 0, st.s.numInodes)
    ensures p != e
  {
    LiveKey(st, u, p);
  }

  // What a creat leaves that passed its checks and then found no room: the first free inode is allocated, of the
  // type asked for and with no block; the size is what the inode had in its last use, but 0 for a file that
  // only lacked a block.  Nothing is written.
  lemma CreatLeft(st: State, t: Tree, u: Tree, p: I32, kind: I32, name: Name, junk: Junk) returns (r: Step)
    requires Grown(st, t, u) && IsDir(u, p) && JunkOK(junk) && |name| <= 27 && Find(u[p].entries, name) == -1
    requires FirstClear(st.m.ibm, 0, st.s.numInodes) != -1 && !CanCreate(st, u, p, kind, name)
    ensures r == Creat(st, p, kind, name, junk) && r.out == Ret(-1) && r.pre == []
    ensures var e := FirstClear(st.m.ibm, 0, st.s.numInodes);
      && r.st.m.ibm == Set(st.m.ibm, e) && r.st.m.dbm == st.m.dbm && r.st.disk == st.disk
      && r.st.m.inodes == st.m.inodes[e := r.st.m.inodes[e]]
      && r.st.m.inodes[e].kind == kind && r.st.m.inodes[e].direct == seq(30, _ => 0xFFFF_FFFF)
      && r.st.m.inodes[e].size == if kind != 0 && |u[p].entries| < 3840 then 0 else st.m.inodes[e].size
  {
    hide Creat, FullScan, Place, TreeOK, FreeBlocks, CanCreate, Find, AllocOK, FirstClear, Apply;
    assert LiveEntries(u[p].entries);
    CreatAnywhere(st, u, p, kind, name, junk);
    CreatChecks(st, u, p, kind, name, junk);
    r := Creat(st, p, kind, name, junk);
    var e := FirstClear(st.m.ibm, 0, st.s.numInodes);
    var st1 := ClaimInode(st, e, kind);
    NotItsOwn(st, u, p, e);
    if |u[p].entries| < 3840 {
      PlaceFails(st1, p, kind, DirEnt(name, e), FullScan(st1.disk, st1.m.inodes[p].direct, 0) == Ret(1),
                 FirstClear(st1.m.dbm, 0, st.s.numData), SecondClear(st1.m.dbm, st.s.numData), junk);
    }
    ApplyNone(st.disk);
  }

  // ---------- write ----------

  // In every state: not an inode of type 1, or nothing, too much, or beyond the end.
  lemma WriteRefusedAll(st: State, i: I32, data: seq<Byte>, offset: I32, nbytes: I32)
    requires nbytes <= |data|
    requires !Allocated(st, i) || st.m.inodes[i].kind != 1 || nbytes <= 0 || nbytes > 4096
             || offset < 0 || offset > st.m.inodes[i].size
    ensures Write(st, i, data, offset, nbytes) == Step(Ret(-1), st, [])
  {
  }

  lemma OneMissing(ps: seq<U32>, n: nat)
    requires |ps| == DIRECT_PTRS && ps[0] == 0xFFFF_FFFF && 0 < n <= 4096
    ensures Missing(ps, 0, 0, n) == 1
  {
    assert Missing(ps, 1, 0, 0) == 0;
  }

  // A file made and written for the first time: type 1, up to 4096 bytes from its beginning.  It takes one block, for
  // the name another when the directory's blocks are full, and what was written is read back.
  lemma CreatThenWrite(st: State, t: Tree, u: Tree, p: I32, name: Name, junk: Junk, data: seq<Byte>)
    returns (r1: Step, r2: Step, e: I32)
    requires Good(st, t, u) && CanCreate(st, u, p, 1, name) && JunkOK(junk) && 0 < |data| <= 4096
    ensures r1 == Creat(st, p, 1, name, junk) && r1.out == Ret(0) && e == FirstClear(st.m.ibm, 0, st.s.numInodes)
    ensures r2 == Write(Finish(r1), e, data, 0, |data|)
    ensures r2.out == if 1 + (if |u[p].entries| % 128 == 0 then 1 else 0) <= FreeBlocks(st.m.dbm, 0, st.s.numData)
                      then Ret(0) else Ret(-1)
    ensures r2.out == Ret(0) ==> Read(Finish(r2), e, 0, |data|) == ReadResult(Ret(0), data)
  {
    hide Creat, Write, Read, TreeOK, Refines, FreeBlocks, Missing, Commit, CanCreate, AllPlaced, Marked, Payload;
    IsParent(st, u, p, 1, name);
    var t', u';
    r1, t', u' := CreatGrows(st, t, u, p, 1, name, junk);
    e := FirstClear(st.m.ibm, 0, st.s.numInodes);
    var st1 := Finish(r1);
    CommitKeepsRef(r1.st, u');
    var ino := CreatMakes(st, t, u, p, 1, name, junk);
    CreatCounts(st, t, u, p, 1, name, junk);
    assert u'[e] == File(1, []);
    r2 := WriteRefines(st1, u', e, data, 0);
    OneMissing(ino.direct, |data|);
    LiveKey(st1, u', e);
    RefAlloc(st1, u');
    var q := WriteThenRead(st1, e, data, 0, |data|);
    assert data[..|data|] == data;
  }

  // A file of any other type cannot be written to.
  lemma CreatThenRefused(st: State, t: Tree, u: Tree, p: I32, kind: I32, name: Name, junk: Junk, data: seq<Byte>,
                         offset: I32, nbytes: I32)
    requires Good(st, t, u) && CanCreate(st, u, p, kind, name) && JunkOK(junk) && kind != 1 && nbytes <= |data|
    ensures var st1 := Finish(Creat(st, p, kind, name, junk));
      Write(st1, FirstClear(st.m.ibm, 0, st.s.numInodes), data, offset, nbytes) == Step(Ret(-1), st1, [])
  {
    hide Creat, Write, Grown, Marked, CanCreate, Commit;
    var ino := CreatMakes(st, t, u, p, kind, name, junk);
    WriteRefusedAll(Finish(Creat(st, p, kind, name, junk)), FirstClear(st.m.ibm, 0, st.s.numInodes), data, offset,
                    nbytes);
  }

  // Blocks taken are the lowest that were free: none was passed over.
  predicate Lowest(ws: seq<Word>, vs: seq<Word>, n: nat)
    requires |vs| == |ws| && n <= WORD_BITS * |ws|
  {
    && (forall b :: 0 <= b < n && Get(ws, b) ==> Get(vs, b))
    && forall b, c :: 0 <= b < n && 0 <= c < n && Get(vs, b) && !Get(ws, b) && !Get(vs, c) ==> b < c
  }

  lemma LowestTwice(ws: seq<Word>, vs: seq<Word>, us: seq<Word>, n: nat)
    requires |us| == |vs| == |ws| && n <= WORD_BITS * |ws| && Lowest(ws, vs, n) && Lowest(vs, us, n)
    ensures Lowest(ws, us, n)
  {
  }

  lemma LowestNext(ws: seq<Word>, n: nat)
    requires n <= WORD_BITS * |ws|
    ensures Lowest(ws, ws, n)
    ensures FirstClear(ws, 0, n) != -1 ==> Lowest(ws, Set(ws, FirstClear(ws, 0, n)), n)
    ensures SecondClear(ws, n) != -1 ==> FirstClear(ws, 0, n) != -1
    ensures SecondClear(ws, n) != -1 ==> Lowest(ws, Set(Set(ws, FirstClear(ws, 0, n)), SecondClear(ws, n)), n)
  {
  }

  lemma WriteEndsHere(st: State, i: I32, k: nat, off: nat, data: seq<Byte>)
    requires InRange(st, i) && off < BLOCK
    ensures k >= DIRECT_PTRS || data == [] || RoundPtr(st, i, k) == NONE || !Readable(st.disk, RoundPtr(st, i, k)) ==>
      Lowest(st.m.dbm, WriteFrom(st, i, k, off, data).st.m.dbm, st.s.numData)
  {
    hide Lowest, Round, RoundWrite, Readable;
    LowestNext(st.m.dbm, st.s.numData);
  }

  lemma RoundTakes(st: State, i: I32, k: nat, off: nat, bs: seq<Byte>)
    requires InRange(st, i) && k < DIRECT_PTRS && off + |bs| <= BLOCK && Readable(st.disk, RoundPtr(st, i, k))
    ensures Lowest(st.m.dbm, Round(st, i, k, off, bs).m.dbm, st.s.numData)
  {
    hide Lowest, RoundWrite, Readable;
    LowestNext(st.m.dbm, st.s.numData);
  }

  // A write takes the lowest free blocks, from any offset and however it ends.
  lemma {:induction false} WriteTakesLowest(st: State, i: I32, k: nat, off: nat, data: seq<Byte>)
    requires InRange(st, i) && off < BLOCK
    ensures Lowest(st.m.dbm, WriteFrom(st, i, k, off, data).st.m.dbm, st.s.numData)
    decreases |data|
  {
    hide Lowest, Round, RoundPtr, RoundWrite, Attach, Readable;
    WriteEndsHere(st, i, k, off, data);
    if k < DIRECT_PTRS && data != [] && RoundPtr(st, i, k) != NONE && Readable(st.disk, RoundPtr(st, i, k)) {
      var n := Chunk(data, off);
      var st1 := Round(st, i, k, off, data[..n]);
      RoundTakes(st, i, k, off, data[..n]);
      WriteTakesLowest(st1, i, k + 1, 0, data[n..]);
      LowestTwice(st.m.dbm, st1.m.dbm, WriteFrom(st1, i, k + 1, 0, data[n..]).st.m.dbm, st.s.numData);
    }
  }

  // And so does a creat.
  lemma CreatTakesLowest(st: State, t: Tree, u: Tree, p: I32, kind: I32, name: Name, junk: Junk)
    requires Grown(st, t, u) && CanCreate(st, u, p, kind, name) && JunkOK(junk)
    ensures Lowest(st.m.dbm, Creat(st, p, kind, name, junk).st.m.dbm, st.s.numData)
  {
    hide Creat, Grown, CanCreate, FirstClear, SecondClear, Set, Lowest;
    var m' := CreatTakes(st, t, u, p, kind, name, junk);
    LowestNext(st.m.dbm, st.s.numData);
  }

  // ---------- unlink ----------

  // In every state: "." and "..", and no directory to look in.  In an inode of another type the lookup's -4 is used
  // as an index.
  lemma UnlinkRefusedAll(st: State, p: I32, name: Name, base: nat, junk: Junk)
    requires JunkOK(junk)
    ensures !Allocated(st, p) || name in {[46], [46, 46]} ==> Unlink(st, p, name, base, junk) == Step(Ret(-1), st, [])
    ensures Allocated(st, p) && st.m.inodes[p].kind != 0 && name !in {[46], [46, 46]} ==>
      Unlink(st, p, name, base, junk) == Step(Undefined, st, [])
  {
    hide Scan, DropChild, DropEntry;
  }

  // In a directory of the tree -1, and nothing changed, for a name that is not there, and for a directory that has
  // other entries than "." and "..".
  lemma UnlinkReturns(st: State, t: Tree, u: Tree, p: I32, name: Name, base: nat, junk: Junk)
    requires Grown(st, t, u) && IsDir(t, p) && JunkOK(junk) && name !in {[46], [46, 46]}
    requires Find(t[p].entries, name) == -1
             || (IsDir(t, Find(t[p].entries, name)) && |t[Find(t[p].entries, name)].entries| != 2)
    ensures Unlink(st, p, name, base, junk) == Step(Ret(-1), st, [])
  {
    hide TreeOK, Find, AllocOK, Lookup, DropChild, DropEntry;
    ShownAnswers(st, u, p, name);
    var c := Find(t[p].entries, name);
    assert IsDir(u, p) && LiveEntries(u[p].entries);
    assert c != -1 ==> ShowsAt(st.s, st.m, st.disk, u, c);
  }
}
