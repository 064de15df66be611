// Creating a name and unlinking it again.

module FsUndo {
  import opened Bits
  import opened Bytes
  import opened Format
  import opened Tree
  import opened FsModel
  import opened FsInv
  import opened FsLookup
  import opened FsCreat
  import opened FsCommit
  import opened FsUnlink
  import opened FsUnlinkModel
  import opened FsUnlinkBits

  // ---------- what a creat does to the metadata ----------

  // Directory inode, before and after an entry was added to its n: one pointer may have been set.
  predicate GrewByOne(ino: Inode, ino': Inode, n: nat) {
    && ino'.kind == ino.kind && ino'.size == Wrap(ino.size + ENTRY_SIZE)
    && forall k {:trigger ino'.direct[k]} :: 0 <= k < DIRECT_PTRS && !(k == n / ENTRIES && n % ENTRIES == 0) ==>
         ino'.direct[k] == ino.direct[k]
  }

  // Inode e was claimed and directory p, which had n entries, got one more; no other inode changed.
  predicate Created(m: Meta, m': Meta, p: I32, n: nat, e: I32) {
    && 0 <= p < |m.inodes| && 0 <= e < WORD_BITS * |m.ibm|
    && |m'.inodes| == |m.inodes| && m'.ibm == Set(m.ibm, e)
    && GrewByOne(m.inodes[p], m'.inodes[p], n)
    && forall j {:trigger m'.inodes[j]} :: 0 <= j < |m.inodes| && j != p && j != e ==> m'.inodes[j] == m.inodes[j]
  }

  lemma LinkMeta(st: State, p: I32, ent: DirEnt, full: bool, b: int, junk: Junk, n: nat)
    requires InRange(st, p) && -1 <= b < st.s.numData && JunkOK(junk) && |ent.name| < NAME_SIZE
    requires full ==> FirstNone(st.m.inodes[p].direct, 0) == n / ENTRIES && n % ENTRIES == 0
    requires Link(st, p, ent, full, b, junk).out == Ret(0)
    ensures Link(st, p, ent, full, b, junk).st.m.ibm == st.m.ibm
    ensures GrewByOne(st.m.inodes[p], Link(st, p, ent, full, b, junk).st.m.inodes[p], n)
    ensures forall j :: 0 <= j < st.s.numInodes && j != p ==>
      Link(st, p, ent, full, b, junk).st.m.inodes[j] == st.m.inodes[j]
  {
    hide FirstNone, FindSlot, EncodeEntry, DirBlock, Splice;
  }

  lemma PlaceMeta(st: State, p: I32, kind: I32, ent: DirEnt, full: bool, b: int, b2: int, junk: Junk, n: nat)
    requires InRange(st, p) && InRange(st, ent.inum) && p != ent.inum && JunkOK(junk) && |ent.name| < NAME_SIZE
    requires -1 <= b < st.s.numData && -1 <= b2 < st.s.numData
    requires full ==> FirstNone(st.m.inodes[p].direct, 0) == n / ENTRIES && n % ENTRIES == 0
    requires Place(st, p, kind, ent, full, b, b2, junk).out == Ret(0)
    ensures Place(st, p, kind, ent, full, b, b2, junk).st.m.ibm == st.m.ibm
    ensures GrewByOne(st.m.inodes[p], Place(st, p, kind, ent, full, b, b2, junk).st.m.inodes[p], n)
    ensures forall j :: 0 <= j < st.s.numInodes && j != p && j != ent.inum ==>
      Place(st, p, kind, ent, full, b, b2, junk).st.m.inodes[j] == st.m.inodes[j]
  {
    hide Link, FirstNone, DirBlock, Splice, GrewByOne;
    if kind != DIRECTORY {
      LinkMeta(PutInode(st, ent.inum, st.m.inodes[ent.inum].(size := 0)), p, ent, full, b, junk, n);
    } else {
      LinkMeta(MakeDir(st, ent.inum, p, b, junk).st, p, ent, full, b2, junk, n);
    }
  }

  lemma CreatMeta(st: State, t: Tree, p: I32, kind: I32, name: Name, junk: Junk)
    requires Ref(st, t) && CanCreate(st, t, p, kind, name) && LiveEntries(t[p].entries) && JunkOK(junk)
    ensures Created(st.m, Creat(st, p, kind, name, junk).st.m, p, |t[p].entries|,
                    FirstClear(st.m.ibm, 0, st.s.numInodes))
  {
    hide Place, Link, GrewByOne;
    var e, n := FirstClear(st.m.ibm, 0, st.s.numInodes), |t[p].entries|;
    CreatAnywhere(st, t, p, kind, name, junk);
    CreatChecks(st, t, p, kind, name, junk);
    ClaimKeeps(st, t, e, kind);
    var st1 := ClaimInode(st, e, kind);
    ScanTells(st1, t, p, DirEnt(name, e));
    if n % ENTRIES == 0 {
      FullDir(st1, t, p, DirEnt(name, e));
    }
    PlaceMeta(st1, p, kind, DirEnt(name, e), n % ENTRIES == 0, FirstClear(st1.m.dbm, 0, st.s.numData),
              SecondClear(st1.m.dbm, st.s.numData), junk, n);
  }

  // ---------- and what the unlink then does ----------

  lemma UnlinkMeta(st: State, t: Tree, p: I32, base: nat, junk: Junk)
    requires Ref(st, t) && TreeOK(t) && IsDir(t, p) && t[p].entries != [] && JunkOK(junk)
    requires Removable(t, p, |t[p].entries| - 1) && FreesRight(st, t[p].entries, |t[p].entries| - 1, base)
    ensures InRange(st, p) && InRange(st, Last(t, p).inum) && |t[p].entries| <= DIRECT_PTRS * ENTRIES
    ensures var r := Unlink(st, p, Last(t, p).name, base, junk);
      && r.st.m.ibm == Reset(st.m.ibm, Last(t, p).inum)
      && r.st.m.inodes == st.m.inodes[p := Shrunk(st.m.inodes[p], |t[p].entries|, |t[p].entries| - 1)]
  {
    hide Unlink, DropChild, DropEntry, Shrunk, Alone, TreeOK;
    var es := t[p].entries;
    var drop := UnlinkIs(st, t, p, |es| - 1, base, junk);
    var d := DropChildRefines(st, t, p, Last(t, p).inum, base);
    var r := UnlinkLast(st, t, p, base, junk);
    var q := DropEntryIs(drop.st, es, p, |es| - 1, Last(t, p).name, base, junk);
  }

  // Adding an entry and taking it away again gives the inode back.
  lemma GrewThenShrunk(s: Super, ino: Inode, ino': Inode, n: nat)
    requires GrewByOne(ino, ino', n) && Backed(s, ino) && ino.size == ENTRY_SIZE * n && n < DIRECT_PTRS * ENTRIES
    ensures Shrunk(ino', n + 1, n) == ino
  {
    assert Alone(n + 1, n) <==> n % ENTRIES == 0;
    assert Shrunk(ino', n + 1, n).direct == ino.direct;
  }

  // The set bits are determined by who owns what.
  lemma SameOwnersSameBits(s: Super, m: Meta, m': Meta)
    requires AllocOK(s, m) && AllocOK(s, m') && s.numData >= 0
    requires s.numData <= WORD_BITS * |m.dbm| && |m'.dbm| == |m.dbm|
    requires forall i, k, b :: Owns(s, m', i, k, b) <==> Owns(s, m, i, k, b)
    ensures forall b :: 0 <= b < s.numData ==> Get(m'.dbm, b) == Get(m.dbm, b)
  {
    forall b | 0 <= b < s.numData
      ensures Get(m'.dbm, b) == Get(m.dbm, b)
    {
      assert BitRight(s, m, b) && BitRight(s, m', b);
    }
  }

  lemma AddThenDrop(t: Tree, p: I32, kind: I32, name: Name, e: I32)
    requires IsDir(t, p) && e !in t
    ensures IsDir(AddChild(t, p, kind, name, e), p) && Last(AddChild(t, p, kind, name, e), p) == DirEnt(name, e)
    ensures DropLast(AddChild(t, p, kind, name, e), p) == t
  {
    var es := t[p].entries;
    assert (es + [DirEnt(name, e)])[..|es|] == es;
    assert t[p] == Dir(es);
  }

  lemma CreatedIsRemovable(t: Tree, p: I32, kind: I32, name: Name, e: I32)
    requires TreeOK(t) && IsDir(t, p) && e !in t
    ensures Removable(AddChild(t, p, kind, name, e), p, |t[p].entries|)
  {
    assert DirShape(t, p);
  }

  // The inode and data bitmaps, and every inode but the free one e, are as they were.
  predicate Restored(s: Super, m: Meta, m': Meta, e: I32) {
    && m'.ibm == m.ibm && |m'.inodes| == |m.inodes| && |m'.dbm| == |m.dbm|
    && (forall j :: 0 <= j < |m.inodes| && j != e ==> m'.inodes[j] == m.inodes[j])
    && (forall b :: 0 <= b < s.numData && b < WORD_BITS * |m.dbm| ==> Get(m'.dbm, b) == Get(m.dbm, b))
  }

  lemma UndoneMeta(st: State, m1: Meta, m2: Meta, t: Tree, p: I32, n: nat, e: I32)
    requires Ref(st, t) && IsDir(t, p) && n == |t[p].entries| < DIRECT_PTRS * ENTRIES
    requires InRange(st, e) && !Get(st.m.ibm, e) && Created(st.m, m1, p, n, e)
    requires AllocOK(st.s, m2) && |m2.dbm| == |st.m.dbm|
    requires m2.ibm == Reset(m1.ibm, e) && m2.inodes == m1.inodes[p := Shrunk(m1.inodes[p], n + 1, n)]
    ensures Restored(st.s, st.m, m2, e)
  {
    assert ShowsAt(st.s, st.m, st.disk, t, p);
    GrewThenShrunk(st.s, st.m.inodes[p], m1.inodes[p], n);
    SameBits(m2.ibm, st.m.ibm);
    assert p != e;
    assert forall j :: 0 <= j < |st.m.inodes| && j != e ==> m2.inodes[j] == st.m.inodes[j];
    forall i, k, b
      ensures Owns(st.s, m2, i, k, b) <==> Owns(st.s, st.m, i, k, b)
    {
    }
    SameOwnersSameBits(st.s, st.m, m2);
  }

  // The state after the creat.
  lemma CreatedState(st: State, t: Tree, p: I32, kind: I32, name: Name, junk: Junk, e: I32) returns (r: Step)
    requires Ref(st, t) && TreeOK(t) && CanCreate(st, t, p, kind, name) && JunkOK(junk)
    requires e == FirstClear(st.m.ibm, 0, st.s.numInodes)
    ensures r == Creat(st, p, kind, name, junk) && r.out == Ret(0) && e !in t && Finish(r) == Commit(r.st)
    ensures Finish(r).s == st.s && Finish(r).m == r.st.m
    ensures Created(st.m, r.st.m, p, |t[p].entries|, e)
    ensures Ref(Finish(r), AddChild(t, p, kind, name, e)) && TreeOK(AddChild(t, p, kind, name, e))
    ensures IsDir(AddChild(t, p, kind, name, e), p)
    ensures |AddChild(t, p, kind, name, e)[p].entries| == |t[p].entries| + 1
    ensures Removable(AddChild(t, p, kind, name, e), p, |t[p].entries|)
  {
    hide Creat, TreeOK, AllocOK, Shows, Created;
    r := Creat(st, p, kind, name, junk);
    CreatRefines(st, t, p, kind, name, junk);
    EntriesAreLive(t, p);
    CreatMeta(st, t, p, kind, name, junk);
    CommitKeepsRef(r.st, AddChild(t, p, kind, name, e));
    CreatedIsRemovable(t, p, kind, name, e);
  }

  // A successful creat followed by an unlink of the new name, with data bits indexed as allocation indexes
  // them, restores the tree, both bitmaps and every inode in use: a creat that opened a new directory block
  // included, and one that made a directory included.
  lemma CreatThenUnlink(st: State, t: Tree, p: I32, kind: I32, name: Name, junk: Junk, junk2: Junk)
    returns (r1: Step, r2: Step)
    requires Ref(st, t) && TreeOK(t) && CanCreate(st, t, p, kind, name) && JunkOK(junk) && JunkOK(junk2)
    ensures r1 == Creat(st, p, kind, name, junk) && r1.out == Ret(0)
    ensures r2 == Unlink(Finish(r1), p, name, st.s.dataRegionAddr, junk2) && r2.out == Ret(0)
    ensures Ref(Finish(r2), t)
    ensures Restored(st.s, st.m, Finish(r2).m, FirstClear(st.m.ibm, 0, st.s.numInodes))
  {
    hide Creat, Unlink, CommitLog, TreeOK, AllocOK, Shows, DropLast, AddChild, Created, Shrunk, Restored;
    var e, n := FirstClear(st.m.ibm, 0, st.s.numInodes), |t[p].entries|;
    var t1 := AddChild(t, p, kind, name, e);
    r1 := CreatedState(st, t, p, kind, name, junk, e);
    var st1 := Finish(r1);
    AddThenDrop(t, p, kind, name, e);
    r2 := UnlinkLast(st1, t1, p, st.s.dataRegionAddr, junk2);
    UnlinkMeta(st1, t1, p, st.s.dataRegionAddr, junk2);
    CommitKeepsRef(r2.st, t);
    UndoneMeta(st, st1.m, r2.st.m, t, p, n, e);
  }

  lemma NewNodeBlocks(st: State, t: Tree, p: I32, kind: I32, e: I32)
    requires Ref(st, t) && e in t && t[e] == NewNode(p, kind, e) && InRange(st, e)
    ensures NoBlocks(st.m.inodes[e]) <==> kind != DIRECTORY
  {
    assert ShowsAt(st.s, st.m, st.disk, t, e);
    var ino := st.m.inodes[e];
    assert kind == DIRECTORY ==> ino.direct[0] != NONE;
  }

  // With the code's indices the same two calls keep the data bitmap right exactly when the creat took no block:
  // a file, under a parent whose last block had room.
  lemma CreatThenUnlinkAsCoded(st: State, t: Tree, p: I32, kind: I32, name: Name, junk: Junk, junk2: Junk)
    returns (r1: Step, r2: Step)
    requires Ref(st, t) && TreeOK(t) && CanCreate(st, t, p, kind, name) && JunkOK(junk) && JunkOK(junk2)
    ensures r1 == Creat(st, p, kind, name, junk) && r1.out == Ret(0)
    ensures r2 == Unlink(Finish(r1), p, name, 0, junk2)
    ensures r2.out == Ret(0) && AllocOK(st.s, r2.st.m) <==> Needed(kind, |t[p].entries|) == 0
  {
    hide Creat, Unlink, CommitLog, TreeOK, AllocOK, Created, NoBlocks;
    var e, n := FirstClear(st.m.ibm, 0, st.s.numInodes), |t[p].entries|;
    var t1 := AddChild(t, p, kind, name, e);
    r1 := CreatedState(st, t, p, kind, name, junk, e);
    assert t1[e] == NewNode(p, kind, e) && t1[p].entries[n] == DirEnt(name, e);
    assert ShowsAt(st.s, Finish(r1).m, Finish(r1).disk, t1, e);
    NewNodeBlocks(Finish(r1), t1, p, kind, e);
    r2 := UnlinkAllocIff(Finish(r1), t1, p, n, junk2);
  }
}
