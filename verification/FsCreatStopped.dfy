// Stopping a creat inside its commit: where the data bitmap that a mount then loads is right.

module FsCreatStopped {
  import opened Bits
  import opened Bytes
  import opened Format
  import opened Tree
  import opened FsModel
  import opened FsInv
  import opened FsLookup
  import opened FsCreat
  import opened FsCommit
  import opened FsCommitCrash
  import opened FsCover
  import opened FsMarks
  import opened FsUnlink
  import opened FsUndo
  import opened FsForest
  import opened FsRun

  // ---------- the old data bitmap, with some of the new inodes ----------

  // An owner that the bitmap does not know of.
  lemma ExtraOwner(s: Super, l: Meta, x: Meta, i: I32, k: nat, b: int)
    requires AllocOK(s, l) && x.dbm == l.dbm && s.numData <= WORD_BITS * |l.dbm|
    requires forall j, q, c :: Owns(s, l, j, q, c) ==> Owns(s, x, j, q, c)
    requires Owns(s, x, i, k, b) && !Owns(s, l, i, k, b)
    ensures !AllocOK(s, x)
  {
    assert BitRight(s, l, b) && (AllocOK(s, x) ==> BitRight(s, x, b));
    if OwnedOnce(s, l, b) {
      var j, q :| SoleOwner(s, l, j, q, b);
      assert Owns(s, x, j, q, b);
    }
  }

  // Of the directory inode p, which may have got pointer q, and of the new inode e and its bit, x has what was
  // written and l all the rest.
  predicate Mixed(l: Meta, m: Meta, x: Meta, p: I32, e: I32, us: seq<Unit>) {
    && |x.inodes| == |l.inodes| == |m.inodes| && |x.ibm| == |l.ibm| && x.dbm == l.dbm
    && 0 <= p < |l.inodes| && 0 <= e < |l.inodes| && p != e
    && (forall i: I32 {:trigger Live(x, i)} :: Live(x, i) <==> Live(l, i) || (i == e && InodeWord(e / WORD_BITS) in us))
    && x.inodes[p] == (if OneInode(p) in us then m else l).inodes[p]
    && x.inodes[e] == (if OneInode(e) in us then m else l).inodes[e]
    && (forall i {:trigger x.inodes[i]} :: 0 <= i < |l.inodes| && i != p && i != e ==> x.inodes[i] == l.inodes[i])
  }

  // A directory inode that had n entries and got one more: its pointers.
  predicate PtrsGrew(ino: Inode, ino': Inode, n: nat) {
    && n < DIRECT_PTRS * ENTRIES
    && (forall k :: 0 <= k < DIRECT_PTRS && k != n / ENTRIES ==> ino'.direct[k] == ino.direct[k])
    && if n % ENTRIES == 0 then ino.direct[n / ENTRIES] == NONE != ino'.direct[n / ENTRIES]
       else ino'.direct[n / ENTRIES] == ino.direct[n / ENTRIES]
  }

  // No block is taken by what was written: not by the parent, and not by the new inode, whose bit may be set
  // before the inode replaces what its place held.
  predicate NothingTaken(l: Meta, m: Meta, p: I32, e: I32, n: nat, us: seq<Unit>)
    requires 0 <= e < |l.inodes| == |m.inodes| && 0 <= p
  {
    && (OneInode(p) in us ==> n % ENTRIES != 0)
    && (InodeWord(e / WORD_BITS) in us ==> NoBlocks((if OneInode(e) in us then m else l).inodes[e]))
  }

  lemma MixedOwns(s: Super, l: Meta, m: Meta, x: Meta, p: I32, e: I32, n: nat, us: seq<Unit>, i: I32, k: nat, b: int)
    requires Mixed(l, m, x, p, e, us) && !Live(l, e) && PtrsGrew(l.inodes[p], m.inodes[p], n)
    ensures Owns(s, l, i, k, b) ==> Owns(s, x, i, k, b)
    ensures NothingTaken(l, m, p, e, n, us) && Owns(s, x, i, k, b) ==> Owns(s, l, i, k, b)
  {
    assert Live(x, i) <==> Live(l, i) || (i == e && InodeWord(e / WORD_BITS) in us);
  }

  lemma SomethingTaken(s: Super, l: Meta, m: Meta, x: Meta, p: I32, e: I32, n: nat, us: seq<Unit>)
    returns (i: I32, k: nat, b: int)
    requires Live(l, p) && !Live(l, e) && Mixed(l, m, x, p, e, us) && e < WORD_BITS * |l.ibm|
    requires PtrsGrew(l.inodes[p], m.inodes[p], n) && !NothingTaken(l, m, p, e, n, us)
    ensures Owns(s, x, i, k, b) && !Owns(s, l, i, k, b)
  {
    assert Live(x, p) && (InodeWord(e / WORD_BITS) in us ==> Live(x, e));
    if OneInode(p) in us && n % ENTRIES == 0 {
      i, k := p, n / ENTRIES;
    } else {
      i := e;
      k :| 0 <= k < DIRECT_PTRS && x.inodes[e].direct[k] != NONE;
    }
    b := x.inodes[i].direct[k] - s.dataRegionAddr;
  }

  lemma MixedAllocIff(s: Super, l: Meta, m: Meta, x: Meta, p: I32, e: I32, n: nat, us: seq<Unit>)
    requires AllocOK(s, l) && s.numData <= WORD_BITS * |l.dbm| && Live(l, p) && !Live(l, e)
    requires Mixed(l, m, x, p, e, us) && PtrsGrew(l.inodes[p], m.inodes[p], n) && e < WORD_BITS * |l.ibm|
    ensures AllocOK(s, x) <==> NothingTaken(l, m, p, e, n, us)
  {
    hide AllocOK, NothingTaken;
    forall i, k, b
      ensures Owns(s, l, i, k, b) ==> Owns(s, x, i, k, b)
      ensures NothingTaken(l, m, p, e, n, us) && Owns(s, x, i, k, b) ==> Owns(s, l, i, k, b)
    {
      MixedOwns(s, l, m, x, p, e, n, us, i, k, b);
    }
    if NothingTaken(l, m, p, e, n, us) {
      AllocUnchanged(s, l, x);
    } else {
      var i, k, b := SomethingTaken(s, l, m, x, p, e, n, us);
      ExtraOwner(s, l, x, i, k, b);
    }
  }

  // ---------- the units of a commit ----------

  lemma {:induction false} InodeUnitsOnly(st: State, n: nat, v: Unit)
    requires n <= st.s.numInodes && v in InodeUnits(st, n)
    ensures !v.DataWord?
  {
    if n > 0 && v in InodeUnits(st, n - 1) {
      InodeUnitsOnly(st, n - 1, v);
    }
  }

  lemma {:induction false} InodeUnitsHave(st: State, n: nat, i: nat)
    requires i < n <= st.s.numInodes && Get(st.dirtyI, i)
    ensures OneInode(i) in InodeUnits(st, n) && InodeWord(i / WORD_BITS) in InodeUnits(st, n)
    decreases n
  {
    if i < n - 1 {
      InodeUnitsHave(st, n - 1, i);
    }
  }

  // While inodes are written.
  lemma PutIsMixed(l: Meta, m: Meta, us: seq<Unit>, p: I32, e: I32, n: nat)
    requires SameShape(l, m) && AllIn(m, us) && Created(l, m, p, n, e) && p != e && 0 <= e < |l.inodes|
    requires forall v :: v in us ==> !v.DataWord?
    ensures Mixed(l, m, PutAll(l, m, us), p, e, us)
  {
    var x := PutAll(l, m, us);
    forall k | 0 <= k < |l.dbm|
      ensures x.dbm[k] == l.dbm[k]
    {
      PutAllIs(l, m, us, DataWord(k));
    }
    forall i | 0 <= i < |l.inodes|
      ensures x.inodes[i] == (if OneInode(i) in us then m else l).inodes[i]
    {
      PutAllIs(l, m, us, OneInode(i));
    }
    forall i: I32
      ensures Live(x, i) <==> Live(l, i) || (i == e && InodeWord(e / WORD_BITS) in us)
    {
      if 0 <= i < WORD_BITS * |l.ibm| {
        PutAllIs(l, m, us, InodeWord(i / WORD_BITS));
        assert Get(x.ibm, i) == Get(if InodeWord(i / WORD_BITS) in us then m.ibm else l.ibm, i);
      }
    }
  }

  // When all inodes are written.
  lemma PutHasInodes(l: Meta, m: Meta, us: seq<Unit>, p: I32, e: I32, n: nat)
    requires SameShape(l, m) && AllIn(m, us) && Created(l, m, p, n, e) && p != e && 0 <= e < |l.inodes|
    requires OneInode(p) in us && OneInode(e) in us && InodeWord(e / WORD_BITS) in us
    ensures PutAll(l, m, us).ibm == m.ibm && PutAll(l, m, us).inodes == m.inodes
  {
    var x := PutAll(l, m, us);
    forall i | 0 <= i < |l.inodes|
      ensures x.inodes[i] == m.inodes[i]
    {
      PutAllIs(l, m, us, OneInode(i));
    }
    forall i | 0 <= i < WORD_BITS * |l.ibm|
      ensures Get(x.ibm, i) == Get(m.ibm, i)
    {
      PutAllIs(l, m, us, InodeWord(i / WORD_BITS));
    }
    SameBits(x.ibm, m.ibm);
  }

  // The new inodes with some of the new data bitmap: right only with all of it.
  lemma AllBitsIff(s: Super, l: Meta, m: Meta, us: seq<Unit>)
    requires SameShape(l, m) && AllIn(m, us) && AllocOK(s, m) && 0 <= s.numData <= WORD_BITS * |m.dbm|
    requires PadClear(s, l.dbm) && PadClear(s, m.dbm)
    requires PutAll(l, m, us).ibm == m.ibm && PutAll(l, m, us).inodes == m.inodes
    ensures AllocOK(s, PutAll(l, m, us)) <==> PutAll(l, m, us) == m
  {
    var x := PutAll(l, m, us);
    if AllocOK(s, x) {
      SameOwnersSameBits(s, m, x);
      forall b | 0 <= b < WORD_BITS * |m.dbm|
        ensures Get(x.dbm, b) == Get(m.dbm, b)
      {
        PutAllIs(l, m, us, DataWord(b / WORD_BITS));
        assert Get(x.dbm, b) == Get(if DataWord(b / WORD_BITS) in us then m.dbm else l.dbm, b);
      }
      SameBits(x.dbm, m.dbm);
    }
  }

  // ---------- the creat ----------

  lemma GrownPtrs(s: Super, ino: Inode, ino': Inode, n: nat)
    requires GrewByOne(ino, ino', n) && Backed(s, ino) && Backed(s, ino') && n < DIRECT_PTRS * ENTRIES
    requires ino.size == ENTRY_SIZE * n && ino'.size == ENTRY_SIZE * (n + 1) && 0 <= s.dataRegionAddr
    requires s.dataRegionAddr + s.numData < 0x10_0000
    ensures PtrsGrew(ino, ino', n)
  {
    assert n % ENTRIES == 0 ==> n / ENTRIES * BLOCK == ino.size;
  }

  lemma DirNode(st: State, u: Tree, p: I32)
    requires Ref(st, u) && IsDir(u, p)
    ensures Live(st.m, p) && Backed(st.s, st.m.inodes[p]) && st.m.inodes[p].size == ENTRY_SIZE * |u[p].entries|
  {
    assert ShowsAt(st.s, st.m, st.disk, u, p);
  }

  lemma CoversPad(s: Super, l: Meta, m: Meta, dirtyI: seq<Word>, dirtyD: seq<Word>)
    requires Covers(s, l, m, dirtyI, dirtyD) && PadClear(s, l.dbm)
    ensures PadClear(s, m.dbm)
  {
    forall b | 0 <= b < WORD_BITS * |m.dbm| && s.numData <= b
      ensures !Get(m.dbm, b)
    {
      assert Get(m.dbm, b) == Get(l.dbm, b);
    }
  }

  lemma CreatMarks(st: State, p: I32, kind: I32, name: Name, junk: Junk) returns (r: Step)
    requires Orderly(st) && Synced(st) && JunkOK(junk)
    ensures r == Creat(st, p, kind, name, junk)
    ensures Load(st.s, r.st.disk) == st.m && Covers(st.s, st.m, r.st.m, r.st.dirtyI, r.st.dirtyD)
    ensures PadClear(st.s, st.m.dbm) && PadClear(st.s, r.st.m.dbm)
  {
    hide Creat, Load, PtrsInside, Covers, PadClear;
    CreatStays(st, p, kind, name, junk);
    CreatCovers(Load(st.s, st.disk), st, p, kind, name, junk);
    r := Creat(st, p, kind, name, junk);
    StaysLoads(st, r);
    CoversPad(st.s, st.m, r.st.m, r.st.dirtyI, r.st.dirtyD);
  }

  // What a creat that succeeds changes in memory.
  lemma CreatChanges(st: State, t: Tree, u: Tree, p: I32, kind: I32, name: Name, junk: Junk) returns (r: Step)
    requires Grown(st, t, u) && JunkOK(junk) && CanCreate(st, u, p, kind, name)
    ensures r == Creat(st, p, kind, name, junk) && r.out == Ret(0) && IsDir(u, p)
    ensures var e, n := FirstClear(st.m.ibm, 0, st.s.numInodes), |u[p].entries|;
      && InRange(st, e) && !Live(st.m, e) && Live(st.m, p) && p != e
      && Created(st.m, r.st.m, p, n, e) && PtrsGrew(st.m.inodes[p], r.st.m.inodes[p], n)
      && (NoBlocks(r.st.m.inodes[e]) <==> kind != DIRECTORY)
      && AllocOK(st.s, st.m) && AllocOK(st.s, r.st.m)
  {
    hide Creat, Refines, TreeOK, NoBlocks, AllocOK, Needed, FreeBlocks, Backed, GrewByOne, PtrsGrew, Stuck;
    var e := FirstClear(st.m.ibm, 0, st.s.numInodes);
    assert LiveEntries(u[p].entries) by {
      assert IsDir(u, p);
    }
    CreatMeta(st, u, p, kind, name, junk);
    var t', u';
    r, t', u' := CreatGrows(st, t, u, p, kind, name, junk);
    DirNode(st, u, p);
    assert u'[e] == NewNode(p, kind, e) && |u'[p].entries| == |u[p].entries| + 1;
    DirNode(r.st, u', p);
    LiveKey(r.st, u', e);
    RefAlloc(st, u);
    RefAlloc(r.st, u');
    NewNodeBlocks(r.st, u', p, kind, e);
    GrownPtrs(st.s, st.m.inodes[p], r.st.m.inodes[p], |u[p].entries|);
  }

  lemma InodesMarked(st: State, st': State, p: I32, e: I32, n: nat)
    requires Covers(st.s, st.m, st'.m, st'.dirtyI, st'.dirtyD) && st'.s == st.s && InRange(st, p) && InRange(st, e)
    requires Created(st.m, st'.m, p, n, e) && !Live(st.m, e)
    ensures OneInode(p) in InodeUnits(st', st.s.numInodes) && OneInode(e) in InodeUnits(st', st.s.numInodes)
    ensures InodeWord(e / WORD_BITS) in InodeUnits(st', st.s.numInodes)
  {
    assert st'.m.inodes[p] != st.m.inodes[p];
    assert Get(st'.m.ibm, e) != Get(st.m.ibm, e);
    InodeUnitsHave(st', st.s.numInodes, p);
    InodeUnitsHave(st', st.s.numInodes, e);
  }

  // After j writes, none of them of the data bitmap.
  lemma EarlyUnits(st: State, j: nat, us: seq<Unit>)
    requires j <= |InodeUnits(st, st.s.numInodes)| && us == CommitUnits(st)[..j]
    ensures forall v :: v in us ==> !v.DataWord?
  {
    forall v | v in us
      ensures !v.DataWord?
    {
      assert v in InodeUnits(st, st.s.numInodes);
      InodeUnitsOnly(st, st.s.numInodes, v);
    }
  }

  lemma AllTaken(l: Meta, m: Meta, p: I32, e: I32, kind: I32, n: nat, us: seq<Unit>)
    requires 0 <= e < |l.inodes| == |m.inodes| && 0 <= p && (NoBlocks(m.inodes[e]) <==> kind != DIRECTORY)
    requires OneInode(p) in us && OneInode(e) in us && InodeWord(e / WORD_BITS) in us
    ensures NothingTaken(l, m, p, e, n, us) <==> Needed(kind, n) == 0
  {
  }

  // A creat that succeeds, stopped after j writes of its commit.  While inodes are being written, the data bitmap
  // that a mount loads is right exactly as long as no block has been taken: at their end, exactly when the creat
  // needed none.  From then on it is right exactly when all of the new metadata is loaded.
  lemma CreatStopped(st: State, t: Tree, u: Tree, p: I32, kind: I32, name: Name, junk: Junk, j: nat)
    returns (r: Step, us: seq<Unit>, x: Meta)
    requires Good(st, t, u) && Synced(st) && JunkOK(junk) && CanCreate(st, u, p, kind, name)
    requires j <= |CommitLog(Creat(st, p, kind, name, junk).st)|
    ensures r == Creat(st, p, kind, name, junk) && r.out == Ret(0) && x == Load(st.s, Halfway(r.st, j))
    ensures j <= |CommitUnits(r.st)| && us == CommitUnits(r.st)[..j]
    ensures var e := FirstClear(st.m.ibm, 0, st.s.numInodes);
      && InRange(st, e) && 0 <= p && (NoBlocks(r.st.m.inodes[e]) <==> kind != DIRECTORY)
      && (j <= |InodeUnits(r.st, st.s.numInodes)| ==>
            (AllocOK(st.s, x) <==> NothingTaken(st.m, r.st.m, p, e, |u[p].entries|, us)))
    ensures j >= |InodeUnits(r.st, st.s.numInodes)| ==> (AllocOK(st.s, x) <==> x == r.st.m)
    ensures j == |InodeUnits(r.st, st.s.numInodes)| ==> (AllocOK(st.s, x) <==> Needed(kind, |u[p].entries|) == 0)
  {
    hide Creat, Grown, Load, CommitLog, PutAll, AllocOK, Created, PtrsGrew, NothingTaken, NoBlocks, Mixed, Halfway;
    hide CanCreate, Covers, PadClear, Orderly, FirstClear, InodeUnits, DataUnits, Needed;
    GoodIsOrderly(st, t, u);
    r := CreatMarks(st, p, kind, name, junk);
    var q := CreatChanges(st, t, u, p, kind, name, junk);
    HalfwayLoads(r.st, j);
    us := CommitUnits(r.st)[..j];
    x := PutAll(st.m, r.st.m, us);
    var e, n := FirstClear(st.m.ibm, 0, st.s.numInodes), |u[p].entries|;
    var firsts := InodeUnits(r.st, st.s.numInodes);
    if j <= |firsts| {
      EarlyUnits(r.st, j, us);
      PutIsMixed(st.m, r.st.m, us, p, e, n);
      MixedAllocIff(st.s, st.m, r.st.m, x, p, e, n, us);
    }
    if j >= |firsts| {
      assert firsts <= us;
      InodesMarked(st, r.st, p, e, n);
      PutHasInodes(st.m, r.st.m, us, p, e, n);
      AllBitsIff(st.s, st.m, r.st.m, us);
      AllTaken(st.m, r.st.m, p, e, kind, n, us);
    }
  }
}
