// What no call loses, in whatever state it starts: memory's differences from the disk are marked, and pointers
// and writes stay in the data region.  So whatever came before, a call that returns 0 leaves on the disk what
// memory holds.

module FsMarks {
  import opened Bits
  import opened Bytes
  import opened Format
  import opened FsModel
  import opened FsInv
  import opened FsCommit
  import opened FsCover
  import opened FsUnlinkModel
  import opened FsUnlinkCover
  import opened FsCalls

  // Every pointer of the inode is empty or leads into the data region.
  predicate InodeInside(s: Super, ino: Inode) {
    forall k {:trigger ino.direct[k]} :: 0 <= k < DIRECT_PTRS && ino.direct[k] != NONE ==>
      s.dataRegionAddr <= ino.direct[k] < s.dataRegionAddr + s.numData
  }

  ghost predicate PtrsInside(s: Super, m: Meta) {
    forall i: I32 {:trigger Live(m, i)} :: Live(m, i) ==> InodeInside(s, m.inodes[i])
  }

  // Memory's differences from the disk are marked.
  ghost predicate Marked(st: State) {
    Covered(st) && PadClear(st.s, Load(st.s, st.disk).dbm)
  }

  ghost predicate Orderly(st: State) {
    Marked(st) && PtrsInside(st.s, st.m)
  }

  // Memory and disk agree.
  ghost predicate Synced(st: State) {
    Load(st.s, st.disk) == st.m
  }

  // The call writes to the data region only, and leaves pointers into it only.
  ghost predicate Stays(st: State, r: Step) {
    r.st.s == st.s && 0 <= st.s.dataRegionAddr && Inside(r.pre, st.s.dataRegionAddr * BLOCK, |st.disk|)
    && PtrsInside(st.s, r.st.m)
  }

  lemma OwnPtrInside(st: State, ino: Inode, k: nat, off: nat, n: nat)
    requires InodeInside(st.s, ino) && k < DIRECT_PTRS && Readable(st.disk, ino.direct[k]) && off + n <= BLOCK
    ensures st.s.dataRegionAddr * BLOCK <= Ptr(ino.direct[k]) * BLOCK + off
    ensures Ptr(ino.direct[k]) * BLOCK + off + n <= |st.disk|
  {
    NoneUnreadable(st.s, st.disk);
    DataPtr(st.s, st.disk, ino.direct[k]);
  }

  lemma OthersInside(s: Super, m: Meta, m': Meta, i: I32)
    requires PtrsInside(s, m) && |m'.inodes| == |m.inodes| && 0 <= i < |m.inodes| && |m'.ibm| == |m.ibm|
    requires forall j: I32 {:trigger Live(m', j)} :: Live(m', j) && j != i ==> Live(m, j) && m'.inodes[j] == m.inodes[j]
    requires InodeInside(s, m'.inodes[i])
    ensures PtrsInside(s, m')
  {
  }

  // ---------- creat ----------

  lemma HoleStays(st: State, p: I32, ent: DirEnt, junk: Junk)
    requires InRange(st, p) && JunkOK(junk) && |ent.name| < NAME_SIZE
    requires PtrsInside(st.s, st.m) && Live(st.m, p)
    ensures Stays(st, LinkInHole(st, p, ent, junk)) && LinkInHole(st, p, ent, junk).st.m == st.m
  {
    hide EncodeEntry, Splice;
    var f := FindSlot(st.disk, st.m.inodes[p].direct, 0);
    if f.Found? {
      OwnPtrInside(st, st.m.inodes[p], f.k, ENTRY_SIZE * f.j, ENTRY_SIZE);
    }
  }

  lemma NewBlockStays(st: State, p: I32, ent: DirEnt, b: nat, junk: Junk)
    requires InRange(st, p) && b < st.s.numData && JunkOK(junk) && |ent.name| < NAME_SIZE
    requires PtrsInside(st.s, st.m) && Live(st.m, p)
    ensures Stays(st, LinkInNewBlock(st, p, ent, b, junk)) && Live(LinkInNewBlock(st, p, ent, b, junk).st.m, p)
  {
    hide DirBlock, Splice, FirstNone;
    DataAddrInside(st, b);
    var r := LinkInNewBlock(st, p, ent, b, junk);
    assert InodeInside(st.s, st.m.inodes[p]);
    OthersInside(st.s, st.m, r.st.m, p);
  }

  lemma GrowInside(st: State, p: I32, n: int)
    requires InRange(st, p) && PtrsInside(st.s, st.m) && Live(st.m, p)
    ensures PtrsInside(st.s, PutInode(st, p, Grow(st.m.inodes[p], n)).m)
  {
    assert InodeInside(st.s, st.m.inodes[p]);
    OthersInside(st.s, st.m, PutInode(st, p, Grow(st.m.inodes[p], n)).m, p);
  }

  lemma LinkStays(st: State, p: I32, ent: DirEnt, full: bool, b: int, junk: Junk)
    requires InRange(st, p) && -1 <= b < st.s.numData && JunkOK(junk) && |ent.name| < NAME_SIZE
    requires PtrsInside(st.s, st.m) && Live(st.m, p)
    ensures Stays(st, Link(st, p, ent, full, b, junk))
  {
    hide LinkInNewBlock, LinkInHole, InodeInside;
    var st1 := MarkInode(st, p);
    if full && b != -1 {
      NewBlockStays(st1, p, ent, b, junk);
      GrowInside(LinkInNewBlock(st1, p, ent, b, junk).st, p, ENTRY_SIZE);
    } else if !full {
      HoleStays(st1, p, ent, junk);
      GrowInside(LinkInHole(st1, p, ent, junk).st, p, ENTRY_SIZE);
    }
  }

  lemma MakeDirStays(st: State, e: I32, p: I32, b: nat, junk: Junk)
    requires InRange(st, e) && Live(st.m, e) && b < st.s.numData && JunkOK(junk) && PtrsInside(st.s, st.m)
    ensures Stays(st, MakeDir(st, e, p, b, junk)) && MakeDir(st, e, p, b, junk).st.m.ibm == st.m.ibm
  {
    hide DirBlock, Splice;
    DataAddrInside(st, b);
    assert InodeInside(st.s, st.m.inodes[e]);
    OthersInside(st.s, st.m, MakeDir(st, e, p, b, junk).st.m, e);
  }

  lemma SizeInside(st: State, e: I32)
    requires InRange(st, e) && PtrsInside(st.s, st.m) && Live(st.m, e)
    ensures PtrsInside(st.s, PutInode(st, e, st.m.inodes[e].(size := 0)).m)
  {
    assert InodeInside(st.s, st.m.inodes[e]);
    OthersInside(st.s, st.m, PutInode(st, e, st.m.inodes[e].(size := 0)).m, e);
  }

  lemma PlaceStays(st: State, p: I32, kind: I32, ent: DirEnt, full: bool, b: int, b2: int, junk: Junk)
    requires InRange(st, p) && InRange(st, ent.inum) && JunkOK(junk) && |ent.name| < NAME_SIZE
    requires -1 <= b < st.s.numData && -1 <= b2 < st.s.numData
    requires PtrsInside(st.s, st.m) && Live(st.m, p) && Live(st.m, ent.inum)
    ensures Stays(st, Place(st, p, kind, ent, full, b, b2, junk))
  {
    hide Link, MakeDir, InodeInside;
    var e := ent.inum;
    if kind != DIRECTORY {
      var st1 := PutInode(st, e, st.m.inodes[e].(size := 0));
      SizeInside(st, e);
      LinkStays(st1, p, ent, full, b, junk);
    } else if b != -1 {
      MakeDirStays(st, e, p, b, junk);
      LinkStays(MakeDir(st, e, p, b, junk).st, p, ent, full, b2, junk);
    }
  }

  lemma CreatStays(st: State, p: I32, kind: I32, name: Name, junk: Junk)
    requires PtrsInside(st.s, st.m) && JunkOK(junk)
    ensures Stays(st, Creat(st, p, kind, name, junk))
  {
    hide Lookup, Place, FullScan;
    var e := FirstClear(st.m.ibm, 0, st.s.numInodes);
    if Allocated(st, p) && |name| <= 27 && e != -1 {
      var st1 := ClaimInode(st, e, kind);
      OthersInside(st.s, st.m, st1.m, e);
      var full := FullScan(st.disk, st1.m.inodes[p].direct, 0) == Ret(1);
      PlaceStays(st1, p, kind, DirEnt(name, e), full, FirstClear(st1.m.dbm, 0, st.s.numData),
                 SecondClear(st1.m.dbm, st.s.numData), junk);
    }
  }

  // ---------- write ----------

  lemma AttachInside(st: State, i: I32, k: nat)
    requires InRange(st, i) && Live(st.m, i) && k < DIRECT_PTRS && PtrsInside(st.s, st.m)
    ensures PtrsInside(st.s, Attach(st, i, k).m) && Live(Attach(st, i, k).m, i)
  {
    if st.m.inodes[i].direct[k] == NONE && FirstClear(st.m.dbm, 0, st.s.numData) != -1 {
      DataAddrInside(st, FirstClear(st.m.dbm, 0, st.s.numData));
    }
    assert InodeInside(st.s, st.m.inodes[i]);
    OthersInside(st.s, st.m, Attach(st, i, k).m, i);
  }

  lemma RoundStays(st: State, i: I32, k: nat, off: nat, bs: seq<Byte>)
    requires InRange(st, i) && Live(st.m, i) && k < DIRECT_PTRS && off + |bs| <= BLOCK && PtrsInside(st.s, st.m)
    requires Readable(st.disk, RoundPtr(st, i, k))
    ensures st.s.dataRegionAddr * BLOCK <= RoundWrite(st, i, k, off, bs).addr
    ensures PtrsInside(st.s, Round(st, i, k, off, bs).m) && Live(Round(st, i, k, off, bs).m, i)
  {
    hide Attach, Splice;
    AttachInside(st, i, k);
    var st1 := Attach(st, i, k);
    OwnPtrInside(st1, st1.m.inodes[i], k, off, |bs|);
    GrowInside(st1, i, |bs|);
  }

  lemma NothingStays(st: State, r: Step)
    requires r.st.s == st.s && r.pre == [] && PtrsInside(st.s, r.st.m)
    ensures Stays(st, r)
  {
  }

  lemma StaysLonger(st: State, st1: State, w: DiskWrite, rest: Step, r: Step)
    requires st1.s == st.s && |st1.disk| == |st.disk| && Stays(st1, rest)
    requires st.s.dataRegionAddr * BLOCK <= w.addr && w.addr + |w.bytes| <= |st.disk|
    requires r.st == rest.st && r.pre == [w] + rest.pre
    ensures Stays(st, r)
  {
    hide PtrsInside;
  }

  lemma {:induction false} WriteFromStays(st: State, i: I32, k: nat, off: nat, data: seq<Byte>)
    requires InRange(st, i) && Live(st.m, i) && off < BLOCK && PtrsInside(st.s, st.m)
    ensures Stays(st, WriteFrom(st, i, k, off, data))
    decreases |data|
  {
    hide Round, RoundPtr, RoundWrite, Attach, Stays, PtrsInside, Live, Readable;
    var r := WriteFrom(st, i, k, off, data);
    if k < DIRECT_PTRS && data != [] {
      AttachInside(st, i, k);
    }
    if k < DIRECT_PTRS && data != [] && RoundPtr(st, i, k) != NONE && Readable(st.disk, RoundPtr(st, i, k)) {
      var n := Chunk(data, off);
      var st1 := Round(st, i, k, off, data[..n]);
      RoundStays(st, i, k, off, data[..n]);
      WriteFromStays(st1, i, k + 1, 0, data[n..]);
      StaysLonger(st, st1, RoundWrite(st, i, k, off, data[..n]), WriteFrom(st1, i, k + 1, 0, data[n..]), r);
    } else {
      NothingStays(st, r);
    }
  }

  lemma WriteStays(st: State, i: I32, data: seq<Byte>, offset: I32, nbytes: I32)
    requires PtrsInside(st.s, st.m) && nbytes <= |data|
    ensures Stays(st, Write(st, i, data, offset, nbytes))
  {
    hide WriteFrom, InodeInside;
    if Allocated(st, i) && 0 <= offset && 0 < nbytes {
      WriteFromStays(MarkInode(st, i), i, offset / BLOCK, offset % BLOCK, data[..nbytes]);
    }
  }

  // ---------- unlink ----------

  lemma DropEntryWrites(st: State, p: I32, name: Name, base: nat, junk: Junk) returns (r: Step)
    requires InRange(st, p) && JunkOK(junk) && InodeInside(st.s, st.m.inodes[p])
    ensures r == DropEntry(st, p, name, base, junk)
    ensures 0 <= st.s.dataRegionAddr && Inside(r.pre, st.s.dataRegionAddr * BLOCK, |st.disk|)
    ensures r.st.m.ibm == st.m.ibm && r.st.m.inodes == st.m.inodes[p := r.st.m.inodes[p]]
    ensures InodeInside(st.s, r.st.m.inodes[p])
  {
    hide Free, FindName, EncodeUnused, Splice;
    var f := FindName(st.disk, st.m.inodes[p].direct, name, 0);
    if f.Spot? {
      OwnPtrInside(st, st.m.inodes[p], f.k, ENTRY_SIZE * f.j, ENTRY_SIZE);
    }
    r := DropEntry(st, p, name, base, junk);
  }

  // st1 is st without some inode bits.
  lemma DropEntryStays(st: State, st1: State, p: I32, name: Name, base: nat, junk: Junk)
    requires InRange(st, p) && Live(st.m, p) && JunkOK(junk) && PtrsInside(st.s, st.m)
    requires st1.s == st.s && st1.disk == st.disk && st1.m.inodes == st.m.inodes
    requires forall i: I32 {:trigger Live(st1.m, i)} :: Live(st1.m, i) ==> Live(st.m, i)
    ensures Stays(st, DropEntry(st1, p, name, base, junk))
  {
    hide DropEntry, InodeInside;
    var r := DropEntryWrites(st1, p, name, base, junk);
    forall j: I32 | Live(r.st.m, j) && j != p
      ensures Live(st.m, j) && r.st.m.inodes[j] == st.m.inodes[j]
    {
      assert Live(st1.m, j);
    }
    OthersInside(st.s, st.m, r.st.m, p);
  }

  lemma UnlinkStays(st: State, p: I32, name: Name, base: nat, junk: Junk)
    requires PtrsInside(st.s, st.m) && JunkOK(junk)
    ensures Stays(st, Unlink(st, p, name, base, junk))
  {
    hide Free, DropEntry, Lookup;
    match Lookup(st, p, name)
    case Ret(c) =>
      if Allocated(st, p) && InRange(st, c) {
        var drop := DropChild(st, p, c, base);
        assert forall i: I32 :: Live(drop.st.m, i) ==> Live(st.m, i);
        DropEntryStays(st, drop.st, p, name, base, junk);
      }
    case _ =>
  }

  // ---------- what every call keeps ----------

  // Writes to the data region change nothing a mount loads.
  lemma StaysLoads(st: State, r: Step)
    requires Stays(st, r) && StepFrom(st, r)
    ensures Load(st.s, r.st.disk) == Load(st.s, st.disk) && r.st.disk[..SUPER_SIZE] == st.disk[..SUPER_SIZE]
  {
    hide Load, PtrsInside;
    ApplyOutside(st.disk, r.pre, st.s.dataRegionAddr * BLOCK, |st.disk|);
    LoadBelowData(st.s, st.disk, r.st.disk);
  }

  lemma CommitKeepsOrder(st: State)
    requires Marked(st)
    ensures Marked(Commit(st)) && Synced(Commit(st)) && Commit(st).disk[..SUPER_SIZE] == st.disk[..SUPER_SIZE]
  {
    hide Load, CommitLog;
    var l := Load(st.s, st.disk);
    CommitRestores(st);
    forall b | 0 <= b < WORD_BITS * |st.m.dbm| && st.s.numData <= b
      ensures !Get(st.m.dbm, b)
    {
      assert Get(st.m.dbm, b) == Get(l.dbm, b);
    }
    ApplyOutside(st.disk, CommitLog(st), BLOCK, st.s.dataRegionAddr * BLOCK);
  }

  // Without anything about spare bits.
  lemma StaysCovered(st: State, r: Step)
    requires Covered(st) && Stays(st, r) && StepFrom(st, r)
    requires Covers(st.s, Load(st.s, st.disk), r.st.m, r.st.dirtyI, r.st.dirtyD)
    ensures Covered(r.st) && Covered(Finish(r)) && (r.out == Ret(0) ==> Synced(Finish(r)))
  {
    hide Load, Covers, PtrsInside, CommitLog;
    StaysLoads(st, r);
    if r.out == Ret(0) {
      CommitRestores(r.st);
    }
  }

  lemma StaysOrderly(st: State, r: Step)
    requires Orderly(st) && Stays(st, r) && StepFrom(st, r)
    requires Covers(st.s, Load(st.s, st.disk), r.st.m, r.st.dirtyI, r.st.dirtyD)
    ensures Orderly(r.st) && Orderly(Finish(r)) && (r.out == Ret(0) ==> Synced(Finish(r)))
    ensures r.st.disk[..SUPER_SIZE] == st.disk[..SUPER_SIZE] == Finish(r).disk[..SUPER_SIZE]
  {
    hide Load, Covers, PtrsInside, Commit;
    StaysLoads(st, r);
    if r.out == Ret(0) {
      CommitKeepsOrder(r.st);
      assert Finish(r).m == r.st.m;
    }
  }

  // After any write that returns 0, an overwrite included, a mount loads exactly what memory holds.
  lemma WriteSyncs(st: State, i: I32, data: seq<Byte>, offset: I32, nbytes: I32) returns (r: Step)
    requires PtrsInside(st.s, st.m) && Covered(st) && nbytes <= |data|
    ensures r == Write(st, i, data, offset, nbytes)
    ensures Covered(Finish(r)) && (r.out == Ret(0) ==> Synced(Finish(r)))
  {
    hide Load, Covers, Write, PtrsInside, Finish;
    r := Write(st, i, data, offset, nbytes);
    WriteStays(st, i, data, offset, nbytes);
    WriteCovers(Load(st.s, st.disk), st, i, data, offset, nbytes);
    StaysCovered(st, r);
  }

  lemma CreatKeepsOrder(st: State, p: I32, kind: I32, name: Name, junk: Junk) returns (r: Step)
    requires Orderly(st) && JunkOK(junk)
    ensures r == Creat(st, p, kind, name, junk)
    ensures Orderly(r.st) && Orderly(Finish(r)) && (r.out == Ret(0) ==> Synced(Finish(r)))
    ensures r.st.disk[..SUPER_SIZE] == st.disk[..SUPER_SIZE] == Finish(r).disk[..SUPER_SIZE]
  {
    hide Load, Covers, Creat, PtrsInside, Finish;
    r := Creat(st, p, kind, name, junk);
    CreatStays(st, p, kind, name, junk);
    CreatCovers(Load(st.s, st.disk), st, p, kind, name, junk);
    StaysOrderly(st, r);
  }

  lemma WriteKeepsOrder(st: State, i: I32, data: seq<Byte>, offset: I32, nbytes: I32) returns (r: Step)
    requires Orderly(st) && nbytes <= |data|
    ensures r == Write(st, i, data, offset, nbytes)
    ensures Orderly(r.st) && Orderly(Finish(r)) && (r.out == Ret(0) ==> Synced(Finish(r)))
    ensures r.st.disk[..SUPER_SIZE] == st.disk[..SUPER_SIZE] == Finish(r).disk[..SUPER_SIZE]
  {
    hide Load, Covers, Write, PtrsInside, Finish;
    r := Write(st, i, data, offset, nbytes);
    WriteStays(st, i, data, offset, nbytes);
    WriteCovers(Load(st.s, st.disk), st, i, data, offset, nbytes);
    StaysOrderly(st, r);
  }

  lemma UnlinkKeepsOrder(st: State, p: I32, name: Name, base: nat, junk: Junk) returns (r: Step)
    requires Orderly(st) && JunkOK(junk)
    ensures r == Unlink(st, p, name, base, junk)
    ensures Orderly(r.st) && Orderly(Finish(r)) && (r.out == Ret(0) ==> Synced(Finish(r)))
    ensures r.st.disk[..SUPER_SIZE] == st.disk[..SUPER_SIZE] == Finish(r).disk[..SUPER_SIZE]
  {
    hide Load, Covers, PadClear, Unlink, PtrsInside, Finish;
    r := Unlink(st, p, name, base, junk);
    UnlinkStays(st, p, name, base, junk);
    UnlinkCovers(Load(st.s, st.disk), st, p, name, base, junk);
    StaysOrderly(st, r);
  }

  // ---------- runs of all three calls ----------

  lemma CallKeepsOrder(st: State, c: Call) returns (r: Step)
    requires Orderly(st) && CallOK(c)
    ensures r == Do(st, c)
    ensures Orderly(r.st) && Orderly(Finish(r)) && (r.out == Ret(0) ==> Synced(Finish(r)))
    ensures r.st.disk[..SUPER_SIZE] == st.disk[..SUPER_SIZE] == Finish(r).disk[..SUPER_SIZE]
  {
    hide Orderly, Synced, Creat, Write, Unlink, Finish;
    match c
    case CreatCall(p, kind, name, junk) => r := CreatKeepsOrder(st, p, kind, name, junk);
    case WriteCall(i, data, offset) => r := WriteKeepsOrder(st, i, data, offset, |data|);
    case UnlinkCall(p, name, base, junk) => r := UnlinkKeepsOrder(st, p, name, base, junk);
  }

  // Over every run of creats, writes and unlinks, whatever they do to the tree and to the data bitmap: every
  // difference between memory and disk stays marked, and after each call that returns 0 there is none.
  lemma {:induction false} RunKeepsOrder(sts: seq<State>, calls: seq<Call>, n: nat)
    requires Run(sts, calls) && n <= |calls| && Orderly(sts[0])
    ensures Orderly(sts[n]) && sts[n].disk[..SUPER_SIZE] == sts[0].disk[..SUPER_SIZE]
    ensures n > 0 && Do(sts[n - 1], calls[n - 1]).out == Ret(0) ==> Synced(sts[n])
    decreases n
  {
    hide Orderly, Synced, Do, Finish;
    if n > 0 {
      RunKeepsOrder(sts, calls, n - 1);
      var r := CallKeepsOrder(sts[n - 1], calls[n - 1]);
    }
  }
}
