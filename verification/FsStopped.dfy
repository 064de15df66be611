// Stopping an append or a creat anywhere, inside its commit too: what a mount then shows.

module FsStopped {
  import opened Bytes
  import opened Format
  import opened Tree
  import opened FsModel
  import opened FsInv
  import opened FsCommitCrash
  import opened FsCrash
  import opened FsMarks
  import opened FsCalls
  import opened FsForest
  import opened FsRun
  import opened FsCrashRun

  // ---------- what answers depend on ----------

  // Both states give the same answer to every lookup and every read.
  ghost predicate SameAnswers(st: State, st': State) {
    && (forall p, name {:trigger Lookup(st, p, name)} {:trigger Lookup(st', p, name)} ::
          Lookup(st, p, name) == Lookup(st', p, name))
    && (forall i, offset, nbytes {:trigger Read(st, i, offset, nbytes)} {:trigger Read(st', i, offset, nbytes)} ::
          Read(st, i, offset, nbytes) == Read(st', i, offset, nbytes))
  }

  // The disks agree from the data region on.
  ghost predicate SameData(s: Super, d: seq<Byte>, d': seq<Byte>) {
    |d'| == |d| && forall a {:trigger d[a]} {:trigger d'[a]} ::
      0 <= s.dataRegionAddr * BLOCK <= a < |d| ==> d'[a] == d[a]
  }

  lemma SameDataBlocks(s: Super, ino: Inode, d: seq<Byte>, d': seq<Byte>)
    requires Layout(s, |d|) && SameData(s, d, d') && InodeInside(s, ino)
    ensures |d'| == |d| && SameBlocks(ino, d, d')
  {
    forall k | 0 <= k < DIRECT_PTRS && ino.direct[k] != NONE
      ensures var p := ino.direct[k]; Readable(d, p) && Readable(d', p) && PtrBlock(d', p) == PtrBlock(d, p)
    {
      DataPtr(s, d, ino.direct[k]);
    }
  }

  lemma {:induction false} ScanSame(s: Super, d: seq<Byte>, d': seq<Byte>, ino: Inode, e: nat, left: nat, name: Name)
    requires Layout(s, |d|) && |d'| == |d| && SameBlocks(ino, d, d')
    ensures Scan(d', ino, e, left, name) == Scan(d, ino, e, left, name)
    decreases left
  {
    NoneUnreadable(s, d);
    if e < DIRECT_PTRS * ENTRIES && left > 0 {
      ScanSame(s, d, d', ino, e + 1, left - 1, name);
    }
  }

  lemma {:induction false} ReadFromSame(s: Super, d: seq<Byte>, d': seq<Byte>, ino: Inode, k: nat, off: nat, n: nat)
    requires Layout(s, |d|) && |d'| == |d| && SameBlocks(ino, d, d') && off < BLOCK
    ensures ReadFrom(d', ino.direct, k, off, n) == ReadFrom(d, ino.direct, k, off, n)
    decreases n
  {
    NoneUnreadable(s, d);
    if k < DIRECT_PTRS && n > 0 {
      ReadFromSame(s, d, d', ino, k + 1, 0, n - if n > BLOCK - off then BLOCK - off else n);
    }
  }

  // Answers depend on the inode bitmap, the inodes and the data region only.
  lemma DependsOn(st: State, st': State)
    requires st'.s == st.s && st'.m.ibm == st.m.ibm && st'.m.inodes == st.m.inodes && PtrsInside(st.s, st.m)
    requires SameData(st.s, st.disk, st'.disk)
    ensures SameAnswers(st, st')
  {
    hide SameData, ReadFrom, Scan, InodeInside, SameBlocks;
    forall i: I32 | Allocated(st, i)
      ensures |st'.disk| == |st.disk| && SameBlocks(st.m.inodes[i], st.disk, st'.disk)
    {
      assert Live(st.m, i);
      SameDataBlocks(st.s, st.m.inodes[i], st.disk, st'.disk);
    }
    forall p: I32, name: Name
      ensures Lookup(st, p, name) == Lookup(st', p, name)
    {
      if Allocated(st, p) {
        var ino := st.m.inodes[p];
        ScanSame(st.s, st.disk, st'.disk, ino, 0, Unsigned(ino.size) / ENTRY_SIZE, name);
      }
    }
    forall i: I32, offset: I32, nbytes: I32
      ensures Read(st, i, offset, nbytes) == Read(st', i, offset, nbytes)
    {
      if Allocated(st, i) && 0 <= offset && 0 < nbytes {
        ReadFromSame(st.s, st.disk, st'.disk, st.m.inodes[i], offset / BLOCK, offset % BLOCK, nbytes);
      }
    }
  }

  // ---------- the data region during a commit ----------

  lemma HalfwayData(st: State, n: nat)
    requires n <= |CommitLog(st)|
    ensures 0 <= st.s.dataRegionAddr && SameData(st.s, st.disk, Halfway(st, n))
    ensures Halfway(st, |CommitLog(st)|) == Commit(st).disk
  {
    hide CommitLog, Apply;
    var log := CommitLog(st);
    assert Inside(log[..n], BLOCK, st.s.dataRegionAddr * BLOCK);
    ApplyOutside(st.disk, log[..n], BLOCK, st.s.dataRegionAddr * BLOCK);
    assert log[..|log|] == log;
  }

  // ---------- an append ----------

  // The disk of a machine that stopped during the call: before its commit, where any write may have been cut off,
  // or between two writes of the commit.
  ghost predicate StoppedIn(st: State, r: Step, d': seq<Byte>) {
    || CrashDisk(st.disk, r.pre, d')
    || (r.out == Ret(0) && exists n :: 0 <= n <= |CommitLog(r.st)| && d' == Halfway(r.st, n))
  }

  // What a mount loads during the commit of a call that changed one inode and no inode bit: the old inodes or the
  // new ones.
  lemma OneInodeLoads(l: Meta, m: Meta, us: seq<Unit>, i: I32) returns (x: Meta)
    requires SameShape(l, m) && AllIn(m, us) && l.ibm == m.ibm && 0 <= i < |m.inodes| && OnlyInodes(l, m, i, i)
    ensures x == PutAll(l, m, us) && x.ibm == m.ibm && (x.inodes == l.inodes || x.inodes == m.inodes)
  {
    x := PutAll(l, m, us);
    forall k | 0 <= k < |m.ibm|
      ensures x.ibm[k] == m.ibm[k]
    {
      PutAllIs(l, m, us, InodeWord(k));
    }
    forall j | 0 <= j < |m.inodes|
      ensures x.inodes[j] == if OneInode(i) in us then m.inodes[j] else l.inodes[j]
    {
      PutAllIs(l, m, us, OneInode(j));
    }
  }

  lemma WholeIsCrash(st: State, r: Step)
    requires StepFrom(st, r)
    ensures CrashDisk(st.disk, r.pre, r.st.disk)
  {
    hide CrashDisk, Apply;
    PrefixIsCrash(st.disk, r.pre, |r.pre|);
    assert r.pre[..|r.pre|] == r.pre;
  }

  lemma DataBetween(s: Super, d: seq<Byte>, d1: seq<Byte>, d2: seq<Byte>)
    requires SameData(s, d, d1) && SameData(s, d, d2)
    ensures SameData(s, d1, d2)
  {
  }

  lemma WrittenIsThere(st: State, c: Call)
    requires CallOK(c) && c.WriteCall? && Do(st, c).out == Ret(0)
    ensures InRange(st, c.i)
  {
    hide WriteFrom;
  }

  // Between two writes of the commit of such a call.
  lemma CommitOldOrNew(st: State, t: Tree, u: Tree, c: Call, i: I32, n: nat, st': State)
    requires Good(st, t, u) && Synced(st) && CallOK(c) && c.WriteCall? && !Overwrites(st, c) && Do(st, c).out == Ret(0)
    requires n <= |CommitLog(Do(st, c).st)| && Mounted(st', st.s, Halfway(Do(st, c).st, n)) && i == c.i
    ensures SameAnswers(st', st) || SameAnswers(Finish(Do(st, c)), st')
  {
    hide Write, Good, Load, Overwrites, Halfway, CommitLog, CommitUnits, PutAll, SameData, Lookup, Read, PtrsInside;
    hide CrashDisk, Marked, Shows;
    GoodIsOrderly(st, t, u);
    var r := WriteKeepsOrder(st, i, c.data, c.offset, |c.data|);
    WriteStays(st, i, c.data, c.offset, |c.data|);
    WriteFrame(st, i, c.data, c.offset);
    StaysLoads(st, r);
    HalfwayLoads(r.st, n);
    HalfwayData(r.st, n);
    HalfwayData(r.st, |CommitLog(r.st)|);
    WrittenIsThere(st, c);
    var x := OneInodeLoads(st.m, r.st.m, CommitUnits(r.st)[..n], i);
    if x.inodes == r.st.m.inodes {
      DataBetween(st.s, r.st.disk, Finish(r).disk, st'.disk);
      DependsOn(Finish(r), st');
    } else {
      var st1 := r.st.(m := st.m);
      DependsOn(st1, st');
      WholeIsCrash(st, r);
      CrashGivesOldAnswers(st, t, u, c, r.st.disk, st1);
    }
  }

  // An append, from any good state in step with its disk, stopped anywhere from its first write to the end of its
  // commit: mounted again, the disk gives all the old answers or all the new ones, whether or not the append
  // needed new blocks.
  lemma AppendAllOrNothing(st: State, t: Tree, u: Tree, c: Call, d': seq<Byte>, st': State)
    requires Good(st, t, u) && Synced(st) && CallOK(c) && c.WriteCall? && !Overwrites(st, c)
    requires StoppedIn(st, Do(st, c), d') && Mounted(st', st.s, d')
    ensures SameAnswers(st', st) || SameAnswers(Finish(Do(st, c)), st')
  {
    hide Do, Good, Overwrites, Halfway, CommitLog, CrashDisk, Lookup, Read, Load, Shows;
    if CrashDisk(st.disk, Do(st, c).pre, d') {
      CrashGivesOldAnswers(st, t, u, c, d', st');
    } else {
      var n :| 0 <= n <= |CommitLog(Do(st, c).st)| && d' == Halfway(Do(st, c).st, n);
      CommitOldOrNew(st, t, u, c, c.i, n, st');
    }
  }
}
