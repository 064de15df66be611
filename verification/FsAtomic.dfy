// Which calls can be stopped in the middle of their commit and leave the old or the new metadata all the same.

module FsAtomic {
  import opened Bits
  import opened Bytes
  import opened Format
  import opened Tree
  import opened FsModel
  import opened FsInv
  import opened FsCreat
  import opened FsWrite
  import opened FsAppend
  import opened FsCommit
  import opened FsCommitCrash
  import opened FsCover
  import opened FsMarks
  import opened FsForest
  import opened FsRun

  // Stopped between any two writes of its commit, the call leaves the old or the new metadata to be loaded.
  ghost predicate Atomic(st: State, r: Step) {
    r.st.s == st.s
    && forall n {:trigger Halfway(r.st, n)} :: 0 <= n <= |CommitLog(r.st)| ==>
         Load(st.s, Halfway(r.st, n)) in {st.m, r.st.m}
  }

  // From a state in step with its disk, for a call that wrote data blocks only.
  lemma AtomicIff(st: State, r: Step)
    requires Synced(st) && Stays(st, r) && StepFrom(st, r) && Covered(r.st)
    ensures SameShape(st.m, r.st.m) && (Atomic(st, r) <==> AtMostOne(st.m, r.st.m))
  {
    hide Load, Halfway, CommitLog, AtMostOne, Inside, PtrsInside;
    StaysLoads(st, r);
    CommitAtomicIff(r.st);
  }

  lemma TwoDiffer(m: Meta, m': Meta, p: nat, e: nat)
    requires SameShape(m, m') && p < |m.inodes| && m'.inodes[p] != m.inodes[p]
    requires e < WORD_BITS * |m.ibm| && Get(m'.ibm, e) != Get(m.ibm, e)
    ensures !AtMostOne(m, m')
  {
    assert Differ(m, m', OneInode(p)) && Differ(m, m', InodeWord(e / WORD_BITS));
  }

  lemma GrownSize(st: State, u: Tree, p: I32)
    requires Ref(st, u) && IsDir(u, p)
    ensures InRange(st, p) && st.m.inodes[p].size == ENTRY_SIZE * |u[p].entries|
  {
    assert ShowsAt(st.s, st.m, st.disk, u, p);
  }

  // No creat that succeeds is atomic: its commit can be stopped where a mount finds neither the old nor the new
  // metadata.
  lemma CreatNeverAtomic(st: State, t: Tree, u: Tree, p: I32, kind: I32, name: Name, junk: Junk) returns (r: Step)
    requires Good(st, t, u) && Synced(st) && JunkOK(junk) && CanCreate(st, u, p, kind, name)
    ensures r == Creat(st, p, kind, name, junk) && r.out == Ret(0) && !Atomic(st, r)
  {
    hide Creat, Refines, TreeOK, Load, Atomic, AtMostOne, Covers, PadClear, Needed, FreeBlocks, Finish;
    GoodIsOrderly(st, t, u);
    var e := FirstClear(st.m.ibm, 0, st.s.numInodes);
    var t', u';
    r, t', u' := CreatGrows(st, t, u, p, kind, name, junk);
    var q := CreatKeepsOrder(st, p, kind, name, junk);
    CreatStays(st, p, kind, name, junk);
    AtomicIff(st, r);
    LiveKey(r.st, u', e);
    GrownSize(st, u, p);
    GrownSize(r.st, u', p);
    TwoDiffer(st.m, r.st.m, p, e);
  }

  // Only inode i differs, and possibly words of the data bitmap.
  lemma OneOrMore(m: Meta, m': Meta, i: I32)
    requires SameShape(m, m') && 0 <= i < |m.inodes| && m'.ibm == m.ibm && OnlyInodes(m, m', i, i)
    requires m'.dbm != m.dbm ==> m'.inodes[i] != m.inodes[i]
    ensures AtMostOne(m, m') <==> m'.dbm == m.dbm
  {
    if m'.dbm != m.dbm {
      assert Differ(m, m', OneInode(i));
      var k :| 0 <= k < |m.dbm| && m'.dbm[k] != m.dbm[k];
      assert Differ(m, m', DataWord(k));
    }
  }

  lemma WrapGrows(x: I32, n: nat)
    requires 0 < n < 0x8000_0000
    ensures Wrap(x + n) != x
  {
  }

  // A write that returns 0 is atomic exactly when it needed no new block.
  lemma WriteAtomicIff(st: State, i: I32, data: seq<Byte>, offset: I32) returns (r: Step)
    requires AllocOK(st.s, st.m) && Marked(st) && Synced(st) && |data| < 0x8000_0000
    ensures r == Write(st, i, data, offset, |data|)
    ensures r.out == Ret(0) ==>
      && Allocated(st, i) && 0 <= offset
      && (Atomic(st, r) <==> Missing(st.m.inodes[i].direct, offset / BLOCK, offset % BLOCK, |data|) == 0)
  {
    hide AllocOK, Load, Atomic, AtMostOne, Covers, PadClear, WriteFrom, Missing, FreeBlocks, Finish;
    hide PtrsWrote, BytesWrote, OthersKept, Wrap, Payload;
    r := Write(st, i, data, offset, |data|);
    assert data[..|data|] == data;
    if r.out == Ret(0) {
      AllocInside(st.s, st.m);
      var q := WriteKeepsOrder(st, i, data, offset, |data|);
      WriteStays(st, i, data, offset, |data|);
      AtomicIff(st, r);
      var st0, k, off := MarkInode(st, i), offset / BLOCK, offset % BLOCK;
      WriteFrame(st, i, data, offset);
      var w := WriteFromWrote(st0, i, k, off, data, offset);
      RoomUsed(st0, i, k, off, data);
      if Missing(st.m.inodes[i].direct, k, off, |data|) == 0 {
        NoneMissed(st0, i, k, off, data);
      }
      if k >= DIRECT_PTRS {
        NothingMissing(st.m.inodes[i].direct, k, off, |data|);
      } else {
        WrapGrows(st.m.inodes[i].size, |Payload(w.pre)|);
      }
      OneOrMore(st.m, r.st.m, i);
    }
  }
}
