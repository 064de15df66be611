// Steps from a tree that is all there is, such as the empty root of a new disk: what each leaves, named exactly.

module FsFirst {
  import opened Bits
  import opened Bytes
  import opened Format
  import opened Tree
  import opened FsModel
  import opened FsInv
  import opened FsLookup
  import opened FsCreat
  import opened FsWrite
  import opened FsAppend
  import opened FsMarks
  import opened FsCalls
  import opened FsForest
  import opened FsRun
  import opened FsUndo
  import opened FsReturns

  // The tree t is all that the allocated inodes show, and n blocks are free.
  ghost predicate Whole(st: State, t: Tree, n: nat) {
    Good(st, t, t) && Tight(st, t) && FreeBlocks(st.m.dbm, 0, st.s.numData) == n
  }

  lemma SameKeys(t: Tree, u: Tree)
    requires Within(t, u) && u.Keys <= t.Keys
    ensures t == u
  {
  }

  lemma InForest(st: State, t: Tree, n: nat, p: I32)
    requires Whole(st, t, n) && p in t
    ensures Allocated(st, p)
  {
    hide TreeOK, Marked, FreeBlocks;
    LiveKey(st, t, p);
  }

  lemma AddChildKeys(t: Tree, p: I32, kind: I32, name: Name, e: I32, t': Tree)
    requires IsDir(t, p) && t.Keys <= t'.Keys && e in t' && Within(t', AddChild(t, p, kind, name, e))
    ensures t' == AddChild(t, p, kind, name, e)
  {
    var u' := AddChild(t, p, kind, name, e);
    forall i | i in u'
      ensures i in t'
    {
      assert i == e || i in t;
    }
    SameKeys(t', u');
  }

  lemma StillTight(st: State, st': State, t: Tree, p: I32, kind: I32, name: Name, e: I32)
    requires Tight(st, t) && IsDir(t, p) && st'.s == st.s && InRange(st, e) && st'.m.ibm == Set(st.m.ibm, e)
    ensures Tight(st', AddChild(t, p, kind, name, e))
  {
    forall i
      ensures !Outside(st', AddChild(t, p, kind, name, e), i)
    {
      assert !Outside(st, t, i);
    }
  }

  lemma NewBit(st: State, t: Tree, p: I32, kind: I32, name: Name, junk: Junk)
    requires Grown(st, t, t) && CanCreate(st, t, p, kind, name) && JunkOK(junk)
    ensures Creat(st, p, kind, name, junk).st.m.ibm == Set(st.m.ibm, FirstClear(st.m.ibm, 0, st.s.numInodes))
  {
    hide Creat, CanCreate, Refines, TreeOK;
    IsParent(st, t, p, kind, name);
    assert LiveEntries(t[p].entries);
    CreatMeta(st, t, p, kind, name, junk);
  }

  // A creat that can succeed.
  lemma CreatStep(st: State, t: Tree, n: nat, p: I32, kind: I32, name: Name, junk: Junk)
    returns (r: Step, t': Tree, e: I32)
    requires Whole(st, t, n) && CanCreate(st, t, p, kind, name) && JunkOK(junk)
    ensures r == Creat(st, p, kind, name, junk) && r.out == Ret(0) && IsDir(t, p) && Finish(r).s == st.s
    ensures e == FirstClear(st.m.ibm, 0, st.s.numInodes) && InRange(st, e) && e !in t
    ensures t' == AddChild(t, p, kind, name, e) && Needed(kind, |t[p].entries|) <= n
    ensures Whole(Finish(r), t', n - Needed(kind, |t[p].entries|)) && Finish(r).m.ibm == Set(st.m.ibm, e)
    ensures Finish(r).disk[..SUPER_SIZE] == st.disk[..SUPER_SIZE]
  {
    hide Creat, TreeOK, Ref, Marked, FreeBlocks, Commit, AllPlaced, Loose, Forest, Tight, CanCreate, Needed;
    e := FirstClear(st.m.ibm, 0, st.s.numInodes);
    GoodIsOrderly(st, t, t);
    IsParent(st, t, p, kind, name);
    NewBit(st, t, p, kind, name, junk);
    CreatCounts(st, t, t, p, kind, name, junk);
    var u';
    r, t', u' := CreatGrows(st, t, t, p, kind, name, junk);
    AddChildKeys(t, p, kind, name, e, t');
    var q := CreatKeepsOrder(st, p, kind, name, junk);
    LiveKey(r.st, u', e);
    CommitKeepsGood(r.st, t', u');
    StillTight(st, Finish(r), t, p, kind, name, e);
  }

  lemma PatchAll(data: seq<Byte>)
    ensures Patch(File(1, []), 0, data) == File(1, data)
  {
    assert [] + data == data;
  }

  lemma FileIsEmpty(st: State, t: Tree, i: I32)
    requires Ref(st, t) && i in t && t[i] == File(1, [])
    ensures Allocated(st, i) && st.m.inodes[i].direct[0] == 0xFFFF_FFFF
  {
    assert ShowsAt(st.s, st.m, st.disk, t, i);
  }

  lemma StillWhole(st: State, st': State, t: Tree, t': Tree)
    requires Tight(st, t) && st'.s == st.s && st'.m.ibm == st.m.ibm && t.Keys <= t'.Keys
    ensures Tight(st', t')
  {
    forall i
      ensures !Outside(st', t', i)
    {
      assert !Outside(st, t, i);
    }
  }

  lemma WriteCounts(st: State, i: I32, data: seq<Byte>)
    requires Allocated(st, i) && st.m.inodes[i].direct[0] == 0xFFFF_FFFF && 0 < |data| <= 4096
    requires Write(st, i, data, 0, |data|).out == Ret(0)
    ensures FreeBlocks(Write(st, i, data, 0, |data|).st.m.dbm, 0, st.s.numData) + 1
            == FreeBlocks(st.m.dbm, 0, st.s.numData)
  {
    hide WriteFrom, FreeBlocks, Missing;
    assert data[..|data|] == data;
    RoomUsed(MarkInode(st, i), i, 0, 0, data);
    OneMissing(st.m.inodes[i].direct, |data|);
  }

  // The first write to a file.
  lemma WriteStep(st: State, t: Tree, n: nat, i: I32, data: seq<Byte>) returns (r: Step, t': Tree)
    requires Whole(st, t, n) && i in t && t[i] == File(1, []) && 0 < |data| <= 4096 && n > 0
    ensures r == Write(st, i, data, 0, |data|) && r.out == Ret(0) && Finish(r).s == st.s
    ensures t' == t[i := File(1, data)] && Whole(Finish(r), t', n - 1) && Finish(r).m.ibm == st.m.ibm
    ensures Finish(r).disk[..SUPER_SIZE] == st.disk[..SUPER_SIZE] && Synced(Finish(r))
  {
    hide Write, TreeOK, Refines, Marked, FreeBlocks, Commit, AllPlaced, Loose, Forest, Tight, Missing, Payload, Patch;
    var w := WriteRefines(st, t, i, data, 0);
    FileIsEmpty(st, t, i);
    OneMissing(st.m.inodes[i].direct, |data|);
    PatchAll(data);
    assert data[..|data|] == data;
    var u';
    r, t', u' := CallKeepsGood(st, t, t, WriteCall(i, data, 0));
    WriteFrame(st, i, data, 0);
    StillWhole(st, Finish(r), t, t');
    TightIsAll(Finish(r), t', u');
    WriteCounts(st, i, data);
  }

  // Mounted again, a disk in step with memory shows the same tree.
  lemma RemountShows(st: State, t: Tree, n: nat, st': State)
    requires Whole(st, t, n) && Synced(st) && st'.s == st.s && st'.disk == st.disk && st'.m == Load(st.s, st.disk)
    ensures Shows(st'.s, st'.m, st'.disk, t) && forall d :: IsDir(t, d) ==> LiveEntries(t[d].entries)
  {
    hide Load, TreeOK, AllocOK;
  }
}
