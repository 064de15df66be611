// Whole runs of calls: every state refines an abstract tree.

module FsRun {
  import opened Bits
  import opened Bytes
  import opened Format
  import opened Tree
  import opened FsModel
  import opened FsInv
  import opened FsLookup
  import opened FsCreat
  import opened FsAppend
  import opened FsCommit
  import opened FsUnlink
  import opened FsUnlinkModel
  import opened FsMarks
  import opened FsCalls
  import opened FsForest
  import opened FsUnlinkStep

  // ---------- any call ----------

  // Inode i is allocated but not in the tree.
  predicate Outside(st: State, t: Tree, i: I32) {
    Allocated(st, i) && i !in t
  }

  // The call failed, but an inode stayed claimed.
  predicate Leaks(st: State, c: Call)
    requires CallOK(c)
  {
    Do(st, c).out != Ret(0) && Do(st, c).st.m.ibm != st.m.ibm
  }

  // The inode a call leaks, if it does.
  function Leak(st: State, c: Call): set<I32>
    requires CallOK(c)
  {
    if Leaks(st, c) then {FirstClear(st.m.ibm, 0, st.s.numInodes)} else {}
  }

  lemma GoodIsOrderly(st: State, t: Tree, u: Tree)
    requires Good(st, t, u)
    ensures AllocOK(st.s, st.m) && Orderly(st)
  {
    hide Marked, TreeOK, PtrsInside;
    RefAlloc(st, u);
    AllocInside(st.s, st.m);
  }

  lemma CommitKeepsGood(st: State, t: Tree, u: Tree)
    requires Good(st, t, u)
    ensures Good(Commit(st), t, u) && Synced(Commit(st)) && Commit(st).m == st.m
  {
    hide TreeOK, Refines, Marked, CommitLog;
    CommitKeepsOrder(st);
    CommitKeepsRef(st, u);
  }

  lemma CreatorIsLive(st: State, u: Tree, p: I32, kind: I32, name: Name)
    requires Ref(st, u) && CanCreate(st, u, p, kind, name)
    ensures Allocated(st, p)
  {
    LiveKey(st, u, p);
  }

  // An unlink takes the last entry of a directory, if it takes one, and frees no block at a wrong index.
  predicate Suits(st: State, c: Call) {
    c.UnlinkCall? ==> Gentle(st, c.p, c.name, c.base)
  }

  // Up to the commit, a call keeps the invariant; it aborts only in a stuck directory.
  lemma CallSteps(st: State, t: Tree, u: Tree, c: Call) returns (r: Step, t': Tree, u': Tree)
    requires Good(st, t, u) && CallOK(c) && Suits(st, c)
    ensures r == Do(st, c) && TreeStep(t, c, r.out, t') && Good(r.st, t', u')
    ensures r.out in {Ret(0), Ret(-1)} || (r.out == Abort && Stuck(st.m, Target(c)) && Target(c) !in t)
    ensures r.out == Ret(0) && c.CreatCall? && c.p in t ==> FirstClear(st.m.ibm, 0, st.s.numInodes) in t'
    ensures r.out == Ret(0) && c.CreatCall? ==> Allocated(st, c.p)
    ensures !c.UnlinkCall? ==> t.Keys <= t'.Keys
    ensures c.UnlinkCall? ==> forall i :: Outside(r.st, t', i) ==> Outside(st, t, i)
    ensures Finish(r).disk[..SUPER_SIZE] == st.disk[..SUPER_SIZE]
  {
    hide Creat, Write, Unlink, Refines, Marked, CanCreate, CanUnlink, Gentle, TreeOK, Stuck, WriteOK, Commit;
    GoodIsOrderly(st, t, u);
    match c
    case CreatCall(p, kind, name, junk) =>
      r := CreatKeepsOrder(st, p, kind, name, junk);
      if p !in u && Allocated(st, p) {
        assert Live(st.m, p);
        r := CreatInStuck(st, p, kind, name, junk);
        t', u' := t, u;
      } else {
        if CanCreate(st, u, p, kind, name) {
          CreatorIsLive(st, u, p, kind, name);
          r, t', u' := CreatGrows(st, t, u, p, kind, name, junk);
        } else {
          r, u' := CreatLeaves(st, t, u, p, kind, name, junk);
          t' := t;
        }
      }
    case WriteCall(i, data, offset) =>
      r := WriteKeepsOrder(st, i, data, offset, |data|);
      r, t', u' := WriteGrows(st, t, u, i, data, offset);
    case UnlinkCall(p, name, base, junk) =>
      r := UnlinkKeepsOrder(st, p, name, base, junk);
      if p !in u && Allocated(st, p) {
        assert Live(st.m, p);
        r := UnlinkInStuck(st, p, name, base, junk);
        t', u' := t, u;
      } else {
        r, t', u' := UnlinkShrinks(st, t, u, p, name, base, junk);
      }
  }

  lemma NewOutside(st: State, t: Tree, c: Call, r: Step, t': Tree, i: I32)
    requires CallOK(c) && r == Do(st, c) && Outside(r.st, t', i) && !Outside(st, t, i)
    requires c.UnlinkCall? ==> Outside(st, t, i)
    requires !c.UnlinkCall? ==> t.Keys <= t'.Keys
    requires r.out == Ret(0) && c.CreatCall? && c.p in t ==> FirstClear(st.m.ibm, 0, st.s.numInodes) in t'
    requires r.out == Ret(0) && c.CreatCall? ==> Allocated(st, c.p)
    ensures i in Leak(st, c) || Outside(st, t, Target(c))
  {
    hide Creat, Write;
    match c
    case CreatCall(p, kind, name, junk) => CreatFrame(st, p, kind, name, junk);
    case WriteCall(j, data, offset) => WriteFrame(st, j, data, offset);
    case UnlinkCall(_, _, _, _) =>
  }

  // One call, from any good state, where creats and writes may have any arguments and an unlink takes the last
  // entry: the tree changes as TreeStep says and the state it leaves is good again; it aborts only in a stuck
  // directory; if it returned 0, memory and disk agree; an inode is outside the tree afterwards only if it was
  // before, the call leaked it, or its target was outside.
  lemma CallKeepsGood(st: State, t: Tree, u: Tree, c: Call) returns (r: Step, t': Tree, u': Tree)
    requires Good(st, t, u) && CallOK(c) && Suits(st, c)
    ensures r == Do(st, c) && TreeStep(t, c, r.out, t') && Good(Finish(r), t', u')
    ensures r.out in {Ret(0), Ret(-1)} || (r.out == Abort && Stuck(st.m, Target(c)) && Target(c) !in t)
    ensures r.out == Ret(0) ==> Synced(Finish(r))
    ensures Finish(r).disk[..SUPER_SIZE] == st.disk[..SUPER_SIZE]
    ensures forall i {:trigger Outside(Finish(r), t', i)} :: Outside(Finish(r), t', i) ==>
      Outside(st, t, i) || i in Leak(st, c) || Outside(st, t, Target(c))
  {
    hide Do, Good, TreeStep, Commit, Stuck, Synced, Suits;
    r, t', u' := CallSteps(st, t, u, c);
    if r.out == Ret(0) {
      CommitKeepsGood(r.st, t', u');
      assert Finish(r).m == r.st.m;
    }
    forall i | Outside(Finish(r), t', i)
      ensures Outside(st, t, i) || i in Leak(st, c) || Outside(st, t, Target(c))
    {
      if !Outside(st, t, i) {
        NewOutside(st, t, c, r, t', i);
      }
    }
  }

  lemma NotItsOwnParent(st: State, u: Tree, p: I32, e: I32)
    requires Ref(st, u) && p in u && InRange(st, e) && !Get(st.m.ibm, e)
    ensures p != e
  {
    LiveKey(st, u, p);
  }

  lemma CreatLeaks(st: State, u: Tree, p: I32, kind: I32, name: Name, junk: Junk)
    requires Ref(st, u) && Forest(u) && JunkOK(junk) && (p in u || !Allocated(st, p))
    ensures Creat(st, p, kind, name, junk).st.m.ibm != st.m.ibm <==>
            IsDir(u, p) && |name| <= 27 && Find(u[p].entries, name) == -1
            && FirstClear(st.m.ibm, 0, st.s.numInodes) != -1
    ensures Creat(st, p, kind, name, junk).out == Ret(0) <==> CanCreate(st, u, p, kind, name)
  {
    hide Creat, CanCreate, Refines, CreatClaimed;
    assert IsDir(u, p) ==> LiveEntries(u[p].entries);
    CreatChecks(st, u, p, kind, name, junk);
    CreatAnywhere(st, u, p, kind, name, junk);
    var e := FirstClear(st.m.ibm, 0, st.s.numInodes);
    if e != -1 && |name| <= 27 && IsDir(u, p) {
      assert Get(ClaimInode(st, e, kind).m.ibm, e);
      NotItsOwnParent(st, u, p, e);
      ClaimedFrame(ClaimInode(st, e, kind), p, kind, DirEnt(name, e), junk);
    }
  }

  // An unlink that does not return 0 has changed nothing.
  lemma UnlinkFails(st: State, t: Tree, u: Tree, c: Call)
    requires Good(st, t, u) && CallOK(c) && Suits(st, c) && c.UnlinkCall?
    ensures Do(st, c).out != Ret(0) ==> Do(st, c).st == st && Do(st, c).pre == []
  {
    hide Unlink, Refines, Marked, CanUnlink, Gentle, TreeOK;
    if c.p !in u && Allocated(st, c.p) {
      assert Live(st.m, c.p);
      var r := UnlinkInStuck(st, c.p, c.name, c.base, c.junk);
    } else if !CanUnlink(u, c.p, c.name) {
      UnlinkRefused(st, t, u, c.p, c.name, c.base, c.junk);
    } else {
      var r, t', u' := UnlinkDrops(st, t, u, c.p, c.name, c.base, c.junk);
    }
  }

  // A creat leaks exactly when it got past its checks, found a free inode, and the parent or the data blocks
  // then had no room.  A write never leaks, and an unlink of a last entry neither.
  lemma LeaksIff(st: State, t: Tree, u: Tree, c: Call)
    requires Good(st, t, u) && CallOK(c) && Suits(st, c)
    ensures Leaks(st, c) <==>
            c.CreatCall? && IsDir(u, c.p) && |c.name| <= 27 && Find(u[c.p].entries, c.name) == -1
            && FirstClear(st.m.ibm, 0, st.s.numInodes) != -1 && !CanCreate(st, u, c.p, c.kind, c.name)
  {
    hide Creat, Write, Unlink, Refines, Marked, CanCreate, CanUnlink, Gentle, TreeOK;
    match c
    case CreatCall(p, kind, name, junk) =>
      if p !in u && Allocated(st, p) {
        assert Live(st.m, p);
        var r := CreatInStuck(st, p, kind, name, junk);
      } else {
        CreatLeaks(st, u, p, kind, name, junk);
      }
    case WriteCall(i, data, offset) =>
      WriteFrame(st, i, data, offset);
    case UnlinkCall(p, name, base, junk) =>
      UnlinkFails(st, t, u, c);
  }

  // ---------- runs ----------

  // The first n states of the run show the trees ts, within us, each got from the one before as its call may.
  ghost predicate Simulates(sts: seq<State>, ts: seq<Tree>, us: seq<Tree>, calls: seq<Call>, n: nat)
    requires Run(sts, calls) && n <= |calls|
  {
    && |ts| == |us| == n + 1
    && (forall k {:trigger ts[k]} {:trigger us[k]} :: 0 <= k <= n ==> Good(sts[k], ts[k], us[k]))
    && forall k {:trigger calls[k]} :: 0 <= k < n ==> TreeStep(ts[k], calls[k], Do(sts[k], calls[k]).out, ts[k + 1])
  }

  lemma SimulatesLonger(sts: seq<State>, ts: seq<Tree>, us: seq<Tree>, calls: seq<Call>, n: nat, t': Tree, u': Tree)
    requires Run(sts, calls) && n < |calls| && Simulates(sts, ts, us, calls, n)
    requires Good(sts[n + 1], t', u') && TreeStep(ts[n], calls[n], Do(sts[n], calls[n]).out, t')
    ensures Simulates(sts, ts + [t'], us + [u'], calls, n + 1)
  {
    hide Good, TreeStep, Do, Finish;
    var ts', us' := ts + [t'], us + [u'];
    forall k | 0 <= k <= n + 1
      ensures Good(sts[k], ts'[k], us'[k])
    {
      assert k <= n ==> ts'[k] == ts[k] && us'[k] == us[k];
    }
    forall k | 0 <= k < n + 1
      ensures TreeStep(ts'[k], calls[k], Do(sts[k], calls[k]).out, ts'[k + 1])
    {
      assert ts'[k] == ts[k];
      assert k < n ==> ts'[k + 1] == ts[k + 1];
    }
  }

  // Every allocated inode is in the tree.
  ghost predicate Tight(st: State, t: Tree) {
    forall i {:trigger Outside(st, t, i)} :: !Outside(st, t, i)
  }

  // From a good state, every run of creats, writes and unlinks of last entries goes along a sequence of trees, one
  // call at a time, whatever the arguments, whichever calls fail and whatever inodes they name.  As long as no
  // creat leaks, all allocated inodes are in the tree.
  lemma {:induction false} RunRefines(sts: seq<State>, calls: seq<Call>, n: nat, t0: Tree, u0: Tree)
    returns (ts: seq<Tree>, us: seq<Tree>)
    requires Run(sts, calls) && n <= |calls| && Good(sts[0], t0, u0)
    requires forall k {:trigger calls[k]} :: 0 <= k < n ==> Suits(sts[k], calls[k])
    ensures Simulates(sts, ts, us, calls, n) && ts[0] == t0
    ensures Tight(sts[0], t0) && (forall k {:trigger calls[k]} :: 0 <= k < n ==> !Leaks(sts[k], calls[k])) ==>
      Tight(sts[n], ts[n])
    decreases n
  {
    hide Good, TreeStep, Do, Finish, Leaks, Outside, CallOK, Suits;
    if n == 0 {
      ts, us := [t0], [u0];
    } else {
      var ts0, us0 := RunRefines(sts, calls, n - 1, t0, u0);
      assert Good(sts[n - 1], ts0[n - 1], us0[n - 1]);
      var r, t', u' := CallKeepsGood(sts[n - 1], ts0[n - 1], us0[n - 1], calls[n - 1]);
      SimulatesLonger(sts, ts0, us0, calls, n - 1, t', u');
      ts, us := ts0 + [t'], us0 + [u'];
    }
  }

  // When all allocated inodes are in the tree, the tree is all there is.
  lemma TightIsAll(st: State, t: Tree, u: Tree)
    requires Good(st, t, u) && Tight(st, t)
    ensures u == t && Ref(st, t)
  {
    hide TreeOK, Marked;
    forall i | i in u
      ensures i in t
    {
      LiveKey(st, u, i);
      assert !Outside(st, t, i);
    }
    assert u == t;
  }
}

