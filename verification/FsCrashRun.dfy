// A machine that stops outside a commit: mounted again, the disk gives the answers of the last call that
// returned 0.

module FsCrashRun {
  import opened Bits
  import opened Bytes
  import opened Format
  import opened Tree
  import opened FsModel
  import opened FsInv
  import opened FsLookup
  import opened FsCreat
  import opened FsWrite
  import opened FsAppend
  import opened FsCrash
  import opened FsUnlinkModel
  import opened FsMarks
  import opened FsCalls
  import opened FsForest
  import opened FsRead
  import opened FsRun
  import opened FsAnswers

  // ---------- one disk, and all that was written since it was in step with memory ----------

  lemma SuperKept(st: State, log: seq<DiskWrite>, d': seq<Byte>)
    requires AllHidden(st.s, st.m, log) && CrashDisk(st.disk, log, d')
    ensures |d'| == |st.disk| >= SUPER_SIZE && d'[..SUPER_SIZE] == st.disk[..SUPER_SIZE]
  {
    forall a | 0 <= a < SUPER_SIZE
      ensures a < |d'| && d'[a] == st.disk[a]
    {
      forall w | w in log
        ensures !Hits(w, a)
      {
        assert Hidden(st.s, st.m, w);
      }
    }
  }

  // Every disk that hidden writes can have left, mounted, gives the old answers.
  lemma OldAnswers(st: State, t: Tree, u: Tree, log: seq<DiskWrite>, d': seq<Byte>, st': State)
    requires Good(st, t, u) && Synced(st) && AllHidden(st.s, st.m, log) && CrashDisk(st.disk, log, d')
    requires Mounted(st', st.s, d')
    ensures st'.m == st.m && Shows(st.s, st'.m, d', u) && d'[..SUPER_SIZE] == st.disk[..SUPER_SIZE]
    ensures forall p, name :: Lookup(st', p, name) == Lookup(st, p, name)
    ensures forall i, offset, nbytes :: Read(st', i, offset, nbytes) == Read(st, i, offset, nbytes)
  {
    hide CrashDisk, AllHidden, Lookup, Read, AllocOK, TreeOK, Marked, Load, Shows;
    CrashShowsOldTree(st.s, st.m, st.disk, u, log, d');
    SuperKept(st, log, d');
    forall p, name
      ensures Lookup(st', p, name) == Lookup(st, p, name)
    {
      ShownAnswers(st, u, p, name);
      ShownAnswers(st', u, p, name);
    }
    forall i, offset, nbytes
      ensures Read(st', i, offset, nbytes) == Read(st, i, offset, nbytes)
    {
      ReadKept(st, log, st', i, offset, nbytes);
    }
  }

  // ---------- one call ----------

  // What the call writes before its commit can be seen: a write that begins below the end of the file and passes
  // the checks of ufs_write, or an unlink that erases a slot.
  predicate Overwrites(st: State, c: Call)
    requires CallOK(c)
  {
    match c
    case CreatCall(_, _, _, _) => false
    case WriteCall(i, data, offset) =>
      && Allocated(st, i) && st.m.inodes[i].kind == REGULAR_FILE
      && 0 < |data| <= 4096 && 0 <= offset < st.m.inodes[i].size
    case UnlinkCall(p, name, base, junk) => Unlink(st, p, name, base, junk).pre != []
  }

  // A creat, an append, or an unlink of a last entry that is alone in its block, with data bits indexed right.
  predicate Quiet(st: State, c: Call)
    requires CallOK(c)
  {
    Suits(st, c) && !Overwrites(st, c)
  }

  lemma CallHidden(st: State, t: Tree, u: Tree, c: Call)
    requires Good(st, t, u) && CallOK(c) && !Overwrites(st, c)
    ensures AllHidden(st.s, st.m, Do(st, c).pre)
  {
    hide Creat, Unlink, AllHidden, Refines, TreeOK, WriteFrom;
    NothingHidden(st.s, st.m);
    match c
    case CreatCall(p, kind, name, junk) =>
      if p !in u && Allocated(st, p) {
        assert Live(st.m, p);
        var r := CreatInStuck(st, p, kind, name, junk);
      } else {
        assert IsDir(u, p) ==> LiveEntries(u[p].entries);
        CreatHidden(st, u, p, kind, name, junk);
      }
    case WriteCall(i, data, offset) =>
      if Allocated(st, i) && offset == st.m.inodes[i].size {
        RefAlloc(st, u);
        AppendHidden(st, i, data, offset);
      }
    case UnlinkCall(_, _, _, _) =>
  }

  // Stopping a creat or an append: every disk the call could have left before its commit gives the old answer
  // to every lookup and every read, on any inode.
  lemma CrashGivesOldAnswers(st: State, t: Tree, u: Tree, c: Call, d': seq<Byte>, st': State)
    requires Good(st, t, u) && Synced(st) && CallOK(c) && !Overwrites(st, c)
    requires CrashDisk(st.disk, Do(st, c).pre, d') && Mounted(st', st.s, d')
    ensures st'.m == st.m && Shows(st.s, st'.m, d', u) && d'[..SUPER_SIZE] == st.disk[..SUPER_SIZE]
    ensures forall p, name :: Lookup(st', p, name) == Lookup(st, p, name)
    ensures forall i, offset, nbytes :: Read(st', i, offset, nbytes) == Read(st, i, offset, nbytes)
  {
    hide CrashDisk, Do, Good, AllHidden, Overwrites, Lookup, Read, Load, Shows;
    CallHidden(st, t, u, c);
    OldAnswers(st, t, u, Do(st, c).pre, d', st');
  }

  // ---------- runs ----------

  // How many calls the last call that returned 0 makes with those before it; 0 if none did.
  function Committed(sts: seq<State>, calls: seq<Call>, n: nat): (r: nat)
    requires Run(sts, calls) && n <= |calls|
    ensures r <= n
  {
    if n == 0 || Do(sts[n - 1], calls[n - 1]).out == Ret(0) then n else Committed(sts, calls, n - 1)
  }

  // What the calls after it wrote.
  function Since(sts: seq<State>, calls: seq<Call>, n: nat): seq<DiskWrite>
    requires Run(sts, calls) && n <= |calls|
  {
    if n == 0 || Do(sts[n - 1], calls[n - 1]).out == Ret(0) then []
    else Since(sts, calls, n - 1) + Do(sts[n - 1], calls[n - 1]).pre
  }

  // Whatever could be seen of m can be seen of m'.
  ghost predicate SeesMore(s: Super, m: Meta, m': Meta) {
    forall i, k, b, o {:trigger Seen(s, m, i, k, b, o)} {:trigger Seen(s, m', i, k, b, o)} ::
      Seen(s, m, i, k, b, o) ==> Seen(s, m', i, k, b, o)
  }

  lemma AppendSeesMore(s: Super, m: Meta, d: seq<Byte>, m': Meta, d': seq<Byte>, i: I32, from: nat, bs: seq<Byte>)
    requires Wrote(m, d, m', d', i, from, bs) && from == m.inodes[i].size
    ensures SeesMore(s, m, m')
  {
    forall j, k, b, o | Seen(s, m, j, k, b, o)
      ensures Seen(s, m', j, k, b, o)
    {
      assert Live(m, j);
    }
  }

  lemma ClaimSeesMore(s: Super, m: Meta, m': Meta, e: I32)
    requires OnlyInodes(m, m', e, e) && (m'.ibm == m.ibm || (0 <= e < WORD_BITS * |m.ibm| && m'.ibm == Set(m.ibm, e)))
    requires !Live(m, e)
    ensures SeesMore(s, m, m')
  {
  }

  lemma CreatSeesMore(st: State, u: Tree, p: I32, kind: I32, name: Name, junk: Junk)
    requires Ref(st, u) && Forest(u) && AllPlaced(st.m, u) && JunkOK(junk)
    requires Creat(st, p, kind, name, junk).out != Ret(0)
    ensures SeesMore(st.s, st.m, Creat(st, p, kind, name, junk).st.m)
  {
    hide Creat, Refines, Seen, CanCreate, Stuck;
    if p !in u && Allocated(st, p) {
      assert Live(st.m, p);
      var r := CreatInStuck(st, p, kind, name, junk);
    } else {
      assert IsDir(u, p) ==> LiveEntries(u[p].entries);
      CreatAnywhere(st, u, p, kind, name, junk);
      CreatFrame(st, p, kind, name, junk);
      var e := FirstClear(st.m.ibm, 0, st.s.numInodes);
      assert !Live(st.m, e);
      ClaimSeesMore(st.s, st.m, Creat(st, p, kind, name, junk).st.m, e);
    }
  }

  lemma WriteSeesMore(st: State, i: I32, data: seq<Byte>, offset: I32)
    requires AllocOK(st.s, st.m) && |data| < 0x8000_0000 && !Overwrites(st, WriteCall(i, data, offset))
    ensures SeesMore(st.s, st.m, Write(st, i, data, offset, |data|).st.m)
  {
    hide AllocOK, WriteFrom, Seen, Wrote;
    assert data[..|data|] == data;
    if Allocated(st, i) && offset == st.m.inodes[i].size && 0 <= offset {
      var r := WriteFromWrote(MarkInode(st, i), i, offset / BLOCK, offset % BLOCK, data, offset);
      AppendSeesMore(st.s, st.m, st.disk, r.st.m, r.st.disk, i, offset, Payload(r.pre));
    }
  }

  lemma NothingSince(st: State)
    ensures AllHidden(st.s, st.m, []) && CrashDisk(st.disk, [], st.disk) && SeesMore(st.s, st.m, st.m)
  {
  }

  // A call that fails hides nothing that could be seen before.
  lemma FailureSeesMore(st: State, t: Tree, u: Tree, c: Call)
    requires Good(st, t, u) && CallOK(c) && Quiet(st, c) && Do(st, c).out != Ret(0)
    ensures SeesMore(st.s, st.m, Do(st, c).st.m)
  {
    hide Creat, Write, Unlink, Suits, Refines, TreeOK, Overwrites, SeesMore;
    match c
    case CreatCall(p, kind, name, junk) => CreatSeesMore(st, u, p, kind, name, junk);
    case WriteCall(i, data, offset) =>
      RefAlloc(st, u);
      WriteSeesMore(st, i, data, offset);
    case UnlinkCall(_, _, _, _) =>
      UnlinkFails(st, t, u, c);
      NothingSince(st);
  }

  lemma CrashThenCrash(d: seq<Byte>, log1: seq<DiskWrite>, d1: seq<Byte>, log2: seq<DiskWrite>, d2: seq<Byte>)
    requires CrashDisk(d, log1, d1) && CrashDisk(d1, log2, d2)
    ensures CrashDisk(d, log1 + log2, d2)
  {
    forall a | 0 <= a < |d| && d2[a] != d[a]
      ensures exists w :: w in log1 + log2 && Hits(w, a)
    {
      if d2[a] != d1[a] {
        var w :| w in log2 && Hits(w, a);
        assert w in log1 + log2;
      } else {
        var w :| w in log1 && Hits(w, a);
        assert w in log1 + log2;
      }
    }
  }

  // A call that fails: its writes are hidden from the metadata m of the last commit too.
  lemma FailureStaysHidden(st: State, t: Tree, u: Tree, c: Call, m: Meta, d: seq<Byte>, log: seq<DiskWrite>)
    requires Good(st, t, u) && CallOK(c) && Quiet(st, c) && Do(st, c).out != Ret(0)
    requires AllHidden(st.s, m, log) && CrashDisk(d, log, st.disk) && SeesMore(st.s, m, st.m)
    ensures AllHidden(st.s, m, log + Do(st, c).pre) && CrashDisk(d, log + Do(st, c).pre, Do(st, c).st.disk)
    ensures SeesMore(st.s, m, Do(st, c).st.m)
  {
    hide Do, Good, Hidden, Overwrites, Suits, CrashDisk, Seen;
    var r := Do(st, c);
    CallHidden(st, t, u, c);
    HiddenEarlier(st.s, m, st.m, r.pre);
    PrefixIsCrash(st.disk, r.pre, |r.pre|);
    assert r.pre[..|r.pre|] == r.pre;
    CrashThenCrash(d, log, st.disk, r.pre, r.st.disk);
    FailureSeesMore(st, t, u, c);
  }

  lemma SinceIs(sts: seq<State>, calls: seq<Call>, n: nat)
    requires Run(sts, calls) && n <= |calls|
    ensures n == 0 || Do(sts[n - 1], calls[n - 1]).out == Ret(0) ==>
      Committed(sts, calls, n) == n && Since(sts, calls, n) == []
    ensures n > 0 && Do(sts[n - 1], calls[n - 1]).out != Ret(0) ==>
      Committed(sts, calls, n) == Committed(sts, calls, n - 1)
      && Since(sts, calls, n) == Since(sts, calls, n - 1) + Do(sts[n - 1], calls[n - 1]).pre
  {
  }

  // The calls since the last commit wrote nothing that can be seen of it.
  lemma {:induction false} SinceHidden(sts: seq<State>, ts: seq<Tree>, us: seq<Tree>, calls: seq<Call>, n: nat)
    returns (k: nat)
    requires Run(sts, calls) && n <= |calls| && |ts| == |us| > n && Synced(sts[0])
    requires forall j {:trigger ts[j]} :: 0 <= j <= n ==> Good(sts[j], ts[j], us[j])
    requires forall j {:trigger calls[j]} :: 0 <= j < n ==> Quiet(sts[j], calls[j])
    ensures k == Committed(sts, calls, n) && Synced(sts[k]) && sts[n].s == sts[k].s
    ensures AllHidden(sts[k].s, sts[k].m, Since(sts, calls, n))
    ensures CrashDisk(sts[k].disk, Since(sts, calls, n), sts[n].disk)
    ensures SeesMore(sts[k].s, sts[k].m, sts[n].m)
  {
    hide Do, Good, Suits, Overwrites, AllHidden, CrashDisk, SeesMore, Synced, Since, Committed, TreeStep, Outside;
    SinceIs(sts, calls, n);
    if n == 0 {
      k := 0;
      NothingSince(sts[0]);
    } else {
      var st, c := sts[n - 1], calls[n - 1];
      assert Good(st, ts[n - 1], us[n - 1]) && sts[n] == Finish(Do(st, c));
      if Do(st, c).out == Ret(0) {
        var r, t', u' := CallKeepsGood(st, ts[n - 1], us[n - 1], c);
        k := n;
        NothingSince(sts[n]);
      } else {
        k := SinceHidden(sts, ts, us, calls, n - 1);
        FailureStaysHidden(st, ts[n - 1], us[n - 1], c, sts[k].m, sts[k].disk, Since(sts, calls, n - 1));
      }
    }
  }

  // No call of a run touches the superblock.
  lemma {:induction false} SuperStays(sts: seq<State>, ts: seq<Tree>, us: seq<Tree>, calls: seq<Call>, n: nat)
    requires Run(sts, calls) && n <= |calls| && |ts| == |us| > n
    requires forall j {:trigger ts[j]} :: 0 <= j <= n ==> Good(sts[j], ts[j], us[j])
    requires forall j {:trigger calls[j]} :: 0 <= j < n ==> Suits(sts[j], calls[j])
    ensures sts[n].s == sts[0].s && sts[n].disk[..SUPER_SIZE] == sts[0].disk[..SUPER_SIZE]
    decreases n
  {
    hide Good, TreeStep, Do, Synced, Outside, Finish, Suits;
    if n > 0 {
      SuperStays(sts, ts, us, calls, n - 1);
      assert Good(sts[n - 1], ts[n - 1], us[n - 1]);
      var r, t', u' := CallKeepsGood(sts[n - 1], ts[n - 1], us[n - 1], calls[n - 1]);
    }
  }

  // Stopping a run of creats and appends anywhere outside a commit, n calls done and one begun: mounted again, the
  // disk gives the answers of the state after the last call that returned 0, however many failed since.
  lemma CrashInRun(sts: seq<State>, ts: seq<Tree>, us: seq<Tree>, calls: seq<Call>, n: nat, d': seq<Byte>, st': State)
    returns (k: nat)
    requires Run(sts, calls) && n < |calls| && |ts| == |us| > n && Synced(sts[0])
    requires forall j {:trigger ts[j]} :: 0 <= j <= n ==> Good(sts[j], ts[j], us[j])
    requires forall j {:trigger calls[j]} :: 0 <= j <= n ==> Quiet(sts[j], calls[j])
    requires CrashDisk(sts[n].disk, Do(sts[n], calls[n]).pre, d') && Mounted(st', sts[n].s, d')
    ensures k == Committed(sts, calls, n)
    ensures st'.m == sts[k].m && Shows(st'.s, st'.m, d', us[k])
    ensures st'.s == sts[0].s && d'[..SUPER_SIZE] == sts[0].disk[..SUPER_SIZE]
    ensures forall p, name :: Lookup(st', p, name) == Lookup(sts[k], p, name)
    ensures forall i, offset, nbytes :: Read(st', i, offset, nbytes) == Read(sts[k], i, offset, nbytes)
  {
    hide Do, Good, Suits, Overwrites, Hidden, CrashDisk, Seen, Lookup, Read, Shows, Load;
    k := SinceHidden(sts, ts, us, calls, n);
    var st, c := sts[n], calls[n];
    assert Good(st, ts[n], us[n]) && Good(sts[k], ts[k], us[k]);
    CallHidden(st, ts[n], us[n], c);
    HiddenEarlier(st.s, sts[k].m, st.m, Do(st, c).pre);
    var log := Since(sts, calls, n);
    CrashThenCrash(sts[k].disk, log, st.disk, Do(st, c).pre, d');
    OldAnswers(sts[k], ts[k], us[k], log + Do(st, c).pre, d', st');
    SuperStays(sts, ts, us, calls, k);
  }
}
