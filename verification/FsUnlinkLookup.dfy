// What is left of a directory once an entry has been unlinked: what lookups find, what calls still work, and when a
// tree is still shown.

module FsUnlinkLookup {
  import opened Bits
  import opened Bytes
  import opened Format
  import opened Tree
  import opened FsModel
  import opened FsInv
  import opened FsLookup
  import opened FsCreat
  import opened FsUnlink
  import opened FsUnlinkModel
  import opened FsUnlinkBits

  // ---------- looking up afterwards ----------

  lemma ScanStep(ino: Inode, d: seq<Byte>, ent: DirEnt, left: nat, name: Name, i: nat)
    requires i < DIRECT_PTRS * ENTRIES && left > 0 && EntryAt(d, ino, i) == ent && ent.inum >= 0
    ensures Scan(d, ino, i, left, name) == if ent.name == name then Ret(ent.inum)
            else Scan(d, ino, i + 1, left - 1, name)
  {
  }

  lemma FindNothing(es: seq<DirEnt>, name: Name)
    requires es == []
    ensures Find(es, name) == -1
  {
  }

  lemma FindFrom(es: seq<DirEnt>, i: nat, e: nat, name: Name)
    requires i < e <= |es|
    ensures Find(es[i..e], name) == if es[i].name == name then es[i].inum else Find(es[i + 1..e], name)
  {
    assert es[i..e][0] == es[i] && es[i..e][1..] == es[i + 1..e];
  }

  lemma ScanEnd(ino: Inode, d: seq<Byte>, e: nat, left: nat, name: Name)
    requires left == 0 || (e < DIRECT_PTRS * ENTRIES && EntryAt(d, ino, e).inum == -1)
    ensures Scan(d, ino, e, left, name) == if left == 0 then Ret(-1) else Abort
  {
  }

  // Scanning from entry i on: the entries up to e are those of the list; behind them is the end or a hole.
  lemma {:induction false} ScanTo(ino: Inode, d: seq<Byte>, es: seq<DirEnt>, e: nat, left: nat, name: Name, i: nat)
    requires i <= e <= |es| && e <= DIRECT_PTRS * ENTRIES && LiveEntries(es)
    requires forall x :: i <= x < e ==> EntryAt(d, ino, x) == es[x]
    requires left == e - i || (left > e - i && e < DIRECT_PTRS * ENTRIES && Readable(d, ino.direct[e / ENTRIES])
                               && EntryAt(d, ino, e).inum == -1)
    ensures Scan(d, ino, i, left, name) ==
            if left == e - i || Find(es[i..e], name) != -1 then Ret(Find(es[i..e], name)) else Abort
    decreases e - i
  {
    hide EntryAt, Scan, Readable, Find;
    if i < e {
      assert es[i] in es;
      ScanStep(ino, d, es[i], left, name, i);
      FindFrom(es, i, e, name);
      ScanTo(ino, d, es, e, left - 1, name, i + 1);
    } else {
      ScanEnd(ino, d, e, left, name);
      FindNothing(es[e..e], name);
    }
  }

  predicate InRegion(s: Super, p: U32) {
    s.dataRegionAddr <= p < s.dataRegionAddr + s.numData
  }

  // A commit changes no block of the data region.
  lemma CommitKeepsEntry(st: State, ino: Inode, e: nat)
    requires e < DIRECT_PTRS * ENTRIES && InRegion(st.s, ino.direct[e / ENTRIES])
    ensures Readable(Commit(st).disk, ino.direct[e / ENTRIES])
    ensures EntryAt(Commit(st).disk, ino, e) == EntryAt(st.disk, ino, e)
  {
    hide CommitLog, EntryIn;
    var p := ino.direct[e / ENTRIES];
    DataPtr(st.s, st.disk, p);
    var d' := Commit(st).disk;
    ApplyOutside(st.disk, CommitLog(st), BLOCK, st.s.dataRegionAddr * BLOCK);
    assert PtrBlock(d', p) == PtrBlock(st.disk, p);
  }

  // Inode p lost entry e of es: the entries up to e are as before, and behind them is the end or a hole.
  ghost predicate LeftOver(st: State, es: seq<DirEnt>, p: I32, e: nat) {
    && InRange(st, p) && e < |es| <= DIRECT_PTRS * ENTRIES
    && var ino := st.m.inodes[p];
    && ino.kind == DIRECTORY && ino.size == ENTRY_SIZE * (|es| - 1)
    && (forall x {:trigger EntryAt(st.disk, ino, x)} :: 0 <= x < e ==>
          EntryAt(st.disk, ino, x) == es[x] && InRegion(st.s, ino.direct[x / ENTRIES]))
    && (e < |es| - 1 ==> EntryAt(st.disk, ino, e).inum == -1 && InRegion(st.s, ino.direct[e / ENTRIES]))
  }

  lemma EntriesLeftAlone(st: State, st': State, es: seq<DirEnt>, p: I32, e: nat, name: Name)
    requires HasEntry(st, es, p, e, name) && |es| <= DIRECT_PTRS * ENTRIES && Alone(|es|, e)
    requires st'.s == st.s && st'.disk == st.disk && st'.m.inodes == st.m.inodes[p := Shrunk(st.m.inodes[p], |es|, e)]
    ensures LeftOver(st', es, p, e)
  {
  }

  lemma SameEntry(d: seq<Byte>, ino: Inode, ino': Inode, x: nat)
    requires ino'.direct == ino.direct
    ensures EntryAt(d, ino', x) == EntryAt(d, ino, x)
  {
  }

  // The directory before, and its inode afterwards.
  lemma ShrunkDir(st: State, es: seq<DirEnt>, p: I32, e: nat, name: Name) returns (ino: Inode, ino': Inode)
    requires HasEntry(st, es, p, e, name) && |es| <= DIRECT_PTRS * ENTRIES && !Alone(|es|, e)
    ensures ino == st.m.inodes[p] && e < |es| && InRange(st, p) && ino' == Shrunk(ino, |es|, e)
    ensures ino'.direct == ino.direct && ino'.kind == DIRECTORY && ino'.size == ENTRY_SIZE * (|es| - 1)
    ensures forall x: nat {:trigger EntryAt(st.disk, ino, x)} :: x < |es| ==>
      EntryAt(st.disk, ino, x) == es[x] && InRegion(st.s, ino.direct[x / ENTRIES])
  {
    hide EntryAt, Compact;
    ino := st.m.inodes[p];
    ino' := Shrunk(ino, |es|, e);
    forall x: nat | x < |es|
      ensures EntryAt(st.disk, ino, x) == es[x] && InRegion(st.s, ino.direct[x / ENTRIES])
    {
      assert x / ENTRIES * BLOCK < ino.size;
    }
  }

  lemma HoleLeft(st: State, st': State, es: seq<DirEnt>, p: I32, e: nat, name: Name)
    requires HasEntry(st, es, p, e, name) && |es| <= DIRECT_PTRS * ENTRIES && !Alone(|es|, e)
    requires st'.s == st.s && st'.m.inodes == st.m.inodes[p := Shrunk(st.m.inodes[p], |es|, e)]
    requires EntryAt(st'.disk, st.m.inodes[p], e).inum == -1
    requires forall i: nat :: i < DIRECT_PTRS * ENTRIES && i != e ==>
      EntryAt(st'.disk, st.m.inodes[p], i) == EntryAt(st.disk, st.m.inodes[p], i)
    ensures LeftOver(st', es, p, e)
  {
    hide EntryAt, HasEntry, Alone, Shrunk, InRegion;
    var ino, ino' := ShrunkDir(st, es, p, e, name);
    forall x: nat | x <= e
      ensures EntryAt(st'.disk, ino', x) == EntryAt(st'.disk, ino, x) && InRegion(st.s, ino.direct[x / ENTRIES])
    {
      SameEntry(st'.disk, ino, ino', x);
      assert EntryAt(st.disk, ino, x) == es[x];
    }
  }

  lemma EntriesLeftHole(st: State, st': State, es: seq<DirEnt>, p: I32, e: nat, name: Name, junk: Junk)
    requires HasEntry(st, es, p, e, name) && AllocOK(st.s, st.m) && JunkOK(junk)
    requires |es| <= DIRECT_PTRS * ENTRIES && !Alone(|es|, e) && Readable(st.disk, st.m.inodes[p].direct[e / ENTRIES])
    requires st'.s == st.s && st'.m.inodes == st.m.inodes[p := Shrunk(st.m.inodes[p], |es|, e)]
    requires EraseWrite(st.disk, st.m.inodes[p].direct[e / ENTRIES], e % ENTRIES, junk).addr >= 0
    requires st'.disk == Apply(st.disk, [EraseWrite(st.disk, st.m.inodes[p].direct[e / ENTRIES], e % ENTRIES, junk)])
    ensures LeftOver(st', es, p, e)
  {
    var st1 := st.(m := st.m.(inodes := st'.m.inodes), disk := st'.disk);
    ErasedSlot(st, st1, p, e, junk);
    hide Apply, OthersKept, AllocOK, EntryAt, EraseWrite, HasEntry, LeftOver;
    HoleLeft(st, st', es, p, e, name);
  }

  // The parent's side of an unlink, seen from the state before the child was dropped.
  lemma EntriesLeft(st: State, es: seq<DirEnt>, p: I32, e: nat, name: Name, base: nat, junk: Junk, drop: Step)
    returns (r: Step)
    requires HasEntry(st, es, p, e, name) && HasEntry(drop.st, es, p, e, name) && AllocOK(st.s, st.m) && JunkOK(junk)
    requires drop.st.s == st.s && drop.st.disk == st.disk && drop.st.m.inodes == st.m.inodes
    ensures r == DropEntry(drop.st, p, name, base, junk)
    ensures r.out == Ret(0) ==> r.st.m.ibm == drop.st.m.ibm && LeftOver(r.st, es, p, e)
  {
    r := DropEntryIs(drop.st, es, p, e, name, base, junk);
    hide DropEntry, AllocOK, Apply, HasEntry, LeftOver, Alone, Shrunk, EraseWrite;
    if r.out == Ret(0) {
      if Alone(|es|, e) {
        EntriesLeftAlone(st, r.st, es, p, e, name);
      } else {
        EntriesLeftHole(st, r.st, es, p, e, name, junk);
      }
    }
  }

  // Whatever the call left, once it has committed: a lookup in that directory.
  lemma LookupLeft(st: State, es: seq<DirEnt>, p: I32, e: nat, name: Name)
    requires LeftOver(st, es, p, e) && Get(st.m.ibm, p) && LiveEntries(es)
    ensures Lookup(Commit(st), p, name) ==
            if e == |es| - 1 || Find(es[..e], name) != -1 then Ret(Find(es[..e], name)) else Abort
  {
    hide EntryAt, Readable, Scan, Lookup, LiveEntries;
    var st' := Commit(st);
    var ino := st.m.inodes[p];
    forall x: nat | x < e || (x == e < |es| - 1)
      ensures EntryAt(st'.disk, ino, x) == EntryAt(st.disk, ino, x)
      ensures Readable(st'.disk, ino.direct[x / ENTRIES])
    {
      assert x < e ==> EntryAt(st.disk, ino, x) == es[x];
      CommitKeepsEntry(st, ino, x);
    }
    assert st'.m == st.m && st'.s == st.s;
    LookupIsScan(st', p, |es| - 1, name);
    ScanTo(ino, st'.disk, es, e, |es| - 1, name, 0);
    assert es[0..e] == es[..e];
  }

  // The whole unlink of an entry.
  lemma UnlinkLeaves(st: State, t: Tree, p: I32, e: nat, base: nat, junk: Junk) returns (r: Step)
    requires Ref(st, t) && TreeOK(t) && Removable(t, p, e) && JunkOK(junk)
    ensures r == Unlink(st, p, t[p].entries[e].name, base, junk)
    ensures r.out == Ret(0) ==> LeftOver(r.st, t[p].entries, p, e) && Get(r.st.m.ibm, p) && LiveEntries(t[p].entries)
  {
    var es := t[p].entries;
    var drop := UnlinkIs(st, t, p, e, base, junk);
    r := Unlink(st, p, es[e].name, base, junk);
    if drop.out == Ret(0) {
      assert LiveEntries(es) && Get(drop.st.m.ibm, p);
      hide Unlink, DropEntry, HasEntry, LeftOver, TreeOK, Removable;
      var q := EntriesLeft(st, es, p, e, es[e].name, base, junk, drop);
    }
  }

  // After unlinking entry e (of any directory, at any index), lookups in the directory find the entries before
  // e; every other lookup, the one of the removed name included, returns -1 if e was the last entry and
  // otherwise runs into the hole and aborts.
  lemma UnlinkThenLookup(st: State, t: Tree, p: I32, e: nat, base: nat, junk: Junk, other: Name) returns (r: Step)
    requires Ref(st, t) && TreeOK(t) && Removable(t, p, e) && JunkOK(junk)
    ensures r == Unlink(st, p, t[p].entries[e].name, base, junk)
    ensures r.out == Ret(0) ==>
      Lookup(Finish(r), p, other) ==
        if e == |t[p].entries| - 1 || Find(t[p].entries[..e], other) != -1
        then Ret(Find(t[p].entries[..e], other)) else Abort
  {
    hide Unlink, LeftOver, Commit, TreeOK, Lookup, Refines;
    r := UnlinkLeaves(st, t, p, e, base, junk);
    if r.out == Ret(0) {
      LookupLeft(r.st, t[p].entries, p, e, other);
    }
  }

  // ---------- calls on the directory afterwards ----------

  lemma LeftOverIsDir(st: State, es: seq<DirEnt>, p: I32, e: nat)
    requires LeftOver(st, es, p, e) && Get(st.m.ibm, p)
    ensures Allocated(Commit(st), p) && Commit(st).m.inodes[p].kind == DIRECTORY
  {
  }

  lemma CreatAfterLookup(st: State, p: I32, kind: I32, name: Name, junk: Junk, found: Outcome)
    requires Allocated(st, p) && st.m.inodes[p].kind == DIRECTORY && JunkOK(junk)
    requires Lookup(st, p, name) == found != Ret(-1) && found != Undefined
    ensures Creat(st, p, kind, name, junk)
            == Step(if |name| <= 27 && found == Abort then Abort else Ret(-1), st, [])
  {
    hide Lookup, CreatClaimed;
  }

  // Once a hole is left behind, no name can be created in that directory: a name found before the hole is refused
  // as ever, every other creat aborts.
  lemma HoleStopsCreat(st: State, t: Tree, p: I32, e: nat, base: nat, junk: Junk, kind: I32, name: Name, junk2: Junk)
    returns (r: Step)
    requires Ref(st, t) && TreeOK(t) && Removable(t, p, e) && e < |t[p].entries| - 1 && JunkOK(junk) && JunkOK(junk2)
    ensures r == Unlink(st, p, t[p].entries[e].name, base, junk)
    ensures r.out == Ret(0) ==>
      Creat(Finish(r), p, kind, name, junk2)
      == Step(if |name| <= 27 && Find(t[p].entries[..e], name) == -1 then Abort else Ret(-1), Finish(r), [])
  {
    hide Unlink, LeftOver, Commit, TreeOK, Lookup, Refines, Creat;
    r := UnlinkLeaves(st, t, p, e, base, junk);
    if r.out == Ret(0) {
      LookupLeft(r.st, t[p].entries, p, e, name);
      LeftOverIsDir(r.st, t[p].entries, p, e);
      CreatAfterLookup(Finish(r), p, kind, name, junk2, Lookup(Finish(r), p, name));
    }
  }

  // ---------- when a tree is still shown ----------

  // Where a hole was left within the directory's size, no tree is shown.
  lemma HoleShowsNoTree(st: State, es: seq<DirEnt>, p: I32, e: nat, t': Tree)
    requires LeftOver(st, es, p, e) && e < |es| - 1 && Get(st.m.ibm, p) && Ref(st, t')
    ensures !TreeOK(t')
  {
    hide AllocOK, EntryAt;
    var ino := st.m.inodes[p];
    assert ShowsAt(st.s, st.m, st.disk, t', p) && TidyAt(st.m, st.disk, t', p);
    assert ino.direct[e / ENTRIES] != NONE;
    assert IsDir(t', p) && t'[p].entries[e].inum == -1;
    assert t'[p].entries[e] in t'[p].entries;
    if TreeOK(t') {
      EntriesAreLive(t', p);
    }
  }

  // Some tree is shown.
  ghost predicate ShowsTree(st: State) {
    exists t: Tree :: Ref(st, t) && TreeOK(t)
  }

  // An unlink leaves a tree exactly when it takes the last entry of the directory and, with the code's indices,
  // frees no block.
  lemma UnlinkKeepsTreeIff(st: State, t: Tree, p: I32, e: nat, base: nat, junk: Junk) returns (r: Step)
    requires Ref(st, t) && TreeOK(t) && Removable(t, p, e) && JunkOK(junk)
    requires base == 0 || base == st.s.dataRegionAddr
    ensures r == Unlink(st, p, t[p].entries[e].name, base, junk)
    ensures r.out == Ret(0) && ShowsTree(r.st) <==> e == |t[p].entries| - 1 && FreesRight(st, t[p].entries, e, base)
  {
    hide Unlink, LeftOver, TreeOK, Refines, FreesNothing, DropLast;
    r := UnlinkLeaves(st, t, p, e, base, junk);
    if e == |t[p].entries| - 1 && FreesRight(st, t[p].entries, e, base) {
      var q := UnlinkLast(st, t, p, base, junk);
    }
    if r.out == Ret(0) && ShowsTree(r.st) {
      var t' :| Ref(r.st, t') && TreeOK(t');
      if e < |t[p].entries| - 1 {
        HoleShowsNoTree(r.st, t[p].entries, p, e, t');
      }
      RefAlloc(r.st, t');
      if base == 0 {
        var q := UnlinkAllocIff(st, t, p, e, junk);
      }
    }
  }
}
