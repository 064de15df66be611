// ufs_lookup on a well-formed directory is find-by-name on its entry list.

module FsLookup {
  import opened Bytes
  import opened Format
  import opened Tree
  import opened FsModel
  import opened FsInv

  predicate LiveEntries(es: seq<DirEnt>) {
    forall x :: x in es ==> x.inum >= 0
  }

  // The entries of a directory of a good tree all lead to an inode, so none reads as unused.
  lemma EntriesAreLive(t: Tree, p: I32)
    requires TreeOK(t) && IsDir(t, p)
    ensures LiveEntries(t[p].entries)
  {
    assert DirShape(t, p);
    var es := t[p].entries;
    assert DirShape(t, es[1].inum);
    forall k | 0 <= k < |es|
      ensures es[k].inum >= 0
    {
    }
  }

  lemma {:induction false} ScanFinds(s: Super, ino: Inode, d: seq<Byte>, es: seq<DirEnt>, e: nat, name: Name)
    requires Layout(s, |d|) && Holds(s, ino, d, Dir(es)) && e <= |es|
    requires LiveEntries(es)
    ensures Scan(d, ino, e, |es| - e, name) == Ret(Find(es[e..], name))
    decreases |es| - e
  {
    if e < |es| {
      var k := e / ENTRIES;
      assert k * BLOCK < ino.size;
      DataPtr(s, d, ino.direct[k]);
      assert EntryAt(d, ino, e) == es[e] && es[e] in es;
      assert es[e..][0] == es[e] && es[e..][1..] == es[e + 1..];
      ScanFinds(s, ino, d, es, e + 1, name);
    }
  }

  function LookupAnswer(s: Super, t: Tree, p: I32, name: Name): Outcome {
    if IsDir(t, p) then Ret(Find(t[p].entries, name))
    else if p in t then Ret(-4)
    else if 0 <= p < s.numInodes then Ret(-3)
    else Ret(-2)
  }

  lemma LookupIsScan(st: State, p: I32, n: nat, name: Name)
    requires Allocated(st, p)
    requires st.m.inodes[p].kind == DIRECTORY && st.m.inodes[p].size == ENTRY_SIZE * n
    ensures Lookup(st, p, name) == Scan(st.disk, st.m.inodes[p], 0, n, name)
  {
    var size := Unsigned(st.m.inodes[p].size);
    assert size / ENTRY_SIZE == n && size % ENTRY_SIZE == 0;
  }

  lemma LookupInDir(st: State, es: seq<DirEnt>, p: I32, name: Name)
    requires Allocated(st, p)
    requires Holds(st.s, st.m.inodes[p], st.disk, Dir(es)) && LiveEntries(es)
    ensures Lookup(st, p, name) == Ret(Find(es, name))
  {
    LookupIsScan(st, p, |es|, name);
    ScanFinds(st.s, st.m.inodes[p], st.disk, es, 0, name);
    assert es[0..] == es;
  }

  // Lookup needs only what the disk shows within the sizes of directories, so it may also be used
  // on a disk a call left half-way.
  lemma LookupFinds(st: State, t: Tree, p: I32, name: Name)
    requires Shows(st.s, st.m, st.disk, t)
    requires p in t || !Allocated(st, p)
    requires IsDir(t, p) ==> LiveEntries(t[p].entries)
    ensures Lookup(st, p, name) == LookupAnswer(st.s, t, p, name)
  {
    assert ShowsAt(st.s, st.m, st.disk, t, p);
    if IsDir(t, p) {
      LookupInDir(st, t[p].entries, p, name);
    }
  }

  // ---------- how much of the directory a lookup reads ----------

  // How many entries are looked at until the first of that name.
  function UpTo(es: seq<DirEnt>, name: Name): nat {
    if es == [] then 0 else if es[0].name == name then 1 else 1 + UpTo(es[1..], name)
  }

  lemma {:induction false} UpToIs(es: seq<DirEnt>, name: Name)
    requires LiveEntries(es)
    ensures UpTo(es, name) <= |es|
    ensures forall j :: 0 <= j < UpTo(es, name) - 1 ==> es[j].name != name
    ensures if Find(es, name) == -1 then UpTo(es, name) == |es|
            else UpTo(es, name) > 0 && es[UpTo(es, name) - 1] == DirEnt(name, Find(es, name))
    decreases |es|
  {
    if es != [] {
      assert es[0] in es && LiveEntries(es[1..]);
      UpToIs(es[1..], name);
      assert forall j :: 0 < j < |es| ==> es[j] == es[1..][j - 1];
    }
  }

  lemma ReadStep(s: Super, ino: Inode, d: seq<Byte>, es: seq<DirEnt>, e: nat, left: nat, name: Name)
    requires Layout(s, |d|) && Holds(s, ino, d, Dir(es)) && e < |es| && left > 0 && es[e].inum >= 0
    ensures EntriesRead(d, ino, e, left, name)
            == 1 + if es[e].name == name then 0 else EntriesRead(d, ino, e + 1, left - 1, name)
  {
    DataPtr(s, d, ino.direct[e / ENTRIES]);
    assert EntryAt(d, ino, e) == es[e];
  }

  lemma ReadEnd(ino: Inode, d: seq<Byte>, e: nat, name: Name)
    ensures EntriesRead(d, ino, e, 0, name) == 0
  {
  }

  lemma UpToEnd(es: seq<DirEnt>, name: Name)
    ensures UpTo(es[|es|..], name) == 0
  {
  }

  lemma UpToStep(es: seq<DirEnt>, e: nat, name: Name)
    requires e < |es|
    ensures UpTo(es[e..], name) == 1 + if es[e].name == name then 0 else UpTo(es[e + 1..], name)
  {
    assert es[e..][0] == es[e] && es[e..][1..] == es[e + 1..];
  }

  lemma {:induction false} ScanReads(s: Super, ino: Inode, d: seq<Byte>, es: seq<DirEnt>, e: nat, name: Name)
    requires Layout(s, |d|) && Holds(s, ino, d, Dir(es)) && e <= |es|
    requires LiveEntries(es)
    ensures EntriesRead(d, ino, e, |es| - e, name) == UpTo(es[e..], name)
    decreases |es| - e
  {
    hide Holds, Layout, EntriesRead, UpTo;
    if e < |es| {
      assert es[e] in es;
      ReadStep(s, ino, d, es, e, |es| - e, name);
      UpToStep(es, e, name);
      ScanReads(s, ino, d, es, e + 1, name);
    } else {
      ReadEnd(ino, d, e, name);
      UpToEnd(es, name);
    }
  }

  lemma HoldsSize(s: Super, ino: Inode, d: seq<Byte>, es: seq<DirEnt>)
    requires Holds(s, ino, d, Dir(es))
    ensures ino.size == ENTRY_SIZE * |es| <= MAX_SIZE
  {
  }

  lemma DirReads(st: State, es: seq<DirEnt>, p: I32, name: Name)
    requires Allocated(st, p) && Holds(st.s, st.m.inodes[p], st.disk, Dir(es)) && LiveEntries(es)
    ensures st.m.inodes[p].size == ENTRY_SIZE * |es| <= MAX_SIZE
    ensures EntriesRead(st.disk, st.m.inodes[p], 0, |es|, name) == UpTo(es, name)
  {
    hide EntriesRead, UpTo, Holds;
    HoldsSize(st.s, st.m.inodes[p], st.disk, es);
    ScanReads(st.s, st.m.inodes[p], st.disk, es, 0, name);
    assert es[0..] == es;
  }

  // A lookup that misses reads every entry of the directory once, no others, in at most 30 blocks; one that hits
  // reads them up to the one it returns.
  lemma LookupReads(st: State, t: Tree, p: I32, name: Name) returns (n: nat)
    requires Shows(st.s, st.m, st.disk, t) && IsDir(t, p) && LiveEntries(t[p].entries)
    ensures Allocated(st, p) && st.m.inodes[p].size >= 0
    ensures n == EntriesRead(st.disk, st.m.inodes[p], 0, st.m.inodes[p].size / ENTRY_SIZE, name)
    ensures n <= |t[p].entries| <= DIRECT_PTRS * ENTRIES
    ensures forall j :: 0 <= j < n - 1 ==> t[p].entries[j].name != name
    ensures if Find(t[p].entries, name) == -1 then n == |t[p].entries| == st.m.inodes[p].size / ENTRY_SIZE
            else n > 0 && t[p].entries[n - 1] == DirEnt(name, Find(t[p].entries, name))
  {
    hide EntriesRead, UpTo, Holds, Find;
    assert ShowsAt(st.s, st.m, st.disk, t, p);
    DirReads(st, t[p].entries, p, name);
    UpToIs(t[p].entries, name);
    n := UpTo(t[p].entries, name);
  }
}
