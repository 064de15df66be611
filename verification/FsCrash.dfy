// Stopping a call before its commit: the disk writes made until then touch no byte that a mount of the old
// metadata can see, so the old answers stand.

module FsCrash {
  import opened Bits
  import opened Bytes
  import opened Format
  import opened Tree
  import opened FsModel
  import opened FsInv
  import opened FsLookup
  import opened FsCreat

  // Byte o of data block b, behind pointer k of inode i, lies within the size of i.
  predicate Seen(s: Super, m: Meta, i: I32, k: nat, b: int, o: nat) {
    Owns(s, m, i, k, b) && o < BLOCK && k * BLOCK + o < m.inodes[i].size
  }

  predicate Hits(w: DiskWrite, a: int) {
    w.addr <= a < w.addr + |w.bytes|
  }

  // The write stays in the data region and hits no byte that can be seen.
  ghost predicate Hidden(s: Super, m: Meta, w: DiskWrite) {
    && s.dataRegionAddr * BLOCK <= w.addr && w.addr + |w.bytes| <= (s.dataRegionAddr + s.numData) * BLOCK
    && forall i, k, b, o {:trigger Seen(s, m, i, k, b, o)} :: Seen(s, m, i, k, b, o) ==>
         !Hits(w, (s.dataRegionAddr + b) * BLOCK + o)
  }

  ghost predicate AllHidden(s: Super, m: Meta, log: seq<DiskWrite>) {
    forall w :: w in log ==> Hidden(s, m, w)
  }

  // d' may differ from d only where some write of the log hits: any prefix of the log has been carried out,
  // or any part of any of its writes, in any order.
  ghost predicate CrashDisk(d: seq<Byte>, log: seq<DiskWrite>, d': seq<Byte>) {
    |d'| == |d| && forall a :: 0 <= a < |d| && d'[a] != d[a] ==> exists w :: w in log && Hits(w, a)
  }

  lemma {:induction false} PrefixIsCrash(d: seq<Byte>, log: seq<DiskWrite>, n: nat)
    requires Inside(log, 0, |d|) && n <= |log|
    ensures Inside(log[..n], 0, |d|) && CrashDisk(d, log, Apply(d, log[..n]))
  {
    assert forall w :: w in log[..n] ==> w in log;
    if n > 0 {
      PrefixIsCrash(d, log, n - 1);
      assert log[..n][..n - 1] == log[..n - 1];
      var w := log[n - 1];
      assert w in log;
      var d0, d1 := Apply(d, log[..n - 1]), Apply(d, log[..n]);
      forall a | 0 <= a < |d| && d1[a] != d[a]
        ensures exists v :: v in log && Hits(v, a)
      {
        if !Hits(w, a) {
          assert d1[a] == d0[a];
        }
      }
    }
  }

  // ---------- what can be seen after a crash ----------

  lemma SeenByteKept(s: Super, m: Meta, d: seq<Byte>, log: seq<DiskWrite>, d': seq<Byte>, i: I32, k: nat, o: nat)
    requires Sized(s, m, d) && AllocOK(s, m) && AllHidden(s, m, log) && CrashDisk(d, log, d')
    requires Live(m, i) && k < DIRECT_PTRS && m.inodes[i].direct[k] != NONE
    requires o < BLOCK && k * BLOCK + o < m.inodes[i].size
    ensures Readable(d, m.inodes[i].direct[k]) && Readable(d', m.inodes[i].direct[k])
    ensures PtrBlock(d', m.inodes[i].direct[k])[o] == PtrBlock(d, m.inodes[i].direct[k])[o]
  {
    var p := m.inodes[i].direct[k];
    var b := p - s.dataRegionAddr;
    DistinctPtrs(s, m, d, i, k, k);
    assert Seen(s, m, i, k, b, o);
    var a := p * BLOCK + o;
    assert (s.dataRegionAddr + b) * BLOCK + o == a;
    assert d'[a] == d[a];
  }

  lemma LoadKept(s: Super, m: Meta, d: seq<Byte>, log: seq<DiskWrite>, d': seq<Byte>)
    requires Sized(s, m, d) && AllHidden(s, m, log) && CrashDisk(d, log, d')
    ensures Load(s, d') == Load(s, d)
  {
    LoadBelowData(s, d, d');
  }

  lemma EntryKept(s: Super, m: Meta, d: seq<Byte>, log: seq<DiskWrite>, d': seq<Byte>, i: I32, e: nat)
    requires Sized(s, m, d) && AllocOK(s, m) && AllHidden(s, m, log) && CrashDisk(d, log, d')
    requires Live(m, i) && Backed(s, m.inodes[i]) && ENTRY_SIZE * e + ENTRY_SIZE <= m.inodes[i].size
    ensures EntryAt(d', m.inodes[i], e) == EntryAt(d, m.inodes[i], e)
  {
    hide AllHidden, CrashDisk, AllocOK, PtrBlock;
    var k, j := e / ENTRIES, e % ENTRIES;
    var p := m.inodes[i].direct[k];
    SeenByteKept(s, m, d, log, d', i, k, ENTRY_SIZE * j);
    forall o | 0 <= o < ENTRY_SIZE
      ensures SlotBytes(PtrBlock(d', p), j)[o] == SlotBytes(PtrBlock(d, p), j)[o]
    {
      SeenByteKept(s, m, d, log, d', i, k, ENTRY_SIZE * j + o);
    }
    assert SlotBytes(PtrBlock(d', p), j) == SlotBytes(PtrBlock(d, p), j);
  }

  lemma HoldsKept(s: Super, m: Meta, d: seq<Byte>, log: seq<DiskWrite>, d': seq<Byte>, i: I32, node: Node)
    requires Sized(s, m, d) && AllocOK(s, m) && AllHidden(s, m, log) && CrashDisk(d, log, d')
    requires Live(m, i) && Holds(s, m.inodes[i], d, node)
    ensures Holds(s, m.inodes[i], d', node)
  {
    var ino := m.inodes[i];
    hide AllHidden, CrashDisk, AllocOK, PtrBlock;
    match node
    case Dir(es) =>
      forall e | 0 <= e < |es|
        ensures EntryAt(d', ino, e) == es[e]
      {
        EntryKept(s, m, d, log, d', i, e);
        assert EntryAt(d, ino, e) == es[e];
      }
    case File(kind, data) =>
      forall q | 0 <= q < |data|
        ensures ByteAt(d', ino, q) == data[q]
      {
        assert ByteAt(d, ino, q) == data[q];
        SeenByteKept(s, m, d, log, d', i, q / BLOCK, q % BLOCK);
      }
    case Patched(_, _, bytes) =>
      forall q | 0 <= q < |bytes| && bytes[q].Is?
        ensures ByteAt(d', ino, q) == bytes[q].byte
      {
        assert ino.direct[q / BLOCK] != NONE && ByteAt(d, ino, q) == bytes[q].byte;
        SeenByteKept(s, m, d, log, d', i, q / BLOCK, q % BLOCK);
      }
  }

  // After any crash within hidden writes a mount loads the old metadata and shows the old tree.
  lemma CrashShowsOldTree(s: Super, m: Meta, d: seq<Byte>, t: Tree, log: seq<DiskWrite>, d': seq<Byte>)
    requires Refines(s, m, d, t) && AllHidden(s, m, log) && CrashDisk(d, log, d')
    ensures Load(s, d') == Load(s, d) && Shows(s, m, d', t)
  {
    hide Holds, AllHidden, AllocOK;
    LoadKept(s, m, d, log, d');
    forall i
      ensures ShowsAt(s, m, d', t, i)
    {
      assert ShowsAt(s, m, d, t, i);
      if i in t {
        HoldsKept(s, m, d, log, d', i, t[i]);
      }
    }
  }

  // ---------- which writes are hidden ----------

  lemma HiddenUnowned(s: Super, m: Meta, w: DiskWrite, c: nat)
    requires Unowned(s, m, c) && InDataBlock(s, w.addr, c, |w.bytes|) && s.dataRegionAddr >= 0
    ensures Hidden(s, m, w)
  {
    forall i, k, b, o | Seen(s, m, i, k, b, o)
      ensures !Hits(w, (s.dataRegionAddr + b) * BLOCK + o)
    {
      assert !Owns(s, m, i, k, c);
      assert b < c || b >= c + 1;
    }
  }

  lemma HiddenPastEnd(s: Super, m: Meta, w: DiskWrite, x: I32, l: nat, c: nat, off: nat)
    requires SoleOwner(s, m, x, l, c) && InDataBlock(s, w.addr, c, |w.bytes|) && s.dataRegionAddr >= 0
    requires w.addr == (s.dataRegionAddr + c) * BLOCK + off && m.inodes[x].size <= l * BLOCK + off
    ensures Hidden(s, m, w)
  {
    forall i, k, b, o | Seen(s, m, i, k, b, o)
      ensures !Hits(w, (s.dataRegionAddr + b) * BLOCK + o)
    {
      if b == c {
        assert Owns(s, m, i, k, c);
      } else {
        assert b < c || b >= c + 1;
      }
    }
  }

  // What is hidden once more can be seen was hidden before.
  lemma HiddenEarlier(s: Super, m: Meta, m1: Meta, log: seq<DiskWrite>)
    requires forall i, k, b, o :: Seen(s, m, i, k, b, o) ==> Seen(s, m1, i, k, b, o)
    requires AllHidden(s, m1, log)
    ensures AllHidden(s, m, log)
  {
    forall w | w in log
      ensures Hidden(s, m, w)
    {
      assert Hidden(s, m1, w);
    }
  }

  lemma HoleHidden(st: State, t: Tree, p: I32, ent: DirEnt, junk: Junk)
    requires Extensible(st, t, p, ent) && JunkOK(junk) && |t[p].entries| % ENTRIES != 0
    ensures Readable(st.disk, st.m.inodes[p].direct[|t[p].entries| / ENTRIES])
    ensures Hidden(st.s, st.m, EntryWrite(st.disk, st.m.inodes[p].direct[|t[p].entries| / ENTRIES],
                                          |t[p].entries| % ENTRIES, ent, junk))
  {
    assert ShowsAt(st.s, st.m, st.disk, t, p);
    var n := |t[p].entries|;
    var k, off := n / ENTRIES, ENTRY_SIZE * (n % ENTRIES);
    var q := st.m.inodes[p].direct[k];
    assert k * BLOCK + off == ENTRY_SIZE * n;
    OwnBlockAddr(st.s, st.m, st.disk, p, k, off, ENTRY_SIZE);
    HiddenPastEnd(st.s, st.m, EntryWrite(st.disk, q, n % ENTRIES, ent, junk), p, k, q - st.s.dataRegionAddr, off);
  }

  lemma LinkHidden(st: State, t: Tree, p: I32, ent: DirEnt, full: bool, b: int, junk: Junk)
    requires Extensible(st, t, p, ent) && JunkOK(junk)
    requires full == (|t[p].entries| % ENTRIES == 0)
    requires b == -1 || (0 <= b < st.s.numData && !Get(st.m.dbm, b))
    ensures AllHidden(st.s, st.m, Link(st, p, ent, full, b, junk).pre)
  {
    assert ShowsAt(st.s, st.m, st.disk, t, p);
    var st1 := MarkInode(st, p);
    assert Extensible(st1, t, p, ent);
    if full && b != -1 {
      FullDir(st1, t, p, ent);
      LinkNewBlockIs(st1, p, ent, |t[p].entries|, b, junk);
      FreeIsUnowned(st, b);
      HiddenUnowned(st.s, st.m, LinkInNewBlock(st1, p, ent, b, junk).pre[0], b);
    } else if !full {
      PartialDir(st1, t, p, ent);
      HoleHidden(st, t, p, ent, junk);
    }
  }

  lemma SeenAfterNewFile(st: State, e: I32)
    requires InRange(st, e) && st.m.inodes[e].direct == NoPtrs()
    ensures forall i, k, b, o :: Seen(st.s, st.m, i, k, b, o) ==>
      Seen(st.s, PutInode(st, e, st.m.inodes[e].(size := 0)).m, i, k, b, o)
  {
  }

  lemma SeenAfterNewDir(st: State, e: I32, b: nat, m1: Meta)
    requires InRange(st, e) && st.m.inodes[e].direct == NoPtrs() && b < st.s.numData
    requires st.s.dataRegionAddr + b < 0x10_0000
    requires m1 == Meta(st.m.ibm, Set(st.m.dbm, b), st.m.inodes[e := DirInode(st.s, st.m.inodes[e], b)])
    ensures forall i, k, c, o :: Seen(st.s, st.m, i, k, c, o) ==> Seen(st.s, m1, i, k, c, o)
  {
  }

  lemma FileHidden(st: State, t: Tree, p: I32, kind: I32, name: Name, e: I32, full: bool, b: int, junk: Junk)
    requires Extensible(st, t, p, DirEnt(name, e)) && Claimed(st, t, e, kind) && kind != DIRECTORY && JunkOK(junk)
    requires full == (|t[p].entries| % ENTRIES == 0) && b == FirstClear(st.m.dbm, 0, st.s.numData)
    ensures AllHidden(st.s, st.m,
                      Link(PutInode(st, e, st.m.inodes[e].(size := 0)), p, DirEnt(name, e), full, b, junk).pre)
  {
    hide AllHidden, Link, Seen, Holds, AllocOK;
    var st1 := PutInode(st, e, st.m.inodes[e].(size := 0));
    NewFile(st, t, e, kind);
    LinkHidden(st1, t[e := File(kind, [])], p, DirEnt(name, e), full, b, junk);
    SeenAfterNewFile(st, e);
    HiddenEarlier(st.s, st.m, st1.m, Link(st1, p, DirEnt(name, e), full, b, junk).pre);
  }

  lemma PlaceHidden(st: State, t: Tree, p: I32, kind: I32, name: Name, e: I32, full: bool, b: int, b2: int, junk: Junk)
    requires Extensible(st, t, p, DirEnt(name, e)) && Claimed(st, t, e, kind) && JunkOK(junk)
    requires full == (|t[p].entries| % ENTRIES == 0)
    requires b == FirstClear(st.m.dbm, 0, st.s.numData) && b2 == SecondClear(st.m.dbm, st.s.numData)
    ensures AllHidden(st.s, st.m, Place(st, p, kind, DirEnt(name, e), full, b, b2, junk).pre)
  {
    hide Link, Hidden, Seen, Holds, MakeDir;
    if kind != DIRECTORY {
      FileHidden(st, t, p, kind, name, e, full, b, junk);
    } else if b != -1 && !(full && b2 == -1) {
      var st1 := MakeDir(st, e, p, b, junk).st;
      NewDir(st, t, e, p, b, junk);
      MakeDirIs(st, e, p, b, junk);
      FreeIsUnowned(st, b);
      HiddenUnowned(st.s, st.m, MakeDir(st, e, p, b, junk).pre[0], b);
      LinkHidden(st1, t[e := NewNode(p, DIRECTORY, e)], p, DirEnt(name, e), full, b2, junk);
      SeenAfterNewDir(st, e, b, st1.m);
      HiddenEarlier(st.s, st.m, st1.m, Link(st1, p, DirEnt(name, e), full, b2, junk).pre);
    }
  }

  lemma SeenAfterClaim(st: State, e: I32, kind: I32)
    requires InRange(st, e) && !Get(st.m.ibm, e)
    ensures forall i, k, b, o :: Seen(st.s, st.m, i, k, b, o) ==> Seen(st.s, ClaimInode(st, e, kind).m, i, k, b, o)
  {
  }

  // Every write ufs_creat makes before its commit is hidden from the old metadata.
  lemma CreatHidden(st: State, t: Tree, p: I32, kind: I32, name: Name, junk: Junk)
    requires Ref(st, t) && JunkOK(junk)
    requires p in t || !Allocated(st, p)
    requires IsDir(t, p) ==> LiveEntries(t[p].entries)
    ensures AllHidden(st.s, st.m, Creat(st, p, kind, name, junk).pre)
  {
    hide Hidden, Seen, Holds, Place, Creat;
    var e := FirstClear(st.m.ibm, 0, st.s.numInodes);
    CreatChecks(st, t, p, kind, name, junk);
    if IsDir(t, p) && |name| <= 27 && Find(t[p].entries, name) == -1 && e != -1
       && |t[p].entries| < DIRECT_PTRS * ENTRIES {
      var st1 := ClaimInode(st, e, kind);
      ClaimKeeps(st, t, e, kind);
      ScanTells(st1, t, p, DirEnt(name, e));
      PlaceHidden(st1, t, p, kind, name, e, |t[p].entries| % ENTRIES == 0,
                  FirstClear(st1.m.dbm, 0, st.s.numData), SecondClear(st1.m.dbm, st.s.numData), junk);
      SeenAfterClaim(st, e, kind);
      HiddenEarlier(st.s, st.m, st1.m, CreatClaimed(st1, p, kind, DirEnt(name, e), junk).pre);
    }
  }
}
