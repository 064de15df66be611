// ufs_creat: one more entry in the parent, one more empty inode, and nothing else.

module FsCreat {
  import opened Bits
  import opened Bytes
  import opened Format
  import opened Tree
  import opened FsModel
  import opened FsInv
  import opened FsLookup

  ghost predicate Ref(st: State, t: Tree) {
    Refines(st.s, st.m, st.disk, t)
  }

  lemma RefAlloc(st: State, u: Tree)
    requires Ref(st, u)
    ensures AllocOK(st.s, st.m)
  {
  }

  // Inodes other than x are allocated as before, and neither they nor their blocks changed.
  ghost predicate OthersKept(m: Meta, d: seq<Byte>, m': Meta, d': seq<Byte>, x: I32) {
    forall j: I32 {:trigger Live(m, j)} {:trigger Live(m', j)} :: j != x ==>
      (Live(m', j) <==> Live(m, j)) && (Live(m, j) ==> m'.inodes[j] == m.inodes[j] && SameBlocks(m.inodes[j], d, d'))
  }

  // Changing one inode, and blocks that no other inode owns, changes one node of the tree.
  lemma ChangeOne(s: Super, m: Meta, d: seq<Byte>, m': Meta, d': seq<Byte>, t: Tree, x: I32, node: Node)
    requires Refines(s, m, d, t) && Sized(s, m', d') && |d'| == |d| && AllocOK(s, m')
    requires OthersKept(m, d, m', d', x)
    requires Live(m', x) && Holds(s, m'.inodes[x], d', node) && Compact(m'.inodes[x], d')
    ensures Refines(s, m', d', t[x := node])
  {
    var t' := t[x := node];
    forall j: I32
      ensures ShowsAt(s, m', d', t', j)
      ensures TidyAt(m', d', t', j)
    {
      assert ShowsAt(s, m, d, t, j) && TidyAt(m, d, t, j);
      if j != x && Live(m, j) {
        HoldsFrame(s, m.inodes[j], d, d', if j in t then t[j] else node);
      }
    }
  }

  // ---------- claiming an inode ----------

  lemma ClaimKeeps(st: State, t: Tree, e: I32, kind: I32)
    requires Ref(st, t) && InRange(st, e) && !Get(st.m.ibm, e)
    ensures Ref(ClaimInode(st, e, kind), t) && e !in t
  {
    var st' := ClaimInode(st, e, kind);
    assert ShowsAt(st.s, st.m, st.disk, t, e);
    forall i, k, b
      ensures Owns(st.s, st'.m, i, k, b) <==> Owns(st.s, st.m, i, k, b)
    {
    }
    AllocUnchanged(st.s, st.m, st'.m);
    forall i
      ensures ShowsAt(st.s, st'.m, st.disk, t, i)
      ensures TidyAt(st'.m, st.disk, t, i)
    {
      assert ShowsAt(st.s, st.m, st.disk, t, i) && TidyAt(st.m, st.disk, t, i);
    }
  }

  // ---------- scanning a compact directory ----------

  // How many entries block k of a directory with n entries has.
  function InBlock(n: nat, k: nat): nat {
    if n <= k * ENTRIES then 0 else if n >= (k + 1) * ENTRIES then ENTRIES else n - k * ENTRIES
  }

  // The blocks of a compact directory with n entries, as the two scans of creat see them.
  predicate Profile(d: seq<Byte>, ps: seq<U32>, n: nat)
    requires |ps| == DIRECT_PTRS
  {
    forall k {:trigger ps[k]} :: 0 <= k < DIRECT_PTRS ==>
      if k * ENTRIES < n
      then ps[k] != NONE && Readable(d, ps[k]) && FirstHole(PtrBlock(d, ps[k]), 0) == InBlock(n, k)
      else ps[k] == NONE
  }

  lemma BlockProfile(s: Super, ino: Inode, d: seq<Byte>, es: seq<DirEnt>, k: nat)
    requires Layout(s, |d|) && Holds(s, ino, d, Dir(es)) && Compact(ino, d) && LiveEntries(es)
    requires k < DIRECT_PTRS && k * ENTRIES < |es|
    ensures ino.direct[k] != NONE && Readable(d, ino.direct[k])
    ensures FirstHole(PtrBlock(d, ino.direct[k]), 0) == InBlock(|es|, k)
  {
    DataPtr(s, d, ino.direct[k]);
    var blk, n := PtrBlock(d, ino.direct[k]), InBlock(|es|, k);
    forall j | 0 <= j < ENTRIES
      ensures EntryIn(blk, j).inum == -1 <==> n <= j
    {
      var e := k * ENTRIES + j;
      assert e / ENTRIES == k && e % ENTRIES == j;
      assert EntryIn(blk, j) == EntryAt(d, ino, e);
      if j < n {
        assert es[e] in es;
      }
    }
    assert n < ENTRIES ==> EntryIn(blk, n).inum == -1;
  }

  lemma HasProfile(s: Super, ino: Inode, d: seq<Byte>, es: seq<DirEnt>)
    requires Layout(s, |d|) && Holds(s, ino, d, Dir(es)) && Compact(ino, d) && LiveEntries(es)
    ensures Profile(d, ino.direct, |es|)
  {
    forall k | 0 <= k < DIRECT_PTRS && k * ENTRIES < |es|
      ensures ino.direct[k] != NONE && Readable(d, ino.direct[k])
      ensures FirstHole(PtrBlock(d, ino.direct[k]), 0) == InBlock(|es|, k)
    {
      BlockProfile(s, ino, d, es, k);
    }
  }

  // All blocks full: both scans run to the end, and the first empty pointer follows the last block.
  lemma {:induction false} ScanFull(d: seq<Byte>, ps: seq<U32>, n: nat, k: nat)
    requires |ps| == DIRECT_PTRS && Profile(d, ps, n) && n % ENTRIES == 0 && n <= DIRECT_PTRS * ENTRIES
    requires k <= DIRECT_PTRS
    ensures FullScan(d, ps, k) == Ret(1)
    ensures k * ENTRIES <= n ==> FirstNone(ps, k) == n / ENTRIES
    decreases DIRECT_PTRS - k
  {
    if k < DIRECT_PTRS {
      ScanFull(d, ps, n, k + 1);
    }
  }

  // The last block has room: the first hole is right behind the last entry.
  lemma {:induction false} ScanPartial(d: seq<Byte>, ps: seq<U32>, n: nat, k: nat)
    requires |ps| == DIRECT_PTRS && Profile(d, ps, n) && n % ENTRIES != 0 && k * ENTRIES < n <= DIRECT_PTRS * ENTRIES
    ensures FullScan(d, ps, k) == Ret(0)
    ensures FindSlot(d, ps, k) == Found(n / ENTRIES, n % ENTRIES)
    decreases DIRECT_PTRS - k
  {
    if (k + 1) * ENTRIES <= n {
      ScanPartial(d, ps, n, k + 1);
    }
  }

  // ---------- the new inode ----------

  // A claimed inode owns nothing and is in no tree yet.
  ghost predicate Claimed(st: State, t: Tree, e: I32, kind: I32)
  {
    Allocated(st, e) && e !in t && st.m.inodes[e].direct == NoPtrs() && st.m.inodes[e].kind == kind
  }

  lemma OwnBlocksReadable(s: Super, m: Meta, d: seq<Byte>, j: I32)
    requires Sized(s, m, d) && AllocOK(s, m) && Live(m, j)
    ensures SameBlocks(m.inodes[j], d, d)
  {
    forall k | 0 <= k < DIRECT_PTRS && m.inodes[j].direct[k] != NONE
      ensures Readable(d, m.inodes[j].direct[k])
    {
      var p := m.inodes[j].direct[k];
      assert Owns(s, m, j, k, p - s.dataRegionAddr);
      DataPtr(s, d, p);
    }
  }

  lemma NewFile(st: State, t: Tree, e: I32, kind: I32)
    requires Ref(st, t) && Claimed(st, t, e, kind) && kind != DIRECTORY
    ensures Ref(PutInode(st, e, st.m.inodes[e].(size := 0)), t[e := File(kind, [])])
  {
    var st' := PutInode(st, e, st.m.inodes[e].(size := 0));
    forall i, k, b
      ensures Owns(st.s, st'.m, i, k, b) <==> Owns(st.s, st.m, i, k, b)
    {
    }
    AllocUnchanged(st.s, st.m, st'.m);
    forall j: I32 | j != e && Live(st.m, j)
      ensures SameBlocks(st.m.inodes[j], st.disk, st.disk)
    {
      OwnBlocksReadable(st.s, st.m, st.disk, j);
    }
    ChangeOne(st.s, st.m, st.disk, st'.m, st.disk, t, e, File(kind, []));
  }

  // A write into a data block that at most inode x owns leaves the blocks of all others alone.
  lemma OthersSame(s: Super, m: Meta, d: seq<Byte>, m': Meta, x: I32, c: nat, a: nat, bs: seq<Byte>)
    requires Sized(s, m, d) && AllocOK(s, m) && InDataBlock(s, a, c, |bs|)
    requires forall j, k :: Owns(s, m, j, k, c) ==> j == x
    requires 0 <= x < |m.inodes| == |m'.inodes| && m'.ibm == m.ibm && m'.inodes == m.inodes[x := m'.inodes[x]]
    ensures a + |bs| <= |d| && OthersKept(m, d, m', Splice(d, a, bs), x)
  {
    forall j: I32 | j != x && Live(m, j)
      ensures SameBlocks(m.inodes[j], d, Splice(d, a, bs))
    {
      BlocksBesideWrite(s, m, d, j, c, a, bs);
    }
  }

  lemma FreeIsUnowned(st: State, b: nat)
    requires AllocOK(st.s, st.m) && b < st.s.numData && !Get(st.m.dbm, b)
    ensures Unowned(st.s, st.m, b)
  {
    assert BitRight(st.s, st.m, b);
  }

  // Writing all of data block b: what a pointer to it now reads.
  lemma WholeBlock(st: State, b: nat, blk: seq<Byte>)
    requires b < st.s.numData && |blk| == BLOCK
    ensures st.s.dataRegionAddr + b < 0x10_0000 && (st.s.dataRegionAddr + b) * BLOCK + BLOCK <= |st.disk|
    ensures var d' := Splice(st.disk, (st.s.dataRegionAddr + b) * BLOCK, blk);
      Readable(d', DataAddr(st.s, b)) && PtrBlock(d', DataAddr(st.s, b)) == blk
  {
    DataAddrInside(st, b);
    BlockOfSplice(st.disk, st.s.dataRegionAddr + b, 0, blk);
  }

  // Filling a free block on behalf of inode x: it reads back, and every inode keeps its own blocks.
  lemma FreshBlock(st: State, m': Meta, x: I32, b: nat, blk: seq<Byte>)
    requires AllocOK(st.s, st.m) && Live(st.m, x) && |blk| == BLOCK
    requires b < st.s.numData && !Get(st.m.dbm, b) && st.s.dataRegionAddr + b < 0x10_0000
    requires |st.m.inodes| == |m'.inodes| && m'.ibm == st.m.ibm && m'.inodes == st.m.inodes[x := m'.inodes[x]]
    ensures (st.s.dataRegionAddr + b) * BLOCK + BLOCK <= |st.disk|
    ensures var d' := Splice(st.disk, (st.s.dataRegionAddr + b) * BLOCK, blk);
      && OthersKept(st.m, st.disk, m', d', x)
      && SameBlocks(st.m.inodes[x], st.disk, d')
      && Readable(d', DataAddr(st.s, b)) && PtrBlock(d', DataAddr(st.s, b)) == blk
  {
    var a := (st.s.dataRegionAddr + b) * BLOCK;
    FreeIsUnowned(st, b);
    OthersSame(st.s, st.m, st.disk, m', x, b, a, blk);
    BlocksBesideWrite(st.s, st.m, st.disk, x, b, a, blk);
    WholeBlock(st, b, blk);
  }

  lemma NewDirHolds(s: Super, ino: Inode, d: seq<Byte>, es: seq<DirEnt>)
    requires Layout(s, |d|) && |es| == 2
    requires ino.kind == DIRECTORY && ino.size == 2 * ENTRY_SIZE
    requires s.dataRegionAddr <= ino.direct[0] < s.dataRegionAddr + s.numData
    requires forall k :: 1 <= k < DIRECT_PTRS ==> ino.direct[k] == NONE
    requires Readable(d, ino.direct[0]) && StartsWith(PtrBlock(d, ino.direct[0]), es)
    ensures Holds(s, ino, d, Dir(es)) && Compact(ino, d)
  {
    NoneUnreadable(s, d);
    forall e: nat | e < DIRECT_PTRS * ENTRIES
      ensures EntryAt(d, ino, e).inum == -1 || e < 2
      ensures e < 2 ==> EntryAt(d, ino, e) == es[e]
    {
      if e < ENTRIES {
        assert EntryAt(d, ino, e) == EntryIn(PtrBlock(d, ino.direct[0]), e);
      }
    }
  }

  // The inode of a new directory whose block is data block b.
  function DirInode(s: Super, ino: Inode, b: nat): Inode
    requires 0 <= s.dataRegionAddr && s.dataRegionAddr + b < 0x10_0000
  {
    ino.(size := 2 * ENTRY_SIZE, direct := ino.direct[0 := DataAddr(s, b)])
  }

  lemma MakeDirIs(st: State, e: I32, p: I32, b: nat, junk: Junk)
    requires InRange(st, e) && b < st.s.numData && JunkOK(junk)
    ensures st.s.dataRegionAddr + b < 0x10_0000 && (st.s.dataRegionAddr + b) * BLOCK + BLOCK <= |st.disk|
    ensures var r, es := MakeDir(st, e, p, b, junk), [DirEnt(DotName(), e), DirEnt(DotDotName(), p)];
      && r.out == Ret(0)
      && r.st.m == Meta(st.m.ibm, Set(st.m.dbm, b), st.m.inodes[e := DirInode(st.s, st.m.inodes[e], b)])
      && r.st.disk == Splice(st.disk, (st.s.dataRegionAddr + b) * BLOCK, DirBlock(es, junk.dir))
      && r.pre == [DiskWrite((st.s.dataRegionAddr + b) * BLOCK, DirBlock(es, junk.dir))]
  {
    hide DirBlock, Splice, Set, Layout;
    DataAddrInside(st, b);
  }

  lemma NewDirAlloc(s: Super, m: Meta, e: I32, b: nat)
    requires 0 <= s.dataRegionAddr && s.dataRegionAddr + b < 0x10_0000
    requires AllocOK(s, m) && Live(m, e) && m.inodes[e].direct == NoPtrs()
    requires b < s.numData && b < WORD_BITS * |m.dbm| && !Get(m.dbm, b)
    ensures AllocOK(s, Meta(m.ibm, Set(m.dbm, b), m.inodes[e := DirInode(s, m.inodes[e], b)]))
  {
    var m' := Meta(m.ibm, Set(m.dbm, b), m.inodes[e := DirInode(s, m.inodes[e], b)]);
    forall i, k, c
      ensures Owns(s, m', i, k, c) <==> Owns(s, m, i, k, c) || (i == e && k == 0 && c == b)
    {
    }
    AllocTaken(s, m, m', e, 0, b);
  }

  lemma NewDirRefines(st: State, t: Tree, e: I32, es: seq<DirEnt>, b: nat, blk: seq<Byte>)
    requires Ref(st, t) && Claimed(st, t, e, DIRECTORY)
    requires b < st.s.numData && !Get(st.m.dbm, b) && st.s.dataRegionAddr + b < 0x10_0000
    requires |blk| == BLOCK && |es| == 2 && StartsWith(blk, es)
    ensures (st.s.dataRegionAddr + b) * BLOCK + BLOCK <= |st.disk|
    ensures Refines(st.s, Meta(st.m.ibm, Set(st.m.dbm, b), st.m.inodes[e := DirInode(st.s, st.m.inodes[e], b)]),
                    Splice(st.disk, (st.s.dataRegionAddr + b) * BLOCK, blk), t[e := Dir(es)])
  {
    var m' := Meta(st.m.ibm, Set(st.m.dbm, b), st.m.inodes[e := DirInode(st.s, st.m.inodes[e], b)]);
    NewDirAlloc(st.s, st.m, e, b);
    FreshBlock(st, m', e, b, blk);
    var d' := Splice(st.disk, (st.s.dataRegionAddr + b) * BLOCK, blk);
    NewDirHolds(st.s, m'.inodes[e], d', es);
    ChangeOne(st.s, st.m, st.disk, m', d', t, e, Dir(es));
  }

  lemma NewDir(st: State, t: Tree, e: I32, p: I32, b: nat, junk: Junk)
    requires Ref(st, t) && Claimed(st, t, e, DIRECTORY) && JunkOK(junk)
    requires b < st.s.numData && !Get(st.m.dbm, b)
    ensures Ref(MakeDir(st, e, p, b, junk).st, t[e := NewNode(p, DIRECTORY, e)])
  {
    var es := [DirEnt(DotName(), e), DirEnt(DotDotName(), p)];
    MakeDirIs(st, e, p, b, junk);
    DirBlockEntries(es, junk.dir);
    NewDirRefines(st, t, e, es, b, DirBlock(es, junk.dir));
  }

  // ---------- the parent's entry ----------

  // Directory p, before an entry is added to it.
  ghost predicate Extensible(st: State, t: Tree, p: I32, ent: DirEnt) {
    && Ref(st, t) && IsDir(t, p) && InRange(st, p) && LiveEntries(t[p].entries)
    && |t[p].entries| < DIRECT_PTRS * ENTRIES && |ent.name| < NAME_SIZE && ent.inum >= 0
  }

  // The inode of p after its entry went into data block b, opened for it.
  function Opened(s: Super, ino: Inode, n: nat, b: nat): Inode
    requires n < DIRECT_PTRS * ENTRIES && 0 <= s.dataRegionAddr && s.dataRegionAddr + b < 0x10_0000
  {
    Grow(ino.(direct := ino.direct[n / ENTRIES := DataAddr(s, b)]), ENTRY_SIZE)
  }

  lemma FullDir(st: State, t: Tree, p: I32, ent: DirEnt)
    requires Extensible(st, t, p, ent) && |t[p].entries| % ENTRIES == 0
    ensures var ps, l := st.m.inodes[p].direct, |t[p].entries| / ENTRIES;
      FullScan(st.disk, ps, 0) == Ret(1) && FirstNone(ps, 0) == l && ps[l] == NONE
  {
    assert ShowsAt(st.s, st.m, st.disk, t, p) && TidyAt(st.m, st.disk, t, p);
    HasProfile(st.s, st.m.inodes[p], st.disk, t[p].entries);
    ScanFull(st.disk, st.m.inodes[p].direct, |t[p].entries|, 0);
  }

  lemma PartialDir(st: State, t: Tree, p: I32, ent: DirEnt)
    requires Extensible(st, t, p, ent) && |t[p].entries| % ENTRIES != 0
    ensures FullScan(st.disk, st.m.inodes[p].direct, 0) == Ret(0)
    ensures FindSlot(st.disk, st.m.inodes[p].direct, 0) == Found(|t[p].entries| / ENTRIES, |t[p].entries| % ENTRIES)
  {
    assert ShowsAt(st.s, st.m, st.disk, t, p) && TidyAt(st.m, st.disk, t, p);
    HasProfile(st.s, st.m.inodes[p], st.disk, t[p].entries);
    ScanPartial(st.disk, st.m.inodes[p].direct, |t[p].entries|, 0);
  }

  lemma LinkNewBlockIs(st: State, p: I32, ent: DirEnt, n: nat, b: nat, junk: Junk)
    requires InRange(st, p) && JunkOK(junk) && |ent.name| < NAME_SIZE
    requires n < DIRECT_PTRS * ENTRIES && FirstNone(st.m.inodes[p].direct, 0) == n / ENTRIES
    requires b < st.s.numData
    ensures st.s.dataRegionAddr + b < 0x10_0000 && (st.s.dataRegionAddr + b) * BLOCK + BLOCK <= |st.disk|
    ensures var r := LinkInNewBlock(st, p, ent, b, junk);
      && r.out == Ret(0)
      && PutInode(r.st, p, Grow(r.st.m.inodes[p], ENTRY_SIZE)).m ==
         Meta(st.m.ibm, Set(st.m.dbm, b), st.m.inodes[p := Opened(st.s, st.m.inodes[p], n, b)])
      && r.st.disk == Splice(st.disk, (st.s.dataRegionAddr + b) * BLOCK, DirBlock([ent], junk.blk))
      && r.pre == [DiskWrite((st.s.dataRegionAddr + b) * BLOCK, DirBlock([ent], junk.blk))]
  {
    hide DirBlock, Splice, FirstNone, Set, Wrap;
    DataAddrInside(st, b);
  }

  // The directory grew by one entry: a slot holds it, and the other slots of old blocks are as before.
  lemma AppendedEntry(s: Super, ino: Inode, ino': Inode, d: seq<Byte>, d': seq<Byte>, es: seq<DirEnt>, ent: DirEnt)
    requires Layout(s, |d|) && |d'| == |d|
    requires Holds(s, ino, d, Dir(es)) && Compact(ino, d) && |es| < DIRECT_PTRS * ENTRIES
    requires ino'.kind == DIRECTORY && ino'.size == ENTRY_SIZE * (|es| + 1) && Backed(s, ino')
    requires EntryAt(d', ino', |es|) == ent
    requires forall e: nat :: e < DIRECT_PTRS * ENTRIES && e != |es| ==>
      EntryAt(d', ino', e) == EntryAt(d, ino, e) || (e > |es| && EntryAt(d', ino', e).inum == -1)
    ensures Holds(s, ino', d', Dir(es + [ent])) && Compact(ino', d')
  {
    forall e: nat | e < |es|
      ensures EntryAt(d', ino', e) == (es + [ent])[e]
    {
    }
  }

  lemma OpenedAlloc(st: State, t: Tree, p: I32, n: nat, b: nat, m': Meta)
    requires Ref(st, t) && Live(st.m, p) && InRange(st, p) && n < DIRECT_PTRS * ENTRIES
    requires st.m.inodes[p].direct[n / ENTRIES] == NONE
    requires b < st.s.numData && !Get(st.m.dbm, b) && st.s.dataRegionAddr + b < 0x10_0000
    requires m' == Meta(st.m.ibm, Set(st.m.dbm, b), st.m.inodes[p := Opened(st.s, st.m.inodes[p], n, b)])
    ensures AllocOK(st.s, m')
  {
    var l := n / ENTRIES;
    forall i, k, c
      ensures Owns(st.s, m', i, k, c) <==> Owns(st.s, st.m, i, k, c) || (i == p && k == l && c == b)
    {
    }
    AllocTaken(st.s, st.m, m', p, l, b);
  }

  lemma OpenedEntry(s: Super, ino: Inode, d: seq<Byte>, d': seq<Byte>, n: nat, ent: DirEnt, b: nat, e: nat)
    requires Layout(s, |d|) && |d'| == |d| && b < s.numData && s.dataRegionAddr + b < 0x10_0000
    requires n < DIRECT_PTRS * ENTRIES && n % ENTRIES == 0 && e < DIRECT_PTRS * ENTRIES
    requires ino.direct[n / ENTRIES] == NONE && SameBlocks(ino, d, d')
    requires Readable(d', DataAddr(s, b)) && StartsWith(PtrBlock(d', DataAddr(s, b)), [ent])
    ensures var ino' := Opened(s, ino, n, b);
      if e / ENTRIES != n / ENTRIES then EntryAt(d', ino', e) == EntryAt(d, ino, e)
      else if e == n then EntryAt(d', ino', e) == ent
      else e > n && EntryAt(d', ino', e).inum == -1
  {
    var ino' := Opened(s, ino, n, b);
    NoneUnreadable(s, d);
    if e / ENTRIES == n / ENTRIES {
      assert EntryAt(d', ino', e) == EntryIn(PtrBlock(d', DataAddr(s, b)), e % ENTRIES);
    } else {
      assert ino'.direct[e / ENTRIES] == ino.direct[e / ENTRIES];
    }
  }

  lemma OpenedHolds(s: Super, ino: Inode, d: seq<Byte>, d': seq<Byte>, es: seq<DirEnt>, ent: DirEnt, b: nat)
    requires Layout(s, |d|) && |d'| == |d| && b < s.numData && s.dataRegionAddr + b < 0x10_0000
    requires Holds(s, ino, d, Dir(es)) && Compact(ino, d)
    requires |es| < DIRECT_PTRS * ENTRIES && |es| % ENTRIES == 0 && SameBlocks(ino, d, d')
    requires Readable(d', DataAddr(s, b)) && StartsWith(PtrBlock(d', DataAddr(s, b)), [ent])
    ensures Holds(s, Opened(s, ino, |es|, b), d', Dir(es + [ent]))
    ensures Compact(Opened(s, ino, |es|, b), d')
  {
    var ino' := Opened(s, ino, |es|, b);
    forall e: nat | e < DIRECT_PTRS * ENTRIES
      ensures if e == |es| then EntryAt(d', ino', e) == ent
              else EntryAt(d', ino', e) == EntryAt(d, ino, e) || (e > |es| && EntryAt(d', ino', e).inum == -1)
    {
      OpenedEntry(s, ino, d, d', |es|, ent, b, e);
    }
    AppendedEntry(s, ino, ino', d, d', es, ent);
  }

  lemma OpenedRefines(st: State, t: Tree, p: I32, ent: DirEnt, b: nat, blk: seq<Byte>)
    requires Extensible(st, t, p, ent) && |t[p].entries| % ENTRIES == 0
    requires st.m.inodes[p].direct[|t[p].entries| / ENTRIES] == NONE
    requires b < st.s.numData && !Get(st.m.dbm, b) && st.s.dataRegionAddr + b < 0x10_0000
    requires |blk| == BLOCK && StartsWith(blk, [ent])
    ensures (st.s.dataRegionAddr + b) * BLOCK + BLOCK <= |st.disk|
    ensures Refines(st.s,
      Meta(st.m.ibm, Set(st.m.dbm, b), st.m.inodes[p := Opened(st.s, st.m.inodes[p], |t[p].entries|, b)]),
      Splice(st.disk, (st.s.dataRegionAddr + b) * BLOCK, blk), t[p := Dir(t[p].entries + [ent])])
  {
    var es, ino := t[p].entries, st.m.inodes[p];
    assert ShowsAt(st.s, st.m, st.disk, t, p) && TidyAt(st.m, st.disk, t, p);
    var m' := Meta(st.m.ibm, Set(st.m.dbm, b), st.m.inodes[p := Opened(st.s, ino, |es|, b)]);
    OpenedAlloc(st, t, p, |es|, b, m');
    FreshBlock(st, m', p, b, blk);
    var d' := Splice(st.disk, (st.s.dataRegionAddr + b) * BLOCK, blk);
    OpenedHolds(st.s, ino, st.disk, d', es, ent, b);
    ChangeOne(st.s, st.m, st.disk, m', d', t, p, Dir(es + [ent]));
  }

  lemma LinkNewBlock(st: State, t: Tree, p: I32, ent: DirEnt, b: nat, junk: Junk)
    requires Extensible(st, t, p, ent) && |t[p].entries| % ENTRIES == 0
    requires JunkOK(junk) && b < st.s.numData && !Get(st.m.dbm, b)
    ensures var r := LinkInNewBlock(st, p, ent, b, junk);
      r.out == Ret(0)
      && Ref(PutInode(r.st, p, Grow(r.st.m.inodes[p], ENTRY_SIZE)), t[p := Dir(t[p].entries + [ent])])
  {
    FullDir(st, t, p, ent);
    LinkNewBlockIs(st, p, ent, |t[p].entries|, b, junk);
    DirBlockEntries([ent], junk.blk);
    OpenedRefines(st, t, p, ent, b, DirBlock([ent], junk.blk));
  }

  // Distinct used pointers of one inode hold distinct blocks, all in the data region.
  lemma DistinctPtrs(s: Super, m: Meta, d: seq<Byte>, i: I32, k: nat, l: nat)
    requires Sized(s, m, d) && AllocOK(s, m) && Live(m, i) && k < DIRECT_PTRS && l < DIRECT_PTRS
    requires m.inodes[i].direct[k] != NONE && m.inodes[i].direct[l] != NONE
    ensures var p := m.inodes[i].direct[k];
      s.dataRegionAddr <= p < s.dataRegionAddr + s.numData && Ptr(p) == p && Readable(d, p)
    ensures k != l ==> m.inodes[i].direct[k] != m.inodes[i].direct[l]
  {
    var c := m.inodes[i].direct[k] - s.dataRegionAddr;
    assert Owns(s, m, i, k, c);
    assert BitRight(s, m, c);
    DataPtr(s, d, m.inodes[i].direct[k]);
    if m.inodes[i].direct[k] == m.inodes[i].direct[l] {
      assert Owns(s, m, i, l, c);
    }
  }

  lemma SoleOwnerOf(s: Super, m: Meta, x: I32, k: nat, c: int)
    requires AllocOK(s, m) && Owns(s, m, x, k, c) && |m.dbm| * WORD_BITS >= s.numData
    ensures SoleOwner(s, m, x, k, c)
    ensures 0 <= c < s.numData && Get(m.dbm, c)
  {
    assert BitRight(s, m, c);
  }

  // The blocks of the inode other than that of pointer k are the same on both disks.
  ghost predicate OtherBlocksSame(ino: Inode, k: nat, d: seq<Byte>, d': seq<Byte>) {
    forall l {:trigger ino.direct[l]} :: 0 <= l < DIRECT_PTRS && l != k && ino.direct[l] != NONE ==>
      Readable(d, ino.direct[l]) && Readable(d', ino.direct[l])
      && PtrBlock(d', ino.direct[l]) == PtrBlock(d, ino.direct[l])
  }

  // A write of n bytes within the block of a set pointer: where it goes.
  lemma OwnBlockAddr(s: Super, m: Meta, d: seq<Byte>, x: I32, k: nat, off: nat, n: nat)
    requires Sized(s, m, d) && AllocOK(s, m) && Live(m, x) && k < DIRECT_PTRS
    requires m.inodes[x].direct[k] != NONE && off + n <= BLOCK
    ensures var p := m.inodes[x].direct[k];
      && Readable(d, p) && Ptr(p) * BLOCK + off + n <= |d|
      && p >= s.dataRegionAddr && InDataBlock(s, Ptr(p) * BLOCK + off, p - s.dataRegionAddr, n)
      && SoleOwner(s, m, x, k, p - s.dataRegionAddr)
  {
    DistinctPtrs(s, m, d, x, k, k);
    SoleOwnerOf(s, m, x, k, m.inodes[x].direct[k] - s.dataRegionAddr);
  }

  lemma OwnOtherBlocks(st: State, x: I32, k: nat, off: nat, bs: seq<Byte>)
    requires AllocOK(st.s, st.m) && Live(st.m, x) && k < DIRECT_PTRS
    requires st.m.inodes[x].direct[k] != NONE && off + |bs| <= BLOCK
    ensures Ptr(st.m.inodes[x].direct[k]) * BLOCK + off + |bs| <= |st.disk|
    ensures OtherBlocksSame(st.m.inodes[x], k, st.disk,
                            Splice(st.disk, Ptr(st.m.inodes[x].direct[k]) * BLOCK + off, bs))
  {
    var p := st.m.inodes[x].direct[k];
    var a := Ptr(p) * BLOCK + off;
    DistinctPtrs(st.s, st.m, st.disk, x, k, k);
    forall l | 0 <= l < DIRECT_PTRS && l != k && st.m.inodes[x].direct[l] != NONE
      ensures var q := st.m.inodes[x].direct[l];
        Readable(st.disk, q) && PtrBlock(Splice(st.disk, a, bs), q) == PtrBlock(st.disk, q)
    {
      DistinctPtrs(st.s, st.m, st.disk, x, l, k);
      BlockBesideWrite(st.s, st.disk, st.m.inodes[x].direct[l], p - st.s.dataRegionAddr, a, bs);
    }
  }

  // Writing within the block of pointer k of inode x: that block changes as told, the other blocks of x
  // and all blocks of the other inodes do not.
  lemma WriteOwnBlock(st: State, m': Meta, x: I32, k: nat, off: nat, bs: seq<Byte>)
    requires AllocOK(st.s, st.m) && Live(st.m, x) && k < DIRECT_PTRS
    requires st.m.inodes[x].direct[k] != NONE && off + |bs| <= BLOCK
    requires |st.m.inodes| == |m'.inodes| && m'.ibm == st.m.ibm && m'.inodes == st.m.inodes[x := m'.inodes[x]]
    ensures Readable(st.disk, st.m.inodes[x].direct[k])
    ensures Ptr(st.m.inodes[x].direct[k]) * BLOCK + off + |bs| <= |st.disk|
    ensures var p := st.m.inodes[x].direct[k];
      var d' := Splice(st.disk, Ptr(p) * BLOCK + off, bs);
      && OthersKept(st.m, st.disk, m', d', x)
      && OtherBlocksSame(st.m.inodes[x], k, st.disk, d')
      && PtrBlock(d', p) == Splice(PtrBlock(st.disk, p), off, bs)
  {
    hide OthersKept, OtherBlocksSame, Splice;
    var p := st.m.inodes[x].direct[k];
    OwnBlockAddr(st.s, st.m, st.disk, x, k, off, |bs|);
    OthersSame(st.s, st.m, st.disk, m', x, p - st.s.dataRegionAddr, Ptr(p) * BLOCK + off, bs);
    OwnOtherBlocks(st, x, k, off, bs);
    BlockOfSplice(st.disk, Ptr(p), off, bs);
  }

  lemma HoleEntry(s: Super, ino: Inode, d: seq<Byte>, d': seq<Byte>, k: nat, j: nat, bs: seq<Byte>, e: nat)
    requires Layout(s, |d|) && |d'| == |d| && k < DIRECT_PTRS && j < ENTRIES && |bs| == ENTRY_SIZE
    requires Readable(d, ino.direct[k])
    requires PtrBlock(d', ino.direct[k]) == Splice(PtrBlock(d, ino.direct[k]), ENTRY_SIZE * j, bs)
    requires OtherBlocksSame(ino, k, d, d')
    requires e < DIRECT_PTRS * ENTRIES
    ensures EntryAt(d', ino, e) == if e == k * ENTRIES + j then DecodeEntry(bs) else EntryAt(d, ino, e)
  {
    NoneUnreadable(s, d);
    if e / ENTRIES == k {
      SlotSplice(PtrBlock(d, ino.direct[k]), j, bs);
    } else {
      assert ino.direct[e / ENTRIES] == NONE || Readable(d, ino.direct[e / ENTRIES]);
    }
  }

  lemma HoleHolds(s: Super, ino: Inode, d: seq<Byte>, d': seq<Byte>, es: seq<DirEnt>, ent: DirEnt, bs: seq<Byte>)
    requires Layout(s, |d|) && |d'| == |d| && Holds(s, ino, d, Dir(es)) && Compact(ino, d)
    requires |es| < DIRECT_PTRS * ENTRIES && |es| % ENTRIES != 0 && |bs| == ENTRY_SIZE && DecodeEntry(bs) == ent
    requires Readable(d, ino.direct[|es| / ENTRIES])
    requires PtrBlock(d', ino.direct[|es| / ENTRIES])
      == Splice(PtrBlock(d, ino.direct[|es| / ENTRIES]), ENTRY_SIZE * (|es| % ENTRIES), bs)
    requires OtherBlocksSame(ino, |es| / ENTRIES, d, d')
    ensures Holds(s, Grow(ino, ENTRY_SIZE), d', Dir(es + [ent]))
    ensures Compact(Grow(ino, ENTRY_SIZE), d')
  {
    var ino' := Grow(ino, ENTRY_SIZE);
    var k, j := |es| / ENTRIES, |es| % ENTRIES;
    assert k * ENTRIES + j == |es|;
    forall e: nat | e < DIRECT_PTRS * ENTRIES
      ensures EntryAt(d', ino', e) == if e == |es| then ent else EntryAt(d, ino, e)
    {
      HoleEntry(s, ino, d, d', k, j, bs, e);
    }
    AppendedEntry(s, ino, ino', d, d', es, ent);
  }

  // A directory of the tree, in memory and on the disk.
  lemma DirFacts(st: State, t: Tree, p: I32)
    requires Ref(st, t) && IsDir(t, p)
    ensures Live(st.m, p) && Holds(st.s, st.m.inodes[p], st.disk, t[p]) && Compact(st.m.inodes[p], st.disk)
    ensures Backed(st.s, st.m.inodes[p]) && st.m.inodes[p].size == ENTRY_SIZE * |t[p].entries|
    ensures |t[p].entries| > 0 ==> st.m.inodes[p].direct[(|t[p].entries| - 1) / ENTRIES] != NONE
  {
    assert ShowsAt(st.s, st.m, st.disk, t, p) && TidyAt(st.m, st.disk, t, p);
    if |t[p].entries| > 0 {
      DataPtr(st.s, st.disk, st.m.inodes[p].direct[(|t[p].entries| - 1) / ENTRIES]);
    }
  }

  lemma HoleRefines(st: State, t: Tree, p: I32, ent: DirEnt, bs: seq<Byte>)
    requires Extensible(st, t, p, ent) && |t[p].entries| % ENTRIES != 0
    requires |bs| == ENTRY_SIZE && DecodeEntry(bs) == ent
    ensures var n, ps := |t[p].entries|, st.m.inodes[p].direct;
      && Readable(st.disk, ps[n / ENTRIES])
      && Ptr(ps[n / ENTRIES]) * BLOCK + ENTRY_SIZE * (n % ENTRIES) + ENTRY_SIZE <= |st.disk|
      && Refines(st.s, st.m.(inodes := st.m.inodes[p := Grow(st.m.inodes[p], ENTRY_SIZE)]),
                 Splice(st.disk, Ptr(ps[n / ENTRIES]) * BLOCK + ENTRY_SIZE * (n % ENTRIES), bs),
                 t[p := Dir(t[p].entries + [ent])])
  {
    hide OthersKept, OtherBlocksSame, Splice, PtrBlock, Holds, Compact, Shows, LiveEntries;
    var es, ino := t[p].entries, st.m.inodes[p];
    DirFacts(st, t, p);
    var k, j := |es| / ENTRIES, |es| % ENTRIES;
    var ino' := Grow(ino, ENTRY_SIZE);
    var m' := st.m.(inodes := st.m.inodes[p := ino']);
    WriteOwnBlock(st, m', p, k, ENTRY_SIZE * j, bs);
    var d' := Splice(st.disk, Ptr(ino.direct[k]) * BLOCK + ENTRY_SIZE * j, bs);
    forall i, l, c
      ensures Owns(st.s, m', i, l, c) <==> Owns(st.s, st.m, i, l, c)
    {
    }
    AllocUnchanged(st.s, st.m, m');
    HoleHolds(st.s, ino, st.disk, d', es, ent, bs);
    ChangeOne(st.s, st.m, st.disk, m', d', t, p, Dir(es + [ent]));
  }

  lemma LinkHole(st: State, t: Tree, p: I32, ent: DirEnt, junk: Junk)
    requires Extensible(st, t, p, ent) && |t[p].entries| % ENTRIES != 0 && JunkOK(junk)
    ensures var r := LinkInHole(st, p, ent, junk);
      r.out == Ret(0)
      && Ref(PutInode(r.st, p, Grow(r.st.m.inodes[p], ENTRY_SIZE)), t[p := Dir(t[p].entries + [ent])])
  {
    var es, ps := t[p].entries, st.m.inodes[p].direct;
    PartialDir(st, t, p, ent);
    EntryRoundTrip(ent, junk.ent);
    HoleRefines(st, t, p, ent, EncodeEntry(ent, junk.ent));
  }

  // ---------- linking, claiming, creating ----------

  lemma LinkRefines(st: State, t: Tree, p: I32, ent: DirEnt, full: bool, b: int, junk: Junk)
    requires Extensible(st, t, p, ent) && JunkOK(junk)
    requires full == (|t[p].entries| % ENTRIES == 0)
    requires b == -1 || (0 <= b < st.s.numData && !Get(st.m.dbm, b))
    ensures var r := Link(st, p, ent, full, b, junk);
      if full && b == -1 then r == Step(Ret(-1), MarkInode(st, p), []) && Ref(r.st, t)
      else r.out == Ret(0) && Ref(r.st, t[p := Dir(t[p].entries + [ent])])
  {
    assert ShowsAt(st.s, st.m, st.disk, t, p);
    assert st.m.inodes[p].size != MAX_SIZE;
    var st1 := MarkInode(st, p);
    assert Extensible(st1, t, p, ent);
    if full && b != -1 {
      LinkNewBlock(st1, t, p, ent, b, junk);
    } else if !full {
      LinkHole(st1, t, p, ent, junk);
    }
  }

  // An inode of the tree that owns nothing and that no entry names yet can be left out again.
  lemma Orphan(st: State, t: Tree, e: I32, node: Node)
    requires Ref(st, t[e := node]) && e !in t && Live(st.m, e) && st.m.inodes[e].direct == NoPtrs()
    ensures Ref(st, t)
  {
    forall j
      ensures ShowsAt(st.s, st.m, st.disk, t, j)
      ensures TidyAt(st.m, st.disk, t, j)
    {
      assert ShowsAt(st.s, st.m, st.disk, t[e := node], j) && TidyAt(st.m, st.disk, t[e := node], j);
    }
  }

  // How many blocks among from..n are free.
  function FreeBlocks(ws: seq<Word>, from: nat, n: nat): nat
    requires from <= n <= WORD_BITS * |ws|
    decreases n - from
  {
    if from == n then 0 else (if Get(ws, from) then 0 else 1) + FreeBlocks(ws, from + 1, n)
  }

  lemma {:induction false} FreeBlocksFound(ws: seq<Word>, from: nat, n: nat)
    requires from <= n <= WORD_BITS * |ws|
    ensures var b := FirstClear(ws, from, n);
      FreeBlocks(ws, from, n) == if b == -1 then 0 else 1 + FreeBlocks(ws, b + 1, n)
    decreases n - from
  {
    if from < n && Get(ws, from) {
      FreeBlocksFound(ws, from + 1, n);
    }
  }

  lemma FreeBlocksCounted(ws: seq<Word>, n: nat)
    requires n <= WORD_BITS * |ws|
    ensures FirstClear(ws, 0, n) != -1 <==> 1 <= FreeBlocks(ws, 0, n)
    ensures SecondClear(ws, n) != -1 <==> 2 <= FreeBlocks(ws, 0, n)
  {
    var b := FirstClear(ws, 0, n);
    FreeBlocksFound(ws, 0, n);
    if b != -1 {
      FreeBlocksFound(ws, b + 1, n);
    }
  }

  // The blocks a creat takes: one for a new directory, one when the parent's blocks are full.
  function Needed(kind: I32, n: nat): nat {
    (if kind == DIRECTORY then 1 else 0) + (if n % ENTRIES == 0 then 1 else 0)
  }

  lemma LinkFile(st: State, t: Tree, p: I32, kind: I32, name: Name, e: I32, full: bool, b: int, junk: Junk)
    requires Extensible(st, t, p, DirEnt(name, e)) && JunkOK(junk) && kind != DIRECTORY
    requires Claimed(st, t, e, kind) && full == (|t[p].entries| % ENTRIES == 0)
    requires b == -1 || (0 <= b < st.s.numData && !Get(st.m.dbm, b))
    ensures var r := Link(PutInode(st, e, st.m.inodes[e].(size := 0)), p, DirEnt(name, e), full, b, junk);
      if full && b == -1 then r.out == Ret(-1) && Ref(r.st, t)
      else r.out == Ret(0) && Ref(r.st, AddChild(t, p, kind, name, e))
  {
    var st1 := PutInode(st, e, st.m.inodes[e].(size := 0));
    var t1 := t[e := File(kind, [])];
    NewFile(st, t, e, kind);
    LinkRefines(st1, t1, p, DirEnt(name, e), full, b, junk);
    if full && b == -1 {
      Orphan(MarkInode(st1, p), t, e, File(kind, []));
    } else {
      assert t1[p := Dir(t[p].entries + [DirEnt(name, e)])] == AddChild(t, p, kind, name, e);
    }
  }

  lemma LinkDir(st: State, t: Tree, p: I32, name: Name, e: I32, full: bool, b: nat, b2: int, junk: Junk)
    requires Extensible(st, t, p, DirEnt(name, e)) && JunkOK(junk)
    requires Claimed(st, t, e, DIRECTORY) && full == (|t[p].entries| % ENTRIES == 0)
    requires b < st.s.numData && !Get(st.m.dbm, b) && b != b2
    requires b2 == -1 || (0 <= b2 < st.s.numData && !Get(st.m.dbm, b2))
    requires full ==> b2 != -1
    ensures var r := Link(MakeDir(st, e, p, b, junk).st, p, DirEnt(name, e), full, b2, junk);
      r.out == Ret(0) && Ref(r.st, AddChild(t, p, DIRECTORY, name, e))
  {
    var st1 := MakeDir(st, e, p, b, junk).st;
    var t1 := t[e := NewNode(p, DIRECTORY, e)];
    NewDir(st, t, e, p, b, junk);
    MakeDirIs(st, e, p, b, junk);
    LinkRefines(st1, t1, p, DirEnt(name, e), full, b2, junk);
    assert t1[p := Dir(t[p].entries + [DirEnt(name, e)])] == AddChild(t, p, DIRECTORY, name, e);
  }

  lemma ScanTells(st: State, t: Tree, p: I32, ent: DirEnt)
    requires Extensible(st, t, p, ent)
    ensures FullScan(st.disk, st.m.inodes[p].direct, 0) == if |t[p].entries| % ENTRIES == 0 then Ret(1) else Ret(0)
    ensures st.m.inodes[p].size == ENTRY_SIZE * |t[p].entries| < MAX_SIZE
  {
    assert ShowsAt(st.s, st.m, st.disk, t, p);
    if |t[p].entries| % ENTRIES == 0 {
      FullDir(st, t, p, ent);
    } else {
      PartialDir(st, t, p, ent);
    }
  }

  lemma PlaceRefines(st: State, t: Tree, p: I32, kind: I32, name: Name, e: I32, full: bool, b: int, b2: int, junk: Junk)
    requires Extensible(st, t, p, DirEnt(name, e)) && Claimed(st, t, e, kind) && JunkOK(junk)
    requires full == (|t[p].entries| % ENTRIES == 0)
    requires b == FirstClear(st.m.dbm, 0, st.s.numData) && b2 == SecondClear(st.m.dbm, st.s.numData)
    ensures var r, n := Place(st, p, kind, DirEnt(name, e), full, b, b2, junk), |t[p].entries|;
      if Needed(kind, n) <= FreeBlocks(st.m.dbm, 0, st.s.numData)
      then r.out == Ret(0) && Ref(r.st, AddChild(t, p, kind, name, e))
      else r.out == Ret(-1) && Ref(r.st, t)
  {
    FreeBlocksCounted(st.m.dbm, st.s.numData);
    if kind != DIRECTORY {
      LinkFile(st, t, p, kind, name, e, full, b, junk);
    } else if b != -1 && !(full && b2 == -1) {
      LinkDir(st, t, p, name, e, full, b, b2, junk);
    }
  }

  lemma CreatClaimedRefines(st: State, t: Tree, p: I32, kind: I32, name: Name, e: I32, junk: Junk)
    requires Extensible(st, t, p, DirEnt(name, e)) && Claimed(st, t, e, kind) && JunkOK(junk)
    ensures var r, n := CreatClaimed(st, p, kind, DirEnt(name, e), junk), |t[p].entries|;
      if Needed(kind, n) <= FreeBlocks(st.m.dbm, 0, st.s.numData)
      then r.out == Ret(0) && Ref(r.st, AddChild(t, p, kind, name, e))
      else r.out == Ret(-1) && Ref(r.st, t)
  {
    ScanTells(st, t, p, DirEnt(name, e));
    PlaceRefines(st, t, p, kind, name, e, |t[p].entries| % ENTRIES == 0,
                 FirstClear(st.m.dbm, 0, st.s.numData), SecondClear(st.m.dbm, st.s.numData), junk);
  }

  // When ufs_creat succeeds.
  ghost predicate CanCreate(st: State, t: Tree, p: I32, kind: I32, name: Name)
  {
    && IsDir(t, p) && |name| <= 27 && Find(t[p].entries, name) == -1
    && FirstClear(st.m.ibm, 0, st.s.numInodes) != -1
    && |t[p].entries| < DIRECT_PTRS * ENTRIES
    && Needed(kind, |t[p].entries|) <= FreeBlocks(st.m.dbm, 0, st.s.numData)
  }

  // The checks before an inode is claimed.
  lemma CreatChecks(st: State, t: Tree, p: I32, kind: I32, name: Name, junk: Junk)
    requires Ref(st, t) && JunkOK(junk)
    requires p in t || !Allocated(st, p)
    requires IsDir(t, p) ==> LiveEntries(t[p].entries)
    ensures var e := FirstClear(st.m.ibm, 0, st.s.numInodes);
      Creat(st, p, kind, name, junk) ==
        if IsDir(t, p) && InRange(st, p) && |name| <= 27 && Find(t[p].entries, name) == -1 && e != -1
        then CreatClaimed(ClaimInode(st, e, kind), p, kind, DirEnt(name, e), junk)
        else Step(Ret(-1), st, [])
    ensures IsDir(t, p) ==>
      InRange(st, p) && |t[p].entries| <= DIRECT_PTRS * ENTRIES
      && (st.m.inodes[p].size == MAX_SIZE <==> |t[p].entries| == DIRECT_PTRS * ENTRIES)
  {
    assert ShowsAt(st.s, st.m, st.disk, t, p);
    LookupFinds(st, t, p, name);
  }

  // Creating, up to the commit, in any directory whose entries lead somewhere: it succeeds exactly when CanCreate
  // says, p gains one empty child and nothing else changes, and a failed call leaves all contents as they were.
  lemma CreatAnywhere(st: State, t: Tree, p: I32, kind: I32, name: Name, junk: Junk)
    requires Ref(st, t) && JunkOK(junk)
    requires p in t || !Allocated(st, p)
    requires IsDir(t, p) ==> LiveEntries(t[p].entries)
    ensures var r, e := Creat(st, p, kind, name, junk), FirstClear(st.m.ibm, 0, st.s.numInodes);
      if CanCreate(st, t, p, kind, name)
      then r.out == Ret(0) && e !in t && Ref(r.st, AddChild(t, p, kind, name, e))
      else r.out == Ret(-1) && Ref(r.st, t)
  {
    var e := FirstClear(st.m.ibm, 0, st.s.numInodes);
    CreatChecks(st, t, p, kind, name, junk);
    if IsDir(t, p) && |name| <= 27 && Find(t[p].entries, name) == -1 && e != -1 {
      ClaimKeeps(st, t, e, kind);
      if |t[p].entries| < DIRECT_PTRS * ENTRIES {
        CreatClaimedRefines(ClaimInode(st, e, kind), t, p, kind, name, e, junk);
      }
    }
  }

  lemma RootIn(t: Tree)
    requires TreeOK(t)
    ensures 0 in t
  {
  }

  // The tree part t of a forest u stays a tree when a directory of t gains a child.
  lemma CreatKeepsTree(st: State, t: Tree, u: Tree, p: I32, kind: I32, name: Name)
    requires Ref(st, u) && TreeOK(t) && 0 in u && IsDir(t, p)
    requires FirstClear(st.m.ibm, 0, st.s.numInodes) != -1 && Find(t[p].entries, name) == -1
    requires FirstClear(st.m.ibm, 0, st.s.numInodes) !in t
    ensures FirstClear(st.m.ibm, 0, st.s.numInodes) > 0
    ensures TreeOK(AddChild(t, p, kind, name, FirstClear(st.m.ibm, 0, st.s.numInodes)))
  {
    hide Holds, AllocOK;
    assert ShowsAt(st.s, st.m, st.disk, u, 0);
    EntriesAreLive(t, p);
    AddChildKeepsTree(t, p, kind, name, FirstClear(st.m.ibm, 0, st.s.numInodes));
  }

  // The same in a tree: it stays one.
  lemma CreatRefines(st: State, t: Tree, p: I32, kind: I32, name: Name, junk: Junk)
    requires Ref(st, t) && TreeOK(t) && JunkOK(junk)
    requires p in t || !Allocated(st, p)
    ensures var r, e := Creat(st, p, kind, name, junk), FirstClear(st.m.ibm, 0, st.s.numInodes);
      var t' := if CanCreate(st, t, p, kind, name) then AddChild(t, p, kind, name, e) else t;
      && r.out == (if CanCreate(st, t, p, kind, name) then Ret(0) else Ret(-1))
      && Ref(r.st, t') && TreeOK(t') && (CanCreate(st, t, p, kind, name) ==> e !in t)
  {
    hide Creat, Refines, TreeOK;
    RootIn(t);
    if IsDir(t, p) {
      EntriesAreLive(t, p);
    }
    CreatAnywhere(st, t, p, kind, name, junk);
    if CanCreate(st, t, p, kind, name) {
      CreatKeepsTree(st, t, t, p, kind, name);
    }
  }

  // An allocated inode outside the forest that owns nothing, and is no directory or an empty one, can be taken in.
  lemma Adopt(st: State, t: Tree, e: I32, node: Node)
    requires Ref(st, t) && Live(st.m, e) && e !in t
    requires node == if st.m.inodes[e].kind == DIRECTORY then Dir([])
                     else Patched(st.m.inodes[e].kind, st.m.inodes[e].size, [])
    requires st.m.inodes[e].kind == DIRECTORY ==> st.m.inodes[e].size == 0
    ensures Ref(st, t[e := node])
  {
    NoneUnreadable(st.s, st.disk);
    assert TidyAt(st.m, st.disk, t, e);
    var t' := t[e := node];
    forall j
      ensures ShowsAt(st.s, st.m, st.disk, t', j)
      ensures TidyAt(st.m, st.disk, t', j)
    {
      assert ShowsAt(st.s, st.m, st.disk, t, j) && TidyAt(st.m, st.disk, t, j);
    }
  }
}
