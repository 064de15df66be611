// commit_dirty_to_disk: after it the disk's metadata is the memory's, and the data blocks are untouched.

module FsCommit {
  import opened Bits
  import opened Bytes
  import opened Format
  import opened Tree
  import opened FsModel
  import opened FsInv
  import opened FsCreat

  // ---------- what one metadata write does to what a mount loads ----------

  lemma WordsHit(d: seq<Byte>, base: nat, n: nat, k: nat, w: Word)
    requires k < n && base + 4 * n <= |d|
    ensures WordsAt(Splice(d, base + 4 * k, WordBytes(w)), base, n) == WordsAt(d, base, n)[k := w]
  {
    var d' := Splice(d, base + 4 * k, WordBytes(w));
    SliceOfSplice(d, base + 4 * k, WordBytes(w));
    WordRoundTrip(w);
    forall j | 0 <= j < n && j != k
      ensures Slice(d', base + 4 * j, 4) == Slice(d, base + 4 * j, 4)
    {
      SliceBesideSplice(d, base + 4 * k, WordBytes(w), base + 4 * j, 4);
    }
  }

  lemma WordsMissed(d: seq<Byte>, base: nat, n: nat, a: nat, bs: seq<Byte>)
    requires base + 4 * n <= |d| && a + |bs| <= |d|
    requires a + |bs| <= base || base + 4 * n <= a
    ensures WordsAt(Splice(d, a, bs), base, n) == WordsAt(d, base, n)
  {
    forall j | 0 <= j < n
      ensures Slice(Splice(d, a, bs), base + 4 * j, 4) == Slice(d, base + 4 * j, 4)
    {
      SliceBesideSplice(d, a, bs, base + 4 * j, 4);
    }
  }

  lemma InodesHit(d: seq<Byte>, base: nat, n: nat, i: nat, ino: Inode)
    requires i < n && base + INODE_SIZE * n <= |d|
    ensures InodesAt(Splice(d, base + INODE_SIZE * i, EncodeInode(ino)), base, n) == InodesAt(d, base, n)[i := ino]
  {
    hide EncodeInode, DecodeInode;
    var bs := EncodeInode(ino);
    var d' := Splice(d, base + INODE_SIZE * i, bs);
    SliceOfSplice(d, base + INODE_SIZE * i, bs);
    InodeRoundTrip(ino);
    forall j | 0 <= j < n && j != i
      ensures Slice(d', base + INODE_SIZE * j, INODE_SIZE) == Slice(d, base + INODE_SIZE * j, INODE_SIZE)
    {
      SliceBesideSplice(d, base + INODE_SIZE * i, bs, base + INODE_SIZE * j, INODE_SIZE);
    }
  }

  lemma InodesMissed(d: seq<Byte>, base: nat, n: nat, a: nat, bs: seq<Byte>)
    requires base + INODE_SIZE * n <= |d| && a + |bs| <= |d|
    requires a + |bs| <= base || base + INODE_SIZE * n <= a
    ensures InodesAt(Splice(d, a, bs), base, n) == InodesAt(d, base, n)
  {
    hide DecodeInode;
    forall j | 0 <= j < n
      ensures Slice(Splice(d, a, bs), base + INODE_SIZE * j, INODE_SIZE) == Slice(d, base + INODE_SIZE * j, INODE_SIZE)
    {
      SliceBesideSplice(d, a, bs, base + INODE_SIZE * j, INODE_SIZE);
    }
  }

  lemma LoadInodeWord(s: Super, d: seq<Byte>, k: nat, w: Word)
    requires Layout(s, |d|) && k < BitmapWords(s.numInodes)
    ensures InodeWordAddr(s, k) >= 0 && InodeWordAddr(s, k) + 4 <= |d|
    ensures Load(s, Splice(d, InodeWordAddr(s, k), WordBytes(w))) == Load(s, d).(ibm := Load(s, d).ibm[k := w])
  {
    hide WordsAt, InodesAt, Splice, WordBytes;
    var a := InodeWordAddr(s, k);
    WordsHit(d, s.inodeBitmapAddr * BLOCK, BitmapWords(s.numInodes), k, w);
    WordsMissed(d, s.dataBitmapAddr * BLOCK, BitmapWords(s.numData), a, WordBytes(w));
    InodesMissed(d, s.inodeRegionAddr * BLOCK, s.numInodes, a, WordBytes(w));
  }

  lemma LoadDataWord(s: Super, d: seq<Byte>, k: nat, w: Word)
    requires Layout(s, |d|) && k < BitmapWords(s.numData)
    ensures DataWordAddr(s, k) >= 0 && DataWordAddr(s, k) + 4 <= |d|
    ensures Load(s, Splice(d, DataWordAddr(s, k), WordBytes(w))) == Load(s, d).(dbm := Load(s, d).dbm[k := w])
  {
    hide WordsAt, InodesAt, Splice, WordBytes;
    var a := DataWordAddr(s, k);
    WordsHit(d, s.dataBitmapAddr * BLOCK, BitmapWords(s.numData), k, w);
    WordsMissed(d, s.inodeBitmapAddr * BLOCK, BitmapWords(s.numInodes), a, WordBytes(w));
    InodesMissed(d, s.inodeRegionAddr * BLOCK, s.numInodes, a, WordBytes(w));
  }

  lemma LoadInode(s: Super, d: seq<Byte>, i: nat, ino: Inode)
    requires Layout(s, |d|) && i < s.numInodes
    ensures InodeAddr(s, i) >= 0 && InodeAddr(s, i) + INODE_SIZE <= |d|
    ensures Load(s, Splice(d, InodeAddr(s, i), EncodeInode(ino))) == Load(s, d).(inodes := Load(s, d).inodes[i := ino])
  {
    hide WordsAt, InodesAt, Splice, EncodeInode;
    var a := InodeAddr(s, i);
    InodesHit(d, s.inodeRegionAddr * BLOCK, s.numInodes, i, ino);
    WordsMissed(d, s.inodeBitmapAddr * BLOCK, BitmapWords(s.numInodes), a, EncodeInode(ino));
    WordsMissed(d, s.dataBitmapAddr * BLOCK, BitmapWords(s.numData), a, EncodeInode(ino));
  }

  // ---------- the whole commit ----------

  // Word k holds a dirty bit below n.
  predicate DirtyWord(dirty: seq<Word>, n: nat, k: nat)
    requires n <= WORD_BITS * |dirty|
  {
    exists i :: 0 <= i < n && i / WORD_BITS == k && Get(dirty, i)
  }

  function PatchedWords(before: seq<Word>, after: seq<Word>, dirty: seq<Word>, n: nat): (r: seq<Word>)
    requires |before| == |after| == |dirty| && n <= WORD_BITS * |dirty|
    ensures |r| == |before|
  {
    seq(|before|, k requires 0 <= k < |before| => if DirtyWord(dirty, n, k) then after[k] else before[k])
  }

  function PatchedInodes(before: seq<Inode>, after: seq<Inode>, dirty: seq<Word>, n: nat): (r: seq<Inode>)
    requires |before| == |after| && n <= |before| && n <= WORD_BITS * |dirty|
    ensures |r| == |before|
  {
    seq(|before|, i requires 0 <= i < |before| => if i < n && Get(dirty, i) then after[i] else before[i])
  }

  lemma {:induction false} PatchedStep(before: seq<Word>, after: seq<Word>, dirty: seq<Word>, n: nat)
    requires |before| == |after| == |dirty| && n < WORD_BITS * |dirty|
    ensures PatchedWords(before, after, dirty, n + 1) ==
            if Get(dirty, n) then PatchedWords(before, after, dirty, n)[n / WORD_BITS := after[n / WORD_BITS]]
            else PatchedWords(before, after, dirty, n)
  {
    forall k | 0 <= k < |before|
      ensures DirtyWord(dirty, n + 1, k) <==> DirtyWord(dirty, n, k) || (Get(dirty, n) && k == n / WORD_BITS)
    {
      if DirtyWord(dirty, n, k) {
        var i :| 0 <= i < n && i / WORD_BITS == k && Get(dirty, i);
        assert 0 <= i < n + 1;
      }
      if DirtyWord(dirty, n + 1, k) {
        var i :| 0 <= i < n + 1 && i / WORD_BITS == k && Get(dirty, i);
        assert i == n || i < n;
      }
    }
  }

  lemma PatchedNone(before: Meta, after: Meta, dirtyI: seq<Word>, dirtyD: seq<Word>)
    requires |before.ibm| == |after.ibm| == |dirtyI| && |before.dbm| == |after.dbm| == |dirtyD|
    requires |before.inodes| == |after.inodes|
    ensures PatchedWords(before.ibm, after.ibm, dirtyI, 0) == before.ibm
    ensures PatchedWords(before.dbm, after.dbm, dirtyD, 0) == before.dbm
    ensures PatchedInodes(before.inodes, after.inodes, dirtyI, 0) == before.inodes
  {
  }

  lemma PatchedInodesStep(before: seq<Inode>, after: seq<Inode>, dirty: seq<Word>, n: nat)
    requires |before| == |after| && n < |before| && n < WORD_BITS * |dirty|
    ensures PatchedInodes(before, after, dirty, n + 1) ==
            if Get(dirty, n) then PatchedInodes(before, after, dirty, n)[n := after[n]]
            else PatchedInodes(before, after, dirty, n)
  {
    hide Get;
    var r, r' := PatchedInodes(before, after, dirty, n), PatchedInodes(before, after, dirty, n + 1);
    assert forall i :: 0 <= i < |before| && i != n ==> r'[i] == r[i];
    assert r[n] == before[n] && r'[n] == if Get(dirty, n) then after[n] else before[n];
  }

  lemma {:induction false} InodeLogLoads(st: State, n: nat) returns (d: seq<Byte>)
    requires n <= st.s.numInodes
    ensures Inside(InodeLog(st, n), 0, |st.disk|) && d == Apply(st.disk, InodeLog(st, n))
    ensures Load(st.s, d) ==
            Meta(PatchedWords(Load(st.s, st.disk).ibm, st.m.ibm, st.dirtyI, n), Load(st.s, st.disk).dbm,
                 PatchedInodes(Load(st.s, st.disk).inodes, st.m.inodes, st.dirtyI, n))
  {
    hide Load, PatchedWords, PatchedInodes, Splice, WordBytes, EncodeInode, Get;
    var l := Load(st.s, st.disk);
    if n == 0 {
      PatchedNone(l, st.m, st.dirtyI, st.dirtyD);
      d := st.disk;
    } else {
      var d0 := InodeLogLoads(st, n - 1);
      PatchedStep(l.ibm, st.m.ibm, st.dirtyI, n - 1);
      PatchedInodesStep(l.inodes, st.m.inodes, st.dirtyI, n - 1);
      if Get(st.dirtyI, n - 1) {
        var w1 := DiskWrite(InodeWordAddr(st.s, (n - 1) / 32), WordBytes(st.m.ibm[(n - 1) / 32]));
        var w2 := DiskWrite(InodeAddr(st.s, n - 1), EncodeInode(st.m.inodes[n - 1]));
        LoadInodeWord(st.s, d0, (n - 1) / 32, st.m.ibm[(n - 1) / 32]);
        var d1 := Splice(d0, w1.addr, w1.bytes);
        LoadInode(st.s, d1, n - 1, st.m.inodes[n - 1]);
        ApplyOne(st.disk, InodeLog(st, n - 1), w1);
        ApplyOne(st.disk, InodeLog(st, n - 1) + [w1], w2);
        d := Splice(d1, w2.addr, w2.bytes);
      } else {
        d := d0;
      }
    }
  }

  lemma {:induction false} DataLogLoads(st: State, d0: seq<Byte>, n: nat) returns (d: seq<Byte>)
    requires n <= st.s.numData && |d0| == |st.disk|
    ensures Inside(DataLog(st, n), 0, |d0|) && d == Apply(d0, DataLog(st, n))
    ensures Load(st.s, d) == Load(st.s, d0).(dbm := PatchedWords(Load(st.s, d0).dbm, st.m.dbm, st.dirtyD, n))
  {
    hide Load, PatchedWords, PatchedInodes, Splice, WordBytes, Get;
    var l := Load(st.s, d0);
    if n == 0 {
      PatchedNone(l, st.m, st.dirtyI, st.dirtyD);
      d := d0;
    } else {
      var d1 := DataLogLoads(st, d0, n - 1);
      PatchedStep(l.dbm, st.m.dbm, st.dirtyD, n - 1);
      if Get(st.dirtyD, n - 1) {
        var w := DiskWrite(DataWordAddr(st.s, (n - 1) / 32), WordBytes(st.m.dbm[(n - 1) / 32]));
        LoadDataWord(st.s, d1, (n - 1) / 32, st.m.dbm[(n - 1) / 32]);
        ApplyOne(d0, DataLog(st, n - 1), w);
        d := Splice(d1, w.addr, w.bytes);
      } else {
        d := d1;
      }
    }
  }

  // What a commit leaves to be loaded: the memory's version of everything dirty, the disk's of the rest.
  lemma CommitLoads(st: State)
    ensures Load(st.s, Commit(st).disk) ==
            Meta(PatchedWords(Load(st.s, st.disk).ibm, st.m.ibm, st.dirtyI, st.s.numInodes),
                 PatchedWords(Load(st.s, st.disk).dbm, st.m.dbm, st.dirtyD, st.s.numData),
                 PatchedInodes(Load(st.s, st.disk).inodes, st.m.inodes, st.dirtyI, st.s.numInodes))
  {
    hide Load, PatchedWords, PatchedInodes;
    var d := InodeLogLoads(st, st.s.numInodes);
    var d' := DataLogLoads(st, d, st.s.numData);
    ApplyAppend(st.disk, InodeLog(st, st.s.numInodes), DataLog(st, st.s.numData));
  }

  // Whatever differs between the loaded metadata l and memory has its dirty bit set, at an index in range.
  ghost predicate Covers(s: Super, l: Meta, m: Meta, dirtyI: seq<Word>, dirtyD: seq<Word>) {
    && |l.ibm| == |m.ibm| == |dirtyI| && |l.dbm| == |m.dbm| == |dirtyD|
    && |l.inodes| == |m.inodes| == s.numInodes <= WORD_BITS * |dirtyI|
    && (forall i {:trigger m.inodes[i]} :: 0 <= i < s.numInodes && m.inodes[i] != l.inodes[i] ==> Get(dirtyI, i))
    && (forall i {:trigger Get(m.ibm, i)} :: 0 <= i < WORD_BITS * |m.ibm| && Get(m.ibm, i) != Get(l.ibm, i) ==>
          i < s.numInodes && Get(dirtyI, i))
    && (forall b {:trigger Get(m.dbm, b)} :: 0 <= b < WORD_BITS * |m.dbm| && Get(m.dbm, b) != Get(l.dbm, b) ==>
          b < s.numData && Get(dirtyD, b))
  }

  ghost predicate Covered(st: State) {
    Covers(st.s, Load(st.s, st.disk), st.m, st.dirtyI, st.dirtyD)
  }

  lemma PatchedIsNew(before: seq<Word>, after: seq<Word>, dirty: seq<Word>, n: nat)
    requires |before| == |after| == |dirty| && n <= WORD_BITS * |dirty|
    requires forall i {:trigger Get(after, i)} :: 0 <= i < WORD_BITS * |after| && Get(after, i) != Get(before, i) ==>
      i < n && Get(dirty, i)
    ensures PatchedWords(before, after, dirty, n) == after
  {
    forall i | 0 <= i < WORD_BITS * |after|
      ensures Get(PatchedWords(before, after, dirty, n), i) == Get(after, i)
    {
      if Get(after, i) != Get(before, i) {
        assert DirtyWord(dirty, n, i / WORD_BITS);
      }
    }
    SameBits(PatchedWords(before, after, dirty, n), after);
  }

  // Once every difference is covered, a commit makes a mount load exactly what memory holds.
  lemma CommitRestores(st: State)
    requires Covered(st)
    ensures Load(st.s, Commit(st).disk) == st.m && Covered(Commit(st))
  {
    CommitLoads(st);
    var l := Load(st.s, st.disk);
    PatchedIsNew(l.ibm, st.m.ibm, st.dirtyI, st.s.numInodes);
    PatchedIsNew(l.dbm, st.m.dbm, st.dirtyD, st.s.numData);
    assert PatchedInodes(l.inodes, st.m.inodes, st.dirtyI, st.s.numInodes) == st.m.inodes;
  }

  lemma SameAboveMetadata(s: Super, m: Meta, d: seq<Byte>, d': seq<Byte>, j: I32)
    requires Sized(s, m, d) && |d'| == |d| && AllocOK(s, m) && Live(m, j)
    requires forall k :: s.dataRegionAddr * BLOCK <= k < |d| ==> d'[k] == d[k]
    ensures SameBlocks(m.inodes[j], d, d')
  {
    forall k | 0 <= k < DIRECT_PTRS && m.inodes[j].direct[k] != NONE
      ensures var p := m.inodes[j].direct[k]; Readable(d, p) && Readable(d', p) && PtrBlock(d', p) == PtrBlock(d, p)
    {
      DistinctPtrs(s, m, d, j, k, k);
    }
  }

  // A commit writes metadata only, so it changes no contents.
  lemma CommitKeepsRef(st: State, t: Tree)
    requires Ref(st, t)
    ensures Ref(Commit(st), t)
  {
    var d' := Commit(st).disk;
    ApplyOutside(st.disk, CommitLog(st), BLOCK, st.s.dataRegionAddr * BLOCK);
    forall j: I32
      ensures ShowsAt(st.s, st.m, d', t, j)
      ensures TidyAt(st.m, d', t, j)
    {
      assert ShowsAt(st.s, st.m, st.disk, t, j) && TidyAt(st.m, st.disk, t, j);
      if Live(st.m, j) {
        SameAboveMetadata(st.s, st.m, st.disk, d', j);
        HoldsFrame(st.s, st.m.inodes[j], st.disk, d', if j in t then t[j] else File(1, []));
      }
    }
  }
}
