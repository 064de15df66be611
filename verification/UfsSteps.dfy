// What one round of each loop in Ufs.dfy does, told by the functions of FsModel.

module UfsSteps {
  import opened Bits
  import opened Bytes
  import opened Format
  import opened FsModel
  import opened FsUnlinkModel

  // The byte address of a block, in the 32-bit arithmetic of the code.
  function ByteAddr(p: U32): (a: U32)
    ensures a == Ptr(p) * BLOCK
  {
    p * BLOCK % 0x1_0000_0000
  }

  lemma SliceOfSlice(d: seq<Byte>, a: nat, n: nat, k: nat, c: nat)
    requires a + n <= |d| && k + c <= n
    ensures Slice(Slice(d, a, n), k, c) == Slice(d, a + k, c)
  {
    var bs := Slice(d, a, n);
    assert forall j :: 0 <= j < c ==> Slice(bs, k, c)[j] == bs[k + j] == d[a + k + j];
  }

  // Arrays filled from one read hold what is on the disk there.
  lemma WordsRead(d: seq<Byte>, a: nat, n: nat, bs: seq<Byte>, ws: seq<Word>)
    requires a + 4 * n <= |d| && bs == Slice(d, a, 4 * n) && |ws| == n
    requires forall k :: 0 <= k < n ==> ws[k] == WordOfBytes(Slice(bs, 4 * k, 4))
    ensures ws == WordsAt(d, a, n)
  {
    hide WordOfBytes;
    forall k | 0 <= k < n
      ensures ws[k] == WordsAt(d, a, n)[k]
    {
      SliceOfSlice(d, a, 4 * n, 4 * k, 4);
    }
  }

  lemma InodesRead(d: seq<Byte>, a: nat, n: nat, bs: seq<Byte>, r: seq<Inode>)
    requires a + INODE_SIZE * n <= |d| && bs == Slice(d, a, INODE_SIZE * n) && |r| == n
    requires forall k :: 0 <= k < n ==> r[k] == DecodeInode(Slice(bs, INODE_SIZE * k, INODE_SIZE))
    ensures r == InodesAt(d, a, n)
  {
    hide DecodeInode;
    forall k | 0 <= k < n
      ensures r[k] == InodesAt(d, a, n)[k]
    {
      SliceOfSlice(d, a, INODE_SIZE * n, INODE_SIZE * k, INODE_SIZE);
    }
  }

  // ---------- half-way through commit_dirty_to_disk ----------

  // The first n inodes are committed.
  function InodesDone(st: State, n: nat): (r: State)
    requires n <= st.s.numInodes
    ensures r.s == st.s && r.m == st.m && |r.disk| == |st.disk|
    ensures n < st.s.numInodes ==> Get(r.dirtyI, n) == Get(st.dirtyI, n)
  {
    st.(dirtyI := Cleared(st.dirtyI, n), disk := Apply(st.disk, InodeLog(st, n)))
  }

  // All inodes and the first n words of data bits are committed.
  function DataDone(st: State, n: nat): (r: State)
    requires n <= st.s.numData
    ensures r.s == st.s && r.m == st.m && |r.disk| == |st.disk|
    ensures n < st.s.numData ==> Get(r.dirtyD, n) == Get(st.dirtyD, n)
  {
    st.(dirtyD := Cleared(st.dirtyD, n), disk := Apply(st.disk, DataLog(st, n)))
  }

  lemma InodesStart(st: State)
    ensures InodesDone(st, 0) == st && InodeLog(st, 0) == []
  {
  }

  lemma DataStart(st: State)
    ensures DataDone(st, 0) == st && DataLog(st, 0) == []
  {
  }

  lemma InodeAddrs(st: State, n: nat)
    requires n < st.s.numInodes
    ensures 0 <= InodeWordAddr(st.s, n / 32) && InodeWordAddr(st.s, n / 32) + 4 <= |st.disk|
    ensures 0 <= InodeAddr(st.s, n) && InodeAddr(st.s, n) + INODE_SIZE <= |st.disk|
    ensures Inside(InodeLog(st, n), 0, |st.disk|)
  {
    hide InodeLog;
  }

  lemma InodeCommitted(st: State, n: nat)
    requires n < st.s.numInodes && Get(st.dirtyI, n)
    ensures InodeWordAddr(st.s, n / 32) >= 0 && InodeWordAddr(st.s, n / 32) + 4 <= |st.disk|
    ensures InodeAddr(st.s, n) >= 0 && InodeAddr(st.s, n) + INODE_SIZE <= |st.disk|
    ensures var st0 := InodesDone(st, n);
      var w1 := DiskWrite(InodeWordAddr(st.s, n / 32), WordBytes(st.m.ibm[n / 32]));
      var w2 := DiskWrite(InodeAddr(st.s, n), EncodeInode(st.m.inodes[n]));
      && PutDisk(PutDisk(st0.(dirtyI := Reset(st0.dirtyI, n)), w1), w2) == InodesDone(st, n + 1)
      && InodeLog(st, n + 1) == InodeLog(st, n) + [w1] + [w2]
  {
    hide WordBytes, EncodeInode, Splice, Layout;
    InodeAddrs(st, n);
    var w1 := DiskWrite(InodeWordAddr(st.s, n / 32), WordBytes(st.m.ibm[n / 32]));
    var w2 := DiskWrite(InodeAddr(st.s, n), EncodeInode(st.m.inodes[n]));
    ApplyOne(st.disk, InodeLog(st, n), w1);
    ApplyOne(st.disk, InodeLog(st, n) + [w1], w2);
  }

  lemma DataAddrs(st: State, n: nat)
    requires n < st.s.numData
    ensures 0 <= DataWordAddr(st.s, n / 32) && DataWordAddr(st.s, n / 32) + 4 <= |st.disk|
    ensures Inside(DataLog(st, n), 0, |st.disk|)
  {
    hide DataLog;
  }

  lemma DataCommitted(st: State, n: nat)
    requires n < st.s.numData && Get(st.dirtyD, n)
    ensures DataWordAddr(st.s, n / 32) >= 0 && DataWordAddr(st.s, n / 32) + 4 <= |st.disk|
    ensures var st0 := DataDone(st, n);
      var w := DiskWrite(DataWordAddr(st.s, n / 32), WordBytes(st.m.dbm[n / 32]));
      && PutDisk(st0.(dirtyD := Reset(st0.dirtyD, n)), w) == DataDone(st, n + 1)
      && DataLog(st, n + 1) == DataLog(st, n) + [w]
  {
    hide WordBytes, Splice, Layout;
    DataAddrs(st, n);
    ApplyOne(st.disk, DataLog(st, n), DiskWrite(DataWordAddr(st.s, n / 32), WordBytes(st.m.dbm[n / 32])));
  }

  lemma {:induction false} DataLogSame(st: State, st1: State, n: nat)
    requires st1.s == st.s && st1.m == st.m && st1.dirtyD == st.dirtyD && n <= st.s.numData
    ensures DataLog(st1, n) == DataLog(st, n)
    decreases n
  {
    if n > 0 {
      DataLogSame(st, st1, n - 1);
    }
  }

  // The two loops, one after the other.
  lemma CommitInTwo(st: State)
    ensures st.s.numInodes >= 0 && st.s.numData >= 0
    ensures DataDone(InodesDone(st, st.s.numInodes), st.s.numData) == Commit(st)
    ensures InodeLog(st, st.s.numInodes) + DataLog(InodesDone(st, st.s.numInodes), st.s.numData) == CommitLog(st)
  {
    hide InodeLog, DataLog, Cleared;
    DataLogSame(st, InodesDone(st, st.s.numInodes), st.s.numData);
    ApplyAppend(st.disk, InodeLog(st, st.s.numInodes), DataLog(st, st.s.numData));
  }

  // A clean bit is passed over.
  lemma NothingCommitted(st: State, n: nat)
    ensures n < st.s.numInodes && !Get(st.dirtyI, n) ==>
      InodesDone(st, n + 1) == InodesDone(st, n) && InodeLog(st, n + 1) == InodeLog(st, n)
    ensures n < st.s.numData && !Get(st.dirtyD, n) ==>
      DataDone(st, n + 1) == DataDone(st, n) && DataLog(st, n + 1) == DataLog(st, n)
  {
    if n < st.s.numInodes && !Get(st.dirtyI, n) {
      SameBits(Cleared(st.dirtyI, n + 1), Cleared(st.dirtyI, n));
    }
    if n < st.s.numData && !Get(st.dirtyD, n) {
      SameBits(Cleared(st.dirtyD, n + 1), Cleared(st.dirtyD, n));
    }
  }

  // ---------- lookups ----------

  lemma ReadableIff(d: seq<Byte>, p: U32)
    requires |d| % BLOCK == 0
    ensures Readable(d, p) <==> Ptr(p) * BLOCK < |d|
    ensures !Readable(d, p) ==> |d| <= Ptr(p) * BLOCK
  {
  }

  lemma ScanAt(d: seq<Byte>, ino: Inode, i: nat, j: nat, left: nat, name: Name)
    requires i < DIRECT_PTRS && j < ENTRIES && left > 0
    ensures Scan(d, ino, i * ENTRIES + j, left, name) ==
            if !Readable(d, ino.direct[i]) then Abort
            else if EntryIn(PtrBlock(d, ino.direct[i]), j).inum == -1 then Abort
            else if EntryIn(PtrBlock(d, ino.direct[i]), j).name == name then Ret(EntryIn(PtrBlock(d,
                ino.direct[i]), j).inum)
            else Scan(d, ino, i * ENTRIES + j + 1, left - 1, name)
    ensures EntriesRead(d, ino, i * ENTRIES + j, left, name) ==
            if !Readable(d, ino.direct[i]) then 0
            else if EntryIn(PtrBlock(d, ino.direct[i]), j).inum == -1 then 1
            else if EntryIn(PtrBlock(d, ino.direct[i]), j).name == name then 1
            else 1 + EntriesRead(d, ino, i * ENTRIES + j + 1, left - 1, name)
  {
    hide EntryIn, Readable;
    assert (i * ENTRIES + j) / ENTRIES == i && (i * ENTRIES + j) % ENTRIES == j;
  }

  lemma ScanEnds(d: seq<Byte>, ino: Inode, e: nat, left: nat, name: Name)
    requires e >= DIRECT_PTRS * ENTRIES || left == 0
    ensures Scan(d, ino, e, left, name) == Ret(-1) && EntriesRead(d, ino, e, left, name) == 0
  {
  }

  // A record read at its place in a block is the entry of that slot.
  lemma SlotRead(d: seq<Byte>, p: U32, j: nat, bs: seq<Byte>)
    requires Readable(d, p) && j < ENTRIES && |bs| == ENTRY_SIZE
    requires Ptr(p) * BLOCK + ENTRY_SIZE * j + ENTRY_SIZE <= |d|
             && bs == Slice(d, Ptr(p) * BLOCK + ENTRY_SIZE * j, ENTRY_SIZE)
    ensures DecodeEntry(bs) == EntryIn(PtrBlock(d, p), j)
  {
    hide DecodeEntry;
    forall k | 0 <= k < ENTRY_SIZE
      ensures SlotBytes(PtrBlock(d, p), j)[k] == bs[k]
    {
      assert PtrBlock(d, p)[ENTRY_SIZE * j + k] == d[Ptr(p) * BLOCK + (ENTRY_SIZE * j + k)];
    }
    assert SlotBytes(PtrBlock(d, p), j) == bs;
  }

  // ---------- writing ----------

  // The writes of a loop that has already made those of done.
  function After(done: seq<DiskWrite>, r: Step): Step {
    Step(r.out, r.st, done + r.pre)
  }

  lemma AfterNothing(r: Step)
    ensures After([], r) == r
  {
    assert [] + r.pre == r.pre;
  }

  lemma WriteEnds(st: State, i: I32, k: nat, off: nat, data: seq<Byte>, done: seq<DiskWrite>)
    requires InRange(st, i) && off < BLOCK && (k >= DIRECT_PTRS || data == [])
    ensures After(done, WriteFrom(st, i, k, off, data)) == Step(Ret(0), st, done)
  {
    assert done + [] == done;
  }

  lemma WriteFails(st: State, i: I32, k: nat, off: nat, data: seq<Byte>, done: seq<DiskWrite>)
    requires InRange(st, i) && off < BLOCK && k < DIRECT_PTRS && data != []
    requires RoundPtr(st, i, k) == NONE || !Readable(st.disk, RoundPtr(st, i, k))
    ensures After(done, WriteFrom(st, i, k, off, data)) ==
            if RoundPtr(st, i, k) == NONE then Step(Ret(-1), st, done) else Step(Abort, Attach(st, i, k), done)
  {
    assert done + [] == done;
  }

  lemma WriteGoesOn(st: State, i: I32, k: nat, off: nat, data: seq<Byte>, done: seq<DiskWrite>)
    requires InRange(st, i) && off < BLOCK && k < DIRECT_PTRS && data != []
    requires RoundPtr(st, i, k) != NONE && Readable(st.disk, RoundPtr(st, i, k))
    ensures var n := Chunk(data, off);
      After(done, WriteFrom(st, i, k, off, data))
      == After(done + [RoundWrite(st, i, k, off, data[..n])],
               WriteFrom(Round(st, i, k, off, data[..n]), i, k + 1, 0, data[n..]))
  {
    var n := Chunk(data, off);
    var w := RoundWrite(st, i, k, off, data[..n]);
    var rest := WriteFrom(Round(st, i, k, off, data[..n]), i, k + 1, 0, data[n..]);
    assert done + ([w] + rest.pre) == done + [w] + rest.pre;
  }

  // ---------- reading ----------

  function Got(done: seq<Byte>, r: ReadResult): ReadResult {
    ReadResult(r.out, done + r.data)
  }

  lemma ReadEnds(d: seq<Byte>, ps: seq<U32>, k: nat, off: nat, n: nat, done: seq<Byte>)
    requires |ps| == DIRECT_PTRS && off < BLOCK
    requires k >= DIRECT_PTRS || n == 0 || !Readable(d, ps[k])
    ensures Got(done, ReadFrom(d, ps, k, off, n)) ==
            ReadResult(if k >= DIRECT_PTRS || n == 0 then Ret(0) else Abort, done)
  {
    assert done + [] == done;
  }

  lemma ReadGoesOn(d: seq<Byte>, ps: seq<U32>, k: nat, off: nat, n: nat, done: seq<Byte>, c: nat)
    requires |ps| == DIRECT_PTRS && off < BLOCK && k < DIRECT_PTRS && n > 0 && Readable(d, ps[k])
    requires c == if n > BLOCK - off then BLOCK - off else n
    ensures Ptr(ps[k]) * BLOCK + off + c <= |d|
    ensures Got(done, ReadFrom(d, ps, k, off, n))
            == Got(done + Slice(d, Ptr(ps[k]) * BLOCK + off, c), ReadFrom(d, ps, k + 1, 0, n - c))
  {
    var a := Ptr(ps[k]) * BLOCK + off;
    var part := PtrBlock(d, ps[k])[off..off + c];
    assert part == Slice(d, a, c) by {
      assert forall j :: 0 <= j < c ==> part[j] == PtrBlock(d, ps[k])[off + j] == d[a + j];
    }
    assert done + (part + ReadFrom(d, ps, k + 1, 0, n - c).data) == done + part + ReadFrom(d, ps, k + 1, 0, n - c).data;
  }

  lemma GotNothing(r: ReadResult)
    ensures Got([], r) == r
  {
    assert [] + r.data == r.data;
  }

  // A part of a block can be read exactly when the block can.
  lemma UnreadableAt(d: seq<Byte>, p: U32, off: nat, n: nat)
    requires |d| % BLOCK == 0 && off + n <= BLOCK && n > 0
    ensures Readable(d, p) <==> Ptr(p) * BLOCK + off + n <= |d|
  {
    ReadableIff(d, p);
  }

  lemma JoinAt(bs: seq<Byte>, n: nat)
    requires n <= |bs|
    ensures bs == bs[..n] + bs[n..]
  {
  }

  // ---------- creating ----------

  lemma FullScanAt(d: seq<Byte>, ps: seq<U32>, k: nat)
    requires |ps| == DIRECT_PTRS && k < DIRECT_PTRS
    ensures FullScan(d, ps, k) ==
            if ps[k] == NONE then FullScan(d, ps, k + 1)
            else if !Readable(d, ps[k]) then Abort
            else if FirstHole(PtrBlock(d, ps[k]), 0) < ENTRIES then Ret(0)
            else FullScan(d, ps, k + 1)
  {
  }

  lemma FullScanEnds(d: seq<Byte>, ps: seq<U32>)
    requires |ps| == DIRECT_PTRS
    ensures FullScan(d, ps, DIRECT_PTRS) == Ret(1)
  {
  }

  lemma FindSlotAt(d: seq<Byte>, ps: seq<U32>, k: nat)
    requires |ps| == DIRECT_PTRS && k < DIRECT_PTRS
    ensures FindSlot(d, ps, k) ==
            if !Readable(d, ps[k]) then BadSlot
            else if FirstHole(PtrBlock(d, ps[k]), 0) < ENTRIES then Found(k, FirstHole(PtrBlock(d, ps[k]), 0))
            else FindSlot(d, ps, k + 1)
  {
  }

  lemma FindSlotEnds(d: seq<Byte>, ps: seq<U32>)
    requires |ps| == DIRECT_PTRS
    ensures FindSlot(d, ps, DIRECT_PTRS) == NoSlot
  {
  }

  lemma NewBlockReturns(st: State, p: I32, ent: DirEnt, b: nat, junk: Junk)
    requires InRange(st, p) && b < st.s.numData && JunkOK(junk) && |ent.name| < NAME_SIZE
    ensures LinkInNewBlock(st, p, ent, b, junk).out == Ret(0)
  {
  }

  lemma SlotsBeside(blk: seq<Byte>, j: nat, bs: seq<Byte>)
    requires |blk| == BLOCK && j < ENTRIES && |bs| == ENTRY_SIZE
    ensures forall i :: 0 <= i < ENTRIES ==>
      SlotBytes(Splice(blk, ENTRY_SIZE * j, bs), i) == if i == j then bs else SlotBytes(blk, i)
  {
    var r := Splice(blk, ENTRY_SIZE * j, bs);
    assert SlotBytes(r, j) == bs;
    forall i | 0 <= i < ENTRIES && i != j
      ensures SlotBytes(r, i) == SlotBytes(blk, i)
    {
      assert i < j || j + 1 <= i;
    }
  }

  lemma SlotsMakeBlock(es: seq<DirEnt>, junk: seq<Byte>, blk: seq<Byte>)
    requires |junk| == BLOCK && |blk| == BLOCK && forall e :: e in es ==> |e.name| < NAME_SIZE
    requires forall i :: 0 <= i < ENTRIES ==> SlotBytes(blk, i) == DirSlot(es, junk, i)
    ensures blk == DirBlock(es, junk)
  {
    hide DirSlot;
    forall k | 0 <= k < BLOCK
      ensures blk[k] == DirBlock(es, junk)[k]
    {
      assert SlotBytes(blk, k / ENTRY_SIZE)[k % ENTRY_SIZE] == blk[k];
    }
  }

  lemma {:induction false} ScanDefined(d: seq<Byte>, ino: Inode, e: nat, left: nat, name: Name)
    ensures Scan(d, ino, e, left, name) != Undefined
    decreases left
  {
    hide EntryIn;
    if left > 0 {
      ScanDefined(d, ino, e + 1, left - 1, name);
    }
  }

  lemma LookupEnds(st: State, p: I32, name: Name)
    ensures Lookup(st, p, name) != Undefined
  {
    if Allocated(st, p) {
      var ino := st.m.inodes[p];
      ScanDefined(st.disk, ino, 0, Unsigned(ino.size) / ENTRY_SIZE, name);
    }
  }

  // ---------- unlinking ----------

  lemma FindNameStep(d: seq<Byte>, ps: seq<U32>, name: Name, k: nat)
    requires |ps| == DIRECT_PTRS && k < DIRECT_PTRS
    ensures FindName(d, ps, name, k) ==
            if ps[k] == NONE then FindName(d, ps, name, k + 1)
            else if !Readable(d, ps[k]) then BadBlock
            else if LastNamed(PtrBlock(d, ps[k]), name, 0) == -1 then FindName(d, ps, name, k + 1)
            else Spot(k, LastNamed(PtrBlock(d, ps[k]), name, 0), LiveCount(PtrBlock(d, ps[k]), 0))
  {
  }

  lemma FindNameEnds(d: seq<Byte>, ps: seq<U32>, name: Name)
    requires |ps| == DIRECT_PTRS
    ensures FindName(d, ps, name, DIRECT_PTRS) == NoSpot
  {
  }

  lemma CountStep(blk: seq<Byte>, name: Name, j: nat)
    requires |blk| == BLOCK && j < ENTRIES
    ensures LiveCount(blk, j) == (if EntryIn(blk, j).inum == -1 then 0 else 1) + LiveCount(blk, j + 1)
    ensures LastNamed(blk, name, j) ==
            if LastNamed(blk, name, j + 1) != -1 then LastNamed(blk, name, j + 1)
            else if EntryIn(blk, j).inum != -1 && EntryIn(blk, j).name == name then j else -1
  {
    hide EntryIn;
  }

  lemma CountEnds(blk: seq<Byte>, name: Name)
    requires |blk| == BLOCK
    ensures LiveCount(blk, ENTRIES) == 0 && LastNamed(blk, name, ENTRIES) == -1
  {
  }
}
