// The file system as it runs: a structure of arrays updated in place, over the disk.  Each method is proved to
// do what the function of the same name in FsModel says.

module FileSystem {
  import opened Bits
  import opened Bytes
  import opened Format
  import opened FsModel
  import opened DiskDriver
  import opened FsUnlinkModel
  import opened UfsSteps

  // One read of a bitmap into memory.
  method LoadWords(disk: Disk, addr: U32, n: nat) returns (ws: array<Word>)
    requires disk.Valid() && addr + 4 * n <= disk.data.Length
    modifies disk`pos
    ensures disk.Valid() && fresh(ws) && ws[..] == WordsAt(disk.data[..], addr, n)
  {
    hide WordOfBytes;
    var rc := disk.Lseek(addr);
    var bs := disk.Read(4 * n);
    ws := new Word[n](k requires 0 <= k < n && |bs| == 4 * n => WordOfBytes(Slice(bs, 4 * k, 4)));
    WordsRead(disk.data[..], addr, n, bs, ws[..]);
  }

  method LoadInodes(disk: Disk, addr: U32, n: nat) returns (r: array<Inode>)
    requires disk.Valid() && addr + INODE_SIZE * n <= disk.data.Length
    modifies disk`pos
    ensures disk.Valid() && fresh(r) && r[..] == InodesAt(disk.data[..], addr, n)
  {
    hide DecodeInode;
    var rc := disk.Lseek(addr);
    var bs := disk.Read(INODE_SIZE * n);
    r := new Inode[n](k requires 0 <= k < n && |bs| == INODE_SIZE * n => DecodeInode(Slice(bs, INODE_SIZE * k,
        INODE_SIZE)));
    InodesRead(disk.data[..], addr, n, bs, r[..]);
  }

  // The last live slot of that name in a block, and how many live slots there are.
  method CountEntries(blk: seq<Byte>, name: Name) returns (entryIdx: int, cnt: nat)
    requires |blk| == BLOCK
    ensures entryIdx == LastNamed(blk, name, 0) && cnt == LiveCount(blk, 0)
  {
    hide EntryIn;
    entryIdx, cnt := -1, 0;
    for j := 0 to ENTRIES
      invariant cnt + LiveCount(blk, j) == LiveCount(blk, 0)
      invariant LastNamed(blk, name, 0) == if LastNamed(blk, name, j) != -1 then LastNamed(blk, name, j) else entryIdx
    {
      CountStep(blk, name, j);
      if EntryIn(blk, j).inum != -1 {
        cnt := cnt + 1;
        if EntryIn(blk, j).name == name {
          entryIdx := j;
        }
      }
    }
    CountEnds(blk, name);
  }

  // The first unused slot of a block, or 128.
  method EmptySlot(blk: seq<Byte>) returns (j: nat)
    requires |blk| == BLOCK
    ensures j == FirstHole(blk, 0)
  {
    j := 0;
    while j < ENTRIES && EntryIn(blk, j).inum != -1
      invariant j <= ENTRIES && FirstHole(blk, j) == FirstHole(blk, 0)
    {
      j := j + 1;
    }
  }

  // The first empty pointer, or 30.
  method EmptyPtr(ps: seq<U32>) returns (k: nat)
    requires |ps| == DIRECT_PTRS
    ensures k == FirstNone(ps, 0)
  {
    k := 0;
    while k < DIRECT_PTRS && ps[k] != NONE
      invariant k <= DIRECT_PTRS && FirstNone(ps, k) == FirstNone(ps, 0)
    {
      k := k + 1;
    }
  }

  // A directory block on the stack: its first entries, and -1 as the inode number of the others.
  method FillDirBlock(es: seq<DirEnt>, junk: seq<Byte>) returns (blk: seq<Byte>)
    requires |junk| == BLOCK && |es| <= ENTRIES && forall e :: e in es ==> |e.name| < NAME_SIZE
    ensures blk == DirBlock(es, junk)
  {
    hide EncodeEntry, EncodeUnused;
    blk := junk;
    for j := 0 to ENTRIES
      invariant |blk| == BLOCK
      invariant forall i :: 0 <= i < ENTRIES ==>
        SlotBytes(blk, i) == if i < j then DirSlot(es, junk, i) else SlotBytes(junk, i)
    {
      SlotsBeside(blk, j, DirSlot(es, junk, j));
      blk := Splice(blk, ENTRY_SIZE * j, DirSlot(es, junk, j));
    }
    SlotsMakeBlock(es, junk, blk);
  }

  // Bytes arriving in the caller's buffer.
  method CopyInto(buffer: array<Byte>, at: nat, bs: seq<Byte>)
    requires at + |bs| <= buffer.Length
    modifies buffer
    ensures buffer[..at + |bs|] == old(buffer[..at]) + bs
    ensures buffer[at + |bs|..] == old(buffer[at + |bs|..])
  {
    for k := 0 to |bs|
      invariant forall j :: 0 <= j < buffer.Length ==>
        buffer[j] == if at <= j < at + k then bs[j - at] else old(buffer[j])
    {
      buffer[at + k] := bs[k];
    }
  }

  class Ufs {
    const disk: Disk
    const s: Super
    const inodeBp: array<Word>
    const dataBp: array<Word>
    const inodes: array<Inode>
    const dirtyInodeBp: array<Word>
    const dirtyDataBp: array<Word>

    ghost predicate Valid()
      reads disk, disk.data, inodeBp, dataBp, inodes, dirtyInodeBp, dirtyDataBp
    {
      && disk.Valid()
      && inodeBp != dataBp && inodeBp != dirtyInodeBp && inodeBp != dirtyDataBp
      && dataBp != dirtyInodeBp && dataBp != dirtyDataBp && dirtyInodeBp != dirtyDataBp
      && FsModel.Valid(State(s, Meta(inodeBp[..], dataBp[..], inodes[..]), dirtyInodeBp[..], dirtyDataBp[..],
          disk.data[..]))
    }

    ghost function View(): State
      requires Valid()
      reads disk, disk.data, inodeBp, dataBp, inodes, dirtyInodeBp, dirtyDataBp
    {
      State(s, Meta(inodeBp[..], dataBp[..], inodes[..]), dirtyInodeBp[..], dirtyDataBp[..], disk.data[..])
    }

    // ufs_init: the superblock at the start of the disk, then the two bitmaps and the inode table.  The dirty
    // bitmaps are left as they come.
    constructor (disk: Disk)
      requires disk.Valid() && disk.pos == 0 && SUPER_SIZE <= disk.data.Length
      requires Layout(DecodeSuper(disk.data[..SUPER_SIZE]), disk.data.Length)
      modifies disk`pos
      ensures this.disk == disk && s == DecodeSuper(disk.data[..SUPER_SIZE])
      ensures fresh(inodeBp) && fresh(dataBp) && fresh(inodes) && fresh(dirtyInodeBp) && fresh(dirtyDataBp)
      ensures Valid() && View().disk == disk.data[..] && View().m == Load(s, disk.data[..])
    {
      hide WordOfBytes, DecodeInode, FieldAt, WordsAt, InodesAt;
      var bs := disk.Read(SUPER_SIZE);
      var sup := DecodeSuper(bs);
      var ibp := LoadWords(disk, sup.inodeBitmapAddr * BLOCK, BitmapWords(sup.numInodes));
      var dbp := LoadWords(disk, sup.dataBitmapAddr * BLOCK, BitmapWords(sup.numData));
      var table := LoadInodes(disk, sup.inodeRegionAddr * BLOCK, sup.numInodes);
      this.disk, s := disk, sup;
      inodeBp, dataBp, inodes := ibp, dbp, table;
      dirtyInodeBp, dirtyDataBp := new Word[BitmapWords(sup.numInodes)], new Word[BitmapWords(sup.numData)];
    }

    // ---------- reading and writing at an address ----------

    method ReadAt(addr: U32, count: nat) returns (rc: I32, bs: seq<Byte>)
      requires Valid()
      modifies disk`pos
      ensures Valid() && View() == old(View())
      ensures rc == if addr + count <= disk.data.Length then 0 else -1
      ensures rc == 0 ==> bs == Slice(View().disk, addr, count)
    {
      var at := disk.Lseek(addr);
      if at == -1 {
        return -1, [];
      }
      bs := disk.Read(count);
      rc := if |bs| == count then 0 else -1;
    }

    // What does not fit on the disk is cut off, and the caller told.
    method WriteAt(addr: U32, bs: seq<Byte>) returns (rc: I32)
      requires Valid()
      modifies disk, disk.data
      ensures Valid() && rc == if addr + |bs| <= disk.data.Length then 0 else -1
      ensures rc == 0 && bs != [] ==>
        View() == PutDisk(old(View()), DiskWrite(addr, bs)) && disk.log == old(disk.log) + [DiskWrite(addr, bs)]
      ensures disk.data.Length <= addr || bs == [] ==> View() == old(View()) && disk.log == old(disk.log)
      ensures addr < disk.data.Length < addr + |bs| ==>
        var w := DiskWrite(addr, bs[..disk.data.Length - addr]);
        View() == PutDisk(old(View()), w) && disk.log == old(disk.log) + [w]
    {
      var at := disk.Lseek(addr);
      if at == -1 {
        return -1;
      }
      var n := disk.Write(bs);
      rc := if n == |bs| then 0 else -1;
      assert bs[..|bs|] == bs;
      assert n == 0 ==> Splice(old(disk.data[..]), addr, []) == old(disk.data[..]);
    }

    // ---------- updates of one part ----------

    method MarkInode(i: I32)
      requires Valid() && InRange(View(), i)
      modifies dirtyInodeBp
      ensures Valid() && View() == FsModel.MarkInode(old(View()), i)
    {
      SetBitmap(dirtyInodeBp, i);
    }

    method PutInode(i: I32, ino: Inode)
      requires Valid() && InRange(View(), i)
      modifies inodes
      ensures Valid() && View() == FsModel.PutInode(old(View()), i, ino)
    {
      inodes[i] := ino;
    }

    method TakeBlock(b: nat)
      requires Valid() && b < s.numData
      modifies dataBp, dirtyDataBp
      ensures Valid() && View() == FsModel.TakeBlock(old(View()), b)
    {
      SetBitmap(dataBp, b);
      SetBitmap(dirtyDataBp, b);
    }

    // ---------- commit_dirty_to_disk ----------

    // One round of the first loop of commit_dirty_to_disk.
    method CommitInode(i: nat) returns (rc: I32)
      requires Valid() && i < s.numInodes
      requires 0 <= InodeWordAddr(s, i / 32) && InodeWordAddr(s, i / 32) + 4 <= disk.data.Length
      requires 0 <= InodeAddr(s, i) && InodeAddr(s, i) + INODE_SIZE <= disk.data.Length
      modifies disk, disk.data, dirtyInodeBp
      ensures Valid() && rc == 0
      ensures var st := old(View());
        var w1 := DiskWrite(InodeWordAddr(s, i / 32), WordBytes(st.m.ibm[i / 32]));
        var w2 := DiskWrite(InodeAddr(s, i), EncodeInode(st.m.inodes[i]));
        && View() == PutDisk(PutDisk(st.(dirtyI := Reset(st.dirtyI, i)), w1), w2)
        && disk.log == old(disk.log) + [w1] + [w2]
    {
      hide WordBytes, EncodeInode, Splice;
      ResetBitmap(dirtyInodeBp, i);
      var idx := i / 32;
      rc := WriteAt(s.inodeBitmapAddr * BLOCK + 4 * idx, WordBytes(inodeBp[idx]));
      if rc == -1 {
        return;
      }
      rc := WriteAt(s.inodeRegionAddr * BLOCK + INODE_SIZE * i, EncodeInode(inodes[i]));
    }

    // The first loop.
    method CommitInodes() returns (rc: I32)
      requires Valid()
      modifies disk, disk.data, dirtyInodeBp
      ensures Valid() && rc == 0 && View() == InodesDone(old(View()), s.numInodes)
      ensures disk.log == old(disk.log) + InodeLog(old(View()), s.numInodes)
    {
      hide InodesDone, InodeLog, WordBytes, EncodeInode, Splice, Cleared;
      ghost var st, log0 := View(), disk.log;
      InodesStart(st);
      for i := 0 to s.numInodes
        invariant Valid() && View() == InodesDone(st, i) && disk.log == log0 + InodeLog(st, i)
      {
        NothingCommitted(st, i);
        if GetBitmap(dirtyInodeBp, i) {
          InodeCommitted(st, i);
          rc := CommitInode(i);
          if rc == -1 {
            return;
          }
        }
      }
      rc := 0;
    }

    // The second loop.
    method CommitData() returns (rc: I32)
      requires Valid()
      modifies disk, disk.data, dirtyDataBp
      ensures Valid() && rc == 0 && View() == DataDone(old(View()), s.numData)
      ensures disk.log == old(disk.log) + DataLog(old(View()), s.numData)
    {
      hide DataDone, DataLog, WordBytes, Splice, Cleared;
      ghost var st, log0 := View(), disk.log;
      DataStart(st);
      for i := 0 to s.numData
        invariant Valid() && View() == DataDone(st, i) && disk.log == log0 + DataLog(st, i)
      {
        NothingCommitted(st, i);
        if GetBitmap(dirtyDataBp, i) {
          DataCommitted(st, i);
          ResetBitmap(dirtyDataBp, i);
          var idx := i / 32;
          rc := WriteAt(s.dataBitmapAddr * BLOCK + 4 * idx, WordBytes(dataBp[idx]));
          if rc == -1 {
            return;
          }
        }
      }
      rc := 0;
    }

    method CommitDirtyToDisk() returns (rc: I32)
      requires Valid()
      modifies disk, disk.data, dirtyInodeBp, dirtyDataBp
      ensures Valid() && rc == 0
      ensures View() == Commit(old(View()))
      ensures disk.log == old(disk.log) + CommitLog(old(View()))
    {
      hide InodesDone, DataDone, InodeLog, DataLog, CommitLog, Commit;
      CommitInTwo(View());
      rc := CommitInodes();
      if rc == -1 {
        return;
      }
      rc := CommitData();
    }

    // ---------- ufs_lookup ----------

    // Reads the entry at the disk's position, slot j of block p.
    method NextEntry(p: U32, j: nat) returns (ok: bool, dirEnt: DirEnt)
      requires Valid() && j < ENTRIES && disk.pos == ByteAddr(p) + ENTRY_SIZE * j
      modifies disk`pos
      ensures Valid() && View() == old(View())
      ensures ok == Readable(View().disk, p)
      ensures ok ==> dirEnt == EntryIn(PtrBlock(View().disk, p), j) && disk.pos == old(disk.pos) + ENTRY_SIZE
    {
      hide EntryIn, DecodeEntry, PtrBlock;
      ReadableIff(View().disk, p);
      var bs := disk.Read(ENTRY_SIZE);
      if |bs| != ENTRY_SIZE {
        return false, DirEnt([], -1);
      }
      SlotRead(View().disk, p, j, bs);
      return true, DecodeEntry(bs);
    }

    // One block, from its first entry on.
    method LookupBlock(inode: Inode, i: nat, cnt: nat, name: Name)
      returns (more: bool, out: Outcome, dirEntCnt: nat, ghost seen: nat)
      requires Valid() && i < DIRECT_PTRS && cnt > 0
      modifies disk`pos
      ensures Valid() && View() == old(View())
      ensures !more ==> out == Scan(old(View()).disk, inode, i * ENTRIES, cnt, name)
      ensures more ==> Scan(old(View()).disk, inode, i * ENTRIES, cnt, name)
                       == Scan(old(View()).disk, inode, (i + 1) * ENTRIES, dirEntCnt, name)
      ensures EntriesRead(old(View()).disk, inode, i * ENTRIES, cnt, name)
              == seen + if more then EntriesRead(old(View()).disk, inode, (i + 1) * ENTRIES, dirEntCnt, name) else 0
    {
      hide Scan, EntriesRead, EntryIn, Readable, PtrBlock, DecodeEntry;
      ghost var d := View().disk;
      var p := inode.direct[i];
      dirEntCnt, seen := cnt, 0;
      ReadableIff(d, p);
      ScanAt(d, inode, i, 0, cnt, name);
      var rc := disk.Lseek(ByteAddr(p));
      if rc == -1 {
        return false, Abort, 0, 0;
      }
      var j := 0;
      while j < ENTRIES && dirEntCnt > 0
        invariant Valid() && View() == old(View()) && j <= ENTRIES
        invariant disk.pos == ByteAddr(p) + ENTRY_SIZE * j
        invariant Scan(d, inode, i * ENTRIES + j, dirEntCnt, name) == Scan(d, inode, i * ENTRIES, cnt, name)
        invariant seen + EntriesRead(d, inode, i * ENTRIES + j, dirEntCnt, name)
                  == EntriesRead(d, inode, i * ENTRIES, cnt, name)
      {
        ScanAt(d, inode, i, j, dirEntCnt, name);
        var ok, dirEnt := NextEntry(p, j);
        seen := if ok then seen + 1 else seen;
        if !ok || dirEnt.inum == -1 {
          return false, Abort, 0, seen;
        }
        if dirEnt.name == name {
          return false, Ret(dirEnt.inum), 0, seen;
        }
        dirEntCnt := dirEntCnt - 1;
        j := j + 1;
      }
      more, out := true, Ret(-1);
      if dirEntCnt == 0 {
        ScanEnds(d, inode, i * ENTRIES + j, 0, name);
        ScanEnds(d, inode, (i + 1) * ENTRIES, 0, name);
      }
    }

    // The outer loop of ufs_lookup, and how many entries it seen.
    method LookupIn(inode: Inode, cnt: nat, name: Name) returns (out: Outcome, ghost seen: nat)
      requires Valid()
      modifies disk`pos
      ensures Valid() && View() == old(View())
      ensures out == Scan(old(View()).disk, inode, 0, cnt, name)
      ensures seen == EntriesRead(old(View()).disk, inode, 0, cnt, name)
    {
      hide Scan, EntriesRead, EntryIn, Readable;
      var dirEntCnt, i := cnt, 0;
      seen := 0;
      ghost var d := View().disk;
      while i < DIRECT_PTRS && dirEntCnt > 0
        invariant Valid() && View() == old(View()) && i <= DIRECT_PTRS
        invariant Scan(d, inode, i * ENTRIES, dirEntCnt, name) == Scan(d, inode, 0, cnt, name)
        invariant seen + EntriesRead(d, inode, i * ENTRIES, dirEntCnt, name) == EntriesRead(d, inode, 0, cnt, name)
      {
        var more: bool;
        ghost var inBlock: nat;
        more, out, dirEntCnt, inBlock := LookupBlock(inode, i, dirEntCnt, name);
        seen := seen + inBlock;
        if !more {
          return;
        }
        i := i + 1;
      }
      ScanEnds(d, inode, i * ENTRIES, dirEntCnt, name);
      out := Ret(-1);
    }

    method Lookup(pinum: I32, name: Name) returns (out: Outcome)
      requires Valid()
      modifies disk`pos
      ensures Valid() && View() == old(View())
      ensures out == FsModel.Lookup(old(View()), pinum, name)
    {
      hide Scan, EntryIn, Layout;
      if pinum < 0 || pinum >= s.numInodes {
        return Ret(-2);
      }
      if !GetBitmap(inodeBp, pinum) {
        return Ret(-3);
      }
      var inode := inodes[pinum];
      if inode.kind != DIRECTORY {
        return Ret(-4);
      }
      var dirEntCnt := Unsigned(inode.size) / ENTRY_SIZE;
      if Unsigned(inode.size) % ENTRY_SIZE != 0 {
        return Abort;
      }
      ghost var seen;
      out, seen := LookupIn(inode, dirEntCnt, name);
    }

    // ---------- ufs_write ----------

    // The search for a free bit, as creat and write make it.
    method FirstFree(bp: array<Word>, n: nat) returns (r: int)
      requires n <= WORD_BITS * bp.Length
      ensures r == FirstClear(bp[..], 0, n)
    {
      var i := 0;
      while i < n && GetBitmap(bp, i)
        invariant i <= n && FirstClear(bp[..], i, n) == FirstClear(bp[..], 0, n)
      {
        i := i + 1;
      }
      r := if i < n then i else -1;
    }

    method AttachBlock(inum: I32, k: nat) returns (ok: bool)
      requires Valid() && InRange(View(), inum) && k < DIRECT_PTRS
      modifies inodes, dataBp, dirtyDataBp
      ensures Valid() && View() == Attach(old(View()), inum, k)
      ensures ok == (RoundPtr(old(View()), inum, k) != NONE)
    {
      hide FirstClear;
      if inodes[inum].direct[k] == NONE {
        var b := FirstFree(dataBp, s.numData);
        if b == -1 {
          return false;
        }
        DataAddrInside(View(), b);
        TakeBlock(b);
        PutInode(inum, inodes[inum].(direct := inodes[inum].direct[k := DataAddr(s, b)]));
      }
      ok := true;
    }

    // One round of that loop.
    method WriteRound(inum: I32, i: nat, off: nat, rest: seq<Byte>, ghost done: seq<DiskWrite>)
      returns (out: Outcome, sz: nat, ghost ws: seq<DiskWrite>)
      requires Valid() && InRange(View(), inum) && i < DIRECT_PTRS && off < BLOCK && rest != []
      modifies disk, disk.data, inodes, dataBp, dirtyDataBp
      ensures Valid() && sz <= |rest| && disk.log == old(disk.log) + ws
      ensures After(done, WriteFrom(old(View()), inum, i, off, rest)) ==
              if out != Ret(0) then Step(out, View(), done + ws)
              else After(done + ws, WriteFrom(View(), inum, i + 1, 0, rest[sz..]))
    {
      hide WriteFrom;
      sz, ws := 0, [];
      ghost var st := View();
      var ok := AttachBlock(inum, i);
      var p := inodes[inum].direct[i];
      if !ok {
        WriteFails(st, inum, i, off, rest, done);
        return Ret(-1), 0, [];
      }
      sz := Chunk(rest, off);
      ReadableIff(st.disk, p);
      var rc := WriteAt(ByteAddr(p) + off, rest[..sz]);
      if rc == -1 {
        WriteFails(st, inum, i, off, rest, done);
        return Abort, 0, [];
      }
      ws := [RoundWrite(st, inum, i, off, rest[..sz])];
      PutInode(inum, Grow(inodes[inum], sz));
      WriteGoesOn(st, inum, i, off, rest, done);
      out := Ret(0);
    }

    // The loop of ufs_write.
    method WriteBlocks(inum: I32, data: seq<Byte>, strt: nat, offset: nat) returns (out: Outcome)
      requires Valid() && InRange(View(), inum) && offset < BLOCK
      modifies disk, disk.data, inodes, dataBp, dirtyDataBp
      ensures Valid()
      ensures var r := WriteFrom(old(View()), inum, strt, offset, data);
        out == r.out && View() == r.st && disk.log == old(disk.log) + r.pre
    {
      hide WriteFrom, After;
      var cur: nat, i: nat, off: nat := 0, strt, offset;
      ghost var st, log0 := View(), disk.log;
      ghost var done: seq<DiskWrite> := [];
      AfterNothing(WriteFrom(st, inum, strt, offset, data));
      assert data[0..] == data && log0 + [] == log0;
      while i < DIRECT_PTRS && cur < |data|
        invariant Valid() && cur <= |data| && off < BLOCK && disk.log == log0 + done
        invariant WriteFrom(st, inum, strt, offset, data) == After(done, WriteFrom(View(), inum, i, off, data[cur..]))
      {
        var sz: nat;
        ghost var ws: seq<DiskWrite>;
        out, sz, ws := WriteRound(inum, i, off, data[cur..], done);
        if out != Ret(0) {
          return;
        }
        assert data[cur..][sz..] == data[cur + sz..];
        assert log0 + done + ws == log0 + (done + ws);
        done := done + ws;
        cur, i, off := cur + sz, i + 1, 0;
      }
      assert i >= DIRECT_PTRS || data[cur..] == [];
      WriteEnds(View(), inum, i, off, data[cur..], done);
      out := Ret(0);
    }

    method Write(inum: I32, buf: seq<Byte>, offset: I32, nbytes: I32) returns (out: Outcome)
      requires Valid() && nbytes <= |buf|
      modifies disk, disk.data, inodes, dataBp, dirtyInodeBp, dirtyDataBp
      ensures Valid()
      ensures var r := FsModel.Write(old(View()), inum, buf, offset, nbytes);
        out == r.out && View() == Finish(r) && disk.log == old(disk.log) + FullLog(r)
    {
      hide WriteFrom, Commit, CommitLog, FsModel.MarkInode;
      if inum < 0 || inum >= s.numInodes || !GetBitmap(inodeBp, inum) {
        return Ret(-1);
      }
      if nbytes > 4096 || offset > inodes[inum].size || inodes[inum].kind != REGULAR_FILE || offset < 0 || nbytes <= 0 {
        return Ret(-1);
      }
      MarkInode(inum);
      out := WriteBlocks(inum, buf[..nbytes], offset / BLOCK, offset % BLOCK);
      if out == Ret(0) {
        var rc := CommitDirtyToDisk();
      }
    }

    // ---------- ufs_read ----------

    // One read of that loop, into the buffer from a position on.
    method ReadInto(addr: U32, count: nat, buffer: array<Byte>, at: nat) returns (rc: I32)
      requires Valid() && at + count <= buffer.Length && buffer != disk.data
      modifies disk`pos, buffer
      ensures Valid() && View() == old(View())
      ensures rc == if addr + count <= disk.data.Length then 0 else -1
      ensures rc == 0 ==> buffer[..at + count] == old(buffer[..at]) + Slice(View().disk, addr, count)
      ensures rc == 0 ==> buffer[at + count..] == old(buffer[at + count..])
      ensures rc == -1 ==> buffer[..] == old(buffer[..])
    {
      hide Layout, Slice;
      var bs;
      rc, bs := ReadAt(addr, count);
      if rc == 0 {
        CopyInto(buffer, at, bs);
      }
    }

    // The loop of ufs_read.
    method ReadBlocks(ps: seq<U32>, buffer: array<Byte>, strt: nat, offset: nat, n: nat) returns (out: Outcome)
      requires Valid() && |ps| == DIRECT_PTRS && offset < BLOCK && n <= buffer.Length && buffer != disk.data
      modifies disk`pos, buffer
      ensures Valid() && View() == old(View())
      ensures var r := ReadFrom(old(View()).disk, ps, strt, offset, n);
        out == r.out && |r.data| <= buffer.Length && buffer[..] == r.data + old(buffer[..])[|r.data|..]
    {
      hide ReadFrom, Got, Readable, Slice, BitmapWords;
      var cur: nat, i: nat, off: nat := 0, strt, offset;
      ghost var d, was := View().disk, buffer[..];
      GotNothing(ReadFrom(d, ps, strt, offset, n));
      assert buffer[..0] == [];
      while i < DIRECT_PTRS && cur < n
        invariant Valid() && View() == old(View()) && cur <= n && off < BLOCK
        invariant buffer[cur..] == was[cur..]
        invariant ReadFrom(d, ps, strt, offset, n) == Got(buffer[..cur], ReadFrom(d, ps, i, off, n - cur))
      {
        var sz := if n - cur > BLOCK - off then BLOCK - off else n - cur;
        ghost var done := buffer[..cur];
        UnreadableAt(d, ps[i], off, sz);
        var rc := ReadInto(ByteAddr(ps[i]) + off, sz, buffer, cur);
        if rc == -1 {
          assert buffer[..cur] == done;
          ReadEnds(d, ps, i, off, n - cur, done);
          JoinAt(buffer[..], cur);
          return Abort;
        }
        ReadGoesOn(d, ps, i, off, n - cur, done, sz);
        cur, i, off := cur + sz, i + 1, 0;
      }
      ReadEnds(d, ps, i, off, n - cur, buffer[..cur]);
      JoinAt(buffer[..], cur);
      out := Ret(0);
    }

    method Read(inum: I32, buffer: array<Byte>, offset: I32, nbytes: I32) returns (out: Outcome)
      requires Valid() && nbytes <= buffer.Length && buffer != disk.data
      modifies disk`pos, buffer
      ensures Valid() && View() == old(View())
      ensures var r := FsModel.Read(old(View()), inum, offset, nbytes);
        out == r.out && |r.data| <= buffer.Length && buffer[..] == r.data + old(buffer[..])[|r.data|..]
    {
      hide ReadFrom, Layout;
      if inum < 0 || inum >= s.numInodes || !GetBitmap(inodeBp, inum) {
        return Ret(-1);
      }
      if offset < 0 || nbytes <= 0 || offset + nbytes > inodes[inum].size {
        return Ret(-1);
      }
      if inodes[inum].kind == DIRECTORY && offset % BLOCK % ENTRY_SIZE != 0 {
        return Ret(-1);
      }
      out := ReadBlocks(inodes[inum].direct, buffer, offset / BLOCK, offset % BLOCK, nbytes);
    }

    // ---------- ufs_creat ----------

    // The search that creat makes for two free data blocks at once.
    method TwoFree() returns (b: int, b2: int)
      requires Valid()
      ensures b == FirstClear(dataBp[..], 0, s.numData) && b2 == SecondClear(dataBp[..], s.numData)
    {
      b, b2 := -1, -1;
      for i := 0 to s.numData
        invariant b == -1 ==> b2 == -1 && FirstClear(dataBp[..], i, s.numData) == FirstClear(dataBp[..], 0, s.numData)
        invariant b != -1 ==> 0 <= b < i && b == FirstClear(dataBp[..], 0, s.numData)
        invariant b != -1 && b2 == -1 ==>
          FirstClear(dataBp[..], i, s.numData) == FirstClear(dataBp[..], b + 1, s.numData)
        invariant b != -1 && b2 != -1 ==> b2 == FirstClear(dataBp[..], b + 1, s.numData)
      {
        if !GetBitmap(dataBp, i) {
          if b == -1 {
            b := i;
          } else if b2 == -1 {
            b2 := i;
          }
        }
      }
    }

    method ClaimInode(e: I32, kind: I32)
      requires Valid() && InRange(View(), e)
      modifies inodeBp, dirtyInodeBp, inodes
      ensures Valid() && View() == FsModel.ClaimInode(old(View()), e, kind)
    {
      SetBitmap(inodeBp, e);
      SetBitmap(dirtyInodeBp, e);
      inodes[e] := inodes[e].(kind := kind);
      ghost var ino := inodes[e];
      for i := 0 to DIRECT_PTRS
        invariant inodes[..] == old(inodes[..])[e := inodes[e]] && inodes[e].kind == kind && inodes[e].size == ino.size
        invariant forall k :: 0 <= k < i ==> inodes[e].direct[k] == NONE
        modifies inodes
      {
        inodes[e] := inodes[e].(direct := inodes[e].direct[i := NONE]);
      }
      assert inodes[e] == RawInode(kind, ino.size, NoPtrs());
    }

    // One whole block into memory.
    method ReadBlock(p: U32) returns (rc: I32, blk: seq<Byte>)
      requires Valid()
      modifies disk`pos
      ensures Valid() && View() == old(View())
      ensures rc == if Readable(old(View()).disk, p) then 0 else -1
      ensures rc == 0 ==> blk == PtrBlock(old(View()).disk, p)
    {
      UnreadableAt(View().disk, p, 0, BLOCK);
      rc, blk := ReadAt(ByteAddr(p), BLOCK);
    }

    // Is some slot free in one of the parent's blocks?
    method ParentFull(pinum: I32) returns (rc: Outcome)
      requires Valid() && InRange(View(), pinum)
      modifies disk`pos
      ensures Valid() && View() == old(View())
      ensures rc == FullScan(old(View()).disk, old(View()).m.inodes[pinum].direct, 0)
    {
      hide FullScan, FirstHole, Readable, PtrBlock;
      ghost var d := View().disk;
      var ps := inodes[pinum].direct;
      var i: nat := 0;
      while i < DIRECT_PTRS
        invariant Valid() && View() == old(View()) && i <= DIRECT_PTRS
        invariant FullScan(d, ps, i) == FullScan(d, ps, 0)
      {
        FullScanAt(d, ps, i);
        if ps[i] != NONE {
          var rc', blk := ReadBlock(ps[i]);
          if rc' == -1 {
            return Abort;
          }
          var j := EmptySlot(blk);
          if j < ENTRIES {
            return Ret(0);
          }
        }
        i := i + 1;
      }
      FullScanEnds(d, ps);
      return Ret(1);
    }

    method MakeDir(e: I32, p: I32, b: nat, junk: Junk)
      requires Valid() && InRange(View(), e) && b < s.numData && JunkOK(junk)
      modifies disk, disk.data, inodes, dataBp, dirtyDataBp
      ensures Valid() && View() == FsModel.MakeDir(old(View()), e, p, b, junk).st
      ensures disk.log == old(disk.log) + FsModel.MakeDir(old(View()), e, p, b, junk).pre
    {
      hide DirBlock, Splice;
      DataAddrInside(View(), b);
      PutInode(e, inodes[e].(size := 2 * ENTRY_SIZE, direct := inodes[e].direct[0 := DataAddr(s, b)]));
      TakeBlock(b);
      var data := FillDirBlock([DirEnt(DotName(), e), DirEnt(DotDotName(), p)], junk.dir);
      var rc := WriteAt(ByteAddr(inodes[e].direct[0]), data);
    }

    method LinkInNewBlock(p: I32, ent: DirEnt, b: nat, junk: Junk)
      requires Valid() && InRange(View(), p) && b < s.numData && JunkOK(junk) && |ent.name| < NAME_SIZE
      modifies disk, disk.data, inodes, dataBp, dirtyDataBp
      ensures Valid() && View() == FsModel.LinkInNewBlock(old(View()), p, ent, b, junk).st
      ensures disk.log == old(disk.log) + FsModel.LinkInNewBlock(old(View()), p, ent, b, junk).pre
    {
      hide DirBlock, Splice, FirstNone;
      DataAddrInside(View(), b);
      var data := FillDirBlock([ent], junk.blk);
      var addr := DataAddr(s, b);
      var rc := WriteAt(ByteAddr(addr), data);
      TakeBlock(b);
      var i := EmptyPtr(inodes[p].direct);
      if i < DIRECT_PTRS {
        PutInode(p, inodes[p].(direct := inodes[p].direct[i := addr]));
      }
    }

    method LinkInHole(p: I32, ent: DirEnt, junk: Junk) returns (out: Outcome)
      requires Valid() && InRange(View(), p) && JunkOK(junk) && |ent.name| < NAME_SIZE
      modifies disk, disk.data
      ensures Valid()
      ensures var r := FsModel.LinkInHole(old(View()), p, ent, junk);
        out == r.out && View() == r.st && disk.log == old(disk.log) + r.pre
    {
      hide FindSlot, FirstHole, Readable, PtrBlock, EncodeEntry, Splice;
      ghost var d := View().disk;
      var ps := inodes[p].direct;
      var i: nat := 0;
      while i < DIRECT_PTRS
        invariant Valid() && View() == old(View()) && disk.log == old(disk.log) && i <= DIRECT_PTRS
        invariant FindSlot(d, ps, i) == FindSlot(d, ps, 0)
      {
        FindSlotAt(d, ps, i);
        var rc, blk := ReadBlock(ps[i]);
        if rc == -1 {
          return Abort;
        }
        var j := EmptySlot(blk);
        if j < ENTRIES {
          UnreadableAt(d, ps[i], ENTRY_SIZE * j, ENTRY_SIZE);
          rc := WriteAt(ByteAddr(ps[i]) + ENTRY_SIZE * j, EncodeEntry(ent, junk.ent));
          return Ret(0);
        }
        i := i + 1;
      }
      FindSlotEnds(d, ps);
      return Ret(0);
    }

    // The end of ufs_creat before its commit: the parent gets its entry.
    method Link(p: I32, ent: DirEnt, full: bool, b: int, junk: Junk) returns (out: Outcome)
      requires Valid() && InRange(View(), p) && -1 <= b < s.numData && JunkOK(junk) && |ent.name| < NAME_SIZE
      modifies disk, disk.data, inodes, dataBp, dirtyInodeBp, dirtyDataBp
      ensures Valid()
      ensures var r := FsModel.Link(old(View()), p, ent, full, b, junk);
        out == r.out && View() == r.st && disk.log == old(disk.log) + r.pre
    {
      hide FsModel.LinkInNewBlock, FsModel.LinkInHole;
      MarkInode(p);
      if full {
        if b == -1 || inodes[p].size == MAX_SIZE {
          return Ret(-1);
        }
        NewBlockReturns(View(), p, ent, b, junk);
        LinkInNewBlock(p, ent, b, junk);
        out := Ret(0);
      } else {
        out := LinkInHole(p, ent, junk);
      }
      if out == Ret(0) {
        PutInode(p, Grow(inodes[p], ENTRY_SIZE));
      }
    }

    // From the claimed inode on: it becomes a directory or a file, and the parent gets its entry.
    method Place(p: I32, kind: I32, ent: DirEnt, full: bool, b: int, b2: int, junk: Junk) returns (out: Outcome)
      requires Valid() && InRange(View(), p) && InRange(View(), ent.inum) && JunkOK(junk) && |ent.name| < NAME_SIZE
      requires -1 <= b < s.numData && -1 <= b2 < s.numData
      modifies disk, disk.data, inodes, dataBp, dirtyInodeBp, dirtyDataBp
      ensures Valid()
      ensures var r := FsModel.Place(old(View()), p, kind, ent, full, b, b2, junk);
        out == r.out && View() == r.st && disk.log == old(disk.log) + r.pre
    {
      hide FsModel.Link, FsModel.MakeDir;
      var e := ent.inum;
      if kind == DIRECTORY {
        if b == -1 || (full && b2 == -1) {
          return Ret(-1);
        }
        MakeDir(e, p, b, junk);
        out := Link(p, ent, full, b2, junk);
      } else {
        PutInode(e, inodes[e].(size := 0));
        out := Link(p, ent, full, b, junk);
      }
    }

    method Creat(pinum: I32, kind: I32, name: Name, junk: Junk) returns (out: Outcome)
      requires Valid() && JunkOK(junk)
      modifies disk, disk.data, inodeBp, dataBp, inodes, dirtyInodeBp, dirtyDataBp
      ensures Valid()
      ensures var r := FsModel.Creat(old(View()), pinum, kind, name, junk);
        out == r.out && View() == Finish(r) && disk.log == old(disk.log) + FullLog(r)
    {
      hide FsModel.Place, FsModel.Lookup, FsModel.ClaimInode, FullScan, FirstClear, SecondClear, Commit, CommitLog;
      if pinum < 0 || pinum >= s.numInodes || !GetBitmap(inodeBp, pinum) {
        return Ret(-1);
      }
      if inodes[pinum].kind != DIRECTORY || |name| > 27 {
        return Ret(-1);
      }
      var found := Lookup(pinum, name);
      LookupEnds(old(View()), pinum, name);
      if found == Abort {
        return Abort;
      }
      if found != Ret(-1) {
        return Ret(-1);
      }
      var e := FirstFree(inodeBp, s.numInodes);
      var b, b2 := TwoFree();
      if e == -1 {
        return Ret(-1);
      }
      ClaimInode(e, kind);
      if inodes[pinum].size == MAX_SIZE {
        return Ret(-1);
      }
      var scan := ParentFull(pinum);
      if scan == Abort {
        return Abort;
      }
      out := Place(pinum, kind, DirEnt(name, e), scan == Ret(1), b, b2, junk);
      if out == Ret(0) {
        var rc := CommitDirtyToDisk();
      }
    }

    // ---------- ufs_unlink ----------

    // Clears the data bits at the pointers' own values; a value past the bitmap is outside what C defines.
    method ClearBits(ps: seq<U32>) returns (ok: bool)
      requires Valid()
      modifies dataBp, dirtyDataBp
      ensures Valid()
      ensures ok == Free(old(dataBp[..]), old(dirtyDataBp[..]), ps, 0).Freed?
      ensures ok ==> var f := Free(old(dataBp[..]), old(dirtyDataBp[..]), ps, 0);
        View() == old(View()).(m := old(View()).m.(dbm := f.dbm), dirtyD := f.dirtyD)
    {
      hide Layout;
      var i := 0;
      assert ps[0..] == ps;
      while i < |ps|
        invariant i <= |ps|
        invariant dataBp.Length == dirtyDataBp.Length && inodeBp[..] == old(inodeBp[..])
        invariant dirtyInodeBp[..] == old(dirtyInodeBp[..])
        invariant Free(dataBp[..], dirtyDataBp[..], ps[i..], 0) == Free(old(dataBp[..]), old(dirtyDataBp[..]), ps, 0)
        modifies dataBp, dirtyDataBp
      {
        assert ps[i..][1..] == ps[i + 1..];
        if ps[i] != NONE {
          if ps[i] >= WORD_BITS * dataBp.Length {
            return false;
          }
          ResetBitmap(dataBp, ps[i]);
          SetBitmap(dirtyDataBp, ps[i]);
        }
        i := i + 1;
      }
      ok := true;
    }

    method DropChild(p: I32, c: I32) returns (out: Outcome)
      requires Valid() && InRange(View(), p) && InRange(View(), c)
      modifies inodeBp, dataBp, dirtyInodeBp, dirtyDataBp
      ensures Valid()
      ensures var r := FsUnlinkModel.DropChild(old(View()), p, c, 0);
        out == r.out && (out == Ret(0) ==> View() == r.st) && disk.log == old(disk.log) + r.pre
    {
      hide Free, Layout;
      ResetBitmap(inodeBp, c);
      SetBitmap(dirtyInodeBp, c);
      SetBitmap(dirtyInodeBp, p);
      var ok := ClearBits(inodes[c].direct);
      out := if ok then Ret(0) else Undefined;
    }

    // The parent's side of ufs_unlink.
    method DropEntry(p: I32, name: Name, junk: Junk) returns (out: Outcome)
      requires Valid() && InRange(View(), p) && JunkOK(junk)
      modifies disk, disk.data, inodes, dataBp, dirtyDataBp
      ensures Valid()
      ensures var r := FsUnlinkModel.DropEntry(old(View()), p, name, 0, junk);
        out == r.out && (out != Undefined ==> View() == r.st && disk.log == old(disk.log) + r.pre)
    {
      hide FindName, LiveCount, LastNamed, Free, Readable, PtrBlock, EncodeUnused, Splice;
      PutInode(p, Grow(inodes[p], -(ENTRY_SIZE as int)));
      var ps := inodes[p].direct;
      ghost var st := View();
      var i: nat := 0;
      while i < DIRECT_PTRS
        invariant Valid() && View() == st && disk.log == old(disk.log) && i <= DIRECT_PTRS
        invariant FindName(st.disk, ps, name, i) == FindName(st.disk, ps, name, 0)
      {
        FindNameStep(st.disk, ps, name, i);
        if ps[i] != NONE {
          var rc, blk := ReadBlock(ps[i]);
          if rc == -1 {
            return Abort;
          }
          var entryIdx, cnt := CountEntries(blk, name);
          if entryIdx != -1 {
            if cnt == 1 {
              var ok := ClearBits([ps[i]]);
              if !ok {
                return Undefined;
              }
              PutInode(p, inodes[p].(direct := inodes[p].direct[i := NONE]));
              return Ret(0);
            }
            UnreadableAt(st.disk, ps[i], ENTRY_SIZE * entryIdx, ENTRY_SIZE);
            rc := WriteAt(ByteAddr(ps[i]) + ENTRY_SIZE * entryIdx, EncodeUnused(junk.ent));
            return Ret(0);
          }
        }
        i := i + 1;
      }
      FindNameEnds(st.disk, ps, name);
      return Ret(0);
    }

    method Unlink(pinum: I32, name: Name, junk: Junk) returns (out: Outcome)
      requires Valid() && JunkOK(junk)
      modifies disk, disk.data, inodeBp, dataBp, inodes, dirtyInodeBp, dirtyDataBp
      ensures Valid()
      ensures var r := FsUnlinkModel.Unlink(old(View()), pinum, name, 0, junk);
        out == r.out && (out != Undefined ==> View() == Finish(r) && disk.log == old(disk.log) + FullLog(r))
    {
      hide Free, FsUnlinkModel.DropEntry, FsModel.Lookup, Commit, CommitLog;
      if pinum < 0 || pinum >= s.numInodes || !GetBitmap(inodeBp, pinum) {
        return Ret(-1);
      }
      if name == DotName() || name == DotDotName() {
        return Ret(-1);
      }
      out := Lookup(pinum, name);
      if out == Abort || out == Undefined || out == Ret(-1) {
        return;
      }
      var inum := out.rc;
      if inum < 0 || inum >= s.numInodes {
        return Undefined;
      }
      if inodes[inum].kind == DIRECTORY && inodes[inum].size != 2 * ENTRY_SIZE {
        return Ret(-1);
      }
      out := DropChild(pinum, inum);
      if out == Ret(0) {
        out := DropEntry(pinum, name, junk);
        if out == Ret(0) {
          var rc := CommitDirtyToDisk();
        }
      }
    }
  }
}
