// ufs_read: reading back what was written, and what a read depends on.

module FsRead {
  import opened Bits
  import opened Bytes
  import opened Format
  import opened Tree
  import opened FsModel
  import opened FsInv
  import opened FsCreat
  import opened FsWrite
  import opened FsCrash
  import opened FsCommit

  // The n bytes of an inode from position "from" on.
  function Range(d: seq<Byte>, ino: Inode, from: nat, n: nat): (r: seq<Byte>)
    ensures |r| == n
  {
    seq<Byte>(n, j requires 0 <= j < n => ByteAt(d, ino, from + j))
  }

  predicate RangeReadable(d: seq<Byte>, ino: Inode, from: nat, n: nat) {
    from + n <= MAX_SIZE && forall q: nat :: from <= q < from + n ==> Readable(d, ino.direct[q / BLOCK])
  }

  lemma RangeStep(d: seq<Byte>, ino: Inode, k: nat, off: nat, c: nat, n: nat)
    requires k < DIRECT_PTRS && off < BLOCK && off + c <= BLOCK && c <= n && Readable(d, ino.direct[k])
    ensures Range(d, ino, k * BLOCK + off, n)
            == PtrBlock(d, ino.direct[k])[off..off + c] + Range(d, ino, k * BLOCK + off + c, n - c)
  {
    var from := k * BLOCK + off;
    var a, b := PtrBlock(d, ino.direct[k])[off..off + c], Range(d, ino, from + c, n - c);
    forall j | 0 <= j < n
      ensures Range(d, ino, from, n)[j] == (a + b)[j]
    {
      if j < c {
        var q := from + j;
        assert q / BLOCK == k && q % BLOCK == off + j && q < MAX_SIZE;
        assert ByteAt(d, ino, q) == PtrBlock(d, ino.direct[k])[off + j];
      } else {
        assert (a + b)[j] == b[j - c] == ByteAt(d, ino, from + c + (j - c));
      }
    }
  }

  lemma {:induction false} ReadFromIs(d: seq<Byte>, ino: Inode, k: nat, off: nat, n: nat, from: nat)
    requires off < BLOCK && (n == 0 || from == k * BLOCK + off) && RangeReadable(d, ino, from, n)
    ensures ReadFrom(d, ino.direct, k, off, n) == ReadResult(Ret(0), Range(d, ino, from, n))
    decreases n
  {
    if n > 0 {
      var c := if n > BLOCK - off then BLOCK - off else n;
      assert from / BLOCK == k;
      ReadFromIs(d, ino, k + 1, 0, n - c, from + c);
      RangeStep(d, ino, k, off, c, n);
    }
  }

  // How many of n bytes from a position on the 30 pointers reach.
  function Within30(from: nat, n: nat): (r: nat)
    ensures r <= n
  {
    if from + n <= 122880 then n else if from <= 122880 then 122880 - from else 0
  }

  lemma WithinNext(from: nat, c: nat, n: nat)
    requires c <= n && from + c <= 122880
    ensures Within30(from, n) == c + Within30(from + c, n - c)
  {
  }

  // Some block of the range cannot be read.
  predicate Gap(d: seq<Byte>, ino: Inode, from: nat, n: nat) {
    exists q: nat :: from <= q < from + n && q < MAX_SIZE && !Readable(d, ino.direct[q / BLOCK])
  }

  lemma GapHere(d: seq<Byte>, ino: Inode, from: nat, n: nat)
    requires n > 0 && from < MAX_SIZE && !Readable(d, ino.direct[from / BLOCK])
    ensures Gap(d, ino, from, n)
  {
  }

  lemma GapLater(d: seq<Byte>, ino: Inode, from: nat, c: nat, n: nat)
    requires 0 < c <= n && from < MAX_SIZE && Readable(d, ino.direct[from / BLOCK]) && from % BLOCK + c <= BLOCK
    ensures Gap(d, ino, from, n) <==> Gap(d, ino, from + c, n - c)
  {
    forall q: nat | from <= q < from + c
      ensures q / BLOCK == from / BLOCK
    {
    }
    if Gap(d, ino, from, n) {
      var q: nat :| from <= q < from + n && q < MAX_SIZE && !Readable(d, ino.direct[q / BLOCK]);
      assert q >= from + c;
    }
  }

  lemma NoBytes(d: seq<Byte>, ino: Inode, from: nat)
    ensures Range(d, ino, from, 0) == [] && !Gap(d, ino, from, 0)
  {
  }

  // The loop of ufs_read from any position: it aborts exactly at a gap, and stops at the last pointer.
  lemma {:induction false} ReadFromReaches(d: seq<Byte>, ino: Inode, k: nat, off: nat, n: nat, from: nat)
    requires off < BLOCK && (n == 0 || from == k * BLOCK + off)
    ensures Gap(d, ino, from, Within30(from, n)) ==> ReadFrom(d, ino.direct, k, off, n).out == Abort
    ensures !Gap(d, ino, from, Within30(from, n)) ==>
      ReadFrom(d, ino.direct, k, off, n) == ReadResult(Ret(0), Range(d, ino, from, Within30(from, n)))
    decreases n
  {
    hide Gap, Range, Readable;
    NoBytes(d, ino, from);
    if n > 0 && k < DIRECT_PTRS {
      var c := if n > BLOCK - off then BLOCK - off else n;
      assert from / BLOCK == k && from % BLOCK == off;
      WithinNext(from, c, n);
      if Readable(d, ino.direct[k]) {
        GapLater(d, ino, from, c, Within30(from, n));
        ReadFromReaches(d, ino, k + 1, 0, n - c, from + c);
        RangeStep(d, ino, k, off, c, Within30(from, n));
      } else {
        GapHere(d, ino, from, Within30(from, n));
      }
    }
  }

  // Within the size, in whatever state: the bytes as far as the 30 pointers reach, and 0 even where they do not reach
  // all of the range; abort() exactly when a block on the way cannot be read.
  lemma ReadReaches(st: State, i: I32, offset: I32, nbytes: I32)
    requires Allocated(st, i) && 0 <= offset && 0 < nbytes && offset + nbytes <= st.m.inodes[i].size
    requires st.m.inodes[i].kind != 0 || offset % 32 == 0
    ensures Gap(st.disk, st.m.inodes[i], offset, Within30(offset, nbytes)) <==> Read(st, i, offset, nbytes).out == Abort
    ensures Read(st, i, offset, nbytes).out != Abort ==>
      Read(st, i, offset, nbytes)
      == ReadResult(Ret(0), Range(st.disk, st.m.inodes[i], offset, Within30(offset, nbytes)))
  {
    hide ReadFrom, Gap;
    ReadFromReaches(st.disk, st.m.inodes[i], offset / BLOCK, offset % BLOCK, nbytes, offset);
  }

  lemma BackedReadable(s: Super, d: seq<Byte>, ino: Inode, from: nat, n: nat)
    requires Layout(s, |d|) && Backed(s, ino) && from + n <= ino.size
    ensures RangeReadable(d, ino, from, n)
  {
    forall q: nat | from <= q < from + n
      ensures Readable(d, ino.direct[q / BLOCK])
    {
      DataPtr(s, d, ino.direct[q / BLOCK]);
    }
  }

  // A read within the size of a file of the tree returns the bytes of the tree.
  lemma ReadFile(st: State, t: Tree, i: I32, offset: I32, nbytes: I32)
    requires Shows(st.s, st.m, st.disk, t) && i in t && t[i].File?
    requires 0 <= offset && 0 < nbytes && offset + nbytes <= |t[i].data|
    ensures Read(st, i, offset, nbytes) == ReadResult(Ret(0), t[i].data[offset..offset + nbytes])
  {
    assert ShowsAt(st.s, st.m, st.disk, t, i);
    var ino := st.m.inodes[i];
    BackedReadable(st.s, st.disk, ino, offset, nbytes);
    ReadFromIs(st.disk, ino, offset / BLOCK, offset % BLOCK, nbytes, offset);
    forall j | 0 <= j < nbytes
      ensures Range(st.disk, ino, offset, nbytes)[j] == t[i].data[offset..offset + nbytes][j]
    {
      assert ByteAt(st.disk, ino, offset + j) == t[i].data[offset + j];
    }
    assert Range(st.disk, ino, offset, nbytes) == t[i].data[offset..offset + nbytes];
  }

  // Within the size, a read returns the bytes at its positions; a directory is read at entry boundaries.
  lemma ReadIs(st: State, i: I32, offset: I32, nbytes: I32)
    requires Allocated(st, i) && 0 <= offset && 0 < nbytes && offset + nbytes <= st.m.inodes[i].size
    requires RangeReadable(st.disk, st.m.inodes[i], offset, nbytes)
    ensures Read(st, i, offset, nbytes) ==
            if st.m.inodes[i].kind == DIRECTORY && offset % BLOCK % ENTRY_SIZE != 0 then ReadResult(Ret(-1), [])
            else ReadResult(Ret(0), Range(st.disk, st.m.inodes[i], offset, nbytes))
  {
    ReadFromIs(st.disk, st.m.inodes[i], offset / BLOCK, offset % BLOCK, nbytes, offset);
  }

  // What lies within the size reads the same on every crash disk, whether or not a block backs it.
  lemma {:induction false} ReadFromKept(s: Super, m: Meta, d: seq<Byte>, log: seq<DiskWrite>, d': seq<Byte>,
                                        i: I32, k: nat, off: nat, n: nat)
    requires Sized(s, m, d) && AllocOK(s, m) && AllHidden(s, m, log) && CrashDisk(d, log, d') && Live(m, i)
    requires off < BLOCK && (n > 0 ==> k * BLOCK + off + n <= m.inodes[i].size)
    ensures ReadFrom(d', m.inodes[i].direct, k, off, n) == ReadFrom(d, m.inodes[i].direct, k, off, n)
    decreases n
  {
    hide AllHidden, AllocOK, PtrBlock;
    var ps := m.inodes[i].direct;
    if k < DIRECT_PTRS && n > 0 {
      var c := if n > BLOCK - off then BLOCK - off else n;
      ReadFromKept(s, m, d, log, d', i, k + 1, 0, n - c);
      if ps[k] == NONE {
        NoneUnreadable(s, d);
      } else {
        forall o | off <= o < off + c
          ensures Readable(d, ps[k]) && Readable(d', ps[k]) && PtrBlock(d', ps[k])[o] == PtrBlock(d, ps[k])[o]
        {
          SeenByteKept(s, m, d, log, d', i, k, o);
        }
        assert Readable(d, ps[k]) && Readable(d', ps[k]) by {
          SeenByteKept(s, m, d, log, d', i, k, off);
        }
        assert PtrBlock(d', ps[k])[off..off + c] == PtrBlock(d, ps[k])[off..off + c];
      }
    }
  }

  // Every read answers the same on every crash disk.
  lemma ReadKept(st: State, log: seq<DiskWrite>, st': State, i: I32, offset: I32, nbytes: I32)
    requires AllocOK(st.s, st.m) && AllHidden(st.s, st.m, log) && CrashDisk(st.disk, log, st'.disk)
    requires st'.s == st.s && st'.m == st.m
    ensures Read(st', i, offset, nbytes) == Read(st, i, offset, nbytes)
  {
    hide AllHidden, CrashDisk, AllocOK, ReadFrom;
    if Allocated(st, i) && 0 <= offset && 0 < nbytes && offset + nbytes <= st.m.inodes[i].size {
      ReadFromKept(st.s, st.m, st.disk, log, st'.disk, i, offset / BLOCK, offset % BLOCK, nbytes);
    }
  }

  // ---------- write, then read ----------

  // The state after a call, with the blocks of inode i as the write left them.
  lemma FinishKeepsBlocks(r: Step, i: I32)
    requires AllocOK(r.st.s, r.st.m) && Live(r.st.m, i)
    ensures Finish(r).m == r.st.m && |Finish(r).disk| == |r.st.disk|
    ensures SameBlocks(r.st.m.inodes[i], r.st.disk, Finish(r).disk)
  {
    if r.out == Ret(0) {
      ApplyOutside(r.st.disk, CommitLog(r.st), BLOCK, r.st.s.dataRegionAddr * BLOCK);
      SameAboveMetadata(r.st.s, r.st.m, r.st.disk, Finish(r).disk, i);
    } else {
      OwnBlocksReadable(r.st.s, r.st.m, r.st.disk, i);
    }
  }

  lemma BlockKept(st: State, st': State, i: I32, k: nat)
    requires InRange(st, i) && SameBlocks(st.m.inodes[i], st.disk, st'.disk)
    requires k < DIRECT_PTRS && st.m.inodes[i].direct[k] != NONE
    ensures Readable(st.disk, st.m.inodes[i].direct[k]) && Readable(st'.disk, st.m.inodes[i].direct[k])
    ensures PtrBlock(st'.disk, st.m.inodes[i].direct[k]) == PtrBlock(st.disk, st.m.inodes[i].direct[k])
  {
  }

  lemma ReadBack(st: State, i: I32, r: Step, from: nat, n: I32, bs: seq<Byte>)
    requires 0 < n == |bs| && from + n <= MAX_SIZE && InRange(st, i) && Live(st.m, i)
    requires st.m.inodes[i].kind == REGULAR_FILE && from <= st.m.inodes[i].size < 0x8000_0000 - n
    requires r.out == Ret(0) && r.st.s == st.s && AllocOK(st.s, r.st.m)
    requires WriteResult(st, r.out, r.st, i, from, bs, Payload(r.pre))
    ensures Read(Finish(r), i, from, n) == ReadResult(Ret(0), bs)
  {
    assert Payload(r.pre) == bs;
    var ino, ino' := st.m.inodes[i], r.st.m.inodes[i];
    assert Live(r.st.m, i);
    var st' := Finish(r);
    FinishKeepsBlocks(r, i);
    assert PtrsWrote(ino, ino', from, n) && BytesWrote(ino, st.disk, ino', r.st.disk, from, bs);
    hide Finish, AllocOK, SameBlocks, WriteResult, Wrote, ReadFrom, PtrBlock;
    forall q: nat | from <= q < from + n
      ensures Readable(st'.disk, ino'.direct[q / BLOCK])
      ensures ByteAt(st'.disk, ino', q) == bs[q - from]
    {
      assert ino'.direct[q / BLOCK] != NONE;
      BlockKept(r.st, st', i, q / BLOCK);
      assert ByteAt(r.st.disk, ino', q) == bs[q - from];
    }
    ReadIs(st', i, from, n);
    assert Range(st'.disk, ino', from, n) == bs;
  }

  // For any offset within the file, in whatever state the other inodes are: a write that returns 0 and fits
  // the 30 pointers is read back exactly, across block boundaries and with blocks newly attached.
  lemma WriteThenRead(st: State, i: I32, data: seq<Byte>, offset: I32, nbytes: I32) returns (r: Step)
    requires AllocOK(st.s, st.m) && nbytes <= |data| && offset + nbytes <= MAX_SIZE
    requires Live(st.m, i) && st.m.inodes[i].size + nbytes < 0x8000_0000
    ensures r == Write(st, i, data, offset, nbytes)
    ensures r.out == Ret(0) ==> Read(Finish(r), i, offset, nbytes) == ReadResult(Ret(0), data[..nbytes])
  {
    r := Write(st, i, data, offset, nbytes);
    if r.out == Ret(0) {
      var st0 := MarkInode(st, i);
      var w := WriteFromWrote(st0, i, offset / BLOCK, offset % BLOCK, data[..nbytes], offset);
      ReadBack(st0, i, w, offset, nbytes, data[..nbytes]);
    }
  }

  // The size grows by the bytes written even when they replace old ones: it ends where it should exactly when
  // the write started at the end of the file.
  lemma WriteSizeIff(st: State, i: I32, data: seq<Byte>, offset: I32, nbytes: I32) returns (r: Step)
    requires AllocOK(st.s, st.m) && nbytes <= |data| && offset + nbytes <= MAX_SIZE
    requires Live(st.m, i) && 0 <= st.m.inodes[i].size < 0x8000_0000 - nbytes
    ensures r == Write(st, i, data, offset, nbytes) && Live(r.st.m, i)
    ensures r.out == Ret(0) ==>
      (r.st.m.inodes[i].size ==
       (if offset + nbytes <= st.m.inodes[i].size then st.m.inodes[i].size else offset + nbytes)
       <==> offset == st.m.inodes[i].size)
  {
    hide WriteFrom, AllocOK, OthersKept, PtrsWrote, BytesWrote, Payload, FirstClear;
    r := Write(st, i, data, offset, nbytes);
    if Allocated(st, i) && 0 <= offset <= st.m.inodes[i].size && 0 < nbytes <= 4096 {
      var st0 := MarkInode(st, i);
      var w := WriteFromWrote(st0, i, offset / BLOCK, offset % BLOCK, data[..nbytes], offset);
    }
  }

  lemma RestKept(m: Meta, d: seq<Byte>, m': Meta, d': seq<Byte>, i: I32, from: nat, bs: seq<Byte>, j: I32, q: nat)
    requires Wrote(m, d, m', d', i, from, bs)
    requires Live(m, j) && q < MAX_SIZE && m.inodes[j].direct[q / BLOCK] != NONE
    requires !(j == i && from <= q < from + |bs|)
    ensures Live(m', j) && m'.inodes[j].direct[q / BLOCK] == m.inodes[j].direct[q / BLOCK]
    ensures ByteAt(d', m'.inodes[j], q) == ByteAt(d, m.inodes[j], q)
  {
    assert j != i ==> SameBlocks(m.inodes[j], d, d');
  }

  // The same write changes no other byte: every byte behind a pointer of any inode, other than the bytes
  // written, reads as before once the call has returned.
  lemma WriteKeepsTheRest(st: State, i: I32, data: seq<Byte>, offset: I32, nbytes: I32, j: I32, q: nat)
    returns (r: Step)
    requires AllocOK(st.s, st.m) && nbytes <= |data|
    requires Live(st.m, j) && q < MAX_SIZE && st.m.inodes[j].direct[q / BLOCK] != NONE
    requires !(j == i && offset <= q < offset + nbytes)
    ensures r == Write(st, i, data, offset, nbytes)
    ensures Live(Finish(r).m, j) && Finish(r).m.inodes[j].direct[q / BLOCK] == st.m.inodes[j].direct[q / BLOCK]
    ensures ByteAt(Finish(r).disk, Finish(r).m.inodes[j], q) == ByteAt(st.disk, st.m.inodes[j], q)
    ensures AllocOK(st.s, Finish(r).m)
  {
    hide AllocOK, WriteFrom, Commit, Payload;
    r := Write(st, i, data, offset, nbytes);
    if Allocated(st, i) && 0 <= offset <= st.m.inodes[i].size && st.m.inodes[i].kind == REGULAR_FILE
       && 0 < nbytes <= 4096 {
      var w := WriteFromWrote(MarkInode(st, i), i, offset / BLOCK, offset % BLOCK, data[..nbytes], offset);
      RestKept(st.m, st.disk, r.st.m, r.st.disk, i, offset, Payload(w.pre), j, q);
    }
    FinishKeepsBlocks(r, j);
    BlockKept(r.st, Finish(r), j, q / BLOCK);
  }
}
