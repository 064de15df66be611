// Writing at the end of a file: the file grows by the bytes written, nothing else changes, and a crash
// before the commit is harmless.

module FsAppend {
  import opened Bits
  import opened Bytes
  import opened Format
  import opened Tree
  import opened FsModel
  import opened FsInv
  import opened FsCreat
  import opened FsWrite
  import opened FsCrash

  // ---------- when a write has room ----------

  // Blocks the loop needs from pointer k on, for n bytes starting at byte off.
  function Missing(ps: seq<U32>, k: nat, off: nat, n: nat): nat
    requires |ps| == DIRECT_PTRS && off < BLOCK
    decreases n
  {
    if k >= DIRECT_PTRS || n == 0 then 0
    else (if ps[k] == NONE then 1 else 0)
         + Missing(ps, k + 1, 0, if n > BLOCK - off then n - (BLOCK - off) else 0)
  }

  lemma {:induction false} MissingLater(ps: seq<U32>, qs: seq<U32>, k: nat, off: nat, n: nat)
    requires |ps| == |qs| == DIRECT_PTRS && off < BLOCK
    requires forall l :: k <= l < DIRECT_PTRS ==> ps[l] == qs[l]
    ensures Missing(ps, k, off, n) == Missing(qs, k, off, n)
    decreases n
  {
    if k < DIRECT_PTRS && n != 0 {
      MissingLater(ps, qs, k + 1, 0, if n > BLOCK - off then n - (BLOCK - off) else 0);
    }
  }

  lemma {:induction false} FreeBlocksSame(ws: seq<Word>, vs: seq<Word>, from: nat, n: nat)
    requires |ws| == |vs| && from <= n <= WORD_BITS * |ws|
    requires forall j :: from <= j < n ==> Get(ws, j) == Get(vs, j)
    ensures FreeBlocks(ws, from, n) == FreeBlocks(vs, from, n)
    decreases n - from
  {
    if from < n {
      FreeBlocksSame(ws, vs, from + 1, n);
    }
  }

  lemma {:induction false} FreeBlocksAfterSet(ws: seq<Word>, from: nat, b: nat, n: nat)
    requires from <= b < n <= WORD_BITS * |ws| && !Get(ws, b)
    ensures FreeBlocks(Set(ws, b), from, n) + 1 == FreeBlocks(ws, from, n)
    decreases n - from
  {
    if from == b {
      FreeBlocksSame(ws, Set(ws, b), from + 1, n);
    } else {
      FreeBlocksAfterSet(ws, from + 1, b, n);
    }
  }

  lemma MissingStep(ps: seq<U32>, k: nat, off: nat, data: seq<Byte>)
    requires |ps| == DIRECT_PTRS && off < BLOCK && k < DIRECT_PTRS && data != []
    ensures Missing(ps, k, off, |data|) ==
            (if ps[k] == NONE then 1 else 0) + Missing(ps, k + 1, 0, |data| - Chunk(data, off))
  {
  }

  lemma RoomWithoutRound(st: State, i: I32, k: nat, off: nat, data: seq<Byte>)
    requires AllocOK(st.s, st.m) && InRange(st, i) && Live(st.m, i) && off < BLOCK
    requires k >= DIRECT_PTRS || data == [] || RoundPtr(st, i, k) == NONE
    ensures WriteFrom(st, i, k, off, data).out == Ret(0) <==>
            Missing(st.m.inodes[i].direct, k, off, |data|) <= FreeBlocks(st.m.dbm, 0, st.s.numData)
  {
    if k < DIRECT_PTRS {
      AttachKeepsAlloc(st, i, k);
    }
    FreeBlocksFound(st.m.dbm, 0, st.s.numData);
  }

  lemma RoundRoom(st: State, st1: State, i: I32, k: nat, off: nat, bs: seq<Byte>, left: nat)
    requires InRange(st, i) && k < DIRECT_PTRS && off + |bs| <= BLOCK
    requires Readable(st.disk, RoundPtr(st, i, k)) && RoundPtr(st, i, k) != NONE
    requires st1 == Round(st, i, k, off, bs)
    ensures Missing(st1.m.inodes[i].direct, k + 1, 0, left) == Missing(st.m.inodes[i].direct, k + 1, 0, left)
    ensures FreeBlocks(st1.m.dbm, 0, st.s.numData) + (if st.m.inodes[i].direct[k] == NONE then 1 else 0)
            == FreeBlocks(st.m.dbm, 0, st.s.numData)
  {
    MissingLater(st.m.inodes[i].direct, st1.m.inodes[i].direct, k + 1, 0, left);
    var b := FirstClear(st.m.dbm, 0, st.s.numData);
    if st.m.inodes[i].direct[k] == NONE {
      FreeBlocksAfterSet(st.m.dbm, 0, b, st.s.numData);
    }
  }

  lemma RoomAfterRound(st: State, st1: State, i: I32, k: nat, off: nat, data: seq<Byte>, n: nat)
    requires InRange(st, i) && off < BLOCK && k < DIRECT_PTRS && data != [] && n == Chunk(data, off)
    requires RoundPtr(st, i, k) != NONE && Readable(st.disk, RoundPtr(st, i, k))
    requires st1 == Round(st, i, k, off, data[..n])
    ensures Missing(st1.m.inodes[i].direct, k + 1, 0, |data| - n) <= FreeBlocks(st1.m.dbm, 0, st1.s.numData) <==>
            Missing(st.m.inodes[i].direct, k, off, |data|) <= FreeBlocks(st.m.dbm, 0, st.s.numData)
  {
    hide Round, RoundPtr, Missing, FreeBlocks, Readable;
    MissingStep(st.m.inodes[i].direct, k, off, data);
    RoundRoom(st, st1, i, k, off, data[..n], |data| - n);
  }

  lemma OutOfRound(st: State, st1: State, i: I32, k: nat, off: nat, data: seq<Byte>, n: nat)
    requires InRange(st, i) && off < BLOCK && k < DIRECT_PTRS && data != [] && n == Chunk(data, off)
    requires RoundPtr(st, i, k) != NONE && Readable(st.disk, RoundPtr(st, i, k))
    requires st1 == Round(st, i, k, off, data[..n])
    ensures WriteFrom(st, i, k, off, data).out == WriteFrom(st1, i, k + 1, 0, data[n..]).out
  {
  }

  lemma RoomAround(st: State, st1: State, i: I32, k: nat, off: nat, data: seq<Byte>, n: nat)
    requires InRange(st, i) && InRange(st1, i) && off < BLOCK && k < DIRECT_PTRS && data != [] && n == Chunk(data, off)
    requires RoundPtr(st, i, k) != NONE && Readable(st.disk, RoundPtr(st, i, k))
    requires st1 == Round(st, i, k, off, data[..n])
    requires WriteFrom(st1, i, k + 1, 0, data[n..]).out == Ret(0) <==>
             Missing(st1.m.inodes[i].direct, k + 1, 0, |data[n..]|) <= FreeBlocks(st1.m.dbm, 0, st1.s.numData)
    ensures WriteFrom(st, i, k, off, data).out == Ret(0) <==>
            Missing(st.m.inodes[i].direct, k, off, |data|) <= FreeBlocks(st.m.dbm, 0, st.s.numData)
  {
    hide Round, RoundPtr, WriteFrom, Missing, FreeBlocks, Readable;
    RoomAfterRound(st, st1, i, k, off, data, n);
    OutOfRound(st, st1, i, k, off, data, n);
    assert |data[n..]| == |data| - n;
  }

  // The loop runs to its end exactly when the blocks it needs are free.
  lemma {:induction false} WriteHasRoom(st: State, i: I32, k: nat, off: nat, data: seq<Byte>)
    requires AllocOK(st.s, st.m) && InRange(st, i) && Live(st.m, i) && off < BLOCK
    ensures WriteFrom(st, i, k, off, data).out == Ret(0) <==>
            Missing(st.m.inodes[i].direct, k, off, |data|) <= FreeBlocks(st.m.dbm, 0, st.s.numData)
    decreases |data|
  {
    if k >= DIRECT_PTRS || data == [] || RoundPtr(st, i, k) == NONE {
      RoomWithoutRound(st, i, k, off, data);
    } else {
      hide AllocOK, Wrote, Round, RoundPtr, WriteFrom, Missing, FreeBlocks, Readable;
      var n := Chunk(data, off);
      var st1 := RoundWrote(st, i, k, off, data[..n], k * BLOCK + off);
      WriteHasRoom(st1, i, k + 1, 0, data[n..]);
      RoomAround(st, st1, i, k, off, data, n);
    }
  }

  lemma NothingMissing(ps: seq<U32>, k: nat, off: nat, n: nat)
    requires |ps| == DIRECT_PTRS && off < BLOCK && (k >= DIRECT_PTRS || n == 0)
    ensures Missing(ps, k, off, n) == 0
  {
  }

  lemma NothingWritten(st: State, i: I32, k: nat, off: nat, data: seq<Byte>)
    requires InRange(st, i) && off < BLOCK && (k >= DIRECT_PTRS || data == [])
    ensures WriteFrom(st, i, k, off, data).st == st
  {
  }

  // The loop goes on where it does not stop.
  lemma GoesOn(st: State, i: I32, k: nat, off: nat, data: seq<Byte>)
    requires InRange(st, i) && off < BLOCK && k < DIRECT_PTRS && data != []
    requires WriteFrom(st, i, k, off, data).out == Ret(0)
    ensures RoundPtr(st, i, k) != NONE && Readable(st.disk, RoundPtr(st, i, k))
  {
  }

  // A loop that runs to its end takes exactly the blocks it missed.
  lemma {:induction false} RoomUsed(st: State, i: I32, k: nat, off: nat, data: seq<Byte>)
    requires InRange(st, i) && off < BLOCK && WriteFrom(st, i, k, off, data).out == Ret(0)
    ensures FreeBlocks(WriteFrom(st, i, k, off, data).st.m.dbm, 0, st.s.numData)
            + Missing(st.m.inodes[i].direct, k, off, |data|) == FreeBlocks(st.m.dbm, 0, st.s.numData)
    decreases |data|
  {
    hide FreeBlocks, Round, RoundPtr, Readable, Missing, WriteFrom;
    if k >= DIRECT_PTRS || data == [] {
      NothingMissing(st.m.inodes[i].direct, k, off, |data|);
      NothingWritten(st, i, k, off, data);
    } else {
      GoesOn(st, i, k, off, data);
      var n := Chunk(data, off);
      var st1 := Round(st, i, k, off, data[..n]);
      var r := WriteFromRound(st, i, k, off, data, n, st1, WriteFrom(st1, i, k + 1, 0, data[n..]));
      RoomUsed(st1, i, k + 1, 0, data[n..]);
      MissingStep(st.m.inodes[i].direct, k, off, data);
      RoundRoom(st, st1, i, k, off, data[..n], |data| - n);
    }
  }

  // A loop that misses none leaves the data bitmap alone.
  lemma {:induction false} NoneMissed(st: State, i: I32, k: nat, off: nat, data: seq<Byte>)
    requires InRange(st, i) && off < BLOCK && Missing(st.m.inodes[i].direct, k, off, |data|) == 0
    ensures WriteFrom(st, i, k, off, data).st.m.dbm == st.m.dbm
    decreases |data|
  {
    hide Missing, Splice;
    if k < DIRECT_PTRS && data != [] {
      var n := Chunk(data, off);
      MissingStep(st.m.inodes[i].direct, k, off, data);
      if Readable(st.disk, RoundPtr(st, i, k)) && RoundPtr(st, i, k) != NONE {
        var st1 := Round(st, i, k, off, data[..n]);
        MissingLater(st.m.inodes[i].direct, st1.m.inodes[i].direct, k + 1, 0, |data| - n);
        NoneMissed(st1, i, k + 1, 0, data[n..]);
      }
    }
  }

  // ---------- what a write makes of the file ----------

  lemma AppendHolds(s: Super, m': Meta, i: I32, ino: Inode, d: seq<Byte>, ino': Inode, d': seq<Byte>,
                    kind: I32, data: seq<Byte>, bs: seq<Byte>)
    requires Sized(s, m', d') && AllocOK(s, m') && Live(m', i) && m'.inodes[i] == ino'
    requires Holds(s, ino, d, File(kind, data)) && |data| + |bs| <= MAX_SIZE
    requires ino'.kind == kind && ino'.size == |data| + |bs|
    requires PtrsWrote(ino, ino', |data|, |bs|) && BytesWrote(ino, d, ino', d', |data|, bs)
    ensures Holds(s, ino', d', File(kind, data + bs))
  {
    forall k | 0 <= k < DIRECT_PTRS
      ensures if k * BLOCK < ino'.size then s.dataRegionAddr <= ino'.direct[k] < s.dataRegionAddr + s.numData
              else ino'.direct[k] == NONE
    {
      assert ino.direct[k] == NONE <==> ino.size <= k * BLOCK;
      if ino'.direct[k] != NONE {
        DistinctPtrs(s, m', d', i, k, k);
      }
    }
    forall q | 0 <= q < |data + bs|
      ensures ByteAt(d', ino', q) == (data + bs)[q]
    {
      if q < |data| {
        assert ino.direct[q / BLOCK] != NONE;
        assert ByteAt(d, ino, q) == data[q];
      }
    }
  }

  // Nothing was written.
  lemma NothingHolds(s: Super, ino: Inode, d: seq<Byte>, ino': Inode, d': seq<Byte>, from: nat, node: Node)
    requires Layout(s, |d|) && |d'| == |d| && Holds(s, ino, d, node) && !node.Dir?
    requires ino'.kind == ino.kind && ino'.size == ino.size
    requires PtrsWrote(ino, ino', from, 0) && BytesWrote(ino, d, ino', d', from, [])
    ensures Holds(s, ino', d', node)
  {
    forall q: nat | q < MAX_SIZE && ino.direct[q / BLOCK] != NONE
      ensures ByteAt(d', ino', q) == ByteAt(d, ino, q)
    {
    }
    assert forall k :: 0 <= k < DIRECT_PTRS ==> ino'.direct[k] == ino.direct[k];
  }

  lemma KnownBacked(s: Super, ino: Inode, d: seq<Byte>, node: Node, q: nat)
    requires Holds(s, ino, d, node) && !node.Dir? && KnownAt(node, q).Is?
    ensures q < MAX_SIZE && ino.direct[q / BLOCK] != NONE && ByteAt(d, ino, q) == KnownAt(node, q).byte
  {
  }

  // Written below its end, or patched before: what is known afterwards.
  lemma PatchedHolds(s: Super, ino: Inode, d: seq<Byte>, ino': Inode, d': seq<Byte>, from: nat, bs: seq<Byte>,
                     node: Node)
    requires Holds(s, ino, d, node) && !node.Dir? && bs != []
    requires ino'.kind == ino.kind && ino'.size == Wrap(ino.size + |bs|)
    requires PtrsWrote(ino, ino', from, |bs|) && BytesWrote(ino, d, ino', d', from, bs)
    ensures Holds(s, ino', d', Patched(node.kind, ino'.size, Over(node, from, bs, Reach(ino'.size))))
  {
    hide Backed, ByteAt, Wrap;
    var bytes := Over(node, from, bs, Reach(ino'.size));
    forall q | 0 <= q < |bytes| && bytes[q].Is?
      ensures ino'.direct[q / BLOCK] != NONE && ByteAt(d', ino', q) == bytes[q].byte
    {
      if !(from <= q < from + |bs|) {
        KnownBacked(s, ino, d, node, q);
      }
    }
  }

  lemma PatchHolds(s: Super, m': Meta, i: I32, ino: Inode, d: seq<Byte>, ino': Inode, d': seq<Byte>,
                   from: nat, bs: seq<Byte>, node: Node)
    requires Sized(s, m', d') && AllocOK(s, m') && Live(m', i) && m'.inodes[i] == ino' && |d'| == |d|
    requires Holds(s, ino, d, node) && !node.Dir? && (bs != [] ==> from + |bs| <= MAX_SIZE)
    requires ino'.kind == ino.kind && ino'.size == Wrap(ino.size + |bs|)
    requires PtrsWrote(ino, ino', from, |bs|) && BytesWrote(ino, d, ino', d', from, bs)
    ensures Holds(s, ino', d', Patch(node, from, bs))
  {
    hide AllocOK, PtrsWrote, BytesWrote, ByteAt, Over;
    if bs == [] {
      NothingHolds(s, ino, d, ino', d', from, node);
      assert node.File? ==> node.data + [] == node.data;
    } else if node.File? && from == |node.data| {
      AppendHolds(s, m', i, ino, d, ino', d', node.kind, node.data, bs);
    } else {
      PatchedHolds(s, ino, d, ino', d', from, bs, node);
    }
  }

  // The checks of ufs_write.
  predicate WriteOK(t: Tree, i: I32, data: seq<Byte>, offset: int) {
    && i in t && !t[i].Dir? && t[i].kind == REGULAR_FILE
    && 0 < |data| <= 4096 && 0 <= offset <= SizeOf(t[i])
  }

  lemma WriteStarts(st: State, t: Tree, i: I32, data: seq<Byte>, offset: I32) returns (st0: State)
    requires Ref(st, t) && WriteOK(t, i, data, offset)
    ensures InRange(st, i) && Live(st.m, i) && st.m.inodes[i].size == SizeOf(t[i])
    ensures Holds(st.s, st.m.inodes[i], st.disk, t[i])
    ensures st0 == MarkInode(st, i)
    ensures Write(st, i, data, offset, |data|) == WriteFrom(st0, i, offset / BLOCK, offset % BLOCK, data)
  {
    assert ShowsAt(st.s, st.m, st.disk, t, i);
    st0 := MarkInode(st, i);
    assert data[..|data|] == data;
  }

  lemma PatchRefines(st: State, t: Tree, i: I32, st': State, from: nat, bs: seq<Byte>)
    requires Ref(st, t) && i in t && !t[i].Dir?
    requires st'.s == st.s && |st'.disk| == |st.disk| && AllocOK(st.s, st'.m)
    requires Wrote(st.m, st.disk, st'.m, st'.disk, i, from, bs)
    ensures Ref(st', t[i := Patch(t[i], from, bs)])
  {
    hide OthersKept, BytesWrote, PtrsWrote, AllocOK, Patch, Backed, ByteAt, EntryAt;
    assert ShowsAt(st.s, st.m, st.disk, t, i);
    var ino, ino' := st.m.inodes[i], st'.m.inodes[i];
    assert Live(st'.m, i);
    PatchHolds(st.s, st'.m, i, ino, st.disk, ino', st'.disk, from, bs, t[i]);
    ChangeOne(st.s, st.m, st.disk, st'.m, st'.disk, t, i, Patch(t[i], from, bs));
  }

  // A write to a file of the tree from any offset within its size, up to its commit: a prefix of the data is
  // written at its place, all of it (as far as the 30 pointers reach) exactly when the call returns 0; the call
  // returns 0 exactly when there is room.
  lemma WriteRefines(st: State, t: Tree, i: I32, data: seq<Byte>, offset: I32) returns (r: Step)
    requires Ref(st, t) && WriteOK(t, i, data, offset)
    ensures InRange(st, i) && r == Write(st, i, data, offset, |data|)
    ensures Payload(r.pre) <= data && Ref(r.st, t[i := Patch(t[i], offset, Payload(r.pre))])
    ensures r.out == Ret(0) || r.out == Ret(-1)
    ensures r.out == Ret(0) <==> |Payload(r.pre)| == Fits(|data|, offset)
    ensures r.out == Ret(0) ==> (Payload(r.pre) == data <==> offset + |data| <= MAX_SIZE)
    ensures r.out == Ret(0) <==>
            Missing(st.m.inodes[i].direct, offset / BLOCK, offset % BLOCK, |data|)
            <= FreeBlocks(st.m.dbm, 0, st.s.numData)
  {
    hide AllocOK, Holds, OthersKept, PtrsWrote, BytesWrote, WriteFrom, Missing, FreeBlocks, Payload;
    var st0 := WriteStarts(st, t, i, data, offset);
    r := WriteFromWrote(st0, i, offset / BLOCK, offset % BLOCK, data, offset);
    WriteHasRoom(st0, i, offset / BLOCK, offset % BLOCK, data);
    PatchRefines(st, t, i, r.st, offset, Payload(r.pre));
  }

  // ---------- crashing during a write ----------

  lemma RoundHidden(st: State, i: I32, k: nat, off: nat, bs: seq<Byte>)
    requires AllocOK(st.s, st.m) && InRange(st, i) && Live(st.m, i) && k < DIRECT_PTRS && off + |bs| <= BLOCK
    requires st.m.inodes[i].size <= k * BLOCK + off && RoundPtr(st, i, k) != NONE
    ensures Readable(st.disk, RoundPtr(st, i, k)) && Hidden(st.s, st.m, RoundWrite(st, i, k, off, bs))
  {
    hide AllocOK, Hidden, SoleOwner;
    var st1 := Attach(st, i, k);
    AttachKeepsAlloc(st, i, k);
    OwnBlockAddr(st.s, st1.m, st.disk, i, k, off, |bs|);
    var w := RoundWrite(st, i, k, off, bs);
    HiddenPastEnd(st.s, st1.m, w, i, k, RoundPtr(st, i, k) - st.s.dataRegionAddr, off);
    forall j, l, b, o | Seen(st.s, st.m, j, l, b, o)
      ensures Seen(st.s, st1.m, j, l, b, o)
    {
    }
    HiddenEarlier(st.s, st.m, st1.m, [w]);
    assert w in [w];
  }

  lemma RoundSeen(st: State, st1: State, i: I32, k: nat, off: nat, bs: seq<Byte>)
    requires AllocOK(st.s, st.m) && InRange(st, i) && Live(st.m, i) && k < DIRECT_PTRS && off + |bs| <= BLOCK
    requires st.m.inodes[i].size <= k * BLOCK + off
    requires Readable(st.disk, RoundPtr(st, i, k)) && st1 == Round(st, i, k, off, bs)
    ensures st1.m.inodes[i].size == st.m.inodes[i].size + |bs|
    ensures forall j, l, b, o :: Seen(st.s, st.m, j, l, b, o) ==> Seen(st.s, st1.m, j, l, b, o)
  {
  }

  // The writes of an append all go past the end of the file.
  lemma {:induction false} WriteFromHidden(st: State, i: I32, k: nat, off: nat, data: seq<Byte>, r: Step)
    requires AllocOK(st.s, st.m) && InRange(st, i) && Live(st.m, i) && off < BLOCK
    requires data == [] || st.m.inodes[i].size <= k * BLOCK + off
    requires r == WriteFrom(st, i, k, off, data)
    ensures AllHidden(st.s, st.m, r.pre)
    decreases |data|
  {
    if k < DIRECT_PTRS && data != [] {
      AttachKeepsAlloc(st, i, k);
      if RoundPtr(st, i, k) != NONE {
        var n := Chunk(data, off);
        RoundHidden(st, i, k, off, data[..n]);
        var st1 := RoundWrote(st, i, k, off, data[..n], k * BLOCK + off);
        RoundSeen(st, st1, i, k, off, data[..n]);
        var rest := WriteFrom(st1, i, k + 1, 0, data[n..]);
        WriteFromHidden(st1, i, k + 1, 0, data[n..], rest);
        HiddenEarlier(st.s, st.m, st1.m, rest.pre);
        assert r.pre == [RoundWrite(st, i, k, off, data[..n])] + rest.pre;
      }
    }
  }

  // An overwrite starts in a block that is there and within the size: its first write can be seen.
  lemma OverwriteSeen(st: State, i: I32, k: nat, off: nat, data: seq<Byte>, r: Step)
    requires AllocOK(st.s, st.m) && InRange(st, i) && Live(st.m, i) && k < DIRECT_PTRS && off < BLOCK && data != []
    requires st.m.inodes[i].direct[k] != NONE && k * BLOCK + off < st.m.inodes[i].size
    requires r == WriteFrom(st, i, k, off, data)
    ensures !AllHidden(st.s, st.m, r.pre)
  {
    var p := st.m.inodes[i].direct[k];
    DistinctPtrs(st.s, st.m, st.disk, i, k, k);
    assert RoundPtr(st, i, k) == p;
    var w := RoundWrite(st, i, k, off, data[..Chunk(data, off)]);
    assert r.pre[0] == w && w in r.pre;
    assert Seen(st.s, st.m, i, k, p - st.s.dataRegionAddr, off);
    assert Hits(w, (st.s.dataRegionAddr + (p - st.s.dataRegionAddr)) * BLOCK + off);
  }

  lemma NothingHidden(s: Super, m: Meta)
    ensures AllHidden(s, m, [])
  {
  }

  lemma AppendHidden(st: State, i: I32, data: seq<Byte>, offset: I32)
    requires AllocOK(st.s, st.m) && Live(st.m, i) && offset == st.m.inodes[i].size && |data| < 0x8000_0000
    ensures AllHidden(st.s, st.m, Write(st, i, data, offset, |data|).pre)
  {
    hide AllHidden, AllocOK, WriteFrom;
    assert data[..|data|] == data;
    if 0 <= offset && 0 < |data| {
      var k, off := offset / BLOCK, offset % BLOCK;
      var r := WriteFrom(MarkInode(st, i), i, k, off, data);
      WriteFromHidden(MarkInode(st, i), i, k, off, data, r);
    }
    NothingHidden(st.s, st.m);
  }

  // A write is harmless to crash in exactly when it is an append.
  lemma WriteHiddenIff(st: State, t: Tree, i: I32, data: seq<Byte>, offset: I32) returns (r: Step)
    requires Ref(st, t) && WriteOK(t, i, data, offset) && t[i].File?
    ensures r == Write(st, i, data, offset, |data|)
    ensures AllHidden(st.s, st.m, r.pre) <==> offset == |t[i].data|
  {
    hide AllHidden, AllocOK, WriteFrom;
    assert ShowsAt(st.s, st.m, st.disk, t, i);
    var st0 := MarkInode(st, i);
    var k, off := offset / BLOCK, offset % BLOCK;
    r := WriteFrom(st0, i, k, off, data);
    assert data[..|data|] == data;
    if offset == |t[i].data| {
      AppendHidden(st, i, data, offset);
    } else {
      assert st.m.inodes[i].direct[k] != NONE;
      OverwriteSeen(st0, i, k, off, data, r);
    }
  }
}
