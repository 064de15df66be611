// ufs_write: what any write does to blocks, pointers and bytes.

module FsWrite {
  import opened Bits
  import opened Bytes
  import opened Format
  import opened FsModel
  import opened FsInv
  import opened FsCreat

  // The bytes of the writes of a log, one after another.
  function Payload(log: seq<DiskWrite>): seq<Byte> {
    if log == [] then [] else log[0].bytes + Payload(log[1..])
  }

  // Pointers that were set are kept; the newly set ones are those of the n positions from "from" on.
  predicate PtrsWrote(ino: Inode, ino': Inode, from: nat, n: nat) {
    forall l {:trigger ino'.direct[l]} {:trigger ino.direct[l]} :: 0 <= l < DIRECT_PTRS ==>
      var touched := n > 0 && from < (l + 1) * BLOCK && l * BLOCK < from + n;
      && (ino.direct[l] != NONE ==> ino'.direct[l] == ino.direct[l])
      && (ino.direct[l] == NONE ==> (ino'.direct[l] != NONE <==> touched))
  }

  // The n positions from "from" on read bs; the other positions that had a block read as before.
  ghost predicate BytesWrote(ino: Inode, d: seq<Byte>, ino': Inode, d': seq<Byte>, from: nat, bs: seq<Byte>) {
    && (forall q: nat {:trigger ByteAt(d', ino', q)} ::
          q < MAX_SIZE && ino.direct[q / BLOCK] != NONE && !(from <= q < from + |bs|) ==>
          ByteAt(d', ino', q) == ByteAt(d, ino, q))
    && (forall q: nat {:trigger ByteAt(d', ino', q)} :: from <= q < from + |bs| ==> ByteAt(d', ino', q) == bs[q - from])
  }

  // From (m, d) to (m', d') the bytes bs were written to inode i from position "from" on, and nothing else
  // changed: not the other inodes, not their blocks, not the other bytes of i.
  ghost predicate Wrote(m: Meta, d: seq<Byte>, m': Meta, d': seq<Byte>, i: I32, from: nat, bs: seq<Byte>) {
    && 0 <= i < |m.inodes| == |m'.inodes| && m'.ibm == m.ibm
    && OthersKept(m, d, m', d', i)
    && m'.inodes[i].kind == m.inodes[i].kind
    && m'.inodes[i].size == Wrap(m.inodes[i].size + |bs|)
    && (bs != [] ==> from + |bs| <= MAX_SIZE)
    && PtrsWrote(m.inodes[i], m'.inodes[i], from, |bs|)
    && BytesWrote(m.inodes[i], d, m'.inodes[i], d', from, bs)
  }

  // ---------- two writes in a row ----------

  lemma WrapTwice(x: int, n: int)
    ensures Wrap(Wrap(x) + n) == Wrap(x + n)
  {
    var w := 0x1_0000_0000;
    assert (x % w + n) % w == (x + n) % w;
    assert (x % w - w + n) % w == (x + n) % w;
  }

  lemma PtrsWroteTwice(i0: Inode, i1: Inode, i2: Inode, from: nat, a: nat, b: nat)
    requires PtrsWrote(i0, i1, from, a) && PtrsWrote(i1, i2, from + a, b)
    ensures PtrsWrote(i0, i2, from, a + b)
  {
    forall l | 0 <= l < DIRECT_PTRS
      ensures var touched := a + b > 0 && from < (l + 1) * BLOCK && l * BLOCK < from + a + b;
        && (i0.direct[l] != NONE ==> i2.direct[l] == i0.direct[l])
        && (i0.direct[l] == NONE ==> (i2.direct[l] != NONE <==> touched))
    {
      assert i1.direct[l] != NONE ==> i2.direct[l] == i1.direct[l];
    }
  }

  lemma BytesWroteTwice(i0: Inode, d0: seq<Byte>, i1: Inode, d1: seq<Byte>, i2: Inode, d2: seq<Byte>,
                        from: nat, a: seq<Byte>, b: seq<Byte>)
    requires PtrsWrote(i0, i1, from, |a|) && (a != [] ==> from + |a| <= MAX_SIZE)
    requires BytesWrote(i0, d0, i1, d1, from, a) && BytesWrote(i1, d1, i2, d2, from + |a|, b)
    ensures BytesWrote(i0, d0, i2, d2, from, a + b)
  {
    forall q: nat | q < MAX_SIZE && i0.direct[q / BLOCK] != NONE && !(from <= q < from + |a + b|)
      ensures ByteAt(d2, i2, q) == ByteAt(d0, i0, q)
    {
      assert i1.direct[q / BLOCK] == i0.direct[q / BLOCK];
      assert ByteAt(d1, i1, q) == ByteAt(d0, i0, q);
    }
    forall q: nat | from <= q < from + |a + b|
      ensures ByteAt(d2, i2, q) == (a + b)[q - from]
    {
      if q < from + |a| {
        assert i1.direct[q / BLOCK] != NONE;
        assert ByteAt(d1, i1, q) == a[q - from];
      }
    }
  }

  lemma OthersKeptTwice(m0: Meta, d0: seq<Byte>, m1: Meta, d1: seq<Byte>, m2: Meta, d2: seq<Byte>, x: I32)
    requires OthersKept(m0, d0, m1, d1, x) && OthersKept(m1, d1, m2, d2, x)
    ensures OthersKept(m0, d0, m2, d2, x)
  {
    forall j: I32 | j != x && Live(m0, j)
      ensures m2.inodes[j] == m0.inodes[j] && SameBlocks(m0.inodes[j], d0, d2)
    {
      assert Live(m1, j);
      assert SameBlocks(m0.inodes[j], d0, d1) && SameBlocks(m0.inodes[j], d1, d2);
    }
    forall j: I32 | j != x
      ensures Live(m2, j) <==> Live(m0, j)
    {
      assert Live(m1, j) <==> Live(m0, j);
    }
  }

  lemma WroteTwice(m0: Meta, d0: seq<Byte>, m1: Meta, d1: seq<Byte>, m2: Meta, d2: seq<Byte>,
                   i: I32, from: nat, a: seq<Byte>, b: seq<Byte>)
    requires Wrote(m0, d0, m1, d1, i, from, a) && Wrote(m1, d1, m2, d2, i, from + |a|, b)
    ensures Wrote(m0, d0, m2, d2, i, from, a + b)
  {
    hide OthersKept, PtrsWrote, BytesWrote;
    OthersKeptTwice(m0, d0, m1, d1, m2, d2, i);
    WrapTwice(m0.inodes[i].size + |a|, |b|);
    PtrsWroteTwice(m0.inodes[i], m1.inodes[i], m2.inodes[i], from, |a|, |b|);
    BytesWroteTwice(m0.inodes[i], d0, m1.inodes[i], d1, m2.inodes[i], d2, from, a, b);
  }

  // ---------- one round of the loop ----------

  lemma AttachKeepsAlloc(st: State, i: I32, k: nat)
    requires AllocOK(st.s, st.m) && InRange(st, i) && Live(st.m, i) && k < DIRECT_PTRS
    ensures var st1 := Attach(st, i, k);
      && AllocOK(st.s, st1.m) && st1.m.ibm == st.m.ibm
      && st1.m.inodes ==
         st.m.inodes[i := st.m.inodes[i].(direct := st.m.inodes[i].direct[k := st1.m.inodes[i].direct[k]])]
      && (st.m.inodes[i].direct[k] != NONE ==> st1.m == st.m)
      && (st1.m.inodes[i].direct[k] == NONE <==>
          st.m.inodes[i].direct[k] == NONE && FirstClear(st.m.dbm, 0, st.s.numData) == -1)
  {
    var st1 := Attach(st, i, k);
    var b := FirstClear(st.m.dbm, 0, st.s.numData);
    if st.m.inodes[i].direct[k] == NONE && b != -1 {
      DataAddrInside(st, b);
      forall j, l, c
        ensures Owns(st.s, st1.m, j, l, c) <==> Owns(st.s, st.m, j, l, c) || (j == i && l == k && c == b)
      {
      }
      AllocTaken(st.s, st.m, st1.m, i, k, b);
    } else {
      var ps := st.m.inodes[i].direct;
      assert ps[k := ps[k]] == ps;
      assert st.m.inodes[i := st.m.inodes[i]] == st.m.inodes;
    }
  }

  lemma RoundBytes(ino: Inode, d: seq<Byte>, ino1: Inode, d': seq<Byte>, k: nat, off: nat, bs: seq<Byte>, n: int)
    requires k < DIRECT_PTRS && off + |bs| <= BLOCK && |d'| == |d|
    requires ino1 == ino.(direct := ino.direct[k := ino1.direct[k]])
    requires ino.direct[k] == NONE || ino1 == ino
    requires Readable(d, ino1.direct[k]) && ino1.direct[k] != NONE
    requires OtherBlocksSame(ino1, k, d, d')
    requires PtrBlock(d', ino1.direct[k]) == Splice(PtrBlock(d, ino1.direct[k]), off, bs)
    ensures BytesWrote(ino, d, Grow(ino1, n), d', k * BLOCK + off, bs)
  {
    var ino', from := Grow(ino1, n), k * BLOCK + off;
    forall q: nat | q < MAX_SIZE && ino.direct[q / BLOCK] != NONE && !(from <= q < from + |bs|)
      ensures ByteAt(d', ino', q) == ByteAt(d, ino, q)
    {
      assert ino1.direct[q / BLOCK] == ino.direct[q / BLOCK];
    }
    forall q: nat | from <= q < from + |bs|
      ensures ByteAt(d', ino', q) == bs[q - from]
    {
      assert q / BLOCK == k && q % BLOCK == off + (q - from);
    }
  }

  lemma GrowKeepsAlloc(s: Super, m: Meta, i: I32, n: int)
    requires AllocOK(s, m) && Live(m, i)
    ensures AllocOK(s, m.(inodes := m.inodes[i := Grow(m.inodes[i], n)]))
  {
    var m2 := m.(inodes := m.inodes[i := Grow(m.inodes[i], n)]);
    forall j, l, c
      ensures Owns(s, m2, j, l, c) <==> Owns(s, m, j, l, c)
    {
    }
    AllocUnchanged(s, m, m2);
  }

  lemma KeptFromSameInodes(m: Meta, m1: Meta, m2: Meta, d: seq<Byte>, d': seq<Byte>, x: I32)
    requires 0 <= x < |m.inodes| == |m1.inodes| && m1.ibm == m.ibm && m1.inodes == m.inodes[x := m1.inodes[x]]
    requires OthersKept(m1, d, m2, d', x)
    ensures OthersKept(m, d, m2, d', x)
  {
    forall j: I32 | j != x
      ensures Live(m1, j) <==> Live(m, j)
      ensures Live(m, j) ==> m1.inodes[j] == m.inodes[j]
    {
    }
  }

  lemma RoundPtrs(ino: Inode, ino': Inode, k: nat, off: nat, n: nat)
    requires k < DIRECT_PTRS && off + n <= BLOCK && n > 0
    requires ino'.direct == ino.direct[k := ino'.direct[k]] && ino'.direct[k] != NONE
    requires ino.direct[k] == NONE || ino'.direct[k] == ino.direct[k]
    ensures PtrsWrote(ino, ino', k * BLOCK + off, n)
  {
  }

  lemma RoundWrote(st: State, i: I32, k: nat, off: nat, bs: seq<Byte>, from: nat) returns (st2: State)
    requires AllocOK(st.s, st.m) && InRange(st, i) && Live(st.m, i)
    requires k < DIRECT_PTRS && off + |bs| <= BLOCK && bs != [] && from == k * BLOCK + off
    requires RoundPtr(st, i, k) != NONE
    ensures Readable(st.disk, RoundPtr(st, i, k))
    ensures st2 == Round(st, i, k, off, bs) && st2.s == st.s && InRange(st2, i)
    ensures AllocOK(st.s, st2.m) && Live(st2.m, i) && Wrote(st.m, st.disk, st2.m, st2.disk, i, from, bs)
  {
    hide OthersKept, OtherBlocksSame, PtrsWrote, BytesWrote, AllocOK, Splice, PtrBlock, Layout;
    var st1 := Attach(st, i, k);
    AttachKeepsAlloc(st, i, k);
    var m2 := st1.m.(inodes := st1.m.inodes[i := Grow(st1.m.inodes[i], |bs|)]);
    WriteOwnBlock(st1, m2, i, k, off, bs);
    st2 := Round(st, i, k, off, bs);
    assert st2.m == m2;
    GrowKeepsAlloc(st.s, st1.m, i, |bs|);
    RoundBytes(st.m.inodes[i], st.disk, st1.m.inodes[i], st2.disk, k, off, bs, |bs|);
    KeptFromSameInodes(st.m, st1.m, m2, st.disk, st2.disk, i);
    RoundPtrs(st.m.inodes[i], m2.inodes[i], k, off, |bs|);
  }

  // ---------- the whole loop ----------

  lemma WroteNothing(st: State, i: I32, from: nat)
    requires AllocOK(st.s, st.m) && InRange(st, i)
    ensures Wrote(st.m, st.disk, st.m, st.disk, i, from, [])
  {
    forall j: I32 | j != i && Live(st.m, j)
      ensures SameBlocks(st.m.inodes[j], st.disk, st.disk)
    {
      OwnBlocksReadable(st.s, st.m, st.disk, j);
    }
  }

  // How many of n bytes fit between a position and the end of the last pointer's block.
  function Fits(n: nat, from: nat): nat {
    if from >= MAX_SIZE then 0 else if n <= MAX_SIZE - from then n else MAX_SIZE - from
  }

  // What the loop has done when it ends: it wrote the prefix bs of the data and changed nothing else, and the
  // data bitmap is right.  It ends early only when no block is free.
  ghost predicate WriteResult(st: State, out: Outcome, st': State, i: I32, from: nat, data: seq<Byte>, bs: seq<Byte>)
  {
    && st'.s == st.s && AllocOK(st.s, st'.m)
    && Wrote(st.m, st.disk, st'.m, st'.disk, i, from, bs)
    && bs <= data
    && match out
       case Ret(rc) =>
         if rc == 0 then |bs| == Fits(|data|, from)
         else rc == -1 && FirstClear(st'.m.dbm, 0, st.s.numData) == -1 && |bs| < Fits(|data|, from)
       case _ => false
  }

  lemma PayloadNone()
    ensures Payload([]) == []
  {
  }

  lemma PayloadCons(w: DiskWrite, rest: seq<DiskWrite>)
    ensures Payload([w] + rest) == w.bytes + Payload(rest)
  {
    assert ([w] + rest)[1..] == rest;
  }

  // One round that wrote the first n bytes, then the rounds for the rest.
  lemma RoundThenRest(st: State, st1: State, out: Outcome, st2: State, i: I32, from: nat, n: nat,
                      data: seq<Byte>, bs: seq<Byte>)
    requires st1.s == st.s && 0 < n <= |data|
    requires Wrote(st.m, st.disk, st1.m, st1.disk, i, from, data[..n])
    requires WriteResult(st1, out, st2, i, from + n, data[n..], bs)
    ensures WriteResult(st, out, st2, i, from, data, data[..n] + bs)
  {
    assert from + n <= MAX_SIZE && |data[..n]| == n;
    hide Wrote, AllocOK;
    WroteTwice(st.m, st.disk, st1.m, st1.disk, st2.m, st2.disk, i, from, data[..n], bs);
    assert data == data[..n] + data[n..];
  }

  // No round: the pointers or the data are used up, or no block is free.
  lemma WriteStops(st: State, i: I32, k: nat, off: nat, data: seq<Byte>, from: nat, r: Step)
    requires AllocOK(st.s, st.m) && InRange(st, i) && Live(st.m, i) && off < BLOCK
    requires data == [] || from == k * BLOCK + off
    requires k >= DIRECT_PTRS || data == [] || RoundPtr(st, i, k) == NONE
    requires r == WriteFrom(st, i, k, off, data)
    ensures r.pre == [] && WriteResult(st, r.out, r.st, i, from, data, [])
  {
    WroteNothing(st, i, from);
    if k < DIRECT_PTRS {
      AttachKeepsAlloc(st, i, k);
    }
  }

  // One round of the loop, then the loop again.
  lemma WriteFromRound(st: State, i: I32, k: nat, off: nat, data: seq<Byte>, n: nat, st1: State, rest: Step)
    returns (r: Step)
    requires InRange(st, i) && off < BLOCK && k < DIRECT_PTRS && data != [] && n == Chunk(data, off)
    requires RoundPtr(st, i, k) != NONE && Readable(st.disk, RoundPtr(st, i, k))
    requires st1 == Round(st, i, k, off, data[..n]) && rest == WriteFrom(st1, i, k + 1, 0, data[n..])
    ensures r == WriteFrom(st, i, k, off, data)
    ensures r.out == rest.out && r.st == rest.st && Payload(r.pre) == data[..n] + Payload(rest.pre)
  {
    r := WriteFrom(st, i, k, off, data);
    PayloadCons(RoundWrite(st, i, k, off, data[..n]), rest.pre);
  }

  lemma {:induction false} WriteFromWrote(st: State, i: I32, k: nat, off: nat, data: seq<Byte>, from: nat)
    returns (r: Step)
    requires AllocOK(st.s, st.m) && InRange(st, i) && Live(st.m, i) && off < BLOCK
    requires data == [] || from == k * BLOCK + off
    ensures r == WriteFrom(st, i, k, off, data)
    ensures WriteResult(st, r.out, r.st, i, from, data, Payload(r.pre))
    decreases |data|
  {
    hide AllocOK, Wrote, WriteResult, Round, RoundPtr, WriteFrom, Readable, Payload;
    if k >= DIRECT_PTRS || data == [] || RoundPtr(st, i, k) == NONE {
      r := WriteFrom(st, i, k, off, data);
      WriteStops(st, i, k, off, data, from, r);
      PayloadNone();
    } else {
      var n := Chunk(data, off);
      var st1 := RoundWrote(st, i, k, off, data[..n], from);
      var rest := WriteFromWrote(st1, i, k + 1, 0, data[n..], from + n);
      RoundThenRest(st, st1, rest.out, rest.st, i, from, n, data, Payload(rest.pre));
      r := WriteFromRound(st, i, k, off, data, n, st1, rest);
    }
  }
}
