// Every change a call makes to the metadata in memory is marked dirty, whether or not the call succeeds.

module FsCover {
  import opened Bits
  import opened Bytes
  import opened Format
  import opened FsModel
  import opened FsCommit

  // The bits of the data bitmap that belong to no block are clear, as mkfs writes them.
  predicate PadClear(s: Super, dbm: seq<Word>) {
    forall b {:trigger Get(dbm, b)} :: 0 <= b < WORD_BITS * |dbm| && s.numData <= b ==> !Get(dbm, b)
  }

  // Memory and dirty bitmaps of st cover its differences from l, and inode i is dirty.
  ghost predicate CoversWith(l: Meta, st: State, i: I32) {
    InRange(st, i) && Get(st.dirtyI, i) && Covers(st.s, l, st.m, st.dirtyI, st.dirtyD)
  }

  lemma CoverMark(l: Meta, st: State, i: I32)
    requires InRange(st, i) && Covers(st.s, l, st.m, st.dirtyI, st.dirtyD)
    ensures CoversWith(l, MarkInode(st, i), i)
    ensures forall j :: CoversWith(l, st, j) ==> CoversWith(l, MarkInode(st, i), j)
  {
  }

  lemma CoverInode(l: Meta, st: State, i: I32, ino: Inode)
    requires CoversWith(l, st, i)
    ensures forall j :: CoversWith(l, st, j) ==> CoversWith(l, PutInode(st, i, ino), j)
  {
  }

  lemma CoverBlock(l: Meta, st: State, b: nat)
    requires b < st.s.numData && Covers(st.s, l, st.m, st.dirtyI, st.dirtyD)
    ensures forall j :: CoversWith(l, st, j) ==> CoversWith(l, TakeBlock(st, b), j)
  {
  }

  lemma CoverClaim(l: Meta, st: State, e: I32, kind: I32)
    requires InRange(st, e) && Covers(st.s, l, st.m, st.dirtyI, st.dirtyD)
    ensures CoversWith(l, ClaimInode(st, e, kind), e)
  {
  }

  lemma CoverHole(l: Meta, st: State, p: I32, ent: DirEnt, junk: Junk)
    requires CoversWith(l, st, p) && JunkOK(junk) && |ent.name| < NAME_SIZE
    ensures CoversWith(l, LinkInHole(st, p, ent, junk).st, p)
  {
  }

  lemma CoverNewBlock(l: Meta, st: State, p: I32, ent: DirEnt, b: nat, junk: Junk)
    requires CoversWith(l, st, p) && b < st.s.numData && JunkOK(junk) && |ent.name| < NAME_SIZE
    ensures CoversWith(l, LinkInNewBlock(st, p, ent, b, junk).st, p)
  {
    DataAddrInside(st, b);
    CoverBlock(l, st, b);
    var st1 := TakeBlock(st, b);
    var ino := st.m.inodes[p];
    var k := FirstNone(ino.direct, 0);
    if k < DIRECT_PTRS {
      CoverInode(l, st1, p, ino.(direct := ino.direct[k := DataAddr(st.s, b)]));
    }
  }

  lemma CoverLink(l: Meta, st: State, p: I32, ent: DirEnt, full: bool, b: int, junk: Junk)
    requires InRange(st, p) && -1 <= b < st.s.numData && JunkOK(junk) && |ent.name| < NAME_SIZE
    requires Covers(st.s, l, st.m, st.dirtyI, st.dirtyD)
    ensures CoversWith(l, Link(st, p, ent, full, b, junk).st, p)
  {
    var st1 := MarkInode(st, p);
    CoverMark(l, st, p);
    if !(full && (b == -1 || st.m.inodes[p].size == MAX_SIZE)) {
      if full {
        CoverNewBlock(l, st1, p, ent, b, junk);
      }
      hide Covers, CoversWith;
      var r := if full then LinkInNewBlock(st1, p, ent, b, junk) else LinkInHole(st1, p, ent, junk);
      assert CoversWith(l, r.st, p) by {
        if !full {
          CoverHole(l, st1, p, ent, junk);
        }
      }
      CoverInode(l, r.st, p, Grow(r.st.m.inodes[p], ENTRY_SIZE));
    }
  }

  lemma CoverMakeDir(l: Meta, st: State, e: I32, p: I32, b: nat, junk: Junk)
    requires CoversWith(l, st, e) && b < st.s.numData && JunkOK(junk)
    ensures CoversWith(l, MakeDir(st, e, p, b, junk).st, e)
  {
    DataAddrInside(st, b);
    var ino := st.m.inodes[e];
    var st1 := PutInode(st, e, ino.(size := 2 * ENTRY_SIZE, direct := ino.direct[0 := DataAddr(st.s, b)]));
    CoverInode(l, st, e, st1.m.inodes[e]);
    CoverBlock(l, st1, b);
  }

  lemma CoverPlace(l: Meta, st: State, p: I32, kind: I32, ent: DirEnt, full: bool, b: int, b2: int, junk: Junk)
    requires CoversWith(l, st, ent.inum) && InRange(st, p) && JunkOK(junk) && |ent.name| < NAME_SIZE
    requires -1 <= b < st.s.numData && -1 <= b2 < st.s.numData
    ensures var r := Place(st, p, kind, ent, full, b, b2, junk);
      Covers(r.st.s, l, r.st.m, r.st.dirtyI, r.st.dirtyD)
  {
    if kind != DIRECTORY {
      CoverInode(l, st, ent.inum, st.m.inodes[ent.inum].(size := 0));
      CoverLink(l, PutInode(st, ent.inum, st.m.inodes[ent.inum].(size := 0)), p, ent, full, b, junk);
    } else if !(b == -1 || (full && b2 == -1)) {
      CoverMakeDir(l, st, ent.inum, p, b, junk);
      CoverLink(l, MakeDir(st, ent.inum, p, b, junk).st, p, ent, full, b2, junk);
    }
  }

  lemma CreatCovers(l: Meta, st: State, p: I32, kind: I32, name: Name, junk: Junk)
    requires Covers(st.s, l, st.m, st.dirtyI, st.dirtyD) && JunkOK(junk)
    ensures var r := Creat(st, p, kind, name, junk);
      Covers(r.st.s, l, r.st.m, r.st.dirtyI, r.st.dirtyD)
  {
    hide Covers, Place, Lookup, FullScan;
    var e := FirstClear(st.m.ibm, 0, st.s.numInodes);
    if Allocated(st, p) && |name| <= 27 && e != -1 {
      var st1 := ClaimInode(st, e, kind);
      CoverClaim(l, st, e, kind);
      var scan := FullScan(st1.disk, st1.m.inodes[p].direct, 0);
      CoverPlace(l, st1, p, kind, DirEnt(name, e), scan == Ret(1), FirstClear(st1.m.dbm, 0, st.s.numData),
                 SecondClear(st1.m.dbm, st.s.numData), junk);
      assert Creat(st, p, kind, name, junk).st in {st, st1, CreatClaimed(st1, p, kind, DirEnt(name, e), junk).st};
    }
  }

  // ---------- writing ----------

  lemma CoverRound(l: Meta, st: State, i: I32, k: nat, off: nat, bs: seq<Byte>)
    requires CoversWith(l, st, i) && k < DIRECT_PTRS && off + |bs| <= BLOCK
    ensures CoversWith(l, Attach(st, i, k), i)
    ensures Readable(st.disk, RoundPtr(st, i, k)) ==> CoversWith(l, Round(st, i, k, off, bs), i)
  {
    var ino := st.m.inodes[i];
    var b := FirstClear(st.m.dbm, 0, st.s.numData);
    if ino.direct[k] == NONE && b != -1 {
      DataAddrInside(st, b);
      CoverBlock(l, st, b);
      CoverInode(l, TakeBlock(st, b), i, ino.(direct := ino.direct[k := DataAddr(st.s, b)]));
    }
    var st1 := Attach(st, i, k);
    CoverInode(l, st1, i, Grow(st1.m.inodes[i], |bs|));
  }

  lemma {:induction false} WriteFromCovers(l: Meta, st: State, i: I32, k: nat, off: nat, data: seq<Byte>)
    requires CoversWith(l, st, i) && off < BLOCK
    ensures CoversWith(l, WriteFrom(st, i, k, off, data).st, i)
    decreases |data|
  {
    if k < DIRECT_PTRS && data != [] {
      var n := Chunk(data, off);
      CoverRound(l, st, i, k, off, data[..n]);
      if Readable(st.disk, RoundPtr(st, i, k)) {
        hide CoversWith, Round, Attach;
        WriteFromCovers(l, Round(st, i, k, off, data[..n]), i, k + 1, 0, data[n..]);
      }
    }
  }

  lemma WriteCovers(l: Meta, st: State, i: I32, data: seq<Byte>, offset: I32, nbytes: I32)
    requires Covers(st.s, l, st.m, st.dirtyI, st.dirtyD) && nbytes <= |data|
    ensures var r := Write(st, i, data, offset, nbytes);
      Covers(r.st.s, l, r.st.m, r.st.dirtyI, r.st.dirtyD)
  {
    if Allocated(st, i) && 0 <= offset && 0 < nbytes {
      CoverMark(l, st, i);
      WriteFromCovers(l, MarkInode(st, i), i, offset / BLOCK, offset % BLOCK, data[..nbytes]);
    }
  }
}
