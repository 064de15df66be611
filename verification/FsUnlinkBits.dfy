// Which data bits ufs_unlink clears as coded, and when that is right.

module FsUnlinkBits {
  import opened Bits
  import opened Bytes
  import opened Format
  import opened Tree
  import opened FsModel
  import opened FsInv
  import opened FsCreat
  import opened FsUnlink
  import opened FsUnlinkModel

  // ---------- the code's indices ----------

  // Block b belonged to inode c, or to the one pointer of p that was emptied.
  ghost predicate Gone(s: Super, m: Meta, c: I32, alone: bool, p: I32, l: nat, b: int) {
    OwnedBy(s, m, c, b) || (alone && Owns(s, m, p, l, b))
  }

  // From m to m' inode c and possibly pointer l of p went, and the bits cleared are those of the block
  // addresses, one data region too far on.
  ghost predicate ClearedTooFar(s: Super, m: Meta, m': Meta, c: I32, alone: bool, p: I32, l: nat) {
    && s.numData >= 0 && |m'.dbm| == |m.dbm| == BitmapWords(s.numData)
    && (forall i, k, b {:trigger Owns(s, m', i, k, b)} ::
          Owns(s, m', i, k, b) <==> Owns(s, m, i, k, b) && i != c && !(alone && i == p && k == l))
    && (forall b {:trigger Get(m'.dbm, b)} :: 0 <= b < WORD_BITS * |m.dbm| ==>
          (Get(m'.dbm, b) <==> Get(m.dbm, b) && !Gone(s, m, c, alone, p, l, b - s.dataRegionAddr)))
  }

  // Then the bit of a block that went can only be clear if the block a data region before it went too: some
  // freed block keeps its bit.
  lemma {:induction false} FreedElsewhere(s: Super, m: Meta, m': Meta, c: I32, alone: bool, p: I32, l: nat, b: int)
    requires AllocOK(s, m) && AllocOK(s, m') && s.dataRegionAddr > 0
    requires ClearedTooFar(s, m, m', c, alone, p, l) && Gone(s, m, c, alone, p, l, b)
    ensures false
    decreases b
  {
    var i, k :| Owns(s, m, i, k, b) && (i == c || (alone && i == p && k == l));
    SoleOwnerOf(s, m, i, k, b);
    assert BitRight(s, m', b);
    assert Unowned(s, m', b) by {
      forall j, q
        ensures !Owns(s, m', j, q, b)
      {
        assert Owns(s, m, j, q, b) ==> j == i && q == k;
      }
    }
    assert !OwnedOnce(s, m', b);
    FreedElsewhere(s, m, m', c, alone, p, l, b - s.dataRegionAddr);
  }

  lemma CodeFreesChild(st: State, c: I32) returns (f: Freed)
    requires InRange(st, c) && Live(st.m, c)
    ensures f == Free(st.m.dbm, st.dirtyD, st.m.inodes[c].direct, 0)
    ensures f.Freed? ==> forall b :: 0 <= b < WORD_BITS * |st.m.dbm| ==>
      (Get(f.dbm, b) <==> Get(st.m.dbm, b) && !OwnedBy(st.s, st.m, c, b - st.s.dataRegionAddr))
  {
    var ps := st.m.inodes[c].direct;
    f := Free(st.m.dbm, st.dirtyD, ps, 0);
    FreeClears(st.m.dbm, st.dirtyD, ps, 0);
    forall b: nat
      ensures Freeing(ps, 0, b) <==> OwnedBy(st.s, st.m, c, b - st.s.dataRegionAddr)
    {
      assert Freeing(ps, 0, b) <==> Freeing(ps, st.s.dataRegionAddr, b - st.s.dataRegionAddr);
      ChildBits(st.s, st.m, c, b - st.s.dataRegionAddr);
    }
  }

  lemma CodeFreesBlock(s: Super, m: Meta, dbm: seq<Word>, dirtyD: seq<Word>, p: I32, l: nat) returns (f: Freed)
    requires Live(m, p) && l < DIRECT_PTRS && m.inodes[p].direct[l] != NONE && |dbm| == |dirtyD|
    ensures f == Free(dbm, dirtyD, [m.inodes[p].direct[l]], 0)
    ensures f.Freed? ==> forall b :: 0 <= b < WORD_BITS * |dbm| ==>
      (Get(f.dbm, b) <==> Get(dbm, b) && !Owns(s, m, p, l, b - s.dataRegionAddr))
  {
    var q := m.inodes[p].direct[l];
    f := Free(dbm, dirtyD, [q], 0);
    FreeClears(dbm, dirtyD, [q], 0);
    forall b: nat
      ensures Freeing([q], 0, b) <==> Owns(s, m, p, l, b - s.dataRegionAddr)
    {
      if q == b {
        assert [q][0] == b;
      }
    }
  }

  ghost predicate BlockCleared(s: Super, m: Meta, m': Meta, alone: bool, p: I32, l: nat) {
    |m'.dbm| == |m.dbm| && forall b {:trigger Get(m'.dbm, b)} :: 0 <= b < WORD_BITS * |m.dbm| ==>
      (Get(m'.dbm, b) <==> Get(m.dbm, b) && !(alone && Owns(s, m, p, l, b - s.dataRegionAddr)))
  }

  // The parent's side of an unlink as coded.
  lemma CodeDropsEntry(st: State, es: seq<DirEnt>, p: I32, e: nat, name: Name, junk: Junk) returns (r: Step)
    requires HasEntry(st, es, p, e, name) && JunkOK(junk)
    ensures r == DropEntry(st, p, name, 0, junk) && |es| <= DIRECT_PTRS * ENTRIES
    ensures r.out == Ret(0) ==>
      && r.st.m.ibm == st.m.ibm && r.st.m.inodes == st.m.inodes[p := Shrunk(st.m.inodes[p], |es|, e)]
      && BlockCleared(st.s, st.m, r.st.m, Alone(|es|, e), p, e / ENTRIES)
  {
    r := DropEntryIs(st, es, p, e, name, 0, junk);
    EntryFound(st, es, p, e, name);
    var g := CodeFreesBlock(st.s, st.m, st.m.dbm, st.dirtyD, p, e / ENTRIES);
  }

  lemma ClearedSo(s: Super, m: Meta, m1: Meta, m': Meta, n: nat, p: I32, e: nat, c: I32)
    requires Live(m, c) && Live(m, p) && c != p && e < n <= DIRECT_PTRS * ENTRIES
    requires s.numData >= 0 && |m1.dbm| == |m.dbm| == BitmapWords(s.numData)
    requires m1.ibm == Reset(m.ibm, c) && m1.inodes == m.inodes
    requires forall b :: 0 <= b < WORD_BITS * |m.dbm| ==>
      (Get(m1.dbm, b) <==> Get(m.dbm, b) && !OwnedBy(s, m, c, b - s.dataRegionAddr))
    requires m'.ibm == m1.ibm && m'.inodes == m1.inodes[p := Shrunk(m1.inodes[p], n, e)]
    requires BlockCleared(s, m1, m', Alone(n, e), p, e / ENTRIES)
    ensures ClearedTooFar(s, m, m', c, Alone(n, e), p, e / ENTRIES)
  {
    hide OwnedBy;
    forall i, k, b
      ensures Owns(s, m', i, k, b) <==> Owns(s, m, i, k, b) && i != c && !(Alone(n, e) && i == p && k == e / ENTRIES)
    {
    }
    forall b
      ensures Owns(s, m1, p, e / ENTRIES, b) <==> Owns(s, m, p, e / ENTRIES, b)
    {
    }
  }

  lemma CodeClears(st: State, es: seq<DirEnt>, p: I32, e: nat, name: Name, c: I32, junk: Junk, drop: Step)
    returns (r: Step)
    requires InRange(st, c) && Live(st.m, c) && InRange(st, p) && c != p && JunkOK(junk)
    requires drop == DropChild(st, p, c, 0) && drop.out == Ret(0) && HasEntry(drop.st, es, p, e, name)
    ensures r == DropEntry(drop.st, p, name, 0, junk)
    ensures r.out == Ret(0) ==> ClearedTooFar(st.s, st.m, r.st.m, c, Alone(|es|, e), p, e / ENTRIES)
  {
    r := CodeDropsEntry(drop.st, es, p, e, name, junk);
    var f := CodeFreesChild(st, c);
    if r.out == Ret(0) {
      assert Live(drop.st.m, p) && e < |es|;
      hide DropEntry, Free, HasEntry, OwnedBy, Shrunk, Alone;
      ClearedSo(st.s, st.m, drop.st.m, r.st.m, |es|, p, e, c);
    }
  }

  lemma SomeBlockGone(st: State, es: seq<DirEnt>, p: I32, e: nat, name: Name)
    requires HasEntry(st, es, p, e, name) && InRange(st, es[e].inum) && Live(st.m, es[e].inum)
    requires !FreesNothing(st, es, e)
    ensures exists b :: Gone(st.s, st.m, es[e].inum, Alone(|es|, e), p, e / ENTRIES, b)
  {
    var c, l := es[e].inum, e / ENTRIES;
    EntryFound(st, es, p, e, name);
    if Alone(|es|, e) {
      assert Gone(st.s, st.m, c, true, p, l, st.m.inodes[p].direct[l] - st.s.dataRegionAddr);
    } else {
      var k :| 0 <= k < DIRECT_PTRS && st.m.inodes[c].direct[k] != NONE;
      var b := st.m.inodes[c].direct[k] - st.s.dataRegionAddr;
      assert Owns(st.s, st.m, c, k, b);
      assert Gone(st.s, st.m, c, false, p, l, b);
    }
  }

  // As coded, an unlink keeps the data bitmap right exactly when it frees no block: the child owns none, and
  // its entry is not alone in its block.
  lemma UnlinkAllocIff(st: State, t: Tree, p: I32, e: nat, junk: Junk) returns (r: Step)
    requires Ref(st, t) && TreeOK(t) && Removable(t, p, e) && JunkOK(junk)
    ensures r == Unlink(st, p, t[p].entries[e].name, 0, junk)
    ensures r.out == Ret(0) && AllocOK(st.s, r.st.m) <==> FreesNothing(st, t[p].entries, e)
  {
    var es := t[p].entries;
    var c, name := es[e].inum, es[e].name;
    assert ShowsAt(st.s, st.m, st.disk, t, c);
    var drop := UnlinkIs(st, t, p, e, 0, junk);
    r := Unlink(st, p, name, 0, junk);
    hide Unlink, DropChild, DropEntry, HasEntry, TreeOK, Removable;
    if FreesNothing(st, es, e) {
      var d := DropChildRefines(st, t, p, c, 0);
      var q := DropEntryAlloc(drop.st, es, p, e, name, 0, junk);
    } else if r.out == Ret(0) && AllocOK(st.s, r.st.m) {
      var q := CodeClears(st, es, p, e, name, c, junk, drop);
      SomeBlockGone(st, es, p, e, name);
      var b :| Gone(st.s, st.m, c, Alone(|es|, e), p, e / ENTRIES, b);
      FreedElsewhere(st.s, st.m, r.st.m, c, Alone(|es|, e), p, e / ENTRIES, b);
    }
  }
}
