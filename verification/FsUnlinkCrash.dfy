// Stopping an unlink before its commit.

module FsUnlinkCrash {
  import opened Bytes
  import opened Format
  import opened Tree
  import opened FsModel
  import opened FsInv
  import opened FsCreat
  import opened FsCrash
  import opened FsUnlink
  import opened FsUnlinkModel

  lemma EraseSeen(st: State, es: seq<DirEnt>, p: I32, e: nat, junk: Junk)
    requires AllocOK(st.s, st.m) && InRange(st, p) && Live(st.m, p) && JunkOK(junk)
    requires Holds(st.s, st.m.inodes[p], st.disk, Dir(es)) && e < |es|
    ensures |es| <= DIRECT_PTRS * ENTRIES && Readable(st.disk, st.m.inodes[p].direct[e / ENTRIES])
    ensures !Hidden(st.s, st.m, EraseWrite(st.disk, st.m.inodes[p].direct[e / ENTRIES], e % ENTRIES, junk))
  {
    hide AllocOK;
    var k, off := e / ENTRIES, ENTRY_SIZE * (e % ENTRIES);
    assert k * BLOCK + off == ENTRY_SIZE * e;
    var q := st.m.inodes[p].direct[k];
    DistinctPtrs(st.s, st.m, st.disk, p, k, k);
    var b := q - st.s.dataRegionAddr;
    assert Seen(st.s, st.m, p, k, b, off);
    assert Hits(EraseWrite(st.disk, q, e % ENTRIES, junk), (st.s.dataRegionAddr + b) * BLOCK + off);
  }

  // An unlink that returns 0 is harmless to stop before its commit exactly when the entry was alone in its block:
  // otherwise the entry is erased on the disk while the inode and the old size still stand.
  lemma UnlinkHiddenIff(st: State, t: Tree, p: I32, e: nat, base: nat, junk: Junk) returns (r: Step)
    requires Ref(st, t) && TreeOK(t) && Removable(t, p, e) && JunkOK(junk)
    ensures r == Unlink(st, p, t[p].entries[e].name, base, junk)
    ensures r.out == Ret(0) ==> (AllHidden(st.s, st.m, r.pre) <==> Alone(|t[p].entries|, e))
  {
    hide Unlink, DropEntry, TreeOK, Free, Hidden, AllocOK, Compact, Alone;
    var es := t[p].entries;
    assert ShowsAt(st.s, st.m, st.disk, t, p);
    var drop := UnlinkIs(st, t, p, e, base, junk);
    r := Unlink(st, p, es[e].name, base, junk);
    if r.out == Ret(0) {
      var q := DropEntryIs(drop.st, es, p, e, es[e].name, base, junk);
      EraseSeen(st, es, p, e, junk);
      assert !Alone(|es|, e) ==> r.pre[0] in r.pre;
    }
  }
}
