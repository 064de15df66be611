// ufs_unlink marks what it changes as dirty, so after its commit disk and memory agree, whichever data bits
// it cleared.

module FsUnlinkCover {
  import opened Bits
  import opened Bytes
  import opened Format
  import opened FsModel
  import opened FsCommit
  import opened FsCover
  import opened FsUnlink
  import opened FsUnlinkModel

  // Freeing these pointers clears a bit that belongs to no block and that the loaded bitmap has set.
  predicate Spoils(s: Super, loaded: seq<Word>, ps: seq<U32>, base: nat) {
    exists k :: 0 <= k < |ps| && ps[k] != NONE
                && 0 <= ps[k] - base < WORD_BITS * |loaded| && s.numData <= ps[k] - base && Get(loaded, ps[k] - base)
  }

  lemma ClearOneCovers(s: Super, l: Meta, m: Meta, dirtyI: seq<Word>, dirtyD: seq<Word>, b: nat)
    requires Covers(s, l, m, dirtyI, dirtyD) && b < WORD_BITS * |m.dbm|
    requires !(s.numData <= b && Get(l.dbm, b))
    ensures Covers(s, l, m.(dbm := Reset(m.dbm, b)), dirtyI, Set(dirtyD, b))
  {
    forall i | 0 <= i < WORD_BITS * |m.dbm| && Get(Reset(m.dbm, b), i) != Get(l.dbm, i)
      ensures i < s.numData && Get(Set(dirtyD, b), i)
    {
      assert Get(m.dbm, i) != Get(l.dbm, i) ==> Get(dirtyD, i);
    }
  }

  lemma SpoilsOneMore(s: Super, loaded: seq<Word>, ps: seq<U32>, base: nat)
    requires ps != []
    ensures Spoils(s, loaded, ps, base) <==>
            (ps[0] != NONE && 0 <= ps[0] - base < WORD_BITS * |loaded| && s.numData <= ps[0] - base
             && Get(loaded, ps[0] - base))
            || Spoils(s, loaded, ps[1..], base)
  {
    assert forall k :: 0 < k < |ps| ==> ps[k] == ps[1..][k - 1];
    assert forall k :: 0 <= k < |ps[1..]| ==> ps[1..][k] == ps[k + 1];
  }

  // Clearing bits keeps the differences covered exactly when none of them is a spare bit the disk has set: nothing
  // can mark such a bit.
  lemma {:induction false} FreeCoversIff(s: Super, l: Meta, m: Meta, dirtyI: seq<Word>, dirtyD: seq<Word>,
          ps: seq<U32>, base: nat)
    requires Covers(s, l, m, dirtyI, dirtyD)
    ensures var f := Free(m.dbm, dirtyD, ps, base);
      f.Freed? ==> (Covers(s, l, m.(dbm := f.dbm), dirtyI, f.dirtyD) <==> !Spoils(s, l.dbm, ps, base))
    decreases |ps|
  {
    if ps != [] {
      SpoilsOneMore(s, l.dbm, ps, base);
      if ps[0] == NONE {
        FreeCoversIff(s, l, m, dirtyI, dirtyD, ps[1..], base);
      } else if base <= ps[0] < base + WORD_BITS * |m.dbm| {
        var b := ps[0] - base;
        if s.numData <= b && Get(l.dbm, b) {
          FreeClears(m.dbm, dirtyD, ps, base);
          assert Freeing(ps, base, b);
        } else {
          ClearOneCovers(s, l, m, dirtyI, dirtyD, b);
          FreeCoversIff(s, l, m.(dbm := Reset(m.dbm, b)), dirtyI, Set(dirtyD, b), ps[1..], base);
        }
      }
    }
  }

  lemma FreeCovers(s: Super, l: Meta, m: Meta, dirtyI: seq<Word>, dirtyD: seq<Word>, ps: seq<U32>, base: nat)
    requires Covers(s, l, m, dirtyI, dirtyD) && PadClear(s, l.dbm)
    ensures var f := Free(m.dbm, dirtyD, ps, base);
      f.Freed? ==> Covers(s, l, m.(dbm := f.dbm), dirtyI, f.dirtyD)
  {
    hide Covers, Free;
    FreeCoversIff(s, l, m, dirtyI, dirtyD, ps, base);
  }

  lemma DropChildCovers(l: Meta, st: State, p: I32, c: I32, base: nat)
    requires Covers(st.s, l, st.m, st.dirtyI, st.dirtyD) && PadClear(st.s, l.dbm)
    requires InRange(st, p) && InRange(st, c)
    ensures var r := DropChild(st, p, c, base);
      Covers(st.s, l, r.st.m, r.st.dirtyI, r.st.dirtyD) && (r.out == Ret(0) ==> CoversWith(l, r.st, p))
  {
    FreeCovers(st.s, l, st.m, st.dirtyI, st.dirtyD, st.m.inodes[c].direct, base);
  }

  lemma DropEntryCovers(l: Meta, st: State, p: I32, name: Name, base: nat, junk: Junk)
    requires CoversWith(l, st, p) && PadClear(st.s, l.dbm) && JunkOK(junk)
    ensures var r := DropEntry(st, p, name, base, junk);
      Covers(st.s, l, r.st.m, r.st.dirtyI, r.st.dirtyD)
  {
    hide Free, FindName, LiveCount, EraseWrite;
    var ino := Grow(st.m.inodes[p], -(ENTRY_SIZE as int));
    var st1 := PutInode(st, p, ino);
    CoverInode(l, st, p, ino);
    var f := FindName(st.disk, ino.direct, name, 0);
    if f.Spot? && f.count == 1 {
      FreeCovers(st.s, l, st1.m, st.dirtyI, st.dirtyD, [ino.direct[f.k]], base);
      var g := Free(st.m.dbm, st.dirtyD, [ino.direct[f.k]], base);
      if g.Freed? {
        var st2 := st1.(m := st1.m.(dbm := g.dbm), dirtyD := g.dirtyD);
        CoverInode(l, st2, p, ino.(direct := ino.direct[f.k := NONE]));
      }
    }
  }

  // At every return, whatever the unlink changed in memory has its dirty bit.
  lemma UnlinkCovers(l: Meta, st: State, p: I32, name: Name, base: nat, junk: Junk)
    requires Covers(st.s, l, st.m, st.dirtyI, st.dirtyD) && PadClear(st.s, l.dbm) && JunkOK(junk)
    ensures var r := Unlink(st, p, name, base, junk);
      Covers(st.s, l, r.st.m, r.st.dirtyI, r.st.dirtyD)
  {
    hide DropChild, DropEntry, Covers, PadClear, Lookup;
    match Lookup(st, p, name)
    case Ret(c) =>
      if InRange(st, p) && InRange(st, c) {
        var drop := DropChild(st, p, c, base);
        DropChildCovers(l, st, p, c, base);
        if drop.out == Ret(0) {
          DropEntryCovers(l, drop.st, p, name, base, junk);
        }
      }
    case _ =>
  }

  // The block that an unlink of the name frees on the parent's side, if the entry is alone in it.
  function EntryBlock(st: State, p: I32, name: Name): seq<U32>
    requires InRange(st, p)
  {
    match FindName(st.disk, st.m.inodes[p].direct, name, 0)
    case Spot(k, _, count) => if count == 1 then [st.m.inodes[p].direct[k]] else []
    case _ => []
  }

  lemma MarkBothCovers(s: Super, l: Meta, m: Meta, dirtyI: seq<Word>, dirtyD: seq<Word>, p: I32, c: I32)
    requires 0 <= p < s.numInodes && 0 <= c < s.numInodes
    requires |l.ibm| == |m.ibm| == |dirtyI| && s.numInodes <= WORD_BITS * |dirtyI|
    requires forall i {:trigger m.inodes[i]} ::
      0 <= i < |m.inodes| == |l.inodes| == s.numInodes && m.inodes[i] != l.inodes[i] ==> Get(dirtyI, i)
    requires forall i {:trigger Get(m.ibm, i)} :: 0 <= i < WORD_BITS * |m.ibm| && Get(m.ibm, i) != Get(l.ibm, i) ==>
      i < s.numInodes && Get(dirtyI, i)
    ensures Covers(s, l, m.(ibm := Reset(m.ibm, c)), Set(Set(dirtyI, c), p), dirtyD)
            <==> Covers(s, l, m, dirtyI, dirtyD)
  {
  }

  lemma DropChildCoversIff(l: Meta, st: State, p: I32, c: I32, base: nat)
    requires Covers(st.s, l, st.m, st.dirtyI, st.dirtyD) && InRange(st, p) && InRange(st, c)
    ensures var r := DropChild(st, p, c, base);
      r.out == Ret(0) ==>
        (Covers(st.s, l, r.st.m, r.st.dirtyI, r.st.dirtyD) <==> !Spoils(st.s, l.dbm, st.m.inodes[c].direct, base))
  {
    hide Spoils, Free;
    var ps := st.m.inodes[c].direct;
    FreeCoversIff(st.s, l, st.m, st.dirtyI, st.dirtyD, ps, base);
    var f := Free(st.m.dbm, st.dirtyD, ps, base);
    if f.Freed? {
      MarkBothCovers(st.s, l, st.m.(dbm := f.dbm), st.dirtyI, f.dirtyD, p, c);
    }
  }

  lemma SpoilsNone(s: Super, loaded: seq<Word>, base: nat)
    ensures !Spoils(s, loaded, [], base)
  {
  }

  lemma PutCoversIff(s: Super, l: Meta, m: Meta, dirtyI: seq<Word>, dirtyD: seq<Word>, p: I32, ino: Inode)
    requires 0 <= p < |m.inodes| == |l.inodes| == s.numInodes <= WORD_BITS * |dirtyI| && Get(dirtyI, p)
    ensures Covers(s, l, m.(inodes := m.inodes[p := ino]), dirtyI, dirtyD) <==> Covers(s, l, m, dirtyI, dirtyD)
  {
    var m' := m.(inodes := m.inodes[p := ino]);
    assert forall i :: 0 <= i < |m.inodes| && i != p ==> m'.inodes[i] == m.inodes[i];
  }

  lemma DropEntryCoversIff(l: Meta, st: State, p: I32, name: Name, base: nat, junk: Junk)
    requires CoversWith(l, st, p) && JunkOK(junk)
    ensures var r := DropEntry(st, p, name, base, junk);
      r.out == Ret(0) ==>
        (Covers(st.s, l, r.st.m, r.st.dirtyI, r.st.dirtyD) <==> !Spoils(st.s, l.dbm, EntryBlock(st, p, name), base))
  {
    hide Free, FindName, LiveCount, EraseWrite, Spoils;
    var ino := Grow(st.m.inodes[p], -(ENTRY_SIZE as int));
    var st1 := PutInode(st, p, ino);
    CoverInode(l, st, p, ino);
    SpoilsNone(st.s, l.dbm, base);
    var f := FindName(st.disk, ino.direct, name, 0);
    if f.Spot? && f.count == 1 {
      var ps := [ino.direct[f.k]];
      FreeCoversIff(st.s, l, st1.m, st.dirtyI, st.dirtyD, ps, base);
      var g := Free(st.m.dbm, st.dirtyD, ps, base);
      if g.Freed? {
        PutCoversIff(st.s, l, st1.m.(dbm := g.dbm), st.dirtyI, g.dirtyD, p, ino.(direct := ino.direct[f.k := NONE]));
      }
    }
  }

  // A bit that belongs to no block is set on the disk and clear in memory.
  ghost predicate PadLost(s: Super, l: Meta, m: Meta) {
    |l.dbm| == |m.dbm|
    && exists b :: 0 <= b < WORD_BITS * |m.dbm| && s.numData <= b && Get(l.dbm, b) && !Get(m.dbm, b)
  }

  lemma DropChildLoses(l: Meta, st: State, p: I32, c: I32, base: nat)
    requires InRange(st, p) && InRange(st, c) && |l.dbm| == |st.m.dbm|
    requires Spoils(st.s, l.dbm, st.m.inodes[c].direct, base) && DropChild(st, p, c, base).out == Ret(0)
    ensures PadLost(st.s, l, DropChild(st, p, c, base).st.m)
  {
    var ps := st.m.inodes[c].direct;
    FreeClears(st.m.dbm, st.dirtyD, ps, base);
    var k :| 0 <= k < |ps| && ps[k] != NONE
             && 0 <= ps[k] - base < WORD_BITS * |l.dbm| && st.s.numData <= ps[k] - base && Get(l.dbm, ps[k] - base);
    assert Freeing(ps, base, ps[k] - base);
  }

  lemma DropEntryLoses(l: Meta, st: State, p: I32, name: Name, base: nat, junk: Junk)
    requires InRange(st, p) && JunkOK(junk) && PadLost(st.s, l, st.m)
    ensures PadLost(st.s, l, DropEntry(st, p, name, base, junk).st.m)
  {
    hide FindName, LiveCount, EraseWrite, Freeing;
    var f := FindName(st.disk, st.m.inodes[p].direct, name, 0);
    if f.Spot? {
      FreeClears(st.m.dbm, st.dirtyD, [st.m.inodes[p].direct[f.k]], base);
    }
  }

  lemma SpotAfterDrop(st: State, p: I32, c: I32, base: nat, name: Name)
    requires InRange(st, p) && InRange(st, c) && DropChild(st, p, c, base).out == Ret(0)
    ensures EntryBlock(DropChild(st, p, c, base).st, p, name) == EntryBlock(st, p, name)
    ensures Get(DropChild(st, p, c, base).st.dirtyI, p)
  {
  }

  lemma CoversLengths(s: Super, l: Meta, m: Meta, dirtyI: seq<Word>, dirtyD: seq<Word>)
    requires Covers(s, l, m, dirtyI, dirtyD)
    ensures |l.dbm| == |m.dbm|
  {
  }

  lemma LostUncovered(s: Super, l: Meta, m: Meta, dirtyI: seq<Word>, dirtyD: seq<Word>)
    requires PadLost(s, l, m)
    ensures !Covers(s, l, m, dirtyI, dirtyD)
  {
    var b :| 0 <= b < WORD_BITS * |m.dbm| && s.numData <= b && Get(l.dbm, b) && !Get(m.dbm, b);
    assert Get(m.dbm, b) != Get(l.dbm, b);
  }

  // Whatever the loaded bitmap has in its spare bits: an unlink that returns 0 has all it changed marked exactly
  // when none of the pointers it freed, less the base, is the index of a spare bit that the disk has set.
  lemma UnlinkCoversIff(l: Meta, st: State, p: I32, name: Name, base: nat, junk: Junk) returns (r: Step, c: I32)
    requires Covers(st.s, l, st.m, st.dirtyI, st.dirtyD) && JunkOK(junk)
    ensures r == Unlink(st, p, name, base, junk)
    ensures r.out == Ret(0) ==>
      && InRange(st, p) && InRange(st, c) && Lookup(st, p, name) == Ret(c)
      && (Covers(st.s, l, r.st.m, r.st.dirtyI, r.st.dirtyD) <==>
          !Spoils(st.s, l.dbm, st.m.inodes[c].direct, base) && !Spoils(st.s, l.dbm, EntryBlock(st, p, name), base))
  {
    hide DropChild, DropEntry, Covers, Lookup, Spoils, EntryBlock, PadLost;
    r := Unlink(st, p, name, base, junk);
    c := 0;
    if r.out == Ret(0) {
      c := Lookup(st, p, name).rc;
      var drop := DropChild(st, p, c, base);
      DropChildCoversIff(l, st, p, c, base);
      SpotAfterDrop(st, p, c, base, name);
      if Spoils(st.s, l.dbm, st.m.inodes[c].direct, base) {
        CoversLengths(st.s, l, st.m, st.dirtyI, st.dirtyD);
        DropChildLoses(l, st, p, c, base);
        DropEntryLoses(l, drop.st, p, name, base, junk);
        LostUncovered(st.s, l, r.st.m, r.st.dirtyI, r.st.dirtyD);
      } else {
        DropEntryCoversIff(l, drop.st, p, name, base, junk);
      }
    }
  }
}
