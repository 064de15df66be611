// ufs_unlink: the last entry of a directory and its inode go, and nothing else changes.

module FsUnlink {
  import opened Bits
  import opened Bytes
  import opened Format
  import opened Tree
  import opened FsModel
  import opened FsUnlinkModel
  import opened FsInv
  import opened FsLookup
  import opened FsCreat

  // ---------- which bits are cleared ----------

  predicate Freeing(ps: seq<U32>, base: nat, b: int) {
    exists k :: 0 <= k < |ps| && ps[k] != NONE && ps[k] == base + b
  }

  lemma {:induction false} FreeClears(dbm: seq<Word>, dirtyD: seq<Word>, ps: seq<U32>, base: nat)
    requires |dbm| == |dirtyD|
    ensures var f := Free(dbm, dirtyD, ps, base);
      f.Freed? ==> forall b :: 0 <= b < WORD_BITS * |dbm| ==> Get(f.dbm, b) == (Get(dbm, b) && !Freeing(ps, base, b))
    ensures Free(dbm, dirtyD, ps, base).Freed? <==>
            forall k :: 0 <= k < |ps| && ps[k] != NONE ==> base <= ps[k] < base + WORD_BITS * |dbm|
    decreases |ps|
  {
    if ps != [] {
      var rest := ps[1..];
      forall b
        ensures Freeing(ps, base, b) <==> Freeing(rest, base, b) || (ps[0] != NONE && ps[0] == base + b)
      {
        if Freeing(ps, base, b) {
          var k :| 0 <= k < |ps| && ps[k] != NONE && ps[k] == base + b;
          assert k > 0 ==> rest[k - 1] == ps[k];
        }
        if Freeing(rest, base, b) {
          var k :| 0 <= k < |rest| && rest[k] != NONE && rest[k] == base + b;
          assert ps[k + 1] == rest[k];
        }
      }
      assert forall k :: 0 < k < |ps| ==> ps[k] == rest[k - 1];
      if ps[0] == NONE {
        FreeClears(dbm, dirtyD, rest, base);
      } else if base <= ps[0] < base + WORD_BITS * |dbm| {
        FreeClears(Reset(dbm, ps[0] - base), Set(dirtyD, ps[0] - base), rest, base);
      }
    }
  }

  lemma {:induction false} FreeNothing(dbm: seq<Word>, dirtyD: seq<Word>, ps: seq<U32>, base: nat)
    requires |dbm| == |dirtyD| && forall k :: 0 <= k < |ps| ==> ps[k] == NONE
    ensures Free(dbm, dirtyD, ps, base) == Freed(dbm, dirtyD)
    decreases |ps|
  {
    if ps != [] {
      FreeNothing(dbm, dirtyD, ps[1..], base);
    }
  }

  // ---------- the child's side ----------

  predicate NoBlocks(ino: Inode) {
    forall k :: 0 <= k < DIRECT_PTRS ==> ino.direct[k] == NONE
  }

  ghost predicate OwnedBy(s: Super, m: Meta, c: I32, b: int) {
    exists k :: Owns(s, m, c, k, b)
  }

  lemma ChildBits(s: Super, m: Meta, c: I32, b: int)
    requires Live(m, c) && s.dataRegionAddr >= 0
    ensures Freeing(m.inodes[c].direct, s.dataRegionAddr, b) <==> OwnedBy(s, m, c, b)
  {
    var ps := m.inodes[c].direct;
    if Freeing(ps, s.dataRegionAddr, b) {
      var k: nat :| 0 <= k < |ps| && ps[k] != NONE && ps[k] == s.dataRegionAddr + b;
      assert Owns(s, m, c, k, b);
    }
    if OwnedBy(s, m, c, b) {
      var k: nat :| Owns(s, m, c, k, b);
      assert ps[k] == s.dataRegionAddr + b;
    }
  }

  // What freeing on behalf of inode c does to the data bitmap when indices are relative to the data region,
  // or when there is nothing to free.
  lemma FreeOfOwner(st: State, c: I32, base: nat) returns (f: Freed)
    requires AllocOK(st.s, st.m) && InRange(st, c) && Live(st.m, c)
    requires base == st.s.dataRegionAddr || NoBlocks(st.m.inodes[c])
    ensures f == Free(st.m.dbm, st.dirtyD, st.m.inodes[c].direct, base) && f.Freed?
    ensures forall b :: 0 <= b < WORD_BITS * |st.m.dbm| ==>
      Get(f.dbm, b) == (Get(st.m.dbm, b) && !OwnedBy(st.s, st.m, c, b))
  {
    var ps := st.m.inodes[c].direct;
    f := Free(st.m.dbm, st.dirtyD, ps, base);
    if NoBlocks(st.m.inodes[c]) {
      FreeNothing(st.m.dbm, st.dirtyD, ps, base);
    } else {
      FreeClears(st.m.dbm, st.dirtyD, ps, base);
      forall k | 0 <= k < |ps| && ps[k] != NONE
        ensures base <= ps[k] < base + WORD_BITS * |st.m.dbm|
      {
        DistinctPtrs(st.s, st.m, st.disk, c, k, k);
      }
      forall b | 0 <= b < WORD_BITS * |st.m.dbm|
        ensures Freeing(ps, base, b) <==> OwnedBy(st.s, st.m, c, b)
      {
        ChildBits(st.s, st.m, c, b);
      }
    }
  }

  // Without inode c, and with the bits of its blocks cleared, the data bitmap is right again.
  lemma AllocWithout(s: Super, m: Meta, m': Meta, c: I32)
    requires AllocOK(s, m) && Live(m, c) && |m'.dbm| == |m.dbm|
    requires m'.ibm == Reset(m.ibm, c) && m'.inodes == m.inodes
    requires forall b :: 0 <= b < WORD_BITS * |m.dbm| ==> Get(m'.dbm, b) == (Get(m.dbm, b) && !OwnedBy(s, m, c, b))
    ensures AllocOK(s, m')
  {
    assert forall i, k, b :: Owns(s, m', i, k, b) <==> Owns(s, m, i, k, b) && i != c;
    forall b
      ensures BitRight(s, m', b)
    {
      assert BitRight(s, m, b);
      if 0 <= b < s.numData && b < WORD_BITS * |m.dbm| && Get(m.dbm, b) {
        var i, k :| SoleOwner(s, m, i, k, b);
        if i == c {
          assert OwnedBy(s, m, c, b);
        } else {
          assert !OwnedBy(s, m, c, b);
          assert SoleOwner(s, m', i, k, b);
        }
      }
    }
  }

  lemma DropChildRefines(st: State, t: Tree, p: I32, c: I32, base: nat) returns (r: Step)
    requires Ref(st, t) && InRange(st, p) && c in t && InRange(st, c)
    requires base == st.s.dataRegionAddr || NoBlocks(st.m.inodes[c])
    ensures r == DropChild(st, p, c, base) && r.out == Ret(0)
    ensures r.st.disk == st.disk && r.st.m.inodes == st.m.inodes && r.st.m.ibm == Reset(st.m.ibm, c)
    ensures Ref(r.st, t - {c})
  {
    assert ShowsAt(st.s, st.m, st.disk, t, c);
    r := DropChild(st, p, c, base);
    var f := FreeOfOwner(st, c, base);
    AllocWithout(st.s, st.m, r.st.m, c);
    forall j
      ensures ShowsAt(st.s, r.st.m, st.disk, t - {c}, j)
      ensures TidyAt(r.st.m, st.disk, t - {c}, j)
    {
      assert ShowsAt(st.s, st.m, st.disk, t, j) && TidyAt(st.m, st.disk, t, j);
    }
  }

  // ---------- the parent's side ----------

  // Slot e of the directory is the only live one of that name.
  predicate OnlyNamed(es: seq<DirEnt>, e: nat, name: Name) {
    e < |es| && forall i :: 0 <= i < |es| ==> (es[i].name == name <==> i == e)
  }

  lemma {:induction false} CountLive(blk: seq<Byte>, n: nat, j: nat)
    requires |blk| == BLOCK && j <= ENTRIES && n <= ENTRIES
    requires forall i :: 0 <= i < ENTRIES ==> (EntryIn(blk, i).inum != -1 <==> i < n)
    ensures LiveCount(blk, j) == if n <= j then 0 else n - j
    decreases |blk| - j
  {
    if j < ENTRIES {
      CountLive(blk, n, j + 1);
    }
  }

  // Block k of a compact directory: its live entries are the list's.
  lemma BlockEntries(s: Super, ino: Inode, d: seq<Byte>, es: seq<DirEnt>, k: nat)
    requires Layout(s, |d|) && Holds(s, ino, d, Dir(es)) && Compact(ino, d) && LiveEntries(es)
    requires k < DIRECT_PTRS && k * ENTRIES < |es|
    ensures ino.direct[k] != NONE && Readable(d, ino.direct[k])
    ensures forall j {:trigger EntryIn(PtrBlock(d, ino.direct[k]), j)} :: 0 <= j < ENTRIES ==>
      if j < InBlock(|es|, k) then EntryIn(PtrBlock(d, ino.direct[k]), j) == es[k * ENTRIES + j]
      else EntryIn(PtrBlock(d, ino.direct[k]), j).inum == -1
  {
    DataPtr(s, d, ino.direct[k]);
    forall j | 0 <= j < ENTRIES
      ensures if j < InBlock(|es|, k) then EntryIn(PtrBlock(d, ino.direct[k]), j) == es[k * ENTRIES + j]
              else EntryIn(PtrBlock(d, ino.direct[k]), j).inum == -1
    {
      var e := k * ENTRIES + j;
      assert e / ENTRIES == k && e % ENTRIES == j;
      assert EntryIn(PtrBlock(d, ino.direct[k]), j) == EntryAt(d, ino, e);
    }
  }

  lemma BlockSearch(s: Super, ino: Inode, d: seq<Byte>, es: seq<DirEnt>, e: nat, name: Name, k: nat)
    requires Layout(s, |d|) && Holds(s, ino, d, Dir(es)) && Compact(ino, d) && LiveEntries(es)
    requires OnlyNamed(es, e, name) && k <= e / ENTRIES
    ensures ino.direct[k] != NONE && Readable(d, ino.direct[k])
    ensures LastNamed(PtrBlock(d, ino.direct[k]), name, 0) == if k == e / ENTRIES then e % ENTRIES else -1
    ensures LiveCount(PtrBlock(d, ino.direct[k]), 0) == InBlock(|es|, k)
  {
    BlockEntries(s, ino, d, es, k);
    var blk, n := PtrBlock(d, ino.direct[k]), InBlock(|es|, k);
    hide Holds, Compact, PtrBlock;
    forall j | 0 <= j < ENTRIES
      ensures EntryIn(blk, j).inum != -1 <==> j < n
      ensures j < n ==> (EntryIn(blk, j).name == name <==> k * ENTRIES + j == e)
    {
      if j < n {
        assert es[k * ENTRIES + j] in es;
      }
    }
    CountLive(blk, n, 0);
    var r := LastNamed(blk, name, 0);
    if k == e / ENTRIES {
      assert EntryIn(blk, e % ENTRIES).name == name;
    }
  }

  lemma {:induction false} FindNameAt(s: Super, ino: Inode, d: seq<Byte>, es: seq<DirEnt>, e: nat, name: Name, k: nat)
    requires Layout(s, |d|) && Holds(s, ino, d, Dir(es)) && Compact(ino, d) && LiveEntries(es)
    requires OnlyNamed(es, e, name) && k <= e / ENTRIES
    ensures FindName(d, ino.direct, name, k) == Spot(e / ENTRIES, e % ENTRIES, InBlock(|es|, e / ENTRIES))
    decreases e / ENTRIES - k
  {
    BlockSearch(s, ino, d, es, e, name, k);
    if k < e / ENTRIES {
      FindNameAt(s, ino, d, es, e, name, k + 1);
    }
  }

  // Entry e is alone in its block.
  predicate Alone(n: nat, e: nat) {
    InBlock(n, e / ENTRIES) == 1
  }

  // The parent's inode afterwards.
  function Shrunk(ino: Inode, n: nat, e: nat): Inode
    requires e < n <= DIRECT_PTRS * ENTRIES
  {
    var less := Grow(ino, -(ENTRY_SIZE as int));
    if Alone(n, e) then less.(direct := less.direct[e / ENTRIES := NONE]) else less
  }

  // Inode p holds the entries es, compactly, and slot e is the only one of that name.
  ghost predicate HasEntry(st: State, es: seq<DirEnt>, p: I32, e: nat, name: Name) {
    && InRange(st, p) && Live(st.m, p)
    && Holds(st.s, st.m.inodes[p], st.disk, Dir(es)) && Compact(st.m.inodes[p], st.disk)
    && LiveEntries(es) && OnlyNamed(es, e, name)
  }

  lemma EntryFound(st: State, es: seq<DirEnt>, p: I32, e: nat, name: Name)
    requires HasEntry(st, es, p, e, name)
    ensures |es| <= DIRECT_PTRS * ENTRIES && st.m.inodes[p].direct[e / ENTRIES] != NONE
    ensures FindName(st.disk, st.m.inodes[p].direct, name, 0)
            == Spot(e / ENTRIES, e % ENTRIES, InBlock(|es|, e / ENTRIES))
  {
    FindNameAt(st.s, st.m.inodes[p], st.disk, es, e, name, 0);
    BlockSearch(st.s, st.m.inodes[p], st.disk, es, e, name, e / ENTRIES);
  }

  // DropEntry written out, in its two cases.
  lemma DropEntryIs(st: State, es: seq<DirEnt>, p: I32, e: nat, name: Name, base: nat, junk: Junk) returns (r: Step)
    requires HasEntry(st, es, p, e, name) && JunkOK(junk)
    ensures r == DropEntry(st, p, name, base, junk)
    ensures |es| <= DIRECT_PTRS * ENTRIES && Readable(st.disk, st.m.inodes[p].direct[e / ENTRIES])
    ensures !Alone(|es|, e) ==>
      && r.out == Ret(0)
      && r.st.m == st.m.(inodes := st.m.inodes[p := Shrunk(st.m.inodes[p], |es|, e)])
      && r.pre == [EraseWrite(st.disk, st.m.inodes[p].direct[e / ENTRIES], e % ENTRIES, junk)]
    ensures Alone(|es|, e) ==>
      && r.pre == []
      && (r.out == Ret(0) <==> Free(st.m.dbm, st.dirtyD, [st.m.inodes[p].direct[e / ENTRIES]], base).Freed?)
      && (r.out == Ret(0) ==>
            r.st.m == Meta(st.m.ibm, Free(st.m.dbm, st.dirtyD, [st.m.inodes[p].direct[e / ENTRIES]], base).dbm,
                           st.m.inodes[p := Shrunk(st.m.inodes[p], |es|, e)]))
  {
    hide FindName, Free;
    EntryFound(st, es, p, e, name);
    r := DropEntry(st, p, name, base, junk);
  }

  // ---------- the data bitmap after the parent's side ----------

  // Pointer l of inode j, which held block c, was emptied and bit c cleared.
  lemma AllocReleased(s: Super, m: Meta, m': Meta, j: I32, l: nat, c: nat)
    requires AllocOK(s, m) && SoleOwner(s, m, j, l, c) && c < WORD_BITS * |m.dbm| && m'.dbm == Reset(m.dbm, c)
    requires forall i, k, b :: Owns(s, m', i, k, b) <==> Owns(s, m, i, k, b) && !(i == j && k == l)
    ensures AllocOK(s, m')
  {
    forall b
      ensures BitRight(s, m', b)
    {
      assert BitRight(s, m, b);
      if b == c {
        forall i, k
          ensures !Owns(s, m', i, k, b)
        {
          assert Owns(s, m, i, k, b) ==> i == j && k == l;
        }
      } else if OwnedOnce(s, m, b) {
        var i, k :| SoleOwner(s, m, i, k, b);
        assert !(i == j && k == l) by {
          assert Owns(s, m, j, l, c);
        }
        assert SoleOwner(s, m', i, k, b);
      }
    }
  }

  lemma FreeOne(dbm: seq<Word>, dirtyD: seq<Word>, q: U32, base: nat)
    requires |dbm| == |dirtyD| && q != NONE && base <= q < base + WORD_BITS * |dbm|
    ensures Free(dbm, dirtyD, [q], base).Freed? && Free(dbm, dirtyD, [q], base).dbm == Reset(dbm, q - base)
  {
    assert [q][1..] == [];
  }

  lemma ShrunkOwns(s: Super, m: Meta, m': Meta, p: I32, n: nat, e: nat, i: I32, k: nat, b: int)
    requires Live(m, p) && e < n <= DIRECT_PTRS * ENTRIES
    requires m'.ibm == m.ibm && m'.inodes == m.inodes[p := Shrunk(m.inodes[p], n, e)]
    ensures Owns(s, m', i, k, b) <==> Owns(s, m, i, k, b) && !(Alone(n, e) && i == p && k == e / ENTRIES)
  {
  }

  lemma DropEntryAlloc(st: State, es: seq<DirEnt>, p: I32, e: nat, name: Name, base: nat, junk: Junk) returns (r: Step)
    requires HasEntry(st, es, p, e, name) && JunkOK(junk) && AllocOK(st.s, st.m)
    requires base == st.s.dataRegionAddr || !Alone(|es|, e)
    ensures r == DropEntry(st, p, name, base, junk) && r.out == Ret(0) && AllocOK(st.s, r.st.m)
  {
    hide Holds, Compact, DropEntry, FindName, Owns, AllocOK, Alone;
    r := DropEntryIs(st, es, p, e, name, base, junk);
    EntryFound(st, es, p, e, name);
    var l := e / ENTRIES;
    var q := st.m.inodes[p].direct[l];
    if Alone(|es|, e) {
      OwnBlockAddr(st.s, st.m, st.disk, p, l, 0, 0);
      FreeOne(st.m.dbm, st.dirtyD, q, base);
    }
    forall i, k, b
      ensures Owns(st.s, r.st.m, i, k, b) <==> Owns(st.s, st.m, i, k, b) && !(Alone(|es|, e) && i == p && k == l)
    {
      ShrunkOwns(st.s, st.m, r.st.m, p, |es|, e, i, k, b);
    }
    if Alone(|es|, e) {
      AllocReleased(st.s, st.m, r.st.m, p, l, q - base);
    } else {
      AllocUnchanged(st.s, st.m, r.st.m);
    }
  }

  // ---------- removing the last entry ----------

  lemma ShrunkHolds(s: Super, ino: Inode, d: seq<Byte>, d': seq<Byte>, es: seq<DirEnt>)
    requires Layout(s, |d|) && |d'| == |d| && 0 < |es| <= DIRECT_PTRS * ENTRIES
    requires Holds(s, ino, d, Dir(es)) && Compact(ino, d)
    requires forall e: nat :: e < |es| - 1 ==> EntryAt(d', ino, e) == EntryAt(d, ino, e)
    requires !Alone(|es|, |es| - 1) ==> EntryAt(d', ino, |es| - 1).inum == -1
    requires forall e: nat :: |es| <= e < DIRECT_PTRS * ENTRIES ==> EntryAt(d', ino, e) == EntryAt(d, ino, e)
    ensures Holds(s, Shrunk(ino, |es|, |es| - 1), d', Dir(es[..|es| - 1]))
    ensures Compact(Shrunk(ino, |es|, |es| - 1), d')
  {
    var n := |es| - 1;
    var ino' := Shrunk(ino, |es|, n);
    assert ino'.size == ENTRY_SIZE * n;
    NoneUnreadable(s, d');
    forall e: nat | e < DIRECT_PTRS * ENTRIES
      ensures EntryAt(d', ino', e) == if Alone(|es|, n) && e / ENTRIES == n / ENTRIES then DirEnt([], -1)
              else EntryAt(d', ino, e)
    {
    }
    if Alone(|es|, n) {
      assert n % ENTRIES == 0;
    }
  }

  lemma OthersKeptSame(st: State, m': Meta, p: I32)
    requires AllocOK(st.s, st.m) && InRange(st, p) && m'.ibm == st.m.ibm
    requires |m'.inodes| == |st.m.inodes| && m'.inodes == st.m.inodes[p := m'.inodes[p]]
    ensures OthersKept(st.m, st.disk, m', st.disk, p)
  {
    forall j: I32 | j != p && Live(st.m, j)
      ensures SameBlocks(st.m.inodes[j], st.disk, st.disk)
    {
      OwnBlocksReadable(st.s, st.m, st.disk, j);
    }
  }

  lemma ErasedSlot(st: State, st': State, p: I32, e: nat, junk: Junk)
    requires AllocOK(st.s, st.m) && InRange(st, p) && Live(st.m, p) && e < DIRECT_PTRS * ENTRIES && JunkOK(junk)
    requires st.m.inodes[p].direct[e / ENTRIES] != NONE && Readable(st.disk, st.m.inodes[p].direct[e / ENTRIES])
    requires st'.s == st.s && st'.m.ibm == st.m.ibm && st'.m.inodes == st.m.inodes[p := st'.m.inodes[p]]
    requires st'.disk == Apply(st.disk, [EraseWrite(st.disk, st.m.inodes[p].direct[e / ENTRIES], e % ENTRIES, junk)])
    ensures OthersKept(st.m, st.disk, st'.m, st'.disk, p)
    ensures EntryAt(st'.disk, st.m.inodes[p], e).inum == -1
    ensures forall i: nat :: i < DIRECT_PTRS * ENTRIES && i != e ==>
      EntryAt(st'.disk, st.m.inodes[p], i) == EntryAt(st.disk, st.m.inodes[p], i)
  {
    var k, j := e / ENTRIES, e % ENTRIES;
    var bs := EncodeUnused(junk.ent);
    var w := EraseWrite(st.disk, st.m.inodes[p].direct[k], j, junk);
    ApplyOne(st.disk, [], w);
    assert [] + [w] == [w];
    WriteOwnBlock(st, st'.m, p, k, ENTRY_SIZE * j, bs);
    UnusedRoundTrip(junk.ent);
    assert k * ENTRIES + j == e;
    hide OthersKept, Splice, AllocOK, EncodeUnused, OtherBlocksSame, PtrBlock;
    forall i: nat | i < DIRECT_PTRS * ENTRIES
      ensures EntryAt(st'.disk, st.m.inodes[p], i) == if i == e then DecodeEntry(bs)
              else EntryAt(st.disk, st.m.inodes[p], i)
    {
      HoleEntry(st.s, st.m.inodes[p], st.disk, st'.disk, k, j, bs, i);
    }
  }

  lemma EntryHolds(st: State, es: seq<DirEnt>, p: I32, e: nat, name: Name)
    requires HasEntry(st, es, p, e, name)
    ensures InRange(st, p) && Live(st.m, p)
    ensures Holds(st.s, st.m.inodes[p], st.disk, Dir(es)) && Compact(st.m.inodes[p], st.disk)
  {
  }

  lemma ShrunkKind(ino: Inode, n: nat, e: nat)
    requires e < n <= DIRECT_PTRS * ENTRIES
    ensures Shrunk(ino, n, e).kind == ino.kind
  {
  }

  lemma DropLastEntry(st: State, t: Tree, p: I32, name: Name, base: nat, junk: Junk) returns (r: Step)
    requires Ref(st, t) && IsDir(t, p) && t[p].entries != [] && JunkOK(junk)
    requires HasEntry(st, t[p].entries, p, |t[p].entries| - 1, name)
    requires base == st.s.dataRegionAddr || !Alone(|t[p].entries|, |t[p].entries| - 1)
    ensures r == DropEntry(st, p, name, base, junk) && r.out == Ret(0)
    ensures Ref(r.st, t[p := Dir(t[p].entries[..|t[p].entries| - 1])])
    ensures r.st.m.ibm == st.m.ibm && r.st.m.inodes == st.m.inodes[p := r.st.m.inodes[p]]
  {
    hide Holds, Compact, DropEntry, AllocOK, FindName, HasEntry, Shows, Free, Shrunk;
    var es, e := t[p].entries, |t[p].entries| - 1;
    EntryHolds(st, es, p, e, name);
    var ino := st.m.inodes[p];
    r := DropEntryAlloc(st, es, p, e, name, base, junk);
    var r' := DropEntryIs(st, es, p, e, name, base, junk);
    EntryFound(st, es, p, e, name);
    ShrunkKind(ino, |es|, e);
    if Alone(|es|, e) {
      assert r.st.disk == st.disk;
      OthersKeptSame(st, r.st.m, p);
    } else {
      ErasedSlot(st, r.st, p, e, junk);
    }
    ShrunkHolds(st.s, ino, st.disk, r.st.disk, es);
    ChangeOne(st.s, st.m, st.disk, r.st.m, r.st.disk, t, p, Dir(es[..e]));
  }

  // ---------- the whole call ----------

  function Last(t: Tree, p: I32): DirEnt
    requires IsDir(t, p) && t[p].entries != []
  {
    t[p].entries[|t[p].entries| - 1]
  }

  // Entry e of directory p is neither "." nor "..", and leads to a file or an empty directory.
  predicate Removable(t: Tree, p: I32, e: nat) {
    && IsDir(t, p) && 2 <= e < |t[p].entries|
    && t[p].entries[e].inum in t
    && (t[t[p].entries[e].inum].Dir? ==> |t[t[p].entries[e].inum].entries| == 2)
  }

  // The checks of ufs_unlink.
  predicate CanUnlink(t: Tree, p: I32, name: Name) {
    && IsDir(t, p) && name != DotName() && name != DotDotName() && Find(t[p].entries, name) != -1
    && (IsDir(t, Find(t[p].entries, name)) ==> |t[Find(t[p].entries, name)].entries| == 2)
  }

  lemma {:induction false} FindAt(es: seq<DirEnt>, e: nat)
    requires e < |es| && OnlyNamed(es, e, es[e].name)
    ensures Find(es, es[e].name) == es[e].inum
    decreases |es|
  {
    if e > 0 {
      assert es[0].name != es[e].name;
      FindAt(es[1..], e - 1);
    }
  }

  lemma EntryNamed(t: Tree, p: I32, e: nat)
    requires TreeOK(t) && IsDir(t, p) && 2 <= e < |t[p].entries|
    ensures OnlyNamed(t[p].entries, e, t[p].entries[e].name) && LiveEntries(t[p].entries)
    ensures t[p].entries[e].name != DotName() && t[p].entries[e].name != DotDotName()
    ensures Find(t[p].entries, t[p].entries[e].name) == t[p].entries[e].inum
  {
    EntriesAreLive(t, p);
    assert DirShape(t, p);
    FindAt(t[p].entries, e);
  }

  // Entry e of directory p is its only one of that name, which is neither "." nor "..", and leads to another
  // inode: a file, or a directory of two entries.
  ghost predicate Detachable(u: Tree, p: I32, e: nat) {
    && IsDir(u, p) && LiveEntries(u[p].entries)
    && e < |u[p].entries| && OnlyNamed(u[p].entries, e, u[p].entries[e].name)
    && u[p].entries[e].name != DotName() && u[p].entries[e].name != DotDotName()
    && u[p].entries[e].inum in u && u[p].entries[e].inum != p
    && (u[u[p].entries[e].inum].Dir? ==> |u[u[p].entries[e].inum].entries| == 2)
  }

  lemma RemovableIsDetachable(t: Tree, p: I32, e: nat)
    requires TreeOK(t) && Removable(t, p, e)
    ensures Detachable(t, p, e)
  {
    EntryNamed(t, p, e);
  }

  lemma DetachableFacts(st: State, u: Tree, p: I32, e: nat)
    requires Ref(st, u) && Detachable(u, p, e)
    ensures var c, name := u[p].entries[e].inum, u[p].entries[e].name;
      && Allocated(st, p) && InRange(st, c) && c != p && name != DotName() && name != DotDotName()
      && Lookup(st, p, name) == Ret(c)
      && (st.m.inodes[c].kind == DIRECTORY ==> st.m.inodes[c].size == 2 * ENTRY_SIZE)
      && HasEntry(st, u[p].entries, p, e, name)
  {
    hide Lookup, Compact, OnlyNamed, AllocOK;
    var c, name := u[p].entries[e].inum, u[p].entries[e].name;
    FindAt(u[p].entries, e);
    assert ShowsAt(st.s, st.m, st.disk, u, p) && ShowsAt(st.s, st.m, st.disk, u, c);
    assert TidyAt(st.m, st.disk, u, p);
    LookupFinds(st, u, p, name);
  }

  // The checks of ufs_unlink, and its two parts.
  lemma DetachIs(st: State, u: Tree, p: I32, e: nat, base: nat, junk: Junk) returns (drop: Step)
    requires Ref(st, u) && Detachable(u, p, e) && JunkOK(junk)
    ensures InRange(st, p) && InRange(st, u[p].entries[e].inum) && u[p].entries[e].inum != p
    ensures drop == DropChild(st, p, u[p].entries[e].inum, base)
    ensures Unlink(st, p, u[p].entries[e].name, base, junk) ==
            if drop.out != Ret(0) then drop else DropEntry(drop.st, p, u[p].entries[e].name, base, junk)
    ensures HasEntry(st, u[p].entries, p, e, u[p].entries[e].name)
    ensures drop.out == Ret(0) ==> HasEntry(drop.st, u[p].entries, p, e, u[p].entries[e].name)
  {
    hide Lookup, DropEntry, Free, Holds, Compact, OnlyNamed, Refines;
    DetachableFacts(st, u, p, e);
    drop := DropChild(st, p, u[p].entries[e].inum, base);
  }

  lemma UnlinkIs(st: State, t: Tree, p: I32, e: nat, base: nat, junk: Junk) returns (drop: Step)
    requires Ref(st, t) && TreeOK(t) && Removable(t, p, e) && JunkOK(junk)
    ensures InRange(st, p) && InRange(st, t[p].entries[e].inum) && t[p].entries[e].inum != p
    ensures drop == DropChild(st, p, t[p].entries[e].inum, base)
    ensures Unlink(st, p, t[p].entries[e].name, base, junk) ==
            if drop.out != Ret(0) then drop else DropEntry(drop.st, p, t[p].entries[e].name, base, junk)
    ensures HasEntry(st, t[p].entries, p, e, t[p].entries[e].name)
    ensures drop.out == Ret(0) ==> HasEntry(drop.st, t[p].entries, p, e, t[p].entries[e].name)
  {
    hide Unlink, DropChild, DropEntry, HasEntry, Refines, TreeOK, Detachable;
    RemovableIsDetachable(t, p, e);
    drop := DetachIs(st, t, p, e, base, junk);
  }

  predicate FreesNothing(st: State, es: seq<DirEnt>, e: nat) {
    e < |es| && InRange(st, es[e].inum) && NoBlocks(st.m.inodes[es[e].inum]) && !Alone(|es|, e)
  }

  // Data bits are indexed as allocation indexes them, or unlinking entry e leaves no block to free.
  predicate FreesRight(st: State, es: seq<DirEnt>, e: nat, base: nat) {
    base == st.s.dataRegionAddr || FreesNothing(st, es, e)
  }

  lemma BothParts(st: State, t: Tree, p: I32, es: seq<DirEnt>, base: nat, junk: Junk, drop: Step) returns (r: Step)
    requires Ref(st, t) && IsDir(t, p) && es == t[p].entries && es != [] && JunkOK(junk)
    requires InRange(st, p) && InRange(st, es[|es| - 1].inum) && es[|es| - 1].inum != p && es[|es| - 1].inum in t
    requires FreesRight(st, es, |es| - 1, base)
    requires drop == DropChild(st, p, es[|es| - 1].inum, base)
    requires drop.out == Ret(0) ==> HasEntry(drop.st, es, p, |es| - 1, es[|es| - 1].name)
    ensures drop.out == Ret(0)
    ensures r == DropEntry(drop.st, p, es[|es| - 1].name, base, junk) && r.out == Ret(0) && Ref(r.st, DropLast(t, p))
    ensures r.st.m.ibm == Reset(st.m.ibm, es[|es| - 1].inum)
    ensures r.st.m.inodes == st.m.inodes[p := r.st.m.inodes[p]]
  {
    hide DropEntry, HasEntry, DropChild, Ref;
    var c := es[|es| - 1].inum;
    var d := DropChildRefines(st, t, p, c, base);
    r := DropLastEntry(drop.st, t - {c}, p, es[|es| - 1].name, base, junk);
    assert (t - {c})[p := Dir(es[..|es| - 1])] == DropLast(t, p);
  }

  // Removing the last entry of a directory that some nodes are shown for: the entry and its inode go.
  lemma DetachLast(st: State, u: Tree, p: I32, base: nat, junk: Junk) returns (r: Step)
    requires Ref(st, u) && IsDir(u, p) && u[p].entries != [] && JunkOK(junk)
    requires Detachable(u, p, |u[p].entries| - 1) && FreesRight(st, u[p].entries, |u[p].entries| - 1, base)
    ensures r == Unlink(st, p, Last(u, p).name, base, junk) && r.out == Ret(0)
    ensures Ref(r.st, DropLast(u, p))
    ensures InRange(st, p) && InRange(st, Last(u, p).inum) && r.st.m.ibm == Reset(st.m.ibm, Last(u, p).inum)
    ensures r.st.m.inodes == st.m.inodes[p := r.st.m.inodes[p]]
  {
    hide Ref, Unlink, DropEntry, HasEntry, DropLast, DropChild, FreesRight;
    var es := u[p].entries;
    var drop := DetachIs(st, u, p, |es| - 1, base, junk);
    r := BothParts(st, u, p, es, base, junk, drop);
  }

  // Removing the last entry of a directory takes it and its inode out of the tree and changes nothing else:
  // always when data bits are indexed as allocation indexes them, and with the code's indices when there is
  // no block to free.
  lemma UnlinkLast(st: State, t: Tree, p: I32, base: nat, junk: Junk) returns (r: Step)
    requires Ref(st, t) && TreeOK(t) && IsDir(t, p) && t[p].entries != [] && JunkOK(junk)
    requires Removable(t, p, |t[p].entries| - 1) && FreesRight(st, t[p].entries, |t[p].entries| - 1, base)
    ensures r == Unlink(st, p, Last(t, p).name, base, junk) && r.out == Ret(0)
    ensures Ref(r.st, DropLast(t, p)) && TreeOK(DropLast(t, p))
  {
    hide Ref, Unlink, TreeOK, DropLast, Detachable, FreesRight;
    var e := |t[p].entries| - 1;
    RemovableIsDetachable(t, p, e);
    DropLastKeepsTree(t, p, t[p].entries[e].inum);
    r := DetachLast(st, t, p, base, junk);
  }
}
