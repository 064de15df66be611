// The invariants of the file system, over the metadata m and the disk d.

module FsInv {
  import opened Bits
  import opened Bytes
  import opened Format
  import opened Tree
  import opened FsModel

  predicate Sized(s: Super, m: Meta, d: seq<Byte>) {
    && Layout(s, |d|)
    && |m.ibm| == BitmapWords(s.numInodes) && |m.dbm| == BitmapWords(s.numData) && |m.inodes| == s.numInodes
  }

  // ---------- allocation ----------

  // Pointer k of the allocated inode i holds data block b.
  predicate Owns(s: Super, m: Meta, i: I32, k: nat, b: int) {
    && 0 <= i < |m.inodes| && i < WORD_BITS * |m.ibm| && Get(m.ibm, i)
    && k < DIRECT_PTRS && m.inodes[i].direct[k] != NONE
    && m.inodes[i].direct[k] == s.dataRegionAddr + b
  }

  ghost predicate SoleOwner(s: Super, m: Meta, i: I32, k: nat, b: int) {
    && Owns(s, m, i, k, b)
    && forall j, l :: Owns(s, m, j, l, b) ==> j == i && l == k
  }

  // Exactly one pointer of exactly one inode holds block b.
  ghost predicate OwnedOnce(s: Super, m: Meta, b: int) {
    exists i, k :: SoleOwner(s, m, i, k, b)
  }

  ghost predicate Unowned(s: Super, m: Meta, b: int) {
    forall i, k :: !Owns(s, m, i, k, b)
  }

  // Bit b of the data bitmap is right: set for a block owned once, clear for one nobody owns.
  ghost predicate BitRight(s: Super, m: Meta, b: int) {
    0 <= b < s.numData && b < WORD_BITS * |m.dbm| ==>
      if Get(m.dbm, b) then OwnedOnce(s, m, b) else Unowned(s, m, b)
  }

  // No block is shared, none is leaked, and no pointer leads outside the data region.
  ghost predicate AllocOK(s: Super, m: Meta) {
    && (forall b {:trigger BitRight(s, m, b)} :: BitRight(s, m, b))
    && (forall i, k, b {:trigger Owns(s, m, i, k, b)} :: Owns(s, m, i, k, b) ==> 0 <= b < s.numData)
  }

  // ---------- contents ----------

  // The pointers of the blocks that size reaches are set, the others are empty.
  predicate Backed(s: Super, ino: Inode) {
    && 0 <= ino.size <= MAX_SIZE
    && forall k :: 0 <= k < DIRECT_PTRS ==>
      if k * BLOCK < ino.size then s.dataRegionAddr <= ino.direct[k] < s.dataRegionAddr + s.numData
      else ino.direct[k] == NONE
  }

  function EntryAt(d: seq<Byte>, ino: Inode, e: nat): DirEnt {
    if e < DIRECT_PTRS * ENTRIES && Readable(d, ino.direct[e / ENTRIES])
    then EntryIn(PtrBlock(d, ino.direct[e / ENTRIES]), e % ENTRIES)
    else DirEnt([], -1)
  }

  function ByteAt(d: seq<Byte>, ino: Inode, q: nat): Byte {
    if q < MAX_SIZE && Readable(d, ino.direct[q / BLOCK])
    then PtrBlock(d, ino.direct[q / BLOCK])[q % BLOCK]
    else 0
  }

  // The inode holds what the node says, within its size; of a patched file, what is known.
  predicate Holds(s: Super, ino: Inode, d: seq<Byte>, node: Node) {
    match node
    case Dir(es) =>
      && Backed(s, ino) && ino.kind == DIRECTORY && ino.size == ENTRY_SIZE * |es|
      && forall e :: 0 <= e < |es| ==> EntryAt(d, ino, e) == es[e]
    case File(kind, data) =>
      && Backed(s, ino) && ino.kind == kind != DIRECTORY && ino.size == |data|
      && forall q :: 0 <= q < |data| ==> ByteAt(d, ino, q) == data[q]
    case Patched(kind, size, bytes) =>
      && ino.kind == kind != DIRECTORY && ino.size == size && |bytes| <= Reach(size)
      && forall q :: 0 <= q < |bytes| && bytes[q].Is? ==>
           ino.direct[q / BLOCK] != NONE && ByteAt(d, ino, q) == bytes[q].byte
  }

  // The slots of a directory past its size are unused.
  predicate Compact(ino: Inode, d: seq<Byte>) {
    ino.kind == DIRECTORY ==>
      forall e :: 0 <= e < DIRECT_PTRS * ENTRIES && ino.size <= ENTRY_SIZE * e ==> EntryAt(d, ino, e).inum == -1
  }

  predicate Live(m: Meta, i: I32) {
    0 <= i < |m.inodes| && i < WORD_BITS * |m.ibm| && Get(m.ibm, i)
  }

  predicate ShowsAt(s: Super, m: Meta, d: seq<Byte>, t: Tree, i: I32) {
    i in t ==> Live(m, i) && Holds(s, m.inodes[i], d, t[i])
  }

  // What a user sees of (m, d) is the tree t.
  ghost predicate Shows(s: Super, m: Meta, d: seq<Byte>, t: Tree) {
    Sized(s, m, d) && forall i {:trigger ShowsAt(s, m, d, t, i)} :: ShowsAt(s, m, d, t, i)
  }

  // A directory of the tree is compact; an allocated inode outside it (claimed by a creat that then
  // ran out of space) owns nothing.
  predicate TidyAt(m: Meta, d: seq<Byte>, t: Tree, i: I32) {
    Live(m, i) ==> if i in t then Compact(m.inodes[i], d) else m.inodes[i].direct == NoPtrs()
  }

  ghost predicate Refines(s: Super, m: Meta, d: seq<Byte>, t: Tree) {
    && Shows(s, m, d, t)
    && (forall i {:trigger TidyAt(m, d, t, i)} :: TidyAt(m, d, t, i))
    && AllocOK(s, m)
  }

  // ---------- the data bitmap under the two ways it changes ----------

  lemma AllocUnchanged(s: Super, m: Meta, m': Meta)
    requires AllocOK(s, m) && m'.dbm == m.dbm
    requires forall i, k, b :: Owns(s, m', i, k, b) <==> Owns(s, m, i, k, b)
    ensures AllocOK(s, m')
  {
    forall b
      ensures BitRight(s, m', b)
    {
      assert BitRight(s, m, b);
      if OwnedOnce(s, m, b) {
        var i, k :| SoleOwner(s, m, i, k, b);
        assert SoleOwner(s, m', i, k, b);
      }
    }
  }

  // Block c, free before, is now held by pointer l of inode j and marked used.
  lemma AllocTaken(s: Super, m: Meta, m': Meta, j: I32, l: nat, c: nat)
    requires AllocOK(s, m) && c < s.numData && c < WORD_BITS * |m.dbm| && !Get(m.dbm, c)
    requires m'.dbm == Set(m.dbm, c)
    requires forall i, k, b :: Owns(s, m', i, k, b) <==> Owns(s, m, i, k, b) || (i == j && k == l && b == c)
    ensures AllocOK(s, m')
  {
    assert BitRight(s, m, c);
    forall b
      ensures BitRight(s, m', b)
    {
      assert BitRight(s, m, b);
      if b == c {
        assert SoleOwner(s, m', j, l, c);
      } else if OwnedOnce(s, m, b) {
        var i, k :| SoleOwner(s, m, i, k, b);
        assert SoleOwner(s, m', i, k, b);
      }
    }
  }

  // ---------- disk writes and contents ----------

  lemma {:induction false} DataPtr(s: Super, d: seq<Byte>, p: U32)
    requires Layout(s, |d|) && s.dataRegionAddr <= p < s.dataRegionAddr + s.numData
    ensures p != NONE && Ptr(p) == p && Readable(d, p)
  {
  }

  lemma NoneUnreadable(s: Super, d: seq<Byte>)
    requires Layout(s, |d|)
    ensures !Readable(d, NONE)
  {
  }

  ghost predicate SameBlocks(ino: Inode, d: seq<Byte>, d': seq<Byte>) {
    forall k {:trigger ino.direct[k]} :: 0 <= k < DIRECT_PTRS && ino.direct[k] != NONE ==>
      Readable(d, ino.direct[k]) && Readable(d', ino.direct[k])
      && PtrBlock(d', ino.direct[k]) == PtrBlock(d, ino.direct[k])
  }

  // An inode whose blocks are unchanged holds what it held.
  lemma HoldsFrame(s: Super, ino: Inode, d: seq<Byte>, d': seq<Byte>, node: Node)
    requires Layout(s, |d|) && |d'| == |d| && SameBlocks(ino, d, d')
    ensures Holds(s, ino, d', node) == Holds(s, ino, d, node)
    ensures Compact(ino, d') == Compact(ino, d)
  {
    NoneUnreadable(s, d);
    forall e: nat | e < DIRECT_PTRS * ENTRIES
      ensures EntryAt(d', ino, e) == EntryAt(d, ino, e)
    {
    }
    forall q: nat | q < MAX_SIZE
      ensures ByteAt(d', ino, q) == ByteAt(d, ino, q)
    {
    }
  }

  // Address a lies in data block c, with room for n bytes.
  predicate InDataBlock(s: Super, a: int, c: nat, n: nat) {
    c < s.numData && (s.dataRegionAddr + c) * BLOCK <= a && a + n <= (s.dataRegionAddr + c + 1) * BLOCK
  }

  lemma BlockBesideWrite(s: Super, d: seq<Byte>, p: U32, c: nat, a: nat, bs: seq<Byte>)
    requires Layout(s, |d|) && InDataBlock(s, a, c, |bs|) && Readable(d, p) && Ptr(p) != s.dataRegionAddr + c
    ensures a + |bs| <= |d| && PtrBlock(Splice(d, a, bs), p) == PtrBlock(d, p)
  {
    assert Ptr(p) < s.dataRegionAddr + c || s.dataRegionAddr + c + 1 <= Ptr(p);
  }

  // A write into data block c leaves the blocks of an inode that does not own c alone.
  lemma BlocksBesideWrite(s: Super, m: Meta, d: seq<Byte>, i: I32, c: nat, a: nat, bs: seq<Byte>)
    requires Sized(s, m, d) && AllocOK(s, m) && Live(m, i) && InDataBlock(s, a, c, |bs|)
    requires forall k :: !Owns(s, m, i, k, c)
    ensures a + |bs| <= |d|
    ensures SameBlocks(m.inodes[i], d, Splice(d, a, bs))
  {
    var d' := Splice(d, a, bs);
    forall k | 0 <= k < DIRECT_PTRS && m.inodes[i].direct[k] != NONE
      ensures var p := m.inodes[i].direct[k]; Readable(d, p) && Readable(d', p) && PtrBlock(d', p) == PtrBlock(d, p)
    {
      var p := m.inodes[i].direct[k];
      assert Owns(s, m, i, k, p - s.dataRegionAddr);
      DataPtr(s, d, p);
      BlockBesideWrite(s, d, p, c, a, bs);
    }
  }
}
