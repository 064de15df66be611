// The on-disk format: superblock, inodes and directory entries, and the metadata a mount loads.

module Format {
  import opened Bits
  import opened Bytes

  const DIRECT_PTRS: nat := 30
  const INODE_SIZE: nat := 128
  const ENTRY_SIZE: nat := 32
  const ENTRIES: nat := 128    // directory entries per block
  const NAME_SIZE: nat := 28   // including the terminating NUL
  const NONE: U32 := 0xFFFF_FFFF
  const DIRECTORY: I32 := 0
  const REGULAR_FILE: I32 := 1
  const MAX_SIZE: I32 := DIRECT_PTRS * BLOCK

  // ---------- inodes ----------

  datatype RawInode = RawInode(kind: I32, size: I32, direct: seq<U32>)

  type Inode = i: RawInode | |i.direct| == DIRECT_PTRS
    witness RawInode(0, 0, seq(DIRECT_PTRS, _ => 0))

  function NoPtrs(): (r: seq<U32>)
    ensures |r| == DIRECT_PTRS
  {
    seq(DIRECT_PTRS, _ => NONE)
  }

  function EncodePtrs(ps: seq<U32>): (bs: seq<Byte>)
    ensures |bs| == 4 * |ps|
  {
    seq(4 * |ps|, k requires 0 <= k < 4 * |ps| => Le32(ps[k / 4])[k % 4])
  }

  lemma PtrAt(ps: seq<U32>, k: nat)
    requires k < |ps|
    ensures EncodePtrs(ps)[4 * k..4 * k + 4] == Le32(ps[k])
    ensures FromLe32(EncodePtrs(ps)[4 * k..4 * k + 4]) == ps[k]
  {
    var bs := EncodePtrs(ps);
    forall b | 0 <= b < 4
      ensures bs[4 * k + b] == Le32(ps[k])[b]
    {
      assert (4 * k + b) / 4 == k && (4 * k + b) % 4 == b;
    }
    assert bs[4 * k..4 * k + 4] == Le32(ps[k]);
    Le32RoundTrip(ps[k]);
  }

  function EncodeInode(i: Inode): (bs: seq<Byte>)
    ensures |bs| == INODE_SIZE
  {
    Le32(Unsigned(i.kind)) + Le32(Unsigned(i.size)) + EncodePtrs(i.direct)
  }

  function DecodeInode(bs: seq<Byte>): Inode
    requires |bs| == INODE_SIZE
  {
    RawInode(Signed(FromLe32(bs[..4])), Signed(FromLe32(bs[4..8])),
             seq(DIRECT_PTRS, k requires 0 <= k < DIRECT_PTRS => FromLe32(bs[8 + 4 * k..12 + 4 * k])))
  }

  lemma SignedRoundTrip(x: I32)
    ensures Signed(Unsigned(x)) == x
  {
  }

  lemma InodeRoundTrip(i: Inode)
    ensures DecodeInode(EncodeInode(i)) == i
  {
    hide EncodePtrs, Le32, FromLe32, Signed, Unsigned;
    var bs := EncodeInode(i);
    assert bs[..4] == Le32(Unsigned(i.kind)) && bs[4..8] == Le32(Unsigned(i.size));
    Le32RoundTrip(Unsigned(i.kind));
    Le32RoundTrip(Unsigned(i.size));
    SignedRoundTrip(i.kind);
    SignedRoundTrip(i.size);
    forall k | 0 <= k < DIRECT_PTRS
      ensures FromLe32(bs[8 + 4 * k..12 + 4 * k]) == i.direct[k]
    {
      PtrAt(i.direct, k);
      assert bs[8 + 4 * k..12 + 4 * k] == EncodePtrs(i.direct)[4 * k..4 * k + 4];
    }
  }

  // ---------- directory entries ----------

  // A C string, without its terminating NUL.
  type Name = s: seq<Byte> | 0 !in s

  datatype DirEnt = DirEnt(name: Name, inum: I32)

  function DotName(): Name { [46] }

  function DotDotName(): Name { [46, 46] }

  // The bytes before the first NUL.
  function CString(bs: seq<Byte>): Name {
    if bs == [] || bs[0] == 0 then [] else [bs[0]] + CString(bs[1..])
  }

  lemma {:induction false} CStringOf(name: Name, rest: seq<Byte>)
    ensures CString(name + [0] + rest) == name
  {
    var bs := name + [0] + rest;
    if name == [] {
      assert bs[0] == 0;
    } else {
      assert bs[1..] == name[1..] + [0] + rest;
      CStringOf(name[1..], rest);
    }
  }

  function DecodeEntry(bs: seq<Byte>): DirEnt
    requires |bs| == ENTRY_SIZE
  {
    DirEnt(CString(bs), Signed(FromLe32(bs[NAME_SIZE..])))
  }

  // strcpy of the name into a record that held the bytes junk, then the inode number.
  function EncodeEntry(e: DirEnt, junk: seq<Byte>): (bs: seq<Byte>)
    requires |e.name| < NAME_SIZE && |junk| == ENTRY_SIZE
    ensures |bs| == ENTRY_SIZE
  {
    e.name + [0] + junk[|e.name| + 1..NAME_SIZE] + Le32(Unsigned(e.inum))
  }

  // A record marked unused: only its inode number is set.
  function EncodeUnused(junk: seq<Byte>): (bs: seq<Byte>)
    requires |junk| == ENTRY_SIZE
    ensures |bs| == ENTRY_SIZE
  {
    junk[..NAME_SIZE] + Le32(Unsigned(-1))
  }

  lemma EntryRoundTrip(e: DirEnt, junk: seq<Byte>)
    requires |e.name| < NAME_SIZE && |junk| == ENTRY_SIZE
    ensures DecodeEntry(EncodeEntry(e, junk)) == e
  {
    var bs := EncodeEntry(e, junk);
    assert bs == e.name + [0] + (junk[|e.name| + 1..NAME_SIZE] + Le32(Unsigned(e.inum)));
    CStringOf(e.name, junk[|e.name| + 1..NAME_SIZE] + Le32(Unsigned(e.inum)));
    assert bs[NAME_SIZE..] == Le32(Unsigned(e.inum));
    Le32RoundTrip(Unsigned(e.inum));
  }

  // The same with the repository's own strcpy, which copies five bytes whatever the string; src is the memory that
  // holds the name and its NUL.
  function CopiedEntry(e: DirEnt, src: seq<Byte>, junk: seq<Byte>): (bs: seq<Byte>)
    requires |src| >= 5 && e.name + [0] <= src && |junk| == ENTRY_SIZE
    ensures |bs| == ENTRY_SIZE
  {
    src[..5] + junk[5..NAME_SIZE] + Le32(Unsigned(e.inum))
  }

  lemma {:induction false} CStringAfter(a: Name, rest: seq<Byte>)
    ensures CString(a + rest) == a + CString(rest)
  {
    if a == [] {
      assert a + rest == rest;
    } else {
      assert (a + rest)[1..] == a[1..] + rest;
      CStringAfter(a[1..], rest);
    }
  }

  // Then an entry reads back exactly when its name has at most four bytes, or what follows the first five happens to
  // be what the record held there before.
  lemma EntryCopiedIff(e: DirEnt, src: seq<Byte>, junk: seq<Byte>)
    requires |src| >= 5 && e.name + [0] <= src && |junk| == ENTRY_SIZE
    ensures DecodeEntry(CopiedEntry(e, src, junk)) == e <==>
            |e.name| <= 4 || CString(junk[5..NAME_SIZE] + Le32(Unsigned(e.inum))) == e.name[5..]
  {
    var bs, rest := CopiedEntry(e, src, junk), junk[5..NAME_SIZE] + Le32(Unsigned(e.inum));
    assert bs[NAME_SIZE..] == Le32(Unsigned(e.inum));
    Le32RoundTrip(Unsigned(e.inum));
    if |e.name| <= 4 {
      assert bs == e.name + [0] + (src[|e.name| + 1..5] + rest);
      CStringOf(e.name, src[|e.name| + 1..5] + rest);
    } else {
      var a: Name := e.name[..5];
      assert bs == a + rest;
      CStringAfter(a, rest);
      assert e.name == a + e.name[5..];
    }
  }

  lemma UnusedRoundTrip(junk: seq<Byte>)
    requires |junk| == ENTRY_SIZE
    ensures DecodeEntry(EncodeUnused(junk)).inum == -1
  {
    assert EncodeUnused(junk)[NAME_SIZE..] == Le32(Unsigned(-1));
    Le32RoundTrip(Unsigned(-1));
  }

  function SlotBytes(blk: seq<Byte>, j: nat): (r: seq<Byte>)
    requires |blk| == BLOCK && j < ENTRIES
    ensures |r| == ENTRY_SIZE
  {
    blk[ENTRY_SIZE * j..ENTRY_SIZE * j + ENTRY_SIZE]
  }

  function EntryIn(blk: seq<Byte>, j: nat): DirEnt
    requires |blk| == BLOCK && j < ENTRIES
  {
    DecodeEntry(SlotBytes(blk, j))
  }

  // A directory block built over the bytes junk: the entries es first, the other slots unused.
  function DirSlot(es: seq<DirEnt>, junk: seq<Byte>, j: nat): (r: seq<Byte>)
    requires |junk| == BLOCK && j < ENTRIES
    requires forall e :: e in es ==> |e.name| < NAME_SIZE
    ensures |r| == ENTRY_SIZE
  {
    if j < |es| then EncodeEntry(es[j], SlotBytes(junk, j)) else EncodeUnused(SlotBytes(junk, j))
  }

  function DirBlock(es: seq<DirEnt>, junk: seq<Byte>): (blk: seq<Byte>)
    requires |junk| == BLOCK
    requires forall e :: e in es ==> |e.name| < NAME_SIZE
    ensures |blk| == BLOCK
  {
    seq(BLOCK, k requires 0 <= k < BLOCK => DirSlot(es, junk, k / ENTRY_SIZE)[k % ENTRY_SIZE])
  }

  // The block starts with the entries es; its other slots are unused.
  predicate StartsWith(blk: seq<Byte>, es: seq<DirEnt>)
    requires |blk| == BLOCK
  {
    forall j {:trigger EntryIn(blk, j)} :: 0 <= j < ENTRIES ==>
      if j < |es| then EntryIn(blk, j) == es[j] else EntryIn(blk, j).inum == -1
  }

  lemma SlotOfDirBlock(es: seq<DirEnt>, junk: seq<Byte>, j: nat)
    requires |junk| == BLOCK && j < ENTRIES
    requires forall e :: e in es ==> |e.name| < NAME_SIZE
    ensures SlotBytes(DirBlock(es, junk), j) == DirSlot(es, junk, j)
  {
    var blk := DirBlock(es, junk);
    forall k | 0 <= k < ENTRY_SIZE
      ensures SlotBytes(blk, j)[k] == DirSlot(es, junk, j)[k]
    {
      assert (ENTRY_SIZE * j + k) / ENTRY_SIZE == j && (ENTRY_SIZE * j + k) % ENTRY_SIZE == k;
    }
  }

  lemma DirBlockEntries(es: seq<DirEnt>, junk: seq<Byte>)
    requires |junk| == BLOCK && |es| <= ENTRIES
    requires forall e :: e in es ==> |e.name| < NAME_SIZE
    ensures StartsWith(DirBlock(es, junk), es)
  {
    var blk := DirBlock(es, junk);
    forall j | 0 <= j < ENTRIES
      ensures if j < |es| then EntryIn(blk, j) == es[j] else EntryIn(blk, j).inum == -1
    {
      SlotOfDirBlock(es, junk, j);
      if j < |es| {
        EntryRoundTrip(es[j], SlotBytes(junk, j));
      } else {
        UnusedRoundTrip(SlotBytes(junk, j));
      }
    }
  }

  // Overwriting one slot of a block changes that entry only.
  lemma SlotSplice(blk: seq<Byte>, j: nat, bs: seq<Byte>)
    requires |blk| == BLOCK && j < ENTRIES && |bs| == ENTRY_SIZE
    ensures EntryIn(Splice(blk, ENTRY_SIZE * j, bs), j) == DecodeEntry(bs)
    ensures forall i :: 0 <= i < ENTRIES && i != j ==> EntryIn(Splice(blk, ENTRY_SIZE * j, bs), i) == EntryIn(blk, i)
  {
    var r := Splice(blk, ENTRY_SIZE * j, bs);
    assert SlotBytes(r, j) == bs;
    forall i | 0 <= i < ENTRIES && i != j
      ensures SlotBytes(r, i) == SlotBytes(blk, i)
    {
      assert i < j || j + 1 <= i;
    }
  }

  // ---------- superblock ----------

  datatype Super = Super(
    inodeBitmapAddr: I32, inodeBitmapLen: I32,
    dataBitmapAddr: I32, dataBitmapLen: I32,
    inodeRegionAddr: I32, inodeRegionLen: I32,
    dataRegionAddr: I32, dataRegionLen: I32,
    numInodes: I32, numData: I32)

  const SUPER_SIZE: nat := 40

  function SuperFields(s: Super): (fs: seq<I32>)
    ensures |fs| == 10
  {
    [s.inodeBitmapAddr, s.inodeBitmapLen, s.dataBitmapAddr, s.dataBitmapLen, s.inodeRegionAddr,
     s.inodeRegionLen, s.dataRegionAddr, s.dataRegionLen, s.numInodes, s.numData]
  }

  function EncodeSuper(s: Super): (bs: seq<Byte>)
    ensures |bs| == SUPER_SIZE
  {
    var fs := SuperFields(s);
    EncodePtrs(seq(10, k requires 0 <= k < 10 => Unsigned(fs[k])))
  }

  function FieldAt(bs: seq<Byte>, k: nat): I32
    requires 4 * k + 4 <= |bs|
  {
    Signed(FromLe32(bs[4 * k..4 * k + 4]))
  }

  function DecodeSuper(bs: seq<Byte>): Super
    requires |bs| == SUPER_SIZE
  {
    Super(FieldAt(bs, 0), FieldAt(bs, 1), FieldAt(bs, 2), FieldAt(bs, 3), FieldAt(bs, 4),
          FieldAt(bs, 5), FieldAt(bs, 6), FieldAt(bs, 7), FieldAt(bs, 8), FieldAt(bs, 9))
  }

  lemma SuperFieldAt(s: Super, k: nat)
    requires k < 10
    ensures FieldAt(EncodeSuper(s), k) == SuperFields(s)[k]
  {
    var fs := SuperFields(s);
    PtrAt(seq(10, k requires 0 <= k < 10 => Unsigned(fs[k])), k);
  }

  lemma SuperRoundTrip(s: Super)
    ensures DecodeSuper(EncodeSuper(s)) == s
  {
    forall k | 0 <= k < 10
      ensures FieldAt(EncodeSuper(s), k) == SuperFields(s)[k]
    {
      SuperFieldAt(s, k);
    }
  }

  // Words of a bitmap of n bits.
  function BitmapWords(n: nat): nat {
    (n + 31) / 32
  }

  // The regions follow one another, hold everything that is kept in them, and lie inside a disk of
  // the given number of bytes, every address of which an int can hold.
  predicate Layout(s: Super, bytes: nat) {
    && 1 <= s.inodeBitmapAddr && 1 <= s.numInodes && 1 <= s.numData
    && s.inodeBitmapAddr * BLOCK + 4 * BitmapWords(s.numInodes) <= s.dataBitmapAddr * BLOCK
    && s.dataBitmapAddr * BLOCK + 4 * BitmapWords(s.numData) <= s.inodeRegionAddr * BLOCK
    && s.inodeRegionAddr * BLOCK + INODE_SIZE * s.numInodes <= s.dataRegionAddr * BLOCK
    && (s.dataRegionAddr + s.numData) * BLOCK <= bytes < 0x8000_0000
    && bytes % BLOCK == 0
  }

  // ---------- what a mount loads ----------

  datatype Meta = Meta(ibm: seq<Word>, dbm: seq<Word>, inodes: seq<Inode>)

  function WordsAt(d: seq<Byte>, a: nat, n: nat): (ws: seq<Word>)
    requires a + 4 * n <= |d|
    ensures |ws| == n
  {
    seq(n, k requires 0 <= k < n => WordOfBytes(Slice(d, a + 4 * k, 4)))
  }

  function InodesAt(d: seq<Byte>, a: nat, n: nat): (r: seq<Inode>)
    requires a + INODE_SIZE * n <= |d|
    ensures |r| == n
  {
    seq(n, k requires 0 <= k < n => DecodeInode(Slice(d, a + INODE_SIZE * k, INODE_SIZE)))
  }

  function Load(s: Super, d: seq<Byte>): (m: Meta)
    requires Layout(s, |d|)
    ensures |m.ibm| == BitmapWords(s.numInodes) && |m.dbm| == BitmapWords(s.numData) && |m.inodes| == s.numInodes
  {
    Meta(WordsAt(d, s.inodeBitmapAddr * BLOCK, BitmapWords(s.numInodes)),
         WordsAt(d, s.dataBitmapAddr * BLOCK, BitmapWords(s.numData)),
         InodesAt(d, s.inodeRegionAddr * BLOCK, s.numInodes))
  }

  // The metadata lies below the data region: disks that agree there load the same.
  lemma LoadBelowData(s: Super, d: seq<Byte>, d': seq<Byte>)
    requires Layout(s, |d|) && |d'| == |d|
    requires forall k :: 0 <= k < s.dataRegionAddr * BLOCK ==> d[k] == d'[k]
    ensures Load(s, d) == Load(s, d')
  {
    forall a: nat, n: nat | a + n <= s.dataRegionAddr * BLOCK
      ensures Slice(d, a, n) == Slice(d', a, n)
    {
    }
    assert Load(s, d).ibm == Load(s, d').ibm;
    assert Load(s, d).dbm == Load(s, d').dbm;
    assert Load(s, d).inodes == Load(s, d').inodes;
  }
}
