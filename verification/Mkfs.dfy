// mkfs: where the regions go, what is written, and that a mount of the result is an empty root directory.

module Mkfs {
  import opened Bits
  import opened Bytes
  import opened Format
  import opened Tree
  import opened FsModel
  import opened FsInv
  import opened FsCreat
  import opened FsCommit
  import opened FsMarks
  import opened FsCalls
  import opened FsForest
  import opened FsRun
  import opened FsCrash
  import opened FsCrashRun
  import opened FsUnlinkModel
  import opened FsCover
  import opened FsUndo
  import opened OnDisk
  import opened FsAnswers
  import opened FsReturns
  import opened FsUnlinkStep

  const BITS_PER_BLOCK: nat := 8 * BLOCK

  // n / per, and one more for a remainder.
  function Blocks(n: nat, per: nat): (r: nat)
    requires per > 0
    ensures r * per >= n && (n > 0 ==> (r - 1) * per < n)
  {
    n / per + if n % per != 0 then 1 else 0
  }

  function TotalBlocks(ni: nat, nd: nat): nat {
    1 + Blocks(ni, BITS_PER_BLOCK) + Blocks(nd, BITS_PER_BLOCK) + Blocks(INODE_SIZE * ni, BLOCK) + nd
  }

  // The numbers mkfs was asked for: at least 32 of each, and no offset on the disk overflows an int.
  predicate SizesOK(ni: nat, nd: nat) {
    ni >= 32 && nd >= 32 && TotalBlocks(ni, nd) * BLOCK < 0x8000_0000
  }

  function MakeSuper(ni: nat, nd: nat): (s: Super)
    requires SizesOK(ni, nd)
  {
    var ilen, dlen, rlen := Blocks(ni, BITS_PER_BLOCK), Blocks(nd, BITS_PER_BLOCK), Blocks(INODE_SIZE * ni, BLOCK);
    Super(1, ilen, 1 + ilen, dlen, 1 + ilen + dlen, rlen, 1 + ilen + dlen + rlen, nd, ni, nd)
  }

  // Block b belongs to part k of the disk: the superblock, a bitmap, the inode table or the data.
  predicate InPart(s: Super, b: int, k: nat) {
    match k
    case 0 => b == 0
    case 1 => s.inodeBitmapAddr <= b < s.inodeBitmapAddr + s.inodeBitmapLen
    case 2 => s.dataBitmapAddr <= b < s.dataBitmapAddr + s.dataBitmapLen
    case 3 => s.inodeRegionAddr <= b < s.inodeRegionAddr + s.inodeRegionLen
    case 4 => s.dataRegionAddr <= b < s.dataRegionAddr + s.dataRegionLen
    case _ => false
  }

  ghost predicate OnlyInPart(s: Super, b: int, k: nat) {
    forall l: nat :: InPart(s, b, l) <==> l == k
  }

  ghost predicate InOnePart(s: Super, b: int) {
    exists k: nat :: OnlyInPart(s, b, k)
  }

  // The parts share no block and leave none out.
  ghost predicate Partition(s: Super, total: nat) {
    forall b {:trigger InOnePart(s, b)} :: 0 <= b < total ==> InOnePart(s, b)
  }

  // The regions hold every bit and every inode, and are no longer than they need be.
  predicate Fitting(s: Super) {
    && 0 < s.numInodes <= BITS_PER_BLOCK * s.inodeBitmapLen && BITS_PER_BLOCK * (s.inodeBitmapLen - 1) < s.numInodes
    && 0 < s.numData <= BITS_PER_BLOCK * s.dataBitmapLen && BITS_PER_BLOCK * (s.dataBitmapLen - 1) < s.numData
    && INODE_SIZE * s.numInodes <= BLOCK * s.inodeRegionLen && BLOCK * (s.inodeRegionLen - 1) < INODE_SIZE * s.numInodes
    && s.dataRegionLen == s.numData
  }

  lemma MkfsPartition(ni: nat, nd: nat)
    requires SizesOK(ni, nd)
    ensures Partition(MakeSuper(ni, nd), TotalBlocks(ni, nd))
  {
    hide Blocks;
    var s := MakeSuper(ni, nd);
    forall b | 0 <= b < TotalBlocks(ni, nd)
      ensures InOnePart(s, b)
    {
      var k: nat := if b == 0 then 0 else if b < s.dataBitmapAddr then 1 else if b < s.inodeRegionAddr then 2
                    else if b < s.dataRegionAddr then 3 else 4;
      assert OnlyInPart(s, b, k);
    }
  }

  lemma WordsFit(n: nat, len: nat)
    requires n <= len * BITS_PER_BLOCK
    ensures 4 * BitmapWords(n) <= len * BLOCK
  {
  }

  // Exactly enough blocks for every bit and every inode, in parts that partition the disk, in the order that
  // mounting expects.
  lemma MkfsLayout(ni: nat, nd: nat)
    requires SizesOK(ni, nd)
    ensures MakeSuper(ni, nd).numInodes == ni && MakeSuper(ni, nd).numData == nd
    ensures Partition(MakeSuper(ni, nd), TotalBlocks(ni, nd)) && Fitting(MakeSuper(ni, nd))
    ensures Layout(MakeSuper(ni, nd), TotalBlocks(ni, nd) * BLOCK)
  {
    hide Blocks, Partition;
    MkfsPartition(ni, nd);
    WordsFit(ni, Blocks(ni, BITS_PER_BLOCK));
    WordsFit(nd, Blocks(nd, BITS_PER_BLOCK));
  }

  // ---------- the image ----------

  // The word whose first bit is set: 1 << 31.
  function FirstBit(): Word {
    Zero()[0 := true]
  }

  function Zeros(n: nat): (bs: seq<Byte>)
    ensures |bs| == n
  {
    seq<Byte>(n, _ => 0)
  }

  function BitmapBlock(): (blk: seq<Byte>)
    ensures |blk| == BLOCK
  {
    WordBytes(FirstBit()) + Zeros(BLOCK - 4)
  }

  // What mkfs's stack held where it sets nothing: the inodes after the first, and the directory block.
  datatype Stack = Stack(inodes: seq<Byte>, dir: seq<Byte>)

  predicate StackOK(k: Stack) {
    |k.inodes| == |k.dir| == BLOCK
  }

  function RootInode(s: Super): Inode
    requires s.dataRegionAddr >= 0
  {
    RawInode(DIRECTORY, 2 * ENTRY_SIZE, NoPtrs()[0 := s.dataRegionAddr])
  }

  function InodeBlock(s: Super, k: Stack): (blk: seq<Byte>)
    requires s.dataRegionAddr >= 0 && StackOK(k)
    ensures |blk| == BLOCK
  {
    EncodeInode(RootInode(s)) + k.inodes[INODE_SIZE..]
  }

  function RootEntries(): seq<DirEnt> {
    [DirEnt(DotName(), 0), DirEnt(DotDotName(), 0)]
  }

  function RootBlock(k: Stack): (blk: seq<Byte>)
    requires StackOK(k)
    ensures |blk| == BLOCK
  {
    DirBlock(RootEntries(), k.dir)
  }

  // The writes of mkfs, on a disk of zeros.
  function Image(ni: nat, nd: nat, k: Stack): (d: seq<Byte>)
    requires SizesOK(ni, nd) && StackOK(k)
    ensures |d| == TotalBlocks(ni, nd) * BLOCK
  {
    MkfsLayout(ni, nd);
    var s := MakeSuper(ni, nd);
    var d1 := Splice(Zeros(TotalBlocks(ni, nd) * BLOCK), 0, EncodeSuper(s));
    var d2 := Splice(d1, s.inodeBitmapAddr * BLOCK, BitmapBlock());
    var d3 := Splice(d2, s.dataBitmapAddr * BLOCK, BitmapBlock());
    var d4 := Splice(d3, s.inodeRegionAddr * BLOCK, InodeBlock(s, k));
    Splice(d4, s.dataRegionAddr * BLOCK, RootBlock(k))
  }

  // ---------- mounting it ----------

  lemma BlockHit(d: seq<Byte>, b: nat, blk: seq<Byte>)
    requires HasBlock(d, b) && |blk| == BLOCK
    ensures Block(Splice(d, b * BLOCK, blk), b) == blk
  {
    BlockOfSplice(d, b, 0, blk);
  }

  lemma BlockMissed(d: seq<Byte>, b: nat, c: nat, blk: seq<Byte>)
    requires HasBlock(d, b) && HasBlock(d, c) && b != c && |blk| == BLOCK
    ensures Block(Splice(d, c * BLOCK, blk), b) == Block(d, b)
  {
    assert b + 1 <= c || c + 1 <= b;
  }

  // The blocks mkfs writes, as they are in the end.
  lemma ImageBlocks(ni: nat, nd: nat, k: Stack) returns (s: Super, d: seq<Byte>)
    requires SizesOK(ni, nd) && StackOK(k)
    ensures s == MakeSuper(ni, nd) && d == Image(ni, nd, k) && Layout(s, |d|)
    ensures d[..SUPER_SIZE] == EncodeSuper(s)
    ensures HasBlock(d, s.inodeBitmapAddr) && Block(d, s.inodeBitmapAddr) == BitmapBlock()
    ensures HasBlock(d, s.dataBitmapAddr) && Block(d, s.dataBitmapAddr) == BitmapBlock()
    ensures HasBlock(d, s.inodeRegionAddr) && Block(d, s.inodeRegionAddr) == InodeBlock(s, k)
    ensures HasBlock(d, s.dataRegionAddr) && Block(d, s.dataRegionAddr) == RootBlock(k)
  {
    hide EncodeSuper, BitmapBlock, InodeBlock, RootBlock, Splice, Blocks, Partition, Fitting;
    MkfsLayout(ni, nd);
    s := MakeSuper(ni, nd);
    d := Image(ni, nd, k);
    var d1 := Splice(Zeros(TotalBlocks(ni, nd) * BLOCK), 0, EncodeSuper(s));
    var d2 := Splice(d1, s.inodeBitmapAddr * BLOCK, BitmapBlock());
    var d3 := Splice(d2, s.dataBitmapAddr * BLOCK, BitmapBlock());
    var d4 := Splice(d3, s.inodeRegionAddr * BLOCK, InodeBlock(s, k));
    assert d == Splice(d4, s.dataRegionAddr * BLOCK, RootBlock(k));
    BlockHit(d1, s.inodeBitmapAddr, BitmapBlock());
    BlockMissed(d2, s.inodeBitmapAddr, s.dataBitmapAddr, BitmapBlock());
    BlockMissed(d3, s.inodeBitmapAddr, s.inodeRegionAddr, InodeBlock(s, k));
    BlockMissed(d4, s.inodeBitmapAddr, s.dataRegionAddr, RootBlock(k));
    BlockHit(d2, s.dataBitmapAddr, BitmapBlock());
    BlockMissed(d3, s.dataBitmapAddr, s.inodeRegionAddr, InodeBlock(s, k));
    BlockMissed(d4, s.dataBitmapAddr, s.dataRegionAddr, RootBlock(k));
    BlockHit(d3, s.inodeRegionAddr, InodeBlock(s, k));
    BlockMissed(d4, s.inodeRegionAddr, s.dataRegionAddr, RootBlock(k));
    BlockHit(d4, s.dataRegionAddr, RootBlock(k));
    assert d[..SUPER_SIZE] == EncodeSuper(s);
  }

  // The rest of the bitmaps is zero.
  lemma ImageZeros(ni: nat, nd: nat, k: Stack, a: nat)
    requires SizesOK(ni, nd) && StackOK(k)
    requires var s := MakeSuper(ni, nd);
      (s.inodeBitmapAddr + 1) * BLOCK <= a < s.dataBitmapAddr * BLOCK
      || (s.dataBitmapAddr + 1) * BLOCK <= a < s.inodeRegionAddr * BLOCK
    ensures a < |Image(ni, nd, k)| && Image(ni, nd, k)[a] == 0
  {
    hide EncodeSuper, BitmapBlock, InodeBlock, RootBlock, Splice, Blocks, Partition, Fitting;
    MkfsLayout(ni, nd);
  }

  lemma {:induction false} DigitsOfZero(n: nat)
    ensures Digits(0, n) == seq(n, _ => false)
  {
    if n > 0 {
      DigitsOfZero(n - 1);
    }
  }

  lemma ZeroWord()
    ensures WordOfBytes([0, 0, 0, 0]) == Zero()
  {
    DigitsOfZero(WORD_BITS);
  }

  lemma BitmapBytes(d: seq<Byte>, b: nat, n: nat, k: nat)
    requires HasBlock(d, b) && Block(d, b) == BitmapBlock() && b * BLOCK + 4 * n <= |d| && k < n
    requires forall a :: (b + 1) * BLOCK <= a < b * BLOCK + 4 * n ==> d[a] == 0
    ensures Slice(d, b * BLOCK + 4 * k, 4) == if k == 0 then WordBytes(FirstBit()) else [0, 0, 0, 0]
  {
    hide WordBytes, FirstBit;
    var bs := Slice(d, b * BLOCK + 4 * k, 4);
    forall j | 0 <= j < 4
      ensures bs[j] == if k == 0 then WordBytes(FirstBit())[j] else 0
    {
      if 4 * k + j < BLOCK {
        assert bs[j] == Block(d, b)[4 * k + j];
      }
    }
  }

  // A bitmap whose first block is that of mkfs and whose other bytes are zero: only bit 0 is set.
  lemma OnlyFirstBit(d: seq<Byte>, b: nat, n: nat, i: nat)
    requires HasBlock(d, b) && Block(d, b) == BitmapBlock() && b * BLOCK + 4 * n <= |d| && i < WORD_BITS * n
    requires forall a :: (b + 1) * BLOCK <= a < b * BLOCK + 4 * n ==> d[a] == 0
    ensures Get(WordsAt(d, b * BLOCK, n), i) <==> i == 0
  {
    hide WordOfBytes, WordBytes, BitmapBlock, Block;
    var k := i / WORD_BITS;
    BitmapBytes(d, b, n, k);
    WordRoundTrip(FirstBit());
    ZeroWord();
  }

  lemma RootInodeLoads(s: Super, d: seq<Byte>, k: Stack)
    requires Layout(s, |d|) && StackOK(k) && HasBlock(d, s.inodeRegionAddr)
    requires Block(d, s.inodeRegionAddr) == InodeBlock(s, k)
    ensures Load(s, d).inodes[0] == RootInode(s)
  {
    hide EncodeInode, DecodeInode, WordsAt, RootInode;
    var bs := Slice(d, s.inodeRegionAddr * BLOCK, INODE_SIZE);
    assert bs == EncodeInode(RootInode(s)) by {
      assert forall j :: 0 <= j < INODE_SIZE ==> bs[j] == Block(d, s.inodeRegionAddr)[j];
    }
    InodeRoundTrip(RootInode(s));
  }

  // Only bit 0 of each bitmap is set, and inode 0 is the root directory.
  ghost predicate RootMeta(s: Super, m: Meta) {
    && 0 < |m.inodes| && s.dataRegionAddr >= 0 && m.inodes[0] == RootInode(s)
    && (forall i :: 0 <= i < WORD_BITS * |m.ibm| ==> (Get(m.ibm, i) <==> i == 0))
    && (forall b :: 0 <= b < WORD_BITS * |m.dbm| ==> (Get(m.dbm, b) <==> b == 0))
  }

  lemma ImageMeta(ni: nat, nd: nat, k: Stack) returns (s: Super, d: seq<Byte>)
    requires SizesOK(ni, nd) && StackOK(k)
    ensures s == MakeSuper(ni, nd) && d == Image(ni, nd, k) && Layout(s, |d|) && DecodeSuper(d[..SUPER_SIZE]) == s
    ensures RootMeta(s, Load(s, d))
    ensures HasBlock(d, s.dataRegionAddr) && Block(d, s.dataRegionAddr) == RootBlock(k)
  {
    hide Image, WordsAt, InodesAt, BitmapBlock, InodeBlock, RootBlock, EncodeSuper, DecodeSuper, Get;
    s, d := ImageBlocks(ni, nd, k);
    SuperRoundTrip(s);
    var m := Load(s, d);
    forall a: nat | (s.inodeBitmapAddr + 1) * BLOCK <= a < s.dataBitmapAddr * BLOCK
                    || (s.dataBitmapAddr + 1) * BLOCK <= a < s.inodeRegionAddr * BLOCK
      ensures d[a] == 0
    {
      ImageZeros(ni, nd, k, a);
    }
    forall i | 0 <= i < WORD_BITS * |m.ibm|
      ensures Get(m.ibm, i) <==> i == 0
    {
      OnlyFirstBit(d, s.inodeBitmapAddr, BitmapWords(s.numInodes), i);
    }
    forall b | 0 <= b < WORD_BITS * |m.dbm|
      ensures Get(m.dbm, b) <==> b == 0
    {
      OnlyFirstBit(d, s.dataBitmapAddr, BitmapWords(s.numData), b);
    }
    RootInodeLoads(s, d, k);
  }

  lemma RootAlloc(s: Super, m: Meta)
    requires RootMeta(s, m) && 1 <= s.numData && 0 < |m.ibm| && 0 < |m.dbm| && s.dataRegionAddr < 0x10_0000
    ensures AllocOK(s, m)
  {
    forall i, k, b
      ensures Owns(s, m, i, k, b) <==> i == 0 && k == 0 && b == 0
    {
    }
    forall b
      ensures BitRight(s, m, b)
    {
      if b == 0 {
        assert SoleOwner(s, m, 0, 0, 0);
      }
    }
  }

  lemma RootHolds(s: Super, d: seq<Byte>, k: Stack)
    requires Layout(s, |d|) && StackOK(k)
    requires HasBlock(d, s.dataRegionAddr) && Block(d, s.dataRegionAddr) == RootBlock(k)
    ensures Holds(s, RootInode(s), d, Dir(RootEntries())) && Compact(RootInode(s), d)
  {
    DataPtr(s, d, s.dataRegionAddr);
    DirBlockEntries(RootEntries(), k.dir);
    NewDirHolds(s, RootInode(s), d, RootEntries());
  }

  lemma RootRefines(s: Super, m: Meta, d: seq<Byte>, k: Stack)
    requires Sized(s, m, d) && RootMeta(s, m) && StackOK(k)
    requires HasBlock(d, s.dataRegionAddr) && Block(d, s.dataRegionAddr) == RootBlock(k)
    ensures Refines(s, m, d, RootTree())
  {
    RootAlloc(s, m);
    RootHolds(s, d, k);
    hide Holds, Compact, AllocOK;
    forall i
      ensures ShowsAt(s, m, d, RootTree(), i)
      ensures TidyAt(m, d, RootTree(), i)
    {
    }
  }

  lemma RootIsAll(s: Super, m: Meta)
    requires RootMeta(s, m)
    ensures forall i :: Live(m, i) ==> i in RootTree()
    ensures PadClear(s, m.dbm) || s.numData < 1
  {
  }

  // A mount of a freshly made disk: an empty root directory, with everything the other results start from.
  lemma MkfsGood(ni: nat, nd: nat, k: Stack, st: State)
    requires SizesOK(ni, nd) && StackOK(k) && Mounted(st, MakeSuper(ni, nd), Image(ni, nd, k))
    ensures DecodeSuper(st.disk[..SUPER_SIZE]) == st.s
    ensures Good(st, RootTree(), RootTree()) && Tight(st, RootTree()) && Synced(st)
    ensures RootMeta(st.s, st.m)
  {
    hide Image, MakeSuper, RootTree, Refines, Load, DecodeSuper, RootMeta, PadClear;
    var s, d := ImageMeta(ni, nd, k);
    RootRefines(s, st.m, d, k);
    RootTreeOK();
    SyncedIsCovered(st);
    RootIsAll(st.s, st.m);
    GrownAlone(st, RootTree());
  }

  // Every run of creats, writes and unlinks of last entries on a fresh disk goes along a sequence of trees that
  // starts with the empty root.  If no creat leaked an inode, the last tree is all there is.
  lemma FreshRunRefines(ni: nat, nd: nat, k: Stack, sts: seq<State>, calls: seq<Call>)
    returns (ts: seq<Tree>, us: seq<Tree>)
    requires SizesOK(ni, nd) && StackOK(k) && Run(sts, calls)
    requires Mounted(sts[0], MakeSuper(ni, nd), Image(ni, nd, k))
    requires forall n {:trigger calls[n]} :: 0 <= n < |calls| ==> Suits(sts[n], calls[n])
    ensures Simulates(sts, ts, us, calls, |calls|) && ts[0] == RootTree()
    ensures (forall n {:trigger calls[n]} :: 0 <= n < |calls| ==> !Leaks(sts[n], calls[n])) ==>
      Ref(sts[|calls|], ts[|calls|])
  {
    hide Good, Tight, Leaks, Image, MakeSuper, RootMeta, Refines, RootTree, Mounted;
    MkfsGood(ni, nd, k, sts[0]);
    ts, us := RunRefines(sts, calls, |calls|, RootTree(), RootTree());
    if forall n {:trigger calls[n]} :: 0 <= n < |calls| ==> !Leaks(sts[n], calls[n]) {
      TightIsAll(sts[|calls|], ts[|calls|], us[|calls|]);
    }
  }

  // Stopped anywhere outside a commit, a run of creats and appends on a fresh disk gives, when mounted again, the
  // answers of the state after the last call that returned 0.
  lemma FreshRunStopped(ni: nat, nd: nat, k: Stack, sts: seq<State>, calls: seq<Call>, n: nat, d': seq<Byte>,
                        st': State)
    returns (c: nat)
    requires SizesOK(ni, nd) && StackOK(k) && Run(sts, calls) && n < |calls|
    requires Mounted(sts[0], MakeSuper(ni, nd), Image(ni, nd, k))
    requires forall j {:trigger calls[j]} :: 0 <= j <= n ==> Quiet(sts[j], calls[j])
    requires CrashDisk(sts[n].disk, Do(sts[n], calls[n]).pre, d') && Mounted(st', sts[n].s, d')
    ensures c == Committed(sts, calls, n)
    ensures DecodeSuper(d'[..SUPER_SIZE]) == st'.s
    ensures forall p, name :: Lookup(st', p, name) == Lookup(sts[c], p, name)
    ensures forall i, offset, nbytes :: Read(st', i, offset, nbytes) == Read(sts[c], i, offset, nbytes)
  {
    hide Good, Tight, Leaks, Image, MakeSuper, RootMeta, CrashDisk, Mounted, Overwrites, Suits, Lookup, Read, Do;
    hide TreeStep, RootTree, Committed, DecodeSuper, Finish, Shows;
    MkfsGood(ni, nd, k, sts[0]);
    var ts, us := RunRefines(sts, calls, n, RootTree(), RootTree());
    c := CrashInRun(sts, ts, us, calls, n, d', st');
  }

  // Every run of creats, writes and unlinks on a fresh disk, as coded: after each call that returns 0 a mount loads
  // what memory holds, even where the unlinks have left the data bitmap wrong.
  lemma FreshRunSyncs(ni: nat, nd: nat, k: Stack, sts: seq<State>, calls: seq<Call>, n: nat)
    requires SizesOK(ni, nd) && StackOK(k) && Run(sts, calls) && n < |calls|
    requires Mounted(sts[0], MakeSuper(ni, nd), Image(ni, nd, k))
    ensures Do(sts[n], calls[n]).out == Ret(0) ==> Synced(sts[n + 1])
  {
    hide Image, MakeSuper, Tight, Good, Orderly, Do, Synced, RootMeta, Finish, Mounted, SizesOK, StackOK;
    hide RootTree;
    MkfsGood(ni, nd, k, sts[0]);
    GoodIsOrderly(sts[0], RootTree(), RootTree());
    RunKeepsOrder(sts, calls, n + 1);
  }

  lemma FirstDir(st: State)
    requires RootMeta(st.s, st.m) && st.s.numInodes >= 32 && st.s.numData >= 32
    ensures CanCreate(st, RootTree(), 0, DIRECTORY, [97])
  {
    assert !Get(st.m.ibm, 1) && !Get(st.m.dbm, 1);
    FreeBlocksCounted(st.m.dbm, st.s.numData);
  }

  // On every fresh disk: making the directory "a" in the root and unlinking it, as coded, leaves the data
  // bitmap wrong.
  lemma FreshUnlinkLeaks(ni: nat, nd: nat, k: Stack, st: State, junk: Junk, junk2: Junk) returns (r1: Step, r2: Step)
    requires SizesOK(ni, nd) && StackOK(k) && Mounted(st, MakeSuper(ni, nd), Image(ni, nd, k))
    requires JunkOK(junk) && JunkOK(junk2)
    ensures r1 == Creat(st, 0, DIRECTORY, [97], junk) && r1.out == Ret(0)
    ensures r2 == Unlink(Finish(r1), 0, [97], 0, junk2)
    ensures r2.out != Ret(0) || !AllocOK(st.s, r2.st.m)
  {
    hide Image, Creat, Unlink, Finish, AllocOK, Tight, Covered, Refines, RootMeta, CanCreate, MakeSuper;
    MkfsGood(ni, nd, k, st);
    MkfsLayout(ni, nd);
    FirstDir(st);
    TightIsAll(st, RootTree(), RootTree());
    r1, r2 := CreatThenUnlinkAsCoded(st, RootTree(), 0, DIRECTORY, [97], junk, junk2);
  }

  // ---------- the image byte by byte ----------

  lemma NumbersOf(ni: nat, nd: nat)
    requires SizesOK(ni, nd)
    ensures var il, dl, rl := (ni + 32767) / 32768, (nd + 32767) / 32768, (128 * ni + 4095) / 4096;
      && MakeSuper(ni, nd) == Super(1, il, 1 + il, dl, 1 + il + dl, rl, 1 + il + dl + rl, nd, ni, nd)
      && TotalBlocks(ni, nd) == 1 + il + dl + rl + nd
  {
  }

  lemma RootSlot(d: seq<Byte>, b: nat, k: Stack, j: nat)
    requires HasBlock(d, b) && StackOK(k) && Block(d, b) == RootBlock(k) && j < 128
    ensures var bs := d[b * 4096 + 32 * j..b * 4096 + 32 * j + 32];
      && DecodeEntry(bs).inum == (if j < 2 then 0 else -1)
      && (j == 0 ==> DecodeEntry(bs).name == [46]) && (j == 1 ==> DecodeEntry(bs).name == [46, 46])
  {
    hide DecodeEntry, DirBlock;
    var bs := d[b * 4096 + 32 * j..b * 4096 + 32 * j + 32];
    DirBlockEntries(RootEntries(), k.dir);
    var slot := SlotBytes(Block(d, b), j);
    forall i | 0 <= i < 32
      ensures bs[i] == slot[i]
    {
      assert slot[i] == Block(d, b)[32 * j + i] == d[b * 4096 + (32 * j + i)];
    }
    assert bs == slot && DecodeEntry(slot) == EntryIn(RootBlock(k), j);
  }

  lemma RootSlotBytes(d: seq<Byte>, b: nat, k: Stack, j: nat)
    requires HasBlock(d, b) && StackOK(k) && Block(d, b) == RootBlock(k) && j < 128
    ensures var a := b * 4096 + 32 * j;
      && a + 32 <= |d| && IntField(d, a + 28) == (if j < 2 then 0 else -1)
      && (j == 0 ==> d[a] == 46 && d[a + 1] == 0)
      && (j == 1 ==> d[a] == 46 && d[a + 1] == 46 && d[a + 2] == 0)
  {
    hide DecodeEntry, RootBlock, Block;
    var a := b * 4096 + 32 * j;
    var bs := d[a..a + 32];
    RootSlot(d, b, k, j);
    EntryOnDisk(bs);
    assert forall i :: 0 <= i < 32 ==> bs[i] == d[a + i];
    var name := DecodeEntry(bs).name;
    assert forall i :: 0 <= i < |name| ==> bs[..|name|][i] == bs[i];
  }

  // The superblock and the root inode of a freshly made disk, number by number.
  lemma FreshNumbers(ni: nat, nd: nat, k: Stack) returns (d: seq<Byte>, a: nat)
    requires SizesOK(ni, nd) && StackOK(k)
    ensures d == Image(ni, nd, k)
    ensures var il, dl, rl := (ni + 32767) / 32768, (nd + 32767) / 32768, (128 * ni + 4095) / 4096;
      && |d| == 4096 * (1 + il + dl + rl + nd)
      && IntField(d, 0) == 1 && IntField(d, 4) == il && IntField(d, 8) == 1 + il && IntField(d, 12) == dl
      && IntField(d, 16) == 1 + il + dl && IntField(d, 20) == rl && IntField(d, 24) == 1 + il + dl + rl
      && IntField(d, 28) == nd && IntField(d, 32) == ni && IntField(d, 36) == nd
      && a == (1 + il + dl) * 4096 && a + 128 <= |d|
      && IntField(d, a) == 0 && IntField(d, a + 4) == 64 && Field(d, a + 8) == 1 + il + dl + rl
    ensures forall j {:trigger Field(d, a + 8 + 4 * j)} :: 0 < j < 30 ==> Field(d, a + 8 + 4 * j) == 0xFFFF_FFFF
  {
    hide Image, DecodeSuper, Load, RootBlock, IntField, Field, Partition, Fitting, Block, HasBlock, MakeSuper;
    hide TotalBlocks;
    NumbersOf(ni, nd);
    var s;
    s, d := ImageMeta(ni, nd, k);
    SuperOnDisk(d);
    InodeOnDisk(s, d, 0);
    a := s.inodeRegionAddr * 4096;
    var ino := Load(s, d).inodes[0];
    assert ino.direct[0] == Field(d, a + 8 + 4 * 0) && a + 8 + 4 * 0 == a + 8;
    forall j | 0 < j < 30
      ensures Field(d, a + 8 + 4 * j) == 0xFFFF_FFFF
    {
      assert ino.direct[j] == Field(d, a + 8 + 4 * j);
    }
  }

  // Its first data block: ".", ".." and 126 unused entries.
  lemma FreshRoot(ni: nat, nd: nat, k: Stack) returns (d: seq<Byte>, a: nat)
    requires SizesOK(ni, nd) && StackOK(k)
    ensures d == Image(ni, nd, k) && |d| >= 40 && a == IntField(d, 24) * 4096 && a + 4096 <= |d|
    ensures d[a] == 46 && d[a + 1] == 0
    ensures d[a + 32] == 46 && d[a + 33] == 46 && d[a + 34] == 0
    ensures forall j {:trigger IntField(d, a + 32 * j + 28)} :: 0 <= j < 128 ==>
      IntField(d, a + 32 * j + 28) == if j < 2 then 0 else -1
  {
    hide Image, DecodeSuper, Load, RootBlock, IntField, Field, Partition, Fitting, Block, MakeSuper, RootMeta;
    var s;
    s, d := ImageMeta(ni, nd, k);
    SuperOnDisk(d);
    a := s.dataRegionAddr * 4096;
    forall j: nat | j < 128
      ensures IntField(d, a + 32 * j + 28) == if j < 2 then 0 else -1
    {
      RootSlotBytes(d, s.dataRegionAddr, k, j);
    }
    RootSlotBytes(d, s.dataRegionAddr, k, 0);
    RootSlotBytes(d, s.dataRegionAddr, k, 1);
  }

  // In both its bitmaps only bit 0 is set.
  lemma FreshBits(ni: nat, nd: nat, k: Stack, i: nat) returns (d: seq<Byte>)
    requires SizesOK(ni, nd) && StackOK(k)
    ensures d == Image(ni, nd, k) && |d| >= 40
    ensures i < ni ==>
      0 <= IntField(d, 0) * 4096 && IntField(d, 0) * 4096 + 4 * (i / 32) + 4 <= |d|
      && (BitAt(d, IntField(d, 0) * 4096, i) <==> i == 0)
    ensures i < nd ==>
      0 <= IntField(d, 8) * 4096 && IntField(d, 8) * 4096 + 4 * (i / 32) + 4 <= |d|
      && (BitAt(d, IntField(d, 8) * 4096, i) <==> i == 0)
  {
    hide Image, DecodeSuper, RootBlock, IntField, Partition, Fitting, Block, BitAt, Get, Blocks, WordsAt, InodesAt;
    var s;
    s, d := ImageMeta(ni, nd, k);
    SuperOnDisk(d);
    BitmapsOnDisk(s, d, i);
  }

  // A mount of it finds "." and ".." in the root, both the root, and can neither make nor remove them.
  lemma FreshDots(ni: nat, nd: nat, k: Stack, st: State, name: Name, kind: I32, base: nat, junk: Junk)
    requires SizesOK(ni, nd) && StackOK(k) && Mounted(st, MakeSuper(ni, nd), Image(ni, nd, k)) && JunkOK(junk)
    ensures Lookup(st, 0, [46]) == Ret(0) && Lookup(st, 0, [46, 46]) == Ret(0)
    ensures name in {[46], [46, 46]} ==>
      Creat(st, 0, kind, name, junk) == Unlink(st, 0, name, base, junk) == Step(Ret(-1), st, [])
    ensures name !in {[46], [46, 46]} ==> Lookup(st, 0, name) == Ret(-1)
  {
    hide Image, MakeSuper, Lookup, Creat, Unlink, Tight, Synced, Marked, RootMeta, AllPlaced, Loose, Refines;
    MkfsGood(ni, nd, k, st);
    LookupDots(st, RootTree(), RootTree(), 0);
    if name in {[46], [46, 46]} {
      DotsRefused(st, RootTree(), RootTree(), 0, name, kind, base, junk);
    } else {
      LookupInForest(st, RootTree(), 0, name);
      FindNew(0, 0, name);
    }
  }

  // ---------- mkfs as it runs ----------

  method Pwrite(img: array<Byte>, bs: seq<Byte>, off: nat)
    requires off + |bs| <= img.Length
    modifies img
    ensures img[..] == Splice(old(img[..]), off, bs)
  {
    for i := 0 to |bs|
      invariant forall j :: 0 <= j < img.Length ==> img[j] == if off <= j < off + i then bs[j - off] else old(img[j])
    {
      img[off + i] := bs[i];
    }
  }

  // The superblock first, then zeros into every other block, then the five blocks that are not zero.  The file
  // starts empty, so what is never written reads as zero.
  method MakeImage(ni: nat, nd: nat, k: Stack) returns (img: array<Byte>)
    requires SizesOK(ni, nd) && StackOK(k)
    ensures fresh(img) && img[..] == Image(ni, nd, k)
  {
    hide EncodeSuper, BitmapBlock, InodeBlock, RootBlock, Splice, Partition, Fitting, Blocks;
    MkfsLayout(ni, nd);
    var s := MakeSuper(ni, nd);
    var totalBlocks := TotalBlocks(ni, nd);
    img := new Byte[totalBlocks * BLOCK](_ => 0);
    ghost var d1 := Splice(Zeros(totalBlocks * BLOCK), 0, EncodeSuper(s));
    assert img[..] == Zeros(totalBlocks * BLOCK);
    Pwrite(img, EncodeSuper(s), 0);
    for i := 1 to totalBlocks
      invariant img[..] == d1
    {
      Pwrite(img, Zeros(BLOCK), i * BLOCK);
      assert img[..] == d1;
    }
    var b := BitmapBlock();
    Pwrite(img, b, s.inodeBitmapAddr * BLOCK);
    Pwrite(img, b, s.dataBitmapAddr * BLOCK);
    Pwrite(img, InodeBlock(s, k), s.inodeRegionAddr * BLOCK);
    Pwrite(img, RootBlock(k), s.dataRegionAddr * BLOCK);
  }
}
