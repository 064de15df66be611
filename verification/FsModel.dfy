// The calls of the file system as functions on its whole state: the metadata in memory, the dirty
// bitmaps and the disk.  The class in Ufs.dfy is proved to compute these.

module FsModel {
  import opened Bits
  import opened Bytes
  import opened Format

  // How a call ends: with a return code, in abort(), or outside what C defines.
  datatype Outcome = Ret(rc: I32) | Abort | Undefined

  datatype RawState = State(s: Super, m: Meta, dirtyI: seq<Word>, dirtyD: seq<Word>, disk: seq<Byte>)

  predicate Valid(st: RawState) {
    && Layout(st.s, |st.disk|)
    && |st.m.ibm| == |st.dirtyI| == BitmapWords(st.s.numInodes)
    && |st.m.dbm| == |st.dirtyD| == BitmapWords(st.s.numData)
    && |st.m.inodes| == st.s.numInodes
  }

  // The smallest disk there is: one inode, one data block, everything zero.
  function Blank(): RawState {
    var zeros := seq(5 * BLOCK, _ => 0);
    var ino := RawInode(0, 0, NoPtrs());
    State(Super(1, 1, 2, 1, 3, 1, 4, 1, 1, 1), Meta([Zero()], [Zero()], [ino]), [Zero()], [Zero()], zeros)
  }

  type State = st: RawState | Valid(st) witness Blank()

  // A call up to its commit: how it ends, the state then, and the disk writes made on the way.
  datatype Step = Step(out: Outcome, st: State, pre: seq<DiskWrite>)

  predicate StepFrom(st: State, r: Step) {
    && r.st.s == st.s
    && Inside(r.pre, 0, |st.disk|) && r.st.disk == Apply(st.disk, r.pre)
  }

  predicate InRange(st: State, i: I32) {
    0 <= i < st.s.numInodes
  }

  predicate Allocated(st: State, i: I32)
  {
    InRange(st, i) && Get(st.m.ibm, i)
  }

  // Block addresses are multiplied by 4096 in 32 bits, so only their low 20 bits matter.
  function Ptr(b: U32): nat {
    b % 0x10_0000
  }

  predicate Readable(d: seq<Byte>, b: U32) {
    HasBlock(d, Ptr(b))
  }

  function PtrBlock(d: seq<Byte>, b: U32): (blk: seq<Byte>)
    requires Readable(d, b)
    ensures |blk| == BLOCK
  {
    Block(d, Ptr(b))
  }

  // ---------- small updates ----------

  function MarkInode(st: State, i: I32): (r: State)
    requires InRange(st, i)
  {
    st.(dirtyI := Set(st.dirtyI, i))
  }

  function PutInode(st: State, i: I32, ino: Inode): (r: State)
    requires InRange(st, i)
  {
    st.(m := st.m.(inodes := st.m.inodes[i := ino]))
  }

  function TakeBlock(st: State, b: nat): (r: State)
    requires b < st.s.numData
  {
    st.(m := st.m.(dbm := Set(st.m.dbm, b)), dirtyD := Set(st.dirtyD, b))
  }

  function PutDisk(st: State, w: DiskWrite): (r: State)
    requires w.addr + |w.bytes| <= |st.disk|
  {
    st.(disk := Splice(st.disk, w.addr, w.bytes))
  }

  // One disk write.
  function DiskStep(st: State, w: DiskWrite): (r: Step)
    requires w.addr + |w.bytes| <= |st.disk|
    ensures StepFrom(st, r)
  {
    assert Apply(st.disk, [w]) == Splice(Apply(st.disk, []), w.addr, w.bytes);
    Step(Ret(0), PutDisk(st, w), [w])
  }

  // The address kept in an inode for data block b.
  function DataAddr(s: Super, b: nat): U32
    requires 0 <= s.dataRegionAddr && s.dataRegionAddr + b < 0x10_0000
  {
    s.dataRegionAddr + b
  }

  lemma DataAddrInside(st: State, b: nat)
    requires b < st.s.numData
    ensures st.s.dataRegionAddr + b < 0x10_0000
    ensures Ptr(DataAddr(st.s, b)) == st.s.dataRegionAddr + b
    ensures Readable(st.disk, DataAddr(st.s, b))
  {
  }

  function Grow(ino: Inode, n: int): Inode {
    ino.(size := Wrap(ino.size + n))
  }

  // ---------- commit_dirty_to_disk ----------

  function InodeWordAddr(s: Super, k: nat): int { s.inodeBitmapAddr * BLOCK + 4 * k }

  function DataWordAddr(s: Super, k: nat): int { s.dataBitmapAddr * BLOCK + 4 * k }

  function InodeAddr(s: Super, i: nat): int { s.inodeRegionAddr * BLOCK + INODE_SIZE * i }

  // What committing the first n inodes writes: for each dirty one its bitmap word, then the inode.
  function InodeLog(st: State, n: nat): (log: seq<DiskWrite>)
    requires n <= st.s.numInodes
    ensures Inside(log, BLOCK, st.s.dataRegionAddr * BLOCK)
  {
    if n == 0 then []
    else if !Get(st.dirtyI, n - 1) then InodeLog(st, n - 1)
    else InodeLog(st, n - 1)
         + [DiskWrite(InodeWordAddr(st.s, (n - 1) / 32), WordBytes(st.m.ibm[(n - 1) / 32]))]
         + [DiskWrite(InodeAddr(st.s, n - 1), EncodeInode(st.m.inodes[n - 1]))]
  }

  function DataLog(st: State, n: nat): (log: seq<DiskWrite>)
    requires n <= st.s.numData
    ensures Inside(log, BLOCK, st.s.dataRegionAddr * BLOCK)
  {
    if n == 0 then []
    else if !Get(st.dirtyD, n - 1) then DataLog(st, n - 1)
    else DataLog(st, n - 1)
         + [DiskWrite(DataWordAddr(st.s, (n - 1) / 32), WordBytes(st.m.dbm[(n - 1) / 32]))]
  }

  function CommitLog(st: State): (log: seq<DiskWrite>)
    ensures Inside(log, BLOCK, st.s.dataRegionAddr * BLOCK)
  {
    InodeLog(st, st.s.numInodes) + DataLog(st, st.s.numData)
  }

  // The bitmap without its first n bits.
  function Cleared(ws: seq<Word>, n: nat): (r: seq<Word>)
    requires n <= WORD_BITS * |ws|
    ensures |r| == |ws|
    ensures forall j :: 0 <= j < WORD_BITS * |ws| ==> Get(r, j) == (n <= j && Get(ws, j))
  {
    if n == 0 then ws else Reset(Cleared(ws, n - 1), n - 1)
  }

  function Commit(st: State): (r: State)
  {
    st.(dirtyI := Cleared(st.dirtyI, st.s.numInodes),
        dirtyD := Cleared(st.dirtyD, st.s.numData),
        disk := Apply(st.disk, CommitLog(st)))
  }

  // The state a call leaves: a call that returns 0 has committed.
  function Finish(r: Step): (st: State)
    ensures st.s == r.st.s && st.m == r.st.m
  {
    if r.out == Ret(0) then Commit(r.st) else r.st
  }

  // Every disk write of a call, in order.
  function FullLog(r: Step): seq<DiskWrite>
  {
    r.pre + if r.out == Ret(0) then CommitLog(r.st) else []
  }

  // ---------- ufs_lookup ----------

  // Reading entries from number e on, left of them.
  function Scan(d: seq<Byte>, ino: Inode, e: nat, left: nat, name: Name): Outcome
    decreases left
  {
    if e >= DIRECT_PTRS * ENTRIES || left == 0 then Ret(-1)
    else if !Readable(d, ino.direct[e / ENTRIES]) then Abort
    else
      var ent := EntryIn(PtrBlock(d, ino.direct[e / ENTRIES]), e % ENTRIES);
      if ent.inum == -1 then Abort
      else if ent.name == name then Ret(ent.inum)
      else Scan(d, ino, e + 1, left - 1, name)
  }

  // How many entries that reads: one at a time, up to the one that ends it.
  function EntriesRead(d: seq<Byte>, ino: Inode, e: nat, left: nat, name: Name): nat
    decreases left
  {
    if e >= DIRECT_PTRS * ENTRIES || left == 0 || !Readable(d, ino.direct[e / ENTRIES]) then 0
    else
      var ent := EntryIn(PtrBlock(d, ino.direct[e / ENTRIES]), e % ENTRIES);
      1 + if ent.inum == -1 || ent.name == name then 0 else EntriesRead(d, ino, e + 1, left - 1, name)
  }

  function Lookup(st: State, p: I32, name: Name): Outcome
  {
    if !InRange(st, p) then Ret(-2)
    else if !Get(st.m.ibm, p) then Ret(-3)
    else
      var ino := st.m.inodes[p];
      if ino.kind != DIRECTORY then Ret(-4)
      else if Unsigned(ino.size) % ENTRY_SIZE != 0 then Abort
      else Scan(st.disk, ino, 0, Unsigned(ino.size) / ENTRY_SIZE, name)
  }

  // ---------- ufs_creat ----------

  // What uninitialised stack buffers hold: the two directory blocks and the entry built on the stack.
  datatype Junk = Junk(dir: seq<Byte>, blk: seq<Byte>, ent: seq<Byte>)

  predicate JunkOK(j: Junk) {
    |j.dir| == |j.blk| == BLOCK && |j.ent| == ENTRY_SIZE
  }

  // The first unused slot of a block from j on, or 128.
  function FirstHole(blk: seq<Byte>, j: nat): (r: nat)
    requires |blk| == BLOCK && j <= ENTRIES
    ensures j <= r <= ENTRIES
    ensures r < ENTRIES ==> EntryIn(blk, r).inum == -1
    ensures forall i :: j <= i < r ==> EntryIn(blk, i).inum != -1
    decreases |blk| - j
  {
    if j == ENTRIES || EntryIn(blk, j).inum == -1 then j else FirstHole(blk, j + 1)
  }

  // Is every block from pointer k on full?  Empty pointers are passed over.
  function FullScan(d: seq<Byte>, ps: seq<U32>, k: nat): (r: Outcome)
    requires |ps| == DIRECT_PTRS && k <= DIRECT_PTRS
    ensures r in {Ret(0), Ret(1), Abort}
    decreases |ps| - k
  {
    if k == DIRECT_PTRS then Ret(1)
    else if ps[k] == NONE then FullScan(d, ps, k + 1)
    else if !Readable(d, ps[k]) then Abort
    else if FirstHole(PtrBlock(d, ps[k]), 0) < ENTRIES then Ret(0)
    else FullScan(d, ps, k + 1)
  }

  datatype Slot = Found(k: nat, j: nat) | NoSlot | BadSlot

  // The first unused slot from pointer k on.  Empty pointers are not passed over here.
  function FindSlot(d: seq<Byte>, ps: seq<U32>, k: nat): (r: Slot)
    requires |ps| == DIRECT_PTRS && k <= DIRECT_PTRS
    ensures r.Found? ==> k <= r.k < DIRECT_PTRS && r.j < ENTRIES && Readable(d, ps[r.k])
    decreases |ps| - k
  {
    if k == DIRECT_PTRS then NoSlot
    else if !Readable(d, ps[k]) then BadSlot
    else
      var j := FirstHole(PtrBlock(d, ps[k]), 0);
      if j < ENTRIES then Found(k, j) else FindSlot(d, ps, k + 1)
  }

  // Where the first empty pointer is, or 30.
  function FirstNone(ps: seq<U32>, k: nat): (r: nat)
    requires |ps| == DIRECT_PTRS && k <= DIRECT_PTRS
    ensures k <= r <= DIRECT_PTRS
    ensures r < DIRECT_PTRS ==> ps[r] == NONE
    ensures forall i :: k <= i < r ==> ps[i] != NONE
    decreases |ps| - k
  {
    if k == DIRECT_PTRS || ps[k] == NONE then k else FirstNone(ps, k + 1)
  }

  // The inode is taken before the checks that may still fail.
  function ClaimInode(st: State, e: I32, kind: I32): (r: State)
    requires InRange(st, e)
  {
    var ino := RawInode(kind, st.m.inodes[e].size, NoPtrs());
    st.(m := Meta(Set(st.m.ibm, e), st.m.dbm, st.m.inodes[e := ino]), dirtyI := Set(st.dirtyI, e))
  }

  // A new directory's block: "." and "..".
  function NewDirWrite(s: Super, b: nat, e: I32, p: I32, junk: Junk): (w: DiskWrite)
    requires JunkOK(junk) && 0 <= s.dataRegionAddr && s.dataRegionAddr + b < 0x10_0000
    ensures |w.bytes| == BLOCK
  {
    DiskWrite((s.dataRegionAddr + b) * BLOCK, DirBlock([DirEnt(DotName(), e), DirEnt(DotDotName(), p)], junk.dir))
  }

  function MakeDir(st: State, e: I32, p: I32, b: nat, junk: Junk): (r: Step)
    requires InRange(st, e) && b < st.s.numData && JunkOK(junk)
    ensures StepFrom(st, r)
  {
    DataAddrInside(st, b);
    var ino := st.m.inodes[e];
    var st1 := PutInode(st, e, ino.(size := 2 * ENTRY_SIZE, direct := ino.direct[0 := DataAddr(st.s, b)]));
    DiskStep(TakeBlock(st1, b), NewDirWrite(st.s, b, e, p, junk))
  }

  // The parent's blocks are full: the entry opens data block b.
  function LinkInNewBlock(st: State, p: I32, ent: DirEnt, b: nat, junk: Junk): (r: Step)
    requires InRange(st, p) && b < st.s.numData && JunkOK(junk) && |ent.name| < NAME_SIZE
    ensures StepFrom(st, r)
  {
    DataAddrInside(st, b);
    var w := DiskWrite((st.s.dataRegionAddr + b) * BLOCK, DirBlock([ent], junk.blk));
    var st1 := TakeBlock(st, b);
    var ino := st.m.inodes[p];
    var k := FirstNone(ino.direct, 0);
    var st2 := if k < DIRECT_PTRS then PutInode(st1, p, ino.(direct := ino.direct[k := DataAddr(st.s, b)])) else st1;
    DiskStep(st2, w)
  }

  function EntryWrite(d: seq<Byte>, p: U32, j: nat, ent: DirEnt, junk: Junk): (w: DiskWrite)
    requires Readable(d, p) && j < ENTRIES && JunkOK(junk) && |ent.name| < NAME_SIZE
    ensures w.addr + |w.bytes| <= |d|
  {
    DiskWrite(Ptr(p) * BLOCK + ENTRY_SIZE * j, EncodeEntry(ent, junk.ent))
  }

  // Some block of the parent has a hole: the entry goes into the first one.
  function LinkInHole(st: State, p: I32, ent: DirEnt, junk: Junk): (r: Step)
    requires InRange(st, p) && JunkOK(junk) && |ent.name| < NAME_SIZE
    ensures StepFrom(st, r)
  {
    var ps := st.m.inodes[p].direct;
    match FindSlot(st.disk, ps, 0)
    case BadSlot => Step(Abort, st, [])
    case NoSlot => Step(Ret(0), st, [])
    case Found(k, j) => DiskStep(st, EntryWrite(st.disk, ps[k], j, ent, junk))
  }

  // Updating the parent; b is the data block left for it, or -1.
  function Link(st: State, p: I32, ent: DirEnt, full: bool, b: int, junk: Junk): (r: Step)
    requires InRange(st, p) && -1 <= b < st.s.numData && JunkOK(junk) && |ent.name| < NAME_SIZE
    ensures StepFrom(st, r)
  {
    var st1 := MarkInode(st, p);
    if full && (b == -1 || st.m.inodes[p].size == MAX_SIZE) then Step(Ret(-1), st1, [])
    else
      var r := if full then LinkInNewBlock(st1, p, ent, b, junk) else LinkInHole(st1, p, ent, junk);
      if r.out == Ret(0) then r.(st := PutInode(r.st, p, Grow(r.st.m.inodes[p], ENTRY_SIZE))) else r
  }

  // The new inode and its link, once the searches are done: full tells whether the parent's blocks are
  // full, b and b2 are the first two free data blocks (or -1).
  function Place(st: State, p: I32, kind: I32, ent: DirEnt, full: bool, b: int, b2: int, junk: Junk): (r: Step)
    requires InRange(st, p) && InRange(st, ent.inum) && JunkOK(junk) && |ent.name| < NAME_SIZE
    requires -1 <= b < st.s.numData && -1 <= b2 < st.s.numData
    ensures StepFrom(st, r)
  {
    var e := ent.inum;
    if kind != DIRECTORY then
      Link(PutInode(st, e, st.m.inodes[e].(size := 0)), p, ent, full, b, junk)
    else if b == -1 || (full && b2 == -1) then Step(Ret(-1), st, [])
    else
      var mk := MakeDir(st, e, p, b, junk);
      var r := Link(mk.st, p, ent, full, b2, junk);
      ApplyAppend(st.disk, mk.pre, r.pre);
      r.(pre := mk.pre + r.pre)
  }

  // From the claimed inode to just before the commit.
  function CreatClaimed(st: State, p: I32, kind: I32, ent: DirEnt, junk: Junk): (r: Step)
    requires InRange(st, p) && InRange(st, ent.inum) && JunkOK(junk) && |ent.name| < NAME_SIZE
    ensures StepFrom(st, r)
  {
    var scan := FullScan(st.disk, st.m.inodes[p].direct, 0);
    if st.m.inodes[p].size == MAX_SIZE then Step(Ret(-1), st, [])
    else if scan == Abort then Step(Abort, st, [])
    else Place(st, p, kind, ent, scan == Ret(1), FirstClear(st.m.dbm, 0, st.s.numData),
               SecondClear(st.m.dbm, st.s.numData), junk)
  }

  function Creat(st: State, p: I32, kind: I32, name: Name, junk: Junk): (r: Step)
    requires JunkOK(junk)
    ensures StepFrom(st, r)
  {
    if !Allocated(st, p) || st.m.inodes[p].kind != DIRECTORY || |name| > 27 then Step(Ret(-1), st, [])
    else
      var found := Lookup(st, p, name);
      var e := FirstClear(st.m.ibm, 0, st.s.numInodes);
      if found == Abort then Step(Abort, st, [])
      else if found != Ret(-1) || e == -1 then Step(Ret(-1), st, [])
      else CreatClaimed(ClaimInode(st, e, kind), p, kind, DirEnt(name, e), junk)
  }

  // ---------- ufs_write ----------

  // Gives pointer k of the inode a block, if it has none and one is free.
  function Attach(st: State, i: I32, k: nat): (r: State)
    requires InRange(st, i) && k < DIRECT_PTRS
    ensures r.s == st.s && r.disk == st.disk
  {
    var ino := st.m.inodes[i];
    var b := FirstClear(st.m.dbm, 0, st.s.numData);
    if ino.direct[k] != NONE || b == -1 then st
    else
      DataAddrInside(st, b);
      PutInode(TakeBlock(st, b), i, ino.(direct := ino.direct[k := DataAddr(st.s, b)]))
  }

  // How much of the data goes into the current block.
  function Chunk(data: seq<Byte>, off: nat): (n: nat)
    requires off <= BLOCK
    ensures n <= |data| && off + n <= BLOCK
  {
    if |data| > BLOCK - off then BLOCK - off else |data|
  }

  // The pointer the loop uses in round k.
  function RoundPtr(st: State, i: I32, k: nat): U32
    requires InRange(st, i) && k < DIRECT_PTRS
  {
    Attach(st, i, k).m.inodes[i].direct[k]
  }

  function RoundWrite(st: State, i: I32, k: nat, off: nat, bs: seq<Byte>): (w: DiskWrite)
    requires InRange(st, i) && k < DIRECT_PTRS && off + |bs| <= BLOCK
    requires Readable(st.disk, RoundPtr(st, i, k))
    ensures w.addr + |w.bytes| <= |st.disk|
  {
    DiskWrite(Ptr(RoundPtr(st, i, k)) * BLOCK + off, bs)
  }

  // One round of the loop: bs goes to byte off of the block of pointer k.
  function Round(st: State, i: I32, k: nat, off: nat, bs: seq<Byte>): (r: State)
    requires InRange(st, i) && k < DIRECT_PTRS && off + |bs| <= BLOCK
    requires Readable(st.disk, RoundPtr(st, i, k))
    ensures r.s == st.s && r.disk == Apply(st.disk, [RoundWrite(st, i, k, off, bs)])
  {
    var st1 := Attach(st, i, k);
    DiskStep(PutInode(st1, i, Grow(st1.m.inodes[i], |bs|)), RoundWrite(st, i, k, off, bs)).st
  }

  // The loop over pointers from k on; the first write starts at byte off of its block.
  function WriteFrom(st: State, i: I32, k: nat, off: nat, data: seq<Byte>): (r: Step)
    requires InRange(st, i) && off < BLOCK
    ensures StepFrom(st, r)
    decreases |data|
  {
    if k >= DIRECT_PTRS || data == [] then Step(Ret(0), st, [])
    else if RoundPtr(st, i, k) == NONE then Step(Ret(-1), st, [])
    else if !Readable(st.disk, RoundPtr(st, i, k)) then Step(Abort, Attach(st, i, k), [])
    else
      var n := Chunk(data, off);
      var w := RoundWrite(st, i, k, off, data[..n]);
      var rest := WriteFrom(Round(st, i, k, off, data[..n]), i, k + 1, 0, data[n..]);
      ApplyAppend(st.disk, [w], rest.pre);
      Step(rest.out, rest.st, [w] + rest.pre)
  }

  function Write(st: State, i: I32, data: seq<Byte>, offset: I32, nbytes: I32): (r: Step)
    requires nbytes <= |data|
    ensures StepFrom(st, r)
  {
    if !Allocated(st, i) then Step(Ret(-1), st, [])
    else if nbytes > 4096 || offset > st.m.inodes[i].size || st.m.inodes[i].kind != REGULAR_FILE
            || offset < 0 || nbytes <= 0 then Step(Ret(-1), st, [])
    else WriteFrom(MarkInode(st, i), i, offset / BLOCK, offset % BLOCK, data[..nbytes])
  }

  // ---------- ufs_read ----------

  datatype ReadResult = ReadResult(out: Outcome, data: seq<Byte>)

  // n bytes from byte off of pointer k on; it stops early at the last pointer.
  function ReadFrom(d: seq<Byte>, ps: seq<U32>, k: nat, off: nat, n: nat): (r: ReadResult)
    requires |ps| == DIRECT_PTRS && off < BLOCK
    ensures |r.data| <= n
    decreases n
  {
    if k >= DIRECT_PTRS || n == 0 then ReadResult(Ret(0), [])
    else if !Readable(d, ps[k]) then ReadResult(Abort, [])
    else
      var c := if n > BLOCK - off then BLOCK - off else n;
      var r := ReadFrom(d, ps, k + 1, 0, n - c);
      ReadResult(r.out, PtrBlock(d, ps[k])[off..off + c] + r.data)
  }

  function Read(st: State, i: I32, offset: I32, nbytes: I32): (r: ReadResult)
    ensures nbytes > 0 ==> |r.data| <= nbytes
  {
    if !Allocated(st, i) then ReadResult(Ret(-1), [])
    else
      var ino := st.m.inodes[i];
      if offset < 0 || nbytes <= 0 || offset + nbytes > ino.size then ReadResult(Ret(-1), [])
      else if ino.kind == DIRECTORY && offset % BLOCK % ENTRY_SIZE != 0 then ReadResult(Ret(-1), [])
      else ReadFrom(st.disk, ino.direct, offset / BLOCK, offset % BLOCK, nbytes)
  }
}
