// ufs_unlink as a function on the whole state.  The code clears the data bitmap at the block address itself,
// where allocation uses the address less that of the data region.  The model takes what is subtracted as a
// parameter: 0 is the code, s.dataRegionAddr its evident intent.

module FsUnlinkModel {
  import opened Bits
  import opened Bytes
  import opened Format
  import opened FsModel

  // Clearing bit q - base for each set pointer q.  An index outside the bitmap is outside what C defines.
  datatype Freed = Freed(dbm: seq<Word>, dirtyD: seq<Word>) | OutOfBounds

  function Free(dbm: seq<Word>, dirtyD: seq<Word>, ps: seq<U32>, base: nat): (r: Freed)
    requires |dbm| == |dirtyD|
    ensures r.Freed? ==> |r.dbm| == |r.dirtyD| == |dbm|
    decreases |ps|
  {
    if ps == [] then Freed(dbm, dirtyD)
    else if ps[0] == NONE then Free(dbm, dirtyD, ps[1..], base)
    else if !(base <= ps[0] < base + WORD_BITS * |dbm|) then OutOfBounds
    else Free(Reset(dbm, ps[0] - base), Set(dirtyD, ps[0] - base), ps[1..], base)
  }

  // Live entries of a block from slot j on.
  function LiveCount(blk: seq<Byte>, j: nat): nat
    requires |blk| == BLOCK && j <= ENTRIES
    decreases |blk| - j
  {
    if j == ENTRIES then 0 else (if EntryIn(blk, j).inum == -1 then 0 else 1) + LiveCount(blk, j + 1)
  }

  // The last live slot from j on that holds the name, or -1.
  function LastNamed(blk: seq<Byte>, name: Name, j: nat): (r: int)
    requires |blk| == BLOCK && j <= ENTRIES
    ensures r == -1 || (j <= r < ENTRIES && EntryIn(blk, r).inum != -1 && EntryIn(blk, r).name == name)
    ensures r == -1 ==> forall i :: j <= i < ENTRIES && EntryIn(blk, i).inum != -1 ==> EntryIn(blk, i).name != name
    ensures r != -1 ==> forall i :: r < i < ENTRIES && EntryIn(blk, i).inum != -1 ==> EntryIn(blk, i).name != name
    decreases |blk| - j
  {
    if j == ENTRIES then -1
    else
      var r := LastNamed(blk, name, j + 1);
      if r != -1 then r
      else if EntryIn(blk, j).inum != -1 && EntryIn(blk, j).name == name then j
      else -1
  }

  // Where the parent's entry is: pointer k, slot j, and how many live entries its block has.
  datatype Spot = Spot(k: nat, j: nat, count: nat) | NoSpot | BadBlock

  function FindName(d: seq<Byte>, ps: seq<U32>, name: Name, k: nat): (r: Spot)
    requires |ps| == DIRECT_PTRS && k <= DIRECT_PTRS
    ensures r.Spot? ==> k <= r.k < DIRECT_PTRS && r.j < ENTRIES && Readable(d, ps[r.k])
    decreases |ps| - k
  {
    if k == DIRECT_PTRS then NoSpot
    else if ps[k] == NONE then FindName(d, ps, name, k + 1)
    else if !Readable(d, ps[k]) then BadBlock
    else
      var j := LastNamed(PtrBlock(d, ps[k]), name, 0);
      if j == -1 then FindName(d, ps, name, k + 1) else Spot(k, j, LiveCount(PtrBlock(d, ps[k]), 0))
  }

  // The child is gone: its inode bit, and the bits of its blocks.
  function DropChild(st: State, p: I32, c: I32, base: nat): (r: Step)
    requires InRange(st, p) && InRange(st, c)
    ensures StepFrom(st, r)
  {
    var f := Free(st.m.dbm, st.dirtyD, st.m.inodes[c].direct, base);
    if f.OutOfBounds? then Step(Undefined, st, [])
    else Step(Ret(0), st.(m := Meta(Reset(st.m.ibm, c), f.dbm, st.m.inodes),
                          dirtyI := Set(Set(st.dirtyI, c), p), dirtyD := f.dirtyD), [])
  }

  function EraseWrite(d: seq<Byte>, p: U32, j: nat, junk: Junk): (w: DiskWrite)
    requires Readable(d, p) && j < ENTRIES && JunkOK(junk)
    ensures w.addr + |w.bytes| <= |d|
  {
    DiskWrite(Ptr(p) * BLOCK + ENTRY_SIZE * j, EncodeUnused(junk.ent))
  }

  // The parent's side: its size, and the slot or the whole block of the entry.
  function DropEntry(st: State, p: I32, name: Name, base: nat, junk: Junk): (r: Step)
    requires InRange(st, p) && JunkOK(junk)
    ensures StepFrom(st, r)
  {
    var ino := Grow(st.m.inodes[p], -(ENTRY_SIZE as int));
    var st1 := PutInode(st, p, ino);
    match FindName(st.disk, ino.direct, name, 0)
    case BadBlock => Step(Abort, st1, [])
    case NoSpot => Step(Ret(0), st1, [])
    case Spot(k, j, count) =>
      if count != 1 then DiskStep(st1, EraseWrite(st.disk, ino.direct[k], j, junk))
      else
        var f := Free(st.m.dbm, st.dirtyD, [ino.direct[k]], base);
        if f.OutOfBounds? then Step(Undefined, st1, [])
        else Step(Ret(0), st1.(m := Meta(st.m.ibm, f.dbm, st.m.inodes[p := ino.(direct := ino.direct[k := NONE])]),
                               dirtyD := f.dirtyD), [])
  }

  function Unlink(st: State, p: I32, name: Name, base: nat, junk: Junk): (r: Step)
    requires JunkOK(junk)
    ensures StepFrom(st, r)
  {
    if !Allocated(st, p) || name == DotName() || name == DotDotName() then Step(Ret(-1), st, [])
    else
      match Lookup(st, p, name)
      case Abort => Step(Abort, st, [])
      case Undefined => Step(Undefined, st, [])
      case Ret(c) =>
        if c == -1 then Step(Ret(-1), st, [])
        else if !InRange(st, c) then Step(Undefined, st, [])
        else if st.m.inodes[c].kind == DIRECTORY && st.m.inodes[c].size != 2 * ENTRY_SIZE then Step(Ret(-1), st, [])
        else
          var drop := DropChild(st, p, c, base);
          if drop.out != Ret(0) then drop else DropEntry(drop.st, p, name, base, junk)
  }
}
