// The calls that change a disk, and runs of them.

module FsCalls {
  import opened Bytes
  import opened Format
  import opened FsModel
  import opened FsUnlinkModel

  // ufs_creat, ufs_write or ufs_unlink, with any arguments.  What an unlink subtracts from a block's address to
  // index the data bitmap is 0 in the code.
  datatype Call =
    | CreatCall(p: I32, kind: I32, name: Name, junk: Junk)
    | WriteCall(i: I32, data: seq<Byte>, offset: I32)
    | UnlinkCall(p: I32, name: Name, base: nat, junk: Junk)

  predicate CallOK(c: Call) {
    match c
    case CreatCall(_, _, _, junk) => JunkOK(junk)
    case WriteCall(_, data, _) => |data| < 0x8000_0000
    case UnlinkCall(_, _, _, junk) => JunkOK(junk)
  }

  // The inode a call names.
  function Target(c: Call): I32 {
    match c
    case CreatCall(p, _, _, _) => p
    case WriteCall(i, _, _) => i
    case UnlinkCall(p, _, _, _) => p
  }

  function Do(st: State, c: Call): (r: Step)
    requires CallOK(c)
    ensures StepFrom(st, r)
  {
    match c
    case CreatCall(p, kind, name, junk) => Creat(st, p, kind, name, junk)
    case WriteCall(i, data, offset) => Write(st, i, data, offset, |data|)
    case UnlinkCall(p, name, base, junk) => Unlink(st, p, name, base, junk)
  }

  // A write of part of a buffer, or of no bytes, is a call with that part alone.
  lemma WriteIsCall(st: State, i: I32, data: seq<Byte>, offset: I32, nbytes: I32)
    requires nbytes <= |data|
    ensures Write(st, i, data, offset, nbytes)
            == Do(st, WriteCall(i, if nbytes > 0 then data[..nbytes] else [], offset))
  {
    assert nbytes > 0 ==> data[..nbytes][..nbytes] == data[..nbytes];
  }

  // Each state follows from the one before by its call.
  predicate Run(sts: seq<State>, calls: seq<Call>) {
    |sts| == |calls| + 1 && forall k :: 0 <= k < |calls| ==>
         CallOK(calls[k]) && sts[k + 1] == Finish(Do(sts[k], calls[k]))
  }
}
