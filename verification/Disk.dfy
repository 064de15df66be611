// The disk behind the driver's lseek, read and write: an array of bytes and a position in it.

module DiskDriver {
  import opened Bytes

  class Disk {
    const data: array<Byte>
    var pos: nat
    ghost var log: seq<DiskWrite>   // every write so far

    constructor (data: array<Byte>)
      ensures this.data == data && pos == 0 && log == []
    {
      this.data, pos, log := data, 0, [];
    }

    ghost predicate Valid()
      reads this
    {
      pos <= data.Length
    }

    // Returns -1 on failure.
    method Lseek(addr: U32) returns (rc: I32)
      requires Valid()
      modifies this`pos
      ensures Valid()
      ensures rc == if addr <= data.Length then 0 else -1
      ensures pos == if addr <= data.Length then addr else old(pos)
    {
      if addr > data.Length {
        return -1;
      }
      pos := addr;
      rc := 0;
    }

    // Returns the bytes read: fewer than asked for at the end of the disk.
    method Read(count: nat) returns (bs: seq<Byte>)
      requires Valid()
      modifies this`pos
      ensures Valid() && pos == old(pos) + |bs| && bs == data[old(pos)..pos]
      ensures |bs| == if old(pos) + count <= data.Length then count else data.Length - old(pos)
    {
      var n := if pos + count <= data.Length then count else data.Length - pos;
      bs := data[pos..pos + n];
      pos := pos + n;
    }

    // Returns how many bytes were written.
    method Write(bs: seq<Byte>) returns (n: nat)
      requires Valid()
      modifies this, data
      ensures Valid() && pos == old(pos) + n
      ensures n == if old(pos) + |bs| <= data.Length then |bs| else data.Length - old(pos)
      ensures data[..] == Splice(old(data[..]), old(pos), bs[..n])
      ensures log == if n == 0 then old(log) else old(log) + [DiskWrite(old(pos), bs[..n])]
    {
      n := if pos + |bs| <= data.Length then |bs| else data.Length - pos;
      for i := 0 to n
        invariant pos == old(pos) && log == old(log)
        invariant forall k :: 0 <= k < data.Length ==>
          data[k] == if pos <= k < pos + i then bs[k - pos] else old(data[k])
      {
        data[pos + i] := bs[i];
      }
      if n > 0 {
        log := log + [DiskWrite(pos, bs[..n])];
      }
      pos := pos + n;
    }
  }
}
