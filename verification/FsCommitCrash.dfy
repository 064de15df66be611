// Stopping a commit half-way: which metadata a mount then loads, and when it is always the old or the new.

module FsCommitCrash {
  import opened Bits
  import opened Bytes
  import opened Format
  import opened FsModel
  import opened FsCommit

  // ---------- metadata, one disk write at a time ----------

  // What a single write of commit_dirty_to_disk carries: a word of a bitmap, or an inode.
  datatype Unit = InodeWord(k: nat) | DataWord(k: nat) | OneInode(i: nat)

  predicate SameShape(l: Meta, m: Meta) {
    |l.ibm| == |m.ibm| && |l.dbm| == |m.dbm| && |l.inodes| == |m.inodes|
  }

  predicate InMeta(m: Meta, u: Unit) {
    match u
    case InodeWord(k) => k < |m.ibm|
    case DataWord(k) => k < |m.dbm|
    case OneInode(i) => i < |m.inodes|
  }

  // l with that unit as m has it.
  function PutUnit(l: Meta, m: Meta, u: Unit): (r: Meta)
    requires SameShape(l, m) && InMeta(m, u)
    ensures SameShape(r, m)
  {
    match u
    case InodeWord(k) => l.(ibm := l.ibm[k := m.ibm[k]])
    case DataWord(k) => l.(dbm := l.dbm[k := m.dbm[k]])
    case OneInode(i) => l.(inodes := l.inodes[i := m.inodes[i]])
  }

  predicate Differ(l: Meta, m: Meta, u: Unit)
    requires SameShape(l, m)
  {
    InMeta(m, u) &&
    match u
    case InodeWord(k) => l.ibm[k] != m.ibm[k]
    case DataWord(k) => l.dbm[k] != m.dbm[k]
    case OneInode(i) => l.inodes[i] != m.inodes[i]
  }

  // The two differ in no more than one unit.
  ghost predicate AtMostOne(l: Meta, m: Meta)
    requires SameShape(l, m)
  {
    forall u, v {:trigger Differ(l, m, u), Differ(l, m, v)} :: Differ(l, m, u) && Differ(l, m, v) ==> u == v
  }

  predicate AllIn(m: Meta, us: seq<Unit>) {
    forall j :: 0 <= j < |us| ==> InMeta(m, us[j])
  }

  function PutAll(l: Meta, m: Meta, us: seq<Unit>): (r: Meta)
    requires SameShape(l, m) && AllIn(m, us)
    ensures SameShape(r, m)
  {
    if us == [] then l else PutUnit(PutAll(l, m, us[..|us| - 1]), m, us[|us| - 1])
  }

  lemma SameUnits(l: Meta, m: Meta)
    requires SameShape(l, m) && forall u :: !Differ(l, m, u)
    ensures l == m
  {
    forall k | 0 <= k < |l.ibm|
      ensures l.ibm[k] == m.ibm[k]
    {
      assert !Differ(l, m, InodeWord(k));
    }
    forall k | 0 <= k < |l.dbm|
      ensures l.dbm[k] == m.dbm[k]
    {
      assert !Differ(l, m, DataWord(k));
    }
    forall i | 0 <= i < |l.inodes|
      ensures l.inodes[i] == m.inodes[i]
    {
      assert !Differ(l, m, OneInode(i));
    }
  }

  lemma PutDiffers(l: Meta, m: Meta, u: Unit, v: Unit)
    requires SameShape(l, m) && InMeta(m, u)
    ensures Differ(PutUnit(l, m, u), m, v) <==> Differ(l, m, v) && v != u
    ensures !Differ(l, m, u) ==> PutUnit(l, m, u) == l
    ensures Differ(l, m, u) ==> PutUnit(l, m, u) != l
  {
    match u
    case InodeWord(k) => assert l.ibm[k := l.ibm[k]] == l.ibm;
    case DataWord(k) => assert l.dbm[k := l.dbm[k]] == l.dbm;
    case OneInode(i) => assert l.inodes[i := l.inodes[i]] == l.inodes;
  }

  // Putting the only unit that differs gives m.
  lemma PutLast(l: Meta, m: Meta, u: Unit)
    requires SameShape(l, m) && Differ(l, m, u)
    ensures PutUnit(l, m, u) == m <==> AtMostOne(l, m)
  {
    forall v
      ensures Differ(PutUnit(l, m, u), m, v) <==> Differ(l, m, v) && v != u
    {
      PutDiffers(l, m, u, v);
    }
    if AtMostOne(l, m) {
      SameUnits(PutUnit(l, m, u), m);
    } else {
      var v, w :| Differ(l, m, v) && Differ(l, m, w) && v != w;
      assert Differ(PutUnit(l, m, u), m, if v == u then w else v);
    }
  }

  // Every unit is m's once it was put there, and l's until then.
  lemma {:induction false} PutAllIs(l: Meta, m: Meta, us: seq<Unit>, u: Unit)
    requires SameShape(l, m) && AllIn(m, us)
    ensures !Differ(PutAll(l, m, us), if u in us then m else l, u)
    decreases |us|
  {
    if us != [] {
      PutAllIs(l, m, us[..|us| - 1], u);
    }
  }

  // If they differ in one unit at most, all that ever shows is the one or the other.
  lemma {:induction false} OldOrNew(l: Meta, m: Meta, us: seq<Unit>)
    requires SameShape(l, m) && AllIn(m, us) && AtMostOne(l, m)
    ensures PutAll(l, m, us) == l || PutAll(l, m, us) == m
    decreases |us|
  {
    if us != [] {
      var u := us[|us| - 1];
      OldOrNew(l, m, us[..|us| - 1]);
      PutDiffers(l, m, u, u);
      PutDiffers(m, m, u, u);
      if Differ(l, m, u) {
        PutLast(l, m, u);
      }
    }
  }

  // If they differ in two units, something else shows after some of them.
  lemma {:induction false} NeitherSomewhere(l: Meta, m: Meta, us: seq<Unit>) returns (n: nat)
    requires SameShape(l, m) && AllIn(m, us) && !AtMostOne(l, m) && PutAll(l, m, us) == m
    ensures n <= |us| && AllIn(m, us[..n]) && PutAll(l, m, us[..n]) != l && PutAll(l, m, us[..n]) != m
    decreases |us|
  {
    assert l != m;
    var vs, u := us[..|us| - 1], us[|us| - 1];
    var x := PutAll(l, m, vs);
    if x == m {
      n := NeitherSomewhere(l, m, vs);
      assert us[..n] == vs[..n];
    } else {
      if x == l {
        PutDiffers(l, m, u, u);
        PutLast(l, m, u);
      }
      n := |us| - 1;
    }
  }

  // ---------- the commit as a sequence of units ----------

  function UnitWrite(st: State, u: Unit): (w: DiskWrite)
    requires InMeta(st.m, u)
  {
    match u
    case InodeWord(k) => DiskWrite(InodeWordAddr(st.s, k), WordBytes(st.m.ibm[k]))
    case DataWord(k) => DiskWrite(DataWordAddr(st.s, k), WordBytes(st.m.dbm[k]))
    case OneInode(i) => DiskWrite(InodeAddr(st.s, i), EncodeInode(st.m.inodes[i]))
  }

  function InodeUnits(st: State, n: nat): (us: seq<Unit>)
    requires n <= st.s.numInodes
    ensures AllIn(st.m, us)
  {
    if n == 0 then []
    else if !Get(st.dirtyI, n - 1) then InodeUnits(st, n - 1)
    else InodeUnits(st, n - 1) + [InodeWord((n - 1) / 32)] + [OneInode(n - 1)]
  }

  function DataUnits(st: State, n: nat): (us: seq<Unit>)
    requires n <= st.s.numData
    ensures AllIn(st.m, us)
  {
    if n == 0 then []
    else if !Get(st.dirtyD, n - 1) then DataUnits(st, n - 1)
    else DataUnits(st, n - 1) + [DataWord((n - 1) / 32)]
  }

  function CommitUnits(st: State): (us: seq<Unit>)
    ensures AllIn(st.m, us)
  {
    InodeUnits(st, st.s.numInodes) + DataUnits(st, st.s.numData)
  }

  // The log writes those units in that order.
  ghost predicate LogOf(st: State, log: seq<DiskWrite>, us: seq<Unit>) {
    AllIn(st.m, us) && |log| == |us| && forall j {:trigger us[j]} :: 0 <= j < |us| ==> log[j] == UnitWrite(st, us[j])
  }

  lemma UnitWrites(st: State, i: nat)
    requires i < st.s.numInodes
    ensures i / 32 < |st.m.ibm|
    ensures UnitWrite(st, InodeWord(i / 32)) == DiskWrite(InodeWordAddr(st.s, i / 32), WordBytes(st.m.ibm[i / 32]))
    ensures UnitWrite(st, OneInode(i)) == DiskWrite(InodeAddr(st.s, i), EncodeInode(st.m.inodes[i]))
  {
  }

  lemma {:induction false} InodeLogUnits(st: State, n: nat)
    requires n <= st.s.numInodes
    ensures LogOf(st, InodeLog(st, n), InodeUnits(st, n))
    decreases n
  {
    hide UnitWrite;
    if n > 0 {
      InodeLogUnits(st, n - 1);
      if Get(st.dirtyI, n - 1) {
        UnitWrites(st, n - 1);
      }
    }
  }

  lemma {:induction false} DataLogUnits(st: State, n: nat)
    requires n <= st.s.numData
    ensures LogOf(st, DataLog(st, n), DataUnits(st, n))
    decreases n
  {
    if n > 0 {
      DataLogUnits(st, n - 1);
    }
  }

  lemma CommitLogUnits(st: State)
    ensures LogOf(st, CommitLog(st), CommitUnits(st))
  {
    hide UnitWrite;
    InodeLogUnits(st, st.s.numInodes);
    DataLogUnits(st, st.s.numData);
  }

  lemma UnitLoads(st: State, d: seq<Byte>, u: Unit)
    requires |d| == |st.disk| && InMeta(st.m, u)
    ensures UnitWrite(st, u).addr + |UnitWrite(st, u).bytes| <= |d|
    ensures Load(st.s, Splice(d, UnitWrite(st, u).addr, UnitWrite(st, u).bytes)) == PutUnit(Load(st.s, d), st.m, u)
  {
    hide Load, Splice, WordBytes, EncodeInode;
    match u
    case InodeWord(k) => LoadInodeWord(st.s, d, k, st.m.ibm[k]);
    case DataWord(k) => LoadDataWord(st.s, d, k, st.m.dbm[k]);
    case OneInode(i) => LoadInode(st.s, d, i, st.m.inodes[i]);
  }

  // After any number of the writes a mount loads the memory's version of the units written so far.
  lemma {:induction false} PrefixLoads(st: State, log: seq<DiskWrite>, us: seq<Unit>)
    requires LogOf(st, log, us)
    ensures Inside(log, 0, |st.disk|)
    ensures Load(st.s, Apply(st.disk, log)) == PutAll(Load(st.s, st.disk), st.m, us)
    decreases |us|
  {
    hide Load, Splice, PutUnit, UnitWrite;
    if us != [] {
      var log1, us1 := log[..|log| - 1], us[..|us| - 1];
      PrefixLoads(st, log1, us1);
      var w, u := log[|log| - 1], us[|us| - 1];
      assert w == UnitWrite(st, u);
      UnitLoads(st, Apply(st.disk, log1), u);
      assert log == log1 + [w];
      ApplyOne(st.disk, log1, w);
    }
  }

  lemma PrefixInside(log: seq<DiskWrite>, n: nat, size: nat)
    requires Inside(log, 0, size) && n <= |log|
    ensures Inside(log[..n], 0, size)
  {
    assert forall w :: w in log[..n] ==> w in log;
  }

  // The disk after the first n writes of the commit.
  function Halfway(st: State, n: nat): (d: seq<Byte>)
    requires n <= |CommitLog(st)|
    ensures |d| == |st.disk|
  {
    PrefixInside(CommitLog(st), n, |st.disk|);
    Apply(st.disk, CommitLog(st)[..n])
  }

  lemma HalfwayLoads(st: State, n: nat)
    requires n <= |CommitLog(st)|
    ensures n <= |CommitUnits(st)| && AllIn(st.m, CommitUnits(st)[..n])
    ensures Load(st.s, Halfway(st, n)) == PutAll(Load(st.s, st.disk), st.m, CommitUnits(st)[..n])
  {
    hide Load, CommitLog, CommitUnits, PutAll, Apply;
    CommitLogUnits(st);
    PrefixLoads(st, CommitLog(st)[..n], CommitUnits(st)[..n]);
  }

  // A commit is atomic, in that stopping it between any two of its writes leaves the old or the new metadata to be
  // loaded, exactly when the two differ in one bitmap word or one inode at most.
  lemma CommitAtomicIff(st: State)
    requires Covered(st)
    ensures (forall n {:trigger Halfway(st, n)} :: 0 <= n <= |CommitLog(st)| ==>
               Load(st.s, Halfway(st, n)) in {Load(st.s, st.disk), st.m})
            <==> AtMostOne(Load(st.s, st.disk), st.m)
  {
    hide Load, CommitLog, CommitUnits, AtMostOne, PutAll, Covers;
    var l, log, us := Load(st.s, st.disk), CommitLog(st), CommitUnits(st);
    CommitLogUnits(st);
    forall n: nat | n <= |log|
      ensures Load(st.s, Halfway(st, n)) == PutAll(l, st.m, us[..n])
    {
      HalfwayLoads(st, n);
    }
    if AtMostOne(l, st.m) {
      forall n | 0 <= n <= |log|
        ensures Load(st.s, Halfway(st, n)) in {l, st.m}
      {
        OldOrNew(l, st.m, us[..n]);
      }
    } else {
      CommitRestores(st);
      assert us[..|us|] == us && log[..|log|] == log;
      assert Halfway(st, |log|) == Commit(st).disk;
      var n := NeitherSomewhere(l, st.m, us);
      assert Load(st.s, Halfway(st, n)) !in {l, st.m};
    }
  }
}
