// The invariant over runs: a tree, and around it whatever creats that failed have left allocated.

module FsForest {
  import opened Bits
  import opened Bytes
  import opened Format
  import opened Tree
  import opened FsModel
  import opened FsInv
  import opened FsLookup
  import opened FsCreat
  import opened FsUnlink
  import opened FsWrite
  import opened FsAppend
  import opened FsCommit
  import opened FsMarks
  import opened FsCalls

  // What a call may do to the tree: nothing, one more empty child, one leaf less, or a prefix of the data in one
  // file; a call that returns 0 has done all of it, as far as the 30 pointers reach.
  ghost predicate TreeStep(t: Tree, c: Call, out: Outcome, t': Tree) {
    if Target(c) !in t then t' == t
    else
      (out == Ret(0) || out == Ret(-1)) &&
      match c
      case CreatCall(p, kind, name, _) =>
        if out == Ret(0)
        then IsDir(t, p) && Find(t[p].entries, name) == -1
             && exists e :: e > 0 && e !in t && t' == AddChild(t, p, kind, name, e)
        else t' == t
      case WriteCall(i, data, offset) =>
        if WriteOK(t, i, data, offset)
        then exists n :: 0 <= n <= |data| && t' == t[i := Patch(t[i], offset, data[..n])]
                         && (out == Ret(0) <==> n == Fits(|data|, offset))
        else t' == t && out == Ret(-1)
      case UnlinkCall(p, name, _, _) =>
        if CanUnlink(t, p, name)
        then Last(t, p).name == name && t' == DropLast(t, p) && out == Ret(0)
        else t' == t && out == Ret(-1)
  }

  // ---------- the invariant ----------

  // Every directory can be searched and extended, and has no two entries of one name.
  ghost predicate Forest(u: Tree) {
    forall d {:trigger IsDir(u, d)} :: IsDir(u, d) ==> LiveEntries(u[d].entries) && DistinctNames(u[d].entries)
  }

  // Entry k of directory d, neither "." nor "..", leads to inode i.
  predicate Leads(u: Tree, i: I32, d: I32, k: nat) {
    IsDir(u, d) && k < |u[d].entries| && u[d].entries[k].inum == i
    && u[d].entries[k].name != DotName() && u[d].entries[k].name != DotDotName()
  }

  // What the directories outside t name is outside t too, is not themselves, and has no second name outside t.
  ghost predicate Loose(t: Tree, u: Tree) {
    forall i, d, k {:trigger Leads(u, i, d, k)} :: Leads(u, i, d, k) && d !in t ==>
      && i in u && i !in t && i != d
      && forall d', k' {:trigger Leads(u, i, d', k')} :: Leads(u, i, d', k') && d' !in t ==> d' == d && k' == k
  }

  ghost predicate Within(t: Tree, u: Tree) {
    forall i {:trigger i in t} :: i in t ==> i in u && u[i] == t[i]
  }

  // A directory whose creat failed before it had a block, in an inode whose last use left it a size: a lookup in
  // it aborts.
  predicate Stuck(m: Meta, i: I32) {
    Live(m, i) && m.inodes[i].kind == DIRECTORY && m.inodes[i].direct == NoPtrs() && m.inodes[i].size != 0
  }

  ghost predicate AllPlaced(m: Meta, u: Tree) {
    forall i {:trigger Live(m, i)} :: Live(m, i) && i !in u ==> Stuck(m, i)
  }

  // The tree t is a part of u, which is all that the allocated inodes show: t itself and whatever was claimed by
  // creats that failed, or put below such an inode later.
  ghost predicate Grown(st: State, t: Tree, u: Tree) {
    Ref(st, u) && TreeOK(t) && Within(t, u) && Forest(u) && Loose(t, u) && AllPlaced(st.m, u)
  }

  ghost predicate Good(st: State, t: Tree, u: Tree) {
    Grown(st, t, u) && Marked(st)
  }

  // A state after mounting a disk: the metadata is what the disk holds, the dirty bitmaps are arbitrary.
  ghost predicate Mounted(st: State, s: Super, d: seq<Byte>) {
    st.s == s && st.disk == d && Synced(st)
  }

  lemma SyncedIsCovered(st: State)
    requires Synced(st)
    ensures Covered(st)
  {
  }

  // A tree that is all there is.
  lemma TreeIsForest(t: Tree)
    requires TreeOK(t)
    ensures Forest(t)
  {
    forall d | IsDir(t, d)
      ensures LiveEntries(t[d].entries) && DistinctNames(t[d].entries)
    {
      EntriesAreLive(t, d);
      assert DirShape(t, d);
    }
  }

  // A tree that is all there is.
  lemma GrownAlone(st: State, t: Tree)
    requires Ref(st, t) && TreeOK(t) && forall i :: Live(st.m, i) ==> i in t
    ensures Grown(st, t, t)
  {
    hide Ref, TreeOK;
    TreeIsForest(t);
  }

  // ---------- which inodes a creat changes ----------

  predicate OnlyInodes(m: Meta, m': Meta, p: I32, e: I32) {
    |m'.inodes| == |m.inodes|
    && forall j {:trigger m'.inodes[j]} :: 0 <= j < |m.inodes| && j != p && j != e ==> m'.inodes[j] == m.inodes[j]
  }

  lemma LinkFrame(st: State, p: I32, ent: DirEnt, full: bool, b: int, junk: Junk)
    requires InRange(st, p) && -1 <= b < st.s.numData && JunkOK(junk) && |ent.name| < NAME_SIZE
    ensures var r := Link(st, p, ent, full, b, junk);
      && r.st.m.ibm == st.m.ibm && OnlyInodes(st.m, r.st.m, p, p)
      && (r.out == Ret(-1) ==> full && (b == -1 || st.m.inodes[p].size == MAX_SIZE) && r.st.m == st.m)
  {
    hide FirstNone, FindSlot, EncodeEntry, DirBlock, Splice;
  }

  lemma ClaimedFrame(st: State, p: I32, kind: I32, ent: DirEnt, junk: Junk)
    requires InRange(st, p) && InRange(st, ent.inum) && p != ent.inum && JunkOK(junk) && |ent.name| < NAME_SIZE
    ensures var r := CreatClaimed(st, p, kind, ent, junk);
      && r.st.m.ibm == st.m.ibm && OnlyInodes(st.m, r.st.m, p, ent.inum)
      && (r.out == Ret(-1) ==> r.st.m.dbm == st.m.dbm && OnlyInodes(st.m, r.st.m, ent.inum, ent.inum))
  {
    hide FullScan, Link;
    var b, b2 := FirstClear(st.m.dbm, 0, st.s.numData), SecondClear(st.m.dbm, st.s.numData);
    var full := FullScan(st.disk, st.m.inodes[p].direct, 0) == Ret(1);
    LinkFrame(PutInode(st, ent.inum, st.m.inodes[ent.inum].(size := 0)), p, ent, full, b, junk);
    if b != -1 {
      LinkFrame(MakeDir(st, ent.inum, p, b, junk).st, p, ent, full, b2, junk);
    }
  }

  // A creat sets at most the first free inode bit and changes at most that inode and the parent; if it returns
  // -1, that inode only, and no data bit.
  lemma CreatFrame(st: State, p: I32, kind: I32, name: Name, junk: Junk)
    requires JunkOK(junk)
    ensures var r, e := Creat(st, p, kind, name, junk), FirstClear(st.m.ibm, 0, st.s.numInodes);
      && (r.st.m.ibm == st.m.ibm || (e != -1 && r.st.m.ibm == Set(st.m.ibm, e)))
      && (r.st.m.ibm == st.m.ibm ==> r == Step(r.out, st, []))
      && OnlyInodes(st.m, r.st.m, p, e)
      && (r.out == Ret(-1) ==> r.st.m.dbm == st.m.dbm && OnlyInodes(st.m, r.st.m, e, e))
  {
    hide Lookup, CreatClaimed;
    var e := FirstClear(st.m.ibm, 0, st.s.numInodes);
    if Allocated(st, p) && |name| <= 27 && e != -1 {
      ClaimedFrame(ClaimInode(st, e, kind), p, kind, DirEnt(name, e), junk);
      assert Get(ClaimInode(st, e, kind).m.ibm, e);
    }
  }

  // ---------- one creat ----------

  lemma AllocInside(s: Super, m: Meta)
    requires AllocOK(s, m)
    ensures PtrsInside(s, m)
  {
    forall i: I32 | Live(m, i)
      ensures InodeInside(s, m.inodes[i])
    {
      assert forall k :: 0 <= k < DIRECT_PTRS && m.inodes[i].direct[k] != NONE ==>
        Owns(s, m, i, k, m.inodes[i].direct[k] - s.dataRegionAddr);
    }
  }

  lemma NameIsNew(es: seq<DirEnt>, name: Name, e: I32)
    requires LiveEntries(es) && DistinctNames(es) && Find(es, name) == -1 && e >= 0
    ensures LiveEntries(es + [DirEnt(name, e)]) && DistinctNames(es + [DirEnt(name, e)])
  {
    assert forall x :: x in es ==> x.inum != -1;
    assert forall k :: 0 <= k < |es| ==> es[k] in es;
  }

  lemma AddChildForest(u: Tree, p: I32, kind: I32, name: Name, e: I32)
    requires Forest(u) && IsDir(u, p) && Find(u[p].entries, name) == -1 && e !in u && e >= 0 && p >= 0
    ensures Forest(AddChild(u, p, kind, name, e))
  {
    var u' := AddChild(u, p, kind, name, e);
    NameIsNew(u[p].entries, name, e);
    forall d | IsDir(u', d)
      ensures LiveEntries(u'[d].entries) && DistinctNames(u'[d].entries)
    {
      assert d != e ==> IsDir(u, d);
    }
  }

  lemma AddChildWithin(t: Tree, u: Tree, p: I32, kind: I32, name: Name, e: I32, t': Tree, u': Tree)
    requires Within(t, u) && Loose(t, u) && IsDir(u, p) && e !in u
    requires u' == AddChild(u, p, kind, name, e) && t' == if p in t then AddChild(t, p, kind, name, e) else t
    ensures Within(t', u') && Loose(t', u')
  {
    assert e !in t;
    forall i, d, k
      ensures Leads(u', i, d, k) <==>
              Leads(u, i, d, k)
              || (i == e && d == p && k == |u[p].entries| && name != DotName() && name != DotDotName())
    {
    }
  }

  // At most inodes p and e changed, and e is the only one newly allocated: the others are still placed.
  lemma StillPlaced(m: Meta, m': Meta, u: Tree, u': Tree, p: I32, e: I32)
    requires AllPlaced(m, u) && OnlyInodes(m, m', p, e) && u.Keys <= u'.Keys
    requires m'.ibm == m.ibm || (0 <= e < WORD_BITS * |m.ibm| && m'.ibm == Set(m.ibm, e))
    requires p in u' || p == e
    requires Live(m', e) && e !in u' ==> Stuck(m', e)
    ensures AllPlaced(m', u')
  {
    forall i | Live(m', i) && i !in u'
      ensures Stuck(m', i)
    {
      assert i != e ==> Live(m, i);
    }
  }

  lemma LiveKey(st: State, u: Tree, p: I32)
    requires Ref(st, u) && p in u
    ensures InRange(st, p) && Live(st.m, p)
  {
    assert ShowsAt(st.s, st.m, st.disk, u, p);
  }

  lemma CreatGrows(st: State, t: Tree, u: Tree, p: I32, kind: I32, name: Name, junk: Junk)
    returns (r: Step, t': Tree, u': Tree)
    requires Grown(st, t, u) && JunkOK(junk) && CanCreate(st, u, p, kind, name)
    ensures r == Creat(st, p, kind, name, junk) && r.out == Ret(0)
    ensures Grown(r.st, t', u') && TreeStep(t, CreatCall(p, kind, name, junk), r.out, t')
    ensures IsDir(u, p) && u' == AddChild(u, p, kind, name, FirstClear(st.m.ibm, 0, st.s.numInodes))
    ensures FirstClear(st.m.ibm, 0, st.s.numInodes) !in u && t.Keys <= t'.Keys
    ensures p in t ==> FirstClear(st.m.ibm, 0, st.s.numInodes) in t'
  {
    hide Creat, Refines, TreeOK, Stuck;
    var e := FirstClear(st.m.ibm, 0, st.s.numInodes);
    RootIn(t);
    CreatAnywhere(st, u, p, kind, name, junk);
    CreatFrame(st, p, kind, name, junk);
    r := Creat(st, p, kind, name, junk);
    u' := AddChild(u, p, kind, name, e);
    LiveKey(st, u, p);
    AddChildForest(u, p, kind, name, e);
    StillPlaced(st.m, r.st.m, u, u', p, e);
    t' := if p in t then AddChild(t, p, kind, name, e) else t;
    AddChildWithin(t, u, p, kind, name, e, t', u');
    if p in t {
      CreatKeepsTree(st, t, u, p, kind, name);
    }
  }

  lemma AdoptedForest(t: Tree, u: Tree, e: I32, node: Node)
    requires Within(t, u) && Forest(u) && Loose(t, u) && e !in u && (node.Dir? ==> node.entries == [])
    ensures Within(t, u[e := node]) && Forest(u[e := node]) && Loose(t, u[e := node])
  {
    var u' := u[e := node];
    forall d | IsDir(u', d)
      ensures LiveEntries(u'[d].entries) && DistinctNames(u'[d].entries)
    {
      assert d != e ==> IsDir(u, d);
    }
    forall i, d, k
      ensures Leads(u', i, d, k) <==> Leads(u, i, d, k)
    {
    }
  }

  lemma TakeIn(st: State, t: Tree, u: Tree, e: I32) returns (u': Tree)
    requires Ref(st, u) && Within(t, u) && Forest(u) && Loose(t, u) && Live(st.m, e)
    ensures Ref(st, u') && Within(t, u') && Forest(u') && Loose(t, u') && u.Keys <= u'.Keys
    ensures e in u' || Stuck(st.m, e)
  {
    var ino := st.m.inodes[e];
    u' := u;
    assert TidyAt(st.m, st.disk, u, e);
    if e !in u && !Stuck(st.m, e) {
      var node := if ino.kind == DIRECTORY then Dir([]) else Patched(ino.kind, ino.size, []);
      Adopt(st, u, e, node);
      u' := u[e := node];
      AdoptedForest(t, u, e, node);
    }
  }

  // A creat that fails leaves the tree; the inode it may have claimed joins the forest, unless it is stuck.
  lemma CreatLeaves(st: State, t: Tree, u: Tree, p: I32, kind: I32, name: Name, junk: Junk) returns (r: Step, u': Tree)
    requires Grown(st, t, u) && JunkOK(junk) && (p in u || !Allocated(st, p)) && !CanCreate(st, u, p, kind, name)
    ensures r == Creat(st, p, kind, name, junk) && r.out == Ret(-1)
    ensures Grown(r.st, t, u')
  {
    hide Creat, Refines, TreeOK, CanCreate;
    var e := FirstClear(st.m.ibm, 0, st.s.numInodes);
    CreatAnywhere(st, u, p, kind, name, junk);
    CreatFrame(st, p, kind, name, junk);
    r := Creat(st, p, kind, name, junk);
    u' := u;
    if r.st.m.ibm != st.m.ibm {
      u' := TakeIn(r.st, t, u, e);
      StillPlaced(st.m, r.st.m, u, u', e, e);
    }
  }

  lemma LookupInStuck(st: State, p: I32, name: Name)
    requires Stuck(st.m, p)
    ensures Lookup(st, p, name) == Abort
  {
    NoneUnreadable(st.s, st.disk);
    var ino := st.m.inodes[p];
    if Unsigned(ino.size) % ENTRY_SIZE == 0 {
      assert Unsigned(ino.size) / ENTRY_SIZE > 0;
      assert ino.direct[0] == NONE;
    }
  }

  // In a stuck directory nothing is found, nothing is made, and nothing changes.
  lemma CreatInStuck(st: State, p: I32, kind: I32, name: Name, junk: Junk) returns (r: Step)
    requires Stuck(st.m, p) && JunkOK(junk)
    ensures r == Creat(st, p, kind, name, junk)
    ensures r.st == st && r.pre == [] && r.out in {Ret(-1), Abort}
  {
    hide CreatClaimed;
    LookupInStuck(st, p, name);
    r := Creat(st, p, kind, name, junk);
  }

  // ---------- one write ----------

  lemma WriteRefused(st: State, u: Tree, i: I32, data: seq<Byte>, offset: I32)
    requires Ref(st, u) && AllPlaced(st.m, u) && |data| < 0x8000_0000 && !WriteOK(u, i, data, offset)
    ensures Write(st, i, data, offset, |data|) == Step(Ret(-1), st, [])
  {
    assert ShowsAt(st.s, st.m, st.disk, u, i);
    assert i in u || !Live(st.m, i) || Stuck(st.m, i);
  }

  lemma {:induction false} WriteFromFrame(st: State, i: I32, k: nat, off: nat, data: seq<Byte>)
    requires InRange(st, i) && off < BLOCK
    ensures var r := WriteFrom(st, i, k, off, data);
      r.st.m.ibm == st.m.ibm && OnlyInodes(st.m, r.st.m, i, i)
    decreases |data|
  {
    if k < DIRECT_PTRS && data != [] && RoundPtr(st, i, k) != NONE && Readable(st.disk, RoundPtr(st, i, k)) {
      var n := Chunk(data, off);
      WriteFromFrame(Round(st, i, k, off, data[..n]), i, k + 1, 0, data[n..]);
    }
  }

  lemma WriteFrame(st: State, i: I32, data: seq<Byte>, offset: I32)
    requires |data| < 0x8000_0000
    ensures var r := Write(st, i, data, offset, |data|);
      r.st.m.ibm == st.m.ibm && OnlyInodes(st.m, r.st.m, i, i)
  {
    if Allocated(st, i) && 0 <= offset {
      WriteFromFrame(MarkInode(st, i), i, offset / BLOCK, offset % BLOCK, data[..|data|]);
    }
  }

  lemma PatchIsLeaf(node: Node, from: nat, bs: seq<Byte>)
    requires !node.Dir?
    ensures !Patch(node, from, bs).Dir?
  {
  }

  lemma LeafForest(t: Tree, u: Tree, i: I32, node: Node)
    requires Within(t, u) && Forest(u) && Loose(t, u) && i in u && !u[i].Dir? && !node.Dir?
    ensures Forest(u[i := node]) && Within(if i in t then t[i := node] else t, u[i := node])
    ensures Loose(if i in t then t[i := node] else t, u[i := node])
  {
    var u' := u[i := node];
    forall d | IsDir(u', d)
      ensures LiveEntries(u'[d].entries) && DistinctNames(u'[d].entries)
    {
      assert IsDir(u, d);
    }
    forall j, d, k
      ensures Leads(u', j, d, k) <==> Leads(u, j, d, k)
    {
    }
  }

  lemma WriteGrows(st: State, t: Tree, u: Tree, i: I32, data: seq<Byte>, offset: I32)
    returns (r: Step, t': Tree, u': Tree)
    requires Grown(st, t, u) && |data| < 0x8000_0000
    ensures r == Write(st, i, data, offset, |data|) && r.out in {Ret(0), Ret(-1)}
    ensures Grown(r.st, t', u') && TreeStep(t, WriteCall(i, data, offset), r.out, t') && t'.Keys == t.Keys
  {
    hide Refines, TreeOK, Write, Fits, Missing, FreeBlocks, Patch;
    WriteFrame(st, i, data, offset);
    if WriteOK(u, i, data, offset) {
      r := WriteRefines(st, u, i, data, offset);
      var n := |Payload(r.pre)|;
      assert data[..n] == Payload(r.pre);
      u' := u[i := Patch(u[i], offset, data[..n])];
      if i in t {
        t' := t[i := Patch(t[i], offset, data[..n])];
        PatchIsLeaf(t[i], offset, data[..n]);
        LeafKeepsTree(t, i, t'[i]);
      } else {
        t' := t;
      }
      PatchIsLeaf(u[i], offset, data[..n]);
      LeafForest(t, u, i, u'[i]);
      StillPlaced(st.m, r.st.m, u, u', i, i);
    } else {
      WriteRefused(st, u, i, data, offset);
      r, t', u' := Step(Ret(-1), st, []), t, u;
    }
  }
}
