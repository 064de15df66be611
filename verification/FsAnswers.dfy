// What lookups answer once a creat has returned.

module FsAnswers {
  import opened Bits
  import opened Bytes
  import opened Format
  import opened Tree
  import opened FsModel
  import opened FsInv
  import opened FsLookup
  import opened FsCreat
  import opened FsCommit
  import opened FsMarks
  import opened FsForest

  // What a state answers to any lookup.
  function Answer(st: State, u: Tree, q: I32, name: Name): Outcome {
    if q !in u && Allocated(st, q) then Abort else LookupAnswer(st.s, u, q, name)
  }

  lemma ShownAnswers(st: State, u: Tree, q: I32, name: Name)
    requires Shows(st.s, st.m, st.disk, u) && Forest(u) && AllPlaced(st.m, u)
    ensures Lookup(st, q, name) == Answer(st, u, q, name)
  {
    hide Lookup;
    if q !in u && Allocated(st, q) {
      assert Live(st.m, q);
      LookupInStuck(st, q, name);
    } else {
      assert IsDir(u, q) ==> LiveEntries(u[q].entries);
      LookupFinds(st, u, q, name);
    }
  }

  // The inode that a creat of this kind makes, seen by a lookup in it.
  function InNew(kind: I32, e: I32, p: I32, name: Name): Outcome {
    if kind != DIRECTORY then Ret(-4)
    else if name == DotName() then Ret(e)
    else if name == DotDotName() then Ret(p)
    else Ret(-1)
  }

  lemma FindNew(p: I32, e: I32, other: Name)
    ensures Find([DirEnt(DotName(), e), DirEnt(DotDotName(), p)], other) ==
            if other == DotName() then e else if other == DotDotName() then p else -1
  {
    assert [DirEnt(DotName(), e), DirEnt(DotDotName(), p)][1..] == [DirEnt(DotDotName(), p)];
  }

  // How one more child changes the answers.
  lemma AddChildAnswers(st: State, st': State, u: Tree, p: I32, kind: I32, name: Name, e: I32, q: I32, other: Name)
    requires IsDir(u, p) && Allocated(st, p) && e !in u && LiveEntries(u[p].entries) && Find(u[p].entries, name) == -1
    requires st'.s == st.s && InRange(st, e) && !Get(st.m.ibm, e)
    requires st'.m.ibm == st.m.ibm || st'.m.ibm == Set(st.m.ibm, e)
    ensures Answer(st', AddChild(u, p, kind, name, e), q, other) ==
            if q == p && other == name then Ret(e)
            else if q == e then InNew(kind, e, p, other)
            else Answer(st, u, q, other)
  {
    hide Find;
    FindAppend(u[p].entries, DirEnt(name, e), other);
    FindNew(p, e, other);
    assert q == e || (q in AddChild(u, p, kind, name, e) <==> q in u);
    assert q != e ==> (Allocated(st', q) <==> Allocated(st, q));
  }

  // What a lookup answers once a creat that could succeed has returned: the new inode for the new name, "." and
  // ".." in a new directory, and for every other inode and name the old answer.
  lemma LookupAfterCreat(st: State, t: Tree, u: Tree, p: I32, kind: I32, name: Name, junk: Junk, q: I32, other: Name)
    requires Good(st, t, u) && CanCreate(st, u, p, kind, name) && JunkOK(junk)
    ensures var r, e := Creat(st, p, kind, name, junk), FirstClear(st.m.ibm, 0, st.s.numInodes);
      && r.out == Ret(0)
      && Lookup(Finish(r), q, other) ==
         if q == p && other == name then Ret(e)
         else if q == e then InNew(kind, e, p, other)
         else Lookup(st, q, other)
  {
    hide Creat, Lookup, Shows, AllocOK, TreeOK, Commit, Marked, InNew, Needed, FreeBlocks;
    var e := FirstClear(st.m.ibm, 0, st.s.numInodes);
    var r, t', u' := CreatGrows(st, t, u, p, kind, name, junk);
    CreatFrame(st, p, kind, name, junk);
    CommitKeepsRef(r.st, u');
    assert Finish(r).m == r.st.m;
    ShownAnswers(Finish(r), u', q, other);
    ShownAnswers(st, u, q, other);
    LiveKey(st, u, p);
    assert LiveEntries(u[p].entries);
    AddChildAnswers(st, Finish(r), u, p, kind, name, e, q, other);
  }
}
