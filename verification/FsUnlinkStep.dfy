// One unlink of a run: when it takes one leaf from the tree, and what it does outside the tree.

module FsUnlinkStep {
  import opened Bits
  import opened Bytes
  import opened Format
  import opened Tree
  import opened FsModel
  import opened FsInv
  import opened FsLookup
  import opened FsCreat
  import opened FsUnlink
  import opened FsUnlinkModel
  import opened FsCalls
  import opened FsForest

  // The last entry of the directory has that name, and unlinking it leaves no block to free unless data bits are
  // indexed as allocation indexes them.
  predicate TakesLast(st: State, p: I32, name: Name, c: I32, base: nat)
    requires InRange(st, p) && InRange(st, c)
  {
    var ino := st.m.inodes[p];
    && ino.size >= ENTRY_SIZE && EntryAt(st.disk, ino, ino.size / ENTRY_SIZE - 1).name == name
    && (base == st.s.dataRegionAddr || (NoBlocks(st.m.inodes[c]) && ino.size / ENTRY_SIZE % ENTRIES != 1))
  }

  // A directory that ufs_unlink refuses to remove.
  predicate Occupied(ino: Inode) {
    ino.kind == DIRECTORY && ino.size != 2 * ENTRY_SIZE
  }

  // What can be checked before an unlink so that the tree survives it: its target is a directory, and what it
  // will remove, if anything, is the last entry.
  predicate Gentle(st: State, p: I32, name: Name, base: nat) {
    Allocated(st, p) && name != DotName() && name != DotDotName() ==>
      && st.m.inodes[p].kind == DIRECTORY
      && match Lookup(st, p, name)
         case Ret(c) => c == -1 || (InRange(st, c) && (Occupied(st.m.inodes[c]) || TakesLast(st, p, name, c, base)))
         case _ => true
  }

  // ---------- the last entry ----------

  lemma DistinctIsOnly(es: seq<DirEnt>, e: nat)
    requires DistinctNames(es) && e < |es|
    ensures OnlyNamed(es, e, es[e].name)
  {
  }

  // In the tree.
  lemma LastIsRemovable(t: Tree, p: I32)
    requires TreeOK(t) && IsDir(t, p) && t[p].entries != []
    requires Last(t, p).name != DotName() && Last(t, p).name != DotDotName()
    requires IsDir(t, Last(t, p).inum) ==> |t[Last(t, p).inum].entries| == 2
    ensures Removable(t, p, |t[p].entries| - 1) && LastChild(t, p, Last(t, p).inum)
  {
    assert DirShape(t, p);
  }

  lemma LastIsDetachable(t: Tree, u: Tree, p: I32)
    requires TreeOK(t) && Within(t, u) && Forest(u) && Loose(t, u) && IsDir(u, p) && u[p].entries != []
    requires Last(u, p).name != DotName() && Last(u, p).name != DotDotName()
    requires IsDir(u, Last(u, p).inum) ==> |u[Last(u, p).inum].entries| == 2
    ensures Detachable(u, p, |u[p].entries| - 1)
    ensures p in t <==> Last(u, p).inum in t
    ensures p in t ==> LastChild(t, p, Last(u, p).inum)
  {
    hide TreeOK;
    var e := |u[p].entries| - 1;
    DistinctIsOnly(u[p].entries, e);
    assert Leads(u, u[p].entries[e].inum, p, e);
    if p in t {
      assert t[p] == u[p];
      LastIsRemovable(t, p);
      RemovableIsDetachable(t, p, e);
    }
  }

  lemma DropLastForest(u: Tree, p: I32)
    requires Forest(u) && IsDir(u, p) && u[p].entries != []
    ensures Forest(DropLast(u, p))
  {
    var u', es := DropLast(u, p), u[p].entries;
    assert forall x :: x in es[..|es| - 1] ==> x in es;
    forall d | IsDir(u', d)
      ensures LiveEntries(u'[d].entries) && DistinctNames(u'[d].entries)
    {
      assert IsDir(u, d);
    }
  }

  lemma DropLastLeads(u: Tree, p: I32, i: I32, d: I32, k: nat)
    requires IsDir(u, p) && u[p].entries != [] && Last(u, p).inum != p
    ensures Leads(DropLast(u, p), i, d, k) <==>
            Leads(u, i, d, k) && d != Last(u, p).inum && !(d == p && k == |u[p].entries| - 1)
  {
  }

  lemma DropLastWithin(t: Tree, u: Tree, p: I32, c: I32, t': Tree, u': Tree)
    requires TreeOK(t) && Within(t, u) && Loose(t, u) && IsDir(u, p) && u[p].entries != []
    requires Detachable(u, p, |u[p].entries| - 1) && c == Last(u, p).inum && (p in t <==> c in t)
    requires u' == DropLast(u, p) && t' == if p in t then DropLast(t, p) else t
    ensures Within(t', u') && Loose(t', u')
  {
    var e := |u[p].entries| - 1;
    assert Leads(u, c, p, e) && c != p;
    hide TreeOK, Detachable, Leads;
    forall i, d, k
      ensures Leads(u', i, d, k) <==> Leads(u, i, d, k) && d != c && !(d == p && k == e)
    {
      DropLastLeads(u, p, i, d, k);
    }
  }

  // ---------- the call ----------

  lemma Refused(st: State, p: I32, name: Name, base: nat, junk: Junk)
    requires JunkOK(junk)
    requires !Allocated(st, p) || name == DotName() || name == DotDotName() || Lookup(st, p, name) == Ret(-1)
             || (Lookup(st, p, name).Ret? && InRange(st, Lookup(st, p, name).rc)
                 && Occupied(st.m.inodes[Lookup(st, p, name).rc]))
    ensures Unlink(st, p, name, base, junk) == Step(Ret(-1), st, [])
  {
    hide Lookup, DropChild, DropEntry;
  }

  lemma UnlinkInStuck(st: State, p: I32, name: Name, base: nat, junk: Junk) returns (r: Step)
    requires Stuck(st.m, p) && JunkOK(junk)
    ensures r == Unlink(st, p, name, base, junk)
    ensures r.st == st && r.pre == [] && r.out in {Ret(-1), Abort}
  {
    hide DropChild, DropEntry, Lookup;
    LookupInStuck(st, p, name);
    r := Unlink(st, p, name, base, junk);
  }

  // Which inodes count as occupied.
  lemma OccupiedIs(st: State, u: Tree, c: I32)
    requires Ref(st, u) && c in u
    ensures InRange(st, c) && (Occupied(st.m.inodes[c]) <==> IsDir(u, c) && |u[c].entries| != 2)
  {
    assert ShowsAt(st.s, st.m, st.disk, u, c);
  }

  // The inode of a node, as the state shows it.
  lemma DirShown(st: State, u: Tree, p: I32)
    requires Ref(st, u) && p in u
    ensures Allocated(st, p) && (st.m.inodes[p].kind == DIRECTORY <==> IsDir(u, p))
  {
    assert ShowsAt(st.s, st.m, st.disk, u, p);
  }

  // The last entry, as the state shows it.
  lemma LastShown(st: State, u: Tree, p: I32)
    requires Ref(st, u) && IsDir(u, p)
    ensures InRange(st, p) && Live(st.m, p) && st.m.inodes[p].kind == DIRECTORY
    ensures st.m.inodes[p].size == ENTRY_SIZE * |u[p].entries| <= MAX_SIZE
    ensures u[p].entries != [] ==> EntryAt(st.disk, st.m.inodes[p], |u[p].entries| - 1) == Last(u, p)
  {
    assert ShowsAt(st.s, st.m, st.disk, u, p);
  }

  lemma AloneIs(n: nat)
    requires n > 0
    ensures Alone(n, n - 1) <==> n % ENTRIES == 1
  {
  }

  lemma NameIsLast(es: seq<DirEnt>, name: Name)
    requires LiveEntries(es) && DistinctNames(es) && es != [] && es[|es| - 1].name == name
    ensures Find(es, name) == es[|es| - 1].inum
  {
    FindAt(es, |es| - 1);
  }

  lemma NameLeads(es: seq<DirEnt>, name: Name)
    requires Find(es, name) != -1
    ensures es != []
  {
  }

  lemma FoundIsThere(t: Tree, u: Tree, p: I32, name: Name)
    requires TreeOK(t) && Within(t, u) && Loose(t, u) && IsDir(u, p)
    requires name != DotName() && name != DotDotName() && Find(u[p].entries, name) != -1
    ensures Find(u[p].entries, name) in if p in t then t else u
    ensures Find(u[p].entries, name) in u
  {
    var es, c := u[p].entries, Find(u[p].entries, name);
    var k :| 0 <= k < |es| && es[k] == DirEnt(name, c);
    assert Leads(u, c, p, k);
    assert p in t ==> DirShape(t, p);
  }

  lemma LookupInForest(st: State, u: Tree, p: I32, name: Name)
    requires Ref(st, u) && Forest(u) && IsDir(u, p)
    ensures Allocated(st, p) && Lookup(st, p, name) == Ret(Find(u[p].entries, name))
  {
    hide Lookup;
    assert ShowsAt(st.s, st.m, st.disk, u, p) && LiveEntries(u[p].entries);
    LookupFinds(st, u, p, name);
  }

  // In the tree and in the forest around it the checks come out the same.
  lemma SameChecks(t: Tree, u: Tree, p: I32, name: Name)
    requires TreeOK(t) && Within(t, u) && Loose(t, u) && p in t
    ensures CanUnlink(t, p, name) <==> CanUnlink(u, p, name)
  {
    hide TreeOK, Loose;
    if IsDir(u, p) && name != DotName() && name != DotDotName() && Find(u[p].entries, name) != -1 {
      FoundIsThere(t, u, p, name);
    }
  }

  // What is unlinked is the last entry, and that leaves nothing to free that the code would free wrongly.
  lemma GentleIsLast(st: State, t: Tree, u: Tree, p: I32, name: Name, base: nat)
    requires Grown(st, t, u) && IsDir(u, p) && CanUnlink(u, p, name) && Gentle(st, p, name, base)
    ensures u[p].entries != [] && Last(u, p).name == name && Find(u[p].entries, name) == Last(u, p).inum
    ensures Detachable(u, p, |u[p].entries| - 1) && FreesRight(st, u[p].entries, |u[p].entries| - 1, base)
    ensures p in t <==> Last(u, p).inum in t
    ensures p in t ==> LastChild(t, p, Last(u, p).inum)
  {
    hide TreeOK, EntryAt, Lookup, Refines;
    var es := u[p].entries;
    LastShown(st, u, p);
    LookupInForest(st, u, p, name);
    NameLeads(es, name);
    FoundIsThere(t, u, p, name);
    var c := Find(es, name);
    OccupiedIs(st, u, c);
    NameIsLast(es, name);
    AloneIs(|es|);
    LastIsDetachable(t, u, p);
  }

  lemma UnlinkRefused(st: State, t: Tree, u: Tree, p: I32, name: Name, base: nat, junk: Junk)
    requires Grown(st, t, u) && JunkOK(junk) && (p in u || !Allocated(st, p)) && Gentle(st, p, name, base)
    requires !CanUnlink(u, p, name)
    ensures Unlink(st, p, name, base, junk) == Step(Ret(-1), st, [])
  {
    hide TreeOK, Lookup, Unlink, TakesLast, Refines;
    if p in u && name != DotName() && name != DotDotName() {
      DirShown(st, u, p);
      if Allocated(st, p) {
        LookupInForest(st, u, p, name);
        if Find(u[p].entries, name) != -1 {
          FoundIsThere(t, u, p, name);
          OccupiedIs(st, u, Find(u[p].entries, name));
        }
      }
    }
    Refused(st, p, name, base, junk);
  }

  lemma DroppedPlaced(m: Meta, m': Meta, u: Tree, p: I32, c: I32)
    requires AllPlaced(m, u) && OnlyInodes(m, m', p, p) && IsDir(u, p) && u[p].entries != []
    requires 0 <= c < WORD_BITS * |m.ibm| && m'.ibm == Reset(m.ibm, c) && c == Last(u, p).inum && c != p
    ensures AllPlaced(m', DropLast(u, p))
  {
    forall i | Live(m', i) && i !in DropLast(u, p)
      ensures Stuck(m', i)
    {
      assert Live(m, i);
    }
  }

  lemma DroppedOutside(st: State, st': State, t: Tree, u: Tree, p: I32, t': Tree)
    requires Within(t, u) && IsDir(u, p) && u[p].entries != [] && InRange(st, Last(u, p).inum)
    requires st'.s == st.s && st'.m.ibm == Reset(st.m.ibm, Last(u, p).inum) && Last(u, p).inum != p
    requires t' == if p in t then DropLast(t, p) else t
    ensures forall i :: Allocated(st', i) && i !in t' ==> Allocated(st, i) && i !in t
  {
  }

  lemma UnlinkDrops(st: State, t: Tree, u: Tree, p: I32, name: Name, base: nat, junk: Junk)
    returns (r: Step, t': Tree, u': Tree)
    requires Grown(st, t, u) && JunkOK(junk) && CanUnlink(u, p, name) && Gentle(st, p, name, base)
    ensures r == Unlink(st, p, name, base, junk) && r.out == Ret(0)
    ensures Grown(r.st, t', u') && TreeStep(t, UnlinkCall(p, name, base, junk), r.out, t')
    ensures forall i :: Allocated(r.st, i) && i !in t' ==> Allocated(st, i) && i !in t
  {
    hide Unlink, Refines, TreeOK, Gentle, FreesRight, Stuck, AllPlaced, Loose, Forest, Leads, Allocated;
    GentleIsLast(st, t, u, p, name, base);
    r := DetachLast(st, u, p, base, junk);
    var c := Last(u, p).inum;
    u' := DropLast(u, p);
    t' := if p in t then DropLast(t, p) else t;
    assert c != p;
    DropLastForest(u, p);
    DropLastWithin(t, u, p, c, t', u');
    DroppedPlaced(st.m, r.st.m, u, p, c);
    DroppedOutside(st, r.st, t, u, p, t');
    if p in t {
      SameChecks(t, u, p, name);
      DropLastKeepsTree(t, p, c);
    }
  }

  // An unlink of a run: it is refused and changes nothing, or the last entry of the directory and its inode go.
  lemma UnlinkShrinks(st: State, t: Tree, u: Tree, p: I32, name: Name, base: nat, junk: Junk)
    returns (r: Step, t': Tree, u': Tree)
    requires Grown(st, t, u) && JunkOK(junk) && (p in u || !Allocated(st, p)) && Gentle(st, p, name, base)
    ensures r == Unlink(st, p, name, base, junk) && r.out == if CanUnlink(u, p, name) then Ret(0) else Ret(-1)
    ensures Grown(r.st, t', u') && TreeStep(t, UnlinkCall(p, name, base, junk), r.out, t')
    ensures forall i :: Allocated(r.st, i) && i !in t' ==> Allocated(st, i) && i !in t
  {
    hide Unlink, Refines, TreeOK, TakesLast, Detachable, FreesRight, Lookup, Stuck, LastChild;
    if p in t {
      SameChecks(t, u, p, name);
    }
    if CanUnlink(u, p, name) {
      r, t', u' := UnlinkDrops(st, t, u, p, name, base, junk);
    } else {
      UnlinkRefused(st, t, u, p, name, base, junk);
      r, t', u' := Step(Ret(-1), st, []), t, u;
    }
  }

  // ---------- the check before the call ----------

  lemma LastOfThem(es: seq<DirEnt>, e: nat)
    requires e < |es| && OnlyNamed(es, e, es[e].name)
    ensures es[|es| - 1].name == es[e].name <==> e == |es| - 1
  {
  }

  // For an entry that ufs_unlink would remove, what can be checked before the call is that it is the last one and
  // that no block is freed at a wrong index: by UnlinkKeepsTreeIff, as coded, exactly what leaves a tree.
  lemma GentleIff(st: State, t: Tree, p: I32, e: nat, base: nat)
    requires Ref(st, t) && TreeOK(t) && Removable(t, p, e)
    ensures Gentle(st, p, t[p].entries[e].name, base)
            <==> e == |t[p].entries| - 1 && FreesRight(st, t[p].entries, e, base)
  {
    hide TreeOK, Refines, Lookup, EntryAt, Detachable, HasEntry, NoBlocks, Alone;
    var es := t[p].entries;
    RemovableIsDetachable(t, p, e);
    DetachableFacts(st, t, p, e);
    EntryNamed(t, p, e);
    LastShown(st, t, p);
    LastOfThem(es, e);
    AloneIs(|es|);
  }
}
