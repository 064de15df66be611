// The disk image the repository boots from: the five calls that fill a new disk, and what they leave.

module Initrd {
  import opened Bits
  import opened Bytes
  import opened Format
  import opened Tree
  import opened FsModel
  import opened FsCreat
  import opened FsMarks
  import opened FsForest
  import opened FsRun
  import opened FsFirst
  import opened Mkfs

  function DirName(): Name { [100, 105, 114] }                               // dir

  function File1Name(): Name { [102, 105, 108, 101, 49, 46, 116, 120, 116] } // file1.txt

  function File2Name(): Name { [102, 105, 108, 101, 50, 46, 116, 120, 116] } // file2.txt

  // Inode 1 is the directory, 2 and 3 are the files, the second of them in the directory.
  function InitrdTree(text1: seq<Byte>, text2: seq<Byte>): Tree {
    map[0 := Dir([DirEnt([46], 0), DirEnt([46, 46], 0), DirEnt(DirName(), 1), DirEnt(File1Name(), 2)]),
        1 := Dir([DirEnt([46], 1), DirEnt([46, 46], 0), DirEnt(File2Name(), 3)]),
        2 := File(1, text1), 3 := File(1, text2)]
  }

  // Exactly the first c inodes are allocated.
  ghost predicate FirstInodes(m: Meta, c: nat) {
    forall i {:trigger Get(m.ibm, i)} :: 0 <= i < WORD_BITS * |m.ibm| ==> (Get(m.ibm, i) <==> i < c)
  }

  lemma NextInode(st: State, c: nat)
    requires FirstInodes(st.m, c) && c < st.s.numInodes
    ensures FirstClear(st.m.ibm, 0, st.s.numInodes) == c
  {
    assert !Get(st.m.ibm, c);
  }

  lemma {:induction false} AllFree(ws: seq<Word>, from: nat, n: nat)
    requires from <= n <= WORD_BITS * |ws| && forall b :: from <= b < n ==> !Get(ws, b)
    ensures FreeBlocks(ws, from, n) == n - from
    decreases n - from
  {
    if from < n {
      AllFree(ws, from + 1, n);
    }
  }

  // The empty disk.
  lemma EmptyDisk(ni: nat, nd: nat, k: Stack, st: State)
    requires SizesOK(ni, nd) && StackOK(k) && Mounted(st, MakeSuper(ni, nd), Image(ni, nd, k))
    ensures DecodeSuper(st.disk[..SUPER_SIZE]) == st.s
    ensures Whole(st, RootTree(), nd - 1) && FirstInodes(st.m, 1) && st.s.numInodes == ni && st.s.numData == nd
  {
    hide Image, Good, Tight, RootTree, Blocks, DecodeSuper;
    MkfsGood(ni, nd, k, st);
    AllFree(st.m.dbm, 1, nd);
  }

  lemma NotFound2(a: DirEnt, b: DirEnt, name: Name)
    requires a.name != name && b.name != name
    ensures Find([a, b], name) == -1
  {
    assert [a, b][1..] == [b];
  }

  lemma NotFound3(a: DirEnt, b: DirEnt, c: DirEnt, name: Name)
    requires a.name != name && b.name != name && c.name != name
    ensures Find([a, b, c], name) == -1
  {
    assert [a, b, c][1..] == [b, c];
    NotFound2(b, c, name);
  }

  // A creat with an inode and blocks to spare.
  lemma MakeStep(st: State, t: Tree, n: nat, c: nat, p: I32, kind: I32, name: Name, junk: Junk)
    returns (r: Step, t': Tree)
    requires Whole(st, t, n) && FirstInodes(st.m, c) && c < st.s.numInodes && JunkOK(junk)
    requires IsDir(t, p) && |name| <= 27 && Find(t[p].entries, name) == -1 && |t[p].entries| < 128
    requires 0 < |t[p].entries| && n >= 1
    ensures r == Creat(st, p, kind, name, junk) && r.out == Ret(0) && Finish(r).s == st.s
    ensures c < 0x8000_0000 && t' == AddChild(t, p, kind, name, c) && FirstInodes(Finish(r).m, c + 1)
    ensures Whole(Finish(r), t', if kind == 0 then n - 1 else n)
    ensures Finish(r).disk[..SUPER_SIZE] == st.disk[..SUPER_SIZE]
  {
    hide Creat, Good, Tight, FreeBlocks, AddChild, Find, Finish;
    NextInode(st, c);
    assert CanCreate(st, t, p, kind, name);
    var e;
    r, t', e := CreatStep(st, t, n, p, kind, name, junk);
  }

  // On every new disk: a directory and a file in the root, a file in the directory, and a text of up to 4096 bytes in
  // each file.  All five calls return 0, and the tree is the one written out above; four blocks are then used.
  lemma FillDisk(ni: nat, nd: nat, k: Stack, st: State, j1: Junk, j2: Junk, j3: Junk, text1: seq<Byte>,
                 text2: seq<Byte>)
    returns (r1: Step, r2: Step, r3: Step, r4: Step, r5: Step)
    requires SizesOK(ni, nd) && StackOK(k) && Mounted(st, MakeSuper(ni, nd), Image(ni, nd, k))
    requires JunkOK(j1) && JunkOK(j2) && JunkOK(j3) && 0 < |text1| <= 4096 && 0 < |text2| <= 4096
    ensures r1 == Creat(st, 0, 0, DirName(), j1) && r1.out == Ret(0)
    ensures r2 == Creat(Finish(r1), 0, 1, File1Name(), j2) && r2.out == Ret(0)
    ensures r3 == Creat(Finish(r2), 1, 1, File2Name(), j3) && r3.out == Ret(0)
    ensures r4 == Write(Finish(r3), 2, text1, 0, |text1|) && r4.out == Ret(0)
    ensures r5 == Write(Finish(r4), 3, text2, 0, |text2|) && r5.out == Ret(0)
    ensures Whole(Finish(r5), InitrdTree(text1, text2), nd - 4) && Synced(Finish(r5))
    ensures Finish(r5).disk[..SUPER_SIZE] == st.disk[..SUPER_SIZE] && DecodeSuper(st.disk[..SUPER_SIZE]) == st.s
  {
    hide Image, MakeSuper, Creat, Write, Whole, FirstInodes, Finish, Mounted, Blocks, Find, DecodeSuper, Synced;
    EmptyDisk(ni, nd, k, st);
    var t1, t2, t3, t4, t5;
    NotFound2(DirEnt([46], 0), DirEnt([46, 46], 0), DirName());
    r1, t1 := MakeStep(st, RootTree(), nd - 1, 1, 0, 0, DirName(), j1);
    NotFound3(DirEnt([46], 0), DirEnt([46, 46], 0), DirEnt(DirName(), 1), File1Name());
    assert t1[0].entries == [DirEnt([46], 0), DirEnt([46, 46], 0), DirEnt(DirName(), 1)];
    r2, t2 := MakeStep(Finish(r1), t1, nd - 2, 2, 0, 1, File1Name(), j2);
    NotFound2(DirEnt([46], 1), DirEnt([46, 46], 0), File2Name());
    assert t2[1].entries == [DirEnt([46], 1), DirEnt([46, 46], 0)];
    r3, t3 := MakeStep(Finish(r2), t2, nd - 2, 3, 1, 1, File2Name(), j3);
    r4, t4 := WriteStep(Finish(r3), t3, nd - 2, 2, text1);
    r5, t5 := WriteStep(Finish(r4), t4, nd - 3, 3, text2);
    assert t5[0].entries == InitrdTree(text1, text2)[0].entries;
    assert t5[1].entries == InitrdTree(text1, text2)[1].entries;
    assert t5 == InitrdTree(text1, text2);
  }
}
