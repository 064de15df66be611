// The running file system from a fresh disk on: each call of the class moves along the abstract tree.

module Session {
  import opened Bytes
  import opened Format
  import opened Tree
  import opened FsModel
  import opened FsInv
  import opened FsRead
  import opened FsMarks
  import opened FsCalls
  import opened FsForest
  import opened FsUnlinkStep
  import opened FsRun
  import opened DiskDriver
  import opened FileSystem
  import opened Mkfs
  import opened FsFirst
  import opened Initrd
  import opened FsLookup
  import opened FsReturns

  // mkfs, then ufs_init: the structure in memory is an empty root directory.
  method FormatAndMount(ni: nat, nd: nat, k: Stack) returns (fs: Ufs)
    requires SizesOK(ni, nd) && StackOK(k)
    ensures fs.Valid() && fresh(fs)
    ensures Good(fs.View(), RootTree(), RootTree()) && Tight(fs.View(), RootTree()) && Synced(fs.View())
    ensures Mounted(fs.View(), MakeSuper(ni, nd), Image(ni, nd, k))
    ensures fresh(fs.disk) && fresh(fs.disk.data) && fresh(fs.inodeBp) && fresh(fs.dataBp) && fresh(fs.inodes)
    ensures fresh(fs.dirtyInodeBp) && fresh(fs.dirtyDataBp)
  {
    hide Image, Good, Tight, RootMeta, DecodeSuper, RootTree, Load;
    ghost var s, d := ImageMeta(ni, nd, k);
    var img := MakeImage(ni, nd, k);
    var disk := new Disk(img);
    fs := new Ufs(disk);
    MkfsGood(ni, nd, k, fs.View());
  }

  // ufs_creat, seen from the tree.
  method CreateIn(fs: Ufs, p: I32, kind: I32, name: Name, junk: Junk, ghost t: Tree, ghost u: Tree)
    returns (out: Outcome, ghost t': Tree, ghost u': Tree)
    requires fs.Valid() && Good(fs.View(), t, u) && JunkOK(junk)
    modifies fs.disk, fs.disk.data, fs.inodeBp, fs.dataBp, fs.inodes, fs.dirtyInodeBp, fs.dirtyDataBp
    ensures fs.Valid() && Good(fs.View(), t', u') && TreeStep(t, CreatCall(p, kind, name, junk), out, t')
    ensures out == Ret(0) ==> Synced(fs.View())
  {
    hide Good, TreeStep, Synced, FsModel.Creat, Commit, Stuck, Outside;
    ghost var r: Step;
    r, t', u' := CallKeepsGood(fs.View(), t, u, CreatCall(p, kind, name, junk));
    out := fs.Creat(p, kind, name, junk);
  }

  // ufs_write, seen from the tree.
  method WriteTo(fs: Ufs, i: I32, data: seq<Byte>, offset: I32, ghost t: Tree, ghost u: Tree)
    returns (out: Outcome, ghost t': Tree, ghost u': Tree)
    requires fs.Valid() && Good(fs.View(), t, u) && |data| < 0x8000_0000
    modifies fs.disk, fs.disk.data, fs.inodes, fs.dataBp, fs.dirtyInodeBp, fs.dirtyDataBp
    ensures fs.Valid() && Good(fs.View(), t', u') && TreeStep(t, WriteCall(i, data, offset), out, t')
    ensures out == Ret(0) ==> Synced(fs.View())
  {
    hide Good, TreeStep, Synced, FsModel.Write, Commit, Stuck, Outside;
    ghost var r: Step;
    r, t', u' := CallKeepsGood(fs.View(), t, u, WriteCall(i, data, offset));
    out := fs.Write(i, data, offset, |data|);
  }

  // ufs_unlink of a last entry that leaves no block to free, seen from the tree.
  method RemoveFrom(fs: Ufs, p: I32, name: Name, junk: Junk, ghost t: Tree, ghost u: Tree)
    returns (out: Outcome, ghost t': Tree, ghost u': Tree)
    requires fs.Valid() && Good(fs.View(), t, u) && JunkOK(junk) && Gentle(fs.View(), p, name, 0)
    modifies fs.disk, fs.disk.data, fs.inodeBp, fs.dataBp, fs.inodes, fs.dirtyInodeBp, fs.dirtyDataBp
    ensures fs.Valid() && Good(fs.View(), t', u') && TreeStep(t, UnlinkCall(p, name, 0, junk), out, t')
    ensures out == Ret(0) ==> Synced(fs.View())
  {
    hide Good, TreeStep, Synced, FsUnlinkModel.Unlink, Commit, Stuck, Outside, Gentle;
    ghost var r: Step;
    r, t', u' := CallKeepsGood(fs.View(), t, u, UnlinkCall(p, name, 0, junk));
    out := fs.Unlink(p, name, junk);
  }

  // ufs_write anywhere in a file, then ufs_read of the same range.
  method StoreAndFetch(fs: Ufs, i: I32, data: seq<Byte>, offset: I32) returns (out: Outcome, buffer: array<Byte>)
    requires fs.Valid() && AllocOK(fs.s, fs.View().m) && Allocated(fs.View(), i)
    requires |data| < 0x8000_0000 && offset + |data| <= MAX_SIZE && fs.inodes[i].size + |data| < 0x8000_0000
    modifies fs.disk, fs.disk.data, fs.inodes, fs.dataBp, fs.dirtyInodeBp, fs.dirtyDataBp
    ensures fs.Valid() && (out == Ret(0) ==> buffer[..] == data)
  {
    hide FsModel.Write, FsModel.Read, AllocOK, Commit;
    ghost var r := WriteThenRead(fs.View(), i, data, offset, |data|);
    out := fs.Write(i, data, offset, |data|);
    buffer := new Byte[|data|];
    if out == Ret(0) {
      out := fs.Read(i, buffer, offset, |data|);
    }
  }

  // What the kernel prints of a file at boot: byte by byte until a read fails.
  method FileContents(fs: Ufs, i: I32, ghost t: Tree) returns (text: seq<Byte>)
    requires fs.Valid() && Shows(fs.s, fs.View().m, fs.View().disk, t) && i in t && t[i].File?
    modifies fs.disk`pos
    ensures fs.Valid() && fs.View() == old(fs.View())
    ensures text == t[i].data
  {
    hide Shows, FsModel.Read;
    ghost var st := fs.View();
    FileSizes(st, t, i);
    text := [];
    var c := new Byte[1];
    var offset := 0;
    while true
      invariant fs.Valid() && fs.View() == st && 0 <= offset <= |t[i].data| && text == t[i].data[..offset]
      decreases |t[i].data| - offset
    {
      ByteReads(st, t, i, offset);
      var rc := fs.Read(i, c, offset, 1);
      if rc != Ret(0) {
        break;
      }
      text := text + [c[0]];
      offset := offset + 1;
    }
  }

  // What it prints of a directory: entry by entry, until a read fails or an entry is unused.
  method DirContents(fs: Ufs, d: I32, ghost t: Tree) returns (es: seq<DirEnt>)
    requires fs.Valid() && Shows(fs.s, fs.View().m, fs.View().disk, t) && IsDir(t, d) && LiveEntries(t[d].entries)
    modifies fs.disk`pos
    ensures fs.Valid() && fs.View() == old(fs.View())
    ensures es == t[d].entries
  {
    hide Shows, FsModel.Read, DecodeEntry;
    ghost var st := fs.View();
    es := [];
    var et := new Byte[32];
    var offset := 0;
    EntryReads(st, t, d, 0);
    while true
      invariant fs.Valid() && fs.View() == st && |es| <= |t[d].entries| && es == t[d].entries[..|es|]
      invariant offset == 32 * |es|
      decreases |t[d].entries| - |es|
    {
      EntryReads(st, t, d, |es|);
      var rc := fs.Read(d, et, offset, 32);
      if rc != Ret(0) {
        break;
      }
      assert et[..] == FsModel.Read(st, d, offset, 32).data;
      offset := offset + 32;
      var e := DecodeEntry(et[..]);
      assert e in t[d].entries;
      if e.inum == -1 {
        break;
      }
      es := es + [e];
    }
  }

  lemma DiskDescribed(st: State, super: seq<Byte>)
    requires |st.disk| >= SUPER_SIZE && st.disk[..SUPER_SIZE] == super && DecodeSuper(super) == st.s
    ensures Layout(DecodeSuper(st.disk[..SUPER_SIZE]), |st.disk|)
  {
  }

  lemma HoldsSuper(st: State)
    ensures |st.disk| >= SUPER_SIZE
  {
  }

  // The disk image of the repository, made from nothing.
  method MakeInitrd(ni: nat, nd: nat, k: Stack, j1: Junk, j2: Junk, j3: Junk, text1: seq<Byte>, text2: seq<Byte>)
    returns (ok: bool, fs: Ufs)
    requires SizesOK(ni, nd) && StackOK(k) && JunkOK(j1) && JunkOK(j2) && JunkOK(j3)
    requires 0 < |text1| <= 4096 && 0 < |text2| <= 4096
    ensures ok && fs.Valid() && fresh(fs) && fresh(fs.disk.data) && Synced(fs.View())
    ensures Whole(fs.View(), InitrdTree(text1, text2), nd - 4)
    ensures |fs.View().disk| >= SUPER_SIZE && DecodeSuper(fs.View().disk[..SUPER_SIZE]) == fs.s
  {
    hide Image, MakeSuper, Whole, FsModel.Creat, FsModel.Write, Finish, Good, Tight, Synced, DecodeSuper, Layout;
    hide Mounted, InitrdTree;
    fs := FormatAndMount(ni, nd, k);
    ghost var r1, r2, r3, r4, r5 := FillDisk(ni, nd, k, fs.View(), j1, j2, j3, text1, text2);
    var out1 := fs.Creat(0, 0, DirName(), j1);
    var out2 := fs.Creat(0, 1, File1Name(), j2);
    var out3 := fs.Creat(1, 1, File2Name(), j3);
    var out4 := fs.Write(2, text1, 0, |text1|);
    var out5 := fs.Write(3, text2, 0, |text2|);
    ok := out1 == out2 == out3 == out4 == out5 == Ret(0);
    HoldsSuper(fs.View());
  }

  // And a kernel that mounts it: it prints the root directory and both texts.
  method MakeAndBoot(ni: nat, nd: nat, k: Stack, j1: Junk, j2: Junk, j3: Junk, text1: seq<Byte>, text2: seq<Byte>)
    returns (ok: bool, root: seq<DirEnt>, shown1: seq<Byte>, shown2: seq<Byte>)
    requires SizesOK(ni, nd) && StackOK(k) && JunkOK(j1) && JunkOK(j2) && JunkOK(j3)
    requires 0 < |text1| <= 4096 && 0 < |text2| <= 4096
    ensures ok && root == InitrdTree(text1, text2)[0].entries && shown1 == text1 && shown2 == text2
  {
    hide Whole, Synced, DecodeSuper, Layout, Shows, Load;
    var fs;
    ok, fs := MakeInitrd(ni, nd, k, j1, j2, j3, text1, text2);
    ghost var t, st := InitrdTree(text1, text2), fs.View();
    DiskDescribed(st, st.disk[..SUPER_SIZE]);
    var disk := new Disk(fs.disk.data);
    var kernel := new Ufs(disk);
    RemountShows(st, t, nd - 4, kernel.View());
    root := DirContents(kernel, 0, t);
    shown1 := FileContents(kernel, 2, t);
    shown2 := FileContents(kernel, 3, t);
  }
}
