// What users of the file system see: a tree of directories and files, and how calls change it.

module Tree {
  import opened Bytes
  import opened Format

  // A file written below its end has the size its inode says and bytes that are known or not: the code counts
  // every byte written as growth, so nothing backs the positions past what it had.
  datatype Content = Unknown | Is(byte: Byte)

  datatype Node =
    | Dir(entries: seq<DirEnt>)
    | File(kind: I32, data: seq<Byte>)
    | Patched(kind: I32, size: I32, bytes: seq<Content>)

  // The live inodes and what each holds.
  type Tree = map<I32, Node>

  predicate IsDir(t: Tree, i: I32) {
    i in t && t[i].Dir?
  }

  // The inode the first entry of that name leads to, or -1.
  function Find(es: seq<DirEnt>, name: Name): (r: I32)
    ensures r == -1 || DirEnt(name, r) in es
    ensures (forall e :: e in es ==> e.inum != -1) ==> (r == -1 <==> forall e :: e in es ==> e.name != name)
  {
    if es == [] then -1
    else if es[0].name == name then es[0].inum
    else Find(es[1..], name)
  }

  lemma {:induction false} FindAppend(es: seq<DirEnt>, e: DirEnt, name: Name)
    requires forall x :: x in es ==> x.inum != -1
    ensures Find(es + [e], name) == if Find(es, name) != -1 then Find(es, name)
                                    else if e.name == name then e.inum else -1
  {
    if es != [] {
      assert (es + [e])[1..] == es[1..] + [e];
      FindAppend(es[1..], e, name);
    }
  }

  predicate DistinctNames(es: seq<DirEnt>) {
    forall j, k :: 0 <= j < k < |es| ==> es[j].name != es[k].name
  }

  // Entry k of directory d, past "." and "..", leads to inode i.
  predicate Named(t: Tree, i: I32, d: I32, k: nat) {
    IsDir(t, d) && 2 <= k < |t[d].entries| && t[d].entries[k].inum == i
  }

  function Parent(t: Tree, i: I32): I32 {
    if IsDir(t, i) && |t[i].entries| >= 2 then t[i].entries[1].inum else i
  }

  // Following ".." n times.
  function Up(t: Tree, i: I32, n: nat): I32
    decreases n
  {
    if n == 0 then i else Up(t, Parent(t, i), n - 1)
  }

  predicate DirShape(t: Tree, d: I32) {
    IsDir(t, d) ==>
      var es := t[d].entries;
      && |es| >= 2
      && es[0] == DirEnt(DotName(), d) && es[1].name == DotDotName()
      && IsDir(t, es[1].inum)
      && DistinctNames(es)
      && forall k :: 2 <= k < |es| ==> es[k].inum in t && es[k].inum > 0
  }

  // "." is the directory itself, ".." a directory; names are distinct; every entry leads somewhere.
  ghost predicate Shaped(t: Tree) {
    && IsDir(t, 0) && Parent(t, 0) == 0
    && forall i {:trigger DirShape(t, i)} :: i in t ==> i >= 0 && DirShape(t, i)
  }

  // The only name of inode i is entry k of directory d; if i is a directory, its ".." is d.
  ghost predicate Home(t: Tree, i: I32, d: I32, k: nat) {
    && Named(t, i, d, k)
    && (forall d', k' :: Named(t, i, d', k') ==> d' == d && k' == k)
    && (IsDir(t, i) ==> Parent(t, i) == d)
  }

  ghost predicate HasHome(t: Tree, i: I32) {
    exists d, k :: Home(t, i, d, k)
  }

  // Every inode but the root has exactly one name, and a directory's ".." is the directory naming it.
  ghost predicate OneName(t: Tree) {
    forall i {:trigger HasHome(t, i)} :: i in t && i != 0 ==> HasHome(t, i)
  }

  ghost predicate ReachesRoot(t: Tree, i: I32) {
    exists n: nat :: Up(t, i, n) == 0
  }

  // ".." leads to the root from every directory.
  ghost predicate Rooted(t: Tree) {
    forall i {:trigger ReachesRoot(t, i)} :: IsDir(t, i) ==> ReachesRoot(t, i)
  }

  ghost predicate TreeOK(t: Tree) {
    Shaped(t) && OneName(t) && Rooted(t)
  }

  function RootTree(): Tree {
    map[0 := Dir([DirEnt(DotName(), 0), DirEnt(DotDotName(), 0)])]
  }

  lemma RootTreeOK()
    ensures TreeOK(RootTree())
  {
    assert Up(RootTree(), 0, 0) == 0;
  }

  // ---------- creating ----------

  function NewNode(p: I32, kind: I32, e: I32): Node {
    if kind == DIRECTORY then Dir([DirEnt(DotName(), e), DirEnt(DotDotName(), p)]) else File(kind, [])
  }

  // One more entry in directory p, one more empty inode, and nothing else.
  function AddChild(t: Tree, p: I32, kind: I32, name: Name, e: I32): Tree
    requires IsDir(t, p)
  {
    t[p := Dir(t[p].entries + [DirEnt(name, e)])][e := NewNode(p, kind, e)]
  }

  // Directories other than c keep their parents from t to t', and c is nobody's parent.
  ghost predicate SameParents(t: Tree, t': Tree, c: I32) {
    forall d {:trigger Parent(t', d)} :: IsDir(t, d) && d != c ==>
      IsDir(t, Parent(t, d)) && Parent(t, d) != c && Parent(t', d) == Parent(t, d)
  }

  lemma {:induction false} UpUnchanged(t: Tree, t': Tree, c: I32, i: I32, n: nat)
    requires IsDir(t, i) && i != c && SameParents(t, t', c)
    ensures Up(t', i, n) == Up(t, i, n)
    decreases n
  {
    if n > 0 {
      assert Parent(t', i) == Parent(t, i);
      UpUnchanged(t, t', c, Parent(t, i), n - 1);
    }
  }

  lemma StillReachesRoot(t: Tree, t': Tree, c: I32, i: I32)
    requires Rooted(t) && IsDir(t, i) && i != c && SameParents(t, t', c)
    ensures ReachesRoot(t', i)
  {
    assert ReachesRoot(t, i);
    var n: nat :| Up(t, i, n) == 0;
    UpUnchanged(t, t', c, i, n);
  }

  // A home in t is one in t', when t' gives inode i no other names and no other parent.
  lemma StillHasHome(t: Tree, t': Tree, i: I32)
    requires HasHome(t, i)
    requires forall d, k :: Named(t', i, d, k) <==> Named(t, i, d, k)
    requires IsDir(t', i) ==> IsDir(t, i) && Parent(t', i) == Parent(t, i)
    ensures HasHome(t', i)
  {
    var d, k :| Home(t, i, d, k);
    assert Home(t', i, d, k);
  }

  lemma AddChildNames(t: Tree, p: I32, kind: I32, name: Name, e: I32, i: I32, d: I32, k: nat)
    requires Shaped(t) && IsDir(t, p) && e !in t
    ensures Named(AddChild(t, p, kind, name, e), i, d, k)
      <==> Named(t, i, d, k) || (i == e && d == p && k == |t[p].entries|)
    ensures Named(t, i, d, k) ==> i != e
  {
    assert IsDir(t, d) ==> DirShape(t, d);
    assert DirShape(t, p);
  }

  lemma AddChildParents(t: Tree, p: I32, kind: I32, name: Name, e: I32)
    requires Shaped(t) && IsDir(t, p) && e !in t
    ensures SameParents(t, AddChild(t, p, kind, name, e), e)
  {
    forall d | IsDir(t, d) && d != e
      ensures IsDir(t, Parent(t, d)) && Parent(AddChild(t, p, kind, name, e), d) == Parent(t, d)
    {
      assert DirShape(t, d);
    }
  }

  lemma AddChildShaped(t: Tree, p: I32, kind: I32, name: Name, e: I32)
    requires Shaped(t) && IsDir(t, p)
    requires e > 0 && e !in t
    requires forall x :: x in t[p].entries ==> x.name != name
    ensures Shaped(AddChild(t, p, kind, name, e))
  {
    var t' := AddChild(t, p, kind, name, e);
    assert DirShape(t, p) && DirShape(t, 0);
    forall i | i in t'
      ensures i >= 0 && DirShape(t', i)
    {
      if i != e {
        assert DirShape(t, i);
      }
    }
  }

  lemma AddChildHome(t: Tree, p: I32, kind: I32, name: Name, e: I32, i: I32)
    requires Shaped(t) && OneName(t) && IsDir(t, p) && e !in t
    requires (i in t && i != 0) || i == e
    ensures HasHome(AddChild(t, p, kind, name, e), i)
  {
    var t' := AddChild(t, p, kind, name, e);
    forall d, k
      ensures Named(t', i, d, k) <==> Named(t, i, d, k) || (i == e && d == p && k == |t[p].entries|)
      ensures Named(t, i, d, k) ==> i != e
    {
      AddChildNames(t, p, kind, name, e, i, d, k);
    }
    if i == e {
      assert DirShape(t, p);
      assert Home(t', e, p, |t[p].entries|);
    } else {
      AddChildParents(t, p, kind, name, e);
      StillHasHome(t, t', i);
    }
  }

  lemma AddChildKeepsTree(t: Tree, p: I32, kind: I32, name: Name, e: I32)
    requires TreeOK(t) && IsDir(t, p)
    requires e > 0 && e !in t
    requires forall x :: x in t[p].entries ==> x.name != name
    ensures TreeOK(AddChild(t, p, kind, name, e))
  {
    var t' := AddChild(t, p, kind, name, e);
    AddChildShaped(t, p, kind, name, e);
    AddChildParents(t, p, kind, name, e);
    forall i | i in t' && i != 0
      ensures HasHome(t', i)
    {
      AddChildHome(t, p, kind, name, e, i);
    }
    forall i | IsDir(t', i)
      ensures ReachesRoot(t', i)
    {
      if i == e {
        StillReachesRoot(t, t', e, p);
        var n: nat :| Up(t', p, n) == 0;
        assert Up(t', e, n + 1) == 0;
      } else {
        StillReachesRoot(t, t', e, i);
      }
    }
  }

  // ---------- writing ----------

  function SizeOf(node: Node): int {
    match node
    case Dir(es) => ENTRY_SIZE * |es|
    case File(_, data) => |data|
    case Patched(_, size, _) => size
  }

  // What is known to be at position q.
  function KnownAt(node: Node, q: nat): Content
    requires !node.Dir?
  {
    match node
    case File(_, data) => if q < |data| then Is(data[q]) else Unknown
    case Patched(_, _, bytes) => if q < |bytes| then bytes[q] else Unknown
  }

  // The first n positions once bs was written from position "from" on.
  function Over(node: Node, from: nat, bs: seq<Byte>, n: nat): (r: seq<Content>)
    requires !node.Dir?
    ensures |r| == n
  {
    seq(n, q requires 0 <= q < n => if from <= q < from + |bs| then Is(bs[q - from]) else KnownAt(node, q))
  }

  // How many positions of a patched file can be read: no more than its size, and no more than 30 blocks.
  function Reach(size: I32): nat {
    if size < 0 then 0 else if size < MAX_SIZE then size else MAX_SIZE
  }

  // A file once bs was written from position "from" on: at its end it has grown by bs.
  function Patch(node: Node, from: nat, bs: seq<Byte>): Node
    requires !node.Dir?
  {
    if node.File? && from == |node.data| then File(node.kind, node.data + bs)
    else if bs == [] then node
    else
      var size := Wrap(SizeOf(node) + |bs|);
      Patched(node.kind, size, Over(node, from, bs, Reach(size)))
  }

  // A file replaced by a file.
  lemma LeafKeepsTree(t: Tree, i: I32, node: Node)
    requires TreeOK(t) && i in t && !t[i].Dir? && !node.Dir?
    ensures TreeOK(t[i := node])
  {
    var t' := t[i := node];
    forall j | j in t'
      ensures j >= 0 && DirShape(t', j)
    {
      assert DirShape(t, j);
    }
    forall d | IsDir(t, d) && d != i
      ensures IsDir(t, Parent(t, d)) && Parent(t, d) != i && Parent(t', d) == Parent(t, d)
    {
      assert DirShape(t, d);
    }
    forall j | j in t' && j != 0
      ensures HasHome(t', j)
    {
      assert forall d, k :: Named(t', j, d, k) <==> Named(t, j, d, k);
      StillHasHome(t, t', j);
    }
    forall j | IsDir(t', j)
      ensures ReachesRoot(t', j)
    {
      StillReachesRoot(t, t', i, j);
    }
  }

  // ---------- removing ----------

  // The tree without the last entry of directory p and the inode it names.
  function DropLast(t: Tree, p: I32): Tree
    requires IsDir(t, p) && t[p].entries != []
  {
    var es := t[p].entries;
    t[p := Dir(es[..|es| - 1])] - {es[|es| - 1].inum}
  }

  // c is the last name in directory p, and a file or a directory with only "." and "..".
  ghost predicate LastChild(t: Tree, p: I32, c: I32) {
    && IsDir(t, p) && |t[p].entries| > 2 && c == t[p].entries[|t[p].entries| - 1].inum
    && c in t && (t[c].Dir? ==> |t[c].entries| == 2)
  }

  lemma LastChildIsLeaf(t: Tree, p: I32, c: I32)
    requires TreeOK(t) && LastChild(t, p, c)
    ensures c != p && c != 0 && Home(t, c, p, |t[p].entries| - 1)
    ensures forall d :: IsDir(t, d) && d != c ==> Parent(t, d) != c
  {
    assert DirShape(t, p) && DirShape(t, 0);
    assert Named(t, c, p, |t[p].entries| - 1);
    assert HasHome(t, c);
    forall d | IsDir(t, d) && d != c
      ensures Parent(t, d) != c
    {
      if d != 0 {
        assert HasHome(t, d);
        var q, k :| Home(t, d, q, k);
      }
    }
  }

  lemma LastChildIs(t: Tree, p: I32, c: I32)
    requires LastChild(t, p, c)
    ensures IsDir(t, p) && |t[p].entries| > 2 && c == t[p].entries[|t[p].entries| - 1].inum
  {
  }

  // An empty directory names nothing.
  lemma LeafNamesNone(t: Tree, p: I32, c: I32, i: I32, k: nat)
    requires LastChild(t, p, c)
    ensures !Named(t, i, c, k)
  {
  }

  lemma DropLastNames(t: Tree, p: I32, c: I32, i: I32, d: I32, k: nat)
    requires TreeOK(t) && LastChild(t, p, c)
    ensures Named(DropLast(t, p), i, d, k) <==> Named(t, i, d, k) && i != c
  {
    hide TreeOK, LastChild;
    LastChildIsLeaf(t, p, c);
    LastChildIs(t, p, c);
    var t' := DropLast(t, p);
    assert t'[p] == Dir(t[p].entries[..|t[p].entries| - 1]);
    assert d != p && d != c ==> (IsDir(t', d) <==> IsDir(t, d)) && (IsDir(t, d) ==> t'[d] == t[d]);
    if Named(t, i, d, k) && i != c {
      assert d == p ==> k < |t[p].entries| - 1;
      assert d != c by {
        LeafNamesNone(t, p, c, i, k);
      }
    }
    if Named(t', i, d, k) {
      assert Named(t, i, d, k);
    }
  }

  lemma DropLastParents(t: Tree, p: I32, c: I32)
    requires TreeOK(t) && LastChild(t, p, c)
    ensures SameParents(t, DropLast(t, p), c)
  {
    LastChildIsLeaf(t, p, c);
    forall d | IsDir(t, d) && d != c
      ensures IsDir(t, Parent(t, d)) && Parent(DropLast(t, p), d) == Parent(t, d)
    {
      assert DirShape(t, d);
    }
  }

  lemma DropLastShaped(t: Tree, p: I32, c: I32, i: I32)
    requires TreeOK(t) && LastChild(t, p, c) && i in DropLast(t, p)
    ensures DirShape(DropLast(t, p), i)
  {
    var t' := DropLast(t, p);
    LastChildIsLeaf(t, p, c);
    assert DirShape(t, i);
    if IsDir(t', i) {
      DropLastParents(t, p, c);
      assert Parent(t', i) == Parent(t, i);
      assert t'[i].entries <= t[i].entries;
      forall k | 2 <= k < |t'[i].entries|
        ensures t'[i].entries[k].inum in t'
      {
        assert Named(t', t'[i].entries[k].inum, i, k);
        DropLastNames(t, p, c, t'[i].entries[k].inum, i, k);
      }
    }
  }

  lemma DropLastKeepsTree(t: Tree, p: I32, c: I32)
    requires TreeOK(t) && LastChild(t, p, c)
    ensures TreeOK(DropLast(t, p))
  {
    var t' := DropLast(t, p);
    LastChildIsLeaf(t, p, c);
    DropLastParents(t, p, c);
    assert DirShape(t, 0);
    forall i | i in t'
      ensures i >= 0 && DirShape(t', i)
    {
      DropLastShaped(t, p, c, i);
      assert DirShape(t, i);
    }
    forall i | i in t' && i != 0
      ensures HasHome(t', i)
    {
      forall d, k
        ensures Named(t', i, d, k) <==> Named(t, i, d, k)
      {
        DropLastNames(t, p, c, i, d, k);
      }
      StillHasHome(t, t', i);
    }
    forall i | IsDir(t', i)
      ensures ReachesRoot(t', i)
    {
      StillReachesRoot(t, t', c, i);
    }
  }
}
