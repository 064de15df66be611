// malloc, and runs of the allocators: regions, present pages, frames and the identity mapping.

module VmmRun {
  import opened Bits
  import opened Bytes
  import opened Frames
  import opened VmmModel
  import opened VmmPages

  // Everything the allocators keep, over the frame bitmap ws that paging started from.
  ghost predicate Good(m: Mem, ws: seq<Word>) {
    FramesOK(m, ws) && SharedOK(m) && TablesOK(m) && GivenOK(m) && 0 < m.free
  }

  // ---------- mapping a range of pages ----------

  // The most page tables that mapping the pages may still make.
  function Need(m: Mem, first: nat, count: nat): nat
    requires first + count <= PAGES
  {
    if count == 0 then 0
    else (first + count - 1) / ENTRIES_PER_TABLE - first / ENTRIES_PER_TABLE + if HasTable(m, first) then 0 else 1
  }

  predicate Room(m: Mem, first: nat, count: nat) {
    first + count <= PAGES && Top(m) + PAGE_SIZE * (Need(m, first, count) + 1) < WRAP
  }

  // What allocating a page amounts to when it does not fault.
  lemma AllocAtIs(m: Mem, n: nat, isKernel: bool, isWriteable: bool)
    requires n < PAGES && AllocAt(m, n, isKernel, isWriteable).Some?
    ensures HasTable(WithTable(m, n), n)
    ensures AllocAt(m, n, isKernel, isWriteable) == PfaAlloc(WithTable(m, n), n, isKernel, isWriteable)
  {
  }

  // Without paging nothing faults: a page is refused only when no frame is left before the directory.
  lemma AllocAtUnpaged(m: Mem, n: nat, isKernel: bool, isWriteable: bool)
    requires n < PAGES && HasTable(WithTable(m, n), n) && !m.paging
    ensures AllocAt(m, n, isKernel, isWriteable).None? ==> NextFrame(m) == -1
  {
    hide NextFrame, Overlaid, SameOwn, Used, AlignUp;
    WithTableFrames(m, n);
  }

  lemma TableMade(m: Mem, n: nat)
    requires n < PAGES
    ensures m.given <= WithTable(m, n).given && WithTable(m, n).paging == m.paging && WithTable(m, n).own == m.own
    ensures !HasTable(m, n) && HasTable(WithTable(m, n), n) ==> WithTable(m, n).tables != m.tables
  {
    hide Overlaid;
  }

  // One page: its table, then its frame.
  lemma MapOne(m: Mem, n: nat, count: nat, ws: seq<Word>)
    requires Good(m, ws) && count > 0 && Room(m, n, count)
    ensures HasTable(WithTable(m, n), n)
    ensures match AllocAt(m, n, false, false)
      case None => NextFrame(m) == -1 || m.paging
      case Some(m1) =>
        && Good(m1, ws) && Present(m1, n) && Room(m1, n + 1, count - 1) && m.free <= m1.free && m.given <= m1.given
        && m1.paging == m.paging && m1.own == m.own
        && (HasTable(m, n) ==> m1.free == m.free && m1.tables == m.tables)
        && (!HasTable(m, n) ==> m1.free == Top(m1) == Top(m) + PAGE_SIZE && m1.tables != m.tables)
  {
    hide FramesOK, SharedOK, SameOwn, TablesOK, GivenOK, PfaAlloc, PutPage, NextFrame, AlignUp, AllocAt, Overlaid;
    hide Used, TableReached, BitOf, CountUnused, Holder;
    WithTableKeeps(m, n);
    WithTableFrames(m, n);
    WithTableKeepsFrames(m, n, ws);
    PfaAllocKeeps(WithTable(m, n), n, false, false, ws);
    TableMade(m, n);
    match AllocAt(m, n, false, false)
    case None =>
      if !m.paging {
        AllocAtUnpaged(m, n, false, false);
      }
    case Some(_) => AllocAtIs(m, n, false, false);
  }

  // Pages that were present stay what they were.
  lemma MapOnePages(m: Mem, n: nat, q: nat)
    requires TablesOK(m) && n < PAGES && 0 < m.free && Top(m) + PAGE_SIZE < WRAP
    requires TablesOK(WithTable(m, n)) && AllocAt(m, n, false, false).Some?
    ensures !Present(m, n) ==> NextFrame(m) != -1
    ensures var m1 := AllocAt(m, n, false, false).value;
      && (Present(m1, q) <==> Present(m, q) || q == n)
      && (Present(m, q) ==> PageOf(m1, q) == PageOf(m, q))
      && (!Present(m, n) ==> Present(m1, n) && PageOf(m1, n) == Page(true, false, true, NextFrame(m)))
  {
    hide TablesOK, NextFrame, Use, AlignUp, AllocAt, TableReached, Overlaid, SameOwn;
    AllocAtIs(m, n, false, false);
    WithTableFrames(m, n);
    WithTablePages(m, n, n);
    if q < PAGES {
      WithTablePages(m, n, q);
    }
    var m1 := WithTable(m, n);
    var f := NextFrame(m);
    if !PageOf(m1, n).present {
      var m2 := m1.(frames := Use(m1.frames, f));
      TablesWithFrames(m1, m2);
      PutPagePages(m2, n, Page(true, false, true, f), q);
    }
  }

  lemma RoomTop(m: Mem, first: nat, count: nat)
    requires Room(m, first, count) && count > 0
    ensures first < first + count <= PAGES && Top(m) + PAGE_SIZE < WRAP
  {
  }

  lemma {:induction false} MapPagesKeeps(m: Mem, first: nat, count: nat, ws: seq<Word>)
    requires Good(m, ws) && Room(m, first, count)
    ensures match MapPages(m, first, count)
      case None => true
      case Some(m') =>
        && Good(m', ws) && m.free <= m'.free && m.given <= m'.given
        && (forall q {:trigger Present(m', q)} :: first <= q < first + count ==> Present(m', q))
        && (forall q: nat {:trigger Present(m', q)} :: Present(m, q) ==>
             Present(m', q) && PageOf(m', q) == PageOf(m, q))
    decreases count
  {
    hide FramesOK, SharedOK, TablesOK, GivenOK, AllocAt, WithTable, Room;
    if count > 0 {
      MapOne(m, first, count, ws);
      RoomTop(m, first, count);
      match AllocAt(m, first, false, false)
      case None =>
      case Some(m1) =>
        MapPagesKeeps(m1, first + 1, count - 1, ws);
        forall q: nat
          ensures Present(m, q) ==> Present(m1, q) && PageOf(m1, q) == PageOf(m, q)
        {
          WithTableKeeps(m, first);
          MapOnePages(m, first, q);
        }
    }
  }

  // ---------- malloc ----------

  lemma {:induction false} RoomAfterKmalloc(m: Mem, size: U32)
    requires 0 < m.free && RoomFor(m, size)
    ensures Top(m) + size < WRAP && Base(m, true) == Top(m)
    ensures Kmalloc(m, size, true).free == Top(m) + size
    ensures Room(Kmalloc(m, size, true), Top(m) / PAGE_SIZE, PagesFor(size))
  {
    AlignUpIs(m);
    var first, count := Top(m) / PAGE_SIZE, PagesFor(size);
    assert (first + count) * PAGE_SIZE <= WRAP - PAGE_SIZE;
    assert first + count <= PAGES;
  }

  lemma KmallocKeepsFrames(m: Mem, size: U32, align: bool, ws: seq<Word>)
    requires FramesOK(m, ws)
    ensures FramesOK(Kmalloc(m, size, align), ws) && (SharedOK(m) ==> SharedOK(Kmalloc(m, size, align)))
    ensures forall q: nat :: Present(Kmalloc(m, size, align), q) <==> Present(m, q)
    ensures forall q: nat :: Present(m, q) ==> PageOf(Kmalloc(m, size, align), q) == PageOf(m, q)
  {
    SamePagesKeepFrames(m, Kmalloc(m, size, align), ws);
  }

  // malloc, when it returns: the region starts on a page boundary above everything handed out before,
  // page tables included, all its pages are present on return, and no page that was present changed.
  lemma MallocKeeps(m: Mem, size: U32, ws: seq<Word>)
    requires Good(m, ws) && RoomFor(m, size)
    ensures match Malloc(m, size)
      case None => true
      case Some(m') =>
        && Good(m', ws)
        && Base(m, true) % PAGE_SIZE == 0 && m.free <= Base(m, true)
        && m.given + [Region(Base(m, true), size)] <= m'.given
        && (forall q {:trigger Present(m', q)} ::
              Base(m, true) / PAGE_SIZE <= q < Base(m, true) / PAGE_SIZE + PagesFor(size) ==> Present(m', q))
        && (forall q: nat {:trigger Present(m', q)} :: Present(m, q) ==>
             Present(m', q) && PageOf(m', q) == PageOf(m, q))
  {
    hide FramesOK, SharedOK, TablesOK, GivenOK, Room, MapPages;
    RoomAfterKmalloc(m, size);
    KmallocKeeps(m, size, true);
    var m1 := Kmalloc(m, size, true);
    KmallocKeepsFrames(m, size, true, ws);
    MapPagesKeeps(m1, Top(m) / PAGE_SIZE, PagesFor(size), ws);
  }

  // The pages from m to m' that are new are those from first on, count of them; they may be read in user mode and
  // not written.
  ghost predicate NewPages(m: Mem, m': Mem, first: nat, count: nat) {
    && (forall q: nat {:trigger Present(m', q)} :: Present(m', q) <==> Present(m, q) || first <= q < first + count)
    && (forall q: nat {:trigger Present(m', q)} :: Present(m, q) ==>
          Present(m', q) && PageOf(m', q) == PageOf(m, q))
    && (forall q: nat {:trigger Present(m', q)} :: Present(m', q) && !Present(m, q) ==>
          PageOf(m', q).user && !PageOf(m', q).rw)
  }

  lemma NewPagesStep(m: Mem, m1: Mem, m': Mem, first: nat, count: nat)
    requires NewPages(m, m1, first, 1) && NewPages(m1, m', first + 1, count)
    ensures NewPages(m, m', first, count + 1)
  {
    forall q: nat
      ensures Present(m', q) <==> Present(m, q) || first <= q < first + count + 1
    {
      assert Present(m1, q) <==> Present(m, q) || q == first;
    }
  }

  lemma NoNewPages(m: Mem, first: nat)
    ensures NewPages(m, m, first, 0)
  {
  }

  lemma OneNewPage(m: Mem, n: nat, m1: Mem)
    requires TablesOK(m) && n < PAGES && 0 < m.free && Top(m) + PAGE_SIZE < WRAP
    requires TablesOK(WithTable(m, n)) && AllocAt(m, n, false, false) == Some(m1)
    ensures NewPages(m, m1, n, 1)
  {
    hide TablesOK, AllocAt, WithTable, AlignUp, NextFrame;
    forall q: nat
      ensures Present(m1, q) <==> Present(m, q) || q == n
      ensures Present(m, q) ==> PageOf(m1, q) == PageOf(m, q)
      ensures q == n && !Present(m, q) ==> PageOf(m1, q).user && !PageOf(m1, q).rw
    {
      MapOnePages(m, n, q);
    }
  }

  lemma {:induction false} MapPagesNew(m: Mem, first: nat, count: nat, ws: seq<Word>)
    requires Good(m, ws) && Room(m, first, count) && MapPages(m, first, count).Some?
    ensures NewPages(m, MapPages(m, first, count).value, first, count)
    decreases count
  {
    hide FramesOK, SharedOK, TablesOK, GivenOK, AllocAt, WithTable, Room, NewPages;
    if count == 0 {
      NoNewPages(m, first);
    } else {
      MapOne(m, first, count, ws);
      RoomTop(m, first, count);
      WithTableKeeps(m, first);
      var m1 := AllocAt(m, first, false, false).value;
      OneNewPage(m, first, m1);
      MapPagesNew(m1, first + 1, count - 1, ws);
      NewPagesStep(m, m1, MapPages(m, first, count).value, first, count - 1);
    }
  }

  // malloc byte by byte: the region starts on the first page boundary from free_addr on; when the call returns,
  // exactly the pages that hold a byte of it have become present, to be read in user mode and not written, and
  // pages that were present are what they were.
  lemma MallocPages(m: Mem, size: U32, ws: seq<Word>) returns (a: nat)
    requires Good(m, ws) && RoomFor(m, size)
    ensures a == Base(m, true) && a % 4096 == 0 && m.free <= a < m.free + 4096
    ensures Malloc(m, size).Some? ==>
      var m' := Malloc(m, size).value;
      && (forall q: nat {:trigger Present(m', q)} ::
            Present(m', q) <==> Present(m, q) || a <= q * 4096 < a + size)
      && (forall q: nat {:trigger Present(m', q)} :: Present(m, q) ==>
            Present(m', q) && PageOf(m', q) == PageOf(m, q))
      && (forall q: nat {:trigger Present(m', q)} :: Present(m', q) && !Present(m, q) ==>
            PageOf(m', q).user && !PageOf(m', q).rw)
  {
    hide FramesOK, SharedOK, TablesOK, GivenOK, Room, MapPages, AlignUp;
    RoomAfterKmalloc(m, size);
    AlignUpIs(m);
    KmallocKeeps(m, size, true);
    KmallocKeepsFrames(m, size, true, ws);
    var m1 := Kmalloc(m, size, true);
    a := Base(m, true);
    if Malloc(m, size).Some? {
      MapPagesNew(m1, a / PAGE_SIZE, PagesFor(size), ws);
      var m' := Malloc(m, size).value;
      forall q: nat
        ensures Present(m', q) <==> Present(m, q) || a <= q * 4096 < a + size
        ensures Present(m, q) ==> Present(m', q) && PageOf(m', q) == PageOf(m, q)
      {
        assert Present(m1, q) <==> Present(m, q);
        assert Present(m1, q) ==> PageOf(m1, q) == PageOf(m, q);
      }
    }
  }

  // Without alignment a region starts where the last one ended, byte for byte.
  lemma KmallocNext(m: Mem, size: U32, size2: U32)
    ensures Base(m, false) == m.free
    ensures m.free + size < 0x1_0000_0000 ==> Base(Kmalloc(m, size, false), false) == m.free + size
    ensures m.free + size < 0x1_0000_0000 ==>
      Kmalloc(Kmalloc(m, size, false), size2, false).given
      == m.given + [Region(m.free, size), Region(m.free + size, size2)]
  {
  }

  // No two regions handed out share a byte.
  lemma RegionsDisjoint(m: Mem, i: nat, j: nat, a: nat)
    requires GivenOK(m) && i < |m.given| && j < |m.given|
    requires m.given[i].addr <= a < m.given[i].addr + m.given[i].len
    requires m.given[j].addr <= a < m.given[j].addr + m.given[j].len
    ensures i == j
  {
  }

  // ---------- runs ----------

  // A call after init_paging: get_page and pfa_alloc for a page, pfa_free, malloc, or kmalloc.
  datatype Op =
    | AllocPage(n: nat, isKernel: bool, isWriteable: bool)
    | FreePage(n: nat, asCoded: bool)
    | MallocOp(size: U32)
    | KmallocOp(size: U32, align: bool)

  // The call is about an address, or an entry, and stays below the end of the address space.
  predicate OpOK(m: Mem, op: Op) {
    match op
    case AllocPage(n, _, _) => n < PAGES && RoomFor(m, PAGE_SIZE)
    case FreePage(n, _) => HasTable(m, n)
    case MallocOp(size) => RoomFor(m, size)
    case KmallocOp(size, _) => RoomFor(m, size)
  }

  // None: the call does not return.
  function Do(m: Mem, op: Op): Option<Mem>
    requires OpOK(m, op)
  {
    match op
    case AllocPage(n, isKernel, isWriteable) => AllocAt(m, n, isKernel, isWriteable)
    case FreePage(n, asCoded) => PfaFree(m, n, asCoded)
    case MallocOp(size) => Malloc(m, size)
    case KmallocOp(size, align) => Some(Kmalloc(m, size, align))
  }

  // A free, if this is one, clears the bit of the frame it takes away.
  predicate FreesRight(m: Mem, op: Op) {
    op.FreePage? && HasTable(m, op.n) ==> FreesOwnFrame(m, op.n, op.asCoded)
  }

  // Every call that returns keeps everything, but for a free that clears another bit: that one never does.
  lemma DoKeepsIff(m: Mem, op: Op, ws: seq<Word>)
    requires Good(m, ws) && OpOK(m, op) && Do(m, op).Some?
    ensures Good(Do(m, op).value, ws) <==> FreesRight(m, op)
  {
    hide FramesOK, SharedOK, TablesOK, GivenOK, PfaAlloc, Malloc, WithTable, Kmalloc, AllocAt, PfaFree;
    hide FreesOwnFrame, TableReached;
    match op
    case AllocPage(n, isKernel, isWriteable) =>
      RoomAfterKmalloc(m, PAGE_SIZE);
      AllocAtIs(m, n, isKernel, isWriteable);
      WithTableKeeps(m, n);
      WithTableFrames(m, n);
      WithTableKeepsFrames(m, n, ws);
      PfaAllocKeeps(WithTable(m, n), n, isKernel, isWriteable, ws);
    case FreePage(n, asCoded) =>
      PfaFreeIff(m, n, asCoded, ws);
    case MallocOp(size) =>
      MallocKeeps(m, size, ws);
    case KmallocOp(size, align) =>
      RoomAfterKmalloc(m, size);
      KmallocKeeps(m, size, align);
      KmallocKeepsFrames(m, size, align, ws);
  }

  predicate Run(ms: seq<Mem>, ops: seq<Op>) {
    |ms| == |ops| + 1 && forall k :: 0 <= k < |ops| ==> OpOK(ms[k], ops[k]) && Do(ms[k], ops[k]) == Some(ms[k + 1])
  }

  // Over every run no two present pages hold the same frame, the bits set since paging started are those of the
  // frames held, regions do not overlap, and every table is where both halves of the directory say: at all times,
  // exactly when every free clears the bit of the frame it takes away.
  lemma {:induction false} RunKeeps(ms: seq<Mem>, ops: seq<Op>, n: nat, ws: seq<Word>)
    requires Run(ms, ops) && n <= |ops| && Good(ms[0], ws)
    ensures (forall k {:trigger ms[k]} :: 0 <= k <= n ==> Good(ms[k], ws)) <==>
            (forall k {:trigger ops[k]} :: 0 <= k < n ==> FreesRight(ms[k], ops[k]))
    decreases n
  {
    hide Good, Do, FreesRight, OpOK;
    if n > 0 {
      RunKeeps(ms, ops, n - 1, ws);
      assert OpOK(ms[n - 1], ops[n - 1]) && Do(ms[n - 1], ops[n - 1]) == Some(ms[n]);
      if Good(ms[n - 1], ws) {
        DoKeepsIff(ms[n - 1], ops[n - 1], ws);
      }
    }
  }

  // ---------- counting ----------

  ghost function PresentPages(m: Mem): set<nat> {
    set n: nat | n < PAGES && Present(m, n)
  }

  ghost function NewFrames(m: Mem, ws: seq<Word>): set<nat>
    requires |ws| == FRAME_WORDS
  {
    set f: nat | f < m.own && Used(m.frames, f) && !Used(ws, f)
  }

  function FrameOf(m: Mem, n: nat): nat {
    if HasTable(m, n) then PageOf(m, n).frame else 0
  }

  lemma {:induction false} DistinctImages(m: Mem, s: set<nat>)
    requires forall n, q :: n in s && q in s && FrameOf(m, n) == FrameOf(m, q) ==> n == q
    ensures |set n | n in s :: FrameOf(m, n)| == |s|
  {
    if s != {} {
      var x :| x in s;
      var r := s - {x};
      DistinctImages(m, r);
      assert (set n | n in s :: FrameOf(m, n)) == (set n | n in r :: FrameOf(m, n)) + {FrameOf(m, x)};
      assert FrameOf(m, x) !in (set n | n in r :: FrameOf(m, n));
    }
  }

  lemma NewFrameIsHeld(m: Mem, ws: seq<Word>, f: nat) returns (n: nat)
    requires FramesOK(m, ws) && f in NewFrames(m, ws)
    ensures n < PAGES && Holder(m, n, f)
  {
    assert Used(m.frames, f);
    assert Held(m, f);
    n :| Holder(m, n, f);
    assert HasTable(m, n);
  }

  lemma HeldIsNew(m: Mem, ws: seq<Word>, n: nat, f: nat)
    requires FramesOK(m, ws) && Holder(m, n, f)
    ensures n < PAGES && f in NewFrames(m, ws)
  {
    assert HasTable(m, n);
    assert Held(m, f);
    assert Used(m.frames, f);
  }

  // As many bits were set since paging started, before the directory, as pages are present.
  lemma BitsArePages(m: Mem, ws: seq<Word>)
    requires Good(m, ws)
    ensures |NewFrames(m, ws)| == |PresentPages(m)|
  {
    var s := PresentPages(m);
    var fs := set n | n in s :: FrameOf(m, n);
    hide SharedOK, TablesOK, GivenOK;
    forall n, q | n in s && q in s && FrameOf(m, n) == FrameOf(m, q)
      ensures n == q
    {
      assert Holder(m, n, FrameOf(m, n)) && Holder(m, q, FrameOf(m, n));
    }
    DistinctImages(m, s);
    forall f | f in NewFrames(m, ws)
      ensures f in fs
    {
      var n := NewFrameIsHeld(m, ws, f);
      assert n in s && FrameOf(m, n) == f;
    }
    forall f | f in fs
      ensures f in NewFrames(m, ws)
    {
      var n :| n in s && FrameOf(m, n) == f;
      HeldIsNew(m, ws, n, f);
    }
    assert NewFrames(m, ws) == fs;
  }

  lemma {:induction false} SubsetSize(a: set<nat>, b: set<nat>)
    requires a <= b
    ensures |a| <= |b| && (|a| == |b| <==> a == b)
  {
    if a != {} {
      var x :| x in a;
      SubsetSize(a - {x}, b - {x});
      assert a == (a - {x}) + {x} && b == (b - {x}) + {x};
    } else {
      assert b != {} ==> |b| > 0;
    }
  }

  // Over the whole bitmap they are as many exactly when no digit of a table's address shows in it.
  lemma BitsArePagesIff(m: Mem, ws: seq<Word>)
    requires Good(m, ws) && |ws| == FRAME_WORDS
    requires forall f {:trigger Used(ws, f)} :: m.own <= f < NFRAMES ==> !Used(ws, f)
    ensures |set f: nat | f < NFRAMES && Used(m.frames, f) && !Used(ws, f)| == |PresentPages(m)|
            <==> forall f {:trigger Used(m.frames, f)} :: m.own <= f < NFRAMES ==> !Used(m.frames, f)
  {
    hide FramesOK, SharedOK, TablesOK, GivenOK;
    BitsArePages(m, ws);
    var all := set f: nat | f < NFRAMES && Used(m.frames, f) && !Used(ws, f);
    SubsetSize(NewFrames(m, ws), all);
    if NewFrames(m, ws) == all {
      forall f | m.own <= f < NFRAMES
        ensures !Used(m.frames, f)
      {
        assert f !in NewFrames(m, ws);
        assert !Used(ws, f);
      }
    }
  }

  // ---------- where bitmap and directory overlap ----------

  lemma DivIs(x: nat, p: nat, q: nat, s: nat)
    requires p > 0 && x == p * q + s && s < p
    ensures x / p == q
  {
    var d: int := x / p - q;
    assert p * d == s - x % p;
    assert d >= 1 ==> p * d >= p;
    assert d <= -1 ==> p * d <= p * -1;
  }

  lemma DivTwice(a: nat, p: nat)
    requires p > 0
    ensures a / (2 * p) == a / 2 / p
  {
    var h: nat := a / 2;
    var q: nat := h / p;
    assert a == 2 * h + a % 2 && h == p * q + h % p;
    assert a == 2 * p * q + (2 * (h % p) + a % 2);
    DivIs(a, 2 * p, q, 2 * (h % p) + a % 2);
  }

  lemma HalfDigit(a: nat, j: nat)
    ensures BitOf(a, j + 1) == BitOf(a / 2, j)
  {
    DivTwice(a, Pow2(j));
  }

  lemma {:induction false} SomeDigit(a: nat, n: nat) returns (j: nat)
    requires 0 < a < Pow2(n)
    ensures j < n && BitOf(a, j)
    decreases n
  {
    if a % 2 == 1 {
      assert Pow2(0) == 1;
      j := 0;
    } else {
      j := SomeDigit(a / 2, n - 1);
      HalfDigit(a, j);
      j := j + 1;
    }
  }

  lemma DigitsOfWord()
    ensures Pow2(32) == WRAP
  {
    assert Pow2(8) == 0x100;
    assert Pow2(16) == 0x1_0000;
    assert Pow2(24) == 0x100_0000;
  }

  lemma HeldIsOwn(m: Mem, ws: seq<Word>, f: nat)
    requires FramesOK(m, ws) && m.own <= f
    ensures !Held(m, f)
  {
    forall n: nat
      ensures !Holder(m, n, f)
    {
    }
  }

  // Making a table marks a frame used that no page holds, whenever all of its directory slot lies in the bitmap.
  lemma TableShows(m: Mem, n: nat, ws: seq<Word>) returns (f: nat)
    requires Good(m, ws) && n < PAGES && !HasTable(m, n) && Top(m) + PAGE_SIZE < WRAP
    requires m.own + 32 * (n / ENTRIES_PER_TABLE) + 32 <= NFRAMES
    ensures m.own <= f < NFRAMES && Used(WithTable(m, n).frames, f) && !Held(WithTable(m, n), f)
  {
    hide FramesOK, SharedOK, TablesOK, GivenOK, AlignUp, BitOf, Used;
    AlignUpIs(m);
    DigitsOfWord();
    var j := SomeDigit(Base(m, true), 32);
    f := m.own + 32 * (n / ENTRIES_PER_TABLE) + j;
    WithTableKeepsFrames(m, n, ws);
    TableMade(m, n);
    HeldIsOwn(WithTable(m, n), ws, f);
  }

  // ---------- the identity mapping ----------

  // The first n pages are present, each in the frame of its own number, and nothing else is.
  ghost predicate IdPages(m: Mem, n: nat) {
    && n <= m.own
    && (forall q: nat {:trigger Present(m, q)} :: Present(m, q) <==> q < n)
    && forall q: nat {:trigger FrameOf(m, q)} :: q < n ==> FrameOf(m, q) == q
  }

  // And they are all pages below free_addr.
  ghost predicate IdentityTo(m: Mem, n: nat) {
    IdPages(m, n) && Top(m) == n * PAGE_SIZE
  }

  // None of count frames from the first on was marked used when paging started.
  ghost predicate ClearFrom(ws: seq<Word>, first: nat, count: nat) {
    forall f {:trigger Used(ws, f)} :: first <= f < first + count && f < WORD_BITS * |ws| ==> !Used(ws, f)
  }

  // The next frame is that of the next page's number exactly when it is there and had not been marked used.
  lemma NextIsOwn(m: Mem, n: nat, ws: seq<Word>)
    requires Good(m, ws) && IdPages(m, n)
    ensures |ws| == FRAME_WORDS && n <= m.own
    ensures NextFrame(m) == n <==> n < m.own && !Used(ws, n)
    ensures n == m.own ==> NextFrame(m) == -1
  {
    hide SharedOK, TablesOK, GivenOK, NextFrame;
    forall f: nat | f < n
      ensures Used(m.frames, f)
    {
      assert FrameOf(m, f) == f && Present(m, f);
      assert Holder(m, f, f);
      assert Held(m, f);
    }
    if n < m.own {
      assert !Held(m, n) by {
        forall q: nat
          ensures !Holder(m, q, n)
        {
          assert Present(m, q) ==> FrameOf(m, q) == q;
        }
      }
      assert Used(m.frames, n) <==> Used(ws, n);
      if !Used(ws, n) {
        NextIs(m, n);
      }
    }
  }

  // ---------- malloc under the identity mapping ----------

  ghost predicate HasTables(m: Mem, first: nat, count: nat) {
    forall q {:trigger HasTable(m, q)} :: first <= q < first + count ==> HasTable(m, q)
  }

  // The first n pages are present in the frames of their own numbers, and hold every page table.
  ghost predicate Based(m: Mem, n: nat) {
    && (forall q: nat {:trigger Present(m, q)} :: q < n ==> Present(m, q))
    && (forall q: nat {:trigger FrameOf(m, q)} :: q < n ==> FrameOf(m, q) == q)
    && forall t {:trigger m.tables[t]} :: 0 <= t < ENTRIES_PER_TABLE && m.tables[t] != 0 ==> m.tables[t] / PAGE_SIZE < n
  }

  ghost predicate NonePresent(m: Mem, from: nat) {
    forall q: nat {:trigger Present(m, q)} :: Present(m, q) ==> q < from
  }

  lemma OwnTableReached(m: Mem, n: nat, q: nat)
    requires TablesOK(m) && Based(m, n) && HasTable(m, q)
    ensures TableReached(m, q)
  {
    var a := m.tables[q / ENTRIES_PER_TABLE];
    assert TableOK(m, q / ENTRIES_PER_TABLE);
    WalkIsGetPage(m, a);
    assert Present(m, a / PAGE_SIZE) && FrameOf(m, a / PAGE_SIZE) == a / PAGE_SIZE;
  }

  // When all pages that are present lie below free_addr, a new table goes to the next page boundary, where nothing is
  // mapped: clearing it there faults.
  lemma NewTableFaults(m: Mem, n: nat, q: nat)
    requires TablesOK(m) && NonePresent(m, n) && n * PAGE_SIZE <= Top(m) && Top(m) + PAGE_SIZE < WRAP
    requires q < PAGES && !HasTable(m, q)
    ensures Base(m, true) == Top(m) && WithTable(m, q).tables[q / ENTRIES_PER_TABLE] == Top(m)
    ensures !Present(m, Top(m) / PAGE_SIZE)
    ensures Walk(m.phys, m.tableAt, Top(m)).Some? ==> !Walk(m.phys, m.tableAt, Top(m)).value.present
    ensures m.paging ==> !Mapped(m, Top(m)) && GetPage(m, q) == None
  {
    hide Overlaid;
    AlignUpIs(m);
    WalkIsGetPage(m, Top(m));
    assert n <= Top(m) / PAGE_SIZE;
  }

  // One page that has a table and is not present yet.
  lemma MapOneMore(m: Mem, n: nat, base: nat, ws: seq<Word>) returns (r: Option<Mem>)
    requires Good(m, ws) && n < PAGES && m.paging && HasTable(m, n) && Top(m) + PAGE_SIZE < WRAP
    requires Based(m, base) && NonePresent(m, n)
    ensures r == AllocAt(m, n, false, false) && (r.Some? <==> NextFrame(m) != -1)
    ensures r.Some? ==>
      && r.value.tables == m.tables && r.value.free == m.free && r.value.own == m.own
      && Based(r.value, base) && NonePresent(r.value, n + 1)
      && (forall q: nat :: Present(r.value, q) <==> Present(m, q) || q == n)
      && (forall q: nat :: FrameOf(r.value, q) == if q == n then NextFrame(m) else FrameOf(m, q))
      && CountUnused(r.value.frames, m.own) + 1 == CountUnused(m.frames, m.own)
  {
    hide FramesOK, SharedOK, TablesOK, GivenOK, AlignUp, NextFrame, BitOf, Used, CountUnused;
    OwnTableReached(m, base, n);
    assert !Present(m, n);
    r := AllocAt(m, n, false, false);
    var f := NextFrame(m);
    if f != -1 {
      var m1 := m.(frames := Use(m.frames, f));
      TablesWithFrames(m, m1);
      CountAfterUse(m.frames, f, m.own);
      forall q: nat
        ensures Present(r.value, q) <==> Present(m, q) || q == n
        ensures FrameOf(r.value, q) == if q == n then f else FrameOf(m, q)
      {
        PutPagePages(m1, n, Page(true, false, true, f), q);
      }
    }
  }

  lemma NoTableNoPage(m: Mem, n: nat)
    requires n < PAGES && GetPage(m, n) == None
    ensures AllocAt(m, n, false, false) == None
  {
  }

  lemma TablesLater(m: Mem, n: nat, count: nat, m1: Mem)
    requires HasTable(m, n) && count > 0 && m1.tables == m.tables
    ensures HasTables(m1, n + 1, count - 1) <==> HasTables(m, n, count)
  {
    forall q: nat
      ensures HasTable(m1, q) <==> HasTable(m, q)
    {
    }
  }

  lemma NoneCounted(m: Mem)
    ensures NextFrame(m) == -1 <==> CountUnused(m.frames, m.own) == 0
  {
    hide FirstUnused, Used;
    var f := NextFrame(m);
    assert f != -1 ==> !Used(m.frames, f);
  }

  // From m to m1 the count pages from n on became present, and those before stayed as they were.
  ghost predicate NewlyMapped(m: Mem, m1: Mem, n: nat, count: nat) {
    && (forall q: nat {:trigger Present(m1, q)} :: Present(m1, q) <==> Present(m, q) || n <= q < n + count)
    && forall q: nat {:trigger FrameOf(m1, q)} :: q < n ==> FrameOf(m1, q) == FrameOf(m, q)
  }

  // Mapping pages returns exactly when they have tables and as many frames are left.
  lemma {:induction false} MapPagesReturns(m: Mem, n: nat, count: nat, base: nat, ws: seq<Word>)
    requires Good(m, ws) && Room(m, n, count) && m.paging && Based(m, base) && base <= n && NonePresent(m, n)
    requires (n + count) * PAGE_SIZE <= Top(m)
    ensures MapPages(m, n, count).Some? <==> HasTables(m, n, count) && count <= CountUnused(m.frames, m.own)
    ensures MapPages(m, n, count).Some? ==>
      var m' := MapPages(m, n, count).value;
      && m'.free == m.free && m'.tables == m.tables && m'.paging && m'.own == m.own
      && Based(m', base) && NewlyMapped(m, m', n, count)
      && CountUnused(m'.frames, m.own) + count == CountUnused(m.frames, m.own)
    decreases count
  {
    hide FramesOK, SharedOK, TablesOK, GivenOK, PfaAlloc, WithTable, AllocAt, GetPage, CountUnused, NextFrame, Based;
    if count > 0 {
      MapOne(m, n, count, ws);
      RoomTop(m, n, count);
      if HasTable(m, n) {
        var r := MapOneMore(m, n, base, ws);
        NoneCounted(m);
        if r.Some? {
          MapPagesReturns(r.value, n + 1, count - 1, base, ws);
          TablesLater(m, n, count, r.value);
        }
      } else {
        NewTableFaults(m, n, n);
        NoTableNoPage(m, n);
      }
    }
  }

  lemma ClearSplit(ws: seq<Word>, n: nat, a: nat, b: nat)
    ensures ClearFrom(ws, n, a + b) <==> ClearFrom(ws, n, a) && ClearFrom(ws, n + a, b)
  {
  }

  lemma ClearOne(ws: seq<Word>, n: nat)
    requires n < WORD_BITS * |ws|
    ensures ClearFrom(ws, n, 1) <==> !Used(ws, n)
  {
  }

  // The next page, in frame f.
  lemma IdGrows(m: Mem, m1: Mem, n: nat, f: nat)
    requires IdPages(m, n) && m1.own == m.own && n < m.own
    requires forall q: nat :: Present(m1, q) <==> Present(m, q) || q == n
    requires forall q: nat :: FrameOf(m1, q) == if q == n then f else FrameOf(m, q)
    ensures f == n ==> IdPages(m1, n + 1)
  {
  }

  lemma ClearNone(ws: seq<Word>, n: nat)
    ensures ClearFrom(ws, n, 0)
  {
  }

  // They get the frames of their own numbers exactly when none of those had been marked used.
  lemma {:induction false} MapPagesIdentity(m: Mem, n: nat, count: nat, base: nat, ws: seq<Word>)
    requires Good(m, ws) && Room(m, n, count) && IdPages(m, n) && m.paging && Based(m, base) && base <= n
    requires (n + count) * PAGE_SIZE <= Top(m) && MapPages(m, n, count).Some?
    ensures IdPages(MapPages(m, n, count).value, n + count) <==> ClearFrom(ws, n, count)
    decreases count
  {
    hide FramesOK, SharedOK, TablesOK, GivenOK, PfaAlloc, WithTable, AllocAt, GetPage, CountUnused, NextFrame, Based;
    hide Used, ClearFrom, Room;
    if count == 0 {
      ClearNone(ws, n);
    } else {
      MapOne(m, n, count, ws);
      RoomTop(m, n, count);
      if !HasTable(m, n) {
        NewTableFaults(m, n, n);
        NoTableNoPage(m, n);
      } else {
        var r := MapOneMore(m, n, base, ws);
        NextIsOwn(m, n, ws);
        MapPagesReturns(r.value, n + 1, count - 1, base, ws);
        ClearSplit(ws, n, 1, count - 1);
        ClearOne(ws, n);
        if NextFrame(m) == n {
          IdGrows(m, r.value, n, n);
          MapPagesIdentity(r.value, n + 1, count - 1, base, ws);
        } else {
          assert FrameOf(MapPages(m, n, count).value, n) == NextFrame(m);
        }
      }
    }
  }

  lemma IdPagesSame(m: Mem, m1: Mem, n: nat)
    requires m1.frames == m.frames && m1.tables == m.tables && m1.tableAt == m.tableAt && m1.own == m.own
    ensures IdPages(m1, n) <==> IdPages(m, n)
    ensures Based(m1, n) <==> Based(m, n)
    ensures NonePresent(m1, n) <==> NonePresent(m, n)
    ensures forall q: nat :: Present(m1, q) <==> Present(m, q)
    ensures forall q: nat :: FrameOf(m1, q) == FrameOf(m, q)
    ensures forall count: nat :: HasTables(m1, n, count) <==> HasTables(m, n, count)
  {
    forall q: nat
      ensures Present(m1, q) <==> Present(m, q)
      ensures FrameOf(m1, q) == FrameOf(m, q)
      ensures HasTable(m1, q) <==> HasTable(m, q)
    {
    }
  }

  lemma TopAfter(m: Mem, m1: Mem, n: nat, size: U32)
    requires Top(m) == n * PAGE_SIZE && m1.free == Top(m) + size
    ensures Top(m1) == (n + PagesFor(size)) * PAGE_SIZE
  {
  }

  // n pages up to free_addr are mapped, and the page tables lie in those of them that are mapped to themselves.
  ghost predicate Packed(m: Mem, n: nat, base: nat) {
    m.paging && base <= n && Based(m, base) && NonePresent(m, n) && Top(m) == n * PAGE_SIZE
  }

  // Pages of the identity mapping afterwards were so before.
  lemma MappedBefore(m: Mem, m': Mem, n: nat, count: nat)
    requires NewlyMapped(m, m', n, count) && NonePresent(m, n) && m'.own == m.own
    ensures NonePresent(m', n + count) && (IdPages(m', n + count) ==> IdPages(m, n))
  {
    if IdPages(m', n + count) {
      forall q: nat
        ensures Present(m, q) <==> q < n
        ensures q < n ==> FrameOf(m, q) == q
      {
        assert Present(m', q) <==> q < n + count;
        assert q < n ==> FrameOf(m', q) == q;
      }
    }
  }

  // malloc once paging is on, when all pages that are present lie below free_addr: it returns exactly when its pages
  // have tables and as many frames are left.
  lemma MallocReturnsIff(m: Mem, n: nat, base: nat, size: U32, ws: seq<Word>)
    requires Good(m, ws) && RoomFor(m, size) && Packed(m, n, base)
    ensures Base(m, true) == n * PAGE_SIZE
    ensures Malloc(m, size).Some? <==>
            HasTables(m, n, PagesFor(size)) && PagesFor(size) <= CountUnused(m.frames, m.own)
    ensures Malloc(m, size).Some? ==>
      var m', count := Malloc(m, size).value, PagesFor(size);
      && Good(m', ws) && Packed(m', n + count, base) && m'.tables == m.tables && m'.own == m.own
      && CountUnused(m'.frames, m.own) + count == CountUnused(m.frames, m.own)
      && (IdPages(m', n + count) <==> IdPages(m, n) && ClearFrom(ws, n, count))
  {
    hide FramesOK, SharedOK, TablesOK, GivenOK, Room, MapPages, CountUnused, Used, ClearFrom, HasTables, Based;
    RoomAfterKmalloc(m, size);
    KmallocKeeps(m, size, true);
    KmallocKeepsFrames(m, size, true, ws);
    var m1, count := Kmalloc(m, size, true), PagesFor(size);
    IdPagesSame(m, m1, n);
    IdPagesSame(m, m1, base);
    assert Top(m) / PAGE_SIZE == n;
    TopAfter(m, m1, n, size);
    MapPagesReturns(m1, n, count, base, ws);
    MallocKeeps(m, size, ws);
    if Malloc(m, size).Some? {
      var m' := Malloc(m, size).value;
      if IdPages(m, n) {
        MapPagesIdentity(m1, n, count, base, ws);
      }
      MappedBefore(m1, m', n, count);
    }
  }

  lemma IdIsPacked(m: Mem, n: nat)
    requires TablesOK(m) && IdentityTo(m, n) && m.paging
    ensures Packed(m, n, n)
  {
    forall t | 0 <= t < ENTRIES_PER_TABLE && m.tables[t] != 0
      ensures m.tables[t] / PAGE_SIZE < n
    {
      assert TableOK(m, t);
    }
  }

  // From the identity mapping of everything below free_addr, once paging is on: malloc returns exactly when no new
  // page table is needed and frames last, and everything below free_addr is then mapped to itself again exactly when
  // none of its pages' own frames had been marked used.
  lemma MallocIdentityIff(m: Mem, n: nat, size: U32, ws: seq<Word>)
    requires Good(m, ws) && RoomFor(m, size) && IdentityTo(m, n) && m.paging
    ensures Base(m, true) == n * PAGE_SIZE
    ensures Malloc(m, size).Some? <==>
            HasTables(m, n, PagesFor(size)) && PagesFor(size) <= CountUnused(m.frames, m.own)
    ensures Malloc(m, size).Some? ==>
      (IdentityTo(Malloc(m, size).value, n + PagesFor(size)) <==> ClearFrom(ws, n, PagesFor(size)))
  {
    hide FramesOK, SharedOK, GivenOK, TablesOK, IdPages, Based, NonePresent;
    IdIsPacked(m, n);
    MallocReturnsIff(m, n, n, size, ws);
  }

  // ---------- runs of malloc ----------

  // There are tables for the first k pages and no others.
  ghost predicate TablesTo(m: Mem, k: nat) {
    forall q: nat {:trigger HasTable(m, q)} :: HasTable(m, q) <==> q < k
  }

  lemma SameTablesTo(m: Mem, m1: Mem, k: nat)
    requires TablesTo(m, k) && m1.tables == m.tables
    ensures TablesTo(m1, k)
  {
    forall q: nat
      ensures HasTable(m1, q) <==> HasTable(m, q)
    {
    }
  }

  lemma HasTablesIff(m: Mem, k: nat, n: nat, count: nat)
    requires TablesTo(m, k) && n <= k
    ensures HasTables(m, n, count) <==> n + count <= k
  {
    if count > 0 && HasTables(m, n, count) {
      assert HasTable(m, n + count - 1);
    }
  }

  predicate MallocRun(ms: seq<Mem>, sizes: seq<U32>) {
    |ms| == |sizes| + 1 && forall k :: 0 <= k < |sizes| ==>
      RoomFor(ms[k], sizes[k]) && Malloc(ms[k], sizes[k]) == Some(ms[k + 1])
  }

  // The pages of the first n regions.
  function PagesIn(sizes: seq<U32>, n: nat): nat
    requires n <= |sizes|
  {
    if n == 0 then 0 else PagesIn(sizes, n - 1) + PagesFor(sizes[n - 1])
  }

  // What a run of mallocs does to a packed memory.
  lemma {:induction false} MallocRunKeeps(ms: seq<Mem>, sizes: seq<U32>, n: nat, n0: nat, k: nat, ws: seq<Word>)
    requires MallocRun(ms, sizes) && n <= |sizes|
    requires Good(ms[0], ws) && IdPages(ms[0], n0) && Packed(ms[0], n0, n0) && TablesTo(ms[0], k) && n0 <= k
    ensures Good(ms[n], ws) && Packed(ms[n], n0 + PagesIn(sizes, n), n0)
    ensures ms[n].tables == ms[0].tables && ms[n].own == ms[0].own && n0 + PagesIn(sizes, n) <= k
    ensures CountUnused(ms[n].frames, ms[0].own) + PagesIn(sizes, n) == CountUnused(ms[0].frames, ms[0].own)
    ensures IdPages(ms[n], n0 + PagesIn(sizes, n)) <==> ClearFrom(ws, n0, PagesIn(sizes, n))
    decreases n
  {
    hide Good, IdPages, Malloc, RoomFor, PagesFor, Packed, CountUnused, ClearFrom;
    if n == 0 {
      ClearNone(ws, n0);
    } else {
      MallocRunKeeps(ms, sizes, n - 1, n0, k, ws);
      var a, b := PagesIn(sizes, n - 1), PagesFor(sizes[n - 1]);
      assert RoomFor(ms[n - 1], sizes[n - 1]) && Malloc(ms[n - 1], sizes[n - 1]) == Some(ms[n]);
      MallocReturnsIff(ms[n - 1], n0 + a, n0, sizes[n - 1], ws);
      SameTablesTo(ms[0], ms[n - 1], k);
      HasTablesIff(ms[n - 1], k, n0 + a, b);
      ClearSplit(ws, n0, a, b);
    }
  }

  lemma IdBelowTables(m: Mem, n: nat, k: nat)
    requires IdPages(m, n) && TablesTo(m, k)
    ensures n <= k
  {
    if n > 0 {
      assert Present(m, n - 1);
    }
  }

  // In every run of mallocs from the identity mapping, whatever the frame bitmap held when paging started: the next
  // call returns exactly when its pages, with all before, have tables already and no more than the frames that were
  // left; and the mapping is the identity exactly as long as none of the pages' own frames had been marked used.
  lemma MallocRunIdentity(ms: seq<Mem>, sizes: seq<U32>, n: nat, n0: nat, k: nat, ws: seq<Word>, size: U32)
    requires MallocRun(ms, sizes) && n <= |sizes|
    requires Good(ms[0], ws) && IdentityTo(ms[0], n0) && ms[0].paging && TablesTo(ms[0], k)
    ensures Good(ms[n], ws)
    ensures IdentityTo(ms[n], n0 + PagesIn(sizes, n)) <==> ClearFrom(ws, n0, PagesIn(sizes, n))
    ensures RoomFor(ms[n], size) ==>
      (Malloc(ms[n], size).Some? <==>
       n0 + PagesIn(sizes, n) + PagesFor(size) <= k
       && PagesIn(sizes, n) + PagesFor(size) <= CountUnused(ms[0].frames, ms[0].own))
  {
    hide FramesOK, SharedOK, GivenOK, TablesOK, IdPages, Malloc, RoomFor, PagesFor, PagesIn, Based, NonePresent;
    hide CountUnused;
    IdIsPacked(ms[0], n0);
    IdBelowTables(ms[0], n0, k);
    MallocRunKeeps(ms, sizes, n, n0, k, ws);
    if RoomFor(ms[n], size) {
      var n1 := n0 + PagesIn(sizes, n);
      MallocReturnsIff(ms[n], n1, n0, size, ws);
      SameTablesTo(ms[0], ms[n], k);
      HasTablesIff(ms[n], k, n1, PagesFor(size));
    }
  }
}
