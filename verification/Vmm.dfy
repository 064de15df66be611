// Early memory management as it runs, and init_paging: it identity-maps everything below a limit that it keeps
// raising itself.

module Vmm {
  import opened Bits
  import opened Bytes
  import opened Frames
  import opened VmmModel
  import opened VmmPages
  import opened VmmRun

  // ---------- how far init_paging goes ----------

  const FRAME_BYTES: nat := 128   // what is asked for the frame bitmap, whose words take 4 * FRAME_WORDS bytes

  // Tables for the first n pages.
  function TablesFor(n: nat): nat {
    (n + ENTRIES_PER_TABLE - 1) / ENTRIES_PER_TABLE
  }

  // Pages below the first page table: the kernel, the frame bitmap and the page directory.
  function PagesBefore(freeAddr: nat): nat {
    (freeAddr + FRAME_BYTES + PAGE_SIZE - 1) / PAGE_SIZE + 3
  }

  // Pages mapped in the end, over p that lay there before the tables.
  function PagesMapped(p: nat): nat {
    p + (p + ENTRIES_PER_TABLE - 2) / (ENTRIES_PER_TABLE - 1)
  }

  // The loop goes on as long as fewer pages are mapped, and stops there.
  lemma LoopGoesOn(p: nat, n: nat)
    requires p > 0
    ensures n < p + TablesFor(n) ==> n < PagesMapped(p)
    ensures n == PagesMapped(p) ==> n == p + TablesFor(n)
  {
  }

  lemma LoopStopsAt(p: nat, n: nat)
    requires p > 0 && n > 0 && p + TablesFor(n) <= n
    requires n - 1 < p + TablesFor(n - 1)
    ensures n == PagesMapped(p)
  {
    LoopGoesOn(p, n - 1);
    assert ENTRIES_PER_TABLE * (TablesFor(n) - 1) < n <= ENTRIES_PER_TABLE * TablesFor(n);
  }

  // The loop stops within k pages exactly when k pages leave room for their tables.
  lemma StopsWithin(p: nat, k: nat)
    requires p > 0
    ensures PagesMapped(p) <= k <==> p + TablesFor(k) <= k
  {
    assert ENTRIES_PER_TABLE * (TablesFor(k) - 1) < k <= ENTRIES_PER_TABLE * TablesFor(k) || k == 0;
  }

  // The bitmap is given a quarter of the bytes its words take.  They end before the page directory.
  predicate Apart(freeAddr: nat) {
    freeAddr + 4 * FRAME_WORDS <= (PagesBefore(freeAddr) - 3) * PAGE_SIZE
  }

  // That is so exactly when the page that the bitmap was thought to end in has 384 bytes left.
  lemma BitmapOverlap(freeAddr: nat)
    ensures Apart(freeAddr) <==> 1 <= (freeAddr + FRAME_BYTES) % PAGE_SIZE <= PAGE_SIZE - 384
  {
  }

  // Frames whose bits lie between the start of the bitmap and the page directory: byte by byte, eight each.
  function OwnFrames(freeAddr: nat): (k: nat)
    ensures 8 * FRAME_BYTES <= k <= NFRAMES
    ensures k == NFRAMES <==> Apart(freeAddr)
  {
    var gap := (PagesBefore(freeAddr) - 3) * PAGE_SIZE - freeAddr;
    if 8 * gap < NFRAMES then 8 * gap else NFRAMES
  }

  // The frames before the directory suffice exactly when they leave room for the tables; when bitmap and directory
  // are apart, exactly when the kernel ends 7 pages and 128 bytes below 16 MB.
  lemma FramesSuffice(freeAddr: nat)
    ensures PagesMapped(PagesBefore(freeAddr)) <= OwnFrames(freeAddr)
            <==> PagesBefore(freeAddr) + TablesFor(OwnFrames(freeAddr)) <= OwnFrames(freeAddr)
    ensures Apart(freeAddr) ==>
      (PagesMapped(PagesBefore(freeAddr)) <= OwnFrames(freeAddr) <==> freeAddr + FRAME_BYTES <= 4089 * PAGE_SIZE)
  {
    StopsWithin(PagesBefore(freeAddr), OwnFrames(freeAddr));
  }

  // ---------- the state of the loop ----------

  // After n pages, from m0 where there was no table: a table for every 1024 pages begun, one behind the other
  // from the first page boundary on, free_addr behind the last, and exactly the first n pages present.
  ghost predicate Looped(m0: Mem, m: Mem, n: nat) {
    && m.free == (if n == 0 then m0.free else Top(m0) + PAGE_SIZE * TablesFor(n))
    && (forall t {:trigger m.tables[t]} :: 0 <= t < ENTRIES_PER_TABLE ==>
          m.tables[t] == if t < TablesFor(n) then Top(m0) + PAGE_SIZE * t else 0)
    && forall q: nat {:trigger Present(m, q)} :: Present(m, q) <==> q < n
  }

  // Before the loop: no table, and space for the tables of 16 MB above free_addr.
  ghost predicate NoTables(m: Mem) {
    && 0 < m.free <= 0xFFFF_4000
    && forall t :: 0 <= t < ENTRIES_PER_TABLE ==> m.tables[t] == 0
  }

  ghost function Below(n: nat): (s: set<nat>)
    ensures forall q :: q in s <==> 0 <= q < n
  {
    if n == 0 then {} else Below(n - 1) + {n - 1}
  }

  lemma {:induction false} BelowSize(n: nat)
    ensures |Below(n)| == n
  {
    if n > 0 {
      BelowSize(n - 1);
    }
  }

  lemma {:induction false} FewerOf(a: set<nat>, b: set<nat>)
    requires a <= b
    ensures |a| <= |b|
  {
    if a != {} {
      var x :| x in a;
      FewerOf(a - {x}, b - {x});
    }
  }

  // Present pages hold different frames, so there are at most as many.
  lemma NoMoreThanFrames(m: Mem, n: nat, ws: seq<Word>)
    requires Good(m, ws) && n <= PAGES && forall q: nat :: Present(m, q) <==> q < n
    ensures n <= m.own
  {
    BitsArePages(m, ws);
    BelowSize(n);
    BelowSize(m.own);
    assert PresentPages(m) == Below(n);
    FewerOf(NewFrames(m, ws), Below(m.own));
  }

  lemma LoopRoom(m0: Mem, m: Mem, n: nat)
    requires NoTables(m0) && Looped(m0, m, n) && n <= NFRAMES
    ensures n < PAGES && Room(m, n, 1) && Top(m) + PAGE_SIZE < WRAP
  {
    assert TablesFor(n) <= 4 && Top(m) <= Top(m0) + 4 * PAGE_SIZE;
  }

  lemma TablesGrow(n: nat)
    ensures TablesFor(n + 1) == if n / ENTRIES_PER_TABLE < TablesFor(n) then TablesFor(n) else TablesFor(n) + 1
    ensures n / ENTRIES_PER_TABLE <= TablesFor(n)
  {
  }

  // The one directory entry a round may set.
  lemma LoopTable(m0: Mem, m: Mem, n: nat, m1: Mem)
    requires NoTables(m0) && Looped(m0, m, n) && n < NFRAMES && Top(m) + PAGE_SIZE < WRAP
             && HasTable(WithTable(m, n), n)
    requires AllocAt(m, n, false, false) == Some(m1)
    ensures HasTable(m, n) <==> n / ENTRIES_PER_TABLE < TablesFor(n)
    ensures HasTable(m, n) ==> m1.tables == m.tables
    ensures !HasTable(m, n) ==>
      m1.tables == m.tables[n / ENTRIES_PER_TABLE := Top(m)] && Top(m) == Top(m0) + PAGE_SIZE * TablesFor(n)
  {
    hide Overlaid, NextFrame, Used, AlignUp, TableReached, SameOwn, Present;
    AlignUpIs(m);
    AllocAtIs(m, n, false, false);
    assert m1.tables == WithTable(m, n).tables;
  }

  lemma LoopTables(m0: Mem, m: Mem, n: nat, m1: Mem)
    requires NoTables(m0) && Looped(m0, m, n) && n < NFRAMES && Top(m) + PAGE_SIZE < WRAP
             && HasTable(WithTable(m, n), n)
    requires AllocAt(m, n, false, false) == Some(m1)
    requires forall q: nat :: Present(m1, q) <==> q < n + 1
    requires HasTable(m, n) ==> m1.free == m.free
    requires !HasTable(m, n) ==> m1.free == Top(m) + PAGE_SIZE
    ensures Looped(m0, m1, n + 1)
  {
    LoopTable(m0, m, n, m1);
    hide AllocAt, WithTable, NextFrame, Used, AlignUp, Present, NoTables, HasTable;
    TablesGrow(n);
  }

  lemma LoopStep(m0: Mem, m: Mem, n: nat, ws: seq<Word>)
    requires NoTables(m0) && Good(m, ws) && Looped(m0, m, n) && n <= m.own && n * PAGE_SIZE < m.free && !m.paging
    ensures HasTable(WithTable(m, n), n)
    ensures match AllocAt(m, n, false, false)
      case None => NextFrame(m) == -1
      case Some(m1) => Good(m1, ws) && Looped(m0, m1, n + 1) && n + 1 <= m1.own && !m1.paging
  {
    hide FramesOK, SharedOK, TablesOK, GivenOK, AlignUp, NextFrame, WithTable, AllocAt;
    LoopRoom(m0, m, n);
    MapOne(m, n, 1, ws);
    WithTableKeeps(m, n);
    match AllocAt(m, n, false, false)
    case None =>
    case Some(m1) =>
      forall q: nat
        ensures Present(m1, q) <==> q < n + 1
      {
        MapOnePages(m, n, q);
      }
      NoMoreThanFrames(m1, n + 1, ws);
      LoopTables(m0, m, n, m1);
  }

  lemma IdBefore(m: Mem, m1: Mem, n: nat)
    requires m1.own == m.own && n < m.own && (forall q: nat :: Present(m, q) <==> q < n)
    requires forall q: nat :: Present(m1, q) <==> q < n + 1
    requires forall q: nat {:trigger FrameOf(m1, q)} {:trigger FrameOf(m, q)} :: q < n ==>
      FrameOf(m1, q) == FrameOf(m, q)
    ensures IdPages(m1, n + 1) <==> IdPages(m, n) && FrameOf(m1, n) == n
  {
    if IdPages(m1, n + 1) {
      assert FrameOf(m1, n) == n;
      forall q: nat | q < n
        ensures FrameOf(m, q) == q
      {
        assert FrameOf(m1, q) == q;
      }
    }
  }

  // The pages so far are in the frames of their numbers after a round exactly when they were before it and the frame
  // of the new page's number was not in use.
  lemma IdentityStep(m: Mem, n: nat, ws: seq<Word>, m1: Mem)
    requires Good(m, ws) && n < m.own && n < PAGES && Top(m) + PAGE_SIZE < WRAP && m1.own == m.own
    requires AllocAt(m, n, false, false) == Some(m1)
    requires forall q: nat :: Present(m, q) <==> q < n
    ensures IdPages(m1, n + 1) <==> IdPages(m, n) && !Used(ws, n)
  {
    hide FramesOK, SharedOK, TablesOK, GivenOK, AlignUp, NextFrame, WithTable, AllocAt, Used;
    WithTableKeeps(m, n);
    forall q: nat
      ensures Present(m1, q) <==> q < n + 1
      ensures q < n ==> FrameOf(m1, q) == FrameOf(m, q)
      ensures q == n ==> FrameOf(m1, q) == NextFrame(m)
    {
      MapOnePages(m, n, q);
    }
    if IdPages(m, n) {
      NextIsOwn(m, n, ws);
    }
    assert FrameOf(m1, n) == NextFrame(m);
    IdBefore(m, m1, n);
  }

  // ---------- the loop, from its start to its two ends ----------

  lemma LoopStart(m0: Mem)
    requires NoTables(m0)
    ensures Looped(m0, m0, 0) && IdPages(m0, 0) && Top(m0) / PAGE_SIZE > 0
  {
  }

  lemma LoopBound(m0: Mem, m: Mem, n: nat)
    requires NoTables(m0) && Looped(m0, m, n) && n * PAGE_SIZE < m.free
    ensures n < PAGES && n < Top(m0) / PAGE_SIZE + TablesFor(n)
  {
  }

  lemma LoopIdentity(m0: Mem, m: Mem, n: nat, ws: seq<Word>, m1: Mem)
    requires NoTables(m0) && Good(m, ws) && Looped(m0, m, n) && n < m.own && m1.own == m.own && |ws| == FRAME_WORDS
    requires AllocAt(m, n, false, false) == Some(m1)
    requires IdPages(m, n) <==> ClearFrom(ws, 0, n)
    ensures IdPages(m1, n + 1) <==> ClearFrom(ws, 0, n + 1)
  {
    hide Good, AllocAt, IdPages, ClearFrom;
    LoopRoom(m0, m, n);
    IdentityStep(m, n, ws, m1);
    ClearSplit(ws, 0, n, 1);
    ClearOne(ws, n);
  }

  // The frames ran out: there were too few of them, or one that was needed had been in use.
  // Every page below n may be read in user mode and not written.
  ghost predicate ReadOnly(m: Mem, n: nat) {
    forall q: nat {:trigger Present(m, q)} :: q < n ==> Present(m, q) && PageOf(m, q).user && !PageOf(m, q).rw
  }

  lemma NoRights(m: Mem)
    ensures ReadOnly(m, 0)
  {
  }

  lemma RightsBelow(m: Mem, n: nat, q: nat)
    requires ReadOnly(m, n) && q < n
    ensures Present(m, q) && PageOf(m, q).user && !PageOf(m, q).rw
  {
  }

  lemma LoopRights(m0: Mem, m: Mem, n: nat, ws: seq<Word>, m1: Mem)
    requires NoTables(m0) && Good(m, ws) && Looped(m0, m, n) && n <= NFRAMES && ReadOnly(m, n)
    requires n < PAGES && AllocAt(m, n, false, false) == Some(m1)
    ensures ReadOnly(m1, n + 1)
  {
    hide FramesOK, SharedOK, TablesOK, GivenOK, AllocAt, WithTable, AlignUp, NoTables;
    LoopRoom(m0, m, n);
    WithTableKeeps(m, n);
    OneNewPage(m, n, m1);
    forall q: nat | q < n + 1
      ensures Present(m1, q) && PageOf(m1, q).user && !PageOf(m1, q).rw
    {
      assert q < n ==> Present(m, q);
    }
  }

  // A round takes one frame.
  lemma LoopTakes(m0: Mem, m: Mem, n: nat, ws: seq<Word>, m1: Mem)
    requires NoTables(m0) && Good(m, ws) && Looped(m0, m, n) && n <= m.own
    requires n < PAGES && AllocAt(m, n, false, false) == Some(m1)
    ensures m1.own == m.own && CountUnused(m1.frames, m.own) + 1 == CountUnused(m.frames, m.own)
  {
    hide FramesOK, SharedOK, TablesOK, GivenOK, WithTable, AllocAt, AlignUp, NoTables, NextFrame, CountUnused, Used;
    LoopRoom(m0, m, n);
    WithTableKeeps(m, n);
    WithTableFrames(m, n);
    AllocAtIs(m, n, false, false);
    WithTablePages(m, n, n);
    assert !Present(m, n);
    CountAfterUse(WithTable(m, n).frames, NextFrame(m), m.own);
  }

  lemma LoopFailed(m0: Mem, m: Mem, n: nat, ws: seq<Word>)
    requires NoTables(m0) && Good(m, ws) && Looped(m0, m, n) && n <= m.own && n * PAGE_SIZE < m.free
    requires NextFrame(m) == -1 && (IdPages(m, n) <==> ClearFrom(ws, 0, n))
    requires CountUnused(m.frames, m.own) + n == CountUnused(ws, m.own)
    ensures Good(WithTable(m, n), ws)
    ensures CountUnused(ws, m.own) < PagesMapped(Top(m0) / PAGE_SIZE)
    ensures var k := PagesMapped(Top(m0) / PAGE_SIZE); !(k <= m.own && ClearFrom(ws, 0, k))
  {
    hide FramesOK, SharedOK, TablesOK, GivenOK, WithTable, IdPages, PagesMapped, NextFrame, Used, CountUnused;
    NoneCounted(m);
    LoopRoom(m0, m, n);
    WithTableKeeps(m, n);
    WithTableFrames(m, n);
    WithTableKeepsFrames(m, n, ws);
    LoopBound(m0, m, n);
    LoopGoesOn(Top(m0) / PAGE_SIZE, n);
    if IdPages(m, n) {
      NextIsOwn(m, n, ws);
    }
    var k := PagesMapped(Top(m0) / PAGE_SIZE);
    if ClearFrom(ws, 0, k) && n < k {
      ClearSplit(ws, 0, n, k - n);
      ClearSplit(ws, n, 1, k - n - 1);
      if n < m.own && |ws| == FRAME_WORDS {
        ClearOne(ws, n);
      }
    }
  }

  lemma LoopDone(m0: Mem, m: Mem, n: nat)
    requires NoTables(m0) && Looped(m0, m, n) && m.free <= n * PAGE_SIZE
    requires n > 0 ==> n - 1 < Top(m0) / PAGE_SIZE + TablesFor(n - 1)
    ensures n == PagesMapped(Top(m0) / PAGE_SIZE) && m.free == n * PAGE_SIZE
    ensures IdentityTo(m, n) <==> IdPages(m, n)
  {
    hide PagesMapped, IdPages;
    LoopStopsAt(Top(m0) / PAGE_SIZE, n);
    LoopGoesOn(Top(m0) / PAGE_SIZE, n);
  }

  lemma GoodWithPaging(m: Mem, m': Mem, ws: seq<Word>)
    requires m' == m.(paging := m'.paging) && Good(m, ws)
    ensures Good(m', ws)
  {
    SamePagesKeepFrames(m, m', ws);
    forall t
      ensures TableOK(m', t)
    {
      assert TableOK(m, t);
    }
  }

  // Switching paging on changes none of this.
  lemma PagingOn(m0: Mem, m: Mem, n: nat, ws: seq<Word>)
    ensures var m' := m.(paging := true);
      && (Good(m', ws) <==> Good(m, ws)) && (Looped(m0, m', n) <==> Looped(m0, m, n))
      && (IdentityTo(m', n) <==> IdentityTo(m, n)) && (ReadOnly(m', n) <==> ReadOnly(m, n))
  {
    var m' := m.(paging := true);
    forall q: nat
      ensures Present(m', q) <==> Present(m, q)
      ensures FrameOf(m', q) == FrameOf(m, q)
      ensures Present(m, q) ==> PageOf(m', q) == PageOf(m, q)
    {
    }
    if Good(m, ws) {
      GoodWithPaging(m, m', ws);
    }
    if Good(m', ws) {
      GoodWithPaging(m', m, ws);
    }
  }

  // The tables the loop made.
  lemma LoopedTables(m0: Mem, m: Mem, n: nat)
    requires NoTables(m0) && Looped(m0, m, n) && n <= NFRAMES
    ensures TablesTo(m, ENTRIES_PER_TABLE * TablesFor(n))
  {
    forall q: nat
      ensures HasTable(m, q) <==> q < ENTRIES_PER_TABLE * TablesFor(n)
    {
      assert q < PAGES ==> (HasTable(m, q) <==> m.tables[q / ENTRIES_PER_TABLE] != 0);
    }
  }

  // The frame bitmap in memory that held the words held: memset zeroes its first 128 bytes, and those that the page
  // directory takes.
  function FirstBitmap(held: seq<Word>, own: nat): (ws: seq<Word>)
    requires |held| == FRAME_WORDS
    ensures |ws| == FRAME_WORDS
    ensures forall f :: 0 <= f < NFRAMES ==> Used(ws, f) == (8 * FRAME_BYTES <= f < own && Used(held, f))
  {
    seq(FRAME_WORDS, i requires 0 <= i < FRAME_WORDS =>
          seq(WORD_BITS, b requires 0 <= b < WORD_BITS =>
                8 * FRAME_BYTES <= WORD_BITS * i + 31 - b < own && held[i][b]))
  }

  // What it must have held for the frames of the first n pages to be unused: nothing at all up to 1024 pages.
  lemma FirstBitmapClear(held: seq<Word>, own: nat, n: nat)
    requires |held| == FRAME_WORDS && own <= NFRAMES
    ensures ClearFrom(FirstBitmap(held, own), 0, n)
            <==> forall f {:trigger Used(held, f)} :: 8 * FRAME_BYTES <= f < n && f < own ==> !Used(held, f)
  {
    hide FirstBitmap, Used;
    forall f | 0 <= f < NFRAMES
      ensures Used(FirstBitmap(held, own), f) == (8 * FRAME_BYTES <= f < own && Used(held, f))
    {
    }
  }

  // Memory when init_paging starts.
  function Booted(free: U32, held: seq<Word>): Mem
    requires |held| == FRAME_WORDS
  {
    Mem(free, FirstBitmap(held, OwnFrames(free)), seq(ENTRIES_PER_TABLE, _ => 0), seq(ENTRIES_PER_TABLE, _ => 0),
        map[], [], false, OwnFrames(free))
  }

  lemma NoDigits(j: nat)
    ensures !BitOf(0, j)
  {
  }

  lemma EmptyIsGood(m: Mem)
    requires forall t :: 0 <= t < ENTRIES_PER_TABLE ==> m.tables[t] == 0
    requires forall f {:trigger Used(m.frames, f)} :: m.own <= f < NFRAMES ==> !Used(m.frames, f)
    ensures FramesOK(m, m.frames) && SharedOK(m)
  {
    hide Used, BitOf;
    forall n: nat, f: nat
      ensures !Holder(m, n, f)
    {
    }
    forall j | 0 <= j < 32
      ensures !BitOf(0, j)
    {
      NoDigits(j);
    }
  }

  // The bitmap and the page directory are handed out, and nothing is mapped yet.
  lemma StartIsGood(m: Mem) returns (m2: Mem)
    requires m.free <= 0xFFFF_0000 && m.given == []
    requires forall t :: 0 <= t < ENTRIES_PER_TABLE ==> m.tables[t] == 0 && m.phys[t] == 0
    requires forall f {:trigger Used(m.frames, f)} :: m.own <= f < NFRAMES ==> !Used(m.frames, f)
    ensures m2 == Kmalloc(Kmalloc(m, FRAME_BYTES, false), DIR_SIZE, true) && m2.frames == m.frames
    ensures NoTables(m2) && Top(m2) == PagesBefore(m.free) * PAGE_SIZE && Good(m2, m2.frames)
  {
    hide AlignUp, Used, FramesOK, SharedOK;
    var m1 := Kmalloc(m, FRAME_BYTES, false);
    AlignUpIs(m1);
    KmallocKeeps(m, FRAME_BYTES, false);
    KmallocKeeps(m1, DIR_SIZE, true);
    m2 := Kmalloc(m1, DIR_SIZE, true);
    EmptyIsGood(m2);
  }

  lemma TwelfthDigit()
    ensures BitOf(0x503000, 12)
  {
    assert Pow2(4) == 0x10 && Pow2(8) == 0x100 && Pow2(12) == 0x1000;
  }

  lemma OverlapNumbers()
    ensures OwnFrames(0x4FFF80) == 1024 && PagesMapped(0x503) == 1285
  {
  }

  // With free_addr at 0x4FFF80 the directory begins right behind the 128 bytes: the first table, at 0x503000, goes into
  // word 32 of the bitmap, where frame 1036 then looks used; and the loop would map 1285 pages.
  lemma OverlapExample(held: seq<Word>) returns (m0: Mem, m1: Mem)
    requires |held| == FRAME_WORDS
    ensures m0 == Kmalloc(Kmalloc(Booted(0x4FFF80, held), FRAME_BYTES, false), DIR_SIZE, true) && m1 == WithTable(m0, 0)
    ensures m1.own == 1024 && PagesMapped(Top(m0) / PAGE_SIZE) == 1285
    ensures m1.tables[0] == 0x503000
    ensures forall j :: 0 <= j < 32 ==> Used(m1.frames, 1024 + j) == BitOf(0x503000, j)
    ensures Used(m1.frames, 1036)
  {
    hide BitOf, Used, FirstBitmap, OwnFrames, PagesMapped, Overlaid, Zero;
    OverlapNumbers();
    TwelfthDigit();
    m0 := Kmalloc(Kmalloc(Booted(0x4FFF80, held), FRAME_BYTES, false), DIR_SIZE, true);
    assert m0.free == 0x502004;
    m1 := WithTable(m0, 0);
    assert Used(m1.frames, 1024 + 12);
  }

  // ---------- the loop of malloc ----------

  lemma MallocStarts(m: Mem, size: U32, ws: seq<Word>)
    requires Good(m, ws) && RoomFor(m, size)
    ensures Base(m, true) % PAGE_SIZE == 0 && Kmalloc(m, size, true).free == Base(m, true) + size
    ensures Good(Kmalloc(m, size, true), ws)
    ensures Room(Kmalloc(m, size, true), Base(m, true) / PAGE_SIZE, PagesFor(size))
  {
    hide FramesOK, SharedOK, TablesOK, GivenOK, Room;
    RoomAfterKmalloc(m, size);
    KmallocKeeps(m, size, true);
    KmallocKeepsFrames(m, size, true, ws);
  }

  lemma MallocGoesOn(m: Mem, n: nat, count: nat, ws: seq<Word>)
    requires Good(m, ws) && count > 0 && Room(m, n, count)
    ensures n < PAGES && HasTable(WithTable(m, n), n)
    ensures match AllocAt(m, n, false, false)
      case None => MapPages(m, n, count) == None
      case Some(m1) => Good(m1, ws) && Room(m1, n + 1, count - 1)
                       && MapPages(m, n, count) == MapPages(m1, n + 1, count - 1)
  {
    hide Good, AllocAt, WithTable;
    MapOne(m, n, count, ws);
  }

  lemma MapPagesEnd(m: Mem, n: nat)
    requires n <= PAGES
    ensures MapPages(m, n, 0) == Some(m)
  {
  }

  // ---------- the kernel's memory ----------

  class Memory {
    var freeAddr: U32
    const frames: array<Word>
    const tables: array<U32>
    const physTables: array<U32>
    var tableAt: map<U32, Table>
    var paging: bool
    const own: nat
    ghost var given: seq<Region>

    ghost predicate Valid()
      reads this, frames, tables, physTables
    {
      && tables != physTables
      && MemOK(Mem(freeAddr, frames[..], tables[..], physTables[..], tableAt, given, paging, own))
    }

    ghost function View(): Mem
      requires Valid()
      reads this, frames, tables, physTables
    {
      Mem(freeAddr, frames[..], tables[..], physTables[..], tableAt, given, paging, own)
    }

    method Kmalloc(size: U32, align: bool) returns (ret: U32)
      requires Valid()
      modifies this
      ensures Valid() && View() == VmmModel.Kmalloc(old(View()), size, align) && ret == Base(old(View()), align)
    {
      if align && freeAddr % PAGE_SIZE != 0 {
        freeAddr := (freeAddr - freeAddr % PAGE_SIZE + PAGE_SIZE) % WRAP;
      }
      ret := freeAddr;
      given := given + [Region(ret, size)];
      freeAddr := (freeAddr + size) % WRAP;
    }

    // The start of init_paging: the bitmap, of which the first 128 bytes are zeroed while the other words stay
    // what memory held, and an empty page directory on the next page boundary.
    constructor (free: U32, held: seq<Word>)
      requires |held| == FRAME_WORDS
      ensures Valid() && fresh(frames) && fresh(tables) && fresh(physTables)
      ensures View() == VmmModel.Kmalloc(VmmModel.Kmalloc(Booted(free, held), FRAME_BYTES, false), DIR_SIZE, true)
      ensures free <= 0xFFFF_0000 ==>
        NoTables(View()) && Top(View()) == PagesBefore(free) * PAGE_SIZE && Good(View(), View().frames)
    {
      hide FirstBitmap, OwnFrames, Good, NoTables, AlignUp, PagesBefore, Used;
      freeAddr, tableAt, given, paging, own := free, map[], [], false, OwnFrames(free);
      var ws := FirstBitmap(held, OwnFrames(free));
      frames := new Word[FRAME_WORDS](k requires 0 <= k < |ws| => ws[k]);
      tables := new U32[ENTRIES_PER_TABLE](_ => 0);
      physTables := new U32[ENTRIES_PER_TABLE](_ => 0);
      new;
      assert View() == Booted(free, held);
      if free <= 0xFFFF_0000 {
        ghost var m2 := StartIsGood(View());
      }
      var bitmap := Kmalloc(FRAME_BYTES, false);
      var dir := Kmalloc(DIR_SIZE, true);
    }

    method Reaches(a: U32) returns (ok: bool)
      requires Valid()
      ensures ok == Reached(View(), a)
    {
      if !paging {
        return true;
      }
      match Walk(physTables[..], tableAt, a)
      case None => return false;
      case Some(page) => return page.present && page.frame == a / PAGE_SIZE;
    }

    // The address of table t, written into the directory, changes the bits of the frame bitmap that lie there.
    method Share(t: nat, a: U32)
      requires Valid() && t < ENTRIES_PER_TABLE
      modifies frames
      ensures Valid() && View() == old(View()).(frames := Overlaid(old(View().frames), own + 32 * t, a, 32))
    {
      hide BitOf, Used, Set, Reset;
      for j := 0 to 32
        invariant Valid() && View() == old(View()).(frames := Overlaid(old(View().frames), own + 32 * t, a, j))
      {
        var f := own + 32 * t + j;
        if f < NFRAMES {
          if BitOf(a, j) {
            SetBitmap(frames, FrameBit(f));
          } else {
            ResetBitmap(frames, FrameBit(f));
          }
        }
      }
    }

    // get_page: is there an entry for the address?  With make, a missing table is made first; faulted where clearing
    // it does not return.
    method GetPage(addr: U32, make: bool) returns (found: bool, faulted: bool)
      requires Valid()
      modifies this, frames, tables, physTables
      ensures Valid() && paging == old(paging)
      ensures !make ==> View() == old(View()) && !faulted && found == HasTable(View(), addr / PAGE_SIZE)
      ensures make ==>
        match VmmModel.GetPage(old(View()), addr / PAGE_SIZE)
        case None => faulted
        case Some(m) => !faulted && found && View() == m
    {
      var n := addr / PAGE_SIZE;
      var tableIdx := n / ENTRIES_PER_TABLE;
      if tables[tableIdx] != 0 {
        return true, false;
      } else if make {
        var phys := Kmalloc(PAGE_SIZE, true);
        var ok := Reaches(phys);
        if !ok {
          return false, true;
        }
        tableAt := tableAt[phys := EmptyTable()];
        tables[tableIdx] := phys;
        physTables[tableIdx] := Or7(phys);
        Share(tableIdx, phys);
        return true, false;
      }
      return false, false;
    }

    // Returns false where the code aborts.
    method PfaAlloc(n: nat, isKernel: bool, isWriteable: bool) returns (ok: bool)
      requires Valid() && HasTable(View(), n)
      modifies this`tableAt, frames
      ensures Valid()
      ensures match VmmModel.PfaAlloc(old(View()), n, isKernel, isWriteable)
        case None => !ok && View() == old(View())
        case Some(m) => ok && View() == m
    {
      var a := tables[n / ENTRIES_PER_TABLE];
      ok := Reaches(a);
      if !ok {
        return;
      }
      var page := tableAt[a][n % ENTRIES_PER_TABLE];
      if page.present {
        return true;
      }
      var idx := FirstFrame(frames);
      if idx == -1 || idx >= own {
        return false;
      }
      SetBitmap(frames, FrameBit(idx));
      tableAt := tableAt[a := tableAt[a][n % ENTRIES_PER_TABLE := Page(true, isWriteable, !isKernel, idx)]];
      return true;
    }

    // Returns false where the code aborts, or is outside what C defines.
    method PfaFree(n: nat) returns (ok: bool)
      requires Valid() && HasTable(View(), n)
      modifies this`tableAt, frames
      ensures Valid()
      ensures match VmmModel.PfaFree(old(View()), n, true)
        case None => !ok && View() == old(View())
        case Some(m) => ok && View() == m
    {
      var a := tables[n / ENTRIES_PER_TABLE];
      ok := Reaches(a);
      if !ok {
        return;
      }
      var page := tableAt[a][n % ENTRIES_PER_TABLE];
      if page.present {
        var frame := page.frame / PAGE_SIZE;
        if frame >= own {
          return false;
        }
        ResetBitmap(frames, FrameBit(frame));
        tableAt := tableAt[a := tableAt[a][n % ENTRIES_PER_TABLE := page.(present := false)]];
      }
      return true;
    }

    // The body of both loops: get_page, which makes a missing table, and pfa_alloc.  Returns false where the code
    // aborts.
    method AllocPage(addr: U32) returns (ok: bool)
      requires Valid() && HasTable(WithTable(View(), addr / PAGE_SIZE), addr / PAGE_SIZE)
      modifies this, frames, tables, physTables
      ensures Valid() && paging == old(paging)
      ensures match AllocAt(old(View()), addr / PAGE_SIZE, false, false)
        case None => !ok && (!paging ==> View() == WithTable(old(View()), addr / PAGE_SIZE))
        case Some(m) => ok && View() == m
    {
      hide VmmModel.PfaAlloc;
      var found, faulted := GetPage(addr, true);
      if faulted {
        return false;
      }
      ok := PfaAlloc(addr / PAGE_SIZE, false, false);
    }

    // The loop of init_paging, and paging switched on.  It ends, because every round takes a frame and there are 4096.
    // Returns false where the code aborts, or would set a bit of a table's address.
    method InitPaging() returns (ok: bool)
      requires Valid() && NoTables(View()) && Good(View(), View().frames) && !paging
      modifies this, frames, tables, physTables
      ensures Valid() && Good(View(), old(View().frames)) && paging == ok
      ensures var n := PagesMapped(Top(old(View())) / PAGE_SIZE);
        && (ok ==> n <= own && Looped(old(View()), View(), n) && freeAddr == n * PAGE_SIZE)
        && (ok && IdentityTo(View(), n) <==> n <= own && ClearFrom(old(View().frames), 0, n))
        && (ok ==> TablesTo(View(), ENTRIES_PER_TABLE * TablesFor(n)))
        && (ok <==> n <= CountUnused(old(View().frames), own))
      ensures ok ==> forall q: nat {:trigger Present(View(), q)} :: q * 4096 < freeAddr ==>
        Present(View(), q) && PageOf(View(), q).user && !PageOf(View(), q).rw
    {
      hide Good, Looped, NoTables, WithTable, AllocAt, ClearFrom, IdPages, IdentityTo, TablesTo, NextFrame;
      hide ReadOnly, CountUnused;
      ghost var m0, ws := View(), frames[..];
      ghost var p := Top(m0) / PAGE_SIZE;
      var i, n: nat := 0, 0;
      LoopStart(m0);
      ClearNone(ws, 0);
      NoRights(View());
      while i < freeAddr
        invariant Valid() && i == n * PAGE_SIZE && n <= own && !paging
        invariant Good(View(), ws) && Looped(m0, View(), n)
        invariant IdPages(View(), n) <==> ClearFrom(ws, 0, n)
        invariant ReadOnly(View(), n) && CountUnused(frames[..], own) + n == CountUnused(ws, own)
        invariant n > 0 ==> n - 1 < p + TablesFor(n - 1)
        decreases NFRAMES + 1 - n
      {
        ghost var m := View();
        LoopBound(m0, m, n);
        LoopStep(m0, m, n, ws);
        ok := AllocPage(i);
        if !ok {
          LoopFailed(m0, m, n, ws);
          return;
        }
        LoopIdentity(m0, m, n, ws, View());
        LoopRights(m0, m, n, ws, View());
        LoopTakes(m0, m, n, ws, View());
        i, n := i + PAGE_SIZE, n + 1;
      }
      LoopDone(m0, View(), n);
      PagingOn(m0, View(), n, ws);
      ok, paging := true, true;
      LoopedTables(m0, View(), n);
      ghost var m := View();
      forall q: nat | q * 4096 < freeAddr
        ensures Present(m, q) && PageOf(m, q).user && !PageOf(m, q).rw
      {
        RightsBelow(m, n, q);
      }
    }

    // malloc: a region on a page boundary, with all its pages mapped.  Returns false where the code aborts.
    method Malloc(size: U32, ghost ws: seq<Word>) returns (ok: bool, ret: U32)
      requires Valid() && Good(View(), ws) && RoomFor(View(), size)
      modifies this, frames, tables, physTables
      ensures Valid() && ret == Base(old(View()), true)
      ensures ok == VmmModel.Malloc(old(View()), size).Some?
      ensures ok ==> VmmModel.Malloc(old(View()), size) == Some(View())
    {
      hide Good, MapPages, WithTable, AllocAt, Room, AlignUp;
      MallocStarts(View(), size, ws);
      ret := Kmalloc(size, true);
      ghost var m1, first, count := View(), ret / PAGE_SIZE, PagesFor(size);
      ghost var k: nat := 0;
      var j: nat := ret;
      while j < size + ret
        invariant Valid() && Good(View(), ws) && k <= count && j == (first + k) * PAGE_SIZE
        invariant Room(View(), first + k, count - k)
        invariant MapPages(View(), first + k, count - k) == MapPages(m1, first, count)
        decreases count - k
      {
        MallocGoesOn(View(), first + k, count - k, ws);
        ok := AllocPage(j);
        if !ok {
          return;
        }
        k, j := k + 1, j + PAGE_SIZE;
      }
      MapPagesEnd(View(), first + k);
      ok := true;
    }
  }
}
