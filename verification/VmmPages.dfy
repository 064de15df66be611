// What the page table and the frame bitmap keep: tables, translations, and who holds which frame.

module VmmPages {
  import opened Bits
  import opened Bytes
  import opened Frames
  import opened VmmModel

  // ---------- regions and tables ----------

  // The next page boundary, without wrapping.
  function Top(m: Mem): nat {
    (m.free + PAGE_SIZE - 1) / PAGE_SIZE * PAGE_SIZE
  }

  // Regions were handed out upwards, one after another.
  ghost predicate GivenOK(m: Mem) {
    && (forall i :: 0 <= i < |m.given| ==> m.given[i].addr + m.given[i].len <= m.free)
    && forall i, j :: 0 <= i < j < |m.given| ==> m.given[i].addr + m.given[i].len <= m.given[j].addr
  }

  // A directory entry is empty in both halves, or a table on a page boundary that kmalloc handed out, which the
  // other half names with its three low bits set.
  ghost predicate TableOK(m: Mem, t: nat) {
    t < ENTRIES_PER_TABLE ==>
      if m.tables[t] == 0 then m.phys[t] == 0
      else m.tables[t] % PAGE_SIZE == 0 && m.phys[t] == m.tables[t] + 7 && m.tables[t] + PAGE_SIZE <= m.free
           && Region(m.tables[t], PAGE_SIZE) in m.given
  }

  ghost predicate TablesOK(m: Mem) {
    && (forall t {:trigger TableOK(m, t)} :: TableOK(m, t))
    && forall t, u :: 0 <= t < u < ENTRIES_PER_TABLE && m.tables[t] != 0 ==> m.tables[t] != m.tables[u]
  }

  lemma AlignUpIs(m: Mem)
    requires Top(m) < WRAP
    ensures Base(m, true) == Top(m) >= m.free && Top(m) % PAGE_SIZE == 0 && Top(m) < m.free + PAGE_SIZE
  {
  }

  // A region handed out lies above all earlier ones; the tables stay what they are.
  lemma KmallocKeeps(m: Mem, size: U32, align: bool)
    requires GivenOK(m) && TablesOK(m) && Top(m) + size < WRAP
    ensures GivenOK(Kmalloc(m, size, align)) && TablesOK(Kmalloc(m, size, align))
    ensures Kmalloc(m, size, align).free == Base(m, align) + size && Base(m, align) >= m.free
    ensures align ==> Base(m, align) == Top(m)
  {
    AlignUpIs(m);
    var m' := Kmalloc(m, size, align);
    forall t
      ensures TableOK(m', t)
    {
      assert TableOK(m, t);
    }
  }

  lemma WithTableKeeps(m: Mem, n: nat)
    requires GivenOK(m) && TablesOK(m) && n < PAGES && 0 < m.free && Top(m) + PAGE_SIZE < WRAP
    ensures GivenOK(WithTable(m, n)) && TablesOK(WithTable(m, n)) && HasTable(WithTable(m, n), n)
    ensures HasTable(m, n) ==> WithTable(m, n) == m
    ensures !HasTable(m, n) ==> WithTable(m, n).free == Top(WithTable(m, n)) == Top(m) + PAGE_SIZE
  {
    hide AlignUp, Overlaid;
    if !HasTable(m, n) {
      KmallocKeeps(m, PAGE_SIZE, true);
      AlignUpIs(m);
      var m' := WithTable(m, n);
      forall t
        ensures TableOK(m', t)
      {
        assert TableOK(m, t);
      }
      forall t, u | 0 <= t < u < ENTRIES_PER_TABLE && m'.tables[t] != 0
        ensures m'.tables[t] != m'.tables[u]
      {
        assert TableOK(m, t) && TableOK(m, u);
      }
    }
  }

  // Making a table changes no other page: those that had a table keep theirs, and the new ones are absent.
  lemma WithTablePages(m: Mem, n: nat, q: nat)
    requires TablesOK(m) && n < PAGES && q < PAGES && 0 < m.free && Top(m) + PAGE_SIZE < WRAP
    ensures HasTable(m, q) ==> HasTable(WithTable(m, n), q) && PageOf(WithTable(m, n), q) == PageOf(m, q)
    ensures !HasTable(m, q) && HasTable(WithTable(m, n), q) ==>
      q / ENTRIES_PER_TABLE == n / ENTRIES_PER_TABLE && !PageOf(WithTable(m, n), q).present
    ensures Present(WithTable(m, n), q) <==> Present(m, q)
  {
    AlignUpIs(m);
    assert TableOK(m, q / ENTRIES_PER_TABLE);
  }

  lemma PutPagePages(m: Mem, n: nat, p: Page, q: nat)
    requires TablesOK(m) && HasTable(m, n)
    ensures HasTable(PutPage(m, n, p), q) <==> HasTable(m, q)
    ensures HasTable(m, q) ==> PageOf(PutPage(m, n, p), q) == if q == n then p else PageOf(m, q)
  {
  }

  lemma PutPageKeeps(m: Mem, n: nat, p: Page)
    requires TablesOK(m) && GivenOK(m) && HasTable(m, n)
    ensures TablesOK(PutPage(m, n, p)) && GivenOK(PutPage(m, n, p))
  {
    forall t
      ensures TableOK(PutPage(m, n, p), t)
    {
      assert TableOK(m, t);
    }
  }

  // ---------- the processor's walk ----------

  // The walk ends at the entry get_page returns; where get_page has no table it ends at the directory.
  lemma WalkIsGetPage(m: Mem, addr: U32)
    requires TablesOK(m)
    ensures Walk(m.phys, m.tableAt, addr) ==
            if HasTable(m, addr / PAGE_SIZE) then Some(PageOf(m, addr / PAGE_SIZE)) else None
  {
    var t := addr / 0x40_0000;
    assert t == addr / PAGE_SIZE / ENTRIES_PER_TABLE;
    assert TableOK(m, t);
  }

  // Making a table for address a leaves the walk of every address that led to a table as it was.
  lemma WalkAfterTable(m: Mem, a: U32, addr: U32)
    requires GivenOK(m) && TablesOK(m) && 0 < m.free && Top(m) + PAGE_SIZE < WRAP
    requires Walk(m.phys, m.tableAt, addr).Some?
    ensures Walk(WithTable(m, a / PAGE_SIZE).phys, WithTable(m, a / PAGE_SIZE).tableAt, addr)
            == Walk(m.phys, m.tableAt, addr)
  {
    hide Walk, WithTable;
    WithTableKeeps(m, a / PAGE_SIZE);
    WalkIsGetPage(m, addr);
    WalkIsGetPage(WithTable(m, a / PAGE_SIZE), addr);
    WithTablePages(m, a / PAGE_SIZE, addr / PAGE_SIZE);
  }

  // ---------- who holds which frame ----------

  predicate Holder(m: Mem, n: nat, f: nat) {
    Present(m, n) && PageOf(m, n).frame == f
  }

  ghost predicate Held(m: Mem, f: nat) {
    exists n :: Holder(m, n, f)
  }

  // Over the bitmap ws that paging started from, as far as it lies before the directory: a present page holds a frame
  // that was unused, no two hold the same, and the bits set since are exactly those of the frames held.
  ghost predicate FramesOK(m: Mem, ws: seq<Word>) {
    && |ws| == FRAME_WORDS
    && (forall n: nat, f: nat {:trigger Holder(m, n, f)} :: Holder(m, n, f) ==> f < m.own)
    && (forall n: nat, q: nat, f: nat {:trigger Holder(m, n, f), Holder(m, q, f)} ::
          Holder(m, n, f) && Holder(m, q, f) ==> n == q)
    && (forall f {:trigger Used(m.frames, f)} :: 0 <= f < m.own ==>
          (Used(m.frames, f) <==> Used(ws, f) || Held(m, f)) && !(Used(ws, f) && Held(m, f)))
  }

  // Where the bitmap reaches into the directory its bits are those of the tables' addresses.
  ghost predicate SharedOK(m: Mem) {
    forall f {:trigger Used(m.frames, f)} :: m.own <= f < NFRAMES ==>
      Used(m.frames, f) == BitOf(m.tables[(f - m.own) / 32], (f - m.own) % 32)
  }

  // The same frames are used before the directory.
  predicate SameOwn(m: Mem, m': Mem) {
    m'.own == m.own && forall f {:trigger Used(m'.frames, f)} :: 0 <= f < m.own ==>
      Used(m'.frames, f) == Used(m.frames, f)
  }

  lemma NextIs(m: Mem, f: int)
    requires f == -1 ==> forall g :: 0 <= g < m.own ==> Used(m.frames, g)
    requires f != -1 ==> 0 <= f < m.own && !Used(m.frames, f) && forall g :: 0 <= g < f ==> Used(m.frames, g)
    ensures NextFrame(m) == f
  {
    hide Used, FirstUnused;
    var r := NextFrame(m);
    assert r != -1 ==> !Used(m.frames, r);
    assert f != -1 ==> !(0 <= r < f) && r != -1 && !(f < r);
  }

  lemma SameNext(m: Mem, m': Mem)
    requires SameOwn(m, m')
    ensures NextFrame(m') == NextFrame(m)
    ensures CountUnused(m'.frames, m.own) == CountUnused(m.frames, m.own)
  {
    hide Used, NextFrame;
    CountSame(m.frames, m'.frames, m.own);
    NextIs(m', NextFrame(m));
  }

  lemma OverlaidShares(m: Mem, m': Mem, t: nat, a: U32)
    requires SharedOK(m) && t < ENTRIES_PER_TABLE && m'.own == m.own && m'.tables == m.tables[t := a]
    requires m'.frames == Overlaid(m.frames, m.own + 32 * t, a, 32)
    ensures SharedOK(m')
  {
    hide BitOf, Used;
    forall f | m.own <= f < NFRAMES
      ensures Used(m'.frames, f) == BitOf(m'.tables[(f - m.own) / 32], (f - m.own) % 32)
    {
      var s := f - m.own;
      assert 32 * t <= s < 32 * t + 32 <==> s / 32 == t;
      assert Used(m.frames, f) == BitOf(m.tables[s / 32], s % 32);
    }
  }

  // Making a table sets and clears shared bits only.
  lemma WithTableFrames(m: Mem, n: nat)
    requires n < PAGES
    ensures SameOwn(m, WithTable(m, n)) && NextFrame(WithTable(m, n)) == NextFrame(m)
    ensures CountUnused(WithTable(m, n).frames, m.own) == CountUnused(m.frames, m.own)
    ensures SharedOK(m) ==> SharedOK(WithTable(m, n))
  {
    hide BitOf, Used, NextFrame, SharedOK, AlignUp;
    SameNext(m, WithTable(m, n));
    if SharedOK(m) && !HasTable(m, n) {
      OverlaidShares(m, WithTable(m, n), n / ENTRIES_PER_TABLE, Base(m, true));
    }
  }

  lemma SamePagesKeepFrames(m: Mem, m': Mem, ws: seq<Word>)
    requires FramesOK(m, ws) && SameOwn(m, m')
    requires forall n, f :: Holder(m', n, f) <==> Holder(m, n, f)
    ensures FramesOK(m', ws)
  {
    forall f | 0 <= f < m.own
      ensures Held(m', f) <==> Held(m, f)
    {
      if Held(m', f) {
        var n :| Holder(m', n, f);
        assert Holder(m, n, f);
      }
      if Held(m, f) {
        var n :| Holder(m, n, f);
        assert Holder(m', n, f);
      }
    }
  }

  lemma WithTableKeepsFrames(m: Mem, n: nat, ws: seq<Word>)
    requires FramesOK(m, ws) && TablesOK(m) && n < PAGES && 0 < m.free && Top(m) + PAGE_SIZE < WRAP
    ensures FramesOK(WithTable(m, n), ws)
  {
    hide FramesOK, TablesOK, SameOwn;
    WithTableFrames(m, n);
    forall q: nat, f
      ensures Holder(WithTable(m, n), q, f) <==> Holder(m, q, f)
    {
      if q < PAGES {
        WithTablePages(m, n, q);
      }
    }
    SamePagesKeepFrames(m, WithTable(m, n), ws);
  }

  // The least unused frame goes to page n.
  lemma FrameTaken(m: Mem, m': Mem, ws: seq<Word>, n: nat, f: nat)
    requires FramesOK(m, ws) && f < m.own == m'.own && !Used(m.frames, f)
    requires m'.frames == Use(m.frames, f)
    requires forall q, g :: Holder(m', q, g) <==> Holder(m, q, g) || (q == n && g == f)
    requires forall g :: !Holder(m, n, g)
    ensures FramesOK(m', ws)
  {
    forall g | 0 <= g < m.own
      ensures Held(m', g) <==> Held(m, g) || g == f
    {
      if Held(m', g) {
        var q :| Holder(m', q, g);
        assert Holder(m, q, g) || g == f;
      }
      if Held(m, g) {
        var q :| Holder(m, q, g);
        assert Holder(m', q, g);
      }
      assert Holder(m', n, f);
    }
  }

  lemma TablesWithFrames(m: Mem, m': Mem)
    requires m' == m.(frames := m'.frames)
    ensures TablesOK(m) ==> TablesOK(m')
    ensures GivenOK(m) ==> GivenOK(m')
  {
    if TablesOK(m) {
      forall t
        ensures TableOK(m', t)
      {
        assert TableOK(m, t);
      }
    }
  }

  lemma PfaAllocKeeps(m: Mem, n: nat, isKernel: bool, isWriteable: bool, ws: seq<Word>)
    requires FramesOK(m, ws) && TablesOK(m) && GivenOK(m) && HasTable(m, n)
    ensures match PfaAlloc(m, n, isKernel, isWriteable)
      case None => !TableReached(m, n) || (NextFrame(m) == -1 && !Present(m, n))
      case Some(m') => FramesOK(m', ws) && TablesOK(m') && GivenOK(m') && Present(m', n)
                       && m'.free == m.free && m'.tables == m.tables && m'.given == m.given
                       && m'.phys == m.phys && m'.paging == m.paging && m'.own == m.own
                       && (SharedOK(m) ==> SharedOK(m'))
                       && (PageOf(m, n).present ==> m' == m)
                       && (!PageOf(m, n).present ==>
                             PageOf(m', n) == Page(true, isWriteable, !isKernel, NextFrame(m)))
  {
    var f := NextFrame(m);
    if !PageOf(m, n).present && f != -1 {
      var m1 := m.(frames := Use(m.frames, f));
      var p := Page(true, isWriteable, !isKernel, f);
      var m' := PutPage(m1, n, p);
      TablesWithFrames(m, m1);
      PutPageKeeps(m1, n, p);
      hide FramesOK, TablesOK, GivenOK, PutPage;
      forall q, g
        ensures Holder(m', q, g) <==> Holder(m, q, g) || (q == n && g == f)
      {
        PutPagePages(m1, n, p, q);
      }
      FrameTaken(m, m', ws, n, f);
    }
  }

  // ---------- pfa_free ----------

  // Page n lets go of frame f, whose bit is cleared.
  lemma FrameReleased(m: Mem, m': Mem, ws: seq<Word>, n: nat, f: nat)
    requires FramesOK(m, ws) && Holder(m, n, f) && m'.own == m.own
    requires m'.frames == Unuse(m.frames, f)
    requires forall q, g :: Holder(m', q, g) <==> Holder(m, q, g) && q != n
    ensures FramesOK(m', ws)
  {
    forall g | 0 <= g < m.own
      ensures Held(m', g) <==> Held(m, g) && g != f
    {
      if Held(m', g) {
        var q :| Holder(m', q, g);
        assert Holder(m, q, g);
        assert Holder(m, n, f);
      }
      if Held(m, g) && g != f {
        var q :| Holder(m, q, g);
        assert Holder(m', q, g);
      }
    }
    assert Held(m, f);
  }

  lemma PfaFreePages(m: Mem, n: nat, asCoded: bool, q: nat, g: nat)
    requires TablesOK(m) && HasTable(m, n) && PageOf(m, n).present && PfaFree(m, n, asCoded).Some?
    ensures Holder(PfaFree(m, n, asCoded).value, q, g) <==> Holder(m, q, g) && q != n
  {
    var p := PageOf(m, n);
    var m1 := m.(frames := Unuse(m.frames, FreedBit(p.frame, asCoded)));
    TablesWithFrames(m, m1);
    PutPagePages(m1, n, p.(present := false), q);
  }

  // Page n lets go of frame f, but its bit stays set.
  lemma FrameLost(m: Mem, m': Mem, ws: seq<Word>, n: nat, f: nat)
    requires FramesOK(m, ws) && Holder(m, n, f) && m'.own == m.own && Used(m'.frames, f)
    requires forall q, g :: Holder(m', q, g) <==> Holder(m, q, g) && q != n
    ensures !FramesOK(m', ws)
  {
    assert Held(m, f) && Used(m.frames, f);
    assert !Held(m', f) by {
      forall q
        ensures !Holder(m', q, f)
      {
        assert Holder(m, q, f) ==> q == n;
      }
    }
  }

  lemma FreeBits(m: Mem, n: nat, asCoded: bool)
    requires HasTable(m, n) && TableReached(m, n) && PageOf(m, n).present && PageOf(m, n).frame < m.own
    ensures PfaFree(m, n, asCoded).Some? && HasTable(PfaFree(m, n, asCoded).value, n)
    ensures PageOf(PfaFree(m, n, asCoded).value, n) == PageOf(m, n).(present := false)
    ensures PfaFree(m, n, asCoded).value.frames == Unuse(m.frames, FreedBit(PageOf(m, n).frame, asCoded))
  {
  }

  // The free clears the bit that allocating set: always, as meant; as coded, exactly for a page that is absent or
  // holds frame 0.
  predicate FreesOwnFrame(m: Mem, n: nat, asCoded: bool)
    requires HasTable(m, n)
  {
    !asCoded || !PageOf(m, n).present || PageOf(m, n).frame == 0
  }

  lemma FreedTables(m: Mem, n: nat, asCoded: bool)
    requires TablesOK(m) && GivenOK(m) && HasTable(m, n) && PfaFree(m, n, asCoded).Some?
    ensures TablesOK(PfaFree(m, n, asCoded).value) && GivenOK(PfaFree(m, n, asCoded).value)
    ensures PfaFree(m, n, asCoded).value.free == m.free
  {
    var p := PageOf(m, n);
    var m1 := m.(frames := PfaFree(m, n, asCoded).value.frames);
    TablesWithFrames(m, m1);
    PutPageKeeps(m1, n, p.(present := false));
  }

  // Freeing a page whose entry can be reached keeps the bitmap right exactly when it clears that bit; tables and
  // regions stay in any case.
  lemma PfaFreeIff(m: Mem, n: nat, asCoded: bool, ws: seq<Word>)
    requires FramesOK(m, ws) && TablesOK(m) && GivenOK(m) && HasTable(m, n)
    ensures PfaFree(m, n, asCoded).Some? <==> TableReached(m, n)
    ensures PfaFree(m, n, asCoded).Some? ==>
      var m' := PfaFree(m, n, asCoded).value;
      && TablesOK(m') && GivenOK(m') && m'.free == m.free && (SharedOK(m) ==> SharedOK(m'))
      && (FramesOK(m', ws) <==> FreesOwnFrame(m, n, asCoded))
  {
    var p := PageOf(m, n);
    if TableReached(m, n) && p.present {
      assert Holder(m, n, p.frame);
      FreeBits(m, n, asCoded);
      var m' := PfaFree(m, n, asCoded).value;
      FreedTables(m, n, asCoded);
      hide TablesOK, GivenOK, PfaFree, TableReached;
      forall q, g
        ensures Holder(m', q, g) <==> Holder(m, q, g) && q != n
      {
        PfaFreePages(m, n, asCoded, q, g);
      }
      if FreedBit(p.frame, asCoded) == p.frame {
        FrameReleased(m, m', ws, n, p.frame);
      } else {
        FrameLost(m, m', ws, n, p.frame);
      }
    }
  }

  // Whatever frame the page holds, a free as coded marks frame 0 unused and no other, and takes away that page only.
  lemma FreeAsCoded(m: Mem, n: nat, ws: seq<Word>)
    requires FramesOK(m, ws) && TablesOK(m) && Present(m, n) && PfaFree(m, n, true).Some?
    ensures var m' := PfaFree(m, n, true).value;
      && (forall g {:trigger Used(m'.frames, g)} :: 0 <= g < 4096 ==>
            (Used(m'.frames, g) <==> Used(m.frames, g) && g != 0))
      && (forall q: nat {:trigger Present(m', q)} :: Present(m', q) <==> Present(m, q) && q != n)
      && HasTable(m', n) && PageOf(m', n) == PageOf(m, n).(present := false)
  {
    assert Holder(m, n, PageOf(m, n).frame);
    FreeBits(m, n, true);
    var m' := PfaFree(m, n, true).value;
    hide TablesOK, PfaFree, TableReached, Used;
    forall q: nat
      ensures Present(m', q) <==> Present(m, q) && q != n
    {
      var g := if HasTable(m, q) then PageOf(m, q).frame else 0;
      var h := if HasTable(m', q) then PageOf(m', q).frame else 0;
      PfaFreePages(m, n, true, q, g);
      PfaFreePages(m, n, true, q, h);
      assert Present(m', q) ==> Holder(m', q, h);
      assert Present(m, q) ==> Holder(m, q, g);
    }
  }
}
