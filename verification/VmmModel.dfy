// Early memory management as functions on its whole state: the bump allocator, the frame bitmap and the
// two-level page table.

module VmmModel {
  import opened Bits
  import opened Bytes
  import opened Frames

  const PAGE_SIZE: nat := 4096
  const NFRAMES: nat := 4096            // 16 MB of memory
  const FRAME_WORDS: nat := 128         // NFRAMES / 32
  const ENTRIES_PER_TABLE: nat := 1024
  const DIR_SIZE: nat := 8196           // tables, physical addresses, and the address of those
  const PAGES: nat := 0x10_0000         // of the whole address space
  const WRAP: nat := 0x1_0000_0000

  datatype Page = Page(present: bool, rw: bool, user: bool, frame: nat)

  type Table = ps: seq<Page> | |ps| == ENTRIES_PER_TABLE
    witness seq(ENTRIES_PER_TABLE, _ => Page(false, false, false, 0))

  function EmptyTable(): Table {
    seq(ENTRIES_PER_TABLE, _ => Page(false, false, false, 0))
  }

  // Memory handed out by kmalloc.
  datatype Region = Region(addr: nat, len: nat)

  // tables holds the directory's pointers (0 is NULL), phys the entries the processor reads, tableAt the page
  // tables by physical address, given every region handed out so far; paging tells whether addresses are translated.
  // The bits of the first own frames lie before the page directory; frame own + s shares its bit with binary digit
  // s % 32 of tables[s / 32].
  datatype RawMem = Mem(free: U32, frames: seq<Word>, tables: seq<U32>, phys: seq<U32>, tableAt: map<U32, Table>,
                        given: seq<Region>, paging: bool, own: nat)

  predicate MemOK(m: RawMem) {
    && m.own <= NFRAMES && |m.frames| == FRAME_WORDS && |m.tables| == |m.phys| == ENTRIES_PER_TABLE
    && forall t :: 0 <= t < ENTRIES_PER_TABLE && m.tables[t] != 0 ==> m.tables[t] in m.tableAt
  }

  type Mem = m: RawMem | MemOK(m)
    witness Mem(0, seq(FRAME_WORDS, _ => Zero()), seq(ENTRIES_PER_TABLE, _ => 0), seq(ENTRIES_PER_TABLE, _ => 0),
                map[], [], false, NFRAMES)

  // ---------- kmalloc ----------

  // Up to the next page boundary, in 32 bits.
  function AlignUp(x: U32): U32 {
    if x % PAGE_SIZE == 0 then x else (x - x % PAGE_SIZE + PAGE_SIZE) % WRAP
  }

  function Base(m: Mem, align: bool): U32 {
    if align then AlignUp(m.free) else m.free
  }

  function Kmalloc(m: Mem, size: U32, align: bool): (r: Mem)
  {
    m.(free := (Base(m, align) + size) % WRAP, given := m.given + [Region(Base(m, align), size)])
  }

  // ---------- the processor's walk ----------

  datatype Option<T> = None | Some(value: T)

  // Bits 31-22 of the address choose the directory entry, bits 21-12 the entry of the table it names; an entry
  // without its lowest bit leads nowhere.
  function Walk(phys: seq<U32>, tableAt: map<U32, Table>, addr: U32): Option<Page>
    requires |phys| == ENTRIES_PER_TABLE
  {
    var entry := phys[addr / 0x40_0000];
    var table := entry / PAGE_SIZE * PAGE_SIZE;
    if entry % 2 == 0 || table !in tableAt then None else Some(tableAt[table][addr / PAGE_SIZE % ENTRIES_PER_TABLE])
  }

  // Reading or writing at address a does not fault: addresses are not translated, or the walk ends at a page that is
  // present.
  predicate Mapped(m: Mem, a: U32) {
    m.paging ==> Walk(m.phys, m.tableAt, a).Some? && Walk(m.phys, m.tableAt, a).value.present
  }

  // It goes to physical address a.  A table that the code reached anywhere else would not be the one the processor
  // walks.
  predicate Reached(m: Mem, a: U32) {
    Mapped(m, a) && (m.paging ==> Walk(m.phys, m.tableAt, a).value.frame == a / PAGE_SIZE)
  }

  // ---------- the page table ----------

  predicate HasTable(m: Mem, n: nat) {
    n < PAGES && m.tables[n / ENTRIES_PER_TABLE] != 0
  }

  function PageOf(m: Mem, n: nat): Page
    requires HasTable(m, n)
  {
    m.tableAt[m.tables[n / ENTRIES_PER_TABLE]][n % ENTRIES_PER_TABLE]
  }

  function PutPage(m: Mem, n: nat, p: Page): (r: Mem)
    requires HasTable(m, n)
  {
    var a := m.tables[n / ENTRIES_PER_TABLE];
    m.(tableAt := m.tableAt[a := m.tableAt[a][n % ENTRIES_PER_TABLE := p]])
  }

  predicate Present(m: Mem, n: nat) {
    HasTable(m, n) && PageOf(m, n).present
  }

  // x | 7.
  function Or7(x: U32): (r: U32)
    ensures x % 8 == 0 ==> r == x + 7
  {
    x - x % 8 + 7
  }

  // A missing table is made for page number n.  Its address shows in the frame bitmap, where that reaches into the
  // directory.
  function WithTable(m: Mem, n: nat): (r: Mem)
    requires n < PAGES
  {
    if HasTable(m, n) then m
    else
      var a := Base(m, true);
      var m1 := Kmalloc(m, PAGE_SIZE, true);
      m1.(tables := m1.tables[n / ENTRIES_PER_TABLE := a], phys := m1.phys[n / ENTRIES_PER_TABLE := Or7(a)],
          tableAt := m1.tableAt[a := EmptyTable()],
          frames := Overlaid(m.frames, m.own + 32 * (n / ENTRIES_PER_TABLE), a, 32))
  }

  // get_page with make set.  None is the page fault of clearing a new table where nothing is mapped, on which the
  // handler aborts; a page in another frame than its own is not part of the model either.
  function GetPage(m: Mem, n: nat): Option<Mem>
    requires n < PAGES
  {
    if HasTable(m, n) then Some(m) else if !Reached(m, Base(m, true)) then None else Some(WithTable(m, n))
  }

  // The entry of page n can be read and written.
  predicate TableReached(m: Mem, n: nat)
    requires HasTable(m, n)
  {
    Reached(m, m.tables[n / ENTRIES_PER_TABLE])
  }

  // ---------- the page frame allocator ----------

  // The least unused frame, or -1 when no frame before the directory is unused.
  function NextFrame(m: Mem): (f: int)
    ensures -1 <= f < m.own
    ensures f == -1 ==> forall g :: 0 <= g < m.own ==> Used(m.frames, g)
    ensures f != -1 ==> !Used(m.frames, f) && forall g :: 0 <= g < f ==> Used(m.frames, g)
  {
    var f := FirstUnused(m.frames, 0);
    if f < m.own then f else -1
  }

  // None is abort(), called here or by the page fault handler, or a frame whose bit is a digit of a table's address:
  // setting it would send the directory astray, and what follows is not part of the model.
  function PfaAlloc(m: Mem, n: nat, isKernel: bool, isWriteable: bool): Option<Mem>
    requires HasTable(m, n)
  {
    var f := NextFrame(m);
    if !TableReached(m, n) then None
    else if PageOf(m, n).present then Some(m)
    else if f == -1 then None
    else Some(PutPage(m.(frames := Use(m.frames, f)), n, Page(true, isWriteable, !isKernel, f)))
  }

  // The bit pfa_free clears for a frame.  As coded the frame number is passed where an address is expected,
  // so it is that of frame number / 4096; meant is that of the frame.
  function FreedBit(frame: nat, asCoded: bool): nat {
    if asCoded then frame / PAGE_SIZE else frame
  }

  // A bit outside the bitmap is outside what C defines; one that the directory shares is not part of the model.
  function PfaFree(m: Mem, n: nat, asCoded: bool): Option<Mem>
    requires HasTable(m, n)
  {
    var p := PageOf(m, n);
    var f := FreedBit(p.frame, asCoded);
    if !TableReached(m, n) then None
    else if !p.present then Some(m)
    else if f >= m.own then None
    else Some(PutPage(m.(frames := Unuse(m.frames, f)), n, p.(present := false)))
  }

  // get_page and pfa_alloc for one page.
  function AllocAt(m: Mem, n: nat, isKernel: bool, isWriteable: bool): Option<Mem>
    requires n < PAGES
  {
    match GetPage(m, n)
    case None => None
    case Some(m1) => if HasTable(m1, n) then PfaAlloc(m1, n, isKernel, isWriteable) else None
  }

  // The same for the pages first, first + 1, ... (count of them).
  function MapPages(m: Mem, first: nat, count: nat): Option<Mem>
    requires first + count <= PAGES
    decreases count
  {
    if count == 0 then Some(m)
    else
      match AllocAt(m, first, false, false)
      case None => None
      case Some(m1) => MapPages(m1, first + 1, count - 1)
  }

  // How many pages n bytes from a page boundary on touch.
  function PagesFor(n: nat): nat {
    (n + PAGE_SIZE - 1) / PAGE_SIZE
  }

  // The region and the page tables it may need stay below the end of the address space.
  predicate RoomFor(m: Mem, size: U32) {
    m.free + size <= 0xF000_0000
  }

  function Malloc(m: Mem, size: U32): Option<Mem>
    requires RoomFor(m, size)
  {
    MapPages(Kmalloc(m, size, true), Base(m, true) / PAGE_SIZE, PagesFor(size))
  }
}
