/**
 * Physical memory as frames of 1024 entries and the address translation of
 * 32-bit paging (Intel SDM Volume 3A, section 4.3, 4-KByte pages): what an
 * address means under a page directory, where the recursive entry of that
 * directory puts the page tables, and what changes of single entries do to the
 * meaning of every address.
 */
module PagingSpec {
  import opened Types

  type Addr = a: int | 0 <= a < 0x1_0000_0000
  type Frame = f: int | 0 <= f < 0x10_0000

  /** A page table entry; `rest` stands for the nine bits that the kernel does not name. */
  datatype Pte = Pte(present: bool, rw: bool, usermode: bool, rest: int, frame: Frame)

  const ZERO: Pte := Pte(false, false, false, 0, 0)

  type Memory = map<Frame, seq<Pte>>

  const PAGE_SIZE := 0x1000
  const SELF := 1023
  const TABLES := 0xFFC0_0000
  const DIRECTORY := 0xFFFF_F000

  /** The directory slot of the kernel image, which the linker script puts at 0xFF400000. */
  const KERNEL_INDEX := 1021

  const PAGE_RW: bv32 := 0x1
  const PAGE_EXECUTABLE: bv32 := 0x2
  const PAGE_USERMODE: bv32 := 0x4
  const PAGE_PRESENT: bv32 := 0x1_0000
  const PAGE_ANON: bv32 := 0x2_0000

  // ---------- Translation ----------

  ghost predicate MemOk(m: Memory) {
    forall f: Frame :: f in m && |m[f]| == 1024
  }

  function Slot(va: Addr): (j: int)
    ensures 0 <= j < 1024
  {
    va / 0x40_0000
  }

  function Index(va: Addr): (i: int)
    ensures 0 <= i < 1024
  {
    va / 0x1000 % 0x400
  }

  function Page(va: Addr): (p: int)
    ensures 0 <= p < 0x10_0000
  {
    va / 0x1000
  }

  function Pde(m: Memory, d: Frame, va: Addr): Pte
    requires MemOk(m)
  {
    m[d][Slot(va)]
  }

  function PteOf(m: Memory, d: Frame, va: Addr): Pte
    requires MemOk(m)
  {
    m[Pde(m, d, va).frame][Index(va)]
  }

  predicate Mapped(m: Memory, d: Frame, va: Addr)
    requires MemOk(m)
  {
    Pde(m, d, va).present && PteOf(m, d, va).present
  }

  /** The physical address that a linear address stands for. */
  function Translate(m: Memory, d: Frame, va: Addr): Option<int>
    requires MemOk(m)
  {
    if Mapped(m, d, va) then Some(PteOf(m, d, va).frame * 0x1000 + va % 0x1000) else None
  }

  /** What an entry allows. */
  datatype Rights = Rights(rw: bool, user: bool)

  /** Where an address leads, and what its table and its page allow. */
  datatype Access = Access(physical: int, table: Rights, page: Rights)

  function RightsOf(e: Pte): Rights {
    Rights(e.rw, e.usermode)
  }

  function Reach(m: Memory, d: Frame, va: Addr): Option<Access>
    requires MemOk(m)
  {
    if Mapped(m, d, va)
    then Some(Access(PteOf(m, d, va).frame * 0x1000 + va % 0x1000,
                     RightsOf(Pde(m, d, va)), RightsOf(PteOf(m, d, va))))
    else None
  }

  /** A process can read and write there. */
  predicate UserWritable(m: Memory, d: Frame, va: Addr)
    requires MemOk(m)
  {
    var reach := Reach(m, d, va);
    && reach.Some? && reach.value.table.rw && reach.value.table.user
    && reach.value.page.rw && reach.value.page.user
  }

  /** The kernel writes with write protection on, so both levels have to allow it. */
  predicate Writable(m: Memory, d: Frame, va: Addr)
    requires MemOk(m)
  {
    Mapped(m, d, va) && Pde(m, d, va).rw && PteOf(m, d, va).rw
  }

  function Put(m: Memory, f: Frame, i: int, e: Pte): (m': Memory)
    requires MemOk(m) && 0 <= i < 1024
    ensures MemOk(m')
  {
    m[f := m[f][i := e]]
  }

  // ---------- The recursive window ----------

  predicate SelfMapped(m: Memory, d: Frame)
    requires MemOk(m)
  {
    m[d][SELF].present && m[d][SELF].rw && m[d][SELF].frame == d
  }

  /** The address of `page_tables[p]`. */
  function TableAddr(p: int): Addr
    requires 0 <= p < 0x10_0000
  {
    TABLES + 4 * p
  }

  /** The address of `page_directory[j]`. */
  function DirectoryAddr(j: int): Addr
    requires 0 <= j < 1024
  {
    DIRECTORY + 4 * j
  }

  lemma TablePlace(va: Addr)
    ensures var t := TableAddr(Page(va)); Slot(t) == SELF && Index(t) == Slot(va)
    ensures var t := TableAddr(Page(va)); t % 4 == 0 && t % 0x1000 == 4 * Index(va) && t % 0x1000 / 4 == Index(va)
  {
    var t := TableAddr(Page(va));
    assert t == TABLES + 0x1000 * Slot(va) + 4 * Index(va);
  }

  lemma DirectoryPlace(j: int)
    requires 0 <= j < 1024
    ensures var t := DirectoryAddr(j); Slot(t) == SELF && Index(t) == SELF
    ensures var t := DirectoryAddr(j); t % 4 == 0 && t % 0x1000 == 4 * j && t % 0x1000 / 4 == j
  {
  }

  /** `page_tables[va >> 12]` is the entry for va in the table of its directory slot. */
  lemma TableWindow(m: Memory, d: Frame, va: Addr)
    requires MemOk(m) && SelfMapped(m, d) && Pde(m, d, va).present
    ensures Translate(m, d, TableAddr(Page(va))) == Some(Pde(m, d, va).frame * 0x1000 + 4 * Index(va))
    ensures Writable(m, d, TableAddr(Page(va))) <==> Pde(m, d, va).rw
  {
    hide Slot, Index;
    TablePlace(va);
  }

  /** `page_directory[j]` is entry j of the directory itself. */
  lemma DirectoryWindow(m: Memory, d: Frame, j: int)
    requires MemOk(m) && SelfMapped(m, d) && 0 <= j < 1024
    ensures Translate(m, d, DirectoryAddr(j)) == Some(d * 0x1000 + 4 * j) && Writable(m, d, DirectoryAddr(j))
  {
    hide Slot, Index;
    DirectoryPlace(j);
  }

  // ---------- Address spaces ----------

  /** A directory that maps itself and has writable tables of its own, all different. */
  ghost predicate Space(m: Memory, d: Frame)
    requires MemOk(m)
  {
    && SelfMapped(m, d)
    && (forall j | 0 <= j < SELF && m[d][j].present :: m[d][j].rw && m[d][j].frame != d)
    && (forall i, j | 0 <= i < j < SELF && m[d][i].present && m[d][j].present :: m[d][i].frame != m[d][j].frame)
  }

  /** A frame is neither the directory nor one of its tables. */
  ghost predicate Outside(m: Memory, d: Frame, f: Frame)
    requires MemOk(m)
  {
    f != d && forall j | 0 <= j < SELF && m[d][j].present :: m[d][j].frame != f
  }

  // ---------- Flags ----------

  function FlagsOf(e: Pte): bv32 {
    (if e.present then PAGE_PRESENT | PAGE_EXECUTABLE else 0)
    | (if e.rw then PAGE_RW else 0) | (if e.usermode then PAGE_USERMODE else 0)
  }

  function WithFlags(e: Pte, flags: bv32): Pte {
    e.(present := flags & PAGE_PRESENT != 0, rw := flags & PAGE_RW != 0, usermode := flags & PAGE_USERMODE != 0)
  }

  /** The bits of the flags. */
  lemma FlagBits(e: Pte, flags: bv32)
    ensures FlagsOf(e) & 0x1 != 0 <==> e.rw
    ensures FlagsOf(e) & 0x4 != 0 <==> e.usermode
    ensures FlagsOf(e) & 0x1_0000 != 0 <==> e.present
    ensures FlagsOf(e) & 0x2 != 0 <==> e.present
    ensures FlagsOf(e) & 0xFFFE_FFF8 == 0
    ensures WithFlags(e, flags).rw <==> flags & 0x1 != 0
    ensures WithFlags(e, flags).usermode <==> flags & 0x4 != 0
    ensures WithFlags(e, flags).present <==> flags & 0x1_0000 != 0
    ensures WithFlags(e, flags).frame == e.frame && WithFlags(e, flags).rest == e.rest
  {
  }

  /** What reading the flags of an entry gives back of the flags that were written. */
  lemma FlagsRoundTrip(e: Pte, flags: bv32)
    ensures var read := FlagsOf(WithFlags(e, flags));
            && read & (PAGE_PRESENT | PAGE_RW | PAGE_USERMODE) == flags & (PAGE_PRESENT | PAGE_RW | PAGE_USERMODE)
            && (read & PAGE_EXECUTABLE != 0 <==> flags & PAGE_PRESENT != 0)
            && read & PAGE_ANON == 0
  {
  }
}
