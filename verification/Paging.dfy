/**
 * `paging.c` and the page operations of `mmgr.c` on a machine that translates
 * every access: page table entries are read and written at the addresses of the
 * window, so each access goes through the tables that it may be changing. Every
 * method is proved against the function of Mapping or AddressSpace that says
 * what it does to memory.
 */
module Paging {
  import opened Types
  import opened PagingSpec
  import M = Mapping
  import S = AddressSpace

  /** The return values of `reserve_page` and `unmap_page` that are no page addresses. */
  const ENOMEM := 4
  const EOUTOFBOUNDS := 2
  const NO_ENTRY := 0xFFFF_FFFF

  const PAGE_TABLE_LEVELS := 2

  class Machine {
    var memory: Memory
    /** The frame in CR3. */
    var directory: Frame
    /** The frames that the page allocator can hand out. */
    var free: set<Frame>

    ghost predicate Valid()
      reads this
    {
      && MemOk(memory) && Space(memory, directory)
      && forall f <- free :: Outside(memory, directory, f)
    }

    // ---------- Accesses through the window ----------

    predicate Reachable(va: Addr)
      requires MemOk(memory)
      reads this
    {
      va % 4 == 0 && Mapped(memory, directory, va)
    }

    /** A load of the entry at a linear address. */
    function Load(va: Addr): Pte
      requires MemOk(memory) && Reachable(va)
      reads this
    {
      memory[PteOf(memory, directory, va).frame][va % 0x1000 / 4]
    }

    /** A store of an entry at a linear address; without a writable mapping it would fault. */
    method Store(va: Addr, e: Pte)
      requires MemOk(memory) && va % 4 == 0 && Writable(memory, directory, va)
      modifies this`memory
      ensures MemOk(memory)
      ensures memory == Put(old(memory), PteOf(old(memory), directory, va).frame, va % 0x1000 / 4, e)
    {
      var f := PteOf(memory, directory, va).frame;
      memory := memory[f := memory[f][va % 0x1000 / 4 := e]];
    }

    // ---------- Entries ----------

    /** `get_pte_pointer`; `None` stands for the null pointer. */
    function GetPtePointer(page: Addr, level: int): Option<Addr>
      requires MemOk(memory) && SelfMapped(memory, directory)
      reads this
    {
      DirectoryWindow(memory, directory, Slot(page));
      if level == 0 then Some(DirectoryAddr(Slot(page)))
      else if level == 1 && Load(DirectoryAddr(Slot(page))).present then Some(TableAddr(Page(page)))
      else None
    }

    /** The frame and the index of the entry that `get_pte_pointer` is meant to point at. */
    function Home(page: Addr, level: int): (Frame, int)
      requires MemOk(memory)
      reads this
    {
      if level == 0 then (directory, Slot(page)) else (Pde(memory, directory, page).frame, Index(page))
    }

    predicate HasEntry(page: Addr, level: int)
      requires MemOk(memory)
      reads this
    {
      level == 0 || (level == 1 && Pde(memory, directory, page).present)
    }

    function EntryAt(page: Addr, level: int): Pte
      requires MemOk(memory)
      reads this
    {
      memory[Home(page, level).0][Home(page, level).1]
    }

    /** The recursive window leads to the entry itself, readable and, where the slot allows it, writable. */
    lemma PointerIsHome(page: Addr, level: int)
      requires MemOk(memory) && SelfMapped(memory, directory)
      ensures GetPtePointer(page, level).Some? <==> HasEntry(page, level)
      ensures HasEntry(page, level) ==>
                var p := GetPtePointer(page, level).value;
                && Reachable(p) && PteOf(memory, directory, p).frame == Home(page, level).0
                && p % 0x1000 / 4 == Home(page, level).1
                && (Writable(memory, directory, p) <==> level == 0 || Pde(memory, directory, page).rw)
    {
      hide Slot, Index, Page, TableAddr, DirectoryAddr;
      TablePlace(page);
      DirectoryPlace(Slot(page));
      DirectoryWindow(memory, directory, Slot(page));
      if level == 1 && Pde(memory, directory, page).present {
        TableWindow(memory, directory, page);
        assert GetPtePointer(page, level) == Some(TableAddr(Page(page)));
      } else if level == 0 {
        assert GetPtePointer(page, level) == Some(DirectoryAddr(Slot(page)));
      } else {
        assert GetPtePointer(page, level) == None;
      }
    }

    method GetPteType(page: Addr, level: int) returns (flags: bv32)
      requires MemOk(memory) && SelfMapped(memory, directory)
      ensures flags == if HasEntry(page, level) then FlagsOf(EntryAt(page, level)) else 0
    {
      PointerIsHome(page, level);
      var entry := GetPtePointer(page, level);
      if entry != None {
        flags := FlagsOf(Load(entry.value));
      } else {
        flags := 0;
      }
    }

    method GetPteAddress(page: Addr, level: int) returns (address: int)
      requires MemOk(memory) && SelfMapped(memory, directory)
      ensures address == if HasEntry(page, level) then EntryAt(page, level).frame * 0x1000 + page % 0x1000 else NO_ENTRY
    {
      PointerIsHome(page, level);
      var entry := GetPtePointer(page, level);
      if entry != None {
        address := Load(entry.value).frame * 0x1000 + page % 0x1000;
      } else {
        address := NO_ENTRY;
      }
    }

    method SetPteType(page: Addr, level: int, flags: bv32) returns (status: int)
      requires MemOk(memory) && SelfMapped(memory, directory)
      requires level == 1 && Pde(memory, directory, page).present ==> Pde(memory, directory, page).rw
      modifies this`memory
      ensures MemOk(memory)
      ensures status == if old(HasEntry(page, level)) then 0 else -1
      ensures memory == if old(HasEntry(page, level))
                        then Put(old(memory), old(Home(page, level)).0, old(Home(page, level)).1,
                                 WithFlags(old(EntryAt(page, level)), flags))
                        else old(memory)
    {
      PointerIsHome(page, level);
      var entry := GetPtePointer(page, level);
      if entry != None {
        Store(entry.value, WithFlags(Load(entry.value), flags));
        status := 0;
      } else {
        status := -1;
      }
    }

    method SetPteAddress(page: Addr, level: int, address: Addr) returns (status: int)
      requires MemOk(memory) && SelfMapped(memory, directory)
      requires level == 1 && Pde(memory, directory, page).present ==> Pde(memory, directory, page).rw
      modifies this`memory
      ensures MemOk(memory)
      ensures status == if old(HasEntry(page, level)) then 0 else -1
      ensures memory == if old(HasEntry(page, level))
                        then Put(old(memory), old(Home(page, level)).0, old(Home(page, level)).1,
                                 old(EntryAt(page, level)).(frame := address / 0x1000))
                        else old(memory)
    {
      PointerIsHome(page, level);
      var entry := GetPtePointer(page, level);
      if entry != None {
        Store(entry.value, Load(entry.value).(frame := address / 0x1000));
        status := 0;
      } else {
        status := -1;
      }
    }

    /** The entry is none of those that the window goes through to reach it. */
    predicate Steady(page: Addr, level: int)
      requires MemOk(memory)
      reads this
    {
      HasEntry(page, level) ==>
        Home(page, level) != (directory, SELF) && (level == 1 ==> Home(page, level) != (directory, Slot(page)))
    }

    /** `set_pte`: the address first, then the flags. */
    method SetPte(page: Addr, level: int, flags: bv32, address: Addr) returns (status: int)
      requires MemOk(memory) && SelfMapped(memory, directory) && Steady(page, level)
      requires level == 1 && Pde(memory, directory, page).present ==> Pde(memory, directory, page).rw
      modifies this`memory
      ensures MemOk(memory)
      ensures status == if old(HasEntry(page, level)) then 0 else -1
      ensures memory == if old(HasEntry(page, level))
                        then M.SetEntry(old(memory), old(Home(page, level)).0, old(Home(page, level)).1,
                                        flags, address / 0x1000)
                        else old(memory)
    {
      ghost var home: (Frame, int), m: Memory := Home(page, level), memory;
      status := SetPteAddress(page, level, address);
      if status == 0 {
        assert Home(page, level) == home && HasEntry(page, level);
        status := SetPteType(page, level, flags);
        ghost var e: Pte := m[home.0][home.1];
        assert memory[home.0] == m[home.0][home.1 := WithFlags(e.(frame := address / 0x1000), flags)];
        assert memory == M.SetEntry(m, home.0, home.1, flags, address / 0x1000);
      }
    }

    // ---------- Tables ----------

    /** The entries of frame t with the first n of them cleared. */
    ghost function ClearedUpTo(entries: seq<Pte>, n: int): seq<Pte>
      requires |entries| == 1024 && 0 <= n <= 1024
    {
      seq(1024, i requires 0 <= i < 1024 => if i < n then M.Cleared(entries[i]) else entries[i])
    }

    /** `wipe_page_table`: clears the table of a page through the window, entry by entry. */
    method WipePageTable(page: Addr, level: int)
      requires MemOk(memory) && SelfMapped(memory, directory)
      requires Pde(memory, directory, page).present ==>
                 Pde(memory, directory, page).rw && Pde(memory, directory, page).frame != directory
      modifies this`memory
      ensures MemOk(memory)
      ensures memory == if level == 1 && Pde(old(memory), directory, page).present
                        then M.Wipe(old(memory), Pde(old(memory), directory, page).frame) else old(memory)
    {
      var flags := GetPteType(page, 0);
      if level == 1 && flags & PAGE_PRESENT != 0 {
        ghost var m, t := memory, Pde(memory, directory, page).frame;
        var tableIndex := Page(page) / 0x400 * 0x400;
        assert ClearedUpTo(m[t], 0) == m[t];
        for i := 0 to 1024
          invariant MemOk(memory) && memory == m[t := ClearedUpTo(m[t], i)]
        {
          var entry := TableAddr(tableIndex + i);
          EntryOfTable(page, i);
          Store(entry, Load(entry).(present := false));
          EntryOfTable(page, i);
          Store(entry, Load(entry).(frame := 0));
          assert memory[t] == ClearedUpTo(m[t], i + 1);
        }
        assert ClearedUpTo(m[t], 1024) == M.Wipe(m, t)[t];
      }
    }

    /** Slot i of the table of a page, as the window shows it. */
    lemma EntryOfTable(page: Addr, i: int)
      requires MemOk(memory) && SelfMapped(memory, directory) && 0 <= i < 1024
      requires Pde(memory, directory, page).present && Pde(memory, directory, page).rw
      ensures 0 <= Page(page) / 0x400 * 0x400 + i < 0x10_0000
      ensures var w := TableAddr(Page(page) / 0x400 * 0x400 + i);
              && Reachable(w) && Writable(memory, directory, w)
              && PteOf(memory, directory, w).frame == Pde(memory, directory, page).frame && w % 0x1000 / 4 == i
    {
      hide Slot, Index, Page, TableAddr;
      var va := Neighbour(page, i);
      TablePlace(va);
      TableWindow(memory, directory, va);
    }

    /** The page with index i in the table of another page. */
    lemma Neighbour(page: Addr, i: int) returns (va: Addr)
      requires 0 <= i < 1024
      ensures Slot(va) == Slot(page) && Index(va) == i && Page(va) == Page(page) / 0x400 * 0x400 + i
    {
      va := Slot(page) * 0x40_0000 + i * 0x1000;
    }

    /** `reserve_page`: some free page, or ENOMEM. */
    method ReservePage() returns (address: int)
      modifies this`free
      ensures old(free) == {} ==> address == ENOMEM && free == {}
      ensures old(free) != {} ==>
                exists f: Frame :: f in old(free) && address == f * 0x1000 && free == old(free) - {f}
    {
      if free == {} {
        return ENOMEM;
      }
      var f :| f in free;
      free := free - {f};
      address := (f as int) * 0x1000;
    }

    /** The frame is in no use, so that a page of the window can be mapped to it. */
    ghost predicate CanBeTable(m: Memory, frame: Addr, flags: bv32)
      requires MemOk(m)
      reads this
    {
      Outside(m, directory, frame / 0x1000) && frame / 0x1000 !in free && flags & PAGE_RW != 0
    }

    /** `map_page`. A new table comes from the allocator and is wiped through the window. */
    method MapPage(page: Addr, frame: Addr, flags: bv32) returns (status: Status, ghost table: Frame)
      requires Valid() && Page(page) != Page(DIRECTORY)
      modifies this`memory, this`free
      ensures MemOk(memory)
      ensures Slot(page) < SELF || status != ENone || CanBeTable(old(memory), frame, flags) ==> Valid()
      ensures status == ENone || status == EInvalidArg || status == ENoMem
      ensures status == EInvalidArg <==> frame % PAGE_SIZE != 0
      ensures status == ENoMem <==>
                frame % PAGE_SIZE == 0 && !Pde(old(memory), directory, page).present && old(free) == {}
      ensures status != ENone ==> memory == old(memory) && free == old(free)
      ensures status == ENone ==>
                && memory == M.MapPage(old(memory), directory, page, table, frame / 0x1000, flags)
                && if Pde(old(memory), directory, page).present then free == old(free)
                   else table in old(free) && free == old(free) - {table}
    {
      table := 0;
      if frame % PAGE_SIZE != 0 {
        return EInvalidArg, table;
      }
      ghost var m, spare := memory, free;
      for level := 0 to PAGE_TABLE_LEVELS - 1
        invariant MemOk(memory) && Space(memory, directory)
        invariant level == 0 ==> memory == m && free == spare
        invariant level == 1 ==>
                    && memory == (if Pde(m, directory, page).present then m else M.AddTable(m, directory, page, table))
                    && if Pde(m, directory, page).present then free == spare
                       else table in spare && free == spare - {table}
      {
        var present := GetPteType(page, level);
        PresentBit(EntryAt(page, level));
        if present & PAGE_PRESENT == 0 {
          var newTable := ReservePage();
          if newTable == ENOMEM {
            return ENoMem, table;
          }
          table := newTable / 0x1000;
          M.AddTableIsInvisible(m, directory, page, table);
          var set0 := SetPte(page, level, M.TABLE_FLAGS, newTable);
          WipePageTable(page, level + 1);
        }
      }
      if Slot(page) < SELF {
        M.MapPageIsUpdate(m, directory, page, table, frame / 0x1000, flags);
      } else if CanBeTable(m, frame, flags) {
        M.SlotOfPage(page, DIRECTORY);
        M.MapWindowPageKeeps(m, directory, page, table, frame / 0x1000, flags);
      }
      M.SlotOfPage(page, DIRECTORY);
      var set1 := SetPte(page, PAGE_TABLE_LEVELS - 1, PAGE_PRESENT | flags, frame);
      status := ENone;
    }

    lemma PresentBit(e: Pte)
      ensures FlagsOf(e) & PAGE_PRESENT != 0 <==> e.present
      ensures FlagsOf(e) & PAGE_ANON == 0
    {
    }

    /** `unmap_page`: the address of the frame that was mapped, or EOUTOFBOUNDS. */
    method UnmapPage(page: Addr) returns (address: int)
      requires Valid() && Page(page) != Page(DIRECTORY)
      modifies this`memory
      ensures Valid()
      ensures address == if Mapped(old(memory), directory, page)
                         then Translate(old(memory), directory, page).value else EOUTOFBOUNDS
      ensures memory == if Mapped(old(memory), directory, page) then M.UnmapPage(old(memory), directory, page)
                        else old(memory)
    {
      for level := 0 to PAGE_TABLE_LEVELS
        invariant Valid() && memory == old(memory)
        invariant level >= 1 ==> Pde(memory, directory, page).present
        invariant level == 2 ==> Mapped(memory, directory, page)
      {
        var flags := GetPteType(page, level);
        PresentBit(EntryAt(page, level));
        if flags & PAGE_PRESENT == 0 {
          return EOUTOFBOUNDS;
        }
      }
      if Slot(page) < SELF {
        M.UnmapPageIsRemoval(memory, directory, page);
      } else {
        M.UnmapWindowPage(memory, directory, page);
      }
      M.SlotOfPage(page, DIRECTORY);
      address := GetPteAddress(page, PAGE_TABLE_LEVELS - 1);
      var set1 := SetPte(page, PAGE_TABLE_LEVELS - 1, 0, 0);
    }

    /** `page_type`: the flags of the first absent level, or else of the page. */
    method PageType(page: Addr) returns (flags: bv32)
      requires MemOk(memory) && SelfMapped(memory, directory)
      ensures flags == FlagsOf(if Pde(memory, directory, page).present then PteOf(memory, directory, page)
                               else Pde(memory, directory, page))
      ensures flags & PAGE_PRESENT != 0 <==> Mapped(memory, directory, page)
      ensures flags & PAGE_ANON == 0
    {
      for level := 0 to PAGE_TABLE_LEVELS - 1
        invariant level == 1 ==> Pde(memory, directory, page).present
      {
        flags := GetPteType(page, level);
        PresentBit(EntryAt(page, level));
        if flags & PAGE_PRESENT == 0 {
          return flags;
        }
      }
      flags := GetPteType(page, PAGE_TABLE_LEVELS - 1);
      PresentBit(EntryAt(page, 1));
    }

    /** `physical_address`: the translation of an address, where there is one. */
    method PhysicalAddress(va: Addr) returns (address: int)
      requires MemOk(memory) && SelfMapped(memory, directory)
      ensures Mapped(memory, directory, va) ==> Some(address) == Translate(memory, directory, va)
      ensures !Pde(memory, directory, va).present ==> address == NO_ENTRY
    {
      address := GetPteAddress(va, PAGE_TABLE_LEVELS - 1);
    }

    // ---------- Address spaces ----------

    /** Entry i of the table that shows in slot 0 of the directory, as the window leads to it. */
    lemma FirstTable(i: int)
      requires MemOk(memory) && SelfMapped(memory, directory) && 0 <= i < 1024
      requires memory[directory][0].present && memory[directory][0].rw
      ensures var w := TableAddr(i);
              && Reachable(w) && Writable(memory, directory, w)
              && PteOf(memory, directory, w).frame == memory[directory][0].frame && w % 0x1000 / 4 == i
    {
      EntryOfTable(0, i);
    }

    lemma DirectoryEntry(j: int)
      requires MemOk(memory) && SelfMapped(memory, directory) && 0 <= j < 1024
      ensures var w := DirectoryAddr(j);
              && Reachable(w) && Writable(memory, directory, w)
              && PteOf(memory, directory, w).frame == directory && w % 0x1000 / 4 == j
    {
      hide Slot, Index;
      DirectoryPlace(j);
      DirectoryWindow(memory, directory, j);
    }

    /** Memory with slot 0 of directory d borrowed for frame f, which holds `entries`. */
    static ghost function Borrowed(m: Memory, d: Frame, f: Frame, entries: seq<Pte>): Memory
      requires MemOk(m)
    {
      m[d := m[d][0 := m[d][0].(frame := f)]][f := entries]
    }

    /** `paging_init_top_table`: borrows slot 0 to reach the new frame, and gives it back. */
    method InitTopTable(table: Addr) returns (status: int)
      requires MemOk(memory) && Space(memory, directory) && table % PAGE_SIZE == 0
      requires memory[directory][0].present && Outside(memory, directory, table / 0x1000)
      modifies this`memory
      ensures status == 0 && MemOk(memory)
      ensures memory == S.InitTopTable(old(memory), directory, table / 0x1000)
    {
      ghost var m, f: Frame := memory, table / 0x1000;
      DirectoryEntry(0);
      var buffer := Load(DirectoryAddr(0));
      Store(DirectoryAddr(0), buffer.(frame := table / 0x1000));
      FillTable(m, f);
      CopyKernel(m, f);
      FirstTable(SELF);
      Store(TableAddr(SELF), Load(TableAddr(SELF)).(frame := table / 0x1000));
      FirstTable(SELF);
      Store(TableAddr(SELF), Load(TableAddr(SELF)).(present := true));
      FirstTable(SELF);
      Store(TableAddr(SELF), Load(TableAddr(SELF)).(rw := true));
      assert memory[f] == S.NewDirectory(m[directory], f);
      DirectoryEntry(0);
      Store(DirectoryAddr(0), buffer);
      assert memory[directory] == m[directory];
      status := 0;
    }

    /** The loop that copies the kernel slots. */
    method CopyKernel(ghost m: Memory, ghost f: Frame)
      requires MemOk(m) && MemOk(memory) && f != directory
      requires memory == Borrowed(m, directory, f, KernelUpTo(m[directory], KERNEL_INDEX))
      requires SelfMapped(m, directory) && m[directory][0].present && m[directory][0].rw
      modifies this`memory
      ensures MemOk(memory) && memory == Borrowed(m, directory, f, KernelUpTo(m[directory], SELF))
    {
      for i := KERNEL_INDEX to SELF
        invariant MemOk(memory)
        invariant memory == Borrowed(m, directory, f, KernelUpTo(m[directory], i))
      {
        FirstTable(i);
        DirectoryEntry(i);
        Store(TableAddr(i), Load(DirectoryAddr(i)));
        assert memory[f] == KernelUpTo(m[directory], i + 1);
      }
    }

    /** A directory with the kernel slots below i filled in. */
    ghost function KernelUpTo(current: seq<Pte>, i: int): (r: seq<Pte>)
      requires |current| == 1024 && KERNEL_INDEX <= i <= SELF
      ensures |r| == 1024
    {
      seq(1024, k requires 0 <= k < 1024 => if KERNEL_INDEX <= k < i then current[k] else ZERO)
    }

    ghost function ZeroUpTo(entries: seq<Pte>, i: int): (r: seq<Pte>)
      requires |entries| == 1024 && 0 <= i <= 1024
      ensures |r| == 1024
    {
      seq(1024, k requires 0 <= k < 1024 => if k < i then ZERO else entries[k])
    }

    /** The `memset` of the new frame. */
    method FillTable(ghost m: Memory, ghost f: Frame)
      requires MemOk(m) && MemOk(memory) && memory == Borrowed(m, directory, f, m[f]) && f != directory
      requires SelfMapped(m, directory) && m[directory][0].present && m[directory][0].rw
      modifies this`memory
      ensures MemOk(memory) && memory == Borrowed(m, directory, f, KernelUpTo(m[directory], KERNEL_INDEX))
    {
      assert ZeroUpTo(m[f], 0) == m[f];
      for i := 0 to 1024
        invariant MemOk(memory)
        invariant memory == Borrowed(m, directory, f, ZeroUpTo(m[f], i))
      {
        FirstTable(i);
        Store(TableAddr(i), ZERO);
        assert memory[f] == ZeroUpTo(m[f], i + 1);
      }
      assert ZeroUpTo(m[f], 1024) == KernelUpTo(m[directory], KERNEL_INDEX);
    }

    /** `create_address_space`: the address of a new directory, which can be loaded, or ENOMEM. */
    method CreateAddressSpace() returns (address: int)
      requires Valid() && memory[directory][0].present
      modifies this`memory, this`free
      ensures Valid()
      ensures old(free) == {} ==> address == ENOMEM && memory == old(memory) && free == {}
      ensures old(free) != {} ==>
                exists f: Frame :: f in old(free) && address == f * 0x1000 && free == old(free) - {f}
                                && memory == S.InitTopTable(old(memory), directory, f)
                                && Space(memory, f) && forall g <- free :: Outside(memory, f, g)
    {
      var table := ReservePage();
      if table == ENOMEM {
        return ENOMEM;
      }
      S.NewSpace(memory, directory, table / 0x1000);
      var result := InitTopTable(table);
      assert memory[directory] == old(memory)[directory];
      address := table;
    }

    /**
     * `paging_load_address_space`. The window shows the tables of the new space, and
     * the machine is in order if they are.
     */
    method LoadAddressSpace(table: Addr)
      requires MemOk(memory) && table % PAGE_SIZE == 0
      modifies this`directory
      ensures directory == table / 0x1000
      ensures SelfMapped(memory, directory) ==>
                forall j | 0 <= j < 1024 :: Translate(memory, directory, DirectoryAddr(j)) == Some(table + 4 * j)
      ensures Space(memory, directory) && (forall f <- free :: Outside(memory, directory, f)) ==> Valid()
    {
      directory := table / 0x1000;
      if SelfMapped(memory, directory) {
        forall j | 0 <= j < 1024
          ensures Translate(memory, directory, DirectoryAddr(j)) == Some(table + 4 * j)
        {
          DirectoryWindow(memory, directory, j);
        }
      }
    }

    /** `paging_current_address_space`: the directory, found through the window. */
    method CurrentAddressSpace() returns (table: int)
      requires MemOk(memory) && SelfMapped(memory, directory)
      ensures table == directory * 0x1000
    {
      DirectoryEntry(SELF);
      table := Load(DirectoryAddr(SELF)).frame * 0x1000;
    }
  }
}
