/**
 * The beginning of `kernel_load_module` in `kernel.c`: a new address space, a
 * switch to it, and the pages of the module mapped there.
 */
module Loading {
  import opened Types
  import opened PagingSpec
  import M = Mapping
  import S = AddressSpace
  import P = Paging

  const LOAD_BASE: Addr := 0x8000_0000
  const KERNEL_BASE := KERNEL_INDEX * 0x40_0000

  /**
   * Below the kernel, the pages from 0x80000000 on stand for consecutive frames, writable
   * and not open to processes, and nothing else is mapped.
   */
  ghost predicate Loaded(m: Memory, d: Frame, start: int, count: int)
    requires MemOk(m)
  {
    forall a: Addr | Slot(a) < 1021 ::
      Reach(m, d, a) == if 0x8_0000 <= Page(a) < 0x8_0000 + count
                        then Some(Access(start + (a - 0x8000_0000), Rights(true, true), Rights(true, false)))
                        else None
  }

  /** The new space d as it is being filled, next to the space e that was left, which was at m0. */
  ghost predicate Filling(m0: Memory, m: Memory, free: set<Frame>, d: Frame, e: Frame)
    requires MemOk(m0) && MemOk(m)
  {
    && Space(m, d) && Space(m, e) && S.Apart(m, d, e) && S.OwnBelow(m, d, e)
    && (forall f <- free :: Outside(m, d, f) && Outside(m, e, f))
    && (forall a: Addr :: Reach(m, e, a) == Reach(m0, e, a))
    && (forall a: Addr | KERNEL_INDEX <= Slot(a) < SELF :: Reach(m, d, a) == Reach(m0, e, a))
  }

  /** The tables that the first pages take, starting with a slot of their own. */
  function TablesFor(pages: nat): nat {
    (pages + 1023) / 1024
  }

  /** Below the kernel the new space has exactly the tables of the first pages of the module, all of them open. */
  ghost predicate Tabled(m: Memory, d: Frame, pages: nat)
    requires MemOk(m)
  {
    forall j | 0 <= j < KERNEL_INDEX ::
      && (m[d][j].present <==> Slot(LOAD_BASE) <= j < Slot(LOAD_BASE) + TablesFor(pages))
      && (m[d][j].present ==> RightsOf(m[d][j]) == Rights(true, true))
  }

  lemma NoTables()
    ensures TablesFor(0) == 0
  {
  }

  lemma NoTableYet(m0: Memory, e: Frame, d: Frame)
    requires MemOk(m0)
    ensures Tabled(S.InitTopTable(m0, e, d), d, 0)
  {
  }

  /** The next page needs a new table exactly when it begins one. */
  lemma NextTable(m: Memory, d: Frame, n: nat, va: Addr)
    requires MemOk(m) && Tabled(m, d, n)
    requires va == LOAD_BASE + n * 0x1000 && Slot(va) < KERNEL_INDEX
    ensures TablesFor(n + 1) == if Pde(m, d, va).present then TablesFor(n) else TablesFor(n) + 1
    ensures M.TableRights(m, d, va) == Rights(true, true)
  {
    assert Slot(va) == Slot(LOAD_BASE) + n / 1024;
    assert TablesFor(n + 1) == n / 1024 + 1;
  }

  lemma TablesGrow(m: Memory, d: Frame, n: nat, va: Addr, table: Frame, frame: Frame, flags: bv32)
    requires MemOk(m) && Space(m, d) && Tabled(m, d, n)
    requires va == LOAD_BASE + n * 0x1000 && Slot(va) < KERNEL_INDEX
    requires !Pde(m, d, va).present ==> Outside(m, d, table)
    ensures Tabled(M.MapPage(m, d, va, table, frame, flags), d, n + 1)
  {
    NextTable(m, d, n, va);
    assert Slot(va) == Slot(LOAD_BASE) + n / 1024;
    assert TablesFor(n + 1) == n / 1024 + 1;
  }

  lemma FirstSlotEmpty(m: Memory, d: Frame, pages: nat)
    requires MemOk(m) && Tabled(m, d, pages)
    ensures !m[d][0].present
  {
  }

  lemma MoreTables(n: nat, pages: nat)
    requires n <= pages
    ensures TablesFor(n) <= TablesFor(pages)
  {
  }

  lemma FillingStarts(m0: Memory, free: set<Frame>, e: Frame, d: Frame)
    requires MemOk(m0) && Space(m0, e) && Outside(m0, e, d)
    requires forall f <- free :: f != d && Outside(m0, e, f)
    ensures Filling(m0, S.InitTopTable(m0, e, d), free, d, e)
    ensures Loaded(S.InitTopTable(m0, e, d), d, 0, 0)
  {
    S.NewSpace(m0, e, d);
  }

  lemma FillingGoesOn(m0: Memory, m: Memory, free: set<Frame>, free': set<Frame>, d: Frame, e: Frame,
                      start: int, count: nat, va: Addr, table: Frame, frame: Frame, flags: bv32)
    requires MemOk(m0) && MemOk(m) && Filling(m0, m, free, d, e) && Loaded(m, d, start, count)
    requires Page(va) == Page(LOAD_BASE) + count && Slot(va) < KERNEL_INDEX && va % 0x1000 == 0
    requires M.TableRights(m, d, va) == Rights(true, true) && M.Asked(flags) == Rights(true, false)
    requires frame * 0x1000 == start + count * 0x1000
    requires if Pde(m, d, va).present then free' == free else table in free && free' == free - {table}
    requires var m' := M.MapPage(m, d, va, table, frame, flags); forall f <- free' :: Outside(m', d, f)
    ensures var m' := M.MapPage(m, d, va, table, frame, flags);
            Filling(m0, m', free', d, e) && Loaded(m', d, start, count + 1)
  {
    S.MappingBelowIsPrivate(m, d, e, va, table, frame, flags);
    M.MapPageIsUpdate(m, d, va, table, frame, flags);
  }

  lemma PlaceOf(n: nat)
    requires LOAD_BASE + (n + 1) * 0x1000 <= KERNEL_BASE
    ensures var va: Addr := LOAD_BASE + n * 0x1000;
            && Page(va) == Page(LOAD_BASE) + n && Slot(va) < KERNEL_INDEX && Page(va) != Page(DIRECTORY)
            && va % 0x1000 == 0
  {
  }

  /** The pages that a module from start to end touches. */
  function PagesOf(start: Addr, end: Addr): nat {
    var first := start - start % 0x1000;
    if end <= first then 0 else (end - first + 0xFFF) / 0x1000
  }

  lemma PassOf(start: Addr, end: Addr, n: nat)
    requires start - start % 0x1000 + n * 0x1000 < end
    ensures n < PagesOf(start, end) && (start - start % 0x1000 + n * 0x1000) % 0x1000 == 0
  {
  }

  lemma PassesEnd(start: Addr, end: Addr, n: nat)
    requires end <= start - start % 0x1000 + n * 0x1000 && n <= PagesOf(start, end)
    ensures n == PagesOf(start, end)
  {
  }

  /** The pages that are mapped are those that begin before the end of the module. */
  lemma ExactlyTheModule(m: Memory, d: Frame, start: Addr, end: Addr)
    requires MemOk(m) && Loaded(m, d, start - start % 0x1000, PagesOf(start, end))
    ensures forall a: Addr | Slot(a) < 1021 ::
              Mapped(m, d, a) <==> a >= 0x8000_0000 && start - start % 0x1000 + (a - 0x8000_0000) - a % 0x1000 < end
  {
    forall a: Addr | Slot(a) < 1021
      ensures Mapped(m, d, a) <==> a >= 0x8000_0000 && start - start % 0x1000 + (a - 0x8000_0000) - a % 0x1000 < end
    {
      assert Reach(m, d, a).Some? <==> Mapped(m, d, a);
      InModule(start, end, a);
    }
  }

  lemma InModule(start: Addr, end: Addr, a: Addr)
    ensures 0x8_0000 <= Page(a) < 0x8_0000 + PagesOf(start, end) <==>
              a >= 0x8000_0000 && start - start % 0x1000 + (a - 0x8000_0000) - a % 0x1000 < end
  {
    var first := start - start % 0x1000;
    assert a - a % 0x1000 == Page(a) * 0x1000;
    var k := Page(a) - 0x8_0000;
    assert first + k * 0x1000 < end <==> k * 0x1000 < end - first;
  }

  /**
   * Up to the mapping of the module. The kernel panics if and only if there are too
   * few free frames for the directory and the tables of the module. Otherwise it runs
   * in a new space in which the module is mapped and the kernel is mapped as it was,
   * and in the space that it left every address means what it did. Slot 0 of the new
   * space is empty, so that a second module can be loaded only after something has
   * been mapped below 4 MiB.
   */
  method LoadModule(mm: P.Machine, start: Addr, end: Addr) returns (status: Status)
    requires mm.Valid() && mm.memory[mm.directory][0].present
    requires LOAD_BASE + PagesOf(start, end) * 0x1000 <= KERNEL_BASE && end <= 0xFFFF_F000
    modifies mm
    ensures status == if |old(mm.free)| < 1 + TablesFor(PagesOf(start, end)) then ENoMem else ENone
    ensures status == ENone ==>
              && mm.Valid()
              && Filling(old(mm.memory), mm.memory, mm.free, mm.directory, old(mm.directory))
              && Loaded(mm.memory, mm.directory, start - start % 0x1000, PagesOf(start, end))
              && Tabled(mm.memory, mm.directory, PagesOf(start, end))
              && !mm.memory[mm.directory][0].present
    ensures status == ENone ==>
              forall a: Addr | Slot(a) < 1021 ::
                Mapped(mm.memory, mm.directory, a) <==>
                  a >= 0x8000_0000 && start - start % 0x1000 + (a - 0x8000_0000) - a % 0x1000 < end
  {
    hide Filling, Loaded, PagesOf, TablesFor, Mapped, Slot;
    ghost var m0, e := mm.memory, mm.directory;
    status := EnterNewSpace(mm);
    if status == ENone {
      status := MapModule(mm, m0, e, start, end);
      if status == ENone {
        ExactlyTheModule(mm.memory, mm.directory, start, end);
      }
    }
  }

  method EnterNewSpace(mm: P.Machine) returns (status: Status)
    requires mm.Valid() && mm.memory[mm.directory][0].present
    modifies mm
    ensures status == if old(mm.free) == {} then ENoMem else ENone
    ensures status == ENone ==>
              && mm.Valid() && Filling(old(mm.memory), mm.memory, mm.free, mm.directory, old(mm.directory))
              && Loaded(mm.memory, mm.directory, 0, 0)
              && Tabled(mm.memory, mm.directory, 0) && |mm.free| == |old(mm.free)| - 1
  {
    hide Filling, Tabled, Loaded;
    ghost var m0, e := mm.memory, mm.directory;
    var space := mm.CreateAddressSpace();
    if space == P.ENOMEM {
      return ENoMem;
    }
    FillingStarts(m0, mm.free, e, space / 0x1000);
    NoTableYet(m0, e, space / 0x1000);
    mm.LoadAddressSpace(space);
    status := ENone;
  }

  /** The loop that maps the module, page by page. */
  method MapModule(mm: P.Machine, ghost m0: Memory, ghost e: Frame, start: Addr, end: Addr) returns (status: Status)
    requires mm.Valid() && MemOk(m0) && Filling(m0, mm.memory, mm.free, mm.directory, e)
    requires Tabled(mm.memory, mm.directory, 0) && Loaded(mm.memory, mm.directory, 0, 0)
    requires LOAD_BASE + PagesOf(start, end) * 0x1000 <= KERNEL_BASE && end <= 0xFFFF_F000
    modifies mm
    ensures status == if |old(mm.free)| < TablesFor(PagesOf(start, end)) then ENoMem else ENone
    ensures status == ENone ==>
              && mm.Valid() && Filling(m0, mm.memory, mm.free, mm.directory, e)
              && Loaded(mm.memory, mm.directory, start - start % 0x1000, PagesOf(start, end))
              && Tabled(mm.memory, mm.directory, PagesOf(start, end)) && !mm.memory[mm.directory][0].present
  {
    hide Filling, Loaded, Tabled, TablesFor, Space, Outside, PagesOf, MemOk, M.MapPage, Page, Slot;
    var p: int := start - start % 0x1000;
    var offset := 0;
    ghost var n := 0;
    ghost var first := p;
    NothingLoaded(mm.memory, mm.directory, first);
    assert TablesFor(0) == 0 by { NoTables(); }
    while p < end
      invariant 0 <= n <= PagesOf(start, end) && p == first + n * 0x1000 && offset == n * 0x1000
      invariant mm.Valid()
      invariant Filling(m0, mm.memory, mm.free, mm.directory, e)
      invariant Loaded(mm.memory, mm.directory, first, n)
      invariant Tabled(mm.memory, mm.directory, n) && |mm.free| == |old(mm.free)| - TablesFor(n)
      decreases PagesOf(start, end) - n
    {
      ghost var m, free, va: Addr := mm.memory, mm.free, LOAD_BASE + offset;
      PassOf(start, end, n);
      PlaceOf(n);
      MoreTables(n + 1, PagesOf(start, end));
      NextTable(m, mm.directory, n, va);
      var result, table := mm.MapPage(LOAD_BASE + offset, p, PAGE_RW);
      if result == ENoMem {
        return ENoMem;
      }
      TablesGrow(m, mm.directory, n, va, table, p / 0x1000, PAGE_RW);
      FillingGoesOn(m0, m, free, mm.free, mm.directory, e, first, n, va, table, p / 0x1000, PAGE_RW);
      offset := offset + 0x1000;
      p := p + 0x1000;
      n := n + 1;
    }
    PassesEnd(start, end, n);
    FirstSlotEmpty(mm.memory, mm.directory, n);
    status := ENone;
  }

  lemma NothingLoaded(m: Memory, d: Frame, start: int)
    requires MemOk(m) && Loaded(m, d, 0, 0)
    ensures Loaded(m, d, start, 0)
  {
  }
}
