/** What mapping and unmapping a page does to memory, and to what every address means. */
module Mapping {
  import opened Types
  import opened PagingSpec

  const TABLE_FLAGS: bv32 := PAGE_PRESENT | PAGE_USERMODE | PAGE_RW

  /** `set_pte` on entry i of frame f. */
  function SetEntry(m: Memory, f: Frame, i: int, flags: bv32, frame: Frame): (m': Memory)
    requires MemOk(m) && 0 <= i < 1024
    ensures MemOk(m')
  {
    Put(m, f, i, WithFlags(m[f][i].(frame := frame), flags))
  }

  function Cleared(e: Pte): Pte {
    e.(present := false, frame := 0)
  }

  function Wipe(m: Memory, f: Frame): (m': Memory)
    requires MemOk(m)
    ensures MemOk(m')
  {
    m[f := seq(1024, i requires 0 <= i < 1024 => Cleared(m[f][i]))]
  }

  /** The part of `map_page` that gives a directory slot a new, empty table. */
  function AddTable(m: Memory, d: Frame, va: Addr, table: Frame): (m': Memory)
    requires MemOk(m)
    ensures MemOk(m')
  {
    Wipe(SetEntry(m, d, Slot(va), TABLE_FLAGS, table), table)
  }

  function MapEntry(m: Memory, d: Frame, va: Addr, flags: bv32, frame: Frame): (m': Memory)
    requires MemOk(m)
    ensures MemOk(m')
  {
    SetEntry(m, Pde(m, d, va).frame, Index(va), flags, frame)
  }

  /** `map_page` with success; `table` is the frame of a table that it has to add. */
  function MapPage(m: Memory, d: Frame, va: Addr, table: Frame, frame: Frame, flags: bv32): (m': Memory)
    requires MemOk(m)
    ensures MemOk(m')
  {
    MapEntry(if Pde(m, d, va).present then m else AddTable(m, d, va, table), d, va, PAGE_PRESENT | flags, frame)
  }

  /** `unmap_page` of a mapped page. */
  function UnmapPage(m: Memory, d: Frame, va: Addr): (m': Memory)
    requires MemOk(m)
    ensures MemOk(m')
  {
    MapEntry(m, d, va, 0, 0)
  }

  /** What flags ask for. */
  function Asked(flags: bv32): Rights {
    Rights(flags & 0x1 != 0, flags & 0x4 != 0)
  }

  /** What the table of a page allows; where there is none, the new one is writable and open to processes. */
  function TableRights(m: Memory, d: Frame, va: Addr): Rights
    requires MemOk(m)
  {
    if Pde(m, d, va).present then RightsOf(Pde(m, d, va)) else Rights(true, true)
  }

  /** The page of the window at which the table of the slot of va shows. */
  function WindowPage(va: Addr): int {
    TABLES / PAGE_SIZE + Slot(va)
  }

  /** Two memories agree on where every address leads and what is allowed there, except in two pages. */
  ghost predicate SameElsewhere(m: Memory, m': Memory, d: Frame, va: Addr)
    requires MemOk(m) && MemOk(m')
  {
    forall a: Addr | Page(a) != Page(va) && Page(a) != WindowPage(va) :: Reach(m', d, a) == Reach(m, d, a)
  }

  lemma SlotOfPage(a: Addr, va: Addr)
    ensures Page(a) == Page(va) <==> Slot(a) == Slot(va) && Index(a) == Index(va)
    ensures Slot(a) == SELF ==> (Page(a) == WindowPage(va) <==> Index(a) == Slot(va))
  {
    assert Slot(a) == Page(a) / 0x400 && Slot(va) == Page(va) / 0x400;
    assert Index(a) == Page(a) % 0x400 && Index(va) == Page(va) % 0x400;
  }

  /** A new table changes no address outside the window, and keeps the tables apart. */
  lemma AddTableIsInvisible(m: Memory, d: Frame, va: Addr, table: Frame)
    requires MemOk(m) && Space(m, d) && Outside(m, d, table)
    requires Slot(va) < SELF && !Pde(m, d, va).present
    ensures var m' := AddTable(m, d, va, table);
            && Space(m', d) && Pde(m', d, va).present && Pde(m', d, va).frame == table
            && RightsOf(Pde(m', d, va)) == Rights(true, true)
            && (forall i | 0 <= i < 1024 :: !m'[table][i].present && m'[table][i].frame == 0)
            && SameElsewhere(m, m', d, va)
  {
    var m' := AddTable(m, d, va, table);
    assert forall j | 0 <= j < 1024 && j != Slot(va) :: m'[d][j] == m[d][j];
    forall a: Addr | Page(a) != Page(va) && Page(a) != WindowPage(va)
      ensures Reach(m', d, a) == Reach(m, d, a)
    {
      SlotOfPage(a, va);
      if Slot(a) != Slot(va) && Pde(m, d, a).present {
        assert Pde(m, d, a).frame != table;
        if Slot(a) == SELF {
          assert Index(a) != Slot(va);
        }
      }
    }
  }

  /** A change of one entry of a present table is a change of one page. */
  lemma MapEntryIsLocal(m: Memory, d: Frame, va: Addr, flags: bv32, frame: Frame)
    requires MemOk(m) && Space(m, d) && Slot(va) < SELF && Pde(m, d, va).present
    ensures var m' := MapEntry(m, d, va, flags, frame);
            && Space(m', d) && m'[d] == m[d]
            && (forall a: Addr | Page(a) != Page(va) :: Reach(m', d, a) == Reach(m, d, a))
            && (forall a: Addr | Page(a) == Page(va) ::
                  Reach(m', d, a) == if flags & PAGE_PRESENT != 0
                                   then Some(Access(frame * 0x1000 + a % 0x1000, RightsOf(Pde(m, d, va)), Asked(flags)))
                                   else None)
  {
    var t := Pde(m, d, va).frame;
    var m' := MapEntry(m, d, va, flags, frame);
    assert t != d && m'[d] == m[d];
    forall a: Addr
      ensures Page(a) != Page(va) ==> Reach(m', d, a) == Reach(m, d, a)
      ensures Page(a) == Page(va) ==> Pde(m', d, a) == Pde(m, d, va) && PteOf(m', d, a) == m'[t][Index(va)]
    {
      SlotOfPage(a, va);
      if Pde(m, d, a).present && Slot(a) != Slot(va) && Slot(a) < SELF {
        assert Pde(m, d, a).frame != t;
      }
    }
  }

  /**
   * Mapping a page updates what addresses mean at exactly that page, whether or not a
   * table had to be added, and keeps the tables apart from each other and from
   * the directory. (In the window the page that shows the new table appears.)
   */
  lemma MapPageIsUpdate(m: Memory, d: Frame, va: Addr, table: Frame, frame: Frame, flags: bv32)
    requires MemOk(m) && Space(m, d) && Slot(va) < SELF
    requires !Pde(m, d, va).present ==> Outside(m, d, table)
    ensures var m' := MapPage(m, d, va, table, frame, flags);
            && Space(m', d) && SameElsewhere(m, m', d, va)
            && (forall a: Addr | Page(a) == Page(va) ::
                  Reach(m', d, a) == Some(Access(frame * 0x1000 + a % 0x1000, TableRights(m, d, va), Asked(flags))))
            && (Pde(m, d, va).present ==>
                  forall a: Addr | Page(a) != Page(va) :: Reach(m', d, a) == Reach(m, d, a))
  {
    PresentStays(flags);
    if !Pde(m, d, va).present {
      AddTableIsInvisible(m, d, va, table);
      MapEntryIsLocal(AddTable(m, d, va, table), d, va, PAGE_PRESENT | flags, frame);
    } else {
      MapEntryIsLocal(m, d, va, PAGE_PRESENT | flags, frame);
    }
  }

  lemma PresentStays(flags: bv32)
    ensures (PAGE_PRESENT | flags) & PAGE_PRESENT != 0 && Asked(PAGE_PRESENT | flags) == Asked(flags)
  {
  }

  /** Unmapping removes the translation of exactly one page. */
  lemma UnmapPageIsRemoval(m: Memory, d: Frame, va: Addr)
    requires MemOk(m) && Space(m, d) && Slot(va) < SELF && Pde(m, d, va).present
    ensures var m' := UnmapPage(m, d, va);
            && Space(m', d)
            && forall a: Addr :: Reach(m', d, a) == if Page(a) == Page(va) then None else Reach(m, d, a)
  {
    MapEntryIsLocal(m, d, va, 0, 0);
  }

  /**
   * A page of the window is a page table. Mapping it installs another table for
   * its directory slot, and no other slot changes.
   */
  lemma MapWindowPage(m: Memory, d: Frame, va: Addr, table: Frame, frame: Frame, flags: bv32)
    requires MemOk(m) && Space(m, d) && Slot(va) == SELF && Index(va) < SELF
    ensures var m' := MapPage(m, d, va, table, frame, flags);
            && m'[d][Index(va)].present && m'[d][Index(va)].frame == frame
            && (forall a: Addr | Slot(a) == Index(va) && frame != d ::
                  var e := m[frame][Index(a)];
                  Reach(m', d, a) == if e.present
                                     then Some(Access(e.frame * 0x1000 + a % 0x1000, Asked(flags), RightsOf(e)))
                                     else None)
            && (forall a: Addr | Slot(a) < SELF && Slot(a) != Index(va) :: Reach(m', d, a) == Reach(m, d, a))
  {
    PresentStays(flags);
  }

  /** A frame that no table uses can be installed there, writable, without mixing tables up. */
  lemma MapWindowPageKeeps(m: Memory, d: Frame, va: Addr, table: Frame, frame: Frame, flags: bv32)
    requires MemOk(m) && Space(m, d) && Slot(va) == SELF && Index(va) < SELF
    requires Outside(m, d, frame) && flags & PAGE_RW != 0
    ensures var m' := MapPage(m, d, va, table, frame, flags);
            && Space(m', d) && m'[d][SELF] == m[d][SELF]
            && (forall f: Frame | f != frame && Outside(m, d, f) :: Outside(m', d, f))
            && (forall a: Addr | Page(a) == Page(va) ::
                  Reach(m', d, a) == Some(Access(frame * 0x1000 + a % 0x1000, RightsOf(m[d][SELF]), Asked(flags))))
            && (forall a: Addr | Slot(a) == SELF && Page(a) != Page(va) :: Reach(m', d, a) == Reach(m, d, a))
  {
    PresentStays(flags);
    WriteStays(flags);
    forall a: Addr
      ensures Slot(a) == SELF ==> (Page(a) == Page(va) <==> Index(a) == Index(va))
      ensures Page(a) == Page(va) ==> Slot(a) == SELF
    {
      SlotOfPage(a, va);
    }
  }

  lemma WriteStays(flags: bv32)
    requires flags & PAGE_RW != 0
    ensures (PAGE_PRESENT | flags) & PAGE_RW != 0
  {
  }

  /** Unmapping it takes out the whole table. */
  lemma UnmapWindowPage(m: Memory, d: Frame, va: Addr)
    requires MemOk(m) && Space(m, d) && Slot(va) == SELF && Index(va) < SELF
    ensures var m' := UnmapPage(m, d, va);
            && Space(m', d)
            && (forall f: Frame | Outside(m, d, f) :: Outside(m', d, f))
            && (forall a: Addr | Slot(a) < SELF ::
                  Reach(m', d, a) == if Slot(a) == Index(va) then None else Reach(m, d, a))
  {
  }

  /** Unmapping what has just been mapped gives back what every address meant, also where a table was added. */
  lemma UnmapUndoesMap(m: Memory, d: Frame, va: Addr, table: Frame, frame: Frame, flags: bv32)
    requires MemOk(m) && Space(m, d) && Slot(va) < SELF && !Mapped(m, d, va)
    requires !Pde(m, d, va).present ==> Outside(m, d, table)
    ensures var m' := MapPage(m, d, va, table, frame, flags);
            && Mapped(m', d, va) && PteOf(m', d, va).frame == frame
            && forall a: Addr | Page(a) != WindowPage(va) :: Reach(UnmapPage(m', d, va), d, a) == Reach(m, d, a)
  {
    MapPageIsUpdate(m, d, va, table, frame, flags);
    var m' := MapPage(m, d, va, table, frame, flags);
    assert Reach(m', d, va).Some?;
    UnmapPageIsRemoval(m', d, va);
    forall a: Addr | Page(a) == Page(va)
      ensures Reach(m, d, a) == None
    {
      SlotOfPage(a, va);
    }
    PteOfMapped(m, d, va, table, frame, flags);
  }

  lemma PteOfMapped(m: Memory, d: Frame, va: Addr, table: Frame, frame: Frame, flags: bv32)
    requires MemOk(m) && Space(m, d) && Slot(va) < SELF
    requires !Pde(m, d, va).present ==> Outside(m, d, table)
    ensures var e := PteOf(MapPage(m, d, va, table, frame, flags), d, va);
            e.frame == frame && e.present && (e.rw <==> flags & PAGE_RW != 0)
            && (e.usermode <==> flags & PAGE_USERMODE != 0)
  {
  }
}
