/** Several address spaces in one memory: how a new one is built and what spaces share. */
module AddressSpace {
  import opened Types
  import opened PagingSpec
  import opened Mapping

  /** Two directories that share tables at most in the same slots, as the kernel slots do. */
  ghost predicate Apart(m: Memory, d: Frame, e: Frame)
    requires MemOk(m)
  {
    && Outside(m, d, e) && Outside(m, e, d)
    && forall i, j | 0 <= i < SELF && 0 <= j < SELF && i != j && m[d][i].present && m[e][j].present ::
         m[d][i].frame != m[e][j].frame
  }

  /** Both directories have the same table in the slot of va. */
  predicate Shared(m: Memory, d: Frame, e: Frame, va: Addr)
    requires MemOk(m)
  {
    Pde(m, d, va).present && Pde(m, e, va).present && Pde(m, d, va).frame == Pde(m, e, va).frame
  }

  /**
   * A mapping made in one address space shows in another one if and only if they
   * share the table of its slot; everything else stays there as it was. In
   * particular a kernel mapping that needs a new table stays private.
   */
  lemma MappingShowsWhereShared(
      m: Memory, d: Frame, e: Frame, va: Addr, table: Frame, frame: Frame, flags: bv32, a: Addr)
    requires MemOk(m) && Space(m, d) && Space(m, e) && Apart(m, d, e) && Slot(va) < SELF
    requires !Pde(m, d, va).present ==> Outside(m, d, table) && Outside(m, e, table)
    ensures var m' := MapPage(m, d, va, table, frame, flags);
            Reach(m', e, a) == if Shared(m, d, e, va) && Page(a) == Page(va)
                               then Some(Access(frame * 0x1000 + a % 0x1000, RightsOf(Pde(m, e, va)), Asked(flags)))
                               else Reach(m, e, a)
  {
    SlotOfPage(a, va);
    PresentStays(flags);
    var m' := MapPage(m, d, va, table, frame, flags);
    assert m'[e] == m[e];
    if Pde(m, e, a).present && Slot(a) < SELF {
      assert Pde(m, e, a).frame != d && (Pde(m, d, va).present || Pde(m, e, a).frame != table);
      assert Slot(a) != Slot(va) && Pde(m, d, va).present ==> Pde(m, e, a).frame != Pde(m, d, va).frame;
    }
  }

  /** The directory that `paging_init_top_table` writes into frame f. */
  function NewDirectory(current: seq<Pte>, f: Frame): (r: seq<Pte>)
    requires |current| == 1024
    ensures |r| == 1024
  {
    seq(1024, i requires 0 <= i < 1024 =>
      if i < KERNEL_INDEX then ZERO
      else if i < SELF then current[i]
      else ZERO.(frame := f, present := true, rw := true))
  }

  /** Memory after `paging_init_top_table`: only the new frame has changed. */
  function InitTopTable(m: Memory, d: Frame, f: Frame): (m': Memory)
    requires MemOk(m)
    ensures MemOk(m')
  {
    m[f := NewDirectory(m[d], f)]
  }

  /**
   * The new directory is an address space of its own: empty below the kernel,
   * equal to the current one in the kernel slots, rights included, and sharing no
   * other table. Its window is closed to processes. The current space keeps the
   * meaning of every address.
   */
  lemma NewSpace(m: Memory, d: Frame, f: Frame)
    requires MemOk(m) && Space(m, d) && Outside(m, d, f)
    ensures var m' := InitTopTable(m, d, f);
            && Space(m', f) && Space(m', d) && Apart(m', d, f)
            && (forall a: Addr :: Reach(m', d, a) == Reach(m, d, a))
            && (forall a: Addr | Slot(a) < 1021 :: Reach(m', f, a) == None)
            && (forall a: Addr | 1021 <= Slot(a) < 1023 :: Reach(m', f, a) == Reach(m, d, a))
            && (forall a: Addr | Slot(a) == SELF && Mapped(m', f, a) ::
                  Reach(m', f, a).value.table == Rights(true, false))
  {
    var m' := InitTopTable(m, d, f);
    assert m'[d] == m[d];
    assert forall j | 0 <= j < SELF && m'[f][j].present :: j >= KERNEL_INDEX && m'[f][j] == m[d][j];
    assert Space(m', f) && Space(m', d);
    forall a: Addr
      ensures Reach(m', d, a) == Reach(m, d, a)
    {
      if Pde(m, d, a).present && Slot(a) < SELF {
        assert Pde(m, d, a).frame != f;
      }
    }
    forall a: Addr | KERNEL_INDEX <= Slot(a) < SELF
      ensures Reach(m', f, a) == Reach(m, d, a)
    {
      if Pde(m, d, a).present {
        assert Pde(m, d, a).frame != f;
      }
    }
  }

  /** Directory d shares no table with e below the kernel. */
  ghost predicate OwnBelow(m: Memory, d: Frame, e: Frame)
    requires MemOk(m)
  {
    forall j | 0 <= j < KERNEL_INDEX && m[d][j].present :: Outside(m, e, m[d][j].frame)
  }

  /** What a mapping below the kernel in d keeps of another space e: everything. */
  lemma MappingBelowIsPrivate(
      m: Memory, d: Frame, e: Frame, va: Addr, table: Frame, frame: Frame, flags: bv32)
    requires MemOk(m) && Space(m, d) && Space(m, e) && Apart(m, d, e) && OwnBelow(m, d, e)
    requires Slot(va) < KERNEL_INDEX
    requires !Pde(m, d, va).present ==> Outside(m, d, table) && Outside(m, e, table)
    ensures var m' := MapPage(m, d, va, table, frame, flags);
            && Space(m', d) && Space(m', e) && Apart(m', d, e) && OwnBelow(m', d, e)
            && (forall f: Frame | Outside(m, e, f) :: Outside(m', e, f))
            && (forall a: Addr :: Reach(m', e, a) == Reach(m, e, a))
            && (forall a: Addr | KERNEL_INDEX <= Slot(a) < SELF :: Reach(m', d, a) == Reach(m, d, a))
  {
    var m' := MapPage(m, d, va, table, frame, flags);
    MapPageIsUpdate(m, d, va, table, frame, flags);
    KeepsOther(m, d, e, va, table, frame, flags);
    forall a: Addr
      ensures Reach(m', e, a) == Reach(m, e, a)
    {
      MappingShowsWhereShared(m, d, e, va, table, frame, flags, a);
    }
    forall a: Addr | KERNEL_INDEX <= Slot(a) < SELF
      ensures Reach(m', d, a) == Reach(m, d, a)
    {
      SlotOfPage(a, va);
    }
  }

  lemma KeepsOther(m: Memory, d: Frame, e: Frame, va: Addr, table: Frame, frame: Frame, flags: bv32)
    requires MemOk(m) && Space(m, d) && Space(m, e) && Apart(m, d, e) && OwnBelow(m, d, e)
    requires Slot(va) < KERNEL_INDEX
    requires !Pde(m, d, va).present ==> Outside(m, d, table) && Outside(m, e, table)
    ensures var m' := MapPage(m, d, va, table, frame, flags);
            && m'[e] == m[e] && Apart(m', d, e) && OwnBelow(m', d, e)
  {
  }

  /** Kernel mappings made later, through a kernel table that was there already, show in the new space. */
  lemma KernelMappingsAreShared(
      m: Memory, d: Frame, f: Frame, va: Addr, table: Frame, frame: Frame, flags: bv32)
    requires MemOk(m) && Space(m, d) && Outside(m, d, f)
    requires KERNEL_INDEX <= Slot(va) < SELF && Pde(m, d, va).present
    ensures var m' := MapPage(InitTopTable(m, d, f), d, va, table, frame, flags);
            && Reach(m', d, va) == Some(Access(frame * 0x1000 + va % 0x1000, RightsOf(Pde(m, d, va)), Asked(flags)))
            && Reach(m', f, va) == Reach(m', d, va)
  {
  }

  /** Slot 0 can be worked through exactly when it holds a table. */
  lemma FirstWindowExactly(m: Memory, d: Frame)
    requires MemOk(m) && Space(m, d)
    ensures (forall i | 0 <= i < 1024 :: Writable(m, d, TableAddr(i))) <==> m[d][0].present
    ensures (exists i | 0 <= i < 1024 :: Writable(m, d, TableAddr(i))) <==> m[d][0].present
  {
    forall i | 0 <= i < 1024
      ensures Writable(m, d, TableAddr(i)) <==> m[d][0].present
    {
      var w := TableAddr(i);
      assert Slot(w) == SELF && Index(w) == 0;
    }
    assert Writable(m, d, TableAddr(0)) <==> m[d][0].present;
  }

  /**
   * `paging_init_top_table` works through slot 0, which has to hold a present
   * table. In a space that it has built that slot is empty, so it cannot be used
   * from there until something has been mapped below 4 MiB.
   */
  lemma NewSpaceCannotBuildAnother(m: Memory, d: Frame, f: Frame)
    requires MemOk(m) && Space(m, d) && Outside(m, d, f)
    ensures var m' := InitTopTable(m, d, f);
            && !m'[f][0].present
            && forall i | 0 <= i < 1024 :: !Writable(m', f, TableAddr(i))
  {
    NewSpace(m, d, f);
    FirstWindowExactly(InitTopTable(m, d, f), f);
  }
}
