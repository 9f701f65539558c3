/** The `mmap` and `munmap` system calls of `syscalls.c` on the paging machine. */
module Mmap {
  import opened Types
  import opened PagingSpec
  import M = Mapping
  import P = Paging

  /**
   * What a call comes to. When the frames run out `mmap` calls `munmap` on the
   * same range, and that never returns (see `MunmapPasses`).
   */
  datatype MmapResult = Returned(status: Status) | Hangs

  const WINDOW := 0xF_FC00
  const WRAP := 0x1_0000_0000

  /** The addresses of a range; it goes on at 0 behind the last one. */
  ghost predicate InRange(a: Addr, location: Addr, length: int) {
    (a - location) % WRAP < length
  }

  function At(location: Addr, offset: int): Addr
    requires 0 <= offset < WRAP
  {
    (location + offset) % WRAP
  }

  /**
   * Page first + k stands for frame k of the list and is writable and open to processes.
   * So is its table, unless it was there before, in m0; then that allows what it did.
   */
  ghost predicate Backed(m0: Memory, m: Memory, d: Frame, first: int, frames: seq<Frame>)
    requires MemOk(m0) && MemOk(m)
  {
    forall a: Addr | first <= Page(a) < first + |frames| ::
      Reach(m, d, a) == Some(Access(frames[Page(a) - first] * 0x1000 + a % 0x1000, M.TableRights(m0, d, a),
                                   Rights(true, true)))
  }

  /** Outside a run of pages, and outside the window, every address means what it did. */
  ghost predicate Unaffected(m: Memory, m': Memory, d: Frame, first: int, count: int)
    requires MemOk(m) && MemOk(m')
  {
    forall a: Addr | Slot(a) < SELF && !(first <= Page(a) < first + count) :: Reach(m', d, a) == Reach(m, d, a)
  }

  /** Directory slots whose page of the window is not in a run mean what they meant. */
  ghost predicate OtherSlotsUnaffected(m: Memory, m': Memory, d: Frame, first: int, count: int)
    requires MemOk(m) && MemOk(m')
  {
    forall a: Addr | Slot(a) < SELF && !(first <= WINDOW + Slot(a) < first + count) ::
      Reach(m', d, a) == Reach(m, d, a)
  }

  ghost predicate Distinct(frames: seq<Frame>) {
    forall i, j | 0 <= i < j < |frames| :: frames[i] != frames[j]
  }

  /** All addresses of a page are mapped or none is. */
  lemma MappedByPage(m: Memory, d: Frame, a: Addr, b: Addr)
    requires MemOk(m) && Page(a) == Page(b)
    ensures Mapped(m, d, a) <==> Mapped(m, d, b)
  {
    M.SlotOfPage(a, b);
  }

  /** One more page of a range. */
  lemma RangeGrows(location: Addr, i: int)
    requires location % 0x1000 == 0 && i % 0x1000 == 0 && 0 <= i && i + 0x1000 <= WRAP
    ensures InRange(At(location, i), location, i + 0x1000) && !InRange(At(location, i), location, i)
    ensures forall a: Addr ::
        InRange(a, location, i + 0x1000) <==> InRange(a, location, i) || Page(a) == Page(At(location, i))
  {
    forall a: Addr
      ensures InRange(a, location, i + 0x1000) <==> InRange(a, location, i) || Page(a) == Page(At(location, i))
    {
      PageOffset(a, location, i);
    }
  }

  lemma PageOffset(a: Addr, location: Addr, i: int)
    requires location % 0x1000 == 0 && i % 0x1000 == 0 && 0 <= i && i + 0x1000 <= WRAP
    ensures Page(a) == Page(At(location, i)) <==> i <= (a - location) % WRAP < i + 0x1000
  {
    var o := (a - location) % WRAP;
    var b := At(location, i);
    assert a == location + o || a == location + o - WRAP;
    assert b == location + i || b == location + i - WRAP;
    assert Page(a) == Page(b) <==> b <= a < b + 0x1000;
  }

  /** The first loop of `mmap`: whether no page of the range is mapped. */
  method AllUnmapped(mm: P.Machine, location: Addr, length: Addr) returns (clear: bool)
    requires MemOk(mm.memory) && SelfMapped(mm.memory, mm.directory)
    requires location % 0x1000 == 0 && length % 0x1000 == 0
    ensures clear <==> forall a: Addr | InRange(a, location, length) :: !Mapped(mm.memory, mm.directory, a)
  {
    hide InRange, At, Page, Mapped;
    var i := 0;
    NoRange(location);
    while i < length
      invariant 0 <= i <= length && i % 0x1000 == 0
      invariant forall a: Addr | InRange(a, location, i) :: !Mapped(mm.memory, mm.directory, a)
    {
      RangeGrows(location, i);
      RangesNest(location, i + 0x1000, length);
      var flags := mm.PageType(At(location, i));
      if flags & PAGE_PRESENT != 0 {
        return false;
      }
      forall a: Addr | Page(a) == Page(At(location, i))
        ensures !Mapped(mm.memory, mm.directory, a)
      {
        MappedByPage(mm.memory, mm.directory, a, At(location, i));
      }
      i := i + 0x1000;
    }
    clear := true;
  }

  lemma NoRange(location: Addr)
    ensures forall a: Addr :: !InRange(a, location, 0)
  {
  }

  lemma RangesNest(location: Addr, n: int, length: int)
    requires n <= length
    ensures forall a: Addr | InRange(a, location, n) :: InRange(a, location, length)
  {
  }

  /** The last page of all is always mapped: it is the directory itself. */
  lemma LastPageIsMapped(m: Memory, d: Frame, location: Addr, length: int)
    requires MemOk(m) && SelfMapped(m, d) && location % 0x1000 == 0
    requires forall a: Addr | InRange(a, location, length) :: !Mapped(m, d, a)
    ensures location + length <= DIRECTORY
  {
    assert Slot(DIRECTORY) == SELF && Index(DIRECTORY) == SELF && Mapped(m, d, DIRECTORY);
    assert location <= DIRECTORY;
  }

  /** The directory slots of a run of pages that have no table. */
  ghost function NewTables(m: Memory, d: Frame, first: int, count: nat): set<int>
    requires MemOk(m)
  {
    set j | 0 <= j < SELF && count > 0 && first / 0x400 <= j <= (first + count - 1) / 0x400 && !m[d][j].present
  }

  /** The frames that mapping a range takes: one for each page, and one for each table that is missing. */
  ghost function FramesNeeded(m: Memory, d: Frame, location: Addr, length: int): int
    requires MemOk(m) && 0 <= length
  {
    length / 0x1000 + |NewTables(m, d, Page(location), length / 0x1000)|
  }

  /** The tables that are there now: those of m0, and those that the run has added, writable and open to processes. */
  ghost predicate TablesThere(m0: Memory, m: Memory, d: Frame, first: int, count: nat)
    requires MemOk(m0) && MemOk(m)
  {
    forall j | 0 <= j < SELF ::
      && (m[d][j].present <==> m0[d][j].present || j in NewTables(m0, d, first, count))
      && (m[d][j].present ==> RightsOf(m[d][j]) == if m0[d][j].present then RightsOf(m0[d][j]) else Rights(true, true))
  }

  lemma Subset(a: set<int>, b: set<int>)
    requires a <= b
    ensures |a| <= |b|
  {
    assert b == a + (b - a);
  }

  lemma NewTablesGrow(m0: Memory, m: Memory, d: Frame, first: int, count: nat, va: Addr)
    requires MemOk(m0) && MemOk(m) && TablesThere(m0, m, d, first, count)
    requires Page(va) == first + count && Slot(va) < SELF && first >= 0
    ensures var now, next := NewTables(m0, d, first, count), NewTables(m0, d, first, count + 1);
            if Pde(m, d, va).present then next == now else next == now + {Slot(va)} && Slot(va) !in now
  {
    assert Slot(va) == Page(va) / 0x400;
    assert forall j | j in NewTables(m0, d, first, count) :: j in NewTables(m0, d, first, count + 1);
    assert forall j | j in NewTables(m0, d, first, count + 1) :: j == Slot(va) || j in NewTables(m0, d, first, count);
  }

  lemma NewTablesWithin(m: Memory, d: Frame, first: int, n: nat, count: nat)
    requires MemOk(m) && n <= count
    ensures |NewTables(m, d, first, n)| <= |NewTables(m, d, first, count)|
  {
    Subset(NewTables(m, d, first, n), NewTables(m, d, first, count));
  }

  /** After one more page the table of its slot is there, and no other one has come or gone. */
  lemma TablesAfter(m: Memory, d: Frame, va: Addr, table: Frame, frame: Frame, flags: bv32)
    requires MemOk(m) && Space(m, d) && Slot(va) < SELF
    requires !Pde(m, d, va).present ==> Outside(m, d, table)
    ensures var m' := M.MapPage(m, d, va, table, frame, flags);
            forall j | 0 <= j < SELF ::
              && (m'[d][j].present <==> m[d][j].present || j == Slot(va))
              && (m'[d][j].present ==>
                    RightsOf(m'[d][j]) == if m[d][j].present then RightsOf(m[d][j]) else Rights(true, true))
  {
  }

  /** The frames that the first pages of `mmap` have taken: from m0 and free0, to m and free. */
  ghost predicate Counted(m0: Memory, free0: set<Frame>, m: Memory, free: set<Frame>, d: Frame,
                          first: int, frames: seq<Frame>)
    requires MemOk(m0) && MemOk(m)
  {
    && Distinct(frames) && free <= free0
    && |free| == |free0| - |frames| - |NewTables(m0, d, first, |frames|)|
    && (forall f <- frames :: f in free0 && f !in free)
    && (first + |frames| <= WINDOW ==> TablesThere(m0, m, d, first, |frames|))
  }

  /** Where they are, for a run of pages below the window or in it. */
  ghost predicate Placed(m0: Memory, m: Memory, d: Frame, first: int, frames: seq<Frame>)
    requires MemOk(m0) && MemOk(m)
  {
    && (first + |frames| <= WINDOW ==> Backed(m0, m, d, first, frames) && Unaffected(m0, m, d, first, |frames|))
    && (first >= WINDOW ==>
          && Backed(m0, m, d, first, frames) && OtherSlotsUnaffected(m0, m, d, first, |frames|)
          && m[d][SELF] == m0[d][SELF])
  }

  /** One more page behind a run of backed ones. */
  lemma BackedGrows(m0: Memory, m: Memory, d: Frame, first: int, frames: seq<Frame>,
                    va: Addr, table: Frame, frame: Frame, flags: bv32)
    requires MemOk(m0) && MemOk(m) && Space(m, d) && Page(va) == first + |frames| && Slot(va) < SELF
    requires !Pde(m, d, va).present ==> Outside(m, d, table)
    requires M.TableRights(m, d, va) == M.TableRights(m0, d, va) && M.Asked(flags) == Rights(true, true)
    requires Backed(m0, m, d, first, frames)
    ensures var m' := M.MapPage(m, d, va, table, frame, flags);
            Backed(m0, m', d, first, frames + [frame]) && Unaffected(m, m', d, first, |frames| + 1)
  {
    M.MapPageIsUpdate(m, d, va, table, frame, flags);
    var m' := M.MapPage(m, d, va, table, frame, flags);
    hide M.MapPage, Reach, Space, Outside, MemOk;
    forall a: Addr
      ensures Page(a) < Page(va) ==> Page(a) != M.WindowPage(va)
      ensures Slot(a) < SELF ==> Page(a) != M.WindowPage(va)
    {
    }
    SameTable(m0, d, va);
    hide Page, Slot, M.WindowPage, M.TableRights, M.Asked;
  }

  /** What a table allows, all of its pages have in common. */
  lemma SameTable(m: Memory, d: Frame, va: Addr)
    requires MemOk(m)
    ensures forall a: Addr | Page(a) == Page(va) :: M.TableRights(m, d, a) == M.TableRights(m, d, va)
  {
    forall a: Addr | Page(a) == Page(va)
      ensures Slot(a) == Slot(va)
    {
      M.SlotOfPage(a, va);
    }
  }

  /** The same in the window, where the page is a table and its slot means something else afterwards. */
  lemma BackedGrowsInWindow(m0: Memory, m: Memory, d: Frame, first: int, frames: seq<Frame>,
                            va: Addr, table: Frame, frame: Frame, flags: bv32)
    requires MemOk(m0) && MemOk(m) && Space(m, d)
    requires Page(va) == first + |frames| && Slot(va) == SELF && Index(va) < SELF
    requires first >= WINDOW && Outside(m, d, frame) && flags & PAGE_RW != 0
    requires M.TableRights(m0, d, va) == RightsOf(m[d][SELF]) && M.Asked(flags) == Rights(true, true)
    requires Backed(m0, m, d, first, frames)
    ensures var m' := M.MapPage(m, d, va, table, frame, flags);
            Backed(m0, m', d, first, frames + [frame]) && OtherSlotsUnaffected(m, m', d, first, |frames| + 1)
  {
    M.MapWindowPageKeeps(m, d, va, table, frame, flags);
    M.MapWindowPage(m, d, va, table, frame, flags);
    hide M.MapPage, Reach, Space, Outside, MemOk;
    assert Page(va) == WINDOW + Index(va);
    forall a: Addr
      ensures Page(a) >= WINDOW <==> Slot(a) == SELF
    {
    }
    SameTable(m0, d, va);
    hide Page, Slot, Index, M.TableRights, M.Asked;
  }

  /** One more pass of the second loop of `mmap`: the frames that it takes. */
  lemma CountGoesOn(m0: Memory, free0: set<Frame>, m: Memory, free: set<Frame>, free': set<Frame>, d: Frame,
                    first: int, frames: seq<Frame>, va: Addr, table: Frame, frame: Frame, flags: bv32)
    requires MemOk(m0) && MemOk(m) && Space(m, d) && first >= 0
    requires Page(va) == first + |frames|
    requires Counted(m0, free0, m, free, d, first, frames)
    requires Slot(va) < SELF && !Pde(m, d, va).present ==> Outside(m, d, table)
    requires frame in free
    requires if Pde(m, d, va).present then free' == free - {frame}
             else table in free - {frame} && free' == free - {frame} - {table}
    ensures Counted(m0, free0, M.MapPage(m, d, va, table, frame, flags), free', d, first, frames + [frame])
  {
    hide M.MapPage, Space, Outside, NewTables, Page, Slot;
    var m', longer := M.MapPage(m, d, va, table, frame, flags), frames + [frame];
    SlotOfWindow(va);
    if Slot(va) < SELF {
      NewTablesGrow(m0, m, d, first, |frames|, va);
      TablesAfter(m, d, va, table, frame, flags);
      assert TablesThere(m0, m', d, first, |longer|);
    } else {
      NoTablesInWindow(m0, d, first, |frames|);
      SlotIsPresent(m, d, va);
    }
    assert |free'| == |free0| - |longer| - |NewTables(m0, d, first, |longer|)|;
  }

  lemma SlotOfWindow(va: Addr)
    ensures Slot(va) < SELF <==> Page(va) < WINDOW
  {
  }

  lemma NoTablesInWindow(m: Memory, d: Frame, first: int, count: nat)
    requires MemOk(m) && first + count >= WINDOW && first >= 0
    ensures NewTables(m, d, first, count + 1) == NewTables(m, d, first, count)
  {
  }

  /** And where the page is. */
  lemma PlaceGoesOn(m0: Memory, m: Memory, d: Frame, first: int, frames: seq<Frame>,
                    va: Addr, table: Frame, frame: Frame, flags: bv32)
    requires MemOk(m0) && MemOk(m) && Space(m, d)
    requires Page(va) == first + |frames| && Page(va) != Page(DIRECTORY)
    requires Placed(m0, m, d, first, frames)
    requires Slot(va) < SELF && !Pde(m, d, va).present ==> Outside(m, d, table)
    requires Outside(m, d, frame) && flags & PAGE_RW != 0 && M.Asked(flags) == Rights(true, true)
    requires SelfMapped(m0, d) && (Page(va) < WINDOW ==> TablesThere(m0, m, d, first, |frames|))
    ensures Placed(m0, M.MapPage(m, d, va, table, frame, flags), d, first, frames + [frame])
  {
    hide M.MapPage, Space, Outside, Backed, Reach, Page, Slot, Index;
    SlotOfWindow(va);
    LastOfWindow(va);
    TableStays(m0, m, d, first, |frames|, va);
    if Slot(va) < SELF {
      BackedGrowsBelow(m0, m, d, first, frames, va, table, frame, flags);
    } else if first >= WINDOW {
      KeepsSelf(m, d, va, table, frame, flags);
      BackedGrowsInWindow(m0, m, d, first, frames, va, table, frame, flags);
    }
  }

  lemma TableStays(m0: Memory, m: Memory, d: Frame, first: int, count: nat, va: Addr)
    requires MemOk(m0) && MemOk(m) && SelfMapped(m0, d)
    requires Slot(va) < SELF ==> Page(va) == first + count && TablesThere(m0, m, d, first, count)
    ensures Slot(va) < SELF ==> M.TableRights(m, d, va) == M.TableRights(m0, d, va)
    ensures Slot(va) == SELF ==> M.TableRights(m0, d, va) == RightsOf(m0[d][SELF])
  {
  }

  lemma KeepsSelf(m: Memory, d: Frame, va: Addr, table: Frame, frame: Frame, flags: bv32)
    requires MemOk(m) && Space(m, d) && Slot(va) == SELF && Index(va) < SELF
    requires Outside(m, d, frame) && flags & PAGE_RW != 0
    ensures M.MapPage(m, d, va, table, frame, flags)[d][SELF] == m[d][SELF]
  {
    M.MapWindowPageKeeps(m, d, va, table, frame, flags);
  }

  lemma BackedGrowsBelow(m0: Memory, m: Memory, d: Frame, first: int, frames: seq<Frame>,
                         va: Addr, table: Frame, frame: Frame, flags: bv32)
    requires MemOk(m0) && MemOk(m) && Space(m, d) && Page(va) == first + |frames| && Slot(va) < SELF
    requires !Pde(m, d, va).present ==> Outside(m, d, table)
    requires M.TableRights(m, d, va) == M.TableRights(m0, d, va) && M.Asked(flags) == Rights(true, true)
    requires Backed(m0, m, d, first, frames) && Unaffected(m0, m, d, first, |frames|)
    ensures var m' := M.MapPage(m, d, va, table, frame, flags);
            Backed(m0, m', d, first, frames + [frame]) && Unaffected(m0, m', d, first, |frames| + 1)
  {
    hide M.MapPage, Space, Outside, Backed, Reach, Page, Slot, Index;
    BackedGrows(m0, m, d, first, frames, va, table, frame, flags);
  }

  lemma LastOfWindow(va: Addr)
    requires Page(va) != Page(DIRECTORY)
    ensures Slot(va) == SELF ==> Index(va) < SELF
  {
    M.SlotOfPage(va, DIRECTORY);
  }

  lemma NoPassYet(m: Memory, free: set<Frame>, d: Frame, first: int)
    requires MemOk(m)
    ensures Counted(m, free, m, free, d, first, []) && Placed(m, m, d, first, [])
  {
    assert NewTables(m, d, first, 0) == {};
  }

  /** A call that has run out of frames could not have had enough. */
  lemma RunsShort(m0: Memory, free0: set<Frame>, m: Memory, free: set<Frame>, d: Frame,
                  location: Addr, length: int, frames: seq<Frame>, va: Addr)
    requires MemOk(m0) && MemOk(m) && Counted(m0, free0, m, free, d, Page(location), frames)
    requires length % 0x1000 == 0 && |frames| * 0x1000 < length
    requires Page(va) == Page(location) + |frames|
    requires free == {} || (|free| == 1 && Slot(va) < SELF && !Pde(m, d, va).present)
    ensures |free0| < FramesNeeded(m0, d, location, length)
  {
    hide NewTables, Page, Slot;
    SlotOfWindow(va);
    if Slot(va) < SELF {
      NewTablesGrow(m0, m, d, Page(location), |frames|, va);
    }
    NewTablesWithin(m0, d, Page(location), |frames|, length / 0x1000);
    NewTablesWithin(m0, d, Page(location), |frames| + 1, length / 0x1000);
  }

  lemma Suffices(m0: Memory, free0: set<Frame>, m: Memory, free: set<Frame>, d: Frame,
                 location: Addr, length: int, frames: seq<Frame>)
    requires MemOk(m0) && MemOk(m) && Counted(m0, free0, m, free, d, Page(location), frames)
    requires |frames| * 0x1000 == length
    ensures |free0| >= FramesNeeded(m0, d, location, length)
  {
  }

  /**
   * `mmap`. On success the pages of the range stand for different frames that
   * were free, and nothing else has moved. An accepted call hangs if and only if
   * there are too few free frames for the pages and the tables that are missing.
   * (The code accepts pages of the window too. They become tables, with whatever
   * their frames hold.)
   */
  method Map(mm: P.Machine, location: Addr, length: Addr) returns (result: MmapResult, ghost frames: seq<Frame>)
    requires mm.Valid()
    modifies mm
    ensures mm.Valid() && mm.directory == old(mm.directory)
    ensures result == Returned(EInvalidArg) <==> location % 0x1000 != 0 || length % 0x1000 != 0
    ensures result == Returned(ENullPtr) <==> location == 0 && length % 0x1000 == 0
    ensures result == Returned(EExists) <==>
              && location % 0x1000 == 0 && length % 0x1000 == 0 && location != 0
              && exists a: Addr :: InRange(a, location, length) && Mapped(old(mm.memory), mm.directory, a)
    ensures result.Returned? && result.status != ENone ==> mm.memory == old(mm.memory) && mm.free == old(mm.free)
    ensures result == Returned(ENone) ==>
              && |frames| * 0x1000 == length && location + length <= DIRECTORY
              && Counted(old(mm.memory), old(mm.free), mm.memory, mm.free, mm.directory, Page(location), frames)
              && Placed(old(mm.memory), mm.memory, mm.directory, Page(location), frames)
    ensures result == Returned(ENone) && location + length <= TABLES ==>
              Usable(old(mm.memory), mm.memory, mm.directory, location, length)
    ensures result == Hangs <==>
              && location % 0x1000 == 0 && length % 0x1000 == 0 && location != 0
              && (forall a: Addr | InRange(a, location, length) :: !Mapped(old(mm.memory), mm.directory, a))
              && |old(mm.free)| < FramesNeeded(old(mm.memory), mm.directory, location, length)
  {
    hide InRange, Mapped, Counted, Placed, FramesNeeded, Usable;
    frames := [];
    if location % PAGE_SIZE != 0 || length % PAGE_SIZE != 0 {
      return Returned(EInvalidArg), frames;
    } else if location == 0 {
      return Returned(ENullPtr), frames;
    }
    var clear := AllUnmapped(mm, location, length);
    if !clear {
      return Returned(EExists), frames;
    }
    LastPageIsMapped(mm.memory, mm.directory, location, length);
    frames, result := MapAll(mm, location, length);
    if result == Returned(ENone) && location + length <= TABLES {
      PagesAreUsable(old(mm.memory), old(mm.free), mm.memory, mm.free, mm.directory, location, length, frames);
    }
  }

  /**
   * What a process may do with the pages that it got below the window. `page_type` of
   * each of them reads present, executable, writable and open to processes. It can be
   * written if and only if its table was not there before, or was open to processes:
   * tables that are added are, but the code does not open those that are there.
   */
  ghost predicate Usable(m0: Memory, m: Memory, d: Frame, location: Addr, length: int)
    requires MemOk(m0) && MemOk(m)
  {
    && (forall a: Addr | location <= a < location + length ::
          && FlagsOf(PteOf(m, d, a)) == 0x1_0007
          && (UserWritable(m, d, a) <==> Pde(m0, d, a).present ==> Pde(m0, d, a).usermode))
    && forall j | 0 <= j < SELF && m[d][j].present && !m0[d][j].present :: m[d][j].rw && m[d][j].usermode
  }

  lemma PagesAreUsable(m0: Memory, free0: set<Frame>, m: Memory, free: set<Frame>, d: Frame,
                       location: Addr, length: int, frames: seq<Frame>)
    requires MemOk(m0) && MemOk(m) && Space(m0, d) && location % 0x1000 == 0 && location + length <= TABLES
    requires |frames| * 0x1000 == length
    requires Counted(m0, free0, m, free, d, Page(location), frames) && Placed(m0, m, d, Page(location), frames)
    ensures Usable(m0, m, d, location, length)
  {
    forall a: Addr | location <= a < location + length
      ensures Page(location) <= Page(a) < Page(location) + |frames| && Slot(a) < SELF
    {
    }
    hide Page, Slot;
    forall a: Addr | location <= a < location + length
      ensures FlagsOf(PteOf(m, d, a)) == 0x1_0007
      ensures UserWritable(m, d, a) <==> Pde(m0, d, a).present ==> Pde(m0, d, a).usermode
    {
      OpenFlags(PteOf(m, d, a));
      assert Reach(m, d, a).Some?;
    }
  }

  lemma OpenFlags(e: Pte)
    ensures e.present && e.rw && e.usermode ==> FlagsOf(e) == 0x1_0007
  {
  }

  lemma PlaceOf(location: Addr, k: nat)
    requires location + (k + 1) * 0x1000 <= DIRECTORY
    ensures Page(location + k * 0x1000) == Page(location) + k
    ensures Page(location + k * 0x1000) != Page(DIRECTORY)
  {
  }

  /** The second loop of `mmap`, which takes a frame and maps it, page by page. */
  method MapAll(mm: P.Machine, location: Addr, length: Addr) returns (ghost frames: seq<Frame>, result: MmapResult)
    requires mm.Valid() && location + length <= DIRECTORY && location % 0x1000 == 0 && length % 0x1000 == 0
    modifies mm
    ensures mm.Valid() && mm.directory == old(mm.directory)
    ensures result == Hangs || result == Returned(ENone)
    ensures result == Returned(ENone) ==>
              && |frames| * 0x1000 == length
              && Counted(old(mm.memory), old(mm.free), mm.memory, mm.free, mm.directory, Page(location), frames)
              && Placed(old(mm.memory), mm.memory, mm.directory, Page(location), frames)
    ensures result == Hangs <==> |old(mm.free)| < FramesNeeded(old(mm.memory), mm.directory, location, length)
  {
    hide Counted, Placed, FramesNeeded, M.MapPage, Space, Outside, MemOk, Page, Slot, Pde;
    frames := [];
    var n := 0;
    NoPassYet(mm.memory, mm.free, mm.directory, Page(location));
    while n < length
      invariant 0 <= n <= length && n == |frames| * 0x1000
      invariant mm.Valid() && mm.directory == old(mm.directory)
      invariant Counted(old(mm.memory), old(mm.free), mm.memory, mm.free, mm.directory, Page(location), frames)
      invariant Placed(old(mm.memory), mm.memory, mm.directory, Page(location), frames)
    {
      ghost var m, spare, va: Addr := mm.memory, mm.free, location + n;
      PlaceOf(location, |frames|);
      SlotIsPresent(m, mm.directory, va);
      if spare == {} || (|spare| == 1 && !Pde(m, mm.directory, va).present) {
        RunsShort(old(mm.memory), old(mm.free), m, spare, mm.directory, location, length, frames, va);
      }
      var frame := mm.ReservePage();
      if frame % PAGE_SIZE != 0 {
        return frames, Hangs;
      }
      var f: Frame := frame / 0x1000;
      assert mm.CanBeTable(m, frame, PAGE_USERMODE | PAGE_RW);
      var status, table := mm.MapPage(location + n, frame, PAGE_USERMODE | PAGE_RW);
      if status != ENone {
        assert spare == {f};
        mm.free := mm.free + {f};
        return frames, Hangs;
      }
      PassGoesOn(old(mm.memory), old(mm.free), m, spare, mm.free, mm.directory, Page(location), frames, va, table, f);
      frames := frames + [f];
      n := n + 0x1000;
    }
    Suffices(old(mm.memory), old(mm.free), mm.memory, mm.free, mm.directory, location, length, frames);
    result := Returned(ENone);
  }

  lemma TablesNow(m0: Memory, free0: set<Frame>, m: Memory, free: set<Frame>, d: Frame, first: int, frames: seq<Frame>)
    requires MemOk(m0) && MemOk(m) && Space(m0, d) && Counted(m0, free0, m, free, d, first, frames)
    ensures SelfMapped(m0, d) && (first + |frames| < WINDOW ==> TablesThere(m0, m, d, first, |frames|))
  {
  }

  /** One more pass of the second loop of `mmap`. */
  lemma PassGoesOn(m0: Memory, free0: set<Frame>, m: Memory, free: set<Frame>, free': set<Frame>, d: Frame,
                   first: int, frames: seq<Frame>, va: Addr, table: Frame, frame: Frame)
    requires MemOk(m0) && MemOk(m) && Space(m0, d) && Space(m, d) && first >= 0
    requires Page(va) == first + |frames| && Page(va) != Page(DIRECTORY)
    requires Counted(m0, free0, m, free, d, first, frames) && Placed(m0, m, d, first, frames)
    requires forall f <- free :: Outside(m, d, f)
    requires frame in free
    requires if Pde(m, d, va).present then free' == free - {frame}
             else table in free - {frame} && free' == free - {frame} - {table}
    ensures var m' := M.MapPage(m, d, va, table, frame, PAGE_USERMODE | PAGE_RW);
            Counted(m0, free0, m', free', d, first, frames + [frame]) && Placed(m0, m', d, first, frames + [frame])
  {
    hide Counted, Placed, M.MapPage, Space, MemOk, Page, Slot, TablesThere, M.TableRights, M.Asked, Pde, Outside;
    AskedForBoth();
    SlotOfWindow(va);
    TablesNow(m0, free0, m, free, d, first, frames);
    CountGoesOn(m0, free0, m, free, free', d, first, frames, va, table, frame, PAGE_USERMODE | PAGE_RW);
    PlaceGoesOn(m0, m, d, first, frames, va, table, frame, PAGE_USERMODE | PAGE_RW);
  }

  lemma AskedForBoth()
    ensures M.Asked(PAGE_USERMODE | PAGE_RW) == Rights(true, true)
    ensures (PAGE_USERMODE | PAGE_RW) & PAGE_RW != 0
  {
  }

  /** In the window there always is a table: the directory. */
  lemma SlotIsPresent(m: Memory, d: Frame, va: Addr)
    requires MemOk(m) && Space(m, d)
    ensures !Pde(m, d, va).present ==> Slot(va) < SELF
  {
  }

  lemma UnmappedNow(m: Memory, d: Frame, va: Addr)
    requires MemOk(m) && Space(m, d) && Pde(m, d, va).present && Page(va) != Page(DIRECTORY)
    ensures !Mapped(M.UnmapPage(m, d, va), d, va)
  {
    LastOfWindow(va);
    if Slot(va) < SELF {
      M.UnmapPageIsRemoval(m, d, va);
      assert Reach(M.UnmapPage(m, d, va), d, va) == None;
    } else {
      assert M.UnmapPage(m, d, va)[d][SELF] == m[d][SELF];
    }
  }

  /**
   * `munmap`, its loop run for any number of passes: the counter never moves and
   * the status never changes, so on a range that is not empty the loop is still
   * running, however long one waits. By then it has unmapped the first page and no
   * other. The branch that would free a frame is never taken, because no entry ever
   * reports PAGE_ANON.
   */
  method MunmapPasses(mm: P.Machine, location: Addr, length: Addr, passes: nat) returns (status: Option<Status>)
    requires mm.Valid() && location != DIRECTORY
    modifies mm
    ensures mm.Valid() && mm.directory == old(mm.directory) && mm.free == old(mm.free)
    ensures status == Some(EInvalidArg) <==> location % 0x1000 != 0 || length % 0x1000 != 0
    ensures status == Some(ENullPtr) <==> location == 0 && length % 0x1000 == 0
    ensures status == None <==> location % 0x1000 == 0 && length % 0x1000 == 0 && location != 0 && length > 0
    ensures status.None? || status.value == ENone || status.value == EInvalidArg || status.value == ENullPtr
    ensures mm.memory == if status == None && passes > 0 && Mapped(old(mm.memory), mm.directory, location)
                         then M.UnmapPage(old(mm.memory), mm.directory, location) else old(mm.memory)
  {
    if location % PAGE_SIZE != 0 || length % PAGE_SIZE != 0 {
      return Some(EInvalidArg);
    } else if location == 0 {
      return Some(ENullPtr);
    }
    assert Page(location) != Page(DIRECTORY);
    var n, error := 0, ENone;
    for i := 0 to passes
      invariant n == 0 && error == ENone
      invariant mm.Valid() && mm.directory == old(mm.directory) && mm.free == old(mm.free)
      invariant i > 0 && length > 0 ==> !Mapped(mm.memory, mm.directory, location)
      invariant mm.memory == if i > 0 && length > 0 && Mapped(old(mm.memory), mm.directory, location)
                             then M.UnmapPage(old(mm.memory), mm.directory, location) else old(mm.memory)
    {
      if n < length && error == ENone {
        var flags := mm.PageType(location + n);
        if flags & PAGE_PRESENT != 0 {
          ghost var m := mm.memory;
          var frame := mm.UnmapPage(location + n);
          assert flags & PAGE_ANON == 0;
          UnmappedNow(m, mm.directory, location);
        }
      }
    }
    status := if n < length && error == ENone then None else Some(error);
  }
}
