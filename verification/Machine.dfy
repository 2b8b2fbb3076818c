/**
 The page-table code as it runs: `Addrspace::map_to`, `AnyPageTable::clone_kernel` and
 `AnyPageTable::new_l4` (harmony/kernel/src/arch/x86_64/paging/page_table.rs), updating physical
 memory and the retype table in place.  Each method is proved to do what its function in
 `AddressSpaces` says; what that means is proved there.
 */
module Machines {
  import opened Layout
  import opened Wrappers
  import opened RetypeTables
  import opened FrameAllocators
  import opened PageTableEntries
  import opened PageTables
  import opened AddressSpaces
  import R = RetypeEntries
  import VA = VirtualAddresses

  lemma {:induction false} RootKept(s: Space, s': Space, r: nat)
    requires OnlyTables(s, s') && IsRoot(s.place, r)
    ensures IsRoot(s'.place, r)
  {
  }

  lemma {:induction false} RootIsTable(s: Space, kernel: KernelTables, upper: seq<Entry>, r: nat)
    requires SpaceOk(s, kernel, upper) && IsRoot(s.place, r)
    ensures IsTable(s.mem, r) && KernelOwned(s.words, r)
  {
  }

  class Machine {
    const table: RetypeTable
    var mem: Memory
    var current: nat
    ghost var place: Places
    ghost const kernel: KernelTables
    ghost const upper: seq<Entry>

    /** The machine as allocator `alloc` finds it. */
    ghost function Snapshot(alloc: BumpAllocator): (s: Space)
      reads this, table, alloc
    {
      Space(mem, place, table.words, alloc.index)
    }

    ghost predicate Valid(alloc: BumpAllocator)
      reads this, table, alloc
    {
      SpaceOk(Snapshot(alloc), kernel, upper) && IsRoot(place, current)
    }

    /** The machine as the bootloader leaves it, with the boot table current. */
    constructor (table: RetypeTable, mem: Memory, current: nat, alloc: BumpAllocator,
                 ghost place: Places, ghost kernel: KernelTables, ghost upper: seq<Entry>)
      requires SpaceOk(Space(mem, place, table.words, alloc.index), kernel, upper) && IsRoot(place, current)
      ensures Valid(alloc) && this.table == table && Snapshot(alloc) == Space(mem, place, table.words, alloc.index)
      ensures this.current == current && this.kernel == kernel && this.upper == upper
    {
      this.table, this.mem, this.current := table, mem, current;
      this.place, this.kernel, this.upper := place, kernel, upper;
    }

    /** The branch of `map_to` that adds a missing level: allocate, clear, link. */
    method AddTable(t: nat, i: nat, parentFlags: Flags, alloc: BumpAllocator) returns (r: Option<nat>)
      requires table.Valid() && alloc.index <= |table.words|
      requires t in place && i < ENTRIES && IsTable(mem, t) && ValidFlags(parentFlags)
      modifies this`mem, this`place, table, alloc
      ensures table.Valid()
      ensures r == FindUntyped(old(table.words), old(alloc.index))
      ensures r.None? ==> Snapshot(alloc) == old(Snapshot(alloc)).(cursor := |table.words|)
      ensures r.Some? ==>
                Snapshot(alloc) == AddressSpaces.AddTable(old(Snapshot(alloc)), t, i, r.value, WithPresent(parentFlags))
    {
      r := alloc.AllocFrame(table, R.Kernel);
      if r.Some? {
        mem := mem[r.value := TablePage(EmptyTable())];
        mem := WithEntry(mem, t, i, Some(Mapping(r.value, WithPresent(parentFlags))));
        place := PlaceBelow(place, t, i, r.value);
      }
    }

    method MapTo(root: nat, page: VA.Usize, frame: nat, flags: Flags, parentFlags: Flags, alloc: BumpAllocator)
      returns (r: MapResult)
      requires Valid(alloc) && IsRoot(place, root) && IsPage(page) && VA.LowerHalf(page)
      requires ValidMapping(Mapping(frame, flags)) && ValidFlags(parentFlags)
      modifies this`mem, this`place, table, alloc
      ensures Valid(alloc)
      ensures (Snapshot(alloc), r) ==
              AddressSpaces.MapTo(old(Snapshot(alloc)), root, page, Mapping(frame, flags), parentFlags)
      ensures OnlyTables(old(Snapshot(alloc)), Snapshot(alloc))
    {
      hide Ready, SpaceOk, OnlyTables, SameLow, SameAboveDepth, Probe, Upper, TranslateAddr, Expected, UntypedFrom, FindUntyped,
           LowestTaken, Left, IdleHaveNoRefs, Linked, PlaceBelow, Claimed;
      ghost var p: Path := VA.Indices(page);
      assert forall l :: 1 <= l <= 4 ==> VA.PageTableIndex(page, l) == p[4 - l];
      hide VA.Indices, VA.PageTableIndex;
      ghost var m, added, first := Mapping(frame, flags), WithPresent(parentFlags), Snapshot(alloc);
      ReadyAtRoot(first, kernel, upper, root, page, m, parentFlags);
      ReadyTable(first, kernel, upper, root, root, p, 0, m, added);
      MapToKeeps(first, kernel, upper, root, page, m, parentFlags);
      RootKept(first, AddressSpaces.MapTo(first, root, page, m, parentFlags).0, current);
      var level := 4;
      var t := root;
      r := MapOk;
      while level > 0
        invariant 0 <= level <= 4 && r == MapOk
        invariant level > 0 ==>
                    && Ready(Snapshot(alloc), kernel, upper, root, t, p, 4 - level, m, added)
                    && IsTable(mem, t) && t in place && Mappable(Snapshot(alloc), m, added)
        invariant level > 0 ==> MapFrom(Snapshot(alloc), t, p, 4 - level, m, added) == MapFrom(first, root, p, 0, m, added)
        invariant level == 0 ==> (Snapshot(alloc), MapOk) == MapFrom(first, root, p, 0, m, added)
      {
        ghost var s := Snapshot(alloc);
        var offset := VA.PageTableIndex(page, level);
        var e := EntryAt(mem, t, offset);
        if level > 1 {
          ReadyBelow(s, kernel, upper, root, t, p, 4 - level, m, added);
        }
        if e.Some? {
          if level == 1 {
            return AlreadyMapped(e.value.frame);
          }
          if e.value.flags.huge {
            return HugeParentEntry;
          }
          t := e.value.frame;
        } else if level == 1 {
          mem := WithEntry(mem, t, offset, Stored(Mapping(frame, flags)));
        } else {
          ReadyTable(s, kernel, upper, root, t, p, 4 - level, m, added);
          SpaceWords(s, kernel, upper);
          var c := AddTable(t, offset, parentFlags, alloc);
          if c.None? {
            return FrameAllocationError;
          }
          t := c.value;
        }
        level := level - 1;
        if level > 0 {
          ReadyTable(Snapshot(alloc), kernel, upper, root, t, p, 4 - level, m, added);
        }
      }
    }

    /** `clone_kernel`, which borrows the current table while it copies; `None` is a panic. */
    method CloneKernel() returns (r: Option<Table>)
      requires table.Valid() && IsTable(mem, current) && KernelOwned(table.words, current)
      modifies table
      ensures r.Some? <==> Borrowable(old(table.words), current)
      ensures r.Some? ==> r.value == AddressSpaces.CloneKernel(mem[current].entries) && table.words == old(table.words)
    {
      hide IdleHaveNoRefs, R.ValueInto;
      var borrow := table.TryAs(current, R.Kernel);
      if borrow != Held {
        return None;
      }
      var t := CopyUpper();
      var before, ok := table.Decrement(current);
      if !ok {
        return None;
      }
      R.UnpackInjective(table.words[current], old(table.words)[current]);
      return Some(t);
    }

    /** The loop of `clone_kernel`. */
    method CopyUpper() returns (t: Table)
      requires IsTable(mem, current)
      ensures t == AddressSpaces.CloneKernel(mem[current].entries)
    {
      t := EmptyTable();
      for i := 256 to ENTRIES
        invariant forall k :: 0 <= k < ENTRIES ==> t[k] == if 256 <= k < i then mem[current].entries[k] else None
      {
        var e := EntryAt(mem, current, i);
        if e.Some? {
          t := t[i := Stored(e.value)];
        }
      }
    }

    /**
     A new address space: `alloc_untyped_frame`, then `new_l4`, which copies the kernel half, retypes the
     frame and fills it.  `ok` is false where the source panics.
     */
    method NewAddressSpace(alloc: BumpAllocator) returns (r: Option<nat>, ok: bool)
      requires Valid(alloc)
      modifies this`mem, this`place, table, alloc
      ensures ok <==> FindUntyped(old(table.words), old(alloc.index)).None? || Borrowable(old(table.words), current)
      ensures ok ==> Valid(alloc) && r == FindUntyped(old(table.words), old(alloc.index)) && IsTable(old(mem), current)
      ensures ok && Borrowable(old(table.words), current) ==>
                Snapshot(alloc) == Perform(old(Snapshot(alloc)), NewRootCall(old(alloc.index), current))
      ensures ok && r.None? ==> Snapshot(alloc) == old(Snapshot(alloc)).(cursor := |table.words|)
      ensures ok && r.Some? ==> IsRoot(place, r.value)
    {
      hide SpaceOk, KernelKept, SameLow, IdleHaveNoRefs, R.ValueInto;
      ghost var first := Snapshot(alloc);
      SpaceWords(first, kernel, upper);
      RootIsTable(first, kernel, upper, current);
      CursorMoved(first, kernel, upper, |table.words|);
      if Borrowable(table.words, current) {
        NewRootCallKeeps(first, NewRootCall(alloc.index, current), kernel, upper);
      }
      r := alloc.AllocUntypedFrame(table);
      ok := true;
      if r.Some? {
        var l4 := CloneKernel();
        if l4.None? {
          return None, false;
        }
        var retyped := table.TryInto(r.value, R.Kernel);
        mem := mem[r.value := TablePage(l4.value)];
        place := place[r.value := Place(r.value, [])];
      }
    }
  }
}
