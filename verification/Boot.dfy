/**
 The loading loops as they run: `Segment::load` and the stack and window loops of `Process::load`
 (harmony/kernel/src/arch/x86_64/bootup.rs), working in place on the machine.  `completed` is false
 where the source panics; the methods are proved to complete exactly when, and with the machine
 that, the functions of `Loaders` and `Processes` say.
 */
module Booting {
  import opened Layout
  import opened Wrappers
  import opened RetypeTables
  import opened FrameAllocators
  import opened PageTableEntries
  import opened PageTables
  import opened AddressSpaces
  import opened Loaders
  import opened Processes
  import opened Machines
  import R = RetypeEntries
  import VA = VirtualAddresses

  /** `write_bytes` then `copy`. */
  method FillPage(program: seq<Byte>, from: nat, count: nat, at: nat) returns (bytes: PageBytes)
    requires from + count <= |program| && at + count <= PAGE_SIZE
    ensures bytes == FilledPage(program, from, count, at)
  {
    var zero: PageBytes := seq<Byte>(PAGE_SIZE, _ => 0);
    bytes := zero[..at] + program[from..from + count] + zero[at + count..];
  }

  /** `alloc_user_frame`, then `map_to`; `None` is a panic of either. */
  method MapFreshFrame(machine: Machine, root: nat, page: VA.Usize, flags: Flags,
                       alloc: BumpAllocator) returns (r: Option<nat>)
    requires machine.Valid(alloc) && IsRoot(machine.place, root) && |machine.table.words| < MAX_FRAMES
    requires IsPage(page) && VA.LowerHalf(page) && ValidFlags(flags) && flags.present
    modifies machine`mem, machine`place, machine.table, alloc
    ensures r.Some? ==>
              && machine.Valid(alloc) && IsRoot(machine.place, root)
              && r == FindUntyped(old(machine.table.words), old(alloc.index))
              && MapUser(old(machine.Snapshot(alloc)), root, page, r.value, flags) == (machine.Snapshot(alloc), MapOk)
    ensures r.None? ==>
              var found := FindUntyped(old(machine.table.words), old(alloc.index));
              found.None? || MapUser(old(machine.Snapshot(alloc)), root, page, found.value, flags).1 != MapOk
  {
    hide SpaceOk, AddressSpaces.MapTo, OnlyTables, IdleHaveNoRefs, IsUntyped;
    ghost var s := machine.Snapshot(alloc);
    SpaceWords(s, machine.kernel, machine.upper);
    r := alloc.AllocFrame(machine.table, R.User);
    if r.Some? {
      ClaimUserOk(s, machine.kernel, machine.upper, r.value);
      var answer := machine.MapTo(root, page, r.value, flags, PARENT_FLAGS, alloc);
      if answer == MapOk {
        RootKept(ClaimUser(s, r.value), machine.Snapshot(alloc), root);
      } else {
        r := None;
      }
    }
  }

  /** One iteration of the loop of `Segment::load`, up to the end of the copy. */
  method LoadOnePage(machine: Machine, root: nat, program: seq<Byte>, h: Segment, v: nat, fcurrent: nat,
                     alloc: BumpAllocator)
    returns (ok: bool)
    requires machine.Valid(alloc) && IsRoot(machine.place, root) && |machine.table.words| < MAX_FRAMES
    requires InStep(program, h, v, fcurrent) && v < End(h)
    modifies machine`mem, machine`place, machine.table, alloc
    ensures ok <==> LoadPage(old(machine.Snapshot(alloc)), root, program, h, v, fcurrent).Some?
    ensures ok ==>
              && machine.Valid(alloc) && IsRoot(machine.place, root) && |machine.table.words| < MAX_FRAMES
              && machine.Snapshot(alloc) == LoadPage(old(machine.Snapshot(alloc)), root, program, h, v, fcurrent).value
  {
    hide SpaceOk, Count, FilledPage, Outside, MapUser, PageLoaded, TranslateAddr, FrameOf, IsUntyped;
    PageOfStep(h, v);
    FilledIsImage(program, h, v, fcurrent, 0);
    ghost var s := machine.Snapshot(alloc);
    if !VA.Canonical(v) || !h.readable {
      return false;
    }
    var frame := MapFreshFrame(machine, root, VA.ContainingPage(v), PageFlags(h), alloc);
    if frame.None? {
      return false;
    }
    var bytes := FillPage(program, fcurrent, Count(h, v, fcurrent), v % PAGE_SIZE);
    machine.mem := machine.mem[frame.value := BytePage(bytes)];
    LoadPageOk(s, machine.kernel, machine.upper, root, program, h, v, fcurrent);
    return true;
  }

  /** `Segment::load`. */
  method LoadSegment(machine: Machine, root: nat, program: seq<Byte>, h: Segment, alloc: BumpAllocator)
    returns (completed: bool)
    requires machine.Valid(alloc) && IsRoot(machine.place, root) && |machine.table.words| < MAX_FRAMES
    modifies machine`mem, machine`place, machine.table, alloc
    ensures completed <==> Load(old(machine.Snapshot(alloc)), root, program, h).Some?
    ensures completed ==>
              && machine.Valid(alloc) && IsRoot(machine.place, root) && |machine.table.words| < MAX_FRAMES
              && machine.Snapshot(alloc) == Load(old(machine.Snapshot(alloc)), root, program, h).value
  {
    hide SpaceOk, LoadPage, Count;
    ghost var first := machine.Snapshot(alloc);
    if !Loadable(program, h) {
      return false;
    }
    var vcurrent: nat, fcurrent: nat := h.vaddr, h.offset;
    while vcurrent < End(h)
      invariant InStep(program, h, vcurrent, fcurrent) && machine.Valid(alloc) && IsRoot(machine.place, root)
      invariant |machine.table.words| < MAX_FRAMES
      invariant LoadFrom(machine.Snapshot(alloc), root, program, h, vcurrent, fcurrent) ==
                LoadFrom(first, root, program, h, h.vaddr, h.offset)
      decreases End(h) - vcurrent
    {
      var ok := LoadOnePage(machine, root, program, h, vcurrent, fcurrent, alloc);
      if !ok {
        return false;
      }
      StepOn(program, h, vcurrent, fcurrent);
      fcurrent := fcurrent + Count(h, vcurrent, fcurrent);
      vcurrent := NextPage(vcurrent);
    }
    return true;
  }

  /** The stack loop of `Process::load`. */
  method MapStackPages(machine: Machine, root: nat, top: VA.Usize, stackPages: nat,
                       alloc: BumpAllocator) returns (completed: bool)
    requires machine.Valid(alloc) && IsRoot(machine.place, root) && |machine.table.words| < MAX_FRAMES
    requires top % PAGE_SIZE == 0 && top < HIGHER_HALF
    modifies machine`mem, machine`place, machine.table, alloc
    ensures completed <==> MapStack(old(machine.Snapshot(alloc)), root, top, 0, stackPages).Some?
    ensures completed ==>
              && machine.Valid(alloc) && IsRoot(machine.place, root) && |machine.table.words| < MAX_FRAMES
              && machine.Snapshot(alloc) == MapStack(old(machine.Snapshot(alloc)), root, top, 0, stackPages).value
  {
    hide SpaceOk, MapUser, IsUntyped;
    ghost var first := machine.Snapshot(alloc);
    for i := 0 to stackPages
      invariant machine.Valid(alloc) && IsRoot(machine.place, root) && |machine.table.words| < MAX_FRAMES
      invariant MapStack(machine.Snapshot(alloc), root, top, i, stackPages) == MapStack(first, root, top, 0, stackPages)
    {
      if top < PAGE_SIZE * (i + 1) || !VA.Canonical(top - PAGE_SIZE * (i + 1)) {
        return false;
      }
      StackPageLow(top, i);
      var frame := MapFreshFrame(machine, root, top - PAGE_SIZE * (i + 1), STACK_FLAGS, alloc);
      if frame.None? {
        return false;
      }
    }
    return true;
  }

  lemma {:induction false} StackPageLow(top: VA.Usize, i: nat)
    requires top % PAGE_SIZE == 0 && top < HIGHER_HALF && top >= PAGE_SIZE * (i + 1)
    ensures VA.Canonical(top - PAGE_SIZE * (i + 1)) ==>
              IsPage(top - PAGE_SIZE * (i + 1)) && VA.LowerHalf(top - PAGE_SIZE * (i + 1))
  {
  }

  /** The window loop of `Process::load`. */
  method MapWindowPages(machine: Machine, root: nat, offset: nat, n: nat,
                        alloc: BumpAllocator) returns (completed: bool)
    requires machine.Valid(alloc) && IsRoot(machine.place, root) && |machine.table.words| < MAX_FRAMES
    requires offset % PAGE_SIZE == 0 && offset + PAGE_SIZE * n < HIGHER_HALF
    modifies machine`mem, machine`place, machine.table, alloc
    ensures completed <==> MapWindow(old(machine.Snapshot(alloc)), root, offset, 0, n).Some?
    ensures completed ==>
              && machine.Valid(alloc) && IsRoot(machine.place, root)
              && machine.Snapshot(alloc) == MapWindow(old(machine.Snapshot(alloc)), root, offset, 0, n).value
  {
    hide SpaceOk, OnlyTables, AddressSpaces.MapTo;
    ghost var first := machine.Snapshot(alloc);
    for i := 0 to n
      invariant machine.Valid(alloc) && IsRoot(machine.place, root) && |machine.table.words| < MAX_FRAMES
      invariant MapWindow(machine.Snapshot(alloc), root, offset, i, n) == MapWindow(first, root, offset, 0, n)
    {
      ghost var s := machine.Snapshot(alloc);
      var page: VA.Usize := offset + PAGE_SIZE * i;
      if i >= MAX_FRAMES || !VA.Canonical(page) {
        return false;
      }
      var answer := machine.MapTo(root, page, i, WINDOW_FLAGS, WINDOW_FLAGS, alloc);
      if answer != MapOk {
        return false;
      }
      RootKept(s, machine.Snapshot(alloc), root);
    }
    return true;
  }

  /** The loop over program headers. */
  method LoadSegments(machine: Machine, root: nat, program: seq<Byte>, hs: seq<Segment>, alloc: BumpAllocator)
    returns (completed: bool)
    requires machine.Valid(alloc) && IsRoot(machine.place, root) && |machine.table.words| < MAX_FRAMES
    modifies machine`mem, machine`place, machine.table, alloc
    ensures completed <==> LoadAll(old(machine.Snapshot(alloc)), root, program, hs).Some?
    ensures completed ==>
              && machine.Valid(alloc) && IsRoot(machine.place, root) && |machine.table.words| < MAX_FRAMES
              && machine.Snapshot(alloc) == LoadAll(old(machine.Snapshot(alloc)), root, program, hs).value
  {
    hide SpaceOk, Load;
    ghost var first := machine.Snapshot(alloc);
    assert hs[0..] == hs;
    for i := 0 to |hs|
      invariant machine.Valid(alloc) && IsRoot(machine.place, root) && |machine.table.words| < MAX_FRAMES
      invariant LoadAll(machine.Snapshot(alloc), root, program, hs[i..]) == LoadAll(first, root, program, hs)
    {
      assert hs[i..][0] == hs[i] && hs[i..][1..] == hs[i + 1..];
      var ok := LoadSegment(machine, root, program, hs[i], alloc);
      if !ok {
        return false;
      }
    }
    return true;
  }

  /** `Process::load`, for loadable headers `hs`; `None` where the source panics. */
  method LoadProcessImage(machine: Machine, program: seq<Byte>, hs: seq<Segment>, stackPages: nat, offset: nat,
                          length: nat,
                          alloc: BumpAllocator) returns (root: Option<nat>)
    requires machine.Valid(alloc) && |machine.table.words| < MAX_FRAMES && IsTable(machine.mem, machine.current)
    modifies machine`mem, machine`place, machine.table, alloc
    ensures root.Some? <==>
            LoadProcess(old(machine.Snapshot(alloc)), machine.current, program, hs, stackPages, offset, length).Some?
    ensures root.Some? ==>
              && machine.Valid(alloc) && IsRoot(machine.place, root.value)
              && (machine.Snapshot(alloc), root.value) ==
                 LoadProcess(old(machine.Snapshot(alloc)), machine.current, program, hs, stackPages, offset, length).value
  {
    hide SpaceOk, LoadAll, MapStack, MapWindow, NewRoot, FindUntyped;
    if offset % PAGE_SIZE != 0 || length % PAGE_SIZE != 0 || offset + length >= HIGHER_HALF {
      return None;
    }
    var ok;
    root, ok := machine.NewAddressSpace(alloc);
    if !ok || root.None? {
      return None;
    }
    SpaceWords(machine.Snapshot(alloc), machine.kernel, machine.upper);
    var loaded := LoadSegments(machine, root.value, program, hs, alloc);
    if !loaded {
      return None;
    }
    var stacked := MapStackPages(machine, root.value, offset, stackPages, alloc);
    if !stacked {
      return None;
    }
    var windowed := MapWindowPages(machine, root.value, offset, length / PAGE_SIZE, alloc);
    if !windowed {
      return None;
    }
  }
}
