/**
 `map_to` with HUGE_PAGE among the parent flags (harmony/kernel/src/arch/x86_64/paging/page_table.rs).

 Nothing stops a caller from passing it, and no caller in the kernel does.  A level that is added
 then reads as a large page: the page asked for and its neighbours translate differently,
 whatever the call answers.  The lemmas say exactly when.
 */
module HugeParents {
  import opened Layout
  import opened Wrappers
  import opened RetypeTables
  import opened FrameAllocators
  import opened PageTableEntries
  import opened PageTables
  import opened AddressSpaces
  import R = RetypeEntries
  import VA = VirtualAddresses

  /** A page that was unmapped because a level was missing now meets the large entry that was added. */
  lemma {:induction false} LargeEntryShows(s: Space, kernel: KernelTables, upper: seq<Entry>, root: nat, t: nat,
                                           p: Path, d: nat, m: Mapping, added: Flags, via: seq<Flags>)
    requires Ready(s, kernel, upper, root, t, p, d, m, added)
    requires added.huge && LevelMissing(s.mem, t, p, d) && FindUntyped(s.words, s.cursor).Some?
    ensures Walk(s.mem, t, p, d, via) == Unmapped
    ensures var after := Walk(MapFrom(s, t, p, d, m, added).0.mem, t, p, d, via); after.Large? || after.Fault?
    decreases 4 - d
  {
    hide SpaceOk, OnlyTables, SameLow, SameAboveDepth;
    ReadyTable(s, kernel, upper, root, t, p, d, m, added);
    ReadyBelow(s, kernel, upper, root, t, p, d, m, added);
    var s' := MapFrom(s, t, p, d, m, added).0;
    match EntryAt(s.mem, t, p[d])
    case None =>
      var c := FindUntyped(s.words, s.cursor).value;
      var s1 := AddTable(s, t, p[d], c, added);
      MapKeeps(s1, kernel, upper, root, c, p, d + 1, m, added);
      TableKept(s1, s', d, t);
    case Some(x) =>
      LargeEntryShows(s, kernel, upper, root, x.frame, p, d + 1, m, added, via + [x.flags]);
      MapKeeps(s, kernel, upper, root, x.frame, p, d + 1, m, added);
      TableKept(s, s', d, t);
      WalkStep(s.mem, t, p, d, via, x);
      WalkStep(s'.mem, t, p, d, via, x);
  }

  /** Every page of every address space is as the one-key law says. */
  ghost predicate OneKeyHolds(s: Space, root: nat, page: VA.Usize, m: Mapping, parentFlags: Flags)
    requires |s.words| < MAX_FRAMES && ValidMapping(m) && ValidFlags(parentFlags)
  {
    forall r, a: VA.Usize :: IsRoot(s.place, r) && IsPage(a) ==>
      TranslateAddr(MapTo(s, root, page, m, parentFlags).0.mem, r, a) == OneKey(s, root, page, m, parentFlags, r, a)
  }

  /** The one-key law holds of a call, whatever its answer, if and only if it adds no large entry. */
  lemma {:induction false} OneKeyLaw(s: Space, kernel: KernelTables, upper: seq<Entry>,
                                     root: nat, page: VA.Usize, m: Mapping, parentFlags: Flags)
    requires SpaceOk(s, kernel, upper) && IsRoot(s.place, root) && IsPage(page) && VA.LowerHalf(page)
    requires ValidMapping(m) && ValidFlags(parentFlags)
    ensures |s.words| < MAX_FRAMES && (OneKeyHolds(s, root, page, m, parentFlags) <==> !AddsLarge(s, root, page, parentFlags))
  {
    hide SpaceOk, MapFrom, Walk, Upper, Probe, VA.Indices, LevelMissing;
    SpaceWords(s, kernel, upper);
    if AddsLarge(s, root, page, parentFlags) {
      ReadyAtRoot(s, kernel, upper, root, page, m, parentFlags);
      LargeEntryShows(s, kernel, upper, root, root, VA.Indices(page), 0, m, WithPresent(parentFlags), []);
      assert TranslateAddr(MapTo(s, root, page, m, parentFlags).0.mem, root, page) !=
             OneKey(s, root, page, m, parentFlags, root, page);
    } else {
      forall r, a: VA.Usize | IsRoot(s.place, r) && IsPage(a)
        ensures TranslateAddr(MapTo(s, root, page, m, parentFlags).0.mem, r, a) == OneKey(s, root, page, m, parentFlags, r, a)
      {
        MapToUpdatesOnePage(s, kernel, upper, root, page, m, parentFlags, r, a);
      }
    }
  }

  // A machine on which the law fails

  /** An empty boot table in frame 0, and one free frame. */
  function SmallMachine(): (s: Space) {
    Space(map[0 := TablePage(EmptyTable())], map[0 := Place(0, [])], [R.ValueFor(R.Kernel, 1), R.ValueFor(R.Untyped, 0)], 0)
  }

  const LARGE_FLAGS := Flags(true, false, false, true, false, 0, 0, 0)
  const PAGE_FLAGS := Flags(true, false, false, false, false, 0, 0, 0)

  lemma {:induction false} SmallMachineOk()
    ensures SpaceOk(SmallMachine(), map[], EmptyTable()[256..]) && IsRoot(SmallMachine().place, 0)
    ensures FindUntyped(SmallMachine().words, 0) == Some(1)
  {
    var s := SmallMachine();
    R.UnpackPack(R.Kernel, 1);
    R.UnpackPack(R.Untyped, 0);
    hide R.ValueFor, R.ValueInto;
    BootSpaceOk(s.mem, s.words, 0, map[]);
    assert FindUntyped(s.words, 0) == FindUntyped(s.words, 1) == Some(1);
  }

  lemma {:induction false} TwoPages()
    ensures VA.Indices(0) == [0, 0, 0, 0] && VA.Indices(0x4040_3000) == [0, 1, 2, 3]
  {
    VA.IndexAtLevel(0);
    VA.IndexAtLevel(0x4040_3000);
  }

  /**
   A call that fails for want of frames, and yet changes what two pages translate to: the one asked
   for and a neighbour.
   */
  lemma {:induction false} FailedCallChangesPages()
    ensures var s := SmallMachine();
            var (s', answer) := MapTo(s, 0, 0, Mapping(1, PAGE_FLAGS), LARGE_FLAGS);
            && answer == FrameAllocationError
            && TranslateAddr(s.mem, 0, 0) == Unmapped && TranslateAddr(s'.mem, 0, 0) == Fault
            && TranslateAddr(s.mem, 0, 0x4040_3000) == Unmapped && TranslateAddr(s'.mem, 0, 0x4040_3000) == Fault
  {
    hide VA.Indices, R.ValueInto, R.ValueFor, SpaceOk;
    var s := SmallMachine();
    var p: Path := [0, 0, 0, 0];
    SmallMachineOk();
    TwoPages();
    var s1 := AddTable(s, 0, 0, 1, LARGE_FLAGS);
    R.UnpackPack(R.Kernel, 1);
    assert FindUntyped(s1.words, 1) == None;
    assert MapFrom(s1, 1, p, 1, Mapping(1, PAGE_FLAGS), LARGE_FLAGS) == (s1.(cursor := 2), FrameAllocationError);
  }
}
