/**
 Building the first process (`Process::load` in harmony/kernel/src/arch/x86_64/bootup.rs): a new
 address space, the loadable segments, the stack below `offset` and the window onto physical
 memory above it.  Program headers are taken as already parsed, loadable ones only.
 */
module Processes {
  import opened Layout
  import opened Wrappers
  import opened RetypeTables
  import opened FrameAllocators
  import opened PageTableEntries
  import opened PageTables
  import opened AddressSpaces
  import opened Loaders
  import R = RetypeEntries
  import VA = VirtualAddresses

  const STACK_FLAGS := Flags(true, true, true, false, true, 0, 0, 0)
  const WINDOW_FLAGS := Flags(true, false, false, false, false, 0, 0, 0)

  /** The loop over program headers; `None` is a panic, as everywhere below. */
  function LoadAll(s: Space, root: nat, program: seq<Byte>, hs: seq<Segment>): (r: Option<Space>)
    requires |s.words| < MAX_FRAMES
    ensures r.Some? ==> |r.value.words| == |s.words|
    decreases |hs|
  {
    if hs == [] then Some(s) else
    var s1 := Load(s, root, program, hs[0]);
    if s1.None? then None else LoadAll(s1.value, root, program, hs[1..])
  }

  /** The stack loop from iteration `i` to `n`: page `i` lies `i + 1` pages below `top`. */
  function MapStack(s: Space, root: nat, top: VA.Usize, i: nat, n: nat): (r: Option<Space>)
    requires |s.words| < MAX_FRAMES
    ensures r.Some? ==> |r.value.words| == |s.words|
    decreases n - i
  {
    if i >= n then Some(s) else
    var found := FindUntyped(s.words, s.cursor);
    if found.None? || top < PAGE_SIZE * (i + 1) then None else
    var page: VA.Usize := top - PAGE_SIZE * (i + 1);
    if !VA.Canonical(page) then None else
    var (s1, answer) := MapUser(s, root, page, found.value, STACK_FLAGS);
    if answer != MapOk then None else MapStack(s1, root, top, i + 1, n)
  }

  /** The window loop from iteration `i` to `n`: page `i` above `offset` shows frame `i`, whatever its type. */
  function MapWindow(s: Space, root: nat, offset: nat, i: nat, n: nat): (r: Option<Space>)
    requires |s.words| < MAX_FRAMES && offset + PAGE_SIZE * n < VA.TWO64
    decreases n - i
  {
    if i >= n then Some(s) else
    var page: VA.Usize := offset + PAGE_SIZE * i;
    if i >= MAX_FRAMES || !VA.Canonical(page) then None else
    var (s1, answer) := MapTo(s, root, page, Mapping(i, WINDOW_FLAGS), WINDOW_FLAGS);
    if answer != MapOk then None else MapWindow(s1, root, offset, i + 1, n)
  }

  /** `Process::load`: the machine afterwards and the root of the new address space. */
  function LoadProcess(s: Space, current: nat, program: seq<Byte>, hs: seq<Segment>,
                       stackPages: nat, offset: nat, length: nat): (r: Option<(Space, nat)>)
    requires |s.words| < MAX_FRAMES && IsTable(s.mem, current)
  {
    if offset % PAGE_SIZE != 0 || length % PAGE_SIZE != 0 || offset + length >= HIGHER_HALF then None else
    var l4 := FindUntyped(s.words, s.cursor);
    if l4.None? || !Borrowable(s.words, current) then None else
    var s1 := NewRoot(s, current, l4.value).(cursor := l4.value);
    var s2 := LoadAll(s1, l4.value, program, hs);
    if s2.None? then None else
    var s3 := MapStack(s2.value, l4.value, offset, 0, stackPages);
    if s3.None? then None else
    var s4 := MapWindow(s3.value, l4.value, offset, 0, length / PAGE_SIZE);
    if s4.None? then None else Some((s4.value, l4.value))
  }

  // User pages

  /** Page `a`, not mapped in `s`, is mapped to a user frame that was free in `s`. */
  ghost predicate NewUser(s: Space, s': Space, root: nat, a: VA.Usize) {
    var f := FrameOf(s', root, a);
    && TranslateAddr(s'.mem, root, a).Mapped? && !TranslateAddr(s.mem, root, a).Mapped?
    && f < |s.words| == |s'.words| && IsUntyped(s.words, f) && R.ValueInto(s'.words[f]) == R.Entry(R.User, 1)
  }

  /** All pages at the addresses in `pages` are such, with a frame each. */
  ghost predicate AllUser(s: Space, s': Space, root: nat, pages: iset<nat>) {
    && (forall a: VA.Usize :: IsPage(a) && a in pages ==> NewUser(s, s', root, a))
    && (forall a: VA.Usize, b: VA.Usize :: IsPage(a) && IsPage(b) && a in pages && b in pages && a != b ==>
          FrameOf(s', root, a) != FrameOf(s', root, b))
  }

  lemma {:induction false} AllUserTwice(s: Space, s1: Space, s2: Space, root: nat, a: iset<nat>, b: iset<nat>)
    requires AllUser(s, s1, root, a) && AllUser(s1, s2, root, b) && IsRoot(s.place, root)
    requires Outside(s, s1, root, a) && Outside(s1, s2, root, b)
    requires forall x: VA.Usize :: IsPage(x) && x in a ==> x !in b
    ensures AllUser(s, s2, root, a + b)
  {
  }

  /** What was mapped before and what is mapped after lie apart, because mapping a mapped page fails. */
  lemma {:induction false} Apart(s: Space, s1: Space, s2: Space, root: nat, a: iset<nat>, b: iset<nat>)
    requires AllUser(s, s1, root, a) && AllUser(s1, s2, root, b)
    ensures forall x: VA.Usize :: IsPage(x) && x in a ==> x !in b
  {
  }

  // The loops

  ghost function SegmentPages(hs: seq<Segment>): (r: iset<nat>) {
    if hs == [] then iset{} else Pages(hs[0]) + SegmentPages(hs[1..])
  }

  lemma {:induction false} TouchedIffInPages(h: Segment, a: VA.Usize)
    requires IsPage(a)
    ensures Touched(h, a) <==> a in Pages(h)
  {
  }

  lemma {:induction false} LoadMakesUserPages(s: Space, kernel: KernelTables, upper: seq<Entry>, root: nat,
                                              program: seq<Byte>, h: Segment)
    requires SpaceOk(s, kernel, upper) && IsRoot(s.place, root) && Load(s, root, program, h).Some?
    ensures var s' := Load(s, root, program, h).value;
            && SpaceOk(s', kernel, upper) && IsRoot(s'.place, root)
            && Outside(s, s', root, Pages(h)) && AllUser(s, s', root, Pages(h)) && SegmentLoaded(s', root, program, h)
  {
    hide SpaceOk, Outside, Load, TranslateAddr, Pages, Touched, ImageByte;
    SpaceWords(s, kernel, upper);
    LoadBuildsImage(s, kernel, upper, root, program, h);
    var s' := Load(s, root, program, h).value;
    KeptRoot(s, s', root, Pages(h));
    forall a: VA.Usize | IsPage(a) && a in Pages(h) ensures Touched(h, a) && NewUser(s, s', root, a) {
      TouchedIffInPages(h, a);
      assert NewlyLoaded(s, s', root, program, h, a);
    }
  }

  /** Every page of the segment holds its part of the image. */
  ghost predicate SegmentLoaded(s: Space, root: nat, program: seq<Byte>, h: Segment) {
    Loadable(program, h) && forall a: VA.Usize :: Touched(h, a) ==> PageLoaded(s, root, program, h, a)
  }

  lemma {:induction false} SegmentStays(s1: Space, s2: Space, kernel: KernelTables, upper: seq<Entry>, root: nat,
                                        program: seq<Byte>,
                     h: Segment, later: iset<nat>)
    requires SpaceOk(s1, kernel, upper) && IsRoot(s1.place, root) && SegmentLoaded(s1, root, program, h)
    requires Outside(s1, s2, root, later) && forall a: VA.Usize :: IsPage(a) && a in Pages(h) ==> a !in later
    ensures SegmentLoaded(s2, root, program, h)
  {
    hide SpaceOk, Outside, PageLoaded, Pages;
    forall a: VA.Usize | Touched(h, a) ensures PageLoaded(s2, root, program, h, a) {
      TouchedIffInPages(h, a);
      PageStays(s1, s2, kernel, upper, root, program, h, a, later);
    }
  }

  lemma {:induction false} NoUserPages(s: Space, root: nat)
    ensures Outside(s, s, root, iset{}) && AllUser(s, s, root, iset{})
  {
  }

  lemma {:induction false} LoadAllOk(s: Space, kernel: KernelTables, upper: seq<Entry>, root: nat,
                                     program: seq<Byte>, hs: seq<Segment>)
    requires SpaceOk(s, kernel, upper) && IsRoot(s.place, root) && LoadAll(s, root, program, hs).Some?
    ensures var s' := LoadAll(s, root, program, hs).value;
            && SpaceOk(s', kernel, upper) && IsRoot(s'.place, root)
            && Outside(s, s', root, SegmentPages(hs)) && AllUser(s, s', root, SegmentPages(hs))
            && forall i :: 0 <= i < |hs| ==> SegmentLoaded(s', root, program, hs[i])
    decreases |hs|
  {
    hide SpaceOk, Outside, AllUser, SegmentLoaded, Load, Pages;
    if hs == [] {
      NoUserPages(s, root);
    } else {
      SpaceWords(s, kernel, upper);
      LoadMakesUserPages(s, kernel, upper, root, program, hs[0]);
      var s1 := Load(s, root, program, hs[0]).value;
      var s' := LoadAll(s, root, program, hs).value;
      var rest := SegmentPages(hs[1..]);
      LoadAllOk(s1, kernel, upper, root, program, hs[1..]);
      Apart(s, s1, s', root, Pages(hs[0]), rest);
      OutsideTwice(s, s1, s', root, Pages(hs[0]), rest);
      AllUserTwice(s, s1, s', root, Pages(hs[0]), rest);
      SegmentStays(s1, s', kernel, upper, root, program, hs[0], rest);
      assert forall i :: 1 <= i < |hs| ==> hs[i] == hs[1..][i - 1];
    }
  }

  /** Every page at the addresses in `pages` is mapped with `flags`. */
  ghost predicate MappedWith(s: Space, root: nat, pages: iset<nat>, flags: Flags) {
    forall a: VA.Usize :: IsPage(a) && a in pages ==>
                            TranslateAddr(s.mem, root, a).Mapped? && TranslateAddr(s.mem, root, a).flags == flags
  }

  /** The stack from iteration `i` to `n`. */
  ghost function StackPages(top: nat, i: nat, n: nat): (r: iset<nat>) {
    var low, high := top - PAGE_SIZE * n, top - PAGE_SIZE * i;
    iset a: nat | Between(low, high, a)
  }

  lemma {:induction false} OnePage(page: VA.Usize)
    requires page % PAGE_SIZE == 0
    ensures forall a: VA.Usize :: IsPage(a) && a in Span(page, page + PAGE_SIZE) ==> a == page
  {
  }

  /** One stack page. */
  lemma {:induction false} StackPageOk(s: Space, kernel: KernelTables, upper: seq<Entry>, root: nat, page: VA.Usize,
                                       f: nat)
    requires SpaceOk(s, kernel, upper) && IsRoot(s.place, root) && IsPage(page) && VA.LowerHalf(page)
    requires f < |s.words| && IsUntyped(s.words, f) && MapUser(s, root, page, f, STACK_FLAGS).1 == MapOk
    ensures var s' := MapUser(s, root, page, f, STACK_FLAGS).0;
            && SpaceOk(s', kernel, upper) && IsRoot(s'.place, root)
            && Outside(s, s', root, Span(page, page + PAGE_SIZE)) && AllUser(s, s', root, Span(page, page + PAGE_SIZE))
            && MappedWith(s', root, Span(page, page + PAGE_SIZE), STACK_FLAGS)
  {
    hide SpaceOk, Outside, TranslateAddr, MapUser, Span, IsUntyped;
    OnePage(page);
    SpaceWords(s, kernel, upper);
    MapUserOk(s, kernel, upper, root, page, f, STACK_FLAGS);
    var s' := MapUser(s, root, page, f, STACK_FLAGS).0;
    KeptRoot(s, s', root, Span(page, page + PAGE_SIZE));
  }

  lemma {:induction false} MappedStays(s1: Space, s2: Space, root: nat, now: iset<nat>, later: iset<nat>, flags: Flags)
    requires MappedWith(s1, root, now, flags) && MappedWith(s2, root, later, flags)
    requires Outside(s1, s2, root, later) && IsRoot(s1.place, root)
    ensures MappedWith(s2, root, now + later, flags)
  {
  }

  lemma {:induction false} MapStackOk(s: Space, kernel: KernelTables, upper: seq<Entry>, root: nat, top: VA.Usize,
                                      i: nat, n: nat)
    requires SpaceOk(s, kernel, upper) && IsRoot(s.place, root) && MapStack(s, root, top, i, n).Some?
    requires top % PAGE_SIZE == 0 && top < HIGHER_HALF
    ensures var s' := MapStack(s, root, top, i, n).value;
            && SpaceOk(s', kernel, upper) && IsRoot(s'.place, root)
            && Outside(s, s', root, StackPages(top, i, n)) && AllUser(s, s', root, StackPages(top, i, n))
            && MappedWith(s', root, StackPages(top, i, n), STACK_FLAGS)
    decreases n - i
  {
    hide SpaceOk, Outside, AllUser, MappedWith, MapUser;
    SpaceWords(s, kernel, upper);
    var pages := StackPages(top, i, n);
    if i >= n {
      OutsideItself(s, root, pages);
      NoPages(s, root, pages, STACK_FLAGS);
    } else {
      var page: VA.Usize := top - PAGE_SIZE * (i + 1);
      var f := FindUntyped(s.words, s.cursor).value;
      var s1 := MapUser(s, root, page, f, STACK_FLAGS).0;
      var s' := MapStack(s, root, top, i, n).value;
      StackPageOk(s, kernel, upper, root, page, f);
      MapStackOk(s1, kernel, upper, root, top, i + 1, n);
      var here, rest := Span(page, page + PAGE_SIZE), StackPages(top, i + 1, n);
      Apart(s, s1, s', root, here, rest);
      OutsideTwice(s, s1, s', root, here, rest);
      AllUserTwice(s, s1, s', root, here, rest);
      MappedStays(s1, s', root, here, rest, STACK_FLAGS);
      assert here + rest == pages;
    }
  }

  lemma {:induction false} NoPages(s: Space, root: nat, pages: iset<nat>, flags: Flags)
    requires forall a: VA.Usize :: a !in pages
    ensures AllUser(s, s, root, pages) && MappedWith(s, root, pages, flags)
  {
  }

  /** Every window page shows the frame at its own distance from `offset`. */
  ghost predicate WindowMapped(s: Space, root: nat, offset: nat, pages: iset<nat>) {
    forall a: VA.Usize :: IsPage(a) && a in pages ==>
                            && TranslateAddr(s.mem, root, a).Mapped? && TranslateAddr(s.mem, root, a).flags == WINDOW_FLAGS
                            && PAGE_SIZE * TranslateAddr(s.mem, root, a).frame == a - offset
  }

  ghost predicate NoneMapped(s: Space, root: nat, pages: iset<nat>) {
    forall a: VA.Usize :: IsPage(a) && a in pages ==> !TranslateAddr(s.mem, root, a).Mapped?
  }

  lemma {:induction false} WindowPageOk(s: Space, kernel: KernelTables, upper: seq<Entry>, root: nat, offset: nat,
                                        page: VA.Usize, i: nat)
    requires SpaceOk(s, kernel, upper) && IsRoot(s.place, root) && IsPage(page) && VA.LowerHalf(page)
    requires i < MAX_FRAMES && page == offset + PAGE_SIZE * i
    requires MapTo(s, root, page, Mapping(i, WINDOW_FLAGS), WINDOW_FLAGS).1 == MapOk
    ensures var s' := MapTo(s, root, page, Mapping(i, WINDOW_FLAGS), WINDOW_FLAGS).0;
            && SpaceOk(s', kernel, upper) && IsRoot(s'.place, root)
            && Outside(s, s', root, Span(page, page + PAGE_SIZE))
            && WindowMapped(s', root, offset, Span(page, page + PAGE_SIZE)) && NoneMapped(s, root, Span(page, page + PAGE_SIZE))
  {
    hide SpaceOk, MapTo, TranslateAddr, Outside, OnlyTables, Span, Upper, VA.Indices, Probe;
    OnePage(page);
    var m := Mapping(i, WINDOW_FLAGS);
    MappedPageIsHit(s.mem, root, page);
    SpaceWords(s, kernel, upper);
    MapOutside(s, kernel, upper, root, page, m);
    MapToKeeps(s, kernel, upper, root, page, m, WINDOW_FLAGS);
    MapToUpdatesOnePage(s, kernel, upper, root, page, m, WINDOW_FLAGS, root, page);
    KeptRoot(s, MapTo(s, root, page, m, WINDOW_FLAGS).0, root, Span(page, page + PAGE_SIZE));
  }

  lemma {:induction false} MapOutside(s: Space, kernel: KernelTables, upper: seq<Entry>, root: nat, page: VA.Usize,
                                      m: Mapping)
    requires SpaceOk(s, kernel, upper) && IsRoot(s.place, root) && IsPage(page) && VA.LowerHalf(page) && ValidMapping(m)
    ensures Outside(s, MapTo(s, root, page, m, WINDOW_FLAGS).0, root, Span(page, page + PAGE_SIZE))
  {
    hide SpaceOk, MapTo, TranslateAddr, R.ValueInto, Upper, Probe, UntypedFrom;
    SpaceWords(s, kernel, upper);
    var s' := MapTo(s, root, page, m, WINDOW_FLAGS).0;
    forall r, b: VA.Usize | IsRoot(s.place, r) && IsPage(b) && !(r == root && b in Span(page, page + PAGE_SIZE))
      ensures TranslateAddr(s'.mem, r, b) == TranslateAddr(s.mem, r, b)
    {
      MapToUpdatesOnePage(s, kernel, upper, root, page, m, WINDOW_FLAGS, r, b);
    }
    MapToKeeps(s, kernel, upper, root, page, m, WINDOW_FLAGS);
  }

  lemma {:induction false} WindowTwice(s: Space, s1: Space, s2: Space, root: nat, offset: nat, now: iset<nat>,
                                       later: iset<nat>)
    requires IsRoot(s.place, root) && Outside(s, s1, root, now) && Outside(s1, s2, root, later)
    requires WindowMapped(s1, root, offset, now) && NoneMapped(s, root, now)
    requires WindowMapped(s2, root, offset, later) && NoneMapped(s1, root, later)
    ensures WindowMapped(s2, root, offset, now + later) && NoneMapped(s, root, now + later)
  {
  }

  lemma {:induction false} MapWindowOk(s: Space, kernel: KernelTables, upper: seq<Entry>, root: nat, offset: nat,
                                       i: nat, n: nat)
    requires SpaceOk(s, kernel, upper) && IsRoot(s.place, root) && i <= n
    requires offset % PAGE_SIZE == 0 && offset + PAGE_SIZE * n < HIGHER_HALF && MapWindow(s, root, offset, i, n).Some?
    ensures var s' := MapWindow(s, root, offset, i, n).value;
            var pages := Span(offset + PAGE_SIZE * i, offset + PAGE_SIZE * n);
            && SpaceOk(s', kernel, upper) && IsRoot(s'.place, root) && Outside(s, s', root, pages)
            && WindowMapped(s', root, offset, pages) && NoneMapped(s, root, pages)
    decreases n - i
  {
    hide SpaceOk, Outside, WindowMapped, NoneMapped, MapTo;
    SpaceWords(s, kernel, upper);
    var pages := Span(offset + PAGE_SIZE * i, offset + PAGE_SIZE * n);
    if i >= n {
      OutsideItself(s, root, pages);
      NoWindow(s, root, offset, pages);
    } else {
      var page: VA.Usize := offset + PAGE_SIZE * i;
      var s1 := MapTo(s, root, page, Mapping(i, WINDOW_FLAGS), WINDOW_FLAGS).0;
      var s' := MapWindow(s, root, offset, i, n).value;
      WindowPageOk(s, kernel, upper, root, offset, page, i);
      MapWindowOk(s1, kernel, upper, root, offset, i + 1, n);
      var here, rest := Span(page, page + PAGE_SIZE), Span(page + PAGE_SIZE, offset + PAGE_SIZE * n);
      OutsideTwice(s, s1, s', root, here, rest);
      WindowTwice(s, s1, s', root, offset, here, rest);
      assert here + rest == pages;
    }
  }

  lemma {:induction false} NoWindow(s: Space, root: nat, offset: nat, pages: iset<nat>)
    requires forall a: VA.Usize :: a !in pages
    ensures WindowMapped(s, root, offset, pages) && NoneMapped(s, root, pages)
  {
  }

  // The whole process

  /** The pages in `pages` are mapped to user frames that were free in `s0`, a frame each. */
  ghost predicate OwnFrames(s0: Space, s: Space, root: nat, pages: iset<nat>) {
    && (forall a: VA.Usize :: IsPage(a) && a in pages ==>
          TranslateAddr(s.mem, root, a).Mapped? && OwnFrame(s0, s, FrameOf(s, root, a)))
    && (forall a: VA.Usize, b: VA.Usize :: IsPage(a) && IsPage(b) && a in pages && b in pages && a != b ==>
          FrameOf(s, root, a) != FrameOf(s, root, b))
  }

  /** A user frame with one reference that was free in `s0`. */
  predicate OwnFrame(s0: Space, s: Space, f: nat) {
    f < |s0.words| && f < |s.words| && IsUntyped(s0.words, f) && R.ValueInto(s.words[f]) == R.Entry(R.User, 1)
  }

  lemma {:induction false} PagesOfSegment(hs: seq<Segment>, i: nat, a: nat)
    requires i < |hs| && a in Pages(hs[i])
    ensures a in SegmentPages(hs)
    decreases |hs|
  {
    if i > 0 {
      PagesOfSegment(hs[1..], i - 1, a);
    }
  }

  /** Pages mapped by now are not among pages that are free by now. */
  lemma {:induction false} FreeApart(s1: Space, s3: Space, root: nat, used: iset<nat>, free: iset<nat>)
    requires AllUser(s1, s3, root, used) && NoneMapped(s3, root, free)
    ensures forall a: VA.Usize :: IsPage(a) && a in used ==> a !in free
  {
  }

  lemma {:induction false} FramesStay(s1: Space, s3: Space, s4: Space, root: nat, used: iset<nat>, later: iset<nat>)
    requires AllUser(s1, s3, root, used) && Outside(s3, s4, root, later) && IsRoot(s3.place, root)
    requires forall a: VA.Usize :: IsPage(a) && a in used ==> a !in later
    ensures OwnFrames(s1, s4, root, used)
  {
  }

  lemma {:induction false} FlagsStay(s3: Space, s4: Space, root: nat, pages: iset<nat>, later: iset<nat>, flags: Flags)
    requires MappedWith(s3, root, pages, flags) && Outside(s3, s4, root, later) && IsRoot(s3.place, root)
    requires forall a: VA.Usize :: IsPage(a) && a in pages ==> a !in later
    ensures MappedWith(s4, root, pages, flags)
  {
  }

  // Upper-level flags

  lemma {:induction false} LoadAllKeepsLevels(s: Space, kernel: KernelTables, upper: seq<Entry>, root: nat,
                                              program: seq<Byte>, hs: seq<Segment>)
    requires SpaceOk(s, kernel, upper) && IsRoot(s.place, root) && LoadAll(s, root, program, hs).Some?
    requires AllLevels(s, root, USER_LEVEL)
    ensures AllLevels(LoadAll(s, root, program, hs).value, root, USER_LEVEL)
    decreases |hs|
  {
    hide SpaceOk, Outside, AllUser, SegmentLoaded, LoadFrom, Pages, AllLevels;
    if hs != [] {
      SpaceWords(s, kernel, upper);
      LoadMakesUserPages(s, kernel, upper, root, program, hs[0]);
      LoadFromKeepsLevels(s, kernel, upper, root, program, hs[0], hs[0].vaddr, hs[0].offset);
      LoadAllKeepsLevels(Load(s, root, program, hs[0]).value, kernel, upper, root, program, hs[1..]);
    }
  }

  lemma {:induction false} MapStackKeepsLevels(s: Space, kernel: KernelTables, upper: seq<Entry>, root: nat,
                                               top: VA.Usize, i: nat, n: nat)
    requires SpaceOk(s, kernel, upper) && IsRoot(s.place, root) && MapStack(s, root, top, i, n).Some?
    requires top % PAGE_SIZE == 0 && top < HIGHER_HALF && AllLevels(s, root, USER_LEVEL)
    ensures AllLevels(MapStack(s, root, top, i, n).value, root, USER_LEVEL)
    decreases n - i
  {
    hide SpaceOk, Outside, AllUser, MappedWith, MapUser, AllLevels;
    SpaceWords(s, kernel, upper);
    if i < n {
      var page: VA.Usize := top - PAGE_SIZE * (i + 1);
      var f := FindUntyped(s.words, s.cursor).value;
      StackPageOk(s, kernel, upper, root, page, f);
      MapUserKeepsLevels(s, kernel, upper, root, page, f, STACK_FLAGS);
      MapStackKeepsLevels(MapUser(s, root, page, f, STACK_FLAGS).0, kernel, upper, root, top, i + 1, n);
    }
  }

  /** Pages reached through three levels that let user code read and write, so that the leaf flags decide. */
  ghost predicate ThroughUserLevels(s: Space, root: nat, pages: iset<nat>) {
    forall a: VA.Usize :: IsPage(a) && a in pages ==> RightsOfLeaf(TranslateAddr(s.mem, root, a))
  }

  predicate RightsOfLeaf(t: Translation) {
    && t.Mapped? && t.via == Repeat(3, USER_LEVEL)
    && (CanUse(t) <==> t.flags.user) && (CanWrite(t) <==> t.flags.writable) && (CanExecute(t) <==> !t.flags.noExecute)
  }

  lemma {:induction false} UserLevels(s: Space, s1: Space, kernel: KernelTables, upper: seq<Entry>, root: nat,
                                      pages: iset<nat>)
    requires SpaceOk(s1, kernel, upper) && IsRoot(s1.place, root)
    requires AllLevels(s1, root, USER_LEVEL) && AllUser(s, s1, root, pages)
    requires forall a: VA.Usize :: IsPage(a) && !VA.LowerHalf(a) ==> a !in pages
    ensures ThroughUserLevels(s1, root, pages)
  {
    hide KernelOk, SameUpper, KernelOwned, AllLevels;
    forall a: VA.Usize | IsPage(a) && a in pages ensures RightsOfLeaf(TranslateAddr(s1.mem, root, a)) {
      assert NewUser(s, s1, root, a);
      HalfOf(a);
      LevelsAreVia(s1, root, root, VA.Indices(a), 0, USER_LEVEL, []);
      assert [] + Repeat(3, USER_LEVEL) == Repeat(3, USER_LEVEL);
      LeafDecides(TranslateAddr(s1.mem, root, a));
    }
  }

  lemma {:induction false} LevelsStay(s3: Space, s4: Space, root: nat, pages: iset<nat>, later: iset<nat>)
    requires ThroughUserLevels(s3, root, pages) && Outside(s3, s4, root, later) && IsRoot(s3.place, root)
    requires forall a: VA.Usize :: IsPage(a) && a in pages ==> a !in later
    ensures ThroughUserLevels(s4, root, pages)
  {
  }

  /** Everything the three loops leave behind, given the fresh address space they start from. */
  lemma {:induction false} LoopsOk(s1: Space, kernel: KernelTables, upper: seq<Entry>, root: nat, program: seq<Byte>,
                                   hs: seq<Segment>,
                stackPages: nat, offset: nat, length: nat, s2: Space, s3: Space, s4: Space)
    requires SpaceOk(s1, kernel, upper) && IsRoot(s1.place, root) && |s1.words| == |s2.words| == |s3.words| < MAX_FRAMES
    requires offset % PAGE_SIZE == 0 && length % PAGE_SIZE == 0 && offset + length < HIGHER_HALF
    requires LoadAll(s1, root, program, hs) == Some(s2) && MapStack(s2, root, offset, 0, stackPages) == Some(s3)
    requires MapWindow(s3, root, offset, 0, length / PAGE_SIZE) == Some(s4) && AllLevels(s1, root, USER_LEVEL)
    ensures ThroughUserLevels(s4, root, SegmentPages(hs) + StackPages(offset, 0, stackPages))
    ensures SpaceOk(s4, kernel, upper) && IsRoot(s4.place, root)
    ensures forall i :: 0 <= i < |hs| ==> SegmentLoaded(s4, root, program, hs[i])
    ensures MappedWith(s4, root, StackPages(offset, 0, stackPages), STACK_FLAGS)
    ensures WindowMapped(s4, root, offset, Span(offset, offset + length))
    ensures OwnFrames(s1, s4, root, SegmentPages(hs) + StackPages(offset, 0, stackPages))
    ensures Outside(s1, s4, root, SegmentPages(hs) + StackPages(offset, 0, stackPages) + Span(offset, offset + length))
  {
    hide SpaceOk, Outside, AllUser, SegmentLoaded, MappedWith, WindowMapped, NoneMapped, OwnFrames, LoadAll, MapStack, MapWindow,
         AllLevels, ThroughUserLevels;
    var segments, stack, window := SegmentPages(hs), StackPages(offset, 0, stackPages), Span(offset, offset + length);
    LoadAllOk(s1, kernel, upper, root, program, hs);
    MapStackOk(s2, kernel, upper, root, offset, 0, stackPages);
    assert offset + PAGE_SIZE * (length / PAGE_SIZE) == offset + length;
    MapWindowOk(s3, kernel, upper, root, offset, 0, length / PAGE_SIZE);
    Apart(s1, s2, s3, root, segments, stack);
    AllUserTwice(s1, s2, s3, root, segments, stack);
    OutsideTwice(s1, s2, s3, root, segments, stack);
    OutsideTwice(s1, s3, s4, root, segments + stack, window);
    FreeApart(s1, s3, root, segments + stack, window);
    FramesStay(s1, s3, s4, root, segments + stack, window);
    FlagsStay(s3, s4, root, stack, window, STACK_FLAGS);
    LoadAllKeepsLevels(s1, kernel, upper, root, program, hs);
    MapStackKeepsLevels(s2, kernel, upper, root, offset, 0, stackPages);
    AllPagesLow(s2, root, program, hs, stackPages, offset, 0);
    UserLevels(s1, s3, kernel, upper, root, segments + stack);
    LevelsStay(s3, s4, root, segments + stack, window);
    forall i | 0 <= i < |hs| ensures SegmentLoaded(s4, root, program, hs[i]) {
      forall a: VA.Usize | IsPage(a) && a in Pages(hs[i]) ensures a in segments {
        PagesOfSegment(hs, i, a);
      }
      SegmentStays(s2, s3, kernel, upper, root, program, hs[i], stack);
      SegmentStays(s3, s4, kernel, upper, root, program, hs[i], window);
    }
  }

  /** No lower-half page outside `pages` is mapped. */
  ghost predicate NothingElse(s: Space, root: nat, pages: iset<nat>) {
    forall a: VA.Usize :: IsPage(a) && VA.LowerHalf(a) && a !in pages ==> TranslateAddr(s.mem, root, a) == Unmapped
  }

  /** Higher-half pages translate from `root'` as they do from `root`. */
  ghost predicate KernelHalf(s: Space, root: nat, s': Space, root': nat) {
    forall a: VA.Usize :: IsPage(a) && !VA.LowerHalf(a) ==> TranslateAddr(s'.mem, root', a) == TranslateAddr(s.mem, root, a)
  }

  /** Every address space of `s` is in `s'` as it was. */
  ghost predicate SpacesKept(s: Space, s': Space) {
    forall r, a: VA.Usize :: IsRoot(s.place, r) && IsPage(a) ==>
                               IsRoot(s'.place, r) && TranslateAddr(s'.mem, r, a) == TranslateAddr(s.mem, r, a)
  }

  /** Memory that holds data, of whatever type its frame is, keeps its contents. */
  ghost predicate DataKept(s: Space, s': Space) {
    forall f :: f in s.mem && f < |s.words| && !IsUntyped(s.words, f) && f !in s.place ==> f in s'.mem && s'.mem[f] == s.mem[f]
  }

  /** User code may use every page of the segment, write it and execute it as the program header says. */
  ghost predicate SegmentRights(s: Space, root: nat, h: Segment) {
    forall a: VA.Usize :: Touched(h, a) ==>
      var t := TranslateAddr(s.mem, root, a);
      t.Mapped? && CanUse(t) && (CanWrite(t) <==> h.writable) && (CanExecute(t) <==> h.executable)
  }

  /** User code may read and write the stack, and not execute it. */
  ghost predicate StackRights(s: Space, root: nat, pages: iset<nat>) {
    forall a: VA.Usize :: IsPage(a) && a in pages ==>
      var t := TranslateAddr(s.mem, root, a);
      t.Mapped? && CanUse(t) && CanWrite(t) && !CanExecute(t) && t.flags.present && !t.flags.huge
  }

  /** The window is the kernel's, and read-only. */
  ghost predicate WindowRights(s: Space, root: nat, pages: iset<nat>) {
    forall a: VA.Usize :: IsPage(a) && a in pages ==>
      var t := TranslateAddr(s.mem, root, a);
      t.Mapped? && !CanUse(t) && !CanWrite(t) && t.flags == WithPresent(NO_FLAGS)
  }

  lemma {:induction false} AllRights(s: Space, root: nat, program: seq<Byte>, hs: seq<Segment>, stack: iset<nat>,
                                     offset: nat, window: iset<nat>)
    requires forall i :: 0 <= i < |hs| ==> SegmentLoaded(s, root, program, hs[i])
    requires MappedWith(s, root, stack, STACK_FLAGS) && WindowMapped(s, root, offset, window)
    requires ThroughUserLevels(s, root, SegmentPages(hs) + stack)
    ensures forall i :: 0 <= i < |hs| ==> SegmentRights(s, root, hs[i])
    ensures StackRights(s, root, stack) && WindowRights(s, root, window)
  {
    hide TranslateAddr, CanUse, CanWrite, CanExecute, Pages;
    forall i | 0 <= i < |hs| ensures SegmentRights(s, root, hs[i]) {
      forall a: VA.Usize | Touched(hs[i], a) ensures RightsOfLeaf(TranslateAddr(s.mem, root, a)) {
        TouchedIffInPages(hs[i], a);
        PagesOfSegment(hs, i, a);
      }
      assert SegmentLoaded(s, root, program, hs[i]);
    }
    forall a: VA.Usize | IsPage(a) && a in stack ensures RightsOfLeaf(TranslateAddr(s.mem, root, a)) {
    }
    WindowIsKernels(s, root, offset, window);
  }

  lemma {:induction false} WindowIsKernels(s: Space, root: nat, offset: nat, window: iset<nat>)
    requires WindowMapped(s, root, offset, window)
    ensures WindowRights(s, root, window)
  {
    hide TranslateAddr;
  }

  /** Isolation: whatever user code can reach in its half lies in user frames that were free before. */
  ghost predicate OnlyOwnFrames(s: Space, s': Space, root: nat) {
    forall a: VA.Usize :: IsPage(a) && VA.LowerHalf(a) ==>
      var t := TranslateAddr(s'.mem, root, a);
      t == Unmapped || (t.Mapped? && (CanUse(t) ==> OwnFrame(s, s', t.frame)))
  }

  lemma {:induction false} UserReachesOwn(s: Space, s': Space, root: nat, offset: nat, own: iset<nat>,
                                          window: iset<nat>)
    requires OwnFrames(s, s', root, own) && WindowMapped(s', root, offset, window) && NothingElse(s', root, own + window)
    ensures OnlyOwnFrames(s, s', root)
  {
    hide TranslateAddr;
  }

  /** What was free once the new root was made was free before. */
  lemma {:induction false} FreeBefore(s: Space, s1: Space, s4: Space, current: nat, root: nat, pages: iset<nat>)
    requires IsTable(s.mem, current) && root < |s.words| && s1 == NewRoot(s, current, root).(cursor := root)
    requires OwnFrames(s1, s4, root, pages)
    ensures OwnFrames(s, s4, root, pages)
  {
    R.UnpackPack(R.Kernel, 1);
    hide TranslateAddr, R.ValueInto, R.ValueFor;
  }

  lemma {:induction false} DataKeptTwice(s: Space, s1: Space, s4: Space, root: nat, pages: iset<nat>)
    requires DataKept(s, s1) && Outside(s1, s4, root, pages) && |s1.words| == |s.words|
    requires forall f :: 0 <= f < |s.words| && IsUntyped(s1.words, f) ==> IsUntyped(s.words, f)
    requires forall t :: t in s1.place && t !in s.place ==> t < |s.words| && IsUntyped(s.words, t)
    ensures DataKept(s, s4)
  {
    hide TranslateAddr;
  }

  lemma {:induction false} LoopsKeepTheRest(s: Space, s1: Space, s4: Space, current: nat, root: nat, pages: iset<nat>)
    requires Outside(s1, s4, root, pages) && IsRoot(s1.place, root) && !IsRoot(s.place, root)
    requires NothingElse(s1, root, iset{}) && KernelHalf(s, current, s1, root) && SpacesKept(s, s1)
    requires forall a: VA.Usize :: IsPage(a) && !VA.LowerHalf(a) ==> a !in pages
    ensures NothingElse(s4, root, pages) && KernelHalf(s, current, s4, root) && SpacesKept(s, s4)
  {
  }

  lemma {:induction false} AllPagesLow(s: Space, root: nat, program: seq<Byte>, hs: seq<Segment>, stackPages: nat,
                                       offset: nat, length: nat)
    requires (forall i :: 0 <= i < |hs| ==> SegmentLoaded(s, root, program, hs[i])) && offset + length < HIGHER_HALF
    ensures forall a: VA.Usize :: IsPage(a) && !VA.LowerHalf(a) ==>
                                    a !in SegmentPages(hs) + StackPages(offset, 0, stackPages) + Span(offset, offset + length)
  {
    hide SegmentLoaded;
    forall a: VA.Usize | IsPage(a) && !VA.LowerHalf(a) ensures a !in SegmentPages(hs) {
      SegmentsAreLow(s, root, program, hs, a);
    }
  }

  /**
   `Process::load` builds exactly the address space it is meant to.  If it completes, then in the new
   address space every segment's pages hold its image with its rights, the stack pages are
   writable, user and never executable, window page k shows frame k to the kernel only, no other
   lower-half page is mapped, and the higher half is the kernel's.  Segments and stack do not share a
   frame, and the levels above their pages take no right away that the leaf gives.
   User code reaches only frames that were free before.  Every address space that existed before is
   as it was, and so is all data in memory.
   */
  lemma {:induction false} ProcessImage(s: Space, kernel: KernelTables, upper: seq<Entry>, current: nat,
                                        program: seq<Byte>, hs: seq<Segment>,
                                        stackPages: nat, offset: nat, length: nat)
    requires SpaceOk(s, kernel, upper) && IsRoot(s.place, current) && IsTable(s.mem, current)
    requires LoadProcess(s, current, program, hs, stackPages, offset, length).Some?
    ensures var (s', root) := LoadProcess(s, current, program, hs, stackPages, offset, length).value;
            var segments, stack, window := SegmentPages(hs), StackPages(offset, 0, stackPages), Span(offset, offset + length);
            && SpaceOk(s', kernel, upper) && IsRoot(s'.place, root) && !IsRoot(s.place, root)
            && (forall i :: 0 <= i < |hs| ==> SegmentLoaded(s', root, program, hs[i]))
            && MappedWith(s', root, stack, STACK_FLAGS) && WindowMapped(s', root, offset, window)
            && OwnFrames(s, s', root, segments + stack) && ThroughUserLevels(s', root, segments + stack)
            && NothingElse(s', root, segments + stack + window)
            && (forall i :: 0 <= i < |hs| ==> SegmentRights(s', root, hs[i]))
            && StackRights(s', root, stack) && WindowRights(s', root, window) && OnlyOwnFrames(s, s', root)
            && KernelHalf(s, current, s', root) && SpacesKept(s, s') && DataKept(s, s')
  {
    var root := FindUntyped(s.words, s.cursor).value;
    var s1 := NewRoot(s, current, root).(cursor := root);
    var s2 := LoadAll(s1, root, program, hs).value;
    var s3 := MapStack(s2, root, offset, 0, stackPages).value;
    var s4 := MapWindow(s3, root, offset, 0, length / PAGE_SIZE).value;
    NewSpaceOk(s, kernel, upper, current, root);
    hide SpaceOk, Outside, SegmentLoaded, MappedWith, WindowMapped, OwnFrames, NothingElse, KernelHalf, SpacesKept,
         AllLevels, ThroughUserLevels, OnlyOwnFrames, DataKept, NewRoot, LoadAll, MapStack, MapWindow,
         SegmentPages, StackPages, Span, SegmentRights, StackRights, WindowRights;
    LoopsOk(s1, kernel, upper, root, program, hs, stackPages, offset, length, s2, s3, s4);
    AllPagesLow(s4, root, program, hs, stackPages, offset, length);
    var segments, stack, window := SegmentPages(hs), StackPages(offset, 0, stackPages), Span(offset, offset + length);
    LoopsKeepTheRest(s, s1, s4, current, root, segments + stack + window);
    FreeBefore(s, s1, s4, current, root, segments + stack);
    UserReachesOwn(s, s4, root, offset, segments + stack, window);
    DataKeptTwice(s, s1, s4, root, segments + stack + window);
    AllRights(s4, root, program, hs, stack, offset, window);
  }

  lemma {:induction false} SegmentsAreLow(s: Space, root: nat, program: seq<Byte>, hs: seq<Segment>, a: nat)
    requires (forall i :: 0 <= i < |hs| ==> SegmentLoaded(s, root, program, hs[i])) && a >= HIGHER_HALF
    ensures a !in SegmentPages(hs)
    decreases |hs|
  {
    if hs != [] {
      assert SegmentLoaded(s, root, program, hs[0]);
      hide SegmentLoaded;
      SegmentsAreLow(s, root, program, hs[1..], a);
    }
  }

  /** No table is linked below a new root. */
  lemma {:induction false} NewRootLevels(s: Space, kernel: KernelTables, upper: seq<Entry>, current: nat, c: nat)
    requires SpaceOk(s, kernel, upper) && IsTable(s.mem, current) && c < |s.words| && IsUntyped(s.words, c)
    ensures AllLevels(NewRoot(s, current, c).(cursor := c), c, USER_LEVEL)
  {
    hide R.ValueInto, KernelOk, SameUpper;
    FreshFrame(s, kernel, upper, c);
    assert forall t :: t in s.place ==> s.place[t].root != c;
  }

  lemma {:induction false} NewRootFree(s: Space, current: nat, c: nat)
    requires IsTable(s.mem, current) && c < |s.words| && IsUntyped(s.words, c)
    ensures var s1 := NewRoot(s, current, c).(cursor := c);
            DataKept(s, s1) && forall f :: 0 <= f < |s.words| && IsUntyped(s1.words, f) ==> IsUntyped(s.words, f)
  {
    R.UnpackPack(R.Kernel, 1);
  }

  /** The address space `Process::load` starts from. */
  lemma {:induction false} NewSpaceOk(s: Space, kernel: KernelTables, upper: seq<Entry>, current: nat, c: nat)
    requires SpaceOk(s, kernel, upper) && IsRoot(s.place, current) && IsTable(s.mem, current)
    requires c < |s.words| && IsUntyped(s.words, c)
    ensures var s1 := NewRoot(s, current, c).(cursor := c);
            && SpaceOk(s1, kernel, upper) && IsRoot(s1.place, c) && !IsRoot(s.place, c)
            && AllLevels(s1, c, USER_LEVEL)
            && NothingElse(s1, c, iset{}) && KernelHalf(s, current, s1, c) && SpacesKept(s, s1) && DataKept(s, s1)
            && (forall f :: 0 <= f < |s.words| && IsUntyped(s1.words, f) ==> IsUntyped(s.words, f))
            && (forall t :: t in s1.place && t !in s.place ==> t == c)
  {
    hide Forest, Rooted, KernelOk, SameUpper, KernelOwned, IdleHaveNoRefs, Walk, AllLevels, VA.Indices, IsUntyped, R.ValueInto;
    var s1 := NewRoot(s, current, c).(cursor := c);
    NewRootOk(s, kernel, upper, current, c);
    FreshFrame(s, kernel, upper, c);
    NewRootLevels(s, kernel, upper, current, c);
    NewRootFree(s, current, c);
    KernelApart(s.mem, s.place, kernel);
    assert forall k :: k in kernel ==> k in s1.mem && s1.mem[k] == s.mem[k];
    forall a: VA.Usize | IsPage(a) && VA.LowerHalf(a) ensures TranslateAddr(s1.mem, c, a) == Unmapped {
      HalfOf(a);
    }
    forall a: VA.Usize | IsPage(a) && !VA.LowerHalf(a) ensures TranslateAddr(s1.mem, c, a) == TranslateAddr(s.mem, current, a) {
      HalfOf(a);
      HigherHalfCommon(s.mem, s.place, s1.mem, s1.place, kernel, upper, current, c, VA.Indices(a));
    }
    forall r, a: VA.Usize | IsRoot(s.place, r) && IsPage(a) ensures TranslateAddr(s1.mem, r, a) == TranslateAddr(s.mem, r, a) {
      HalfOf(a);
      if !VA.LowerHalf(a) {
        HigherHalfCommon(s.mem, s.place, s1.mem, s1.place, kernel, upper, r, r, VA.Indices(a));
      }
    }
  }
}
