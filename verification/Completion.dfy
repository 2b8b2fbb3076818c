/**
 When loading completes (`Segment::load` and `Process::load` in
 harmony/kernel/src/arch/x86_64/bootup.rs): given enough free frames, exactly when the program
 headers, the stack and the window fit into the lower half without overlapping.
 */
module Completions {
  import opened Layout
  import opened Wrappers
  import opened RetypeTables
  import opened FrameAllocators
  import opened PageTableEntries
  import opened PageTables
  import opened AddressSpaces
  import opened Loaders
  import opened Processes
  import R = RetypeEntries
  import VA = VirtualAddresses

  /** Nothing is in the way of mapping page `a`. */
  predicate Free(s: Space, root: nat, a: VA.Usize) { Probe(s.mem, root, VA.Indices(a), 0).Missing? }

  function Untyped(s: Space): (n: nat) { UntypedFrom(s.words, s.cursor) }

  // What a walk finds after a write

  lemma {:induction false} LinkKeepsProbe(mem: Memory, place: Places, t: nat, i: nat, c: nat, flags: Flags,
                                          root: nat, p: Path, d: nat, u: nat)
    requires Linkable(mem, place, t, i, c, flags) && !flags.huge
    requires LowPath(p) && At(place, root, p, d, u)
    ensures Probe(Linked(mem, t, i, c, flags), u, p, d).Missing? <==> Probe(mem, u, p, d).Missing?
    decreases 4 - d
  {
    assert TableOk(mem, place, t) && TableOk(mem, place, u);
    if d < 3 {
      Descend(mem, place, root, p, d, u);
      var x := EntryAt(mem, u, p[d]);
      if x.Some? && !x.value.flags.huge {
        LinkKeepsProbe(mem, place, t, i, c, flags, root, p, d + 1, x.value.frame);
      }
    }
  }

  lemma {:induction false} LeafKeepsProbe(mem: Memory, place: Places, t: nat, i: nat, e: Entry,
                                          root: nat, p: Path, d: nat, u: nat)
    requires Forest(mem, place) && t in place && |place[t].path| == 3 && i < ENTRIES
    requires LowPath(p) && At(place, root, p, d, u) && !Uses(place, root, p, t, i)
    ensures IsTable(mem, t) && Probe(WithEntry(mem, t, i, e), u, p, d) == Probe(mem, u, p, d)
    decreases 4 - d
  {
    assert TableOk(mem, place, t) && TableOk(mem, place, u);
    if d < 3 {
      Descend(mem, place, root, p, d, u);
      var x := EntryAt(mem, u, p[d]);
      if x.Some? && !x.value.flags.huge {
        LeafKeepsProbe(mem, place, t, i, e, root, p, d + 1, x.value.frame);
      }
    }
  }

  lemma {:induction false} BytesKeepProbe(mem: Memory, place: Places, f: nat, bytes: PageBytes,
                                          root: nat, p: Path, d: nat, u: nat)
    requires Forest(mem, place) && f !in place && LowPath(p) && At(place, root, p, d, u)
    ensures Probe(mem[f := BytePage(bytes)], u, p, d) == Probe(mem, u, p, d)
    decreases 4 - d
  {
    assert TableOk(mem, place, u);
    if d < 3 {
      Descend(mem, place, root, p, d, u);
      var x := EntryAt(mem, u, p[d]);
      if x.Some? && !x.value.flags.huge {
        BytesKeepProbe(mem, place, f, bytes, root, p, d + 1, x.value.frame);
      }
    }
  }

  lemma {:induction false} SpaceForest(s: Space, kernel: KernelTables, upper: seq<Entry>)
    requires SpaceOk(s, kernel, upper)
    ensures Forest(s.mem, s.place)
  {
  }

  lemma {:induction false} LeafFree(mem: Memory, place: Places, root: nat, p: Path, t: nat, e: Entry, q: Path)
    requires Forest(mem, place) && At(place, root, p, 3, t) && IsRoot(place, root) && LowPath(q) && q != p
    ensures IsTable(mem, t) && Probe(WithEntry(mem, t, p[3], e), root, q, 0) == Probe(mem, root, q, 0)
  {
    hide Forest, Probe;
    assert q == q[..3] + [q[3]] && p == p[..3] + [p[3]];
    LeafKeepsProbe(mem, place, t, p[3], e, root, q, 0, root);
  }

  /** Adding a level puts nothing in the way of any page. */
  lemma {:induction false} LevelFree(s: Space, kernel: KernelTables, upper: seq<Entry>, root: nat, t: nat, p: Path, d: nat,
                                     m: Mapping, added: Flags, q: Path)
    requires Ready(s, kernel, upper, root, t, p, d, m, added) && d < 3 && !added.huge
    requires IsTable(s.mem, t) && EntryAt(s.mem, t, p[d]).None? && FindUntyped(s.words, s.cursor).Some?
    requires IsRoot(s.place, root) && LowPath(q)
    ensures var s1 := AddTable(s, t, p[d], FindUntyped(s.words, s.cursor).value, added);
            IsRoot(s1.place, root) && (Probe(s1.mem, root, q, 0).Missing? <==> Probe(s.mem, root, q, 0).Missing?)
  {
    var c := FindUntyped(s.words, s.cursor).value;
    FreshFrame(s, kernel, upper, c);
    Descend(s.mem, s.place, root, p, d, t);
    hide Forest, KernelOk, SameUpper, KernelOwned, IdleHaveNoRefs, Probe;
    LinkKeepsProbe(s.mem, s.place, t, p[d], c, added, root, q, 0, root);
  }

  lemma {:induction false} MapFromFree(s: Space, kernel: KernelTables, upper: seq<Entry>, root: nat, t: nat, p: Path, d: nat,
                                       m: Mapping, added: Flags, q: Path)
    requires Ready(s, kernel, upper, root, t, p, d, m, added) && !added.huge
    requires IsRoot(s.place, root) && LowPath(q) && q != p
    ensures Probe(MapFrom(s, t, p, d, m, added).0.mem, root, q, 0).Missing? <==> Probe(s.mem, root, q, 0).Missing?
    decreases 4 - d
  {
    hide SpaceOk, OnlyTables, SameLow, SameAboveDepth, Probe;
    ReadyTable(s, kernel, upper, root, t, p, d, m, added);
    var e := EntryAt(s.mem, t, p[d]);
    if d == 3 {
      if e == None {
        SpaceForest(s, kernel, upper);
        LeafFree(s.mem, s.place, root, p, t, Stored(m), q);
      }
    } else {
      ReadyBelow(s, kernel, upper, root, t, p, d, m, added);
      if e.Some? && !e.value.flags.huge {
        MapFromFree(s, kernel, upper, root, e.value.frame, p, d + 1, m, added, q);
      } else if e.None? && FindUntyped(s.words, s.cursor).Some? {
        LevelFree(s, kernel, upper, root, t, p, d, m, added, q);
        var c := FindUntyped(s.words, s.cursor).value;
        MapFromFree(AddTable(s, t, p[d], c, added), kernel, upper, root, c, p, d + 1, m, added, q);
      }
    }
  }

  /** From `s` to `s'` the pages in `pages`, and no other lower-half pages, were taken. */
  ghost predicate Taken(s: Space, s': Space, root: nat, pages: iset<nat>) {
    forall a: VA.Usize :: IsPage(a) && VA.LowerHalf(a) ==> (Free(s', root, a) <==> Free(s, root, a) && a !in pages)
  }

  lemma {:induction false} TakenTwice(s: Space, s1: Space, s2: Space, root: nat, a: iset<nat>, b: iset<nat>)
    requires Taken(s, s1, root, a) && Taken(s1, s2, root, b)
    ensures Taken(s, s2, root, a + b)
  {
    hide Free;
  }

  lemma {:induction false} NoneTakenYet(s: Space, root: nat, pages: iset<nat>)
    requires forall a: VA.Usize :: a !in pages
    ensures Taken(s, s, root, pages)
  {
    hide Free;
  }

  /** One call of `map_to`. */
  lemma {:induction false} MapToCompletes(s: Space, kernel: KernelTables, upper: seq<Entry>, root: nat, page: VA.Usize,
                                          m: Mapping, parentFlags: Flags)
    requires SpaceOk(s, kernel, upper) && IsRoot(s.place, root) && IsPage(page) && VA.LowerHalf(page)
    requires ValidMapping(m) && m.flags.present && ValidFlags(parentFlags) && !parentFlags.huge
    ensures |s.words| < MAX_FRAMES
    ensures var (s', answer) := MapTo(s, root, page, m, parentFlags);
            && (answer == MapOk ==> Free(s, root, page) && Taken(s, s', root, Span(page, page + PAGE_SIZE)))
            && (answer == MapOk ==> Untyped(s') + 3 >= Untyped(s))
            && (Free(s, root, page) && Untyped(s) >= 3 ==> answer == MapOk)
  {
    hide SpaceOk, MapFrom, OnlyTables, LowestTaken, Probe, UntypedFrom, VA.Indices, TranslateAddr, Upper;
    SpaceWords(s, kernel, upper);
    MapToKeeps(s, kernel, upper, root, page, m, parentFlags);
    MapToUpdatesOnePage(s, kernel, upper, root, page, m, parentFlags, root, page);
    var (s', answer) := MapTo(s, root, page, m, parentFlags);
    MappedPageIsHit(s'.mem, root, page);
    ReadyAtRoot(s, kernel, upper, root, page, m, parentFlags);
    forall a: VA.Usize | IsPage(a) && VA.LowerHalf(a) && a != page ensures Free(s', root, a) <==> Free(s, root, a) {
      HalfOf(a);
      VA.IndicesInjective(page, a);
      MapFromFree(s, kernel, upper, root, root, VA.Indices(page), 0, m, WithPresent(parentFlags), VA.Indices(a));
    }
    OnePage(page);
  }

  /** One user page: at most four frames are used up. */
  lemma {:induction false} MapUserCompletes(s: Space, kernel: KernelTables, upper: seq<Entry>, root: nat, a: VA.Usize,
                                            flags: Flags)
    requires SpaceOk(s, kernel, upper) && IsRoot(s.place, root) && IsPage(a) && VA.LowerHalf(a)
    requires ValidFlags(flags) && flags.present && FindUntyped(s.words, s.cursor).Some?
    ensures |s.words| < MAX_FRAMES
    ensures var (s', answer) := MapUser(s, root, a, FindUntyped(s.words, s.cursor).value, flags);
            && (answer == MapOk ==> Free(s, root, a) && Taken(s, s', root, Span(a, a + PAGE_SIZE)))
            && (answer == MapOk ==> Untyped(s') + 4 >= Untyped(s))
            && (Free(s, root, a) && Untyped(s) >= 4 ==> answer == MapOk)
  {
    hide SpaceOk, MapTo, Probe, VA.Indices, R.ValueFor, R.ValueInto;
    SpaceWords(s, kernel, upper);
    var f := FindUntyped(s.words, s.cursor).value;
    ClaimUserOk(s, kernel, upper, f);
    ClaimUsesOne(s.words, s.cursor, R.User);
    MapToCompletes(ClaimUser(s, f), kernel, upper, root, a, Mapping(f, flags), PARENT_FLAGS);
  }

  lemma {:induction false} BytesTakeNothing(s: Space, kernel: KernelTables, upper: seq<Entry>, root: nat, f: nat,
                                            bytes: PageBytes)
    requires SpaceOk(s, kernel, upper) && IsRoot(s.place, root) && f !in s.place
    ensures Taken(s, WithBytes(s, f, bytes), root, iset{})
  {
    SpaceForest(s, kernel, upper);
    hide SpaceOk, Forest, Probe, VA.Indices;
    forall a: VA.Usize | IsPage(a) && VA.LowerHalf(a) ensures Free(WithBytes(s, f, bytes), root, a) <==> Free(s, root, a) {
      HalfOf(a);
      BytesKeepProbe(s.mem, s.place, f, bytes, root, VA.Indices(a), 0, root);
    }
  }

  // `Segment::load`

  lemma {:induction false} LoadPageCompletes(s: Space, kernel: KernelTables, upper: seq<Entry>, root: nat,
                                             program: seq<Byte>, h: Segment, v: nat, fcurrent: nat)
    requires SpaceOk(s, kernel, upper) && IsRoot(s.place, root) && InStep(program, h, v, fcurrent) && v < End(h)
    ensures |s.words| < MAX_FRAMES && v < VA.TWO64
    ensures var (r, a) := (LoadPage(s, root, program, h, v, fcurrent), VA.ContainingPage(v));
            && (r.Some? ==> h.readable && v < VA.TWO47 && Free(s, root, a))
            && (r.Some? ==> Taken(s, r.value, root, Span(a, a + PAGE_SIZE)) && Untyped(r.value) + 4 >= Untyped(s))
            && (h.readable && v < VA.TWO47 && Free(s, root, a) && Untyped(s) >= 4 ==> r.Some?)
  {
    hide SpaceOk, MapUser, Count, FilledPage, TranslateAddr, R.ValueInto, Free, Taken, Outside, UntypedFrom;
    PageOfStep(h, v);
    FilledIsImage(program, h, v, fcurrent, 0);
    SpaceWords(s, kernel, upper);
    var a := VA.ContainingPage(v);
    var found := FindUntyped(s.words, s.cursor);
    if found.Some? && VA.Canonical(v) {
      MapUserCompletes(s, kernel, upper, root, a, PageFlags(h));
      var (s2, answer) := MapUser(s, root, a, found.value, PageFlags(h));
      if answer == MapOk {
        MapUserOk(s, kernel, upper, root, a, found.value, PageFlags(h));
        KeptRoot(s, s2, root, Span(a, a + PAGE_SIZE));
        var bytes := FilledPage(program, fcurrent, Count(h, v, fcurrent), v % PAGE_SIZE);
        BytesTakeNothing(s2, kernel, upper, root, found.value, bytes);
        TakenTwice(s, s2, WithBytes(s2, found.value, bytes), root, Span(a, a + PAGE_SIZE), iset{});
        assert Span(a, a + PAGE_SIZE) + iset{} == Span(a, a + PAGE_SIZE);
      }
    }
  }

  /** The pages the loop still has to load. */
  function PagesFrom(h: Segment, v: nat): (n: nat) {
    AboveBase(h, v);
    (Above(h, v) - v / PAGE_SIZE * PAGE_SIZE) / PAGE_SIZE
  }

  lemma {:induction false} AboveBase(h: Segment, v: nat)
    ensures Above(h, v) >= v / PAGE_SIZE * PAGE_SIZE
  {
  }

  lemma {:induction false} OnePageLess(h: Segment, v: nat)
    requires v < End(h)
    ensures PagesFrom(h, v) == 1 + PagesFrom(h, NextPage(v))
  {
    AboveNext(h, v);
    hide Above;
  }

  /** Nothing is in the way of what the loop still has to do. */
  ghost predicate Ahead(s: Space, root: nat, h: Segment, v: nat) {
    v < End(h) ==>
      && h.readable && End(h) <= VA.TWO47
      && forall a: VA.Usize :: IsPage(a) && v / PAGE_SIZE * PAGE_SIZE <= a < End(h) ==> Free(s, root, a)
  }

  /** What is ahead of the loop is this page and what is ahead after it. */
  lemma {:induction false} AheadNext(s: Space, s1: Space, root: nat, h: Segment, v: nat, a: VA.Usize)
    requires v < End(h) && a == v / PAGE_SIZE * PAGE_SIZE && IsPage(a) && VA.LowerHalf(a)
    requires h.readable && Free(s, root, a) && Taken(s, s1, root, Span(a, a + PAGE_SIZE))
    ensures Ahead(s, root, h, v) <==> Ahead(s1, root, h, NextPage(v))
  {
    hide Free;
    AboveNext(h, v);
    forall b: VA.Usize | IsPage(b) && a <= b < End(h) ensures b == a || NextPage(v) <= b {
    }
    if Ahead(s1, root, h, NextPage(v)) {
      forall b: VA.Usize | IsPage(b) && a <= b < End(h) ensures End(h) <= VA.TWO47 && Free(s, root, b) {
      }
    }
  }

  lemma {:induction false} LoadFromCompletes(s: Space, kernel: KernelTables, upper: seq<Entry>, root: nat,
                                             program: seq<Byte>, h: Segment, v: nat, fcurrent: nat)
    requires SpaceOk(s, kernel, upper) && IsRoot(s.place, root) && InStep(program, h, v, fcurrent)
    ensures |s.words| < MAX_FRAMES
    ensures var r := LoadFrom(s, root, program, h, v, fcurrent);
            && (r.Some? ==> Ahead(s, root, h, v) && Taken(s, r.value, root, Span(v / PAGE_SIZE * PAGE_SIZE, Above(h, v))))
            && (r.Some? ==> Untyped(r.value) + 4 * PagesFrom(h, v) >= Untyped(s))
            && (Ahead(s, root, h, v) && Untyped(s) >= 4 * PagesFrom(h, v) ==> r.Some?)
    decreases End(h) - v
  {
    hide SpaceOk, Outside, PageLoaded, LoadPage, TranslateAddr, FrameOf, Count, Above, Free, Taken, Untyped, Ahead, PagesFrom;
    SpaceWords(s, kernel, upper);
    if v >= End(h) {
      LoopEnds(s, root, h, v);
    } else {
      LoadPageCompletes(s, kernel, upper, root, program, h, v, fcurrent);
      AheadHere(s, root, h, v);
      OnePageLess(h, v);
      if LoadPage(s, root, program, h, v, fcurrent).Some? {
        LoadPageOk(s, kernel, upper, root, program, h, v, fcurrent);
        var s1 := LoadPage(s, root, program, h, v, fcurrent).value;
        var a, next := VA.ContainingPage(v), NextPage(v);
        StepOn(program, h, v, fcurrent);
        AboveNext(h, v);
        KeptRoot(s, s1, root, Span(a, next));
        LoadFromCompletes(s1, kernel, upper, root, program, h, next, fcurrent + Count(h, v, fcurrent));
        AheadNext(s, s1, root, h, v, a);
        var r := LoadFrom(s, root, program, h, v, fcurrent);
        if r.Some? {
          TakenTwice(s, s1, r.value, root, Span(a, next), Span(next, Above(h, v)));
          assert Span(a, next) + Span(next, Above(h, v)) == Span(a, Above(h, v));
        }
      }
    }
  }

  lemma {:induction false} LoopEnds(s: Space, root: nat, h: Segment, v: nat)
    requires v >= End(h)
    ensures Ahead(s, root, h, v) && PagesFrom(h, v) == 0 && Taken(s, s, root, Span(v / PAGE_SIZE * PAGE_SIZE, Above(h, v)))
  {
    NoneTakenYet(s, root, Span(v / PAGE_SIZE * PAGE_SIZE, Above(h, v)));
  }

  lemma {:induction false} AheadHere(s: Space, root: nat, h: Segment, v: nat)
    requires v < End(h) <= HIGHER_HALF
    ensures Ahead(s, root, h, v) ==> h.readable && v < VA.TWO47 && Free(s, root, VA.ContainingPage(v))
  {
    hide Free;
  }

  /** The segment can be read from the file, and what there is of it lies in the lower half. */
  predicate Fits(program: seq<Byte>, h: Segment) {
    && h.filesz <= h.memsz && h.vaddr + h.memsz <= 0xFFFF_8000_0000_0000
    && h.offset + h.filesz <= |program| && h.offset + h.filesz < VA.TWO64
    && (h.memsz > 0 ==> h.readable && End(h) <= VA.TWO47)
  }

  /** The pages of the segment are free. */
  ghost predicate RoomFor(s: Space, root: nat, h: Segment) {
    forall a: VA.Usize :: Touched(h, a) ==> Free(s, root, a)
  }

  /**
   `Segment::load` completes exactly if the segment fits and its pages are free, when there are four
   free frames for each of them; then it has taken those pages and no others.
   */
  lemma {:induction false} LoadCompletes(s: Space, kernel: KernelTables, upper: seq<Entry>, root: nat,
                                         program: seq<Byte>, h: Segment)
    requires SpaceOk(s, kernel, upper) && IsRoot(s.place, root)
    ensures |s.words| < MAX_FRAMES
    ensures var r := Load(s, root, program, h);
            && (r.Some? ==> Fits(program, h) && RoomFor(s, root, h) && Taken(s, r.value, root, Pages(h)))
            && (r.Some? ==> Untyped(r.value) + 4 * PagesFrom(h, h.vaddr) >= Untyped(s))
            && (Fits(program, h) && RoomFor(s, root, h) && Untyped(s) >= 4 * PagesFrom(h, h.vaddr) ==> r.Some?)
  {
    hide SpaceOk, LoadFrom, Free, Taken, Untyped, PagesFrom;
    SpaceWords(s, kernel, upper);
    if Loadable(program, h) {
      LoadFromCompletes(s, kernel, upper, root, program, h, h.vaddr, h.offset);
    }
  }

  // `Process::load`

  /** Each segment fits, and no two share a page. */
  ghost predicate AllFit(program: seq<Byte>, hs: seq<Segment>) {
    && (forall i :: 0 <= i < |hs| ==> Fits(program, hs[i]))
    && (forall i, j, a: VA.Usize :: 0 <= i < j < |hs| && Touched(hs[i], a) ==> !Touched(hs[j], a))
  }

  ghost predicate RoomForAll(s: Space, root: nat, hs: seq<Segment>) {
    forall i :: 0 <= i < |hs| ==> RoomFor(s, root, hs[i])
  }

  function TotalPages(hs: seq<Segment>): (n: nat) {
    if hs == [] then 0 else PagesFrom(hs[0], hs[0].vaddr) + TotalPages(hs[1..])
  }

  lemma {:induction false} FitsLow(program: seq<Byte>, h: Segment, a: VA.Usize)
    requires Fits(program, h) && Touched(h, a)
    ensures VA.LowerHalf(a) && IsPage(a) && a in Pages(h)
  {
    TouchedIffInPages(h, a);
    hide Pages;
  }

  /** The segments fit together if the first one does and the rest fit into what it leaves. */
  lemma {:induction false} FirstFits(s: Space, s1: Space, root: nat, program: seq<Byte>, hs: seq<Segment>)
    requires hs != [] && Fits(program, hs[0]) && RoomFor(s, root, hs[0]) && Taken(s, s1, root, Pages(hs[0]))
    ensures AllFit(program, hs) && RoomForAll(s, root, hs) <==> AllFit(program, hs[1..]) && RoomForAll(s1, root, hs[1..])
  {
    hide Free, Pages, Touched;
    if AllFit(program, hs) && RoomForAll(s, root, hs) {
      RestFits(s, s1, root, program, hs);
    }
    if AllFit(program, hs[1..]) && RoomForAll(s1, root, hs[1..]) {
      WholeFits(s, s1, root, program, hs);
    }
  }

  lemma {:induction false} RestFits(s: Space, s1: Space, root: nat, program: seq<Byte>, hs: seq<Segment>)
    requires hs != [] && Taken(s, s1, root, Pages(hs[0])) && AllFit(program, hs) && RoomForAll(s, root, hs)
    ensures AllFit(program, hs[1..]) && RoomForAll(s1, root, hs[1..])
  {
    hide Free, Pages, Touched, Fits;
    assert forall i :: 0 <= i < |hs| - 1 ==> hs[1..][i] == hs[i + 1];
    forall i, a: VA.Usize | 0 < i < |hs| && Touched(hs[i], a) ensures Free(s1, root, a) {
      assert RoomFor(s, root, hs[i]) && Fits(program, hs[i]) && !Touched(hs[0], a);
      FitsLow(program, hs[i], a);
      TouchedIffInPages(hs[0], a);
    }
  }

  lemma {:induction false} WholeFits(s: Space, s1: Space, root: nat, program: seq<Byte>, hs: seq<Segment>)
    requires hs != [] && Fits(program, hs[0]) && RoomFor(s, root, hs[0]) && Taken(s, s1, root, Pages(hs[0]))
    requires AllFit(program, hs[1..]) && RoomForAll(s1, root, hs[1..])
    ensures AllFit(program, hs) && RoomForAll(s, root, hs)
  {
    hide Free, Pages, Touched, Fits;
    assert forall i :: 0 < i < |hs| ==> hs[i] == hs[1..][i - 1];
    forall i, a: VA.Usize | 0 < i < |hs| && Touched(hs[i], a) ensures Free(s, root, a) && !Touched(hs[0], a) {
      assert RoomFor(s1, root, hs[1..][i - 1]) && Fits(program, hs[1..][i - 1]);
      FitsLow(program, hs[i], a);
      TouchedIffInPages(hs[0], a);
    }
  }

  lemma {:induction false} LoadAllCompletes(s: Space, kernel: KernelTables, upper: seq<Entry>, root: nat,
                                            program: seq<Byte>, hs: seq<Segment>)
    requires SpaceOk(s, kernel, upper) && IsRoot(s.place, root)
    ensures |s.words| < MAX_FRAMES
    ensures var r := LoadAll(s, root, program, hs);
            && (r.Some? ==> AllFit(program, hs) && RoomForAll(s, root, hs) && Taken(s, r.value, root, SegmentPages(hs)))
            && (r.Some? ==> Untyped(r.value) + 4 * TotalPages(hs) >= Untyped(s))
            && (AllFit(program, hs) && RoomForAll(s, root, hs) && Untyped(s) >= 4 * TotalPages(hs) ==> r.Some?)
    decreases |hs|
  {
    hide SpaceOk, Load, Free, Taken, Untyped, PagesFrom, Fits, RoomFor, Outside, AllUser, SegmentLoaded, Pages;
    SpaceWords(s, kernel, upper);
    if hs == [] {
      NoneTakenYet(s, root, iset{});
    } else {
      LoadCompletes(s, kernel, upper, root, program, hs[0]);
      var s1 := Load(s, root, program, hs[0]);
      if s1.Some? {
        LoadMakesUserPages(s, kernel, upper, root, program, hs[0]);
        LoadAllCompletes(s1.value, kernel, upper, root, program, hs[1..]);
        FirstFits(s, s1.value, root, program, hs);
        hide AllFit, RoomForAll;
        if LoadAll(s, root, program, hs).Some? {
          TakenTwice(s, s1.value, LoadAll(s, root, program, hs).value, root, Pages(hs[0]), SegmentPages(hs[1..]));
        }
      }
    }
  }

  /** The pages at the addresses in `pages` are free. */
  ghost predicate AllFree(s: Space, root: nat, pages: iset<nat>) {
    forall a: VA.Usize :: IsPage(a) && a in pages ==> Free(s, root, a)
  }

  /** A page and the rest are free exactly if the page is, and the rest is once the page is taken. */
  lemma {:induction false} FreeFirst(s: Space, s1: Space, root: nat, page: VA.Usize, rest: iset<nat>)
    requires IsPage(page) && VA.LowerHalf(page) && Free(s, root, page) && Taken(s, s1, root, Span(page, page + PAGE_SIZE))
    requires forall a: VA.Usize :: IsPage(a) && a in rest ==> VA.LowerHalf(a) && a != page
    ensures AllFree(s, root, Span(page, page + PAGE_SIZE) + rest) <==> AllFree(s1, root, rest)
  {
    hide Free, Span;
    OnePage(page);
  }

  /** The stack, from iteration `i` to `n`, lies in the lower half. */
  predicate StackFits(top: nat, i: nat, n: nat) { i < n ==> PAGE_SIZE * n <= top && top <= VA.TWO47 + PAGE_SIZE * i }

  lemma {:induction false} StackPageNext(top: nat, i: nat, n: nat)
    requires i < n && top % PAGE_SIZE == 0 && PAGE_SIZE * (i + 1) <= top
    ensures var page := top - PAGE_SIZE * (i + 1);
            && StackPages(top, i, n) == Span(page, page + PAGE_SIZE) + StackPages(top, i + 1, n)
            && page % PAGE_SIZE == 0 && (StackFits(top, i, n) ==> page < VA.TWO47)
            && (page < VA.TWO47 ==> (StackFits(top, i, n) <==> StackFits(top, i + 1, n)))
            && (page < VA.TWO47 ==> forall a: VA.Usize :: a in StackPages(top, i + 1, n) ==> VA.LowerHalf(a) && a != page)
  {
  }

  lemma {:induction false} StackFreeHere(s: Space, root: nat, page: VA.Usize, rest: iset<nat>)
    requires IsPage(page) && AllFree(s, root, Span(page, page + PAGE_SIZE) + rest)
    ensures Free(s, root, page)
  {
    hide Free;
  }

  lemma {:induction false} MapStackCompletes(s: Space, kernel: KernelTables, upper: seq<Entry>, root: nat, top: VA.Usize,
                                             i: nat, n: nat)
    requires SpaceOk(s, kernel, upper) && IsRoot(s.place, root) && top % PAGE_SIZE == 0 && top < HIGHER_HALF && i <= n
    ensures |s.words| < MAX_FRAMES
    ensures var (r, pages) := (MapStack(s, root, top, i, n), StackPages(top, i, n));
            && (r.Some? ==> StackFits(top, i, n) && AllFree(s, root, pages) && Taken(s, r.value, root, pages))
            && (r.Some? ==> Untyped(r.value) + 4 * (n - i) >= Untyped(s))
            && (StackFits(top, i, n) && AllFree(s, root, pages) && Untyped(s) >= 4 * (n - i) ==> r.Some?)
    decreases n - i
  {
    hide SpaceOk, Outside, AllUser, MappedWith, MapUser, AllFree, Taken, Free, UntypedFrom, StackPages, StackFits;
    SpaceWords(s, kernel, upper);
    if i >= n {
      NoStackLeft(s, root, top, i, n);
    } else if top < PAGE_SIZE * (i + 1) {
      NoStackRoom(top, i, n);
    } else {
      var page: VA.Usize := top - PAGE_SIZE * (i + 1);
      StackPageNext(top, i, n);
      var found, rest := FindUntyped(s.words, s.cursor), StackPages(top, i + 1, n);
      if VA.Canonical(page) && AllFree(s, root, StackPages(top, i, n)) {
        StackFreeHere(s, root, page, rest);
      }
      if VA.Canonical(page) && found.Some? {
        MapUserCompletes(s, kernel, upper, root, page, STACK_FLAGS);
        var (s1, answer) := MapUser(s, root, page, found.value, STACK_FLAGS);
        if answer == MapOk {
          StackPageOk(s, kernel, upper, root, page, found.value);
          FreeFirst(s, s1, root, page, rest);
          MapStackCompletes(s1, kernel, upper, root, top, i + 1, n);
          if MapStack(s1, root, top, i + 1, n).Some? {
            TakenTwice(s, s1, MapStack(s1, root, top, i + 1, n).value, root, Span(page, page + PAGE_SIZE), rest);
          }
        }
      }
    }
  }

  lemma {:induction false} NoStackLeft(s: Space, root: nat, top: nat, i: nat, n: nat)
    requires i >= n
    ensures StackFits(top, i, n) && AllFree(s, root, StackPages(top, i, n)) && Taken(s, s, root, StackPages(top, i, n))
  {
    hide Free;
  }

  lemma {:induction false} NoStackRoom(top: nat, i: nat, n: nat)
    requires i < n && top < PAGE_SIZE * (i + 1)
    ensures !StackFits(top, i, n)
  {
  }

  lemma {:induction false} MapWindowCompletes(s: Space, kernel: KernelTables, upper: seq<Entry>, root: nat, offset: nat,
                                              i: nat, n: nat)
    requires SpaceOk(s, kernel, upper) && IsRoot(s.place, root) && i <= n
    requires offset % PAGE_SIZE == 0 && offset + PAGE_SIZE * n < HIGHER_HALF
    ensures |s.words| < MAX_FRAMES
    ensures var r := MapWindow(s, root, offset, i, n);
            var pages := Span(offset + PAGE_SIZE * i, offset + PAGE_SIZE * n);
            && (r.Some? && i < n ==> offset + PAGE_SIZE * n <= VA.TWO47)
            && (r.Some? ==> AllFree(s, root, pages) && Taken(s, r.value, root, pages))
            && (r.Some? ==> Untyped(r.value) + 3 * (n - i) >= Untyped(s))
            && ((i < n ==> offset + PAGE_SIZE * n <= VA.TWO47) && AllFree(s, root, pages) && Untyped(s) >= 3 * (n - i) ==> r.Some?)
    decreases n - i
  {
    hide SpaceOk, Outside, WindowMapped, NoneMapped, MapTo, AllFree, Taken, Free, UntypedFrom;
    SpaceWords(s, kernel, upper);
    var pages := Span(offset + PAGE_SIZE * i, offset + PAGE_SIZE * n);
    if i >= n {
      NoWindowLeft(s, root, pages);
    } else {
      var page: VA.Usize := offset + PAGE_SIZE * i;
      var here, rest := Span(page, page + PAGE_SIZE), Span(page + PAGE_SIZE, offset + PAGE_SIZE * n);
      assert pages == here + rest;
      if AllFree(s, root, pages) && VA.Canonical(page) {
        StackFreeHere(s, root, page, rest);
      }
      if i < MAX_FRAMES && VA.Canonical(page) {
        MapToCompletes(s, kernel, upper, root, page, Mapping(i, WINDOW_FLAGS), WINDOW_FLAGS);
        var (s1, answer) := MapTo(s, root, page, Mapping(i, WINDOW_FLAGS), WINDOW_FLAGS);
        if answer == MapOk {
          WindowPageOk(s, kernel, upper, root, offset, page, i);
          MapWindowCompletes(s1, kernel, upper, root, offset, i + 1, n);
          WindowNext(s, s1, root, page, offset + PAGE_SIZE * n);
          if MapWindow(s1, root, offset, i + 1, n).Some? {
            TakenTwice(s, s1, MapWindow(s1, root, offset, i + 1, n).value, root, here, rest);
          }
        }
      }
    }
  }

  lemma {:induction false} NoWindowLeft(s: Space, root: nat, pages: iset<nat>)
    requires forall a: VA.Usize :: a !in pages
    ensures AllFree(s, root, pages) && Taken(s, s, root, pages)
  {
    hide Free;
  }

  lemma {:induction false} WindowNext(s: Space, s1: Space, root: nat, page: VA.Usize, end: nat)
    requires IsPage(page) && VA.LowerHalf(page) && Free(s, root, page) && Taken(s, s1, root, Span(page, page + PAGE_SIZE))
    requires page + PAGE_SIZE <= end <= HIGHER_HALF
    ensures var rest := Span(page + PAGE_SIZE, end);
            AllFree(s, root, Span(page, page + PAGE_SIZE) + rest) <==> AllFree(s1, root, rest)
  {
    hide Free, Taken, AllFree;
    FreeFirst(s, s1, root, page, Span(page + PAGE_SIZE, end));
  }

  // The whole of `Process::load`

  /** `pages` lie apart from the segments. */
  ghost predicate ApartFrom(hs: seq<Segment>, pages: iset<nat>) {
    forall i, a: VA.Usize :: 0 <= i < |hs| && Touched(hs[i], a) ==> a !in pages
  }

  /** Program headers, stack and window fit side by side. */
  ghost predicate LayoutFits(program: seq<Byte>, hs: seq<Segment>, stackPages: nat, offset: nat, length: nat) {
    && offset % PAGE_SIZE == 0 && length % PAGE_SIZE == 0 && offset + length < 0xFFFF_8000_0000_0000
    && AllFit(program, hs)
    && (stackPages > 0 ==> PAGE_SIZE * stackPages <= offset <= VA.TWO47)
    && (length > 0 ==> offset + length <= VA.TWO47)
    && ApartFrom(hs, StackPages(offset, 0, stackPages)) && ApartFrom(hs, Span(offset, offset + length))
  }

  /** Always enough: the root, four frames for every user page, three tables for every window page. */
  function EnoughFrames(hs: seq<Segment>, stackPages: nat, length: nat): (n: nat) {
    1 + 4 * (TotalPages(hs) + stackPages) + 3 * (length / PAGE_SIZE)
  }

  /** A new address space has nothing in the way of any lower-half page. */
  lemma {:induction false} FreshIsFree(s: Space, current: nat, c: nat, a: VA.Usize)
    requires IsTable(s.mem, current) && c < |s.words| && IsPage(a) && VA.LowerHalf(a)
    ensures Free(NewRoot(s, current, c).(cursor := c), c, a)
  {
    HalfOf(a);
    hide VA.Indices;
  }

  lemma {:induction false} RootUsesOne(s: Space, current: nat)
    requires IsTable(s.mem, current) && FindUntyped(s.words, s.cursor).Some?
    ensures var c := FindUntyped(s.words, s.cursor).value;
            Untyped(NewRoot(s, current, c).(cursor := c)) + 1 == Untyped(s)
  {
    ClaimUsesOne(s.words, s.cursor, R.Kernel);
  }

  /** A page of the segments is touched by one of them. */
  lemma {:induction false} SegmentOfPage(hs: seq<Segment>, a: VA.Usize) returns (i: nat)
    requires IsPage(a) && a in SegmentPages(hs)
    ensures i < |hs| && Touched(hs[i], a)
    decreases |hs|
  {
    hide Touched;
    TouchedIffInPages(hs[0], a);
    if Touched(hs[0], a) {
      i := 0;
    } else {
      var j := SegmentOfPage(hs[1..], a);
      i := j + 1;
    }
  }

  /** With the segments loaded into a fresh lower half, free means apart from them. */
  lemma {:induction false} FreeIsApart(s1: Space, s2: Space, root: nat, hs: seq<Segment>, pages: iset<nat>)
    requires forall a: VA.Usize :: IsPage(a) && VA.LowerHalf(a) ==> Free(s1, root, a)
    requires Taken(s1, s2, root, SegmentPages(hs)) && forall a: VA.Usize :: IsPage(a) && a in pages ==> VA.LowerHalf(a)
    ensures AllFree(s2, root, pages) <==> ApartFrom(hs, pages)
  {
    hide Free, Touched, SegmentPages;
    if ApartFrom(hs, pages) {
      forall a: VA.Usize | IsPage(a) && a in pages ensures Free(s2, root, a) {
        if a in SegmentPages(hs) {
          var i := SegmentOfPage(hs, a);
        }
      }
    } else {
      var i, a: VA.Usize :| 0 <= i < |hs| && Touched(hs[i], a) && a in pages;
      TouchedPage(hs[i], a);
      TouchedIffInPages(hs[i], a);
      PagesOfSegment(hs, i, a);
    }
  }

  lemma {:induction false} TouchedPage(h: Segment, a: VA.Usize)
    requires Touched(h, a)
    ensures IsPage(a)
  {
  }

  lemma {:induction false} StillFree(s2: Space, s3: Space, root: nat, stack: iset<nat>, window: iset<nat>)
    requires Taken(s2, s3, root, stack) && forall a: VA.Usize :: a in window ==> a !in stack
    requires forall a: VA.Usize :: IsPage(a) && a in window ==> VA.LowerHalf(a)
    ensures AllFree(s3, root, window) <==> AllFree(s2, root, window)
  {
    hide Free;
  }

  lemma {:induction false} FreshRoom(s1: Space, root: nat, program: seq<Byte>, hs: seq<Segment>)
    requires forall a: VA.Usize :: IsPage(a) && VA.LowerHalf(a) ==> Free(s1, root, a)
    ensures AllFit(program, hs) ==> RoomForAll(s1, root, hs)
  {
    hide Free, Fits, Touched;
    if AllFit(program, hs) {
      forall i, a: VA.Usize | 0 <= i < |hs| && Touched(hs[i], a) ensures Free(s1, root, a) {
        assert Fits(program, hs[i]);
        FitsLow(program, hs[i], a);
      }
    }
  }

  /** The stack and the window loop, after the segments. */
  lemma {:induction false} RestCompletes(s1: Space, s2: Space, kernel: KernelTables, upper: seq<Entry>, root: nat,
                                         hs: seq<Segment>, stackPages: nat, offset: nat, length: nat)
    requires SpaceOk(s2, kernel, upper) && IsRoot(s2.place, root) && |s2.words| < MAX_FRAMES
    requires offset % PAGE_SIZE == 0 && length % PAGE_SIZE == 0 && offset + length < HIGHER_HALF
    requires forall a: VA.Usize :: IsPage(a) && VA.LowerHalf(a) ==> Free(s1, root, a)
    requires Taken(s1, s2, root, SegmentPages(hs))
    ensures var s3 := MapStack(s2, root, offset, 0, stackPages);
            var done := s3.Some? && MapWindow(s3.value, root, offset, 0, length / PAGE_SIZE).Some?;
            var fits := && StackFits(offset, 0, stackPages) && (length > 0 ==> offset + length <= VA.TWO47)
                        && ApartFrom(hs, StackPages(offset, 0, stackPages)) && ApartFrom(hs, Span(offset, offset + length));
            && (done ==> fits) && (fits && Untyped(s2) >= 4 * stackPages + 3 * (length / PAGE_SIZE) ==> done)
  {
    hide SpaceOk, MapStack, MapWindow, Free, Taken, AllFree, Untyped, Outside, AllUser, MappedWith, ApartFrom, SegmentPages;
    var stack, window := StackPages(offset, 0, stackPages), Span(offset, offset + length);
    assert offset + PAGE_SIZE * (length / PAGE_SIZE) == offset + length;
    MapStackCompletes(s2, kernel, upper, root, offset, 0, stackPages);
    if StackFits(offset, 0, stackPages) {
      StackIsLow(offset, stackPages);
      FreeIsApart(s1, s2, root, hs, stack);
    }
    var s3 := MapStack(s2, root, offset, 0, stackPages);
    if s3.Some? {
      MapStackOk(s2, kernel, upper, root, offset, 0, stackPages);
      MapWindowCompletes(s3.value, kernel, upper, root, offset, 0, length / PAGE_SIZE);
      if length > 0 ==> offset + length <= VA.TWO47 {
        FreeIsApart(s1, s2, root, hs, window);
        StillFree(s2, s3.value, root, stack, window);
      }
    }
  }

  lemma {:induction false} StackIsLow(offset: nat, stackPages: nat)
    requires StackFits(offset, 0, stackPages)
    ensures forall a: VA.Usize :: a in StackPages(offset, 0, stackPages) ==> VA.LowerHalf(a)
  {
  }

  /**
   `Process::load` completes, when there are enough free frames, exactly if the current table can be
   borrowed and everything the program asks for fits; without that it never does.
   */
  lemma {:induction false} ProcessCompletes(s: Space, kernel: KernelTables, upper: seq<Entry>, current: nat,
                                            program: seq<Byte>, hs: seq<Segment>,
                                            stackPages: nat, offset: nat, length: nat)
    requires SpaceOk(s, kernel, upper) && IsRoot(s.place, current) && IsTable(s.mem, current)
    ensures |s.words| < MAX_FRAMES
    ensures var r := LoadProcess(s, current, program, hs, stackPages, offset, length);
            var fits := Borrowable(s.words, current) && LayoutFits(program, hs, stackPages, offset, length);
            && (r.Some? ==> fits && Untyped(s) > 0)
            && (fits && Untyped(s) >= EnoughFrames(hs, stackPages, length) ==> r.Some?)
  {
    hide SpaceOk, LoadAll, MapStack, MapWindow, NewRoot, Free, Taken, Borrowable, AllLevels, NothingElse, KernelHalf,
         SpacesKept, DataKept, UntypedFrom, AllFit, RoomForAll, TotalPages, StackPages, Span, ApartFrom, SegmentPages,
         Outside, AllUser, SegmentLoaded;
    SpaceWords(s, kernel, upper);
    var found := FindUntyped(s.words, s.cursor);
    if found.Some? && offset % PAGE_SIZE == 0 && length % PAGE_SIZE == 0 && offset + length < HIGHER_HALF {
      var root := found.value;
      var s1 := NewRoot(s, current, root).(cursor := root);
      NewSpaceOk(s, kernel, upper, current, root);
      RootUsesOne(s, current);
      forall a: VA.Usize | IsPage(a) && VA.LowerHalf(a) ensures Free(s1, root, a) {
        FreshIsFree(s, current, root, a);
      }
      FreshRoom(s1, root, program, hs);
      LoadAllCompletes(s1, kernel, upper, root, program, hs);
      var s2 := LoadAll(s1, root, program, hs);
      if s2.Some? {
        LoadAllOk(s1, kernel, upper, root, program, hs);
        RestCompletes(s1, s2.value, kernel, upper, root, hs, stackPages, offset, length);
      }
    }
  }
}
