/**
 Loading an ELF segment (`Segment::load` in harmony/kernel/src/arch/x86_64/bootup.rs), as a
 function on machine snapshots.  A run either completes or panics; the theorem is about the memory
 a completed run leaves behind, read through the address space it built (System V gABI, chapter 5,
 Program Header).
 */
module Loaders {
  import opened Layout
  import opened Wrappers
  import opened RetypeTables
  import opened FrameAllocators
  import opened PageTableEntries
  import opened PageTables
  import opened AddressSpaces
  import R = RetypeEntries
  import VA = VirtualAddresses

  datatype Segment = Segment(vaddr: nat, memsz: nat, offset: nat, filesz: nat,
                             readable: bool, writable: bool, executable: bool)

  const HIGHER_HALF: nat := 0xFFFF_8000_0000_0000

  const PARENT_FLAGS := Flags(false, true, true, false, false, 0, 0, 0)

  function PageFlags(h: Segment): (f: Flags) {
    Flags(true, h.writable, true, false, !h.executable, 0, 0, 0)
  }

  function End(h: Segment): (n: nat) { h.vaddr + h.memsz }

  function FileEnd(h: Segment): (n: nat) { h.offset + h.filesz }

  /** The assertions at the head of `load`; an overflowing sum panics like a failed assertion. */
  predicate Loadable(program: seq<Byte>, h: Segment) {
    End(h) <= HIGHER_HALF && FileEnd(h) <= |program| && FileEnd(h) < VA.TWO64 && h.memsz >= h.filesz
  }

  function Min(a: nat, b: nat): (m: nat) { if a <= b then a else b }

  /** Bytes copied into the page holding `v` when the file has been read up to `fcurrent`. */
  function Count(h: Segment, v: nat, fcurrent: nat): (n: nat)
    requires fcurrent <= FileEnd(h)
  {
    Min(FileEnd(h) - fcurrent, PAGE_SIZE - v % PAGE_SIZE)
  }

  /** A zeroed page with `n` program bytes from `fcurrent` copied to offset `at`. */
  function FilledPage(program: seq<Byte>, fcurrent: nat, n: nat, at: nat): (p: PageBytes)
    requires fcurrent + n <= |program| && at + n <= PAGE_SIZE
  {
    seq<Byte>(PAGE_SIZE, k requires 0 <= k < PAGE_SIZE => if at <= k < at + n then program[fcurrent + (k - at)] else 0)
  }

  /** Progress of the loop: the file has been read as far as the address says, or to its end. */
  predicate InStep(program: seq<Byte>, h: Segment, v: nat, fcurrent: nat) {
    && Loadable(program, h) && h.vaddr <= v && (v == h.vaddr || v % PAGE_SIZE == 0)
    && fcurrent == h.offset + Min(h.filesz, v - h.vaddr)
  }

  function NextPage(v: nat): (n: nat)
    ensures n > v && n % PAGE_SIZE == 0 && n - PAGE_SIZE <= v
  {
    v + (PAGE_SIZE - v % PAGE_SIZE)
  }

  /** The frame of this iteration is claimed for the user. */
  function ClaimUser(s: Space, f: nat): (r: Space)
    requires f < |s.words|
  {
    s.(words := Claimed(s.words, f, R.User), cursor := f)
  }

  /** A free frame `f` is claimed for the user and mapped at `page`. */
  function MapUser(s: Space, root: nat, page: VA.Usize, f: nat, flags: Flags): (r: (Space, MapResult))
    requires f < |s.words| < MAX_FRAMES && ValidFlags(flags)
    ensures |r.0.words| == |s.words|
  {
    MapTo(ClaimUser(s, f), root, page, Mapping(f, flags), PARENT_FLAGS)
  }

  function WithBytes(s: Space, f: nat, bytes: PageBytes): (r: Space) { s.(mem := s.mem[f := BytePage(bytes)]) }

  /** One iteration of the loop; `None` is a panic. */
  function LoadPage(s: Space, root: nat, program: seq<Byte>, h: Segment, v: nat, fcurrent: nat): (r: Option<Space>)
    requires |s.words| < MAX_FRAMES && InStep(program, h, v, fcurrent) && v < End(h)
    ensures r.Some? ==> |r.value.words| == |s.words|
  {
    var found := FindUntyped(s.words, s.cursor);
    if found.None? || !VA.Canonical(v) || !h.readable then None else
    var (s2, answer) := MapUser(s, root, VA.ContainingPage(v), found.value, PageFlags(h));
    if answer != MapOk then None else
    Some(WithBytes(s2, found.value, FilledPage(program, fcurrent, Count(h, v, fcurrent), v % PAGE_SIZE)))
  }

  lemma {:induction false} StepOn(program: seq<Byte>, h: Segment, v: nat, fcurrent: nat)
    requires InStep(program, h, v, fcurrent) && v < End(h)
    ensures InStep(program, h, NextPage(v), fcurrent + Count(h, v, fcurrent))
  {
  }

  /** The loop of `load`. */
  function LoadFrom(s: Space, root: nat, program: seq<Byte>, h: Segment, v: nat, fcurrent: nat): (r: Option<Space>)
    requires |s.words| < MAX_FRAMES && InStep(program, h, v, fcurrent)
    ensures r.Some? ==> |r.value.words| == |s.words|
    decreases End(h) - v
  {
    if v >= End(h) then Some(s) else
    var s' := LoadPage(s, root, program, h, v, fcurrent);
    if s'.None? then None else
    StepOn(program, h, v, fcurrent);
    LoadFrom(s'.value, root, program, h, NextPage(v), fcurrent + Count(h, v, fcurrent))
  }

  /** `Segment::load`. */
  function Load(s: Space, root: nat, program: seq<Byte>, h: Segment): (r: Option<Space>)
    requires |s.words| < MAX_FRAMES
    ensures r.Some? ==> |r.value.words| == |s.words|
  {
    if !Loadable(program, h) then None else LoadFrom(s, root, program, h, h.vaddr, h.offset)
  }

  // What a completed load leaves behind

  /** The byte the file format puts at virtual address `x` of a page of the segment. */
  function ImageByte(program: seq<Byte>, h: Segment, x: nat): (b: Byte)
    requires FileEnd(h) <= |program|
  {
    if h.vaddr <= x < h.vaddr + h.filesz then program[h.offset + (x - h.vaddr)] else 0
  }

  predicate Touched(h: Segment,
                    a: VA.Usize) { IsPage(a) && h.memsz > 0 && h.vaddr / PAGE_SIZE * PAGE_SIZE <= a < End(h) }

  /** The frame behind page `a`. */
  function FrameOf(s: Space, root: nat, a: VA.Usize): (f: nat) {
    var t := TranslateAddr(s.mem, root, a);
    if t.Mapped? then t.frame else 0
  }

  /** Page `a` is mapped, its leaf flags the segment's rights, to a user frame holding its part of the image. */
  ghost predicate PageLoaded(s: Space, root: nat, program: seq<Byte>, h: Segment, a: VA.Usize)
    requires FileEnd(h) <= |program|
  {
    var f := FrameOf(s, root, a);
    && TranslateAddr(s.mem, root, a).Mapped?
    && TranslateAddr(s.mem, root, a).flags == Flags(present := true, user := true, writable := h.writable,
                                                    noExecute := !h.executable, huge := false, cache := 0, soft := 0, top := 0)
    && f < |s.words| && R.ValueInto(s.words[f]) == R.Entry(R.User, 1)
    && f in s.mem && s.mem[f].BytePage?
    && forall k :: 0 <= k < PAGE_SIZE ==> s.mem[f].bytes[k] == ImageByte(program, h, a + k)
  }

  predicate Between(lo: int, hi: int, a: nat) { lo <= a < hi }

  ghost function Span(lo: nat, hi: nat): (r: iset<nat>) { iset a: nat | Between(lo, hi, a) }

  /** Pages of `root` outside `pages`, every other address space, and all data in use are untouched. */
  ghost predicate Outside(s: Space, s': Space, root: nat, pages: iset<nat>) {
    && |s'.words| == |s.words|
    && (forall r :: IsRoot(s.place, r) ==> IsRoot(s'.place, r))
    && (forall r, a: VA.Usize :: IsRoot(s.place, r) && IsPage(a) && !(r == root && a in pages) ==>
          TranslateAddr(s'.mem, r, a) == TranslateAddr(s.mem, r, a))
    && (forall f :: 0 <= f < |s.words| && !IsUntyped(s.words, f) ==> s'.words[f] == s.words[f])
    && (forall t :: t in s'.place && t !in s.place ==> t < |s.words| && IsUntyped(s.words, t))
    && (forall f :: f in s.mem && f < |s.words| && !IsUntyped(s.words, f) && f !in s.place ==>
          f in s'.mem && s'.mem[f] == s.mem[f])
  }

  lemma {:induction false} OutsideTwice(s0: Space, s1: Space, s2: Space, root: nat, a: iset<nat>, b: iset<nat>)
    requires Outside(s0, s1, root, a) && Outside(s1, s2, root, b)
    ensures Outside(s0, s2, root, a + b)
  {
  }

  lemma {:induction false} ClaimUserOk(s: Space, kernel: KernelTables, upper: seq<Entry>, f: nat)
    requires SpaceOk(s, kernel, upper) && f < |s.words| && IsUntyped(s.words, f)
    ensures SpaceOk(ClaimUser(s, f), kernel, upper) && f !in s.place && f !in kernel
    ensures R.ValueInto(ClaimUser(s, f).words[f]) == R.Entry(R.User, 1)
  {
    FreshFrame(s, kernel, upper, f);
    hide Forest, KernelOk, SameUpper;
    R.UnpackPack(R.User, 1);
  }

  /** Filling a frame that is not a table changes no translation. */
  lemma {:induction false} BytesElsewhere(mem: Memory, place: Places, kernel: KernelTables, upper: seq<Entry>,
                                          f: nat, bytes: PageBytes)
    requires Forest(mem, place) && SameUpper(mem, place, kernel, upper) && f !in place
    ensures Forest(mem[f := BytePage(bytes)], place) && SameUpper(mem[f := BytePage(bytes)], place, kernel, upper)
  {
    forall u | u in place ensures TableOk(mem[f := BytePage(bytes)], place, u) {
      assert TableOk(mem, place, u);
    }
  }

  lemma {:induction false} WriteBytesOk(s: Space, kernel: KernelTables, upper: seq<Entry>, f: nat, bytes: PageBytes)
    requires SpaceOk(s, kernel, upper) && f !in s.place && f !in kernel
    ensures var s' := s.(mem := s.mem[f := BytePage(bytes)]);
            && SpaceOk(s', kernel, upper)
            && forall r, a: VA.Usize :: IsRoot(s.place, r) && IsPage(a) ==>
                                           TranslateAddr(s'.mem, r, a) == TranslateAddr(s.mem, r, a)
  {
    hide Forest, Rooted, KernelOk, SameUpper, KernelOwned, IdleHaveNoRefs, VA.Indices;
    var s' := s.(mem := s.mem[f := BytePage(bytes)]);
    BytesElsewhere(s.mem, s.place, kernel, upper, f, bytes);
    KernelApart(s.mem, s.place, kernel);
    KernelOkStable(s.mem, s.place, s'.mem, s'.place, kernel);
    forall r, a: VA.Usize | IsRoot(s.place, r) && IsPage(a)
      ensures TranslateAddr(s'.mem, r, a) == TranslateAddr(s.mem, r, a)
    {
      HalfOf(a);
      if VA.LowerHalf(a) {
        FreshWalk(s.mem, s.place, s'.mem, f, r, VA.Indices(a), 0, r, []);
      } else {
        HigherHalfCommon(s.mem, s.place, s'.mem, s'.place, kernel, upper, r, r, VA.Indices(a));
      }
    }
  }

  /** The page an iteration fills is the image of that page. */
  lemma {:induction false} FilledIsImage(program: seq<Byte>, h: Segment, v: nat, fcurrent: nat, k: nat)
    requires InStep(program, h, v, fcurrent) && v < End(h) && k < PAGE_SIZE
    ensures fcurrent + Count(h, v, fcurrent) <= |program| && v % PAGE_SIZE + Count(h, v, fcurrent) <= PAGE_SIZE
    ensures FilledPage(program, fcurrent, Count(h, v, fcurrent), v % PAGE_SIZE)[k] ==
            ImageByte(program, h, v / PAGE_SIZE * PAGE_SIZE + k)
  {
  }

  /** One iteration: the page is loaded into a frame that was free, and nothing else changes. */
  lemma {:induction false} LoadPageOk(s: Space, kernel: KernelTables, upper: seq<Entry>, root: nat,
                                      program: seq<Byte>, h: Segment, v: nat, fcurrent: nat)
    requires SpaceOk(s, kernel, upper) && IsRoot(s.place, root)
    requires InStep(program, h, v, fcurrent) && v < End(h) && LoadPage(s, root, program, h, v, fcurrent).Some?
    ensures v < VA.TWO64 && IsPage(VA.ContainingPage(v))
    ensures var s' := LoadPage(s, root, program, h, v, fcurrent).value;
            var a := VA.ContainingPage(v);
            && SpaceOk(s', kernel, upper) && Outside(s, s', root, Span(a, a + PAGE_SIZE))
            && PageLoaded(s', root, program, h, a)
            && FrameOf(s', root, a) < |s.words| && IsUntyped(s.words, FrameOf(s', root, a))
            && !TranslateAddr(s.mem, root, a).Mapped?
  {
    hide SpaceOk, Outside, PageLoaded, MapUser, Count, FilledPage, TranslateAddr, R.ValueInto;
    PageOfStep(h, v);
    FilledIsImage(program, h, v, fcurrent, 0);
    SpaceWords(s, kernel, upper);
    var a := VA.ContainingPage(v);
    var f := FindUntyped(s.words, s.cursor).value;
    var s2 := MapUser(s, root, a, f, PageFlags(h)).0;
    var bytes := FilledPage(program, fcurrent, Count(h, v, fcurrent), v % PAGE_SIZE);
    MapUserOk(s, kernel, upper, root, a, f, PageFlags(h));
    WriteUserOk(s, s2, kernel, upper, root, a, f, bytes);
    LoadedPage(WithBytes(s2, f, bytes), root, program, h, v, fcurrent, f, a);
  }

  /** A mapped page is found by `map_to` before it writes anything. */
  lemma {:induction false} MappedPageIsHit(mem: Memory, root: nat, a: VA.Usize)
    ensures TranslateAddr(mem, root, a).Mapped? ==> Probe(mem, root, VA.Indices(a), 0).Hit?
  {
  }

  /** Mapping a free frame for the user: the page, the frame and nothing else. */
  lemma {:induction false} MapUserOk(s: Space, kernel: KernelTables, upper: seq<Entry>, root: nat, a: VA.Usize,
                                     f: nat, flags: Flags)
    requires SpaceOk(s, kernel, upper) && IsRoot(s.place, root) && IsPage(a) && VA.LowerHalf(a)
    requires f < |s.words| && IsUntyped(s.words, f) && ValidFlags(flags) && flags.present
    requires MapUser(s, root, a, f, flags).1 == MapOk
    ensures var s' := MapUser(s, root, a, f, flags).0;
            && SpaceOk(s', kernel, upper) && Outside(s, s', root, Span(a, a + PAGE_SIZE))
            && TranslateAddr(s'.mem, root, a).Mapped?
            && TranslateAddr(s'.mem, root, a).frame == f && TranslateAddr(s'.mem, root, a).flags == flags
            && R.ValueInto(s'.words[f]) == R.Entry(R.User, 1) && f !in s'.place && f !in kernel
    ensures !TranslateAddr(s.mem, root, a).Mapped?
  {
    hide SpaceOk, Outside, OnlyTables, MapTo, TranslateAddr, R.ValueFor, Probe, VA.Indices;
    MappedPageIsHit(s.mem, root, a);
    SpaceWords(s, kernel, upper);
    var s1 := ClaimUser(s, f);
    var m := Mapping(f, flags);
    var s' := MapUser(s, root, a, f, flags).0;
    ClaimUserOk(s, kernel, upper, f);
    MapToKeeps(s1, kernel, upper, root, a, m, PARENT_FLAGS);
    MapToUpdatesOnePage(s1, kernel, upper, root, a, m, PARENT_FLAGS, root, a);
    UserFrameKept(s1, s', kernel, upper, f);
    MappedOutside(s, s1, s', kernel, upper, f, root, a, m);
  }

  /** Filling the frame just mapped. */
  lemma {:induction false} WriteUserOk(s: Space, s2: Space, kernel: KernelTables, upper: seq<Entry>,
                                       root: nat, a: VA.Usize, f: nat, bytes: PageBytes)
    requires SpaceOk(s2, kernel, upper) && Outside(s, s2, root, Span(a, a + PAGE_SIZE)) && f !in s2.place && f !in kernel
    requires f < |s.words| && IsUntyped(s.words, f) && IsRoot(s.place, root) && IsPage(a)
    ensures var s' := WithBytes(s2, f, bytes);
            && SpaceOk(s', kernel, upper) && Outside(s, s', root, Span(a, a + PAGE_SIZE))
            && TranslateAddr(s'.mem, root, a) == TranslateAddr(s2.mem, root, a)
  {
    hide SpaceOk, TranslateAddr;
    WriteBytesOk(s2, kernel, upper, f, bytes);
    WriteOutside(s, s2, WithBytes(s2, f, bytes), root, a, f);
  }

  lemma {:induction false} PageOfStep(h: Segment, v: nat)
    requires v < End(h) <= HIGHER_HALF
    ensures v < VA.TWO64
    ensures VA.Canonical(v) ==> VA.LowerHalf(v) && VA.LowerHalf(VA.ContainingPage(v)) && IsPage(VA.ContainingPage(v))
  {
  }

  lemma {:induction false} LoadedPage(s: Space, root: nat, program: seq<Byte>, h: Segment, v: nat, fcurrent: nat,
                                      f: nat, a: VA.Usize)
    requires InStep(program, h, v, fcurrent) && v < End(h) && a == v / PAGE_SIZE * PAGE_SIZE
    requires TranslateAddr(s.mem, root, a).Mapped? && TranslateAddr(s.mem, root, a).flags == PageFlags(h)
    requires TranslateAddr(s.mem, root, a).frame == f < |s.words| && R.ValueInto(s.words[f]) == R.Entry(R.User, 1)
    requires f in s.mem
    requires s.mem[f] == BytePage(FilledPage(program, fcurrent, Count(h, v, fcurrent), v % PAGE_SIZE))
    ensures PageLoaded(s, root, program, h, a)
  {
    hide TranslateAddr, FilledPage, Count, ImageByte;
    forall k | 0 <= k < PAGE_SIZE ensures s.mem[f].bytes[k] == ImageByte(program, h, a + k) {
      FilledIsImage(program, h, v, fcurrent, k);
    }
  }

  /** A user frame stays a user frame, and no table moves into it. */
  lemma {:induction false} UserFrameKept(s: Space, s': Space, kernel: KernelTables, upper: seq<Entry>, f: nat)
    requires SpaceOk(s', kernel, upper) && OnlyTables(s, s')
    requires f < |s.words| && R.ValueInto(s.words[f]) == R.Entry(R.User, 1)
    ensures |s'.words| == |s.words| && s'.words[f] == s.words[f] && f !in s'.place && f !in kernel
  {
  }

  lemma {:induction false} MappedOutside(s: Space, s1: Space, s2: Space, kernel: KernelTables, upper: seq<Entry>,
                      f: nat, root: nat, a: VA.Usize, m: Mapping)
    requires SpaceOk(s1, kernel, upper) && IsRoot(s.place, root) && IsPage(a) && VA.LowerHalf(a)
    requires f < |s.words| && IsUntyped(s.words, f) && f !in s.place && s1 == ClaimUser(s, f)
    requires R.ValueInto(s1.words[f]) == R.Entry(R.User, 1)
    requires ValidMapping(m) && |s.words| < MAX_FRAMES && s2 == MapTo(s1, root, a, m, PARENT_FLAGS).0
    ensures Outside(s, s2, root, Span(a, a + PAGE_SIZE))
  {
    hide SpaceOk, MapTo, TranslateAddr, R.ValueFor, R.ValueInto, Upper, Probe, UntypedFrom;
    forall r, b: VA.Usize | IsRoot(s.place, r) && IsPage(b) && !(r == root && a <= b < a + PAGE_SIZE)
      ensures TranslateAddr(s2.mem, r, b) == TranslateAddr(s.mem, r, b)
    {
      MapToUpdatesOnePage(s1, kernel, upper, root, a, m, PARENT_FLAGS, r, b);
    }
    MapToKeeps(s1, kernel, upper, root, a, m, PARENT_FLAGS);
  }

  lemma {:induction false} WriteOutside(s: Space, s2: Space, s': Space, root: nat, a: VA.Usize, f: nat)
    requires Outside(s, s2, root, Span(a, a + PAGE_SIZE))
    requires f in s'.mem && s' == s2.(mem := s2.mem[f := s'.mem[f]])
    requires f < |s.words| && IsUntyped(s.words, f)
    requires forall r, b: VA.Usize :: IsRoot(s2.place, r) && IsPage(b) ==>
               TranslateAddr(s'.mem, r, b) == TranslateAddr(s2.mem, r, b)
    ensures Outside(s, s', root, Span(a, a + PAGE_SIZE))
  {
  }

  /** Page `a`, not mapped in `s`, is loaded into a frame that was free in `s`. */
  ghost predicate NewlyLoaded(s: Space, s': Space, root: nat, program: seq<Byte>, h: Segment, a: VA.Usize)
    requires FileEnd(h) <= |program|
  {
    && PageLoaded(s', root, program, h, a) && !TranslateAddr(s.mem, root, a).Mapped?
    && FrameOf(s', root, a) < |s.words| && IsUntyped(s.words, FrameOf(s', root, a))
  }

  /** The pages of the segment from `lo` on are loaded, each into a frame of its own. */
  ghost predicate AllLoaded(s: Space, s': Space, root: nat, program: seq<Byte>, h: Segment, lo: nat)
    requires FileEnd(h) <= |program|
  {
    && (forall a: VA.Usize :: IsPage(a) && lo <= a < End(h) ==> NewlyLoaded(s, s', root, program, h, a))
    && (forall a: VA.Usize, b: VA.Usize :: IsPage(a) && IsPage(b) && lo <= a < End(h) && lo <= b < End(h) && a != b ==>
          FrameOf(s', root, a) != FrameOf(s', root, b))
  }

  /** A loaded page stays loaded while later pages are loaded. */
  lemma {:induction false} PageStays(s1: Space, s2: Space, kernel: KernelTables, upper: seq<Entry>, root: nat,
                                     program: seq<Byte>,
                  h: Segment, a: VA.Usize, pages: iset<nat>)
    requires SpaceOk(s1, kernel, upper) && IsRoot(s1.place, root) && IsPage(a) && a !in pages
    requires FileEnd(h) <= |program| && PageLoaded(s1, root, program, h, a) && Outside(s1, s2, root, pages)
    ensures PageLoaded(s2, root, program, h, a) && FrameOf(s2, root, a) == FrameOf(s1, root, a)
    ensures FrameOf(s1, root, a) < |s1.words| && !IsUntyped(s1.words, FrameOf(s1, root, a))
  {
  }

  /** The addresses of the pages that hold a byte of the segment. */
  ghost function Pages(h: Segment): (r: iset<nat>) { Span(h.vaddr / PAGE_SIZE * PAGE_SIZE, Above(h, h.vaddr)) }

  function Above(h: Segment, v: nat): (hi: nat) {
    if v < End(h) then (End(h) + PAGE_SIZE - 1) / PAGE_SIZE * PAGE_SIZE else v / PAGE_SIZE * PAGE_SIZE
  }

  lemma {:induction false} AboveNext(h: Segment, v: nat)
    requires v < End(h)
    ensures v / PAGE_SIZE * PAGE_SIZE + PAGE_SIZE == NextPage(v) == NextPage(v) / PAGE_SIZE * PAGE_SIZE
    ensures NextPage(v) <= Above(h, v) && Above(h, NextPage(v)) == Above(h, v)
  {
  }

  /** The page loaded first and the pages loaded after it are together all loaded. */
  lemma {:induction false} LoadedFirst(s: Space, s1: Space, s2: Space, root: nat, program: seq<Byte>, h: Segment,
                                       v: nat, a: VA.Usize)
    requires v < End(h) && a == v / PAGE_SIZE * PAGE_SIZE && IsPage(a) && FileEnd(h) <= |program|
    requires Outside(s, s1, root, Span(a, NextPage(v))) && FrameOf(s2, root, a) == FrameOf(s1, root, a)
    requires PageLoaded(s2, root, program, h, a) && !TranslateAddr(s.mem, root, a).Mapped? && IsRoot(s.place, root)
    requires FrameOf(s1, root, a) < |s.words| && IsUntyped(s.words, FrameOf(s1, root, a))
    requires !IsUntyped(s1.words, FrameOf(s1, root, a))
    requires NextPage(v) < End(h) ==> AllLoaded(s1, s2, root, program, h, NextPage(v))
    ensures AllLoaded(s, s2, root, program, h, a)
  {
    hide PageLoaded, FrameOf, R.ValueInto, TranslateAddr;
    AboveNext(h, v);
    forall b: VA.Usize | IsPage(b) && a <= b < End(h) ensures b == a || NextPage(v) <= b {
    }
    forall b: VA.Usize | IsPage(b) && NextPage(v) <= b < End(h) ensures NewlyLoaded(s, s2, root, program, h, b) {
      assert NewlyLoaded(s1, s2, root, program, h, b);
    }
  }

  lemma {:induction false} LoadFromOk(s: Space, kernel: KernelTables, upper: seq<Entry>, root: nat,
                                       program: seq<Byte>, h: Segment, v: nat, fcurrent: nat)
    requires SpaceOk(s, kernel, upper) && IsRoot(s.place, root)
    requires InStep(program, h, v, fcurrent) && LoadFrom(s, root, program, h, v, fcurrent).Some?
    ensures var s' := LoadFrom(s, root, program, h, v, fcurrent).value;
            && SpaceOk(s', kernel, upper) && Outside(s, s', root, Span(v / PAGE_SIZE * PAGE_SIZE, Above(h, v)))
            && (v < End(h) ==> AllLoaded(s, s', root, program, h, v / PAGE_SIZE * PAGE_SIZE))
    decreases End(h) - v
  {
    hide SpaceOk, Outside, PageLoaded, NewlyLoaded, AllLoaded, LoadPage, TranslateAddr, FrameOf, Count, Above;
    SpaceWords(s, kernel, upper);
    if v >= End(h) {
      OutsideItself(s, root, Span(v / PAGE_SIZE * PAGE_SIZE, Above(h, v)));
    } else {
      LoadPageOk(s, kernel, upper, root, program, h, v, fcurrent);
      var s1 := LoadPage(s, root, program, h, v, fcurrent).value;
      var s2 := LoadFrom(s, root, program, h, v, fcurrent).value;
      var a := VA.ContainingPage(v);
      var next := NextPage(v);
      StepOn(program, h, v, fcurrent);
      AboveNext(h, v);
      KeptRoot(s, s1, root, Span(a, next));
      LoadFromOk(s1, kernel, upper, root, program, h, next, fcurrent + Count(h, v, fcurrent));
      PageStays(s1, s2, kernel, upper, root, program, h, a, Span(next, Above(h, v)));
      OutsideTwice(s, s1, s2, root, Span(a, next), Span(next, Above(h, v)));
      assert Span(a, next) + Span(next, Above(h, v)) == Span(a, Above(h, v));
      LoadedFirst(s, s1, s2, root, program, h, v, a);
    }
  }

  lemma {:induction false} OutsideItself(s: Space, root: nat, pages: iset<nat>)
    ensures Outside(s, s, root, pages)
  {
  }

  lemma {:induction false} KeptRoot(s: Space, s': Space, root: nat, pages: iset<nat>)
    requires Outside(s, s', root, pages) && IsRoot(s.place, root)
    ensures IsRoot(s'.place, root)
  {
  }

  /**
   `Segment::load` builds the ELF image.  If it completes, every page the segment touches is mapped
   with the segment's rights as leaf flags to a user frame of its own that was free before, and reading through
   the new translation gives file byte `offset + k` at `vaddr + k` for k below `filesz` and zero at
   every other byte of those pages; all other pages and all data already in use are unchanged.
   */
  lemma {:induction false} LoadBuildsImage(s: Space, kernel: KernelTables, upper: seq<Entry>, root: nat,
                                           program: seq<Byte>, h: Segment)
    requires SpaceOk(s, kernel, upper) && IsRoot(s.place, root) && Load(s, root, program, h).Some?
    ensures Loadable(program, h)
    ensures var s' := Load(s, root, program, h).value;
            && SpaceOk(s', kernel, upper)
            && Outside(s, s', root, Pages(h))
            && (forall a: VA.Usize :: Touched(h, a) ==> NewlyLoaded(s, s', root, program, h, a))
            && (forall a: VA.Usize, b: VA.Usize :: Touched(h, a) && Touched(h, b) && a != b ==>
                  FrameOf(s', root, a) != FrameOf(s', root, b))
  {
    LoadFromOk(s, kernel, upper, root, program, h, h.vaddr, h.offset);
    hide SpaceOk, Outside, NewlyLoaded, FrameOf, LoadFrom;
  }

  // Upper-level flags

  /** The flags of the levels that loading adds. */
  const USER_LEVEL := WithPresent(PARENT_FLAGS)

  /** Where all levels have them, the flags of the leaf alone decide what user code may do. */
  lemma {:induction false} LeafDecides(t: Translation)
    requires t.Mapped? && t.via == Repeat(3, USER_LEVEL)
    ensures CanUse(t) <==> t.flags.user
    ensures CanWrite(t) <==> t.flags.writable
    ensures CanExecute(t) <==> !t.flags.noExecute
  {
    assert Repeat(3, USER_LEVEL) == [USER_LEVEL, USER_LEVEL, USER_LEVEL];
  }

  lemma {:induction false} MapUserKeepsLevels(s: Space, kernel: KernelTables, upper: seq<Entry>,
                                              root: nat, a: VA.Usize, f: nat, flags: Flags)
    requires SpaceOk(s, kernel, upper) && IsRoot(s.place, root) && IsPage(a) && VA.LowerHalf(a)
    requires f < |s.words| && IsUntyped(s.words, f) && ValidFlags(flags) && AllLevels(s, root, USER_LEVEL)
    ensures |s.words| < MAX_FRAMES && AllLevels(MapUser(s, root, a, f, flags).0, root, USER_LEVEL)
  {
    hide SpaceOk, MapFrom, VA.Indices;
    SpaceWords(s, kernel, upper);
    var s1 := ClaimUser(s, f);
    ClaimUserOk(s, kernel, upper, f);
    ReadyAtRoot(s1, kernel, upper, root, a, Mapping(f, flags), PARENT_FLAGS);
    MapKeepsLevels(s1, kernel, upper, root, root, VA.Indices(a), 0, Mapping(f, flags), USER_LEVEL);
  }

  lemma {:induction false} BytesKeepLevels(s: Space, root: nat, f: nat, bytes: PageBytes, flags: Flags)
    requires AllLevels(s, root, flags) && f !in s.place
    ensures AllLevels(WithBytes(s, f, bytes), root, flags)
  {
    var s' := WithBytes(s, f, bytes);
    forall t, i | t in s'.place && s'.place[t].root == root && Inner(s'.place[t], i) ensures LevelOk(s'.mem, t, i, flags) {
      assert LevelOk(s.mem, t, i, flags);
    }
  }

  lemma {:induction false} LoadPageKeepsLevels(s: Space, kernel: KernelTables, upper: seq<Entry>, root: nat,
                                               program: seq<Byte>, h: Segment, v: nat, fcurrent: nat)
    requires SpaceOk(s, kernel, upper) && IsRoot(s.place, root) && AllLevels(s, root, USER_LEVEL)
    requires InStep(program, h, v, fcurrent) && v < End(h) && LoadPage(s, root, program, h, v, fcurrent).Some?
    ensures AllLevels(LoadPage(s, root, program, h, v, fcurrent).value, root, USER_LEVEL)
  {
    hide SpaceOk, Outside, MapUser, Count, FilledPage, TranslateAddr, R.ValueInto, AllLevels, IsUntyped;
    PageOfStep(h, v);
    FilledIsImage(program, h, v, fcurrent, 0);
    SpaceWords(s, kernel, upper);
    var a := VA.ContainingPage(v);
    var f := FindUntyped(s.words, s.cursor).value;
    MapUserOk(s, kernel, upper, root, a, f, PageFlags(h));
    MapUserKeepsLevels(s, kernel, upper, root, a, f, PageFlags(h));
    BytesKeepLevels(MapUser(s, root, a, f, PageFlags(h)).0, root, f,
                    FilledPage(program, fcurrent, Count(h, v, fcurrent), v % PAGE_SIZE), USER_LEVEL);
  }

  lemma {:induction false} LoadFromKeepsLevels(s: Space, kernel: KernelTables, upper: seq<Entry>, root: nat,
                                               program: seq<Byte>, h: Segment, v: nat, fcurrent: nat)
    requires SpaceOk(s, kernel, upper) && IsRoot(s.place, root) && AllLevels(s, root, USER_LEVEL)
    requires InStep(program, h, v, fcurrent) && LoadFrom(s, root, program, h, v, fcurrent).Some?
    ensures AllLevels(LoadFrom(s, root, program, h, v, fcurrent).value, root, USER_LEVEL)
    decreases End(h) - v
  {
    hide SpaceOk, Outside, PageLoaded, LoadPage, TranslateAddr, FrameOf, Count, AllLevels;
    SpaceWords(s, kernel, upper);
    if v < End(h) {
      LoadPageOk(s, kernel, upper, root, program, h, v, fcurrent);
      LoadPageKeepsLevels(s, kernel, upper, root, program, h, v, fcurrent);
      var s1 := LoadPage(s, root, program, h, v, fcurrent).value;
      StepOn(program, h, v, fcurrent);
      KeptRoot(s, s1, root, Span(VA.ContainingPage(v), VA.ContainingPage(v) + PAGE_SIZE));
      LoadFromKeepsLevels(s1, kernel, upper, root, program, h, NextPage(v), fcurrent + Count(h, v, fcurrent));
    }
  }
}
