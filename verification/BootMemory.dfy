/**
 The boot-time side of the retype table (harmony/kernel/src/retyping.rs): the bump allocator over
 the bootloader's memory map, and `RetypeTable::new`, which takes the memory of the table from
 that allocator and then types every frame after the map that is left.
 */
module BootMemory {
  import opened Layout
  import opened Wrappers
  import R = RetypeEntries
  import O = Ownership

  const PHYSICAL_LIMIT: nat := 0x10_0000_0000_0000

  /** Sums and products of addresses are 64 bits wide; one that does not fit is a panic. */
  const TWO64: nat := 0x1_0000_0000_0000_0000

  datatype Kind = Usable | BootloaderReclaimable | KernelAndModules | Other

  datatype Region = Region(base: nat, length: nat, kind: Kind)

  /** `Granted` is the start address handed out, `Exhausted` the source's `None`. */
  datatype Grant = Granted(start: nat) | Exhausted | Panicked

  /** How the scan of the map ends: at a region, past the end, or at a failed assertion. */
  datatype Search = Hit(at: nat) | Past | Broken

  predicate Fits(r: Region, want: nat) {
    r.kind == Usable && r.length >= want
  }

  /** The scan shared by `alloc_frame` and `alloc_frames`. */
  function Scan(regions: seq<Region>, index: nat, want: nat): (r: Search)
    ensures r.Hit? ==> index <= r.at < |regions| && Fits(regions[r.at], want) && regions[r.at].length % FRAME_SIZE == 0
    ensures r.Hit? ==> forall j :: index <= j < r.at ==> !Fits(regions[j], want)
    ensures r.Past? ==> forall j :: index <= j < |regions| ==> !Fits(regions[j], want)
    ensures r.Broken? <==> exists j :: index <= j < |regions| && regions[j].length % FRAME_SIZE != 0 &&
                                       forall i :: index <= i < j ==> !Fits(regions[i], want)
    decreases |regions| - index
  {
    if index >= |regions| then Past
    else if regions[index].length % FRAME_SIZE != 0 then Broken
    else if Fits(regions[index], want) then Hit(index)
    else Scan(regions, index + 1, want)
  }

  function Take(regions: seq<Region>, at: nat, want: nat): (r: seq<Region>)
    requires at < |regions| && regions[at].length >= want
    ensures |r| == |regions|
  {
    regions[at := Region(regions[at].base + want, regions[at].length - want, regions[at].kind)]
  }

  datatype Request = One | Many(count: nat)

  function Wanted(q: Request): (n: nat) {
    if q.One? then FRAME_SIZE else q.count * FRAME_SIZE
  }

  /** One call of the allocator: the reply, and the map and cursor it leaves (if it does not panic). */
  function Serve(regions: seq<Region>, index: nat, q: Request): (r: (Grant, seq<Region>, nat)) {
    if Wanted(q) >= TWO64 then (Panicked, regions, index) else
    match Scan(regions, index, Wanted(q))
    case Broken => (Panicked, regions, index)
    case Past => (Exhausted, regions, if index < |regions| then |regions| else index)
    case Hit(at) =>
      var base := regions[at].base;
      if base + Wanted(q) >= TWO64 || base >= PHYSICAL_LIMIT || (q.One? && base % FRAME_SIZE != 0)
      then (Panicked, regions, index)
      else (Granted(base), Take(regions, at, Wanted(q)), at)
  }

  /** Region `at` is the first at or after the cursor with room for `n` bytes, and the lengths up to it are whole frames. */
  predicate FirstWithRoom(regions: seq<Region>, index: nat, n: nat, at: nat) {
    && index <= at < |regions| && regions[at].kind == Usable && n <= regions[at].length
    && (forall j :: index <= j <= at ==> regions[j].length % 4096 == 0)
    && (forall j :: index <= j < at ==> regions[j].kind != Usable || regions[j].length < n)
  }

  /**
   What a call gives: the start of the first usable region with room, which shrinks by what was asked
   for; nothing exactly if there is no such region; and a panic only for a length that is not whole
   frames or an address out of range.
   */
  lemma {:induction false} ServeDoes(regions: seq<Region>, index: nat, q: Request)
    ensures var n := 4096 * (if q.One? then 1 else q.count);
            var (g, left, at) := Serve(regions, index, q);
            && (g.Granted? ==>
                  && FirstWithRoom(regions, index, n, at) && g.start == regions[at].base
                  && left == regions[at := Region(regions[at].base + n, regions[at].length - n, Usable)])
            && (g == Exhausted <==>
                  && n < 0x1_0000_0000_0000_0000
                  && forall j :: index <= j < |regions| ==>
                       regions[j].length % 4096 == 0 && (regions[j].kind != Usable || regions[j].length < n))
            && (g == Exhausted ==> left == regions && at == if index < |regions| then |regions| else index)
            && (g.Granted? <==> exists i: nat :: FirstWithRoom(regions, index, n, i) && InRange(regions[i].base, n, q.One?))
  {
    var n := 4096 * (if q.One? then 1 else q.count);
    var found := Scan(regions, index, n);
    assert found.Hit? ==> FirstWithRoom(regions, index, n, found.at);
    forall i: nat | FirstWithRoom(regions, index, n, i) ensures found == Hit(i) {
      assert Fits(regions[i], n);
    }
  }

  /** What is handed out starts at a physical address, and the region's new base does not overflow. */
  predicate InRange(base: nat, n: nat, whole: bool) {
    base < 0x10_0000_0000_0000 && base + n < 0x1_0000_0000_0000_0000 && (whole ==> base % 4096 == 0)
  }

  class BumpAllocator {
    var memoryMap: seq<Region>
    var index: nat

    constructor (memoryMap: seq<Region>)
      ensures this.memoryMap == memoryMap && index == 0
    {
      this.memoryMap, index := memoryMap, 0;
    }

    method AllocFrame() returns (g: Grant)
      modifies this
      ensures var (reply, left, at) := Serve(old(memoryMap), old(index), One);
              g == reply && (g != Panicked ==> memoryMap == left && index == at)
    {
      ghost var found := Scan(memoryMap, index, FRAME_SIZE);
      while index < |memoryMap|
        invariant memoryMap == old(memoryMap) && Scan(memoryMap, index, FRAME_SIZE) == found
        invariant old(index) <= index && (index <= |memoryMap| || index == old(index))
        decreases |memoryMap| - index
      {
        var entry := memoryMap[index];
        if entry.length % FRAME_SIZE != 0 {
          return Panicked;
        }
        if entry.kind == Usable && entry.length > 0 {
          if entry.base + FRAME_SIZE >= TWO64 {
            return Panicked;
          }
          memoryMap := memoryMap[index := Region(entry.base + FRAME_SIZE, entry.length - FRAME_SIZE, entry.kind)];
          if entry.base >= PHYSICAL_LIMIT || entry.base % FRAME_SIZE != 0 {
            return Panicked;
          }
          return Granted(entry.base);
        }
        index := index + 1;
      }
      return Exhausted;
    }

    method AllocFrames(count: nat) returns (g: Grant)
      modifies this
      ensures var (reply, left, at) := Serve(old(memoryMap), old(index), Many(count));
              g == reply && (g != Panicked ==> memoryMap == left && index == at)
    {
      var requested := count * FRAME_SIZE;
      if requested >= TWO64 {
        return Panicked;
      }
      ghost var found := Scan(memoryMap, index, requested);
      while index < |memoryMap|
        invariant memoryMap == old(memoryMap) && Scan(memoryMap, index, requested) == found
        invariant old(index) <= index && (index <= |memoryMap| || index == old(index))
        decreases |memoryMap| - index
      {
        var entry := memoryMap[index];
        if entry.length % FRAME_SIZE != 0 {
          return Panicked;
        }
        if entry.kind == Usable && entry.length >= requested {
          if entry.base + requested >= TWO64 {
            return Panicked;
          }
          memoryMap := memoryMap[index := Region(entry.base + requested, entry.length - requested, entry.kind)];
          if entry.base >= PHYSICAL_LIMIT {
            return Panicked;
          }
          return Granted(entry.base);
        }
        index := index + 1;
      }
      return Exhausted;
    }
  }

  // Conservation

  predicate Within(base: nat, length: nat, x: nat) {
    base <= x < base + length
  }

  /** How many usable regions hold address `x`. */
  function Free(regions: seq<Region>, x: nat): (n: nat) {
    if regions == [] then 0 else
    Free(regions[..|regions| - 1], x) + FreeIn(regions[|regions| - 1], x)
  }

  function FreeIn(r: Region, x: nat): (n: nat) {
    if r.kind == Usable && Within(r.base, r.length, x) then 1 else 0
  }

  /** A granted range. */
  datatype Block = Block(start: nat, length: nat)

  /** How many granted ranges hold address `x`. */
  function Given(blocks: seq<Block>, x: nat): (n: nat) {
    if blocks == [] then 0 else
    Given(blocks[..|blocks| - 1], x) +
    (if Within(blocks[|blocks| - 1].start, blocks[|blocks| - 1].length, x) then 1 else 0)
  }

  datatype Books = Books(regions: seq<Region>, index: nat, blocks: seq<Block>)

  /** The books after one call; `None` if it panics. */
  function After(b: Books, q: Request): (r: Option<Books>) {
    var (g, regions, index) := Serve(b.regions, b.index, q);
    match g
    case Panicked => None
    case Exhausted => Some(Books(regions, index, b.blocks))
    case Granted(start) => Some(Books(regions, index, b.blocks + [Block(start, Wanted(q))]))
  }

  function Run(b: Books, qs: seq<Request>): (r: Option<Books>)
    decreases |qs|
  {
    if qs == [] then Some(b) else
    var b' := After(b, qs[0]);
    if b'.None? then None else Run(b'.value, qs[1..])
  }

  lemma {:induction false} FreeUpdate(regions: seq<Region>, i: nat, r: Region, x: nat)
    requires i < |regions|
    ensures Free(regions[i := r], x) + FreeIn(regions[i], x) == Free(regions, x) + FreeIn(r, x)
  {
    var n := |regions| - 1;
    if i == n {
      assert regions[i := r][..n] == regions[..n];
    } else {
      FreeUpdate(regions[..n], i, r, x);
      assert regions[i := r][..n] == regions[..n][i := r];
    }
  }

  lemma {:induction false} AfterConserves(b: Books, q: Request, x: nat)
    requires After(b, q).Some?
    ensures var t := After(b, q).value;
            Free(t.regions, x) + Given(t.blocks, x) == Free(b.regions, x) + Given(b.blocks, x)
  {
    var found := Scan(b.regions, b.index, Wanted(q));
    if found.Hit? {
      var at := found.at;
      var r := b.regions[at];
      FreeUpdate(b.regions, at, Region(r.base + Wanted(q), r.length - Wanted(q), r.kind), x);
      assert (b.blocks + [Block(r.base, Wanted(q))])[..|b.blocks|] == b.blocks;
    }
  }

  /**
   Conservation.  After any calls whatever, on any memory map, every address is held by as many
   granted blocks and remaining usable regions together as there were usable regions holding it.
   */
  lemma {:induction false} RunConserves(b: Books, qs: seq<Request>, x: nat)
    requires Run(b, qs).Some?
    ensures var t := Run(b, qs).value;
            Free(t.regions, x) + Given(t.blocks, x) == Free(b.regions, x) + Given(b.blocks, x)
    decreases |qs|
  {
    if qs != [] {
      AfterConserves(b, qs[0], x);
      RunConserves(After(b, qs[0]).value, qs[1..], x);
    }
  }

  predicate AlignedUsable(regions: seq<Region>) {
    forall i :: 0 <= i < |regions| && regions[i].kind == Usable ==> regions[i].base % FRAME_SIZE == 0
  }

  predicate AlignedBlocks(blocks: seq<Block>) {
    forall i :: 0 <= i < |blocks| ==> blocks[i].start % FRAME_SIZE == 0 && blocks[i].length % FRAME_SIZE == 0
  }

  lemma {:induction false} RunAligned(b: Books, qs: seq<Request>)
    requires Run(b, qs).Some? && AlignedUsable(b.regions) && AlignedBlocks(b.blocks)
    ensures AlignedUsable(Run(b, qs).value.regions) && AlignedBlocks(Run(b, qs).value.blocks)
    decreases |qs|
  {
    if qs != [] {
      assert Wanted(qs[0]) % FRAME_SIZE == 0;
      RunAligned(After(b, qs[0]).value, qs[1..]);
    }
  }

  lemma {:induction false} GivenAt(blocks: seq<Block>, i: nat, x: nat)
    requires i < |blocks| && Within(blocks[i].start, blocks[i].length, x)
    ensures Given(blocks, x) >= 1
  {
    if i < |blocks| - 1 {
      GivenAt(blocks[..|blocks| - 1], i, x);
    }
  }

  lemma {:induction false} GivenTwice(blocks: seq<Block>, i: nat, j: nat, x: nat)
    requires i < j < |blocks|
    requires Within(blocks[i].start, blocks[i].length, x) && Within(blocks[j].start, blocks[j].length, x)
    ensures Given(blocks, x) >= 2
  {
    var shorter := blocks[..|blocks| - 1];
    if j < |blocks| - 1 {
      GivenTwice(shorter, i, j, x);
    } else {
      GivenAt(shorter, i, x);
    }
  }

  lemma {:induction false} FreeSomewhere(regions: seq<Region>, x: nat) returns (i: nat)
    requires Free(regions, x) >= 1
    ensures i < |regions| && FreeIn(regions[i], x) == 1
  {
    i := |regions| - 1;
    if FreeIn(regions[i], x) == 0 {
      i := FreeSomewhere(regions[..|regions| - 1], x);
    }
  }

  /** Regions in address order that do not overlap. */
  predicate Sorted(regions: seq<Region>) {
    forall i, j :: 0 <= i < j < |regions| ==> regions[i].base + regions[i].length <= regions[j].base
  }

  lemma {:induction false} SortedOnce(regions: seq<Region>, x: nat)
    requires Sorted(regions)
    ensures Free(regions, x) <= 1
  {
    if regions != [] {
      var n := |regions| - 1;
      SortedOnce(regions[..n], x);
      if FreeIn(regions[n], x) == 1 && Free(regions[..n], x) >= 1 {
        var i := FreeSomewhere(regions[..n], x);
      }
    }
  }

  /**
   On every map, sorted or not, at every address that no two usable regions claim: no two granted
   blocks hold it, none holds it together with what is left, and one or the other holds it exactly
   if it was usable.  Blocks are aligned where the usable regions are.
   */
  lemma {:induction false} BlocksPartitionMemory(regions: seq<Region>, qs: seq<Request>, x: nat)
    requires Free(regions, x) <= 1 && Run(Books(regions, 0, []), qs).Some?
    ensures var t := Run(Books(regions, 0, []), qs).value;
            && (forall i, j :: 0 <= i < j < |t.blocks| && Within(t.blocks[i].start, t.blocks[i].length, x) ==>
                  !Within(t.blocks[j].start, t.blocks[j].length, x))
            && (forall i :: 0 <= i < |t.blocks| && Within(t.blocks[i].start, t.blocks[i].length, x) ==>
                  Free(t.regions, x) == 0 && Free(regions, x) == 1)
            && (Free(regions, x) == 1 <==> Free(t.regions, x) == 1 || Given(t.blocks, x) == 1)
            && (AlignedUsable(regions) ==> AlignedBlocks(t.blocks))
  {
    var b := Books(regions, 0, []);
    var t := Run(b, qs).value;
    RunConserves(b, qs, x);
    forall i | 0 <= i < |t.blocks| && Within(t.blocks[i].start, t.blocks[i].length, x)
      ensures Given(t.blocks, x) >= 1
    {
      GivenAt(t.blocks, i, x);
    }
    forall i, j | 0 <= i < j < |t.blocks| && Within(t.blocks[i].start, t.blocks[i].length, x)
      ensures !Within(t.blocks[j].start, t.blocks[j].length, x)
    {
      if Within(t.blocks[j].start, t.blocks[j].length, x) {
        GivenTwice(t.blocks, i, j, x);
      }
    }
    if AlignedUsable(regions) {
      RunAligned(b, qs);
    }
  }

  /** On a sorted map there is no other address, whatever its reserved regions are. */
  lemma {:induction false} SortedMapIsPartitioned(regions: seq<Region>, qs: seq<Request>, x: nat)
    requires Sorted(regions) && Run(Books(regions, 0, []), qs).Some?
    ensures var t := Run(Books(regions, 0, []), qs).value;
            Given(t.blocks, x) + Free(t.regions, x) == Free(regions, x) <= 1
  {
    SortedOnce(regions, x);
    RunConserves(Books(regions, 0, []), qs, x);
  }

  /** The condition is needed: from a map that lists a frame twice, the frame is granted twice. */
  lemma {:induction false} ListedTwiceGrantedTwice()
    ensures var twice := [Region(0, FRAME_SIZE, Usable), Region(0, FRAME_SIZE, Usable)];
            var t := Run(Books(twice, 0, []), [One, One]);
            t.Some? && t.value.blocks == [Block(0, FRAME_SIZE), Block(0, FRAME_SIZE)]
  {
    var twice := [Region(0, FRAME_SIZE, Usable), Region(0, FRAME_SIZE, Usable)];
    var b1 := After(Books(twice, 0, []), One).value;
    assert b1.blocks == [Block(0, FRAME_SIZE)];
    assert Scan(b1.regions, 0, FRAME_SIZE) == Scan(b1.regions, 1, FRAME_SIZE) == Hit(1);
    assert [One, One][1..] == [One];
    assert Run(b1, [One]) == After(b1, One);
  }

  // `RetypeTable::new`

  /** A table entry is two bytes. */
  const ENTRY_SIZE: nat := 2

  datatype Boot = NoTable | BootPanics | Table(start: nat, words: seq<R.Word>)

  /** Frames needed to store `n` entries. */
  function TableFrames(n: nat): (k: nat)
    requires n > 0
    ensures ENTRY_SIZE * n <= k * PAGE_SIZE < ENTRY_SIZE * n + PAGE_SIZE
  {
    (ENTRY_SIZE * n - 1) / PAGE_SIZE + 1
  }

  function WordFor(kind: Kind): (w: R.Word) {
    match kind
    case Usable => R.ValueFor(R.Untyped, 0)
    case BootloaderReclaimable => R.ValueFor(R.Kernel, 1)
    case KernelAndModules => R.ValueFor(R.Kernel, 1)
    case Other => R.ValueFor(R.Unavailable, 0)
  }

  predicate Covers(r: Region, f: nat) {
    r.base / FRAME_SIZE <= f < r.base / FRAME_SIZE + r.length / FRAME_SIZE
  }

  /** The word of frame `f` after the regions have been entered in order: the last one decides. */
  function WordAt(regions: seq<Region>, f: nat): (w: R.Word) {
    if regions == [] then R.ValueFor(R.Unavailable, 0) else
    var n := |regions| - 1;
    if Covers(regions[n], f) then WordFor(regions[n].kind) else WordAt(regions[..n], f)
  }

  function WordsOf(regions: seq<Region>, n: nat): (ws: seq<R.Word>)
    ensures |ws| == n && forall f :: 0 <= f < n ==> ws[f] == WordAt(regions, f)
  {
    if n == 0 then [] else WordsOf(regions, n - 1) + [WordAt(regions, n - 1)]
  }

  predicate AlignedRegion(r: Region) {
    r.base % FRAME_SIZE == 0 && r.length % FRAME_SIZE == 0
  }

  predicate Aligned(regions: seq<Region>) {
    forall i :: 0 <= i < |regions| ==> AlignedRegion(regions[i])
  }

  function Top(regions: seq<Region>): (n: nat)
    requires regions != []
  {
    regions[|regions| - 1].base + regions[|regions| - 1].length
  }

  function BootTable(regions: seq<Region>): (r: Boot) {
    if regions == [] then NoTable
    else if Top(regions) >= TWO64 || Top(regions) % FRAME_SIZE != 0 || Top(regions) == 0 then BootPanics
    else
      var n := Top(regions) / FRAME_SIZE;
      var (g, left, _) := Serve(regions, 0, Many(TableFrames(n)));
      match g
      case Panicked => BootPanics
      case Exhausted => NoTable
      case Granted(start) => if Aligned(left) then Table(start, WordsOf(left, n)) else BootPanics
  }

  /** The inner loop: enter one region. */
  method Enter(table: array<R.Word>, regions: seq<Region>, k: nat)
    requires k < |regions|
    requires forall f :: 0 <= f < table.Length ==> table[f] == WordAt(regions[..k], f)
    modifies table
    ensures forall f :: 0 <= f < table.Length ==> table[f] == WordAt(regions[..k + 1], f)
  {
    var entry := regions[k];
    var slot := entry.base / FRAME_SIZE;
    var end := slot + entry.length / FRAME_SIZE;
    assert regions[..k + 1][..k] == regions[..k];
    while slot < end && slot < table.Length
      invariant entry.base / FRAME_SIZE <= slot <= end
      invariant forall f :: 0 <= f < table.Length ==>
                  table[f] == if entry.base / FRAME_SIZE <= f < slot then WordFor(entry.kind) else WordAt(regions[..k], f)
    {
      table[slot] := WordFor(entry.kind);
      slot := slot + 1;
    }
  }

  method NewTable(memoryMap: seq<Region>) returns (r: Boot)
    ensures r == BootTable(memoryMap)
  {
    if memoryMap == [] {
      return NoTable;
    }
    var top := Top(memoryMap);
    if top >= TWO64 || top % FRAME_SIZE != 0 {
      return BootPanics;
    }
    var n := top / FRAME_SIZE;
    if n == 0 {
      return BootPanics;
    }
    var allocator := new BumpAllocator(memoryMap);
    var g := allocator.AllocFrames(TableFrames(n));
    if g == Panicked {
      return BootPanics;
    }
    if g == Exhausted {
      return NoTable;
    }
    var table := new R.Word[n](_ => R.ValueFor(R.Unavailable, 0));
    var left := allocator.memoryMap;
    for k := 0 to |left|
      invariant Aligned(left[..k])
      invariant forall f :: 0 <= f < n ==> table[f] == WordAt(left[..k], f)
    {
      if !AlignedRegion(left[k]) {
        return BootPanics;
      }
      Enter(table, left, k);
    }
    assert left[..|left|] == left;
    return Table(g.start, table[..]);
  }

  // What the table says

  /** Regions that overlap at frame `f` are not usable and ask for the same entry. */
  predicate Agree(regions: seq<Region>, f: nat) {
    forall i, j :: 0 <= i < j < |regions| && Covers(regions[i], f) && Covers(regions[j], f) ==>
      && regions[i].kind != Usable && regions[j].kind != Usable
      && WordFor(regions[i].kind) == WordFor(regions[j].kind)
  }

  /** The last region to cover a frame decides, so any does where they agree. */
  lemma {:induction false} WordOfCovered(regions: seq<Region>, i: nat, f: nat)
    requires Agree(regions, f) && i < |regions| && Covers(regions[i], f)
    ensures WordAt(regions, f) == WordFor(regions[i].kind)
  {
    var n := |regions| - 1;
    if i < n && !Covers(regions[n], f) {
      WordOfCovered(regions[..n], i, f);
    }
  }

  lemma {:induction false} WordOfUncovered(regions: seq<Region>, f: nat)
    requires forall i :: 0 <= i < |regions| ==> !Covers(regions[i], f)
    ensures WordAt(regions, f) == R.ValueFor(R.Unavailable, 0)
  {
    if regions != [] {
      WordOfUncovered(regions[..|regions| - 1], f);
    }
  }

  /** The state a frame should start in, given the map and the frames that store the table. */
  function Expected(regions: seq<Region>, start: nat, frames: nat, f: nat): (e: R.Entry) {
    if start / FRAME_SIZE <= f < start / FRAME_SIZE + frames then R.Entry(R.Unavailable, 0)
    else if exists i :: 0 <= i < |regions| && Covers(regions[i], f) && regions[i].kind == Usable then R.Entry(R.Untyped, 0)
    else if exists i :: 0 <= i < |regions| && Covers(regions[i], f) &&
                        regions[i].kind in {BootloaderReclaimable, KernelAndModules}
    then R.Entry(R.Kernel, 1)
    else R.Entry(R.Unavailable, 0)
  }

  lemma {:induction false} TakeSplits(r: Region, frames: nat, f: nat)
    requires AlignedRegion(r) && r.length >= frames * FRAME_SIZE
    ensures AlignedRegion(Region(r.base + frames * FRAME_SIZE, r.length - frames * FRAME_SIZE, r.kind))
    ensures Covers(r, f) <==>
            || r.base / FRAME_SIZE <= f < r.base / FRAME_SIZE + frames
            || Covers(Region(r.base + frames * FRAME_SIZE, r.length - frames * FRAME_SIZE, r.kind), f)
    ensures r.base / FRAME_SIZE <= f < r.base / FRAME_SIZE + frames ==>
              !Covers(Region(r.base + frames * FRAME_SIZE, r.length - frames * FRAME_SIZE, r.kind), f)
  {
  }

  lemma {:induction false} TakeCovers(regions: seq<Region>, at: nat, frames: nat, f: nat, i: nat)
    requires Aligned(regions) && at < |regions| && Fits(regions[at], frames * FRAME_SIZE) && i < |regions|
    ensures var here := regions[at].base / FRAME_SIZE <= f < regions[at].base / FRAME_SIZE + frames;
            Covers(Take(regions, at, frames * FRAME_SIZE)[i], f) <==> Covers(regions[i], f) && !(i == at && here)
    ensures Take(regions, at, frames * FRAME_SIZE)[i].kind == regions[i].kind
  {
    assert AlignedRegion(regions[at]);
    TakeSplits(regions[at], frames, f);
  }

  lemma {:induction false} EntryAfterTake(regions: seq<Region>, at: nat, frames: nat, f: nat)
    requires Agree(regions, f) && Aligned(regions) && at < |regions| && Fits(regions[at], frames * FRAME_SIZE)
    ensures R.ValueInto(WordAt(Take(regions, at, frames * FRAME_SIZE), f)) ==
            Expected(regions, regions[at].base, frames, f)
  {
    hide Covers, Aligned, WordAt, Take;
    var left := Take(regions, at, frames * FRAME_SIZE);
    assert |left| == |regions|;
    assert AlignedRegion(regions[at]) by { AtAligned(regions, at); }
    TakeSplits(regions[at], frames, f);
    forall i | 0 <= i < |regions|
      ensures left[i].kind == regions[i].kind
      ensures Covers(left[i], f) <==>
              Covers(regions[i], f) && !(i == at && regions[at].base / FRAME_SIZE <= f < regions[at].base / FRAME_SIZE + frames)
    {
      TakeCovers(regions, at, frames, f, i);
    }
    assert Agree(left, f);
    if i :| 0 <= i < |left| && Covers(left[i], f) {
      WordOfCovered(left, i, f);
      CoveredExpected(regions, regions[at].base, frames, f, i);
    } else {
      WordOfUncovered(left, f);
    }
  }

  lemma {:induction false} AtAligned(regions: seq<Region>, i: nat)
    requires Aligned(regions) && i < |regions|
    ensures AlignedRegion(regions[i])
  {
  }

  lemma {:induction false} CoveredExpected(regions: seq<Region>, start: nat, frames: nat, f: nat, i: nat)
    requires Agree(regions, f) && i < |regions| && Covers(regions[i], f)
    requires !(start / FRAME_SIZE <= f < start / FRAME_SIZE + frames)
    ensures Expected(regions, start, frames, f) == R.ValueInto(WordFor(regions[i].kind))
  {
    hide Covers;
  }

  lemma {:induction false} TakeAligned(regions: seq<Region>, at: nat, frames: nat)
    requires Aligned(regions) && at < |regions| && Fits(regions[at], frames * FRAME_SIZE)
    ensures Aligned(Take(regions, at, frames * FRAME_SIZE))
  {
  }

  lemma {:induction false} AlignedScan(regions: seq<Region>, want: nat)
    requires regions != [] && Aligned(regions)
    ensures !Scan(regions, 0, want).Broken? && Top(regions) % FRAME_SIZE == 0
  {
  }

  /**
   `RetypeTable::new` on every aligned map of physical memory whose last region does not end at 0: it
   never panics, it gives up exactly when no usable region can store the table, and otherwise the
   table lies inside one usable region.  Wherever overlapping regions agree, the entry is what the
   map says, and the frames of the table are unavailable.
   */
  lemma {:induction false} NewTableIsRight(regions: seq<Region>, f: nat)
    requires regions != [] && Aligned(regions)
    requires 0 < regions[|regions| - 1].base + regions[|regions| - 1].length
    requires forall i :: 0 <= i < |regions| ==> regions[i].base + regions[i].length <= PHYSICAL_LIMIT
    ensures var n := (regions[|regions| - 1].base + regions[|regions| - 1].length) / FRAME_SIZE;
            var frames := TableFrames(n);
            match BootTable(regions)
            case BootPanics => false
            case NoTable => forall i :: 0 <= i < |regions| ==> !Fits(regions[i], frames * FRAME_SIZE)
            case Table(start, words) =>
              && |words| == n && ENTRY_SIZE * |words| <= frames * PAGE_SIZE
              && (f < n && Agree(regions, f) ==> R.ValueInto(words[f]) == Expected(regions, start, frames, f))
              && exists i :: 0 <= i < |regions| && Fits(regions[i], frames * FRAME_SIZE) && start == regions[i].base
  {
    hide Expected, R.ValueInto, WordAt, TableFrames, Scan, Agree, Aligned, Covers;
    AlignedScan(regions, 0);
    var frames := TableFrames(Top(regions) / FRAME_SIZE);
    AlignedScan(regions, frames * FRAME_SIZE);
    var found := Scan(regions, 0, frames * FRAME_SIZE);
    if found.Hit? {
      TakeAligned(regions, found.at, frames);
      if Agree(regions, f) {
        EntryAfterTake(regions, found.at, frames, f);
      }
    }
  }

  /**
   On any map at all: it panics exactly if the end of the last region is 0, out of range or not a whole
   frame, or the request for the table panics, or it is granted and some region is not whole frames.
   */
  lemma {:induction false} NewTableFails(regions: seq<Region>)
    ensures regions == [] ==> BootTable(regions) == NoTable
    ensures regions != [] ==>
              var top := regions[|regions| - 1].base + regions[|regions| - 1].length;
              if top == 0 || top % 4096 != 0 || top >= 0x1_0000_0000_0000_0000 then BootTable(regions) == BootPanics
              else
                var (g, _, _) := Serve(regions, 0, Many(TableFrames(top / 4096)));
                match g
                case Panicked => BootTable(regions) == BootPanics
                case Exhausted => BootTable(regions) == NoTable
                case Granted(start) =>
                  if forall i :: 0 <= i < |regions| ==> regions[i].base % 4096 == 0 && regions[i].length % 4096 == 0
                  then BootTable(regions).Table? && BootTable(regions).start == start
                  else BootTable(regions) == BootPanics
  {
    hide Scan;
    if regions != [] && Top(regions) > 0 && Top(regions) % FRAME_SIZE == 0 {
      var n := TableFrames(Top(regions) / FRAME_SIZE);
      var (g, left, at) := Serve(regions, 0, Many(n));
      if g.Granted? {
        assert AlignedRegion(left[at]) <==> AlignedRegion(regions[at]);
        assert forall i :: 0 <= i < |regions| && i != at ==> left[i] == regions[i];
        assert Aligned(left) <==> Aligned(regions);
      }
    }
  }

  /** On a sorted map every frame is covered once at most, and all memory lies below the top. */
  lemma {:induction false} SortedMapsAgree(regions: seq<Region>, f: nat)
    requires regions != [] && Sorted(regions) && Aligned(regions)
    ensures Agree(regions, f)
    ensures forall i :: 0 <= i < |regions| ==>
              regions[i].base + regions[i].length <= regions[|regions| - 1].base + regions[|regions| - 1].length
  {
    forall i, j | 0 <= i < j < |regions| ensures !(Covers(regions[i], f) && Covers(regions[j], f)) {
      assert AlignedRegion(regions[i]) && AlignedRegion(regions[j]);
    }
  }

  lemma {:induction false} WordIsOfKind(regions: seq<Region>, f: nat)
    ensures exists kind: Kind :: WordAt(regions, f) == WordFor(kind)
  {
    if regions == [] {
      assert WordAt(regions, f) == WordFor(Other);
    } else {
      WordIsOfKind(regions[..|regions| - 1], f);
    }
  }

  /** Whatever the map, a table that comes out is one from which the ownership law starts. */
  lemma {:induction false} BootIsInitial(regions: seq<Region>)
    requires BootTable(regions).Table?
    ensures var words := BootTable(regions).words;
            var boot := set f | 0 <= f < |words| && R.ValueInto(words[f]).state == R.Kernel;
            exists lost: seq<nat> :: O.Initial(O.Sys(words, map[], boot, lost))
  {
    var words := BootTable(regions).words;
    var n := Top(regions) / FRAME_SIZE;
    var left := Serve(regions, 0, Many(TableFrames(n))).1;
    var boot := set f | 0 <= f < |words| && R.ValueInto(words[f]).state == R.Kernel;
    var lost: seq<nat> := seq(|words|, _ => 0);
    forall f | 0 <= f < |words| ensures O.IsBootEntry(words[f], f in boot) {
      WordIsOfKind(left, f);
    }
    assert O.Initial(O.Sys(words, map[], boot, lost));
  }
}
