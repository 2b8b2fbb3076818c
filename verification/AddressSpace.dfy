/**
 What `Addrspace::map_to` and `AnyPageTable::new_l4` do to memory
 (harmony/kernel/src/arch/x86_64/paging/page_table.rs), as functions on a snapshot of the machine.

 A snapshot is physical memory, the retype table and the cursor of the allocator in use.  The
 invariant ties memory to the retype table: every page table sits in a frame the kernel owns, so a
 frame taken out of Untyped is never one that a table already occupies.
 */
module AddressSpaces {
  import opened Layout
  import opened Wrappers
  import opened RetypeTables
  import opened FrameAllocators
  import opened PageTableEntries
  import opened PageTables
  import R = RetypeEntries
  import VA = VirtualAddresses

  /** `Stuck` stands for following a link to a frame that is not a table; the invariant excludes it. */
  datatype MapResult = MapOk | FrameAllocationError | HugeParentEntry | AlreadyMapped(frame: nat) | Stuck

  /** `place` is bookkeeping that the kernel does not keep: where each lower-half table is linked. */
  datatype Space = Space(mem: Memory, place: Places, words: seq<R.Word>, cursor: nat)

  predicate KernelOwned(words: seq<R.Word>, f: nat) {
    f < |words| && R.ValueInto(words[f]).state == R.Kernel && R.ValueInto(words[f]).count >= 1
  }

  ghost predicate SpaceOk(s: Space, kernel: KernelTables, upper: seq<Entry>) {
    && |s.words| < MAX_FRAMES && IdleHaveNoRefs(s.words) && s.cursor <= |s.words|
    && Forest(s.mem, s.place) && Rooted(s.place)
    && KernelOk(s.mem, s.place, kernel) && SameUpper(s.mem, s.place, kernel, upper)
    && (forall t :: t in s.place ==> KernelOwned(s.words, t))
    && (forall t :: t in kernel ==> KernelOwned(s.words, t))
  }

  lemma {:induction false} SpaceWords(s: Space, kernel: KernelTables, upper: seq<Entry>)
    requires SpaceOk(s, kernel, upper)
    ensures |s.words| < MAX_FRAMES && IdleHaveNoRefs(s.words) && s.cursor <= |s.words|
  {
  }

  /** Where it starts: a boot table with an empty lower half, above kernel tables, all in kernel frames. */
  lemma {:induction false} BootSpaceOk(mem: Memory, words: seq<R.Word>, boot: nat, kernel: KernelTables)
    requires |words| < MAX_FRAMES && IdleHaveNoRefs(words)
    requires IsTable(mem, boot) && KernelOwned(words, boot) && (forall i :: 0 <= i < 256 ==> EntryAt(mem, boot, i).None?)
    requires KernelOk(mem, map[boot := Place(boot, [])], kernel) && (forall t :: t in kernel ==> KernelOwned(words, t))
    requires forall i :: 256 <= i < ENTRIES ==> HighEntryOk(kernel, 1, mem[boot].entries[i])
    ensures SpaceOk(Space(mem, map[boot := Place(boot, [])], words, 0), kernel, mem[boot].entries[256..])
  {
  }

  /** Frame `c` is claimed, cleared and linked below entry `i` of `t`. */
  function AddTable(s: Space, t: nat, i: nat, c: nat, added: Flags): (r: Space)
    requires IsTable(s.mem, t) && i < ENTRIES && c < |s.words| < MAX_FRAMES && t in s.place
    requires ValidFlags(added) && added.present
  {
    Space(Linked(s.mem, t, i, c, added), PlaceBelow(s.place, t, i, c), Claimed(s.words, c, R.Kernel), c)
  }

  predicate Mappable(s: Space, m: Mapping, added: Flags) {
    |s.words| < MAX_FRAMES && ValidMapping(m) && ValidFlags(added) && added.present
  }

  /** `map_to` from table `t` at depth `d` of the walk of `p`; `added` is `parent_flags | PRESENT`. */
  function MapFrom(s: Space, t: nat, p: Path, d: nat, m: Mapping, added: Flags): (r: (Space, MapResult))
    requires d < 4 && Mappable(s, m, added)
    ensures |r.0.words| == |s.words|
    decreases 4 - d
  {
    if !IsTable(s.mem, t) || t !in s.place then (s, Stuck) else
    match EntryAt(s.mem, t, p[d])
    case Some(x) =>
      if d == 3 then (s, AlreadyMapped(x.frame))
      else if x.flags.huge then (s, HugeParentEntry)
      else MapFrom(s, x.frame, p, d + 1, m, added)
    case None =>
      if d == 3 then (s.(mem := WithEntry(s.mem, t, p[d], Stored(m))), MapOk)
      else match FindUntyped(s.words, s.cursor)
        case None => (s.(cursor := |s.words|), FrameAllocationError)
        case Some(c) => MapFrom(AddTable(s, t, p[d], c, added), c, p, d + 1, m, added)
  }

  // What changed

  /** Every lower-half page of every address space translates as before. */
  ghost predicate SameLow(mem: Memory, mem': Memory, place: Places) {
    forall r, q: Path :: IsRoot(place, r) && LowPath(q) ==> Translate(mem', r, q) == Translate(mem, r, q)
  }

  /** ... except the page with indices `p` in the address space of `root`. */
  ghost predicate SameLowExcept(mem: Memory, mem': Memory, place: Places, root: nat, p: Path) {
    forall r, q: Path :: IsRoot(place, r) && LowPath(q) && !(r == root && q == p) ==>
                           Translate(mem', r, q) == Translate(mem, r, q)
  }

  /**
   From `s` to `s'` only page tables were added or written: frames that changed type went from
   Untyped to tables with one reference, tables stay where they are, and no new root appears.
   */
  ghost predicate OnlyTables(s: Space, s': Space) {
    && |s'.words| == |s.words|
    && (forall f :: 0 <= f < |s.words| && s'.words[f] != s.words[f] ==>
          IsUntyped(s.words, f) && f in s'.place && f !in s.place && R.ValueInto(s'.words[f]) == R.Entry(R.Kernel, 1))
    && (forall t :: t in s.place ==> t in s'.place && s'.place[t] == s.place[t])
    && (forall t :: t in s'.place && t !in s.place ==> s'.place[t].path != [] && t < |s.words| && IsUntyped(s.words, t))
    && (forall f :: f in s.mem && f !in s'.place ==> f in s'.mem && s'.mem[f] == s.mem[f])
  }

  /** Tables above depth `d` are untouched. */
  ghost predicate SameAboveDepth(s: Space, s': Space, d: nat) {
    forall t :: t in s.place && |s.place[t].path| < d ==> t in s.mem && t in s'.mem && s'.mem[t] == s.mem[t]
  }

  function Repeat(n: nat, f: Flags): (r: seq<Flags>)
    ensures |r| == n
  {
    if n == 0 then [] else [f] + Repeat(n - 1, f)
  }

  /** The answer `map_to` has to give, from what the walk finds and how many frames are left. */
  function Expected(found: Probing, untyped: nat): (r: MapResult) {
    match found
    case Hit(f) => AlreadyMapped(f)
    case Blocked => HugeParentEntry
    case Missing(d) => if untyped + d >= 3 then MapOk else FrameAllocationError
  }

  /** How many untyped frames have to be left: each level that is missing above the leaf takes one, as long as there are any. */
  function Left(found: Probing, untyped: nat): (n: nat) {
    if !found.Missing? || found.depth >= 3 then untyped
    else if untyped + found.depth >= 3 then untyped + found.depth - 3 else 0
  }

  /** Frames are taken from the cursor up, lowest first, and the cursor does not pass one that is left. */
  ghost predicate LowestTaken(s: Space, s': Space) {
    && |s'.words| == |s.words| && s.cursor <= s'.cursor
    && (forall f :: 0 <= f < |s.words| && s'.words[f] != s.words[f] ==> s.cursor <= f <= s'.cursor)
    && (forall f :: s.cursor <= f < s'.cursor && f < |s.words| ==> !IsUntyped(s'.words, f))
  }

  /** The upper-level flags of a page mapped from depth `d`: those found, then the new ones. */
  function Upper(s: Space, t: nat, p: Path, d: nat, added: Flags): (via: seq<Flags>)
    requires d < 4
  {
    var found := Chain(s.mem, t, p, d);
    found + (if |found| + d <= 3 then Repeat(3 - d - |found|, added) else [])
  }

  // One step

  lemma {:induction false} AddTableOk(s: Space, kernel: KernelTables, upper: seq<Entry>, t: nat, i: nat, c: nat,
                                      added: Flags)
    requires SpaceOk(s, kernel, upper) && t in s.place && Inner(s.place[t], i)
    requires IsTable(s.mem, t) && EntryAt(s.mem, t, i) == None
    requires c < |s.words| && IsUntyped(s.words, c) && ValidFlags(added) && added.present
    ensures c !in s.place && c !in kernel
    ensures SpaceOk(AddTable(s, t, i, c, added), kernel, upper)
    ensures !added.huge ==> SameLow(s.mem, AddTable(s, t, i, c, added).mem, s.place)
  {
    hide Forest, Rooted, KernelOk, SameUpper, SameLow, KernelOwned, IdleHaveNoRefs, IsUntyped, R.ValueFor, R.ValueInto;
    var s' := AddTable(s, t, i, c, added);
    FreshFrame(s, kernel, upper, c);
    KernelApart(s.mem, s.place, kernel);
    ClaimKeepsOwners(s, kernel, c);
    LinkForest(s.mem, s.place, t, i, c, added);
    LinkRooted(s.place, t, i, c);
    if !added.huge {
      LinkKeepsLow(s.mem, s.place, t, i, c, added);
    }
    LinkKeepsUpper(s.mem, s.place, kernel, upper, t, i, c, added);
    KernelOkStable(s.mem, s.place, s'.mem, s'.place, kernel);
  }

  lemma {:induction false} KernelApart(mem: Memory, place: Places, kernel: KernelTables)
    requires KernelOk(mem, place, kernel)
    ensures forall k :: k in kernel ==> k !in place && k in mem
  {
  }

  lemma {:induction false} PlacedTable(mem: Memory, place: Places, t: nat)
    requires Forest(mem, place) && t in place
    ensures IsTable(mem, t) && (place[t].path == [] ==> IsRoot(place, t))
  {
    assert TableOk(mem, place, t);
  }

  lemma {:induction false} FreshFrame(s: Space, kernel: KernelTables, upper: seq<Entry>, c: nat)
    requires SpaceOk(s, kernel, upper) && c < |s.words| && IsUntyped(s.words, c)
    ensures c !in s.place && c !in kernel
  {
  }

  lemma {:induction false} ClaimKeepsOwners(s: Space, kernel: KernelTables, c: nat)
    requires IdleHaveNoRefs(s.words) && c < |s.words|
    ensures var words := Claimed(s.words, c, R.Kernel);
            && R.ValueInto(words[c]) == R.Entry(R.Kernel, 1) && IdleHaveNoRefs(words) && KernelOwned(words, c)
            && forall t :: KernelOwned(s.words, t) ==> KernelOwned(words, t)
  {
  }

  lemma {:induction false} AddTableWrites(s: Space, t: nat, i: nat, c: nat, added: Flags)
    requires Linkable(s.mem, s.place, t, i, c, added) && IdleHaveNoRefs(s.words)
    requires c < |s.words| < MAX_FRAMES && IsUntyped(s.words, c)
    ensures OnlyTables(s, AddTable(s, t, i, c, added))
  {
    ClaimKeepsOwners(s, map[], c);
    hide Forest, R.ValueFor, R.ValueInto, IdleHaveNoRefs, KernelOwned;
  }

  lemma {:induction false} LinkKeepsLow(mem: Memory, place: Places, t: nat, i: nat, c: nat, added: Flags)
    requires Linkable(mem, place, t, i, c, added) && !added.huge
    ensures SameLow(mem, Linked(mem, t, i, c, added), place)
  {
    forall r, q: Path | IsRoot(place, r) && LowPath(q)
      ensures Translate(Linked(mem, t, i, c, added), r, q) == Translate(mem, r, q)
    {
      LinkKeepsWalks(mem, place, t, i, c, added, r, q, 0, r, []);
    }
  }

  lemma {:induction false} LinkKeepsUpper(mem: Memory, place: Places, kernel: KernelTables, upper: seq<Entry>,
                       t: nat, i: nat, c: nat, added: Flags)
    requires Linkable(mem, place, t, i, c, added) && SameUpper(mem, place, kernel, upper)
    ensures SameUpper(Linked(mem, t, i, c, added), PlaceBelow(place, t, i, c), kernel, upper)
  {
  }

  lemma {:induction false} SetLeafOk(s: Space, kernel: KernelTables, upper: seq<Entry>, root: nat, p: Path, t: nat,
                                     e: Entry)
    requires SpaceOk(s, kernel, upper) && LowPath(p) && At(s.place, root, p, 3, t)
    ensures IsTable(s.mem, t)
    ensures var s' := s.(mem := WithEntry(s.mem, t, p[3], e));
            && SpaceOk(s', kernel, upper) && SameLowExcept(s.mem, s'.mem, s.place, root, p)
            && OnlyTables(s, s') && (SameAboveDepth(s, s, 3) ==> SameAboveDepth(s, s', 3))
  {
    hide Forest, Rooted, KernelOk, SameUpper, SameLowExcept, KernelOwned, IdleHaveNoRefs;
    PlacedTable(s.mem, s.place, t);
    KernelApart(s.mem, s.place, kernel);
    var mem' := WithEntry(s.mem, t, p[3], e);
    LeafWriteForest(s.mem, s.place, t, p[3], e);
    LeafWriteUpper(s.mem, s.place, kernel, upper, t, p[3], e);
    KernelOkStable(s.mem, s.place, mem', s.place, kernel);
    LeafWriteLow(s.mem, s.place, root, p, t, e);
  }

  lemma {:induction false} LeafWriteUpper(mem: Memory, place: Places, kernel: KernelTables, upper: seq<Entry>,
                                          t: nat, i: nat, e: Entry)
    requires SameUpper(mem, place, kernel, upper) && IsTable(mem, t) && i < ENTRIES && t in place && |place[t].path| == 3
    ensures SameUpper(WithEntry(mem, t, i, e), place, kernel, upper)
  {
  }

  lemma {:induction false} LeafWriteLow(mem: Memory, place: Places, root: nat, p: Path, t: nat, e: Entry)
    requires Forest(mem, place) && LowPath(p) && At(place, root, p, 3, t) && IsTable(mem, t)
    ensures SameLowExcept(mem, WithEntry(mem, t, p[3], e), place, root, p)
  {
    hide Forest, Translate;
    var mem' := WithEntry(mem, t, p[3], e);
    forall r, q: Path | IsRoot(place, r) && LowPath(q) && !(r == root && q == p)
      ensures Translate(mem', r, q) == Translate(mem, r, q)
    {
      LeafWriteOther(mem, place, root, p, t, e, r, q);
    }
  }

  lemma {:induction false} LeafWriteOther(mem: Memory, place: Places, root: nat, p: Path, t: nat, e: Entry, r: nat,
                                          q: Path)
    requires Forest(mem, place) && LowPath(p) && At(place, root, p, 3, t) && IsTable(mem, t)
    requires IsRoot(place, r) && LowPath(q) && !(r == root && q == p)
    ensures Translate(WithEntry(mem, t, p[3], e), r, q) == Translate(mem, r, q)
  {
    hide Forest;
    assert q == q[..3] + [q[3]] && p == p[..3] + [p[3]];
    LeafWriteElsewhere(mem, place, t, p[3], e, r, q, 0, r, []);
  }

  // The whole of `map_to`

  /** What every call of `map_to` is made on. */
  ghost predicate Ready(s: Space, kernel: KernelTables, upper: seq<Entry>, root: nat, t: nat, p: Path, d: nat,
                        m: Mapping, added: Flags) {
    && SpaceOk(s, kernel, upper) && Mappable(s, m, added)
    && d < 4 && LowPath(p) && At(s.place, root, p, d, t)
  }

  lemma {:induction false} ReadyTable(s: Space, kernel: KernelTables, upper: seq<Entry>,
                                      root: nat, t: nat, p: Path, d: nat, m: Mapping, added: Flags)
    requires Ready(s, kernel, upper, root, t, p, d, m, added)
    ensures IsTable(s.mem, t) && t in s.place && |s.place[t].path| == d
    ensures SpaceOk(s, kernel, upper) && Mappable(s, m, added) && SameAboveDepth(s, s, d)
  {
  }

  lemma {:induction false} HalfOf(page: VA.Usize)
    requires IsPage(page)
    ensures LowPath(VA.Indices(page)) <==> VA.LowerHalf(page)
  {
    hide VA.Indices, VA.P1, VA.P2, VA.P3, VA.P4;
    VA.IndexAtLevel(page);
    VA.IndicesDetermine(page);
  }

  /** `map_to` starts ready at the root. */
  lemma {:induction false} ReadyAtRoot(s: Space, kernel: KernelTables, upper: seq<Entry>,
                                       root: nat, page: VA.Usize, m: Mapping, parentFlags: Flags)
    requires SpaceOk(s, kernel, upper) && IsRoot(s.place, root) && IsPage(page) && VA.LowerHalf(page)
    requires ValidMapping(m) && ValidFlags(parentFlags)
    ensures LowPath(VA.Indices(page))
    ensures Ready(s, kernel, upper, root, root, VA.Indices(page), 0, m, WithPresent(parentFlags))
  {
    hide SpaceOk, VA.Indices;
    SpaceWords(s, kernel, upper);
    HalfOf(page);
  }

  /** Following an entry of depth `d`, or adding the missing table, leaves `map_to` ready at depth `d + 1`. */
  lemma {:induction false} ReadyBelow(s: Space, kernel: KernelTables, upper: seq<Entry>,
                                      root: nat, t: nat, p: Path, d: nat, m: Mapping, added: Flags)
    requires Ready(s, kernel, upper, root, t, p, d, m, added) && d < 3
    ensures IsTable(s.mem, t)
    ensures match EntryAt(s.mem, t, p[d])
            case Some(x) => !x.flags.huge ==> x.flags.present && Ready(s, kernel, upper, root, x.frame, p, d + 1, m, added)
            case None =>
              FindUntyped(s.words, s.cursor).Some? ==>
                var c := FindUntyped(s.words, s.cursor).value;
                var s1 := AddTable(s, t, p[d], c, added);
                && Ready(s1, kernel, upper, root, c, p, d + 1, m, added) && c !in s.place
                && OnlyTables(s, s1) && SameAboveDepth(s, s1, d) && (!added.huge ==> SameLow(s.mem, s1.mem, s.place))
  {
    hide OnlyTables, SameLow, Forest, Rooted, KernelOk, SameUpper, KernelOwned, IdleHaveNoRefs;
    ReadyTable(s, kernel, upper, root, t, p, d, m, added);
    Descend(s.mem, s.place, root, p, d, t);
    if EntryAt(s.mem, t, p[d]) == None && FindUntyped(s.words, s.cursor).Some? {
      AddTableOk(s, kernel, upper, t, p[d], FindUntyped(s.words, s.cursor).value, added);
      AddTableWrites(s, t, p[d], FindUntyped(s.words, s.cursor).value, added);
      assert p[..d] + [p[d]] == p[..d + 1];
    }
  }

  /** `map_to` gives the expected answer. */
  lemma {:induction false} MapAnswer(s: Space, kernel: KernelTables, upper: seq<Entry>,
                                      root: nat, t: nat, p: Path, d: nat, m: Mapping, added: Flags)
    requires Ready(s, kernel, upper, root, t, p, d, m, added)
    ensures MapFrom(s, t, p, d, m, added).1 == Expected(Probe(s.mem, t, p, d), UntypedFrom(s.words, s.cursor))
    decreases 4 - d
  {
    hide SpaceOk, OnlyTables, SameLow, SameAboveDepth;
    ReadyTable(s, kernel, upper, root, t, p, d, m, added);
    if d < 3 {
      ReadyBelow(s, kernel, upper, root, t, p, d, m, added);
      var e := EntryAt(s.mem, t, p[d]);
      if e.Some? && !e.value.flags.huge {
        MapAnswer(s, kernel, upper, root, e.value.frame, p, d + 1, m, added);
      } else if e.None? && FindUntyped(s.words, s.cursor).Some? {
        var c := FindUntyped(s.words, s.cursor).value;
        ClaimUsesOne(s.words, s.cursor, R.Kernel);
        MapAnswer(AddTable(s, t, p[d], c, added), kernel, upper, root, c, p, d + 1, m, added);
      }
    }
  }

  /** `map_to` uses up one untyped frame for every level it adds, the lowest ones. */
  lemma {:induction false} MapUses(s: Space, kernel: KernelTables, upper: seq<Entry>,
                                   root: nat, t: nat, p: Path, d: nat, m: Mapping, added: Flags)
    requires Ready(s, kernel, upper, root, t, p, d, m, added)
    ensures var s' := MapFrom(s, t, p, d, m, added).0;
            && UntypedFrom(s'.words, s'.cursor) == Left(Probe(s.mem, t, p, d), UntypedFrom(s.words, s.cursor))
            && LowestTaken(s, s')
    decreases 4 - d
  {
    hide SpaceOk, OnlyTables, SameLow, SameAboveDepth, LowestTaken;
    ReadyTable(s, kernel, upper, root, t, p, d, m, added);
    SpaceWords(s, kernel, upper);
    NoneTaken(s);
    if d < 3 {
      ReadyBelow(s, kernel, upper, root, t, p, d, m, added);
      var e := EntryAt(s.mem, t, p[d]);
      if e.Some? && !e.value.flags.huge {
        MapUses(s, kernel, upper, root, e.value.frame, p, d + 1, m, added);
      } else if e.None? && FindUntyped(s.words, s.cursor).Some? {
        var c := FindUntyped(s.words, s.cursor).value;
        var s1 := AddTable(s, t, p[d], c, added);
        ClaimUsesOne(s.words, s.cursor, R.Kernel);
        MapUses(s1, kernel, upper, root, c, p, d + 1, m, added);
        FirstTaken(s, s1, c, MapFrom(s, t, p, d, m, added).0);
      }
    }
  }

  lemma {:induction false} NoneTaken(s: Space)
    requires s.cursor <= |s.words|
    ensures LowestTaken(s, s)
    ensures FindUntyped(s.words, s.cursor).None? ==> LowestTaken(s, s.(cursor := |s.words|))
    ensures forall mem :: LowestTaken(s, s.(mem := mem))
  {
  }

  lemma {:induction false} FirstTaken(s: Space, s1: Space, c: nat, s': Space)
    requires FindUntyped(s.words, s.cursor) == Some(c) && s1.words == Claimed(s.words, c, R.Kernel) && s1.cursor == c
    requires LowestTaken(s1, s')
    ensures LowestTaken(s, s')
  {
    hide R.ValueFor, UntypedFrom;
    forall f | s.cursor <= f < s'.cursor && f < |s.words|
      ensures !IsUntyped(s'.words, f)
    {
      if f < c {
        assert !IsUntyped(s.words, f) && s1.words[f] == s.words[f] && s'.words[f] == s1.words[f];
      }
    }
  }

  lemma {:induction false} OnlyTablesTwice(s0: Space, s1: Space, s2: Space, d: nat)
    requires OnlyTables(s0, s1) && OnlyTables(s1, s2) && SameAboveDepth(s0, s1, d) && SameAboveDepth(s1, s2, d + 1)
    ensures OnlyTables(s0, s2) && SameAboveDepth(s0, s2, d)
  {
    hide R.ValueInto;
  }

  lemma {:induction false} TableKept(s: Space, s': Space, d: nat, t: nat)
    requires SameAboveDepth(s, s', d + 1)
    ensures SameAboveDepth(s, s', d)
    ensures t in s.place && |s.place[t].path| == d ==> t in s.mem && t in s'.mem && s'.mem[t] == s.mem[t]
  {
  }

  /** `map_to` keeps the invariant and writes nothing but tables, none of them above depth `d`. */
  lemma {:induction false} MapKeeps(s: Space, kernel: KernelTables, upper: seq<Entry>,
                                     root: nat, t: nat, p: Path, d: nat, m: Mapping, added: Flags)
    requires Ready(s, kernel, upper, root, t, p, d, m, added)
    ensures var s' := MapFrom(s, t, p, d, m, added).0;
            SpaceOk(s', kernel, upper) && OnlyTables(s, s') && SameAboveDepth(s, s', d)
    decreases 4 - d
  {
    hide SpaceOk, OnlyTables, SameLow, SameLowExcept, SameAboveDepth, Walk, Probe;
    ReadyTable(s, kernel, upper, root, t, p, d, m, added);
    Unchanged(s, kernel, upper, d);
    var s' := MapFrom(s, t, p, d, m, added).0;
    var e := EntryAt(s.mem, t, p[d]);
    if d == 3 {
      if e == None {
        SetLeafOk(s, kernel, upper, root, p, t, Stored(m));
      }
    } else {
      ReadyBelow(s, kernel, upper, root, t, p, d, m, added);
      if e.Some? && !e.value.flags.huge {
        MapKeeps(s, kernel, upper, root, e.value.frame, p, d + 1, m, added);
        TableKept(s, s', d, t);
      } else if e.None? && FindUntyped(s.words, s.cursor).Some? {
        var c := FindUntyped(s.words, s.cursor).value;
        var s1 := AddTable(s, t, p[d], c, added);
        MapKeeps(s1, kernel, upper, root, c, p, d + 1, m, added);
        OnlyTablesTwice(s, s1, s', d);
      }
    }
  }

  lemma {:induction false} Unchanged(s: Space, kernel: KernelTables, upper: seq<Entry>, d: nat)
    requires SpaceOk(s, kernel, upper) && SameAboveDepth(s, s, d)
    ensures OnlyTables(s, s)
    ensures var s' := s.(cursor := |s.words|);
            SpaceOk(s', kernel, upper) && OnlyTables(s, s') && SameAboveDepth(s, s', d)
  {
  }

  lemma {:induction false} SameLowTwice(s0: Space, s1: Space, s2: Space, root: nat, p: Path)
    requires SameLow(s0.mem, s1.mem, s0.place) && OnlyTables(s0, s1)
    ensures SameLowExcept(s1.mem, s2.mem, s1.place, root, p) ==> SameLowExcept(s0.mem, s2.mem, s0.place, root, p)
    ensures SameLow(s1.mem, s2.mem, s1.place) ==> SameLow(s0.mem, s2.mem, s0.place)
  {
  }

  lemma {:induction false} SameLowItself(mem: Memory, place: Places)
    ensures SameLow(mem, mem, place)
  {
  }

  /** No translation changes, except that of the page asked for when the answer is `MapOk`. */
  lemma {:induction false} MapOnlyOne(s: Space, kernel: KernelTables, upper: seq<Entry>,
                                       root: nat, t: nat, p: Path, d: nat, m: Mapping, added: Flags)
    requires Ready(s, kernel, upper, root, t, p, d, m, added) && !added.huge
    ensures var (s', r) := MapFrom(s, t, p, d, m, added);
            if r == MapOk then SameLowExcept(s.mem, s'.mem, s.place, root, p) else SameLow(s.mem, s'.mem, s.place)
    decreases 4 - d
  {
    hide SpaceOk, OnlyTables, SameLow, SameLowExcept, Walk, SameAboveDepth, Probe;
    SameLowItself(s.mem, s.place);
    ReadyTable(s, kernel, upper, root, t, p, d, m, added);
    var e := EntryAt(s.mem, t, p[d]);
    if d == 3 {
      if e == None {
        SetLeafOk(s, kernel, upper, root, p, t, Stored(m));
      }
    } else {
      ReadyBelow(s, kernel, upper, root, t, p, d, m, added);
      if e.Some? && !e.value.flags.huge {
        MapOnlyOne(s, kernel, upper, root, e.value.frame, p, d + 1, m, added);
      } else if e.None? && FindUntyped(s.words, s.cursor).Some? {
        var c := FindUntyped(s.words, s.cursor).value;
        var s1 := AddTable(s, t, p[d], c, added);
        MapOnlyOne(s1, kernel, upper, root, c, p, d + 1, m, added);
        SameLowTwice(s, s1, MapFrom(s, t, p, d, m, added).0, root, p);
      }
    }
  }

  lemma {:induction false} UpperFound(s: Space, t: nat, p: Path, d: nat, added: Flags, x: Mapping, via: seq<Flags>)
    requires d < 3 && IsTable(s.mem, t) && EntryAt(s.mem, t, p[d]) == Some(x) && !x.flags.huge
    ensures via + Upper(s, t, p, d, added) == via + [x.flags] + Upper(s, x.frame, p, d + 1, added)
  {
  }

  lemma {:induction false} UpperAdded(s: Space, s1: Space, t: nat, c: nat, p: Path, d: nat, added: Flags,
                                      via: seq<Flags>)
    requires d < 3 && IsTable(s.mem, t) && EntryAt(s.mem, t, p[d]) == None
    requires c in s1.mem && s1.mem[c] == TablePage(EmptyTable())
    ensures via + Upper(s, t, p, d, added) == via + [added] + Upper(s1, c, p, d + 1, added)
  {
  }

  lemma {:induction false} LeafWalk(s: Space, t: nat, p: Path, m: Mapping, added: Flags, via: seq<Flags>)
    requires Mappable(s, m, added) && IsTable(s.mem, t)
    ensures Walk(WithEntry(s.mem, t, p[3], Stored(m)), t, p, 3, via) ==
            if m.flags.present then Mapped(m.frame, m.flags, via + Upper(s, t, p, 3, added)) else Unmapped
  {
  }

  /** After `MapOk` the page translates to exactly what was asked for, if that is present at all. */
  lemma {:induction false} MapReachesLeaf(s: Space, kernel: KernelTables, upper: seq<Entry>, root: nat, t: nat, p: Path,
                                           d: nat, m: Mapping, added: Flags, via: seq<Flags>)
    requires Ready(s, kernel, upper, root, t, p, d, m, added) && !added.huge
    ensures var (s', r) := MapFrom(s, t, p, d, m, added);
            r == MapOk ==> Walk(s'.mem, t, p, d, via) ==
                           if m.flags.present then Mapped(m.frame, m.flags, via + Upper(s, t, p, d, added)) else Unmapped
    decreases 4 - d
  {
    hide SpaceOk, OnlyTables, SameLow, SameAboveDepth, Probe, Upper, Chain, Walk;
    var (s', r) := MapFrom(s, t, p, d, m, added);
    if r == MapOk && d == 3 {
      LeafWalk(s, t, p, m, added, via);
    } else if r == MapOk {
      ReadyBelow(s, kernel, upper, root, t, p, d, m, added);
      var e := EntryAt(s.mem, t, p[d]);
      if e.Some? {
        var x := e.value;
        MapReachesLeaf(s, kernel, upper, root, x.frame, p, d + 1, m, added, via + [x.flags]);
        MapKeeps(s, kernel, upper, root, x.frame, p, d + 1, m, added);
        TableKept(s, s', d, t);
        WalkStep(s'.mem, t, p, d, via, x);
        UpperFound(s, t, p, d, added, x, via);
      } else {
        var c := FindUntyped(s.words, s.cursor).value;
        var s1 := AddTable(s, t, p[d], c, added);
        MapReachesLeaf(s1, kernel, upper, root, c, p, d + 1, m, added, via + [added]);
        MapKeeps(s1, kernel, upper, root, c, p, d + 1, m, added);
        TableKept(s1, s', d, t);
        WalkStep(s'.mem, t, p, d, via, Mapping(c, added));
        UpperAdded(s, s1, t, c, p, d, added, via);
      }
    }
  }

  // In terms of addresses

  function TranslateAddr(mem: Memory, root: nat, addr: VA.Usize): (r: Translation) {
    Translate(mem, root, VA.Indices(addr))
  }

  predicate IsPage(addr: VA.Usize) { VA.Canonical(addr) && addr % PAGE_SIZE == 0 }

  /** `map_to` on a whole address space. */
  function MapTo(s: Space, root: nat, page: VA.Usize, m: Mapping, parentFlags: Flags): (r: (Space, MapResult))
    requires |s.words| < MAX_FRAMES && ValidMapping(m) && ValidFlags(parentFlags)
    ensures |r.0.words| == |s.words|
  {
    MapFrom(s, root, VA.Indices(page), 0, m, WithPresent(parentFlags))
  }

  lemma {:induction false} KernelTablesKept(s: Space, s': Space, kernel: KernelTables, upper: seq<Entry>)
    requires SpaceOk(s, kernel, upper) && SpaceOk(s', kernel, upper) && OnlyTables(s, s')
    ensures forall k :: k in kernel ==> k in s.mem && k in s'.mem && s'.mem[k] == s.mem[k]
  {
  }

  /**
   Whatever the flags, `map_to` keeps the invariant, writes nothing but tables, gives the answer
   that the walk and the number of free frames demand, and uses up exactly the frames it needs.
   */
  lemma {:induction false} MapToKeeps(s: Space, kernel: KernelTables, upper: seq<Entry>,
                            root: nat, page: VA.Usize, m: Mapping, parentFlags: Flags)
    requires SpaceOk(s, kernel, upper) && IsRoot(s.place, root)
    requires ValidMapping(m) && ValidFlags(parentFlags) && IsPage(page) && VA.LowerHalf(page)
    ensures var (s', answer) := MapTo(s, root, page, m, parentFlags);
            && SpaceOk(s', kernel, upper) && OnlyTables(s, s')
            && answer == Expected(Probe(s.mem, root, VA.Indices(page), 0), UntypedFrom(s.words, s.cursor))
            && UntypedFrom(s'.words, s'.cursor) == Left(Probe(s.mem, root, VA.Indices(page), 0), UntypedFrom(s.words, s.cursor))
            && LowestTaken(s, s')
  {
    hide SpaceOk, Walk, MapFrom, OnlyTables, Probe, UntypedFrom, VA.Indices, LowestTaken;
    SpaceWords(s, kernel, upper);
    ReadyAtRoot(s, kernel, upper, root, page, m, parentFlags);
    MapAnswer(s, kernel, upper, root, root, VA.Indices(page), 0, m, WithPresent(parentFlags));
    MapKeeps(s, kernel, upper, root, root, VA.Indices(page), 0, m, WithPresent(parentFlags));
    MapUses(s, kernel, upper, root, root, VA.Indices(page), 0, m, WithPresent(parentFlags));
  }

  /** The one-key law: what a call should leave page `a` of `r` translating to. */
  function OneKey(s: Space, root: nat, page: VA.Usize, m: Mapping, parentFlags: Flags, r: nat,
                  a: VA.Usize): (t: Translation)
    requires |s.words| < MAX_FRAMES && ValidMapping(m) && ValidFlags(parentFlags)
  {
    if MapTo(s, root, page, m, parentFlags).1 != MapOk || r != root || a != page then TranslateAddr(s.mem, r, a)
    else if m.flags.present then Mapped(m.frame, m.flags, Upper(s, root, VA.Indices(page), 0, WithPresent(parentFlags)))
    else Unmapped
  }

  lemma {:induction false} PlainMapTo(s: Space, kernel: KernelTables, upper: seq<Entry>,
                            root: nat, page: VA.Usize, m: Mapping, parentFlags: Flags, r: nat, a: VA.Usize)
    requires SpaceOk(s, kernel, upper) && IsRoot(s.place, root) && IsRoot(s.place, r)
    requires ValidMapping(m) && ValidFlags(parentFlags) && !parentFlags.huge
    requires IsPage(page) && VA.LowerHalf(page) && IsPage(a)
    ensures TranslateAddr(MapTo(s, root, page, m, parentFlags).0.mem, r, a) == OneKey(s, root, page, m, parentFlags, r, a)
  {
    hide SpaceOk, Walk, MapFrom, OnlyTables, Upper, Probe, UntypedFrom, Expected;
    SpaceWords(s, kernel, upper);
    var added := WithPresent(parentFlags);
    var p: Path, q: Path := VA.Indices(page), VA.Indices(a);
    hide VA.Indices;
    var s' := MapTo(s, root, page, m, parentFlags).0;
    HalfOf(a);
    VA.IndicesInjective(page, a);
    ReadyAtRoot(s, kernel, upper, root, page, m, parentFlags);
    MapToKeeps(s, kernel, upper, root, page, m, parentFlags);
    MapOnlyOne(s, kernel, upper, root, root, p, 0, m, added);
    MapReachesLeaf(s, kernel, upper, root, root, p, 0, m, added, []);
    assert [] + Upper(s, root, p, 0, added) == Upper(s, root, p, 0, added);
    if !LowPath(q) {
      HigherHalfKept(s, s', kernel, upper, r, q);
    }
  }

  /** A call that adds a level whose entry reads as a large page. */
  predicate AddsLarge(s: Space, root: nat, page: VA.Usize, parentFlags: Flags) {
    parentFlags.huge && FindUntyped(s.words, s.cursor).Some? && LevelMissing(s.mem, root, VA.Indices(page), 0)
  }

  /** Where no level is missing, or none can be added, the parent flags are not used at all. */
  lemma {:induction false} ParentFlagsUnused(s: Space, kernel: KernelTables, upper: seq<Entry>, root: nat, t: nat,
                                             p: Path, d: nat, m: Mapping, added: Flags, added': Flags)
    requires Ready(s, kernel, upper, root, t, p, d, m, added) && Ready(s, kernel, upper, root, t, p, d, m, added')
    requires !(FindUntyped(s.words, s.cursor).Some? && LevelMissing(s.mem, t, p, d))
    ensures MapFrom(s, t, p, d, m, added) == MapFrom(s, t, p, d, m, added')
    ensures MapFrom(s, t, p, d, m, added).1 == MapOk ==> Upper(s, t, p, d, added) == Upper(s, t, p, d, added')
    decreases 4 - d
  {
    hide SpaceOk, OnlyTables, SameLow, SameAboveDepth;
    ReadyTable(s, kernel, upper, root, t, p, d, m, added);
    if d < 3 {
      ReadyBelow(s, kernel, upper, root, t, p, d, m, added);
      ReadyBelow(s, kernel, upper, root, t, p, d, m, added');
      var e := EntryAt(s.mem, t, p[d]);
      if e.Some? && !e.value.flags.huge {
        ParentFlagsUnused(s, kernel, upper, root, e.value.frame, p, d + 1, m, added, added');
        UpperFound(s, t, p, d, added, e.value, []);
        UpperFound(s, t, p, d, added', e.value, []);
        assert [] + Upper(s, t, p, d, added) == Upper(s, t, p, d, added);
        assert [] + Upper(s, t, p, d, added') == Upper(s, t, p, d, added');
      }
    }
  }

  /**
   `map_to` is a one-key update.  Whatever it answers, a page of any address space, lower or higher
   half, translates as before unless it is the very page asked for and the answer is `MapOk`; then
   it translates to exactly the frame and flags given, if they are present.  A failure half way is
   harmless too.  `HugeParents.OneKeyLaw` shows that the condition is needed.
   */
  lemma {:induction false} MapToUpdatesOnePage(s: Space, kernel: KernelTables, upper: seq<Entry>,
                            root: nat, page: VA.Usize, m: Mapping, parentFlags: Flags, r: nat, a: VA.Usize)
    requires SpaceOk(s, kernel, upper) && IsRoot(s.place, root) && IsRoot(s.place, r)
    requires ValidMapping(m) && ValidFlags(parentFlags) && !AddsLarge(s, root, page, parentFlags)
    requires IsPage(page) && VA.LowerHalf(page) && IsPage(a)
    ensures TranslateAddr(MapTo(s, root, page, m, parentFlags).0.mem, r, a) == OneKey(s, root, page, m, parentFlags, r, a)
  {
    hide SpaceOk, MapFrom, TranslateAddr, Upper, LevelMissing, VA.Indices, UntypedFrom;
    if parentFlags.huge {
      var plain := parentFlags.(huge := false);
      SpaceWords(s, kernel, upper);
      ReadyAtRoot(s, kernel, upper, root, page, m, parentFlags);
      ReadyAtRoot(s, kernel, upper, root, page, m, plain);
      ParentFlagsUnused(s, kernel, upper, root, root, VA.Indices(page), 0, m, WithPresent(parentFlags), WithPresent(plain));
      PlainMapTo(s, kernel, upper, root, page, m, plain, r, a);
    } else {
      PlainMapTo(s, kernel, upper, root, page, m, parentFlags, r, a);
    }
  }

  // Upper-level flags

  /** Every entry of the address space of `root` that leads to a lower-half table has these flags. */
  ghost predicate AllLevels(s: Space, root: nat, flags: Flags) {
    forall t, i :: t in s.place && s.place[t].root == root && Inner(s.place[t], i) ==> LevelOk(s.mem, t, i, flags)
  }

  predicate LevelOk(mem: Memory, t: nat, i: nat, flags: Flags)
    requires i < ENTRIES
  {
    IsTable(mem, t) && EntryAt(mem, t, i).Some? ==> EntryAt(mem, t, i).value.flags == flags
  }

  /** Adding levels with the same flags keeps it so. */
  lemma {:induction false} MapKeepsLevels(s: Space, kernel: KernelTables, upper: seq<Entry>,
                                           root: nat, t: nat, p: Path, d: nat, m: Mapping, added: Flags)
    requires Ready(s, kernel, upper, root, t, p, d, m, added) && AllLevels(s, root, added)
    ensures AllLevels(MapFrom(s, t, p, d, m, added).0, root, added)
    decreases 4 - d
  {
    hide SpaceOk, OnlyTables, SameLow, SameAboveDepth, Walk, Probe, AllLevels;
    ReadyTable(s, kernel, upper, root, t, p, d, m, added);
    var e := EntryAt(s.mem, t, p[d]);
    if d == 3 {
      LeafLevels(s, root, t, p[3], Stored(m), added);
      CursorLevels(s, |s.words|, root, added);
    } else {
      CursorLevels(s, |s.words|, root, added);
      ReadyBelow(s, kernel, upper, root, t, p, d, m, added);
      if e.Some? && !e.value.flags.huge {
        MapKeepsLevels(s, kernel, upper, root, e.value.frame, p, d + 1, m, added);
      } else if e.None? && FindUntyped(s.words, s.cursor).Some? {
        var c := FindUntyped(s.words, s.cursor).value;
        AddedLevels(s, root, t, p[d], c, added);
        MapKeepsLevels(AddTable(s, t, p[d], c, added), kernel, upper, root, c, p, d + 1, m, added);
      }
    }
  }

  lemma {:induction false} CursorLevels(s: Space, cursor: nat, root: nat, flags: Flags)
    requires AllLevels(s, root, flags)
    ensures AllLevels(s.(cursor := cursor), root, flags)
  {
  }

  lemma {:induction false} LeafLevels(s: Space, root: nat, t: nat, i: nat, e: Entry, flags: Flags)
    requires AllLevels(s, root, flags) && IsTable(s.mem, t) && i < ENTRIES && t in s.place && |s.place[t].path| == 3
    ensures AllLevels(s.(mem := WithEntry(s.mem, t, i, e)), root, flags)
  {
    var s' := s.(mem := WithEntry(s.mem, t, i, e));
    forall u, j | u in s'.place && s'.place[u].root == root && Inner(s'.place[u], j) ensures LevelOk(s'.mem, u, j, flags) {
      assert LevelOk(s.mem, u, j, flags);
    }
  }

  lemma {:induction false} AddedLevels(s: Space, root: nat, t: nat, i: nat, c: nat, added: Flags)
    requires AllLevels(s, root, added) && IsTable(s.mem, t) && i < ENTRIES && t in s.place && c !in s.place
    requires c < |s.words| < MAX_FRAMES && ValidFlags(added) && added.present
    ensures AllLevels(AddTable(s, t, i, c, added), root, added)
  {
    var s' := AddTable(s, t, i, c, added);
    forall u, j | u in s'.place && s'.place[u].root == root && Inner(s'.place[u], j) ensures LevelOk(s'.mem, u, j, added) {
      assert u != c ==> LevelOk(s.mem, u, j, added);
    }
  }

  /** So a page that is mapped there is reached through three such entries. */
  lemma {:induction false} LevelsAreVia(s: Space, root: nat, t: nat, p: Path, d: nat, flags: Flags, via: seq<Flags>)
    requires Forest(s.mem, s.place) && AllLevels(s, root, flags) && LowPath(p) && d < 4 && At(s.place, root, p, d, t)
    requires Walk(s.mem, t, p, d, via).Mapped?
    ensures Walk(s.mem, t, p, d, via).via == via + Repeat(3 - d, flags)
    decreases 4 - d
  {
    if d < 3 {
      Descend(s.mem, s.place, root, p, d, t);
      var x := EntryAt(s.mem, t, p[d]).value;
      assert LevelOk(s.mem, t, p[d], flags);
      LevelsAreVia(s, root, x.frame, p, d + 1, flags, via + [x.flags]);
      assert via + [flags] + Repeat(2 - d, flags) == via + Repeat(3 - d, flags);
    }
  }

  lemma {:induction false} HigherHalfKept(s: Space, s': Space, kernel: KernelTables, upper: seq<Entry>, r: nat, q: Path)
    requires SpaceOk(s, kernel, upper) && SpaceOk(s', kernel, upper) && OnlyTables(s, s')
    requires IsRoot(s.place, r) && !LowPath(q)
    ensures Translate(s'.mem, r, q) == Translate(s.mem, r, q)
  {
    KernelTablesKept(s, s', kernel, upper);
    assert IsRoot(s'.place, r);
    hide Forest, Rooted, KernelOk, SameUpper, KernelOwned, OnlyTables;
    HigherHalfCommon(s.mem, s.place, s'.mem, s'.place, kernel, upper, r, r, q);
  }

  // New address spaces

  /** `clone_kernel`: the upper half of the current table, copied entry by entry. */
  function CloneKernel(t: Table): (r: Table) {
    EmptyTable()[..256] + t[256..]
  }

  /** `clone_kernel` takes a pointer to the current table and drops it again; it can, two short of the maximum count. */
  predicate Borrowable(words: seq<R.Word>, current: nat) {
    KernelOwned(words, current) && R.ValueInto(words[current]).count < R.MAX_REF_COUNT - 1
  }

  /** `new_l4` on frame `c`, with `current` in CR3. */
  function NewRoot(s: Space, current: nat, c: nat): (r: Space)
    requires IsTable(s.mem, current) && c < |s.words|
  {
    s.(mem := s.mem[c := TablePage(CloneKernel(s.mem[current].entries))],
       place := s.place[c := Place(c, [])], words := Claimed(s.words, c, R.Kernel))
  }

  /** A new address space maps no lower-half page and every higher-half page as all others do; none of them changes. */
  lemma {:induction false} NewRootOk(s: Space, kernel: KernelTables, upper: seq<Entry>, current: nat, c: nat)
    requires SpaceOk(s, kernel, upper) && IsRoot(s.place, current) && c < |s.words| && IsUntyped(s.words, c)
    ensures IsTable(s.mem, current)
    ensures var s' := NewRoot(s, current, c);
            && SpaceOk(s', kernel, upper) && IsRoot(s'.place, c) && !IsRoot(s.place, c)
            && SameLow(s.mem, s'.mem, s.place)
            && forall q: Path :: LowPath(q) ==> Translate(s'.mem, c, q) == Unmapped
  {
    hide R.ValueInto, R.ValueFor, Forest, Rooted, KernelOk, SameUpper, KernelOwned, IdleHaveNoRefs, IsUntyped;
    PlacedTable(s.mem, s.place, current);
    KernelApart(s.mem, s.place, kernel);
    var s' := NewRoot(s, current, c);
    FreshFrame(s, kernel, upper, c);
    ClaimKeepsOwners(s, kernel, c);
    NewRootForest(s, current, c);
    NewRootUpper(s, kernel, upper, current, c);
    KernelOkStable(s.mem, s.place, s'.mem, s'.place, kernel);
    forall r, q: Path | IsRoot(s.place, r) && LowPath(q) ensures Translate(s'.mem, r, q) == Translate(s.mem, r, q) {
      FreshWalk(s.mem, s.place, s'.mem, c, r, q, 0, r, []);
    }
  }

  lemma {:induction false} NewRootForest(s: Space, current: nat, c: nat)
    requires Forest(s.mem, s.place) && IsTable(s.mem, current) && c < |s.words| && c !in s.place
    ensures Forest(NewRoot(s, current, c).mem, NewRoot(s, current, c).place)
    ensures Rooted(s.place) ==> Rooted(NewRoot(s, current, c).place)
  {
  }

  lemma {:induction false} NewRootUpper(s: Space, kernel: KernelTables, upper: seq<Entry>, current: nat, c: nat)
    requires SameUpper(s.mem, s.place, kernel, upper) && IsRoot(s.place, current) && IsTable(s.mem, current) && c < |s.words|
    ensures SameUpper(NewRoot(s, current, c).mem, NewRoot(s, current, c).place, kernel, upper)
  {
    var s' := NewRoot(s, current, c);
    forall r | IsRoot(s'.place, r) ensures IsTable(s'.mem, r) && s'.mem[r].entries[256..] == upper {
      assert r != c ==> IsRoot(s.place, r);
    }
  }

  /** Writing a frame that holds no lower-half table changes no lower-half walk. */
  lemma {:induction false} FreshWalk(mem: Memory, place: Places, mem': Memory, c: nat,
                                      root: nat, p: Path, d: nat, u: nat, via: seq<Flags>)
    requires Forest(mem, place) && c !in place && LowPath(p) && At(place, root, p, d, u)
    requires forall f :: f in mem && f != c ==> f in mem' && mem'[f] == mem[f]
    ensures Walk(mem', u, p, d, via) == Walk(mem, u, p, d, via)
    decreases 4 - d
  {
    assert TableOk(mem, place, u);
    if d < 3 {
      Descend(mem, place, root, p, d, u);
      var x := EntryAt(mem, u, p[d]);
      if x.Some? && !x.value.flags.huge {
        FreshWalk(mem, place, mem', c, root, p, d + 1, x.value.frame, via + [x.value.flags]);
      }
    }
  }

  // Whole runs

  /**
   A call names the cursor of the allocator it uses, so different calls may use different allocators.
   A panic ends the run, so the calls of a run are ones that do not panic.
   */
  datatype Call =
    | MapCall(cursor: nat, root: nat, page: VA.Usize, m: Mapping, parentFlags: Flags)
    | NewRootCall(cursor: nat, current: nat)

  predicate CallOk(s: Space, call: Call) {
    && call.cursor <= |s.words| < MAX_FRAMES
    && match call
       case MapCall(_, root, page, m, parentFlags) =>
         && IsRoot(s.place, root) && IsPage(page) && VA.LowerHalf(page)
         && ValidMapping(m) && ValidFlags(parentFlags)
       case NewRootCall(_, current) => IsRoot(s.place, current) && IsTable(s.mem, current) && Borrowable(s.words, current)
  }

  function Perform(s: Space, call: Call): (r: Space)
    requires CallOk(s, call)
  {
    match call
    case MapCall(cursor, root, page, m, parentFlags) => MapTo(s.(cursor := cursor), root, page, m, parentFlags).0
    case NewRootCall(cursor, current) =>
      match FindUntyped(s.words, cursor)
      case None => s.(cursor := |s.words|)
      case Some(c) => NewRoot(s, current, c).(cursor := c)
  }

  ghost predicate Performs(s: Space, calls: seq<Call>, last: Space)
    decreases |calls|
  {
    if calls == [] then s == last else CallOk(s, calls[0]) && Performs(Perform(s, calls[0]), calls[1..], last)
  }

  /** Kernel tables are untouched and address spaces stay. */
  ghost predicate KernelKept(s: Space, s': Space, kernel: KernelTables) {
    && (forall k :: k in kernel ==> k in s.mem && k in s'.mem && s'.mem[k] == s.mem[k])
    && (forall r :: IsRoot(s.place, r) ==> IsRoot(s'.place, r))
  }

  lemma {:induction false} CursorMoved(s: Space, kernel: KernelTables, upper: seq<Entry>, cursor: nat)
    requires SpaceOk(s, kernel, upper) && cursor <= |s.words|
    ensures SpaceOk(s.(cursor := cursor), kernel, upper)
  {
    hide Forest, Rooted, KernelOk, SameUpper, KernelOwned, IdleHaveNoRefs;
  }

  lemma {:induction false} MapCallKeeps(s: Space, call: Call, kernel: KernelTables, upper: seq<Entry>)
    requires SpaceOk(s, kernel, upper) && CallOk(s, call) && call.MapCall?
    ensures SpaceOk(Perform(s, call), kernel, upper) && KernelKept(s, Perform(s, call), kernel)
  {
    hide SpaceOk, MapTo, TranslateAddr, Probe, UntypedFrom, VA.Indices;
    var s1 := s.(cursor := call.cursor);
    CursorMoved(s, kernel, upper, call.cursor);
    var s' := Perform(s, call);
    MapToKeeps(s1, kernel, upper, call.root, call.page, call.m, call.parentFlags);
    KernelTablesKept(s1, s', kernel, upper);
  }

  lemma {:induction false} NewRootCallKeeps(s: Space, call: Call, kernel: KernelTables, upper: seq<Entry>)
    requires SpaceOk(s, kernel, upper) && CallOk(s, call) && call.NewRootCall?
    ensures SpaceOk(Perform(s, call), kernel, upper) && KernelKept(s, Perform(s, call), kernel)
    ensures SameLow(s.mem, Perform(s, call).mem, s.place)
  {
    hide Forest, Rooted, SameUpper, KernelOwned, IdleHaveNoRefs;
    var found := FindUntyped(s.words, call.cursor);
    if found.Some? {
      NewRootOk(s, kernel, upper, call.current, found.value);
      FreshFrame(s, kernel, upper, found.value);
    }
  }

  lemma {:induction false} RunKeeps(s: Space, calls: seq<Call>, last: Space, kernel: KernelTables, upper: seq<Entry>)
    requires SpaceOk(s, kernel, upper) && Performs(s, calls, last)
    ensures SpaceOk(last, kernel, upper) && KernelKept(s, last, kernel)
    decreases |calls|
  {
    if calls == [] {
      hide Forest, Rooted, SameUpper, KernelOwned, IdleHaveNoRefs;
    } else {
      if calls[0].MapCall? {
        MapCallKeeps(s, calls[0], kernel, upper);
      } else {
        NewRootCallKeeps(s, calls[0], kernel, upper);
      }
      hide SpaceOk, Perform;
      RunKeeps(Perform(s, calls[0]), calls[1..], last, kernel, upper);
    }
  }

  /**
   The kernel half is common to all address spaces: after any run of mappings and new address
   spaces, every higher-half page translates in every address space as it did in any of them at the start.
   */
  lemma {:induction false} HigherHalfCommonInRuns(s: Space, calls: seq<Call>, last: Space, kernel: KernelTables,
                                                  upper: seq<Entry>,
                               r: nat, r': nat, a: VA.Usize)
    requires SpaceOk(s, kernel, upper) && Performs(s, calls, last)
    requires IsRoot(s.place, r) && IsRoot(last.place, r') && IsPage(a) && !VA.LowerHalf(a)
    ensures TranslateAddr(last.mem, r', a) == TranslateAddr(s.mem, r, a)
  {
    HalfOf(a);
    RunKeeps(s, calls, last, kernel, upper);
    hide Forest, Rooted, KernelOk, SameUpper, KernelOwned, IdleHaveNoRefs, VA.Indices, Performs;
    HigherHalfCommon(s.mem, s.place, last.mem, last.place, kernel, upper, r, r', VA.Indices(a));
  }

  /**
   What a call does to the translation `t` of page `a` of `r`, as an update of a map.  The key of an
   address space that the call creates starts with an empty lower half and the kernel's higher half.
   */
  function Updated(s: Space, call: Call, r: nat, a: VA.Usize, t: Translation): (t': Translation)
    requires CallOk(s, call)
  {
    match call
    case NewRootCall(cursor, current) =>
      if FindUntyped(s.words, cursor) != Some(r) then t
      else if VA.LowerHalf(a) then Unmapped
      else TranslateAddr(s.mem, current, a)
    case MapCall(cursor, root, page, m, parentFlags) =>
      var s1 := s.(cursor := cursor);
      if MapTo(s1, root, page, m, parentFlags).1 != MapOk || r != root || a != page then t
      else if m.flags.present then Mapped(m.frame, m.flags, Upper(s1, root, VA.Indices(page), 0, WithPresent(parentFlags)))
      else Unmapped
  }

  /** No call of the run adds a level that reads as a large page. */
  ghost predicate NoneAddsLarge(s: Space, calls: seq<Call>, last: Space)
    requires Performs(s, calls, last)
    decreases |calls|
  {
    calls == [] || (PlainCall(s, calls[0]) && NoneAddsLarge(Perform(s, calls[0]), calls[1..], last))
  }

  predicate PlainCall(s: Space, call: Call) {
    call.MapCall? ==> !AddsLarge(s.(cursor := call.cursor), call.root, call.page, call.parentFlags)
  }

  ghost function Replayed(s: Space, calls: seq<Call>, last: Space, r: nat, a: VA.Usize,
                          t: Translation): (t': Translation)
    requires Performs(s, calls, last)
    decreases |calls|
  {
    if calls == [] then t else Replayed(Perform(s, calls[0]), calls[1..], last, r, a, Updated(s, calls[0], r, a, t))
  }

  lemma {:induction false} CallUpdates(s: Space, call: Call, kernel: KernelTables, upper: seq<Entry>, r: nat,
                                       a: VA.Usize)
    requires SpaceOk(s, kernel, upper) && CallOk(s, call) && PlainCall(s, call) && IsRoot(s.place, r) && IsPage(a)
    ensures TranslateAddr(Perform(s, call).mem, r, a) == Updated(s, call, r, a, TranslateAddr(s.mem, r, a))
  {
    if call.MapCall? {
      hide SpaceOk, MapTo, TranslateAddr;
      var s1 := s.(cursor := call.cursor);
      CursorMoved(s, kernel, upper, call.cursor);
      MapToUpdatesOnePage(s1, kernel, upper, call.root, call.page, call.m, call.parentFlags, r, a);
    } else {
      hide Forest, Rooted, KernelOk, SameUpper, KernelOwned, IdleHaveNoRefs, VA.Indices, Perform, IsUntyped;
      HalfOf(a);
      NewRootCallKeeps(s, call, kernel, upper);
      NewRootIsNew(s, call, kernel, upper);
      var q: Path := VA.Indices(a);
      if !LowPath(q) {
        var s' := Perform(s, call);
        HigherHalfCommon(s.mem, s.place, s'.mem, s'.place, kernel, upper, r, r, q);
      }
    }
  }

  lemma {:induction false} NewRootIsNew(s: Space, call: Call, kernel: KernelTables, upper: seq<Entry>)
    requires SpaceOk(s, kernel, upper) && CallOk(s, call) && call.NewRootCall?
    ensures forall c :: FindUntyped(s.words, call.cursor) == Some(c) ==> c !in s.place
    ensures forall r: nat :: IsRoot(Perform(s, call).place, r) && !IsRoot(s.place, r) ==>
              FindUntyped(s.words, call.cursor) == Some(r)
  {
    if FindUntyped(s.words, call.cursor).Some? {
      FreshFrame(s, kernel, upper, FindUntyped(s.words, call.cursor).value);
    }
  }

  /** An address space that a call creates starts as `Updated` says, whatever `t`; a mapping creates none. */
  lemma {:induction false} CallCreates(s: Space, call: Call, kernel: KernelTables, upper: seq<Entry>, r: nat,
                                       a: VA.Usize, t: Translation)
    requires SpaceOk(s, kernel, upper) && CallOk(s, call) && IsPage(a)
    requires !IsRoot(s.place, r) && IsRoot(Perform(s, call).place, r)
    ensures TranslateAddr(Perform(s, call).mem, r, a) == Updated(s, call, r, a, t)
  {
    hide Forest, Rooted, KernelOk, SameUpper, KernelOwned, IdleHaveNoRefs, VA.Indices, MapTo, IsUntyped, UntypedFrom, Probe;
    if call.MapCall? {
      CursorMoved(s, kernel, upper, call.cursor);
      MapToKeeps(s.(cursor := call.cursor), kernel, upper, call.root, call.page, call.m, call.parentFlags);
      assert false;
    } else {
      HalfOf(a);
      NewRootIsNew(s, call, kernel, upper);
      NewRootOk(s, kernel, upper, call.current, r);
      NewRootCallKeeps(s, call, kernel, upper);
      var q: Path := VA.Indices(a);
      if !LowPath(q) {
        var s' := Perform(s, call);
        HigherHalfCommon(s.mem, s.place, s'.mem, s'.place, kernel, upper, call.current, r, q);
      }
    }
  }

  /**
   Over every run in which no call adds a large entry, page tables refine a map from (address space,
   page) to translation: mappings update one key at a time, and a new address space adds its keys.
   `r` is any address space there is at the end; `t` is where its key starts, if there was one.
   */
  lemma {:induction false} RunRefinesMap(s: Space, calls: seq<Call>, last: Space, kernel: KernelTables,
                                         upper: seq<Entry>,
                                          r: nat, a: VA.Usize, t: Translation)
    requires SpaceOk(s, kernel, upper) && Performs(s, calls, last) && NoneAddsLarge(s, calls, last)
    requires IsRoot(last.place, r) && IsPage(a) && (IsRoot(s.place, r) ==> t == TranslateAddr(s.mem, r, a))
    ensures TranslateAddr(last.mem, r, a) == Replayed(s, calls, last, r, a, t)
    decreases |calls|
  {
    hide SpaceOk, Perform, TranslateAddr, SameLow, Updated;
    if calls != [] {
      var s1 := Perform(s, calls[0]);
      if calls[0].MapCall? {
        MapCallKeeps(s, calls[0], kernel, upper);
      } else {
        NewRootCallKeeps(s, calls[0], kernel, upper);
      }
      if IsRoot(s.place, r) {
        CallUpdates(s, calls[0], kernel, upper, r, a);
      } else if IsRoot(s1.place, r) {
        CallCreates(s, calls[0], kernel, upper, r, a, t);
      }
      RunRefinesMap(s1, calls[1..], last, kernel, upper, r, a, Updated(s, calls[0], r, a, t));
    }
  }
}
