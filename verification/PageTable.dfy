/**
 Page tables in physical memory and what they mean
 (harmony/kernel/src/arch/x86_64/paging/page_table.rs).

 Memory holds, frame by frame, either a table of 512 entries or plain bytes.  `Walk` is the
 four-level translation of section 4.5 of the Intel 64 and IA-32 SDM, volume 3A; the kernel's own
 `Addrspace::get` is unimplemented.  The `place` of a table says from which root and along which
 indices it is reached; that every table has one place is the no-sharing invariant.
 */
module PageTables {
  import opened Layout
  import opened Wrappers
  import opened PageTableEntries

  /** What `get` can return: the all-zero word reads as no entry. */
  type Entry = e: Option<Mapping> | e.None? || (ValidMapping(e.value) && e.value != Mapping(0, NO_FLAGS)) witness None
  type Table = t: seq<Entry> | |t| == ENTRIES witness seq<Entry>(ENTRIES, _ => None)
  type Byte = b: nat | b < 256
  type PageBytes = p: seq<Byte> | |p| == PAGE_SIZE witness seq(PAGE_SIZE, _ => 0)

  datatype Content = TablePage(entries: Table) | BytePage(bytes: PageBytes)
  type Memory = map<nat, Content>

  /** Table indices of one page, top level first. */
  type Path = p: seq<nat> | |p| == 4 && forall k :: 0 <= k < 4 ==> p[k] < ENTRIES witness [0, 0, 0, 0]

  predicate LowPath(p: Path) { p[0] < 256 }

  /**
   `via` lists the flags of the upper-level entries used, top first; access rights are theirs
   combined with the leaf's.  `Large` is a 1 GiB (depth 1) or 2 MiB (depth 2) page.
   */
  datatype Translation =
    | Unmapped
    | Mapped(frame: nat, flags: Flags, via: seq<Flags>)
    | Large(depth: nat, frame: nat, flags: Flags, via: seq<Flags>)
    | Fault

  // Access rights: section 4.6 of the same manual combines the entries of all levels

  predicate CanWrite(t: Translation)
    requires t.Mapped?
  {
    t.flags.writable && forall i :: 0 <= i < |t.via| ==> t.via[i].writable
  }

  predicate CanUse(t: Translation)
    requires t.Mapped?
  {
    t.flags.user && forall i :: 0 <= i < |t.via| ==> t.via[i].user
  }

  predicate CanExecute(t: Translation)
    requires t.Mapped?
  {
    !t.flags.noExecute && forall i :: 0 <= i < |t.via| ==> !t.via[i].noExecute
  }

  function EmptyTable(): (t: Table)
    ensures forall i :: 0 <= i < ENTRIES ==> t[i] == None
  {
    seq<Entry>(ENTRIES, _ => None)
  }

  predicate IsTable(mem: Memory, t: nat) { t in mem && mem[t].TablePage? }

  function EntryAt(mem: Memory, t: nat, i: nat): (e: Entry)
    requires IsTable(mem, t) && i < ENTRIES
  {
    mem[t].entries[i]
  }

  /** The hardware walk from table `t` at depth `d`. */
  function Walk(mem: Memory, t: nat, p: Path, d: nat, via: seq<Flags>): (r: Translation)
    requires d < 4
    decreases 4 - d
  {
    if !IsTable(mem, t) then Fault else
    match EntryAt(mem, t, p[d])
    case None => Unmapped
    case Some(Mapping(frame, flags)) =>
      if !flags.present then Unmapped
      else if d == 3 then Mapped(frame, flags, via)
      else if flags.huge then (if d == 0 then Fault else Large(d, frame, flags, via))
      else Walk(mem, frame, p, d + 1, via + [flags])
  }

  function Translate(mem: Memory, root: nat, p: Path): (r: Translation) { Walk(mem, root, p, 0, []) }

  lemma {:induction false} WalkStep(mem: Memory, t: nat, p: Path, d: nat, via: seq<Flags>, x: Mapping)
    requires d < 3 && IsTable(mem, t) && EntryAt(mem, t, p[d]) == Some(x) && x.flags.present && !x.flags.huge
    ensures Walk(mem, t, p, d, via) == Walk(mem, x.frame, p, d + 1, via + [x.flags])
  {
  }

  /** Entry `i` of `t` becomes `e`. */
  function WithEntry(mem: Memory, t: nat, i: nat, e: Entry): (r: Memory)
    requires IsTable(mem, t) && i < ENTRIES
  {
    mem[t := TablePage(mem[t].entries[i := e])]
  }

  // Where tables sit

  datatype Place = Place(root: nat, path: seq<nat>)
  type Places = map<nat, Place>

  predicate IsRoot(place: Places, t: nat) { t in place && place[t] == Place(t, []) }

  /** The entries of a lower-half table that lead to other lower-half tables. */
  predicate Inner(pl: Place, i: nat) { i < ENTRIES && |pl.path| < 3 && (pl.path == [] ==> i < 256) }

  /** An inner entry is empty, a large page, or leads to the table placed one index further down. */
  predicate InnerEntryOk(place: Places, pl: Place, i: nat, e: Entry) {
    e.None? || e.value.flags.huge ||
    (e.value.flags.present && e.value.frame in place && place[e.value.frame] == Place(pl.root, pl.path + [i]))
  }

  predicate TableOk(mem: Memory, place: Places, t: nat)
    requires t in place
  {
    && IsTable(mem, t) && |place[t].path| <= 3 && (place[t].path == [] ==> place[t].root == t)
    && forall i :: 0 <= i < ENTRIES && Inner(place[t], i) ==> InnerEntryOk(place, place[t], i, EntryAt(mem, t, i))
  }

  /** The lower halves of all address spaces form a forest. */
  predicate Forest(mem: Memory, place: Places) { forall t :: t in place ==> TableOk(mem, place, t) }

  /** Every table is placed below a root. */
  predicate Rooted(place: Places) { forall t :: t in place ==> IsRoot(place, place[t].root) }

  /** Table `t` is where the walk of `p` from `root` is at depth `d`. */
  predicate At(place: Places, root: nat, p: Path, d: nat, t: nat) {
    d <= 3 && t in place && place[t] == Place(root, p[..d])
  }

  lemma {:induction false} Descend(mem: Memory, place: Places, root: nat, p: Path, d: nat, t: nat)
    requires Forest(mem, place) && At(place, root, p, d, t) && LowPath(p) && d < 3
    ensures IsTable(mem, t) && Inner(place[t], p[d])
    ensures var e := EntryAt(mem, t, p[d]);
            e.Some? && !e.value.flags.huge ==> e.value.flags.present && At(place, root, p, d + 1, e.value.frame)
  {
  }

  /** Does the walk of `p` from `root` use entry `i` of table `t`? */
  predicate Uses(place: Places, root: nat, p: Path, t: nat, i: nat)
    requires t in place
  {
    place[t].root == root && |place[t].path| <= 3 && place[t].path == p[..|place[t].path|] && p[|place[t].path|] == i
  }

  // Writing a leaf

  lemma {:induction false} LeafWriteElsewhere(mem: Memory, place: Places, t: nat, i: nat, e: Entry,
                                               root: nat, p: Path, d: nat, u: nat, via: seq<Flags>)
    requires Forest(mem, place) && t in place && |place[t].path| == 3 && i < ENTRIES
    requires LowPath(p) && At(place, root, p, d, u) && !Uses(place, root, p, t, i)
    ensures IsTable(mem, t) && Walk(WithEntry(mem, t, i, e), u, p, d, via) == Walk(mem, u, p, d, via)
    decreases 4 - d
  {
    assert TableOk(mem, place, t) && TableOk(mem, place, u);
    if d < 3 {
      Descend(mem, place, root, p, d, u);
      var x := EntryAt(mem, u, p[d]);
      if x.Some? && !x.value.flags.huge {
        LeafWriteElsewhere(mem, place, t, i, e, root, p, d + 1, x.value.frame, via + [x.value.flags]);
      }
    }
  }

  lemma {:induction false} LeafWriteForest(mem: Memory, place: Places, t: nat, i: nat, e: Entry)
    requires Forest(mem, place) && t in place && |place[t].path| == 3 && i < ENTRIES
    ensures IsTable(mem, t) && Forest(WithEntry(mem, t, i, e), place)
  {
  }

  // Linking a fresh table

  /** Frame `c` becomes an empty table reached through entry `i` of `t`. */
  function Linked(mem: Memory, t: nat, i: nat, c: nat, flags: Flags): (r: Memory)
    requires IsTable(mem, t) && i < ENTRIES
    requires ValidMapping(Mapping(c, flags)) && flags.present
  {
    WithEntry(mem[c := TablePage(EmptyTable())], t, i, Some(Mapping(c, flags)))
  }

  predicate Linkable(mem: Memory, place: Places, t: nat, i: nat, c: nat, flags: Flags) {
    && Forest(mem, place) && t in place && IsTable(mem, t) && Inner(place[t], i)
    && EntryAt(mem, t, i) == None && c !in place && flags.present
    && ValidMapping(Mapping(c, flags))
  }

  function PlaceBelow(place: Places, t: nat, i: nat, c: nat): (r: Places)
    requires t in place
  {
    place[c := Place(place[t].root, place[t].path + [i])]
  }

  lemma {:induction false} LinkRooted(place: Places, t: nat, i: nat, c: nat)
    requires Rooted(place) && t in place && c !in place
    ensures Rooted(PlaceBelow(place, t, i, c))
  {
  }

  lemma {:induction false} LinkForest(mem: Memory, place: Places, t: nat, i: nat, c: nat, flags: Flags)
    requires Linkable(mem, place, t, i, c, flags)
    ensures Forest(Linked(mem, t, i, c, flags), PlaceBelow(place, t, i, c))
  {
  }

  /** Linking a fresh empty table changes no translation: what it would serve was unmapped and still is. */
  lemma {:induction false} LinkKeepsWalks(mem: Memory, place: Places, t: nat, i: nat, c: nat, flags: Flags,
                                           root: nat, p: Path, d: nat, u: nat, via: seq<Flags>)
    requires Linkable(mem, place, t, i, c, flags) && !flags.huge
    requires LowPath(p) && At(place, root, p, d, u)
    ensures Walk(Linked(mem, t, i, c, flags), u, p, d, via) == Walk(mem, u, p, d, via)
    decreases 4 - d
  {
    assert TableOk(mem, place, t) && TableOk(mem, place, u);
    if d < 3 {
      Descend(mem, place, root, p, d, u);
      var x := EntryAt(mem, u, p[d]);
      if x.Some? && !x.value.flags.huge {
        LinkKeepsWalks(mem, place, t, i, c, flags, root, p, d + 1, x.value.frame, via + [x.value.flags]);
      }
    }
  }

  // What a mapping attempt will find

  datatype Probing = Hit(frame: nat) | Blocked | Missing(depth: nat)

  /** How far the walk of `p` gets before `map_to` has to stop or to add something. */
  function Probe(mem: Memory, t: nat, p: Path, d: nat): (r: Probing)
    requires d < 4
    decreases 4 - d
  {
    if !IsTable(mem, t) then Blocked else
    match EntryAt(mem, t, p[d])
    case None => Missing(d)
    case Some(Mapping(frame, flags)) =>
      if d == 3 then Hit(frame) else if flags.huge then Blocked else Probe(mem, frame, p, d + 1)
  }

  /** A level of the walk of `p` is missing above the leaf. */
  predicate LevelMissing(mem: Memory, t: nat, p: Path, d: nat)
    requires d < 4
  {
    Probe(mem, t, p, d).Missing? && Probe(mem, t, p, d).depth < 3
  }

  /** A page that translates stops a mapping attempt. */
  lemma {:induction false} MappedIsHit(mem: Memory, t: nat, p: Path, d: nat, via: seq<Flags>)
    requires d < 4 && Walk(mem, t, p, d, via).Mapped?
    ensures Probe(mem, t, p, d) == Hit(Walk(mem, t, p, d, via).frame)
    decreases 4 - d
  {
    if d < 3 {
      var x := EntryAt(mem, t, p[d]).value;
      MappedIsHit(mem, x.frame, p, d + 1, via + [x.flags]);
    }
  }

  /** Flags of the upper-level entries that already exist along `p`. */
  function Chain(mem: Memory, t: nat, p: Path, d: nat): (via: seq<Flags>)
    requires d < 4
    decreases 4 - d
  {
    if d == 3 || !IsTable(mem, t) then [] else
    match EntryAt(mem, t, p[d])
    case None => []
    case Some(Mapping(frame, flags)) => if flags.huge then [] else [flags] + Chain(mem, frame, p, d + 1)
  }

  // The higher half

  /** Kernel tables by depth; no lower-half table is among them. */
  type KernelTables = map<nat, nat>

  predicate HighEntryOk(kernel: KernelTables, depth: nat, e: Entry) {
    e.Some? && e.value.flags.present && !e.value.flags.huge ==>
      e.value.frame in kernel && kernel[e.value.frame] == depth
  }

  predicate KernelOk(mem: Memory, place: Places, kernel: KernelTables) {
    && (forall k :: k in kernel ==> k !in place && IsTable(mem, k) && 1 <= kernel[k] <= 3)
    && (forall k, i :: k in kernel && 0 <= i < ENTRIES && kernel[k] < 3 ==>
          HighEntryOk(kernel, kernel[k] + 1, EntryAt(mem, k, i)))
  }

  /** The upper 256 entries of every root are the boot table's. */
  ghost predicate SameUpper(mem: Memory, place: Places, kernel: KernelTables, upper: seq<Entry>) {
    && |upper| == 256 && (forall i :: 0 <= i < 256 ==> HighEntryOk(kernel, 1, upper[i]))
    && forall r :: IsRoot(place, r) ==> IsTable(mem, r) && mem[r].entries[256..] == upper
  }

  lemma {:induction false} KernelOkStable(mem: Memory, place: Places, mem': Memory, place': Places,
                                          kernel: KernelTables)
    requires KernelOk(mem, place, kernel)
    requires forall k :: k in kernel ==> k !in place' && k in mem' && mem'[k] == mem[k]
    ensures KernelOk(mem', place', kernel)
  {
    forall k, i | k in kernel && 0 <= i < ENTRIES && kernel[k] < 3
      ensures HighEntryOk(kernel, kernel[k] + 1, EntryAt(mem', k, i))
    {
      assert HighEntryOk(kernel, kernel[k] + 1, EntryAt(mem, k, i));
    }
  }

  /**
   A higher-half page translates the same from every root, in memory before and after any change
   that leaves the kernel tables alone.
   */
  lemma {:induction false} HigherHalfCommon(mem: Memory, place: Places, mem': Memory, place': Places,
                                            kernel: KernelTables,
                         upper: seq<Entry>, r: nat, r': nat, p: Path)
    requires KernelOk(mem, place, kernel) && SameUpper(mem, place, kernel, upper) && IsRoot(place, r)
    requires SameUpper(mem', place', kernel, upper) && IsRoot(place', r')
    requires forall j :: j in kernel ==> j in mem' && mem'[j] == mem[j]
    requires !LowPath(p)
    ensures Translate(mem', r', p) == Translate(mem, r, p)
  {
  }
}
