/**
 The graph of capability tables and its reference counts (harmony/kernel/src/caps.rs,
 harmony/kernel/src/kptr.rs and the Link and Unlink branches in harmony/kernel/src/component.rs).

 A kernel object fills one frame; the count of that frame is kept in the retype table.  A pointer
 to an object is either a field of another object or a handle held by running kernel code.  `ext`
 is the bag of those handles: it is bookkeeping, and every method says how it changes.
 */
module CapGraphs {
  import opened Wrappers
  import opened RetypeTables
  import R = RetypeEntries
  import Tries

  const NUM_SLOTS: nat := Tries.NUM_SLOTS

  datatype Resource = Empty | CapEntry(table: nat) | ThreadCap(thread: nat) | PageTableCap(pages: nat, level: nat)

  datatype Slot = Slot(child: Option<nat>, resource: Resource)

  datatype Object = Table(slots: seq<Slot>) | Thread(resources: nat) | PageTable

  type Objects = seq<Option<Object>>

  // Pointers

  function ChildPointer(c: Option<nat>): (ps: seq<nat>) {
    if c.Some? then [c.value] else []
  }

  function ResourcePointer(r: Resource): (ps: seq<nat>) {
    match r
    case Empty => []
    case CapEntry(t) => [t]
    case ThreadCap(t) => [t]
    case PageTableCap(t, _) => [t]
  }

  function Pointers(s: Slot): (ps: seq<nat>) {
    ChildPointer(s.child) + ResourcePointer(s.resource)
  }

  /** The pointers of a table in the order in which they are dropped. */
  function SlotPointers(slots: seq<Slot>): (ps: seq<nat>) {
    if slots == [] then [] else SlotPointers(slots[..|slots| - 1]) + Pointers(slots[|slots| - 1])
  }

  function Fields(o: Object): (ps: seq<nat>) {
    match o
    case Table(slots) => SlotPointers(slots)
    case Thread(resources) => [resources]
    case PageTable => []
  }

  /** How often an object points to frame `f`. */
  function HeldBy(o: Option<Object>, f: nat): (n: nat) {
    if o.None? then 0 else multiset(Fields(o.value))[f]
  }

  /** How many fields of live objects point to frame `f`. */
  function InEdges(objs: Objects, f: nat): (n: nat) {
    if objs == [] then 0 else InEdges(objs[..|objs| - 1], f) + HeldBy(objs[|objs| - 1], f)
  }

  /** Fields and handles together. */
  function Uses(objs: Objects, ext: multiset<nat>, f: nat): (n: nat) {
    InEdges(objs, f) + ext[f]
  }

  /** The counting law: a live object is in use and counted exactly; nothing points anywhere else. */
  predicate FrameLaw(objs: Objects, words: seq<R.Word>, ext: multiset<nat>, f: nat)
    requires |words| == |objs|
  {
    if f < |objs| && objs[f].Some?
    then Uses(objs, ext, f) > 0 && R.ValueInto(words[f]) == R.Entry(R.Kernel, Uses(objs, ext, f))
    else Uses(objs, ext, f) == 0
  }

  ghost predicate Law(objs: Objects, words: seq<R.Word>, ext: multiset<nat>) {
    |words| == |objs| && forall f: nat :: FrameLaw(objs, words, ext, f)
  }

  lemma {:induction false} EdgesUpdate(objs: Objects, i: nat, o: Option<Object>, f: nat)
    requires i < |objs|
    ensures InEdges(objs[i := o], f) + HeldBy(objs[i], f) == InEdges(objs, f) + HeldBy(o, f)
  {
    var n := |objs| - 1;
    if i == n {
      assert objs[i := o][..n] == objs[..n];
    } else {
      EdgesUpdate(objs[..n], i, o, f);
      assert objs[i := o][..n] == objs[..n][i := o];
    }
  }

  lemma {:induction false} EdgesFrom(objs: Objects, g: nat, f: nat)
    requires g < |objs|
    ensures InEdges(objs, f) >= HeldBy(objs[g], f)
  {
    EdgesUpdate(objs, g, None, f);
  }

  lemma {:induction false} EdgeSomewhere(objs: Objects, f: nat) returns (g: nat)
    requires InEdges(objs, f) > 0
    ensures g < |objs| && HeldBy(objs[g], f) > 0
  {
    g := |objs| - 1;
    if HeldBy(objs[g], f) == 0 {
      g := EdgeSomewhere(objs[..|objs| - 1], f);
    }
  }

  // What a release may free

  /** A set of live objects each of which is held by a handle or by a member of the set. */
  ghost predicate Supported(objs: Objects, ext: multiset<nat>, keep: set<nat>) {
    forall f :: f in keep ==> IsSupported(objs, ext, keep, f)
  }

  ghost predicate IsSupported(objs: Objects, ext: multiset<nat>, keep: set<nat>, f: nat) {
    && f < |objs| && objs[f].Some?
    && (ext[f] > 0 || exists g :: g in keep && g < |objs| && HeldBy(objs[g], f) > 0)
  }

  /** Objects may have been freed, but none of a supported set; the others are untouched. */
  ghost predicate Trimmed(objs: Objects, objs': Objects, ext: multiset<nat>) {
    && |objs'| == |objs|
    && (forall f :: 0 <= f < |objs| ==> objs'[f] == objs[f] || objs'[f] == None)
    && (forall keep: set<nat>, f: nat :: Supported(objs, ext, keep) && f in keep ==> f < |objs| && objs'[f] == objs[f])
  }

  lemma {:induction false} NothingTrimmed(objs: Objects, ext: multiset<nat>)
    ensures Trimmed(objs, objs, ext)
  {
  }

  /** Trimming with more handles about and then with fewer is trimming with the fewer. */
  lemma {:induction false} TrimmedTwice(a: Objects, b: Objects, c: Objects, more: multiset<nat>, fewer: multiset<nat>)
    requires Trimmed(a, b, more) && Trimmed(b, c, fewer) && fewer <= more
    ensures Trimmed(a, c, fewer)
  {
  }

  /** A handle keeps its object. */
  lemma {:induction false} HandleKeeps(objs: Objects, objs': Objects, ext: multiset<nat>, f: nat)
    requires Trimmed(objs, objs', ext) && ext[f] > 0 && f < |objs| && objs[f].Some?
    ensures objs'[f] == objs[f]
  {
    assert IsSupported(objs, ext, {f}, f);
    assert Supported(objs, ext, {f});
  }

  /** Live objects. */
  function Live(objs: Objects): (fs: set<nat>) {
    set f: nat | f < |objs| && objs[f].Some?
  }

  /** What is left after a release is the greatest supported set of what was there. */
  lemma {:induction false} SurvivorsAreGreatest(objs: Objects, objs': Objects, words: seq<R.Word>, ext: multiset<nat>)
    requires Trimmed(objs, objs', ext) && Law(objs', words, ext)
    ensures Supported(objs, ext, Live(objs'))
    ensures forall keep: set<nat> :: Supported(objs, ext, keep) ==> keep <= Live(objs')
  {
    forall f | f in Live(objs') ensures IsSupported(objs, ext, Live(objs'), f) {
      assert FrameLaw(objs', words, ext, f);
      if ext[f] == 0 {
        var g := EdgeSomewhere(objs', f);
        assert g in Live(objs');
      }
    }
    forall keep: set<nat> | Supported(objs, ext, keep) ensures keep <= Live(objs') {
      forall f | f in keep ensures f in Live(objs') {
        assert IsSupported(objs, ext, keep, f);
      }
    }
  }

  function Alive(objs: Objects): (n: nat) {
    if objs == [] then 0 else Alive(objs[..|objs| - 1]) + (if objs[|objs| - 1].Some? then 1 else 0)
  }

  lemma {:induction false} TrimmedIsSmaller(objs: Objects, objs': Objects)
    requires |objs'| == |objs| && forall f :: 0 <= f < |objs| ==> objs'[f] == objs[f] || objs'[f] == None
    ensures Alive(objs') <= Alive(objs)
  {
    if objs != [] {
      TrimmedIsSmaller(objs[..|objs| - 1], objs'[..|objs| - 1]);
    }
  }

  lemma {:induction false} RemovedIsSmaller(objs: Objects, f: nat)
    requires f < |objs| && objs[f].Some?
    ensures Alive(objs[f := None]) == Alive(objs) - 1
  {
    var n := |objs| - 1;
    if f == n {
      assert objs[f := None][..n] == objs[..n];
    } else {
      RemovedIsSmaller(objs[..n], f);
      assert objs[f := None][..n] == objs[..n][f := None];
    }
  }

  // One decrement

  /** A release that is not the last. */
  lemma {:induction false} ReleasedOne(objs: Objects, words: seq<R.Word>, words': seq<R.Word>, ext: multiset<nat>,
                                       f: nat)
    requires Law(objs, words, ext) && ext[f] > 0 && f < |objs|
    requires |words'| == |words| && words' == words[f := words'[f]]
    requires R.ValueInto(words'[f]) == R.Entry(R.Kernel, Uses(objs, ext, f) - 1) && Uses(objs, ext, f) > 1
    ensures Law(objs, words', ext - multiset{f})
  {
    hide R.ValueInto, InEdges;
    forall g: nat ensures FrameLaw(objs, words', ext - multiset{f}, g) {
      assert FrameLaw(objs, words, ext, g);
    }
  }

  /** The last release: the object goes, and the pointers it held are handles until they are dropped. */
  lemma {:induction false} ReleasedLast(objs: Objects, words: seq<R.Word>, words': seq<R.Word>, ext: multiset<nat>,
                                        f: nat)
    requires Law(objs, words, ext) && ext[f] > 0 && f < |objs| && objs[f].Some? && Uses(objs, ext, f) == 1
    requires |words'| == |words| && words' == words[f := words'[f]]
    ensures var left := ext - multiset{f} + multiset(Fields(objs[f].value));
            Law(objs[f := None], words', left) && Trimmed(objs, objs[f := None], left)
  {
    hide R.ValueInto, InEdges, Fields;
    var left := ext - multiset{f} + multiset(Fields(objs[f].value));
    var objs' := objs[f := None];
    forall g: nat ensures FrameLaw(objs', words', left, g) {
      assert FrameLaw(objs, words, ext, g);
      EdgesUpdate(objs, f, None, g);
    }
    EdgesFrom(objs, f, f);
    forall keep: set<nat>, g: nat | Supported(objs, left, keep) && g in keep ensures g < |objs| && g != f {
      assert IsSupported(objs, left, keep, g);
      if g == f {
        var h :| h in keep && h < |objs| && HeldBy(objs[h], f) > 0;
        EdgesFrom(objs, h, f);
      }
    }
  }

  lemma {:induction false} AcquiredOne(objs: Objects, words: seq<R.Word>, words': seq<R.Word>, ext: multiset<nat>,
                                       f: nat)
    requires Law(objs, words, ext) && f < |objs| && objs[f].Some?
    requires |words'| == |words| && words' == words[f := words'[f]]
    requires R.ValueInto(words'[f]) == R.Entry(R.Kernel, Uses(objs, ext, f) + 1)
    ensures Law(objs, words', ext + multiset{f})
  {
    hide R.ValueInto, InEdges;
    forall g: nat ensures FrameLaw(objs, words', ext + multiset{f}, g) {
      assert FrameLaw(objs, words, ext, g);
    }
  }

  lemma {:induction false} NewObject(objs: Objects, words: seq<R.Word>, words': seq<R.Word>, ext: multiset<nat>,
                                     f: nat, o: Object)
    requires Law(objs, words, ext) && f < |objs| && R.ValueInto(words[f]).state == R.Untyped && multiset(Fields(o)) <= ext
    requires |words'| == |words| && words' == words[f := words'[f]] && R.ValueInto(words'[f]) == R.Entry(R.Kernel, 1)
    ensures Law(objs[f := Some(o)], words', ext - multiset(Fields(o)) + multiset{f})
  {
    hide R.ValueInto, InEdges, Fields;
    var objs', ext' := objs[f := Some(o)], ext - multiset(Fields(o)) + multiset{f};
    assert FrameLaw(objs, words, ext, f);
    forall g: nat ensures FrameLaw(objs', words', ext', g) {
      assert FrameLaw(objs, words, ext, g);
      EdgesUpdate(objs, f, Some(o), g);
    }
  }

  function NoObjects(n: nat): (objs: Objects)
    ensures |objs| == n && forall f :: 0 <= f < n ==> objs[f] == None
  {
    if n == 0 then [] else NoObjects(n - 1) + [None]
  }

  lemma {:induction false} NoEdges(n: nat, f: nat)
    ensures InEdges(NoObjects(n), f) == 0
  {
    if n > 0 {
      NoEdges(n - 1, f);
      assert NoObjects(n)[..n - 1] == NoObjects(n - 1);
    }
  }

  lemma {:induction false} CountOf(objs: Objects, words: seq<R.Word>, ext: multiset<nat>, f: nat)
    requires Law(objs, words, ext) && Uses(objs, ext, f) > 0
    ensures f < |objs| && objs[f].Some? && R.ValueInto(words[f]) == R.Entry(R.Kernel, Uses(objs, ext, f))
  {
    assert FrameLaw(objs, words, ext, f);
  }

  lemma {:induction false} SplitBag(ps: seq<nat>, i: nat)
    requires i < |ps|
    ensures multiset(ps[i..]) == multiset{ps[i]} + multiset(ps[i + 1..])
    ensures multiset(ps[..i + 1]) == multiset(ps[..i]) + multiset{ps[i]}
  {
    assert ps[i..] == [ps[i]] + ps[i + 1..];
    assert ps[..i + 1] == ps[..i] + [ps[i]];
  }

  lemma {:induction false} OneDropped(ext: multiset<nat>, ps: seq<nat>, i: nat)
    requires i < |ps| && multiset(ps) <= ext
    ensures var left := ext - multiset(ps[..i]);
            left[ps[i]] > 0 && left - multiset{ps[i]} == ext - multiset(ps[..i + 1]) && left - multiset{ps[i]} <= left
  {
    SplitBag(ps, i);
    assert ps == ps[..i] + ps[i..];
  }

  // Slots

  predicate HasSlot(objs: Objects, t: nat, i: nat) {
    t < |objs| && objs[t].Some? && objs[t].value.Table? && i < |objs[t].value.slots|
  }

  function SlotAt(objs: Objects, t: nat, i: nat): (s: Slot)
    requires HasSlot(objs, t, i)
  {
    objs[t].value.slots[i]
  }

  function WithSlot(objs: Objects, t: nat, i: nat, s: Slot): (objs': Objects)
    requires HasSlot(objs, t, i)
    ensures |objs'| == |objs| && HasSlot(objs', t, i) && SlotAt(objs', t, i) == s
  {
    objs[t := Some(Table(objs[t].value.slots[i := s]))]
  }

  /** The objects after the child of slot `i` of table `t` is set to `c`. */
  function Relinked(objs: Objects, t: nat, i: nat, c: Option<nat>): (objs': Objects)
    requires HasSlot(objs, t, i)
    ensures |objs'| == |objs| && HasSlot(objs', t, i)
  {
    WithSlot(objs, t, i, Slot(c, SlotAt(objs, t, i).resource))
  }

  /** How often a slot points to `f`. */
  function SlotHolds(s: Slot, f: nat): (n: nat) {
    multiset(Pointers(s))[f]
  }

  lemma {:induction false} LastSlot(slots: seq<Slot>, f: nat)
    requires slots != []
    ensures multiset(SlotPointers(slots))[f] ==
            multiset(SlotPointers(slots[..|slots| - 1]))[f] + SlotHolds(slots[|slots| - 1], f)
  {
  }

  lemma {:induction false} SlotPointersUpdate(slots: seq<Slot>, i: nat, s: Slot, f: nat)
    requires i < |slots|
    ensures multiset(SlotPointers(slots[i := s]))[f] + SlotHolds(slots[i], f) ==
            multiset(SlotPointers(slots))[f] + SlotHolds(s, f)
  {
    hide SlotPointers, SlotHolds;
    var n := |slots| - 1;
    LastSlot(slots, f);
    LastSlot(slots[i := s], f);
    if i == n {
      assert slots[i := s][..n] == slots[..n];
    } else {
      SlotPointersUpdate(slots[..n], i, s, f);
      assert slots[i := s][..n] == slots[..n][i := s];
    }
  }

  lemma {:induction false} SlotUpdate(objs: Objects, t: nat, i: nat, s: Slot, f: nat)
    requires HasSlot(objs, t, i)
    ensures InEdges(WithSlot(objs, t, i, s), f) + SlotHolds(SlotAt(objs, t, i), f) == InEdges(objs, f) + SlotHolds(s, f)
  {
    hide InEdges, SlotPointers, SlotHolds;
    SlotPointersUpdate(objs[t].value.slots, i, s, f);
    EdgesUpdate(objs, t, WithSlot(objs, t, i, s)[t], f);
  }

  lemma {:induction false} SlotIsHeld(objs: Objects, t: nat, i: nat, p: nat)
    requires HasSlot(objs, t, i)
    ensures InEdges(objs, p) >= SlotHolds(SlotAt(objs, t, i), p)
  {
    hide InEdges;
    SlotUpdate(objs, t, i, Slot(None, Empty), p);
  }

  /** How relinking moves the counts: one less for the old child, one more for the new. */
  lemma {:induction false} RelinkCounts(objs: Objects, t: nat, i: nat, c: Option<nat>, f: nat)
    requires HasSlot(objs, t, i)
    ensures InEdges(Relinked(objs, t, i, c), f) + (if SlotAt(objs, t, i).child == Some(f) then 1 else 0) ==
            InEdges(objs, f) + (if c == Some(f) then 1 else 0)
  {
    hide InEdges;
    SlotUpdate(objs, t, i, Slot(c, SlotAt(objs, t, i).resource), f);
  }

  /** So where nothing is freed, the count of every frame moves by just that: -1, +1, or 0 for the resource. */
  lemma {:induction false} ChangeMovesCounts(objs: Objects, words: seq<R.Word>, words': seq<R.Word>, ext: multiset<nat>,
                          t: nat, i: nat, c: Option<nat>, f: nat)
    requires Law(objs, words, ext) && HasSlot(objs, t, i) && Law(Relinked(objs, t, i, c), words', ext)
    requires f < |objs| && objs[f].Some?
    ensures R.ValueInto(words'[f]).count + (if SlotAt(objs, t, i).child == Some(f) then 1 else 0) ==
            R.ValueInto(words[f]).count + (if c == Some(f) then 1 else 0)
  {
    hide InEdges, R.ValueInto;
    assert FrameLaw(objs, words, ext, f) && FrameLaw(Relinked(objs, t, i, c), words', ext, f);
    RelinkCounts(objs, t, i, c, f);
  }

  /** Swapping a slot for one whose pointers are held as handles: fields and handles trade places. */
  lemma {:induction false} ReplaceKeepsLaw(objs: Objects, words: seq<R.Word>, ext: multiset<nat>, t: nat, i: nat,
                                           s: Slot)
    requires Law(objs, words, ext) && HasSlot(objs, t, i) && multiset(Pointers(s)) <= ext
    ensures Law(WithSlot(objs, t, i, s), words, ext - multiset(Pointers(s)) + multiset(Pointers(SlotAt(objs, t, i))))
  {
    hide InEdges, SlotPointers, Pointers, R.ValueInto;
    var objs', ext' := WithSlot(objs, t, i, s), ext - multiset(Pointers(s)) + multiset(Pointers(SlotAt(objs, t, i)));
    forall g: nat ensures FrameLaw(objs', words, ext', g) {
      assert FrameLaw(objs, words, ext, g);
      SlotUpdate(objs, t, i, s, g);
    }
  }

  lemma {:induction false} SplitPointers(s: Slot)
    ensures multiset(Pointers(s)) == multiset(ChildPointer(s.child)) + multiset(ResourcePointer(s.resource))
  {
  }

  /** The handles held during `change`: the clone, the clone without its child, what the swap gives, the end. */
  lemma {:induction false} ChangedBag(ext: multiset<nat>, s: Slot, c: Option<nat>)
    requires multiset(ChildPointer(c)) <= ext
    ensures var clone, child := multiset(Pointers(s)), multiset(ChildPointer(s.child));
            var rest, swapped := multiset(ResourcePointer(s.resource)), multiset(Pointers(Slot(c, s.resource)));
            && child <= ext + clone && ext + clone - child == ext + rest && ext <= ext + rest
            && swapped <= ext + rest && ext + rest - swapped + clone == ext - multiset(ChildPointer(c)) + clone
            && clone <= ext - multiset(ChildPointer(c)) + clone
            && ext - multiset(ChildPointer(c)) + clone - clone == ext - multiset(ChildPointer(c))
  {
    SplitPointers(s);
    SplitPointers(Slot(c, s.resource));
    hide Pointers, ChildPointer, ResourcePointer;
  }

  /** Where the law holds, every object is in use, and giving back extra handles frees none. */
  lemma {:induction false} NothingToTrim(objs: Objects, words: seq<R.Word>, ext: multiset<nat>, objs': Objects,
                                         more: multiset<nat>)
    requires Law(objs, words, ext) && Trimmed(objs, objs', more) && ext <= more
    ensures objs' == objs
  {
    hide R.ValueInto, InEdges, HeldBy;
    NothingTrimmed(objs, ext);
    SurvivorsAreGreatest(objs, objs, words, ext);
    forall f | f in Live(objs) ensures IsSupported(objs, more, Live(objs), f) {
      assert IsSupported(objs, ext, Live(objs), f);
    }
    assert Supported(objs, more, Live(objs));
    forall f | 0 <= f < |objs| ensures objs'[f] == objs[f] {
      if objs[f].Some? {
        assert f in Live(objs);
      }
    }
  }

  /** Cloning all of `ps` takes no count past its maximum. */
  predicate Roomy(objs: Objects, ext: multiset<nat>, ps: seq<nat>) {
    forall p :: p in ps ==> Uses(objs, ext + multiset(ps), p) <= R.MAX_REF_COUNT
  }

  /** Every count is at least `k` below its maximum. */
  ghost predicate Slack(objs: Objects, ext: multiset<nat>, k: nat) {
    forall f: nat :: Uses(objs, ext, f) + k <= R.MAX_REF_COUNT
  }

  lemma {:induction false} SlackIsRoomy(objs: Objects, ext: multiset<nat>, s: Slot, k: nat)
    requires Slack(objs, ext, k) && k >= 2
    ensures Roomy(objs, ext, Pointers(s)) && Slack(objs, ext + multiset(Pointers(s)), k - 2)
  {
    hide InEdges;
    forall f: nat ensures Uses(objs, ext + multiset(Pointers(s)), f) + (k - 2) <= R.MAX_REF_COUNT {
      assert Uses(objs, ext, f) + k <= R.MAX_REF_COUNT;
      assert multiset(Pointers(s))[f] <= 2;
    }
  }

  lemma {:induction false} SlackLessOne(objs: Objects, ext: multiset<nat>, f: nat, k: nat)
    requires Slack(objs, ext, k) && k >= 1
    ensures Slack(objs, ext + multiset{f}, k - 1)
  {
    hide InEdges;
    forall g: nat ensures Uses(objs, ext + multiset{f}, g) + (k - 1) <= R.MAX_REF_COUNT {
      assert Uses(objs, ext, g) + k <= R.MAX_REF_COUNT;
    }
  }

  lemma {:induction false} RoomyNow(objs: Objects, words: seq<R.Word>, ext: multiset<nat>, ps: seq<nat>)
    requires Law(objs, words, ext + multiset(ps))
    ensures Roomy(objs, ext, ps)
  {
    hide R.ValueInto, InEdges;
    forall p | p in ps ensures Uses(objs, ext + multiset(ps), p) <= R.MAX_REF_COUNT {
      assert FrameLaw(objs, words, ext + multiset(ps), p);
    }
  }

  lemma {:induction false} NotRoomy(objs: Objects, ext: multiset<nat>, ps: seq<nat>, i: nat)
    requires i < |ps| && Uses(objs, ext + multiset(ps[..i]), ps[i]) >= R.MAX_REF_COUNT
    ensures !Roomy(objs, ext, ps)
  {
    hide InEdges;
    SplitBag(ps, i);
    assert ps == ps[..i] + ps[i..];
    assert multiset(ps)[ps[i]] >= multiset(ps[..i])[ps[i]] + 1;
    assert ps[i] in ps;
  }

  lemma {:induction false} LawWords(objs: Objects, words: seq<R.Word>, ext: multiset<nat>)
    requires Law(objs, words, ext)
    ensures |words| == |objs|
  {
  }

  lemma {:induction false} SmallerAfter(objs: Objects, objs': Objects, ext: multiset<nat>)
    requires Trimmed(objs, objs', ext)
    ensures Alive(objs') <= Alive(objs) && |objs'| == |objs|
  {
    TrimmedIsSmaller(objs, objs');
  }

  // The words of frames that hold no object

  /** A frame without an object keeps its word; a frame whose object went is left (Kernel, 0), ready to be retyped. */
  ghost predicate Settled(objs: Objects, words: seq<R.Word>, objs': Objects, words': seq<R.Word>) {
    && |objs| == |objs'| == |words| == |words'|
    && forall f :: 0 <= f < |objs| && objs'[f].None? ==>
         if objs[f].None? then words'[f] == words[f] else R.ValueInto(words'[f]) == R.Entry(R.Kernel, 0)
  }

  ghost predicate NoneAppear(objs: Objects, objs': Objects) {
    |objs| == |objs'| && forall f :: 0 <= f < |objs| && objs[f].None? ==> objs'[f].None?
  }

  lemma {:induction false} SettledTwice(a: Objects, u: seq<R.Word>, b: Objects, v: seq<R.Word>, c: Objects, w: seq<R.Word>)
    requires Settled(a, u, b, v) && Settled(b, v, c, w) && NoneAppear(a, b)
    ensures Settled(a, u, c, w)
  {
    hide R.ValueInto;
  }

  /** Counting up or down at a live object. */
  lemma {:induction false} SettledCount(objs: Objects, words: seq<R.Word>, words': seq<R.Word>, f: nat)
    requires |objs| == |words| == |words'| && f < |objs| && objs[f].Some? && words' == words[f := words'[f]]
    ensures Settled(objs, words, objs, words') && NoneAppear(objs, objs)
  {
    hide R.ValueInto;
  }

  lemma {:induction false} SettledLast(objs: Objects, words: seq<R.Word>, words': seq<R.Word>, f: nat)
    requires |objs| == |words| == |words'| && f < |objs| && objs[f].Some? && words' == words[f := words'[f]]
    requires R.ValueInto(words'[f]) == R.Entry(R.Kernel, 0)
    ensures Settled(objs, words, objs[f := None], words') && NoneAppear(objs, objs[f := None])
  {
    hide R.ValueInto;
  }

  lemma {:induction false} SettledItself(objs: Objects, words: seq<R.Word>)
    requires |objs| == |words|
    ensures Settled(objs, words, objs, words) && NoneAppear(objs, objs)
  {
  }

  lemma {:induction false} TrimmedAppear(objs: Objects, objs': Objects, ext: multiset<nat>)
    requires Trimmed(objs, objs', ext)
    ensures NoneAppear(objs, objs')
  {
  }

  /** Changing what a slot holds changes no word and no frame's having an object. */
  lemma {:induction false} SettledSlot(objs: Objects, words: seq<R.Word>, t: nat, i: nat, s: Slot)
    requires |objs| == |words| && HasSlot(objs, t, i)
    ensures Settled(objs, words, WithSlot(objs, t, i, s), words) && NoneAppear(objs, WithSlot(objs, t, i, s))
  {
    hide R.ValueInto;
  }

  class CapHeap {
    const table: RetypeTable
    var objs: Objects
    ghost var ext: multiset<nat>

    ghost predicate Valid()
      reads this, table
    {
      table.Valid() && Law(objs, table.words, ext)
    }

    /** No objects yet. */
    constructor (table: RetypeTable)
      requires table.Valid()
      ensures Valid() && this.table == table && ext == multiset{}
      ensures objs == NoObjects(|table.words|)
    {
      this.table, objs, ext := table, NoObjects(|table.words|), multiset{};
      new;
      forall f: nat ensures FrameLaw(objs, table.words, ext, f) {
        NoEdges(|table.words|, f);
      }
    }

    /** `KPtr::new`: the pointers inside `o` move into the new object, or are dropped if the retype fails. */
    method New(f: nat, o: Object) returns (r: RetypeResult)
      requires Valid() && multiset(Fields(o)) <= ext
      modifies this, table
      ensures Valid()
      ensures r == if f >= |old(objs)| then OutOfBounds
                   else var e := old(R.ValueInto(table.words[f]));
                        if e.state == R.Untyped then Retyped else InvalidFromState(e.state)
      ensures r == Retyped ==> objs == old(objs)[f := Some(o)] && ext == old(ext) - multiset(Fields(o)) + multiset{f}
      ensures r == Retyped ==> table.words == old(table.words)[f := R.ValueFor(R.Kernel, 1)]
      ensures r != Retyped ==> Trimmed(old(objs), objs, ext) && ext == old(ext) - multiset(Fields(o))
      ensures r != Retyped ==> Settled(old(objs), old(table.words), objs, table.words)
    {
      hide R.ValueInto, InEdges, IdleHaveNoRefs, Law, Trimmed, Fields, Alive;
      ghost var words := table.words;
      LawWords(objs, table.words, ext);
      r := table.TryInto(f, R.Kernel);
      if r == Retyped {
        NewObject(objs, words, table.words, ext, f, o);
        objs := objs[f := Some(o)];
        ext := ext - multiset(Fields(o)) + multiset{f};
      } else {
        DropAll(Fields(o));
      }
    }

    /** `KPtr::clone`: false where the count is at its maximum and the source panics. */
    method Clone(f: nat) returns (ok: bool)
      requires Valid() && Uses(objs, ext, f) > 0
      modifies this`ext, table
      ensures ok <==> Uses(objs, old(ext), f) < R.MAX_REF_COUNT
      ensures ok ==> Valid() && ext == old(ext) + multiset{f}
      ensures ok ==> Settled(objs, old(table.words), objs, table.words)
    {
      hide R.ValueInto, InEdges, IdleHaveNoRefs, Law, Settled, NoneAppear;
      CountOf(objs, table.words, ext, f);
      ghost var words := table.words;
      LawWords(objs, table.words, ext);
      var before;
      before, ok := table.Increment(f);
      if ok {
        AcquiredOne(objs, words, table.words, ext, f);
        SettledCount(objs, words, table.words, f);
        ext := ext + multiset{f};
      }
    }

    /**
     `KPtr::drop`.  The handle is given up; if it was the last use, the object goes and everything
     it pointed to is dropped in turn.
     */
    method Drop(f: nat)
      requires Valid() && ext[f] > 0
      modifies this, table
      ensures Valid() && ext == old(ext) - multiset{f}
      ensures Trimmed(old(objs), objs, ext) && Settled(old(objs), old(table.words), objs, table.words)
      decreases Alive(objs), 0
    {
      hide R.ValueInto, InEdges, IdleHaveNoRefs, Law, Trimmed, Fields, Alive, Settled, NoneAppear;
      ghost var words := table.words;
      CountOf(objs, table.words, ext, f);
      LawWords(objs, table.words, ext);
      var before, ok := table.Decrement(f);
      if before == 1 {
        ReleasedLast(objs, words, table.words, ext, f);
        RemovedIsSmaller(objs, f);
        SettledLast(objs, words, table.words, f);
        var dying := Fields(objs[f].value);
        ext := ext - multiset{f} + multiset(dying);
        objs := objs[f := None];
        ghost var middle, more, mid := objs, ext, table.words;
        DropAll(dying);
        TrimmedTwice(old(objs), middle, objs, more, ext);
        SettledTwice(old(objs), words, middle, mid, objs, table.words);
      } else {
        ReleasedOne(objs, words, table.words, ext, f);
        SettledCount(objs, words, table.words, f);
        ext := ext - multiset{f};
        NothingTrimmed(objs, ext);
      }
    }

    /** `drop_in_place` over a list of pointers. */
    method DropAll(ps: seq<nat>)
      requires Valid() && multiset(ps) <= ext
      modifies this, table
      ensures Valid() && ext == old(ext) - multiset(ps)
      ensures Trimmed(old(objs), objs, ext) && Settled(old(objs), old(table.words), objs, table.words)
      decreases Alive(objs), 1
    {
      hide R.ValueInto, InEdges, IdleHaveNoRefs, Law, Trimmed, Fields, Alive, Settled, NoneAppear;
      NothingTrimmed(objs, ext);
      LawWords(objs, table.words, ext);
      SettledItself(objs, table.words);
      for i := 0 to |ps|
        invariant Valid() && ext == old(ext) - multiset(ps[..i])
        invariant Trimmed(old(objs), objs, ext) && Alive(objs) <= old(Alive(objs))
        invariant Settled(old(objs), old(table.words), objs, table.words)
      {
        ghost var before, more, words := objs, ext, table.words;
        TrimmedAppear(old(objs), objs, ext);
        OneDropped(old(ext), ps, i);
        Drop(ps[i]);
        TrimmedTwice(old(objs), before, objs, more, ext);
        SmallerAfter(before, objs, ext);
        SettledTwice(old(objs), old(table.words), before, words, objs, table.words);
      }
      assert ps[..|ps|] == ps;
    }

    /** Clones a list of pointers that objects hold; false where a count would pass its maximum. */
    method CloneAll(ps: seq<nat>) returns (ok: bool)
      requires Valid() && forall p :: p in ps ==> InEdges(objs, p) > 0
      modifies this`ext, table
      ensures ok <==> Roomy(objs, old(ext), ps)
      ensures ok ==> Valid() && ext == old(ext) + multiset(ps) && Settled(objs, old(table.words), objs, table.words)
    {
      hide R.ValueInto, InEdges, IdleHaveNoRefs, Law, Settled, NoneAppear;
      LawWords(objs, table.words, ext);
      SettledItself(objs, table.words);
      for i := 0 to |ps|
        invariant Valid() && ext == old(ext) + multiset(ps[..i]) && Settled(objs, old(table.words), objs, table.words)
      {
        ghost var words := table.words;
        SplitBag(ps, i);
        var cloned := Clone(ps[i]);
        if !cloned {
          NotRoomy(objs, old(ext), ps, i);
          return false;
        }
        SettledTwice(objs, old(table.words), objs, words, objs, table.words);
      }
      assert ps[..|ps|] == ps;
      RoomyNow(objs, table.words, old(ext), ps);
      return true;
    }

    /** `AtomicCapSlot::get`: clones the pointers of the slot; `None` where a count would pass its maximum. */
    method GetCloned(t: nat, i: nat) returns (r: Option<Slot>)
      requires Valid() && HasSlot(objs, t, i)
      modifies this`ext, table
      ensures r.Some? <==> Roomy(objs, old(ext), Pointers(SlotAt(objs, t, i)))
      ensures r.Some? ==> r.value == SlotAt(objs, t, i) && Valid() && ext == old(ext) + multiset(Pointers(r.value))
      ensures r.Some? ==> Settled(objs, old(table.words), objs, table.words)
    {
      hide R.ValueInto, InEdges, IdleHaveNoRefs, Law, Pointers, Roomy, Settled;
      var slot := SlotAt(objs, t, i);
      forall p | p in Pointers(slot) ensures InEdges(objs, p) > 0 {
        SlotIsHeld(objs, t, i, p);
      }
      var ok := CloneAll(Pointers(slot));
      r := if ok then Some(slot) else None;
    }

    /** `AtomicCapSlot::replace`: takes the handles of `s` and gives those of the old slot. */
    method Replace(t: nat, i: nat, s: Slot) returns (was: Slot)
      requires Valid() && HasSlot(objs, t, i) && multiset(Pointers(s)) <= ext
      modifies this`objs, this`ext
      ensures Valid() && objs == WithSlot(old(objs), t, i, s) && was == SlotAt(old(objs), t, i)
      ensures ext == old(ext) - multiset(Pointers(s)) + multiset(Pointers(was))
    {
      hide R.ValueInto, InEdges, IdleHaveNoRefs, Law, SlotPointers, Pointers;
      ReplaceKeepsLaw(objs, table.words, ext, t, i, s);
      was := SlotAt(objs, t, i);
      objs := objs[t := Some(Table(objs[t].value.slots[i := s]))];
      ext := ext - multiset(Pointers(s)) + multiset(Pointers(was));
    }

    /**
     `AtomicCapSlot::change` with a closure that sets the child: clone the slot, overwrite the child
     of the clone, swap the clone in, drop what comes out.  The handle of `c` moves into the slot.
     */
    method Change(t: nat, i: nat, c: Option<nat>) returns (ok: bool)
      requires Valid() && HasSlot(objs, t, i) && multiset(ChildPointer(c)) <= ext
      modifies this, table
      ensures ok <==> Roomy(old(objs), old(ext), Pointers(SlotAt(old(objs), t, i)))
      ensures ok ==> Valid() && ext == old(ext) - multiset(ChildPointer(c))
      ensures ok ==> Trimmed(Relinked(old(objs), t, i, c), objs, ext) && Settled(old(objs), old(table.words), objs, table.words)
    {
      hide R.ValueInto, InEdges, IdleHaveNoRefs, Law, Pointers, ChildPointer, ResourcePointer, Trimmed, Roomy, Settled, NoneAppear;
      ghost var was, words := objs, table.words;
      var slot := GetCloned(t, i);
      if slot.None? {
        return false;
      }
      var clone := slot.value;
      ghost var cloned := table.words;
      LawWords(was, words, old(ext));
      SettledItself(was, words);
      ChangedBag(old(ext), clone, c);
      DropAll(ChildPointer(clone.child));
      NothingToTrim(was, words, old(ext), objs, ext);
      ghost var dropped := table.words;
      SettledTwice(was, words, was, cloned, was, dropped);
      LawWords(objs, dropped, ext);
      SettledSlot(was, dropped, t, i, Slot(c, clone.resource));
      var out := Replace(t, i, Slot(c, clone.resource));
      ghost var linked := objs;
      SettledTwice(was, words, was, dropped, linked, dropped);
      DropAll(Pointers(out));
      SettledTwice(was, words, linked, dropped, objs, table.words);
      return true;
    }
  }
}
