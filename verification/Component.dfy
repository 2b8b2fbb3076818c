/**
 `Thread::exercise_cap` for capability-table capabilities: the Link and Unlink branches
 (harmony/kernel/src/component.rs), over the object graph of `CapGraphs` and the lookup of `Tries`.
 */
module Components {
  import opened Wrappers
  import opened CapGraphs
  import R = RetypeEntries
  import RetypeTables
  import Tries

  // Pointers lead to objects of the right kind

  predicate IsTable(objs: Objects, f: nat) {
    f < |objs| && objs[f].Some? && objs[f].value.Table?
  }

  predicate IsThread(objs: Objects, f: nat) {
    f < |objs| && objs[f].Some? && objs[f].value.Thread?
  }

  predicate IsPageTable(objs: Objects, f: nat) {
    f < |objs| && objs[f].Some? && objs[f].value.PageTable?
  }

  predicate ResourceOk(objs: Objects, r: Resource) {
    match r
    case Empty => true
    case CapEntry(t) => IsTable(objs, t)
    case ThreadCap(t) => IsThread(objs, t)
    case PageTableCap(t, _) => IsPageTable(objs, t)
  }

  predicate SlotOk(objs: Objects, s: Slot) {
    (s.child.Some? ==> IsTable(objs, s.child.value)) && ResourceOk(objs, s.resource)
  }

  predicate ObjectOk(objs: Objects, o: Object) {
    match o
    case Table(slots) => |slots| == NUM_SLOTS && forall i :: 0 <= i < |slots| ==> SlotOk(objs, slots[i])
    case Thread(resources) => IsTable(objs, resources)
    case PageTable => true
  }

  predicate Typed(objs: Objects) {
    forall f :: 0 <= f < |objs| && objs[f].Some? ==> ObjectOk(objs, objs[f].value)
  }

  // The tables as a trie

  function Children(slots: seq<Slot>): (cs: seq<Tries.Child>)
    ensures |cs| == |slots|
    ensures forall i :: 0 <= i < |slots| ==>
              cs[i] == if slots[i].child.Some? then Tries.To(slots[i].child.value) else Tries.NoChild
  {
    if slots == [] then [] else
    var last := slots[|slots| - 1].child;
    Children(slots[..|slots| - 1]) + [if last.Some? then Tries.To(last.value) else Tries.NoChild]
  }

  function View(objs: Objects): (g: Tries.Graph) {
    map t | 0 <= t < |objs| && IsTable(objs, t) :: Children(objs[t].value.slots)
  }

  lemma {:induction false} ViewIsGraph(objs: Objects)
    requires Typed(objs)
    ensures Tries.IsGraph(View(objs), NUM_SLOTS)
  {
  }

  /** `find`: the slot an id names, seen from table `root`. */
  function Find(objs: Objects, root: nat, id: nat): (r: Tries.Found)
    requires Typed(objs) && IsTable(objs, root)
    ensures r.At? ==> HasSlot(objs, r.node, r.slot) && SlotOk(objs, SlotAt(objs, r.node, r.slot))
  {
    ViewIsGraph(objs);
    var r := Tries.Get(View(objs), NUM_SLOTS, root, id);
    assert r.At? ==> ObjectOk(objs, objs[r.node].value);
    r
  }

  /** The slots of the kernel's tables never fail, so lookup finds a slot or nothing. */
  lemma {:induction false} FindNeverFails(objs: Objects, root: nat, id: nat)
    requires Typed(objs) && IsTable(objs, root)
    ensures Find(objs, root, id) != Tries.Error
  {
    ViewIsGraph(objs);
    GetNeverFails(objs, root, id);
  }

  lemma {:induction false} GetNeverFails(objs: Objects, n: nat, id: nat)
    requires Tries.IsGraph(View(objs), NUM_SLOTS) && n in View(objs)
    ensures Tries.Get(View(objs), NUM_SLOTS, n, id) != Tries.Error
    decreases id
  {
    hide Tries.Offset, Tries.Rest;
    var child := View(objs)[n][Tries.Offset(id, NUM_SLOTS)];
    if Tries.Rest(id, NUM_SLOTS) != 0 && child.To? {
      GetNeverFails(objs, child.node, Tries.Rest(id, NUM_SLOTS));
    }
  }

  // The operations

  datatype CapOp = Link(other: nat, slot: nat) | Unlink(slot: nat)

  /** `Elsewhere`: the capability is not a table, so the operation is none of these. */
  datatype Reply = Done | NotFound | Internal | InvalidArgument | Elsewhere | Panicked

  /** `get_resource_as` for tables: the table a capability names, or why there is none. */
  function TableCap(objs: Objects, root: nat, cap: nat): (r: (Reply, nat))
    requires Typed(objs) && IsTable(objs, root)
    ensures r.0 == Done ==> IsTable(objs, r.1)
    ensures r.0 in {Done, NotFound, Internal, InvalidArgument}
  {
    match Find(objs, root, cap)
    case Missing => (NotFound, 0)
    case Error => (Internal, 0)
    case At(m, s) =>
      var found := SlotAt(objs, m, s).resource;
      if found.CapEntry? then (Done, found.table) else (InvalidArgument, 0)
  }

  /** The reply, and the graph before anything is freed. */
  function Effect(objs: Objects, root: nat, cap: nat, op: CapOp): (r: (Reply, Objects))
    requires Typed(objs) && IsTable(objs, root) && op.slot < NUM_SLOTS
    ensures |r.1| == |objs| && r.0 != Panicked
    ensures r.0 != Done ==> r.1 == objs
  {
    match Find(objs, root, cap)
    case Missing => (NotFound, objs)
    case Error => (Internal, objs)
    case At(m, s) =>
      match SlotAt(objs, m, s).resource
      case Empty => (NotFound, objs)
      case ThreadCap(_) => (Elsewhere, objs)
      case PageTableCap(_, _) => (Elsewhere, objs)
      case CapEntry(t) =>
        assert ObjectOk(objs, objs[t].value);
        if op.Unlink? then (Done, Relinked(objs, t, op.slot, None)) else
        var (reply, other) := TableCap(objs, root, op.other);
        if reply == Done then (Done, Relinked(objs, t, op.slot, Some(other))) else (reply, objs)
  }

  /** The resource `id` leads to. */
  ghost predicate Names(objs: Objects, root: nat, id: nat, resource: Resource)
    requires Typed(objs) && IsTable(objs, root)
  {
    var found := Find(objs, root, id);
    found.At? && SlotAt(objs, found.node, found.slot).resource == resource
  }

  /** When each answer is given, from what the walks find. */
  ghost predicate Replies(objs: Objects, root: nat, cap: nat, op: CapOp, r: Reply)
    requires Typed(objs) && IsTable(objs, root)
  {
    var table := exists t :: Names(objs, root, cap, CapEntry(t));
    && r != Internal
    && (r == NotFound <==>
          || Find(objs, root, cap) == Tries.Missing || Names(objs, root, cap, Empty)
          || (table && op.Link? && Find(objs, root, op.other) == Tries.Missing))
    && (r == Elsewhere <==>
          || (exists t :: Names(objs, root, cap, ThreadCap(t)))
          || (exists t, level :: Names(objs, root, cap, PageTableCap(t, level))))
    && (r == InvalidArgument <==>
          table && op.Link? && Find(objs, root, op.other).At? && !exists o :: Names(objs, root, op.other, CapEntry(o)))
    && (r == Done <==> table && (op.Unlink? || exists o :: Names(objs, root, op.other, CapEntry(o))))
  }

  /** What a call that is done makes of the graph, before anything is freed. */
  ghost predicate Edits(objs: Objects, root: nat, cap: nat, op: CapOp, after: Objects)
    requires Typed(objs) && IsTable(objs, root)
  {
    exists t :: Names(objs, root, cap, CapEntry(t)) && HasSlot(objs, t, op.slot) &&
      if op.Unlink? then after == Relinked(objs, t, op.slot, None)
      else exists o :: Names(objs, root, op.other, CapEntry(o)) && after == Relinked(objs, t, op.slot, Some(o))
  }

  lemma {:induction false} EffectReplies(objs: Objects, root: nat, cap: nat, op: CapOp)
    requires Typed(objs) && IsTable(objs, root) && op.slot < NUM_SLOTS
    ensures Replies(objs, root, cap, op, Effect(objs, root, cap, op).0)
    ensures Effect(objs, root, cap, op).0 == Done ==> Edits(objs, root, cap, op, Effect(objs, root, cap, op).1)
  {
    hide Typed, Find, Relinked, SlotOk;
    FindNeverFails(objs, root, cap);
    var found := Find(objs, root, cap);
    if op.Link? {
      FindNeverFails(objs, root, op.other);
      var other := Find(objs, root, op.other);
      if other.At? {
        assert Names(objs, root, op.other, SlotAt(objs, other.node, other.slot).resource);
      }
    }
    if found.At? {
      EffectAt(objs, root, cap, op, found.node, found.slot);
      var resource := SlotAt(objs, found.node, found.slot).resource;
      assert Names(objs, root, cap, resource);
    }
  }

  lemma {:induction false} TableReplies(objs: Objects, root: nat, cap: nat)
    requires Typed(objs) && IsTable(objs, root)
    ensures var (r, t) := TableCap(objs, root, cap);
            && r in {Done, NotFound, InvalidArgument}
            && (r == NotFound <==> Find(objs, root, cap) == Tries.Missing)
            && (r == Done <==> exists o :: Names(objs, root, cap, CapEntry(o)))
            && (r == Done ==> Names(objs, root, cap, CapEntry(t)))
  {
    hide Typed, Find, SlotOk;
    FindNeverFails(objs, root, cap);
    var found := Find(objs, root, cap);
    if found.At? {
      assert Names(objs, root, cap, SlotAt(objs, found.node, found.slot).resource);
    }
  }

  /** `Effect`, once the slot of the capability is found. */
  lemma {:induction false} EffectAt(objs: Objects, root: nat, cap: nat, op: CapOp, m: nat, s: nat)
    requires Typed(objs) && IsTable(objs, root) && op.slot < NUM_SLOTS && Find(objs, root, cap) == Tries.At(m, s)
    ensures var resource := SlotAt(objs, m, s).resource;
            var (reply, after) := Effect(objs, root, cap, op);
            && (resource.Empty? ==> reply == NotFound && after == objs)
            && (resource.ThreadCap? || resource.PageTableCap? ==> reply == Elsewhere && after == objs)
            && (resource.CapEntry? ==>
                  && HasSlot(objs, resource.table, op.slot)
                  && reply == (if op.Unlink? then Done else TableCap(objs, root, op.other).0)
                  && after == if reply != Done then objs
                              else Relinked(objs, resource.table, op.slot,
                                            if op.Unlink? then None else Some(TableCap(objs, root, op.other).1)))
  {
  }

  lemma {:induction false} TableSlot(objs: Objects, t: nat, i: nat)
    requires Typed(objs) && IsTable(objs, t) && i < NUM_SLOTS
    ensures HasSlot(objs, t, i)
  {
  }

  // Kinds survive an operation and the release that follows it

  lemma {:induction false} RelinkedTyped(objs: Objects, t: nat, i: nat, c: Option<nat>)
    requires Typed(objs) && HasSlot(objs, t, i) && (c.Some? ==> IsTable(objs, c.value))
    ensures Typed(Relinked(objs, t, i, c))
  {
  }

  /** A pointer of an object that is left leads to an object that is left. */
  lemma {:induction false} PointerStays(objs: Objects, words: seq<R.Word>, ext: multiset<nat>, f: nat, p: nat)
    requires Law(objs, words, ext) && f < |objs| && HeldBy(objs[f], p) > 0
    ensures p < |objs| && objs[p].Some?
  {
    hide R.ValueInto, InEdges, HeldBy;
    EdgesFrom(objs, f, p);
    assert FrameLaw(objs, words, ext, p);
  }

  lemma {:induction false} SlotPointerStays(objs: Objects, words: seq<R.Word>, ext: multiset<nat>, t: nat, i: nat,
                                            p: nat)
    requires Law(objs, words, ext) && HasSlot(objs, t, i) && p in Pointers(SlotAt(objs, t, i))
    ensures p < |objs| && objs[p].Some?
  {
    hide R.ValueInto, InEdges, HeldBy, Pointers;
    SlotIsHeld(objs, t, i, p);
    assert FrameLaw(objs, words, ext, p);
  }

  lemma {:induction false} TrimmedObjectOk(objs: Objects, objs': Objects, words: seq<R.Word>, ext: multiset<nat>,
                                           f: nat)
    requires Typed(objs) && Trimmed(objs, objs', ext) && Law(objs', words, ext) && f < |objs'| && objs'[f].Some?
    ensures ObjectOk(objs', objs'[f].value)
  {
    hide Law, HeldBy;
    assert ObjectOk(objs, objs[f].value);
    match objs'[f].value
    case PageTable =>
    case Thread(resources) =>
      assert HeldBy(objs'[f], resources) > 0 by { ThreadHolds(objs'[f].value); }
      PointerStays(objs', words, ext, f, resources);
    case Table(slots) =>
      forall i | 0 <= i < |slots| ensures SlotOk(objs', slots[i]) {
        assert SlotOk(objs, slots[i]);
        forall p | p in Pointers(slots[i]) ensures p < |objs'| && objs'[p].Some? {
          SlotPointerStays(objs', words, ext, f, i, p);
        }
      }
  }

  lemma {:induction false} ThreadHolds(o: Object)
    requires o.Thread?
    ensures HeldBy(Some(o), o.resources) == 1
  {
  }

  lemma {:induction false} TrimmedTyped(objs: Objects, objs': Objects, words: seq<R.Word>, ext: multiset<nat>)
    requires Typed(objs) && Trimmed(objs, objs', ext) && Law(objs', words, ext)
    ensures Typed(objs')
  {
    hide Law, Trimmed;
    forall f | 0 <= f < |objs'| && objs'[f].Some? ensures ObjectOk(objs', objs'[f].value) {
      TrimmedObjectOk(objs, objs', words, ext, f);
    }
  }

  // Lookup after an operation

  lemma {:induction false} ChildrenUpdate(slots: seq<Slot>, i: nat, s: Slot)
    requires i < |slots|
    ensures Children(slots[i := s]) == Children(slots)[i := if s.child.Some? then Tries.To(s.child.value) else Tries.NoChild]
  {
  }

  lemma {:induction false} ViewTables(objs: Objects)
    ensures forall t :: t in View(objs) <==> IsTable(objs, t)
    ensures forall t :: t in View(objs) ==> View(objs)[t] == Children(objs[t].value.slots)
  {
  }

  lemma {:induction false} TableSlots(objs: Objects, t: nat)
    requires Typed(objs) && IsTable(objs, t)
    ensures |objs[t].value.slots| == NUM_SLOTS
  {
  }

  lemma {:induction false} ViewRelinked(objs: Objects, t: nat, i: nat, c: Option<nat>)
    requires Typed(objs) && HasSlot(objs, t, i) && (c.Some? ==> IsTable(objs, c.value))
    ensures Tries.IsGraph(View(objs), NUM_SLOTS) && t in View(objs) && i < NUM_SLOTS
    ensures View(Relinked(objs, t, i, c)) ==
            Tries.Relink(View(objs), NUM_SLOTS, t, i, if c.Some? then Tries.To(c.value) else Tries.NoChild)
  {
    hide Typed, ObjectOk, SlotOk, Children, View, Tries.IsGraph;
    ViewIsGraph(objs);
    InView(objs, t);
    TableSlots(objs, t);
    ViewTables(objs);
    ViewTables(Relinked(objs, t, i, c));
    ChildrenUpdate(objs[t].value.slots, i, Slot(c, SlotAt(objs, t, i).resource));
  }

  lemma {:induction false} TrimmedLookup(objs: Objects, objs': Objects, words: seq<R.Word>, ext: multiset<nat>,
                                         root: nat, id: nat)
    requires Typed(objs) && Typed(objs') && Trimmed(objs, objs', ext) && IsTable(objs', root)
    ensures IsTable(objs, root) && Find(objs', root, id) == Find(objs, root, id)
  {
    hide Typed, ObjectOk;
    ViewIsGraph(objs);
    ViewIsGraph(objs');
    Tries.PartLooksTheSame(View(objs), View(objs'), NUM_SLOTS, root, id);
  }

  /**
   The whole of Link and Unlink.  Once the release is over, every id is looked up as before, except
   those that used to hop through the changed slot: after Unlink these are not found, and after
   Link they are looked up from the linked table.
   */
  lemma {:induction false} OperationIsLocal(objs: Objects, objs': Objects, words: seq<R.Word>, ext: multiset<nat>,
                         t: nat, i: nat, c: Option<nat>, root: nat, id: nat)
    requires Typed(objs) && HasSlot(objs, t, i) && (c.Some? ==> IsTable(objs, c.value))
    requires Trimmed(Relinked(objs, t, i, c), objs', ext) && Law(objs', words, ext) && IsTable(objs', root)
    ensures Typed(objs') && IsTable(objs, root) && Tries.IsGraph(View(objs), NUM_SLOTS)
    ensures !Tries.Hops(View(objs), NUM_SLOTS, root, id, t, i) ==> Find(objs', root, id) == Find(objs, root, id)
    ensures Tries.Hops(View(objs), NUM_SLOTS, root, id, t, i) && c.None? ==> Find(objs', root, id) == Tries.Missing
    ensures Tries.Hops(View(objs), NUM_SLOTS, root, id, t, i) && c.Some? ==>
              && IsTable(objs', c.value)
              && Find(objs', root, id) == Find(objs', c.value, Tries.RestAt(View(objs), NUM_SLOTS, root, id, t, i))
  {
    hide Law, Trimmed, Typed, Tries.Hops, Tries.Get, Tries.IsGraph, View, Tries.RestAt, Tries.Relink;
    var objs1 := Relinked(objs, t, i, c);
    var child := if c.Some? then Tries.To(c.value) else Tries.NoChild;
    RelinkedTyped(objs, t, i, c);
    TrimmedTyped(objs1, objs', words, ext);
    TrimmedLookup(objs1, objs', words, ext, root, id);
    ViewRelinked(objs, t, i, c);
    InView(objs, root);
    if c.Some? {
      InView(objs, c.value);
    }
    Tries.RelinkIsLocal(View(objs), NUM_SLOTS, root, id, t, i, child);
    if Tries.Hops(View(objs), NUM_SLOTS, root, id, t, i) {
      Tries.RelinkTakesEffect(View(objs), NUM_SLOTS, root, id, t, i, child);
      if c.Some? {
        LinkedTableSurvives(objs1, objs', ext, t, i, c.value, root, id);
        TrimmedLookup(objs1, objs', words, ext, c.value, Tries.RestAt(View(objs), NUM_SLOTS, root, id, t, i));
      }
    }
  }

  /** A table that a surviving table leads to survives, and so does what is linked there. */
  lemma {:induction false} LinkedTableSurvives(objs: Objects, objs': Objects, ext: multiset<nat>,
                                               t: nat, i: nat, c: nat, root: nat, id: nat)
    requires Typed(objs) && Typed(objs') && Trimmed(objs, objs', ext) && IsTable(objs', root)
    requires HasSlot(objs, t, i) && SlotAt(objs, t, i).child == Some(c)
    requires Tries.IsGraph(View(objs), NUM_SLOTS) && root in View(objs) && Tries.Hops(View(objs), NUM_SLOTS, root, id, t, i)
    ensures IsTable(objs', c)
  {
    hide ObjectOk, Tries.Hops, Tries.IsGraph, Children;
    ViewIsGraph(objs');
    Tries.HopsStayInPart(View(objs), View(objs'), NUM_SLOTS, root, id, t, i);
    ChildTyped(objs', t, i);
  }

  lemma {:induction false} ChildTyped(objs: Objects, t: nat, i: nat)
    requires Typed(objs) && HasSlot(objs, t, i) && SlotAt(objs, t, i).child.Some?
    ensures IsTable(objs, SlotAt(objs, t, i).child.value)
  {
    assert ObjectOk(objs, objs[t].value);
    assert SlotOk(objs, SlotAt(objs, t, i));
  }

  /**
   Locality of a system call, in its own terms.  If it is refused, every lookup is as before.  If it
   is done, let `t` be the table that `cap` names: an id finds what it found, seen from any
   surviving table, unless its walk hopped through slot `op.slot` of `t`; then it is not found after
   Unlink, and after Link it is looked up from the table that `op.other` names.
   */
  lemma {:induction false} SystemCallIsLocal(objs: Objects, objs': Objects, words: seq<R.Word>, ext: multiset<nat>,
                                             root: nat, cap: nat, op: CapOp, from: nat, id: nat)
    requires Typed(objs) && IsTable(objs, root) && op.slot < NUM_SLOTS
    requires Trimmed(Effect(objs, root, cap, op).1, objs', ext) && Law(objs', words, ext) && IsTable(objs', from)
    ensures Typed(objs') && IsTable(objs, from) && Tries.IsGraph(View(objs), NUM_SLOTS)
    ensures var reply := Effect(objs, root, cap, op).0;
            var (named, t) := TableCap(objs, root, cap);
            && (reply != Done ==> Find(objs', from, id) == Find(objs, from, id))
            && (reply == Done ==>
                  named == Done &&
                  if !Tries.Hops(View(objs), NUM_SLOTS, from, id, t, op.slot) then Find(objs', from, id) == Find(objs, from, id)
                  else if op.Unlink? then Find(objs', from, id) == Tries.Missing
                  else
                    var (linked, o) := TableCap(objs, root, op.other);
                    && linked == Done && IsTable(objs', o)
                    && Find(objs', from, id) == Find(objs', o, Tries.RestAt(View(objs), NUM_SLOTS, from, id, t, op.slot)))
  {
    hide Law, Trimmed, Typed, Find, Tries.Hops, Tries.RestAt, View, Tries.IsGraph;
    var reply := Effect(objs, root, cap, op).0;
    if reply == Done {
      var t := TableCap(objs, root, cap).1;
      var c := if op.Unlink? then None else Some(TableCap(objs, root, op.other).1);
      TableSlot(objs, t, op.slot);
      OperationIsLocal(objs, objs', words, ext, t, op.slot, c, from, id);
    } else {
      TrimmedTyped(objs, objs', words, ext);
      TrimmedLookup(objs, objs', words, ext, from, id);
      ViewIsGraph(objs);
    }
  }

  /** After any operation pointers still have the right kinds, and the calling thread is as it was. */
  lemma {:induction false} EffectKeeps(objs: Objects, objs': Objects, words: seq<R.Word>, ext: multiset<nat>,
                    me: nat, root: nat, cap: nat, op: CapOp)
    requires Typed(objs) && IsTable(objs, root) && IsThread(objs, me) && op.slot < NUM_SLOTS
    requires Trimmed(Effect(objs, root, cap, op).1, objs', ext) && Law(objs', words, ext)
    ensures Typed(objs') && |objs'| == |objs| && (ext[me] > 0 ==> objs'[me] == objs[me])
  {
    hide Law, Typed, Find, TableCap, Trimmed;
    var after := Effect(objs, root, cap, op).1;
    assert Typed(after) && after[me] == objs[me] by {
      var found := Find(objs, root, cap);
      if found.At? && SlotAt(objs, found.node, found.slot).resource.CapEntry? {
        var t := SlotAt(objs, found.node, found.slot).resource.table;
        TableSlot(objs, t, op.slot);
        if op.Unlink? {
          RelinkedTyped(objs, t, op.slot, None);
        } else if TableCap(objs, root, op.other).0 == Done {
          RelinkedTyped(objs, t, op.slot, Some(TableCap(objs, root, op.other).1));
        }
      }
    }
    TrimmedTyped(after, objs', words, ext);
    SmallerAfter(after, objs', ext);
    if ext[me] > 0 {
      HandleKeeps(after, objs', ext, me);
    }
  }

  lemma {:induction false} InView(objs: Objects, t: nat)
    requires IsTable(objs, t)
    ensures t in View(objs)
  {
  }

  lemma {:induction false} NoSlack(objs: Objects, ext: multiset<nat>, s: Slot, k: nat)
    requires !Roomy(objs, ext, Pointers(s)) && k >= 2
    ensures !Slack(objs, ext, k)
  {
    if Slack(objs, ext, k) {
      SlackIsRoomy(objs, ext, s, k);
    }
  }

  lemma {:induction false} LessSlack(objs: Objects, ext: multiset<nat>, k: nat, n: nat)
    requires Slack(objs, ext, k) && n <= k
    ensures Slack(objs, ext, n)
  {
  }

  lemma {:induction false} BackAgain(ext: multiset<nat>, bag: multiset<nat>)
    ensures ext <= ext + bag && bag <= ext + bag && ext + bag - bag == ext
  {
  }

  lemma {:induction false} ClonedBag(ext: multiset<nat>, s: Slot)
    ensures var clone, child, rest :=
              multiset(Pointers(s)), multiset(ChildPointer(s.child)), multiset(ResourcePointer(s.resource));
            && child <= ext + clone && ext + clone - child == ext + rest && ext <= ext + rest
            && rest <= ext + rest && ext + rest - rest == ext
    ensures s.resource.CapEntry? ==> multiset(ResourcePointer(s.resource)) == multiset{s.resource.table}
  {
  }

  lemma {:induction false} Same(objs: Objects)
    ensures NoneAppear(objs, objs)
  {
  }

  /** A slot with its child taken: the handles of a hop, before and after. */
  lemma {:induction false} HopBag(ext: multiset<nat>, node: nat, s: Slot)
    ensures var held, clone, child, rest :=
              ext + multiset{node}, multiset(Pointers(s)), multiset(ChildPointer(s.child)), multiset(ResourcePointer(s.resource));
            && rest <= held + clone && held + clone - rest == held + child && ext <= held + child
            && (held + child)[node] > 0 && held + child - multiset{node} == ext + child && ext <= ext + child
  {
    SplitPointers(s);
    hide Pointers, ChildPointer, ResourcePointer;
  }

  /**
   One step of `get_inner`: the child of a slot is cloned (its resource too, which is dropped again), and
   the handle on the node is given up for it.  `None` is a panic.
   */
  method Hop(heap: CapHeap, node: nat, offset: nat, ghost ext: multiset<nat>) returns (r: Option<Option<nat>>)
    requires heap.Valid() && HasSlot(heap.objs, node, offset) && heap.ext == ext + multiset{node}
    requires exists words :: Law(heap.objs, words, ext)
    modifies heap, heap.table
    ensures r.Some? ==> heap.Valid() && heap.objs == old(heap.objs) && r.value == SlotAt(heap.objs, node, offset).child
    ensures r.Some? ==> heap.ext == ext + multiset(ChildPointer(r.value))
    ensures r.Some? ==> Settled(old(heap.objs), old(heap.table.words), heap.objs, heap.table.words)
    ensures Slack(old(heap.objs), ext, 3) ==> r.Some?
  {
    hide Slack, Law, Trimmed, RetypeTables.IdleHaveNoRefs, Pointers, ResourcePointer, ChildPointer, Roomy,
         Settled, NoneAppear;
    ghost var objs, first := heap.objs, heap.table.words;
    ghost var words :| Law(objs, words, ext);
    if Slack(objs, ext, 3) {
      SlackLessOne(objs, ext, node, 3);
    }
    var got := heap.GetCloned(node, offset);
    if got.None? {
      NoSlack(objs, old(heap.ext), SlotAt(objs, node, offset), 2);
      return None;
    }
    var slot := got.value;
    ghost var cloned := heap.table.words;
    Same(objs);
    HopBag(ext, node, slot);
    heap.DropAll(ResourcePointer(slot.resource));
    NothingToTrim(objs, words, ext, heap.objs, heap.ext);
    ghost var dropped := heap.table.words;
    SettledTwice(objs, first, objs, cloned, objs, dropped);
    heap.Drop(node);
    NothingToTrim(objs, words, ext, heap.objs, heap.ext);
    SettledTwice(objs, first, objs, dropped, objs, heap.table.words);
    return Some(slot.child);
  }

  /**
   `find`: the walk of `get_inner` along the id, holding one table at a time; on success the caller
   holds the table of the slot.  `None` is a panic.
   */
  method FindSlot(heap: CapHeap, root: nat, id: nat) returns (r: Option<Tries.Found>)
    requires heap.Valid() && Typed(heap.objs) && IsTable(heap.objs, root)
    modifies heap, heap.table
    ensures r.Some? ==> heap.Valid() && heap.objs == old(heap.objs) && r.value == Find(heap.objs, root, id)
    ensures r.Some? ==> heap.ext == old(heap.ext) + (if r.value.At? then multiset{r.value.node} else multiset{})
    ensures r.Some? ==> Settled(old(heap.objs), old(heap.table.words), heap.objs, heap.table.words)
    ensures Slack(old(heap.objs), old(heap.ext), 3) ==> r.Some?
  {
    hide Slack, Law, Typed, Tries.IsGraph, View, Tries.Offset, Tries.Rest, RetypeTables.IdleHaveNoRefs, SlotOk, Uses,
         Settled, NoneAppear;
    ghost var objs, ext, first := heap.objs, heap.ext, heap.table.words;
    Same(objs);
    assert Law(objs, heap.table.words, ext);
    AliveIsUsed(objs, heap.table.words, ext, root);
    ViewIsGraph(objs);
    InView(objs, root);
    var ok := heap.Clone(root);
    if !ok {
      NoSlackAtMax(objs, ext, root, 3);
      return None;
    }
    var node, rest := root, id;
    while Tries.Rest(rest, NUM_SLOTS) != 0
      invariant heap.Valid() && heap.objs == objs && heap.ext == ext + multiset{node} && IsTable(objs, node) && node in View(objs)
      invariant Tries.Get(View(objs), NUM_SLOTS, node, rest) == Tries.Get(View(objs), NUM_SLOTS, root, id)
      invariant Settled(objs, first, objs, heap.table.words)
      decreases rest
    {
      ghost var words := heap.table.words;
      var offset := Tries.Offset(rest, NUM_SLOTS);
      TableSlot(objs, node, offset);
      ViewChild(objs, node, offset);
      var child := Hop(heap, node, offset, ext);
      if child.None? {
        return None;
      }
      SettledTwice(objs, first, objs, words, objs, heap.table.words);
      if child.value.None? {
        return Some(Tries.Missing);
      }
      InView(objs, child.value.value);
      node, rest := child.value.value, Tries.Rest(rest, NUM_SLOTS);
    }
    return Some(Tries.At(node, Tries.Offset(rest, NUM_SLOTS)));
  }

  lemma {:induction false} AliveIsUsed(objs: Objects, words: seq<R.Word>, ext: multiset<nat>, f: nat)
    requires Law(objs, words, ext) && f < |objs| && objs[f].Some?
    ensures Uses(objs, ext, f) > 0
  {
    assert FrameLaw(objs, words, ext, f);
  }

  lemma {:induction false} NoSlackAtMax(objs: Objects, ext: multiset<nat>, f: nat, k: nat)
    requires Uses(objs, ext, f) >= R.MAX_REF_COUNT && k >= 1
    ensures !Slack(objs, ext, k)
  {
  }

  lemma {:induction false} ViewChild(objs: Objects, t: nat, i: nat)
    requires Typed(objs) && HasSlot(objs, t, i)
    ensures t in View(objs) && i < |View(objs)[t]|
    ensures var c := SlotAt(objs, t, i).child;
            View(objs)[t][i] == (if c.Some? then Tries.To(c.value) else Tries.NoChild) && (c.Some? ==> IsTable(objs, c.value))
  {
    if SlotAt(objs, t, i).child.Some? {
      ChildTyped(objs, t, i);
    }
  }

  /** `get_capability`: find the slot, clone it, let go of its table. */
  method GetCapability(heap: CapHeap, root: nat, cap: nat) returns (r: Option<Tries.Found>, slot: Slot)
    requires heap.Valid() && Typed(heap.objs) && IsTable(heap.objs, root)
    modifies heap, heap.table
    ensures r.Some? ==> heap.Valid() && heap.objs == old(heap.objs) && r.value == Find(heap.objs, root, cap)
    ensures r.Some? && !r.value.At? ==> heap.ext == old(heap.ext)
    ensures r.Some? ==> Settled(old(heap.objs), old(heap.table.words), heap.objs, heap.table.words)
    ensures r.Some? && r.value.At? ==>
              slot == SlotAt(heap.objs, r.value.node, r.value.slot) && heap.ext == old(heap.ext) + multiset(Pointers(slot))
    ensures Slack(old(heap.objs), old(heap.ext), 3) ==> r.Some?
  {
    hide Slack, Law, Trimmed, Typed, Find, RetypeTables.IdleHaveNoRefs, Pointers, Roomy, SlotOk, Settled, NoneAppear;
    slot := Slot(None, Empty);
    ghost var objs, words, ext := heap.objs, heap.table.words, heap.ext;
    r := FindSlot(heap, root, cap);
    if r.None? || !r.value.At? {
      return;
    }
    var node := r.value.node;
    if Slack(objs, ext, 3) {
      SlackLessOne(objs, ext, node, 3);
    }
    ghost var held, walked := heap.ext, heap.table.words;
    Same(objs);
    var got := heap.GetCloned(node, r.value.slot);
    if got.None? {
      NoSlack(objs, held, SlotAt(objs, node, r.value.slot), 2);
      return None, slot;
    }
    slot := got.value;
    ghost var cloned := heap.table.words;
    SettledTwice(objs, words, objs, walked, objs, cloned);
    LetGo(ext, node, multiset(Pointers(slot)));
    heap.Drop(node);
    NothingToTrim(objs, words, ext, heap.objs, heap.ext);
    SettledTwice(objs, words, objs, cloned, objs, heap.table.words);
  }

  lemma {:induction false} LetGo(ext: multiset<nat>, node: nat, clone: multiset<nat>)
    ensures (ext + multiset{node} + clone)[node] > 0 && ext + multiset{node} + clone - multiset{node} == ext + clone
    ensures ext <= ext + clone
  {
  }

  /** `get_resource_as`: on success the caller gains one handle, and otherwise nothing changes. */
  method GetTable(heap: CapHeap, root: nat, cap: nat) returns (r: Reply, t: nat)
    requires heap.Valid() && Typed(heap.objs) && IsTable(heap.objs, root)
    modifies heap, heap.table
    ensures r != Panicked ==> heap.Valid() && heap.objs == old(heap.objs)
    ensures r != Panicked ==> r == TableCap(heap.objs, root, cap).0
    ensures r != Panicked ==> heap.ext == old(heap.ext) + (if r == Done then multiset{t} else multiset{})
    ensures r == Done ==> t == TableCap(heap.objs, root, cap).1
    ensures r != Panicked ==> Settled(old(heap.objs), old(heap.table.words), heap.objs, heap.table.words)
    ensures r != Panicked ==>
              && r in {Done, NotFound, InvalidArgument}
              && (r == NotFound <==> Find(heap.objs, root, cap) == Tries.Missing)
              && (r == Done <==> exists o :: Names(heap.objs, root, cap, CapEntry(o)))
              && (r == Done ==> Names(heap.objs, root, cap, CapEntry(t)))
    ensures Slack(old(heap.objs), old(heap.ext), 3) ==> r != Panicked
  {
    hide Slack, Law, Trimmed, Typed, Find, RetypeTables.IdleHaveNoRefs, Pointers, ResourcePointer, ChildPointer, Roomy,
         Settled, NoneAppear, Names;
    TableReplies(heap.objs, root, cap);
    ghost var objs, words, ext := heap.objs, heap.table.words, heap.ext;
    var found, slot := GetCapability(heap, root, cap);
    if found.None? {
      return Panicked, 0;
    }
    if !found.value.At? {
      return if found.value.Missing? then NotFound else Internal, 0;
    }
    ghost var cloned := heap.table.words;
    Same(objs);
    ClonedBag(ext, slot);
    heap.DropAll(ChildPointer(slot.child));
    NothingToTrim(objs, words, ext, heap.objs, heap.ext);
    ghost var dropped := heap.table.words;
    SettledTwice(objs, words, objs, cloned, objs, dropped);
    if slot.resource.CapEntry? {
      return Done, slot.resource.table;
    }
    heap.DropAll(ResourcePointer(slot.resource));
    NothingToTrim(objs, words, ext, heap.objs, heap.ext);
    SettledTwice(objs, words, objs, dropped, objs, heap.table.words);
    return InvalidArgument, 0;
  }

  /** The body of `exercise_cap`, for a thread whose table is `root`. */
  method Exercise(heap: CapHeap, root: nat, cap: nat, op: CapOp) returns (r: Reply)
    requires heap.Valid() && Typed(heap.objs) && IsTable(heap.objs, root) && op.slot < NUM_SLOTS
    modifies heap, heap.table
    ensures r != Panicked ==>
              var (reply, after) := Effect(old(heap.objs), root, cap, op);
              r == reply && heap.Valid() && heap.ext == old(heap.ext) && Trimmed(after, heap.objs, heap.ext)
    ensures r != Panicked ==> Settled(old(heap.objs), old(heap.table.words), heap.objs, heap.table.words)
    ensures Slack(old(heap.objs), old(heap.ext), 5) ==> r != Panicked
  {
    hide Slack, Law, Trimmed, Typed, Find, RetypeTables.IdleHaveNoRefs, Pointers, ResourcePointer, ChildPointer, Roomy,
         TableCap, SlotOk, Settled, NoneAppear;
    ghost var objs, ext, words := heap.objs, heap.ext, heap.table.words;
    Same(objs);
    if Slack(objs, ext, 5) {
      LessSlack(objs, ext, 5, 3);
    }
    var found, slot := GetCapability(heap, root, cap);
    if found.None? {
      return Panicked;
    }
    if !found.value.At? {
      NothingTrimmed(heap.objs, heap.ext);
      return if found.value.Missing? then NotFound else Internal;
    }
    ghost var walked := heap.table.words;
    r := ExerciseSlot(heap, root, cap, op, found.value.node, found.value.slot, slot, ext);
    if r != Panicked {
      SettledTwice(objs, words, objs, walked, heap.objs, heap.table.words);
    }
  }

  /** The match on the resource. */
  method Act(heap: CapHeap, root: nat, cap: nat, op: CapOp, m: nat, s: nat) returns (r: Reply)
    requires heap.Valid() && Typed(heap.objs) && IsTable(heap.objs, root) && op.slot < NUM_SLOTS
    requires Find(heap.objs, root, cap) == Tries.At(m, s)
    modifies heap, heap.table
    ensures r != Panicked ==>
              var (reply, after) := Effect(old(heap.objs), root, cap, op);
              r == reply && heap.Valid() && heap.ext == old(heap.ext) && Trimmed(after, heap.objs, heap.ext)
    ensures r != Panicked ==> Settled(old(heap.objs), old(heap.table.words), heap.objs, heap.table.words)
    ensures Slack(old(heap.objs), old(heap.ext), 3) ==> r != Panicked
  {
    hide Slack, Law, Trimmed, Typed, Find, RetypeTables.IdleHaveNoRefs, TableCap, Effect, SlotOk, Settled, NoneAppear;
    EffectAt(heap.objs, root, cap, op, m, s);
    NothingTrimmed(heap.objs, heap.ext);
    LawWords(heap.objs, heap.table.words, heap.ext);
    SettledItself(heap.objs, heap.table.words);
    match SlotAt(heap.objs, m, s).resource
    case CapEntry(t) => r := Edit(heap, root, t, op);
    case Empty => r := NotFound;
    case _ => r := Elsewhere;
  }

  /** Act on the resource of the clone, then drop the clone. */
  method ExerciseSlot(heap: CapHeap, root: nat, cap: nat, op: CapOp, m: nat, s: nat, slot: Slot,
                      ghost ext: multiset<nat>)
    returns (r: Reply)
    requires heap.Valid() && Typed(heap.objs) && IsTable(heap.objs, root) && op.slot < NUM_SLOTS
    requires Find(heap.objs, root, cap) == Tries.At(m, s) && slot == SlotAt(heap.objs, m, s)
    requires heap.ext == ext + multiset(Pointers(slot))
    modifies heap, heap.table
    ensures r != Panicked ==>
              var (reply, after) := Effect(old(heap.objs), root, cap, op);
              r == reply && heap.Valid() && heap.ext == ext && Trimmed(after, heap.objs, heap.ext)
    ensures r != Panicked ==> Settled(old(heap.objs), old(heap.table.words), heap.objs, heap.table.words)
    ensures Slack(old(heap.objs), ext, 5) ==> r != Panicked
  {
    hide Slack, Law, Trimmed, Typed, Find, RetypeTables.IdleHaveNoRefs, Pointers, ResourcePointer, ChildPointer, Roomy, TableCap,
         Effect, SlotOk, Settled, NoneAppear;
    ghost var objs, words := heap.objs, heap.table.words;
    BackAgain(ext, multiset(Pointers(slot)));
    if Slack(objs, ext, 5) {
      SlackIsRoomy(objs, ext, slot, 5);
    }
    r := Act(heap, root, cap, op, m, s);
    if r == Panicked {
      return;
    }
    ghost var middle, more, acted := heap.objs, heap.ext, heap.table.words;
    heap.DropAll(Pointers(slot));
    TrimmedTwice(Effect(objs, root, cap, op).1, middle, heap.objs, more, heap.ext);
    EffectAppear(objs, root, cap, op, middle, more);
    SettledTwice(objs, words, middle, acted, heap.objs, heap.table.words);
  }

  lemma {:induction false} EffectAppear(objs: Objects, root: nat, cap: nat, op: CapOp, objs': Objects, ext: multiset<nat>)
    requires Typed(objs) && IsTable(objs, root) && op.slot < NUM_SLOTS && Trimmed(Effect(objs, root, cap, op).1, objs', ext)
    ensures NoneAppear(objs, objs')
  {
    hide Typed, Find, TableCap, SlotOk, Supported;
    var found := Find(objs, root, cap);
    if found.At? {
      EffectAt(objs, root, cap, op, found.node, found.slot);
    }
  }

  /**
   `exercise_cap`.  Every handle taken on the way is given back; the graph that results is the one
   `Edits` describes, less what is no longer in use, and frames that lost their object can be retyped.
   */
  method ExerciseCap(heap: CapHeap, me: nat, cap: nat, op: CapOp) returns (r: Reply)
    requires heap.Valid() && Typed(heap.objs) && IsThread(heap.objs, me) && op.slot < NUM_SLOTS
    requires IsTable(heap.objs, heap.objs[me].value.resources)
    modifies heap, heap.table
    ensures r != Panicked ==>
              var root := old(heap.objs[me].value.resources);
              && heap.Valid() && heap.ext == old(heap.ext) && Replies(old(heap.objs), root, cap, op, r)
              && (r == Done ==> exists after :: Edits(old(heap.objs), root, cap, op, after) && Trimmed(after, heap.objs, heap.ext))
              && r == Effect(old(heap.objs), root, cap, op).0
              && Trimmed(Effect(old(heap.objs), root, cap, op).1, heap.objs, heap.ext)
    ensures r != Panicked && r != Done ==> heap.objs == old(heap.objs)
    ensures r != Panicked ==> Typed(heap.objs) && (heap.ext[me] > 0 ==> heap.objs[me] == old(heap.objs[me]))
    ensures r != Panicked ==> Settled(old(heap.objs), old(heap.table.words), heap.objs, heap.table.words)
    ensures Slack(old(heap.objs), old(heap.ext), 5) ==> r != Panicked
  {
    hide Slack, Law, Trimmed, Typed, Find, RetypeTables.IdleHaveNoRefs, Effect, Settled, Replies, Edits;
    ghost var objs, words := heap.objs, heap.table.words;
    var root := heap.objs[me].value.resources;
    r := Exercise(heap, root, cap, op);
    if r != Panicked {
      EffectReplies(objs, root, cap, op);
      EffectKeeps(objs, heap.objs, heap.table.words, heap.ext, me, root, cap, op);
      if r != Done {
        NothingToTrim(objs, words, heap.ext, heap.objs, heap.ext);
      }
    }
  }

  /** The Link and Unlink branches, once the table to change is found. */
  method Edit(heap: CapHeap, root: nat, t: nat, op: CapOp) returns (r: Reply)
    requires heap.Valid() && Typed(heap.objs) && IsTable(heap.objs, root) && HasSlot(heap.objs, t, op.slot)
    modifies heap, heap.table
    ensures r != Panicked ==> heap.Valid() && heap.ext == old(heap.ext)
    ensures r != Panicked ==> r == if op.Unlink? then Done else TableCap(old(heap.objs), root, op.other).0
    ensures r == Done ==>
              Trimmed(Relinked(old(heap.objs), t, op.slot,
                               if op.Unlink? then None else Some(TableCap(old(heap.objs), root, op.other).1)),
                      heap.objs, heap.ext)
    ensures r != Panicked && r != Done ==> Trimmed(old(heap.objs), heap.objs, heap.ext)
    ensures r != Panicked ==> Settled(old(heap.objs), old(heap.table.words), heap.objs, heap.table.words)
    ensures Slack(old(heap.objs), old(heap.ext), 3) ==> r != Panicked
  {
    hide Slack, Law, Trimmed, Typed, Find, RetypeTables.IdleHaveNoRefs, Pointers, ResourcePointer, Roomy, TableCap,
         Settled, NoneAppear, Names;
    ghost var objs, words := heap.objs, heap.table.words;
    Same(objs);
    NothingTrimmed(heap.objs, heap.ext);
    ghost var slot := SlotAt(heap.objs, t, op.slot);
    if Slack(heap.objs, heap.ext, 3) {
      SlackIsRoomy(heap.objs, heap.ext, slot, 3);
    }
    if op.Unlink? {
      var ok := heap.Change(t, op.slot, None);
      return if ok then Done else Panicked;
    }
    var reply, other := GetTable(heap, root, op.other);
    if reply != Done {
      return reply;
    }
    if Slack(heap.objs, old(heap.ext), 3) {
      SlackLessOne(heap.objs, old(heap.ext), other, 3);
      SlackIsRoomy(heap.objs, heap.ext, slot, 2);
    }
    ghost var got := heap.table.words;
    var ok := heap.Change(t, op.slot, Some(other));
    if ok {
      SettledTwice(objs, words, objs, got, heap.objs, heap.table.words);
    }
    return if ok then Done else Panicked;
  }
}
