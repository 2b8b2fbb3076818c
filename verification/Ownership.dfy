/**
 Who owns a physical frame: the protocol of retyping.rs and kptr.rs as interleaved atomic steps
 of any number of actors.

 A handle is a `UserFrame`, a `KernelFrame` or a `KPtr`.  `Raw` is a handle given up with
 `into_raw` (a mapping, a stored pointer): it still stands for one reference.  The inherent
 `drop(self)` of the frame types decrements once when called and a second time when `self` leaves
 scope, because the `Drop` impl runs as well; `KPtr::drop` is built on it.  Those two decrements are
 the steps `DropCall` and `DropCallEnds`, and a handle between them is `Spent`.  At the maximum count a
 checked `Clone` (`try_clone`) is refused and an unchecked one (`KPtr::clone`) panics.

 `lost` is bookkeeping: how many references the code took away from a frame without a handle
 going away.  The central law is exact for the code as written, in every run.
 */
module Ownership {
  import opened RetypeEntries
  import opened RetypeTables

  datatype Form = Owned | Raw | Spent
  datatype Handle = Handle(actor: nat, kind: State, frame: nat, form: Form)

  datatype Sys = Sys(words: seq<Word>, held: map<nat, Handle>, boot: set<nat>, lost: seq<nat>)

  datatype Act =
    | TryInto(frame: nat, kind: State, newId: nat)
    | TryAs(frame: nat, kind: State, newId: nat)
    | Clone(id: nat, newId: nat, checked: bool)
    | Drop(id: nat)
    | DropCall(id: nat)
    | DropCallEnds(id: nat)
    | IntoRaw(id: nat)
    | FromRaw(id: nat)
    | Send(id: nat, to: nat)
    | Untype(frame: nat, from: State)

  datatype Step = Step(actor: nat, act: Act)

  datatype Outcome = Running(s: Sys) | Panicked

  predicate Holds(s: Sys, actor: nat, id: nat, form: Form) {
    id in s.held && s.held[id].actor == actor && s.held[id].form == form && s.held[id].frame < |s.words|
  }

  predicate Enabled(s: Sys, step: Step) {
    && |s.lost| == |s.words|
    && match step.act
       case TryInto(_, kind, newId) => Typed(kind) && newId !in s.held
       case TryAs(_, kind, newId) => Typed(kind) && newId !in s.held
       case Clone(id, newId, _) => Holds(s, step.actor, id, Owned) && newId !in s.held
       case Drop(id) => Holds(s, step.actor, id, Owned)
       case DropCall(id) => Holds(s, step.actor, id, Owned)
       case DropCallEnds(id) => Holds(s, step.actor, id, Spent)
       case IntoRaw(id) => Holds(s, step.actor, id, Owned)
       case FromRaw(id) => Holds(s, step.actor, id, Raw)
       case Send(id, _) => Holds(s, step.actor, id, Owned) || Holds(s, step.actor, id, Raw)
       case Untype(_, from) => Typed(from)
  }

  function Reforms(s: Sys, id: nat, form: Form): (held: map<nat, Handle>)
    requires id in s.held
  {
    s.held[id := s.held[id].(form := form)]
  }

  /** One atomic step.  A refused compare-exchange leaves the system as it is. */
  function Next(s: Sys, step: Step): (o: Outcome)
    requires Enabled(s, step)
  {
    match step.act
    case TryInto(f, kind, newId) =>
      if f >= |s.words| then Running(s) else
      var (w, reply) := WordStep(s.words[f], Retype(Untyped, kind, 0, 1));
      if reply != Accepted then Running(s) else
      Running(s.(words := s.words[f := w], held := s.held[newId := Handle(step.actor, kind, f, Owned)]))
    case TryAs(f, kind, newId) =>
      if f >= |s.words| then Running(s) else
      var (w, reply) := WordStep(s.words[f], GetAsAndIncrement(kind));
      if reply != Accepted then Running(s) else
      Running(s.(words := s.words[f := w], held := s.held[newId := Handle(step.actor, kind, f, Owned)],
                 lost := s.lost[f := s.lost[f] + Cost(s, step, f)]))
    case Clone(id, newId, checked) =>
      var f := s.held[id].frame;
      var (w, reply) := WordStep(s.words[f], Increment);
      if reply == MaxRefs then (if checked then Running(s) else Panicked) else
      Running(s.(words := s.words[f := w], held := s.held[newId := s.held[id]]))
    case Drop(id) =>
      var f := s.held[id].frame;
      var (w, reply) := WordStep(s.words[f], Decrement);
      if reply == NoRefs then Panicked else
      Running(s.(words := s.words[f := w], held := s.held - {id}))
    case DropCall(id) =>
      var f := s.held[id].frame;
      var (w, reply) := WordStep(s.words[f], Decrement);
      if reply == NoRefs then Panicked else
      Running(s.(words := s.words[f := w], held := Reforms(s, id, Spent)))
    case DropCallEnds(id) =>
      var f := s.held[id].frame;
      var (w, reply) := WordStep(s.words[f], Decrement);
      if reply == NoRefs then Panicked else
      Running(s.(words := s.words[f := w], held := s.held - {id}, lost := s.lost[f := s.lost[f] + Cost(s, step, f)]))
    case IntoRaw(id) => Running(s.(held := Reforms(s, id, Raw)))
    case FromRaw(id) => Running(s.(held := Reforms(s, id, Owned)))
    case Send(id, to) => Running(s.(held := s.held[id := s.held[id].(actor := to)]))
    case Untype(f, from) =>
      if f >= |s.words| then Running(s) else
      Running(s.(words := s.words[f := WordStep(s.words[f], Retype(from, Untyped, 0, 0)).0]))
  }

  /** References a step takes from frame `f` without a handle going away. */
  function Cost(s: Sys, step: Step, f: nat): (n: nat)
    requires Enabled(s, step)
  {
    match step.act
    case TryAs(g, kind, _) =>
      if g == f && f < |s.words| && Wraps(s.words[f], GetAsAndIncrement(kind)) then MAX_REF_COUNT else 0
    case DropCallEnds(id) => if s.held[id].frame == f then 1 else 0
    case _ => 0
  }

  // What each step does, in terms of entries and handles

  /** From `s` to `t` only the entry of frame `f` and the handles changed, to `e` and `held`. */
  ghost predicate Becomes(s: Sys, t: Sys, f: nat, e: Entry, held: map<nat, Handle>) {
    && f < |s.words| == |t.words| && t.words == s.words[f := t.words[f]] && ValueInto(t.words[f]) == e
    && t.held == held && t.boot == s.boot
  }

  /** Acquiring: exactly when it succeeds, and then one handle more and one entry changed. */
  lemma {:induction false} AcquireDoes(s: Sys, step: Step)
    requires Enabled(s, step)
    ensures match step.act
            case TryInto(f, kind, newId) =>
              && Next(s, step).Running?
              && var t := Next(s, step).s;
                 if f < |s.words| && ValueInto(s.words[f]) == Entry(Untyped, 0)
                 then Becomes(s, t, f, Entry(kind, 1), s.held[newId := Handle(step.actor, kind, f, Owned)]) && t.lost == s.lost
                 else t == s
            case TryAs(f, kind, newId) =>
              && Next(s, step).Running?
              && var t := Next(s, step).s;
                 if f < |s.words| && ValueInto(s.words[f]).state == kind && ValueInto(s.words[f]).count < MAX_REF_COUNT
                 then
                   var count := ValueInto(s.words[f]).count;
                   Becomes(s, t, f, Entry(kind, if count == MAX_REF_COUNT - 1 then 0 else count + 1),
                           s.held[newId := Handle(step.actor, kind, f, Owned)])
                 else t == s
            case Clone(id, newId, checked) =>
              var f := s.held[id].frame;
              var e := ValueInto(s.words[f]);
              if e.count < MAX_REF_COUNT
              then
                && Next(s, step).Running?
                && Becomes(s, Next(s, step).s, f, Entry(e.state, e.count + 1), s.held[newId := s.held[id]])
              else Next(s, step) == if checked then Running(s) else Panicked
            case _ => true
  {
    match step.act
    case TryInto(f, kind, _) =>
      if f < |s.words| { StepSimulates(s.words[f], Retype(Untyped, kind, 0, 1)); }
    case TryAs(f, kind, _) =>
      if f < |s.words| { StepSimulates(s.words[f], GetAsAndIncrement(kind)); }
    case Clone(id, _, _) => StepSimulates(s.words[s.held[id].frame], Increment);
    case _ =>
  }

  /** Releasing: a panic exactly at count 0, else one reference less; and which handle goes, and when. */
  lemma {:induction false} ReleaseDoes(s: Sys, step: Step)
    requires Enabled(s, step) && (step.act.Drop? || step.act.DropCall? || step.act.DropCallEnds?)
    ensures var id := step.act.id;
            var f := s.held[id].frame;
            var e := ValueInto(s.words[f]);
            if e.count == 0 then Next(s, step) == Panicked
            else
              && Next(s, step).Running?
              && Becomes(s, Next(s, step).s, f, Entry(e.state, e.count - 1),
                         if step.act.DropCall? then s.held[id := s.held[id].(form := Spent)] else s.held - {id})
  {
    StepSimulates(s.words[s.held[step.act.id].frame], Decrement);
  }

  /** Retyping back, and passing a handle on: the latter changes no entry. */
  lemma {:induction false} PassDoes(s: Sys, step: Step)
    requires Enabled(s, step)
    ensures match step.act
            case Untype(f, from) =>
              && Next(s, step).Running?
              && var t := Next(s, step).s;
                 if f < |s.words| && ValueInto(s.words[f]) == Entry(from, 0) then Becomes(s, t, f, Entry(Untyped, 0), s.held)
                 else t == s
            case IntoRaw(id) => Next(s, step) == Running(s.(held := s.held[id := s.held[id].(form := Raw)]))
            case FromRaw(id) => Next(s, step) == Running(s.(held := s.held[id := s.held[id].(form := Owned)]))
            case Send(id, to) => Next(s, step) == Running(s.(held := s.held[id := s.held[id].(actor := to)]))
            case _ => true
  {
    match step.act
    case Untype(f, from) =>
      if f < |s.words| {
        StepSimulates(s.words[f], Retype(from, Untyped, 0, 0));
        UnpackInjective(s.words[f], WordStep(s.words[f], Retype(from, Untyped, 0, 0)).0);
      }
    case _ =>
  }

  // Runs

  ghost predicate Run(s: Sys, steps: seq<Step>, last: Sys)
    decreases |steps|
  {
    if steps == [] then s == last
    else Enabled(s, steps[0]) && Next(s, steps[0]).Running? && Run(Next(s, steps[0]).s, steps[1..], last)
  }

  /** No step of the run is the second decrement of a `drop` call on `f` or a wrapping acquire of `f`. */
  ghost predicate Clean(s: Sys, steps: seq<Step>, f: nat)
    decreases |steps|
  {
    steps == [] ||
    (Enabled(s, steps[0]) && Cost(s, steps[0], f) == 0 &&
     Next(s, steps[0]).Running? && Clean(Next(s, steps[0]).s, steps[1..], f))
  }

  /** What `RetypeTable::new` leaves behind: kernel frames start with one reference, owned by the boot code. */
  predicate Initial(s: Sys) {
    && s.held == map[] && |s.lost| == |s.words|
    && (forall i :: 0 <= i < |s.words| ==> s.lost[i] == 0 && IsBootEntry(s.words[i], i in s.boot))
    && (forall i :: i in s.boot ==> i < |s.words|)
  }

  predicate IsBootEntry(w: Word, owned: bool) {
    if owned then ValueInto(w) == Entry(Kernel, 1)
    else ValueInto(w) == Entry(Unavailable, 0) || ValueInto(w) == Entry(Untyped, 0)
  }

  // The law

  /** The live handles of a frame. */
  function Holders(held: map<nat, Handle>, f: nat): (ids: set<nat>) {
    set id | id in held && held[id].frame == f && held[id].form != Spent
  }

  function BootOwner(s: Sys, f: nat): (n: nat) { if f in s.boot then 1 else 0 }

  predicate LawAt(s: Sys, f: nat)
    requires f < |s.words| == |s.lost|
  {
    ValueInto(s.words[f]).count + s.lost[f] == |Holders(s.held, f)| + BootOwner(s, f)
  }

  /** A frame with an exact count is used in one way only, the way its state says. */
  predicate OneUse(s: Sys, f: nat)
    requires f < |s.words|
  {
    var e := ValueInto(s.words[f]);
    && (forall id :: id in Holders(s.held, f) ==> s.held[id].kind == e.state)
    && (f in s.boot ==> e.state == Kernel)
    && (!Typed(e.state) ==> e.count == 0)
  }

  predicate FrameInv(s: Sys, f: nat)
    requires f < |s.words| == |s.lost|
  {
    LawAt(s, f) && (s.lost[f] == 0 ==> OneUse(s, f))
  }

  predicate Inv(s: Sys) {
    && |s.lost| == |s.words|
    && (forall id :: id in s.held ==> s.held[id].frame < |s.words| && Typed(s.held[id].kind))
    && (forall f :: 0 <= f < |s.words| ==> FrameInv(s, f))
  }

  lemma {:induction false} AddHolder(held: map<nat, Handle>, id: nat, h: Handle, f: nat)
    requires id !in held
    ensures var now := Holders(held[id := h], f);
            id !in Holders(held, f) && now == Holders(held, f) + (if h.frame == f && h.form != Spent then {id} else {})
  {
  }

  lemma {:induction false} RemoveHolder(held: map<nat, Handle>, id: nat, f: nat)
    ensures Holders(held - {id}, f) == Holders(held, f) - {id}
  {
  }

  /** Replacing a handle by one on the same frame, both live, keeps the live handles. */
  lemma {:induction false} SameHolders(held: map<nat, Handle>, id: nat, h: Handle, f: nat)
    requires id in held && held[id].frame == h.frame && held[id].form != Spent && h.form != Spent
    ensures Holders(held[id := h], f) == Holders(held, f)
  {
  }

  lemma {:induction false} TryIntoKeeps(s: Sys, step: Step)
    requires Inv(s) && Enabled(s, step) && step.act.TryInto?
    ensures Next(s, step).Running? && Inv(Next(s, step).s)
  {
    var TryInto(g, kind, newId) := step.act;
    if g < |s.words| {
      var op := Retype(Untyped, kind, 0, 1);
      StepSimulates(s.words[g], op);
      var t := Next(s, step).s;
      if WordStep(s.words[g], op).1 == Accepted {
        forall f | 0 <= f < |s.words| ensures FrameInv(t, f) {
          assert FrameInv(s, f);
          AddHolder(s.held, newId, t.held[newId], f);
        }
      }
    }
  }

  lemma {:induction false} TryAsKeeps(s: Sys, step: Step)
    requires Inv(s) && Enabled(s, step) && step.act.TryAs?
    ensures Next(s, step).Running? && Inv(Next(s, step).s)
  {
    hide ValueInto, ValueFor, WordStep, Holders;
    var TryAs(g, kind, newId) := step.act;
    if g < |s.words| {
      var op := GetAsAndIncrement(kind);
      StepSimulates(s.words[g], op);
      var t := Next(s, step).s;
      if WordStep(s.words[g], op).1 == Accepted {
        forall f | 0 <= f < |s.words| ensures FrameInv(t, f) {
          assert FrameInv(s, f);
          AddHolder(s.held, newId, t.held[newId], f);
        }
      }
    }
  }

  lemma {:induction false} CloneKeeps(s: Sys, step: Step)
    requires Inv(s) && Enabled(s, step) && step.act.Clone?
    ensures Next(s, step).Running? ==> Inv(Next(s, step).s)
  {
    var Clone(id, newId, _) := step.act;
    var g := s.held[id].frame;
    StepSimulates(s.words[g], Increment);
    if WordStep(s.words[g], Increment).1 != MaxRefs {
      var t := Next(s, step).s;
      assert id in Holders(s.held, g);
      forall f | 0 <= f < |s.words| ensures FrameInv(t, f) {
        assert FrameInv(s, f);
        AddHolder(s.held, newId, t.held[newId], f);
      }
    }
  }

  lemma {:induction false} DropKeeps(s: Sys, step: Step)
    requires Inv(s) && Enabled(s, step) && step.act.Drop?
    ensures Next(s, step).Running? ==> Inv(Next(s, step).s)
  {
    var id := step.act.id;
    var g := s.held[id].frame;
    StepSimulates(s.words[g], Decrement);
    if Next(s, step).Running? {
      var t := Next(s, step).s;
      assert id in Holders(s.held, g);
      forall f | 0 <= f < |s.words| ensures FrameInv(t, f) {
        assert FrameInv(s, f);
        RemoveHolder(s.held, id, f);
      }
    }
  }

  lemma {:induction false} DropCallKeeps(s: Sys, step: Step)
    requires Inv(s) && Enabled(s, step) && step.act.DropCall?
    ensures Next(s, step).Running? ==> Inv(Next(s, step).s)
  {
    var id := step.act.id;
    var g := s.held[id].frame;
    StepSimulates(s.words[g], Decrement);
    if Next(s, step).Running? {
      var t := Next(s, step).s;
      assert id in Holders(s.held, g);
      forall f | 0 <= f < |s.words| ensures FrameInv(t, f) {
        assert FrameInv(s, f);
        assert Holders(t.held, f) == Holders(s.held, f) - {id};
      }
    }
  }

  lemma {:induction false} DropCallEndsKeeps(s: Sys, step: Step)
    requires Inv(s) && Enabled(s, step) && step.act.DropCallEnds?
    ensures Next(s, step).Running? ==> Inv(Next(s, step).s)
  {
    var id := step.act.id;
    var g := s.held[id].frame;
    StepSimulates(s.words[g], Decrement);
    if Next(s, step).Running? {
      var t := Next(s, step).s;
      forall f | 0 <= f < |s.words| ensures FrameInv(t, f) {
        assert FrameInv(s, f);
        RemoveHolder(s.held, id, f);
        assert Holders(t.held, f) == Holders(s.held, f);
      }
    }
  }

  lemma {:induction false} UntypeKeeps(s: Sys, step: Step)
    requires Inv(s) && Enabled(s, step) && step.act.Untype?
    ensures Next(s, step).Running? && Inv(Next(s, step).s)
  {
    var Untype(g, from) := step.act;
    if g < |s.words| {
      StepSimulates(s.words[g], Retype(from, Untyped, 0, 0));
      var t := Next(s, step).s;
      forall f | 0 <= f < |s.words| ensures FrameInv(t, f) {
        assert FrameInv(s, f);
        if f == g && s.lost[f] == 0 && ValueInto(s.words[g]) == Entry(from, 0) {
          assert Holders(s.held, f) == {};
        }
      }
    }
  }

  lemma {:induction false} RelabelKeeps(s: Sys, step: Step)
    requires Inv(s) && Enabled(s, step)
    requires step.act.IntoRaw? || step.act.FromRaw? || step.act.Send?
    ensures Next(s, step).Running? && Inv(Next(s, step).s)
  {
    var t := Next(s, step).s;
    var id := step.act.id;
    forall f | 0 <= f < |s.words| ensures FrameInv(t, f) {
      assert FrameInv(s, f);
      SameHolders(s.held, id, t.held[id], f);
    }
  }

  /** Every step of the code keeps the law. */
  lemma {:induction false} NextKeepsInv(s: Sys, step: Step)
    requires Inv(s) && Enabled(s, step)
    ensures Next(s, step).Running? ==> Inv(Next(s, step).s)
  {
    match step.act
    case TryInto(_, _, _) => TryIntoKeeps(s, step);
    case TryAs(_, _, _) => TryAsKeeps(s, step);
    case Clone(_, _, _) => CloneKeeps(s, step);
    case Drop(_) => DropKeeps(s, step);
    case DropCall(_) => DropCallKeeps(s, step);
    case DropCallEnds(_) => DropCallEndsKeeps(s, step);
    case Untype(_, _) => UntypeKeeps(s, step);
    case _ => RelabelKeeps(s, step);
  }

  lemma {:induction false} RunKeepsInv(s: Sys, steps: seq<Step>, last: Sys)
    requires Inv(s) && Run(s, steps, last)
    ensures Inv(last) && |last.words| == |s.words| && last.boot == s.boot
    decreases |steps|
  {
    if steps != [] {
      NextKeepsInv(s, steps[0]);
      RunKeepsInv(Next(s, steps[0]).s, steps[1..], last);
    }
  }

  /** A frame has lost references at the end of a run exactly when some step of the run cost it one. */
  lemma {:induction false} LostIffNotClean(s: Sys, steps: seq<Step>, last: Sys, f: nat)
    requires Inv(s) && Run(s, steps, last) && f < |s.words|
    ensures |last.lost| == |s.lost| && last.lost[f] >= s.lost[f]
    ensures last.lost[f] == s.lost[f] <==> Clean(s, steps, f)
    decreases |steps|
  {
    if steps != [] {
      NextKeepsInv(s, steps[0]);
      var t := Next(s, steps[0]).s;
      StepCost(s, steps[0], f);
      LostIffNotClean(t, steps[1..], last, f);
    }
  }

  lemma {:induction false} StepCost(s: Sys, step: Step, f: nat)
    requires Enabled(s, step) && f < |s.words| && Next(s, step).Running?
    ensures |Next(s, step).s.lost| == |s.lost| && Next(s, step).s.lost[f] == s.lost[f] + Cost(s, step, f)
  {
  }

  lemma {:induction false} InitialInv(s: Sys)
    requires Initial(s)
    ensures Inv(s)
  {
  }

  /**
   Reference conservation.  In every run of the code, by any number of actors and in any
   interleaving, the count of a frame equals its live handles (plus its boot owner) if and only if
   the run never finished a `drop` call on it and never acquired it one short of the maximum.
   While that holds the frame is used in one way only, and is untyped only when nobody holds it.
   */
  lemma {:induction false} Conservation(first: Sys, steps: seq<Step>, s: Sys, f: nat)
    requires Initial(first) && Run(first, steps, s) && f < |first.words|
    ensures f < |s.words|
    ensures ValueInto(s.words[f]).count == |Holders(s.held, f)| + BootOwner(s, f) <==> Clean(first, steps, f)
    ensures Clean(first, steps, f) ==>
              && (forall id :: id in Holders(s.held, f) ==> s.held[id].kind == ValueInto(s.words[f]).state)
              && (ValueInto(s.words[f]).state == Untyped ==> Holders(s.held, f) == {} && f !in s.boot)
              && (f in first.boot ==> ValueInto(s.words[f]).state == Kernel)
              && (!Typed(ValueInto(s.words[f]).state) ==> ValueInto(s.words[f]).count == 0)
  {
    InitialInv(first);
    RunKeepsInv(first, steps, s);
    LostIffNotClean(first, steps, s, f);
    assert FrameInv(s, f);
    if Clean(first, steps, f) {
      assert OneUse(s, f);
    }
  }

  /** While a frame's count is exact, no release of a handle on it panics. */
  lemma {:induction false} ReleaseCannotPanic(s: Sys, step: Step)
    requires Inv(s) && Enabled(s, step) && (step.act.Drop? || step.act.DropCall?)
    requires s.lost[s.held[step.act.id].frame] == 0
    ensures Next(s, step).Running?
  {
    var f := s.held[step.act.id].frame;
    StepSimulates(s.words[f], Decrement);
    assert step.act.id in Holders(s.held, f);
    assert FrameInv(s, f);
  }

  /** Frames change state only out of Untyped, or into it from an unreferenced typed frame. */
  lemma {:induction false} StateChanges(s: Sys, step: Step, f: nat)
    requires Enabled(s, step) && f < |s.words| && Next(s, step).Running?
    ensures |Next(s, step).s.words| == |s.words|
    ensures var was, now := ValueInto(s.words[f]), ValueInto(Next(s, step).s.words[f]);
            now.state == was.state || (was == Entry(Untyped, 0) && Typed(now.state) && now.count == 1) ||
            (Typed(was.state) && was.count == 0 && now == Entry(Untyped, 0))
  {
    match step.act
    case TryInto(g, kind, _) =>
      if g < |s.words| { StepSimulates(s.words[g], Retype(Untyped, kind, 0, 1)); }
    case TryAs(g, kind, _) =>
      if g < |s.words| { StepSimulates(s.words[g], GetAsAndIncrement(kind)); }
    case Clone(id, _, _) => StepSimulates(s.words[s.held[id].frame], Increment);
    case Drop(id) => StepSimulates(s.words[s.held[id].frame], Decrement);
    case DropCall(id) => StepSimulates(s.words[s.held[id].frame], Decrement);
    case DropCallEnds(id) => StepSimulates(s.words[s.held[id].frame], Decrement);
    case Untype(g, from) =>
      if g < |s.words| { StepSimulates(s.words[g], Retype(from, Untyped, 0, 0)); }
    case _ =>
  }

  /**
   Releasing the last handle through a `drop` call (as `KPtr::drop` does) panics when `self` leaves
   scope, unless another actor took a reference in between: the code that destroys the pointed-to
   value after the last release is not reached.
   */
  lemma {:induction false} LastDropCallPanics(s: Sys, actor: nat, id: nat)
    requires Enabled(s, Step(actor, DropCall(id)))
    requires ValueInto(s.words[s.held[id].frame]).count == 1
    ensures var o := Next(s, Step(actor, DropCall(id)));
            o.Running? && Enabled(o.s, Step(actor, DropCallEnds(id))) && Next(o.s, Step(actor, DropCallEnds(id))).Panicked?
  {
  }

  /** A borrowed pointer to the current page table, as `clone_kernel` takes and drops it. */
  function BorrowAndDrop(f: nat): (steps: seq<Step>) {
    [Step(0, TryAs(f, Kernel, 0)), Step(0, DropCall(0)), Step(0, DropCallEnds(0))]
  }

  /** Conservation does fail: one borrow of a boot table leaves it with no reference at all. */
  lemma {:induction false} BootTableLosesItsReference(s: Sys, t: Sys)
    requires Initial(s) && |s.words| == 1 && 0 in s.boot
    requires t == s.(words := [ValueFor(Kernel, 0)], lost := [1])
    ensures Run(s, BorrowAndDrop(0), t)
    ensures !Clean(s, BorrowAndDrop(0), 0)
  {
    var steps := BorrowAndDrop(0);
    assert IsBootEntry(s.words[0], true);
    StepSimulates(s.words[0], GetAsAndIncrement(Kernel));
    var s1 := Next(s, steps[0]).s;
    StepSimulates(s1.words[0], Decrement);
    var s2 := Next(s1, steps[1]).s;
    StepSimulates(s2.words[0], Decrement);
    var s3 := Next(s2, steps[2]).s;
    UnpackPack(Kernel, 0);
    UnpackInjective(s3.words[0], ValueFor(Kernel, 0));
    assert s3.held == s.held;
    assert s3 == t;
    assert Run(s3, steps[3..], t);
    assert steps[2..][1..] == steps[3..] && steps[1..][1..] == steps[2..];
    assert Run(s2, steps[2..], t);
    assert Run(s1, steps[1..], t);
    InitialInv(s);
    LostIffNotClean(s, steps, t, 0);
  }

  /** The next borrow then panics when it is dropped. */
  lemma {:induction false} SecondBorrowPanics(s: Sys, f: nat)
    requires Inv(s) && f < |s.words| && ValueInto(s.words[f]) == Entry(Kernel, 0) && 0 !in s.held
    ensures var steps := BorrowAndDrop(f);
            && Enabled(s, steps[0]) && Next(s, steps[0]).Running?
            && var s1 := Next(s, steps[0]).s;
               && Enabled(s1, steps[1]) && Next(s1, steps[1]).Running?
               && var s2 := Next(s1, steps[1]).s;
                  Enabled(s2, steps[2]) && Next(s2, steps[2]).Panicked?
  {
    StepSimulates(s.words[f], GetAsAndIncrement(Kernel));
    LastDropCallPanics(Next(s, BorrowAndDrop(f)[0]).s, 0, 0);
  }
}
