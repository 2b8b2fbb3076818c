/**
 The retype table and the frame operations that go through it
 (`RawFrame`, `UserFrame`, `KernelFrame` in harmony/kernel/src/retyping.rs).

 A physical frame is named by its number.  The table is one object shared by the whole kernel;
 every method below performs one atomic update of one word, except `TryIntoUntyped`, which tries two.
 */
module RetypeTables {
  import opened Layout
  import opened RetypeEntries

  datatype AsTypeResult = Held | NotExpectedState(state: State) | TooManyRefs | NoSuchFrame
  datatype RetypeResult = Retyped | InvalidFromState(state: State) | RefsExist(refs: nat) | OutOfBounds

  predicate Typed(s: State) { s == User || s == Kernel }

  /** Frames that nobody uses carry no references. */
  predicate IdleHaveNoRefs(words: seq<Word>) {
    forall i :: 0 <= i < |words| ==> Typed(ValueInto(words[i]).state) || ValueInto(words[i]).count == 0
  }

  /** Number of untyped frames numbered `from` or above. */
  function UntypedFrom(words: seq<Word>, from: nat): (n: nat)
    decreases |words| - from
  {
    if from >= |words| then 0
    else (if ValueInto(words[from]).state == Untyped then 1 else 0) + UntypedFrom(words, from + 1)
  }

  class RetypeTable {
    var words: seq<Word>

    ghost predicate Valid()
      reads this
    {
      |words| < MAX_FRAMES && IdleHaveNoRefs(words)
    }

    function EntryOf(frame: nat): (e: Entry)
      requires frame < |words|
      reads this
    {
      ValueInto(words[frame])
    }

    constructor (initial: seq<Word>)
      requires |initial| < MAX_FRAMES && IdleHaveNoRefs(initial)
      ensures Valid() && words == initial
    {
      words := initial;
    }

    /** `RetypeEntry::increment` (`try_clone`, `as_user_unchecked`, `as_kernel_unchecked`), whatever the frame's state. */
    method Increment(frame: nat) returns (before: nat, ok: bool)
      requires Valid() && frame < |words|
      modifies this
      ensures |words| == old(|words|) && words == old(words)[frame := words[frame]]
      ensures old(Typed(EntryOf(frame).state)) ==> Valid()
      ensures before == old(EntryOf(frame).count) && ok == (before < MAX_REF_COUNT)
      ensures EntryOf(frame) == Entry(old(EntryOf(frame).state), if ok then before + 1 else before)
    {
      var (w, reply) := WordStep(words[frame], RetypeEntries.Increment);
      StepSimulates(words[frame], RetypeEntries.Increment);
      before, ok := EntryOf(frame).count, reply.Counted?;
      words := words[frame := w];
    }

    /** `RetypeEntry::decrement`, whatever the frame's state; `ok` is false where the callers' `unwrap` panics. */
    method Decrement(frame: nat) returns (before: nat, ok: bool)
      requires Valid() && frame < |words|
      modifies this
      ensures |words| == old(|words|) && words == old(words)[frame := words[frame]]
      ensures old(Typed(EntryOf(frame).state)) ==> Valid()
      ensures before == old(EntryOf(frame).count) && ok == (before > 0)
      ensures EntryOf(frame) == Entry(old(EntryOf(frame).state), if ok then before - 1 else 0)
    {
      var (w, reply) := WordStep(words[frame], RetypeEntries.Decrement);
      StepSimulates(words[frame], RetypeEntries.Decrement);
      before, ok := EntryOf(frame).count, reply.Counted?;
      words := words[frame := w];
    }

    /** `try_as_user` (kind User) and `try_as_kernel` (kind Kernel). */
    method TryAs(frame: nat, kind: State) returns (r: AsTypeResult)
      requires Valid() && Typed(kind)
      modifies this
      ensures Valid() && |words| == old(|words|)
      ensures frame >= |words| ==> r == NoSuchFrame && words == old(words)
      ensures frame < |words| ==>
                var e := old(EntryOf(frame));
                && words == old(words)[frame := words[frame]]
                && r == (if e.state != kind then NotExpectedState(e.state)
                         else if e.count == MAX_REF_COUNT then TooManyRefs else Held)
                && EntryOf(frame) == (if r != Held then e
                                      else if e.count == MAX_REF_COUNT - 1 then Entry(kind, 0)
                                      else Entry(kind, e.count + 1))
    {
      if frame >= |words| {
        return NoSuchFrame;
      }
      var (w, reply) := WordStep(words[frame], GetAsAndIncrement(kind));
      StepSimulates(words[frame], GetAsAndIncrement(kind));
      words := words[frame := w];
      match reply
      case Rejected(found) =>
        if found.state != kind {
          r := NotExpectedState(found.state);
        } else {
          assert found.count == MAX_REF_COUNT;  // the source's debug assertion
          r := TooManyRefs;
        }
      case _ =>
        r := Held;
    }

    /** `try_as_untyped`: only looks; nothing is reserved. */
    method TryAsUntyped(frame: nat) returns (r: AsTypeResult)
      ensures r == if frame >= |words| then NoSuchFrame
                   else if EntryOf(frame).state == Untyped then Held
                   else NotExpectedState(EntryOf(frame).state)
    {
      if frame >= |words| {
        return NoSuchFrame;
      }
      var state := EntryOf(frame).state;
      r := if state == Untyped then Held else NotExpectedState(state);
    }

    /** `try_into_user` (kind User) and `try_into_kernel` (kind Kernel). */
    method TryInto(frame: nat, kind: State) returns (r: RetypeResult)
      requires Valid() && Typed(kind)
      modifies this
      ensures Valid() && |words| == old(|words|)
      ensures frame >= |words| ==> r == OutOfBounds
      ensures frame < |words| ==>
                var e := old(EntryOf(frame));
                r == if e.state == Untyped then Retyped else InvalidFromState(e.state)
      ensures r == Retyped ==> words == old(words)[frame := ValueFor(kind, 1)] && EntryOf(frame) == Entry(kind, 1)
      ensures r != Retyped ==> words == old(words)
    {
      if frame >= |words| {
        return OutOfBounds;
      }
      var (w, reply) := WordStep(words[frame], Retype(Untyped, kind, 0, 1));
      StepSimulates(words[frame], Retype(Untyped, kind, 0, 1));
      UnpackPack(kind, 1);
      words := words[frame := w];
      r := if reply.Rejected? then InvalidFromState(reply.found.state) else Retyped;
    }

    /** `try_into_untyped_from`. */
    method TryIntoUntypedFrom(frame: nat, from: State) returns (r: RetypeResult)
      requires Valid() && Typed(from)
      modifies this
      ensures Valid() && |words| == old(|words|)
      ensures frame >= |words| ==> r == OutOfBounds
      ensures frame < |words| ==>
                var e := old(EntryOf(frame));
                && r == (if e == Entry(from, 0) then Retyped
                         else if e.state == from then RefsExist(e.count) else InvalidFromState(e.state))
      ensures r == Retyped ==> words == old(words)[frame := ValueFor(Untyped, 0)] && EntryOf(frame) == Entry(Untyped, 0)
      ensures r != Retyped ==> words == old(words)
    {
      if frame >= |words| {
        return OutOfBounds;
      }
      var (w, reply) := WordStep(words[frame], Retype(from, Untyped, 0, 0));
      StepSimulates(words[frame], Retype(from, Untyped, 0, 0));
      UnpackPack(Untyped, 0);
      words := words[frame := w];
      match reply
      case Rejected(Entry(state, refs)) =>
        if state == Unavailable {
          assert refs == 0;  // the source's debug assertion
          r := InvalidFromState(Unavailable);
        } else if state == from {
          assert refs != 0;  // the source's debug assertion
          r := RefsExist(refs);
        } else {
          r := InvalidFromState(state);
        }
      case _ =>
        r := Retyped;
    }

    /**
     `try_into_untyped`: first as a user frame, then as a kernel frame.  A frame leaves use exactly
     when it is typed and unreferenced; a user frame still in use is reported by its state, and only
     a kernel frame still in use by its count.
     */
    method TryIntoUntyped(frame: nat) returns (r: RetypeResult)
      requires Valid()
      modifies this
      ensures Valid() && |words| == old(|words|)
      ensures frame >= |words| ==> r == OutOfBounds
      ensures frame < |words| ==>
                var e := old(EntryOf(frame));
                && (r == Retyped <==> Typed(e.state) && e.count == 0)
                && (r.RefsExist? <==> e.state == Kernel && e.count > 0)
                && (r.InvalidFromState? ==> r.state == e.state)
      ensures r == Retyped ==> words == old(words)[frame := ValueFor(Untyped, 0)] && EntryOf(frame) == Entry(Untyped, 0)
      ensures r != Retyped ==> words == old(words)
    {
      r := TryIntoUntypedFrom(frame, User);
      if r != Retyped {
        r := TryIntoUntypedFrom(frame, Kernel);
      }
    }
  }
}
