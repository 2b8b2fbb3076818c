/**
 The bump allocator over the retype table (harmony/kernel/src/bump_allocator.rs).

 An allocator is only a cursor: what keeps two allocators from handing out the same frame is the
 compare-exchange out of Untyped.  `AllocFrame` is proved for one call; the second half of the
 module interleaves the loop iterations of any number of allocators with each other and with the
 rest of the kernel.
 */
module FrameAllocators {
  import opened Layout
  import opened Wrappers
  import opened RetypeEntries
  import opened RetypeTables

  predicate IsUntyped(words: seq<Word>, f: nat)
    requires f < |words|
  {
    ValueInto(words[f]).state == Untyped
  }

  /** `f` is the lowest untyped frame at or above `from`. */
  predicate LowestUntyped(words: seq<Word>, from: nat, f: nat) {
    from <= f < |words| && IsUntyped(words, f) && forall g :: from <= g < f ==> !IsUntyped(words, g)
  }

  predicate Exhausted(words: seq<Word>, from: nat) {
    forall g :: from <= g < |words| ==> !IsUntyped(words, g)
  }

  /** The frame the next allocation finds, if any. */
  function FindUntyped(words: seq<Word>, from: nat): (r: Option<nat>)
    ensures r.Some? ==> LowestUntyped(words, from, r.value)
    ensures r.None? <==> Exhausted(words, from)
    ensures r.None? <==> UntypedFrom(words, from) == 0
    decreases |words| - from
  {
    if from >= |words| then None else if IsUntyped(words, from) then Some(from) else FindUntyped(words, from + 1)
  }

  /** The table after frame `f` was claimed. */
  function Claimed(words: seq<Word>, f: nat, kind: State): (r: seq<Word>)
    requires f < |words|
  {
    words[f := ValueFor(kind, 1)]
  }

  class BumpAllocator {
    var index: nat

    constructor ()
      ensures index == 0
    {
      index := 0;
    }

    /** `alloc_user_frame` (kind User) and `alloc_kernel_frame` (kind Kernel). */
    method AllocFrame(table: RetypeTable, kind: State) returns (r: Option<nat>)
      requires table.Valid() && Typed(kind) && index <= |table.words|
      modifies this, table
      ensures table.Valid() && old(index) <= index <= |table.words| == old(|table.words|)
      ensures r == FindUntyped(old(table.words), old(index))
      ensures r.Some? ==> index == r.value && table.words == Claimed(old(table.words), r.value, kind)
      ensures r.None? ==> index == |table.words| && table.words == old(table.words)
    {
      var attempt := table.TryInto(index, kind);
      while attempt.InvalidFromState?
        invariant table.Valid() && |table.words| == old(|table.words|)
        invariant old(index) <= index <= |table.words|
        invariant forall g :: old(index) <= g < index ==> !IsUntyped(old(table.words), g)
        invariant attempt != Retyped ==> table.words == old(table.words)
        invariant attempt == Retyped ==>
                    && index < |table.words| && IsUntyped(old(table.words), index)
                    && table.words == old(table.words)[index := ValueFor(kind, 1)]
                    && table.EntryOf(index) == Entry(kind, 1)
        invariant attempt == OutOfBounds <==> index == |table.words|
        invariant !attempt.RefsExist?
        invariant attempt.InvalidFromState? ==> !IsUntyped(old(table.words), index)
        decreases |table.words| - index
      {
        index := index + 1;
        assert FRAME_SIZE * index < 0x10_0000_0000_0000;  // `PhysAddr::new` accepts the address
        attempt := table.TryInto(index, kind);
      }
      FoundAt(old(table.words), old(index), index);
      r := if attempt == OutOfBounds then None else Some(index);
    }

    /** `alloc_untyped_frame`: finds the frame a later retype may claim, and claims nothing. */
    method AllocUntypedFrame(table: RetypeTable) returns (r: Option<nat>)
      requires index <= |table.words|
      modifies this
      ensures r == FindUntyped(table.words, old(index))
      ensures index == if r.Some? then r.value else |table.words|
    {
      var attempt := table.TryAsUntyped(index);
      while attempt.NotExpectedState?
        invariant old(index) <= index <= |table.words|
        invariant forall g :: old(index) <= g < index ==> !IsUntyped(table.words, g)
        invariant attempt == NoSuchFrame <==> index == |table.words|
        invariant index < |table.words| ==> (attempt == Held <==> IsUntyped(table.words, index))
        invariant attempt != TooManyRefs
        decreases |table.words| - index
      {
        index := index + 1;
        attempt := table.TryAsUntyped(index);
      }
      FoundAt(table.words, old(index), index);
      r := if attempt == Held then Some(index) else None;
    }
  }

  /** A scan that skipped typed frames only has found what `FindUntyped` finds. */
  lemma {:induction false} FoundAt(words: seq<Word>, from: nat, to: nat)
    requires from <= to <= |words|
    requires forall g :: from <= g < to ==> !IsUntyped(words, g)
    requires to < |words| ==> IsUntyped(words, to)
    ensures FindUntyped(words, from) == if to < |words| then Some(to) else None
    decreases |words| - from
  {
  }

  /** Words below `from` do not matter to what is left above it. */
  lemma {:induction false} SameAbove(words: seq<Word>, words': seq<Word>, from: nat)
    requires |words| == |words'| && forall g :: from <= g < |words| ==> words[g] == words'[g]
    ensures UntypedFrom(words, from) == UntypedFrom(words', from)
    decreases |words| - from
  {
    if from < |words| {
      SameAbove(words, words', from + 1);
    }
  }

  /** Each allocation uses up exactly one of the untyped frames at or above the cursor. */
  lemma {:induction false} ClaimUsesOne(words: seq<Word>, from: nat, kind: State)
    requires FindUntyped(words, from).Some? && Typed(kind)
    ensures var f := FindUntyped(words, from).value;
            UntypedFrom(Claimed(words, f, kind), f) + 1 == UntypedFrom(words, from)
    decreases |words| - from
  {
    if IsUntyped(words, from) {
      UnpackPack(kind, 1);
      SameAbove(words, Claimed(words, from, kind), from + 1);
    } else {
      ClaimUsesOne(words, from + 1, kind);
    }
  }

  // Interleaved allocators

  /** `given` lists the frames handed out so far, oldest first. */
  datatype Pool = Pool(words: seq<Word>, cursors: map<nat, nat>, given: seq<nat>)

  datatype Move =
    | Start(allocator: nat)
    | Try(allocator: nat, kind: State)
    | Elsewhere(frame: nat, word: Word)

  /** Nothing is said about the rest of the kernel except that it returns no frame to Untyped. */
  predicate Allowed(p: Pool, m: Move) {
    match m
    case Start(a) => a !in p.cursors
    case Try(a, kind) => a in p.cursors && Typed(kind)
    case Elsewhere(f, w) => f < |p.words| && ValueInto(w).state != Untyped
  }

  /** One iteration of an allocation loop, or one update by somebody else. */
  function Apply(p: Pool, m: Move): (r: Pool)
    requires Allowed(p, m)
  {
    match m
    case Start(a) => p.(cursors := p.cursors[a := 0])
    case Elsewhere(f, w) => p.(words := p.words[f := w])
    case Try(a, kind) =>
      var c := p.cursors[a];
      if c >= |p.words| then p else
      var (w, reply) := WordStep(p.words[c], Retype(Untyped, kind, 0, 1));
      if reply == Accepted then p.(words := p.words[c := w], given := p.given + [c])
      else p.(cursors := p.cursors[a := c + 1])
  }

  ghost predicate Plays(p: Pool, moves: seq<Move>, last: Pool)
    decreases |moves|
  {
    if moves == [] then p == last else Allowed(p, moves[0]) && Plays(Apply(p, moves[0]), moves[1..], last)
  }

  predicate Distinct(s: seq<nat>) { forall i, j :: 0 <= i < j < |s| ==> s[i] != s[j] }

  /** Untyped frames were untyped all along and are unreferenced. */
  predicate StillUntyped(words: seq<Word>, origin: seq<Word>) {
    && |words| == |origin|
    && forall f :: 0 <= f < |words| && IsUntyped(words, f) ==> IsUntyped(origin, f) && ValueInto(words[f]).count == 0
  }

  /** Frames handed out are out of Untyped for good, and so is every frame a cursor has passed. */
  predicate PoolInv(p: Pool, origin: seq<Word>) {
    && StillUntyped(p.words, origin) && Distinct(p.given)
    && (forall f :: f in p.given ==> f < |p.words| && IsUntyped(origin, f) && !IsUntyped(p.words, f))
    && (forall a :: a in p.cursors ==> p.cursors[a] <= |p.words|)
    && (forall a, g :: a in p.cursors && 0 <= g < p.cursors[a] ==> !IsUntyped(p.words, g))
  }

  lemma {:induction false} ApplyKeepsInv(p: Pool, m: Move, origin: seq<Word>)
    requires PoolInv(p, origin) && Allowed(p, m)
    ensures PoolInv(Apply(p, m), origin)
  {
    var q := Apply(p, m);
    if m.Try? && p.cursors[m.allocator] < |p.words| {
      StepSimulates(p.words[p.cursors[m.allocator]], Retype(Untyped, m.kind, 0, 1));
    }
    forall a, g | a in q.cursors && 0 <= g < q.cursors[a] ensures !IsUntyped(q.words, g) {
      assert a in p.cursors && g < p.cursors[a] ==> !IsUntyped(p.words, g);
    }
  }

  lemma {:induction false} PlaysKeepInv(p: Pool, moves: seq<Move>, last: Pool, origin: seq<Word>)
    requires PoolInv(p, origin) && Plays(p, moves, last)
    ensures PoolInv(last, origin)
    decreases |moves|
  {
    if moves != [] {
      ApplyKeepsInv(p, moves[0], origin);
      PlaysKeepInv(Apply(p, moves[0]), moves[1..], last, origin);
    }
  }

  /**
   However the loop iterations of any number of allocators interleave, no frame is handed out twice,
   only frames that started untyped are handed out, and an allocator that has run off the end proves
   that no untyped frame is left anywhere.
   */
  lemma {:induction false} NoFrameGivenTwice(words: seq<Word>, moves: seq<Move>, last: Pool)
    requires IdleHaveNoRefs(words) && Plays(Pool(words, map[], []), moves, last)
    ensures Distinct(last.given) && |last.words| == |words|
    ensures forall f :: f in last.given ==> f < |words| && IsUntyped(words, f) && !IsUntyped(last.words, f)
    ensures forall a :: a in last.cursors && last.cursors[a] >= |words| ==> Exhausted(last.words, 0)
  {
    PlaysKeepInv(Pool(words, map[], []), moves, last, words);
  }

  /**
   What one iteration does, in every interleaving: at an untyped frame it claims that frame and hands
   it out, at any other it steps on, and past the end it does nothing.
   */
  lemma {:induction false} IterationDoes(words: seq<Word>, moves: seq<Move>, p: Pool, a: nat, kind: State)
    requires IdleHaveNoRefs(words) && Plays(Pool(words, map[], []), moves, p) && a in p.cursors && Typed(kind)
    ensures var (q, c) := (Apply(p, Try(a, kind)), p.cursors[a]);
            if c >= |p.words| then q == p
            else if IsUntyped(p.words, c) then q == Pool(Claimed(p.words, c, kind), p.cursors, p.given + [c])
            else q == Pool(p.words, p.cursors[a := c + 1], p.given)
    ensures var c := p.cursors[a]; c < |p.words| ==> ValueInto(Claimed(p.words, c, kind)[c]) == Entry(kind, 1)
    ensures forall b :: b !in p.cursors ==> Apply(p, Start(b)) == Pool(p.words, p.cursors[b := 0], p.given)
  {
    PlaysKeepInv(Pool(words, map[], []), moves, p, words);
    var c := p.cursors[a];
    UnpackPack(kind, 1);
    UnpackPack(Untyped, 0);
    if c < |p.words| {
      UnpackInjective(p.words[c], ValueFor(Untyped, 0));
    }
    hide ValueFor, ValueInto;
  }

  /**
   In every interleaving, an iteration that hands out a frame hands out the lowest untyped frame of
   the whole table at that moment, whichever allocator it is and wherever the others stand.
   */
  lemma {:induction false} LowestIsGiven(words: seq<Word>, moves: seq<Move>, p: Pool, m: Move)
    requires IdleHaveNoRefs(words) && Plays(Pool(words, map[], []), moves, p) && m.Try? && Allowed(p, m)
    ensures var q := Apply(p, m);
            || q.given == p.given
            || (LowestUntyped(p.words, 0, p.cursors[m.allocator]) && q.given == p.given + [p.cursors[m.allocator]])
  {
    PlaysKeepInv(Pool(words, map[], []), moves, p, words);
    var c := p.cursors[m.allocator];
    if c < |p.words| {
      StepSimulates(p.words[c], Retype(Untyped, m.kind, 0, 1));
    }
  }
}
