/**
 The 16-bit word the kernel keeps for one physical frame (harmony/kernel/src/retyping.rs).

 A word packs a 2-bit state and a 14-bit reference count.  Every kernel operation on it is one
 atomic read-modify-write, so it is modelled as one step from a word to a word and a reply.
 Beside it stands the machine the design describes, which works on an unpacked (state, count)
 pair; the lemmas say exactly when the packed word behaves like the pair.
 */
module RetypeEntries {

  datatype State = Unavailable | Untyped | User | Kernel

  const COUNTER_SPAN: nat := 0x4000
  const MAX_REF_COUNT: nat := 0x3FFF

  type Word = w: nat | w < 0x1_0000

  /** What the word stands for. */
  datatype Entry = Entry(state: State, count: nat)

  datatype Op =
    | Increment
    | Decrement
    | GetAsAndIncrement(wants: State)
    | Retype(from: State, to: State, fromCount: nat, toCount: nat)

  /** `Counted` carries the count before the update, `Rejected` the entry that was found. */
  datatype Reply = Counted(before: nat) | MaxRefs | NoRefs | Accepted | Rejected(found: Entry)

  function StateCode(s: State): (code: nat)
    ensures code < 4
  {
    match s
    case Unavailable => 0
    case Untyped => 1
    case User => 2
    case Kernel => 3
  }

  function StateOf(code: nat): (s: State)
    requires code < 4
    ensures StateCode(s) == code
  {
    if code == 0 then Unavailable else if code == 1 then Untyped else if code == 2 then User else Kernel
  }

  /** `value_for`: the reduction modulo MAX_REF_COUNT (not the span) is the source's. */
  function ValueFor(state: State, counter: nat): (w: Word)
    requires counter <= MAX_REF_COUNT
  {
    StateCode(state) * COUNTER_SPAN + counter % MAX_REF_COUNT
  }

  /** `value_into`. */
  function ValueInto(w: Word): (e: Entry)
    ensures e.count <= MAX_REF_COUNT
  {
    Entry(StateOf(w / COUNTER_SPAN), w % COUNTER_SPAN)
  }

  predicate WellFormedOp(op: Op) {
    op.Retype? ==> op.fromCount < MAX_REF_COUNT && op.toCount < MAX_REF_COUNT
  }

  /** One atomic update as the code performs it on the packed word. */
  function WordStep(w: Word, op: Op): (r: (Word, Reply))
    requires WellFormedOp(op)
  {
    var e := ValueInto(w);
    match op
    case Increment =>
      if e.count == MAX_REF_COUNT then (w, MaxRefs) else ((w + 1) % 0x1_0000, Counted(e.count))
    case Decrement =>
      if e.count == 0 then (w, NoRefs) else (w - 1, Counted(e.count))
    case GetAsAndIncrement(wants) =>
      if wants == e.state && e.count < MAX_REF_COUNT then (ValueFor(e.state, e.count + 1), Accepted)
      else (w, Rejected(e))
    case Retype(from, to, fromCount, toCount) =>
      if w == ValueFor(from, fromCount) then (ValueFor(to, toCount), Accepted) else (w, Rejected(e))
  }

  /** The same update as the design describes it, on the unpacked pair. */
  function EntryStep(e: Entry, op: Op): (r: (Entry, Reply)) {
    match op
    case Increment =>
      if e.count == MAX_REF_COUNT then (e, MaxRefs) else (e.(count := e.count + 1), Counted(e.count))
    case Decrement =>
      if e.count == 0 then (e, NoRefs) else (e.(count := e.count - 1), Counted(e.count))
    case GetAsAndIncrement(wants) =>
      if wants == e.state && e.count < MAX_REF_COUNT then (e.(count := e.count + 1), Accepted)
      else (e, Rejected(e))
    case Retype(from, to, fromCount, toCount) =>
      if e == Entry(from, fromCount) then (Entry(to, toCount), Accepted) else (e, Rejected(e))
  }

  /** The single step on which packing loses the count: a typed acquire one short of the maximum. */
  predicate Wraps(w: Word, op: Op) {
    op.GetAsAndIncrement? && ValueInto(w) == Entry(op.wants, MAX_REF_COUNT - 1)
  }

  /** Packing then unpacking is the identity exactly below the maximum count. */
  lemma {:induction false} UnpackPack(state: State, counter: nat)
    requires counter <= MAX_REF_COUNT
    ensures ValueInto(ValueFor(state, counter)) == Entry(state, counter) <==> counter < MAX_REF_COUNT
    ensures counter == MAX_REF_COUNT ==> ValueInto(ValueFor(state, counter)) == Entry(state, 0)
  {
  }

  /** The state is in the top two bits, the count below: a zeroed word is an unavailable frame. */
  lemma {:induction false} WordLayout(state: State, counter: nat)
    requires counter < 0x3FFF
    ensures ValueFor(state, counter) == counter + match state
                                                  case Unavailable => 0
                                                  case Untyped => 0x4000
                                                  case User => 0x8000
                                                  case Kernel => 0xC000
  {
  }

  /** Unpacking loses nothing: two words with the same state and count are the same word. */
  lemma {:induction false} UnpackInjective(v: Word, w: Word)
    ensures ValueInto(v) == ValueInto(w) ==> v == w
  {
  }

  /** +1 and -1 on the packed word never reach the state bits. */
  lemma {:induction false} CounterStaysInField(w: Word)
    ensures w % COUNTER_SPAN < MAX_REF_COUNT ==>
              w + 1 < 0x1_0000 && ValueInto(w + 1) == Entry(ValueInto(w).state, ValueInto(w).count + 1)
    ensures w % COUNTER_SPAN > 0 ==>
              w >= 1 && ValueInto(w - 1) == Entry(ValueInto(w).state, ValueInto(w).count - 1)
  {
  }

  /** One step of the packed word is one step of the pair exactly when it does not wrap. */
  lemma {:induction false} StepSimulates(w: Word, op: Op)
    requires WellFormedOp(op)
    ensures WordStep(w, op).1 == EntryStep(ValueInto(w), op).1
    ensures ValueInto(WordStep(w, op).0) == EntryStep(ValueInto(w), op).0 <==> !Wraps(w, op)
    ensures Wraps(w, op) ==> ValueInto(WordStep(w, op).0) == Entry(op.wants, 0)
  {
    var e := ValueInto(w);
    match op
    case Increment =>
      CounterStaysInField(w);
    case Decrement =>
      CounterStaysInField(w);
    case GetAsAndIncrement(wants) =>
      if wants == e.state && e.count < MAX_REF_COUNT {
        UnpackPack(e.state, e.count + 1);
      }
    case Retype(from, to, fromCount, toCount) =>
      UnpackPack(from, fromCount);
      UnpackPack(to, toCount);
      UnpackInjective(w, ValueFor(from, fromCount));
  }

  // Whole runs

  function WordRun(w: Word, ops: seq<Op>): (r: Word)
    requires forall op :: op in ops ==> WellFormedOp(op)
    decreases |ops|
  {
    if ops == [] then w else WordRun(WordStep(w, ops[0]).0, ops[1..])
  }

  function EntryRun(e: Entry, ops: seq<Op>): (r: Entry)
    decreases |ops|
  {
    if ops == [] then e else EntryRun(EntryStep(e, ops[0]).0, ops[1..])
  }

  /** No step of the run is a typed acquire of a frame whose count is one short of the maximum. */
  predicate NeverWraps(w: Word, ops: seq<Op>)
    requires forall op :: op in ops ==> WellFormedOp(op)
    decreases |ops|
  {
    ops == [] || (!Wraps(w, ops[0]) && NeverWraps(WordStep(w, ops[0]).0, ops[1..]))
  }

  /** After every prefix of the run the word stands for the pair. */
  ghost predicate Tracks(w: Word, ops: seq<Op>)
    requires forall op :: op in ops ==> WellFormedOp(op)
  {
    forall k :: 0 <= k <= |ops| ==> ValueInto(WordRun(w, ops[..k])) == EntryRun(ValueInto(w), ops[..k])
  }

  /** The packed entry simulates the (state, count) machine over a run if and only if no step wraps. */
  lemma {:induction false} RunSimulates(w: Word, ops: seq<Op>)
    requires forall op :: op in ops ==> WellFormedOp(op)
    ensures Tracks(w, ops) <==> NeverWraps(w, ops)
    decreases |ops|
  {
    if ops == [] {
      assert ops[..0] == [];
    } else {
      var next := WordStep(w, ops[0]).0;
      StepSimulates(w, ops[0]);
      RunSimulates(next, ops[1..]);
      forall k | 1 <= k <= |ops|
        ensures WordRun(w, ops[..k]) == WordRun(next, ops[1..][..k - 1])
        ensures EntryRun(ValueInto(w), ops[..k]) == EntryRun(EntryStep(ValueInto(w), ops[0]).0, ops[1..][..k - 1])
      {
        assert ops[..k][1..] == ops[1..][..k - 1];
      }
      if Wraps(w, ops[0]) {
        assert ops[1..][..0] == [];
        assert ValueInto(WordRun(w, ops[..1])) != EntryRun(ValueInto(w), ops[..1]);
      } else {
        forall k | 0 <= k <= |ops[1..]|
          ensures ValueInto(WordRun(next, ops[1..][..k])) == EntryRun(ValueInto(next), ops[1..][..k]) <==>
                  ValueInto(WordRun(w, ops[..k + 1])) == EntryRun(ValueInto(w), ops[..k + 1])
        {
        }
        if Tracks(next, ops[1..]) {
          forall k | 0 <= k <= |ops|
            ensures ValueInto(WordRun(w, ops[..k])) == EntryRun(ValueInto(w), ops[..k])
          {
            if k > 0 {
              assert ValueInto(WordRun(next, ops[1..][..k - 1])) == EntryRun(ValueInto(next), ops[1..][..k - 1]);
            }
          }
        }
      }
    }
  }

  /** The wrap happens: an acquire that the code accepts leaves the frame with no references. */
  lemma {:induction false} WrapExample()
    ensures var w := ValueFor(User, MAX_REF_COUNT - 1);
            WordStep(w, GetAsAndIncrement(User)) == (ValueFor(User, 0), Accepted)
  {
  }
}
