/**
 The exclusive-borrow cell (harmony/sync/src/cell/atomic_ref_cell.rs), used by any number of
 threads.  `borrow` and `borrow_mut` differ only in whether the guard may write.  A guard is named
 by a number; dropping it is one atomic swap, after which the source asserts what it swapped out.
 */
module RefCells {

  const FREE: nat := 0
  const BORROWED: nat := 1

  datatype Guard = Guard(thread: nat, writable: bool)

  datatype State<T> = State(borrow: nat, data: T, guards: map<nat, Guard>)

  datatype Step<T> =
    | Borrow(guard: nat, thread: nat, writable: bool)
    | Read(guard: nat)
    | Write(guard: nat, x: T)
    | Drop(guard: nat)

  datatype Reply<T> = Borrowed | AlreadyBorrowed | Saw(value: T) | Wrote | Dropped | AssertionFailed | Disabled

  function Next<T>(s: State<T>, step: Step<T>): (r: (State<T>, Reply<T>)) {
    match step
    case Borrow(g, thread, writable) =>
      if g in s.guards then (s, Disabled)
      else if s.borrow != FREE then (s, AlreadyBorrowed)
      else (s.(borrow := BORROWED, guards := s.guards[g := Guard(thread, writable)]), Borrowed)
    case Read(g) =>
      if g !in s.guards then (s, Disabled) else (s, Saw(s.data))
    case Write(g, x) =>
      if g !in s.guards || !s.guards[g].writable then (s, Disabled) else (s.(data := x), Wrote)
    case Drop(g) =>
      if g !in s.guards then (s, Disabled)
      else (s.(borrow := FREE, guards := s.guards - {g}), if s.borrow == BORROWED then Dropped else AssertionFailed)
  }

  predicate Run<T(==)>(s: State<T>, steps: seq<Step<T>>, s': State<T>)
    decreases |steps|
  {
    if steps == [] then s == s'
    else
      var (next, reply) := Next(s, steps[0]);
      reply != Disabled && reply != AssertionFailed && Run(next, steps[1..], s')
  }

  function Initial<T>(v: T): (s: State<T>) {
    State(FREE, v, map[])
  }

  ghost predicate Inv<T>(s: State<T>) {
    && (forall g, h :: g in s.guards && h in s.guards ==> g == h)
    && (s.borrow == BORROWED <==> exists g :: g in s.guards)
    && s.borrow <= BORROWED
  }

  lemma {:induction false} NextKeepsInv<T>(s: State<T>, step: Step<T>)
    requires Inv(s)
    ensures Inv(Next(s, step).0) && Next(s, step).1 != AssertionFailed
  {
  }

  lemma {:induction false} RunKeepsInv<T>(s: State<T>, steps: seq<Step<T>>, s': State<T>)
    requires Inv(s) && Run(s, steps, s')
    ensures Inv(s')
    decreases |steps|
  {
    if steps != [] {
      NextKeepsInv(s, steps[0]);
      RunKeepsInv(Next(s, steps[0]).0, steps[1..], s');
    }
  }

  /**
   In every interleaving there is at most one guard, a borrow is refused exactly while there is one,
   and no drop of a guard fails its assertion.  A guard reads the data, writes it if it may, and
   dropped leaves the cell free.
   */
  lemma {:induction false} AtMostOneGuard<T>(v: T, steps: seq<Step<T>>, s: State<T>)
    requires Run(Initial(v), steps, s)
    ensures forall g, h :: g in s.guards && h in s.guards ==> g == h
    ensures forall step: Step<T> :: Next(s, step).1 != AssertionFailed
    ensures forall g, t, w :: g !in s.guards ==>
              Next(s, Borrow(g, t, w)) == if |s.guards| > 0 then (s, AlreadyBorrowed)
                                          else (State(BORROWED, s.data, map[g := Guard(t, w)]), Borrowed)
    ensures forall g :: g in s.guards ==> Next(s, Read(g)) == (s, Saw(s.data))
    ensures forall g :: g in s.guards ==> Next(s, Drop(g)) == (State(FREE, s.data, map[]), Dropped)
    ensures forall g, x :: g in s.guards ==>
              Next(s, Write(g, x)) == if s.guards[g].writable then (s.(data := x), Wrote) else (s, Disabled)
  {
    RunKeepsInv(Initial(v), steps, s);
    forall step: Step<T> ensures Next(s, step).1 != AssertionFailed {
      NextKeepsInv(s, step);
    }
    if g :| g in s.guards {
      assert |s.guards.Keys| > 0;
    } else {
      assert s.guards == map[];
    }
  }

  /** What guard `g` wrote last in these steps, or `v`. */
  function LastWrite<T>(g: nat, steps: seq<Step<T>>, v: T): (r: T) {
    if steps == [] then v else
    LastWrite(g, steps[1..], if steps[0].Write? && steps[0].guard == g then steps[0].x else v)
  }

  /** While a guard lives nobody else writes: its holder finds what it wrote last, or what it found at first. */
  lemma {:induction false} GuardIsExclusive<T>(s: State<T>, steps: seq<Step<T>>, s': State<T>, g: nat)
    requires Inv(s) && g in s.guards && Run(s, steps, s')
    requires forall i :: 0 <= i < |steps| ==> steps[i] != Drop(g)
    ensures g in s'.guards && s'.guards[g] == s.guards[g] && s'.data == LastWrite(g, steps, s.data)
    decreases |steps|
  {
    if steps != [] {
      NextKeepsInv(s, steps[0]);
      GuardIsExclusive(Next(s, steps[0]).0, steps[1..], s', g);
    }
  }
}
