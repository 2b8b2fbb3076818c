/**
 The once cell and the lazy cell built on it (harmony/sync/src/cell/atomic_once_cell.rs and
 atomic_lazy_cell.rs), used by any number of threads.

 Each atomic operation and each access to the unprotected fields `value` and `fun` is one step.
 A step that would read uninitialised memory, or reach one of the two panics, ends the run with
 `Broken`; the theorem is that none does.  `written` lists the values ever written, `replies` what
 calls returned.
 */
module OnceCells {
  import opened Wrappers

  datatype Phase<T> =
    | Entering(x: T)   // `set_with`, before the compare-and-exchange; the closure will return `x`
    | Writing(x: T)    // won the exchange
    | Publishing(lazy: bool)
    | Loading(lazy: bool)  // `get`, or the loop of the lazy `get`, before the load of `init`
    | Reading(lazy: bool)  // the load gave 2
    | LazyEntering         // the lazy `get`, before the compare-and-exchange
    | Taking               // won it, about to take the closure
    | Calling              // has taken the closure, about to call it and write

  datatype Reply<T> = SetOk | Initializing | AlreadyInit | Got(value: T) | NotYet

  datatype State<T> = State(init: nat, value: Option<T>, fun: bool, threads: map<nat, Phase<T>>,
                            written: seq<T>, replies: seq<Reply<T>>)

  /** `SetWith`, `Get` and `LazyGet` start a call; `Go` is the next step of a call, in which a closure may return `x`. */
  datatype Step<T> = SetWith(t: nat, x: T) | Get(t: nat) | LazyGet(t: nat) | Go(t: nat, x: T)

  datatype Outcome<T> = Running(s: State<T>) | Broken | Disabled

  function Move<T>(s: State<T>, t: nat, p: Phase<T>): (r: State<T>) {
    s.(threads := s.threads[t := p])
  }

  function Return<T>(s: State<T>, t: nat, reply: Reply<T>): (r: State<T>) {
    s.(threads := s.threads - {t}, replies := s.replies + [reply])
  }

  function Begin<T>(s: State<T>, t: nat, p: Phase<T>): (r: Outcome<T>) {
    if t in s.threads then Disabled else Running(Move(s, t, p))
  }

  function Next<T>(s: State<T>, step: Step<T>): (r: Outcome<T>) {
    match step
    case SetWith(t, x) => Begin(s, t, Entering(x))
    case Get(t) => Begin(s, t, Loading(false))
    case LazyGet(t) => Begin(s, t, LazyEntering)
    case Go(t, x) =>
      if t !in s.threads then Disabled else
      match s.threads[t]
      case Entering(v) =>
        if s.init == 0 then Running(Move(s, t, Writing(v)).(init := 1))
        else if s.init == 1 then Running(Return(s, t, Initializing))
        else if s.init == 2 then Running(Return(s, t, AlreadyInit))
        else Broken
      case Writing(v) => Running(Move(s, t, Publishing(false)).(value := Some(v), written := s.written + [v]))
      case Publishing(lazy) =>
        if lazy then Running(Move(s, t, Loading(true)).(init := 2))
        else Running(Return(s, t, SetOk).(init := 2))
      case Loading(lazy) =>
        if s.init == 2 then Running(Move(s, t, Reading(lazy)))
        else if lazy then Running(s)
        else Running(Return(s, t, NotYet))
      case Reading(lazy) => if s.value.None? then Broken else Running(Return(s, t, Got(s.value.value)))
      case LazyEntering =>
        if s.init == 0 then Running(Move(s, t, Taking).(init := 1))
        else if s.init <= 2 then Running(Move(s, t, Loading(true)))
        else Broken
      case Taking => if s.fun then Running(Move(s, t, Calling).(fun := false)) else Broken
      case Calling => Running(Move(s, t, Publishing(true)).(value := Some(x), written := s.written + [x]))
  }

  predicate Run<T(==)>(s: State<T>, steps: seq<Step<T>>, s': State<T>)
    decreases |steps|
  {
    if steps == [] then s == s'
    else var n := Next(s, steps[0]); n.Running? && Run(n.s, steps[1..], s')
  }

  function Initial<T>(): (s: State<T>) {
    State(0, None, true, map[], [], [])
  }

  /** Past the compare-and-exchange and not yet done. */
  ghost predicate Owns<T>(s: State<T>, t: nat) {
    t in s.threads &&
    (s.threads[t].Writing? || s.threads[t].Publishing? || s.threads[t].Taking? || s.threads[t].Calling?)
  }

  /** What the phase of a thread says about the cell. */
  ghost predicate ThreadOk<T>(s: State<T>, t: nat) {
    t in s.threads ==>
      match s.threads[t]
      case Writing(_) => s.init == 1 && s.written == []
      case Taking => s.init == 1 && s.written == [] && s.fun
      case Calling => s.init == 1 && s.written == []
      case Publishing(_) => s.init == 1 && s.written != []
      case Reading(_) => s.init == 2
      case _ => true
  }

  ghost predicate ReplyOk<T>(s: State<T>, reply: Reply<T>) {
    match reply
    case Got(v) => s.init == 2 && s.written == [v]
    case SetOk => s.init == 2
    case AlreadyInit => s.init == 2
    case Initializing => s.init != 0
    case NotYet => true
  }

  ghost predicate CellOk<T>(s: State<T>) {
    && s.init <= 2 && |s.written| <= 1
    && (if s.written == [] then s.value == None else s.value == Some(s.written[0]))
    && (s.init == 0 ==> s.fun && s.written == [])
    && (s.init == 2 ==> s.written != [])
  }

  ghost predicate OneOwner<T>(s: State<T>) {
    && (forall t, u :: Owns(s, t) && Owns(s, u) ==> t == u)
    && (s.init == 1 ==> exists t :: Owns(s, t))
  }

  /** `set_with` succeeds once. */
  ghost predicate OneSet<T>(s: State<T>) {
    forall i, j :: 0 <= i < j < |s.replies| ==> !(s.replies[i].SetOk? && s.replies[j].SetOk?)
  }

  ghost predicate Inv<T>(s: State<T>) {
    && OneSet(s) && CellOk(s) && OneOwner(s) && (forall t :: ThreadOk(s, t))
    && (forall i :: 0 <= i < |s.replies| ==> ReplyOk(s, s.replies[i]))
  }

  /** The thread that moves. */
  lemma {:induction false} MoverOk<T>(s: State<T>, step: Step<T>)
    requires Inv(s)
    ensures Next(s, step) != Broken
    ensures Next(s, step).Running? ==>
              var s' := Next(s, step).s;
              CellOk(s') && ThreadOk(s', step.t) && s.init <= s'.init <= s.init + 1
  {
    assert ThreadOk(s, step.t);
  }

  lemma {:induction false} OthersOk<T>(s: State<T>, step: Step<T>, t: nat)
    requires Inv(s) && Next(s, step).Running? && t != step.t
    ensures ThreadOk(Next(s, step).s, t)
    ensures Owns(Next(s, step).s, t) <==> Owns(s, t)
    ensures !(Owns(Next(s, step).s, t) && Owns(Next(s, step).s, step.t))
  {
    assert ThreadOk(s, step.t) && ThreadOk(s, t);
    if Owns(s, step.t) {
      assert !Owns(s, t);
    }
  }

  lemma {:induction false} RepliesOk<T>(s: State<T>, step: Step<T>, i: nat)
    requires Inv(s) && Next(s, step).Running? && i < |Next(s, step).s.replies|
    ensures ReplyOk(Next(s, step).s, Next(s, step).s.replies[i])
  {
    assert ThreadOk(s, step.t);
    if i < |s.replies| {
      assert ReplyOk(s, s.replies[i]);
    }
  }

  lemma {:induction false} OneSetKept<T>(s: State<T>, step: Step<T>)
    requires Inv(s) && Next(s, step).Running?
    ensures OneSet(Next(s, step).s)
  {
    assert ThreadOk(s, step.t);
    forall i | 0 <= i < |s.replies| && s.replies[i].SetOk? ensures s.init == 2 {
      assert ReplyOk(s, s.replies[i]);
    }
  }

  lemma {:induction false} OwnerKept<T>(s: State<T>, step: Step<T>)
    requires Inv(s) && Next(s, step).Running?
    ensures OneOwner(Next(s, step).s)
  {
    hide ReplyOk;
    var s' := Next(s, step).s;
    assert ThreadOk(s, step.t);
    forall t | t != step.t ensures (Owns(s', t) <==> Owns(s, t)) && !(Owns(s', t) && Owns(s', step.t)) {
      OthersOk(s, step, t);
    }
    assert forall t, u :: Owns(s', t) && Owns(s', u) ==> t == u;
    if s'.init == 1 {
      if s.init == 1 {
        var t :| Owns(s, t);
        assert Owns(s', t);
      } else {
        assert Owns(s', step.t);
      }
    }
  }

  /** No step breaks, the invariant is kept, and `init` moves up by at most one. */
  lemma {:induction false} NextKeepsInv<T>(s: State<T>, step: Step<T>)
    requires Inv(s)
    ensures Next(s, step) != Broken
    ensures Next(s, step).Running? ==> Inv(Next(s, step).s) && s.init <= Next(s, step).s.init <= s.init + 1
  {
    hide OneSet, CellOk, ThreadOk, OneOwner, ReplyOk, Next;
    MoverOk(s, step);
    if Next(s, step).Running? {
      var s' := Next(s, step).s;
      OneSetKept(s, step);
      OwnerKept(s, step);
      forall t ensures ThreadOk(s', t) {
        if t != step.t {
          OthersOk(s, step, t);
        }
      }
      forall i | 0 <= i < |s'.replies| ensures ReplyOk(s', s'.replies[i]) {
        RepliesOk(s, step, i);
      }
    }
  }

  lemma {:induction false} RunKeepsInv<T>(s: State<T>, steps: seq<Step<T>>, s': State<T>)
    requires Inv(s) && Run(s, steps, s')
    ensures Inv(s') && s.init <= s'.init
    decreases |steps|
  {
    hide Next, Inv;
    if steps != [] {
      NextKeepsInv(s, steps[0]);
      RunKeepsInv(Next(s, steps[0]).s, steps[1..], s');
    }
  }

  /**
   In every interleaving of any number of threads: at most one initialiser ever writes, at most one
   `set_with` succeeds, at most one thread is initialising, every value that any `get` returned is the one
   written, and no next step
   reads the value unwritten, finds the closure gone or meets an unknown state.
   */
  lemma {:induction false} OnceAndForAll<T>(steps: seq<Step<T>>, s: State<T>)
    requires Run(Initial(), steps, s)
    ensures s.init <= 2 && |s.written| <= 1
    ensures forall t, u :: Owns(s, t) && Owns(s, u) ==> t == u
    ensures forall i :: 0 <= i < |s.replies| && s.replies[i].Got? ==> s.written == [s.replies[i].value]
    ensures forall i, j :: 0 <= i < j < |s.replies| ==> !(s.replies[i].SetOk? && s.replies[j].SetOk?)
    ensures s.init == 2 <==> s.written != [] && forall t :: !Owns(s, t)
    ensures forall step: Step<T> :: Next(s, step) != Broken
  {
    RunKeepsInv(Initial(), steps, s);
    forall i | 0 <= i < |s.replies| && s.replies[i].Got? ensures s.written == [s.replies[i].value] {
      assert ReplyOk(s, s.replies[i]);
    }
    if s.init == 2 {
      forall t ensures !Owns(s, t) {
        assert ThreadOk(s, t);
      }
    }
    forall step: Step<T> ensures Next(s, step) != Broken {
      NextKeepsInv(s, step);
    }
  }

  /** Once `init` is 2 a call returns the value, or that there is one: no `get` is told that there is none yet. */
  lemma {:induction false} AfterInit<T>(s: State<T>, steps: seq<Step<T>>, s': State<T>, i: nat)
    requires Inv(s) && s.init == 2 && Run(s, steps, s') && |s.replies| <= i < |s'.replies|
    ensures s'.replies[i] == AlreadyInit || s'.replies[i] == Got(s.written[0])
    decreases |steps|
  {
    hide OneSet, OneOwner, ReplyOk;
    var n := Next(s, steps[0]).s;
    assert ThreadOk(s, steps[0].t);
    NextKeepsInv(s, steps[0]);
    if |n.replies| <= i {
      AfterInit(n, steps[1..], s', i);
    } else {
      RepliesOnlyGrow(n, steps[1..], s');
    }
  }

  lemma {:induction false} RepliesOnlyGrow<T>(s: State<T>, steps: seq<Step<T>>, s': State<T>)
    requires Run(s, steps, s')
    ensures s.replies <= s'.replies
    decreases |steps|
  {
    if steps != [] {
      RepliesOnlyGrow(Next(s, steps[0]).s, steps[1..], s');
    }
  }

  // Calls that run without another thread in between

  lemma {:induction false} Then<T>(s: State<T>, step: Step<T>, n: State<T>, rest: seq<Step<T>>, s': State<T>)
    requires Next(s, step) == Running(n) && Run(n, rest, s')
    ensures Run(s, [step] + rest, s')
  {
    hide Next;
    assert ([step] + rest)[1..] == rest;
  }

  /** `set_with` on an empty cell fills it; otherwise it says what it met. */
  lemma {:induction false} SoloSet<T>(s: State<T>, t: nat, x: T, s': State<T>)
    requires Inv(s) && t !in s.threads
    requires s.init == 0 ==> s' == State(2, Some(x), true, s.threads, [x], s.replies + [SetOk])
    requires s.init > 0 ==> s' == s.(replies := s.replies + [if s.init == 1 then Initializing else AlreadyInit])
    ensures s.init == 0 ==> Run(s, [SetWith(t, x), Go(t, x), Go(t, x), Go(t, x)], s')
    ensures s.init > 0 ==> Run(s, [SetWith(t, x), Go(t, x)], s')
  {
    var s1 := Next(s, SetWith(t, x)).s;
    var s2 := Next(s1, Go(t, x)).s;
    assert s1.threads - {t} == s.threads;
    if s.init == 0 {
      var s3 := Next(s2, Go(t, x)).s;
      assert s3.threads - {t} == s.threads;
      var steps := [SetWith(t, x), Go(t, x), Go(t, x), Go(t, x)];
      assert Run(s3, steps[3..], s') && steps[3..][1..] == [];
      assert Run(s2, steps[2..], s') && steps[2..][1..] == steps[3..];
      assert Run(s1, steps[1..], s') && steps[1..][1..] == steps[2..];
    } else {
      var steps := [SetWith(t, x), Go(t, x)];
      assert Run(s1, steps[1..], s') && steps[1..][1..] == [];
    }
  }

  /** `get` returns the value written, if writing it is over. */
  lemma {:induction false} SoloGet<T>(s: State<T>, t: nat, x: T, s': State<T>)
    requires Inv(s) && t !in s.threads
    requires s' == s.(replies := s.replies + [if s.init == 2 then Got(s.written[0]) else NotYet])
    ensures Run(s, if s.init == 2 then [Get(t), Go(t, x), Go(t, x)] else [Get(t), Go(t, x)], s')
  {
    var s1 := Next(s, Get(t)).s;
    var s2 := Next(s1, Go(t, x)).s;
    assert s1.threads - {t} == s.threads;
    if s.init == 2 {
      var steps := [Get(t), Go(t, x), Go(t, x)];
      assert s2.threads - {t} == s.threads;
      assert Run(s2, steps[2..], s') && steps[2..][1..] == [];
      assert Run(s1, steps[1..], s') && steps[1..][1..] == steps[2..];
    } else {
      var steps := [Get(t), Go(t, x)];
      assert Run(s1, steps[1..], s') && steps[1..][1..] == [];
    }
  }

  lemma {:induction false} MoveTwice<T>(s: State<T>, t: nat, p: Phase<T>, q: Phase<T>)
    ensures Move(Move(s, t, p), t, q) == Move(s, t, q)
    ensures t !in s.threads ==> Move(s, t, p).threads - {t} == s.threads
  {
    assert s.threads[t := p][t := q] == s.threads[t := q];
    assert t !in s.threads ==> s.threads[t := p] - {t} == s.threads;
  }

  /** The lazy `get` on an empty cell calls the closure and returns what it gave. */
  lemma {:induction false} SoloLazyGet<T>(s: State<T>, t: nat, x: T, s': State<T>)
    requires Inv(s) && t !in s.threads && s.init == 0
    requires s' == State(2, Some(x), false, s.threads, [x], s.replies + [Got(x)])
    ensures Run(s, [LazyGet(t), Go(t, x), Go(t, x), Go(t, x), Go(t, x), Go(t, x), Go(t, x)], s')
  {
    assert s.value == None && s.fun && s.written == [];
    hide Inv, Run, Move;
    var go := Go(t, x);
    var taken := State(1, None, false, s.threads, [], s.replies);
    var s3 := Move(taken, t, Calling);
    LazyReads(taken, t, x, s');
    LazyTakes(s, t, x);
    Then(Move(s.(init := 1), t, Taking), go, s3, [go, go, go, go], s');
    Then(Move(s, t, LazyEntering), go, Move(s.(init := 1), t, Taking), [go] + [go, go, go, go], s');
    Then(s, LazyGet(t), Move(s, t, LazyEntering), [go] + ([go] + [go, go, go, go]), s');
    assert [LazyGet(t)] + ([go] + ([go] + [go, go, go, go])) == [LazyGet(t), go, go, go, go, go, go];
  }

  /** On a full cell it returns the value without calling anything. */
  lemma {:induction false} SoloLazyGetAgain<T>(s: State<T>, t: nat, x: T, s': State<T>)
    requires Inv(s) && t !in s.threads && s.init == 2
    requires s' == s.(replies := s.replies + [Got(s.written[0])])
    ensures Run(s, [LazyGet(t), Go(t, x), Go(t, x), Go(t, x)], s')
  {
    var go := Go(t, x);
    assert s.value == Some(s.written[0]) && Run(s', [], s');
    hide Inv, Run;
    MoveTwice(s, t, LazyEntering, Loading(true));
    MoveTwice(s, t, Loading(true), Reading(true));
    MoveTwice(s, t, Reading(true), Reading(true));
    Then(Move(s, t, Reading(true)), go, s', [], s');
    Then(Move(s, t, Loading(true)), go, Move(s, t, Reading(true)), [go] + [], s');
    Then(Move(s, t, LazyEntering), go, Move(s, t, Loading(true)), [go] + ([go] + []), s');
    Then(s, LazyGet(t), Move(s, t, LazyEntering), [go] + ([go] + ([go] + [])), s');
    assert [LazyGet(t)] + ([go] + ([go] + ([go] + []))) == [LazyGet(t), go, go, go];
  }

  function StepsLeft<T>(p: Phase<T>): (n: nat) { if p.Taking? then 3 else if p.Calling? || p.Writing? then 2 else 1 }

  /** Whoever is initialising finishes in at most three steps of its own, so nobody waits for ever on its account. */
  lemma {:induction false} InitializerFinishes<T>(s: State<T>, t: nat, x: T) returns (steps: seq<Step<T>>, s': State<T>)
    requires Inv(s) && Owns(s, t)
    ensures Run(s, steps, s') && s'.init == 2 && |steps| == StepsLeft(s.threads[t]) <= 3
    ensures forall i :: 0 <= i < |steps| ==> steps[i] == Go(t, x)
    decreases StepsLeft(s.threads[t])
  {
    assert ThreadOk(s, t);
    var go := Go(t, x);
    NextKeepsInv(s, go);
    var s1 := Next(s, go).s;
    if s.threads[t].Publishing? {
      steps, s' := [go], s1;
      assert [go][1..] == [];
    } else {
      var rest;
      rest, s' := InitializerFinishes(s1, t, x);
      hide Inv;
      Then(s, go, s1, rest, s');
      steps := [go] + rest;
    }
  }

  lemma {:induction false} LazyTakes<T>(s: State<T>, t: nat, x: T)
    requires t !in s.threads && s.init == 0 && s.value == None && s.fun && s.written == []
    ensures Next(s, LazyGet(t)) == Running(Move(s, t, LazyEntering))
    ensures Next(Move(s, t, LazyEntering), Go(t, x)) == Running(Move(s.(init := 1), t, Taking))
    ensures Next(Move(s.(init := 1), t, Taking), Go(t, x)) ==
            Running(Move(State(1, None, false, s.threads, [], s.replies), t, Calling))
  {
    MoveTwice(s, t, LazyEntering, Taking);
    MoveTwice(s.(init := 1), t, Taking, Calling);
  }

  lemma {:induction false} LazyReads<T>(s: State<T>, t: nat, x: T, s': State<T>)
    requires s.init == 1 && s.written == [] && !s.fun && t !in s.threads
    requires s' == State(2, Some(x), false, s.threads, [x], s.replies + [Got(x)])
    ensures Run(Move(s, t, Calling), [Go(t, x), Go(t, x), Go(t, x), Go(t, x)], s')
  {
    var go, full := Go(t, x), State(2, Some(x), false, s.threads, [x], s.replies);
    MoveTwice(s, t, Calling, Publishing(true));
    MoveTwice(full, t, Publishing(true), Loading(true));
    MoveTwice(full, t, Loading(true), Reading(true));
    MoveTwice(full, t, Reading(true), Reading(true));
    assert Run(s', [], s');
    hide Run;
    Then(Move(full, t, Reading(true)), go, s', [], s');
    Then(Move(full, t, Loading(true)), go, Move(full, t, Reading(true)), [go] + [], s');
    Then(Move(full.(init := 1), t, Publishing(true)), go, Move(full, t, Loading(true)), [go] + ([go] + []), s');
    Then(Move(s, t, Calling), go, Move(full.(init := 1), t, Publishing(true)), [go] + ([go] + ([go] + [])), s');
    assert [go] + ([go] + ([go] + ([go] + []))) == [go, go, go, go];
  }

  /** The state only moves 0 to 1 to 2: any later state of a run has at least the value of any earlier one. */
  lemma {:induction false} InitOnlyGrows<T>(before: seq<Step<T>>, s: State<T>, after: seq<Step<T>>, s': State<T>)
    requires Run(Initial(), before, s) && Run(s, after, s')
    ensures s.init <= s'.init <= 2
    ensures s.written <= s'.written && (s.init == 2 ==> s'.value == s.value)
  {
    RunKeepsInv(Initial(), before, s);
    RunKeepsInv(s, after, s');
    WrittenOnlyGrows(s, after, s');
  }

  lemma {:induction false} WrittenOnlyGrows<T>(s: State<T>, steps: seq<Step<T>>, s': State<T>)
    requires Run(s, steps, s')
    ensures s.written <= s'.written
    decreases |steps|
  {
    if steps != [] {
      WrittenOnlyGrows(Next(s, steps[0]).s, steps[1..], s');
    }
  }
}
