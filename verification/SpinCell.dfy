/**
 The spin-locked cell (harmony/sync/src/cell/atomic_cell.rs), used by any number of threads.

 Each atomic operation is one step, and so is each access to the value inside the lock: a critical
 section reads in one step and writes in another, and other threads may act in between.  `body`
 lists the critical sections in the order in which they finished their work, `returned` the calls
 in the order in which they unlocked.
 */
module SpinCells {
  import opened Wrappers

  datatype Op<T> = Set(value: T) | Replace(value: T) | GetCloned

  /** What a call returns: `None` for `set`. */
  datatype Call<T> = Call(thread: nat, op: Op<T>, out: Option<T>)

  datatype Phase<T> =
    | Spinning(op: Op<T>)                 // before the compare-and-exchange that takes the lock
    | Reading(op: Op<T>)                  // lock taken, value not yet read
    | Writing(op: Op<T>, seen: T)         // value read
    | Leaving(op: Op<T>, out: Option<T>)  // about to unlock

  /** Threads without a phase are outside the cell. */
  datatype State<T> = State(locked: bool, value: T, threads: map<nat, Phase<T>>, body: seq<Call<T>>, returned: seq<Call<T>>)

  /** `Attempt(t, false)` is an exchange that fails although the lock is free. */
  datatype Step<T> = Invoke(t: nat, op: Op<T>) | Attempt(t: nat, strong: bool) | Read(t: nat) | Write(t: nat) | Unlock(t: nat)

  function After<T>(op: Op<T>, v: T): (r: T) {
    if op.GetCloned? then v else op.value
  }

  function Out<T>(op: Op<T>, v: T): (r: Option<T>) {
    if op.Set? then None else Some(v)
  }

  /** The cell as it runs; `None` if the step is not one the thread can take. */
  function Next<T>(s: State<T>, step: Step<T>): (r: Option<State<T>>) {
    match step
    case Invoke(t, op) =>
      if t in s.threads then None else Some(s.(threads := s.threads[t := Spinning(op)]))
    case Attempt(t, strong) =>
      if t !in s.threads || !s.threads[t].Spinning? then None
      else if s.locked || !strong then Some(s)
      else Some(s.(locked := true, threads := s.threads[t := Reading(s.threads[t].op)]))
    case Read(t) =>
      if t !in s.threads || !s.threads[t].Reading? then None
      else Some(s.(threads := s.threads[t := Writing(s.threads[t].op, s.value)]))
    case Write(t) =>
      if t !in s.threads || !s.threads[t].Writing? then None
      else
        var op, seen := s.threads[t].op, s.threads[t].seen;
        var out := Out(op, seen);
        Some(s.(value := if op.GetCloned? then s.value else op.value,
                threads := s.threads[t := Leaving(op, out)],
                body := s.body + [Call(t, op, out)]))
    case Unlock(t) =>
      if t !in s.threads || !s.threads[t].Leaving? then None
      else Some(s.(locked := false, threads := s.threads - {t},
                   returned := s.returned + [Call(t, s.threads[t].op, s.threads[t].out)]))
  }

  predicate Run<T(==)>(s: State<T>, steps: seq<Step<T>>, s': State<T>)
    decreases |steps|
  {
    if steps == [] then s == s'
    else var n := Next(s, steps[0]); n.Some? && Run(n.value, steps[1..], s')
  }

  function Initial<T>(v: T): (s: State<T>) {
    State(false, v, map[], [], [])
  }

  // The sequential cell

  /** The value after the calls have been made one after the other. */
  function Replay<T>(v: T, calls: seq<Call<T>>): (r: T) {
    if calls == [] then v else After(calls[|calls| - 1].op, Replay(v, calls[..|calls| - 1]))
  }

  /** Every call returned what it returns when the calls are made one after the other. */
  ghost predicate Sequential<T>(v: T, calls: seq<Call<T>>) {
    calls == [] ||
    var before := calls[..|calls| - 1];
    Sequential(v, before) && calls[|calls| - 1].out == Out(calls[|calls| - 1].op, Replay(v, before))
  }

  lemma {:induction false} OneMore<T>(v: T, calls: seq<Call<T>>, c: Call<T>)
    ensures Replay(v, calls + [c]) == After(c.op, Replay(v, calls))
    ensures Sequential(v, calls + [c]) <==> Sequential(v, calls) && c.out == Out(c.op, Replay(v, calls))
  {
  }

  // The invariant

  predicate Inside<T>(p: Phase<T>) {
    !p.Spinning?
  }

  ghost predicate Owns<T>(s: State<T>, t: nat) {
    t in s.threads && Inside(s.threads[t])
  }

  /** Where the owner of the lock stands, and what that says about the value and the two lists. */
  ghost predicate OwnerOk<T>(v: T, s: State<T>, t: nat) {
    Owns(s, t) &&
    match s.threads[t]
    case Spinning(_) => false
    case Reading(_) => s.returned == s.body
    case Writing(_, seen) => s.returned == s.body && seen == s.value
    case Leaving(op, out) => s.body == s.returned + [Call(t, op, out)]
  }

  ghost predicate Inv<T>(v: T, s: State<T>) {
    && s.value == Replay(v, s.body) && Sequential(v, s.body)
    && (forall t, u :: Owns(s, t) && Owns(s, u) ==> t == u)
    && (s.locked ==> exists t :: OwnerOk(v, s, t))
    && (!s.locked ==> s.returned == s.body && forall t :: !Owns(s, t))
  }

  lemma {:induction false} NextKeepsInv<T>(v: T, s: State<T>, step: Step<T>)
    requires Inv(v, s) && Next(s, step).Some?
    ensures Inv(v, Next(s, step).value)
  {
    hide Replay, Sequential;
    var s' := Next(s, step).value;
    if owner :| OwnerOk(v, s, owner) {
      assert s.locked;
      forall t | Owns(s', t) ensures t == owner {
        assert Owns(s, t);
      }
      if step.Write? {
        assert Owns(s, step.t);
        var op, seen := s.threads[step.t].op, s.threads[step.t].seen;
        OneMore(v, s.body, Call(step.t, op, Out(op, seen)));
      }
      if step.Unlock? {
        assert Owns(s, step.t);
      } else {
        assert OwnerOk(v, s', owner);
      }
    } else {
      assert !Owns(s, step.t);
      forall t | Owns(s', t) ensures t == step.t && s'.locked {
        assert !Owns(s, t);
      }
      if s'.locked {
        assert OwnerOk(v, s', step.t);
      }
    }
  }

  lemma {:induction false} RunKeepsInv<T>(v: T, s: State<T>, steps: seq<Step<T>>, s': State<T>)
    requires Inv(v, s) && Run(s, steps, s')
    ensures Inv(v, s')
    decreases |steps|
  {
    if steps != [] {
      NextKeepsInv(v, s, steps[0]);
      RunKeepsInv(v, Next(s, steps[0]).value, steps[1..], s');
    }
  }

  // What the sequential cell means

  /** The calls leave `x`: what the last of them that stores anything stores, or `v` if none does. */
  ghost predicate Leave<T>(v: T, calls: seq<Call<T>>, x: T) {
    || (x == v && forall i :: 0 <= i < |calls| ==> calls[i].op.GetCloned?)
    || (exists j :: 0 <= j < |calls| && !calls[j].op.GetCloned? && calls[j].op.value == x &&
                    forall i :: j < i < |calls| ==> calls[i].op.GetCloned?)
  }

  /** `set` returns nothing; `replace` and `get_cloned` return what the calls before them left. */
  ghost predicate Answered<T>(v: T, calls: seq<Call<T>>, k: nat)
    requires k < |calls|
  {
    if calls[k].op.Set? then calls[k].out == None
    else calls[k].out.Some? && Leave(v, calls[..k], calls[k].out.value)
  }

  lemma {:induction false} ReplayIsLeft<T>(v: T, calls: seq<Call<T>>)
    ensures Leave(v, calls, Replay(v, calls))
    decreases |calls|
  {
    if calls != [] {
      var before, last := calls[..|calls| - 1], calls[|calls| - 1];
      ReplayIsLeft(v, before);
      if last.op.GetCloned? && !(forall i :: 0 <= i < |before| ==> before[i].op.GetCloned?) {
        var j :| 0 <= j < |before| && !before[j].op.GetCloned? && before[j].op.value == Replay(v, before) &&
                 forall i :: j < i < |before| ==> before[i].op.GetCloned?;
        assert calls[j] == before[j];
      }
    }
  }

  lemma {:induction false} SequentialAnswers<T>(v: T, calls: seq<Call<T>>, k: nat)
    requires Sequential(v, calls) && k < |calls|
    ensures Answered(v, calls, k)
    decreases |calls|
  {
    hide Leave, Replay;
    var before := calls[..|calls| - 1];
    if k < |before| {
      SequentialAnswers(v, before, k);
      assert before[..k] == calls[..k];
    } else {
      ReplayIsLeft(v, before);
    }
  }

  // Progress

  /** Whoever holds the lock gives it back in at most three steps of its own. */
  lemma {:induction false} OwnerFinishes<T>(v: T, s: State<T>) returns (t: nat, steps: seq<Step<T>>, s': State<T>)
    requires Inv(v, s) && s.locked
    ensures Run(s, steps, s') && |steps| <= 3 && (forall i :: 0 <= i < |steps| ==> steps[i] in {Read(t), Write(t), Unlock(t)})
    ensures !s'.locked && s'.threads == s.threads - {t} && |s'.returned| == |s.returned| + 1
  {
    t :| OwnerOk(v, s, t);
    var all := [Read(t), Write(t), Unlock(t)];
    var s1, s2 := s, s;
    if s.threads[t].Reading? {
      s1 := Next(s, Read(t)).value;
      s2 := s1;
      steps := all;
    }
    if s1.threads[t].Writing? {
      s2 := Next(s1, Write(t)).value;
      steps := if s1 == s then all[1..] else steps;
    } else {
      steps := all[2..];
    }
    s' := Next(s2, Unlock(t)).value;
    assert all[1..][1..] == all[2..] && all[2..][1..] == [];
    assert s'.threads == s.threads - {t};
    assert Run(s2, all[2..], s');
    assert s1.threads[t].Writing? ==> Run(s1, all[1..], s');
  }

  /** A call that meets nobody inside completes, returns the value it found and leaves the value it brings. */
  lemma {:induction false} SoloCall<T>(v: T, s: State<T>, t: nat, op: Op<T>, s': State<T>)
    requires Inv(v, s) && !s.locked && t !in s.threads
    requires s' == State(false, if op.GetCloned? then s.value else op.value, s.threads,
                         s.body + [Call(t, op, if op.Set? then None else Some(s.value))],
                         s.returned + [Call(t, op, if op.Set? then None else Some(s.value))])
    ensures Run(s, [Invoke(t, op), Attempt(t, true), Read(t), Write(t), Unlock(t)], s')
  {
    var steps := [Invoke(t, op), Attempt(t, true), Read(t), Write(t), Unlock(t)];
    var s1 := Next(s, Invoke(t, op)).value;
    var s2 := Next(s1, Attempt(t, true)).value;
    var s3 := Next(s2, Read(t)).value;
    var s4 := Next(s3, Write(t)).value;
    assert s4.threads - {t} == s.threads;
    assert Next(s4, Unlock(t)) == Some(s');
    assert Run(s4, steps[4..], s') && steps[4..][1..] == [];
    assert Run(s3, steps[3..], s') && steps[3..][1..] == steps[4..];
    assert Run(s2, steps[2..], s') && steps[2..][1..] == steps[3..];
    assert Run(s1, steps[1..], s') && steps[1..][1..] == steps[2..];
  }

  /**
   In every interleaving of any number of threads, at most one is past the lock, and the calls that
   have returned, in the order of their return, are a run of the sequential cell; when nobody is
   past the lock the value is what that run leaves.  Put without the sequential cell: every call
   returned what the calls before it left.
   */
  lemma {:induction false} CellIsLinearizable<T>(v: T, steps: seq<Step<T>>, s: State<T>)
    requires Run(Initial(v), steps, s)
    ensures forall t, u :: Owns(s, t) && Owns(s, u) ==> t == u
    ensures s.locked <==> exists t :: Owns(s, t)
    ensures Sequential(v, s.returned)
    ensures !s.locked ==> s.value == Replay(v, s.returned) && Leave(v, s.returned, s.value)
    ensures forall k :: 0 <= k < |s.returned| ==> Answered(v, s.returned, k)
  {
    hide Leave, Answered;
    RunKeepsInv(v, Initial(v), steps, s);
    if t :| OwnerOk(v, s, t) {
      assert Owns(s, t);
      if s.threads[t].Leaving? {
        OneMore(v, s.returned, Call(t, s.threads[t].op, s.threads[t].out));
      }
    }
    ReplayIsLeft(v, s.returned);
    forall k | 0 <= k < |s.returned| ensures Answered(v, s.returned, k) {
      SequentialAnswers(v, s.returned, k);
    }
  }
}
