/**
  The shared/weak reference count protocol behind shared_ptr and weak_ptr, as a state machine
  whose steps are the single atomic operations, for any number of threads and any interleaving.
*/
module SharedCount {
  import opened Options

  /** Where a thread is inside `__release_shared`, `__release_weak` or `lock`. */
  datatype Pc =
    | Idle
    | OnZeroShared         // its decrement of the shared count gave -1
    | WeakLoad             // about to load the weak count
    | WeakDecrement        // the load was not 0
    | FreeFast             // the load was 0: frees without storing
    | FreeSlow             // its decrement of the weak count gave -1
    | LockLoad             // about to load the shared count
    | LockTry(owners: int) // in the compare-exchange loop

  /** A thread and the shared and weak handles it holds. */
  datatype Thread = Thread(pc: Pc, shared: nat, weak: nat)

  /** The two counters hold the number of owners minus one; `destroyed` and `freed` count the two clean-ups. */
  datatype State = State(sharedOwners: int, weakOwners: int, destroyed: nat, freed: nat, threads: seq<Thread>)

  datatype Action =
    | AddShared | ReleaseShared | Destroy
    | AddWeak | ReleaseWeak | LoadWeak | DecrementWeak | Free
    | Lock | LoadShared | CasSucceeds | CasFails | LockGivesUp
    | GiveShared(to: nat) | GiveWeak(to: nat)

  /** One owner, and the weak reference that all owners hold together. */
  function Init(n: nat): State
    requires n > 0
  {
    State(0, 0, 0, 0, seq(n, i => Thread(Idle, if i == 0 then 1 else 0, 0)))
  }

  function Put(s: State, t: nat, th: Thread): State
    requires t < |s.threads|
  {
    s.(threads := s.threads[t := th])
  }

  /** The step of thread `t`, or None when the action is not what the thread can do next. */
  function Step(s: State, t: nat, a: Action): Option<State>
  {
    if t >= |s.threads| then None else
    var th := s.threads[t];
    match a
    case AddShared =>
      if th.pc != Idle || th.shared == 0 then None
      else Some(Put(s.(sharedOwners := s.sharedOwners + 1), t, th.(shared := th.shared + 1)))
    case ReleaseShared =>
      if th.pc != Idle || th.shared == 0 then None else
      var owners := s.sharedOwners - 1;
      var pc := if owners == -1 then OnZeroShared else Idle;
      Some(Put(s.(sharedOwners := owners), t, th.(shared := th.shared - 1, pc := pc)))
    case Destroy =>
      if th.pc != OnZeroShared then None
      else Some(Put(s.(destroyed := s.destroyed + 1), t, th.(pc := WeakLoad)))
    case AddWeak =>
      if th.pc != Idle || (th.shared == 0 && th.weak == 0) then None
      else Some(Put(s.(weakOwners := s.weakOwners + 1), t, th.(weak := th.weak + 1)))
    case ReleaseWeak =>
      if th.pc != Idle || th.weak == 0 then None
      else Some(Put(s, t, th.(weak := th.weak - 1, pc := WeakLoad)))
    case LoadWeak =>
      if th.pc != WeakLoad then None
      else Some(Put(s, t, th.(pc := if s.weakOwners == 0 then FreeFast else WeakDecrement)))
    case DecrementWeak =>
      if th.pc != WeakDecrement then None else
      var owners := s.weakOwners - 1;
      Some(Put(s.(weakOwners := owners), t, th.(pc := if owners == -1 then FreeSlow else Idle)))
    case Free =>
      if th.pc != FreeFast && th.pc != FreeSlow then None
      else Some(Put(s.(freed := s.freed + 1), t, th.(pc := Idle)))
    case Lock =>
      if th.pc != Idle || th.weak == 0 then None
      else Some(Put(s, t, th.(pc := LockLoad)))
    case LoadShared =>
      if th.pc != LockLoad then None
      else Some(Put(s, t, th.(pc := LockTry(s.sharedOwners))))
    case LockGivesUp =>
      if !th.pc.LockTry? || th.pc.owners != -1 then None
      else Some(Put(s, t, th.(pc := Idle)))
    case CasSucceeds =>
      if !th.pc.LockTry? || th.pc.owners == -1 || th.pc.owners != s.sharedOwners then None
      else Some(Put(s.(sharedOwners := th.pc.owners + 1), t, th.(pc := Idle, shared := th.shared + 1)))
    case CasFails => // also spuriously; a failed exchange loads the current value
      if !th.pc.LockTry? || th.pc.owners == -1 then None
      else Some(Put(s, t, th.(pc := LockTry(s.sharedOwners))))
    case GiveShared(u) =>
      if th.pc != Idle || th.shared == 0 || u >= |s.threads| || u == t then None
      else Some(Put(Put(s, t, th.(shared := th.shared - 1)), u, s.threads[u].(shared := s.threads[u].shared + 1)))
    case GiveWeak(u) =>
      if th.pc != Idle || th.weak == 0 || u >= |s.threads| || u == t then None
      else Some(Put(Put(s, t, th.(weak := th.weak - 1)), u, s.threads[u].(weak := s.threads[u].weak + 1)))
  }

  /** The state after an interleaving of steps, or None if some step was not possible. */
  function Run(n: nat, steps: seq<(nat, Action)>): Option<State>
    requires n > 0
  {
    if steps == [] then Some(Init(n))
    else
      var last := |steps| - 1;
      match Run(n, steps[..last])
      case None => None
      case Some(s) => Step(s, steps[last].0, steps[last].1)
  }

  // ----- counting over threads

  function Shared(th: Thread): nat { th.shared }

  /** Weak references: handles, and the one a thread is in the middle of releasing. */
  function Weak(th: Thread): nat {
    th.weak + if th.pc in {OnZeroShared, WeakLoad, WeakDecrement, FreeFast} then 1 else 0
  }

  function Destroying(th: Thread): nat { if th.pc == OnZeroShared then 1 else 0 }

  function Freeing(th: Thread): nat { if th.pc == FreeSlow then 1 else 0 }

  ghost function Sum(f: Thread -> nat, ts: seq<Thread>): nat {
    if ts == [] then 0 else f(ts[0]) + Sum(f, ts[1..])
  }

  lemma {:induction false} SumUpdate(f: Thread -> nat, ts: seq<Thread>, i: nat, th: Thread)
    requires i < |ts|
    ensures Sum(f, ts[i := th]) + f(ts[i]) == Sum(f, ts) + f(th)
    ensures Sum(f, ts) >= f(ts[i])
  {
    if i > 0 {
      SumUpdate(f, ts[1..], i - 1, th);
      assert ts[i := th][1..] == ts[1..][i - 1 := th];
    }
  }

  lemma {:induction false} SumTwo(f: Thread -> nat, ts: seq<Thread>, i: nat, j: nat)
    requires i < j < |ts|
    ensures Sum(f, ts) >= f(ts[i]) + f(ts[j])
  {
    if i > 0 { SumTwo(f, ts[1..], i - 1, j - 1); } else { SumUpdate(f, ts[1..], j - 1, ts[j]); }
  }

  /** All weak references: the threads', and one held jointly by the owners while there are any. */
  ghost function WeakTotal(s: State): nat {
    Sum(Weak, s.threads) + if Sum(Shared, s.threads) > 0 then 1 else 0
  }

  ghost predicate Inv(s: State) {
    CountsOk(s) && forall t | 0 <= t < |s.threads| :: ThreadOk(s, s.threads[t])
  }

  ghost predicate CountsOk(s: State) {
    && s.sharedOwners == Sum(Shared, s.threads) - 1
    && (s.freed == 0 ==> s.weakOwners == WeakTotal(s) - 1)
    // exactly one of: an owner exists, a thread is about to destroy, the object is destroyed
    && Sum(Destroying, s.threads) + s.destroyed + (if Sum(Shared, s.threads) > 0 then 1 else 0) == 1
    // exactly one of: a reference exists, a thread is about to free, the block is freed
    && Sum(Freeing, s.threads) + s.freed + (if WeakTotal(s) > 0 then 1 else 0) == 1
  }

  ghost predicate ThreadOk(s: State, th: Thread) {
    && (th.pc == FreeFast ==> s.freed == 0 && s.weakOwners == 0)
    && (th.pc.LockLoad? || th.pc.LockTry? ==> th.weak > 0)
    && (th.pc.LockTry? ==> th.pc.owners >= -1 && (th.pc.owners == -1 ==> s.sharedOwners == -1))
  }

  // ----- every step keeps the invariant

  lemma OneThread(ts: seq<Thread>, t: nat, th: Thread)
    requires t < |ts|
    ensures Sum(Shared, ts[t := th]) + Shared(ts[t]) == Sum(Shared, ts) + Shared(th) && Sum(Shared, ts) >= Shared(ts[t])
    ensures Sum(Weak, ts[t := th]) + Weak(ts[t]) == Sum(Weak, ts) + Weak(th) && Sum(Weak, ts) >= Weak(ts[t])
    ensures Sum(Destroying, ts[t := th]) + Destroying(ts[t]) == Sum(Destroying, ts) + Destroying(th)
    ensures Sum(Destroying, ts) >= Destroying(ts[t])
    ensures Sum(Freeing, ts[t := th]) + Freeing(ts[t]) == Sum(Freeing, ts) + Freeing(th)
    ensures Sum(Freeing, ts) >= Freeing(ts[t])
  {
    SumUpdate(Shared, ts, t, th);
    SumUpdate(Weak, ts, t, th);
    SumUpdate(Destroying, ts, t, th);
    SumUpdate(Freeing, ts, t, th);
  }

  /** A thread that saw the weak count at 0 holds the only reference: no other thread holds or releases one. */
  lemma FastPathAlone(s: State, i: nat, j: nat)
    requires Inv(s) && i < |s.threads| && j < |s.threads| && i != j && s.threads[i].pc == FreeFast
    ensures Weak(s.threads[j]) == 0 && Shared(s.threads[j]) == 0 && s.threads[j].pc != FreeSlow
    ensures WeakTotal(s) == 1 && Sum(Shared, s.threads) == 0 && s.freed == 0 && s.destroyed == 1
  {
    SumUpdate(Weak, s.threads, i, s.threads[i]);
    SumUpdate(Shared, s.threads, j, s.threads[j]);
    SumUpdate(Freeing, s.threads, j, s.threads[j]);
    if i < j { SumTwo(Weak, s.threads, i, j); } else { SumTwo(Weak, s.threads, j, i); }
    DestroyingHoldsWeak(s.threads, i);
  }

  /** A thread about to destroy the object still holds the owners' weak reference. */
  lemma {:induction false} DestroyingHoldsWeak(ts: seq<Thread>, i: nat)
    requires i < |ts| && ts[i].pc != OnZeroShared
    ensures Sum(Weak, ts) >= Weak(ts[i]) + Sum(Destroying, ts)
  {
    if i > 0 {
      DestroyingHoldsWeak(ts[1..], i - 1);
    } else {
      DestroyingAtMostWeak(ts[1..]);
    }
  }

  lemma {:induction false} DestroyingAtMostWeak(ts: seq<Thread>)
    ensures Sum(Weak, ts) >= Sum(Destroying, ts)
  {
    if ts != [] { DestroyingAtMostWeak(ts[1..]); }
  }

  /** Steps of one thread on its own handles. */
  lemma StepKeepsCounts(s: State, t: nat, a: Action)
    requires CountsOk(s) && Step(s, t, a).Some? && ThreadOk(s, s.threads[t]) && !a.GiveShared? && !a.GiveWeak?
    ensures CountsOk(Step(s, t, a).value)
  {
    hide Sum;
    OneThread(s.threads, t, Step(s, t, a).value.threads[t]);
  }

  /** Handing a handle over changes no count. */
  lemma GiveKeepsCounts(s: State, t: nat, a: Action)
    requires CountsOk(s) && Step(s, t, a).Some? && (a.GiveShared? || a.GiveWeak?)
    ensures CountsOk(Step(s, t, a).value)
  {
    hide Sum;
    var th := s.threads[t];
    var th' := if a.GiveShared? then th.(shared := th.shared - 1) else th.(weak := th.weak - 1);
    OneThread(s.threads, t, th');
    OneThread(s.threads[t := th'], a.to, Step(s, t, a).value.threads[a.to]);
  }

  lemma NoOwnersStep(s: State, t: nat, a: Action)
    requires Inv(s) && Step(s, t, a).Some? && s.sharedOwners == -1
    ensures Step(s, t, a).value.sharedOwners == -1
  {
    hide Sum;
    OneThread(s.threads, t, s.threads[t]);
  }

  /** No step of another thread disturbs a thread on the fast path, nor one inside `lock`. */
  lemma StepKeepsThread(s: State, t: nat, a: Action, j: nat)
    requires Inv(s) && Step(s, t, a).Some? && j < |s.threads|
    ensures ThreadOk(Step(s, t, a).value, Step(s, t, a).value.threads[j])
  {
    hide Sum, CountsOk;
    OwnersAtLeast(s);
    if j != t && s.threads[j].pc == FreeFast {
      FastPathAlone(s, j, t);
    } else if j == t {
      ReleaserFindsBlock(s, t);
    }
    if s.sharedOwners == -1 { NoOwnersStep(s, t, a); }
  }

  lemma OwnersAtLeast(s: State)
    requires CountsOk(s)
    ensures s.sharedOwners >= -1
  {}

  /** A thread that is releasing a weak reference works on a block that is not freed. */
  lemma ReleaserFindsBlock(s: State, t: nat)
    requires CountsOk(s) && t < |s.threads|
    ensures Weak(s.threads[t]) > 0 || Shared(s.threads[t]) > 0 ==> s.freed == 0
  {
    hide Sum;
    OneThread(s.threads, t, s.threads[t]);
  }

  lemma StepKeepsInv(s: State, t: nat, a: Action)
    requires Inv(s) && Step(s, t, a).Some?
    ensures Inv(Step(s, t, a).value)
  {
    hide Step, CountsOk, ThreadOk;
    StepKeepsSize(s, t, a);
    if a.GiveShared? || a.GiveWeak? { GiveKeepsCounts(s, t, a); } else { StepKeepsCounts(s, t, a); }
    forall j | 0 <= j < |s.threads|
      ensures ThreadOk(Step(s, t, a).value, Step(s, t, a).value.threads[j])
    {
      StepKeepsThread(s, t, a, j);
    }
  }

  lemma StepKeepsSize(s: State, t: nat, a: Action)
    requires Step(s, t, a).Some?
    ensures t < |s.threads| == |Step(s, t, a).value.threads|
  {}

  lemma {:induction false} SumOfNone(f: Thread -> nat, ts: seq<Thread>)
    requires forall i | 0 <= i < |ts| :: f(ts[i]) == 0
    ensures Sum(f, ts) == 0
  {
    if ts != [] { SumOfNone(f, ts[1..]); }
  }

  lemma InitInv(n: nat)
    requires n > 0
    ensures Inv(Init(n))
  {
    var ts := Init(n).threads;
    assert forall i | 0 <= i < |ts[1..]| :: ts[1..][i] == ts[i + 1];
    SumOfNone(Shared, ts[1..]);
    SumOfNone(Weak, ts);
    SumOfNone(Destroying, ts);
    SumOfNone(Freeing, ts);
  }

  lemma {:induction false} RunInv(n: nat, steps: seq<(nat, Action)>)
    requires n > 0 && Run(n, steps).Some?
    ensures Inv(Run(n, steps).value)
  {
    if steps == [] {
      InitInv(n);
    } else {
      var last := |steps| - 1;
      RunInv(n, steps[..last]);
      StepKeepsInv(Run(n, steps[..last]).value, steps[last].0, steps[last].1);
    }
  }

  // ----- what holds in every run

  /** In every interleaving the object is destroyed at most once, the block freed at most once and only after that. */
  lemma DestroyedThenFreedOnce(n: nat, steps: seq<(nat, Action)>)
    requires n > 0 && Run(n, steps).Some?
    ensures var s := Run(n, steps).value; s.freed <= s.destroyed <= 1
  {
    hide Sum;
    RunInv(n, steps);
    DestroyingAtMostWeak(Run(n, steps).value.threads);
  }

  /** Once no handle is left and no thread is inside an operation, both clean-ups have happened exactly once. */
  lemma AllReleasedAllCleanedUp(n: nat, steps: seq<(nat, Action)>)
    requires n > 0 && Run(n, steps).Some?
    requires forall t | 0 <= t < |Run(n, steps).value.threads| :: Run(n, steps).value.threads[t] == Thread(Idle, 0, 0)
    ensures Run(n, steps).value.destroyed == 1 && Run(n, steps).value.freed == 1
  {
    hide Sum;
    var s := Run(n, steps).value;
    RunInv(n, steps);
    SumOfNone(Shared, s.threads);
    SumOfNone(Weak, s.threads);
    SumOfNone(Destroying, s.threads);
    SumOfNone(Freeing, s.threads);
  }

  /** The object lives, and stays undestroyed, as long as any thread holds a shared handle. */
  lemma HandleKeepsObject(n: nat, steps: seq<(nat, Action)>, t: nat)
    requires n > 0 && Run(n, steps).Some? && t < |Run(n, steps).value.threads|
    ensures Run(n, steps).value.threads[t].shared > 0 ==> Run(n, steps).value.destroyed == 0
  {
    hide Sum;
    RunInv(n, steps);
    OneThread(Run(n, steps).value.threads, t, Run(n, steps).value.threads[t]);
  }

  /** `lock` succeeds only on a live object, and an object is destroyed only once its owners are gone. */
  lemma LockOnlyWhileAlive(n: nat, steps: seq<(nat, Action)>, t: nat)
    requires n > 0 && Run(n, steps).Some?
    ensures Step(Run(n, steps).value, t, CasSucceeds).Some? ==> Run(n, steps).value.destroyed == 0
    ensures Step(Run(n, steps).value, t, Destroy).Some? ==>
              Run(n, steps).value.destroyed == 0 && Run(n, steps).value.sharedOwners == -1
  {
    hide Sum;
    RunInv(n, steps);
    var s := Run(n, steps).value;
    if t < |s.threads| { OneThread(s.threads, t, s.threads[t]); }
  }

  /** Once the shared count has reached -1 it never changes again, so a destroyed object has no later owner. */
  lemma {:induction false} NoOwnersForGood(n: nat, steps: seq<(nat, Action)>, more: seq<(nat, Action)>)
    requires n > 0 && Run(n, steps).Some? && Run(n, steps + more).Some? && Run(n, steps).value.sharedOwners == -1
    ensures Run(n, steps + more).value.sharedOwners == -1
    decreases more
  {
    if more == [] {
      assert steps + more == steps;
    } else {
      var last := |more| - 1;
      assert (steps + more)[..|steps + more| - 1] == steps + more[..last];
      NoOwnersForGood(n, steps, more[..last]);
      var s := Run(n, steps + more[..last]).value;
      RunInv(n, steps + more[..last]);
      NoOwnersStep(s, more[last].0, more[last].1);
    }
  }

  /** Some thread holds a shared handle. */
  ghost predicate Owned(s: State) {
    exists u :: 0 <= u < |s.threads| && s.threads[u].shared > 0
  }

  lemma OwnedIff(s: State)
    requires CountsOk(s)
    ensures Owned(s) <==> s.sharedOwners >= 0
  {
    hide Sum;
    if u :| 0 <= u < |s.threads| && s.threads[u].shared > 0 {
      OneThread(s.threads, u, s.threads[u]);
    } else {
      SumOfNone(Shared, s.threads);
    }
  }

  /** When `lock` gives up, no thread holds a shared handle, and none ever will. */
  lemma GivesUpForGood(n: nat, steps: seq<(nat, Action)>, t: nat, more: seq<(nat, Action)>)
    requires n > 0 && Run(n, steps).Some? && Step(Run(n, steps).value, t, LockGivesUp).Some?
    requires Run(n, steps + more).Some?
    ensures !Owned(Run(n, steps).value) && !Owned(Run(n, steps + more).value)
  {
    hide Sum;
    RunInv(n, steps);
    RunInv(n, steps + more);
    NoOwnersForGood(n, steps, more);
    OwnedIff(Run(n, steps).value);
    OwnedIff(Run(n, steps + more).value);
  }

  /**
    While a thread holds a shared handle, a thread in the loop of `lock` does not give up; its
    exchange fails only when the count has moved on or spuriously, and success is one more handle.
  */
  lemma LockFindsOwner(n: nat, steps: seq<(nat, Action)>, t: nat)
    requires n > 0 && Run(n, steps).Some? && Owned(Run(n, steps).value)
    requires t < |Run(n, steps).value.threads| && Run(n, steps).value.threads[t].pc.LockTry?
    ensures var s := Run(n, steps).value;
      && Step(s, t, LockGivesUp).None? && Step(s, t, CasFails).Some?
      && Step(s, t, CasFails).value.threads[t].pc == LockTry(s.sharedOwners)
      && (Step(s, t, CasSucceeds).Some? <==> s.threads[t].pc.owners == s.sharedOwners)
    ensures var s := Run(n, steps).value;
      var r := Step(s, t, CasSucceeds);
      r.Some? ==>
        && r.value.threads[t] == Thread(Idle, s.threads[t].shared + 1, s.threads[t].weak)
        && (forall u | 0 <= u < |s.threads| && u != t :: r.value.threads[u] == s.threads[u])
        && r.value.sharedOwners == s.sharedOwners + 1
  {
    hide Sum;
    RunInv(n, steps);
    OwnedIff(Run(n, steps).value);
  }

  lemma OneMore(n: nat, steps: seq<(nat, Action)>, step: (nat, Action))
    requires n > 0 && Run(n, steps).Some?
    ensures Run(n, steps + [step]) == Step(Run(n, steps).value, step.0, step.1)
  {
    assert (steps + [step])[..|steps|] == steps;
  }

  /** Left alone, `lock` answers a handle exactly when some thread holds one, and nothing exactly when none does. */
  lemma LockAloneIff(n: nat, steps: seq<(nat, Action)>, t: nat)
    requires n > 0 && Run(n, steps).Some? && t < |Run(n, steps).value.threads|
    requires Run(n, steps).value.threads[t].pc == Idle && Run(n, steps).value.threads[t].weak > 0
    ensures Run(n, steps + [(t, Lock)] + [(t, LoadShared)]).Some?
    ensures Run(n, steps + [(t, Lock)] + [(t, LoadShared)] + [(t, CasSucceeds)]).Some? <==> Owned(Run(n, steps).value)
    ensures Run(n, steps + [(t, Lock)] + [(t, LoadShared)] + [(t, LockGivesUp)]).Some? <==> !Owned(Run(n, steps).value)
  {
    hide Sum, Run, CountsOk;
    RunInv(n, steps);
    OwnedIff(Run(n, steps).value);
    OwnersAtLeast(Run(n, steps).value);
    OneMore(n, steps, (t, Lock));
    OneMore(n, steps + [(t, Lock)], (t, LoadShared));
    OneMore(n, steps + [(t, Lock)] + [(t, LoadShared)], (t, CasSucceeds));
    OneMore(n, steps + [(t, Lock)] + [(t, LoadShared)], (t, LockGivesUp));
  }

  /** A release of a shared handle goes on to destroy the object exactly when no thread holds another. */
  lemma LastReleaseDestroys(n: nat, steps: seq<(nat, Action)>, t: nat)
    requires n > 0 && Run(n, steps).Some? && Step(Run(n, steps).value, t, ReleaseShared).Some?
    ensures var r := Step(Run(n, steps).value, t, ReleaseShared).value;
      Step(r, t, Destroy).Some? <==> !Owned(r)
  {
    hide Sum;
    RunInv(n, steps);
    StepKeepsInv(Run(n, steps).value, t, ReleaseShared);
    OwnedIff(Step(Run(n, steps).value, t, ReleaseShared).value);
  }

  /** The load of `__release_weak` leads to the fast path exactly for the very last reference of any kind. */
  lemma FastPathIff(n: nat, steps: seq<(nat, Action)>, t: nat)
    requires n > 0 && Run(n, steps).Some? && Step(Run(n, steps).value, t, LoadWeak).Some?
    ensures var s := Run(n, steps).value;
      var r := Step(s, t, LoadWeak).value;
      && (Step(r, t, Free).Some? || Step(r, t, DecrementWeak).Some?)
      && (Step(r, t, Free).Some? <==> s.threads[t].shared == s.threads[t].weak == 0 && OthersDone(s, t))
  {
    hide Sum;
    var s := Run(n, steps).value;
    RunInv(n, steps);
    OneThread(s.threads, t, s.threads[t]);
    if Step(s, t, LoadWeak).value.threads[t].pc == FreeFast {
      forall u | 0 <= u < |s.threads| && u != t ensures s.threads[u] == Thread(Idle, 0, 0) {
        StepKeepsInv(s, t, LoadWeak);
        FastPathAlone(Step(s, t, LoadWeak).value, t, u);
      }
    } else if s.threads[t].shared == s.threads[t].weak == 0 && OthersDone(s, t) {
      SumOfOne(Weak, s.threads, t);
      SumOfOne(Shared, s.threads, t);
    }
  }

  /** No other thread has a reference or is inside an operation. */
  ghost predicate OthersDone(s: State, t: nat) {
    forall u | 0 <= u < |s.threads| && u != t :: s.threads[u] == Thread(Idle, 0, 0)
  }

  lemma {:induction false} SumOfOne(f: Thread -> nat, ts: seq<Thread>, t: nat)
    requires t < |ts| && forall u | 0 <= u < |ts| && u != t :: f(ts[u]) == 0
    ensures Sum(f, ts) == f(ts[t])
  {
    if t > 0 {
      SumOfOne(f, ts[1..], t - 1);
    } else {
      SumOfNone(f, ts[1..]);
    }
  }

  /** The steps inside an operation, and those that begin one with a handle of each kind. */
  const INSIDE: set<Action> := {Destroy, LoadWeak, DecrementWeak, Free, LoadShared, CasFails, LockGivesUp}
  const ON_SHARED: set<Action> := {AddShared, ReleaseShared, AddWeak}
  const ON_WEAK: set<Action> := {AddWeak, ReleaseWeak, Lock}

  /** No thread is ever stuck: inside an operation it has a next step, and outside its handles can all be used. */
  lemma NeverStuck(n: nat, steps: seq<(nat, Action)>, t: nat)
    requires n > 0 && Run(n, steps).Some? && t < |Run(n, steps).value.threads|
    ensures var s := Run(n, steps).value;
      var th := s.threads[t];
      && (th.pc != Idle ==> exists a :: a in INSIDE && Step(s, t, a).Some?)
      && (th.pc == Idle && th.shared > 0 ==> forall a | a in ON_SHARED :: Step(s, t, a).Some?)
      && (th.pc == Idle && th.weak > 0 ==> forall a | a in ON_WEAK :: Step(s, t, a).Some?)
    ensures var s := Run(n, steps).value;
      var th := s.threads[t];
      forall u: nat | u < |s.threads| && u != t && th.pc == Idle ::
        && (th.shared > 0 <==> Step(s, t, GiveShared(u)).Some?)
        && (th.weak > 0 <==> Step(s, t, GiveWeak(u)).Some?)
  {
    var s := Run(n, steps).value;
    var a := match s.threads[t].pc
      case Idle => Free
      case OnZeroShared => Destroy
      case WeakLoad => LoadWeak
      case WeakDecrement => DecrementWeak
      case FreeFast => Free
      case FreeSlow => Free
      case LockLoad => LoadShared
      case LockTry(owners) => if owners == -1 then LockGivesUp else CasFails;
    assert s.threads[t].pc != Idle ==> a in INSIDE && Step(s, t, a).Some?;
  }

  /** No step ever touches a freed control block. */
  lemma NoStepAfterFree(n: nat, steps: seq<(nat, Action)>, t: nat, a: Action)
    requires n > 0 && Run(n, steps).Some? && Step(Run(n, steps).value, t, a).Some?
    ensures Run(n, steps).value.freed == 0
  {
    hide Sum;
    var s := Run(n, steps).value;
    RunInv(n, steps);
    OneThread(s.threads, t, s.threads[t]);
  }

  /** The fast path of `__release_weak` frees only on the last reference, after the object was destroyed. */
  lemma FastPathIsLast(n: nat, steps: seq<(nat, Action)>, t: nat, u: nat)
    requires n > 0 && Run(n, steps).Some? && t < |Run(n, steps).value.threads| && u < |Run(n, steps).value.threads|
    requires Run(n, steps).value.threads[t].pc == FreeFast
    ensures Run(n, steps).value.destroyed == 1 && Run(n, steps).value.threads[t].weak == 0
    ensures u != t ==> Run(n, steps).value.threads[u] == Thread(Idle, 0, 0)
  {
    hide Sum;
    var s := Run(n, steps).value;
    RunInv(n, steps);
    OneThread(s.threads, t, s.threads[t]);
    if u != t { FastPathAlone(s, t, u); } else { DestroyingHoldsWeak(s.threads, t); }
  }
}
