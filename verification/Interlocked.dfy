/** The spinlock and the 64-bit counter, step by step, for any number of threads. */
module Interlocked {
  import opened Arithmetic

  // ---- enter / leave ----

  datatype Place = Outside | Spinning | Inside

  /** The lock word and where each thread is. */
  datatype Lock = Lock(word: nat, threads: map<nat, Place>)

  datatype LockStep = Call(t: nat) | Exchange(t: nat) | Leave(t: nat)

  ghost predicate CanLock(s: Lock, a: LockStep) {
    match a
    case Call(t) => t in s.threads && s.threads[t] == Outside
    case Exchange(t) => t in s.threads && s.threads[t] == Spinning
    case Leave(t) => t in s.threads && s.threads[t] == Inside
  }

  /** `xchg` writes 1 and answers the old word; the loop of `enter` ends on 0. */
  ghost function DoLock(s: Lock, a: LockStep): Lock
    requires CanLock(s, a)
  {
    match a
    case Call(t) => s.(threads := s.threads[t := Spinning])
    case Exchange(t) => Lock(1, s.threads[t := if s.word > 0 then Spinning else Inside])
    case Leave(t) => Lock(0, s.threads[t := Outside])
  }

  ghost predicate AtMostOneInside(s: Lock) {
    forall t, u | t in s.threads && u in s.threads && s.threads[t] == Inside && s.threads[u] == Inside :: t == u
  }

  /** The word is 0 or 1, and it is 1 exactly when a thread is inside; two never are. */
  ghost predicate LockInv(s: Lock) {
    && s.word <= 1
    && (s.word == 1 <==> exists t :: t in s.threads && s.threads[t] == Inside)
    && AtMostOneInside(s)
  }

  lemma LockStepKeeps(s: Lock, a: LockStep)
    requires LockInv(s) && CanLock(s, a)
    ensures LockInv(DoLock(s, a))
  {
    var s' := DoLock(s, a);
    if s.word == 1 {
      var t :| t in s.threads && s.threads[t] == Inside;
      if !a.Leave? { assert s'.threads[t] == Inside; }
    } else if a.Exchange? {
      assert s'.threads[a.t] == Inside;
    }
  }

  ghost predicate LockRun(s: Lock, run: seq<LockStep>, last: Lock)
    decreases |run|
  {
    if run == [] then s == last else CanLock(s, run[0]) && LockRun(DoLock(s, run[0]), run[1..], last)
  }

  /** Whatever step is possible after a run continues it. */
  lemma {:induction false} LockRunOn(s: Lock, run: seq<LockStep>, last: Lock, a: LockStep)
    requires LockRun(s, run, last) && CanLock(last, a)
    ensures LockRun(s, run + [a], DoLock(last, a))
    decreases |run|
  {
    if run == [] {
      ShortRun(s, [a], DoLock(last, a));
      assert run + [a] == [a];
    } else {
      LockRunOn(DoLock(s, run[0]), run[1..], last, a);
      assert (run + [a])[1..] == run[1..] + [a];
    }
  }

  /** Under every interleaving at most one thread is between `enter` and `leave`, and a free lock lets the next in. */
  lemma {:induction false} MutualExclusion(s: Lock, run: seq<LockStep>, last: Lock)
    requires LockInv(s) && LockRun(s, run, last)
    ensures LockInv(last)
    ensures AtMostOneInside(last)
    ensures forall t | t in last.threads && last.threads[t] == Spinning ::
              DoLock(last, Exchange(t)).threads[t] == Inside <==>
              (forall u | u in last.threads :: last.threads[u] != Inside)
    decreases |run|
  {
    if run != [] {
      LockStepKeeps(s, run[0]);
      MutualExclusion(DoLock(s, run[0]), run[1..], last);
    }
  }

  /** No run from here leads to two threads inside. */
  ghost predicate StaysExclusive(s: Lock) {
    forall run, last | LockRun(s, run, last) :: AtMostOneInside(last)
  }

  /**
    A `leave` by a thread that is not inside keeps mutual exclusion, in every run that may follow,
    exactly when no other thread is inside.
  */
  lemma StrayLeaveIff(s: Lock, t: nat)
    requires LockInv(s) && t in s.threads && s.threads[t] != Inside
    ensures StaysExclusive(Lock(0, s.threads)) <==> forall u | u in s.threads :: s.threads[u] != Inside
  {
    var s' := Lock(0, s.threads);
    if u :| u in s.threads && s.threads[u] == Inside {
      var called := if s.threads[t] == Outside then DoLock(s', Call(t)) else s';
      var last := DoLock(called, Exchange(t));
      ShortRun(called, [Exchange(t)], last);
      var run := if s.threads[t] == Outside then [Call(t), Exchange(t)] else [Exchange(t)];
      if s.threads[t] == Outside { assert run[1..] == [Exchange(t)]; }
      assert LockRun(s', run, last) && called.word == 0;
      assert last.threads[t] == Inside && last.threads[u] == Inside;
      assert !AtMostOneInside(last);
    } else {
      forall run, last | LockRun(s', run, last) ensures AtMostOneInside(last) {
        MutualExclusion(s', run, last);
      }
    }
  }

  lemma ShortRun(s: Lock, run: seq<LockStep>, last: Lock)
    requires |run| == 1 && CanLock(s, run[0]) && last == DoLock(s, run[0])
    ensures LockRun(s, run, last)
  {
    assert LockRun(last, run[1..], last);
  }

  // ---- increment / decrement by compare-and-exchange ----

  /** `read` is the value loaded, exact if the load was not torn; `seen` counts the updates before it. */
  datatype Update = Idle | Loaded(up: bool, read: nat, exact: bool, seen: nat) | Retry(up: bool)

  /** The word, the updates completed each way, and the threads. */
  datatype Counter = Counter(value: nat, ups: nat, downs: nat, threads: map<nat, Update>)

  /** A load may answer anything: the two halves of the word are not read together. */
  datatype CounterStep = Begin(t: nat, up: bool) | Load(t: nat, read: nat) | Compare(t: nat)

  ghost predicate CanCount(s: Counter, a: CounterStep, m: nat) {
    match a
    case Begin(t, up) => t in s.threads && s.threads[t].Idle?
    case Load(t, read) => t in s.threads && s.threads[t].Retry? && read < m
    case Compare(t) => t in s.threads && s.threads[t].Loaded?
  }

  /** Unsigned arithmetic of a word with `m` values. */
  function Changed(x: nat, up: bool, m: nat): nat
    requires m > 0
  {
    if up then (x + 1) % m else (x + m - 1) % m
  }

  ghost function DoCount(s: Counter, a: CounterStep, m: nat): Counter
    requires m > 0 && CanCount(s, a, m)
  {
    match a
    case Begin(t, up) => s.(threads := s.threads[t := Retry(up)])
    case Load(t, read) =>
      s.(threads := s.threads[t := Loaded(s.threads[t].up, read, read == s.value, s.ups + s.downs)])
    case Compare(t) =>
      var u := s.threads[t];
      if u.read == s.value then
        Counter(Changed(u.read, u.up, m), if u.up then s.ups + 1 else s.ups, if u.up then s.downs else s.downs + 1,
                s.threads[t := Idle])
      else s.(threads := s.threads[t := Retry(u.up)])
  }

  ghost predicate CounterInv(s: Counter, start: nat, m: nat)
    requires m > 0
  {
    && s.value < m && s.value == (start + s.ups - s.downs) % m
    && forall t | t in s.threads && s.threads[t].Loaded? ::
         s.threads[t].seen <= s.ups + s.downs &&
         (s.threads[t].exact && s.threads[t].seen == s.ups + s.downs ==> s.threads[t].read == s.value)
  }

  /** Wrapping after every step is wrapping once. */
  lemma StepWise(x: int, m: nat)
    requires m > 0
    ensures Changed(x % m, true, m) == (x + 1) % m && Changed(x % m, false, m) == (x - 1) % m
  {
    var q := x / m;
    Congruent(x + 1, x % m + 1, q, m);
    Congruent(x - 1, x % m + m - 1, q - 1, m) by { assert (q - 1) * m == q * m - m; }
  }

  lemma Congruent(x: int, y: nat, q: int, m: nat)
    requires m > 0 && x == q * m + y
    ensures x % m == y % m
  {
    var p := y / m;
    var d := x / m - (q + p);
    assert x == (q + p) * m + y % m;
    assert d * m == y % m - x % m by { assert (x / m) * m == d * m + (q + p) * m; }
    MulSign(d, m);
  }

  lemma CounterStepKeeps(s: Counter, a: CounterStep, start: nat, m: nat)
    requires m > 0 && CounterInv(s, start, m) && CanCount(s, a, m)
    ensures CounterInv(DoCount(s, a, m), start, m)
  {
    hide Changed;
    StepWise(start + s.ups - s.downs, m);
  }

  ghost predicate CounterRun(s: Counter, run: seq<CounterStep>, last: Counter, m: nat)
    requires m > 0
    decreases |run|
  {
    if run == [] then s == last else CanCount(s, run[0], m) && CounterRun(DoCount(s, run[0], m), run[1..], last, m)
  }

  /** Whatever step is possible after a run continues it. */
  lemma {:induction false} CounterRunOn(s: Counter, run: seq<CounterStep>, last: Counter, a: CounterStep, m: nat)
    requires m > 0 && CounterRun(s, run, last, m) && CanCount(last, a, m)
    ensures CounterRun(s, run + [a], DoCount(last, a, m), m)
    decreases |run|
  {
    hide Changed;
    if run == [] {
      assert run + [a] == [a] && [a][1..] == [];
      assert CounterRun(DoCount(s, a, m), [a][1..], DoCount(last, a, m), m);
    } else {
      CounterRunOn(DoCount(s, run[0], m), run[1..], last, a, m);
      assert (run + [a])[1..] == run[1..] + [a];
    }
  }

  /**
    Under every interleaving, torn reads included, the word is its first value plus the completed
    increments minus the completed decrements, modulo the word size.
  */
  lemma {:induction false} NoUpdateIsLost(s: Counter, run: seq<CounterStep>, last: Counter, start: nat, m: nat)
    requires m > 0 && CounterInv(s, start, m) && CounterRun(s, run, last, m)
    ensures CounterInv(last, start, m) && last.value == (start + last.ups - last.downs) % m
    decreases |run|
  {
    if run != [] {
      CounterStepKeeps(s, run[0], start, m);
      NoUpdateIsLost(DoCount(s, run[0], m), run[1..], last, start, m);
    }
  }

  /** A comparison that fails after an untorn read means that another thread has completed an update since. */
  lemma FailureIsProgress(s: Counter, t: nat, start: nat, m: nat)
    requires m > 0 && CounterInv(s, start, m) && CanCount(s, Compare(t), m)
    requires DoCount(s, Compare(t), m).threads[t].Retry? && s.threads[t].exact
    ensures s.ups + s.downs > s.threads[t].seen
  {}

  /** Thread `t` is about to complete its update, and this is what it will answer: old + 1 or old - 1. */
  ghost predicate Completing(s: Counter, t: nat, m: nat) {
    CanCount(s, Compare(t), m) && s.threads[t].read == s.value
  }

  ghost function Answer(s: Counter, t: nat, m: nat): nat
    requires m > 0 && Completing(s, t, m)
  {
    Changed(s.threads[t].read, s.threads[t].up, m)
  }

  /** In every run, an update answers the start plus all increments minus all decrements completed up to and with it. */
  lemma AnswerCounts(s: Counter, run: seq<CounterStep>, last: Counter, t: nat, start: nat, m: nat)
    requires m > 0 && CounterInv(s, start, m) && CounterRun(s, run, last, m) && Completing(last, t, m)
    ensures var after := DoCount(last, Compare(t), m);
      Answer(last, t, m) == (start + after.ups - after.downs) % m
  {
    NoUpdateIsLost(s, run, last, start, m);
    CounterStepKeeps(last, Compare(t), start, m);
  }

  lemma {:induction false} CountsGrow(s: Counter, run: seq<CounterStep>, last: Counter, m: nat)
    requires m > 0 && CounterRun(s, run, last, m)
    ensures s.ups <= last.ups && s.downs <= last.downs
    decreases |run|
  {
    if run != [] { CountsGrow(DoCount(s, run[0], m), run[1..], last, m); }
  }

  lemma Apart(x: int, d: nat, m: nat)
    requires 0 < d < m
    ensures x % m != (x + d) % m
  {
    var q := (x + d) / m - x / m;
    assert q * m == d - ((x + d) % m - x % m);
    MulSign(q, m);
  }

  /** Between decrements, fewer increments than the word has values all answer different numbers. */
  lemma TicketsDiffer(s: Counter, t: nat, run: seq<CounterStep>, last: Counter, u: nat, start: nat, m: nat)
    requires m > 0 && CounterInv(s, start, m) && Completing(s, t, m) && s.threads[t].up
    requires CounterRun(DoCount(s, Compare(t), m), run, last, m) && Completing(last, u, m) && last.threads[u].up
    requires last.downs == s.downs && last.ups - s.ups < m
    ensures Answer(s, t, m) != Answer(last, u, m)
  {
    var next := DoCount(s, Compare(t), m);
    CounterStepKeeps(s, Compare(t), start, m);
    AnswerCounts(s, [], s, t, start, m);
    AnswerCounts(next, run, last, u, start, m);
    CountsGrow(next, run, last, m);
    Apart(start + next.ups - next.downs, last.ups - s.ups, m);
  }

  // ---- What was begun is what is completed ----

  /** The threads in the middle of an increment, or of a decrement. */
  ghost function InFlight(threads: map<nat, Update>, up: bool): set<nat> {
    set t | t in threads && !threads[t].Idle? && threads[t].up == up
  }

  function Begun(run: seq<CounterStep>, up: bool): nat {
    if run == [] then 0 else (if run[0].Begin? && run[0].up == up then 1 else 0) + Begun(run[1..], up)
  }

  lemma WithoutOne(threads: map<nat, Update>, t: nat, up: bool)
    requires t in threads
    ensures |InFlight(threads, up)| ==
            |InFlight(threads - {t}, up)| + if !threads[t].Idle? && threads[t].up == up then 1 else 0
  {
    var rest := InFlight(threads - {t}, up);
    if !threads[t].Idle? && threads[t].up == up {
      assert InFlight(threads, up) == rest + {t};
    } else {
      assert InFlight(threads, up) == rest;
    }
  }

  lemma FlightChanges(s: Counter, a: CounterStep, m: nat, up: bool)
    requires m > 0 && CanCount(s, a, m)
    ensures var s' := DoCount(s, a, m);
      |InFlight(s'.threads, up)| + (if up then s'.ups - s.ups else s'.downs - s.downs) ==
      |InFlight(s.threads, up)| + if a.Begin? && a.up == up then 1 else 0
  {
    hide Changed, InFlight;
    var s' := DoCount(s, a, m);
    WithoutOne(s.threads, a.t, up);
    WithoutOne(s'.threads, a.t, up);
    assert s'.threads - {a.t} == s.threads - {a.t};
  }

  /** In every run, the increments begun are those completed and those in the middle, and so are the decrements. */
  lemma {:induction false} BegunIsCompleted(s: Counter, run: seq<CounterStep>, last: Counter, m: nat, up: bool)
    requires m > 0 && CounterRun(s, run, last, m)
    ensures Begun(run, up) + |InFlight(s.threads, up)| ==
            |InFlight(last.threads, up)| + if up then last.ups - s.ups else last.downs - s.downs
    decreases |run|
  {
    hide InFlight, Changed;
    if run != [] {
      FlightChanges(s, run[0], m, up);
      BegunIsCompleted(DoCount(s, run[0], m), run[1..], last, m, up);
    }
  }
}
