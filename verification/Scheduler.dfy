/** The round-robin scheduler: a circular list of tasks, a cursor, and the frame each task resumes with. */
module Scheduler {
  import opened Options

  /** Address of a saved `cpu_state`. */
  type Frame = nat

  // ---- On values ----

  /** Size of a kernel stack, and of a `cpu_state` of 19 words. */
  const STACK_SIZE: nat := 4096
  const FRAME_SIZE: nat := 19 * 4

  /**
    The saved frame and the kernel stack's end of each task in list order, the cursor, which is
    nowhere before the first switch, and `esp0` of the task state segment.
  */
  datatype State = State(frames: seq<Frame>, stacks: seq<nat>, current: Option<nat>, esp0: nat)

  ghost predicate Valid(s: State) {
    |s.stacks| == |s.frames| && (s.current.Some? ==> s.current.value < |s.frames|)
  }

  /** Moving past the last task leads to the first, and so does moving on from nowhere. */
  function After(s: State): nat
    requires s.frames != []
  {
    if s.current.None? || s.current.value + 1 >= |s.frames| then 0 else s.current.value + 1
  }

  function Switch(s: State, regs: Frame): (r: (Frame, State))
    requires Valid(s)
    ensures Valid(r.1)
  {
    if s.frames == [] then (regs, s)
    else
      var saved := if s.current.Some? then s.frames[s.current.value := regs] else s.frames;
      (saved[After(s)], State(saved, s.stacks, Some(After(s)), s.stacks[After(s)]))
  }

  /** A timer tick or a yield with the interrupted frame, or a new task on a fresh page for its kernel stack. */
  datatype Event = Tick(regs: Frame) | NewTask(page: nat)

  function Do(s: State, e: Event): (t: State)
    requires Valid(s)
    ensures Valid(t)
  {
    match e
    case Tick(regs) => Switch(s, regs).1
    case NewTask(page) =>
      s.(frames := s.frames + [page + STACK_SIZE - FRAME_SIZE], stacks := s.stacks + [page + STACK_SIZE])
  }

  function Run(s: State, es: seq<Event>): (t: State)
    requires Valid(s)
    ensures Valid(t)
    decreases |es|
  {
    if es == [] then s else Do(Run(s, es[..|es| - 1]), es[|es| - 1])
  }

  const BOOT: State := State([], [], None, 0)

  /**
    The frame that task `t` was last switched out with, or else its first one, 76 bytes at the end
    of its page, told from the events alone.
  */
  ghost function LastFrame(es: seq<Event>, t: nat): Option<Frame>
    decreases |es|
  {
    if es == [] then None
    else
      var before, e := es[..|es| - 1], es[|es| - 1];
      if e.Tick? && Run(BOOT, before).current == Some(t) then Some(e.regs)
      else if e.NewTask? && |Run(BOOT, before).frames| == t then Some(e.page + 4020)
      else LastFrame(before, t)
  }

  lemma {:induction false} FramesAreLast(es: seq<Event>, t: nat)
    ensures t < |Run(BOOT, es).frames| ==> LastFrame(es, t) == Some(Run(BOOT, es).frames[t])
    ensures t >= |Run(BOOT, es).frames| ==> LastFrame(es, t) == None
    decreases |es|
  {
    if es != [] {
      FramesAreLast(es[..|es| - 1], t);
    }
  }

  /** After any events, a switch resumes a task with the frame it was last switched out with, or its first one. */
  lemma ResumesWhereItLeft(es: seq<Event>, regs: Frame)
    requires Run(BOOT, es).frames != []
    ensures var r := Switch(Run(BOOT, es), regs);
      && r.1.current.Some?
      && LastFrame(es + [Tick(regs)], r.1.current.value) == Some(r.0)
  {
    var es' := es + [Tick(regs)];
    assert es'[..|es'| - 1] == es;
    FramesAreLast(es', Switch(Run(BOOT, es), regs).1.current.value);
  }

  /** The pages that the tasks were added with, in that order. */
  function Pages(es: seq<Event>): seq<nat> {
    if es == [] then []
    else Pages(es[..|es| - 1]) + if es[|es| - 1].NewTask? then [es[|es| - 1].page] else []
  }

  /** After any events, while a task runs, `esp0` is the end of the page that this task was added with. */
  lemma {:induction false} StackOfCurrent(es: seq<Event>)
    ensures var s := Run(BOOT, es);
      && |s.frames| == |s.stacks| == |Pages(es)|
      && (forall t | 0 <= t < |s.stacks| :: s.stacks[t] == Pages(es)[t] + 4096)
      && (s.current.Some? ==> s.esp0 == Pages(es)[s.current.value] + 4096)
    decreases |es|
  {
    if es != [] { StackOfCurrent(es[..|es| - 1]); }
  }

  /** The first frame of a task is the last thing on its own kernel stack, whose end `esp0` will be. */
  lemma FirstFrameOnStack(es: seq<Event>, page: nat)
    ensures var s := Run(BOOT, es + [NewTask(page)]);
      var t := |s.frames| - 1;
      && t >= 0 && page <= s.frames[t] && s.frames[t] + 19 * 4 == s.stacks[t] == page + 4096
      && LastFrame(es + [NewTask(page)], t) == Some(s.frames[t])
  {
    var es' := es + [NewTask(page)];
    assert es'[..|es'| - 1] == es;
    FramesAreLast(es', |Run(BOOT, es').frames| - 1);
  }

  // ---- Waiting ----

  /** How many switches away task `t` is. */
  function Distance(s: State, t: nat): (d: nat)
    requires Valid(s) && t < |s.frames|
    ensures 1 <= d <= |s.frames|
  {
    if s.current.None? then t + 1
    else if s.current.value < t then t - s.current.value
    else |s.frames| - s.current.value + t
  }

  lemma DistanceShrinks(s: State, t: nat, regs: Frame)
    requires Valid(s) && t < |s.frames|
    ensures var s' := Switch(s, regs).1;
      |s'.frames| == |s.frames| && (s'.current == Some(t) <==> Distance(s, t) == 1) &&
      (s'.current != Some(t) ==> Distance(s', t) == Distance(s, t) - 1)
  {}

  lemma DistanceGrows(s: State, t: nat, page: nat)
    requires Valid(s) && t < |s.frames|
    ensures Distance(Do(s, NewTask(page)), t) <= Distance(s, t) + 1
  {}

  function Ticks(es: seq<Event>): nat {
    if es == [] then 0 else Ticks(es[..|es| - 1]) + if es[|es| - 1].Tick? then 1 else 0
  }

  function Added(es: seq<Event>): nat {
    if es == [] then 0 else Added(es[..|es| - 1]) + if es[|es| - 1].NewTask? then 1 else 0
  }

  /** Some tick among the events switches to task `t`. */
  ghost predicate Scheduled(s: State, es: seq<Event>, t: nat)
    requires Valid(s)
  {
    exists k :: 0 <= k < |es| && SwitchesAt(s, es, t, k)
  }

  ghost predicate SwitchesAt(s: State, es: seq<Event>, t: nat, k: nat)
    requires Valid(s) && k < |es|
  {
    es[k].Tick? && Run(s, es[..k + 1]).current == Some(t)
  }

  /**
    While a task has not been switched to, its distance falls with every tick and grows at most with
    every new task.
  */
  lemma {:induction false} Waiting(s: State, es: seq<Event>, t: nat)
    requires Valid(s) && t < |s.frames| && !Scheduled(s, es, t)
    ensures t < |Run(s, es).frames|
    ensures Distance(Run(s, es), t) + Ticks(es) <= Distance(s, t) + Added(es)
    decreases |es|
  {
    if es != [] {
      var n := |es| - 1;
      forall k: nat | k < n ensures SwitchesAt(s, es[..n], t, k) == SwitchesAt(s, es, t, k) {
        assert es[..n][..k + 1] == es[..k + 1];
      }
      Waiting(s, es[..n], t);
      assert es[..n + 1] == es && !SwitchesAt(s, es, t, n);
      var before := Run(s, es[..n]);
      match es[n] {
        case Tick(regs) => DistanceShrinks(before, t, regs);
        case NewTask(page) => DistanceGrows(before, t, page);
      }
    }
  }

  /** No task waits for more ticks than its distance in the ring and the number of tasks added meanwhile. */
  lemma WaitIsBounded(s: State, es: seq<Event>, t: nat)
    requires Valid(s) && t < |s.frames| && Ticks(es) >= Distance(s, t) + Added(es)
    ensures exists k :: 0 <= k < |es| && es[k].Tick? && Run(s, es[..k + 1]).current == Some(t)
  {
    if !Scheduled(s, es, t) {
      Waiting(s, es, t);
    }
  }

  /** Every event is a tick or a new task. */
  lemma {:induction false} EventsCounted(es: seq<Event>)
    ensures Ticks(es) + Added(es) == |es| && Added(es) == |Pages(es)|
  {
    if es != [] { EventsCounted(es[..|es| - 1]); }
  }

  // ---- In place ----

  class Task {
    const kernelStack: nat
    var cpuState: Frame

    constructor (kernelStack0: nat, cpuState0: Frame)
      ensures kernelStack == kernelStack0 && cpuState == cpuState0
    {
      kernelStack, cpuState := kernelStack0, cpuState0;
    }
  }

  ghost function Frames(tasks: seq<Task>): (r: seq<Frame>)
    reads tasks
    ensures |r| == |tasks| && forall i | 0 <= i < |tasks| :: r[i] == tasks[i].cpuState
  {
    seq(|tasks|, i requires 0 <= i < |tasks| reads tasks => tasks[i].cpuState)
  }

  ghost function Stacks(tasks: seq<Task>): (r: seq<nat>)
    ensures |r| == |tasks| && forall i | 0 <= i < |tasks| :: r[i] == tasks[i].kernelStack
  {
    seq(|tasks|, i requires 0 <= i < |tasks| => tasks[i].kernelStack)
  }

  class TaskList {
    var tasks: seq<Task>
    var current: Option<nat>
    /** `esp0` in the task state segment. */
    var esp0: nat

    constructor ()
      ensures Ready() && Now() == BOOT
    {
      tasks, current, esp0 := [], None, 0;
    }

    ghost predicate Ready()
      reads this, tasks
    {
      Valid(Now()) && forall i, j | 0 <= i < j < |tasks| :: tasks[i] != tasks[j]
    }

    ghost function Now(): State
      reads this, tasks
    {
      State(Frames(tasks), Stacks(tasks), current, esp0)
    }

    method Save(regs: Frame)
      requires Ready() && current.Some?
      modifies tasks[current.value]
      ensures Frames(tasks) == old(Frames(tasks))[current.value := regs]
    {
      tasks[current.value].cpuState := regs;
    }

    method Next(regs: Frame) returns (resume: Frame)
      requires Ready()
      modifies this`current, this`esp0, tasks
      ensures Ready() && tasks == old(tasks) && (resume, Now()) == Switch(old(Now()), regs)
      ensures tasks != [] ==> esp0 == tasks[current.value].kernelStack
    {
      if tasks == [] { return regs; }
      if current.Some? { Save(regs); }
      current := if current.None? then Some(0) else Some(current.value + 1);
      if current.value == |tasks| {
        current := Some(0);
      }
      esp0 := tasks[current.value].kernelStack;
      return tasks[current.value].cpuState;
    }

    /** `new_task`; `page` is the fresh kernel stack, with the frame built at its end. */
    method AddTask(page: nat)
      requires Ready()
      modifies this`tasks
      ensures Ready() && Now() == Do(old(Now()), NewTask(page))
      ensures tasks != [] && tasks[..|tasks| - 1] == old(tasks) && fresh(tasks[|tasks| - 1])
      ensures tasks[|tasks| - 1].kernelStack == page + 4096 && tasks[|tasks| - 1].cpuState == page + 4020
    {
      var stackEnd := page + STACK_SIZE;
      var task := new Task(stackEnd, stackEnd - FRAME_SIZE);
      tasks := tasks + [task];
      assert Frames(tasks) == old(Frames(tasks)) + [stackEnd - FRAME_SIZE];
      assert Stacks(tasks) == old(Stacks(tasks)) + [stackEnd];
    }
  }
}
