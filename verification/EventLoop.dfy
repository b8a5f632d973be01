/**
 How tasks reach an `EventLoop` (source/server.hpp). Any number of threads push: `push_back`
 under the lock, then, as a separate step, `Awake` on the eventfd. The loop blocks in `Monitor`,
 handles events, swaps the queue out and runs it. Every interleaving is a run of this machine.
 The eventfd is non-blocking, so its `write` does not sleep and cannot be interrupted.
 */
module EventLoop {
  type Task = nat
  type Thread = nat

  /** The thread that runs the loop. Its own tasks and callbacks push like any other thread. */
  const LOOP: Thread := 0

  /** Where the loop is. `read` says that the eventfd is among the ready channels and has not
      been handled yet; `batch` is what is left of the tasks swapped out. */
  datatype Mode = Blocked | Handling(read: bool) | Running(batch: seq<Task>)

  /** `pushed` and `executed` are the histories of pushes and of calls. */
  datatype State = State(tasks: seq<Task>, counter: nat, pushing: set<Thread>, mode: Mode,
                         pushed: seq<Task>, executed: seq<Task>)

  const INIT := State([], 0, {}, Blocked, [], [])

  datatype Step =
    | Push(thread: Thread, task: Task)   // push_back, under the lock
    | Awake(thread: Thread)              // the eventfd is written
    | Monitor(event: bool, other: bool)  // epoll_wait returns; is the eventfd, is another channel ready?
    | MonitorInterrupted                 // epoll_wait returns with an error and no events
    | ReadEvent                          // Eventfd::Read: the counter drops to 0
    | Swap                               // RunTasks takes the queue, under the lock
    | RunOne                             // the next task of the batch is called
    | Return                             // the batch is done, back to Monitor

  /** The eventfd channel is level-triggered: it can be reported only while the counter is
      positive. The loop thread takes no step of its own in the middle of a push. */
  predicate Enabled(s: State, step: Step) {
    match step
    case Push(thread, _) => thread !in s.pushing && (thread == LOOP ==> !s.mode.Blocked?)
    case Awake(thread) => thread in s.pushing
    case Monitor(event, other) => AtLoop(s) && s.mode.Blocked? && (event || other) && (event ==> s.counter > 0)
    case MonitorInterrupted => AtLoop(s) && s.mode.Blocked?
    case ReadEvent => AtLoop(s) && s.mode == Handling(true)
    case Swap => AtLoop(s) && s.mode == Handling(false)
    case RunOne => AtLoop(s) && Batch(s) != []
    case Return => AtLoop(s) && s.mode == Running([])
  }

  predicate AtLoop(s: State) {
    LOOP !in s.pushing
  }

  function Batch(s: State): seq<Task> {
    if s.mode.Running? then s.mode.batch else []
  }

  function Apply(s: State, step: Step): State
    requires Enabled(s, step)
  {
    match step
    case Push(thread, task) =>
      s.(tasks := s.tasks + [task], pushed := s.pushed + [task], pushing := s.pushing + {thread})
    case Awake(thread) => s.(counter := s.counter + 1, pushing := s.pushing - {thread})
    case Monitor(event, _) => s.(mode := Handling(event))
    case MonitorInterrupted => s.(mode := Handling(false))
    case ReadEvent => s.(counter := 0, mode := Handling(false))
    case Swap => s.(tasks := [], mode := Running(s.tasks))
    case RunOne =>
      s.(mode := Running(s.mode.batch[1..]), executed := s.executed + [s.mode.batch[0]])
    case Return => s.(mode := Blocked)
  }

  predicate IsRun(s: State, steps: seq<Step>)
    decreases |steps|
  {
    steps == [] || (Enabled(s, steps[0]) && IsRun(Apply(s, steps[0]), steps[1..]))
  }

  function Exec(s: State, steps: seq<Step>): State
    requires IsRun(s, steps)
    decreases |steps|
  {
    if steps == [] then s else Exec(Apply(s, steps[0]), steps[1..])
  }

  // ---------------------------------------------------------------- invariants

  /** Executed tasks, the rest of the batch and the queue make up the pushes, in push order. */
  predicate Fifo(s: State) {
    s.executed + Batch(s) + s.tasks == s.pushed
  }

  /** Outside event handling, every queued task has a wakeup: in the counter, or still to be
      written by its pusher. The eventfd is handled only while it is readable. */
  predicate Covered(s: State) {
    && (!s.mode.Handling? ==> |s.tasks| <= s.counter + |s.pushing|)
    && (s.mode == Handling(true) ==> s.counter > 0)
  }

  predicate Inv(s: State) {
    Fifo(s) && Covered(s)
  }

  lemma FifoKept(s: State, step: Step)
    requires Fifo(s) && Enabled(s, step)
    ensures Fifo(Apply(s, step))
  {
    match step
    case Push(_, task) =>
      assert s.executed + Batch(s) + (s.tasks + [task]) == s.executed + Batch(s) + s.tasks + [task];
    case RunOne =>
      var batch := s.mode.batch;
      assert s.executed + [batch[0]] + batch[1..] == s.executed + batch;
    case Swap =>
      assert s.executed + s.tasks + [] == s.executed + [] + s.tasks;
    case _ =>
  }

  lemma CoveredKept(s: State, step: Step)
    requires Covered(s) && Enabled(s, step)
    ensures Covered(Apply(s, step))
  {
    match step
    case Push(thread, _) =>
      assert |s.pushing + {thread}| == |s.pushing| + 1;
    case Awake(thread) =>
      assert |s.pushing - {thread}| == |s.pushing| - 1;
    case _ =>
  }

  lemma StepKept(s: State, step: Step)
    requires Inv(s) && Enabled(s, step)
    ensures Inv(Apply(s, step))
  {
    FifoKept(s, step);
    CoveredKept(s, step);
  }

  lemma {:induction false} InvKept(s: State, steps: seq<Step>)
    requires Inv(s) && IsRun(s, steps)
    ensures Inv(Exec(s, steps))
    decreases |steps|
  {
    if steps != [] {
      StepKept(s, steps[0]);
      InvKept(Apply(s, steps[0]), steps[1..]);
    }
  }

  // ---------------------------------------------------------------- safety over all runs

  /** Exactly once, in order: in every reachable state of every interleaving. */
  lemma ExactlyOnceFifo(steps: seq<Step>)
    requires IsRun(INIT, steps)
    ensures var s := Exec(INIT, steps);
            s.executed + Batch(s) + s.tasks == s.pushed && s.executed <= s.pushed
  {
    InvKept(INIT, steps);
    var s := Exec(INIT, steps);
    assert s.pushed == s.executed + (Batch(s) + s.tasks);
  }

  /** No lost wakeup: if the loop is blocked while tasks are queued, the eventfd is readable or
      some producer is between its `push_back` and its `Awake`. */
  lemma NoLostWakeup(steps: seq<Step>)
    requires IsRun(INIT, steps)
    ensures var s := Exec(INIT, steps);
            s.mode.Blocked? && s.tasks != [] ==> s.counter > 0 || s.pushing != {}
  {
    InvKept(INIT, steps);
  }

  // ---------------------------------------------------------------- the histories

  /** What a run pushes, in order. */
  function Pushes(steps: seq<Step>): seq<Task>
    decreases |steps|
  {
    if steps == [] then [] else (if steps[0].Push? then [steps[0].task] else []) + Pushes(steps[1..])
  }

  /** The histories are those of the steps: what was pushed, how many calls were made. */
  lemma {:induction false} HistoriesAre(s: State, steps: seq<Step>)
    requires IsRun(s, steps)
    ensures Exec(s, steps).pushed == s.pushed + Pushes(steps)
    ensures |Exec(s, steps).executed| == |s.executed| + Calls(steps)
    decreases |steps|
  {
    if steps != [] {
      HistoriesAre(Apply(s, steps[0]), steps[1..]);
      assert s.pushed + ([] + Pushes(steps[1..])) == s.pushed + Pushes(steps[1..]);
      if steps[0].Push? {
        assert s.pushed + ([steps[0].task] + Pushes(steps[1..])) == s.pushed + [steps[0].task] + Pushes(steps[1..]);
      }
    } else {
      assert s.pushed + [] == s.pushed;
    }
  }

  // ---------------------------------------------------------------- one batch

  predicate SameBatch(steps: seq<Step>) {
    forall i :: 0 <= i < |steps| ==> !steps[i].Return?
  }

  /** How many calls a run makes. */
  function Calls(steps: seq<Step>): nat
    decreases |steps|
  {
    if steps == [] then 0 else (if steps[0].RunOne? then 1 else 0) + Calls(steps[1..])
  }

  /** What is pushed while a batch runs lands in a later one: until the loop goes back to
      `Monitor` it calls at most the tasks that were swapped out, in order, even if each of them
      pushes others. */
  lemma {:induction false} BatchIsFinite(s: State, steps: seq<Step>)
    requires s.mode.Running? && IsRun(s, steps) && SameBatch(steps)
    ensures Calls(steps) <= |s.mode.batch|
    ensures var t := Exec(s, steps);
            && t.mode == Running(s.mode.batch[Calls(steps)..])
            && t.executed == s.executed + s.mode.batch[..Calls(steps)]
            && s.tasks <= t.tasks
    decreases |steps|
  {
    if steps == [] {
      assert s.mode.batch[0..] == s.mode.batch && s.executed + [] == s.executed;
    } else {
      var t := Apply(s, steps[0]);
      assert forall i :: 0 <= i < |steps[1..]| ==> steps[1..][i] == steps[i + 1];
      assert !steps[0].Return?;
      BatchIsFinite(t, steps[1..]);
      if steps[0].RunOne? {
        var batch, n := s.mode.batch, Calls(steps[1..]);
        assert batch[1..][n..] == batch[n + 1..];
        assert s.executed + [batch[0]] + batch[1..][..n] == s.executed + batch[..n + 1];
      }
    }
  }

  // ---------------------------------------------------------------- one turn

  lemma RunCons(s: State, step: Step, steps: seq<Step>)
    requires Enabled(s, step) && IsRun(Apply(s, step), steps)
    ensures IsRun(s, [step] + steps) && Exec(s, [step] + steps) == Exec(Apply(s, step), steps)
  {
    hide Enabled, Apply;
    assert ([step] + steps)[1..] == steps;
  }

  /** A turn of the blocked loop takes the whole queue: through its eventfd, whose counter it resets,
      through another channel, or after an interrupted `epoll_wait`. */
  lemma TurnTakesAll(s: State)
    requires s.mode.Blocked? && AtLoop(s)
    ensures var steps := [MonitorInterrupted] + ([Swap] + []);
            IsRun(s, steps) && Exec(s, steps) == s.(tasks := [], mode := Running(s.tasks))
    ensures var steps := [Monitor(false, true)] + ([Swap] + []);
            IsRun(s, steps) && Exec(s, steps) == s.(tasks := [], mode := Running(s.tasks))
    ensures var steps := [Monitor(true, false)] + ([ReadEvent] + ([Swap] + []));
            if s.counter > 0
            then IsRun(s, steps) && Exec(s, steps) == s.(tasks := [], mode := Running(s.tasks), counter := 0)
            else !Enabled(s, Monitor(true, false))
  {
    var h := s.(mode := Handling(false));
    var r := h.(counter := 0);
    RunCons(h, Swap, []);
    RunCons(r, Swap, []);
    RunCons(s, MonitorInterrupted, [Swap] + []);
    RunCons(s, Monitor(false, true), [Swap] + []);
    if s.counter > 0 {
      RunCons(s.(mode := Handling(true)), ReadEvent, [Swap] + []);
      RunCons(s, Monitor(true, false), [ReadEvent] + ([Swap] + []));
    }
  }

  // ---------------------------------------------------------------- progress

  /** The steps that need nothing from outside: pending wakeups are written, and the loop goes its
      way, leaving `Monitor` only for its own eventfd. */
  predicate Own(step: Step) {
    || step.Awake? || step == Monitor(true, false) || step.ReadEvent?
    || step.Swap? || step.RunOne? || step.Return?
  }

  predicate AllOwn(steps: seq<Step>) {
    forall i :: 0 <= i < |steps| ==> Own(steps[i])
  }

  /** How many such steps a state has left at most. */
  function Work(s: State): nat {
    6 * |s.pushing| + 5 * s.counter + |s.tasks| + |Batch(s)|
    + match s.mode
      case Blocked => 1
      case Handling(read) => if read then 0 else 4
      case Running(_) => 3
  }

  lemma OwnStepWorks(s: State, step: Step)
    requires Inv(s) && Enabled(s, step) && Own(step)
    ensures Work(Apply(s, step)) < Work(s) && Apply(s, step).pushed == s.pushed
  {
    if step.Awake? {
      assert |s.pushing - {step.thread}| == |s.pushing| - 1;
    }
  }

  lemma {:induction false} OwnRunIsFinite(s: State, steps: seq<Step>)
    requires Inv(s) && IsRun(s, steps) && AllOwn(steps)
    ensures |steps| <= Work(s) && Exec(s, steps).pushed == s.pushed && Inv(Exec(s, steps))
    decreases |steps|
  {
    hide Inv, Work;
    if steps != [] {
      assert Own(steps[0]) && forall i :: 0 <= i < |steps[1..]| ==> steps[1..][i] == steps[i + 1];
      OwnStepWorks(s, steps[0]);
      StepKept(s, steps[0]);
      OwnRunIsFinite(Apply(s, steps[0]), steps[1..]);
    }
  }

  /** A state in which no such step is left has executed everything. */
  lemma AtRestAllExecuted(s: State)
    requires Inv(s)
    requires forall step :: Own(step) ==> !Enabled(s, step)
    ensures s.executed == s.pushed
  {
    if s.pushing != {} {
      var thread :| thread in s.pushing;
      assert Own(Awake(thread)) && Enabled(s, Awake(thread));
      assert false;
    }
    assert !Enabled(s, ReadEvent) && !Enabled(s, Swap) && !Enabled(s, RunOne) && !Enabled(s, Return);
    assert !Enabled(s, Monitor(true, false));
    assert s.mode.Blocked? && s.counter == 0;
    assert s.executed + [] + [] == s.executed;
  }

  /** Nothing pushed is ever stranded, in any interleaving and under any schedule: from every
      reachable state the pending wakeups and the loop on their own can take only finitely many
      steps, and whenever they have no step left, everything pushed has been executed. */
  lemma NothingStranded(history: seq<Step>, steps: seq<Step>)
    requires IsRun(INIT, history) && IsRun(Exec(INIT, history), steps) && AllOwn(steps)
    ensures var (s, t) := (Exec(INIT, history), Exec(Exec(INIT, history), steps));
            && |steps| <= Work(s) && t.pushed == s.pushed
            && ((forall step :: Own(step) ==> !Enabled(t, step)) ==> t.executed == s.pushed)
  {
    hide Work, Own, Enabled, Apply;
    InvKept(INIT, history);
    var s := Exec(INIT, history);
    OwnRunIsFinite(s, steps);
    var t := Exec(s, steps);
    if forall step :: Own(step) ==> !Enabled(t, step) {
      AtRestAllExecuted(t);
    }
  }
}
