/**
 What the timing wheel of source/server.hpp is for: a table from timer ids to deadlines. The
 wheel itself, which knows neither ids nor deadlines but counts references, is in TimeWheel.dfy.
 */
module DeadlineMap {
  import opened Strings

  const SLOTS := 60

  type Id = nat

  /** A callback; `None` is an empty `std::function`. */
  type Callback = Option<nat>

  /** The timeout as `TimerTask` stores it, in a `uint32_t`. */
  function Stored(timeout: nat): nat {
    timeout % 0x1_0000_0000
  }

  /** How many ticks a refresh buys: the timeout for 1 to 60, and always at most one turn. */
  function Delay(timeout: nat): (k: nat)
    ensures 1 <= k <= SLOTS
  {
    if timeout % SLOTS == 0 then SLOTS else timeout % SLOTS
  }

  /** The least positive number congruent to the timeout. */
  lemma DelayIsLeast(timeout: nat, k: nat)
    requires k > 0 && k % SLOTS == timeout % SLOTS
    ensures Delay(timeout) <= k && Delay(timeout) % SLOTS == timeout % SLOTS
    ensures 1 <= timeout <= SLOTS ==> Delay(timeout) == timeout
  {
  }

  datatype Timer = Timer(delay: nat, deadline: nat, task: Callback, live: bool)

  /** A callback that has been called: when, for which id. */
  datatype Event = Event(time: nat, id: Id, task: nat)

  datatype State = State(now: nat, timers: map<Id, Timer>, fired: set<Event>)

  const NO_TIMERS := State(0, map[], {})

  datatype Op = Add(id: Id, task: Callback, timeout: nat) | Update(id: Id) | Cancel(id: Id) | Increment

  predicate DueAt(t: Timer, time: nat) { t.deadline == time }

  predicate Fires(t: Timer) { t.live && t.task.Some? }

  function Step(s: State, op: Op): State {
    match op
    case Add(id, task, timeout) =>
      if id in s.timers then s
      else s.(timers := s.timers[id := Timer(Delay(Stored(timeout)), s.now + Delay(Stored(timeout)), task, true)])
    case Update(id) =>
      if id !in s.timers then s
      else s.(timers := s.timers[id := s.timers[id].(deadline := s.now + s.timers[id].delay)])
    case Cancel(id) =>
      if id !in s.timers then s
      else s.(timers := s.timers[id := s.timers[id].(live := false)])
    case Increment =>
      var now := s.now + 1;
      State(now, Remaining(s.timers, now), s.fired + CallsAt(s.timers, now))
  }

  /** The timers that are not due at `now`. */
  function Remaining(timers: map<Id, Timer>, now: nat): map<Id, Timer> {
    map id | id in timers && !DueAt(timers[id], now) :: timers[id]
  }

  /** The calls of the live timers that are. */
  function CallsAt(timers: map<Id, Timer>, now: nat): set<Event> {
    set id | id in timers && DueAt(timers[id], now) && Fires(timers[id]) :: Event(now, id, timers[id].task.value)
  }

  lemma StepKnown(s: State, op: Op)
    ensures op.Add? && op.id in s.timers ==> Step(s, op) == s
    ensures op.Update? && op.id !in s.timers ==> Step(s, op) == s
    ensures op.Cancel? && op.id !in s.timers ==> Step(s, op) == s
    ensures op.Add? && op.id !in s.timers ==>
              var d := Delay(Stored(op.timeout));
              Step(s, op) == s.(timers := s.timers[op.id := Timer(d, s.now + d, op.task, true)])
    ensures op.Update? && op.id in s.timers ==>
              var t := s.timers[op.id];
              Step(s, op) == s.(timers := s.timers[op.id := t.(deadline := s.now + t.delay)])
    ensures op.Cancel? && op.id in s.timers ==>
              Step(s, op) == s.(timers := s.timers[op.id := s.timers[op.id].(live := false)])
  {
  }

  function Run(s: State, ops: seq<Op>): State {
    if ops == [] then s else Step(Run(s, ops[..|ops| - 1]), ops[|ops| - 1])
  }

  /** Every deadline is ahead, by at most the delay; no event is from the future. */
  predicate WellTimed(s: State) {
    && (forall id :: id in s.timers ==>
          && s.now < s.timers[id].deadline <= s.now + s.timers[id].delay
          && s.timers[id].delay <= SLOTS)
    && (forall e :: e in s.fired ==> e.time <= s.now)
  }

  lemma StepWellTimed(s: State, op: Op)
    requires WellTimed(s)
    ensures WellTimed(Step(s, op))
  {
  }

  // ---------------------------------------------------------------- the life of one timer

  function EventsOf(s: State, id: Id): set<Event> {
    set e | e in s.fired && e.id == id
  }

  /** The timer stays in the table all through the run. */
  predicate Alive(s: State, ops: seq<Op>, id: Id) {
    id in Run(s, ops).timers && (ops != [] ==> Alive(s, ops[..|ops| - 1], id))
  }

  /** Wheel time of the last refresh: the start of the run, or its last `Update`. */
  function LastRefresh(s: State, ops: seq<Op>, id: Id): nat {
    if ops == [] then s.now
    else
      var init, op := ops[..|ops| - 1], ops[|ops| - 1];
      if op == Update(id) then Run(s, init).now else LastRefresh(s, init, id)
  }

  predicate NeverCancelled(ops: seq<Op>, id: Id) {
    forall i :: 0 <= i < |ops| ==> ops[i] != Cancel(id)
  }

  /** While a timer is in the table, its deadline is its last refresh plus its delay, it is live
      unless it was cancelled, and its callback has not been called. */
  lemma {:induction false} WhileAlive(s: State, ops: seq<Op>, id: Id)
    requires WellTimed(s) && Alive(s, ops, id) && id in s.timers
    requires s.timers[id].deadline == s.now + s.timers[id].delay
    ensures var (t, o) := (s.timers[id], Run(s, ops));
            && o.timers[id] == Timer(t.delay, LastRefresh(s, ops, id) + t.delay, t.task,
                                     t.live && NeverCancelled(ops, id))
            && EventsOf(o, id) == EventsOf(s, id) && WellTimed(o)
  {
    if ops != [] {
      var init, op := ops[..|ops| - 1], ops[|ops| - 1];
      WhileAlive(s, init, id);
      StepWellTimed(Run(s, init), op);
      assert NeverCancelled(ops, id) == (NeverCancelled(init, id) && op != Cancel(id)) by {
        assert forall i :: 0 <= i < |init| ==> ops[i] == init[i];
      }
      OneStep(Run(s, init), op, id);
    }
  }

  /** A timer leaves the table in one way only: by the tick that reaches its deadline, which
      calls its callback if it is live. */
  lemma OneStep(s: State, op: Op, id: Id)
    requires WellTimed(s) && id in s.timers
    ensures var (t, o) := (s.timers[id], Step(s, op));
            && (id !in o.timers <==> op == Increment && s.now + 1 == t.deadline)
            && (id in o.timers ==>
                  && EventsOf(o, id) == EventsOf(s, id)
                  && o.timers[id] == (if op == Update(id) then t.(deadline := s.now + t.delay)
                                      else if op == Cancel(id) then t.(live := false) else t))
            && (id !in o.timers ==>
                  EventsOf(o, id) == EventsOf(s, id)
                    + if Fires(t) then {Event(t.deadline, id, t.task.value)} else {})
  {
  }

  /** The least positive number of ticks that is the timeout modulo 60, in terms of the timeout as it
      is given: its low 32 bits count, and 1 to 60 stand for themselves. */
  lemma TicksOf(timeout: nat, k: nat)
    requires 1 <= k <= 60 && k % 60 == timeout % 0x1_0000_0000 % 60
    ensures Delay(Stored(timeout)) == k
    ensures forall j: nat :: 0 < j && j % 60 == timeout % 0x1_0000_0000 % 60 ==> k <= j
    ensures timeout < 0x1_0000_0000 ==> k % 60 == timeout % 60
    ensures 1 <= timeout <= 60 ==> k == timeout
  {
  }

  lemma DestroyedAfterDelay(s: State, id: Id, task: Callback, timeout: nat, ops: seq<Op>, op: Op)
    requires WellTimed(s) && id !in s.timers
    requires Alive(Step(s, Add(id, task, timeout)), ops, id)
    ensures var a := Step(s, Add(id, task, timeout));
            var (o, o') := (Run(a, ops), Step(Run(a, ops), op));
            var end := LastRefresh(a, ops, id) + Delay(Stored(timeout));
            && (id !in o'.timers <==> op == Increment && o.now + 1 == end)
            && EventsOf(o, id) == EventsOf(s, id)
            && EventsOf(o', id) == EventsOf(s, id)
                 + if id !in o'.timers && NeverCancelled(ops, id) && task.Some?
                   then {Event(end, id, task.value)} else {}
  {
    hide Delay, Stored, Step, EventsOf, NeverCancelled, LastRefresh, WellTimed;
    var a := Step(s, Add(id, task, timeout));
    StartsFresh(s, id, task, timeout);
    Run0(a, ops);
    WhileAlive(a, ops, id);
    OneStep(Run(a, ops), op, id);
  }

  lemma StartsFresh(s: State, id: Id, task: Callback, timeout: nat)
    requires WellTimed(s) && id !in s.timers
    ensures var (a, d) := (Step(s, Add(id, task, timeout)), Delay(Stored(timeout)));
            && WellTimed(a) && EventsOf(a, id) == EventsOf(s, id)
            && id in a.timers && a.timers[id] == Timer(d, a.now + d, task, true)
  {
    hide Delay, Stored;
  }

  /** The whole life of a timer, for every run. Added at any time and refreshed at will, it is
      destroyed exactly `k` ticks after its last refresh, neither earlier nor later. Its callback is
      called once, then, if it was never cancelled, and otherwise never. */
  lemma DestroyedExactly(s: State, id: Id, task: Callback, timeout: nat, ops: seq<Op>, op: Op, k: nat)
    requires WellTimed(s) && id !in s.timers
    requires Alive(Step(s, Add(id, task, timeout)), ops, id)
    requires 1 <= k <= 60 && k % 60 == timeout % 0x1_0000_0000 % 60
    ensures var a := Step(s, Add(id, task, timeout));
            var (o, o') := (Run(a, ops), Step(Run(a, ops), op));
            var end := LastRefresh(a, ops, id) + k;
            && (id !in o'.timers <==> op == Increment && o.now + 1 == end)
            && EventsOf(o, id) == EventsOf(s, id)
            && EventsOf(o', id) == EventsOf(s, id)
                 + if id !in o'.timers && NeverCancelled(ops, id) && task.Some?
                   then {Event(end, id, task.value)} else {}
  {
    hide Delay, Stored, Alive, Run, Step, LastRefresh, WellTimed, NeverCancelled, EventsOf;
    TicksOf(timeout, k);
    DestroyedAfterDelay(s, id, task, timeout, ops, op);
  }

  /** A new timer, in terms of the timeout as it is given: due after the least positive number of
      ticks congruent to its low 32 bits modulo 60. */
  ghost predicate IsAdded(before: State, after: State, id: Id, task: Callback, timeout: nat) {
    forall k: nat :: 1 <= k <= 60 && k % 60 == timeout % 0x1_0000_0000 % 60 ==>
      after == before.(timers := before.timers[id := Timer(k, before.now + k, task, true)])
  }

  lemma AddExact(s: State, id: Id, task: Callback, timeout: nat)
    ensures id !in s.timers ==> IsAdded(s, Step(s, Add(id, task, timeout)), id, task, timeout)
    ensures id in s.timers ==> Step(s, Add(id, task, timeout)) == s
  {
    hide Delay, Stored;
    forall k: nat | 1 <= k <= 60 && k % 60 == timeout % 0x1_0000_0000 % 60
      ensures Delay(Stored(timeout)) == k
    {
      TicksOf(timeout, k);
    }
  }

  lemma {:induction false} Run0(s: State, ops: seq<Op>)
    ensures forall id :: Alive(s, ops, id) ==> id in s.timers
  {
    if ops != [] {
      Run0(s, ops[..|ops| - 1]);
    }
  }
}
