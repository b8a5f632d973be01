/**
 The timing wheel of source/server.hpp. A slot holds shared pointers; refreshing a timer pushes
 one more pointer, and a task runs from its destructor, when a tick has cleared the slot with the
 last of them. The class is proved to behave as the table of deadlines in DeadlineMap.dfy.
 */
module TimeWheel {
  import opened Strings
  import D = DeadlineMap

  const SLOTS := D.SLOTS

  // ---------------------------------------------------------------- slots and due times

  /** When slot `s` is cleared next, seen from time `now`. */
  function Due(now: nat, s: nat): (t: nat)
    requires s < SLOTS
    ensures now < t <= now + SLOTS && t % SLOTS == s
  {
    now + 1 + (s + 59 - now % SLOTS) % SLOTS
  }

  lemma DueUnique(now: nat, t: nat)
    requires now < t <= now + SLOTS
    ensures Due(now, t % SLOTS) == t
  {
  }

  lemma DueNext(now: nat, s: nat)
    requires s < SLOTS
    ensures Due(now + 1, s) == if s == (now + 1) % SLOTS then now + 1 + SLOTS else Due(now, s)
  {
    if s == (now + 1) % SLOTS {
      DueUnique(now + 1, now + 1 + SLOTS);
    } else {
      assert Due(now, s) != now + 1;
      DueUnique(now + 1, Due(now, s));
    }
  }

  /** The slot `Add` and `Update` push into is the slot of the new deadline. */
  lemma SlotOfDeadline(now: nat, timeout: nat)
    ensures (now % SLOTS + timeout) % SLOTS == (now + D.Delay(timeout)) % SLOTS
  {
  }

  // ---------------------------------------------------------------- counting references

  /** `TimerTask`. `refs` is the use count of its control block: the shared pointers in slots. */
  class TimerTask {
    const id: D.Id
    const timeout: nat
    const task: D.Callback
    var isValid: bool
    var refs: nat

    constructor (id: D.Id, task: D.Callback, timeout: nat)
      ensures this.id == id && this.task == task && this.timeout == D.Stored(timeout)
      ensures isValid && refs == 0
    {
      this.id, this.task, this.timeout := id, task, D.Stored(timeout);
      isValid, refs := true, 0;
    }
  }

  /** Number of pointers to `t` in the whole wheel. */
  ghost function Count(clock: seq<seq<TimerTask>>, t: TimerTask): nat {
    if clock == [] then 0
    else Count(clock[..|clock| - 1], t) + multiset(clock[|clock| - 1])[t]
  }

  lemma {:induction false} CountUpdate(clock: seq<seq<TimerTask>>, s: nat, slot: seq<TimerTask>, t: TimerTask)
    requires s < |clock|
    ensures Count(clock[s := slot], t) + multiset(clock[s])[t] == Count(clock, t) + multiset(slot)[t]
  {
    var n := |clock| - 1;
    if s == n {
      assert clock[s := slot][..n] == clock[..n];
    } else {
      assert clock[s := slot][..n] == clock[..n][s := slot];
      CountUpdate(clock[..n], s, slot, t);
    }
  }

  predicate InSomeSlot(clock: seq<seq<TimerTask>>, t: TimerTask) {
    exists s :: 0 <= s < |clock| && t in clock[s]
  }

  lemma {:induction false} CountPositive(clock: seq<seq<TimerTask>>, t: TimerTask)
    ensures Count(clock, t) > 0 <==> InSomeSlot(clock, t)
  {
    if clock != [] {
      var n := |clock| - 1;
      CountPositive(clock[..n], t);
      assert t in multiset(clock[n]) <==> t in clock[n];
      if InSomeSlot(clock, t) {
        var s :| 0 <= s < |clock| && t in clock[s];
        assert s < n ==> t in clock[..n][s];
      }
      if InSomeSlot(clock[..n], t) {
        var s :| 0 <= s < n && t in clock[..n][s];
        assert t in clock[s];
      }
    }
  }

  lemma CountPush(clock: seq<seq<TimerTask>>, s: nat, sp: TimerTask, t: TimerTask)
    requires s < |clock|
    ensures Count(clock[s := clock[s] + [sp]], t) == Count(clock, t) + if t == sp then 1 else 0
  {
    CountUpdate(clock, s, clock[s] + [sp], t);
  }

  // ---------------------------------------------------------------- where the pointers are

  type Timers = map<D.Id, D.Timer>

  ghost predicate PlacedAt(s: nat, t: TimerTask, owned: set<TimerTask>, timers: Timers, now: nat)
    requires s < SLOTS
  {
    t in owned && t.id in timers && Due(now, s) <= timers[t.id].deadline
  }

  /** Every pointer lies in a slot that is cleared at or before the deadline of its task. */
  ghost predicate Placed(clock: seq<seq<TimerTask>>, owned: set<TimerTask>, timers: Timers, now: nat) {
    && |clock| == SLOTS
    && forall s, t :: 0 <= s < SLOTS && t in clock[s] ==> PlacedAt(s, t, owned, timers, now)
  }

  /** A deadline is within one delay, and its slot holds a pointer to the task. */
  ghost predicate Anchored(clock: seq<seq<TimerTask>>, t: TimerTask, timers: Timers, now: nat) {
    && |clock| == SLOTS && t.id in timers
    && now < timers[t.id].deadline <= now + D.Delay(t.timeout)
    && t in clock[timers[t.id].deadline % SLOTS]
  }

  ghost predicate AllAnchored(clock: seq<seq<TimerTask>>, owned: set<TimerTask>, timers: Timers, now: nat) {
    forall t :: t in owned ==> Anchored(clock, t, timers, now)
  }

  /** Pushing one more pointer to `sp`, into the slot of a deadline that is not earlier than the
      one it had, keeps every pointer in its place. */
  lemma PushKeeps(clock: seq<seq<TimerTask>>, owned: set<TimerTask>, timers: Timers, now: nat,
                  sp: TimerTask, s: nat, timer: D.Timer)
    requires Placed(clock, owned, timers, now) && AllAnchored(clock, owned, timers, now)
    requires s == (now % SLOTS + sp.timeout) % SLOTS && timer.deadline == now + D.Delay(sp.timeout)
    requires forall t :: t in owned && t != sp ==> t.id != sp.id
    ensures var clock' := clock[s := clock[s] + [sp]];
            var timers' := timers[sp.id := timer];
            Placed(clock', owned + {sp}, timers', now) && AllAnchored(clock', owned + {sp}, timers', now)
  {
    SlotOfDeadline(now, sp.timeout);
    DueUnique(now, timer.deadline);
    var clock' := clock[s := clock[s] + [sp]];
    var timers' := timers[sp.id := timer];
    forall r, t | 0 <= r < SLOTS && t in clock'[r]
      ensures PlacedAt(r, t, owned + {sp}, timers', now)
    {
      if t in clock[r] {
        assert PlacedAt(r, t, owned, timers, now);
        assert Anchored(clock, t, timers, now);
      }
    }
    forall t | t in owned + {sp}
      ensures Anchored(clock', t, timers', now)
    {
      if t != sp {
        assert Anchored(clock, t, timers, now);
      }
    }
  }

  lemma CountedIsOwned(clock: seq<seq<TimerTask>>, owned: set<TimerTask>, timers: Timers, now: nat, t: TimerTask)
    requires Placed(clock, owned, timers, now)
    ensures Count(clock, t) > 0 ==> t in owned
  {
    CountPositive(clock, t);
    if InSomeSlot(clock, t) {
      var s :| 0 <= s < SLOTS && t in clock[s];
      assert PlacedAt(s, t, owned, timers, now);
    }
  }

  /** Every call of a callback is in the table, and none is made twice. */
  ghost predicate Logged(fired: seq<D.Event>, table: set<D.Event>, now: nat) {
    && (forall e :: e in fired <==> e in table)
    && (forall e :: e in fired ==> e.time <= now)
    && (forall i, j :: 0 <= i < j < |fired| ==> fired[i] != fired[j])
  }

  // ---------------------------------------------------------------- one tick

  /** What the table says of a task is what the task says itself. */
  ghost predicate Agrees(t: TimerTask, r: D.Timer)
    reads t`isValid
  {
    r.delay == D.Delay(t.timeout) && r.task == t.task && r.live == t.isValid
  }

  ghost predicate AllAgree(all: set<TimerTask>, timers: Timers)
    reads all`isValid
  {
    forall t :: t in all ==> t.id in timers && Agrees(t, timers[t.id])
  }

  lemma AgreesWith(all: set<TimerTask>, timers: Timers, t: TimerTask)
    requires AllAgree(all, timers) && t in all
    ensures t.id in timers && Agrees(t, timers[t.id])
  {
  }

  /** The index holds exactly the tasks that exist, under their ids. */
  ghost predicate IndexOk(owned: set<TimerTask>, tasks: map<D.Id, TimerTask>) {
    && (forall t :: t in owned ==> t.id in tasks && tasks[t.id] == t)
    && (forall id :: id in tasks ==> tasks[id] in owned && tasks[id].id == id)
  }

  lemma IndexWithout(owned: set<TimerTask>, tasks: map<D.Id, TimerTask>, sp: TimerTask)
    requires IndexOk(owned, tasks) && sp in owned
    ensures IndexOk(owned - {sp}, tasks - {sp.id})
  {
  }

  lemma IndexWith(owned: set<TimerTask>, tasks: map<D.Id, TimerTask>, timers: Timers, sp: TimerTask, timer: D.Timer)
    requires IndexOk(owned, tasks) && AllAgree(owned, timers) && sp.id !in tasks && Agrees(sp, timer)
    ensures IndexOk(owned + {sp}, tasks[sp.id := sp]) && AllAgree(owned + {sp}, timers[sp.id := timer])
    ensures forall t :: t in owned ==> t.id != sp.id
  {
  }

  /** Reference counts while the pointers in `rest` are outside the wheel. */
  ghost predicate RefsOk(owned: set<TimerTask>, clock: seq<seq<TimerTask>>, rest: seq<TimerTask>)
    reads owned`refs
  {
    forall t :: t in owned ==> t.refs == Count(clock, t) + multiset(rest)[t] && t.refs > 0
  }

  ghost predicate GoneOk(gone: set<TimerTask>, clock: seq<seq<TimerTask>>, rest: seq<TimerTask>) {
    forall t :: t in gone ==> Count(clock, t) == 0 && t !in rest
  }

  lemma OwnedIfPointedTo(all: set<TimerTask>, owned: set<TimerTask>, clock: seq<seq<TimerTask>>,
                         rest: seq<TimerTask>, sp: TimerTask)
    requires GoneOk(all - owned, clock, [sp] + rest) && sp in all
    ensures sp in owned
  {
    assert sp in [sp] + rest by {
      RestCounts(sp, rest);
    }
  }

  lemma GoneStill(gone: set<TimerTask>, clock: seq<seq<TimerTask>>, rest: seq<TimerTask>, sp: TimerTask)
    requires GoneOk(gone, clock, [sp] + rest)
    ensures GoneOk(gone, clock, rest)
  {
    assert forall t :: t in rest ==> t in [sp] + rest;
  }

  lemma GoneAsWell(all: set<TimerTask>, owned: set<TimerTask>, clock: seq<seq<TimerTask>>,
                   rest: seq<TimerTask>, sp: TimerTask)
    requires GoneOk(all - owned, clock, [sp] + rest)
    requires Count(clock, sp) + multiset(rest)[sp] == 0
    ensures GoneOk(all - (owned - {sp}), clock, rest)
  {
    GoneStill(all - owned, clock, rest, sp);
    assert sp in rest <==> multiset(rest)[sp] > 0;
  }

  ghost predicate Distinct(tasks: set<TimerTask>) {
    forall t, u :: t in tasks && u in tasks && t.id == u.id ==> t == u
  }

  ghost predicate FiredBy(e: D.Event, gone: set<TimerTask>, timers: Timers, now: nat) {
    exists t :: t in gone && t.id in timers && D.Fires(timers[t.id])
                && e == D.Event(now, t.id, timers[t.id].task.value)
  }

  /** The calls are those of the table and one for each task that is gone and was live. */
  ghost predicate CallsMade(fired: seq<D.Event>, before: set<D.Event>, gone: set<TimerTask>,
                            timers: Timers, now: nat) {
    && (forall e :: e in fired <==> e in before || FiredBy(e, gone, timers, now))
    && (forall i, j :: 0 <= i < j < |fired| ==> fired[i] != fired[j])
    && (forall e :: e in before ==> e.time < now)
  }

  lemma OneMoreCall(fired: seq<D.Event>, before: set<D.Event>, all: set<TimerTask>, owned: set<TimerTask>,
                    timers: Timers, now: nat, sp: TimerTask, live: bool)
    requires CallsMade(fired, before, all - owned, timers, now)
    requires Distinct(all) && sp in owned && owned <= all
    requires sp.id in timers && timers[sp.id].task == sp.task && timers[sp.id].live == live
    ensures var fired' := if sp.task.Some? && live then fired + [D.Event(now, sp.id, sp.task.value)] else fired;
            CallsMade(fired', before, all - (owned - {sp}), timers, now)
  {
    var gone, gone' := all - owned, all - (owned - {sp});
    assert gone' == gone + {sp};
    var e := D.Event(now, sp.id, if sp.task.Some? then sp.task.value else 0);
    assert !FiredBy(e, gone, timers, now);
    forall x
      ensures FiredBy(x, gone', timers, now) <==> FiredBy(x, gone, timers, now) || (sp.task.Some? && live && x == e)
    {
      if FiredBy(x, gone, timers, now) {
        var t :| t in gone && t.id in timers && D.Fires(timers[t.id])
                 && x == D.Event(now, t.id, timers[t.id].task.value);
        assert t in gone';
      }
      if sp.task.Some? && live && x == e {
        assert sp in gone';
      }
    }
  }

  lemma RestCounts(sp: TimerTask, rest: seq<TimerTask>)
    ensures forall t :: multiset([sp] + rest)[t] == multiset(rest)[t] + if t == sp then 1 else 0
    ensures forall t :: t in [sp] + rest <==> t == sp || t in rest
  {
    assert multiset([sp] + rest) == multiset{sp} + multiset(rest);
  }

  function Cleared(clock: seq<seq<TimerTask>>, now: nat): seq<seq<TimerTask>>
    requires |clock| == SLOTS
  {
    clock[(now + 1) % SLOTS := []]
  }

  /** After a slot is cleared, exactly the tasks that are due have no pointer left. */
  lemma DueLosesAll(clock: seq<seq<TimerTask>>, owned: set<TimerTask>, timers: Timers, now: nat, t: TimerTask)
    requires Placed(clock, owned, timers, now) && AllAnchored(clock, owned, timers, now) && t in owned
    ensures Anchored(clock, t, timers, now)
    ensures Count(Cleared(clock, now), t) > 0 <==> timers[t.id].deadline != now + 1
  {
    var clock' := Cleared(clock, now);
    var end := timers[t.id].deadline;
    assert Anchored(clock, t, timers, now);
    CountPositive(clock', t);
    DueUnique(now, end);
    DueUnique(now, now + 1);
    if end != now + 1 {
      assert t in clock'[end % SLOTS];
    } else {
      forall s | 0 <= s < SLOTS && t in clock[s]
        ensures s == (now + 1) % SLOTS
      {
        assert PlacedAt(s, t, owned, timers, now);
      }
    }
  }

  /** A tick at which exactly the tasks that are due go keeps the other pointers in their places. */
  lemma TickKeeps(clock: seq<seq<TimerTask>>, all: set<TimerTask>, timers: Timers, now: nat, owned: set<TimerTask>)
    requires Placed(clock, all, timers, now) && AllAnchored(clock, all, timers, now)
    requires forall t :: t in owned <==> t in all && Count(Cleared(clock, now), t) > 0
    ensures var timers' := D.Remaining(timers, now + 1);
            && Placed(Cleared(clock, now), owned, timers', now + 1)
            && AllAnchored(Cleared(clock, now), owned, timers', now + 1)
  {
    var clock', timers' := Cleared(clock, now), D.Remaining(timers, now + 1);
    forall s, t | 0 <= s < SLOTS && t in clock'[s]
      ensures PlacedAt(s, t, owned, timers', now + 1)
    {
      assert PlacedAt(s, t, all, timers, now);
      CountPositive(clock', t);
      assert InSomeSlot(clock', t);
      DueLosesAll(clock, all, timers, now, t);
      DueNext(now, s);
    }
    forall t | t in owned
      ensures Anchored(clock', t, timers', now + 1)
    {
      DueLosesAll(clock, all, timers, now, t);
    }
  }

  lemma IndexAfterTick(all: set<TimerTask>, before: map<D.Id, TimerTask>, timers: Timers, now: nat,
                       owned: set<TimerTask>, tasks: map<D.Id, TimerTask>)
    requires IndexOk(all, before) && before.Keys == timers.Keys && IndexOk(owned, tasks) && AllAgree(all, timers)
    requires owned <= all
    requires forall t :: t in all ==> (t in owned <==> !D.DueAt(timers[t.id], now))
    ensures var timers' := D.Remaining(timers, now);
            tasks.Keys == timers'.Keys && AllAgree(owned, timers')
  {
    var timers' := D.Remaining(timers, now);
    forall id
      ensures id in tasks <==> id in timers'
    {
      if id in timers {
        assert before[id] in all;
      }
    }
  }

  lemma LogAfterTick(all: set<TimerTask>, index: map<D.Id, TimerTask>, timers: Timers, now: nat,
                     owned: set<TimerTask>, fired: seq<D.Event>, before: set<D.Event>)
    requires IndexOk(all, index) && index.Keys == timers.Keys && owned <= all
    requires forall t :: t in all ==> (t in owned <==> !D.DueAt(timers[t.id], now))
    requires CallsMade(fired, before, all - owned, timers, now)
    ensures Logged(fired, before + D.CallsAt(timers, now), now)
  {
    forall e
      ensures e in D.CallsAt(timers, now) <==> FiredBy(e, all - owned, timers, now)
    {
      if e in D.CallsAt(timers, now) {
        assert index[e.id] in all - owned;
      }
    }
  }

  lemma LogBeforeTick(fired: seq<D.Event>, before: set<D.Event>, now: nat, timers: Timers)
    requires Logged(fired, before, now)
    ensures CallsMade(fired, before, {}, timers, now + 1)
  {
  }

  // ---------------------------------------------------------------- the wheel

  class TimeWheel {
    var tick: nat
    var clock: seq<seq<TimerTask>>
    var tasks: map<D.Id, TimerTask>   // weak pointers
    ghost var fired: seq<D.Event>     // the callbacks called so far
    ghost var owned: set<TimerTask>   // the tasks that exist
    ghost var table: D.State          // the table of deadlines that the wheel stands for

    /** The index holds exactly the tasks that exist, and the table agrees with each. */
    ghost predicate Indexed()
      reads this, owned
    {
      tasks.Keys == table.timers.Keys && IndexOk(owned, tasks) && AllAgree(owned, table.timers)
    }

    ghost predicate Counted()
      reads this, owned
    {
      forall t :: t in owned ==> t.refs == Count(clock, t)
    }

    ghost predicate Valid()
      reads this, owned
    {
      && tick == table.now % SLOTS && |clock| == SLOTS
      && Placed(clock, owned, table.timers, table.now)
      && AllAnchored(clock, owned, table.timers, table.now)
      && Indexed() && Counted() && Logged(fired, table.fired, table.now)
    }

    constructor ()
      ensures Valid() && table == D.NO_TIMERS
    {
      tick, clock, tasks, fired := 0, seq(SLOTS, _ => []), map[], [];
      owned, table := {}, D.NO_TIMERS;
    }

    /** `_clock[(_tick + delay) % _capacity].push_back(sp)`. */
    method Push(sp: TimerTask)
      requires |clock| == SLOTS
      modifies this`clock, sp`refs
      ensures var s := (tick + sp.timeout) % SLOTS;
              clock == old(clock)[s := old(clock)[s] + [sp]]
      ensures sp.refs == old(sp.refs) + 1
      ensures forall t :: Count(clock, t) == Count(old(clock), t) + if t == sp then 1 else 0
    {
      var s := (tick + sp.timeout) % SLOTS;
      forall t {
        CountPush(clock, s, sp, t);
      }
      clock := clock[s := clock[s] + [sp]];
      sp.refs := sp.refs + 1;
    }

    /** A new timer; nothing happens while an older one with this id still has a pointer in the
        wheel, even if it was cancelled. Larger timeouts would give a negative slot index. */
    method Add(id: D.Id, task: D.Callback, timeout: nat)
      requires Valid() && timeout % 0x1_0000_0000 <= 0x7fff_ffff - 59
      modifies this
      ensures Valid() && table == D.Step(old(table), D.Add(id, task, timeout))
      ensures id !in old(table).timers ==> D.IsAdded(old(table), table, id, task, timeout)
    {
      D.AddExact(table, id, task, timeout);
      hide D.IsAdded, IndexOk, AllAgree, Placed, AllAnchored, Count, D.Delay, D.Stored, D.Step, Logged;
      D.StepKnown(table, D.Add(id, task, timeout));
      if id !in tasks {
        var sp := new TimerTask(id, task, timeout);
        ghost var now, timers := table.now, table.timers;
        ghost var timer := D.Timer(D.Delay(sp.timeout), now + D.Delay(sp.timeout), task, true);
        IndexWith(owned, tasks, timers, sp, timer);
        PushKeeps(clock, owned, timers, now, sp, (tick + sp.timeout) % SLOTS, timer);
        CountedIsOwned(clock, owned, timers, now, sp);
        tasks := tasks[id := sp];
        table := D.Step(table, D.Add(id, task, timeout));
        owned := owned + {sp};
        Push(sp);
        assert Counted() && Indexed();
      }
    }

    /** Refresh: one more pointer. The weak pointer that is locked here is never null, because a
        task in the index has a pointer in the wheel. */
    method Update(id: D.Id)
      requires Valid()
      modifies this, owned
      ensures Valid() && table == D.Step(old(table), D.Update(id))
      ensures owned == old(owned)
    {
      hide Placed, AllAnchored, Count, D.Delay, D.Stored, D.Step, Logged;
      D.StepKnown(table, D.Update(id));
      if id in tasks {
        var sp := tasks[id];
        NeverExpired(id);
        assert sp.refs > 0;
        ghost var now, timers := table.now, table.timers;
        ghost var timer := timers[id].(deadline := now + timers[id].delay);
        PushKeeps(clock, owned, timers, now, sp, (tick + sp.timeout) % SLOTS, timer);
        table := D.Step(table, D.Update(id));
        assert owned + {sp} == owned;
        Push(sp);
      }
    }

    /** Between operations the index holds exactly the ids of the tasks that have a pointer in the
        wheel, and each pointer lies in a slot that is cleared within one turn, at or before the
        deadline of its task. */
    lemma IndexAgreement()
      requires Valid()
      ensures forall id :: id in tasks <==> exists s, i :: 0 <= s < SLOTS && 0 <= i < |clock[s]| && clock[s][i].id == id
      ensures forall s, t :: 0 <= s < SLOTS && t in clock[s] ==>
                t.id in tasks && tasks[t.id] == t && Due(table.now, s) <= table.timers[t.id].deadline
    {
      hide Count, D.Delay, Logged;
      forall s, t | 0 <= s < SLOTS && t in clock[s]
        ensures t.id in tasks && tasks[t.id] == t && Due(table.now, s) <= table.timers[t.id].deadline
      {
        assert PlacedAt(s, t, owned, table.timers, table.now);
      }
      forall id | id in tasks
        ensures exists s, i :: 0 <= s < SLOTS && 0 <= i < |clock[s]| && clock[s][i].id == id
      {
        var t := tasks[id];
        assert Anchored(clock, t, table.timers, table.now);
        var s := table.timers[id].deadline % SLOTS;
        var i :| 0 <= i < |clock[s]| && clock[s][i] == t;
      }
    }

    lemma NeverExpired(id: D.Id)
      requires Valid() && id in tasks
      ensures tasks[id].refs > 0
    {
      var t := tasks[id];
      assert Anchored(clock, t, table.timers, table.now);
      CountPositive(clock, t);
    }

    /** The task keeps its pointers and its id; only its callback will not be called. */
    method Cancel(id: D.Id)
      requires Valid()
      modifies owned, this`table
      ensures Valid() && table == D.Step(old(table), D.Cancel(id))
      ensures owned == old(owned)
    {
      hide Placed, AllAnchored, Count, D.Delay, D.Stored, D.Step, Logged;
      D.StepKnown(table, D.Cancel(id));
      if id in tasks {
        var sp := tasks[id];
        ghost var timers := table.timers;
        sp.isValid := false;
        table := D.Step(table, D.Cancel(id));
        CancelKeeps(clock, owned, timers, table.now, id);
      }
    }

    /** In the middle of `clear()`: the pointers in `rest` are still to be destroyed, and of the
        tasks `all` that existed before, those without any pointer are gone. */
    ghost predicate Clearing(rest: seq<TimerTask>, all: set<TimerTask>)
      reads this, all
    {
      && owned <= all
      && IndexOk(owned, tasks) && RefsOk(owned, clock, rest) && GoneOk(all - owned, clock, rest)
      && AllAgree(all, table.timers)
      && CallsMade(fired, table.fired, all - owned, table.timers, table.now + 1)
    }

    /** One pointer is destroyed. If it was the last, so is the task: `~TimerTask` calls the
        callback of a task that was not cancelled, and takes the id out of the index. */
    method Drop(sp: TimerTask, ghost rest: seq<TimerTask>, ghost all: set<TimerTask>)
      requires Clearing([sp] + rest, all) && sp in all && Distinct(all)
      modifies this`tasks, this`fired, this`owned, sp`refs
      ensures Clearing(rest, all) && owned <= old(owned)
    {
      hide Count, CallsMade, IndexOk, GoneOk, AllAgree;
      OwnedIfPointedTo(all, owned, clock, rest, sp);
      AgreesWith(all, table.timers, sp);
      RestCounts(sp, rest);
      sp.refs := sp.refs - 1;
      if sp.refs == 0 {
        ghost var timers, now := table.timers, table.now + 1;
        if sp.task.Some? && sp.isValid {
          fired := fired + [D.Event(now, sp.id, sp.task.value)];
        }
        OneMoreCall(old(fired), table.fired, all, owned, timers, now, sp, sp.isValid);
        IndexWithout(owned, tasks, sp);
        GoneAsWell(all, owned, clock, rest, sp);
        tasks := tasks - {sp.id};
        owned := owned - {sp};
      } else {
        GoneStill(all - owned, clock, rest, sp);
      }
    }

    /** One tick: `_clock[_tick].clear()` destroys the pointers of the slot one by one. */
    method Increment()
      requires Valid()
      modifies this, owned
      ensures Valid() && table == D.Step(old(table), D.Increment)
      ensures owned <= old(owned)
    {
      hide Count, Placed, AllAnchored, Logged, Clearing, IndexOk, AllAgree, Distinct, D.Remaining, D.CallsAt;
      ghost var all, clock0 := owned, clock;
      tick := (tick + 1) % SLOTS;
      var doomed := clock[tick];
      clock := clock[tick := []];
      StartClearing(clock0);
      var i := 0;
      assert doomed[0..] == doomed;
      while i < |doomed|
        invariant 0 <= i <= |doomed| && owned <= all
        invariant table == old(table) && tick == (table.now + 1) % SLOTS && clock == clock0[tick := []]
        invariant Clearing(doomed[i..], all)
        decreases |doomed| - i
      {
        assert doomed[i..] == [doomed[i]] + doomed[i + 1..];
        Drop(doomed[i], doomed[i + 1..], all);
        i := i + 1;
      }
      assert doomed[i..] == [];
      EndClearing(clock0, old(tasks), all);
      table := D.Step(table, D.Increment);
    }

    lemma StartClearing(clock0: seq<seq<TimerTask>>)
      requires |clock0| == SLOTS && tick == (table.now + 1) % SLOTS && clock == clock0[tick := []]
      requires Placed(clock0, owned, table.timers, table.now) && AllAnchored(clock0, owned, table.timers, table.now)
      requires Indexed() && Logged(fired, table.fired, table.now)
      requires forall t :: t in owned ==> t.refs == Count(clock0, t)
      ensures Clearing(clock0[tick], owned) && Distinct(owned)
      ensures forall t :: t in clock0[tick] ==> t in owned
    {
      hide AllAnchored, Count, D.Delay;
      LogBeforeTick(fired, table.fired, table.now, table.timers);
      assert owned - owned == {};
      forall t | t in owned
        ensures Count(clock0, t) == Count(clock, t) + multiset(clock0[tick])[t] && t.refs > 0
      {
        CountUpdate(clock0, tick, [], t);
        DueLosesAll(clock0, owned, table.timers, table.now, t);
        CountPositive(clock0, t);
        assert InSomeSlot(clock0, t);
      }
      forall t | t in clock0[tick]
        ensures t in owned
      {
        assert PlacedAt(tick, t, owned, table.timers, table.now);
      }
    }

    lemma EndClearing(clock0: seq<seq<TimerTask>>, before: map<D.Id, TimerTask>, all: set<TimerTask>)
      requires |clock0| == SLOTS && clock == Cleared(clock0, table.now) && Clearing([], all)
      requires Placed(clock0, all, table.timers, table.now) && AllAnchored(clock0, all, table.timers, table.now)
      requires IndexOk(all, before) && before.Keys == table.timers.Keys
      ensures var (timers, now) := (D.Remaining(table.timers, table.now + 1), table.now + 1);
              && Placed(clock, owned, timers, now) && AllAnchored(clock, owned, timers, now)
              && tasks.Keys == timers.Keys && IndexOk(owned, tasks) && AllAgree(owned, timers)
              && Counted() && Logged(fired, table.fired + D.CallsAt(table.timers, now), now)
    {
      hide Placed, AllAnchored, Logged, Count, D.Remaining, D.CallsAt, CallsMade, IndexOk;
      forall t
        ensures t in owned <==> t in all && Count(clock, t) > 0
        ensures t in all ==> t.id in table.timers && (t in owned <==> !D.DueAt(table.timers[t.id], table.now + 1))
      {
        if t in all {
          DueLosesAll(clock0, all, table.timers, table.now, t);
        }
      }
      TickKeeps(clock0, all, table.timers, table.now, owned);
      IndexAfterTick(all, before, table.timers, table.now + 1, owned, tasks);
      LogAfterTick(all, before, table.timers, table.now + 1, owned, fired, table.fired);
    }

    /** `Tick`: as many ticks as the timer descriptor reports. */
    method Tick(times: nat)
      requires Valid()
      modifies this, owned
      ensures Valid() && table == D.Run(old(table), seq(times, _ => D.Increment))
    {
      var i := 0;
      while i < times
        invariant 0 <= i <= times
        invariant Valid() && owned <= old(owned) && table == D.Run(old(table), seq(i, _ => D.Increment))
      {
        Increment();
        assert seq(i + 1, _ => D.Increment)[..i] == seq(i, _ => D.Increment);
        i := i + 1;
      }
    }
  }

  lemma CancelKeeps(clock: seq<seq<TimerTask>>, owned: set<TimerTask>, timers: Timers, now: nat, id: D.Id)
    requires Placed(clock, owned, timers, now) && AllAnchored(clock, owned, timers, now)
    requires id in timers
    ensures var timers' := timers[id := timers[id].(live := false)];
            Placed(clock, owned, timers', now) && AllAnchored(clock, owned, timers', now)
  {
    var timers' := timers[id := timers[id].(live := false)];
    forall s, t | 0 <= s < SLOTS && t in clock[s]
      ensures PlacedAt(s, t, owned, timers', now)
    {
      assert PlacedAt(s, t, owned, timers, now);
    }
    forall t | t in owned
      ensures Anchored(clock, t, timers', now)
    {
      assert Anchored(clock, t, timers, now);
    }
  }
}
