/**
 Ids and the connection registry of `TcpServer` (source/server.hpp), over all interleavings of
 the base loop with the loops of the connections. The registry is only touched by the base thread,
 but a connection that was announced to its own loop may be released there at any time.
 */
module Registry {
  import opened Strings

  type Id = nat

  /** Tasks in the queue of the base loop. */
  datatype BaseTask =
    | Remove(id: Id)    // RemoveConnectionInLoop, pushed by the loop of the connection
    | Release(id: Id)   // ReleaseInLoop of a connection that lives on the base loop
    | After             // RunAfterInLoop, pushed by another thread

  /** `threads` is the size of the pool; with 0, connections live on the base loop. `accepting`
      is the connection that `NewConnection` has announced but not stored yet. The last four
      fields are histories: all ids ever given, the key each connection was stored under, the
      connections whose erasure has run, and those whose acceptance a `RunAfter` cut into. */
  datatype State = State(threads: nat, nextId: Id, accepting: Option<Id>, connections: map<Id, Id>,
                         baseQueue: seq<BaseTask>, releasing: multiset<Id>,
                         given: seq<Id>, timers: set<Id>, stored: map<Id, Id>, erased: set<Id>, cutInto: set<Id>)

  function Init(threads: nat): State {
    State(threads, 0, None, map[], [], multiset{}, [], {}, map[], {}, {})
  }

  datatype Step =
    | Accept             // NewConnection up to and with Established()
    | AfterInline        // RunAfter from the connected callback, when that runs inside NewConnection
    | Store              // the last line of NewConnection
    | AskRelease(id: Id) // Release, from any thread: always queued
    | WorkerRelease(id: Id) // ReleaseInLoop on a worker, down to RemoveConnection
    | PushAfter          // RunAfter from another thread
    | AfterDirect        // RunAfter from a callback of the base loop
    | BaseTurn           // the base loop runs the next task of its queue

  predicate Created(s: State, id: Id) {
    id in s.stored || s.accepting == Some(id)
  }

  predicate Enabled(s: State, step: Step) {
    match step
    case Accept => s.accepting.None?
    case AfterInline => s.accepting.Some? && s.threads == 0
    case Store => s.accepting.Some?
    case AskRelease(id) => Created(s, id)
    case WorkerRelease(id) => id in s.releasing
    case PushAfter => true
    case AfterDirect => s.accepting.None?
    case BaseTurn => s.accepting.None? && s.baseQueue != []
  }

  /** `Connection::Id` returns an `int`, which `erase` turns back into a `uint64_t`. */
  function Key(id: Id): Id {
    var low := id % 0x1_0000_0000;
    if low < 0x8000_0000 then low else low + 0xffff_ffff_0000_0000
  }

  function GiveId(s: State): State {
    s.(nextId := s.nextId + 1, given := s.given + [s.nextId + 1])
  }

  function GiveTimer(s: State): State {
    var t := GiveId(s);
    t.(timers := t.timers + {t.nextId})
  }

  function Erase(s: State, id: Id): State {
    s.(connections := s.connections - {Key(id)}, erased := s.erased + {id})
  }

  function Apply(s: State, step: Step): State
    requires Enabled(s, step)
  {
    match step
    case Accept =>
      var t := GiveId(s);
      t.(accepting := Some(t.nextId))
    case AfterInline => GiveTimer(s).(cutInto := s.cutInto + {s.accepting.value})
    case Store =>
      var id := s.accepting.value;
      s.(accepting := None, connections := s.connections[s.nextId := id], stored := s.stored[id := s.nextId])
    case AskRelease(id) =>
      if s.threads == 0 then s.(baseQueue := s.baseQueue + [Release(id)])
      else s.(releasing := s.releasing + multiset{id})
    case WorkerRelease(id) =>
      s.(releasing := s.releasing - multiset{id}, baseQueue := s.baseQueue + [Remove(id)])
    case PushAfter => s.(baseQueue := s.baseQueue + [After])
    case AfterDirect => GiveTimer(s)
    case BaseTurn =>
      var t := s.(baseQueue := s.baseQueue[1..]);
      match s.baseQueue[0]
      case After => GiveTimer(t)
      case Remove(id) => Erase(t, id)
      case Release(id) => Erase(t, id)
  }

  predicate IsRun(s: State, steps: seq<Step>)
    decreases |steps|
  {
    steps == [] || (Enabled(s, steps[0]) && IsRun(Apply(s, steps[0]), steps[1..]))
  }

  function Exec(s: State, steps: seq<Step>): State
    requires IsRun(s, steps)
    decreases |steps|
  {
    if steps == [] then s else Exec(Apply(s, steps[0]), steps[1..])
  }

  // ---------------------------------------------------------------- invariants

  /** Ids are handed out in order, and each belongs to one connection or one timer. */
  predicate IdsInOrder(s: State) {
    && |s.given| == s.nextId && (forall i :: 0 <= i < |s.given| ==> s.given[i] == i + 1)
    && (forall id :: id in s.timers ==> 1 <= id <= s.nextId && !Created(s, id))
    && (forall id :: id in s.stored ==> 1 <= id <= s.stored[id] <= s.nextId && s.accepting != Some(id))
    && (s.accepting.Some? ==> 1 <= s.accepting.value <= s.nextId)
  }

  /** Connections are stored one after the other, under keys that are never used again. */
  predicate KeysInOrder(s: State) {
    && (forall a, b :: a in s.stored && b in s.stored && a < b ==> s.stored[a] < b)
    && (s.accepting.Some? ==> forall a :: a in s.stored ==> s.stored[a] < s.accepting.value)
  }

  /** The key is the id, unless a timer got its id in between. */
  predicate OwnKeys(s: State) {
    && (forall id :: id in s.stored ==> (s.stored[id] == id <==> id !in s.cutInto))
    && (s.accepting.Some? ==> (s.nextId == s.accepting.value <==> s.accepting.value !in s.cutInto))
    && (forall id :: id in s.cutInto ==> Created(s, id))
    && (s.threads > 0 ==> s.cutInto == {})
  }

  predicate StoredInOrder(s: State) {
    KeysInOrder(s) && OwnKeys(s)
  }

  predicate Concerns(t: BaseTask, id: Id) {
    t == Remove(id) || t == Release(id)
  }

  predicate QueueOk(s: State, q: seq<BaseTask>) {
    forall i :: 0 <= i < |q| && !q[i].After? ==> Created(s, q[i].id)
  }

  /** Releases are only asked for connections that exist. */
  predicate Pending(s: State) {
    QueueOk(s, s.baseQueue) && (forall id :: id in s.releasing ==> Created(s, id))
  }

  /** The registry holds stored connections under their keys, and no key that was erased. */
  predicate Registered(s: State) {
    && (forall k :: k in s.connections ==> s.connections[k] in s.stored && s.stored[s.connections[k]] == k)
    && (forall id :: id in s.erased ==> id in s.stored && (Key(id) <= id ==> Key(id) !in s.connections))
  }

  /** And every other key. */
  predicate NothingMissing(s: State) {
    forall id :: id in s.stored ==> s.stored[id] in s.connections || KeyErased(s, s.stored[id])
  }

  predicate KeyErased(s: State, k: Id) {
    exists e :: e in s.erased && Key(e) == k
  }

  predicate Inv(s: State) {
    IdsInOrder(s) && StoredInOrder(s) && Pending(s) && Registered(s) && NothingMissing(s)
  }

  lemma IdsKeptByStore(s: State)
    requires IdsInOrder(s) && Enabled(s, Store)
    ensures IdsInOrder(Apply(s, Store))
  {
    var t, added := Apply(s, Store), s.accepting.value;
    assert forall id :: id in t.stored <==> id in s.stored || id == added;
  }

  predicate SameIds(s: State, t: State) {
    t.nextId == s.nextId && t.given == s.given && t.timers == s.timers
  }

  predicate OneMoreTimer(s: State, t: State) {
    t.nextId == s.nextId + 1 && t.given == s.given + [t.nextId] && t.timers == s.timers + {t.nextId}
  }

  /** What the steps other than `Accept` and `Store` change at most. */
  lemma OtherSteps(s: State, step: Step)
    requires Enabled(s, step) && !step.Accept? && !step.Store?
    ensures var t := Apply(s, step);
            && t.stored == s.stored && t.accepting == s.accepting && t.threads == s.threads
            && (SameIds(s, t) || OneMoreTimer(s, t))
            && (!step.AfterInline? ==> t.cutInto == s.cutInto && (t.nextId == s.nextId || s.accepting.None?))
  {
    hide Key, Created;
    match step
    case BaseTurn =>
      var t := s.(baseQueue := s.baseQueue[1..]);
      if s.baseQueue[0].After? {
        assert Apply(s, step) == GiveTimer(t);
      } else {
        assert Apply(s, step) == Erase(t, s.baseQueue[0].id);
      }
    case _ =>
  }

  lemma IdsFrame(s: State, t: State)
    requires IdsInOrder(s) && t.stored == s.stored && t.accepting == s.accepting
    requires SameIds(s, t) || OneMoreTimer(s, t)
    ensures IdsInOrder(t)
  {
  }

  lemma IdsKeptByAccept(s: State)
    requires IdsInOrder(s) && Enabled(s, Accept)
    ensures IdsInOrder(Apply(s, Accept))
  {
  }

  lemma IdsKept(s: State, step: Step)
    requires Inv(s) && Enabled(s, step)
    ensures IdsInOrder(Apply(s, step))
  {
    hide IdsInOrder, StoredInOrder, Pending, Registered, NothingMissing, Apply;
    if step.Store? {
      IdsKeptByStore(s);
    } else if step.Accept? {
      IdsKeptByAccept(s);
    } else {
      OtherSteps(s, step);
      IdsFrame(s, Apply(s, step));
    }
  }

  lemma KeysKeptByStore(s: State)
    requires IdsInOrder(s) && KeysInOrder(s) && Enabled(s, Store)
    ensures KeysInOrder(Apply(s, Store))
  {
    var t, added := Apply(s, Store), s.accepting.value;
    assert forall a :: a in t.stored <==> a in s.stored || a == added;
    assert forall a :: a in s.stored ==> t.stored[a] == s.stored[a] && a <= s.stored[a] < added;
  }

  lemma OwnKeysKeptByStore(s: State)
    requires IdsInOrder(s) && OwnKeys(s) && Enabled(s, Store)
    ensures OwnKeys(Apply(s, Store))
  {
    var t, added := Apply(s, Store), s.accepting.value;
    assert added !in s.stored;
    assert forall a :: a in s.stored ==> a in t.stored && t.stored[a] == s.stored[a];
  }

  lemma KeysKeptByAccept(s: State, step: Step)
    requires IdsInOrder(s) && KeysInOrder(s) && Enabled(s, step) && (step.Accept? || step.AfterInline?)
    ensures KeysInOrder(Apply(s, step))
  {
    assert Apply(s, step).stored == s.stored;
  }

  lemma OwnKeysKeptByAccept(s: State)
    requires IdsInOrder(s) && OwnKeys(s) && Enabled(s, Accept)
    ensures OwnKeys(Apply(s, Accept))
  {
    var t := Apply(s, Accept);
    assert t.stored == s.stored && t.accepting == Some(s.nextId + 1) && t.nextId == s.nextId + 1;
    assert forall id :: id in s.cutInto ==> id in s.stored;
  }

  lemma OwnKeysKeptByAfter(s: State)
    requires IdsInOrder(s) && OwnKeys(s) && Enabled(s, AfterInline)
    ensures OwnKeys(Apply(s, AfterInline))
  {
    var t := Apply(s, AfterInline);
    assert t.stored == s.stored && t.accepting == s.accepting && t.nextId == s.nextId + 1;
    assert s.accepting.value !in s.stored;
  }

  lemma StoredFrame(s: State, t: State)
    requires StoredInOrder(s) && t.stored == s.stored && t.accepting == s.accepting && t.threads == s.threads
    requires t.cutInto == s.cutInto && (t.nextId == s.nextId || s.accepting.None?)
    ensures StoredInOrder(t)
  {
  }

  lemma StoredKept(s: State, step: Step)
    requires Inv(s) && Enabled(s, step)
    ensures StoredInOrder(Apply(s, step))
  {
    hide IdsInOrder, KeysInOrder, OwnKeys, Pending, Registered, NothingMissing, Apply;
    if step.Store? {
      KeysKeptByStore(s);
      OwnKeysKeptByStore(s);
    } else if step.Accept? {
      KeysKeptByAccept(s, step);
      OwnKeysKeptByAccept(s);
    } else if step.AfterInline? {
      KeysKeptByAccept(s, step);
      OwnKeysKeptByAfter(s);
    } else {
      OtherSteps(s, step);
      StoredFrame(s, Apply(s, step));
    }
  }

  lemma CreatedKept(s: State, step: Step)
    requires Enabled(s, step)
    ensures forall id :: Created(s, id) ==> Created(Apply(s, step), id)
  {
    hide Key;
  }

  lemma QueueKept(s: State, step: Step)
    requires Pending(s) && Enabled(s, step)
    ensures QueueOk(s, Apply(s, step).baseQueue)
    ensures forall id :: id in Apply(s, step).releasing ==> Created(s, id)
  {
    hide Key, Created;
  }

  lemma PendingKept(s: State, step: Step)
    requires Inv(s) && Enabled(s, step)
    ensures Pending(Apply(s, step))
  {
    CreatedKept(s, step);
    QueueKept(s, step);
    hide Inv, Key, Apply, Enabled, Created;
  }

  /** A connection is stored under a key that is new to the registry and to the erased keys. */
  lemma RegisteredKeptByStore(s: State)
    requires IdsInOrder(s) && StoredInOrder(s) && Registered(s) && Enabled(s, Store)
    ensures Registered(Apply(s, Store))
  {
    hide Key;
    assert forall id :: id in s.stored ==> id <= s.stored[id] < s.nextId;
  }

  lemma RegisteredKeptByErase(s: State, id: Id)
    requires Registered(s) && id in s.stored
    ensures Registered(Erase(s, id))
  {
    hide Key;
  }

  lemma RegisteredFrame(s: State, t: State)
    requires Registered(s) && SameRegistry(s, t)
    ensures Registered(t)
  {
  }

  lemma TurnErases(s: State)
    requires Enabled(s, BaseTurn) && !s.baseQueue[0].After?
    ensures Apply(s, BaseTurn) == Erase(s.(baseQueue := s.baseQueue[1..]), s.baseQueue[0].id)
  {
    hide Key;
  }

  predicate SameRegistry(s: State, t: State) {
    t.connections == s.connections && t.stored == s.stored && t.erased == s.erased
  }

  lemma OthersKeepRegistry(s: State, step: Step)
    requires Enabled(s, step) && !step.Store? && (step.BaseTurn? ==> s.baseQueue[0].After?)
    ensures SameRegistry(s, Apply(s, step))
  {
    hide Key, Created, GiveTimer, GiveId;
    var t := s.(baseQueue := if s.baseQueue != [] then s.baseQueue[1..] else []);
    TimerKeepsRegistry(s);
    TimerKeepsRegistry(t);
    AcceptKeepsRegistry(s);
  }

  lemma TimerKeepsRegistry(s: State)
    ensures SameRegistry(s, GiveTimer(s))
  {
  }

  lemma AcceptKeepsRegistry(s: State)
    ensures SameRegistry(s, GiveId(s))
  {
  }

  lemma RegisteredKept(s: State, step: Step)
    requires Inv(s) && Enabled(s, step)
    ensures Registered(Apply(s, step))
  {
    hide Apply, Erase, NothingMissing, Registered, IdsInOrder, StoredInOrder;
    if step.Store? {
      RegisteredKeptByStore(s);
    } else if step.BaseTurn? && !s.baseQueue[0].After? {
      var t := s.(baseQueue := s.baseQueue[1..]);
      TurnErases(s);
      RegisteredFrame(s, t);
      RegisteredKeptByErase(t, s.baseQueue[0].id);
    } else {
      OthersKeepRegistry(s, step);
      RegisteredFrame(s, Apply(s, step));
    }
  }

  lemma StillErased(s: State, t: State, k: Id)
    requires s.erased <= t.erased && KeyErased(s, k)
    ensures KeyErased(t, k)
  {
    hide Key;
    var e :| e in s.erased && Key(e) == k;
    assert e in t.erased;
  }

  lemma NowErased(t: State, id: Id)
    requires id in t.erased
    ensures KeyErased(t, Key(id))
  {
  }

  lemma EntryOrErased(s: State, id: Id, a: Id)
    requires NothingMissing(s) && a in s.stored
    ensures var t := Erase(s, id);
            s.stored[a] in t.connections || KeyErased(t, s.stored[a])
  {
    hide Key, KeyErased;
    var t, k := Erase(s, id), s.stored[a];
    if k !in s.connections {
      StillErased(s, t, k);
    } else if k == Key(id) {
      NowErased(t, id);
    }
  }

  lemma NothingMissingKeptByErase(s: State, id: Id)
    requires NothingMissing(s)
    ensures NothingMissing(Erase(s, id))
  {
    var t := Erase(s, id);
    assert t.stored == s.stored;
    forall a | a in t.stored
      ensures t.stored[a] in t.connections || KeyErased(t, t.stored[a])
    {
      EntryOrErased(s, id, a);
    }
  }

  /** What the other steps do to the registry: nothing, or one more entry. */
  lemma NothingMissingFrame(s: State, t: State)
    requires NothingMissing(s) && s.erased == t.erased && s.connections.Keys <= t.connections.Keys
    requires forall a :: a in t.stored ==>
                           if a in s.stored then t.stored[a] == s.stored[a] else t.stored[a] in t.connections
    ensures NothingMissing(t)
  {
    hide Key, KeyErased;
    forall a | a in t.stored
      ensures t.stored[a] in t.connections || KeyErased(t, t.stored[a])
    {
      if a in s.stored && KeyErased(s, s.stored[a]) {
        StillErased(s, t, s.stored[a]);
      }
    }
  }

  lemma NothingMissingKept(s: State, step: Step)
    requires Inv(s) && Enabled(s, step)
    ensures NothingMissing(Apply(s, step))
  {
    hide Key, NothingMissing, Registered, Pending;
    if step.BaseTurn? && !s.baseQueue[0].After? {
      var t := s.(baseQueue := s.baseQueue[1..]);
      NothingMissingFrame(s, t);
      NothingMissingKeptByErase(t, s.baseQueue[0].id);
    } else {
      NothingMissingFrame(s, Apply(s, step));
    }
  }

  lemma {:induction false} InvKept(s: State, steps: seq<Step>)
    requires Inv(s) && IsRun(s, steps)
    ensures Inv(Exec(s, steps)) && Exec(s, steps).threads == s.threads
    decreases |steps|
  {
    hide Inv, Key;
    if steps != [] {
      StepKept(s, steps[0]);
      InvKept(Apply(s, steps[0]), steps[1..]);
    }
  }

  lemma StepKept(s: State, step: Step)
    requires Inv(s) && Enabled(s, step)
    ensures Inv(Apply(s, step)) && Apply(s, step).threads == s.threads
  {
    IdsKept(s, step);
    StoredKept(s, step);
    PendingKept(s, step);
    RegisteredKept(s, step);
    NothingMissingKept(s, step);
  }

  lemma RunInv(threads: nat, steps: seq<Step>)
    requires IsRun(Init(threads), steps)
    ensures Inv(Exec(Init(threads), steps)) && Exec(Init(threads), steps).threads == threads
  {
    InvKept(Init(threads), steps);
  }

  // ---------------------------------------------------------------- over all interleavings

  /** No id is given twice, and none serves both a connection and a `RunAfter` timer. */
  lemma IdsDistinct(threads: nat, steps: seq<Step>)
    requires IsRun(Init(threads), steps)
    ensures var s := Exec(Init(threads), steps);
            && (forall i, j :: 0 <= i < j < |s.given| ==> s.given[i] != s.given[j])
            && (forall id :: id in s.timers || Created(s, id) ==> id in s.given)
            && (forall id :: id in s.timers ==> !Created(s, id))
  {
    RunInv(threads, steps);
    var s := Exec(Init(threads), steps);
    forall id | 1 <= id <= s.nextId
      ensures id in s.given
    {
      assert s.given[id - 1] == id;
    }
  }

  /** `RemoveConnectionInLoop` never runs before the connection is stored: `Release` is always
      queued, and the base loop runs no task in the middle of `NewConnection`. */
  lemma RemovedAfterStored(threads: nat, steps: seq<Step>, id: Id)
    requires IsRun(Init(threads), steps)
    requires var s := Exec(Init(threads), steps); Enabled(s, BaseTurn) && Concerns(s.baseQueue[0], id)
    ensures id in Exec(Init(threads), steps).stored
  {
    RunInv(threads, steps);
  }

  /** A connection is stored under its own id if and only if no `RunAfter` cut into its acceptance;
      with worker threads none ever does. */
  lemma StoredUnderOwnId(threads: nat, steps: seq<Step>, id: Id)
    requires IsRun(Init(threads), steps)
    ensures var s := Exec(Init(threads), steps);
            && (id in s.stored ==> (s.stored[id] == id <==> id !in s.cutInto))
            && (threads > 0 ==> s.cutInto == {})
  {
    RunInv(threads, steps);
  }

  /** A run in which the key is not the id: a connected callback that calls `RunAfter` on a server
      without worker threads. */
  lemma ShiftedKey()
    ensures var steps := [Accept, AfterInline, Store];
            IsRun(Init(0), steps) && Exec(Init(0), steps).connections == map[2 := 1]
  {
    var steps := [Accept, AfterInline, Store];
    var a := Apply(Init(0), Accept);
    var b := Apply(a, AfterInline);
    assert steps[1..] == [AfterInline, Store] && steps[1..][1..] == [Store] && steps[1..][1..][1..] == [];
    assert IsRun(b, [Store]) && IsRun(a, [AfterInline, Store]);
    assert Exec(b, [Store]) == Apply(b, Store);
    assert Exec(a, [AfterInline, Store]) == Apply(b, Store);
  }

  lemma KeyOfSmall(id: Id)
    requires id < 0x1_0000_0000
    ensures if id < 0x8000_0000 then Key(id) == id else Key(id) >= 0x1_0000_0000
  {
  }

  lemma KeyOfLarge(id: Id)
    requires id >= 0x1_0000_0000
    ensures id % 0x1_0000_0000 < 0x8000_0000 ==> Key(id) == id % 0x1_0000_0000 < id
    ensures id % 0x1_0000_0000 >= 0x8000_0000 ==> Key(id) >= 0x8000_0000_0000_0000
  {
  }

  /** What running the removal of a stored connection does to the registry: its own entry goes if
      and only if it was stored under its id and the id fits an `int`; another entry goes if and
      only if its key is what an `int` makes of a larger id. (Ids below 2^63.) */
  lemma RemovalExact(threads: nat, steps: seq<Step>, id: Id)
    requires IsRun(Init(threads), steps)
    requires var s := Exec(Init(threads), steps);
             Enabled(s, BaseTurn) && Concerns(s.baseQueue[0], id) && s.nextId < 0x8000_0000_0000_0000
    ensures var (s, t) := (Exec(Init(threads), steps), Apply(Exec(Init(threads), steps), BaseTurn));
            && id in s.stored && t.connections.Keys <= s.connections.Keys
            && (s.stored[id] in s.connections ==>
                  (s.stored[id] !in t.connections <==> id !in s.cutInto && id < 0x8000_0000))
            && (forall k :: k in s.connections && k != s.stored[id] ==>
                  (k !in t.connections <==>
                     id >= 0x1_0000_0000 && k == id % 0x1_0000_0000 && k < 0x8000_0000))
  {
    hide Exec, IsRun, Inv, Enabled, Apply, Concerns;
    RunInv(threads, steps);
    RemovalFrom(Exec(Init(threads), steps), id);
  }

  lemma RemovalFrom(s: State, id: Id)
    requires Inv(s) && s.nextId < 0x8000_0000_0000_0000
    requires Enabled(s, BaseTurn) && Concerns(s.baseQueue[0], id)
    ensures var t := Apply(s, BaseTurn);
            && id in s.stored && t.connections.Keys <= s.connections.Keys
            && (s.stored[id] in s.connections ==>
                  (s.stored[id] !in t.connections <==> id !in s.cutInto && id < 0x8000_0000))
            && (forall k :: k in s.connections && k != s.stored[id] ==>
                  (k !in t.connections <==>
                     id >= 0x1_0000_0000 && k == id % 0x1_0000_0000 && k < 0x8000_0000))
  {
    hide Key;
    assert Apply(s, BaseTurn).connections == s.connections - {Key(id)};
    hide Apply, Registered, NothingMissing, IdsInOrder, StoredInOrder;
    OwnKey(s, id);
    if id < 0x1_0000_0000 {
      SmallRemoval(s, id);
    } else {
      LargeRemoval(s, id);
    }
  }

  lemma OwnKey(s: State, id: Id)
    requires IdsInOrder(s) && StoredInOrder(s) && id in s.stored && s.nextId < 0x8000_0000_0000_0000
    ensures Key(id) == s.stored[id] <==> id !in s.cutInto && id < 0x8000_0000
  {
  }

  lemma LargeRemoval(s: State, id: Id)
    requires IdsInOrder(s) && Registered(s) && id in s.stored
    requires id >= 0x1_0000_0000 && s.nextId < 0x8000_0000_0000_0000
    ensures Key(id) != s.stored[id]
    ensures Key(id) in s.connections ==> Key(id) == id % 0x1_0000_0000 < 0x8000_0000
    ensures id % 0x1_0000_0000 < 0x8000_0000 ==> Key(id) == id % 0x1_0000_0000
  {
    hide Key;
    KeyOfLarge(id);
    if Key(id) in s.connections {
      assert s.stored[s.connections[Key(id)]] == Key(id);
    }
  }

  /** Below 2^32 the key of an id is another connection's key for no id. */
  lemma SmallRemoval(s: State, id: Id)
    requires IdsInOrder(s) && StoredInOrder(s) && Registered(s) && id in s.stored
    requires id < 0x1_0000_0000 && s.nextId < 0x8000_0000_0000_0000
    ensures Key(id) in s.connections ==> Key(id) == s.stored[id]
  {
    if Key(id) in s.connections {
      var a := s.connections[Key(id)];
      assert s.stored[a] == Key(id) <= s.nextId;
      KeyOfSmall(id);
      assert a == id;
    }
  }

  lemma KeyBelow(id: Id)
    requires Key(id) < 0x8000_0000_0000_0000
    ensures Key(id) <= id
  {
  }

  /** The registry, exactly, in every reachable state (with ids below 2^63): the entry of a
      connection is there from its acceptance until a removal has run whose id has that key as an
      `int`. Below 2^32 this is the removal of the connection itself, if it was stored under its id
      and the id fits an `int`; so an entry that a `RunAfter` cut into stays. */
  lemma EntryExact(threads: nat, steps: seq<Step>, id: Id)
    requires IsRun(Init(threads), steps)
    requires var s := Exec(Init(threads), steps); id in s.stored && s.nextId < 0x8000_0000_0000_0000
    ensures var s := Exec(Init(threads), steps);
            && (s.stored[id] !in s.connections <==> KeyErased(s, s.stored[id]))
            && (s.nextId < 0x1_0000_0000 ==>
                  (s.stored[id] !in s.connections <==> id in s.erased && id !in s.cutInto && id < 0x8000_0000))
  {
    hide Exec, IsRun, Pending, Key;
    RunInv(threads, steps);
    var s := Exec(Init(threads), steps);
    if KeyErased(s, s.stored[id]) {
      var e :| e in s.erased && Key(e) == s.stored[id];
      KeyBelow(e);
      if s.nextId < 0x1_0000_0000 {
        KeyOfSmall(e);
        assert e == id;
      }
    } else if id < 0x8000_0000 {
      KeyOfSmall(id);
      if id in s.erased {
        NowErased(s, id);
      }
    }
  }

  /** An erased id never comes back, whatever happens later. */
  lemma NeverReappears(threads: nat, steps: seq<Step>, id: Id)
    requires IsRun(Init(threads), steps)
    ensures var s := Exec(Init(threads), steps);
            id in s.erased && id < 0x8000_0000 ==> id in s.stored && id !in s.connections
  {
    RunInv(threads, steps);
    assert id < 0x8000_0000 ==> Key(id) == id;
  }

  // ---------------------------------------------------------------- how many ids

  /** The steps that set up a timer: a `RunAfter` that runs, wherever it was called. */
  predicate SetsTimer(s: State, step: Step)
    requires Enabled(s, step)
  {
    step.AfterInline? || step.AfterDirect? || (step.BaseTurn? && s.baseQueue[0].After?)
  }

  function TimersIn(s: State, steps: seq<Step>): nat
    requires IsRun(s, steps)
    decreases |steps|
  {
    if steps == [] then 0
    else (if SetsTimer(s, steps[0]) then 1 else 0) + TimersIn(Apply(s, steps[0]), steps[1..])
  }

  function AcceptsIn(steps: seq<Step>): nat
    decreases |steps|
  {
    if steps == [] then 0 else (if steps[0].Accept? then 1 else 0) + AcceptsIn(steps[1..])
  }

  lemma OneId(s: State, step: Step)
    requires Inv(s) && Enabled(s, step)
    ensures var t := Apply(s, step);
            && t.nextId == s.nextId + (if step.Accept? || SetsTimer(s, step) then 1 else 0)
            && |t.timers| == |s.timers| + if SetsTimer(s, step) then 1 else 0
  {
    hide Key, Created, StoredInOrder, Registered, NothingMissing, Pending;
    assert s.nextId + 1 !in s.timers;
    assert |s.timers + {s.nextId + 1}| == |s.timers| + 1;
  }

  /** Each accepted connection and each timer takes one id, and nothing else does. */
  lemma {:induction false} IdsCounted(s: State, steps: seq<Step>)
    requires Inv(s) && IsRun(s, steps)
    ensures Exec(s, steps).nextId == s.nextId + AcceptsIn(steps) + TimersIn(s, steps)
    ensures |Exec(s, steps).timers| == |s.timers| + TimersIn(s, steps)
    decreases |steps|
  {
    hide Inv, Apply, Enabled;
    if steps != [] {
      OneId(s, steps[0]);
      StepKept(s, steps[0]);
      IdsCounted(Apply(s, steps[0]), steps[1..]);
    }
  }

  // ---------------------------------------------------------------- no request is lost

  /** What other threads ask of the base loop: the removal of a connection, or a timer. */
  datatype Wish = Removal(id: Id) | Timer

  predicate IsFor(task: BaseTask, wish: Wish) {
    match wish
    case Removal(id) => Concerns(task, id)
    case Timer => task.After?
  }

  predicate Expresses(step: Step, wish: Wish) {
    match wish
    case Removal(id) => step == AskRelease(id)
    case Timer => step == PushAfter
  }

  /** How many tasks of a queue are for it, and how many are still in another loop. */
  function Waiting(q: seq<BaseTask>, wish: Wish): nat
    decreases |q|
  {
    if q == [] then 0 else (if IsFor(q[0], wish) then 1 else 0) + Waiting(q[1..], wish)
  }

  function Elsewhere(s: State, wish: Wish): nat {
    if wish.Removal? then s.releasing[wish.id] else 0
  }

  lemma {:induction false} WaitingAppend(q: seq<BaseTask>, task: BaseTask, wish: Wish)
    ensures Waiting(q + [task], wish) == Waiting(q, wish) + if IsFor(task, wish) then 1 else 0
    decreases |q|
  {
    hide IsFor;
    if q == [] {
      assert [] + [task] == [task] && [task][1..] == [];
    } else {
      assert (q + [task])[1..] == q[1..] + [task];
      WaitingAppend(q[1..], task, wish);
    }
  }

  function Wishes(steps: seq<Step>, wish: Wish): nat
    decreases |steps|
  {
    if steps == [] then 0 else (if Expresses(steps[0], wish) then 1 else 0) + Wishes(steps[1..], wish)
  }

  predicate Fulfils(s: State, step: Step, wish: Wish)
    requires Enabled(s, step)
  {
    step.BaseTurn? && IsFor(s.baseQueue[0], wish)
  }

  function Fulfilled(s: State, steps: seq<Step>, wish: Wish): nat
    requires IsRun(s, steps)
    decreases |steps|
  {
    if steps == [] then 0
    else (if Fulfils(s, steps[0], wish) then 1 else 0) + Fulfilled(Apply(s, steps[0]), steps[1..], wish)
  }

  lemma FirstOf(q: seq<BaseTask>, wish: Wish)
    requires q != []
    ensures Waiting(q, wish) == (if IsFor(q[0], wish) then 1 else 0) + Waiting(q[1..], wish)
  {
  }

  lemma TimerOnly(s: State)
    ensures GiveTimer(s).baseQueue == s.baseQueue && GiveTimer(s).releasing == s.releasing
  {
  }

  lemma TurnKeeps(s: State)
    requires Enabled(s, BaseTurn)
    ensures Apply(s, BaseTurn).baseQueue == s.baseQueue[1..] && Apply(s, BaseTurn).releasing == s.releasing
  {
    hide Key;
  }

  lemma OneWish(s: State, step: Step, wish: Wish)
    requires Enabled(s, step)
    ensures var t := Apply(s, step);
            Elsewhere(t, wish) + Waiting(t.baseQueue, wish) + (if Fulfils(s, step, wish) then 1 else 0)
            == Elsewhere(s, wish) + Waiting(s.baseQueue, wish) + if Expresses(step, wish) then 1 else 0
  {
    hide Key, Created, Waiting, GiveTimer, Erase;
    match step
    case BaseTurn =>
      FirstOf(s.baseQueue, wish);
      TurnKeeps(s);
    case Accept =>
    case AfterInline =>
      TimerOnly(s);
    case AfterDirect =>
      TimerOnly(s);
    case AskRelease(x) =>
      WaitingAppend(s.baseQueue, Release(x), wish);
    case WorkerRelease(x) =>
      WaitingAppend(s.baseQueue, Remove(x), wish);
    case PushAfter =>
      WaitingAppend(s.baseQueue, After, wish);
    case _ =>
  }

  /** Every release that is asked for, and every `RunAfter` of another thread, is under way in the
      loop of the connection, waits in the base loop, or has been carried out there, once. */
  lemma {:induction false} WishesConserved(s: State, steps: seq<Step>, wish: Wish)
    requires IsRun(s, steps)
    ensures var t := Exec(s, steps);
            Elsewhere(t, wish) + Waiting(t.baseQueue, wish) + Fulfilled(s, steps, wish)
            == Elsewhere(s, wish) + Waiting(s.baseQueue, wish) + Wishes(steps, wish)
    decreases |steps|
  {
    hide Apply, Enabled, Waiting, Elsewhere, Fulfils, Expresses;
    if steps != [] {
      OneWish(s, steps[0], wish);
      WishesConserved(Apply(s, steps[0]), steps[1..], wish);
    }
  }

  // ---------------------------------------------------------------- ids that do not fit an int

  /** Connections accepted and stored one after the other. */
  function Pairs(n: nat): seq<Step> {
    if n == 0 then [] else Pairs(n - 1) + [Accept, Store]
  }

  function AllUpTo(n: nat): (m: map<Id, Id>)
    ensures forall k :: k in m <==> 1 <= k <= n
    ensures forall k :: k in m ==> m[k] == k
  {
    if n == 0 then map[] else AllUpTo(n - 1)[n := n]
  }

  /** A server without worker threads that has accepted `n` connections. */
  function Full(n: nat): State {
    State(0, n, None, AllUpTo(n), [], multiset{}, seq(n, i => i + 1), {}, AllUpTo(n), {}, {})
  }

  lemma {:induction false} RunAppend(s: State, a: seq<Step>, b: seq<Step>)
    requires IsRun(s, a) && IsRun(Exec(s, a), b)
    ensures IsRun(s, a + b) && Exec(s, a + b) == Exec(Exec(s, a), b)
    decreases |a|
  {
    hide Apply, Enabled;
    if a == [] {
      assert a + b == b;
    } else {
      assert (a + b)[1..] == a[1..] + b;
      RunAppend(Apply(s, a[0]), a[1..], b);
    }
  }

  lemma TwoSteps(s: State, a: Step, b: Step)
    requires Enabled(s, a) && Enabled(Apply(s, a), b)
    ensures IsRun(s, [a, b]) && Exec(s, [a, b]) == Apply(Apply(s, a), b)
  {
    hide Apply, Enabled;
    assert [a, b][1..] == [b] && [b][1..] == [];
    assert IsRun(Apply(Apply(s, a), b), []);
    assert Exec(Apply(s, a), [b]) == Apply(Apply(s, a), b);
  }

  lemma OneMore(n: nat)
    ensures Enabled(Full(n), Accept) && Enabled(Apply(Full(n), Accept), Store)
    ensures Apply(Apply(Full(n), Accept), Store) == Full(n + 1)
  {
    var t := Apply(Apply(Full(n), Accept), Store);
    assert t.given == Full(n + 1).given;
    assert t.stored == AllUpTo(n)[n + 1 := n + 1] == AllUpTo(n + 1);
    assert t.connections == AllUpTo(n + 1);
  }

  lemma {:induction false} PairsReach(n: nat)
    ensures IsRun(Init(0), Pairs(n)) && Exec(Init(0), Pairs(n)) == Full(n)
  {
    if n == 0 {
      assert AllUpTo(0) == map[];
      assert Full(0).given == [];
    } else {
      hide Init, Full, Apply, Enabled;
      PairsReach(n - 1);
      OneMore(n - 1);
      TwoSteps(Full(n - 1), Accept, Store);
      RunAppend(Init(0), Pairs(n - 1), [Accept, Store]);
    }
  }

  lemma RemoveLast(n: nat)
    requires n >= 1
    ensures var s := Full(n);
            && Enabled(s, AskRelease(n)) && Enabled(Apply(s, AskRelease(n)), BaseTurn)
            && Apply(Apply(s, AskRelease(n)), BaseTurn) == s.(connections := AllUpTo(n) - {Key(n)}, erased := {n})
  {
    hide Key;
    var s := Full(n);
    var t := Apply(s, AskRelease(n));
    assert t.baseQueue == [Release(n)] && t.baseQueue[1..] == [];
  }

  /** Every id is reached, and its removal runs: `n` connections are accepted, and the last one is
      released. Below 2^31 its entry goes; from there to 2^32 it stays; and for 2^32 + k the entry
      of connection k goes instead. */
  lemma RemovalOfNth(n: nat)
    requires n >= 1
    ensures var steps := Pairs(n) + [AskRelease(n), BaseTurn];
            && IsRun(Init(0), steps)
            && var s := Exec(Init(0), steps);
               && s.stored == AllUpTo(n) && s.erased == {n}
               && (n < 0x8000_0000 ==> s.connections == AllUpTo(n - 1))
               && (0x8000_0000 <= n < 0x1_0000_0000 ==> s.connections == AllUpTo(n))
               && (0x1_0000_0000 <= n < 0x1_8000_0000 ==>
                     s.connections == AllUpTo(n) - {n - 0x1_0000_0000})
  {
    hide Init, Full, Apply, Enabled, Key;
    PairsReach(n);
    RemoveLast(n);
    TwoSteps(Full(n), AskRelease(n), BaseTurn);
    RunAppend(Init(0), Pairs(n), [AskRelease(n), BaseTurn]);
    NthKey(n);
    assert Full(n).stored == AllUpTo(n) by {
      FullStored(n);
    }
  }

  lemma FullStored(n: nat)
    ensures Full(n).stored == AllUpTo(n)
  {
  }

  lemma NthKey(n: nat)
    requires n >= 1
    ensures n < 0x8000_0000 ==> AllUpTo(n) - {Key(n)} == AllUpTo(n - 1)
    ensures 0x8000_0000 <= n < 0x1_0000_0000 ==> AllUpTo(n) - {Key(n)} == AllUpTo(n)
    ensures 0x1_0000_0000 <= n < 0x1_8000_0000 ==> Key(n) == n - 0x1_0000_0000
  {
    if n < 0x1_0000_0000 {
      KeyOfSmall(n);
      hide Key;
    }
  }
}
