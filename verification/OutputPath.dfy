/**
 The output side of `Connection` (source/server.hpp) as a state machine on values: the payloads
 it accepts, the bytes the socket takes, the write interest and the requests for release.
 */
module OutputPath {
  import opened Strings

  datatype Status = Connecting | Connected | Disconnected | Disconnecting

  /** `sent` is what the socket has taken, `accepted` all payloads that were not dropped;
      `releases` holds, for every call of `Release`, how many bytes were queued at that time, and
      `released` counts those that have run. */
  datatype Output = Output(status: Status, queued: string, sent: string, accepted: string,
                           wantsWrite: bool, releases: seq<nat>, released: nat)

  const NEW_OUTPUT := Output(Connecting, "", "", "", false, [], 0)

  datatype Op =
    | Establish          // EstablishedInLoop
    | Send(bytes: string)  // SendInLoop
    | WriteReady(n: nat)   // HandleWrite, the socket takes n bytes
    | StartShutdown      // the first line of ShutdownInLoop
    | FinishShutdown     // its last statement
    | Close              // Release, from HandleClose, from a timer or from the user
    | RunRelease         // ReleaseInLoop

  /** A socket takes no more than it is given. */
  predicate Fits(o: Output, op: Op) {
    op.WriteReady? ==> op.n <= |o.queued|
  }

  /** And epoll reports writability only to a channel that asks for it; a release runs once for
      each time it was asked for. */
  predicate Enabled(o: Output, op: Op) {
    && Fits(o, op) && (op.WriteReady? ==> o.wantsWrite)
    && (op.RunRelease? ==> o.released < |o.releases|)
  }

  function Release(o: Output): Output {
    o.(releases := o.releases + [|o.queued|])
  }

  function Step(o: Output, op: Op): Output
    requires Fits(o, op)
  {
    match op
    case Establish => o.(status := Connected)
    case Send(bytes) =>
      if o.status == Disconnected then o
      else o.(queued := o.queued + bytes, accepted := o.accepted + bytes, wantsWrite := true)
    case WriteReady(n) =>
      var w := o.(sent := o.sent + o.queued[..n], queued := o.queued[n..]);
      if w.queued != "" then w
      else
        var d := w.(wantsWrite := false);
        if d.status == Disconnecting then Release(d) else d
    case StartShutdown => o.(status := Disconnecting)
    case FinishShutdown => if o.queued == "" then Release(o) else o.(wantsWrite := true)
    case Close => Release(o)
    case RunRelease => o.(status := Disconnected, released := o.released + 1)
  }

  predicate AllEnabled(o: Output, ops: seq<Op>)
    decreases |ops|
  {
    ops == [] || (Enabled(o, ops[0]) && AllEnabled(Step(o, ops[0]), ops[1..]))
  }

  function Run(o: Output, ops: seq<Op>): Output
    requires AllEnabled(o, ops)
    decreases |ops|
  {
    if ops == [] then o else Run(Step(o, ops[0]), ops[1..])
  }

  lemma {:induction false} RunAppend(o: Output, a: seq<Op>, b: seq<Op>)
    requires AllEnabled(o, a) && AllEnabled(Run(o, a), b)
    ensures AllEnabled(o, a + b) && Run(o, a + b) == Run(Run(o, a), b)
    decreases |a|
  {
    if a == [] {
      assert a + b == b;
    } else {
      assert (a + b)[1..] == a[1..] + b;
      RunAppend(Step(o, a[0]), a[1..], b);
    }
  }

  // ---------------------------------------------------------------- conservation

  /** No byte is lost, repeated or reordered, and unsent bytes always have write interest. */
  predicate Conserved(o: Output) {
    o.sent + o.queued == o.accepted && (o.queued != "" ==> o.wantsWrite)
  }

  lemma StepConserves(o: Output, op: Op)
    requires Conserved(o) && Fits(o, op)
    ensures Conserved(Step(o, op))
  {
    match op
    case Send(bytes) =>
      Assoc(o.sent, o.queued, bytes);
    case WriteReady(n) =>
      assert o.queued == o.queued[..n] + o.queued[n..];
      Assoc(o.sent, o.queued[..n], o.queued[n..]);
    case _ =>
  }

  /** All payloads offered in a run, in order. */
  function Payloads(ops: seq<Op>): string {
    if ops == [] then ""
    else (if ops[0].Send? then ops[0].bytes else "") + Payloads(ops[1..])
  }

  lemma {:induction false} PayloadsAppend(a: seq<Op>, b: seq<Op>)
    ensures Payloads(a + b) == Payloads(a) + Payloads(b)
  {
    if a == [] {
      assert a + b == b && "" + Payloads(b) == Payloads(b);
    } else {
      var p := if a[0].Send? then a[0].bytes else "";
      assert (a + b)[1..] == a[1..] + b;
      PayloadsAppend(a[1..], b);
      Assoc(p, Payloads(a[1..]), Payloads(b));
    }
  }

  lemma {:induction false} RunConserves(o: Output, ops: seq<Op>)
    requires Conserved(o) && AllEnabled(o, ops)
    ensures Conserved(Run(o, ops))
    decreases |ops|
  {
    if ops != [] {
      StepConserves(o, ops[0]);
      RunConserves(Step(o, ops[0]), ops[1..]);
    }
  }

  predicate NoRelease(ops: seq<Op>) {
    forall i :: 0 <= i < |ops| ==> !ops[i].RunRelease?
  }

  /** Until a release runs, no payload is dropped. */
  lemma {:induction false} AcceptsAll(o: Output, ops: seq<Op>)
    requires AllEnabled(o, ops) && NoRelease(ops) && o.status != Disconnected
    ensures Run(o, ops).accepted == o.accepted + Payloads(ops)
    ensures Run(o, ops).status != Disconnected
    decreases |ops|
  {
    if ops == [] {
      assert o.accepted + "" == o.accepted;
    } else {
      var p := if ops[0].Send? then ops[0].bytes else "";
      assert Step(o, ops[0]).accepted == o.accepted + p;
      AcceptsAll(Step(o, ops[0]), ops[1..]);
      Assoc(o.accepted, p, Payloads(ops[1..]));
    }
  }

  /** Output conservation over every run of a connection that is not released yet: the bytes
      handed to the socket followed by the queue are the payloads, in order. */
  lemma OutputConservation(ops: seq<Op>)
    requires AllEnabled(NEW_OUTPUT, ops) && NoRelease(ops)
    ensures var o := Run(NEW_OUTPUT, ops);
            o.sent + o.queued == Payloads(ops) && (o.queued != "" ==> o.wantsWrite)
  {
    RunConserves(NEW_OUTPUT, ops);
    AcceptsAll(NEW_OUTPUT, ops);
    assert "" + Payloads(ops) == Payloads(ops);
  }

  // ---------------------------------------------------------------- graceful drain

  /** A release that is not forced by `Close` is asked for only when every byte accepted so far
      has been handed to the socket. */
  lemma ReleasedWhenAllSent(o: Output, op: Op)
    requires Conserved(o) && Fits(o, op) && !op.Close?
    requires |Step(o, op).releases| > |o.releases|
    ensures Step(o, op).sent == Step(o, op).accepted
  {
    StepConserves(o, op);
    assert Step(o, op).sent + "" == Step(o, op).sent;
  }

  predicate Graceful(ops: seq<Op>) {
    forall i :: 0 <= i < |ops| ==> !ops[i].Close?
  }

  predicate AllDrained(releases: seq<nat>) {
    forall i :: 0 <= i < |releases| ==> releases[i] == 0
  }

  /** HandleWrite and ShutdownInLoop ask for a release only when nothing is queued. */
  lemma {:induction false} GracefulRelease(o: Output, ops: seq<Op>)
    requires AllEnabled(o, ops) && Graceful(ops) && AllDrained(o.releases)
    ensures AllDrained(Run(o, ops).releases)
    decreases |ops|
  {
    if ops != [] {
      GracefulRelease(Step(o, ops[0]), ops[1..]);
    }
  }

  // ---------------------------------------------------------------- each step, from outside

  /** The write that empties the queue drops write interest, whatever the status; one that does not
      changes neither interest nor releases. Only while shutting down is a release asked for. */
  lemma WriteInterest(o: Output, n: nat)
    requires o.wantsWrite && n <= |o.queued|
    ensures var t := Step(o, WriteReady(n));
            && |t.sent| == |o.sent| + n && |t.queued| == |o.queued| - n
            && t.accepted == o.accepted && t.status == o.status && t.released == o.released
            && (t.wantsWrite <==> n < |o.queued|)
            && t.releases == if n == |o.queued| && o.status == Disconnecting then o.releases + [0] else o.releases
  {
  }

  /** A shutdown asks for a release at once if nothing is queued, and else for writability. */
  lemma ShutdownAsks(o: Output)
    ensures var t := Run(o, [StartShutdown, FinishShutdown]);
            && AllEnabled(o, [StartShutdown, FinishShutdown])
            && t.status == Disconnecting && t.queued == o.queued && t.sent == o.sent && t.accepted == o.accepted
            && (o.queued == "" ==> t.releases == o.releases + [0] && t.wantsWrite == o.wantsWrite)
            && (o.queued != "" ==> t.releases == o.releases && t.wantsWrite)
  {
    var ops := [StartShutdown, FinishShutdown];
    assert ops[1..] == [FinishShutdown] && ops[1..][1..] == [];
    var s := Step(o, StartShutdown);
    assert AllEnabled(s, [FinishShutdown]) && Run(s, [FinishShutdown]) == Step(s, FinishShutdown);
  }

  /** A payload always turns on write interest, even an empty one, unless it is dropped. */
  lemma SendWantsWrite(o: Output, bytes: string)
    ensures var t := Step(o, Op.Send(bytes));
            if o.status == Disconnected then t == o
            else t.wantsWrite && t.queued == o.queued + bytes && t.status == o.status && t.releases == o.releases
  {
  }

  predicate Undisturbed(ops: seq<Op>) {
    forall i :: 0 <= i < |ops| ==> ops[i].Establish? || ops[i].Send? || ops[i].WriteReady?
  }

  /** Nobody but a shutdown or a close asks for a release. */
  lemma {:induction false} NobodyAsks(o: Output, ops: seq<Op>)
    requires AllEnabled(o, ops) && Undisturbed(ops) && o.status != Disconnecting
    ensures Run(o, ops).releases == o.releases && Run(o, ops).status != Disconnecting
    decreases |ops|
  {
    if ops != [] {
      assert Undisturbed(ops[1..]);
      NobodyAsks(Step(o, ops[0]), ops[1..]);
    }
  }

  /** After its release a connection accepts nothing any more, until something changes its status. */
  lemma {:induction false} ReleasedAcceptsNothing(o: Output, ops: seq<Op>)
    requires AllEnabled(o, ops) && o.status == Disconnected
    requires forall i :: 0 <= i < |ops| ==> !ops[i].Establish? && !ops[i].StartShutdown?
    ensures Run(o, ops).accepted == o.accepted && Run(o, ops).status == Disconnected
    decreases |ops|
  {
    if ops != [] {
      assert forall i :: 0 <= i < |ops[1..]| ==> ops[1..][i] == ops[i + 1];
      ReleasedAcceptsNothing(Step(o, ops[0]), ops[1..]);
    }
  }

  /** The status is the one that the last step which sets it has set. */
  lemma StatusSet(o: Output)
    ensures Step(o, Establish).status == Connected && Step(o, StartShutdown).status == Disconnecting
    ensures Step(o, RunRelease).status == Disconnected && Step(o, FinishShutdown).status == o.status
    ensures Step(o, Close) == o.(releases := o.releases + [|o.queued|])
    ensures Step(o, Establish).(status := o.status) == o && Step(o, StartShutdown).(status := o.status) == o
  {
  }

  /** How many bytes the writes of a run take. */
  function Taken(ops: seq<Op>): nat {
    if ops == [] then 0 else (if ops[0].WriteReady? then ops[0].n else 0) + Taken(ops[1..])
  }

  lemma {:induction false} SentIsTaken(o: Output, ops: seq<Op>)
    requires AllEnabled(o, ops)
    ensures |Run(o, ops).sent| == |o.sent| + Taken(ops)
    decreases |ops|
  {
    if ops != [] {
      SentIsTaken(Step(o, ops[0]), ops[1..]);
    }
  }

  // ---------------------------------------------------------------- what a release gives up

  lemma {:induction false} SentGrows(o: Output, ops: seq<Op>)
    requires AllEnabled(o, ops)
    ensures o.sent <= Run(o, ops).sent
    decreases |ops|
  {
    if ops != [] {
      assert o.sent <= Step(o, ops[0]).sent;
      SentGrows(Step(o, ops[0]), ops[1..]);
    }
  }

  /** What a stretch of a run writes and what it leaves in the queue: together, what was queued and
      what has been accepted since. */
  lemma Since(o: Output, ops: seq<Op>)
    requires Conserved(o) && AllEnabled(o, ops) && NoRelease(ops) && o.status != Disconnected
    ensures var (t, all) := (Run(o, ops), o.queued + Payloads(ops));
            var n := |t.sent| - |o.sent|;
            0 <= n <= |all| && t.sent == o.sent + all[..n] && t.queued == all[n..]
  {
    hide AllEnabled, Run, Payloads;
    var t, all := Run(o, ops), o.queued + Payloads(ops);
    RunConserves(o, ops);
    AcceptsAll(o, ops);
    SentGrows(o, ops);
    Assoc(o.sent, o.queued, Payloads(ops));
    SplitBehind(o.sent, all, t.sent, t.queued);
  }

  lemma SplitBehind(a: string, b: string, c: string, d: string)
    requires a + b == c + d && a <= c
    ensures var n := |c| - |a|;
            n <= |b| && c == a + b[..n] && d == b[n..]
  {
    var n := |c| - |a|;
    assert c == (a + b)[..|c|] == a + b[..n];
    assert d == (a + b)[|c|..] == b[n..];
  }

  /** The last request for release in a stretch of a run. */
  lemma {:induction false} LastRequest(o: Output, ops: seq<Op>) returns (a: seq<Op>, op: Op, b: seq<Op>)
    requires AllEnabled(o, ops) && |Run(o, ops).releases| > |o.releases|
    ensures ops == a + [op] + b && AllEnabled(o, a) && Enabled(Run(o, a), op)
    ensures var (s, t) := (Run(o, a), Step(Run(o, a), op));
            && |t.releases| > |s.releases|
            && AllEnabled(t, b) && Run(t, b) == Run(o, ops) && |Run(o, ops).releases| == |t.releases|
    decreases |ops|
  {
    var t := Step(o, ops[0]);
    RequestsStay(t, ops[1..]);
    if |Run(t, ops[1..]).releases| > |t.releases| {
      a, op, b := LastRequest(t, ops[1..]);
      assert ops == [ops[0]] + ops[1..];
      a := [ops[0]] + a;
      assert a[1..] + [op] + b == ops[1..];
    } else {
      a, op, b := [], ops[0], ops[1..];
    }
  }

  lemma {:induction false} RequestsStay(o: Output, ops: seq<Op>)
    requires AllEnabled(o, ops)
    ensures |Run(o, ops).releases| >= |o.releases|
    decreases |ops|
  {
    if ops != [] {
      RequestsStay(Step(o, ops[0]), ops[1..]);
    }
  }

  /** What is lost when the release of a connection runs that was never closed by force: exactly the
      payloads accepted since it was last asked for, less what has been written since. */
  lemma ReleaseLoses(ops: seq<Op>) returns (before: seq<Op>, request: Op, since: seq<Op>)
    requires AllEnabled(NEW_OUTPUT, ops) && NoRelease(ops) && Graceful(ops)
    requires Enabled(Run(NEW_OUTPUT, ops), RunRelease)
    ensures ops == before + [request] + since
    ensures AllEnabled(NEW_OUTPUT, before) && Enabled(Run(NEW_OUTPUT, before), request)
    ensures var (s, t) := (Run(NEW_OUTPUT, before), Step(Run(NEW_OUTPUT, before), request));
            var end := Run(NEW_OUTPUT, ops);
            && |t.releases| > |s.releases| && |end.releases| == |t.releases| && t.queued == ""
            && var n := |end.sent| - |t.sent|;
               0 <= n <= |Payloads(since)| && Step(end, RunRelease).queued == Payloads(since)[n..]
  {
    hide AllEnabled, Run, Payloads, Step;
    before, request, since := LastRequestOfRun(ops);
    var s := Run(NEW_OUTPUT, before);
    RunConserves(NEW_OUTPUT, before);
    AcceptsAll(NEW_OUTPUT, before);
    RequestFindsNothing(s, request);
    Since(Step(s, request), since);
    assert "" + Payloads(since) == Payloads(since);
    QueueStays(Run(NEW_OUTPUT, ops));
  }

  lemma LastRequestOfRun(ops: seq<Op>) returns (before: seq<Op>, request: Op, since: seq<Op>)
    requires AllEnabled(NEW_OUTPUT, ops) && NoRelease(ops) && Graceful(ops)
    requires Enabled(Run(NEW_OUTPUT, ops), RunRelease)
    ensures ops == before + [request] + since && NoRelease(before) && NoRelease(since)
    ensures !request.Close? && !request.RunRelease?
    ensures AllEnabled(NEW_OUTPUT, before) && Enabled(Run(NEW_OUTPUT, before), request)
    ensures var (s, t) := (Run(NEW_OUTPUT, before), Step(Run(NEW_OUTPUT, before), request));
            && |t.releases| > |s.releases|
            && AllEnabled(t, since) && Run(t, since) == Run(NEW_OUTPUT, ops)
            && |Run(NEW_OUTPUT, ops).releases| == |t.releases|
  {
    hide AllEnabled, Run, Step;
    assert Run(NEW_OUTPUT, ops).released < |Run(NEW_OUTPUT, ops).releases|;
    before, request, since := LastRequest(NEW_OUTPUT, ops);
    assert ops[|before|] == request;
    assert forall i :: 0 <= i < |before| ==> ops[i] == before[i];
    assert forall i :: 0 <= i < |since| ==> ops[|before| + 1 + i] == since[i];
  }

  lemma RequestFindsNothing(o: Output, op: Op)
    requires Conserved(o) && Enabled(o, op) && !op.Close? && o.status != Disconnected && !op.RunRelease?
    requires |Step(o, op).releases| > |o.releases|
    ensures var t := Step(o, op);
            t.queued == "" && Conserved(t) && t.status != Disconnected
  {
    StepConserves(o, op);
  }

  lemma QueueStays(o: Output)
    ensures Step(o, RunRelease).queued == o.queued
  {
  }

  /** A payload that is accepted between the request for release and the release is lost, although
      the request found nothing queued. */
  lemma LostAfterRequest(bytes: string)
    ensures var ops := [StartShutdown, FinishShutdown, Op.Send(bytes), RunRelease];
            && AllEnabled(NEW_OUTPUT, ops) && Graceful(ops)
            && Run(NEW_OUTPUT, ops).queued == Run(NEW_OUTPUT, ops).accepted == bytes
            && Run(NEW_OUTPUT, ops).sent == ""
  {
    var ops := [StartShutdown, FinishShutdown, Op.Send(bytes), RunRelease];
    assert ops[1..] == [FinishShutdown, Op.Send(bytes), RunRelease];
    assert ops[1..][1..] == [Op.Send(bytes), RunRelease] && ops[1..][1..][1..] == [RunRelease];
    assert ops[1..][1..][1..][1..] == [];
    var o := Step(Step(NEW_OUTPUT, StartShutdown), FinishShutdown);
    assert Step(o, Op.Send(bytes)).queued == "" + bytes == bytes;
    LastTwo(o, bytes);
  }

  lemma LastTwo(o: Output, bytes: string)
    requires |o.releases| > o.released && o.status != Disconnected
    ensures var ops := [Op.Send(bytes), RunRelease];
            AllEnabled(o, ops) && Run(o, ops) == Step(Step(o, Op.Send(bytes)), RunRelease)
  {
    var ops := [Op.Send(bytes), RunRelease];
    assert ops[1..] == [RunRelease] && ops[1..][1..] == [];
    assert Run(Step(o, Op.Send(bytes)), [RunRelease]) == Step(Step(o, Op.Send(bytes)), RunRelease);
  }

  function Writes(ns: seq<nat>): (ops: seq<Op>)
    ensures |ops| == |ns| && forall i :: 0 <= i < |ns| ==> ops[i] == WriteReady(ns[i])
  {
    seq(|ns|, i requires 0 <= i < |ns| => WriteReady(ns[i]))
  }

  function Sum(ns: seq<nat>): nat {
    if ns == [] then 0 else ns[0] + Sum(ns[1..])
  }

  /** A shutting-down connection with bytes left: however the socket takes them, they leave in
      order, and the release is requested once, by the write that takes the last of them. */
  lemma {:induction false} Drains(o: Output, ns: seq<nat>)
    requires o.status == Disconnecting && o.queued != ""
    requires AllEnabled(o, Writes(ns))
    ensures var d := Run(o, Writes(ns));
            && d.sent + d.queued == o.sent + o.queued && |d.queued| == |o.queued| - Sum(ns)
            && d.releases == o.releases + (if d.queued == "" then [0] else [])
    decreases |ns|
  {
    if ns != [] {
      var w := Step(o, WriteReady(ns[0]));
      assert Writes(ns)[1..] == Writes(ns[1..]);
      Assoc(o.sent, o.queued[..ns[0]], o.queued[ns[0]..]);
      assert o.queued[..ns[0]] + o.queued[ns[0]..] == o.queued;
      if w.queued == "" {
        DrainedStops(w, ns[1..]);
      } else {
        Drains(w, ns[1..]);
      }
    }
  }

  /** Without write interest no further write is reported. */
  lemma DrainedStops(o: Output, ns: seq<nat>)
    requires !o.wantsWrite && AllEnabled(o, Writes(ns))
    ensures ns == []
  {
    assert ns != [] ==> Enabled(o, Writes(ns)[0]);
  }
}
