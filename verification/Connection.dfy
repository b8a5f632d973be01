/**
 `Connection` (source/server.hpp) with `HttpServer::OnMessage` (source/http.hpp) as its message
 callback. All handlers run in the loop of the connection, so `RunInLoop` calls directly.
 */
module HttpConnection {
  import opened Strings
  import opened HttpMessage
  import opened RequestParser
  import opened Fragmentation
  import opened Framing
  import opened Statuses
  import opened WireLaws
  import opened ResponseText
  import opened OutputPath
  import opened ByteBuffer
  import opened HttpContext

  /** One request the connection has answered, by the router or by the error page, and the status
      the response started from. */
  datatype Exchange = Exchange(req: Request, status: int, res: Response, text: string, failed: bool)

  /** The code around the core: the router with its handlers, the error page, the reason phrases. */
  datatype Site = Site(router: (Request, Response) -> Response, errorPage: int -> string, reason: int -> string)
  {
    function ErrorResponse(code: int): Response {
      EmptyResponse(code).(body := errorPage(code), headers := map["Content-Type" := "text/html"])
    }

    ghost predicate Answers(e: Exchange) {
      && IsText(e.text, e.req.version, e.res, reason(e.res.status))
      && if e.failed then e.status >= 400 && e.res == Complete(e.req, ErrorResponse(e.status))
         else e.status in {0, 200} && e.res == Complete(e.req, router(e.req, EmptyResponse(e.status)))
    }

    /** The handlers leave the Connection field alone. */
    ghost predicate KeepsOpen() {
      forall req, status :: "Connection" !in router(req, EmptyResponse(status)).headers
    }

    ghost predicate AnswersAll(es: seq<Exchange>) {
      forall i :: 0 <= i < |es| ==> Answers(es[i])
    }
  }

  function Requests(log: seq<Exchange>): seq<Request> {
    if log == [] then []
    else
      var e := log[|log| - 1];
      if e.failed then Requests(log[..|log| - 1]) else Requests(log[..|log| - 1]) + [e.req]
  }

  function Routed(log: seq<Exchange>): seq<int> {
    if log == [] then []
    else
      var e := log[|log| - 1];
      if e.failed then Routed(log[..|log| - 1]) else Routed(log[..|log| - 1]) + [e.status]
  }

  function Texts(log: seq<Exchange>): string {
    if log == [] then "" else Texts(log[..|log| - 1]) + log[|log| - 1].text
  }

  predicate AnyFailed(log: seq<Exchange>) {
    exists i :: 0 <= i < |log| && log[i].failed
  }

  predicate AnyCloses(log: seq<Exchange>) {
    exists i :: 0 <= i < |log| && (log[i].failed || log[i].res.Close())
  }

  lemma {:induction false} LogAppend(a: seq<Exchange>, b: seq<Exchange>)
    ensures Requests(a + b) == Requests(a) + Requests(b) && Routed(a + b) == Routed(a) + Routed(b)
    ensures Texts(a + b) == Texts(a) + Texts(b)
    ensures AnyFailed(a + b) == (AnyFailed(a) || AnyFailed(b))
    ensures AnyCloses(a + b) == (AnyCloses(a) || AnyCloses(b))
    decreases |b|
  {
    AnyAppend(a, b);
    if b == [] {
      assert a + b == a;
    } else {
      var init, e := b[..|b| - 1], b[|b| - 1];
      assert (a + b)[..|a + b| - 1] == a + init && (a + b)[|a + b| - 1] == e;
      LogAppend(a, init);
      Assoc(Requests(a), Requests(init), [e.req]);
      Assoc(Routed(a), Routed(init), [e.status]);
      Assoc(Texts(a), Texts(init), e.text);
    }
  }

  lemma AnyAppend(a: seq<Exchange>, b: seq<Exchange>)
    ensures AnyFailed(a + b) == (AnyFailed(a) || AnyFailed(b))
    ensures AnyCloses(a + b) == (AnyCloses(a) || AnyCloses(b))
  {
    var s := a + b;
    assert forall i :: 0 <= i < |a| ==> s[i] == a[i];
    assert forall i :: 0 <= i < |b| ==> s[|a| + i] == b[i];
    assert forall i :: 0 <= i < |s| ==> s[i] == if i < |a| then a[i] else b[i - |a|];
  }

  lemma LogOne(e: Exchange)
    ensures Requests([e]) == (if e.failed then [] else [e.req]) && Texts([e]) == e.text
    ensures Routed([e]) == if e.failed then [] else [e.status]
    ensures AnyFailed([e]) == e.failed && AnyCloses([e]) == (e.failed || e.res.Close())
  {
    assert [e][..0] == [] && [e][0] == e;
  }

  lemma LogNothing()
    ensures Requests([]) == [] && Routed([]) == [] && Texts([]) == "" && !AnyFailed([]) && !AnyCloses([])
  {
  }

  /** A log without refusals lists the requests of the router one by one. */
  lemma {:induction false} RequestAt(log: seq<Exchange>, i: nat)
    requires !AnyFailed(log)
    ensures |Requests(log)| == |log| && (i < |log| ==> Requests(log)[i] == log[i].req)
    ensures |Routed(log)| == |log| && (i < |log| ==> Routed(log)[i] == log[i].status)
    decreases |log|
  {
    if log != [] {
      assert !log[|log| - 1].failed;
      RequestAt(log[..|log| - 1], if i < |log| - 1 then i else 0);
    }
  }

  /** What `EventLoop::Start` does to a connection: it reports bytes that arrive, room in the socket,
      a close or an error, and after that runs the tasks that are queued, releases among them. */
  datatype Event = Readable(bytes: string) | Writable(room: nat) | Closing | Tasks

  /** The write for which a socket has so much room. */
  function Takes(o: Output, room: nat): (op: Op)
    ensures op.WriteReady? && op.n <= |o.queued| && op.n <= room && (op.n == |o.queued| || op.n == room)
  {
    WriteReady(if room < |o.queued| then room else |o.queued|)
  }

  /** The reads among the events. A close serves what is still unread, as a read of nothing does. */
  function Reads(events: seq<Event>): seq<string> {
    if events == [] then [] else Reads(events[..|events| - 1]) + ReadsOf(events[|events| - 1])
  }

  function ReadsOf(event: Event): seq<string> {
    match event
    case Readable(bytes) => [bytes]
    case Closing => [""]
    case _ => []
  }

  lemma ReadsNext(events: seq<Event>, i: nat)
    requires i < |events|
    ensures Reads(events[..i + 1]) == Reads(events[..i]) + ReadsOf(events[i])
  {
    assert events[..i + 1][..i] == events[..i];
  }

  /** The handlers of a message send payloads and shut down; they do nothing else to the output. */
  predicate Gentle(ops: seq<Op>) {
    forall i :: 0 <= i < |ops| ==> ops[i].Send? || ops[i].StartShutdown? || ops[i].FinishShutdown?
  }

  /** What a stretch of message handling has done: it answered the exchanges `es`, and took the
      output from `before` to `after` by `ops`, whose payloads are the texts of the answers. */
  ghost predicate Handled(site: Site, es: seq<Exchange>, ops: seq<Op>, before: Output, after: Output) {
    && site.AnswersAll(es)
    && Gentle(ops) && AllEnabled(before, ops) && Run(before, ops) == after
    && Payloads(ops) == Texts(es)
  }

  lemma AnswersAppend(site: Site, a: seq<Exchange>, b: seq<Exchange>)
    requires site.AnswersAll(a) && site.AnswersAll(b)
    ensures site.AnswersAll(a + b)
  {
    hide Site.Answers;
  }

  lemma HandledNothing(site: Site, o: Output)
    ensures Handled(site, [], [], o, o) && site.AnswersAll([])
  {
  }

  /** Such a stretch loses no byte of the output and accepts every answer. */
  lemma HandledConserves(site: Site, es: seq<Exchange>, ops: seq<Op>, o: Output, o': Output)
    requires Handled(site, es, ops, o, o') && Conserved(o) && o.status != Disconnected
    ensures Conserved(o') && o'.status != Disconnected && o'.accepted == o.accepted + Texts(es)
    ensures site.AnswersAll(es)
  {
    hide Conserved, Site.Answers;
    RunConserves(o, ops);
    AcceptsAll(o, ops);
  }

  lemma HandledThen(site: Site, es: seq<Exchange>, ops: seq<Op>, o: Output, o': Output,
                    es': seq<Exchange>, ops': seq<Op>, o'': Output)
    requires Handled(site, es, ops, o, o') && Handled(site, es', ops', o', o'')
    ensures Handled(site, es + es', ops + ops', o, o'')
  {
    hide AllEnabled, Run, Payloads, Texts, Requests, AnyFailed, AnyCloses, Site.Answers;
    AnswersAppend(site, es, es');
    RunAppend(o, ops, ops');
    PayloadsAppend(ops, ops');
    LogAppend(es, es');
  }

  lemma HandledStep(site: Site, o: Output, op: Op)
    requires op.StartShutdown? || op.FinishShutdown?
    ensures Handled(site, [], [op], o, Step(o, op))
  {
    assert [op][1..] == [];
    assert Run(o, [op]) == Run(Step(o, op), []);
    assert Payloads([op]) == "" + Payloads([]);
  }

  lemma HandledSend(site: Site, o: Output, e: Exchange)
    requires site.Answers(e)
    ensures Handled(site, [e], [Op.Send(e.text)], o, Step(o, Op.Send(e.text)))
  {
    hide Site.Answers;
    var op := Op.Send(e.text);
    assert [op][1..] == [];
    assert Run(o, [op]) == Run(Step(o, op), []);
    assert Payloads([op]) == e.text + "" == e.text;
    LogOne(e);
  }

  class Connection {
    const site: Site
    const context: Context
    const inBuf: Buffer
    const outBuf: Buffer
    var status: Status
    var wantsWrite: bool
    var sent: string          // what the socket has taken
    ghost var accepted: string
    var releases: seq<nat>    // calls of Release, with the bytes queued at the time
    var released: nat         // how many of them have run
    ghost var log: seq<Exchange>

    ghost predicate Buffers()
      reads this, inBuf, outBuf
    {
      inBuf != outBuf && inBuf.data != outBuf.data && inBuf.Valid() && outBuf.Valid()
    }

    ghost predicate Valid()
      reads this, context, inBuf, outBuf
    {
      && Buffers()
      && Ready(context.State()) && context.respStatu in {0, 200}
    }

    ghost function Out(): Output
      requires outBuf.Valid()
      reads this, outBuf, outBuf.data
    {
      Output(status, outBuf.Contents(), sent, accepted, wantsWrite, releases, released)
    }

    constructor (site: Site)
      ensures Valid() && Out() == NEW_OUTPUT && inBuf.Contents() == "" && log == []
      ensures context.State() == START && context.respStatu == 200
      ensures fresh(context) && fresh(inBuf) && fresh(outBuf) && fresh(inBuf.data) && fresh(outBuf.data)
      ensures this.site == site
    {
      this.site := site;
      context := new Context();
      inBuf := new Buffer();
      outBuf := new Buffer();
      status, wantsWrite, sent, accepted, releases, released, log := Connecting, false, "", "", [], 0, [];
    }

    // ------------------------------------------------------------ output

    method SendInLoop(buff: Buffer)
      requires outBuf.Valid() && buff.Valid() && buff != outBuf && buff.data != outBuf.data
      modifies this`wantsWrite, this`accepted, outBuf, outBuf.data
      ensures outBuf.Valid() && (outBuf.data == old(outBuf.data) || fresh(outBuf.data))
      ensures Out() == Step(old(Out()), Op.Send(old(buff.Contents())))
    {
      if status == Disconnected {
        return;
      }
      accepted := accepted + buff.Contents();
      outBuf.WriteAndPushBuffer(buff);
      if !wantsWrite {
        wantsWrite := true;
      }
    }

    method Send(bytes: string)
      requires outBuf.Valid()
      modifies this`wantsWrite, this`accepted, outBuf, outBuf.data
      ensures outBuf.Valid() && (outBuf.data == old(outBuf.data) || fresh(outBuf.data))
      ensures Out() == Step(old(Out()), Op.Send(bytes))
    {
      var buf := new Buffer();
      buf.WriteAndPush(bytes);
      assert buf.Contents() == bytes;
      SendInLoop(buf);
    }

    /** `n` is the result of `send`, unless it fails. */
    method HandleWrite(n: nat)
      requires outBuf.Valid() && n <= outBuf.ReadableSize()
      modifies this`sent, this`wantsWrite, this`releases, outBuf`readIdx
      ensures outBuf.Valid() && Out() == Step(old(Out()), WriteReady(n))
    {
      var bytes := outBuf.Read(n);
      sent := sent + bytes;
      outBuf.MoveReadOffset(n);
      if outBuf.ReadableSize() == 0 {
        wantsWrite := false;
        if status == Disconnecting {
          Release();
        }
      }
    }

    /** `PushTask(ReleaseInLoop)`: the release itself always runs later. */
    method Release()
      requires outBuf.Valid()
      modifies this`releases
      ensures Out() == OutputPath.Release(old(Out()))
    {
      releases := releases + [outBuf.ReadableSize()];
    }

    method ReleaseInLoop()
      requires outBuf.Valid()
      modifies this`status, this`released
      ensures Out() == Step(old(Out()), RunRelease)
    {
      status, released := Disconnected, released + 1;
    }

    // ------------------------------------------------------------ requests and responses

    /** `WriteResponse`: completes the header, prints the response and sends it. */
    method WriteResponse(req: Request, res: Response, ghost status: int, ghost failed: bool)
      returns (final: Response, ghost e: Exchange)
      requires outBuf.Valid()
      requires if failed then status >= 400 && res == site.ErrorResponse(status)
               else status in {0, 200} && res == site.router(req, EmptyResponse(status))
      modifies this`wantsWrite, this`accepted, this`log, outBuf, outBuf.data
      ensures outBuf.Valid() && (outBuf.data == old(outBuf.data) || fresh(outBuf.data))
      ensures final == Complete(req, res)
      ensures log == old(log) + [e] && e == Exchange(req, status, final, e.text, failed)
      ensures site.Answers(e) && Out() == Step(old(Out()), Op.Send(e.text))
    {
      final := Complete(req, res);
      var s := PrintHeaders(final.headers);
      ghost var order :| IsOrder(order, final.headers) && s == HeaderLines(order);
      var reason := site.reason(final.status);
      var text := StatusLine(req.version, final.status, reason) + s + "\r\n" + final.body;
      assert text == Text(req.version, final, reason, order);
      e := Exchange(req, status, final, text, failed);
      log := log + [e];
      Send(text);
    }

    /** The branch of the message loop for a refused request: error page, fresh context, unread
        bytes thrown away, shutdown. */
    method Refuse() returns (ghost es: seq<Exchange>, ghost ops: seq<Op>)
      requires Buffers() && context.recvStatu == Error && context.respStatu >= 400
      modifies this`status, this`wantsWrite, this`accepted, this`releases, this`log
      modifies context, inBuf`readIdx, outBuf, outBuf.data
      ensures Valid() && (outBuf.data == old(outBuf.data) || fresh(outBuf.data))
      ensures context.State() == START && context.respStatu == 200 && inBuf.Contents() == ""
      ensures |es| == 1 && es[0].req == old(context.req) && es[0].status == old(context.respStatu) && es[0].failed
      ensures Requests(es) == [] && Routed(es) == [] && AnyFailed(es) && AnyCloses(es) && status == Disconnecting
      ensures log == old(log) + es && Handled(site, es, ops, old(Out()), Out())
      decreases 0, 2
    {
      hide Serve, ServeStatus, Handled, Requests, Routed, Texts, AnyFailed, AnyCloses, Step;
      var final;
      ghost var e;
      final, e := WriteResponse(context.req, site.ErrorResponse(context.respStatu), context.respStatu, true);
      ghost var out := Out();
      HandledSend(site, old(Out()), e);
      context.Reset();
      inBuf.MoveReadOffset(inBuf.ReadableSize());
      ServeNothing(START);
      NothingMarked(200, START);
      assert Out() == out && inBuf.Contents() == "";
      es, ops := ShutdownInLoop();
      RequestAt(es, 0);
      HandledThen(site, [e], [Op.Send(e.text)], old(Out()), out, es, ops, Out());
      LogOne(e);
      LogAppend([e], es);
      Assoc(old(log), [e], es);
      es, ops := [e] + es, [Op.Send(e.text)] + ops;
    }

    /** The branch for a complete request: route it, answer it, and shut down if the response
        closes the connection. */
    method Answer() returns (stop: bool, ghost es: seq<Exchange>, ghost ops: seq<Op>)
      requires Buffers() && context.recvStatu == Over && context.respStatu in {0, 200}
      modifies this`status, this`wantsWrite, this`accepted, this`releases, this`log
      modifies context, inBuf`readIdx, outBuf, outBuf.data
      ensures Valid() && (outBuf.data == old(outBuf.data) || fresh(outBuf.data))
      ensures !stop ==> context.State() == START && inBuf.Contents() == old(inBuf.Contents())
                        && Requests(es) == [old(context.req)] && !AnyFailed(es) && context.respStatu == 200
                        && Routed(es) == [old(context.respStatu)] && releases == old(releases)
      ensures var s := Serve(START, old(inBuf.Contents()));
              stop ==> context.State() == s.parser && inBuf.Contents() == s.unread
                       && Requests(es) == [old(context.req)] + s.requests && AnyFailed(es) == s.failed
      ensures stop ==> ThenMarked([old(context.respStatu)], ServeStatus(200, START, old(inBuf.Contents())))
                       == Marked(Routed(es), context.respStatu)
      ensures es != [] && !es[0].failed
      ensures es[0].req == old(context.req) && es[0].status == old(context.respStatu)
      ensures stop == AnyCloses(es) && status == if stop then Disconnecting else old(status)
      ensures log == old(log) + es && Handled(site, es, ops, old(Out()), Out())
      decreases inBuf.ReadableSize(), 2
    {
      hide Serve, ServeStatus, Handled, Requests, Routed, Texts, AnyFailed, AnyCloses, Step;
      hide Complete, Site.Answers, EmptyResponse;
      var res := EmptyResponse(context.respStatu);
      var final;
      ghost var e;
      final, e := WriteResponse(context.req, site.router(context.req, res), context.respStatu, false);
      ghost var out := Out();
      HandledSend(site, old(Out()), e);
      LogOne(e);
      context.Reset();
      stop, es, ops := final.Close(), [e], [Op.Send(e.text)];
      if stop {
        ghost var es', ops' := ShutdownInLoop();
        HandledThen(site, es, ops, old(Out()), out, es', ops', Out());
        LogAppend(es, es');
        Assoc(old(log), es, es');
        es, ops := es + es', ops + ops';
      }
    }

    /** The message callback. Together with `ShutdownInLoop`, which calls it back, it always
        stops: a turn of the loop that does not return, and every nested call, has taken at
        least one byte off the unread input. */
    method OnMessage() returns (ghost es: seq<Exchange>, ghost ops: seq<Op>)
      requires Valid()
      modifies this`status, this`wantsWrite, this`accepted, this`releases, this`log
      modifies context, inBuf`readIdx, outBuf, outBuf.data
      ensures Valid() && (outBuf.data == old(outBuf.data) || fresh(outBuf.data))
      ensures Serve(old(context.State()), old(inBuf.Contents()))
           == Served(Requests(es), context.State(), inBuf.Contents(), AnyFailed(es))
      ensures ServeStatus(old(context.respStatu), old(context.State()), old(inBuf.Contents()))
           == Marked(Routed(es), context.respStatu)
      ensures status == if AnyCloses(es) then Disconnecting else old(status)
      ensures AnyCloses(es) || releases == old(releases)
      ensures log == old(log) + es && Handled(site, es, ops, old(Out()), Out())
      decreases inBuf.ReadableSize(), 0
    {
      hide Serve, ServeStatus, Handled, Recv, Resting, Requests, Routed, Texts, AnyFailed, AnyCloses;
      es, ops := [], [];
      HandledNothing(site, Out());
      LogNothing();
      ThenNothing(Serve(context.State(), inBuf.Contents()));
      ThenNothingMarked(ServeStatus(context.respStatu, context.State(), inBuf.Contents()));
      ghost var whole := Serve(context.State(), inBuf.Contents());
      ghost var marks := ServeStatus(context.respStatu, context.State(), inBuf.Contents());
      ghost var size := inBuf.ReadableSize();
      while inBuf.ReadableSize() > 0
        invariant Valid() && inBuf.ReadableSize() <= size
        invariant outBuf.data == old(outBuf.data) || fresh(outBuf.data)
        invariant whole == Then(Requests(es), Serve(context.State(), inBuf.Contents()))
        invariant marks == ThenMarked(Routed(es), ServeStatus(context.respStatu, context.State(), inBuf.Contents()))
        invariant !AnyFailed(es) && !AnyCloses(es) && status == old(status) && releases == old(releases)
        invariant log == old(log) + es && Handled(site, es, ops, old(Out()), Out())
        decreases inBuf.ReadableSize()
      {
        ServeUnfolds(context.State(), inBuf.Contents());
        ServeStatusUnfolds(context.respStatu, context.State(), inBuf.Contents());
        ghost var out := Out();
        context.RecvHttpReq(inBuf);
        assert Out() == out;
        if context.respStatu >= 400 {
          ghost var es', ops' := Refuse();
          HandledThen(site, es, ops, old(Out()), out, es', ops', Out());
          LogAppend(es, es');
          Assoc(old(log), es, es');
          es, ops := es + es', ops + ops';
          return;
        }
        if context.recvStatu != Over {
          return;
        }
        ThenThen(Requests(es), [context.req], Serve(START, inBuf.Contents()));
        ThenThenMarked(Routed(es), [context.respStatu], ServeStatus(200, START, inBuf.Contents()));
        var stop;
        ghost var es', ops';
        stop, es', ops' := Answer();
        HandledThen(site, es, ops, old(Out()), out, es', ops', Out());
        LogAppend(es, es');
        Assoc(old(log), es, es');
        es, ops := es + es', ops + ops';
        if stop {
          return;
        }
      }
      assert inBuf.Contents() == "";
      ServeNothing(context.State());
      NothingMarked(context.respStatu, context.State());
    }

    /** `_status` becomes DISCONNECTING, whatever it was; what is still unread goes to the message
        callback first. */
    method ShutdownInLoop() returns (ghost es: seq<Exchange>, ghost ops: seq<Op>)
      requires Valid()
      modifies this`status, this`wantsWrite, this`accepted, this`releases, this`log
      modifies context, inBuf`readIdx, outBuf, outBuf.data
      ensures Valid() && (outBuf.data == old(outBuf.data) || fresh(outBuf.data))
      ensures Serve(old(context.State()), old(inBuf.Contents()))
           == Served(Requests(es), context.State(), inBuf.Contents(), AnyFailed(es))
      ensures ServeStatus(old(context.respStatu), old(context.State()), old(inBuf.Contents()))
           == Marked(Routed(es), context.respStatu)
      ensures log == old(log) + es && Handled(site, es, ops, old(Out()), Out())
      ensures status == Disconnecting
      ensures context.recvStatu != Thrown ==> ops != [] && ops[|ops| - 1] == FinishShutdown
      decreases inBuf.ReadableSize(), 1
    {
      hide Serve, ServeStatus, Handled, Recv, Resting, Requests, Routed, Texts, AnyFailed, AnyCloses;
      ghost var out0 := Out();
      es, ops := [], [StartShutdown];
      LogNothing();
      HandledStep(site, out0, StartShutdown);
      status := Disconnecting;
      if inBuf.ReadableSize() > 0 {
        ghost var out1 := Out();
        ghost var ops1;
        es, ops1 := OnMessage();
        HandledThen(site, [], ops, out0, out1, es, ops1, Out());
        assert [] + es == es;
        ops := ops + ops1;
        if context.recvStatu == Thrown {
          return;
        }
      } else {
        ServeNothing(context.State());
        NothingMarked(context.respStatu, context.State());
        assert inBuf.Contents() == "";
      }
      ghost var out2 := Out();
      if outBuf.ReadableSize() == 0 {
        Release();
      } else if !wantsWrite {
        wantsWrite := true;
      }
      HandledStep(site, out2, FinishShutdown);
      HandledThen(site, es, ops, out0, out2, [], [FinishShutdown], Out());
      assert es + [] == es;
      ops := ops + [FinishShutdown];
    }

    /** `HandleRead`; `bytes` is what `recv` delivered, errors are not part of this model. */
    method HandleRead(bytes: string) returns (ghost es: seq<Exchange>, ghost ops: seq<Op>)
      requires Valid()
      modifies this`status, this`wantsWrite, this`accepted, this`releases, this`log
      modifies context, inBuf, inBuf.data, outBuf, outBuf.data
      ensures Valid() && (inBuf.data == old(inBuf.data) || fresh(inBuf.data))
      ensures outBuf.data == old(outBuf.data) || fresh(outBuf.data)
      ensures Serve(old(context.State()), old(inBuf.Contents()) + bytes)
           == Served(Requests(es), context.State(), inBuf.Contents(), AnyFailed(es))
      ensures ServeStatus(old(context.respStatu), old(context.State()), old(inBuf.Contents()) + bytes)
           == Marked(Routed(es), context.respStatu)
      ensures status == if AnyCloses(es) then Disconnecting else old(status)
      ensures AnyCloses(es) || releases == old(releases)
      ensures log == old(log) + es && Handled(site, es, ops, old(Out()), Out())
    {
      hide Serve, ServeStatus, Handled, Requests, Routed, AnyFailed, AnyCloses;
      inBuf.WriteAndPush(bytes);
      assert Out() == old(Out());
      if inBuf.ReadableSize() > 0 {
        es, ops := OnMessage();
      } else {
        es, ops := [], [];
        HandledNothing(site, Out());
        LogNothing();
        ServeNothing(context.State());
        NothingMarked(context.respStatu, context.State());
        assert inBuf.Contents() == "";
      }
    }

    /** `HandleClose`, also the error handler: the unread input first, then `Release`, whatever is
        still queued. */
    method HandleClose() returns (ghost es: seq<Exchange>, ghost ops: seq<Op>, ghost served: Output)
      requires Valid()
      modifies this`status, this`wantsWrite, this`accepted, this`releases, this`log
      modifies context, inBuf`readIdx, outBuf, outBuf.data
      ensures Valid() && (outBuf.data == old(outBuf.data) || fresh(outBuf.data))
      ensures Serve(old(context.State()), old(inBuf.Contents()))
           == Served(Requests(es), context.State(), inBuf.Contents(), AnyFailed(es))
      ensures ServeStatus(old(context.respStatu), old(context.State()), old(inBuf.Contents()))
           == Marked(Routed(es), context.respStatu)
      ensures status == if AnyCloses(es) then Disconnecting else old(status)
      ensures log == old(log) + es && Handled(site, es, ops, old(Out()), served)
      ensures Out() == if context.recvStatu == Thrown then served else OutputPath.Release(served)
    {
      hide Serve, ServeStatus, Handled, Requests, Routed, AnyFailed, AnyCloses, Step, Resting;
      if inBuf.ReadableSize() > 0 {
        es, ops := OnMessage();
      } else {
        es, ops := [], [];
        HandledNothing(site, Out());
        LogNothing();
        ServeNothing(context.State());
        NothingMarked(context.respStatu, context.State());
        assert inBuf.Contents() == "";
      }
      served := Out();
      if context.recvStatu == Thrown {
        return;
      }
      Release();
    }

    /** `HandleWrite` when `send` fails: unread input is served and a release asked for, as for a close;
        then the read index steps back over a byte that was sent before. If there is none before it,
        `inside` is false, and the model stops where the source's index becomes -1. */
    method HandleWriteError() returns (inside: bool, ghost es: seq<Exchange>, ghost ops: seq<Op>, ghost served: Output)
      requires Valid()
      modifies this`status, this`wantsWrite, this`accepted, this`releases, this`log
      modifies context, inBuf`readIdx, outBuf, outBuf.data
      ensures Valid() && (outBuf.data == old(outBuf.data) || fresh(outBuf.data))
      ensures Serve(old(context.State()), old(inBuf.Contents()))
           == Served(Requests(es), context.State(), inBuf.Contents(), AnyFailed(es))
      ensures log == old(log) + es && Handled(site, es, ops, old(Out()), served)
      ensures if context.recvStatu == Thrown then Out() == served
              else if !inside then Out() == OutputPath.Release(served) && outBuf.readIdx == 0
              else exists sentBefore: char ::
                     Out() == OutputPath.Release(served).(queued := [sentBefore] + served.queued)
    {
      hide Serve, ServeStatus, Handled, Requests, Routed, AnyFailed, AnyCloses;
      es, ops, served := HandleClose();
      inside := context.recvStatu != Thrown && outBuf.readIdx > 0;
      if inside {
        ghost var queued := outBuf.Contents();
        outBuf.MoveReadOffset(-1);
        ghost var sentBefore := outBuf.Contents()[0];
        assert outBuf.Contents() == [sentBefore] + queued;
      }
    }

    /** One event. The socket takes what it has room for, and is reported only while the channel
        asks for it. A release runs if it has been asked for. */
    method HandleEvent(event: Event) returns (ghost es: seq<Exchange>)
      requires Valid() && Conserved(Out()) && status != Disconnected
      modifies this`status, this`wantsWrite, this`sent, this`accepted, this`releases, this`released, this`log
      modifies context, inBuf, inBuf.data, outBuf, outBuf.data
      ensures Valid() && (inBuf.data == old(inBuf.data) || fresh(inBuf.data))
      ensures outBuf.data == old(outBuf.data) || fresh(outBuf.data)
      ensures if event.Readable? || event.Closing? then
                var u := old(inBuf.Contents()) + if event.Readable? then event.bytes else "";
                && Serve(old(context.State()), u)
                   == Served(Requests(es), context.State(), inBuf.Contents(), AnyFailed(es))
                && ServeStatus(old(context.respStatu), old(context.State()), u)
                   == Marked(Routed(es), context.respStatu)
              else
                && es == [] && context.State() == old(context.State()) && inBuf.Contents() == old(inBuf.Contents())
                && context.respStatu == old(context.respStatu)
      ensures match event
              case Readable(_) => true
              case Closing => context.recvStatu != Thrown ==> |releases| > |old(releases)|
              case Writable(room) =>
                Out() == if old(wantsWrite) then Step(old(Out()), Takes(old(Out()), room)) else old(Out())
              case Tasks =>
                Out() == if old(released < |releases|) then Step(old(Out()), RunRelease) else old(Out())
      ensures log == old(log) + es && site.AnswersAll(es)
      ensures if status == Disconnected then released == old(released) + 1 <= |releases|
              else released == old(released) && status == if AnyCloses(es) then Disconnecting else old(status)
      ensures old(status) != Disconnecting && !AnyCloses(es) && !event.Closing? ==> releases == old(releases)
      ensures Conserved(Out()) && accepted == old(accepted) + Texts(es)
    {
      hide Serve, ServeStatus, Handled, Requests, Routed, Texts, AnyFailed, AnyCloses, Conserved, Site.AnswersAll, Step;
      ghost var out := Out();
      match event
      case Readable(bytes) =>
        ghost var ops;
        es, ops := HandleRead(bytes);
        HandledConserves(site, es, ops, out, Out());
      case Closing =>
        ghost var ops, served;
        assert inBuf.Contents() + "" == inBuf.Contents();
        es, ops, served := HandleClose();
        HandledConserves(site, es, ops, out, served);
        RequestKeeps(served);
        assert |served.releases| >= |out.releases| by {
          HandledRequests(site, es, ops, out, served);
        }
      case Writable(room) =>
        es := [];
        LogNothing();
        HandledNothing(site, out);
        assert out.accepted + "" == out.accepted;
        if wantsWrite {
          var n := if room < outBuf.ReadableSize() then room else outBuf.ReadableSize();
          HandleWrite(n);
          assert Takes(out, room) == WriteReady(n);
          StepConserves(out, WriteReady(n));
          WriteKeeps(out, n);
        }
      case Tasks =>
        es := [];
        LogNothing();
        HandledNothing(site, out);
        assert out.accepted + "" == out.accepted;
        if released < |releases| {
          ReleaseInLoop();
          StepConserves(out, RunRelease);
          ReleaseKeeps(out);
        }
    }

    /** The life of a connection as `EventLoop::Start` drives it, event by event, until its release
        runs or the events are over; `n` of them are handled. */
    method HandleEvents(events: seq<Event>) returns (n: nat, ghost es: seq<Exchange>)
      requires Valid() && inBuf.Contents() == "" && Conserved(Out()) && status != Disconnected
      modifies this`status, this`wantsWrite, this`sent, this`accepted, this`releases, this`released, this`log
      modifies context, inBuf, inBuf.data, outBuf, outBuf.data
      ensures Valid() && n <= |events|
      ensures FeedServe(old(context.State()), Reads(events[..n]))
           == Served(Requests(es), context.State(), inBuf.Contents(), AnyFailed(es))
      ensures FeedMarked(old(context.respStatu), old(context.State()), Reads(events[..n]))
           == Marked(Routed(es), context.respStatu)
      ensures log == old(log) + es && site.AnswersAll(es)
      ensures Conserved(Out()) && accepted == old(accepted) + Texts(es)
      ensures if status == Disconnected then released == old(released) + 1 <= |releases|
              else n == |events| && released == old(released)
                   && status == if AnyCloses(es) then Disconnecting else old(status)
      ensures Quiet(old(status), es, events[..n]) ==> releases == old(releases)
    {
      hide Serve, FeedServe, ServeStatus, FeedMarked, Requests, Routed, Texts, AnyFailed, AnyCloses, Conserved;
      hide Site.AnswersAll, Ready, Quiet, Step;
      es := [];
      LogNothing();
      HandledNothing(site, Out());
      ghost var p, st := context.State(), context.respStatu;
      FeedNothing(p);
      NothingMarked(st, p);
      assert accepted + "" == accepted;
      n := 0;
      while n < |events| && status != Disconnected
        invariant Valid() && n <= |events|
        invariant inBuf.data == old(inBuf.data) || fresh(inBuf.data)
        invariant outBuf.data == old(outBuf.data) || fresh(outBuf.data)
        invariant FeedServe(p, Reads(events[..n]))
               == Served(Requests(es), context.State(), inBuf.Contents(), AnyFailed(es))
        invariant FeedMarked(st, p, Reads(events[..n])) == Marked(Routed(es), context.respStatu)
        invariant log == old(log) + es && site.AnswersAll(es)
        invariant Conserved(Out()) && accepted == old(accepted) + Texts(es)
        invariant if status == Disconnected then released == old(released) + 1 <= |releases|
                  else released == old(released) && status == if AnyCloses(es) then Disconnecting else old(status)
        invariant Quiet(old(status), es, events[..n]) ==> releases == old(releases)
      {
        ReadsNext(events, n);
        ghost var out := Out();
        ghost var es' := HandleEvent(events[n]);
        NextEvent(p, st, Reads(events[..n]), events[n]);
        AnswersAppend(site, es, es');
        LogAppend(es, es');
        if Quiet(old(status), es + es', events[..n + 1]) {
          QuietNext(old(status), es, es', events, n);
        }
        Assoc(old(log), es, es');
        Assoc(old(accepted), Texts(es), Texts(es'));
        es := es + es';
        n := n + 1;
      }
    }

    /** End to end: well-formed requests, in any fragments and with any other events in between, are
        routed one by one and intact, and answered; the answers are what has been sent and is queued
        behind what was there before. A handler starts from status 200 if and only if no read ended
        strictly inside the line of its request. As long as nobody closes it, and with handlers that
        leave the Connection field alone, requests that ask to keep the connection open do so. */
    method HandlePipeline(events: seq<Event>, ghost ws: seq<Wire>) returns (n: nat, ghost es: seq<Exchange>)
      requires Valid() && context.State() == START && context.respStatu == 200 && inBuf.Contents() == ""
      requires Conserved(Out()) && status != Disconnected
      requires forall i :: 0 <= i < |ws| ==> WellFormed(ws[i])
      requires Concat(Reads(events)) == WireTexts(ws)
      modifies this`status, this`wantsWrite, this`sent, this`accepted, this`releases, this`released, this`log
      modifies context, inBuf, inBuf.data, outBuf, outBuf.data
      ensures Valid() && n <= |events| && (status == Disconnected || n == |events|)
      ensures log == old(log) + es && site.AnswersAll(es)
      ensures sent + outBuf.Contents() == old(sent + outBuf.Contents()) + Texts(es)
      ensures outBuf.Contents() != "" ==> wantsWrite
      ensures |es| <= |ws| && forall i :: 0 <= i < |es| ==>
                es[i].req == Meaning(ws[i]) && !es[i].failed
                && es[i].status == if CutsLine(ws, Reads(events[..n]), i) then 0 else 200
      ensures n == |events| ==> |es| == |ws| && context.State() == START && inBuf.Contents() == ""
      ensures site.KeepsOpen() && (forall i :: 0 <= i < |ws| ==> AsksKeepAlive(ws[i])) && Closing !in events
              && old(status) != Disconnecting && old(released == |releases|)
              ==> n == |events| && status == old(status)
      ensures site.KeepsOpen() && (exists i :: 0 <= i < |es| && !AsksKeepAlive(ws[i])) ==>
                status == Disconnecting || status == Disconnected
    {
      hide Serve, FeedServe, FeedMarked, Requests, Routed, Texts, AnyFailed, AnyCloses, Quiet, Recv;
      hide WellFormed, Meaning, Site.AnswersAll, CutsLine, Site.KeepsOpen, AsksKeepAlive, WireTexts, Concat, Reads;
      n, es := HandleEvents(events);
      ReadsPrefix(events, n);
      PipelineAnswered(es, ws, Reads(events[..n]));
      assert n == |events| ==> events[..n] == events;
      if site.KeepsOpen() {
        ClosesExactly(site, es, ws);
        if (forall i :: 0 <= i < |ws| ==> AsksKeepAlive(ws[i])) && Closing !in events && old(status) != Disconnecting {
          QuietIf(old(status), es, events, n);
        }
      }
    }
  }

  /** How one more event continues the reads. */
  lemma NextEvent(p: Parser, status: int, frags: seq<string>, event: Event)
    requires Ready(p)
    ensures var (f, m, more) := (FeedServe(p, frags), FeedMarked(status, p, frags), frags + ReadsOf(event));
            if event.Readable? || event.Closing? then
              var u := f.unread + if event.Readable? then event.bytes else "";
              && FeedServe(p, more) == Both(f, Serve(f.parser, u))
              && FeedMarked(status, p, more) == ThenMarked(m.statuses, ServeStatus(m.status, f.parser, u))
            else FeedServe(p, more) == f && FeedMarked(status, p, more) == m
  {
    hide Serve, ServeStatus, FeedServe, FeedMarked;
    if event.Readable? || event.Closing? {
      var bytes := if event.Readable? then event.bytes else "";
      FeedServeAppend(p, frags, bytes);
      FeedMarkedAppend(status, p, frags, bytes);
    } else {
      assert frags + [] == frags;
    }
  }

  /** Nothing has happened that asks for a release. */
  predicate Quiet(status: Status, es: seq<Exchange>, events: seq<Event>) {
    status != Disconnecting && !AnyCloses(es) && forall i :: 0 <= i < |events| ==> !events[i].Closing?
  }

  lemma QuietNext(status: Status, es: seq<Exchange>, es': seq<Exchange>, events: seq<Event>, n: nat)
    requires n < |events| && Quiet(status, es + es', events[..n + 1])
    ensures Quiet(status, es, events[..n]) && !events[n].Closing? && !AnyCloses(es) && !AnyCloses(es')
    ensures status != Disconnecting
  {
    AnyAppend(es, es');
    assert events[..n + 1][n] == events[n];
    assert forall i :: 0 <= i < n ==> events[..n][i] == events[..n + 1][i];
  }

  lemma {:induction false} ReadsPrefix(events: seq<Event>, n: nat)
    requires n <= |events|
    ensures Concat(Reads(events[..n])) <= Concat(Reads(events))
    decreases |events| - n
  {
    hide Concat, Reads, ReadsOf;
    if n == |events| {
      assert events[..n] == events;
    } else {
      ReadsPrefix(events, n + 1);
      ReadsNext(events, n);
      ConcatGrows(Reads(events[..n]), events[n]);
    }
  }

  lemma ConcatGrows(frags: seq<string>, event: Event)
    ensures Concat(frags) <= Concat(frags + ReadsOf(event))
  {
    hide Concat;
    match event
    case Readable(bytes) => ConcatAppend(frags, bytes);
    case Closing => ConcatAppend(frags, "");
    case _ => assert frags + [] == frags;
  }

  /** What the log of the reads `frags` of a pipeline says. */
  lemma PipelineAnswered(es: seq<Exchange>, ws: seq<Wire>, frags: seq<string>)
    requires forall i :: 0 <= i < |ws| ==> WellFormed(ws[i])
    requires Concat(frags) <= WireTexts(ws)
    requires var f := FeedServe(START, frags); f.requests == Requests(es) && f.failed == AnyFailed(es)
    requires FeedMarked(200, START, frags).statuses == Routed(es)
    ensures !AnyFailed(es) && |es| <= |ws|
    ensures forall i :: 0 <= i < |es| ==>
              es[i].req == Meaning(ws[i]) && !es[i].failed
              && es[i].status == if CutsLine(ws, frags, i) then 0 else 200
    ensures Concat(frags) == WireTexts(ws) ==>
              |es| == |ws| && FeedServe(START, frags).parser == START && FeedServe(START, frags).unread == ""
  {
    hide Requests, Routed, Meaning, FeedServe, FeedMarked, CutsLine, WellFormed, WireTexts, Concat, Meanings;
    PipelineStatuses(ws, frags);
    RequestAt(es, 0);
    forall i | 0 <= i < |es|
      ensures es[i].req == Meaning(ws[i]) && es[i].status == FeedMarked(200, START, frags).statuses[i]
    {
      RequestAt(es, i);
    }
  }

  /** The output keeps what the sockets and releases do not touch. */
  lemma WriteKeeps(o: Output, n: nat)
    requires Fits(o, WriteReady(n))
    ensures var t := Step(o, WriteReady(n));
            && t.status == o.status && t.accepted == o.accepted && t.released == o.released
            && (o.status != Disconnecting ==> t.releases == o.releases)
  {
  }

  lemma ReleaseKeeps(o: Output)
    ensures Step(o, RunRelease) == o.(status := Disconnected, released := o.released + 1)
  {
  }

  lemma RequestKeeps(o: Output)
    requires Conserved(o)
    ensures Conserved(OutputPath.Release(o))
    ensures OutputPath.Release(o) == o.(releases := o.releases + [|o.queued|])
  {
  }

  lemma HandledRequests(site: Site, es: seq<Exchange>, ops: seq<Op>, o: Output, o': Output)
    requires Handled(site, es, ops, o, o')
    ensures |o'.releases| >= |o.releases|
  {
    RequestsStay(o, ops);
  }

  /** With handlers that leave the Connection field alone, requests that ask to keep the
      connection open never close it. */
  lemma KeepAliveStaysOpen(site: Site, es: seq<Exchange>)
    requires site.AnswersAll(es) && forall i :: 0 <= i < |es| ==> !es[i].failed && !es[i].req.Close()
    requires site.KeepsOpen()
    ensures !AnyCloses(es)
  {
    forall i | 0 <= i < |es|
      ensures !es[i].res.Close()
    {
      var e := es[i];
      KeepsOpen(e.req, site.router(e.req, EmptyResponse(e.status)));
    }
  }

  /** With handlers that leave the Connection field alone, a connection is closed exactly by the
      requests that do not ask to keep it open. */
  lemma ClosesExactly(site: Site, es: seq<Exchange>, ws: seq<Wire>)
    requires site.AnswersAll(es) && site.KeepsOpen() && |es| <= |ws|
    requires forall i :: 0 <= i < |es| ==> es[i].req == Meaning(ws[i]) && !es[i].failed
    ensures AnyCloses(es) <==> exists i :: 0 <= i < |es| && !AsksKeepAlive(ws[i])
  {
    hide Meaning, AsksKeepAlive, Complete;
    forall i | 0 <= i < |es|
      ensures es[i].res.Close() <==> !AsksKeepAlive(ws[i])
    {
      CloseExact(ws[i]);
      var e := es[i];
      assert site.Answers(e);
      KeepsOpen(e.req, site.router(e.req, EmptyResponse(e.status)));
    }
  }

  lemma QuietIf(status: Status, es: seq<Exchange>, events: seq<Event>, n: nat)
    requires status != Disconnecting && !AnyCloses(es) && Closing !in events && n <= |events|
    ensures Quiet(status, es, events[..n])
  {
    hide AnyCloses;
  }

  // ---------------------------------------------------------------- an answer, spelled out

  /** The error page carries the code as its status, and nothing the handlers could have set. */
  lemma ErrorPageExact(site: Site, e: Exchange)
    requires site.Answers(e) && e.failed
    ensures e.status >= 400 && e.res.status == e.status && e.res.body == site.errorPage(e.status)
    ensures e.res.redirect == None
    ensures "Content-Type" in e.res.headers && e.res.headers["Content-Type"] == "text/html"
  {
    CompleteExact(e.req, site.ErrorResponse(e.status));
    HandlerFieldsWin(e.req, site.ErrorResponse(e.status));
    hide Complete;
  }

  /** A handler is given the request and an empty response with the routed status, 0 or 200; what it
      makes of it is answered with its status and body. */
  lemma RoutedExact(site: Site, e: Exchange)
    requires site.Answers(e) && !e.failed
    ensures var res := site.router(e.req, Response(e.status, None, "", map[]));
            && (e.status == 0 || e.status == 200)
            && e.res.status == res.status && e.res.body == res.body
            && forall k :: k in res.headers ==> k in e.res.headers && e.res.headers[k] == res.headers[k]
  {
    var res := site.router(e.req, Response(e.status, None, "", map[]));
    CompleteExact(e.req, res);
    HandlerFieldsWin(e.req, res);
    hide Complete;
  }

  /** The text of any answer, read as a client does: version of the request, status of the response,
      reason, and behind the first line the fields and the body. */
  lemma AnswerReadsBack(site: Site, e: Exchange)
    requires site.Answers(e)
    requires ' ' !in e.req.version && Clean(e.req.version) && Clean(site.reason(e.res.status))
    requires -0x8000_0000_0000_0000 <= e.res.status <= 0x7fff_ffff_ffff_ffff
    requires forall k :: k in e.res.headers ==> HeaderOk((k, e.res.headers[k]))
    ensures var line := LineOf(e.text);
            var a := IndexOf(line, ' ');
            0 <= a && line[..a] == e.req.version &&
            var b := IndexOf(line[a + 1..], ' ');
            && 0 <= b && Stol(line[a + 1..][..b]) == Some(e.res.status)
            && line[a + 1..][b + 1..] == site.reason(e.res.status) + "\r\n"
            && RecvHead(Parser(Header, 0, FRESH), e.text[|line|..])
               == (Parser(Body, 0, FRESH.(headers := e.res.headers)), e.res.body)
  {
    hide RecvHead, HeaderOk, LineOf, IndexOf, Stol, StatusLine, Clean, IsText, Complete;
    StatusLineReadsBack(e.text, e.req.version, e.res, site.reason(e.res.status));
    ResponseReadsBack(e.text, e.req.version, e.res, site.reason(e.res.status));
    StatusLineFirst(e.text, e.req.version, e.res, site.reason(e.res.status));
  }

  /** And it tells the client so: unless the handler decides, the Connection field of the answer is
      "keep-alive" if that is what the first Connection field of the request is, and "close" if not. */
  lemma ConnectionAnswered(w: Wire, res: Response)
    requires "Connection" !in res.headers
    ensures var c := Complete(Meaning(w), res);
            && "Connection" in c.headers
            && c.headers["Connection"] == if AsksKeepAlive(w) then "keep-alive" else "close"
  {
    hide Meaning, AsksKeepAlive, Complete;
    CompleteExact(Meaning(w), res);
    CloseExact(w);
  }
}
