/**
 The status a handler finds in its response. `OnMessage` (source/http.hpp) hands out the one of the
 context, so it depends on where reads end. This module says which requests are routed with 200.
 */
module Statuses {
  import opened Strings
  import opened HttpMessage
  import opened RequestLine
  import opened RequestParser
  import opened Fragmentation
  import opened Framing

  /** `statuses` went to the router with the requests, one each; `status` is left in the context. */
  datatype Marked = Marked(statuses: seq<int>, status: int)

  /** The statuses that go with the requests of `Serve`. A fresh context has 200. */
  function ServeStatus(status: int, p: Parser, u: string): (m: Marked)
    requires Ready(p)
    ensures |m.statuses| == |Serve(p, u).requests|
    decreases |u|
  {
    if u == "" then Marked([], status)
    else
      RecvResting(p, u);
      var (q, r) := Recv(p, u);
      if q.phase == Error then Marked([], 200)
      else if q.phase != Over then Marked([], StatusAfter(status, p, q))
      else
        OverConsumes(p, u);
        ThenMarked([StatusAfter(status, p, q)], ServeStatus(200, START, r))
  }

  function ThenMarked(statuses: seq<int>, m: Marked): Marked {
    m.(statuses := statuses + m.statuses)
  }

  lemma ThenThenMarked(a: seq<int>, b: seq<int>, m: Marked)
    ensures ThenMarked(a, ThenMarked(b, m)) == ThenMarked(a + b, m)
  {
    assert a + (b + m.statuses) == a + b + m.statuses;
  }

  lemma ThenNothingMarked(m: Marked)
    ensures ThenMarked([], m) == m
  {
    assert [] + m.statuses == m.statuses;
  }

  /** The statuses that go with the requests of `FeedServe`. */
  function FeedMarked(status: int, p: Parser, frags: seq<string>): (m: Marked)
    requires Ready(p)
    ensures |m.statuses| == |FeedServe(p, frags).requests|
  {
    if frags == [] then Marked([], status)
    else
      var init, last := frags[..|frags| - 1], frags[|frags| - 1];
      var s, m := FeedServe(p, init), FeedMarked(status, p, init);
      ThenMarked(m.statuses, ServeStatus(m.status, s.parser, s.unread + last))
  }

  lemma FeedMarkedAppend(status: int, p: Parser, frags: seq<string>, s: string)
    requires Ready(p)
    ensures var (f, m) := (FeedServe(p, frags), FeedMarked(status, p, frags));
            FeedMarked(status, p, frags + [s]) == ThenMarked(m.statuses, ServeStatus(m.status, f.parser, f.unread + s))
  {
    assert (frags + [s])[..|frags|] == frags;
  }

  lemma NothingMarked(status: int, p: Parser)
    requires Ready(p)
    ensures FeedMarked(status, p, []) == ServeStatus(status, p, "") == Marked([], status)
  {
  }

  /** One turn of the message loop. */
  lemma ServeStatusUnfolds(status: int, p: Parser, u: string)
    requires Ready(p) && u != ""
    ensures var (q, r) := Recv(p, u);
            && Ready(START)
            && (q.phase == Error ==> ServeStatus(status, p, u) == Marked([], 200))
            && (q.phase != Error && q.phase != Over ==>
                  ServeStatus(status, p, u) == Marked([], StatusAfter(status, p, q)))
            && (q.phase == Over ==>
                  ServeStatus(status, p, u) == ThenMarked([StatusAfter(status, p, q)], ServeStatus(200, START, r)))
  {
    hide Recv;
    RecvResting(p, u);
    if Recv(p, u).0.phase == Over {
      OverConsumes(p, u);
    }
  }

  // ---------------------------------------------------------------- where requests begin

  /** Where the request number `i` of a stream begins. */
  function StartOf(s: string, i: nat): (n: nat)
    ensures n <= |s|
    decreases |s|
  {
    if i == 0 || s == "" then 0
    else
      RecvResting(START, s);
      var (q, r) := Recv(START, s);
      if q.phase != Over then 0
      else
        OverConsumes(START, s);
        |s| - |r| + StartOf(r, i - 1)
  }

  lemma SuffixOf(s: string)
    ensures var r := Recv(START, s).1; |r| <= |s| && s[|s| - |r|..] == r
  {
    hide Recv;
    RecvResting(START, s);
  }

  /** How many requests of a stream are complete. */
  function Done(s: string): nat {
    |Serve(START, s).requests|
  }

  /** The part of it that belongs to none of them. */
  function Open(s: string): string {
    s[StartOf(s, Done(s))..]
  }

  /** What `Serve` does for a request that is complete. */
  lemma FirstRequest(s: string)
    requires !Serve(START, s).failed && Serve(START, s).requests != []
    ensures var (q, r) := Recv(START, s);
            && s != "" && q.phase == Over && |r| < |s|
            && Serve(START, s) == Then([q.req], Serve(START, r))
  {
    hide Recv, Serve;
    ServeNothing(START);
    if s != "" {
      ServeUnfolds(START, s);
    }
  }

  lemma StartNext(s: string, i: nat)
    requires s != "" && Recv(START, s).0.phase == Over && i > 0
    ensures var r := Recv(START, s).1;
            |r| <= |s| && StartOf(s, i) == |s| - |r| + StartOf(r, i - 1)
  {
    hide Recv;
    RecvResting(START, s);
  }

  /** A stream seen from its request number `a` on. */
  lemma {:induction false} From(s: string, a: nat, i: nat)
    requires !Serve(START, s).failed && a <= Done(s)
    ensures var x := s[StartOf(s, a)..];
            && Serve(START, s) == Then(Serve(START, s).requests[..a], Serve(START, x))
            && StartOf(s, a + i) == StartOf(s, a) + StartOf(x, i)
    decreases a
  {
    hide Serve, Recv, StartOf;
    if a == 0 {
      AtZero(s, i);
    } else {
      FirstRequest(s);
      SuffixOf(s);
      StartNext(s, a);
      StartNext(s, a + i);
      var (q, r) := Recv(START, s);
      From(r, a - 1, i);
      var x := s[StartOf(s, a)..];
      Behind(s, r, StartOf(r, a - 1));
      Shifted(q.req, Serve(START, r), a, Serve(START, x));
    }
  }

  lemma AtZero(s: string, i: nat)
    ensures StartOf(s, 0) == 0 && s[0..] == s
    ensures Serve(START, s) == Then(Serve(START, s).requests[..0], Serve(START, s))
  {
    hide Serve;
    ThenNothing(Serve(START, s));
  }

  lemma Behind(s: string, r: string, n: nat)
    requires |r| <= |s| && s[|s| - |r|..] == r && n <= |r|
    ensures s[|s| - |r| + n..] == r[n..]
  {
  }

  lemma Shifted(req: Request, t: Served, a: nat, x: Served)
    requires 0 < a <= |t.requests| + 1 && t == Then(t.requests[..a - 1], x)
    ensures Then([req], t) == Then(Then([req], t).requests[..a], x)
  {
    assert ([req] + t.requests)[..a] == [req] + t.requests[..a - 1];
    ThenThen([req], t.requests[..a - 1], x);
  }

  /** More bytes do not move a request that has begun. */
  lemma {:induction false} StartStays(u: string, v: string, i: nat)
    requires !Serve(START, u).failed && i <= Done(u)
    ensures StartOf(u + v, i) == StartOf(u, i)
    decreases i
  {
    hide Serve, Recv;
    if i > 0 {
      FirstRequest(u);
      StartNext(u, i);
      var (q, r) := Recv(START, u);
      Resumes(START, u, v);
      ErrorOrOverAbsorbs(q, r + v);
      StartNext(u + v, i);
      StartStays(r, v, i - 1);
    }
  }

  /** A complete request has its line. */
  lemma CompleteHasLine(s: string, i: nat)
    requires !Serve(START, s).failed && i < Done(s)
    ensures LineOf(s[StartOf(s, i)..]) != ""
  {
    hide Serve, Recv, LineOf;
    From(s, i, 0);
    var x := s[StartOf(s, i)..];
    assert Serve(START, x).requests == Serve(START, s).requests[i..];
    FirstRequest(x);
    FirstCall(x);
  }

  // ---------------------------------------------------------------- one read

  /** The statuses of one read of a stream: the first request gets the status of the context, the
      others that of a fresh one, and a line that has begun leaves 0. */
  lemma {:induction false} ServeStatusIs(status: int, s: string)
    requires !Serve(START, s).failed
    ensures var m := ServeStatus(status, START, s);
            && (forall i :: 0 <= i < Done(s) ==> m.statuses[i] == if i == 0 then status else 200)
            && m.status == if InLine(Open(s)) then 0 else if Done(s) > 0 then 200 else status
    decreases |s|
  {
    hide Recv, InLine, LineOf;
    if s == "" {
      NotInLine();
    } else {
      RecvResting(START, s);
      var (q, r) := Recv(START, s);
      if q.phase == Over {
        OverConsumes(START, s);
        ServeStatusIs(200, r);
        FirstRequest(s);
        SuffixOf(s);
        StartNext(s, Done(s));
        Behind(s, r, StartOf(r, Done(r)));
      } else {
        FirstCallWaits(s);
        assert s[0..] == s;
      }
    }
  }

  lemma NotInLine()
    ensures !InLine("")
  {
  }

  lemma FirstCallWaits(s: string)
    requires s != "" && Recv(START, s).0.phase != Error
    ensures Recv(START, s).0.phase == Line <==> InLine(s)
  {
    FirstCall(s);
  }

  /** A context that has taken part of a request goes on to the statuses of one read. */
  lemma StatusResumes(status: int, x: string, v: string)
    requires !Serve(START, x).failed && Serve(START, x).requests == []
    ensures var f := Serve(START, x);
            ServeStatus(status, f.parser, f.unread + v) == ServeStatus(status, START, x + v)
  {
    hide Recv;
    if x == "" {
      assert x + v == v && "" + v == v;
    } else {
      RecvResting(START, x);
      var (q, r) := Recv(START, x);
      if q.phase == Over {
        OverConsumes(START, x);
        assert false;
      }
      Resumes(START, x, v);
      if q.phase == Line {
        StillWaiting(x);
      }
      OneCallMore(status, q, r + v, x + v);
    }
  }

  /** Two states from which a call leads to the same. */
  lemma OneCallMore(status: int, q: Parser, u: string, w: string)
    requires Ready(q) && w != "" && Recv(q, u) == Recv(START, w)
    requires q.phase == Line ==> q == START && u == w
    ensures ServeStatus(status, q, u) == ServeStatus(status, START, w)
  {
    hide Recv;
    if q.phase != Line {
      if u == "" {
        NothingNew(q);
      }
      RecvResting(q, u);
      if Recv(q, u).0.phase == Line {
        LineStays(q, u);
      }
    }
  }

  // ---------------------------------------------------------------- any number of reads

  /** The byte count `c` lies inside the request line of request number `i`. */
  predicate Inside(s: string, i: nat, c: nat) {
    StartOf(s, i) <= c <= |s| && InLine(s[StartOf(s, i)..c])
  }

  /** Some read has ended there. */
  ghost predicate EverInside(s: string, frags: seq<string>, i: nat) {
    exists k :: 0 <= k <= |frags| && Inside(s, i, |Concat(frags[..k])|)
  }

  ghost function StatusOf(s: string, frags: seq<string>, i: nat): int {
    if EverInside(s, frags, i) then 0 else 200
  }

  lemma EverInsideNext(s: string, frags: seq<string>, i: nat)
    requires frags != []
    ensures EverInside(s, frags, i) <==> EverInside(s, frags[..|frags| - 1], i) || Inside(s, i, |Concat(frags)|)
  {
    hide Inside, Concat;
    var n := |frags|;
    var init := frags[..n - 1];
    assert frags[..n] == frags;
    forall k | 0 <= k < n
      ensures frags[..k] == init[..k]
    {
    }
  }

  lemma NeverInside(s: string, i: nat)
    ensures !EverInside(s, [], i)
  {
    hide StartOf, LineOf;
    var none: seq<string> := [];
    assert none[..0] == none;
  }

  lemma Tail(w: string, s: string)
    requires w <= s
    ensures w + s[|w|..] == s
  {
  }

  lemma SamePiece(u: string, v: string, n: nat)
    requires n <= |u|
    ensures (u + v)[n..|u|] == u[n..] && (u + v)[n..] == u[n..] + v
  {
  }

  /** The end of a read is inside the request it leaves open, if inside any. */
  lemma EndOfRead(u: string, v: string, i: nat)
    requires !Serve(START, u).failed && i <= Done(u)
    ensures Inside(u + v, i, |u|) <==> InLine(u[StartOf(u, i)..])
    ensures i < Done(u) ==> !Inside(u + v, i, |u|)
  {
    hide Serve, StartOf, LineOf;
    StartStays(u, v, i);
    SamePiece(u, v, StartOf(u, i));
    if i < Done(u) {
      CompleteHasLine(u, i);
    }
  }

  /** A request that is complete after a read, and was not before, ends behind what was there. */
  lemma EndsLater(x: string, v: string, d: nat)
    requires !Serve(START, x).failed && Serve(START, x).requests == []
    requires !Serve(START, x + v).failed && 0 < d <= Done(x + v)
    ensures StartOf(x + v, d) >= |x|
  {
    hide Recv, StartOf;
    FirstRequest(x + v);
    StartNext(x + v, d);
    var (p, r) := Recv(START, x);
    if x != "" {
      RecvResting(START, x);
      Resumes(START, x, v);
      AtRest(START, x);
      if p.phase == Over {
        OverConsumes(START, x);
        assert false;
      }
      CompletesPast(p, r, v);
    }
  }

  /** The open request read as a stream of its own. */
  lemma OpenRequest(u: string)
    requires !Serve(START, u).failed
    ensures Serve(START, Open(u)) == Serve(START, u).(requests := [])
  {
    hide Serve, StartOf;
    From(u, Done(u), 0);
    NothingMore(Serve(START, u), Serve(START, Open(u)));
  }

  lemma NothingMore(s: Served, t: Served)
    requires s == Then(s.requests[..|s.requests|], t)
    ensures t == s.(requests := [])
  {
    assert |s.requests + t.requests| == |s.requests| + |t.requests|;
  }

  /** The next read, from there on. */
  lemma GoOn(u: string, v: string, d: nat)
    requires !Serve(START, u).failed && !Serve(START, u + v).failed
    ensures var y := Open(u) + v;
            && StartOf(u + v, Done(u) + d) == |u| - |Open(u)| + StartOf(y, d)
            && !Serve(START, y).failed && Done(u + v) == Done(u) + Done(y)
  {
    hide Serve, StartOf;
    ServeResumes(START, u, v);
    StartStays(u, v, Done(u));
    SamePiece(u, v, StartOf(u, Done(u)));
    From(u + v, Done(u), d);
  }

  lemma OpenGoesOn(u: string, v: string)
    requires !Serve(START, u).failed && !Serve(START, u + v).failed
    ensures Open(u + v) == Open(Open(u) + v)
  {
    hide Serve, StartOf, Open;
    GoOn(u, v, 0);
    GoOn(u, v, Done(Open(u) + v));
    OpenIsSuffix(u, v);
    SameOpen(u + v, Open(u) + v);
  }

  lemma OpenIsSuffix(u: string, v: string)
    ensures |Open(u)| <= |u| && (u + v)[|u| - |Open(u)|..] == Open(u) + v
  {
    hide Serve, StartOf;
    SamePiece(u, v, StartOf(u, Done(u)));
  }

  lemma SameOpen(w: string, y: string)
    requires |y| <= |w| && w[|w| - |y|..] == y
    requires StartOf(w, Done(w)) == |w| - |y| + StartOf(y, Done(y))
    ensures Open(w) == Open(y)
  {
    hide Serve, StartOf;
    Behind(w, y, StartOf(y, Done(y)));
  }

  lemma StartsLater(u: string, v: string, d: nat)
    requires !Serve(START, u).failed && !Serve(START, u + v).failed
    requires 0 < d && Done(u) + d <= Done(u + v)
    ensures StartOf(u + v, Done(u) + d) >= |u|
  {
    hide Serve, StartOf, Open, Done;
    OpenRequest(u);
    GoOn(u, v, d);
    assert Serve(START, Open(u)).requests == [] && d <= Done(Open(u) + v);
    EndsLater(Open(u), v, d);
  }

  /** Reads that ended before a request was open are not inside it. */
  lemma NotInsideLater(s: string, u: string, v: string, frags: seq<string>, i: nat)
    requires u + v <= s && Concat(frags) == u && !Serve(START, u).failed && !Serve(START, u + v).failed
    requires Done(u) < i <= Done(u + v)
    ensures !EverInside(s, frags, i)
  {
    hide Serve, StartOf, LineOf, Concat;
    StartsLater(u, v, i - Done(u));
    assert Done(u) + (i - Done(u)) == i;
    StartStays(u + v, s[|u + v|..], i);
    Tail(u + v, s);
    forall k | 0 <= k <= |frags|
      ensures !Inside(s, i, |Concat(frags[..k])|)
    {
      ConcatPrefix(frags, k);
    }
  }

  lemma {:induction false} ConcatPrefix(frags: seq<string>, k: nat)
    requires k <= |frags|
    ensures |Concat(frags[..k])| <= |Concat(frags)|
    decreases |frags|
  {
    if k == |frags| {
      assert frags[..k] == frags;
    } else {
      var init := frags[..|frags| - 1];
      ConcatPrefix(init, k);
      assert frags[..k] == init[..k];
    }
  }

  ghost predicate StatusesAre(s: string, frags: seq<string>, m: Marked, n: nat) {
    && |m.statuses| == n && m.status == StatusOf(s, frags, n)
    && forall i :: 0 <= i < n ==> m.statuses[i] == StatusOf(s, frags, i)
  }

  /** One more read: what it marks, in terms of the request it finds open. */
  lemma OneReadMarks(u: string, v: string, status: int)
    requires !Serve(START, u).failed && !Serve(START, u + v).failed
    ensures var f, w := Serve(START, u), u + v;
            var m := ServeStatus(status, f.parser, f.unread + v);
            && Done(w) == Done(u) + |m.statuses|
            && (forall i :: 0 <= i < |m.statuses| ==> m.statuses[i] == if i == 0 then status else 200)
            && m.status == if InLine(Open(w)) then 0 else if Done(w) > Done(u) then 200 else status
  {
    hide Serve, ServeStatus, StartOf, InLine, Open;
    OpenRequest(u);
    StatusResumes(status, Open(u), v);
    GoOn(u, v, 0);
    OpenGoesOn(u, v);
    ServeStatusIs(status, Open(u) + v);
  }

  /** What the end of one more read adds for each request. */
  lemma OneReadEnds(s: string, init: seq<string>, last: string, i: nat)
    requires var u := Concat(init); u + last <= s && !Serve(START, u).failed && !Serve(START, u + last).failed
    requires i <= Done(Concat(init) + last)
    ensures var w := Concat(init) + last;
            EverInside(s, init + [last], i) <==>
            (i <= Done(Concat(init)) && EverInside(s, init, i)) || (i == Done(w) && InLine(Open(w)))
  {
    hide Serve, StartOf, Concat, EverInside, Inside, InLine;
    var w, frags := Concat(init) + last, init + [last];
    assert frags[..|frags| - 1] == init;
    ConcatAppend(init, last);
    EverInsideNext(s, frags, i);
    Tail(w, s);
    EndOfRead(w, s[|w|..], i);
    if i > Done(Concat(init)) {
      NotInsideLater(s, Concat(init), last, init, i);
    }
  }

  lemma StatusAfterRead(s: string, init: seq<string>, last: string, i: nat)
    requires var u := Concat(init); u + last <= s && !Serve(START, u).failed && !Serve(START, u + last).failed
    requires i <= Done(Concat(init) + last)
    ensures var w := Concat(init) + last;
            StatusOf(s, init + [last], i) ==
            if i == Done(w) && InLine(Open(w)) then 0
            else if i <= Done(Concat(init)) then StatusOf(s, init, i) else 200
  {
    hide Serve, StartOf, Concat, EverInside, InLine, Open;
    OneReadEnds(s, init, last, i);
  }

  lemma NextRead(s: string, init: seq<string>, last: string, m: Marked)
    requires var u := Concat(init);
             && u + last <= s && !Serve(START, u).failed && !Serve(START, u + last).failed
             && StatusesAre(s, init, m, Done(u))
    ensures var f := Serve(START, Concat(init));
            StatusesAre(s, init + [last], ThenMarked(m.statuses, ServeStatus(m.status, f.parser, f.unread + last)),
                        Done(Concat(init) + last))
  {
    hide Serve, ServeStatus, StartOf, Concat, StatusOf, InLine, Open, Done;
    var w := Concat(init) + last;
    OneReadMarks(Concat(init), last, m.status);
    forall i: nat | i <= Done(w)
      ensures StatusOf(s, init + [last], i) ==
              if i == Done(w) && InLine(Open(w)) then 0
              else if i <= Done(Concat(init)) then StatusOf(s, init, i) else 200
    {
      StatusAfterRead(s, init, last, i);
    }
  }

  lemma {:induction false} ReadByRead(s: string, frags: seq<string>)
    requires NeverRefused(START, s) && Concat(frags) <= s
    ensures StatusesAre(s, frags, FeedMarked(200, START, frags), Done(Concat(frags)))
  {
    hide Serve, ServeStatus, NeverRefused, StatusesAre, Concat;
    if frags == [] {
      NothingRead(s);
    } else {
      var init, last := frags[..|frags| - 1], frags[|frags| - 1];
      var u := Concat(init);
      assert init + [last] == frags;
      ConcatAppend(init, last);
      PrefixNotRefused(START, s, u + last);
      PrefixNotRefused(START, s, u);
      ReadByRead(s, init);
      NextRead(s, init, last, FeedMarked(200, START, init));
      FeedMarkedAppend(200, START, init, last);
      NeverRefusedUpTo(s, u);
      FeedsLikeOne(START, init);
    }
  }

  lemma NothingRead(s: string)
    ensures StatusesAre(s, [], FeedMarked(200, START, []), Done(Concat([])))
  {
    NeverInside(s, 0);
    NothingMarked(200, START);
    ServeNothing(START);
  }

  lemma NeverRefusedUpTo(s: string, u: string)
    requires NeverRefused(START, s) && u <= s
    ensures NeverRefused(START, u)
  {
    Tail(u, s);
    NeverRefusedPrefix(START, u, s[|u|..]);
  }

  /** Exactly when a handler starts from 200: on a connection that reads a cut-safe stream without
      refused requests, request number `i` is routed with status 200 if no read ends inside its
      request line, and with 0 if one does. */
  lemma StatusExact(frags: seq<string>)
    requires var s := Concat(frags); CutSafeServe(START, s) && !Serve(START, s).failed
    ensures var (s, m) := (Concat(frags), FeedMarked(200, START, frags));
            && |m.statuses| == Done(s)
            && forall i :: 0 <= i < |m.statuses| ==> m.statuses[i] == StatusOf(s, frags, i)
  {
    hide Serve, CutSafeServe, FeedMarked, Concat, StatusOf, NeverRefused;
    CutSafeNeverRefused(START, Concat(frags));
    ReadByRead(Concat(frags), frags);
  }

  // ---------------------------------------------------------------- well-formed requests

  lemma {:induction false} WireTextsCut(ws: seq<Wire>, i: nat)
    requires i <= |ws|
    ensures WireTexts(ws) == WireTexts(ws[..i]) + WireTexts(ws[i..])
    decreases i
  {
    hide WireText;
    if i == 0 {
      assert ws[..0] == [] && ws[0..] == ws;
      assert "" + WireTexts(ws) == WireTexts(ws);
    } else {
      WireTextsCut(ws[1..], i - 1);
      assert ws[1..][..i - 1] == ws[..i][1..] && ws[1..][i - 1..] == ws[i..];
      Assoc(WireText(ws[0]), WireTexts(ws[..i][1..]), WireTexts(ws[i..]));
    }
  }

  lemma {:induction false} StartOfWire(ws: seq<Wire>, i: nat)
    requires i <= |ws| && forall k :: 0 <= k < |ws| ==> WellFormed(ws[k])
    ensures StartOf(WireTexts(ws), i) == |WireTexts(ws[..i])|
    decreases i
  {
    hide WireText, WellFormed, Recv, Meaning, CutSafeRun;
    if i > 0 {
      var rest := WireTexts(ws[1..]);
      WireParses(ws[0], rest);
      LineNotEmpty(ws[0]);
      StartOfWire(ws[1..], i - 1);
      assert ws[1..][..i - 1] == ws[..i][1..];
    }
  }

  /** A read ends strictly inside the request line of the request number `i`. */
  ghost predicate CutsLine(ws: seq<Wire>, frags: seq<string>, i: nat)
    requires i < |ws|
  {
    exists k :: 0 <= k <= |frags| &&
      0 < |Concat(frags[..k])| - |WireTexts(ws[..i])| < |RequestLineText(ws[i])|
  }

  /** A part of a clean line is no line, and more than the line still starts with it. */
  lemma InsideLine(s: string, tail: string, n: nat)
    requires Clean(s) && |s| < MAX_LENGTH && n <= |s + "\n" + tail|
    ensures InLine((s + "\n" + tail)[..n]) <==> 0 < n < |s + "\n"|
  {
    var line := s + "\n";
    var u := line + tail;
    if n < |line| {
      assert u[..n] == s[..n];
      NoLine(s[..n]);
    } else {
      assert u[..n] == line + tail[..n - |line|];
      LineFirst(s, tail[..n - |line|]);
    }
  }

  lemma InsideWire(ws: seq<Wire>, i: nat, c: nat)
    requires i < |ws| && (forall k :: 0 <= k < |ws| ==> WellFormed(ws[k])) && c <= |WireTexts(ws)|
    ensures Inside(WireTexts(ws), i, c) <==> 0 < c - |WireTexts(ws[..i])| < |RequestLineText(ws[i])|
  {
    hide WellFormed, StartOf, InLine, RequestLineText, HeaderLines, LineText, Meaning;
    var s, n := WireTexts(ws), |WireTexts(ws[..i])|;
    StartOfWire(ws, i);
    WireTextsCut(ws, i);
    var tail := WireTail(ws, i);
    assert s[n..] == WireTexts(ws[i..]) == RequestLineText(ws[i]) + tail;
    if n <= c {
      var text := LineText(WireGroups(ws[i]), "\r");
      LineOfWire(ws[i]);
      InsideLine(text, tail, c - n);
      assert s[n..c] == s[n..][..c - n];
    }
  }

  /** What follows the request line of request number `i`. */
  lemma WireTail(ws: seq<Wire>, i: nat) returns (tail: string)
    requires i < |ws|
    ensures WireTexts(ws[i..]) == RequestLineText(ws[i]) + tail
  {
    hide RequestLineText, HeaderLines;
    var w, rest := ws[i], WireTexts(ws[i..][1..]);
    var more := HeaderLines(w.headers) + ("\r\n" + w.body);
    tail := more + rest;
    Assoc(RequestLineText(w), more, rest);
  }

  lemma LineOfWire(w: Wire)
    requires WellFormed(w)
    ensures var s := LineText(WireGroups(w), "\r");
            Clean(s) && |s| < MAX_LENGTH && RequestLineText(w) == s + "\n"
  {
    hide Meaning, HeaderOk, Clean;
    WireGroupsLegal(w);
    var g := WireGroups(w);
    assert LineText(g, "\r\n") == LineText(g, "\r") + "\n";
  }

  /** A prefix of a pipeline routes a prefix of its requests. */
  lemma PipelinePrefix(ws: seq<Wire>, u: string)
    requires (forall i :: 0 <= i < |ws| ==> WellFormed(ws[i])) && u <= WireTexts(ws)
    ensures NeverRefused(START, WireTexts(ws)) && NeverRefused(START, u) && !Serve(START, u).failed
    ensures Serve(START, u).requests <= Meanings(ws)
    ensures u == WireTexts(ws) ==> Serve(START, u) == Served(Meanings(ws), START, "", false)
  {
    hide Serve, CutSafeServe, WellFormed, WireTexts, Meanings, NeverRefused;
    var s := WireTexts(ws);
    PipelineServed(ws);
    CutSafeNeverRefused(START, s);
    Tail(u, s);
    NeverRefusedPrefix(START, u, s[|u|..]);
    ServeResumes(START, u, s[|u|..]);
  }

  /** For well-formed requests, however they are cut and also before all have arrived: number `i` is
      routed with status 200 if and only if no read ends strictly inside its request line. */
  lemma PipelineStatuses(ws: seq<Wire>, frags: seq<string>)
    requires (forall i :: 0 <= i < |ws| ==> WellFormed(ws[i])) && Concat(frags) <= WireTexts(ws)
    ensures var (f, m) := (FeedServe(START, frags), FeedMarked(200, START, frags));
            && !f.failed && f.requests <= Meanings(ws)
            && (Concat(frags) == WireTexts(ws) ==> f == Served(Meanings(ws), START, "", false))
            && |m.statuses| == |f.requests|
            && forall i :: 0 <= i < |m.statuses| ==> m.statuses[i] == if CutsLine(ws, frags, i) then 0 else 200
  {
    hide Serve, FeedServe, FeedMarked, WellFormed, WireTexts, Concat, NeverRefused, CutsLine, EverInside, Meanings;
    PipelinePrefix(ws, Concat(frags));
    FeedsLikeOne(START, frags);
    ReadByRead(WireTexts(ws), frags);
    forall i | 0 <= i < |ws|
      ensures EverInside(WireTexts(ws), frags, i) <==> CutsLine(ws, frags, i)
    {
      EverInsideWire(ws, frags, i);
    }
  }

  lemma EverInsideWire(ws: seq<Wire>, frags: seq<string>, i: nat)
    requires (forall i :: 0 <= i < |ws| ==> WellFormed(ws[i])) && Concat(frags) <= WireTexts(ws) && i < |ws|
    ensures EverInside(WireTexts(ws), frags, i) <==> CutsLine(ws, frags, i)
  {
    hide WellFormed, WireTexts, Concat, Inside, RequestLineText;
    forall k | 0 <= k <= |frags|
      ensures Inside(WireTexts(ws), i, |Concat(frags[..k])|) <==>
              0 < |Concat(frags[..k])| - |WireTexts(ws[..i])| < |RequestLineText(ws[i])|
    {
      ConcatPrefix(frags, k);
      InsideWire(ws, i, |Concat(frags[..k])|);
    }
  }
}
