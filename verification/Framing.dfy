/**
 `HttpServer::OnMessage` (source/http.hpp) seen from the byte stream: which requests it hands
 to the router, and the framing of pipelined requests (section 9.3.2 of RFC 9112).
 */
module Framing {
  import opened Strings
  import opened UrlCodec
  import opened HttpMessage
  import opened RequestLine
  import opened RequestParser
  import opened Fragmentation

  // ---------------------------------------------------------------- the message loop

  /** `requests` went to the router; `failed` means the error branch was taken, which resets the
      context and throws the unread bytes away. */
  datatype Served = Served(requests: seq<Request>, parser: Parser, unread: string, failed: bool)

  /** What the context looks like whenever the loop is not running. */
  predicate Ready(p: Parser) {
    Resting(p) && p.phase != Over && p.phase != Error
  }

  /** The loop of `OnMessage`. A response that closes the connection does not end it: `Shutdown`
      calls `OnMessage` again for the bytes that are left. */
  function Serve(p: Parser, u: string): (s: Served)
    requires Ready(p)
    ensures Ready(s.parser)
    decreases |u|
  {
    if u == "" then Served([], p, "", false)
    else
      RecvResting(p, u);
      var (q, r) := Recv(p, u);
      if q.phase == Error then Served([], START, "", true)
      else if q.phase != Over then Served([], q, r, false)
      else
        OverConsumes(p, u);
        Then([q.req], Serve(START, r))
  }

  function Then(requests: seq<Request>, s: Served): Served {
    s.(requests := requests + s.requests)
  }

  lemma ThenThen(a: seq<Request>, b: seq<Request>, s: Served)
    ensures Then(a, Then(b, s)) == Then(a + b, s)
  {
    assert a + (b + s.requests) == a + b + s.requests;
  }

  lemma ThenNothing(s: Served)
    ensures Then([], s) == s
  {
    assert [] + s.requests == s.requests;
  }

  /** One turn of the message loop, in terms of `Serve`. */
  lemma ServeUnfolds(p: Parser, u: string)
    requires Ready(p) && u != ""
    ensures var (q, r) := Recv(p, u);
            && Ready(START) && |r| <= |u|
            && (q.phase != Error && q.phase != Over ==> Ready(q))
            && (q.phase == Error ==> q.code >= 400)
            && (q.phase == Error ==> Serve(p, u) == Served([], START, "", true))
            && (q.phase != Error && q.phase != Over ==> Serve(p, u) == Served([], q, r, false))
            && (q.phase == Over ==> |r| < |u| && Serve(p, u) == Then([q.req], Serve(START, r)))
  {
    hide Recv;
    RecvResting(p, u);
    if Recv(p, u).0.phase == Over {
      OverConsumes(p, u);
    }
  }

  /** Every call on the stream reads cut-safe lines only. */
  predicate CutSafeServe(p: Parser, u: string)
    requires Ready(p)
    decreases |u|
  {
    if u == "" then true
    else if !CutSafeRun(p, u) then false
    else if Recv(p, u).0.phase != Over then true
    else
      OverConsumes(p, u);
      CutSafeServe(START, Recv(p, u).1)
  }

  lemma {:induction false} ServeResumes(p: Parser, u: string, v: string)
    requires Ready(p) && !Serve(p, u).failed
    ensures var s := Serve(p, u);
            Serve(p, u + v) == Then(s.requests, Serve(s.parser, s.unread + v))
    decreases |u|
  {
    hide Recv, CutSafeRun;
    var s := Serve(p, u);
    if u == "" {
      assert u + v == v && "" + v == v;
      ThenNothing(Serve(p, v));
    } else {
      RecvResting(p, u);
      var (q, r) := Recv(p, u);
      Resumes(p, u, v);
      if q.phase == Over {
        OverConsumes(p, u);
        ErrorOrOverAbsorbs(q, r + v);
        assert Serve(p, u + v) == Then([q.req], Serve(START, r + v));
        ServeResumes(START, r, v);
        var t := Serve(START, r);
        ThenThen([q.req], t.requests, Serve(t.parser, t.unread + v));
      } else {
        assert s == Served([], q, r, false);
        ThenNothing(Serve(q, r + v));
        if r + v == "" {
          NothingNew(q);
        }
      }
    }
  }

  lemma ErrorOrOverAbsorbs(p: Parser, u: string)
    requires p.phase == Error || p.phase == Over
    ensures Recv(p, u) == (p, u)
  {
  }

  lemma {:induction false} ServeFailureStays(p: Parser, u: string, v: string)
    requires Ready(p) && Serve(p, u).failed && CutSafeServe(p, u + v)
    ensures Serve(p, u + v) == Serve(p, u)
    decreases |u|
  {
    hide Recv, CutSafeRun;
    RecvResting(p, u);
    var (q, r) := Recv(p, u);
    if q.phase == Error {
      ErrorStays(p, u, v);
    } else {
      Resumes(p, u, v);
      OverConsumes(p, u);
      ErrorOrOverAbsorbs(q, r + v);
      ServeFailureStays(START, r, v);
    }
  }

  lemma {:induction false} ServePrefixSafe(p: Parser, u: string, v: string)
    requires Ready(p) && CutSafeServe(p, u + v)
    ensures CutSafeServe(p, u)
    decreases |u|
  {
    hide Recv, CutSafeRun;
    if u != "" {
      PrefixSafe(p, u, v);
      RecvResting(p, u);
      var (q, r) := Recv(p, u);
      if q.phase == Over {
        Resumes(p, u, v);
        OverConsumes(p, u);
        ErrorOrOverAbsorbs(q, r + v);
        ServePrefixSafe(START, r, v);
      }
    }
  }

  // ---------------------------------------------------------------- any number of fragments

  /** Two stretches of message handling, one after the other. */
  function Both(s: Served, t: Served): Served {
    Served(s.requests + t.requests, t.parser, t.unread, s.failed || t.failed)
  }

  /** Fragments delivered one by one, each followed by `OnMessage`. A refused request does not end
      this: nothing stops the connection from reading until its release has run, so the next
      fragment is parsed from a fresh context. */
  function FeedServe(p: Parser, frags: seq<string>): (s: Served)
    requires Ready(p)
    ensures Ready(s.parser)
  {
    if frags == [] then Served([], p, "", false)
    else
      var s := FeedServe(p, frags[..|frags| - 1]);
      Both(s, Serve(s.parser, s.unread + frags[|frags| - 1]))
  }

  lemma ServeNothing(p: Parser)
    requires Ready(p)
    ensures Serve(p, "") == Served([], p, "", false)
  {
  }

  lemma FeedServeAppend(p: Parser, frags: seq<string>, s: string)
    requires Ready(p)
    ensures var f := FeedServe(p, frags);
            FeedServe(p, frags + [s]) == Both(f, Serve(f.parser, f.unread + s))
  {
    assert (frags + [s])[..|frags|] == frags;
  }

  /** No prefix of the stream is refused. */
  ghost predicate NeverRefused(p: Parser, s: string)
    requires Ready(p)
  {
    forall k :: 0 <= k <= |s| ==> !Serve(p, s[..k]).failed
  }

  lemma NeverRefusedPrefix(p: Parser, u: string, v: string)
    requires Ready(p) && NeverRefused(p, u + v)
    ensures NeverRefused(p, u) && !Serve(p, u).failed
  {
    hide Serve;
    forall k | 0 <= k <= |u|
      ensures !Serve(p, u[..k]).failed
    {
      assert (u + v)[..k] == u[..k];
    }
    assert u[..|u|] == u;
  }

  lemma {:induction false} FeedsLikeOne(p: Parser, frags: seq<string>)
    requires Ready(p) && NeverRefused(p, Concat(frags))
    ensures FeedServe(p, frags) == Serve(p, Concat(frags))
  {
    hide Serve, NeverRefused;
    if frags == [] {
      ServeNothing(p);
    } else {
      var init, last := frags[..|frags| - 1], frags[|frags| - 1];
      NeverRefusedPrefix(p, Concat(init), last);
      FeedsLikeOne(p, init);
      ServeResumes(p, Concat(init), last);
    }
  }

  lemma {:induction false} CutSafeNeverRefused(p: Parser, s: string)
    requires Ready(p) && CutSafeServe(p, s) && !Serve(p, s).failed
    ensures NeverRefused(p, s)
  {
    hide Serve, CutSafeServe;
    forall k | 0 <= k <= |s|
      ensures !Serve(p, s[..k]).failed
    {
      assert s == s[..k] + s[k..];
      if Serve(p, s[..k]).failed {
        ServeFailureStays(p, s[..k], s[k..]);
      }
    }
  }

  /** For a cut-safe stream in which no request is refused, the router sees the same requests in
      the same order, and the connection ends up in the same state, in any fragments. */
  lemma ServeIndependence(p: Parser, frags: seq<string>)
    requires Ready(p) && CutSafeServe(p, Concat(frags)) && !Serve(p, Concat(frags)).failed
    ensures FeedServe(p, frags) == Serve(p, Concat(frags))
  {
    CutSafeNeverRefused(p, Concat(frags));
    FeedsLikeOne(p, frags);
  }

  /** A refusal behind the first request is one of the whole stream. */
  lemma RefusedInRest(p: Parser, s: string, k: nat)
    requires Ready(p) && s != "" && Recv(p, s).0.phase == Over
    requires var r := Recv(p, s).1; k <= |r| && Serve(START, r[..k]).failed
    ensures var n := |s| - |Recv(p, s).1| + k;
            0 <= n <= |s| && Serve(p, s[..n]).failed
  {
    hide Recv;
    RecvResting(p, s);
    OverConsumes(p, s);
    var (q, r) := Recv(p, s);
    var n := |s| - |r| + k;
    var u, v := s[..n], s[n..];
    Cut(s, n, n);
    var (q', r') := Recv(p, u);
    if q'.phase != Error {
      RecvResting(p, u);
      Resumes(p, u, v);
      if q'.phase == Over {
        ErrorOrOverAbsorbs(q', r' + v);
        SameRest(s, r, r', v, k);
        OverConsumes(p, u);
      } else {
        AtRest(p, u);
        CompletesPast(q', r', v);
        SomethingFailed(r, k);
        assert false;
      }
    }
  }

  lemma SomethingFailed(r: string, k: nat)
    requires k <= |r| && Serve(START, r[..k]).failed
    ensures k > 0
  {
  }

  /** A call that neither fails nor completes a request has nothing left to do. */
  lemma AtRest(p: Parser, u: string)
    requires Resting(p) && Recv(p, u).0.phase != Error
    ensures var (q, r) := Recv(p, u); Recv(q, r) == (q, r)
  {
    hide Recv, Resting;
    Resumes(p, u, "");
    assert u + "" == u && Recv(p, u).1 + "" == Recv(p, u).1;
  }

  lemma SameRest(s: string, r: string, r': string, v: string, k: nat)
    requires k <= |r| <= |s| && v == s[|s| - |r| + k..] && r' + v == r
    ensures r' == r[..k]
  {
    assert |r'| == k;
  }

  lemma PrefixNotRefused(p: Parser, s: string, w: string)
    requires Ready(p) && NeverRefused(p, s) && w <= s
    ensures !Serve(p, w).failed
  {
    assert w == s[..|w|];
  }

  lemma RefusedAtOnce(p: Parser, w: string)
    requires Ready(p) && Recv(p, w).0.phase == Error
    ensures Serve(p, w).failed
  {
    NothingNew(p);
  }

  lemma {:induction false} NeverRefusedCutSafe(p: Parser, s: string)
    requires Ready(p) && NeverRefused(p, s)
    ensures CutSafeServe(p, s)
    decreases |s|
  {
    hide Recv, CutSafeRun, Serve;
    if s != "" {
      if !CutSafeRun(p, s) {
        var w := Breaks(p, s);
        PrefixNotRefused(p, s, w);
        RefusedAtOnce(p, w);
        assert false;
      }
      RecvResting(p, s);
      var (q, r) := Recv(p, s);
      if q.phase == Over {
        OverConsumes(p, s);
        forall k | 0 <= k <= |r|
          ensures !Serve(START, r[..k]).failed
        {
          if Serve(START, r[..k]).failed {
            RefusedInRest(p, s, k);
          }
        }
        NeverRefusedCutSafe(START, r);
      }
    }
  }

  /** Exactly when it does: a stream that is not refused as a whole is handled in one way, however
      it is cut, if and only if it reads no long line shortened by a NUL. */
  lemma ServeExact(p: Parser, s: string)
    requires Ready(p) && !Serve(p, s).failed
    ensures (forall frags :: Concat(frags) == s ==> FeedServe(p, frags) == Serve(p, s)) <==> CutSafeServe(p, s)
  {
    hide Serve, FeedServe, Concat, CutSafeServe, NeverRefused;
    if CutSafeServe(p, s) {
      forall frags | Concat(frags) == s
        ensures FeedServe(p, frags) == Serve(p, s)
      {
        ServeIndependence(p, frags);
      }
    } else if NeverRefused(p, s) {
      NeverRefusedCutSafe(p, s);
    } else {
      var frags := CutBehindPrefix(p, s);
      assert FeedServe(p, frags) != Serve(p, s);
    }
  }

  lemma CutBehindPrefix(p: Parser, s: string) returns (frags: seq<string>)
    requires Ready(p) && !NeverRefused(p, s)
    ensures Concat(frags) == s && FeedServe(p, frags).failed
  {
    hide Serve, FeedServe;
    var k :| 0 <= k <= |s| && Serve(p, s[..k]).failed;
    frags := [s[..k], s[k..]];
    FeedTwice(p, s[..k], s[k..]);
    Cut(s, k, k);
  }

  lemma FeedOnce(p: Parser, a: string)
    requires Ready(p)
    ensures FeedServe(p, [a]) == Serve(p, a)
  {
    hide Serve, FeedServe;
    assert [] + [a] == [a] && "" + a == a;
    FeedNothing(p);
    FeedServeAppend(p, [], a);
    NothingThen(p, Serve(p, a));
  }

  lemma NothingThen(p: Parser, s: Served)
    ensures Both(Served([], p, "", false), s) == s
  {
    assert [] + s.requests == s.requests;
  }

  lemma FeedNothing(p: Parser)
    requires Ready(p)
    ensures FeedServe(p, []) == Served([], p, "", false)
  {
  }

  lemma FeedTwice(p: Parser, a: string, b: string)
    requires Ready(p)
    ensures Concat([a, b]) == a + b
    ensures var s := Serve(p, a); FeedServe(p, [a, b]) == Both(s, Serve(s.parser, s.unread + b))
  {
    hide Serve, FeedServe;
    FeedOnce(p, a);
    ConcatTwo(a, b);
    assert [a] + [b] == [a, b];
    FeedServeAppend(p, [a], b);
  }

  // ---------------------------------------------------------------- streams with refused requests

  /** A refused request never turns into one that is routed, however much arrives behind it. */
  lemma RefusedForGood(p: Parser, u: string, v: string)
    requires Resting(p) && p.phase != Over && p.phase != Error && Recv(p, u).0.phase == Error
    ensures Recv(p, u + v).0.phase != Over
  {
    hide RecvLine, RecvHead, RecvBody, CutSafeRun;
    if CutSafeRun(p, u + v) {
      ErrorStays(p, u, v);
    } else {
      UnsafeStuck(p, u + v);
      StuckIsNotOver(p, u + v);
    }
  }

  lemma StuckIsNotOver(p: Parser, s: string)
    requires Resting(p) && p.phase != Over
    requires var (a, ua) := RecvLine(p, s); RecvHead(a, ua).0.phase != Body
    ensures Recv(p, s).0.phase != Over
  {
    hide RecvLine, RecvHead, RecvBody, Resting, Between, IsSuffix;
    LineBetween(p, s);
    var (a, ua) := RecvLine(p, s);
    assert a.phase != Over;
    HeadBetween(a, ua);
    var (b, ub) := RecvHead(a, ua);
    assert b.phase != Over;
    BodyResting(b, ub);
  }

  /** What a refused stream has dispatched is all it dispatches in one piece, whatever follows. */
  lemma {:induction false} RefusalKeepsRequests(p: Parser, u: string, v: string)
    requires Ready(p) && Serve(p, u).failed
    ensures Serve(p, u + v).requests == Serve(p, u).requests
    decreases |u|
  {
    hide Recv;
    RecvResting(p, u);
    var (q, r) := Recv(p, u);
    if q.phase == Error {
      RefusedForGood(p, u, v);
    } else {
      Resumes(p, u, v);
      OverConsumes(p, u);
      ErrorOrOverAbsorbs(q, r + v);
      RefusalKeepsRequests(START, r, v);
    }
  }

  /** A point of the stream behind which it may be read afresh: everything up to it is refused when
      it arrives at once, or everything since an earlier such point. */
  ghost predicate Refused(p: Parser, s: string, c: nat)
    requires Ready(p) && c <= |s|
    decreases c
  {
    Serve(p, s[..c]).failed || exists a: nat :: a < c && Refused(p, s, a) && Serve(START, s[a..c]).failed
  }

  /** No piece of the stream behind such a point reads as a request. */
  ghost predicate SilentAfterRefusal(p: Parser, s: string)
    requires Ready(p)
  {
    forall a: nat, b: nat :: a <= b <= |s| && Refused(p, s, a) ==> Serve(START, s[a..b]).requests == []
  }

  lemma {:induction false} RefusedPrefix(p: Parser, u: string, v: string, c: nat)
    requires Ready(p) && c <= |u|
    ensures Refused(p, u + v, c) <==> Refused(p, u, c)
    decreases c
  {
    hide Serve;
    assert (u + v)[..c] == u[..c];
    forall a: nat | a < c
      ensures Refused(p, u + v, a) <==> Refused(p, u, a)
      ensures (u + v)[a..c] == u[a..c]
    {
      RefusedPrefix(p, u, v, a);
    }
  }

  lemma SilentPrefix(p: Parser, u: string, v: string)
    requires Ready(p) && SilentAfterRefusal(p, u + v)
    ensures SilentAfterRefusal(p, u)
  {
    hide Serve, Refused;
    forall a: nat, b: nat | a <= b <= |u| && Refused(p, u, a)
      ensures Serve(START, u[a..b]).requests == []
    {
      RefusedPrefix(p, u, v, a);
      assert (u + v)[a..b] == u[a..b];
    }
  }

  lemma {:induction false} RefusedKeepsRequests(p: Parser, s: string, c: nat, v: string)
    requires Ready(p) && c <= |s| && Refused(p, s, c)
    ensures Serve(p, s + v).requests == Serve(p, s).requests
    decreases c
  {
    hide Serve;
    if Serve(p, s[..c]).failed {
      Cut(s, c, c);
      BothKeep(p, s[..c], s[c..], v);
    } else {
      var a: nat :| a < c && Refused(p, s, a) && Serve(START, s[a..c]).failed;
      RefusedKeepsRequests(p, s, a, v);
    }
  }

  lemma BothKeep(p: Parser, u: string, u': string, v: string)
    requires Ready(p) && Serve(p, u).failed
    ensures Serve(p, u + u' + v).requests == Serve(p, u + u').requests
  {
    hide Serve;
    RefusalKeepsRequests(p, u, u');
    RefusalKeepsRequests(p, u, u' + v);
    Assoc(u, u', v);
  }

  /** Where the fed connection is: it has handled the stream as one, or has been reading afresh
      since a point `c` of refusal. */
  ghost predicate ReadAfresh(p: Parser, s: string, f: Served, c: nat)
    requires Ready(p) && c <= |s|
  {
    var t := Serve(START, s[c..]);
    Refused(p, s, c) && !t.failed && f.parser == t.parser && f.unread == t.unread
  }

  lemma {:induction false} SilentFeed(p: Parser, frags: seq<string>) returns (c: nat)
    requires Ready(p) && SilentAfterRefusal(p, Concat(frags))
    ensures var (s, f) := (Concat(frags), FeedServe(p, frags));
            && f.requests == Serve(p, s).requests && c <= |s|
            && (f.failed ==> ReadAfresh(p, s, f, c))
            && (!f.failed ==> f == Serve(p, s))
  {
    hide Serve, SilentAfterRefusal, Refused;
    if frags == [] {
      c := 0;
      ServeNothing(p);
    } else {
      var init, last := frags[..|frags| - 1], frags[|frags| - 1];
      SilentPrefix(p, Concat(init), last);
      c := SilentFeed(p, init);
      c := SilentFeedStep(p, Concat(init), FeedServe(p, init), last, c);
    }
  }

  lemma SilentFeedStep(p: Parser, s: string, f: Served, last: string, c: nat) returns (c': nat)
    requires Ready(p) && Ready(f.parser) && SilentAfterRefusal(p, s + last)
    requires f.requests == Serve(p, s).requests && c <= |s|
    requires f.failed ==> ReadAfresh(p, s, f, c)
    requires !f.failed ==> f == Serve(p, s)
    ensures var (s', f') := (s + last, Both(f, Serve(f.parser, f.unread + last)));
            && f'.requests == Serve(p, s').requests && c' <= |s'|
            && (f'.failed ==> ReadAfresh(p, s', f', c'))
            && (!f'.failed ==> f' == Serve(p, s'))
  {
    hide Serve, Refused;
    var s', t := s + last, Serve(f.parser, f.unread + last);
    c' := c;
    if !f.failed {
      ServeResumes(p, s, last);
      if t.failed {
        c' := |s'|;
        RefusedHere(p, s');
      }
    } else {
      RefusedPrefix(p, s, last, c);
      assert s'[c..] == s[c..] + last && s'[c..|s'|] == s'[c..];
      ServeResumes(START, s[c..], last);
      RefusedKeepsRequests(p, s, c, last);
      var again := Serve(START, s[c..]);
      assert again.requests + t.requests == [];
      if t.failed {
        c' := |s'|;
        RefusedAgain(p, s', c);
      }
    }
  }

  lemma AfterRefusal(p: Parser, s: string)
    requires Ready(p) && Serve(p, s).failed
    ensures Serve(p, s).parser == START && Serve(p, s).unread == ""
    decreases |s|
  {
    RecvResting(p, s);
    if Recv(p, s).0.phase == Over {
      OverConsumes(p, s);
      AfterRefusal(START, Recv(p, s).1);
    }
  }

  lemma RefusedHere(p: Parser, s: string)
    requires Ready(p) && Serve(p, s).failed
    ensures Refused(p, s, |s|) && ReadAfresh(p, s, Serve(p, s), |s|)
  {
    hide Serve;
    assert s[..|s|] == s && s[|s|..] == "";
    AfterRefusal(p, s);
    ServeNothing(START);
  }

  lemma RefusedAgain(p: Parser, s: string, c: nat)
    requires Ready(p) && c <= |s| && Refused(p, s, c) && Serve(START, s[c..]).failed
    ensures Refused(p, s, |s|) && ReadAfresh(p, s, Serve(START, s[c..]), |s|)
  {
    hide Serve;
    AfterRefusal(START, s[c..]);
    ServeNothing(START);
    assert s[|s|..] == "" && s[c..|s|] == s[c..];
  }

  /** Any point of refusal is reached by some fragments, after at least the requests of the whole. */
  lemma {:induction false} ReachRefusal(p: Parser, s: string, c: nat) returns (frags: seq<string>)
    requires Ready(p) && c <= |s| && Refused(p, s, c)
    ensures Concat(frags) == s[..c]
    ensures var f := FeedServe(p, frags);
            f.parser == START && f.unread == "" && |f.requests| >= |Serve(p, s).requests|
    decreases c
  {
    hide Serve, FeedServe, Concat;
    if Serve(p, s[..c]).failed {
      frags := [s[..c]];
      ConcatOne(s[..c]);
      FeedOnce(p, s[..c]);
      AfterRefusal(p, s[..c]);
      Cut(s, c, c);
      RefusalKeepsRequests(p, s[..c], s[c..]);
    } else {
      var a: nat :| a < c && Refused(p, s, a) && Serve(START, s[a..c]).failed;
      var init := ReachRefusal(p, s, a);
      frags := init + [s[a..c]];
      ConcatAppend(init, s[a..c]);
      Cut(s, a, c);
      assert "" + s[a..c] == s[a..c];
      FeedServeAppend(p, init, s[a..c]);
      AfterRefusal(START, s[a..c]);
    }
  }

  /** What the router sees, exactly, for all streams: every way of cutting gives it the requests of
      a single read if and only if nothing behind a refused part reads as a request. */
  lemma DispatchExact(p: Parser, s: string)
    requires Ready(p)
    ensures (forall frags :: Concat(frags) == s ==> FeedServe(p, frags).requests == Serve(p, s).requests)
       <==> SilentAfterRefusal(p, s)
  {
    hide Serve, Refused, FeedServe;
    if SilentAfterRefusal(p, s) {
      forall frags | Concat(frags) == s
        ensures FeedServe(p, frags).requests == Serve(p, s).requests
      {
        var _ := SilentFeed(p, frags);
      }
    } else {
      var a: nat, b: nat :| a <= b <= |s| && Refused(p, s, a) && Serve(START, s[a..b]).requests != [];
      var frags := CutBehindRefusal(p, s, a, b);
    }
  }

  lemma CutBehindRefusal(p: Parser, s: string, a: nat, b: nat) returns (frags: seq<string>)
    requires Ready(p) && a <= b <= |s| && Refused(p, s, a) && Serve(START, s[a..b]).requests != []
    ensures Concat(frags) == s && |FeedServe(p, frags).requests| > |Serve(p, s).requests|
  {
    hide Serve, Refused, FeedServe, Concat;
    var before := ReachRefusal(p, s, a);
    frags := before + [s[a..b]];
    ConcatAppend(before, s[a..b]);
    FeedServeAppend(p, before, s[a..b]);
    assert "" + s[a..b] == s[a..b];
    Cut(s, a, b);
    ConcatAppend(frags, s[b..]);
    FeedServeAppend(p, frags, s[b..]);
    frags := frags + [s[b..]];
  }

  /** In a cut-safe stream the points of refusal are those up to which it is refused as a whole. */
  lemma {:induction false} RefusedIfCutSafe(p: Parser, s: string, c: nat)
    requires Ready(p) && CutSafeServe(p, s) && c <= |s|
    ensures Refused(p, s, c) <==> Serve(p, s[..c]).failed
    decreases c
  {
    hide Serve, CutSafeServe;
    if !Serve(p, s[..c]).failed {
      forall a: nat | a < c && Serve(START, s[a..c]).failed
        ensures !Refused(p, s, a)
      {
        RefusedIfCutSafe(p, s, a);
        if Serve(p, s[..a]).failed {
          StaysRefused(p, s, a, c);
        }
      }
    }
  }

  lemma StaysRefused(p: Parser, s: string, a: nat, c: nat)
    requires Ready(p) && CutSafeServe(p, s) && a <= c <= |s| && Serve(p, s[..a]).failed
    ensures Serve(p, s[..c]).failed
  {
    hide Serve, CutSafeServe;
    Cut(s, a, c);
    ServePrefixSafe(p, s[..c], s[c..]);
    ServeFailureStays(p, s[..a], s[a..c]);
  }

  // ---------------------------------------------------------------- requests on the wire

  /** A request as a client writes it. */
  datatype Wire = Wire(verb: string, path: string, query: Option<seq<(string, string)>>, spaceToPlus: bool,
                       version: string, headers: seq<(string, string)>, body: string)

  function WireGroups(w: Wire): Groups {
    Groups(w.verb, w.path, w.query.Some?,
           if w.query.Some? then QueryText(w.query.value, w.spaceToPlus) else "", w.version)
  }

  function RequestLineText(w: Wire): string {
    LineText(WireGroups(w), "\r\n")
  }

  /** `WriteResponse` prints header fields the same way. */
  function HeaderLine(kv: (string, string)): string {
    kv.0 + ": " + kv.1 + "\r\n"
  }

  function HeaderLines(kvs: seq<(string, string)>): string {
    if kvs == [] then "" else HeaderLine(kvs[0]) + HeaderLines(kvs[1..])
  }

  function WireText(w: Wire): string {
    RequestLineText(w) + (HeaderLines(w.headers) + ("\r\n" + w.body))
  }

  function WireTexts(ws: seq<Wire>): string {
    if ws == [] then "" else WireText(ws[0]) + WireTexts(ws[1..])
  }

  /** The request the handler must be given for it. */
  function Meaning(w: Wire): Request {
    Request(Upper(w.verb), w.path, w.version, w.body, InsertAll(map[], w.headers),
            InsertAll(map[], if w.query.Some? then w.query.value else []))
  }

  predicate HeaderOk(kv: (string, string)) {
    && Clean(kv.0) && Clean(kv.1)
    && Find(kv.0, ": ", 0) < 0
    && |HeaderLine(kv)| <= MAX_LENGTH
  }

  predicate WellFormed(w: Wire) {
    && IsMethod(w.verb)
    && '?' !in w.path && Clean(w.path)
    && (w.query.Some? ==> Decodable(w.query.value, w.spaceToPlus))
    && IsVersion(w.version)
    && |RequestLineText(w)| <= MAX_LENGTH
    && (forall i :: 0 <= i < |w.headers| ==> HeaderOk(w.headers[i]))
    && Meaning(w).ContentLength() == Some(|w.body|)
  }

  lemma CleanVerbVersion(g: Groups)
    requires LegalGroups(g)
    ensures Clean(g.verb) && Clean(g.version)
  {
    assert forall i :: 0 <= i < |g.verb| ==> Upper(g.verb)[i] == ToUpper(g.verb[i]);
    assert forall i :: 0 <= i < 7 ==> Upper(g.version[..7])[i] == ToUpper(g.version[i]);
  }

  lemma CleanConcat(a: string, b: string)
    requires Clean(a) && Clean(b)
    ensures Clean(a + b)
  {
  }

  lemma CleanLine(g: Groups)
    requires LegalGroups(g) && Clean(g.path) && Clean(g.query)
    ensures Clean(LineText(g, "\r"))
  {
    hide LegalGroups, Clean;
    CleanVerbVersion(g);
    assert Clean("?") && Clean(" ") && Clean("\r") by {
      CleanLiterals();
    }
    CleanConcat(g.path, "?");
    CleanConcat(g.path + "?", g.query);
    CleanConcat(g.verb, " ");
    CleanConcat(g.verb + " ", Target(g));
    CleanConcat(g.verb + " " + Target(g), " ");
    CleanConcat(g.verb + " " + Target(g) + " ", g.version);
    CleanConcat(g.verb + " " + Target(g) + " " + g.version, "\r");
  }

  lemma CleanLiterals()
    ensures Clean("?") && Clean(" ") && Clean("\r")
  {
  }

  lemma WireGroupsLegal(w: Wire)
    requires WellFormed(w)
    ensures LegalGroups(WireGroups(w)) && Clean(LineText(WireGroups(w), "\r"))
  {
    hide Meaning, LineText, HeaderOk, QueryText, IsMethod, IsVersion, Decodable;
    if w.query.Some? {
      CleanQuery(w.query.value, w.spaceToPlus);
    }
    CleanLine(WireGroups(w));
  }

  lemma RequestLineParses(w: Wire, tail: string)
    requires WellFormed(w)
    ensures var p := Parser(Header, 0, Meaning(w).(body := "", headers := map[]));
            RecvLine(START, RequestLineText(w) + tail) == (p, tail) && CutSafe(RequestLineText(w) + tail)
  {
    hide AddParams, Pieces, MatchLine, LineOf;
    var g, line := WireGroups(w), RequestLineText(w);
    WireGroupsLegal(w);
    var s := LineText(g, "\r");
    assert line == s + "\n";
    LineFirst(s, tail);
    MatchComplete(g, "\r\n");
    if w.query.Some? {
      QueryRoundTrip(w.query.value, w.spaceToPlus, map[]);
    } else {
      NoParams();
    }
  }

  lemma HeaderParses(kv: (string, string))
    requires HeaderOk(kv)
    ensures ParseHead(HeaderLine(kv)) == Some(kv) && !IsBlank(HeaderLine(kv))
  {
    hide Find;
    var line := HeaderLine(kv);
    var s := kv.0 + ": " + kv.1;
    assert line == s + "\r\n";
    assert line[..|line| - 1] == s + "\r" && (s + "\r")[..|s|] == s;
    assert StripEol(line) == s;
    var n := |kv.0|;
    FindFirst(kv.0, ": ", 0);
    forall j: nat | j < n
      ensures !OccursAt(s, ": ", j)
    {
      assert !OccursAt(kv.0, ": ", j);
      assert ": "[0] == ':' && ": "[1] == ' ';
      assert s[j] == kv.0[j] && s[n] == ':';
    }
    FindIs(s, ": ", 0, n);
    assert s[..n] == kv.0 && s[n + 2..] == kv.1;
  }

  lemma HeaderLineFirst(kv: (string, string), tail: string)
    requires HeaderOk(kv)
    ensures var line, u := HeaderLine(kv), HeaderLine(kv) + tail;
            LineOf(u) == line && u[|line|..] == tail && CutSafe(u)
  {
    var s := kv.0 + ": " + kv.1 + "\r";
    assert HeaderLine(kv) == s + "\n";
    LineFirst(s, tail);
  }

  function WithHeaders(p: Parser, kvs: seq<(string, string)>): Parser {
    p.(req := p.req.(headers := InsertAll(p.req.headers, kvs)))
  }

  lemma BlankFirst(tail: string)
    ensures var u := "\r\n" + tail;
            LineOf(u) == "\r\n" && u[2..] == tail && CutSafe(u)
  {
    assert "\r\n" == "\r" + "\n";
    LineFirst("\r", tail);
  }

  /** Header fields printed one per line and ended by an empty line parse back to themselves, and
      exactly those bytes are consumed. */
  lemma {:induction false} HeadersParse(p: Parser, kvs: seq<(string, string)>, tail: string)
    requires p.phase == Header
    requires forall i :: 0 <= i < |kvs| ==> HeaderOk(kvs[i])
    ensures var u := HeaderLines(kvs) + ("\r\n" + tail);
            RecvHead(p, u) == (WithHeaders(p, kvs).(phase := Body), tail) && CutSafeHead(p, u)
    decreases |kvs|
  {
    hide LineOf, ParseHead, CutSafe;
    var rest := "\r\n" + tail;
    if kvs == [] {
      BlankFirst(tail);
      assert HeaderLines(kvs) + rest == rest;
    } else {
      var kv, line := kvs[0], HeaderLine(kvs[0]);
      var u' := HeaderLines(kvs[1..]) + rest;
      HeadersParse(AddHeader(p, kv), kvs[1..], tail);
      Assoc(line, HeaderLines(kvs[1..]), rest);
      HeaderLineFirst(kv, u');
      HeaderParses(kv);
      assert HeaderLines(kvs) + rest == line + u';
      assert RecvHead(p, line + u') == RecvHead(AddHeader(p, kv), u');
    }
  }

  lemma BodyTaken(p: Parser, body: string, rest: string)
    requires p.req.body == "" && |body| < SIZE_T
    ensures TakeBody(p, |body|, body + rest) == (Parser(Over, p.code, p.req.(body := body)), rest)
  {
    assert (body + rest)[..|body|] == body && (body + rest)[|body|..] == rest;
    assert "" + body == body;
    if body == "" {
      assert body + rest == rest;
    }
  }

  /** One well-formed request is parsed into its meaning, and nothing behind it is touched. */
  lemma WireParses(w: Wire, rest: string)
    requires WellFormed(w)
    ensures Recv(START, WireText(w) + rest) == (Parser(Over, 0, Meaning(w)), rest)
    ensures CutSafeRun(START, WireText(w) + rest)
  {
    hide RecvLine, RecvHead, CutSafe, CutSafeHead, Stol, WellFormed, InsertAll;
    var line, headers := RequestLineText(w), HeaderLines(w.headers);
    var tail := headers + ("\r\n" + (w.body + rest));
    assert WireText(w) + rest == line + tail;
    RequestLineParses(w, tail);
    assert forall i :: 0 <= i < |w.headers| ==> HeaderOk(w.headers[i]) by { WellFormedHeaders(w); }
    var p := Parser(Header, 0, Meaning(w).(body := "", headers := map[]));
    HeadersParse(p, w.headers, w.body + rest);
    var q := WithHeaders(p, w.headers).(phase := Body);
    WellFormedHeaders(w);
    SameLength(q.req, Meaning(w));
    BodyTaken(q, w.body, rest);
  }

  lemma WellFormedHeaders(w: Wire)
    requires WellFormed(w)
    ensures forall i :: 0 <= i < |w.headers| ==> HeaderOk(w.headers[i])
    ensures Meaning(w).ContentLength() == Some(|w.body|)
  {
  }

  function Meanings(ws: seq<Wire>): (rs: seq<Request>)
    ensures |rs| == |ws| && forall i :: 0 <= i < |ws| ==> rs[i] == Meaning(ws[i])
  {
    if ws == [] then [] else [Meaning(ws[0])] + Meanings(ws[1..])
  }

  lemma {:induction false} PipelineServed(ws: seq<Wire>)
    requires forall i :: 0 <= i < |ws| ==> WellFormed(ws[i])
    ensures Serve(START, WireTexts(ws)) == Served(Meanings(ws), START, "", false)
    ensures CutSafeServe(START, WireTexts(ws))
  {
    hide Recv, CutSafeRun, WellFormed, WireText, Meaning;
    if ws != [] {
      var rest := WireTexts(ws[1..]);
      WireParses(ws[0], rest);
      PipelineServed(ws[1..]);
      assert WireTexts(ws) != "" by {
        LineNotEmpty(ws[0]);
      }
    }
  }

  lemma LineNotEmpty(w: Wire)
    ensures WireText(w) != ""
  {
  }

  /** Pipelined framing: well-formed requests sent back to back are dispatched exactly, in order
      and intact, in whatever fragments they arrive, and no byte is left unread. */
  lemma PipelinedFraming(ws: seq<Wire>, frags: seq<string>)
    requires forall i :: 0 <= i < |ws| ==> WellFormed(ws[i])
    requires Concat(frags) == WireTexts(ws)
    ensures FeedServe(START, frags) == Served(Meanings(ws), START, "", false)
  {
    PipelineServed(ws);
    ServeIndependence(START, frags);
  }

  /** A client that prints the size of the body in decimal, in its first Content-Length field,
      meets the length condition of `WellFormed`. */
  lemma DecimalLength(w: Wire, i: nat)
    requires |w.body| <= LONG_MAX
    requires BoundFirst(w.headers, "Content-Length", i) && w.headers[i].1 == Dec(|w.body|)
    ensures Meaning(w).ContentLength() == Some(|w.body|)
  {
    hide Stol, Dec, InsertAll;
    FirstBindingWins(map[], w.headers, "Content-Length");
    StolDec(|w.body|);
  }

  /** Where cutting matters: behind anything that is refused, any well-formed request is thrown away
      when it arrives together with it, and routed when it arrives after it. */
  lemma RefusedThenRouted(u: string, w: Wire)
    requires Serve(START, u).failed && WellFormed(w)
    ensures Serve(START, u + WireText(w)).requests == Serve(START, u).requests
    ensures FeedServe(START, [u, WireText(w)]).requests == Serve(START, u).requests + [Meaning(w)]
  {
    hide Serve, FeedServe, WellFormed, WireText, Meaning;
    RefusalKeepsRequests(START, u, WireText(w));
    AfterRefusal(START, u);
    ServedAlone(w);
    assert "" + WireText(w) == WireText(w);
    FeedTwice(START, u, WireText(w));
  }

  lemma ServedAlone(w: Wire)
    requires WellFormed(w)
    ensures Serve(START, WireText(w)) == Served([Meaning(w)], START, "", false)
  {
    hide Serve, WellFormed, WireText, Meaning;
    PipelineServed([w]);
    assert [w][1..] == [] && WireTexts([]) == "";
    assert WireTexts([w]) == WireText(w) + "" == WireText(w);
    assert Meanings([w]) == [Meaning(w)];
  }

  /** Such a stream: a line that is no request line, followed by anything. */
  lemma RefusedLine(tail: string)
    ensures var u := "X\n" + tail;
            CutSafeServe(START, u) && Serve(START, u) == Served([], START, "", true)
  {
    var u := "X\n" + tail;
    assert "X\n" == "X" + "\n";
    LineFirst("X", tail);
    assert MatchLine("X\n").None?;
    assert Recv(START, u).0.phase == Error;
  }

  const CLIENT := Wire("GET", "/hello", None, true, "HTTP/1.1",
                       [("Connection", "keep-alive"), ("Content-Length", "5")], "byBit")

  /** The request that the test clients of the repository send is one of those. */
  lemma ClientRequest()
    ensures WireText(CLIENT) == "GET /hello HTTP/1.1\r\n" + ("Connection: keep-alive\r\n" + "Content-Length: 5\r\n")
                                + ("\r\n" + "byBit")
    ensures WellFormed(CLIENT) && Meaning(CLIENT).url == "/hello" && !Meaning(CLIENT).Close()
  {
    ClientText();
    hide Stol, Find, Dec, HeaderOk, Upper, IsMethod, IsVersion, RequestLineText, InsertAll, WireText, Clean;
    ClientNames();
    ClientLine();
    ClientHeaders();
    FirstBindingWins(map[], CLIENT.headers, "Connection");
    assert BoundFirst(CLIENT.headers, "Connection", 0);
    assert CLIENT.headers[1].1 == Dec(5) by {
      FiveIsFive();
    }
    DecimalLength(CLIENT, 1);
  }

  lemma ClientText()
    ensures WireText(CLIENT) == "GET /hello HTTP/1.1\r\n" + ("Connection: keep-alive\r\n" + "Content-Length: 5\r\n")
                                + ("\r\n" + "byBit")
  {
    hide HeaderLines, HeaderLine, RequestLineText;
    ClientLine();
    TwoHeaders(CLIENT.headers[0], CLIENT.headers[1]);
    ClientHeaderLines();
    Assoc(RequestLineText(CLIENT), HeaderLines(CLIENT.headers), "\r\n" + "byBit");
  }

  lemma TwoHeaders(a: (string, string), b: (string, string))
    ensures HeaderLines([a, b]) == HeaderLine(a) + HeaderLine(b)
  {
    hide HeaderLine;
    assert [a, b][1..] == [b] && [b][1..] == [];
    assert HeaderLines([b]) == HeaderLine(b) + "" == HeaderLine(b);
  }

  lemma ClientHeaderLines()
    ensures HeaderLine(CLIENT.headers[0]) == "Connection: keep-alive\r\n"
    ensures HeaderLine(CLIENT.headers[1]) == "Content-Length: 5\r\n"
  {
  }

  lemma FiveIsFive()
    ensures Dec(5) == "5"
  {
  }

  lemma ClientNames()
    ensures IsMethod("GET") && IsVersion("HTTP/1.1")
  {
    assert Upper("GET") == "GET";
    assert "HTTP/1.1"[..7] == "HTTP/1." && Upper("HTTP/1.") == "HTTP/1.";
  }

  lemma ClientLine()
    ensures RequestLineText(CLIENT) == "GET /hello HTTP/1.1\r\n" && Clean(CLIENT.path) && '?' !in CLIENT.path
  {
  }

  lemma ClientHeaders()
    ensures HeaderOk(("Connection", "keep-alive")) && HeaderOk(("Content-Length", "5"))
  {
    hide Find;
    NoSeparator("Connection");
    NoSeparator("Content-Length");
  }

  lemma NoSeparator(s: string)
    requires ' ' !in s
    ensures Find(s, ": ", 0) < 0
  {
    FindFirst(s, ": ", 0);
    assert ": "[1] == ' ';
  }
}
