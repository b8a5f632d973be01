/**
 Does it matter how the network cuts a byte stream? `RecvHttpReq` is called once per fragment;
 this module says exactly when the outcome is the one of a single call on the whole stream.
 */
module Fragmentation {
  import opened Strings
  import opened HttpMessage
  import opened RequestLine
  import opened RequestParser

  // ---------------------------------------------------------------- lines of a longer stream

  lemma LineExtends(u: string, v: string)
    requires LineOf(u) != ""
    ensures LineOf(u + v) == LineOf(u)
    ensures (u + v)[|LineOf(u)|..] == u[|LineOf(u)|..] + v
  {
    hide IndexOf;
    var n := IndexOf(u, '\n');
    assert (u + v)[..n] == u[..n];
    IndexOfIs(u + v, '\n', n);
    assert (u + v)[..n + 1] == u[..n + 1];
  }

  /** A stream that starts with a NUL never yields a line. */
  lemma NulFirst(u: string)
    requires u != "" && u[0] == '\0'
    ensures LineOf(u) == ""
  {
  }

  lemma NulRest(u: string)
    requires LineOf(u) != ""
    ensures |LineOf(u)| == IndexOf(u, '\n') + 1 || LineOf(u[|LineOf(u)|..]) == ""
  {
    if |LineOf(u)| != IndexOf(u, '\n') + 1 {
      NulFirst(u[|LineOf(u)|..]);
    }
  }

  lemma LineIsShort(u: string, v: string)
    requires LineOf(u) == "" && LineOf(u + v) != ""
    ensures IndexOf(u + v, '\n') >= |u|
  {
    var n := IndexOf(u + v, '\n');
    assert forall i :: 0 <= i < |u| ==> (u + v)[i] == u[i];
  }

  // ---------------------------------------------------------------- a call that does not fail

  lemma {:induction false} HeadResumes(p: Parser, u: string, v: string)
    requires RecvHead(p, u).0.phase != Error
    ensures var (q, r) := RecvHead(p, u);
            RecvHead(q, r + v) == RecvHead(p, u + v)
    decreases |u|
  {
    var line := LineOf(u);
    if p.phase == Header && line != "" {
      LineExtends(u, v);
      if !IsBlank(line) {
        var p', u' := AddHeader(p, ParseHead(line).value), u[|line|..];
        assert RecvHead(p, u) == RecvHead(p', u');
        assert RecvHead(p, u + v) == RecvHead(p', u' + v);
        HeadResumes(p', u', v);
      }
    }
  }

  lemma TakeBodyResumes(p: Parser, length: nat, u: string, v: string)
    requires 0 < length < SIZE_T && (|p.req.body| < length || p.req.body == "")
    requires |u| < length - |p.req.body|
    ensures TakeBody(AddBody(p, u), length, v) == TakeBody(p, length, u + v)
  {
    var n := length - |p.req.body| - |u|;
    if |v| >= n {
      assert (u + v)[..|u| + n] == u + v[..n];
      assert (u + v)[|u| + n..] == v[n..];
      Assoc(p.req.body, u, v[..n]);
    } else {
      Assoc(p.req.body, u, v);
    }
  }

  lemma TakeBodyComplete(p: Parser, length: nat, u: string, v: string)
    requires length < SIZE_T && (|p.req.body| < length || p.req.body == "")
    requires |u| >= length - |p.req.body|
    ensures TakeBody(p, length, u + v) == (TakeBody(p, length, u).0, TakeBody(p, length, u).1 + v)
  {
    var n := length - |p.req.body|;
    if 0 < length {
      assert (u + v)[..n] == u[..n] && (u + v)[n..] == u[n..] + v;
    }
  }

  lemma BodyResumes(p: Parser, u: string, v: string)
    requires Between(p)
    ensures var (q, r) := RecvBody(p, u);
            RecvBody(q, r + v) == RecvBody(p, u + v)
  {
    hide Stol;
    if p.phase == Body && p.req.ContentLength().Some? {
      var length := p.req.ContentLength().value;
      if |u| >= length - |p.req.body| {
        TakeBodyComplete(p, length, u, v);
      } else {
        TakeBodyResumes(p, length, u, v);
        assert RecvBody(p, u) == (AddBody(p, u), "");
        assert "" + v == v;
        SameLength(AddBody(p, u).req, p.req);
      }
    }
  }

  lemma LineResumes(p: Parser, u: string, v: string)
    requires p.phase == Line && RecvLine(p, u).0.phase != Error && RecvLine(p, u).0.phase != Line
    ensures var (q, r) := RecvLine(p, u);
            RecvLine(p, u + v) == (q, r + v)
  {
    LineExtends(u, v);
  }

  /** Where a call that did not fail has left the parser, the earlier steps do nothing more. */
  lemma RecvAgain(p: Parser, u: string)
    requires p.phase != Line
    ensures Recv(p, u) == var (b, ub) := RecvHead(p, u); RecvBody(b, ub)
  {
  }

  lemma HeadThenBody(a: Parser, ua: string, v: string)
    requires Between(a) && (a.phase == Body ==> Resting(a)) && a.phase != Line
    requires RecvHead(a, ua).0.phase != Error
    ensures var (b, ub) := RecvHead(a, ua);
            var (c, uc) := RecvBody(b, ub);
            Recv(c, uc + v) == Recv(a, ua + v)
  {
    HeadBetween(a, ua);
    var (b, ub) := RecvHead(a, ua);
    HeadResumes(a, ua, v);
    BodyResting(b, ub);
    BodyResumes(b, ub, v);
    var (c, uc) := RecvBody(b, ub);
    RecvAgain(a, ua + v);
    RecvAgain(c, uc + v);
    if b.phase != Header {
      assert RecvHead(b, ub + v) == (b, ub + v);
      assert RecvHead(c, uc + v) == (c, uc + v);
    }
  }

  /** A call that does not end in ERROR can be resumed: calling again once `v` has arrived gives
      what one call on both parts gives, state, request and unread bytes alike. */
  lemma Resumes(p: Parser, u: string, v: string)
    requires Resting(p) && Recv(p, u).0.phase != Error
    ensures var (q, r) := Recv(p, u);
            Recv(q, r + v) == Recv(p, u + v)
  {
    hide IsSuffix, Resting, Between, RecvLine, RecvHead, RecvBody;
    LineBetween(p, u);
    var (a, ua) := RecvLine(p, u);
    HeadBetween(a, ua);
    BodyResting(RecvHead(a, ua).0, RecvHead(a, ua).1);
    if a.phase != Line {
      HeadThenBody(a, ua, v);
      if p.phase == Line {
        LineResumes(p, u, v);
        RecvAgain(a, ua + v);
      }
    } else {
      StillInLine(p, u);
    }
  }

  /** A call that does not find a whole request line takes nothing. */
  lemma StillInLine(p: Parser, u: string)
    requires RecvLine(p, u).0.phase == Line
    ensures RecvLine(p, u) == (p, u) && Recv(p, u) == (p, u)
  {
    hide ParseLine, LineOf;
  }

  // ---------------------------------------------------------------- NUL bytes and long lines

  /** The next line is found the same way however it is cut: its newline is within the first
      MAX_LENGTH + 1 bytes, or the line is refused for its length in any case, or a leading NUL
      hides it for good. What is left is a long line that a NUL byte shortens. */
  predicate CutSafe(u: string) {
    var line := LineOf(u);
    IndexOf(u, '\n') <= MAX_LENGTH || line == "" || |line| > MAX_LENGTH
  }

  predicate Clean(s: string) {
    '\n' !in s && '\0' !in s
  }

  /** A clean line followed by anything is the next line, and a cut-safe one. */
  lemma LineFirst(s: string, tail: string)
    requires Clean(s) && |s| < MAX_LENGTH
    ensures var line := s + "\n";
            var u := line + tail;
            LineOf(u) == line && u[|line|..] == tail && CutSafe(u)
  {
    var line := s + "\n";
    var u := line + tail;
    assert u[..|s|] == s && u[..|s| + 1] == line;
    IndexOfIs(u, '\n', |s|);
  }

  predicate CutSafeHead(p: Parser, u: string)
    decreases |u|
  {
    p.phase == Header ==>
      && CutSafe(u)
      && var line := LineOf(u);
         (0 < |line| <= MAX_LENGTH && !IsBlank(line) && ParseHead(line).Some? ==>
            CutSafeHead(AddHeader(p, ParseHead(line).value), u[|line|..]))
  }

  /** Every line that one call on `u` reads is cut-safe. */
  predicate CutSafeRun(p: Parser, u: string) {
    (p.phase == Line ==> CutSafe(u)) && var (a, ua) := RecvLine(p, u); CutSafeHead(a, ua)
  }

  /** In a cut-safe stream an early verdict of ERROR is the final one. */
  lemma SafeShort(u: string, v: string)
    requires CutSafe(u + v) && LineOf(u) == "" && |u| > MAX_LENGTH
    ensures var line := LineOf(u + v);
            line == "" || |line| > MAX_LENGTH
  {
    if LineOf(u + v) != "" {
      LineIsShort(u, v);
    }
  }

  lemma {:induction false} HeadErrorStays(p: Parser, u: string, v: string)
    requires p.phase != Error && RecvHead(p, u).0.phase == Error && CutSafeHead(p, u + v)
    ensures RecvHead(p, u + v).0 == RecvHead(p, u).0
    decreases |u|
  {
    var line := LineOf(u);
    if line == "" {
      SafeShort(u, v);
    } else {
      LineExtends(u, v);
      if |line| <= MAX_LENGTH && ParseHead(line).Some? {
        HeadErrorStays(AddHeader(p, ParseHead(line).value), u[|line|..], v);
      }
    }
  }

  /** Only the line and header steps fail, and the body step leaves a failed parser alone. */
  lemma ErrorFromHead(p: Parser, u: string)
    requires Resting(p)
    ensures var (a, ua) := RecvLine(p, u);
            var (b, ub) := RecvHead(a, ua);
            && (b.phase == Error ==> Recv(p, u) == (b, ub))
            && (Recv(p, u).0.phase == Error ==> b.phase == Error)
  {
    hide Between, Resting, RecvLine, RecvHead, RecvBody;
    var (a, ua) := RecvLine(p, u);
    var (b, ub) := RecvHead(a, ua);
    HeadIsBetween(p, u);
    BodyNeverFails(b, ub);
  }

  lemma HeadIsBetween(p: Parser, u: string)
    requires Resting(p)
    ensures var (a, ua) := RecvLine(p, u); Between(RecvHead(a, ua).0)
  {
    hide IsSuffix, Resting, Between, RecvLine, RecvHead;
    LineBetween(p, u);
    var (a, ua) := RecvLine(p, u);
    HeadBetween(a, ua);
  }

  lemma BodyNeverFails(p: Parser, u: string)
    requires Between(p)
    ensures p.phase == Error ==> RecvBody(p, u) == (p, u)
    ensures RecvBody(p, u).0.phase == Error ==> p.phase == Error
  {
    hide IsSuffix, Resting, Between, RecvBody;
    BodyResting(p, u);
  }

  lemma LineErrorStays(p: Parser, u: string, v: string)
    requires p.phase == Line && CutSafe(u + v) && RecvLine(p, u).0.phase == Error
    ensures RecvLine(p, u + v).0 == RecvLine(p, u).0
  {
    if LineOf(u) == "" {
      SafeShort(u, v);
    } else {
      LineExtends(u, v);
    }
  }

  lemma ErrorStays(p: Parser, u: string, v: string)
    requires Resting(p) && p.phase != Error
    requires Recv(p, u).0.phase == Error && CutSafeRun(p, u + v)
    ensures Recv(p, u + v).0 == Recv(p, u).0
  {
    ErrorFromHead(p, u);
    ErrorFromHead(p, u + v);
    var (a, ua) := RecvLine(p, u);
    if a.phase == Error {
      LineErrorStays(p, u, v);
    } else {
      if p.phase == Line {
        LineResumes(p, u, v);
      }
      assert RecvLine(p, u + v) == (a, ua + v);
      HeadErrorStays(a, ua, v);
    }
  }

  /** A line that is not cut-safe: the first 8193 of its bytes already fail. */
  lemma UnsafeLine(u: string) returns (w: string)
    requires !CutSafe(u)
    ensures w <= u && LineOf(w) == "" && |w| > MAX_LENGTH
  {
    w := u[..MAX_LENGTH + 1];
    assert '\n' !in w;
  }

  /** A line followed by another one ends with its newline, so a cut further on leaves it whole. */
  lemma LineBeforeLine(u: string, w: string)
    requires LineOf(u) != "" && LineOf(u[|LineOf(u)|..]) != ""
    ensures LineOf(LineOf(u) + w) == LineOf(u)
  {
    var line := LineOf(u);
    var n := IndexOf(u, '\n');
    NulRest(u);
    assert line == u[..n + 1];
    var s := line + w;
    assert s[..n] == u[..n] && s[..n + 1] == line;
    IndexOfIs(s, '\n', n);
  }

  lemma HeadSkips(p: Parser, line: string, w: string)
    requires p.phase == Header && line != "" && LineOf(line + w) == line
    requires |line| <= MAX_LENGTH && !IsBlank(line) && ParseHead(line).Some?
    ensures RecvHead(p, line + w) == RecvHead(AddHeader(p, ParseHead(line).value), w)
  {
    assert (line + w)[|line|..] == w;
  }

  lemma {:induction false} HeadBreaks(p: Parser, u: string) returns (w: string)
    requires !CutSafeHead(p, u)
    ensures w <= u && RecvHead(p, w).0.phase == Error
    ensures LineOf(u) != ""
    decreases |u|
  {
    if !CutSafe(u) {
      w := UnsafeLine(u);
    } else {
      var line := LineOf(u);
      w := HeadBreaks(AddHeader(p, ParseHead(line).value), u[|line|..]);
      LineBeforeLine(u, w);
      HeadSkips(p, line, w);
      w := line + w;
    }
  }

  lemma LineSkips(p: Parser, u: string, w: string)
    requires p.phase == Line && LineOf(u) != "" && LineOf(LineOf(u) + w) == LineOf(u)
    ensures RecvLine(p, LineOf(u) + w) == (RecvLine(p, u).0, w)
  {
    assert (LineOf(u) + w)[|LineOf(u)|..] == w;
  }

  lemma Breaks(p: Parser, u: string) returns (w: string)
    requires Resting(p) && !CutSafeRun(p, u)
    ensures w <= u && Recv(p, w).0.phase == Error
  {
    if p.phase == Line && !CutSafe(u) {
      w := UnsafeLine(u);
    } else {
      w := HeadBreaks(RecvLine(p, u).0, RecvLine(p, u).1);
      if p.phase == Line {
        LineBeforeLine(u, w);
        LineSkips(p, u, w);
        w := LineOf(u) + w;
      }
    }
    ErrorFromHead(p, w);
  }

  // ---------------------------------------------------------------- what completes a request

  /** A line that only `v` completes: what is left behind it is shorter than `v`, or hides every
      later line behind a NUL. */
  lemma LinePast(u: string, v: string)
    requires LineOf(u) == "" && LineOf(u + v) != ""
    ensures |u| < |LineOf(u + v)| || LineOf((u + v)[|LineOf(u + v)|..]) == ""
    ensures IsBlank(LineOf(u + v)) ==> |u| < |LineOf(u + v)|
  {
    LineIsShort(u, v);
    NulRest(u + v);
    var line, n := LineOf(u + v), IndexOf(u + v, '\n');
    assert forall i :: 0 <= i < n ==> (u + v)[i] != '\n' by {
      assert '\n' !in (u + v)[..n];
      assert forall i :: 0 <= i < n ==> (u + v)[..n][i] == (u + v)[i];
    }
  }

  lemma HeadPast(p: Parser, u: string, v: string)
    requires p.phase == Header && LineOf(u) == "" && RecvHead(p, u + v).0.phase == Body
    ensures |RecvHead(p, u + v).1| < |v|
  {
    hide LineOf, ParseHead;
    LinePast(u, v);
    var line := LineOf(u + v);
    if !IsBlank(line) {
      HeadShrinks(AddHeader(p, ParseHead(line).value), (u + v)[|line|..]);
    }
  }

  lemma {:induction false} HeadShrinks(p: Parser, u: string)
    ensures |RecvHead(p, u).1| <= |u|
    ensures p.phase == Header && RecvHead(p, u).0.phase == Body ==> LineOf(u) != ""
    decreases |u|
  {
    var line := LineOf(u);
    if p.phase == Header && 0 < |line| <= MAX_LENGTH && !IsBlank(line) && ParseHead(line).Some? {
      HeadShrinks(AddHeader(p, ParseHead(line).value), u[|line|..]);
    }
  }

  lemma LineTakenPast(p: Parser, u: string, v: string)
    requires p.phase == Line && LineOf(u) == ""
    requires var (a, ua) := RecvLine(p, u + v); RecvHead(a, ua).0.phase == Body
    ensures |RecvLine(p, u + v).1| < |v|
  {
    hide LineOf, ParseLine, RecvHead;
    var (a, ua) := RecvLine(p, u + v);
    if a.phase == Header {
      HeadShrinks(a, ua);
      LinePast(u, v);
    } else {
      OnlyInHeader(a, ua);
    }
  }

  lemma OnlyInHeader(p: Parser, u: string)
    requires p.phase != Header
    ensures RecvHead(p, u) == (p, u)
  {
  }

  /** What a parser at rest has not taken holds no line. */
  lemma RestHoldsNoLine(p: Parser, u: string)
    requires Resting(p) && (p.phase == Line || p.phase == Header) && Recv(p, u) == (p, u)
    ensures LineOf(u) == ""
  {
    hide LineOf, RecvLine, RecvHead, RecvBody, IsSuffix, Resting, Between;
    LineBetween(p, u);
    var (a, ua) := RecvLine(p, u);
    HeadBetween(a, ua);
    var (b, ub) := RecvHead(a, ua);
    BodyResting(b, ub);
    if p.phase == Line {
      if LineOf(u) != "" {
        LineLeaves(p, u);
      }
    } else if LineOf(u) != "" {
      HeadTakesLine(p, u);
    }
  }

  lemma LineLeaves(p: Parser, u: string)
    requires p.phase == Line && LineOf(u) != ""
    ensures RecvLine(p, u).0.phase == Header || RecvLine(p, u).0.phase == Error
  {
    hide LineOf, ParseLine;
  }

  lemma HeadTakesLine(p: Parser, u: string)
    requires p.phase == Header && LineOf(u) != ""
    ensures |RecvHead(p, u).1| < |u|
  {
    hide LineOf, ParseHead;
    var line := LineOf(u);
    if |line| <= MAX_LENGTH && !IsBlank(line) && ParseHead(line).Some? {
      HeadShrinks(AddHeader(p, ParseHead(line).value), u[|line|..]);
    }
  }

  /** A parser at rest that is completed by `v` leaves nothing of the bytes it had before. */
  lemma CompletesPast(p: Parser, u: string, v: string)
    requires Resting(p) && p.phase != Over && p.phase != Error
    requires Recv(p, u) == (p, u) && Recv(p, u + v).0.phase == Over
    ensures |Recv(p, u + v).1| <= |v|
  {
    hide LineOf, RecvLine, RecvHead, RecvBody, Resting, Between, IsSuffix;
    var (a, ua) := RecvLine(p, u + v);
    var (b, ub) := RecvHead(a, ua);
    LineBetween(p, u + v);
    HeadBetween(a, ua);
    BodyResting(b, ub);
    assert b.phase == Body;
    if p.phase == Line {
      RestHoldsNoLine(p, u);
      LineTakenPast(p, u, v);
    } else if p.phase == Header {
      RestHoldsNoLine(p, u);
      HeadPast(p, u, v);
    } else {
      BodyTakesAll(p, u);
    }
  }

  lemma BodyTakesAll(p: Parser, u: string)
    requires Resting(p) && p.phase != Line && p.phase != Header && p.phase != Over && p.phase != Error
    requires Recv(p, u) == (p, u)
    ensures p.phase == Body ==> u == ""
  {
    hide RecvBody;
    BodyResting(p, u);
  }

  // ---------------------------------------------------------------- any number of fragments

  function Concat(frags: seq<string>): string {
    if frags == [] then "" else Concat(frags[..|frags| - 1]) + frags[|frags| - 1]
  }

  /** Append each fragment to the unread bytes and call `RecvHttpReq`. */
  function Feed(p: Parser, frags: seq<string>): (Parser, string) {
    if frags == [] then (p, "")
    else
      var (q, r) := Feed(p, frags[..|frags| - 1]);
      Recv(q, r + frags[|frags| - 1])
  }

  /** Same state, same error code, same request, and the same unread bytes unless the verdict is
      ERROR (the caller then throws them away). */
  predicate SameOutcome(a: (Parser, string), b: (Parser, string)) {
    a.0 == b.0 && (a.0.phase != Error ==> a.1 == b.1)
  }

  /** The same without looking at code and request of an ERROR. */
  predicate SameVerdict(a: (Parser, string), b: (Parser, string)) {
    a.0.phase == b.0.phase && (a.0.phase != Error ==> a == b)
  }

  lemma NothingNew(p: Parser)
    requires Resting(p)
    ensures Recv(p, "") == (p, "")
  {
    assert p.req.body + "" == p.req.body;
  }

  /** Cutting a stream never matters once ERROR is the verdict or as long as it is not: the fed
      parser is in ERROR, or is where one call would have taken it. */
  lemma {:induction false} FeedOrError(p: Parser, frags: seq<string>)
    requires Resting(p)
    ensures Resting(Feed(p, frags).0)
    ensures Feed(p, frags).0.phase == Error || Feed(p, frags) == Recv(p, Concat(frags))
  {
    if frags == [] {
      NothingNew(p);
    } else {
      var init, last := frags[..|frags| - 1], frags[|frags| - 1];
      FeedOrError(p, init);
      var (q, r) := Feed(p, init);
      RecvResting(q, r + last);
      if q.phase != Error {
        Resumes(p, Concat(init), last);
      }
    }
  }

  lemma ErrorAbsorbs(p: Parser, u: string)
    requires p.phase == Error
    ensures Recv(p, u) == (p, u)
  {
  }

  lemma {:induction false} HeadPrefixSafe(p: Parser, u: string, v: string)
    requires CutSafeHead(p, u + v)
    ensures CutSafeHead(p, u)
    decreases |u|
  {
    var line := LineOf(u);
    if p.phase == Header && line != "" {
      LineExtends(u, v);
      var n := IndexOf(u, '\n');
      assert (u + v)[..n] == u[..n];
      IndexOfIs(u + v, '\n', n);
      if |line| <= MAX_LENGTH && !IsBlank(line) && ParseHead(line).Some? {
        HeadPrefixSafe(AddHeader(p, ParseHead(line).value), u[|line|..], v);
      }
    }
  }

  lemma PrefixSafe(p: Parser, u: string, v: string)
    requires CutSafeRun(p, u + v)
    ensures CutSafeRun(p, u)
  {
    hide ParseLine;
    if p.phase == Line && LineOf(u) != "" {
      LineExtends(u, v);
      var n := IndexOf(u, '\n');
      assert (u + v)[..n] == u[..n];
      IndexOfIs(u + v, '\n', n);
    }
    var (a, ua) := RecvLine(p, u);
    if a.phase == Header {
      assert RecvLine(p, u + v) == (a, ua + v);
      HeadPrefixSafe(a, ua, v);
    }
  }

  /** Fragmentation independence: a cut-safe stream ends in the same state, with the same error
      code, request and unread bytes, in whatever pieces it arrives. */
  lemma {:induction false} FragmentationIndependence(p: Parser, frags: seq<string>)
    requires Resting(p) && CutSafeRun(p, Concat(frags))
    ensures SameOutcome(Feed(p, frags), Recv(p, Concat(frags)))
  {
    if frags == [] {
      NothingNew(p);
    } else {
      var init, last := frags[..|frags| - 1], frags[|frags| - 1];
      PrefixSafe(p, Concat(init), last);
      FragmentationIndependence(p, init);
      FeedOrError(p, init);
      if p.phase == Error {
        ErrorAbsorbs(p, Concat(frags));
        ErrorAbsorbs(p, Concat(init));
      } else if Feed(p, init).0.phase == Error {
        ErrorStays(p, Concat(init), last);
      } else {
        Resumes(p, Concat(init), last);
      }
    }
  }

  lemma ConcatAppend(frags: seq<string>, s: string)
    ensures Concat(frags + [s]) == Concat(frags) + s
  {
    assert (frags + [s])[..|frags|] == frags;
  }

  lemma ConcatOne(a: string)
    ensures Concat([a]) == a
  {
    assert [a][..0] == [] && "" + a == a;
  }

  lemma ConcatTwo(a: string, b: string)
    ensures Concat([a, b]) == a + b
  {
    assert [a, b] == [a] + [b];
    ConcatAppend([a], b);
    ConcatOne(a);
  }

  lemma FeedAppend(p: Parser, frags: seq<string>, s: string)
    ensures Feed(p, frags + [s]) == (var (q, r) := Feed(p, frags); Recv(q, r + s))
  {
    assert (frags + [s])[..|frags|] == frags;
  }

  /** Two fragments of which the first fails. */
  lemma FailsFirst(p: Parser, a: string, b: string)
    requires Recv(p, a).0.phase == Error
    ensures Concat([a, b]) == a + b && Feed(p, [a, b]).0.phase == Error
  {
    ConcatTwo(a, b);
    assert [] + [a] == [a] && [a] + [b] == [a, b] && "" + a == a;
    FeedAppend(p, [], a);
    FeedAppend(p, [a], b);
    ErrorAbsorbs(Feed(p, [a]).0, Feed(p, [a]).1 + b);
  }

  /** The exact condition. When a single call on `s` fails, every way of cutting fails; when it does
      not, every way of cutting gives the same verdict if and only if the call reads no long line
      shortened by a NUL. */
  lemma FragmentationExact(p: Parser, s: string)
    requires Resting(p)
    ensures Recv(p, s).0.phase == Error ==>
              forall frags :: Concat(frags) == s ==> Feed(p, frags).0.phase == Error
    ensures Recv(p, s).0.phase != Error ==>
              ((forall frags :: Concat(frags) == s ==> SameVerdict(Feed(p, frags), Recv(p, s))) <==> CutSafeRun(p, s))
  {
    hide Recv, Feed, CutSafeRun;
    if Recv(p, s).0.phase == Error {
      forall frags | Concat(frags) == s
        ensures Feed(p, frags).0.phase == Error
      {
        FeedOrError(p, frags);
      }
    } else if CutSafeRun(p, s) {
      forall frags | Concat(frags) == s
        ensures SameVerdict(Feed(p, frags), Recv(p, s))
      {
        FragmentationIndependence(p, frags);
      }
    } else {
      var w := Breaks(p, s);
      FailsFirst(p, w, s[|w|..]);
      assert w + s[|w|..] == s;
      assert !SameVerdict(Feed(p, [w, s[|w|..]]), Recv(p, s));
    }
  }

  // ---------------------------------------------------------------- NUL-free heads

  /** No NUL in the request line and header fields. Where the head never ends, "head" is the
      whole stream; the bytes after a finished head are a body and may hold anything. */
  predicate NulFreeHead(p: Parser, s: string) {
    var (a, ua) := RecvLine(p, s);
    var (b, ub) := RecvHead(a, ua);
    if b.phase == Body && |ub| <= |s| then '\0' !in s[..|s| - |ub|] else '\0' !in s
  }

  /** A line that is shortened by a NUL leaves that NUL as the next unread byte, for good. */
  lemma {:induction false} UnsafeHeadStuck(p: Parser, u: string)
    requires !CutSafeHead(p, u)
    ensures var (q, r) := RecvHead(p, u);
            q.phase != Body && '\0' in u
    decreases |u|
  {
    if !CutSafe(u) {
      UnsafeLineStuck(u);
    } else {
      var line := LineOf(u);
      UnsafeHeadStuck(AddHeader(p, ParseHead(line).value), u[|line|..]);
      assert u == line + u[|line|..];
    }
  }

  lemma UnsafeLineStuck(u: string)
    requires !CutSafe(u)
    ensures '\0' in u && !IsBlank(LineOf(u)) && LineOf(u[|LineOf(u)|..]) == ""
  {
    var line := LineOf(u);
    assert '\n' !in u[..IndexOf(u, '\n')];
    assert u[|line|] == '\0';
    NulFirst(u[|line|..]);
  }

  lemma UnsafeStuck(p: Parser, s: string)
    requires !CutSafeRun(p, s)
    ensures var (a, ua) := RecvLine(p, s);
            RecvHead(a, ua).0.phase != Body && '\0' in s
  {
    hide ParseLine;
    if p.phase == Line && !CutSafe(s) {
      UnsafeLineStuck(s);
    } else {
      var (a, ua) := RecvLine(p, s);
      UnsafeHeadStuck(a, ua);
      assert s == LineOf(s) + s[|LineOf(s)|..];
    }
  }

  /** So streams with a NUL-free head are the same in any fragments. */
  lemma NulFreeSafe(p: Parser, s: string)
    requires NulFreeHead(p, s)
    ensures CutSafeRun(p, s)
  {
    if !CutSafeRun(p, s) {
      UnsafeStuck(p, s);
    }
  }

  // ---------------------------------------------------------------- where cutting does matter

  /** `_resp_statu` after a call that takes the parser from `p` to `q`: a request line that is
      not complete yet stores RECV_HTTP_LINE, which is 0, into it. */
  function StatusAfter(status: int, p: Parser, q: Parser): int {
    if q.phase == Error && p.phase != Error then q.code
    else if p.phase == Line && q.phase == Line then 0
    else status
  }

  /** Nothing is called while the buffer is empty. */
  function FeedStatus(status: int, p: Parser, frags: seq<string>): int {
    if frags == [] then status
    else
      var init := frags[..|frags| - 1];
      var (q, r) := Feed(p, init);
      var u := r + frags[|frags| - 1];
      if u == "" then FeedStatus(status, p, init)
      else StatusAfter(FeedStatus(status, p, init), q, Recv(q, u).0)
  }

  /** Bytes that have begun a line and do not hold all of it. */
  predicate InLine(u: string) {
    u != "" && LineOf(u) == ""
  }

  /** A fragment ends inside the first line. */
  ghost predicate SomeCutInLine(frags: seq<string>) {
    exists k :: 0 <= k <= |frags| && InLine(Concat(frags[..k]))
  }

  lemma SomeCutNext(frags: seq<string>)
    requires frags != []
    ensures SomeCutInLine(frags) <==> SomeCutInLine(frags[..|frags| - 1]) || InLine(Concat(frags))
  {
    hide InLine, Concat;
    var n := |frags|;
    var init := frags[..n - 1];
    assert frags[..n] == frags;
    assert forall k :: 0 <= k < n ==> frags[..k] == init[..k];
  }

  lemma LineStays(p: Parser, u: string)
    requires Resting(p) && Recv(p, u).0.phase == Line
    ensures p.phase == Line
  {
    hide ParseLine, RecvHead;
    LineBetween(p, u);
    var (a, ua) := RecvLine(p, u);
    HeadBetween(a, ua);
    BodyResting(RecvHead(a, ua).0, RecvHead(a, ua).1);
  }

  /** The status a response starts from does depend on the cuts: it is the 200 of a fresh context
      if and only if no fragment ends inside the request line; otherwise it is 0, for good. */
  lemma {:induction false} StatusDependsOnCuts(frags: seq<string>)
    requires Feed(START, frags).0.phase != Error
    ensures FeedStatus(200, START, frags) == if SomeCutInLine(frags) then 0 else 200
  {
    hide Recv, LineOf, SomeCutInLine;
    if frags == [] {
      NoCuts();
    } else {
      var init, last := frags[..|frags| - 1], frags[|frags| - 1];
      var (q, r) := Feed(START, init);
      if q.phase == Error {
        ErrorAbsorbs(q, r + last);
        assert false;
      }
      FeedOrError(START, init);
      FeedOrError(START, frags);
      StatusDependsOnCuts(init);
      SomeCutNext(frags);
      NextCall(Concat(init), last);
    }
  }

  lemma NoCuts()
    ensures !SomeCutInLine([])
  {
    var none: seq<string> := [];
    assert none[..0] == none;
  }

  /** One more call: the parser stays in the request line if and only if the bytes so far do not
      hold all of it. */
  lemma NextCall(u: string, v: string)
    requires Recv(START, u).0.phase != Error && Recv(START, u + v).0.phase != Error
    ensures var (q, r) := Recv(START, u);
            && Recv(q, r + v) == Recv(START, u + v)
            && (r + v == "" ==> !InLine(u + v))
            && (r + v != "" ==> (InLine(u + v) <==> q.phase == Line && Recv(q, r + v).0.phase == Line))
  {
    hide Recv, LineOf;
    Resumes(START, u, v);
    FirstCall(u);
    FirstCall(u + v);
    RecvResting(START, u);
    var (q, r) := Recv(START, u);
    if q.phase == Line {
      StillWaiting(u);
    } else if LineOf(u) != "" {
      LineExtends(u, v);
    }
    if Recv(q, r + v).0.phase == Line {
      LineStays(q, r + v);
    }
  }

  lemma StillWaiting(u: string)
    requires Recv(START, u).0.phase == Line
    ensures Recv(START, u) == (START, u)
  {
    hide ParseLine, LineOf;
    FirstCall(u);
  }

  lemma FirstCall(u: string)
    requires Recv(START, u).0.phase != Error
    ensures Recv(START, u).0.phase == Line <==> LineOf(u) == ""
  {
    hide ParseLine;
    LineBetween(START, u);
    var (a, ua) := RecvLine(START, u);
    if LineOf(u) == "" {
      ErrorFromHead(START, u);
    } else if a.phase == Header {
      RecvAgain(a, ua);
      if Recv(a, ua).0.phase == Line {
        LineStays(a, ua);
      }
    } else {
      ErrorFromHead(START, u);
    }
  }

  /** `_resp_statu >= 400` says exactly that the parser is in ERROR, in whatever fragments the
      stream arrived. */
  lemma {:induction false} ErrorFlag(frags: seq<string>)
    ensures FeedStatus(200, START, frags) >= 400 <==> Feed(START, frags).0.phase == Error
    ensures Feed(START, frags).0.phase == Error ==> FeedStatus(200, START, frags) == Feed(START, frags).0.code
  {
    hide Recv;
    if frags != [] {
      var init := frags[..|frags| - 1];
      ErrorFlag(init);
      FeedOrError(START, init);
      var (q, r) := Feed(START, init);
      RecvResting(q, r + frags[|frags| - 1]);
      NothingNew(q);
      if q.phase == Error {
        ErrorAbsorbs(q, r + frags[|frags| - 1]);
      }
    }
  }

  function Repeat(c: char, n: nat): (s: string)
    ensures |s| == n && forall i :: 0 <= i < n ==> s[i] == c
  {
    seq(n, _ => c)
  }

  lemma HiddenTail(line: string, n: nat) returns (s: string)
    requires line != "" && '\0' !in line && '\n' !in line && |line| + n == MAX_LENGTH
    ensures s == line + "\0" + Repeat('x', n) + "\n"
    ensures LineOf(s) == line && s[|line|] == '\0' && |s| == MAX_LENGTH + 2
    ensures '\n' !in s[..MAX_LENGTH + 1]
  {
    s := line + "\0" + Repeat('x', n) + "\n";
    var k := MAX_LENGTH + 1;
    assert forall i :: 0 <= i < k ==> s[i] != '\n';
    IndexOfIs(s, '\n', k);
    assert s[..k + 1] == s && s[..|line|] == line;
    IndexOfIs(s, '\0', |line|);
  }

  lemma SimpleLine(eol: string)
    requires IsEol(eol)
    ensures MatchLine("GET / HTTP/1.1" + eol) == Some(Groups("GET", "/", false, "", "HTTP/1.1"))
  {
    var g := Groups("GET", "/", false, "", "HTTP/1.1");
    assert LineText(g, eol) == "GET / HTTP/1.1" + eol;
    MatchComplete(g, eol);
  }

  lemma AcceptedThenStuck(s: string)
    requires LineOf(s) == "GET / HTTP/1.1" && |s| == MAX_LENGTH + 2 && s[14] == '\0'
    ensures Recv(START, s).0.phase == Header
  {
    SimpleLine("");
    assert "GET / HTTP/1.1" + "" == "GET / HTTP/1.1";
    NulFirst(s[14..]);
  }

  lemma LongFails(w: string)
    requires '\n' !in w && |w| > MAX_LENGTH
    ensures Recv(START, w).0.phase == Error
  {
    assert LineOf(w) == "";
  }

  lemma OneCut(a: string)
    ensures SomeCutInLine([a]) <==> InLine(a)
  {
    hide InLine, SomeCutInLine;
    SomeCutNext([a]);
    ConcatOne(a);
    NoCuts();
    assert [a][..0] == [];
  }

  lemma TwoCuts(a: string, b: string)
    ensures SomeCutInLine([a, b]) <==> InLine(a) || InLine(a + b)
  {
    hide InLine, SomeCutInLine;
    SomeCutNext([a, b]);
    ConcatTwo(a, b);
    OneCut(a);
    assert [a, b][..1] == [a];
  }

  /** The same request line, cut in two ways: a first fragment that ends inside it costs the 200. */
  lemma StatusLostByCut()
    ensures var (frags, whole) := (["GET", " / HTTP/1.1\n"], ["GET / HTTP/1.1\n"]);
            && Concat(frags) == Concat(whole)
            && Feed(START, frags).0.phase == Header && Feed(START, whole).0.phase == Header
            && FeedStatus(200, START, frags) == 0 && FeedStatus(200, START, whole) == 200
  {
    hide Feed, FeedStatus, Recv, Concat, LineOf, CutSafeRun, SomeCutInLine;
    var a, b := "GET", " / HTTP/1.1\n";
    assert a + b == "GET / HTTP/1.1\n";
    ConcatTwo(a, b);
    ConcatOne(a + b);
    RequestLineTaken();
    FragmentationIndependence(START, [a, b]);
    FragmentationIndependence(START, [a + b]);
    TwoCuts(a, b);
    OneCut(a + b);
    StatusDependsOnCuts([a, b]);
    StatusDependsOnCuts([a + b]);
  }

  lemma NoLine(s: string)
    requires '\n' !in s && |s| <= MAX_LENGTH
    ensures LineOf(s) == "" && CutSafe(s)
  {
  }

  /** A request line without a query is taken, and nothing behind it is looked at. */
  lemma LineTaken(line: string, g: Groups)
    requires LineOf(line) == line && 0 < |line| <= MAX_LENGTH && CutSafe(line)
    requires MatchLine(line) == Some(g) && g.query == ""
    ensures Recv(START, line).0.phase == Header && CutSafeRun(START, line)
  {
    hide LineOf, CutSafe, MatchLine, AddParams, Upper;
    NoParams();
    NoLine("");
    assert line[|line|..] == "";
  }

  lemma RequestLineTaken()
    ensures var line := "GET / HTTP/1.1\n";
            && Recv(START, line).0.phase == Header && CutSafeRun(START, line)
            && LineOf("GET") == "" && LineOf(line) == line
  {
    hide LineOf, CutSafe, MatchLine, Recv, CutSafeRun;
    NoLine("GET");
    SimpleLine("\n");
    var line := "GET / HTTP/1.1" + "\n";
    assert line == "GET / HTTP/1.1\n" && line + "" == line;
    LineFirst("GET / HTTP/1.1", "");
    LineTaken(line, Groups("GET", "/", false, "", "HTTP/1.1"));
  }

  /** A stream on which cutting matters: a NUL hides all but 14 bytes of a line of 8194, so one
      call accepts a request line that is refused as too long when it arrives in two pieces. */
  lemma NulCounterexample() returns (s: string, frags: seq<string>)
    ensures Concat(frags) == s
    ensures Recv(START, s).0.phase == Header
    ensures Feed(START, frags).0.phase == Error
  {
    hide Recv, Repeat;
    s := HiddenTail("GET / HTTP/1.1", MAX_LENGTH - 14);
    AcceptedThenStuck(s);
    var w, x := s[..MAX_LENGTH + 1], s[MAX_LENGTH + 1..];
    LongFails(w);
    FailsFirst(START, w, x);
    assert w + x == s;
    frags := [w, x];
  }
}
