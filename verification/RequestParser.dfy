/**
 The request parser of `HttpContext` (source/http.hpp) as functions on values: what one call of
 `RecvHttpReq` makes of the parser state and the unread bytes. The class in HttpContext.dfy
 is proved to compute these functions.
 */
module RequestParser {
  import opened Strings
  import opened HttpMessage
  import opened RequestLine

  const MAX_LENGTH := 8192

  /** `HttpStatus`, and `Thrown` for the state in which `std::stol` has thrown: nothing catches
      the exception, so no later call happens. */
  datatype Phase = Line | Header | Body | Error | Over | Thrown

  /** `code` is the error code, 0 while there is none. */
  datatype Parser = Parser(phase: Phase, code: int, req: Request)

  const START := Parser(Line, 0, FRESH)

  function Fail(p: Parser, code: int): Parser {
    p.(phase := Error, code := code)
  }

  /** `RecvHttpLine`. */
  function RecvLine(p: Parser, u: string): (Parser, string) {
    if p.phase != Line then (p, u)
    else
      var line := LineOf(u);
      if line == "" then (if |u| > MAX_LENGTH then Fail(p, 414) else p, u)
      else if |line| > MAX_LENGTH then (Fail(p, 414), u[|line|..])
      else
        var (ok, req) := ParseLine(p.req, line);
        (if ok then Parser(Header, p.code, req) else Parser(Error, 400, req), u[|line|..])
  }

  function StripEol(line: string): string {
    var s := if line != "" && line[|line| - 1] == '\n' then line[..|line| - 1] else line;
    if s != "" && s[|s| - 1] == '\r' then s[..|s| - 1] else s
  }

  predicate IsBlank(line: string) {
    line == "\n" || line == "\r\n"
  }

  /** `ParseHttpHead`: key and value of a header line. */
  function ParseHead(line: string): Option<(string, string)> {
    var s := StripEol(line);
    var pos := Find(s, ": ", 0);
    if pos < 0 then None else Some((s[..pos], s[pos + 2..]))
  }

  /** `RecvHttpHead`. */
  function RecvHead(p: Parser, u: string): (Parser, string)
    decreases |u|
  {
    if p.phase != Header then (p, u)
    else
      var line := LineOf(u);
      if line == "" then (if |u| > MAX_LENGTH then Fail(p, 414) else p, u)
      else if |line| > MAX_LENGTH then (Fail(p, 414), u[|line|..])
      else if IsBlank(line) then (p.(phase := Body), u[|line|..])
      else
        match ParseHead(line)
        case None => (Fail(p, 400), u[|line|..])
        case Some(kv) => RecvHead(AddHeader(p, kv), u[|line|..])
  }

  function AddHeader(p: Parser, kv: (string, string)): Parser {
    p.(req := p.req.(headers := Insert(p.req.headers, kv.0, kv.1)))
  }

  /** `RecvBody` once the length is known: take what is missing, in `size_t` arithmetic. */
  function TakeBody(p: Parser, length: nat, u: string): (Parser, string)
    requires length < SIZE_T
  {
    if length == 0 then (p.(phase := Over), u)
    else
      var missing := (length - |p.req.body|) % SIZE_T;
      if |u| >= missing then (AddBody(p, u[..missing]).(phase := Over), u[missing..])
      else (AddBody(p, u), "")
  }

  /** `RecvBody`. */
  function RecvBody(p: Parser, u: string): (Parser, string) {
    if p.phase != Body then (p, u)
    else
      match p.req.ContentLength()
      case None => (p.(phase := Thrown), u)
      case Some(length) => TakeBody(p, length, u)
  }

  function AddBody(p: Parser, bytes: string): Parser {
    p.(req := p.req.(body := p.req.body + bytes))
  }

  /** `RecvHttpReq`: the switch falls through all three cases. */
  function Recv(p: Parser, u: string): (Parser, string) {
    var (a, ua) := RecvLine(p, u);
    var (b, ub) := RecvHead(a, ua);
    RecvBody(b, ub)
  }

  // ---------------------------------------------------------------- states at rest

  /** What holds of the parser between calls: an error code exactly in ERROR, no body before
      BODY, and in BODY a body that is still short. */
  predicate Resting(p: Parser) {
    && (p.phase == Error ==> p.code >= 400)
    && (p.phase != Error ==> p.code == 0)
    && (p.phase == Line || p.phase == Header ==> p.req.body == "")
    && (p.phase == Body ==> p.req.ContentLength().Some? && |p.req.body| < p.req.ContentLength().value)
  }

  /** The same in the middle of a call, when BODY may just have been entered. */
  predicate Between(p: Parser) {
    if p.phase == Body then p.code == 0 && (p.req.body == "" || Resting(p)) else Resting(p)
  }

  predicate IsSuffix(r: string, u: string) {
    |r| <= |u| && u[|u| - |r|..] == r
  }

  lemma SuffixTransitive(r: string, s: string, u: string)
    requires IsSuffix(r, s) && IsSuffix(s, u)
    ensures IsSuffix(r, u) && |r| <= |s| <= |u|
  {
    assert u[|u| - |r|..] == u[|u| - |s|..][|s| - |r|..];
  }

  lemma LineBetween(p: Parser, u: string)
    requires Resting(p)
    ensures var (q, r) := RecvLine(p, u);
            Between(q) && (q.phase == Body ==> p.phase == Body && q == p && r == u)
            && IsSuffix(r, u) && |r| <= |u|
            && (p.phase == Line && q.phase != Line && q.phase != Error ==> q.phase == Header && |r| < |u|)
            && (q.phase == Line || p.phase != Line ==> (q, r) == (p, u))
  {
    hide IsSuffix, LineOf, ParseLine;
    WholeIsSuffix(u);
    if p.phase == Line && LineOf(u) != "" {
      RestIsSuffix(u, |LineOf(u)|);
      ParsedLineKeeps(p.req, LineOf(u));
    }
  }

  lemma WholeIsSuffix(u: string)
    ensures IsSuffix(u, u)
  {
  }

  lemma RestIsSuffix(u: string, n: nat)
    requires n <= |u|
    ensures IsSuffix(u[n..], u) && |u[n..]| == |u| - n
  {
  }

  lemma ParsedLineKeeps(req: Request, line: string)
    ensures var (_, r) := ParseLine(req, line); r.body == req.body && r.headers == req.headers
  {
    hide MatchLine, AddParams;
  }

  lemma {:induction false} HeadBetween(p: Parser, u: string)
    requires Between(p) && (p.phase == Body ==> Resting(p))
    ensures var (q, r) := RecvHead(p, u);
            Between(q)
            && IsSuffix(r, u) && |r| <= |u|
            && (p.phase == Header && q.phase != Header && q.phase != Error ==>
                  q.phase == Body && q.req.body == "" && |r| < |u|)
            && (p.phase != Header ==> (q, r) == (p, u))
    decreases |u|
  {
    var line := LineOf(u);
    if p.phase == Header && line != "" && |line| <= MAX_LENGTH && !IsBlank(line) && ParseHead(line).Some? {
      var p', u' := AddHeader(p, ParseHead(line).value), u[|line|..];
      HeadBetween(p', u');
      var (q, r) := RecvHead(p', u');
      assert RecvHead(p, u) == (q, r);
      SuffixTransitive(r, u', u);
    }
  }

  lemma TakeBodyShort(p: Parser, length: nat, u: string)
    requires length < SIZE_T && (|p.req.body| < length || p.req.body == "")
    ensures var (q, r) := TakeBody(p, length, u);
            && IsSuffix(r, u) && |r| <= |u| && q.code == p.code && q.req.headers == p.req.headers
            && (q.phase == Over || (q.phase == p.phase && |q.req.body| < length))
            && (length == 0 ==> q.phase == Over)
            && (u != "" && |p.req.body| < length ==> |r| < |u|)
  {
  }

  lemma SameLength(a: Request, b: Request)
    requires a.headers == b.headers
    ensures a.ContentLength() == b.ContentLength()
  {
  }

  lemma BodyResting(p: Parser, u: string)
    requires Between(p)
    ensures var (q, r) := RecvBody(p, u);
            Resting(q) && IsSuffix(r, u) && |r| <= |u|
            && (p.phase == Body ==> q.phase in {Body, Over, Thrown})
            && (p.phase == Body && Resting(p) && u != "" ==> |r| < |u|)
            && (p.phase != Body ==> (q, r) == (p, u))
  {
    if p.phase == Body && p.req.ContentLength().Some? {
      var length := p.req.ContentLength().value;
      TakeBodyShort(p, length, u);
      SameLength(p.req, TakeBody(p, length, u).0.req);
    }
  }

  /** Every call keeps the resting invariant and consumes a prefix of the unread bytes. */
  lemma RecvResting(p: Parser, u: string)
    requires Resting(p)
    ensures Resting(Recv(p, u).0) && IsSuffix(Recv(p, u).1, u)
  {
    hide RecvLine, RecvHead, RecvBody, Resting, Between, IsSuffix;
    var (a, ua) := RecvLine(p, u);
    var (b, ub) := RecvHead(a, ua);
    LineBetween(p, u);
    HeadBetween(a, ua);
    BodyResting(b, ub);
    SuffixTransitive(ub, ua, u);
    SuffixTransitive(RecvBody(b, ub).1, ub, u);
  }

  /** A call that completes a request consumes at least one byte. */
  lemma OverConsumes(p: Parser, u: string)
    requires Resting(p) && p.phase != Over && u != ""
    requires Recv(p, u).0.phase == Over
    ensures |Recv(p, u).1| < |u|
  {
    hide RecvLine, RecvHead, RecvBody, Resting, Between, IsSuffix;
    var (a, ua) := RecvLine(p, u);
    var (b, ub) := RecvHead(a, ua);
    LineBetween(p, u);
    assert |ua| <= |u| && (p.phase == Line ==> a.phase != Over && a.phase != Body);
    assert a.phase == Header ==> p.phase == Header || |ua| < |u|;
    HeadBetween(a, ua);
    assert |ub| <= |ua| && b.phase != Over;
    assert b.phase == Body ==> a.phase == Body || |ub| < |ua|;
    BodyResting(b, ub);
  }
}
