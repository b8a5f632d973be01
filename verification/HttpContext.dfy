/**
 `HttpContext` (source/http.hpp): the resumable parser with its fields, proved to compute the
 functions of RequestParser.dfy on the shared input buffer.
 */
module HttpContext {
  import opened Strings
  import opened UrlCodec
  import opened HttpMessage
  import opened RequestLine
  import opened RequestParser
  import opened Fragmentation
  import opened ByteBuffer

  lemma PhasesOfLine(p: Parser, u: string)
    ensures p.phase != Line ==> RecvLine(p, u) == (p, u)
  {
  }

  lemma PhasesOfHead(p: Parser, u: string)
    ensures if p.phase == Header then RecvHead(p, u).0.phase != Line else RecvHead(p, u) == (p, u)
    decreases |u|
  {
    var line := LineOf(u);
    if p.phase == Header && 0 < |line| <= MAX_LENGTH && !IsBlank(line) && ParseHead(line).Some? {
      PhasesOfHead(AddHeader(p, ParseHead(line).value), u[|line|..]);
    }
  }

  lemma PhasesOfBody(p: Parser, u: string)
    ensures if p.phase == Body then RequestParser.RecvBody(p, u).0.phase in [Body, Over, Thrown]
            else RequestParser.RecvBody(p, u) == (p, u)
  {
  }

  class Context {
    var respStatu: int
    var recvStatu: Phase
    var req: Request

    /** The parser state that the fields stand for. */
    ghost function State(): Parser
      reads this
    {
      Parser(recvStatu, if recvStatu == Error then respStatu else 0, req)
    }

    constructor ()
      ensures State() == START && respStatu == 200
    {
      respStatu, recvStatu, req := 200, Line, FRESH;
    }

    method Reset()
      modifies this
      ensures State() == START && respStatu == 200
    {
      respStatu, recvStatu, req := 200, Line, FRESH;
    }

    /** The switch over `_recv_statu`, whose cases fall through. */
    method RecvHttpReq(buf: Buffer)
      requires buf.Valid()
      modifies this, buf`readIdx
      ensures buf.Valid() && (State(), buf.Contents()) == Recv(old(State()), old(buf.Contents()))
      ensures respStatu == StatusAfter(old(respStatu), old(State()), State())
    {
      hide RecvLine, RecvHead, RequestParser.RecvBody;
      var entry := recvStatu;
      PhasesOfLine(State(), buf.Contents());
      if entry == Line {
        RecvHttpLine(buf);
      }
      PhasesOfHead(State(), buf.Contents());
      if entry == Line || entry == Header {
        RecvHttpHead(buf);
      }
      PhasesOfBody(State(), buf.Contents());
      if entry == Line || entry == Header || entry == Body {
        RecvBody(buf);
      }
    }

    method RecvHttpLine(buf: Buffer)
      requires buf.Valid()
      modifies this, buf`readIdx
      ensures buf.Valid() && (State(), buf.Contents()) == RecvLine(old(State()), old(buf.Contents()))
      ensures respStatu == StatusAfter(old(respStatu), old(State()), State())
    {
      hide LineOf, ParseLine;
      if recvStatu != Line {
        return;
      }
      var line := buf.GetLineAndPop();
      if line == "" {
        if buf.ReadableSize() > MAX_LENGTH {
          recvStatu, respStatu := Error, 414;
          return;
        }
        respStatu := 0;
        return;
      }
      if |line| > MAX_LENGTH {
        recvStatu, respStatu := Error, 414;
        return;
      }
      var ok := ParseHttpLine(line);
      if ok {
        recvStatu := Header;
      }
    }

    method ParseHttpLine(line: string) returns (ok: bool)
      requires recvStatu == Line
      modifies this
      ensures (ok, req) == ParseLine(old(req), line)
      ensures if ok then recvStatu == Line && respStatu == old(respStatu)
              else recvStatu == Error && respStatu == 400
    {
      var m := MatchLine(line);
      if m.None? {
        recvStatu, respStatu := Error, 400;
        return false;
      }
      var g := m.value;
      req := req.(verb := Upper(g.verb), url := g.path, version := g.version);
      var pieces := Split(g.query, "&");
      ghost var params := req.params;
      for i := 0 to |pieces|
        invariant recvStatu == Line && respStatu == old(respStatu)
        invariant req == old(req).(verb := Upper(g.verb), url := g.path, version := g.version, params := req.params)
        invariant AddParams(pieces[i..], req.params) == AddParams(pieces, params)
      {
        var pos := IndexOf(pieces[i], '=');
        if pos < 0 {
          recvStatu, respStatu := Error, 400;
          return false;
        }
        var key := UrlDecode(pieces[i][..pos], true);
        var val := UrlDecode(pieces[i][pos + 1..], true);
        req := req.(params := Insert(req.params, key, val));
      }
      return true;
    }

    method RecvHttpHead(buf: Buffer)
      requires buf.Valid()
      modifies this, buf`readIdx
      ensures buf.Valid() && (State(), buf.Contents()) == RecvHead(old(State()), old(buf.Contents()))
      ensures recvStatu != Error ==> respStatu == old(respStatu)
    {
      hide LineOf, ParseHead;
      if recvStatu != Header {
        return;
      }
      while true
        invariant buf.Valid() && recvStatu == Header && respStatu == old(respStatu)
        invariant RecvHead(State(), buf.Contents()) == RecvHead(old(State()), old(buf.Contents()))
        decreases buf.ReadableSize()
      {
        var line := buf.GetLineAndPop();
        if line == "" {
          if buf.ReadableSize() > MAX_LENGTH {
            recvStatu, respStatu := Error, 414;
          }
          return;
        }
        if |line| > MAX_LENGTH {
          recvStatu, respStatu := Error, 414;
          return;
        }
        if line == "\n" || line == "\r\n" {
          break;
        }
        var ok := ParseHttpHead(line);
        if !ok {
          return;
        }
      }
      recvStatu := Body;
    }

    method ParseHttpHead(line: string) returns (ok: bool)
      requires recvStatu == Header && line != ""
      modifies this
      ensures ok == ParseHead(line).Some?
      ensures if ok then State() == AddHeader(old(State()), ParseHead(line).value) && respStatu == old(respStatu)
              else State() == Fail(old(State()), 400)
    {
      var s := line;
      if s[|s| - 1] == '\n' {
        s := s[..|s| - 1];
      }
      if s != "" && s[|s| - 1] == '\r' {
        s := s[..|s| - 1];
      }
      var pos := Find(s, ": ", 0);
      if pos < 0 {
        recvStatu, respStatu := Error, 400;
        return false;
      }
      req := req.(headers := Insert(req.headers, s[..pos], s[pos + 2..]));
      return true;
    }

    method RecvBody(buf: Buffer)
      requires buf.Valid()
      modifies this, buf`readIdx
      ensures buf.Valid() && (State(), buf.Contents()) == RequestParser.RecvBody(old(State()), old(buf.Contents()))
      ensures respStatu == old(respStatu)
    {
      hide Stol;
      if recvStatu != Body {
        return;
      }
      var length := req.ContentLength();
      if length.None? {
        recvStatu := Thrown;
        return;
      }
      if length.value == 0 {
        recvStatu := Over;
        return;
      }
      var missing := (length.value - |req.body|) % SIZE_T;
      if buf.ReadableSize() >= missing {
        var bytes := buf.ReadAndPop(missing);
        req := req.(body := req.body + bytes);
        recvStatu := Over;
        return;
      }
      var bytes := buf.ReadAndPop(buf.ReadableSize());
      assert bytes == old(buf.Contents()) && buf.Contents() == "";
      req := req.(body := req.body + bytes);
    }
  }
}
