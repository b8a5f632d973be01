/** `HttpServer::WriteResponse` (source/http.hpp): the header fields it adds and the text it sends. */
module ResponseText {
  import opened Strings
  import opened HttpMessage
  import opened RequestParser
  import opened Fragmentation
  import opened Framing

  function AddField(res: Response, k: string, v: string): Response {
    res.(headers := Insert(res.headers, k, v))
  }

  /** The fields `WriteResponse` sets; a field the handler has set keeps its value. */
  function Complete(req: Request, res: Response): Response {
    var a := AddField(res, "Connection", if req.Close() then "close" else "keep-alive");
    var b := if res.body == "" then a else AddField(a, "Content-Length", Dec(|res.body|));
    var c := if res.body == "" then b else AddField(b, "Content-Type", "application/octet-stream");
    match res.redirect
    case None => c
    case Some(url) => AddField(c, "Location", url)
  }

  function StatusLine(version: string, status: int, reason: string): string {
    version + " " + (if status < 0 then "-" + Dec(-status) else Dec(status)) + " " + reason + "\r\n"
  }

  /** `order` lists the entries of `m`, each once: how an `unordered_map` may be walked. */
  ghost predicate IsOrder(order: seq<(string, string)>, m: Table) {
    && (forall i :: 0 <= i < |order| ==> order[i].0 in m && m[order[i].0] == order[i].1)
    && (forall k :: k in m ==> exists i :: 0 <= i < |order| && order[i].0 == k)
    && (forall i, j :: 0 <= i < j < |order| ==> order[i].0 != order[j].0)
  }

  function Text(version: string, res: Response, reason: string, order: seq<(string, string)>): string {
    StatusLine(version, res.status, reason) + HeaderLines(order) + "\r\n" + res.body
  }

  ghost predicate IsText(text: string, version: string, res: Response, reason: string) {
    exists order :: IsOrder(order, res.headers) && text == Text(version, res, reason, order)
  }

  lemma {:induction false} HeaderLinesAppend(kvs: seq<(string, string)>, kv: (string, string))
    ensures HeaderLines(kvs + [kv]) == HeaderLines(kvs) + HeaderLine(kv)
  {
    if kvs == [] {
      assert [] + [kv] == [kv] && [kv][1..] == [];
      assert HeaderLine(kv) + "" == HeaderLine(kv) == "" + HeaderLine(kv);
    } else {
      assert (kvs + [kv])[1..] == kvs[1..] + [kv];
      HeaderLinesAppend(kvs[1..], kv);
      Assoc(HeaderLine(kvs[0]), HeaderLines(kvs[1..]), HeaderLine(kv));
    }
  }

  /** The loop over the header map, in whatever order it is walked. */
  method PrintHeaders(headers: Table) returns (s: string)
    ensures exists order :: IsOrder(order, headers) && s == HeaderLines(order)
  {
    s := "";
    ghost var order: seq<(string, string)> := [];
    var keys := headers.Keys;
    while keys != {}
      invariant keys <= headers.Keys
      invariant s == HeaderLines(order)
      invariant forall i :: 0 <= i < |order| ==>
                  order[i].0 in headers && headers[order[i].0] == order[i].1 && order[i].0 !in keys
      invariant forall k :: k in headers && k !in keys ==> exists i :: 0 <= i < |order| && order[i].0 == k
      invariant forall i, j :: 0 <= i < j < |order| ==> order[i].0 != order[j].0
      decreases keys
    {
      var k :| k in keys;
      s := s + HeaderLine((k, headers[k]));
      HeaderLinesAppend(order, (k, headers[k]));
      ghost var was := order;
      order := order + [(k, headers[k])];
      assert order[|was|].0 == k;
      assert forall i :: 0 <= i < |was| ==> order[i] == was[i];
      keys := keys - {k};
    }
  }

  /** Any order of the entries of a table rebuilds the table. */
  lemma OrderRebuilds(order: seq<(string, string)>, m: Table)
    requires IsOrder(order, m)
    ensures InsertAll(map[], order) == m
  {
    var n := InsertAll(map[], order);
    forall k
      ensures k in n <==> k in m
      ensures k in m ==> n[k] == m[k]
    {
      FirstBindingWins(map[], order, k);
      if k in m {
        var i :| 0 <= i < |order| && order[i].0 == k;
        assert BoundFirst(order, k, i);
      }
    }
  }

  /** Header print and parse undo each other: whatever order the map is walked in, reading the
      printed block back restores the map and consumes exactly the block. */
  lemma HeaderRoundTrip(order: seq<(string, string)>, m: Table, tail: string)
    requires IsOrder(order, m)
    requires forall i :: 0 <= i < |order| ==> HeaderOk(order[i])
    ensures RecvHead(Parser(Header, 0, FRESH), HeaderLines(order) + ("\r\n" + tail))
         == (Parser(Body, 0, FRESH.(headers := m)), tail)
  {
    hide RecvHead, HeaderOk;
    HeadersParse(Parser(Header, 0, FRESH), order, tail);
    OrderRebuilds(order, m);
  }

  /** What the other side makes of a response: behind the status line it reads the header fields
      back, and what is left is the body. */
  lemma ResponseReadsBack(text: string, version: string, res: Response, reason: string)
    requires IsText(text, version, res, reason)
    requires forall k :: k in res.headers ==> HeaderOk((k, res.headers[k]))
    ensures var line := StatusLine(version, res.status, reason);
            && line <= text
            && RecvHead(Parser(Header, 0, FRESH), text[|line|..])
            == (Parser(Body, 0, FRESH.(headers := res.headers)), res.body)
  {
    hide RecvHead, HeaderOk, StatusLine;
    var order: seq<(string, string)> :| IsOrder(order, res.headers) && text == Text(version, res, reason, order);
    var line := StatusLine(version, res.status, reason);
    var block := HeaderLines(order) + ("\r\n" + res.body);
    assert text == line + block;
    assert text[|line|..] == block;
    forall i | 0 <= i < |order|
      ensures HeaderOk(order[i])
    {
      assert order[i] == (order[i].0, res.headers[order[i].0]);
    }
    HeaderRoundTrip(order, res.headers, res.body);
  }

  /** A response with a body and no length of its own announces the length of that body. */
  lemma AnnouncedLength(req: Request, res: Response)
    requires res.body != "" && "Content-Length" !in res.headers && |res.body| <= LONG_MAX
    ensures var headers := Complete(req, res).headers;
            "Content-Length" in headers && Stol(headers["Content-Length"]) == Some(|res.body|)
  {
    hide Stol, Dec;
    StolDec(|res.body|);
  }

  /** `b` has the fields of `a`, and at most `k` besides. */
  predicate OneMoreField(a: Table, b: Table, k: string) {
    b.Keys == a.Keys + {k} && forall x :: x in a ==> b[x] == a[x]
  }

  lemma AddedField(res: Response, k: string, v: string)
    ensures OneMoreField(res.headers, AddField(res, k, v).headers, k)
    ensures k !in res.headers ==> AddField(res, k, v).headers[k] == v
  {
  }

  /** Fields set by the handler win; beyond them a response has at most the four fields that
      `WriteResponse` sets: a length and a type if it has a body, and the target of a redirect. */
  lemma HandlerFieldsWin(req: Request, res: Response)
    ensures var headers := Complete(req, res).headers;
            && (forall k :: k in res.headers ==> k in headers && headers[k] == res.headers[k])
            && headers.Keys == res.headers.Keys + {"Connection"}
                 + (if res.body != "" then {"Content-Length", "Content-Type"} else {})
                 + (if res.redirect.Some? then {"Location"} else {})
            && (res.redirect.Some? && "Location" !in res.headers ==> headers["Location"] == res.redirect.value)
  {
    hide AddField, Dec;
    var connection := if req.Close() then "close" else "keep-alive";
    var a := AddField(res, "Connection", connection);
    var b := AddField(a, "Content-Length", Dec(|res.body|));
    var c := if res.body == "" then a else AddField(b, "Content-Type", "application/octet-stream");
    AddedField(res, "Connection", connection);
    AddedField(a, "Content-Length", Dec(|res.body|));
    AddedField(b, "Content-Type", "application/octet-stream");
    if res.redirect.Some? {
      AddedField(c, "Location", res.redirect.value);
    }
  }

  /** The connection is kept open exactly when the request asks for it, unless the handler has
      decided otherwise. */
  lemma KeepsOpen(req: Request, res: Response)
    ensures "Connection" !in res.headers ==> (Complete(req, res).Close() <==> req.Close())
    ensures "Connection" in res.headers ==> (Complete(req, res).Close() <==> res.Close())
  {
  }

  // ---------------------------------------------------------------- the answer, spelled out

  /** What a status prints as, read back. */
  lemma StatusReads(status: int)
    requires -0x8000_0000_0000_0000 <= status <= 0x7fff_ffff_ffff_ffff
    ensures var s := if status < 0 then "-" + Dec(-status) else Dec(status);
            Stol(s) == Some(status) && ' ' !in s && Clean(s)
  {
    hide Dec, Stol, Value;
    var n: nat := if status < 0 then -status else status;
    ValueDec(n);
    StolExact("", if status < 0 then "-" else "", Dec(n), "");
    assert "" + ("-" + (Dec(n) + "")) == "-" + Dec(n) && "" + ("" + (Dec(n) + "")) == Dec(n);
  }

  lemma FirstSpace(a: string, b: string)
    requires ' ' !in a
    ensures IndexOf(a + " " + b, ' ') == |a|
    ensures (a + " " + b)[..|a|] == a && (a + " " + b)[|a| + 1..] == b
  {
    var s := a + " " + b;
    assert s[..|a|] == a;
    IndexOfIs(s, ' ', |a|);
  }

  /** The first line of a response, read as a client does: up to the first space the version of the
      request, up to the next the status in decimal, and then the reason up to the end of the line. */
  lemma StatusLineReadsBack(text: string, version: string, res: Response, reason: string)
    requires IsText(text, version, res, reason)
    requires ' ' !in version && Clean(version) && Clean(reason)
    requires -0x8000_0000_0000_0000 <= res.status <= 0x7fff_ffff_ffff_ffff
    ensures var line := LineOf(text);
            var a := IndexOf(line, ' ');
            0 <= a && line[..a] == version &&
            var b := IndexOf(line[a + 1..], ' ');
            0 <= b && Stol(line[a + 1..][..b]) == Some(res.status) && line[a + 1..][b + 1..] == reason + "\r\n"
  {
    hide IsOrder, HeaderLines, Stol, LineOf, IndexOf, Clean, StatusLine;
    var order: seq<(string, string)> :| IsOrder(order, res.headers) && text == Text(version, res, reason, order);
    var digits := if res.status < 0 then "-" + Dec(-res.status) else Dec(res.status);
    StatusReads(res.status);
    StatusLineIs(version, res.status, reason, HeaderLines(order), res.body);
    FirstSpace(digits, reason + "\r\n");
    FirstSpace(version, digits + " " + (reason + "\r\n"));
  }

  lemma StatusLineIs(version: string, status: int, reason: string, fields: string, body: string)
    requires Clean(version) && Clean(reason)
    requires -0x8000_0000_0000_0000 <= status <= 0x7fff_ffff_ffff_ffff
    ensures var digits := if status < 0 then "-" + Dec(-status) else Dec(status);
            LineOf(StatusLine(version, status, reason) + fields + "\r\n" + body)
            == version + " " + (digits + " " + (reason + "\r\n"))
  {
    hide LineOf, Stol, Dec;
    var digits := if status < 0 then "-" + Dec(-status) else Dec(status);
    StatusReads(status);
    var a := version + " " + digits + " " + reason + "\r";
    var line := a + "\n";
    assert StatusLine(version, status, reason) == line;
    assert line == version + " " + (digits + " " + (reason + "\r\n"));
    CleanStatus(version, digits, reason);
    LineOfExact(a, fields + ("\r\n" + body));
    assert line + fields + "\r\n" + body == line + (fields + ("\r\n" + body));
  }

  /** The line that is read is the status line. */
  lemma StatusLineFirst(text: string, version: string, res: Response, reason: string)
    requires IsText(text, version, res, reason) && Clean(version) && Clean(reason)
    requires -0x8000_0000_0000_0000 <= res.status <= 0x7fff_ffff_ffff_ffff
    ensures LineOf(text) == StatusLine(version, res.status, reason)
  {
    hide IsOrder, HeaderLines, Stol, LineOf, Clean;
    var order: seq<(string, string)> :| IsOrder(order, res.headers) && text == Text(version, res, reason, order);
    StatusLineIs(version, res.status, reason, HeaderLines(order), res.body);
    assert reason + "\r\n" == reason + ("\r\n");
  }

  lemma CleanStatus(version: string, digits: string, reason: string)
    requires Clean(version) && Clean(digits) && Clean(reason)
    ensures Clean(version + " " + digits + " " + reason + "\r")
  {
  }

  /** What `WriteResponse` adds, value by value: it decides the Connection field, unless the handler
      has; a body gets its length and a type; a redirect gets its target; and status and body are
      the handler's. */
  lemma CompleteExact(req: Request, res: Response)
    ensures var c := Complete(req, res);
            && c.status == res.status && c.body == res.body && c.redirect == res.redirect
            && "Connection" in c.headers
            && c.headers["Connection"] ==
               (if "Connection" in res.headers then res.headers["Connection"]
                else if "Connection" in req.headers && req.headers["Connection"] == "keep-alive" then "keep-alive"
                else "close")
            && (c.Close() <==> c.headers["Connection"] != "keep-alive")
  {
    hide Dec, AddField;
    var connection := if req.Close() then "close" else "keep-alive";
    AddedKeeps(res, "Connection", connection);
    var a := AddField(res, "Connection", connection);
    AddedKeeps(a, "Content-Length", Dec(|res.body|));
    var b := if res.body == "" then a else AddField(a, "Content-Length", Dec(|res.body|));
    AddedKeeps(b, "Content-Type", "application/octet-stream");
    var c := if res.body == "" then b else AddField(b, "Content-Type", "application/octet-stream");
    if res.redirect.Some? {
      AddedKeeps(c, "Location", res.redirect.value);
    }
  }

  /** Nothing but one header field changes, and one that is there does not. */
  lemma AddedKeeps(res: Response, k: string, v: string)
    ensures var r := AddField(res, k, v);
            && r.status == res.status && r.body == res.body && r.redirect == res.redirect
            && (forall x :: x in res.headers ==> x in r.headers && r.headers[x] == res.headers[x])
            && k in r.headers && (k !in res.headers ==> r.headers[k] == v)
  {
  }

  lemma BodyFields(req: Request, res: Response)
    requires res.body != ""
    ensures var headers := Complete(req, res).headers;
            && "Content-Type" in headers && "Content-Length" in headers
            && ("Content-Type" !in res.headers ==> headers["Content-Type"] == "application/octet-stream")
            && ("Content-Length" !in res.headers ==>
                  var s := headers["Content-Length"];
                  (forall c :: c in s ==> IsDigit(c)) && Value(s) == |res.body|)
  {
    hide Dec, AddField, Value;
    ValueDec(|res.body|);
    var a := AddField(res, "Connection", if req.Close() then "close" else "keep-alive");
    var b := AddField(a, "Content-Length", Dec(|res.body|));
    var c := AddField(b, "Content-Type", "application/octet-stream");
    AddedField(res, "Connection", if req.Close() then "close" else "keep-alive");
    AddedField(a, "Content-Length", Dec(|res.body|));
    AddedField(b, "Content-Type", "application/octet-stream");
    if res.redirect.Some? {
      AddedField(c, "Location", res.redirect.value);
    }
  }
}
