/**
 What the parser of source/http.hpp makes of the bytes, spelled out on the text: which lines it takes
 and which it refuses, how long a body is, and what a plain request turns into. The statements use
 literal texts and numbers, so they stand on their own.
 */
module WireLaws {
  import opened Strings
  import opened UrlCodec
  import opened HttpMessage
  import opened RequestLine
  import opened RequestParser
  import opened Fragmentation
  import opened Framing

  // ---------------------------------------------------------------- the request line

  /** Without a newline the parser waits, up to 8192 bytes. */
  lemma LineWaits(p: Parser, a: string)
    requires p.phase == Line && '\n' !in a
    ensures RecvLine(p, a) == (if |a| >= 8193 then p.(phase := Error, code := 414) else p, a)
  {
    LineOfExact(a, "");
  }

  /** A request line is refused with 414 from 8193 bytes on, and with 400 if it does not match. */
  lemma LineRefused(p: Parser, a: string, b: string)
    requires p.phase == Line && '\n' !in a && '\0' !in a
    ensures var (line, q) := (a + "\n", RecvLine(p, a + "\n" + b));
            && q.1 == b
            && (|line| >= 8193 ==> q.0 == Parser(Error, 414, p.req))
            && (|line| <= 8192 && (forall g :: MatchLine(line) != Some(g)) ==> q.0 == Parser(Error, 400, p.req))
  {
    hide MatchLine, LineOf, AddParams;
    LineOfExact(a, b);
    assert (a + "\n" + b)[|a + "\n"|..] == b;
    if MatchLine(a + "\n").Some? {
      assert MatchLine(a + "\n") == Some(MatchLine(a + "\n").value);
    }
  }

  /** So a whole connection that begins with such a line gets an error, for the empty request of
      version 1.1, and nothing behind the line is taken. */
  lemma FirstLineRefused(a: string, b: string)
    requires '\n' !in a && '\0' !in a
    requires |a + "\n"| >= 8193 || forall g :: MatchLine(a + "\n") != Some(g)
    ensures var code := if |a + "\n"| >= 8193 then 414 else 400;
            Recv(START, a + "\n" + b)
            == (Parser(Error, code, Request("", "", "HTTP/1.1", "", map[], map[])), b)
  {
    hide MatchLine, LineOf, RecvLine, RecvHead;
    LineRefused(START, a, b);
    ErrorFromHead(START, a + "\n" + b);
    var q := RecvLine(START, a + "\n" + b).0;
    OnlyInHeader(q, b);
  }

  /** One that matches is taken if and only if every piece of its query has a '='; else that is 400. */
  lemma LineAccepted(p: Parser, a: string, b: string, g: Groups)
    requires p.phase == Line && '\n' !in a && '\0' !in a && |a + "\n"| <= 8192
    requires MatchLine(a + "\n") == Some(g)
    ensures var (line, q, pieces) := (a + "\n", RecvLine(p, a + "\n" + b), Pieces(g.query, "&"));
            && q.1 == b
            && if forall i :: 0 <= i < |pieces| ==> '=' in pieces[i]
               then q.0 == Parser(Header, p.code, ParseLine(p.req, line).1)
               else q.0.phase == Error && q.0.code == 400
  {
    hide MatchLine, LineOf, AddParams, Pieces;
    LineOfExact(a, b);
    assert (a + "\n" + b)[|a + "\n"|..] == b;
    QueryAccepted(Pieces(g.query, "&"), p.req.params);
  }

  // ---------------------------------------------------------------- header lines

  lemma HeadWaits(p: Parser, a: string)
    requires p.phase == Header && '\n' !in a
    ensures RecvHead(p, a) == (if |a| >= 8193 then p.(phase := Error, code := 414) else p, a)
  {
    LineOfExact(a, "");
  }

  /** A colon and a space at position `j`. */
  predicate SeparatorAt(s: string, j: nat) {
    j + 1 < |s| && s[j] == ':' && s[j + 1] == ' '
  }

  lemma SeparatorOccurs(s: string, j: nat)
    ensures OccursAt(s, ": ", j) <==> SeparatorAt(s, j)
  {
    assert ": "[0] == ':' && ": "[1] == ' ';
  }

  lemma HeadLine(p: Parser, a: string, b: string)
    requires p.phase == Header && '\n' !in a && '\0' !in a
    ensures var line := a + "\n";
            && LineOf(line + b) == line && (line + b)[|line|..] == b
            && RecvHead(p, line + b) ==
               if |line| > MAX_LENGTH then (Fail(p, 414), b)
               else if IsBlank(line) then (p.(phase := Body), b)
               else if ParseHead(line).None? then (Fail(p, 400), b)
               else RecvHead(AddHeader(p, ParseHead(line).value), b)
  {
    hide LineOf, ParseHead, IsBlank;
    LineOfExact(a, b);
    assert (a + "\n" + b)[|a + "\n"|..] == b;
  }

  /** The end of the head: an empty line, with or without a carriage return. */
  lemma HeadEnds(p: Parser, b: string)
    requires p.phase == Header
    ensures RecvHead(p, "\n" + b) == (p.(phase := Body), b)
    ensures RecvHead(p, "\r\n" + b) == (p.(phase := Body), b)
  {
    HeadLine(p, "", b);
    assert "" + "\n" == "\n" && "\r" + "\n" == "\r\n";
    HeadLine(p, "\r", b);
  }

  lemma StripsEol(s: string)
    requires s != "" && '\n' !in s
    ensures s[|s| - 1] != '\r' ==> StripEol(s + "\n") == s
    ensures StripEol(s + "\r\n") == s
  {
    assert s + "\r\n" == s + "\r" + "\n";
    assert (s + "\n")[..|s|] == s && (s + "\r" + "\n")[..|s| + 1] == s + "\r" && (s + "\r")[..|s|] == s;
  }

  /** A line of text that is ended either way. */
  predicate EndedAs(a: string, s: string) {
    a == s + "\r" || (a == s && s != "" && s[|s| - 1] != '\r')
  }

  /** An overlong header line is refused with 414, and so, with 400, is one without ": ". */
  lemma HeadRefused(p: Parser, s: string, a: string, b: string)
    requires p.phase == Header && '\n' !in s && '\0' !in s && s != "" && EndedAs(a, s)
    ensures |a + "\n"| >= 8193 ==> RecvHead(p, a + "\n" + b) == (p.(phase := Error, code := 414), b)
    ensures |a + "\n"| <= 8192 && (forall j: nat :: !SeparatorAt(s, j)) ==>
              RecvHead(p, a + "\n" + b) == (p.(phase := Error, code := 400), b)
  {
    hide RecvHead, Find;
    HeadLine(p, a, b);
    StripsEol(s);
    assert s + "\r\n" == s + "\r" + "\n";
    NotBlank(s, a);
    FindFirst(s, ": ", 0);
    if forall j: nat :: !SeparatorAt(s, j) {
      if Find(s, ": ", 0) >= 0 {
        SeparatorOccurs(s, Find(s, ": ", 0));
      }
    }
  }

  lemma NotBlank(s: string, a: string)
    requires s != "" && '\n' !in s && EndedAs(a, s)
    ensures !IsBlank(a + "\n")
  {
    assert (a + "\n")[0] == s[0];
    assert |a| >= 1 && (|a| == 1 ==> (a + "\n")[0] != '\r');
  }

  lemma HeaderSplits(k: string, v: string, a: string)
    requires '\n' !in k && '\n' !in v && EndedAs(a, k + ": " + v)
    requires forall j: nat :: j < |k| ==> !SeparatorAt(k + ": " + v, j)
    ensures ParseHead(a + "\n") == Some((k, v))
  {
    hide Find;
    var s := k + ": " + v;
    StripsEol(s);
    assert s + "\r\n" == s + "\r" + "\n";
    forall j: nat | j < |k|
      ensures !OccursAt(s, ": ", j)
    {
      SeparatorOccurs(s, j);
    }
    assert s[|k|] == ':' && s[|k| + 1] == ' ';
    SeparatorOccurs(s, |k|);
    FindIs(s, ": ", 0, |k|);
    assert s[..|k|] == k && s[|k| + 2..] == v;
  }

  /** Any other is split at the first ": ", and the field is kept unless its key is bound. */
  lemma HeadTaken(p: Parser, k: string, v: string, a: string, b: string)
    requires p.phase == Header && '\n' !in k && '\n' !in v && '\0' !in k && '\0' !in v
    requires EndedAs(a, k + ": " + v) && |a + "\n"| <= 8192
    requires forall j: nat :: j < |k| ==> !SeparatorAt(k + ": " + v, j)
    ensures var headers := p.req.headers;
            RecvHead(p, a + "\n" + b) ==
            RecvHead(p.(req := p.req.(headers := if k in headers then headers else headers[k := v])), b)
  {
    hide RecvHead, ParseHead, Insert, IsBlank, SeparatorAt;
    HeadLine(p, a, b);
    HeaderSplits(k, v, a);
    NotBlank(k + ": " + v, a);
    KeptOrBound(p.req.headers, k, v);
  }

  lemma KeptOrBound(headers: Table, k: string, v: string)
    ensures Insert(headers, k, v) == if k in headers then headers else headers[k := v]
  {
  }

  // ---------------------------------------------------------------- the body

  /** How many bytes belong to the body: none without a Content-Length field; otherwise what `stol`
      reads there, as an unsigned number of 64 bits; if it reads nothing, it throws. */
  lemma BodyExact(p: Parser, u: string)
    requires p.phase == Body && (p.req.body == "" || Resting(p))
    ensures var (headers, q) := (p.req.headers, RecvBody(p, u));
            && ("Content-Length" !in headers ==> q == (p.(phase := Over), u))
            && ("Content-Length" in headers ==>
                  match Stol(headers["Content-Length"])
                  case None => q == (p.(phase := Thrown), u)
                  case Some(n) =>
                    var length := if n < 0 then n + 0x1_0000_0000_0000_0000 else n;
                    var missing := length - |p.req.body|;
                    missing >= 0 &&
                    if |u| < missing then q == (p.(req := p.req.(body := p.req.body + u)), "")
                    else q == (p.(phase := Over, req := p.req.(body := p.req.body + u[..missing])), u[missing..]))
  {
    hide Stol;
    assert p.req.body + "" == p.req.body && u[..0] == "" && u[0..] == u;
  }

  // ---------------------------------------------------------------- whole requests

  ghost predicate PlainField(kv: (string, string)) {
    && '\n' !in kv.0 && '\n' !in kv.1 && '\0' !in kv.0 && '\0' !in kv.1
    && (forall j: nat :: !SeparatorAt(kv.0, j)) && |kv.0| + |kv.1| + 4 <= 8192
  }

  lemma PlainFieldOk(kv: (string, string))
    requires PlainField(kv)
    ensures HeaderOk(kv)
  {
    hide Find;
    FindFirst(kv.0, ": ", 0);
    if Find(kv.0, ": ", 0) >= 0 {
      SeparatorOccurs(kv.0, Find(kv.0, ": ", 0));
    }
  }

  /** Bytes that an encoder of the repository brings across. */
  predicate PlainText(s: string) {
    forall i :: 0 <= i < |s| ==> s[i] as int < 128 || s[i] as int == 255
  }

  predicate PlainQuery(kvs: seq<(string, string)>) {
    forall i :: 0 <= i < |kvs| ==> PlainText(kvs[i].0) && PlainText(kvs[i].1)
  }

  /** A request whose head any client may send. */
  ghost predicate PlainHead(w: Wire) {
    && AnyMethod(w.verb) && AnyVersion(w.version)
    && '?' !in w.path && '\n' !in w.path && '\0' !in w.path
    && (w.query.Some? ==> PlainQuery(w.query.value))
    && |RequestLineText(w)| <= 8192
    && forall i :: 0 <= i < |w.headers| ==> PlainField(w.headers[i])
  }

  predicate NoField(w: Wire, k: string) {
    forall i :: 0 <= i < |w.headers| ==> w.headers[i].0 != k
  }

  lemma PlainIsWellFormed(w: Wire)
    requires PlainHead(w) && Meaning(w).ContentLength() == Some(|w.body|)
    ensures WellFormed(w)
  {
    hide Meaning, RequestLineText, HeaderOk, PlainField, IsMethod, IsVersion, AnyMethod, AnyVersion;
    MethodTable(w.verb);
    VersionTable(w.version);
    if w.query.Some? {
      PlainDecodable(w.query.value, w.spaceToPlus);
    }
    forall i | 0 <= i < |w.headers|
      ensures HeaderOk(w.headers[i])
    {
      PlainFieldOk(w.headers[i]);
    }
  }

  lemma PlainDecodable(kvs: seq<(string, string)>, spaceToPlus: bool)
    requires PlainQuery(kvs)
    ensures Decodable(kvs, spaceToPlus)
  {
    forall i | 0 <= i < |kvs|
      ensures Survives(kvs[i].0, spaceToPlus, true) && Survives(kvs[i].1, spaceToPlus, true)
    {
      assert PlainText(kvs[i].0) && PlainText(kvs[i].1);
    }
  }

  /** A request without a Content-Length field ends with its head. */
  lemma NoLengthNoBody(w: Wire, rest: string)
    requires PlainHead(w) && NoField(w, "Content-Length") && w.body == ""
    ensures WellFormed(w) && Recv(START, WireText(w) + rest) == (Parser(Over, 0, Meaning(w)), rest)
  {
    hide PlainHead, WireText, Recv, InsertAll, WellFormed;
    FirstBindingWins(map[], w.headers, "Content-Length");
    assert Meaning(w).ContentLength() == Some(0);
    PlainIsWellFormed(w);
    WireParses(w, rest);
  }

  /** With one, the first such field tells, in decimal, where the body ends. */
  lemma LengthIsBody(w: Wire, rest: string, i: nat, digits: string)
    requires PlainHead(w) && BoundFirst(w.headers, "Content-Length", i)
    requires w.headers[i].1 == digits && digits != "" && (forall c :: c in digits ==> IsDigit(c))
    requires Value(digits) == |w.body| <= 0x7fff_ffff_ffff_ffff
    ensures WellFormed(w) && Recv(START, WireText(w) + rest) == (Parser(Over, 0, Meaning(w)), rest)
  {
    hide PlainHead, WireText, Recv, InsertAll, Value, Stol, WellFormed;
    FirstBindingWins(map[], w.headers, "Content-Length");
    StolExact("", "", digits, "");
    assert "" + ("" + (digits + "")) == digits;
    assert Meaning(w).ContentLength() == Some(|w.body|);
    PlainIsWellFormed(w);
    WireParses(w, rest);
  }

  /** What the handler is given, field by field. */
  lemma MeaningExact(w: Wire, k: string)
    ensures var r := Meaning(w);
            && r.url == w.path && r.version == w.version && r.body == w.body
            && |r.verb| == |w.verb| && (forall i :: 0 <= i < |w.verb| ==> r.verb[i] == ToUpper(w.verb[i]))
            && (forall i: nat :: BoundFirst(w.headers, k, i) ==> k in r.headers && r.headers[k] == w.headers[i].1)
            && (NoField(w, k) ==> k !in r.headers)
            && (forall i: nat :: w.query.Some? && BoundFirst(w.query.value, k, i) ==>
                  k in r.params && r.params[k] == w.query.value[i].1)
            && (w.query.None? ==> r.params == map[])
  {
    hide InsertAll;
    FirstBindingWins(map[], w.headers, k);
    if w.query.Some? {
      FirstBindingWins(map[], w.query.value, k);
    } else {
      NothingInserted();
    }
  }

  lemma NothingInserted()
    ensures InsertAll(map[], []) == map[]
  {
  }

  /** The first Connection field of the request is exactly "keep-alive". */
  ghost predicate AsksKeepAlive(w: Wire) {
    exists i: nat :: BoundFirst(w.headers, "Connection", i) && w.headers[i].1 == "keep-alive"
  }

  lemma {:induction false} FirstOrNone(pairs: seq<(string, string)>, k: string) returns (i: nat)
    ensures BoundFirst(pairs, k, i) || forall j :: 0 <= j < |pairs| ==> pairs[j].0 != k
    decreases |pairs|
  {
    i := 0;
    if pairs != [] && pairs[0].0 != k {
      i := FirstOrNone(pairs[1..], k);
      if BoundFirst(pairs[1..], k, i) {
        i := i + 1;
        assert forall j :: 0 < j < |pairs| ==> pairs[j] == pairs[1..][j - 1];
      } else {
        assert forall j :: 0 < j < |pairs| ==> pairs[j] == pairs[1..][j - 1];
      }
    }
  }

  /** A request closes the connection unless that field says so. */
  lemma CloseExact(w: Wire)
    ensures Meaning(w).Close() <==> !AsksKeepAlive(w)
  {
    hide InsertAll;
    FirstBindingWins(map[], w.headers, "Connection");
    var i := FirstOrNone(w.headers, "Connection");
    if AsksKeepAlive(w) {
      var j: nat :| BoundFirst(w.headers, "Connection", j) && w.headers[j].1 == "keep-alive";
      assert Meaning(w).headers["Connection"] == "keep-alive";
    } else if BoundFirst(w.headers, "Connection", i) {
      assert w.headers[i].1 != "keep-alive";
    }
  }
}
