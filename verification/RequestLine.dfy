/** `HttpContext::ParseHttpLine` (source/http.hpp): the pattern it matches a request line
    against, and the loop that reads the query string. */
module RequestLine {
  import opened Strings
  import opened UrlCodec
  import opened HttpMessage

  // ---------------------------------------------------------------- the pattern

  /** The groups of the pattern. Group 3 is empty when the optional part does not take part. */
  datatype Groups = Groups(verb: string, path: string, hasQuery: bool, query: string, version: string)

  predicate IsMethod(m: string) {
    var s := Upper(m);
    s == "GET" || s == "HEAD" || s == "POST" || s == "PUT" || s == "DELETE"
  }

  predicate IsVersion(v: string) {
    |v| == 8 && Upper(v[..7]) == "HTTP/1." && (v[7] == '0' || v[7] == '1')
  }

  predicate LegalGroups(g: Groups) {
    && IsMethod(g.verb)
    && '?' !in g.path
    && (!g.hasQuery ==> g.query == "")
    && '\n' !in g.query && '\r' !in g.query
    && IsVersion(g.version)
  }

  function Target(g: Groups): string {
    if g.hasQuery then g.path + "?" + g.query else g.path
  }

  function LineText(g: Groups, eol: string): string {
    g.verb + " " + Target(g) + " " + g.version + eol
  }

  predicate IsEol(eol: string) {
    eol == "" || eol == "\n" || eol == "\r\n"
  }

  /** The pattern read as a grammar. */
  ghost predicate Matches(line: string, g: Groups) {
    LegalGroups(g) && exists eol :: IsEol(eol) && line == LineText(g, eol)
  }

  function Eol(line: string): (eol: string)
    ensures IsEol(eol) && |eol| <= |line| && line == line[..|line| - |eol|] + eol
  {
    var n := |line|;
    if n >= 2 && line[n - 2] == '\r' && line[n - 1] == '\n' then "\r\n"
    else if n >= 1 && line[n - 1] == '\n' then "\n"
    else ""
  }

  function SplitTarget(t: string): (string, bool, string) {
    var q := IndexOf(t, '?');
    if q < 0 then (t, false, "") else (t[..q], true, t[q + 1..])
  }

  /** Room for a target between the first space and the version. */
  predicate HasShape(s: string, sp: int) {
    0 <= sp && sp + 10 <= |s| && s[|s| - 9] == ' '
  }

  function GroupsAt(s: string, sp: int): Groups
    requires HasShape(s, sp)
  {
    var (path, hasQuery, query) := SplitTarget(s[sp + 1..|s| - 9]);
    Groups(s[..sp], path, hasQuery, query, s[|s| - 8..])
  }

  /** `std::regex_match` for this pattern. */
  function MatchLine(line: string): Option<Groups> {
    var s := line[..|line| - |Eol(line)|];
    var sp := IndexOf(s, ' ');
    if HasShape(s, sp) && LegalGroups(GroupsAt(s, sp)) then Some(GroupsAt(s, sp)) else None
  }

  lemma NoSpaceInMethod(m: string)
    requires IsMethod(m)
    ensures ' ' !in m
  {
    assert forall i :: 0 <= i < |m| ==> Upper(m)[i] == ToUpper(m[i]);
  }

  lemma Reassemble(s: string, sp: nat)
    requires sp + 10 <= |s| && s[sp] == ' ' && s[|s| - 9] == ' '
    ensures s == s[..sp] + " " + s[sp + 1..|s| - 9] + " " + s[|s| - 8..]
  {
  }

  lemma TargetOfSplit(t: string)
    ensures var (path, hasQuery, query) := SplitTarget(t);
            (if hasQuery then path + "?" + query else path) == t
  {
  }

  lemma TextOfGroups(s: string, sp: nat, eol: string)
    requires HasShape(s, sp) && s[sp] == ' '
    ensures LineText(GroupsAt(s, sp), eol) == s + eol
  {
    TargetOfSplit(s[sp + 1..|s| - 9]);
    Reassemble(s, sp);
  }

  lemma MatchSound(line: string)
    requires MatchLine(line).Some?
    ensures Matches(line, MatchLine(line).value)
  {
    var eol := Eol(line);
    var s := line[..|line| - |eol|];
    TextOfGroups(s, IndexOf(s, ' '), eol);
    assert line == LineText(MatchLine(line).value, eol);
  }

  lemma EolOfText(s: string, eol: string)
    requires IsEol(eol) && s != "" && s[|s| - 1] != '\n' && s[|s| - 1] != '\r'
    ensures Eol(s + eol) == eol && (s + eol)[..|s|] == s
  {
  }

  lemma EolOf(g: Groups, eol: string)
    requires LegalGroups(g) && IsEol(eol)
    ensures var (line, s) := (LineText(g, eol), g.verb + " " + Target(g) + " " + g.version);
            Eol(line) == eol && line == s + eol && line[..|line| - |eol|] == s
  {
    var s := g.verb + " " + Target(g) + " " + g.version;
    assert s[|s| - 1] == g.version[7];
    EolOfText(s, eol);
  }

  lemma TargetSplits(g: Groups)
    requires LegalGroups(g)
    ensures SplitTarget(Target(g)) == (g.path, g.hasQuery, g.query)
  {
    var t := Target(g);
    if g.hasQuery {
      assert t[..|g.path|] == g.path && t[|g.path|] == '?';
      IndexOfIs(t, '?', |g.path|);
      assert t[|g.path| + 1..] == g.query;
    }
  }

  lemma Disassemble(verb: string, t: string, version: string)
    requires ' ' !in verb && |version| == 8
    ensures var s := verb + " " + t + " " + version;
            && IndexOf(s, ' ') == |verb| && HasShape(s, |verb|)
            && s[..|verb|] == verb && s[|verb| + 1..|s| - 9] == t && s[|s| - 8..] == version
  {
    var s := verb + " " + t + " " + version;
    assert s[..|verb|] == verb && s[|verb|] == ' ';
    IndexOfIs(s, ' ', |verb|);
  }

  /** The parts of a text give the groups back. */
  lemma PartsMake(s: string, g: Groups, target: string)
    requires SplitTarget(target) == (g.path, g.hasQuery, g.query)
    requires HasShape(s, |g.verb|) && s[..|g.verb|] == g.verb && s[|s| - 8..] == g.version
    requires s[|g.verb| + 1..|s| - 9] == target
    ensures GroupsAt(s, |g.verb|) == g
  {
    hide SplitTarget;
  }

  lemma GroupsOfParts(g: Groups, target: string)
    requires ' ' !in g.verb && |g.version| == 8 && SplitTarget(target) == (g.path, g.hasQuery, g.query)
    ensures var s := g.verb + " " + target + " " + g.version;
            var sp := IndexOf(s, ' ');
            HasShape(s, sp) && GroupsAt(s, sp) == g
  {
    hide SplitTarget, IndexOf, HasShape, GroupsAt;
    Disassemble(g.verb, target, g.version);
    PartsMake(g.verb + " " + target + " " + g.version, g, target);
  }

  lemma GroupsOfText(g: Groups)
    requires LegalGroups(g)
    ensures var s := g.verb + " " + Target(g) + " " + g.version;
            var sp := IndexOf(s, ' ');
            HasShape(s, sp) && GroupsAt(s, sp) == g
  {
    NoSpaceInMethod(g.verb);
    TargetSplits(g);
    hide Target, SplitTarget, IndexOf, HasShape, GroupsAt;
    GroupsOfParts(g, Target(g));
  }

  lemma MatchComplete(g: Groups, eol: string)
    requires LegalGroups(g) && IsEol(eol)
    ensures MatchLine(LineText(g, eol)) == Some(g)
  {
    EolOf(g, eol);
    GroupsOfText(g);
  }

  /** The matcher accepts exactly the lines of the grammar, which never leaves a choice of groups. */
  lemma MatchExact(line: string, g: Groups)
    ensures MatchLine(line) == Some(g) <==> Matches(line, g)
  {
    if MatchLine(line) == Some(g) {
      MatchSound(line);
    }
    if Matches(line, g) {
      var eol :| IsEol(eol) && line == LineText(g, eol);
      MatchComplete(g, eol);
    }
  }

  // ---------------------------------------------------------------- the query

  /** The loop over the pieces of a query; false at the first piece without '='. */
  function AddParams(pieces: seq<string>, params: Table): (bool, Table) {
    if pieces == [] then (true, params)
    else
      var p := pieces[0];
      var pos := IndexOf(p, '=');
      if pos < 0 then (false, params)
      else AddParams(pieces[1..], Insert(params, Decode(p[..pos], true), Decode(p[pos + 1..], true)))
  }

  /** `ParseHttpLine`: a line that does not match leaves the request alone, a bad query leaves
      it partly filled. */
  function ParseLine(req: Request, line: string): (bool, Request) {
    match MatchLine(line)
    case None => (false, req)
    case Some(g) =>
      var (ok, params) := AddParams(Pieces(g.query, "&"), req.params);
      (ok, req.(verb := Upper(g.verb), url := g.path, version := g.version, params := params))
  }

  lemma NoParams()
    ensures AddParams(Pieces("", "&"), map[]) == (true, map[])
  {
  }

  function QueryPiece(kv: (string, string), spaceToPlus: bool): string {
    Encode(kv.0, spaceToPlus) + "=" + Encode(kv.1, spaceToPlus)
  }

  function QueryPieces(kvs: seq<(string, string)>, spaceToPlus: bool): (ps: seq<string>)
    ensures |ps| == |kvs| && forall i :: 0 <= i < |ps| ==> ps[i] == QueryPiece(kvs[i], spaceToPlus)
  {
    seq(|kvs|, i requires 0 <= i < |kvs| => QueryPiece(kvs[i], spaceToPlus))
  }

  /** The query text a client sends for a list of keys and values. */
  function QueryText(kvs: seq<(string, string)>, spaceToPlus: bool): string {
    Join(QueryPieces(kvs, spaceToPlus), '&')
  }

  predicate Decodable(kvs: seq<(string, string)>, spaceToPlus: bool) {
    forall i :: 0 <= i < |kvs| ==>
      Survives(kvs[i].0, spaceToPlus, true) && Survives(kvs[i].1, spaceToPlus, true)
  }

  lemma QueryPieceParses(kv: (string, string), spaceToPlus: bool)
    requires Survives(kv.0, spaceToPlus, true) && Survives(kv.1, spaceToPlus, true)
    ensures var p := QueryPiece(kv, spaceToPlus);
            var pos := IndexOf(p, '=');
            pos >= 0 && Decode(p[..pos], true) == kv.0 && Decode(p[pos + 1..], true) == kv.1
  {
    hide Decode, Encode, IndexOf, Survives, CleanChar;
    var k, v := Encode(kv.0, spaceToPlus), Encode(kv.1, spaceToPlus);
    var p := QueryPiece(kv, spaceToPlus);
    NoEquals(kv.0, spaceToPlus);
    assert p[..|k|] == k && p[|k|] == '=' && p[|k| + 1..] == v;
    IndexOfIs(p, '=', |k|);
    RoundTrip(kv.0, spaceToPlus, true);
    RoundTrip(kv.1, spaceToPlus, true);
  }

  lemma NoEquals(s: string, spaceToPlus: bool)
    ensures '=' !in Encode(s, spaceToPlus)
  {
    hide Encode;
    EncodedShape(s, spaceToPlus);
  }

  lemma {:induction false} ParamsParse(kvs: seq<(string, string)>, spaceToPlus: bool, params: Table)
    requires Decodable(kvs, spaceToPlus)
    ensures AddParams(QueryPieces(kvs, spaceToPlus), params) == (true, InsertAll(params, kvs))
  {
    hide Decode, Encode, IndexOf;
    if kvs != [] {
      QueryPieceParses(kvs[0], spaceToPlus);
      assert QueryPieces(kvs, spaceToPlus)[1..] == QueryPieces(kvs[1..], spaceToPlus);
      ParamsParse(kvs[1..], spaceToPlus, Insert(params, kvs[0].0, kvs[0].1));
    }
  }

  lemma CleanPiece(kv: (string, string), spaceToPlus: bool)
    ensures var p := QueryPiece(kv, spaceToPlus);
            p != "" && forall c :: c in p ==> CleanChar(c) || c == '='
  {
    EncodedShape(kv.0, spaceToPlus);
    EncodedShape(kv.1, spaceToPlus);
  }

  /** The query round trip: what `Split`, `find` and `UrlDecode` make of an encoded query is the
      table in which the first binding of each key wins. */
  lemma QueryRoundTrip(kvs: seq<(string, string)>, spaceToPlus: bool, params: Table)
    requires Decodable(kvs, spaceToPlus)
    ensures AddParams(Pieces(QueryText(kvs, spaceToPlus), "&"), params) == (true, InsertAll(params, kvs))
  {
    var ps := QueryPieces(kvs, spaceToPlus);
    forall i | 0 <= i < |ps|
      ensures ps[i] != "" && '&' !in ps[i]
    {
      CleanPiece(kvs[i], spaceToPlus);
    }
    PiecesOfJoin(ps, '&');
    ParamsParse(kvs, spaceToPlus, params);
  }

  lemma {:induction false} CleanJoin(ps: seq<string>)
    requires forall i :: 0 <= i < |ps| ==> forall c :: c in ps[i] ==> CleanChar(c) || c == '='
    ensures forall c :: c in Join(ps, '&') ==> CleanChar(c) || c == '=' || c == '&'
  {
    if |ps| > 1 {
      CleanJoin(ps[1..]);
    }
  }

  lemma CleanQuery(kvs: seq<(string, string)>, spaceToPlus: bool)
    ensures forall c :: c in QueryText(kvs, spaceToPlus) ==> CleanChar(c) || c == '=' || c == '&'
  {
    var ps := QueryPieces(kvs, spaceToPlus);
    forall i | 0 <= i < |ps|
      ensures forall c :: c in ps[i] ==> CleanChar(c) || c == '='
    {
      CleanPiece(kvs[i], spaceToPlus);
    }
    CleanJoin(ps);
  }

  // ---------------------------------------------------------------- the pattern, spelled out

  /** `s` is a word in any mix of upper and lower case. */
  predicate Cased(s: string, up: string, low: string) {
    |s| == |up| == |low| && forall i :: 0 <= i < |s| ==> s[i] == up[i] || s[i] == low[i]
  }

  predicate AnyMethod(s: string) {
    Cased(s, "GET", "get") || Cased(s, "HEAD", "head") || Cased(s, "POST", "post")
    || Cased(s, "PUT", "put") || Cased(s, "DELETE", "delete")
  }

  predicate AnyVersion(s: string) {
    Cased(s, "HTTP/1.0", "http/1.0") || Cased(s, "HTTP/1.1", "http/1.1")
  }

  /** Letter for letter, `low` is the lower case of `up`. */
  predicate Casing(up: string, low: string) {
    |up| == |low| && forall i :: 0 <= i < |up| ==> forall c :: c == up[i] || c == low[i] <==> ToUpper(c) == up[i]
  }

  lemma CasedUpper(s: string, up: string, low: string)
    requires Casing(up, low)
    ensures Cased(s, up, low) <==> Upper(s) == up
  {
    hide ToUpper;
    if Cased(s, up, low) {
      assert forall i :: 0 <= i < |s| ==> Upper(s)[i] == ToUpper(s[i]) == up[i];
    }
    if Upper(s) == up {
      assert forall i :: 0 <= i < |s| ==> ToUpper(s[i]) == Upper(s)[i] == up[i];
    }
  }

  /** Exactly the five methods, in any letter case. */
  lemma MethodTable(m: string)
    ensures IsMethod(m) <==> AnyMethod(m)
    ensures Cased(m, "GET", "get") ==> Upper(m) == "GET"
    ensures Cased(m, "HEAD", "head") ==> Upper(m) == "HEAD"
    ensures Cased(m, "POST", "post") ==> Upper(m) == "POST"
    ensures Cased(m, "PUT", "put") ==> Upper(m) == "PUT"
    ensures Cased(m, "DELETE", "delete") ==> Upper(m) == "DELETE"
  {
    CasedUpper(m, "GET", "get");
    CasedUpper(m, "HEAD", "head");
    CasedUpper(m, "POST", "post");
    CasedUpper(m, "PUT", "put");
    CasedUpper(m, "DELETE", "delete");
    hide Cased, Upper, ToUpper;
  }

  /** And the two versions. */
  lemma VersionTable(v: string)
    ensures IsVersion(v) <==> AnyVersion(v)
  {
    if |v| == 8 {
      CasedUpper(v[..7], "HTTP/1.", "http/1.");
      assert v == v[..7] + [v[7]];
    }
  }

  /** The request lines of the pattern, without any other definition of this module: accepted is
      what has this text, with these groups. */
  lemma PatternExact(line: string, g: Groups)
    ensures MatchLine(line) == Some(g) <==>
            && AnyMethod(g.verb) && AnyVersion(g.version)
            && '?' !in g.path && '\n' !in g.query && '\r' !in g.query && (g.hasQuery || g.query == "")
            && var text := g.verb + " " + (if g.hasQuery then g.path + "?" + g.query else g.path) + " " + g.version;
               line == text || line == text + "\n" || line == text + "\r\n"
  {
    hide MatchLine, AnyMethod, AnyVersion, IsMethod, IsVersion;
    MatchExact(line, g);
    MethodTable(g.verb);
    VersionTable(g.version);
    var text := g.verb + " " + Target(g) + " " + g.version;
    assert LineText(g, "") == text && LineText(g, "\n") == text + "\n" && LineText(g, "\r\n") == text + "\r\n";
  }

  // ---------------------------------------------------------------- the query, piece by piece

  /** The first '=' of a piece separates key and value, and both are decoded. */
  lemma PieceTaken(k: string, v: string, pieces: seq<string>, params: Table)
    requires '=' !in k
    ensures AddParams([k + "=" + v] + pieces, params)
         == AddParams(pieces, Insert(params, Decode(k, true), Decode(v, true)))
  {
    hide Decode;
    var p := k + "=" + v;
    assert p[..|k|] == k && p[|k| + 1..] == v;
    IndexOfIs(p, '=', |k|);
    assert ([p] + pieces)[1..] == pieces;
  }

  /** A query is accepted if and only if each of its pieces has a '='. */
  lemma {:induction false} QueryAccepted(pieces: seq<string>, params: Table)
    ensures AddParams(pieces, params).0 <==> forall i :: 0 <= i < |pieces| ==> '=' in pieces[i]
    decreases |pieces|
  {
    hide Decode;
    if pieces != [] {
      var p := pieces[0];
      var pos := IndexOf(p, '=');
      if pos >= 0 {
        assert p[pos] in p;
        QueryAccepted(pieces[1..], Insert(params, Decode(p[..pos], true), Decode(p[pos + 1..], true)));
        assert forall i :: 1 <= i < |pieces| ==> pieces[i] == pieces[1..][i - 1];
      }
    }
  }

  function RawPieces(kvs: seq<(string, string)>): (ps: seq<string>)
    ensures |ps| == |kvs| && forall i :: 0 <= i < |ps| ==> ps[i] == kvs[i].0 + "=" + kvs[i].1
  {
    seq(|kvs|, i requires 0 <= i < |kvs| => kvs[i].0 + "=" + kvs[i].1)
  }

  function DecodeAll(kvs: seq<(string, string)>): seq<(string, string)> {
    if kvs == [] then []
    else [(Decode(kvs[0].0, true), Decode(kvs[0].1, true))] + DecodeAll(kvs[1..])
  }

  lemma {:induction false} RawParams(kvs: seq<(string, string)>, params: Table)
    requires forall i :: 0 <= i < |kvs| ==> '=' !in kvs[i].0
    ensures AddParams(RawPieces(kvs), params) == (true, InsertAll(params, DecodeAll(kvs)))
    decreases |kvs|
  {
    hide Decode, AddParams;
    if kvs == [] {
      assert AddParams([], params) == (true, params) by {
        NoPieces(params);
      }
    } else {
      var rest := RawPieces(kvs[1..]);
      var k, v := kvs[0].0, kvs[0].1;
      assert RawPieces(kvs) == [k + "=" + v] + rest;
      PieceTaken(k, v, rest, params);
      RawParams(kvs[1..], Insert(params, Decode(k, true), Decode(v, true)));
    }
  }

  lemma NoPieces(params: Table)
    ensures AddParams([], params) == (true, params)
  {
  }

  /** Any query, encoded by whatever client: pairs joined by '=' and '&' give the table of their
      decoded keys and values, in which the first binding of each key wins. */
  lemma QueryExact(kvs: seq<(string, string)>, params: Table)
    requires forall i :: 0 <= i < |kvs| ==> '=' !in kvs[i].0 && '&' !in kvs[i].0 && '&' !in kvs[i].1
    ensures AddParams(Pieces(Join(RawPieces(kvs), '&'), "&"), params) == (true, InsertAll(params, DecodeAll(kvs)))
  {
    hide Pieces, AddParams, DecodeAll;
    PiecesOfJoin(RawPieces(kvs), '&');
    RawParams(kvs, params);
  }

  /** What a matched line makes of the request. */
  lemma LineFills(req: Request, line: string, g: Groups)
    requires MatchLine(line) == Some(g)
    ensures var (ok, r) := ParseLine(req, line);
            && (ok, r.params) == AddParams(Pieces(g.query, "&"), req.params)
            && r.url == g.path && r.version == g.version && |r.verb| == |g.verb|
            && (forall i :: 0 <= i < |g.verb| ==> r.verb[i] == ToUpper(g.verb[i]))
            && r.body == req.body && r.headers == req.headers
  {
    hide MatchLine, AddParams, Pieces;
  }
}
