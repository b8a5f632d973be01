/** `Util::Split`, `Util::UrlEncode` and `Util::UrlDecode` (source/http.hpp). */
module UrlCodec {
  import opened Strings

  // ---------------------------------------------------------------- Split

  /** The non-empty pieces of `src` between occurrences of `deli`, from `offset` on. */
  function Pieces(src: string, deli: string, offset: nat := 0): seq<string>
    requires deli != "" && offset <= |src|
    decreases |src| - offset
  {
    if offset == |src| then []
    else
      var pos := Find(src, deli, offset);
      if pos < 0 then [src[offset..]]
      else if pos == offset then Pieces(src, deli, pos + |deli|)
      else [src[offset..pos]] + Pieces(src, deli, pos + |deli|)
  }

  /** The source loops forever on an empty delimiter, which no caller passes. */
  method Split(src: string, deli: string) returns (v: seq<string>)
    requires deli != ""
    ensures v == Pieces(src, deli)
  {
    hide Find;
    v := [];
    var offset := 0;
    while offset < |src|
      invariant 0 <= offset <= |src|
      invariant v + Pieces(src, deli, offset) == Pieces(src, deli)
    {
      var pos := Find(src, deli, offset);
      if pos < 0 {
        return v + [src[offset..]];
      }
      if pos - offset != 0 {
        Assoc(v, [src[offset..pos]], Pieces(src, deli, pos + |deli|));
        v := v + [src[offset..pos]];
      }
      offset := pos + |deli|;
    }
  }

  lemma PiecesAt(s: string, deli: string, offset: nat, pos: nat, next: nat)
    requires deli != "" && offset < |s| && Find(s, deli, offset) == pos && next == pos + |deli|
    ensures next <= |s|
    ensures Pieces(s, deli, offset)
         == if pos == offset then Pieces(s, deli, next) else [s[offset..pos]] + Pieces(s, deli, next)
  {
  }

  lemma {:induction false} PiecesShift(a: string, s: string, deli: string, offset: nat)
    requires deli != "" && offset <= |s|
    ensures Pieces(a + s, deli, |a| + offset) == Pieces(s, deli, offset)
    decreases |s| - offset
  {
    hide Find;
    FindShift(a, s, deli, offset);
    var pos, t, o := Find(s, deli, offset), a + s, |a| + offset;
    if offset < |s| && pos < 0 {
      assert t[o..] == s[offset..];
    } else if offset < |s| {
      var pos', next := |a| + pos, pos + |deli|;
      assert t[o..pos'] == s[offset..pos];
      assert Find(t, deli, o) == pos';
      PiecesAt(t, deli, o, pos', |a| + next);
      PiecesAt(s, deli, offset, pos, next);
      PiecesShift(a, s, deli, next);
    }
  }

  function Join(ps: seq<string>, c: char): string {
    if ps == [] then ""
    else if |ps| == 1 then ps[0]
    else ps[0] + [c] + Join(ps[1..], c)
  }

  lemma PiecesCons(p: string, c: char, t: string)
    requires p != "" && c !in p
    ensures Pieces(p + [c] + t, [c]) == [p] + Pieces(t, [c])
  {
    var s, n := p + [c] + t, |p|;
    forall j: nat | j < n
      ensures !OccursAt(s, [c], j)
    {
      assert [c][0] == c && s[j] == p[j];
    }
    FindIs(s, [c], 0, n);
    assert Pieces(s, [c]) == [s[..n]] + Pieces(s, [c], n + 1);
    assert s[..n] == p;
    PiecesShift(p + [c], t, [c], 0);
  }

  lemma PiecesOfOne(p: string, c: char)
    requires p != "" && c !in p
    ensures Pieces(p, [c]) == [p]
  {
    FindFirst(p, [c], 0);
    assert Find(p, [c], 0) < 0 by {
      forall j: nat | j < |p|
        ensures !OccursAt(p, [c], j)
      {
        assert [c][0] == c;
      }
    }
  }

  /** `Split` undoes joining, for pieces that are not empty and do not hold the delimiter. */
  lemma {:induction false} PiecesOfJoin(ps: seq<string>, c: char)
    requires forall i :: 0 <= i < |ps| ==> ps[i] != "" && c !in ps[i]
    ensures Pieces(Join(ps, c), [c]) == ps
  {
    if |ps| == 1 {
      PiecesOfOne(ps[0], c);
    } else if |ps| > 1 {
      PiecesCons(ps[0], c, Join(ps[1..], c));
      PiecesOfJoin(ps[1..], c);
    }
  }

  // ---------------------------------------------------------------- percent-encoding

  predicate IsAlnum(c: char) { IsUpper(c) || IsLower(c) || IsDigit(c) }

  /** The unreserved characters of section 2.3 of RFC 3986. */
  predicate Unreserved(c: char) { c in ".-_~" || IsAlnum(c) }

  function HexDigit(d: nat): char
    requires d < 16
  {
    if d < 10 then '0' + d as char else 'a' + (d - 10) as char
  }

  /** `snprintf(tmp, 4, "%%%02x", c)` with a signed `char`: from 128 up the promoted value is
      negative, prints as ffffff80 and above, and is cut after three characters. */
  function Percent(c: char): string {
    if c as int < 128 then ['%', HexDigit(c as int / 16), HexDigit(c as int % 16)] else "%ff"
  }

  function EncodeChar(c: char, spaceToPlus: bool): string {
    if Unreserved(c) then [c]
    else if spaceToPlus && c == ' ' then "+"
    else Percent(c)
  }

  function Encode(s: string, spaceToPlus: bool): string {
    if s == "" then "" else EncodeChar(s[0], spaceToPlus) + Encode(s[1..], spaceToPlus)
  }

  lemma EncodeStep(res: string, s: string, spaceToPlus: bool)
    requires s != ""
    ensures res + Encode(s, spaceToPlus)
         == (res + EncodeChar(s[0], spaceToPlus)) + Encode(s[1..], spaceToPlus)
  {
  }

  method UrlEncode(url: string, spaceToPlus: bool) returns (res: string)
    ensures res == Encode(url, spaceToPlus)
  {
    res := "";
    var i := 0;
    while i < |url|
      invariant 0 <= i <= |url|
      invariant res + Encode(url[i..], spaceToPlus) == Encode(url, spaceToPlus)
    {
      EncodeStep(res, url[i..], spaceToPlus);
      assert url[i..][1..] == url[i + 1..];
      if Unreserved(url[i]) {
        res := res + [url[i]];
      } else if spaceToPlus && url[i] == ' ' {
        res := res + "+";
      } else {
        res := res + Percent(url[i]);
      }
      i := i + 1;
    }
  }

  function HexToI(c: char): int {
    if IsUpper(c) then c as int - 'A' as int + 10
    else if IsLower(c) then c as int - 'a' as int + 10
    else if IsDigit(c) then c as int - '0' as int
    else -1
  }

  /** `(HexToI(hi) << 4) + HexToI(lo)` stored into a `char`. */
  function HexByte(hi: char, lo: char): char {
    ((HexToI(hi) * 16 + HexToI(lo)) % 256) as char
  }

  function Decode(s: string, plusToSpace: bool): string
    decreases |s|
  {
    if s == "" then ""
    else if s[0] == '%' && 2 < |s| then [HexByte(s[1], s[2])] + Decode(s[3..], plusToSpace)
    else if plusToSpace && s[0] == '+' then " " + Decode(s[1..], plusToSpace)
    else [s[0]] + Decode(s[1..], plusToSpace)
  }

  lemma DecodeStep(res: string, s: string, plusToSpace: bool)
    requires s != ""
    ensures res + Decode(s, plusToSpace)
         == if s[0] == '%' && 2 < |s| then res + [HexByte(s[1], s[2])] + Decode(s[3..], plusToSpace)
            else if plusToSpace && s[0] == '+' then res + " " + Decode(s[1..], plusToSpace)
            else res + [s[0]] + Decode(s[1..], plusToSpace)
  {
  }

  method UrlDecode(url: string, plusToSpace: bool) returns (res: string)
    ensures res == Decode(url, plusToSpace)
  {
    res := "";
    var i := 0;
    while i < |url|
      invariant 0 <= i <= |url|
      invariant res + Decode(url[i..], plusToSpace) == Decode(url, plusToSpace)
    {
      DecodeStep(res, url[i..], plusToSpace);
      if url[i] == '%' && i + 2 < |url| {
        assert url[i..][3..] == url[i + 3..];
        res := res + [HexByte(url[i + 1], url[i + 2])];
        i := i + 2;
      } else if plusToSpace && url[i] == '+' {
        res := res + " ";
      } else {
        res := res + [url[i]];
      }
      i := i + 1;
    }
  }

  // ---------------------------------------------------------------- round trip

  /** What one byte comes back as. */
  function Image(c: char, spaceToPlus: bool, plusToSpace: bool): char {
    if c == ' ' && spaceToPlus && !plusToSpace then '+'
    else if c as int < 128 then c
    else 255 as char
  }

  lemma HexOfPercent(c: char)
    ensures var p := Percent(c);
            |p| == 3 && p[0] == '%' && HexByte(p[1], p[2]) == (if c as int < 128 then c else 255 as char)
  {
    assert c as int < 128 ==> c as int / 16 * 16 + c as int % 16 == c as int;
  }

  lemma DecodeEncodedChar(c: char, t: string, spaceToPlus: bool, plusToSpace: bool)
    ensures Decode(EncodeChar(c, spaceToPlus) + t, plusToSpace)
         == [Image(c, spaceToPlus, plusToSpace)] + Decode(t, plusToSpace)
  {
    var e := EncodeChar(c, spaceToPlus);
    var s := e + t;
    if Unreserved(c) || (spaceToPlus && c == ' ') {
      assert s[0] == e[0] && s[1..] == t;
    } else {
      HexOfPercent(c);
      assert s[0] == '%' && s[1] == e[1] && s[2] == e[2] && s[3..] == t;
    }
  }

  lemma {:induction false} DecodeEncode(s: string, spaceToPlus: bool, plusToSpace: bool)
    ensures Decode(Encode(s, spaceToPlus), plusToSpace)
         == seq(|s|, i requires 0 <= i < |s| => Image(s[i], spaceToPlus, plusToSpace))
  {
    if s != "" {
      DecodeEncodedChar(s[0], Encode(s[1..], spaceToPlus), spaceToPlus, plusToSpace);
      DecodeEncode(s[1..], spaceToPlus, plusToSpace);
    }
  }

  /** What a caller can check before encoding. Of the bytes with the top bit set only 255 is
      printed as its own value; a space sent as '+' needs a decoder that knows. */
  predicate Survives(s: string, spaceToPlus: bool, plusToSpace: bool) {
    forall i :: 0 <= i < |s| ==>
      (s[i] as int < 128 || s[i] as int == 255) && (spaceToPlus && !plusToSpace ==> s[i] != ' ')
  }

  /** The URL round trip holds for exactly the strings that survive. */
  lemma RoundTrip(s: string, spaceToPlus: bool, plusToSpace: bool)
    ensures Decode(Encode(s, spaceToPlus), plusToSpace) == s
       <==> Survives(s, spaceToPlus, plusToSpace)
  {
    DecodeEncode(s, spaceToPlus, plusToSpace);
    var d := Decode(Encode(s, spaceToPlus), plusToSpace);
    assert forall i :: 0 <= i < |s| ==> d[i] == Image(s[i], spaceToPlus, plusToSpace);
  }

  /** Encoding is injective on seven-bit strings (and the byte 255), whatever is done to spaces. */
  lemma EncodeInjective(s: string, t: string, spaceToPlus: bool)
    requires Survives(s, spaceToPlus, true) && Survives(t, spaceToPlus, true)
    requires Encode(s, spaceToPlus) == Encode(t, spaceToPlus)
    ensures s == t
  {
    RoundTrip(s, spaceToPlus, true);
    RoundTrip(t, spaceToPlus, true);
  }

  /** Outside that domain it is not: two different bytes share one code. */
  lemma EncodeCollides(spaceToPlus: bool)
    ensures Encode([200 as char], spaceToPlus) == Encode([201 as char], spaceToPlus)
  {
    assert [200 as char][1..] == "" && [201 as char][1..] == "";
  }

  predicate IsHex(c: char) { IsDigit(c) || 'a' <= c <= 'f' }

  /** Encoded text is a run of unreserved characters, '+' and %hh triples
      (section 2.1 of RFC 3986). */
  predicate WellEncoded(e: string)
    decreases |e|
  {
    || e == ""
    || ((Unreserved(e[0]) || e[0] == '+') && WellEncoded(e[1..]))
    || (e[0] == '%' && 2 < |e| && IsHex(e[1]) && IsHex(e[2]) && WellEncoded(e[3..]))
  }

  predicate CleanChar(c: char) { Unreserved(c) || c == '+' || c == '%' }

  lemma {:induction false} EncodedShape(s: string, spaceToPlus: bool)
    ensures WellEncoded(Encode(s, spaceToPlus))
    ensures forall c :: c in Encode(s, spaceToPlus) ==> CleanChar(c)
    ensures !spaceToPlus ==> '+' !in Encode(s, spaceToPlus)
  {
    if s != "" {
      EncodedShape(s[1..], spaceToPlus);
      var e, t := EncodeChar(s[0], spaceToPlus), Encode(s[1..], spaceToPlus);
      assert forall c :: c in e ==> CleanChar(c) && (spaceToPlus || c != '+');
      if |e| == 1 {
        assert (e + t)[1..] == t;
      } else {
        assert (e + t)[3..] == t;
      }
    }
  }

  // ---------------------------------------------------------------- tables

  /** `Split`, for any delimiter: what has none is one piece, or none at all if it is empty. */
  lemma PiecesOfLast(a: string, deli: string)
    requires deli != "" && forall j: nat :: !OccursAt(a, deli, j)
    ensures Pieces(a, deli) == if a == "" then [] else [a]
  {
    FindFirst(a, deli, 0);
    assert a[0..] == a;
  }

  /** Otherwise the piece in front of the first delimiter, unless that is empty, and then the pieces
      behind it. */
  lemma PiecesOfFirst(a: string, deli: string, t: string)
    requires deli != "" && forall j: nat :: j < |a| ==> !OccursAt(a + deli + t, deli, j)
    ensures Pieces(a + deli + t, deli) == (if a == "" then [] else [a]) + Pieces(t, deli)
  {
    hide Find, Pieces;
    var s := a + deli + t;
    DelimiterAt(a, deli, t);
    FindIs(s, deli, 0, |a|);
    PiecesAt(s, deli, 0, |a|, |a| + |deli|);
    PiecesShift(a + deli, t, deli, 0);
    assert s[0..|a|] == a;
  }

  lemma DelimiterAt(a: string, deli: string, t: string)
    ensures OccursAt(a + deli + t, deli, |a|)
  {
    assert forall k :: 0 <= k < |deli| ==> (a + deli + t)[|a| + k] == deli[k];
  }

  lemma AlnumTable(c: char)
    ensures IsUpper(c) <==> c in "ABCDEFGHIJKLMNOPQRSTUVWXYZ"
    ensures IsLower(c) <==> c in "abcdefghijklmnopqrstuvwxyz"
  {
    var up, low := "ABCDEFGHIJKLMNOPQRSTUVWXYZ", "abcdefghijklmnopqrstuvwxyz";
    assert forall i :: 0 <= i < 26 ==> up[i] == 'A' + i as char && low[i] == 'a' + i as char;
    if IsUpper(c) {
      assert c == up[c as int - 'A' as int];
    } else if IsLower(c) {
      assert c == low[c as int - 'a' as int];
    }
  }

  /** The unreserved characters, by name. */
  lemma UnreservedTable(c: char)
    ensures Unreserved(c) <==>
            || c in "ABCDEFGHIJKLMNOPQRSTUVWXYZ" || c in "abcdefghijklmnopqrstuvwxyz"
            || c in "0123456789" || c in "-._~"
  {
    hide IsUpper, IsLower, IsDigit;
    AlnumTable(c);
    DigitTable(c);
  }

  lemma HexTable()
    ensures var hex := "0123456789abcdef";
            |hex| == 16 && forall d :: 0 <= d < 16 ==> HexDigit(d) == hex[d]
  {
  }

  /** `UrlEncode`, byte by byte. */
  lemma EncodeExact(c: char, t: string, spaceToPlus: bool)
    ensures Encode("", spaceToPlus) == ""
    ensures var hex := "0123456789abcdef";
            Encode([c] + t, spaceToPlus) ==
            (if c in "ABCDEFGHIJKLMNOPQRSTUVWXYZ" || c in "abcdefghijklmnopqrstuvwxyz"
                || c in "0123456789" || c in "-._~" then [c]
             else if c == ' ' && spaceToPlus then "+"
             else if c as int < 128 then ['%', hex[c as int / 16], hex[c as int % 16]]
             else "%ff") + Encode(t, spaceToPlus)
  {
    hide Unreserved, HexDigit;
    UnreservedTable(c);
    HexTable();
    assert ([c] + t)[1..] == t;
  }

  /** `HexToI`, character by character; letters behind f go on counting. */
  lemma HexToITable(c: char)
    ensures var (ds, low, up) := ("0123456789", "abcdefghijklmnopqrstuvwxyz", "ABCDEFGHIJKLMNOPQRSTUVWXYZ");
            && (forall i :: 0 <= i < 10 ==> HexToI(ds[i]) == i)
            && (forall i :: 0 <= i < 26 ==> HexToI(low[i]) == 10 + i && HexToI(up[i]) == 10 + i)
            && (c !in ds && c !in low && c !in up ==> HexToI(c) == -1)
  {
    var ds, low, up := "0123456789", "abcdefghijklmnopqrstuvwxyz", "ABCDEFGHIJKLMNOPQRSTUVWXYZ";
    assert forall i :: 0 <= i < 26 ==> up[i] == 'A' + i as char && low[i] == 'a' + i as char;
    assert forall i :: 0 <= i < 10 ==> ds[i] == '0' + i as char;
    if IsUpper(c) {
      assert c == up[c as int - 'A' as int];
    } else if IsLower(c) {
      assert c == low[c as int - 'a' as int];
    } else if IsDigit(c) {
      assert c == ds[c as int - '0' as int];
    }
  }

  /** A hex digit of `d`, in either case. */
  predicate HexOf(c: char, d: nat) {
    d < 16 && (c == "0123456789abcdef"[d] || c == "0123456789ABCDEF"[d])
  }

  lemma HexOfValue(c: char, d: nat)
    requires HexOf(c, d)
    ensures HexToI(c) == d
  {
    HexToITable(c);
    var ds, low, up := "0123456789", "abcdefghijklmnopqrstuvwxyz", "ABCDEFGHIJKLMNOPQRSTUVWXYZ";
    if d < 10 {
      assert c == ds[d];
    } else {
      assert c == low[d - 10] || c == up[d - 10];
    }
  }

  /** Every byte has its triples: both hex digits in either case decode to it. */
  lemma TripleDecodes(n: nat, hi: char, lo: char, t: string, plusToSpace: bool)
    requires n < 256 && HexOf(hi, n / 16) && HexOf(lo, n % 16)
    ensures Decode(['%', hi, lo] + t, plusToSpace) == [n as char] + Decode(t, plusToSpace)
  {
    hide HexToI, HexOf;
    HexOfValue(hi, n / 16);
    HexOfValue(lo, n % 16);
    assert (['%', hi, lo] + t)[3..] == t;
  }

  /** Encoded text piece by piece: a byte of its own, or a triple for the byte `n`. */
  datatype Coded = Plain(c: char) | Triple(n: nat, hi: char, lo: char)
  {
    predicate Ok() {
      match this
      case Plain(c) => c != '%'
      case Triple(n, hi, lo) => n < 256 && HexOf(hi, n / 16) && HexOf(lo, n % 16)
    }

    function Text(): string {
      match this
      case Plain(c) => [c]
      case Triple(_, hi, lo) => ['%', hi, lo]
    }

    function Byte(plusToSpace: bool): char
      requires Ok()
    {
      match this
      case Plain(c) => if c == '+' && plusToSpace then ' ' else c
      case Triple(n, _, _) => n as char
    }
  }

  function CodedText(cs: seq<Coded>): string {
    if cs == [] then "" else cs[0].Text() + CodedText(cs[1..])
  }

  /** Any mix of plain bytes and triples, in either case, decodes to the bytes it stands for. */
  lemma {:induction false} MixDecodes(cs: seq<Coded>, plusToSpace: bool)
    requires forall i :: 0 <= i < |cs| ==> cs[i].Ok()
    ensures var s := Decode(CodedText(cs), plusToSpace);
            |s| == |cs| && forall i :: 0 <= i < |cs| ==> s[i] == cs[i].Byte(plusToSpace)
  {
    hide HexOf, HexByte;
    if cs != [] {
      var t := CodedText(cs[1..]);
      MixDecodes(cs[1..], plusToSpace);
      match cs[0]
      case Plain(c) =>
        assert ([c] + t)[1..] == t;
      case Triple(n, hi, lo) =>
        TripleDecodes(n, hi, lo, t, plusToSpace);
    }
  }

  /** A percent sign with fewer than two bytes behind it stands for itself. */
  lemma CutTriple(c: char, plusToSpace: bool)
    ensures Decode("%", plusToSpace) == "%"
    ensures Decode(['%', c], plusToSpace) == ['%', if c == '+' && plusToSpace then ' ' else c]
  {
    assert ['%', c][1..] == [c] && [c][1..] == "";
    assert "%"[1..] == "";
    assert Decode([c], plusToSpace) == [if c == '+' && plusToSpace then ' ' else c] + Decode("", plusToSpace);
  }

  /** The source's own example: C++ as "C%2B%2B". */
  lemma PlusPlus()
    ensures Decode("C%2B%2B", true) == "C++"
  {
    var cs := [Plain('C'), Triple(43, '2', 'B'), Triple(43, '2', 'B')];
    MixDecodes(cs, true);
    assert cs[1..] == [Triple(43, '2', 'B'), Triple(43, '2', 'B')] && cs[1..][1..] == [Triple(43, '2', 'B')];
    assert cs[1..][1..][1..] == [];
    assert CodedText(cs) == "C" + (['%', '2', 'B'] + (['%', '2', 'B'] + ""));
    assert CodedText(cs) == "C%2B%2B";
  }
}
