/**
 Byte strings. The program works on C++ `char`s; here a `char` stands for one byte,
 and no definition relies on a value staying below 256 unless it says so.
 */
module Strings {

  datatype Option<+T> = None | Some(value: T)

  lemma Assoc<T>(a: seq<T>, b: seq<T>, c: seq<T>)
    ensures a + (b + c) == (a + b) + c
  {
  }

  lemma Cut<T>(s: seq<T>, a: nat, b: nat)
    requires a <= b <= |s|
    ensures s[..a] + s[a..b] == s[..b] && s[..b] + s[b..] == s
  {
  }

  /** Position of the first `c` in `s`, or -1: `memchr`, and `find` of one character. */
  function IndexOf(s: string, c: char): (i: int)
    ensures -1 <= i < |s|
    ensures i >= 0 ==> s[i] == c
    ensures forall j :: 0 <= j < (if i < 0 then |s| else i) ==> s[j] != c
  {
    if s == "" then -1
    else if s[0] == c then 0
    else
      var r := IndexOf(s[1..], c);
      if r < 0 then -1 else r + 1
  }

  /** True if `pat` occurs in `s` at position `i`. */
  predicate OccursAt(s: string, pat: string, i: nat) {
    i + |pat| <= |s| && forall k :: 0 <= k < |pat| ==> pat[k] == s[i + k]
  }

  /** Position of the first occurrence of `pat` from `from` on, or -1: `std::string::find`. */
  function Find(s: string, pat: string, from: nat): (i: int)
    requires pat != ""
    ensures i == -1 || from <= i <= |s| - |pat|
    decreases |s| - from
  {
    if |s| < from + |pat| then -1
    else if OccursAt(s, pat, from) then from
    else Find(s, pat, from + 1)
  }

  lemma {:induction false} FindFirst(s: string, pat: string, from: nat)
    requires pat != ""
    ensures var i := Find(s, pat, from);
            && (i >= 0 ==> OccursAt(s, pat, i))
            && forall j: nat :: from <= j && (i < 0 || j < i) ==> !OccursAt(s, pat, j)
    decreases |s| - from
  {
    if from + |pat| <= |s| && !OccursAt(s, pat, from) {
      FindFirst(s, pat, from + 1);
    }
  }

  /** First occurrences are unique, so any first occurrence is the one `Find` reports. */
  lemma FindIs(s: string, pat: string, from: nat, i: nat)
    requires pat != "" && from <= i && OccursAt(s, pat, i)
    requires forall j: nat :: from <= j < i ==> !OccursAt(s, pat, j)
    ensures Find(s, pat, from) == i
  {
    FindFirst(s, pat, from);
    var r := Find(s, pat, from);
    assert r < 0 ==> !OccursAt(s, pat, i);
    assert r > i ==> !OccursAt(s, pat, i);
  }

  lemma {:induction false} FindShift(a: string, s: string, pat: string, from: nat)
    requires pat != ""
    ensures Find(a + s, pat, |a| + from)
         == (var i := Find(s, pat, from); if i < 0 then -1 else |a| + i)
    decreases |s| - from
  {
    if from + |pat| <= |s| {
      if !OccursAt(s, pat, from) {
        FindShift(a, s, pat, from + 1);
      }
    }
  }

  lemma IndexOfIs(s: string, c: char, i: nat)
    requires i < |s| && s[i] == c
    requires c !in s[..i]
    ensures IndexOf(s, c) == i
  {
    assert forall j :: 0 <= j < i ==> s[j] in s[..i];
  }

  /** What is left of a char array once it is read as a C string. */
  function CString(s: string): (t: string)
    ensures t <= s && '\0' !in t
    ensures '\0' !in s ==> t == s
    ensures |t| < |s| ==> s[|t|] == '\0'
  {
    var z := IndexOf(s, '\0');
    if z < 0 then s else s[..z]
  }

  /** The line `Buffer::GetLine` hands out: through the first '\n', cut at the first NUL. */
  function LineOf(u: string): (line: string)
    ensures line <= u
  {
    var n := IndexOf(u, '\n');
    if n < 0 then "" else CString(u[..n + 1])
  }

  predicate IsUpper(c: char) { 'A' <= c <= 'Z' }
  predicate IsLower(c: char) { 'a' <= c <= 'z' }
  predicate IsDigit(c: char) { '0' <= c <= '9' }

  function ToUpper(c: char): char {
    if IsLower(c) then c - 'a' + 'A' else c
  }

  function Upper(s: string): (t: string)
    ensures |t| == |s|
    ensures forall i :: 0 <= i < |s| ==> t[i] == ToUpper(s[i])
  {
    seq(|s|, i requires 0 <= i < |s| => ToUpper(s[i]))
  }

  /** `std::to_string` of an unsigned number. */
  function Dec(n: nat): (s: string)
    ensures s != "" && forall c :: c in s ==> IsDigit(c)
  {
    if n < 10 then [Digit(n)] else Dec(n / 10) + [Digit(n % 10)]
  }

  function Digit(d: nat): (c: char)
    requires d < 10
    ensures IsDigit(c) && DigitValue(c) == d
  {
    '0' + d as char
  }

  function DigitValue(c: char): nat
    requires IsDigit(c)
  {
    c as int - '0' as int
  }

  /** Value of a run of digits, most significant first. */
  function Value(ds: string): nat
    requires forall c :: c in ds ==> IsDigit(c)
  {
    if ds == "" then 0
    else Value(ds[..|ds| - 1]) * 10 + DigitValue(ds[|ds| - 1])
  }

  function LeadingDigits(s: string): (ds: string)
    ensures ds <= s && forall c :: c in ds ==> IsDigit(c)
    ensures |ds| < |s| ==> !IsDigit(s[|ds|])
  {
    if s == "" || !IsDigit(s[0]) then "" else [s[0]] + LeadingDigits(s[1..])
  }

  function SkipSpace(s: string): string {
    if s != "" && s[0] in " \t\n\r\U{b}\U{c}" then SkipSpace(s[1..]) else s
  }

  const LONG_MAX := 0x7fff_ffff_ffff_ffff
  const SIZE_T := 0x1_0000_0000_0000_0000

  /** `std::stol` in base ten; `None` where it throws (no digits, or out of range). */
  function Stol(s: string): (r: Option<int>)
    ensures r.Some? ==> -LONG_MAX - 1 <= r.value <= LONG_MAX
  {
    var t := SkipSpace(s);
    var neg := t != "" && t[0] == '-';
    var body := if neg || (t != "" && t[0] == '+') then t[1..] else t;
    var ds := LeadingDigits(body);
    if ds == "" then None
    else
      var v: int := if neg then -(Value(ds) as int) else Value(ds);
      if -LONG_MAX - 1 <= v <= LONG_MAX then Some(v) else None
  }

  lemma {:induction false} ValueDec(n: nat)
    ensures Value(Dec(n)) == n
  {
    if n < 10 {
      assert Dec(n)[..0] == "";
    } else {
      var s := Dec(n);
      assert s[..|s| - 1] == Dec(n / 10);
      ValueDec(n / 10);
    }
  }

  /** A number that fits a `long` survives `std::to_string` followed by `std::stol`. */
  lemma StolDec(n: nat)
    requires n <= LONG_MAX
    ensures Stol(Dec(n)) == Some(n)
  {
    var s := Dec(n);
    assert IsDigit(s[0]);
    assert SkipSpace(s) == s;
    assert LeadingDigits(s) == s by {
      assert forall i :: 0 <= i < |s| ==> s[i] in s;
    }
    ValueDec(n);
  }

  // ---------------------------------------------------------------- tables

  /** `toupper`, letter by letter. */
  lemma UpperTable(c: char)
    ensures var (low, up) := ("abcdefghijklmnopqrstuvwxyz", "ABCDEFGHIJKLMNOPQRSTUVWXYZ");
            && |low| == 26 && |up| == 26
            && (forall i :: 0 <= i < 26 ==> ToUpper(low[i]) == up[i])
            && (c !in low ==> ToUpper(c) == c)
  {
    var low, up := "abcdefghijklmnopqrstuvwxyz", "ABCDEFGHIJKLMNOPQRSTUVWXYZ";
    assert forall i :: 0 <= i < 26 ==> low[i] == 'a' + i as char && up[i] == 'A' + i as char;
    if IsLower(c) {
      assert c == low[c as int - 'a' as int];
    }
  }

  lemma DigitTable(c: char)
    ensures var ds := "0123456789";
            && |ds| == 10
            && (forall d :: 0 <= d < 10 ==> IsDigit(ds[d]) && DigitValue(ds[d]) == d && Digit(d) == ds[d])
            && (IsDigit(c) <==> c in ds)
  {
    var ds := "0123456789";
    assert forall d :: 0 <= d < 10 ==> ds[d] == '0' + d as char;
    if IsDigit(c) {
      assert c == ds[c as int - '0' as int];
    }
  }

  /** Decimal notation, digit by digit. */
  lemma ValueTable(ds: string, d: nat)
    requires (forall c :: c in ds ==> c in "0123456789") && d < 10
    ensures (forall c :: c in ds ==> IsDigit(c)) && IsDigit("0123456789"[d])
    ensures Value("") == 0 && Value(ds + ["0123456789"[d]]) == 10 * Value(ds) + d
  {
    forall c | c in ds
      ensures IsDigit(c)
    {
      DigitTable(c);
    }
    DigitTable('0');
    var s := ds + ["0123456789"[d]];
    assert s[..|s| - 1] == ds;
  }

  /** `to_string` prints no leading zero; with `ValueDec` and `ValueTable` that settles it. */
  lemma {:induction false} DecLeads(n: nat)
    ensures Dec(n)[0] == '0' ==> n == 0
    ensures Dec(0) == "0"
  {
    if n >= 10 {
      DecLeads(n / 10);
    }
  }

  lemma {:induction false} SpaceSkipped(space: string, t: string)
    requires forall c :: c in space ==> c in " \t\n\r\U{b}\U{c}"
    requires t == "" || t[0] !in " \t\n\r\U{b}\U{c}"
    ensures SkipSpace(space + t) == t
    decreases |space|
  {
    if space == "" {
      assert space + t == t;
    } else {
      assert (space + t)[1..] == space[1..] + t;
      SpaceSkipped(space[1..], t);
    }
  }

  lemma {:induction false} DigitsLead(ds: string, rest: string)
    requires (forall c :: c in ds ==> IsDigit(c)) && (rest == "" || !IsDigit(rest[0]))
    ensures LeadingDigits(ds + rest) == ds
    decreases |ds|
  {
    if ds == "" {
      assert ds + rest == rest;
    } else {
      assert (ds + rest)[1..] == ds[1..] + rest;
      DigitsLead(ds[1..], rest);
    }
  }

  /** `std::stol`: leading space and one sign are skipped, the digits count up to the first other
      byte, and what does not fit 64 bits, or has no digits, throws. */
  lemma StolExact(space: string, sign: string, ds: string, rest: string)
    requires forall c :: c in space ==> c in " \t\n\r\U{b}\U{c}"
    requires sign == "" || sign == "+" || sign == "-"
    requires (forall c :: c in ds ==> IsDigit(c)) && (rest == "" || rest[0] !in "0123456789")
    requires ds == "" && sign == "" ==> rest == "" || rest[0] !in "+- \t\n\r\U{b}\U{c}"
    ensures var v: int := if sign == "-" then -(Value(ds) as int) else Value(ds);
            Stol(space + (sign + (ds + rest))) ==
            if ds != "" && -0x8000_0000_0000_0000 <= v <= 0x7fff_ffff_ffff_ffff then Some(v) else None
  {
    hide SkipSpace, LeadingDigits, Value;
    var body := ds + rest;
    var t := sign + body;
    if rest != "" {
      DigitTable(rest[0]);
    }
    DigitsLead(ds, rest);
    if sign == "" {
      assert t == body;
      if ds != "" {
        assert t[0] == ds[0] && IsDigit(ds[0]);
      }
    } else {
      assert t[1..] == body;
    }
    SpaceSkipped(space, t);
  }

  /** `GetLine`: through the first newline, cut in front of the first NUL. */
  lemma LineOfExact(a: string, b: string)
    requires '\n' !in a
    ensures LineOf(a) == ""
    ensures '\0' !in a ==> LineOf(a + "\n" + b) == a + "\n"
    ensures forall k :: 0 <= k < |a| && a[k] == '\0' && '\0' !in a[..k] ==> LineOf(a + "\n" + b) == a[..k]
  {
    var u := a + "\n" + b;
    assert u[..|a|] == a && u[..|a| + 1] == a + "\n";
    IndexOfIs(u, '\n', |a|);
    forall k | 0 <= k < |a| && a[k] == '\0' && '\0' !in a[..k]
      ensures LineOf(u) == a[..k]
    {
      assert (a + "\n")[..k] == a[..k];
      IndexOfIs(a + "\n", '\0', k);
    }
  }
}
