/**
 The JavaScript string built-ins the program relies on: `split`, `join`, `startsWith`,
 `endsWith`, `trim`, `replace` with a string pattern, `indexOf`, and the number
 conversions `parseInt` and unary `+` on digit runs. A `string` here is a sequence of
 Unicode scalar values, one `char` each; a JavaScript string is a sequence of UTF-16 code
 units, so lengths and positions agree only on text without characters outside the Basic
 Multilingual Plane, where one character takes two code units.
 */
module Strings {
  import opened Common

  // ---------------------------------------------------------------------------
  // Prefixes, suffixes and occurrences
  // ---------------------------------------------------------------------------

  /** `s.startsWith(prefix)` */
  predicate StartsWith(s: string, prefix: string) {
    |prefix| <= |s| && s[..|prefix|] == prefix
  }

  /** `s.endsWith(suffix)` */
  predicate EndsWith(s: string, suffix: string) {
    |suffix| <= |s| && s[|s| - |suffix|..] == suffix
  }

  /** `pat` occurs in `s` starting at index `j`. */
  predicate OccursAt(s: string, pat: string, j: int) {
    0 <= j && j + |pat| <= |s| && s[j..j + |pat|] == pat
  }

  /** `s.indexOf(pat, i)`: the first occurrence of `pat` at or after `i`, if any. */
  function IndexOfFrom(s: string, pat: string, i: nat): (r: Option<nat>)
    requires i <= |s|
    ensures r.Some? ==> i <= r.value && OccursAt(s, pat, r.value)
    ensures r.Some? ==> forall j :: i <= j < r.value ==> !OccursAt(s, pat, j)
    ensures r.None? ==> forall j :: i <= j ==> !OccursAt(s, pat, j)
    decreases |s| - i
  {
    if i + |pat| > |s| then None
    else if s[i..i + |pat|] == pat then Some(i)
    else IndexOfFrom(s, pat, i + 1)
  }

  /** `s.indexOf(pat)` */
  function IndexOf(s: string, pat: string): (r: Option<nat>)
    ensures r.Some? ==> OccursAt(s, pat, r.value)
    ensures r.Some? ==> forall j :: 0 <= j < r.value ==> !OccursAt(s, pat, j)
    ensures r.None? ==> forall j :: !OccursAt(s, pat, j)
  {
    IndexOfFrom(s, pat, 0)
  }

  /** `s.replace(pat, rep)` with a string pattern: only the first occurrence is replaced
      (`rep` holds no `$` replacement patterns where the program uses it). */
  function ReplaceFirst(s: string, pat: string, rep: string): (r: string)
    ensures IndexOf(s, pat).None? ==> r == s
    ensures IndexOf(s, pat).Some? ==>
      var i := IndexOf(s, pat).value; r == s[..i] + rep + s[i + |pat|..]
  {
    match IndexOf(s, pat)
    case None => s
    case Some(i) => s[..i] + rep + s[i + |pat|..]
  }

  // ---------------------------------------------------------------------------
  // split / join
  // ---------------------------------------------------------------------------

  /** `s.split(sep)` for a non-empty separator: the pieces between the leftmost
      non-overlapping occurrences of `sep`. There is always at least one piece. */
  function Split(s: string, sep: string): (parts: seq<string>)
    requires sep != ""
    ensures |parts| >= 1
    ensures |sep| == 1 ==> forall k :: 0 <= k < |parts| ==> sep[0] !in parts[k]
    decreases |s|
  {
    if |s| < |sep| then [s]
    else if s[..|sep|] == sep then [""] + Split(s[|sep|..], sep)
    else
      var rest := Split(s[1..], sep);
      [[s[0]] + rest[0]] + rest[1..]
  }

  /** `parts.join(sep)` */
  function Join(parts: seq<string>, sep: string): string
  {
    if |parts| == 0 then ""
    else if |parts| == 1 then parts[0]
    else parts[0] + sep + Join(parts[1..], sep)
  }

  /** Joining the pieces of a split with the same separator gives back the string. */
  lemma {:induction false} JoinSplit(s: string, sep: string)
    requires sep != ""
    ensures Join(Split(s, sep), sep) == s
    decreases |s|
  {
    if |s| < |sep| {
    } else if s[..|sep|] == sep {
      JoinSplit(s[|sep|..], sep);
      JoinSplitAtSep(s, sep);
    } else {
      JoinSplit(s[1..], sep);
      JoinSplitAtChar(s, sep);
    }
  }

  /** The step of `JoinSplit` when `s` begins with the separator. */
  lemma JoinSplitAtSep(s: string, sep: string)
    requires sep != "" && |sep| <= |s| && s[..|sep|] == sep
    requires Join(Split(s[|sep|..], sep), sep) == s[|sep|..]
    ensures Join(Split(s, sep), sep) == s
  {
    var tail := s[|sep|..];
    assert Split(s, sep) == [""] + Split(tail, sep);
    JoinCons("", Split(tail, sep), sep);
    PrefixThenRest(s, sep);
  }

  lemma PrefixThenRest<T>(s: seq<T>, u: seq<T>)
    requires |u| <= |s| && s[..|u|] == u
    ensures s == [] + u + s[|u|..]
  {
    assert s == s[..|u|] + s[|u|..];
  }

  /** The step of `JoinSplit` when `s` does not begin with the separator. */
  lemma JoinSplitAtChar(s: string, sep: string)
    requires sep != "" && |sep| <= |s| && s[..|sep|] != sep
    requires Join(Split(s[1..], sep), sep) == s[1..]
    ensures Join(Split(s, sep), sep) == s
  {
    var rest := Split(s[1..], sep);
    assert Split(s, sep) == [[s[0]] + rest[0]] + rest[1..];
    JoinExtendFirst(s[0], rest, sep);
    assert s == [s[0]] + s[1..];
  }

  lemma JoinCons(x: string, rest: seq<string>, sep: string)
    requires |rest| >= 1
    ensures Join([x] + rest, sep) == x + sep + Join(rest, sep)
  {
    assert ([x] + rest)[1..] == rest;
  }

  lemma JoinExtendFirst(c: char, parts: seq<string>, sep: string)
    requires |parts| >= 1
    ensures Join([[c] + parts[0]] + parts[1..], sep) == [c] + Join(parts, sep)
  {
    var q := [[c] + parts[0]] + parts[1..];
    assert q[1..] == parts[1..];
    if |parts| > 1 {
      assert Join(parts, sep) == parts[0] + sep + Join(parts[1..], sep);
    }
  }

  /** `pat` occurs nowhere in `s`. */
  predicate Lacks(s: string, pat: string) {
    forall j :: 0 <= j <= |s| - |pat| ==> !OccursAt(s, pat, j)
  }

  /** No proper suffix of `sep` is also a prefix of it, so two occurrences of `sep` never
      overlap and an occurrence cannot straddle a boundary between a field and `sep`. */
  predicate Borderless(sep: string) {
    forall j :: 0 < j < |sep| ==> sep[j..] != sep[..|sep| - j]
  }

  /** A string without the first character of `pat` lacks `pat`. */
  lemma LacksFirst(s: string, pat: string)
    requires |pat| >= 1 && pat[0] !in s
    ensures Lacks(s, pat)
  {
    forall j ensures !OccursAt(s, pat, j) {
      if 0 <= j && j + |pat| <= |s| {
        assert s[j..j + |pat|][0] == s[j];
      }
    }
  }

  /** Dropping the first character keeps a string free of `pat`. */
  lemma LacksTail(s: string, pat: string)
    requires |s| >= 1 && Lacks(s, pat)
    ensures Lacks(s[1..], pat)
  {
    forall j ensures !OccursAt(s[1..], pat, j) {
      assert !OccursAt(s, pat, j + 1);
      if 0 <= j && j + |pat| <= |s| - 1 {
        assert s[1..][j..j + |pat|] == s[j + 1..j + 1 + |pat|];
      }
    }
  }

  /** A string free of the separator is a single piece. */
  lemma {:induction false} SplitWithoutSeparator(f: string, sep: string)
    requires sep != ""
    requires Lacks(f, sep)
    ensures Split(f, sep) == [f]
    decreases |f|
  {
    if |f| >= |sep| {
      assert !OccursAt(f, sep, 0);
      assert f[0..|sep|] == f[..|sep|];
      LacksTail(f, sep);
      SplitWithoutSeparator(f[1..], sep);
      assert [f[0]] + f[1..] == f;
    }
  }

  /** A leading field free of a borderless separator is split off intact. */
  lemma {:induction false} SplitLeadingField(f: string, rest: string, sep: string)
    requires sep != "" && Borderless(sep)
    requires Lacks(f, sep)
    ensures Split(f + sep + rest, sep) == [f] + Split(rest, sep)
    decreases |f|
  {
    var s := f + sep + rest;
    if |f| == 0 {
      assert s == sep + rest;
      assert s[..|sep|] == sep;
      assert s[|sep|..] == rest;
    } else {
      var h := s[..|sep|];
      if |f| >= |sep| {
        assert !OccursAt(f, sep, 0);
        assert h == f[0..|sep|];
      } else {
        assert h[|f|..] == sep[..|sep| - |f|];
        assert sep[|f|..] != sep[..|sep| - |f|];
      }
      assert h != sep;
      assert s[1..] == f[1..] + sep + rest;
      LacksTail(f, sep);
      SplitLeadingField(f[1..], rest, sep);
      assert [f[0]] + f[1..] == f;
    }
  }

  /** Splitting a join recovers the fields, provided no field contains the separator and
      the separator is borderless. */
  lemma {:induction false} SplitJoin(parts: seq<string>, sep: string)
    requires sep != "" && Borderless(sep) && |parts| >= 1
    requires forall k :: 0 <= k < |parts| ==> Lacks(parts[k], sep)
    ensures Split(Join(parts, sep), sep) == parts
    decreases |parts|
  {
    if |parts| == 1 {
      SplitWithoutSeparator(parts[0], sep);
    } else {
      SplitJoin(parts[1..], sep);
      SplitLeadingField(parts[0], Join(parts[1..], sep), sep);
      assert [parts[0]] + parts[1..] == parts;
    }
  }

  /** The one-character case of `SplitJoin`: fields without the separator character. */
  lemma SplitJoinChar(parts: seq<string>, sep: string)
    requires |sep| == 1 && |parts| >= 1
    requires forall k :: 0 <= k < |parts| ==> sep[0] !in parts[k]
    ensures Split(Join(parts, sep), sep) == parts
  {
    forall k | 0 <= k < |parts| ensures Lacks(parts[k], sep) {
      LacksFirst(parts[k], sep);
    }
    SplitJoin(parts, sep);
  }

  /** With a one-character separator, splitting around one occurrence of it splits each
      side on its own: the pieces of `a`, then the pieces of `b`. */
  lemma {:induction false} SplitConcat(a: string, b: string, sep: string)
    requires |sep| == 1
    ensures Split(a + sep + b, sep) == Split(a, sep) + Split(b, sep)
    decreases |a|
  {
    var s := a + sep + b;
    if |a| == 0 {
      assert s[..1] == sep && s[1..] == b;
    } else {
      assert s[1..] == a[1..] + sep + b;
      SplitConcat(a[1..], b, sep);
      if a[0] == sep[0] {
        SplitConcatSep(a, b, sep);
      } else {
        SplitConcatOther(a, b, sep);
      }
    }
  }

  /** The step of `SplitConcat` when `a` begins with the separator. */
  lemma SplitConcatSep(a: string, b: string, sep: string)
    requires |sep| == 1 && |a| >= 1 && a[0] == sep[0]
    requires Split(a[1..] + sep + b, sep) == Split(a[1..], sep) + Split(b, sep)
    ensures Split(a + sep + b, sep) == Split(a, sep) + Split(b, sep)
  {
    SplitConcatHead(a, b, sep);
    SplitAtSepChar(a, sep);
    ConsAssoc("", Split(a[1..], sep), Split(b, sep));
  }

  /** The separator at the head of `a` stays at the head of `a + sep + b`. */
  lemma SplitConcatHead(a: string, b: string, sep: string)
    requires |sep| == 1 && |a| >= 1 && a[0] == sep[0]
    ensures Split(a + sep + b, sep) == [""] + Split(a[1..] + sep + b, sep)
  {
    var s := a + sep + b;
    assert s[1..] == a[1..] + sep + b;
    SplitAtSepChar(s, sep);
  }

  lemma ConsAssoc<T>(x: T, xs: seq<T>, ys: seq<T>)
    ensures [x] + (xs + ys) == ([x] + xs) + ys
  {
  }

  /** The step of `SplitConcat` when `a` begins with another character. */
  lemma SplitConcatOther(a: string, b: string, sep: string)
    requires |sep| == 1 && |a| >= 1 && a[0] != sep[0]
    requires Split(a[1..] + sep + b, sep) == Split(a[1..], sep) + Split(b, sep)
    ensures Split(a + sep + b, sep) == Split(a, sep) + Split(b, sep)
  {
    var s := a + sep + b;
    assert s[1..] == a[1..] + sep + b;
    SplitAtOtherChar(a, sep);
    SplitAtOtherChar(s, sep);
    var left := Split(a[1..], sep);
    ConsFirst([a[0]], left, Split(b, sep));
  }

  /** Extending the first element of a non-empty sequence commutes with appending. */
  lemma ConsFirst<T>(c: seq<T>, left: seq<seq<T>>, right: seq<seq<T>>)
    requires |left| >= 1
    ensures [c + (left + right)[0]] + (left + right)[1..] == ([c + left[0]] + left[1..]) + right
  {
    assert (left + right)[1..] == left[1..] + right;
  }

  /** A string that begins with a one-character separator splits off an empty piece. */
  lemma SplitAtSepChar(s: string, sep: string)
    requires |sep| == 1 && |s| >= 1 && s[0] == sep[0]
    ensures Split(s, sep) == [""] + Split(s[1..], sep)
  {
    assert s[..1] == sep;
  }

  /** A string that begins with another character adds it to its first piece. */
  lemma SplitAtOtherChar(s: string, sep: string)
    requires |sep| == 1 && |s| >= 1 && s[0] != sep[0]
    ensures Split(s, sep) == [[s[0]] + Split(s[1..], sep)[0]] + Split(s[1..], sep)[1..]
  {
    assert s[..1][0] == s[0];
  }

  // ---------------------------------------------------------------------------
  // Character classes and trim
  // ---------------------------------------------------------------------------

  /** The ECMAScript WhiteSpace and LineTerminator code points: what `trim` removes and
      what the regular-expression class `\s` matches. */
  predicate IsJsSpace(c: char) {
    || c == '\t' || c == '\n' || c == '\U{000B}' || c == '\U{000C}' || c == '\r'
    || c == ' ' || c == '\U{00A0}' || c == '\U{1680}'
    || ('\U{2000}' <= c <= '\U{200A}')
    || c == '\U{2028}' || c == '\U{2029}' || c == '\U{202F}' || c == '\U{205F}'
    || c == '\U{3000}' || c == '\U{FEFF}'
  }

  /** The ECMAScript LineTerminator code points: what the regular-expression `.` refuses. */
  predicate IsLineTerminator(c: char) {
    c == '\n' || c == '\r' || c == '\U{2028}' || c == '\U{2029}'
  }

  /** The regular-expression class `\d`. */
  predicate IsDigit(c: char) {
    '0' <= c <= '9'
  }

  /** The regular-expression class `\w`: `[A-Za-z0-9_]`. */
  predicate IsWordChar(c: char) {
    ('a' <= c <= 'z') || ('A' <= c <= 'Z') || IsDigit(c) || c == '_'
  }

  predicate AllSpace(s: string) {
    forall i :: 0 <= i < |s| ==> IsJsSpace(s[i])
  }

  /** `s.trimStart()` */
  function TrimStart(s: string): (r: string)
    ensures |r| <= |s| && r == s[|s| - |r|..]
    ensures forall i :: 0 <= i < |s| - |r| ==> IsJsSpace(s[i])
    ensures r == "" || !IsJsSpace(r[0])
  {
    if |s| > 0 && IsJsSpace(s[0]) then
      var r := TrimStart(s[1..]);
      assert s[1..][|s| - 1 - |r|..] == s[|s| - |r|..];
      assert forall i :: 1 <= i < |s| - |r| ==> s[i] == s[1..][i - 1];
      r
    else s
  }

  /** `s.trimEnd()` */
  function TrimEnd(s: string): (r: string)
    ensures |r| <= |s| && r == s[..|r|]
    ensures forall i :: |r| <= i < |s| ==> IsJsSpace(s[i])
    ensures r == "" || !IsJsSpace(r[|r| - 1])
  {
    if |s| > 0 && IsJsSpace(s[|s| - 1]) then TrimEnd(s[..|s| - 1]) else s
  }

  /** `s.trim()`: the slice of `s` left after removing white space from both ends; it is
      empty exactly when `s` is all white space. */
  function Trim(s: string): (r: string)
    ensures |r| <= |TrimStart(s)| && r == TrimStart(s)[..|r|]
    ensures forall i :: 0 <= i < |s| - |TrimStart(s)| ==> IsJsSpace(s[i])
    ensures forall i :: |s| - |TrimStart(s)| + |r| <= i < |s| ==> IsJsSpace(s[i])
    ensures r == "" || (!IsJsSpace(r[0]) && !IsJsSpace(r[|r| - 1]))
    ensures r == "" <==> AllSpace(s)
  {
    var t := TrimStart(s);
    var r := TrimEnd(t);
    assert |t| > 0 ==> !IsJsSpace(t[0]);
    r
  }

  /** A string with no white space at either end trims to itself. */
  lemma TrimNoop(s: string)
    requires s == "" || (!IsJsSpace(s[0]) && !IsJsSpace(s[|s| - 1]))
    ensures Trim(s) == s
  {
  }

  // ---------------------------------------------------------------------------
  // Numbers
  // ---------------------------------------------------------------------------

  predicate AllDigits(s: string) {
    forall i :: 0 <= i < |s| ==> IsDigit(s[i])
  }

  predicate IsHexDigit(c: char) {
    IsDigit(c) || ('a' <= c <= 'f') || ('A' <= c <= 'F')
  }

  predicate AllHexDigits(s: string) {
    forall i :: 0 <= i < |s| ==> IsHexDigit(s[i])
  }

  function HexDigitValue(c: char): (v: nat)
    requires IsHexDigit(c)
    ensures v < 16
  {
    if IsDigit(c) then c as int - '0' as int
    else if 'a' <= c <= 'f' then c as int - 'a' as int + 10
    else c as int - 'A' as int + 10
  }

  /** The value of a run of decimal digits, most significant first. */
  function DecimalValue(ds: string): nat
    requires AllDigits(ds)
  {
    if |ds| == 0 then 0
    else DecimalValue(ds[..|ds| - 1]) * 10 + (ds[|ds| - 1] as int - '0' as int)
  }

  /** The value of a run of hexadecimal digits, most significant first. */
  function HexValue(ds: string): nat
    requires AllHexDigits(ds)
  {
    if |ds| == 0 then 0
    else HexValue(ds[..|ds| - 1]) * 16 + HexDigitValue(ds[|ds| - 1])
  }

  /** The decimal numeral of `n` (what JavaScript's `String(n)` gives for a natural number). */
  function NatToDecimal(n: nat): (ds: string)
    ensures |ds| >= 1 && AllDigits(ds)
    ensures ds[0] == '0' ==> n == 0
  {
    if n < 10 then [('0' as int + n) as char]
    else NatToDecimal(n / 10) + [('0' as int + n % 10) as char]
  }

  /** Reading back the numeral of `n` gives `n`. */
  lemma {:induction false} DecimalRoundTrip(n: nat)
    ensures DecimalValue(NatToDecimal(n)) == n
  {
    if n >= 10 {
      var ds := NatToDecimal(n);
      DecimalRoundTrip(n / 10);
      assert ds[..|ds| - 1] == NatToDecimal(n / 10);
    }
  }

  /** The longest prefix of `s` that is all decimal digits. */
  function LeadingDigits(s: string): (d: string)
    ensures StartsWith(s, d) && AllDigits(d)
    ensures |d| == |s| || !IsDigit(s[|d|])
  {
    if |s| > 0 && IsDigit(s[0]) then [s[0]] + LeadingDigits(s[1..]) else ""
  }

  /** The longest prefix of `s` that is all hexadecimal digits. */
  function LeadingHexDigits(s: string): (d: string)
    ensures StartsWith(s, d) && AllHexDigits(d)
    ensures |d| == |s| || !IsHexDigit(s[|d|])
  {
    if |s| > 0 && IsHexDigit(s[0]) then [s[0]] + LeadingHexDigits(s[1..]) else ""
  }

  /** A JavaScript number as `parseInt` can produce it: NaN or an integer (negative zero
      is not distinguished from zero). */
  datatype JsInt = NaN | Int(value: int)

  /** `parseInt(s)` with no radix: leading white space is skipped, one sign is accepted,
      a `0x`/`0X` prefix selects hexadecimal, and the longest run of digits that follows
      is read; no digit at all gives NaN. */
  function ParseInt(s: string): (r: JsInt)
    ensures r.Int? ==> exists k :: 0 <= k < |s| && IsHexDigit(s[k])
  {
    var t := TrimStart(s);
    var negative := |t| > 0 && t[0] == '-';
    var u := if |t| > 0 && (t[0] == '-' || t[0] == '+') then t[1..] else t;
    var sign := if negative then -1 else 1;
    if |u| >= 2 && u[0] == '0' && (u[1] == 'x' || u[1] == 'X') then
      var h := LeadingHexDigits(u[2..]);
      if h == "" then NaN
      else
        assert s[|s| - |u| + 2] == h[0];
        Int(sign * HexValue(h))
    else
      var d := LeadingDigits(u);
      if d == "" then NaN
      else
        assert s[|s| - |u|] == d[0];
        Int(sign * DecimalValue(d))
  }

  /** `parseInt` of `"undefined"`, which is what a missing field converts to. */
  function ParseIntField(field: Option<string>): (r: JsInt)
    ensures field.None? ==> r == NaN
  {
    match field
    case None =>
      UndefinedIsNaN();
      ParseInt("undefined")
    case Some(f) => ParseInt(f)
  }

  lemma UndefinedIsNaN()
    ensures ParseInt("undefined") == NaN
  {
    var u := "undefined";
    assert u[0] == 'u' && !IsJsSpace(u[0]) && !IsDigit(u[0]);
    assert TrimStart(u) == u;
    assert LeadingDigits(u) == "";
  }

  /** `parseInt` reads back a numeral. */
  lemma ParseIntNumeral(n: nat)
    ensures ParseInt(NatToDecimal(n)) == Int(n)
  {
    var ds := NatToDecimal(n);
    DecimalRoundTrip(n);
    LeadingDigitsOfDigits(ds);
    NumeralUnsigned(ds);
  }

  /** A run of digits is read by `parseInt` as it stands: no blank to skip, no sign, no
      hexadecimal prefix. */
  lemma NumeralUnsigned(ds: string)
    requires |ds| >= 1 && AllDigits(ds)
    ensures TrimStart(ds) == ds && ds[0] != '-' && ds[0] != '+'
    ensures !(|ds| >= 2 && ds[0] == '0' && (ds[1] == 'x' || ds[1] == 'X'))
  {
    DigitIsPlain(ds[0]);
    if |ds| >= 2 {
      DigitIsPlain(ds[1]);
    }
  }

  lemma DigitIsPlain(c: char)
    requires IsDigit(c)
    ensures !IsJsSpace(c) && c != '-' && c != '+' && c != 'x' && c != 'X'
  {
  }

  lemma {:induction false} LeadingDigitsOfDigits(ds: string)
    requires AllDigits(ds)
    ensures LeadingDigits(ds) == ds
  {
    if |ds| > 0 {
      LeadingDigitsOfDigits(ds[1..]);
      assert [ds[0]] + ds[1..] == ds;
    }
  }
}
