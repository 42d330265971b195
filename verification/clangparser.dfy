/**
 The compiler-diagnostic parser: every match of the global regular expression
 `(\w+)\.(.+):(\d+):(\d+):\s(\w+):\s(.+)` over the compiler's output becomes one
 `Diagnostic`.

 The regular expression is modelled by its meaning rather than by a matching engine:
 `Decomposes` says which positions split a piece of the text into the seven parts of the
 pattern, `MatchAt` picks the decomposition a backtracking matcher tries first at one start
 position, and `Scan` repeats the leftmost search from the end of each match, as a global
 `matchAll` does.
 */
module ClangParser {
  import opened Common
  import opened Strings

  /** One parsed compiler message. */
  datatype Diagnostic = Diagnostic(file: string, line: nat, column: nat, severity: string, message: string)

  // ---------------------------------------------------------------------------
  // Character classes and runs
  // ---------------------------------------------------------------------------

  /** The three repeated classes of the pattern: `\w`, `\d` and `.` (anything but a line
      terminator). */
  datatype CharClass = Word | Digit | NotNewline

  predicate InClass(cls: CharClass, c: char)
  {
    match cls
    case Word => IsWordChar(c)
    case Digit => IsDigit(c)
    case NotNewline => !IsLineTerminator(c)
  }

  /** `s[i..j]` is a non-empty run of `cls` characters. */
  predicate RunAt(s: string, cls: CharClass, i: int, j: int)
  {
    0 <= i < j <= |s| && forall k :: i <= k < j ==> InClass(cls, s[k])
  }

  predicate CharAt(s: string, i: int, ch: char)
  {
    0 <= i < |s| && s[i] == ch
  }

  /** `\s` at position `i`. */
  predicate SpaceAt(s: string, i: int)
  {
    0 <= i < |s| && IsJsSpace(s[i])
  }

  /** The end of the longest run of `cls` characters starting at `i`. */
  function RunEnd(s: string, cls: CharClass, i: nat): (j: nat)
    requires i <= |s|
    ensures i <= j <= |s|
    ensures j == |s| || !InClass(cls, s[j])
    decreases |s| - i
  {
    if i == |s| || !InClass(cls, s[i]) then i else RunEnd(s, cls, i + 1)
  }

  /** Everything `RunEnd` passes over is in the class. */
  lemma {:induction false} RunEndRun(s: string, cls: CharClass, i: nat)
    requires i <= |s|
    ensures forall k :: i <= k < RunEnd(s, cls, i) ==> InClass(cls, s[k])
    decreases |s| - i
  {
    if i < |s| && InClass(cls, s[i]) {
      RunEndRun(s, cls, i + 1);
    }
  }

  /** No run of the class starting at `i` reaches past `RunEnd`. */
  lemma {:induction false} RunEndBound(s: string, cls: CharClass, i: nat, j: int)
    requires RunAt(s, cls, i, j)
    ensures j <= RunEnd(s, cls, i)
    decreases |s| - i
  {
    assert InClass(cls, s[i]);
    if i + 1 < j {
      RunEndBound(s, cls, i + 1, j);
    }
  }

  /** A run followed by a character outside the class (or by the end) is the longest one. */
  lemma RunEndExact(s: string, cls: CharClass, i: nat, j: int)
    requires RunAt(s, cls, i, j)
    requires j == |s| || !InClass(cls, s[j])
    ensures RunEnd(s, cls, i) == j
  {
    RunEndBound(s, cls, i, j);
    RunEndRun(s, cls, i);
  }

  // ---------------------------------------------------------------------------
  // What the pattern accepts
  // ---------------------------------------------------------------------------

  /** `:(\d+):(\d+):\s(\w+):\s(.+)` read from position `e`: the line digits end at `l`, the
      column digits at `c`, the severity at `w`, the message at `m`. */
  predicate TailDecomposes(s: string, e: int, l: int, c: int, w: int, m: int)
  {
    && CharAt(s, e, ':') && RunAt(s, Digit, e + 1, l)
    && CharAt(s, l, ':') && RunAt(s, Digit, l + 1, c)
    && CharAt(s, c, ':') && SpaceAt(s, c + 1) && RunAt(s, Word, c + 2, w)
    && CharAt(s, w, ':') && SpaceAt(s, w + 1) && RunAt(s, NotNewline, w + 2, m)
  }

  /** The whole pattern read from `p`: the file name ends at `a` (where the dot is), the
      extension at `e`, and the rest as in `TailDecomposes`. */
  predicate Decomposes(s: string, p: int, a: int, e: int, l: int, c: int, w: int, m: int)
  {
    && RunAt(s, Word, p, a) && CharAt(s, a, '.') && RunAt(s, NotNewline, a + 1, e)
    && TailDecomposes(s, e, l, c, w, m)
  }

  /** The positions of one match. */
  datatype Match = Match(p: nat, a: nat, e: nat, l: nat, c: nat, w: nat, m: nat)

  predicate IsMatch(s: string, x: Match)
  {
    Decomposes(s, x.p, x.a, x.e, x.l, x.c, x.w, x.m)
  }

  // ---------------------------------------------------------------------------
  // Matching at one position
  // ---------------------------------------------------------------------------

  datatype Tail = Tail(l: nat, c: nat, w: nat, m: nat)

  /** The tail of the pattern from `e`. Every part of it is a run closed by a character
      outside the run's class, so there is at most one way to read it apart from the
      length of the message, and the greedy `(.+)` takes the rest of the line. */
  function TailAt(s: string, e: nat): (r: Option<Tail>)
    ensures r.Some? ==> TailDecomposes(s, e, r.value.l, r.value.c, r.value.w, r.value.m)
    ensures r.Some? ==> r.value.m == |s| || IsLineTerminator(s[r.value.m])
  {
    if !CharAt(s, e, ':') then None
    else
      var l := RunEnd(s, Digit, e + 1);
      if l == e + 1 || !CharAt(s, l, ':') then None
      else
        var c := RunEnd(s, Digit, l + 1);
        if c == l + 1 || !CharAt(s, c, ':') || !SpaceAt(s, c + 1) then None
        else
          var w := RunEnd(s, Word, c + 2);
          if w == c + 2 || !CharAt(s, w, ':') || !SpaceAt(s, w + 1) then None
          else
            var m := RunEnd(s, NotNewline, w + 2);
            if m == w + 2 then None
            else
              TailRuns(s, e, l, c, w, m);
              Some(Tail(l, c, w, m))
  }

  /** The runs `TailAt` takes, each closed by the separator after it, read the tail. */
  lemma TailRuns(s: string, e: nat, l: nat, c: nat, w: nat, m: nat)
    requires CharAt(s, e, ':') && l == RunEnd(s, Digit, e + 1) && l != e + 1 && CharAt(s, l, ':')
    requires c == RunEnd(s, Digit, l + 1) && c != l + 1 && CharAt(s, c, ':') && SpaceAt(s, c + 1)
    requires w == RunEnd(s, Word, c + 2) && w != c + 2 && CharAt(s, w, ':') && SpaceAt(s, w + 1)
    requires m == RunEnd(s, NotNewline, w + 2) && m != w + 2
    ensures TailDecomposes(s, e, l, c, w, m)
  {
    RunEndIsRun(s, Digit, e + 1);
    RunEndIsRun(s, Digit, l + 1);
    RunEndIsRun(s, Word, c + 2);
    RunEndIsRun(s, NotNewline, w + 2);
  }

  /** A non-empty stretch passed over by `RunEnd` is a run. */
  lemma RunEndIsRun(s: string, cls: CharClass, i: nat)
    requires i <= |s| && RunEnd(s, cls, i) != i
    ensures RunAt(s, cls, i, RunEnd(s, cls, i))
  {
    RunEndRun(s, cls, i);
  }

  /** Every reading of the tail is found by `TailAt`, with the same inner positions and a
      message no longer than the one `TailAt` takes. */
  lemma TailAtComplete(s: string, e: nat, l: int, c: int, w: int, m: int)
    requires TailDecomposes(s, e, l, c, w, m)
    ensures TailAt(s, e).Some?
    ensures TailAt(s, e).value.l == l && TailAt(s, e).value.c == c && TailAt(s, e).value.w == w
    ensures m <= TailAt(s, e).value.m
  {
    RunEndExact(s, Digit, e + 1, l);
    RunEndExact(s, Digit, l + 1, c);
    RunEndExact(s, Word, c + 2, w);
    RunEndBound(s, NotNewline, w + 2, m);
  }

  /** The largest `e` in `(lo, hi]` satisfying `ok`, searching downwards from `hi`. */
  function LastWhere(ok: nat -> bool, lo: nat, hi: nat): (r: Option<nat>)
    ensures r.Some? ==> lo < r.value <= hi && ok(r.value)
    decreases hi
  {
    if hi <= lo then None
    else if ok(hi) then Some(hi)
    else LastWhere(ok, lo, hi - 1)
  }

  /** The downward search skips only positions failing `ok`, and finds nothing only when
      no position in the range satisfies it. */
  lemma {:induction false} LastWhereFirst(ok: nat -> bool, lo: nat, hi: nat)
    ensures LastWhere(ok, lo, hi).Some? ==> forall e: nat :: LastWhere(ok, lo, hi).value < e <= hi ==> !ok(e)
    ensures LastWhere(ok, lo, hi).None? ==> forall e: nat :: lo < e <= hi ==> !ok(e)
    decreases hi
  {
    if hi > lo && !ok(hi) {
      LastWhereFirst(ok, lo, hi - 1);
    }
  }

  /** The positions at which the tail of the pattern can be read. */
  function Readable(s: string): nat -> bool
  {
    (e: nat) => TailAt(s, e).Some?
  }

  /** The largest `e` in `(lo, hi]` at which the tail of the pattern can be read: the
      greedy extension `(.+)` gives back characters one at a time. */
  function ExtSearch(s: string, lo: nat, hi: nat): (r: Option<nat>)
    ensures r.Some? ==> lo < r.value <= hi && TailAt(s, r.value).Some?
  {
    LastWhere(Readable(s), lo, hi)
  }

  /** `ExtSearch` skips only positions where the tail cannot be read, and finds nothing
      only when the tail can be read nowhere in the range. */
  lemma ExtSearchFirst(s: string, lo: nat, hi: nat)
    ensures ExtSearch(s, lo, hi).Some? ==> forall e: nat :: ExtSearch(s, lo, hi).value < e <= hi ==> TailAt(s, e).None?
    ensures ExtSearch(s, lo, hi).None? ==> forall e: nat :: lo < e <= hi ==> TailAt(s, e).None?
  {
    LastWhereFirst(Readable(s), lo, hi);
    assert forall e: nat :: Readable(s)(e) == TailAt(s, e).Some?;
  }

  /** The match a backtracking matcher finds when it starts at `p`, if any: the name is
      forced (a word run closed by the dot), the extension is the longest that lets the
      rest match, and the message then runs to the end of the line. */
  function MatchAt(s: string, p: nat): (r: Option<Match>)
    ensures r.Some? ==> r.value.p == p && IsMatch(s, r.value)
    ensures r.Some? ==> r.value.m == |s| || IsLineTerminator(s[r.value.m])
  {
    if p >= |s| then None
    else
      var a := RunEnd(s, Word, p);
      if a == p || !CharAt(s, a, '.') then None
      else
        var limit := RunEnd(s, NotNewline, a + 1);
        match ExtSearch(s, a + 1, limit)
        case None => None
        case Some(e) =>
          var t := TailAt(s, e).value;
          RunEndRun(s, Word, p);
          RunEndRun(s, NotNewline, a + 1);
          Some(Match(p, a, e, t.l, t.c, t.w, t.m))
  }

  /** `MatchAt` is complete, and its result comes first in the matcher's order among all
      readings of the text from `p`: every other reading has the same name and a shorter
      extension, or the same extension, the same inner positions and a shorter message. */
  lemma MatchAtGreedy(s: string, p: nat)
    ensures MatchAt(s, p).Some? ==> forall a, e, l, c, w, m :: Decomposes(s, p, a, e, l, c, w, m) ==>
      var x := MatchAt(s, p).value;
      && a == x.a
      && (e < x.e || (e == x.e && l == x.l && c == x.c && w == x.w && m <= x.m))
    ensures MatchAt(s, p).None? ==> forall a, e, l, c, w, m :: !Decomposes(s, p, a, e, l, c, w, m)
  {
    if p < |s| {
      var a := RunEnd(s, Word, p);
      if a == p || !CharAt(s, a, '.') {
        NoNameNoMatch(s, p);
      } else {
        var limit := RunEnd(s, NotNewline, a + 1);
        MatchAtFirst(s, p, a, limit, ExtSearch(s, a + 1, limit));
      }
    }
  }

  /** Without a word run closed by a dot at `p`, nothing matches there. */
  lemma NoNameNoMatch(s: string, p: nat)
    requires p < |s|
    requires RunEnd(s, Word, p) == p || !CharAt(s, RunEnd(s, Word, p), '.')
    ensures forall a, e, l, c, w, m :: !Decomposes(s, p, a, e, l, c, w, m)
  {
    forall a, e, l, c, w, m | Decomposes(s, p, a, e, l, c, w, m)
      ensures false
    {
      RunEndExact(s, Word, p, a);
    }
  }

  /** The readings at `p` are exactly those with the forced name end `a`, an extension end
      within the line, and a tail; `ExtSearch` therefore picks the first of them. */
  lemma MatchAtFirst(s: string, p: nat, a: nat, limit: nat, found: Option<nat>)
    requires p < a < |s| && RunEnd(s, Word, p) == a && s[a] == '.'
    requires limit == RunEnd(s, NotNewline, a + 1)
    requires found == ExtSearch(s, a + 1, limit)
    ensures found.None? ==> forall a', e, l, c, w, m :: !Decomposes(s, p, a', e, l, c, w, m)
    ensures found.Some? ==> forall a', e, l, c, w, m :: Decomposes(s, p, a', e, l, c, w, m) ==>
      var t := TailAt(s, found.value).value;
      && a' == a
      && (e < found.value || (e == found.value && l == t.l && c == t.c && w == t.w && m <= t.m))
  {
    forall a', e, l, c, w, m | Decomposes(s, p, a', e, l, c, w, m)
      ensures found.Some?
      ensures found.Some? ==>
        var t := TailAt(s, found.value).value;
        && a' == a
        && (e < found.value || (e == found.value && l == t.l && c == t.c && w == t.w && m <= t.m))
    {
      ReadingIsFound(s, p, a, limit, a', e, l, c, w, m);
    }
  }

  /** One reading at `p`: its name ends at `a`, and `ExtSearch` finds an extension end at
      or after its own. */
  lemma ReadingIsFound(s: string, p: nat, a: nat, limit: nat, a': int, e: int, l: int, c: int, w: int, m: int)
    requires p < a < |s| && RunEnd(s, Word, p) == a && s[a] == '.'
    requires limit == RunEnd(s, NotNewline, a + 1)
    requires Decomposes(s, p, a', e, l, c, w, m)
    ensures a' == a
    ensures ExtSearch(s, a + 1, limit).Some?
    ensures var found := ExtSearch(s, a + 1, limit).value; var t := TailAt(s, found).value;
      e < found || (e == found && l == t.l && c == t.c && w == t.w && m <= t.m)
  {
    RunEndExact(s, Word, p, a');
    RunEndBound(s, NotNewline, a + 1, e);
    TailAtComplete(s, e, l, c, w, m);
    ExtSearchFirst(s, a + 1, limit);
  }

  // ---------------------------------------------------------------------------
  // The global scan
  // ---------------------------------------------------------------------------

  /** What the matcher finds at each start position, computed once. */
  type Found = seq<Option<Match>>

  /** Each entry, if present, starts at its own position and ends after it, within the
      text. */
  predicate Indexed(t: Found)
  {
    forall q :: 0 <= q < |t| && t[q].Some? ==> t[q].value.p == q && q < t[q].value.m <= |t|
  }

  function Table(s: string): (t: Found)
    ensures |t| == |s|
    ensures forall q :: 0 <= q < |s| ==> t[q] == MatchAt(s, q)
    ensures Indexed(t)
  {
    var t := seq(|s|, q requires 0 <= q < |s| => MatchAt(s, q));
    assert forall q :: 0 <= q < |s| && t[q].Some? ==> IsMatch(s, t[q].value) && t[q].value.p == q;
    t
  }

  /** Nothing matches from the end of the text on. */
  lemma NoMatchPastEnd(s: string, q: nat)
    requires q >= |s|
    ensures MatchAt(s, q).None?
  {
  }

  /** The leftmost entry at or after `i`. */
  function FirstFrom(t: Found, i: nat): (r: Option<Match>)
    requires Indexed(t)
    ensures r.Some? ==> i <= r.value.p < |t| && t[r.value.p] == r
    ensures r.Some? ==> forall q :: i <= q < r.value.p ==> t[q].None?
    ensures r.None? ==> forall q :: i <= q < |t| ==> t[q].None?
    decreases |t| - i
  {
    if i >= |t| then None
    else if t[i].Some? then t[i]
    else FirstFrom(t, i + 1)
  }

  /** `matchAll` from `lastIndex == i`: the first match is the leftmost one at or after
      `i`, each further match is the leftmost one at or after the end of the previous, and
      after the last there is none. */
  function ScanFrom(t: Found, i: nat): (ms: seq<Match>)
    requires Indexed(t)
    ensures |ms| == 0 <==> FirstFrom(t, i).None?
    ensures |ms| > 0 ==> FirstFrom(t, i) == Some(ms[0])
    ensures forall k :: 0 <= k < |ms| - 1 ==> FirstFrom(t, ms[k].m) == Some(ms[k + 1])
    ensures |ms| > 0 ==> FirstFrom(t, ms[|ms| - 1].m).None?
    decreases |t| - i
  {
    match FirstFrom(t, i)
    case None => []
    case Some(x) =>
      var rest := ScanFrom(t, x.m);
      assert forall k :: 1 <= k < |rest| + 1 ==> ([x] + rest)[k] == rest[k - 1];
      [x] + rest
  }

  /** All matches of the text, in order. */
  function Scan(s: string): seq<Match>
  {
    ScanFrom(Table(s), 0)
  }

  /** Every scanned match is the matcher's result at its own start; each but the last ends
      at a line terminator, and the next one starts after it, so the matches follow the
      text's order and no two of them end on the same line. */
  lemma ScanOrdered(s: string)
    ensures forall k :: 0 <= k < |Scan(s)| ==>
      IsMatch(s, Scan(s)[k]) && MatchAt(s, Scan(s)[k].p) == Some(Scan(s)[k])
    ensures forall k :: 0 <= k < |Scan(s)| - 1 ==>
      var ms := Scan(s);
      ms[k].m < ms[k + 1].p && ms[k].m < |s| && IsLineTerminator(s[ms[k].m])
  {
    var ms := Scan(s);
    forall k | 0 <= k < |ms|
      ensures IsMatch(s, ms[k]) && MatchAt(s, ms[k].p) == Some(ms[k])
    {
      ScanEntry(s, k);
    }
    forall k | 0 <= k < |ms| - 1
      ensures ms[k].m < ms[k + 1].p && ms[k].m < |s| && IsLineTerminator(s[ms[k].m])
    {
      ScanGap(s, k);
    }
  }

  lemma ScanGap(s: string, k: nat)
    requires k + 1 < |Scan(s)|
    ensures Scan(s)[k].m < Scan(s)[k + 1].p && Scan(s)[k].m < |s| && IsLineTerminator(s[Scan(s)[k].m])
  {
    var ms := Scan(s);
    ScanEntry(s, k);
    ScanEntry(s, k + 1);
    var x, y := ms[k], ms[k + 1];
    assert RunAt(s, Word, y.p, y.a);
    assert IsWordChar(s[y.p]);
    assert x.m == |s| || IsLineTerminator(s[x.m]);
  }

  lemma ScanEntry(s: string, k: nat)
    requires k < |Scan(s)|
    ensures IsMatch(s, Scan(s)[k]) && MatchAt(s, Scan(s)[k].p) == Some(Scan(s)[k])
    ensures k > 0 ==> Scan(s)[k - 1].m <= Scan(s)[k].p
  {
    var t, ms := Table(s), Scan(s);
    assert FirstFrom(t, SearchStart(ms, k)) == Some(ms[k]);
    assert t[ms[k].p] == Some(ms[k]);
  }

  /** Where the search for the `k`-th match begins: the start of the text, then the end of
      the previous match. */
  function SearchStart(ms: seq<Match>, k: nat): nat
    requires k <= |ms|
  {
    if k == 0 then 0 else ms[k - 1].m
  }

  /** Each scanned match is leftmost: nothing matches between the end of the previous
      match (or the start of the text) and its start, and nothing matches after the last. */
  lemma ScanLeftmost(s: string)
    ensures forall k, q :: 0 <= k < |Scan(s)| && SearchStart(Scan(s), k) <= q < Scan(s)[k].p ==> MatchAt(s, q).None?
    ensures forall q: nat :: SearchStart(Scan(s), |Scan(s)|) <= q ==> MatchAt(s, q).None?
  {
    var t, ms := Table(s), Scan(s);
    forall k, q | 0 <= k < |ms| && SearchStart(ms, k) <= q < ms[k].p
      ensures MatchAt(s, q).None?
    {
      assert FirstFrom(t, SearchStart(ms, k)) == Some(ms[k]);
      assert t[q].None?;
    }
    forall q: nat | SearchStart(ms, |ms|) <= q
      ensures MatchAt(s, q).None?
    {
      var from := SearchStart(ms, |ms|);
      assert FirstFrom(t, from).None?;
      if q < |s| {
        assert t[q].None?;
      } else {
        NoMatchPastEnd(s, q);
      }
    }
  }

  // ---------------------------------------------------------------------------
  // Diagnostics
  // ---------------------------------------------------------------------------

  lemma DigitRun(s: string, i: int, j: int)
    requires RunAt(s, Digit, i, j)
    ensures AllDigits(s[i..j])
  {
    forall k | 0 <= k < j - i
      ensures IsDigit(s[i..j][k])
    {
      assert s[i..j][k] == s[i + k];
      assert InClass(Digit, s[i + k]);
    }
  }

  /** The groups of a match: `name.concat("." + ext)`, `+line`, `+column`, the severity
      and the message. */
  function ToDiagnostic(s: string, x: Match): Diagnostic
    requires IsMatch(s, x)
  {
    DigitRun(s, x.e + 1, x.l);
    DigitRun(s, x.l + 1, x.c);
    Diagnostic(s[x.p..x.a] + "." + s[x.a + 1..x.e],
               DecimalValue(s[x.e + 1..x.l]), DecimalValue(s[x.l + 1..x.c]),
               s[x.c + 2..x.w], s[x.w + 2..x.m])
  }

  /** The shape every diagnostic has: the file is a non-empty word run, a dot and a
      non-empty extension; the severity is a non-empty word run; the message is non-empty
      and lies on one line. */
  predicate WellFormed(d: Diagnostic)
  {
    && (exists k :: 0 < k < |d.file| - 1 && d.file[k] == '.' && AllWord(d.file[..k]))
    && |d.severity| > 0 && AllWord(d.severity)
    && |d.message| > 0 && (forall i :: 0 <= i < |d.message| ==> !IsLineTerminator(d.message[i]))
  }

  predicate AllWord(s: string)
  {
    forall i :: 0 <= i < |s| ==> IsWordChar(s[i])
  }

  lemma ToDiagnosticWellFormed(s: string, x: Match)
    requires IsMatch(s, x)
    ensures WellFormed(ToDiagnostic(s, x))
  {
    var d := ToDiagnostic(s, x);
    var k := x.a - x.p;
    assert d.file[..k] == s[x.p..x.a];
    assert d.file[k] == '.';
    forall i | 0 <= i < k
      ensures IsWordChar(d.file[..k][i])
    {
      assert InClass(Word, s[x.p + i]);
    }
    forall i | 0 <= i < |d.severity|
      ensures IsWordChar(d.severity[i])
    {
      assert InClass(Word, s[x.c + 2 + i]);
    }
    forall i | 0 <= i < |d.message|
      ensures !IsLineTerminator(d.message[i])
    {
      assert InClass(NotNewline, s[x.w + 2 + i]);
    }
  }

  /** `ClangParser.parse(input)`: one diagnostic per match, in the order of the matches;
      none exactly when the pattern matches nowhere. Each diagnostic is read from the
      pattern's match at its own start, and each match ends before the next begins. */
  function Parse(s: string): (ds: seq<Diagnostic>)
    ensures |ds| == |Scan(s)|
    ensures forall k :: 0 <= k < |ds| ==>
      && MatchAt(s, Scan(s)[k].p) == Some(Scan(s)[k])
      && ds[k] == ToDiagnostic(s, Scan(s)[k])
    ensures forall k :: 0 <= k < |ds| - 1 ==> Scan(s)[k].m < Scan(s)[k + 1].p
    ensures forall k :: 0 <= k < |ds| ==> WellFormed(ds[k])
    ensures ds == [] <==> forall p: nat :: MatchAt(s, p).None?
  {
    ScanFacts(s);
    ParseOf(s, Scan(s))
  }

  /** What `Parse` needs of the scan: every match is the matcher's reading at its start and
      gives a well-formed diagnostic, matches follow one another, and there are none exactly
      when the pattern matches nowhere. */
  lemma ScanFacts(s: string)
    ensures forall k :: 0 <= k < |Scan(s)| ==>
      IsMatch(s, Scan(s)[k]) && MatchAt(s, Scan(s)[k].p) == Some(Scan(s)[k])
    ensures forall k :: 0 <= k < |Scan(s)| - 1 ==> Scan(s)[k].m < Scan(s)[k + 1].p
    ensures forall k :: 0 <= k < |Scan(s)| ==> WellFormed(ToDiagnostic(s, Scan(s)[k]))
    ensures Scan(s) == [] <==> forall p: nat :: MatchAt(s, p).None?
  {
    ScanOrdered(s);
    var ms := Scan(s);
    forall k | 0 <= k < |ms|
      ensures WellFormed(ToDiagnostic(s, ms[k]))
    {
      ToDiagnosticWellFormed(s, ms[k]);
    }
    if ms != [] {
      assert MatchAt(s, ms[0].p).Some?;
    } else {
      ScanLeftmost(s);
    }
  }

  function ParseOf(s: string, ms: seq<Match>): (ds: seq<Diagnostic>)
    requires forall k :: 0 <= k < |ms| ==> IsMatch(s, ms[k])
    ensures |ds| == |ms|
    ensures forall k :: 0 <= k < |ms| ==> ds[k] == ToDiagnostic(s, ms[k])
  {
    seq(|ms|, k requires 0 <= k < |ms| && IsMatch(s, ms[k]) => ToDiagnostic(s, ms[k]))
  }

  /** Text the pattern matches nowhere yields no diagnostics; any reading of the pattern
      anywhere yields at least one. */
  lemma ParseEmpty(s: string)
    ensures Parse(s) == [] <==> forall p, a, e, l, c, w, m :: !Decomposes(s, p, a, e, l, c, w, m)
  {
    if Parse(s) == [] {
      forall p, a, e, l, c, w, m
        ensures !Decomposes(s, p, a, e, l, c, w, m)
      {
        if 0 <= p {
          MatchAtGreedy(s, p);
        }
      }
    } else {
      ScanOrdered(s);
      var x := Scan(s)[0];
      assert Decomposes(s, x.p, x.a, x.e, x.l, x.c, x.w, x.m);
    }
  }

  // ---------------------------------------------------------------------------
  // Reading back a rendered diagnostic
  // ---------------------------------------------------------------------------

  /** The line a compiler prints for one message: `name.ext:line:column: severity: message`. */
  function Render(name: string, ext: string, line: nat, column: nat, severity: string, message: string): string
  {
    name + "." + ext + ":" + NatToDecimal(line) + ":" + NatToDecimal(column) + ": " + severity + ": " + message
  }

  /** Text on one line without a colon. */
  predicate Plain(t: string)
  {
    forall i :: 0 <= i < |t| ==> t[i] != ':' && !IsLineTerminator(t[i])
  }

  /** The parts `Render` can print so that the pattern reads them back: a word name, an
      extension and a message on one line with no colon of their own, a word severity. */
  predicate Renderable(name: string, ext: string, severity: string, message: string)
  {
    && |name| > 0 && AllWord(name) && |ext| > 0 && Plain(ext)
    && |severity| > 0 && AllWord(severity) && |message| > 0 && Plain(message)
  }

  /** Where the parts of a rendered line begin and end. */
  function RenderedMatch(name: string, ext: string, line: nat, column: nat, severity: string, message: string): Match
  {
    var a := |name|;
    var e := a + 1 + |ext|;
    var l := e + 1 + |NatToDecimal(line)|;
    var c := l + 1 + |NatToDecimal(column)|;
    var w := c + 2 + |severity|;
    Match(0, a, e, l, c, w, w + 2 + |message|)
  }

  /** The rendered line, part by part. */
  lemma RenderLayout(name: string, ext: string, line: nat, column: nat, severity: string, message: string)
    ensures var s, x := Render(name, ext, line, column, severity, message),
                        RenderedMatch(name, ext, line, column, severity, message);
      && |s| == x.m
      && s[..x.a] == name && s[x.a] == '.' && s[x.a + 1..x.e] == ext
      && s[x.e] == ':' && s[x.e + 1..x.l] == NatToDecimal(line)
      && s[x.l] == ':' && s[x.l + 1..x.c] == NatToDecimal(column)
      && s[x.c] == ':' && s[x.c + 1] == ' ' && s[x.c + 2..x.w] == severity
      && s[x.w] == ':' && s[x.w + 1] == ' ' && s[x.w + 2..] == message
  {
    var s, x := Render(name, ext, line, column, severity, message),
                RenderedMatch(name, ext, line, column, severity, message);
    var L, C := NatToDecimal(line), NatToDecimal(column);
    var front := name + "." + ext + ":" + L + ":";
    var a := |name|;
    var e := a + 1 + |ext|;
    var l := e + 1 + |L|;
    var c := l + 1 + |C|;
    var w := c + 2 + |severity|;
    assert x == Match(0, a, e, l, c, w, w + 2 + |message|);
    LayoutBack(s, front, C, severity, message, c, w, w + 2 + |message|);
    LayoutFront(s, front, name, ext, L, a, e, l);
  }

  /** The back of a rendered line: column, severity and message after the front. */
  lemma LayoutBack(s: string, front: string, C: string, severity: string, message: string, c: nat, w: nat, m: nat)
    requires s == front + C + ": " + severity + ": " + message
    requires c == |front| + |C| && w == c + 2 + |severity| && m == w + 2 + |message|
    ensures |s| == m && |front| <= |s| && s[..|front|] == front && s[|front|..c] == C
    ensures s[c] == ':' && s[c + 1] == ' ' && s[c + 2..w] == severity
    ensures s[w] == ':' && s[w + 1] == ' ' && s[w + 2..] == message
  {
    var p6 := front + C;
    var p7 := p6 + ": ";
    var p8 := p7 + severity;
    var p9 := p8 + ": ";
    assert s[..|s|] == p9 + message;
    SplitPrefix(s, p9, message);
    SplitPrefix(s, p8, ": ");
    SplitPrefix(s, p7, severity);
    SplitPrefix(s, p6, ": ");
    SplitPrefix(s, front, C);
  }

  /** The front of a rendered line: name, dot, extension and line number. */
  lemma LayoutFront(s: string, front: string, name: string, ext: string, L: string, a: nat, e: nat, l: nat)
    requires front == name + "." + ext + ":" + L + ":" && |front| <= |s| && s[..|front|] == front
    requires a == |name| && e == a + 1 + |ext| && l == e + 1 + |L|
    ensures s[..a] == name && s[a] == '.' && s[a + 1..e] == ext
    ensures s[e] == ':' && s[e + 1..l] == L && s[l] == ':' && |front| == l + 1
  {
    var p1 := name + ".";
    var p2 := p1 + ext;
    var p3 := p2 + ":";
    var p4 := p3 + L;
    SplitPrefix(s, p4, ":");
    SplitPrefix(s, p3, L);
    SplitPrefix(s, p2, ":");
    SplitPrefix(s, p1, ext);
    SplitPrefix(s, name, ".");
  }

  /** A prefix of `s` made of two parts splits into the two parts. */
  lemma SplitPrefix<T>(s: seq<T>, u: seq<T>, v: seq<T>)
    requires |u| + |v| <= |s| && s[..|u| + |v|] == u + v
    ensures s[..|u|] == u && s[|u|..|u| + |v|] == v
    ensures forall k :: 0 <= k < |v| ==> s[|u| + k] == v[k]
  {
    forall k | 0 <= k < |v|
      ensures s[|u| + k] == v[k]
    {
      assert s[|u| + k] == s[..|u| + |v|][|u| + k];
    }
  }

  /** The rendered line, character by character. */
  lemma RenderChars(name: string, ext: string, line: nat, column: nat, severity: string, message: string)
    requires Renderable(name, ext, severity, message)
    ensures var s, x := Render(name, ext, line, column, severity, message),
                        RenderedMatch(name, ext, line, column, severity, message);
      && |s| == x.m
      && (forall k :: 0 <= k < x.a ==> IsWordChar(s[k]))
      && s[x.a] == '.'
      && (forall k :: x.a < k < x.e ==> s[k] != ':' && !IsLineTerminator(s[k]))
      && (forall k :: x.e < k < x.l ==> IsDigit(s[k]))
      && (forall k :: x.l < k < x.c ==> IsDigit(s[k]))
      && (forall k :: x.c + 1 < k < x.w ==> IsWordChar(s[k]))
      && (forall k :: x.w + 1 < k < x.m ==> s[k] != ':' && !IsLineTerminator(s[k]))
      && s[x.e] == ':' && s[x.l] == ':' && s[x.c] == ':' && s[x.w] == ':'
      && s[x.c + 1] == ' ' && s[x.w + 1] == ' '
      && x.p < x.a && x.a + 1 < x.e && x.e + 1 < x.l && x.l + 1 < x.c && x.c + 2 < x.w && x.w + 2 < x.m
  {
    RenderLayout(name, ext, line, column, severity, message);
    RenderCharsFront(name, ext, line, column, severity, message);
    RenderCharsBack(name, ext, line, column, severity, message);
  }

  lemma RenderCharsFront(name: string, ext: string, line: nat, column: nat, severity: string, message: string)
    requires Renderable(name, ext, severity, message)
    ensures var s, x := Render(name, ext, line, column, severity, message),
                        RenderedMatch(name, ext, line, column, severity, message);
      && (forall k :: 0 <= k < x.a ==> IsWordChar(s[k]))
      && (forall k :: x.a < k < x.e ==> s[k] != ':' && !IsLineTerminator(s[k]))
      && (forall k :: x.e < k < x.l ==> IsDigit(s[k]))
  {
    var s, x := Render(name, ext, line, column, severity, message),
                RenderedMatch(name, ext, line, column, severity, message);
    RenderLayout(name, ext, line, column, severity, message);
    forall k | 0 <= k < x.a
      ensures IsWordChar(s[k])
    {
      assert s[k] == s[..x.a][k];
    }
    forall k | x.a < k < x.e
      ensures s[k] != ':' && !IsLineTerminator(s[k])
    {
      assert s[k] == s[x.a + 1..x.e][k - x.a - 1];
    }
    forall k | x.e < k < x.l
      ensures IsDigit(s[k])
    {
      assert s[k] == s[x.e + 1..x.l][k - x.e - 1];
    }
  }

  lemma RenderCharsBack(name: string, ext: string, line: nat, column: nat, severity: string, message: string)
    requires Renderable(name, ext, severity, message)
    ensures var s, x := Render(name, ext, line, column, severity, message),
                        RenderedMatch(name, ext, line, column, severity, message);
      && (forall k :: x.l < k < x.c ==> IsDigit(s[k]))
      && (forall k :: x.c + 1 < k < x.w ==> IsWordChar(s[k]))
      && (forall k :: x.w + 1 < k < x.m ==> s[k] != ':' && !IsLineTerminator(s[k]))
  {
    var s, x := Render(name, ext, line, column, severity, message),
                RenderedMatch(name, ext, line, column, severity, message);
    RenderLayout(name, ext, line, column, severity, message);
    forall k | x.l < k < x.c
      ensures IsDigit(s[k])
    {
      assert s[k] == s[x.l + 1..x.c][k - x.l - 1];
    }
    forall k | x.c + 1 < k < x.w
      ensures IsWordChar(s[k])
    {
      assert s[k] == s[x.c + 2..x.w][k - x.c - 2];
    }
    forall k | x.w + 1 < k < x.m
      ensures s[k] != ':' && !IsLineTerminator(s[k])
    {
      assert s[k] == s[x.w + 2..][k - x.w - 2];
    }
  }

  /** The positions of `RenderedMatch` are a reading of the rendered line. */
  lemma RenderDecomposes(name: string, ext: string, line: nat, column: nat, severity: string, message: string)
    requires Renderable(name, ext, severity, message)
    ensures IsMatch(Render(name, ext, line, column, severity, message),
                    RenderedMatch(name, ext, line, column, severity, message))
  {
    RenderChars(name, ext, line, column, severity, message);
  }

  /** The only colons of a rendered line are the four separators. */
  lemma RenderColons(name: string, ext: string, line: nat, column: nat, severity: string, message: string)
    requires Renderable(name, ext, severity, message)
    ensures var s, x := Render(name, ext, line, column, severity, message),
                        RenderedMatch(name, ext, line, column, severity, message);
      forall k :: 0 <= k < |s| && s[k] == ':' ==> k == x.e || k == x.l || k == x.c || k == x.w
  {
    var s, x := Render(name, ext, line, column, severity, message),
                RenderedMatch(name, ext, line, column, severity, message);
    RenderChars(name, ext, line, column, severity, message);
    forall k | 0 <= k < |s| && s[k] == ':'
      ensures k == x.e || k == x.l || k == x.c || k == x.w
    {
      assert !IsWordChar(s[k]) && !IsDigit(s[k]) && s[k] != '.' && s[k] != ' ';
    }
  }

  /** Every reading of a rendered line from its start has the rendered positions (the
      message aside). */
  lemma RenderOnlyReading(name: string, ext: string, line: nat, column: nat, severity: string, message: string, y: Match)
    requires Renderable(name, ext, severity, message)
    requires y.p == 0 && IsMatch(Render(name, ext, line, column, severity, message), y)
    ensures var x := RenderedMatch(name, ext, line, column, severity, message);
      y.a == x.a && y.e == x.e && y.l == x.l && y.c == x.c && y.w == x.w
  {
    var s, x := Render(name, ext, line, column, severity, message),
                RenderedMatch(name, ext, line, column, severity, message);
    RenderChars(name, ext, line, column, severity, message);
    RenderDecomposes(name, ext, line, column, severity, message);
    RenderColons(name, ext, line, column, severity, message);
    RunEndExact(s, Word, 0, y.a);
    RunEndExact(s, Word, 0, x.a);
    assert InClass(Digit, s[y.e + 1]) && InClass(Digit, s[y.l + 1]);
    assert y.e == x.e || y.e == x.l || y.e == x.c || y.e == x.w;
    assert y.l == x.l || y.l == x.c || y.l == x.w;
    RunEndExact(s, Digit, y.e + 1, y.l);
    RunEndExact(s, Digit, x.e + 1, x.l);
    RunEndExact(s, Digit, y.l + 1, y.c);
    RunEndExact(s, Digit, x.l + 1, x.c);
    RunEndExact(s, Word, y.c + 2, y.w);
    RunEndExact(s, Word, x.c + 2, x.w);
  }

  /** At the start of a rendered line the matcher finds the rendered positions, with the
      message running to the end. */
  lemma RenderMatchAt(name: string, ext: string, line: nat, column: nat, severity: string, message: string)
    requires Renderable(name, ext, severity, message)
    ensures MatchAt(Render(name, ext, line, column, severity, message), 0)
         == Some(RenderedMatch(name, ext, line, column, severity, message))
  {
    var s, x := Render(name, ext, line, column, severity, message),
                RenderedMatch(name, ext, line, column, severity, message);
    RenderLayout(name, ext, line, column, severity, message);
    RenderDecomposes(name, ext, line, column, severity, message);
    MatchAtGreedy(s, 0);
    assert Decomposes(s, 0, x.a, x.e, x.l, x.c, x.w, x.m);
    var y := MatchAt(s, 0).value;
    RenderOnlyReading(name, ext, line, column, severity, message, y);
  }

  /** The scan of a rendered line finds the rendered positions and nothing else. */
  lemma RenderScan(name: string, ext: string, line: nat, column: nat, severity: string, message: string)
    requires Renderable(name, ext, severity, message)
    ensures Scan(Render(name, ext, line, column, severity, message))
         == [RenderedMatch(name, ext, line, column, severity, message)]
  {
    var s, x := Render(name, ext, line, column, severity, message),
                RenderedMatch(name, ext, line, column, severity, message);
    RenderMatchAt(name, ext, line, column, severity, message);
    RenderLayout(name, ext, line, column, severity, message);
    var t := Table(s);
    assert t[0] == Some(x);
    assert FirstFrom(t, 0) == Some(x);
    assert FirstFrom(t, x.m) == None;
    assert ScanFrom(t, x.m) == [];
  }

  /** The groups of the rendered positions are the rendered parts. */
  lemma RenderGroups(name: string, ext: string, line: nat, column: nat, severity: string, message: string)
    requires Renderable(name, ext, severity, message)
    ensures IsMatch(Render(name, ext, line, column, severity, message),
                    RenderedMatch(name, ext, line, column, severity, message))
    ensures ToDiagnostic(Render(name, ext, line, column, severity, message),
                         RenderedMatch(name, ext, line, column, severity, message))
         == Diagnostic(name + "." + ext, line, column, severity, message)
  {
    RenderDecomposes(name, ext, line, column, severity, message);
    RenderLayout(name, ext, line, column, severity, message);
    DecimalRoundTrip(line);
    DecimalRoundTrip(column);
  }

  /** A rendered line is read back as the diagnostic it was rendered from. */
  lemma ParseRender(name: string, ext: string, line: nat, column: nat, severity: string, message: string)
    requires Renderable(name, ext, severity, message)
    ensures Parse(Render(name, ext, line, column, severity, message))
         == [Diagnostic(name + "." + ext, line, column, severity, message)]
  {
    var s, x := Render(name, ext, line, column, severity, message),
                RenderedMatch(name, ext, line, column, severity, message);
    RenderScan(name, ext, line, column, severity, message);
    RenderGroups(name, ext, line, column, severity, message);
    assert ParseOf(s, [x]) == [ToDiagnostic(s, x)];
  }

  /** A typical compiler message. */
  lemma ParseExample()
    ensures Parse("main.cpp:4:10: error: expected ';'")
         == [Diagnostic("main.cpp", 4, 10, "error", "expected ';'")]
  {
    ExampleRenderable();
    ExampleRender();
    assert "main" + "." + "cpp" == "main.cpp";
    ParseRender("main", "cpp", 4, 10, "error", "expected ';'");
  }

  lemma ExampleRenderable()
    ensures Renderable("main", "cpp", "error", "expected ';'")
  {
  }

  lemma ExampleRender()
    ensures Render("main", "cpp", 4, 10, "error", "expected ';'") == "main.cpp:4:10: error: expected ';'"
  {
    ExampleHead();
    assert "main.cpp:4:10: " + "error" + ": " + "expected ';'" == "main.cpp:4:10: error: expected ';'";
  }

  /** The position part of the example line. */
  lemma ExampleHead()
    ensures "main" + "." + "cpp" + ":" + NatToDecimal(4) + ":" + NatToDecimal(10) + ": " == "main.cpp:4:10: "
  {
    assert NatToDecimal(4) == "4";
    assert NatToDecimal(10) == "10";
  }
}
