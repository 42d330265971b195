/**
 The static analyzer wrapper: `run` writes the source and its headers into the analyzer's
 file system, derives one include directory per header, calls the analyzer with a fixed
 argument template, and reads its result file back through `parseResult`, which turns each
 non-blank line of `$%*`-separated fields into one report.

 The analyzer itself is a parameter: a function from the file system and the argument list
 to its outcome.
 */
module CppCheck {
  import opened Common
  import opened Strings
  import opened Writes
  import opened Paths

  /** A file handed to the analyzer (its contents as text). */
  datatype FileInput = FileInput(name: string, contents: string)

  datatype RunOptions = RunOptions(source: FileInput, headers: seq<FileInput>)

  /** One parsed record (`CppCheckOut`). Fields the line does not have are `undefined`,
      and `parseInt` of a field without leading digits is NaN. */
  datatype Report = Report(
    file: string, line: JsInt, column: JsInt,
    severity: Option<string>, id: Option<string>, message: Option<string>)

  /** The analyzer's file system. */
  type AnalyzerFs = map<string, string>

  /** What calling the analyzer's entry point does: it throws, or it exits with a code,
      leaving its file system behind. */
  datatype Outcome = Threw | Exited(code: int, fs: AnalyzerFs)

  const ResultFile := "cppcheck-result.txt"

  /** The field separator of the output template. */
  const Sep := "$%*"

  // ---------------------------------------------------------------------------
  // Include directories
  // ---------------------------------------------------------------------------

  /** The index of the last `/` in `s`. */
  function LastSlash(s: string): (r: Option<nat>)
    ensures r.None? <==> '/' !in s
    ensures r.Some? ==> r.value < |s| && s[r.value] == '/' && '/' !in s[r.value + 1..]
  {
    if |s| == 0 then None
    else if s[|s| - 1] == '/' then Some(|s| - 1)
    else
      var r := LastSlash(s[..|s| - 1]);
      assert s == s[..|s| - 1] + [s[|s| - 1]];
      if r.Some? then
        assert s[r.value + 1..] == s[..|s| - 1][r.value + 1..] + [s[|s| - 1]];
        r
      else r
  }

  /** The include directory of one header:
      `name.includes('/') ? name.replaceAll(/\/[^/]+$/g, "") : "."`. The pattern matches a
      final `/` followed by at least one non-`/` character at the end of the name. */
  function IncludeDir(name: string): (d: string)
    ensures '/' !in name ==> d == "."
    ensures '/' in name && name[|name| - 1] == '/' ==> d == name
    ensures '/' in name && name[|name| - 1] != '/' ==> |d| < |name| && StartsWith(name, d)
  {
    if '/' !in name then "."
    else
      var i := LastSlash(name).value;
      if i == |name| - 1 then name else name[..i]
  }

  /** A `/`-free name under `dir` has `dir` as its include directory. */
  lemma IncludeDirOfChild(dir: string, base: string)
    requires base != "" && '/' !in base
    ensures IncludeDir(dir + "/" + base) == dir
  {
    var name := dir + "/" + base;
    assert name[|dir|] == '/';
    var i := LastSlash(name).value;
    assert forall j :: i < j < |name| ==> name[j] == name[i + 1..][j - i - 1];
    assert forall j :: |dir| < j < |name| ==> name[j] == base[j - |dir| - 1];
  }

  /** For a header in a directory, the include directory is the path's parent in the
      sense of the file service, and the header is the include directory, a `/` and its
      base name. */
  lemma IncludeDirParent(name: string)
    requires '/' in name && name[|name| - 1] != '/'
    ensures IncludeDir(name) == Parent(name)
    ensures IncludeDir(name) + "/" + Basename(name) == name
  {
    ParentBasename(name);
    var b := Basename(name);
    assert b != "" by {
      assert name[|name| - 1] == (Parent(name) + "/" + b)[|name| - 1];
    }
    assert Parent(name) + "/" + b == name;
    IncludeDirOfChild(Parent(name), b);
  }

  /** The `-I` flag for one directory, quotes included. */
  function IncludeFlag(dir: string): string
  {
    "-I=\"" + dir + "\""
  }

  /** One include directory per header, in header order. */
  function IncludeDirs(headers: seq<FileInput>): (dirs: seq<string>)
    ensures |dirs| == |headers|
    ensures forall k :: 0 <= k < |headers| ==> dirs[k] == IncludeDir(headers[k].name)
  {
    seq(|headers|, k requires 0 <= k < |headers| => IncludeDir(headers[k].name))
  }

  /** All include flags as one string, separated by single spaces. */
  function IncludeFlags(headers: seq<FileInput>): string
  {
    var dirs := IncludeDirs(headers);
    Join(seq(|dirs|, k requires 0 <= k < |dirs| => IncludeFlag(dirs[k])), " ")
  }

  /** Without headers the include argument is the empty string; with one header it is that
      header's flag; each further header adds a space and its flag. */
  lemma IncludeFlagsShape(headers: seq<FileInput>, h: FileInput)
    ensures IncludeFlags([]) == ""
    ensures IncludeFlags([h]) == IncludeFlag(IncludeDir(h.name))
    ensures |headers| >= 1 ==>
      IncludeFlags(headers + [h]) == IncludeFlags(headers) + " " + IncludeFlag(IncludeDir(h.name))
  {
    if |headers| >= 1 {
      var flags := seq(|headers|, k requires 0 <= k < |headers| => IncludeFlag(IncludeDir(headers[k].name)));
      var all := headers + [h];
      assert seq(|all|, k requires 0 <= k < |all| => IncludeFlag(IncludeDirs(all)[k]))
          == flags + [IncludeFlag(IncludeDir(h.name))];
      assert seq(|headers|, k requires 0 <= k < |headers| => IncludeFlag(IncludeDirs(headers)[k])) == flags;
      JoinSnoc(flags, IncludeFlag(IncludeDir(h.name)), " ");
    }
  }

  // ---------------------------------------------------------------------------
  // The argument template
  // ---------------------------------------------------------------------------

  /** The fields the output template prints, in its order. */
  datatype Field = FileField | LineField | ColumnField | SeverityField | IdField | MessageField

  const TemplateFields: seq<Field> := [FileField, LineField, ColumnField, SeverityField, IdField, MessageField]

  function Placeholder(f: Field): string
  {
    match f
    case FileField => "{file}"
    case LineField => "{line}"
    case ColumnField => "{column}"
    case SeverityField => "{severity}"
    case IdField => "{id}"
    case MessageField => "{message}"
  }

  /** The output template, `{file}$%*{line}$%*{column}$%*{severity}$%*{id}$%*{message}`. */
  const Template := "{file}" + Sep + "{line}" + Sep + "{column}" + Sep + "{severity}" + Sep + "{id}" + Sep + "{message}"

  /** The argument list of one analyzer call: the fixed options, the include flags as one
      argument, and the source's name last. */
  function Args(options: RunOptions): (args: seq<string>)
    ensures |args| == 10
    ensures args[0] == "--enable=all" && args[1] == "--std=c++17"
    ensures args[2] == "--template=" + Template
    ensures args[3] == "--inline-suppr" && args[4] == "--quiet"
    ensures args[5] == "--library=std.cfg" && args[6] == "--suppress=missingIncludeSystem"
    ensures args[7] == "--output-file=cppcheck-result.txt"
    ensures args[8] == IncludeFlags(options.headers) && args[9] == options.source.name
  {
    [ "--enable=all",
      "--std=c++17",
      "--template=" + Template,
      "--inline-suppr",
      "--quiet",
      "--library=std.cfg",
      "--suppress=missingIncludeSystem",
      "--output-file=" + ResultFile,
      IncludeFlags(options.headers),
      options.source.name ]
  }

  /** The template prints the fields of `TemplateFields`, in that order, separated by
      `Sep`. */
  lemma TemplateOrder()
    ensures Template == Join(seq(6, k requires 0 <= k < 6 => Placeholder(TemplateFields[k])), Sep)
  {
    var ps := seq(6, k requires 0 <= k < 6 => Placeholder(TemplateFields[k]));
    assert ps == ["{file}", "{line}", "{column}", "{severity}", "{id}", "{message}"];
    TemplateJoin(ps);
  }

  lemma TemplateJoin(ps: seq<string>)
    requires ps == ["{file}", "{line}", "{column}", "{severity}", "{id}", "{message}"]
    ensures Template == Join(ps, Sep)
  {
    assert Join(ps[5..], Sep) == "{message}";
    assert Join(ps[4..], Sep) == "{id}" + Sep + "{message}";
    assert Join(ps[3..], Sep) == "{severity}" + Sep + "{id}" + Sep + "{message}";
    assert Join(ps[2..], Sep) == "{column}" + Sep + "{severity}" + Sep + "{id}" + Sep + "{message}";
    assert Join(ps[1..], Sep) == "{line}" + Sep + "{column}" + Sep + "{severity}" + Sep + "{id}" + Sep + "{message}";
    assert Join(ps, Sep) == "{file}" + Sep + Join(ps[1..], Sep);
  }

  // ---------------------------------------------------------------------------
  // Writing the inputs
  // ---------------------------------------------------------------------------

  function AsWrites(files: seq<FileInput>): (ws: seq<(string, string)>)
    ensures |ws| == |files|
    ensures forall k :: 0 <= k < |files| ==> ws[k] == (files[k].name, files[k].contents)
  {
    seq(|files|, k requires 0 <= k < |files| => (files[k].name, files[k].contents))
  }

  /** The writes of `run`, in order: the source, each header, then the emptied result file. */
  function RunWrites(options: RunOptions): seq<(string, string)>
  {
    [(options.source.name, options.source.contents)] + AsWrites(options.headers) + [(ResultFile, "")]
  }

  /** The names written by `run`. */
  function RunNames(options: RunOptions): set<string>
  {
    {options.source.name, ResultFile} + (set k | 0 <= k < |options.headers| :: options.headers[k].name)
  }

  /** Header `k` is the last header of its name. */
  predicate LastOfName(hs: seq<FileInput>, k: int)
    requires 0 <= k < |hs|
  {
    forall j :: k < j < |hs| ==> hs[j].name != hs[k].name
  }

  /** The writes of `run` at `1 + k` are header `k`'s. */
  lemma RunWriteOfHeader(options: RunOptions, k: nat)
    requires k < |options.headers|
    ensures 1 + k < |RunWrites(options)|
    ensures RunWrites(options)[1 + k] == (options.headers[k].name, options.headers[k].contents)
  {
  }

  /** After the writes the store holds exactly the old names and the written ones, and the
      result file is empty (it is written last). */
  lemma RunWritesKeys(fs: AnalyzerFs, options: RunOptions)
    ensures Apply(fs, RunWrites(options)).Keys == fs.Keys + RunNames(options)
    ensures Apply(fs, RunWrites(options))[ResultFile] == ""
  {
    var ws := RunWrites(options);
    var hs := options.headers;
    assert Written(ws) == RunNames(options) by {
      forall p | p in Written(ws)
        ensures p in RunNames(options)
      {
        var i :| 0 <= i < |ws| && ws[i].0 == p;
        if 0 < i < |ws| - 1 {
          RunWriteOfHeader(options, i - 1);
        }
      }
      assert ws[0].0 == options.source.name && ws[|ws| - 1].0 == ResultFile;
      forall k | 0 <= k < |hs|
        ensures hs[k].name in Written(ws)
      {
        RunWriteOfHeader(options, k);
      }
    }
    LastWriteAt(ws, |ws| - 1);
  }

  /** A header that no later header (nor the result file) shares a name with holds its
      contents afterwards. */
  lemma RunWritesHeader(fs: AnalyzerFs, options: RunOptions, k: nat)
    requires k < |options.headers| && LastOfName(options.headers, k)
    requires options.headers[k].name != ResultFile
    ensures var fs' := Apply(fs, RunWrites(options));
      options.headers[k].name in fs' && fs'[options.headers[k].name] == options.headers[k].contents
  {
    var ws := RunWrites(options);
    RunWritesKeys(fs, options);
    RunWriteOfHeader(options, k);
    forall j | 1 + k < j < |ws|
      ensures ws[j].0 != ws[1 + k].0
    {
      if j < |ws| - 1 {
        RunWriteOfHeader(options, j - 1);
      }
    }
    LastWriteAt(ws, 1 + k);
  }

  /** The source holds its contents afterwards unless a header or the result file has its
      name. */
  lemma RunWritesSource(fs: AnalyzerFs, options: RunOptions)
    requires options.source.name != ResultFile
    requires forall j :: 0 <= j < |options.headers| ==> options.headers[j].name != options.source.name
    ensures var fs' := Apply(fs, RunWrites(options));
      options.source.name in fs' && fs'[options.source.name] == options.source.contents
  {
    var ws := RunWrites(options);
    RunWritesKeys(fs, options);
    forall j | 0 < j < |ws|
      ensures ws[j].0 != ws[0].0
    {
      if j < |ws| - 1 {
        RunWriteOfHeader(options, j - 1);
      }
    }
    LastWriteAt(ws, 0);
  }

  /** A file `run` does not write keeps its contents. */
  lemma RunWritesOthers(fs: AnalyzerFs, options: RunOptions, p: string)
    requires p in fs && p !in RunNames(options)
    ensures Apply(fs, RunWrites(options))[p] == fs[p]
  {
    var ws := RunWrites(options);
    forall i | 0 <= i < |ws|
      ensures ws[i].0 != p
    {
      if 0 < i < |ws| - 1 {
        RunWriteOfHeader(options, i - 1);
      }
    }
  }

  // ---------------------------------------------------------------------------
  // Parsing the result file
  // ---------------------------------------------------------------------------

  /** The trimmed lines that are not blank, in order. */
  function NonBlank(lines: seq<string>): (r: seq<string>)
    ensures |r| <= |lines|
    ensures forall k :: 0 <= k < |r| ==> r[k] != "" && Trim(r[k]) == r[k]
  {
    if |lines| == 0 then []
    else
      var prev := NonBlank(lines[..|lines| - 1]);
      var t := Trim(lines[|lines| - 1]);
      TrimTwice(lines[|lines| - 1]);
      if t == "" then prev else prev + [t]
  }

  /** One line passes the filter, trimmed, exactly when it is not all white space. */
  lemma NonBlankSingle(line: string)
    ensures NonBlank([line]) == if AllSpace(line) then [] else [Trim(line)]
  {
    assert [line][..0] == [];
  }

  /** The filter works line by line: the kept lines of two runs of lines are those of the
      first run followed by those of the second. */
  lemma {:induction false} NonBlankAppend(a: seq<string>, b: seq<string>)
    ensures NonBlank(a + b) == NonBlank(a) + NonBlank(b)
    decreases |b|
  {
    if |b| == 0 {
      assert a + b == a;
    } else {
      var b' := b[..|b| - 1];
      assert (a + b)[..|a + b| - 1] == a + b';
      assert (a + b)[|a + b| - 1] == b[|b| - 1];
      NonBlankAppend(a, b');
    }
  }

  /** The filter keeps exactly the lines that are not all white space, trimmed: every kept
      line is the trim of a non-blank line, and every non-blank line is kept. */
  lemma NonBlankMembers(lines: seq<string>)
    ensures forall x :: x in NonBlank(lines) <==> exists i :: 0 <= i < |lines| && !AllSpace(lines[i]) && x == Trim(lines[i])
  {
    forall x
      ensures x in NonBlank(lines) <==> exists i :: 0 <= i < |lines| && !AllSpace(lines[i]) && x == Trim(lines[i])
    {
      NonBlankKept(lines, x);
      KeptAt(lines, x);
    }
  }

  /** `x` is the trim of some non-blank line of `lines`, found from the back. */
  predicate Kept(lines: seq<string>, x: string)
  {
    SomeFromBack(lines, KeepsAs(x))
  }

  function KeepsAs(x: string): string -> bool
  {
    (line: string) => !AllSpace(line) && x == Trim(line)
  }

  /** Some element satisfies `p`, searched from the back. */
  predicate SomeFromBack<T>(xs: seq<T>, p: T -> bool)
  {
    |xs| > 0 && (p(xs[|xs| - 1]) || SomeFromBack(xs[..|xs| - 1], p))
  }

  lemma {:induction false} SomeFromBackAt<T>(xs: seq<T>, p: T -> bool)
    ensures SomeFromBack(xs, p) <==> exists i :: 0 <= i < |xs| && p(xs[i])
    decreases |xs|
  {
    if |xs| > 0 {
      var prev := xs[..|xs| - 1];
      SomeFromBackAt(prev, p);
      if exists i :: 0 <= i < |xs| && p(xs[i]) {
        var i :| 0 <= i < |xs| && p(xs[i]);
        if i < |prev| {
          assert prev[i] == xs[i];
        }
      }
      if exists i :: 0 <= i < |prev| && p(prev[i]) {
        var i :| 0 <= i < |prev| && p(prev[i]);
        assert prev[i] == xs[i];
      }
    }
  }

  lemma {:induction false} NonBlankKept(lines: seq<string>, x: string)
    ensures x in NonBlank(lines) <==> Kept(lines, x)
    decreases |lines|
  {
    if |lines| > 0 {
      var prev := lines[..|lines| - 1];
      var last := lines[|lines| - 1];
      NonBlankKept(prev, x);
      var t := Trim(last);
      assert t == "" <==> AllSpace(last);
      assert NonBlank(lines) == if t == "" then NonBlank(prev) else NonBlank(prev) + [t];
      assert Kept(lines, x) <==> KeepsAs(x)(last) || Kept(prev, x);
    }
  }

  lemma KeptAt(lines: seq<string>, x: string)
    ensures Kept(lines, x) <==> exists i :: 0 <= i < |lines| && !AllSpace(lines[i]) && x == Trim(lines[i])
  {
    SomeFromBackAt(lines, KeepsAs(x));
  }

  /** Only blank lines leave nothing. */
  lemma {:induction false} NonBlankOfBlank(lines: seq<string>)
    ensures (forall k :: 0 <= k < |lines| ==> AllSpace(lines[k])) ==> NonBlank(lines) == []
    decreases |lines|
  {
    if |lines| > 0 {
      NonBlankOfBlank(lines[..|lines| - 1]);
    }
  }

  lemma TrimTwice(s: string)
    ensures Trim(Trim(s)) == Trim(s)
  {
    TrimNoop(Trim(s));
  }

  /** Field `i` of a split line, or `undefined` past the last one. */
  function FieldAt(fields: seq<string>, i: nat): (r: Option<string>)
    ensures r.Some? <==> i < |fields|
  {
    if i < |fields| then Some(fields[i]) else None
  }

  /** One line of the result file: fields 0 to 5 of the split on `Sep`, with the line and
      column read by `parseInt`; anything after a sixth separator is dropped. */
  function ParseLine(line: string): (r: Report)
    ensures Lacks(line, Sep) ==> r == Report(line, NaN, NaN, None, None, None)
  {
    var fields := Split(line, Sep);
    SingleField(line);
    Report(fields[0], ParseIntField(FieldAt(fields, 1)), ParseIntField(FieldAt(fields, 2)),
           FieldAt(fields, 3), FieldAt(fields, 4), FieldAt(fields, 5))
  }

  /** A line without the separator is one field. */
  lemma SingleField(line: string)
    ensures Lacks(line, Sep) ==> Split(line, Sep) == [line]
  {
    if Lacks(line, Sep) {
      SplitWithoutSeparator(line, Sep);
    }
  }

  /** Each field of a line goes to its place in the report: the file, the line, the
      column, the severity, the id and the message, in that order; fields the line lacks
      are `undefined` and fields after the sixth are dropped. */
  lemma ParseLineFields(fields: seq<string>)
    requires |fields| >= 1 && forall k :: 0 <= k < |fields| ==> Lacks(fields[k], Sep)
    ensures ParseLine(Join(fields, Sep))
         == Report(fields[0], ParseIntField(FieldAt(fields, 1)), ParseIntField(FieldAt(fields, 2)),
                   FieldAt(fields, 3), FieldAt(fields, 4), FieldAt(fields, 5))
  {
    SepBorderless();
    SplitJoin(fields, Sep);
  }

  /** `$%*` is borderless, so a field may hold `$`, `%` or `*` as long as it does not hold
      the whole separator. */
  lemma SepBorderless()
    ensures Borderless(Sep)
  {
    assert Sep[1..] == "%*" && Sep[..2] == "$%";
    assert Sep[2..] == "*" && Sep[..1] == "$";
  }

  /** One report per line, in order. */
  function ParseLines(lines: seq<string>): seq<Report>
  {
    seq(|lines|, k requires 0 <= k < |lines| => ParseLine(lines[k]))
  }

  lemma ParseLinesAppend(a: seq<string>, b: seq<string>)
    ensures ParseLines(a + b) == ParseLines(a) + ParseLines(b)
  {
    var l, la, lb := ParseLines(a + b), ParseLines(a), ParseLines(b);
    assert |l| == |la + lb|;
    forall k | 0 <= k < |l|
      ensures l[k] == (la + lb)[k]
    {
      if k < |a| {
        assert (a + b)[k] == a[k];
      } else {
        assert (a + b)[k] == b[k - |a|];
      }
    }
  }

  /** `parseResult`: one report per non-blank line, read from the trimmed line, in line
      order; a blank text gives none. */
  function ParseResult(result: string): (r: seq<Report>)
    ensures |r| == |NonBlank(Split(result, "\n"))|
    ensures forall k :: 0 <= k < |r| ==> r[k] == ParseLine(NonBlank(Split(result, "\n"))[k])
    ensures AllSpace(result) ==> r == []
  {
    var lines := NonBlank(Split(result, "\n"));
    SplitOfSpace(result);
    NonBlankOfBlank(Split(result, "\n"));
    ParseLines(lines)
  }

  /** A text of one line gives no report when the line is blank and otherwise the report
      of the trimmed line; `ParseResultConcat` extends this to texts of several lines. */
  lemma ParseResultOneLine(result: string)
    requires '\n' !in result
    ensures ParseResult(result) == if AllSpace(result) then [] else [ParseLine(Trim(result))]
  {
    LacksFirst(result, "\n");
    SplitWithoutSeparator(result, "\n");
    NonBlankSingle(result);
    var lines := NonBlank(Split(result, "\n"));
    assert lines == if AllSpace(result) then [] else [Trim(result)];
    var r := ParseResult(result);
    assert |r| == |lines|;
  }

  /** `parseResult` reads the lines of a text one after another: the reports of two texts
      joined by a newline are the reports of the first followed by those of the second. */
  lemma ParseResultConcat(a: string, b: string)
    ensures ParseResult(a + "\n" + b) == ParseResult(a) + ParseResult(b)
  {
    SplitConcat(a, b, "\n");
    var la, lb := NonBlank(Split(a, "\n")), NonBlank(Split(b, "\n"));
    NonBlankAppend(Split(a, "\n"), Split(b, "\n"));
    ParseLinesAppend(la, lb);
  }

  /** A blank text splits into blank lines. */
  lemma SplitOfSpace(s: string)
    ensures AllSpace(s) ==> forall k :: 0 <= k < |Split(s, "\n")| ==> AllSpace(Split(s, "\n")[k])
  {
    var parts := Split(s, "\n");
    forall k | 0 <= k < |parts| && AllSpace(s)
      ensures AllSpace(parts[k])
    {
      JoinSplit(s, "\n");
      JoinPartSpace(parts, "\n", k);
    }
  }

  /** Every character of a part of a join is a character of the join. */
  lemma {:induction false} JoinPartSpace(parts: seq<string>, sep: string, k: nat)
    requires k < |parts| && AllSpace(Join(parts, sep))
    ensures AllSpace(parts[k])
    decreases |parts|
  {
    if |parts| > 1 {
      var j := Join(parts, sep);
      assert j == parts[0] + sep + Join(parts[1..], sep);
      if k == 0 {
        assert forall i :: 0 <= i < |parts[0]| ==> parts[0][i] == j[i];
      } else {
        assert forall i :: 0 <= i < |Join(parts[1..], sep)| ==>
          Join(parts[1..], sep)[i] == j[|parts[0]| + |sep| + i];
        JoinPartSpace(parts[1..], sep, k - 1);
      }
    }
  }

  // ---------------------------------------------------------------------------
  // Running the analyzer
  // ---------------------------------------------------------------------------

  /** `run(options)`: perform the writes, call the analyzer with `Args`; a throw, a
      nonzero exit code or an unreadable result file all end in `[]`, and exit code 0
      returns the parsed result file. */
  function Run(fs: AnalyzerFs, options: RunOptions, analyzer: (AnalyzerFs, seq<string>) -> Outcome): (r: seq<Report>)
    ensures var out := analyzer(Apply(fs, RunWrites(options)), Args(options));
      (out.Threw? || out.code != 0 || ResultFile !in out.fs) ==> r == []
    ensures var out := analyzer(Apply(fs, RunWrites(options)), Args(options));
      (out.Exited? && out.code == 0 && ResultFile in out.fs) ==> r == ParseResult(out.fs[ResultFile])
  {
    match analyzer(Apply(fs, RunWrites(options)), Args(options))
    case Threw => []
    case Exited(code, after) =>
      if code != 0 || ResultFile !in after then [] else ParseResult(after[ResultFile])
  }

  // ---------------------------------------------------------------------------
  // What the template prints, read back
  // ---------------------------------------------------------------------------

  /** One finding as the analyzer knows it. */
  datatype Finding = Finding(file: string, line: nat, column: nat, severity: string, id: string, message: string)

  /** The text the template prints for one field of a finding. */
  function FieldText(field: Field, f: Finding): string
  {
    match field
    case FileField => f.file
    case LineField => NatToDecimal(f.line)
    case ColumnField => NatToDecimal(f.column)
    case SeverityField => f.severity
    case IdField => f.id
    case MessageField => f.message
  }

  /** The line the template prints for a finding. */
  function Line(f: Finding): string
  {
    Join(seq(6, k requires 0 <= k < 6 => FieldText(TemplateFields[k], f)), Sep)
  }

  /** The result file for a list of findings: one line each, each ending in a newline. */
  function ResultText(fs: seq<Finding>): string
  {
    Join(seq(|fs|, k requires 0 <= k < |fs| => Line(fs[k])) + [""], "\n")
  }

  /** The text fields hold no separator and no newline, the file does not begin and the
      message does not end with white space (which `trim` would remove). */
  predicate Printable(f: Finding)
  {
    && Lacks(f.file, Sep) && Lacks(f.severity, Sep) && Lacks(f.id, Sep) && Lacks(f.message, Sep)
    && '\n' !in f.file && '\n' !in f.severity && '\n' !in f.id && '\n' !in f.message
    && (f.file == "" || !IsJsSpace(f.file[0]))
    && (f.message == "" || !IsJsSpace(f.message[|f.message| - 1]))
  }

  /** The report `parseResult` should give for a finding. */
  function Reported(f: Finding): Report
  {
    Report(f.file, Int(f.line), Int(f.column), Some(f.severity), Some(f.id), Some(f.message))
  }

  /** The printed fields of a finding, in template order. */
  lemma LineFields(f: Finding)
    ensures seq(6, k requires 0 <= k < 6 => FieldText(TemplateFields[k], f))
         == [f.file, NatToDecimal(f.line), NatToDecimal(f.column), f.severity, f.id, f.message]
  {
  }

  /** A printed line is read back as the finding it was printed from. */
  lemma ParseLineRoundTrip(f: Finding)
    requires Printable(f)
    ensures ParseLine(Line(f)) == Reported(f)
  {
    var fields := [f.file, NatToDecimal(f.line), NatToDecimal(f.column), f.severity, f.id, f.message];
    LineFields(f);
    assert '$' !in NatToDecimal(f.line) && '$' !in NatToDecimal(f.column);
    LacksFirst(NatToDecimal(f.line), Sep);
    LacksFirst(NatToDecimal(f.column), Sep);
    SepBorderless();
    SplitJoin(fields, Sep);
    ParseIntNumeral(f.line);
    ParseIntNumeral(f.column);
  }

  /** A printed line is non-blank and trims to itself. */
  lemma LineTrimmed(f: Finding)
    requires Printable(f)
    ensures Line(f) != "" && Trim(Line(f)) == Line(f) && '\n' !in Line(f)
  {
    LineEnds(f);
    TrimNoop(Line(f));
    LineOneLine(f);
  }

  /** A printed line begins with the file (or the separator) and ends with the message
      (or the separator before it). */
  lemma LineEnds(f: Finding)
    ensures var l := Line(f);
      && |l| > 0
      && l[0] == (if f.file == "" then '$' else f.file[0])
      && l[|l| - 1] == (if f.message == "" then '*' else f.message[|f.message| - 1])
  {
    var fields := [f.file, NatToDecimal(f.line), NatToDecimal(f.column), f.severity, f.id, f.message];
    LineFields(f);
    var l := Line(f);
    var rest := Join(fields[1..], Sep);
    assert l == f.file + Sep + rest;
    JoinLast(fields, Sep);
  }

  /** A printed line holds no newline when its fields hold none. */
  lemma LineOneLine(f: Finding)
    requires '\n' !in f.file && '\n' !in f.severity && '\n' !in f.id && '\n' !in f.message
    ensures '\n' !in Line(f)
  {
    var fields := [f.file, NatToDecimal(f.line), NatToDecimal(f.column), f.severity, f.id, f.message];
    LineFields(f);
    assert '\n' !in NatToDecimal(f.line) && '\n' !in NatToDecimal(f.column);
    JoinFree(fields, Sep, '\n');
  }

  /** A join ends with its last part, after the separator. */
  lemma {:induction false} JoinLast(parts: seq<string>, sep: string)
    requires |parts| >= 2
    ensures EndsWith(Join(parts, sep), sep + parts[|parts| - 1])
    decreases |parts|
  {
    var j := Join(parts, sep);
    var last := parts[|parts| - 1];
    if |parts| == 2 {
      assert parts[1..] == [last];
      assert Join(parts[1..], sep) == last;
      assert j == parts[0] + sep + Join(parts[1..], sep);
      assert j == parts[0] + (sep + last);
    } else {
      JoinLast(parts[1..], sep);
      var tail := Join(parts[1..], sep);
      assert j == (parts[0] + sep) + tail;
      assert j[|j| - |sep + last|..] == tail[|tail| - |sep + last|..];
    }
  }

  /** A character that no part and not the separator contains is not in the join. */
  lemma {:induction false} JoinFree(parts: seq<string>, sep: string, c: char)
    requires c !in sep && forall k :: 0 <= k < |parts| ==> c !in parts[k]
    ensures c !in Join(parts, sep)
    decreases |parts|
  {
    if |parts| > 1 {
      JoinFree(parts[1..], sep, c);
      assert Join(parts, sep) == parts[0] + sep + Join(parts[1..], sep);
    }
  }

  /** Trimmed non-blank lines pass the filter unchanged, and a final empty line is dropped. */
  lemma {:induction false} NonBlankKeeps(lines: seq<string>)
    requires forall k :: 0 <= k < |lines| ==> lines[k] != "" && Trim(lines[k]) == lines[k]
    ensures NonBlank(lines + [""]) == lines
    decreases |lines|
  {
    assert (lines + [""])[..|lines|] == lines;
    NonBlankAll(lines);
  }

  lemma {:induction false} NonBlankAll(lines: seq<string>)
    requires forall k :: 0 <= k < |lines| ==> lines[k] != "" && Trim(lines[k]) == lines[k]
    ensures NonBlank(lines) == lines
    decreases |lines|
  {
    if |lines| > 0 {
      NonBlankAll(lines[..|lines| - 1]);
      assert lines[..|lines| - 1] + [lines[|lines| - 1]] == lines;
    }
  }

  /** `parseResult` reads back exactly the findings the template printed, in order: the
      template's field order and the parser's agree. */
  lemma ParseResultRoundTrip(fs: seq<Finding>)
    requires forall k :: 0 <= k < |fs| ==> Printable(fs[k])
    ensures ParseResult(ResultText(fs)) == seq(|fs|, k requires 0 <= k < |fs| => Reported(fs[k]))
  {
    var lines := seq(|fs|, k requires 0 <= k < |fs| => Line(fs[k]));
    PrintedLines(fs, lines);
    ResultLines(fs, lines);
    ParseLinesReported(fs, lines);
  }

  lemma ParseLinesReported(fs: seq<Finding>, lines: seq<string>)
    requires |lines| == |fs| && forall k :: 0 <= k < |lines| ==> ParseLine(lines[k]) == Reported(fs[k])
    ensures ParseLines(lines) == seq(|fs|, k requires 0 <= k < |fs| => Reported(fs[k]))
  {
  }

  /** The non-blank lines of a printed result file are the printed lines. */
  lemma ResultLines(fs: seq<Finding>, lines: seq<string>)
    requires lines == seq(|fs|, k requires 0 <= k < |fs| => Line(fs[k]))
    requires forall k :: 0 <= k < |lines| ==> lines[k] != "" && Trim(lines[k]) == lines[k] && '\n' !in lines[k]
    ensures NonBlank(Split(ResultText(fs), "\n")) == lines
  {
    var all := lines + [""];
    ResultSplit(lines, all);
    assert ResultText(fs) == Join(all, "\n");
    NonBlankKeeps(lines);
  }

  /** The printed lines are trimmed, non-blank, newline-free, and parse back. */
  lemma PrintedLines(fs: seq<Finding>, lines: seq<string>)
    requires forall k :: 0 <= k < |fs| ==> Printable(fs[k])
    requires lines == seq(|fs|, k requires 0 <= k < |fs| => Line(fs[k]))
    ensures forall k :: 0 <= k < |lines| ==> lines[k] != "" && Trim(lines[k]) == lines[k] && '\n' !in lines[k]
    ensures forall k :: 0 <= k < |lines| ==> ParseLine(lines[k]) == Reported(fs[k])
  {
    forall k | 0 <= k < |fs|
      ensures lines[k] != "" && Trim(lines[k]) == lines[k] && '\n' !in lines[k]
      ensures ParseLine(lines[k]) == Reported(fs[k])
    {
      LineTrimmed(fs[k]);
      ParseLineRoundTrip(fs[k]);
    }
  }

  lemma ResultSplit(lines: seq<string>, all: seq<string>)
    requires forall k :: 0 <= k < |lines| ==> '\n' !in lines[k]
    requires all == lines + [""]
    ensures Split(Join(all, "\n"), "\n") == all
  {
    assert forall k :: 0 <= k < |all| ==> '\n' !in all[k];
    SplitJoinChar(all, "\n");
  }

  /** With an analyzer that exits with 0 after printing `fs` into the result file, `run`
      returns the findings, in order. */
  lemma RunReportsFindings(fs0: AnalyzerFs, options: RunOptions, analyzer: (AnalyzerFs, seq<string>) -> Outcome, fs: seq<Finding>)
    requires forall k :: 0 <= k < |fs| ==> Printable(fs[k])
    requires var out := analyzer(Apply(fs0, RunWrites(options)), Args(options));
      out.Exited? && out.code == 0 && ResultFile in out.fs && out.fs[ResultFile] == ResultText(fs)
    ensures Run(fs0, options, analyzer) == seq(|fs|, k requires 0 <= k < |fs| => Reported(fs[k]))
  {
    ParseResultRoundTrip(fs);
  }
}
