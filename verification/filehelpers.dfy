/**
 Sorting the current project's files into the four groups the build needs: sources
 (`.c`, `.cc`, `.cpp`), headers (`.h`, `.hh`, `.hpp`), libraries (`.a`, `.so`) and
 everything else.
 */
module FileHelpers {
  import opened Common
  import opened Strings
  import opened FileService

  const SourcesExt: seq<string> := [".c", ".cc", ".cpp"]
  const HeadersExt: seq<string> := [".h", ".hh", ".hpp"]
  const LibExt: seq<string> := [".a", ".so"]

  /** All eight extensions, in the order `getOtherFiles` lists them. */
  const AllExt: seq<string> := SourcesExt + HeadersExt + LibExt

  /** A file as the toolchain takes it: `{name: path, contents: content}`. */
  datatype Input = Input(name: string, contents: Bytes)

  function AsInput(x: FileRecord): Input
  {
    Input(x.path, x.content)
  }

  function AsInputs(xs: seq<FileRecord>): (r: seq<Input>)
    ensures |r| == |xs| && forall k :: 0 <= k < |xs| ==> r[k] == AsInput(xs[k])
    ensures forall x :: x in xs ==> AsInput(x) in r
  {
    seq(|xs|, k requires 0 <= k < |xs| => AsInput(xs[k]))
  }

  /** `getFilesWith` for each extension in turn, concatenated (`Promise.all(...).flat()`). */
  function WithEach(st: Store, exts: seq<string>): (r: seq<FileRecord>)
    ensures forall x :: x in r <==>
      x in st.files && x.project == st.current && exists k :: 0 <= k < |exts| && EndsWith(x.path, exts[k])
  {
    if |exts| == 0 then []
    else
      var init := exts[..|exts| - 1];
      var r := WithEach(st, init) + GetFilesWith(st, exts[|exts| - 1]);
      assert forall k :: 0 <= k < |init| ==> init[k] == exts[k];
      r
  }

  /** An extension list as the program's tables are: each entry a dot followed by dot-free
      text, no entry twice. */
  predicate ExtTable(exts: seq<string>)
  {
    && (forall k :: 0 <= k < |exts| ==> IsExt(exts[k]))
    && (forall i, j :: 0 <= i < j < |exts| ==> exts[i] != exts[j])
  }

  /** The position in `exts` of the extension a path ends with, or `|exts|` for none. */
  function ExtRank(path: string, exts: seq<string>): (r: nat)
    ensures r <= |exts|
    ensures r < |exts| ==> EndsWith(path, exts[r])
    ensures forall j :: 0 <= j < r ==> !EndsWith(path, exts[j])
    ensures r == |exts| <==> !EndsWithOneOf(path, exts)
    decreases |exts|
  {
    if |exts| == 0 then 0
    else if EndsWith(path, exts[0]) then 0
    else
      var r := 1 + ExtRank(path, exts[1..]);
      assert forall j :: 1 <= j < |exts| ==> exts[j] == exts[1..][j - 1];
      r
  }

  /** A record of the current project reaches `getFilesWith(ext)` as often as the table holds
      it, when its path ends with `ext`; other records never do. */
  lemma WithCount(st: Store, ext: string, x: FileRecord)
    ensures multiset(GetFilesWith(st, ext))[x] ==
      if x.project == st.current && EndsWith(x.path, ext) then multiset(st.files)[x] else 0
  {
    FilterCount(st.files, (x: FileRecord) => x.project == st.current, x);
    FilterCount(CurrentFiles(st), (x: FileRecord) => EndsWith(x.path, ext), x);
  }

  /** Concatenating the lists for distinct extensions counts each record once per table
      occurrence: no record is in two lists, because no path ends with two extensions. */
  lemma {:induction false} WithEachCount(st: Store, exts: seq<string>, x: FileRecord)
    requires ExtTable(exts)
    ensures multiset(WithEach(st, exts))[x] ==
      if x.project == st.current && EndsWithOneOf(x.path, exts) then multiset(st.files)[x] else 0
    decreases |exts|
  {
    if |exts| > 0 {
      var init := exts[..|exts| - 1];
      var last := exts[|exts| - 1];
      assert forall k :: 0 <= k < |init| ==> init[k] == exts[k];
      WithEachCount(st, init, x);
      WithCount(st, last, x);
      OneOfSplit(x.path, exts);
      var a := WithEach(st, init);
      var b := GetFilesWith(st, last);
      assert WithEach(st, exts) == a + b;
      assert multiset(a + b) == multiset(a) + multiset(b);
    }
  }

  /** A path ends with one of the extensions exactly when it ends with one of all but the
      last, or with the last, and in a table never with both. */
  lemma OneOfSplit(path: string, exts: seq<string>)
    requires ExtTable(exts) && |exts| > 0
    ensures var init := exts[..|exts| - 1];
      && (EndsWithOneOf(path, exts) <==> EndsWithOneOf(path, init) || EndsWith(path, exts[|exts| - 1]))
      && !(EndsWithOneOf(path, init) && EndsWith(path, exts[|exts| - 1]))
  {
    var init := exts[..|exts| - 1];
    var last := exts[|exts| - 1];
    assert forall k :: 0 <= k < |init| ==> init[k] == exts[k];
    if EndsWithOneOf(path, init) && EndsWith(path, last) {
      var k :| 0 <= k < |init| && EndsWith(path, init[k]);
      OneExtension(path, init[k], last);
      assert false;
    }
    if EndsWithOneOf(path, exts) {
      var k :| 0 <= k < |exts| && EndsWith(path, exts[k]);
      if k < |init| {
        assert EndsWith(path, init[k]);
      }
    }
  }


  /** With the table in id order, each record of the current project whose path ends with
      one of the extensions is in the concatenated list exactly once, and no other record
      is in it. */
  lemma WithEachOnce(st: Store, exts: seq<string>)
    requires IdOrdered(st.files) && ExtTable(exts)
    ensures forall x ::
      multiset(WithEach(st, exts))[x] ==
        (if x in st.files && x.project == st.current && EndsWithOneOf(x.path, exts) then 1 else 0)
  {
    forall x
      ensures multiset(WithEach(st, exts))[x] ==
        if x in st.files && x.project == st.current && EndsWithOneOf(x.path, exts) then 1 else 0
    {
      WithEachCount(st, exts, x);
      if x in st.files {
        IdOrderedOnce(st.files, x);
      }
    }
  }

  /** No record comes after one whose extension is listed later. */
  predicate RankOrdered(r: seq<FileRecord>, exts: seq<string>)
  {
    forall i, j :: 0 <= i < j < |r| ==> ExtRank(r[i].path, exts) <= ExtRank(r[j].path, exts)
  }

  /** The position of a matching path among the first extensions is its position among all. */
  lemma RankPrefix(path: string, init: seq<string>, exts: seq<string>)
    requires init <= exts && ExtRank(path, init) < |init|
    ensures ExtRank(path, exts) == ExtRank(path, init)
  {
    var q := ExtRank(path, init);
    assert init[q] == exts[q];
    assert forall j :: 0 <= j < q ==> init[j] == exts[j];
  }

  /** The concatenated list is grouped by extension, in the order the extensions are
      listed: a record never comes after one whose extension is listed later. */
  lemma {:induction false} WithEachOrder(st: Store, exts: seq<string>)
    requires ExtTable(exts)
    ensures RankOrdered(WithEach(st, exts), exts)
    decreases |exts|
  {
    if |exts| > 0 {
      var init := exts[..|exts| - 1];
      var last := exts[|exts| - 1];
      assert forall k :: 0 <= k < |init| ==> init[k] == exts[k];
      WithEachOrder(st, init);
      var a := WithEach(st, init);
      var b := GetFilesWith(st, last);
      assert WithEach(st, exts) == a + b;
      InitRanks(st, init, exts);
      LastRanks(st, exts);
      ConcatOrdered(a, b, init, exts);
    }
  }

  /** Records matched by the first extensions keep their rank, which is below the last. */
  lemma InitRanks(st: Store, init: seq<string>, exts: seq<string>)
    requires |exts| > 0 && init == exts[..|exts| - 1]
    ensures var a := WithEach(st, init);
      forall k :: 0 <= k < |a| ==> ExtRank(a[k].path, exts) == ExtRank(a[k].path, init) < |exts| - 1
  {
    var a := WithEach(st, init);
    forall k | 0 <= k < |a|
      ensures ExtRank(a[k].path, exts) == ExtRank(a[k].path, init) < |exts| - 1
    {
      assert a[k] in a;
      RankPrefix(a[k].path, init, exts);
    }
  }

  /** Records matched by the last extension have the last rank. */
  lemma LastRanks(st: Store, exts: seq<string>)
    requires ExtTable(exts) && |exts| > 0
    ensures var b := GetFilesWith(st, exts[|exts| - 1]);
      forall k :: 0 <= k < |b| ==> ExtRank(b[k].path, exts) == |exts| - 1
  {
    var last := exts[|exts| - 1];
    var b := GetFilesWith(st, last);
    forall k | 0 <= k < |b|
      ensures ExtRank(b[k].path, exts) == |exts| - 1
    {
      assert b[k] in b;
      var q := ExtRank(b[k].path, exts);
      if q < |exts| - 1 {
        OneExtension(b[k].path, exts[q], last);
      }
    }
  }

  /** Two rank-ordered lists whose ranks are all lower in the first stay ordered when
      concatenated. */
  lemma ConcatOrdered(a: seq<FileRecord>, b: seq<FileRecord>, init: seq<string>, exts: seq<string>)
    requires |exts| > 0
    requires RankOrdered(a, init)
    requires forall k :: 0 <= k < |a| ==> ExtRank(a[k].path, exts) == ExtRank(a[k].path, init) < |exts| - 1
    requires forall k :: 0 <= k < |b| ==> ExtRank(b[k].path, exts) == |exts| - 1
    ensures RankOrdered(a + b, exts)
  {
    var r := a + b;
    forall i, j | 0 <= i < j < |r|
      ensures ExtRank(r[i].path, exts) <= ExtRank(r[j].path, exts)
    {
      if j < |a| {
        assert r[i] == a[i] && r[j] == a[j];
      } else if |a| <= i {
        assert r[i] == b[i - |a|] && r[j] == b[j - |a|];
      } else {
        assert r[i] == a[i] && r[j] == b[j - |a|];
      }
    }
  }

  /** Records of the same extension keep table (id) order. */
  predicate IdWithinRank(r: seq<FileRecord>, exts: seq<string>)
  {
    forall i, j :: 0 <= i < j < |r| && ExtRank(r[i].path, exts) == ExtRank(r[j].path, exts) ==> r[i].id < r[j].id
  }

  /** Within one extension the concatenated list keeps table order, because each
      `getFilesWith` list does. */
  lemma {:induction false} WithEachWithin(st: Store, exts: seq<string>)
    requires ExtTable(exts) && IdOrdered(st.files)
    ensures IdWithinRank(WithEach(st, exts), exts)
    decreases |exts|
  {
    if |exts| > 0 {
      var init := exts[..|exts| - 1];
      var last := exts[|exts| - 1];
      assert forall k :: 0 <= k < |init| ==> init[k] == exts[k];
      WithEachWithin(st, init);
      var a := WithEach(st, init);
      var b := GetFilesWith(st, last);
      assert WithEach(st, exts) == a + b;
      InitRanks(st, init, exts);
      LastRanks(st, exts);
      GetFilesWithOrdered(st, last);
      ConcatWithin(a, b, init, exts);
    }
  }

  /** A list ordered within ranks followed by an id-ordered list of a higher rank is
      ordered within ranks. */
  lemma ConcatWithin(a: seq<FileRecord>, b: seq<FileRecord>, init: seq<string>, exts: seq<string>)
    requires |exts| > 0
    requires IdWithinRank(a, init) && IdOrdered(b)
    requires forall k :: 0 <= k < |a| ==> ExtRank(a[k].path, exts) == ExtRank(a[k].path, init) < |exts| - 1
    requires forall k :: 0 <= k < |b| ==> ExtRank(b[k].path, exts) == |exts| - 1
    ensures IdWithinRank(a + b, exts)
  {
    var r := a + b;
    forall i, j | 0 <= i < j < |r|
      ensures ExtRank(r[i].path, exts) == ExtRank(r[j].path, exts) ==> r[i].id < r[j].id
    {
      if j < |a| {
        assert r[i] == a[i] && r[j] == a[j];
      } else if |a| <= i {
        assert r[i] == b[i - |a|] && r[j] == b[j - |a|];
      } else {
        assert r[i] == a[i] && r[j] == b[j - |a|];
      }
    }
  }

  /** The three extension lists have the table shape. */
  lemma ExtTables()
    ensures ExtTable(SourcesExt) && ExtTable(HeadersExt) && ExtTable(LibExt)
  {
    AllExtShape();
    assert forall k :: 0 <= k < |SourcesExt| ==> SourcesExt[k] == AllExt[k];
    assert forall k :: 0 <= k < |HeadersExt| ==> HeadersExt[k] == AllExt[3 + k];
    assert forall k :: 0 <= k < |LibExt| ==> LibExt[k] == AllExt[6 + k];
  }

  /** The source records, in the order they are handed on: `.c` files, then `.cc`, then
      `.cpp`. */
  function SourceRecords(st: Store): seq<FileRecord>
  {
    WithEach(st, SourcesExt)
  }

  function HeaderRecords(st: Store): seq<FileRecord>
  {
    WithEach(st, HeadersExt)
  }

  /** `getLibFiles()`: the records themselves, not mapped; exactly the current project's
      `.a` and `.so` files. */
  function GetLibFiles(st: Store): (r: seq<FileRecord>)
    ensures forall k :: 0 <= k < |r| ==> r[k] in CurrentFiles(st) && GroupOf(r[k].path) == Lib
    ensures forall x :: x in CurrentFiles(st) && GroupOf(x.path) == Lib ==> x in r
  {
    var r := WithEach(st, LibExt);
    GroupsOfAll(st, r);
    r
  }

  function OtherRecords(st: Store): seq<FileRecord>
  {
    GetFilesWithout(st, ExtList(AllExt))
  }

  /** `getSourceFiles()`: one input per source record, named by its path; exactly the
      current project's `.c`, `.cc` and `.cpp` files. */
  function GetSourceFiles(st: Store): (r: seq<Input>)
    ensures |r| == |SourceRecords(st)|
    ensures forall k :: 0 <= k < |r| ==> r[k] == AsInput(SourceRecords(st)[k]) && GroupOf(r[k].name) == Source
    ensures forall x :: x in CurrentFiles(st) && GroupOf(x.path) == Source ==> AsInput(x) in r
  {
    GroupsOfAll(st, SourceRecords(st));
    AsInputs(SourceRecords(st))
  }

  /** `getHeaderFiles()`: exactly the current project's `.h`, `.hh` and `.hpp` files. */
  function GetHeaderFiles(st: Store): (r: seq<Input>)
    ensures |r| == |HeaderRecords(st)|
    ensures forall k :: 0 <= k < |r| ==> r[k] == AsInput(HeaderRecords(st)[k]) && GroupOf(r[k].name) == Header
    ensures forall x :: x in CurrentFiles(st) && GroupOf(x.path) == Header ==> AsInput(x) in r
  {
    GroupsOfAll(st, HeaderRecords(st));
    AsInputs(HeaderRecords(st))
  }

  /** `getOtherFiles()`: exactly the current project's files with none of the eight
      extensions. */
  function GetOtherFiles(st: Store): (r: seq<Input>)
    ensures |r| == |OtherRecords(st)|
    ensures forall k :: 0 <= k < |r| ==> r[k] == AsInput(OtherRecords(st)[k]) && GroupOf(r[k].name) == Other
    ensures forall x :: x in CurrentFiles(st) && GroupOf(x.path) == Other ==> AsInput(x) in r
  {
    GroupsOfAll(st, OtherRecords(st));
    AsInputs(OtherRecords(st))
  }

  /** `FourGroups` for every record, and for every element of `xs` in particular. */
  lemma GroupsOfAll(st: Store, xs: seq<FileRecord>)
    ensures forall x :: x in SourceRecords(st) <==> x in CurrentFiles(st) && GroupOf(x.path) == Source
    ensures forall x :: x in HeaderRecords(st) <==> x in CurrentFiles(st) && GroupOf(x.path) == Header
    ensures forall x :: x in WithEach(st, LibExt) <==> x in CurrentFiles(st) && GroupOf(x.path) == Lib
    ensures forall x :: x in OtherRecords(st) <==> x in CurrentFiles(st) && GroupOf(x.path) == Other
    ensures forall k :: 0 <= k < |xs| ==> xs[k] in xs
  {
    forall x
      ensures x in SourceRecords(st) <==> x in CurrentFiles(st) && GroupOf(x.path) == Source
      ensures x in HeaderRecords(st) <==> x in CurrentFiles(st) && GroupOf(x.path) == Header
      ensures x in WithEach(st, LibExt) <==> x in CurrentFiles(st) && GroupOf(x.path) == Lib
      ensures x in OtherRecords(st) <==> x in CurrentFiles(st) && GroupOf(x.path) == Other
    {
      AtMostOneList(x.path);
    }
  }

  /** Every extension is a dot followed by characters other than a dot. */
  predicate IsExt(e: string)
  {
    |e| >= 2 && e[0] == '.' && '.' !in e[1..]
  }

  lemma AllExtShape()
    ensures forall k :: 0 <= k < |AllExt| ==> IsExt(AllExt[k])
    ensures forall i, j :: 0 <= i < j < |AllExt| ==> AllExt[i] != AllExt[j]
  {
    assert AllExt == [".c", ".cc", ".cpp", ".h", ".hh", ".hpp", ".a", ".so"];
  }

  /** If a path ends with two such extensions, the shorter one is as long as the other:
      the dot that begins the shorter one would otherwise lie inside the longer one. */
  lemma SameLength(path: string, e1: string, e2: string)
    requires IsExt(e1) && IsExt(e2) && EndsWith(path, e1) && EndsWith(path, e2) && |e1| <= |e2|
    ensures |e1| == |e2|
  {
    var k := |e2| - |e1|;
    assert path[|path| - |e1|] == e1[0];
    assert e2[k] == path[|path| - |e2| + k];
    assert forall j :: 1 <= j < |e2| ==> e2[j] == e2[1..][j - 1];
  }

  /** A path ends with at most one extension of that shape. */
  lemma OneExtension(path: string, e1: string, e2: string)
    requires IsExt(e1) && IsExt(e2) && EndsWith(path, e1) && EndsWith(path, e2)
    ensures e1 == e2
  {
    if |e1| <= |e2| {
      SameLength(path, e1, e2);
    } else {
      SameLength(path, e2, e1);
    }
  }

  /** The group of a path: which of the four lists it falls in. */
  datatype Group = Source | Header | Lib | Other

  predicate EndsWithOneOf(path: string, exts: seq<string>)
  {
    exists k :: 0 <= k < |exts| && EndsWith(path, exts[k])
  }

  function GroupOf(path: string): Group
  {
    if EndsWithOneOf(path, SourcesExt) then Source
    else if EndsWithOneOf(path, HeadersExt) then Header
    else if EndsWithOneOf(path, LibExt) then Lib
    else Other
  }

  /** A path ends with an extension of at most one of the three lists. */
  lemma AtMostOneList(path: string)
    ensures !(EndsWithOneOf(path, SourcesExt) && EndsWithOneOf(path, HeadersExt))
    ensures !(EndsWithOneOf(path, SourcesExt) && EndsWithOneOf(path, LibExt))
    ensures !(EndsWithOneOf(path, HeadersExt) && EndsWithOneOf(path, LibExt))
    ensures EndsWithOneOf(path, AllExt) <==>
      EndsWithOneOf(path, SourcesExt) || EndsWithOneOf(path, HeadersExt) || EndsWithOneOf(path, LibExt)
  {
    AllExtShape();
    assert forall k :: 0 <= k < |SourcesExt| ==> SourcesExt[k] == AllExt[k];
    assert forall k :: 0 <= k < |HeadersExt| ==> HeadersExt[k] == AllExt[3 + k];
    assert forall k :: 0 <= k < |LibExt| ==> LibExt[k] == AllExt[6 + k];
    forall i, j | 0 <= i < |AllExt| && 0 <= j < |AllExt| && EndsWith(path, AllExt[i]) && EndsWith(path, AllExt[j])
      ensures i == j
    {
      OneExtension(path, AllExt[i], AllExt[j]);
    }
    if EndsWithOneOf(path, AllExt) {
      var k :| 0 <= k < |AllExt| && EndsWith(path, AllExt[k]);
      assert k < 3 || 3 <= k < 6 || 6 <= k < 8;
    }
  }

  /** Each record of the current project is in exactly one of the four lists: the one its
      group names. Records of other projects are in none. */
  lemma FourGroups(st: Store, x: FileRecord)
    ensures x in SourceRecords(st) <==> x in CurrentFiles(st) && GroupOf(x.path) == Source
    ensures x in HeaderRecords(st) <==> x in CurrentFiles(st) && GroupOf(x.path) == Header
    ensures x in GetLibFiles(st) <==> x in CurrentFiles(st) && GroupOf(x.path) == Lib
    ensures x in OtherRecords(st) <==> x in CurrentFiles(st) && GroupOf(x.path) == Other
  {
    AtMostOneList(x.path);
  }
}
