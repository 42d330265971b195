/**
 The file service: a table of file records, each with a numeric id, a path, its contents
 and the project it belongs to, kept in id order (the order in which the database returns
 them). Lookups by path are confined to the current project; lookups by id are not.

 Ids come from the wall clock in the program; here the caller supplies them.
 */
module FileService {
  import opened Common
  import opened Strings
  import opened Paths

  datatype FileRecord = FileRecord(id: nat, path: string, content: Bytes, project: string)

  /** The table and the current project (`FileService.currentProject`). */
  datatype Store = Store(files: seq<FileRecord>, current: string)

  /** The table lists its records by strictly increasing id, so ids are unique. */
  predicate IdOrdered(files: seq<FileRecord>)
  {
    forall i, j :: 0 <= i < j < |files| ==> files[i].id < files[j].id
  }

  /** The result of an operation that reports success as a boolean. */
  datatype Updated = Updated(store: Store, ok: bool)

  datatype Error = DuplicateId(id: nat)

  // ---------------------------------------------------------------------------
  // Filtering
  // ---------------------------------------------------------------------------

  /** The elements of `xs` that satisfy `p`, in order. */
  function Filter<T(!new)>(xs: seq<T>, p: T -> bool): (r: seq<T>)
    ensures |r| <= |xs|
    ensures forall x :: x in r <==> x in xs && p(x)
  {
    if |xs| == 0 then []
    else
      var rest := Filter(xs[..|xs| - 1], p);
      assert xs == xs[..|xs| - 1] + [xs[|xs| - 1]];
      if p(xs[|xs| - 1]) then rest + [xs[|xs| - 1]] else rest
  }

  /** Filtering by a predicate and by its negation splits the sequence in two: together
      the two parts hold every element as often as `xs` does. */
  lemma {:induction false} FilterPartition<T(!new)>(xs: seq<T>, p: T -> bool, q: T -> bool)
    requires forall x :: q(x) == !p(x)
    ensures multiset(Filter(xs, p)) + multiset(Filter(xs, q)) == multiset(xs)
    decreases |xs|
  {
    if |xs| > 0 {
      var init := xs[..|xs| - 1];
      var last := xs[|xs| - 1];
      FilterPartition(init, p, q);
      assert xs == init + [last];
      assert multiset(xs) == multiset(init) + multiset{last};
      if p(last) {
        assert multiset(Filter(xs, p)) == multiset(Filter(init, p)) + multiset{last};
        assert Filter(xs, q) == Filter(init, q);
      } else {
        assert Filter(xs, p) == Filter(init, p);
        assert multiset(Filter(xs, q)) == multiset(Filter(init, q)) + multiset{last};
      }
    }
  }

  /** A filter keeps each element as often as the sequence holds it, or drops it. */
  lemma {:induction false} FilterCount<T(!new)>(xs: seq<T>, p: T -> bool, x: T)
    ensures multiset(Filter(xs, p))[x] == if p(x) then multiset(xs)[x] else 0
    decreases |xs|
  {
    if |xs| > 0 {
      var init := xs[..|xs| - 1];
      var last := xs[|xs| - 1];
      FilterCount(init, p, x);
      assert xs == init + [last];
      assert multiset(xs) == multiset(init) + multiset{last};
      if p(last) {
        assert Filter(xs, p) == Filter(init, p) + [last];
      } else {
        assert Filter(xs, p) == Filter(init, p);
      }
    }
  }

  /** A filter keeps table order: what it keeps of an id-ordered table is id-ordered. */
  lemma {:induction false} FilterIdOrdered(xs: seq<FileRecord>, p: FileRecord -> bool)
    ensures IdOrdered(xs) ==> IdOrdered(Filter(xs, p))
    decreases |xs|
  {
    if IdOrdered(xs) && |xs| > 0 {
      var init := xs[..|xs| - 1];
      var last := xs[|xs| - 1];
      FilterIdOrdered(init, p);
      var rest := Filter(init, p);
      if p(last) {
        assert Filter(xs, p) == rest + [last];
        forall i | 0 <= i < |rest| ensures rest[i].id < last.id {
          assert rest[i] in rest;
          var j :| 0 <= j < |init| && init[j] == rest[i];
          assert xs[j] == init[j];
        }
      }
    }
  }

  /** A table in id order holds each of its records once. */
  lemma IdOrderedOnce(files: seq<FileRecord>, x: FileRecord)
    requires IdOrdered(files) && x in files
    ensures multiset(files)[x] == 1
  {
    var i :| 0 <= i < |files| && files[i] == x;
    assert files == files[..i] + [x] + files[i + 1..];
    assert x !in files[..i] by {
      forall j | 0 <= j < i ensures files[..i][j] != x {
        assert files[j].id < files[i].id;
      }
    }
    assert x !in files[i + 1..] by {
      forall j | i + 1 <= j < |files| ensures files[j] != x {
        assert files[i].id < files[j].id;
      }
    }
  }

  /** The current project's records, in table order
      (`toArray().filter(file => file.project === currentProject)`). */
  function CurrentFiles(st: Store): (r: seq<FileRecord>)
    ensures forall x :: x in r <==> x in st.files && x.project == st.current
  {
    Filter(st.files, (x: FileRecord) => x.project == st.current)
  }

  // ---------------------------------------------------------------------------
  // Queries
  // ---------------------------------------------------------------------------

  /** `getFilesWith(ext)`: the current project's records whose path ends with `ext`. */
  function GetFilesWith(st: Store, ext: string): (r: seq<FileRecord>)
    ensures forall x :: x in r <==> x in st.files && x.project == st.current && EndsWith(x.path, ext)
  {
    Filter(CurrentFiles(st), (x: FileRecord) => EndsWith(x.path, ext))
  }

  /** `getFilesWith` keeps table order. */
  lemma GetFilesWithOrdered(st: Store, ext: string)
    requires IdOrdered(st.files)
    ensures IdOrdered(GetFilesWith(st, ext))
  {
    FilterIdOrdered(st.files, (x: FileRecord) => x.project == st.current);
    FilterIdOrdered(CurrentFiles(st), (x: FileRecord) => EndsWith(x.path, ext));
  }

  /** The argument of `getFilesWithout`: one extension or a list of them. */
  datatype Exts = OneExt(ext: string) | ExtList(exts: seq<string>)

  predicate EndsWithAny(path: string, e: Exts)
  {
    match e
    case OneExt(ext) => EndsWith(path, ext)
    case ExtList(exts) => exists k :: 0 <= k < |exts| && EndsWith(path, exts[k])
  }

  /** `getFilesWithout(ext)`: the current project's records whose path ends with none of
      the extensions. */
  function GetFilesWithout(st: Store, e: Exts): (r: seq<FileRecord>)
    ensures forall x :: x in r <==> x in st.files && x.project == st.current && !EndsWithAny(x.path, e)
  {
    Filter(CurrentFiles(st), (x: FileRecord) => !EndsWithAny(x.path, e))
  }

  /** `getFilesWithout` keeps table order. */
  lemma GetFilesWithoutOrdered(st: Store, e: Exts)
    requires IdOrdered(st.files)
    ensures IdOrdered(GetFilesWithout(st, e))
  {
    FilterIdOrdered(st.files, (x: FileRecord) => x.project == st.current);
    FilterIdOrdered(CurrentFiles(st), (x: FileRecord) => !EndsWithAny(x.path, e));
  }

  /** For one extension, `getFilesWith` and `getFilesWithout` split the current project
      between them: each of its records is in exactly one of the two, once. */
  lemma WithWithoutPartition(st: Store, ext: string)
    ensures multiset(GetFilesWith(st, ext)) + multiset(GetFilesWithout(st, OneExt(ext))) == multiset(CurrentFiles(st))
    ensures forall x :: x in CurrentFiles(st) ==> (x in GetFilesWith(st, ext) <==> x !in GetFilesWithout(st, OneExt(ext)))
  {
    FilterPartition(CurrentFiles(st), (x: FileRecord) => EndsWith(x.path, ext),
                    (x: FileRecord) => !EndsWithAny(x.path, OneExt(ext)));
  }

  /** The index of the first record of the current project at `path`. */
  function FindPath(st: Store, path: string): (r: Option<nat>)
    ensures r.Some? ==> r.value < |st.files| && st.files[r.value].path == path && st.files[r.value].project == st.current
    ensures r.Some? ==> forall j :: 0 <= j < r.value ==> !(st.files[j].path == path && st.files[j].project == st.current)
    ensures r.None? <==> forall j :: 0 <= j < |st.files| ==> !(st.files[j].path == path && st.files[j].project == st.current)
  {
    FindPathFrom(st, path, 0)
  }

  function FindPathFrom(st: Store, path: string, i: nat): (r: Option<nat>)
    requires i <= |st.files|
    ensures r.Some? ==> i <= r.value < |st.files| && st.files[r.value].path == path && st.files[r.value].project == st.current
    ensures r.Some? ==> forall j :: i <= j < r.value ==> !(st.files[j].path == path && st.files[j].project == st.current)
    ensures r.None? <==> forall j :: i <= j < |st.files| ==> !(st.files[j].path == path && st.files[j].project == st.current)
    decreases |st.files| - i
  {
    if i == |st.files| then None
    else if st.files[i].path == path && st.files[i].project == st.current then Some(i)
    else FindPathFrom(st, path, i + 1)
  }

  /** The index of the record with id `id`, in any project. */
  function FindId(files: seq<FileRecord>, id: nat): (r: Option<nat>)
    ensures r.Some? ==> r.value < |files| && files[r.value].id == id
    ensures r.None? <==> forall j :: 0 <= j < |files| ==> files[j].id != id
  {
    if |files| == 0 then None
    else if files[|files| - 1].id == id then Some(|files| - 1)
    else FindId(files[..|files| - 1], id)
  }

  /** `getFile(path)`: the first record of the current project at `path`, if any. */
  function GetFile(st: Store, path: string): (r: Option<FileRecord>)
    ensures r.Some? ==> r.value in st.files && r.value.path == path && r.value.project == st.current
    ensures r.None? <==> forall x :: x in st.files ==> !(x.path == path && x.project == st.current)
  {
    match FindPath(st, path)
    case None => None
    case Some(i) => Some(st.files[i])
  }

  /** `getFileById(id)`: the record with id `id`, whatever its project. */
  function GetFileById(st: Store, id: nat): (r: Option<FileRecord>)
    ensures r.Some? ==> r.value in st.files && r.value.id == id
    ensures r.None? <==> forall x :: x in st.files ==> x.id != id
  {
    match FindId(st.files, id)
    case None => None
    case Some(i) => Some(st.files[i])
  }

  /** `getParentDirectory(path)`: the path without its last segment. */
  function GetParentDirectory(path: string): (r: string)
    ensures '/' !in path ==> r == ""
    ensures '/' in path ==> r + "/" + Basename(path) == path
  {
    ParentBasename(path);
    Parent(path)
  }

  lemma ParentDirectoryExamples()
    ensures GetParentDirectory("a/b/c.c") == "a/b"
    ensures GetParentDirectory("main.c") == ""
  {
    ParentOfChild("a/b", "c.c");
    assert "a/b" + "/" + "c.c" == "a/b/c.c";
  }

  // ---------------------------------------------------------------------------
  // Updates
  // ---------------------------------------------------------------------------

  /** Replaces record `i` by `x`. */
  function Replace(st: Store, i: nat, x: FileRecord): (r: Store)
    requires i < |st.files|
    ensures r.current == st.current && |r.files| == |st.files| && r.files[i] == x
    ensures forall j :: 0 <= j < |st.files| && j != i ==> r.files[j] == st.files[j]
  {
    st.(files := st.files[i := x])
  }

  /** Removes record `i`. */
  function Remove(st: Store, i: nat): (r: Store)
    requires i < |st.files|
    ensures r.current == st.current && |r.files| == |st.files| - 1
    ensures forall j :: 0 <= j < i ==> r.files[j] == st.files[j]
    ensures forall j :: i < j < |st.files| ==> r.files[j - 1] == st.files[j]
  {
    st.(files := st.files[..i] + st.files[i + 1..])
  }

  /** `updateFile(path, content)`: the first current-project record at `path` gets the new
      contents and the answer is `true`; without such a record nothing changes and the answer
      is `false`. */
  function UpdateFile(st: Store, path: string, content: Bytes): (r: Updated)
    ensures r.ok <==> GetFile(st, path).Some?
    ensures !r.ok ==> r.store == st
  {
    match FindPath(st, path)
    case None => Updated(st, false)
    case Some(i) => Updated(Replace(st, i, st.files[i].(content := content)), true)
  }

  /** `updateFileById(id, content)`. */
  function UpdateFileById(st: Store, id: nat, content: Bytes): (r: Updated)
    ensures r.ok <==> GetFileById(st, id).Some?
    ensures !r.ok ==> r.store == st
  {
    match FindId(st.files, id)
    case None => Updated(st, false)
    case Some(i) => Updated(Replace(st, i, st.files[i].(content := content)), true)
  }

  /** `deleteFile(path)`. */
  function DeleteFile(st: Store, path: string): (r: Updated)
    ensures r.ok <==> GetFile(st, path).Some?
    ensures !r.ok ==> r.store == st
  {
    match FindPath(st, path)
    case None => Updated(st, false)
    case Some(i) => Updated(Remove(st, i), true)
  }

  /** `deleteFileById(id)`. */
  function DeleteFileById(st: Store, id: nat): (r: Updated)
    ensures r.ok <==> GetFileById(st, id).Some?
    ensures !r.ok ==> r.store == st
  {
    match FindId(st.files, id)
    case None => Updated(st, false)
    case Some(i) => Updated(Remove(st, i), true)
  }

  /** `moveFileById(id, newPath)`. */
  function MoveFileById(st: Store, id: nat, newPath: string): (r: Updated)
    ensures r.ok <==> GetFileById(st, id).Some?
    ensures !r.ok ==> r.store == st
  {
    match FindId(st.files, id)
    case None => Updated(st, false)
    case Some(i) => Updated(Replace(st, i, st.files[i].(path := newPath)), true)
  }

  /** Only the record found by id changes, and only in the field that the update sets:
      every other record stays where it was, and the table keeps its ids. */
  predicate ChangesOnly(st: Store, st': Store, id: nat, f: FileRecord -> FileRecord)
  {
    && st'.current == st.current && |st'.files| == |st.files|
    && forall j :: 0 <= j < |st.files| ==>
         st'.files[j] == (if st.files[j].id == id then f(st.files[j]) else st.files[j])
  }

  /** In an id-ordered table, a successful update by id changes that record's contents and
      nothing else; moving changes that record's path and nothing else. */
  lemma ByIdChangesOnly(st: Store, id: nat, content: Bytes, newPath: string)
    requires IdOrdered(st.files)
    ensures UpdateFileById(st, id, content).ok ==>
      ChangesOnly(st, UpdateFileById(st, id, content).store, id, (x: FileRecord) => x.(content := content))
    ensures MoveFileById(st, id, newPath).ok ==>
      ChangesOnly(st, MoveFileById(st, id, newPath).store, id, (x: FileRecord) => x.(path := newPath))
  {
  }

  /** Keeps the records whose id is not `id`. */
  function OtherIds(id: nat): FileRecord -> bool
  {
    (x: FileRecord) => x.id != id
  }

  /** In an id-ordered table a successful delete by id removes exactly the record with
      that id: afterwards no record has it, and every other record is kept, in order. */
  lemma DeleteByIdRemovesOne(st: Store, id: nat)
    requires IdOrdered(st.files)
    ensures var r := DeleteFileById(st, id);
      r.ok ==> && r.store.files == Filter(st.files, OtherIds(id))
               && GetFileById(r.store, id).None?
  {
    var r := DeleteFileById(st, id);
    if r.ok {
      var i := FindId(st.files, id).value;
      FilterOthers(st.files, i);
    }
  }

  /** Dropping the only record with a given id is filtering it out. */
  lemma {:induction false} FilterOthers(files: seq<FileRecord>, i: nat)
    requires IdOrdered(files) && i < |files|
    ensures files[..i] + files[i + 1..] == Filter(files, OtherIds(files[i].id))
    decreases |files|
  {
    var init := files[..|files| - 1];
    if i == |files| - 1 {
      FilterKeepsAll(init, files[i].id);
      FilterSnoc(files, OtherIds(files[i].id));
    } else {
      assert IdOrdered(init) && init[i] == files[i];
      FilterOthers(init, i);
      FilterOthersInner(files, i);
    }
  }

  /** `Filter` on a sequence is `Filter` on all but its last element, then that element if
      it is kept. */
  lemma FilterSnoc<T(!new)>(xs: seq<T>, p: T -> bool)
    requires |xs| > 0
    ensures Filter(xs, p) == Filter(xs[..|xs| - 1], p) + (if p(xs[|xs| - 1]) then [xs[|xs| - 1]] else [])
  {
  }

  lemma FilterOthersInner(files: seq<FileRecord>, i: nat)
    requires IdOrdered(files) && i < |files| - 1
    requires var init := files[..|files| - 1];
      init[..i] + init[i + 1..] == Filter(init, OtherIds(files[i].id))
    ensures files[..i] + files[i + 1..] == Filter(files, OtherIds(files[i].id))
  {
    var init, last := files[..|files| - 1], files[|files| - 1];
    FilterSnoc(files, OtherIds(files[i].id));
    assert OtherIds(files[i].id)(last);
    DropThenSnoc(files, i);
  }

  /** Dropping an inner element commutes with taking off the last one. */
  lemma DropThenSnoc<T>(xs: seq<T>, i: nat)
    requires i < |xs| - 1
    ensures var init := xs[..|xs| - 1]; init[..i] + init[i + 1..] + [xs[|xs| - 1]] == xs[..i] + xs[i + 1..]
  {
    var init := xs[..|xs| - 1];
    assert init[..i] == xs[..i];
    assert init[i + 1..] + [xs[|xs| - 1]] == xs[i + 1..];
  }

  lemma {:induction false} FilterKeepsAll(files: seq<FileRecord>, id: nat)
    requires forall j :: 0 <= j < |files| ==> files[j].id < id
    ensures Filter(files, OtherIds(id)) == files
    decreases |files|
  {
    if |files| > 0 {
      var init := files[..|files| - 1];
      FilterKeepsAll(init, id);
      assert init + [files[|files| - 1]] == files;
    }
  }

  /** In an id-ordered table, a successful update by path changes the contents of the
      record `getFile` finds and nothing else, and a successful delete by path removes
      exactly that record. */
  lemma ByPathChangesOnly(st: Store, path: string, content: Bytes)
    requires IdOrdered(st.files)
    ensures UpdateFile(st, path, content).ok ==>
      ChangesOnly(st, UpdateFile(st, path, content).store, GetFile(st, path).value.id,
                  (x: FileRecord) => x.(content := content))
    ensures DeleteFile(st, path).ok ==>
      DeleteFile(st, path).store.files == Filter(st.files, OtherIds(GetFile(st, path).value.id))
  {
    UpdateByPathChangesOnly(st, path, content);
    DeleteByPathRemovesOne(st, path);
  }

  lemma UpdateByPathChangesOnly(st: Store, path: string, content: Bytes)
    requires IdOrdered(st.files)
    ensures UpdateFile(st, path, content).ok ==>
      ChangesOnly(st, UpdateFile(st, path, content).store, GetFile(st, path).value.id,
                  (x: FileRecord) => x.(content := content))
  {
    if UpdateFile(st, path, content).ok {
      var i := FindPath(st, path).value;
      assert forall j :: 0 <= j < |st.files| && j != i ==> st.files[j].id != st.files[i].id;
    }
  }

  lemma DeleteByPathRemovesOne(st: Store, path: string)
    requires IdOrdered(st.files)
    ensures DeleteFile(st, path).ok ==>
      DeleteFile(st, path).store.files == Filter(st.files, OtherIds(GetFile(st, path).value.id))
  {
    if DeleteFile(st, path).ok {
      var i := FindPath(st, path).value;
      assert DeleteFile(st, path).store.files == st.files[..i] + st.files[i + 1..];
      assert GetFile(st, path).value == st.files[i];
      FilterOthers(st.files, i);
    }
  }

  /** A successful update by path changes exactly the record `getFile` found, and reading
      that path back gives the new contents. */
  lemma UpdateFileThenGet(st: Store, path: string, content: Bytes)
    requires UpdateFile(st, path, content).ok
    ensures var found := GetFile(st, path).value; var st' := UpdateFile(st, path, content).store;
      GetFile(st', path) == Some(found.(content := content))
  {
    var i := FindPath(st, path).value;
    var st' := UpdateFile(st, path, content).store;
    assert st'.files[i].path == path && st'.files[i].project == st.current;
    assert FindPath(st', path).value == i;
  }

  /** Moving a record and reading it back by id gives the record at its new path with its
      contents unchanged. */
  lemma MoveThenGetById(st: Store, id: nat, newPath: string)
    requires IdOrdered(st.files) && MoveFileById(st, id, newPath).ok
    ensures var st' := MoveFileById(st, id, newPath).store;
      GetFileById(st', id) == Some(GetFileById(st, id).value.(path := newPath))
  {
    var st' := MoveFileById(st, id, newPath).store;
    var i := FindId(st.files, id).value;
    assert st'.files[i].id == id;
    FindIdUnique(st'.files, id, i);
    FindIdUnique(st.files, id, i);
  }

  /** In an id-ordered table the record with a given id is the one at its index. */
  lemma FindIdUnique(files: seq<FileRecord>, id: nat, i: nat)
    requires IdOrdered(files) && i < |files| && files[i].id == id
    ensures FindId(files, id) == Some(i)
  {
    var r := FindId(files, id).value;
    assert files[r].id == files[i].id;
  }

  // ---------------------------------------------------------------------------
  // Creating records
  // ---------------------------------------------------------------------------

  /** The tail of an id-ordered table without `x`'s id is such a table too. */
  lemma InsertTail(files: seq<FileRecord>, x: FileRecord)
    requires |files| > 0 && IdOrdered(files) && forall j :: 0 <= j < |files| ==> files[j].id != x.id
    ensures IdOrdered(files[1..]) && forall j :: 0 <= j < |files| - 1 ==> files[1..][j].id != x.id
  {
    forall j | 0 <= j < |files| - 1 ensures files[1..][j] == files[j + 1] {}
  }

  /** Inserts a record at its place in id order. */
  function Insert(files: seq<FileRecord>, x: FileRecord): (r: seq<FileRecord>)
    requires IdOrdered(files) && forall j :: 0 <= j < |files| ==> files[j].id != x.id
    ensures IdOrdered(r)
    ensures multiset(r) == multiset(files) + multiset{x}
    decreases |files|
  {
    if |files| == 0 || x.id < files[0].id then
      ConsOrdered(x, files);
      [x] + files
    else
      InsertTail(files, x);
      var rest := Insert(files[1..], x);
      assert files == [files[0]] + files[1..];
      RestAbove(files, x, rest);
      ConsOrdered(files[0], rest);
      [files[0]] + rest
  }

  lemma RestAbove(files: seq<FileRecord>, x: FileRecord, rest: seq<FileRecord>)
    requires IdOrdered(files) && |files| > 0 && files[0].id < x.id
    requires multiset(rest) == multiset(files[1..]) + multiset{x}
    ensures forall j :: 0 <= j < |rest| ==> files[0].id < rest[j].id
  {
    forall j | 0 <= j < |rest|
      ensures files[0].id < rest[j].id
    {
      assert rest[j] in multiset(rest);
      if rest[j] != x {
        assert rest[j] in files[1..];
      }
    }
  }

  lemma ConsOrdered(a: FileRecord, rest: seq<FileRecord>)
    requires IdOrdered(rest) && forall j :: 0 <= j < |rest| ==> a.id < rest[j].id
    ensures IdOrdered([a] + rest)
  {
    var s := [a] + rest;
    forall i, j | 0 <= i < j < |s|
      ensures s[i].id < s[j].id
    {
      assert s[j] == rest[j - 1];
      if i > 0 {
        assert s[i] == rest[i - 1];
      }
    }
  }

  /** `createFile(path, content)` with the id the clock gave: adding a record whose id is
      taken fails, and otherwise the record joins the current project. */
  function CreateFile(st: Store, id: nat, path: string, content: Bytes): (r: Result<Store, Error>)
    requires IdOrdered(st.files)
    ensures r.Err? <==> GetFileById(st, id).Some?
    ensures r.Err? ==> r.error == DuplicateId(id)
    ensures r.Ok? ==> IdOrdered(r.value.files) && r.value.current == st.current
    ensures r.Ok? ==> multiset(r.value.files) == multiset(st.files) + multiset{FileRecord(id, path, content, st.current)}
  {
    if FindId(st.files, id).Some? then Err(DuplicateId(id))
    else Ok(st.(files := Insert(st.files, FileRecord(id, path, content, st.current))))
  }

  /** A created record can be read back by its id and by its path (unless an earlier record
      of the project has the same path). */
  lemma CreateThenGet(st: Store, id: nat, path: string, content: Bytes)
    requires IdOrdered(st.files) && CreateFile(st, id, path, content).Ok?
    ensures var st' := CreateFile(st, id, path, content).value;
      && GetFileById(st', id) == Some(FileRecord(id, path, content, st.current))
      && (GetFile(st, path).None? ==> GetFile(st', path) == Some(FileRecord(id, path, content, st.current)))
  {
    var st' := CreateFile(st, id, path, content).value;
    var x := FileRecord(id, path, content, st.current);
    assert x in multiset(st'.files);
    var i :| 0 <= i < |st'.files| && st'.files[i] == x;
    FindIdUnique(st'.files, id, i);
    if GetFile(st, path).None? {
      var g := GetFile(st', path);
      assert g.Some? by {
        assert x in st'.files;
      }
      assert g.value in multiset(st'.files);
    }
  }

  // ---------------------------------------------------------------------------
  // Importing
  // ---------------------------------------------------------------------------

  /** A file handed to the import: its name and contents. */
  datatype NamedFile = NamedFile(name: string, contents: Bytes)

  /** Where an import goes: a lone `.zip` archive is unpacked; anything else is stored
      file by file at the given paths. */
  datatype Route = ViaZip(archive: NamedFile) | Direct(targets: seq<NamedFile>)

  /** The path a file is stored at: its name at the root, else under `path`. */
  function BasePath(path: string, name: string): string
  {
    if path == "" then name else path + "/" + name
  }

  /** `importFiles(files, path)`, up to the records it creates: a lone `.zip` file is
      unpacked, and every other selection is stored file by file, each under `path` with
      its own name and contents, in the order given. */
  function ImportRoute(files: seq<NamedFile>, path: string): (r: Route)
    ensures r.ViaZip? <==> |files| == 1 && EndsWith(files[0].name, ".zip")
    ensures r.ViaZip? ==> r.archive == files[0]
    ensures r.Direct? ==> |r.targets| == |files|
    ensures r.Direct? ==> forall k :: 0 <= k < |files| ==>
      r.targets[k] == NamedFile(BasePath(path, files[k].name), files[k].contents)
  {
    if |files| == 1 && EndsWith(files[0].name, ".zip") then ViaZip(files[0])
    else Direct(seq(|files|, k requires 0 <= k < |files| => NamedFile(BasePath(path, files[k].name), files[k].contents)))
  }

  /** A plain file imported into a folder lands in that folder under its own name. */
  lemma ImportLandsInFolder(files: seq<NamedFile>, path: string, k: nat)
    requires k < |files| && '/' !in files[k].name && ImportRoute(files, path).Direct?
    ensures var target := ImportRoute(files, path).targets[k].name;
      && GetParentDirectory(target) == path
      && Basename(target) == files[k].name
  {
    var target := ImportRoute(files, path).targets[k].name;
    if path == "" {
      ParentBasename(files[k].name);
    } else {
      ParentOfChild(path, files[k].name);
    }
  }

  /** Stores the direct imports one after another with the given ids; the first failure
      stops the import, and the records created before it stay. */
  function CreateAll(st: Store, targets: seq<NamedFile>, ids: seq<nat>): (r: (Store, Option<Error>))
    requires IdOrdered(st.files) && |ids| == |targets|
    ensures IdOrdered(r.0.files) && r.0.current == st.current
    ensures r.1.None? ==> |r.0.files| == |st.files| + |targets|
    decreases |targets|
  {
    if |targets| == 0 then (st, None)
    else
      match CreateFile(st, ids[0], targets[0].name, targets[0].contents)
      case Err(e) => (st, Some(e))
      case Ok(st1) =>
        assert |multiset(st1.files)| == |multiset(st.files)| + 1;
        CreateAll(st1, targets[1..], ids[1..])
  }

  /** The ids in use in a table. */
  function IdsOf(files: seq<FileRecord>): set<nat>
  {
    set x | x in files :: x.id
  }

  /** The id at position `n` is already in `used` or repeats an earlier id of `ids`. */
  predicate ClashAt(used: set<nat>, ids: seq<nat>, n: nat)
    requires n < |ids|
  {
    ids[n] in used || ids[n] in ids[..n]
  }

  /** After a fresh first id, a clash of the rest (with that id in use) is a clash of the
      whole, one position on. */
  lemma ClashShift(used: set<nat>, ids: seq<nat>)
    requires |ids| > 0 && ids[0] !in used
    ensures !ClashAt(used, ids, 0)
    ensures forall n :: 0 <= n < |ids| - 1 ==> (ClashAt(used, ids, n + 1) <==> ClashAt(used + {ids[0]}, ids[1..], n))
    ensures forall n :: 1 <= n < |ids| ==> (ClashAt(used, ids, n) <==> ClashAt(used + {ids[0]}, ids[1..], n - 1))
  {
    forall n | 0 <= n < |ids| - 1
      ensures ClashAt(used, ids, n + 1) <==> ClashAt(used + {ids[0]}, ids[1..], n)
    {
      assert ids[..n + 1] == [ids[0]] + ids[1..][..n];
    }
  }

  /** The first position whose id clashes. */
  function FirstClash(used: set<nat>, ids: seq<nat>): (r: Option<nat>)
    ensures r.Some? ==> r.value < |ids| && ClashAt(used, ids, r.value)
    decreases |ids|
  {
    if |ids| == 0 then None
    else if ids[0] in used then Some(0)
    else
      ClashShift(used, ids);
      Shift(FirstClash(used + {ids[0]}, ids[1..]))
  }

  /** `FirstClash` finds the first clash, and finds none exactly when no id clashes. */
  lemma {:induction false} FirstClashFirst(used: set<nat>, ids: seq<nat>)
    ensures var r := FirstClash(used, ids);
      r.Some? ==> forall n :: 0 <= n < r.value ==> !ClashAt(used, ids, n)
    ensures FirstClash(used, ids).None? <==> forall n :: 0 <= n < |ids| ==> !ClashAt(used, ids, n)
    decreases |ids|
  {
    if |ids| > 0 && ids[0] !in used {
      FirstClashFirst(used + {ids[0]}, ids[1..]);
      ClashShift(used, ids);
      FirstClashFresh(used, ids);
    }
  }

  /** A position one further on, if any. */
  function Shift(o: Option<nat>): Option<nat>
  {
    match o
    case None => None
    case Some(n) => Some(n + 1)
  }

  /** The records an import of `targets` with `ids` creates in a project. */
  function Records(targets: seq<NamedFile>, ids: seq<nat>, project: string): (xs: seq<FileRecord>)
    requires |ids| == |targets|
    ensures |xs| == |targets|
  {
    seq(|targets|, k requires 0 <= k < |targets| => FileRecord(ids[k], targets[k].name, targets[k].contents, project))
  }

  /** What importing file by file leaves: it stops at the first id already in use (in the
      table or earlier in the import) and reports that id, and the table then holds its old
      records plus those created before the clash, one per target. Without a clash every
      target becomes a record. */
  predicate Stops(st: Store, targets: seq<NamedFile>, ids: seq<nat>)
    requires IdOrdered(st.files) && |ids| == |targets|
  {
    var r := CreateAll(st, targets, ids);
    match FirstClash(IdsOf(st.files), ids)
    case None =>
      r.1.None? && multiset(r.0.files) == multiset(st.files) + multiset(Records(targets, ids, st.current))
    case Some(n) =>
      && r.1 == Some(DuplicateId(ids[n]))
      && multiset(r.0.files) == multiset(st.files) + multiset(Records(targets[..n], ids[..n], st.current))
  }

  /** `CreateAll` does what `Stops` describes. */
  lemma {:induction false} CreateAllStops(st: Store, targets: seq<NamedFile>, ids: seq<nat>)
    requires IdOrdered(st.files) && |ids| == |targets|
    ensures Stops(st, targets, ids)
    decreases |targets|
  {
    if |targets| > 0 {
      if ids[0] in IdsOf(st.files) {
        CreateAllClash(st, targets, ids);
      } else {
        assert GetFileById(st, ids[0]).None?;
        var st1 := CreateFile(st, ids[0], targets[0].name, targets[0].contents).value;
        CreateAllStops(st1, targets[1..], ids[1..]);
        CreateAllStep(st, targets, ids, st1);
      }
    }
  }

  /** An id already in the table stops the import at once. */
  lemma CreateAllClash(st: Store, targets: seq<NamedFile>, ids: seq<nat>)
    requires IdOrdered(st.files) && |ids| == |targets| > 0 && ids[0] in IdsOf(st.files)
    ensures Stops(st, targets, ids)
  {
    var x :| x in st.files && x.id == ids[0];
    assert Records(targets[..0], ids[..0], st.current) == [];
  }

  /** A fresh first id creates its record and leaves the rest to the remaining import. */
  lemma CreateAllStep(st: Store, targets: seq<NamedFile>, ids: seq<nat>, st1: Store)
    requires IdOrdered(st.files) && |ids| == |targets| > 0 && ids[0] !in IdsOf(st.files)
    requires CreateFile(st, ids[0], targets[0].name, targets[0].contents) == Ok(st1)
    requires Stops(st1, targets[1..], ids[1..])
    ensures Stops(st, targets, ids)
  {
    var rest := FirstClash(IdsOf(st.files) + {ids[0]}, ids[1..]);
    if rest.None? {
      StepNone(st, targets, ids, st1);
    } else {
      StepSome(st, targets, ids, st1, rest.value);
    }
  }

  /** A created first record hands the rest of the import to the new table. */
  lemma CreateAllFirst(st: Store, targets: seq<NamedFile>, ids: seq<nat>, st1: Store)
    requires IdOrdered(st.files) && |ids| == |targets| > 0
    requires CreateFile(st, ids[0], targets[0].name, targets[0].contents) == Ok(st1)
    ensures IdOrdered(st1.files) && st1.current == st.current
    ensures multiset(st1.files) == multiset(st.files) + multiset{FileRecord(ids[0], targets[0].name, targets[0].contents, st.current)}
    ensures IdsOf(st1.files) == IdsOf(st.files) + {ids[0]}
    ensures CreateAll(st, targets, ids) == CreateAll(st1, targets[1..], ids[1..])
  {
    IdsOfAdd(st.files, st1.files, FileRecord(ids[0], targets[0].name, targets[0].contents, st.current));
  }

  /** A fresh first id moves the search for a clash one position on. */
  lemma FirstClashFresh(used: set<nat>, ids: seq<nat>)
    requires |ids| > 0 && ids[0] !in used
    ensures FirstClash(used, ids) == Shift(FirstClash(used + {ids[0]}, ids[1..]))
  {
  }

  /** Without a later clash, the rest's records follow the first one. */
  lemma StepNone(st: Store, targets: seq<NamedFile>, ids: seq<nat>, st1: Store)
    requires IdOrdered(st.files) && |ids| == |targets| > 0 && ids[0] !in IdsOf(st.files)
    requires CreateFile(st, ids[0], targets[0].name, targets[0].contents) == Ok(st1)
    requires FirstClash(IdsOf(st.files) + {ids[0]}, ids[1..]) == None
    requires Stops(st1, targets[1..], ids[1..])
    ensures Stops(st, targets, ids)
  {
    CreateAllFirst(st, targets, ids, st1);
    FirstClashFresh(IdsOf(st.files), ids);
    RecordsCons(targets, ids, st.current);
  }

  /** A later clash at `m` of the rest is a clash at `m + 1` of the whole import. */
  lemma StepSome(st: Store, targets: seq<NamedFile>, ids: seq<nat>, st1: Store, m: nat)
    requires IdOrdered(st.files) && |ids| == |targets| > 0 && ids[0] !in IdsOf(st.files)
    requires CreateFile(st, ids[0], targets[0].name, targets[0].contents) == Ok(st1)
    requires FirstClash(IdsOf(st.files) + {ids[0]}, ids[1..]) == Some(m)
    requires Stops(st1, targets[1..], ids[1..])
    ensures Stops(st, targets, ids)
  {
    CreateAllFirst(st, targets, ids, st1);
    FirstClashFresh(IdsOf(st.files), ids);
    assert FirstClash(IdsOf(st.files), ids) == Some(m + 1);
    var r1 := CreateAll(st1, targets[1..], ids[1..]);
    assert r1.1 == Some(DuplicateId(ids[m + 1]));
    var x := FileRecord(ids[0], targets[0].name, targets[0].contents, st.current);
    var tail := Records(targets[1..][..m], ids[1..][..m], st.current);
    assert multiset(r1.0.files) == multiset(st1.files) + multiset(tail);
    RecordsConsPrefix(targets, ids, st.current, m);
    assert multiset(Records(targets[..m + 1], ids[..m + 1], st.current)) == multiset{x} + multiset(tail);
  }

  /** Adding one record adds its id to the ids in use. */
  lemma IdsOfAdd(files: seq<FileRecord>, files': seq<FileRecord>, x: FileRecord)
    requires multiset(files') == multiset(files) + multiset{x}
    ensures IdsOf(files') == IdsOf(files) + {x.id}
  {
    forall y ensures y in files' <==> y in files || y == x {
      assert y in files' <==> y in multiset(files');
      assert y in files <==> y in multiset(files);
    }
  }

  /** The records of a prefix are the first record followed by the records of the rest's
      prefix. */
  lemma RecordsConsPrefix(targets: seq<NamedFile>, ids: seq<nat>, project: string, m: nat)
    requires |ids| == |targets| > m
    ensures Records(targets[..m + 1], ids[..m + 1], project) ==
      [FileRecord(ids[0], targets[0].name, targets[0].contents, project)] + Records(targets[1..][..m], ids[1..][..m], project)
  {
  }

  /** The records of an import are its first record followed by the records of the rest. */
  lemma RecordsCons(targets: seq<NamedFile>, ids: seq<nat>, project: string)
    requires |ids| == |targets| > 0
    ensures Records(targets, ids, project) ==
      [FileRecord(ids[0], targets[0].name, targets[0].contents, project)] + Records(targets[1..], ids[1..], project)
  {
  }

  /** The entries of an archive that are imported: none under a top-level `__MACOSX`
      folder, and no folder entries (names ending in `/`). */
  function ZipEntries(names: seq<string>): (r: seq<string>)
    ensures forall n :: n in r <==> n in names && Segments(n)[0] != "__MACOSX" && !EndsWith(n, "/")
  {
    Filter(names, (n: string) => Segments(n)[0] != "__MACOSX" && !EndsWith(n, "/"))
  }

  /** Why unpacking fails: no entry is left after filtering (`files[0]` is undefined). */
  datatype ZipError = EmptyArchive

  /** Base-folder stripping as the program does it: the base is the first name's first
      segment; if every name starts with it, the first occurrence of `base + "/"` is
      removed from each name. */
  function StripBaseAsWritten(names: seq<string>): (r: Result<seq<string>, ZipError>)
    ensures r.Err? <==> names == []
    ensures r.Ok? ==> |r.value| == |names|
  {
    if names == [] then Err(EmptyArchive)
    else
      var base := Segments(names[0])[0];
      if forall k :: 0 <= k < |names| ==> StartsWith(names[k], base)
      then Ok(seq(|names|, k requires 0 <= k < |names| => ReplaceFirst(names[k], base + "/", "")))
      else Ok(names)
  }

  /** A name in a folder other than the base whose own folder starts like the base passes
      the guard, and the later `base + "/"` inside it is cut out: `ab/a/n` becomes `ab/n`
      although it is not inside `a`. */
  lemma StripBaseAsWrittenCutsOtherFolder()
    ensures StripBaseAsWritten(["a/m", "ab/a/n"]) == Ok(["m", "ab/n"])
  {
    var names := ["a/m", "ab/a/n"];
    ExampleBase();
    ExampleGuard(names);
    StripBaseAsWrittenGuarded(names);
    ExampleOut(names, StripBaseAsWritten(names).value);
  }

  /** The two example names, each cut at its first `a/`. */
  lemma ExampleOut(names: seq<string>, r: seq<string>)
    requires names == ["a/m", "ab/a/n"] && |r| == 2
    requires forall k :: 0 <= k < |names| ==> r[k] == ReplaceFirst(names[k], "a" + "/", "")
    ensures r == ["m", "ab/n"]
  {
    ExampleCuts();
    assert "a" + "/" == "a/";
    assert r[0] == "m" && r[1] == "ab/n";
  }

  /** When every name starts with the base, each is cut at its first `base + "/"`. */
  lemma StripBaseAsWrittenGuarded(names: seq<string>)
    requires names != [] && forall k :: 0 <= k < |names| ==> StartsWith(names[k], Segments(names[0])[0])
    ensures StripBaseAsWritten(names).Ok?
    ensures forall k :: 0 <= k < |names| ==>
      StripBaseAsWritten(names).value[k] == ReplaceFirst(names[k], Segments(names[0])[0] + "/", "")
  {
  }

  /** Both example names start with the base. */
  lemma ExampleGuard(names: seq<string>)
    requires names == ["a/m", "ab/a/n"]
    ensures forall k :: 0 <= k < |names| ==> StartsWith(names[k], "a")
  {
    assert StartsWith(names[0], "a") && StartsWith(names[1], "a");
  }

  /** The base of the example is `a`. */
  lemma ExampleBase()
    ensures Segments("a/m")[0] == "a"
  {
    assert Split("a/m", "/") == ["a", "m"] by {
      LacksFirst("a", "/");
      LacksFirst("m", "/");
      SplitLeadingField("a", "m", "/");
      SplitWithoutSeparator("m", "/");
    }
  }

  /** The first `a/` of each example name, removed. */
  lemma ExampleCuts()
    ensures ReplaceFirst("a/m", "a/", "") == "m"
    ensures ReplaceFirst("ab/a/n", "a/", "") == "ab/n"
  {
    assert IndexOf("a/m", "a/") == Some(0);
    assert IndexOf("ab/a/n", "a/") == Some(3) by {
      var t := "ab/a/n";
      assert t[0..2][1] != "a/"[1] && t[1..3][0] != "a/"[0] && t[2..4][0] != "a/"[0];
      assert OccursAt("ab/a/n", "a/", 3);
    }
    assert "ab/a/n"[..3] + "" + "ab/a/n"[5..] == "ab/" + "n";
  }

  /** Base-folder stripping as intended: when every name lies inside the first name's top
      folder, that folder is removed from the front of each name. */
  function StripBase(names: seq<string>): (r: Result<seq<string>, ZipError>)
    ensures r.Err? <==> names == []
    ensures r.Ok? ==> |r.value| == |names|
  {
    if names == [] then Err(EmptyArchive)
    else
      var base := Segments(names[0])[0];
      if forall k :: 0 <= k < |names| ==> StartsWith(names[k], base + "/")
      then Ok(seq(|names|, k requires 0 <= k < |names| => names[k][|base| + 1..]))
      else Ok(names)
  }

  /** Each stripped name, put back under the base folder, is the original name; and when
      some name is outside the base folder, no name changes. */
  lemma StripBaseRoundTrip(names: seq<string>)
    requires names != []
    ensures var base := Segments(names[0])[0]; var out := StripBase(names).value;
      && ((forall k :: 0 <= k < |names| ==> StartsWith(names[k], base + "/")) ==>
            forall k :: 0 <= k < |names| ==> base + "/" + out[k] == names[k])
      && ((exists k :: 0 <= k < |names| && !StartsWith(names[k], base + "/")) ==> out == names)
  {
    var base := Segments(names[0])[0];
    var out := StripBase(names).value;
    if forall k :: 0 <= k < |names| ==> StartsWith(names[k], base + "/") {
      forall k | 0 <= k < |names|
        ensures base + "/" + out[k] == names[k]
      {
        assert names[k] == names[k][..|base| + 1] + names[k][|base| + 1..];
      }
    }
  }

  /** The guarded stripping and the intended one agree whenever every name lies inside
      the base folder; when some name does not even start with the base, both leave the
      names as they are. They differ only on names that start with the base but not with
      `base + "/"`, such as `ab/a/n` under base `a`. */
  lemma StripBaseAsWrittenAgrees(names: seq<string>)
    requires names != []
    ensures var base := Segments(names[0])[0];
      (forall k :: 0 <= k < |names| ==> StartsWith(names[k], base + "/")) ==>
        StripBaseAsWritten(names) == StripBase(names)
    ensures var base := Segments(names[0])[0];
      (exists k :: 0 <= k < |names| && !StartsWith(names[k], base)) ==>
        StripBaseAsWritten(names) == Ok(names) && StripBase(names) == Ok(names)
  {
    var base := Segments(names[0])[0];
    if forall k :: 0 <= k < |names| ==> StartsWith(names[k], base + "/") {
      forall k | 0 <= k < |names|
        ensures StartsWith(names[k], base)
        ensures ReplaceFirst(names[k], base + "/", "") == names[k][|base| + 1..]
      {
        assert names[k][..|base|] == names[k][..|base| + 1][..|base|];
        assert OccursAt(names[k], base + "/", 0);
      }
      StripBaseAsWrittenGuarded(names);
      assert StripBaseAsWritten(names).value == StripBase(names).value;
    }
  }

  /** The names under which the program stores an archive's entries: filtered, then
      stripped with the guard as written. */
  function ZipImportNamesAsWritten(names: seq<string>): (r: Result<seq<string>, ZipError>)
    ensures r.Err? <==> ZipEntries(names) == []
    ensures r.Ok? ==> |r.value| == |ZipEntries(names)|
  {
    StripBaseAsWritten(ZipEntries(names))
  }

  /** The names under which an archive's entries are stored as intended: filtered, then
      stripped of a common base folder. Each stored name is the tail of its entry, and the
      entry is that name with the base folder put back, or the name itself. */
  function ZipImportNames(names: seq<string>): (r: Result<seq<string>, ZipError>)
    ensures r.Err? <==> ZipEntries(names) == []
    ensures r.Ok? ==> |r.value| == |ZipEntries(names)|
    ensures r.Ok? ==> var es := ZipEntries(names); var base := Segments(es[0])[0];
      || (forall k :: 0 <= k < |es| ==> es[k] == base + "/" + r.value[k])
      || r.value == es
  {
    var es := ZipEntries(names);
    if es != [] then StripBaseRoundTrip(es); StripBase(es) else StripBase(es)
  }
}
