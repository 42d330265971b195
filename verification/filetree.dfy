/**
 The file tree shown in the explorer (`getFileSystemAsTree`): every current-project path
 is split on `/` and walked from the root, creating a node for each segment that has no
 node of that label yet; the node of a path's last segment takes the file's contents. A
 tree whose only root is labelled `""` (all paths began with `/`) is replaced by that
 root's children.
 */
module FileTree {
  import opened Common
  import opened Strings
  import opened Paths
  import opened FileService

  /** A tree node: its label (`name`), children, `key` (the id of the file that created it), whether
      it was created for a file (the icon) and the contents of the last file ending at it. */
  datatype Node = Node(name: string, children: seq<Node>, key: nat, isFile: bool, data: Option<Bytes>)

  /** The index of the first node with the given label (`Array.prototype.find`). */
  function FindLabel(level: seq<Node>, wanted: string): (r: Option<nat>)
    ensures r.Some? ==> r.value < |level| && level[r.value].name == wanted
    ensures r.Some? ==> forall j :: 0 <= j < r.value ==> level[j].name != wanted
    ensures r.None? <==> forall j :: 0 <= j < |level| ==> level[j].name != wanted
  {
    FindLabelFrom(level, wanted, 0)
  }

  function FindLabelFrom(level: seq<Node>, wanted: string, i: nat): (r: Option<nat>)
    requires i <= |level|
    ensures r.Some? ==> i <= r.value < |level| && level[r.value].name == wanted
    ensures r.Some? ==> forall j :: i <= j < r.value ==> level[j].name != wanted
    ensures r.None? <==> forall j :: i <= j < |level| ==> level[j].name != wanted
    decreases |level| - i
  {
    if i == |level| then None
    else if level[i].name == wanted then Some(i)
    else FindLabelFrom(level, wanted, i + 1)
  }

  /** One file's walk down the tree along the segments `segs` of its path. */
  function Insert(level: seq<Node>, segs: seq<string>, f: FileRecord): (r: seq<Node>)
    requires |segs| >= 1
    ensures |r| == |level| || |r| == |level| + 1
    ensures forall j :: 0 <= j < |level| ==> r[j].name == level[j].name
    ensures |r| == |level| + 1 ==> r[|level|].name == segs[0]
    decreases |segs|
  {
    var found := FindLabel(level, segs[0]);
    var node := if found.Some? then level[found.value] else Node(segs[0], [], f.id, |segs| == 1, None);
    var withData := if |segs| == 1 then node.(data := Some(f.content)) else node;
    var node' := if |segs| == 1 then withData else withData.(children := Insert(withData.children, segs[1..], f));
    if found.Some? then level[found.value := node'] else level + [node']
  }

  /** The node at the end of the label chain `segs`, following the first node of each
      label. */
  function Lookup(level: seq<Node>, segs: seq<string>): Option<Node>
    requires |segs| >= 1
    decreases |segs|
  {
    match FindLabel(level, segs[0])
    case None => None
    case Some(i) => if |segs| == 1 then Some(level[i]) else Lookup(level[i].children, segs[1..])
  }

  /** The contents stored at the end of a chain, if the chain exists and holds any. */
  function DataOf(level: seq<Node>, segs: seq<string>): Option<Bytes>
    requires |segs| >= 1
  {
    match Lookup(level, segs)
    case None => None
    case Some(n) => n.data
  }

  /** Inserting a file stores its contents at the end of its own chain and changes what is
      stored at no other chain. */
  lemma {:induction false} InsertData(level: seq<Node>, segs: seq<string>, f: FileRecord, other: seq<string>)
    requires |segs| >= 1 && |other| >= 1
    ensures DataOf(Insert(level, segs, f), other) == if other == segs then Some(f.content) else DataOf(level, other)
    decreases |segs|
  {
    var r := Insert(level, segs, f);
    var found := FindLabel(level, segs[0]);
    if other[0] != segs[0] {
      SameFind(level, r, other[0], segs[0]);
    } else {
      var i := if found.Some? then found.value else |level|;
      assert FindLabel(r, other[0]) == Some(i);
      if |segs| > 1 && |other| > 1 {
        var node := if found.Some? then level[found.value] else Node(segs[0], [], f.id, false, None);
        InsertData(node.children, segs[1..], f, other[1..]);
        assert other == segs <==> other[1..] == segs[1..] by {
          assert other == [other[0]] + other[1..] && segs == [segs[0]] + segs[1..];
        }
        if found.None? {
          assert Lookup([], other[1..]) == None;
        }
      } else if |other| > 1 {
        if found.None? {
          assert Lookup([], other[1..]) == None;
        }
      }
    }
  }

  /** Labels other than the inserted first segment are found where they were. */
  lemma SameFind(level: seq<Node>, r: seq<Node>, wanted: string, inserted: string)
    requires wanted != inserted
    requires |r| == |level| || (|r| == |level| + 1 && r[|level|].name == inserted)
    requires forall j :: 0 <= j < |level| ==> r[j].name == level[j].name
    requires forall j :: 0 <= j < |level| && level[j].name != inserted ==> r[j] == level[j]
    ensures FindLabel(r, wanted) == FindLabel(level, wanted)
    ensures FindLabel(r, wanted).Some? ==> r[FindLabel(r, wanted).value] == level[FindLabel(r, wanted).value]
  {
  }

  /** Siblings never share a label, at any depth. */
  predicate Unique(level: seq<Node>)
    decreases level
  {
    && (forall i, j :: 0 <= i < j < |level| ==> level[i].name != level[j].name)
    && (forall i :: 0 <= i < |level| ==> Unique(level[i].children))
  }

  /** Inserting a file keeps sibling labels distinct. */
  lemma {:induction false} InsertUnique(level: seq<Node>, segs: seq<string>, f: FileRecord)
    requires |segs| >= 1 && Unique(level)
    ensures Unique(Insert(level, segs, f))
    decreases |segs|
  {
    var found := FindLabel(level, segs[0]);
    var node := if found.Some? then level[found.value] else Node(segs[0], [], f.id, |segs| == 1, None);
    if |segs| > 1 {
      assert Unique(node.children);
      InsertUnique(node.children, segs[1..], f);
    }
    var r := Insert(level, segs, f);
    assert forall i :: 0 <= i < |r| ==> Unique(r[i].children);
  }

  /** The current project's files inserted one after another, in table order. */
  function Build(files: seq<FileRecord>): seq<Node>
  {
    if |files| == 0 then []
    else Insert(Build(files[..|files| - 1]), Segments(files[|files| - 1].path), files[|files| - 1])
  }

  /** The contents of the last file in `files` at `path`, if there is one. */
  function LastContent(files: seq<FileRecord>, path: string): (r: Option<Bytes>)
    ensures r.None? <==> forall k :: 0 <= k < |files| ==> files[k].path != path
  {
    if |files| == 0 then None
    else if files[|files| - 1].path == path then Some(files[|files| - 1].content)
    else LastContent(files[..|files| - 1], path)
  }

  /** Two paths with the same segments are the same path. */
  lemma SegmentsInjective(p: string, q: string)
    ensures Segments(p) == Segments(q) <==> p == q
  {
    JoinSplit(p, "/");
    JoinSplit(q, "/");
  }

  /** The node at the end of every path's chain holds the contents of the last file with
      that path; chains of paths no file has hold nothing. */
  lemma {:induction false} BuildData(files: seq<FileRecord>, path: string)
    ensures DataOf(Build(files), Segments(path)) == LastContent(files, path)
    decreases |files|
  {
    if |files| > 0 {
      var last := files[|files| - 1];
      BuildData(files[..|files| - 1], path);
      InsertData(Build(files[..|files| - 1]), Segments(last.path), last, Segments(path));
      SegmentsInjective(path, last.path);
    }
  }

  lemma {:induction false} BuildUnique(files: seq<FileRecord>)
    ensures Unique(Build(files))
    decreases |files|
  {
    if |files| > 0 {
      BuildUnique(files[..|files| - 1]);
      var last := files[|files| - 1];
      InsertUnique(Build(files[..|files| - 1]), Segments(last.path), last);
    }
  }

  /** A lone root labelled `""` gives way to its children. */
  function Collapse(tree: seq<Node>): (r: seq<Node>)
    ensures Unique(tree) ==> Unique(r)
  {
    if |tree| == 1 && tree[0].name == "" then tree[0].children else tree
  }

  /** `getFileSystemAsTree()`: no two siblings share a label, at any depth. */
  function GetFileSystemAsTree(st: Store): (r: seq<Node>)
    ensures Unique(r)
  {
    BuildUnique(CurrentFiles(st));
    Collapse(Build(CurrentFiles(st)))
  }

  /** Looking a chain up in the collapsed tree: when the lone `""` root was removed, a
      chain that began with `""` is found without that first label. */
  lemma CollapseLookup(tree: seq<Node>, segs: seq<string>)
    requires |segs| >= 2 && segs[0] == "" && |tree| == 1 && tree[0].name == ""
    ensures Lookup(Collapse(tree), segs[1..]) == Lookup(tree, segs)
  {
    assert FindLabel(tree, "") == Some(0);
  }

  /** The tree of the current project: sibling labels are distinct at every depth (after
      the collapse too), and every current-project path's chain ends at a node holding the
      contents of the last such file at that path. */
  lemma TreeProperties(st: Store, path: string)
    ensures Unique(GetFileSystemAsTree(st))
    ensures DataOf(Build(CurrentFiles(st)), Segments(path)) == LastContent(CurrentFiles(st), path)
    ensures (exists x :: x in st.files && x.project == st.current && x.path == path) ==>
      Lookup(Build(CurrentFiles(st)), Segments(path)).Some?
  {
    BuildUnique(CurrentFiles(st));
    BuildData(CurrentFiles(st), path);
  }
}
