/**
 Slash-separated paths as the program manipulates them: `path.split("/")`, dropping the
 last segment and joining the rest (`getParentDirectory` in the file service and the
 library-directory derivation of the build pipeline).
 */
module Paths {
  import opened Strings

  /** The segments of a path. */
  function Segments(path: string): (segs: seq<string>)
    ensures |segs| >= 1
    ensures forall k :: 0 <= k < |segs| ==> '/' !in segs[k]
  {
    Split(path, "/")
  }

  /** `path.split("/").slice(0, -1).join("/")`: everything before the last `/`, or `""`
      when there is no `/`. */
  function Parent(path: string): string
  {
    var segs := Segments(path);
    Join(segs[..|segs| - 1], "/")
  }

  /** The last segment of a path. */
  function Basename(path: string): (b: string)
    ensures '/' !in b
  {
    var segs := Segments(path);
    segs[|segs| - 1]
  }

  lemma {:induction false} JoinSnoc(parts: seq<string>, x: string, sep: string)
    requires |parts| >= 1
    ensures Join(parts + [x], sep) == Join(parts, sep) + sep + x
    decreases |parts|
  {
    if |parts| == 1 {
      assert parts + [x] == [parts[0], x];
    } else {
      assert (parts + [x])[1..] == parts[1..] + [x];
      JoinSnoc(parts[1..], x, sep);
    }
  }

  /** A path with a `/` is its parent, a `/`, and its last segment; a path without one
      has the empty parent. */
  lemma ParentBasename(path: string)
    ensures '/' in path ==> Parent(path) + "/" + Basename(path) == path
    ensures '/' !in path ==> Parent(path) == "" && Basename(path) == path
  {
    var segs := Segments(path);
    JoinSplit(path, "/");
    if |segs| == 1 {
      assert Join(segs, "/") == segs[0];
    } else {
      assert segs == segs[..|segs| - 1] + [segs[|segs| - 1]];
      JoinSnoc(segs[..|segs| - 1], segs[|segs| - 1], "/");
    }
  }

  /** Placing a `/`-free name under a directory makes that directory its parent. */
  lemma ParentOfChild(dir: string, name: string)
    requires '/' !in name
    ensures Parent(dir + "/" + name) == dir
    ensures Basename(dir + "/" + name) == name
  {
    var segs := Segments(dir);
    var parts := segs + [name];
    JoinSplit(dir, "/");
    JoinSnoc(segs, name, "/");
    SplitJoinChar(parts, "/");
    assert parts[..|parts| - 1] == segs;
  }
}
