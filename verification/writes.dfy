/**
 Ordered writes into a path-keyed store. Both the toolchain's in-memory file system and the
 analyzer's file system are updated by a sequence of `writeFile`/`addFile` calls in which a
 later write to a path replaces an earlier one.
 */
module Writes {
  import opened Common

  /** The value of the last write to `key` in `ws`, if `ws` writes `key` at all. */
  function LastWrite<V>(ws: seq<(string, V)>, key: string): (r: Option<V>)
    ensures r.None? <==> forall i :: 0 <= i < |ws| ==> ws[i].0 != key
    ensures r.Some? ==> exists i :: 0 <= i < |ws| && ws[i] == (key, r.value)
  {
    if |ws| == 0 then None
    else if ws[|ws| - 1].0 == key then Some(ws[|ws| - 1].1)
    else LastWrite(ws[..|ws| - 1], key)
  }

  /** A write that no later write to the same key follows is the last one. */
  lemma {:induction false} LastWriteAt<V>(ws: seq<(string, V)>, i: nat)
    requires i < |ws| && forall j :: i < j < |ws| ==> ws[j].0 != ws[i].0
    ensures LastWrite(ws, ws[i].0) == Some(ws[i].1)
    decreases |ws|
  {
    if i < |ws| - 1 {
      var prev := ws[..|ws| - 1];
      assert prev[i] == ws[i];
      LastWriteAt(prev, i);
    }
  }

  /** The paths written by `ws`. */
  function Written<V>(ws: seq<(string, V)>): set<string>
  {
    set i | 0 <= i < |ws| :: ws[i].0
  }

  /** The store after performing the writes `ws` in order, starting from `fs`. */
  function Apply<V>(fs: map<string, V>, ws: seq<(string, V)>): (r: map<string, V>)
    ensures r.Keys == fs.Keys + Written(ws)
    ensures forall k :: LastWrite(ws, k).Some? ==> r[k] == LastWrite(ws, k).value
    ensures forall k :: k in fs && LastWrite(ws, k).None? ==> r[k] == fs[k]
  {
    if |ws| == 0 then fs
    else
      var prev := ws[..|ws| - 1];
      assert Written(ws) == Written(prev) + {ws[|ws| - 1].0} by {
        forall p | p in Written(ws) ensures p in Written(prev) + {ws[|ws| - 1].0} {
          var i :| 0 <= i < |ws| && ws[i].0 == p;
          if i < |ws| - 1 { assert prev[i] == ws[i]; }
        }
        forall p | p in Written(prev) ensures p in Written(ws) {
          var i :| 0 <= i < |prev| && prev[i].0 == p;
          assert ws[i] == prev[i];
        }
      }
      Apply(fs, prev)[ws[|ws| - 1].0 := ws[|ws| - 1].1]
  }
}
