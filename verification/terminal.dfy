/**
 The terminal's line buffer (`acum` in the key handler of the terminal component): keys
 are gathered until Enter hands the line to the input listeners; Backspace drops the last
 character; Ctrl+C drops the line and aborts the running program.
 */
module Terminal {
  import opened Common

  const CtrlCCode := 67
  const BackspaceCode := 8
  const EnterCode := 13

  /** The fields of the DOM keyboard event the buffer logic reads, with xterm's `key`. */
  datatype KeyEvent = KeyEvent(key: string, keyCode: int, ctrl: bool)

  predicate IsCtrlC(ev: KeyEvent) { ev.keyCode == CtrlCCode && ev.ctrl }
  predicate IsBackspace(ev: KeyEvent) { !IsCtrlC(ev) && ev.keyCode == BackspaceCode }
  predicate IsEnter(ev: KeyEvent) { !IsCtrlC(ev) && ev.keyCode == EnterCode }

  /** Any other key, with or without Alt, Ctrl or Meta: its `key` is added to the buffer. */
  predicate IsOrdinary(ev: KeyEvent) { !IsCtrlC(ev) && !IsBackspace(ev) && !IsEnter(ev) }

  /** What one key does to the buffer: the buffer afterwards, the line handed to the input
      listeners (Enter only) and whether the program is aborted (Ctrl+C only). */
  datatype Next = Next(acum: string, line: Option<string>, abort: bool)

  function Step(acum: string, ev: KeyEvent): (r: Next)
    ensures r.abort <==> IsCtrlC(ev)
    ensures r.line.Some? <==> IsEnter(ev)
    ensures IsCtrlC(ev) ==> r.acum == ""
    ensures IsBackspace(ev) ==> if acum == "" then r.acum == "" else r.acum + [acum[|acum| - 1]] == acum
    ensures IsEnter(ev) ==> r.acum == "" && r.line == Some(acum + ev.key)
    ensures IsOrdinary(ev) ==> r.acum == acum + ev.key
  {
    if IsCtrlC(ev) then Next("", None, true)
    else if ev.keyCode == BackspaceCode && |acum| == 0 then Next(acum, None, false)
    else
      var acum' := if ev.keyCode == BackspaceCode then acum[..|acum| - 1] else acum + ev.key;
      if ev.keyCode == EnterCode then Next("", Some(acum'), false) else Next(acum', None, false)
  }

  /** A run of keys: the final buffer, the lines handed on in order, and how many aborts. */
  datatype Session = Session(acum: string, lines: seq<string>, aborts: nat)

  function Feed(acum: string, evs: seq<KeyEvent>): Session
    decreases |evs|
  {
    if |evs| == 0 then Session(acum, [], 0)
    else
      var n := Step(acum, evs[0]);
      var rest := Feed(n.acum, evs[1..]);
      Session(rest.acum, (if n.line.Some? then [n.line.value] else []) + rest.lines,
              rest.aborts + (if n.abort then 1 else 0))
  }

  /** Feeding two runs one after the other is feeding their concatenation. */
  lemma {:induction false} FeedAppend(acum: string, xs: seq<KeyEvent>, ys: seq<KeyEvent>)
    ensures var a := Feed(acum, xs); var b := Feed(a.acum, ys);
      Feed(acum, xs + ys) == Session(b.acum, a.lines + b.lines, a.aborts + b.aborts)
    decreases |xs|
  {
    if |xs| > 0 {
      assert (xs + ys)[0] == xs[0];
      assert (xs + ys)[1..] == xs[1..] + ys;
      FeedAppend(Step(acum, xs[0]).acum, xs[1..], ys);
    } else {
      assert xs + ys == ys;
    }
  }

  /** The keys of a run, concatenated. */
  function Keys(evs: seq<KeyEvent>): string
  {
    if |evs| == 0 then "" else evs[0].key + Keys(evs[1..])
  }

  /** Ordinary keys only add their keys to the buffer: no line, no abort. */
  lemma {:induction false} FeedOrdinary(acum: string, evs: seq<KeyEvent>)
    requires forall k :: 0 <= k < |evs| ==> IsOrdinary(evs[k])
    ensures Feed(acum, evs) == Session(acum + Keys(evs), [], 0)
    decreases |evs|
  {
    if |evs| > 0 {
      FeedOrdinary(acum + evs[0].key, evs[1..]);
      assert acum + evs[0].key + Keys(evs[1..]) == acum + (evs[0].key + Keys(evs[1..]));
    }
  }

  /** Typing ordinary keys and then Enter hands on exactly the buffer, the keys and the
      Enter key's own `key`, and leaves the buffer empty. */
  lemma TypeLine(acum: string, evs: seq<KeyEvent>, enter: KeyEvent)
    requires forall k :: 0 <= k < |evs| ==> IsOrdinary(evs[k])
    requires IsEnter(enter)
    ensures Feed(acum, evs + [enter]) == Session("", [acum + Keys(evs) + enter.key], 0)
  {
    FeedAppend(acum, evs, [enter]);
    FeedOrdinary(acum, evs);
  }

  /** Backspace undoes a one-character ordinary key. */
  lemma TypeThenErase(acum: string, ev: KeyEvent, bs: KeyEvent)
    requires IsOrdinary(ev) && |ev.key| == 1 && IsBackspace(bs)
    ensures Feed(acum, [ev, bs]) == Session(acum, [], 0)
  {
    var typed := Step(acum, ev);
    assert typed.acum == acum + ev.key;
    assert typed.acum[..|typed.acum| - 1] == acum;
    assert [ev, bs][1..] == [bs];
    assert Feed(typed.acum, [bs]) == Session(acum, [], 0);
  }

  /** `n` Backspaces drop the last `n` characters of the buffer, or all of them. */
  lemma {:induction false} EraseRun(acum: string, evs: seq<KeyEvent>)
    requires forall k :: 0 <= k < |evs| ==> IsBackspace(evs[k])
    ensures Feed(acum, evs) == Session(acum[..|acum| - Min(|evs|, |acum|)], [], 0)
    decreases |evs|
  {
    if |evs| > 0 {
      var n := Step(acum, evs[0]);
      EraseRun(n.acum, evs[1..]);
      if acum != "" {
        assert n.acum == acum[..|acum| - 1];
        assert n.acum[..|n.acum| - Min(|evs| - 1, |n.acum|)] == acum[..|acum| - Min(|evs|, |acum|)];
      }
    }
  }

  function Min(a: nat, b: nat): nat { if a <= b then a else b }

  /** How many keys of a run are Enter. */
  function Enters(evs: seq<KeyEvent>): nat
  {
    if |evs| == 0 then 0 else (if IsEnter(evs[0]) then 1 else 0) + Enters(evs[1..])
  }

  /** A run that ends with Enter or Ctrl+C leaves the buffer empty, and exactly one line
      is handed on per Enter. */
  lemma {:induction false} FeedLines(acum: string, evs: seq<KeyEvent>)
    ensures |evs| > 0 && (IsEnter(evs[|evs| - 1]) || IsCtrlC(evs[|evs| - 1])) ==> Feed(acum, evs).acum == ""
    ensures |Feed(acum, evs).lines| == Enters(evs)
    decreases |evs|
  {
    if |evs| > 0 {
      FeedLines(Step(acum, evs[0]).acum, evs[1..]);
      if |evs| > 1 {
        assert evs[|evs| - 1] == evs[1..][|evs[1..]| - 1];
      }
    }
  }
}
