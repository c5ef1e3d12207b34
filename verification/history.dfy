/** `EntryHistory` of `support.py`: the list of submitted entry lines and
    the cursor the Up and Down keys move over it. */
module History {
  import opened Wrappers

  /** The submitted entries, oldest first, behind a placeholder `''`, and
      the cursor. The cursor may stand one past the newest entry: that is
      where `add` leaves it. */
  datatype EntryHistory = EntryHistory(entries: seq<string>, index: nat)

  /** The only failure of the history: Python's `IndexError`. */
  datatype HistoryError = IndexError

  predicate Valid(h: EntryHistory)
  {
    1 <= |h.entries| && h.index <= |h.entries|
  }

  /** A fresh history: the placeholder only, cursor on it. */
  function Init(): (h: EntryHistory)
    ensures Valid(h)
    ensures h.entries == [""] && h.index == 0
  {
    EntryHistory([""], 0)
  }

  /** `add`: appends the entry and puts the cursor one past it. Nothing is
      removed or overwritten. */
  function Add(h: EntryHistory, entry: string): (h': EntryHistory)
    requires Valid(h)
    ensures Valid(h')
    ensures |h'.entries| == |h.entries| + 1
    ensures h'.entries[..|h.entries|] == h.entries
    ensures h'.entries[|h.entries|] == entry
    ensures h'.index == |h'.entries|
  {
    EntryHistory(h.entries + [entry], |h.entries| + 1)
  }

  /** `previous`: moves the cursor one back unless it is at the start, and
      returns the entry under it. */
  function Previous(h: EntryHistory): (r: (EntryHistory, string))
    requires Valid(h)
    ensures Valid(r.0) && r.0.entries == h.entries
    ensures r.0.index < |h.entries|
    ensures r.0.index + 1 == h.index || r.0.index == h.index == 0
    ensures r.1 == h.entries[r.0.index]
  {
    var i := if h.index > 0 then h.index - 1 else h.index;
    (EntryHistory(h.entries, i), h.entries[i])
  }

  /** `next` as written: moves the cursor one forward while it is before
      the newest entry, then reads the entry under it. The read fails
      when the cursor stands past the newest entry, where `add` puts it. */
  function Next(h: EntryHistory): (r: Result<(EntryHistory, string), HistoryError>)
    requires Valid(h)
    ensures r.Failure? <==> h.index == |h.entries|
    ensures r.Success? ==> var (h', e) := r.value;
      && h'.entries == h.entries
      && h'.index < |h.entries|
      && (h'.index == h.index + 1 || h'.index == h.index == |h.entries| - 1)
      && e == h.entries[h'.index]
  {
    var i := if h.index < |h.entries| - 1 then h.index + 1 else h.index;
    if i < |h.entries| then Success((EntryHistory(h.entries, i), h.entries[i]))
    else Failure(IndexError)
  }

  /** `next` with the read guarded: past the newest entry the cursor stays
      and the empty line is returned, the line `add`'s caller has just
      cleared. Otherwise it is `next` as written. */
  function NextFixed(h: EntryHistory): (r: (EntryHistory, string))
    requires Valid(h)
    ensures Valid(r.0) && r.0.entries == h.entries
    ensures h.index == |h.entries| ==> r == (h, "")
    ensures h.index < |h.entries| ==> Next(h) == Success(r)
  {
    var i := if h.index < |h.entries| - 1 then h.index + 1 else h.index;
    if i < |h.entries| then (EntryHistory(h.entries, i), h.entries[i])
    else (h, "")
  }

  /** `last`: the newest entry once the cursor has moved off the start,
      the empty line otherwise. */
  function Last(h: EntryHistory): (e: string)
    requires Valid(h)
    ensures h.index > 0 ==> e == h.entries[|h.entries| - 1]
    ensures h.index == 0 ==> e == ""
  {
    if h.index > 0 then h.entries[|h.entries| - 1] else ""
  }

  /** Up right after a submission recalls that submission. */
  lemma AddThenPrevious(h: EntryHistory, entry: string)
    requires Valid(h)
    ensures Previous(Add(h, entry)).1 == entry
    ensures Last(Add(h, entry)) == entry
  {}

  /** Down right after a submission reads past the end of the list. */
  lemma AddThenNextFails(h: EntryHistory, entry: string)
    requires Valid(h)
    ensures Next(Add(h, entry)) == Failure(IndexError)
  {}

  /** The smallest instance: one submission on a fresh history, then
      Down. */
  lemma FreshAddThenNextFails()
    ensures Add(Init(), "a") == EntryHistory(["", "a"], 2)
    ensures Next(Add(Init(), "a")).Failure?
  {}

  /** The corrected `next` never fails and, after a submission, leaves the
      cursor where it is with the empty line. */
  lemma AddThenNextFixed(h: EntryHistory, entry: string)
    requires Valid(h)
    ensures NextFixed(Add(h, entry)) == (Add(h, entry), "")
  {}

  /** Once Up has been pressed, `next` as written cannot fail until the
      next submission. */
  lemma PreviousThenNext(h: EntryHistory)
    requires Valid(h)
    ensures Next(Previous(h).0).Success?
  {}

  /** The key presses that move over the history. */
  datatype Step = Submit(entry: string) | Up | Down

  /** One key press. Down uses `next` as written; when it raises the
      history is left as it was. */
  function Press(h: EntryHistory, step: Step): (h': EntryHistory)
    requires Valid(h)
    ensures Valid(h')
  {
    match step
    case Submit(e) => Add(h, e)
    case Up => Previous(h).0
    case Down => if Next(h).Success? then Next(h).value.0 else h
  }

  /** The history after a run of key presses. */
  function Replay(h: EntryHistory, steps: seq<Step>): (h': EntryHistory)
    requires Valid(h)
    ensures Valid(h')
    decreases |steps|
  {
    if |steps| == 0 then h else Replay(Press(h, steps[0]), steps[1..])
  }

  /** The submissions in a run of steps, in order. */
  function Submitted(steps: seq<Step>): seq<string>
  {
    if |steps| == 0 then []
    else (if steps[0].Submit? then [steps[0].entry] else []) + Submitted(steps[1..])
  }

  /** The history is append-only: after any run of steps it holds the
      earlier entries unchanged, followed by exactly the run's
      submissions. */
  lemma {:induction false} ReplayAppends(h: EntryHistory, steps: seq<Step>)
    requires Valid(h)
    ensures Replay(h, steps).entries == h.entries + Submitted(steps)
    decreases |steps|
  {
    if |steps| > 0 {
      var h1 := Press(h, steps[0]);
      ReplayAppends(h1, steps[1..]);
      if steps[0].Submit? {
        assert h1.entries == h.entries + [steps[0].entry];
      }
      assert h.entries + Submitted(steps) == h1.entries + Submitted(steps[1..]);
    }
  }

  /** Every history reachable from a fresh one starts with the placeholder
      and keeps its cursor within bounds. */
  lemma ReplayFromInit(steps: seq<Step>)
    ensures Replay(Init(), steps).entries == [""] + Submitted(steps)
    ensures Replay(Init(), steps).index <= |Submitted(steps)| + 1
  {
    ReplayAppends(Init(), steps);
  }
}
