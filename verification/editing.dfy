/**
 * The controller's logic as values: how a change notification is classified,
 * when it is folded into the current history record rather than pushed as a
 * new one, and what undoing and redoing a record does to the document text.
 */
module Editing {
  import opened HistoryItems
  import opened History

  /** The kinds of change (`ActionType`); `NotDef` is only the initial "last kind". */
  datatype ActionType = Insert | Delete | Paste | NotDef

  /** Notifications of the same kind closer together than this (in ms) are batched. */
  const BatchWindow := 1000

  /**
   * `getActionType`: text removed and none inserted is a deletion, text inserted
   * and none removed is an insertion, and everything else, including a change
   * that removes and inserts nothing, is a paste.
   */
  function Classify(removed: string, inserted: string): (r: ActionType)
    ensures r != NotDef
    ensures r == Delete <==> removed != [] && inserted == []
    ensures r == Insert <==> removed == [] && inserted != []
    ensures r == Paste <==> (removed == [] <==> inserted == [])
  {
    if removed != [] && inserted == [] then Delete
    else if removed == [] && inserted != [] then Insert
    else Paste
  }

  /**
   * What the change listener remembers between notifications: the log (as the
   * contents of its records) and the kind and time of the last recorded change.
   */
  datatype Recorder = Recorder(log: Log<Entry>, lastType: ActionType, lastTime: int)

  /** The guard of `makeBatch`: whether a notification of kind `at` at time `now` starts a new record. */
  function StartsNewEntry(rec: Recorder, at: ActionType, now: int): (r: bool)
    ensures 0 <= rec.log.position <= |rec.log.items| && Current(rec.log).None? ==> r
    ensures !r ==> at == rec.lastType && at != Paste && now - rec.lastTime <= BatchWindow
    ensures (0 <= rec.log.position <= |rec.log.items| && Current(rec.log).Some?
             && at == rec.lastType && at != Paste && now - rec.lastTime <= BatchWindow) ==> !r
  {
    rec.lastType != at || at == Paste || now - rec.lastTime > BatchWindow || rec.log.position == 0
  }

  /** The current record grown by a batched change: deletions prepend and move the start, insertions append. */
  function Extend(e: Entry, at: ActionType, start: int, removed: string, inserted: string): Entry
  {
    if at == Delete then Entry(start, removed + e.before, e.after)
    else Entry(e.start, e.before, e.after + inserted)
  }

  /**
   * Growing a record keeps what it held: a deletion puts the removed text in
   * front of its `before` text and moves its start there; an insertion puts the
   * inserted text after its `after` text.
   */
  lemma ExtendKeepsOldTexts(e: Entry, at: ActionType, start: int, removed: string, inserted: string)
    ensures var r := Extend(e, at, start, removed, inserted);
      && (at == Delete ==>
        && r.start == start && r.after == e.after
        && |r.before| == |removed| + |e.before| && r.before[..|removed|] == removed && r.before[|removed|..] == e.before)
      && (at != Delete ==>
        && r.start == e.start && r.before == e.before
        && |r.after| == |e.after| + |inserted| && r.after[..|e.after|] == e.after && r.after[|e.after|..] == inserted)
  {
  }

  /**
   * `makeBatch` for a notification that `removed` was replaced by `inserted` at
   * offset `start`, arriving at time `now`.
   */
  function Notify(rec: Recorder, start: int, removed: string, inserted: string, now: int): (r: Recorder)
    requires 0 <= rec.log.position <= |rec.log.items|
    ensures r.lastType == Classify(removed, inserted) && r.lastTime == now
    ensures rec.log.Valid() ==> r.log.Valid()
    ensures StartsNewEntry(rec, Classify(removed, inserted), now) ==>
      r.log == Added(rec.log, Entry(start, removed, inserted))
    ensures !StartsNewEntry(rec, Classify(removed, inserted), now) ==>
      |r.log.items| == |rec.log.items| && r.log.position == rec.log.position && r.log.maxSize == rec.log.maxSize
  {
    var at := Classify(removed, inserted);
    if StartsNewEntry(rec, at, now) then
      Recorder(Added(rec.log, Entry(start, removed, inserted)), at, now)
    else
      var p := rec.log.position - 1;
      var e' := Extend(rec.log.items[p], at, start, removed, inserted);
      Recorder(rec.log.(items := rec.log.items[p := e']), at, now)
  }

  /** `makeBatch` when the change starts a new record: the change is added as one. */
  lemma NotifyPushes(rec: Recorder, start: int, removed: string, inserted: string, now: int)
    requires 0 <= rec.log.position <= |rec.log.items|
    requires StartsNewEntry(rec, Classify(removed, inserted), now)
    ensures Notify(rec, start, removed, inserted, now)
      == Recorder(Added(rec.log, Entry(start, removed, inserted)), Classify(removed, inserted), now)
  {
  }

  /** `makeBatch` when the change is batched: only the current record changes, and grows by the change. */
  lemma NotifyFolds(rec: Recorder, start: int, removed: string, inserted: string, now: int)
    requires 0 <= rec.log.position <= |rec.log.items|
    requires !StartsNewEntry(rec, Classify(removed, inserted), now)
    ensures var p := rec.log.position - 1;
      var e := Extend(rec.log.items[p], Classify(removed, inserted), start, removed, inserted);
      Notify(rec, start, removed, inserted, now)
        == Recorder(rec.log.(items := rec.log.items[p := e]), Classify(removed, inserted), now)
  {
  }

  /**
   * A change of the last change's kind, other than a paste, that arrives within
   * the window while there is a current record is batched: the number of
   * records, the cursor and the bound stay, and the current record grows.
   */
  lemma SameKindWithinWindowIsBatched(rec: Recorder, start: int, removed: string, inserted: string, now: int)
    requires 0 < rec.log.position <= |rec.log.items|
    requires Classify(removed, inserted) == rec.lastType != Paste
    requires now - rec.lastTime <= BatchWindow
    ensures var r := Notify(rec, start, removed, inserted, now);
      var p := rec.log.position - 1;
      && |r.log.items| == |rec.log.items| && r.log.position == rec.log.position && r.log.maxSize == rec.log.maxSize
      && r.log.items == rec.log.items[p := Extend(rec.log.items[p], rec.lastType, start, removed, inserted)]
      && r.lastType == rec.lastType && r.lastTime == now
  {
    assert !StartsNewEntry(rec, Classify(removed, inserted), now);
    NotifyFolds(rec, start, removed, inserted, now);
  }

  /**
   * A batched change alters the current record only: a deletion is put before
   * its `before` text and moves its start to the change's offset, an insertion
   * is put after its `after` text.
   */
  lemma BatchingGrowsCurrent(rec: Recorder, start: int, removed: string, inserted: string, now: int)
    requires 0 <= rec.log.position <= |rec.log.items|
    requires !StartsNewEntry(rec, Classify(removed, inserted), now)
    ensures var r := Notify(rec, start, removed, inserted, now);
      var p := rec.log.position - 1;
      var e := rec.log.items[p];
      && (forall i :: 0 <= i < |rec.log.items| && i != p ==> r.log.items[i] == rec.log.items[i])
      && (Classify(removed, inserted) == Delete ==> r.log.items[p] == Entry(start, removed + e.before, e.after))
      && (Classify(removed, inserted) == Insert ==> r.log.items[p] == Entry(e.start, e.before, e.after + inserted))
  {
  }

  /** The state of the listener when the controller is created. */
  function Fresh(): Recorder
  {
    Recorder(Log([], 0, -1), NotDef, 0)
  }

  /** Typing "a", "b", "c" within the batching window makes one record holding "abc". */
  lemma TypingIsBatched(t: int)
    requires t >= 0
    ensures var r1 := Notify(Fresh(), 0, "", "a", t);
      var r2 := Notify(r1, 1, "", "b", t + 400);
      var r3 := Notify(r2, 2, "", "c", t + 800);
      r3.log == Log([Entry(0, "", "abc")], 1, -1)
  {
    var r1 := Notify(Fresh(), 0, "", "a", t);
    assert [] + [Entry(0, "", "a")] == [Entry(0, "", "a")];
    assert r1.log == Log([Entry(0, "", "a")], 1, -1);
    var r2 := Notify(r1, 1, "", "b", t + 400);
    assert "a" + "b" == "ab";
    assert r2.log == Log([Entry(0, "", "ab")], 1, -1);
    assert "ab" + "c" == "abc";
  }

  /** Waiting 1001 ms before typing "c" starts a second record. */
  lemma PauseSplitsBatch(t: int)
    requires t >= 0
    ensures var r1 := Notify(Fresh(), 0, "", "a", t);
      var r2 := Notify(r1, 1, "", "b", t + 400);
      var r3 := Notify(r2, 2, "", "c", t + 1401);
      r3.log == Log([Entry(0, "", "ab"), Entry(2, "", "c")], 2, -1)
  {
    var r1 := Notify(Fresh(), 0, "", "a", t);
    assert [] + [Entry(0, "", "a")] == [Entry(0, "", "a")];
    assert r1.log == Log([Entry(0, "", "a")], 1, -1);
    var r2 := Notify(r1, 1, "", "b", t + 400);
    assert "a" + "b" == "ab";
    assert r2.log == Log([Entry(0, "", "ab")], 1, -1);
    assert [Entry(0, "", "ab")][..1] + [Entry(2, "", "c")] == [Entry(0, "", "ab"), Entry(2, "", "c")];
  }

  /** A change that removes and inserts nothing is a paste, and is recorded as a record of its own. */
  lemma EmptyChangeIsRecorded(rec: Recorder, start: int, now: int)
    requires rec.log.Valid() && rec.log.maxSize != 0
    ensures Classify("", "") == Paste
    ensures var r := Notify(rec, start, "", "", now);
      r.log.position == |r.log.items| > 0 && r.log.items[|r.log.items| - 1] == Entry(start, "", "")
  {
    AddedAppends(rec.log, Entry(start, "", ""));
  }

  /**
   * Batching does not check where the change happened: an insertion far from the
   * current record is still appended to it, within the window.
   */
  lemma DistantInsertIsBatched(t: int)
    requires t >= 0
    ensures var r1 := Notify(Fresh(), 0, "", "a", t);
      Notify(r1, 7, "", "b", t + 10).log == Log([Entry(0, "", "ab")], 1, -1)
  {
    var r1 := Notify(Fresh(), 0, "", "a", t);
    assert [] + [Entry(0, "", "a")] == [Entry(0, "", "a")];
    assert r1.log == Log([Entry(0, "", "a")], 1, -1);
    assert "a" + "b" == "ab";
  }

  /** Each keystroke comes at most `BatchWindow` ms after the one before it. */
  predicate WithinWindow(times: seq<int>)
  {
    forall j :: 0 < j < |times| ==> times[j] - times[j - 1] <= BatchWindow
  }

  /**
   * Deleting `text`, which ends at offset `at + |text|`, one character at a
   * time from the right: keystroke `j` comes at time `times[j]`.
   */
  function Backspaces(rec: Recorder, at: int, text: string, times: seq<int>): (r: Recorder)
    requires 0 <= rec.log.position <= |rec.log.items| && |times| == |text|
    ensures 0 <= r.log.position <= |r.log.items|
    ensures text != [] ==> r.lastType == Delete && r.lastTime == times[|times| - 1]
    decreases |text|
  {
    if text == [] then rec
    else
      var last := |text| - 1;
      Backspaces(Notify(rec, at + last, [text[last]], "", times[0]), at, text[..last], times[1..])
  }

  /** One keystroke of a burst of backspaces: the rightmost character goes first. */
  lemma BackspacesStep(rec: Recorder, at: int, text: string, times: seq<int>)
    requires 0 <= rec.log.position <= |rec.log.items| && |times| == |text| && text != []
    ensures var last := |text| - 1;
      Backspaces(rec, at, text, times)
        == Backspaces(Notify(rec, at + last, [text[last]], "", times[0]), at, text[..last], times[1..])
  {
  }

  /**
   * Backspaces that continue a deletion record within the window grow that
   * record leftwards over `text`; no other record changes.
   */
  lemma {:induction false} BackspacesExtend(rec: Recorder, at: int, text: string, times: seq<int>)
    requires rec.log.Valid() && rec.log.position > 0 && rec.lastType == Delete
    requires |times| == |text| && WithinWindow(times)
    requires text != [] ==> times[0] - rec.lastTime <= BatchWindow
    decreases |text|
    ensures var r := Backspaces(rec, at, text, times);
      var p := rec.log.position - 1;
      var e := rec.log.items[p];
      && r.log.position == rec.log.position && r.log.maxSize == rec.log.maxSize
      && r.log.items == rec.log.items[p := if text == [] then e else Entry(at, text + e.before, e.after)]
  {
    if text != [] {
      var last := |text| - 1;
      var p := rec.log.position - 1;
      var e := rec.log.items[p];
      var first := Entry(at + last, [text[last]] + e.before, e.after);
      var next := Recorder(rec.log.(items := rec.log.items[p := first]), Delete, times[0]);
      assert Backspaces(rec, at, text, times) == Backspaces(next, at, text[..last], times[1..]) by {
        assert Classify([text[last]], "") == Delete;
        NotifyFolds(rec, at + last, [text[last]], "", times[0]);
        BackspacesStep(rec, at, text, times);
      }
      var grown := Entry(at, text + e.before, e.after);
      var r := Backspaces(next, at, text[..last], times[1..]);
      assert r.log == rec.log.(items := rec.log.items[p := grown]) by {
        WithinWindowTail(times);
        BackspacesExtend(next, at, text[..last], times[1..]);
        if last == 0 {
          assert text == [text[last]];
        } else {
          assert text[..last] + ([text[last]] + e.before) == text + e.before;
        }
      }
    }
  }

  /** Dropping the first keystroke keeps the rest within the window. */
  lemma WithinWindowTail(times: seq<int>)
    requires WithinWindow(times) && times != []
    ensures WithinWindow(times[1..])
  {
    forall j | 0 < j < |times[1..]| ensures times[1..][j] - times[1..][j - 1] <= BatchWindow {
      assert times[1..][j] == times[j + 1] && times[1..][j - 1] == times[j];
    }
  }

  /**
   * A burst of backspaces within the window, whose first keystroke starts a
   * new record (after a change of another kind, or a pause), is added as the
   * single record of everything it deleted.
   */
  lemma BackspacesAreBatched(rec: Recorder, at: int, text: string, times: seq<int>)
    requires rec.log.Valid() && rec.log.maxSize != 0
    requires text != [] && |times| == |text| && WithinWindow(times)
    requires StartsNewEntry(rec, Delete, times[0])
    ensures Backspaces(rec, at, text, times).log == Added(rec.log, Entry(at, text, ""))
  {
    FirstBackspacePushes(rec, at, text, times);
    BurstAfterPush(rec.log, at, text, times);
  }

  /** The first backspace of a burst that starts a new record pushes it. */
  lemma FirstBackspacePushes(rec: Recorder, at: int, text: string, times: seq<int>)
    requires rec.log.Valid()
    requires text != [] && |times| == |text|
    requires StartsNewEntry(rec, Delete, times[0])
    ensures var last := |text| - 1;
      var next := Recorder(Added(rec.log, Entry(at + last, [text[last]], "")), Delete, times[0]);
      Backspaces(rec, at, text, times) == Backspaces(next, at, text[..last], times[1..])
  {
    var last := |text| - 1;
    NotifyPushes(rec, at + last, [text[last]], "", times[0]);
    BackspacesStep(rec, at, text, times);
  }

  /** The rest of a burst after its first backspace pushed a record grows that record to the whole burst. */
  lemma BurstAfterPush(l: Log<Entry>, at: int, text: string, times: seq<int>)
    requires l.Valid() && l.maxSize != 0
    requires text != [] && |times| == |text| && WithinWindow(times)
    ensures var last := |text| - 1;
      var next := Recorder(Added(l, Entry(at + last, [text[last]], "")), Delete, times[0]);
      Backspaces(next, at, text[..last], times[1..]).log == Added(l, Entry(at, text, ""))
  {
    var last := |text| - 1;
    var first := Entry(at + last, [text[last]], "");
    var next := Recorder(Added(l, first), Delete, times[0]);
    AddedAppends(l, first);
    BackspacesAfterFirst(next, at, text, times);
    AddedThenReplaced(l, first, Entry(at, text, ""));
  }

  /** The rest of a burst, once its first backspace has pushed its own record. */
  lemma BackspacesAfterFirst(next: Recorder, at: int, text: string, times: seq<int>)
    requires text != [] && |times| == |text| && WithinWindow(times)
    requires next.log.Valid() && next.log.position == |next.log.items| > 0
    requires next.log.items[|next.log.items| - 1] == Entry(at + |text| - 1, [text[|text| - 1]], "")
    requires next.lastType == Delete && next.lastTime == times[0]
    ensures var r := Backspaces(next, at, text[..|text| - 1], times[1..]);
      r.log == next.log.(items := next.log.items[|next.log.items| - 1 := Entry(at, text, "")])
  {
    var last := |text| - 1;
    var p := next.log.position - 1;
    var first := next.log.items[p];
    WithinWindowTail(times);
    BackspacesExtend(next, at, text[..last], times[1..]);
    if last == 0 {
      assert text == [text[last]];
    } else {
      assert text[..last] + first.before == text;
    }
  }

  /** A pause longer than the window between two backspaces splits them into two records. */
  lemma PauseSplitsBackspaces(t: int)
    ensures var r := Backspaces(Fresh(), 0, "ab", [t, t + 1001]);
      r.log == Log([Entry(1, "b", ""), Entry(0, "a", "")], 2, -1)
  {
    var r1 := Notify(Fresh(), 1, "b", "", t);
    assert [] + [Entry(1, "b", "")] == [Entry(1, "b", "")];
    assert r1.log == Log([Entry(1, "b", "")], 1, -1);
    assert [t, t + 1001][1..] == [t + 1001];
    assert "ab"[..1] == "a";
    assert [Entry(1, "b", "")][..1] + [Entry(0, "a", "")] == [Entry(1, "b", ""), Entry(0, "a", "")];
  }

  /** The document offsets `start .. start + length` lie within `text`. */
  predicate Fits(text: string, start: int, length: int)
  {
    0 <= start && start + length <= |text|
  }

  /** The text after replacing `text[start..end]` with `r` (`Editable.replace`). */
  function Splice(text: string, start: int, end: int, r: string): (t: string)
    requires 0 <= start <= end <= |text|
    ensures |t| == |text| - (end - start) + |r|
    ensures t[..start] == text[..start] && t[start..start + |r|] == r && t[start + |r|..] == text[end..]
  {
    text[..start] + r + text[end..]
  }

  /** Undoing a record: its `after` text, at its start, is replaced by its `before` text. */
  function UndoText(text: string, e: Entry): (r: string)
    requires Fits(text, e.start, |e.after|)
    ensures |r| == |text| - |e.after| + |e.before|
    ensures r[..e.start] == text[..e.start] && r[e.start..e.start + |e.before|] == e.before
    ensures r[e.start + |e.before|..] == text[e.start + |e.after|..]
  {
    Splice(text, e.start, e.start + |e.after|, e.before)
  }

  /** Redoing a record: its `before` text, at its start, is replaced by its `after` text. */
  function RedoText(text: string, e: Entry): (r: string)
    requires Fits(text, e.start, |e.before|)
    ensures |r| == |text| - |e.before| + |e.after|
    ensures r[..e.start] == text[..e.start] && r[e.start..e.start + |e.after|] == e.after
    ensures r[e.start + |e.after|..] == text[e.start + |e.before|..]
  {
    Splice(text, e.start, e.start + |e.before|, e.after)
  }

  /** The record describes the text: its `after` text stands at its start. */
  predicate Matches(text: string, e: Entry)
  {
    Fits(text, e.start, |e.after|) && text[e.start..e.start + |e.after|] == e.after
  }

  /** Redo after undo gives back the text, when the record matched it. */
  lemma {:induction false} RedoAfterUndo(text: string, e: Entry)
    requires Matches(text, e)
    ensures Fits(UndoText(text, e), e.start, |e.before|)
    ensures RedoText(UndoText(text, e), e) == text
  {
    var u := UndoText(text, e);
    assert u[e.start..e.start + |e.before|] == e.before;
    calc {
      RedoText(u, e);
      u[..e.start] + e.after + u[e.start + |e.before|..];
      text[..e.start] + text[e.start..e.start + |e.after|] + text[e.start + |e.after|..];
      { assert text == text[..e.start] + text[e.start..e.start + |e.after|] + text[e.start + |e.after|..]; }
      text;
    }
  }

  /** Undo after redo gives back the text, when the record's `before` text stood at its start. */
  lemma {:induction false} UndoAfterRedo(text: string, e: Entry)
    requires Fits(text, e.start, |e.before|) && text[e.start..e.start + |e.before|] == e.before
    ensures Matches(RedoText(text, e), e)
    ensures UndoText(RedoText(text, e), e) == text
  {
    var d := RedoText(text, e);
    calc {
      UndoText(d, e);
      d[..e.start] + e.before + d[e.start + |e.after|..];
      text[..e.start] + text[e.start..e.start + |e.before|] + text[e.start + |e.before|..];
      { assert text == text[..e.start] + text[e.start..e.start + |e.before|] + text[e.start + |e.before|..]; }
      text;
    }
  }

  /**
   * A change recorded as a record of its own is undone exactly: the record made
   * from replacing `text[start..end]` by `inserted` matches the new text, and
   * undoing it gives back the old text.
   */
  lemma {:induction false} RecordUndoesChange(text: string, start: int, end: int, inserted: string)
    requires 0 <= start <= end <= |text|
    ensures var e := Entry(start, text[start..end], inserted);
      var t := Splice(text, start, end, inserted);
      Matches(t, e) && UndoText(t, e) == text
  {
    var e := Entry(start, text[start..end], inserted);
    var t := Splice(text, start, end, inserted);
    calc {
      UndoText(t, e);
      t[..start] + text[start..end] + t[start + |inserted|..];
      text[..start] + text[start..end] + text[end..];
      { assert text == text[..start] + text[start..end] + text[end..]; }
      text;
    }
  }

  /**
   * Batching an insertion typed right after the current record keeps the record
   * matching the text, and undoing the grown record gives what undoing the old
   * one gave before the insertion.
   */
  lemma {:induction false} AdjacentInsertKeepsUndo(text: string, e: Entry, typed: string)
    requires Matches(text, e)
    ensures var at := e.start + |e.after|;
      var t := Splice(text, at, at, typed);
      var e' := Extend(e, Insert, at, "", typed);
      Matches(t, e') && UndoText(t, e') == UndoText(text, e)
  {
    var at := e.start + |e.after|;
    var t := Splice(text, at, at, typed);
    var e' := Extend(e, Insert, at, "", typed);
    assert e' == Entry(e.start, e.before, e.after + typed);
    var front, back := text[..e.start], text[at..];
    assert text == front + e.after + back by {
      ThreeParts(front, e.after, back);
      assert text[..at] == front + e.after;
    }
    assert t == front + e'.after + back by {
      assert text[..at] == front + e.after;
    }
    ThreeParts(front, e'.after, back);
    ThreeParts(front, e.after, back);
    ThreeParts(front, e.before, back);
  }

  /** The three parts of a concatenation are the slices at their boundaries. */
  lemma ThreeParts(a: string, b: string, c: string)
    ensures var s := a + b + c;
      s[..|a|] == a && s[|a|..|a| + |b|] == b && s[|a| + |b|..] == c && s[..|a| + |b|] == a + b
  {
  }

  /**
   * Batching a deletion of the text just before the current record keeps the
   * record matching the text, and undoing the grown record gives what undoing
   * the old one gave before the deletion.
   */
  lemma {:induction false} AdjacentDeleteKeepsUndo(text: string, e: Entry, from: int)
    requires Matches(text, e) && 0 <= from <= e.start
    ensures var t := Splice(text, from, e.start, "");
      var e' := Extend(e, Delete, from, text[from..e.start], "");
      Matches(t, e') && UndoText(t, e') == UndoText(text, e)
  {
    var gone := text[from..e.start];
    var t := Splice(text, from, e.start, "");
    var e' := Extend(e, Delete, from, gone, "");
    assert t == text[..from] + text[e.start..];
    assert t[from..from + |e.after|] == e.after;
    calc {
      UndoText(t, e');
      t[..from] + (gone + e.before) + t[from + |e.after|..];
      text[..from] + gone + e.before + text[e.start + |e.after|..];
      { assert text[..from] + gone == text[..e.start]; }
      UndoText(text, e);
    }
  }

  /**
   * Because batching does not look at offsets, a record can stop describing the
   * text: after "a" is typed at 0 and "b" at 2 of "a-c" within the window, the
   * record claims "ab" at 0 while the text there is "a-".
   */
  lemma DistantInsertBreaksUndo()
    ensures var e := Entry(0, "", "a");
      var t := Splice("a-c", 2, 2, "b");
      var e' := Extend(e, Insert, 2, "", "b");
      Matches("a-c", e) && !Matches(t, e')
  {
    var t := Splice("a-c", 2, 2, "b");
    assert t[1] == '-';
    assert t[0..2][1] != "ab"[1];
  }
}
