/**
 * The controller object that watches the text widget: it records each change in
 * its edit log (through the change listener), performs undo and redo on the
 * widget's text while the listener is told to stand aside, and saves and
 * restores the log in the preference store.
 */
module Manager {
  import opened Wrappers
  import opened HistoryItems
  import opened History
  import opened Editing
  import opened Persistence

  /** What an undo or redo came to. */
  datatype StepOutcome =
    | Applied      // a record was undone or redone on the text
    | NothingToDo  // no record before (undo) or at (redo) the cursor
    | OutOfRange   // the record's span is not inside the text: the widget's replace throws

  class EditorManager {
    /** Set while undo or redo edits the text, so that the listener ignores the edit. */
    var isHistoryAvailable: bool
    const history: EditHistory
    /** Whether the listener is attached to the widget. */
    var connected: bool

    /** The widget's text and cursor. */
    var text: string
    var selection: int

    /** The listener's fields. */
    var beforeChange: string
    var afterChange: string
    var lastActionType: ActionType
    var lastActionTime: int

    /** The log is well formed and no record object appears twice in it. */
    predicate Valid()
      reads this, history
    {
      history.Model().Valid() && Distinct(history.history)
    }

    /** The listener's state as a value: the log's contents and the last kind and time. */
    function Listener(): Recorder
      reads this, history, history.history
    {
      Recorder(history.View(), lastActionType, lastActionTime)
    }

    /** Attaches a controller with an empty, unbounded log to a widget showing `initial`. */
    constructor (initial: string, cursor: int)
      ensures Valid() && fresh(history)
      ensures history.Model() == Log([], 0, -1) && Listener() == Fresh()
      ensures text == initial && selection == cursor
      ensures connected && !isHistoryAvailable
    {
      isHistoryAvailable := false;
      history := new EditHistory();
      connected := true;
      text := initial;
      selection := cursor;
      beforeChange := "";
      afterChange := "";
      lastActionType := NotDef;
      lastActionTime := 0;
    }

    /** Detaches the listener: later edits of the text are not recorded. */
    method Disconnect()
      modifies this
      ensures !connected
      ensures text == old(text) && selection == old(selection) && isHistoryAvailable == old(isHistoryAvailable)
      ensures beforeChange == old(beforeChange) && afterChange == old(afterChange)
      ensures lastActionType == old(lastActionType) && lastActionTime == old(lastActionTime)
    {
      connected := false;
    }

    method SetMaxHistorySize(maxHistorySize: int)
      requires Distinct(history.history)
      modifies history
      ensures Distinct(history.history)
      ensures old(Valid()) ==> Valid()
      ensures history.Model() == SetMaxSize(old(history.Model()), maxHistorySize)
    {
      SetMaxSizeKeepsDistinct(history.Model(), maxHistorySize);
      history.SetMaxHistorySize(maxHistorySize);
    }

    method ClearHistory()
      modifies history
      ensures Valid()
      ensures history.Model() == Cleared(old(history.Model()))
    {
      history.Clear();
    }

    /** Whether `undo` has a record to undo. */
    function CanUndo(): (r: bool)
      reads this, history
      ensures history.Model().Valid() ==> (r <==> StepBack(history.Model()).0.Some?)
    {
      history.position > 0
    }

    /** Whether `redo` has a record to redo. */
    function CanRedo(): (r: bool)
      reads this, history
      ensures history.Model().Valid() ==> (r <==> StepForward(history.Model()).0.Some?)
    {
      history.position < |history.history|
    }

    /** `beforeTextChanged`: remember the `count` characters about to be replaced at `start`. */
    method BeforeTextChanged(start: int, count: int)
      requires 0 <= start && 0 <= count && start + count <= |text|
      modifies this
      ensures text == old(text) && selection == old(selection) && connected == old(connected)
      ensures isHistoryAvailable == old(isHistoryAvailable)
      ensures isHistoryAvailable ==> beforeChange == old(beforeChange)
      ensures !isHistoryAvailable ==> beforeChange == text[start..start + count]
      ensures afterChange == old(afterChange)
      ensures lastActionType == old(lastActionType) && lastActionTime == old(lastActionTime)
    {
      if isHistoryAvailable {
        return;
      }
      beforeChange := text[start..start + count];
    }

    /**
     * `onTextChanged` at time `now`: remember the `count` characters that now
     * stand at `start`, and record the change.
     */
    method OnTextChanged(start: int, count: int, now: int)
      requires Valid()
      requires 0 <= start && 0 <= count && start + count <= |text|
      modifies this, history, history.history
      ensures Valid()
      ensures text == old(text) && selection == old(selection) && connected == old(connected)
      ensures isHistoryAvailable == old(isHistoryAvailable) && beforeChange == old(beforeChange)
      ensures isHistoryAvailable ==> history.Model() == old(history.Model()) && Listener() == old(Listener())
      ensures isHistoryAvailable ==> afterChange == old(afterChange)
      ensures !isHistoryAvailable ==>
        && afterChange == text[start..start + count]
        && Listener() == Notify(old(Listener()), start, beforeChange, afterChange, now)
    {
      if isHistoryAvailable {
        return;
      }
      afterChange := text[start..start + count];
      MakeBatch(start, now);
    }

    /**
     * `makeBatch`: push a new record, or fold the change into the current one
     * when it is of the same insert or delete kind as the last change and
     * within the batching window.
     */
    method MakeBatch(start: int, now: int)
      requires Valid()
      modifies this, history, history.history
      ensures Valid()
      ensures text == old(text) && selection == old(selection) && connected == old(connected)
      ensures isHistoryAvailable == old(isHistoryAvailable)
      ensures beforeChange == old(beforeChange) && afterChange == old(afterChange)
      ensures Listener() == Notify(old(Listener()), start, beforeChange, afterChange, now)
    {
      var at := Classify(beforeChange, afterChange);
      var current := history.GetCurrent();
      if lastActionType != at || at == Paste || now - lastActionTime > BatchWindow || current == null {
        PushChange(start, now);
      } else {
        FoldChange(current, start, now);
      }
      lastActionType := at;
      lastActionTime := now;
    }

    /** The pushing branch of `makeBatch`. */
    method PushChange(start: int, now: int)
      requires Valid() && StartsNewEntry(Listener(), Classify(beforeChange, afterChange), now)
      modifies history
      ensures Valid()
      ensures history.View() == Notify(old(Listener()), start, beforeChange, afterChange, now).log
    {
      NotifyPushes(Listener(), start, beforeChange, afterChange, now);
      AddNewRecord(start, beforeChange, afterChange);
    }

    /** `add` of a new record object holding the given contents. */
    method AddNewRecord(start: int, before: string, after: string)
      requires Valid()
      modifies history
      ensures Valid()
      ensures history.View() == Added(old(history.View()), Entry(start, before, after))
    {
      ghost var model := history.Model();
      var item := new Item(start, before, after);
      assert item.Value() == Entry(start, before, after);
      AddedKeepsDistinct(model, item);
      ghost var added := Added(model, item);
      ContentsOfAdd(model, item);
      assert Contents(added) == Added(old(history.View()), Entry(start, before, after));
      history.Add(item);
      assert history.Model() == added;
    }

    /**
     * The batching branch of `makeBatch`: the current record grows in place (a
     * deletion is put before its `before` text and moves its start, anything
     * else is put after its `after` text), and no other record changes.
     */
    method FoldChange(current: Item, start: int, now: int)
      requires Valid() && 0 < history.position && current == history.history[history.position - 1]
      requires !StartsNewEntry(Listener(), Classify(beforeChange, afterChange), now)
      modifies current
      ensures history.View() == Notify(old(Listener()), start, beforeChange, afterChange, now).log
    {
      NotifyFolds(Listener(), start, beforeChange, afterChange, now);
      ghost var view := history.View();
      ghost var p := history.position - 1;
      if Classify(beforeChange, afterChange) == Delete {
        current.mmStart := start;
        current.mmBefore := beforeChange + current.mmBefore;
      } else {
        current.mmAfter := current.mmAfter + afterChange;
      }
      assert history.View().items == view.items[p := current.Value()] by {
        forall i | 0 <= i < |history.history|
          ensures history.View().items[i] == view.items[p := current.Value()][i]
        {
          if i != p {
            assert history.history[i] != current;
          }
        }
      }
    }

    /**
     * `Editable.replace` of `text[start..end]` by `r`, as the widget does it:
     * the listener (when attached) hears of the change before and after it. A
     * span outside the text throws: `done` is false and nothing changes.
     */
    method ReplaceText(start: int, end: int, r: string, now: int) returns (done: bool)
      requires Valid()
      modifies this, history, history.history
      ensures Valid()
      ensures done <==> 0 <= start <= end <= |old(text)|
      ensures !done ==> text == old(text) && Listener() == old(Listener())
      ensures done ==> text == Splice(old(text), start, end, r)
      ensures done && connected && !isHistoryAvailable ==>
        && beforeChange == old(text)[start..end] && afterChange == r
        && Listener() == Notify(old(Listener()), start, old(text)[start..end], r, now)
      ensures !connected || isHistoryAvailable ==> Listener() == old(Listener())
      ensures !done || !connected || isHistoryAvailable ==>
        beforeChange == old(beforeChange) && afterChange == old(afterChange)
      ensures connected == old(connected) && isHistoryAvailable == old(isHistoryAvailable)
      ensures selection == old(selection)
      ensures !connected || isHistoryAvailable ==> history.Model() == old(history.Model())
    {
      if !(0 <= start <= end <= |text|) {
        return false;
      }
      if connected {
        BeforeTextChanged(start, end - start);
      }
      text := Splice(text, start, end, r);
      if connected {
        assert text[start..start + |r|] == r;
        OnTextChanged(start, |r|, now);
      }
      return true;
    }

    /**
     * The edit undo and redo make: the listener is told to stand aside
     * (`isHistoryAvailable`) while the widget replaces `text[start..end]` by
     * `r`, and is let back in afterwards. When the replace throws, the flag
     * stays set.
     */
    method ReplaceUnrecorded(start: int, end: int, r: string, now: int) returns (done: bool)
      requires Valid()
      modifies this, history, history.history
      ensures Valid()
      ensures history.Model() == old(history.Model()) && Listener() == old(Listener())
      ensures done <==> 0 <= start <= end <= |old(text)|
      ensures done ==> text == Splice(old(text), start, end, r) && !isHistoryAvailable
      ensures !done ==> text == old(text) && isHistoryAvailable
      ensures selection == old(selection) && connected == old(connected)
      ensures beforeChange == old(beforeChange) && afterChange == old(afterChange)
    {
      isHistoryAvailable := true;
      done := ReplaceText(start, end, r, now);
      if done {
        isHistoryAvailable := false;
      }
    }

    /**
     * `undo`: step the cursor back over a record and replace that record's
     * `after` text, at its start, by its `before` text, without recording the
     * edit; the cursor goes after the restored text. `now` is only what the
     * listener would see, and it ignores the edit.
     */
    method Undo(now: int) returns (outcome: StepOutcome)
      requires Valid()
      modifies this, history, history.history
      ensures Valid()
      ensures history.history == old(history.history)
      ensures history.View() == StepBack(old(history.View())).1
      ensures lastActionType == old(lastActionType) && lastActionTime == old(lastActionTime)
      ensures connected == old(connected)
      ensures beforeChange == old(beforeChange) && afterChange == old(afterChange)
      ensures var e := StepBack(old(history.View())).0;
        && (e.None? ==>
              && outcome == NothingToDo && text == old(text) && selection == old(selection)
              && isHistoryAvailable == old(isHistoryAvailable))
        && (e.Some? && Fits(old(text), e.value.start, |e.value.after|) ==>
              && outcome == Applied && text == UndoText(old(text), e.value)
              && selection == e.value.start + |e.value.before| && !isHistoryAvailable)
        && (e.Some? && !Fits(old(text), e.value.start, |e.value.after|) ==>
              outcome == OutOfRange && text == old(text) && selection == old(selection) && isHistoryAvailable)
    {
      ContentsOfStepBack(history.Model());
      var edit := history.GetPrevious();
      assert StepBack(old(history.View())) == (ValueOf(AsOption(edit)), history.View());
      if edit == null {
        outcome := NothingToDo;
      } else {
        var start, before := edit.mmStart, edit.mmBefore;
        var done := ReplaceUnrecorded(start, start + |edit.mmAfter|, before, now);
        if done {
          selection := start + |before|;
          outcome := Applied;
        } else {
          outcome := OutOfRange;
        }
      }
    }

    /**
     * `redo`: return the record at the cursor, step over it, and replace its
     * `before` text, at its start, by its `after` text, without recording the
     * edit; the cursor goes after the new text.
     */
    method Redo(now: int) returns (outcome: StepOutcome)
      requires Valid()
      modifies this, history, history.history
      ensures Valid()
      ensures history.history == old(history.history)
      ensures history.View() == StepForward(old(history.View())).1
      ensures lastActionType == old(lastActionType) && lastActionTime == old(lastActionTime)
      ensures connected == old(connected)
      ensures beforeChange == old(beforeChange) && afterChange == old(afterChange)
      ensures var e := StepForward(old(history.View())).0;
        && (e.None? ==>
              && outcome == NothingToDo && text == old(text) && selection == old(selection)
              && isHistoryAvailable == old(isHistoryAvailable))
        && (e.Some? && Fits(old(text), e.value.start, |e.value.before|) ==>
              && outcome == Applied && text == RedoText(old(text), e.value)
              && selection == e.value.start + |e.value.after| && !isHistoryAvailable)
        && (e.Some? && !Fits(old(text), e.value.start, |e.value.before|) ==>
              outcome == OutOfRange && text == old(text) && selection == old(selection) && isHistoryAvailable)
    {
      ContentsOfStepForward(history.Model());
      var edit := history.GetNext();
      assert StepForward(old(history.View())) == (ValueOf(AsOption(edit)), history.View());
      if edit == null {
        outcome := NothingToDo;
      } else {
        var start, after := edit.mmStart, edit.mmAfter;
        var done := ReplaceUnrecorded(start, start + |edit.mmBefore|, after, now);
        if done {
          selection := start + |after|;
          outcome := Applied;
        } else {
          outcome := OutOfRange;
        }
      }
    }

    /**
     * `saveEditorHistoryState`: the hash of the text, the bound, the cursor, the
     * number of records and then each record, by index, are written over `store`.
     */
    method SaveEditorHistoryState(store: Store) returns (saved: Store)
      ensures saved == store + Encode(StringHash(text), history.View())
    {
      var hash := StringHash(text);
      ghost var view := history.View();
      ghost var head := store + HeaderPrefs(hash, view);
      saved := store[HashKey := IntPref(hash)][MaxSizeKey := IntPref(history.maxHistorySize)];
      saved := saved[PositionKey := IntPref(history.position)][SizeKey := IntPref(|history.history|)];
      assert saved == head + EntryPrefs(view.items[..0]);
      var i := 0;
      while i < |history.history|
        invariant 0 <= i <= |history.history|
        invariant saved == head + EntryPrefs(view.items[..i])
      {
        var ei := history.history[i];
        WriteNextEntry(head, view.items, i);
        saved := saved[StartKey(i) := IntPref(ei.mmStart)][BeforeKey(i) := TextPref(ei.mmBefore)][AfterKey(i) := TextPref(ei.mmAfter)];
        i := i + 1;
      }
      assert view.items[..i] == view.items;
      WriteAll(store, hash, view);
    }

    /**
     * `restoreEditorHistoryStateInternal`: checks the saved hash against the
     * text's, then clears the log, takes the saved bound, and adds a new record
     * for each saved one before setting the saved cursor; it stops at the first
     * missing value. What it leaves is what `Decode` says.
     */
    method RestoreEditorHistoryStateInternal(store: Store) returns (ok: bool)
      requires Distinct(history.history)
      modifies history
      ensures Distinct(history.history)
      ensures var d := Decode(store, StringHash(text));
        && (d == NoSavedState ==> ok && history.Model() == old(history.Model()))
        && (d == HashMismatch ==> !ok && history.Model() == old(history.Model()))
        && (d.Corrupt? ==> !ok && history.View() == d.log)
        && (d.Restored? ==> ok && history.View() == d.log)
    {
      var hash := GetHash(store);
      if hash.None? {
        return true;
      }
      if hash.value != StringHash(text) {
        return false;
      }
      history.Clear();
      history.maxHistorySize := GetInt(store, MaxSizeKey, -1);
      ghost var empty := Log([], 0, history.maxHistorySize);
      assert history.View() == empty;
      var count := GetInt(store, SizeKey, -1);
      if count == -1 {
        return false;
      }
      ok := AddSavedRecords(store, count);
      if !ok {
        return false;
      }
      history.position := GetInt(store, PositionKey, -1);
      if history.position == -1 {
        return false;
      }
      return true;
    }

    /** The loop of the internal restore: a new record for each saved one, up to the first that cannot be read. */
    method AddSavedRecords(store: Store, count: int) returns (complete: bool)
      requires Valid()
      modifies history
      ensures Valid()
      ensures complete <==> ReadEntries(store, count).Some?
      ensures complete ==> history.View() == AddAll(old(history.View()), ReadEntries(store, count).value)
      ensures !complete ==> history.View() == AddAll(old(history.View()), ReadablePrefix(store, count))
      ensures history.maxHistorySize == old(history.maxHistorySize)
    {
      ghost var read: seq<Entry> := [];
      ghost var initial := history.View();
      var i := 0;
      while i < count
        invariant 0 <= i && (count >= 0 ==> i <= count) && (count < 0 ==> i == 0)
        invariant ReadEntries(store, i) == Some(read)
        invariant Valid()
        invariant history.View() == AddAll(initial, read)
      {
        var start := GetInt(store, StartKey(i), -1);
        var before := GetString(store, BeforeKey(i));
        var after := GetString(store, AfterKey(i));
        if start == -1 || before.None? || after.None? {
          UnreadableEntryFails(store, count, i);
          StopsAtUnreadable(store, count, i, read);
          return false;
        }
        ghost var e := Entry(start, before.value, after.value);
        assert ReadEntry(store, i) == Some(e);
        ReadOneMore(store, i, read);
        AddOneMore(initial, read, e);
        AddNewRecord(start, before.value, after.value);
        read := read + [e];
        i := i + 1;
      }
      return true;
    }

    /** `restoreEditorHistoryState`: as the internal restore, but a failed restore leaves the log cleared. */
    method RestoreEditorHistoryState(store: Store) returns (ok: bool)
      requires Distinct(history.history)
      modifies history
      ensures Distinct(history.history)
      ensures var d := Decode(store, StringHash(text));
        && (d == NoSavedState ==> ok && history.Model() == old(history.Model()))
        && (d == HashMismatch ==> !ok && history.View() == Cleared(old(history.View())))
        && (d.Corrupt? ==> !ok && history.View() == Log([], 0, d.log.maxSize))
        && (d.Restored? ==> ok && history.View() == d.log)
      ensures Decode(store, StringHash(text)).Restored? ==> (Valid() <==> Decode(store, StringHash(text)).log.Valid())
      ensures Decode(store, StringHash(text)) == NoSavedState ==> (Valid() <==> old(Valid()))
      ensures Decode(store, StringHash(text)).HashMismatch? || Decode(store, StringHash(text)).Corrupt? ==> Valid()
    {
      ok := RestoreEditorHistoryStateInternal(store);
      if !ok {
        history.Clear();
      }
    }

    /** Saving the log and restoring it onto the same text gives the same log back. */
    method SaveAndRestore(store: Store) returns (ok: bool)
      requires Valid()
      requires forall i :: 0 <= i < |history.View().items| ==> history.View().items[i].start != -1
      modifies history
      ensures ok && history.View() == old(history.View()) && Valid()
    {
      var saved := SaveEditorHistoryState(store);
      SaveThenRestore(store, StringHash(text), history.View());
      ok := RestoreEditorHistoryState(saved);
    }

    /** Undoing the current record and redoing it gives back the text and the log, when the record describes the text. */
    method UndoThenRedo(now: int) returns (undone: StepOutcome, redone: StepOutcome)
      requires Valid() && history.position > 0
      requires Matches(text, history.View().items[history.position - 1])
      modifies this, history, history.history
      ensures undone == Applied && redone == Applied
      ensures text == old(text) && history.View() == old(history.View())
    {
      RedoAfterUndo(text, history.View().items[history.position - 1]);
      BackThenForward(history.View());
      undone := Undo(now);
      redone := Redo(now);
    }
  }
}
