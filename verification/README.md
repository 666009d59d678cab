# Undo/redo history of a text editor, in Dafny

This project models the undo/redo core of an Android text editor. It proves properties of that model with the Dafny verifier.

The editor attaches a controller (`CTEditorManager`) to a text widget. The controller listens to every change of the text:
- A change becomes a history record (`CTEditorHistoryItem`): the offset where it happened, the text that stood there before, and the text that stands there after.
- A quick succession of insertions or of deletions is batched into the newest record. The batching window is one second.
- Records live in a bounded log with a cursor (`CTEditHistory`). The records before the cursor are applied; the ones after it can be redone.
- Undo steps the cursor back and puts the record's `before` text back. Redo steps it forward and puts the `after` text back. During both, the listener is told to stand aside.
- The log can be saved to the application's preference store. It can be restored later if the document's hash still matches.

The project has these modules:

| file | module | contents |
|---|---|---|
| `wrappers.dfy` | `Wrappers` | `Option` |
| `history_item.dfy` | `HistoryItems` | the mutable record `Item`, its value `Entry`, and its debugging rendering with Java's decimal form of an `int` |
| `edit_history.dfy` | `History` | the log as a value `Log<T>` with one function per operation, the class `EditHistory` (fields `position`, `maxHistorySize`, `history: seq<Item>`) whose methods are proved to do what those functions say, and the link between the records as objects and their contents |
| `editing.dfy` | `Editing` | how a change is classified, when it is batched (`Notify`), and what undo and redo do to the text (`Splice`, `UndoText`, `RedoText`) |
| `persistence.dfy` | `Persistence` | the preference store as a map, Java's `String.hashCode`, and what a save writes (`Encode`) and a restore reads (`Decode`) |
| `editor_manager.dfy` | `Manager` | the class `EditorManager`: the controller together with its listener, the widget's text and cursor, undo, redo, save and restore |

Inputs the model takes as parameters:
- The clock: `now`, in milliseconds.
- The widget's text and cursor: fields of `EditorManager`.
- The preference store: a `map` passed in, and returned by a save.

## Model

| member | source | states |
|---|---|---|
| HistoryItems.Item.constructor | app/src/main/java/com/ct/editor/manager/CTEditorHistoryItem.java:16-20 | the three fields hold the arguments as given |
| HistoryItems.Item.ToString | app/src/main/java/com/ct/editor/manager/CTEditorHistoryItem.java:23-29 | the rendering is the class header, then the start exactly as `IntToString` renders it (which reads back to the start), then the `before` label and text, then the `after` label and text and a closing brace; its length is the sum of the parts |
| HistoryItems.IntToString | app/src/main/java/com/ct/editor/manager/CTEditorHistoryItem.java:25 | Java's decimal rendering of an `int`: a minus sign exactly for negatives, then at least one character, all of them digits, with a leading `0` only for zero |
| HistoryItems.DecimalIsInverse | app/src/main/java/com/ct/editor/manager/CTEditorHistoryItem.java:25 | Java's decimal rendering of an integer reads back to the same integer, negatives included |
| HistoryItems.DigitsAreExact | app/src/main/java/com/ct/editor/manager/CTEditorHistoryItem.java:25 | the digits of a natural number read back to that number |
| History.Cleared | app/src/main/java/com/ct/editor/manager/CTEditHistory.java:20-23 | `clear` leaves no records and the cursor at 0, keeps the bound, and gives a valid log |
| History.Trim | app/src/main/java/com/ct/editor/manager/CTEditHistory.java:45-56 | under a bound that is not negative, the list shrinks to the smaller of its length and the bound; the cursor drops by the number evicted and is floored at 0; when the cursor lies within the list, the log is valid afterwards |
| History.TrimKeepsNewest | app/src/main/java/com/ct/editor/manager/CTEditHistory.java:46-50 | the records that survive a trim are the newest ones, in their order |
| History.Added | app/src/main/java/com/ct/editor/manager/CTEditHistory.java:25-36 | `add` keeps the bound; on a valid log it gives a valid log with the cursor after the last record |
| History.AddedAppends | app/src/main/java/com/ct/editor/manager/CTEditHistory.java:25-36 | after `add` on a valid log (bound not 0), the new record is the last one and the records before it are the newest of those that were applied: the redo tail is gone |
| History.AddedThenReplaced | app/src/main/java/com/ct/editor/manager/CTEditHistory.java:25-36 | `add` does not look at the record it appends: replacing it afterwards gives the same log as adding the replacement |
| History.AddUnbounded | app/src/main/java/com/ct/editor/manager/CTEditHistory.java:25-32 | without a bound, `add` keeps exactly the applied records, appends the new one, and moves the cursor past it |
| History.BranchOverwrite | app/src/main/java/com/ct/editor/manager/CTEditHistory.java:25-31 | adding `d` to `[a, b, c]` with the cursor at 1 gives `[a, d]` with the cursor at 2 |
| History.SetMaxSize | app/src/main/java/com/ct/editor/manager/CTEditHistory.java:38-56 | a negative bound is recorded and changes nothing else; any other bound cuts the list to the smaller of its length and the bound, keeping the newest records in order, and drops the cursor by the number evicted, floored at 0; validity is kept |
| History.BoundOfTwo | app/src/main/java/com/ct/editor/manager/CTEditHistory.java:38-50 | a bound of 2 on five records keeps the last two, and the cursor drops by three (floored at 0) |
| History.Current | app/src/main/java/com/ct/editor/manager/CTEditHistory.java:58-64 | `getCurrent` gives nothing exactly when the cursor is at 0; otherwise it gives the record just before the cursor |
| History.StepBack | app/src/main/java/com/ct/editor/manager/CTEditHistory.java:66-73 | `getPrevious` at cursor 0 gives nothing and changes nothing; otherwise the cursor drops by one and the record now at the cursor is returned; the records are untouched |
| History.StepForward | app/src/main/java/com/ct/editor/manager/CTEditHistory.java:75-84 | `getNext` at or past the end gives nothing and changes nothing; otherwise it returns the record at the cursor and moves the cursor past it |
| History.BackThenForward | app/src/main/java/com/ct/editor/manager/CTEditHistory.java:66-84 | on a valid log with something to undo, stepping back and then forward returns the same record and restores the log |
| History.ForwardThenBack | app/src/main/java/com/ct/editor/manager/CTEditHistory.java:66-84 | on a valid log with something to redo, stepping forward and then back returns the same record and restores the log |
| History.OperationsKeepValid | app/src/main/java/com/ct/editor/manager/CTEditHistory.java:20-84 | every log operation keeps the cursor within the list and the list within a non-negative bound |
| History.ContentsOfAdd | app/src/main/java/com/ct/editor/manager/CTEditHistory.java:25-36 | adding a record object and then reading the contents equals adding the record's contents to the contents |
| History.ContentsOfStepBack | app/src/main/java/com/ct/editor/manager/CTEditHistory.java:66-73 | stepping back over the records and then reading them equals stepping back over their contents |
| History.ContentsOfStepForward | app/src/main/java/com/ct/editor/manager/CTEditHistory.java:75-84 | stepping forward over the records and then reading them equals stepping forward over their contents |
| History.AddedKeepsDistinct | app/src/main/java/com/ct/editor/manager/CTEditHistory.java:25-36 | adding a record object that is not in the list yet keeps every record object in the list distinct |
| History.SetMaxSizeKeepsDistinct | app/src/main/java/com/ct/editor/manager/CTEditHistory.java:38-50 | setting the bound keeps the record objects distinct |
| History.EditHistory.constructor | app/src/main/java/com/ct/editor/manager/CTEditHistory.java:15-18 | a new log is empty, with the cursor at 0 and no bound (-1) |
| History.EditHistory.Clear | app/src/main/java/com/ct/editor/manager/CTEditHistory.java:20-23 | the new state is `Cleared` of the old one |
| History.EditHistory.Add | app/src/main/java/com/ct/editor/manager/CTEditHistory.java:25-36 | the loop that drops the redo tail, then the append and the trim, give `Added` of the old state |
| History.EditHistory.SetMaxHistorySize | app/src/main/java/com/ct/editor/manager/CTEditHistory.java:38-43 | the new state is `SetMaxSize` of the old one |
| History.EditHistory.TrimHistory | app/src/main/java/com/ct/editor/manager/CTEditHistory.java:45-56 | it completes exactly when the bound is not negative, and then gives `Trim` of the old state; under a negative bound the list empties, the cursor drops by its old length, and the next eviction fails |
| History.EditHistory.GetCurrent | app/src/main/java/com/ct/editor/manager/CTEditHistory.java:58-64 | returns `Current` of the state (`null` for nothing) |
| History.EditHistory.GetPrevious | app/src/main/java/com/ct/editor/manager/CTEditHistory.java:66-73 | returns the record of `StepBack` and moves to its state |
| History.EditHistory.GetNext | app/src/main/java/com/ct/editor/manager/CTEditHistory.java:75-84 | returns the record of `StepForward` and moves to its state |
| Editing.Classify | app/src/main/java/com/ct/editor/manager/CTEditorManager.java:283-295 | a change is a deletion exactly when it removed text and inserted none, an insertion exactly when it inserted text and removed none, and a paste otherwise (including a change that removes and inserts nothing); it is never "not defined" |
| Editing.StartsNewEntry | app/src/main/java/com/ct/editor/manager/CTEditorManager.java:262 | a change starts a new record whenever there is no current record; when there is one, it is batched exactly when it is of the last change's kind, is not a paste, and comes within the window |
| Editing.ExtendKeepsOldTexts | app/src/main/java/com/ct/editor/manager/CTEditorManager.java:266-277 | the contract of `Extend`, which grows the current record: growing a record keeps what it held: a deletion puts the removed text in front of its `before` text and moves its start there; an insertion puts the inserted text after its `after` text |
| Editing.Notify | app/src/main/java/com/ct/editor/manager/CTEditorManager.java:259-281 | `makeBatch` remembers the kind and the time of the change and keeps the log valid; a change that starts a new record is `add`ed; a batched one keeps the number of records, the cursor and the bound |
| Editing.SameKindWithinWindowIsBatched | app/src/main/java/com/ct/editor/manager/CTEditorManager.java:262-277 | with a current record, a change of the last change's kind that is not a paste and comes within the window is folded in: the number of records, the cursor and the bound stay, the current record becomes `Extend` of itself, and the kind and time are stored |
| Editing.BatchingGrowsCurrent | app/src/main/java/com/ct/editor/manager/CTEditorManager.java:266-277 | a batched change alters only the current record: a deletion is put before its `before` text and moves its start to the change's offset; an insertion is put after its `after` text |
| Editing.TypingIsBatched | app/src/main/java/com/ct/editor/manager/CTEditorManager.java:259-281 | typing "a", "b", "c" 400 ms apart makes the single record "abc" |
| Editing.PauseSplitsBatch | app/src/main/java/com/ct/editor/manager/CTEditorManager.java:262 | a pause longer than a second before "c" makes a second record |
| Editing.EmptyChangeIsRecorded | app/src/main/java/com/ct/editor/manager/CTEditorManager.java:283-295 | a change that removes and inserts nothing is a paste and is added as a record of its own |
| Editing.DistantInsertIsBatched | app/src/main/java/com/ct/editor/manager/CTEditorManager.java:262-275 | batching ignores where the change happened: an insertion far from the current record is still appended to it |
| Editing.BackspacesAreBatched | app/src/main/java/com/ct/editor/manager/CTEditorManager.java:259-281 | a burst of backspaces whose keystrokes come at most a second apart, and whose first keystroke starts a new record, is added as the single record of all the text it deleted, starting where the burst ended |
| Editing.BackspacesExtend | app/src/main/java/com/ct/editor/manager/CTEditorManager.java:266-277 | backspaces within the window that continue a deletion record grow that record leftwards over the deleted text, and change no other record, the cursor or the bound |
| Editing.PauseSplitsBackspaces | app/src/main/java/com/ct/editor/manager/CTEditorManager.java:262 | a pause of more than a second between two backspaces makes two records |
| Editing.Splice | app/src/main/java/com/ct/editor/manager/CTEditorManager.java:79 | replacing `text[start..end]` keeps the text before `start`, puts the replacement after it, and then the text from `end` on |
| Editing.UndoText | app/src/main/java/com/ct/editor/manager/CTEditorManager.java:74-79 | undoing a record puts its `before` text at its start in place of its `after` text, and keeps the text before and after that span |
| Editing.RedoText | app/src/main/java/com/ct/editor/manager/CTEditorManager.java:109-113 | redoing a record puts its `after` text at its start in place of its `before` text, and keeps the text before and after that span |
| Editing.RedoAfterUndo | app/src/main/java/com/ct/editor/manager/CTEditorManager.java:66-125 | when a record's `after` text stands at its start, undo and then redo give back the text |
| Editing.UndoAfterRedo | app/src/main/java/com/ct/editor/manager/CTEditorManager.java:66-125 | when a record's `before` text stands at its start, redo and then undo give back the text |
| Editing.RecordUndoesChange | app/src/main/java/com/ct/editor/manager/CTEditorManager.java:234-253 | the record made from a change describes the new text, and undoing it gives back the old text |
| Editing.AdjacentInsertKeepsUndo | app/src/main/java/com/ct/editor/manager/CTEditorManager.java:273-275 | batching an insertion typed right after the current record keeps the record describing the text, and undo gives what it gave before the insertion |
| Editing.AdjacentDeleteKeepsUndo | app/src/main/java/com/ct/editor/manager/CTEditorManager.java:268-272 | batching a deletion just before the current record keeps the record describing the text, and undo gives what it gave before the deletion |
| Editing.DistantInsertBreaksUndo | app/src/main/java/com/ct/editor/manager/CTEditorManager.java:262-275 | typing "a" at 0 and then "b" at 2 of "a-c" within the window leaves a record that no longer describes the text |
| Persistence.Wrap32 | app/src/main/java/com/ct/editor/manager/CTEditorManager.java:137 | the result is a Java `int` and differs from its argument by a multiple of 2^32 |
| Persistence.StringHash | app/src/main/java/com/ct/editor/manager/CTEditorManager.java:137 | the hash of the text is a Java `int` |
| Persistence.HashCollides | app/src/main/java/com/ct/editor/manager/CTEditorManager.java:190 | the different texts "Aa" and "BB" have the same hash |
| Persistence.EntryPrefsAt | app/src/main/java/com/ct/editor/manager/CTEditorManager.java:142-151 | record `i` is saved under its start, before and after keys, with its values |
| Persistence.EntryPrefsKeys | app/src/main/java/com/ct/editor/manager/CTEditorManager.java:142-151 | the record loop writes only record keys, and only for indexes below the number of records |
| Persistence.HeaderKeysAreFree | app/src/main/java/com/ct/editor/manager/CTEditorManager.java:136-151 | the record loop never overwrites the hash, bound, cursor or size keys |
| Persistence.Encode | app/src/main/java/com/ct/editor/manager/CTEditorManager.java:133-151 | what a save writes holds the document hash, the record count, the bound and the cursor |
| Persistence.EncodeKeys | app/src/main/java/com/ct/editor/manager/CTEditorManager.java:133-151 | a save writes exactly the four header keys and the three keys of each record index below the count |
| Persistence.ReadEntry | app/src/main/java/com/ct/editor/manager/CTEditorManager.java:205-211 | a record reads back exactly when its start is not -1 (the default) and both texts are present |
| Persistence.ReadEntries | app/src/main/java/com/ct/editor/manager/CTEditorManager.java:202-213 | when reading succeeds, it gives one record per index below the count (none for a negative count) |
| Persistence.ReadablePrefix | app/src/main/java/com/ct/editor/manager/CTEditorManager.java:202-213 | the records read before the first unreadable one are all the records when the read succeeds |
| Persistence.StopsAtUnreadable | app/src/main/java/com/ct/editor/manager/CTEditorManager.java:202-211 | the records read before an unreadable record below the count are exactly the records before it |
| Persistence.AddAll | app/src/main/java/com/ct/editor/manager/CTEditorManager.java:212 | adding the read records one by one keeps the bound and a cursor that is not negative |
| Persistence.AddAllFromEmpty | app/src/main/java/com/ct/editor/manager/CTEditorManager.java:194-213 | adding records to an empty log that can hold them all gives exactly those records, all applied |
| Persistence.ReadsBack | app/src/main/java/com/ct/editor/manager/CTEditorManager.java:202-213 | a store holding readable records reads the first `n` of them back |
| Persistence.UnreadableEntryFails | app/src/main/java/com/ct/editor/manager/CTEditorManager.java:209-211 | one unreadable record below the count makes the whole read fail |
| Persistence.HeaderReadsBack | app/src/main/java/com/ct/editor/manager/CTEditorManager.java:136-140 | a saved hash, bound, size and cursor read back as written, whatever else the store held |
| Persistence.EntriesReadBack | app/src/main/java/com/ct/editor/manager/CTEditorManager.java:142-151 | saved records read back as written, when no start is -1 |
| Persistence.Decode | app/src/main/java/com/ct/editor/manager/CTEditorManager.java:183-221 | a restore finds nothing to restore exactly when no hash is saved, and fails on the hash exactly when the saved hash differs from the document's; a failed or successful restore past the hash check carries the saved bound; a success needs a size, readable records and a cursor, and gives the saved cursor |
| Persistence.SaveThenRestore | app/src/main/java/com/ct/editor/manager/CTEditorManager.java:133-221 | saving a valid log in which no record starts at -1 and restoring it against a text with the same hash gives back the same records, cursor and bound |
| Persistence.NoHashMeansNothingSaved | app/src/main/java/com/ct/editor/manager/CTEditorManager.java:184-188 | without a saved hash there is nothing to restore |
| Persistence.ChangedDocumentIsRejected | app/src/main/java/com/ct/editor/manager/CTEditorManager.java:190-192 | a saved hash that differs from the text's makes the restore fail |
| Persistence.MissingFieldsAreRejected | app/src/main/java/com/ct/editor/manager/CTEditorManager.java:195-218 | once the hash matches, a missing size, an unreadable record below the size, or a missing cursor makes the restore fail, after the saved bound has been taken |
| Persistence.UnreadableEntryKeepsEarlier | app/src/main/java/com/ct/editor/manager/CTEditorManager.java:202-213 | a restore that meets an unreadable record fails, leaving the records before it added under the saved bound |
| Persistence.MissingPositionKeepsRecords | app/src/main/java/com/ct/editor/manager/CTEditorManager.java:202-218 | a restore whose records all read back but whose cursor is missing fails; when the records fit the saved bound, it leaves every record with the cursor at -1 |
| Persistence.CollisionIsAccepted | app/src/main/java/com/ct/editor/manager/CTEditorManager.java:190 | a log saved against "Aa" is restored onto the different text "BB" |
| Persistence.PositionIsNotChecked | app/src/main/java/com/ct/editor/manager/CTEditorManager.java:215-220 | a store claiming cursor 5 over one record restores into a log that is not valid |
| Manager.EditorManager.constructor | app/src/main/java/com/ct/editor/manager/CTEditorManager.java:28-33 | a new controller has an empty, unbounded log, an attached listener that has seen nothing, and the widget's text and cursor |
| Manager.EditorManager.Disconnect | app/src/main/java/com/ct/editor/manager/CTEditorManager.java:38-40 | the listener is detached; the text, the cursor, the flag and everything the listener remembers stay as they were |
| Manager.EditorManager.SetMaxHistorySize | app/src/main/java/com/ct/editor/manager/CTEditorManager.java:45-47 | the log becomes `SetMaxSize` of the old log, from any state; a valid log stays valid |
| Manager.EditorManager.ClearHistory | app/src/main/java/com/ct/editor/manager/CTEditorManager.java:52-54 | the log becomes `Cleared` of the old log |
| Manager.EditorManager.CanUndo | app/src/main/java/com/ct/editor/manager/CTEditorManager.java:59-61 | on a valid log, true exactly when `getPrevious` would return a record |
| Manager.EditorManager.CanRedo | app/src/main/java/com/ct/editor/manager/CTEditorManager.java:95-97 | on a valid log, true exactly when `getNext` would return a record |
| Manager.EditorManager.BeforeTextChanged | app/src/main/java/com/ct/editor/manager/CTEditorManager.java:234-242 | unless the listener is told to stand aside, it remembers the text about to be replaced; nothing else changes |
| Manager.EditorManager.OnTextChanged | app/src/main/java/com/ct/editor/manager/CTEditorManager.java:244-253 | while the listener is told to stand aside, nothing it holds changes; otherwise it remembers the new text and its state becomes `Notify` of the old one |
| Manager.EditorManager.MakeBatch | app/src/main/java/com/ct/editor/manager/CTEditorManager.java:259-281 | the listener's state (the contents of the log, the last kind and time) becomes `Notify` of the old one, and the invariant holds |
| Manager.EditorManager.PushChange | app/src/main/java/com/ct/editor/manager/CTEditorManager.java:262-265 | when the change starts a new record, the contents of the log become those `Notify` gives |
| Manager.EditorManager.AddNewRecord | app/src/main/java/com/ct/editor/manager/CTEditorManager.java:264 | `add` of a new record object adds its contents to the contents of the log, and keeps the invariant |
| Manager.EditorManager.FoldChange | app/src/main/java/com/ct/editor/manager/CTEditorManager.java:266-277 | growing the current record object in place gives the contents `Notify` gives: no other record changes |
| Manager.EditorManager.ReplaceText | app/src/main/java/com/ct/editor/manager/CTEditorManager.java:234-253 | a span inside the text is replaced and, when the listener is attached and not told to stand aside, the listener remembers both texts and its state becomes `Notify` of the old one; otherwise, and for a span outside the text (which changes nothing), the listener keeps everything it held |
| Manager.EditorManager.ReplaceUnrecorded | app/src/main/java/com/ct/editor/manager/CTEditorManager.java:78-80 | the text is replaced without touching the log, the listener, the cursor or its attachment; when the replace throws, the text is kept and the stand-aside flag stays set |
| Manager.EditorManager.Undo | app/src/main/java/com/ct/editor/manager/CTEditorManager.java:66-90 | the log becomes `StepBack` of the old one, with the same record objects, and the listener keeps all it holds; with no record, nothing else changes; a record whose `after` span fits the text is undone and the cursor goes after its `before` text; otherwise the text and cursor are kept, the flag stays set and the result is `OutOfRange` |
| Manager.EditorManager.Redo | app/src/main/java/com/ct/editor/manager/CTEditorManager.java:102-125 | the log becomes `StepForward` of the old one, and the listener keeps all it holds; with no record, nothing else changes; a record whose `before` span fits the text is redone and the cursor goes after its `after` text; otherwise as for undo |
| Manager.EditorManager.SaveEditorHistoryState | app/src/main/java/com/ct/editor/manager/CTEditorManager.java:133-154 | the store written is the old store overwritten with `Encode` of the text's hash and the contents of the log |
| Manager.EditorManager.RestoreEditorHistoryStateInternal | app/src/main/java/com/ct/editor/manager/CTEditorManager.java:183-221 | by the cases of `Decode`, from any state: nothing saved returns true and keeps the log; a changed document returns false and keeps the log; a corrupt store returns false and leaves what the code had built by then (the records read so far under the saved bound, or all of them with the cursor at -1); otherwise it returns true and the contents of the log are the restored log |
| Manager.EditorManager.AddSavedRecords | app/src/main/java/com/ct/editor/manager/CTEditorManager.java:202-213 | the loop completes exactly when every record below the count reads back, and the log is then the old log with those records added; otherwise it is the old log with the records before the first unreadable one added |
| Manager.EditorManager.RestoreEditorHistoryState | app/src/main/java/com/ct/editor/manager/CTEditorManager.java:164-173 | as the internal restore, from any state, but every failure leaves the log cleared (keeping a bound already read) and valid; with nothing saved, validity is as before; after a success the invariant holds exactly when the restored log is valid |
| Manager.EditorManager.SaveAndRestore | app/src/main/java/com/ct/editor/manager/CTEditorManager.java:133-221 | from a valid state in which no record starts at -1, saving and then restoring onto the same text succeeds and gives the same contents of the log |
| Manager.EditorManager.UndoThenRedo | app/src/main/java/com/ct/editor/manager/CTEditorManager.java:66-125 | when the current record describes the text, undo and then redo both apply, and give back the text and the log |

## Left out

- The activity (`MainActivity.java`) that creates the controller and calls save and restore is not part of this model.
- The widget itself is reduced to its text and its cursor. Its replace is modelled with its range check and its synchronous `beforeTextChanged`/`onTextChanged` calls. Spans, suggestions and the removal of underline spans after undo and redo are left out, because they carry no history state.
- How the widget's own replace moves the cursor is left out. `ReplaceText` keeps the cursor; only undo and redo set it, as the controller does.
- Any case in which the widget's replace skips its listeners is left out. Every replace inside the text notifies the attached listener.
- Logging (`Log.d`) is left out. It has no effect on the state.
- The clock (`System.currentTimeMillis`) becomes the parameter `now`. makeBatch reads the clock twice, once for the batching window and once for the time it stores; the model treats both reads as the one instant `now`.
- Java `null` is left out. Texts are never null, and `CharSequence` is a `string`. The `null` checks on `mmBefore` and `mmAfter` in undo and redo are therefore always false.
- Java `int` overflow of the cursor, the offsets and the record count is left out. Integers are unbounded. The string hash is the one place where 32-bit wrap-around is written out.
- `String.hashCode` is computed over Dafny characters, which are Unicode scalar values. Java uses UTF-16 code units, so texts with characters outside the Basic Multilingual Plane hash differently.
- The preference store is a map from typed keys to integer or text values. The prefix strings that form Java's key names are left out; keys differ exactly when Java's do.
- A value of the wrong type reads as absent. Java would throw `ClassCastException` there.
- The hash is kept as an integer preference. Its decimal text and the `Integer.valueOf` parse (which throws on text that is not a number) are left out.
- The save does not commit the preference editor. The model returns the written map; a commit is not modelled.
- `SaveEditorHistoryState` writes into a new map that it returns. It does not mutate a shared editor.
- History.EditHistory.Add requires a cursor that is not negative. Java would throw in `LinkedList` for a negative cursor; that throw is not modelled.
- History.EditHistory.GetNext requires a cursor that is not negative, for the same reason.
- History.EditHistory.GetCurrent requires a cursor within the list. Java would throw in `LinkedList.get` outside it; that throw is not modelled.
- History.EditHistory.GetPrevious requires a cursor within the list, for the same reason.
- Manager.EditorManager.RestoreEditorHistoryState does not range-check the saved cursor, as in the source. After a restore with a cursor outside the list, the controller's invariant (`Valid`) does not hold. Clearing, setting the bound and restoring again work from that state, as in Java; the members below require the invariant and so cannot be called in it.
- Manager.EditorManager.OnTextChanged requires the invariant. With a cursor outside the list, Java's `getCurrent` throws there too.
- Manager.EditorManager.MakeBatch requires the invariant, for the same reason.
- Manager.EditorManager.PushChange requires the invariant, as the branch of `makeBatch` it models.
- Manager.EditorManager.FoldChange requires the invariant, as the branch of `makeBatch` it models.
- Manager.EditorManager.AddNewRecord requires the invariant. The restore calls it only after clearing the log.
- Manager.EditorManager.ReplaceText requires the invariant even when the listener is detached or told to stand aside. Java's replace works then in any state.
- Manager.EditorManager.ReplaceUnrecorded requires the invariant, as `ReplaceText` does.
- Manager.EditorManager.Undo requires the invariant. With a cursor outside the list, Java's `getPrevious` throws.
- Manager.EditorManager.Redo requires the invariant. Java's `getNext` throws for a negative cursor, but returns nothing, and redo does nothing, for a cursor past the end; that case is not modelled.
- Manager.EditorManager.AddSavedRecords requires the invariant. The restore calls it only after clearing the log.
- Persistence.SaveThenRestore: the round trip is stated only for logs where no record starts at -1. The restore loop reads a start of -1 as a missing record (CTEditorManager.java:205-212), so such a log comes back Corrupt.
- Persistence.MissingPositionKeepsRecords: the lemma covers only records that fit the saved bound. With more records than the bound, the restore's add calls evict the oldest ones, as in `AddAll`.
- Manager.EditorManager.SaveAndRestore requires the invariant, since it promises to give back a valid log. It also needs no record to start at -1, for the reason given under Persistence.SaveThenRestore.
- Manager.EditorManager.UndoThenRedo requires the invariant, as undo and redo do.
- Manager.EditorManager.Undo takes `now` only because the replace it makes passes the time to the listener. The listener ignores that edit.
- Manager.EditorManager.Redo takes `now` for the same reason.
- Editing.Notify states only the size, cursor and bound of the log after a batched change. What the change does to the current record is stated by Editing.BatchingGrowsCurrent.
