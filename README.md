# Sticky notes: window bookkeeping and note tables

This project models the core of a GTK sticky-notes applet for GNOME. Each
note is a small undecorated window. The set of notes, with its category
table and properties, is saved as one JSON document. On Wayland the
toolkit can neither place a window nor report its position, so the
applet asks the GNOME Shell "window-calls" extension over the session
bus. That means working out which shell window belongs to which note.
The applet does this with four matchers:

- a first-fit size match in the 300 ms callback after a window is first shown;
- a scoring match, `assignWindowID`;
- a first-fit size match in `onConfigure`;
- a first-fit size match in `UpdateNotePositionsFromWindowCalls`.

The model covers:

- `stickynotes/window_calls.go`: the extension client, its availability
  flag and the position sync. The bus's replies are an oracle value,
  `Shell`. Every call is a pure step function over the bus state, and
  class `Extension` holds the globals.
- `stickynotes/gui.go`: the `StickyNote` fields the program reads and
  writes, each timer callback as a method, `UpdateNote`, `Properties`,
  `onConfigure`, the lock and `setCategory`.
- `stickynotes/backend.go`: `Note` and `NoteSet`, with `NewNote`, `Delete`,
  `New`, `ShowAll`, `HideAll`, `AssignWindowIDs`, `Save`, `Open`, `Loads`,
  `Merge` and `GetCategoryProperty`.
- `stickynotes/settings.go`: the category settings dialog's edits of the
  category table.

The central invariant is `HandlesDistinct`: no two notes' windows share a
non-zero window ID. Each matcher that skips IDs held by other notes keeps
it. The `onConfigure` match does not skip them, and it is shown able to
break the invariant.

Files:

- `wrappers.dfy`: the `Option` datatype.
- `values.dfy`: Go `interface{}` values, `FallbackProperties`, and float-to-int truncation.
- `window_calls.dfy`: the extension client.
- `matching.dfy`: the matchers as pure functions over the bus state and the oracle.
- `geometry.dfy`: the geometry rules.
- `bookkeeping.dfy`: the whole-set loops as folds over per-note snapshots, and window-ID injectivity.
- `backend.dfy`: the value-level note and table logic.
- `notes.dfy`: the classes `Note`, `StickyNote` and `NoteSet`.
- `settings.dfy`: `SettingsCategory` and `SettingsDialog`.

## Model

| member | source | states |
|---|---|---|
| Values.Truncate | stickynotes/gui.go:170 | Go's `int(x)` of a float drops the fraction towards zero, for negative and non-negative values |
| WindowCalls.Connect | stickynotes/window_calls.go:58-70 | the cached connection is reused; otherwise one is opened exactly when the session bus is reachable, and then cached |
| WindowCalls.Min | stickynotes/window_calls.go:153-158 | the result is at most both arguments and is one of them |
| WindowCalls.CallsNeverEnable | stickynotes/window_calls.go:109-211 | `List`, `Details` and `Move` never set the availability flag, never change the Wayland flag and never drop the cached connection |
| WindowCalls.OnlyServiceErrorsDisable | stickynotes/window_calls.go:130-136 | the flag falls only when `List` or `Details` replies `ServiceUnknown` or `UnknownMethod` over a live connection |
| WindowCalls.UnavailableIsQuiet | stickynotes/window_calls.go:110-114 | when unavailable, `ListWindows` and `GetWindowDetails` return no data and `MoveWindow` fails, whatever the shell would answer; `GetCurrentProcessWindows` is then an error |
| WindowCalls.JSErrorIsNoData | stickynotes/window_calls.go:183-186 | a script error from `Details` is "no data" and leaves the flag as it was |
| WindowCalls.StepsKeepSound | stickynotes/window_calls.go:45-55 | every call keeps the invariant that the flag is set only on Wayland with a live connection |
| WindowCalls.SoundCallsKeepConnection | stickynotes/window_calls.go:58-70 | on a sound bus, `List` and `Details` leave the cached connection as it was |
| WindowCalls.InitIsSound | stickynotes/window_calls.go:45-55 | `init` leaves a sound bus and sets the flag exactly when, on Wayland, the bus is up and the `List` output starts with `[` or `{` |
| WindowCalls.NilListIsError | stickynotes/window_calls.go:244-251 | a nil list from `ListWindows` makes `GetCurrentProcessWindows` an error, not an empty list |
| WindowCalls.OwnWindowsMembers | stickynotes/window_calls.go:253-265 | a window is in the process's list exactly when it is listed with the current PID |
| WindowCalls.OwnWindowsAppend | stickynotes/window_calls.go:253-265 | the filter distributes over concatenation, so list order is kept |
| WindowCalls.OwnWindowsIgnoreTitles | stickynotes/window_calls.go:255-264 | blanking every title changes nothing about which windows are kept |
| WindowCalls.FirstWithPidIsFirstOwn | stickynotes/window_calls.go:221-227 | `FindWindowByPID`'s search yields the head of the process-window filter for that PID, and nothing when the filter is empty |
| WindowCalls.FirstWithPidSpec | stickynotes/window_calls.go:221-227 | the search fails exactly when no window has the PID; otherwise it finds a window with the PID that no earlier window has |
| WindowCalls.SelectOwn | stickynotes/window_calls.go:253-265 | the filtering loop returns the windows listed with the PID, in order |
| WindowCalls.SearchPid | stickynotes/window_calls.go:221-227 | the search loop returns the first window with the PID |
| WindowCalls.Extension.Init | stickynotes/window_calls.go:45-55 | the globals after `init`: the flag comes from the extension check on Wayland and is false otherwise; the bus is sound |
| WindowCalls.Extension.GetDBusConnection | stickynotes/window_calls.go:58-70 | the globals and the result follow `Connect`, and soundness is kept |
| WindowCalls.Extension.CheckWindowCallsExtension | stickynotes/window_calls.go:73-100 | true exactly when a connection exists and `List` returns output starting with `[` or `{` |
| WindowCalls.Extension.ListWindows | stickynotes/window_calls.go:109-151 | nothing when unavailable; a connection error; the two service errors clear the flag and give nil; other errors and malformed output are errors; JSON `null` is nil |
| WindowCalls.Extension.GetWindowDetails | stickynotes/window_calls.go:162-211 | like `ListWindows`; in addition a script error is nil with the flag untouched, and output that does not parse is an error |
| WindowCalls.Extension.MoveWindow | stickynotes/window_calls.go:381-405 | fails when unavailable or unconnected; otherwise succeeds unless the shell refuses the window |
| WindowCalls.Extension.GetCurrentProcessWindows | stickynotes/window_calls.go:243-279 | the listed windows of the current PID, in order; an error for a failed or nil listing |
| WindowCalls.Extension.FindWindowByPid | stickynotes/window_calls.go:215-228 | the first listed window with the PID; an error when there is no listing or no such window |
| Geometry.AbsInt | stickynotes/gui.go:15-20 | the result is non-negative and is `x` or `-x` |
| Geometry.DefaultRestorePosition | stickynotes/gui.go:166-176 | without a saved pair of floats, the window is restored at (10, 10); with one, restore position and `LastKnownPos` are that pair |
| Geometry.DefaultsWhenAbsent | stickynotes/gui.go:166-188 | a missing `position` gives (10, 10); a missing `size` gives `LastKnownSize` (200, 150) and a resize to it |
| Geometry.IntPairsAreNotRestored | stickynotes/gui.go:167 | a position held as Go `[]int` fails the `[]interface{}` assertion, so restore position and `LastKnownPos` are (10, 10) |
| Geometry.SavedSizeIsTruncated | stickynotes/gui.go:178-184 | a saved float size is truncated towards zero, and the window is resized to it |
| Geometry.RefreshSources | stickynotes/gui.go:452-470 | `UpdateNote` takes the extension's geometry when it answers for the window ID, and GTK's when unavailable or without an ID; GTK's position is used only if the extension was not asked |
| Geometry.Reported | stickynotes/gui.go:474-491 | each reported value is the last known one or GTK's |
| Geometry.ReportedPosition | stickynotes/gui.go:484-488 | GTK's position is reported exactly when it is non-zero and `LastKnownPos` is (10, 10) or (0, 0) |
| Geometry.ReportedSize | stickynotes/gui.go:489-491 | GTK's size is reported exactly when both dimensions exceed 1 |
| Geometry.ConfigureFallback | stickynotes/gui.go:619-628 | a (0, 0) GTK position keeps the old position, and a size not above 1x1 keeps the old size; otherwise GTK's values are taken |
| Geometry.ExtractWritesGtkZeroPosition | stickynotes/backend.go:69-73 | without the extension on Wayland, `Extract` writes (0, 0) as the position, although `onConfigure`'s fallback kept `LastKnownPos` |
| Matching.FirstFitNeedsBus | stickynotes/gui.go:243-265 | a first-fit match needs the extension available and the bus reachable |
| Matching.FirstFitIsFirstFree | stickynotes/gui.go:243-265 | the match is unclaimed, its shell details fit the size within 10 pixels, and every earlier listed window is claimed or does not fit |
| Matching.FirstFitIsListed | stickynotes/gui.go:243-265 | the match is a listed window whose details fit |
| Matching.FirstFitOnLiveBus | stickynotes/gui.go:243-265 | on a live bus whose lookups do not switch the extension off, the match is the first fitting unclaimed window, and the bus is unchanged |
| Matching.FirstFitUnavailable | stickynotes/gui.go:243-265 | when unavailable, nothing is matched and the bus is unchanged |
| Matching.ConfigureMatchIgnoresClaims | stickynotes/gui.go:588-596 | a concrete case: without the claimed check, as in `onConfigure`, a window held by another note is taken; with it, nothing is |
| Matching.Score | stickynotes/gui.go:392-403 | the score is 0, 5, 10 or 15; it is at least 10 exactly on a size fit; it has the 5 exactly on a position match against a non-(0, 0) expected position |
| Matching.SizeBeatsPosition | stickynotes/gui.go:392-403 | a size fit outscores any candidate without one |
| Matching.EvalsShape | stickynotes/gui.go:359-403 | one outcome per candidate: claimed ones are skipped, and a candidate with a listed size is scored on its listed geometry |
| Matching.EvalsKeepSound | stickynotes/gui.go:359-410 | the candidate loop keeps the bus sound |
| Matching.PickIsBest | stickynotes/gui.go:405-408 | `bestMatch` has the maximum score; a zero score leaves it (0, 0); on a positive score it is the earliest window that reached it, since the comparison is strict |
| Matching.ChooseIsBestFree | stickynotes/gui.go:354-416 | a chosen window is listed and unclaimed, no candidate scores higher, and a zero best means no window |
| Matching.ChooseFavoursSize | stickynotes/gui.go:392-408 | when an unclaimed candidate with a listed size fits, the best score is at least 10 |
| Matching.EvalsInsertSkipped | stickynotes/gui.go:381-390 | a candidate skipped without a bus effect adds a `Skipped` outcome and changes neither the bus nor the other outcomes |
| Matching.PickIgnoresSkipped | stickynotes/gui.go:405-408 | a `Skipped` outcome does not change `bestMatch` |
| Matching.SkippedWindowIsIrrelevant | stickynotes/gui.go:381-390 | a claimed candidate, or one listed as 0x0 that the extension does not know, leaves the choice as it was |
| Matching.AssignStepChoice | stickynotes/gui.go:339-421 | an assigned ID is never replaced; a new ID is non-zero, unclaimed and a listed window of this process |
| Matching.MatchAndPlaceStepProps | stickynotes/gui.go:235-293 | every branch moves to the restore position; an existing ID is kept; a new ID is unclaimed; with no ID the move is GTK's |
| Matching.VerifyStepIsAssign | stickynotes/gui.go:307-323 | the 1500 ms callback leaves the ID `assignWindowID` would leave and keeps the bus sound |
| Matching.SyncStepProps | stickynotes/window_calls.go:313-368 | with a known ID the shell answers for: its geometry, `updated` exactly when the position moved; otherwise the first free fitting window, if any, with its ID and geometry; a claimed ID is never taken |
| Matching.ConfigureStepProps | stickynotes/gui.go:580-617 | an assigned ID is kept; unavailable means no change and the GTK fallback; a new ID is a listed window of this process that fits, whoever holds it |
| Bookkeeping.RetakeDistinct | stickynotes/gui.go:246-252 | giving a note a window ID keeps IDs distinct exactly when the ID is 0, is the note's own, or is held by no other note |
| Bookkeeping.NewGuiDistinct | stickynotes/backend.go:103-104 | a note gaining a GUI without a window ID keeps IDs distinct |
| Bookkeeping.SameIdsDistinct | stickynotes/gui.go:452-470 | geometry-only changes keep IDs distinct |
| Bookkeeping.SpliceDistinct | stickynotes/backend.go:92-97 | removing a note keeps IDs distinct |
| Bookkeeping.AppendNewGuiDistinct | stickynotes/backend.go:296-305 | appending a note whose GUI has no window ID keeps IDs distinct |
| Bookkeeping.TakingHeldBreaksDistinct | stickynotes/gui.go:588-596 | a concrete case: taking a window another note holds breaks distinctness |
| Bookkeeping.SyncUpTo | stickynotes/window_calls.go:307-370 | the note loop changes only the snapshots of the notes visited and keeps each note's GUI or lack of one |
| Bookkeeping.SyncUpToDistinct | stickynotes/window_calls.go:336-368 | the note loop keeps window IDs distinct |
| Bookkeeping.SyncUpToBare | stickynotes/window_calls.go:307-310 | notes without a GUI are untouched, and no ID changes unless `updated` is set |
| Bookkeeping.SyncAllProps | stickynotes/window_calls.go:284-376 | the whole update keeps IDs distinct and each note's GUI or lack of one; unavailable means no change |
| Bookkeeping.AssignUpTo | stickynotes/backend.go:317-323 | the loop changes only the window IDs of the notes visited |
| Bookkeeping.AssignUpToProps | stickynotes/backend.go:317-323 | `AssignWindowIDs` keeps IDs distinct and never changes an assigned ID |
| Bookkeeping.RefreshAt | stickynotes/backend.go:69-73 | `Extract`'s refresh keeps the number of notes |
| Bookkeeping.RefreshUpTo | stickynotes/backend.go:186-190 | `Dumps` changes only the geometry of the GUIs visited |
| Bookkeeping.RefreshUpToProps | stickynotes/backend.go:186-190 | saving keeps IDs exactly as distinct as before, and keeps the bus sound |
| Bookkeeping.Trace | stickynotes/backend.go:309-311 | note by note, the bus before each turn and each snapshot re-read: it starts from the given bus, and each turn is `RefreshOne` of that note's snapshot, a GUI's geometry re-read as `UpdateNote` does and a GUI-less note untouched |
| Bookkeeping.TraceIsRefreshUpTo | stickynotes/backend.go:186-190 | the trace is the refresh saving computes: after `i` notes, `RefreshUpTo`'s bus and re-read snapshots are the trace's |
| Bookkeeping.RefreshWithoutExtension | stickynotes/gui.go:464-470 | on Wayland without the extension, saving writes (0, 0) as every GUI note's position |
| Backend.NewNoteFields | stickynotes/backend.go:24-66 | the UUID is the content's string UUID or the fresh one, never empty; the category is the content's non-empty one or the parameter; nil content gives an empty note |
| Backend.NewNoteKeepsStoredUuid | stickynotes/backend.go:31-33 | a stored string UUID is kept |
| Backend.NewNoteCategoryFallback | stickynotes/backend.go:40-53 | an empty or non-string stored category gives the parameter |
| Backend.EffectiveCategory | stickynotes/backend.go:337-343 | an empty category becomes a string `default_cat`; any other category is kept |
| Backend.CategoryPropertyResolution | stickynotes/backend.go:335-371 | the category's own value when it exists with the property, else the fallback value or nil; an existing category without the property does not consult `default_cat` |
| Backend.EmptyCategoryUsesDefault | stickynotes/backend.go:337-343 | for an empty category the lookup is that of a non-empty `default_cat` |
| Backend.UnknownPropertyIsNil | stickynotes/backend.go:359-364 | only the four fallback keys resolve without a category entry |
| Backend.ImportedCategories | stickynotes/backend.go:164-170 | the object-valued entries of an imported `categories` object, and nothing else |
| Backend.MergeCategories | stickynotes/backend.go:242-251 | imported category objects overwrite entries with the same key; other entries stay |
| Backend.LoadCategories | stickynotes/backend.go:164-171 | a `categories` object replaces the table; otherwise it is kept |
| Backend.LoadProperties | stickynotes/backend.go:161-163 | a `properties` object replaces the properties; otherwise they are kept |
| Backend.NoteObjects | stickynotes/backend.go:172-179 | the object entries of a `notes` array, at most one per entry; none without an array |
| Backend.ObjectsOf | stickynotes/backend.go:174-175 | exactly the object entries are kept |
| Backend.IndexFieldsSpec | stickynotes/backend.go:253-258 | the `dnotes` index holds exactly the non-empty UUIDs, each entry under its own UUID, and a UUID's last note is the one filed |
| Backend.PatchOnlyTypedFields | stickynotes/backend.go:263-273 | a patch changes body, properties and category exactly when the object carries them with the right type, and never the UUID |
| Backend.NewNoteHasObjectKey | stickynotes/backend.go:277-281 | a new note from an imported object is filed under the object's key, which is non-empty |
| Backend.MergeFieldsKeys | stickynotes/backend.go:253-284 | the merged index holds the old UUIDs and each imported key, and nothing else; every entry is under its own UUID, so no two notes share one |
| Backend.MergeStepKeys | stickynotes/backend.go:262-282 | one object adds exactly its key, under its own UUID |
| Backend.MergeFieldsUntouched | stickynotes/backend.go:253-284 | a note no imported object names comes through unchanged |
| Backend.MergeFieldsSingle | stickynotes/backend.go:260-284 | an object whose key no other object repeats is filed as its patch of the existing note, or as the new note `NewNote` makes |
| Backend.MergeStepOwn | stickynotes/backend.go:262-282 | one object is filed as a patch of the note its UUID names, or as a new note |
| Backend.MergeStepOther | stickynotes/backend.go:262-282 | one object leaves every other key as it was |
| Backend.MergeFieldsKeys2 | stickynotes/backend.go:253-284 | a key neither the index nor any object has stays absent |
| Backend.LoadedFields | stickynotes/backend.go:172-179 | one note per object, each as `NewNote` makes it |
| Backend.LoadedKeepsUuids | stickynotes/backend.go:172-179 | loaded notes keep the objects' own UUIDs, and objects with different UUIDs give different notes' UUIDs |
| Backend.MapValues | stickynotes/backend.go:286-289 | the map's values, each exactly once, in an order the map does not fix |
| Backend.Join | stickynotes/backend.go:208 | `filepath.Join` of two elements drops an empty one and otherwise puts one `/` between them |
| Backend.DataPathExpansion | stickynotes/backend.go:205-209 | a path not starting with `~` is used as it is; a `~` path is home joined with everything after the second character, whatever that character is |
| Backend.SettingsFilesExpand | stickynotes/info.go:7-8 | both data files lie in the home directory, under the names after `~/` |
| Backend.HomeRelative | stickynotes/backend.go:205-209 | `~/rest` becomes home, `/`, then `rest` |
| Backend.FirstIndex | stickynotes/backend.go:92-93 | the index of the first occurrence |
| Backend.RemoveFirstSpec | stickynotes/backend.go:92-97 | `Delete`'s splice removes only the first occurrence, keeping the order of the others; the length drops by one when the note is present, and the list is unchanged otherwise |
| Backend.RemoveFirstIsSplice | stickynotes/backend.go:94 | the splice is `s[:i] ++ s[i+1:]` at the first occurrence |
| Backend.FindFirst | stickynotes/backend.go:92-96 | the search loop finds the first occurrence, or reports none exactly when the note is absent |
| StickyNotes.SavedLock | stickynotes/gui.go:191 | a note is restored locked exactly when its `locked` property is `true` |
| StickyNotes.PropertiesOf | stickynotes/gui.go:474-501 | the three keys `position`, `size` and `locked`, with the position and size `Reported` chooses, as integer pairs |
| StickyNotes.DistinctByNotes | stickynotes/gui.go:246-252 | distinct handles mean that no two different notes' GUIs share a non-zero window ID, whatever the list order |
| StickyNotes.DistinctKeptBy | stickynotes/backend.go:286-289 | reordering notes, dropping them or adding GUI-less ones keeps handles distinct |
| StickyNotes.FiledValuesUuids | stickynotes/backend.go:286-289 | distinct notes taken from the `dnotes` map carry distinct UUIDs |
| StickyNotes.Note.FromFields | stickynotes/backend.go:24-66 | a new note carries the fields `NewNote` computes, without a GUI |
| StickyNotes.Note.Extract | stickynotes/backend.go:69-82 | with a GUI, the geometry is refreshed as `UpdateNote` does and `Properties` replaces the note's; the result is the note's fields; other notes are untouched |
| StickyNotes.Note.ExtractGui | stickynotes/backend.go:70-73 | the note's fields become what `Export` makes of its window |
| StickyNotes.Note.TakeProperties | stickynotes/backend.go:72 | the note's properties are the GUI's `Properties` |
| StickyNotes.Note.Show | stickynotes/backend.go:101-111 | a note without a GUI gets a fresh one built from its properties at the reported geometry: visible, without a window ID, showing the body, with the bus untouched; otherwise its GUI's `Show` runs: the body becomes the buffer's text, the geometry and bus follow `Refresh`, and a 500 ms `assignWindowID` is queued exactly when the extension is available and there is no ID; only this note's snapshot changes, and handles stay distinct |
| StickyNotes.Note.BuildGui | stickynotes/backend.go:103-104 | the new GUI is fresh, visible and without a window ID, built from the note's properties at the reported geometry and showing its body; only this note's snapshot changes |
| StickyNotes.Note.SetLockedState | stickynotes/backend.go:121-127 | without a GUI the lock goes into the properties, from which a later GUI restores it; otherwise into the GUI |
| StickyNotes.Note.CatProp | stickynotes/backend.go:130-132 | the category's own value when present, else the fallback for a missing category |
| StickyNotes.Note.Delete | stickynotes/backend.go:91-99 | the first occurrence leaves the list and handles stay distinct; the set is saved: buffers are the old ones without this note's, the geometry is `Dumps`' refresh of the remaining snapshots, and each saved entry is `Export` of the remaining notes' old fields |
| StickyNotes.Note.Patch | stickynotes/backend.go:263-273 | the note's fields become the patch of the imported object |
| StickyNotes.Note.Update | stickynotes/backend.go:85-88 | the body becomes the text: only this note's entry of the field list changes, in its body; snapshots and buffers are unchanged |
| StickyNotes.StickyNote.Build | stickynotes/gui.go:90-336 | the lock, text and geometry defaults are restored from the properties; the window starts with no ID, transparent; the timers are scheduled, depending on whether the extension is available |
| StickyNotes.StickyNote.TakeWindowId | stickynotes/gui.go:263 | only this note's snapshot changes; handles stay distinct exactly when the new ID is 0, the note's own, or unheld |
| StickyNotes.StickyNote.EvaluateWindow | stickynotes/gui.go:359-403 | one candidate's outcome and bus effect are `Evaluate`'s |
| StickyNotes.StickyNote.ChooseWindow | stickynotes/gui.go:359-410 | the candidate loop's `bestMatch` and bus effect are `Choose`'s |
| StickyNotes.StickyNote.AssignWindowId | stickynotes/gui.go:339-421 | the ID and bus follow `AssignStep`; handles stay distinct |
| StickyNotes.StickyNote.FindWindow | stickynotes/gui.go:344-416 | the ID found is 0 or not held by another note |
| StickyNotes.StickyNote.FirstFreeFit | stickynotes/gui.go:244-264 | the first-fit loop, with or without the claimed check, is `FirstFit` |
| StickyNotes.StickyNote.OnFirstShowTimer | stickynotes/gui.go:235-293 | the ID and move follow `MatchAndPlaceStep`; the window is opaque on every path; handles stay distinct |
| StickyNotes.StickyNote.MatchWindow | stickynotes/gui.go:243-265 | with the claimed check, handles stay distinct; without it, they stay distinct exactly when the ID taken was unheld |
| StickyNotes.StickyNote.FindFit | stickynotes/gui.go:243-265 | with the claimed check, the ID found is 0 or unheld |
| StickyNotes.StickyNote.PlaceOnFirstShow | stickynotes/gui.go:267-292 | a move through the extension when there is an ID, by GTK otherwise or after a refusal; then opaque |
| StickyNotes.StickyNote.OnVerifyTimer | stickynotes/gui.go:307-323 | the ID follows `VerifyStep`; handles stay distinct |
| StickyNotes.StickyNote.CheckPosition | stickynotes/gui.go:314-322 | with an ID, one details query whose answer is unused |
| StickyNotes.StickyNote.OnAssignTimer | stickynotes/gui.go:330-333 | the 500 ms callbacks run `assignWindowID`; handles stay distinct |
| StickyNotes.StickyNote.OnIdleMove | stickynotes/gui.go:296-300 | a GTK move to the restore position, then opaque |
| StickyNotes.StickyNote.UpdateNote | stickynotes/gui.go:449-472 | the buffer's text becomes the body, in this note's field entry only; the geometry follows `Refresh`; buffers and the window ID are untouched, and so is distinctness |
| StickyNotes.StickyNote.RefreshGeometry | stickynotes/gui.go:452-470 | the geometry follows `Refresh`; only this note's snapshot changes; fields and buffers are unchanged |
| StickyNotes.StickyNote.LookupGeometry | stickynotes/gui.go:454-462 | the details query as a position and size; no note changes |
| StickyNotes.StickyNote.SetGeometry | stickynotes/gui.go:458-459 | only this note's snapshot changes; fields and buffers are unchanged; distinctness is unchanged |
| StickyNotes.StickyNote.Show | stickynotes/gui.go:423-441 | `UpdateNote`, then visible; a 500 ms `assignWindowID` is scheduled exactly when the extension is available and there is no ID |
| StickyNotes.StickyNote.Reveal | stickynotes/gui.go:429-437 | the window is shown, and the callback is scheduled as above |
| StickyNotes.StickyNote.Hide | stickynotes/gui.go:443-447 | the window is hidden and keeps its window ID |
| StickyNotes.StickyNote.ConfigureGeometry | stickynotes/gui.go:574-629 | the ID and geometry follow `ConfigureStep`, with `ConfigureFallback` when the shell gives none; only this note's snapshot changes, fields and buffers do not; handles stay distinct exactly when the ID taken was unheld |
| StickyNotes.StickyNote.ConfigureFromShell | stickynotes/gui.go:580-617 | the match without the claimed check, then the ID's geometry; fields and buffers are unchanged |
| StickyNotes.StickyNote.SyncPosition | stickynotes/window_calls.go:313-368 | one note of the sync loop follows `SyncStep` |
| StickyNotes.StickyNote.MatchBySize | stickynotes/window_calls.go:335-368 | the first free fitting window, if any, gives the ID, position and size; `updated` exactly then |
| StickyNotes.StickyNote.Adopt | stickynotes/window_calls.go:358-365 | the ID, position and size are assigned |
| StickyNotes.StickyNote.SetLockedState | stickynotes/gui.go:534-549 | the lock state is set |
| StickyNotes.StickyNote.OnLockClicked | stickynotes/gui.go:530-532 | the lock state flips |
| StickyNotes.StickyNote.OnFocusOut | stickynotes/gui.go:569-572 | `UpdateNote`, then a save: buffers are unchanged, the final geometry is `Refresh` of this note followed by `Dumps`' refresh of all, and this note's saved entry carries the buffer's text and `Properties` |
| StickyNotes.StickyNote.SaveSet | stickynotes/gui.go:630 | the set is saved: each entry is `Export` of that note's old fields with its refreshed window; buffers are unchanged; this note's entry carries its buffer and `Properties` |
| StickyNotes.StickyNote.OnConfigure | stickynotes/gui.go:574-630 | the ID is `ConfigureStep`'s and the final geometry is that step's for this note followed by `Dumps`' refresh; the set is saved on every path, each entry `Export` of the old fields; buffers are unchanged; distinctness holds exactly when the ID taken was unheld |
| StickyNotes.StickyNote.SetCategory | stickynotes/gui.go:706-720 | an unknown category or the note's own changes nothing (fields, snapshots, buffers, extension) and writes nothing; otherwise the note takes it and the set is saved, with buffers unchanged and the geometry `Dumps`' refresh |
| StickyNotes.StickyNote.ChangeCategory | stickynotes/gui.go:715-719 | the note takes the category, then the set is saved: buffers are unchanged and the geometry is `Dumps`' refresh |
| StickyNotes.StickyNote.WriteCategory | stickynotes/gui.go:715 | the note's category becomes `cat`; snapshots, buffers, the note list, the extension and distinctness are unchanged |
| StickyNotes.StickyNote.OnAdd | stickynotes/gui.go:503-513 | one new note with this note's category and empty body, moved by GTK 10 pixels below this window; its GUI is fresh, built from empty properties at the reported geometry, without an ID; the snapshot list gains exactly its snapshot; handles stay distinct |
| StickyNotes.StickyNote.OnDelete | stickynotes/gui.go:515-528 | on confirmation, the note is deleted and the set saved, with the buffers, geometry and saved entries of `Note.Delete`; otherwise nothing changes: notes, fields, snapshots, buffers, extension |
| StickyNotes.NoteSet.Init | stickynotes/backend.go:144-152 | an empty set with the data path |
| StickyNotes.NoteSet.HeldByOthersAt | stickynotes/gui.go:246-252 | the IDs held by other notes are those of the other snapshots |
| StickyNotes.NoteSet.Save | stickynotes/backend.go:186-211 | every note is extracted in order, re-reading each GUI's geometry: each entry is `Export` of the note's old fields with its refreshed snapshot and buffer; buffers are unchanged; IDs keep their distinctness; the document goes to the expanded data path |
| StickyNotes.NoteSet.ExtractNext | stickynotes/backend.go:188-190 | one iteration of `Dumps` extends the exported prefix |
| StickyNotes.NoteSet.ExtractAt | stickynotes/backend.go:189 | note `i` is extracted; only its fields and snapshot change |
| StickyNotes.NoteSet.AssignWindowIds | stickynotes/backend.go:317-323 | `assignWindowID` for GUI notes without an ID, in order, following `AssignUpTo`; handles stay distinct |
| StickyNotes.NoteSet.AssignAt | stickynotes/backend.go:318-322 | one iteration of the loop |
| StickyNotes.NoteSet.UpdateNotePositionsFromWindowCalls | stickynotes/window_calls.go:284-376 | the sync follows `SyncAll`; `Save` runs exactly when a note counts as updated, each entry `Export` of the old fields; without it no field changes; buffers are unchanged; handles stay distinct |
| StickyNotes.NoteSet.ListOwnWindows | stickynotes/window_calls.go:290 | `GetCurrentProcessWindows` changes no note |
| StickyNotes.NoteSet.SyncAndSave | stickynotes/window_calls.go:304-375 | the note loop, then a save exactly when `updated`, each entry `Export` of the old fields; without it no field changes; buffers are unchanged |
| StickyNotes.NoteSet.SyncNotes | stickynotes/window_calls.go:307-370 | the note loop follows `SyncUpTo`; fields and buffers are unchanged |
| StickyNotes.NoteSet.SyncAt | stickynotes/window_calls.go:307-369 | one note of the loop; notes without a GUI are skipped |
| StickyNotes.NoteSet.RemoveNote | stickynotes/backend.go:92-97 | the first occurrence leaves the list, and the field, buffer and snapshot lists lose its entry; the other notes and their handles stay in order |
| StickyNotes.NoteSet.DropAt | stickynotes/backend.go:94 | note `i` leaves the list, and the field, buffer and snapshot lists lose entry `i`; the others keep their order and handles |
| StickyNotes.NoteSet.New | stickynotes/backend.go:296-305 | exactly one note is appended, with the fresh UUID, an empty body and `default_cat` (or "") as its category, and shown: its GUI is fresh, visible, built from empty properties at the reported geometry, without an ID; the snapshot list gains exactly that snapshot; handles stay distinct |
| StickyNotes.NoteSet.PlaceAdded | stickynotes/gui.go:504-511 | the new note takes the category and is moved by GTK; its GUI keeps its ID, visibility, text, GTK geometry and built state; no snapshot or handle changes |
| StickyNotes.NoteSet.AppendNew | stickynotes/backend.go:297-302 | the note `NewNote` makes with `default_cat` is appended without a GUI |
| StickyNotes.NoteSet.NoteOf | stickynotes/backend.go:301 | a new GUI-less note with the given fields; nothing in the set changes |
| StickyNotes.NoteSet.AppendNote | stickynotes/backend.go:302 | the note is appended last; handles stay distinct |
| StickyNotes.NoteSet.ShowAll | stickynotes/backend.go:308-313 | every note ends visible with a GUI; a note that had one keeps it, takes its text as body, re-reads its geometry as `Trace` of the old snapshots gives (the bus included), and gains a 500 ms `assignWindowID` exactly when the extension is then available and there is no ID; a note without one gets a fresh GUI built from its properties at `reported(uuid)`, without an ID, and keeps its body; the bus ends as the trace does; `all_visible` becomes true; UUIDs, properties and categories are unchanged; handles stay distinct |
| StickyNotes.NoteSet.ShowVisible | stickynotes/backend.go:308-313 | `ShowAll` from a recorded start `p` (GUIs, bodies, snapshots, callbacks and the trace): the same outcome, note by note, in `p`'s terms |
| StickyNotes.NoteSet.ShowTraced | stickynotes/backend.go:308-313 | `all_visible` becomes true and every note is shown from `p`'s start, the GUIs built being fresh |
| StickyNotes.NoteSet.SetAllVisible | stickynotes/backend.go:312 | only `all_visible` changes, to the given value; whatever `p` records of the notes, their GUIs and the bus still holds |
| StickyNotes.NoteSet.ShowEach | stickynotes/backend.go:309-311 | the loop of `ShowAll`: from `p`'s start, every note ends shown as `Shown` describes (GUI, body, geometry, callbacks, bus), with the GUIs built fresh |
| StickyNotes.NoteSet.ShowAt | stickynotes/backend.go:310 | note `i`'s turn extends the shown prefix by that note, building at most one fresh GUI |
| StickyNotes.NoteSet.ShowNote | stickynotes/backend.go:310 | `Show` of note `i`: a fresh GUI built at the reported geometry with the bus untouched, or the old GUI's geometry and bus re-read by `Refresh` and the `assignWindowID` callback queued exactly when the extension is available and there is no ID; handles stay distinct |
| StickyNotes.NoteSet.ShowFramed | stickynotes/backend.go:310 | `Show` of note `i` as above, and nothing else changes: no other note or GUI, no note's UUID or properties, no GUI's ID, text, GTK geometry, lock or opacity |
| StickyNotes.NoteSet.ShownStart | stickynotes/backend.go:309 | before the loop no note is shown yet and every note is as `p` records it |
| StickyNotes.NoteSet.ShownOne | stickynotes/backend.go:310 | one note's `Show` is one step of the trace: its snapshot is `RefreshOne` of the old one (or the built GUI's) and the bus moves to the trace's next |
| StickyNotes.NoteSet.ShownKept | stickynotes/backend.go:310 | showing note `i` leaves every other note as the loop state describes it |
| StickyNotes.NoteSet.ShownBeforeNext | stickynotes/backend.go:309-311 | the shown prefix grows by note `i` |
| StickyNotes.NoteSet.ShownEnd | stickynotes/backend.go:309-311 | after the last note, every note is shown as `ShowAll` states |
| StickyNotes.NoteSet.HideAll | stickynotes/backend.go:326-332 | `Save` first, writing the old `all_visible`, each entry `Export` of the old fields; then every GUI is hidden and `all_visible` becomes false; buffers are unchanged |
| StickyNotes.NoteSet.HideEach | stickynotes/backend.go:328-331 | every GUI is hidden; no handle, buffer or note field changes |
| StickyNotes.NoteSet.Loads | stickynotes/backend.go:155-183 | an undecodable document changes nothing; otherwise the properties and categories objects replace the set's, and a `notes` array gives one fresh GUI-less note per object |
| StickyNotes.NoteSet.MakeNotes | stickynotes/backend.go:172-179 | one fresh note per object, as `NewNote` makes it |
| StickyNotes.NoteSet.NotesOf | stickynotes/backend.go:173-178 | fresh, distinct GUI-less notes with the given fields |
| StickyNotes.NoteSet.Open | stickynotes/backend.go:214-225 | the file at the expanded path is loaded; a missing or undecodable file changes nothing |
| StickyNotes.NoteSet.IndexNotes | stickynotes/backend.go:253-258 | the `dnotes` index is `IndexFields` of the notes; each UUID's last note is filed |
| StickyNotes.NoteSet.IndexedAll | stickynotes/backend.go:253-258 | once every note is filed, the index holds each UUID's last note |
| StickyNotes.NoteSet.IndexStep | stickynotes/backend.go:255-257 | filing one note advances the loop |
| StickyNotes.NoteSet.IndexOrderStep | stickynotes/backend.go:256 | a later note with the same UUID replaces an earlier one |
| StickyNotes.NoteSet.IndexFieldsStep | stickynotes/backend.go:256 | filing note `i` extends the field index by entry `i` |
| StickyNotes.NoteSet.MergeObjects | stickynotes/backend.go:260-284 | the object loop follows `MergeFields`; filed notes are patched in place; others become fresh GUI-less notes |
| StickyNotes.NoteSet.MergeNext | stickynotes/backend.go:261-283 | one turn of the object loop |
| StickyNotes.NoteSet.MergeObject | stickynotes/backend.go:262-282 | one object follows `MergeStep` |
| StickyNotes.NoteSet.Rebuild | stickynotes/backend.go:286-289 | the list is exactly the map's values, in an unfixed order, with distinct UUIDs; handles stay distinct |
| StickyNotes.NoteSet.IndexAndMerge | stickynotes/backend.go:253-284 | the map left holds the merged fields of the index and the objects; the list and GUIs are unchanged |
| StickyNotes.NoteSet.CarriesFiled | stickynotes/backend.go:286-289 | the rebuilt notes carry the merged fields |
| StickyNotes.NoteSet.MergeNotes | stickynotes/backend.go:253-289 | every merged UUID names one note with its merged fields; old notes keep their GUIs and a UUID's last note survives; handles stay distinct |
| StickyNotes.NoteSet.MergeData | stickynotes/backend.go:242-289 | the notes merge as above, and the categories as `MergeCategories` |
| StickyNotes.NoteSet.MergeIn | stickynotes/backend.go:240-289 | `HideAll` saves and hides, then the document merges into what was saved: the saved notes are `Export` of the old fields with `Dumps`' refreshed geometry, and the notes left are the merge of those with the imported objects; `all_visible` is false; old notes keep their GUIs, new ones are fresh and GUI-less; a UUID's last note survives; handles stay distinct |
| StickyNotes.NoteSet.Merge | stickynotes/backend.go:234-293 | an undecodable document changes nothing and writes nothing; otherwise as `MergeDoc` |
| StickyNotes.NoteSet.MergeDoc | stickynotes/backend.go:240-292 | the set is saved (each entry `Export` of the old fields with the refreshed geometry) and hidden, then merged into what was saved: each merged UUID has one note with its merged properties and category; `ShowAll` then makes all visible; notes that had a window keep it and take its text over the merged body; the others get a fresh GUI and keep the merged body |
| StickyNotes.NoteSet.ShowMerged | stickynotes/backend.go:291 | `ShowAll` keeps the merged fields, except that notes with a window take its text as body; the geometry, bus and added callbacks are `ShowAll`'s, along `Trace` of the snapshots before it |
| StickyNotes.NoteSet.CarriesKept | stickynotes/backend.go:291 | the notes still carry the merged fields when the list and every note's UUID, properties and category are unchanged |
| StickyNotes.NoteSet.IsHeldByOther | stickynotes/gui.go:246-252 | true exactly when another note's GUI holds the ID |
| Settings.Entry | stickynotes/settings.go:59 | a missing category reads as an empty map |
| Settings.Put | stickynotes/settings.go:196-200 | writing one key creates the category map if missing, and changes only that key of that category |
| Settings.WithColour | stickynotes/settings.go:94-108 | a colour that is not valid is replaced by its default in the table; a valid one leaves the table |
| Settings.ColourDefaults | stickynotes/settings.go:67-151 | only the two colour keys of this category can change, and at most this category is added |
| Settings.FallbackColoursValid | stickynotes/settings.go:100 | the default colours pass the validity test and equal the fallback properties' |
| Settings.ColourDefaultsResolve | stickynotes/settings.go:67-151 | afterwards, both colours of a named category resolve to valid colours |
| Settings.ColourDefaultsIdempotent | stickynotes/settings.go:67-151 | building a category's widgets twice writes no more defaults |
| Settings.NewCategoryUntouched | stickynotes/settings.go:439-442 | a new, empty category takes the fallback colours, so nothing is written into it |
| Settings.ColourDefaultsLocal | stickynotes/settings.go:67-151 | the defaults written for a named category depend on its own entry only |
| Settings.DefaultsStep | stickynotes/settings.go:399-401 | taking the next category keeps the dialog's table invariant |
| Settings.CategoryName | stickynotes/settings.go:58-63 | the category's string `name`, or "New Category" |
| Settings.Title | stickynotes/settings.go:182-193 | the name, then " (Default Category)" exactly when `default_cat` is this category |
| Settings.FontName | stickynotes/settings.go:153-160 | the category's non-empty font string, or "Sans 12"; never empty |
| Settings.NameWritten | stickynotes/settings.go:195-200 | after the name write, the name is the entry's text |
| Settings.FontWritten | stickynotes/settings.go:320-325 | after a non-empty font write, a named category resolves to that font |
| Settings.PutKeepsName | stickynotes/settings.go:196-200 | a write of another key keeps every name |
| Settings.PutKeepsFont | stickynotes/settings.go:320-325 | a write of another key keeps every font |
| Settings.DefaultsKeepLabels | stickynotes/settings.go:67-151 | colour defaults keep every name, title and font |
| Settings.LabelsKept | stickynotes/settings.go:67-151 | labels that were right stay right after another category's defaults |
| Settings.SettingsCategory.constructor | stickynotes/settings.go:26-170 | the entry shows the name and the label the title; invalid colours are replaced by defaults; the font button shows the font |
| Settings.SettingsCategory.RefreshTitle | stickynotes/settings.go:182-193 | the label is `Title` |
| Settings.SettingsCategory.OnENameChanged | stickynotes/settings.go:195-208 | only the category's `name` key changes, to the entry's text, creating the map if missing; the label is refreshed |
| Settings.SettingsCategory.OnUpdateFont | stickynotes/settings.go:320-332 | only the category's `font` key changes, to the button's font |
| Settings.SettingsCategory.OnMakeDefault | stickynotes/settings.go:334-343 | `default_cat` becomes this category and the table is unchanged; exactly this category's title carries the suffix |
| Settings.SettingsCategory.OnDeleteCat | stickynotes/settings.go:345-355 | on confirmation, `DeleteCategory`; otherwise nothing changes |
| Settings.SettingsDialog.constructor | stickynotes/settings.go:367-415 | widgets for every category key; the keys stay; each named category carries its own colour defaults |
| Settings.SettingsDialog.AddNew | stickynotes/settings.go:399-401 | one turn of the dialog's loop keeps its invariant |
| Settings.SettingsDialog.AddCategoryWidgets | stickynotes/settings.go:417-437 | idempotent: a category with widgets changes nothing; otherwise exactly one new widget set is filed, and the table gets that category's colour defaults |
| Settings.SettingsDialog.DeleteCategory | stickynotes/settings.go:447-461 | the category leaves both maps; every other key is unchanged |
| Settings.SettingsDialog.RefreshCategoryTitles | stickynotes/settings.go:463-467 | every label is its category's `Title` |
| Settings.SettingsDialog.OnNewCategory | stickynotes/settings.go:439-445 | exactly one new, empty category under the fresh key, with widgets; the set is saved, each entry `Export` of the old fields; buffers are unchanged; the geometry is `Dumps`' refresh |
| Settings.SettingsDialog.AddEmpty | stickynotes/settings.go:441-442 | the empty category and its widgets |

## Left out

- GTK widget work is not modelled: building, showing and moving real windows, CSS loading (`LoadCSS`, `LoadGlobalCSS`), fonts (`UpdateFont`), menus (`PopulateMenu`, `onPopupMenu`), drag handlers and dialogs. A window is the fields the program reads and writes. What the toolkit reports (`gtkPos`, `gtkSize`) is set by the caller. Modal dialog answers are parameters.
- Colour conversion is floating point: `hsvToRGB`, `rgbToHex`, `rgbToHSV`, and `OnUpdateBG`/`OnUpdateTextColor`. Of `NewSettingsCategory`'s colour code, only the validity test and the defaults it writes are modelled.
- D-Bus is an oracle value (`Shell`) that is fixed during one callback. JSON decoding and encoding are abstracted: documents are `Value`s, and undecodable text is `None`. The text of error messages and log lines is not modelled.
- `windowCallsChecked` only gates a log line and is not modelled. The `note.UUID[:8]` log expressions (stickynotes/window_calls.go:331, 357) would panic on UUIDs shorter than 8 characters. They are not modelled.
- Timers are not real: each callback scheduled by `buildNote` or `Show` is a method guarded by a `pending` token.
- `IsWayland`, the process ID, the home directory, `uuid.New` and file contents are parameters. `time.Now` and `LastModified` are not modelled.
- `GetWindowPosition`, `LoadFresh` and `Dumps`' JSON text are not modelled. `Save` returns the `Write` it would perform: a path and a document value.
- Go map iteration order (`Merge`'s rebuild, `NewSettingsDialog`, `RefreshCategoryTitles`) is an arbitrary choice. Properties are stated for every order.
- A nil map stored under a category key (`Categories[k] = nil`) is not modelled. Every category entry is a map.
- Window titles take no part in any match, as in the code. A hidden window keeps its window ID: `Hide` only hides the window (stickynotes/gui.go:443-447).
- After `Merge`, `ShowAll` runs `UpdateNote` on notes that already had a window, so their merged body is replaced by the window's old text. The model states this behaviour (`StickyNotes.NoteSet.MergeDoc`) rather than correcting it.
- StickyNotes.NoteSet.MergeDoc: the geometry, bus and callbacks left by the final `ShowAll` are not restated. `ShowMerged` states them relative to the merged, hidden notes, a state this contract does not name.
- StickyNotes.NoteSet.Merge: likewise, it does not restate the geometry, bus and callbacks of the final `ShowAll` (see `MergeDoc`).
- StickyNotes.NoteSet.ShowAll: the model writes `all_visible` before it shows the notes, not after (stickynotes/backend.go:312). Showing a note neither reads nor writes the set's properties, so both orders reach the same state. Only the order of the two writes is not captured.
- A note with category "" resolves through `default_cat` at lookup time. `New` copies `default_cat` at creation. The two can differ after `OnMakeDefault`; both are modelled as written.
- `StickyNotes.StickyNote.MatchWindow`: without the claimed check (`onConfigure`), distinctness is stated as an if-and-only-if and not as always kept, because the code can break it (`Bookkeeping.TakingHeldBreaksDistinct`).
- `main.go`, `resources.go`, the base-path probing and locale constants are outside the model.
- StickyNotes.StickyNote.Build, StickyNotes.StickyNote.Show, StickyNotes.StickyNote.UpdateNote, StickyNotes.StickyNote.Properties, StickyNotes.StickyNote.OnConfigure, StickyNotes.StickyNote.OnDelete, StickyNotes.NoteSet.AssignAt: a GUI always has its window (`WinMain` non-nil). The branches for a window that failed to load are not modelled: `buildNote`'s early returns (stickynotes/gui.go:111-121), `Show` re-running `buildNote` (stickynotes/gui.go:436-438), `UpdateNote` skipping the geometry (stickynotes/gui.go:455), `Properties` using the last known values alone (stickynotes/gui.go:478), `onConfigure`'s early return (stickynotes/gui.go:575-577), `onDelete`'s guard on `Destroy` (stickynotes/gui.go:524) and the `WinMain` test of `AssignWindowIDs` (stickynotes/backend.go:319).
- Backend.Join: `filepath.Clean` (stickynotes/backend.go:208, 218) is not modelled. The path agrees with Go's only when the home directory and the rest are already clean: no trailing `/`, no `//`, no `.` or `..` elements.
- StickyNotes.StickyNote.OnFocusOut: its own contract does not restate the whole saved document. That document follows from `UpdateNote`, which changes this note's field entry to the buffer's text, and `SaveSet`, whose entries are each `Export` of the fields it was given.
- StickyNotes.StickyNote.ChangeCategory: its own contract does not restate the saved entries. They follow from `WriteCategory`, which changes only this note's category (so `NoteSet.OneNoteChanged` gives the field list), and `SaveSet`, whose entries are each `Export` of the fields it was given.
- StickyNotes.StickyNote.SetCategory: when it saves, the saved entries are those of `ChangeCategory`, and are not restated.
