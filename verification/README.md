# Verified models of the Dear ImGui core algorithms

A Dafny 4.11 model of the algorithms this repository's user interface rests on, kept beside the
sources it models. `dafny verify dfyconfig.toml` checks everything. The in-place code is modelled as
classes and methods that work in place; each is proved against functions and predicates on values,
and the laws are lemmas about those.

## The components

**Undo and redo of the text field** (`UndoModel`, `UndoLaws`, `UndoSessions`, `UndoLimits`, `UndoStore`,
`UndoSteps`, `UndoEngine`, `TextEdit`). `UndoModel` says what the two stacks mean: entries with their
characters, and a document that remembers every text a record was made from. `UndoLaws` has the laws
of single steps, `UndoSessions` those of whole editing sessions, also after an undo that has put the
redo stack out of order; `UndoLimits` has the sessions, at the real sizes, in which undo and redo stop
being inverse. `UndoStore` and `UndoSteps` are the shared record and character arrays as a value and
what each step on them means; `UndoEngine` moves and renumbers the arrays in place; `TextEdit` is the
text field, every operation of which is proved to be the step of a session. The two capacities are
parameters.

**The skyline rectangle packer** (`Skyline`, `SkylineSearch`, `PackRun`, `PackOrder`, `RectPack`).
`Skyline` is the outline as a list of points; `SkylineSearch` what the two scans of the search
compute and why that is optimal over every integer position; `PackRun` whole runs and when nodes run
out; `PackOrder` sorting and unsorting; `RectPack` the two linked lists in place.

**The draw list and its splitter** (`DrawModel`, `DrawShapes`, `DrawRun`, `DrawList`, `DrawPlay`,
`DrawSplitter`, `DrawChannels`). A command buffer and an index buffer stand for a stream of events.
`DrawModel` has the laws of that stream; `DrawShapes` the 16-bit addressing, the index patterns of
fills and strokes, and what their triangles cover; `DrawRun` is a painter that batches nothing, and
compares whole runs with it; `DrawList` and `DrawSplitter` are the classes; `DrawPlay` carries out any
run of operations and shapes on the class, and `DrawChannels` any run on a split list, and they prove
that the painter is followed.

**Ear clipping** (`Ring`, `Triangulator`), for arbitrary answers of the geometric tests, and used by
the concave fill of `DrawList`. `Clipped` is the trace of rings a polygon is cut down through.

**The decompressor and its checksum** (`Decompress`, `Adler`), **the fast arc** (`Arc`) and **the glyph
range builder** (`GlyphRanges`).

## Where the code and what is said about it differ

- The header of the packer says that by default the node count never runs out, because widths are
  quantised. The rounded width stays inside the search, the skyline is spliced with the raw width, and
  `PackRun.NodesEnoughExactly` shows that for targets of two rows and more this holds exactly when there
  are as many nodes as columns, and what holds for lower ones
  (`src/ImGui/imstb_rectpack.h:145-153`, `src/ImGui/imstb_rectpack.h:252-262`).
- When undo makes room it looks its redo record up again in another slot and fills in only the storage
  (`src/ImGui/imstb_textedit.h:1279-1289`). `UndoSteps.StoredRecord` gives the exact condition, `Intact`,
  under which that is harmless, and `UndoLimits.MakeRoomIsReached` a session after which it is not. That
  undo still restores the text and the undo side. But its redo record is out of place
  (`UndoSteps.RedoMisplaced`), so that everything said of redo asks for intact undos. And the next undos go
  by lengths that no longer add up to the array: `UndoSessions.AfterTearing` says exactly which of three ends
  the next one has. It may restore the text. Or it gives up, as in the session of `UndoLimits.UndoIsLost`
  (pastes of 998, 500, 300 and 300 characters and four undos): it takes the return marked "should never
  happen" at 1280-1282, changes no text, and neither does any later one (`UndoSessions.GivingUpIsFinal`).
  Or the move at 1180-1182 leaves the character array, as in the session of `UndoLimits.UndoLeaves` (pastes
  of 800, 300 and 800 characters and three undos), where the start of the redo characters becomes 1499. Of
  what comes after that the model says nothing. Unless the array is left, the next recorded edit puts
  everything in order again.
- When undo characters leave no room at all, undo keeps no characters for redo
  (`src/ImGui/imstb_textedit.h:1272-1274`); `UndoLaws.RedoInvertsUndo` says that redo then does not give
  the text back, and `UndoLimits.LossyIsReached` that one paste of 999 characters leads there. With that text
  missing, a later redo can lie beyond the text: after pastes of 999 and of one character, two undos and one
  redo, the next redo inserts at 999 into an empty text (`UndoLimits.RedoIsLost`).
- Overwriting several characters at once is recorded as one for one (`src/ImGui/imstb_textedit.h:749-755`);
  `UndoLaws.OverwriteUndoable` has the exact condition.
- The waste of a window that starts inside a segment on the floor can be too large, though never too
  small (`Skyline.WindowScan`); `Skyline.WasteOvercounts` shows such a window.
- Ranges built from bits that include code point 0 start with the end mark; `GlyphRanges.RangesRestore`
  has the exact condition.

## Model

| member | source | states |
|---|---|---|
| UndoSessions.UndoRestoresHistory | src/ImGui/imstb_textedit.h:1245-1311 | after any session of deletes, cuts, pastes, typing, replacements, undos and redos, k undos that restore a text give exactly the text the k-th newest record was made from, however many older records and characters have been thrown away since, and whether or not these undos and those of the session were intact, gave up or not |
| UndoSessions.UndoExactly | src/ImGui/imstb_textedit.h:1171-1311 | in every state of a session with something to undo, the numbers of the two sides decide between three ends of the undo: the text is the one before the newest record, the cursor stands behind what that record inserted, and the redo side, if it was in order and the undo is intact, is as it should be; nothing changes but the redo side; or the moves leave the character array. With a redo side in order it is the first |
| UndoSessions.AfterTearing | src/ImGui/imstb_textedit.h:1275-1293 | which end the undo after one that was not intact has, each by an exact condition: it restores the text if it has nothing to store, or what has no place below the older redo records is no characters at all, or no more than the newest one says it has and that is no more than it has; it gives up if it is more than that one says; and it leaves the array if there is some and that record says it is longer than it is |
| UndoSessions.GivingUpIsFinal | src/ImGui/imstb_textedit.h:1279-1283 | an undo that gives up gives up again whenever it is tried; text and undo records stay |
| UndoLimits.UndoIsLost | src/ImGui/imstb_textedit.h:1279-1283 | at 99 records and 999 characters, after pastes of 998, 500, 300 and 300 characters and three undos, the fourth undo takes the return for an empty redo stack; the text stays what the first paste made it, and so it does under all further undos |
| UndoLimits.UndoLeaves | src/ImGui/imstb_textedit.h:1171-1199 | at 99 records and 999 characters, after pastes of 800, 300 and 800 characters and two undos, a redo record of 300 characters says 800; to make room the third undo moves the start of the redo characters from 699 to 1499, beyond the array |
| UndoSessions.RedoAlwaysHasRoom | src/ImGui/imstb_textedit.h:1324-1347 | in every state with its redo side in order that a session reaches, what redo deletes fits between the two sides, so that its branch without room is dead; undo is applicable, and both stacks fit the two arrays |
| UndoModel.RedoAfterIs | src/ImGui/imstb_textedit.h:1253-1297 | the redo stack the code leaves is the one it should: first the way back, holding the deleted characters if there are none or they and the undo characters leave a place free, and no characters otherwise; then as many of the records to be replayed first as fit with them, and no fewer |
| UndoLaws.RedoInvertsUndo | src/ImGui/imstb_textedit.h:1245-1362 | after an intact undo redo gives the text back if and only if the undo deleted nothing or the undo characters and what it deleted are fewer than the character array holds; then undo records and history are back as well, and, unless room had to be made, the whole document but the cursor |
| UndoLaws.RedosInvertUndos | src/ImGui/imstb_textedit.h:1245-1362 | k undos, whose deleted characters each fit between the two sides and leave a place beside the undo characters, followed by k redos, give back the whole document but the cursor |
| UndoSessions.RedoAlwaysApplies | src/ImGui/imstb_textedit.h:1313-1362 | in a session in which every undo deletes nothing or leaves a place beside the undo characters, the newest redo record fits text and buffer in every state with its redo side in order |
| UndoLimits.RedoIsLost | src/ImGui/imgui_widgets.cpp:4090-4112 | with an undo that lost characters it may not: after pastes of 999 characters and of one, two undos and one redo, the text is empty and the next redo inserts at 999 |
| UndoLimits.MakeRoomIsReached | src/ImGui/imstb_textedit.h:1279-1289 | at 99 records and 999 characters, pastes of 500, 300 and 300 characters and two undos lead to a state in which the next undo makes room and is not intact |
| UndoLimits.LossyIsReached | src/ImGui/imstb_textedit.h:1272-1274 | one paste of 999 characters, and the undo of it cannot store them: redo does not give the text back |
| UndoSteps.RedoMisplaced | src/ImGui/imstb_textedit.h:1286-1293 | on the storage of that state: after the undo the text is empty, and the newest redo record belongs behind 500 characters |
| UndoSteps.TornRecord | src/ImGui/imstb_textedit.h:1279-1289 | whenever an undo is not intact, its redo record has the place and lengths of the record that was newest before |
| UndoSessions.SessionKeeps | src/ImGui/imstb_textedit.h:1142-1388 | every run of operations keeps the invariant, until one leaves the array or the text: both stacks fit, every undo record leads back to an earlier text, and every prefix of the pending redos has room; after an undo that was not intact, the undo side of it, with a record to spare |
| UndoLaws.UndoReverts | src/ImGui/imstb_textedit.h:1245-1311 | one undo, intact or not, gives the text before the newest record, and the older records still lead back from there |
| UndoLaws.UndoKeeps | src/ImGui/imstb_textedit.h:1245-1311 | an intact undo keeps the whole invariant, also when redo records are thrown away or characters are lost |
| UndoLaws.RedoKeeps | src/ImGui/imstb_textedit.h:1313-1362 | redo keeps the invariant |
| UndoLaws.RedoExactly | src/ImGui/imstb_textedit.h:1313-1362 | the document after redo, field by field: the text with the range replaced, the full inverse on the undo side, the record gone from the redo side, the cursor behind what was inserted |
| UndoLaws.OverwriteUndoable | src/ImGui/imstb_textedit.h:749-755 | overwriting writes a record that leads back to the old text if and only if exactly one character was typed |
| UndoModel.DeleteSelectionMeans | src/ImGui/imstb_textedit.h:581-617 | the part of the text that is selected goes, as far as it is inside the text and whichever way round, under one record with its characters; the cursor stays there |
| UndoModel.PasteMeans | src/ImGui/imstb_textedit.h:722-741 | the selection, or the place of the cursor, is replaced by the pasted text if there is room for that, and otherwise by nothing; the cursor stands behind it |
| UndoModel.TypeMeans | src/ImGui/imstb_textedit.h:743-765 | a newline in a single line changes nothing; overwriting replaces one character; other typing replaces the selection; what does not fit is replaced by nothing |
| UndoModel.RecordKeepsLongestFit | src/ImGui/imstb_textedit.h:1201-1243 | a new record keeps the longest run of newest old records that fits both arrays with it, and none at all if it alone is larger than the character array |
| UndoModel.TrimKeepsLongest | src/ImGui/imstb_textedit.h:1218-1220 | the make-room loop of recording drops no more old records than it must |
| UndoModel.ShrinkKeepsLongest | src/ImGui/imstb_textedit.h:1279-1285 | the make-room loop of undo drops no more redo records than it must |
| UndoModel.ReleasedEnough | src/ImGui/imstb_textedit.h:1279-1285 | whatever lengths the redo records state, the loop finds room if and only if what is needed does not lie beyond the end they add up to, and does not move that end |
| UndoModel.ReleasedLast | src/ImGui/imstb_textedit.h:1279-1285 | the make-room loop of undo gives up the newest redo record only if the others leave too little, and then by the length that record says it has |
| UndoModel.GivesUpExactly | src/ImGui/imstb_textedit.h:1279-1285 | undo gives up exactly when the room it needs lies beyond what the lengths of all redo records add up to |
| UndoModel.InverseUndoesApply | src/ImGui/imstb_textedit.h:1245-1362 | the inverse entry takes the edited text back, and its own inverse is the entry |
| UndoStore.UndoDiscardedMeans | src/ImGui/imstb_textedit.h:1149-1165 | moving characters and records down and renumbering drops the oldest entry and changes no other |
| UndoStore.RedoDiscardedMeans | src/ImGui/imstb_textedit.h:1171-1199 | moving characters and records up and renumbering drops the redo entry that would be replayed last and changes no other |
| UndoStore.RedoDiscardedFrame | src/ImGui/imstb_textedit.h:1171-1199 | discarding a redo record touches nothing below the redo side; the slot below it keeps the fields of the newest redo record |
| UndoStore.TopUndo | src/ImGui/imstb_textedit.h:1253-1259 | the characters of the newest undo record are the last of the undo side |
| UndoStore.TopRedo | src/ImGui/imstb_textedit.h:1320-1322 | the characters of the newest redo record are the first of the redo side |
| UndoSteps.StoredRecord | src/ImGui/imstb_textedit.h:1279-1289 | the record that receives the saved characters has the place and lengths of the undone one if and only if no room had to be made or the newest redo record happens to have the same |
| UndoSteps.PushedStored | src/ImGui/imstb_textedit.h:1279-1297 | after the characters are saved the redo side is as it should be if and only if the undo is intact; undo records and characters are untouched |
| UndoSteps.PushedUnstored | src/ImGui/imstb_textedit.h:1255-1274 | with no characters to store, or no room for them at all, the redo side grows by the reverse record as it stands |
| UndoSteps.PoppedMeans | src/ImGui/imstb_textedit.h:1302-1310 | undo on the storage of a redo side in order gets through; the redo side is what it should be, character by character, if and only if it is intact |
| UndoSteps.ThroughMeans | src/ImGui/imstb_textedit.h:1245-1311 | an undo that gets through with its moves inside the array, whatever the redo side is like: the undo side gives up its newest entry and keeps the others, and the lengths and the start of the redo side are known |
| UndoSteps.GivenUpMeans | src/ImGui/imstb_textedit.h:1279-1283 | one that does not: the undo side is unchanged, as long as there was a record to spare |
| UndoSteps.RedoneMeans | src/ImGui/imstb_textedit.h:1313-1362 | redo on the storage keeps the tiling and moves one entry over, with the inverse characters when there is room |
| UndoEngine.UndoState.constructor | src/ImGui/imstb_textedit.h:1390-1406 | two empty stacks that share both arrays |
| UndoEngine.UndoState.FlushRedo | src/ImGui/imstb_textedit.h:1142-1146 | the redo stack is empty; undo entries unchanged |
| UndoEngine.UndoState.DiscardUndo | src/ImGui/imstb_textedit.h:1149-1165 | the in-place moves give the state in which the oldest entry is gone |
| UndoEngine.UndoState.DiscardRedo | src/ImGui/imstb_textedit.h:1171-1199 | the in-place moves give the state in which the topmost redo entry is gone; false, and nothing moved, exactly when its length would take the redo characters beyond the array |
| UndoEngine.UndoState.CreateUndoRecord | src/ImGui/imstb_textedit.h:1201-1223 | a free slot and enough characters behind the longest run of old entries that leaves them; -1 and empty stacks when the characters can never fit |
| UndoEngine.UndoState.MakeUndoRoom | src/ImGui/imstb_textedit.h:1218-1220 | oldest entries are dropped until the characters fit; the loop ends |
| UndoEngine.UndoState.CreateUndo | src/ImGui/imstb_textedit.h:1225-1243 | a record with storage exactly if it has characters, behind the kept entries; the redo stack is empty |
| UndoEngine.UndoState.MakeUndoInsert | src/ImGui/imstb_textedit.h:1364-1367 | records an insertion |
| UndoEngine.UndoState.MakeUndoDelete | src/ImGui/imstb_textedit.h:1369-1377 | records a deletion with the characters about to be deleted |
| UndoEngine.UndoState.MakeUndoReplace | src/ImGui/imstb_textedit.h:1379-1388 | records a replacement with the characters about to be replaced |
| UndoEngine.UndoState.MakeRedoRoom | src/ImGui/imstb_textedit.h:1279-1285 | redo entries are dropped until the characters fit, or none is left, or the next move would leave the array, each reported exactly; with a redo side in order the first; the loop ends |
| UndoEngine.UndoState.PushRedo | src/ImGui/imstb_textedit.h:1253-1297 | prepares the redo record of an undo on any storage, and says which of the three ends it has |
| UndoEngine.UndoState.MoveToRedo | src/ImGui/imstb_textedit.h:1245-1311 | the storage side of undo as a whole, for any redo side, with the three ends told apart by the numbers alone; of a redo side in order the result is the way back with the right characters and the records that fit, if and only if the undo is intact |
| UndoEngine.UndoState.MoveToUndo | src/ImGui/imstb_textedit.h:1313-1362 | the storage side of redo as a whole |
| TextEdit.TextField.DeleteChars | src/ImGui/imgui_widgets.cpp:4079-4088 | the text without the range |
| TextEdit.TextField.InsertChars | src/ImGui/imgui_widgets.cpp:4090-4119 | the text with the characters inserted if there is room for them, and otherwise unchanged and false |
| TextEdit.TextField.Delete | src/ImGui/imstb_textedit.h:595-601 | records and deletes |
| TextEdit.TextField.Clamp | src/ImGui/imstb_textedit.h:581-593 | cursor and selection brought back into the text |
| TextEdit.TextField.DeleteSelection | src/ImGui/imstb_textedit.h:603-617 | deletes what is selected, whichever way round |
| TextEdit.TextField.Cut | src/ImGui/imstb_textedit.h:711-720 | deletes the selection, if any, and says so |
| TextEdit.TextField.Paste | src/ImGui/imstb_textedit.h:722-741 | replaces the selection; records the insertion only if it succeeds |
| TextEdit.TextField.TypeText | src/ImGui/imstb_textedit.h:743-765 | newline in a single line is ignored; overwriting or inserting as the mode says |
| TextEdit.TextField.ReplaceAll | src/ImGui/imgui_widgets.cpp:4146-4162 | replaces the whole text under one record; a text that does not fit leaves none |
| TextEdit.TextField.Undo | src/ImGui/imstb_textedit.h:1245-1311 | the step of a session in every state with something known of the storage, also after undos that were not intact, and also if it gives up or stops before the array is left; of a redo side in order it makes the way back with the right characters and keeps the records that fit, if and only if it is intact |
| TextEdit.TextField.TakeBack | src/ImGui/imstb_textedit.h:1253-1305 | what undo does to the storage, for any of the three ends; the entry to be carried out is the newest one |
| TextEdit.TextField.Redo | src/ImGui/imstb_textedit.h:1313-1362 | the redo step of a session: the document after it, or a stop before an entry that does not fit text or buffer |
| TextEdit.TextField.Do | src/ImGui/imstb_textedit.h:1142-1388 | every operation on the field, edit, undo or redo, is the step of a session, whichever way it ends, so that what is proved of sessions holds of the field |
| TextEdit.TextField.DoAll | src/ImGui/imstb_textedit.h:1142-1388 | a whole session carried out on the field ends in the state the model says |
| TextEdit.UndoIsLost | src/ImGui/imstb_textedit.h:1279-1283 | carried out on the field, the session of pastes of 998, 500, 300 and 300 characters and any four or more undos leaves the text of the first paste, with its undo record still there |
| PackOrder.NothingOverlaps | src/ImGui/imstb_rectpack.h:546-584 | of the rectangles flagged packed, those that take space lie inside the target and overlap neither each other nor anything packed by an earlier call on the target |
| PackRun.RunKeeps | src/ImGui/imstb_rectpack.h:449-526 | over any list of rectangles: inside, pairwise disjoint, disjoint from what was there, and everything under the skyline |
| PackRun.NodesEnoughExactly | src/ImGui/imstb_rectpack.h:245-263 | for the default quantised widths and for unquantised ones: no run ever refuses a rectangle that fits, if and only if there are at least as many nodes as columns (and then quantising changes nothing), or the target has no row, or it has one row and fewer columns than nodes and alignment together |
| PackRun.NeverStarved | src/ImGui/imstb_rectpack.h:459-462 | with as many nodes as columns a rectangle is refused only when it fits nowhere |
| PackRun.RunsDry | src/ImGui/imstb_rectpack.h:459-462 | otherwise there is a run of unit squares whose last is refused although it fits |
| SkylineSearch.BottomLeftFound | src/ImGui/imstb_rectpack.h:347-391 | the bottom-left scan over the points finds the lowest y over every integer x where the aligned width fits, and the leftmost such x; and when it is too high the rectangle fits nowhere |
| SkylineSearch.BestFitFound | src/ImGui/imstb_rectpack.h:374-446 | the two best-fit scans find the lowest y over every x, and among the left- and right-aligned candidates as low the least waste and then the leftmost; and they find nothing only when the rectangle fits nowhere |
| SkylineSearch.SearchFinds | src/ImGui/imstb_rectpack.h:347-447 | what the search promises, for either heuristic |
| Skyline.AlignedCovers | src/ImGui/imstb_rectpack.h:354-358 | the width the search uses is the least multiple of the alignment that covers the width of the rectangle |
| Skyline.BottomLeftUnique | src/ImGui/imstb_rectpack.h:375-391 | the bottom-left position is unique |
| Skyline.WindowScan | src/ImGui/imstb_rectpack.h:291-339 | the scan of a window returns the highest point in it, and as waste never less than the area below that, and exactly that area when the window starts at a point or inside a segment above the floor, or when nothing is in it |
| Skyline.WasteOvercounts | src/ImGui/imstb_rectpack.h:317-331 | a window inside a segment on the floor for which the waste is 10 and the area 5 |
| Skyline.SpliceHeights | src/ImGui/imstb_rectpack.h:464-503 | after a rectangle went in, the outline is at its upper edge over it and unchanged elsewhere, except for the rest of a segment it starts inside of |
| Skyline.SpliceKeeps | src/ImGui/imstb_rectpack.h:464-503 | the points still ascend from 0 to the width |
| Skyline.PlacingKeeps | src/ImGui/imstb_rectpack.h:449-526 | a rectangle placed on top of a window keeps everything inside, beneath the outline and apart |
| RectPack.Context.constructor | src/ImGui/imstb_rectpack.h:265-288 | an empty target: the flat skyline, all nodes of the caller free |
| RectPack.Context.SetupHeuristic | src/ImGui/imstb_rectpack.h:233-243 | changes the heuristic and nothing else |
| RectPack.Context.SetupAllowOutOfMem | src/ImGui/imstb_rectpack.h:245-263 | align is 1, or the least that makes nodes times align reach the width |
| RectPack.Context.FindMinY | src/ImGui/imstb_rectpack.h:291-339 | height and waste of a window, read off the linked list |
| RectPack.Context.FindBestPos | src/ImGui/imstb_rectpack.h:347-447 | the promised position, and the link to the node whose segment holds it |
| RectPack.Context.FreeCovered | src/ImGui/imstb_rectpack.h:491-497 | the covered nodes, and no others, move to the free list |
| RectPack.Context.InsertNode | src/ImGui/imstb_rectpack.h:464-503 | the in-place splice of the two lists: both stay proper and disjoint, no node is lost, and the active list is the spliced skyline |
| RectPack.Context.PackRectangle | src/ImGui/imstb_rectpack.h:449-526 | placed if and only if a node is free and the rectangle fits somewhere, then where the heuristic says, on a target that stays valid; otherwise nothing changes |
| RectPack.Context.PackRects | src/ImGui/imstb_rectpack.h:546-584 | ids, sizes and order of the array are kept; the rectangles went through one run of the packer, the taller before the lower and of equally tall ones the wider first; each is flagged packed exactly when it was not refused, and the result says whether all were |
| PackOrder.Sort | src/ImGui/imstb_rectpack.h:528-544 | some permutation with the taller before the lower and of equally tall ones the wider first, or by the carried positions, which is all the packer uses |
| PackOrder.TallestPacked | src/ImGui/imstb_rectpack.h:528-554 | which of two rectangles of the caller goes through the packer first, by their heights and widths |
| PackOrder.BackInPlace | src/ImGui/imstb_rectpack.h:553-573 | sorting by the carried positions is the inverse of the first sort |
| PackOrder.OutcomeHolds | src/ImGui/imstb_rectpack.h:546-584 | mark, sort, pack, unsort and flag together have the outcome promised to the caller |
| DrawRun.RunPaints | src/ImGui/imgui_draw.cpp:466-708 | after any run, primitives that give part of their reservation back included, the list shows exactly what a painter shows that batches nothing and addresses vertices directly |
| DrawPlay.Do | src/ImGui/imgui_draw.cpp:466-708 | every operation carried out on the class is such a step, and paints what the painter paints |
| DrawPlay.Play | src/ImGui/imgui_draw.cpp:466-708 | any run carried out on the class, as far as its operations are allowed, leaves the list showing what the painter has painted, ready for more |
| DrawPlay.Draw | src/ImGui/imgui_draw.cpp:764-1102 | so does every fill, stroke, concave fill and run of text quads: each is one primitive of its vertices, whose triangles cover what the shape should |
| DrawPlay.ShapeInRange | src/ImGui/imgui_draw.cpp:764-1102 | every index of any shape is of one of its vertices |
| DrawPlay.ShapeCovers | src/ImGui/imgui_draw.cpp:764-1102 | the triangles of any shape cover its strips, edges, fan, ears or quads, with no more triangles than that takes |
| DrawShapes.StrokeCovers | src/ImGui/imgui_draw.cpp:854-1012 | every strip of every segment, between neighbours across the line from one of its points to the next and round to the first, is made up by two triangles cut along a diagonal, and there are no other triangles |
| DrawShapes.SegmentCovers | src/ImGui/imgui_draw.cpp:860-998 | the same of one segment, for each of the four strokes |
| DrawShapes.FillCovers | src/ImGui/imgui_draw.cpp:1034-1097 | a fill is the fan of triangles from the first point to each two neighbouring ones, and, if anti-aliased, two triangles that make up the strip along every edge |
| DrawShapes.SplitArea | src/ImGui/imgui_draw.cpp:860-1097 | wherever the vertices are, the two triangles of a strip add up to its area, each counted in the way round it is drawn |
| DrawShapes.FanArea | src/ImGui/imgui_draw.cpp:1034-1041 | wherever the points are, the triangles of the fan add up to the area of the polygon |
| DrawList.TrianglesCover | src/ImGui/imgui_draw.cpp:2002-2007 | the triangles of a concave fill are drawn one after the other, corner by corner |
| DrawChannels.PlayChannels | src/ImGui/imgui_draw.cpp:2088-2211 | splitting, any interleaving of switches and operations, and merging: the list shows what was painted on the sheet of channel 0, then on that of channel 1, and so on |
| DrawChannels.FlattenShown | src/ImGui/imgui_draw.cpp:2129-2187 | the pictures of the merged stream are those of the channels, one after the other |
| DrawRun.StepPaints | src/ImGui/imgui_draw.cpp:466-708 | each operation does to the pictures of the list what the painter does to its canvas |
| DrawShapes.AddressingIsLossless | src/ImGui/imgui_draw.cpp:674-697 | offset plus 16-bit index name the vertices that were meant, as long as the primitive ends within reach of its offset; earlier pictures are unchanged |
| DrawShapes.NarrowIsExact | src/ImGui/imgui_draw.cpp:674-697 | a narrowed index names the vertex meant if and only if it is within 2^16 of the offset |
| DrawRun.ClipPushed | src/ImGui/imgui_draw.cpp:617-634 | the pushed rectangle is never inside out, lies in the current one if asked to and not empty, and is the given one otherwise |
| DrawRun.PushedShows | src/ImGui/imgui_draw.cpp:617-634 | what a pushed rectangle lets through is, at every point, what the given one does, and the current one too if that is asked for |
| DrawModel.LastTwoMerged | src/ImGui/imgui_draw.cpp:532-542 | two neighbouring commands under one header show the same as one |
| DrawModel.LastEmpty | src/ImGui/imgui_draw.cpp:480-489 | a command without indices can go, or change its header, without changing what is shown |
| DrawModel.LastRewritten | src/ImGui/imgui_draw.cpp:674-697 | writing reserved indices changes only their own events |
| DrawModel.SwitchedStaysCompact | src/ImGui/imgui_draw.cpp:546-588 | changing the header leaves no two neighbouring commands that could be one |
| DrawModel.OffsetStaysCompact | src/ImGui/imgui_draw.cpp:590-604 | nor does moving the vertex offset forward |
| DrawList.DrawList.constructor | src/ImGui/imgui_draw.cpp:414-438 | a fresh list: one empty command, nothing drawn |
| DrawList.DrawList.AddDrawCmd | src/ImGui/imgui_draw.cpp:466-476 | a new empty command under the current header, which is a proper rectangle |
| DrawList.DrawList.PopUnusedDrawCmd | src/ImGui/imgui_draw.cpp:480-489 | every unused command at the end is gone, and nothing that shows |
| DrawList.DrawList.AddCallback | src/ImGui/imgui_draw.cpp:491-523 | the callback comes after everything drawn before, and drawing can go on |
| DrawList.DrawList.TryMergeDrawCmds | src/ImGui/imgui_draw.cpp:532-542 | shows the same; shorter if and only if the last two commands could be one |
| DrawList.DrawList.OnChangedClipRect | src/ImGui/imgui_draw.cpp:546-566 | ready under the new header, the same stream, still compact, and the exact commands |
| DrawList.DrawList.OnChangedTextureID | src/ImGui/imgui_draw.cpp:568-588 | the same for the texture |
| DrawList.DrawList.OnChangedVtxOffset | src/ImGui/imgui_draw.cpp:590-604 | the same for the vertex offset, and the running index starts again |
| DrawList.DrawList.PushClipRect | src/ImGui/imgui_draw.cpp:617-634 | what is drawn next is drawn under the pushed rectangle; what was drawn stays |
| DrawList.DrawList.PopClipRect | src/ImGui/imgui_draw.cpp:641-646 | back to the rectangle below, or the full screen |
| DrawList.DrawList.PushTextureID | src/ImGui/imgui_draw.cpp:648-653 | what is drawn next has the pushed texture |
| DrawList.DrawList.PopTextureID | src/ImGui/imgui_draw.cpp:655-660 | back to the texture below, or none |
| DrawList.DrawList.SetTextureID | src/ImGui/imgui_draw.cpp:663-669 | changes the texture without the stack |
| DrawList.DrawList.PrimReserve | src/ImGui/imgui_draw.cpp:674-697 | room at the end of the stream under the current header; the offset moves exactly when the vertices could not all be reached |
| DrawList.DrawList.PrimUnreserve | src/ImGui/imgui_draw.cpp:700-708 | exactly the last indices and vertices are given back |
| DrawList.DrawList.GiveBack | src/ImGui/imgui_draw.cpp:671-708 | a reservation filled in part, whose rest is given back, is the primitive of what was written |
| DrawList.DrawList.AddPrimitive | src/ImGui/imgui.h:3227-3233 | any vertices in any order, written one by one into a reservation that may be larger, are drawn under the current header |
| DrawList.DrawList.RenderQuads | src/ImGui/imgui_draw.cpp:4176-4306 | text: room for the worst case is reserved, the quads seen are drawn, and the rest is given back |
| DrawList.DrawList.AddPolyline | src/ImGui/imgui_draw.cpp:764-1018 | each of the four strokes fills its reservation exactly and draws every segment between the vertices of its two points, back to the first if closed |
| DrawList.DrawList.AddConvexPolyFilled | src/ImGui/imgui_draw.cpp:1022-1102 | fan and fringe fill their reservation exactly and are drawn under the current header |
| DrawList.DrawList.AddConcavePolyFilled | src/ImGui/imgui_draw.cpp:1978-2066 | a triangulation as clipping gives it, and the fringe, fill their reservation exactly |
| DrawShapes.StrokeInRange | src/ImGui/imgui_draw.cpp:854-998 | every index of a stroke is of one of its vertices |
| DrawShapes.FillInRange | src/ImGui/imgui_draw.cpp:1034-1097 | every index of a fill is of one of its vertices |
| DrawList.TrianglesInRange | src/ImGui/imgui_draw.cpp:2002-2007 | every index of a concave fill is of one of its vertices |
| DrawModel.JoinedMeans | src/ImGui/imgui_draw.cpp:2129-2163 | joining the commands of a channel, with the first merged into the last if they match and all offsets rebuilt, shows the one stream and then the other, without a gap in the indices |
| DrawSplitter.Splitter.Split | src/ImGui/imgui_draw.cpp:2088-2116 | the first channel goes on where the list is, the others are empty |
| DrawSplitter.Splitter.SetCurrentChannel | src/ImGui/imgui_draw.cpp:2189-2211 | no stream changes; the list is ready on the channel asked for |
| DrawSplitter.Splitter.OnlyCurrentDrawn | src/ImGui/imgui_draw.cpp:2189-2211 | drawing while split extends the stream of the current channel only |
| DrawSplitter.Splitter.Merge | src/ImGui/imgui_draw.cpp:2118-2187 | the list shows the stream of channel 0, then of channel 1, and so on, on one tiled index buffer, and is ready for drawing |
| Triangulator.Triangulate | src/ImGui/imgui_draw.cpp:1821-1908 | whatever the geometric tests answer: n - 2 triangles of three different corners, n - 2 different corners cut off, signed areas that add up to that of the polygon, and every triangle turns the right way but those taken when even the ring turned round has no ear |
| Triangulator.ClippedTurn | src/ImGui/imgui_draw.cpp:1873-1908 | along the rings a polygon is cut down through, every triangle that was not forced passes the test for the right turn |
| Ring.UnlinkedLinks | src/ImGui/imgui_draw.cpp:1783-1783 | unlinking leaves a ring of the others in their old order |
| Ring.CornerArea | src/ImGui/imgui_draw.cpp:1894-1904 | cutting off a corner takes away exactly the triangle of the corner and its neighbours |
| Ring.AreaReversed | src/ImGui/imgui_draw.cpp:1910-1930 | turning the ring round negates the area |
| Triangulator.CutAccounted | src/ImGui/imgui_draw.cpp:1873-1908 | what has been cut off and what is left still make up the polygon, and no corner is cut off twice |
| Triangulator.CornerGone | src/ImGui/imgui_draw.cpp:1896-1905 | when a corner goes, the listed ears still turn the right way between the neighbours they have, but for the two beside it |
| Triangulator.SpanFits | src/ImGui/imgui_draw.cpp:1786-1793 | a span of different nodes never outgrows its storage |
| Triangulator.FlipStep | src/ImGui/imgui_draw.cpp:1917-1928 | one more node linked the other way |
| Triangulator.Triangulator.constructor | src/ImGui/imgui_draw.cpp:1821-1831 | a ring of all points; the spans hold its reflex corners and its ears, the last point apart |
| Triangulator.Triangulator.BuildNodes | src/ImGui/imgui_draw.cpp:1833-1845 | the nodes are linked round in order |
| Triangulator.Triangulator.BuildReflexes | src/ImGui/imgui_draw.cpp:1847-1857 | reflex exactly where the corner turns the wrong way, for all nodes but the one before the first, and the span holds those in their order; it stays within its storage |
| Triangulator.Triangulator.BuildEars | src/ImGui/imgui_draw.cpp:1859-1871 | ears exactly the corners that turn the right way and pass the test, for the same nodes, and the span holds those in their order |
| Triangulator.Triangulator.IsEar | src/ImGui/imgui_draw.cpp:1933-1944 | no reflex node other than the corners is inside |
| Triangulator.Triangulator.ReclassifyNode | src/ImGui/imgui_draw.cpp:1946-1971 | the kind the tests give, on the span of that kind and no other; no other node moves |
| Triangulator.Triangulator.Clip | src/ImGui/imgui_draw.cpp:1892-1907 | the corner is gone and both its neighbours have the kind that the tests give between the neighbours they have now; every ear left turns the right way |
| Triangulator.Triangulator.TurnRound | src/ImGui/imgui_draw.cpp:1875-1883 | the ring the other way round, with kinds and spans as if built afresh |
| Triangulator.Triangulator.FlipNodeList | src/ImGui/imgui_draw.cpp:1910-1930 | the ring the other way round, in place |
| Triangulator.Triangulator.GetNextTriangle | src/ImGui/imgui_draw.cpp:1873-1908 | the last ear with its two neighbours, which turns the right way; with no ear left, the last ear of the ring turned round and looked at afresh, and only if that has none either its first corner |
| Decompress.AcceptedExactly | src/ImGui/imgui_draw.cpp:4603-4633 | accepted if and only if memory holds, byte by byte, the signature, the length, the encoding of a list of tokens and the end mark with the two sums of the checksum; and then the output is what the list means |
| Decompress.DecompressLength | src/ImGui/imgui_draw.cpp:4524-4527 | the four bytes at 8 are those of the length, the highest first |
| Decompress.FourIs | src/ImGui/imgui_draw.cpp:4551-4553 | a number is read off four bytes exactly if they are its bytes, the highest first |
| Decompress.EndsIs | src/ImGui/imgui_draw.cpp:4617-4624 | the test at the end succeeds exactly if memory holds the end mark, the second sum and the first |
| Decompress.UnpackEncoded | src/ImGui/imgui_draw.cpp:4603-4633 | unpacking the encoding of tokens gives their meaning |
| Decompress.UnpackedWasEncoded | src/ImGui/imgui_draw.cpp:4603-4633 | whatever is accepted is the encoding of some list of tokens that means the output |
| Decompress.EncodingIsReading | src/ImGui/imgui_draw.cpp:4555-4570 | each of the nine opcode forms is read back as the token that was written |
| Decompress.ReadingIsEncoding | src/ImGui/imgui_draw.cpp:4555-4570 | whatever is read as a token is the encoding of it, of the size skipped |
| Decompress.CopyMatch | src/ImGui/imgui_draw.cpp:4533-4540 | the overlapping copy, byte by byte; out of reach or too long ends beyond the output |
| Decompress.CopyLiteral | src/ImGui/imgui_draw.cpp:4542-4549 | the literal, or beyond the output if it is too long |
| Decompress.DecompressToken | src/ImGui/imgui_draw.cpp:4555-4570 | one token in place |
| Decompress.Decompress | src/ImGui/imgui_draw.cpp:4603-4633 | of a stream of tokens the output in place, of any other memory 0; ends for whatever memory holds |
| Adler.Adler32 | src/ImGui/imgui_draw.cpp:4572-4601 | the checksum of section 8.2 of RFC 1950, for every seed and length: the low half is the seed and the sum of the bytes, the high half counts every byte once for itself and each byte behind it, modulo 65521; the seed itself for no bytes; ends although the first block may be empty |
| Adler.ChecksumIs | src/ImGui/imgui_draw.cpp:4572-4601 | the two sums kept byte by byte in one formula over all bytes |
| Adler.DeferredIsChecked | src/ImGui/imgui_draw.cpp:4581-4597 | putting the remainders off changes nothing |
| Adler.BlockFits | src/ImGui/imgui_draw.cpp:4576-4597 | over a block of 5552 bytes neither sum reaches 2^32, whatever the seed |
| Adler.LongerBlockWraps | src/ImGui/imgui_draw.cpp:4576-4597 | for one byte more there are a seed and bytes that take the second sum to 2^32 |
| Arc.PathArcToFastEx | src/ImGui/imgui_draw.cpp:1112-1193 | as many samples as reserved, from the first to the last sample, each at its place in the table; all gaps are full steps but the first and the last, which differ by at most one |
| Arc.StepSizeIs | src/ImGui/imgui_draw.cpp:1112-1117 | a given step is kept up to a quarter circle; the automatic one is the largest with which the circle has at least the automatic number of segments, from one sample up to a quarter circle |
| Arc.GapsShare | src/ImGui/imgui_draw.cpp:1130-1139 | what is left over is shared between the first gap and the last |
| Arc.LoopCount | src/ImGui/imgui_draw.cpp:1120-1139 | the loop emits one sample more than there are whole steps, and reaches the end exactly when the range is a multiple of the step |
| Arc.Emit | src/ImGui/imgui_draw.cpp:1144-1180 | the loop in either direction keeps the table index in range and congruent to the sample |
| GlyphRanges.GlyphRangesBuilder.BuildRanges | src/ImGui/imgui_draw.cpp:3671-3683 | ascending, separate, maximal ranges that cover exactly the bits set |
| GlyphRanges.GlyphRangesBuilder.AddRanges | src/ImGui/imgui_draw.cpp:3664-3669 | exactly the bits of the ranges before the end mark are set in addition |
| GlyphRanges.GlyphRangesBuilder.SetBit | src/ImGui/imgui.h:3335-3335 | one bit set and no other changed |
| GlyphRanges.GlyphRangesBuilder.GetBit | src/ImGui/imgui.h:3334-3334 | the bit |
| GlyphRanges.RangesRestore | src/ImGui/imgui_draw.cpp:3664-3683 | the ranges read back cover the bits if and only if code point 0 is not among them |
| GlyphRanges.Copy | src/ImGui/imgui_draw.cpp:3664-3683 | a cleared builder given the ranges of another has the same bits if and only if code point 0 is not among them |

## Left out

- PrimRect, PrimRectUV, PrimQuadUV, images and Bezier curves: further shapes of the kinds modelled; they would only add members.
- RenderQuads: which glyphs are seen, and where, is layout and is not part of this model.
- Vertex positions, normals, texture coordinates and colours: the geometry is floating point; vertices are values handed to the shapes, and the fringe and stroke vertices are taken as given.
- Clip rectangles are over real numbers: NaN, signed zero and the bitwise comparison of floats are not modelled.
- AddCallback: the user data is an opaque value; copying it into the callback buffer is not modelled.
- PrimReserve: the contents of reserved memory are left open by the contract; the model fills them with zeros. The running index is unbounded, so its wrap at 2^32 is not modelled.
- Merge: the storage that channels keep for reuse, and the aliasing of the current channel with the list, are modelled as values.
- OnChangedVtxOffset: keeping the commands compact is stated for an offset that really moves, as it does for primitives of fewer than 2^16 vertices.
- WindowScan: how much too much is counted for a window that starts inside a segment on the floor is not stated.
- FindMinY: coordinates and waste are unbounded; 32-bit overflow of the waste is not modelled.
- constructor: the packer needs a target at least one column wide, because the default alignment of an empty one is 0 and is divided by, and lower than 2^30, which the search uses as infinity.
- PackRects: negative widths and heights are excluded, as no caller has them.
- Sort: an insertion sort stands for the sort of the C library; only its contract is used.
- UndoRestoresHistory: sessions contain no redo between an undo that was not intact and the next recorded edit while redo records are left, and overwriting goes by single characters, as above.
- UndoLeaves: what memory holds once the character array has been left, or a redo beyond the text has been carried out, is not modelled: sessions end there, and the in-place methods stop before that move.
- RedoAlwaysApplies: sessions in which no undo lost characters; with one that did, redo applies as long as its record fits the text, and which do is not foretold.
- RedoInvertsUndo: of an undo that is not intact only the misplaced record is stated, not what replaying it would do.
- InsertChars: growing the buffer, the zero terminator and the capacity in bytes are modelled as a limit on the length, or none.
- Clamp: the selection after undo is not maintained by the code and nothing is claimed of it; cursor movement, layout, mouse and the preferred column are not modelled.
- GetNextTriangle: nothing is claimed of triangles being disjoint; the tests themselves are not part of this model. That no reflex node is inside an ear is known as of when its corner was looked at, against the reflex nodes of that time.
- Decompress: memory beyond the stream is whatever it is; assertions are off, so that streams that break the rules return 0. Pointer overflow is not modelled.
- PathArcToFastEx: gives places in the sample table; multiplying by the radius, the single point of a tiny radius and the choice of the automatic step are not modelled.
- SetBit: a word is its sequence of 32 bits; shifting and masking are indexing.
- AddText of the glyph builder: decoding UTF-8 is not part of this model.
- Database access, the application's own windows, the platform backends, font rasterising and the rest of the library: not modelled.
