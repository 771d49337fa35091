# Velum core, modelled in Dafny

This project models the deterministic core of `velum_core`, the Rust engine of the Velum word processor, and proves properties of the model. It covers six groups of the engine:

- **Text buffer and editing.** The piece table, command-based undo/redo, and line/column mapping and find in the document API.
- **Input and selection.** Plain-text find, the drag-selection state machine, IME composition and candidate paging, the clipboard with its bounded history, and the keyboard shortcut map.
- **Formatters.** Roman, letter, star and Chinese numbering; XML, HTML and PDF escaping; footnote numbering; header and footer choice per page; field-code parsing; the table-of-contents builder; and style inheritance.
- **Layout bookkeeping.** Table grid placement with spans, pagination, the line-spacing and indent formulas, kinsoku (line-start and line-end punctuation) rules, and the layout and render API lookups.
- **OOXML.** The part and relationship vocabulary, the XML fragments of the serializer with their package relationships and content types, and the converter from a Word document to a piece table.
- **Images and small managers.** Image format sniffing and header dimension decoding, the image cache's size accounting, PDF export bookkeeping with its bookmark tree, and the task tracker.

Conventions:
- Every entity is an immutable datatype, and every operation is a function, or a method where the source loops.
- Rust `Option`/`Result` become `Wrappers.Option`/`Wrappers.Result`.
- `f32`/`f64` quantities are `real`.
- Byte offsets are indices into `string` values taken to be ASCII, except where a module counts UTF-8 bytes explicitly (`TextUtil.Utf8Len`).
- HashMap iteration order becomes a set or an unordered map.
- Clocks become parameters: `now`, or a `withinWindow` flag for the undo merge window.

Shared modules:
- `Wrappers` holds `Option`/`Result`.
- `TextUtil` holds the string helpers the modules share: digits, splitting, trimming, character removal and XML escaping.

Font sizes:
- The converter treats a run's `font_size` as half-points and divides by two when it builds a piece-table run.
- The serializer writes `w:sz` as twice `font_size`, so it treats the same field as points.
- Each module follows its own source file here.

## Model

| member | source | states |
|---|---|---|
| PieceTree.New | velum_core/src/piece_tree.rs:21-32 | a new tree is valid, its text is the content, and its added buffer is empty |
| PieceTree.Insert | velum_core/src/piece_tree.rs:34-83 | insertion keeps the pieces inside their buffers, leaves the original buffer alone, grows the added buffer by exactly the text, and splices the text in at the offset (appending past the end) |
| PieceTree.GetText | velum_core/src/piece_tree.rs:85-95 | the text is as long as the piece lengths add up to |
| PieceTree.SplitKeepsText | velum_core/src/piece_tree.rs:61-75 | cutting a piece at an interior point gives two pieces inside the buffer that spell the same bytes |
| PieceTree.ConcatGrowAdded | velum_core/src/piece_tree.rs:35-37 | appending to the added buffer does not change what the existing pieces spell |
| PieceTree.Place | velum_core/src/piece_tree.rs:44-82 | the search loop places the new piece, adding one piece or two when it splits one |
| PieceTree.PlaceText | velum_core/src/piece_tree.rs:44-82 | the placed pieces spell the old text with the new piece's bytes spliced in at the offset |
| PieceTree.InsertExampleMiddle | velum_core/src/piece_tree.rs:103-107 | inserting "Beautiful " at 6 of "Hello World" gives "Hello Beautiful World" |
| PieceTree.InsertExampleFrontAndEnd | velum_core/src/piece_tree.rs:110-116 | inserting "Rust", then "I love " at 0, then "!" at 11 gives "I love Rust!" |
| UndoRedo.DocInsert | velum_core/src/undo_redo.rs:157-160 | the document insert the insert command relies on, an assumed operation: it succeeds iff the offset is at most the length, and then places the text between the two halves |
| UndoRedo.DocInsertIsPieceTreeInsert | velum_core/src/piece_tree.rs:34-83 | where the assumed insert succeeds on a piece table's text, it gives the text of the piece table's own insert |
| UndoRedo.DocDelete | velum_core/src/undo_redo.rs:255-258 | the document delete the delete command relies on, an assumed operation: it succeeds iff the range fits, and joins the text before and after it |
| UndoRedo.Execute | velum_core/src/undo_redo.rs:156-171 | an insert succeeds iff its offset fits and records the inserted text; a delete succeeds iff its range fits and records exactly the removed bytes; a composite changes nothing; failures are execution failures |
| UndoRedo.Undo | velum_core/src/undo_redo.rs:173-179 | undoing a composite, or a delete without recorded text, leaves the document as it is |
| UndoRedo.Redo | velum_core/src/undo_redo.rs:181-189 | redoing a composite, or an insert without recorded text, leaves the document as it is |
| UndoRedo.Merge | velum_core/src/undo_redo.rs:191-212 | as written, two commands merge iff both are inserts and the second continues right after the first's text or is non-empty at the same offset; the merge is an insert at the first offset whose text is the first text followed by the second, so it is as long as both; deletes and composites never merge |
| UndoRedo.InsertsCompose | velum_core/src/undo_redo.rs:157-160 | inserting a text and then another right after it is inserting the two texts joined |
| UndoRedo.InsertsStack | velum_core/src/undo_redo.rs:157-160 | inserting a text and then another at the same offset is inserting the second text followed by the first |
| UndoRedo.MergeComposes | velum_core/src/undo_redo.rs:191-199 | when the second insert continues right after the first, executing the merged command does what the two inserts did in turn |
| UndoRedo.MergeSameOffsetReorders | velum_core/src/undo_redo.rs:200-207 | as written, "a" then "b" at offset 0 leave "ba", but the merged command is "ab" at 0, so redoing it after an undo writes "ab" |
| UndoRedo.MergeFixed | velum_core/src/undo_redo.rs:191-212 | the corrected merge merges exactly the same pairs, into an insert at the first offset as long as both texts |
| UndoRedo.MergeFixedComposes | velum_core/src/undo_redo.rs:191-212 | with the corrected merge, executing the merged command always does what the two inserts did in turn, at the same offset as well as adjacent |
| UndoRedo.InsertUndoRedo | velum_core/src/undo_redo.rs:156-189 | executing an insert and undoing it gives back the document, and redoing gives the edited text again |
| UndoRedo.DeleteUndoRedo | velum_core/src/undo_redo.rs:254-288 | executing a delete removes the range, undoing it reinserts the removed bytes at the same offset, and redoing removes them again |
| UndoRedo.NewManager | velum_core/src/undo_redo.rs:404-412 | a new manager has empty stacks, no last-command time and the default bounds |
| UndoRedo.SetMaxHistorySize | velum_core/src/undo_redo.rs:424-429 | the bound is stored and the undo stack keeps only its newest records up to the bound; nothing else changes |
| UndoRedo.Push | velum_core/src/undo_redo.rs:465-475 | the record goes on top, the oldest record is evicted when the stack is full, and the stack never grows beyond a positive bound |
| UndoRedo.ExecuteAsWritten | velum_core/src/undo_redo.rs:435-463 | a failed command changes nothing; a successful one empties the redo stack |
| UndoRedo.ExecuteManagerCorrected | velum_core/src/undo_redo.rs:435-463 | the corrected manager: a failed command changes nothing; a successful one yields the command's document, empties the redo stack, records the time, and keeps the undo stack within the bound; a merge uses the corrected merge and does not execute again |
| UndoRedo.UndoManager | velum_core/src/undo_redo.rs:477-485 | undo with nothing to undo is an invalid-state error that changes nothing; otherwise the top record leaves the undo stack and goes onto the redo stack when undoing it succeeds |
| UndoRedo.RedoManager | velum_core/src/undo_redo.rs:487-495 | the mirror image of undo |
| UndoRedo.Clear | velum_core/src/undo_redo.rs:521-525 | both stacks are empty and the last-command time is forgotten; the bounds stay |
| UndoRedo.UndoThenRedoInsert | velum_core/src/undo_redo.rs:477-495 | after an insert, undo restores the document and redo restores the edit and the stacks |
| UndoRedo.MergedTypingUndoesTogether | velum_core/src/undo_redo.rs:435-463 | with the corrected merge, two adjacent inserts typed within the merge window give the combined text, and one undo removes both |
| UndoRedo.MergeExecutesTwice | velum_core/src/undo_redo.rs:446-452 | as written, typing "a" then "b" within the merge window leaves "abab", and one undo leaves "ab" |
| DocumentApi.GetTextRange | velum_core/src/api_layer/document_api.rs:92-99 | the range is returned iff `start <= end <= len`, and it is exactly the bytes between the text before and after it |
| DocumentApi.Stats | velum_core/src/api_layer/document_api.rs:105-112 | characters equal the length, words are the whitespace-separated runs (never more than characters), and lines are counted by newlines |
| DocumentApi.Insert | velum_core/src/api_layer/document_api.rs:114-118 | insertion always succeeds and splices the text into the piece tree |
| DocumentApi.Delete | velum_core/src/api_layer/document_api.rs:120-124 | with `start <= end`, exactly `end - start` bytes go at `start` when the range fits, and the text is unchanged otherwise |
| DocumentApi.CursorPositionOf | velum_core/src/api_layer/document_api.rs:126-154 | the position is None iff the offset is past the end; otherwise the line is one more than the newlines before the offset and the column counts from the last newline |
| DocumentApi.PositionDeterminesOffset | velum_core/src/api_layer/document_api.rs:126-154 | two offsets with the same line and column are equal |
| DocumentApi.OffsetFromPosition | velum_core/src/api_layer/document_api.rs:156-176 | the result is the one offset whose line and column are those asked for, and None when no character sits there |
| DocumentApi.FirstAtOrAfter | velum_core/src/api_layer/document_api.rs:178-203 | the first result starting at or after the cursor, or None when every result starts before it |
| DocumentApi.FindNext | velum_core/src/api_layer/document_api.rs:178-203 | None iff there is no result; when some result starts at or after the cursor, it is the first such result, every earlier one starting before the cursor; otherwise the search wraps to the first result |
| DocumentApi.FindPrevious | velum_core/src/api_layer/document_api.rs:205-220 | the last result starting before the cursor, and None iff every result starts at or after it |
| DocumentApi.FindAll | velum_core/src/api_layer/document_api.rs:222-233 | every result in order, as a position and a length that ends where the match ends |
| Find.DefaultOptions | velum_core/src/find.rs:32-44 | the default options have empty query and replacement, wrap around, and nothing else set |
| Find.FromResults | velum_core/src/find.rs:98-105 | a result set keeps the results, counts them, and has no current match |
| Find.Current | velum_core/src/find.rs:113-115 | the current match is `results[i]` iff the current index is some `i` below the count |
| Find.SetCurrent | velum_core/src/find.rs:108-110 | only the current index changes |
| Find.WordBoundaryExamples | velum_core/src/find.rs:532-538 | 0 and 5 are boundaries of "hello", 2 is not, and 5 is one of "hello world" |
| Find.EscapeRoundTrip | velum_core/src/find.rs:144-156 | removing one backslash before each escaped character gives the query back |
| Find.EscapedSpecialsArePreceded | velum_core/src/find.rs:144-156 | every special character of the query appears in the escaped pattern right after a backslash |
| Find.FindFirst | velum_core/src/find.rs:227-229 | `find` from an offset returns an occurrence at or after it |
| Find.FindFirstIsFirst | velum_core/src/find.rs:227-229 | there is no earlier occurrence at or after the offset, and None means there is none at all |
| Find.FindLast | velum_core/src/find.rs:199-200 | `rfind` below an end returns an occurrence that ends by it |
| Find.FindLastIsLast | velum_core/src/find.rs:199-200 | no later occurrence ends by the end, and None means none does |
| Find.SearchForward | velum_core/src/find.rs:225-249 | a forward hit is an occurrence in the case-folded text whose matched text is the original bytes, on a word boundary when whole words are asked for, and at or after `from` without wrapping |
| Find.SearchBackwardFrom | velum_core/src/find.rs:186-222 | a backward hit ends at or before the search end, and is an occurrence with its bytes, on a word boundary when asked |
| Find.SearchBackwardFromIsLast | velum_core/src/find.rs:186-222 | the backward hit is the last eligible occurrence, and None means there is no eligible occurrence |
| Find.SearchBackward | velum_core/src/find.rs:186-224 | without wrapping a backward hit lies entirely before `from`; from 0 there is none |
| Find.SimpleSearch | velum_core/src/find.rs:159-170 | an empty query or text finds nothing; a hit spans exactly the query's length and carries those bytes |
| Find.Search | velum_core/src/find.rs:346-377 | the non-regex search is the simple search with the options' flags |
| Find.ForwardFindsFirst | velum_core/src/find.rs:225-243 | a case-sensitive forward search finds something iff an occurrence exists at or after `from`, and then it finds the first one |
| Find.ForwardWrapsToFirst | velum_core/src/find.rs:244-246 | without whole words, when no occurrence lies at or after `from > 0`, the wrapping search returns the first occurrence from 0 (a whole-word search loses its wrap-around on a rejected hit; see "## Findings") |
| Find.SearchForwardIsFirst | velum_core/src/find.rs:225-249 | without wrap-around, under any case folding and with or without whole words, a forward hit is the first eligible occurrence at or after `from`, and finding nothing means no occurrence at or after `from` is eligible |
| Find.WholeWordRetryDropsWrap | velum_core/src/find.rs:236-238 | as written, a wrapping whole-word search for "b" in "b ab" from 1 rejects the "b" at 3, retries without wrap-around and finds nothing, although a whole-word "b" sits at 0 |
| Find.SearchForwardCorrected | velum_core/src/find.rs:225-249 | the corrected forward search, whose whole-word retry keeps the caller's wrap-around: a hit spans the query, carries its bytes, is an eligible occurrence, and lies at or after `from` without wrap-around |
| Find.SearchForwardCorrectedAgreesNoWrap | velum_core/src/find.rs:225-249 | without wrap-around the corrected and the as-written forward searches give the same result |
| Find.SearchForwardCorrectedAgrees | velum_core/src/find.rs:225-249 | the two forward searches differ only for a search that both wraps and asks for whole words |
| Find.SearchForwardCorrectedIsFirst | velum_core/src/find.rs:225-249 | the corrected wrapping search finds nothing exactly when no occurrence is eligible; otherwise it finds the first eligible occurrence at or after `from`, or, when there is none there, the first eligible occurrence of the text |
| Find.WholeWordRetryWrapsCorrected | velum_core/src/find.rs:225-249 | corrected, the wrapping whole-word search for "b" in "b ab" from 1 finds the "b" at 0 |
| Find.FindAllInText | velum_core/src/find.rs:379-401 | with the search not wrapping, the results are ordered, non-overlapping matches (on a word boundary when whole words are asked for), counted, with no current match; every occurrence eligible anywhere in the text lies inside a reported match, so each match is collected exactly once; an empty query or text, or a backward search, finds none |
| Find.BackwardStepAsWritten | velum_core/src/find.rs:198-211 | a pass of the backward loop that rejects a hit restarts below the end |
| Find.BackwardLoopRepeats | velum_core/src/find.rs:198-211 | as written, after a rejected whole-word hit the next pass finds the same hit again, so the loop never ends |
| Find.BackwardWholeWordExample | velum_core/src/find.rs:198-211 | searching backward for a whole "b" in "ab" restarts at 0 and repeats for ever |
| Find.BackwardWholeWordExampleFixed | velum_core/src/find.rs:186-224 | the corrected backward search for a whole "b" in "ab" ends with nothing found |
| Find.FindAllStepAsWritten | velum_core/src/find.rs:387-398 | a pass of the find-all loop stops only when the search finds nothing |
| Find.FindAllWithWrapNeverStops | velum_core/src/find.rs:387-398 | as written, with wrapping on and one match in the text, every pass finds a match, so the loop never ends |
| Find.FindAllDefaultExample | velum_core/src/find.rs:387-398 | with the default options, finding "a" in "a" from position 1 wraps back to the match at 0 |
| DragSelection.Reset | velum_core/src/drag_selection.rs:246-260 | a reset state is idle, not dragging, with an empty selection, well formed, and keeps its drag target |
| DragSelection.StartDrag | velum_core/src/drag_selection.rs:263-292 | from any state, a drag starts at the position as anchor with an empty selection there, in the requested mode and phase Started, keeping the extra ranges and the scroll direction; the selection tracks anchor and current position, and a non-scrolling state gives a consistent one |
| DragSelection.UpdateSelectionRange | velum_core/src/drag_selection.rs:317-335 | only the selection bounds change, and they track anchor and current position (ordered unless in column mode) |
| DragSelection.UpdatePosition | velum_core/src/drag_selection.rs:295-303 | outside a drag nothing changes; during one, from any state, the current position moves, the anchor, mode and extra ranges stay, the phase is Dragging, the selection tracks anchor and current position and nothing scrolls; a consistent state stays consistent |
| DragSelection.UpdateDragDistance | velum_core/src/drag_selection.rs:306-314 | outside a drag nothing changes; during one the distances are the pointer's displacement |
| DragSelection.EndDrag | velum_core/src/drag_selection.rs:347-356 | ending a drag stops it, marks it Ended, stops scrolling and keeps the selection |
| DragSelection.CancelDrag | velum_core/src/drag_selection.rs:359-364 | cancelling always stops dragging, marks Cancelled, stops scrolling and keeps the selection |
| DragSelection.SetMode | velum_core/src/drag_selection.rs:367-369 | the mode is set and the state stays well formed |
| DragSelection.ToggleColumnMode | velum_core/src/drag_selection.rs:372-375 | column mode flips, the phase agrees with it, and the selection is kept |
| DragSelection.SetExtend | velum_core/src/drag_selection.rs:378-381 | the extend flag is set in the state and its phase |
| DragSelection.AddSelectionRange | velum_core/src/drag_selection.rs:384-386 | the range is appended to the extra ranges |
| DragSelection.ClearSelectionRanges | velum_core/src/drag_selection.rs:389-391 | the extra ranges are emptied |
| DragSelection.SelectionLength | velum_core/src/drag_selection.rs:412-414 | the saturating length is positive iff the end is past the start, and then it is their distance |
| DragSelection.DetermineSelectionMode | velum_core/src/drag_selection.rs:424-441 | Alt gives column mode; else the margin gives line mode; else a double click selects words, a triple click lines, anything else characters |
| DragSelection.DragSelectsBetween | velum_core/src/drag_selection.rs:263-356 | from any state, a press, move and release ends the drag with phase Ended and no scrolling, selects from the smaller to the larger of the two offsets, and there is a selection iff they differ or extra ranges exist |
| DragSelection.CancelKeepsSelection | velum_core/src/drag_selection.rs:359-375 | a cancelled column drag keeps the anchor-to-current selection, unordered |
| DragSelection.StepKeepsConsistent | velum_core/src/drag_selection.rs:246-391 | every drag event keeps a consistent state consistent: the bounds are anchor and current in some order, a dragging phase is Started or Dragging, and nothing scrolls |
| DragSelection.RunKeepsConsistent | velum_core/src/drag_selection.rs:246-391 | any sequence of drag events keeps a consistent state consistent |
| DragSelection.ToggleMidDragBreaksTracks | velum_core/src/drag_selection.rs:372-375 | toggling column mode in the middle of a drag keeps the bounds, which no longer follow anchor and current as the new mode reads them, until the next move restores that |
| DragSelection.ScanWordStart | velum_core/src/drag_selection.rs:548-554 | the backward scan stops at the nearest word start at or below its index, or reaches 0 |
| DragSelection.SkipSeparators | velum_core/src/drag_selection.rs:580-582 | the scan passes exactly the run of separators from its start |
| DragSelection.SkipWord | velum_core/src/drag_selection.rs:585-587 | the scan passes exactly the run of word characters from its start |
| DragSelection.FindWordStart | velum_core/src/drag_selection.rs:536-565 | the result is 0 or a word start, and no word start lies between it and the offset |
| DragSelection.FindWordEnd | velum_core/src/drag_selection.rs:568-590 | the result is at or after the clamped offset and is the text end or a separator right after a word character |
| DragSelection.GetWordAt | velum_core/src/drag_selection.rs:593-606 | empty text has no word; a result is a non-empty range within the text, and exists iff start is below end |
| DragSelection.SeparatorsOnlySelectAll | velum_core/src/drag_selection.rs:593-606 | as written, a text of separators only selects the whole text as its "word" |
| DragSelection.WhitespaceOnlyExample | velum_core/src/drag_selection.rs:593-606 | as written, the word at 0 in two spaces is the range 0 to 2 |
| DragSelection.GetWordAtFixed | velum_core/src/drag_selection.rs:593-606 | a word found contains a word character and agrees with the as-written result |
| DragSelection.NoWordInSeparatorsFixed | velum_core/src/drag_selection.rs:593-606 | the corrected lookup finds no word in a text of separators only |
| DragSelection.WordAtInsideWord | velum_core/src/drag_selection.rs:593-606 | inside a maximal run of word characters, the word at the offset is exactly that run |
| DragSelection.GetLineRange | velum_core/src/drag_selection.rs:613-637 | a line exists iff the text is non-empty and has at least that many newlines; it then runs from the line's start to its newline or the text end, after exactly n newlines |
| DragSelection.GetLineNumber | velum_core/src/drag_selection.rs:640-649 | the line number is the count of newlines before the offset |
| DragSelection.GetLineStart | velum_core/src/drag_selection.rs:652-654 | the start of the line's range, when it exists |
| DragSelection.GetLineEnd | velum_core/src/drag_selection.rs:657-659 | the end of the line's range, when it exists |
| DragSelection.LineOfOffsetHoldsIt | velum_core/src/drag_selection.rs:613-649 | the line numbered for an offset exists and contains that offset, starting at its line start |
| DragSelection.OnPointerDown | velum_core/src/drag_selection.rs:713-721 | from any handler, a press starts a drag as StartDrag does, never a column drag, keeping the configuration |
| DragSelection.OnAltKeyPressed | velum_core/src/drag_selection.rs:739-743 | Alt flips column mode iff the configuration allows it, and otherwise changes nothing |
| DragSelection.GetSelectionRanges | velum_core/src/drag_selection.rs:751-759 | the primary range, when non-empty, comes first before the extra ranges; the list is non-empty iff there is a selection |
| DragSelection.GetPrimarySelection | velum_core/src/drag_selection.rs:762-768 | the primary selection exists iff it is non-empty, and then it is the state's bounds |
| DragSelection.ExpandToWord | velum_core/src/drag_selection.rs:771-775 | the expanded range is non-empty iff a word is found there, and then it is that word |
| DragSelection.ExpandToLine | velum_core/src/drag_selection.rs:778-780 | a missing line expands to the whole text |
| DragSelection.ExpandToDocument | velum_core/src/drag_selection.rs:783-785 | the range starts at 0 and ends at the largest usize, past any text |
| DragSelection.ScrollDelta | velum_core/src/drag_selection.rs:793-805 | each direction gives a unit step per axis, and only None gives no step |
| DragSelection.ScrollDeltaInjective | velum_core/src/drag_selection.rs:793-805 | different directions give different steps |
| DragSelection.ReachableNeverScrolls | velum_core/src/drag_selection.rs:246-421 | every state reached from a new one by any sequence of drag events never needs auto-scroll and scrolls by nothing, since the direction is always computed as None |
| DragSelection.ScanLines | velum_core/src/drag_selection.rs:621-636 | the scan finds line n iff the text has at least n newlines, and returns that line's bounds |
| Ime.Reset | velum_core/src/ime.rs:33-37 | a reset ends composition, clears the text and its range, and keeps the selection |
| Ime.StartComposition | velum_core/src/ime.rs:40-45 | composition starts with empty text, and both ranges collapse at the position |
| Ime.UpdateComposition | velum_core/src/ime.rs:48-55 | the composing range keeps its start and spans the text's UTF-8 byte length; the caret sits cursor bytes after the start |
| Ime.CompositionLength | velum_core/src/ime.rs:58-60 | the byte length is between one and four bytes per character |
| Ime.StartThenUpdateCoversText | velum_core/src/ime.rs:40-60 | starting at a position and updating with a text covers exactly its bytes from there, with the caret at the end |
| Ime.NewCommit | velum_core/src/ime.rs:76-83 | a commit records the text, the position and its byte length, which is the character count for ASCII text |
| Ime.PageCountFits | velum_core/src/ime.rs:264 | the page count is the least number of pages that holds all candidates, and 0 only for none |
| Ime.SetCandidates | velum_core/src/ime.rs:262-267 | new candidates reset to the first page with no selection, and the page count is the ceiling of count over page size |
| Ime.CurrentPageCandidates | velum_core/src/ime.rs:270-274 | the page lists at most a page of consecutive candidates from the page start, and is non-empty when candidates exist |
| Ime.SelectedCandidate | velum_core/src/ime.rs:277-279 | a candidate is selected iff the index is set and in range, and it is the candidate at that index |
| Ime.SelectNext | velum_core/src/ime.rs:282-298 | the first step selects the page start, later steps the next index, never past the page end; the selection stays on the page |
| Ime.SelectPrevAsWritten | velum_core/src/ime.rs:301-309 | as written, stepping back succeeds iff an index above 0 is selected, even when that leaves the current page |
| Ime.SelectPrev | velum_core/src/ime.rs:301-309 | the corrected step back succeeds iff the selection is above the page start, so it stays on the page |
| Ime.SelectPrevLeavesPage | velum_core/src/ime.rs:301-309 | with three candidates, pages of two, on page 2 with "c" selected, the as-written step back selects "b" on page 1 while page 2 is shown, and the local index then underflows: a debug build panics and a release build reports 2^64 - 1 |
| Ime.SelectPrevStaysOnPage | velum_core/src/ime.rs:301-309 | in the same situation the corrected step back refuses and keeps "c" |
| Ime.NextPage | velum_core/src/ime.rs:312-319 | turning forward succeeds iff a later page exists, and then clears the selection |
| Ime.PrevPage | velum_core/src/ime.rs:322-329 | turning back succeeds iff the page is not the first, and then clears the selection |
| Ime.Clear | velum_core/src/ime.rs:352-357 | clearing leaves no candidates, no pages and no selection, with the same configuration |
| Ime.SelectByIndex | velum_core/src/ime.rs:360-367 | selection succeeds iff the index is in range, and then shows the page that holds it |
| Ime.IndexOnItsPage | velum_core/src/ime.rs:360-367 | an index lies on the page numbered by its quotient, and that page exists |
| Ime.LocalSelectedIndexAsWritten | velum_core/src/ime.rs:370-376 | as written, the local index is the global index minus the page start in `usize`: exact when the selection is at or after the page start; below it the subtraction underflows (a debug build panics) and the release value wraps modulo 2^64 |
| Ime.LocalSelectedIndex | velum_core/src/ime.rs:370-376 | when the selection is on the page, the local index is below the page size |
| Ime.CompositionStartOp | velum_core/src/ime.rs:511-520 | a disabled handler ignores the start; an enabled one starts composition, clears the candidates and reports the start |
| Ime.CompositionUpdateOp | velum_core/src/ime.rs:523-537 | an update has effect iff the handler is enabled and composing, and then reports the pre-edit text with the caret at its end |
| Ime.CompositionEndOp | velum_core/src/ime.rs:540-555 | an enabled handler resets composition; it commits iff the text is non-empty, at the start of the composing range |
| Ime.CompositionCancel | velum_core/src/ime.rs:558-561 | cancelling resets composition and clears the candidates |
| Ime.CommitOp | velum_core/src/ime.rs:564-571 | a direct commit happens iff the handler is enabled and the text non-empty, with its position and byte length |
| Ime.AddCandidate | velum_core/src/ime.rs:595-603 | the candidate is appended with its index set to its place, and the window stays valid |
| Ime.PageCountGrows | velum_core/src/ime.rs:600-602 | adding a candidate never lowers the page count |
| Ime.Navigate | velum_core/src/ime.rs:616-623 | as written, navigation dispatches to the window's steps, with `select_prev` as written: it keeps the window valid, changes nothing but the window, keeps the selection on the page for every direction except Prev, steps back iff an index above 0 is selected, and turns pages iff the page exists |
| Ime.NavigateCorrected | velum_core/src/ime.rs:616-623 | with the step back kept on the page, every direction keeps the handler valid; it agrees with the as-written navigation except on Prev, which succeeds iff the selection is above the page start |
| Ime.NavigatePrevLeavesPage | velum_core/src/ime.rs:616-623 | on page 2 of a, b, c, two per page, with c selected, navigating back as written succeeds, selects b and leaves the handler invalid, while the corrected navigation refuses and keeps it valid |
| Ime.ComposeAndCommit | velum_core/src/ime.rs:511-555 | start, update and end with a non-empty text report the start, the pre-edit text and a commit at the start position |
| Ime.InsertComposingTextAt | velum_core/src/ime.rs:692-698 | the offset after insertion is the position plus the committed UTF-8 byte length of the text: the character count for ASCII text, and between one and four bytes per character |
| Ime.InsertComposingTextEndsComposition | velum_core/src/ime.rs:40-60 | that offset is where the composing range ends after starting at the position and updating with the text |
| Clipboard.Clear | velum_core/src/clipboard.rs:170-172 | clearing empties the content and keeps the history |
| Clipboard.SetContent | velum_core/src/clipboard.rs:270-275 | the content is recorded and the history becomes the newest `max_history` entries of the old history plus the content |
| Clipboard.SetText | velum_core/src/clipboard.rs:175-178 | after setting text, the text is readable back and the content is plain text |
| Clipboard.SetRichText | velum_core/src/clipboard.rs:181-188 | after setting rich text, both the plain and the HTML form read back and the content is rich text |
| Clipboard.SetWordFragment | velum_core/src/clipboard.rs:191-198 | after setting a Word fragment, the plain text and the fragment read back and the content is Word |
| Clipboard.SetImage | velum_core/src/clipboard.rs:201-204 | after setting an image it reads back, there is no text, and the content is an image |
| Clipboard.GetText | velum_core/src/clipboard.rs:212-221 | text is available iff the content is plain text or mixed |
| Clipboard.GetRichText | velum_core/src/clipboard.rs:224-230 | HTML is available iff the content is rich text or mixed with HTML |
| Clipboard.GetWordFragment | velum_core/src/clipboard.rs:233-239 | a fragment is available iff the content is a fragment or mixed with one |
| Clipboard.GetImage | velum_core/src/clipboard.rs:242-247 | an image is available iff the content is an image |
| Clipboard.DetectContentType | velum_core/src/clipboard.rs:250-267 | the type is Unknown iff the clipboard is empty |
| Clipboard.DetectedTypeIsAvailable | velum_core/src/clipboard.rs:212-267 | the detected type can always be read back by its getter, and the image type exactly when an image is there |
| Clipboard.GetHistory | velum_core/src/clipboard.rs:278-280 | an entry exists iff the index is below the history size, and it is that entry |
| Clipboard.SetTextsHistory | velum_core/src/clipboard.rs:270-275 | after a run of copies the history is the newest entries of everything copied, bounded by `max_history` |
| Clipboard.HistoryDropsOldest | velum_core/src/clipboard.rs:270-275 | eleven copies into a new clipboard keep exactly the last ten |
| Clipboard.ResolveEntity | velum_core/src/clipboard.rs:514-527 | the nine named entities resolve to one character; anything else is kept as written |
| Clipboard.PlainTextSurvivesStrip | velum_core/src/clipboard.rs:483-511 | text without `&`, `<` or `>` passes through tag stripping unchanged |
| Clipboard.TagVanishes | velum_core/src/clipboard.rs:501-507 | a whole tag contributes nothing to the stripped text |
| Clipboard.StripEntity | velum_core/src/clipboard.rs:490-500 | an entity up to its `;` is replaced by its resolution |
| Clipboard.EscapedHasNoMarkup | velum_core/src/clipboard.rs:530-536 | escaped text contains no `<`, `>`, `"` or `'` |
| Clipboard.EscapeXmlIsPerChar | velum_core/src/clipboard.rs:530-536 | the chain of replacements equals escaping each character on its own (the `&` pass runs first, so nothing is escaped twice) |
| Clipboard.EscapeThenStrip | velum_core/src/clipboard.rs:483-536 | stripping tags from escaped text gives the text back |
| Clipboard.HtmlBodyIsPerChar | velum_core/src/clipboard.rs:569-573 | the HTML body replacements equal escaping each character on its own, with newlines as `<br/>` |
| Clipboard.StripHtmlBody | velum_core/src/clipboard.rs:483-573 | stripping the HTML body of a text gives the text without its newlines |
| Clipboard.TextToHtml | velum_core/src/clipboard.rs:568-587 | the page is the fixed HTML head, the escaped body, and the fixed tail |
| Keyboard.AnyIffSomeModifier | velum_core/src/keyboard.rs:123-125 | a modifier set counts as "any" iff it is not the empty set |
| Keyboard.NewShortcut | velum_core/src/keyboard.rs:145-154 | a new shortcut keeps key, modifiers, command and name, in the default category, marked default |
| Keyboard.ShortcutText | velum_core/src/keyboard.rs:157-176 | the text ends with the key's name, starts with "Ctrl+" when Ctrl or Meta is held, and is just the key's name without modifiers |
| Keyboard.ShortcutTextExample | velum_core/src/keyboard.rs:157-176 | Ctrl+Shift+S reads "Ctrl+Shift+S" and a bare Home reads "Home" |
| Keyboard.DefaultPlatform | velum_core/src/keyboard.rs:468-481 | the platform uses Cmd only on macOS, and Escape cancels and native shortcuts are on |
| Keyboard.Register | velum_core/src/keyboard.rs:380-383 | after registering, the key combination yields the command and the command yields the shortcut |
| Keyboard.RegisterChangesNothingElse | velum_core/src/keyboard.rs:380-383 | every other combination and command keeps its binding |
| Keyboard.GetCommand | velum_core/src/keyboard.rs:386-388 | a command is found iff the combination is bound, and it is the bound command |
| Keyboard.GetShortcut | velum_core/src/keyboard.rs:391-393 | a shortcut is found iff the command is bound, and it is the bound shortcut |
| Keyboard.HandleKeyEvent | velum_core/src/keyboard.rs:396-398 | handling a key event is looking up its combination |
| Keyboard.LastRegistrationWins | velum_core/src/keyboard.rs:380-383 | after registering a list, a combination maps to the command of its last registration |
| Keyboard.LastShortcutWins | velum_core/src/keyboard.rs:380-383 | after registering a list, a command maps to its last registered shortcut |
| Keyboard.OtherCombosKeepCommand | velum_core/src/keyboard.rs:380-383 | combinations the list does not bind keep their old command |
| Keyboard.OtherCommandsKeepShortcut | velum_core/src/keyboard.rs:380-383 | commands the list does not name keep their old shortcut |
| Keyboard.NewMap | velum_core/src/keyboard.rs:366-377 | a new map has the default platform settings |
| Keyboard.DefaultSave | velum_core/src/keyboard.rs:405 | Ctrl+S saves in the default map |
| Keyboard.DefaultSaveAs | velum_core/src/keyboard.rs:406 | Ctrl+Shift+S is Save As in the default map |
| Keyboard.DefaultLineStart | velum_core/src/keyboard.rs:434 | Home moves to the line start in the default map |
| Keyboard.DefaultDocumentStart | velum_core/src/keyboard.rs:436 | Ctrl+Home moves to the document start in the default map |
| Keyboard.DefaultSelectAllCtrl | velum_core/src/keyboard.rs:415 | Ctrl+A still selects all in the default map |
| Keyboard.DefaultSelectAllCtrlShift | velum_core/src/keyboard.rs:440 | Ctrl+Shift+A selects all too, and being registered last it is the shortcut shown for Select All |
| Keyboard.ShortcutsByCategory | velum_core/src/keyboard.rs:449-454 | the listed shortcuts are exactly the registered ones in that category |
| Keyboard.AllShortcuts | velum_core/src/keyboard.rs:444-446 | the listed shortcuts are exactly the registered ones |
| Keyboard.DefaultsAreDefaultCategory | velum_core/src/keyboard.rs:401-454 | in the default map the default category holds every shortcut |
| Numbering.RomanUpperIsStandard | velum_core/src/footnote_endnote.rs:923-952 | the greedy walk over the value table writes each decimal digit as its standard Roman group: thousands as M's, then hundreds, tens and ones |
| Numbering.RomanExamples | velum_core/src/footnote_endnote.rs:923-952 | 1, 4, 9 and 100 read I, IV, IX and C |
| Numbering.RomanExampleLargest | velum_core/src/footnote_endnote.rs:923-952 | 3999 reads MMMCMXCIX |
| Numbering.RomanLowerExamples | velum_core/src/footnote_endnote.rs:954-957 | 1, 4 and 9 read i, iv and ix |
| Numbering.RomanLowerUpcases | velum_core/src/footnote_endnote.rs:954-957 | the lower-case numeral is the upper-case one in lower case, letter for letter |
| Numbering.LetterRoundTrip | velum_core/src/footnote_endnote.rs:959-979 | the letter numbering of n is an upper-case word that reads back, in bijective base 26, as n |
| Numbering.LetterWordRoundTrip | velum_core/src/footnote_endnote.rs:959-979 | every non-empty upper-case word is the letter numbering of exactly its value, so the numbering is a bijection |
| Numbering.LetterExamples | velum_core/src/footnote_endnote.rs:959-979 | 0, 1, 26 and 27 read "", A, Z and AA |
| Numbering.LetterExamplesSecondRound | velum_core/src/footnote_endnote.rs:959-979 | 52 and 53 read AZ and BA |
| Numbering.LetterLowerExamples | velum_core/src/footnote_endnote.rs:981-984 | 1, 26 and 27 read a, z and aa |
| FootnoteEndnote.StarsFirstNine | velum_core/src/footnote_endnote.rs:1038-1042 | numbers 1 to 9 give that many asterisks |
| FootnoteEndnote.StarsCycle | velum_core/src/footnote_endnote.rs:1038-1042 | the star marker repeats with period 9 |
| FootnoteEndnote.StarsExamples | velum_core/src/footnote_endnote.rs:1038-1042 | 1, 3, 9 and 10 give one, three, nine and one asterisks |
| FootnoteEndnote.ChineseHasCleanEnds | velum_core/src/footnote_endnote.rs:986-1036 | below 10000 the numeral neither starts nor ends with a zero sign |
| FootnoteEndnote.ChineseTeensAsWritten | velum_core/src/footnote_endnote.rs:986-1036 | as written, 10 reads 一十 and 11 reads 一十一 |
| FootnoteEndnote.ChineseNumeralTeens | velum_core/src/footnote_endnote.rs:986-1036 | in the corrected numeral, 10 to 19 start with a bare 十 |
| FootnoteEndnote.ChineseNumeralExamples | velum_core/src/footnote_endnote.rs:986-1036 | 1, 10, 11, 20 and 21 read 一, 十, 十一, 二十 and 二十一 |
| FootnoteEndnote.ChineseNumeralHundreds | velum_core/src/footnote_endnote.rs:986-1036 | 100 and 123 read 一百 and 一百二十三 |
| FootnoteEndnote.ChineseNumeralInnerZero | velum_core/src/footnote_endnote.rs:986-1036 | 105 reads 一百零五, with one zero sign for the missing tens |
| FootnoteEndnote.ChineseNumeralInnerZeros | velum_core/src/footnote_endnote.rs:986-1036 | 1005 reads 一千零五, with the two missing places collapsed into one zero sign |
| FootnoteEndnote.Format | velum_core/src/footnote_endnote.rs:111-121 | the Arabic marker is digits reading back as the number, the Roman marker is the standard numeral, the letter marker is an upper-case word reading back as the number, and the Chinese marker, as written, is 零 for 0 and otherwise neither starts nor ends with a zero sign |
| FootnoteEndnote.NewNote | velum_core/src/footnote_endnote.rs:228-248 | a new note has no custom marker, starts at 1 and carries the marker in its reference |
| FootnoteEndnote.CustomMarkerWins | velum_core/src/footnote_endnote.rs:262-270 | a custom marker is always what is displayed |
| FootnoteEndnote.DisplayOfNewNotes | velum_core/src/footnote_endnote.rs:228-330 | a new footnote shows "1", a new endnote "i", and a note with a custom marker shows that marker |
| FootnoteEndnote.SortByOffset | velum_core/src/footnote_endnote.rs:764-766 | sorting the references by offset is a permutation of them |
| FootnoteEndnote.SortByOffsetSorted | velum_core/src/footnote_endnote.rs:764-766 | the sorted references are ordered by character offset |
| FootnoteEndnote.SortOfSortedIsIdentity | velum_core/src/footnote_endnote.rs:764-766 | a list already ordered by offset is returned unchanged |
| FootnoteEndnote.WithoutIdMembers | velum_core/src/footnote_endnote.rs:721 | dropping the references of an id keeps exactly the references of other ids |
| FootnoteEndnote.CalculateNumberOfFreshId | velum_core/src/footnote_endnote.rs:732-743 | for an id not yet referenced, the number is the start plus the count of numbered references before it, i.e. all of them |
| FootnoteEndnote.Renumber | velum_core/src/footnote_endnote.rs:760-797 | renumbering rewrites only the notes: the references, the next id and the set of note ids stay as they were |
| FootnoteEndnote.RenumberKeepsValid | velum_core/src/footnote_endnote.rs:760-777 | renumbering keeps the note list well formed |
| FootnoteEndnote.RenumberNumbersInOffsetOrder | velum_core/src/footnote_endnote.rs:760-777 | after renumbering, the i-th reference in offset order has the start number plus the count of numbered references before it, and the matching marker |
| FootnoteEndnote.RenumberSkipsCrossReferences | velum_core/src/footnote_endnote.rs:770 | a note referenced only by cross references keeps its number and marker |
| FootnoteEndnote.InsertNumbered | velum_core/src/footnote_endnote.rs:548-566 | an insert takes the next id, adds its note, and appends a reference whose marker is the formatted number counted before renumbering |
| FootnoteEndnote.InsertNumberedGrows | velum_core/src/footnote_endnote.rs:548-566 | the insert keeps the list well formed, uses a fresh id and adds exactly one note |
| FootnoteEndnote.InsertNumberedContent | velum_core/src/footnote_endnote.rs:548-566 | the new note has the content, the format and the configured placement |
| FootnoteEndnote.InsertNumberedFirstMarker | velum_core/src/footnote_endnote.rs:552-556 | the marker given to the new reference is the start plus the count of numbered references, formatted |
| FootnoteEndnote.InsertWithMarkerShows | velum_core/src/footnote_endnote.rs:569-586 | a note inserted with its own marker is added under a fresh id and displays that marker |
| FootnoteEndnote.CrossReferencePointsAtTarget | velum_core/src/footnote_endnote.rs:608-632 | a cross reference is a new empty note marked as a cross reference to the target, showing the target's marker |
| FootnoteEndnote.Delete | velum_core/src/footnote_endnote.rs:720-723 | deletion reports whether the note existed, removes it, and removes every reference to it |
| FootnoteEndnote.DeleteKeepsValid | velum_core/src/footnote_endnote.rs:720-723 | deletion keeps the list well formed and removes one note iff it existed |
| FootnoteEndnote.UpdateContent | velum_core/src/footnote_endnote.rs:700-708 | an update succeeds iff the note exists, changes only its content, and leaves every other note alone |
| FootnoteEndnote.NewManager | velum_core/src/footnote_endnote.rs:516-546 | a new manager has no notes and ids start at 1 |
| FootnoteEndnote.InsertNote | velum_core/src/footnote_endnote.rs:548-606 | inserting a footnote or an endnote returns that list's next id, advances the next id by one, and leaves the other list as it was |
| FootnoteEndnote.InsertNoteGrows | velum_core/src/footnote_endnote.rs:548-606 | inserting a footnote or an endnote adds one note to that list only and keeps the manager well formed |
| FootnoteEndnote.FirstFootnote | velum_core/src/footnote_endnote.rs:548-566 | the first footnote of a default manager has id 1 and marker "1" |
| FootnoteEndnote.FirstEndnote | velum_core/src/footnote_endnote.rs:588-606 | the first endnote of a default manager has id 1 and marker "i" |
| FootnoteEndnote.DeleteNote | velum_core/src/footnote_endnote.rs:720-729 | deleting from one list reports whether the note existed and leaves the other list alone |
| FootnoteEndnote.ClearNotes | velum_core/src/footnote_endnote.rs:894-906 | clearing one list empties it and restarts its ids at 1, leaving the other list alone |
| FootnoteEndnote.ClearAll | velum_core/src/footnote_endnote.rs:908-912 | clearing everything empties both lists and keeps the configuration |
| FootnoteEndnote.SetFormat | velum_core/src/footnote_endnote.rs:800-810 | setting a list's format changes only that format and renumbers that list |
| FootnoteEndnote.SetStart | velum_core/src/footnote_endnote.rs:812-822 | setting a list's start number changes only that number and renumbers that list |
| FootnoteEndnote.SetStartNumbersFirst | velum_core/src/footnote_endnote.rs:812-822 | after setting the start, the first numbered note in offset order carries that start number |
| FootnoteEndnote.EscapeXml | velum_core/src/footnote_endnote.rs:1121-1134 | the escaped text is the per-character escape and holds no `<`, `>`, `"` or `'` |
| HeaderFooter.LetterUpperPage | velum_core/src/header_footer.rs:632-644 | the page letter is a non-empty upper-case word |
| HeaderFooter.LetterUpperPageReadsBack | velum_core/src/header_footer.rs:632-644 | from 1 on it agrees with the shared letter numbering and reads back as n; page 0 saturates to "A" |
| HeaderFooter.LetterUpperPageExamples | velum_core/src/header_footer.rs:632-644 | 0, 1, 26, 27 and 28 read A, A, Z, AA and AB |
| HeaderFooter.LetterUpperPageLaterExamples | velum_core/src/header_footer.rs:632-644 | 52 and 53 read AZ and BA |
| HeaderFooter.TrimTrailingZeros | velum_core/src/header_footer.rs:687-689 | trimming keeps a prefix that does not end in the zero sign |
| HeaderFooter.ChinesePageAsWrittenDigits | velum_core/src/header_footer.rs:652-692 | 0 and 3 read 零 and 三 |
| HeaderFooter.ChinesePageAsWrittenRoundTens | velum_core/src/header_footer.rs:652-692 | 20 reads 二十, correct because there is only one non-zero digit |
| HeaderFooter.ChinesePageAsWrittenHundred | velum_core/src/header_footer.rs:652-692 | 100 reads 一百 |
| HeaderFooter.ChinesePageAsWrittenReversed | velum_core/src/header_footer.rs:652-692 | as written, 21 reads 一二十: the loop appends the low digit first, so the places come out reversed |
| HeaderFooter.ChinesePageAsWrittenTeens | velum_core/src/header_footer.rs:652-692 | as written, 10 reads 一十 and 11 reads 一一十 |
| HeaderFooter.ChinesePageExamples | velum_core/src/header_footer.rs:652-692 | the corrected numeral reads 0, 1, 10, 11, 20, 21 and 100 as 零, 一, 十, 十一, 二十, 二十一 and 一百 |
| HeaderFooter.ChinesePageMyriads | velum_core/src/header_footer.rs:667-674 | the corrected numeral writes 10000 and 100000 with 万 |
| HeaderFooter.FormatNumber | velum_core/src/header_footer.rs:52-61 | the Arabic page number is digits reading back as n, upper-case Roman is the standard numeral and lower-case Roman upcases to it, the letter page is an upper-case word reading back as n (page 0 as A), and the Chinese page number, as written low digit first, is 零 for 0 |
| HeaderFooter.RomanLowerReadsBack | velum_core/src/header_footer.rs:56 | the lower-case Roman page number upcases to the standard numeral |
| HeaderFooter.DisplayNumber | velum_core/src/header_footer.rs:73-75 | in a debug build there is no number exactly when the `u32` sum of page index and start number overflows or falls below the section's start page; otherwise the number plus the section's start page is the page index plus the start number |
| HeaderFooter.DisplayNumberWrapping | velum_core/src/header_footer.rs:73-75 | in a release build the number is exact when nothing overflows, and 2^32 more than the negative difference when the subtraction underflows |
| HeaderFooter.DisplayNumberBuildsAgree | velum_core/src/header_footer.rs:73-75 | wherever the debug build gives a number, the release build gives the same one |
| HeaderFooter.DisplayNumberCounts | velum_core/src/header_footer.rs:73-75 | the section's first page shows the start number and each later page one more, while nothing overflows |
| HeaderFooter.DisplayNumberUnderflowExample | velum_core/src/header_footer.rs:1028-1038 | the source's test call `get_display_number(3, 5)` with start 1 underflows: no number in a debug build and 2^32 - 1 in a release build; page 0 of a section starting at 1 shows 0 |
| HeaderFooter.FormattedNumber | velum_core/src/header_footer.rs:78-81 | there is no formatted number exactly when the display number's `u32` arithmetic panics; otherwise in Arabic its digits read back as the display number, and in upper-case Roman it is that number's standard numeral |
| HeaderFooter.FormattedNumberExample | velum_core/src/header_footer.rs:78-81 | pages 3 and 4 from 1 in Roman read III and IV; page 0 in Arabic reads 0; page 3 of a section starting at 5 has no number |
| HeaderFooter.RomanUpperSwitchAsWritten | velum_core/src/header_footer.rs:144-149 | as written, "PAGE \* RomanUpper" gives lower-case Roman, since only "UPPER" in capitals is looked for |
| HeaderFooter.ArabicSwitchAsWritten | velum_core/src/header_footer.rs:140-162 | "PAGE \* Arabic" gives Arabic numbers |
| HeaderFooter.PageFormat | velum_core/src/header_footer.rs:144-160 | the corrected switch picks upper-case Roman iff "Roman" is named in upper case, and upper-case letters iff "Letter" (without "Roman") is |
| HeaderFooter.PageFormatAgrees | velum_core/src/header_footer.rs:144-160 | the corrected switch agrees with the code whenever "Upper" is absent or "UPPER" is present |
| HeaderFooter.RomanUpperSwitch | velum_core/src/header_footer.rs:144-149 | the corrected switch reads "PAGE \* RomanUpper" as upper-case Roman |
| HeaderFooter.RomanLowerSwitch | velum_core/src/header_footer.rs:144-149 | "PAGE \* Roman" stays lower-case Roman |
| HeaderFooter.LetterUpperSwitch | velum_core/src/header_footer.rs:150-155 | the corrected switch reads "PAGE \* LetterUpper" as upper-case letters |
| HeaderFooter.LetterUpperSearches | velum_core/src/header_footer.rs:144-155 | `PAGE \* LetterUpper` names "Letter" and not "Roman", so the letter branch decides its format |
| HeaderFooter.Unquoted | velum_core/src/header_footer.rs:177-182 | a style or property name has its quotes removed |
| HeaderFooter.DateFormatAsWrittenKeepsBackslash | velum_core/src/header_footer.rs:163-174 | as written, `DATE \@ "picture"` keeps the backslash: the format is "\ " followed by the picture |
| HeaderFooter.DateFormat | velum_core/src/header_footer.rs:163-174 | the corrected format holds no quote, `@` or backslash |
| HeaderFooter.DateFormatOfPicture | velum_core/src/header_footer.rs:163-174 | the corrected parser reads back the picture of `DATE \@ "picture"` exactly |
| HeaderFooter.DateFormatAgrees | velum_core/src/header_footer.rs:163-174 | on codes without a backslash the corrected and the as-written parsers agree |
| HeaderFooter.ParseField | velum_core/src/header_footer.rs:140-196 | a code parses iff it starts with PAGE, DATE, STYLEREF or DOCPROPERTY, the first keyword that matches deciding the kind; a page field starts at 1 and, as written, is upper-case Roman iff the code names "Roman" and "UPPER"; a date field is updateable and its format holds no quote or `@`; names lose their quotes |
| HeaderFooter.ParsePageExample | velum_core/src/header_footer.rs:140-162 | "PAGE \* Arabic" parses to an Arabic page number from 1 |
| HeaderFooter.ParseUnknownExample | velum_core/src/header_footer.rs:193-195 | "HELLO" does not parse |
| HeaderFooter.ParseDateCode | velum_core/src/header_footer.rs:163-174 | as written, `DATE \@ "picture"` parses to an updateable date field whose format is a backslash, a blank and the picture |
| HeaderFooter.ParseStyleRefCode | velum_core/src/header_footer.rs:175-183 | `STYLEREF "name"` parses to a style reference to the name |
| HeaderFooter.FooterWithPageNumber | velum_core/src/header_footer.rs:245-257 | the footer is primary and holds one page-number field from 1 in the given format |
| HeaderFooter.HeaderForPage | velum_core/src/header_footer.rs:470-493 | a header is shown iff the section exists, has a header, and its type is the one the page wants |
| HeaderFooter.FooterForPage | velum_core/src/header_footer.rs:496-519 | a footer is shown iff the section exists, has a footer, and its type is the one the page wants |
| HeaderFooter.HeaderPrecedence | velum_core/src/header_footer.rs:470-493 | a title page shows none; a distinct first page shows only a first-page header; with odd/even, even pages show only an even header; otherwise only a primary one |
| HeaderFooter.HeaderFooterSameType | velum_core/src/header_footer.rs:470-519 | a header and footer shown on the same page have the same type |
| HeaderFooter.HeaderPeriodic | velum_core/src/header_footer.rs:470-493 | from page 1 on, the choice repeats every two pages, and without first-page or odd/even rules every page matches page 0 |
| HeaderFooter.SetDifferentFirstPage | velum_core/src/header_footer.rs:442-446 | only the current section's first-page flag changes, to the value given; other sections, the section count and the current section stay, and nothing changes without a current section |
| HeaderFooter.SetDifferentOddEven | velum_core/src/header_footer.rs:449-453 | only the current section's odd/even flag changes, to the value given, with the same frame |
| HeaderFooter.SetHeader | velum_core/src/header_footer.rs:456-460 | only the current section's header changes, to the header given, with the same frame |
| HeaderFooter.SetFooter | velum_core/src/header_footer.rs:463-467 | only the current section's footer changes, to the footer given, with the same frame |
| HeaderFooter.UpdateCurrent | velum_core/src/header_footer.rs:442-467 | a setter changes only the current section's configuration, and nothing when there is none |
| HeaderFooter.AddSection | velum_core/src/header_footer.rs:415-422 | a new section is appended as a copy of the last, becomes current, and its index is returned |
| HeaderFooter.SetCurrentSection | velum_core/src/header_footer.rs:425-429 | the current section moves only to an existing section |
| HeaderFooter.OperationsKeepValid | velum_core/src/header_footer.rs:407-467 | every manager operation keeps the current section in range, and setters leave other sections alone |
| HeaderFooter.SetHeaderShows | velum_core/src/header_footer.rs:456-493 | a primary header set on a plain section shows on every page |
| HeaderFooter.FirstPageExample | velum_core/src/header_footer.rs:442-493 | with a distinct first page, a first-page header shows on page 0 only |
| HeaderFooter.AddSectionExample | velum_core/src/header_footer.rs:415-422 | a second section inherits the odd/even setting |
| HeaderFooter.ContentRegionBands | velum_core/src/header_footer.rs:536-586 | the header band ends where the content starts and the footer band starts where the content ends, both at the left margin and as wide as the text area; a band exists iff the page shows a header or footer of positive height, and without one the content reaches the margin |
| HeaderFooter.ContentRegionExample | velum_core/src/header_footer.rs:536-586 | an A4 page with 72-point margins and a 50-point header 10 points down has its content from 132 to 770 |
| Toc.LevelStyleAsWritten | velum_core/src/toc.rs:102-113 | as written, the style exists iff the level is at most 4; above that the unsigned `4 - level` underflows |
| Toc.LevelStyleAsWrittenOverflows | velum_core/src/toc.rs:108 | level 5 overflows while level 4 does not |
| Toc.NewLevelStyle | velum_core/src/toc.rs:102-113 | the corrected style always has a font size of at least 7 points |
| Toc.NewLevelStyleShape | velum_core/src/toc.rs:102-113 | styles are named HeadingN and HeadingNChar, only level 1 is bold, indents grow by 720 per level, sizes shrink by one point per level, and the corrected style equals the as-written one wherever that one exists |
| Toc.NewLevelStyleFirst | velum_core/src/toc.rs:102-113 | level 1 uses Heading1, Heading1Char, 15 points and bold |
| Toc.NewBuilderValid | velum_core/src/toc.rs:201-240 | a new builder, with or without a style, starts valid |
| Toc.AddStyleLevelMapping | velum_core/src/toc.rs:255-260 | a level from 1 to 9 is recorded for the style, other styles keep theirs, and other levels change nothing |
| Toc.AddEntry | velum_core/src/toc.rs:263-265 | the entry is appended |
| Toc.AddParagraph | velum_core/src/toc.rs:268-282 | the paragraph is appended at the current offset with its mapped level, and the offset grows by its byte length plus one for the newline |
| Toc.AddParagraphKeepsValid | velum_core/src/toc.rs:268-282 | adding a paragraph keeps the builder valid |
| Toc.AddParagraphsOffsets | velum_core/src/toc.rs:285-289 | the k-th added paragraph starts after the bytes and newlines of those before it |
| Toc.AddParagraphsPrefix | velum_core/src/toc.rs:285-289 | adding paragraphs keeps the earlier entries and moves the offset past all the new ones |
| Toc.Clear | velum_core/src/toc.rs:445-449 | clearing drops the entries and restarts the offset, keeping style and mappings |
| Toc.ClearRestartsOffsets | velum_core/src/toc.rs:445-449 | the first paragraph after clearing starts at 0 |
| Toc.DetermineLevel | velum_core/src/toc.rs:301-325 | an explicit outline level wins, capped at 9; else the style's mapping; nothing without style or level |
| Toc.HeadingLevel | velum_core/src/toc.rs:314-320 | a level read from a style name is from 1 to 9 and the name starts with "Heading" |
| Toc.DetermineLevelBounded | velum_core/src/toc.rs:301-325 | a level found is at most 9, and at least 1 unless it was explicit |
| Toc.DetermineLevelNone | velum_core/src/toc.rs:301-325 | no level is found iff there is no explicit level, no mapping and no HeadingN style name |
| Toc.HeadingStyleReadsBack | velum_core/src/toc.rs:314-320 | an unmapped HeadingN style gives level N |
| Toc.MappingWins | velum_core/src/toc.rs:255-311 | after mapping a style to a level, an entry of that style gets that level |
| Toc.KeptMembers | velum_core/src/toc.rs:358-368 | the entries kept are exactly those with a level within the shown levels and non-blank text |
| Toc.TotalPages | velum_core/src/toc.rs:395-399 | the total is the largest entry page, or 1 for none |
| Toc.Build | velum_core/src/toc.rs:342-407 | building succeeds iff there are document entries, and otherwise reports the empty-document error with no entries |
| Toc.BuildEntries | velum_core/src/toc.rs:358-392 | each TOC entry comes from a kept entry in turn, with its level, its trimmed text, its offset and a link numbered by its position when links are on |
| Toc.BuildTotalPages | velum_core/src/toc.rs:395-399 | no entry's page is past the total, which is 1 for an empty TOC |
| Toc.BuildKeepsDocumentOrder | velum_core/src/toc.rs:358-392 | entries added in offset order come out in strictly increasing offset order |
| Toc.BuildComplete | velum_core/src/toc.rs:358-392 | every kept document entry appears in the TOC with its offset and trimmed text |
| Toc.BuildSkips | velum_core/src/toc.rs:360-368 | a blank entry, or one deeper than the shown levels, is left out |
| Style.MergeFormatting | velum_core/src/style.rs:324-363 | an attribute is set in the result iff the override sets it (for the 30 merged attributes) or the base does |
| Style.MergeFormattingValues | velum_core/src/style.rs:324-363 | a merged attribute the override sets takes the override's value; every other attribute keeps the base's value |
| Style.MergeFormattingIsUnion | velum_core/src/style.rs:324-363 | when the override only sets merged attributes, merging is map union with the override winning |
| Style.MergeFormattingNeutral | velum_core/src/style.rs:324-363 | merging with nothing, or with itself, changes nothing |
| Style.MergeFormattingAssociative | velum_core/src/style.rs:324-363 | merging is associative, so a chain of inheritance can be folded from either end |
| Style.MergeParagraph | velum_core/src/style.rs:366-382 | the eight listed paragraph fields come from the override, set or not; the others from the base |
| Style.MergeParagraphFields | velum_core/src/style.rs:366-382 | a listed field is set iff the override sets it, with its value; an unlisted one keeps the base's value |
| Style.MergeParagraphAssociative | velum_core/src/style.rs:366-382 | paragraph merging is associative |
| Style.NewCharacterStyle | velum_core/src/style.rs:35-46 | a new character style has its id, no formatting and no parent |
| Style.NewParagraphStyle | velum_core/src/style.rs:93-107 | a new paragraph style has its id, no formatting, no parent and the paragraph type |
| Style.AddCharacterStyle | velum_core/src/style.rs:177-179 | the style's id joins the character styles; paragraph styles are untouched |
| Style.AddParagraphStyle | velum_core/src/style.rs:182-184 | the style's id joins the paragraph styles; character styles are untouched |
| Style.GetCharacterStyle | velum_core/src/style.rs:187-189 | a character style is found iff its id is registered |
| Style.GetParagraphStyle | velum_core/src/style.rs:192-194 | a paragraph style is found iff its id is registered |
| Style.AddThenGet | velum_core/src/style.rs:177-194 | a style added is found under its id, replacing any earlier one, and other ids are unaffected |
| Style.SetDefaultCharacterStyle | velum_core/src/style.rs:197-199 | the default character style is recorded and the styles are unchanged |
| Style.SetDefaultParagraphStyle | velum_core/src/style.rs:202-204 | the default paragraph style is recorded and the styles are unchanged |
| Style.SelfParentNeverEnds | velum_core/src/style.rs:49-61 | a style based on itself has no finite inheritance chain (the source recurses for ever) |
| Style.EffectiveCharInherits | velum_core/src/style.rs:49-61 | a style's own merged attributes win, and attributes it does not set come from its parent's effective formatting |
| Style.EffectiveCharOrphan | velum_core/src/style.rs:49-61 | a style without a registered parent has exactly its own formatting |
| Style.EffectiveCharBoundIrrelevant | velum_core/src/style.rs:49-61 | the effective formatting does not depend on the depth bound used to compute it |
| Style.EffectiveParaInherits | velum_core/src/style.rs:110-125 | a paragraph style's listed fields are its own, and the others come from its parent's effective formatting |
| Style.EffectiveCharOneLevel | velum_core/src/style.rs:49-61 | a style with a root parent has the parent's formatting merged with its own |
| Style.InheritanceExample | velum_core/src/style.rs:396-420 | a child setting italic based on a parent setting bold is bold and italic |
| Style.DefaultCharacterFormatting | velum_core/src/style.rs:207-223 | a default font sets the family and the size |
| Style.DefaultFontOnlyFamilyAndSize | velum_core/src/style.rs:207-223 | besides family and size, the default formatting is that of the default style |
| Style.DefaultWithoutStyle | velum_core/src/style.rs:207-223 | with no default style the defaults are empty, or just family and size when a default font is set |
| Style.DefaultFontExample | velum_core/src/style.rs:207-223 | a Calibri 22 default font gives exactly family Calibri and size 22 |
| Style.DefaultParagraphFormatting | velum_core/src/style.rs:226-236 | with no default paragraph style the defaults are empty |
| Style.ApplyCharacterStyle | velum_core/src/style.rs:239-245 | applying gives a formatting iff the style exists |
| Style.ApplyParagraphStyle | velum_core/src/style.rs:248-254 | applying gives a formatting iff the style exists |
| Tables.NewCell | velum_core/src/table.rs:165-174 | a new cell spans one row and one column at its indices |
| Tables.WithColSpan | velum_core/src/table.rs:177-180 | the column span is clamped to at least 1 and only it changes |
| Tables.WithRowSpan | velum_core/src/table.rs:183-186 | the row span is clamped to at least 1 and only it changes |
| Tables.AddCell | velum_core/src/table.rs:221-223 | the cell is appended to the row |
| Tables.VisibleCellCountAdd | velum_core/src/table.rs:226-228 | adding a cell adds its column span to the visible count |
| Tables.VisibleCellCountAtLeast | velum_core/src/table.rs:226-228 | the visible count is at least the number of cells, with equality iff no cell spans columns |
| Tables.VisibleCellCountExample | velum_core/src/table.rs:1105-1107 | a cell plus a cell spanning two columns count as three visible cells |
| Tables.NextFree | velum_core/src/table.rs:469-471 | the scan skips exactly the covered positions and stops at the first free one or the row end |
| Tables.PlaceEffect | velum_core/src/table.rs:473-497 | placing a cell makes its position the origin, marks the rest of its span (within the grid) covered by it, and leaves everything else alone |
| Tables.PlaceRowStep | velum_core/src/table.rs:460-501 | each cell of a row goes to the next free column, and the scan resumes its span further on |
| Tables.PlaceRowsKeepsRefsValid | velum_core/src/table.rs:444-511 | every position placement marks refers to a real cell of the table |
| Tables.NewGrid | velum_core/src/table.rs:444-511 | the grid has one row per table row and one column per table column, with zero heights and widths |
| Tables.NewGridRefsValid | velum_core/src/table.rs:444-511 | every grid position of a new grid refers to a real cell |
| Tables.GetCell | velum_core/src/table.rs:514-525 | a cell is returned iff the position is in the grid and is an origin, and it is the cell placed in that row |
| Tables.GetCoveringCell | velum_core/src/table.rs:528-539 | a cell is returned iff the position is in the grid and occupied, and on uncovered positions it agrees with GetCell |
| Tables.IsCovered | velum_core/src/table.rs:542-548 | positions outside the grid count as covered |
| Tables.GetCellExcludesCovered | velum_core/src/table.rs:514-548 | a covered position never yields a cell |
| Tables.CoveringCellSpansRow | velum_core/src/table.rs:528-539 | a covered position reports its covering cell, whose rows include the position's row |
| Tables.SetRowHeight | velum_core/src/table.rs:551-555 | the grid stays well shaped; in range only the named row's height changes, to the height given; out of range nothing changes |
| Tables.SetColumnWidth | velum_core/src/table.rs:558-562 | the grid stays well shaped; in range only the named column's width changes, to the width given; out of range nothing changes |
| Tables.SetRowHeightEffect | velum_core/src/table.rs:551-555 | only the named row's height changes, and nothing when the row is out of range |
| Tables.SetColumnWidthEffect | velum_core/src/table.rs:558-562 | only the named column's width changes, and nothing when the column is out of range |
| Tables.ColSpanExample | velum_core/src/table.rs:1097-1119 | in a two-column grid whose second cell spans two columns, both positions are origins and the overflow is dropped |
| Tables.RowSpanExample | velum_core/src/table.rs:1121-1140 | a cell spanning two rows covers the position below it, and the next row's cell moves to column 1 |
| PageLayout.HeaderRegion | velum_core/src/page_layout.rs:143-154 | a header band exists exactly when the header height is positive, at the top-left margin corner with the header's height |
| PageLayout.FooterRegion | velum_core/src/page_layout.rs:158-169 | a footer band exists exactly when the footer height is positive, ending at the bottom margin |
| PageLayout.PageGeometry | velum_core/src/page_layout.rs:131-169 | margins and content width add up to the page width; margins, header, content and footer add up to the page height; header, content and footer stack without gap |
| PageLayout.A4Content | velum_core/src/page_layout.rs:110-139 | the default A4 page has a 451.35 by 697.89 point content area and no header or footer band |
| PageLayout.WithPageConfig | velum_core/src/page_layout.rs:265-272 | a layout for a given page configuration starts with default pagination, no pages and no paragraphs |
| PageLayout.SetColumns | velum_core/src/page_layout.rs:276-278 | the column count is never below one, a positive request is kept, and nothing else changes |
| PageLayout.SetColumnGap | velum_core/src/page_layout.rs:282-284 | only the column gap changes, to the given value |
| PageLayout.ColumnsFillContent | velum_core/src/page_layout.rs:294-301 | the columns and the gaps between them exactly fill the content width |
| PageLayout.ColumnWidthExamples | velum_core/src/page_layout.rs:294-301 | one, two and three columns on a 460-point content width give 460, 220 and 430/3 points |
| PageLayout.ParagraphHeight | velum_core/src/page_layout.rs:328-333 | a paragraph without lines takes one line height, any other its own total height |
| PageLayout.LayoutLines | velum_core/src/page_layout.rs:414-461 | the lines already on the page are kept, at most the paragraph's remaining lines are added, and stopping early happens only once the columns run out |
| PageLayout.LayoutLinesContents | velum_core/src/page_layout.rs:427-460 | each placed line is numbered by its position on the page and carries its paragraph, source line, byte range and the line height |
| PageLayout.LayoutLinesAdvance | velum_core/src/page_layout.rs:427-460 | consecutive placed lines either stack one line height apart within the available height or start the next column at the top |
| PageLayout.SecondPassNumbered | velum_core/src/page_layout.rs:336-411 | every page the second pass returns is numbered by its position, is non-empty, and numbers its lines in order |
| PageLayout.SecondPassPagesNumbered | velum_core/src/page_layout.rs:336-411 | every page of the second pass is numbered by its position and holds a line |
| PageLayout.SecondPassDropsLines | velum_core/src/page_layout.rs:427-460 | a three-line paragraph on a page with room for two comes out with only its first two lines |
| PageLayout.SecondPassExamplePage | velum_core/src/page_layout.rs:336-411 | that paragraph yields exactly one page holding its first two lines |
| PageLayout.LayoutLinesExampleSteps | velum_core/src/page_layout.rs:427-460 | the two lines placed in that example sit at heights 0 and 12, and the third line meets an exhausted column |
| PageLayout.CorrectedSecondPassKeepsEveryLine | velum_core/src/page_layout.rs:336-461 | with paragraphs continued on the next page, every line of every paragraph appears exactly once, in document order, on numbered non-empty pages |
| PageLayout.LayoutPages | velum_core/src/page_layout.rs:608-629 | as written, the layout records the paragraph count and the pages it returns, keeps its configuration, returns no pages for no paragraphs, and numbers the pages by position, none empty |
| PageLayout.LayoutPagesCorrected | velum_core/src/page_layout.rs:608-629 | with paragraphs continued across pages, the same bookkeeping, and every line of every paragraph is laid out exactly once, in order |
| PageLayout.LayoutPagesDropsLines | velum_core/src/page_layout.rs:427-460 | on the short page, the layout as written misses a line of the three-line paragraph that the corrected layout keeps |
| PageLayout.ToRenderedPage | velum_core/src/page_layout.rs:725-735 | a rendered page carries the page's index, lines, bounds and bands, with its size left at zero for the caller |
| PageLayout.PageForOffset | velum_core/src/page_layout.rs:680-697 | the page found for an offset is one of the layout's pages |
| PageLayout.PageForOffsetNoPages | velum_core/src/page_layout.rs:680-697 | a layout without pages has no page for any offset |
| PageLayout.PageForOffsetLocates | velum_core/src/page_layout.rs:680-697 | when every line lies inside its paragraph, a page is found exactly for offsets before the end of the laid-out text, and the found page's bytes cover the offset |
| LineLayout.DefaultProperties | velum_core/src/line_layout.rs:106-119 | default paragraph properties have no indents or spacing, single line spacing and left alignment |
| LineLayout.WithIndent | velum_core/src/line_layout.rs:125-132 | only the three indents differ from the defaults |
| LineLayout.WithAlignment | velum_core/src/line_layout.rs:136-141 | only the alignment differs from the defaults |
| LineLayout.WithLineSpacing | velum_core/src/line_layout.rs:145-151 | only the spacing rule and value differ from the defaults |
| LineLayout.NewProperties | velum_core/src/line_layout.rs:155-175 | every property is the one given |
| LineLayout.NewPropertiesDefault | velum_core/src/line_layout.rs:106-175 | the full constructor with the default values gives the default properties |
| LineLayout.BaseLineHeight | velum_core/src/line_layout.rs:346 | with a line-height factor of one the base line height is the font size |
| LineLayout.LineHeight | velum_core/src/line_layout.rs:292-301 | an exact rule gives the spacing value; an at-least rule gives the larger of the base and the spacing value |
| LineLayout.FixedRulesAreMultiples | velum_core/src/line_layout.rs:292-301 | single, one-and-a-half and double spacing equal the multiple rule at 1, 1.5 and 2 |
| LineLayout.LineHeightMonotone | velum_core/src/line_layout.rs:292-301 | a taller base never gives a shorter line for a non-negative spacing value, and an exact rule ignores the base |
| LineLayout.LineHeightExamples | velum_core/src/line_layout.rs:292-301 | single keeps the base, double doubles it, exactly 30 gives 30, multiple 1.5 scales by 1.5, at least 40 is never below 40 |
| LineLayout.LineOffset | velum_core/src/line_layout.rs:304-315 | every line after the first starts at the left indent |
| LineLayout.FirstLineIndentOnlyOnFirstLine | velum_core/src/line_layout.rs:304-315 | the first line differs from every later line by exactly the first-line indent, and starts left of them exactly when that indent is negative |
| LineLayout.ContentWidthFraction | velum_core/src/line_layout.rs:329-334 | the content width is the maximum width scaled by the part of an inch the indents leave, the whole width without indents and never more with non-negative ones |
| LineLayout.ContentWidthExample | velum_core/src/line_layout.rs:329-334 | half an inch left and a quarter inch right indent on a 1440-unit width leave 360 units |
| LineLayout.TotalHeight | velum_core/src/line_layout.rs:431-435 | a paragraph without lines is as tall as its space before and after |
| LineLayout.TotalHeightPerLine | velum_core/src/line_layout.rs:431-435 | each line adds exactly one line height to the paragraph |
| LineLayout.SpaceBeforeAfterAdds | velum_core/src/line_layout.rs:431-435 | positive space before or after makes the paragraph taller than its lines |
| LineLayout.LineInfoAsWritten | velum_core/src/line_layout.rs:351-429 | an empty line sits at the end of the previous non-empty line with zero width and a hard break; any other line keeps the breaker's range and width |
| LineLayout.OffsetUnitsMismatch | velum_core/src/line_layout.rs:351-429 | with one inch of left indent on a 400-unit width, a later empty line is offset by 400 units and a later non-empty line by 1440, past the right edge |
| LineLayout.LineInfoAt | velum_core/src/line_layout.rs:351-429 | the corrected record: the same range, width, break and height as written, with every offset in layout units |
| LineLayout.OffsetUnitsFitLine | velum_core/src/line_layout.rs:329-429 | with offsets in units every later line starts at the left indent and its content box ends at the right indent |
| LineLayout.LineInfosFrom | velum_core/src/line_layout.rs:351-429 | one record per breaker line, each the as-written record of its own index |
| LineLayout.LayoutParagraph | velum_core/src/line_layout.rs:323-448 | the paragraph layout keeps its text, width and properties, has one numbered line per breaker line at the spacing rule's height with offsets as written, and is as tall as its lines plus spacing |
| LineLayout.LayoutParagraphDefault | velum_core/src/line_layout.rs:318-320 | with default properties the content width is the full width, lines have the base height and no offset, and the paragraph is exactly its lines tall |
| LineLayout.WidestFrom | velum_core/src/line_layout.rs:471-475 | the running maximum is at least every line's extent and is one of them or the starting value |
| LineLayout.WidestParagraphs | velum_core/src/line_layout.rs:464-475 | the document width is non-negative and at least every line's extent |
| LineLayout.SplitLines | velum_core/src/line_layout.rs:462 | splitting at newlines gives at least one piece and no piece holds a newline |
| LineLayout.SplitJoin | velum_core/src/line_layout.rs:462 | joining the pieces with newlines gives the text back |
| LineLayout.LayoutDocument | velum_core/src/line_layout.rs:456-487 | one paragraph layout per newline-separated piece, heights summed, width covering every line, and the base line height recorded |
| LineLayout.VisualOrder | velum_core/src/line_layout.rs:508-516 | empty text has no runs and any other text is one run over all of it |
| Kinsoku.TablesDisjoint | velum_core/src/kinsoku.rs:9-20 | no character is both forbidden at a line start and forbidden at a line end |
| Kinsoku.NoStartExamples | velum_core/src/kinsoku.rs:85-101 | the ideographic comma, full stop and closing parenthesis may not open a line and the opening brackets may not close one, while ideographs, Latin letters and digits are free |
| Kinsoku.ShrinkableIsCjk | velum_core/src/kinsoku.rs:104-136 | every shrinkable punctuation mark is a CJK character |
| Kinsoku.CjkExamples | velum_core/src/kinsoku.rs:104-128 | Han ideographs, kana and full-width punctuation are CJK; ASCII letters, digits and symbols are not |
| Kinsoku.CharWidth | velum_core/src/kinsoku.rs:149-157 | every non-ASCII character takes the full default width |
| Kinsoku.CharWidthHalfIff | velum_core/src/kinsoku.rs:149-157 | a character takes half the default width exactly when it is ASCII and not one of the quote characters listed as CJK |
| Kinsoku.CharWidthExamples | velum_core/src/kinsoku.rs:149-157 | an ideograph and a full-width comma take the full width, a Latin letter half |
| Kinsoku.StartAdjustment | velum_core/src/kinsoku.rs:186-216 | a line gets a start adjustment exactly when its first character is forbidden there, covering that character's bytes, hanging when it fits in the remaining width plus its own and wrapping otherwise |
| Kinsoku.EndAdjustment | velum_core/src/kinsoku.rs:218-248 | a line gets an end adjustment exactly when its last character is forbidden there, ending at the line end, squeezing when the overflow is at least that character and wrapping otherwise |
| Kinsoku.FirstPair | velum_core/src/kinsoku.rs:250-289 | the search finds the first position where a no-end character is followed by a no-start one, or reports that none exists |
| Kinsoku.PairAdjustment | velum_core/src/kinsoku.rs:250-289 | a line gets a pair adjustment exactly when it holds such a pair, covering the byte range of the first pair only |
| Kinsoku.LineAdjustments | velum_core/src/kinsoku.rs:178-289 | an empty line or text gets no adjustments, any other at most three, all naming that line |
| Kinsoku.LineGroups | velum_core/src/kinsoku.rs:178-290 | one group per line up to the shorter of the lines and texts, each the line's own adjustments |
| Kinsoku.FlattenMember | velum_core/src/kinsoku.rs:170-293 | every reported adjustment comes from the group of the line it names |
| Kinsoku.ProcessForKinsoku | velum_core/src/kinsoku.rs:170-293 | every adjustment names a non-empty line with non-empty text |
| Kinsoku.ProcessPerLine | velum_core/src/kinsoku.rs:170-293 | the adjustments reported for a line are exactly that line's own adjustments, and none for lines beyond the shorter input |
| Kinsoku.ProcessOrdered | velum_core/src/kinsoku.rs:170-293 | adjustments are reported in line order |
| Kinsoku.StartViolationExample | velum_core/src/kinsoku.rs:451-469 | a line opening with a full-width comma that fits in the width gets a hanging adjustment over its three bytes |
| Kinsoku.EndViolationExample | velum_core/src/kinsoku.rs:471-488 | a line closing with a full-width parenthesis that overflows by 5 gets a squeeze adjustment over its last three bytes |
| Kinsoku.ShrinkFactor | velum_core/src/kinsoku.rs:298-305 | no available space gives factor 1, otherwise one minus the needed share capped at 0.2 |
| Kinsoku.ShrinkFactorBounds | velum_core/src/kinsoku.rs:298-305 | for positive space and non-negative need the factor lies between 0.8 and 1, is 0.8 exactly when the need reaches a fifth of the space, and 1 exactly when nothing is needed |
| Kinsoku.ShrinkFactorMonotone | velum_core/src/kinsoku.rs:298-305 | needing more space never gives a larger factor |
| Kinsoku.ShrinkFactorExamples | velum_core/src/kinsoku.rs:402-418 | no need gives 1, a 5% need lies strictly between 0.8 and 1, and 20% or 30% give 0.8 |
| Kinsoku.CharsForBytes | velum_core/src/kinsoku.rs:310-321 | the character count found for a byte offset covers exactly that many UTF-8 bytes |
| Kinsoku.LineText | velum_core/src/kinsoku.rs:310-321 | a line's text is as many UTF-8 bytes as its range, and is the exact middle piece of the paragraph between its start and end |
| Kinsoku.ExtractLineTexts | velum_core/src/kinsoku.rs:310-321 | one text per line, each that line's own text |
| Kinsoku.ExtractLineTextsBytes | velum_core/src/kinsoku.rs:310-321 | each extracted text has its line's byte length and is empty exactly when the line is |
| LayoutApi.PageCount | velum_core/src/api_layer/layout_api.rs:71-73 | the count is the number of pages the layout holds |
| LayoutApi.GetPageInfo | velum_core/src/api_layer/layout_api.rs:75-82 | page information exists exactly for indices below the page count, and carries the page's own index and line count and the configured page size |
| LayoutApi.PageCountMatchesInfo | velum_core/src/api_layer/layout_api.rs:71-82 | the page count is the number of laid-out pages, and information exists exactly for those pages |
| LayoutApi.PageForOffsetFrom | velum_core/src/api_layer/layout_api.rs:84-95 | searching from a page whose preceding bytes do not pass the offset finds a page exactly when the offset is before the total, and the found page's byte span holds the offset |
| LayoutApi.PageForOffset | velum_core/src/api_layer/layout_api.rs:84-95 | a page is found exactly for offsets below the total line bytes, and it is the page whose cumulative byte span holds the offset |
| LayoutApi.PageForOffsetUnique | velum_core/src/api_layer/layout_api.rs:84-95 | any page whose cumulative byte span holds the offset is the one returned |
| LayoutApi.LineInfoFrom | velum_core/src/api_layer/layout_api.rs:97-114 | the line found holds the offset and no earlier line in page-then-line order does; finding none means no line holds it |
| LayoutApi.GetLineInfo | velum_core/src/api_layer/layout_api.rs:97-114 | the line information returned is for the first line, in page-then-line order, whose range holds the offset, and is absent only when no line holds it |
| LayoutApi.GetLineInfoComplete | velum_core/src/api_layer/layout_api.rs:97-114 | whenever some line holds the offset a line is found, and it is that line when no earlier one holds the offset |
| LayoutApi.IsVisibleIgnoresOffset | velum_core/src/api_layer/layout_api.rs:149-151 | visibility does not depend on the offset and holds exactly when some line is visible |
| RenderApi.TouchesIsOverlap | velum_core/src/api_layer/render_api.rs:106-110 | for a non-empty line and a non-empty range, the three-way test holds exactly when the two half-open ranges overlap |
| RenderApi.TouchesEmptyRange | velum_core/src/api_layer/render_api.rs:106-110 | for an empty edit range the test holds exactly when the position lies within the line, its end included |
| RenderApi.AnyTouches | velum_core/src/api_layer/render_api.rs:106-110 | a page has content in the range exactly when one of its lines passes the test |
| RenderApi.DirtyRegionsFrom | velum_core/src/api_layer/render_api.rs:101-127 | at most one region per remaining page, each carrying the edit range unchanged |
| RenderApi.DirtyRegions | velum_core/src/api_layer/render_api.rs:101-127 | at most one region per page, each carrying the edit range unchanged |
| RenderApi.DirtyPagesFromSelects | velum_core/src/api_layer/render_api.rs:104-124 | the dirty pages are, in increasing page order, exactly the pages with a line touching the range |
| RenderApi.DirtyRegionsArePages | velum_core/src/api_layer/render_api.rs:104-124 | each region's rectangle is the content bounds of the corresponding dirty page |
| RenderApi.DirtyRegionsCoverTouchedPage | velum_core/src/api_layer/render_api.rs:104-124 | every page with a line touching the range contributes a region with its content bounds |
| RenderApi.RenderPageCommands | velum_core/src/api_layer/render_api.rs:129-150 | commands exist exactly for existing pages: one plain black 12-point text command per line, in order, at the line's position |
| RenderApi.LineLabelInjective | velum_core/src/api_layer/render_api.rs:136 | different byte ranges get different placeholder labels |
| RenderApi.RenderPageCommandsLabels | velum_core/src/api_layer/render_api.rs:134-144 | each line's command is labelled with that line's byte range |
| RenderApi.PageImages | velum_core/src/api_layer/render_api.rs:152-155 | a page never lists any images |
| RenderApi.ExportPageAsPng | velum_core/src/api_layer/render_api.rs:157-161 | PNG export never produces data |
| SelectionRender.NewSelectionRect | velum_core/src/selection_render.rs:68-79 | a new selection rectangle keeps every given field and is not a column rectangle |
| SelectionRender.Hull | velum_core/src/selection_render.rs:108-117 | the running bounds enclose every rectangle and each side is attained by some rectangle |
| SelectionRender.FromRectangles | velum_core/src/selection_render.rs:104-126 | there is a bounding box exactly when there are rectangles; it encloses all of them and its size is the span of its sides |
| SelectionRender.FromRectanglesSmallest | velum_core/src/selection_render.rs:104-126 | any box enclosing all the rectangles encloses the bounding box, so it is the smallest |
| SelectionRender.FromRectanglesExample | velum_core/src/selection_render.rs:104-126 | two rectangles at (10,5) 20 by 10 and (0,15) 50 by 10 give the box from (0,5) to (50,25) |
| SelectionRender.NewRenderer | velum_core/src/selection_render.rs:138-144 | a new renderer has the default configuration, no character widths and an average width of 10 |
| SelectionRender.WithConfig | velum_core/src/selection_render.rs:146-152 | a renderer built with a configuration keeps it, with no character widths and the same default average width |
| SelectionRender.SetCharacterWidths | velum_core/src/selection_render.rs:154-159 | the widths are kept; a non-empty list sets the average to their mean and an empty one leaves it |
| SelectionRender.SetCharacterWidthsUniform | velum_core/src/selection_render.rs:154-159 | equal widths give that width as the average |
| SelectionRender.SetAvgCharWidth | velum_core/src/selection_render.rs:161-163 | the average width is the given width, raised to 1 when smaller |
| SelectionRender.HexByteRoundTrip | velum_core/src/selection_render.rs:169-177 | a byte written as two upper-case hexadecimal digits parses back to itself |
| SelectionRender.Lighten | velum_core/src/selection_render.rs:174-176 | lightening adds 100 to a channel and saturates at 255 |
| SelectionRender.Channels | velum_core/src/selection_render.rs:167-173 | channels that parse are bytes |
| SelectionRender.EffectiveColor | velum_core/src/selection_render.rs:165-182 | outside dark mode, or with inverted colours, the highlight colour is returned unchanged |
| SelectionRender.EffectiveColorDark | velum_core/src/selection_render.rs:165-182 | in dark mode a parseable "#RRGGBB" colour becomes a seven-character colour whose channels are each lightened, and an unparseable one is kept |
| SelectionRender.EffectiveColorDefaultDark | velum_core/src/selection_render.rs:29-182 | the default highlight is #3399FF and becomes #97FDFF in dark mode |
| Image.WrapTypeLayers | velum_core/src/image.rs:157-172 | no wrap type is both behind and in front of the text, the polygon types are neither, and exactly square and top-and-bottom are none of the three |
| Image.FromMagicBytes | velum_core/src/image.rs:615-654 | fewer than twelve bytes are never recognised, a recognised format's signature is present, and TIFF is never detected |
| Image.SignaturesExclusive | velum_core/src/image.rs:620-651 | no data carries two formats' signatures, so the order of the tests does not matter |
| Image.FromMagicBytesIff | velum_core/src/image.rs:615-654 | a format is detected exactly when there are at least twelve bytes and its signature is present |
| Image.ShortInputIsUnknown | velum_core/src/image.rs:616-618 | the eight-byte PNG signature alone is too short to recognise |
| Image.FromMagicBytesExamples | velum_core/src/image.rs:620-633 | a PNG header and a GIF89a header are recognised |
| Image.WebpExample | velum_core/src/image.rs:640-646 | RIFF, four size bytes and WEBP are recognised as WebP |
| Image.ZerosAreUnknown | velum_core/src/image.rs:615-654 | twelve zero bytes are not an image |
| Image.MimeTypeExtensionInjective | velum_core/src/image.rs:657-682 | different formats have different MIME types and different extensions |
| Image.FormatOfContentType | velum_core/src/image.rs:796-806 | a format is chosen exactly for image content types and thumbnails, and every image content type names a known format |
| Image.MimeTypeContentTypeRoundTrip | velum_core/src/image.rs:657-806 | a known format's MIME type reads back as an image content type that selects the same format |
| Image.BeU32RoundTrip | velum_core/src/image.rs:1054-1055 | four big-endian bytes read back the 32-bit value they encode |
| Image.LeU16RoundTrip | velum_core/src/image.rs:1106-1107 | two little-endian bytes read back the 16-bit value they encode |
| Image.LeU32RoundTrip | velum_core/src/image.rs:1123-1124 | four little-endian bytes read back the unsigned value they encode |
| Image.LeI32RoundTrip | velum_core/src/image.rs:1123-1124 | four little-endian bytes read back the signed value they encode in two's complement |
| Image.DecodePng | velum_core/src/image.rs:1047-1066 | fewer than 24 bytes are invalid, decoded sides are between 1 and a million, and the only errors are invalid or exceeded dimensions |
| Image.DecodePngRoundTrip | velum_core/src/image.rs:1047-1066 | a PNG header for a width and height is detected as PNG and decodes to those sides, to invalid for a zero side, and to exceeded for a side over a million |
| Image.DecodePngExample | velum_core/src/image.rs:1047-1066 | a 100 by 200 IHDR decodes to 100 by 200 |
| Image.DecodeGif | velum_core/src/image.rs:1101-1114 | fewer than ten bytes are invalid, decoded sides are positive 16-bit values, and the only error is invalid dimensions |
| Image.DecodeGifRoundTrip | velum_core/src/image.rs:1101-1114 | a GIF header for a width and height is detected as GIF and decodes to those sides, or to invalid for a zero side |
| Image.DecodeGifExample | velum_core/src/image.rs:1101-1114 | a GIF89a screen descriptor of 320 by 240 decodes to 320 by 240 |
| Image.DecodeBmpAsWritten | velum_core/src/image.rs:1117-1131 | fewer than 54 bytes are invalid and decoded sides are positive |
| Image.DecodeBmpAsWrittenReportsHeaderSize | velum_core/src/image.rs:1123-1130 | for a well-formed BITMAPINFOHEADER the decoder reports the header size, 40, as the height |
| Image.BmpHeightMisread | velum_core/src/image.rs:1117-1131 | a 2 by 3 bitmap decodes as 2 by 40 as written and as 2 by 3 when the fields are read at their offsets |
| Image.DecodeBmpCorrected | velum_core/src/image.rs:1117-1131 | the corrected decoder: fewer than 54 bytes are invalid and decoded sides are positive |
| Image.BmpHeaderIsBitmapInfo | velum_core/src/image.rs:635-638 | a bitmap header carries its width and height at the BITMAPINFOHEADER offsets and is detected as BMP |
| Image.DecodeBmpReadsInfoHeader | velum_core/src/image.rs:1117-1131 | the corrected decoder reads the width and the absolute height from the info header; a non-positive width or zero height is invalid |
| Image.DecodeDimensions | velum_core/src/image.rs:1033-1044 | each format goes to its own decoder, bitmaps to the as-written one, the formats outside the model to their given result, and an unknown format is an error |
| Image.DecodeDimensionsCorrected | velum_core/src/image.rs:1033-1044 | the corrected dispatch differs from the as-written one only for bitmaps, which it sends to the corrected decoder |
| Image.DecodeDimensionsBmpDiffers | velum_core/src/image.rs:1033-1044 | for a bitmap with a standard info header, the as-written dispatch reports a height of 40 and the corrected one the stored height |
| Image.SmallBmpDecodes | velum_core/src/image.rs:1033-1131 | the 2 by 3 bitmap is detected as BMP and decodes as 2 by 40 as written and as 2 by 3 corrected |
| Image.NewCache | velum_core/src/image.rs:725-731 | a new cache is empty with a 100 MiB limit |
| Image.WithMaxSize | velum_core/src/image.rs:734-740 | a cache with a given limit starts empty |
| Image.Find | velum_core/src/image.rs:845-852 | a lookup finds an entry with the path, or reports that none has it |
| Image.Get | velum_core/src/image.rs:845-847 | an image is returned exactly when some entry has the path, and it is that entry's image |
| Image.SizeBytesCountsImages | velum_core/src/image.rs:871-883 | the recorded size is the total of the cached images' data, and zero when the cache is empty |
| Image.Remove | velum_core/src/image.rs:855-862 | removing returns the path's image, drops the path, lowers the size by the image's length and the count by one, and leaves every other path's image |
| Image.Clear | velum_core/src/image.rs:865-868 | a cleared cache holds nothing, has size zero and keeps its limit |
| Image.Evict | velum_core/src/image.rs:767-777 | eviction keeps a newest suffix of the entries and stops once the new entry fits or nothing is left; with room already it changes nothing |
| Image.EvictKeepsImages | velum_core/src/image.rs:767-777 | every path still cached after eviction has its image unchanged |
| Image.InsertProperties | velum_core/src/image.rs:780-781 | inserting keeps paths distinct, stores the new image and leaves others; a new path adds its length to the total and a cached path replaces its old length |
| Image.StoreAsWritten | velum_core/src/image.rs:767-781 | the new image is stored under its path and the limit kept |
| Image.StoreCorrected | velum_core/src/image.rs:767-781 | the corrected insertion step: with the size kept equal to the data held, the new image is stored, the limit is respected unless the image alone exceeds it, and surviving images are unchanged |
| Image.LoadAsWritten | velum_core/src/image.rs:743-787 | an unknown format is refused with the cache unchanged; any failure leaves the cache unchanged; a loaded image carries the data, the detected format and the dimensions the as-written decoders give, and is cached under the path |
| Image.LoadCorrected | velum_core/src/image.rs:743-787 | the corrected load: a loaded image carries the data, the detected format and the dimensions the corrected decoders give, is cached under the path within the limit, and other cached images are unchanged |
| Image.LoadFromOoxml | velum_core/src/image.rs:790-842 | as written, a content type that selects no format is refused as unsupported with the cache unchanged; success caches the data under the path in the selected format with the dimensions the as-written decoders give |
| Image.LoadFromOoxmlCorrected | velum_core/src/image.rs:790-842 | the corrected version: the same refusals, the corrected decoders, the size kept equal to the data held, and other cached images unchanged |
| Image.LoadAgreesForNewPath | velum_core/src/image.rs:743-787 | for a path not yet cached the as-written counter stays equal to the data held, and apart from bitmaps the as-written and corrected loads agree |
| Image.StoreAgreesForNewPath | velum_core/src/image.rs:767-781 | for a path not yet cached the as-written and corrected insertion steps agree |
| Image.LoadBmpHeightMisread | velum_core/src/image.rs:743-787 | as written, loading the 2 by 3 bitmap caches an image 2 by 40 |
| Image.LoadBmpHeightCorrected | velum_core/src/image.rs:743-787 | corrected, loading the 2 by 3 bitmap caches an image 2 by 3 |
| Image.ReloadCountsTwice | velum_core/src/image.rs:767-781 | loading the same 24-byte image twice under one path leaves one image but a recorded size of 48 as written, 24 when corrected |
| OoxmlTypes.ContentTypeFromString | velum_core/src/ooxml/types.rs:49-71 | a listed MIME string maps to a variant whose aliases include it, and any other string maps to an unknown type carrying the string verbatim |
| OoxmlTypes.ContentTypeFromStringIff | velum_core/src/ooxml/types.rs:49-71 | a string maps to a known variant exactly when it is one of that variant's aliases |
| OoxmlTypes.AliasesDisjoint | velum_core/src/ooxml/types.rs:49-71 | no string is an alias of two variants |
| OoxmlTypes.ContentTypeAliasExamples | velum_core/src/ooxml/types.rs:59-69 | image/jpg is JPEG, image/tif is TIFF, application/xml is custom XML, and image/x-emf is unknown |
| OoxmlTypes.IsImageOfString | velum_core/src/ooxml/types.rs:49-84 | a string parses to an image type exactly when it is one of the image MIME strings, all of which start with image/ |
| OoxmlTypes.DefaultPartName | velum_core/src/ooxml/types.rs:87-99 | every default part name is an absolute path, and image types have none |
| OoxmlTypes.DefaultPartNameInjective | velum_core/src/ooxml/types.rs:87-99 | no two content types share a default part name |
| OoxmlTypes.DefaultPartNameDomain | velum_core/src/ooxml/types.rs:87-99 | exactly the images, relationships, thumbnails, custom XML and unknown types lack a default part name |
| OoxmlTypes.RelationshipTypeFromString | velum_core/src/ooxml/types.rs:129-143 | the exact URIs map to the variant whose URI they are; any other string containing relationships/image maps to image; everything else is unknown, carrying the string |
| OoxmlTypes.RelationshipTypeRoundTrip | velum_core/src/ooxml/types.rs:129-143 | a variant's URI parses back to that variant |
| OoxmlTypes.ImageRelRecognised | velum_core/src/ooxml/types.rs:140 | the standard image relationship URI parses as an image relationship |
| OoxmlTypes.IsImageRelationshipOfString | velum_core/src/ooxml/types.rs:129-148 | a string gives an image relationship exactly when it is not one of the exact URIs and contains relationships/image |
| OoxmlConverter.WithHash | velum_core/src/ooxml/converter.rs:86-87 | a converted colour starts with # and is the input or the input with # prepended |
| OoxmlConverter.WithHashIdempotent | velum_core/src/ooxml/converter.rs:86-87 | prefixing twice is prefixing once, and a colour is left alone exactly when it already starts with # |
| OoxmlConverter.ConvertRunProperties | velum_core/src/ooxml/converter.rs:62-90 | bold, italic and font name are copied; underline is set, to true, exactly when present and not none; a size is set exactly for a positive half-point count and fits 16 bits; colours are set exactly when present and carry a # |
| OoxmlConverter.FontSizeFromHalfPoints | velum_core/src/ooxml/converter.rs:76-80 | twice a point size, plus an odd half point or not, converts back to that point size |
| OoxmlConverter.RunSegments | velum_core/src/ooxml/converter.rs:14-38 | each run's piece has non-empty text and carries attributes |
| OoxmlConverter.DocumentSegments | velum_core/src/ooxml/converter.rs:12-51 | no piece of the document has empty text |
| OoxmlConverter.ConvertParagraphsOf | velum_core/src/ooxml/converter.rs:12-51 | the loop over paragraphs builds the same buffer and pieces as laying the document's segments end to end |
| OoxmlConverter.OoxmlToPieceTree | velum_core/src/ooxml/converter.rs:6-59 | the buffer is the concatenated segment texts and there is one piece per segment |
| OoxmlConverter.PiecesTileBuffer | velum_core/src/ooxml/converter.rs:12-51 | the pieces start at 0, are non-empty, each starts where the previous ends, and the last ends at the buffer's byte length |
| OoxmlConverter.RunSegmentsText | velum_core/src/ooxml/converter.rs:14-38 | a paragraph's pieces spell its non-empty run texts in order |
| OoxmlConverter.BufferJoinsParagraphs | velum_core/src/ooxml/converter.rs:40-50 | the buffer is the paragraphs' texts joined by single newlines, with none after the last |
| OoxmlConverter.ConversionExample | velum_core/src/ooxml/converter.rs:100-153 | a bold "Hello " and an italic 12-point "World" give the buffer "Hello World" and two pieces with those attributes |
| OoxmlSerializer.EscapeXmlText | velum_core/src/ooxml/serializer.rs:882-886 | escaped text holds no angle brackets |
| OoxmlSerializer.EscapeXmlAttr | velum_core/src/ooxml/serializer.rs:889-893 | an escaped attribute holds no angle brackets and no quotes |
| OoxmlSerializer.EscapeXmlAttrIsPerChar | velum_core/src/ooxml/serializer.rs:882-893 | the chain of replacements equals escaping each character on its own, the ampersand being replaced first |
| OoxmlSerializer.EscapeXmlTextRoundTrip | velum_core/src/ooxml/serializer.rs:882-886 | decoding the entities back, ampersand last, restores the text |
| OoxmlSerializer.EscapeXmlAttrRoundTrip | velum_core/src/ooxml/serializer.rs:889-893 | decoding the entities back, ampersand last, restores the attribute |
| OoxmlSerializer.PropertyBlock | velum_core/src/ooxml/serializer.rs:259-304 | a property block is empty exactly when it has no elements, and is otherwise wrapped in its open and close tags |
| OoxmlSerializer.SerializeParagraphProperties | velum_core/src/ooxml/serializer.rs:259-304 | paragraph properties serialize to nothing exactly when all seven fields are absent, and otherwise to a single w:pPr block |
| OoxmlSerializer.SerializeRunProperties | velum_core/src/ooxml/serializer.rs:329-375 | run properties serialize to nothing exactly when all seven fields are absent, and otherwise to a single w:rPr block |
| OoxmlSerializer.ParagraphPropertiesRoundTrip | velum_core/src/ooxml/serializer.rs:259-304 | reading the emitted paragraph elements back gives the properties |
| OoxmlSerializer.RunPropertiesRoundTrip | velum_core/src/ooxml/serializer.rs:329-375 | reading the emitted run elements back, bold and italic from 1 or 0 and the size halved, gives the properties |
| OoxmlSerializer.ParagraphElementsEmpty | velum_core/src/ooxml/serializer.rs:262-269 | no paragraph element is emitted exactly when every field is absent |
| OoxmlSerializer.RunElementsEmpty | velum_core/src/ooxml/serializer.rs:332-339 | no run element is emitted exactly when every field is absent |
| OoxmlSerializer.TextElement | velum_core/src/ooxml/serializer.rs:316-321 | a w:t element is emitted exactly for non-empty text, and its content decodes back to the text |
| OoxmlSerializer.SerializeRun | velum_core/src/ooxml/serializer.rs:307-326 | a run serializes to one w:r element |
| OoxmlSerializer.SerializeParagraph | velum_core/src/ooxml/serializer.rs:240-256 | a paragraph serializes to one w:p element |
| OoxmlSerializer.StylesXml | velum_core/src/ooxml/serializer.rs:378-404 | the styles part is an XML declaration and a w:styles element |
| OoxmlSerializer.StylesDocumentInjective | velum_core/src/ooxml/serializer.rs:378-404 | different style bodies give different styles parts |
| OoxmlSerializer.StyleIsNotDefaultBlock | velum_core/src/ooxml/serializer.rs:407-471 | no serialized style list begins with the built-in Normal style block |
| OoxmlSerializer.StylesFallbackIff | velum_core/src/ooxml/serializer.rs:378-404 | the styles part equals the built-in defaults exactly when there are no styles |
| DocxPackage.RelationshipTypeUriRoundTrip | velum_core/src/ooxml/serializer.rs:722-732 | the type URI written for a relationship parses back to its type, for every type but custom XML and thumbnails and for unknown URIs that do not look like known ones |
| DocxPackage.RelationshipTypeUriFallback | velum_core/src/ooxml/serializer.rs:722-732 | custom-XML and thumbnail relationships are written with the office-document URI and read back as office documents |
| DocxPackage.RelationshipTarget | velum_core/src/ooxml/serializer.rs:717-721 | the target is kept as it is without a base path, and otherwise is the base, a slash and the target |
| DocxPackage.RelationshipElementRoundTrip | velum_core/src/ooxml/serializer.rs:733-738 | a written Relationship element parses back to its id, type URI and target |
| DocxPackage.RelationshipsXml | velum_core/src/ooxml/serializer.rs:704-744 | the relationships part is an XML declaration and a Relationships element |
| DocxPackage.EntriesOf | velum_core/src/ooxml/serializer.rs:716-739 | one entry per relationship, in order |
| DocxPackage.RelationshipElementsRoundTrip | velum_core/src/ooxml/serializer.rs:704-744 | the written Relationship elements parse back to one entry per relationship, in order, with the base-prefixed targets |
| DocxPackage.ContentTypeStringReadBack | velum_core/src/ooxml/serializer.rs:675-690 | every type string written reads back as its type, except the theme string, which is unknown, and the types written as application/xml, which read back as custom XML |
| DocxPackage.ThemeTypeNotRecognised | velum_core/src/ooxml/serializer.rs:678 | the theme part's content type is not recognised when read back |
| DocxPackage.ReadContentTypeCorrected | velum_core/src/ooxml/serializer.rs:675-690 | the corrected reader: a type string is read as `from_string` reads it, and the theme string written for themes is also accepted |
| DocxPackage.ReadContentTypeRoundTrip | velum_core/src/ooxml/serializer.rs:675-690 | with the corrected reader every type written exactly, and the theme, reads back as itself |
| DocxPackage.OverrideList | velum_core/src/ooxml/serializer.rs:672-696 | exactly the absolute part names get an Override element, with their type |
| DocxPackage.ContentTypesXml | velum_core/src/ooxml/serializer.rs:657-701 | the content-types part starts with the declaration, the Types element and the two default extensions, and ends by closing Types |
| DocxPackage.RelationshipById | velum_core/src/ooxml/serializer.rs:125-153 | a relationship found by id is one of the list and has that id |
| DocxPackage.RootRelationshipsCases | velum_core/src/ooxml/serializer.rs:125-153 | the root relationships always hold rId1 for the document, rId3 for core and rId4 for app properties, and rId2 for styles exactly when styles are included |
| DocxPackage.Serialize | velum_core/src/ooxml/serializer.rs:118-153 | the package's first part is the main document at /word/document.xml holding the paragraphs' XML, and that path is registered in the content types as the main document |
| DocxPackage.RootRelationshipIds | velum_core/src/ooxml/serializer.rs:118-153 | serializing a document yields those root relationships |
| DocxPackage.PackageTypesOf | velum_core/src/ooxml/serializer.rs:155-203 | every part is registered under its own type, styles exactly when included and the theme exactly when included and present |
| DocxPackage.PartsRegistered | velum_core/src/ooxml/serializer.rs:118-211 | every serialized part's path is registered with that part's content type |
| DocxPackage.StylesPartIff | velum_core/src/ooxml/serializer.rs:163-171 | the styles part is registered exactly when styles are included, and is then the second part holding the styles XML |
| DocxPackage.ThemePartIff | velum_core/src/ooxml/serializer.rs:189-199 | the theme part is registered exactly when the theme is included and the document has one |
| DocxPackage.DocumentPartData | velum_core/src/ooxml/serializer.rs:155-161 | the first part is the main document at /word/document.xml holding the paragraphs' XML |
| DocxPackage.ImageRelationships | velum_core/src/ooxml/serializer.rs:760-768 | each image gets an image relationship numbered from one, targeting its file under media/ |
| DocxPackage.DocumentRelationshipsShape | velum_core/src/ooxml/serializer.rs:747-771 | the document relationships are the theme relationship exactly when the theme part is registered, then one per image |
| DocxPackage.DocumentRelationshipsOf | velum_core/src/ooxml/serializer.rs:747-771 | for a serialized document the theme relationship comes first exactly when the theme was included and present |
| DocxPackage.PackageOverrides | velum_core/src/ooxml/serializer.rs:657-701 | the content-types part overrides the document part, and the styles and theme parts when they are present |
| PdfExport.EscapePdfString | velum_core/src/export/pdf.rs:688-702 | the escaped string contains no raw newline, carriage return or tab and is never shorter than its input |
| PdfExport.EscapePdfRoundTrip | velum_core/src/export/pdf.rs:688-702 | undoing the escapes on the escaped string gives back exactly the original string, so escaping loses nothing |
| PdfExport.EscapePdfExamples | velum_core/src/export/pdf.rs:829-834 | parentheses are preceded by a backslash and a newline becomes the two characters backslash and n |
| PdfExport.PageDimensions | velum_core/src/export/pdf.rs:452-459 | a custom size is used as given; every standard size is portrait with positive width |
| PdfExport.StandardPageSizes | velum_core/src/export/pdf.rs:452-459 | A4 is 210 mm by 297 mm rounded to the nearest hundredth of a point; Letter and Legal are 8.5 inches wide and 11 and 14 inches tall |
| PdfExport.AddBookmark | velum_core/src/export/pdf.rs:535-544 | the bookmark list grows by one entry at the end with the given title, level and page, no parent and no children, earlier entries untouched |
| PdfExport.AddExporterBookmark | velum_core/src/export/pdf.rs:535-544 | adding a bookmark changes only the exporter's bookmark list |
| PdfExport.ScanParents | velum_core/src/export/pdf.rs:465-483 | the stack scan assigns each bookmark at most one parent, always an earlier bookmark |
| PdfExport.PopStack | velum_core/src/export/pdf.rs:465-483 | popping only removes entries from the top of the stack of open bookmarks |
| PdfExport.ParentMap | velum_core/src/export/pdf.rs:465-483 | there is one parent entry per bookmark and each parent precedes its child |
| PdfExport.ParentMapIsNearestShallower | velum_core/src/export/pdf.rs:462-492 | with the corrected pop rule, each bookmark's parent is the closest earlier bookmark of strictly smaller level, and a bookmark with no such predecessor has no parent |
| PdfExport.ChildrenOf | velum_core/src/export/pdf.rs:485-491 | the children list holds exactly the bookmarks whose parent is the given one, in increasing order |
| PdfExport.ApplyParents | velum_core/src/export/pdf.rs:485-491 | each bookmark receives its computed parent and has its children appended, while its title and level are unchanged |
| PdfExport.ProcessBookmarksWith | velum_core/src/export/pdf.rs:462-492 | the pass keeps every bookmark with its title and level, and a parent it assigns always comes earlier |
| PdfExport.ProcessedIsTree | velum_core/src/export/pdf.rs:462-492 | under either pop rule the result is a forest: parents precede children and the children lists agree exactly with the parent links |
| PdfExport.ProcessBookmarksCorrected | velum_core/src/export/pdf.rs:462-492 | the corrected pass links every bookmark to its nearest earlier shallower bookmark, and children lists are the inverse of parent links |
| PdfExport.SiblingsNested | velum_core/src/export/pdf.rs:469-483 | with the pop rule as written, a second chapter of the same level becomes the child of the first chapter |
| PdfExport.SectionOrphaned | velum_core/src/export/pdf.rs:469-483 | with the pop rule as written, a level-2 section directly after a level-1 chapter gets no parent, although the chapter is its nearest shallower predecessor |
| PdfExport.PlaceholderRoundTrip | velum_core/src/export/pdf.rs:429 | the text placeholder written for a line gives back that line's start and end offsets when read |
| PdfExport.LayoutPage | velum_core/src/export/pdf.rs:401-449 | a laid-out page has the requested size and one text element per rendered line |
| PdfExport.LayoutPageLines | velum_core/src/export/pdf.rs:401-449 | each text element sits at its line's position shifted by the left and top margins and refers to that line's text range |
| PdfExport.LayoutPages | velum_core/src/export/pdf.rs:381-398 | layout gives one page per rendered page, each of the configured size, empties the bookmarks, and keeps the configuration and the document |
| PdfExport.LayoutPagesShape | velum_core/src/export/pdf.rs:381-398 | layout produces one PDF page per document page, all of the configured size, and clears the bookmarks |
| PdfExport.EmbedFont | velum_core/src/export/pdf.rs:495-509 | when font embedding is on, the font is stored under its name and no other font entry changes; when off, the exporter is unchanged |
| PdfExport.PdfFormat | velum_core/src/export/pdf.rs:512-532 | JPEG and PNG images keep their format and only they do; every other format maps to the fallback |
| PdfExport.SaturateU32 | velum_core/src/export/pdf.rs:526-527 | an image dimension that fits 32 bits is kept and a larger one is clamped below 2^32 |
| PdfExport.EmbedImage | velum_core/src/export/pdf.rs:512-532 | when image embedding is on, the image is stored under its id with its data and converted format, and no other image entry changes; when off, the exporter is unchanged |
| TaskTracking.NewTask | velum_core/src/task_tracker.rs:51-70 | a new task is pending with default priority, empty description, no assignee, tags, subtasks or dependencies, created and updated at the given time and not completed |
| TaskTracking.SetCompleted | velum_core/src/task_tracker.rs:73-81 | completing a task sets its status, its update time and its completion time and nothing else |
| TaskTracking.NewProject | velum_core/src/task_tracker.rs:94-107 | a new project has the given name, no tasks and both timestamps at the given time |
| TaskTracking.GetTask | velum_core/src/task_tracker.rs:121-123 | a task is found exactly when its id is in the project, and it is the stored task |
| TaskTracking.AddTask | velum_core/src/task_tracker.rs:109-115 | after adding, the task is found under its id, every other id finds what it found before, and the update time is refreshed |
| TaskTracking.RemoveTask | velum_core/src/task_tracker.rs:117-119 | removing returns the task that was stored under the id, leaves no task under it, keeps all other tasks and does not touch the update time |
| TaskTracking.RemoveAddedTask | velum_core/src/task_tracker.rs:109-119 | removing a task just added returns it and leaves the project's earlier tasks minus that id |
| TaskTracking.TasksByStatus | velum_core/src/task_tracker.rs:129-133 | the selection holds exactly the project's tasks with the given status |
| TaskTracking.TasksByPriority | velum_core/src/task_tracker.rs:135-139 | the selection holds exactly the project's tasks with the given priority |
| TaskTracking.StatusesPartitionTasks | velum_core/src/task_tracker.rs:129-133 | the five status selections are pairwise disjoint and together cover every task of the project |
| TaskTracking.CompletionPercentage | velum_core/src/task_tracker.rs:141-149 | an empty project counts as 100 percent; otherwise the percentage lies between 0 and 100, is 100 exactly when every task is completed and 0 exactly when none is |
| TaskTracking.AllCompleted | velum_core/src/task_tracker.rs:141-149 | the completed selection is the whole project exactly when every task is completed |
| TaskTracking.GetActiveProject | velum_core/src/task_tracker.rs:178-180 | a project is returned exactly when an active name is set and names an existing project |
| TaskTracking.CreateProject | velum_core/src/task_tracker.rs:173-176 | the named project exists afterwards with no tasks, other projects and the active name are unchanged |
| TaskTracking.SetActiveProject | velum_core/src/task_tracker.rs:182-189 | the call succeeds exactly when the project exists, and then makes it active; on failure nothing changes |
| TaskTracking.AddTaskToActive | velum_core/src/task_tracker.rs:191-198 | the call succeeds exactly when there is an active project, adds the task only to it, and leaves every other project unchanged |
| TaskTracking.AddTaskToActiveFails | velum_core/src/task_tracker.rs:178-198 | when the active name always names an existing project, adding fails exactly when no project is active |
| TaskTracking.CompletedCount | velum_core/src/task_tracker.rs:258-260 | the count never exceeds the list length and equals it exactly when every item is completed |
| TaskTracking.PendingCount | velum_core/src/task_tracker.rs:262-264 | the count never exceeds the list length and equals it exactly when no item is completed |
| TaskTracking.CountsPartition | velum_core/src/task_tracker.rs:258-264 | completed and pending counts add up to the number of items |
| TaskTracking.AddAsWritten | velum_core/src/task_tracker.rs:222-237 | the new item gets the list length plus one as id and is appended uncompleted |
| TaskTracking.DuplicateIdAfterRemove | velum_core/src/task_tracker.rs:222-252 | adding two items, removing the first and adding a third gives the third the id 2 already held by the second |
| TaskTracking.AddCorrected | velum_core/src/task_tracker.rs:222-237 | with the corrected id choice, the new item is appended uncompleted under a positive id held by no existing item, so ids stay unique |
| TaskTracking.AddMatchesSource | velum_core/src/task_tracker.rs:222-237 | while no item was ever removed the corrected id choice gives the same id as the list length plus one |
| TaskTracking.FirstIndex | velum_core/src/task_tracker.rs:240 | the index found is the first item with the id, and none is found only when no item has it |
| TaskTracking.Toggle | velum_core/src/task_tracker.rs:239-246 | toggling succeeds exactly when some item has the id, flips only the first such item and keeps the list length |
| TaskTracking.ToggleTwice | velum_core/src/task_tracker.rs:239-246 | toggling the same id twice restores the list |
| TaskTracking.ToggleUnique | velum_core/src/task_tracker.rs:239-246 | with unique ids, toggling flips exactly the item with that id and keeps ids unique |
| TaskTracking.Remove | velum_core/src/task_tracker.rs:248-252 | removal reports success exactly when some item had the id, and keeps exactly the items with other ids |
| TaskTracking.RemoveUnique | velum_core/src/task_tracker.rs:248-252 | with unique ids, removal keeps ids unique and a successful removal shortens the list by exactly one |
| TaskTracking.ClearCompleted | velum_core/src/task_tracker.rs:254-256 | clearing keeps exactly the uncompleted items, leaving no completed ones and the same pending count |
| TaskTracking.ClearCompletedIdempotent | velum_core/src/task_tracker.rs:254-256 | clearing completed items twice is the same as clearing once |

## Left out

- ZIP packaging, serde, files and clocks: `package_to_zip`, `export_to_file`, the OPC reader, timestamps and `generate_simple_pdf`'s cross-reference byte offsets are I/O. Clock readings are a `now` parameter. The undo merge-window test is a `withinWindow` boolean.
- HashMap iteration order is not modelled. Results the source collects from a HashMap are sets of keys or maps. Where the source takes "the first key" (cache eviction, `create_project`'s returned reference), the model fixes one order and says so below.
- `f32`/`f64` precision: quantities are exact `real`s, so rounding of geometry, line heights, shrink factors and the completion percentage is not modelled.
- Font shaping and the line breaker: `text_shaping.rs`, `line_breaking.rs` and the measure module are not part of this model. `LineLayout` takes the breaker's lines as an input and keeps only the spacing, indent and offset formulas.
- Regex search and regex parsing: `regex_search`, `apply_regex_replacement`, the OOXML document reader, `parse_ooxml_*`, SVG dimensions and the TOC text utilities. `Find.Search` and `Find.FindAllInText` require the regex option to be off.
- Globals, locks and callbacks: the clipboard's RwLock and system-clipboard interface, `copy_selection_*`/`paste_text_at_cursor`, the `api_layer` `Arc<RwLock<…>>` wrappers, the default image cache and the `ImeHandler` event callbacks.
- Clipboard HTML conversions (`html_to_plain_text`, `html_to_word_fragment`, `create_word_fragment`, `fragment_to_html`) are string processing outside the modelled clipboard state.
- The "Cmd" label used on macOS for shortcuts is platform detection; the model uses the "Ctrl" label.
- `drag_velocity`, drag timestamps and `DateTimeField::get_formatted_value` read the clock.
- Float geometry:
  - image scale-to-fit and scale-to-fill, EMU conversion, `Rect` predicates and wrap polygons;
  - table column widths, row heights, bounds and the rendered table;
  - the footnote area and the TOC's `calculate_page` (page numbers are an input to the TOC builder);
  - `layout_api`'s `visible_lines` viewport geometry (`LayoutApi.IsVisibleIgnoresOffset` covers only its offset-independence).
- PageLayout: the widow/orphan and column-adjustment passes, `set_widow_orphan`, the Letter preset and `PageLayout::page_count` are not modelled.
- LineLayout: `set_line_height`, `set_tab_size`, `set_bidi`, `with_config`, and the per-line `is_bidi`, trailing-whitespace and `char_count` fields are not modelled; they need the shaper or Unicode tables.
- JPEG, WebP, SVG and TIFF dimension decoding: the decoders are fragile and their result is taken as an input by `Image.DecodeDimensions`.
- `piece_tree_to_word_document` refers to piece-table fields that `piece_tree.rs` does not have, so the serializer is modelled from a word document onwards.
- The serializer's theme XML, core and app property parts, and their timestamps are fixed text or clock readings and are not modelled. The images list passed into serialization is always empty in the source; the model keeps it as a parameter.
- The `.rels` default content type is written as `application/xml` and its type URI is written unescaped; neither is checked. Relationships never write a `TargetMode`.
- `api_facade.rs`, `export_api.rs` (an empty-PDF placeholder), `api.rs` and `lib.rs` are glue and are not part of this model.
- PdfExport.ProcessBookmarksCorrected: `layout_pages` clears the bookmark list before processing it, so in the source the bookmark pass only ever sees an empty list. The model states the pass on any list of freshly added bookmarks.
- TaskTracking.CreateProject: does not model the returned reference; the source returns the project under the HashMap's last key, which is arbitrary.
- DocumentApi.Delete: requires start not above end; the source's range arithmetic underflows otherwise. The piece table has no delete, so the model assumes one that removes the range when it lies inside the text and leaves the text alone otherwise.
- UndoRedo.DocInsert: the commands call `insert`, `delete` and `get_text_range` on a document type whose operations are not in `piece_tree.rs` in that form (its `insert` returns nothing). The model assumes an insert that succeeds exactly when the offset is at most the length and splices as the piece table does (`UndoRedo.DocInsertIsPieceTreeInsert`).
- UndoRedo.DocDelete: the piece table has no delete, so the model assumes one that succeeds exactly when the whole range lies inside the text and removes it.
- DocumentApi.OffsetFromPosition: requires a column of at least 1, because the source subtracts one from the column as an unsigned value.
- Find.SearchBackward: requires the start not to be past the text, since the source slices the text up to it.
- Ime.SetCandidates: requires a page size of at least 1, because the source divides by it.
- Ime.LocalSelectedIndexAsWritten: a debug build panics where the subtraction underflows. The model flags that case with `LocalUnderflows` and returns the release build's wrapped value there.
- HeaderFooter.DisplayNumber: models a debug build, so a `u32` overflow or underflow gives no number. The release build's wrap-around is `HeaderFooter.DisplayNumberWrapping`. HeaderFooter.FormattedNumber follows the debug build.
- Kinsoku.EndAdjustment: requires EndFits, because the source subtracts the closing character's length from the line end as an unsigned value.
- LayoutApi.PageForOffset: requires every line's end to be at least its start, because the source subtracts start from end as an unsigned value.
- SelectionRender.EffectiveColor: requires a colour long enough for the dark-mode slicing, which panics on shorter strings.
- Style.ApplyCharacterStyle: requires acyclic `based_on` chains; the source recurses without a guard and overflows the stack on a cycle. Style.ApplyParagraphStyle and the default-formatting functions carry the same requirement.
- UndoRedo.ExecuteAsWritten: requires a history bound of at least 1 or a non-empty undo stack, because the source's eviction removes from an empty vector otherwise. UndoRedo.ExecuteManagerCorrected carries the same requirement.
- FootnoteEndnote.InsertNumbered: requires the numbers it formats to be formattable, as do FootnoteEndnote.InsertNote and the renumbering functions, since star numbering of 0 underflows and Chinese numbering of 10000 or more indexes past its unit table.
- Image.Evict: removes the entry at the front of the cache order, where the source removes whichever key the HashMap yields first.
- Several unit tests in the source expect behaviour the code does not have, and the model follows the code. These are image.rs:1489-1509, 1532-1554 and 1614; footnote_endnote.rs:1258-1267, 1392-1405, 1469-1485 and 1568-1587; header_footer.rs:764-775, 821-829, 831-841 and 1028-1046; drag_selection.rs:1064-1083, 1127-1128 and 1175; find.rs:479-487 and 519-531; table.rs:1097-1119 and 1439-1472; ime.rs:750-772 and 863-886; export/pdf.rs:911.
- Kinsoku's tables list the ASCII `"` and `'` among the line-start-forbidden and CJK characters; the model follows the tables as written.
- The pair adjustment's byte range covers only the second character of the pair, as written.

## Findings

| source | as written | input that shows it | evidently intended | confidence | as-written member | corrected member |
|---|---|---|---|---|---|---|
| velum_core/src/undo_redo.rs:446-452 | when a new insert merges into the top undo record, the merged command is executed again on a document that already holds the first insert | empty document, insert "a" at 0, then "b" at 1 within the merge window: the document becomes "abab" and one undo leaves "ab" | execute only the new command and merge the records, giving "ab" and an undo back to "" | not executed; high | UndoRedo.MergeExecutesTwice | UndoRedo.MergedTypingUndoesTogether |
| velum_core/src/undo_redo.rs:200-207 | an insert at the same offset as the previous one is merged with its text after the previous text, although in the document it went in front of it | "a" at 0, then "b" at 0: the document reads "ba", the merged command inserts "ab", so an undo followed by a redo writes "ab" | undoing and redoing the merged record reproduces the document the two inserts left. The source's test at undo_redo.rs:705-717 asserts that "H" then "ello" at 0 merge to "Hello", so the text order as written is what that test expects; only the composition with the document is claimed here | not executed; low | UndoRedo.MergeSameOffsetReorders | UndoRedo.MergeFixedComposes |
| velum_core/src/find.rs:379-401 | `find_all_in_text` loops until a search finds nothing, but with wrapping on (the default) the search always finds the first match again | text "a", query "a", default options | collect each match once, searching without wrap-around | not executed; high | Find.FindAllWithWrapNeverStops | Find.FindAllInText |
| velum_core/src/find.rs:198-211 | after a backward whole-word hit that is not on a word boundary, the loop moves the start of the searched range to one before the rejected hit, keeping its end, so the same hit is found again | text "ab", whole-word query "b", searching backward from 2 | continue below the rejected hit and end with nothing found | not executed; high | Find.BackwardLoopRepeats | Find.BackwardWholeWordExampleFixed |
| velum_core/src/find.rs:236-238 | a forward whole-word search that rejects a hit not on a word boundary retries with wrap-around switched off, so an eligible occurrence before the starting point is never reached | text "b ab", whole-word query "b", wrapping search from 1: nothing is found, although a whole-word "b" sits at 0 | the retry keeps the caller's wrap-around, so the search finds the first eligible occurrence after the starting point, else the first in the text | not executed; medium | Find.WholeWordRetryDropsWrap | Find.SearchForwardCorrectedIsFirst |
| velum_core/src/drag_selection.rs:593-606 | on a text made only of separators, the word lookup returns the whole text | text " ", offset 0 | no word is found (the source's own test expects None) | not executed; high | DragSelection.SeparatorsOnlySelectAll | DragSelection.NoWordInSeparatorsFixed |
| velum_core/src/ime.rs:301-309 | `select_prev` steps back from the first candidate of a page onto the previous page while the current page stays shown | candidates a, b, c, pages of two, page 2 shown with c selected | refuse to step back past the page start | not executed; medium | Ime.SelectPrevLeavesPage | Ime.SelectPrevStaysOnPage |
| velum_core/src/footnote_endnote.rs:986-1036 | the Chinese numeral writes a leading 一 before 十 for 10 to 19 | 10 gives 一十 | 十 (the source's own tests expect 十) | not executed; high | FootnoteEndnote.ChineseTeensAsWritten | FootnoteEndnote.ChineseNumeralTeens |
| velum_core/src/header_footer.rs:652-692 | the Chinese page number appends the low digit first, so the place values come out reversed | 21 gives 一二十 | 二十一 | not executed; high | HeaderFooter.ChinesePageAsWrittenReversed | HeaderFooter.ChinesePageExamples |
| velum_core/src/header_footer.rs:144-149 | the Roman switch checks for "UPPER" in capitals only | field code `PAGE \* RomanUpper` gives lower-case Roman | upper-case Roman | not executed; high | HeaderFooter.RomanUpperSwitchAsWritten | HeaderFooter.RomanUpperSwitch |
| velum_core/src/header_footer.rs:163-174 | the DATE parser strips `@` and quotes but keeps the backslash of `\@` | `DATE \@ "yyyy"` gives the format `\ yyyy` | the picture `yyyy` | not executed; high | HeaderFooter.DateFormatAsWrittenKeepsBackslash | HeaderFooter.DateFormatOfPicture |
| velum_core/src/toc.rs:108 | the level font size computes `4 - level.min(9)` in unsigned arithmetic | level 5 underflows | sizes that keep shrinking, or stop, without a panic | not executed; high | Toc.LevelStyleAsWrittenOverflows | Toc.NewLevelStyleShape |
| velum_core/src/page_layout.rs:427-460 | when a paragraph overflows the last column of a page, the lines that do not fit are dropped | a three-line paragraph on a page with room for two lines | continue the paragraph on the next page | not executed; high | PageLayout.LayoutPagesDropsLines | PageLayout.LayoutPagesCorrected |
| velum_core/src/line_layout.rs:362 and 407 | an empty line's `offset_x` is the left indent in layout units, while a non-empty line's comes from `calculate_line_offset` in twips | one inch of left indent on a 400-unit-wide paragraph: the non-empty line is offset by 1440, past the right edge | every offset in layout units | not executed; medium | LineLayout.OffsetUnitsMismatch | LineLayout.OffsetUnitsFitLine |
| velum_core/src/image.rs:1123-1124 | BMP height is read at byte 14 and width at byte 18; byte 14 holds the info-header size and the height sits at byte 22 | a 2 by 3 bitmap decodes as 2 by 40 | read width at byte 18 and height at byte 22 | not executed; high | Image.LoadBmpHeightMisread | Image.LoadBmpHeightCorrected |
| velum_core/src/image.rs:767-781 | storing under a path already cached replaces the entry but adds its size again | loading the same 24-byte image twice under one path records 48 bytes | the recorded size equals the bytes held | not executed; high | Image.ReloadCountsTwice | Image.StoreCorrected |
| velum_core/src/ooxml/serializer.rs:678 | the theme part is written with the `officedocument.theme+xml` type, which `from_string` in types.rs:53 does not parse | the content type written for the theme part | the written theme type reads back as the theme | not executed; high | DocxPackage.ThemeTypeNotRecognised | DocxPackage.ReadContentTypeRoundTrip |
| velum_core/src/export/pdf.rs:471 | the bookmark stack is popped while the new bookmark is deeper than the top, instead of while the top is at least as deep | two level-1 chapters: the second becomes a child of the first; a level-2 section after a level-1 chapter gets no parent | each bookmark's parent is the nearest earlier bookmark of smaller level | not executed; high | PdfExport.SiblingsNested | PdfExport.ParentMapIsNearestShallower |
| velum_core/src/task_tracker.rs:223 | a new todo item's id is the list length plus one | add two items, remove the first, add a third: it gets id 2, already held by the second | ids that stay unique after removals | not executed; medium | TaskTracking.DuplicateIdAfterRemove | TaskTracking.AddCorrected |
