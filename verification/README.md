# Verification of the nv0ken applications and graphics server

A Dafny model of applications and of the graphics server of nv0ken, an operating system built from
scratch: the text editor's gap buffer, the terminal emulator, the compositor with its damage tracker
and pixel routines, the text area widget, the window server's message framing, and the browser's
chunked decoding and HTML parser. Each part comes as values and functions, with theorems over all
inputs and all runs, and as the loops, arrays and objects of the program, proved to compute those
functions.

`dafny verify dfyconfig.toml` checks the project.

| part | modules |
|---|---|
| text editor | `EditHistory`, `LineIndex`, `TextSearch`, `TextBuffer`, `Brackets` |
| terminal | `VtModel`, `VtInvariant`, `VtLayout`, `VtCommands`, `VtEffects`, `VtReplay`, `VtFlat`, `VtTerminal`, `VtSession` |
| graphics | `Damage`, `Colour`, `Pixmap`, `Scene`, `Compositor`, `Raster` |
| text area | `TextLines`, `TextArea` |
| window server | `IpcFraming` |
| browser | `Chunked`, `HtmlText`, `HtmlLexer`, `HtmlTree`, `HtmlSource`, `HtmlArena`, `HtmlParser` |
| shared | `Bytes`, `Numerals`, `Arith`, `Options` |

Where the program does not do what one would expect of it, the model follows the program and a
theorem says exactly when the expectation holds:

- Undo and redo are a faithful history if and only if the run stays within the undo stack's initial
  capacity, because later slots are read before they are written (`EditHistory.RunDefinedExactly`).
- Replacing all matches is defined if and only if the undo stack has room for its edits
  (`TextBuffer.ReplaceDefinedExactly`).
- `compositor_create_surface` returns the new id if and only if nothing lies above the new
  surface's layer (`Scene.CreatedIdExactly`).
- The damage bounding box holds all damage if and only if the tracker is not full
  (`Damage.BoxEnclosesExactly`).
- Setting and getting a text area's text gives the text back if and only if it does not end in a
  newline and fits the line array (`TextLines.SetThenGet`).
- Inserting into a text area stays within the line array if and only if the rows that can be reached
  fit (`TextLines.SlotsFreeExactly`).
- Scrolling leaves the rows outside its region alone if and only if the region is at least as high as
  the scroll is long or reaches the edge of the screen (`VtEffects.ScrollStaysExactly`).
- A message longer than the receive buffer is never dispatched: the messages before it are, and then a
  read into a full buffer ends the connection (`IpcFraming.StopsAtOversize`,
  `IpcFraming.OversizeDisconnects`). The length of a frame is computed right if and only if the sum
  fits a 32-bit `int` (`IpcFraming.TotalExactly`).
- The check of a chunk's size against the body's length is right if and only if the sum does not wrap
  around (`Chunked.EndExactly`).
- The tokenizer's branch for CDATA sections is never taken, because the doctype branch before it
  takes everything that starts with `!`; there is no such token in the model.

## Model

| member | source | states |
|---|---|---|
| `EditHistory.RunIsHistory` | apps/text_editor/buffer.c:182-225 | Every run of insert, delete, undo and redo from a new buffer that fits the undo stack is defined, and its text is the entry the reference history is at; the cursor stays inside the text |
| `EditHistory.StepTells` | apps/text_editor/buffer.c:568-625 | Each defined call moves document and reference history together: an effective edit adds an entry after dropping the redo tail, undo goes one entry back, redo one forward |
| `EditHistory.RunTells` | apps/text_editor/buffer.c:751-790 | The same over any sequence of calls from any state that tells its history |
| `EditHistory.UndoneRedone` | apps/text_editor/buffer.c:751-790 | Undoing a recorded edit restores the text before it, redoing it the text after it, and both leave the cursor inside |
| `EditHistory.UndosThenRedos` | apps/text_editor/buffer.c:751-790 | k undos show the text k entries back, and k redos after them restore text, depth and stack |
| `EditHistory.EditsThenUndos` | apps/text_editor/buffer.c:568-625 | Any effective edits are taken back exactly by as many undos |
| `EditHistory.EditDropsRedo` | apps/text_editor/buffer.c:182-188 | Redo right after a new edit does nothing |
| `EditHistory.RunDefinedExactly` | apps/text_editor/buffer.c:190-225 | A run touches only initialised undo slots if and only if its reference history stays within the initial capacity |
| `EditHistory.StepDefinedExactly` | apps/text_editor/buffer.c:190-225 | The same for one call: defined if and only if the history it starts from leaves room |
| `EditHistory.TooManyInserts` | apps/text_editor/buffer.c:205-212 | k insertions in a row are defined if and only if k is at most 257: the next one clears a grown slot that was never initialised |
| `EditHistory.CursorTracksInsert` | apps/text_editor/buffer.c:568-588 | After an insertion the cursor is inside the text, on the same character, with the same text before or after it |
| `EditHistory.CursorTracksDelete` | apps/text_editor/buffer.c:594-625 | After a deletion the cursor is inside the text; outside the range it keeps its character and inside it falls to the start |
| `EditHistory.QuietReplay` | apps/text_editor/buffer.c:751-790 | Undo and redo are the opposite and the same edit made without recording, with the cursor put at its place |
| `EditHistory.PushThenDelete` | apps/text_editor/buffer.c:594-625 | Recording a deletion before making it is the same as making it as one step |
| `LineIndex.LineStartsExact` | apps/text_editor/buffer.c:140-171 | The line table is strictly increasing and holds exactly the positions where a line starts |
| `LineIndex.LineStartsCount` | apps/text_editor/buffer.c:140-171 | It has one entry more than there are newlines, and entry k has k newlines before it |
| `LineIndex.BracketIsLine` | apps/text_editor/buffer.c:388-416 | An entry brackets a position if and only if it is the number of newlines before the position |
| `LineIndex.PositionRoundTrip` | apps/text_editor/buffer.c:388-433 | Position to (line, column) and back is the identity on every position of the text |
| `LineIndex.PosOfLine` | apps/text_editor/buffer.c:418-433 | Every valid (line, column) comes back from its position |
| `TextSearch.HitsUnique` | apps/text_editor/buffer.c:859-877 | The leftmost non-overlapping matches of a needle in a text, in either case mode, are unique |
| `TextSearch.HitsExist` | apps/text_editor/buffer.c:859-877 | Every text and non-empty needle has such a list of all matches |
| `TextSearch.ReplacedLength` | apps/text_editor/buffer.c:859-877 | The replaced text is longer by the length difference once for each match |
| `TextSearch.ReplaceOpsCount` | apps/text_editor/buffer.c:859-877 | Replacing makes two recorded edits for each match, or one when the replacement is empty |
| `TextBuffer.GapMovedLeft` | apps/text_editor/buffer.c:89-104 | Moving the gap left by one block move leaves the text seen around the gap unchanged |
| `TextBuffer.GapMovedRight` | apps/text_editor/buffer.c:89-104 | The same for moving it right |
| `TextBuffer.Buffer.constructor` | apps/text_editor/buffer.c:231-251 | A new buffer is empty with an initialised, empty undo stack |
| `TextBuffer.Buffer.GapMove` | apps/text_editor/buffer.c:89-104 | Moves the gap to any position, keeping its size and the text |
| `TextBuffer.Buffer.GapEnsure` | apps/text_editor/buffer.c:106-128 | Makes the gap as large as needed, keeping the text |
| `TextBuffer.Buffer.CharAt` | apps/text_editor/buffer.c:369-379 | The character seen through the gap is the character of the flat text, and NUL past its end |
| `TextBuffer.Buffer.UndoClearFrom` | apps/text_editor/buffer.c:182-188 | Every slot from `top` on becomes vacant, the others stay |
| `TextBuffer.Buffer.UndoPush` | apps/text_editor/buffer.c:190-225 | Records an edit after clearing the redo tail, growing the stack when it is full, unless an undo is under way |
| `TextBuffer.Buffer.Insert` | apps/text_editor/buffer.c:568-588 | Splices into the flat text at the clamped position, tracks the cursor and records the edit |
| `TextBuffer.Buffer.Delete` | apps/text_editor/buffer.c:594-625 | Cuts the clamped range out of the flat text, tracks the cursor and records the edit |
| `TextBuffer.Buffer.Undo` | apps/text_editor/buffer.c:751-768 | Is the undo step of the history model, and says whether there was anything to undo |
| `TextBuffer.Buffer.Redo` | apps/text_editor/buffer.c:770-790 | Is the redo step of the history model, and says whether there was anything to redo |
| `TextBuffer.Buffer.Perform` | apps/text_editor/buffer.c:568-790 | Any sequence of calls on the gap buffer computes the run of the history model |
| `TextBuffer.Session` | apps/text_editor/buffer.c:182-225 | A new gap buffer put through any calls that fit shows the entry its reference history is at |
| `TextBuffer.Buffer.LinesRebuild` | apps/text_editor/buffer.c:140-171 | The scan builds exactly the line table of the text |
| `TextBuffer.Buffer.LinesEnsure` | apps/text_editor/buffer.c:173-176 | Afterwards the table is that of the current text, rebuilt or not |
| `TextBuffer.Buffer.PosToLc` | apps/text_editor/buffer.c:388-416 | The binary search returns the number of newlines before the position, and the column in that line |
| `TextBuffer.Buffer.LcToPos` | apps/text_editor/buffer.c:418-433 | Returns the position of the clamped line and column |
| `TextBuffer.Buffer.Find` | apps/text_editor/buffer.c:796-824 | Returns the first match at or after `from`, and none only if there is none |
| `TextBuffer.Buffer.FindPrev` | apps/text_editor/buffer.c:826-857 | Returns the last match ending by `from`, in the text as it reads with NULs after its end, and none only if there is none |
| `TextBuffer.NextIsHit` | apps/text_editor/buffer.c:859-877 | Searching on from the end of the replaced part finds the next match of the original text, never one inside a replacement |
| `TextBuffer.Buffer.ReplaceAll` | apps/text_editor/buffer.c:859-877 | Terminates, and text and count are those of replacing all leftmost non-overlapping matches of the original text, in both case modes |
| `TextBuffer.ReplaceDefinedExactly` | apps/text_editor/buffer.c:859-877 | From any reachable state, the edits of a replace-all touch only initialised undo slots if and only if the undo stack has room for one record for each match, or two when the replacement is not empty |
| `EditHistory.EditsNeedRoom` | apps/text_editor/buffer.c:190-225 | Effective edits that are all defined had room for as many records |
| `TextBuffer.ReplaceAllUndone` | apps/text_editor/buffer.c:859-877 | As many undos as replace-all made edits restore the text |
| `Brackets.PairUnique` | apps/text_editor/editor.c:865-914 | A bracket is paired with at most one other by nesting level, from either side |
| `Brackets.MatchingIsInvolution` | apps/text_editor/editor.c:865-914 | If the search from p answers q then the search from q answers p |
| `Brackets.FindMatchingBracket` | apps/text_editor/editor.c:865-914 | The search under the cursor answers the bracket of the same pair, and none exactly when there is none |
| `VtInvariant.StepOk` | apps/terminal/vt100.c:679-786 | Every byte, in every parser state, keeps cursor, region, counters, scrollback and grid well formed |
| `VtInvariant.ResizeOk` | apps/terminal/vt100.c:855-892 | So does every resize |
| `VtInvariant.StreamKeepsBounds` | apps/terminal/vt100.c:128-786 | From a new terminal, after any bytes interleaved with any resizes, the cursor is in the grid, 0 <= top <= bottom < rows, the scrollback within its capacity and every counter within its array |
| `VtInvariant.FeedAppend` | apps/terminal/vt100.c:679-786 | Feeding two pieces one after the other is feeding them at once |
| `VtLayout.LayoutTheorem` | apps/terminal/vt100.c:128-239 | For any printable text with CR-LF breaks, the rows scrolled off followed by the screen rows are the pure layout padded with blank rows, and the scrollback is the newest of the rows scrolled off, up to its capacity |
| `VtLayout.FeedShows` | apps/terminal/vt100.c:679-737 | After any such text the terminal shows its layout, with the cursor after the last glyph and a wrap pending exactly when its row is full |
| `VtLayout.NextLineShows` | apps/terminal/vt100.c:198-206 | Going to the next line adds an empty row to the layout, scrolling or not |
| `VtLayout.PutShows` | apps/terminal/vt100.c:212-239 | A glyph written to a row that is not full extends that row |
| `VtLayout.WrapShows` | apps/terminal/vt100.c:212-239 | A glyph written with a wrap pending starts a new row |
| `VtLayout.PiecesGrow` | apps/terminal/vt100.c:212-239 | Cutting a line into column-wide pieces can be done one glyph at a time |
| `VtLayout.LayoutGrows` | apps/terminal/vt100.c:198-239 | So can the layout of a whole text |
| `VtCommands.CommandRead` | apps/terminal/vt100.c:659-786 | A control sequence with up to 16 decimal parameters is carried out with exactly the parameters it was written with, from any state of the screen |
| `VtCommands.ReadParams` | apps/terminal/vt100.c:659-677 | Written parameters are read back, one slot each |
| `VtCommands.MovesTo` | apps/terminal/vt100.c:394-397 | Cursor addressing goes where it says, counting from one, or to the nearest place on the screen, and changes nothing else |
| `VtCommands.Moves` | apps/terminal/vt100.c:371-392 | Moves by rows, columns and lines, and to a column or a row, sent as bytes, go where they say or to the nearest place, and leave the screen alone |
| `VtCommands.SaveMoveRestore` | apps/terminal/vt100.c:595-602 | Saving the cursor, moving it anywhere and restoring it brings it back |
| `VtCommands.UpThenDown` | apps/terminal/vt100.c:371-376 | Up n and down n comes back if and only if the top was not hit or the start was the last row |
| `VtCommands.ErasesAll` | apps/terminal/vt100.c:414-421 | Erasing the whole display blanks every cell in the current colours and leaves the cursor; with parameter 3 it empties the scrollback too, with 2 it keeps it |
| `VtCommands.PenSelected` | apps/terminal/vt100.c:245-354 | Every pen, with any colours and attributes, is selected by its rendition codes, whatever pen was in use |
| `VtCommands.SelectsPen` | apps/terminal/vt100.c:496-498 | Sent as bytes, the codes of a pen select it and change nothing else |
| `VtCommands.Redraws` | apps/terminal/vt100.c:212-239 | Any screen of drawable cells can be drawn by bytes on any terminal of its size, whatever that showed, without scrolling |
| `VtEffects.ErasesInLine` | apps/terminal/vt100.c:425-437 | Erasing in the line, sent as bytes, blanks exactly the cells from the cursor on, up to it, or all of its row, and moves nothing |
| `VtEffects.ErasesInDisplay` | apps/terminal/vt100.c:404-413 | Erasing in the display blanks exactly the cells at or after the cursor in reading order, or at or before it |
| `VtEffects.ErasesChars` | apps/terminal/vt100.c:482-484 | Erasing n characters blanks exactly n cells from the cursor on, within the row |
| `VtEffects.DeletesChars` | apps/terminal/vt100.c:447-459 | Deleting characters moves the rest of the row left over them, blanks the freed end and changes no other cell |
| `VtEffects.InsertsChars` | apps/terminal/vt100.c:461-473 | Inserting characters moves the rest of the row right, blanks the gap and changes no other cell |
| `VtEffects.ScrollsUp` | apps/terminal/vt100.c:154-165 | Deleting lines and scrolling up by any n: which row each row shows afterwards, and the top row pushed n times |
| `VtEffects.ScrollsDown` | apps/terminal/vt100.c:167-174 | Inserting lines and scrolling down by any n: which row each row shows afterwards, and the scrollback kept |
| `VtEffects.ScrollStaysExactly` | apps/terminal/vt100.c:154-174 | Rows outside the region keep their contents, whatever these are, if and only if n is at most the height of the region or the region reaches the edge that is blanked past |
| `VtEffects.SetsRegion` | apps/terminal/vt100.c:500-512 | Setting the region takes rows counted from one, cut to the screen, or the whole screen when none are left, and homes the cursor |
| `VtEffects.Tabs` | apps/terminal/vt100.c:399-402 | Forward tabs go to the n-th next multiple of eight or the last column; a back tab, whatever its parameter, to the last multiple of eight before the cursor |
| `VtEffects.SetsMode` | apps/terminal/vt100.c:514-590 | Mode 4 turns insertion on and off, and no other number does anything |
| `VtReplay.StepInk` | apps/terminal/vt100.c:679-786 | Every byte keeps all cells and the pen drawable |
| `VtReplay.Replays` | apps/terminal/vt100.c:128-892 | The screen after any bytes and resizes, written out as bytes and fed to any other terminal of its size, is the same screen there |
| `VtFlat.RowsCopied` | apps/terminal/vt100.c:154-174 | Moving a block of the cell array moves whole rows of the grid |
| `VtFlat.RowCellsCopied` | apps/terminal/vt100.c:212-239 | Moving cells within a row changes that row only |
| `VtFlat.CellStored` | apps/terminal/vt100.c:101-106 | Writing one cell changes one cell of the grid, and every cell address is inside the array |
| `VtTerminal.RingPushed` | apps/terminal/vt100.c:128-148 | Writing at the computed slot and moving the head makes the ring hold the list with the row added and, when full, the oldest dropped |
| `VtTerminal.Terminal.constructor` | apps/terminal/vt100.c:792-838 | A new terminal is the new state of the model: blank screen, empty ring, whole-screen region |
| `VtTerminal.Terminal.ClearLine` | apps/terminal/vt100.c:108-117 | Blanks exactly the given columns of a row that is on the screen |
| `VtTerminal.Terminal.ClearRows` | apps/terminal/vt100.c:119-122 | Blanks exactly the given rows that are on the screen |
| `VtTerminal.Terminal.PushLine` | apps/terminal/vt100.c:128-148 | Appends a row to the scrollback, dropping the oldest when it is full |
| `VtTerminal.Terminal.ScrollUp` | apps/terminal/vt100.c:154-165 | Moves the region up in place, blanks what is freed and pushes the top row once for each line |
| `VtTerminal.Terminal.ScrollDown` | apps/terminal/vt100.c:167-174 | Moves the region down in place and blanks what is freed |
| `VtTerminal.Terminal.CursorMove` | apps/terminal/vt100.c:180-196 | Puts the cursor at the clamped place and drops a pending wrap |
| `VtTerminal.Terminal.NextLine` | apps/terminal/vt100.c:198-206 | Goes one row down, or scrolls the region at its bottom row |
| `VtTerminal.Terminal.PutChar` | apps/terminal/vt100.c:212-239 | Wraps when pending, opens a gap in insert mode, writes the cell and advances or leaves a wrap pending |
| `VtTerminal.Terminal.ApplySgr` | apps/terminal/vt100.c:245-354 | The pen after all rendition parameters, extended colours taking theirs along |
| `VtTerminal.Terminal.SetRegion` | apps/terminal/vt100.c:500-510 | Sets the scrolling region, or the whole screen when the bounds make none |
| `VtTerminal.Terminal.EraseDisplay` | apps/terminal/vt100.c:404-423 | Erases below, above, all, or all with the scrollback |
| `VtTerminal.Terminal.EraseLine` | apps/terminal/vt100.c:425-437 | Erases right, left or all of the cursor's row |
| `VtTerminal.Terminal.DispatchCsi` | apps/terminal/vt100.c:366-607 | Does what the model says for every final byte |
| `VtTerminal.Terminal.DispatchEsc` | apps/terminal/vt100.c:613-647 | Does what the model says for every final byte |
| `VtTerminal.Terminal.ParserReset` | apps/terminal/vt100.c:659-665 | Clears parameters and intermediates |
| `VtTerminal.Terminal.PushDigit` | apps/terminal/vt100.c:667-672 | Adds a digit to the current parameter, in the slot the count gives |
| `VtTerminal.Terminal.ControlStep` | apps/terminal/vt100.c:699-737 | Control characters and printable bytes in the ground state |
| `VtTerminal.Terminal.EscapeStep` | apps/terminal/vt100.c:739-758 | A byte after an escape |
| `VtTerminal.Terminal.CsiStep` | apps/terminal/vt100.c:760-779 | A byte in a control sequence |
| `VtTerminal.Terminal.OscStep` | apps/terminal/vt100.c:683-696 | A byte in an operating system command, never past its buffer |
| `VtTerminal.Terminal.Feed` | apps/terminal/vt100.c:679-786 | The arrays and indices after any stream are those of the model's state, and stay valid |
| `VtTerminal.Terminal.Resize` | apps/terminal/vt100.c:855-892 | Copies the part of the screen that fits, clamps the cursor, resets the region and keeps the scrollback |
| `VtTerminal.Terminal.ScrollbackLine` | apps/terminal/vt100.c:904-911 | Row `index` counting from the newest, found exactly when there is one |
| `VtSession.Show` | apps/terminal/vt100.c:128-239 | A new terminal object fed any printable text shows its layout on its cell array and ring |
| `VtSession.ShowScrollback` | apps/terminal/vt100.c:904-911 | After it, scrollback line `index` is the row scrolled off `index` rows before the last |
| `Damage.ClampedIsExact` | graphics/server/damage.c:18-25 | Clamping keeps exactly the pixels on the surface |
| `Damage.OverlapIsSharedPixel` | graphics/server/damage.c:27-30 | Two non-empty rectangles overlap if and only if they share a pixel |
| `Damage.UnionIsLeast` | graphics/server/damage.c:32-39 | The union of two non-empty rectangles holds every pixel of both, and all its pixels lie in every rectangle that holds both |
| `Damage.AddedCovers` | graphics/server/damage.c:50-78 | Adding keeps all covered pixels and covers the part of the rectangle on the surface |
| `Damage.NothingIsLost` | graphics/server/damage.c:50-123 | Over every run of add, add-full, merge, clip and reset, each pixel asked for since the last reset and still on the surface is covered; stored rectangles are non-empty, inside the surface and within their array |
| `Damage.ClippedIsExact` | graphics/server/damage.c:110-123 | Clipping keeps exactly the covered pixels inside the new size; a full tracker covers all of it |
| `Damage.BoxIsLeast` | graphics/server/damage.c:125-138 | While the tracker is not full, a rectangle holds every covered pixel if and only if it holds every pixel of the bounding box |
| `Damage.BoxEnclosesExactly` | graphics/server/damage.c:125-138 | The box holds every covered pixel if and only if the tracker is not full or has no surface: once full the box is empty |
| `Damage.DamageTracker.constructor` | graphics/server/damage.c:5-10 | A new tracker covers nothing |
| `Damage.DamageTracker.AddRect` | graphics/server/damage.c:50-78 | Merges with the first rectangle it should, appends, or goes full, in the array |
| `Damage.DamageTracker.AddFull` | graphics/server/damage.c:80-84 | Marks everything damaged |
| `Damage.DamageTracker.Reset` | graphics/server/damage.c:12-16 | Forgets all damage |
| `Damage.DamageTracker.MergeFrom` | graphics/server/damage.c:103-108 | Adds everything another tracker has, in order; a tracker may be merged into itself, while its own rectangles grow |
| `Damage.AddedOwnCovers` | graphics/server/damage.c:103-108 | A tracker merged into itself covers what it covered |
| `Damage.OwnKeepsBox` | graphics/server/damage.c:103-108 | and keeps its bounding box |
| `Damage.DamageTracker.ClipTo` | graphics/server/damage.c:110-123 | Deleting while iterating leaves exactly the clipped non-empty rectangles, in order |
| `Damage.DamageTracker.BoundingBox` | graphics/server/damage.c:125-138 | Returns the least rectangle around the stored rectangles, or the empty one when there are none |
| `Colour.Mix` | graphics/draw/color.h:53-63 | A blended channel lies between the two channels it mixes |
| `Colour.MixAlpha` | graphics/draw/color.h:53-63 | A blended alpha is a byte, never below the source's |
| `Pixmap.FillRect` | graphics/draw/draw.c:113-136 | Blends the colour into exactly the pixels of the rectangle that lie on the surface |
| `Pixmap.Blit` | graphics/draw/draw.c:57-73 | Copies exactly the pixels whose two ends lie in the rectangle and on both surfaces, for any offsets |
| `Pixmap.ClipSpan` | graphics/draw/draw.c:57-73 | Clipping one axis leaves exactly the span with both ends on the surfaces, and in bounds |
| `Scene.IncrementalIsComplete` | graphics/server/compositor.c:81-342 | From any framebuffer contents and over every sequence of create, destroy, move, resize, set-alpha, show, hide, draw, damage and composite calls, a composite leaves every pixel under an opaque surface equal to the z-ordered blend of the whole scene |
| `Scene.StepStays` | graphics/server/compositor.c:81-260 | Every call keeps pixels under an opaque surface right outside the pending damage, unless a full redraw is pending |
| `Scene.CompositedIsRight` | graphics/server/compositor.c:327-342 | After compositing, every pixel under an opaque surface is right and nothing is pending |
| `Scene.BelowIsHidden` | graphics/server/compositor.c:275-325 | Under an opaque visible surface the blend does not depend on what was there before |
| `Scene.DamagedCovers` | graphics/server/compositor.c:228-260 | Pending damage keeps its pixels and takes in the new rectangle, unless it turns into a full redraw |
| `Scene.SortSorts` | graphics/server/compositor.c:69-79 | The insertion sort puts surfaces in z order and permutes them |
| `Scene.SortedIsFixed` | graphics/server/compositor.c:69-79 | It leaves sorted surfaces alone |
| `Scene.InsertSplits` | graphics/server/compositor.c:69-79 | An inserted surface goes before exactly those above it |
| `Scene.CreatedGood` | graphics/server/compositor.c:81-112 | Creating keeps surfaces sorted, ids distinct and buffers sized |
| `Scene.CreatedIdExactly` | graphics/server/compositor.c:109-111 | The id create returns is the new surface's if and only if no surface lies above its layer's base |
| `Scene.AlteredStays` | graphics/server/compositor.c:163-194 | Changing a surface in place and damaging its frame keeps everything else right |
| `Scene.ShiftedStays` | graphics/server/compositor.c:134-161 | So does moving or resizing it, damaging old and new frame |
| `Scene.DestroyedStays` | graphics/server/compositor.c:114-132 | So does removing it |
| `Scene.NewIsRepainted` | graphics/server/compositor.c:31-48 | A new compositor starts with a full redraw pending |
| `Compositor.Compositor.constructor` | graphics/server/compositor.c:31-48 | Takes over a framebuffer of any contents |
| `Compositor.Compositor.FindSurface` | graphics/server/compositor.c:63-67 | Returns the slot of the first surface with the id |
| `Compositor.Compositor.SortSurfaces` | graphics/server/compositor.c:69-79 | Sorts the slots in place as the stable insertion sort of the model does |
| `Compositor.Compositor.DamageRect` | graphics/server/compositor.c:228-260 | Clips, joins or appends a rectangle, or asks for a full redraw when there is no room |
| `Compositor.Compositor.DrawSurface` | graphics/server/compositor.c:288-322 | Draws one surface into a region of the back buffer, pixel by pixel what the model puts over it |
| `Compositor.BlendRect` | graphics/server/compositor.c:307-320 | Blends the part of a translucent surface inside a rectangle, its pixels faded by the surface alpha |
| `Compositor.Compositor.CompositeRegion` | graphics/server/compositor.c:275-325 | Clears and redraws a region of the back buffer and presents it |
| `Compositor.Compositor.Composite` | graphics/server/compositor.c:327-342 | Repaints everything or only the damage, and clears what was pending |
| `Compositor.Compositor.Create` | graphics/server/compositor.c:81-112 | Is the model's create step; the id returned is read from the filled slot after sorting |
| `Compositor.Compositor.Destroy` | graphics/server/compositor.c:114-132 | Is the model's destroy step |
| `Compositor.Compositor.Move` | graphics/server/compositor.c:134-144 | Is the model's move step |
| `Compositor.Compositor.Resize` | graphics/server/compositor.c:146-161 | Is the model's resize step: a blank buffer of the new size |
| `Compositor.Compositor.SetAlpha` | graphics/server/compositor.c:163-171 | Is the model's alpha step, clipped to a byte |
| `Compositor.Compositor.Show` | graphics/server/compositor.c:173-183 | Is the model's show step |
| `Compositor.Compositor.Hide` | graphics/server/compositor.c:185-194 | Is the model's hide step |
| `Compositor.Compositor.DrawAndDamage` | graphics/server/compositor.c:262-269 | A client fills its buffer and damages its surface |
| `Compositor.Session` | graphics/server/compositor.c:81-342 | A framebuffer array of any contents, put through any calls and a final composite, ends in exactly the state of the run of those calls, and shows its scene wherever an opaque surface lies |
| `TextLines.InsertRefinesSplice` | graphics/widgets/textarea.c:340-373 | Inserting a text at a (row, column) inserts it at that place of the flat text |
| `TextLines.RemoveRefinesCut` | graphics/widgets/textarea.c:375-408 | Removing a range of (row, column)s removes that range of the flat text |
| `TextLines.RemoveThenInsert` | graphics/widgets/textarea.c:340-408 | Putting a removed selection back where it was restores every line |
| `TextLines.BetweenIsSlice` | graphics/widgets/textarea.c:639-666 | The selected text is the slice of the flat text between the two places |
| `TextLines.LinedInjective` | graphics/widgets/textarea.c:230-245 | Lines without newlines in them are determined by the flat text |
| `TextLines.SetThenGet` | graphics/widgets/textarea.c:204-245 | A text set and read back is the same if and only if it does not end in a newline and fits the line array |
| `TextLines.LoadedExactly` | graphics/widgets/textarea.c:204-228 | The same for loading into any number of free lines |
| `TextLines.SlotsFreeExactly` | graphics/widgets/textarea.c:346-357 | Every line broken while inserting finds a free slot if and only if the rows that can be reached fit the array; at the last line it always does |
| `TextLines.PasteBack` | graphics/widgets/textarea.c:340-408 | A removed selection can always be put back: typing it where it was makes the old lines and needs no slot past the array |
| `TextLines.TypedAllCount` | graphics/widgets/textarea.c:346-357 | Inserting adds as many lines as the text has newlines |
| `TextArea.Textarea.ClampPos` | graphics/widgets/textarea.c:263-269 | Moves a position to the nearest place in the text, and leaves one inside alone |
| `TextArea.Textarea.SplitLine` | graphics/widgets/textarea.c:350-364 | Breaking a line in the array is typing a newline |
| `TextArea.Textarea.InsertAt` | graphics/widgets/textarea.c:340-373 | Types the text at the clamped position, up to the newline that would leave the array |
| `TextArea.Textarea.DeleteRange` | graphics/widgets/textarea.c:375-408 | Removes the clamped range in the array, and nothing when it is empty or reversed |
| `TextArea.Textarea.SelectedText` | graphics/widgets/textarea.c:639-666 | Returns the text between mark and cursor, whichever comes first |
| `TextArea.Textarea.GetText` | graphics/widgets/textarea.c:230-245 | Returns the lines joined by newlines |
| `TextArea.Textarea.SetText` | graphics/widgets/textarea.c:204-228 | Loads a text line by line into the array |
| `TextArea.Textarea.CutSelection` | graphics/widgets/textarea.c:374-408 | Cutting returns the selected text, whichever end is the cursor, and leaves the lines without it |
| `TextArea.Textarea.CutAndPaste` | graphics/widgets/textarea.c:340-408 | Cutting the selection, in either direction, returns the text between its ends, and inserting that again leaves every line as it was |
| `Raster.DrawPixel` | graphics/draw/draw.c:96-102 | Changes exactly the given pixel, and nothing off the surface |
| `Raster.LineMeets` | graphics/draw/draw.c:253-266 | The line starts at one endpoint, ends at the other, and every point is within half a pixel of the ideal line |
| `Raster.LineUnique` | graphics/draw/draw.c:253-266 | There is only one such line between two endpoints |
| `Raster.LineStep` | graphics/draw/draw.c:253-266 | One turn keeps the error term exact and moves the longer axis by one, never past its end |
| `Raster.StaysInside` | graphics/draw/draw.c:253-266 | Neither axis runs past its end and both arrive together |
| `Raster.DrawLine` | graphics/draw/draw.c:253-266 | Terminates for any endpoints and plots exactly that line, max(dx, dy) + 1 points |
| `Raster.CircleStep` | graphics/draw/draw.c:291-303 | One turn keeps the decision term exact and the point the nearest to the circle in its column |
| `Raster.OctantExact` | graphics/draw/draw.c:291-303 | The octant points are all the points up to the diagonal with -y <= x^2 + y^2 - r^2 < y, and no others |
| `Raster.DrawCircle` | graphics/draw/draw.c:291-303 | Terminates and plots exactly the eight reflections of the exact octant, and nothing for r <= 0 |
| `IpcFraming.Session` | graphics/server/ipc_server.c:223-266 | However reads of any sizes cut a stream of any sendable messages, bytes read and connection are the stated function of the two; what is dispatched is exactly the complete frames so far, in order, and the rest is kept; with all messages fitting the buffer and enough bytes asked for, all are dispatched |
| `IpcFraming.Deliver` | graphics/server/ipc_server.c:229-266 | One poll reads what is there, as far as the buffer has room, and dispatches it; with no room at all it ends the connection |
| `IpcFraming.PollsProgress` | graphics/server/ipc_server.c:229-266 | While the connection is open, each positive read has brought at least one byte, until all have arrived |
| `IpcFraming.FittingStaysOpen` | graphics/server/ipc_server.c:229-266 | Messages that fit the buffer never end the connection |
| `IpcFraming.AllDispatched` | graphics/server/ipc_server.c:229-266 | Enough positive reads bring every fitting message |
| `IpcFraming.StopsAtOversize` | graphics/server/ipc_server.c:253-266 | Only messages before the first one longer than the buffer ever become complete; no more is read than fills the buffer, and the connection ends only once all before it are complete |
| `IpcFraming.OversizeDisconnects` | graphics/server/ipc_server.c:234-248 | Enough positive reads fill the buffer with its beginning, and the next read, of no bytes, ends the connection |
| `IpcFraming.TotalExactly` | graphics/server/ipc_server.c:256-256 | The sum for the length of a frame is right if and only if the announced length is below 0x7FFFFFF8; from there on it wraps to less than a header |
| `IpcFraming.DrainStream` | graphics/server/ipc_server.c:223-266 | Any beginning of a stream of frames yields the complete ones and leaves the rest |
| `IpcFraming.DrainAppend` | graphics/server/ipc_server.c:223-266 | Draining in two goes is draining at once |
| `IpcFraming.RestLeavesRoom` | graphics/server/ipc_server.c:253-266 | What is left is no complete frame, and fills the buffer only if its header announces more than the buffer holds |
| `IpcFraming.FrameFirst` | graphics/server/ipc_server.c:56-64 | The header a message is sent with is read back as its type and length, and its payload follows |
| `IpcFraming.CompleteExactly` | graphics/server/ipc_server.c:223-266 | The count of complete frames is the largest whose bytes have all arrived |
| `IpcFraming.PartialFrame` | graphics/server/ipc_server.c:253-257 | A proper beginning of a frame dispatches nothing and is kept |
| `IpcFraming.Client.Append` | graphics/server/ipc_server.c:250-251 | Appends what a read returned to the receive buffer |
| `IpcFraming.Client.Consume` | graphics/server/ipc_server.c:262-264 | Moves the bytes after a message to the front |
| `IpcFraming.Client.DispatchAll` | graphics/server/ipc_server.c:253-265 | Dispatches every complete message in the buffer and keeps the rest |
| `IpcFraming.Client.Poll` | graphics/server/ipc_server.c:229-265 | One poll: data that was read is appended and dispatched, no data is passed over, and end of file or an error closes the client |
| `Chunked.RoundTrip` | apps/browser/http_client.c:512-537 | Decoding the chunked encoding (section 7.1 of RFC 9112) of any non-empty chunks, with any extensions, stays in bounds and gives their concatenation |
| `Chunked.DecodeTruncated` | apps/browser/http_client.c:512-537 | Decoding any beginning of that encoding stays in bounds and gives exactly the chunks whose data has all arrived |
| `Chunked.EndExactly` | apps/browser/http_client.c:527-527 | In 64-bit arithmetic the check passes if and only if the data ends within the body or its size makes the sum wrap around |
| `Chunked.SmallSizes` | apps/browser/http_client.c:523-527 | No size below half of memory makes it wrap |
| `Chunked.TruncationIsPrefix` | apps/browser/http_client.c:512-537 | Those are a prefix of the payload |
| `Chunked.ChunkExists` | apps/browser/http_client.c:523-523 | Any data can be sent in a chunk: its size in hexadecimal is read back |
| `Chunked.HeaderOf` | apps/browser/http_client.c:519-527 | A size line is read as it was written, whatever follows it |
| `Chunked.DecodeWhole` | apps/browser/http_client.c:519-531 | A chunk that is all there is decoded, whatever follows it |
| `Chunked.DecodePart` | apps/browser/http_client.c:520-527 | A chunk cut off before the end of its data yields nothing |
| `Chunked.Decoded` | apps/browser/http_client.c:512-537 | What is decoded from bytes whose size lines do not wrap is never more than was given, so the output buffer is large enough |
| `Chunked.Decode` | apps/browser/http_client.c:512-537 | For any bytes none of whose size lines wraps, with the blanks, sign, prefix and saturation of strtoul, the loop fills its buffer with exactly that, within bounds, and ends |
| `HtmlText.DecodeEscaped` | apps/browser/html_parser.c:208-230 | Decoding character references undoes escaping, for every text |
| `HtmlText.EscapedIsPlain` | apps/browser/html_parser.c:171-230 | An escaped text has no markup in it |
| `HtmlText.NumericReference` | apps/browser/html_parser.c:171-196 | A decimal or hexadecimal reference stands for its character when it is ASCII and not NUL, and for none otherwise |
| `HtmlText.ReferenceRead` | apps/browser/html_parser.c:208-224 | A reference by a name of up to fifteen characters is read as its character, up to its semicolon |
| `HtmlText.DecodeText` | apps/browser/html_parser.c:208-230 | The loop replaces exactly the references, left to right |
| `HtmlLexer.Next` | apps/browser/html_parser.c:470-489 | Every token before the end of input takes at least one byte and none reaches past the end, through comments, doctypes, tags and attributes |
| `HtmlLexer.AttrValue` | apps/browser/html_parser.c:335-359 | Reading a value never goes back or past the end |
| `HtmlLexer.Attributes` | apps/browser/html_parser.c:434-464 | Reading attributes stops on every input, at a place not past the end |
| `HtmlLexer.Lexer.ReadTagName` | apps/browser/html_parser.c:320-333 | Takes the longest run of name characters, in lower case |
| `HtmlLexer.Lexer.ReadAttrValue` | apps/browser/html_parser.c:335-359 | Reads a quoted, bare or missing value |
| `HtmlLexer.Lexer.ReadAttributes` | apps/browser/html_parser.c:434-464 | Reads attributes up to `>`, a `/`, a NUL or the end of input |
| `HtmlLexer.Lexer.ReadComment` | apps/browser/html_parser.c:368-382 | Takes a comment up to its end mark, or up to two bytes before the end of input |
| `HtmlLexer.Lexer.ReadMarkup` | apps/browser/html_parser.c:361-468 | Reads a comment, doctype, start tag or end tag, or skips markup without a name |
| `HtmlLexer.Lexer.ReadToken` | apps/browser/html_parser.c:470-489 | The token read and the place reached are those of the lexing function |
| `HtmlLexer.Lexer.ReadRaw` | apps/browser/html_parser.c:546-568 | Takes raw text up to the first end tag of its element, and the end tag |
| `HtmlTree.AllRebuilt` | apps/browser/html_parser.c:570-643 | The tokens of any forest, with void and raw-text elements, comments and non-blank texts, build that forest where the page stands and leave open what was open |
| `HtmlTree.Rebuilt` | apps/browser/html_parser.c:570-643 | The same for one tree |
| `HtmlTree.ClosedIsInnermost` | apps/browser/html_parser.c:537-544 | An end tag closes down to the innermost open element of its name, case aside, and closes nothing when none has it |
| `HtmlTree.Build` | apps/browser/html_parser.c:570-643 | Every token leaves the open elements a path of last children from the root |
| `HtmlTree.AddedOpens` | apps/browser/html_parser.c:609-630 | A new element becomes the end of that path |
| `HtmlSource.HtmlRead` | apps/browser/html_parser.c:361-643 | Parsing the HTML of any expressible page gives the page back with nothing left open |
| `HtmlSource.PiecesRead` | apps/browser/html_parser.c:470-643 | Parsing written tokens does what the tokens do |
| `HtmlSource.TextRead` | apps/browser/html_parser.c:478-489 | A written text is read as one token, if markup or the end follows |
| `HtmlSource.CommentRead` | apps/browser/html_parser.c:364-384 | A written comment is read back |
| `HtmlSource.StartTagRead` | apps/browser/html_parser.c:413-468 | A written start tag is read back with all its attributes |
| `HtmlSource.EndTagRead` | apps/browser/html_parser.c:413-468 | A written end tag is read back |
| `HtmlSource.RawRead` | apps/browser/html_parser.c:546-568 | Written raw text ends at its own end tag |
| `HtmlSource.Parsed` | apps/browser/html_parser.c:570-643 | Parsing is defined on every byte string and always leaves a path of open elements |
| `HtmlArena.GrownAt` | apps/browser/html_parser.c:154-165 | Linking a new record under the innermost open element adds its tree at that depth of the whole tree |
| `HtmlArena.PathOf` | apps/browser/html_parser.c:521-535 | The records on the stack are a path of last children of the tree they form |
| `HtmlArena.OpenOf` | apps/browser/html_parser.c:521-544 | The record at each stack place is the open element at that depth |
| `HtmlArena.SameTree` | apps/browser/html_parser.c:154-165 | A tree made of unchanged records is unchanged |
| `HtmlParser.Parser.constructor` | apps/browser/html_parser.c:649-671 | A new parser has an empty document and nothing open |
| `HtmlParser.Parser.AddChild` | apps/browser/html_parser.c:154-165 | Making a record the last child of the end of a path adds a tree there and keeps the path |
| `HtmlParser.Parser.OpenElement` | apps/browser/html_parser.c:609-630 | Adds an element and pushes it |
| `HtmlParser.Parser.AddRawElement` | apps/browser/html_parser.c:620-628 | Adds a raw-text element with its text and leaves it closed |
| `HtmlParser.Parser.CloseElement` | apps/browser/html_parser.c:537-544 | Pops the stack to below the innermost element of the name |
| `HtmlParser.Parser.Take` | apps/browser/html_parser.c:576-642 | Does to the records what the token does to the tree |
| `HtmlParser.Parser.Turn` | apps/browser/html_parser.c:571-642 | Takes one token, at least one byte of input unless it was the end |
| `HtmlParser.Parser.Run` | apps/browser/html_parser.c:570-643 | Terminates on every byte string with the tree of the parsing function |
| `HtmlParser.Parse` | apps/browser/html_parser.c:649-678 | Parses any input, and gives no document for an empty one |
| `HtmlParser.Reparse` | apps/browser/html_parser.c:649-678 | Parsing the HTML of a page into linked records gives the page |

## Left out

- Storage: allocation always succeeds, freed memory is not tracked, and integers are mathematical; 32-bit and `size_t` overflow are not modelled, except that colour channels, bytes, message headers and chunk sizes have their width.
- Undo runs past the undo stack's initial capacity: their effect is not modelled, only which runs they are.
- Loading and saving a buffer, its clipboard, selection, word and line movement, and `buffer_paste`, whose cursor is advanced twice.
- `buffer_line_end`, `buffer_line_length` and `buffer_line_text`, whose end falls before the start on an empty last line.
- The rest of the editor: command wrappers over the buffer.
- The terminal's private modes and alternate screen, which no byte stream reaches because `?` never becomes an intermediate.
- VtTerminal.Terminal.DispatchCsi: states agreement with the model; what each final byte then does is stated by the theorems of `VtCommands` and `VtEffects`, except `f`, which is addressing under another name, and what the program ignores.
- `compositor_raise_surface` and `compositor_lower_surface`: they damage the slot index found before sorting, so the repaint theorem does not cover them.
- Compositor.Compositor.DrawAndDamage: a client's pixel buffer is a value replaced as a whole, not shared memory, and rows have no padding beyond their width.
- Scene.IncrementalIsComplete: says nothing of pixels under no opaque surface, because the background colour has alpha 0x1A and blends with what was there.
- Pixmap.Blit: source and destination are different surfaces.
- Filled and rounded shapes, ellipses, triangles, gradients, image scaling, fonts, and drawing with floating point, whose point is its rounding.
- The text area's own undo, which does not record indenting, line deletion and some newlines; its drawing, scrolling and events.
- TextArea.Textarea.InsertAt: when a line is broken with the array full but a row below free, the program writes past the array; the model requires that this does not happen, and says exactly when.
- The window server's sockets, client table and the effect of each message type; words are little-endian.
- IpcFraming.Client.Poll: a header that announces 0x7FFFFFF8 bytes or more makes the frame length less than a header, which the program takes as a complete frame; what it then does is not modelled, and which headers they are is exact. Messages longer than the buffer are modelled.
- Chunked.Decode: a size line that makes the sum wrap around copies past the body; this is not modelled, and which size lines they are is exact. Bodies are shorter than 2^63 bytes, as every object is.
- The rest of the HTTP client, and the selectors, queries and dumps of the HTML tree: they only read, or talk to the network.
- HtmlParser.Parser.AddChild: a node is known by the place it was allocated at, not by an address; parent links, which nothing modelled reads, are left out.
- HtmlSource.HtmlRead: an expressible page has lower-case names, attribute values without both kinds of quotes, no NUL, no two texts side by side, and no end mark inside a comment or raw text; for other pages no written form is given.
- Syntax colouring, file operations, the desktop, the kernel boot and monitor code: user interface, input and output, or code that only calls what cannot be seen.
