# ImTui ncurses backend — a verified model

ImTui draws Dear ImGui interfaces in a text terminal. Its ncurses backend
(`src/imtui-impl-ncurses.cpp`) does three things, and this project models
each of them in Dafny:

- **Input decoding** (`ImTui_ImplNcurses_NewFrame`). Once per frame it
  drains the pending terminal codes into ImGui's input record. The input
  record holds:
  - the 512 `KeysDown` flags;
  - the Ctrl, Shift, Alt and Super modifiers;
  - the mouse wheel, position and buttons;
  - the text queue.

  Escape followed by another code is read as Alt plus that code. Codes
  1..26, other than Tab, Line-feed and Carriage-return, are read as
  Ctrl plus a letter. A first-match table maps key codes to `KeysDown`
  entries. Mouse position and button state are function-level statics,
  so they persist from one frame to the next.
- **Differential rendering** (`ImTui_ImplNcurses_DrawScreen`). The
  screen is an `nx`-by-`ny` grid of packed 32-bit cells: codepoint in
  bits 0-15, foreground in bits 16-23, background in bits 24-31. A row
  equal to the same row of the previous frame's snapshot is skipped.
  A changed row, or every row after a resize, is written as:
  - `move(y, 0)`;
  - then, for each run of cells sharing a colour pair, the pending bytes
    followed by `attron(COLOR_PAIR(slot))` of that pair's slot;
  - then the last run.

  The bytes go through a `uint8_t` buffer, so only a codepoint's low
  byte survives, and codepoint 0 is drawn as a space. Colour pairs are
  registered lazily: a pair seen for the first time gets the next free
  slot, announced by one `init_pair`, and keeps it for good. `COLOR_PAIR`
  keeps only eight bits of the slot (`Render.ColorPair`), so from the
  256th pair on, `attron` gets the slot modulo 256. For a slot that is a
  multiple of 256 that is 0, which selects no pair: `attron` then leaves
  the pair already in force, and the cell is drawn in the colours of the
  cell before it.
- **Frame pacing** (`VSync`, `nActiveFrames`, and the frame-rate rule of
  `ImTui_ImplNcurses_Init`).
  - `wait` sleeps towards the next tick. It returns early, pushing the
    character back, when input arrives while at least half an active
    step remains.
  - Otherwise it advances the schedule by exactly one step.
  - A render that asks for the active cadence keeps it for ten frames.

The terminal is represented by a trace of the curses calls the renderer
makes: `Move`, `AttrOn`, `AddStr` and `InitPair`. The `wgetch` and
`getmouse` answers, the clock readings and the terminal size are
parameters. The files are:

- `cells.dfy` (module `Cells`): the cell lanes.
- `input.dfy` (module `Input`): the decoder.
  - Reference functions: `ReadStep`, `Decode`, `Pass`.
  - The in-place classes `IO` (ImGui's input record) and `Decoder` (the
    statics), whose read loop is proved against `Decode`.
- `pacing.dfy` (module `Pacing`): the `VSync` class, the
  wait-loop reference function and the cadence.
- `render.dfy` (module `Render`): the renderer.
  - Value-level reference functions: `DrawRow`, `Rows`, `Loop`.
  - A `Renderer` class over arrays (`colPairs`, the row buffer `curs`,
    the snapshot `Screen`), whose nested loops are proved against those
    functions.

The key table is modelled branch by branch, in the source's order. In
ncurses `KEY_DC` is 330, so two of its branches can never be taken:
- the `KEY_DC` test of the Backspace branch, shadowed by the Delete
  branch;
- the second `KEY_BACKSPACE` test, shadowed by the first.

`Input.ClassifyKey` states that neither is reachable.

Every repainted row begins with `lastp = 0xFFFFFFFF`, which matches no
pair. So its first cell always writes the (empty) pending buffer before
its first `attron`. The trace keeps that empty `AddStr`.

## Model

| member | source | states |
|---|---|---|
| Cells.Codepoint | src/imtui-impl-ncurses.cpp:394 | the codepoint lane `cell & 0xFFFF` is below 65536 |
| Cells.Fg | src/imtui-impl-ncurses.cpp:372 | the foreground lane, bits 16-23, is below 256 |
| Cells.Bg | src/imtui-impl-ncurses.cpp:373 | the background lane, bits 24-31, is below 256 |
| Cells.Pack | src/imtui-impl-ncurses.cpp:372-394 | reading the three lanes back out of a packed cell gives them unchanged: the lanes do not overlap |
| Cells.PackLanes | src/imtui-impl-ncurses.cpp:372-394 | every cell is the packing of its three lanes: the lanes cover the whole word |
| Cells.PairIndex | src/imtui-impl-ncurses.cpp:372-374 | `p = b*256 + f` is always a valid index of the 65536-entry registry and gives back `b` and `f` |
| Cells.PairIndexInjective | src/imtui-impl-ncurses.cpp:374 | two cells share a pair index iff their foreground and background agree |
| Cells.Glyph | src/imtui-impl-ncurses.cpp:394-395 | codepoint 0 becomes a space; any other codepoint is stored as its low byte (it agrees with the codepoint modulo 256), so 1..255 are kept and the byte is NUL exactly for non-zero codepoints whose low byte is 0 |
| Pacing.Add64 | src/imtui-impl-ncurses.cpp:65 | `uint64_t` addition: the exact sum, or the sum less 2^64 when it overflows |
| Pacing.Sub64 | src/imtui-impl-ncurses.cpp:92 | `uint64_t` subtraction: adding the subtrahend back gives the minuend, and no wrap when it is the larger |
| Pacing.PushedBackIsPendingInput | src/imtui-impl-ncurses.cpp:67-77 | an early return of `wait` pushes back a real character, one that the peek read from the pending input |
| Pacing.NoInputRunsToTick | src/imtui-impl-ncurses.cpp:67-87 | with no input pending, `wait` always runs to the scheduled tick |
| Pacing.VSync.constructor | src/imtui-impl-ncurses.cpp:48-55 | both steps are stored, and both timestamps start at the clock reading taken at construction |
| Pacing.VSync.Wait | src/imtui-impl-ncurses.cpp:61-88 | the loop returns what the wait-loop reference gives for the tick one active or idle step after `tNext`. `tNext` advances by exactly that one step on the normal path and is left unchanged on an early return. A call that starts at or past its wake threshold completes at once |
| Pacing.VSync.DeltaMicros | src/imtui-impl-ncurses.cpp:90-95 | `delta_s`: the elapsed time added to the previous reading gives the new one, and the new reading is stored |
| Pacing.NormalizeIdleFps | src/imtui-impl-ncurses.cpp:110-113 | a negative idle rate becomes the active rate, the idle rate is never above the active one, and a rate between 0 and the active rate is kept |
| Pacing.NormalizeIdempotent | src/imtui-impl-ncurses.cpp:110-113 | normalising the idle rate twice gives the same as once |
| Pacing.StepMicros | src/imtui-impl-ncurses.cpp:49-50 | the step is `1000000/fps` truncated towards zero |
| Pacing.IdleStepNotShorter | src/imtui-impl-ncurses.cpp:110-114 | after normalisation the idle step is at least the active step |
| Pacing.ConfigurePacing | src/imtui-impl-ncurses.cpp:110-114 | the pacer built by initialisation holds the two truncated steps (idle at least active) and starts both timestamps at the given reading |
| Pacing.FlagsWindow | src/imtui-impl-ncurses.cpp:339-414 | from any starting counter, render k runs active iff one of the last ten renders asked for it, or none ever did and the starting counter has not run out |
| Pacing.ActiveTrail | src/imtui-impl-ncurses.cpp:333-414 | from the initial counter of 10, render k runs active iff it is one of the first ten renders or one of the last ten renders asked for it |
| Input.ClassifyKey | src/imtui-impl-ncurses.cpp:285-314 | the first-match key table: 330 is always Delete, Backspace is taken exactly for `KEY_BACKSPACE` and 127, the shifted-arrow branch is taken exactly for 393, 402, 337 and 336, the second Backspace test is never taken, and every arrow slot is a valid key index |
| Input.KeySlot | src/imtui-impl-ncurses.cpp:285-314 | the `KeysDown` entry a code marks is always in range. 127 marks Backspace and the four shifted arrows mark the arrow entries; every other code marks its own entry |
| Input.InputBytes | src/imtui-impl-ncurses.cpp:277-278 | the two-byte text string of a code: a code in 1..255 is the single byte itself, and a code whose low byte is 0 queues nothing |
| Input.ResetFrame | src/imtui-impl-ncurses.cpp:212-222 | a pass starts with 512 clear keys, no modifier, a zero wheel, the text queue kept, and no input reported |
| Input.ButtonAfter | src/imtui-impl-ncurses.cpp:243-252 | a RELEASED bit clears the button even with PRESSED, PRESSED alone sets it, and neither keeps it |
| Input.MouseAfter | src/imtui-impl-ncurses.cpp:236-252 | a successful `getmouse` replaces position and mask. BUTTON1, BUTTON2 and BUTTON3 drive left, middle and right: a RELEASED bit clears its button, a PRESSED bit without RELEASED sets it, and a button with neither bit keeps its state |
| Input.MouseFrame | src/imtui-impl-ncurses.cpp:254-262 | Ctrl, Shift and Alt are each set afterwards iff they were set before or the mask has their bit; the wheel moves by at most one notch, and moves iff the mask has a BUTTON4 or BUTTON5 bit; keys and text are left alone |
| Input.MouseRead | src/imtui-impl-ncurses.cpp:234-263 | the `KEY_MOUSE` branch leaves keys, text and the input flag alone; a failed `getmouse` changes nothing |
| Input.RemapCtrl | src/imtui-impl-ncurses.cpp:272-275 | a Ctrl letter becomes the letter `'a' + c - 1`, inside 'a'..'z'; any other code is kept |
| Input.QueueText | src/imtui-impl-ncurses.cpp:280-284 | the text queue only grows, only by bytes 1..126 other than Enter's 10; exactly one byte is added for such a code |
| Input.ReadStep | src/imtui-impl-ncurses.cpp:224-318 | a read step that reads a code reports input and consumes at least one code |
| Input.ReadStepSuffix | src/imtui-impl-ncurses.cpp:224-318 | a read step consumes codes from the front, and only the `KEY_MOUSE` branch touches the mouse statics, the wheel and the mouse answers |
| Input.HasInputIffCodeRead | src/imtui-impl-ncurses.cpp:224-317 | a pass reports input iff it read at least one code before `ERR` |
| Input.KeyStepAccumulates | src/imtui-impl-ncurses.cpp:272-314 | the key step only sets keys and modifiers and only appends filtered text |
| Input.StepAccumulates | src/imtui-impl-ncurses.cpp:224-318 | every branch of a read step only sets keys and modifiers and only appends filtered text |
| Input.DecodeAccumulates | src/imtui-impl-ncurses.cpp:224-318 | within a pass nothing is taken back. Held keys stay held, modifiers stay set and Super is never set. The text queue only grows, by bytes 1..126 other than 10 |
| Input.DecodeEndsReleased | src/imtui-impl-ncurses.cpp:224-233 | whatever codes a pass reads, if the last mouse state's low four bits are exactly BUTTON1_RELEASED, all three buttons end released |
| Input.NoMouseCodeKeepsMouse | src/imtui-impl-ncurses.cpp:202-263 | without `KEY_MOUSE` codes the mouse statics persist apart from the end-of-pass release, and the wheel is not moved |
| Input.NoWheelBits | src/imtui-impl-ncurses.cpp:224-263 | a read loop whose mouse answers carry no BUTTON4 or BUTTON5 bit leaves the wheel where it was |
| Input.WheelOneShot | src/imtui-impl-ncurses.cpp:220-263 | a pass whose mouse answers carry no wheel bit reports no wheel motion, whatever the previous pass reported |
| Input.WheelPass | src/imtui-impl-ncurses.cpp:220-263 | a pass that opens with a mouse event reports +1 when its mask has BUTTON4, otherwise -1 when it has BUTTON5, otherwise 0, when no later answer has a wheel bit |
| Input.PlainStep | src/imtui-impl-ncurses.cpp:264-314 | a code other than Escape is consumed alone; a keyboard code marks exactly its key and queues exactly its filtered bytes |
| Input.DecodeText | src/imtui-impl-ncurses.cpp:224-284 | without Escape lookahead, the text queue gains exactly the bytes of every keyboard code read, in the order read, each code's bytes only when it is below 127 and not Enter |
| Input.TextOfCons | src/imtui-impl-ncurses.cpp:277-284 | the bytes of the first code followed by those of the rest are the bytes of all the codes |
| Input.DecodeKeys | src/imtui-impl-ncurses.cpp:224-314 | without Escape lookahead, the keys held after the read loop are exactly those held before and those the codes read mark |
| Input.StepAltIndependent | src/imtui-impl-ncurses.cpp:265-271 | a read step from a record with Alt set equals the step without it, with Alt set |
| Input.DecodeAltIndependent | src/imtui-impl-ncurses.cpp:265-271 | starting a read loop with Alt held changes nothing but Alt |
| Input.EscapeThenCodeIsAlt | src/imtui-impl-ncurses.cpp:265-271 | Escape followed by a code is decoded as that code with Alt set; the Escape itself leaves no trace |
| Input.BareEscape | src/imtui-impl-ncurses.cpp:265-284 | an Escape whose lookahead reads `ERR` is the Escape key: it is marked, queued as text, and Alt is not set |
| Input.ShiftArrowKey | src/imtui-impl-ncurses.cpp:290-301 | a pass reading one of the codes 393, 402, 337 or 336 sets Shift and holds the matching arrow's key, without Ctrl, Alt or text |
| Input.CtrlLetter | src/imtui-impl-ncurses.cpp:272-284 | a code in 1..26 other than 9, 10 and 13 sets Ctrl and is read as the letter `'a' + c - 1`, both as a held key and as text |
| Input.ControlWhitespace | src/imtui-impl-ncurses.cpp:272-284 | 9, 10 and 13 set no Ctrl and mark their own key; all but Enter's 10 are queued as text |
| Input.IO.BeginFrame | src/imtui-impl-ncurses.cpp:196-222 | the screen size is stored; keys, modifiers and both wheels are cleared; the text queue is kept; the mouse position and the frame time are left as they were |
| Input.IO.MouseBits | src/imtui-impl-ncurses.cpp:254-262 | the in-place wheel and modifier updates of the mouse branch match `MouseFrame`; the mouse position and the frame time are left as they were |
| Input.IO.HoldAlt | src/imtui-impl-ncurses.cpp:268 | sets Alt and nothing else |
| Input.IO.KeyCode | src/imtui-impl-ncurses.cpp:272-314 | the in-place Ctrl remap, text filter and key table match `KeyStep`; the mouse position and the frame time are left as they were |
| Input.KeyTurn | src/imtui-impl-ncurses.cpp:264-315 | the keyboard branch, including the Escape lookahead, matches the read step and consumes the same codes; the mouse position and the frame time are left as they were |
| Input.Decoder.constructor | src/imtui-impl-ncurses.cpp:202-207 | the statics start at position (0, 0), no button held, mask 0 |
| Input.Decoder.MouseCode | src/imtui-impl-ncurses.cpp:235-263 | the in-place mouse branch matches `MouseAfter` and `MouseFrame`; the mouse position and the frame time are left as they were |
| Input.Decoder.ReadLoop | src/imtui-impl-ncurses.cpp:224-318 | the `while (true)` read loop leaves statics and record exactly as `Decode` gives them, and returns whether input was read; the mouse position and the frame time are left as they were |
| Input.Decoder.NewFrame | src/imtui-impl-ncurses.cpp:193-329 | one frame leaves statics and record as `Pass` gives them. `MousePos` is the statics' position and `MouseDown` is [left, right, middle], all three false when the last mouse state's low four bits are exactly BUTTON1_RELEASED. The display size is stored, and `DeltaTime` is the time since the previous frame |
| Render.EmptyRegistry | src/imtui-impl-ncurses.cpp:332-336 | the start-up registry is valid, with no pair registered and slot 1 next |
| Render.ColorPair | src/imtui-impl-ncurses.cpp:390 | the pair an attribute selects lies in 0..255, and is the slot itself for slots below 256 |
| Render.Lookup | src/imtui-impl-ncurses.cpp:376-381 | after a lookup the cell's pair is registered and the next free slot has not gone down |
| Render.LookupOutcome | src/imtui-impl-ncurses.cpp:376-381 | a registered pair is looked up silently; a new pair gets slot `nColPairs`, announced by one `init_pair(nColPairs, f, b)`, and `nColPairs` grows by one; no other entry changes |
| Render.CellStep | src/imtui-impl-ncurses.cpp:383-395 | after a cell, the last pair index is that cell's pair |
| Render.FinishScan | src/imtui-impl-ncurses.cpp:370-403 | finishing a row from any prefix gives the same calls and registry |
| Render.DrawScan | src/imtui-impl-ncurses.cpp:368-403 | a repainted row is the scan of all its cells followed by the last run |
| Render.RowFits | src/imtui-impl-ncurses.cpp:360-406 | the cell offsets `y*nx + x` of a row stay inside the `nx*ny` grid |
| Render.GridRow | src/imtui-impl-ncurses.cpp:360-406 | row y of the grid is the slice starting at `y*nx`, and the next row starts right after it |
| Render.Splice | src/imtui-impl-ncurses.cpp:406 | the row `memcpy` puts exactly the copied cells at the row's offset and keeps the length |
| Render.SpliceSame | src/imtui-impl-ncurses.cpp:405-407 | copying a row that is already in the snapshot changes nothing |
| Render.SpliceStep | src/imtui-impl-ncurses.cpp:405-407 | the boundary row still holds the old frame's cells, and copying it moves the boundary one row down |
| Render.LookupValid | src/imtui-impl-ncurses.cpp:376-381 | registering a pair keeps every registered slot in 1..`nColPairs`-1 and no slot shared |
| Render.LookupExtends | src/imtui-impl-ncurses.cpp:376-381 | a lookup never changes a registered pair's slot |
| Render.LookupSilent | src/imtui-impl-ncurses.cpp:376-381 | `init_pair` writes no characters and switches no attribute |
| Render.ScanExtends | src/imtui-impl-ncurses.cpp:370-396 | a row scan never changes a registered pair's slot |
| Render.RowsExtends | src/imtui-impl-ncurses.cpp:356-408 | a frame never changes the slot of a pair registered before it and never lowers the next free slot |
| Render.CellPaintsSwitch | src/imtui-impl-ncurses.cpp:383-392 | on a pair change the pending run is written in the pair in force, and `COLOR_PAIR` of the new pair's slot is selected; that changes the pair in force unless it is 0 |
| Render.CellPaintsSame | src/imtui-impl-ncurses.cpp:383-395 | a cell with the last cell's pair only extends the pending run |
| Render.CellPaints | src/imtui-impl-ncurses.cpp:383-395 | one more cell keeps the row invariant: what was written plus the pending run is the cells seen, each in the colour pair in force when it is reached |
| Render.ScanPaints | src/imtui-impl-ncurses.cpp:368-396 | the row invariant holds after every prefix of the row |
| Render.RowPaints | src/imtui-impl-ncurses.cpp:368-403 | a repainted row shows each cell's byte in the colour pair in force once the cell is reached, from whatever pair was in force before the row |
| Render.RowColours | src/imtui-impl-ncurses.cpp:368-403 | in a repainted row, a cell whose slot `COLOR_PAIR` keeps as a nonzero pair (the slot modulo 256) is shown in that pair; a cell whose slot is a multiple of 256 selects no pair and is shown in the previous cell's pair, or, first in the row, in the pair in force before the row |
| Render.ScanValid | src/imtui-impl-ncurses.cpp:370-396 | a row scan keeps the registry valid |
| Render.LookupProjections | src/imtui-impl-ncurses.cpp:376-381 | a lookup makes no move and announces exactly the slots it hands out |
| Render.CellProjections | src/imtui-impl-ncurses.cpp:376-392 | a cell makes no move and announces exactly the slots it hands out |
| Render.ScanProjections | src/imtui-impl-ncurses.cpp:370-396 | a row scan makes no move of its own and announces the slots it hands out, in order |
| Render.RowProjections | src/imtui-impl-ncurses.cpp:368-403 | a repainted row makes exactly one move, to its own row, and announces the slots it hands out, in order |
| Render.RowsValid | src/imtui-impl-ncurses.cpp:356-408 | a frame keeps the registry valid: each pair holds one slot, below `nColPairs`, and no slot is shared |
| Render.RowsDrawn | src/imtui-impl-ncurses.cpp:366-403 | a repainted row adds its own index to the moves and its new slots to the announced slots |
| Render.RowsSkipped | src/imtui-impl-ncurses.cpp:366 | a skipped row adds no calls and registers nothing |
| Render.RowsMoves | src/imtui-impl-ncurses.cpp:356-408 | the cursor is moved to exactly the repainted rows, in order |
| Render.DrawnRowsMembers | src/imtui-impl-ncurses.cpp:356-366 | a row is repainted iff the size changed or it differs from the snapshot's row |
| Render.DrawnRowsIncreasing | src/imtui-impl-ncurses.cpp:356 | rows are repainted top to bottom, each at most once |
| Render.RowsInitSlots | src/imtui-impl-ncurses.cpp:376-381 | a frame's `init_pair` calls announce exactly the slots it hands out, consecutively and in increasing order |
| Render.AnnouncedAfterCell | src/imtui-impl-ncurses.cpp:376-381 | after one more cell, every registered pair is still announced with its slot and colours, and a new pair is announced by the cell's lookup |
| Render.ScanAnnounces | src/imtui-impl-ncurses.cpp:370-381 | every pair a row scan registers is announced during it by `init_pair` of its slot, foreground `p % 256` and background `p / 256` |
| Render.RowAnnounces | src/imtui-impl-ncurses.cpp:356-403 | every pair a repainted row registers is announced in that row's calls |
| Render.AnnouncedAfterRow | src/imtui-impl-ncurses.cpp:356-403 | announcements made before a repainted row remain among the calls after it |
| Render.RowsAnnounces | src/imtui-impl-ncurses.cpp:356-408 | every pair newly registered during a frame is announced among the frame's calls by `init_pair` of its slot with the colours its index packs |
| Render.NoChangeNoOutput | src/imtui-impl-ncurses.cpp:356-366 | an unchanged screen of unchanged size makes no calls and registers nothing |
| Render.LoopNext | src/imtui-impl-ncurses.cpp:356-408 | turn y-1 works on the row at offset `(y-1)*nx`, and the next row starts at `y*nx` |
| Render.LoopRows | src/imtui-impl-ncurses.cpp:356-408 | after y turns, the loop has made the calls of `Rows` for rows 0..y-1 and holds the registry after them. While comparing, the snapshot holds the new cells up to row y and the old cells after it |
| Render.LoopStart | src/imtui-impl-ncurses.cpp:356 | before the first turn nothing is drawn and the snapshot is the old frame |
| Render.LoopStep | src/imtui-impl-ncurses.cpp:356-408 | each turn keeps the loop equal to its specification |
| Render.TurnMatches | src/imtui-impl-ncurses.cpp:357-407 | while comparing, the row is drawn exactly when it changed, and copying it moves the snapshot's boundary |
| Render.LoopDone | src/imtui-impl-ncurses.cpp:356-408 | after the last turn the calls are those of `Rows` for every row, the registry is valid, and while comparing the snapshot is the new frame |
| Render.SnapshotDone | src/imtui-impl-ncurses.cpp:405-407 | once every row is copied, the snapshot is the new frame |
| Render.Screen.constructor | src/imtui-impl-ncurses.cpp:334 | a fresh grid of the given size |
| Render.Screen.Resize | src/imtui-impl-ncurses.cpp:349 | the snapshot takes the new size with fresh storage |
| Render.Renderer.constructor | src/imtui-impl-ncurses.cpp:332-336 | the start-up state: empty registry with slot 1 next, ten active frames, an empty snapshot, no calls |
| Render.Renderer.CompareRow | src/imtui-impl-ncurses.cpp:357-365 | the comparison loop answers "same" iff the row equals the snapshot's row cell for cell |
| Render.Renderer.RegisterPair | src/imtui-impl-ncurses.cpp:376-381 | the in-place registration matches `Lookup`, in calls and in registry |
| Render.Renderer.DrawCell | src/imtui-impl-ncurses.cpp:371-395 | one cell in place matches `CellStep`: calls, registry, last pair and pending run |
| Render.Renderer.Flush | src/imtui-impl-ncurses.cpp:398-403 | the pending run is written with `addstr` and the buffer emptied |
| Render.Renderer.ScanStart | src/imtui-impl-ncurses.cpp:368-370 | the cell loop starts after `move(y, 0)` with no cell scanned |
| Render.Renderer.ScanEnd | src/imtui-impl-ncurses.cpp:370-396 | after every cell the loop state is the scan of the whole row |
| Render.Renderer.ScanStep | src/imtui-impl-ncurses.cpp:370-396 | one turn of the cell loop keeps the loop state equal to the scan of one more cell |
| Render.Renderer.ScanRow | src/imtui-impl-ncurses.cpp:368-396 | the cell loop leaves calls, registry and pending run as the scan of the row gives them |
| Render.Renderer.RenderRow | src/imtui-impl-ncurses.cpp:368-403 | a repainted row makes exactly the calls of `DrawRow` and leaves its registry |
| Render.Renderer.RepaintRow | src/imtui-impl-ncurses.cpp:357-407 | one turn of the row loop in place matches `RowTurn`: drawn or skipped, calls, registry and snapshot |
| Render.Renderer.CopyCells | src/imtui-impl-ncurses.cpp:405-411 | `memcpy` of a range of cells into the snapshot, nothing else changed |
| Render.Renderer.Prepare | src/imtui-impl-ncurses.cpp:343-354 | a size change resizes the snapshot and turns comparison off; the row buffer gets `nx + 1` bytes |
| Render.Renderer.NextRow | src/imtui-impl-ncurses.cpp:356-408 | one turn of the row loop keeps the heap state equal to `Loop` |
| Render.Renderer.PaintRows | src/imtui-impl-ncurses.cpp:356-408 | the row loop makes the calls of `Rows` and keeps the registry valid; while comparing the snapshot ends equal to the screen |
| Render.Renderer.Repaint | src/imtui-impl-ncurses.cpp:343-412 | after drawing, the snapshot has the screen's size and equals it cell for cell. Comparison was on iff the size was unchanged. The calls are those of `Rows` |
| Render.Renderer.DrawScreen | src/imtui-impl-ncurses.cpp:338-415 | one frame: the repaint above, the counter after `if (active) nActiveFrames = 10; nActiveFrames--`, and a `wait` with the cadence flag, whose result and schedule update are those of the wait-loop reference |

## Left out

- The curses calls themselves are not made: the renderer records them as a trace, and `wgetch`, `getmouse` and `getmaxyx` answers are parameters. `wrefresh` (line 341) is not recorded.
- The real clock and `sleep_for` are left out. Successive clock readings are parameters, and the sleep durations (the `0.9*` factors) are not modelled.
- `delta_s` returns whole microseconds; the conversion to seconds as a `float` is not modelled.
- Pacing.StepMicros: requires a positive rate whose step `1000000/fps` is below 2^64. A zero or negative rate, which `Init` accepts (for example an idle rate of 0), and a rate so small that the step is 2^64 µs or more make the source's conversion to `uint64_t` undefined; the model excludes them, and so do `Pacing.ConfigurePacing` and `Pacing.IdleStepNotShorter`.
- Pacing.NormalizeIdleFps: the frame rates are `float` in the source and real numbers here. Float rounding is not modelled, and neither are NaN and infinite rates.
- `MouseWheel` is an integer, since it only moves by whole steps. The `0.5*tStepActive_us` test is decided exactly, by doubling both sides.
- `AddInputCharactersUTF8` is modelled as appending the bytes of the two-byte string; ImGui's UTF-8 decoding is not part of this model.
- The rest of `ImTui_ImplNcurses_Init` and all of `ImTui_ImplNcurses_Shutdown` are not modelled: terminal-mode setup, `mousemask`, the `\033[?1003h`/`\033[?1003l` escape sequences, and the `KeyMap` entries the decoder does not read. This is device configuration with no logic of its own.
- The `_WIN32` block and the fallback `BUTTON4_PRESSED`/`BUTTON5_PRESSED` definitions (lines 10-37) are left out. ncurses 6 defines both masks, so the fallbacks are unused; the model uses the ncurses 6 masks (mouse protocol version 2).
- `ImTui_ImplNcurses_ProcessEvent` always returns true and is not modelled.
- The static `g_vsync` built with the default 60/60 rates before `Init` runs is not modelled; only the pacer built by `Init` is.
- `ImTui::TScreen` (imtui.h) is not part of this model. `Render.Screen` stands for it: `nx`, `ny` and a cell array, reallocated and zeroed on resize.
- The row buffer's old contents on reallocation are not modelled: they are rewritten before use.
- Input.Decoder.NewFrame: requires every code to be `ERR` or below 512. ncurses can return larger codes: `define_key` codes and terminfo user capabilities such as `kLFT5` are numbered above `KEY_MAX` (511). For such a code the source's default branch (line 313) writes past the end of `KeysDown`, which is undefined behaviour; the requires excludes it rather than modelling it.
- Pacing.VSync.Wait: requires the last clock reading to reach the wake threshold, i.e. that the clock advances; with a clock that stopped, the source would loop for ever.
- Pacing.CadenceNext: `nActiveFrames` is an unbounded integer. The source's `int` would overflow after about 2^31 consecutive idle frames, and that is not modelled.
- Render.Renderer.RegisterPair: slots are unbounded integers. A terminal's `COLOR_PAIRS` limit, beyond which `init_pair` fails, is not modelled.
- Render.RowPaints: describes the bytes handed to `addstr`. `addstr` stops at a NUL byte, which `Cells.Glyph` shows arises for non-zero codepoints whose low byte is 0; the terminal then shows less than the run.
- Render.Renderer.Repaint: requires the screen, the snapshot, the registry and the row buffer to be separate storage, as the source's distinct globals are. Aliasing between them is not modelled.
