# Splix core, modelled in Dafny

Splix is a small terminal multiplexer. A `Splix` owns sessions, a session
owns windows, and a window owns panes. Every pane runs a shell on a
pseudo-terminal. A background task per pane reads the shell's output. It
decodes the output as UTF-8 and sends one `PaneUpdate` per character (a
character or a new line) to the pane's window. The multiplexer's event loop
then routes each update to the right session and redraws the screen. Input
bytes go to the first session. A `Renderer` keeps a `width * height`
character buffer. On every frame it moves the cursor home, clears the buffer,
draws the first pane of the first window of the first session, and writes
every row followed by a move to the next line. A separate log server answers
a one-word request on a Unix socket with a snapshot of the buffered logs, and
keeps a following client supplied with new ones.

This project models that core and proves its properties:

| file | module | what it holds |
|---|---|---|
| `wrappers.dfy` | `Wrappers` | the error variants the core uses, `byte`, `Option`, `Result` |
| `ids.dfy` | `Ids` | `SessionId`, `WindowId`, `PaneId` |
| `events.dfy` | `Events` | `GridUpdate`, `PaneUpdateEvent`, `Event` |
| `grid.dfy` | `Grids` | the `Grid` line buffer (a class) and the fold of updates over lines |
| `utf8.dfy` | `Utf8` | UTF-8 validity, `valid_up_to`, decoding and encoding, per section 4 of RFC 3629 |
| `terminal.dfy` | `Terminals` | `Terminal::read` and its `incomplete_utf8` carry (a class) |
| `pane.dfy` | `Panes` | `Pane`, `PaneUpdate` and the `handle_terminal_io` loop |
| `window.dfy` | `Windows` | `Window` (a class): pane creation and the draining of its update queue |
| `session.dfy` | `Sessions` | `Session` (a class): window creation and routing to a window |
| `renderer.dfy` | `Renderers` | `Renderer` (a class over an `array<char>`) and the text a frame writes |
| `ansi.dfy` | `Ansi` | `AnsiEncoder::encode`, the CSI prefix of section 5.4 of ECMA-48 |
| `splix.dfy` | `Multiplexer` | `Splix` (a class): sessions, event routing, redraw and the event loop |
| `logsocket.dfy` | `LogSockets` | the log socket's request word, snapshot framing, follow stream and client loop |

Channels are sequences: a window's pending updates, the multiplexer's
events and the log receiver's stream. A PTY read is a parameter holding the
bytes `fill_buf` returned, or its failure. Standard output is a `seq<char>`
field that frames append to. A socket write that fails is modelled by a count
of the writes the socket accepts. A call the source makes to code that is
not shown takes an `Option<Error>` parameter saying whether that call fails.
Examples are the terminal spawn inside `Pane::new` and `Session::new` inside
`new_session`.

Where the design documentation and the code disagree, the model follows the
code:
- The documentation describes a renderer that writes only changed cells and
  positions the cursor with `ESC [ row ; col H`. The code clears and
  redraws every cell on every frame. It uses `ESC [ H` (cursor position
  with default parameters, section 8.3.21 of ECMA-48) and `ESC [ 1 E`
  (cursor next line, section 8.3.12).
- The shown revisions do not agree with each other. `crates/splix/src/lib.rs`
  calls `Session::new(id, sender)`, `update_pane`, `process_input`,
  `get_window`, `Window::get_pane` and a two-argument `Renderer::new`, none
  of which the shown `Session`, `Window` and `Renderer` define. The model
  gives each of them the behaviour its call site needs: route a pane update
  by its ids, record an input byte, return a window, return a pane, and
  draw on a blank screen. Those members cite their call sites.
- `GridUpdate` is the one in `crates/splix_event/src/pane_update_event.rs`.

Where the Rust code would panic (an index out of range), the model either
requires what the code needs or returns `ok == false`. It requires the index
when the caller controls it: routing a pane id, or a queued update for a pane
that does not exist. It returns `ok == false` when the index comes from data:
a grid line wider than the screen on the last row. Each such case is named
below.

## Model

| member | source | states |
|---|---|---|
| `Ids.NewSessionId` | crates/splix_id/src/session_id.rs:7-13 | `get()` returns the index given to `new`, with no validation |
| `Ids.NewWindowId` | crates/splix_id/src/window_id.rs:10-20 | `get()` and `get_session()` return what `new` was given |
| `Ids.NewPaneId` | crates/splix_id/src/pane_id.rs:10-20 | `get()` and `get_window()` return what `new` was given |
| `Ids.SessionIdDeterminedByGet` | crates/splix_id/src/session_id.rs:1-4 | two session ids are equal exactly when their `get()` are |
| `Ids.WindowIdDeterminedByParts` | crates/splix_id/src/window_id.rs:3-7 | two window ids are equal exactly when their index and session are |
| `Ids.PaneIdDeterminedByParts` | crates/splix_id/src/pane_id.rs:3-7 | two pane ids are equal exactly when their index and window are |
| `Events.NewPaneUpdateEvent` | crates/splix_event/src/pane_update_event.rs:16-26 | the getters return the pane and the grid update given to `new` |
| `Events.PaneUpdateEventDeterminedByParts` | crates/splix_event/src/pane_update_event.rs:9-13 | an event is determined by its pane and its grid update |
| `Grids.Apply` | crates/splix_window/src/lib.rs:35-44 | one update adds a line for `NewLine`, or for `AppendChar` on an empty grid, and otherwise keeps the line count |
| `Grids.Grid.GetData` | crates/splix_pane/src/grid.rs:23-25 | `get_data` hands back the stored lines as they are, and reading them changes nothing |
| `Grids.Appended` | crates/splix_pane/src/grid.rs:11-17 | appending to no lines gives one line `[c]`; otherwise the last line gains `c` and every earlier line is kept |
| `Grids.Grid.constructor` | crates/splix_pane/src/grid.rs:7-9 | a new grid has no lines |
| `Grids.Grid.Update` | crates/splix_pane/src/grid.rs:11-17 | the grid becomes `Appended(old, c)` |
| `Grids.Grid.NewLine` | crates/splix_pane/src/grid.rs:19-21 | exactly one empty line is added and the others are kept, on an empty grid too |
| `Grids.AppendedOnNonEmpty` | crates/splix_pane/src/grid.rs:11-17 | on a non-empty grid the line count and all earlier lines are unchanged, and the last line gains `c` |
| `Grids.TotalCharsOfApply` | crates/splix_pane/src/grid.rs:11-21 | one update adds one stored character when it is `AppendChar`, none for `NewLine` |
| `Grids.TotalCharsOfApplyAll` | crates/splix_pane/src/grid.rs:11-21 | nothing is removed: stored characters grow by exactly the number of `update` calls |
| `Grids.LineCountOfApplyAllNonEmpty` | crates/splix_pane/src/grid.rs:11-21 | from a non-empty grid the line count grows by the number of `new_line` calls |
| `Grids.LineCountFromEmpty` | crates/splix_pane/src/grid.rs:11-21 | from a new grid, the line count is the number of `new_line` calls, plus one if the first call was `update` |
| `Grids.ApplyAllOnlyGrows` | crates/splix_pane/src/grid.rs:11-21 | lines are never removed, and only the last existing line can be extended |
| `Grids.ApplyAllAppend` | crates/splix_pane/src/grid.rs:11-21 | applying two batches in turn equals applying their concatenation |
| `Grids.ApplyAllSnoc` | crates/splix_pane/src/grid.rs:11-21 | the last update of a batch is applied last |
| `Grids.UnitTestExamples` | crates/splix_pane/src/grid.rs:38-53 | the unit tests' expected contents: `[['a','b']]` and `[['a'],['b']]` |
| `Utf8.ScalarAt` | crates/splix_terminal/src/lib.rs:69 | every decoded character is a Unicode scalar value |
| `Utf8.ValidUpToIsValidPrefix` | crates/splix_terminal/src/lib.rs:73-76 | the prefix up to `valid_up_to` is valid, so re-decoding it cannot fail |
| `Utf8.ValidUpToIsLongest` | crates/splix_terminal/src/lib.rs:73 | no longer prefix is valid |
| `Utf8.ValidIffValidUpToIsLength` | crates/splix_terminal/src/lib.rs:66-73 | a buffer is valid exactly when `valid_up_to` is its length |
| `Utf8.DecodeStopsAtValidUpTo` | crates/splix_terminal/src/lib.rs:72-78 | the characters of a buffer are those of its valid prefix; the tail decodes to nothing |
| `Utf8.EncodeCharIsChar` | crates/splix_terminal/src/lib.rs:66-69 | the encoding of a character is one complete sequence that decodes to that character |
| `Utf8.DecodeEncode` | crates/splix_terminal/src/lib.rs:66-69 | encoding any characters gives valid UTF-8 that decodes back to them |
| `Utf8.SplitAtValidUpTo` | crates/splix_terminal/src/lib.rs:72-89 | cutting valid input at `valid_up_to` of a chunk leaves at most 3 carried bytes and loses no character when the carry is put in front of the rest |
| `Terminals.ReadStep` | crates/splix_terminal/src/lib.rs:50-99 | fill error: `ReadFromTerminal`, carry kept; empty buffer: empty result, carry kept; valid buffer: its characters, carry cleared; otherwise the valid prefix's characters and carry ++ `buffer[valid_up_to..]` |
| `Terminals.Terminal.constructor` | crates/splix_terminal/src/lib.rs:43-47 | a new terminal has an empty carry |
| `Terminals.Terminal.Read` | crates/splix_terminal/src/lib.rs:50-100 | result and new carry are `ReadStep(old carry, fill)`, and every filled byte is consumed |
| `Terminals.ErrorLeavesIncompleteTail` | crates/splix_terminal/src/lib.rs:72-92 | an invalid buffer always has `valid_up_to < len`, so the clearing `else` branch is unreachable |
| `Terminals.ReadIgnoresCarry` | crates/splix_terminal/src/lib.rs:66-78 | the returned characters depend only on the current buffer, never on the carry |
| `Terminals.CutCharReadsAsNothing` | crates/splix_terminal/src/lib.rs:58-89 | for every lead byte of a multi-byte character, a buffer holding only that byte returns no characters, and the byte is carried |
| `Terminals.SplitCharIsLost` | crates/splix_terminal/src/lib.rs:66-89 | `é` read as two one-byte buffers yields no characters at all, while the joined read yields `é` |
| `Terminals.JoinedReadStep` | crates/splix_terminal/src/lib.rs:81-89 | corrected read: its characters, followed by the decoding of its carry, are the decoding of carry ++ buffer |
| `Terminals.JoinedReadsAreChunkingInvariant` | crates/splix_terminal/src/lib.rs:80-89 | corrected read: valid input yields the same characters however it is cut into buffers, with nothing left over |
| `Terminals.JoinedCarryIsShort` | crates/splix_terminal/src/lib.rs:80-89 | corrected read: on valid input at most 3 bytes are carried |
| `Panes.NewPane` | crates/splix_pane/src/lib.rs:21-24 | a new pane has the given id and an empty grid, or the terminal's error |
| `Panes.ToGridUpdate` | crates/splix_pane/src/lib.rs:60-64 | `'\n'` maps to `NewLine`; every other character, `'\r'` included, maps to `AppendChar` of itself |
| `Panes.FirstStop` | crates/splix_pane/src/lib.rs:51-57 | the index of the first empty read or read error; all reads before it are non-empty |
| `Panes.HandleTerminalIo` | crates/splix_pane/src/lib.rs:46-79 | the updates sent and the task's result are `Bridge(id, reads, accepted)` |
| `Panes.UpdatesAt` | crates/splix_pane/src/lib.rs:59-69 | one update per character, in order, each tagged with the pane's id |
| `Panes.UpdatesAppend` | crates/splix_pane/src/lib.rs:59-69 | the updates of two batches are the updates of the first followed by those of the second |
| `Panes.SentIsPrefix` | crates/splix_pane/src/lib.rs:59-69 | the updates of a prefix of the characters are a prefix of the updates |
| `Panes.CharsMonotone` | crates/splix_pane/src/lib.rs:51-76 | the characters read only grow as more reads are taken |
| `Panes.BridgeStopsAt` | crates/splix_pane/src/lib.rs:54-57 | at the first empty read or error the task returns `Ok` having sent exactly the earlier reads' updates |
| `Panes.BridgeSendFails` | crates/splix_pane/src/lib.rs:65-68 | a failed send returns `SendPaneUpdate` at once; the rest of the batch is not sent |
| `Panes.BridgeOutcome` | crates/splix_pane/src/lib.rs:51-78 | the sent updates are the mapping of the characters before the first stop, cut at the accepted sends; the result is `SendPaneUpdate` exactly when a send failed, `Ok` exactly when a stop was reached, and running otherwise |
| `Panes.LaterReadsIgnored` | crates/splix_pane/src/lib.rs:51-76 | nothing after the first stop is read or sent |
| `Panes.StopOfExtension` | crates/splix_pane/src/lib.rs:51-76 | more reads do not move the first stop |
| `Panes.ReadErrorReturnsOk` | crates/splix_pane/src/lib.rs:71-78 | a read error after a batch ends the loop and the task still returns `Ok` |
| `Panes.CutCharStopsPane` | crates/splix_pane/src/lib.rs:52-57 | for every lead byte of a multi-byte character, a first read holding only that byte looks like end of file: the pane's task stops and sends nothing, whatever later reads hold |
| `Windows.Drained` | crates/splix_window/src/lib.rs:31-48 | draining keeps the pane count, every other pane, and the drained pane's id |
| `Windows.Window.Empty` | crates/splix_window/src/lib.rs:18-24 | a window before its first pane: no panes, counter 0, nothing pending |
| `Windows.Window.New` | crates/splix_window/src/lib.rs:15-29 | exactly one pane, `PaneId(window id, 0)`, with an empty grid, and `next_pane_id == 1`; or the pane's error |
| `Windows.Window.NewPane` | crates/splix_window/src/lib.rs:50-57 | a pane `PaneId(id, next_pane_id)` is appended and the counter moves on, so `panes[i]` has local id `i`; on failure nothing changes |
| `Windows.Window.Enqueue` | crates/splix_pane/src/lib.rs:65-68 | the updates the pane tasks send join the end of the window's queue |
| `Windows.Window.GetPaneGrid` | crates/splix_window/src/lib.rs:31-48 | the queue ends empty; the panes become `Drained(panes, queue, index)`; the grid is returned exactly when `index < panes.len()` |
| `Windows.Window.UpdatePane` | crates/splix/src/lib.rs:86 | only the addressed pane changes, by one `Apply` of the update |
| `Windows.Window.GetPane` | crates/splix_renderer/src/lib.rs:35 | pane `i` is the pane with local id `i` |
| `Windows.MatchingAppend` | crates/splix_window/src/lib.rs:33-46 | updates for one pane are applied in the order they were queued, however the queue is split |
| `Windows.DrainInTwoSteps` | crates/splix_window/src/lib.rs:31-48 | draining two queues in turn equals draining their concatenation |
| `Windows.ForeignUpdateApplied` | crates/splix_window/src/lib.rs:35 | matching compares only the local index: an update tagged with another window's id is still applied |
| `Windows.DrainedCharCount` | crates/splix_window/src/lib.rs:34-45 | the drained pane gains exactly one stored character per matching `AppendChar` |
| `Sessions.Session.Empty` | crates/splix_session/src/lib.rs:12-16 | a session before its first window: no windows, counter 0 |
| `Sessions.Session.New` | crates/splix_session/src/lib.rs:11-21 | exactly one window, `WindowId(id, 0)`, holding one pane; or the window's error |
| `Sessions.Session.NewWindow` | crates/splix_session/src/lib.rs:39-46 | a window `WindowId(id, next_window_id)` is appended, earlier windows unchanged, counter moves on; on failure nothing changes |
| `Sessions.Session.UpdatePane` | crates/splix/src/lib.rs:86 | the update is applied to the pane the id names in the window the id names, and to nothing else: the other panes, the other windows and that window's pending queue are as they were |
| `Sessions.Session.ProcessInput` | crates/splix/src/lib.rs:91 | the byte is recorded after the earlier ones; the windows are untouched |
| `Sessions.Session.GetWindow` | crates/splix/src/lib.rs:96 | window `i` has `WindowId(id, i)` and at least one pane |
| `Renderers.ControlSequencesAreEncoded` | crates/splix_renderer/src/lib.rs:51-69 | the two control sequences are `encode("H")` and `encode("1E")` |
| `Renderers.Blank` | crates/splix_renderer/src/lib.rs:17 | `n` cells, all `' '` |
| `Renderers.RowStartIsProduct` | crates/splix_renderer/src/lib.rs:38-40 | the start of row `y` is `width * y` |
| `Renderers.CellIndex` | crates/splix_renderer/src/lib.rs:38-40 | the buffer position of cell (x, y) is `width * y + x` |
| `Renderers.CellIndexInBounds` | crates/splix_renderer/src/lib.rs:38-40 | for `x < width`, `y < height`, `width*y + x < width*height` |
| `Renderers.CellIndexInjective` | crates/splix_renderer/src/lib.rs:38-40 | distinct on-screen positions have distinct indices |
| `Renderers.PutCells` | crates/splix_renderer/src/lib.rs:77-80 | writing a line at a base changes exactly the cells it covers |
| `Renderers.Clip` | crates/splix_renderer/src/lib.rs:77-80 | corrected drawing keeps the first `min(len, width)` characters of a line |
| `Renderers.Renderer.constructor` | crates/splix_renderer/src/lib.rs:14-20 | a new buffer has `width*height` cells, all `' '`, and nothing is written |
| `Renderers.Renderer.BeginFrame` | crates/splix_renderer/src/lib.rs:22-27 | appends exactly `ESC[H` and blanks every cell |
| `Renderers.Renderer.ResetCursor` | crates/splix_renderer/src/lib.rs:51-53 | appends exactly `ESC[H` |
| `Renderers.Renderer.ResetRenderBuffer` | crates/splix_renderer/src/lib.rs:42-49 | every cell becomes `' '` |
| `Renderers.Renderer.MoveCursorToNextLine` | crates/splix_renderer/src/lib.rs:67-69 | appends exactly `ESC[1E` |
| `Renderers.Renderer.Flush` | crates/splix_renderer/src/lib.rs:55-65 | appends `Screen(buffer, width, height)`: each row's cells left to right, then `ESC[1E` |
| `Renderers.Renderer.EndFrame` | crates/splix_renderer/src/lib.rs:29-32 | appends the same text as `flush` |
| `Renderers.Renderer.DrawWindow` | crates/splix_renderer/src/lib.rs:34-36 | draws only pane 0 of the window |
| `Renderers.Renderer.DrawPane` | crates/splix_renderer/src/lib.rs:71-82 | `ok` exactly when no line overruns the buffer (the Rust panics otherwise); then lines at rows `>= height` write nothing and the buffer is `Drawn(old, grid)` |
| `Renderers.Renderer.DrawPaneClipped` | crates/splix_renderer/src/lib.rs:71-82 | corrected drawing: never panics; the buffer is the drawing of the clipped grid |
| `Renderers.Overrun` | crates/splix_renderer/src/lib.rs:77-80 | a line on a screen row that runs past the end of the buffer makes the frame not fit |
| `Renderers.DrawnCells` | crates/splix_renderer/src/lib.rs:71-82 | when every line is at most `width` long, each on-screen cell is the grid's character there, else what was under it |
| `Renderers.FrameShowsGrid` | crates/splix_renderer/src/lib.rs:71-82 | after `begin_frame` and `draw_pane` of a grid within the width, cell (x, y) is `grid[y][x]` when it exists, else `' '` |
| `Renderers.ClippedFits` | crates/splix_renderer/src/lib.rs:71-82 | a clipped grid always fits |
| `Renderers.ClippedCells` | crates/splix_renderer/src/lib.rs:71-82 | corrected drawing shows cell (x, y) as `grid[y][x]` when it exists, else `' '`, for every grid |
| `Renderers.ScreenLength` | crates/splix_renderer/src/lib.rs:55-65 | a frame's text is `(width + 4) * rows` characters long |
| `Renderers.ScreenAt` | crates/splix_renderer/src/lib.rs:55-65 | in a frame's text, position `(width+4)*y + x` holds cell (x, y) for `x < width`, and the next-line sequence otherwise |
| `Renderers.RedrawText` | crates/splix/src/lib.rs:94-98 | a full redraw writes `ESC[H`, then for each row the grid's characters padded with spaces, then `ESC[1E` |
| `Renderers.LongLineSpills` | crates/splix_renderer/src/lib.rs:77-80 | a 3-character line on a 2-wide screen fits the buffer but its third character lands at (0, 1) |
| `Renderers.LongLineOnLastRowOverruns` | crates/splix_renderer/src/lib.rs:77-80 | the same line on a 2x1 screen overruns the buffer |
| `Ansi.Encode` | crates/splix_ansi/src/ansi_encoder.rs:10-12 | the result is `ESC [` followed by the code, 2 characters longer |
| `Ansi.CodeOf` | crates/splix_ansi/src/ansi_encoder.rs:3 | text has a code exactly when it starts with the CSI prefix |
| `Ansi.CodeOfEncode` | crates/splix_ansi/src/ansi_encoder.rs:10-12 | the code is recovered from its encoding |
| `Ansi.EncodeCodeOf` | crates/splix_ansi/src/ansi_encoder.rs:10-12 | every text that starts with the prefix is the encoding of its code |
| `Ansi.EncodeInjective` | crates/splix_ansi/src/ansi_encoder.rs:10-12 | two codes encode alike exactly when they are equal |
| `Ansi.EmptyCode` | crates/splix_ansi/src/ansi_encoder.rs:10-12 | the code is not validated: the empty code encodes to `ESC [` |
| `Ansi.AlternateScreenSequences` | crates/splix_termios/src/alternate_screen.rs:10-11 | `encode("?1049h")` and `encode("?1049l")` are the two distinct alternate-screen sequences |
| `Multiplexer.FrameText` | crates/splix/src/lib.rs:94-98 | one redraw's text has the fixed length `3 + (width + 4) * height` |
| `Multiplexer.InputsAppend` | crates/splix/src/lib.rs:50-56 | input bytes reach the first session in the order they were sent |
| `Multiplexer.InputsOfBytes` | crates/splix/src/lib.rs:90-92 | a queue of input events delivers exactly its bytes and redraws nothing |
| `Multiplexer.RedrawsLengthIsCount` | crates/splix/src/lib.rs:84-88 | one frame is written per pane update |
| `Multiplexer.Splix.Empty` | crates/splix/src/lib.rs:35-43 | no sessions, counter 0, no events, and a blank renderer of the given size |
| `Multiplexer.Splix.New` | crates/splix/src/lib.rs:27-48 | exactly one session, with `SessionId(0)`; or the error from opening it |
| `Multiplexer.Splix.NewSession` | crates/splix/src/lib.rs:68-75 | a session `SessionId(next_session_id)` is appended and the counter moves on, so `sessions[i]` has id `i`; on failure sessions and counter are unchanged |
| `Multiplexer.Route` | crates/splix/src/lib.rs:84-86 | routing an update never adds or removes a session, window or pane |
| `Multiplexer.RouteAt` | crates/splix/src/lib.rs:84-86 | the update reaches the pane of `sessions[s].windows[w]` at local index `p` that the id names, by one `Apply`; every other pane of that window and every other window is unchanged; an id that names no pane changes nothing |
| `Multiplexer.HandledPane` | crates/splix/src/lib.rs:50-56 | after any queue of events, each pane's grid is its old grid with exactly the updates addressed to it applied, in the order they were sent, whatever other panes' updates and input bytes are interleaved; its id is unchanged |
| `Multiplexer.HandledAppend` | crates/splix/src/lib.rs:50-56 | handling two batches in turn is handling their concatenation |
| `Multiplexer.InputsKeepTree` | crates/splix/src/lib.rs:90-92 | a queue of input bytes changes no pane and writes no frame |
| `Multiplexer.RedrawsLengthMatches` | crates/splix/src/lib.rs:84-88 | the frames written for a queue are one frame of the fixed frame length per pane update |
| `Multiplexer.InTreeOfSameShape` | crates/splix/src/lib.rs:84-86 | a pane id routable in a tree stays routable after any routing, which keeps the shape |
| `Multiplexer.Splix.PaneTreeAt` | crates/splix/src/lib.rs:17 | position (s, w) of the pane tree holds the panes of window `w` of session `s` |
| `Multiplexer.Splix.AddressableInTree` | crates/splix/src/lib.rs:85-86 | a pane id can be routed without a panic exactly when it names a pane of the pane tree |
| `Multiplexer.Splix.FrontGridIsFront` | crates/splix/src/lib.rs:94-98 | the grid a redraw shows is the grid of the front pane of the pane tree |
| `Multiplexer.Splix.Redraw` | crates/splix/src/lib.rs:94-98 | the frame shows pane 0 of window 0 of session 0 whichever pane changed; the text is `ESC[H` and the screen |
| `Multiplexer.Splix.RouteUpdate` | crates/splix/src/lib.rs:85-86 | the target window's panes take the update at the local index and nothing else; the pane tree becomes `Route(old tree, pane, update)`; no window's pending queue changes |
| `Multiplexer.Splix.HandlePaneUpdate` | crates/splix/src/lib.rs:84-88 | the pane tree becomes `Route(old tree, pane, update)`, then exactly one frame of the front grid follows, written exactly when it fits; no window's pending queue changes |
| `Multiplexer.Splix.HandleInput` | crates/splix/src/lib.rs:90-92 | the byte goes to session 0 after the earlier ones; the pane tree is unchanged and nothing is redrawn |
| `Multiplexer.Splix.HandleEvent` | crates/splix/src/lib.rs:77-82 | the pane tree becomes `Step(old tree, e)`: a pane update reaches its pane and is redrawn once, from the front grid after it; an input byte goes to session 0, leaves every grid as it was and writes nothing; in both cases no window's pending queue changes |
| `Multiplexer.Splix.HandleNext` | crates/splix/src/lib.rs:51-52 | the oldest event leaves the channel; the pane tree, session 0's input and the output change as `handle_event` of that event says, and no window's pending queue changes |
| `Multiplexer.Splix.Turn` | crates/splix/src/lib.rs:50-56 | after `handled` events of a queue, one more turn gives the pane tree, input and output of `handled + 1` events, or stops on a pane update whose frame does not fit; no window's pending queue changes |
| `Multiplexer.Splix.Run` | crates/splix/src/lib.rs:50-56 | events are handled in FIFO order: the pane tree ends as `Handled(old tree, handled events)`, session 0 receives the handled input bytes in order, and the output is the concatenation of one frame of the front grid after each pane update; a stop happens only at a pane update whose frame does not fit; no session's windows and no window's pending queue change |
| `LogSockets.Discriminant` | crates/splix_logger/src/socket.rs:10-15 | the discriminants are 0, 1 and 2 |
| `LogSockets.FromU64` | crates/splix_logger/src/socket.rs:17-25 | 1 decodes to `GetAll`, 2 to `Follow`, and every other word, 0 included, to `Unknown` |
| `LogSockets.DiscriminantRoundTrip` | crates/splix_logger/src/socket.rs:10-25 | `from(r as u64) == r` for all three requests |
| `LogSockets.KnownWordsAreDiscriminants` | crates/splix_logger/src/socket.rs:17-25 | a word survives decoding and encoding exactly when it is at most 2 |
| `LogSockets.ClientRequest` | crates/splix_logger/src/socket.rs:137-141 | the client asks for `Follow` exactly when following, `GetAll` otherwise, never `Unknown` |
| `LogSockets.FromToBigEndian` | crates/splix_logger/src/socket.rs:142 | a number spelled in its bytes, most significant first, reads back as itself |
| `LogSockets.ToFromBigEndian` | crates/splix_logger/src/socket.rs:71 | bytes read as a number spell back to the same bytes |
| `LogSockets.WriteU64` | crates/splix_logger/src/socket.rs:142 | a word goes out as exactly eight bytes |
| `LogSockets.ReadU64` | crates/splix_logger/src/socket.rs:71 | a word is read exactly when eight bytes arrived |
| `LogSockets.ReadWriteU64` | crates/splix_logger/src/socket.rs:71 | the word `write_u64` sends is the word `read_u64` reads, whatever follows |
| `LogSockets.ClientRequestArrives` | crates/splix_logger/src/socket.rs:137-142 | the client's request reaches the server as that request: 2 when following, 1 otherwise |
| `LogSockets.ChunksSpellFramed` | crates/splix_logger/src/socket.rs:79-82 | the snapshot's writes spell `log ++ "\n"` for each log in order |
| `LogSockets.FramedAppend` | crates/splix_logger/src/socket.rs:79-95 | framing two batches in turn frames their concatenation |
| `LogSockets.SplitFramed` | crates/splix_logger/src/socket.rs:79-82 | logs without a newline of their own come back one per line from the framed text |
| `LogSockets.MultiLineLogSplits` | crates/splix_logger/src/socket.rs:79-82 | a log holding a newline comes back as two lines |
| `LogSockets.Followed` | crates/splix_logger/src/socket.rs:90-106 | a follower is sent at most one log per received item |
| `LogSockets.RespondIsPlannedPrefix` | crates/splix_logger/src/socket.rs:66-113 | the writes are the first `accepted` of the snapshot followed, for `Follow`, by the streamed logs; it fails exactly when writes run out, and waits exactly for a follower whose channel is open |
| `LogSockets.HandleConnection` | crates/splix_logger/src/socket.rs:66-113 | writes and outcome are `Served(input, logs, stream, accepted)`: no request word is an error before any write |
| `LogSockets.WriteSnapshot` | crates/splix_logger/src/socket.rs:79-82 | the snapshot loop's writes and success are `Snapshot(logs, accepted)` |
| `LogSockets.StreamLogs` | crates/splix_logger/src/socket.rs:90-106 | the follow loop's writes and outcome are `Streamed(stream, accepted)` |
| `LogSockets.SnapshotFirst` | crates/splix_logger/src/socket.rs:74-82 | for every request kind, the first writes spell each buffered log in order, each followed by one newline |
| `LogSockets.OnlyFollowStreams` | crates/splix_logger/src/socket.rs:85-112 | `GetAll` and `Unknown` return `Ok` right after the snapshot; a follower keeps waiting while the channel is open |
| `LogSockets.FollowedText` | crates/splix_logger/src/socket.rs:91-96 | a follower reads the snapshot and the streamed logs as one framed sequence |
| `LogSockets.ServedByWord` | crates/splix_logger/src/socket.rs:71 | fewer than eight bytes end the connection with an error before any write; a full word is answered as its request |
| `LogSockets.LaggedSkipped` | crates/splix_logger/src/socket.rs:97-100 | a lag notice is skipped: the follower gets the same logs as without it |
| `LogSockets.ClosedEnds` | crates/splix_logger/src/socket.rs:101-104 | nothing after the end of the channel is sent |
| `LogSockets.ClientRun` | crates/splix_logger/src/socket.rs:131-158 | connect or send failures end the client; otherwise it sends its request word and prints as `Client(follow, reads)` says |
| `LogSockets.FirstEmptyReadStops` | crates/splix_logger/src/socket.rs:146-153 | a non-follow client stops at the first zero-length read, having printed exactly the reads before it |
| `LogSockets.FollowerNeverFinishes` | crates/splix_logger/src/socket.rs:146-153 | a following client never stops on a zero-length read; it ends only on a read error |
| `LogSockets.FollowerSkipsEmptyRead` | crates/splix_logger/src/socket.rs:148-152 | a following client reads past an empty read as if it had not happened |

## Left out

- Widths: `usize` and `u32` are unbounded `nat` here. A `u32` product `screen_dimensions.y * screen_dimensions.x` that wraps, or a `y as u32` cast that truncates, is not modelled.
- The PTY: `Terminal::new`, `spawn_child`, `forkpty`, `execv`, `fcntl` and `Terminal::write` are system calls. A read is the bytes `fill_buf` returned, or its failure. Spawning is an `Option<Error>` parameter of `NewPane`.
- Concurrency: the tokio tasks, the `mpsc` channels (capacity 32 per window and 1024 for events), their back-pressure and the broadcast channel. Channels are sequences. The interleaving of pane tasks with the event loop is not modelled.
- `Panes.HandleTerminalIo`: a send that blocks on a full channel is not modelled. A send either succeeds (the first `accepted` sends) or fails.
- The event loop runs over a finite sequence of events. A channel that stays open waits forever in the source; here `Run` ends when the sequence does.
- `Session::attach`: an endless print loop to standard output.
- `Splix::retrieve_screen_dimensions`, `Termios`, raw mode, the alternate-screen guard and `InputReceiver`: terminal queries, system calls and standard input. The screen size is a parameter of `Splix.New`.
- `stdout.flush()` in `end_frame` is an I/O call. The output is the appended `seq<char>`.
- `Multiplexer.Splix.Redraw`, `Renderers.Renderer.DrawPane`: when drawing would panic the model returns `ok == false` and writes no frame. What the panic does to the process is not modelled.
- `Multiplexer.Splix.Run`: when a redraw panics the loop stops and reports `ok == false`. The output of that failed frame is not stated.
- `Windows.Window.GetPaneGrid`: the `println!` lines it writes to standard output for each applied update (`update: c` and `new line`, crates/splix_window/src/lib.rs:37, 41) are not modelled; the output modelled is the renderer's alone.
- `Windows.Window.GetPaneGrid`, `Multiplexer.Splix.HandlePaneUpdate`, `Multiplexer.Splix.HandleEvent`, `Multiplexer.Splix.Run`: the index panics of the source (a queued update for a missing pane; a pane id naming no session, window or pane) are preconditions, not modelled failures.
- The log server's socket bind and accept, the tokio `Mutex`, `eprintln!`/`println!` diagnostics, and the ring buffer `HeapRb` whose overwrite rule lives in a library not shown. The snapshot is the buffer's logs in order.
- Log text is a string. The bytes of its UTF-8 encoding on the socket are not modelled; `utf8.dfy` proves that encoding round-trips.
- `LogSockets.ClientRun`: the client prints each chunk with `String::from_utf8_lossy`. The model records the raw chunks and leaves lossy decoding out. It also leaves out the 1024-byte read buffer limit.
- `crates/splix_logger/src/lib.rs` (logger set-up), `crates/splix_server` and `crates/splix_api` (gRPC plumbing), and `crates/splix_main` (command line) are not part of this model.
- `crates/splix_error/src/error.rs` declares one variant and does not match its uses. The errors here are the variants the core names.

## Findings

| source | as written | input that shows it | evidently intended | confidence | as-written member | corrected member |
|---|---|---|---|---|---|---|
| crates/splix_terminal/src/lib.rs:66-89 | the carried incomplete bytes are stored but never put in front of the next buffer, so a character split across two reads is never decoded | the bytes of `é` (`C3 A9`) arriving as two one-byte buffers yield no characters; the first read even looks like end of file to the pane task | decode `carry ++ buffer`, keep only the undecoded tail | not executed | `Terminals.SplitCharIsLost`, `Panes.CutCharStopsPane` | `Terminals.JoinedReadsAreChunkingInvariant` |
| crates/splix_renderer/src/lib.rs:77-80 | a line longer than the screen width is not clipped: its overflow spills into the next row, and on the last row it indexes past the buffer and panics | a 3-character line on a 2-wide, 2-high screen puts its third character at (0, 1); on a 2x1 screen it panics | clip each line to the screen width | not executed | `Renderers.LongLineSpills`, `Renderers.LongLineOnLastRowOverruns` | `Renderers.ClippedCells` |
