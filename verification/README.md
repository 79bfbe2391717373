# VSatellite terminal and cluster state: a model in Dafny

The web application runs VSatellites in containers on one host.  It shows the terminals of the
containers in the browser, installs and removes VSatellites, keeps an encrypted configuration,
and shows what the containers and the host use.  This project models the parts of it that must
not lose anything, and proves what they keep.

The terminal output is followed all the way:

- `Relay`: the loop that reads the terminal through a buffer of 4096 bytes and sends each read as a message.
- `WriteBuffer`: the queue of the terminal, which parses in slices of time and may be written to from its own callbacks.
- `Utf8Decoder`, `Utf8Streams`: the decoder that holds back unfinished characters between slices.
- `Params`, `ParamLists`, `Transitions`, `TableBuilder`, `EscapeParser`, `ParserStreams`, `OscStrings`: the state machine with
  its table and its fast loops, the parameters, the operating system commands, and (`DcsStrings`) the device control strings.
- `Sequences`, `SequenceStreams`: terminal output as a list of commands, how each is spelled and what it means, and that the
  parser reports just that.
- `CircularList`, `BufferLine`, `Scrolling`, `Buffers`: the ring of line objects, scrollback and viewport.
- `LineStorage`: how a line stores its cells, with the combining text on the side.
- `WideCells`, `Cursor`, `Printing`, `ScreenOps`, `InputHandler`: what the handlers do to the screen; `PrintedText` and
  `RegionMoves` say it cell by cell and row by row, `Terminals` for runs of operations.
- `Reflow`, `Rewrapping`, `MergeRanges`: cutting wrapped lines anew, moving their cells, and merging ranges of joined characters.

The state of the server:

- `ConfigStore`: the key and the configuration on disk, with a failure or a stop possible at every call.
- `Tenant`, `Lifecycle`: installing and removing, by any number of interleaved requests.
- `Metrics`, `MetricLines`, `MetricRows`, `Collector`: counters that become rates over a run of polls, and every value of the
  table.
- `ShellQuote`: quoting, against the token recognition of the shell.
- `Text`, `Machine`, `Common`: white space and trimming; machines that read one input at a time; small notions shared by all.

Each stage that is fast, cut into slices or done in place is a class or a loop, as in the source, and is
proved to do what a simple function does; what the source is relied on for is then proved of that function.

Where the code does not do what it is meant to do, the model keeps the code and says exactly when it
goes wrong:

- A continuation byte 0x80 that is held back between two slices is forgotten (`Utf8Streams.DecodesExactly`).
- The data loop of the parser passes DEL on where the table ignores it (`ParserStreams.ParseExactly`).
- The table has no rule for characters beyond ASCII in a privacy message or application command: the first of them
  ends the string, and the rest of it shows as output (`SequenceStreams.OtherTextExactly`).
- Parameters of a control string that are a lone zero lose their sub-parameters (`DcsStrings.KeptExactly`).
- Without wrapping, a character printed behind the last column over a wide character tears it, and the screen then
  depends on where the output was cut (`Printing.PrintOneIntact`, `Printing.CutsShowExactly`).
- Narrowing the terminal loses combining characters: within one line the texts are moved upwards one by one and
  overwrite each other (`LineStorage.CopyShowsExactly`, `Rewrapping.Rewrap`).
- In origin mode a relative move, and a move to a column, counts the top margin twice and so leaves its row
  (`Cursor.OriginMove`, `Cursor.OriginColumn`).
- An error in the parser, or a refused write that escapes a callback, stops the write queue for good
  (`WriteBuffer.StallsExactly`, `WriteBuffer.WriteBuffer.RunStalled`).
- A key that can be neither read nor looked up is taken for missing and replaced, and the configuration with it becomes
  unreadable (`ConfigStore.Store.Save`, `ConfigStore.Store.SaveAll`).
- A key file that holds no key stops every save, even when nothing fails (`ConfigStore.SavesWhenNothingFails`).
- A registration is looked up by pairing code or name, whichever comes first in the list (`Tenant.PairedIsFound`).
- Credentials of a CCM installation are not kept if nothing is known about the tenant
  (`Lifecycle.Server.PairedIsSaved`).
- What an installation saves while a removal of the same container is under way is dropped unread
  (`Lifecycle.Server.DropsWhatItRead`).
- A container called `host` takes the place of the host's row (`Metrics.HostRowShown`).

Each of these has a lemma, or a method that runs into it, with the failing input.

`dafny verify dfyconfig.toml` checks the project.

The file `web/static/xterm/xterm.js` holds all of its code on line 1; the classes are named as there.

## Model

| member | source | states |
|---|---|---|
| Relay.Pump | internal/webterm/webterm.go:80-95 | the messages sent are what was read, in order, up to the first read or send that fails; the buffer used again for every read does not change a message already sent |
| Relay.MessagesMeaning | internal/webterm/webterm.go:79-95 | the messages together are exactly the output that was read; none is empty, none is longer than the 4096 byte buffer |
| Relay.SessionExactly | internal/webterm/webterm.go:79-95 | from the reads to the handler calls: UTF-8 text arrives as if parsed code by code in one piece, unless a read ends behind a 0x80 inside a character or puts DEL behind DCS data |
| Utf8Decoder.Utf8ToUtf32.Decode | web/static/xterm/xterm.js:1 | one call emits exactly what a byte-at-a-time decoder emits that starts with the bytes held back, and holds back exactly the unfinished bytes of that decoder; never more values than bytes |
| Utf8Decoder.Utf8ToUtf32.constructor | web/static/xterm/xterm.js:1 | nothing is held back at first |
| Utf8Streams.ReadEmitsScalars | web/static/xterm/xterm.js:1 | for every byte sequence, malformed or not, only Unicode scalar values other than U+FEFF come out, at most one per byte |
| Utf8Streams.FeedEmitsScalars | web/static/xterm/xterm.js:1 | the same for every run of slices, from every state the decoder can be in |
| Utf8Streams.SlicesDoNotMatter | web/static/xterm/xterm.js:1 | for any bytes at all, slices that never hold back a 0x80 decode as the uncut stream does, and leave the decoder in the same state |
| Utf8Streams.DecodeOfEncode | web/static/xterm/xterm.js:1 | decoding undoes the encoding of section 3 of RFC 3629, except that U+FEFF goes |
| Utf8Streams.DecodesExactly | web/static/xterm/xterm.js:1 | text cut into slices comes out complete, byte order marks aside, if and only if no slice ends right behind a 0x80 inside a character |
| Utf8Streams.DashIsLost | web/static/xterm/xterm.js:1 | the failing input: an em dash cut behind its second byte comes out as nothing |
| Params.Params.AddParam | web/static/xterm/xterm.js:1 | a parameter is taken up, or once 32 are there it and all that belongs to it are dropped |
| Params.Params.AddSubParam | web/static/xterm/xterm.js:1 | a sub-parameter is taken up unless its parameter was dropped or 32 are there |
| Params.Params.AddDigit | web/static/xterm/xterm.js:1 | a digit goes to the parameter or sub-parameter begun last, saturating at 2^31-1, and nowhere if that one was dropped |
| Params.Params.Reset | web/static/xterm/xterm.js:1 | back to no parameters at all |
| Params.Params.ToArray | web/static/xterm/xterm.js:1 | the typed arrays with their packed ranges give the nested list of the model |
| ParamLists.PrintThenRead | web/static/xterm/xterm.js:1 | for every list of parameters and sub-parameters, of any length, printing it as in section 5.4.2 of ECMA-48 and feeding it code by code gives back the list that fits: values saturated, 0 for an empty parameter, -1 for an empty sub-parameter, no more than 32 of each |
| ParamLists.RoundTrip | web/static/xterm/xterm.js:1 | a list of up to 32 parameters with up to 32 sub-parameters in all comes back complete |
| ParamLists.NothingDropped | web/static/xterm/xterm.js:1 | what fits the limits is not shortened by them |
| ParamLists.LimitsExactly | web/static/xterm/xterm.js:1 | of any list the first 32 parameters are kept, and of the sub-parameters of those the first 32 |
| Transitions.EscResets | web/static/xterm/xterm.js:1 | an ESC brings the parser into the same state from wherever it was |
| Transitions.EscSynchronises | web/static/xterm/xterm.js:1 | from an ESC on the handler calls do not depend on the history |
| TableBuilder.TransitionTable.Fill | web/static/xterm/xterm.js:1 | filling the typed array rule after rule, of which the last one counts, gives for every state and every code the entry of the table that the parser is modelled with |
| Sequences.CommandRead | web/static/xterm/xterm.js:1 | from every state of the parser: an escape sequence, control sequence, system command, device control string or other string, in its seven-bit or eight-bit form, with any parameters, data and ending, is reported as what it means: exactly one call with the number made of its prefix, intermediates and final character and with its parameters as far as they fit, its data in order, and whether it was cut off; in Ground text and controls are reported as themselves. Every command ends in Ground, and a string that was open is ended first |
| Sequences.CommandsRead | web/static/xterm/xterm.js:1 | output made of any number of such commands is reported as their meanings one after the other |
| SequenceStreams.IdentifierOf | web/static/xterm/xterm.js:1 | the number a handler is registered under, or the error, from prefix, intermediates and final character |
| SequenceStreams.HandlerReached | web/static/xterm/xterm.js:1 | a sequence with any number of intermediates has the number of a registered handler if and only if prefix, intermediates and final character are those the handler was registered for |
| SequenceStreams.ControlsInside | web/static/xterm/xterm.js:1 | controls and DEL strewn over the header of a control sequence or control string: those of a sequence are obeyed where they stand, and the header means what it means without them |
| SequenceStreams.ControlSequenceExactly | web/static/xterm/xterm.js:1 | whatever stands between CSI and the final character: the handler is told of it once, with its parts, if a private marker stands only first and nothing but intermediates follows an intermediate; otherwise nobody is told; in Ground afterwards either way |
| SequenceStreams.EntriesSpelled | web/static/xterm/xterm.js:1 | every string of digits, colons and semicolons is the text of a list of parameters |
| SequenceStreams.DeviceControlSkipped | web/static/xterm/xterm.js:1 | of a control string whose header is not in good order nobody is told, up to its end |
| SequenceStreams.OtherTextExactly | web/static/xterm/xterm.js:1 | a privacy message or application command is skipped in silence if and only if its text is ASCII; otherwise it ends at the first other character, which is reported as malformed |
| SequenceStreams.ChunksRead | web/static/xterm/xterm.js:1 | output made of commands and cut into chunks anywhere: the fast loops report exactly what the commands mean |
| EscapeParser.EscapeSequenceParser.Parse | web/static/xterm/xterm.js:1 | the loop with its four unrolled inner loops leaves the state, collected characters and parameters, and makes the handler calls (print, string and data slices taken apart into codes), of a reference that goes code by code through the table; what the table makes of a sequence is said by Sequences.CommandRead |
| EscapeParser.EscapeSequenceParser.ScanPrint | web/static/xterm/xterm.js:1 | the print loop, unrolled four times, ends exactly where the printable stretch ends |
| EscapeParser.EscapeSequenceParser.FillParams | web/static/xterm/xterm.js:1 | the parameter loop feeds the parameters exactly the stretch of digits and separators |
| ParserStreams.ParseExactly | web/static/xterm/xterm.js:1 | the fast parser and the transition table always end in the same state, collected characters and parameters; their handler calls are equal if and only if no DEL stands behind DCS data |
| ParserStreams.ChunksExactly | web/static/xterm/xterm.js:1 | any run of chunks ends in the state of the uncut stream, and makes the same handler calls if and only if no chunk holds a DEL right behind DCS data |
| ParserStreams.CutsDoNotMatter | web/static/xterm/xterm.js:1 | two ways of cutting one stream give the same state, and the same calls where no DEL stands behind DCS data |
| ParserStreams.DelDependsOnTheCut | web/static/xterm/xterm.js:1 | the failing input: a data code and a DEL make different calls in one chunk and in two |
| ParserStreams.PipelineExactly | web/static/xterm/xterm.js:1 | bytes in slices, decoded and parsed, against the text parsed in one piece: same state, and same calls if and only if no DEL stands behind DCS data |
| OscStrings.OscParser.Put | web/static/xterm/xterm.js:1 | a slice leaves the state and sends the handlers the messages that its codes would, one by one, in the reference |
| OscStrings.OscParser.Finish | web/static/xterm/xterm.js:1 | the end of a command is told to the handlers unless the command was aborted; a command without data is begun first |
| OscStrings.OscParser.Command | web/static/xterm/xterm.js:1 | a whole command, begun, put in any slices and ended, tells the handlers what it means; one still open before is cancelled |
| OscStrings.OscParser.ReadId | web/static/xterm/xterm.js:1 | digits are added to the identifier up to the first other character; anything but a semicolon there aborts the command |
| OscStrings.CommandMeaning | web/static/xterm/xterm.js:1 | for every string: a number, a semicolon and data reach the handler of that number with that data; anything else in place of the number reaches none |
| OscStrings.SlicesJoin | web/static/xterm/xterm.js:1 | a command put in slices, cut anywhere, reaches the handler as the same data as in one piece |
| OscStrings.KeptWholeOrDropped | web/static/xterm/xterm.js:1 | a handler gets its data whole or not at all, the limit of 10^7 UTF-16 units deciding |
| OscStrings.OscHandler.Put | web/static/xterm/xterm.js:1 | data are collected until the limit is passed, and then thrown away for good |
| OscStrings.OscHandler.End | web/static/xterm/xterm.js:1 | the callback is called with all of the data exactly when the string ended well and within the limit |
| DcsStrings.DcsParser.Take | web/static/xterm/xterm.js:1 | a whole control string in any slices: a handler's function is called, once and with all of the data, exactly if the string ended well, its data are within the limit, and no handler registered later keeps the string |
| DcsStrings.TwoHandlers | web/static/xterm/xterm.js:1 | of two handlers registered for one kind of string, the first one sees it only if the second one does not keep it |
| DcsStrings.DcsParser.Unhook | web/static/xterm/xterm.js:1 | the handlers are asked from the last registered down until one keeps the string; the others are told that it failed |
| DcsStrings.DcsParser.Hook | web/static/xterm/xterm.js:1 | a string still open is given up before the next one begins; without handlers it goes unclaimed |
| DcsStrings.DcsParser.Reset | web/static/xterm/xterm.js:1 | a string that is given up leaves every handler at work empty and calls none of their functions |
| DcsStrings.DcsHandler.Put | web/static/xterm/xterm.js:1 | data are collected until the limit is passed, and then thrown away for good |
| DcsStrings.KeptExactly | web/static/xterm/xterm.js:1 | a handler sees the parameters as they were read if and only if they are not a lone zero with sub-parameters |
| DcsStrings.LoneZeroLosesSubs | web/static/xterm/xterm.js:1 | the failing input: the parameters 0:4 arrive as 0 |
| CircularList.CircularList.Push | web/static/xterm/xterm.js:1 | through modular indices: append, and drop the oldest if the list is full |
| CircularList.CircularList.Recycle | web/static/xterm/xterm.js:1 | the oldest element becomes the newest, in a full list only |
| CircularList.CircularList.Pop | web/static/xterm/xterm.js:1 | remove the last element |
| CircularList.CircularList.TrimStart | web/static/xterm/xterm.js:1 | drop as many of the oldest as asked for, or all |
| CircularList.CircularList.SetMaxLength | web/static/xterm/xterm.js:1 | a new capacity keeps the contents |
| CircularList.CircularList.Splice | web/static/xterm/xterm.js:1 | delete, insert, and trim from the front what no longer fits; the events tell exactly that |
| CircularList.CircularList.ShiftElements | web/static/xterm/xterm.js:1 | a block move, past the end of the list if need be, with the events for what is trimmed; refused without effect for indices out of range |
| CircularList.CircularList.Get | web/static/xterm/xterm.js:1 | the element at an index |
| CircularList.CircularList.SetAt | web/static/xterm/xterm.js:1 | replaces the element at an index and no other |
| CircularList.MarkersFollowSplice | web/static/xterm/xterm.js:1 | a marker that answers the events of a splice still points at the line it was set on, and is disposed exactly when that line was deleted or trimmed |
| Scrolling.ScreenAfterScroll | web/static/xterm/xterm.js:1 | on the screen a scroll takes out the top line of the region, moves up those below, and puts the blank line at the bottom; all else stays |
| Scrolling.ScrollbackAfterScroll | web/static/xterm/xterm.js:1 | a region at the top of the screen leaves its top line in the scrollback, whose oldest line goes when the store is full; any other region leaves the scrollback alone |
| Scrolling.ScrolledOk | web/static/xterm/xterm.js:1 | a scroll keeps: as many lines as scrollback and screen together and no more than the capacity, the viewport within the scrollback, and scrolled back exactly if the user did it |
| Scrolling.ScrolledByOk | web/static/xterm/xterm.js:1 | so does moving the viewport |
| Scrolling.ScrolledByMeaning | web/static/xterm/xterm.js:1 | the viewport goes as far as asked but not beyond the scrollback, and counts as scrolled back exactly if it is not at the bottom |
| Scrolling.ViewportStays | web/static/xterm/xterm.js:1 | while the user is scrolled back, output of any length keeps the same line at the top of the viewport until that line itself is evicted |
| Scrolling.UpAfterDown | web/static/xterm/xterm.js:1 | moving the lines of a region up takes back moving them down, but for those that fell out |
| Buffers.Buffer.constructor | web/static/xterm/xterm.js:1 | a screen of distinct blank lines, of at least two columns and one row |
| Buffers.Buffer.Scroll | web/static/xterm/xterm.js:1 | scrolling acts on line objects and on their contents as the pure scroll does, also where the oldest object is used again for the blank line; no object stands in the store twice and no other line changes |
| Buffers.Buffer.ScrollLines | web/static/xterm/xterm.js:1 | the user moves the viewport, within the scrollback |
| Buffers.Buffer.ReplaceRow | web/static/xterm/xterm.js:1 | deleting a line and inserting a blank one, on objects and on contents |
| Buffers.Buffer.MoveRegionDown | web/static/xterm/xterm.js:1 | shifting the lines of a region in place and setting its top is taking out its bottom and inserting a blank line |
| Buffers.ValuesScrolled | web/static/xterm/xterm.js:1 | when an object is used again, no line shows the contents of another |
| LineStorage.StoredLine.SetCell | web/static/xterm/xterm.js:1 | setting a cell replaces the cell that is shown there and no other, although an old text may stay on the side |
| LineStorage.StoredLine.LoadCell | web/static/xterm/xterm.js:1 | loading a cell gives the one that is shown |
| LineStorage.StoredLine.AddCodepointToCell | web/static/xterm/xterm.js:1 | a combining character joins the text of the cell that is shown; an empty cell becomes a narrow one |
| LineStorage.StoredLine.CopyFrom | web/static/xterm/xterm.js:1 | a copied line shows what the other one shows |
| LineStorage.StoredLine.CopyCellsFrom | web/static/xterm/xterm.js:1 | copies words of cells from right to left, then all texts from the first column copied on, one by one in the order of their columns, however far to the right they are; what is shown is the copy if and only if every text lands where it belongs |
| LineStorage.CopyShowsExactly | web/static/xterm/xterm.js:1 | the exact condition of a single copy: a flagged cell gets the lowest text of its chain, and no text behind the copied ones lands on a flagged cell with another text |
| Reflow.SmallerLineLengths | web/static/xterm/xterm.js:1 | walking over the rows of a wrapped line yields the lengths a greedy cutter of the logical line yields |
| Reflow.GreedyCuts | web/static/xterm/xterm.js:1 | for 2 <= new columns < old columns the lengths add up to the whole line, each is between 1 and the new width, all but the last fill the row up to one cell, and no cut goes through a wide character |
| Reflow.LogicalPaired | web/static/xterm/xterm.js:1 | put one after the other, the trimmed rows hold every wide character whole |
| Reflow.EnoughRows | web/static/xterm/xterm.js:1 | there are at least as many new rows as old ones, unless the line is empty |
| Rewrapping.MoveBack | web/static/xterm/xterm.js:1 | moving the cells of the old rows to the new ones in the same objects, from the end, overwrites no code, width or attribute before it has been moved; which text each cell ends up with |
| Rewrapping.Rewrap | web/static/xterm/xterm.js:1 | after narrowing, each row starts with its piece of the logical line, and a blank cell stands behind a row that was cut early; the pieces are shown as they were, combining characters included, if and only if every cell ends up with its own text |
| Rewrapping.PiecesShown | web/static/xterm/xterm.js:1 | the exact condition: the new rows show the line if and only if no cell ends up with the text of another, which its own row puts there when it moves by the distance of two texts, or the row before when it has an old text behind its end |
| Rewrapping.FirstRowStays | web/static/xterm/xterm.js:1 | nothing is lost if only the first row of the wrapped line has combining characters |
| Rewrapping.ApartStays | web/static/xterm/xterm.js:1 | nor if no two texts of a row stand as far apart as the row moves and no row keeps texts behind its end |
| Rewrapping.AccentLost | web/static/xterm/xterm.js:1 | the failing input: four letters, then an accented e and o on the second row, narrowed from four columns to three |
| WideCells.InsertCells | web/static/xterm/xterm.js:1 | inserting cells in place: shift, clear, and clear the halves left at both ends |
| WideCells.Write | web/static/xterm/xterm.js:1 | writing a character keeps all wide characters whole but for an orphan right behind it |
| WideCells.Combine | web/static/xterm/xterm.js:1 | a combining character tears nothing |
| WideCells.Insert | web/static/xterm/xterm.js:1 | insert mode tears nothing, if and only if it does not push a lone combining character out of the first column |
| WideCells.LastColumn | web/static/xterm/xterm.js:1 | overwriting the last column in place tears a wide character if and only if its second half stands there |
| Printing.PrintOneIntact | web/static/xterm/xterm.js:1 | printing one glyph, in any mode, keeps every wide character whole if and only if it is not one of two cases: behind the last column without wrapping over a wide character, or insert mode pushing a lone combining character to the right |
| Printing.PrintedIntact | web/static/xterm/xterm.js:1 | with wrapping and without inserting, a call of the print handler with any text keeps every wide character of every line whole |
| Printing.PlainText | web/static/xterm/xterm.js:1 | narrow text that fits the line stands in the line cell by cell, the cursor behind it, and nothing else changes |
| Printing.SlicesLeaveNoTrace | web/static/xterm/xterm.js:1 | with wrapping on, in insert mode or not, printing two slices one after the other leaves the same screen and cursor as printing them as one |
| Printing.PiecesPrintAsOne | web/static/xterm/xterm.js:1 | the same for any number of slices, so that the screen cannot tell where the parser cut the text |
| Printing.CutsShowExactly | web/static/xterm/xterm.js:1 | in every mode a cut leaves no trace if and only if the first slice does not leave the cursor inside a wide character, or the second one inserts a narrow glyph there before any combining character |
| Printing.TornAndSeen | web/static/xterm/xterm.js:1 | the failing inputs: behind a wide character at the end of the row a narrow glyph tears it, and a cut behind a wide glyph shows |
| Printing.PrintedEdge | web/static/xterm/xterm.js:1 | printing leaves the cursor inside a wide character only in the last column when it does not wrap |
| Cursor.UpStops | web/static/xterm/xterm.js:1 | moving up stops at the top margin, or at the top of the screen from above it |
| Cursor.DownStops | web/static/xterm/xterm.js:1 | moving down stops at the bottom margin, or at the bottom of the screen from below it |
| Cursor.SidewaysStops | web/static/xterm/xterm.js:1 | moving right and left stays in the row and stops at the last and the first column; no number means one |
| Cursor.MoveMeaning | web/static/xterm/xterm.js:1 | any relative move: the distance asked for, bounded by the screen, or in origin mode by the region with its top added once more |
| Cursor.PositionMeaning | web/static/xterm/xterm.js:1 | a position counted from one, bounded by the screen, or counted from the top of the region and bounded by it in origin mode |
| Cursor.UpThenDown | web/static/xterm/xterm.js:1 | down undoes up where no margin is hit |
| Cursor.OriginMove | web/static/xterm/xterm.js:1 | in origin mode a relative move within the region, in any direction, ends where it should if and only if there is no top margin, or the bottom margin stops it right there |
| Cursor.OriginColumn | web/static/xterm/xterm.js:1 | a move to a column in origin mode stays in its row if and only if there is no top margin, or the row is the bottom margin |
| Cursor.OriginMoveDoubles | web/static/xterm/xterm.js:1 | the failing inputs, below a top margin of two: one row down goes three, one column to the right and a move to a column go two rows down |
| Cursor.NextStopMeaning | web/static/xterm/xterm.js:1 | a tab goes to the first stop on the right, or to the last column |
| Cursor.PrevStopMeaning | web/static/xterm/xterm.js:1 | a back tab goes to the last stop on the left, or to the first column |
| ScreenOps.LineFedMeaning | web/static/xterm/xterm.js:1 | row by row: a line feed moves the cursor down, or at the bottom of the region scrolls it; the row that is reached no longer continues the one above, and nothing else changes |
| ScreenOps.IndexedMeaning | web/static/xterm/xterm.js:1 | row by row: an index moves the cursor down or scrolls the region, and changes nothing else |
| ScreenOps.GlyphBehindFullLine | web/static/xterm/xterm.js:1 | row by row: a glyph behind a full line goes to the first column of the next row, which is marked as continuing the line; at the bottom of the region the region scrolls first |
| PrintedText.TextStands | web/static/xterm/xterm.js:1 | a call of the print handler with text that fits the line, all narrow or all wide: the k-th character stands in its column with its width and the current attribute, halves of wide characters torn at both ends are cleared, every other cell, line and mark is as before, and the cursor stands behind the text |
| PrintedText.TextPushes | web/static/xterm/xterm.js:1 | the same in insert mode: what stood from the cursor on is pushed to the right and off the row, and no wide character into the last column |
| PrintedText.MarksJoin | web/static/xterm/xterm.js:1 | a call with combining characters: they are appended to the text of the cell before the cursor, or of the wide character there; an empty cell becomes narrow |
| PrintedText.TextStaysInRow | web/static/xterm/xterm.js:1 | narrow text without wrapping, of any length: each character in its column, and the last one in the last column |
| PrintedText.GlyphWraps | web/static/xterm/xterm.js:1 | row by row: a glyph that finds no room empties the rest of the line and goes to the first column of the next row, which continues the line; at the bottom of the region the region scrolls first |
| PrintedText.TextFlows | web/static/xterm/xterm.js:1 | narrow text that runs over the end of the line fills the line and goes on as text at the start of the next row |
| RegionMoves.ScrollUpMeaning | web/static/xterm/xterm.js:1 | row by row: row y of the region shows row y+n, or an empty line where there is none; other rows, scrollback and cursor stay; n is one if it is zero |
| RegionMoves.ScrollDownMeaning | web/static/xterm/xterm.js:1 | row by row: row y of the region shows row y-n, or an empty line where there is none; other rows, scrollback and cursor stay |
| RegionMoves.InsertLinesMeaning | web/static/xterm/xterm.js:1 | row by row: the rows from the cursor to the bottom margin move down, empty lines come in, and the cursor goes to the first column; outside of the region only the cursor is brought onto the screen |
| RegionMoves.DeleteLinesMeaning | web/static/xterm/xterm.js:1 | row by row: the rows from the cursor to the bottom margin move up, empty lines come in at the bottom margin, and the cursor goes to the first column; outside of the region only the cursor is brought onto the screen |
| RegionMoves.ReverseIndexMeaning | web/static/xterm/xterm.js:1 | row by row: one row up, or at the top margin the region moves down by one; at the top of the screen outside of the region nothing moves |
| ScreenOps.ReverseAfterIndex | web/static/xterm/xterm.js:1 | a reverse index takes back an index that did not scroll, if and only if the index did not enter the region from above |
| ScreenOps.BackspaceAfterPrint | web/static/xterm/xterm.js:1 | a backspace takes back the advance of a narrow glyph, if and only if it was not put into the last column or reverse wraparound is on |
| ScreenOps.BackspaceAfterWrap | web/static/xterm/xterm.js:1 | with reverse wraparound a backspace right behind a wrap goes back to the end of the full line and ends its continuation |
| ScreenOps.DeleteAfterInsert | web/static/xterm/xterm.js:1 | deleting as many lines as were inserted brings back every line that was not pushed out of the region |
| ScreenOps.LineFedIntact | web/static/xterm/xterm.js:1 | a line feed keeps every wide character whole |
| ScreenOps.IndexedIntact | web/static/xterm/xterm.js:1 | so does an index |
| ScreenOps.RegionOpsIntact | web/static/xterm/xterm.js:1 | so do reverse index, inserting and deleting lines |
| ScreenOps.BackspacedIntact | web/static/xterm/xterm.js:1 | so does a backspace |
| ScreenOps.ScrolledIntact | web/static/xterm/xterm.js:1 | so does scrolling the region up or down |
| InputHandler.InputHandler.Print | web/static/xterm/xterm.js:1 | the whole screen after a print call, as a function of the screen before, the modes and the translated text; and of the codes handed over: text that fits, narrow or wide, in insert mode or not, stands in its columns as those codes, or as their stand-ins in the character set for codes below 127, and combining codes are appended to the cell before |
| InputHandler.InputHandler.LineFeed | web/static/xterm/xterm.js:1 | the whole screen after a line feed, including the wrap mark of the line that is reached |
| InputHandler.InputHandler.Index | web/static/xterm/xterm.js:1 | the whole screen after an index |
| InputHandler.InputHandler.NextLine | web/static/xterm/xterm.js:1 | the whole screen after a next line: first column, then index |
| InputHandler.InputHandler.ReverseIndex | web/static/xterm/xterm.js:1 | the whole screen after a reverse index: one row up, or at the top of the region every row of it one down |
| InputHandler.InputHandler.Backspace | web/static/xterm/xterm.js:1 | the whole screen after a backspace, with reverse wraparound back onto the line that was continued |
| InputHandler.InputHandler.InsertLines | web/static/xterm/xterm.js:1 | the whole screen after inserting lines, row by row: the rest of the region moves down by as many lines, empty lines come in |
| InputHandler.InputHandler.DeleteLines | web/static/xterm/xterm.js:1 | the whole screen after deleting lines, row by row: the rest of the region moves up by as many lines |
| InputHandler.InputHandler.ScrollUp | web/static/xterm/xterm.js:1 | the whole screen after scrolling the region up, row by row: row y+n comes to row y, empty lines behind |
| InputHandler.InputHandler.ScrollDown | web/static/xterm/xterm.js:1 | the whole screen after scrolling the region down, row by row, filled with default attributes |
| InputHandler.InputHandler.CursorUp | web/static/xterm/xterm.js:1 | the position after moving up, on the screen |
| InputHandler.InputHandler.CursorDown | web/static/xterm/xterm.js:1 | the position after moving down, on the screen |
| InputHandler.InputHandler.CursorPosition | web/static/xterm/xterm.js:1 | the position asked for, brought onto the screen, or into the region in origin mode |
| InputHandler.InputHandler.Tab | web/static/xterm/xterm.js:1 | the next tab stop, unless the cursor waits behind the last column |
| InputHandler.InputHandler.CursorForwardTab | web/static/xterm/xterm.js:1 | as many tab stops on as asked for |
| InputHandler.InputHandler.CursorBackwardTab | web/static/xterm/xterm.js:1 | as many tab stops back as asked for |
| InputHandler.InputHandler.SetScrollRegion | web/static/xterm/xterm.js:1 | the region is set and the cursor goes home if the bottom lies below the top; otherwise nothing changes |
| InputHandler.InputHandler.RestoreCursor | web/static/xterm/xterm.js:1 | the saved position, brought back onto the screen as it is now, with the saved attributes and character set |
| InputHandler.InputHandler.SaveAndRestore | web/static/xterm/xterm.js:1 | saving, any other operations and restoring bring back attributes, character set and column, and the place in the store as far as that is still on the screen |
| InputHandler.InputHandler.Perform | web/static/xterm/xterm.js:1 | every run of these operations comes to their effects one after the other; the cursor stays on the screen (or one column behind it), the region in order, and the line under the cursor in the store; and as long as wrapping is not switched off and insert mode not on, no wide character is ever torn |
| Terminals.RunIntact | web/static/xterm/xterm.js:1 | the same of the effects: over every run no wide character is torn while wrapping is on and nothing is inserted, and a saved cursor stays saved until another one is |
| Terminals.SavedAndRestored | web/static/xterm/xterm.js:1 | saving the cursor, any run of operations that does not save it again, and restoring it: attributes, character set and column are as they were, and the line of the store too, as far as it is on the screen, or in the region in origin mode |
| WriteBuffer.WriteBuffer.Write | web/static/xterm/xterm.js:1 | a write is refused exactly when more than 5*10^7 are pending; accepted chunks come to the end of the queue; pending data never exceed the limit by more than the last chunk |
| WriteBuffer.WriteBuffer.InnerWrite | web/static/xterm/xterm.js:1 | what one call does is what the reference says: chunks are parsed exactly once, in order, each followed by its own callback, with the writes from callbacks that are not refused added behind; an error leaves the loop if and only if the reference says so, and otherwise a timer is set exactly if something waits |
| WriteBuffer.WriteBuffer.Fire | web/static/xterm/xterm.js:1 | a timer that fires gets at least one chunk done, or an error leaves the loop |
| WriteBuffer.WriteBuffer.Run | web/static/xterm/xterm.js:1 | over every interleaving of writes, key presses, timers that stop early and writes from callbacks the queue is what the reference says; nothing accepted, done or traced is taken back; the queue is stalled afterwards if and only if in one of the steps an error left the loop |
| WriteBuffer.WriteBuffer.RunStalled | web/static/xterm/xterm.js:1 | once stalled, nothing that is written is ever parsed again |
| WriteBuffer.ThrowsExactly | web/static/xterm/xterm.js:1 | an error leaves the loop if and only if among the visits that are reached before the time is over or nothing waits there is one in which the parser throws, or a callback lets a refused write escape |
| WriteBuffer.RefusedExactly | web/static/xterm/xterm.js:1 | some write of a callback is refused if and only if more than 5*10^7 wait before its last one |
| WriteBuffer.StallsExactly | web/static/xterm/xterm.js:1 | a run ends stalled if and only if it has a step in which an error leaves the loop |
| WriteBuffer.StalledForGood | web/static/xterm/xterm.js:1 | a stalled queue stays stalled and gets nothing more done, whatever follows |
| WriteBuffer.ThrowingParserStalls | web/static/xterm/xterm.js:1 | the failing input: one write, and a timer in whose visit the parser throws |
| WriteBuffer.StallForGood | web/static/xterm/xterm.js:1 | a new queue gets there, and any further steps change nothing |
| WriteBuffer.TraceTellsAll | web/static/xterm/xterm.js:1 | the trace of a queue names every chunk once and in order, and every callback once and in order |
| WriteBuffer.CallbackBehindChunk | web/static/xterm/xterm.js:1 | a callback is called right behind its own chunk |
| MergeRanges.Ranges.Merge | web/static/xterm/xterm.js:1 | the loop that splices in place gives the list in which the new range has swallowed exactly those it overlaps |
| MergeRanges.MergedCovers | web/static/xterm/xterm.js:1 | the merged list covers exactly the positions of the old ranges and of the new one |
| MergeRanges.MergedOrdered | web/static/xterm/xterm.js:1 | the merged list is in order and without overlaps again |
| MergeRanges.Ranges.MergeAll | web/static/xterm/xterm.js:1 | merging all ranges of further lists covers the union and keeps the order |
| ConfigStore.Store.Save | internal/config/config.go:126-151 | returns no error if and only if there is a configuration and every call that has to work does: for the directory, for a key found or made, for the nonce, and the five of the write; then the files give the configuration with its defaults. Wherever the machine stops, the files give the configuration from before or the new one, and a good key stays, unless reading the key and looking it up both fail; there is a moment with an unreadable configuration if and only if that happens and everything else works. No temporary file stays behind unless two calls in a row fail |
| ConfigStore.Store.SaveAll | internal/config/config.go:126-151 | over any number of saves the files read as the last configuration whose save returned no error, and every state of the disk as the first configuration or one of those saved, unless a good key was replaced; when nothing fails and the key is good or not there yet, every save works. With a random source that never repeats itself a key was replaced if and only if two good keys have been on the disk; it takes two calls in a row that fail, and some state is then unreadable if there was a configuration |
| ConfigStore.SavesWhenNothingFails | internal/config/config.go:126-202 | when nothing fails a save works if and only if there is no key file or it holds a key |
| ConfigStore.KeyTakenForMissing | internal/config/config.go:184-202 | the failing input: the directory is there, the key can be neither read nor looked up |
| ConfigStore.Store.SaveSteps | internal/config/config.go:132-150 | works exactly if the calls do that have to; the files go through three stages only: as before, with a new key, with the new configuration; an error leaves the configuration as it was |
| ConfigStore.Store.LoadOrCreateKey | internal/config/config.go:184-202 | works exactly if a key is read or made; a key is written exactly if there is none, or if what is there was not read as a key and looking it up failed too; a key that is returned is the one on disk |
| ConfigStore.Store.LoadKey | internal/config/config.go:173-182 | the key, or which of the three failures there was; a key has 32 bytes |
| ConfigStore.Store.WriteFileAtomic | internal/config/config.go:239-259 | every intermediate state shows the old file; the new one appears if and only if all five calls work; the temporary file stays behind if and only if a call behind its creation fails and its removal does too |
| ConfigStore.Store.Load | internal/config/config.go:101-124 | not configured exactly if there is no file; what is returned is what the files hold, with defaults; without faults a readable file is always returned |
| ConfigStore.DefaultsSettle | internal/config/config.go:153-160 | the defaults, vsat and 4, make a usable configuration, leave a usable one alone, change nothing else, and are settled after one application |
| ConfigStore.Config.ApplyDefaults | internal/config/config.go:153-160 | updates the configuration in place to its default-filled form |
| Tenant.DeleteStaleEdgeInstances | internal/vsatinstall/vsatinstall.go:522-550 | fails at once without a list; otherwise asks for the deletion of the stale instances in the order of the list and stops at the first refusal; succeeds exactly if all were asked for and all worked |
| Tenant.StaleIdsMeaning | internal/vsatinstall/vsatinstall.go:527-547 | an id is asked to be deleted if and only if an instance of the environment that is not connected and not in use has it |
| Tenant.FindInstance | internal/vsatinstall/vsatinstall.go:610-620 | the first instance of the list with the pairing code or the name, and an id |
| Tenant.PairedIsFound | internal/vsatinstall/vsatinstall.go:652-662 | the instance registered with the pairing code is found if and only if no other one with the container's name stands before it |
| Tenant.OtherIsFound | internal/vsatinstall/vsatinstall.go:610-620 | the failing input: another instance with the name of the container stands first |
| Tenant.DeleteRegistered | internal/vsatinstall/vsatinstall.go:647-667 | succeeds exactly if there is no registration or the deletion of the one found works; a list that cannot be had is a failure |
| Lifecycle.DeleteTenantEdgeInstance | internal/httpserver/handlers.go:330-341 | does nothing exactly if the credentials are not all there; otherwise succeeds only if the registration is gone or there was none |
| Lifecycle.FormIsKept | internal/vsatinstall/vsatinstall.go:277-322 | the first metadata of either backend hold the trimmed credentials of its own form, each in its field, and nothing of the other backend's |
| Lifecycle.Server.SaveContainerMetadata | internal/httpserver/handlers.go:280-312 | metadata are kept if and only if tenant URL, company or organization is known; no other container is touched |
| Lifecycle.Server.RemoveContainerMetadata | internal/httpserver/handlers.go:314-328 | drops the metadata of one container, whose deletion must have worked |
| Lifecycle.Server.StepInstall | internal/vsatinstall/vsatinstall.go:286-351 | each stage of an installation follows from the one before if the call worked; any failure ends the request |
| Lifecycle.Server.StepProbing | internal/vsatinstall/vsatinstall.go:277-302 | an NGTS installation with an environment saves exactly its credentials, trimmed, at once; a CCM one saves nothing yet and goes on to look up its tenant |
| Lifecycle.Server.StepTenant | internal/vsatinstall/vsatinstall.go:193-203 | failing to find out about the tenant does not stop an installation, but then nothing is saved; otherwise exactly what was found out is |
| Lifecycle.Server.StepPairing | internal/vsatinstall/vsatinstall.go:208-222 | with a pairing code and its id, both not empty, the id is saved with the credentials |
| Lifecycle.Server.StepRenaming | internal/vsatinstall/vsatinstall.go:233-248 | the id of the registration is saved with all that was saved before, and the request ends |
| Lifecycle.Server.StepRemove | internal/httpserver/handlers.go:186-206 | uninstall, delete the registration, delete the container, drop the metadata: each only after the one before worked; the metadata are read in between and kept to the end of the request |
| Lifecycle.Server.Run | internal/httpserver/handlers.go:186-264 | any interleaving of any number of requests, with any call failing, comes to the effects of its steps one after the other; what follows holds in all of them |
| Lifecycle.EndsExactly | internal/vsatinstall/vsatinstall.go:193-260 | whatever other requests do in between: a request ends well if and only if every reply lets it go on and there are as many as it has stages left, and has failed exactly if one did not |
| Lifecycle.RemovalDoes | internal/httpserver/handlers.go:186-206 | a removal that ends well has uninstalled, deleted the registration, deleted the container and dropped the metadata |
| Lifecycle.Server.DeletedLast | internal/httpserver/handlers.go:192-203 | a container is deleted only after, in the same request, uninstalling and deleting the registration both succeeded, in this order |
| Lifecycle.Server.DroppedLast | internal/httpserver/handlers.go:200-204 | metadata are dropped only after the container was deleted in the same request |
| Lifecycle.Server.PairedIsSaved | internal/vsatinstall/vsatinstall.go:208-222 | for both backends: once an installation has its pairing code, its credentials and pairing id have been saved if and only if something is known about the tenant |
| Lifecycle.Server.NgtsIsSaved | internal/vsatinstall/vsatinstall.go:306-322 | an NGTS installation with a pairing code has always saved them |
| Lifecycle.PairedUnsaved | internal/vsatinstall/vsatinstall.go:193-219 | the failing input for CCM: the tenant does not answer, and a paired installation has saved nothing |
| Lifecycle.Server.DropsWhatItRead | internal/httpserver/handlers.go:192-204 | in every run, what a removal drops is what it read and deleted the registration with, if and only if nothing else was saved for the container in between |
| Lifecycle.DroppedAsRead | internal/httpserver/handlers.go:314-341 | the same for any sequence of events |
| Lifecycle.PairingDropped | internal/httpserver/handlers.go:192-204 | the failing input: a removal that read the metadata before an installation saved its pairing id drops that id |
| Lifecycle.Server.CredentialsStay | internal/httpserver/handlers.go:280-341 | what was saved for a container stays in memory, enough for deleting the registration, until something else is saved or dropped for that container |
| Lifecycle.SavedStays | internal/httpserver/handlers.go:284-304 | events for other containers do not touch the metadata of this one |
| Lifecycle.OnlySavedIsThere | internal/httpserver/handlers.go:284-328 | whatever is there for a container was the last thing saved for it and not dropped since, or was stored before the server started and never touched |
| Collector.Collector.Poll | internal/metrics/metrics.go:175-235 | a poll without a container list changes nothing; after any other there is a row for the host and for every container listed, and no other; the row of the last entry of a name shows usage if and only if the container is running, was sampled now and in the last completed poll, time has passed, and it has processors and memory, and then every value of it is the right one; so for the host |
| Collector.Collector.constructor | internal/metrics/metrics.go:121-156 | nothing is known at first; ceilings that are not positive become 100 MiB per second |
| MetricRows.ContainerRowExactly | internal/metrics/metrics.go:175-235 | over two completed polls and any failed ones between them: the row shows usage if and only if the container is running, listed and sampled in both, time has passed, and it has processors and memory; processor share times processors times time is what was counted, memory is what is not available, rates times time are what was counted, shares are those of the ceilings, all clamped to 0 and 100 |
| MetricRows.HostRowExactly | internal/metrics/metrics.go:175-209 | the host's row shows usage if and only if the host was sampled before and now and time has passed; the processor's share if its time went on, the memory if there is some |
| MetricRows.ContainerUsageMeaning | internal/metrics/metrics.go:324-342 | every value of a container's usage as a share of what there is, or as what was counted over the time; nothing at all without time, processors or memory |
| MetricRows.HostUsageMeaning | internal/metrics/metrics.go:304-322 | every value of the host's usage in the same way |
| MetricRows.RowsListed | internal/metrics/metrics.go:186-229 | there is a row for the host and for each container listed, and no other |
| Metrics.RatesAddUp | internal/metrics/metrics.go:175-235 | over any run of polls, with failures anywhere, the host rates shown times the time they stand for add up to the last counter minus the first if and only if the counter never fell; otherwise to more |
| Metrics.ShownIs | internal/metrics/metrics.go:304-322 | what one poll adds is what was counted since the last host sample, however long ago |
| Metrics.HostRowShown | internal/metrics/metrics.go:186-229 | the host row is the host's if and only if no container is called host |
| Metrics.HostRowTaken | internal/metrics/metrics.go:186-229 | the failing input: a running container called host |
| Metrics.RatesNeedTwoSamples | internal/metrics/metrics.go:208-233 | a container row shows rates only if the container was listed and sampled now and in the last completed poll, and they count from that poll on |
| Metrics.KeptSamples | internal/metrics/metrics.go:212-227 | the samples kept for the next poll are those of the containers that were listed and sampled, at the time of this poll |
| Metrics.RowsInRange | internal/metrics/metrics.go:304-342 | percentages are between 0 and 100 and rates are not negative, in every row |
| Metrics.BusyShare | internal/metrics/metrics.go:589-594 | the processor share is in proportion to the time that was not idle: 0 exactly if all was idle, 100 exactly if none was |
| Metrics.ThroughputShare | internal/metrics/metrics.go:603-619 | the throughput share is in proportion to the ceiling below it, and 100 exactly from there on |
| Metrics.RateTimesTime | internal/metrics/metrics.go:596-601 | a rate times its time is what was counted, or nothing if the counter fell |
| MetricLines.ParseMetrics | internal/metrics/metrics.go:378-434 | the loop over the lines gives the samples of the reference |
| MetricLines.OwnLinesDecide | internal/metrics/metrics.go:395-431 | a container has a sample exactly if it has accepted lines, and it is the one its own lines alone would give |
| MetricLines.SampleMeaning | internal/metrics/metrics.go:408-431 | counters are sums and gauges last values, over the container's own lines |
| MetricLines.NothingIsLost | internal/metrics/metrics.go:408-431 | summed over all containers a counter is the total of all accepted lines about it, without the loopback device |
| ShellQuote.QuoteThenRead | internal/vsatinstall/vsatinstall.go:760-770 | for every string the shell's token recognition (sections 2.2.2, 2.2.3 and 2.3 of the Shell Command Language) reads the quoted string as one word, that string |
| ShellQuote.JoinThenRead | internal/vsatinstall/vsatinstall.go:760-770 | quoted strings joined with spaces are read as exactly those words |
| ShellQuote.QuotedExactly | internal/vsatinstall/vsatinstall.go:760-770 | a string is left as it is if and only if it is not empty and holds nothing but letters, digits and a few harmless characters |
| ShellQuote.QuotedText | internal/vsatinstall/vsatinstall.go:762-770 | a quoted string reads as its text whatever comes behind it |
| ShellQuote.InstallCommandReads | internal/vsatinstall/vsatinstall.go:512-520 | for every URL and pairing code the install command is read as its intended words and operators |
| Text.TrimMeaning | internal/vsatinstall/vsatinstall.go:177-191 | trimming takes white space off both ends and nothing else, and once is enough |
| Text.EqualFoldMeaning | internal/metrics/metrics.go:223 | comparison without regard to case: position by position the same character or the two cases of one ASCII letter |

## Left out

- Handlers are synchronous: promises, the pause and resume of the parser, `writeSync`, and handlers that change the parser or write again while it runs are left out.
- Removing handlers again. The lists of handlers are modelled for control strings (DcsStrings); for CSI, ESC and OSC sequences a dispatch is one event.
- Params: the limits are the parser's 32 and 32; other limits and `clone` are left out.
- CircularList.CircularList.Splice: requires the insert index to be no smaller than the number of lines trimmed, because the code overwrites lines it has yet to move otherwise.
- CircularList.CircularList.SetMaxLength: requires the stored lines to fit the new capacity, because the code copies as many as there were.
- CircularList.CircularList.Pop: requires an element, because the code would count below zero; the terminal pops only lines it has.
- CircularList.CircularList.ShiftElements: requires the block to be stored, to land no farther than right behind the list, and to fit the capacity together with its offset, because the code reads or overwrites slots outside of the list otherwise.
- The `length` setter of the list, which clears raw slots, is left out.
- Cells hold text, width and one number for all attributes; extended attributes, links, selection, protected cells and dirty rows are left out.
- Rewrapping.Rewrap: does not model which wrapped lines `_reflowSmaller` passes over because the cursor is on them, nor how it moves cursor and viewport, nor the call for a line without any content, which leaves the loop at once; widening (`reflowLarger`) is left out.
- The lines that the handlers print on are sequences of shown cells; `LineStorage` shows that setting, loading and joining cells, of which the handlers are made, act on those, and only copying cells does not.
- MergeRanges.Ranges.Merge: requires ranges that are in order and not empty, as the functions that find them are asked to deliver.
- InputHandler.InputHandler.RestoreCursor: extended attributes are not saved by the code either; the saved cursor of the alternate screen is left out with that screen.
- Erasing, inserting and deleting characters, repeating the preceding character, tab stop setting and the alternate screen are left out: they change the line under the cursor or repeat an operation that is modelled.
- InputHandler.InputHandler.Perform: says that no wide character is torn only without insert mode and with wrapping; `Printing.PrintOneIntact` says exactly when one is torn otherwise.
- Printing.CutsShowExactly: requires, where nothing wraps, the wide cells of the cursor's line to hold a character; a wide empty cell is not written by any operation.
- WriteBuffer.WriteBuffer.InnerWrite: a visit says what the parser, the callback and the clock do; the listeners of the parsed event run when the queue is consistent again and count as further writes.
- ConfigStore: AES-GCM, the random source and JSON are symbolic: a sealed configuration opens under its key and no other. File modes are steps that may fail. Loss of written data at a power failure is not modelled, since nothing is synced.
- ConfigStore.Store.Save: one caller at a time; the server calls it under a lock.
- Lifecycle: the configuration is there (a server that is not set up refuses these requests), saving it to disk is the subject of ConfigStore, and a failure of that is only logged. HTTP, OAuth, JSON, polling for the status and the commands in the container are steps that work or fail.
- Metrics: real numbers for floating point; times of the clock as numbers; regular expressions and the parsing of `/proc` are left out, lines and samples come as records. `Snapshot` sorts the rows and adds nothing.
- ShellQuote: expansions are outside the model of the shell, and a string with a NUL cannot be an argument. The script that fetches the tool is left out.
- Relay: the other direction, resizing, and closing the socket when the command ends are left out.
