# Verified models of ORK3

ORK3 is a terminal workspace manager: it reads raw terminal input, keeps panes in a tiling
layout, mirrors pane graphics onto the host terminal, and watches panes for coding agents.
This project models five of its deterministic parts in Dafny and proves what they keep.

**Input framing** (`src/raw_input.rs`). A framer cuts arbitrary reads into whole events, holds
incomplete ones back, and on a timeout decides what to keep, emit or discard. `RawInput` holds the
computations over slices, `ByteFramer` the state machine, and the class
`RawInputByteFramer.RawInputByteFramer` the code's own loops and fields, proved equal to the state
machine step by step; its remaining methods are steps of those listed below. About that machine:

- reads may be split anywhere (`AnySplitting`), nothing is lost without a timeout (`PushConserves`) or
  invented with one (`NothingInvented`), and for the two special states the reads that do not split
  freely are named exactly (`ReadBoundaryExact`, `SplittingExactly`);
- text and pastes survive every interleaving of reads and timeouts (`TextSurvivesTimeouts`,
  `PastesAreNeverTorn`);
- where every kind of escape sequence ends is known byte by byte, and each is the key the parser makes of
  it (`ShapesAreTokens`); which bytes are a mouse report or a colour reply, and which are not, is exact
  (`MouseTextReads`, `OnlyMouseTexts`, `MouseReportReads`, `AnswersExactly`);
- a stream of such sequences, reports, characters and pastes comes out as the events they stand for,
  however it was read (`StreamsComeThrough`);
- a control string or mouse report cut off by a timeout leaves no trace: its late tail, through any further
  timeouts, disappears up to its own end and no further, and when it is given up instead is exact
  (`LateStringsVanish`, `LateStringsGiveUp`, `LateMouseVanishes`), as it is after a lone ESC
  (`Resynchronises`, `LateOrphanVanishes`);
- what a timeout does with every waiting buffer is a complete table (`TimeoutExactly`), and a second one
  settles what the first left (`FlushTimeoutQuiets`, `SecondTimeout`);
- which events survive being read a second time, off their chunks, is exact (`ChunksReadAgain`,
  `TimeoutEvents`).

**Graphics cache** (`src/kitty_graphics.rs`). `KittyCache` holds the cache as values, an abstract
terminal that rejects showing an absent image or uploading a present one, and the commands an update
gives out; the class `HostGraphicsCache.HostGraphicsCache` is the code's own update. Replaying the
commands of any sequence of updates and clears keeps terminal and cache equal (`RunsRefine`), every
placement is then shown out of the very bytes its picture was supplied with (`EveryPictureHasItsData`), what
an update shows is known exactly (`FrameShowsExactly`, `FrameExactIff`, `TerminalShowsFrame`), and repeating a
shown frame costs nothing (`RepeatIsIdempotent`). `KittyTurns` follows the cache placement by placement,
`KittyPictures` the bytes under each image id, and `KittySamples` is a concrete run that meets all
hypotheses. `HostPlacements` is the crop arithmetic with its u16 and u32 limits. `KittyData`, `KittyWire` and
`KittyUploads` are the chunked base64 upload (section 4 of RFC 4648), written out byte for byte and read back
as the picture's format, size, id and data (`UploadReadsBack`).

**Tiling layout** (`src/layout.rs`). `LayoutTree`, `LayoutGeometry`, `LayoutPaths`, `LayoutResize`
and `LayoutOps` hold the tree, its rectangles, its paths, what a resize does and its operations,
`LayoutRequests` what a caller gets for the ratio or side asked for; `TileLayout` the classes. Every
layout reached from a valid one tiles its area exactly, splitting a pane cuts its own rectangle and no
other, moving the focus always finds an abutting neighbour, and a resize, by changing one ratio,
moves the border at the pane's edge outward, never pulls that edge in,
and makes the pane shorter only on a side where it touches the area. A split gets the ratio asked for, within
its bounds, and the cells nearest to it.

**Agent probes and handoff** (`src/pane.rs`). At most seven process probes per acquisition window,
windows more than eight seconds apart; outside a window a pane with an agent is probed exactly every five
seconds, one without a foreground group every thirty, and a suppressed one only on a change (`ProbeTimes`);
six misses in a row lose an agent; and the longest tail of whole lines is handed over.

**Two printer and reader pairs** (`src/terminal_theme.rs`, `src/remote.rs`). Colour sequences are
read back as printed; a quoted shell word is read back as itself under sections 2.2.1 and 2.2.2 of
the POSIX Shell Command Language.

## Hypotheses

- The key parser is a parameter: a function from a slice to an optional key.
- The two hash functions behind image and placement ids are parameters. Lemmas that need distinct
  ids name a finite set of pictures, pairs of a pane and an image signature, that covers what the
  frames of the run draw, and ask that equal ids come from equal pictures of that set.
  `EnsureTracksExactly` shows what happens without it: agreement is lost in exactly one situation,
  another image under the same id with no data to upload in its place.
- The order in which a hash table hands out its entries is arbitrary; commands are stated for every
  such order.

## Where the code does less than one might expect

- Read boundaries matter in two situations, and only there (`ReadBoundaryExact`): more than 128
  discarded tail bytes in one read drop the rest of that read (`OverflowExample`), and a mouse tail
  with a plus sign in a number leaves the kept window though the number parser would have accepted it
  (`PlusSignExample`). Both are reached from the initial state.
- A control string cut by its first timeout right after an ESC keeps no half end: a terminator split there is
  missed, and what is typed next is taken for more of the string (`SplitEndIsMissed`). At later timeouts
  the half end is kept (`LateStringsVanish`).
- After a lone ESC, a timeout on a bracket that the key parser knows gives the bracket out but leaves the
  window for a late mouse tail open (`WindowTimeoutExactly`).
- Chunks are read a second time to make events, and two kinds do not survive it (`ChunksReadAgain`,
  `TimeoutEvents`, both exact): two or more ESCs right before a mouse report (`TwoEscapesAreLost`), and keys
  that the parser knows only as what is left at a timeout, such as Alt and an open bracket
  (`AltBracketIsLost`).
- A lifecycle authority holds off a pending restore probe, though not a pending shell exit
  (`AuthorityHoldsOff`).
- A frame that leaves out data for a cached image can lose that image once, when the source that
  kept it moves on earlier in the same frame (`ImageLostOnce`). `DatalessShownExactly` says exactly
  when, and the next frame collected from the cache repairs it (`NextFrameIsExact`).
- A terminal image whose source leaves the frame stays cached with nothing holding it, and no update
  deletes it (`OrphansExactly`, `OrphansStay`, `ImageLeftBehind`).
- Growing a pane toward a side of the area it touches moves the border behind it, so it shrinks
  (`ResizeGrowsOrShrinks`, `GrowingCanShrink`).
- A crop whose products saturate u32 can begin at the end of the requested rectangle
  (`SaturationLeavesRequest`). Without saturation it lies inside it (`TameFits`, `CropInsideRequest`).
- At the viewport -2^31, whose negation saturates, a crop is one cell too long unless the grid
  reaches beyond the pane (`CropCoversVisibleCells`, `SmallestViewportShowsTooMuch`).
- `truncate_handoff_history` keeps strictly fewer bytes than its limit, even when a line begins
  exactly at the limit.
- A colour reply whose hash value is cut inside a multi-byte character stops the program
  (`ParsingStopsExactly`, `StopIsReached`). The parser has a third result for it, and the framer an
  event `Stopped`. The state machine's laws list chunks as if it went on; `DrainStopsExactly` says
  which drains stop, the class methods report it, and `LiveSplitting` restates read boundaries with it.

## Model

| member | source | states |
|---|---|---|
| `RawInputByteFramer.RawInputByteFramer.Push` | src/raw_input.rs:194-197 | Stops the program exactly when a turn of the drain does; otherwise yields exactly the chunks and the state of the state machine whose laws are below. |
| `RawInputByteFramer.RawInputByteFramer.FlushTimeout` | src/raw_input.rs:229-367 | A timeout drains, with the same stops, then keeps, emits or discards what is left as the state machine does. |
| `RawInputByteFramer.RawInputByteFramer.DrainAvailableChunks` | src/raw_input.rs:369-425 | The draining loop ends, stops the program exactly at a stopping turn, and otherwise computes what repeated turns of the state machine compute. |
| `ExtractionStability.ExtractOneEventExtend` | src/raw_input.rs:626-674 | An event found in a buffer is found unchanged, with the same length, in every extension of it. |
| `ExtractionStability.CompleteEscapeSequenceLenExtend` | src/raw_input.rs:764-809 | The same for the length of an escape sequence, through any number of leading ESC bytes. |
| `ReadBoundaries.AnySplitting` | src/raw_input.rs:194-197 | Unless a mouse tail is being discarded or a lone ESC was just flushed, any splitting of a byte string into reads gives the chunks and final state of one read. |
| `ReadBoundaries.PushConserves` | src/raw_input.rs:369-425 | From an idle framer, emitted chunks and the remaining buffer are together the old buffer and all reads, byte for byte. |
| `ReadBoundaries.ReadBoundaryExact` | src/raw_input.rs:369-424 | From every state in which a recent lone ESC excludes a discard: two reads act as one exactly when neither the tail allowance overflows before further bytes nor the kept window is left too early. |
| `Splittings.SplittingExactly` | src/raw_input.rs:194-197 | From every such state, any list of reads acts as one read if and only if no cut in it is one of these. |
| `Conservation.NothingInvented` | src/raw_input.rs:194-367 | Over any sequence of reads, timeouts and queries, from any state, chunks and buffer together are the input with some bytes left out: nothing is invented, repeated or reordered. |
| `BoundaryExamples.OverflowExample` | src/raw_input.rs:864-890 | From the initial state, an open mouse report of 128 bytes and a timeout lead to a state where a digit and a letter read together and apart differ. |
| `BoundaryExamples.PlusSignExample` | src/raw_input.rs:818-849 | From the initial state, a lone ESC and a timeout lead to a state where a mouse tail with a plus sign read whole and in two differs. |
| `Resynchronisation.Resynchronises` | src/raw_input.rs:373-382 | After a lone ESC was flushed, a valid mouse tail and any rest, split anywhere, give exactly what the rest alone gives with the flag cleared. |
| `Resynchronisation.ReportTailIsValid` | src/raw_input.rs:818-849 | Every mouse report a terminal can write is such a tail once its ESC is gone. |
| `TextAndPaste.TextSurvivesTimeouts` | src/raw_input.rs:229-367 | For UTF-8 text of recognised characters without ESC, every interleaving of reads and timeouts keeps chunks plus buffer equal to the input, one chunk per character, the buffer a proper prefix of the next character. |
| `TextAndPaste.PastesAreNeverTorn` | src/raw_input.rs:285-293 | Once an idle framer has the start marker, any interleaving of pieces and timeouts up to the end marker yields one chunk and one paste event with the payload. |
| `Timeouts.RunsStayConsistent` | src/raw_input.rs:180-191 | In every reachable state a discard has counted at most 128 bytes, a recent lone ESC excludes a discard, and at most two colour replies are awaited. |
| `Timeouts.FlushTimeoutQuiets` | src/raw_input.rs:229-367 | After a timeout the buffer is empty or an open paste, an open colour reply, an incomplete character perhaps behind ESC, a held lone ESC, or a lone ESC inside a discarded control string. |
| `Timeouts.SecondTimeout` | src/raw_input.rs:229-367 | A lone ESC outside a discard is out by the second timeout in a row; anything else that waited outside a discard waits on untouched. |
| `TimeoutShapes.TimeoutExactly` | src/raw_input.rs:255-366 | For every buffer without a complete event: an open paste, colour reply or character stays; an open mouse report or other string starts to be discarded; a lone ESC is held or given out; the rest comes out if the parser knows it, or is gone. |
| `TimeoutShapes.WindowExactly` | src/raw_input.rs:373-382 | After a lone ESC a read is kept while it may become a mouse tail of at most 32 bytes, dropped up to the end of one, and otherwise read as ever. |
| `TimeoutShapes.WindowTimeoutExactly` | src/raw_input.rs:259-366 | A timeout then changes nothing on an empty buffer, and gives out or drops a bracket. |
| `TimeoutShapes.TimeoutEvents` | src/raw_input.rs:156-176 | Of what a timeout gives out behind complete events only a lone ESC is an event. |
| `TimeoutShapes.AltBracketIsLost` | src/raw_input.rs:345-350 | A concrete key that comes out at a timeout as a chunk and makes no event. |
| `LateStrings.LateStringsVanish` | src/raw_input.rs:232-252 | An open string cut off by a timeout, in any pieces, gives nothing out; its tail and any rest, in any pieces and through further timeouts while the tail is plausible and within 128 bytes, act as the rest alone. |
| `LateStrings.LateStringsGiveUp` | src/raw_input.rs:240-252 | Otherwise it ends at the first timeout that finds something implausible or too much; all found is gone, and what follows is read as ever. |
| `LateStrings.LateStringsWait` | src/raw_input.rs:240-252 | Until either happens nothing comes out and the string is still waited for. |
| `LateStrings.SplitEndIsMissed` | src/raw_input.rs:314-325 | A concrete string whose terminator is split by the first timeout does not end there. |
| `LateMouse.LateMouseVanishes` | src/raw_input.rs:864-890 | A mouse report cut off by a timeout leaves no trace within 128 bytes, however its tail and what follows are read. |
| `LateMouse.LateOrphanVanishes` | src/raw_input.rs:259-271 | The same when its ESC came out alone before. |
| `LateMouse.SecondTimeoutGivesUp` | src/raw_input.rs:233-238 | A second timeout gives up a mouse tail, whatever part of it came. |
| `LateMouse.TooMuchIsDropped` | src/raw_input.rs:882-886 | A read with more tail bytes than are left to count is dropped whole. |
| `EventStreams.StreamsComeThrough` | src/raw_input.rs:160-176 | Well-formed tokens, with Escape keys in front of mouse reports among them, concatenated and read in any pieces, come out as one chunk each and as exactly their events. |
| `ChunkEvents.ChunksReadAgain` | src/raw_input.rs:160-176 | Every event a buffer yields is made again from its chunk, if and only if the chunk is not ESCs alone; one ESC is the Escape key, more are nothing. |
| `ChunkEvents.TwoEscapesAreLost` | src/raw_input.rs:769-780 | Two ESCs before any complete mouse report come out as one chunk that makes no event. |
| `EventStreams.EscapeBeforeMouseReport` | src/raw_input.rs:771-788 | An ESC right before a complete mouse report is cut off on its own, whatever follows the report. |
| `EventStreams.MouseReportIsToken` | src/raw_input.rs:626-674 | Every mouse report a terminal can write is a token for the event it reports. |
| `EventStreams.FocusReportsAreTokens` | src/raw_input.rs:640-674 | Focus reports are tokens for focus gained and lost. |
| `EventStreams.SchemeReportIsToken` | src/raw_input.rs:695-701 | Colour-scheme reports are tokens for the appearance they name. |
| `EventStreams.ColorReplyIsToken` | src/raw_input.rs:640-674 | Every printed colour reply is a token for its kind and colour. |
| `EventStreams.CharIsToken` | src/raw_input.rs:732-741 | Every recognised UTF-8 character is a token for its key. |
| `EventStreams.PasteIsToken` | src/raw_input.rs:631-638 | Every bracketed paste is a token for its payload. |
| `KeySequences.ShapesAreTokens` | src/raw_input.rs:640-674 | Every CSI, SS3, Alt, string and unnamed mouse sequence, behind any number of further ESC bytes, ends where its bytes say, whatever follows, and is a token for the key the parser makes of it, or unsupported. |
| `KeySequences.CsiEnds` | src/raw_input.rs:782-790 | ESC [ not followed by < ends at its first byte from 0x40 to 0x7e, whatever follows. |
| `KeySequences.CsiOpen` | src/raw_input.rs:782-790 | Without such a byte it has no end. |
| `KeySequences.MouseEnds` | src/raw_input.rs:782-785 | ESC [ < ends at its first M or m. |
| `KeySequences.Ss3Ends` | src/raw_input.rs:799-801 | ESC O takes exactly one byte more. |
| `KeySequences.AltEnds` | src/raw_input.rs:803-808 | ESC and a character that opens no sequence are one sequence. |
| `KeySequences.OscEnds` | src/raw_input.rs:892-905 | ESC ] ends at its first BEL or ESC \\, whichever comes first. |
| `KeySequences.OscOpen` | src/raw_input.rs:892-905 | Without either it has no end. |
| `KeySequences.StringEnds` | src/raw_input.rs:907-909 | ESC P, X, ^ and _ end at their first ESC \\ only. |
| `KeySequences.EscEnds` | src/raw_input.rs:778-780 | One more ESC in front of a sequence that is no mouse report makes it one byte longer. |
| `KeySequences.BrokenMouseWaits` | src/raw_input.rs:769-776 | In front of a mouse sequence that is not text the ESC waits with it. |
| `HostReports.MouseReportReads` | src/raw_input.rs:944-1007 | Every report with numbers in range is read as the event its button number names, at the cell one up and left, with its modifiers, and is a token for it; or names nothing. |
| `HostReports.MouseReportRejects` | src/raw_input.rs:944-973 | A button above 255, or a column or row of 0 or above 65535, is no report. |
| `HostReports.MouseTextReads` | src/raw_input.rs:944-973 | Such a text is read as the plain report with its three numbers, which may have zeros and a plus sign in front, and is nothing if a part is no number. |
| `HostReports.OnlyMouseTexts` | src/raw_input.rs:944-973 | Only ESC [ <, three parts between semicolons, perhaps more behind another one, and M or m are read as a mouse report. |
| `HostReports.AnswerIsToken` | src/raw_input.rs:640-646 | Every colour reply, with components of one to four hex digits in either form and ended either way, is a token for its colour. |
| `HostReports.TokenArrives` | src/raw_input.rs:408-420 | A token read at once comes out at once; a colour reply leaves one awaited reply less, a scheme report under tracking two awaited, and any token ends the hold on a lone ESC. |
| `HostReports.UnreadableWaits` | src/raw_input.rs:626-674 | A sequence or paste that is not text, and an unknown character, are no events. |
| `EventStreams.SplitColorReplyStitches` | src/raw_input.rs:199-204 | A colour reply cut right after its ESC by a timeout comes out whole and is counted as answered. |
| `Utf8.IncompleteIsTruncated` | src/raw_input.rs:743-762 | The code waits for more bytes exactly on proper prefixes of some UTF-8 character (section 4 of RFC 3629), and those are never valid text. |
| `Utf8.CharsEncodeScalars` | src/raw_input.rs:732-762 | Encoding a scalar value gives a character that decodes to it. |
| `Utf8.ScalarsEncodeChars` | src/raw_input.rs:732-762 | Decoding a character gives a scalar value that encodes to it. |
| `SgrMouse.MouseEventRoundTrip` | src/raw_input.rs:944-1007 | Every mouse event whose coordinates fit is read back, kind, position and modifiers, from the report a terminal writes for it. |
| `SgrMouse.MouseReportRoundTrip` | src/raw_input.rs:944-973 | A report with any button number is read back with its 0-based position, and rejected when the number names no event. |
| `StoppingReplies.ReplyStopsExactly` | src/terminal_theme.rs:55-67 | Reading a sequence stops the program if and only if it is a foreground or background reply, ended either way, whose value does. |
| `StoppingReplies.StopIsReached` | src/raw_input.rs:640-646 | Every idle framer reads the sample reply as such a stop. |
| `StoppingReplies.DrainStopsExactly` | src/raw_input.rs:408-420 | A drain stops the program if and only if one of the chunks it would hand out is such a reply. |
| `StoppingReplies.LiveSplitting` | src/raw_input.rs:194-197 | Reads without a bad cut leave the same chunks and framer as one read, or stop the program as it does. |
| `HostGraphicsCache.HostGraphicsCache.EncodeGraphicsUpdate` | src/kitty_graphics.rs:286-420 | The update's three passes leave exactly the tables, and give out exactly the commands, of the specified update, for some order of each hash-table walk. |
| `HostGraphicsCache.HostGraphicsCache.ReleaseSupersededSourceImage` | src/kitty_graphics.rs:424-450 | The source moves to its new image, and its old one goes with its placements once no source names it. |
| `HostGraphicsCache.HostGraphicsCache.ClearBytes` | src/kitty_graphics.rs:485-495 | Every image is deleted once and the cache is empty. |
| `HostGraphicsCache.HostGraphicsCache.Encode` | src/kitty_graphics.rs:172-226 | A repaint is one update with the view compared, or one clear when nothing may be painted. |
| `KittyRefinement.RunsRefine` | src/kitty_graphics.rs:286-495 | Over any sequence of updates and clears whose pictures the ids tell apart, replaying all commands on a terminal that agrees with the cache never misuses it and leaves it agreeing again; sources and placements always point at cached images. |
| `KittyRefinement.UpdateRefines` | src/kitty_graphics.rs:286-420 | The same for one update, in every hash-table order and with no assumption on ids, as long as no placement hits a collision it cannot repair. |
| `KittyRefinement.ClearRefines` | src/kitty_graphics.rs:485-495 | Clearing, in any order, leaves a terminal with no image and no placement. |
| `KittyRefinement.EnsureTracksExactly` | src/kitty_graphics.rs:348-371 | Agreement survives making an image present if and only if there is no collision with an empty upload. |
| `KittyRefinement.NoCollisions` | src/kitty_graphics.rs:348-362 | Where ids tell the pictures in use apart, the branch for a different image under the same id is dead. |
| `KittyPictures.EveryPictureHasItsData` | src/kitty_graphics.rs:348-371 | After any run from the empty cache whose equal pictures bring equal data, every placement the terminal shows has under its image a picture in use and the very bytes it was supplied with. |
| `KittyPictures.RunsStock` | src/kitty_graphics.rs:286-495 | From any agreeing state, the bytes under each cached id stay those of the picture with that id. |
| `KittyCache.PicturesTellApart` | src/kitty_graphics.rs:922-930 | Two placements have one picture exactly when size, format, data length and fingerprint agree. |
| `KittyCache.PlacementsTellApart` | src/kitty_graphics.rs:945-964 | Two shown placements have one signature exactly when crop, depth and scrollback agree. |
| `KittyCache.SourcesExactly` | src/kitty_graphics.rs:296-303 | A terminal image is a source of every frame that lists it, a layer only of one that draws it. |
| `KittyFrames.FrameShowsExactly` | src/kitty_graphics.rs:294-419 | After an update exactly the placements are cached that got their image at their turn, with their sources at that image, and every other source and image is where the turns leave it. |
| `KittyFrames.DatalessShownExactly` | src/kitty_graphics.rs:348-384 | A placement without data is shown if and only if an earlier one showed its image, or the image is cached and no source held it, or one that did has not been moved by an earlier placement. |
| `KittyFrames.FrameExactIff` | src/kitty_graphics.rs:294-419 | The cached placements are exactly the frame's clippable ones if and only if every key of the frame is shown. |
| `KittyFrames.FrameExact` | src/kitty_graphics.rs:294-419 | When all are shown, they are exactly the frame's clippable ones, and each drawn image is cached with its signature and held by its source. |
| `KittyFrames.SuppliedShowsAll` | src/kitty_graphics.rs:348-384 | All are shown when each brings its data or has its image kept in use by some placement of the frame. |
| `KittyFrames.RepeatIsIdempotent` | src/kitty_graphics.rs:325-407 | Repeating such a frame, with or without its data, changes nothing and gives out no command, or one display per visible placement when the view changed. |
| `KittyFrames.NextFrameIsExact` | src/kitty_graphics.rs:515-591 | A frame collected again from the cache, with data only for images missing there, ends up shown exactly whatever the first update lacked. |
| `KittyFrames.TerminalShowsFrame` | src/kitty_graphics.rs:286-420 | End to end: on a terminal that agrees with the cache, one update's commands show exactly the placements that get their image, the frame's when all do. |
| `KittyFrames.OrphansExactly` | src/kitty_graphics.rs:296-323 | After an update an image is cached with no source holding it if and only if every source that held it is a terminal one gone from the frame and the frame does not show it. |
| `KittyFrames.OrphansStay` | src/kitty_graphics.rs:296-450 | Where ids tell the pictures in use apart, no update deletes an image that no source holds. |
| `KittySamples.SampleRun` | src/kitty_graphics.rs:286-495 | A concrete run of three frames and a clear meets every hypothesis above. |
| `KittySamples.ImageLostOnce` | src/kitty_graphics.rs:424-450 | Its second frame leaves out only cached data, and one of its pictures is not shown. |
| `KittySamples.ImageBackAgain` | src/kitty_graphics.rs:515-591 | Its third, the same frame collected again, shows both. |
| `KittySamples.ImageLeftBehind` | src/kitty_graphics.rs:296-323 | An empty frame after the first leaves its picture cached, held and shown by nothing. |
| `HostPlacements.CropCoversVisibleCells` | src/kitty_graphics.rs:774-916 | The crop covers exactly the cells that lie in the pane and in the requested grid, if and only if no axis has the viewport -2^31 with a grid that ends inside the pane. |
| `HostPlacements.CropExistsExactly` | src/kitty_graphics.rs:774-880 | For every placement there is a crop if and only if each axis has a visible cell, or is the one grid at viewport -2^31 that ends at the pane's edge, and its slice starts inside the image. |
| `HostPlacements.SmallestViewportShowsTooMuch` | src/kitty_graphics.rs:796-805 | A concrete placement at that viewport that is drawn although no cell of its grid is in the pane. |
| `HostPlacements.CropInsidePaneAndImage` | src/kitty_graphics.rs:774-916 | The crop is not empty, lies in its pane, and its source lies in the image, wrap-around included. |
| `HostPlacements.CropInsideRequest` | src/kitty_graphics.rs:823-880 | The source also lies in the requested source rectangle, despite floor scaling and the minimum of one pixel, when no slice start wraps and on each axis the image ends no later than the request or the products fit the drawn length. |
| `HostPlacements.SliceInsideRequestExactly` | src/kitty_graphics.rs:853-880 | On any axis it does so if and only if the slice start does not wrap, and the image ends no later or the two scaled lengths fit the request. |
| `HostPlacements.TameFits` | src/kitty_graphics.rs:835-866 | Without u32 saturation the products always fit. |
| `HostPlacements.SaturationLeavesRequest` | src/kitty_graphics.rs:853-880 | A concrete placement whose products saturate and whose crop starts where the request ends. |
| `HostPlacements.CropIsProportional` | src/kitty_graphics.rs:823-880 | On each axis, from its own numbers, the slice starts and is as long as the cut and the visible part of the drawn length, floored to pixels of the request, with its caps, wrap and minimum of one pixel. |
| `HostPlacements.CropKeepsOffsets` | src/kitty_graphics.rs:902-912 | Each pixel offset stays on its own axis when nothing is cut off in front, and is zero when something is. |
| `KittyData.OneBase64Stream` | src/kitty_graphics.rs:974-988 | The payloads concatenated are the base64 of the whole data, each has at most 4096 bytes, and every chunk but the last says that more follows. |
| `KittyWire.EncodeKittyData` | src/kitty_graphics.rs:974-988 | The chunk loop appends exactly the commands of the chunks, escape framing, keys, continuation flag and payload. |
| `KittyWire.WireRoundTrip` | src/kitty_graphics.rs:722-738 | A terminal that reads these bytes, collects the payloads and decodes them has the control keys and the data. |
| `KittyWire.ChunkBytes` | src/kitty_graphics.rs:974-988 | Each chunk command byte by byte. |
| `KittyUploads.EncodeUploadImage` | src/kitty_graphics.rs:722-738 | Appends the upload of a picture, or nothing when it brought no data. |
| `KittyUploads.UploadReadsBack` | src/kitty_graphics.rs:722-738 | A terminal that reads the bytes of an upload has its format code, width, height and id, and its data. |
| `KittyData.Base64RoundTrip` | src/kitty_graphics.rs:974-988 | Decoding the base64 of any data gives the data. |
| `KittyData.TestVectors` | src/kitty_graphics.rs:974-988 | The encodings of section 10 of RFC 4648 for one, two and three bytes. |
| `LayoutGeometry.TilesExactly` | src/layout.rs:413-437 | Each cell of the area belongs to exactly one pane rectangle, and no other cell to any. |
| `LayoutGeometry.AreasSumUp` | src/layout.rs:413-437 | The pane areas sum to the whole. |
| `LayoutGeometry.PanesInIdOrder` | src/layout.rs:468-476 | Panes are listed in the order of the ids, with the focused one marked. |
| `LayoutGeometry.CollectPanes` | src/layout.rs:413-437 | The listing that grows one vector appends exactly the panes of the tree. |
| `LayoutGeometry.FirstShareIsNearest` | src/layout.rs:621-640 | The first part gets the whole number of cells nearest to its share, ties going up. |
| `LayoutGeometry.SplitDividesTarget` | src/layout.rs:520-547 | Splitting a pane replaces its rectangle by the two parts, old pane first, and moves no other pane. |
| `LayoutGeometry.SwapExchangesRects` | src/layout.rs:504-518 | Swapping exchanges the rectangles of two panes and of no other. |
| `LayoutGeometry.BestIndex` | src/layout.rs:280-335 | The chosen candidate is no farther, overlaps no less and is no more off-centre than any other, and precedes its equals. |
| `LayoutGeometry.NavigationFindsNeighbour` | src/layout.rs:280-335 | From a non-empty pane that does not touch the area's edge the search finds a pane, and that pane abuts it with positive overlap. |
| `LayoutRequests.CandidatesExactly` | src/layout.rs:280-335 | The panes asked are those wholly beyond the side that share a cell along it. |
| `LayoutRequests.PreferenceExactly` | src/layout.rs:280-335 | Preferred is the nearer one, then the one sharing more cells, then the one less off centre, for coordinates whose double fits u16. |
| `LayoutTree.SplitAddsPane` | src/layout.rs:520-547 | Splitting adds the new id, loses none and keeps ids distinct. |
| `LayoutTree.RemovePaneIds` | src/layout.rs:557-578 | Removal takes out the target's id alone, in order, and leaves nothing exactly when no other pane exists. |
| `LayoutTree.RemoveUndoesSplit` | src/layout.rs:557-578 | Removing a freshly inserted pane gives back the very tree. |
| `LayoutTree.SwapInvolution` | src/layout.rs:504-518 | Swapping the same ids twice gives back the tree. |
| `LayoutPaths.SplitBordersAreFaithful` | src/layout.rs:439-466 | Borders are one fewer than panes, on distinct paths, each readable and writable with the reported ratio. |
| `LayoutPaths.BordersAreDrawnAtSplits` | src/layout.rs:439-466 | Each border reports the direction and area of the split its path leads to, and stands where the second child starts. |
| `LayoutPaths.RatiosAreReadable` | src/layout.rs:601-619 | A path and ratio are listed if and only if reading that path gives that ratio. |
| `LayoutPaths.SplitRatios` | src/layout.rs:478-502 | The listing started on an empty path is the copied-path listing. |
| `LayoutPaths.SetRatioChangesOnly` | src/layout.rs:580-599 | A write succeeds exactly on readable paths, changes the ratio there, and no other ratio and no shape. |
| `LayoutPaths.ShapeAndRatiosDetermine` | src/layout.rs:580-619 | Shape and readable ratios determine the tree, so the previous row leaves nothing open. |
| `LayoutPaths.ListingsTellApart` | src/layout.rs:241-257 | For trees of one shape the ratio listings differ exactly when the trees do. |
| `LayoutPaths.ResizeMovesOneRatio` | src/layout.rs:215-239 | A resize leaves the tree as it was or moves the ratio of one listed split by the step, bounded; shape and ids stay. |
| `LayoutResize.ResizeFindsEdge` | src/layout.rs:215-239 | Toward a side where a non-empty pane does not touch the area, the split chosen has its border exactly on that side. |
| `LayoutResize.ResizeMovesEdgeOutward` | src/layout.rs:215-239 | Growing the focused pane toward such a side moves that same border, in the same area, outward or not at all. |
| `LayoutResize.ResizeNeverPullsIn` | src/layout.rs:215-239 | Growing toward a side never leaves that side of the pane, or of any pane, further in than before. |
| `LayoutResize.ResizeShiftsPanes` | src/layout.rs:215-239 | It moves both edges of every pane that way along the axis, or leaves them. |
| `LayoutResize.ResizeGrowsOrShrinks` | src/layout.rs:215-239 | Growing a non-empty focused pane toward a side never makes it shorter if it does not touch the area there, and never longer if it does. |
| `LayoutResize.GrowingCanShrink` | src/layout.rs:215-239 | A concrete layout in which growing the right pane to the right takes it from five cells to four. |
| `LayoutOps.RunsStayValid` | src/layout.rs:131-257 | Over any sequence of split, insert, close, focus, swap, set-ratio and resize from any valid layout, ids stay distinct and allocated, the focus stays in the tree and ratios stay in bounds. |
| `LayoutOps.CloseStaysValid` | src/layout.rs:165-186 | Closing succeeds exactly with more than one pane, takes out the focused one alone and keeps the layout valid. |
| `LayoutOps.CloseHandsOverFocus` | src/layout.rs:165-186 | The focus goes to the pane that moves into the closed one's place, or to the last one. |
| `LayoutOps.ResizeIsTruthful` | src/layout.rs:241-257 | Resizing a pane keeps ids, shape and focus, and reports a change exactly when the layout changed. |
| `LayoutOps.InsertThenClose` | src/layout.rs:142-186 | A pane inserted and closed again leaves the tree exactly as it was. |
| `LayoutOps.SwapTwice` | src/layout.rs:196-206 | Swapping twice restores the layout. |
| `LayoutRequests.SplitGetsItsRatio` | src/layout.rs:131-138 | Splitting puts, where the focused pane was and nowhere else, a split of the ratio asked for if from 0.1 to 0.9, else the nearer bound, one half if not finite, with the old pane first; the new one gets the focus. |
| `LayoutRequests.InsertGetsItsRatio` | src/layout.rs:142-162 | The same beside any pane, refused exactly for a missing target or a pane already there. |
| `LayoutRequests.SplitGetsItsCells` | src/layout.rs:520-555 | Hence the old pane keeps the whole number of cells nearest to that share, the new one beside or below it gets the rest, and no other pane moves. |
| `LayoutRequests.SetGetsItsRatio` | src/layout.rs:209-211 | A write succeeds exactly on a split, puts the number kept for the request there, and changes nothing else. |
| `LayoutRequests.CloseGivesPlaceToSibling` | src/layout.rs:165-186 | Closing gives the place of the focused pane's split to the other side of that split, and changes nothing else. |
| `LayoutRequests.FocusAndSwapAnswer` | src/layout.rs:188-206 | The focus moves only to a pane that is there; a swap is refused exactly for panes that are not two of the layout. |
| `LayoutRequests.ResizeChooses` | src/layout.rs:215-239 | A resize takes the first of the borders nearest to the side asked for, at most one cell off, else the one behind the pane, else nothing. |
| `LayoutRequests.ResizeStepsExactly` | src/layout.rs:215-257 | It writes, for the very pane named, the ratio that was there plus or minus the step, kept from 0.1 to 0.9, and nothing else. |
| `TileLayout.TileLayout.SplitFocusedWithRatio` | src/layout.rs:131-138 | The focused pane is split beside a fresh id, which gets the focus. |
| `TileLayout.TileLayout.InsertPaneNear` | src/layout.rs:142-162 | Refuses a missing target or a pane already there, and otherwise inserts and focuses it. |
| `TileLayout.TileLayout.CloseFocused` | src/layout.rs:165-186 | Closes the focused pane or refuses the last one. |
| `TileLayout.TileLayout.ResizePane` | src/layout.rs:241-257 | Moves the focus for the resize, restores it, and compares the ratio listings. |
| `AgentProbes.WindowBudget` | src/pane.rs:354-387 | Without a new window, an unidentified pane with a prior probe and a stable known group is probed at most 7 times over any tick times, and never without a window. |
| `AgentProbes.BudgetIsTight` | src/pane.rs:354-387 | Some tick times reach 7. |
| `AgentProbes.WindowsLieApart` | src/pane.rs:389-429 | Windows started by content changes begin more than 8 seconds apart. |
| `AgentProbes.ProbeRate` | src/pane.rs:354-429 | Hence a bound on the probes in any stretch of time. |
| `ProbeTimes.IdentifiedEveryFiveSeconds` | src/pane.rs:354-387 | Outside its window and with a stable group, a pane with an agent is probed never less than 5 seconds after a probe and at every turn that is not. |
| `ProbeTimes.GrouplessEveryThirtySeconds` | src/pane.rs:379-384 | A pane with neither agent nor group likewise with 30 seconds. |
| `ProbeTimes.KnownGroupNeverProbed` | src/pane.rs:379-384 | A pane with a stable group and no agent is not probed outside its window. |
| `ProbeTimes.SuppressedOnlyOnChange` | src/pane.rs:362-364 | A suppressed pane is probed on its first turn and on group changes, at no other time, over any turns. |
| `ProbeTimes.ProbesAtOnce` | src/pane.rs:354-387 | A changed group, either pending flag, and a first turn without an agent or with a suppressed one ask for a probe at once. |
| `ProbeTimes.ProbesInWindow` | src/pane.rs:366-377 | In a window the interval is half a second up to an age of one and a half, two seconds up to eight. |
| `ProbeTimes.AuthorityHoldsOff` | src/pane.rs:343-352 | An authority holds a probe off exactly on a pane probed before, with the same group, no pending exit and no suppression. |
| `ProbeTimes.WindowsExactly` | src/pane.rs:389-429 | When a change of content opens a window and when stillness forgets it, in seconds. |
| `AgentProbes.AcquisitionClock.SyncContentChange` | src/pane.rs:389-429 | The two stored times change as specified: nothing while an agent is known, suppressed or the group changed; a start, a mark, or a reset otherwise. |
| `AgentPresence.AgentDetectionPresence.ObserveProcessProbe` | src/pane.rs:897-921 | One observation, with its new agent, its miss count and whether the agent changed. |
| `AgentPresence.SixMissesInARow` | src/pane.rs:897-921 | Over any probes an agent is kept until six misses in a row, and the agent kept is the one last seen. |
| `AgentPresence.ChangesAreTold` | src/pane.rs:897-921 | An observation reports a change exactly when the agent changed. |
| `HandoffHistory.TruncateHandoffHistory` | src/pane.rs:1193-1206 | A long history is cut to its longest tail of whole lines shorter than the limit, a short one is kept, and UTF-8 stays UTF-8. |
| `TerminalTheme.SetDefaultColorRoundTrip` | src/terminal_theme.rs:55-78 | Reading the printed set-default-colour sequence gives back its kind and colour. |
| `HostReports.AnswersExactly` | src/terminal_theme.rs:55-67 | A sequence is read as a colour reply if and only if it is ESC ] 10 or 11 ; and a colour, ended by BEL or ESC \\. |
| `HostReports.ColorsExactly` | src/terminal_theme.rs:87-111 | A value is read as a colour if and only if it is three components behind rgb: with slashes, or three of one length behind a hash. |
| `HostReports.ComponentsExactly` | src/terminal_theme.rs:113-123 | A component is one to four hex digits of either case and nothing else. |
| `HostReports.PrintedColorBytes` | src/terminal_theme.rs:69-78 | The printed sequence byte by byte, with two lower-case digits for each component. |
| `TerminalTheme.HexComponentIsNearestByte` | src/terminal_theme.rs:113-123 | One to four hex digits become the strictly nearest byte, zero becomes 0 and the maximum 255. |
| `TerminalTheme.HexComponentMonotone` | src/terminal_theme.rs:113-123 | At equal length larger components give no smaller bytes. |
| `TerminalTheme.RepeatedDigitsParse` | src/terminal_theme.rs:113-123 | A byte written twice, as terminals answer, reads as the byte. |
| `TerminalTheme.HashTextParses` | src/terminal_theme.rs:98-108 | The hash form with two digits each reads as its colour. |
| `TerminalTheme.ParsingStopsExactly` | src/terminal_theme.rs:98-108 | Reading a colour value stops the program if and only if it is a hash and 3, 6, 9 or 12 bytes cut inside a character behind the first third, or behind the second when the first is a component. |
| `ShellQuoting.ShellQuoteRoundTrip` | src/remote.rs:174-188 | Every string, quoted and read by the shell rules, is one word equal to the string. |
| `ShellQuoting.QuotedExactly` | src/remote.rs:174-188 | A word is left as it is exactly when it is not empty and has only the listed characters, and is put between single quotes otherwise. |
| `ShellQuoting.SshCheckCommandReads` | src/remote.rs:170-172 | The check command reads as exactly two words, ssh and the target. |

## Left out

- Key parsing, the two id hashes, the terminal engine and the drawing library are not part of this model; the first two are parameters, as said above.
- The readers and senders around the framer (`src/raw_input.rs:487-624`), its queries about pending input, and logging are input and output.
- Commands to the terminal are values: only the bytes of uploads are modelled, not the spelling of deletes and displays, cursor moves or save/restore framing.
- Which panes are visible and what they contain (`src/kitty_graphics.rs:515-667`) is a parameter, a frame. The layer filter there asks for image ids of another kind than the update uses, so layers always bring their data; this is not proved.
- Where `clipped_placement` adds u16 or u32 values that do not fit, the model wraps as an optimised build does; a debug build stops instead.
- Ratios are reals, not f32: rounding inside a ratio and a NaN passed to a resize or to `set_ratio_at` are not modelled. A ratio that is not finite is modelled where the code checks for it (splitting).
- Area edges are assumed to fit u16, as the terminal guarantees; the id counter's wrap-around at u32 is not modelled.
- The tree is a value: ratio writes and id swaps, which the code does in place, return the new tree here. No node is shared, so only update in place itself is lost.
- Saturating usize counters of the framer are unbounded.
- What a probe finds is a parameter; `ProbeTimes` covers panes whose agent and suppression do not change during the turns it looks at, `WindowBudget` those without an agent.
- Threads, pseudo-terminals, signals and file descriptors of `src/pane.rs`, and all other files, are input and output or rendering.
