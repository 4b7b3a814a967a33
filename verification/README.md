# Amiga debugger models

Dafny models of the parts of the e9k debugger that hold real algorithms over mutable state, with
proofs of what those parts are for. Each module stands for one component of the program:

- **Blitter overlay** (`Overlay`, `OverlaySpec`, `OverlayRuns`, `ActiveSet`, `BlitTable`, `Recency`,
  `LinearProbing`). The emulator reports the spans the blitter drew in a frame. The overlay keeps a record of every pixel
  with a four-deep history, a list of active pixels with swap-removal, and a hash table from blit id to
  its last span. `OverlaySpec` states on the history of rendered frames what a pixel should show;
  `Overlay.Render` is shown to keep the buffers equal to it.
- **UAE options** (`UaeOptions`, `UaeState`, `UaeFile`, `UaeLine`, `UaeDrive`, `UaeBlock`, `UaeLoad`, `UaeReload`,
  `UaeStable`, `UaeLost`, `Text`). A configuration file is read line by line through fixed buffers. A save keeps
  the lines the debugger does not manage and appends one generated block; printer and parser are shown to agree exactly as far as they
  do. `UaeStable` says which options make repeated saves grow a file, `UaeLost` which drives do not come back.
- **Profiler** (`ProfileTable`, `ProfileMap`, `ProfileCounter`, `HitScanner`, `HitText`, `HitEmitter`,
  `HitStrings`, `HitLosses`, `HitExamples`, `LineTotals`, `Sorting`). Packets are scanned by hand, folded into a
  growing table with reset-aware counters, and reduced to one line per source line. `HitStrings` follows the
  scanner through strings it does not understand, `HitLosses` says what that costs.
- **RAM view** (`BitRaster`, `PointerRuns`). The bit picture, and the guess at screen layouts from the
  bit-plane pointers of the scan lines.
- **Register log** (`CustomLog`). Filtering and scrolling as rank and select over the matching rows.
- **RAM export** (`MemExport`, `SaveNames`, `SaveRun`, `SavePlan`). Chunked copying, names for a save that must
  not overwrite, and the save as a whole, with its temporary files, against a set of files.
- **DMA statistics** (`DmaStats`, `DmaBar`). Slot accounting and the stacked bar.

`Bits`, `Sequences`, `Numerals` and `Optional` hold what several components share.

The file system, the emulator's memory, window sizes and the drawing library appear as parameters: a set or
map of files, the functions of `UaeState.Host`, the record `MemExport.Memory`, numbers of pixels. Memory
allocation is taken to succeed. Strings are C strings: no character of a modelled string is the terminator.

Where the code and the obvious expectation differ, the code is followed:

- The alpha product is taken in 32 bits and wraps for a decay above 24,403,224 frames; `FullAlphaIffNoWrap` says
  exactly when a fresh span still has full alpha, and `FadesIffNoWrap` when alpha rises with age.
- The second growth attempt when a blit record is set can never be reached; a saturated table refuses
  further records, those of known ids included, and `SetRecord` says exactly when.
- `filteredIndexForRawRow` differs from the full scan by one for a row past the end when no filter is
  active; the scroll model is shown not to depend on it.
- A candidate view from a falling pointer starts one step below the run's last line, and a step of one
  byte gives the default row length; `RowsOfRun` and `CandidateRows` state both,
  and `CandidateGrid` when the candidate fits its run.
- Some generated lines are not recognised when the file is read again, so that every save leaves another copy
  of them or a part of one: option lines whose key and value both fill their buffers, and drive lines whose
  escaped path is too long for the value or the line buffer. `UaeStable.SaveTwice` gives the exact condition,
  the lemmas beside it the lengths, and `Image1Accumulates`, `Image0Accumulates` and `FolderAccumulates` drives
  that fail it.
- A folder whose line is too long for the reader's middle buffer usually loses its end; `LongFolderRead` says
  exactly when it does not.
- The scanner of packets does not heed quotes in the value of an unknown key. `SeenRead` says for all hits with
  all strings what it then reports. A closing brace in a string ends its hit there. A comma or a closing square
  bracket without one drops the string and the next field; whether that is a pc, a count, nothing that matters,
  or the first field of the next hit decides what is lost: `SpilledHitRead`, `MissedIffNotIdle`, `StringJoinsHits` and `LastStringIsHarmless`, with inputs in `HitExamples`.
- The Amiga emulator begins the list of hits with a comma when the first of them did not fit into the packet; the
  debugger skips it.
- A save in sequence is meant to keep every file, but writes each one as a temporary file first: an existing
  file of that name is lost, as `TempIsLost` shows; `FinishSavePlan` says of every file exactly when it survives.
- An image path that names a directory comes back as a folder.

## Model

| member | source | states |
|---|---|---|
| Overlay.Overlay.ImageIsNaive | e9k-debugger/amiga_blittervis.c:1150-1234 | over a run with constant decay and a non-decreasing frame counter, every pixel of the incremental overlay equals the simple rule (last span that ever covered it, faded by age, 0 when too old), and the active list holds exactly the visible pixels, once each |
| Overlay.Overlay.Render | e9k-debugger/amiga_blittervis.c:1150-1234 | a frame in overlay mode keeps the whole cross-structure invariant (pixels, retained pixels, active list, blit table all agree with the recorded run), for any decay and any counter, and reports visibility exactly when something is active |
| Overlay.RenderRun | e9k-debugger/amiga_blittervis.c:1075-1234 | a new overlay that renders any steady run of frames, one after the other, ends in exactly the image the simple rule gives for the whole run |
| Overlay.Overlay.RenderAll | e9k-debugger/amiga_blittervis.c:1150-1234 | rendering frame after frame, the buffers stay what the whole run makes of them |
| Overlay.Overlay.Resize | e9k-debugger/amiga_blittervis.c:1075-1148 | a new texture size reuses or grows the buffers and re-establishes the invariant with an empty run; stale entries above the new pixel count do no harm |
| Overlay.Overlay.constructor | e9k-debugger/amiga_blittervis.c:1075-1148 | the first texture starts a run with nothing shown and nothing recorded |
| Overlay.Overlay.ClickAgreesWithHover | e9k-debugger/amiga_blittervis.c:384-465 | with a non-decreasing frame counter and an unsaturated table, for every pixel still shown the ids a click lists are non-empty and distinct and the first is the id the hover reports |
| Overlay.Overlay.HoveredId | e9k-debugger/amiga_blittervis.c:243-275 | the hovered id is that of the last span the pixel under the mouse remembers, or 0 outside the picture and on cleared pixels |
| Overlay.Overlay.HitsAtPoint | e9k-debugger/amiga_blittervis.c:384-465 | a click lists, in the order of the pixel's history and once each, exactly the ids whose record is younger than the decay, or any age without one, each with the record the table holds |
| Overlay.Overlay.CollectHits | e9k-debugger/amiga_blittervis.c:430-465 | of a history exactly the ids with a record younger than the decay survive, in order; the hit limit never cuts one off |
| Overlay.Overlay.AppendHit | e9k-debugger/amiga_blittervis.c:323-342 | a hit is added unless it has no id, is already listed or there is no room |
| Overlay.PixelUnder | e9k-debugger/amiga_blittervis.c:260-272 | a mouse position inside the stretched picture is mapped to the pixel in whose stretched cell it lies, which is always one of the picture's, so the clamps of the source are never needed |
| Overlay.PackSourceIs | e9k-debugger/amiga_blittervis.c:1188-1209 | a pixel keeps 24 bits of the source address and the source's kind in the highest bit |
| Overlay.Overlay.Sweep | e9k-debugger/amiga_blittervis.c:1212-1233 | the delete-while-iterating sweep visits every active pixel once, ends, fades the fresh ones, clears and delists the others, and touches nothing else |
| Overlay.Overlay.SweepOne | e9k-debugger/amiga_blittervis.c:1213-1232 | each step either passes a faded pixel or clears one, and in both cases shortens what is left of the list |
| Overlay.SweepClears | e9k-debugger/amiga_blittervis.c:1228-1232 | clearing moves the last pixel of the list to the current position without letting the sweep miss it |
| Overlay.Overlay.Scatter | e9k-debugger/amiga_blittervis.c:1156-1211 | after scattering a frame every pixel's remembered covers are extended by exactly the spans of the frame that cover it, in order, and the table knows every span that landed |
| Overlay.Overlay.ScatterSpan | e9k-debugger/amiga_blittervis.c:1158-1187 | a span off the screen or without id leaves everything as it was; any other is recorded and drawn, with the colour of its own id although colours are cached from span to span |
| Overlay.Overlay.PaintSpan | e9k-debugger/amiga_blittervis.c:1185-1210 | a span extends the covers of the pixels from its first to its clipped last column and of no others |
| Overlay.Overlay.PaintPixel | e9k-debugger/amiga_blittervis.c:1186-1210 | drawing a pixel keeps its record equal to what its covers say and puts it on the active list if it was not there |
| Overlay.CoverRemembered | e9k-debugger/amiga_blittervis.c:1188-1209 | the in-place history update and field copies yield exactly the record of the extended list of covers |
| OverlaySpec.CoversIsRowAndColumn | e9k-debugger/amiga_blittervis.c:1158-1187 | a span with an id that starts on the screen covers, in its row, its first column and every column up to its end, and nothing else |
| OverlaySpec.NaiveImageIs | e9k-debugger/amiga_blittervis.c:1150-1234 | the simple rule in the spans' own terms: 0 where none was ever drawn, else the last drawn span decides by its age and its id |
| OverlaySpec.SteadyIs | e9k-debugger/amiga_blittervis.c:1150-1154 | what a steady run is, from frame to frame |
| OverlayRuns.ShownIff | e9k-debugger/amiga_blittervis.c:1150-1234 | in any run, with a decay that changes and a counter that goes back, a pixel is shown at the end if and only if the last span drawn on it was younger than the decay in its own frame and in every frame since; that span decides its colour |
| OverlayRuns.ShownPixelIs | e9k-debugger/amiga_blittervis.c:1188-1233 | the buffers hold of a shown pixel the colour of the last span drawn on it, faded by its age, and that span's id, frame, source and other fields |
| OverlayRuns.DarkPixelIs | e9k-debugger/amiga_blittervis.c:1219-1233 | of every other pixel they hold nothing: no colour, no id, no place on the active list |
| OverlayRuns.RemembersSince | e9k-debugger/amiga_blittervis.c:1156-1233 | a pixel remembers every span drawn on it since it was last dark and none from before |
| OverlayRuns.AllCoversAre | e9k-debugger/amiga_blittervis.c:1156-1211 | the spans that count are all that are drawn on the pixel, in the order of the frames and of the spans in each |
| OverlayRuns.HistoryIs | e9k-debugger/amiga_blittervis.c:344-381 | the ids kept for a click are the four drawn last on the pixel, or all, the one drawn last first |
| OverlayRuns.RecordIs | e9k-debugger/amiga_blittervis.c:1158-1184 | the blit table has of every id the last span that starts on the screen, with its frame |
| OverlayRuns.NoRecord | e9k-debugger/amiga_blittervis.c:1158-1184 | it has no other ids |
| OverlaySpec.SteadyTrack | e9k-debugger/amiga_blittervis.c:1219-1233 | in a steady run a pixel is kept exactly while the last cover of the whole run is younger than the decay |
| OverlaySpec.TrackShowsNaiveImage | e9k-debugger/amiga_blittervis.c:1219-1233 | forgetting covers at each sweep loses nothing: what is remembered shows the simple rule's colour |
| OverlaySpec.RecordsOutliveCovers | e9k-debugger/amiga_blittervis.c:1175-1190 | the table's frame for an id a pixel remembers is never older than the pixel's own cover by it |
| OverlaySpec.ClickStartsWithHoveredId | e9k-debugger/amiga_blittervis.c:384-465 | the most recent id of a visible pixel is fresh in the table, so it heads the click list |
| OverlaySpec.FreshIdsAre | e9k-debugger/amiga_blittervis.c:430-438 | an id is listed if and only if it is in the history and its record is younger than the decay or there is none; the order is the history's |
| OverlaySpec.FullAlphaIffNoWrap | e9k-debugger/amiga_blittervis.c:550-562 | a span drawn this frame has full alpha if and only if the 32-bit product does not wrap |
| OverlaySpec.FadesIffNoWrap | e9k-debugger/amiga_blittervis.c:550-562 | for every 32-bit decay: alpha never rises with age if and only if the product does not wrap, except that above 2^32 - 16 nothing is shown at any age |
| OverlaySpec.AlphaForAge | e9k-debugger/amiga_blittervis.c:550-562 | the result always fits the alpha byte, even when the product wraps |
| OverlaySpec.AlphaIs | e9k-debugger/amiga_blittervis.c:550-562 | full alpha without decay, none from the decay on, and between them the wrapped product divided by the range |
| OverlaySpec.Rgb | e9k-debugger/amiga_blittervis.c:160-174 | red, green and blue are each between 64 and 191, red from the lowest byte of the hash and blue from the third |
| OverlaySpec.MixExamples | e9k-debugger/amiga_blittervis.c:160-166 | the hash of the ids 0, 1 and 7 |
| ActiveSet.ActiveSet.Activate | e9k-debugger/amiga_blittervis.c:198-216 | adding keeps list and slots mutually inverse and leaves every other position alone |
| ActiveSet.ActiveSet.Remove | e9k-debugger/amiga_blittervis.c:218-240 | removal by moving the last entry keeps list and slots mutually inverse; only the moved pixel changes position |
| ActiveSet.ActiveSet.Resize | e9k-debugger/amiga_blittervis.c:1096-1142 | a new pixel count empties the list and clears the slots in use, growing the buffers only when needed |
| ActiveSet.LinkRemoved | e9k-debugger/amiga_blittervis.c:218-240 | swap-removal on list and slots preserves the two-way correspondence |
| ActiveSet.RoomFor | e9k-debugger/amiga_blittervis.c:210-212 | the capacity guard never fires: a pixel off the list always leaves room for itself |
| ActiveSet.ListDistinct | e9k-debugger/amiga_blittervis.c:198-240 | no pixel is listed twice |
| ActiveSet.ListedIffSlot | e9k-debugger/amiga_blittervis.c:198-240 | a pixel is on the list exactly if its slot is not 0 |
| Recency.ByRecencyIsOrdered | e9k-debugger/amiga_blittervis.c:344-381 | the recency list has no repetition and lists ids strictly by their last use |
| Recency.TouchIsRecency | e9k-debugger/amiga_blittervis.c:344-381 | updating the four-deep history id by id keeps it equal to the four most recent distinct ids of the whole sequence |
| Recency.RememberBlit | e9k-debugger/amiga_blittervis.c:344-381 | the shifting loop has the effect of moving the id to the front or pushing it and dropping the oldest |
| BlitTable.BlitTable.SetRecord | e9k-debugger/amiga_blittervis.c:632-674 | recording updates the mathematical map and succeeds if and only if the id is not 0 and fewer than 786,432 distinct ids are recorded, through any number of growths |
| BlitTable.BlitTable.GetMeta | e9k-debugger/amiga_blittervis.c:703-738 | a lookup returns the last record of the id, and not-found for every other id |
| BlitTable.BlitTable.GetFrame | e9k-debugger/amiga_blittervis.c:676-701 | the frame lookup agrees with the map |
| BlitTable.BlitTable.EnsureTable | e9k-debugger/amiga_blittervis.c:564-630 | growing keeps every record and leaves the table at most half full unless it has its largest size |
| BlitTable.BlitTable.Rehash | e9k-debugger/amiga_blittervis.c:588-629 | moving to a larger table keeps the map and the count |
| BlitTable.BlitTable.MoveAll | e9k-debugger/amiga_blittervis.c:599-619 | every record of the old arrays ends up reachable in the new ones, none twice |
| BlitTable.BlitTable.DesiredCap | e9k-debugger/amiga_blittervis.c:570-583 | the doubling loop ends at a power of two that suffices or at the maximum, and asks for nothing when the table is large enough |
| BlitTable.BlitTable.Reset | e9k-debugger/amiga_blittervis.c:1141-1147 | clearing the ids empties the map and keeps the table usable |
| BlitTable.BlitTable.Probe | e9k-debugger/amiga_blittervis.c:647-672 | the wrapping probe loop ends at the slot the mathematical search gives |
| Bits.MaskIsRemainder | e9k-debugger/amiga_blittervis.c:646-671 | masking with a power of two minus one is the remainder, for every hash |
| LinearProbing.SearchDecides | e9k-debugger/amiga_blittervis.c:676-738 | a probe finds a key if and only if it was put, and finds it where it was put |
| LinearProbing.PlaceKey | e9k-debugger/amiga_blittervis.c:656-662 | filling the free slot a probe ends at leaves every earlier key reachable |
| LinearProbing.StoreAtStop | e9k-debugger/amiga_blittervis.c:655-672 | writing at the slot a probe stops at is an update of the map |
| LinearProbing.SearchStops | e9k-debugger/analyse.c:117-142 | with fewer keys than slots a probe never comes full circle |
| UaeState.RoundTrip | e9k-debugger/amiga_uae_options.c:588-670 | loading a file just saved returns the options in normal form (values trimmed, folder with separator, default volume, entries by key, no volume for an image) if and only if both drives come back: an image that is not a directory, a folder whose line fits the middle buffer or loses nothing but its closing quote there |
| UaeState.DriveComesBack | e9k-debugger/amiga_uae_options.c:604-668 | the same for one drive's line: it reads back as the drive if and only if the condition holds |
| UaeState.DriveFitsIs | e9k-debugger/amiga_uae_options.c:594-602 | how long a drive's path may be for its line to fit the value buffer |
| UaeState.LongFolderIsLost | e9k-debugger/amiga_uae_options.c:604-668 | a folder of 1100 letters does not come back |
| UaeState.TrimmedRoundTrip | e9k-debugger/amiga_uae_options.c:824-972 | when nothing needs trimming only the drives' normal form and the order of entries differ |
| UaeState.NormalIsNormal | e9k-debugger/amiga_uae_options.c:824-972 | the normal form of any options is its own normal form |
| UaeState.NormalPrintsTheSame | e9k-debugger/amiga_uae_options.c:824-972 | the normal form of options with nothing to trim prints the same block |
| UaeReload.ReloadIsNormal | e9k-debugger/amiga_uae_options.c:588-670 | whatever a file contains, load, save and load again gives the normal form of what was loaded if and only if no folder is cut, provided the printed lines fit the value and line buffers; a loaded image always comes back |
| UaeReload.LoadedFromFile | e9k-debugger/amiga_uae_options.c:604-668 | every file loads to clean, bounded options with distinct keys and no image path naming a directory |
| UaeReload.ParsedIsClean | e9k-debugger/amiga_uae_options.c:426-467 | key and value of any line read from a file are trimmed, break-free and within their buffers |
| UaeState.DirectoryImageBecomesFolder | e9k-debugger/amiga_uae_options.c:639-660 | a saved image path that names a directory comes back as a folder: why it is outside the round trip |
| UaeStable.SaveTwice | e9k-debugger/amiga_uae_options.c:824-972 | for every file and all options in their buffers: saving twice gives the same file as saving once if and only if every drive line and option line survives being read |
| UaeStable.BlockSurvives | e9k-debugger/amiga_uae_options.c:845-963 | every piece the reader cuts the generated block into is recognised if and only if the drives and options are stable; the floppy lines always are |
| UaeStable.LoadedEntrySurvives | e9k-debugger/amiga_uae_options.c:845-963 | an option line a load can produce survives the next save unless, and only unless, key and value both fill their buffers |
| UaeStable.PlainEntrySurvives | e9k-debugger/amiga_uae_options.c:845-963 | an option without a second equals sign survives if and only if its line fits the line buffer |
| UaeStable.ImageSurvives | e9k-debugger/amiga_uae_options.c:240-353 | an image line survives if and only if the tail of unit 1 is read whole and any second piece looks managed |
| UaeStable.PlainImage0 | e9k-debugger/amiga_uae_options.c:240-353 | for unit 0, without an equals sign in the path: if and only if the printed value has at most 8180 characters |
| UaeStable.PlainImage1 | e9k-debugger/amiga_uae_options.c:240-353 | for unit 1, without quotes in the path: if and only if the printed value has at most 7167 characters |
| UaeStable.FolderSurvives | e9k-debugger/amiga_uae_options.c:135-238 | a folder line survives if and only if what is left of its value is still a folder line of the unit and any second piece looks managed |
| UaeStable.PlainFolder | e9k-debugger/amiga_uae_options.c:135-238 | for a folder and volume without commas: if and only if the printed value has at most 7167 characters |
| UaeStable.Image1Accumulates | e9k-debugger/amiga_uae_options.c:845-963 | an image of unit 1 with 3600 backslashes leaves a copy of its line at every save |
| UaeStable.Image0Accumulates | e9k-debugger/amiga_uae_options.c:845-963 | so does an image of unit 0 with 4095 backslashes |
| UaeStable.FolderAccumulates | e9k-debugger/amiga_uae_options.c:726-746 | so does a folder of 3600 backslashes set by the user |
| UaeStable.LongImageIsLoaded | e9k-debugger/amiga_uae_options.c:240-353 | the image of 3600 backslashes can come from a file |
| UaeLost.DriveIsLost | e9k-debugger/amiga_uae_options.c:604-963 | a drive whose line is recognised in no piece loads as no drive at all, whatever else is in the file and the options |
| UaeLost.LongImageIsLost | e9k-debugger/amiga_uae_options.c:240-353 | that is so for an image of unit 1, without quotes and equals signs, whose printed value has more than 7167 characters |
| UaeLost.LongFolderIsLost | e9k-debugger/amiga_uae_options.c:135-238 | and for a folder without commas and equals signs whose printed value has more than 7167 characters |
| UaeLost.Image1IsLost | e9k-debugger/amiga_uae_options.c:604-963 | an image of 3600 backslashes on unit 1 is gone at the load after a save |
| UaeFile.OneTooLong | e9k-debugger/amiga_uae_options.c:847-890 | a managed line one character longer than a read leaves an empty line behind at every save |
| UaeState.BlockIsWhole | e9k-debugger/amiga_uae_options.c:892-961 | when the lines fit the buffers, every generated line is read back in one piece and recognised as managed |
| UaeState.BlockRead | e9k-debugger/amiga_uae_options.c:604-668 | the generated block alone loads to the normal form |
| UaeState.UnmanagedIgnored | e9k-debugger/amiga_uae_options.c:604-668 | a line the writer would keep never influences a load |
| UaeState.LoadSeesBlock | e9k-debugger/amiga_uae_options.c:604-668 | a load of a saved file sees the generated block and nothing else |
| UaeState.SortIsSorted | e9k-debugger/amiga_uae_options.c:528-536 | the entries are sorted by key, and sorting again changes nothing |
| UaeState.KeyLeIs | e9k-debugger/amiga_uae_options.c:528-536 | keys are ordered by their first characters that differ, a key before every longer one that begins with it |
| UaeFile.SavedLines | e9k-debugger/amiga_uae_options.c:845-963 | a later read of a saved file sees the kept lines in order followed by the block, in whatever pieces the block is read, for any block |
| UaeFile.KeptVerbatim | e9k-debugger/amiga_uae_options.c:845-890 | the kept lines are those of the file, character for character and in order; at most one line break is added |
| UaeFile.SaveIsIdempotentIff | e9k-debugger/amiga_uae_options.c:845-963 | for any file and any block, saving a saved file changes nothing if and only if every piece the reader cuts the block into is recognised |
| UaeFile.RecognisedJoin | e9k-debugger/amiga_uae_options.c:845-963 | blocks of whole lines survive together if and only if each survives alone |
| UaeFile.ChunksOfClosed | e9k-debugger/amiga_uae_options.c:847-849 | complete lines are read one by one whatever follows them, through a fixed buffer |
| UaeFile.ChunksAre | e9k-debugger/amiga_uae_options.c:847-849 | a text is read in pieces that make it up, of at most 8191 characters, each but the last ending at a line break or full |
| UaeLine.FolderRead | e9k-debugger/amiga_uae_options.c:135-238 | a printed folder line is recognised by its own unit only and read back whole when its middle part fits |
| UaeLine.LongFolderRead | e9k-debugger/amiga_uae_options.c:135-238 | when it does not fit, the line is read back whole if and only if the escaped path, cut where the buffer ends, is the path itself and has no quote after its first character |
| UaeLine.HdfRead | e9k-debugger/amiga_uae_options.c:240-353 | a printed image line is recognised by its own unit only and read back whole |
| UaeLine.TailsAreGenerated | e9k-debugger/amiga_uae_options.c:314-335 | every geometry tail the writer prints is recognised as generated |
| UaeLine.ParsePrinted | e9k-debugger/amiga_uae_options.c:426-467 | a printed key=value line parses to that key and the trimmed value |
| UaeLine.ParseWithNewline | e9k-debugger/amiga_uae_options.c:426-467 | adding the missing line break at the end of a file does not change what its last line means |
| UaeLine.ParseIs | e9k-debugger/amiga_uae_options.c:426-467 | any line is split at its first equals sign, both sides lose the white space around them, the key is cut to 1023 characters and the value to 7167 |
| UaeLine.CommentSaysNothing | e9k-debugger/amiga_uae_options.c:426-440 | a comment, or a line without an equals sign, says nothing |
| UaeLine.ManagedKeyIs | e9k-debugger/amiga_uae_options.c:845-880 | which keys are managed whatever their value |
| Text.UnescapeEscape | e9k-debugger/amiga_uae_options.c:196-209 | unescaping inverts escaping for every string, quotes and backslashes included |
| Text.EscapeIs | e9k-debugger/amiga_uae_options.c:355-371 | text is escaped character by character, a backslash to two, any other to itself |
| Text.UnescapeIs | e9k-debugger/amiga_uae_options.c:196-209 | reading takes a backslash and what follows it for what follows it |
| Text.TrimLeftIs | e9k-debugger/amiga_uae_options.c:426-467 | trimming on the left takes all spaces and tabs and nothing else |
| Text.TrimRightIs | e9k-debugger/amiga_uae_options.c:426-467 | trimming on the right takes all spaces, tabs and line end characters and nothing else |
| Text.WriteQuoted | e9k-debugger/amiga_uae_options.c:355-371 | the writer's loop appends the escaped path between quotes |
| Text.ReadQuoted | e9k-debugger/amiga_uae_options.c:196-209 | the reader's loop yields the unescaped text, cut to its buffer |
| UaeOptions.UaeOptions.Load | e9k-debugger/amiga_uae_options.c:588-670 | loading clears the store and reads exactly the managed lines; nothing is dirty afterwards |
| UaeOptions.UaeOptions.Save | e9k-debugger/amiga_uae_options.c:824-972 | the saved text is the kept lines plus the block; the store keeps its options, sorted, and is clean |
| UaeOptions.UaeOptions.CopyUnmanaged | e9k-debugger/amiga_uae_options.c:845-890 | the copying loop keeps exactly the unmanaged lines and closes the last one |
| UaeOptions.UaeOptions.WriteBlock | e9k-debugger/amiga_uae_options.c:892-963 | the writing steps print the generated block |
| UaeOptions.UaeOptions.WriteDrive | e9k-debugger/amiga_uae_options.c:892-945 | the steps for one drive, with the escaping loop for its path, print the line the reader is shown to understand |
| UaeBlock.DriveLineIs | e9k-debugger/amiga_uae_options.c:908-945 | the exact text of a drive's line: an image with its geometry, by partition table and size, or a folder that ends in a separator, under its volume or the unit's default |
| UaeBlock.FloppyLinesAre | e9k-debugger/amiga_uae_options.c:892-906 | the exact text of the floppies' lines |
| UaeBlock.BlockIs | e9k-debugger/amiga_uae_options.c:892-963 | the block is the text of the floppies, of both drives and of the options by key |
| UaeBlock.EntryLineIs | e9k-debugger/amiga_uae_options.c:955-963 | the exact text of an option's line |
| UaeOptions.UaeOptions.SetPuae | e9k-debugger/amiga_uae_options.c:682-703 | setting replaces or adds one entry, removing drops one, keys of another kind are ignored; keys stay distinct |
| UaeState.SetEntryIs | e9k-debugger/amiga_uae_options.c:469-507 | setting a key replaces its value where it stands or adds it at the end; every other entry keeps its place, and no key occurs twice |
| UaeLoad.LastPuaeLineDecides | e9k-debugger/amiga_uae_options.c:604-668 | of several lines with one option's key the last decides its value |
| UaeLoad.UnnamedIsUnset | e9k-debugger/amiga_uae_options.c:604-668 | an option no line names is not set |
| UaeDrive.FloppyLoads | e9k-debugger/amiga_uae_options.c:608-617 | a floppy line of any file sets its drive to the path it names, whatever came before |
| UaeDrive.FolderLoads | e9k-debugger/amiga_uae_options.c:619-639 | a managed folder line gives its unit the folder and the volume and takes its image away |
| UaeDrive.ImageLoads | e9k-debugger/amiga_uae_options.c:641-657 | a managed image line gives its unit the image, or the folder if the path names a directory, and keeps the volume |
| UaeDrive.ManagedFolderIs | e9k-debugger/amiga_uae_options.c:222-238 | a folder line is managed if and only if its mode is rw, its last part 0, and a folder is read from it |
| UaeDrive.ManagedImageIs | e9k-debugger/amiga_uae_options.c:314-353 | an image line of the second unit is managed if and only if a geometry the writer could have printed follows its path; of the first every one is |
| UaeDrive.FolderMiddleIs | e9k-debugger/amiga_uae_options.c:152-178 | of a folder line only the first 1023 characters between its first and last comma are looked at, and they must begin with the device |
| UaeDrive.VolumeAndPath | e9k-debugger/amiga_uae_options.c:179-200 | behind the device stand a volume, up to a colon and cut to 63 characters, and a path, neither empty |
| UaeDrive.FolderPathIs | e9k-debugger/amiga_uae_options.c:201-216 | a path in quotes of either kind is unescaped up to the last such quote and cut to 4095 characters |
| UaeDrive.PlainFolderPathIs | e9k-debugger/amiga_uae_options.c:217-219 | a path without quotes, or with one that nothing closes, is read to its end |
| UaeDrive.ImageLineIs | e9k-debugger/amiga_uae_options.c:240-262 | an image is read if and only if the unit's device and more follow the first comma |
| UaeDrive.ImagePathIs | e9k-debugger/amiga_uae_options.c:263-280 | its path in quotes of either kind is read whatever follows the last such quote |
| UaeDrive.PlainImagePathIs | e9k-debugger/amiga_uae_options.c:281-287 | its path without quotes is read up to the next comma |
| UaeDrive.OpenImagePathIs | e9k-debugger/amiga_uae_options.c:263-287 | a quote that nothing closes is dropped and the path read up to the next comma |
| UaeDrive.UnitsApart | e9k-debugger/amiga_uae_options.c:135-288 | no line is for both units |
| UaeOptions.UaeOptions.GetPuae | e9k-debugger/amiga_uae_options.c:672-680 | a value is found if and only if the table has an entry of that key, and is that entry's |
| UaeOptions.UaeOptions.SetFolderPath | e9k-debugger/amiga_uae_options.c:726-746 | a folder replaces the unit's image and names an unnamed volume; the other unit is untouched |
| UaeOptions.UaeOptions.SetHdfPath | e9k-debugger/amiga_uae_options.c:757-770 | an image replaces the unit's folder and keeps its volume; the other unit is untouched |
| UaeOptions.UaeOptions.SetFloppy | e9k-debugger/amiga_uae_options.c:796-812 | only the named floppy and its dirty bit change |
| UaeOptions.UaeOptions.Clear | e9k-debugger/amiga_uae_options.c:544-566 | clearing empties every option |
| UaeOptions.LoadLineKeepsGood | e9k-debugger/amiga_uae_options.c:604-668 | no line, however malformed, breaks the store: one entry a key, bounded paths, never both image and folder |
| ProfileCounter.TotalIsStretchSum | e9k-debugger/analyse.c:128-137 | a counter's total is the sum over its maximal non-decreasing stretches of their final values, in 64 bits |
| ProfileCounter.MonotoneTotal | e9k-debugger/analyse.c:128-137 | a counter that never falls totals to its last value |
| ProfileCounter.ResetStartsAfresh | e9k-debugger/analyse.c:128-137 | a reset contributes its full value on top of the earlier total |
| ProfileMap.InsertAllTotals | e9k-debugger/analyse.c:111-142 | after any sequence of reports each pc holds the totals of its own reports, samples and cycles independently |
| ProfileTable.ProfileTable.InsertReport | e9k-debugger/analyse.c:111-142 | with the room left for it an insert never fails and is the map update |
| ProfileTable.ProfileTable.Record | e9k-debugger/analyse.c:390-402 | make room and insert: the table refines the map for every report |
| ProfileTable.ProfileTable.EnsureCapacity | e9k-debugger/analyse.c:215-231 | the load stays below one half and no record changes |
| ProfileTable.ProfileTable.Resize | e9k-debugger/analyse.c:144-176 | resizing ends and keeps every record unchanged |
| ProfileTable.ProfileTable.MoveOne | e9k-debugger/analyse.c:161-170 | the unbounded inner probing loop ends at a free slot |
| ProfileTable.ProfileTable.Snapshot | e9k-debugger/analyse.c:1261-1296 | the snapshot lists each pc exactly once with its totals, by samples descending and then pc ascending |
| Sorting.SortSorts | e9k-debugger/analyse.c:1241-1259 | sorting with a total order gives an ordered list |
| Sorting.SortOfSorted | e9k-debugger/amiga_uae_options.c:951-953 | sorting an ordered list changes nothing |
| HitText.PacketRead | e9k-debugger/analyse.c:309-414 | a packet with white space anywhere it may stand, pcs in any spelling of up to 29 hexadecimal digits and any unknown keys whose values have no comma or closing bracket scans to exactly its reports in order; the stream may be named anywhere in the line and the hits key only has to be the first |
| HitEmitter.NextPacket | ami9000/libretro/e9k_debug.c:2914-2994 | the Amiga emulator's loop for one packet: the hits with something to say are either in the packet or kept back, none is lost or sent twice, each part in order; there is a packet whenever its frame fits, it fits the buffer, none is kept back that would still fit, and the debugger reads exactly the hits that are in it |
| HitEmitter.CountedIs | ami9000/libretro/e9k_debug.c:2935-2950 | which hits have something to say: those with samples or cycles |
| HitEmitter.OpeningIs | ami9000/libretro/e9k_debug.c:2925-2931 | how a packet begins, letter by letter |
| HitEmitter.EmittedRead | ami9000/libretro/e9k_debug.c:2930-2985 | whatever hits an emulator sends, with any 64-bit counts, and with the comma in front of the first when others were kept back, its packet scans to exactly them in order, each pc on the 24-bit bus |
| HitEmitter.EntryFits | ami9000/libretro/e9k_debug.c:2955-2967 | an entry with its comma always fits the buffer it is printed in |
| HitEmitter.EmittedIsPacket | geo9000/src/geo_profiler.c:540-575 | the text an emulator prints is a packet of that form |
| HitEmitter.SixDigitsRead | ami9000/libretro/e9k_debug.c:2957-2963 | the printed pc has at least six digits, exactly six below 2^24, and is read back, whatever its value |
| HitStrings.SeenRead | e9k-debugger/analyse.c:328-406 | for any hits with any strings without quotes inside, commas and brackets of all kinds included: the scan reports exactly what following the scanner field by field predicts (in an object, in what it takes for a key, between objects, or past the array) |
| HitStrings.PacketSeen | e9k-debugger/analyse.c:309-414 | the same of a whole packet |
| HitStrings.HitsSeenRead | e9k-debugger/analyse.c:328-406 | the same with any text behind the array, which is then scanned on in the predicted place |
| HitStrings.FieldSeenRead | e9k-debugger/analyse.c:345-398 | the same of one field, wherever the scanner takes itself to be |
| HitStrings.TextRead | e9k-debugger/analyse.c:328-406 | text without quotes moves the scanner as predicted: a closing brace ends the object it is in, an opening one begins an object, a closing bracket ends the array |
| HitLosses.StringDropsNext | e9k-debugger/analyse.c:345-398 | a string with a comma or a closing bracket, but no closing brace, is dropped together with the field after it, wherever the two stand and whatever was read before |
| HitLosses.SpilledHitRead | e9k-debugger/analyse.c:328-406 | among any hits, a hit with one such string that is not its last field is reported without the string and the next field; so the array is read right if and only if the hit says the same without the two |
| HitLosses.MissedIffNotIdle | e9k-debugger/analyse.c:345-398 | when no known key occurs twice, that is the case if and only if the next field has an unknown key or a count of 0, or is a count in a hit without a pc |
| HitLosses.LastStringIsHarmless | e9k-debugger/analyse.c:328-406 | when no value before it has a comma or a closing bracket, the last field of the last hit may be any string at all: everything is read right |
| HitLosses.StringJoinsHits | e9k-debugger/analyse.c:328-406 | such a string at the end of a hit that another follows makes one hit of the two, without the first field of the other |
| HitLosses.StringReadIffPlain | e9k-debugger/analyse.c:349-389 | a hit that begins with an unknown key and any string without quotes inside, followed by its pc and any counts, is reported if and only if the string has no comma and no closing brace or bracket; otherwise nothing is |
| HitExamples.CommaLosesTheHit | e9k-debugger/analyse.c:384-402 | a name with a comma in front of the pc loses its hit |
| HitExamples.CommaLosesTheCount | e9k-debugger/analyse.c:374-389 | in front of a count it loses the count |
| HitExamples.CommaLosesTheNextHit | e9k-debugger/analyse.c:328-406 | at the end of a hit it loses the next one, which has no string at all |
| HitExamples.CommaLosesNothing | e9k-debugger/analyse.c:328-406 | at the end of the last hit it loses nothing |
| HitText.ObjectsRead | e9k-debugger/analyse.c:328-406 | the array of hit objects scans to the reports of the objects that have a pc |
| HitText.FieldRead | e9k-debugger/analyse.c:349-389 | a printed key and value has the effect of that field, unknown keys none |
| HitText.HexRead | e9k-debugger/analyse.c:233-248 | a pc in either case, with leading zeros or not, is read as its number, stuck at 2^64 - 1 and cut to 32 bits |
| HitText.DecimalRead | e9k-debugger/analyse.c:250-260 | a printed count is read back, up to 2^64 - 1 |
| HitText.CountIs | e9k-debugger/analyse.c:250-260 | any count, with white space, a sign and leading zeros, is read as its number in 64 bits, stuck at the top |
| HitText.PcIs | e9k-debugger/analyse.c:233-248 | any pc text, with a prefix, white space, a sign and a prefix again, is read as its number, of which 32 bits are kept |
| HitText.LongPc | e9k-debugger/analyse.c:352-371 | of a pc with more than 29 digits the first 29 are read |
| HitText.PlainIs | e9k-debugger/analyse.c:376-387 | a value is skipped whole if and only if it has no comma and no closing brace or bracket |
| HitScanner.ParsePacket | e9k-debugger/analyse.c:299-414 | parsing a printed packet folds the map insert over its hits in order |
| HitScanner.ParseEmitted | e9k-debugger/analyse.c:299-414 | parsing what an emulator sends folds the map insert over what was sent |
| HitScanner.ParseStreamLine | e9k-debugger/analyse.c:299-414 | parsing any line, complete or not, has the effect of the reports the scan finds in it |
| HitScanner.ProfileOf | e9k-debugger/analyse.c:299-414 | from the text of a stream to the profile: exactly the pcs of its reports, each once, with the totals of their own reports, by samples and then by address |
| HitScanner.ParseStream | e9k-debugger/analyse.c:299-414 | line after line, the table holds what all reports of the stream make of it |
| HitScanner.ScanFrom | e9k-debugger/analyse.c:328-412 | the loop over hit objects consumes input in every turn and ends |
| HitScanner.ScanObjectAt | e9k-debugger/analyse.c:345-398 | the loop over keys consumes input in every turn and agrees with the scanner's specification |
| HitScanner.ScanValueAt | e9k-debugger/analyse.c:361-390 | each value is consumed and applied as specified |
| HitScanner.ConsumeKey | e9k-debugger/analyse.c:262-296 | the key, cut to its buffer, and the text after its colon |
| HitText.KeyRead | e9k-debugger/analyse.c:262-296 | a key of any text without quotes is read to its first 15 characters, and the scan goes on behind its colon |
| LineTotals.LinesAggregate | e9k-debugger/analyse.c:1155-1228 | output lines have distinct file and number, every valid entry has one, and each line sums exactly its own entries and shows the first with the most cycles, or with the most samples when all cycles are 0 |
| LineTotals.LinesInOrder | e9k-debugger/analyse.c:1155-1192 | every entry that counts has a line and every line an entry, and the lines come in the order of their first entries |
| LineTotals.GroupIs | e9k-debugger/analyse.c:1155-1192 | the entries of a line are those with its file and number, never of an unknown file or a number that is not positive |
| LineTotals.ValidIs | e9k-debugger/analyse.c:1155-1170 | which entries count at all |
| LineTotals.LinesConserve | e9k-debugger/analyse.c:1155-1192 | the lines' cycles and samples add up to those of all valid entries, in 64 bits |
| LineTotals.NextEntry | e9k-debugger/analyse.c:1190-1215 | one more entry keeps a line's totals and its choice of representative right |
| LineTotals.AggregateLines | e9k-debugger/analyse.c:1155-1228 | the growing, in-place loop computes the specified lines |
| BitRaster.Rasterise | e9k-debugger/amiga_memview.c:2943-3005 | after drawing, every pixel of the texture is the colour its memory bit asks for, lit or 0 |
| BitRaster.PixelAt | e9k-debugger/amiga_memview.c:2955-3005 | texture pixel (x, y) shows bit firstBit + x / bitPx of row y / rowPx, most significant first, in the colour of the tag of its word, the colour of untagged bits, or 0 |
| BitRaster.BitSetIs | e9k-debugger/amiga_memview.c:2985-2990 | bit k of a byte, counted from the most significant, is set if and only if the byte has the bit of weight 2^(7-k) |
| BitRaster.TagIsOfTheBytesWord | e9k-debugger/amiga_memview.c:2945-2977 | the tag looked up is that of the 16-bit word containing the byte, for even and odd base addresses, and in bounds |
| BitRaster.SkippedByte | e9k-debugger/amiga_memview.c:2967-2969 | the skip conditions lose no pixel |
| BitRaster.ViewShowsTheWindow | e9k-debugger/amiga_memview.c:2775-2796 | the visible bits are exactly the bits of a row with a pixel column in the window |
| BitRaster.DrawRow | e9k-debugger/amiga_memview.c:2955-3005 | one row of memory is drawn right and no other row is touched |
| BitRaster.DrawByte | e9k-debugger/amiga_memview.c:2960-3004 | the lit visible bits of a byte are drawn and nothing else |
| BitRaster.FillBlock | e9k-debugger/amiga_memview.c:2992-3002 | a bit's block of pixels is filled and no other pixel changes |
| PointerRuns.CollectedAutos | e9k-debugger/amiga_memview.c:952-1045 | the candidates are distinct and within capacity, each comes from a rightward-maximal run of at least three lines with one non-zero step, and unless the list is full no run is missed |
| PointerRuns.NoRunMissed | e9k-debugger/amiga_memview.c:952-1045 | unless the list is full it has a view for every run whose rows have at most 512 bytes and whose picture begins inside the 24-bit space, at that beginning if the limits allow it and with that step if it is even |
| PointerRuns.RunYields | e9k-debugger/amiga_memview.c:1020-1040 | a run yields one candidate at most, and one exactly if its rows have at most 512 bytes and a falling pointer's picture begins inside the 24-bit space; where it begins and how long its rows are |
| PointerRuns.RunsAre | e9k-debugger/amiga_memview.c:972-1020 | the runs line by line: at least three lines that move by one step, which the next does not follow; every three lines that move alike begin in one |
| PointerRuns.CollectLineAuto | e9k-debugger/amiga_memview.c:952-1045 | the list is the first different candidates of all runs, although the loops stop early when it is full |
| PointerRuns.FirstOfEach | e9k-debugger/amiga_memview.c:890-904 | of the candidates offered the list has the first of each, in the order they come, until it is full |
| PointerRuns.PlanesInOrder | e9k-debugger/amiga_memview.c:972-1043 | they come plane by plane, from the first to the eighth |
| PointerRuns.RunsInOrder | e9k-debugger/amiga_memview.c:982-1042 | and within a plane run by run |
| PointerRuns.ScanPlane | e9k-debugger/amiga_memview.c:972-1043 | one plane's scan ends and adds the candidates of all its runs |
| PointerRuns.RunsAreRight | e9k-debugger/amiga_memview.c:972-1043 | runs of a plane are rightward-maximal and disjoint and cover every place where one could start |
| PointerRuns.CandidateGrid | e9k-debugger/amiga_memview.c:1022-1040 | the lines of a run show the candidate's own rows if and only if the step is even and the base was not clamped |
| PointerRuns.RowsOfRun | e9k-debugger/amiga_memview.c:1022-1032 | every line of a run points at a row of the picture with the run's own step; for a falling pointer it starts one step below the last line |
| PointerRuns.CandidateRows | e9k-debugger/amiga_memview.c:361-375 | row bytes are even, between 2 and 512, and equal to the step's size if and only if that is even |
| PointerRuns.ClampsSettle | e9k-debugger/amiga_memview.c:343-375 | clamping a clamped view changes nothing |
| PointerRuns.AppendAutoIfUnique | e9k-debugger/amiga_memview.c:890-904 | a candidate is added exactly if it is new and there is room |
| PointerRuns.ExtendRun | e9k-debugger/amiga_memview.c:1001-1020 | the inner loop finds the full height of the run |
| CustomLog.RankOfSelect | e9k-debugger/amiga_custom_log.c:322-383 | ranking the selected k-th matching row gives back k, for every valid k |
| CustomLog.SelectOfRank | e9k-debugger/amiga_custom_log.c:322-383 | selecting the rank of a row gives the first matching row at or after it |
| CustomLog.Log.RawRowForFilteredIndex | e9k-debugger/amiga_custom_log.c:322-351 | with or without filters the loop selects the k-th matching row, the last one past the end |
| CustomLog.Log.FilteredIndexForRawRow | e9k-debugger/amiga_custom_log.c:353-383 | with or without filters the result is the row's rank, except that without filters a row past the end counts as the last |
| CustomLog.Log.FilteredCount | e9k-debugger/amiga_custom_log.c:299-320 | the count is the number of matching entries, by shortcut and by scan |
| CustomLog.Log.BuildScrollModel | e9k-debugger/amiga_custom_log.c:385-416 | the scroll model is the one the matching rows give: the shortcuts agree with the full scan, even past the end |
| CustomLog.Log.ClampScroll | e9k-debugger/amiga_custom_log.c:440-452 | clamping lands on a matching row and keeps the scroll model |
| CustomLog.ModelIsStable | e9k-debugger/amiga_custom_log.c:440-452 | a window scrolled to its own top stays there, so clamping is idempotent |
| CustomLog.Log.SetTopFilteredRow | e9k-debugger/amiga_custom_log.c:418-438 | the chosen row comes to the top, as far as the rows below fill the window |
| CustomLog.Log.AdjustScroll | e9k-debugger/amiga_custom_log.c:454-471 | scrolling by a number of rows moves the top by that number, limited at both ends |
| CustomLog.Log.Render | e9k-debugger/amiga_custom_log.c:1167-1293 | drawing shows exactly the window's slice of the filtered rows |
| CustomLog.WindowIsFull | e9k-debugger/amiga_custom_log.c:1206-1293 | the slice has min(visible, count) rows |
| CustomLog.WindowIs | e9k-debugger/amiga_custom_log.c:385-416 | the window in the rows' own terms: it begins with the first row at or after the scroll row, unless too few follow, and then ends with the last |
| CustomLog.Log.DrawFrom | e9k-debugger/amiga_custom_log.c:1206-1293 | the draw loop shows consecutive matching rows from the top one, until the window is full or the entries end |
| CustomLog.ContainsInsensitive | e9k-debugger/amiga_custom_log.c:581-609 | true if and only if the needle occurs somewhere, letter case aside |
| CustomLog.ContainsIs | e9k-debugger/amiga_custom_log.c:581-609 | the needle occurs if and only if some stretch of the text has the same letters |
| CustomLog.LowerIs | e9k-debugger/amiga_custom_log.c:581-609 | two characters count as the same if they are equal or the two cases of one letter of the alphabet |
| CustomLog.CaseIsIgnored | e9k-debugger/amiga_custom_log.c:581-609 | changing the case of letters in text or needle changes nothing |
| CustomLog.EntryMatchesFilters | e9k-debugger/amiga_custom_log.c:617-660 | an entry matches if and only if each column contains its filter |
| CustomLog.LongerFilterMatchesFewer | e9k-debugger/amiga_custom_log.c:581-660 | typing more into a filter never brings a row back |
| CustomLog.RowsAreTheMatches | e9k-debugger/amiga_custom_log.c:308-320 | a row is listed if and only if its entry matches |
| MemExport.ReadRange | e9k-debugger/amiga_memsave.c:81-122 | a read succeeds if and only if it meets the limits and the emulator answers; then it yields memory, zero outside the limits |
| MemExport.KindIs | e9k-debugger/amiga_memsave.c:124-139 | which kind of memory a range is, by its first address |
| MemExport.WriteExportType | e9k-debugger/amiga_memsave.c:481-546 | the export succeeds if and only if every chunk of every selected range can be read, and then writes them in order |
| MemExport.ExportedIsMemory | e9k-debugger/amiga_memsave.c:481-546 | for ranges inside the 24-bit space the file is the concatenation of their memory, whatever the chunk size |
| MemExport.ChunksAreTheMemory | e9k-debugger/amiga_memsave.c:517-535 | chunks of one range join up to its memory |
| MemExport.ReadableIffChunksMeetLimits | e9k-debugger/amiga_memsave.c:517-525 | a range can be written if and only if its first and last chunks meet the address limits |
| MemExport.BytesAreConserved | e9k-debugger/amiga_memsave.c:796-837 | the files that are written together hold exactly the bytes read for all ranges, each value as often; inside the 24-bit space these are the ranges' memory |
| MemExport.KindsShareTheRanges | e9k-debugger/amiga_memsave.c:124-139 | the bytes read for all ranges are shared out among the files of the four kinds |
| MemExport.RangeIsInItsFile | e9k-debugger/amiga_memsave.c:481-546 | what is read for a non-empty range stands at its offset in the file of its kind, and that file is planned; inside the 24-bit space it is the range's memory |
| MemExport.RangesAreApart | e9k-debugger/amiga_memsave.c:481-546 | two ranges of one kind have separate places in their file |
| MemExport.PresentKinds | e9k-debugger/amiga_memsave.c:796-837 | a kind is planned if and only if it has a non-empty range, and once |
| MemExport.PlanTypes | e9k-debugger/amiga_memsave.c:796-811 | the planning loops find the kinds present |
| SaveNames.ResolveIncrementedPath | e9k-debugger/amiga_memsave.c:322-344 | a free path is kept; otherwise the result is the first candidate that does not exist, and none only if there is no such candidate |
| SaveNames.SearchFindsOne | e9k-debugger/amiga_memsave.c:333-343 | with fewer existing files than numbers and room in the path the search always succeeds |
| SaveNames.CandidatesDiffer | e9k-debugger/amiga_memsave.c:276-319 | candidates for different numbers are never equal |
| SaveNames.CandidateParts | e9k-debugger/amiga_memsave.c:276-319 | a candidate stays in the directory, keeps the extension and is named after the path and the number |
| SaveNames.FamiliesApart | e9k-debugger/amiga_memsave.c:276-319 | paths whose names differ before the extension share no candidate, whatever the numbers |
| SaveNames.SameChoice | e9k-debugger/amiga_memsave.c:322-344 | the candidate chosen depends on the existing candidates of that path only |
| SaveNames.BuildSequenceButtonLabel | e9k-debugger/amiga_memsave.c:389-412 | the label names the very file the save would write against the same files |
| SaveNames.BuildIncrementedPath | e9k-debugger/amiga_memsave.c:276-319 | the copied pieces make up the candidate, refused only if it does not fit |
| SaveNames.CopyBasenameNoExt | e9k-debugger/amiga_memsave.c:346-372 | the file name without its extension, by the same rule the candidates use |
| SaveNames.PathParts | e9k-debugger/amiga_memsave.c:255-319 | a path is its directory, the name and the extension, divided at the last separator and the last dot behind it |
| SaveNames.FirstFreeIs | e9k-debugger/amiga_memsave.c:322-344 | the search takes the first of 999,999 candidates that does not exist, and gives up at one longer than 4095 characters |
| SavePlan.SavePlan.FinishSavePlan | e9k-debugger/amiga_memsave.c:548-583 | a save does exactly its planned writes, with paths chosen as if all were chosen at the start; it succeeds if and only if all memory can be read and every file has a path with room for the temporary suffix; then every file holds what was read for its kind, and the registers theirs, under the path as given or, in sequence, the first that is free; a save in sequence keeps every file there was, even when it fails half-way, if and only if no temporary file it uses existed, and each single file if and only if its name is not one of those; only planned files are new |
| SavePlan.TempIsLost | e9k-debugger/amiga_memsave.c:494-545 | an existing file named as a temporary file of the save is gone afterwards, in sequence or not, and whether or not the memory could be read |
| SavePlan.RunResults | e9k-debugger/amiga_memsave.c:548-583 | the same results, of the planned writes alone |
| SavePlan.JobsAreClean | e9k-debugger/amiga_memsave.c:548-583 | no planned write touches the target of another, in sequence or not: neither a candidate nor a temporary file |
| SavePlan.AllSucceedIff | e9k-debugger/amiga_memsave.c:548-583 | every planned write succeeds if and only if the memory can be read and the paths have room |
| SavePlan.CanSaveIs | e9k-debugger/amiga_memsave.c:481-583 | which paths allow it: those that leave room for .tmp within 4096 characters, as given or, in sequence, as chosen |
| SavePlan.TargetIs | e9k-debugger/amiga_memsave.c:322-344 | the path chosen in sequence is the given one if there is no such file, else the first free candidate |
| SaveRun.KeepsIff | e9k-debugger/amiga_memsave.c:548-583 | a run of writes keeps every file if and only if no temporary file it uses exists and no other content is written over one |
| SaveRun.WrittenAt | e9k-debugger/amiga_memsave.c:548-583 | later writes leave the files of earlier ones as they are |
| SaveRun.BorrowedIsGone | e9k-debugger/amiga_memsave.c:494-545 | a temporary file is gone after the run, whatever it held before |
| SavePlan.SavePlan.SaveTypes | e9k-debugger/amiga_memsave.c:555-570 | the loop over kinds does the planned writes one by one and stops at the first that fails; the paths it gives out later do not depend on those it has written |
| SavePlan.SavePlan.SaveType | e9k-debugger/amiga_memsave.c:555-570 | one kind: its path, its success and the files left are those of its planned write |
| SavePlan.SavePlan.WriteExport | e9k-debugger/amiga_memsave.c:481-546 | one file: written beside its place and moved there; a read that fails leaves neither it nor the temporary file |
| SavePlan.SavePlan.WriteCustomRegs | e9k-debugger/amiga_memsave.c:445-479 | the register file, in the same way |
| SavePlan.SavePlan.constructor | e9k-debugger/amiga_memsave.c:796-857 | the plan lists each kind present once, with paths that share no candidate and are no temporary files |
| SavePlan.PlannedPathsDiffer | e9k-debugger/amiga_memsave.c:195-250 | the names of the files of one save differ before the extension, and none ends in the temporary suffix |
| SavePlan.PlannedNamesAre | e9k-debugger/amiga_memsave.c:195-250 | the exact names of the files of a save |
| DmaStats.SlotsAreConserved | e9k-debugger/amiga_custom_ui_dma.c:1592-1652 | the nine counters add up to the records counted while a frame has fewer than 2^32 slots |
| DmaStats.CountSlots | e9k-debugger/amiga_custom_ui_dma.c:1556-1652 | exactly the records before each row's end marker are counted, each under its own kind |
| DmaStats.CountersAreNumbers | e9k-debugger/amiga_custom_ui_dma.c:1592-1652 | each counter of a frame is the number of places counted that hold a record of its kind, stuck at 2^32 - 1; a place is counted if its row is looked at and no record of the row up to it ends the row |
| DmaStats.SlotIs | e9k-debugger/amiga_custom_ui_dma.c:1599-1650 | which kind a record is, by the numbers the emulator gives |
| DmaStats.RowIsShown | e9k-debugger/amiga_custom_ui_dma.c:1560-1591 | which rows are looked at, by the number of lines and the mode |
| DmaStats.CountOne | e9k-debugger/amiga_custom_ui_dma.c:1596-1649 | one record advances the counter of its kind and no other, saturating at the top |
| DmaStats.VisitedIsWithin | e9k-debugger/amiga_custom_ui_dma.c:1592-1652 | no more records are counted than rows times stride, and none outside the frame |
| DmaStats.TotalIsOutOfAllSlots | e9k-debugger/amiga_custom_ui_dma.c:1653-1776 | the total shown is the records counted and is shown against every slot of the rows |
| DmaBar.DrawBar | e9k-debugger/amiga_custom_ui_dma.c:1378-1400 | the segments join up from the first column to the last, those with a column appear in order, and the rest is idle |
| DmaBar.BarOrder | e9k-debugger/amiga_custom_ui_dma.c:1366-1390 | the kinds are drawn in one order, each from the scaled sum of those before it to the sum with its own |
| DmaBar.EveryColumnOnce | e9k-debugger/amiga_custom_ui_dma.c:1378-1400 | joined-up segments fill every column exactly once |
| DmaBar.SegmentIsProportional | e9k-debugger/amiga_custom_ui_dma.c:1380-1390 | when the values fit the maximum every segment is within one pixel of its share |
| DmaBar.FrameFitsTheBar | e9k-debugger/amiga_custom_ui_dma.c:1762-1777 | a frame's counters always fit the bar's maximum |

## Left out

- The branch of the overlay renderer for the non-overlay mode, and switching modes: it writes pixels the active list does not know.
- `analyzePoints` and its line statistics, which nothing calls.
- `Span.detail` and `RetainedPixel.detail`: the register fields copied verbatim are one opaque field, and frame and span of a table slot are one record; the separate arrays are not modelled.
- Recency.RememberBlit: a retained pixel is a value stored in an array, so its history is updated as a value and not in place.
- The emulator calls that fetch spans, counters and the decay setting (they are the argument of `Overlay.Overlay.Render`); textures, blending and copying to the screen.
- UaeState.RoundTrip: says nothing of option lines longer than the line buffer and of drive values longer than the value buffer; what a save leaves of those is in `UaeStable`, and `UaeLost` has the drives that are then gone.
- Failures to open, write, close or rename a file, and the temporary file beside a saved configuration: `UaeOptions.Save` gives the new text of the file.
- HitStrings.SeenRead: strings with escaped quotes, values with nested brackets, and keys with commas or brackets, none of which an emulator sends. Behind an array that ends in a broken string it asks for no further quote; `HitsSeenRead` does not.
- HitEmitter.NextPacket: the table in which an emulator collects its hits: the hits that are due are its argument, and epochs are not modelled. The Neo Geo emulator sends all of its hits or nothing; only its text is modelled.
- `HdfTail` takes the answers of the file system about an image's header and size from `Host`; reading them is not modelled.
- `applyPuaeOptionsToHost`, the restart and floppy dirty queries, and the wrappers for unit 0 of the hard drive setters: easy.
- `strtoul`: the unsigned long of the platform is assumed to be 64 bits wide.
- `PATH_MAX` is assumed to be 4096, as on Linux. It bounds the paths of the options and of the memory saves; where it is smaller, the inputs with 3600 and 4095 backslashes do not fit a path.
- HitScanner.ParseStreamLine: packets that stop in white space inside an object: the source's loop then reads past the end of the text; the model stops there.
- The address resolver, call chains, source text and the choice of an entry's top frame: `LineTotals.Resolved` holds their results, with `frames` for the call frames. Addresses are never empty, as the formatted numbers they are.
- The report files written from the lines, the location cache and the fallbacks for missing lines.
- The bit texture's cache key, the overview picture and its cells, hopping between memory ranges, and the candidates taken from registers when no run is found.
- `BitRaster`: the base address is one after clamping to 24 bits, so masking it further changes nothing.
- `CustomLog.Log`: at most 2^31 - 1 entries, so that the saturating count and the casts to int never cut off; the formatting of the columns, register names, tooltips and breakpoints are not modelled.
- The list of ranges the target reports, the configuration name, the dialogs and the formatting of the custom registers: arguments of `SavePlan`.
- DmaStats.TotalIsOutOfAllSlots: frames below 2^32 records; beyond that the counters saturate, which `CountOne` states. The per-kind maxima and the limits shown when a frame has no rows are left out.
- `atarist_core_options.c`, register tables, window state, layout and every other part of the user interface.
