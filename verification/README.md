# Verification of the ruby console kernel and jscal

Dafny models of the parts of the ruby 2.6 kernel tree (a multi-desktop console layer for Linux) and of
the joystick tool `jscal` that carry the most state, with proofs of what they keep and compute.
`dafny verify dfyconfig.toml` checks everything. The model follows the code as written; pointers are
offsets into arrays, and allocators, signals, permissions and user-space faults are parameters.

| files | subject |
|---|---|
| `E820*.dfy` | the BIOS memory map: sanitizing it, copying it, finding a gap for PCI |
| `FunctionKeys.dfy` | the function-key string table and its compacting buffer |
| `Common.dfy` | notions that several models share |
| `Screen.dfy`, `HardScroll.dfy` | software scrolling, and VGA scrolling by moving the origin |
| `Vte*.dfy` | the DEC VT emulator and the console write loop |
| `Vcs*.dfy` | `/dev/vcs` and `/dev/vcsa` as byte files, on a console that is on display or not |
| `Uni*.dfy` | the three-level Unicode table, its sharing and reference counts |
| `LineDiscipline.dfy`, `TwoChangers.dfy`, `PtyPair.dfy` | line-discipline references, pty pairs |
| `VtSwitch.dfy` | the console switch handshake |
| `Selection*.dfy` | the highlighted selection, the mouse pointer, the copied text |
| `Resize.dfy` | resizing a console |
| `Utf8.dfy` | the keyboard's UTF-8 encoder and the console's decoder |
| `Decimal.dfy`, `Jscal*.dfy` | jscal's printed settings and mappings, and its calibration remap |

How it is built: a specification in functions (what the type of an address is, what a table's strings
are, what a screen shows, what a byte does to a terminal), imperative classes and methods in the form of
the C code proved against those functions, and lemmas about the functions. Protocols between several
actors are state machines whose steps are the lock-protected actions of the source, with theorems over
every run.

## Where the code does not do what it says

Each of these is modelled as the code has it. For each there is an input that shows it and, over all
inputs, the exact condition under which the stated intent holds.

- The PCI search promises the biggest gap below 4GB but never looks below the first entry, and falls
  back on a window that may be RAM (`E820Regions.BiggestGapIff`, `LowGapIgnored`, `RamReturned`).
- Copying a shared Unicode table shifts pages over absent ones (`UniCopy.CopyFaithfulIff`,
  `LoneCodeLost`), and switching to the default table releases the old one exactly when it is still in
  use (`UniPool.SwitchToDefaultIff`, `SharedTableFreed`).
- VGA's monochrome inversion is self-inverse exactly for low attribute bits other than 6
  (`SelectionOverlay.VgaMonoTwiceIff`, `VgaMonoCellLost`).
- `/dev/vcs` looks through the soft cursor of the display at the cursor's cell of whatever console is
  accessed. Reading a console that is not on display gives its own contents exactly if no cursor is drawn,
  the read misses that cell, or the bytes agree (`VcsCursor.ReadIff`, `VcsDevice.Device.VcsRead`,
  `ForegroundShows`); writing it draws a cursor into it and forgets what the display's cursor covers
  (`VcsCursor.WrittenIff`, `VcsDevice.Device.VcsWrite`, `ForegroundLost`).
- Text is shown as if there were no character sets: the write loop looks codes up in the set in use only
  inside sequences, where nothing is shown (`VteSent.SetsIgnored`, `GraphicsIgnored`); and of the 8-bit
  controls only CSI acts when no sequence has begun, the others show as glyphs (`VteSent.EightBitMeans`).
- TBC 2, 3 and 5 and RIS write the tab stops of the first 160 columns only: they clear, or set to the
  default, all of them exactly if none stands, or only default ones stand, beyond
  (`VteEffects.TabsClearedIff`, `DefaultTabsIff`, `VteLimits.StopSurvives`). There is room for the stops
  of 256 columns, and they stay there exactly on consoles no wider (`VteLimits.TabsInsideIff`).
- The motions add in 32 bits: moving up by a count above 2^31 plus the row moves down
  (`VteEffects.CursorUpIff`, `VteLimits.UpMovesDown`).
- Resizing a console on display copies its screen with the soft cursor drawn: the copy is right exactly if
  the drawn word is the one it covers or its cell is cut off (`Resize.CursorCopiedIff`).
- The length that `con_get_unimap` reports is a 16-bit number, which a table with every code makes 0
  (`UniRead.CountExactIff`).
- N_TTY, said to be always present, can be unregistered while nothing counts it
  (`LineDiscipline.NTtyStaysIff`, `NTtyGone`). Nothing keeps two processes from changing one tty's
  discipline at once; the accounting survives exactly the assignments of those not overtaken, and the
  second put can find a count of zero, which is a BUG (`TwoChangers.NextAccountedIff`, `SecondPutIsABug`);
  a user's reference can be discarded as well (`OneChangerLosesNothing`, `UserDiscarded`).
- jscal accepts an axis code one above the largest and follows a NULL pointer where a map ends with its axes
  (`JscalMappings.OneAxisAccepted`, `WrongMapLength`).
- jscal keeps its counts in chars: from 128 axes or buttons on they print as negative numbers without codes,
  and what is printed restores nothing (`Jscal.SettingsRoundTripIff`, `JscalMappings.MappingsRoundTripIff`,
  `ButtonsRestoredIff`, `ManyButtonsLost`).
- Registering a line discipline anew resets its count (`LineDiscipline.ReregisterIff`,
  `ReregisterBreaks`); the final close of a tty takes an N_TTY reference that nobody drops
  (`LeakedIff`, `OpenCloseLeaks`); and it resets the other half of a pty under its users
  (`RunLosesIff`, `ReferenceLost`).
- The cursor position report adds the top margin where it should subtract it, so a host that sends the
  report back moves the cursor (`VteCursor.ReportReturnsIff`, `ReportMisses`).
- The comment on DECSC says it saves the wrap flag and origin mode; the code saves neither
  (`VteCursor.RestoreReturnsIff` says exactly when the row comes back, `WrapFlagLost` shows the loss).
- Inserting as many lines as the region holds keeps the cursor's line on the bottom margin instead of
  clearing it (`VteText.InsertLinesClearsIff`, `VteStream.LetterSurvives`).
- The write loop decodes UTF-8 inside control sequences only, because its guard takes the initial state
  for a control state (`VteUnicode.EncodedTextIff`, `AccentFillsTwo`, `DecodedInSequence`).
- `correct_axes` keeps calibrations attached to codes only if axes with equal codes were calibrated alike
  (`JscalMappings.AttachedIff`, `CalibrationMixed`), and reads uninitialised memory for codes that are
  new.

## Model

| member | source | states |
|---|---|---|
| `E820Spec.CanonicalUnique` | ruby-2.6/arch/i386/kernel/setup.c:432-583 | a sorted map without overlaps, empty entries or mergeable neighbours is determined by the type it gives each address, so the sanitized map is the only one possible |
| `E820Sort.RecordChangePoints` | ruby-2.6/arch/i386/kernel/setup.c:494-505 | the list holds exactly the start and end of every non-empty entry, each once |
| `E820Sort.ExchangeRemovesInversion` | ruby-2.6/arch/i386/kernel/setup.c:507-526 | exchanging neighbours in the wrong order lowers the number of inversions by exactly one, which is why the sort ends |
| `E820Sort.BubblePass` | ruby-2.6/arch/i386/kernel/setup.c:507-526 | a pass keeps the points; without an exchange the list is in order, with one its disorder has dropped |
| `E820Sort.SortChangePoints` | ruby-2.6/arch/i386/kernel/setup.c:507-526 | the bubble sort ends with the same points, sorted by address with starts before ends |
| `E820Overlap.UpdateOverlap` | ruby-2.6/arch/i386/kernel/setup.c:534-557 | after point k the overlap list holds exactly the entries open there and the type chosen is their maximum |
| `E820Sweep.ActiveCovers` | ruby-2.6/arch/i386/kernel/setup.c:534-557 | between two neighbouring points the open entries are exactly those covering the addresses in between |
| `E820Sweep.SteadyAt` | ruby-2.6/arch/i386/kernel/setup.c:558-576 | where neighbouring addresses have the same type, the sweep never sees another type in passing, so no entry is split |
| `E820Sweep.FinishedCanonical` | ruby-2.6/arch/i386/kernel/setup.c:558-576 | the map built by the sweep has nothing left to merge |
| `E820.SanitizeE820Map` | ruby-2.6/arch/i386/kernel/setup.c:432-583 | fails exactly for maps of fewer than two entries or with a wrapping one, leaving them alone; otherwise the result is canonical and gives every address the largest type of the entries covering it (every address up to the end of the last entry if the output filled its slots) |
| `E820Regions.FixedAllType` | ruby-2.6/arch/i386/kernel/setup.c:601-634 | copying keeps the type of every address, except that RAM inside 640k-1M becomes unmapped |
| `E820Regions.FixedAllOrdered` | ruby-2.6/arch/i386/kernel/setup.c:601-634 | copying a sorted disjoint map gives one |
| `E820Regions.CopiedMap` | ruby-2.6/arch/i386/kernel/setup.c:601-634 | with room to spare, the copy of a sanitized map into the empty table is ordered and has those types at every address |
| `E820Regions.Table.AddMemoryRegion` | ruby-2.6/arch/i386/kernel/setup.c:368-386 | appends the region, or drops it when the table is full |
| `E820Regions.Table.CopyE820Map` | ruby-2.6/arch/i386/kernel/setup.c:601-634 | the table gains the fixed-up entries before the first wrapping one, clipped to its size; the result tells whether all were taken |
| `E820Regions.FindPciGap` | ruby-2.6/arch/i386/kernel/setup.c:1229-1255 | the loop computes what Found specifies: at least as long as every gap after an entry, the last of that length if longer than the default, else the default; the start is rounded up to 1MB |
| `E820Regions.FoundLongest` | ruby-2.6/arch/i386/kernel/setup.c:1229-1255 | what the search finds, by recursion over the entries, is the longest gap after an entry or the default |
| `E820Regions.GapUnmapped` | ruby-2.6/arch/i386/kernel/setup.c:1229-1255 | no entry covers any address of the gap |
| `E820Regions.GapMaximal` | ruby-2.6/arch/i386/kernel/setup.c:1229-1255 | no unmapped range below 4GB that follows an entry is longer than the longest gap |
| `E820Regions.BiggestGapIff` | ruby-2.6/arch/i386/kernel/setup.c:1229-1255 | the range found is free and no free range below 4GB is longer exactly if some gap after an entry exceeds the default and is no shorter than the space below the first entry, or nothing free exceeds the default and the default window is free |
| `E820Regions.LowGapIgnored` | ruby-2.6/arch/i386/kernel/setup.c:1229-1255 | a map with 3GB free below its only entry, for which the search returns its 4MB default |
| `E820Regions.RamReturned` | ruby-2.6/arch/i386/kernel/setup.c:1229-1255 | a map for which the search returns its default although that is RAM and 64KB at the top are free |
| `FunctionKeys.FlatUpdate` | ruby-2.6/drivers/char/vt_ioctl.c:249-304 | setting one slot moves the later strings as one block by the difference in length, and nothing else |
| `FunctionKeys.LastWriteWins` | ruby-2.6/drivers/char/vt_ioctl.c:208-310 | after any run of settings every slot holds what was last written to it |
| `FunctionKeys.OffsetIsFootprint` | ruby-2.6/drivers/char/vt_ioctl.c:249-304 | the bytes used are the sum of length + 1 over the strings |
| `FunctionKeys.KeyTable.GetString` | ruby-2.6/drivers/char/vt_ioctl.c:232-248 | KDGKBSENT returns the slot's string, cut at 511 bytes with EOVERFLOW |
| `FunctionKeys.KeyTable.SetInPlace` | ruby-2.6/drivers/char/vt_ioctl.c:264-273 | the branch that fits in place leaves every other string as it was |
| `FunctionKeys.KeyTable.SetGrown` | ruby-2.6/drivers/char/vt_ioctl.c:274-303 | so does the branch that moves to a larger buffer |
| `FunctionKeys.KeyTable.SetString` | ruby-2.6/drivers/char/vt_ioctl.c:208-310 | KDSKBSENT sets exactly the one slot, to the user's bytes from the first one up to a NUL, at most 511 of them, and keeps strings contiguous in index order with exact byte accounting; without permission or memory nothing changes |
| `FunctionKeys.KeyTable.SetThenGet` | ruby-2.6/drivers/char/vt_ioctl.c:208-310 | what has been set is read back: those bytes of the user's buffer, in full |
| `FunctionKeys.TerminatedOnce` | ruby-2.6/drivers/char/vt_ioctl.c:228 | a buffer has one such string only |
| `FunctionKeys.KeyTable.SetAll` | ruby-2.6/drivers/char/vt_ioctl.c:208-310 | any run of settings, refused and failing ones among them, leaves the table that the successful ones make, and the bytes used are its footprint |
| `Screen.ScrollUpCell` | ruby-2.6/drivers/char/vt.c:330-344 | scrolling moves whole rows of the region up, blanks the last ones and leaves every other cell |
| `Screen.ScrollDownCell` | ruby-2.6/drivers/char/vt.c:346-361 | the same downwards |
| `HardScroll.UpWrapped` | ruby-2.6/drivers/video/console/vgacon.c:1022-1033 | wrapping to the start of video memory shows the scrolled screen |
| `HardScroll.DownWrapped` | ruby-2.6/drivers/video/console/vgacon.c:1034-1047 | wrapping to the end of video memory shows the scrolled screen |
| `HardScroll.VgaConsole.VgaconScrollRegion` | ruby-2.6/drivers/video/console/vgacon.c:1005-1053 | taken exactly for full-screen scrolls of less than half the screen; shows the scrolled screen, inside video memory, the cursor at its distance from the origin |
| `HardScroll.VgaConsole.ScrollRegionUp` | ruby-2.6/drivers/char/vt.c:330-344 | hardware or software, the console shows the same scrolled screen and the cursor keeps its place |
| `HardScroll.VgaConsole.ScrollRegionDown` | ruby-2.6/drivers/char/vt.c:346-361 | the same downwards |
| `HardScroll.VgaConsole.RegionUpCell` | ruby-2.6/drivers/char/vt.c:330-344 | what the screen shows in each cell after scrolling any region by any number of lines, hardware or software |
| `HardScroll.VgaConsole.RegionDownCell` | ruby-2.6/drivers/char/vt.c:346-361 | the same downwards |
| `VteState.Goto` | ruby-2.6/drivers/char/vt.c:251-277 | the cursor goes to the nearest place inside the margins that apply, and vc_pos is its address |
| `VteState.ToIntWraps` | ruby-2.6/drivers/char/decvte.c:1623-1670 | the sums that motions take are int: the one that differs by a multiple of 2^32 |
| `VteState.NextTab` | ruby-2.6/drivers/char/decvte.c:181-194 | the first tab stop after the column, or the last column |
| `VteState.PreviousTab` | ruby-2.6/drivers/char/decvte.c:163-176 | the last tab stop before the column, or the first column |
| `VteParser.Recolored` | ruby-2.6/drivers/char/decvte.c:1433-1451 | a palette escape writes bytes below 256 inside the 48-byte palette and touches one colour only |
| `VteParser.Emulate` | ruby-2.6/drivers/char/decvte.c:1072-2049 | every code in every state keeps the invariant, and only DECSC, RIS and DECSTR change the saved cursor |
| `VteParser.Run` | ruby-2.6/drivers/char/vt.c:1245-1353 | for every byte stream, on consoles of any size below 65536: the cursor is on the screen with vc_pos its address, margins are in order, the cursor is inside them in origin mode, fewer than 16 parameters of 32 bits, character sets below 4, the palette and the decoder in range |
| `VteStream.NewConsole` | ruby-2.6/drivers/char/vt.c:938-948 | a newly allocated console satisfies the invariant, whatever its buffer held |
| `VteStream.StreamSafe` | ruby-2.6/drivers/char/vt.c:1245-1353 | the same spelled out, from the console's allocation on |
| `VteSequences.CancelAborts` | ruby-2.6/drivers/char/decvte.c:1146-1153 | CAN or SUB inside a sequence returns to the initial state and changes nothing else |
| `VteSequences.ReadNumber` | ruby-2.6/drivers/char/decvte.c:1473-1482 | the decimal digits of any number below 2^32 are read as that number |
| `VteSequences.SequenceParsed` | ruby-2.6/drivers/char/decvte.c:1452-1482 | from any state, ESC [ with an optional marker and one to sixteen decimal parameters reaches its handler with exactly those parameters and nothing else changed |
| `VteBytes.ReturnMeans` | ruby-2.6/drivers/char/decvte.c:1098-1126 | BS and CR move the cursor as they should and change nothing else |
| `VteBytes.TabMeans` | ruby-2.6/drivers/char/decvte.c:1101-1110 | HT goes to the next tab stop |
| `VteBytes.ShiftMeans` | ruby-2.6/drivers/char/decvte.c:1127-1136 | SO and SI take G1 and G0 into use |
| `VteBytes.FeedMeans` | ruby-2.6/drivers/char/decvte.c:1111-1126 | LF and FF feed a line, and return as well in line feed mode |
| `VteBytes.EscapeFeeds` | ruby-2.6/drivers/char/decvte.c:1303-1330 | ESC D, ESC M and ESC E feed a line down, up, and to the start of the next line |
| `VteBytes.LineFeedMoves` | ruby-2.6/drivers/char/decvte.c:92-104 | where a line feed leaves the cursor |
| `VteBytes.ReverseLineFeedMoves` | ruby-2.6/drivers/char/decvte.c:109-121 | where a reverse line feed leaves it |
| `VteBytes.DesignateG0` | ruby-2.6/drivers/char/decvte.c:1938-1964 | ESC ( and a final character: which set G0 becomes, and the one in use if it is G0 |
| `VteBytes.DesignateG1` | ruby-2.6/drivers/char/decvte.c:1965-1991 | ESC ) and G1 likewise |
| `VteBytes.CodingMeans` | ruby-2.6/drivers/char/decvte.c:1902-1927 | ESC % G and ESC % @ enter and leave UTF-8 |
| `VteBytes.EightBitAnnounced` | ruby-2.6/drivers/char/decvte.c:1399-1406 | ESC SP G takes 8-bit controls into use, except at the first conformance level |
| `VteBytes.SevenBitAnnounced` | ruby-2.6/drivers/char/decvte.c:1399-1406 | ESC SP F takes them out of use, likewise |
| `VteBytes.AlignmentMeans` | ruby-2.6/drivers/char/decvte.c:1928-1937 | ESC # 8 puts an E into every cell, in the colours of erased ones |
| `VteBytes.PaletteMeans` | ruby-2.6/drivers/char/decvte.c:1433-1451 | ESC ] P and seven hexadecimal digits, from any state, give that colour those three values and no other colour anything |
| `VteBytes.PaletteReset` | ruby-2.6/drivers/char/decvte.c:1426-1430 | ESC ] R puts the default palette back |
| `VteSent.MotionSent` | ruby-2.6/drivers/char/decvte.c:1623-1670 | each motion as a byte string, from any state and with any parameters, ends where MotionMeans says |
| `VteSent.EditingSent` | ruby-2.6/drivers/char/decvte.c:1620-1714 | each editing command as a byte string leaves the cells that EditingMeans says; CVT is as many line feeds |
| `VteSent.MarginsSent` | ruby-2.6/drivers/char/decvte.c:1752-1763 | DECSTBM as a byte string |
| `VteSent.ModesSent` | ruby-2.6/drivers/char/decvte.c:504-601 | SM and RM as byte strings, with ? or without |
| `VteSent.TabStopsSent` | ruby-2.6/drivers/char/decvte.c:1044-1069 | TBC and CTC as byte strings: which stops they set and clear |
| `VteSent.TabsSent` | ruby-2.6/drivers/char/decvte.c:1671-1675 | CHT and CBT go that many stops |
| `VteSent.TabsStep` | ruby-2.6/drivers/char/decvte.c:160-194 | one stop at a time, each the next or the previous one |
| `VteSent.LevelSent` | ruby-2.6/drivers/char/decvte.c:752-790 | DECSCL as the source takes it |
| `VteSent.SoftReset` | ruby-2.6/drivers/char/decvte.c:1795-1800 | DECSTR resets as RIS does |
| `VteSent.EightBitMeans` | ruby-2.6/drivers/char/vt.c:1290-1304 | of the 8-bit controls only CSI acts when no sequence has begun; the others show as glyphs |
| `VteSent.EightBitInside` | ruby-2.6/drivers/char/decvte.c:1180-1236 | inside a sequence the 8-bit controls act and leave it open |
| `VteSent.PrivateSent` | ruby-2.6/drivers/char/decvte.c:1484-1567 | with a private marker, sequences other than SM and RM change nothing but the parser |
| `VteCursor.ReportReturnsIff` | ruby-2.6/drivers/char/decvte.c:402-420 | sending the position report back as CUP leaves the cursor where it was exactly if origin mode is off, the top margin is row 1, or the cursor is on the bottom margin |
| `VteCursor.ReportMisses` | ruby-2.6/drivers/char/decvte.c:402-420 | on any screen of three rows, DECSTBM 2;3 and DECOM lead to a state whose report misses |
| `VteCursor.RestoreReturnsIff` | ruby-2.6/drivers/char/decvte.c:901-949 | after DECSC, any bytes that do not save again, and DECRC, rendition, character sets and column are back, and the row exactly if it lies within the margins then in force |
| `VteCursor.WrapFlagLost` | ruby-2.6/drivers/char/decvte.c:901-949 | a pending wrap saved and restored at once is gone |
| `VteText.TextFills` | ruby-2.6/drivers/char/vt.c:1308-1350 | text that fits above the bottom margin, from any state, fills consecutive cells across the ends of lines with glyphs in the attribute in force and changes nothing else |
| `VteTyping.TextScrolls` | ruby-2.6/drivers/char/vt.c:1308-1350 | text of any length typed inside any margins leaves in the region the end of a roll that starts with what stood before the cursor, in whole rows, blanks after it; rows outside stay; the cursor is behind the last glyph |
| `VteTyping.OneRowOverwritten` | ruby-2.6/drivers/char/vt.c:1328-1335 | in a region of a single row, which does not scroll, each column holds the last character that came to it |
| `VteSent.GlyphShown` | ruby-2.6/drivers/char/vt.c:1306-1320 | which glyph a byte shows: its code's, U+FFFD's, or the one its number names; or none |
| `VteSent.ControlActsIff` | ruby-2.6/drivers/char/vt.c:1290-1304 | which control characters act when no sequence has begun and which show as glyphs |
| `VteSent.SgrTextShows` | ruby-2.6/drivers/char/vt.c:1252-1350 | text written after an SGR sequence has in its cells the attribute of the rendition that the parameters ask for, and no other cell changes |
| `VteSent.RedLetter` | ruby-2.6/drivers/char/vt.c:1252-1350 | on a new console ESC [ 31 m A shows an A in colour 4 |
| `VteSent.SetsIgnored` | ruby-2.6/drivers/char/vt.c:1251-1253 | character sets make no difference to what text shows |
| `VteSent.GraphicsIgnored` | ruby-2.6/drivers/char/vt.c:1251-1253 | so designating the graphics set changes nothing of it |
| `VteUnicode.EncodedTextIff` | ruby-2.6/drivers/char/vt.c:1251-1287 | encoded text shows the glyphs of its codes exactly if every code is below 0x80; otherwise each byte fills a cell of its own |
| `VteUnicode.AccentFillsTwo` | ruby-2.6/drivers/char/vt.c:1251-1287 | in UTF-8 mode, U+00E9 fills two cells with the glyphs of 0xC3 and 0xA9 |
| `VteUnicode.DecodedInSequence` | ruby-2.6/drivers/char/vt.c:1251-1287 | inside a control sequence the bytes of a code act as that one code, whatever the decoder was in the middle of |
| `VteText.LineFeedCell` | ruby-2.6/drivers/char/decvte.c:92-104 | a line feed on the bottom margin moves the region's rows up and blanks the last; other rows stay |
| `VteText.ReverseLineFeedCell` | ruby-2.6/drivers/char/decvte.c:109-121 | the same for a reverse line feed on the top margin |
| `VteText.InsertLinesCell` | ruby-2.6/drivers/char/decvte.c:868-875 | what inserting lines leaves in every cell |
| `VteText.DeleteLinesCell` | ruby-2.6/drivers/char/decvte.c:892-899 | what deleting lines leaves in every cell |
| `VteText.InsertLinesClearsIff` | ruby-2.6/drivers/char/decvte.c:868-875 | inserting as many lines as the region holds blanks it exactly if the cursor's row was blank |
| `VteStream.LetterSurvives` | ruby-2.6/drivers/char/vt.c:482-486 | an A written on a new console is in its last row after inserting as many lines as the screen has |
| `VteText.InsertCell` | ruby-2.6/drivers/char/vt.c:438-445 | inserting characters shifts the rest of the row and nothing else |
| `VteText.DeleteCell` | ruby-2.6/drivers/char/vt.c:459-469 | deleting characters shifts the rest of the row and nothing else |
| `VteText.DeleteUndoesInsert` | ruby-2.6/drivers/char/vt.c:438-469 | deleting what was inserted restores the row but for what was pushed off its end |
| `VteTerminal.ShiftRight` | ruby-2.6/drivers/char/vt.c:438-445 | insert_char's loop in place |
| `VteTerminal.ShiftLeft` | ruby-2.6/drivers/char/vt.c:459-469 | delete_char's loop in place |
| `VteTerminal.Forward` | ruby-2.6/drivers/char/decvte.c:181-194 | CHT's loops reach the n-th tab stop |
| `VteTerminal.Back` | ruby-2.6/drivers/char/decvte.c:163-176 | CBT's loops likewise |
| `VteTerminal.Terminal.Lf` | ruby-2.6/drivers/char/decvte.c:92-104 | the in-place line feed has the specified effect |
| `VteTerminal.Terminal.Ri` | ruby-2.6/drivers/char/decvte.c:109-121 | the in-place reverse line feed too |
| `VteTerminal.Terminal.Ed` | ruby-2.6/drivers/char/decvte.c:199-230 | cell by cell, exactly those from the cursor on, up to and including it, or all become blank |
| `VteTerminal.Terminal.El` | ruby-2.6/drivers/char/decvte.c:235-261 | the same within the cursor's row |
| `VteTerminal.Terminal.Ech` | ruby-2.6/drivers/char/decvte.c:268-279 | exactly the named number of cells from the cursor on, at least one and none beyond the row, become blank |
| `VteTerminal.Terminal.GotoXy` | ruby-2.6/drivers/char/vt.c:251-277 | the clamping branches place the cursor where Goto says |
| `VteTerminal.Terminal.ScrollRegionUp` | ruby-2.6/drivers/char/vt.c:330-344 | the memory moves scroll the region, keeping at least one of its lines |
| `VteTerminal.Terminal.ScrollRegionDown` | ruby-2.6/drivers/char/vt.c:346-361 | the same downwards |
| `VteTerminal.Terminal.InsertChar` | ruby-2.6/drivers/char/vt.c:438-445 | cell by cell, the rest of the row has moved right and blanks have come in |
| `VteTerminal.Terminal.DeleteChar` | ruby-2.6/drivers/char/vt.c:459-469 | cell by cell, the rest of the row has moved left and blanks have come in |
| `VteTerminal.Terminal.Edit` | ruby-2.6/drivers/char/decvte.c:1620-1710 | for each command that erases, inserts or deletes, what it leaves in every cell, its parameter defaulted and limited |
| `VteEffects.EraseInPageMeans` | ruby-2.6/drivers/char/decvte.c:199-230 | ED with any parameter: which cells become blank, all others as before |
| `VteEffects.EraseInLineMeans` | ruby-2.6/drivers/char/decvte.c:235-261 | EL likewise |
| `VteEffects.EraseCharactersMeans` | ruby-2.6/drivers/char/decvte.c:268-279 | ECH likewise, for any count |
| `VteEffects.EditingMeans` | ruby-2.6/drivers/char/decvte.c:1620-1710 | all of these with ICH, DCH, IL and DL, IL and DL below the bottom margin included |
| `VteTerminal.Terminal.PutGlyph` | ruby-2.6/drivers/char/vt.c:1328-1348 | one glyph, with deferred wrap and insert mode |
| `VteText.PutInPlace` | ruby-2.6/drivers/char/vt.c:1322-1350 | a glyph in any mode: its cell, the rest of the row in insert mode, and where the cursor is then |
| `VteText.PutWraps` | ruby-2.6/drivers/char/vt.c:1324-1327 | with a wrap pending it goes to the next line |
| `VteMeaning.SgrMeans` | ruby-2.6/drivers/char/decvte.c:285-384 | after any list of parameters each attribute, foreground and background by themselves included, is what the last parameter concerning it says |
| `VteTerminal.Terminal.SelectRendition` | ruby-2.6/drivers/char/decvte.c:285-384 | the loop over vc_par, assigning attribute by attribute, ends in the rendition that SgrMeans describes and its attribute |
| `VteMeaning.SgrCurrent` | ruby-2.6/drivers/char/vt.c:417-422 | after SGR the attribute of glyphs to come and the erase character are those of the new rendition, reversed by the screen mode |
| `VteSent.SgrSent` | ruby-2.6/drivers/char/decvte.c:285-384 | SGR as a byte string: rendition, font and attribute, and nothing else |
| `VteSent.FontMeans` | ruby-2.6/drivers/char/decvte.c:310-338 | the set in use and the display of control characters are what the last font parameter says |
| `VteSent.TableSwapsBits` | ruby-2.6/drivers/char/vt.c:164-165 | the colour table exchanges bits 0 and 2 |
| `VteSent.ColorsSent` | ruby-2.6/drivers/char/decvte.c:792-815 | the commands for the colours of underlined and dim text and for the default colours |
| `VteLook.RunCurrent` | ruby-2.6/drivers/char/vt.c:417-422 | over every byte stream, with a driver for which the colours of underlined and dim text show only in such text, attribute and erase character stay those of the rendition and screen mode in force |
| `VteLook.BuildAttrFrugal` | ruby-2.6/drivers/char/vt.c:384-413 | build_attr is of the kind for which that holds |
| `VteLook.AttrFields` | ruby-2.6/drivers/char/vt.c:384-413 | the colours, brightness and blinking of the attribute it builds |
| `VteMeaning.SetModeMeans` | ruby-2.6/drivers/char/decvte.c:504-601 | after any list exactly the modes named have the value, the screen is inverted once if screen mode changed, with the attribute in force and the erase character, and DECOM sends the cursor home |
| `VteMeaning.ReverseVideoUndone` | ruby-2.6/drivers/char/decvte.c:530-536 | setting and resetting screen mode restores every cell where inversion is its own inverse |
| `VteTerminal.Terminal.SetModes` | ruby-2.6/drivers/char/decvte.c:504-601 | the loop over vc_par ends in the modes, cursor and cells that SetModeMeans describes |
| `VteMeaning.ResetMeans` | ruby-2.6/drivers/char/decvte.c:964-1028 | RIS from any state: home, full margins, default modes and sets, default tab stops in the first 160 columns and those beyond as they were, the saved cursor at home, the default rendition and its attribute, every cell blank |
| `VteTerminal.Terminal.Ris` | ruby-2.6/drivers/char/decvte.c:964-1028 | the assignments, the tab-stop loop, gotoxy, the save and the erase end in the state that ResetMeans describes |
| `VteTerminal.Terminal.Decstbm` | ruby-2.6/drivers/char/decvte.c:1752-1763 | accepted exactly if the first row named is above the last and that is on the screen: then the margins are those and the cursor is home; else nothing changes |
| `VteTerminal.Terminal.Decrc` | ruby-2.6/drivers/char/decvte.c:931-949 | restoring in place, through gotoxy, and the attribute of the rendition that is back |
| `VteMeaning.RestoreMeans` | ruby-2.6/drivers/char/decvte.c:931-949 | DECRC brings back rendition and sets, the set in use among them, and nothing else but the cursor |
| `VteTerminal.Terminal.ClearPars` | ruby-2.6/drivers/char/decvte.c:1452-1456 | the loop over vc_par leaves sixteen zeros |
| `VteTerminal.Terminal.PaletteChar` | ruby-2.6/drivers/char/decvte.c:1433-1451 | digits collect in vc_par; the seventh writes three palette bytes of one colour |
| `VteTerminal.Terminal.Move` | ruby-2.6/drivers/char/decvte.c:1623-1670 | each motion ends at the place it names, sums in 32 bits, or the nearest within the margins that apply; no wrap is pending and nothing else has changed |
| `VteEffects.MarginsMean` | ruby-2.6/drivers/char/decvte.c:1752-1763 | DECSTBM: when it is accepted, and the margins and the home position then |
| `VteEffects.MotionMeans` | ruby-2.6/drivers/char/decvte.c:1623-1670 | the target of every motion, as the nearest place to a 32-bit sum |
| `VteEffects.CursorUpIff` | ruby-2.6/drivers/char/decvte.c:1623-1627 | CUU moves up by its count as far as the margin allows exactly if the count is at most 2^31 plus the row, or there is one row only |
| `VteLimits.UpMovesDown` | ruby-2.6/drivers/char/decvte.c:1623-1627 | on a new console, moving up by 4294967295 rows moves down one |
| `VteEffects.TabsClearedIff` | ruby-2.6/drivers/char/decvte.c:1060-1068 | TBC 2, 3 or 5 leaves no stop exactly if none stood beyond column 160 |
| `VteEffects.DefaultTabsIff` | ruby-2.6/drivers/char/decvte.c:1018-1019 | after RIS a stop is in every eighth column and no other exactly if that was so beyond column 160 |
| `VteLimits.StopSurvives` | ruby-2.6/drivers/char/decvte.c:1060-1068 | a stop set in column 201 of a new console is there after TBC 3 |
| `VteLimits.StopSurvivesReset` | ruby-2.6/drivers/char/decvte.c:1018-1019 | and after RIS |
| `VteLimits.TabsInsideIff` | ruby-2.6/include/linux/vt_kern.h:152 | for every byte stream stops stay among 256 columns exactly if the console has no more |
| `VteTerminal.Terminal.TerminalEmulation` | ruby-2.6/drivers/char/decvte.c:1072-2049 | the emulator working on its fields and arrays, handler by handler, reaches the state that Emulate specifies |
| `VteTerminal.Terminal.DoConWrite` | ruby-2.6/drivers/char/vt.c:1245-1353 | the write loop working in place does what Run specifies |
| `VcsDevice.Device.WriteThenRead` | ruby-2.6/drivers/char/vc_screen.c:284-461 | what is written to a console, on display or not, reads back through the device for every chunking, also over the header if that allows it; what the file itself becomes is as for `VcsWrite` |
| `VcsView.AttrFilePatched` | ruby-2.6/drivers/char/vc_screen.c:284-461 | past the header, writing to /dev/vcsa patches the file itself and reads back |
| `VcsCursor.ReadIff` | ruby-2.6/drivers/char/vc_screen.c:62-67 | a slice of the file seen through a cursor is a slice of the file exactly if the bytes of the cursor's cell in it agree |
| `VcsCursor.WrittenIff` | ruby-2.6/drivers/char/vc_screen.c:69-76 | cells written through a cursor are as asked exactly if the write misses the cursor's cell or the word drawn there is the one asked for |
| `VcsCursor.WrittenCells` | ruby-2.6/drivers/char/vc_screen.c:342-440 | bytes patched into a file, with the rest kept, are the same as each cell's word with its bytes replaced |
| `VcsCursor.ToggledBits` | ruby-2.6/drivers/char/vt.c:203-205 | which attribute bits the cursor sets and which it toggles |
| `VcsCursor.BackBits` | ruby-2.6/drivers/char/vt.c:206 | a contrasting background differs from the cell's |
| `VcsCursor.ForeDiffers` | ruby-2.6/drivers/char/vt.c:207 | a contrasting character differs from its background |
| `VcsCursor.ForeKeeps` | ruby-2.6/drivers/char/vt.c:207 | contrasting the character touches its colour only |
| `VcsCursor.SoftCursorMeans` | ruby-2.6/drivers/char/vt.c:203-207 | when which of these applies |
| `VcsCursor.CursorDrawn` | ruby-2.6/drivers/char/vt.c:201-203 | a cursor is drawn and its cell remembered exactly if bit 4 of its type is set |
| `VcsDevice.Device.HeaderExactIff` | ruby-2.6/drivers/char/vc_screen.c:56-60 | the header reads as it was written exactly if it names the console's size and a place where gotoxy leaves the cursor |
| `VcsDevice.ForegroundShows` | ruby-2.6/drivers/char/vc_screen.c:62-67 | an A on a console that is not on display reads as the B under the cursor of the one that is |
| `VcsDevice.ForegroundLost` | ruby-2.6/drivers/char/vc_screen.c:69-76 | writing a C there forgets the B and leaves the C drawn as a cursor |
| `VcsDevice.Device.ReadChunk` | ruby-2.6/drivers/char/vc_screen.c:151-274 | each round hands out the next piece of the file as it is seen, odd starts and the header included |
| `VcsDevice.Device.VcsRead` | ruby-2.6/drivers/char/vc_screen.c:118-282 | a read at any offset and count returns that slice of the file as seen through the display's cursor, however chunked, with the source's error results; it is the console's own contents exactly if that is on display or the bytes of the cursor's cell that were read agree |
| `VcsDevice.Device.WriteCell` | ruby-2.6/drivers/char/vc_screen.c:69-76 | the cell seen takes the value; in the cursor's cell a soft cursor is drawn over it and remembers it in place of what the display's cursor covered |
| `VcsDevice.Device.VcsWrite` | ruby-2.6/drivers/char/vc_screen.c:284-461 | a write changes exactly its bytes of the file on display; on another console exactly if the header bytes name its size and a place the cursor may go to, and the word drawn in the cursor's cell is the one asked for; header bytes move that cursor first; the word under the display's cursor survives exactly if it is not overwritten; through /dev/vcs the characters come out right in any case |
| `UniTable.PutAllRaw` | ruby-2.6/drivers/char/consolemap.c:413-437 | after any insertions a lookup gives the last glyph written for the code |
| `UniTable.InsertUnipair` | ruby-2.6/drivers/char/consolemap.c:413-437 | inserts the pair, or, out of memory, leaves every page as it was |
| `UniTable.SumMeans` | ruby-2.6/drivers/char/consolemap.c:413-437 | the checksum adds up codes and shifted glyphs in 32 bits, in any order |
| `UniTable.ListingExact` | ruby-2.6/drivers/char/consolemap.c:583-609 | the listing holds exactly the mapped codes below the bound, with their glyphs, in ascending order |
| `UniTable.Reload` | ruby-2.6/drivers/char/consolemap.c:583-609 | loading a table's listing into an empty table reproduces every lookup |
| `UniRead.ConvAfterInsertions` | ruby-2.6/drivers/char/consolemap.c:618-650 | after any insertions conversion gives the last glyph written for the code, or -4 if that is not below 512 |
| `UniRead.ConvMeans` | ruby-2.6/drivers/char/consolemap.c:618-650 | the answer for every code: -1 and -2, the direct zone, -3 without a table, -4, and U+FFFD for codes above 16 bits |
| `UniRead.ConvAfterAny` | ruby-2.6/drivers/char/consolemap.c:618-650 | for every code, what insertions change about the answer |
| `UniRead.GetUnimap` | ruby-2.6/drivers/char/consolemap.c:583-609 | the nested loops return the listing, cut at the caller's count, its length as a 16-bit number, and whether it was cut |
| `UniRead.CountExactIff` | ruby-2.6/drivers/char/consolemap.c:583-609 | the length reported is the true one exactly if some code has no glyph |
| `UniCopy.CopyTable` | ruby-2.6/drivers/char/consolemap.c:474-498 | what the copy loop builds: the used pages packed together from code 0 on |
| `UniCopy.CopyFaithfulIff` | ruby-2.6/drivers/char/consolemap.c:474-498 | the copy agrees with the original on every code exactly if the original has no gap before a used page |
| `UniCopy.LoneCodeLost` | ruby-2.6/drivers/char/consolemap.c:474-498 | a shared table with the one code U+2500, whose copy has no glyph for it |
| `UniPool.Pool.FreeUnimap` | ruby-2.6/drivers/char/consolemap.c:359-369 | drops one reference, frees at zero, changes no other location |
| `UniPool.SameDir` | ruby-2.6/drivers/char/consolemap.c:383-401 | the nested loops over slots and pages, with their exits, find two tables equal exactly if they are |
| `UniPool.EqualLookupsUnmerged` | ruby-2.6/drivers/char/consolemap.c:383-401 | two tables with equal lookups that are not equal, because one has a page without entries |
| `UniPool.Pool.UnifyUnimap` | ruby-2.6/drivers/char/consolemap.c:371-411 | merges exactly if another console holds a table with the same sum and equal pages; the lookups of every location stay and counts stay exact |
| `UniPool.Pool.ClearUnimap` | ruby-2.6/drivers/char/consolemap.c:440-462 | the location has an empty table of its own, others keep theirs |
| `UniPool.Pool.SetUnimap` | ruby-2.6/drivers/char/consolemap.c:464-516 | the location's table becomes the old one, or its private copy, with the list inserted; other locations' lookups never change, refcounts stay the number of holders |
| `UniPool.Pool.CopyUnimap` | ruby-2.6/drivers/char/consolemap.c:568-581 | the destination shares the source's table with exact counts |
| `UniPool.Pool.ProtectUnimap` | ruby-2.6/drivers/char/consolemap.c:611-616 | only the read-only mark of the one table changes; maps and counts stay |
| `UniPool.SetUnimapLookup` | ruby-2.6/drivers/char/consolemap.c:464-516 | on a table without gaps, setting through a private copy is last-write-wins over the old lookups |
| `UniPool.SwitchToDefaultIff` | ruby-2.6/drivers/char/consolemap.c:523-541 | after switching to the default no location is left with a freed table exactly if it held none or held one alone, and in that case the old table leaks |
| `UniPool.SharedTableFreed` | ruby-2.6/drivers/char/consolemap.c:523-541 | two locations share a table, one switches to the default: the other is left with a freed table |
| `LineDiscipline.NextKeepsInv` | ruby-2.6/drivers/char/tty_io.c:456-578 | every step of every actor keeps the accounting of discipline references |
| `LineDiscipline.PutIsSafe` | ruby-2.6/drivers/char/tty_io.c:308-323 | a put never finds a count of zero |
| `LineDiscipline.GetIsSafe` | ruby-2.6/drivers/char/tty_io.c:280-304 | the old discipline is defined and still referenced when it is got again |
| `LineDiscipline.DisciplineDue` | ruby-2.6/drivers/char/tty_io.c:456-578 | over every run a tty that is not being changed has the discipline its last change's answers call for: the new one if it opened, the old one if that failed and it reopened, N_TTY if both failed, the old one if it was backed off |
| `LineDiscipline.CheckMeans` | ruby-2.6/drivers/char/tty_io.c:485-510 | a change goes ahead exactly if nobody uses the discipline; otherwise it drops the new one and the tty is as before |
| `LineDiscipline.NTtyStaysIff` | ruby-2.6/drivers/char/tty_io.c:253-276 | a step takes N_TTY away exactly if it unregisters it while nothing counts it |
| `LineDiscipline.NTtyGone` | ruby-2.6/drivers/char/tty_io.c:253-276 | unregistered before any tty is open, it is missing when the first one is to be opened |
| `LineDiscipline.AssignDiscards` | ruby-2.6/drivers/char/tty_io.c:327-331 | of the five assignments only the one to the other half of a pty, made without waiting, can discard references, and it discards exactly those held |
| `LineDiscipline.RunSafe` | ruby-2.6/drivers/char/tty_io.c:456-578 | over every run: while TTY_LDISC is clear, the final close waiting for its users excepted, nobody holds a counted reference, and each count covers the ttys using the discipline |
| `LineDiscipline.RunLosesIff` | ruby-2.6/drivers/char/tty_io.c:1697-1728 | over every run no reference is lost exactly if the other half of a pty is only reset while nobody uses it |
| `LineDiscipline.ReferenceLost` | ruby-2.6/drivers/char/tty_io.c:1720-1728 | the run that loses one: both halves open, a user on the slave, the final close of the master |
| `LineDiscipline.RunLeaks` | ruby-2.6/drivers/char/tty_io.c:1713-1728 | over every run the references leaked are one to N_TTY for each tty released, and no others |
| `LineDiscipline.LeakedIff` | ruby-2.6/drivers/char/tty_io.c:1713-1728 | with every tty closed again the count of N_TTY is the number of releases, zero exactly if there were none |
| `LineDiscipline.OpenCloseLeaks` | ruby-2.6/drivers/char/tty_io.c:1713-1728 | one open and close leave N_TTY counted once with nothing open |
| `LineDiscipline.ReregisterIff` | ruby-2.6/drivers/char/tty_io.c:253-276 | registering anew keeps the accounting exactly if the count is zero |
| `LineDiscipline.ReregisterBreaks` | ruby-2.6/drivers/char/tty_io.c:253-276 | N_TTY registered anew while a tty is open breaks the accounting |
| `TwoChangers.NextAccountedIff` | ruby-2.6/drivers/char/tty_io.c:456-578 | with any number of processes changing one tty's discipline, a step keeps the accounting exactly if it is not an assignment by one that has been overtaken |
| `TwoChangers.RunAccounted` | ruby-2.6/drivers/char/tty_io.c:456-578 | so does every run without such an assignment |
| `TwoChangers.OneChangerCurrent` | ruby-2.6/drivers/char/tty_io.c:456-578 | a single changer is never overtaken |
| `TwoChangers.SecondPutIsABug` | ruby-2.6/drivers/char/tty_io.c:456-578 | two changers that start together: the second puts N_TTY at a count of zero, and the first one's discipline stays counted for nobody |
| `TwoChangers.OneChangerLosesNothing` | ruby-2.6/drivers/char/tty_io.c:456-578 | with one changer no assignment discards a user's reference |
| `TwoChangers.UserDiscarded` | ruby-2.6/drivers/char/tty_io.c:456-578 | with two, a run in which one does |
| `PtyPair.RunSafe` | ruby-2.6/drivers/char/tty_io.c:1176-1397 | over every interleaving the counts are the open files, plus one on the slave while the master is open, and pairs are released once each |
| `PtyPair.ReleasedWhenEmptied` | ruby-2.6/drivers/char/tty_io.c:1462-1744 | the pair is released by exactly the close that empties both sides |
| `PtyPair.ClosingMarked` | ruby-2.6/drivers/char/tty_io.c:1640-1690 | after any other close the master is marked closing exactly if no file is open on it, so that it cannot be opened any more, and the slave can |
| `PtyPair.OpenOutcome` | ruby-2.6/drivers/char/tty_io.c:1176-1397 | the result of every open; a failed one changes nothing; a closing or open master is refused |
| `PtyPair.StepMoves` | ruby-2.6/drivers/char/tty_io.c:1462-1744 | a step opens or closes one file, if that can be done, and no other |
| `PtyPair.CountsNeverNegative` | ruby-2.6/drivers/char/tty_io.c:1611-1625 | the bad-count branches are never taken |
| `PtyPair.ClosingIsFinal` | ruby-2.6/drivers/char/tty_io.c:1462-1744 | a closing master is never reopened while the pair lives |
| `VtSwitch.Booted` | ruby-2.6/drivers/char/vt.c:1048-1061 | a pool of reset consoles satisfies the invariant |
| `VtSwitch.NextKeepsInv` | ruby-2.6/drivers/char/vt_ioctl.c:638-773 | every step keeps: a switch is pending only on the foreground console in VT_PROCESS mode |
| `VtSwitch.ConsoleStep` | ruby-2.6/drivers/char/vt_ioctl.c:876-912 | what VT_SETMODE, KDSETMODE, SAK and opening do to their console, and that other consoles stay |
| `VtSwitch.DisplayStep` | ruby-2.6/drivers/char/vt_ioctl.c:1067-1086 | refused ioctls change nothing, with their errors; locking and asking for a switch change that only |
| `VtSwitch.ReleaseStep` | ruby-2.6/drivers/char/vt_ioctl.c:1189-1238 | VT_RELDISP on a pending switch: dropped, or completed with the other console reset if its process has died |
| `VtSwitch.HandshakeRuns` | ruby-2.6/drivers/char/vt_ioctl.c:638-773 | from start-up: a console comes under process control, holds the switch pending, refuses it, holds the next one and lets go |
| `VtSwitch.ModeIsLastSaid` | ruby-2.6/drivers/char/vt_ioctl.c:1067-1086 | over every run a console's mode is what the last step that said anything about it said |
| `VtSwitch.ForegroundChangesIff` | ruby-2.6/drivers/char/vt_ioctl.c:638-773 | the foreground changes exactly in the three justified ways, to the wanted console only if that has a tty |
| `VtSwitch.ProcessKeepsScreen` | ruby-2.6/drivers/char/vt_ioctl.c:1189-1238 | a console under a live process keeps the screen until that process lets go |
| `VtSwitch.RunSafe` | ruby-2.6/drivers/char/vt_ioctl.c:638-773 | that holds over every run |
| `VtSwitch.RunChangesJustified` | ruby-2.6/drivers/char/vt_ioctl.c:638-773 | every single change of foreground along a run has one of the three causes |
| `SelectionOverlay.InvertTwice` | ruby-2.6/drivers/char/vt.c:622-664 | inverting twice restores every cell, in each of the three forms |
| `SelectionOverlay.InvertFields` | ruby-2.6/drivers/char/vt.c:640-664 | inversion exchanges the two colours and leaves glyph, brightness and blinking; in monochrome it flips one bit |
| `SelectionOverlay.InvertShowsIff` | ruby-2.6/drivers/char/vt.c:640-664 | an inverted cell looks different exactly if its colours differ, in monochrome always |
| `SelectionOverlay.SelectedShowsIff` | ruby-2.6/drivers/char/selection.c:226-250 | a cell of the screen differs from the one underneath exactly if it is selected and that holds of it |
| `SelectionOverlay.VgaMonoTwiceIff` | ruby-2.6/drivers/video/console/vgacon.c:397-410 | VGA's monochrome form restores a cell exactly if its low attribute bits are not 6 |
| `SelectionOverlay.VgaMonoCellLost` | ruby-2.6/drivers/video/console/vgacon.c:397-410 | a cell that inverting twice leaves changed |
| `SelectionOverlay.Toggle` | ruby-2.6/drivers/char/selection.c:226-250 | inverting a second range inverts exactly the symmetric difference |
| `SelectionOverlay.Display.InvertScreen` | ruby-2.6/drivers/char/vt.c:622-664 | inverts the range in place |
| `SelectionOverlay.Display.ComplementPos` | ruby-2.6/drivers/char/vt.c:677-703 | the pointer moves, restoring the cell it covered; at most one cell is complemented |
| `SelectionText.CopyText` | ruby-2.6/drivers/char/selection.c:252-279 | the buffer holds the text with trailing blanks of each completed row replaced by one CR, never more bytes than cells |
| `Selection.Selector.ClearSelection` | ruby-2.6/drivers/char/selection.c:75-82 | the screen is the underlying one again |
| `Selection.Selector.UpdateHighlight` | ruby-2.6/drivers/char/selection.c:226-250 | extending, contracting or restarting inverts exactly the cells of the new range |
| `Selection.Selector.WordStart` | ruby-2.6/drivers/char/selection.c:178-188 | the longest run of the character's class to the left within the row |
| `Selection.Selector.WordEnd` | ruby-2.6/drivers/char/selection.c:189-199 | the same to the right |
| `Selection.Selector.RunLeftMeans` | ruby-2.6/drivers/char/selection.c:178-188 | that run: blanks from a blank, word characters from a word character, any other alone, no further than the row and as far as they go |
| `Selection.Selector.RunRightMeans` | ruby-2.6/drivers/char/selection.c:189-199 | the same to the right |
| `Selection.Selector.LimitedMeans` | ruby-2.6/drivers/char/selection.c:139-144 | which column or row a coordinate from the user stands for |
| `Selection.Selector.SetSelection` | ruby-2.6/drivers/char/selection.c:122-280 | after every mode, failure included, the screen is the underlying one with exactly the selected cells inverted and at most one pointer cell; the range is exactly the characters, the word runs or the lines asked for, with trailing blanks to the end of the row |
| `Resize.ResizedCell` | ruby-2.6/drivers/char/vt.c:1116-1134 | cell by cell: the bottom rows in order, cut or padded on the right, blank rows below |
| `Resize.CursorCopiedIff` | ruby-2.6/drivers/char/vt.c:1116-1134 | a word that was drawn over another makes no difference to the new screen exactly if it is the same or its cell is cut off |
| `Resize.Vc.VcResize` | ruby-2.6/drivers/char/vt.c:1072-1164 | the new screen is that one, drawn from wherever the old one lay and back in video memory on a display that keeps it there, as far as it fits; the cursor is clamped onto it; a refused resize changes nothing |
| `Utf8.DecodeSound` | ruby-2.6/drivers/char/vt.c:1254-1287 | on any bytes at most five more are awaited and every code stays below 2^31 |
| `Utf8.EncodeDecodes` | ruby-2.6/drivers/char/keyboard.c:269-284 | each encoded code decodes to itself from any left-over state |
| `Utf8.RoundTrip` | ruby-2.6/drivers/char/keyboard.c:269-284 | encoded text decodes to itself from any left-over state |
| `Utf8.Resynchronises` | ruby-2.6/drivers/char/vt.c:1254-1287 | after arbitrary bytes, encoded text still decodes to itself |
| `Utf8.FormDecodes` | ruby-2.6/drivers/char/vt.c:1254-1287 | every number below 2^31 in every form of two to six bytes with room for it (RFC 2279) is decoded to itself from any left-over state |
| `Utf8.EncodeIsForm` | ruby-2.6/drivers/char/keyboard.c:269-284 | the keyboard sends the shortest of these forms |
| `Utf8.InputQueue.ToUtf8` | ruby-2.6/drivers/char/keyboard.c:269-284 | queues exactly the code's encoding |
| `Utf8.Decoder.FeedAll` | ruby-2.6/drivers/char/vt.c:1254-1287 | the decoder working in place delivers what Decode specifies |
| `Jscal.PrintSettings` | utils/jscal.c:414-438 | the printed list: the number of axes as a char, then type, precision and used coefficients of each if that is positive |
| `Jscal.AxisNumbersAre` | utils/jscal.c:414-438 | of a broken line type, precision and four coefficients are printed, of an uncorrected axis the first two |
| `Jscal.ToShortWraps` | utils/jscal.c:597 | a precision is stored in sixteen bits, signed |
| `Jscal.SettingsRoundTripIff` | utils/jscal.c:551-621 | what is printed is accepted, and restores types, precisions and the four coefficients of each broken line exactly if there are fewer than 128 axes or they were there already; nothing else changes |
| `Jscal.SettingsForOthersRefused` | utils/jscal.c:567-574 | a list for another number of axes is refused |
| `Jscal.WrongLengthRefused` | utils/jscal.c:576-614 | a list that breaks off anywhere or goes on is refused |
| `Jscal.WrongTypeRefused` | utils/jscal.c:583-592 | an unknown type is refused; a negative one indexes a table before its start |
| `Jscal.Settler.SetCorrection` | utils/jscal.c:551-621 | the reader working in place does what Corrections specifies, errors included |
| `JscalMappings.PrintMappings` | utils/jscal.c:337-370 | the printed list: axes, axis codes, buttons, button codes, the counts as chars |
| `JscalMappings.MappingsRoundTripIff` | utils/jscal.c:442-529 | what is printed is accepted, and each map comes back exactly if it has fewer than 128 entries or was there already; an empty button list leaves the buttons alone |
| `JscalMappings.ButtonsRestoredIff` | utils/jscal.c:442-529 | into an array still zero the buttons come back exactly if there are fewer than 128 |
| `JscalMappings.ManyButtonsLost` | utils/jscal.c:494-549 | with 128 buttons the count printed is -128, it is accepted, and the array handed to the driver was never filled |
| `JscalMappings.OneAxisAccepted` | utils/jscal.c:477-490 | axis codes are accepted up to ABS_MAX + 1, one more than there are |
| `JscalMappings.OneButtonAccepted` | utils/jscal.c:511-524 | button codes are accepted from BTN_MISC to KEY_MAX |
| `JscalMappings.WrongMapLength` | utils/jscal.c:474-532 | a list that breaks off or goes on is refused, but for one that ends with the axes, where the reader follows a NULL pointer |
| `JscalMappings.AttachedIff` | utils/jscal.c:385-412 | for a permuted map every code keeps its calibration exactly if axes sharing a code shared it before |
| `JscalMappings.CalibrationMixed` | utils/jscal.c:385-412 | two axes of one code and different calibrations both end up with the second |
| `JscalMappings.RemapUndone` | utils/jscal.c:385-412 | with distinct codes calibrations stay attached, and going back restores them |
| `JscalMappings.CorrectAxes` | utils/jscal.c:385-412 | the index-table loops compute that remap, for any maps; codes outside the table or not in the old map are reported as undefined |
| `JscalMappings.Mapper.SetMappings` | utils/jscal.c:442-549 | on success the device has the maps read and its calibration moved along; an error exit leaves it as it was |

## Left out

- Locks, sleeping, timers, wait queues: lock-protected regions are atomic steps or whole calls.
- `LineDiscipline`, `PtyPair` and `VtSwitch` model values, not objects updated in place, since their subject is interleaving; aliasing of tty structures is not captured.
- VteText.TextFills: text that stays above the bottom margin; VteTyping.TextScrolls has the text that goes on from there. Text below the margins is left out.
- LineDiscipline.RunSafe: one discipline change at a time per tty; what a second one does is in TwoChangers, on the path where every discipline opens.
- PtyPair.RunSafe: opens and closes are atomic and the pair has one table index; hangup is not modelled.
- VtSwitch.RunSafe: a fixed pool of allocated consoles; allocation, deallocation and VT_WAITACTIVE are not modelled.
- E820.SanitizeE820Map: E820MAX is a parameter, and if the output fills it only addresses up to the last entry are accounted for, as in the code.
- limit_regions, the EFI branches, command-line parsing and probing in setup.c: shorter claims of their own.
- FunctionKeys.KeyTable.SetString: copying from user space does not fail.
- VteParser.Run: fewer than 65536 rows and columns; tab stops are one boolean per column rather than bits of words, and those beyond 256 columns are the model's own, while in the code they lie in what follows `vc_tab_stop`; scrolling is the software form, which HardScroll proves equal to the hardware's.
- VteTerminal.Terminal.DoConWrite: drawing on the display, flow control (`tty->stopped`) and the drawing of the cursor; the screen buffer is what is modelled.
- VteParser.Emulate: answers to the host (except the position report), bells, blanking, console switching, cursor shape, LEDs, mouse reporting, keyboard modes other than line feed mode, and states no transition enters.
- vt_console_print, vt_open and take_over_console: the printk path repeats the write loop; allocation is a fixed pool.
- VcsDevice.Device.VcsRead: the screen, its size and which console is on display do not change while data is copied out, and a display is not scrolled back.
- VcsDevice.Device.VcsWrite: the same while data is copied in, and the redrawing of the changed region, which hides the cursor and draws it again, on display.
- UniPool: inverse translation tables, the user translation maps and the built-in font table.
- Selection.Selector.SetSelection: one console, no mouse reporting; pasting is left out.
- Resize.Vc.VcResize: a selection on the console is not highlighted; what a screen larger than video memory does beyond it, the drawing of the cursor at the end, and the signal to the foreground group are left out.
- HardScroll.VgaConsole.VgaconScrollRegion: VGA registers and scrollback; the memory shown is what is modelled.
- Jscal.Settler.SetCorrection: numbers beyond int in the text; ioctls succeed; the trailing device name is a separate argument.
- JscalMappings.CorrectAxes: what the code does with codes that are new or exceed ABS_MAX, for which it reads or writes outside its tables, is only reported as undefined.
- calibration from measurements (`solve_broken`) is floating point on device input and is left out.
- Fonts, palettes in hardware, sysrq, input drivers, proc and sysfs files, the compat ioctls and the X server glue: device plumbing or short local claims.
