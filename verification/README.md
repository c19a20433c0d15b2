# A Dafny model of the Lausu repository's rewriters, gates and protocols

Lausu is a desktop dictation application. Around its Python and Rust cores sits code whose whole value
is a guarantee: a configuration rewriter that must be undone again, a validator that must not let a
corrupt icon into a bundle, a stub generator that must never overwrite a real build, a click on a toast
that must run that toast's own action, a ratchet that must not slip. This project models that code and
proves what it guarantees, for every input, every run and every interleaving.

Each file is one module and follows one part of the repository:

| file | part of the repository |
|---|---|
| `host_events.dfy` | toast notifications and their click intents, as interleaved critical sections |
| `xkb_options.dfy`, `sway_config.dfy`, `sway_roundtrip.dfy` | the sway branch of the Linux installer and the uninstaller that inverts it |
| `sway_text.dfy`, `sway_laws.dfy` | which texts those two take for directives, values and comments of ours, and what every install and uninstall keeps |
| `png_container.dfy`, `icns_container.dfy`, `ico_container.dfy` | the three binary icon validators, each against an encoder |
| `stub_files.dfy` | generate, check and clean over one file tree |
| `linker_wrap.dfy` | the response-file rewriter written in C, on character buffers |
| `locale_tree.dfy`, `translations.dfy`, `locale_dicts.dfy` | merging English keys into locale files and applying translations: the meaning on trees, then the code on dict objects updated in place |
| `fallback_splice.dfy`, `fallback_reader.dfy` | rendering the pinned-model table and splicing it into a source file; what a reader of the table gets back |
| `ratchets.dfy` | the count, ruff, slim-core and coverage ratchets over whole runs |
| `log_names.dfy`, `log_order.dfy` | collision-free names in a support bundle, and when they come out sorted |
| `percentiles.dfy` | the two percentile definitions of the benchmarks |
| `py_text.dfy`, `byte_codes.dfy`, `wrappers.dfy` | Python string operations, byte codes, optional values and small shared facts |

Code that works step by step is modelled by methods with loops (classes where the source keeps state),
each proved equal to a specification function; the lemmas are then about that function. Text is what
Python's `read_text` returns, so a text has no carriage returns where a lemma requires `NewlinesOnly`.
Outside results (whether `show` succeeded, whether a file could be copied, the CRC-32 function, how
`round` breaks ties) are parameters and every statement holds for all of them.

## Where code and documentation disagree

The model follows the code. Each point names the lemmas that prove it: an input on which the code
departs, and the exact condition under which it does not.

- The toast id counter wraps after 2^31-1 allocations. Up to that many, all promises hold on every
  interleaving (`HostEvents.SafeExactlyUpToIdSpace`); with one more, a tap can run another toast's
  intent (`HostEvents.WrappedRunIsUnsafe`).
- The uninstaller recognises a directive from three tokens on, the installer from four. A bare
  `input * xkb_options` line above the first real one is therefore taken for the installed line
  (`SwayRoundTrip.BareDirectiveBreaksRoundTrip`). The round trip holds exactly when there is no such
  line and no line of ours beforehand (`SwayRoundTrip.ReplaceModeRoundTrip`, `AppendModeRoundTrip`,
  `MarkedModeRoundTrip`).
- The ICNS validator promises a problem list but stops with an IndexError on a PNG payload of 24 to 28
  bytes. It does so exactly when its walk reaches such a chunk, whatever else is wrong with the file
  (`IcnsContainer.AbortsExactly`; `ShortPngAborts` and `MalformedAborts` give inputs).
- The PNG validator promises an IDAT between IHDR and a terminating IEND. It only checks that an IDAT
  occurs and that the last complete chunk is an IEND, so files with bytes behind the last IEND
  (`PngContainer.TrailingBytesPass`) and files with their pixels behind an earlier IEND
  (`EarlyEndPasses`) are accepted. An accepted file ends with its only IEND exactly when nothing trails
  its chunks and no chunk before the last is an IEND (`PngContainer.EndsAsDocumentedExactly`).
- `--check` describes a real binary as large and marker-free; any file of 512 bytes or more passes
  (`StubFiles.PassesExactly`), one with the marker included (`StubFiles.LargeStubPasses`).
- The response-file rewrite keeps one line per line exactly while lines fit the 16384-byte buffer
  (`LinkerWrap.LineCountKept`, `LongLineIsSplit`). A rewritten line always names the file its artifact
  was copied to; that is `objdir\base` exactly while this path stays below 260 characters
  (`LinkerWrap.CopiedLineLeadsToCopy`, `LongTargetIsCut`). Directories are dropped, so two artifacts of
  one name overwrite each other (`LinkerWrap.SameNameClashes`): every rewritten line leads to its own
  artifact exactly when no two different artifacts are copied to one file and no copy is spoiled by a
  failed write for good (`LinkerWrap.OutputLeadsToOwnArtifacts`).
- After adding keys, some English keys can still be missing (`LocaleTree.KeyStaysMissing`): exactly
  those where the locale holds a dict (`LocaleTree.MissingAfterReplace`), or, when conflicts are
  skipped, where the shapes disagree on the way (`LocaleTree.MissingAfterSkip`).
- The merge report is exact, except that `overwrite` also reports leaves it wrote over with the value
  they had (`LocaleTree.ReportIsExact`, `UnchangedIsReported`).
- A baseline that is valid JSON without an integer total, a non-object root included, skips the
  refuse-to-grow guard (`Ratchets.GuardSkippedExactly`). The guard is on the total, so a single floor
  may grow (`Ratchets.KeyFloorMayGrow`); it does not exactly when compare would have passed
  (`Ratchets.FloorsKeptExactly`).
- The ruff filter is documented for pyflakes rules, but drops every code that starts with `F`
  (`Ratchets.OtherRuleIsDropped`). The two agree exactly on reports whose F-codes are all pyflakes
  codes (`Ratchets.FilterAsDocumentedExactly`).
- The coverage ratchet "only allows coverage to increase", yet each regenerate may lower the floor by
  the full tolerance (`Ratchets.CoverageDriftIsReached`, bounded by `CoverageDrift`, with refused
  attempts in between by `HistoryDrift`). An unforced regenerate keeps the floor exactly when it is
  refused or the measurement is above the floor, rounded up, less half a rounding step
  (`Ratchets.FloorKeptExactly`, over histories `FloorsNeverDropExactly`), and the guard is skipped
  exactly when the file is missing or holds no number (`Ratchets.CoverageGuardSkippedExactly`).
- The collected log names are documented as sorted; the legacy log goes first
  (`LogOrder.LegacyComesFirst`). They are sorted exactly when there is no legacy log or the listing
  fits behind it (`LogOrder.SortedExactly`).

## Model

| member | source | states |
|---|---|---|
| HostEvents.SameActionIffSameRoute | src-tauri/src/host_events.rs:67-90 | two payloads get the same tap action exactly when they route alike: by the consent field when there is one, by the path otherwise |
| HostEvents.ActionByFields | src-tauri/src/host_events.rs:67-90 | field by field, the one action of a tap: with a consent field, a navigation whose keys are path, which is /settings, and consent_field, which is that field; without one, the path /microphone opens the system page and any other path is navigated to, with no other key; with neither, nothing |
| HostEvents.NthId | src-tauri/src/host_events.rs:22-25 | the n-th allocated id is n mod (2^31-1) plus 1, through the wrap-around |
| HostEvents.SharedIntents.AllocateId | src-tauri/src/host_events.rs:175-182 | hands out the counter and bumps it past zero and the negatives; the pending map is untouched |
| HostEvents.SharedIntents.HandleTap | src-tauri/src/host_events.rs:144-162 | a tap returns the pending intent of its own id and consumes it |
| HostEvents.SharedIntents.ShowNotification | src-tauri/src/host_events.rs:164-209 | a shown toast with an intent leaves exactly that entry under its id, a failed one leaves none, and other ids keep theirs |
| HostEvents.UninterruptedTask | src-tauri/src/host_events.rs:164-209 | running the four sections without interruption gives the registry that `ShowNotification` promises |
| HostEvents.StepKeepsInv | src-tauri/src/host_events.rs:143-209 | every section of every task and every tap keeps ids distinct, entries owned and taps accounted for, while ids do not repeat |
| HostEvents.InvImpliesSafe | src-tauri/src/host_events.rs:143-209 | that invariant gives the four promises: own intent only, at most once, shown toasts stay tappable, failed ones leave nothing |
| HostEvents.EveryRunIsSafe | src-tauri/src/host_events.rs:143-209 | for every interleaving of show, failure and tap over at most 2^31-1 toasts all four promises hold |
| HostEvents.TapRunsOwnPayload | src-tauri/src/host_events.rs:143-209 | over every run of at most 2^31-1 toasts, the first tap on a shown toast's id runs what the fields of that toast's own payload lead to, and every other tap on it runs nothing |
| HostEvents.RunCounter | src-tauri/src/host_events.rs:175-182 | along every run, wrapped or not, the counter has its closed form |
| HostEvents.WrappedRunIsUnsafe | src-tauri/src/host_events.rs:175-182 | one allocation more and a tap on the first toast's id runs the last toast's intent |
| HostEvents.SafeExactlyUpToIdSpace | src-tauri/src/host_events.rs:143-209 | all runs with up to n allocations are safe if and only if n is at most 2^31-1 |
| XkbOptions.CommaRoundTrip | scripts/linux/install_permissions.py:484-491 | formatting then parsing a list gives it back if and only if every element is non-empty, trimmed and comma-free |
| XkbOptions.CommaNormalises | scripts/linux/install_permissions.py:484-491 | parse, format, parse is parse, for every string |
| XkbOptions.ParseGivesOptions | scripts/linux/install_permissions.py:484-486 | parsing any string yields only well-formed options made of its own characters |
| XkbOptions.ParseReadsPieces | scripts/linux/install_permissions.py:484-486 | whatever stands between the commas: the options read are the stretches that are not blank, in order, without the white space around them |
| XkbOptions.EveryValueHasPieces | scripts/linux/install_permissions.py:484-486 | every value splits into such stretches, so that law covers all inputs |
| XkbOptions.MergeExtends | scripts/linux/install_permissions.py:494-499 | the old list stays a prefix, the option is in, nothing else is, and merging again changes nothing |
| XkbOptions.InstalledValueIsFixed | scripts/linux/install_permissions.py:484-499 | re-merging an installed value is a fixed point, for every previous value |
| XkbOptions.GsettingsRoundTrip | scripts/linux/install_permissions.py:443-481 | every list of plain strings, blanks and commas included, survives the GVariant form |
| XkbOptions.FallbackAgrees | scripts/linux/install_permissions.py:443-475 | on option lists the tokenizing fallback reads the same as the literal reader |
| XkbOptions.TypedEmptyList | scripts/linux/install_permissions.py:443-475 | any output that begins with `@as`, as the printed empty list does, after any white space, gives no option |
| XkbOptions.FallbackReads | scripts/linux/install_permissions.py:443-475 | the fallback reads any bracketed list of quoted stretches, whatever its quotes, white space and blank elements |
| SwayConfig.FindSwayXkbOptionsLines | scripts/linux/install_permissions.py:502-512 | exactly the live directive lines, in ascending order; `SwayText.LiveIsText` says which texts those are |
| SwayText.LiveIsText | scripts/linux/install_permissions.py:502-512 | character by character: the installer takes a line for a directive if and only if it is `input`, `*`, `xkb_options` and a non-blank rest, behind and between white space of any kind and length |
| SwayText.BareIsText | scripts/linux/install_permissions.py:1149-1166 | the uninstaller does if and only if it is those three words, with nothing or white space behind them |
| SwayText.DirectiveOptions | scripts/linux/install_permissions.py:767-770 | the options read from such a line are the trimmed non-blank stretches between the commas of its rest, in order |
| SwayLaws.BackupIsText | scripts/linux/install_permissions.py:1142-1148 | a line is dropped as a backup comment if and only if, behind white space, it starts with the backup wording |
| SwayLaws.BlockIsText | scripts/linux/install_permissions.py:1151-1152 | a line is taken for a block marker if and only if it is one of the two marker comments between white space |
| SwayLaws.HasMarkerIsText | scripts/linux/install_permissions.py:788-800 | the installer leaves the file alone if and only if one of the marker comments occurs in it, provided no directive is live |
| SwayConfig.DropDuplicates | scripts/linux/install_permissions.py:779-783 | first directive replaced in place, all later ones deleted, every other line kept in order |
| SwayConfig.InstallSway | scripts/linux/install_permissions.py:756-800 | the installer's text and manifest entry in replace, append and already-marked mode, the lines it rewrites being those of `SwayText.LiveIsText` |
| SwayLaws.InstallSetsCapsNone | scripts/linux/install_permissions.py:756-800 | after installing, the text has a live directive with caps:none if and only if it had a live directive before or no marker comment |
| SwayLaws.InstallKeepsPlain | scripts/linux/install_permissions.py:767-787 | rewriting keeps, in order, every line that is no directive and none of ours |
| SwayConfig.RestoreTurn | scripts/linux/install_permissions.py:1142-1178 | one turn of the restore loop is one step of the line-list specification |
| SwayConfig.RestoreSway | scripts/linux/install_permissions.py:1127-1179 | the loop computes the specification on the whole file |
| SwayLaws.UninstallKeepsPlain | scripts/linux/install_permissions.py:1142-1178 | whatever the file holds, uninstalling keeps, in order, every line that is no directive and none of ours |
| SwayLaws.OriginalAtMostOnce | scripts/linux/install_permissions.py:1142-1178 | no line becomes more frequent by uninstalling, except the saved original, which is put in at most once |
| SwayRoundTrip.MergedLineOptions | scripts/linux/install_permissions.py:768-775 | the written line is live again, carries the old options in order plus caps:none, and merging it again changes nothing |
| SwayRoundTrip.OriginalComesBack | scripts/linux/install_permissions.py:767-772 | the saved original is recognised as the directive it was |
| SwayRoundTrip.NoMarkerSurvives | scripts/linux/install_permissions.py:1142-1178 | after uninstalling no marker and no backup comment is left, whatever the file looked like |
| SwayRoundTrip.ReplaceModeLines | scripts/linux/install_permissions.py:751-787 | line by line, install then uninstall gives the expected lines if and only if the file was undisturbed |
| SwayRoundTrip.ReplaceModeRoundTrip | scripts/linux/install_permissions.py:751-787 | for every text with a live directive: the round trip gives the original with the first directive right-stripped and duplicates gone, if and only if no line was ours and no bare directive came first |
| SwayRoundTrip.ReplaceModeIdentity | scripts/linux/install_permissions.py:751-787 | it gives the identical text if and only if, besides, the directive was unique and ended in a bare newline |
| SwayLaws.RoundTripKeepsPlain | scripts/linux/install_permissions.py:751-787 | for every text with a live directive, even where the round trip does not give it back, it keeps every line that is no directive and none of ours, in order |
| SwayRoundTrip.AppendModeRoundTrip | scripts/linux/install_permissions.py:788-796 | with no live directive and no marker: every line kept, at most a final newline and one blank line added, no live directive left, if and only if no line was a bare directive or a backup comment |
| SwayRoundTrip.MarkedModeRoundTrip | scripts/linux/install_permissions.py:797-800 | an already marked file is left alone by the installer and comes back whole if and only if no line is ours |
| SwayRoundTrip.BareDirectiveBreaksRoundTrip | scripts/linux/install_permissions.py:1161-1176 | a two-line configuration, free of our lines, whose round trip fails |
| PngContainer.ScanIsSound | scripts/gen_tauri_icons_stub.py:256-266 | whatever the walk read encodes back to the bytes it was read from, and it stops only where no complete chunk starts |
| ByteCodes.BigEndianOrder | scripts/gen_tauri_icons_stub.py:256-266 | the lengths of PNG and ICNS chunks are big-endian: the first byte that differs decides |
| PngContainer.ScanIsComplete | scripts/gen_tauri_icons_stub.py:256-266 | every encoded chunk list is read back exactly |
| PngContainer.PngFileUnique | scripts/gen_tauri_icons_stub.py:256-266 | a file splits into chunks and trailing bytes in one way only |
| PngContainer.PngChunkTypes | scripts/gen_tauri_icons_stub.py:256-266 | the offset loop computes the chunk types of that reading |
| PngContainer.HeaderIsFirstChunk | scripts/gen_tauri_icons_stub.py:290-317 | the checks at fixed offsets pass exactly when the first chunk is a correct IHDR, CRC included |
| PngContainer.ContainerProblem | scripts/gen_tauri_icons_stub.py:269-324 | the first problem in the order of the checks; the last-chunk read is always in range |
| PngContainer.AcceptedExactlyWellFormed | scripts/gen_tauri_icons_stub.py:269-324 | accepted if and only if the file is the magic, chunks with IHDR first, an IDAT strictly between and IEND last, and then no further complete chunk |
| PngContainer.ProblemMeans | scripts/gen_tauri_icons_stub.py:269-324 | which problem a file with a complete IHDR chunk first gets: that chunk's first fault, else the lack of any IDAT, else a last chunk that is no IEND |
| PngContainer.TrailingBytesPass | scripts/gen_tauri_icons_stub.py:318-324 | for every CRC function, a one-pixel image with a stray byte behind IEND is accepted, though it does not end with its only IEND |
| PngContainer.EarlyEndPasses | scripts/gen_tauri_icons_stub.py:318-324 | for every CRC function, a file IHDR, IEND, IDAT, IEND is accepted |
| PngContainer.EndsAsDocumentedExactly | scripts/gen_tauri_icons_stub.py:269-324 | an accepted file's last bytes are its only IEND chunk if and only if nothing trails its chunks and no chunk before the last is an IEND |
| IcnsContainer.ScanIsSound | scripts/gen_tauri_icons_stub.py:380-425 | the chunks read and the unread rest are the whole file; the walk stops at the end exactly when nothing is left |
| IcnsContainer.ScanIsComplete | scripts/gen_tauri_icons_stub.py:380-425 | every encoded chunk list is read back exactly |
| IcnsContainer.IcnsFileUnique | scripts/gen_tauri_icons_stub.py:380-425 | a file is the encoding of at most one chunk list |
| IcnsContainer.CheckPngChunk | scripts/gen_tauri_icons_stub.py:401-421 | the problems of one PNG chunk, and whether the check aborts on it |
| IcnsContainer.WalkChunks | scripts/gen_tauri_icons_stub.py:376-425 | terminates and collects problems, stop offset and both type lists of that reading |
| IcnsContainer.ValidateIcns | scripts/gen_tauri_icons_stub.py:349-441 | the verdict: an abort, or the complete problem list |
| IcnsContainer.ScanPrefix | scripts/gen_tauri_icons_stub.py:381-423 | what the walk reads first does not depend on what follows it |
| IcnsContainer.AbortsExactly | scripts/gen_tauri_icons_stub.py:349-441 | for every byte string: the validator aborts if and only if the header is right and the data starts with chunks one of which is a registered PNG of 24 to 28 bytes with an IHDR |
| IcnsContainer.SetProblemsMean | scripts/gen_tauri_icons_stub.py:426-440 | the checks on the collected types find nothing if and only if every size occurs as a PNG, every legacy type occurs and no other type does |
| IcnsContainer.AcceptedExactlyCanonicalFiles | scripts/gen_tauri_icons_stub.py:349-441 | accepted if and only if the file is byte for byte the encoding of a chunk list with all eight PNG sizes, all four legacy types and nothing else |
| IcnsContainer.ReportMeans | scripts/gen_tauri_icons_stub.py:349-441 | the report on a chunk list holds a problem if and only if one of the chunks has that fault, or the set of types has it; each fault is told from type, payload bytes and membership alone |
| IcnsContainer.ShortPngAborts | scripts/gen_tauri_icons_stub.py:406-413 | a 40-byte file on which the validator aborts |
| IcnsContainer.MalformedAborts | scripts/gen_tauri_icons_stub.py:406-413 | a 41-byte file that encodes no chunk list and on which it aborts all the same |
| IcoContainer.WalkEntries | scripts/gen_tauri_icons_stub.py:466-496 | the record loop computes problems and collected sizes, stopping at a record outside the file |
| IcoContainer.CheckEntry | scripts/gen_tauri_icons_stub.py:470-496 | the problems of one entry and the size it contributes |
| IcoContainer.ValidateIco | scripts/gen_tauri_icons_stub.py:444-504 | the complete problem list |
| IcoContainer.DirectoryUnique | scripts/gen_tauri_icons_stub.py:458-471 | a file has at most one directory |
| IcoContainer.ImageChecks | scripts/gen_tauri_icons_stub.py:478-496 | the size comparison and the size-less PNG check together accept exactly the well-formed PNGs of the declared size |
| IcoContainer.AcceptedExactly | scripts/gen_tauri_icons_stub.py:444-504 | accepted if and only if the file starts with a directory whose records all point inside at well-formed images of their declared sizes, covering the six expected sizes |
| IcoContainer.ReportMeans | scripts/gen_tauri_icons_stub.py:444-504 | with a directory, the report holds a problem if and only if a record has that fault or it is the non-empty set of expected sizes not collected |
| IcoContainer.WalkSizes | scripts/gen_tauri_icons_stub.py:466-496 | a size is collected if and only if a record inside the file declares it and points at a PNG signature |
| IcoContainer.LittleEndianOrder | scripts/gen_tauri_icons_stub.py:458-471 | the directory's numbers are little-endian: the last byte that differs decides |
| IcoContainer.PackedDirectory | scripts/gen_tauri_icons_stub.py:466-477 | an encoder's records are read back and each leads to its own image |
| IcoContainer.PackedAcceptedExactly | scripts/gen_tauri_icons_stub.py:444-504 | packed images are accepted if and only if each is a well-formed PNG of its declared size and all six sizes occur |
| StubFiles.RegistryIsFunctional | scripts/gen_tauri_icons_stub.py:633-680 | the list of specs and the path-by-path registry agree: every owned path has exactly one platform and kind |
| StubFiles.FileNamesDiffer | scripts/gen_tauri_icons_stub.py:196-230 | the owned files and the script sources and copies all have different file names |
| StubFiles.NoSpecListedTwice | scripts/gen_tauri_icons_stub.py:661-680 | no spec is listed twice |
| StubFiles.WindowsExactlyExe | scripts/gen_tauri_icons_stub.py:633-680 | an owned file is a Windows stub if and only if its file name ends in .exe |
| StubFiles.StubContentIsStub | scripts/gen_tauri_icons_stub.py:508-523 | every canonical stub carries the marker and is below the size of a real binary |
| StubFiles.StubsDiffer | scripts/gen_tauri_icons_stub.py:508-523 | two stubs are equal if and only if both or neither are for Windows and their kinds agree; one starts like a shell script if and only if it is not for Windows |
| StubFiles.StubNamesKind | scripts/gen_tauri_icons_stub.py:508-523 | every stub names its kind right behind the marker |
| StubFiles.StubExactly | scripts/gen_tauri_icons_stub.py:534-551 | a file is taken for a stub if and only if the marker stands at some place within its first 8192 bytes |
| StubFiles.PassesExactly | scripts/gen_tauri_icons_stub.py:554-606 | no problem if and only if the file is the canonical stub or has at least 512 bytes |
| StubFiles.LargeStubPasses | scripts/gen_tauri_icons_stub.py:606-606 | for every platform and kind a file that carries the marker and passes |
| StubFiles.StubTree.SyncLinuxScripts | scripts/gen_tauri_icons_stub.py:693-706 | each script copy equals its source when there is one; no other path changes |
| StubFiles.StubTree.WriteStubFileIfNeeded | scripts/gen_tauri_icons_stub.py:609-628 | a missing or problematic file becomes the canonical stub, any other file and path stays |
| StubFiles.StubTree.Generate | scripts/gen_tauri_icons_stub.py:723-758 | every path holds what generate promises for it |
| StubFiles.StubTree.Check | scripts/gen_tauri_icons_stub.py:859-892 | exit code 0 if and only if every owned file passes and every script copy equals its source |
| StubFiles.StubTree.Clean | scripts/gen_tauri_icons_stub.py:895-934 | exactly the owned files are gone that hold the marker at some place within their first 8192 bytes, and all other files stay; the two numbers count them and the other owned files |
| StubFiles.RealArtifactsSurvive | scripts/gen_tauri_icons_stub.py:609-628 | over any sequence of generate, check and clean, a file at a stub path with at least 512 bytes and the marker at no place within the first 8192 stays byte for byte |
| StubFiles.SafeExactlyRealArtifacts | scripts/gen_tauri_icons_stub.py:534-628 | a content at a stub path is kept by all sequences of commands if and only if it has at least 512 bytes and the marker at no place within the first 8192 |
| StubFiles.OnlyStubsAppear | scripts/gen_tauri_icons_stub.py:723-934 | over any sequence a stub path holds its first content, its canonical stub, or nothing; all unowned paths stay |
| StubFiles.GenerateHeals | scripts/gen_tauri_icons_stub.py:609-628 | after generate no owned path has a problem, and the check passes if and only if every script source exists |
| StubFiles.CheckPassesIffGenerateIdle | scripts/gen_tauri_icons_stub.py:859-892 | the check passes if and only if generating would change nothing and every script source exists |
| StubFiles.GenerateIdempotent | scripts/gen_tauri_icons_stub.py:723-758 | generating twice is generating once |
| StubFiles.GenerateThenClean | scripts/gen_tauri_icons_stub.py:895-934 | generate then clean leaves at each stub path what was there before if that had at least 512 bytes and no marker within the first 8192, and nothing otherwise |
| LinkerWrap.CollapsePairs | src-tauri/toolchain/linker_wrap.c:229-234 | the two-cursor loop leaves the un-escaped text, never writes past its read cursor and touches nothing outside |
| LinkerWrap.UnescapePath | src-tauri/toolchain/linker_wrap.c:222-236 | flag, start and un-escaped path in the caller's buffer |
| LinkerWrap.UnescapeEscape | src-tauri/toolchain/linker_wrap.c:229-292 | un-escaping undoes escaping, for every path |
| LinkerWrap.UnescapeRuns | src-tauri/toolchain/linker_wrap.c:229-234 | in any text, escaped or not, a run of n backslashes becomes one of half n, rounded up, and all other characters stay |
| LinkerWrap.EscapedLineReads | src-tauri/toolchain/linker_wrap.c:222-236 | a line that is an escaped path, flagged or not, is read as that path with that flag |
| LinkerWrap.EscapePath | src-tauri/toolchain/linker_wrap.c:286-293 | the bounded loop writes the escape of the longest prefix it takes, terminated, without overflow |
| LinkerWrap.EscapedWhole | src-tauri/toolchain/linker_wrap.c:286-293 | a path is taken whole if and only if all but its last character stay below the limit |
| LinkerWrap.EscapeBufferSuffices | src-tauri/toolchain/linker_wrap.c:279-293 | no path that fits a 260-byte buffer is truncated by the escape buffer |
| LinkerWrap.CheckTempArtifact | src-tauri/toolchain/linker_wrap.c:207-216 | whether one of the four suffixes ends the path, letters folded |
| LinkerWrap.ArtifactExactly | src-tauri/toolchain/linker_wrap.c:207-216 | a path is an artifact if and only if it ends in a spelling of .rcgu.o, symbols.o, list.def or rmeta.o, any letter in either case |
| LinkerWrap.BaseNameIs | src-tauri/toolchain/linker_wrap.c:274-277 | the base name is the longest tail without either separator |
| LinkerWrap.FindBase | src-tauri/toolchain/linker_wrap.c:274-277 | the scan finds that tail |
| LinkerWrap.ArtifactBase | src-tauri/toolchain/linker_wrap.c:207-278 | an artifact is recognised by its base name alone, which is then never empty |
| LinkerWrap.RewriteLine | src-tauri/toolchain/linker_wrap.c:267-303 | the line written for each line read, copied artifact or not |
| LinkerWrap.CopiedLineLeadsToCopy | src-tauri/toolchain/linker_wrap.c:278-295 | a copied line keeps its flag and un-escapes to exactly the file copied to, which is objdir and base name if and only if these fit a 260-byte buffer, and their first 259 characters otherwise |
| LinkerWrap.RewriteIsFixed | src-tauri/toolchain/linker_wrap.c:266-304 | a written artifact line, rewritten again, stays, cut off or not; not cut off it still names an artifact |
| LinkerWrap.CopiesCollideIffSameBase | src-tauri/toolchain/linker_wrap.c:274-295 | two copied lines become equal if and only if flags and targets agree; for targets that fit, if and only if flags and base names agree |
| LinkerWrap.LongTargetIsCut | src-tauri/toolchain/linker_wrap.c:279-281 | an artifact line with a long name and a scratch directory within its buffer, for which the file copied to is not objdir and base name |
| LinkerWrap.PreserveArtifacts | src-tauri/toolchain/linker_wrap.c:264-304 | the read loop computes the rewritten text |
| LinkerWrap.ReadsCoverFile | src-tauri/toolchain/linker_wrap.c:264-266 | the reads joined are the file; each has at most 16383 characters, a newline only at its end, and stops short of a newline or that length only at the end of the file |
| LinkerWrap.OutputLines | src-tauri/toolchain/linker_wrap.c:266-304 | one output line per read, in order |
| LinkerWrap.LineCountKept | src-tauri/toolchain/linker_wrap.c:264-304 | the number of lines is kept if and only if every line fits the line buffer |
| LinkerWrap.LongLineIsSplit | src-tauri/toolchain/linker_wrap.c:264-266 | one line of 16384 characters becomes several |
| LinkerWrap.LinesRewrittenInPlace | src-tauri/toolchain/linker_wrap.c:264-304 | when all lines fit the buffer: each line, up to a NUL if it has one and without its line end, is rewritten in its place; one that names no artifact or was not copied stays |
| LinkerWrap.LastWriteDecides | src-tauri/toolchain/linker_wrap.c:97-134 | over any sequence of copies, failed ones included, a file holds what its last write left: that copy's source, or nothing known when it failed while writing |
| LinkerWrap.OutputLeadsToOwnArtifacts | src-tauri/toolchain/linker_wrap.c:266-304 | for every text and all copy outcomes: each line of the output whose artifact was copied leads to a file last filled from that very artifact if and only if no two different artifacts were copied to one file and every copy spoiled by a failed write is made good by a later one |
| LinkerWrap.SameNameClashes | src-tauri/toolchain/linker_wrap.c:274-281 | two fitting artifact lines of one name, the first of which ends up with the second's artifact |
| LocaleTree.LookupMerge | scripts/_i18n_common.py:111-137 | what stands at any path after a merge: the merged dicts where both sides are dicts all the way, otherwise the side that wins at the first place where they part |
| LocaleTree.MissingAfterReplace | scripts/_i18n_common.py:111-137 | an English leaf is still missing after the add-keys merge if and only if the locale held a dict there |
| LocaleTree.KeyStaysMissing | scripts/_i18n_common.py:125-131 | a locale on which the add-keys merge changes nothing although an English key is missing |
| LocaleTree.MissingAfterSkip | scripts/_i18n_common.py:111-137 | under skip it stays missing if and only if the two disagree on dict versus scalar at the path or above |
| LocaleTree.NothingMissingAfterOverwrite | scripts/_i18n_common.py:111-137 | under overwrite every English leaf is there with its English value |
| LocaleTree.TranslationsSurvive | scripts/_i18n_common.py:111-137 | every locale leaf survives skip, and survives the add-keys policy if and only if English has no dict there |
| LocaleTree.AddedIsMinimalChange | scripts/_i18n_common.py:72-140 | for every policy: the reported paths are exactly the topmost places at which the merge changed something, and under overwrite also the leaves written over with their own value |
| LocaleTree.ReportIsExact | scripts/_i18n_common.py:72-140 | the report is exactly the list of changes if and only if the policy is not overwrite or the locale holds no English leaf unchanged |
| LocaleTree.UnchangedIsReported | scripts/_i18n_common.py:132-136 | a locale that overwrite leaves as it is and still reports |
| LocaleTree.MergeIdempotent | scripts/_i18n_common.py:72-140 | merging again changes nothing, under any policy |
| LocaleTree.SecondMergeAdds | scripts/_i18n_common.py:72-140 | a second merge reports nothing, except that overwrite reports exactly the English leaves |
| LocaleDicts.DictObject.Store | scripts/_i18n_common.py:111-137 | storing a value under one key, by reference, leaves every other key |
| LocaleDicts.MergeKey | scripts/_i18n_common.py:112-137 | one turn of the loop changes the locale at that key only and reports it exactly when it changed |
| LocaleDicts.MergeBelow | scripts/_i18n_common.py:117-118 | merging into a sub-dict changes the locale below that key only |
| LocaleDicts.MergeInto | scripts/_i18n_common.py:111-137 | the recursion in place computes the merge, in any key order, and leaves English as it is |
| LocaleDicts.MergeEnIntoLocale | scripts/_i18n_common.py:72-140 | the locale becomes the merged tree, the report is exact, English is unchanged |
| LocaleDicts.GetNested | scripts/apply_translations.py:377-385 | the walk returns what stands at the path; a missing key and a stored null look alike |
| LocaleDicts.SetNestedIn | scripts/apply_translations.py:341-374 | setting in place, with a refusal or failure leaving the whole tree as it was |
| Translations.DottedInjective | scripts/_i18n_common.py:33-50 | paths of dot-free, non-empty segments never share a dotted key |
| Translations.FlattenKeys | scripts/_i18n_common.py:33-50 | exactly the dotted keys of all leaves |
| Translations.FindMissing | scripts/add_i18n_keys.py:40-44 | exactly the dotted keys of English leaves that are no dotted keys of locale leaves; with dot-free, non-empty segments exactly the English leaves the locale does not have as leaves |
| Translations.MergeIsClean | scripts/_i18n_common.py:111-137 | merging trees with dot-free, non-empty keys gives such a tree |
| Translations.StillMissingAfterAdding | scripts/add_i18n_keys.py:40-44 | for such trees, a dotted key is still missing after the add-keys merge if and only if it is an English leaf at which the locale held a dict |
| Translations.SetThenGet | scripts/apply_translations.py:341-385 | what was set is read back, and every path neither above nor below it is unchanged |
| Translations.SetFailsExactly | scripts/apply_translations.py:352-374 | refused if and only if a scalar stands on the way, raising if and only if a null does |
| Translations.ApplyOneKeeps | scripts/apply_translations.py:399-408 | one turn never changes a leaf that differs from English |
| Translations.ApplyKeepsTranslations | scripts/apply_translations.py:399-408 | applying any list of translations in any order never changes a human translation |
| Translations.ApplyTranslations | scripts/apply_translations.py:397-412 | the loop computes the whole application and counts exactly the entries that were applied, each judged by what the earlier ones left; a zero count means an unchanged locale |
| Translations.ApplyOneExactly | scripts/apply_translations.py:397-412 | if English has a value at the path, the locale nothing, null or that value, and no scalar or null stands above, the translation is read back there and nothing unrelated changes; it raises if and only if English has a value and a null stands above; in all other cases nothing changes |
| Translations.EveryTranslationApplied | scripts/apply_translations.py:397-412 | in any list of paths of which none is a prefix of another, every translation that the locale as it was can take is found in the result, and every other path of the list holds what it held |
| Translations.CountIsApplicable | scripts/apply_translations.py:397-412 | for such a list the count is the number of those translations |
| Translations.ApplyElsewhere | scripts/apply_translations.py:397-412 | a path unrelated to all the list's paths holds what it held |
| Translations.NoNullNoCrash | scripts/apply_translations.py:352-374 | in a locale without nulls no list of translations makes the loop raise |
| FallbackSplice.FormatRepo | scripts/populate_model_hashes.py:202-212 | the lines of one repository |
| FallbackSplice.FormatFallbackLiteral | scripts/populate_model_hashes.py:186-214 | the rendered literal of a manifest |
| FallbackSplice.OpeningAfterAnchor | scripts/populate_model_hashes.py:227-233 | the opening line can only be found behind the whole anchor comment |
| FallbackSplice.SyncKeepsOutside | scripts/populate_model_hashes.py:217-251 | the new text is the old one up to an opening line, the literal, and the old one behind the first closing line after it |
| FallbackSplice.SyncAgain | scripts/populate_model_hashes.py:217-251 | a second sync finds the same anchor and opening and replaces up to the first closing line of the new text |
| FallbackSplice.SyncIsFixedPoint | scripts/populate_model_hashes.py:217-251 | syncing twice is syncing once if and only if the literal holds its closing line only at its end |
| FallbackSplice.LiteralClosesOnce | scripts/populate_model_hashes.py:186-247 | rendered literals of single-line strings open as the search expects and close only at their end |
| FallbackSplice.SyncTwiceIsOnce | scripts/populate_model_hashes.py:217-251 | for manifests of single-line strings syncing is a fixed point on every source file |
| FallbackSplice.LiteralMirrorsManifest | scripts/populate_model_hashes.py:186-214 | two manifests whose pinned strings hold no quotes and no line ends render alike if and only if their pinned repositories agree, in order |
| FallbackReader.LiteralReadsBack | scripts/populate_model_hashes.py:186-214 | a reader of strings and braces gets back one dict with each pinned repository in order: its id, its revision, and each path with its own digest |
| FallbackReader.PinnedExactly | scripts/populate_model_hashes.py:164-201 | an entry is pinned if and only if it is a repository whose id is not qwen and does not start with an underscore and whose revision is neither empty nor local |
| FallbackReader.ExemptExactly | scripts/populate_model_hashes.py:202-212 | a file line ends in the lint exemption if and only if it is longer than 120 characters without it |
| FallbackSplice.QuotesBreakMirror | scripts/populate_model_hashes.py:206-210 | two manifests with quotes in their strings that differ and render alike |
| Ratchets.CountRatchet.Compare | scripts/_ratchet_common.py:126-282 | exit code 2, 0 or 1, and exactly the keys that grew |
| Ratchets.CountRatchet.Regenerate | scripts/_ratchet_common.py:288-376 | refuses exactly on a missing, corrupt or exceeded baseline without force, a rise being decided in numbers; otherwise, and always with force, counts are replaced and metadata kept |
| Ratchets.RewrittenLoads | scripts/_ratchet_common.py:126-376 | a rewritten baseline loads, with exactly the new total and floors |
| Ratchets.UnchangedIsAccepted | scripts/_ratchet_common.py:218-376 | the counts just written pass compare, are not refused, and writing them again changes nothing; force is never refused |
| Ratchets.TotalNeverGrows | scripts/_ratchet_common.py:320-376 | along any run of unforced regenerates from an accepted baseline all baselines load, the total never grows, metadata stays, and a passing check is at or below every earlier total |
| Ratchets.GuardSkippedExactly | scripts/_ratchet_common.py:323-360 | without force every count is accepted if and only if the file parses but holds no integer total |
| Ratchets.KeyFloorMayGrow | scripts/_ratchet_common.py:337-365 | a single floor can grow under an unforced regenerate |
| Ratchets.FloorsKeptExactly | scripts/_ratchet_common.py:218-365 | an unforced regenerate raises no floor if and only if compare would have passed the same counts |
| Ratchets.Summarize | scripts/ruff_ratchet_check.py:151-158 | the loop's counter is the tally of the report, the total counts code-less violations too |
| Ratchets.TrackedSum | scripts/ruff_ratchet_check.py:203-209 | the sum of the filtered counter is the number of violations with a code outside the F-rules |
| Ratchets.FilterAsDocumentedExactly | scripts/ruff_ratchet_check.py:192-207 | the filter leaves what the documented pyflakes filter leaves if and only if all F-codes of the report are pyflakes codes |
| Ratchets.OtherRuleIsDropped | scripts/ruff_ratchet_check.py:203-209 | a report without pyflakes codes whose only violation is dropped, so that the check right after the regenerate fails |
| Ratchets.RuffRegenerateCounts | scripts/ruff_ratchet_check.py:203-209 | the counts ruff's regenerate passes on |
| Ratchets.RuffFreshCheckPasses | scripts/ruff_ratchet_check.py:161-228 | right after a regenerate of the same report the check passes if and only if it holds no F-rule and no code-less violation |
| Ratchets.SlimRatchet.Run | scripts/slim_core_ml_ratchet_check.py:151-222 | exit status and new baseline of check and regenerate, the uncaught error on a root that is no object included |
| Ratchets.SlimWrittenLoads | scripts/slim_core_ml_ratchet_check.py:142-164 | a written baseline loads with the counted floors |
| Ratchets.SlimUnchangedIsWithin | scripts/slim_core_ml_ratchet_check.py:183-222 | the counts just written are within their own baseline |
| Ratchets.SlimFloorsNeverGrow | scripts/slim_core_ml_ratchet_check.py:183-206 | along unforced regenerates neither the total nor any library's floor grows, and what passes later passes earlier |
| Ratchets.CoverageRatchet.Compare | scripts/coverage_ratchet_check.py:186-240 | passes exactly from the floor minus the tolerance on; exit code 2 without a usable floor |
| Ratchets.CoverageRatchet.Regenerate | scripts/coverage_ratchet_check.py:243-309 | exit code 0 with force or without a floor; 1 on a corrupt floor; else 0 if and only if the measurement is at least the floor less 0.01, however far it rises; on 0 the floor becomes the rounded measurement and otherwise stays |
| Ratchets.HistoryFollows | scripts/coverage_ratchet_check.py:251-293 | over histories: every measurement at most 0.01 below the floor, any rise included, becomes the floor, rounded, and every other one leaves the floor as it is |
| Ratchets.CoverageDrift | scripts/coverage_ratchet_check.py:207-293 | n accepted regenerates lower the floor by at most n times the tolerance and rounding error, by n times the tolerance alone from a rounded floor |
| Ratchets.HistoryDrift | scripts/coverage_ratchet_check.py:251-293 | the same bounds for histories with refused attempts, counting only the accepted ones |
| Ratchets.CoverageDriftIsReached | scripts/coverage_ratchet_check.py:243-293 | the bound is reached for every n |
| Ratchets.CoverageGuardSkippedExactly | scripts/coverage_ratchet_check.py:251-284 | without force every measurement is written if and only if the file is missing or holds no number |
| Ratchets.FloorKeptExactly | scripts/coverage_ratchet_check.py:251-293 | an unforced regenerate keeps the floor, however ties are rounded, if and only if it is refused or the measurement is above the floor, rounded up, less half a step |
| Ratchets.FloorsNeverDropExactly | scripts/coverage_ratchet_check.py:251-293 | over all histories of given measurements, refused ones included, the floor never drops if and only if no measurement can lower the floor it meets |
| LogNames.CandidateInjective | scripts/diagnostics.py:137-141 | different indices give different candidate names, for every name |
| LogNames.CandidateReads | scripts/diagnostics.py:137-141 | a candidate is the name with a dash and the decimal index behind its first .log, or with .log, dash and index behind a name that has none |
| LogNames.UniqueZipName | scripts/diagnostics.py:124-141 | the search ends for every name and finite taken set, within one index more than there are taken names, at the first free candidate |
| LogNames.FreshNameUnique | scripts/diagnostics.py:124-141 | the chosen name is determined by name and taken set |
| LogNames.AddToBundle | scripts/diagnostics.py:177-183 | adding a log under a fresh name keeps every earlier one |
| LogNames.CollectLogs | scripts/diagnostics.py:144-184 | for every directory listing each collected log is in the bundle with its own content under its own name |
| LogNames.EligibleExactly | scripts/diagnostics.py:144-184 | a directory entry is collected as often as it is listed if it is a regular file whose name does not end in .lock, and never otherwise |
| LogNames.EveryLogIsShipped | scripts/diagnostics.py:144-184 | the tail of every such file is in the bundle |
| LogNames.DistinctNamesKept | scripts/diagnostics.py:144-184 | logs with distinct names keep their on-disk names |
| LogOrder.SortedExactly | scripts/diagnostics.py:144-184 | for every listing sorted by name, the collected names are sorted if and only if there is no legacy log or the listing fits behind it: its leading names may be those that collisions push along, the next must sort behind them |
| LogOrder.ChainPushed | scripts/diagnostics.py:135-183 | sources named lausu.log, lausu.log-2, lausu.log-2-2 and so on each get the next of these names |
| LogOrder.LegacyComesFirst | scripts/diagnostics.py:168-184 | the usual listing with the Rust host's log comes out unsorted |
| Percentiles.CountsAt | bench/bench_transcription.py:226-241 | in sorted samples, position and counts bound each other |
| Percentiles.NearestRankSplits | bench/bench_transcription.py:226-241 | for the whole documented range: the result is the one sample with at least pct percent of the samples at or below it and fewer below it, and the smallest sample for 0 |
| Percentiles.FloorIndexVersusNearest | bench/bench_ipc.py:64-69 | the floor-index variant is exactly one rank higher if n times pct is divisible by 100 and pct is below 100, and the same rank otherwise |
| Percentiles.FloorRankSplits | bench/bench_ipc.py:64-69 | the result is the one sample with more than pct percent of the samples at or below it and at most pct percent below it, and the largest sample from 100 on |

## Left out

- JSON decoding of notification payloads, show durations, poisoned locks and the operating-system actions behind an intent.
- GNOME, KDE and X11 branches of the installer and their restores; a second install, which replaces the saved original in the manifest; ownership, missing home directories and read or write failures.
- XkbOptions.GsettingsRoundTrip: options containing quotes, backslashes or line ends, because `_format_gsettings_array` does not escape them; of `ast.literal_eval` only lists of escape-free single-quoted strings are read as literals, every other input takes the fallback.
- SwayRoundTrip.ReplaceModeRoundTrip: texts are taken after `read_text` has translated line ends, so a file with CRLF line ends comes back with newlines.
- Pixel data and all chunks between the checked ones; `zlib.crc32` is any function from bytes to numbers.
- The icon list of `--check-icons`, its lookup of expected sizes, and messages.
- StubFiles.StubTree.Clean: failures of stat, read, write and unlink, permission bits, and removing empty directories.
- LinkerWrap.PreserveArtifacts: whether copying an artifact succeeds is a parameter; staging of the file, text-mode translation, the computation of the scratch directory, process start and clean-up are not modelled.
- LinkerWrap.OutputLeadsToOwnArtifacts: which file a path names (case and all) is a parameter; artifacts that lie in the scratch directory themselves are taken by path, whatever an earlier copy left there.
- LinkerWrap.CopiedLineLeadsToCopy: like the other lemmas on copied lines, assumes a scratch directory whose path does not itself begin with `-Wl,`; it is absolute in the program.
- LocaleDicts.MergeEnIntoLocale: English and locale do not share dict objects beforehand, as with freshly loaded files; a second merge of the very same objects is covered on tree values only (`LocaleTree.MergeIdempotent`, `SecondMergeAdds`).
- LocaleDicts.SetNestedIn: written as a recursion where the source walks down in a loop; effects and results are the same.
- Translations.ApplyTranslations: works on tree values; key paths are given split at their dots, and saving files and printing are not modelled.
- Translations.FindMissing: relates keys to leaves only for segments that are non-empty and free of dots, since dotted keys are ambiguous otherwise.
- Fetching hashes and writing `model_hashes.json`; security.py is not part of this model, so the splice is proved for every source text.
- FallbackSplice.LiteralMirrorsManifest: strings with quotes or line ends are left out, because the renderer does not escape them and the mirror fails (`QuotesBreakMirror`).
- FallbackSplice.SyncTwiceIsOnce: needs that no pinned string contains a newline; `SyncIsFixedPoint` says what happens in general.
- Ratchets.CountRatchet.Compare: rendered tables and messages; JSON booleans, which Python counts as integers, are not numbers here.
- Ratchets.SlimRatchet.Run: a library floor that is not an integer is treated as an unreadable baseline.
- Ratchets.CoverageRatchet.Regenerate: real numbers instead of floats; the provenance fields rewritten with the date.
- Percentiles.NearestRankSplits: real numbers instead of floats, so the rounding of the product is not modelled.
- LogNames.CollectLogs: names are compared exactly, so a file system that ignores case, where `Lausu.log` and `lausu.log` are one file, is not covered.
- LogOrder.SortedExactly: names are compared by code points, as paths are outside Windows; sorting the listing and cutting logs to their tails are inputs.
- Backend modules (sidecar supervisor, streaming assembler, rate limiter), user interface, publishing scripts and benchmark loops.
