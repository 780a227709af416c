# konCePCja: verified models of its file, flux and script engines

konCePCja emulates the Amstrad CPC. This project models the parts of it that
carry promises over whole runs or whole files, in the form the program gives
them, and proves those promises.

* **The disc file system** (`Disc`, `Directory`, `CpmFiles`, `Amsdos`, `Drive`;
  proofs in `CpmProofs`, `CpmRuns`, `CpmAlias`). A DATA-format disc of 180 blocks of 1 KiB
  with 64 directory entries. A disc is a map from (track, sector id) to sector
  contents; any sector may be missing. `Drive` is the object that changes.
  `DiscImage`, `DiscFiles` and `DiscWrites` state the same operations on the bytes
  of a complete disc, in the offsets of the format; `CpmNames` says how names are stored.
* **Flux and HFE** (`Bitcells`, `Flux`, `Scp`, `ScpReader`, `Hfe`, `HfeProofs`, `HfeFormat`;
  the program's loops on packed bytes in `FluxCodecs`, `HfeCodecs`). Bitcells to
  flux words and back, the SuperCard Pro container, HFE v1 images.
* **IPF tracks** (`Mfm`, `MfmLaws`, `MfmPieces`, `IpfGap`, `IpfFill`, `IpfTrack`, `IpfLaw`,
  `IpfRing`, `IpfScanner`, `IpfProofs`; the
  program's objects in `IpfCodecs`, `IpfImage`, `IpfReader`). Assembly of a
  track from parsed blocks, and the cyclic reader. Weak bits are an arbitrary
  sequence. The assembly is the stream as it is put together; the track is the
  ring of cells the decoder returns, the assembly turned to the index.
* **The configuration store** (`ConfigText`, `ConfigStore`, `ConfigProofs`,
  `ConfigRoundTrip`, `Config`). `ConfigLines` is the syntax of its lines, `ConfigKept`
  and `ConfigLayout` say what a saved file keeps of the text and where it adds.
* **Breakpoint expressions** (`Expr`, `ExprProofs`, `ExprParser`). `ExprGrammar` is
  the grammar as derivations, `ExprTokens` the spellings of the tokens.
* **Autotype** (`Autotype`, `AutotypeText`, `AutotypePrint`, `AutotypeQueue`), **cartridges**
  (`Cartridge`) and **data areas** (`DataAreas`).

`Bits` gives bytes and their bitwise operators a meaning as eight cells, `Bytes`
lays numbers out in them, `Cyclic` has the arithmetic of circular tracks, `Wrappers` an option type.
Throughout, pure functions specify, methods and classes follow the program's
loops and are proved to compute those functions, and lemmas state what the
functions guarantee.

## Where code and documentation differ

The models follow the code.

* `src/hfe_write.h:9-10` promises that reading a written image reproduces the
  tracks exactly. The track length field has 16 bits and is cut without a check:
  `HfeProofs.HfeRoundTripExactly`.
* `src/hfe.h:59` says that only 250 kbit/s is accepted; integer division also
  lets 247 to 249 through: `Hfe.AcceptedBitRates`.
* `src/hfe.h:56-57` says that the HFE v3 signature counts as not HFE; it is reported
  as unsupported.
* `src/hfe_write.cpp:117-120` says that rounding recovers the original cells.
  Adding half a cell overflows 32 bits for one shape of revolution:
  `Flux.FluxRoundTrip`.
* `src/ipf_decode.cpp:634` calls the pad of an odd gap a clocked 0. It is one
  plain 0 cell, the carried data bit is not updated, and four 0 cells can result:
  `IpfLaw.CodedTrackGapsExactly`, `IpfLaw.OddGapExample`.
* Nothing carries a data bit from the end of the assembly to its start, so a track
  can break the law of the code where the two meet, without any odd gap:
  `IpfRing.TrackLawAround`, `IpfRing.OnesMeetExample`, `IpfRing.EndsMeetExample`.
* `src/autotype.h:46-47` says that a tick returns true if there is more to do.
  `Autotype.AnswerExact` gives the cases in which it returns true and there is not.
* The "empty ~~ tag" error of `src/autotype.cpp:51-53` cannot occur, since a
  doubled tilde is taken as a literal one before; the parser model has no such error.
* `src/cartridge.cpp:102-108` compares a declared total that includes pad bytes
  with an offset that does not, so a well-formed file with more than eight odd
  chunks is refused: `Cartridge.LoadsExactly`.
* A file name byte above 127 is stored masked but looked up unmasked, so the file
  is not found under its own name (`CpmProofs.WriteReadRoundTrip`), the check for
  an existing file passes, and the new entries are taken for extents of a file of
  user 0 that already bears the masked name, which is damaged:
  `CpmAlias.TouchedFileGrows`, `CpmAlias.AliasDamages`, with the exact condition in
  `CpmAlias.WriteKeepsExactly`. Empty contents are "written" without leaving an entry.
* Nothing checks that a data area ends behind its start. A backward mark can hide
  addresses of areas marked before it and after it: `DataAreas.MarkExactly`,
  `DataAreas.LostAddress`.
* `src/configuration.cpp:37-40` says that writer and reader agree about which lines
  hold a value, so that a save leaves no stale one behind. A line with other text
  before its '=' is rewritten but parses as before: `ConfigText.RewriteIgnored`,
  `ConfigRoundTrip.StaleExample`, with the exact condition in
  `ConfigRoundTrip.SaveThenLoad`.

## Model

| member | source | states |
|---|---|---|
| `CpmProofs.WriteReadRoundTrip` | src/disk_file_editor.cpp:347-415 | After a successful write the file reads back as its contents padded with 0xE5 to whole 128-byte records if and only if the contents are not empty and the name is ASCII; otherwise it is not found. For every layout of free blocks and any number of extents. |
| `CpmProofs.AliasedName` | src/disk_file_editor.cpp:147-186 | A name with bytes above 127 is stored under its masked name: if no file of user 0 bore that name, it answers to it, and hides files of other users that stand behind the first free entry. |
| `CpmRuns.RunSafe` | src/disk_file_editor.cpp:530-689 | Over every run of writes and deletes, successful or not: no block is referenced twice by live entries or lies outside 2..179, and every file that no operation reaches on the disc it finds reads back the same. |
| `CpmRuns.AsciiRunSafe` | src/disk_file_editor.cpp:530-689 | In particular, with ASCII names every file under another name reads back the same after any run. |
| `CpmRuns.SparedUndisturbed` | src/disk_file_editor.cpp:530-689 | Operations whose names, masked or not, differ from a file's never reach it. |
| `CpmRuns.StepSafe` | src/disk_file_editor.cpp:530-689 | The same for one operation: soundness is kept, and a file it does not reach reads the same. |
| `CpmRuns.WrittenFileSurvives` | src/disk_file_editor.cpp:530-689 | A written file still reads back whole after any later run that does not reach it. |
| `CpmRuns.WriteAllocates` | src/disk_file_editor.cpp:565-655 | A successful write adds exactly its newly allocated blocks to the references, each once, and nothing else changes hands. |
| `CpmRuns.WriteSound` | src/disk_file_editor.cpp:530-655 | A write, successful or not, keeps the directory free of shared and out-of-range blocks. |
| `CpmRuns.WriteKeepsOthers` | src/disk_file_editor.cpp:530-655 | A write changes no file its new entries do not reach: any under another masked name, and under the same one a file of another user in front of the first free entry. |
| `CpmRuns.WriteSucceedsExactly` | src/disk_file_editor.cpp:530-655 | A write succeeds if and only if there is a disc, the name is good and free, the directory is readable, and there are free blocks and entries enough, all those blocks on the disc. |
| `CpmAlias.WriteKeepsExactly` | src/disk_file_editor.cpp:530-655 | For every name that is free or belongs to a readable file of user 0 with sound record counts: it reads as before if and only if the write does not touch it, which the disc alone tells before the call. |
| `CpmAlias.TouchedFile` | src/disk_file_editor.cpp:175-226 | A name that a write touches reads a file of user 0 whose extents are those it had together with all the new entries. |
| `CpmAlias.TouchedFileGrows` | src/disk_file_editor.cpp:347-415 | Such a file, readable and with sound record counts before, reads longer than before or not at all. |
| `CpmAlias.TouchedFileReads` | src/disk_file_editor.cpp:347-415 | It is readable, and so longer, if all its blocks are on the disc. |
| `CpmAlias.WrittenOrdinary` | src/disk_file_editor.cpp:612-648 | Every file the program writes under an ASCII name is of user 0 and has sound record counts. |
| `CpmAlias.AliasDamages` | src/disk_file_editor.cpp:547-563 | On a formatted disc, writing A and then a name that differs from it only in the masked bit succeeds twice, and A no longer reads as written. |
| `CpmRuns.WriteFailureHarmless` | src/disk_file_editor.cpp:530-655 | On every error return the directory is unchanged and every file reads as before; the late "failed to write directory" exit cannot be reached, and only a failed block write touches the disc at all. |
| `CpmRuns.DirectoryReady` | src/disk_file_editor.cpp:573-653 | Once the early checks have passed, entries for all extents can be created: the late "directory full" exit cannot be reached. |
| `CpmRuns.DeleteFrees` | src/disk_file_editor.cpp:657-689 | A delete releases exactly the references of the entries it deletes, and makes exactly their blocks free. |
| `CpmRuns.DeleteKeepsOthers` | src/disk_file_editor.cpp:657-689 | A deleted file is gone and no file of another name is affected. |
| `CpmRuns.DeleteKeepsExactly` | src/disk_file_editor.cpp:657-689 | A file reads as before a delete if and only if the delete fails or names another file. |
| `CpmRuns.DeleteSucceedsExactly` | src/disk_file_editor.cpp:657-689 | A delete succeeds if and only if there is a disc, the name is good, the directory is readable and has the file. |
| `CpmRuns.DeleteSound` | src/disk_file_editor.cpp:657-689 | A delete keeps the directory free of shared and out-of-range blocks. |
| `CpmRuns.DeleteFailureHarmless` | src/disk_file_editor.cpp:657-689 | A failed delete changes nothing at all; a directory that could be read can be written back. |
| `CpmProofs.StoreFacts` | src/disk_file_editor.cpp:565-655 | What a successful store leaves on the disc: the data in the allocated blocks, the new entries in deleted slots, every other block and entry as it was. |
| `CpmProofs.ReadBack` | src/disk_file_editor.cpp:396-414 | Reading blocks that hold padded chunks of some data, to the recorded size, gives the data padded to whole records. |
| `CpmProofs.NewEntriesSize` | src/disk_file_editor.cpp:612-648 | The record counts of the new entries add up to the size rounded to records, for any number of extents. |
| `CpmProofs.NewEntriesBlocks` | src/disk_file_editor.cpp:612-648 | The new entries point at exactly the allocated blocks, in order. |
| `CpmProofs.NewEntriesAscending` | src/disk_file_editor.cpp:612-648 | The new entries carry ascending extent numbers. |
| `Directory.SortExtentsSorts` | src/disk_file_editor.cpp:188-226 | Collecting extents sorts them by extent number and loses none. |
| `Directory.FreeFromSpec` | src/disk_file_editor.cpp:491-518 | The free blocks are exactly the unreferenced ones of 2..179, each once. |
| `DiscBlocks.PutBlockFrame` | src/disk_file_editor.cpp:77-98 | Writing a block changes that block to the given bytes and no other block. |
| `CpmFiles.PutDirectoryFrame` | src/disk_file_editor.cpp:100-121 | A directory written back is read back as written, and no data block changes. |
| `DiscImage.BlockInImage` | src/disk_file_editor.cpp:45-72 | On a complete disc, taken as tracks 0 to 39 in order, each its sectors C1 to C9 in order, block b is bytes 1024b to 1024b+1023. |
| `DiscImage.PutBlockInImage` | src/disk_file_editor.cpp:77-95 | Writing block b replaces exactly those bytes of the disc and no other. |
| `DiscImage.BlockThere` | src/disk_file_editor.cpp:52-68 | On any disc a block is there if and only if it is below 180 and both sectors are there in which its halves would lie. |
| `DiscImage.EntryInImage` | src/disk_file_editor.cpp:100-106 | Directory entry i is bytes 32i to 32i+31 of the disc. |
| `DiscFiles.FileInImage` | src/disk_file_editor.cpp:347-415 | Reading any file of any complete disc: the entries of the first match's user and name, by ascending number in bytes 12 and 14, name in bytes 16 to 31 the kilobytes the file's bytes lie in, and byte 15 of the last says where the file ends. |
| `DiscFiles.MissingExactly` | src/disk_file_editor.cpp:370-392 | A file is not found if and only if no entry of a user up to 15 bears its name, attribute bits aside. |
| `DiscFiles.SortedStrict` | src/disk_file_editor.cpp:332-335 | Sorting entries of different extent numbers gives their one ascending order. |
| `DiscWrites.WrittenImage` | src/disk_file_editor.cpp:565-655 | Every byte of a complete disc after a successful write: the k-th free block holds the k-th kilobyte of the contents filled up with E5, the x-th vacant entry is that of extent x in every field, and no other byte has changed. |
| `DiscWrites.WriteOutcome` | src/disk_file_editor.cpp:530-655 | Which error a write on a complete disc reports, or none, read off the bytes of the disc. |
| `DiscWrites.DeletedImage` | src/disk_file_editor.cpp:657-689 | A delete turns the first byte of every entry in use that bears the name into E5 and changes no other byte of the disc. |
| `DiscWrites.DeleteOutcome` | src/disk_file_editor.cpp:657-689 | Which error a delete on a complete disc reports, or none. |
| `CpmNames.NameParses` | src/disk_file_editor.cpp:147-170 | A name is accepted if and only if at most eight bytes stand before its first dot and at most three behind it; both parts are stored in upper case and filled up with spaces. |
| `CpmNames.CaseBlind` | src/disk_file_editor.cpp:150-152 | Names that differ in letter case only parse alike. |
| `CpmNames.StoredUpper` | src/disk_file_editor.cpp:150-152 | No stored name has a lower-case letter. |
| `CpmNames.ShownParses` | src/disk_file_editor.cpp:147-170 | A stored name shown as name.ext parses to itself. |
| `Drives.Drive.ReadBlock` | src/disk_file_editor.cpp:52-75 | A block is read from its two sectors; it fails exactly when one is missing. |
| `Drives.Drive.WriteBlock` | src/disk_file_editor.cpp:77-98 | The two sectors of the block take the bytes; the disc becomes the specified one also when a sector is missing. |
| `Drives.Drive.LoadDirectory` | src/disk_file_editor.cpp:100-109 | The 64 entries of the two directory blocks, or failure. |
| `Drives.Drive.StoreDirectory` | src/disk_file_editor.cpp:111-121 | The directory blocks become the given entries. |
| `Drives.ComputeFileSize` | src/disk_file_editor.cpp:188-226 | The size is 16 KiB for each extent but the last in order, plus the last one's records. |
| `Drives.GetFileBlocks` | src/disk_file_editor.cpp:303-345 | The non-zero pointers of the extents in order. |
| `Drives.FindFreeBlocks` | src/disk_file_editor.cpp:491-518 | Ascending list of exactly the blocks no live entry references. |
| `Drives.FindFreeEntry` | src/disk_file_editor.cpp:520-528 | The first deleted entry, or -1 if there is none. |
| `Drives.CreateEntries` | src/disk_file_editor.cpp:612-648 | Entries extent by extent, each into the first deleted slot. |
| `Drives.Drive.ReadNamedFile` | src/disk_file_editor.cpp:347-415 | The method returns what the specification reads, with the same errors, and changes nothing. |
| `Drives.Drive.WriteNamedFile` | src/disk_file_editor.cpp:530-655 | The disc and the error are those of the specified write, header included. |
| `Drives.Drive.DeleteNamedFile` | src/disk_file_editor.cpp:657-689 | The disc and the error are those of the specified delete. |
| `Amsdos.HeaderRoundTrip` | src/disk_file_editor.cpp:417-489 | A header made for a file is recognised, with the type, addresses and length it was made from. |
| `Amsdos.HeaderLayout` | src/disk_file_editor.cpp:444-487 | Every byte of the header: user 0, the name in bytes 1 to 11, the type, the addresses, the length twice, the checksum, and zeros in all the others. |
| `Amsdos.MakeHeader` | src/disk_file_editor.cpp:444-489 | The 128 header bytes, checksum over the first 67 included. |
| `ExprProofs.PrintParse` | src/expr_parser.cpp:799-823 | Every tree with known names (functions in lower case) and 32-bit literals prints to a text that parses to that tree. |
| `ExprProofs.PrintParseExactly` | src/expr_parser.cpp:527-543 | And a tree comes back from its text only if it is such a tree. |
| `ExprProofs.ParsePrintParse` | src/expr_parser.cpp:527-543 | Whatever text parses, printing its tree and parsing again gives the same tree. |
| `ExprProofs.LexPrint` | src/expr_parser.cpp:45-239 | The printed text of a tree, in front of any text that ends a token, lexes to the tree's tokens: no operator, sign or identifier runs into its neighbour. |
| `ExprProofs.ParseAt` | src/expr_parser.cpp:317-490 | At every grammar level a tree's tokens parse to the tree and leave the rest. |
| `ExprGrammar.ParseExactly` | src/expr_parser.cpp:317-535 | A text is accepted with a tree if and only if its tokens have a derivation from the grammar that means this tree and its names are known: operators of a level associate to the left, comparisons do not chain, signs and 'not' bind tightest. |
| `ExprGrammar.Unambiguous` | src/expr_parser.cpp:316-490 | No text has derivations of different meaning. |
| `ExprGrammar.SparseParses` | src/expr_parser.cpp:317-490 | Every well-formed tree written with parentheses only where precedence or associativity asks for them parses to that tree. |
| `ExprGrammar.LevelComplete` | src/expr_parser.cpp:317-445 | At every level the text of a derivation is taken whole, up to a token that cannot go on, and means what the derivation means. |
| `ExprGrammar.LevelSound` | src/expr_parser.cpp:317-490 | At every level the tokens taken have a derivation of that level with the meaning returned. |
| `ExprGrammar.OperandEnds` | src/expr_parser.cpp:49-66 | Every operand whose names are not operator words ends with a token behind which '&' and '%' are operators. |
| `ExprTokens.TokenExactly` | src/expr_parser.cpp:68-238 | The tokenizer takes a piece for a token if and only if it is one of the token's spellings, prefixed numbers, two-character signs and words included, and no longer piece spells any token, with "0x" always a prefix. |
| `ExprProofs.WellFormedNames` | src/expr_parser.cpp:504-525 | The name check passes every tree with known names. |
| `ExprParser.Parser.Advance` | src/expr_parser.cpp:45-239 | The tokenizer, run step by step with its carried state, yields the tokens of the text. |
| `ExprParser.Parser.ParseAtLevel` | src/expr_parser.cpp:317-428 | The level loops build the tree of the grammar functions, or fail with their message. |
| `ExprParser.Parser.ParseUnaryExpr` | src/expr_parser.cpp:430-446 | The same for prefix operators. |
| `ExprParser.Parser.ParseAtomExpr` | src/expr_parser.cpp:448-490 | The same for operands, calls and parentheses. |
| `ExprParser.Parse` | src/expr_parser.cpp:527-543 | The whole parser gives the result of the specification. |
| `ConfigRoundTrip.SaveThenLoad` | src/configuration.cpp:95-217 | A text parsed, changed by any sets of well-formed keys and values, and written out parses to exactly the same section/key/value map, if and only if for every key the last line that carries it in its section has nothing but blanks before its '=' or already parses to the value. |
| `ConfigRoundTrip.PlainFaithful` | src/configuration.cpp:60-85 | Where nothing but blanks precedes any '=', that is so for every configuration, with repeated sections, repeated keys and inline comments. |
| `ConfigRoundTrip.StaleExample` | src/configuration.cpp:37-40 | A line `k a=b`, k set to c and saved: the file does not parse to the configuration. |
| `ConfigRoundTrip.OutputLast` | src/configuration.cpp:143-217 | What the written lines last assign to any key: its value, or what stands before the '=' of the last line that carries it. |
| `ConfigRoundTrip.TextJoin` | src/configuration.cpp:95-131 | Lines written one a line are read back as those lines. |
| `ConfigKept.OutputKeeps` | src/configuration.cpp:143-217 | Over every text and configuration the saved file holds all lines of the text in order, changed in nothing but the value of a configured key, and beside them only settings and headers of the configuration. |
| `ConfigKept.RewriteReplaces` | src/configuration.cpp:60-85 | A rewritten line agrees with the old one up to where its value started and from the blanks before its '#' on, with the new value between. |
| `ConfigLayout.OutputLayout` | src/configuration.cpp:156-216 | Exactly what is written, part by part of the text: its lines with their values replaced; behind its last non-blank line, where the section first ends, the settings no line carries, by ascending key; at the end the sections the text never had. |
| `ConfigLayout.PartsWhole` | src/configuration.cpp:186-196 | The parts are the whole text, each but the first started by the header that names its section, and no other line of a part names one. |
| `ConfigStore.InOrderAscends` | src/configuration.cpp:172 | Added keys and sections ascend. |
| `ConfigLines.LineReads` | src/configuration.cpp:104-128 | A line of blanks, a key, a separator, a value, spaces and a tail behind a tab, '=' or '#' assigns that value to that key. |
| `ConfigLines.LineSplits` | src/configuration.cpp:104-128 | And every line that assigns anything is such a line. |
| `ConfigLines.SectionReads` | src/configuration.cpp:29-35 | A header, whatever follows it, names what stands between its first brackets and the next. |
| `ConfigText.RewriteParses` | src/configuration.cpp:62-87 | A rewritten line parses to the same key and the new value, comment kept. |
| `ConfigText.RewriteIgnored` | src/configuration.cpp:62-87 | When other text precedes the '=' of a line, rewriting it does not change what it parses to. |
| `ConfigText.PairLineParses` | src/configuration.cpp:143-184 | A freshly written key=value line parses to that pair. |
| `ConfigText.HeaderLineParses` | src/configuration.cpp:30-39 | A freshly written header names its section. |
| `ConfigText.ParsedGood` | src/configuration.cpp:95-131 | What a well-formed line assigns is again a well-formed key and value. |
| `ConfigProofs.StreamLast` | src/configuration.cpp:143-217 | From every point of the rewriting loop, what each key will last be assigned: by the last line still to come that carries it, else by what is pending, else by what is buffered. |
| `ConfigProofs.ParseLast` | src/configuration.cpp:95-131 | Parsing leaves every key at the last value assigned to it in its section, repeated sections included. |
| `Config.ReadsSeeLastSet` | src/configuration.cpp:236-272 | After any sequence of sets a read returns the last value set for the key. |
| `Config.EchoGuard` | src/configuration.cpp:231-272 | A key overridden at launch keeps its persisted value until the first set that differs from the override, and from then on persists the last value set; other keys always do. |
| `Config.SessionSaved` | src/configuration.cpp:95-272 | A text parsed, overrides forced at launch, any sets of well-formed keys and values, and the file written out: it parses to exactly the persisted settings, under the same condition and only then. |
| `Config.Config.ParseText` | src/configuration.cpp:95-131 | The parse loop keeps the lines and collects the map of the specification. |
| `Config.Config.SetOverrides` | src/configuration.cpp:231-234 | Both override layers become the given map. |
| `Config.Config.GetString` | src/configuration.cpp:236-255 | The override if there is one, else the stored value, else the default. |
| `Config.Config.SetString` | src/configuration.cpp:257-272 | The three layers change as specified. |
| `Config.Config.Save` | src/configuration.cpp:143-217 | The writing loop, with its buffer and pending map, yields the specified lines. |
| `Flux.FluxRoundTrip` | src/hfe_write.cpp:139-155 | For every revolution whose ticks fit 32 bits the emitted words read back as the cells up to the last 1, if and only if it is not a revolution of 53687091 cells with its only 1 in the last. |
| `Flux.OneWordPerTransition` | src/ipf.cpp:120-140 | The number of non-zero words of a revolution is its number of 1 cells. |
| `Flux.IntervalNonZero` | src/ipf.cpp:127-136 | An interval ends in its only non-zero word: the shave at exact multiples of 65536 leaves no spurious zero word. |
| `Flux.IntervalTicks` | src/ipf.cpp:125-136 | An interval is zero words of 65536 ticks each and one other word, together the ticks asked for, one less exactly at multiples of 65536. |
| `Flux.TransitionTicks` | src/ipf.cpp:120-139 | A transition takes 80 ticks for each cell since the last; cells without one leave no word. |
| `Flux.NearestCell` | src/hfe_write.cpp:148-151 | An interval is rounded to the nearest number of cells, halves up, and never to none. |
| `Flux.IntervalRead` | src/hfe_write.cpp:139-153 | In any words whatever, a run of zero words and the next word are one interval. |
| `Scp.SlotsPointAtRecords` | src/ipf.cpp:167-176 | Each formatted cylinder's even slot holds the position of its own TRK record; odd and absent slots are zero. |
| `Scp.RevolutionInFile` | src/ipf.cpp:176-186 | A revolution's entry holds its ticks, word count and data offset, and the words it points at are its flux words, within the file. |
| `Scp.WordRangesDisjoint` | src/ipf.cpp:167-187 | The word ranges of different revolutions do not overlap. |
| `Scp.ChecksumStored` | src/ipf.cpp:189-191 | The stored checksum is the byte sum from 0x10 on, modulo 2^32. |
| `ScpReader.FileOpens` | src/hfe_write.cpp:98-115 | A written container opens as a non-legacy one with all its cylinders. |
| `ScpReader.ContainerRoundTrip` | src/hfe_write.cpp:121-155 | Reconstructing a track from a written container gives revolution 0 up to its last 1, padded to a byte. |
| `ScpReader.HeaderFields` | src/ipf.cpp:153-165 | The first twelve bytes of the container, the number of revolutions of every formatted cylinder and the last side-0 slot among them. |
| `ScpReader.RecordFields` | src/ipf.cpp:171-178 | The slot of a formatted cylinder points at TRK and the slot number, with room for as many entries as the header announces. |
| `ScpReader.EntryFields` | src/ipf.cpp:179-186 | Every entry the header announces holds its revolution's ticks, its number of words and their place, and there the words are, high byte first. |
| `ScpReader.RevolutionsReadBack` | src/hfe_write.cpp:121-155 | Every revolution the header announces, read as the program reads revolution 0, comes back up to its last 1, padded to a byte. |
| `ScpReader.OpensExactly` | src/hfe_write.cpp:98-115 | Which containers open at all, which of them are legacy ones, and where their cylinders end, in the bytes of the file. |
| `FluxCodecs.PushFluxRev` | src/ipf.cpp:120-140 | The emitter appends the words of the packed cells and counts them. |
| `FluxCodecs.ScpFromMfmTracks` | src/ipf.cpp:144-193 | The writer, growing and patching one buffer, yields the specified file, or nothing on bad geometry. |
| `FluxCodecs.ReconstructRev` | src/hfe_write.cpp:121-155 | The reader's loop yields the specified cells, packed. |
| `FluxCodecs.OpenContainer` | src/hfe_write.cpp:98-115 | Legacy detection and cylinder count as specified. |
| `HfeProofs.HfeRoundTrip` | src/hfe_write.h:5-10 | For 1 to 84 cylinders of whole bytes, one present, each interleaved track at most 65535 bytes, reading the written image gives exactly the flux container of each cylinder's revolution 0. |
| `HfeProofs.HfeRoundTripExactly` | src/hfe_write.cpp:205-211 | And only then, block numbers that pass 16 bits included: a longer track has its length cut to 16 bits and comes back different. |
| `HfeProofs.FitsExactly` | src/hfe_write.cpp:52-65 | A track fits the length field exactly up to 32768 bytes of side 0. |
| `HfeProofs.TooLong` | src/hfe.cpp:96-123 | No image at all, however made, reads as a track of more cells than that. |
| `HfeProofs.OversizeExample` | src/hfe_write.cpp:205-211 | A track of 262152 cells is written and does not come back. |
| `HfeProofs.HfeReadsStored` | src/hfe_write.cpp:189-213 | For any track lengths, what reading gives: the container of the tracks as the image holds them. |
| `Hfe.Side0RoundTrip` | src/hfe_write.cpp:33-46 | Flipping the bit order back restores the cells. |
| `Hfe.InterleaveRoundTrip` | src/hfe_write.cpp:52-65 | Taking side 0 out of the interleaved track restores its bytes. |
| `Hfe.AcceptedBitRates` | src/hfe.cpp:64-67 | The reader accepts the bit rates 247 to 250, not 250 alone. |
| `HfeFormat.HeldConverts` | src/hfe.cpp:69-146 | An image in the format, each cell of a track in its own bit, least significant first, 256 bytes of every 512, becomes the flux container of those tracks. |
| `HfeFormat.ConvertsHeld` | src/hfe.cpp:69-146 | And every image that is accepted is in the format. |
| `HfeFormat.TracksRead` | src/hfe.cpp:97-140 | The tracks read are exactly those the image holds bit by bit. |
| `HfeFormat.WrittenImage` | src/hfe_write.cpp:159-213 | A written image whose tracks fit: the header byte for byte, and each cell of revolution 0 of each cylinder in its bit. |
| `HfeCodecs.PackSide0` | src/hfe_write.cpp:33-46 | The bit loop packs the cells least significant first. |
| `HfeCodecs.InterleaveSides` | src/hfe_write.cpp:52-65 | The chunk loop interleaves as specified. |
| `HfeCodecs.HfeFromMfmTracks` | src/hfe_write.cpp:159-213 | The writer's loop yields the specified image or error. |
| `HfeCodecs.ExtractSide0` | src/hfe.cpp:109-123 | The walk over the combined bytes takes out side 0. |
| `HfeCodecs.RepackSide0` | src/hfe.cpp:125-139 | The bit loop restores the cells most significant first. |
| `HfeCodecs.HfeToScp` | src/hfe.cpp:69-146 | The reader yields the specified container or error. |
| `IpfProofs.ElementReadsBack` | src/ipf_decode.cpp:728-753 | In every accepted track, reading where a whole-byte data element was laid down, with the carried bit known, returns exactly its bytes, each with a zero clock-error byte, wherever the track was turned and around its end. |
| `IpfProofs.ElementStands` | src/ipf_decode.cpp:588-659 | In every accepted track the cells of each element of each kind stand where the stream had got to, turned with the track: raw samples as they are, data and weak bits encoded after the carried bit. |
| `IpfProofs.GapStands` | src/ipf_decode.cpp:628-659 | And behind each block's data its gap fill encoded, with one 0 cell if the count is odd. |
| `IpfProofs.ElementCarries` | src/ipf_decode.cpp:85-96 | Behind an element the carried bit is its last cell, raw or coded. |
| `IpfProofs.GapCarries` | src/ipf_decode.cpp:629-636 | Behind a gap it is the last coded cell, not the odd 0 cell. |
| `IpfProofs.TracksDecode` | src/ipf_decode.cpp:537-582 | Which tracks are accepted and which of them are empty, in the fields of their records. |
| `IpfTrack.DecodeAccepts` | src/ipf_decode.cpp:531-643 | A track is accepted if and only if its declared sums agree, it is within the cap and each block's element sizes come to its declared data bits, whatever the weak bits; it then has exactly dataBits+gapBits cells, or none if unformatted. |
| `IpfTrack.BlockPlaced` | src/ipf_decode.cpp:588-637 | Block i starts at the sum of what the blocks before it declare and contributes exactly its data cells and then its gap cells, odd gap counts included. |
| `IpfTrack.TrackRotated` | src/ipf_decode.cpp:645-659 | Output cell (i + startBitPos) mod N is assembled cell i. |
| `IpfLaw.TrackGapsExactly` | src/ipf_decode.cpp:588-637 | The assembly of every accepted track, Sync and Raw elements included: never more than three 0 cells in a row if and only if its raw samples keep to that and the 0 cells on both sides of every seam between elements and gaps are at most three. |
| `IpfLaw.CodedTrackGapsExactly` | src/ipf_decode.cpp:588-637 | The assembly without raw elements, for any number of blocks and odd gaps: if and only if at every seam the 0 cells before the pads, the pads and the clock of a following 1 are at most three, with the data bits and pads given by the elements, weak bits and gap fills. |
| `IpfLaw.TrackOnesExactly` | src/ipf_decode.cpp:588-637 | The assembly of every accepted track has no two adjacent 1 cells if and only if its raw samples have none and none of them starts with a 1 behind a 1. |
| `IpfLaw.AssembledPieces` | src/ipf_decode.cpp:588-637 | The assembled cells are those of the pieces: raw samples as they are, everything else encoded with the carried bit, pads behind odd gaps. |
| `IpfLaw.TrackLaw` | src/ipf_decode.cpp:64-97 | So the assembly of a track without raw elements and with even gaps keeps the whole law, across all element, block and gap seams. |
| `IpfLaw.TrackOnesApart` | src/ipf_decode.cpp:64-97 | And one with odd gaps still has no two adjacent 1 cells. |
| `IpfLaw.OddGapExample` | src/ipf_decode.cpp:628-636 | A track where an odd gap leaves four 0 cells in the assembly. |
| `IpfRing.TrackGapsAround` | src/ipf_decode.cpp:588-659 | Every accepted track as returned, all around it: never more than three 0 cells in a row if and only if the assembly keeps to that, has a 1 cell, and the 0 cells at its end and its start are together at most three. |
| `IpfRing.TrackOnesAround` | src/ipf_decode.cpp:588-659 | Every accepted track as returned: no two neighbours around it are 1 if and only if the raw samples fit as in the assembly and the assembly does not both start and end with a 1 cell. |
| `IpfRing.CodedTrackAround` | src/ipf_decode.cpp:588-659 | Without raw elements both conditions in terms of data bits and pads: every seam fits and so does the one between the last and the first data bit with the pads between them; and no last 1 meets the clock of a first 0 without a pad. |
| `IpfRing.TrackLawAround` | src/ipf_decode.cpp:64-97 | Without raw elements and with even gaps the bound on 0 cells holds all around the returned track, and its 1 cells stay apart if and only if the first data bit is 1 or the last is 0. |
| `IpfRing.GapsAround` | src/ipf_decode.cpp:645-659 | A ring of cells keeps the bound exactly when its cells in line do, there is a 1 among them and the 0 cells at both ends fit together. |
| `IpfRing.OnesAround` | src/ipf_decode.cpp:645-659 | A ring has no two neighbouring 1 cells exactly when its cells in line have none and do not both start and end with one. |
| `IpfRing.AroundTurned` | src/ipf_decode.cpp:645-659 | Turning to the index changes neither: the returned track keeps both bounds around exactly when the assembly does. |
| `IpfRing.OnesMeetExample` | src/ipf_decode.cpp:645-659 | Data bits 0 1 turned by one cell: the assembly keeps the law, the returned track has two adjacent 1 cells. |
| `IpfRing.EndsMeetExample` | src/ipf_decode.cpp:645-659 | Data bits 1 0 and a pad turned by three cells: the assembly keeps the bound, the returned track starts with four 0 cells. |
| `Mfm.MfmLaw` | src/ipf_decode.cpp:90-97 | Any data bits, after any carried bit, encode without adjacent 1 cells and without four 0 cells. |
| `Mfm.EncodeConcat` | src/ipf_decode.cpp:64-97 | Encoding piece by piece with the carried bit is encoding at once. |
| `MfmLaws.PadCodeLaw` | src/ipf_decode.cpp:634-635 | Code with any pads at any places keeps the bound on 0 cells exactly when every seam fits, adjacent pads and pads one bit apart included. |
| `MfmLaws.SeamLaw` | src/ipf_decode.cpp:588-637 | Two stretches of cells keep the bound together exactly when each does and the 0 cells at their seam are at most three. |
| `MfmPieces.CodedPieceLaw` | src/ipf_decode.cpp:90-97 | A coded stretch keeps the bound after any carried bit, pad behind it or not. |
| `IpfScanner.RunReads` | src/ipf_decode.cpp:728-753 | Where the circular stream holds the code of some bytes, reading returns those bytes with every clock right. |
| `IpfScanner.WordExact` | src/ipf_decode.cpp:728-753 | The clock-error byte is zero if and only if the sixteen cells are the code of the byte read. |
| `IpfScanner.ShortestTrack` | src/ipf_decode.cpp:706-726 | Tracks of eight cells and more, and no shorter ones, keep the reader's position inside the track. |
| `IpfReader.Scanner.ReadByte` | src/ipf_decode.cpp:706-726 | The byte is the cyclic window of eight cells at the position, aligned or not; the position moves on by eight modulo the length; wrapped is set exactly when the end is reached. |
| `IpfReader.Scanner.ReadWord` | src/ipf_decode.cpp:728-753 | The shifts and masks give the clock-error and data bytes of the next sixteen cells. |
| `IpfReader.Scanner.ReadWords` | src/ipf_decode.cpp:841-842 | Reading n words one after the other gives the specified run, appends their data bytes and moves on by 16n cells around the track. |
| `IpfGap.BothGapShape` | src/ipf_decode.cpp:496-514 | In mode 3 the result has exactly the needed length; the forward sequence is its untouched prefix if and only if it fits, the clamped backward sequence its suffix, and the middle loops the forward list's last sample. |
| `IpfGap.BothListsKept` | src/ipf_decode.cpp:496-514 | Without lone samples both lists are kept whole exactly when their lengths fit. |
| `IpfGap.LoneForwardHidesBackward` | src/ipf_decode.cpp:459-468 | A lone forward sample fills the gap, so the backward list is ignored. |
| `IpfGap.ListedLength` | src/ipf_decode.cpp:438-469 | A list specifies as many bits as its paired lengths say, unless a lone sample fills up to the cap. |
| `IpfGap.ForwardSeamless` | src/ipf_decode.cpp:471-481 | A single length and sample repeat without a jump over the whole gap. |
| `IpfFill.ListedBits` | src/ipf_decode.cpp:438-469 | The bits of any list: each element's stand where the elements before it end, a length repeats the sample behind it, a lone sample fills up to the cap, and the last sample is remembered. |
| `IpfFill.DefaultFill` | src/ipf_decode.cpp:430-436 | Flags 0: bit i of the gap is bit 7 - i mod 8 of the default byte. |
| `IpfFill.ForwardFill` | src/ipf_decode.cpp:471-481 | Flags 1: the forward list's bits in front, its last sample looped behind, zeros without one. |
| `IpfFill.BackwardFill` | src/ipf_decode.cpp:483-494 | Flags 2: the backward list's bits at the end, its last sample looped in front. |
| `IpfFill.BothFill` | src/ipf_decode.cpp:496-514 | Flags 3: the forward list in front, the end of the backward list as far as there is room at the end, the forward list's last sample between them. |
| `IpfCodecs.BuildGapDecoded` | src/ipf_decode.cpp:423-515 | The four fill modes' loops yield the specified bits, exactly as many as needed. |
| `IpfCodecs.ExpandSample` | src/ipf_decode.cpp:42-52 | Sample bits most significant first, zeros behind the sample's end. |
| `IpfCodecs.MfmBuilder.PushRaw` | src/ipf_decode.cpp:75-81 | One cell more at the end of the packed stream. |
| `IpfCodecs.MfmBuilder.EmitVerbatim` | src/ipf_decode.cpp:85-88 | The raw cells at the end, the last of them carried. |
| `IpfCodecs.MfmBuilder.EmitDecodedBit` | src/ipf_decode.cpp:91-96 | Clock and data cell at the end, the data bit carried. |
| `IpfCodecs.TurnToIndex` | src/ipf_decode.cpp:645-659 | The bit loop yields the turned track. |
| `IpfImage.Image.DecodeTrack` | src/ipf_decode.cpp:531-660 | The decoder accepts, and yields the cells and weak bits drawn, as specified. |
| `IpfImage.Image.LockTrack` | src/ipf_decode.cpp:662-673 | An absent track is an empty one; success and length do not depend on the weak bits. |
| `IpfImage.Image.MirrorSide0` | src/ipf_decode.cpp:914-948 | Every formatted cylinder gets exactly revs revolutions of one length, each a decoding pass, identical if the track is not flakey; empty if any track is refused. |
| `IpfImage.MirrorAccepted` | src/ipf.cpp:144-170 | The flux writer takes the mirror if and only if it has at most 84 cylinders, at most 255 revolutions and a formatted track. |
| `Autotype.RunConserves` | src/autotype.cpp:128-194 | Over every run of ticks, enqueues and resumes, the events played followed by those left are those left at the start followed by the enqueued ones: first in, first out, none lost; and no two timers ever run at once. |
| `Autotype.WholeRun` | src/autotype.cpp:128-194 | A run from idle to idle plays the whole script, one event a tick, every key-up followed by a quiet tick. |
| `Autotype.KeysAfterRun` | src/autotype.cpp:128-194 | After a run from idle to idle exactly those keys are down whose last action was a press, and those that were down before and not acted on. |
| `Autotype.TickPlays` | src/autotype.cpp:128-194 | An unblocked tick plays exactly the next event of what is left. |
| `Autotype.TickCost` | src/autotype.cpp:128-194 | An unblocked tick of an active queue lowers the cost (character 3, press 1, release 2, pause at least 1, command 1) by exactly 1. |
| `Autotype.ActionPlace` | src/autotype.cpp:162-191 | An action's events stand together in the script, directly behind those of the actions before it. |
| `Autotype.TypedKeyReleased` | src/autotype.cpp:128-194 | In every run a typed key that goes down on one tick goes up on the very next and the tick behind that is quiet, whatever is enqueued or resumed between them. |
| `Autotype.NextTickPlays` | src/autotype.cpp:135-158 | The next tick plays the first event a running timer owes; no tick is lost to a block. |
| `Autotype.RunSettled` | src/autotype.cpp:128-199 | Over every run a command blocks only where no timer runs. |
| `Autotype.ResidualQuiet` | src/autotype.cpp:135-150 | At every moment each key-up still to come is followed by a quiet tick. |
| `Autotype.ActiveMeansMore` | src/autotype.cpp:257-261 | The queue reports itself active exactly when it is blocked or an event is left. |
| `Autotype.AnswerExact` | src/autotype.h:45-49 | Exactly when the answer of a tick disagrees with the activity it leaves: after the last frame of a last pause and after a last command that did not block. |
| `AutotypeText.ParseConcat` | src/autotype.cpp:31-119 | A text can be fed in pieces: once the first is good, the rest is read as if it stood alone. |
| `AutotypePrint.PrintParses` | src/autotype.cpp:31-119 | Characters, doubled tildes and any actions written as tags with the key table's names parse to exactly those actions, in order. |
| `AutotypePrint.KeyByName` | src/autotype.cpp:13-28 | A key is found by its name in any letter case, else a single character by the character table, else not at all. |
| `AutotypePrint.UnclosedTag` | src/autotype.cpp:45-49 | A tilde without a partner is reported at its position, whatever good text precedes it. |
| `AutotypePrint.BadTag` | src/autotype.cpp:56-95 | A tag that cannot be read stops the parse with its error. |
| `AutotypePrint.TagErrors` | src/autotype.cpp:56-95 | Which error that is: the unknown key without its sign, or the whole pause tag. |
| `AutotypeText.PauseKept` | src/autotype.cpp:56-71 | A written frame count is always accepted, and kept if and only if it fits an int. |
| `AutotypeText.PauseLost` | src/autotype.cpp:56-71 | A pause of 2^32 frames becomes one of a single tick. |
| `AutotypeQueue.AutoTypeQueue.EnqueueText` | src/autotype.cpp:31-126 | The parsed actions at the end of the queue, or the error and an unchanged queue. |
| `AutotypeQueue.AutoTypeQueue.TickOnce` | src/autotype.cpp:128-194 | State, event and answer as specified; the event is the next of the script. |
| `AutotypeQueue.AutoTypeQueue.ResumeQueue` | src/autotype.cpp:196-199 | Only the block is lifted; what is left to play stays. |
| `AutotypeQueue.AutoTypeQueue.IsActive` | src/autotype.cpp:257-261 | True exactly when blocked or an event is left. |
| `AutotypeQueue.AutoTypeQueue.Clear` | src/autotype.cpp:268-276 | Back to idle. |
| `Cartridge.LoadsExactly` | src/cartridge.cpp:75-158 | A well-formed RIFF cartridge of any chunks loads if and only if it needs at most 32 pages and has at most eight chunks of odd size; page p is then the p-th non-empty chunk, cut to 16 KiB with its pad byte, then zeros. |
| `Cartridge.LoadsPages` | src/cartridge.cpp:75-158 | For every file at all: it loads if and only if it is a header, a run of chunks whose declared sizes, counted in 32 bits, reach the declared total with the last of them, and anything behind, with at most 32 non-empty chunks; page p is then the p-th non-empty chunk, cut to 16 KiB with its pad byte, then zeros. |
| `Cartridge.PageOfChunk` | src/cartridge.cpp:122-152 | Byte for byte the page of a chunk, numbered by the non-empty chunks before it: the body, the pad byte of an odd one, zeros. |
| `Cartridge.NineOddChunks` | src/cartridge.cpp:102-108 | Nine one-byte chunks are refused: the loop bound leaves out their pad bytes. |
| `Cartridge.CursorAdvances` | src/cartridge.cpp:128-153 | Behind a chunk the cursor has moved by its even-padded size, cut or not. |
| `Cartridge.CprLoad` | src/cartridge.cpp:75-158 | The loader accepts as specified and fills the zeroed image page by page. |
| `DataAreas.RunFindExact` | src/data_areas.cpp:9-45 | After any marks with start <= end and any clears, areas are disjoint and keyed by start, and the predecessor lookup finds an area exactly when some area contains the address, and that one. |
| `DataAreas.MarkGood` | src/data_areas.cpp:9-21 | A mark answers for its own addresses, takes away only the areas it overlaps, and leaves every other lookup as it was. |
| `DataAreas.FindExactly` | src/data_areas.cpp:36-45 | For any areas keyed by start, empty ones included, the predecessor lookup agrees with a linear search if and only if every area ends before the next one starts. |
| `DataAreas.MarkExactly` | src/data_areas.cpp:9-21 | After any mark the lookup is exact if and only if the areas kept are apart, no area that begins behind the end of the mark runs across its start, and no area inside the mark ended before it started. |
| `DataAreas.MarkKeepsExact` | src/data_areas.cpp:9-21 | On an exact index a mark keeps it exact if and only if it meets neither of those. |
| `DataAreas.ProperSafe` | src/data_areas.cpp:9-21 | A mark with start <= end meets neither where all areas are of that kind. |
| `DataAreas.RunExactly` | src/data_areas.cpp:9-45 | Over every run of marks and clears, backward marks included, the lookup is exact all along if and only if every mark meets neither. |
| `DataAreas.LostAddress` | src/data_areas.cpp:36-45 | An address inside an area that is not found when a backward mark comes after it, or before it. |
| `DataAreas.DataAreaManager.MarkArea` | src/data_areas.cpp:9-21 | The erasing loop and the insertion give the specified map. |
| `DataAreas.DataAreaManager.ClearArea` | src/data_areas.cpp:23 | The area keyed by that start is gone, the others stay. |
| `DataAreas.DataAreaManager.FindArea` | src/data_areas.cpp:36-45 | The predecessor's area if it contains the address; in a good index no answer means no area does. |

## Left out

- Disc: sector buffers are separate values of at least 512 bytes; two sectors sharing one buffer are not modelled. File sizes of 2^32 bytes and more are not modelled. Extents with equal numbers keep directory order, which std::sort does not promise.
- CpmAlias.WriteKeepsExactly: leaves out files that could not be read before, record counts of 0 or above 128, and files of another user behind a free entry, whose name then reads the file of user 0 that CpmAlias.TouchedFile and CpmProofs.AliasedName describe.
- Listing files, formatting names for display and deriving a CPC name from a local one (src/disk_file_editor.cpp:123-145, 228-301, 691-723): would only add easy members.
- Expression evaluation, its emulator reads and its signed overflow (src/expr_parser.cpp:545-762): equal trees evaluate alike, whatever the evaluator.
- ExprParser.Parse: literals of 2^64 and more, on which the number conversion throws, are taken modulo 2^32 like shorter ones.
- ExprParser.Parser.Advance: the same.
- ConfigRoundTrip.SaveThenLoad: takes a text parsed from one stream, without carriage returns inside lines and indented keys that start with '['; empty and delimiter-bearing values are outside the format the rewriter keeps. Config.SessionSaved likewise.
- Integer values, the file functions and several streams in one configuration (src/configuration.cpp:133-141, 219-229, 243-248, 274-279).
- Flux.FluxRoundTrip: revolutions of 2^32 ticks and more, whose intervals wrap, are not covered; nor by Flux.OneWordPerTransition.
- Scp.SlotsPointAtRecords: containers of 4 GiB and more, whose offsets wrap, are not covered; nor by Scp.RevolutionInFile, ScpReader.FileOpens, ScpReader.ContainerRoundTrip, ScpReader.RecordFields, ScpReader.EntryFields and ScpReader.RevolutionsReadBack.
- FluxCodecs.ReconstructRev: the cell counter, 32 bits wide in the program, is unbounded, so flux that adds up to 2^32 cells or more is not modelled.
- HfeProofs.HfeRoundTripExactly: the direction "only if" takes revolutions whose ticks fit 32 bits and a container below 4 GiB.
- HfeProofs.HfeReadsStored: takes block numbers within 16 bits.
- HfeFormat.WrittenImage: takes tracks that fit their length field; HfeProofs.HfeReadsStored says what is read of others.
- DiscFiles.FileInImage: takes extents of different numbers with all sixteen blocks named in all but the last; discs with missing sectors are in CpmRuns and CpmAlias. DiscWrites likewise takes complete discs.
- AutotypePrint.PrintParses: key names with lower-case letters, which no lookup finds, and names that look like another tag are not printed.
- CpmNames.ShownParses: takes names without a dot among the first eight bytes and without lower-case letters, which the program never stores.
- hfe_from_disk, disc sources of tracks, and the A2R, KryoFlux and other flux readers.
- IpfTrack.DecodeAccepts: descriptors and element lists are taken as parsed, and sums of declared bits and the assembled cell count are unbounded, so a track of 2^32 cells or more is refused here where the program's counters wrap.
- IpfImage.Image.DecodeTrack: the same.
- IPF records, CRCs and stream parsing.
- The sector scan over the cyclic reader, but for its run of data bytes, and the filling of a drive from it (src/ipf_decode.cpp:768-912), and the weak-bit generator.
- IpfReader.Scanner.ReadByte: takes a track of at least eight cells and a position inside it; IpfScanner.ShortestTrack shows why shorter ones do not work. IpfReader.Scanner.ReadWord likewise.
- The legacy autocmd encoding (src/autotype.cpp:214-255) and the mutex: each locked method is one step. A pause counter below the int range, which the program reaches only by overflow, is an unbounded integer here.
- Cartridge.LoadsExactly: files of 4 GiB and more are not covered; Cartridge.LoadsPages covers every file. The partly filled image left behind by a refused file is not described.
- Formatting of data areas (src/data_areas.cpp:47 onwards), and all user interface, recording, sound and device code.
