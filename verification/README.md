# StuffIt decoders, skyline packer and wildcard matcher: a verified model

This project models three components and proves what they are for.

**The StuffIt decoders of `macsrc/unsit`.** The Burrows-Wheeler inverse (`CountingSort`, `Bwt`), the
move-to-front decoder (`MoveToFront`), the LZW decoder of method 2 (`Lzw`, `LzwRuns`, `LzwEncoder`,
`LzwTable`, `Compress`, `LzwGreedy`, `LzwPack`, `LzwLimit`, `NarrowCounters`) and the two bit readers under
the decoders (`LeReader`, `BitReaders`, on `UFiles`). The encoders are ghost functions; the decoders are methods on
arrays and classes, proved to undo them. The LZW decoder is specified by a machine on values
(`Lzw.Step`, `Lzw.Decode`) whose dictionary is a sequence of byte strings; the parent-chain table, the
32-bit bit accumulator and the loops of `decompress_compress` are proved to refine it.

**The skyline rectangle packer of `libs/imgui/imstb_rectpack.h`.** `Skyline`, `Packing` and `Targets` say
what a skyline, a choice of position and a packing step are, on values. `WastedArea`, `Ground`,
`RoundedWidths` and `ExactPlacements` settle when three things the code relies on are true: that the waste
by which best fit ranks positions is an area, that rounding widths leaves enough nodes, and that a placement
raises the columns of its rectangle and no others. `BestFit` shows that looking at nodes finds the best
place of all. `NodeLists`, `Relinking` and `RectPack` are the packer itself: two linked lists through one
pool of nodes, changed in place. `PackRects` is the outer call with its two sorts.

**The glob matcher `wildcmp` of `libs/doctest/doctest.h`** (`Glob`), with its greedy backtracking loop.

`Bytes` holds the C operators on words and a byte stream read as bits, `Permutations` what is needed about
index permutations, `Wrappers` the option type.

## Where the code and what is said of it differ

* `imstb_rectpack.h:254-261` says that widths rounded up to multiples of `ceil(width / num_nodes)` make
  `num_nodes` always enough, and lines 149-150 promise it to callers. Only the width searched for is
  rounded; the width put into the skyline is not. `RoundedWidths.NodesRunOutIff` shows exactly for
  which targets nodes run out while a rectangle still fits; `RoundedWidths.GridRun` shows that widths
  that are multiples themselves never run out, with either heuristic.
* For the same reason (searching with one width and inserting another) best fit can raise columns beside
  the rectangle. `ExactPlacements.ExactPlacementIff` says for which widths and alignments it happens:
  when rounding adds three columns or more. Bottom-left never does it.
* `imstb_rectpack.h:318-332` clips the first node of a scan to the left end of the rectangle in one branch
  and not in the other, which on some skylines counts too much waste (`WastedArea.WasteIsAreaIff`). No
  target that packing produces has such a skyline: `Ground.RunWaste`.
* `unsit.h:47` describes `UFile.length` as counted from `base`. `uf_open` sets it to the whole file and
  `detect_macbinary` does not reduce it, so behind a MacBinary header `br_nextbyte` expects 128 bytes too
  many and serves stale buffer bytes, for ever, instead of zeros: `BitReaders.ZeroPaddedIff`,
  `BitReaders.ReadBehindHeader`.
* `lzw_output` keeps the last 4096 bytes of a longer phrase and drops the others silently:
  `LzwEncoder.CodesSufficeIff`, `LzwPack.FileRoundTripIff`, `LzwLimit.LongRunDamaged`.
* Where `int` has 16 bits the code counter of the LZW decoder turns negative and the padding skip goes
  wrong: `NarrowCounters.NarrowCounterIff`.

## Model

| member | source | states |
|---|---|---|
| Glob.WildCmp | libs/doctest/doctest.h:4113-4147 | for every text, mask and both case modes the loop ends, and the result is non-zero exactly when the text splits into one piece per mask character: any piece for character 42, one character of any kind for 63, and for any other that character (ignoring case, also the letter 32 codes away); for a mask without wildcards, exactly when text and mask agree character by character in this sense |
| Glob.AfterFirstStar | libs/doctest/doctest.h:4126-4146 | the backtracking loop, entered at the first star, decides the match of the rest; it ends by the order (first star seen, last star's start, star read, text position) |
| Glob.OnlyStarsLeft | libs/doctest/doctest.h:4143-4146 | with the text used up the answer is that of matching the empty string |
| Glob.MeaningOfMask | libs/doctest/doctest.h:4111-4112 | the recursive meaning of `*` and `?` is this splitting in character codes |
| Glob.PlainMask | libs/doctest/doctest.h:4117-4124 | a mask without 42 and 63 matches exactly the texts of its length with equal characters, ignoring case also letters of the other case |
| Glob.AcceptsIff | libs/doctest/doctest.h:4118-4119 | the comparison through `tolower` and the test for 63 accept exactly these characters |
| Glob.LastStarSuffices | libs/doctest/doctest.h:4126-4132 | once the piece between two stars stands at its earliest place, the match depends only on what follows: forgetting the earlier star loses nothing |
| Glob.ReadStar | libs/doctest/doctest.h:4127-4132 | replacing the remembered star by the one just read leaves the pending question unchanged |
| Glob.Extend | libs/doctest/doctest.h:4133-4136 | a matching character extends the piece that agrees with the text |
| Glob.Slide | libs/doctest/doctest.h:4137-4140 | on a mismatch, moving the piece one character right leaves the pending question unchanged |
| Glob.TextUsedUp | libs/doctest/doctest.h:4126-4146 | when the text ends inside a piece, no other position of the piece could match: only the rest of the mask against the empty string counts |
| Glob.LeadingPiece | libs/doctest/doctest.h:4117-4124 | the part of the mask before its first star consumes its own length and decides nothing else |
| Glob.NoMatch | libs/doctest/doctest.h:4118-4121 | a mismatch before any star refutes every match |
| Glob.EmptyMatches | libs/doctest/doctest.h:4143-4146 | the empty string matches exactly the masks made of stars |
| Glob.IgnoringCase | libs/doctest/doctest.h:4118-4134 | matching without case is matching with case after the codes 65 to 90 of text and mask are raised by 32 |
| CountingSort.CountBytes | macsrc/unsit/bwt.c:16-19 | `counts` holds how often each byte occurs |
| CountingSort.StartPositions | macsrc/unsit/bwt.c:21-27 | `cumulative[b]` is the number of bytes below `b`, and the counters are reset |
| CountingSort.BwtInverse | macsrc/unsit/bwt.c:10-34 | `transform` becomes the stable sort of the positions of the block: a listing in range, bytes in order, ties by position; nothing behind it is written |
| CountingSort.StableSortPermutes | macsrc/unsit/bwt.c:29-33 | the listing is a permutation of the positions |
| CountingSort.StableSortUnique | macsrc/unsit/bwt.c:10-34 | there is only one stable sort, so the contract of `BwtInverse` fixes `transform` |
| CountingSort.RankOrders | macsrc/unsit/bwt.c:29-33 | start of the byte's run plus earlier equal bytes orders positions as a stable sort does |
| CountingSort.RanksGiveStableSort | macsrc/unsit/bwt.c:29-33 | writing every position to the slot of its rank yields the stable sort |
| Bwt.SteppedSorted | macsrc/unsit/bwt.c:29-33 | sorting the rows stably by their last byte sorts the rows rotated right by one |
| Bwt.NextRow | macsrc/unsit/bwt.c:29-33 | row `transform[j]` of the sorted matrix is row `j` rotated left by one, also for periodic blocks |
| Bwt.FollowRotates | macsrc/unsit/bwt.c:43-46 | after `k` steps from the row of the block the row reads the block rotated by `k` |
| Bwt.RoundTrip | macsrc/unsit/bwt.c:36-49 | the bytes met on the walk from a row that reads the block are the block, for every non-empty block and every sorted listing of its rotations |
| Bwt.BwtUnsort | macsrc/unsit/bwt.c:36-49 | `dest` is the walk's output for any `firstindex` in range, equals every block of which the input is the transform, and nothing behind it is written |
| Bwt.Walk | macsrc/unsit/bwt.c:43-48 | the loop stays in range and writes the bytes met through the permutation |
| Bwt.FullOrbitRearranges | macsrc/unsit/bwt.c:43-48 | for any input, if the walk visits every row the output is a rearrangement of the input |
| Bwt.EncodeIsBwt | macsrc/unsit/bwt.c:36-49 | every non-empty block has a transform, which insertion of its rotations in order finds |
| Bwt.ColumnUnique | macsrc/unsit/bwt.c:36-49 | the last column does not depend on how equal rotations are ordered |
| Bwt.BwtInjective | macsrc/unsit/bwt.c:36-49 | blocks with the same column and row are equal |
| MoveToFront.MTFState.Reset | macsrc/unsit/bwt.c:51-56 | the table lists 0 to 255 in order |
| MoveToFront.MTFState.Decode | macsrc/unsit/bwt.c:58-66 | returns the entry at the symbol, moves it to the front, and keeps the table listed by most recent use |
| MoveToFront.MTFState.Shift | macsrc/unsit/bwt.c:62-63 | the entries before the symbol move up by one, the others stay |
| MoveToFront.DecodeEncode | macsrc/unsit/bwt.c:51-66 | decoding what a move-to-front encoder sends returns the original values, from any table |
| MoveToFront.EncodeDecode | macsrc/unsit/bwt.c:51-66 | every symbol string is what the encoder sends for its decoding |
| MoveToFront.TableIsRecency | macsrc/unsit/bwt.c:51-66 | after a reset and any symbols the table is a permutation of the bytes: those decoded, most recent first, then the others in increasing order |
| MoveToFront.RecencyStep | macsrc/unsit/bwt.c:62-64 | moving an entry to the front is what recency order asks for |
| UFiles.UFile.Read8 | macsrc/unsit/unsit.c:53-57 | the next byte, or 0 at the end of the file without moving |
| UFiles.UFile.Read | macsrc/unsit/unsit.c:42-46 | as many bytes as there are, 0 exactly when all were there, the rest of the buffer untouched |
| BitReaders.BitReader.constructor | macsrc/unsit/bitreader.c:13-20 | no bit read yet; what will be delivered is fixed by the file from here, the length of the whole file with the base added, and the buffer as it is |
| BitReaders.BitReader.Load | macsrc/unsit/bitreader.c:26-29 | reading min(buffer, promised rest) bytes, however many of them exist, leaves exactly the next bytes of the source in the buffer |
| BitReaders.BitReader.NextByte | macsrc/unsit/bitreader.c:23-33 | a refill delivers the next byte of that source, also past the end of the file, and leaves the window on the bytes that follow |
| BitReaders.ZeroTailIff | macsrc/unsit/bitreader.c:23-33 | for one file and buffer the bytes delivered are the file and then zeros for ever if and only if the length is exact or every stale byte happens to be zero |
| BitReaders.ZeroPaddedIff | macsrc/unsit/unsit.h:46-47 | for every file of a given length and every earlier content of the buffer: the file and then zeros, if and only if there is no MacBinary header (or reading starts behind all that is promised) |
| BitReaders.FirstStale | macsrc/unsit/bitreader.c:23-33 | the first byte behind a file whose length promises too much is the one 512 places before its end, or what the buffer held there |
| BitReaders.ReadBehindHeader | macsrc/unsit/bitreader.c:26-32 | a run of the reader: one byte 255 behind a header, a buffer of zeros; after the byte and 128 zeros the reader delivers 255 again |
| BitReaders.ReadPastEnd | macsrc/unsit/bitreader.c:23-33 | a run of the reader on any file behind a header that shows it |
| BitReaders.BitReader.TakeByte | macsrc/unsit/bitreader.c:39 | from the window or from a refill, the next byte of the source is in `buf` |
| BitReaders.BitReader.ReadBit | macsrc/unsit/bitreader.c:35-44 | returns the next bit of the source, most significant first, across any refills and past any end; one bit is consumed |
| BitReaders.BitReader.ReadBits | macsrc/unsit/bitreader.c:46-53 | returns the next `n` bits of the source as a number, modulo the 32-bit word, in any mix with single bits |
| BitReaders.AppendBit | macsrc/unsit/bitreader.c:51 | shift and or append one bit modulo the word |
| BitReaders.ReadTogether | macsrc/unsit/bitreader.c:46-53 | reading a + b bits (at most 32) is reading a, shifting by b and reading b more |
| LeReader.BrLE2.constructor | macsrc/unsit/compress.c:132-137 | an empty accumulator at the file position |
| LeReader.BrLE2.Fetch | macsrc/unsit/compress.c:142-146 | one byte goes above the bits held, and none is lost from the 32-bit accumulator |
| LeReader.BrLE2.Fill | macsrc/unsit/compress.c:142-146 | the loop ends with at least `n` and at most `n + 7` bits held, all of them stream bits in order |
| LeReader.BrLE2.Bits | macsrc/unsit/compress.c:139-151 | for n up to 25 returns the next n-bit field, least significant bit first, zeros past the end; between calls at most 7 bits are held and they are the next ones |
| LeReader.TakeLow | macsrc/unsit/compress.c:147-148 | mask and shift separate the first n bits from the others |
| LeReader.WiderReadsLoseBits | macsrc/unsit/compress.c:144 | a byte shifted by 25 survives exactly when its top bit is clear: 25 bits per call is the limit |
| Bytes.LsbFieldConcat | macsrc/unsit/compress.c:184-191 | a field of a + b bits is the field of a and the following field of b: draining in chunks is one skip |
| Bytes.AndPredecessor | macsrc/unsit/compress.c:115 | `x & (x - 1)` is 0 exactly for powers of two |
| Lzw.GrowthKeepsWidth | macsrc/unsit/compress.c:113-115 | the test on `numsyms` grows the width exactly when the new size needs it, up to the full table |
| Lzw.WidthUnique | macsrc/unsit/compress.c:33-55 | the invariant 2^(symsize-1) <= numsyms < 2^symsize (14 bits at 2^14) fixes `symsize` from `numsyms` |
| Lzw.ClearInsideFile | macsrc/unsit/compress.c:169-195 | no clear code is read past the end of the file, so the decoder ends on every input |
| Lzw.NextAdds | macsrc/unsit/compress.c:90-121 | a data code fails exactly when it is neither an entry nor the entry about to be made; otherwise all strings stay and, from the second code on and below 16384 entries, the previous phrase with the first byte of this one is added |
| LzwTable.LZWState.Init | macsrc/unsit/compress.c:33-48 | the fields for any flags, and for 14 bits in block mode the table of single bytes |
| LzwTable.LZWState.Clear | macsrc/unsit/compress.c:50-55 | the table spells the single bytes again although stale nodes stay in the array |
| LzwTable.LZWState.FirstByte | macsrc/unsit/compress.c:57-62 | the walk over live parents ends at the first byte of the entry's string |
| LzwTable.LZWState.Length | macsrc/unsit/compress.c:69-74 | the chain is as long as the entry's string |
| LzwTable.LZWState.Output | macsrc/unsit/compress.c:66-87 | writes exactly the last min(length, bufsz) bytes of the string in forward order, and nothing behind them |
| LzwTable.LZWState.Next | macsrc/unsit/compress.c:90-121 | refines the dictionary step: existing strings stay, the new one is the previous phrase and the first byte of this one; unknown codes fail and change nothing |
| LzwTable.LZWState.AddEntry | macsrc/unsit/compress.c:108-116 | the new node spells its string, the 16-bit parent survives the conversion, width and size stay in step |
| LzwTable.SpellsMore | macsrc/unsit/compress.c:111-113 | a node written behind the live ones extends the dictionary and changes no string |
| LzwTable.ChainLength | macsrc/unsit/compress.c:66-74 | the string of code `i` has at most `i - 255` bytes |
| LzwTable.ParentFits | macsrc/unsit/compress.c:111 | the 16-bit parent is the code itself exactly below 32768 |
| LzwRuns.StepInStep | macsrc/unsit/compress.c:169-208 | each code keeps numsyms == min(2^14, 256 + max(1, symcounter)), the bit position in step with the widths, and the length bounds; the k-th phrase has at most k bytes |
| LzwRuns.RunInStep | macsrc/unsit/compress.c:169-208 | so it is after any number of codes of any data |
| LzwRuns.EveryRun | macsrc/unsit/compress.c:33-55 | on every run the code about to be made fits the width until the table is full and cannot be read when it is, and `prevsym` is live and fits 16 bits |
| LzwRuns.GroupHasOneWidth | macsrc/unsit/compress.c:179-184 | the width changes only between groups of eight codes |
| LzwRuns.ClearEndsOnByte | macsrc/unsit/compress.c:179-191 | a clear code with its padding fills whole bytes since the last clear |
| NarrowCounters.NarrowCounterIff | macsrc/unsit/compress.c:182-184 | where `int` has 16 bits: in all runs a clear that is the k-th code of its segment skips the right bits if and only if the counter is not negative by then or the clear ends a group anyway |
| NarrowCounters.ClearComes | macsrc/unsit/compress.c:169-195 | a clear code can come as any code of a segment: a file that makes the decoder read it there |
| NarrowCounters.FirstWrongSkip | macsrc/unsit/compress.c:182-184 | a run with a clear as code 32769, read in 14 bits, after which such a decoder skips 210 bits instead of 98 |
| NarrowCounters.WrongAmount | macsrc/unsit/compress.c:182-184 | with a negative counter the skip is a whole group of eight codes too long |
| LzwEncoder.DecoderCatchesUp | macsrc/unsit/compress.c:90-121 | running one entry behind, the decoder accepts every code of the encoder, including the one it is about to make, and then has the encoder's table |
| LzwEncoder.OpStep | macsrc/unsit/compress.c:169-208 | one code of the encoder is one step of the decoder, with the same phrase |
| LzwEncoder.DecodeFollowsOps | macsrc/unsit/compress.c:169-208 | the decoder writes the clipped phrases in order and then goes on with what follows the codes |
| LzwEncoder.ClippingLoses | macsrc/unsit/compress.c:75 | the clipped phrases are shorter than the string exactly when some phrase is longer than 4096 |
| LzwEncoder.RoundTrip | macsrc/unsit/compress.c:155-212 | for every string, every choice of phrases and every placement of clear codes, result 0 and the string, if every phrase has at most 4096 bytes |
| LzwEncoder.CodesSufficeIff | macsrc/unsit/compress.c:75 | the codes fill the output if and only if no phrase exceeds 4096 bytes; otherwise the decoder reads on behind them |
| LzwEncoder.ShortSegmentsSuffice | macsrc/unsit/compress.c:66-87 | with at most 4096 codes between clears no phrase is too long |
| LzwEncoder.RoundTripShortSegments | macsrc/unsit/compress.c:155-212 | the round trip with no condition on phrases for such encodings |
| LzwGreedy.LongestMatch | macsrc/unsit/compress.c:90-121 | the greedy encoder's choice is a live entry that starts the text and no longer one does |
| LzwGreedy.Greedy | macsrc/unsit/compress.c:90-121 | for every string and clear placement the greedy encoder spells the string |
| LzwPack.SpellsFits | macsrc/unsit/compress.c:173 | every code an encoder sends fits the width it is written in |
| LzwPack.PackCarries | macsrc/unsit/compress.c:173-191 | the file packed in the decoder's widths with zero padding carries the codes |
| LzwPack.FileRoundTrip | macsrc/unsit/compress.c:155-212 | greedy encoding, packing and decoding returns the string, if no phrase exceeds 4096 bytes |
| LzwPack.FileDecodes | macsrc/unsit/compress.c:155-212 | for every string and every encoding of it, what the decoder makes of the packed file: the phrases cut to 4096 bytes, then zeros up to the length |
| LzwPack.FileRoundTripIff | macsrc/unsit/compress.c:75 | for every string and every encoding, the round trip through the encoder's file holds if and only if from the first phrase longer than 4096 bytes on the string is zeros |
| LzwPack.FileRoundTripNoZeros | macsrc/unsit/compress.c:75 | so for strings without zero bytes if and only if no phrase exceeds 4096 bytes |
| LzwLimit.RunSpells | macsrc/unsit/compress.c:103-104 | a run of one letter is spelled by phrases that grow by one, each the entry just made |
| LzwLimit.LongRunDamaged | macsrc/unsit/compress.c:75 | 8394753 letters of code 97, sent as 4097 such phrases, do not come back |
| Compress.FlagValues | macsrc/unsit/compress.c:166 | flags 0x8E mean block mode and 14 bits |
| Compress.ReadCode | macsrc/unsit/compress.c:173-174 | reads the code of the machine at its position, in its width |
| Compress.SkipBits | macsrc/unsit/compress.c:184-190 | the chunked drain advances the stream by exactly the whole skip, however large |
| Compress.ClearTable | macsrc/unsit/compress.c:177-195 | the clear branch is the machine's clear step, padding included |
| Compress.DataCode | macsrc/unsit/compress.c:197-203 | the data branch is the machine's step: failure, or the phrase's last 4096 bytes in `strbuf` |
| Compress.CopyPhrase | macsrc/unsit/compress.c:204-206 | writes no more than fits, at `outpos`, and leaves every other byte |
| Compress.Run | macsrc/unsit/compress.c:155-212 | result code and output are those of the machine, on any file and any length; bytes not produced are untouched |
| Compress.Decompress | macsrc/unsit/compress.c:155-212 | the same, and any encoding of a string of that length returns 0 and the string |
| Skyline.NodesSuffice | libs/imgui/imstb_rectpack.h:365-389 | moving a rectangle left to the node under its left end never raises it |
| Skyline.InsertValid | libs/imgui/imstb_rectpack.h:464-499 | the spliced list starts at 0, strictly increases and ends in the sentinel at the right edge |
| Skyline.InsertHeight | libs/imgui/imstb_rectpack.h:464-499 | the splice sets a stretch of columns to the new top and changes no other column |
| Packing.Rounded | libs/imgui/imstb_rectpack.h:353-356 | the least multiple of `align` not below the width |
| Packing.ScanFromHeight | libs/imgui/imstb_rectpack.h:311-338 | the scan returns the highest column under the rectangle |
| Packing.BestIsLowest | libs/imgui/imstb_rectpack.h:367-441 | the best candidate is as low as any column position of the target; bottom-left takes the leftmost such |
| Packing.NoneAdmissible | libs/imgui/imstb_rectpack.h:378-379 | when best fit considers no candidate, the rectangle fits at no column |
| Packing.BestExists | libs/imgui/imstb_rectpack.h:347-447 | there is a best candidate exactly when one is admissible |
| Packing.BestUnique | libs/imgui/imstb_rectpack.h:372-430 | the comparisons leave no tie: the choice is one position |
| Packing.BestWithOneMore | libs/imgui/imstb_rectpack.h:372-436 | comparing with one more candidate keeps the best so far the best of those tried |
| Packing.SearchComplete | libs/imgui/imstb_rectpack.h:367-440 | the candidates the two loops try are all there are |
| WastedArea.WasteOverCounts | libs/imgui/imstb_rectpack.h:314-335 | on any skyline the reported waste is the area lost under the rectangle plus an excess that is never negative, given node by node |
| WastedArea.WasteIsAreaIff | libs/imgui/imstb_rectpack.h:326-332 | on any skyline it is the area if and only if the left end is on a node or on positive height, or no node near the right end charges the columns counted too much |
| Ground.StepGroundLast | libs/imgui/imstb_rectpack.h:347-499 | every step, for any alignment and heuristic, leaves only the last columns at height 0 |
| Ground.BestOnGround | libs/imgui/imstb_rectpack.h:367-436 | a best position on the ground is the first column of the ground |
| Ground.RunWaste | libs/imgui/imstb_rectpack.h:290-339 | over any run, at any position and for any width, the reported waste is the area lost under the rectangle |
| BestFit.BestOfAll | libs/imgui/imstb_rectpack.h:367-441 | on the skylines that packing produces, the place best fit takes among node positions comes first among all columns: lowest, then least area lost, then leftmost |
| BestFit.BestFitPlace | libs/imgui/imstb_rectpack.h:410-441 | so for every rectangle that best fit places in any run, whatever the alignment |
| Targets.StepKeepsGood | libs/imgui/imstb_rectpack.h:449-526 | every step, for any heuristic and alignment, keeps rectangles inside and disjoint, the skyline above all tops and within the height, the list well formed and the number of nodes |
| Targets.RunGood | libs/imgui/imstb_rectpack.h:449-526 | so it is after any run of packs with heuristic and alignment changed in between |
| Targets.RunGrows | libs/imgui/imstb_rectpack.h:449-526 | what is placed stays placed; the sizes never change |
| Targets.NewIsDisjoint | libs/imgui/imstb_rectpack.h:466-467 | a rectangle set on the skyline meets nothing the skyline covers |
| Targets.NothingSinks | libs/imgui/imstb_rectpack.h:464-499 | no column gets lower, although passed nodes are freed |
| Targets.AfterSafe | libs/imgui/imstb_rectpack.h:464-499 | old and new rectangles stay inside, covered and pairwise disjoint |
| Targets.ExactHeightMap | libs/imgui/imstb_rectpack.h:464-499 | with align 1 exactly the columns of the rectangle rise, to its top |
| Targets.ExactHeightMapIff | libs/imgui/imstb_rectpack.h:464-499 | for any alignment this holds if and only if the place found does not lie strictly inside one segment |
| ExactPlacements.NearlyRounded | libs/imgui/imstb_rectpack.h:353-391 | for a caller: with bottom-left, and with best fit when rounding adds at most two columns, exactly the columns of the rectangle rise |
| ExactPlacements.ExactPlacementIff | libs/imgui/imstb_rectpack.h:353-356 | for every alignment and width: best fit does so in all runs if and only if rounding adds at most two columns |
| ExactPlacements.WiderThanTheRectangle | libs/imgui/imstb_rectpack.h:410-441 | the run otherwise: from a fresh target, three rectangles and then one that raises a column beside it |
| Targets.ExactEnd | libs/imgui/imstb_rectpack.h:475-499 | the new segment never reaches beyond the rounded width, and ends with the rectangle when the width is not rounded or the left end is at a node |
| Targets.LowestPlace | libs/imgui/imstb_rectpack.h:347-447 | a placed rectangle is at the lowest place over all columns for its rounded width, leftmost for bottom-left |
| Targets.PlacedIff | libs/imgui/imstb_rectpack.h:449-462 | a rectangle is placed if and only if a node is free and its rounded width fits somewhere above the skyline |
| Targets.EnoughNodes | libs/imgui/imstb_rectpack.h:145-146 | with as many nodes as columns a node is always free |
| Targets.AlignFor | libs/imgui/imstb_rectpack.h:253-261 | the least alignment with `num_nodes * align >= width` |
| RoundedWidths.RightEdgeLoses | libs/imgui/imstb_rectpack.h:410-441 | with ground at the right edge best fit never puts a right end against the edge unless its left end is at a node |
| RoundedWidths.GridKept | libs/imgui/imstb_rectpack.h:254-261 | with either heuristic, widths that are multiples of the alignment keep the nodes on multiples and the columns behind the last multiple on the ground |
| RoundedWidths.GridNodes | libs/imgui/imstb_rectpack.h:254-261 | on multiples the promised nodes are there |
| RoundedWidths.GridRun | libs/imgui/imstb_rectpack.h:254-261 | a run of such widths always has a free node, whatever heuristics and whatever the width of the target |
| RoundedWidths.NodesRunOutIff | libs/imgui/imstb_rectpack.h:254-261 | for every size and number of nodes: some run leaves a fitting rectangle without a node if and only if there are fewer nodes than columns (and, in height 1, room beyond the squares) |
| RoundedWidths.NodesRunOut | libs/imgui/imstb_rectpack.h:254-261 | the run: as many unit squares as there are nodes |
| RoundedWidths.GroundIsFree | libs/imgui/imstb_rectpack.h:254-261 | ground that holds a rectangle holds at most one node |
| Relinking.TakeFree | libs/imgui/imstb_rectpack.h:465-469 | taking the first free node leaves both lists intact without it |
| Relinking.LinkAtHead | libs/imgui/imstb_rectpack.h:482 | linking in front of the whole list |
| Relinking.LinkBehind | libs/imgui/imstb_rectpack.h:475-482 | linking behind a kept node redirects one link and no other |
| Relinking.FreeOne | libs/imgui/imstb_rectpack.h:487-493 | one turn of the freeing loop moves one node to the free list and disturbs neither list |
| Relinking.Stitch | libs/imgui/imstb_rectpack.h:495-499 | afterwards both lists hold all nodes, each once, and the active one spells the spliced skyline |
| RectPack.Context.SetupHeuristic | libs/imgui/imstb_rectpack.h:233-243 | only the heuristic changes: 0 is bottom-left, 1 best fit |
| RectPack.Context.SetupAllowOutOfMem | libs/imgui/imstb_rectpack.h:245-263 | only the alignment changes, to 1 or to the least sufficient one |
| RectPack.Context.InitTarget | libs/imgui/imstb_rectpack.h:265-288 | all the caller's nodes are free, the two extra nodes spell an empty target |
| RectPack.Context.VisitNode | libs/imgui/imstb_rectpack.h:315-333 | the loop body is one turn of the scan |
| RectPack.Context.FindMinY | libs/imgui/imstb_rectpack.h:290-339 | returns the highest column under the rectangle and the waste of the scan |
| RectPack.Context.SearchLeft | libs/imgui/imstb_rectpack.h:349-391 | finds the best of the left-aligned candidates and a link to its node |
| RectPack.Context.TryLeft | libs/imgui/imstb_rectpack.h:368-386 | one comparison of the first loop keeps the best candidate so far and its link |
| RectPack.Context.SearchRight | libs/imgui/imstb_rectpack.h:410-441 | goes on to the best of all candidates, with the link to the node under its left end |
| RectPack.Context.TryRight | libs/imgui/imstb_rectpack.h:418-438 | one comparison of the second loop keeps the best candidate so far and its link |
| RectPack.Context.FindBestPos | libs/imgui/imstb_rectpack.h:347-447 | no link exactly when nothing is admissible, otherwise the unique best candidate, its height and its link |
| RectPack.Context.LinkIn | libs/imgui/imstb_rectpack.h:475-483 | the new node takes its place behind the kept ones |
| RectPack.Context.TakeNode | libs/imgui/imstb_rectpack.h:464-469 | the first free node leaves the free list with the new position in it |
| RectPack.Context.FreePassed | libs/imgui/imstb_rectpack.h:485-493 | the nodes passed by the right end are on the free list, the others still hang together |
| RectPack.Context.StitchIn | libs/imgui/imstb_rectpack.h:495-499 | the new node leads to the first node kept, which is cut back; both lists hold all nodes again |
| RectPack.Context.Relink | libs/imgui/imstb_rectpack.h:464-499 | in place, the two lists are again made of all nodes and the active one spells the spliced skyline |
| RectPack.Context.PackRectangle | libs/imgui/imstb_rectpack.h:449-526 | one call is one packing step: turned away with nothing changed exactly when no position can be chosen, otherwise placed at the best position |
| RectPack.TurnedAway | libs/imgui/imstb_rectpack.h:455-462 | the three reasons to bail out are the ways no position can be chosen |
| RectPack.LetThrough | libs/imgui/imstb_rectpack.h:455-462 | otherwise the reported position is the one to choose |
| PackRects.HeightOrder | libs/imgui/imstb_rectpack.h:528-537 | the first comparator is a total preorder: higher first, among equal heights wider first |
| PackRects.OriginalOrder | libs/imgui/imstb_rectpack.h:539-544 | the second comparator is the order of the indices kept |
| PackRects.Tag | libs/imgui/imstb_rectpack.h:550-553 | each rectangle keeps its index in `was_packed` |
| PackRects.PackOne | libs/imgui/imstb_rectpack.h:559-569 | an empty rectangle goes to (0, 0) and changes nothing, any other is packed or marked |
| PackRects.PackAll | libs/imgui/imstb_rectpack.h:558-570 | the rectangles go through packing steps in their sorted order; only positions are written |
| PackRects.Unsorted | libs/imgui/imstb_rectpack.h:572-573 | sorting by the kept index undoes the first sort, whatever sort was used |
| PackRects.Assembled | libs/imgui/imstb_rectpack.h:546-584 | tagging, sorting, packing, sorting back and flagging together give every index its own rectangle with position and flag |
| PackRects.SetFlags | libs/imgui/imstb_rectpack.h:575-583 | a flag is cleared exactly for the marked ones, and the result is 1 exactly when all are set |
| PackRects.StepAdds | libs/imgui/imstb_rectpack.h:558-580 | the rectangles that take up space are exactly those placed; empty ones are flagged |
| PackRects.PackedSafe | libs/imgui/imstb_rectpack.h:546-584 | after a call they are inside, disjoint from each other and from everything placed by earlier calls |
| PackRects.PackedPlainly | libs/imgui/imstb_rectpack.h:546-584 | what follows for the caller, from the packing steps, in coordinates |
| PackRects.PackRects | libs/imgui/imstb_rectpack.h:546-584 | the whole call: higher rectangles are packed first, among equal heights wider ones; each index keeps id and size; empty ones end at (0, 0) flagged, those without a place at twice 0x7fffffff with flag 0, the others inside the target without overlap, placed by a run of packing steps; the result is 1 exactly when all are flagged; the context is ready for the next call |

## Left out

- RectPack.Context.InitTarget: targets of width or height `1 << 30` and more are left out, where sums of two coordinates leave 32 bits and heights reach that of the sentinel; a target needs at least one node, because with none the original writes outside the array and divides by zero.
- 32-bit overflow elsewhere in the packer: sizes of rectangles are not negative and may be any integer; rounding a width and the products in the waste are not truncated.
- Pointers of the packer are indices into one array that holds the caller's nodes and behind them the two extra nodes of the context; a null pointer is -1 and a pointer to a pointer is a value of `RectPack.Link`.
- PackRects.Sort: stands for `STBRP_SORT`, which may be any sorting function; the callers use its contract alone, so its own loop models nothing in the file.
- The static buffer belongs to one reader at a time: between two calls nobody else writes to it.
- LzwTable.LZWState.Init: for flags other than 0x8E only the field values are stated; the decoder never passes others, and shifts by 31 are excluded.
- LzwEncoder.RoundTrip: counts codes in an unbounded integer; what a 16-bit `int` does is `NarrowCounters.NarrowCounterIff`.
- ExactPlacements.ExactPlacementIff: asks that the rounded width and three times the alignment stay below `1 << 30`, so that a target has room for the run that shows the failure; `ExactPlacements.NearlyRounded` needs no bound.
- Bwt.FullOrbitRearranges: one direction, because periodic blocks are rearranged by walks that do not visit every row.
- `bwt_unsort` with `firstindex` out of range, or with `dest` and `src` the same array: excluded, the original reads outside the block or its own output.
- Text and mask of `wildcmp` are sequences of non-zero bytes, and `tolower` is that of the C locale.
- `malloc` failing and `PROGRESS_TICK` in `decompress_compress`; the macro form of `br_bit`.
- `UFile` is a byte sequence and a position; `uf_seek`, `uf_skip` and the wider reads are not modelled, and neither is the Mac version of the file functions.
- The Arsenic, LZSS13 and Huffman decoders, the archive parsers, method dispatch and checksums of `macsrc/unsit`; everything in `macsrc/init`; the rest of `doctest.h` and of `libs/imgui`.
