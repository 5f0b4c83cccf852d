# LiveCode engine: binary patches, blurs, text chunks and three smaller codecs

This project models five parts of the engine and proves what they are for. Code that works in place
is modelled in place: the two arrays of the suffix sort, the row tables and the row ring of the
blurs, the text buffer of a container, streams and bucket lists are arrays and objects that methods
update. Each such method is proved against a definition, and theorems give the definitions meaning.
Most know nothing of the algorithm: the suffix array, the naive blur and the direct convolution, the
split of a text. Some follow the code step by step, and what they are good for is proved apart:
`MatchSearch.Search` lands where its bisection does, and `SearchFinds` says which matches that finds;
`PatchApply.ReplayTriple` takes one step of the replay, and `PatchRoundTrip.BuildAndApply` says that
the replay of a built patch is the new file; `BoxBlur.Blur.Process` scales its sums as the engine
does, and `BlurMask.EngineIsNaive` says which of them come out as meant.

**Binary patches.** `SuffixOrder`, `SuffixRanks`, `SuffixSplit`, `SuffixBuckets` and `SuffixSort`
sort the suffixes of the old file. The list `I` holds sorted runs and unsorted groups at once, so a
ghost permutation carries what the run marks overwrite. `MatchSearch` says exactly which matches the
binary search finds: it can miss the longest one, and the condition under which it does is proved,
with an example. `PatchScan`, `PatchRecord` and `PatchBuild` are the greedy scan and the records it
emits; `PatchFormat` and `PatchApply` the file format and its replay; `PatchRoundTrip` puts the two
ends together. `PatchLimit` and `PatchOverflow` show where that ends: new files whose patch is too
large for its header, and patch files whose sums leave the 32-bit numbers. `PatchSelf` is the patch
of a file against itself, and `PatchExample` a patch file byte for byte; both, like `PatchLimit`,
pin what the definitions along the way compute. `PatchRounds` serves
`PatchSelf` and `PatchLimit`.

**Blurs.** `BlurPlane` defines the naive box blur on an infinite plane. `RowSlots`, `BoxPass`,
`BlurGeometry` and `BoxBlur` are what the engine does instead: summed-area tables modulo
2^32, clipped to what is needed, filled on demand by a recursion that shares one row buffer. `BlurMask`
says what a mask value is meant to be, what the engine computes, and when they agree.
`FastGaussian` is the separable blur over a ring of rows, reading its input through `PixelSource`,
wherever its row pointer leads; its reference is a two-stage convolution on the same plane.

**Text chunks.** `Delimited` is the theory of delimiter-separated text: splitting, joining, padding,
and the stretch that some parts take up. `Chunk` is the engine's marking of such a stretch inside a
buffer, with `set`, `gets` and `del` on top of it. `ChunkLaws` states what these do to the lines and
items of a text, and `ChunkRefs` which of them the references name.

**Codecs.** `TextWalk` is the walk over single-byte and UTF-16 blocks of a paragraph, and `Utf16` the
encoding of code points that it is measured against. `Capsule` is the bucket queue that feeds a
capsule, `EffectPickle` the bit-packed bitmap effects, with `EffectExample` some of them byte for byte.
`NetworkOrder` is the byte order of their numbers and of those in a patch; `Basics` is what every part
uses.

## What turned out not to hold

Each of these is a lemma with the exact condition, or with an example next to the general statement.

- The match search does not always report the longest match (`MatchSearch.SearchFinds`,
  `SearchMissesLongest`); the builder is right all the same.
- The last scaling of the box blur is the saturated quotient for all but some window sums
  (`BlurMask.MaskIsSaturatedQuotient`). Up to radius 127 that is one sum (`SmallWindows`,
  `SaturationWraps`); beyond, the constant of the saturation test wraps around at 32 bits
  (`ConstantFits`, `LargeWindowSaturates`).
- With addresses of more than 32 bits the fast Gaussian blur starts at the wrong row if the input
  starts above the output (`PixelSource.Source.StartAboveOutput`, `PixelSource.StartTooFar`). It then
  reads wrong pixels if and only if the input, grown by the radius, reaches the output
  (`FastGaussian.BlurAll`).
- The round trip of a patch needs a control block that fits a signed 32-bit size
  (`PatchRoundTrip.BuiltIsReadable`). It fits for every new file of up to 1610612724 bytes. There are
  larger ones for which it does not, the first one shown 24 bytes larger (`PatchLimit.BuildTooLarge`,
  `PatchLimit.JustTooLarge`).
- A patch file without a negative size or length can still make the sums of the replay overflow, and
  so pass a bounds test that should fail, or move to the wrong place (`PatchOverflow.LengthOverflows`,
  `PatchOverflow.SeeksOverflow`). With `PatchFormat.RunFits` no sum does; every patch that is built
  meets it (`PatchRecord.SmoothFits`, `PatchBuild.Build`).
- With a spread of zero the mask is not full throughout, as a comment says, but only where the sum
  is positive (`BlurMask.MaskWithoutSpread`).
- What is put into an item of a line is always got back if lines and items have different delimiters,
  and only in the first item otherwise (`ChunkLaws.PutItem`, `EqualDelimiters`,
  `EqualDelimitersLose`, `EqualDelimitersShort`).
- Deleting an item that is not there changes the text if its line is not there either
  (`ChunkLaws.DeleteMissingItem`, `DeletingAddsLines`).
- Reading effects takes as many bytes as their size field declares only if that is not less than the
  effects themselves take (`EffectPickle.TakesDeclared`, `TakesTooMuch`).

## Model

| member | source | states |
|---|---|---|
| `SuffixOrder.LessIsLexicographic` | engine/src/bsdiff_build.cpp:123-159 | the step-by-step order of suffixes that the ranks follow is the lexicographic order of the byte strings, a proper prefix first |
| `SuffixRanks.SplitKeepsRanked` | engine/src/bsdiff_build.cpp:115-120 | cutting the front part off a group, when its suffixes come before all the others of the group, keeps that a lower rank means an earlier suffix and an equal rank agreement on h bytes |
| `SuffixSplit.KeysOrder` | engine/src/bsdiff_build.cpp:66-118 | inside a group of the same first h bytes, the rank h further on orders suffixes, and equal ones agree on 2h bytes; this holds although ranks are refined while they are read |
| `SuffixSplit.SelectLeast` | engine/src/bsdiff_build.cpp:68-78 | one round of the selection path only permutes its segment and puts exactly the entries with the least key in front |
| `SuffixSplit.CloseGroup` | engine/src/bsdiff_build.cpp:117-118 | a stretch whose suffixes agree on 2h bytes becomes one group, numbered by its last place, marked -1 if it is a single one; nothing else changes |
| `SuffixSplit.SplitBySelection` | engine/src/bsdiff_build.cpp:66-83 | the path for short segments meets the same specification as the partition |
| `SuffixSplit.Partition` | engine/src/bsdiff_build.cpp:85-113 | the two swap loops only permute the segment, stay inside it, and leave the keys below, equal to and above the pivot in three adjacent parts, the middle one not empty |
| `SuffixSplit.PartsByKey` | engine/src/bsdiff_build.cpp:85-113 | the three parts are in suffix order, and the middle one agrees on 2h bytes |
| `SuffixSplit.Split` | engine/src/bsdiff_build.cpp:62-121 | a ready stretch of one group is regrouped: positions outside it are untouched, its suffixes are rearranged into whole groups that agree on 2h bytes, single ones marked -1, and both recursive calls are on shorter stretches |
| `SuffixBuckets.CountBytes` | engine/src/bsdiff_build.cpp:128-132 | each bucket starts at the number of smaller bytes in the file |
| `SuffixBuckets.BucketedIsRanked` | engine/src/bsdiff_build.cpp:133-139 | placing each suffix at its slot and ranking it by the end of its bucket gives groups for h = 1 |
| `SuffixSort.PlaceSuffixes` | engine/src/bsdiff_build.cpp:128-135 | every suffix is at its own slot, the empty one in front, and the buckets end up holding their last places |
| `SuffixSort.BucketPass` | engine/src/bsdiff_build.cpp:125-139 | the whole first pass establishes the invariant of the doubling loop for h = 1 |
| `SuffixSort.Phase` | engine/src/bsdiff_build.cpp:142-155 | one phase takes the invariant from h to 2h: ranks order suffixes, equal ranks agree on the first bytes, groups are contiguous and numbered by their last place, and the list is tiled by finished runs and open groups |
| `SuffixSort.SortingBounds` | engine/src/bsdiff_build.cpp:141-156 | the loop is over when the first entry says so, and some group is open only while h is at most the size, so the loop ends |
| `SuffixSort.SettledIsSuffixArray` | engine/src/bsdiff_build.cpp:141-159 | once every group is a single suffix, the order is the suffix array |
| `SuffixSort.SortSuffixes` | engine/src/bsdiff_build.cpp:123-159 | for every byte string, the list ends as all suffixes, the empty one too, in strictly increasing order, and the ranks as its inverse |
| `MatchSearch.MatchLength` | engine/src/bsdiff_build.cpp:161-169 | the length of the longest common prefix |
| `MatchSearch.Search` | engine/src/bsdiff_build.cpp:171-195 | the better of the two suffixes at which the bisection lands, with its position; on a tie the later one |
| `MatchSearch.SearchFinds` | engine/src/bsdiff_build.cpp:171-195 | a match of k bytes is found if and only if the k bytes occur in the old file and the bisection is not misled by a suffix that is a proper prefix of the target |
| `MatchSearch.SearchFindsFirstByte` | engine/src/bsdiff_build.cpp:171-195 | no match is reported if and only if the first byte does not occur in the old file |
| `MatchSearch.SearchFindsLongest` | engine/src/bsdiff_build.cpp:171-195 | the match is at least as long as that at any place in the old file, unless a non-empty suffix of the old file is a shorter prefix of the target |
| `MatchSearch.SearchMissesLongest` | engine/src/bsdiff_build.cpp:171-195 | the condition is needed: in aba the target ab is matched to one byte only |
| `PatchScan.UnmatchedByte` | engine/src/bsdiff_build.cpp:334-347 | where the search reports nothing, going on at any offset would not agree either |
| `PatchScan.ScanMoves` | engine/src/bsdiff_build.cpp:337-347 | moving on by a byte keeps the score equal to the number of agreeing bytes between scan and frontier, so it is never negative |
| `PatchScan.NextMatch` | engine/src/bsdiff_build.cpp:331-348 | the scan ends at the first place where the match equals the score and is not empty, or beats it by more than eight, or at the end; the match it reports is not empty and is what the search finds there |
| `PatchScan.ExtendForward` | engine/src/bsdiff_build.cpp:351-356 | the first of the lengths at which twice the agreeing bytes less the length is greatest |
| `PatchScan.ExtendBackward` | engine/src/bsdiff_build.cpp:358-365 | the same, backwards from the new match |
| `PatchScan.CutOverlap` | engine/src/bsdiff_build.cpp:368-376 | the first cut of an overlap at which the bytes agreeing with the left match less those agreeing with the right one are most |
| `PatchScan.ForwardPieces` | engine/src/bsdiff_build.cpp:351-356 | a length is the one that the forward extension finds if and only if more than half of the bytes agree in every piece at its end, and in no piece that follows it |
| `PatchScan.BackwardPieces` | engine/src/bsdiff_build.cpp:358-365 | the same of the backward extension and the pieces at its far end |
| `PatchScan.CutAgrees` | engine/src/bsdiff_build.cpp:368-376 | a cut of an overlap is the one found if and only if it is the first one with which most bytes agree in the two records together |
| `PatchRecord.DividedFits` | engine/src/bsdiff_build.cpp:350-380 | after the overlap is cut both extensions are not negative, stay inside the old file, and no longer overlap; if they did they now meet |
| `PatchRecord.AddUndoesSub` | engine/src/bsdiff_build.cpp:382-383 | adding the old bytes modulo 256 undoes the subtraction |
| `PatchRecord.RecordStep` | engine/src/bsdiff_build.cpp:382-416 | replaying one emitted record takes the replay from the end of the previous stretch to the end of this one |
| `PatchRecord.CoversMore` | engine/src/bsdiff_build.cpp:382-416 | if the records so far replay to the new file up to lastscan, so do they with the next record, up to its end; lengths stay in 32 bits |
| `PatchBuild.EmitRecord` | engine/src/bsdiff_build.cpp:382-409 | diff bytes, extra bytes and the control triple are appended to the two buffers and the stream, and to nothing else |
| `PatchBuild.Finish` | engine/src/bsdiff_build.cpp:437-474 | diff and extra bytes follow the control block and the three sizes overwrite the provisional header |
| `PatchBuild.Build` | engine/src/bsdiff_build.cpp:215-474 | the file written is the one of a patch that replays to the new file exactly, was built by rounds of the greedy scan over the suffix array, has records that tile the new file, at most one for every nine bytes and one more, and takes no sum beyond 32 bits when it is replayed |
| `PatchFormat.Int32RoundTrip` | engine/src/mode_installer.cpp:808-850 | a number comes back from its four bytes if and only if it fits 32 bits |
| `PatchFormat.ParseRoundTrip` | engine/src/bsdiff_build.cpp:318-474 | a patch whose numbers fit is parsed back from its file |
| `PatchFormat.InputStream.ReadInt32` | engine/src/mode_installer.cpp:808-819 | four bytes in network order, or failure without moving if fewer are left |
| `PatchFormat.OutputStream.WriteBytes` | engine/src/mode_installer.cpp:837-845 | bytes overwrite what is at the position and extend the file beyond its end |
| `PatchApply.ReadControl` | engine/src/bsdiff_apply.cpp:95-97 | the control numbers are those at the position, and each read decides success anew |
| `PatchApply.ReadPatch` | engine/src/bsdiff_apply.cpp:63-102 | reading succeeds if and only if the file holds what its header says, and gives the parsed patch |
| `PatchApply.AddOld` | engine/src/bsdiff_apply.cpp:131-133 | old bytes are added modulo 256, and positions outside the old file add nothing |
| `PatchApply.ReplayTriple` | engine/src/bsdiff_apply.cpp:125-152 | one turn of the loop, in 32-bit arithmetic, is one step of the replay; diff bytes that do not fit fail, extra bytes that do not fit are passed over |
| `PatchApply.ReplayInto` | engine/src/bsdiff_apply.cpp:104-153 | the loop computes the replay of all triples, and fails if and only if that does, wherever its sums are 32-bit numbers |
| `PatchApply.Apply` | engine/src/bsdiff_apply.cpp:58-166 | the output is written exactly when the patch parses and replays, and is then the replayed file, wherever the sums of the replay are 32-bit numbers |
| `PatchRecord.SmoothFits` | engine/src/bsdiff_apply.cpp:125-152 | a replay whose triples are all carried out in full, at places in the old file that are 32-bit numbers, takes no sum that is not |
| `PatchOverflow.LengthOverflows` | engine/src/bsdiff_apply.cpp:125-128 | a file of 41 bytes with no negative size or length: the replay is stuck at the second triple, but on a host that wraps around both bounds tests pass |
| `PatchOverflow.SeeksOverflow` | engine/src/bsdiff_apply.cpp:125-152 | a file of 65 bytes with no negative size or length: after three moves the place in the old file is 2^32 and the new byte is 0, but on a host that wraps around it is the first old byte |
| `PatchRoundTrip.BuiltIsReadable` | engine/src/bsdiff_apply.cpp:63-102 | what the builder writes, the reader parses into the same patch if and only if the control block fits a signed 32-bit size |
| `PatchRoundTrip.BuildAndApply` | engine/src/bsdiff_build.cpp:215-474 | for all old and new files of less than 2^31 bytes, if the control block fits, building a patch and applying it succeeds and gives the new file; it fits for every new file of up to 1610612724 bytes |
| `PatchLimit.RecordEveryNine` | engine/src/bsdiff_build.cpp:330-453 | for an old file of 28 bytes and a new file that repeats two of its stretches in turns, every run of the builder emits just one record for every nine bytes, so that the control block fits up to three quarters of 2^31 bytes and no further |
| `PatchLimit.BuildTooLarge` | engine/src/bsdiff_build.cpp:215-474 | so for such new files of 1610612736 bytes or more, below 2^31, the patch that is built is right, but the size of its control block is read as a negative number |
| `PatchSelf.SelfPatch` | engine/src/bsdiff_build.cpp:330-453 | every run of the builder on a non-empty file and itself ends with one record, all diff bytes zero and no extra bytes |
| `PatchSelf.BuildSelf` | engine/src/bsdiff_build.cpp:215-474 | so the patch file of a non-empty file against itself is 28 bytes longer than it, and holds that record |
| `PatchExample.ApplyFile` | engine/src/bsdiff_apply.cpp:58-166 | applying a patch file of 45 given bytes to ABC writes BxyAA: network order, a negative move, sums modulo 256, and a control size that is no multiple of four |
| `PatchExample.ExtraPassedOver` | engine/src/bsdiff_apply.cpp:142-152 | extra bytes that do not fit are passed over together with the move, and the replay goes on |
| `PatchExample.NoTriples` | engine/src/bsdiff_apply.cpp:104-124 | without control numbers the replay succeeds if and only if the new file is empty |
| `BlurPlane.Image.LevelRange` | engine/src/bitmapeffectblur.cpp:739-748 | every value of every naive pass is from 0 to 255 |
| `BlurPlane.Image.LevelFlat` | engine/src/bitmapeffectblur.cpp:739-748 | where alpha is the same as far around as the radii reach, no pass changes it |
| `BlurPlane.Image.LevelBeyond` | engine/src/bitmapeffectblur.h:49-54 | beyond the input grown by the radii spent so far every pass is transparent |
| `BlurPlane.Image.RectClip` | engine/src/bitmapeffectblur.cpp:707-748 | cutting transparent parts off a window does not change its sum |
| `BlurPlane.Image.FourCorners` | engine/src/bitmapeffectblur.cpp:739-748 | a window sum is that of four corners of a table of sums |
| `BlurPlane.CornersModulo` | engine/src/bitmapeffectblur.cpp:748-855 | keeping the table modulo 2^32 loses nothing while the window sum fits |
| `BlurGeometry.RegionNotEmpty` | engine/src/bitmapeffectblur.cpp:613-641 | if input and output meet, no pass has an empty region, as the engine asserts |
| `BlurGeometry.OutsideIsBeyond` | engine/src/bitmapeffectblur.cpp:626-668 | what a window needs outside the region of a pass is transparent |
| `BlurGeometry.ClippedSum` | engine/src/bitmapeffectblur.cpp:707-748 | so the clipped window has the sum of the whole one |
| `BlurGeometry.NothingShows` | engine/src/bitmapeffectblur.cpp:613-618 | if input and output do not meet, nothing shows |
| `RowSlots.SlotOf` | engine/src/bitmapeffectblur.cpp:690-693 | adding the height until the row is not negative gives its slot |
| `RowSlots.SlotsApart` | engine/src/bitmapeffectblur.cpp:762-765 | rows less than a buffer height apart have different slots |
| `BoxPass.Pass.AddRow` | engine/src/bitmapeffectblur.cpp:762-778 | the table grows by one row of sums, logged as computed; only the slot of that row is written and not its column 0, and rows that still count, the zero row among them, have other slots |
| `BoxPass.Pass.CornerQuery` | engine/src/bitmapeffectblur.cpp:739-748 | the four-corner query in 32-bit arithmetic is the true sum of the rectangle |
| `BoxBlur.RadiiSum` | engine/src/bitmapeffectblur.cpp:632-633 | the radii of the passes add up to the radius |
| `BoxBlur.RadiiAre` | engine/src/bitmapeffectblur.cpp:632-633 | each pass has the radius divided by the number of passes, and what is left over goes to the first ones, one each |
| `BoxBlur.EvenRadii` | engine/src/bitmapeffectblur.cpp:632-633 | no other radii that differ by one at most, the larger ones first, add up to the radius |
| `BoxBlur.BuildPasses` | engine/src/bitmapeffectblur.cpp:600-668 | each pass gets its radius and the intersection of the dilated input with what is needed of it, and an all-zero table |
| `BoxBlur.Blur.constructor` | engine/src/bitmapeffectblur.cpp:576-678 | a new blur, of any radius up to 255 and any number of passes, is ready for scanline 0 |
| `BoxBlur.Blur.QueryIsLevel` | engine/src/bitmapeffectblur.cpp:710-748 | the value a pass reads off the previous table is the value of the naive pass |
| `BoxBlur.Blur.FillFromPass` | engine/src/bitmapeffectblur.cpp:705-750 | when the row has been filled, after the recursion, the shared buffer holds this row of this pass |
| `BoxBlur.Blur.CalculateRows` | engine/src/bitmapeffectblur.cpp:680-781 | rows up to the needed one are computed in order, each once, as the log of each pass says, and all tables below stay right and no further ahead than needed |
| `BoxBlur.Blur.SumRead` | engine/src/bitmapeffectblur.cpp:797-855 | for every radius, the sum that is read for a mask value is that of the whole window in the naive blur |
| `BoxBlur.Blur.Process` | engine/src/bitmapeffectblur.cpp:783-897 | the next scanline is the scaled naive blur where the last pass reaches and zero elsewhere, and the blur is ready for the scanline after it |
| `BlurMask.ConstantFits` | engine/src/bitmapeffectblur.cpp:836-840 | the constant of the saturation test fits 31 bits just up to radius 90 and 32 bits just up to radius 127 |
| `BlurMask.SmallWindows` | engine/src/bitmapeffectblur.cpp:834-859 | up to radius 127 the scaling is right for every sum but the one with sum * spread == 65536 * area |
| `BlurMask.MaskIsSaturatedQuotient` | engine/src/bitmapeffectblur.cpp:834-859 | the scaling in 32 bits is min(255, sum * spread / (256 * area)) if and only if the scaled sum is neither above what the wrapped constant lets through and below 255, nor let through at just 256 |
| `BlurMask.MaskWithoutSpread` | engine/src/bitmapeffectblur.cpp:834-859 | without spread the mask is 255 where the sum is positive and 0 elsewhere, where the comment in the code says 255 throughout |
| `BlurMask.SaturationWraps` | engine/src/bitmapeffectblur.cpp:834-859 | at 256 the mask is 0, not 255: half transparent input with radius 28 and spread 512 |
| `BlurMask.LargeWindowSaturates` | engine/src/bitmapeffectblur.cpp:836-859 | beyond radius 127 the mask can be full too early: alpha 2 throughout with radius 128 and spread 256 gives 255, not 2 |
| `BlurMask.EngineIsNaive` | engine/src/bitmapeffectblur.cpp:834-868 | a mask pixel is that of the naive blur if and only if its window sum is one that is scaled rightly |
| `BoxBlur.BlurAll` | engine/src/bitmapeffectblur.h:46-65 | for every radius and number of passes, a whole run is the naive blur on an infinite transparent plane with radii that are even and add up to the given one and with the scaling of the engine, and at each pixel the blur that is meant if and only if that scaling is right there |
| `BlurMask.FlatMask` | engine/src/bitmapeffectblur.cpp:834-859 | where alpha is the same as far around as the radii reach, the mask that is meant is that alpha times spread / 256, at most 255 |
| `BoxBlur.BlurPixel` | engine/src/bitmapeffectblur.h:46-65 | one pixel of alpha 225, blurred with radius 2 in two passes and spread 788, gives 76 at its place and 8 two pixels off it both ways |
| `FastGaussian.Convolution.RowClip` | engine/src/bitmapeffectblur.cpp:401-424 | only kernel entries over the input count in a row |
| `FastGaussian.Convolution.ColumnClip` | engine/src/bitmapeffectblur.cpp:384-388 | only rows of the input count in a column |
| `FastGaussian.Convolution.NothingSaturates` | engine/src/bitmapeffectblur.cpp:346-354 | with a kernel of total weight at most one no sum saturates, and the mask is the plain weighted mean |
| `FastGaussian.Convolution.FlatMask` | engine/src/bitmapeffectblur.cpp:346-354 | where the kernel lies over one alpha only, the mask is that alpha times the total weight, saturated and cut, in the row and again in the column, and at most 255 |
| `FastGaussian.Convolution.FlatStays` | engine/src/bitmapeffectblur.cpp:438-469 | with total weight one that alpha stays, and with any greater weight opaque input stays opaque |
| `FastGaussian.Convolution.MaskMonotone` | engine/src/bitmapeffectblur.cpp:438-469 | higher alphas and higher kernel entries never lower the mask |
| `FastGaussian.Convolution.OnePixel` | engine/src/bitmapeffectblur.cpp:384-469 | a single pixel is weighted with the kernel entry of its column and with that of its row |
| `FastGaussian.WordProduct` | engine/src/bitmapeffectblur.cpp:419-454 | no weighted product exceeds 32 bits |
| `FastGaussian.Blur.RingSlotIsSlot` | engine/src/bitmapeffectblur.cpp:395-436 | the unsigned remainder is the slot for every row that is read, also for negative rows |
| `FastGaussian.Blur.Sample` | engine/src/bitmapeffectblur.cpp:401-426 | one ring entry is the saturated row convolution |
| `FastGaussian.Blur.FillRows` | engine/src/bitmapeffectblur.cpp:395-430 | new rows go to their slots and leave the others that still count |
| `FastGaussian.Blur.ColumnValue` | engine/src/bitmapeffectblur.cpp:438-469 | the walk around the ring gives the saturated column convolution, cut to a byte |
| `FastGaussian.Blur.Process` | engine/src/bitmapeffectblur.cpp:377-502 | the next scanline is that of the direct convolution, and the ring holds the rows it should |
| `PixelSource.Source.StartIsTop` | engine/src/bitmapeffectblur.cpp:365-373 | the row pointer starts at the first input row if and only if addresses have 32 bits or the unsigned distance to that row is right |
| `PixelSource.Source.StartAboveOutput` | engine/src/bitmapeffectblur.cpp:365-373 | so with 64-bit addresses and rows that run down in memory it is wrong just when the input starts above the output |
| `PixelSource.StartTooFar` | engine/src/bitmapeffectblur.cpp:365-373 | one row above the output with rows of 100 pixels, it starts 4294967196 pixels on instead of 100 back |
| `FastGaussian.Blur.constructor` | engine/src/bitmapeffectblur.cpp:323-375 | a new blur is ready for scanline 0, and its row pointer is at the intended place if and only if the radius is zero, addresses have 32 bits or the unsigned distance to the first input row is right |
| `FastGaussian.Blur.WentAstray` | engine/src/bitmapeffectblur.cpp:377-502 | after any number of scanlines, a pixel other than the intended one was read if and only if the pointer started wrong and the input, grown by the radius, reaches those scanlines |
| `FastGaussian.NothingReaches` | engine/src/bitmapeffectblur.cpp:377-502 | an input that, grown by the radius, does not reach the output leaves it zero, whatever its pixels |
| `FastGaussian.BlurAll` | engine/src/bitmapeffectblur.h:46-65 | a whole run is the direct two-stage convolution, on an infinite transparent plane, of the image that the row pointer sees; every pixel read is the intended one if and only if the pointer starts right or the input, grown by the radius, does not reach the output, and then it is the convolution of the given image |
| `FastGaussian.CopyPixels` | engine/src/bitmapeffectblur.cpp:474-502 | without a radius a run over sixteen pixels in memory, four to a row, copies the two by two that are the input, and zeros below |
| `Delimited.JoinSplit` | engine/src/chunk.cpp:1466-1578 | joining the parts of a text gives the text |
| `Delimited.SplitJoin` | engine/src/chunk.cpp:1466-1578 | parts free of the delimiter come back from the joined text |
| `Delimited.PutLaw` | engine/src/chunk.cpp:1514-1522 | replacing a stretch replaces the parts it covers, in the padded text, and nothing else |
| `Delimited.DeleteLaw` | engine/src/chunk.cpp:1506-1513 | deleting a stretch with one delimiter, the one after it or else the one before it, removes just those parts |
| `Delimited.NestedPutLaw` | engine/src/chunk.cpp:1526-1578 | the same inside one line: the other lines stay as they are |
| `Chunk.CountChunks` | engine/src/chunk.cpp:1380-1404 | the number of parts, where a delimiter at the very end does not count |
| `Chunk.CoversOnce` | engine/src/chunk.cpp:1295-1378 | only one span covers exactly the chunks between the two indices of a reference |
| `Chunk.Extents` | engine/src/chunk.cpp:1295-1378 | first to tenth, last, middle, an index or a range, from the front or the end, become the span of chunks they cover, and nothing before the first |
| `Chunk.Skip` | engine/src/chunk.cpp:1489-1497 | the position after some delimiters and how many are missing for it; at the end of the range the byte before is looked at even if it lies outside |
| `Chunk.Extend` | engine/src/chunk.cpp:1498-1505 | the end of some parts from there, or the end of the range |
| `Chunk.Container.MarkSpan` | engine/src/chunk.cpp:1487-1523 | the bounds of a span in a range; widened by a delimiter if the whole chunk is meant, or the text padded if forced |
| `Chunk.Container.Mark` | engine/src/chunk.cpp:1466-1578 | the range of an item of a line, the text changed by padding only; one delimiter too few is padded for an item of an empty line after that same delimiter |
| `Chunk.Container.Get` | engine/src/chunk.cpp:1677-1688 | the text of the chunk; the container does not change |
| `Chunk.Container.Set` | engine/src/chunk.cpp:1900-1971 | text goes before, into or after the chunk of the padded text; the shortcut for a plain variable makes no difference |
| `Chunk.Container.Delete` | engine/src/chunk.cpp:2796-2819 | the chunk goes, with the delimiter that mark takes with it |
| `ChunkLaws.PutLine` | engine/src/chunk.cpp:1475-1524 | putting into lines: the line split is the old one, padded, with those lines replaced by the new one; getting that line returns it |
| `ChunkLaws.PutItem` | engine/src/chunk.cpp:1466-1578 | putting into items of a line: the line split is the old one, padded, with that line changed; its item split is the old one, padded, with those items replaced; getting the item returns the text |
| `ChunkLaws.BesideLine` | engine/src/chunk.cpp:1475-1524 | putting before or after lines: the line split is the old one, padded, with the text put in front of the first of those lines or behind the last; getting that line returns it so grown |
| `ChunkLaws.BesideItem` | engine/src/chunk.cpp:1466-1578 | putting before or after items of a line: the other lines stay, and the item split of that line is the old one, padded, with the text put in front of the first of those items or behind the last; getting that item returns it so grown |
| `ChunkLaws.DeleteLine` | engine/src/chunk.cpp:2796-2819 | deleting lines leaves exactly the other lines, on whichever side the delimiter is taken |
| `ChunkLaws.DeleteItem` | engine/src/chunk.cpp:2796-2819 | deleting items of a line leaves exactly the other lines and the other items of that line |
| `ChunkLaws.EqualDelimiters` | engine/src/chunk.cpp:1526-1578 | if both delimiters are the same character, what is put into an item of a line is got back if and only if that is the first item or the text is empty |
| `ChunkLaws.EqualDelimitersLose` | engine/src/chunk.cpp:1526-1578 | b put into item 2 of the line a with commas for both is not got back |
| `ChunkLaws.EqualDelimitersShort` | engine/src/chunk.cpp:1526-1578 | x put into item 3 of line 2 of the text a, with commas for both gives a,,x: one delimiter too few |
| `ChunkRefs.CountIs` | engine/src/chunk.cpp:1380-1404 | a text has as many chunks as parts, or one less if the last of several is empty |
| `ChunkRefs.Resolved` | engine/src/chunk.cpp:1303-1372 | of n chunks, the last is n, the middle one n / 2 + 1, the k-th by name or number k, and -k the k-th from the end |
| `ChunkRefs.SingleLines` | engine/src/chunk.cpp:1303-1372 | getting, putting into and deleting those lines is doing so with these parts of the text |
| `ChunkRefs.GetSingle` | engine/src/chunk.cpp:1303-1372 | what is got of them is that part of the text, and empty where there is none |
| `ChunkRefs.RangeOfLines` | engine/src/chunk.cpp:1324-1352 | so for a range from a to b, each end counted from the front or from the end, and with what lies before the first line left out |
| `ChunkRefs.NoLine` | engine/src/chunk.cpp:1353-1376 | index zero and one before the first line get nothing, and put in front of the text |
| `ChunkRefs.EmptyRange` | engine/src/chunk.cpp:1324-1376 | so do ranges that end before they start, or before the first line |
| `ChunkRefs.EmptyItems` | engine/src/chunk.cpp:1526-1551 | an empty range of items gets nothing, and puts in front of the item that it starts with, or at the end |
| `ChunkRefs.ItemsOfLine` | engine/src/chunk.cpp:1526-1578 | items are counted in the line that is got, in the same way |
| `ChunkLaws.DeleteMissingItem` | engine/src/chunk.cpp:1514-1566 | deleting an item that is missing leaves the text as it is if and only if its line is there; otherwise delimiters up to the line stay behind |
| `ChunkLaws.DeletingAddsLines` | engine/src/chunk.cpp:1514-1566 | deleting item 1 of line 3 of the text a leaves it with two line ends |
| `TextWalk.NextBoundary` | engine/src/block.cpp:1900-1934 | from any position of a block the increment leads to the next boundary of a character |
| `TextWalk.PreviousBoundary` | engine/src/block.cpp:1956-1989 | and the decrement to the previous one |
| `TextWalk.StepBack` | engine/src/block.cpp:1937-1989 | at any position of the paragraph but the first the decrement leads to the stop before, whichever block at that position is asked, through empty blocks too |
| `TextWalk.OnAndBack` | engine/src/block.cpp:1900-1989 | from a stop, an increment and a decrement return to it |
| `TextWalk.BackAndOn` | engine/src/block.cpp:1900-1989 | and a decrement and an increment |
| `TextWalk.WalkVisitsStops` | engine/src/block.cpp:1900-1989 | the positions that increments reach from the start are exactly the stops |
| `TextWalk.StopsKeepPairs` | engine/src/block.cpp:1900-1989 | no stop is between the halves of a surrogate pair, whatever the bytes |
| `Utf16.Surrogates` | engine/src/unicode.h:57-77 | the units taken for high and low surrogates are just those that the encoding of code points beyond 16 bits has |
| `Utf16.StopsAreEnds` | engine/src/block.cpp:1900-1989 | in a block that holds the UTF-16 encoding of code points, in the byte order of the host, the stops are just the ends of encoded code points |
| `Utf16.StepsOverOne` | engine/src/block.cpp:1900-1989 | a step on or back is a step over one code point |
| `Utf16.WalkSpells` | engine/src/block.cpp:1900-1934 | over a text of code points, position n of the walk is the end of the first n of them |
| `Capsule.Queue.Fill` | engine/src/capsule.cpp:233-258 | the contents grow by the data at the end, and the count with them |
| `Capsule.Bucket.Take` | engine/src/capsule.cpp:378-405 | bytes move from the front of a bucket to the buffer |
| `Capsule.Queue.TakeFront` | engine/src/capsule.cpp:375-414 | one round takes what it can from the front bucket, drops it if it is empty, and makes progress even on an empty one |
| `Capsule.Queue.Read` | engine/src/capsule.cpp:351-419 | a read yields all that is asked for, or if there is less, all whole words; these are the front of the contents, and the rest stays |
| `Capsule.FirstInFirstOut` | engine/src/capsule.cpp:233-419 | over any list of fills and reads, what is read and what is left is what there was and was filled, in order |
| `Capsule.Serve` | engine/src/capsule.cpp:233-419 | running such a list on a queue of buckets reads just that and leaves just that |
| `Capsule.WholeWords` | engine/src/capsule.cpp:348-351 | if only whole words are asked for, only whole words are read |
| `Capsule.ReadStarves` | engine/src/capsule.cpp:366-369 | such a read yields nothing if and only if less than a word is left |
| `Capsule.ShortRead` | engine/src/capsule.cpp:363-369 | a read takes what it was asked for, or if there is less, whole words, so that less than a word is left |
| `NetworkOrder.UnsignedBytes` | engine/src/objectstream.cpp:149-172 | a number comes back from its bytes in network order |
| `NetworkOrder.BytesAt` | engine/src/objectstream.cpp:149-172 | byte i of k counts 256 to the power of the number of bytes after it |
| `NetworkOrder.UnsignedAppend` | engine/src/mode_installer.cpp:808-819 | bytes in front count as many times more as there are values of those behind |
| `NetworkOrder.FourBytes` | engine/src/mode_installer.cpp:808-819 | four bytes are read with the first one most significant |
| `EffectPickle.ShadowFields` | engine/src/bitmapeffect.cpp:817-923 | the fields of a shadow do not overlap in the two words, and each comes back from its place |
| `EffectPickle.GlowFields` | engine/src/bitmapeffect.cpp:829-948 | the same for a glow |
| `EffectPickle.Weigh` | engine/src/bitmapeffect.cpp:778-805 | the weight is the number of bytes that pickling writes, and fits 16 bits |
| `EffectPickle.Pickle` | engine/src/bitmapeffect.cpp:839-873 | size, mask and the effects of the mask are appended to the stream |
| `EffectPickle.Unpickle` | engine/src/bitmapeffect.cpp:950-1027 | reading succeeds if and only if header, effects and trailer are there, gives the effects at their places, and otherwise leaves the old effects |
| `EffectPickle.RoundTrip` | engine/src/bitmapeffect.cpp:839-1027 | effects that were pickled, with any declared size and anything around them, are read back the same whenever the trailer that the size leaves is there |
| `EffectPickle.PickleAndUnpickle` | engine/src/bitmapeffect.cpp:839-1027 | through the two streams, with anything after them, effects come back the same and just the bytes written are used |
| `EffectExample.EffectBytes` | engine/src/bitmapeffect.cpp:807-873 | for one effect of each kind alone, and for all five, the bytes are given: header, mask bit, color, bit fields, and the order of the effects |
| `EffectExample.PickleAll` | engine/src/bitmapeffect.cpp:839-873 | the five effects written through a stream are those 45 bytes |
| `EffectPickle.TakesDeclared` | engine/src/bitmapeffect.cpp:978-1018 | reading takes the declared number of bytes if and only if that is at least what the effects take |
| `EffectPickle.TakesTooMuch` | engine/src/bitmapeffect.cpp:978-1018 | a size of 10 before a drop shadow makes it take 65546 bytes |

## Left out

- Failing streams, failing allocation and files too large for the machine: every write succeeds, and
  a read fails only at the end of the data.
- PatchBuild.Build: takes the two files as byte strings; measuring and reading them, and freeing the
  arrays, are not modelled.
- PatchApply.ReadPatch: assumes that the sizes in the header are not negative, since the code hands
  them to the allocator unchecked as unsigned ones.
- PatchApply.ReplayTriple: assumes lengths that are not negative, since the code hands them to memory
  copies unchecked, and sums that are 32-bit numbers, since C++ leaves signed overflow undefined.
- PatchApply.ReplayInto: assumes the same of all triples that are replayed.
- PatchApply.Apply: assumes all of this of the patch file.
- PatchRoundTrip.BuildAndApply: does not say what applying does when the control block does not fit.
- The bzip2 container of the original bsdiff, which is commented out, and `offtout`.
- BoxBlur.BlurAll: the spread, which the engine computes in floating point, is a parameter. Strides
  are not modelled: rows of pixels are addressed by their number. Signed overflow of the constant in
  the saturation test, which C++ leaves undefined, wraps around.
- FastGaussian.BlurAll: the kernel is a parameter with entries of at most 65536, as its computation in
  floating point gives. Every address has a pixel: that a wrong row pointer can lead to memory that
  is not there is not modelled.
- The original Gaussian blur, which is never built, and the compositing of the masks.
- Chunk.Extents: `any`, which is random, and errors while evaluating the indices.
- Chunk.Container.Mark: words, tokens and characters inside an item, and field chunks.
- TextWalk.StepBack: the layout of text into blocks is given; block splitting, drawing and measuring
  are not modelled.
- Capsule.Queue.Read: buckets of files, and a bucket filled from a null pointer with no data; the
  decompression and checksums behind the queue.
- EffectPickle.Pickle: effects are those of a 16-bit mask with fields of their bit widths; setting,
  scaling and rendering effects.
