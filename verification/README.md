# Verified kernels of waywal

This project models the algorithmic kernels of the waywal wallpaper daemon in Dafny and proves what
they are for.  Colours, weights and times are exact reals; counts, codes and bits are integers;
buffers, dictionaries and lexers that the program updates in place are arrays and classes.

| component | files |
|---|---|
| Wu colour quantiser | `WuMass`, `WuCells`, `WuHistogram`, `WuExtent`, `WuVariance`, `WuCut`, `WuPartition` |
| weighted k-means, and both together | `KMeans`, `Palette` |
| GIF image decoder | `GifBits`, `GifRows`, `GifRaster`, `GifLzw`, `GifDecoder`, `GifStream` |
| H.264 sequence parameter sets | `RbspBits`, `SpsReader`, `SpsParser`, `SpsScaling` |
| JSON escaper and parser | `JsonText`, `JsonUnicode`, `JsonValue`, `JsonLayout`, `JsonDecimal`, `JsonLexer` |
| user-property bindings | `Bindings`, `BindingAgreement` |
| path normaliser | `PathNormalize` |
| template renderer | `Template` |
| timed wallpaper schedule | `Schedule`, `ScheduleClock` |
| easing curves | `BezierCurve`, `BezierSolver`, `BezierAccuracy`, `BezierPresets`, `Bezier` |
| shared parts | `Arith`, `RealArith`, `Counting`, `Bits`, `Options` |

How the proofs are laid out:

* **Wu quantiser.**  The specification is one function: `WuMass.Mass(samples, box)`, the sum over
  the accumulated samples that fall into a box.  Raw bins, prefix sums, box sums and halves are all
  masses of boxes, so one splitting lemma replaces every summation argument.  The histogram keeps
  the sample list as a ghost field.  Partitioning is a run of greedy steps over lists of boxes; the
  invariant, the error bound and termination are proved for every run and the loop is shown to be one.
* **k-means.**  A round is a relation between two states (nearest assignment, then cluster means);
  the error never rises along it.  The method is shown to take exactly such rounds.
* **GIF.**  `GifLzw.Decode` is the table-of-strings decoder of GIF89a, Appendix F.  The
  prefix/suffix/stack decoder refines it on every byte stream, and an encoder relation (any choice of
  known strings, clear codes anywhere) with its own width schedule is inverted by it through the sub-blocks.
* **SPS.**  The syntax of section 7.3.2.1.1 of ITU-T H.264 is a datatype with a serialiser; the
  parser is proved to invert it behind escaping (7.3.1) and Exp-Golomb codes (9.1).
* **JSON.**  Functional parsers over byte sequences, refined by the lexer class; they are proved on every
  text of a tree, with any white space, comments and commas.
* **Bindings, templates, paths, schedule, Bezier.**  In each the loop is tied to a function or
  relation of its own, about which the round trip, idempotence, constancy or error bound is proved.

Six places where the code does not do what it is meant to do everywhere are stated with the
conditions under which it does:

* prefix sums outside the active colour range (`WuCut.CumulativeExtent`, `WuExtent.PastRangeMissed`);
* profile 135 in the SPS parser (`SpsParser.ProfileIsReadRight`);
* bindings whose printed form does not mean what the loader found (`BindingAgreement.AlwaysAgreesIff`);
* template parts that swallow one another (`Template.RendersIffSeparated`);
* a schedule whose cycle leaves more than a second of the day over, at midnight
  (`ScheduleClock.FramesKeptIff`);
* easing curves on which the tangent steps stop too early (`BezierAccuracy.SteadyIsAccurate` gives a
  condition on curve and progress, `BezierPresets.ShippedCurves` decides the shipped curves).

## Model

| member | source | states |
|---|---|---|
| WuMass.MassSplit | src/common/palette_hct.c:430-513 | the mass of a box is the sum of the masses of its two halves at any cut on any axis; the one additivity law behind prefix sums, box sums and cuts |
| WuCells.CellIs | src/common/palette_hct.c:235-239 | a sample lies in one of the first k cells of an axis exactly when its colour is below the end of the k-th, k/32 in lightness and 0.025k - 0.4 in a and b; the outer cells take all beyond |
| WuCells.CellInterval | src/common/palette_hct.c:235-239 | inside the ranges each cell is the half-open interval between two neighbouring ends |
| WuCells.SameCellClose | src/common/palette_hct.c:235-245 | two samples of the ranges with the same packed code differ by less than one cell width on every axis |
| WuCells.PointsLieInside | src/common/palette_hct.c:682-747 | the mean of a box's samples lies between the colour bounds of the box, on every axis |
| WuCells.CellwiseNear | src/common/palette_hct.c:687-700 | cell by cell, every sample lies within a cell width of the point its cell becomes |
| WuHistogram.PackUnpack | src/common/palette_hct.c:244-245 | the 15-bit code of a grid cell lies in range and unpacking gives back the three coordinates |
| WuHistogram.Histogram.Reset | src/common/palette_hct.c:223-233 | the histogram represents no samples: bins, tight range and active list agree with the empty list |
| WuHistogram.Histogram.AccumPixel | src/common/palette_hct.c:235-265 | appends one sample; afterwards every bin still holds the mass of its cell, the range is still the smallest that contains all samples, and the active list names each occupied cell exactly once |
| WuHistogram.Accumulated | src/common/palette_hct.c:389-428 | from any list of samples, a histogram of which the same holds |
| WuHistogram.Histogram.ComputeMoments | src/common/palette_hct.c:430-482 | overwriting in place turns raw bins into cumulative ones over the tight range (each bin the mass of all cells at or below it), and leaves them raw when the active cells are few |
| WuHistogram.Histogram.AccumulatePlane | src/common/palette_hct.c:448-481 | the sweep over one plane, with all later bins still raw and all earlier ones cumulative |
| WuHistogram.ActiveIffSeen | src/common/palette_hct.c:241-246 | a bin is empty exactly when its cell is not on the active list, for every list of distinct occupied cells |
| WuCut.CumulativeExtent | src/common/palette_hct.c:430-482 | exact extent of the prefix sums: a bin equals the mass at or below it if and only if it lies within the active range or no sample is at or below it |
| WuExtent.PastRangeMissed | src/common/palette_hct.c:441-481 | the last bin holds the mass of all samples if and only if every axis has a sample in its top cell |
| WuExtent.MissedExample | src/common/palette_hct.c:223-482 | accumulating 65 dark samples and summing up gives a histogram whose last bin differs from the mass of all |
| WuCut.EightCorners | src/common/palette_hct.c:498-510 | inclusion-exclusion over eight corners gives the mass of any box |
| WuCut.VolBinIsMass | src/common/palette_hct.c:484-513 | on a cumulative histogram the eight-bin formula equals the sum over the samples in the box |
| WuCut.HalfIsMass | src/common/palette_hct.c:515-583 | bottom bin plus top bin at a position is the mass of the lower half, on each axis |
| WuVariance.DeviationExpand | src/common/palette_hct.c:264-264 | the sum of squared distances of a box to any colour is determined by its five moments |
| WuVariance.VarianceIsLeastDeviation | src/common/palette_hct.c:585-593 | the variance formula is the squared deviation from the mean, and no other colour has a smaller one |
| WuVariance.CutLowersVariance | src/common/palette_hct.c:632-678 | cutting a box anywhere with weight on both sides never raises the total variance |
| WuCut.BoxVariance | src/common/palette_hct.c:585-593 | computes the variance of the samples in the box from the prefix sums |
| WuCut.ScoreIsVariance | src/common/palette_hct.c:622-623 | the score of a cut is the moment sum minus the variance of both halves, so maximising one minimises the other |
| WuCut.Maximize | src/common/palette_hct.c:595-630 | the position returned has the best score of all admissible positions of the axis, and a score of -1 means there is none |
| WuCut.Cut | src/common/palette_hct.c:632-678 | on success the boxes are the two measured halves of a cut that leaves the least variance of all positions on all axes; on failure no position on any axis leaves weight on both sides; other boxes unchanged |
| WuCut.UncuttableIffOneCell | src/common/palette_hct.c:658-661 | a box cannot be cut if and only if all its samples lie in one grid cell |
| WuPartition.StepKeeps | src/common/palette_hct.c:715-732 | every greedy step keeps the boxes pairwise apart, inside the start box, of positive weight, measured, and holding every sample |
| WuPartition.RunKeeps | src/common/palette_hct.c:715-732 | the invariant holds in every state of every run |
| WuPartition.InvCovers | src/common/palette_hct.c:715-747 | in any state with the invariant every sample lies in exactly one box |
| WuPartition.StepLowersVariance | src/common/palette_hct.c:724-731 | no greedy step raises the total variance |
| WuPartition.RunLowersVariance | src/common/palette_hct.c:703-732 | in every state of every run the total variance is at most that of the start box |
| WuPartition.CoverConserves | src/common/palette_hct.c:734-747 | boxes that hold each sample once have total weight the number of samples |
| WuPartition.PointsConserve | src/common/palette_hct.c:682-701 | the weights of the output points of any cover add up to the number of samples accumulated |
| WuPartition.ListedCover | src/common/palette_hct.c:682-700 | the active cells cover the samples, one box per cell |
| WuPartition.RetireLowersBusy | src/common/palette_hct.c:729-731 | retiring an uncuttable box lowers the number of boxes above the threshold, the second part of the termination measure |
| WuPartition.Widest | src/common/palette_hct.c:716-723 | finds a box of greatest variance among the first n |
| WuPartition.SplitOne | src/common/palette_hct.c:727-731 | one pass is one greedy step; without a new box the number of busy boxes falls |
| WuPartition.SplitBoxes | src/common/palette_hct.c:703-732 | the loop terminates and is a run of greedy steps; it stops only with all boxes used or no box above the threshold |
| WuPartition.PartitionListed | src/common/palette_hct.c:682-701 | the raw branch writes the mean and weight of each active cell, and these cells cover the samples |
| WuPartition.Partition | src/common/palette_hct.c:680-748 | both branches: the points are the means of boxes that cover the samples, weights add up to the number of samples, and the boxes are those of a greedy run that stopped for lack of boxes or of boxes worth cutting |
| KMeans.PartImproves | src/common/palette_hct.c:853-863 | moving a cluster's centroid to the cluster mean never raises the cluster's error, and an empty cluster keeps its place |
| KMeans.RecentringImproves | src/common/palette_hct.c:853-863 | recentring all clusters never raises the error of the fixed assignment |
| KMeans.AssignmentBounds | src/common/palette_hct.c:834-845 | the error of any assignment bounds the nearest-centroid error, and a nearest assignment attains it |
| KMeans.LloydImproves | src/common/palette_hct.c:828-864 | a Lloyd round never raises the weighted sum of squared distances to the nearest centroid |
| KMeans.LloydRound | src/common/palette_hct.c:828-864 | the round assigns each point to a nearest centroid and replaces the centroids by the cluster means |
| KMeans.ClustersConserve | src/common/palette_hct.c:846-850 | the cluster weights of any assignment add up to the weight of the points |
| KMeans.CompactionConserves | src/common/palette_hct.c:866-876 | the weights of the centroids kept add up to the weights of the points |
| KMeans.CompactionKeepsBound | src/common/palette_hct.c:866-876 | dropping empty centroids leaves at least one, and an error no larger than before the last round |
| KMeans.Compact | src/common/palette_hct.c:866-874 | in place, the centroids of positive weight remain, in order |
| KMeans.FirstSeed | src/common/palette_hct.c:766-775 | the first seed has the greatest product of weight and chroma factor |
| KMeans.FirstScoreIs | src/common/palette_hct.c:769-770 | under a true square root the first score is the weight and four times weight times distance from the grey axis |
| KMeans.QuantileTurns | src/common/palette_hct.c:804-804 | the quantiles lie in [0, 1), start at half the golden section and step by it round the unit interval |
| KMeans.Weigh | src/common/palette_hct.c:785-796 | totals the weighted distances and finds a heaviest point |
| KMeans.Draw | src/common/palette_hct.c:798-816 | finds a point exactly when the total exceeds the tolerance; the point drawn is the first past the golden-ratio quantile with distance above the tolerance, else the heaviest, and never sits on a seed |
| KMeans.SeedsGrow | src/common/palette_hct.c:818-825 | a drawn point keeps all seeds at pairwise different places |
| KMeans.CostIsWeightedD2 | src/common/palette_hct.c:785-796 | the seeding total is the k-means error of the seeds so far |
| KMeans.SeedCentroids | src/common/palette_hct.c:764-826 | the seeds are input points at pairwise different places, each the prescribed draw; fewer than asked for only when their error is within the tolerance |
| KMeans.WeightedKMeans | src/common/palette_hct.c:758-877 | the trace of states starts at the seeds and takes true Lloyd rounds, its error never rises, the result is the last state without empty clusters, and the weights are conserved |
| Palette.Quantise | src/common/palette_hct.c:1640-1646 | from any list of samples: accumulate, sum up, partition; the points are the means of covering boxes and conserve every sample, and the boxes are the occupied cells one by one or those of an exhausted greedy run that did not raise the variance; for samples in the colour ranges every point lies between the colour bounds of its box, and cell by cell every sample lies within 1/32 in lightness and 0.025 in a and b of its point |
| Palette.ExtractClusters | src/common/palette_hct.c:1636-1652 | quantisation and k-means together: the clusters come from true Lloyd rounds over the box means, there are none exactly when there are no samples, and their weights add up to the number of samples |
| GifBits.BitReader.ReadBits | src/common/image_loader.c:373-397 | reads the next bits of the sub-block payload as a number, least significant first, or reports the end exactly when fewer remain |
| GifBits.BitReader.NextByte | src/common/image_loader.c:376-389 | steps through length-prefixed sub-blocks to the next payload byte, or reports that the payload is over |
| GifRows.RowOrderPermutes | src/common/image_loader.c:535-548 | the row map lists every image row exactly once, interlaced or not |
| GifRows.InterlacedInOrder | src/common/image_loader.c:538-548 | interlaced rows arrive pass by pass, the pass told by the row number alone, and downwards within a pass |
| GifRows.PlainInOrder | src/common/image_loader.c:535-537 | without interlacing row i arrives as number i |
| GifRows.BuildRowMap | src/common/image_loader.c:529-548 | the four interlace passes fill the map with the rows in the order of GIF89a, Appendix E |
| GifRaster.SizeCanvas | src/common/image_loader.c:474-488 | the canvas keeps the screen size when the image fits, always holds the image, and is refused exactly when a side is empty or over 16384 |
| GifRaster.PaintOne | src/common/image_loader.c:671-681 | one more index changes the one pixel of its de-interlaced position and no other |
| GifRaster.Raster.Put | src/common/image_loader.c:605-614 | writes inside the canvas and keeps it the picture of the indices so far |
| GifRaster.FullStream | src/common/image_loader.c:582-683 | once as many indices as pixels are written, each pixel of the image shows the palette entry of its de-interlaced index and every other pixel its fill |
| GifLzw.NextGood | src/common/image_loader.c:659-668 | the table-of-strings decoder keeps a well-formed table, frozen at 4096 entries |
| GifDecoder.StringLength | src/common/image_loader.c:627-634 | a chain that represents a table spells strings no longer than its entry allows |
| GifDecoder.ChainStep | src/common/image_loader.c:641-650 | on a table's chain none of the three error conditions holds, and each link peels off the last byte of the string |
| GifDecoder.RepExtends | src/common/image_loader.c:659-662 | writing prefix and suffix of one entry appends exactly one string to the table represented |
| GifDecoder.WidthStep | src/common/image_loader.c:663-666 | growing the code size when the table reaches the maximum code keeps it the least width that holds the next code, at most 12 |
| GifDecoder.Dictionary.Walk | src/common/image_loader.c:640-654 | for any array contents the walk terminates within the stack; on a represented table it never errs and stacks the string reversed |
| GifDecoder.Dictionary.Spell | src/common/image_loader.c:618-657 | for every code the specification admits, KwKwK included, the stack holds the string emitted |
| GifDecoder.Dictionary.Learn | src/common/image_loader.c:659-668 | arrays, code size and maximum code afterwards represent the next state of the specification |
| GifDecoder.Dictionary.Drain | src/common/image_loader.c:670-682 | pops the stack into the raster until it is empty or the image full |
| GifDecoder.DecodeImage | src/common/image_loader.c:550-683 | on every byte stream the raster begins with what the table-of-strings decoder emits, and holds exactly that, cut to the image, when the code sequence is well-formed |
| GifStream.WidthsAgree | src/common/image_loader.c:589-599 | although the decoder's table lags one entry behind, its code width is the encoder's |
| GifStream.StepLags | src/common/image_loader.c:618-668 | any code an encoder may send next is admitted, emits the encoder's string, and keeps the lag |
| GifStream.DecodePacked | src/common/image_loader.c:588-683 | decoding the packed codes of any encoding, clear codes anywhere, gives back the pixels |
| GifStream.GreedyEncodes | src/common/image_loader.c:588-683 | the longest-match encoder is such an encoding, so every pixel string has one |
| GifStream.PayloadBlocks | src/common/image_loader.c:376-389 | any chopping of bytes into sub-blocks of 1 to 255 has those bytes as payload |
| GifStream.EncodedFileDecodes | src/common/image_loader.c:373-397 | codes packed least-significant-bit first, padded, chopped and embedded anywhere decode to the pixels encoded |
| GifStream.LoadEncoded | src/common/image_loader.c:516-683 | the imperative decoder on such a file paints the encoded pixels |
| RbspBits.RunIsUnescape | src/client/gif_transcode.c:165-178 | counting zeros on the way drops the same bytes as the look-ahead for 00 00 03 of section 7.3.1, for every byte string |
| RbspBits.UnescapeEscape | src/client/gif_transcode.c:167-178 | unescaping an escaped payload gives back the payload |
| RbspBits.GetUeUe | src/client/gif_transcode.c:191-199 | reading an Exp-Golomb code gives its number and the bits behind it, at any offset |
| RbspBits.GetSeSe | src/client/gif_transcode.c:201-205 | the same for the signed mapping |
| RbspBits.GetBitsMsb | src/client/gif_transcode.c:183-189 | reading n bits of an n-bit number, most significant first, gives the number |
| SpsReader.Reader.constructor | src/client/gif_transcode.c:147-156 | the reader stands before the bits of the unescaped payload |
| SpsReader.Reader.NextBit | src/client/gif_transcode.c:158-181 | takes the next bit of the unescaped payload, zero once there is none |
| SpsReader.Reader.NextBits | src/client/gif_transcode.c:183-189 | takes n bits, for every byte string |
| SpsReader.Reader.NextUe | src/client/gif_transcode.c:191-199 | takes one unsigned code, with the cap of 31 zeros and the stop at the end of data |
| SpsReader.Reader.NextSe | src/client/gif_transcode.c:201-205 | takes one signed code |
| SpsParser.SkipScalingBits | src/client/gif_transcode.c:207-218 | skipping a scaling list consumes exactly its serialised deltas, stopping where the standard stops sending them |
| SpsScaling.NextScaleIs | src/client/gif_transcode.c:214-214 | the next scale is congruent to the last plus the delta modulo 256, below 256 in size and on the side of zero on which the truncating remainder puts it |
| SpsScaling.TextOfList | src/client/gif_transcode.c:207-218 | a list is sent as its deltas up to the first at which 8 plus their sum is a multiple of 256, and no further |
| SpsScaling.OneCount | src/client/gif_transcode.c:207-218 | the number of deltas sent is determined by the deltas |
| SpsScaling.SkipsSent | src/client/gif_transcode.c:207-218 | the walk consumes exactly these deltas |
| SpsScaling.UseDefault | src/client/gif_transcode.c:207-218 | a list that begins with -8 is that one delta, and the walk stops behind it |
| SpsScaling.ScalesAreSent | src/client/gif_transcode.c:207-218 | a list of scales from 1 to 255, sent as differences wrapped to -128..127, is sent whole and consumed whole |
| SpsParser.SkipHighBits | src/client/gif_transcode.c:242-254 | the high-profile elements, with 8 or 12 optional lists, are consumed exactly |
| SpsParser.SkipPocBits | src/client/gif_transcode.c:257-267 | the three picture-order branches are consumed exactly |
| SpsParser.ParseSpsBits | src/client/gif_transcode.c:235-268 | every well-formed field assignment outside profile 135, serialised, is read back to its max_num_ref_frames |
| SpsParser.DepthMisread | src/client/gif_transcode.c:239-241 | a concrete profile-135 set with five reference frames is read as four |
| SpsParser.ProfileIsReadRight | src/client/gif_transcode.c:239-268 | all sets of a profile are read right if and only if the profile is not 135 |
| SpsParser.SkipScalingList | src/client/gif_transcode.c:207-218 | the loop leaves the reader where the scaling-list syntax ends |
| SpsParser.SkipHighElements | src/client/gif_transcode.c:242-254 | leaves the reader behind the high-profile elements |
| SpsParser.SkipOrderCount | src/client/gif_transcode.c:257-267 | leaves the reader behind the picture-order elements |
| SpsParser.ParseAvccNumRefFrames | src/client/gif_transcode.c:220-271 | on every byte string the method computes the specified result, 16 for each malformed record |
| SpsParser.AvccRoundTrip | src/client/gif_transcode.c:220-271 | a serialised set, escaped and put in an avcC record, yields its max_num_ref_frames |
| JsonText.EscapeJsonStr | src/common/palette_hct.c:3696-3750 | the buffer holds the complete escape of the longest prefix that fits, closed by zero; no escape is broken |
| JsonText.BodyOfEscape | src/common/we_json.c:67-197 | reading the escape of any NUL-free string up to its quote gives back the string |
| JsonText.ElementOfEscape | src/common/we_json.c:88-181 | each escape is read as the one byte it stands for, with its length |
| JsonUnicode.Utf8Decodes | src/common/we_json.c:153-171 | the bytes written for a scalar value from 1 to 0x10FFFF decode to it by the bit layout of section 3 of RFC 3629 |
| JsonUnicode.EscapeReads | src/common/we_json.c:115-172 | a \u escape, or the surrogate pair above 0xFFFF, in either case of digits is read as the encoding of its scalar value |
| JsonUnicode.EscapedStringReads | src/common/we_json.c:67-197 | a string of scalar values written in escapes is read as bytes that decode to exactly these values |
| JsonUnicode.ZeroReads | src/common/we_json.c:153-154 | the escape of zero is read as a space |
| JsonUnicode.ShortReads | src/common/we_json.c:94-114 | the eight two-character escapes of section 7 of RFC 8259 are read as the bytes they stand for |
| JsonUnicode.OtherReads | src/common/we_json.c:177-179 | a backslash before any other character but u is dropped |
| JsonUnicode.BadUnicodeReads | src/common/we_json.c:115-176 | a u without four hexadecimal digits behind it is read as a question mark and takes nothing more |
| JsonUnicode.LoneSurrogateReads | src/common/we_json.c:126-142 | a surrogate outside a pair is read as U+FFFD |
| JsonLayout.GapSkips | src/common/we_json.c:39-65 | any run of white space, line comments and bracketed comments is skipped whole, in front of any text |
| JsonLayout.SkippedIsGap | src/common/we_json.c:39-65 | what is skipped is always such a run, its last comment perhaps open to the end of the text |
| JsonLayout.ValueOfText | src/common/we_json.c:307-384 | any text of a tree, with gaps before and after every token and commas present or not, in front of anything (of a delimiter if it is a number), parses to the tree and leaves exactly what follows when no node is too deep, and is refused when one is |
| JsonLayout.ItemsOfText | src/common/we_json.c:201-243 | the same for the rest of an array |
| JsonLayout.EntriesOfText | src/common/we_json.c:245-305 | the same for the rest of an object |
| JsonLayout.OtherAhead | src/common/we_json.c:364-383 | text that begins no gap, container, string or word is the number the scanner finds in its first 63 bytes, if it begins with a sign, digit or point, and is refused otherwise |
| JsonLayout.RootOfText | src/common/we_json.c:386-397 | a file of an optional byte order mark, a gap, any text of a tree and anything behind it returns the tree if its height is at most 64 and fails otherwise |
| JsonLayout.RootOfPrint | src/common/we_json.c:386-397 | the same for the text without gaps and with a comma between neighbours |
| JsonDecimal.NaturalReadableIff | src/common/we_json.c:364-381 | in decimal, a natural number is readable if and only if its digits fit the 63-byte window |
| JsonDecimal.DecimalTreeReturns | src/common/we_json.c:307-397 | with a concrete decimal printer and scanner, every tree of such numbers comes back from its text if and only if it is at most 64 deep |
| JsonDecimal.DecimalTextReturns | src/common/we_json.c:307-397 | the same for every text of such a tree, whatever its gaps and commas |
| JsonLexer.Lexer.SkipWs | src/common/we_json.c:39-65 | moves past white space and both kinds of comment, within the text |
| JsonLexer.Lexer.Append | src/common/we_json.c:143-193 | the growing buffer keeps its contents and room for one more byte |
| JsonLexer.Lexer.ParseRawString | src/common/we_json.c:67-197 | string and position are those of the functional parser |
| JsonLexer.Lexer.ParseArray | src/common/we_json.c:201-243 | items and position are those of the functional parser; the loop moves on in every pass |
| JsonLexer.Lexer.ParseObject | src/common/we_json.c:245-305 | entries and position likewise |
| JsonLexer.Lexer.ParseValue | src/common/we_json.c:307-384 | value and position likewise; success strictly advances the position and stays within the text, on every input |
| JsonLexer.ParseRoot | src/common/we_json.c:386-397 | the root parser, byte-order mark included, computes the functional parse of every byte string |
| Bindings.SkipMarks | src/common/we_json.c:585-593 | strips the leading marks and returns the parity of the exclamation marks among them |
| Bindings.SameIs | src/common/we_json.c:434-446 | names are equal exactly when they differ at most in capital against small letters |
| Bindings.TruthWords | src/common/we_json.c:447-535 | for a property whose text is neither word, key=true evaluates as the bare key and key=false as the inverted one |
| Bindings.OtherHolds | src/common/we_json.c:461-481 | any other unmarked condition holds exactly for the property's own text in either case or a number within 0.0001 |
| Bindings.EvalCondition | src/common/we_json.c:447-483 | inverts by the leading exclamation marks and matches the rest as text, truth word or number |
| Bindings.EvalExpression | src/common/we_json.c:485-535 | evaluates the test the expression parses to, and none for each rejected expression |
| Bindings.LoadFloats | src/common/we_json.c:572-637 | writes the printed test, cut to the buffer, and returns the property's numbers or none |
| Bindings.PrintedReadsBack | src/common/we_json.c:506-527 | the printed expression parses back to its test if and only if the key survives: no equals sign, no blank at its end, no final mark taken for the operator, not too long |
| Bindings.OrderedMeansTheSame | src/common/we_json.c:447-483 | when exclamation marks precede blanks, cleaning the condition and keeping its parity does not change its truth |
| BindingAgreement.MeansTheSameIffOrdered | src/common/we_json.c:608-621 | it keeps its truth for every property if and only if exclamation marks precede blanks |
| BindingAgreement.CutCompare | src/common/we_json.c:506-527 | a comparison cut short by its buffer is read with a key as long as its own only if the key survives and the cut lies in the condition |
| Bindings.LoadAgreesWithEvaluation | src/common/we_json.c:485-637 | the expression printed at load, evaluated later, gives the truth of the number returned at load, and none when none was taken, when key, condition and buffer allow |
| BindingAgreement.AlwaysAgreesIff | src/common/we_json.c:485-637 | it does so under every project the program can hold and every number reader if and only if: a key of 1 to 63 characters survives, exclamation marks precede blanks and the buffer holds the expression; or, with any other key, no storable key is read from the buffer |
| Bindings.BlankBeforeBangDisagrees | src/common/we_json.c:608-624 | a concrete condition is false at load and true when evaluated |
| PathNormalize.SegmentsConcat | src/common/path.c:143-152 | the segments of two paths joined by a slash are the segments of both |
| PathNormalize.SegmentsOfText | src/common/path.c:167-173 | the text of a stack has the stack as its segments |
| PathNormalize.NormalForm | src/common/path.c:134-174 | a normalised path holds no dot segments and its segments are the resolved stack |
| PathNormalize.Idempotent | src/common/path.c:134-174 | normalising twice is normalising once |
| PathNormalize.NormalizeFront | src/common/path.c:134-174 | a prefix may be normalised first without changing the result |
| PathNormalize.DotStays | src/common/path.c:143-157 | a trailing slash or dot segment changes nothing |
| PathNormalize.DownAppends | src/common/path.c:166-173 | an ordinary segment behind a path is appended to its normal form |
| PathNormalize.UpUndoesDown | src/common/path.c:157-165 | two dots take back the ordinary segment before them, and stay at the root |
| PathNormalize.NextSegment | src/common/path.c:143-152 | finds the next segment of the unread text, or that there is none |
| PathNormalize.PopSegment | src/common/path.c:157-165 | cuts the output back to the stack without its last segment, and the root stays |
| PathNormalize.PushSegment | src/common/path.c:167-170 | moves the segment behind the output; unread input stays as it was |
| PathNormalize.NormalizePath | src/common/path.c:134-174 | in place, on every zero-closed buffer, the result is the normalised path and no longer than the input |
| Template.DocumentRenders | src/common/palette_hct.c:3176-3286 | a document of characters, escaped braces and brace pairs, expressions and tokens with values, written as a template with its parts separated, renders to its meaning |
| Template.RendersIffSeparated | src/common/palette_hct.c:3176-3286 | a document of writable parts renders to its meaning under every evaluator and token test that give its parts values if and only if no part follows a character that would disturb it |
| Template.EscapedTextRenders | src/common/palette_hct.c:3178-3208 | text with every brace escaped renders to itself, for any evaluator |
| Template.PlainTextRenders | src/common/palette_hct.c:3276-3286 | text without braces renders to itself |
| Template.OpenBracesRender | src/common/palette_hct.c:3211-3286 | unescaped braces that are not closed on their line are copied |
| Template.BraceBeforeExpression | src/common/palette_hct.c:3178-3194 | an escaped brace right before an expression is misread: the pair escape takes both braces |
| Template.FindClosing | src/common/palette_hct.c:3211-3219 | finds the first closing pair on the line within 240 bytes, or that there is none |
| Template.FindTokenEnd | src/common/palette_hct.c:3246-3254 | finds the end of a single-brace token of at most 48 bytes, or that there is none |
| Template.PieceRead | src/common/palette_hct.c:3176-3286 | one pass of the loop reads and writes the specified piece |
| Template.Put | src/common/palette_hct.c:3227-3241 | appends within the capacity, growing the buffer first when text and a spare byte do not fit |
| Template.Render | src/common/palette_hct.c:3165-3286 | for every template and evaluator the buffer holds the rendered text with room to spare; the index moves on in every pass |
| Schedule.Manifest.Build | src/common/solar_schedule.c:795-889 | succeeds exactly on 1 to the maximum number of good tags; each entry has the duration of its tag, the tag's from-path, for a transition alone the tag's to-path, and starts at the sum of the tags' durations before it |
| Schedule.OneSegment | src/common/solar_schedule.c:1239-1247 | every position of the cycle lies in exactly one segment |
| Schedule.CyclePositionIs | src/common/solar_schedule.c:1233-1237 | the position lies in the cycle and differs from the time by whole cycles, for negative times too |
| Schedule.CycleMovesOn | src/common/solar_schedule.c:1233-1237 | until the cycle ends, the position advances with the time |
| Schedule.Resolve | src/common/solar_schedule.c:1219-1276 | picks the segment of the position, its frame and blend; the wake-up is the time left to the middle of a transition or the end of the segment, rounded up to a whole second |
| Schedule.ConstantUntilChange | include/waywal/solar_schedule.h:228-235 | in cycle time the frame shown does not change before the segment ends or a transition passes its middle |
| Schedule.ShowsTags | src/common/solar_schedule.c:848-880 | on a manifest built from tags the frame shown is the from-path of the tag at the position, and in a transition with a to-path its to-path from the middle on |
| ScheduleClock.ClockMovesOn | src/common/solar_schedule.c:1224-1237 | by the wall clock the position moves on by the time passed if and only if the midnights in between make whole cycles |
| ScheduleClock.AlwaysMovesOnIff | src/common/solar_schedule.c:1224-1237 | it always moves on so if and only if a day is a whole number of cycles |
| ScheduleClock.ConstantOnClock | src/common/solar_schedule.c:1224-1276 | by the wall clock the frame stays until the announced change when no midnight passes or the midnights make whole cycles |
| ScheduleClock.KeptBySlack | src/common/solar_schedule.c:1224-1276 | in whole seconds a manifest keeps its frames until the announced change when a day leaves over at most a second of its cycle |
| ScheduleClock.FramesKeptIff | src/common/solar_schedule.c:1224-1276 | all manifests of a given total that can be built keep their frames until the announced change, by the clock in whole seconds, if and only if a day leaves over at most one second of the cycle |
| ScheduleClock.OneSecondShort | src/common/solar_schedule.c:1224-1237 | a cycle one second shorter than a day meets that condition without dividing the day |
| ScheduleClock.MidnightChangesFrame | src/common/solar_schedule.c:1224-1276 | a concrete schedule announces 13610 seconds and changes its frame within twenty, at midnight |
| BezierCurve.SecantIsMeanSlope | src/common/bezier.c:41-51 | the difference of two curve values is their distance times the secant polynomial |
| BezierCurve.SlopeIsSecantAtPoint | src/common/bezier.c:53-53 | the solver's derivative is that secant at one point |
| BezierCurve.RisesAtMost3 | src/common/bezier.c:41-43 | with inner control values in the unit interval the curve never falls and is 3-Lipschitz on it |
| BezierCurve.CubicIsBernstein | src/common/bezier.c:41-51 | the coefficient form is the Bernstein polynomial of the control values 0, p1, p2, 1 |
| BezierCurve.CubicIsDeCasteljau | src/common/bezier.c:41-51 | it is the point of de Casteljau's repeated interpolation between these control values |
| BezierSolver.TangentMeets | src/common/bezier.c:61-61 | a Newton step goes to where the tangent reaches the wanted height |
| Bezier.Create | src/common/bezier.c:12-29 | clamps both abscissas to the nearest point of the unit interval and keeps the ordinates |
| BezierSolver.DescendMeans | src/common/bezier.c:49-66 | what each stop of the tangent steps guarantees: a flat slope, a tiny error, or a point outside the unit interval |
| BezierSolver.Newton | src/common/bezier.c:49-66 | the loop stops where the specified tangent steps stop, and for the same reason |
| BezierSolver.Bisect | src/common/bezier.c:69-85 | the parameter stays in the unit interval; on a monotone curve the height is off by at most 3/65536, and unless it is within 0.00001 every exact solution is within 1/65536 |
| BezierAccuracy.Taylor | src/common/bezier.c:41-53 | curve value, derivative and remainder: the difference from the tangent is the squared distance times an affine bend |
| BezierAccuracy.StepSquares | src/common/bezier.c:49-61 | a tangent step squares the error in height, up to bend over squared slope |
| BezierAccuracy.MinRateIs | src/common/bezier.c:53-53 | the closed form is a lower bound of the slope on the unit interval |
| BezierAccuracy.DescendError | src/common/bezier.c:49-66 | on a curve that is nowhere flat, n steps converge, leave the interval or square the error n times |
| BezierAccuracy.HeightBound | src/common/bezier.c:49-85 | on a monotone curve the height is off by at most 3/65536 whenever the solver converged or bisected |
| BezierAccuracy.SteadyIsAccurate | src/common/bezier.c:49-85 | under a condition on curve and progress that can be checked beforehand, the height is off by at most 3/65536 at every exit |
| BezierAccuracy.FlatAtOnce | src/common/bezier.c:53-56 | where the curve is flat at the start the solver stops there, and is within tolerance if and only if the start is |
| BezierPresets.FlatExitMisses | src/common/bezier.c:53-56 | a concrete monotone curve is left flat, more than four tolerances off |
| BezierPresets.SpentExitMisses | src/common/bezier.c:50-66 | a concrete curve that is nowhere flat is left after six steps, more than eight tolerances off |
| BezierPresets.TurnedDescend | src/common/bezier.c:49-66 | the tangent steps treat a curve and the curve turned around alike |
| BezierPresets.DefaultIsSteady | src/common/bezier.c:7-7 | the default curve meets the condition at every progress |
| BezierPresets.EaseInOutIsSteady | src/common/bezier.c:10-10 | so does ease-in-out |
| BezierPresets.EaseOutMisses | src/common/bezier.c:9-9 | just above zero the ease-out curve is left after six steps, out of tolerance |
| BezierPresets.EaseInMisses | src/common/bezier.c:8-8 | just below one so is ease-in |
| BezierPresets.ShippedCurves | src/common/bezier.c:6-10 | of the five shipped curves all but ease-in and ease-out are answered within the tolerance at every progress |
| Bezier.DiagonalIsExact | src/common/bezier.c:39-41 | on a diagonal curve every exact solution has the progress itself as its value |
| Bezier.OrdinatesDecide | src/common/bezier.c:41-91 | two curves with the same abscissas have the same solver answers, and their values differ by the Bernstein weights of their ordinates |
| Bezier.Eval | src/common/bezier.c:31-92 | ends, null curve and diagonal curve return what they must; otherwise the answer is 3(1-t)^2 t p1y + 3(1-t) t^2 p2y + t^3 at the solver's parameter t, and when curve and progress are steady the de Casteljau point of the abscissas at t is within 3/65536 of the progress |

## Left out

- Histogram.AccumPixel: colours and sums are exact reals, so float rounding, and samples beyond 2^24 of weight 1, are not modelled.
- Bezier.Eval: in exact arithmetic; rounding could still change which exit a value at the edge of a test takes.
- SpsParser.ParseSpsBits: leaves out profile 135, for which it is false (see SpsParser.ProfileIsReadRight).
- SpsParser.SkipScalingList: a sum of the last scale and a malformed delta near the 32-bit limits would overflow in the program; the model adds in unbounded integers.
- JsonLayout.RootOfText: strtod, its 63-byte window apart, is a parameter, so the tree's numbers must be ones it reads back from their text.
- Bindings.EvalCondition: strtof with its trailing-blank check is a parameter; letters are compared in the C locale.
- Bindings.LoadFloats: the fall-back to the default value and the rendering of numeric conditions by printf are not modelled; the condition arrives as text.
- KMeans.FirstSeed: the square root in the chroma factor is a parameter known only to be non-negative; KMeans.FirstScoreIs is about a true one.
- ScheduleClock.FramesKeptIff: a day has 86400 seconds; leap seconds, daylight saving and clock changes are not modelled.
- Schedule.Manifest.Build: tags arrive already found in the XML text, their durations parsed and paths resolved.
- Template.Render: the expression evaluator and the token test are parameters.
- GifDecoder.DecodeImage: the file is a byte sequence; signature, extensions, colour tables and the draining of sub-blocks after the image are not modelled.
- The vector (AVX2 and NEON) twins of the histogram code, which compute the same sums.
- Conversion to OKLab and the subsampling of pixels before accumulation; colour appearance models, tones and schemes.
- Failure of memory allocation: every allocation succeeds.
- Null pointers, except the null easing curve and the null JSON input, which is the empty one.
- Zero bytes inside JSON source text, which cut strings and number windows short in the program.
- Solar position, phases and the solar branch of the schedule.
- Sockets, processes, locks, file output, configuration and command line.
- The other image loaders, MP4 and EBML probing and the transcoding around them.
