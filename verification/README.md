# Forensic measurement models

A Dafny model of the exact arithmetic, the search loops and the resource accounting behind the
forensic measurements of the detector, with proofs of what those measurements promise. Every
theorem is for all inputs, all runs or all answers of an external routine.

Numbers are exact: a float is a `real`, a Python integer an `int`. A logarithm is read
multiplicatively (the sum of log terms is the product of the terms), and a quotient by a square
root is kept as the pair of numerator and squared denominator, `Correlation.Ratio`, which denotes
one real number. A raised exception is `Failure`, a returned `None` is `None`. What an external
routine answers is a parameter: any function from correspondences to a mask for RANSAC, any
outcome of the operating system for a file operation. The product of spectra is the circular
convolution it transforms back to.

| module | what it models |
|---|---|
| `JpegRequantize`, `JpegGrid`, `JpegVotes` | requantization bins; windows, votes and phases of the 8x8 grid, the binomial tail; which cells vote and what a block-coded raster shows |
| `Binomial`, `JpegRule` | the binomial law and the bisection for its exact upper bound |
| `AudioNcc`, `AudioRetrieval` | sliding normalized correlation; streaming retrieval of the nearest windows, lag ranges |
| `BenignStatistics`, `BenignRanks`, `Quantiles`, `Moments` | Pearson, tie-averaged ranks and Spearman, quantiles and relative scores, online moments |
| `BlockDescriptor`, `VideoGroups`, `VideoWindows`, `VideoCorrespondence` | block descriptors, the groups of all windows and their distances, the production fold and its reproduction |
| `GreedyDisjoint`, `AlignedRuns` | disjoint pairs and aligned runs built from the groups |
| `ArtifactBudget` | many writers charging one byte budget |
| `CopyMove`, `CopyMoveReports` | peeling geometric clusters around RANSAC, region pairs and candidates; what overlap, order, masks and candidates mean |

`Algebra`, `Integers`, `Powers`, `Sums`, `Sorting`, `Lists`, `Correlation` and `Wrappers` hold what several
of them share: Cauchy-Schwarz over sequences, floor arithmetic, prefix sums, and a stable sort
whose result is the only sorted permutation of its input.

Where the source works step by step, the model is a class or a method with the same loop, proved
equal to a specification function; the lemmas are about that function. `dafny verify
dfyconfig.toml` checks everything.

## Model

| member | source | states |
|---|---|---|
| JpegRequantize.IntermediateIndices | scripts/research/jpeg_measurements.py:129-133 | the closed-form bin count is exactly the number of first-step indices that the second step sends to k, for every integer k |
| JpegRequantize.RequantizeRoundsTwice | scripts/research/jpeg_measurements.py:121-126 | both steps round to the nearest multiple, halves upwards: the result is k exactly when t is nearest to some multiple j of q1 and q1 j nearest to k q2; steps that are not positive are refused |
| JpegRequantize.Preimage | scripts/research/jpeg_measurements.py:121-133 | the coefficients that requantize to k number exactly q1 times the closed form of k |
| JpegRequantize.PeriodSum | scripts/research/jpeg_measurements.py:129-133 | the closed-form counts of any q1 consecutive bins add up to q2 |
| JpegRequantize.EmptyBinsPerPeriod | scripts/research/jpeg_measurements.py:129-133 | of any q1 consecutive bins exactly max(0, q1 - q2) are empty |
| JpegRequantize.EdgeMonotone | scripts/research/jpeg_measurements.py:129-133 | bin edges never step back; each step is at most 1 when q2 <= q1 and at least 1 when q1 <= q2 |
| JpegGrid.LogTail | scripts/research/jpeg_measurements.py:152-173 | the tail is returned or refused by the same guards, equals the full binomial tail in every branch, and lies in (0, 1] |
| JpegGrid.TailByRecurrence | scripts/research/jpeg_measurements.py:161-173 | the loop's terms, scaled by the largest and added, are the binomial tail from kappa |
| JpegGrid.NextTerm | scripts/research/jpeg_measurements.py:163-169 | one step of the recurrence turns term j of the binomial law into term j + 1 |
| Binomial.TermClosed | scripts/research/jpeg_measurements.py:152-173 | the terms of the law are C(n,k) p^k (1-p)^(n-k), and 0 beyond n |
| Binomial.TermNeighbour | scripts/research/jpeg_measurements.py:163-169 | neighbouring terms satisfy T(j+1) (j+1) (1-p) = T(j) (n-j) p |
| Binomial.TailShape | scripts/research/jpeg_measurements.py:152-173 | the tail is 1 at 0 and at p = 1, stays in [0,1], and falls (strictly inside) as its start moves up |
| Binomial.TailComplementsCdf | scripts/research/jpeg_measurements.py:152-173 | tail and cumulative sum share the law: they add up to 1 |
| Binomial.TailMonotoneInP | scripts/research/jpeg_measurements.py:152-173 | the tail grows with p |
| JpegGrid.WindowsFit | scripts/research/jpeg_measurements.py:136-144 | every window has sides 64..512 in whole blocks and its support, one pixel before and two after, lies in the raster |
| JpegGrid.WindowRowsMembers | scripts/research/jpeg_measurements.py:144-144 | the windows are every combination of an x and a y origin, once each in number |
| JpegGrid.WindowsAreExactly | scripts/research/jpeg_measurements.py:136-144 | a region is a window exactly when both sides are the largest multiples of 8 up to 512 that fit, are at least 64, and both origins are a whole number, 0 to 3, of thirds of the slack behind pixel 1 |
| JpegGrid.OriginsReachBothEnds | scripts/research/jpeg_measurements.py:136-144 | along an axis the windows start at the first usable pixel and end at the last one |
| JpegGrid.RectangleCountIsSpans | scripts/research/jpeg_measurements.py:147-149 | the closed form is the size of the set of all (start, blocks) spans of a whole positive number of blocks inside the side, and is positive from one block on |
| JpegGrid.HypothesesCounted | scripts/research/jpeg_measurements.py:277-278 | the number of hypotheses is 16 times the number of spans in x times that in y |
| JpegGrid.HalfVote | scripts/research/jpeg_measurements.py:218-247 | because no two neighbours along an axis are both strict maxima, at most half of the cells vote |
| JpegGrid.PhasesPartition | scripts/research/jpeg_measurements.py:218-247 | the eight phase counts add up to the number of votes |
| JpegGrid.EighthBound | scripts/research/jpeg_measurements.py:218-247 | no phase has more votes than an eighth of the area |
| JpegGrid.AxisMeasurementReturns | scripts/research/jpeg_measurements.py:188-205 | exactly which counts, areas and hypothesis numbers the axis measurement accepts |
| JpegGrid.GridNeverRaises | scripts/research/jpeg_measurements.py:188-288 | for every window of every raster, whatever the luminance, neither the axis measurement nor the tail can raise |
| JpegVotes.VoteIsPeak | scripts/research/jpeg_measurements.py:221-228 | a cell votes exactly when its mixed difference, in luminance values, strictly exceeds in magnitude those of both neighbours in the row (x) or in the column (y) |
| JpegVotes.CellsOfPhaseX | scripts/research/jpeg_measurements.py:229-229 | the x count of a phase is the number of cells in that phase whose mixed difference strictly exceeds both neighbours in the row |
| JpegVotes.CellsOfPhaseY | scripts/research/jpeg_measurements.py:230-230 | the y count of a phase is the number of cells in that phase whose mixed difference strictly exceeds both neighbours in the column |
| JpegVotes.BlockedVotes | scripts/research/jpeg_measurements.py:218-230 | where the differences vanish off the corners of an 8x8 tiling, every corner in the window votes once per axis in the phase of the tiling and nothing else votes |
| JpegVotes.BlockedPhases | scripts/research/jpeg_measurements.py:218-247 | a window with at least one such corner reports the phases of the tiling on both axes, with all votes in them |
| JpegVotes.AxisTotals | scripts/research/jpeg_measurements.py:188-205 | n is the sum of the counts and m their largest |
| JpegVotes.FractionsAreShares | scripts/research/jpeg_measurements.py:196-205 | the fractions times the number of votes are the counts; without votes there are none |
| JpegVotes.AxisPhases | scripts/research/jpeg_measurements.py:192-205 | the boundary phase is k exactly when phase k has more votes than any other; the block phase is the next one modulo 8 |
| JpegVotes.AxisScores | scripts/research/jpeg_measurements.py:193-195 | a score exists exactly when there are votes; it is nt times the chance of at least half of m successes in a sixteenth of the area |
| JpegVotes.WindowMeasured | scripts/research/jpeg_measurements.py:220-231 | a window is measured exactly when the raster has its support and both axes can be measured |
| JpegVotes.WindowReports | scripts/research/jpeg_measurements.py:231-247 | centers, support and area of a window, and the flag: both axes have one strongest phase and a score below 1 |
| JpegGrid.ShiftInvariance | scripts/research/jpeg_measurements.py:218-247 | moving the origin along x rotates the x counts and phases modulo 8 and changes no score, no y measurement and no flag |
| JpegRule.ExactUpper | scripts/research/jpeg_dq_rule.py:178-195 | the bisection returns a u at which the cumulative sum is at most 0.05, above which every p is rejected, and 2^-80 or more below which none is, and u is a multiple of 2^-80; the other branches return None, 1 or the exact root |
| JpegRule.Bracketed | scripts/research/jpeg_dq_rule.py:189-195 | an interval whose ends straddle the level is enough for that promise, because the cumulative sum is antitone |
| JpegRule.LeastMultiple | scripts/research/jpeg_dq_rule.py:178-195 | so u is the least of all multiples of 2^-80 that rejects: the result is determined |
| JpegRule.UpperBoundAccuracy | scripts/research/jpeg_dq_rule.py:178-195 | there is at most one exact bound, and the reported one lies between it and 2^-80 above it |
| JpegRule.ClosedForm | scripts/research/jpeg_dq_rule.py:186-187 | with no errors, 1 minus the n-th root of 0.05 solves the equation exactly |
| JpegRule.LikelihoodsSum | scripts/research/jpeg_dq_rule.py:168-175 | the summed likelihood terms are the binomial cumulative sum |
| Binomial.GammaTerm | scripts/research/jpeg_dq_rule.py:168-175 | the factorial form of one term is the term of the law |
| Binomial.CdfTotal | scripts/research/jpeg_dq_rule.py:168-175 | the whole law adds up to 1 |
| Binomial.CdfAntitone | scripts/research/jpeg_dq_rule.py:178-195 | the cumulative sum never grows with p |
| Binomial.CdfStrictlyAntitone | scripts/research/jpeg_dq_rule.py:178-195 | for k < n the fall is strict |
| AudioNcc.CompensatedPrefix | src/fakedetector/analyzers/_audio_repeated.py:53-62 | entry i is the sum of the first i values: in exact arithmetic the correction stays 0 |
| AudioNcc.TransformLength | src/fakedetector/analyzers/_audio_repeated.py:77-77 | the transform is at least as long as the longest plain convolution that is allowed |
| AudioNcc.NoWrapAround | src/fakedetector/analyzers/_audio_repeated.py:77-80 | at such a length the circular convolution is the plain one at every index |
| AudioNcc.WrapIsModulo | src/fakedetector/analyzers/_audio_repeated.py:77-80 | the index of the circular convolution is the difference modulo the transform length |
| AudioNcc.TransformSlides | src/fakedetector/analyzers/_audio_repeated.py:77-80 | the retained slice of the transform is the product of the window with the search range, lag by lag |
| AudioNcc.VarianceByPrefix | src/fakedetector/analyzers/_audio_repeated.py:81-83 | sum of squares less squared sum over length is the squared length of the centred window |
| AudioNcc.NumeratorByPrefix | src/fakedetector/analyzers/_audio_repeated.py:88-88 | for any window u, the convolution corrected by the two sums is the product of u with the centred window |
| AudioNcc.SlidingForms | src/fakedetector/analyzers/_audio_repeated.py:77-88 | all numerators and variances at once are the centred products and squared lengths of every lag |
| AudioNcc.RatioPasses | src/fakedetector/analyzers/_audio_repeated.py:39-42 | by Cauchy-Schwarz a coefficient of centred windows passes the numeric guard and is not clipped |
| AudioNcc.LagNcc | src/fakedetector/analyzers/_audio_repeated.py:65-90 | raises only outside the bounded profile: no variance or guard error is reachable; every lag holds the value of the direct centred form |
| AudioNcc.LagDefined | src/fakedetector/analyzers/_audio_repeated.py:71-90 | a lag has a value exactly when x has a centred form, the search range is not silent, and the window's spread exceeds the floor times the squared peak of the search range |
| AudioNcc.CentredDefined | src/fakedetector/analyzers/_audio_repeated.py:26-36 | a window has a centred form exactly when it is not silent and its spread exceeds the floor times its own squared peak |
| AudioNcc.PeakIsMaximum | src/fakedetector/analyzers/_audio_repeated.py:26-30 | the scale is the largest magnitude of the window, and attained |
| AudioNcc.PreparedWhenVaried | src/fakedetector/analyzers/_audio_repeated.py:26-36 | a window has a prepared form exactly when its centred square sum exceeds 64 * 2^-52 times its length times its squared peak |
| AudioNcc.LagWhenVaried | src/fakedetector/analyzers/_audio_repeated.py:71-90 | a lag has a value exactly when x passes that test for its own peak and its window passes it for the peak of the range |
| AudioNcc.SupportDefined | src/fakedetector/analyzers/_audio_repeated.py:45-50 | the direct coefficient never raises, is defined exactly when both windows are, and needs no clip |
| AudioNcc.LagIsSupport | src/fakedetector/analyzers/_audio_repeated.py:45-90 | wherever the sliding form has a value, the direct Pearson form on that window has one and it is the same number |
| AudioNcc.SupportIsPearson | src/fakedetector/analyzers/_audio_repeated.py:45-50 | the direct coefficient is the centred product over the centred lengths of the samples as they came: scaling to peak 1 leaves no trace |
| AudioNcc.LagIsPearson | src/fakedetector/analyzers/_audio_repeated.py:65-90 | so is every value of the sliding form |
| AudioNcc.LagWithinUnit | src/fakedetector/analyzers/_audio_repeated.py:39-90 | every value of a lag is a number in [-1, 1] |
| AudioRetrieval.Streamed | src/fakedetector/analyzers/_audio_repeated.py:132-146 | appending, sorting and truncating leaves the first four of the sorted list of all entries, for every seed and channel |
| AudioRetrieval.EntriesMembers | src/fakedetector/analyzers/_audio_repeated.py:133-146 | the entries of a seed are those of all seeds far enough apart with descriptors in the channel, and no others |
| AudioRetrieval.ComparedExactly | src/fakedetector/analyzers/_audio_repeated.py:133-140 | two seeds are compared in a channel exactly when the later is at least two lengths behind and both have a descriptor there |
| AudioRetrieval.GapByCoordinates | src/fakedetector/analyzers/_audio_repeated.py:141-141 | the distance is the squared difference on one coordinate and adds up over the parts of split vectors |
| AudioRetrieval.GapIsDistance | src/fakedetector/analyzers/_audio_repeated.py:141-141 | the distance is nonnegative, symmetric, and 0 exactly for equal descriptors |
| AudioRetrieval.NearestAreFour | src/fakedetector/analyzers/_audio_repeated.py:144-146 | what is kept are the first four of the sorted entries, or all of them |
| AudioRetrieval.NominatedPairs | src/fakedetector/analyzers/_audio_repeated.py:147-151 | a pair is nominated exactly when one of its seeds keeps the other in some channel |
| AudioRetrieval.NominatedCompared | src/fakedetector/analyzers/_audio_repeated.py:152-158 | a nominated pair has a distance in some channel: the minimum is never taken of nothing |
| AudioRetrieval.Retrieve | src/fakedetector/analyzers/_audio_repeated.py:126-160 | returns the first 64 of the ranking of all nominated pairs, each once with its least distance, and their number; whenever two seeds far enough apart share a descriptor in a channel, the first pair returned has distance 0 and equal descriptors in some channel |
| AudioRetrieval.RankingUnique | src/fakedetector/analyzers/_audio_repeated.py:152-160 | the ranking does not depend on the order in which the set of nominations is visited |
| AudioRetrieval.FirstIsGlobalMinimum | src/fakedetector/analyzers/_audio_repeated.py:126-160 | pairs are returned exactly when any were compared, and the first has the least distance over all compared pairs and channels |
| AudioRetrieval.LengthProfile | src/fakedetector/analyzers/_audio_repeated.py:271-271 | the accepted sample rates give lengths inside the correlation profile, in whole hops |
| AudioRetrieval.SeedsAreExactlyTheGrid | src/fakedetector/analyzers/_audio_repeated.py:272-276 | the seeds are exactly the multiples of 4096 in every window with room for two lengths |
| AudioRetrieval.SeedsInOrder | src/fakedetector/analyzers/_audio_repeated.py:272-276 | the seeds are listed by window, and inside a window by position |
| AudioRetrieval.CapIndicesSpread | src/fakedetector/analyzers/_audio_repeated.py:277-279 | the 256 positions are spread evenly from the first to the last, in strict order |
| AudioRetrieval.CappedKeeps | src/fakedetector/analyzers/_audio_repeated.py:277-279 | up to 256 seeds are all kept, of more exactly those at the 256 spread positions |
| AudioRetrieval.LagRange | src/fakedetector/analyzers/_audio_repeated.py:174-177 | lag 0 is always in range, and the range is exactly the lags whose second interval stays in its window and behind the first |
| AudioRetrieval.SlicesFit | src/fakedetector/analyzers/_audio_repeated.py:174-188 | every slice lies in its window and the search range fits the profile |
| AudioRetrieval.PairLags | src/fakedetector/analyzers/_audio_repeated.py:174-188 | measuring one channel of a pair never raises and gives one value per lag of the range |
| AudioRetrieval.SupportsFit | src/fakedetector/analyzers/_audio_repeated.py:201-214 | at every lag in range both support halves are nonempty, lie in their windows and follow each other without a gap, and their coefficient never raises |
| AudioRetrieval.RankedPairsMeasurable | src/fakedetector/analyzers/_audio_repeated.py:269-305 | every pair retrieved from the seeds of any windows is measurable: it never ends as insufficient support |
| BenignStatistics.PearsonIsUnclamped | scripts/diploma_benign_validation.py:659-671 | the coefficient is defined exactly for two vectors of one length, at least 2, neither constant; it is then the centred product over the centred lengths, and the clamp never changes it |
| BenignStatistics.PearsonSymmetric | scripts/diploma_benign_validation.py:659-671 | the coefficient is symmetric |
| BenignStatistics.PearsonAffine | scripts/diploma_benign_validation.py:659-671 | it is invariant under a positive affine map of one vector |
| Correlation.CauchySchwarz | scripts/diploma_benign_validation.py:663-670 | the squared centred product is at most the product of the centred squares |
| Correlation.SameNumber | scripts/diploma_benign_validation.py:670-670 | two ratios of the same value denote one number |
| Correlation.ClampMeans | scripts/diploma_benign_validation.py:669-671 | clamping cuts the number a ratio denotes off at -1 and 1 |
| BenignRanks.Ranks | scripts/diploma_benign_validation.py:674-686 | the nested loops give each position the number of smaller values plus half of one more than the number of equal ones |
| BenignRanks.BlockOfWalk | scripts/diploma_benign_validation.py:677-685 | the inner loop stops exactly at the end of a block of equal values, so the assigned average is the rank |
| BenignRanks.RankCounts | scripts/diploma_benign_validation.py:674-686 | a rank is the number of positions with smaller values and half of one more than the number with equal values |
| BenignRanks.RanksRespectOrder | scripts/diploma_benign_validation.py:674-686 | ranks are in the order of the values, and equal exactly where the values are |
| BenignRanks.RankSum | scripts/diploma_benign_validation.py:674-686 | the ranks add up to n(n+1)/2, whatever the ties |
| BenignRanks.RanksFollowOrder | scripts/diploma_benign_validation.py:674-686 | ranks depend on nothing but the order of the values |
| BenignRanks.Spearman | scripts/diploma_benign_validation.py:689-690 | the coefficient is Pearson's on the ranks |
| BenignRanks.SpearmanScaleFree | scripts/diploma_benign_validation.py:674-690 | it is unchanged when either vector is mapped by any strictly increasing function |
| Moments.Moments.Add | scripts/research/jpeg_pilot.py:180-186 | after any calls the fields are the exact mean, squared deviations, extremes and bins of everything added |
| Moments.Moments.Result | scripts/research/jpeg_pilot.py:188-196 | an empty summary raises; any other is that of all values added |
| Moments.Welford | scripts/research/jpeg_pilot.py:180-184 | one step keeps the exact mean and the sum of squared deviations from the new mean |
| Moments.BinsAreTwentieths | scripts/research/jpeg_pilot.py:186-186 | bin b takes the values from b/20 up to but not including (b+1)/20, the first also what is negative and the last what reaches 1 |
| Moments.SummaryMeans | scripts/research/jpeg_pilot.py:188-196 | mean times n is the sum, variance times n the sum of squared deviations, each bin the number of positions that fall in it, and the extremes are attained bounds |
| Moments.BinsAddUp | scripts/research/jpeg_pilot.py:186-186 | the twenty bins add up to the number of values |
| Moments.ExtremesAreAttained | scripts/research/jpeg_pilot.py:185-185 | low and high are the true minimum and maximum |
| Moments.OrderIrrelevant | scripts/research/jpeg_pilot.py:170-196 | the summary does not depend on the order of insertion |
| BlockDescriptor.Describe | src/fakedetector/analyzers/_video_experimental.py:75-89 | raises exactly below 9x16; otherwise cell (row, column, channel) is the rounded mean of its block |
| BlockDescriptor.BlocksPartition | src/fakedetector/analyzers/_video_experimental.py:79-84 | along an axis every position lies in exactly one block |
| BlockDescriptor.CutsAscend | src/fakedetector/analyzers/_video_experimental.py:79-84 | no block is empty or leaves the frame |
| BlockDescriptor.CutsAreEven | src/fakedetector/analyzers/_video_experimental.py:83-86 | cut i is i parts of the extent, rounded down; the cuts run from 0 to the extent |
| BlockDescriptor.BlockSumOfChange | src/fakedetector/analyzers/_video_experimental.py:88-88 | changing one channel of one pixel by d changes the sum of a block by d if the block holds the pixel and the channel is the same, and by nothing otherwise |
| BlockDescriptor.BlackBlock | src/fakedetector/analyzers/_video_experimental.py:88-88 | where the channel is 0 every block adds up to 0 |
| BlockDescriptor.CellsAreFlattened | src/fakedetector/analyzers/_video_experimental.py:80-89 | the cells are flattened row by row, block by block, channel by channel |
| BlockDescriptor.NearestInteger | src/fakedetector/analyzers/_video_experimental.py:85-88 | the rounded mean is the nearest integer, half up, and stays in range |
| BlockDescriptor.CellInRange | src/fakedetector/analyzers/_video_experimental.py:75-89 | every cell is the nearest integer to its block's mean, in 0..255 |
| BlockDescriptor.DescriptorIsValidFrame | src/fakedetector/analyzers/_video_experimental.py:75-89 | a descriptor is a frame the distances are bounded for |
| VideoGroups.DistanceBounds | src/fakedetector/analyzers/_video_experimental.py:161-168 | color <= 440640, delta <= 660960, delta <= 2 color, and delta lies between difference and sum of the temporal energies |
| VideoGroups.NormByEntries | src/fakedetector/analyzers/_video_experimental.py:164-167 | a sum of magnitudes counts every entry with its magnitude, once |
| VideoGroups.DistancesAreSums | src/fakedetector/analyzers/_video_experimental.py:161-168 | color adds up the four frames against each other, delta the three steps against each other, the energies the steps themselves |
| VideoGroups.ColorIsMetric | src/fakedetector/analyzers/_video_experimental.py:161-168 | the color distance is a metric |
| VideoGroups.GroupAt | scripts/diploma_vrc_targeted_research.py:251-274 | there is a group of four frames at a start exactly when all its ticks are known and ascend; it carries its key, ticks, geometry and descriptors and spans its first to its last tick |
| VideoWindows.GroupCarries | scripts/diploma_vrc_targeted_research.py:251-274 | the group at a start holds the stream, region and geometry of its window, its four ticks, their ends in seconds, and the block means of its four frames |
| VideoWindows.GroupsFromRequest | scripts/diploma_vrc_targeted_research.py:242-275 | the script's loop over windows, frames and starts, with its own test of the ticks, collects the groups of all windows in their order, skipping windows below 9x16 |
| VideoWindows.AnalyzerGroups | src/fakedetector/analyzers/_video_experimental.py:181-202 | the analyzer's loop, with `_ticks`, collects the same groups, and reports the starts of each window that it passes over |
| VideoWindows.UndefinedMembers | src/fakedetector/analyzers/_video_experimental.py:192-201 | a start is reported as undefined exactly when its ticks are not usable, which is when it gives no group |
| VideoWindows.Reproduce | scripts/diploma_vrc_targeted_research.py:466-468 | from decoded windows on, the script's groups and pairs and the analyzer's groups and metrics always agree: the comparison returns 0 and never stops the script |
| VideoWindows.GroupsMembers | scripts/diploma_vrc_targeted_research.py:242-275 | the groups are exactly those of every usable start of every window that is large enough |
| VideoWindows.KeysAreDistinct | scripts/diploma_vrc_redesign_research.py:218-220 | windows of different regions give groups of different keys, so the duplicate-identity error cannot be raised for them |
| VideoCorrespondence.Analyze | src/fakedetector/analyzers/_video_experimental.py:203-230 | the one-pass fold reports the eligible count and the first minimum pairs of the list of eligible pairs |
| VideoCorrespondence.MeasurementCounts | src/fakedetector/analyzers/_video_experimental.py:206-217 | eligible counts the index pairs that may be paired either way, excluded the others, and the zero counts the listed pairs of distance 0, dynamic if both groups move |
| VideoCorrespondence.MeasurementMinima | src/fakedetector/analyzers/_video_experimental.py:218-230 | the reported minima record the first pair least in color and the first least in delta; there are none exactly when no pair is eligible |
| VideoCorrespondence.EnumeratePairs | scripts/diploma_vrc_targeted_research.py:278-303 | the independent enumeration lists exactly those pairs in that order |
| VideoCorrespondence.PairMembers | scripts/diploma_vrc_targeted_research.py:278-303 | a pair is listed exactly when it is made of two groups at different positions with equal stream and geometry, not of one region with starts less than 5 apart, the first ending before the second begins |
| VideoCorrespondence.PairCarries | src/fakedetector/analyzers/_video_experimental.py:211-226 | a listed pair carries its groups and their four distances |
| VideoCorrespondence.PairIsComparable | scripts/diploma_vrc_targeted_research.py:278-303 | every listed pair is comparable and ordered in time, with the distances of its groups |
| VideoCorrespondence.FirstMinimumIndex | scripts/diploma_vrc_targeted_research.py:306-314 | the first of the least pairs: strictly below everything before it |
| VideoCorrespondence.PairOrderSymmetric | src/fakedetector/analyzers/_video_experimental.py:144-158 | ordering a pair does not depend on the order of the arguments, and puts the earlier group first |
| VideoCorrespondence.VerifyReproduction | scripts/diploma_vrc_targeted_research.py:372-382 | passes exactly when the count, the recorded fields of both minimum pairs and the response agree, and then the difference is 0 |
| VideoCorrespondence.ResponseIsBest | scripts/diploma_vrc_targeted_research.py:317-323 | the response is one less the larger normalized distance of the better of the two minimum pairs; there is none exactly without pairs |
| VideoCorrespondence.ReproductionAgrees | src/fakedetector/lifecycle/_assessment.py:922-934 | on the pairs of any groups the production normalizer never raises, and from the recorded numerators it gets the response that the reproduction gets from the pairs |
| VideoCorrespondence.NormalizerMeans | src/fakedetector/lifecycle/_assessment.py:922-934 | for any measurement: it raises exactly on a numerator out of range, and otherwise gives the best similarity of the recorded pairs, in [0, 1], or none without them |
| VideoCorrespondence.PairsPermutation | src/fakedetector/analyzers/_video_experimental.py:203-230 | the bag of eligible pairs depends only on the bag of groups |
| VideoCorrespondence.OrderOfGroupsIrrelevant | src/fakedetector/analyzers/_video_experimental.py:203-230 | permuting the groups changes none of the four counts and neither minimum distance |
| GreedyDisjoint.Greedy | scripts/diploma_vrc_targeted_research.py:338-348 | at most three pairs sharing no group, in order of distance; each is the nearest of all that share nothing with those before it, and of equally near ones the first in the list; fewer than three only when nothing is left |
| VideoCorrespondence.DistanceIsLarger | scripts/diploma_vrc_targeted_research.py:201-203 | the distance is the larger of color in units of 440640 and delta in units of 660960 |
| GreedyDisjoint.MaximalWithinFactorTwo | scripts/diploma_vrc_targeted_research.py:338-348 | then no group-disjoint family has more than twice as many pairs |
| Quantiles.QuantileRank | scripts/diploma_vrc_targeted_research.py:326-335 | the numbers of positions below and up to the p-quantile, as sizes of sets: at most ceil(p(n-1)) values lie strictly below and more than floor(p(n-1)) do not exceed it |
| Quantiles.QuantileLinear | scripts/diploma_vrc_targeted_research.py:330-335 | between neighbouring ranks the quantile runs along a straight line |
| Quantiles.QuantilePermutation | scripts/diploma_vrc_targeted_research.py:326-335 | the quantile does not depend on the order of the values |
| Quantiles.QuantileMonotone | scripts/diploma_vrc_targeted_research.py:326-335 | it is monotone in p |
| Quantiles.QuantileBounds | scripts/diploma_vrc_targeted_research.py:326-335 | it lies between the minimum and the maximum, which it attains at 0 and 1 |
| Quantiles.ScoreIsUnclamped | scripts/diploma_vrc_redesign_research.py:250-259 | a measured relative score is 1 - min/quantile without the clamp |
| Quantiles.MeasuredExactly | scripts/diploma_vrc_redesign_research.py:250-259 | a score raises exactly for an unknown name or a negative value, is measured exactly when the quantile of R10 or R50 exceeds 10^-12, and is reported as missing otherwise, with the reason |
| Quantiles.MedianScoreDominates | scripts/diploma_vrc_redesign_research.py:250-259 | whenever R10 is measured R50 is too, and is at least as large |
| Quantiles.ScorePermutation | scripts/diploma_vrc_redesign_research.py:250-259 | the score depends on the population only as a bag |
| AlignedRuns.DistantPairs | scripts/diploma_vrc_redesign_research.py:201-211 | the loop lists the distant pairs of its index combinations, each oriented in time |
| AlignedRuns.PairsFromMembers | scripts/diploma_vrc_redesign_research.py:201-211 | a pair of indices is listed exactly when the groups are distant in that direction |
| AlignedRuns.PairsNoDuplicates | scripts/diploma_vrc_redesign_research.py:201-211 | no pair is listed twice |
| AlignedRuns.LookupSize | scripts/diploma_vrc_redesign_research.py:218-220 | the size test on the dictionary detects exactly the repeated group keys |
| AlignedRuns.Aligned | scripts/diploma_vrc_redesign_research.py:214-230 | raises exactly for a run length, keep list or group list that is refused; otherwise collects the runs of the start pairs in their order |
| AlignedRuns.RunsExact | scripts/diploma_vrc_redesign_research.py:214-230 | the runs are exactly the aligned lists of k eligible pairs through consecutive starts of one stream and region per side |
| AlignedRuns.RunsNoDuplicates | scripts/diploma_vrc_redesign_research.py:223-229 | every run is reported once |
| AlignedRuns.StretchOfRun | scripts/diploma_vrc_redesign_research.py:214-230 | every stretch of a run is a run |
| AlignedRuns.RunCountAntitone | scripts/diploma_vrc_redesign_research.py:214-230 | the number of runs never grows with k |
| ArtifactBudget.Budget.ClaimExtent | src/fakedetector/_generated_artifact_budget.py:104-109 | an invalid or unaffordable claim is refused and changes nothing; any other adds exactly its bytes |
| ArtifactBudget.Budget.EnsureFeasible | src/fakedetector/_generated_artifact_budget.py:67-74 | a preflight is accepted exactly when any list of claims that adds up to at most the estimate will be granted, in whatever portions; nothing is charged |
| ArtifactBudget.GrantedWhenFitting | src/fakedetector/_generated_artifact_budget.py:104-109 | claims in a row are all granted exactly when their total fits into what remains |
| ArtifactBudget.Writer.Write | src/fakedetector/_generated_artifact_budget.py:127-142 | the new budget, extent and file after a write, refused, failing, short or complete |
| ArtifactBudget.Writer.Seek | src/fakedetector/_generated_artifact_budget.py:144-148 | a seek moves the position and charges nothing |
| ArtifactBudget.Writer.Truncate | src/fakedetector/_generated_artifact_budget.py:156-166 | growing is charged before it happens; the claim never shrinks |
| ArtifactBudget.Writer.Close | src/fakedetector/_generated_artifact_budget.py:189-197 | closing keeps the claim and the file |
| ArtifactBudget.WriteOutcome | src/fakedetector/_generated_artifact_budget.py:127-142 | a write returns exactly when it is open, affordable, healthy and complete; how far position, length and extent can have moved otherwise |
| ArtifactBudget.SeekMeans | src/fakedetector/_generated_artifact_budget.py:144-148 | where a seek ends, from the beginning, the position or the end of the file, and when it raises instead |
| ArtifactBudget.AppendExtends | src/fakedetector/_generated_artifact_budget.py:127-148 | seeking to the end and writing makes the file longer by exactly what was written |
| ArtifactBudget.SeekUndoesMove | src/fakedetector/_generated_artifact_budget.py:127-148 | seeking back over what was written returns to where the write began |
| ArtifactBudget.TruncateOutcome | src/fakedetector/_generated_artifact_budget.py:156-166 | a truncation returns exactly when it is open, affordable and healthy, and leaves the length it returns |
| ArtifactBudget.CloseOnce | src/fakedetector/_generated_artifact_budget.py:189-197 | closing closes whatever happens, and closing again does nothing |
| ArtifactBudget.OperationsKeep | src/fakedetector/_generated_artifact_budget.py:104-197 | every operation, failing or not, keeps the extent above the file and charges exactly its growth |
| ArtifactBudget.WriteRefusal | src/fakedetector/_generated_artifact_budget.py:127-142 | a write is refused exactly when its growth exceeds what remains |
| ArtifactBudget.StepKeeps | src/fakedetector/_generated_artifact_budget.py:76-197 | each step on many files keeps the books, and neither budget nor any claim shrinks |
| ArtifactBudget.RunsStayWithinBudget | src/fakedetector/_generated_artifact_budget.py:26-197 | over every interleaving on any number of files the budget equals the sum of claims, covers everything on disk and never shrinks or passes its maximum |
| ArtifactBudget.WriteThrough | src/fakedetector/_generated_artifact_budget.py:127-142 | a write through one of many writer objects is one step of the shared state, and touches no other writer |
| ArtifactBudget.SeekThrough | src/fakedetector/_generated_artifact_budget.py:144-148 | so is a seek |
| ArtifactBudget.CloseThrough | src/fakedetector/_generated_artifact_budget.py:189-197 | so is closing |
| ArtifactBudget.OpenThrough | src/fakedetector/_generated_artifact_budget.py:76-87 | opening adds a writer of its own on a new stream, or nothing |
| ArtifactBudget.TruncateThrough | src/fakedetector/_generated_artifact_budget.py:156-166 | so is a truncation |
| ArtifactBudget.Execute | src/fakedetector/_generated_artifact_budget.py:26-197 | any run of actions on real objects leaves them in exactly the state of the modelled run, so the safety of runs holds of the objects |
| CopyMove.OverlapRatio | src/fakedetector/analyzers/_image_copy_move.py:450-461 | intersection over union is symmetric, in [0,1], and 1 of a region with itself |
| CopyMoveReports.OverlapIsShare | src/fakedetector/analyzers/_image_copy_move.py:450-461 | the overlap times the covered area is the common area |
| CopyMoveReports.IntersectionIsCommonArea | src/fakedetector/analyzers/_image_copy_move.py:450-459 | the common area is the area of the greatest box within both, and 0 where there is none |
| CopyMove.BoundingBoxTight | src/fakedetector/analyzers/_image_copy_move.py:426-435 | the box is the least one that holds every point; there is none exactly when the points are in line with an axis |
| CopyMove.RegionPairSpans | src/fakedetector/analyzers/_image_copy_move.py:415-423 | the pair of a cluster is the least box around its first points and the least box around its second points, in key order; there is none exactly when either side is in line with an axis |
| CopyMove.DuplicateSymmetric | src/fakedetector/analyzers/_image_copy_move.py:438-447 | being a duplicate is symmetric |
| CopyMoveReports.DuplicatesExactly | src/fakedetector/analyzers/_image_copy_move.py:438-447 | duplicates overlap by half or more in both regions, either way round |
| CopyMoveReports.KeysAreLexicographic | src/fakedetector/analyzers/_image_copy_move.py:464-465 | boxes are ordered by x, y, width, height, pairs by their first box and then their second |
| CopyMove.Peel | src/fakedetector/analyzers/_image_copy_move.py:349-412 | for any RANSAC: how many clusters are peeled off, what is accepted, and the reported maxima and cap; every pair returned has one box that is the least around all first points of some cluster and one that is the least around all its second points |
| CopyMoveReports.SelectedPositions | src/fakedetector/analyzers/_image_copy_move.py:382-392 | what a mask selects are the entries at the positions it names, in order, each once |
| CopyMoveReports.PartByMask | src/fakedetector/analyzers/_image_copy_move.py:377-392 | the cluster is what the mask of RANSAC selects, and the rest remains |
| CopyMoveReports.ClustersEnd | src/fakedetector/analyzers/_image_copy_move.py:360-386 | every counted cluster left enough to start from and reached three inliers; the next does not, or the limit is reached |
| CopyMoveReports.CappedExactly | src/fakedetector/analyzers/_image_copy_move.py:404-406 | the cap is reported exactly when enough was left and the last attempt used |
| CopyMove.PeelingConserves | src/fakedetector/analyzers/_image_copy_move.py:366-412 | every correspondence ends in exactly one inlier set or in the remainder |
| CopyMove.AcceptedPairs | src/fakedetector/analyzers/_image_copy_move.py:366-412 | at most max_clusters pairs, hence at most eight candidates, pairwise non-duplicate and in key order |
| CopyMove.AcceptedWereOffered | src/fakedetector/analyzers/_image_copy_move.py:366-412 | every accepted pair is that of a qualifying cluster |
| CopyMove.OfferExactly | src/fakedetector/analyzers/_image_copy_move.py:394-401 | a cluster offers its pair exactly when it has enough inliers, a large enough share of what was left, and a pair |
| CopyMove.AcceptedRepresents | src/fakedetector/analyzers/_image_copy_move.py:366-412 | the pair of every qualifying cluster is accepted or duplicates one that is |
| CopyMove.MaximaBound | src/fakedetector/analyzers/_image_copy_move.py:380-412 | the reported maxima bound every cluster and are a proportion and a count |
| CopyMoveReports.RatioIsShare | src/fakedetector/analyzers/_image_copy_move.py:387-390 | the ratio of a cluster times what was left is its number of inliers |
| CopyMoveReports.HighestAttained | src/fakedetector/analyzers/_image_copy_move.py:389-390 | a reported maximum is attained by a cluster or is 0 |
| CopyMove.CandidateInUnitSquare | src/fakedetector/analyzers/_image_copy_move.py:479-503 | a box becomes a candidate exactly when it starts inside the image; the candidate lies in the unit square |
| CopyMoveReports.CandidateIsClipped | src/fakedetector/analyzers/_image_copy_move.py:485-488 | in pixels, a candidate starts at the box or at the border and is as large as the box or up to the far border |
| CopyMove.AcceptedBecomeCandidates | src/fakedetector/analyzers/_image_copy_move.py:349-503 | every pair the loop returns for correspondences inside the image becomes two candidates: the degenerate-region error cannot be raised for it |

## Left out

- Rounding: IEEE arithmetic, NaN and infinities, and the finiteness checks. The guards that exist for rounding are kept as branches and shown unreachable in exact arithmetic.
- JpegRule.ExactUpper: the n-th root of the branch without errors is a parameter with its defining equation, because a real root has no closed form in exact arithmetic.
- JpegGrid.LogTail: states the tail itself rather than its decimal logarithm, which has no exact value here.
- FFT and OpenCV internals: the transform pair is circular convolution, and `estimateAffinePartial2D` is any function of the remaining correspondences (it is seeded anew before every call) whose mask has their length.
- Descriptors of audio seeds, the choice of the best lag and the row that a measured pair is reported in: the retrieval takes the descriptors as given, the lag range and coefficients are modelled.
- `select_candidate`, `score` and the frozen tables of the double-quantization rule: comparisons over finite data.
- The checks of raster shape beyond the window, and the resource policy of image, audio and video decoding: results of decoding are inputs.
- Float32 coordinates of key points in copy-move: coordinates are real numbers.
- How a request's manifest is searched for its dense windows: decoded windows, with one timing record per frame, are the input of `VideoWindows`.
- The distributions, window coverage and state label that the video measurement also reports, and the information policy that decides which groups are kept: the keep list is an input.
- In `ArtifactBudget` the outcome of an operating-system call is an argument of each operation, and opening a file with its cleanup is a single action of the run.
- File hashing, sealing, reports, downloads, the HTTP interface, scheduling and storage.
