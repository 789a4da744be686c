# AccentTutor analysis core in Dafny

AccentTutor listens to a speaker and shows which vowel they are producing.
The model covers the analysis core of the program. It does not cover the
user interface.

The program works in stages:

1. **Audio capture** (`AudioCapture`). It decodes 16-bit little-endian PCM
   batches into samples and sets the recording buffer length.
2. **FFT framing** (`FftFraming`). It keeps a 44100-sample window and
   shifts a Hann-windowed quarter second into it per update.
3. **Spectral conditioning** (`Conditioning`, `TutorDisplay`,
   `SpectrumDisplay`). It squares and equalises the spectrum, applies a
   one-pole high-pass filter over the bins, and takes a z-score (floored at
   0 in the desktop display).
4. **Analysis** (`Peaks`, `Fundamental`, `Smoothing`, `Harmonics`,
   `Formants`, `Matching`):
   - threshold-search peak picking;
   - a harmonic product spectrum for the fundamental;
   - median smoothing of the fundamental and of the formants;
   - the harmonic series;
   - apparent formants, and the choice of F1, F2 and F3;
   - matching against the vowel table (`Vowels`) through an optimal
     assignment.
5. **The assignment solver** (`Munkres` and `MunkresDefs` …
   `MunkresRun`). This is the Munkres (Hungarian) algorithm of Munkres.cs,
   steps 1 to 6, on a padded, integer-scaled square matrix. It is proved
   to terminate with a minimum-cost complete assignment.
6. **The older analyzer** (`LegacyFundamental`, `LegacyFormants`,
   `LegacyMatching`). These are the AccentTutor/SpectrumAnalyzer.cs
   variants of fundamental, formant and vowel identification.
7. **The vowel learner** (`VowelLearning`). It keeps a running mean
   spectrum per vowel and computes feature spectra.
8. **The language comparison tool** (`LanguageComparison`). It parses CSV
   observations and scores them against a language.

How things are modelled:

- Floating-point values are `real`.
- Math.Log, Math.Log10, Math.Sqrt, Math.Pow(10, ·) and Math.Cos are
  function parameters. Each is constrained only as far as a contract needs
  (for example `pow10(y) > 0`).
- A null array, a thrown exception and a NaN or infinite result each
  become `None` of an `Option`.
- Arrays that the source overwrites in place become sequences returned by
  pure functions or methods.
- Two's-complement decoding and the 2^16 integer scaling of the solver are
  written out.

## Model

| member | source | states |
|---|---|---|
| Vowels.TableWellFormed | SpectrumAnalyzer/VowelData.cs:37-106 | every vowel of the table has three formant lows, highs, deviations and amplitudes |
| Vowels.NamesDistinct | SpectrumAnalyzer/VowelData.cs:5-18 | the vowel names of the table are pairwise distinct, so a name identifies a vowel |
| Vowels.TableWellShaped | SpectrumAnalyzer/VowelData.cs:5-106 | the table holds ten vowels, each with a name and its four arrays |
| Peaks.ScanRuns | SpectrumAnalyzer/SpectrumAnalyzer.cs:84-108 | the scan loop emits exactly the closed runs above the threshold, in order, as defined by the reference `Runs`; a run still open at the end is dropped |
| Peaks.RunsOrdered | SpectrumAnalyzer/SpectrumAnalyzer.cs:89-108 | the runs come out left to right and do not overlap; each is non-empty and closed by a value at or below the threshold |
| Peaks.ClosedRunsListed | SpectrumAnalyzer/SpectrumAnalyzer.cs:89-108 | every maximal run above the threshold that is followed by a value at or below it appears among the scanned peaks (completeness of the scan) |
| Peaks.GetTopPeaks | SpectrumAnalyzer/SpectrumAnalyzer.cs:68-121 | empty input is an error (Max() throws); otherwise the result is a permutation of the peaks found at the final threshold, sorted by descending maximum, and peaks of equal maximum keep their scan order |
| Peaks.SearchBounds | SpectrumAnalyzer/SpectrumAnalyzer.cs:76-118 | the threshold search stops after at most 20 scans, earlier only when exactly maxPeaks peaks are found, and keeps a non-negative threshold |
| Peaks.TopPeaksAreRuns | SpectrumAnalyzer/SpectrumAnalyzer.cs:68-121 | on a non-negative spectrum every returned peak is a closed run above the final threshold, and its total, maximum and first maximum index are those of the run |
| Peaks.TopPeaksComplete | SpectrumAnalyzer/SpectrumAnalyzer.cs:68-121 | conversely, every closed run above the final threshold is returned |
| Peaks.PeakShape | SpectrumAnalyzer/SpectrumAnalyzer.cs:94-101 | a peak's maxIndex lies in [lowIndex, highIndex), its maxValue is the first largest value of the run, and its totalValue is the sum of the run |
| Peaks.SingleSpike | SpectrumAnalyzer/SpectrumAnalyzer.cs:68-121 | a spectrum that is zero except for one positive bin j (not the last) yields exactly the peak (j, j+1, x, x, j) |
| Peaks.HundredBinsExample | SpectrumAnalyzer/SpectrumAnalyzer.cs:68-121 | a concrete 100-bin spectrum with a spike at bin 10 yields that single peak |
| Fundamental.LowestBinOf70Hz | SpectrumAnalyzer/SpectrumAnalyzer.cs:203 | the search starts at bin 70, which is 70 Hz at one hertz per bin |
| Fundamental.WindowMax | SpectrumAnalyzer/SpectrumAnalyzer.cs:188-192 | the window maximum bounds every bin of the window and is 0 or one of them |
| Fundamental.ScanWindow | SpectrumAnalyzer/SpectrumAnalyzer.cs:189-192 | the inner loop computes the maximum over the ±plusMinus window around i·h, clipped to the spectrum |
| Fundamental.HarmonicProductSpectrum | SpectrumAnalyzer/SpectrumAnalyzer.cs:177-197 | the nested loops compute the harmonic product spectrum of the reference definition (start max(0.0001, s[i])·i, then 25 down-sampled factors floored at 0.0001) |
| Fundamental.HpsPositive | SpectrumAnalyzer/SpectrumAnalyzer.cs:177-197 | every product is positive except at bin 0, where the initial factor i makes it 0 |
| Fundamental.IdentifyFundamental | SpectrumAnalyzer/SpectrumAnalyzer.cs:171-216 | -1 exactly when the spectrum has no bin at or above 70; otherwise the frequency of the first bin from 70 up with the largest product |
| Fundamental.FirstBestUnique | SpectrumAnalyzer/SpectrumAnalyzer.cs:203-211 | the strict `>` makes the chosen bin unique: the first maximal one |
| Fundamental.SilenceGivesTopBin | SpectrumAnalyzer/SpectrumAnalyzer.cs:177-211 | on an all-zero spectrum the floors dominate and the last bin wins; no other bin can |
| Fundamental.SilentHps | SpectrumAnalyzer/SpectrumAnalyzer.cs:177-197 | on an all-zero spectrum the product at bin i after h harmonics is i·0.0001^h |
| Common.SortByStable | SpectrumAnalyzer/SpectrumAnalyzer.cs:547 | OrderBy is stable: for every key value, the elements with that key appear in the sorted result in the order of the input |
| Common.SortByRank | SpectrumAnalyzer/SpectrumAnalyzer.cs:282 | element p of OrderBy's result is an input element with at most p input elements of smaller key and more than p of key no larger, and it is the (p minus that smaller count)-th element of its key in input order |
| Common.MaxByFirst | SpectrumAnalyzer/SpectrumAnalyzer.cs:413 | of several elements with the largest key, MaxBy returns the first: it occurs no later than any element of that key |
| Common.FilterMaxByFirst | SpectrumAnalyzer/SpectrumAnalyzer.cs:413 | Where(p).MaxBy(key) is, of the elements satisfying p, the first with the largest key |
| Smoothing.MakeSmoothedFundamental | SpectrumAnalyzer/SpectrumAnalyzer.cs:276-291 | a new fundamental other than -1 is shifted in at the end and the oldest is dropped; -1 leaves the window unchanged |
| Smoothing.SmoothedEmpty | SpectrumAnalyzer/SpectrumAnalyzer.cs:282-289 | a window of zeros smooths to -1 |
| Smoothing.SmoothedIsMidpoint | SpectrumAnalyzer/SpectrumAnalyzer.cs:282-290 | otherwise the result is -1 or the midpoint of two non-zero observations in the window |
| Smoothing.SmoothedWithin | SpectrumAnalyzer/SpectrumAnalyzer.cs:282-290 | on non-negative observations the smoothed fundamental is positive and lies within the range of the non-zero observations |
| Smoothing.SmoothedRepeated | SpectrumAnalyzer/SpectrumAnalyzer.cs:282-290 | a window that holds only zeros and copies of x smooths to x |
| Smoothing.SmoothedIsMedian | SpectrumAnalyzer/SpectrumAnalyzer.cs:281-290 | with k non-zero observations, the smoothed fundamental is the observation of rank k/2, or for an odd k above one the mean of those of ranks k/2 - 1 and k/2 (a zero mean reads as -1), where a rank is a count of smaller and equal observations |
| Smoothing.ObservedEntries | SpectrumAnalyzer/SpectrumAnalyzer.cs:282-284 | the observations the median is taken over are exactly the non-zero entries of the window |
| Smoothing.Candidates | SpectrumAnalyzer/SpectrumAnalyzer.cs:454-457 | the candidates of formant slot i are exactly the non-zero formants of that slot in the window |
| Smoothing.MakeSmoothedFormants123 | SpectrumAnalyzer/SpectrumAnalyzer.cs:447-466 | the new triple is shifted into the window, the oldest dropped, and three smoothed formants are returned |
| Smoothing.SlotEmpty | SpectrumAnalyzer/SpectrumAnalyzer.cs:454-462 | a slot with no non-zero observation smooths to the empty formant |
| Smoothing.SlotIsMidpoint | SpectrumAnalyzer/SpectrumAnalyzer.cs:454-462 | otherwise it is a candidate or the midpoint of two candidates |
| Smoothing.SlotRepeated | SpectrumAnalyzer/SpectrumAnalyzer.cs:454-462 | a slot that only ever observed one formant f smooths to f |
| Smoothing.SlotIsMedian | SpectrumAnalyzer/SpectrumAnalyzer.cs:454-462 | the smoothed slot is the candidate of rank k/2 by frequency (ties in window order), or for an odd count above one the midpoint of the candidates of ranks k/2 - 1 and k/2, where ranks are counted independently of any sort |
| Harmonics.Series | SpectrumAnalyzer/SpectrumAnalyzer.cs:315-327 | the series exists exactly when every harmonic's search range is non-empty; entry n-1 is the maximum of the spectrum over harmonic n's range |
| Harmonics.EvaluateHarmonicSeries | SpectrumAnalyzer/SpectrumAnalyzer.cs:311-328 | a non-positive fundamental gives no series; otherwise one value per harmonic below 4000 Hz, each the range maximum, or none when a range is empty (Max() throws) |
| Harmonics.HarmonicBelowMaxFreq | SpectrumAnalyzer/SpectrumAnalyzer.cs:313-316 | every evaluated harmonic lies at or below MAX_FREQ |
| Harmonics.SeriesDefinedOnDisplaySpectrum | SpectrumAnalyzer/SpectrumAnalyzer.cs:311-328 | on a spectrum of at least 4000 bins no range is empty, so the series always exists for a positive fundamental |
| Formants.FindPeaks | SpectrumAnalyzer/SpectrumAnalyzer.cs:336-352 | the peak indices are exactly the strict local maxima, the ends compared with their single neighbour, in increasing order; a null series has none |
| Formants.PeaksApart | SpectrumAnalyzer/SpectrumAnalyzer.cs:338-352 | two peaks are never adjacent |
| Formants.PeakFormant | SpectrumAnalyzer/SpectrumAnalyzer.cs:356-398 | a peak's formant is at least as strong as the peak |
| Formants.AddDistinct | SpectrumAnalyzer/SpectrumAnalyzer.cs:396-398 | adding a formant keeps every frequency already present, makes the new one present, and keeps frequencies distinct |
| Formants.IdentifyApparentFormants | SpectrumAnalyzer/SpectrumAnalyzer.cs:333-401 | formant k is the formant of peak at[k], with at strictly increasing (peak order); a peak is kept exactly when no earlier peak's formant has its frequency; every peak's frequency is listed, frequencies are distinct, and null gives none |
| Formants.FormantFreqWithinMerged | SpectrumAnalyzer/SpectrumAnalyzer.cs:383-395 | a merged formant's frequency lies between the first and last harmonic merged into it, and equals the peak's harmonic when no neighbour joins |
| Formants.PickBest | SpectrumAnalyzer/SpectrumAnalyzer.cs:413-430 | with no candidate in the band the pick is the default formant; otherwise it is the first candidate of largest key (MaxBy) |
| Formants.OrderPair | SpectrumAnalyzer/SpectrumAnalyzer.cs:433-437 | one exchange puts the smaller of two neighbouring formants first, keeps both and leaves the others alone |
| Formants.TwoExchanges | SpectrumAnalyzer/SpectrumAnalyzer.cs:433-442 | the two exchanges permute the three picks and leave F1 ≤ F2 |
| Formants.TwoExchangesSuffice | SpectrumAnalyzer/SpectrumAnalyzer.cs:433-442 | the two exchanges sort three formants whenever the first is not above the third |
| Formants.SortTriple | SpectrumAnalyzer/SpectrumAnalyzer.cs:432-442 | the intended ordering: a permutation of the three picks sorted by frequency |
| Formants.IdentifyFormants123 | SpectrumAnalyzer/SpectrumAnalyzer.cs:406-444 | the program's two exchanges yield a permutation of the picks with F1 ≤ F2 but not always F2 ≤ F3 |
| Formants.AsWrittenOrderedWithF3 | SpectrumAnalyzer/SpectrumAnalyzer.cs:422-442 | when an F3 candidate exists the program's order is already sorted and agrees with the corrected one |
| Formants.AsWrittenUnordered | SpectrumAnalyzer/SpectrumAnalyzer.cs:406-444 | counterexample: formants at 1000 Hz and 600 Hz with no F3 come out as [0, 1000, 600], unsorted, where the sorted result is [0, 600, 1000] |
| Formants.MissingF3 | SpectrumAnalyzer/SpectrumAnalyzer.cs:422-442 | with no F3 and F2 below F1 the program returns [none, F1, F2] where sorting gives [none, F2, F1] |
| Formants.IdentifyFormants123Sorted | SpectrumAnalyzer/SpectrumAnalyzer.cs:406-444 | the corrected F1, F2 and F3: a permutation of the band picks sorted by frequency |
| Matching.ToFloat | SpectrumAnalyzer/SpectrumAnalyzer.cs:535 | the float sum of a score is exact up to float.MaxValue and never a finite value above it |
| Matching.ToFloatMonotone | SpectrumAnalyzer/SpectrumAnalyzer.cs:535-536 | rounding to float keeps the order of scores |
| Matching.Misalign | SpectrumAnalyzer/SpectrumAnalyzer.cs:509-515 | the misalignment is 0 exactly when the apparent harmonic is at or up to 0.5 above the vowel's, and the absolute difference otherwise |
| Matching.FormantCost | SpectrumAnalyzer/SpectrumAnalyzer.cs:516-531 | each cost is non-negative, and float.MaxValue for a formant of value 0 |
| Matching.CostMatrix | SpectrumAnalyzer/SpectrumAnalyzer.cs:501-533 | the cost matrix has one row per apparent formant and one column per vowel formant, all entries non-negative |
| Matching.PairSumNonNegative | SpectrumAnalyzer/SpectrumAnalyzer.cs:535 | the score of an assignment over non-negative costs is non-negative |
| Matching.RunTrial | SpectrumAnalyzer/SpectrumAnalyzer.cs:499-535 | one trial c = i/10 builds the cost matrix and returns a cheapest complete assignment of it with its float score |
| Matching.MatchVowel | SpectrumAnalyzer/SpectrumAnalyzer.cs:494-541 | the 11 trials are exactly those of c = 0, 0.1, …, 1; the best is the last of lowest score (`<=`), named by the vowel, or unnamed when every score is infinite |
| Matching.Settled | SpectrumAnalyzer/SpectrumAnalyzer.cs:536-538 | the best stays unnamed exactly when every trial scores infinity |
| Matching.IdentifyVowel | SpectrumAnalyzer/SpectrumAnalyzer.cs:543-548 | each vowel is matched; the named matchings are returned as a permutation sorted by ascending score, equal scores in table order |
| Matching.Rank | SpectrumAnalyzer/SpectrumAnalyzer.cs:547 | the Where/OrderBy keeps exactly the named matchings, sorted by score, equal scores in their input order |
| Matching.RankedScores | SpectrumAnalyzer/SpectrumAnalyzer.cs:547 | sorting by the numeric key sorts by score order |
| Matching.ScoreKeyOrder | SpectrumAnalyzer/SpectrumAnalyzer.cs:547 | for scores up to float.MaxValue or infinite, the numeric sort key orders exactly as the score order |
| MunkresDefs.CountTrueAll | AccentTutor/Munkres.cs:96-111 | a cover count equals the size exactly when every line is covered (the step-3 completion test) |
| MunkresDefs.RowsStarredColsStarred | AccentTutor/Munkres.cs:96-111 | with independent stars, a star in every row means a star in every column |
| MunkresSteps.StepOne | AccentTutor/Munkres.cs:61-72 | each row has its minimum subtracted; the result is non-negative and every row has a zero; goes to step 2 |
| MunkresSteps.ClearCovers | AccentTutor/Munkres.cs:208-213 | uncovers every row and column and changes nothing else |
| MunkresSteps.StepTwo | AccentTutor/Munkres.cs:77-91 | stars are independent zeros, with no primes or covers left; every zero shares a row or column with a star; goes to step 3 |
| MunkresSteps.StepThree | AccentTutor/Munkres.cs:96-111 | covers exactly the starred columns; goes to step 7 exactly when every column is covered, otherwise to step 4 |
| MunkresSearch.FindAZero | AccentTutor/Munkres.cs:114-137 | returns the first uncovered zero in row-major order, or (-1, -1) exactly when there is none |
| MunkresSearch.StarInRow | AccentTutor/Munkres.cs:139-145 | true exactly when the row holds a star |
| MunkresSearch.FindStarInRow | AccentTutor/Munkres.cs:147-152 | the column of the row's last star, or -1 exactly when the row has none |
| MunkresSearch.PrimeAt | AccentTutor/Munkres.cs:171 | marks the one cell as a prime and changes nothing else |
| MunkresSearch.CoverRow | AccentTutor/Munkres.cs:173-175 | covers the row and uncovers the column, changing nothing else |
| MunkresSearch.PrimeInStarredRow | AccentTutor/Munkres.cs:171-175 | priming an uncovered zero in a starred row keeps the stars and the cover invariant and covers one more row, which bounds the step-4 loop |
| MunkresSearch.PrimeAndCover | AccentTutor/Munkres.cs:171-175 | priming a zero in a starred row and moving the cover from its star's column to its row keeps the stars and the cover invariant |
| MunkresSearch.PrimeEndsSearch | AccentTutor/Munkres.cs:171-180 | priming a zero in a starless row starts an augmenting path and keeps the stars |
| MunkresSearch.StepFour | AccentTutor/Munkres.cs:159-184 | goes to step 5 with a path start or to step 6 with no uncovered zero; stars are unchanged and covered rows only grow |
| MunkresPath.FindStarInCol | AccentTutor/Munkres.cs:187-192 | the row of a star in the column, or -1 exactly when the column has none |
| MunkresPath.FindPrimeInRow | AccentTutor/Munkres.cs:194-198 | the column of a prime in the row; c unchanged when the row holds none |
| MunkresPath.AugmentPath | AccentTutor/Munkres.cs:200-206 | unstars the starred cells of the path, stars the others, and leaves cells off the path alone |
| MunkresPath.ErasePrimes | AccentTutor/Munkres.cs:215-220 | removes every prime and keeps every star |
| MunkresPath.BuildPath | AccentTutor/Munkres.cs:235-253 | the alternating prime–star path from the step-4 prime ends at a prime whose column has no star |
| MunkresPath.StepFive | AccentTutor/Munkres.cs:230-258 | augmenting adds one star; the starred rows are the old ones plus the path's first row; no primes or covers remain; goes to step 3 |
| MunkresExchange.PathCellsDistinct | AccentTutor/Munkres.cs:235-253 | the cells of the path are pairwise distinct, and same-kind cells lie in different rows |
| MunkresExchange.NewStarRows | AccentTutor/Munkres.cs:254 | after the exchange a row holds a star exactly when it held one before or is the row of the path's first prime |
| MunkresExchange.AugmentStars | AccentTutor/Munkres.cs:254 | after the exchange the stars are still independent and one more row holds one |
| MunkresReduce.UncoveredLinesExist | AccentTutor/Munkres.cs:272-283 | during step 6 some row and some column are uncovered, so the minimum exists |
| MunkresReduce.FindSmallest | AccentTutor/Munkres.cs:261-267 | the minimum over uncovered cells: at most every uncovered cell and equal to one of them |
| MunkresReduce.ShiftMin | AccentTutor/Munkres.cs:275-281 | adds minval to every covered row and subtracts it from every uncovered column, changing nothing but the costs |
| MunkresReduce.StepSix | AccentTutor/Munkres.cs:272-283 | adds the minimum to covered rows and subtracts it from uncovered columns; costs stay non-negative, the invariant holds, an uncovered zero appears; goes to step 4 |
| MunkresOptimal.PairCostPotential | AccentTutor/Munkres.cs:61-72 | when C0 = C + u + v, an assignment's cost in C0 is its cost in C plus the potentials of its rows and columns |
| MunkresOptimal.LowerBound | AccentTutor/Munkres.cs:61-72 | on a non-negative reduced matrix every complete assignment costs at least the potential sum, with equality when it uses only zeros |
| MunkresOptimal.Completion | AccentTutor/Munkres.cs:389-402 | any partial assignment of a square extends to a complete one |
| MunkresRun.RunMunkres | AccentTutor/Munkres.cs:332-362 | the step loop terminates in step 7 with a star in every column, and the stars are a complete assignment no other complete assignment undercuts |
| MunkresRun.StarsOptimal | AccentTutor/Munkres.cs:332-362 | finished stars on zeros of a reduced matrix cost no more than any complete assignment of the original |
| Munkres.QuantizeMatrix | AccentTutor/Munkres.cs:322 | every cost is scaled by 2^16 and truncated toward zero |
| Munkres.PadValue | AccentTutor/Munkres.cs:308-315 | the corrected padding value: at least every scaled entry and equal to one (int.MinValue for an empty matrix) |
| Munkres.PadValueAsWrittenMissesMax | AccentTutor/Munkres.cs:308-315 | counterexample: the program's scan compares raw entries with the scaled maximum and pads [[1, 2]] with 65536 instead of 131072 |
| Munkres.Padded | AccentTutor/Munkres.cs:317-325 | the padded matrix is max(rows, cols) square, with the scaled costs inside the rectangle and the padding value elsewhere |
| Munkres.InitMunkres | AccentTutor/Munkres.cs:289-330 | the solver starts on the scaled square padded with the corrected maximum (see Findings), with nothing marked or covered |
| Munkres.ResetMaskAndCovers | AccentTutor/Munkres.cs:48-57 | a solver over the given matrix with an unmarked mask and no covers |
| Munkres.GetAssignments | AccentTutor/Munkres.cs:389-402 | lists exactly the starred cells of the original rectangle, in row-major order |
| Munkres.RegionComplete | AccentTutor/Munkres.cs:391-400 | with a star in every line of the padded square the rectangle holds min(rows, cols) independent stars |
| Munkres.MunkresAssignment | AccentTutor/Munkres.cs:404-410 | the result pairs min(rows, cols) rows with as many columns, none twice, in row-major order, and no complete assignment costs less in the scaled matrix |
| Munkres.AssignmentOptimal | AccentTutor/Munkres.cs:317-325 | optimality in the padded square carries over to the rectangle, since every completion pays the same padding |
| Munkres.RectangleOptimal | AccentTutor/Munkres.cs:317-325 | if an assignment is cheapest in the padded square among completions of the rectangle, it is cheapest in the rectangle |
| Munkres.CompletionCost | AccentTutor/Munkres.cs:317-325 | a completed rectangular assignment costs in the padded square its scaled cost plus the padding of the added cells |
| Munkres.DiagonalExample | AccentTutor/Munkres.cs:404-410 | on [[1, 2], [2, 1]] the contract of MunkresAssignment admits only the diagonal |
| Munkres.TwoByTwoRowMajor | AccentTutor/Munkres.cs:389-402 | the complete row-major assignments of a 2-by-2 matrix are the diagonal and the anti-diagonal |
| LegacyFundamental.RoundEven | AccentTutor/SpectrumAnalyzer.cs:136 | Math.Round: the nearest integer, with ties going to the even one |
| LegacyFundamental.RoundEvenUnique | AccentTutor/SpectrumAnalyzer.cs:136 | that integer is unique |
| LegacyFundamental.Candidates | AccentTutor/SpectrumAnalyzer.cs:115-128 | three candidates per peak: distances between peaks paired by amplitude and by position, and the peak positions |
| LegacyFundamental.PositionsAreCandidates | AccentTutor/SpectrumAnalyzer.cs:128 | every peak's position is a candidate |
| LegacyFundamental.DistancesAreCandidates | AccentTutor/SpectrumAnalyzer.cs:122-126 | every distance between neighbouring peaks in position order is a candidate |
| LegacyFundamental.Kept | AccentTutor/SpectrumAnalyzer.cs:131 | the kept candidates are exactly those of at least 50 Hz, all positive |
| LegacyFundamental.DedupeDistinct | AccentTutor/SpectrumAnalyzer.cs:142 | grouping by harmonic number leaves one peak per harmonic number |
| LegacyFundamental.DedupeCovers | AccentTutor/SpectrumAnalyzer.cs:142 | every harmonic number present keeps a peak, and the kept one is the first of largest maximum |
| LegacyFundamental.MatchedFit | AccentTutor/SpectrumAnalyzer.cs:135-142 | every matched peak fits the candidate within tolerance, and there is one per harmonic number |
| LegacyFundamental.MatchedCovers | AccentTutor/SpectrumAnalyzer.cs:135-142 | every fitting peak's harmonic number is represented among the matched peaks |
| LegacyFundamental.Product | AccentTutor/SpectrumAnalyzer.cs:147 | the product of max(1, maxValue) over the matched peaks is at least 1 |
| LegacyFundamental.Evaluate | AccentTutor/SpectrumAnalyzer.cs:135-148 | a candidate's choice carries exactly its matched, de-duplicated peaks |
| LegacyFundamental.Outcomes | AccentTutor/SpectrumAnalyzer.cs:133-155 | one outcome per candidate, present exactly when the candidate matches some peak, and then its evaluation |
| LegacyFundamental.PickWinner | AccentTutor/SpectrumAnalyzer.cs:149-153 | the strict `>` scan returns the first outcome of highest score whenever it beats the running best |
| LegacyFundamental.PickResult | AccentTutor/SpectrumAnalyzer.cs:112-156 | the scan from score 0 gives -1 and null exactly when no outcome exists, and otherwise the first best outcome |
| LegacyFundamental.ScorePositive | AccentTutor/SpectrumAnalyzer.cs:147 | a candidate with matching peaks scores above 0, so it beats the initial best score |
| LegacyFundamental.RefinedFreq | AccentTutor/SpectrumAnalyzer.cs:148 | the refined frequency is undefined (a division by zero) exactly when some matched peak rounds to harmonic 0 |
| LegacyFundamental.FundamentalChoice | AccentTutor/SpectrumAnalyzer.cs:108-157 | -1 and null exactly when no candidate collects a peak; otherwise the first candidate of highest score wins, with its refined frequency and its peaks |
| LegacyFormants.LegacyFormant | AccentTutor/SpectrumAnalyzer.cs:182-253 | a peak's formant has the peak's value and a weighted index strictly within one harmonic of the peak, equal to it when no neighbour is similar |
| LegacyFormants.RunAlwaysEnds | AccentTutor/SpectrumAnalyzer.cs:182-253 | the next peak is never adjacent, so the run-merging branch is dead |
| LegacyFormants.PeaksTwoApart | AccentTutor/SpectrumAnalyzer.cs:182-253 | consecutive peak indices differ by at least 2 |
| LegacyFormants.IdentifyApparentFormants | AccentTutor/SpectrumAnalyzer.cs:182-253 | one formant per peak, in peak order, with strictly increasing indices; null gives none |
| LegacyMatching.LegacyMisalign | AccentTutor/SpectrumAnalyzer.cs:289-293 | the older misalignment is 0 exactly when the harmonics are within 0.5 of each other, in either direction |
| LegacyMatching.MisalignForgivesMore | AccentTutor/SpectrumAnalyzer.cs:289-293 | the older misalignment is symmetric and never above the current one; they agree when the apparent harmonic is higher, and the older one is strictly smaller just below |
| LegacyMatching.LegacyFormantCost | AccentTutor/SpectrumAnalyzer.cs:294-305 | each cost is non-negative, float.MaxValue for a zero value, and at least 4/value otherwise |
| LegacyMatching.PerfectFit | AccentTutor/SpectrumAnalyzer.cs:294-305 | a formant within half a harmonic and at the desired value costs exactly 4/value |
| LegacyMatching.LegacyCostMatrix | AccentTutor/SpectrumAnalyzer.cs:278-307 | one row per apparent formant and one column per vowel formant, non-negative, float.MaxValue on zero-valued rows |
| LegacyMatching.RunLegacyTrial | AccentTutor/SpectrumAnalyzer.cs:279-309 | one trial c = i/10 builds the older cost matrix and returns a cheapest complete assignment of it with its score |
| LegacyMatching.EarliestLowest | AccentTutor/SpectrumAnalyzer.cs:309-312 | the strict `<` keeps the first trial of lowest score |
| LegacyMatching.LegacyMatchVowel | AccentTutor/SpectrumAnalyzer.cs:276-314 | 11 trials; the best is the first of lowest score below float.MaxValue, or unnamed when none scores below it |
| LegacyMatching.LegacyIdentifyVowel | AccentTutor/SpectrumAnalyzer.cs:271-318 | every vowel's matching, unnamed ones included, as a permutation sorted by ascending score, equal scores in table order |
| LegacyMatching.InterpolationConstant | AccentTutor/SpectrumAnalyzer.cs:328-330 | the clamped interpolation constant lies in [0, 1]; it is undefined (0/0) only for a degenerate range hit exactly |
| LegacyMatching.InterpolationInside | AccentTutor/SpectrumAnalyzer.cs:328-330 | inside the F1 range the constant places F1 exactly: low + c·(high − low) is the formant frequency |
| Conditioning.HighPass | AndroidAccentTutor/TutorDisplay.cs:136-145 | the in-place filter loop produces out[0] = in[0] and out[i] = 0.96·(out[i-1] + in[i] − in[i-1]) |
| Conditioning.HighPassedUnique | SpectrumDisplay/SpectrumDisplayCtrl.cs:226-235 | that recurrence determines the output |
| Conditioning.DcDecays | AndroidAccentTutor/TutorDisplay.cs:136-145 | a constant input c decays to 0.96^i·c at bin i |
| Conditioning.ZeroPrefixStays | AndroidAccentTutor/TutorDisplay.cs:133-145 | bins that are zeroed before the filter stay zero after it |
| Conditioning.ZScore | AndroidAccentTutor/TutorDisplay.cs:148-156 | the z-score exists exactly when the deviation is non-zero, and mean + sd·z recovers every bin |
| Conditioning.ZScoreSumsToZero | AndroidAccentTutor/TutorDisplay.cs:148-156 | the z-scored frame sums to 0 |
| Conditioning.FlooredZScore | SpectrumDisplay/SpectrumDisplayCtrl.cs:238-240 | the floored z-score exists exactly when the deviation is non-zero, and is non-negative |
| Conditioning.FlooredClips | SpectrumDisplay/SpectrumDisplayCtrl.cs:238-240 | it is the plain z-score clipped at 0, and a bin stays positive exactly when it lies above the mean |
| TutorDisplay.TutorBinsCount | AndroidAccentTutor/TutorDisplay.cs:54 | the display keeps 4000 bins (MAX_FREQ at one hertz per bin) |
| TutorDisplay.PowerSpectrum | AndroidAccentTutor/TutorDisplay.cs:121-133 | normalised power per bin, attenuated by 0.0025 below 250 Hz and 0.2 below 400 Hz, with bins 0–2 zeroed; all non-negative |
| TutorDisplay.ConditionFrame | AndroidAccentTutor/TutorDisplay.cs:121-156 | the high-passed power spectrum, z-scored: no numbers exactly when its deviation is 0, otherwise a frame summing to 0 |
| TutorDisplay.FrameFundamental | AndroidAccentTutor/TutorDisplay.cs:171 | a frame without numbers yields -1; otherwise the harmonic-product fundamental of the frame |
| TutorDisplay.HandleFftData | AndroidAccentTutor/TutorDisplay.cs:114-189 | the conditioned frame and its fundamental are shifted into the 8-frame and 16-fundamental histories, the oldest dropped and the count raised by one |
| TutorDisplay.Roundedness | AndroidAccentTutor/TutorDisplay.cs:277-290 | the roundedness lies in [0, 1] |
| TutorDisplay.RoundednessIsGap | AndroidAccentTutor/TutorDisplay.cs:277-290 | it is the gap between the largest and the middle decibel value over 50, capped at 1 |
| TutorDisplay.RoundednessSymmetric | AndroidAccentTutor/TutorDisplay.cs:277-290 | it does not depend on the order of the three amplitudes |
| TutorDisplay.RoundednessTie | AndroidAccentTutor/TutorDisplay.cs:277-290 | two equal largest amplitudes give 0 |
| TutorDisplay.Clamp | AndroidAccentTutor/TutorDisplay.cs:512-516 | the result lies in [0, 255]; values inside are kept, values below go to 0 and values above to 255 |
| TutorDisplay.ClampMonotone | AndroidAccentTutor/TutorDisplay.cs:512-516 | clamping is monotone and idempotent |
| SpectrumDisplay.DisplayBinsCount | SpectrumDisplay/SpectrumDisplayCtrl.cs:267 | the take count (int)(4000/1 + 0.5) is 4000 |
| SpectrumDisplay.TrimmedSpectrum | SpectrumDisplay/SpectrumDisplayCtrl.cs:262-273 | the first 4000 bins, normalised by sqrt(44100) = 210 and made positive, with bins 0–2 zeroed; fewer than 3 bins throw |
| SpectrumDisplay.Squares | SpectrumDisplay/SpectrumDisplayCtrl.cs:223 | each bin is squared, so every bin is non-negative |
| SpectrumDisplay.PhaseBlind | SpectrumDisplay/SpectrumDisplayCtrl.cs:270-271 | negating the FFT data does not change the trimmed spectrum |
| SpectrumDisplay.PrepareVisualization | SpectrumDisplay/SpectrumDisplayCtrl.cs:208-260 | null gives fundamental -1 and no peaks; empty throws; otherwise the floored z-score of the high-passed squares, its top 32 peaks, the smoothed fundamental, and analysis exactly when that is not -1 |
| FftFraming.FourBlocksLong | SpectrumAnalyzer/FftProcessor.cs:31-32 | the window holds exactly four updates |
| FftFraming.HannBounded | SpectrumAnalyzer/FftProcessor.cs:71-73 | the Hann weight lies in [0, 1] |
| FftFraming.Windowed | SpectrumAnalyzer/FftProcessor.cs:85-87 | each incoming sample is multiplied by its Hann weight |
| FftFraming.ProcessSamples | SpectrumAnalyzer/FftProcessor.cs:75-101 | a batch of the wrong length changes nothing; otherwise the window shifts by a quarter and the windowed batch fills its end; the transform is delivered exactly when a listener is attached |
| FftFraming.Feed | SpectrumAnalyzer/FftProcessor.cs:75-101 | feeding full blocks keeps the processor framed: the window stays 44100 samples long |
| FftFraming.FeedIsProcessSamples | SpectrumAnalyzer/FftProcessor.cs:75-101 | feeding blocks one at a time is repeated ProcessSamples |
| FftFraming.FeedShifts | SpectrumAnalyzer/FftProcessor.cs:82-87 | after k ≤ 4 blocks the window ends with their windowed samples, preceded by the newest part of the old window |
| FftFraming.FourthBlockEvicts | SpectrumAnalyzer/FftProcessor.cs:82-87 | four blocks replace the whole window, whatever it held before |
| AudioCapture.BufferMilliseconds | AccentTutor/AudioIn.cs:60 | 1000 / (44100 / n) in integer division: defined for 0 < n ≤ 44100, within [0, 1000], and 0 exactly for batches of at most 44 samples |
| AudioCapture.QuarterSecondBuffers | AccentTutor/AudioIn.cs:60 | a batch of 11025 samples gives 250 ms buffers |
| AudioCapture.Sample | AccentTutor/AudioIn.cs:80 | the little-endian bytes give a 16-bit two's-complement value, negative exactly when the high byte's top bit is set |
| AudioCapture.SampleBytes | AccentTutor/AudioIn.cs:80 | the little-endian encoding of a 16-bit sample, whose high byte is below 128 exactly when the sample is non-negative |
| AudioCapture.Encoded | AccentTutor/AudioIn.cs:79-81 | a recording of n samples is 2n bytes, sample i at bytes 2i and 2i+1 |
| AudioCapture.SampleOfBytes | AccentTutor/AudioIn.cs:80 | encoding a 16-bit sample and decoding it gives the sample back |
| AudioCapture.BytesOfSample | AccentTutor/AudioIn.cs:80 | decoding two bytes and encoding the result gives the bytes back |
| AudioCapture.Samples | AccentTutor/AudioIn.cs:79-81 | sample i is decoded from bytes 2i and 2i+1 |
| AudioCapture.DataAvailable | AccentTutor/AudioIn.cs:70-86 | a buffer of the wrong byte count is ignored; otherwise the samples are decoded into the data array, which is delivered exactly when a listener is attached |
| AudioCapture.DeliversRecordedSamples | AccentTutor/AudioIn.cs:70-86 | recording 16-bit samples delivers exactly those samples |
| VowelLearning.IndexOf | AccentTutor/VowelLearner.cs:16 | finds the entry of the vowel, or reports that no entry has it |
| VowelLearning.GetSpectrum | AccentTutor/VowelLearner.cs:47-49 | null exactly when the vowel has no entry |
| VowelLearning.GetSpectrumCount | AccentTutor/VowelLearner.cs:51-53 | 0 exactly when the vowel has no entry |
| VowelLearning.AddVowelFft | AccentTutor/VowelLearner.cs:13-27 | a first spectrum is stored with count 1; a later one updates the running mean elementwise (zip-truncated) and raises the count; other vowels are untouched |
| VowelLearning.AddCounts | AccentTutor/VowelLearner.cs:13-27 | adding raises the vowel's count by exactly one |
| VowelLearning.FirstAddIsMean | AccentTutor/VowelLearner.cs:21-23 | after the first add the stored spectrum is the mean of the one spectrum added |
| VowelLearning.AddKeepsMean | AccentTutor/VowelLearner.cs:16-20 | if the stored spectrum is the mean of the spectra added so far, it is the mean of those plus the new one afterwards |
| VowelLearning.AddKeepsLearned | AccentTutor/VowelLearner.cs:13-27 | every stored spectrum is the mean of that vowel's history, and this survives an add |
| VowelLearning.ChangeFromSilence | AccentTutor/VowelLearner.cs:23 | the first add's change is measured against a silent spectrum |
| VowelLearning.MeanStep | AccentTutor/VowelLearner.cs:17-18 | the updated mean m' satisfies m'·(n+1) = m·n + x in every bin, truncated to the shorter spectrum |
| VowelLearning.Insert | AccentTutor/VowelLearner.cs:21-25 | a new vowel's entry is stored and every other vowel keeps its entry |
| VowelLearning.Replace | AccentTutor/VowelLearner.cs:25 | the vowel's entry is replaced and every other vowel keeps its entry |
| VowelLearning.Remove | AccentTutor/VowelLearner.cs:44 | the vowel loses its entry and every other vowel keeps its entry |
| VowelLearning.ClearVowel | AccentTutor/VowelLearner.cs:43-45 | removes the vowel and leaves the other vowels untouched |
| VowelLearning.ClearKeepsLearned | AccentTutor/VowelLearner.cs:43-45 | clearing keeps the learned invariant for the remaining history |
| VowelLearning.ClearedIsForgotten | AccentTutor/VowelLearner.cs:43-53 | after clearing, the vowel has no spectrum and count 0 |
| VowelLearning.GetAverageSpectrum | AccentTutor/VowelLearner.cs:56-59 | each bin is the column mean over vowels, truncated to the shortest spectrum; with no vowels, none |
| VowelLearning.GetVowelFeatureSpectrum | AccentTutor/VowelLearner.cs:62-64 | a missing vowel is an error; otherwise each bin is the vowel's spectrum minus the average |
| VowelLearning.FeaturesCancel | AccentTutor/VowelLearner.cs:56-64 | in every bin the feature spectra of all vowels sum to 0 |
| VowelLearning.OneVowelHasNoFeatures | AccentTutor/VowelLearner.cs:56-64 | with one vowel stored its average is its spectrum and its features are all 0 |
| LanguageComparison.Split | CompareLanguageRecordings/Program.cs:19 | string.Split(','): at least one part, none containing a comma |
| LanguageComparison.SplitCount | CompareLanguageRecordings/Program.cs:19-20 | there is one more part than commas |
| LanguageComparison.JoinSplit | CompareLanguageRecordings/Program.cs:19 | joining the parts with commas gives the line back |
| LanguageComparison.SplitJoin | CompareLanguageRecordings/Program.cs:19 | splitting comma-free parts joined by commas gives the parts back |
| LanguageComparison.Observation | CompareLanguageRecordings/Program.cs:18-26 | a line of other than six fields is an error; otherwise three formants, frequencies from fields 0–2 and values from fields 3–5 |
| LanguageComparison.CsvToObservations | CompareLanguageRecordings/Program.cs:14-30 | the header is skipped; the result exists exactly when every later line parses, with one observation per line in order |
| LanguageComparison.ObservationsFrom | CompareLanguageRecordings/Program.cs:17-29 | the lines from a start exist as observations exactly when every one parses, one observation per line in order |
| LanguageComparison.ReadsBackWritten | CompareLanguageRecordings/Program.cs:14-30 | a file written as header plus one six-field line per observation reads back as those observations |
| LanguageComparison.LineReadsBack | CompareLanguageRecordings/Program.cs:19-26 | a line written from three formants by a printer that parse inverts reads back as those formants |
| LanguageComparison.DistanceIsManhattan | CompareLanguageRecordings/Program.cs:36-44 | the distance to a vowel is |F1 − low1| + |F2 − low2| |
| LanguageComparison.Nearest | CompareLanguageRecordings/Program.cs:36-45 | the nearest distance is non-negative, at most every vowel's distance and equal to one of them |
| LanguageComparison.PercentInLanguage | CompareLanguageRecordings/Program.cs:32-56 | an empty language with observations is an error (Min() throws); otherwise the non-negative sum of nearest distances, 0 for no observations |
| LanguageComparison.Score | CompareLanguageRecordings/Program.cs:36-55 | the summed nearest distance is non-negative |
| LanguageComparison.ZeroScoreMeansOnVowels | CompareLanguageRecordings/Program.cs:32-56 | the result is Some(0) exactly when every observation sits on the low corner of some vowel of the language |
| LanguageComparison.ScoreZero | CompareLanguageRecordings/Program.cs:32-56 | the score is 0 exactly when every observation lies on the low corner of some vowel |
| LanguageComparison.NearestZero | CompareLanguageRecordings/Program.cs:36-45 | an observation's nearest distance is 0 exactly when it sits on a vowel's low corner |
| LanguageComparison.OnlyLowEdgesCount | CompareLanguageRecordings/Program.cs:36-45 | only the vowels' F1 and F2 lows matter: languages that agree on them score the same |
| LanguageComparison.SameScore | CompareLanguageRecordings/Program.cs:32-56 | two languages with the same distances to every observation give the same score |

## Left out

- Audio devices, threads and events are not modelled: WaveIn, the reset events, OnPaint and the Android views. An event with no listener is a boolean `attached`.
- FFTW (the transform itself) is a parameter `transform`. The native buffers and copies are not modelled.
- Floating-point rounding, NaN propagation and 32-bit integer overflow are not modelled. Values are exact reals and unbounded integers. Where a division by zero or an exception is reachable, the model returns `None`.
- Math.Log, Math.Log10, Math.Sqrt, Math.Pow and Math.Cos are uninterpreted parameters. Properties that need their values are stated given facts about them, for example positivity.
- IsSilence, IdentifyFundamental2 with ScoreOfPotentialFundamental, MakeSmoothedFundamental2 and MakeSmoothedFormants123_2 are not modelled. Of the displays in this model, only the SpectrumDisplay control uses them. Its calls at SpectrumDisplay/SpectrumDisplayCtrl.cs:243, 244 and 250 take the parameters of IdentifyFundamental2 (peaks and an out array), MakeSmoothedFundamental2 (three arguments) and MakeSmoothedFormants123_2 (three arguments). They are covered by SpectrumDisplay.PrepareVisualization's parameters, below.
- The older IdentifyFirstFormants and IdentifyVowel2 are not modelled beyond their interpolation constant, which is LegacyMatching.InterpolationConstant. IdentifyVowel2's remaining cost is the same shape as IdentifyVowel's.
- The older GetTopPeaks and EvaluateHarmonicSeries (AccentTutor/SpectrumAnalyzer.cs:52-105 and 160-180) differ from the current ones only in their bins-per-hertz constant. That constant comes from FftProcessor.SAMPLES_IN_FFT of the older project, which is not part of this model. They are covered by Peaks and Harmonics.
- TutorDisplay.HandleFftData: the model leaves out the prepareVisualization call that follows the history shift (AndroidAccentTutor/TutorDisplay.cs:173, defined at :101-111). That call runs PerformFormantAnalysis and shifts calculatePronunciationDot's result into lastDrawnPointsRoundness. PerformFormantAnalysis is defined in none of the program's files, so its effect cannot be modelled. Only the roundedness measure it feeds is modelled, as TutorDisplay.Roundedness.
- SpectrumDisplay.PrepareVisualization takes the fundamental detector, the smoother and the formant/vowel stages as parameters, because the desktop display calls IdentifyFundamental2, MakeSmoothedFundamental2 and MakeSmoothedFormants123_2 (SpectrumDisplay/SpectrumDisplayCtrl.cs:243, 244 and 250), which are not modelled. Its Clone() is implicit in value semantics.
- Matching.RunTrial, Matching.MatchVowel and LegacyMatching.LegacyMatchVowel do not model the float arithmetic of the conversion to the solver's integers. The cheapest assignment is stated on the integer costs Munkres.QuantizeMatrix gives, the costs scaled by 2^16 and truncated, not on the real costs. Two pairings whose real costs differ by less than the truncation can be ranked either way. Float overflow of a score sum is modelled by Matching.ToFloat.
- Munkres.QuantizeMatrix: the (int) cast is modelled as truncation on unbounded integers. Overflow of int for costs above 32767 (float.MaxValue entries in particular) is not modelled.
- Munkres.InitMunkres: pads with the corrected maximum Munkres.PadValue, not the program's scan Munkres.PadValueAsWritten (see Findings). Every complete assignment of the rows-by-cols costs pays the same padding, and Munkres.AssignmentOptimal holds for any padding value, so Munkres.MunkresAssignment's cheapest-assignment contract is the same for either pad. Among equally cheap assignments, the one the solver returns may differ with the pad.
- MunkresReduce.FindSmallest returns the true minimum over uncovered cells. The source seeds its scan with int.MaxValue, and the two agree because an uncovered cell always exists (MunkresReduce.UncoveredLinesExist).
- Formants.IdentifyApparentFormants requires a non-negative harmonic series. A negative one can make the weighted mean 0/0 (NaN), which the model does not represent. The SpectrumDisplay control floors its z-scores at zero before the harmonic series is taken (SpectrumDisplay/SpectrumDisplayCtrl.cs:238-240), so its series is non-negative. The older VowelDisplay does not (AccentTutor/VowelDisplay.cs:143-155) and passes its harmonic series to the same function (AccentTutor/VowelDisplay.cs:108-109). A negative series can therefore reach the program there, and that case is outside the model.
- Formants.PeakFormant states only strength. The frequency range is stated separately by Formants.FormantFreqWithinMerged.
- Harmonics.EvaluateHarmonicSeries requires nothing of log. A negative tolerance empties a range, which is the error path.
- LegacyMatching requires a positive bins-per-hertz constant (deltaFreq) and a non-negative series, for the same reason as above.
- Matching.FormantCost and LegacyMatching.LegacyFormantCost state bounds rather than the exact value of the float cost, because the cost involves pow10 and sqrt.
- Dictionary enumeration order in VowelLearner: the store is an association list. The average does not depend on the order, because reals commute.
- VowelLearning.GetAverageSpectrum with an empty store: the program zips Zeros() with nothing and then divides by 0 items. The lazy Zeros() sequence is infinite, so ToArray() never returns. The model reports this case as None.
- VowelLearning.AddVowelFft: the returned percentage change divides by the spectrum sum. A zero sum gives NaN or an infinity, which is modelled as None.
- AudioCapture.DataAvailable: the event hands out the shared data array, which the next batch overwrites. The model delivers a copy.
- LanguageComparison.PercentInLanguage does not return countInLanguage, because the program computes it and discards it. float.Parse is a parameter, and File.ReadAllLines is left out.
- VowelData descriptions and standard deviations are kept as data but are used only by LanguageComparison.

Three details of the code that the model keeps as written:

- The HPS starts from max(0.0001, s[i])·i (SpectrumAnalyzer/SpectrumAnalyzer.cs:171-215).
- The median takes element k/2 for an even count, and averages elements k/2 and k/2−1 for an odd count above 1 (SpectrumAnalyzer/SpectrumAnalyzer.cs:281-290 and 454-462).
- The F3 bonus (×4) is active (SpectrumAnalyzer/SpectrumAnalyzer.cs:423-426).

## Findings

| source | as written | input that shows it | evidently intended | confidence | as-written member | corrected member |
|---|---|---|---|---|---|---|
| AccentTutor/Munkres.cs:308-315 | `costMatrix[r, c] > maxValue` compares the raw float with the already scaled maximum, so once an entry has been scaled no later, larger entry wins | the 1-by-2 matrix [[1, 2]] pads with 65536 (scaled 1) instead of 131072 (scaled 2) | pad with the largest scaled entry | high (not executed) | Munkres.PadValueAsWrittenMissesMax | Munkres.PadValue |
| SpectrumAnalyzer/SpectrumAnalyzer.cs:432-442 | two exchanges (F3 with F2, then F2 with F1) sort only when F1 ≤ F3; with no F3 candidate F3 is the zero formant | apparent formants (1000 Hz, 2) and (600 Hz, 1): the picks are [1000, 600, 0] and the result is [0, 1000, 600] (should be [0, 600, 1000]) | F1 ≤ F2 ≤ F3 for every input | high (not executed) | Formants.AsWrittenUnordered | Formants.IdentifyFormants123Sorted |
