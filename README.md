# Snare rhythm transcription in Dafny

This project models the quantisation core of `snare_rythm_transcription`. That core turns the onset times of a snare drum into a list of notes and rests. It has four parts:

- **Metronome grid** (`create_metronome`). It checks that the reference note, the denominator of the time signature, is a power of two. It then builds the beat times `0, step, 2·step, …` below the duration, with `step = (60 / tempo) / (reference_note / 4)`. Modelled in `metronome.dfy`.
- **Measure segmentation** (`extract_measures`). It walks the grid `notes_per_measure` beats at a time and keeps the onsets that fall in each half-open window. It stops at the first window that starts after the last onset. Modelled in `measures.dfy`.
- **Time-figure matching** (`find_best_time_figure`). It picks, from a fixed ordered list of candidates, the one whose duration is closest to the gap between two onsets. The candidates are plain, triplet and dotted subdivisions of 4, 2, 1, ½ and ¼ reference notes. Ties go to the first candidate tried. Modelled in `time_figure.dfy`.
- **Transcription** (`transcribe`). It folds over the gaps between consecutive onsets and keeps a running count of the current measure. A figure that overflows the measure is split into a hit that fills the measure and a rest that carries over. The last onset gets a hit for what is left of the measure. Modelled in `transcriber.dfy`.

`numpy.dfy` states the NumPy routines the core uses, over exact reals:
- `np.round(·, 2)`, with ties going to the even neighbour;
- `np.isclose(·, rtol=1e-4)`;
- the `floor(log2 n) == ceil(log2 n)` test;
- `np.arange(0, stop, step)`;
- `np.diff`.

`common.dfy` holds the exceptions the code can raise, as an `Error` datatype inside a `Result`.

The three loops (`extract_measures`, `find_best_time_figure` and `transcribe`) are methods with loop invariants. Each is proved equal to a specification function, and the properties are lemmas about those functions. `create_metronome` has no loop and is a function.

Edge cases follow the code:
- A reference note of 0 passes the log2 test, because log2(0) is -inf and its floor and ceiling agree. It then fails with a division by zero.
- A negative reference note fails the test, because its log2 is NaN.
- A `notes_per_measure` of 0 makes `range` raise. A negative one gives no measures.
- With a positive `notes_per_measure` and a non-empty grid, `extract_measures` never finishes by running off the grid. It either stops at a late window or raises `IndexError` at line 84, or at line 87 when there are no onsets.
- `transcribe` raises `IndexError` when the metronome has fewer than two beats. It raises `ZeroDivisionError` when the reference note is 0.
- With fewer than two onsets, `transcribe` returns a single hit of one whole measure and raises no error. The model follows the code.
- Onsets out of order give a zero or negative gap. The code matches it like any other gap, and so does the model.
- A gap longer than the rest of the measure plus a whole measure leaves the running count above the measure, and a later hit then gets a negative figure (`OverlongGapGivesNegativeFill`). The model keeps this behaviour of the code.

## Model

| member | source | states |
|---|---|---|
| NumPy.Log2IsWholeIff | snare_rythm_transcription/transcription.py:57-60 | the log2 test passes exactly for 0 and the powers of two, and every power of two is positive |
| NumPy.Round2 | snare_rythm_transcription/transcription.py:167 | rounding to two decimals moves a value by at most 0.005 |
| NumPy.Round2IsHundredths | snare_rythm_transcription/transcription.py:167 | the rounded value is a whole number of hundredths |
| NumPy.Round2KeepsHundredths | snare_rythm_transcription/transcription.py:167 | a value that is already a whole number of hundredths is left unchanged |
| NumPy.Tolerance | snare_rythm_transcription/transcription.py:181 | the tolerance of `np.isclose(·, rtol=1e-4)` around the reference value b, 1e-8 + 1e-4·abs(b), is always positive |
| NumPy.IsClose | snare_rythm_transcription/transcription.py:181 | the test abs(a − b) ≤ 1e-8 + 1e-4·abs(b) holds for equal values, and a value passing it lies within the tolerance around b |
| NumPy.IsCloseIsOneSided | snare_rythm_transcription/transcription.py:181 | the test is not symmetric: b, the limit in the source, is the reference, and 1 is close to 1.00010002 while 1.00010002 is not close to 1 |
| NumPy.Arange | snare_rythm_transcription/transcription.py:65 | entry k is k·step; for a positive step every entry is below stop and one more step would reach stop (symmetrically for a negative step) |
| NumPy.Diff | snare_rythm_transcription/transcription.py:161 | one gap fewer than there are onsets (none for no onset), and each gap added to its onset gives the next onset |
| Metronome.CreateMetronome | snare_rythm_transcription/transcription.py:44-65 | refuses exactly the negative and the non-power-of-two positive reference notes; divides by zero exactly for reference note 0, or for a power-of-two reference note at tempo 0; otherwise beat k is k·step with step = (60/tempo)/(reference_note/4) |
| Metronome.BeatsFillAMinute | snare_rythm_transcription/transcription.py:64 | at a positive tempo the beat step is positive, and tempo·reference_note/4 beats of the reference note last exactly 60 seconds |
| Metronome.MetronomeCoversDuration | snare_rythm_transcription/transcription.py:62-65 | at a positive tempo the grid is strictly increasing, lies in [0, duration), holds every beat below the duration, and is non-empty exactly when the duration is positive |
| Metronome.QuarterNoteGridAtSixty | snare_rythm_transcription/transcription.py:64-65 | 60 BPM in quarter notes over 4 seconds gives the beats 0, 1, 2, 3 |
| Metronome.ThreeIsRefused | snare_rythm_transcription/transcription.py:57-60 | a reference note of 3 raises the power-of-two error |
| Measures.Window | snare_rythm_transcription/transcription.py:91-92 | the mask keeps each onset in [min_t, max_t) exactly as often as it occurs, and no other onset |
| Measures.WindowMembers | snare_rythm_transcription/transcription.py:91-92 | an onset is in the measure if and only if it is an onset and lies in [min_t, max_t) |
| Measures.WindowKeepsOrder | snare_rythm_transcription/transcription.py:91-92 | the measure keeps its onsets in their original order |
| Measures.WindowOfSortedIsSlice | snare_rythm_transcription/transcription.py:91-92 | for sorted onsets the measure is the contiguous run from the first onset at or after min_t to the first onset at or after max_t |
| Measures.ExtractMeasures | snare_rythm_transcription/transcription.py:67-94 | the loop returns or raises exactly what the specification function `Measures.Segments` (through `Measures.MeasuresFrom`) gives: a zero step raises, a negative step gives nothing, and an index past the grid or an empty onset list raises IndexError |
| Measures.MeasuresAreWindows | snare_rythm_transcription/transcription.py:82-92 | measure k holds the onsets of the window from grid entry k·n to k·n+n, both inside the grid, and that window starts no later than the last onset |
| Measures.MeasuresStopAtLateWindow | snare_rythm_transcription/transcription.py:83-88 | a successful walk over a non-empty grid ends at a window whose end index is inside the grid and whose start lies after the last onset |
| Measures.MeasuresFailIff | snare_rythm_transcription/transcription.py:82-88 | the function raises if and only if the grid is non-empty and there is no onset or every window that fits starts at or before the last onset |
| TimeFigure.FindBestTimeFigure | snare_rythm_transcription/transcription.py:96-136 | the loop fails exactly for reference note 0 and otherwise returns `TimeFigure.BestFigure`, the figure of the first closest candidate as the comparison fold `TimeFigure.Pick` chooses it |
| TimeFigure.Challenge | snare_rythm_transcription/transcription.py:117-119 | one comparison block: the candidate takes over if and only if no best exists yet or it is strictly closer |
| TimeFigure.MatchGroup | snare_rythm_transcription/transcription.py:114-134 | one turn of the subdivision loop: the plain, triplet and dotted blocks leave the best figure and distance exactly as considering that subdivision's group of candidates does |
| TimeFigure.FirstClosestGrows | snare_rythm_transcription/transcription.py:117-134 | adding one candidate keeps the first closest one unless the new candidate is strictly closer, and then the new one is the first closest |
| TimeFigure.ScanIsPick | snare_rythm_transcription/transcription.py:114-134 | trying plain, triplet (reference note 4 only) and dotted per subdivision is one comparison per candidate, in candidate order |
| TimeFigure.PickIsFirstClosest | snare_rythm_transcription/transcription.py:110-136 | strict comparisons starting from infinity choose a candidate that no candidate beats, and that is strictly closer than every earlier candidate |
| TimeFigure.BestFigureIsFirstClosest | snare_rythm_transcription/transcription.py:110-136 | the returned figure is the figure of a candidate, never the initial None, whose duration is as close to the gap as any candidate's, and ties go to the earlier candidate |
| TimeFigure.CandidatesInOrderForQuarter | snare_rythm_transcription/transcription.py:114-134 | against a quarter-note reference the fifteen candidates, in the order tried, are each subdivision plain, as a triplet (subdiv/3) and dotted (1.5·subdiv) |
| TimeFigure.CandidatesInOrder | snare_rythm_transcription/transcription.py:114-134 | against any other non-zero reference note q there are ten candidates: plain and dotted, with figures subdiv·4/q and 1.5·subdiv·4/q |
| TimeFigure.ScalesAreDistinct | snare_rythm_transcription/transcription.py:114-134 | no two candidates last equally long |
| TimeFigure.PickOfExactGap | snare_rythm_transcription/transcription.py:114-134 | among candidates of distinct durations, a gap equal to one candidate's duration picks that candidate, at distance zero |
| TimeFigure.BestFigureOfExactGap | snare_rythm_transcription/transcription.py:114-134 | a gap exactly equal to a candidate's duration, with a non-zero beat length, gets that candidate's figure |
| TimeFigure.MatcherOnCommonGaps | snare_rythm_transcription/transcription.py:96-136 | at one beat per second in quarter notes, gaps 1, 0.5 and 1.5 give figures 1, ½ and 1.5, and a gap of 0.333 gives the triplet figure ⅓ |
| Transcriber.MeasureLimitInQuarters | snare_rythm_transcription/transcription.py:158 | the measure limit is the measure's length in quarter notes: limit·reference_note = 4·notes_per_measure, and in quarter-note meters it is notes_per_measure |
| Transcriber.Transcription | snare_rythm_transcription/transcription.py:153-158 | raises IndexError exactly when the metronome has fewer than two beats and ZeroDivisionError exactly when it has at least two and the reference note is 0; a result is never empty and ends with a hit |
| Transcriber.Transcribe | snare_rythm_transcription/transcription.py:138-189 | the loop returns or raises exactly what the specification function `Transcriber.Transcription` gives |
| Transcriber.MatchedFigureAt | snare_rythm_transcription/transcription.py:161-162 | gap i of the onsets gets the figure that the matcher returns for that gap |
| Transcriber.Quantise | snare_rythm_transcription/transcription.py:157-182 | the loop leaves the count and the notes exactly as the specification fold `Transcriber.Run` over the matched figures does |
| Transcriber.Place | snare_rythm_transcription/transcription.py:167-182 | one loop body leaves the count and the notes exactly as one `Transcriber.Step` of the specification fold does |
| Transcriber.StepSplitsAtBarline | snare_rythm_transcription/transcription.py:167-182 | a step only appends, and what it appends lasts exactly the matched figure. On overflow it appends a hit that fills the measure exactly, then a rest that becomes the new count. Otherwise it appends one hit, the sum is at most 0.005 past the limit, and the count becomes the sum or 0 when it is close to the limit |
| Transcriber.StepKeepsTime | snare_rythm_transcription/transcription.py:167-182 | a step adds the figure to the length of the notes, adds one hit, and adds a rest exactly when the rounded sum passes the limit |
| Transcriber.StepCount | snare_rythm_transcription/transcription.py:167-182 | the count grows by the figure, less one measure when the step closes one, and a reset leaves it off the barline by at most the tolerance of the closeness test |
| Transcriber.RunKeepsTime | snare_rythm_transcription/transcription.py:161-182 | after the loop the notes last as long as all matched figures together, with exactly one hit per figure and one rest per split |
| Transcriber.RunBalance | snare_rythm_transcription/transcription.py:157-182 | the matched figures add up to the closed measures plus the reset drift plus the running count |
| Transcriber.DriftBounded | snare_rythm_transcription/transcription.py:169-182 | the reset drift is at most one tolerance of the closeness test per closed measure |
| Transcriber.TranscriptionShape | snare_rythm_transcription/transcription.py:153-189 | a successful result implies a metronome of at least two beats and a non-zero reference note, and is the loop's notes followed by one hit that brings the count up to the limit |
| Transcriber.TranscriptionCounts | snare_rythm_transcription/transcription.py:161-189 | a successful result has one hit per onset (one with no onsets), one rest per split figure, and no other event |
| Transcriber.TranscriptionFillsMeasures | snare_rythm_transcription/transcription.py:157-189 | a successful result lasts the closed measures plus one, up to the reset drift (bounded by DriftBounded) |
| Transcriber.ShortOnsetList | snare_rythm_transcription/transcription.py:184-189 | fewer than two onsets give a single hit of a whole measure |
| Transcriber.FourQuartersFillTheMeasure | snare_rythm_transcription/transcription.py:177-182 | four quarter notes in 4/4 count 1, 2, 3 and reset to 0 at the barline |
| Transcriber.QuarterNotesFillOneMeasure | snare_rythm_transcription/transcription.py:138-189 | five onsets a second apart on a 60 BPM grid in 4/4 give four quarter-note hits and a final whole-measure hit |
| Transcriber.OverlongGapGivesNegativeFill | snare_rythm_transcription/transcription.py:169-189 | in 2/4 a six-beat gap gives a hit of 2 and a rest of 4, and the last onset then gets a hit of −2 |

## Left out

- `estimate_tempo`, `estimate_snare_hit_times` and `transcription_pipeline`: audio loading, onset and tempo detection through librosa, and file I/O. These are foreign calls with no logic of their own to state.
- `stream.py`'s `snare_hit` and music21's own `Rest` (imported at line 3) become the `Hit` and `Rest` events. Any checking music21 does on a duration is not part of this model; `create_percussive_stream` in `stream.py` builds the score that `transcription_pipeline` fills (line 213), and is left out with that function.
- `display.py`, `exceptions.py` and `setup.py`: rendering, sound synthesis, display and packaging.
- Transcriber.Transcribe: takes the time signature already split into its numerator and denominator. The parsing of the `"N/M"` string at line 154 (`split` and `int`) and its failures are not modelled.
- Floating point: times, tempos and figures are exact reals. The float length of `np.arange`, float rounding in `np.round` and in the divisions, and NaN or infinite inputs are not modelled. `np.log2` is modelled only through its floor/ceiling test on integers.
- NumPy.Round2: rounds the exact real value half to even. NumPy instead rounds the float `x·100`, which can differ when that product is not exact.
- Default arguments (`tempo=60`, `duration=60`, `reference_note=4` at line 44 and `time_signature='4/4'` at line 138): every parameter is explicit in the model, so those defaults are not modelled.
- Duck typing: onset times and grids are sequences of reals, and the numerator and denominator are integers. Other Python types the code would accept are not modelled.
