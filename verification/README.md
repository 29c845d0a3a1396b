# Slow-wave detection and command evaluation: a Dafny model

This project models two parts of a sleep-EEG toolkit.

**The slow-oscillation engine** (`slow_waves_t`, dsp/slow-waves.cpp):

- The detector reads its settings from the command's parameters.
- It finds the zero crossings of the configured polarity in a band-passed trace.
- It pairs consecutive crossings and drops pairs that span a discontinuity or fail a whole-wave or negative-half-wave duration bound.
- It measures each surviving pair: first minimum, first maximum and the internal crossing of the opposite polarity.
- It derives a baseline (mean or median) from all candidates and thresholds every candidate against it and against the absolute bounds.
- It summarises the accepted waves.
- After detection, each sample is mapped to the wave that covers it (`phase_slow_waves`) and the nearest wave to a sample is found (`nearest`).
- A signal is averaged in phase bins (`getbin`, `phase_locked_averaging`) or in a time window around each wave (`time_locked_averaging`).

**Parameter and script handling** (eval.cpp):

- The option store `param_t`: add, add_hidden, size, parse, update, value, single_value, requires, dump and keys.
- The alias table filled by `cmd_t::signal_alias`.
- Two character loops of `cmd_t::read`: comment stripping and the `&` to newline rewrite.
- The output file name built by `proc_write`.

The band-pass filter, the Hilbert transform, `MiscMath::mean`/`median`, `timeline_t::discontinuity`, `interval_t::duration_sec` and the slope accessors of `slow_wave_t` are not part of this model. They enter as parameters: the filtered trace `f`, the phase trace, and the functions of `WaveTypes.Env`. Timepoints are `nat` ticks. Amplitudes and phases are `real`.

Modules, in program order:

| file | module | models |
|---|---|---|
| wrappers.dfy | Wrappers | `Option`, `Result` (a `Helper::halt` becomes a `Failure`) |
| wave_types.dfy | WaveTypes | `slow_wave_t`, detection settings, halts, collaborators |
| text.dfy | Text | string order of `std::map`, split/join, wildcard substitution |
| params.dfy | ParamStore | `param_t` |
| config.dfy | DetectorConfig | the parameter reads and checks of the `slow_waves_t` constructor |
| segment.dfy | Segmenter | crossings, pairing, rejection, peak and mid-crossing search |
| threshold.dfy | Thresholder | baseline and acceptance |
| summary.dfy | WaveSummary | accumulated statistics of the accepted waves |
| detect.dfy | Detector | the whole of `detect_slow_waves` |
| phase.dfy | PhaseMap | `phase_slow_waves` sample map, `nearest` |
| binning.dfy | PhaseBins | `getbin`, `phase_locked_averaging` |
| timelock.dfy | TimeLock | `time_locked_averaging` |
| aliases.dfy | SignalAliases | `cmd_t::signal_alias` |
| cmdline.dfy | CommandLine | comment stripping and `&` rewriting in `cmd_t::read` |
| outname.dfy | OutputName | the `proc_write` file name |

## Model

| member | source | states |
|---|---|---|
| DetectorConfig.RequiresReal | eval.cpp:185-192 | halts exactly when the key is absent or its value is not numeric; otherwise returns the parsed number |
| DetectorConfig.Setting | dsp/slow-waves.cpp:126-145 | an absent option takes its default; a present one must be numeric |
| DetectorConfig.ConfigFromParams | dsp/slow-waves.cpp:126-154 | the settings are produced exactly when every numeric option present parses, `uV-neg` is at most 0 and `uV-p2p` at least 0; each of the nine numeric settings is its option's value, or its default (0, 0.2, 4.5, 0, 10, 0, 0, 0, 10) when absent; `neg2pos` selects the polarity, `sw-mean` the mean, and the first wave-type flag present selects the kind |
| DetectorConfig.KindOf | dsp/slow-waves.cpp:150-154 | `half-wave` wins over `negative-half-wave`, which wins over `positive-half-wave`; full waves when none is given |
| DetectorConfig.Defaults | dsp/slow-waves.cpp:126-154 | with no options the thresholds are 0, the band 0.2-4.5 Hz, the duration bounds 0-10 s, the polarity positive-to-negative, and the waves full |
| DetectorConfig.PositiveNegBoundHalts | dsp/slow-waves.cpp:133-134 | a positive `uV-neg` halts whatever options follow it |
| Segmenter.ZeroCrossings | dsp/slow-waves.cpp:517-527 | the list holds exactly the samples where the trace crosses zero with the configured polarity, in increasing order |
| Segmenter.NeighboursConsecutive | dsp/slow-waves.cpp:542-547 | two neighbouring list entries are crossings with no crossing between them |
| Segmenter.ConsecutiveIsNeighbours | dsp/slow-waves.cpp:542-547 | conversely, every pair of consecutive crossings sits next to each other in the list, so the pair loop visits it |
| Segmenter.MidCrossingUnique | dsp/slow-waves.cpp:586-604 | inside a pair of consecutive crossings there is exactly one crossing of the opposite polarity: the first sample with the trailing sign |
| Segmenter.MinScan | dsp/slow-waves.cpp:563-570 | the minimum scan keeps the running minimum when no later sample is lower, and otherwise ends on the first sample of the lowest value |
| Segmenter.MaxScan | dsp/slow-waves.cpp:563-570 | the maximum scan keeps the running maximum when no later sample is higher, and otherwise ends on the first sample of the highest value |
| Segmenter.LastMidScan | dsp/slow-waves.cpp:589-604 | the crossing scan returns the last opposite-polarity crossing in its range, or the value it started with when there is none |
| Segmenter.Measure | dsp/slow-waves.cpp:563-611 | the measured wave is well formed: first minimum and first maximum of the pair, a negative down peak, and the internal crossing between the peaks; the "problem" halt never fires |
| Segmenter.WellFormedDetermined | dsp/slow-waves.cpp:563-611 | two well-formed waves with the same start sample are equal, so the measurement is determined by the pair |
| Segmenter.PairWave | dsp/slow-waves.cpp:547-641 | a pair yields a candidate exactly when it is kept: no discontinuity and neither duration bound violated |
| Segmenter.Candidates | dsp/slow-waves.cpp:542-643 | the candidates are well formed and follow each other in time; a pair of consecutive crossings starts a candidate exactly when it is kept |
| Thresholder.Select | dsp/slow-waves.cpp:672-712 | every accepted wave is a candidate passing all four checks, and every such candidate is accepted |
| Thresholder.SelectIsSubsequence | dsp/slow-waves.cpp:672-712 | the accepted waves keep candidate order |
| Thresholder.ThresholdMonotone | dsp/slow-waves.cpp:661-682 | with a baseline whose down amplitude is not positive and whose peak-to-peak is not negative (as for real candidates, see CandidateSigns), raising `mag` with the baseline fixed accepts a subset of the waves accepted before |
| Thresholder.CandidateSigns | dsp/slow-waves.cpp:636-637 | every candidate contributes a negative down amplitude and a positive peak-to-peak amplitude to the baseline |
| WaveSummary.NonZeroSlopes | dsp/slow-waves.cpp:700-710 | a slope enters its accumulator exactly when it is non-zero, and nothing else does |
| WaveSummary.NonZeroSlopesInOrder | dsp/slow-waves.cpp:700-710 | each non-zero slope enters its accumulator exactly once and in wave order: the accumulator embeds into the waves by strictly increasing indices covering every wave whose slope is non-zero |
| WaveSummary.SummarizeAsWritten | dsp/slow-waves.cpp:684-731 | the summary as the program computes it: all zero with no waves; otherwise the mean and median of the negative peaks, the peak-to-peak amplitudes, the whole durations, the non-zero slopes of each kind, and the two half durations, the negative one always measured from the start to the internal crossing and the positive one from there to the stop |
| WaveSummary.Summarize | dsp/slow-waves.cpp:684-731 | the corrected summary: the negative and positive durations are summarised over the half-waves of matching sign for the configured polarity; it agrees with the program under the default polarity, and with no waves every figure is zero |
| WaveSummary.HalvesSplitDuration | dsp/slow-waves.cpp:696-698 | the two half-wave durations are non-negative and add up to the whole-wave duration |
| WaveSummary.HalfSigns | dsp/slow-waves.cpp:616-633 | the leading sign holds before the internal crossing and the trailing sign from it to the stop |
| WaveSummary.NegativeHalfIsNegative | dsp/slow-waves.cpp:616-633 | the corrected negative duration is the length of the half-wave whose samples are all negative and which holds the down peak |
| WaveSummary.AsWrittenSwapsHalvesUnderNeg2Pos | dsp/slow-waves.cpp:696-698 | under `neg2pos` the program's negative and positive durations are swapped |
| Detector.SelectWellFormed | dsp/slow-waves.cpp:672-712 | thresholding keeps waves well formed |
| Detector.SelectOrdered | dsp/slow-waves.cpp:672-712 | thresholding keeps waves in time order |
| Detector.AcceptedStart | dsp/slow-waves.cpp:672-712 | a pair of consecutive crossings starts an accepted wave exactly when it starts a candidate whose measurement passes the checks |
| Detector.Detect | dsp/slow-waves.cpp:460-741 | the candidates are those of the segmentation and the baseline is taken from them; the accepted waves are well formed and in time order; a pair of consecutive crossings starts one exactly when it is kept and its measured wave passes thresholds taken from the baseline of all candidates; the reported summary is the program's, over the accepted waves, and the corrected summary beside it agrees with it under the default polarity |
| PhaseMap.Resized | dsp/slow-waves.cpp:768 | resizing keeps the existing entries and pads with -1 |
| PhaseMap.LastCovering | dsp/slow-waves.cpp:770-780 | the wave a sample ends up marked with is the last one whose closed interval covers it |
| PhaseMap.PhaseWaves | dsp/slow-waves.cpp:745-780 | each sample holds the last covering wave or its earlier entry; each wave's phase trace is the phase over its closed interval |
| PhaseMap.InSwMapIdempotent | dsp/slow-waves.cpp:745-780 | marking the same waves a second time over the map the first run left changes nothing |
| PhaseMap.FirstSampleUnmarked | dsp/slow-waves.cpp:68-93 | on a fresh map sample 0 is never marked, so skipping it as the earlier hit loses no wave |
| PhaseMap.Nearest | dsp/slow-waves.cpp:43-94 | a marked sample is its own hit; otherwise the hit is the first marked sample in its direction, no farther than any other marked sample after 0, ties going forward, and nothing is found only when no such sample exists |
| PhaseBins.ScanBins | dsp/slow-waves.cpp:791-803 | the scan returns a bin index below the bin count, and the value is below that bin's threshold unless it is the last bin |
| PhaseBins.GetBin | dsp/slow-waves.cpp:784-804 | the bin is below the bin count; the value is below its threshold unless it is the last bin; each of the two shortcuts returns its bin when its test holds |
| PhaseBins.ScanBinsIsBin | dsp/slow-waves.cpp:791-803 | started past thresholds the value is not below, the scan finds the value's bin |
| PhaseBins.IsBinUnique | dsp/slow-waves.cpp:784-804 | a value has one bin |
| PhaseBins.GetBinSeedFree | dsp/slow-waves.cpp:784-804 | with sorted thresholds the previous-bin shortcut never changes the result |
| PhaseBins.Thresholds | dsp/slow-waves.cpp:820-824 | there are `nbins` thresholds, threshold `i` being `(i + 1) * 360 / nbins` |
| PhaseBins.EdgeAt | dsp/slow-waves.cpp:820-824 | the threshold the loop builds at position `i` is `(i + 1) * 360 / nbins` |
| PhaseBins.ThresholdsSorted | dsp/slow-waves.cpp:820-824 | the bin thresholds increase |
| PhaseBins.BinRange | dsp/slow-waves.cpp:820-824 | a phase in [0, 360) lands in the bin whose range of `360/nbins` degrees contains it |
| PhaseBins.SegmentComplete | dsp/slow-waves.cpp:838-847 | every sample of a wave that passes the mask is visited |
| PhaseBins.TallyConserves | dsp/slow-waves.cpp:842-846 | the bin counts add up to the number of visited samples and the bin sums to their signal total |
| PhaseBins.TallyWave | dsp/slow-waves.cpp:833-847 | the inner loop adds exactly the masked samples of one wave, each to its phase bin |
| PhaseBins.PhaseLocked | dsp/slow-waves.cpp:806-856 | with no waves the result is empty; the mask must cover every wave, as the program reads it unchecked; otherwise each bin's sum and count are those of the masked samples of all waves whose phase falls in it, nothing lost or counted twice, and the result holds the bin means |
| TimeLock.Trunc | dsp/slow-waves.cpp:879-880 | converting a real to an int truncates toward zero |
| TimeLock.Anchors | dsp/slow-waves.cpp:895-899 | each wave's anchor is its down peak, onset or up peak as the position code says |
| TimeLock.SlotCounts | dsp/slow-waves.cpp:914-925 | a slot counts exactly the waves whose window sample at that slot lies inside the signal |
| TimeLock.AnchorSlotFull | dsp/slow-waves.cpp:914-925 | when every anchor lies in the signal, the anchor's own slot counts every wave |
| TimeLock.AddWindowLoop | dsp/slow-waves.cpp:910-925 | one wave's loop adds the signal to each slot whose sample lies in the signal and skips the others |
| TimeLock.TimeLocked | dsp/slow-waves.cpp:859-937 | with no waves the result is empty; a negative window length or an unknown position code halts; otherwise each slot's sum and count are over the waves' in-signal window samples, with the means |
| Text.LessTransitive | eval.cpp:40-47 | the key order of the option map is transitive |
| Text.LessTotal | eval.cpp:40-47 | the key order of the option map is total |
| Text.SplitJoin | eval.cpp:62-73 | splitting a join of `=`-free pieces at `=` gives the pieces back |
| Text.JoinSplit | eval.cpp:62-73 | joining the pieces of a split gives the string back |
| Text.SubstRemoves | eval.cpp:75-94 | when the identifier has no wildcard, no wildcard is left after substitution |
| Text.SubstIdempotent | eval.cpp:75-94 | substituting twice is substituting once |
| Text.ReplaceAll | eval.cpp:83-91 | the replacement loop replaces every wildcard by the identifier, and it reports a change exactly when the value held a wildcard |
| ParamStore.Find | eval.cpp:102-105 | a key is found exactly when the store holds it, with its value |
| ParamStore.Insert | eval.cpp:40-47 | inserting a new key keeps the store sorted and adds exactly that entry |
| ParamStore.Value | eval.cpp:143-149 | a present key yields its stored value, an absent one the empty string |
| ParamStore.Add | eval.cpp:40-47 | adding halts exactly when the key is already present; otherwise the key gets the value and every other key keeps its own |
| ParamStore.AddHidden | eval.cpp:50-54 | halts with the duplicate-key halt exactly when the key is present; otherwise the key gets the value, every other key keeps its own, the key is hidden, and the size is unchanged |
| ParamStore.SizeCountsVisible | eval.cpp:56-60 | the size is the number of keys that are not hidden, and never negative |
| ParamStore.ParseValue | eval.cpp:62-73 | a bare key gets `T`; otherwise the value is the pieces after the key joined with `=`: the one piece for `key=value`, and the first piece, `=`, and the rest rejoined for three or more |
| ParamStore.ParseValueSplits | eval.cpp:62-73 | splitting a parsed value at `=` gives back the value pieces |
| ParamStore.Parse | eval.cpp:62-73 | parsing halts with the duplicate-key halt exactly when the key is already present; otherwise it adds the key with its parsed value, every other key keeps its value, and the hidden keys are unchanged |
| ParamStore.Requires | eval.cpp:170-174 | halts exactly when the key is absent; otherwise returns its stored value |
| ParamStore.FirstVisible | eval.cpp:156-168 | when some key is not hidden, the result is the key of the first entry in key order that is not hidden, every earlier one being hidden; when all are hidden, the empty string |
| ParamStore.SingleValue | eval.cpp:151-168 | halts exactly when the size is not 1; otherwise returns the only visible key |
| ParamStore.Keys | eval.cpp:261-271 | the set holds exactly the keys present |
| ParamStore.Dump | eval.cpp:194-210 | the dump is the `indent key=value` entries, in key order, separated by the delimiter |
| ParamStore.DumpSplits | eval.cpp:194-210 | with a delimiter that occurs in no key, value or indent, splitting the dump gives back the entries |
| ParamStore.UpdateSettles | eval.cpp:75-94 | after an update no value holds the wildcard, and a second update changes nothing |
| ParamStore.Update | eval.cpp:75-94 | every value has each wildcard replaced by the identifier; keys and hidden keys are unchanged, and the store stays valid; it is defined whenever the loop ends: the identifier has no wildcard, or no value has one |
| SignalAliases.Bind | eval.cpp:430-432 | binding maps the label to the primary and appends it to the primary's list, touching nothing else |
| SignalAliases.BindConsistent | eval.cpp:430-432 | binding keeps the two tables inverse of each other |
| SignalAliases.MapAllAsWritten | eval.cpp:416-433 | the label loop as written succeeds exactly when no label is already a primary (the primary itself counting from the second label on) and no label is mapped to another primary; a halt names a label of the line; on success every label maps to the primary, the labels are appended in order to the primary's list, and every other mapping and list is unchanged |
| SignalAliases.SignalAliasAsWritten | eval.cpp:394-433 | halts with the format halt exactly on a line with fewer than two fields; otherwise accepts exactly when the label loop lets every label through, and a halt names a label of the line; on success every label maps to the first field, the labels are appended in order to its list, and every other mapping and list is unchanged |
| SignalAliases.SignalAliasAsWrittenConsistent | eval.cpp:394-433 | the program keeps the two tables inverse of each other |
| SignalAliases.AliasOfAliasAccepted | eval.cpp:398-409 | after the line mapping `A` to `X`, the line mapping `B` to `A` is accepted, and `A` becomes both a primary and a mapped label |
| SignalAliases.MapAll | eval.cpp:398-433 | the corrected label loop: it also refuses a label equal to the primary, and where it succeeds it agrees with the program |
| SignalAliases.SignalAlias | eval.cpp:394-433 | the corrected alias line: it also refuses a primary that is already mapped, and where it succeeds it agrees with the program |
| SignalAliases.SignalAliasDisjoint | eval.cpp:398-409 | the corrected rule keeps primaries and mapped labels apart |
| SignalAliases.SignalAliasRefusesOnlyViolations | eval.cpp:398-409 | the corrected rule refuses a line the program accepts only when accepting it would make an alias of an alias |
| CommandLine.StripComment | eval.cpp:553-566 | the line is cut at its first `%` outside quotes, and kept whole when there is none |
| CommandLine.RestoreNewlines | eval.cpp:601-610 | every `&` outside quotes becomes a newline and every other character is kept |
| CommandLine.RestoreSettles | eval.cpp:601-610 | the rewrite keeps every quote, and no `&` outside quotes is left |
| OutputName.Stem | eval.cpp:1198-1201 | a trailing `.edf` or `.EDF` is removed, and any other name is kept |
| OutputName.BaseStart | eval.cpp:1213-1219 | the backward scan stops one past the last delimiter, or at 0 when there is none |
| OutputName.WriteName | eval.cpp:1194-1219 | halts exactly when `edf-tag` is missing, or when `edf-dir` is given and does not end in the delimiter; otherwise the name is the tagged name, moved into `edf-dir` when given |
| OutputName.TaggedStem | eval.cpp:1198-1203 | the tagged name's stem is the input's stem followed by `-<tag>` |
| OutputName.MovedKeepsBaseName | eval.cpp:1206-1219 | a moved name starts with the folder and keeps the tagged file's last component |

## Left out

- The band-pass filter, the Hilbert transform and the radian-to-degree conversion. The filtered trace and the phase in degrees are inputs.
- The reading of the signal from the recording in the `slow_waves_t` constructor: the `sig` lookup, the single-signal check, the sampling rate and the slice.
- The output to the writer and the logger, the `display` members, and `time_locked_spectral_analysis`.
- `MiscMath::mean` and `median`, `timeline_t::discontinuity`, `interval_t::duration_sec` and the slope accessors are parameters. Their code is not part of this model.
- `Helper::quoted_parse` and `Helper::unquote` are not part of this model:
  - `Parse` and `SignalAlias` take the token list;
  - `Helper::str2dbl` is the parameter `toReal`.
- Floating point: amplitudes, phases and means are exact `real`. An empty bin or slot has no mean: `None` stands for the program's 0/0.
- WaveSummary.SummarizeAsWritten: durations are summarised in ticks, as in `WaveSummary.Summarize`.
- WaveSummary.Summarize: durations are summarised in ticks. The constant scaling by `globals::tp_duration` is left out.
- PhaseMap.Nearest: the offset is returned in ticks. The division by `globals::tp_1sec` is a positive scaling and does not change which hit is nearer. The method requires non-decreasing timepoints, which the timeline guarantees and the unsigned subtraction of the program relies on.
- PhaseBins.Thresholds: the bin edges are exact multiples of `360/nbins`. The program sums them by repeated floating-point addition.
- PhaseBins.PhaseLocked: requires at least one bin when there are waves, and waves inside the signal, the phase trace and the mask when one is given. The program indexes out of range otherwise.
- TimeLock.TimeLocked: a negative window length is modelled as a halt, standing for the allocation failure of the program. The unreachable "internal error" when a slot index passes the window is not modelled. The disabled shuffle branch (`if ( 0 )`) is left out.
- ParamStore.Update: the wildcard is one character, as the program's `substr(p+1)` assumes. When the identifier holds the wildcard and some value holds it too, the program's inner loop never ends, because each replacement brings the wildcard back; the method requires that this is not the case.
- ParamStore: `clear`, `single`, `requires_int`, `strset`, `strvector`, `dblvector` and `intvector` are not modelled.
- OutputName.WriteName: an empty `edf-dir` value is refused like a value that does not end in the delimiter, where the program reads before the string. `Helper::file_extension` is taken as a suffix test. The `mkdir` call and the writing of the file are left out.
- CommandLine: only the two character loops of `cmd_t::read` are modelled:
  - the reading of lines from the input stream;
  - continuation lines;
  - trimming;
  - command splitting.

  The rest of `cmd_t`, the command dispatch of `cmd_t::eval`, and the other `proc_*` functions are not modelled.
- The spectral and spindle sources (dsp/mtm, spindles) are not part of this model.

## Findings

| source | as written | input that shows it | evidently intended | confidence | as-written member | corrected member |
|---|---|---|---|---|---|---|
| dsp/slow-waves.cpp:696-698 | the negative duration is always `zero_crossing_tp - start` and the positive one `stop - zero_crossing_tp` | `neg2pos` with trace `-1, 1, 1, -1, -1, -1, 1`: the wave runs from sample 1 to 6, with its internal crossing at 3. The reported negative duration is 2 ticks, covering the samples `1, 1`; the positive one is 3 ticks, covering `-1, -1, -1` | under `neg2pos` the negative half-wave is from the internal crossing to the stop, as the duration filter at lines 616-622 already treats it | not executed | WaveSummary.AsWrittenSwapsHalvesUnderNeg2Pos | WaveSummary.NegativeHalfIsNegative |
| eval.cpp:398-433 | `signal_alias` checks that a mapped label is not a primary, but never that the primary is not a mapped label | the line mapping `A` to `X`, then the line mapping `B` to `A`: both are accepted, and `A` is then mapped to `X` and is also the primary of `B` | rule 2 of the comment: an alias cannot have an alias | not executed | SignalAliases.AliasOfAliasAccepted | SignalAliases.SignalAliasDisjoint |
