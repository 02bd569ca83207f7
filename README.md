# CosmoSDR acquisition and pulse alignment, modelled in Dafny

This project models two parts of CosmoSDR, a tool that records IQ samples from an
RTL-SDR radio and decodes aircraft pulses from them.

- **Signal acquisition** (`signal_acquisition.dfy`). It covers:
  - the `SignalStreamer`, which starts and stops a background acquisition loop and
    publishes the loop's batches in a shared buffer guarded by a `read_is_available` flag;
  - the process-wide `SDRStore` and `get_sdr`, which keep at most one device open;
  - `acquire_signal`, which fills an `n_reads x n_samples` array read by read;
  - `get_indices_of_highest_peaks`, which ranks reads by their tenth-strongest sample.
- **Pulse alignment** (`plane_sailing.dfy`). It covers:
  - trimming an envelope around its peak;
  - choosing the sample phase whose microsecond blocks differ most from block to block,
    with 1% hysteresis;
  - averaging the aligned envelope into half-microsecond buckets;
  - `preprocess_iq` as the composition of resampling and the envelope (both
    uninterpreted), the trim and the phase shift; it does not bucket.

Supporting modules:
- `wrappers.dfy`: `Option` and `Result`.
- `slicing.dfy`: Python's slice-bound rules, where negative bounds count from the end
  and bounds are clipped, plus sequence reversal.
- `sorting.dfy`: ascending sort and an index sort (argsort), each with proofs that the
  result is sorted and a permutation.

How the environment is modelled:
- The radio is a `Device` object. Its driver is a script of read outcomes: a delivered
  row of samples, or a failure.
- A background thread is an opaque handle.
- A concurrent `stop_stream` is modelled by the number of batches the loop publishes
  before it sees the request.
- Magnitudes are `real`. A NaN result becomes `None`.

Behaviours of the code the model reproduces:
- `trim_iq_around_peak` does not clamp a negative start to zero. Python reads a
  negative start from the end, so near the start of the envelope the trim is empty,
  and with fewer than `2n` samples it can leave out the peak itself
  (`TrimNearStartIsEmpty`, `TrimCanMissPeak`).
- `start_stream` on a streamer whose loop is running is not a no-op. It warns, then
  starts a second thread and replaces the handle.
- `stop_stream` leaves `read_is_available` as it was. A later loop preallocates a new
  zero buffer while the flag may still say that reading is allowed; the flag is only
  cleared when the first batch begins.

## Model

| member | source | states |
|---|---|---|
| PlaneSailing.ArgMax | cosmosdr/plane_sailing.py:36 | the index is in range, holds a maximum, and every earlier value is strictly smaller (the first maximum) |
| PlaneSailing.TrimIqAroundPeak | cosmosdr/plane_sailing.py:32-37 | fails exactly on an empty envelope; never longer than `2n`; when the peak is at least `n` from both ends, it is exactly the `2n` samples centred on the first peak |
| PlaneSailing.TrimNearStartIsEmpty | cosmosdr/plane_sailing.py:36-37 | a peak closer than `n` to the start, with at least `2n` samples, gives an empty trim, because the negative start wraps round |
| PlaneSailing.TrimCanMissPeak | cosmosdr/plane_sailing.py:36-37 | a concrete five-sample envelope whose trim with `n = 3` does not contain its peak |
| PlaneSailing.TrimNearEndIsClipped | cosmosdr/plane_sailing.py:36-37 | a peak closer than `n` to the end gives the rest of the envelope from `idx - n`, shorter than `2n` |
| PlaneSailing.BlockMeans | cosmosdr/plane_sailing.py:67-71 | no blocks exactly for empty data; a single block exactly when the data fits in one width |
| PlaneSailing.BlockCount | cosmosdr/plane_sailing.py:67-71 | the number of block means is `ceil(len / w)` |
| PlaneSailing.BlockKey | cosmosdr/plane_sailing.py:67 | sample `i` has group key `i // w == k` exactly when it lies in `[k*w, (k+1)*w)` |
| PlaneSailing.BlockMeansAt | cosmosdr/plane_sailing.py:67-71 | block mean `k` is the mean of `d[k*w .. min((k+1)*w, len)]` |
| PlaneSailing.BlockMeansWindows | cosmosdr/plane_sailing.py:67-71 | every block mean is the mean of its window, the last one possibly short |
| PlaneSailing.AbsDeltasAt | cosmosdr/plane_sailing.py:74 | delta `k` is `abs(b[k+1] - b[k])`; the undefined first delta is dropped |
| PlaneSailing.BlockScore | cosmosdr/plane_sailing.py:74-75 | the score is defined exactly when there are two or more block means, and is then non-negative |
| PlaneSailing.Score | cosmosdr/plane_sailing.py:64-75 | the score of a phase's samples is defined exactly when they span more than one block, and is then non-negative |
| PlaneSailing.PhaseScoreDefined | cosmosdr/plane_sailing.py:64-75 | the score of phase `p` is defined exactly when `p + samples_per_us < len` |
| PlaneSailing.PhaseScore | cosmosdr/plane_sailing.py:64-75 | the score of `iq_mag[p:]` with blocks of `samples_per_us`; never negative when defined |
| PlaneSailing.PhaseScoresUpToAt | cosmosdr/plane_sailing.py:63-76 | entry `p` of the loop's score table is the score of `iq_mag[p:]` |
| PlaneSailing.PhaseScoresUpToFacts | cosmosdr/plane_sailing.py:63-76 | each examined score is defined exactly when its suffix spans two blocks, and is then non-negative |
| PlaneSailing.SelectInvariant | cosmosdr/plane_sailing.py:55-56 | while nothing is selected the bound stays at -1 and no score so far was defined; once a phase is selected, it was examined and the bound is its score |
| PlaneSailing.ConsiderOnlyImproves | cosmosdr/plane_sailing.py:79-81 | one comparison never lowers a non-negative running best and never undoes a selection; a phase that takes over scores more than 1% above the best it replaces |
| PlaneSailing.Select | cosmosdr/plane_sailing.py:63-81 | the running best after the first `n` phases; a selected phase is one of them |
| PlaneSailing.OptimalPhase | cosmosdr/plane_sailing.py:55-81 | the phase the loop ends with; when there is one it is among the examined phases `0 .. samples_per_us - 2` |
| PlaneSailing.FromPhase | cosmosdr/plane_sailing.py:88 | `iq_mag[max_score_phase:]`, where `None` keeps the whole input; never longer than the input (that the shifted envelope is a suffix is `ShiftedIsSuffix`) |
| PlaneSailing.WinnerWithinOnePercent | cosmosdr/plane_sailing.py:79-81 | once any score is defined a phase is selected, and no defined score exceeds the selected one by more than 1% |
| PlaneSailing.PhaseZeroTaken | cosmosdr/plane_sailing.py:55-81 | a defined score for phase 0 is always taken, because the bound starts at -1 |
| PlaneSailing.SelectionPersists | cosmosdr/plane_sailing.py:79-81 | once a phase is selected, the selection never goes back to none |
| PlaneSailing.PhaseScoresNonNegative | cosmosdr/plane_sailing.py:63-76 | every examined score is undefined or non-negative, and is defined exactly when `p + samples_per_us < len` |
| PlaneSailing.OptimalPhaseRange | cosmosdr/plane_sailing.py:59-63 | the chosen phase is at most `samples_per_us - 2` and leaves at least two blocks |
| PlaneSailing.NothingSelectedIffShort | cosmosdr/plane_sailing.py:55-81 | no phase is chosen exactly when `samples_per_us < 2` or the input is no longer than one block |
| PlaneSailing.OptimalPhaseScaleInvariant | cosmosdr/plane_sailing.py:53-88 | multiplying every magnitude by a positive factor does not change the chosen phase |
| PlaneSailing.SelectScale | cosmosdr/plane_sailing.py:79-81 | scores scaled by `c > 0` select the same phase at every step, with the bound scaled too |
| PlaneSailing.BlockMeansScale | cosmosdr/plane_sailing.py:67-71 | the block means of scaled data are the scaled block means |
| PlaneSailing.BlockScoreScale | cosmosdr/plane_sailing.py:74-75 | scaling the block means by `c > 0` scales the score by `c` and keeps it defined or undefined |
| PlaneSailing.ScoreScale | cosmosdr/plane_sailing.py:64-75 | scaling a phase's samples by `c > 0` scales its score by `c` |
| PlaneSailing.PhaseScoreScale | cosmosdr/plane_sailing.py:64-75 | scaling the input by `c > 0` scales the score of every phase by `c` |
| PlaneSailing.PhaseScoresUpToScale | cosmosdr/plane_sailing.py:63-76 | scaling the input by `c > 0` scales the whole score table |
| PlaneSailing.ScoreTableContents | cosmosdr/plane_sailing.py:60-76 | the `scores` dictionary holds exactly the examined phases, each with its score |
| PlaneSailing.ScorePhase | cosmosdr/plane_sailing.py:64-75 | the loop body computes the score of phase `p` from the table of all phase scores |
| PlaneSailing.ShiftToOptimalPhase | cosmosdr/plane_sailing.py:40-89 | the loop returns the input from the phase the hysteresis selection picks, or the whole input when none was picked |
| PlaneSailing.ShiftedIsSuffix | cosmosdr/plane_sailing.py:88 | the shifted envelope is a suffix of the input, starting at most `samples_per_us - 2` samples in |
| PlaneSailing.FloatKeyAgrees | cosmosdr/plane_sailing.py:98 | for even `samples_per_us`, the float key `floor(i / (samples_per_us / 2))` equals integer division by `samples_per_us / 2` |
| PlaneSailing.DownsampleToBuckets | cosmosdr/plane_sailing.py:92-100 | `ceil(len / w)` buckets for `w = samples_per_us / 2`; bucket `k` is the mean of `iq_mag[k*w .. min((k+1)*w, len)]` |
| PlaneSailing.RoundHalfEven | cosmosdr/plane_sailing.py:116 | Python's `round`: within 0.5 of the input, and even on a tie |
| PlaneSailing.Preprocessed | cosmosdr/plane_sailing.py:114-118 | the trim followed by the shift; missing exactly when the envelope is empty |
| PlaneSailing.ShiftedWindow | cosmosdr/plane_sailing.py:88 | shifting a window of the envelope leaves a window of the envelope that ends at the same place |
| PlaneSailing.PreprocessedIsWindow | cosmosdr/plane_sailing.py:103-120 | the result is missing exactly for an empty envelope; otherwise it is one contiguous window of the envelope, at most 2000 samples long |
| PlaneSailing.PreprocessIq | cosmosdr/plane_sailing.py:103-120 | resample, take the envelope, trim, then shift with `round(target_sr / 1e6)` samples per microsecond |
| Sorting.SortAscending | cosmosdr/signal_acquisition.py:244 | `np.sort` of a row is ascending and a permutation of the row |
| Sorting.Sort | cosmosdr/signal_acquisition.py:244 | `np.sort` of a row, as an insertion sort; same length as the row |
| Sorting.CountSort | cosmosdr/signal_acquisition.py:244 | sorting keeps the number of values above, and at least, any threshold |
| Sorting.KthLargestRank | cosmosdr/signal_acquisition.py:244 | `sort(s)[-k]` is a value of `s`, fewer than `k` values exceed it, and at least `k` values reach it |
| Sorting.ArgSort | cosmosdr/signal_acquisition.py:246 | `np.argsort` of the keys: one index per key, each a valid index |
| Sorting.ArgSortIsSortingPermutation | cosmosdr/signal_acquisition.py:246 | `argsort` lists every index exactly once, in ascending order of key |
| SignalAcquisition.FitRow | cosmosdr/signal_acquisition.py:160-162 | a read fits a row exactly when it has the row's width or a single sample; the row is then the read itself, or its one sample repeated across the row |
| SignalAcquisition.BatchReads | cosmosdr/signal_acquisition.py:159-162 | `n` reads written row by row, stopping at the first that raises; `n` rows on success |
| SignalAcquisition.BatchReadsSpec | cosmosdr/signal_acquisition.py:159-162 | a batch succeeds exactly when each of its reads comes from an open device and fits a row; row `k` is then read `k` |
| SignalAcquisition.BatchReadsFirstError | cosmosdr/signal_acquisition.py:221-230 | a failed batch reports the error of its first failing read |
| SignalAcquisition.BatchReadsStop | cosmosdr/signal_acquisition.py:222-223 | once read `i` fails, every longer batch fails with that error |
| SignalAcquisition.Acquired | cosmosdr/signal_acquisition.py:221-223 | a negative shape raises, otherwise the batch of `n_reads` reads; `n_reads` rows on success |
| SignalAcquisition.BatchesPublished | cosmosdr/signal_acquisition.py:155 | a loop that starts disabled publishes nothing; an enabled one publishes at least one batch and at least as many as were requested before the stop |
| SignalAcquisition.LoopBatches | cosmosdr/signal_acquisition.py:155-165 | the first `k` batches of the loop: batch `i` reads on from read `i * n`, and the loop ends at the first batch that raises; on success the last batch has `n` rows |
| SignalAcquisition.FromRowAt | cosmosdr/signal_acquisition.py:160-162 | read `j` of what is left after `a` reads is read `a + j` of the whole script |
| SignalAcquisition.BatchAfter | cosmosdr/signal_acquisition.py:159-162 | the batch read after `a` reads succeeds exactly when reads `a .. a + n - 1` succeed, and row `j` is then read `a + j` |
| SignalAcquisition.LoopBatchesReads | cosmosdr/signal_acquisition.py:155-165 | `k` batches succeed exactly when each of the first `k * n` reads is delivered and fits a row; the last batch then holds reads `(k-1)*n .. k*n - 1` |
| SignalAcquisition.LoopBatchesNext | cosmosdr/signal_acquisition.py:155-165 | after `b` successful batches, the next batch reads on from read `b * n`, and afterwards the script left is the one after `(b + 1) * n` reads |
| SignalAcquisition.LoopBatchesStop | cosmosdr/signal_acquisition.py:155-170 | once a batch raises, running the loop for longer ends with the same error |
| SignalAcquisition.Device.constructor | cosmosdr/signal_acquisition.py:194 | a new device is open and will deliver its driver's reads |
| SignalAcquisition.Device.ReadSamples | cosmosdr/signal_acquisition.py:160-162 | one read consumes the next outcome of an open device; a closed or exhausted device raises |
| SignalAcquisition.Device.Close | cosmosdr/signal_acquisition.py:172 | the device is closed and its tuning is unchanged |
| SignalAcquisition.WriteRow | cosmosdr/signal_acquisition.py:160-162 | row `i` of the buffer becomes the given row and nothing else changes; a caller that passes its streamer as `publisher` may only write that streamer's buffer while its reading is disallowed |
| SignalAcquisition.FillRows | cosmosdr/signal_acquisition.py:159-162 | the buffer's rows become the batch read from the device, or the first error is reported; a caller that passes its streamer as `publisher` may only fill that streamer's buffer while its reading is disallowed |
| SignalAcquisition.AcquireSignal | cosmosdr/signal_acquisition.py:208-232 | an `n_reads x n_samples` array whose row `i` is read `i`; a negative shape or any failing read closes the device and passes the error on; the device's tuning is unchanged |
| SignalAcquisition.SdrStore.constructor | cosmosdr/signal_acquisition.py:17-18 | the store starts with no device |
| SignalAcquisition.SdrStore.AtMostOneOpen | cosmosdr/signal_acquisition.py:17-18 | every device the store has let go of is closed and the current one is not among them |
| SignalAcquisition.GetSdr | cosmosdr/signal_acquisition.py:180-205 | any stored device is closed, and a new open device tuned to the given frequency, rate and gain with a 60 PPM correction is stored and returned; at most one device stays open |
| SignalAcquisition.Thread.constructor | cosmosdr/signal_acquisition.py:67-78 | a new thread records its streamer and the loop's arguments and has not started |
| SignalAcquisition.Thread.Start | cosmosdr/signal_acquisition.py:79 | the thread is started |
| SignalAcquisition.SignalStreamer.CanStartAcquisition | cosmosdr/signal_acquisition.py:37-38 | an acquisition can start exactly when no thread is held |
| SignalAcquisition.SignalStreamer.PublishedIsLatest | cosmosdr/signal_acquisition.py:155-165 | whenever reading is allowed, the buffer holds the last published batch |
| SignalAcquisition.SignalStreamer.constructor | cosmosdr/signal_acquisition.py:40-45 | a new streamer is disabled, has no thread, holds an empty signal and does not allow reading |
| SignalAcquisition.SignalStreamer.StartStream | cosmosdr/signal_acquisition.py:47-89 | warns exactly when a loop is already running, enables the loop and stores a new started thread with the given parameters |
| SignalAcquisition.SignalStreamer.StopStream | cosmosdr/signal_acquisition.py:91-104 | with no thread it only warns; otherwise it disables the loop; afterwards no thread is held |
| SignalAcquisition.SignalStreamer.GetCurrentSignal | cosmosdr/signal_acquisition.py:106-119 | once reading is allowed, it returns the current buffer, which holds the last published batch whenever that batch is the buffer's content |
| SignalAcquisition.SignalStreamer.AcquireBatch | cosmosdr/signal_acquisition.py:155-165 | after `done` batches of the device's script, reading is disallowed before any row is written (the buffer writes require it); the pass succeeds exactly when `LoopBatches` for `done + 1` does, the buffer then holds that batch, reading is allowed and the device is left after its `(done + 1) * n` reads; a failing read leaves reading disallowed and passes the same error on; the device keeps its tuning |
| SignalAcquisition.SignalStreamer.PublishBatches | cosmosdr/signal_acquisition.py:155-166 | publishes exactly the batches `LoopBatches` describes on the device's script: the first error raised, with `enabled` left as it was, or the number of batches published with the last one in the buffer; nothing changes when the loop starts disabled; the device keeps its tuning |
| SignalAcquisition.SignalStreamer.PublishWhileEnabled | cosmosdr/signal_acquisition.py:155-166 | the loop entered with `enabled` set: it succeeds exactly when `LoopBatches` for `BatchesPublished(true, stopAfter)` does, with that count, `enabled` cleared, reading allowed and the last batch in the buffer; otherwise it fails with the same error, reading disallowed and `enabled` still set; the device keeps its tuning |
| SignalAcquisition.SignalStreamer.PublishStep | cosmosdr/signal_acquisition.py:155-165 | one pass of the loop: `AcquireBatch`'s outcome; on success `enabled` stays set exactly while fewer than `stopAfter` batches are out, and a raising pass leaves `enabled` as it was; the device keeps its tuning |
| SignalAcquisition.SignalStreamer.SignalAcquisitionLoop | cosmosdr/signal_acquisition.py:121-173 | opens a device on `hardware` through the store and closes it on every exit; a negative shape raises before the buffer, the flag or `enabled` change; every raise leaves `enabled` as it was, so the streamer still looks running; otherwise the outcome is `LoopBatches` on `hardware` (the first error, or the number of batches published, the last in the buffer); with none published the flag and the zeroed buffer are what a reader sees; the device it leaves in the store is tuned to the given frequency, rate and gain with the 60 PPM correction |
| SignalAcquisition.TenthHighestPulseRank | cosmosdr/signal_acquisition.py:244 | the key of a read is one of its samples' strengths, fewer than ten samples are stronger, and at least ten are as strong |
| SignalAcquisition.TenthHighestPulse | cosmosdr/signal_acquisition.py:244 | `np.sort(np.abs(row))[-10]`, with squared magnitudes; never negative |
| SignalAcquisition.PeakKeys | cosmosdr/signal_acquisition.py:244 | one key per read |
| SignalAcquisition.TopIndices | cosmosdr/signal_acquisition.py:246 | `argsort(keys)[-n:][::-1]`: at most one index per key, each a valid index |
| SignalAcquisition.IndicesOfHighestPeaks | cosmosdr/signal_acquisition.py:236-251 | a single index exactly when `n <= 1`, otherwise a list; every index returned names a read |
| SignalAcquisition.HighestPeaksErrors | cosmosdr/signal_acquisition.py:244-251 | the ranking fails exactly when reads are shorter than ten samples, or when `n <= 1` and `[-n:]` selects nothing |
| SignalAcquisition.HighestPeakIsMaximal | cosmosdr/signal_acquisition.py:246-251 | with `n <= 1`, the single index returned names a read whose key no other read exceeds |
| SignalAcquisition.HighestPeaksRanked | cosmosdr/signal_acquisition.py:246-251 | with `n > 1`, the result is `min(n, reads)` distinct reads, strongest first, and no read left out is stronger than any listed |

## Left out

- Threads, `join` and `sleep` are not modelled. The thread is a handle that records its
  arguments. A concurrent `stop_stream` is the `stopAfter` parameter of
  `SignalAcquisitionLoop`, `PublishBatches`, `PublishWhileEnabled` and `PublishStep`: the loop sees `enabled` cleared after publishing that many
  batches, and always after at least one.
- SignalAcquisition.SignalStreamer.GetCurrentSignal: the busy-wait until reading is
  allowed becomes a precondition. A call that would wait forever is not modelled.
- The 2048 padding samples read and discarded in the loop and in `get_sdr` are not
  modelled. The script holds only the reads that are kept.
- The RtlSdr driver is a script of read outcomes. `RtlSdr()` failing to open is not
  modelled.
- Logging, `verbose` and the timing `print` in `acquire_signal` are left out, because
  they have no effect on state.
- The resampler and the envelope (`signal_processing`) are not part of this model.
  `PreprocessIq` takes them as uninterpreted functions.
- The example dataset loader, the app, configuration, plotting and the command-line
  entry point are not part of this model.
- PlaneSailing.DownsampleToBuckets: it requires an even `samples_per_us`, so that the
  float key is an integer division; for odd values the float key is not modelled.
- Floating point is modelled as exact `real` arithmetic. NaN becomes `None`.
  `complex64` rounding is not modelled.
- Sorting.ArgSortIsSortingPermutation: `ArgSort` is an insertion argsort. numpy's
  default sort is not stable, so equal keys may come out in another order. The lemmas
  state only what holds for every sorting permutation.
- SignalAcquisition.SquaredMagnitude: the key is `re^2 + im^2`, not `np.abs`. Its
  square root orders and ties samples identically. Its contract states only that it
  is non-negative.
- SignalAcquisition.SignalStreamer.SignalAcquisitionLoop: the device is opened by
  `get_sdr` outside the `try`, so a padding read in `get_sdr` that raises leaves the new
  device open and unstored. Padding reads are not modelled, so this exit is not either.
