# tg_lab ion event counting, in Dafny

This project models the computational core of `tg_lab`, a laboratory toolkit
for ion imaging and time-of-flight (TOF) mass spectrometry, and proves
properties of that model.

- **Ion event counting** (`event_counting.dfy`, module `IonEventCounting`).
  The kernel scans the interior of an integer frame, leaving a border of
  `nxnarea // 2` unscanned. It subtracts the intensity offset and keeps each
  centre that reaches the threshold and has no strictly greater pixel in its
  `nxnarea × nxnarea` window. Each detection stamps its weight into a square
  footprint of a fresh map, and the detections are counted.
  - The method `EventCounting` works in place on an `array2<int>`, as the
    source does.
  - It is proved equal to a functional specification: `IsPeak` says which
    centres are detections, `Painted` replays the raster scan, and the
    result is `EventMap` and `|Peaks|`.
- **Batch accumulation** (`batch_processing.dfy`). The folder driver keeps
  the `.bmp` files, runs each decoded frame through the kernel with fixed
  parameters, and folds the results into an elementwise sum. Along the way it
  counts processed and skipped files. `subtract_arrays` is also here.
- **Streaming accumulation** (`image_acquisition.dfy`). The camera's
  queue-sink `Listener` is a class whose `FramesQueued` method adds each
  frame's event map into `sumArr` in place and counts the frame.
- **Ion-signal integration** (`ion_signals.dfy`). `integrate` is a
  breadth-first flood fill from a start pixel over 4-neighbours that lie
  within a Euclidean radius. It sums every cell it dequeues. A cell is marked
  seen only when dequeued, so one cell can be summed more than once, and the
  model keeps that behaviour.
- **TOF helpers**:
  - `tof_data_utils.dfy`: the open-interval m/z filter, the minimum-signal
    peak picker and the `integrate_peak` span walk.
  - `tof_file_utils.dfy`: the `{title}_{time}_{run}` file-stem parser and the
    stacked time/signal column split.
  - `tof_data.dfy`: run grouping by reaction time (`get_keys`), run
    exclusion, and the peak-range and detection-threshold parameters.

Shared pieces:
- `grids.dfy`: integer grids as `seq<seq<int>>`, their elementwise sum, the
  left fold `SumOf` over a list of maps, and the in-place array add.
- `wrappers.dfy`: `Option`/`Result`.

## Model

| member | source | states |
|---|---|---|
| `IonEventCounting.EventCounting` | src/tg_lab/ion_event_counting/fastvimprocess.py:13-48 | returns a fresh map of the frame's shape whose contents are exactly `EventMap` of the frame, and a count equal to the number of detections |
| `IonEventCounting.CheckPeak` | src/tg_lab/ion_event_counting/fastvimprocess.py:28-37 | the window scan with early breaks answers true iff no other window cell has a strictly greater offset-corrected value |
| `IonEventCounting.Stamp` | src/tg_lab/ion_event_counting/fastvimprocess.py:43-45 | every cell of the square footprint now holds the weight, and every other cell is unchanged |
| `IonEventCounting.ScanRow` | src/tg_lab/ion_event_counting/fastvimprocess.py:25-46 | one row of the scan takes the map from the raster replay at the row's start to the replay at the next row, and the count from the peaks passed before to the peaks passed after |
| `IonEventCounting.ScanCentre` | src/tg_lab/ion_event_counting/fastvimprocess.py:26-46 | testing one centre, and stamping and counting it when it is a detection, advances the map and the count from the raster replay before that centre to the replay after it |
| `IonEventCounting.EventMap` | src/tg_lab/ion_event_counting/fastvimprocess.py:17-18 | the output map has the input frame's shape |
| `IonEventCounting.PeaksBeforeStep` | src/tg_lab/ion_event_counting/fastvimprocess.py:39-46 | scanning a centre adds it to the counted detections exactly when it is a peak, and it was not counted before |
| `IonEventCounting.PaintedZero` | src/tg_lab/ion_event_counting/fastvimprocess.py:18 | at any point of the scan, a cell that no passed detection's footprint covers still holds the initial 0 |
| `IonEventCounting.PaintedLast` | src/tg_lab/ion_event_counting/fastvimprocess.py:43-45 | at any point of the scan, a cell covered by passed detections holds the weight of the raster-last of them |
| `IonEventCounting.ZeroOutsideFootprints` | src/tg_lab/ion_event_counting/fastvimprocess.py:17-18 | every map cell outside all detected footprints is 0 |
| `IonEventCounting.LastWriteWins` | src/tg_lab/ion_event_counting/fastvimprocess.py:43-45 | where footprints overlap, the cell holds the weight of the detection that comes last in raster order |
| `IonEventCounting.SmallFrameIsBlank` | src/tg_lab/ion_event_counting/fastvimprocess.py:21-25 | a frame with at most `2*(nxnarea//2)` rows or columns has no detection and an all-zero map |
| `IonEventCounting.SinglePixelFixedWeight` | src/tg_lab/ion_event_counting/fastvimprocess.py:40-45 | with `mode < 10` and `event_size // 2 == 0`, the map holds `multiply_factor` exactly at the detections and 0 elsewhere |
| `IonEventCounting.TiesDoNotSuppress` | src/tg_lab/ion_event_counting/fastvimprocess.py:31-33 | an interior centre at or above the threshold with no strictly greater window cell is a detection, even if neighbours equal it |
| `Grids.Add` | src/tg_lab/ion_event_counting/fastvimprocess.py:102 | the sum of two maps of one shape has that shape and is elementwise `a + b` |
| `Grids.AddCommutes` | src/tg_lab/ion_event_counting/fastvimprocess.py:102 | adding maps is commutative |
| `Grids.AddAssociates` | src/tg_lab/ion_event_counting/fastvimprocess.py:102 | adding maps is associative |
| `Grids.SumOf` | src/tg_lab/ion_event_counting/fastvimprocess.py:99-102 | the running sum of a non-empty list of same-shape maps has their shape |
| `Grids.SumOfCells` | src/tg_lab/ion_event_counting/fastvimprocess.py:99-102 | each cell of the running sum is the total of that cell over all the maps |
| `Grids.SumOfSnoc` | src/tg_lab/ion_event_counting/fastvimprocess.py:99-102 | adding one more map to the running sum gives the sum of the extended list |
| `Grids.CellTotalAppend` | src/tg_lab/ion_event_counting/fastvimprocess.py:99-102 | a cell's total over a concatenation of map lists is the sum of its totals over the parts |
| `Grids.CellTotalRemove` | src/tg_lab/ion_event_counting/fastvimprocess.py:99-102 | removing one map from the list takes exactly its cell value out of the cell's total |
| `Grids.MultisetRemove` | src/tg_lab/ion_event_counting/fastvimprocess.py:93-102 | removing the map at one index removes exactly one copy of it from the list's multiset |
| `Grids.CellTotalPermutation` | src/tg_lab/ion_event_counting/fastvimprocess.py:93-102 | any rearrangement of the maps (same multiset) gives every cell the same total |
| `Grids.SumOfPermutation` | src/tg_lab/ion_event_counting/fastvimprocess.py:93-102 | any rearrangement of a uniform list of maps is uniform and has the same running sum, so the order in which the worker results arrive does not matter |
| `Grids.SumOfSwapLast` | src/tg_lab/ion_event_counting/fastvimprocess.py:93-102 | swapping the last two maps does not change the sum (two results arriving in either order) |
| `Grids.AddInto` | src/tg_lab/tis_camera/image_acquisition.py:70 | the in-place `+=` adds the source to every cell of the destination and changes nothing else |
| `BatchProcessing.BmpFiles` | src/tg_lab/ion_event_counting/fastvimprocess.py:82-87 | a file is processed iff its name ends in `.bmp`, and no more files are kept than were found |
| `BatchProcessing.BmpFilesAppend` | src/tg_lab/ion_event_counting/fastvimprocess.py:82-87 | selecting the `.bmp` files distributes over concatenation, so they keep walk order and repeats |
| `BatchProcessing.ResultOf` | src/tg_lab/ion_event_counting/fastvimprocess.py:70-78 | a result is skipped iff decoding failed; a processed map has the frame's shape |
| `BatchProcessing.FixedParamsOk` | src/tg_lab/ion_event_counting/fastvimprocess.py:65-69 | the fixed arguments (threshold 70, mode 5, nxnarea 5, multiply_factor 5, int_offset 10, default event_size 1) give a border of 2 and a one-pixel footprint |
| `BatchProcessing.FixedParamsMap` | src/tg_lab/ion_event_counting/fastvimprocess.py:64-75 | a processed map holds 5 exactly at the detections and 0 elsewhere |
| `BatchProcessing.ProcessSingleImage` | src/tg_lab/ion_event_counting/fastvimprocess.py:64-78 | a decode error is passed on unchanged; otherwise the result is the kernel's map for the fixed arguments |
| `BatchProcessing.SuccessesMembers` | src/tg_lab/ion_event_counting/fastvimprocess.py:95-103 | the maps that are summed are exactly those of the processed results |
| `BatchProcessing.SuccessesAndSkippedCoverAll` | src/tg_lab/ion_event_counting/fastvimprocess.py:95-103 | the processed and the skipped results together account for every result |
| `BatchProcessing.FoldResults` | src/tg_lab/ion_event_counting/fastvimprocess.py:89-103 | skipped files count the errors, num_images counts the maps, and together they count every result; the sum is None iff nothing was processed, and otherwise is the elementwise sum of the processed maps |
| `BatchProcessing.ResultsUniform` | src/tg_lab/ion_event_counting/fastvimprocess.py:99-102 | when the decodable frames share one shape, so do all the maps that get summed |
| `BatchProcessing.ProcessImagesInFolder` | src/tg_lab/ion_event_counting/fastvimprocess.py:81-107 | over the `.bmp` files, returns the elementwise sum of the processed maps (None when there are none), their number, and the number of skipped files (which the source prints rather than returns), which together equal the number of `.bmp` files |
| `BatchProcessing.SubtractArrays` | src/tg_lab/ion_event_counting/fastvimprocess.py:123-124 | the difference has the operands' shape, and adding `b` back gives `a` |
| `ImageAcquisition.Listener.constructor` | src/tg_lab/tis_camera/image_acquisition.py:42-45 | a new listener has counter 0 and no sum array |
| `ImageAcquisition.Listener.SinkConnected` | src/tg_lab/tis_camera/image_acquisition.py:47-54 | always accepts the connection |
| `ImageAcquisition.Listener.FramesQueued` | src/tg_lab/tis_camera/image_acquisition.py:56-72 | counter increases by exactly 1; on the first frame a sum array of the event map's shape is allocated; the sum array stays the elementwise sum of every event map delivered so far |
| `ImageAcquisition.Session` | src/tg_lab/tis_camera/image_acquisition.py:64-72 | after k frames the counter is k, and the sum array is the elementwise sum of the k event maps, each computed with the session's fixed arguments |
| `IonSignals.CandidatesSound` | src/tg_lab/ion_signals/compute.py:42-53 | the neighbours the loop appends are unseen, in bounds, in radius and adjacent, at most one per move, and every admissible neighbour is seen or appended |
| `IonSignals.EnqueueNeighbours` | src/tg_lab/ion_signals/compute.py:42-53 | the new queue is the old queue followed by exactly the unseen, in-bounds, in-radius neighbours in move order (down, right, up, left), even those already queued; hence only such cells are added, at most four, and every admissible neighbour ends up seen or queued |
| `IonSignals.OnlyStartWithinSubUnitRadius` | src/tg_lab/ion_signals/compute.py:50-51 | with a radius below 1 no cell other than the start passes the distance test |
| `IonSignals.ExploredStep` | src/tg_lab/ion_signals/compute.py:38-40 | dequeuing the queue head keeps every visit in bounds, in radius and next to an earlier visit |
| `IonSignals.PendingStep` | src/tg_lab/ion_signals/compute.py:42-53 | after one pass, every queued cell is in bounds, in radius, not the start, and next to a visited cell |
| `IonSignals.ClosedStep` | src/tg_lab/ion_signals/compute.py:38-53 | after one pass, every admissible neighbour of a visited cell is seen or still queued |
| `IonSignals.MeasureDrops` | src/tg_lab/ion_signals/compute.py:37-53 | each pass either marks a new cell seen or removes a queue entry that was already seen, so the loop ends |
| `IonSignals.LoopInvInit` | src/tg_lab/ion_signals/compute.py:34-36 | before the loop (start queued, nothing seen, result 0) the loop invariant holds |
| `IonSignals.LoopInvStep` | src/tg_lab/ion_signals/compute.py:37-53 | one pass keeps the loop invariant (connected, in-region visits; queued cells admissible; closure up to the queue; result equals the sum over the visits) and lowers the termination measure |
| `IonSignals.VisitFront` | src/tg_lab/ion_signals/compute.py:38-53 | dequeuing the head marks it seen, appends it to the visits, leaves as the queue the rest of the old queue followed by exactly the head's unseen admissible neighbours in move order (so a cell queued twice is dequeued twice), keeps the loop invariant and lowers the termination measure |
| `IonSignals.LoopInvExit` | src/tg_lab/ion_signals/compute.py:37-55 | once the queue is empty the invariant yields every promise of `integrate`'s result |
| `IonSignals.Integrate` | src/tg_lab/ion_signals/compute.py:29-55 | the result is the sum over the dequeued cells, repeats included; the start is dequeued first; every later cell is in bounds, within radius r, not the start, and next to an earlier one; every in-region neighbour of a dequeued cell is dequeued; if r < 1 the result is exactly `data[row][col]` |
| `TofDataUtils.FilterByMzRange` | src/tg_lab/tof/data_utils.py:26-29 | keeps exactly the rows with `x_min < mz < x_max` |
| `TofDataUtils.FilterByMzRangeAppend` | src/tg_lab/tof/data_utils.py:26-29 | filtering distributes over concatenation, so the kept rows keep their original order |
| `TofDataUtils.FilterByMzRangeIdempotent` | src/tg_lab/tof/data_utils.py:26-29 | filtering an already filtered frame changes nothing |
| `TofDataUtils.MinSignal` | src/tg_lab/tof/data_utils.py:8 | the minimum is attained by some row and bounds every row from below |
| `TofDataUtils.WithSignal` | src/tg_lab/tof/data_utils.py:8 | keeps exactly the rows whose signal equals the given value, and never more rows than the frame has |
| `TofDataUtils.WithSignalAppend` | src/tg_lab/tof/data_utils.py:8 | selecting the tied rows distributes over concatenation, so they keep frame order and multiplicity |
| `TofDataUtils.TieIndex` | src/tg_lab/tof/data_utils.py:8-10 | the tie at position h is the frame row at some index k with exactly h ties before k |
| `TofDataUtils.FindPeak` | src/tg_lab/tof/data_utils.py:5-10 | a row is found iff some in-range row has signal below the threshold; the row found is in range, below the threshold and has the in-range minimum signal |
| `TofDataUtils.FindPeakPicksMiddleTie` | src/tg_lab/tof/data_utils.py:5-10 | the row returned is an in-range row at the range's minimum signal, and exactly `count // 2` of the rows tied at that minimum precede it in frame order |
| `TofDataUtils.SumAppend` | src/tg_lab/tof/data_utils.py:23 | the sum of a concatenation is the sum of the sums |
| `TofDataUtils.SumOfNegatives` | src/tg_lab/tof/data_utils.py:17-23 | a run of negative samples sums to at most 0, and below 0 when non-empty |
| `TofDataUtils.IntegratePeak` | src/tg_lab/tof/data_utils.py:13-23 | `i` is the first index at or after the peak with a non-negative sample and `j` the last such index at or before it; every sample strictly between them is negative; the total is the sum of `signal[j..i]` inclusive; a non-negative peak sample gives `(signal[peak], (peak, peak))` |
| `TofDataUtils.SpanSumBelowEnds` | src/tg_lab/tof/data_utils.py:23 | a span of two or more samples sums to its two ends plus a negative interior, so never more than the ends' sum |
| `TofFileUtils.Split` | src/tg_lab/tof/file_utils.py:31 | split always yields at least one piece |
| `TofFileUtils.SplitPieces` | src/tg_lab/tof/file_utils.py:31 | no piece holds the delimiter, and there is exactly one piece iff the delimiter does not occur |
| `TofFileUtils.JoinSplit` | src/tg_lab/tof/file_utils.py:31-33 | rejoining the split pieces with the delimiter gives back the stem |
| `TofFileUtils.SplitJoin` | src/tg_lab/tof/file_utils.py:31-33 | splitting the join of delimiter-free pieces gives back the pieces |
| `TofFileUtils.SplitFree` | src/tg_lab/tof/file_utils.py:31 | a stem without the delimiter splits into itself alone |
| `TofFileUtils.SplitAfterFree` | src/tg_lab/tof/file_utils.py:31 | a delimiter-free prefix followed by the delimiter becomes the first piece |
| `TofFileUtils.SplitAppend` | src/tg_lab/tof/file_utils.py:31 | splitting at one delimiter occurrence splits each side separately |
| `TofFileUtils.JoinOfLastTwo` | src/tg_lab/tof/file_utils.py:33 | with three or more pieces, the whole join is the join of the leading pieces, then the last two |
| `TofFileUtils.ParseFilePath` | src/tg_lab/tof/file_utils.py:23-35 | parsing fails iff the stem has no delimiter (fewer than two pieces); time and run hold no delimiter; title, time and run rejoined give the stem (with the title empty when only two pieces exist) |
| `TofFileUtils.ParseFilePathRoundTrip` | src/tg_lab/tof/file_utils.py:31-35 | for delimiter-free time and run, parsing `title+d+time+d+run` gives back the three fields, even when the title holds the delimiter |
| `TofFileUtils.ParseFilePathNoTitle` | src/tg_lab/tof/file_utils.py:33 | a stem of exactly two pieces parses with an empty title |
| `TofFileUtils.SplitStacked` | src/tg_lab/tof/file_utils.py:47-50 | time followed by signal is the column; time holds the first `n // 2` samples, and signal is one longer when n is odd |
| `TofData.Insert` | src/tg_lab/tof/tof_data.py:178-179 | inserting into a sorted list keeps it sorted and adds exactly the one element |
| `TofData.Sort` | src/tg_lab/tof/tof_data.py:178-179 | the sorted list is ascending and a permutation of the input |
| `TofData.RunsAtNonEmpty` | src/tg_lab/tof/tof_data.py:174-176 | a time has runs iff it occurs in the data |
| `TofData.RunsAtMembers` | src/tg_lab/tof/tof_data.py:174-176 | a run is grouped under a time iff some entry has that time and that run |
| `TofData.GroupRuns` | src/tg_lab/tof/tof_data.py:173-176 | the keys are exactly the times in the data, and each key's list holds that time's runs in data order; the insertion order lists every key once |
| `TofData.SortGroups` | src/tg_lab/tof/tof_data.py:178-179 | visiting the keys in insertion order, every list is replaced by its sorted version and no key is added or lost |
| `TofData.GetKeys` | src/tg_lab/tof/tof_data.py:172-181 | the keys are exactly the times in the data; each list is ascending and, as a multiset with duplicates kept, equals the runs of that time |
| `TofData.KeptMembers` | src/tg_lab/tof/tof_data.py:184-191 | an entry is kept iff it is in the data and it is not the case that its time is listed and its run is among that time's excluded runs |
| `TofData.KeptAppend` | src/tg_lab/tof/tof_data.py:184-191 | the exclusion filter distributes over concatenation, so the kept entries keep their order |
| `TofData.KeptNothingExcluded` | src/tg_lab/tof/tof_data.py:186-191 | when no entry matches an exclusion, every entry is kept |
| `TofData.DefaultExclusionsKeepAll` | src/tg_lab/tof/tof_data.py:47 | the default exclusions `{0: []}` remove nothing |
| `TofData.FilterByExclusions` | src/tg_lab/tof/tof_data.py:183-192 | the copy keeps the path and configuration, and its data are the kept entries in order |
| `TofData.GetPeakDetectionThreshold` | src/tg_lab/tof/tof_data.py:37-38 | the threshold plus `sigma*std` is the mean, so it is at most the mean when sigma and std are non-negative |
| `TofData.ThresholdAntitoneInStd` | src/tg_lab/tof/tof_data.py:37-38 | with non-negative sigma, a larger spread never raises the threshold |
| `TofData.GetPeakRanges` | src/tg_lab/tof/tof_data.py:40-42 | same ions as the peaks; each window is `peak_width` wide and centred on the ion's m/z |
| `TofData.PeakInsideItsRange` | src/tg_lab/tof/tof_data.py:40-42 | with a non-negative width, each ion's m/z lies inside its window |
| `TofData.DefaultPeakRanges` | src/tg_lab/tof/tof_data.py:32-42 | the default parameters give the single window Be: (8.5, 9.5) |

## Left out

- Image decoding (`image_to_array`), `array_to_img`, CSV save and read, the `__main__` driver and plot.py are I/O and visualisation. Each file reaches the batch driver with its decode outcome already known.
- `os.walk` is not modelled: the folder's files are an input sequence in walk order, each with its name and decode outcome.
- The `ProcessPoolExecutor` is not modelled: the fold runs sequentially in input order, which is the order `executor.map` yields results. `Grids.SumOfPermutation` shows the sum does not depend on that order.
- The `print` calls of the kernel driver and the batch driver are not modelled.
- `BatchProcessing.ProcessSingleImage` and `BatchProcessing.FoldResults` skip a failure by its kind, while the source tests the message's truthiness (`if error:`). An exception with an empty message would make the source run the kernel on `None`; that path is not modelled.
- `BatchProcessing.ProcessImagesInFolder` requires every decodable `.bmp` frame to have one common shape. The source does not check shapes: the in-place `sum_array += current_array` raises on most mismatches but silently broadcasts a later map with one row, one column or a single cell into the sum. Neither behaviour is modelled.
- `BatchProcessing.ProcessImagesInFolder` returns a third result, the number of skipped files. The source returns only the sum and the image count, and prints the skipped count (fastvimprocess.py line 106); the third result stands for that printed value.
- `BatchProcessing.SubtractArrays` requires two rectangular grids of the same shape. numpy's broadcasting of `array_a - array_b` for other shapes, and the `None` operand that an empty folder produces in the driver, are not modelled.
- `BatchProcessing.FoldResults` works on values. The source keeps the first map itself as `sum_array` and adds into it in place, mutating that worker result; the aliasing is not modelled.
- `IonEventCounting.EventCounting` and everything built on it require `nxnarea >= 0` and `event_size // 2 <= nxnarea // 2`. This keeps every footprint write inside the frame. Numba's handling of negative or out-of-bounds indices is not modelled.
- Integers are unbounded. The int32 event map, the int64 frame and any overflow are not modelled.
- `ImageAcquisition.Listener.FramesQueued` takes the frame as an integer grid. The source's grayscale `mean(axis=2)` is floating point, and its `sum_arr` is a float64 array; both are modelled as integers.
- `ImageAcquisition.Listener.FramesQueued` requires each frame to match the shape of the first. The source does not check shapes: the in-place `self.sum_arr += event_count` raises numpy's broadcast error on most mismatches but silently broadcasts a map with one row, one column or a single cell into the sum. Neither behaviour is modelled.
- Camera handling is not modelled: device setup, the trigger loop, `stream_setup`/`stream_stop`, `write_out` and the listener's start timestamp. This is hardware, interactive I/O and a callback thread. The kernel arguments are fixed for the session, as the closure the source's listener reads.
- `get_ion_signals`, the project's own driver that takes each blob's radius from `skimage.feature.blob_doh` (a foreign library) and calls `integrate` on it, is not modelled. The radius is an input of `IonSignals.Integrate`.
- `IonSignals.Integrate` does not state the exact order in which cells are dequeued. It characterises the visited cells (connected, closed, in bounds and radius) and sums the value of each dequeue, repeats included. How many times a cell repeats is not pinned down.
- `IonSignals.Integrate` sums an integer grid. The image its caller loads with `np.loadtxt` is float64 and the source's sum is a float; floating-point samples and the rounding of their sum are not modelled.
- `IonSignals.Integrate` requires the start cell to be in bounds. The Euclidean norm is compared as the squared distance against `r*r` over reals, so rounding is not modelled.
- `TofDataUtils.IntegratePeak` requires a non-negative sample at or after the peak and one at or before it. Python's index error past the end and its negative-index wrap below 0 are not modelled.
- `TofDataUtils.FindPeak` returns `None` where the source indexes an empty frame and raises. Polars' null minimum of an empty range is not modelled separately.
- TOF samples, m/z values and statistics are reals. Floating-point rounding is not modelled.
- `TofFileUtils.ParseFilePath` takes the file stem and a one-character delimiter. `Path.stem` extraction and multi-character delimiters are not modelled, and neither is the later `float(time)` / `int(run)` conversion in `TofData.from_file`.
- `np.loadtxt`, `Path.glob`, `os.makedirs`, `get_event_id` and `write_json` are file I/O and are not modelled.
- The polars plumbing of `TofData` and `TofExperimentData` is not modelled:
  - `convert_to_mz`, `get_bkg_stats`, `normalize_background`;
  - the `find_peaks`/`integrate_peaks` glue and the group-by aggregations;
  - `save_data` and configuration (de)serialisation;
  - `TofPlotter`.
- `TofData.GetKeys` returns the mapping from times to runs. The order in which the Python dictionary yields its keys is modelled while sorting, but it is not part of the returned map.
- The CLI modules, setup.py and constants.py (string enums) are not part of this model.
