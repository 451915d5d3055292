# MovieTrailerAnalyzer core in Dafny

MovieTrailerAnalyzer downloads movie trailers, finds the most active stretch
of each one and splices those stretches together. Almost all of that is I/O.
This project models the three pieces of sequential logic inside it and proves
what they compute:

- **The most-active-window scan of `VideoProcessor`.** `video_processing.py`
  and `movie_trailer/video_processing.py` are identical, so one model serves
  both. The rows below cite the packaged copy.
  - `calculate_variation` is modelled in `frames.dfy`.
  - The `process_frame_range` deque / running-sum loop is `window_scan.dfy`.
  - The `np.linspace` partition boundaries and `np.argmax` are `partition.dfy`.
  - `detect_max_variation`, with slot-by-slot result writes in completion order, is `coordinator.dfy`.
- **`VideoDownloadProcessor.sanitize_filename` and the download target path.**
  - `sanitize.dfy` is parameterised by the list of replaced strings.
  - `utilities.dfy` fixes the two lists of the two copies and the download folder. The top level has the three-code-point misreading `"â€™"`. The package has U+2019 itself.
- **`TMDBAPI`** (`tmdb_api.dfy`): the empty-key check, the request parameters, the top-25 popular titles, and the trailer-selection rule of `get_trailer_link`.

`wrappers.dfy` holds `Option` and `Outcome`. `Outcome` is a returned value or
a raised Python exception (`ValueError`, `IndexError`).

What the code computes, in the cases that are easy to misread:

- **The running sum.** The deque of variations has `maxlen = W = fps * window_size`. A full deque has already dropped its oldest entry when line 66 subtracts the new head. So the running sum spans the last `W - 1` variations, and with `W = 1` it is always 0.
- **The reported index.** It is `frame_index - W + 1` and is clamped neither to the partition nor to 0: it can fall before the partition's start and below 0 (`ScanCanReportNegativeIndex`). A scan in which no running sum is positive reports `(0, start_frame)`.
- **Failures.** `W < 0` raises `ValueError` (`deque(maxlen<0)`). `W = 0` raises `IndexError` once two frames are read. A worker whose capture does not open returns `(0, 0)`, and that pair is aggregated like any other worker's result. `num_threads <= 0` raises `ValueError`.
- **Aggregation.** Each worker writes only its own slot. `DetectMaxVariation` loops over any completion order and is proved equal to one order-free function, `DetectResult`.
- **Literal replacement.** `str.replace` and `re.sub` on a literal pattern replace leftmost, non-overlapping occurrences in one pass (`ReplaceAll`). So removing `__downloads_` can create a new one (`MarkerRemovalIsSinglePass`).
- **`$` in `_+mp4$`** also matches before a final newline. So a name ending in `_mp4` and a newline becomes `.mp4` and the newline (`FixExtension`).
- **Key choice in `get_trailer_link`.** The first main trailer's key is used even when it is empty. The fallback `youtube_key := next(...)` must be truthy, so an empty first YouTube key gives no link.

## Model

| member | source | states |
|---|---|---|
| Frames.Variation | movie_trailer/video_processing.py:24-25 | the L1 distance of two frames of the same shape is never negative |
| Frames.VariationSymmetric | movie_trailer/video_processing.py:24-25 | the distance does not depend on the order of the two frames |
| Frames.VariationZeroIffEqual | movie_trailer/video_processing.py:24-25 | the distance is 0 exactly when the two frames are equal |
| Frames.Variations | movie_trailer/video_processing.py:61-63 | one variation per pair of consecutive frames read, in order, each the distance of that pair |
| Frames.VariationsOfSlice | movie_trailer/video_processing.py:55-63 | the variations of a run of frames are the matching run of the variations |
| Frames.VariationsNonNegative | movie_trailer/video_processing.py:24-25 | every variation appended to the deque is non-negative |
| Frames.StillFramesHaveZeroVariations | movie_trailer/video_processing.py:24-25 | a video whose frames are all equal has only zero variations |
| WindowScan.DequeAppend | movie_trailer/video_processing.py:51-63 | appending to a deque with `maxlen` keeps at most `maxlen` entries, the last ones of the old contents plus the new value |
| WindowScan.LastAppend | movie_trailer/video_processing.py:51-63 | appending to the bounded deque and then bounding it is the same as bounding all variations so far |
| WindowScan.Span | movie_trailer/video_processing.py:63-68 | the number of variations the running sum covers is at most `W - 1` and at most the number of variations so far, and equals one of the two |
| WindowScan.WindowSum | movie_trailer/video_processing.py:63-68 | while fewer than `W` variations exist the running sum is their total; with `W = 1` it is always 0 |
| WindowScan.WindowSumNonNegative | movie_trailer/video_processing.py:63-68 | with `W >= 1` and non-negative variations the running sum is never negative |
| WindowScan.WindowSumStep | movie_trailer/video_processing.py:63-68 | one update of `window_variation`: add the new variation and, once at least `W` variations exist, subtract the one `W - 1` places before it, which is the head of the full deque after the append |
| WindowScan.RunningSumsAt | movie_trailer/video_processing.py:63-72 | the running sum compared at step `j` is the sum after the first `j + 1` variations |
| WindowScan.RunningSumCoversWindow | movie_trailer/video_processing.py:61-68 | after the variation into local frame `j`, the running sum is the total variation across the `W` frames ending at frame `j`, or across every frame read while fewer have been read |
| WindowScan.BestIsFirstMaximum | movie_trailer/video_processing.py:45-46 | the best window's variation is non-negative and at least every running sum; 0 gives the start index; a positive value is reached first at the step whose index is reported (strict `>`) |
| WindowScan.NoPositiveSum | movie_trailer/video_processing.py:45-46 | if no running sum is positive the best window is `(0, start)` |
| WindowScan.FramesRead | movie_trailer/video_processing.py:55-59 | the loop reads at most `end - start` frames (none for an empty or reversed range), at most as many as the capture yields, and fewer than `end - start` only when the capture ran out |
| WindowScan.RangeScan | movie_trailer/video_processing.py:36-79 | an exception is raised exactly when the capture opened and either `W < 0` or `W = 0` with two frames read; a returned variation is never negative; a returned variation of 0 gives `start_frame`, or 0 when the capture failed |
| WindowScan.FramesCompleted | movie_trailer/video_processing.py:55-76 | the progress counter never exceeds the frames read; it equals them when an opened capture returns; it stays 0 when the capture fails or `W < 0`; it is at most 1 when the scan raises |
| WindowScan.ProcessFrameRange | movie_trailer/video_processing.py:27-79 | the deque loop returns exactly `RangeScan` (the value or the exception) and increments the progress counter by `FramesCompleted` |
| WindowScan.ScanStep | movie_trailer/video_processing.py:61-76 | one iteration keeps the loop invariant: deque = last `W` variations, running sum = `WindowSum`, best = `Best` of the running sums so far |
| WindowScan.ScanReportsFirstMaximum | movie_trailer/video_processing.py:45-46 | the reported variation is non-negative and at least every running sum; 0 gives `start`; otherwise the index is that of the first step reaching the maximum, minus `W - 1` |
| WindowScan.ScanIndexRange | movie_trailer/video_processing.py:55-72 | a positive result's index lies in `[start - W + 2, end - W]` |
| WindowScan.ScanCanReportNegativeIndex | movie_trailer/video_processing.py:72 | the reported index can be negative: three frames with one change and `W = 3` give `(5, -1)` |
| WindowScan.NoPositiveSumGivesStart | movie_trailer/video_processing.py:45-46 | without a positive running sum the scan returns `(0, start_frame)` |
| WindowScan.FewFramesGiveStart | movie_trailer/video_processing.py:55-61 | fewer than two frames read (a short range or an early failed read) give `(0, start_frame)`, also for `W = 0` |
| WindowScan.SingleFrameWindowGivesStart | movie_trailer/video_processing.py:63-72 | `W = 1` always gives `(0, start_frame)` |
| WindowScan.StillVideoGivesStart | movie_trailer/video_processing.py:61-72 | identical frames give `(0, start_frame)` |
| WindowScan.RaisedKindDependsOnlyOnWindow | movie_trailer/video_processing.py:49-51 | two scans with the same `W` that both raise raise the same exception: `ValueError` for `W < 0`, `IndexError` for `W = 0` |
| WindowScan.FailedOpenGivesOrigin | movie_trailer/video_processing.py:38-40 | a capture that does not open returns `(0, 0)` and reads nothing |
| Partition.TruncDiv | movie_trailer/video_processing.py:90 | `astype(int)` truncates toward zero: a non-negative quotient is rounded down and agrees with floor division, a negative one is rounded up |
| Partition.TruncDivRoundsTowardZero | movie_trailer/video_processing.py:90 | truncation differs from floor division on negative values: `-5 / 3` truncates to `-1` |
| Partition.Boundaries | movie_trailer/video_processing.py:90 | there are `num_threads + 1` boundaries |
| Partition.BoundariesEnds | movie_trailer/video_processing.py:90 | the first boundary is 0 and the last is `frame_count` |
| Partition.BoundariesMonotone | movie_trailer/video_processing.py:90 | for a non-negative frame count the boundaries never decrease and stay within `[0, frame_count]` |
| Partition.BoundariesNonDecreasing | movie_trailer/video_processing.py:90 | the boundary sequence is non-decreasing |
| Partition.InExactlyOneRange | movie_trailer/video_processing.py:106-107 | a frame between the first and last boundaries lies in exactly one range `[b[i], b[i+1])` |
| Partition.PartitionsCover | movie_trailer/video_processing.py:90-107 | the worker ranges cover `[0, frame_count)` without overlap |
| Partition.EmptyPartitionWhenFewFrames | movie_trailer/video_processing.py:90 | with fewer frames than workers some range is empty |
| Partition.FourWorkersExample | movie_trailer/video_processing.py:90 | 2400 frames over 4 workers split at 0, 600, 1200, 1800, 2400 |
| Partition.FirstArgMax | movie_trailer/video_processing.py:119 | `argmax` gives an index holding the largest value and strictly larger than every earlier one |
| Coordinator.Outcomes | movie_trailer/video_processing.py:101-112 | worker `i` scans `[b[i], b[i+1])` of its own capture |
| Coordinator.FirstRaised | movie_trailer/video_processing.py:114-116 | no exception exactly when every worker returned; a reported exception is raised by some worker |
| Coordinator.ReportedVariations | movie_trailer/video_processing.py:93-116 | slot `i` of `max_variations` holds worker `i`'s variation |
| Coordinator.Aggregate | movie_trailer/video_processing.py:114-119 | the aggregate raises exactly when some worker raised, and then one of their exceptions; otherwise it returns the probed frame count and the index of a worker whose variation is the largest and strictly above every earlier worker's |
| Coordinator.DetectResult | movie_trailer/video_processing.py:81-119 | a video that cannot be opened gives `(0, 0)`; `num_threads <= 0` raises `ValueError`; a returned result carries the probed frame count |
| Coordinator.DetectMaxVariation | movie_trailer/video_processing.py:81-119 | for every completion order the slot-by-slot loop returns or raises exactly `DetectResult` |
| Coordinator.AllSlotsWritten | movie_trailer/video_processing.py:93-116 | once every worker of the completion order has written, every slot holds its own worker's result |
| Coordinator.FirstRaisedIs | movie_trailer/video_processing.py:114-116 | when all raising workers raise the same exception, it is the first one re-raised |
| Coordinator.WorkersRaiseAlike | movie_trailer/video_processing.py:114-116 | every worker that raises raises the exception fixed by `W` |
| Coordinator.DetectRaisesWhenAWorkerRaises | movie_trailer/video_processing.py:114-116 | a raising worker makes the whole detection raise: `ValueError` for `W < 0`, `IndexError` otherwise |
| Coordinator.DetectPicksFirstLargest | movie_trailer/video_processing.py:119 | the result is the index of a partition whose variation is the largest and strictly above every earlier partition's, with the probed frame count |
| Coordinator.AggregateAllZero | movie_trailer/video_processing.py:119 | when every partition reports 0 the first partition's index is returned |
| Coordinator.DetectAllZeroGivesZero | movie_trailer/video_processing.py:90-119 | when every partition reports 0 the result is `(0, frame_count)` |
| Coordinator.DetectStillVideoGivesZero | movie_trailer/video_processing.py:81-119 | a still video with `W >= 1` gives `(0, frame_count)` |
| Sanitize.SanitizeFilename | utilities.py:20-35 | the step-by-step rewrite, with its replacement loop, computes `Sanitized` |
| Sanitize.TrimUnderscores | utilities.py:33 | the run of underscores that `_+` consumes is removed: the result is a prefix, does not end in `_`, and only `_` was dropped |
| Sanitize.ReplaceAll | utilities.py:23-27 | a replacement no longer than the pattern never lengthens the text, and one of the same length keeps the length |
| Sanitize.ReplaceEach | utilities.py:26-27 | the replacement loop never lengthens the name, and a list of single characters keeps its length |
| Sanitize.Collapse | utilities.py:30 | collapsing runs of `_` never lengthens the name |
| Sanitize.FixExtension | utilities.py:33 | a name ending in `_mp4` ends in `.mp4` with no `_` before the dot, a name ending in `_mp4` and a newline ends in `.mp4` and the newline likewise, any other name is unchanged, and the result is never longer |
| Sanitize.Sanitized | utilities.py:20-35 | the output is never longer than the input |
| Sanitize.AbsentReplaceAllIdentity | utilities.py:23-27 | replacing an absent pattern changes nothing |
| Sanitize.AbsentCharIff | utilities.py:26-27 | a one-character pattern is absent exactly when the character does not occur |
| Sanitize.NoDoubleMarkerAbsent | utilities.py:23-30 | text without `__` contains no `__downloads_` |
| Sanitize.ReplaceAllRemoves | utilities.py:26-27 | after replacing a pattern without `_` by `_`, the pattern no longer occurs |
| Sanitize.ReplaceEachRemoves | utilities.py:26-27 | after the loop no listed entry (none containing `_`) occurs |
| Sanitize.ReplaceEachIdentity | utilities.py:26-27 | the loop leaves a name without any listed entry unchanged |
| Sanitize.CollapseNoDouble | utilities.py:30 | collapsing leaves no two adjacent underscores |
| Sanitize.CollapseIdentity | utilities.py:30 | collapsing changes nothing in text without `__` |
| Sanitize.SanitizedNoDoubleUnderscore | utilities.py:30-33 | the output never contains `__` |
| Sanitize.SanitizedRemovesEntries | utilities.py:26-33 | no listed entry other than `.` occurs in the output; every `.` left belongs to a final `.mp4`, with or without a newline; a `.` is left exactly when the collapsed name ended in `_mp4` |
| Sanitize.ExtensionRestored | utilities.py:30-33 | a rewritten `.mp4` name that is scanned again becomes `_mp4`, is collapsed, and turns back into the same `.mp4` |
| Sanitize.RewrittenIsStable | utilities.py:23-33 | a name that is already rewritten passes through all four steps unchanged |
| Sanitize.SanitizedIdempotent | utilities.py:23-33 | sanitizing twice equals sanitizing once, for any list that includes the entry `.` and whose other entries avoid `_`, `.`, `m`, `p`, `4` and newline |
| Sanitize.SanitizedKeepsChar | utilities.py:23-33 | a character not in any entry, the marker or the extension survives sanitizing |
| Utilities.RootSpecialsValid | utilities.py:26 | the top-level list meets the conditions of the idempotence and removal proofs |
| Utilities.PackageSpecialsValid | movie_trailer/utilities.py:26 | the packaged list meets the same conditions |
| Utilities.RootSanitizeIdempotent | utilities.py:20-35 | the top-level `sanitize_filename` is idempotent |
| Utilities.PackageSanitizeIdempotent | movie_trailer/utilities.py:20-35 | the packaged `sanitize_filename` is idempotent |
| Utilities.RootKeepsRightQuote | utilities.py:26-27 | the top-level copy leaves every U+2019 in place, because its list only has the three-character misreading |
| Utilities.PackageRemovesRightQuote | movie_trailer/utilities.py:26-27 | the packaged copy removes every U+2019 |
| Utilities.PackageLoopKeepsLength | movie_trailer/utilities.py:26-27 | the packaged replacement loop never changes the length |
| Utilities.RootLoopCanShorten | utilities.py:26-27 | in the top-level copy the three-character misreading becomes a single `_` |
| Utilities.MarkerRemovalIsSinglePass | utilities.py:23 | one pass of the marker removal can leave a new `__downloads_` behind |
| Utilities.PathJoin | utilities.py:42 | POSIX `os.path.join`: the result ends with the second part; an absolute second part is the result; otherwise the result starts with the first part and a single `/` separates them when the first part does not already end in `/` |
| Utilities.DownloadFolder | utilities.py:11 | `DOWNLOAD_FOLDER` is `./downloads` |
| Utilities.DownloadTarget | utilities.py:40-42 | for any list the target path ends with the sanitized name followed by `_trailer.mp4` |
| Utilities.DownloadTargetInFolder | utilities.py:40-42 | for a list that includes `/`, the target is `./downloads/` + sanitized name + `_trailer.mp4`, and the name has no `/`, so the file lands directly in the folder |
| Utilities.RootDownloadTarget | utilities.py:40-42 | the top-level target path is `./downloads/<sanitized>_trailer.mp4` |
| Utilities.PackageDownloadTarget | movie_trailer/utilities.py:40-42 | the packaged target path is `./downloads/<sanitized>_trailer.mp4` |
| Utilities.DownloadVideo | utilities.py:37-66 | `None` exactly when no usable file exists and the download fails; otherwise the target path |
| TmdbApi.NewTmdbApi | movie_trailer/api.py:8-13 | construction raises `ValueError` exactly when `TMDB_API_KEY` is unset or empty, and otherwise keeps that key |
| TmdbApi.TmdbRequest | movie_trailer/api.py:15-18 | the request goes to `BASE_URL/endpoint`; `api_key` is the client's key, overriding the caller's; other parameters are kept |
| TmdbApi.PopularTitles | movie_trailer/api.py:22-24 | at most 25 titles, those of the first results, in order |
| TmdbApi.ContainsIffOccurs | movie_trailer/api.py:38 | Python's `in` on strings holds exactly when the pattern occurs at some position |
| TmdbApi.IsMainTrailerIff | movie_trailer/api.py:36-39 | a video is a main trailer exactly when it is on YouTube and "Official Trailer" or "Main Trailer" occurs at some position of its name |
| TmdbApi.MainTrailers | movie_trailer/api.py:33-40 | exactly the YouTube videos named with "Official Trailer" or "Main Trailer"; the first is the first such video of the response |
| TmdbApi.FirstYouTubeKey | movie_trailer/api.py:42 | no key exactly when no video is on YouTube |
| TmdbApi.FirstYouTubeIs | movie_trailer/api.py:42 | the key is that of the first YouTube video |
| TmdbApi.ChooseKey | movie_trailer/api.py:33-43 | a chosen key is that of a YouTube video of the response; no key is chosen only when there is no main trailer |
| TmdbApi.TrailerLink | movie_trailer/api.py:26-45 | a link needs a search hit and is the watch prefix + the chosen key of the first hit's videos; otherwise the fallback |
| TmdbApi.MainTrailerWins | movie_trailer/api.py:33-41 | the first main trailer supplies the key |
| TmdbApi.YouTubeFallback | movie_trailer/api.py:42-43 | without a main trailer the first YouTube video supplies the key, and an empty key gives no link |
| TmdbApi.NoYouTubeNoLink | movie_trailer/api.py:36-42 | videos from other sites never give a key |
| TmdbApi.OnlyFirstHitMatters | movie_trailer/api.py:29-30 | only the first search hit's id decides the link |
| TmdbApi.LinkIsYouTubeWatchUrl | movie_trailer/api.py:41-43 | every link is `https://www.youtube.com/watch?v=` + the key of a YouTube video of the first hit |

## Left out

- OpenCV decoding and seeking (`cv2.VideoCapture`, `cap.set`, `cap.read`) are inputs: the frames a worker's capture would yield from its start frame, and the probe's open flag, frame count and fps. Seek accuracy is not modelled: the frames are taken to be the ones the capture yields after the seek.
- `ThreadPoolExecutor` and `as_completed` are not modelled as concurrency. The completion order is a parameter, and each worker runs sequentially in that order.
- The `rich` progress bars are left out. Each worker's `progress_dict` is a plain counter (`ProgressRecord`).
- Partition.Boundaries: computes `i * frame_count / num_threads` exactly, truncated toward zero, not through `np.linspace` floats. A negative frame count is handled by the same truncation; float rounding in `linspace` and the `int()` truncation of the probed fps at line 89 are not modelled.
- Coordinator.DetectResult: `num_threads < -1` makes `linspace` raise; `num_threads` of `-1` gives an empty `linspace` and `0` an empty list, so `argmax([])` raises. All are modelled as `ValueError`, without NumPy's messages.
- Frames.Variation: the frames of one video are taken to share a shape (`|a| == |b|`); NumPy broadcasting and shape errors are not modelled.
- Frame samples are unbounded integers. The `int64` sums of `np.sum` cannot overflow in the model.
- `extract_10_sec_action`, `combine_videos`, `_combine` and `analyze_and_combine` are left out: moviepy encoding, float seconds, directories and the network.
- The HTTP client (`httpx`) is left out. TMDB responses are inputs, already decoded into records.
- The YouTube HTML-scrape fallback of `get_trailer_link` is the outcome `SearchFallback`. It needs `requests` and `BeautifulSoup`, and `BeautifulSoup` is never imported.
- `TmdbApi.NewTmdbApi`: `TMDB_API_KEY` is read once, when the class is defined. The model passes the environment value as a parameter.
- `download_video`: the `yt_dlp` download, `os.rename`, the file-size check, logging and `ydl_hook` are left out. Whether a usable file exists and whether the download succeeds are boolean inputs.
- `cli.py` and `movie_trailer/cli.py` are not part of this model: folder checks, the event loop and typer wiring.
- `os.path.join` is modelled for POSIX paths only.
- Sanitize.SanitizedIdempotent: proved for any list of `ValidEntries`, which both lists of the program meet. It is not claimed for arbitrary lists.
- Sanitize.Sanitized: requires every entry to be non-empty. `str.replace` with an empty pattern inserts the replacement between characters, and neither list has an empty entry.
