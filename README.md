# Watermark Remover — a verified model

This project models the deterministic core of a watermark-removal web service. It covers three parts:

- The Python engine. It builds a rectangular mask over a video frame, samples frames to detect a static watermark, and restores every frame with one of four strategies. It also reports progress while writing the output video.
- The Flask layer around the engine. It checks uploads, names files, picks MIME types, writes the HLS master playlist, finds the source of a playlist request, and periodically removes old files.
- Two browser scripts. `HLSManager` maps a video URL to its HLS playlist URL and wraps the HLS.js quality levels. `VideoAnalytics` tracks buffering, errors and the playback rate.

Modules:

- `Imaging`: frames, planes, and the foreign image library (`Library`). Each filter is an uninterpreted function assumed to keep image dimensions.
- `MaskBuilder`: the mask built by slice assignment into a zero array, with Python's slice clipping, and the default bottom-right region.
- `RegionDetector`: `detect_watermark`, meaning its evenly spaced samples and the 1%–30% size gate.
- `Restoration`: strategy dispatch, Blend and Exemplar.
- `VideoPipeline`: `process_video`. The video capture and writer are classes, and the sampling loop and the frame loop are methods proved against specification functions.
- `PathNames`, `Text`, `Arith`: `os.path.splitext`/`basename`, the string helpers, and Python's integer division.
- `WebApp`: the helpers in `app.py`.
- `JsValues`: JavaScript values, truthiness, `||` and object spread.
- `HlsConfig`: the pure parts of `hls-config.js`.
- `Analytics`: `video-analytics.js`. The tracker is a class whose handlers update its fields in place.
- `Streaming`: the lemma that the player and the server agree on the HLS directory of a processed video.

How the model treats errors and inputs:

- Python exceptions are results. `Raised(ZeroDivisionError)` covers a header frame count of 0, and `Err(ValueError)` covers `np.stack([])`.
- The clock, file existence, directory listings, the UUID token and the video element's properties are parameters.

The player and the server choose the stem of a file name differently:

- `getHLSUrl` keeps the text before the first `.` of the file name.
- The server names HLS directories with `os.path.splitext`, which cuts at the last `.`.

The two agree for a `.mp4` output whose name has one dot (`Streaming.PlayerAndServerAgree`). They do not agree in two cases:

- An output with another extension, such as `processed_a_<hex>.avi`. The player asks for `/hls/processed_a_<hex>/master.m3u8`, and `hls_master` (app.py:328-346) tries only the bare name and the `.mp4` variants, so it answers 404.
- An upload whose name holds more dots, such as `a.b.mp4`. The player asks for `/hls/processed_a/master.m3u8`, which never matches the output `processed_a.b_<hex>.mp4`, so the server again answers 404.

HLS.js reports the failed playlist load as a fatal network error. The player's handler answers a fatal network error with `startLoad()`, which retries the same URL (static/js/hls-config.js:83-88). It falls back to the original source only for fatal errors that are neither network nor media errors (static/js/hls-config.js:94-99).

## Model

| member | source | states |
|---|---|---|
| MaskBuilder.SliceBound | watermark_remover.py:257 | a slice bound is clamped into `[0, n]`, and an in-range bound is kept as is |
| MaskBuilder.MaskPlane | watermark_remover.py:256-257 | the mask has the frame's dimensions; a cell is 255 when it lies in both clipped slices, otherwise 0 |
| MaskBuilder.MaskCellIff | watermark_remover.py:256-257 | for a region with a non-negative corner, cell `(r, c)` is 255 exactly when `y <= r < y+h` and `x <= c < x+w`; every other cell is 0 |
| MaskBuilder.BuildMask | watermark_remover.py:256-257 | the in-place fill of a fresh `height x width` array ends equal to `MaskPlane` |
| MaskBuilder.MaskCount | watermark_remover.py:256-257 | the number of 255 cells is the product of the clipped row and column slice lengths; a rectangle inside the frame sets exactly `w * h` cells |
| MaskBuilder.DefaultRegion | watermark_remover.py:244-250 | the fallback region has `w = width/5` and `h = height/10` (floored), lies inside the frame and touches its bottom-right corner |
| MaskBuilder.DefaultMaskCorner | watermark_remover.py:244-257 | the default mask is 255 exactly on the bottom-right `width/5 x height/10` block, and has `(width/5)*(height/10)` such cells |
| RegionDetector.StrideInRange | watermark_remover.py:31-32 | sample `i` of `n` at stride `len // n` is an index inside the list |
| RegionDetector.StrideSamples | watermark_remover.py:31-32 | the samples are `frames[i * (len // n)]` for `i < n`, all in range, and the first is `frames[0]` |
| RegionDetector.SizeAccepted | watermark_remover.py:54-60 | the gate passes exactly when both sides of the box lie between 1% and 30% of the shorter frame side, bounds included |
| RegionDetector.DetectWatermark | watermark_remover.py:27-62 | `ZeroDivisionError` exactly when no frame can be analysed and `ValueError` for a negative count; otherwise the analysed box is returned exactly when it exists and each side lies within 1%–30% of the shorter frame side |
| RegionDetector.DefaultSampling | watermark_remover.py:16-32 | with the default of ten, `min(10, len(frames))` frames are analysed, all at indices in range, and detection does not raise on a non-empty list |
| RegionDetector.WholeFrameRejected | watermark_remover.py:55-60 | a box covering a whole frame fails the 30% gate, so detection returns `None` |
| Restoration.EffectiveMethod | watermark_remover.py:218-220 | `'auto'` becomes `'inpaint'`, and every other name is kept |
| Restoration.SelectStrategy | watermark_remover.py:269-279 | blend, frequency and exemplar are chosen exactly for their own names, and inpaint for everything else |
| Restoration.AutoAndUnknownRunInpaint | watermark_remover.py:269-279 | after the `'auto'` rewrite, inpaint runs exactly for names outside blend/frequency/exemplar, including `'auto'` |
| Restoration.BlendChannel | watermark_remover.py:95-101 | mask 0 keeps the frame value, mask 255 gives the blurred value, and every result lies between the two |
| Restoration.BlendPixel | watermark_remover.py:96-100 | mask 0 keeps the pixel and mask 255 gives the blurred pixel, on all three channels |
| Restoration.RemoveWatermarkBlend | watermark_remover.py:91-101 | the output has the frame's dimensions; pixels under mask 0 are unchanged and pixels under mask 255 are the blurred pixels |
| Restoration.KeepPlane | watermark_remover.py:169-170 | `bitwise_not(mask) // 255` is 1 where the mask is 0 and 0 elsewhere |
| Restoration.ExemplarCell | watermark_remover.py:184 | keep 1 gives the original value and keep 0 gives the filtered value |
| Restoration.CombineChannel | watermark_remover.py:184 | each cell of the combined channel is the keep-selected value of the original and the filtered channel |
| Restoration.ExemplarFrame | watermark_remover.py:153-186 | the output has the frame's dimensions; pixels under mask 0 are unchanged, and under a set mask each channel is the median-filtered channel |
| Restoration.SetChannel | watermark_remover.py:184 | `result[:, :, k] = plane` changes channel `k` to the plane and leaves the other channels as they were |
| Restoration.ZerosLike | watermark_remover.py:173 | `np.zeros_like` gives an all-zero frame of the given dimensions |
| Restoration.RemoveWatermarkExemplar | watermark_remover.py:168-186 | the channel-by-channel loop returns exactly `ExemplarFrame` |
| Restoration.Restore | watermark_remover.py:268-279 | every strategy returns a frame of the input's dimensions; blend and exemplar keep every pixel outside the mask |
| Restoration.RestoreFrame | watermark_remover.py:269-279 | the `if/elif` chain returns the restoration of the strategy `SelectStrategy` picks |
| VideoPipeline.Capture.constructor | watermark_remover.py:203-211 | the capture carries the header metadata and the decodable frames, with the cursor at 0 |
| VideoPipeline.Capture.Seek | watermark_remover.py:230 | `set(CAP_PROP_POS_FRAMES, p)` moves the cursor to `p` |
| VideoPipeline.Capture.Read | watermark_remover.py:264 | `read()` succeeds exactly when the cursor is on a decodable frame, returns that frame and advances; otherwise the cursor stays |
| VideoPipeline.Writer.Write | watermark_remover.py:282 | `write` appends the frame to the output |
| VideoPipeline.SampleStep | watermark_remover.py:226-227 | the sampling stride is at least 1 |
| VideoPipeline.SamplesInRange | watermark_remover.py:229-233 | every read that yields a sample lies inside the decodable frames |
| VideoPipeline.SampleCount | watermark_remover.py:225-235 | the sampling loop collects at most 30 frames, never more than the decodable frames nor the header count, and none for a negative count |
| VideoPipeline.SampledFrames | watermark_remover.py:225-235 | sample `k` is the frame at position `k * step`, and there are as many samples as successful reads before the loop stops |
| VideoPipeline.SamplingBounds | watermark_remover.py:225-235 | at most 30 samples; none for a negative count or an empty video; the first sample is the first frame; exactly `min(30, frame_count)` samples when the header does not over-report |
| VideoPipeline.CollectSamples | watermark_remover.py:225-235 | the seek/read loop with its `break` collects exactly `SampledFrames` |
| VideoPipeline.ResolveRegion | watermark_remover.py:222-250 | given coordinates are used unchanged and nothing is detected; without them a header count of 0 raises `ZeroDivisionError`; only detection can fail |
| VideoPipeline.ResolveRegionOutcome | watermark_remover.py:222-250 | without coordinates, region resolution fails exactly when the header reports no frames or a negative count, or when no frame decodes; it always fails with `ZeroDivisionError`; otherwise it gives the default corner or a box that passed the size gate |
| VideoPipeline.ProgressInterval | watermark_remover.py:286 | the callback interval `max(1, int(frame_count / 100))` is at least 1, lies within 100 of `frame_count / 100`, and is 1 below 200 frames |
| VideoPipeline.Percent | watermark_remover.py:287 | the percentage is `100 * frame_number / frame_count` truncated: `p * fc <= 100 n < p * fc + fc`; it is never positive for a negative count |
| VideoPipeline.ProgressReports | watermark_remover.py:285-287 | at most one callback per written frame; each comes after a frame number that is a multiple of the interval, carries that frame's percentage, and the calls come in frame order |
| VideoPipeline.ProgressSchedule | watermark_remover.py:285-287 | writing `n` frames makes `n / interval` callbacks; the `i`-th comes after frame `(i+1) * interval` and carries that frame's percentage |
| VideoPipeline.PercentMonotone | watermark_remover.py:287 | the percentage never decreases as frames are written |
| VideoPipeline.PercentBounded | watermark_remover.py:287 | up to the header count the percentage lies in `[0, 100]`, and it reaches 100 at the last frame |
| VideoPipeline.FinalReport | watermark_remover.py:285-287 | with an accurate header the last callback reports 100% exactly when the interval divides the frame count |
| VideoPipeline.FinalReportMissed | watermark_remover.py:285-287 | with 201 frames the interval is 2 and the last of the 100 callbacks reports 99% |
| VideoPipeline.ProgressOvershoot | watermark_remover.py:287 | the percentage is not clamped: one announced frame and two decoded ones report 100% and then 200% |
| VideoPipeline.ProcessedFrames | watermark_remover.py:263-282 | one output per input frame, in order: the restoration of that frame under one strategy, with its dimensions |
| VideoPipeline.ProcessedFramesStep | watermark_remover.py:268-282 | processing one more frame appends its restoration |
| VideoPipeline.DefaultRegionKeepsOutside | watermark_remover.py:244-257 | with blend or exemplar and the default region, every output pixel outside the bottom-right block equals the input pixel |
| VideoPipeline.ProcessNextFrame | watermark_remover.py:264-282 | one loop pass reads the next frame, restores it and writes it, keeping the output equal to the processed prefix; it fails only at the end of the input |
| VideoPipeline.WriteFrames | watermark_remover.py:259-297 | the loop writes the processed frames of every decodable frame and makes exactly the scheduled callbacks; it raises `ZeroDivisionError` after the first frame exactly when a callback is given and the header count is 0 |
| VideoPipeline.ProcessVideo | watermark_remover.py:188-303 | `(False, "Error: Could not open video file")` exactly when open fails; otherwise the region is resolved, every decoded frame is restored with one strategy and written in order, the callbacks are the schedule, and the result is `(True, ...)` unless a `ZeroDivisionError` is raised |
| PathNames.Basename | app.py:349 | the text after the last `/`: a `/`-free suffix of the path, preceded by a `/` unless it is the whole path |
| PathNames.SplitExt | app.py:148 | root plus extension is the name; the extension is empty or one `.` followed by no `.` or `/` |
| PathNames.SplitExtOfName | app.py:234 | `stem.ext` splits into `stem` and `.ext` |
| PathNames.SplitExtInsert | app.py:148-149 | text without `.` or `/` inserted between root and extension joins the root and keeps the extension |
| PathNames.SplitExtPrepend | app.py:179 | a prefix without `.` or `/` joins the root of a name that has an extension |
| Text.ReplaceAllAppend | app.py:376 | `str.replace` of one character distributes over concatenation |
| Text.LowerChar | app.py:50 | `str.lower()` on the characters whose lower case is an ASCII letter: `A`-`Z` move to `a`-`z`, the Kelvin sign becomes `k`, and no upper-case ASCII letter is left |
| WebApp.AllowedFile | app.py:49-50 | a name is allowed exactly when it has a `.` with no `.` after it and the text after that `.`, lower-cased, is one of the five extensions |
| WebApp.AllowedFileExtension | app.py:49-50 | `name.ext` is allowed exactly when the lower-cased last extension is whitelisted, whatever dots `name` holds; a name without a dot is refused |
| WebApp.AllowedFileIgnoresCase | app.py:50 | `A.MKV` is accepted |
| WebApp.AllowedFileKelvin | app.py:50 | `a.m\u212Av`, with the Kelvin sign for the `K`, is accepted, because Python lower-cases it to `mkv` |
| WebApp.UniqueFilename | app.py:148-149 | `_` and the token are inserted right after the root of the secured name; cutting them out gives the secured name back |
| WebApp.UniqueFilenameSplit | app.py:148-149 | the token joins the root of the secured name and the extension is kept; no `/` is introduced |
| WebApp.PrefixedUniqueSplit | app.py:179 | a `.`/`/`-free prefix before the unique name joins its root and keeps its extension |
| WebApp.OutputFilename | app.py:179 | the output name is the unique name behind `processed_`, eleven characters plus the token longer than the secured name |
| WebApp.OutputFilenameKeepsExtension | app.py:179 | the output name is `processed_<root>_<hex><ext>`, and it is served with the same MIME type as the upload |
| WebApp.ResolveMethod | app.py:99-109 | the resolved method is always one of the five engine names |
| WebApp.FormMethodStrategy | app.py:99-109 | the five engine names map to themselves; `mask` and unknown names map to inpaint; the strategy the engine then runs is blend/frequency/exemplar for those names and inpaint otherwise |
| WebApp.RemoveWatermark | app.py:85-126 | the engine's result is passed through: `(False, ...)` only when open fails, and success whenever coordinates are given and the header reports frames; the output video receives exactly the frames restored by the strategy of the mapped method name (only the first one before the `ZeroDivisionError` of a zero header count) |
| WebApp.VideoMime | app.py:234-243 | the MIME type is always one of the table's types |
| WebApp.VideoMimeOfName | app.py:305-314 | `stem.ext` gets the type listed for the lower-cased `.ext`, and `video/mp4` for an unlisted extension |
| WebApp.SegmentMime | app.py:426-431 | playlist type exactly for `.m3u8`, `video/mp2t` exactly for `.ts`, `application/octet-stream` exactly for neither |
| WebApp.Bandwidth | app.py:376 | the bandwidth text holds no `k` |
| WebApp.BandwidthOfKilobits | app.py:376 | `<digits>k` becomes `<digits>000` |
| WebApp.MasterPlaylist | app.py:372-377 | every playlist, whatever the renditions, starts with the `#EXTM3U` / version header |
| WebApp.BuildMasterPlaylist | app.py:372-377 | the `+=` loop builds the header followed by each rendition's two lines, in list order |
| WebApp.MasterPlaylistExtends | app.py:374-377 | the playlist of a prefix of the renditions is a prefix of the playlist, and every playlist starts with the header |
| WebApp.DefaultMasterPlaylist | app.py:365-377 | the written playlist is the header followed by the 720p, 480p and 360p entries, in that order |
| WebApp.HlsCandidates | app.py:328-341 | four candidates, the requested name first, each strictly longer than the one before (so all differ and are tried in order), each the name or `processed_` + name followed by more text |
| WebApp.FirstExisting | app.py:328-346 | the index of the first existing path, and -1 exactly when none exists |
| WebApp.HlsMasterSource | app.py:328-346 | the source is the first existing path among `name`, `name.mp4`, `processed_name` and `processed_name.mp4`; `None` (the 404) when none exists |
| WebApp.HlsBase | app.py:349 | the HLS directory is a single path component that begins the file name of the source |
| WebApp.HlsSourceOfOutput | app.py:328-349 | for a request naming `<stem>` of a processed `<stem>.mp4`, the second candidate is served and its HLS directory is `<stem>` |
| WebApp.HlsSegmentDir | app.py:415-424 | the root directory when it exists, else `processed_<root>` when that exists, else `None`; the result always exists |
| WebApp.Trunc | app.py:439 | `int()` of a float truncates towards zero: within one below a non-negative value, within one above a negative one |
| WebApp.CleanupDue | app.py:439 | for a non-negative clock, cleanup is due exactly when fewer than ten seconds have passed since the last full hour |
| WebApp.CleanupWindow | app.py:439 | within any hour, cleanup runs exactly in its first ten seconds |
| WebApp.ExpiredNames | app.py:444-459 | a sweep names at most one entry per listed entry; `ExpiredNamesExact` says which |
| WebApp.ExpiredNamesExact | app.py:440-459 | a sweep deletes every entry of the right kind that is strictly older than 86400 s, and nothing else |
| WebApp.SweepFolder | app.py:444-447 | the loop over a listing removes exactly the expired names, in listing order |
| WebApp.CleanupOldFiles | app.py:437-459 | nothing is removed outside the window; inside it, files in uploads and outputs and directories in the HLS folder are swept |
| JsValues.Or | static/js/video-analytics.js:12-14 | `a \|\| b` is `a` when `a` is truthy and `b` otherwise |
| JsValues.Spread | static/js/hls-config.js:11-19 | `{...a, ...b}` has the keys of both; `b`'s values win and `a`'s values fill the rest |
| HlsConfig.HlsOptions | static/js/hls-config.js:11-19 | the options hold every default and every caller key, the caller's value winning and the default kept where the caller is silent |
| HlsConfig.HlsOptionsMerge | static/js/hls-config.js:11-19 | caller options override, absent keys keep the defaults, no other keys appear, `startLevel` defaults to -1, and no options give the defaults |
| HlsConfig.HlsFileStem | static/js/hls-config.js:131-134 | the stem holds no `.`, `/` or `?` |
| HlsConfig.GetHlsUrl | static/js/hls-config.js:126-138 | `null` exactly for a missing or empty URL; otherwise `/hls/<stem>/master.m3u8` with a stem free of `.`, `/` and `?` |
| HlsConfig.PathOfVideoUrl | static/js/hls-config.js:131 | the query string is cut at the first `?` |
| HlsConfig.HlsUrlOfVideoUrl | static/js/hls-config.js:131-137 | `<dir>/<stem><ext><query>` gives `/hls/<stem>/master.m3u8`, whatever the directory, the dotted extension and the query |
| HlsConfig.GetQualityLevels | static/js/hls-config.js:147-160 | `[]` without an instance or levels; otherwise one entry per level, in order, with index `i` and that level's height, width and bitrate |
| HlsConfig.GetCurrentQualityLevel | static/js/hls-config.js:162-167 | -1 without an instance, otherwise the instance's current level |
| HlsConfig.SetQualityLevel | static/js/hls-config.js:141-145 | sets the current level of an existing instance, and does nothing without one |
| HlsConfig.SetThenGetQualityLevel | static/js/hls-config.js:141-167 | a set level is read back when an instance exists, -1 otherwise, and the level list is unchanged |
| Streaming.PlayerAndServerAgree | static/js/hls-config.js:126-137 | a processed `<stem>.mp4` shown at any directory and query is streamed from `/hls/<stem>/master.m3u8`; the server serves `<stem>.mp4` for it and keeps its renditions under `<stem>` |
| Analytics.AnalyticsOptions | static/js/video-analytics.js:11-16 | the options hold the three named keys and every caller key, with the caller's value wherever it gave one |
| Analytics.AnalyticsOptionsAreSpread | static/js/video-analytics.js:11-16 | the options are exactly the defaults overridden by the caller's options, so a falsy caller value such as `sampleInterval: 0` is kept |
| Analytics.ErrorInfoOf | static/js/video-analytics.js:122-127 | the code and message come from the media error, or are `'unknown'` and `'unknown error'` without one; the timestamp is recorded |
| Analytics.StartBuffering | static/js/video-analytics.js:103-110 | afterwards a stall is open; only the first `waiting` of a stall counts it and records its start; the total duration is untouched |
| Analytics.StartBufferingAccounts | static/js/video-analytics.js:103-110 | a `waiting` event opens a stall and counts it once; a repeated `waiting` changes nothing; the accounting invariant is kept |
| Analytics.EndBuffering | static/js/video-analytics.js:112-119 | afterwards no stall is open; closing one adds the time since its start (0 for a missing start) to the total; the count is untouched and without an open stall nothing changes |
| Analytics.EndBufferingAccounts | static/js/video-analytics.js:112-119 | a `canplay` event closes the open stall, adding `now - start` as a completed stall; without an open stall it changes nothing |
| Analytics.SumNonNegative | static/js/video-analytics.js:114-115 | stalls of non-negative length give a non-negative total duration |
| Analytics.ReplayMonotone | static/js/video-analytics.js:103-119 | with a clock that does not go backwards, neither the event count nor the total duration ever decreases |
| Analytics.VideoAnalytics.constructor | static/js/video-analytics.js:9-31 | a fresh tracker has no buffering events, zero duration, no errors, rate 1, no stall open, and the merged options |
| Analytics.VideoAnalytics.OnLoaded | static/js/video-analytics.js:78-85 | records the load time since start and the video's resolution; nothing else changes |
| Analytics.VideoAnalytics.OnBufferingStart | static/js/video-analytics.js:103-110 | the buffering fields move as `StartBuffering`, nothing changes while already buffering, and the accounting invariant is kept |
| Analytics.VideoAnalytics.OnBufferingEnd | static/js/video-analytics.js:112-119 | the buffering fields move as `EndBuffering`, the closed stall is recorded, nothing changes when not buffering, and the invariant is kept |
| Analytics.VideoAnalytics.SendReport | static/js/video-analytics.js:171-174 | stamps the total play time and the report time; nothing else changes |
| Analytics.VideoAnalytics.OnError | static/js/video-analytics.js:121-134 | appends exactly one error record, keeps the earlier ones unchanged, then stamps the report |
| Analytics.VideoAnalytics.OnRateChange | static/js/video-analytics.js:136-139 | copies the video's playback rate; nothing else changes |

## Left out

- The OpenCV, SciPy and NumPy operations are uninterpreted functions in `Imaging.Library`, assumed to keep image dimensions. These are `cv2.inpaint`, `GaussianBlur`, `ndimage.median_filter`, and the whole detection analysis (`cvtColor`, `np.std`, `threshold`, `findContours`, `contourArea`, `boundingRect`).
- `remove_watermark_frequency` is one uninterpreted function. It is FFT and float normalisation over the whole frame.
- Text.LowerChar: Python's `str.lower()` lower-cases all of Unicode, and `İ` (U+0130) even becomes two characters. The model keeps every character other than `A`-`Z` and the Kelvin sign. No other character lower-cases to a single ASCII letter, so `WebApp.AllowedFile` and `WebApp.VideoMime` still decide exactly as the source does.
- VideoPipeline.Percent: `int((frame_number / frame_count) * 100)` is modelled as exact truncated division. The float expression can come out one lower, for example 29 of 100 frames gives 28.
- Restoration.BlendChannel: the float blend `(1 - m/255) * f + (m/255) * b` is modelled with exact integer arithmetic. It agrees with the source for the 0/255 masks the engine builds, but not necessarily for other mask values.
- MaskBuilder.DefaultRegion: `int(width * 0.2)` and `int(height * 0.1)` are modelled as `width / 5` and `height / 10`. Float rounding could differ only for sizes far beyond real video frames.
- The ETA (`elapsed_time`, `frames_per_second`, remaining time) is float wall-clock arithmetic. It is not modelled; a progress report keeps only the frame number and the percentage.
- Opening, seeking, reading and writing video files are modelled by the `Capture` and `Writer` classes. Codecs, fps, fourcc and `release` are left out.
- VideoPipeline.ProcessedFrames passes a frame through unchanged when its shape does not match the mask. This never happens for a capture whose frames have the header's dimensions, which `ProcessVideo` requires.
- Flask request handling is not modelled: routing, `request`, `flash`, `redirect`, `send_from_directory`/`send_file`, ETag headers, `file.save`, `secure_filename` and `uuid`. The secured name and the hex token are parameters.
- The upload form's coordinate parsing in `upload_file` is not modelled. Its result is the `coords` parameter of `WebApp.RemoveWatermark`.
- The ffmpeg `subprocess.run`, `makedirs`, `check_video_file`, and the actual `os.remove`/`shutil.rmtree` are left out. Cleanup returns the names it would delete.
- The ffmpeg transcoding behind each rendition is left out. Only the master playlist text is modelled.
- In `video-analytics.js`, `fetch`, `setInterval`, `navigator.connection`, logging, the float `bufferHealth` sample, `sampleMetrics`, and the log-only handlers (`onPlaying`, `onPause`, `onSeeking`, `onSeeked`) are left out. `performance.now()` and ISO timestamps are parameters; times are reals, as in JavaScript.
- The HLS.js glue in `hls-config.js` is left out: `init`, `initHLS`, the event handlers, `destroyHLS`, `fallbackToOriginal`, and the `Math.round` display names of the quality levels.
- The HLS.js instance is a plain value. Its `currentLevel` is read back exactly as set, although HLS.js may apply a switch later.
- JavaScript numbers are modelled as integers. Every number these option objects hold is an integer.
- `verify_installation.py`, `test_dependencies.py` and `test_watermark_remover.py` are environment checks and a print-only harness.
