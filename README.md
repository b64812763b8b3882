# Gesture and emotion mosaic triggers, in Dafny

This project models the two decision cores of a webcam privacy toy made of
two programs:

- **Hand-gesture debounce** (`finger_detection/main.py`, class
  `GestureRecognitionApp`). In every frame where hands are found, each hand
  gets a gesture label. Labels on the blacklist are candidates. The most
  frequent candidate of the frame extends the current streak or starts a new
  one. A frame with hands but no candidate resets the streak. A bad gesture
  is recorded only on a frame that continues a streak, at most once per
  streak. For `DEBOUNCE_FRAMES >= 2` that is the frame on which the streak
  reaches `DEBOUNCE_FRAMES` frames. For `DEBOUNCE_FRAMES <= 1` a streak of
  one frame is never recorded and a longer streak is recorded on its second
  frame (except the empty label; see EmptyLabelAfterReset). Once the streak's count reaches `DEBOUNCE_FRAMES`, every hand
  showing the streak's label is pixelated.
- **Emotion-triggered face mosaic** (`emotion_mosaic.py`). The program picks
  the largest detected face and pads its box by 15% of its longer side,
  clamped to the frame. It runs the emotion classifier only on frames that
  have a face and whose frame counter is a multiple of `ANALYZE_EVERY` (3);
  frames without a face still advance the counter. Any non-empty result is
  appended to a window of the last `SMOOTH_WINDOW` (7) results. It averages each emotion's score over the
  window and takes the first emotion with the largest mean. If that emotion
  is `angry` or `disgust`, it pixelates the padded box with `mosaic_region`:
  shrink the box to `max(1, h/15) x max(1, w/15)` pixels, enlarge it back
  with nearest-neighbour sampling, and write it back in place.

Modules:

- `Wrappers` holds `Option`.
- `GestureDebounce` holds the trigger state, the per-frame class with its
  bad-gesture counter, and the lemmas about runs of frames.
- `MosaicRegion` holds images as pixel grids, NumPy slice bounds, the
  in-place pixelation method and the function that specifies it.
- `EmotionSmoothing` holds the bounded window class and the aggregation
  loops. It also holds the functions that specify what the loops compute.
- `EmotionMosaic` holds face selection and padding, the analysis cadence,
  the per-frame class and the end-to-end lemma.

The configuration constants of the gesture program (`BLACKLIST_GESTURES`,
`DEBOUNCE_FRAMES`) come from `config.py`, which is not part of this model.
They are constructor parameters of `GestureRecognitionApp`.

## Model

| member | source | states |
|---|---|---|
| GestureDebounce.Count | finger_detection/main.py:135 | list.count is at most the list's length and is positive exactly when the label occurs |
| GestureDebounce.Blacklisted | finger_detection/main.py:132 | frame_candidates holds exactly the frame's labels that are on the blacklist, and is no longer than the frame's label list |
| GestureDebounce.MostFrequent | finger_detection/main.py:135 | max(set(cands), key=cands.count) returns a candidate that no other candidate outnumbers |
| GestureDebounce.MosaicMask | finger_detection/main.py:103-109 | (ShouldMosaic) a hand is marked for pixelation iff its label is blacklisted, equals the buffered label and the buffered count has reached DEBOUNCE_FRAMES |
| GestureDebounce.GestureRecognitionApp.constructor | finger_detection/main.py:43-45 | the buffer starts as ('', 0, not logged), which satisfies Valid, and no bad gesture has been recorded |
| GestureDebounce.GestureRecognitionApp.UpdateGestureStatus | finger_detection/main.py:130-148 | keeps Valid (the logged flag implies the count has reached DEBOUNCE_FRAMES); the candidate is a most frequent blacklisted label (None iff there is none); the new buffer state is Update of the old one, following the three branches; add_bad_gesture (Logs) is called once iff the streak continues, reaches the threshold and was not yet logged |
| GestureDebounce.GestureRecognitionApp.ProcessFrame | finger_detection/main.py:69-114 | a frame without hands leaves the buffer and the counter untouched; otherwise one debounce step runs, and each hand's pixelation is decided against the updated buffer |
| GestureDebounce.CountBlacklisted | finger_detection/main.py:132 | a blacklisted label's count among the candidates equals its count among all labels; other labels count 0 |
| GestureDebounce.ChosenMeans | finger_detection/main.py:132-135 | no candidate iff no label of the frame is blacklisted; otherwise the candidate is a blacklisted label of the frame that no blacklisted label outnumbers (both directions) |
| GestureDebounce.StepBranches | finger_detection/main.py:136-148 | for the transition Update and the logging test Logs: the same label adds one to the count; a new label restarts at count 1 and never logs; no candidate clears the buffer and never logs |
| GestureDebounce.UpdateKeepsInv | finger_detection/main.py:136-148 | the logged flag is only ever set once the count has reached DEBOUNCE_FRAMES, and a logging frame leaves the flag set |
| GestureDebounce.UpdateKeepsExact | finger_detection/main.py:136-148 | for DEBOUNCE_FRAMES >= 2 the flag is set exactly when the count has reached DEBOUNCE_FRAMES, and every step keeps this |
| GestureDebounce.LogsAtThreshold | finger_detection/main.py:136-140 | for DEBOUNCE_FRAMES >= 2 a frame logs exactly when it continues the streak and brings the count from below the threshold to the threshold |
| GestureDebounce.MosaicSingleLabel | finger_detection/main.py:107-109 | all pixelated hands of a frame show the buffered label, and only once its count has reached the threshold |
| GestureDebounce.RunKeepsInv | finger_detection/main.py:136-148 | over any run of frames the logged flag implies the count has reached DEBOUNCE_FRAMES |
| GestureDebounce.RunKeepsExact | finger_detection/main.py:136-148 | over any run of frames, with DEBOUNCE_FRAMES >= 2, the flag is set iff the count has reached DEBOUNCE_FRAMES |
| GestureDebounce.StreakContinues | finger_detection/main.py:136-140 | m more frames of the streak's label add m to the count and record at most one bad gesture: exactly one when the flag was clear and the count reaches the threshold during those frames |
| GestureDebounce.StreakFromNewLabel | finger_detection/main.py:136-148 | a streak of n frames of a new label leaves count n, and records one bad gesture iff n >= 2 and n >= DEBOUNCE_FRAMES (never otherwise) |
| GestureDebounce.DebounceLatency | finger_detection/main.py:107-109 | on the n-th frame of a new blacklisted label's streak, its hands are pixelated iff n >= DEBOUNCE_FRAMES |
| GestureDebounce.BreakRestartsWindow | finger_detection/main.py:145-148 | after a frame with hands and no candidate, whatever came before, a non-empty label needs a whole new DEBOUNCE_FRAMES window before it is pixelated |
| GestureDebounce.EmptyLabelAfterReset | finger_detection/main.py:136-148 | an empty blacklisted label continues the '' buffer left by a reset: after n frames the count is n, and one bad gesture is recorded iff n >= DEBOUNCE_FRAMES |
| MosaicRegion.AdjustIndex | emotion_mosaic.py:40 | a NumPy slice bound lands in [0, n] and a bound already inside the axis is kept |
| MosaicRegion.Crop | emotion_mosaic.py:40 | the region of interest has exactly the region's height and width |
| MosaicRegion.NearestIndex | emotion_mosaic.py:45 | nearest-neighbour enlargement from m pixels only reads source indices below m |
| MosaicRegion.Mosaicked | emotion_mosaic.py:37-49 | the image after pixelation has the same height and width as before |
| MosaicRegion.WriteBlocks | emotion_mosaic.py:46 | the slice assignment: every region pixel receives its block pixel and every other pixel keeps its value |
| MosaicRegion.MosaicRegion | emotion_mosaic.py:37-49 | the image in the array afterwards is the pixelated image Mosaicked specifies, or the old image when the guard returns early or the try body raises |
| MosaicRegion.NoopUnlessApplies | emotion_mosaic.py:38-48 | (Applies: the try body completes) a non-positive side, a zero level, or a slice other than h x w leaves the image unchanged |
| MosaicRegion.AppliesInBounds | emotion_mosaic.py:38-46 | for a corner inside the image, pixelation happens iff the sides are positive, the level is non-zero and the w x h rectangle fits the image; the slice then starts at (y, x) |
| MosaicRegion.BlockDims | emotion_mosaic.py:42-43 | (BlockDim) for a positive level and side, the shrunk side is max(1, int(side/level)), between 1 and the side |
| MosaicRegion.OutsideUnchanged | emotion_mosaic.py:46 | pixels outside the sliced region keep their values |
| MosaicRegion.OutsideRectUnchanged | emotion_mosaic.py:40-46 | for a corner inside the image, no pixel outside [x, x+w) x [y, y+h) changes |
| MosaicRegion.InsideIsBlocky | emotion_mosaic.py:44-46 | every region pixel is a copy of one of the mh x mw shrunk pixels |
| MosaicRegion.SameBlockSameValue | emotion_mosaic.py:44-46 | two region pixels that map to the same shrunk pixel end up equal |
| EmotionSmoothing.LastN | emotion_mosaic.py:65 | keeps the last n elements, in order |
| EmotionSmoothing.LastNAppendAll | emotion_mosaic.py:65 | trimming the window before appending gives the same window as trimming once at the end |
| EmotionSmoothing.SmoothBuffer.constructor | emotion_mosaic.py:65 | deque(maxlen=capacity) starts empty |
| EmotionSmoothing.SmoothBuffer.Append | emotion_mosaic.py:95 | deque.append keeps the last capacity entries of everything appended, never shrinks and never exceeds the capacity |
| EmotionSmoothing.Dedup | emotion_mosaic.py:102 | the distinct labels, each once, and exactly the labels that occur |
| EmotionSmoothing.Means | emotion_mosaic.py:100-104 | each label's mean is the average over the window's entries of d.get(k, 0), one per label in insertion order |
| EmotionSmoothing.AllTotalsAreScoreSums | emotion_mosaic.py:100-102 | every label's aggregate is the sum over entries of d.get(k, 0) |
| EmotionSmoothing.Find | emotion_mosaic.py:102 | agg.get finds the label's position, or reports that the label is absent |
| EmotionSmoothing.PairSumSnoc | emotion_mosaic.py:102 | one more pair adds its score to its own label's sum only |
| EmotionSmoothing.DedupSnoc | emotion_mosaic.py:102 | a new label is appended to the key order; a known label keeps its place |
| EmotionSmoothing.PutKeys | emotion_mosaic.py:102 | agg[k] = ... keeps the key order of first insertion |
| EmotionSmoothing.PutValues | emotion_mosaic.py:102 | after agg[k] = agg.get(k, 0) + v every label holds the sum of its scores so far |
| EmotionSmoothing.AddPairSummarizes | emotion_mosaic.py:101-102 | adding one pair of an entry keeps agg equal to the per-label sums in first-insertion order |
| EmotionSmoothing.AddEntry | emotion_mosaic.py:101-102 | the inner loop over one entry's items keeps agg equal to the per-label sums of everything seen |
| EmotionSmoothing.SumScores | emotion_mosaic.py:99-102 | agg holds every label of the window once, in first-appearance order, with the sum of its scores over the window |
| EmotionSmoothing.Average | emotion_mosaic.py:103-104 | each label's value is divided by the window length; labels and order are kept |
| EmotionSmoothing.MaxItem | emotion_mosaic.py:106 | max(agg.items(), key=value) is the first item with a maximal value |
| EmotionSmoothing.DominantLabel | emotion_mosaic.py:98-108 | None for an empty window; otherwise the first label, in first-appearance order, with a maximal mean, and its mean as the probability |
| EmotionSmoothing.KeysNonEmpty | emotion_mosaic.py:98-106 | a non-empty window of non-empty results has at least one label, so max() never sees an empty dict |
| EmotionSmoothing.PairsHasFirst | emotion_mosaic.py:100-101 | the first pair of the oldest entry is among the aggregated pairs |
| EmotionSmoothing.FirstMaxUnique | emotion_mosaic.py:106 | the position max() returns is unique |
| EmotionSmoothing.DominantUnique | emotion_mosaic.py:98-108 | the window determines the dominant label |
| EmotionSmoothing.DominantMeaning | emotion_mosaic.py:98-108 | the dominant label occurs in the window, no label of the window has a larger mean, labels absent from the window have mean 0, and every label inserted before it has a strictly smaller mean |
| EmotionSmoothing.DominantBeatsAbsent | emotion_mosaic.py:98-108 | with non-negative scores, no label at all, in the window or not, has a larger mean than the dominant one |
| EmotionSmoothing.PairSumNonNegative | emotion_mosaic.py:102 | a sum of non-negative scores is non-negative |
| EmotionSmoothing.PairSumAbsent | emotion_mosaic.py:102 | a label absent from the pairs sums to 0, as agg.get(k, 0.0) gives |
| EmotionSmoothing.PairSumAppend | emotion_mosaic.py:100-102 | summing over two runs of pairs is the sum of the two sums |
| EmotionSmoothing.TotalIsScoreSum | emotion_mosaic.py:100-102 | a label's aggregate is the sum over entries of d.get(k, 0) |
| EmotionMosaic.LargestFace | emotion_mosaic.py:82-83 | the chosen face has the largest area and every earlier face is strictly smaller (the stable descending sort's first element) |
| EmotionMosaic.Pad | emotion_mosaic.py:84 | the pad is the whole part of 15% of the face's longer side |
| EmotionMosaic.FaceBox | emotion_mosaic.py:84-88 | the padded box is clamped into the frame |
| EmotionMosaic.FaceBoxContainsFace | emotion_mosaic.py:84-88 | for a face inside the frame and a non-negative pad, the padded box contains the face |
| EmotionMosaic.StepThenRest | emotion_mosaic.py:92-95 | trimming the window after one frame does not change the window after later frames |
| EmotionMosaic.BufferIsLastAnalyzed | emotion_mosaic.py:92-95 | (Kept, BufferStep: a result enters only on frames with a face, frame_idx divisible by 3 and a non-empty result) over any run of frames the window holds the last (at most 7) kept analysis results, oldest first; it is never cleared |
| EmotionMosaic.BufferGrowsBounded | emotion_mosaic.py:65-95 | over any run of frames the window never shrinks and never exceeds 7 entries |
| EmotionMosaic.DisplayedMeaning | emotion_mosaic.py:110-112 | (Displayed) for 'angry' or 'disgust' the displayed image is the padded box pixelated; for any other label, or none, it is unchanged |
| EmotionMosaic.PixelateIfTriggered | emotion_mosaic.py:110-112 | the displayed image is the padded box pixelated iff the dominant emotion is angry or disgust, and unchanged otherwise |
| EmotionMosaic.EmotionMosaicApp.constructor | emotion_mosaic.py:65-66 | the window starts empty with capacity 7 and frame_idx at 0 |
| EmotionMosaic.EmotionMosaicApp.SmoothEmotion | emotion_mosaic.py:91-108 | the window gains the analysis result only on every third frame and only if it is non-empty; the dominant label is the window's |
| EmotionMosaic.EmotionMosaicApp.ProcessFrame | emotion_mosaic.py:68-128 | frame_idx goes up by one each frame; a frame without faces changes neither the window nor the image and has no dominant label; otherwise the largest face's padded box (SelectedBox) is chosen, the window steps, and the image is pixelated over that box iff the window's dominant label triggers |
| EmotionMosaic.TriggeredFaceIsCovered | emotion_mosaic.py:82-112 | for a largest face inside the frame, its padded box contains the face; for a non-empty face the trigger pixelates exactly that box (the slice is the whole box); nothing outside the box changes |

## Left out

- Camera capture, window display, keyboard exit and `print` output are I/O and are not modelled.
- MediaPipe hand detection and the landmark-to-label recognizer are inputs. Each frame gives the list of recognized labels, one per hand. "Hands present" is modelled as a non-empty list.
- The hand mosaic, the gesture text and the statistics overlay (the `Visualizer` calls) are drawing code and are not modelled. The model only computes which hands would be pixelated.
- `GestureTracker` is reduced to a counter of `add_bad_gesture` calls. Its persistence and statistics are not modelled, and neither is its `is_face_mosaic_enabled` threshold or the face mosaic that threshold enables.
- The Haar cascade face detector and the DeepFace classifier are inputs. Each frame gives the face rectangles and the score map the classifier would return, empty when it returns None or an empty dict.
- `face_crop` is taken only for the classifier, and the classifier is an input, so the crop is not modelled.
- `cv2.rectangle`, the text label and `EMO_MAP` translation are drawing code and are not modelled.
- MosaicRegion.MosaicRegion: the INTER_LINEAR shrink is abstracted as a `Sampler` function parameter, because the interpolation arithmetic is floating point. The model states which shrunk pixel each region pixel copies, not that pixel's value.
- MosaicRegion.NearestIndex: uses the exact floor(k*m/n). OpenCV's INTER_NEAREST (whose code is not part of this model) computes floor(k * (1/(n/m))) in double arithmetic, which can be one lower at some block boundaries even for ordinary sizes: for n = 154, m = 10, k = 77 OpenCV reads shrunk column 4 where the model reads 5. MosaicRegion.InsideIsBlocky and MosaicRegion.SameBlockSameValue name the model's shrunk pixel, which at such positions is the neighbour of the one OpenCV reads; that every region pixel copies some shrunk pixel still holds.
- MosaicRegion.BlockDim: computes int(h / level) with exact integer division. Python's float division could round a quotient just below an integer upward for very large sides.
- GestureDebounce.BreakRestartsWindow: requires a non-empty label, because the reset leaves the buffer text '' and an empty blacklisted label then continues that streak instead of starting a new one; EmptyLabelAfterReset states that case.
- EmotionMosaic.Pad: computes int(0.15 * max(w, h)) exactly, as the whole part of 15% of the side. The float expression gives the same value for every side below 10^15, far beyond any image size.
- Scores are modelled as reals, so floating-point rounding in the sums and the averages is not modelled.
- A score map is a sequence of (label, score) pairs in dict order. Distinct keys are not required, so the model also covers maps that a dict could not hold.
- EmotionSmoothing.DominantLabel requires every window entry to be non-empty. main() only appends truthy results, and `max` over an empty aggregate would raise.
- `dominant_prob` is returned as the mean score. Its percentage formatting in the label text is drawing code and is not modelled.
- Pixels are triples of unbounded integers. Their 8-bit range does not matter to the model, because pixelation copies pixels and never computes with them.
- `process_frame` in the gesture program returns the image it drew on, and `run` loops over camera frames. Both are I/O around the per-frame step that is modelled.
