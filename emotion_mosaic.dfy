/**
 * The per-frame decisions of emotion_mosaic.py's main loop: choose the largest
 * detected face, pad it and clamp it to the frame, feed the smoothing window
 * every ANALYZE_EVERY-th frame, and pixelate the padded face when the window's
 * dominant emotion is 'angry' or 'disgust'.
 *
 * The face detector and the emotion classifier are inputs: each frame comes
 * with its list of face rectangles and with the score map the classifier would
 * return for the chosen face (empty when it returns None or an empty dict).
 */
module EmotionMosaic {
  import opened Wrappers
  import opened EmotionSmoothing
  import opened MosaicRegion

  const ANALYZE_EVERY := 3

  /** A rectangle (x, y, w, h) from detectMultiScale. */
  datatype Face = Face(x: int, y: int, w: nat, h: nat)

  /** A corner-to-corner box (x1, y1) - (x2, y2), x2 and y2 exclusive. */
  datatype Box = Box(x1: int, y1: int, x2: int, y2: int)

  function Area(f: Face): nat
  {
    f.w * f.h
  }

  /**
   * The face sorted(faces, key=w*h, reverse=True)[0] picks. The sort is stable,
   * also when reversed, so it is the earliest face of largest area.
   */
  function LargestFace(faces: seq<Face>): (i: nat)
    requires faces != []
    ensures i < |faces|
    ensures forall j :: 0 <= j < |faces| ==> Area(faces[j]) <= Area(faces[i])
    ensures forall j :: 0 <= j < i ==> Area(faces[j]) < Area(faces[i])
  {
    if |faces| == 1 then 0
    else
      var i := LargestFace(faces[..|faces| - 1]);
      if Area(faces[|faces| - 1]) > Area(faces[i]) then |faces| - 1 else i
  }

  /** int(0.15 * max(w, h)) in exact arithmetic: the whole part of 15% of the longer side. */
  function Pad(f: Face): (p: nat)
    ensures var side := if f.w >= f.h then f.w else f.h;
      (p as real) <= 0.15 * (side as real) < (p + 1) as real
  {
    (15 * (if f.w >= f.h then f.w else f.h)) / 100
  }

  function Max(a: int, b: int): int { if a >= b then a else b }
  function Min(a: int, b: int): int { if a <= b then a else b }

  /** The face grown by `pad` on every side and clamped to a width x height frame. */
  function FaceBox(f: Face, pad: int, width: nat, height: nat): (b: Box)
    ensures 0 <= b.x1 && 0 <= b.y1 && b.x2 <= width && b.y2 <= height
  {
    Box(Max(0, f.x - pad), Max(0, f.y - pad), Min(width, f.x + f.w + pad), Min(height, f.y + f.h + pad))
  }

  /** A face that lies inside the frame. */
  predicate InFrame(f: Face, width: nat, height: nat)
  {
    0 <= f.x && f.x + f.w <= width && 0 <= f.y && f.y + f.h <= height
  }

  /** With a non-negative pad, the box of a face inside the frame contains the face. */
  lemma FaceBoxContainsFace(f: Face, pad: int, width: nat, height: nat)
    requires pad >= 0 && InFrame(f, width, height)
    ensures var b := FaceBox(f, pad, width, height);
      b.x1 <= f.x && f.x + f.w <= b.x2 && b.y1 <= f.y && f.y + f.h <= b.y2
  {
  }

  /** The face the frame works on and its padded box. */
  function SelectedBox(faces: seq<Face>, width: nat, height: nat): Box
    requires faces != []
  {
    var f := faces[LargestFace(faces)];
    FaceBox(f, Pad(f), width, height)
  }

  /** Frame `frameIdx` runs the classifier on a face and gets a non-empty result. */
  predicate Kept(frameIdx: nat, facePresent: bool, emos: ScoreMap)
  {
    facePresent && frameIdx % ANALYZE_EVERY == 0 && emos != []
  }

  /** The smoothing window after one frame: an analysis result is kept on analysis frames only. */
  function BufferStep(buf: seq<ScoreMap>, frameIdx: nat, facePresent: bool, emos: ScoreMap): seq<ScoreMap>
  {
    if Kept(frameIdx, facePresent, emos) then LastN(buf + [emos], SMOOTH_WINDOW) else buf
  }

  /** What the frame loop needs to know about one frame. */
  datatype FrameInput = FrameInput(facePresent: bool, emos: ScoreMap)

  /** The smoothing window after a run of frames numbered from `frameIdx`. */
  function BufferAfter(buf: seq<ScoreMap>, frameIdx: nat, frames: seq<FrameInput>): seq<ScoreMap>
    decreases |frames|
  {
    if frames == [] then buf
    else BufferAfter(BufferStep(buf, frameIdx, frames[0].facePresent, frames[0].emos), frameIdx + 1, frames[1..])
  }

  /** The analysis result a frame contributes to the window, if any. */
  function KeptOf(frameIdx: nat, f: FrameInput): seq<ScoreMap>
  {
    if Kept(frameIdx, f.facePresent, f.emos) then [f.emos] else []
  }

  /** The analysis results of a run that enter the window, in order. */
  function Analyzed(frameIdx: nat, frames: seq<FrameInput>): seq<ScoreMap>
    decreases |frames|
  {
    if frames == [] then [] else KeptOf(frameIdx, frames[0]) + Analyzed(frameIdx + 1, frames[1..])
  }

  /** One frame, then the rest: trimming after the frame does not change the final window. */
  lemma StepThenRest(buf: seq<ScoreMap>, frameIdx: nat, f: FrameInput, rest: seq<ScoreMap>)
    requires |buf| <= SMOOTH_WINDOW
    ensures LastN(BufferStep(buf, frameIdx, f.facePresent, f.emos) + rest, SMOOTH_WINDOW)
      == LastN(buf + (KeptOf(frameIdx, f) + rest), SMOOTH_WINDOW)
  {
    var k := KeptOf(frameIdx, f);
    assert buf + (k + rest) == (buf + k) + rest;
    if k != [] {
      LastNAppendAll(buf + k, rest, SMOOTH_WINDOW);
    }
  }

  /**
   * The window always holds the last (at most SMOOTH_WINDOW) analysis results
   * that were kept, oldest first; it is never cleared.
   */
  lemma {:induction false} BufferIsLastAnalyzed(buf: seq<ScoreMap>, frameIdx: nat, frames: seq<FrameInput>)
    requires |buf| <= SMOOTH_WINDOW
    ensures BufferAfter(buf, frameIdx, frames) == LastN(buf + Analyzed(frameIdx, frames), SMOOTH_WINDOW)
    decreases |frames|
  {
    if frames != [] {
      var f := frames[0];
      var buf' := BufferStep(buf, frameIdx, f.facePresent, f.emos);
      BufferIsLastAnalyzed(buf', frameIdx + 1, frames[1..]);
      StepThenRest(buf, frameIdx, f, Analyzed(frameIdx + 1, frames[1..]));
    } else {
      assert buf + [] == buf;
    }
  }

  /** Over any run the window never shrinks and never exceeds SMOOTH_WINDOW. */
  lemma {:induction false} BufferGrowsBounded(buf: seq<ScoreMap>, frameIdx: nat, frames: seq<FrameInput>)
    requires |buf| <= SMOOTH_WINDOW
    ensures |buf| <= |BufferAfter(buf, frameIdx, frames)| <= SMOOTH_WINDOW
    decreases |frames|
  {
    if frames != [] {
      BufferGrowsBounded(BufferStep(buf, frameIdx, frames[0].facePresent, frames[0].emos), frameIdx + 1, frames[1..]);
    }
  }

  /** The face is pixelated for these two labels only. */
  predicate IsMosaicEmotion(dominant: Option<Label>)
  {
    dominant.Some? && dominant.value in ["angry", "disgust"]
  }

  /** The displayed image: the padded face box pixelated iff the dominant emotion is angry or disgust. */
  function Displayed(g: Grid, b: Box, dominant: Option<Label>, sample: Sampler): Grid
    requires IsGrid(g, |g|, Width(g))
  {
    if IsMosaicEmotion(dominant) then Mosaicked(g, b.x1, b.y1, b.x2 - b.x1, b.y2 - b.y1, MOSAIC_LEVEL, sample)
    else g
  }

  /** Only 'angry' and 'disgust' pixelate the box; any other label, or none, leaves the image as it is. */
  lemma DisplayedMeaning(g: Grid, b: Box, dominant: Option<Label>, sample: Sampler)
    requires IsGrid(g, |g|, Width(g))
    ensures dominant == Some("angry") || dominant == Some("disgust") ==>
      Displayed(g, b, dominant, sample) == Mosaicked(g, b.x1, b.y1, b.x2 - b.x1, b.y2 - b.y1, MOSAIC_LEVEL, sample)
    ensures !(dominant == Some("angry") || dominant == Some("disgust")) ==> Displayed(g, b, dominant, sample) == g
  {
  }

  /** Lines 111-112 of main(): pixelate the padded face box for 'angry' or 'disgust'. */
  method PixelateIfTriggered(display: array2<Pixel>, b: Box, dominant: Option<Label>, sample: Sampler)
    modifies display
    ensures Snapshot(display) == Displayed(old(Snapshot(display)), b, dominant, sample)
  {
    if IsMosaicEmotion(dominant) {
      MosaicRegion.MosaicRegion(display, b.x1, b.y1, b.x2 - b.x1, b.y2 - b.y1, MOSAIC_LEVEL, sample);
    }
  }

  /**
   * The state main() keeps across frames: the deque smooth_buf and the
   * counter frame_idx.
   */
  class EmotionMosaicApp {
    const smoothBuf: SmoothBuffer
    var frameIdx: nat

    ghost predicate Valid()
      reads this, smoothBuf
    {
      smoothBuf.Valid() && smoothBuf.capacity == SMOOTH_WINDOW &&
      forall i :: 0 <= i < |smoothBuf.entries| ==> smoothBuf.entries[i] != []
    }

    constructor ()
      ensures Valid() && fresh(smoothBuf)
      ensures frameIdx == 0 && smoothBuf.entries == []
    {
      smoothBuf := new SmoothBuffer(SMOOTH_WINDOW);
      frameIdx := 0;
    }

    /** Lines 91-108 of main(): feed the window on analysis frames and aggregate it. */
    method SmoothEmotion(emos: ScoreMap) returns (dominant: Option<Label>)
      requires Valid()
      modifies smoothBuf
      ensures Valid()
      ensures smoothBuf.entries == BufferStep(old(smoothBuf.entries), frameIdx, true, emos)
      ensures IsDominant(smoothBuf.entries, dominant)
    {
      if frameIdx % ANALYZE_EVERY == 0 && emos != [] {
        smoothBuf.Append(emos);
      }
      var prob;
      dominant, prob := DominantLabel(smoothBuf.entries);
    }

    /**
     * One pass of main()'s loop over a frame that was read successfully,
     * without the drawing and display steps. `display` is the frame copy that
     * is shown; `faces` are the detector's rectangles and `emos` what
     * analyze_emotion would return for the chosen face.
     */
    method ProcessFrame(display: array2<Pixel>, faces: seq<Face>, emos: ScoreMap, sample: Sampler)
      returns (box: Option<Box>, dominant: Option<Label>)
      requires Valid()
      modifies this, smoothBuf, display
      ensures Valid()
      ensures frameIdx == old(frameIdx) + 1
      ensures smoothBuf.entries == BufferStep(old(smoothBuf.entries), old(frameIdx), faces != [], emos)
      ensures faces == [] ==> box == None && dominant == None && Snapshot(display) == old(Snapshot(display))
      ensures faces != [] ==> box == Some(SelectedBox(faces, display.Length1, display.Length0))
      ensures faces != [] ==> IsDominant(smoothBuf.entries, dominant)
      ensures faces != [] ==> Snapshot(display) == Displayed(old(Snapshot(display)), box.value, dominant, sample)
    {
      box, dominant := None, None;
      if faces != [] {
        var b := SelectedBox(faces, display.Length1, display.Length0);
        box := Some(b);
        dominant := SmoothEmotion(emos);
        PixelateIfTriggered(display, b, dominant, sample);
      }
      ghost var g1 := Snapshot(display);
      frameIdx := frameIdx + 1;
      assert Snapshot(display) == g1;
    }
  }

  /**
   * End to end: when the dominant emotion triggers, a face inside the frame
   * is pixelated over exactly its padded box, which contains the face, and
   * nothing outside that box changes.
   */
  lemma TriggeredFaceIsCovered(g: Grid, faces: seq<Face>, width: nat, height: nat, sample: Sampler, r: int, c: int)
    requires IsGrid(g, height, width) && faces != []
    requires InFrame(faces[LargestFace(faces)], width, height)
    requires 0 <= r < height && 0 <= c < width
    ensures
      var f := faces[LargestFace(faces)];
      var b := SelectedBox(faces, width, height);
      var g' := Mosaicked(g, b.x1, b.y1, b.x2 - b.x1, b.y2 - b.y1, MOSAIC_LEVEL, sample);
      (b.x1 <= f.x && f.x + f.w <= b.x2 && b.y1 <= f.y && f.y + f.h <= b.y2) &&
      (f.w > 0 && f.h > 0 ==> Applies(g, b.x1, b.y1, b.x2 - b.x1, b.y2 - b.y1, MOSAIC_LEVEL)) &&
      (f.w > 0 && f.h > 0 ==> SliceRegion(g, b.x1, b.y1, b.x2 - b.x1, b.y2 - b.y1) == Region(b.y1, b.x1, b.y2 - b.y1, b.x2 - b.x1)) &&
      (!(b.y1 <= r < b.y2 && b.x1 <= c < b.x2) ==> g'[r][c] == g[r][c])
  {
    var f := faces[LargestFace(faces)];
    var b := SelectedBox(faces, width, height);
    FaceBoxContainsFace(f, Pad(f), width, height);
    assert Width(g) == width by {
      if height > 0 { assert |g[0]| == width; }
    }
    AppliesInBounds(g, b.x1, b.y1, b.x2 - b.x1, b.y2 - b.y1, MOSAIC_LEVEL);
    if b.x2 - b.x1 > 0 && b.y2 - b.y1 > 0 && !(b.y1 <= r < b.y2 && b.x1 <= c < b.x2) {
      OutsideUnchanged(g, b.x1, b.y1, b.x2 - b.x1, b.y2 - b.y1, MOSAIC_LEVEL, sample, r, c);
    }
  }
}
