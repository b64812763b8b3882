/**
 * The gesture debounce trigger of the hand-gesture application
 * (finger_detection/main.py, class GestureRecognitionApp).
 *
 * Every frame in which at least one hand is detected, the application picks the
 * most frequent blacklisted gesture label of that frame, extends or restarts a
 * streak, and records at most one bad gesture per streak, only on a frame that
 * continues it. For DEBOUNCE_FRAMES >= 2 that is the frame on which the streak
 * becomes DEBOUNCE_FRAMES long; for DEBOUNCE_FRAMES <= 1 a one-frame streak is
 * never recorded and a longer one is recorded on its second frame (except the
 * empty label; see EmptyLabelAfterReset). A hand is pixelated only while its
 * label is the streak's label and the count has reached DEBOUNCE_FRAMES.
 */
module GestureDebounce {
  import opened Wrappers

  /** A gesture name as returned by the gesture recognizer. */
  type Label = string

  /**
   * The three fields gesture_buffer_text, gesture_buffer_count and
   * current_gesture_logged, as one value.
   */
  datatype TriggerState = TriggerState(text: Label, count: nat, logged: bool)

  /** The values the constructor gives the three fields. */
  const Initial := TriggerState("", 0, false)

  /** Number of occurrences of `l` in `labels` (Python's list.count). */
  function Count(labels: seq<Label>, l: Label): (n: nat)
    ensures n <= |labels|
    ensures n > 0 <==> l in labels
  {
    if labels == [] then 0
    else (if labels[0] == l then 1 else 0) + Count(labels[1..], l)
  }

  /** frame_candidates: the blacklisted labels of a frame, in detection order. */
  function Blacklisted(labels: seq<Label>, blacklist: set<Label>): (r: seq<Label>)
    ensures |r| <= |labels|
    ensures forall l :: l in r <==> l in labels && l in blacklist
  {
    if labels == [] then []
    else (if labels[0] in blacklist then [labels[0]] else []) + Blacklisted(labels[1..], blacklist)
  }

  /** `c` occurs in `cands` and no label occurs in `cands` more often. */
  ghost predicate IsMostFrequent(c: Label, cands: seq<Label>)
  {
    c in cands && forall l :: l in cands ==> Count(cands, l) <= Count(cands, c)
  }

  /**
   * The candidate of a frame: None when no label is blacklisted, otherwise one
   * of the most frequent blacklisted labels. Python's `max` over a set picks
   * the first maximal label in set iteration order, which the program does not
   * fix, so any maximal label is admitted.
   */
  ghost predicate Chosen(labels: seq<Label>, blacklist: set<Label>, candidate: Option<Label>)
  {
    var cands := Blacklisted(labels, blacklist);
    match candidate
    case None => cands == []
    case Some(c) => IsMostFrequent(c, cands)
  }

  /** The new trigger state after a frame with hands whose candidate is `candidate`. */
  function Update(s: TriggerState, candidate: Option<Label>, debounce: nat): TriggerState
  {
    match candidate
    case None => Initial
    case Some(c) =>
      if c == s.text then
        TriggerState(c, s.count + 1, s.logged || s.count + 1 >= debounce)
      else
        TriggerState(c, 1, false)
  }

  /** Whether that frame calls tracker.add_bad_gesture. */
  predicate Logs(s: TriggerState, candidate: Option<Label>, debounce: nat)
  {
    candidate == Some(s.text) && s.count + 1 >= debounce && !s.logged
  }

  /** should_mosaic for one detection, evaluated against the updated state. */
  predicate ShouldMosaic(gesture: Label, s: TriggerState, blacklist: set<Label>, debounce: nat)
  {
    gesture in blacklist && gesture == s.text && s.count >= debounce
  }

  /**
   * max(set(cands), key=cands.count): walks the distinct labels, keeping the
   * first one whose count is larger than every count seen before it.
   */
  method MostFrequent(cands: seq<Label>) returns (c: Label)
    requires cands != []
    ensures IsMostFrequent(c, cands)
  {
    var remaining := set l | l in cands;
    assert cands[0] in remaining;
    c :| c in remaining;
    remaining := remaining - {c};
    var best := Count(cands, c);
    while remaining != {}
      invariant forall l :: l in remaining ==> l in cands
      invariant c in cands && best == Count(cands, c)
      invariant forall l :: l in cands && l !in remaining ==> Count(cands, l) <= best
      decreases remaining
    {
      var l :| l in remaining;
      var n := Count(cands, l);
      if n > best {
        c, best := l, n;
      }
      remaining := remaining - {l};
    }
  }

  /** The loop of process_frame that decides, detection by detection, which hands to pixelate. */
  method MosaicMask(labels: seq<Label>, s: TriggerState, blacklist: set<Label>, debounce: nat)
    returns (mask: seq<bool>)
    ensures |mask| == |labels|
    ensures forall i :: 0 <= i < |labels| ==>
      (mask[i] <==> labels[i] in blacklist && labels[i] == s.text && s.count >= debounce)
  {
    mask := [];
    var i := 0;
    while i < |labels|
      invariant 0 <= i <= |labels| && |mask| == i
      invariant forall j :: 0 <= j < i ==> (mask[j] <==> ShouldMosaic(labels[j], s, blacklist, debounce))
    {
      mask := mask + [ShouldMosaic(labels[i], s, blacklist, debounce)];
      i := i + 1;
    }
  }

  /**
   * The application's debounce state. `badGestures` counts the calls of
   * GestureTracker.add_bad_gesture; the tracker itself is not part of this model.
   */
  class GestureRecognitionApp {
    const blacklist: set<Label>
    const debounce: nat
    var bufferText: Label
    var bufferCount: nat
    var gestureLogged: bool
    var badGestures: nat

    function State(): TriggerState
      reads this
    {
      TriggerState(bufferText, bufferCount, gestureLogged)
    }

    /** The flag is only ever set once the count has reached DEBOUNCE_FRAMES. */
    ghost predicate Valid()
      reads this
    {
      Inv(State(), debounce)
    }

    constructor (blacklist: set<Label>, debounce: nat)
      ensures this.blacklist == blacklist && this.debounce == debounce
      ensures State() == Initial && badGestures == 0
      ensures Valid()
    {
      this.blacklist := blacklist;
      this.debounce := debounce;
      bufferText, bufferCount, gestureLogged := "", 0, false;
      badGestures := 0;
    }

    /** update_gesture_status: one debounce step for a frame with hands. */
    method UpdateGestureStatus(labels: seq<Label>) returns (candidate: Option<Label>, logged: bool)
      requires Valid()
      modifies this
      ensures Valid()
      ensures Chosen(labels, blacklist, candidate)
      ensures State() == Update(old(State()), candidate, debounce)
      ensures logged == Logs(old(State()), candidate, debounce)
      ensures badGestures == old(badGestures) + (if logged then 1 else 0)
    {
      var cands := Blacklisted(labels, blacklist);
      logged := false;
      if cands != [] {
        var c := MostFrequent(cands);
        candidate := Some(c);
        if c == bufferText {
          bufferCount := bufferCount + 1;
          if bufferCount >= debounce && !gestureLogged {
            badGestures := badGestures + 1;
            logged := true;
            gestureLogged := true;
          }
        } else {
          bufferText := c;
          bufferCount := 1;
          gestureLogged := false;
        }
      } else {
        candidate := None;
        bufferText := "";
        bufferCount := 0;
        gestureLogged := false;
      }
    }

    /**
     * The gesture part of process_frame, given the recognized label of every
     * detected hand. A frame without hands leaves the state alone.
     */
    method ProcessFrame(labels: seq<Label>) returns (mask: seq<bool>, candidate: Option<Label>, logged: bool)
      requires Valid()
      modifies this
      ensures Valid()
      ensures labels == [] ==>
        mask == [] && candidate == None && !logged && State() == old(State()) && badGestures == old(badGestures)
      ensures labels != [] ==>
        Chosen(labels, blacklist, candidate) &&
        State() == Update(old(State()), candidate, debounce) &&
        logged == Logs(old(State()), candidate, debounce) &&
        badGestures == old(badGestures) + (if logged then 1 else 0)
      ensures |mask| == |labels|
      ensures forall i :: 0 <= i < |labels| ==> (mask[i] <==> ShouldMosaic(labels[i], State(), blacklist, debounce))
    {
      if labels != [] {
        candidate, logged := UpdateGestureStatus(labels);
        mask := MosaicMask(labels, State(), blacklist, debounce);
      } else {
        mask, candidate, logged := [], None, false;
      }
    }
  }

  // ---------------------------------------------------------------------------
  // The candidate of a frame, in terms of the unfiltered labels
  // ---------------------------------------------------------------------------

  lemma {:induction false} CountBlacklisted(labels: seq<Label>, blacklist: set<Label>, l: Label)
    ensures Count(Blacklisted(labels, blacklist), l) == if l in blacklist then Count(labels, l) else 0
  {
    if labels != [] {
      CountBlacklisted(labels[1..], blacklist, l);
      var head := if labels[0] in blacklist then [labels[0]] else [];
      CountAppend(head, Blacklisted(labels[1..], blacklist), l);
    }
  }

  lemma {:induction false} CountAppend(a: seq<Label>, b: seq<Label>, l: Label)
    ensures Count(a + b, l) == Count(a, l) + Count(b, l)
  {
    if a == [] {
      assert a + b == b;
    } else {
      assert (a + b)[0] == a[0];
      assert (a + b)[1..] == a[1..] + b;
      CountAppend(a[1..], b, l);
    }
  }

  /**
   * The chosen candidate is a blacklisted label of the frame that occurs at
   * least as often as every other blacklisted label; there is none exactly
   * when no label of the frame is blacklisted.
   */
  lemma ChosenMeans(labels: seq<Label>, blacklist: set<Label>, candidate: Option<Label>)
    ensures candidate.None? ==>
      (Chosen(labels, blacklist, candidate) <==> forall l :: l in labels ==> l !in blacklist)
    ensures candidate.Some? ==>
      (Chosen(labels, blacklist, candidate) <==>
        var c := candidate.value;
        c in labels && c in blacklist &&
        forall l :: l in blacklist ==> Count(labels, l) <= Count(labels, c))
  {
    var cands := Blacklisted(labels, blacklist);
    if candidate.None? {
      if cands != [] {
        assert cands[0] in cands;
      }
    } else {
      var c := candidate.value;
      forall l {
        CountBlacklisted(labels, blacklist, l);
      }
    }
  }

  // ---------------------------------------------------------------------------
  // Single steps
  // ---------------------------------------------------------------------------

  /** The three branches of update_gesture_status and the should_mosaic test. */
  lemma StepBranches(s: TriggerState, c: Label, debounce: nat)
    ensures c == s.text ==> Update(s, Some(c), debounce).count == s.count + 1 && Update(s, Some(c), debounce).text == c
    ensures c != s.text ==> Update(s, Some(c), debounce) == TriggerState(c, 1, false) && !Logs(s, Some(c), debounce)
    ensures Update(s, None, debounce) == TriggerState("", 0, false) && !Logs(s, None, debounce)
  {
  }

  /** `current_gesture_logged` is only ever set once the count has reached DEBOUNCE_FRAMES. */
  ghost predicate Inv(s: TriggerState, debounce: nat)
  {
    s.logged ==> s.count >= debounce
  }

  /**
   * For DEBOUNCE_FRAMES >= 2 the flag is set exactly when the count is at
   * least DEBOUNCE_FRAMES; the constructor's state and every step keep this.
   */
  ghost predicate Exact(s: TriggerState, debounce: nat)
  {
    s.logged <==> s.count >= debounce
  }

  lemma UpdateKeepsInv(s: TriggerState, candidate: Option<Label>, debounce: nat)
    requires Inv(s, debounce)
    ensures Inv(Update(s, candidate, debounce), debounce)
    ensures Logs(s, candidate, debounce) ==> Update(s, candidate, debounce).logged
  {
  }

  lemma UpdateKeepsExact(s: TriggerState, candidate: Option<Label>, debounce: nat)
    requires debounce >= 2 && Exact(s, debounce)
    ensures Exact(Update(s, candidate, debounce), debounce)
  {
  }

  /**
   * For DEBOUNCE_FRAMES >= 2, a frame logs exactly when it continues the
   * streak and brings the count to DEBOUNCE_FRAMES for the first time.
   */
  lemma LogsAtThreshold(s: TriggerState, candidate: Option<Label>, debounce: nat)
    requires debounce >= 2 && Exact(s, debounce)
    ensures Logs(s, candidate, debounce) <==>
      candidate == Some(s.text) && s.count < debounce && Update(s, candidate, debounce).count == debounce
  {
  }

  /** Only the streak's own label is pixelated: all pixelated hands of a frame carry one label. */
  lemma MosaicSingleLabel(labels: seq<Label>, mask: seq<bool>, s: TriggerState, blacklist: set<Label>, debounce: nat)
    requires |mask| == |labels|
    requires forall i :: 0 <= i < |labels| ==> (mask[i] <==> ShouldMosaic(labels[i], s, blacklist, debounce))
    ensures forall i, j :: 0 <= i < |labels| && 0 <= j < |labels| && mask[i] && mask[j] ==> labels[i] == labels[j]
    ensures forall i :: 0 <= i < |labels| && mask[i] ==> labels[i] == s.text && s.count >= debounce
  {
  }

  // ---------------------------------------------------------------------------
  // Runs of frames with hands
  // ---------------------------------------------------------------------------

  /** The trigger state after a run of frames with hands, given each frame's candidate. */
  function Run(s: TriggerState, candidates: seq<Option<Label>>, debounce: nat): TriggerState
    decreases |candidates|
  {
    if candidates == [] then s
    else Run(Update(s, candidates[0], debounce), candidates[1..], debounce)
  }

  /** How many times add_bad_gesture is called during that run. */
  function LogCount(s: TriggerState, candidates: seq<Option<Label>>, debounce: nat): nat
    decreases |candidates|
  {
    if candidates == [] then 0
    else
      (if Logs(s, candidates[0], debounce) then 1 else 0)
      + LogCount(Update(s, candidates[0], debounce), candidates[1..], debounce)
  }

  /** `n` consecutive frames whose candidate is `c`. */
  function Streak(c: Label, n: nat): seq<Option<Label>>
  {
    seq(n, _ => Some(c))
  }

  lemma {:induction false} RunKeepsInv(s: TriggerState, candidates: seq<Option<Label>>, debounce: nat)
    requires Inv(s, debounce)
    ensures Inv(Run(s, candidates, debounce), debounce)
    decreases |candidates|
  {
    if candidates != [] {
      UpdateKeepsInv(s, candidates[0], debounce);
      RunKeepsInv(Update(s, candidates[0], debounce), candidates[1..], debounce);
    }
  }

  lemma {:induction false} RunKeepsExact(s: TriggerState, candidates: seq<Option<Label>>, debounce: nat)
    requires debounce >= 2 && Exact(s, debounce)
    ensures Exact(Run(s, candidates, debounce), debounce)
    decreases |candidates|
  {
    if candidates != [] {
      UpdateKeepsExact(s, candidates[0], debounce);
      RunKeepsExact(Update(s, candidates[0], debounce), candidates[1..], debounce);
    }
  }

  /**
   * Continuing a streak of `c` for `m` more frames adds `m` to the count and
   * calls add_bad_gesture at most once: exactly once when the flag was clear
   * and the count reaches DEBOUNCE_FRAMES during those frames.
   */
  lemma {:induction false} StreakContinues(c: Label, k: nat, logged: bool, m: nat, debounce: nat)
    ensures Run(TriggerState(c, k, logged), Streak(c, m), debounce)
      == TriggerState(c, k + m, logged || (m >= 1 && k + m >= debounce))
    ensures LogCount(TriggerState(c, k, logged), Streak(c, m), debounce)
      == if !logged && m >= 1 && k + m >= debounce then 1 else 0
    decreases m
  {
    if m > 0 {
      var s := TriggerState(c, k, logged);
      var s' := Update(s, Some(c), debounce);
      assert Streak(c, m)[1..] == Streak(c, m - 1);
      StreakContinues(c, k + 1, s'.logged, m - 1, debounce);
    }
  }

  /**
   * A streak of `n >= 1` frames of a new label `c`: the count equals `n`, the
   * flag is set iff `n >= 2` and `n >= DEBOUNCE_FRAMES`, and add_bad_gesture
   * is called once in that case and never otherwise.
   */
  lemma StreakFromNewLabel(s: TriggerState, c: Label, n: nat, debounce: nat)
    requires s.text != c && n >= 1
    ensures Run(s, Streak(c, n), debounce) == TriggerState(c, n, n >= 2 && n >= debounce)
    ensures LogCount(s, Streak(c, n), debounce) == if n >= 2 && n >= debounce then 1 else 0
  {
    assert Streak(c, n)[1..] == Streak(c, n - 1);
    StreakContinues(c, 1, false, n - 1, debounce);
  }

  /**
   * Debounce latency: during a streak of a new blacklisted label `c`, a hand
   * showing `c` is pixelated on the streak's n-th frame iff n >= DEBOUNCE_FRAMES;
   * a streak starting at frame k is first pixelated at frame k + DEBOUNCE_FRAMES - 1.
   */
  lemma DebounceLatency(s: TriggerState, c: Label, n: nat, blacklist: set<Label>, debounce: nat)
    requires s.text != c && c in blacklist && n >= 1
    ensures ShouldMosaic(c, Run(s, Streak(c, n), debounce), blacklist, debounce) <==> n >= debounce
  {
    StreakFromNewLabel(s, c, n, debounce);
  }

  /**
   * A frame with hands but no blacklisted label breaks the streak: afterwards
   * a label needs a whole new debounce window, whatever happened before.
   * The empty label is excluded because the reset leaves the buffer text ''
   * (EmptyLabelAfterReset covers it).
   */
  lemma {:induction false} BreakRestartsWindow(s: TriggerState, c: Label, n: nat, blacklist: set<Label>, debounce: nat)
    requires c != "" && c in blacklist && n >= 1
    ensures Run(s, [None] + Streak(c, n), debounce) == TriggerState(c, n, n >= 2 && n >= debounce)
    ensures ShouldMosaic(c, Run(s, [None] + Streak(c, n), debounce), blacklist, debounce) <==> n >= debounce
  {
    assert ([None] + Streak(c, n))[1..] == Streak(c, n);
    StreakFromNewLabel(Initial, c, n, debounce);
  }

  /**
   * An empty blacklisted label is not a new label after a reset: the reset
   * leaves the buffer text '', so its first frame already continues that
   * streak, and it is recorded as soon as the count reaches DEBOUNCE_FRAMES,
   * even on the first frame when DEBOUNCE_FRAMES <= 1.
   */
  lemma EmptyLabelAfterReset(s: TriggerState, n: nat, debounce: nat)
    requires n >= 1
    ensures Run(s, [None] + Streak("", n), debounce) == TriggerState("", n, n >= debounce)
    ensures LogCount(s, [None] + Streak("", n), debounce) == if n >= debounce then 1 else 0
  {
    assert ([None] + Streak("", n))[1..] == Streak("", n);
    StreakContinues("", 0, false, n, debounce);
  }
}
