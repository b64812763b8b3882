/**
 * The emotion smoothing window of emotion_mosaic.py: a bounded deque of the
 * most recent emotion score maps, and the aggregation that turns it into one
 * dominant emotion label.
 *
 * A score map is a Python dict from emotion label to score; dicts keep
 * insertion order, so a map is modelled as a sequence of (label, score) pairs.
 * Scores are reals; floating-point rounding is not modelled.
 */
module EmotionSmoothing {
  import opened Wrappers

  type Label = string

  /** One analysis result, in the dict's iteration order. */
  type ScoreMap = seq<(Label, real)>

  const SMOOTH_WINDOW := 7

  // ---------------------------------------------------------------------------
  // The bounded window (collections.deque with maxlen)
  // ---------------------------------------------------------------------------

  /** The last `n` elements of `s` (all of `s` when it is shorter). */
  function LastN<T>(s: seq<T>, n: nat): (r: seq<T>)
    ensures |r| == if |s| <= n then |s| else n
    ensures forall i :: 0 <= i < |r| ==> r[i] == s[|s| - |r| + i]
  {
    if |s| <= n then s else s[|s| - n..]
  }

  /** Trimming to the last `n` before appending more gives the same last `n`. */
  lemma LastNAppendAll<T>(s: seq<T>, t: seq<T>, n: nat)
    ensures LastN(LastN(s, n) + t, n) == LastN(s + t, n)
  {
    var l := LastN(s, n);
    var a, b := LastN(l + t, n), LastN(s + t, n);
    assert |a| == |b|;
    forall i | 0 <= i < |a| ensures a[i] == b[i] {
      var j := |l| + |t| - |a| + i;
      var j' := |s| + |t| - |b| + i;
      assert j' == j + |s| - |l|;
      assert a[i] == (l + t)[j] && b[i] == (s + t)[j'];
      if j < |l| {
        assert (l + t)[j] == l[j] == s[j'];
      } else {
        assert (l + t)[j] == t[j - |l|] == (s + t)[j'];
      }
    }
  }

  /**
   * deque(maxlen=capacity): `entries` is the window; `history` (ghost) is
   * everything ever appended.
   */
  class SmoothBuffer {
    const capacity: nat
    var entries: seq<ScoreMap>
    ghost var history: seq<ScoreMap>

    ghost predicate Valid()
      reads this
    {
      entries == LastN(history, capacity)
    }

    constructor (capacity: nat)
      ensures Valid() && this.capacity == capacity && entries == [] && history == []
    {
      this.capacity := capacity;
      entries := [];
      history := [];
    }

    /** deque.append: a full window drops its oldest entry first. */
    method Append(e: ScoreMap)
      requires Valid()
      modifies this
      ensures Valid() && history == old(history) + [e]
      ensures entries == LastN(old(entries) + [e], capacity)
      ensures |entries| <= capacity && |old(entries)| <= |entries|
    {
      LastNAppendAll(history, [e], capacity);
      if capacity == 0 {
      } else if |entries| == capacity {
        entries := entries[1..] + [e];
      } else {
        entries := entries + [e];
      }
      history := history + [e];
    }
  }

  // ---------------------------------------------------------------------------
  // Aggregation: the specification
  // ---------------------------------------------------------------------------

  /** All (label, score) pairs of the window, oldest entry first. */
  function Pairs(buf: seq<ScoreMap>): seq<(Label, real)>
  {
    if buf == [] then [] else Pairs(buf[..|buf| - 1]) + buf[|buf| - 1]
  }

  /** The labels of a list of (label, score) pairs, in order (a dict's keys). */
  function KeysOf(ps: seq<(Label, real)>): seq<Label>
  {
    seq(|ps|, i requires 0 <= i < |ps| => ps[i].0)
  }

  /** The distinct elements of `ks` in order of first appearance. */
  function Dedup(ks: seq<Label>): (r: seq<Label>)
    ensures forall k :: k in r <==> k in ks
    ensures forall i, j :: 0 <= i < j < |r| ==> r[i] != r[j]
  {
    if ks == [] then []
    else
      var d := Dedup(ks[..|ks| - 1]);
      assert ks == ks[..|ks| - 1] + [ks[|ks| - 1]];
      if ks[|ks| - 1] in d then d else d + [ks[|ks| - 1]]
  }

  /** The labels of `agg`, in the order they were first inserted. */
  function Keys(buf: seq<ScoreMap>): seq<Label>
  {
    Dedup(KeysOf(Pairs(buf)))
  }

  /** Sum of the scores given to `k` in a run of pairs. */
  function PairSum(ps: seq<(Label, real)>, k: Label): real
  {
    if ps == [] then 0.0
    else PairSum(ps[..|ps| - 1], k) + (if ps[|ps| - 1].0 == k then ps[|ps| - 1].1 else 0.0)
  }

  /** The sum of `k`'s scores over the window, an entry without `k` counting 0. */
  function Total(buf: seq<ScoreMap>, k: Label): real
  {
    PairSum(Pairs(buf), k)
  }

  /** The mean of `k`'s scores over a non-empty window. */
  function Mean(buf: seq<ScoreMap>, k: Label): real
    requires buf != []
  {
    Total(buf, k) / (|buf| as real)
  }

  /**
   * The means of the window's labels, in key order: each is the average over
   * the window's entries of d.get(k, 0).
   */
  function Means(buf: seq<ScoreMap>): (ms: seq<real>)
    requires buf != []
    ensures |ms| == |Keys(buf)|
    ensures forall i :: 0 <= i < |ms| ==> ms[i] == ScoreSum(buf, Keys(buf)[i]) / (|buf| as real)
  {
    AllTotalsAreScoreSums(buf);
    var ks := Keys(buf);
    seq(|ks|, i requires 0 <= i < |ks| => Mean(buf, ks[i]))
  }

  /** `t` is the first position of a maximal value (what Python's max returns). */
  ghost predicate FirstMax(vals: seq<real>, t: int)
  {
    0 <= t < |vals| &&
    (forall u :: 0 <= u < |vals| ==> vals[u] <= vals[t]) &&
    (forall u :: 0 <= u < t ==> vals[u] < vals[t])
  }

  // ---------------------------------------------------------------------------
  // Aggregation: the loops of main()
  // ---------------------------------------------------------------------------

  /** Position of `k` among the keys of `agg`, or |agg|. */
  method Find(agg: seq<(Label, real)>, k: Label) returns (t: nat)
    ensures t <= |agg|
    ensures t < |agg| ==> agg[t].0 == k
    ensures t == |agg| ==> k !in KeysOf(agg)
  {
    t := 0;
    while t < |agg| && agg[t].0 != k
      invariant t <= |agg|
      invariant forall u :: 0 <= u < t ==> agg[u].0 != k
    {
      t := t + 1;
    }
  }

  /** `agg` holds, in first-appearance order, every label of `seen` with the sum of its scores. */
  ghost predicate Summarizes(agg: seq<(Label, real)>, seen: seq<(Label, real)>)
  {
    KeysOf(agg) == Dedup(KeysOf(seen)) &&
    forall t :: 0 <= t < |agg| ==> agg[t].1 == PairSum(seen, agg[t].0)
  }

  lemma PairSumSnoc(ps: seq<(Label, real)>, p: (Label, real), k: Label)
    ensures PairSum(ps + [p], k) == PairSum(ps, k) + (if p.0 == k then p.1 else 0.0)
  {
    assert (ps + [p])[..|ps + [p]| - 1] == ps;
  }

  lemma DedupSnoc(ks: seq<Label>, k: Label)
    ensures Dedup(ks + [k]) == if k in ks then Dedup(ks) else Dedup(ks) + [k]
  {
    assert (ks + [k])[..|ks + [k]| - 1] == ks;
  }

  /** `agg[k] = agg.get(k, 0.0) + v`, where `t` is the position of `k` in `agg` or |agg|. */
  function Put(agg: seq<(Label, real)>, t: nat, p: (Label, real)): seq<(Label, real)>
    requires t <= |agg|
  {
    if t < |agg| then agg[t := (p.0, agg[t].1 + p.1)] else agg + [p]
  }

  /** `t` is where Find leaves the search for `k`. */
  ghost predicate FoundAt(agg: seq<(Label, real)>, k: Label, t: nat)
  {
    t <= |agg| && (t < |agg| ==> agg[t].0 == k) && (t == |agg| ==> k !in KeysOf(agg))
  }

  lemma PutKeys(agg: seq<(Label, real)>, seen: seq<(Label, real)>, p: (Label, real), t: nat)
    requires KeysOf(agg) == Dedup(KeysOf(seen)) && FoundAt(agg, p.0, t)
    ensures KeysOf(Put(agg, t, p)) == Dedup(KeysOf(seen + [p]))
  {
    assert KeysOf(seen + [p]) == KeysOf(seen) + [p.0];
    DedupSnoc(KeysOf(seen), p.0);
    if t < |agg| {
      assert KeysOf(agg)[t] == p.0;
      assert KeysOf(Put(agg, t, p)) == KeysOf(agg);
    } else {
      assert KeysOf(Put(agg, t, p)) == KeysOf(agg) + [p.0];
    }
  }

  lemma PutValues(agg: seq<(Label, real)>, seen: seq<(Label, real)>, p: (Label, real), t: nat)
    requires Summarizes(agg, seen) && FoundAt(agg, p.0, t)
    ensures forall u :: 0 <= u < |Put(agg, t, p)| ==> Put(agg, t, p)[u].1 == PairSum(seen + [p], Put(agg, t, p)[u].0)
  {
    var agg' := Put(agg, t, p);
    forall u | 0 <= u < |agg'| ensures agg'[u].1 == PairSum(seen + [p], agg'[u].0) {
      PairSumSnoc(seen, p, agg'[u].0);
      if u < |agg| && u != t {
        assert agg[u].0 != p.0 by {
          assert KeysOf(agg)[u] == agg[u].0;
          if t < |agg| { assert KeysOf(agg)[t] == agg[t].0; }
        }
      } else if u == |agg| {
        assert p.0 !in KeysOf(seen);
        PairSumAbsent(seen, p.0);
      }
    }
  }

  /** One step of the inner loop keeps the summary up to date. */
  lemma AddPairSummarizes(agg: seq<(Label, real)>, seen: seq<(Label, real)>, d: ScoreMap, j: nat, t: nat)
    requires j < |d| && Summarizes(agg, seen + d[..j]) && FoundAt(agg, d[j].0, t)
    ensures Summarizes(Put(agg, t, d[j]), seen + d[..j + 1])
  {
    PrefixSnoc(seen, d, j);
    PutKeys(agg, seen + d[..j], d[j], t);
    PutValues(agg, seen + d[..j], d[j], t);
  }

  lemma {:induction false} PairSumAbsent(ps: seq<(Label, real)>, k: Label)
    requires k !in KeysOf(ps)
    ensures PairSum(ps, k) == 0.0
  {
    if ps != [] {
      var ps' := ps[..|ps| - 1];
      assert KeysOf(ps') == KeysOf(ps)[..|ps'|];
      assert KeysOf(ps)[|ps'|] == ps[|ps'|].0;
      PairSumAbsent(ps', k);
    }
  }

  lemma PrefixSnoc<T>(seen: seq<T>, d: seq<T>, j: nat)
    requires j < |d|
    ensures seen + d[..j + 1] == (seen + d[..j]) + [d[j]]
  {
    assert d[..j + 1] == d[..j] + [d[j]];
  }

  /** The inner loop: `for k, v in d.items(): agg[k] = agg.get(k, 0.0) + float(v)`. */
  method AddEntry(agg: seq<(Label, real)>, ghost seen: seq<(Label, real)>, d: ScoreMap)
    returns (agg': seq<(Label, real)>)
    requires Summarizes(agg, seen)
    ensures Summarizes(agg', seen + d)
  {
    agg' := agg;
    var j := 0;
    assert seen + d[..0] == seen;
    while j < |d|
      invariant 0 <= j <= |d|
      invariant Summarizes(agg', seen + d[..j])
    {
      var (k, v) := d[j];
      var t := Find(agg', k);
      AddPairSummarizes(agg', seen, d, j, t);
      agg' := Put(agg', t, (k, v));
      j := j + 1;
    }
    assert d[..|d|] == d;
  }

  /**
   * agg after the two nested loops: one (label, sum of its scores) pair per
   * label of the window, in first-appearance order.
   */
  method SumScores(buf: seq<ScoreMap>) returns (agg: seq<(Label, real)>)
    ensures KeysOf(agg) == Keys(buf)
    ensures forall t :: 0 <= t < |agg| ==> agg[t].1 == Total(buf, agg[t].0)
  {
    agg := [];
    var i := 0;
    while i < |buf|
      invariant 0 <= i <= |buf|
      invariant Summarizes(agg, Pairs(buf[..i]))
    {
      agg := AddEntry(agg, Pairs(buf[..i]), buf[i]);
      assert buf[..i + 1][..i] == buf[..i];
      i := i + 1;
    }
    assert buf[..|buf|] == buf;
  }

  /** agg[k] / len(smooth_buf) for every key. */
  method Average(agg: seq<(Label, real)>, n: nat) returns (avg: seq<(Label, real)>)
    requires n > 0
    ensures |avg| == |agg|
    ensures forall t :: 0 <= t < |agg| ==> avg[t] == (agg[t].0, agg[t].1 / (n as real))
  {
    avg := agg;
    var t := 0;
    while t < |avg|
      invariant 0 <= t <= |avg| == |agg|
      invariant forall u :: 0 <= u < t ==> avg[u] == (agg[u].0, agg[u].1 / (n as real))
      invariant forall u :: t <= u < |avg| ==> avg[u] == agg[u]
    {
      avg := avg[t := (avg[t].0, avg[t].1 / (n as real))];
      t := t + 1;
    }
  }

  /** max(agg.items(), key=lambda kv: kv[1]): the first pair with the largest value. */
  method MaxItem(agg: seq<(Label, real)>) returns (t: nat)
    requires agg != []
    ensures FirstMax(seq(|agg|, u requires 0 <= u < |agg| => agg[u].1), t)
  {
    ghost var vals := seq(|agg|, u requires 0 <= u < |agg| => agg[u].1);
    t := 0;
    var u := 1;
    while u < |agg|
      invariant 1 <= u <= |agg| && t < u
      invariant forall v :: 0 <= v < u ==> vals[v] <= vals[t]
      invariant forall v :: 0 <= v < t ==> vals[v] < vals[t]
    {
      if agg[u].1 > agg[t].1 {
        t := u;
      }
      u := u + 1;
    }
  }

  /**
   * `dominant` is None for an empty window, and otherwise the label at the
   * first position of a maximal mean, in first-appearance order.
   */
  ghost predicate IsDominant(buf: seq<ScoreMap>, dominant: Option<Label>)
  {
    match dominant
    case None => buf == []
    case Some(k) => buf != [] && exists t :: FirstMax(Means(buf), t) && Keys(buf)[t] == k
  }

  /**
   * The dominant label of the window and its mean score: None for an empty
   * window, otherwise the first label, in first-appearance order, whose mean
   * is maximal. Every entry is a non-empty dict (main() appends only truthy
   * analysis results; max() of an empty agg would raise).
   */
  method DominantLabel(buf: seq<ScoreMap>) returns (dominant: Option<Label>, prob: real)
    requires forall i :: 0 <= i < |buf| ==> buf[i] != []
    ensures IsDominant(buf, dominant)
    ensures dominant.Some? ==> buf != [] && prob == Mean(buf, dominant.value)
  {
    if |buf| == 0 {
      return None, 0.0;
    }
    var sums := SumScores(buf);
    var agg := Average(sums, |buf|);
    KeysNonEmpty(buf);
    var t := MaxItem(agg);
    dominant, prob := Some(agg[t].0), agg[t].1;
    assert seq(|agg|, u requires 0 <= u < |agg| => agg[u].1) == Means(buf);
  }

  lemma KeysNonEmpty(buf: seq<ScoreMap>)
    requires buf != [] && buf[0] != []
    ensures Keys(buf) != []
  {
    PairsHasFirst(buf);
    var i :| 0 <= i < |Pairs(buf)| && Pairs(buf)[i] == buf[0][0];
    assert KeysOf(Pairs(buf))[i] == buf[0][0].0;
  }

  lemma {:induction false} PairsHasFirst(buf: seq<ScoreMap>)
    requires buf != [] && buf[0] != []
    ensures buf[0][0] in Pairs(buf)
  {
    if |buf| > 1 {
      PairsHasFirst(buf[..|buf| - 1]);
    }
  }

  // ---------------------------------------------------------------------------
  // Properties of the dominant label
  // ---------------------------------------------------------------------------

  /** There is only one first maximum: the dominant label is determined by the window. */
  lemma FirstMaxUnique(vals: seq<real>, t1: int, t2: int)
    requires FirstMax(vals, t1) && FirstMax(vals, t2)
    ensures t1 == t2
  {
    assert vals[t1] == vals[t2];
  }

  /** The window determines its dominant label. */
  lemma DominantUnique(buf: seq<ScoreMap>, d1: Option<Label>, d2: Option<Label>)
    requires IsDominant(buf, d1) && IsDominant(buf, d2)
    ensures d1 == d2
  {
    if d1.Some? {
      var t1 :| FirstMax(Means(buf), t1) && Keys(buf)[t1] == d1.value;
      var t2 :| FirstMax(Means(buf), t2) && Keys(buf)[t2] == d2.value;
      FirstMaxUnique(Means(buf), t1, t2);
    }
  }

  /**
   * The dominant label is a label of the window whose mean is at least the
   * mean of every other label of the window, and every label that appeared
   * before it has a strictly smaller mean. A label the window never mentions
   * has mean 0; max() does not look at it, so with negative scores it may
   * exceed the dominant mean (DominantBeatsAbsent rules that out for
   * non-negative scores).
   */
  lemma DominantMeaning(buf: seq<ScoreMap>, k: Label)
    requires IsDominant(buf, Some(k))
    ensures k in Keys(buf)
    ensures forall k' :: k' in Keys(buf) ==> Mean(buf, k') <= Mean(buf, k)
    ensures forall k' :: k' !in Keys(buf) ==> Mean(buf, k') == 0.0
    ensures forall u :: 0 <= u < |Keys(buf)| && Keys(buf)[u] == k ==>
      forall v :: 0 <= v < u ==> Mean(buf, Keys(buf)[v]) < Mean(buf, k)
  {
    var ks := Keys(buf);
    var t :| FirstMax(Means(buf), t) && ks[t] == k;
    forall k' | k' in ks ensures Mean(buf, k') <= Mean(buf, k) {
      var u :| 0 <= u < |ks| && ks[u] == k';
      assert Means(buf)[u] <= Means(buf)[t];
    }
    forall k' | k' !in ks ensures Mean(buf, k') == 0.0 {
      PairSumAbsent(Pairs(buf), k');
    }
  }

  lemma {:induction false} PairSumNonNegative(ps: seq<(Label, real)>, k: Label)
    requires forall i :: 0 <= i < |ps| ==> ps[i].1 >= 0.0
    ensures PairSum(ps, k) >= 0.0
  {
    if ps != [] {
      PairSumNonNegative(ps[..|ps| - 1], k);
    }
  }

  /**
   * With non-negative scores (the classifier's percentages), the dominant
   * mean is at least the mean of every label, inside the window or not.
   */
  lemma DominantBeatsAbsent(buf: seq<ScoreMap>, k: Label)
    requires IsDominant(buf, Some(k))
    requires forall i :: 0 <= i < |Pairs(buf)| ==> Pairs(buf)[i].1 >= 0.0
    ensures forall k' :: Mean(buf, k') <= Mean(buf, k)
  {
    DominantMeaning(buf, k);
    PairSumNonNegative(Pairs(buf), k);
  }

  lemma {:induction false} PairSumAppend(a: seq<(Label, real)>, b: seq<(Label, real)>, k: Label)
    ensures PairSum(a + b, k) == PairSum(a, k) + PairSum(b, k)
    decreases |b|
  {
    if b == [] {
      assert a + b == a;
    } else {
      var b' := b[..|b| - 1];
      assert a + b == (a + b') + [b[|b| - 1]];
      PairSumSnoc(a + b', b[|b| - 1], k);
      PairSumAppend(a, b', k);
      PairSumSnoc(b', b[|b| - 1], k);
      assert b == b' + [b[|b| - 1]];
    }
  }

  /**
   * The sum over entries of each entry's score for `k`; an entry's score,
   * d.get(k, 0), is PairSum(d, k) (0 when absent, by PairSumAbsent).
   */
  function ScoreSum(buf: seq<ScoreMap>, k: Label): real
  {
    if buf == [] then 0.0 else ScoreSum(buf[..|buf| - 1], k) + PairSum(buf[|buf| - 1], k)
  }

  /** The aggregate of a label is the sum, entry by entry, of d.get(k, 0). */
  lemma {:induction false} TotalIsScoreSum(buf: seq<ScoreMap>, k: Label)
    ensures Total(buf, k) == ScoreSum(buf, k)
  {
    if buf != [] {
      TotalIsScoreSum(buf[..|buf| - 1], k);
      PairSumAppend(Pairs(buf[..|buf| - 1]), buf[|buf| - 1], k);
    }
  }

  lemma AllTotalsAreScoreSums(buf: seq<ScoreMap>)
    ensures forall k :: Total(buf, k) == ScoreSum(buf, k)
  {
    forall k {
      TotalIsScoreSum(buf, k);
    }
  }
}
