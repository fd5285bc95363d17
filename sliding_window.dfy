/** The window and trigger policy shared by both `WindowedModel` variants,
    stated on values: what one `push_sample` does to a deque of capacity
    `WindowSize`, and when the trigger fires over a stream of timestamps. */
module SlidingWindow {

  function MinNat(a: nat, b: nat): nat {
    if a <= b then a else b
  }

  /** One push into a deque of capacity `cap`: when it is full the front is
      popped first, then the new element is pushed at the back. */
  function Slide<T>(xs: seq<T>, x: T, cap: nat): seq<T>
    requires 0 < cap && |xs| <= cap
  {
    if |xs| == cap then xs[1..] + [x] else xs + [x]
  }

  /** The last `n` elements of `h` (all of it when shorter). */
  function LastN<T>(h: seq<T>, n: nat): (r: seq<T>)
    ensures |r| == MinNat(|h|, n)
  {
    if |h| <= n then h else h[|h| - n..]
  }

  /** A window holding the latest `cap` pushes still holds the latest `cap`
      pushes after one more push: eviction plus append is first-in, first-out. */
  lemma SlideKeepsLatest<T>(h: seq<T>, x: T, cap: nat)
    requires 0 < cap
    ensures Slide(LastN(h, cap), x, cap) == LastN(h + [x], cap)
  {
    var w := LastN(h, cap);
    if |h| >= cap {
      assert w[1..] + [x] == (h + [x])[|h| + 1 - cap..];
    }
  }

  /** Channel `k` of a sequence of samples. */
  function Column(samples: seq<seq<real>>, k: nat): (r: seq<real>)
    requires forall p :: 0 <= p < |samples| ==> k < |samples[p]|
    ensures |r| == |samples|
  {
    seq(|samples|, p requires 0 <= p < |samples| => samples[p][k])
  }

  lemma ColumnPush(samples: seq<seq<real>>, sample: seq<real>, k: nat)
    requires forall p :: 0 <= p < |samples| ==> k < |samples[p]|
    requires k < |sample|
    ensures Column(samples + [sample], k) == Column(samples, k) + [sample[k]]
  {
  }

  /** One push into every channel, channel `k` receiving `sample[k]`. */
  function SlideEach(sigs: seq<seq<real>>, sample: seq<real>, cap: nat): (r: seq<seq<real>>)
    requires 0 < cap && |sample| == |sigs|
    requires forall k :: 0 <= k < |sigs| ==> |sigs[k]| <= cap
    ensures |r| == |sigs|
  {
    seq(|sigs|, k requires 0 <= k < |sigs| => Slide(sigs[k], sample[k], cap))
  }

  // ---------------------------------------------------------------------------
  // The trigger policy

  /** The part of a `WindowedModel` the trigger looks at: the window length
      and `prev_inference_ts`. */
  datatype TriggerState = TriggerState(len: nat, prev: real)

  /** A freshly constructed model: an empty window and `prev_inference_ts` at 0. */
  function Initial(): TriggerState {
    TriggerState(0, 0.0)
  }

  /** The window length after one push. */
  function NextLen(len: nat, cap: nat): nat {
    if len == cap then cap else len + 1
  }

  /** The trigger of `push_sample`: the window is full after the push and the
      pushed timestamp is at least `interval` after the last inference. */
  predicate FiresOn(s: TriggerState, t: real, cap: nat, interval: real) {
    NextLen(s.len, cap) == cap && t - s.prev >= interval
  }

  /** The trigger state after one push at time `t`. */
  function Push(s: TriggerState, t: real, cap: nat, interval: real): TriggerState {
    TriggerState(NextLen(s.len, cap), if FiresOn(s, t, cap, interval) then t else s.prev)
  }

  /** The trigger state after pushing `stamps` in order into a fresh model. */
  function State(stamps: seq<real>, cap: nat, interval: real): TriggerState
    decreases |stamps|
  {
    if stamps == [] then Initial()
    else Push(State(stamps[..|stamps| - 1], cap, interval), stamps[|stamps| - 1], cap, interval)
  }

  /** The push of `stamps[p]` fires an inference. */
  predicate FiresAt(stamps: seq<real>, cap: nat, interval: real, p: nat)
    requires p < |stamps|
  {
    FiresOn(State(stamps[..p], cap, interval), stamps[p], cap, interval)
  }

  /** After `n` pushes the window holds `min(n, cap)` entries. */
  lemma {:induction false} StateLen(stamps: seq<real>, cap: nat, interval: real)
    ensures State(stamps, cap, interval).len == MinNat(|stamps|, cap)
    decreases |stamps|
  {
    if stamps != [] {
      StateLen(stamps[..|stamps| - 1], cap, interval);
    }
  }

  /** No inference fires while the window is still filling. */
  lemma NoResultUntilFull(stamps: seq<real>, cap: nat, interval: real, p: nat)
    requires p < |stamps| && p + 1 < cap
    ensures !FiresAt(stamps, cap, interval, p)
  {
    StateLen(stamps[..p], cap, interval);
  }

  /** One more push moves `prev_inference_ts` to the pushed timestamp exactly
      when that push fires. */
  lemma StateStep(stamps: seq<real>, cap: nat, interval: real, q: nat)
    requires 0 < q <= |stamps|
    ensures State(stamps[..q], cap, interval).prev
            == if FiresAt(stamps, cap, interval, q - 1) then stamps[q - 1] else State(stamps[..q - 1], cap, interval).prev
  {
    assert stamps[..q][..q - 1] == stamps[..q - 1];
  }

  /** Before the first inference `prev_inference_ts` keeps its initial 0. */
  lemma {:induction false} PrevBeforeFirstFire(stamps: seq<real>, cap: nat, interval: real, q: nat)
    requires q <= |stamps|
    requires forall r :: 0 <= r < q ==> !FiresAt(stamps, cap, interval, r)
    ensures State(stamps[..q], cap, interval).prev == 0.0
    decreases q
  {
    if q > 0 {
      PrevBeforeFirstFire(stamps, cap, interval, q - 1);
      StateStep(stamps, cap, interval, q);
    }
  }

  /** After an inference `prev_inference_ts` is its timestamp until the next one. */
  lemma {:induction false} PrevAfterFire(stamps: seq<real>, cap: nat, interval: real, p: nat, q: nat)
    requires p < q <= |stamps|
    requires FiresAt(stamps, cap, interval, p)
    requires forall r :: p < r < q ==> !FiresAt(stamps, cap, interval, r)
    ensures State(stamps[..q], cap, interval).prev == stamps[p]
    decreases q
  {
    StateStep(stamps, cap, interval, q);
    if q - 1 > p {
      PrevAfterFire(stamps, cap, interval, p, q - 1);
    }
  }

  /** Two consecutive inferences are at least `interval` apart in stream time. */
  lemma TriggerCadence(stamps: seq<real>, cap: nat, interval: real, p: nat, q: nat)
    requires p < q < |stamps|
    requires FiresAt(stamps, cap, interval, p) && FiresAt(stamps, cap, interval, q)
    requires forall r :: p < r < q ==> !FiresAt(stamps, cap, interval, r)
    ensures stamps[q] - stamps[p] >= interval
  {
    PrevAfterFire(stamps, cap, interval, p, q);
  }

  /** Because `prev_inference_ts` starts at 0 rather than at a "never" value,
      the first inference needs a timestamp of at least `interval`. */
  lemma FirstFireNeedsInterval(stamps: seq<real>, cap: nat, interval: real, p: nat)
    requires p < |stamps| && FiresAt(stamps, cap, interval, p)
    requires forall r :: 0 <= r < p ==> !FiresAt(stamps, cap, interval, r)
    ensures stamps[p] >= interval
  {
    PrevBeforeFirstFire(stamps, cap, interval, p);
  }

  /** The push that first fills the window fires exactly when its timestamp
      is at least `interval`. */
  lemma FillingPushFires(stamps: seq<real>, cap: nat, interval: real)
    requires 0 < cap <= |stamps|
    ensures FiresAt(stamps, cap, interval, cap - 1) <==> stamps[cap - 1] >= interval
  {
    StateLen(stamps[..cap - 1], cap, interval);
    forall r | 0 <= r < cap - 1
      ensures !FiresAt(stamps, cap, interval, r)
    {
      NoResultUntilFull(stamps, cap, interval, r);
    }
    PrevBeforeFirstFire(stamps, cap, interval, cap - 1);
  }

  // ---------------------------------------------------------------------------
  // The window invariant

  /** The window of a model into which `hTs` and `hSamples` were pushed: the
      timestamps and every channel hold the latest `cap` pushes in push order,
      and the trigger state is the one those pushes lead to. */
  ghost predicate HoldsLatest(ts: seq<real>, sigs: seq<seq<real>>, prev: real,
                              hTs: seq<real>, hSamples: seq<seq<real>>, cap: nat, interval: real)
  {
    |hSamples| == |hTs|
    && (forall p :: 0 <= p < |hSamples| ==> |hSamples[p]| == |sigs|)
    && ts == LastN(hTs, cap)
    && (forall k :: 0 <= k < |sigs| ==> sigs[k] == LastN(Column(hSamples, k), cap))
    && State(hTs, cap, interval) == TriggerState(|ts|, prev)
  }

  /** `push_sample` keeps the window invariant: after evicting, appending and
      possibly firing, the window holds the latest `cap` pushes including the
      new one, every channel stays as long as the timestamps, and
      `prev_inference_ts` moves to the new timestamp exactly when it fires. */
  lemma PushKeepsLatest(ts: seq<real>, sigs: seq<seq<real>>, prev: real,
                        hTs: seq<real>, hSamples: seq<seq<real>>, cap: nat, interval: real,
                        sample: seq<real>, t: real)
    requires 0 < cap && |sample| == |sigs|
    requires HoldsLatest(ts, sigs, prev, hTs, hSamples, cap, interval)
    ensures |ts| <= cap && forall k :: 0 <= k < |sigs| ==> |sigs[k]| == |ts|
    ensures forall k :: 0 <= k < |sigs| ==> |SlideEach(sigs, sample, cap)[k]| == |Slide(ts, t, cap)|
    ensures HoldsLatest(Slide(ts, t, cap), SlideEach(sigs, sample, cap),
                        if FiresOn(TriggerState(|ts|, prev), t, cap, interval) then t else prev,
                        hTs + [t], hSamples + [sample], cap, interval)
  {
    var sigs' := SlideEach(sigs, sample, cap);
    SlideKeepsLatest(hTs, t, cap);
    forall k | 0 <= k < |sigs|
      ensures sigs'[k] == LastN(Column(hSamples + [sample], k), cap)
    {
      ColumnPush(hSamples, sample, k);
      SlideKeepsLatest(Column(hSamples, k), sample[k], cap);
    }
    assert (hTs + [t])[..|hTs|] == hTs;
  }
}
