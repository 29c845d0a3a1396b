/** Time-locked averaging of a signal around each wave
    (dsp/slow-waves.cpp:859-937): a window of `sr*left` samples before and
    `sr*right` samples after an anchor of every wave, slot by slot. */
module TimeLock {
  import opened Wrappers
  import opened WaveTypes
  import opened PhaseBins

  /** Conversion of a `double` to `int`: truncation toward zero. */
  function Trunc(x: real): (n: int)
    ensures x >= 0.0 ==> 0 <= n && n as real <= x < n as real + 1.0
    ensures x < 0.0 ==> n as real - 1.0 < x <= n as real <= 0.0
  {
    if x >= 0.0 then x.Floor else -((-x).Floor)
  }

  /** The anchor sample of a wave: -1 the negative peak, 0 the onset, +1
      the positive peak; any other code has none. */
  function AnchorOf(w: Wave, position: int): Option<nat> {
    if position == -1 then Some(w.downSp)
    else if position == 0 then Some(w.start)
    else if position == 1 then Some(w.upSp)
    else None
  }

  predicate ValidAnchor(position: int) {
    position == -1 || position == 0 || position == 1
  }

  function Anchors(sw: seq<Wave>, position: int): (a: seq<int>)
    requires ValidAnchor(position)
    ensures |a| == |sw|
    ensures forall i :: 0 <= i < |sw| ==> a[i] >= 0 && Some(a[i] as nat) == AnchorOf(sw[i], position)
  {
    if |sw| == 0 then [] else Anchors(sw[..|sw| - 1], position) + [AnchorOf(sw[|sw| - 1], position).value]
  }

  predicate InSignal(sig: seq<real>, j: int) {
    0 <= j < |sig|
  }

  /** Add the window that starts at sample `lower` to the first `upto`
      slots: slot `pos` takes sample `lower + pos` when the signal has it. */
  function AddWindow(prev: seq<Bin>, sig: seq<real>, lower: int, upto: nat): (t: seq<Bin>)
    requires upto <= |prev|
    ensures |t| == |prev|
  {
    seq(|prev|, pos requires 0 <= pos < |prev| =>
      if pos < upto && InSignal(sig, lower + pos) then Bin(prev[pos].sum + sig[lower + pos], prev[pos].count + 1)
      else prev[pos])
  }

  /** Reference accumulation over the windows of all anchors. */
  function WindowTally(sig: seq<real>, anchors: seq<int>, nleft: int, np: nat): (t: seq<Bin>)
    ensures |t| == np
  {
    if |anchors| == 0 then seq(np, _ => Bin(0.0, 0))
    else
      var prev := WindowTally(sig, anchors[..|anchors| - 1], nleft, np);
      AddWindow(prev, sig, anchors[|anchors| - 1] - nleft, np)
  }

  /** The number of anchors whose window has a sample at slot `pos`. */
  function Reaching(sig: seq<real>, anchors: seq<int>, nleft: int, pos: int): nat {
    if |anchors| == 0 then 0
    else Reaching(sig, anchors[..|anchors| - 1], nleft, pos)
         + (if InSignal(sig, anchors[|anchors| - 1] - nleft + pos) then 1 else 0)
  }

  /** Slot `pos` counts exactly the waves whose sample `anchor - nleft + pos`
      lies in the signal; no slot counts more waves than there are. */
  lemma {:induction false} SlotCounts(sig: seq<real>, anchors: seq<int>, nleft: int, np: nat, pos: nat)
    requires pos < np
    ensures WindowTally(sig, anchors, nleft, np)[pos].count == Reaching(sig, anchors, nleft, pos)
    ensures Reaching(sig, anchors, nleft, pos) <= |anchors|
  {
    if |anchors| > 0 {
      SlotCounts(sig, anchors[..|anchors| - 1], nleft, np, pos);
    }
  }

  /** When every anchor lies in the signal, the anchor's own slot `nleft`
      counts every wave. */
  lemma {:induction false} AnchorSlotFull(sig: seq<real>, anchors: seq<int>, nleft: nat)
    requires forall i :: 0 <= i < |anchors| ==> InSignal(sig, anchors[i])
    ensures Reaching(sig, anchors, nleft, nleft) == |anchors|
  {
    if |anchors| > 0 {
      AnchorSlotFull(sig, anchors[..|anchors| - 1], nleft);
    }
  }

  /** One wave's inner loop: slot `pos` runs with sample `j` from `lower`
      to `lower + np - 1`, skipping samples outside the signal. The
      program's "internal error" for `pos >= np` cannot happen. */
  method AddWindowLoop(acc0: seq<Bin>, sig: seq<real>, lower: int) returns (acc: seq<Bin>)
    ensures acc == AddWindow(acc0, sig, lower, |acc0|)
  {
    var np := |acc0|;
    var upper := lower + np - 1;
    acc := acc0;
    var pos := 0;
    var j := lower;
    while j <= upper
      invariant lower <= j <= upper + 1 || (np == 0 && j == lower)
      invariant pos == j - lower && pos <= np
      invariant acc == AddWindow(acc0, sig, lower, pos)
      decreases upper - j
    {
      if !InSignal(sig, j) {
        pos := pos + 1;
      } else {
        assert pos < np;
        acc := acc[pos := Bin(acc[pos].sum + sig[j], acc[pos].count + 1)];
        pos := pos + 1;
      }
      j := j + 1;
    }
  }

  /** The outer loop over the waves, one window per anchor. */
  method TallyAnchors(sig: seq<real>, anchors: seq<int>, nleft: int, np: nat) returns (acc: seq<Bin>)
    ensures acc == WindowTally(sig, anchors, nleft, np)
  {
    acc := seq(np, _ => Bin(0.0, 0));
    var i := 0;
    while i < |anchors|
      invariant 0 <= i <= |anchors|
      invariant acc == WindowTally(sig, anchors[..i], nleft, np)
    {
      acc := AddWindowLoop(acc, sig, anchors[i] - nleft);
      assert anchors[..i + 1][..i] == anchors[..i];
      i := i + 1;
    }
    assert anchors[..|anchors|] == anchors;
  }

  /** `time_locked_averaging`: per-slot sums and counts of `sig` over a
      window around each wave's anchor. No waves give an empty result; a
      negative window length and an unknown anchor code are errors. */
  method TimeLocked(sig: seq<real>, sw: seq<Wave>, sr: int, left: real, right: real, position: int)
    returns (r: Result<seq<Bin>, Halt>, means: seq<Option<real>>)
    ensures |sw| == 0 ==> r == Success([]) && means == []
    ensures var nleft := Trunc(sr as real * left);
            var np := nleft + 1 + Trunc(sr as real * right);
            && (|sw| > 0 && np < 0 ==> r == Failure(BadWindowLength))
            && (|sw| > 0 && np >= 0 && !ValidAnchor(position) ==> r == Failure(UnknownAnchor))
            && (|sw| > 0 && np >= 0 && ValidAnchor(position) ==>
                  && r == Success(WindowTally(sig, Anchors(sw, position), nleft, np))
                  && |means| == np
                  && forall k :: 0 <= k < np ==> means[k] == Mean(r.value[k]))
  {
    if |sw| == 0 {
      return Success([]), [];
    }
    var nleft := Trunc(sr as real * left);
    var nright := Trunc(sr as real * right);
    var np := nleft + 1 + nright;
    if np < 0 {
      return Failure(BadWindowLength), [];
    }
    if !ValidAnchor(position) {
      return Failure(UnknownAnchor), [];
    }
    var anchors := Anchors(sw, position);
    var acc := TallyAnchors(sig, anchors, nleft, np);
    r := Success(acc);
    means := seq(np, k requires 0 <= k < np => Mean(acc[k]));
  }
}
