/** The sample-to-wave map of `phase_slow_waves` and the nearest-wave query
    `nearest` (dsp/slow-waves.cpp:43-94, 745-780). The Hilbert phase is an
    input, already converted to degrees. */
module PhaseMap {
  import opened WaveTypes

  /** Unmarked entries of the map hold this value. */
  const Unmarked: int := -1

  /** Wave `w` covers sample `j` (closed interval). */
  predicate Covers(w: Wave, j: int) {
    w.start <= j <= w.stop
  }

  /** The last of the first `k` waves that covers sample `j`, or -1. */
  function LastCovering(sw: seq<Wave>, j: int, k: nat): (c: int)
    requires k <= |sw|
    ensures -1 <= c < k
    ensures c >= 0 ==> Covers(sw[c], j) && forall i :: c < i < k ==> !Covers(sw[i], j)
    ensures c == -1 ==> forall i :: 0 <= i < k ==> !Covers(sw[i], j)
  {
    if k == 0 then -1
    else if Covers(sw[k - 1], j) then k - 1
    else LastCovering(sw, j, k - 1)
  }

  /** The owner of sample `j` after the first `k` waves have been marked
      over a map whose entry was `base`. */
  function OwnerAfter(sw: seq<Wave>, j: int, k: nat, base: int): int
    requires k <= |sw|
  {
    var c := LastCovering(sw, j, k);
    if c >= 0 then c else base
  }

  /** `std::vector::resize(n, -1)`: keep the first `n` entries, pad with -1. */
  function Resized(prior: seq<int>, n: nat): (r: seq<int>)
    ensures |r| == n
    ensures forall j :: 0 <= j < n ==> r[j] == if j < |prior| then prior[j] else Unmarked
  {
    if |prior| >= n then prior[..n] else prior + seq(n - |prior|, _ => Unmarked)
  }

  /** Reference definition of `in_sw`: each sample holds the index of the
      last wave whose closed interval covers it, and otherwise what the
      resized prior map held there. */
  function InSwMap(n: nat, prior: seq<int>, sw: seq<Wave>): (m: seq<int>)
    ensures |m| == n
  {
    var base := Resized(prior, n);
    seq(n, j requires 0 <= j < n => OwnerAfter(sw, j, |sw|, base[j]))
  }

  /** Marking is idempotent: running it again over its own result changes
      nothing. */
  lemma InSwMapIdempotent(n: nat, prior: seq<int>, sw: seq<Wave>)
    ensures InSwMap(n, InSwMap(n, prior, sw), sw) == InSwMap(n, prior, sw)
  {
  }

  /** A wave never starts at sample 0 (a crossing needs a predecessor), so
      on a fresh map sample 0 stays unmarked: the `tbck > 0` test of
      `nearest` loses no wave. */
  lemma FirstSampleUnmarked(n: nat, sw: seq<Wave>)
    requires n > 0
    requires forall i :: 0 <= i < |sw| ==> sw[i].start >= 1
    ensures InSwMap(n, [], sw)[0] == Unmarked
  {
    assert LastCovering(sw, 0, |sw|) == -1;
  }

  /** Marks every sample of every wave with the wave's index, later waves
      overwriting earlier ones, and records each wave's phase trace over
      its closed interval. */
  method PhaseWaves(phase: seq<real>, prior: seq<int>, sw: seq<Wave>) returns (inSw: seq<int>, traces: seq<seq<real>>)
    requires forall i :: 0 <= i < |sw| ==> sw[i].start <= sw[i].stop < |phase|
    ensures inSw == InSwMap(|phase|, prior, sw)
    ensures |traces| == |sw|
    ensures forall i :: 0 <= i < |sw| ==> traces[i] == phase[sw[i].start .. sw[i].stop + 1]
  {
    var n := |phase|;
    var base := Resized(prior, n);
    inSw := base;
    traces := [];
    var i := 0;
    while i < |sw|
      invariant 0 <= i <= |sw| && |inSw| == n && |traces| == i
      invariant forall k :: 0 <= k < i ==> traces[k] == phase[sw[k].start .. sw[k].stop + 1]
      invariant forall q :: 0 <= q < n ==> inSw[q] == OwnerAfter(sw, q, i, base[q])
    {
      var w := sw[i];
      var trace := [];
      var j := w.start;
      while j <= w.stop
        invariant w.start <= j <= w.stop + 1 && |inSw| == n
        invariant trace == phase[w.start .. j]
        invariant forall q :: 0 <= q < n ==> inSw[q] == if w.start <= q < j then i else OwnerAfter(sw, q, i, base[q])
      {
        trace := trace + [phase[j]];
        inSw := inSw[j := i];
        j := j + 1;
      }
      traces := traces + [trace];
      i := i + 1;
    }
  }

  /** Where the nearest wave was found. */
  datatype Hit = Inside | Before(at: nat) | After(at: nat) | Nowhere

  predicate Marked(inSw: seq<int>, u: int) {
    0 <= u < |inSw| && inSw[u] != Unmarked
  }

  /** Tick distance between samples `i` and `u`. */
  function Gap(tp: seq<nat>, i: nat, u: nat): nat
    requires i < |tp| && u < |tp|
  {
    if tp[u] >= tp[i] then tp[u] - tp[i] else tp[i] - tp[u]
  }

  /** The wave index and signed tick offset the program reports for a hit;
      nothing found yields wave 0 at offset 0. */
  function Report(inSw: seq<int>, tp: seq<nat>, i: nat, hit: Hit): (int, int)
    requires |tp| == |inSw| && i < |inSw|
    requires hit.Before? || hit.After? ==> hit.at < |inSw|
  {
    match hit
    case Inside => (inSw[i], 0)
    case Before(t) => (inSw[t], tp[t] as int - tp[i] as int)
    case After(t) => (inSw[t], tp[t] as int - tp[i] as int)
    case Nowhere => (0, 0)
  }

  /** The wave nearest to sample `i`: its own wave if it has one, else the
      closer of the nearest marked samples before and after it, ties going
      forward. Sample 0 is never taken as the earlier one. */
  method Nearest(inSw: seq<int>, tp: seq<nat>, i: nat) returns (hit: Hit, idx: int, offset: int)
    requires |tp| == |inSw| && i < |inSw| && Monotone(tp)
    ensures hit.Inside? <==> Marked(inSw, i)
    ensures hit.Before? ==>
              && 0 < hit.at < i && Marked(inSw, hit.at)
              && (forall u :: hit.at < u < i ==> !Marked(inSw, u))
              && (forall u :: 0 < u < |inSw| && u != i && Marked(inSw, u) ==> Gap(tp, i, hit.at) <= Gap(tp, i, u))
              && (forall u :: i < u < |inSw| && Marked(inSw, u) ==> Gap(tp, i, hit.at) < Gap(tp, i, u))
    ensures hit.After? ==>
              && i < hit.at < |inSw| && Marked(inSw, hit.at)
              && (forall u :: i < u < hit.at ==> !Marked(inSw, u))
              && (forall u :: 0 < u < |inSw| && u != i && Marked(inSw, u) ==> Gap(tp, i, hit.at) <= Gap(tp, i, u))
    ensures hit.Nowhere? <==> !Marked(inSw, i) && forall u :: 0 < u < |inSw| ==> !Marked(inSw, u)
    ensures (idx, offset) == Report(inSw, tp, i, hit)
  {
    if inSw[i] != Unmarked {
      return Inside, inSw[i], 0;
    }
    var tbck: int := i - 1;
    while tbck >= 0 && inSw[tbck] == Unmarked
      invariant -1 <= tbck < i
      invariant forall u :: tbck < u < i ==> !Marked(inSw, u)
      decreases tbck
    {
      tbck := tbck - 1;
    }
    var tfor: int := i + 1;
    while tfor < |inSw| && inSw[tfor] == Unmarked
      invariant i < tfor <= |inSw|
      invariant forall u :: i < u < tfor ==> !Marked(inSw, u)
      decreases |inSw| - tfor
    {
      tfor := tfor + 1;
    }
    ghost var forwardEnd := tfor;
    if tfor >= |inSw| {
      tfor := -1;
    }
    if tbck > 0 && tfor > 0 {
      if tp[i] - tp[tbck] < tp[tfor] - tp[i] {
        hit, idx, offset := Before(tbck), inSw[tbck], tp[tbck] as int - tp[i] as int;
      } else {
        hit, idx, offset := After(tfor), inSw[tfor], tp[tfor] as int - tp[i] as int;
      }
    } else if tbck > 0 {
      hit, idx, offset := Before(tbck), inSw[tbck], tp[tbck] as int - tp[i] as int;
    } else if tfor > 0 {
      hit, idx, offset := After(tfor), inSw[tfor], tp[tfor] as int - tp[i] as int;
    } else {
      assert forall u :: 0 < u < |inSw| ==> !Marked(inSw, u) by {
        forall u | 0 < u < |inSw| ensures !Marked(inSw, u) {
          if u > i {
            assert u < forwardEnd;
          }
        }
      }
      hit, idx, offset := Nowhere, 0, 0;
    }
    if hit.Before? || hit.After? {
      assert 0 < hit.at < |inSw| && Marked(inSw, hit.at);
    }
  }
}
