/** The measured clock offset (packages/core/src/clock-offset.ts and the sampling loop of
    apps/worker/src/workers/clock-calibration.ts) and what its bias does to the fire schedule. */
module ClockCalibration {
  import opened FireSchedule
  import opened Wrappers

  const CLOCK_SAMPLE_COUNT := 5

  function ComputeClockOffsetMs(localNowMs: int, chainBlockTimestampSec: int): int {
    localNowMs - chainBlockTimestampSec * 1000
  }

  function ToChainTimeMs(localNowMs: int, offsetMs: int): int {
    localNowMs - offsetMs
  }

  /** One probe: the local clock and the latest block, or a failed call. */
  datatype Probe = Block(localNowMs: int, timestampSec: int) | Failed

  function Sample(p: Probe): int
    requires p.Block?
  {
    ComputeClockOffsetMs(p.localNowMs, p.timestampSec)
  }

  ghost predicate IsLeast(offset: int, samples: seq<int>) {
    offset in samples && forall i :: 0 <= i < |samples| ==> offset <= samples[i]
  }

  /** The stored offset is the least sample; one failed probe, or no RPC, stores nothing. */
  method RunClockCalibration(rpcAvailable: bool, probes: seq<Probe>) returns (measured: Option<int>)
    requires |probes| == 5
    ensures measured.Some? <==> rpcAvailable && forall i :: 0 <= i < |probes| ==> probes[i].Block?
    ensures measured.Some? ==>
              IsLeast(measured.value,
                      seq(|probes|, i requires 0 <= i < |probes| && probes[i].Block? => Sample(probes[i])))
  {
    if !rpcAvailable {
      return None;
    }
    var offset: Option<int> := None;
    for i := 0 to CLOCK_SAMPLE_COUNT
      invariant forall j :: 0 <= j < i ==> probes[j].Block?
      invariant i > 0 <==> offset.Some?
      invariant offset.Some? ==>
                  && (exists j :: 0 <= j < i && Sample(probes[j]) == offset.value)
                  && (forall j :: 0 <= j < i ==> offset.value <= Sample(probes[j]))
    {
      if probes[i].Failed? {
        return None;
      }
      var sample := ComputeClockOffsetMs(probes[i].localNowMs, probes[i].timestampSec);
      assert sample == Sample(probes[i]);
      if offset.None? || sample < offset.value {
        offset := Some(sample);
      }
    }
    measured := offset;
    var samples := seq(|probes|, i requires 0 <= i < |probes| && probes[i].Block? => Sample(probes[i]));
    var j :| 0 <= j < CLOCK_SAMPLE_COUNT && Sample(probes[j]) == offset.value;
    assert samples[j] == offset.value;
  }

  // ----- What the samples are worth -----

  /** How one probe came about: the clock is read, then a block is fetched that was produced at some
      chain time (in ms), and the call returns. */
  datatype Timing = Timing(read: int, produced: int, returned: int)

  /** Block timestamps are whole seconds. */
  function ProbeOf(t: Timing): Probe { Block(t.read, t.produced / 1000) }

  /** The call takes time, and returns no block that is not there yet. */
  predicate Causal(t: Timing, offsetMs: int) {
    t.read <= t.returned && t.produced <= ToChainTimeMs(t.returned, offsetMs)
  }

  /** The block's second has begun by the time the clock is read. */
  predicate BlockFirst(t: Timing, offsetMs: int) {
    t.produced / 1000 * 1000 <= ToChainTimeMs(t.read, offsetMs)
  }

  /** A sample is off by the age of its block at the reading, negative for a block produced during the
      call, plus what truncation takes. So it is not below the true offset exactly when the block's
      second had begun, and never below by more than the call took. */
  lemma SampleBias(t: Timing, offsetMs: int)
    ensures Sample(ProbeOf(t)) - offsetMs == (ToChainTimeMs(t.read, offsetMs) - t.produced) + t.produced % 1000
    ensures Sample(ProbeOf(t)) >= offsetMs <==> BlockFirst(t, offsetMs)
    ensures Causal(t, offsetMs) ==> Sample(ProbeOf(t)) >= offsetMs - (t.returned - t.read)
  {
  }

  /** Every fire decision is the true one shifted by the error of the stored offset. It is early if and
      only if some probe met a block whose second began after its reading, and then by no more than that
      call took; it is late by no more than the best sample. */
  lemma FireIsShiftedByTheLeastBias(s: Schedule, timings: seq<Timing>, stored: int)
    requires IsLeast(stored, seq(|timings|, i requires 0 <= i < |timings| => Sample(ProbeOf(timings[i]))))
    requires forall t :: t in timings ==> Causal(t, s.clockOffsetMs)
    ensures var shift := stored - s.clockOffsetMs;
            && (forall now :: ComputeFirePhase(s.(clockOffsetMs := stored), now + shift) == ComputeFirePhase(s, now))
            && (shift < 0 <==> exists t :: t in timings && !BlockFirst(t, s.clockOffsetMs))
            && (exists t :: t in timings && shift >= -(t.returned - t.read))
            && (forall t :: t in timings ==>
                  shift <= (ToChainTimeMs(t.read, s.clockOffsetMs) - t.produced) + t.produced % 1000)
  {
    var samples := seq(|timings|, i requires 0 <= i < |timings| => Sample(ProbeOf(timings[i])));
    var j :| 0 <= j < |samples| && samples[j] == stored;
    SampleBias(timings[j], s.clockOffsetMs);
    assert timings[j] in timings;
    forall t | t in timings
      ensures stored <= Sample(ProbeOf(t))
    {
      var i :| 0 <= i < |timings| && timings[i] == t;
      assert samples[i] == Sample(ProbeOf(t));
    }
    forall t | t in timings
      ensures Sample(ProbeOf(t)) >= s.clockOffsetMs <==> BlockFirst(t, s.clockOffsetMs)
      ensures Sample(ProbeOf(t)) - s.clockOffsetMs ==
              (ToChainTimeMs(t.read, s.clockOffsetMs) - t.produced) + t.produced % 1000
    {
      SampleBias(t, s.clockOffsetMs);
    }
  }

  /** When no probe met such a block, every nuisance is non-negative, and every fire decision is delayed
      by exactly the smallest one. */
  lemma FiresLateByTheSmallestNuisance(s: Schedule, timings: seq<Timing>, stored: int)
    requires IsLeast(stored, seq(|timings|, i requires 0 <= i < |timings| => Sample(ProbeOf(timings[i]))))
    requires forall t :: t in timings ==> BlockFirst(t, s.clockOffsetMs)
    ensures exists j ::
              && 0 <= j < |timings|
              && var late := Sample(ProbeOf(timings[j])) - s.clockOffsetMs;
                 && late >= 0
                 && (forall i :: 0 <= i < |timings| ==> late <= Sample(ProbeOf(timings[i])) - s.clockOffsetMs)
                 && forall now :: ComputeFirePhase(s.(clockOffsetMs := stored), now + late) == ComputeFirePhase(s, now)
  {
    var samples := seq(|timings|, i requires 0 <= i < |timings| => Sample(ProbeOf(timings[i])));
    var j :| 0 <= j < |samples| && samples[j] == stored;
    SampleBias(timings[j], s.clockOffsetMs);
    forall i | 0 <= i < |timings|
      ensures stored <= Sample(ProbeOf(timings[i]))
    {
      assert samples[i] == Sample(ProbeOf(timings[i]));
    }
  }

  /** Early does happen: a call that takes any time at all can return a block of a second that began as
      it returned, and its sample is below the true offset by the whole length of the call. */
  lemma SlowCallReadsEarly(offsetMs: int, tookMs: nat, second: int)
    ensures var t := Timing(second * 1000 + offsetMs - tookMs, second * 1000, second * 1000 + offsetMs);
            Causal(t, offsetMs) && Sample(ProbeOf(t)) == offsetMs - tookMs
  {
  }

  /** The two conversions are inverse, so a chain instant survives the trip through local time. */
  lemma ConversionsAreInverse(chainMs: int, localMs: int, offsetMs: int)
    ensures ToChainTimeMs(ChainTimeToLocalMs(chainMs, offsetMs), offsetMs) == chainMs
    ensures ChainTimeToLocalMs(ToChainTimeMs(localMs, offsetMs), offsetMs) == localMs
  {
  }
}
