/** The RTT estimator (agents/rtt_agent.go:86-111), with the averages taken in exact integer arithmetic. */
module Rtt {

  const MAX_UINT64 := 0xFFFF_FFFF_FFFF_FFFF

  type uint64 = n: int | 0 <= n <= MAX_UINT64

  datatype Estimate = Estimate(minRtt: uint64, latestRtt: uint64, smoothedRtt: uint64, rttVar: uint64, maxAckDelay: uint64)

  /** A measured round trip with the delay the peer reports, and whether the packet held only ACK frames. */
  datatype Sample = Sample(raw: uint64, ackDelay: uint64, ackOnly: bool)

  const START := Estimate(MAX_UINT64, 0, 0, 0, 0)

  function Min(x: uint64, y: uint64): uint64 {
    if x < y then x else y
  }

  /** The sample without the reported delay, unless that would leave nothing above the minimum. */
  function Adjusted(s: Sample, minRtt: uint64): uint64
    requires minRtt <= s.raw
  {
    if s.raw - minRtt > s.ackDelay then s.raw - s.ackDelay else s.raw
  }

  function Smooth(smoothed: uint64, latest: uint64): uint64 {
    if smoothed == 0 then latest else (7 * smoothed + latest) / 8
  }

  function Distance(x: uint64, y: uint64): uint64 {
    if x < y then y - x else x - y
  }

  function Vary(rttVar: uint64, smoothed: uint64, latest: uint64): uint64 {
    if smoothed == 0 then latest / 2 else (3 * rttVar + Distance(smoothed, latest)) / 4
  }

  function Update(e: Estimate, s: Sample): Estimate {
    var least := Min(e.minRtt, s.raw);
    var latest := Adjusted(s, least);
    Estimate(least, latest, Smooth(e.smoothedRtt, latest), Vary(e.rttVar, e.smoothedRtt, latest),
             if !s.ackOnly && s.ackDelay > e.maxAckDelay then s.ackDelay else e.maxAckDelay)
  }

  function After(samples: seq<Sample>): Estimate {
    if samples == [] then START else Update(After(samples[..|samples| - 1]), samples[|samples| - 1])
  }

  // ----- Bounds over runs

  ghost predicate LeastRaw(x: uint64, samples: seq<Sample>) {
    (exists i :: 0 <= i < |samples| && samples[i].raw == x) && forall i :: 0 <= i < |samples| ==> x <= samples[i].raw
  }

  /** No raw sample exceeds x. */
  ghost predicate AtLeastAllRaw(x: uint64, samples: seq<Sample>) {
    forall i :: 0 <= i < |samples| ==> samples[i].raw <= x
  }

  lemma UpdateBounds(e: Estimate, s: Sample, most: uint64)
    requires s.raw <= most
    requires e == START || (e.minRtt <= e.smoothedRtt <= most && e.rttVar <= most)
    ensures var u := Update(e, s);
      u.minRtt == Min(e.minRtt, s.raw) && u.minRtt <= u.latestRtt <= s.raw && u.minRtt <= u.smoothedRtt <= most && u.rttVar <= most
  {
  }

  /** x is the largest delay reported for a packet that held more than ACK frames, 0 if there is none. */
  ghost predicate LargestDelay(x: uint64, samples: seq<Sample>) {
    && (x == 0 || exists i :: 0 <= i < |samples| && !samples[i].ackOnly && samples[i].ackDelay == x)
    && (forall i :: 0 <= i < |samples| && !samples[i].ackOnly ==> samples[i].ackDelay <= x)
  }

  /** After every run the largest delay is noted. */
  lemma {:induction false} LargestDelayIsNoted(samples: seq<Sample>)
    ensures LargestDelay(After(samples).maxAckDelay, samples)
    decreases |samples|
  {
    hide Smooth, Vary, Adjusted;
    if samples != [] {
      var n := |samples| - 1;
      var before := After(samples[..n]).maxAckDelay;
      LargestDelayIsNoted(samples[..n]);
      assert samples == samples[..n] + [samples[n]];
      if After(samples).maxAckDelay == before && before != 0 {
        var i :| 0 <= i < n && !samples[..n][i].ackOnly && samples[..n][i].ackDelay == before;
        assert samples[i].ackDelay == before && !samples[i].ackOnly;
      }
    }
  }

  /** After every run the minimum is the least raw sample, the smoothed value lies between it and the largest
      one, and the variation does not exceed the largest one. */
  lemma {:induction false} EstimatesStayWithinSamples(samples: seq<Sample>, most: uint64)
    requires samples != [] && AtLeastAllRaw(most, samples)
    ensures var e := After(samples);
      LeastRaw(e.minRtt, samples) && e.minRtt <= e.smoothedRtt <= most && e.rttVar <= most && e.minRtt <= e.latestRtt <= most
    decreases |samples|
  {
    hide Update;
    var n := |samples| - 1;
    var before := After(samples[..n]);
    if n > 0 {
      EstimatesStayWithinSamples(samples[..n], most);
    }
    UpdateBounds(before, samples[n], most);
    assert samples == samples[..n] + [samples[n]];
    if n > 0 && before.minRtt <= samples[n].raw {
      var i :| 0 <= i < n && samples[..n][i].raw == before.minRtt;
      assert samples[i].raw == before.minRtt;
    } else {
      assert samples[n].raw == After(samples).minRtt;
    }
  }

  // ----- A constant sample

  function SmoothTimes(smoothed: uint64, latest: uint64, n: nat): uint64
    decreases n
  {
    if n == 0 then smoothed else SmoothTimes(Smooth(smoothed, latest), latest, n - 1)
  }

  /** Where smoothing stands still: at the sample, or up to seven below it. */
  lemma SmoothStandsStillIff(smoothed: uint64, latest: uint64)
    ensures Smooth(smoothed, latest) == smoothed <==> smoothed == latest || (0 < smoothed < latest <= smoothed + 7)
  {
  }

  lemma {:induction false} StandsStill(smoothed: uint64, latest: uint64, n: nat)
    requires Smooth(smoothed, latest) == smoothed
    ensures SmoothTimes(smoothed, latest, n) == smoothed
    decreases n
  {
    if n > 0 {
      StandsStill(smoothed, latest, n - 1);
    }
  }

  /** From above, the smoothed value reaches a constant sample exactly and stays there. */
  lemma {:induction false} ReachedFromAbove(smoothed: uint64, latest: uint64, n: nat)
    requires latest <= smoothed && smoothed - latest <= n
    ensures SmoothTimes(smoothed, latest, n) == latest
    decreases n
  {
    if smoothed == latest {
      StandsStill(smoothed, latest, n);
    } else {
      var next := Smooth(smoothed, latest);
      assert latest <= next < smoothed;
      ReachedFromAbove(next, latest, n - 1);
    }
  }

  /** From below, it settles at most seven under the sample; from 0 it jumps there. */
  lemma {:induction false} SettlesFromBelow(smoothed: uint64, latest: uint64, n: nat)
    requires smoothed <= latest && latest - smoothed <= n
    ensures var r := SmoothTimes(smoothed, latest, n);
      && r <= latest <= r + 7 && Smooth(r, latest) == r
      && (smoothed == 0 ==> r == latest) && (0 < smoothed && latest - smoothed <= 7 ==> r == smoothed)
    decreases n
  {
    if Smooth(smoothed, latest) == smoothed {
      StandsStill(smoothed, latest, n);
    } else if smoothed == 0 {
      StandsStill(latest, latest, n - 1);
    } else {
      var next := Smooth(smoothed, latest);
      assert smoothed < next <= latest;
      SettlesFromBelow(next, latest, n - 1);
    }
  }

  // ----- A constant sample at the end of a run

  function Copies(s: Sample, n: nat): seq<Sample> {
    seq(n, _ => s)
  }

  /** The adjusted sample when s is measured again and again after a run. */
  function Steady(samples: seq<Sample>, s: Sample): uint64 {
    Adjusted(s, Min(After(samples).minRtt, s.raw))
  }

  function Repeated(samples: seq<Sample>, s: Sample, n: nat): Estimate {
    After(samples + Copies(s, n))
  }

  lemma RepeatedNext(samples: seq<Sample>, s: Sample, n: nat)
    requires n > 0
    ensures Repeated(samples, s, n) == Update(Repeated(samples, s, n - 1), s)
  {
    var l := samples + Copies(s, n);
    assert l[..|l| - 1] == samples + Copies(s, n - 1) && l[|l| - 1] == s;
  }

  lemma RepeatedNone(samples: seq<Sample>, s: Sample)
    ensures Repeated(samples, s, 0) == After(samples)
  {
    assert samples + Copies(s, 0) == samples;
  }

  lemma SmoothTimesNext(smoothed: uint64, latest: uint64, n: nat)
    ensures SmoothTimes(smoothed, latest, n + 1) == Smooth(SmoothTimes(smoothed, latest, n), latest)
    decreases n
  {
    if n > 0 {
      SmoothTimesNext(Smooth(smoothed, latest), latest, n - 1);
    }
  }

  /** Repeating a sample after any run smooths towards its adjusted value, with the minimum settled by the
      first repetition. */
  lemma {:induction false} RunSmooths(samples: seq<Sample>, s: Sample, n: nat)
    ensures var e := Repeated(samples, s, n);
      && e.smoothedRtt == SmoothTimes(After(samples).smoothedRtt, Steady(samples, s), n)
      && e.minRtt == (if n == 0 then After(samples).minRtt else Min(After(samples).minRtt, s.raw))
    decreases n
  {
    hide Smooth, Vary;
    if n == 0 {
      RepeatedNone(samples, s);
    } else {
      RunSmooths(samples, s, n - 1);
      RepeatedNext(samples, s, n);
      SmoothTimesNext(After(samples).smoothedRtt, Steady(samples, s), n - 1);
    }
  }

  /** In every run: from above, the smoothed value reaches a repeated sample exactly. */
  lemma RunReachesFromAbove(samples: seq<Sample>, s: Sample, n: nat)
    requires Steady(samples, s) <= After(samples).smoothedRtt <= Steady(samples, s) + n
    ensures Repeated(samples, s, n).smoothedRtt == Steady(samples, s)
  {
    RunSmooths(samples, s, n);
    ReachedFromAbove(After(samples).smoothedRtt, Steady(samples, s), n);
  }

  /** In every run: from below, it settles at most seven under a repeated sample, and at the sample if nothing
      was measured before. */
  lemma RunSettlesFromBelow(samples: seq<Sample>, s: Sample, n: nat)
    requires After(samples).smoothedRtt <= Steady(samples, s) <= After(samples).smoothedRtt + n
    ensures var r := Repeated(samples, s, n).smoothedRtt;
      && r <= Steady(samples, s) <= r + 7 && Smooth(r, Steady(samples, s)) == r
      && (After(samples).smoothedRtt == 0 ==> r == Steady(samples, s))
  {
    RunSmooths(samples, s, n);
    SettlesFromBelow(After(samples).smoothedRtt, Steady(samples, s), n);
  }

  /** Smoothing stands still under the repeated sample. */
  ghost predicate Still(samples: seq<Sample>, s: Sample, n: nat) {
    Smooth(Repeated(samples, s, n).smoothedRtt, Steady(samples, s)) == Repeated(samples, s, n).smoothedRtt
  }

  lemma {:induction false} StillForever(samples: seq<Sample>, s: Sample, n: nat, m: nat)
    requires Still(samples, s, n)
    ensures Repeated(samples, s, n + m).smoothedRtt == Repeated(samples, s, n).smoothedRtt
    decreases m
  {
    hide Smooth, SmoothTimes, Repeated, Steady;
    if m > 0 {
      StillForever(samples, s, n, m - 1);
      RunSmooths(samples, s, n + m - 1);
      RunSmooths(samples, s, n + m);
      SmoothTimesNext(After(samples).smoothedRtt, Steady(samples, s), n + m - 1);
    }
  }

  function VaryTimes(rttVar: uint64, smoothed: uint64, latest: uint64, n: nat): uint64
    decreases n
  {
    if n == 0 then rttVar else Vary(VaryTimes(rttVar, smoothed, latest, n - 1), smoothed, latest)
  }

  lemma {:induction false} RunVaries(samples: seq<Sample>, s: Sample, n: nat, m: nat)
    requires Still(samples, s, n)
    ensures var e := Repeated(samples, s, n);
      Repeated(samples, s, n + m).rttVar == VaryTimes(e.rttVar, e.smoothedRtt, Steady(samples, s), m)
    decreases m
  {
    hide Smooth, Vary, SmoothTimes;
    if m > 0 {
      RunVaries(samples, s, n, m - 1);
      StillForever(samples, s, n, m - 1);
      RunSmooths(samples, s, n + m - 1);
      RepeatedNext(samples, s, n + m);
    }
  }

  /** Where the variation stands d below or above a fixed distance: it comes down to it exactly, or settles at
      most 3 under it. */
  lemma {:induction false} VariationSettles(rttVar: uint64, smoothed: uint64, latest: uint64, n: nat)
    requires Smooth(smoothed, latest) == smoothed && smoothed <= latest
    requires Distance(rttVar, latest - smoothed) <= n
    ensures var d, v := latest - smoothed, VaryTimes(rttVar, smoothed, latest, n);
      v <= d <= v + 3 && (rttVar >= d ==> v == d)
    decreases n
  {
    var d := latest - smoothed;
    var v := VaryTimes(rttVar, smoothed, latest, n);
    VariationApproaches(rttVar, smoothed, latest, n);
  }

  /** Each repetition brings the variation closer until it stands still. */
  lemma {:induction false} VariationApproaches(rttVar: uint64, smoothed: uint64, latest: uint64, n: nat)
    requires Smooth(smoothed, latest) == smoothed && smoothed <= latest
    ensures var d, v := latest - smoothed, VaryTimes(rttVar, smoothed, latest, n);
      && (rttVar >= d ==> d <= v && (v == d || v + n <= rttVar))
      && (rttVar < d ==> v <= d && (d <= v + 3 || rttVar + n <= v))
    decreases n
  {
    if n > 0 {
      VariationApproaches(rttVar, smoothed, latest, n - 1);
      VaryStep(VaryTimes(rttVar, smoothed, latest, n - 1), smoothed, latest);
    }
  }

  lemma VaryStep(v: uint64, smoothed: uint64, latest: uint64)
    requires Smooth(smoothed, latest) == smoothed && smoothed <= latest
    ensures var d, w := latest - smoothed, Vary(v, smoothed, latest);
      && (v >= d ==> d <= w && (v > d ==> w < v)) && (v < d ==> v <= w <= d && (d > v + 3 ==> w > v))
  {
  }

  /** In every run: once smoothing stands d below a repeated sample, the variation comes down to exactly d, or
      settles at most 3 under it. */
  lemma RunVariationSettles(samples: seq<Sample>, s: Sample, n: nat, m: nat)
    requires Still(samples, s, n) && Repeated(samples, s, n).smoothedRtt <= Steady(samples, s)
    requires Distance(Repeated(samples, s, n).rttVar, Steady(samples, s) - Repeated(samples, s, n).smoothedRtt) <= m
    ensures var e, t := Repeated(samples, s, n), Repeated(samples, s, n + m);
      var d := Steady(samples, s) - e.smoothedRtt;
      && t.smoothedRtt == e.smoothedRtt && t.rttVar <= d <= t.rttVar + 3 && (e.rttVar >= d ==> t.rttVar == d)
  {
    StillForever(samples, s, n, m);
    RunVaries(samples, s, n, m);
    VariationSettles(Repeated(samples, s, n).rttVar, Repeated(samples, s, n).smoothedRtt, Steady(samples, s), m);
  }

  // ----- The agent's fields

  class RttAgent {
    var minRtt: uint64
    var latestRtt: uint64
    var smoothedRtt: uint64
    var rttVar: uint64
    var maxAckDelay: uint64

    ghost function Current(): Estimate
      reads this
    {
      Estimate(minRtt, latestRtt, smoothedRtt, rttVar, maxAckDelay)
    }

    constructor ()
      ensures Current() == START
    {
      minRtt := MAX_UINT64;
      latestRtt, smoothedRtt, rttVar, maxAckDelay := 0, 0, 0, 0;
    }

    /** UpdateRTT, after the raw sample has been stored in latestRtt. */
    method UpdateRtt(ackDelay: uint64, ackOnly: bool)
      modifies this
      ensures Current() == Update(old(Current()), Sample(old(latestRtt), ackDelay, ackOnly))
    {
      hide Smooth, Vary;
      if latestRtt < minRtt {
        minRtt := latestRtt;
      }
      if latestRtt - minRtt > ackDelay {
        latestRtt := latestRtt - ackDelay;
      }
      if !ackOnly && ackDelay > maxAckDelay {
        maxAckDelay := ackDelay;
      }
      UpdateAverages();
    }

    method UpdateAverages()
      modifies `smoothedRtt, `rttVar
      ensures smoothedRtt == Smooth(old(smoothedRtt), latestRtt) && rttVar == Vary(old(rttVar), old(smoothedRtt), latestRtt)
    {
      if smoothedRtt == 0 {
        smoothedRtt := latestRtt;
        rttVar := latestRtt / 2;
      } else {
        var rttVarSample := if smoothedRtt < latestRtt then latestRtt - smoothedRtt else smoothedRtt - latestRtt;
        rttVar := (3 * rttVar + rttVarSample) / 4;
        smoothedRtt := (7 * smoothedRtt + latestRtt) / 8;
      }
    }

    /** A sample is measured. */
    method OnSample(s: Sample)
      modifies this
      ensures Current() == Update(old(Current()), s)
    {
      latestRtt := s.raw;
      UpdateRtt(s.ackDelay, s.ackOnly);
    }
  }

  /** A whole run of the agent. */
  method Measure(samples: seq<Sample>) returns (agent: RttAgent)
    ensures fresh(agent) && agent.Current() == After(samples)
  {
    agent := new RttAgent();
    for i := 0 to |samples|
      invariant fresh(agent) && agent.Current() == After(samples[..i])
    {
      assert samples[..i + 1][..i] == samples[..i];
      agent.OnSample(samples[i]);
    }
    assert samples[..|samples|] == samples;
  }
}
