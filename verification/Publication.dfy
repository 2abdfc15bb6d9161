/** Solving and publishing: clusters of one transmission and the gates before a fix (crates/mlatd/src/state.rs). */
module Clusters {
  import opened Common

  /** A converted entry: the receiver's slot and its time on the reference clock. */
  datatype Entry = Entry(rx: nat, t: real)

  /** The widest cluster, in seconds. */
  const SPAN: real := 0.0025

  datatype Range = Range(from: nat, to: nat)

  predicate Sorted(conv: seq<Entry>) {
    forall i, j :: 0 <= i <= j < |conv| ==> conv[i].t <= conv[j].t
  }

  /** Nonempty runs that follow one another from 0 to n. */
  predicate Partitions(cs: seq<Range>, n: nat) {
    && (forall c :: 0 <= c < |cs| ==> cs[c].from < cs[c].to)
    && (forall c :: 0 <= c < |cs| - 1 ==> cs[c].to == cs[c + 1].from)
    && (if cs == [] then n == 0 else cs[0].from == 0 && cs[|cs| - 1].to == n)
  }

  /** Each run fits the span, and the next one starts beyond it. */
  predicate Greedy(conv: seq<Entry>, cs: seq<Range>) {
    && (forall c :: 0 <= c < |cs| ==> cs[c].from < cs[c].to <= |conv|)
    && (forall c, i :: 0 <= c < |cs| && cs[c].from <= i < cs[c].to ==> conv[i].t - conv[cs[c].from].t <= SPAN)
    && (forall c :: 0 <= c < |cs| - 1 ==> conv[cs[c + 1].from].t - conv[cs[c].from].t > SPAN)
  }

  lemma PartitionAppends(cs: seq<Range>, i: nat, j: nat)
    requires Partitions(cs, i) && i < j
    ensures Partitions(cs + [Range(i, j)], j)
  {
  }

  lemma GreedyAppends(conv: seq<Entry>, cs: seq<Range>, i: nat, j: nat)
    requires Greedy(conv, cs) && i < j <= |conv|
    requires cs != [] ==> conv[i].t - conv[cs[|cs| - 1].from].t > SPAN
    requires forall k :: i <= k < j ==> conv[k].t - conv[i].t <= SPAN
    ensures Greedy(conv, cs + [Range(i, j)])
  {
    var next := cs + [Range(i, j)];
    forall c, k | 0 <= c < |next| && next[c].from <= k < next[c].to
      ensures conv[k].t - conv[next[c].from].t <= SPAN
    {
      if c < |cs| {
        assert next[c] == cs[c];
      }
    }
    forall c | 0 <= c < |next| - 1
      ensures conv[next[c + 1].from].t - conv[next[c].from].t > SPAN
    {
      assert next[c] == cs[c] && (c + 1 < |cs| ==> next[c + 1] == cs[c + 1]);
    }
  }

  method FindClusters(conv: seq<Entry>) returns (cs: seq<Range>)
    requires Sorted(conv)
    ensures Partitions(cs, |conv|) && Greedy(conv, cs)
  {
    cs := [];
    var i := 0;
    while i < |conv|
      invariant 0 <= i <= |conv|
      invariant Partitions(cs, i) && Greedy(conv, cs)
      invariant cs != [] && i < |conv| ==> conv[i].t - conv[cs[|cs| - 1].from].t > SPAN
    {
      var start := conv[i].t;
      var j := i;
      while j < |conv| && conv[j].t - start <= SPAN
        invariant i <= j <= |conv|
        invariant forall k :: i <= k < j ==> conv[k].t - start <= SPAN
      {
        j := j + 1;
      }
      assert j > i;
      PartitionAppends(cs, i, j);
      GreedyAppends(conv, cs, i, j);
      hide Partitions, Greedy;
      cs := cs + [Range(i, j)];
      i := j;
    }
  }

  // ---------------------------------------------------------------- no assignment needs fewer groups

  /** A group number below k for every entry, such that each group spans at most 2.5 ms. */
  predicate Assignment(conv: seq<Entry>, group: seq<nat>, k: nat) {
    && |group| == |conv|
    && (forall i :: 0 <= i < |group| ==> group[i] < k)
    && (forall i, j :: 0 <= i < |conv| && 0 <= j < |conv| && group[i] == group[j] ==> conv[j].t - conv[i].t <= 0.0025)
  }

  lemma {:induction false} StartsAreFar(conv: seq<Entry>, cs: seq<Range>, c: nat, d: nat)
    requires Sorted(conv) && Partitions(cs, |conv|) && Greedy(conv, cs) && c < d < |cs|
    ensures conv[cs[d].from].t - conv[cs[c].from].t > SPAN
    decreases d - c
  {
    if c + 1 < d {
      StartsAreFar(conv, cs, c, d - 1);
      assert cs[d - 1].to == cs[d - 1 + 1].from;
    }
  }

  lemma {:induction false} Pigeonhole(ids: seq<nat>, k: nat)
    requires Distinct(ids) && forall i :: 0 <= i < |ids| ==> ids[i] < k
    ensures |ids| <= k
  {
    var used := set i | 0 <= i < |ids| :: ids[i];
    DistinctSize(ids, used);
    assert used <= Below(k);
    SubsetSize(used, Below(k));
  }

  lemma {:induction false} DistinctSize(ids: seq<nat>, used: set<nat>)
    requires Distinct(ids) && forall x :: x in used <==> x in ids
    ensures |used| == |ids|
    decreases |ids|
  {
    if ids == [] {
      assert used == {};
    } else {
      var last, rest := ids[|ids| - 1], ids[..|ids| - 1];
      assert ids == rest + [last];
      DistinctSize(rest, used - {last});
    }
  }

  /** Any two entries of one cluster are within 2.5 ms of each other, and the next cluster starts later than that. */
  lemma ClustersFit(conv: seq<Entry>, cs: seq<Range>, c: nat, i: nat, j: nat)
    requires Sorted(conv) && Partitions(cs, |conv|) && Greedy(conv, cs) && c < |cs|
    requires cs[c].from <= i < cs[c].to && cs[c].from <= j < cs[c].to
    ensures -0.0025 <= conv[j].t - conv[i].t <= 0.0025
    ensures c + 1 < |cs| ==> conv[cs[c + 1].from].t - conv[cs[c].from].t > 0.0025
  {
    assert conv[i].t - conv[cs[c].from].t <= SPAN && conv[j].t - conv[cs[c].from].t <= SPAN;
    assert conv[cs[c].from].t <= conv[i].t && conv[cs[c].from].t <= conv[j].t;
  }

  /** No way of grouping the entries into spans of 2.5 ms uses fewer groups than the clusters found. */
  lemma ClustersAreFewest(conv: seq<Entry>, cs: seq<Range>, group: seq<nat>, k: nat)
    requires Sorted(conv) && Partitions(cs, |conv|) && Greedy(conv, cs) && Assignment(conv, group, k)
    ensures |cs| <= k
  {
    var ids := seq(|cs|, c requires 0 <= c < |cs| => group[cs[c].from]);
    forall c, d | 0 <= c < d < |ids|
      ensures ids[c] != ids[d]
    {
      StartsAreFar(conv, cs, c, d);
    }
    Pigeonhole(ids, k);
  }

  lemma {:induction false} RangesCover(cs: seq<Range>, n: nat, i: nat) returns (c: nat)
    requires Partitions(cs, n) && i < n
    ensures c < |cs| && cs[c].from <= i < cs[c].to
    ensures forall d :: 0 <= d < |cs| && cs[d].from <= i < cs[d].to ==> d == c
    decreases |cs|
  {
    var last := |cs| - 1;
    forall d | 0 <= d < last
      ensures cs[d].to <= cs[last].from
    {
      EndsBefore(cs, n, d, last);
    }
    if cs[last].from <= i {
      c := last;
    } else {
      assert last > 0 && cs[last - 1].to == cs[last - 1 + 1].from;
      c := RangesCover(cs[..last], cs[last].from, i);
      forall d | 0 <= d < |cs| && cs[d].from <= i < cs[d].to
        ensures d == c
      {
        assert d < last && cs[..last][d] == cs[d];
      }
    }
  }

  lemma {:induction false} EndsBefore(cs: seq<Range>, n: nat, c: nat, d: nat)
    requires Partitions(cs, n) && c < d < |cs|
    ensures cs[c].to <= cs[d].from
    decreases d - c
  {
    assert cs[d - 1].to == cs[d - 1 + 1].from;
    if c < d - 1 {
      EndsBefore(cs, n, c, d - 1);
    }
  }
}

/** The publication state of each aircraft. */
module Publication {
  import opened Common

  datatype Geodetic = Geodetic(lat: real, lon: real, alt: real)

  /** A solver result; the solver itself is arbitrary. */
  datatype Solution = Solution(pos: Geodetic, err: real)

  datatype Track = Track(lastPos: Option<Geodetic>, lastTime: real, lastAttempt: real, speedRejects: nat)

  const NEW_TRACK: Track := Track(None, 0.0, 0.0, 0)

  /** One cluster with at least four receivers: how many, what is known of the aircraft, and what the solver says. */
  datatype Attempt = Attempt(now: real, receivers: nat, altitude: bool, df17: bool, solution: Option<Solution>)

  datatype Outcome =
    BackedOff | ZeroRedundancy | NoAltitude | Unsolved | Vague | Throttled | TooFast | SelfTruth | Published

  /** More than 400 m/s against a fix between 0.05 and 30 s old; dist is the distance over ground. */
  predicate Outruns(dist: (Geodetic, Geodetic) -> real, t: Track, sol: Solution, elapsed: real) {
    t.lastPos.Some? && elapsed < 30.0 && elapsed > 0.05 && dist(sol.pos, t.lastPos.value) / elapsed > 400.0
  }

  function Judge(dist: (Geodetic, Geodetic) -> real, t: Track, a: Attempt): Outcome {
    if a.now - t.lastAttempt < 0.4 then BackedOff
    else if a.receivers == 4 && a.now - t.lastTime < 30.0 then ZeroRedundancy
    else if !a.altitude then NoAltitude
    else
      match a.solution
      case None => Unsolved
      case Some(sol) =>
        var elapsed := a.now - t.lastTime;
        if sol.err > 10_000.0 then Vague
        else if t.lastPos.Some? && elapsed / 20.0 < sol.err / 1_500.0 then Throttled
        else if Outruns(dist, t, sol, elapsed) then TooFast
        else if a.df17 then SelfTruth
        else Published
  }

  /** The outcomes counted as rejections: not those that come before the solver could, nor a self-truth score. */
  predicate Rejects(outcome: Outcome) {
    outcome in {ZeroRedundancy, Unsolved, Vague, Throttled, TooFast}
  }

  function Judged(dist: (Geodetic, Geodetic) -> real, t: Track, a: Attempt): Track {
    match Judge(dist, t, a)
    case BackedOff => t
    case ZeroRedundancy => t
    case NoAltitude => t
    case Published => Track(Some(a.solution.value.pos), a.now, a.now, 0)
    case TooFast =>
      if t.speedRejects + 1 >= 5 then Track(None, t.lastTime, a.now, 0)
      else t.(lastAttempt := a.now, speedRejects := t.speedRejects + 1)
    case _ => t.(lastAttempt := a.now)
  }

  class Publisher {
    const dist: (Geodetic, Geodetic) -> real
    var tracks: map<nat, Track>
    var solved: nat
    var rejected: nat

    constructor (dist: (Geodetic, Geodetic) -> real)
      ensures this.dist == dist && tracks == map[] && solved == 0 && rejected == 0
    {
      this.dist := dist;
      tracks := map[];
      solved, rejected := 0, 0;
    }

    function TrackOf(icao: nat): Track
      reads this
    {
      if icao in tracks then tracks[icao] else NEW_TRACK
    }

    method SolveCluster(icao: nat, a: Attempt) returns (fix: Option<Solution>)
      modifies this
      ensures tracks == old(tracks)[icao := Judged(dist, old(TrackOf(icao)), a)]
      ensures var outcome := Judge(dist, old(TrackOf(icao)), a);
              && fix == (if outcome == Published then a.solution else None)
              && rejected == old(rejected) + (if Rejects(outcome) then 1 else 0)
      ensures solved == old(solved) + (if fix.Some? then 1 else 0)
    {
      fix := None;
      if icao !in tracks {
        tracks := tracks[icao := NEW_TRACK];
      }
      var track := tracks[icao];
      if a.now - track.lastAttempt < 0.4 {
        return;
      }
      if a.receivers == 4 && a.now - track.lastTime < 30.0 {
        rejected := rejected + 1;
        return;
      }
      if !a.altitude {
        return;
      }
      tracks := tracks[icao := tracks[icao].(lastAttempt := a.now)];
      match a.solution {
        case None => rejected := rejected + 1;
        case Some(sol) =>
          if sol.err > 10_000.0 {
            rejected := rejected + 1;
            return;
          }
          var elapsed := a.now - track.lastTime;
          if track.lastPos.Some? && elapsed / 20.0 < sol.err / 1_500.0 {
            rejected := rejected + 1;
            return;
          }
          if track.lastPos.Some? {
            if elapsed < 30.0 && elapsed > 0.05 && dist(sol.pos, track.lastPos.value) / elapsed > 400.0 {
              tracks := tracks[icao := tracks[icao].(speedRejects := tracks[icao].speedRejects + 1)];
              if tracks[icao].speedRejects >= 5 {
                tracks := tracks[icao := tracks[icao].(lastPos := None, speedRejects := 0)];
              }
              rejected := rejected + 1;
              return;
            }
          }
          if a.df17 {
            return;
          }
          solved := solved + 1;
          tracks := tracks[icao := tracks[icao].(lastPos := Some(sol.pos), lastTime := a.now, speedRejects := 0)];
          fix := Some(sol);
      }
    }
  }

  // ---------------------------------------------------------------- one aircraft's history

  function TrackAfter(dist: (Geodetic, Geodetic) -> real, attempts: seq<Attempt>): Track {
    if attempts == [] then NEW_TRACK
    else Judged(dist, TrackAfter(dist, attempts[..|attempts| - 1]), attempts[|attempts| - 1])
  }

  function OutcomeOf(dist: (Geodetic, Geodetic) -> real, attempts: seq<Attempt>, i: nat): Outcome
    requires i < |attempts|
  {
    Judge(dist, TrackAfter(dist, attempts[..i]), attempts[i])
  }

  datatype Fix = Fix(pos: Geodetic, at: real)

  /** The latest published fix, the speed rejections since then, and when the solver was last tried. */
  datatype History = History(fix: Option<Fix>, leaps: nat, tried: real)

  const NO_HISTORY: History := History(None, 0, 0.0)

  /** There is a fix, and fewer than five speed rejections have come since. */
  predicate Trusted(h: History) {
    h.fix.Some? && h.leaps < 5
  }

  /** Seconds since the latest fix, or since time zero when there is none. */
  function Quiet(h: History, now: real): real {
    now - match h.fix case None => 0.0 case Some(f) => f.at
  }

  /** The solver was last tried 0.4 s ago or longer, four receivers come after 30 s of quiet, the altitude is known. */
  predicate Tries(h: History, a: Attempt) {
    a.now - h.tried >= 0.4 && (a.receivers == 4 ==> Quiet(h, a.now) >= 30.0) && a.altitude
  }

  predicate Sharp(a: Attempt) {
    a.solution.Some? && a.solution.value.err <= 10_000.0
  }

  /** At most 75 m of estimated error for every second since a trusted fix. */
  predicate Paced(h: History, a: Attempt)
    requires a.solution.Some?
  {
    Trusted(h) ==> a.solution.value.err <= 75.0 * Quiet(h, a.now)
  }

  /** More than 400 m/s from a trusted fix that is between 0.05 and 30 s old. */
  predicate Leaps(dist: (Geodetic, Geodetic) -> real, h: History, a: Attempt)
    requires a.solution.Some?
  {
    && Trusted(h)
    && 0.05 < Quiet(h, a.now) < 30.0
    && dist(a.solution.value.pos, h.fix.value.pos) > 400.0 * Quiet(h, a.now)
  }

  /** The history of all attempts, by these conditions alone. */
  function Recall(dist: (Geodetic, Geodetic) -> real, attempts: seq<Attempt>): History {
    if attempts == [] then NO_HISTORY
    else
      var h, a := Recall(dist, attempts[..|attempts| - 1]), attempts[|attempts| - 1];
      if !Tries(h, a) then h
      else if !Sharp(a) || !Paced(h, a) then h.(tried := a.now)
      else if Leaps(dist, h, a) then History(h.fix, h.leaps + 1, a.now)
      else if a.df17 then h.(tried := a.now)
      else History(Some(Fix(a.solution.value.pos, a.now)), 0, a.now)
  }

  /** What a track remembers of its history: from the fifth speed rejection on, no position and no rejection. */
  predicate Remembers(t: Track, h: History) {
    && h.leaps <= 5
    && t.lastAttempt == h.tried
    && (match h.fix
        case None => t.lastPos == None && t.lastTime == 0.0 && t.speedRejects == 0 && h.leaps == 0
        case Some(f) =>
          && t.lastTime == f.at <= h.tried
          && (if h.leaps < 5 then t.lastPos == Some(f.pos) && t.speedRejects == h.leaps
              else t.lastPos == None && t.speedRejects == 0))
  }

  lemma SpeedBound(d: real, elapsed: real)
    requires elapsed > 0.0
    ensures d / elapsed > 400.0 <==> d > 400.0 * elapsed
  {
    var v := d / elapsed;
    assert v * elapsed == d;
    if v > 400.0 {
      assert (v - 400.0) * elapsed > 0.0;
    } else {
      assert (400.0 - v) * elapsed >= 0.0;
    }
  }

  lemma OutrunsIff(dist: (Geodetic, Geodetic) -> real, t: Track, sol: Solution, elapsed: real)
    requires t.lastPos.Some?
    ensures Outruns(dist, t, sol, elapsed) <==>
              0.05 < elapsed < 30.0 && dist(sol.pos, t.lastPos.value) > 400.0 * elapsed
  {
    if elapsed > 0.05 {
      SpeedBound(dist(sol.pos, t.lastPos.value), elapsed);
    }
  }

  /**
   * The reject counter counts the speed rejections since the last published fix, consecutive or not; there are never
   * more than five, and at the fifth the track forgets its position.
   */
  lemma {:induction false} TrackRemembersItsHistory(dist: (Geodetic, Geodetic) -> real, attempts: seq<Attempt>)
    ensures Remembers(TrackAfter(dist, attempts), Recall(dist, attempts))
    decreases |attempts|, 0
  {
    if attempts != [] {
      var before, a := attempts[..|attempts| - 1], attempts[|attempts| - 1];
      OutcomesIff(dist, before, a);
      TrackRemembersItsHistory(dist, before);
      hide Judge, Paced, Leaps;
    }
  }

  /** After every history each outcome of the next attempt has its own exact condition. */
  lemma OutcomesIff(dist: (Geodetic, Geodetic) -> real, attempts: seq<Attempt>, a: Attempt)
    ensures var outcome, h := Judge(dist, TrackAfter(dist, attempts), a), Recall(dist, attempts);
            && (outcome == BackedOff <==> a.now - h.tried < 0.4)
            && (outcome == ZeroRedundancy <==>
                  a.now - h.tried >= 0.4 && a.receivers == 4 && Quiet(h, a.now) < 30.0)
            && (outcome == NoAltitude <==>
                  a.now - h.tried >= 0.4 && (a.receivers == 4 ==> Quiet(h, a.now) >= 30.0) && !a.altitude)
            && (outcome == Unsolved <==> Tries(h, a) && a.solution == None)
            && (outcome == Vague <==> Tries(h, a) && a.solution.Some? && a.solution.value.err > 10_000.0)
            && (outcome == Throttled <==> Tries(h, a) && Sharp(a) && !Paced(h, a))
            && (outcome == TooFast <==> Tries(h, a) && Sharp(a) && Paced(h, a) && Leaps(dist, h, a))
            && (outcome == SelfTruth <==> Tries(h, a) && Sharp(a) && Paced(h, a) && !Leaps(dist, h, a) && a.df17)
            && (outcome == Published <==> Tries(h, a) && Sharp(a) && Paced(h, a) && !Leaps(dist, h, a) && !a.df17)
    decreases |attempts|, 1
  {
    TrackRemembersItsHistory(dist, attempts);
    var t, h := TrackAfter(dist, attempts), Recall(dist, attempts);
    hide TrackAfter, Recall;
    if t.lastPos.Some? && a.solution.Some? {
      OutrunsIff(dist, t, a.solution.value, a.now - t.lastTime);
    }
    hide Outruns;
  }

  /**
   * Over every history an attempt is a speed rejection if and only if the back-off, the redundancy, the altitude and
   * the error gates are open, the throttle passes, and the solution is more than 400 m/s away from a fix between 0.05
   * and 30 s old that five speed rejections have not discredited.
   */
  lemma TooFastIff(dist: (Geodetic, Geodetic) -> real, attempts: seq<Attempt>, a: Attempt)
    ensures var h := Recall(dist, attempts);
            Judge(dist, TrackAfter(dist, attempts), a) == TooFast <==>
              && a.now - h.tried >= 0.4 && a.altitude
              && a.solution.Some? && a.solution.value.err <= 10_000.0
              && h.fix.Some? && h.leaps < 5
              && var elapsed := a.now - h.fix.value.at;
              && a.receivers != 4
              && elapsed / 20.0 >= a.solution.value.err / 1_500.0
              && 0.05 < elapsed < 30.0
              && dist(a.solution.value.pos, h.fix.value.pos) > 400.0 * elapsed
  {
    OutcomesIff(dist, attempts, a);
    hide Judge, TrackAfter, Recall;
  }

  /**
   * Over every history an attempt counts as a rejection if and only if it comes after the back-off and either has four
   * receivers too soon, or reaches the solver and passes neither as a fix nor for self-truth.
   */
  lemma RejectsIff(dist: (Geodetic, Geodetic) -> real, attempts: seq<Attempt>, a: Attempt)
    ensures var h := Recall(dist, attempts);
            Rejects(Judge(dist, TrackAfter(dist, attempts), a)) <==>
              && a.now - h.tried >= 0.4
              && ((a.receivers == 4 && Quiet(h, a.now) < 30.0)
                  || (a.altitude && !(Sharp(a) && Paced(h, a) && !Leaps(dist, h, a))))
  {
    OutcomesIff(dist, attempts, a);
    hide Judge, TrackAfter, Recall, Paced, Leaps;
  }

  /**
   * Between consecutive published fixes of one aircraft, whatever the solver returns: at least 0.4 s, at least 30 s for
   * a four-receiver fix, and the accuracy throttle and the speed bound both hold unless five speed rejections came
   * between.
   */
  lemma PublishedFixesAreApart(dist: (Geodetic, Geodetic) -> real, attempts: seq<Attempt>, a: Attempt)
    requires Judge(dist, TrackAfter(dist, attempts), a) == Published
    ensures a.altitude && !a.df17 && a.solution.Some? && a.solution.value.err <= 10_000.0
    ensures var h := Recall(dist, attempts);
            h.fix.Some? ==>
              var elapsed := a.now - h.fix.value.at;
              && elapsed >= 0.4
              && (a.receivers == 4 ==> elapsed >= 30.0)
              && (h.leaps == 5
                  || (elapsed / 20.0 >= a.solution.value.err / 1_500.0
                      && (elapsed >= 30.0 || dist(a.solution.value.pos, h.fix.value.pos) <= 400.0 * elapsed)))
  {
    PublishedIff(dist, attempts, a);
    TrackRemembersItsHistory(dist, attempts);
    hide Judge, TrackAfter, Recall;
  }

  /** Accuracy and speed of a solution against an earlier fix. */
  predicate Consistent(dist: (Geodetic, Geodetic) -> real, fix: Fix, sol: Solution, now: real) {
    var elapsed := now - fix.at;
    && elapsed / 20.0 >= sol.err / 1_500.0
    && (elapsed >= 30.0 || dist(sol.pos, fix.pos) <= 400.0 * elapsed)
  }

  /**
   * Over every history an attempt is published if and only if the solver was last tried 0.4 s ago or longer, four
   * receivers come after 30 s without a fix, the altitude is known, the frames are not ADS-B, the solution is precise,
   * and it is consistent with the latest fix, if there is one that five speed rejections have not discredited.
   */
  lemma PublishedIff(dist: (Geodetic, Geodetic) -> real, attempts: seq<Attempt>, a: Attempt)
    ensures var h := Recall(dist, attempts);
            Judge(dist, TrackAfter(dist, attempts), a) == Published <==>
              && a.now - h.tried >= 0.4
              && (a.receivers == 4 ==> a.now - (if h.fix.Some? then h.fix.value.at else 0.0) >= 30.0)
              && a.altitude && !a.df17 && a.solution.Some? && a.solution.value.err <= 10_000.0
              && (h.fix.Some? && h.leaps < 5 ==> Consistent(dist, h.fix.value, a.solution.value, a.now))
  {
    OutcomesIff(dist, attempts, a);
    TrackRemembersItsHistory(dist, attempts);
    hide Judge, TrackAfter, Recall;
  }

  /** The counted speed rejections need not be consecutive: here an unsolved attempt comes between two of them. */
  lemma RejectionsWithAGap(dist: (Geodetic, Geodetic) -> real, near: Geodetic, far: Geodetic)
    requires dist(far, near) > 1200.0
    ensures var fix := Attempt(100.0, 5, true, false, Some(Solution(near, 0.0)));
            var leap := Attempt(101.0, 5, true, false, Some(Solution(far, 0.0)));
            var run := [fix, leap, leap.(now := 102.0, solution := None), leap.(now := 103.0)];
            && OutcomeOf(dist, run, 1) == TooFast && OutcomeOf(dist, run, 2) == Unsolved
            && OutcomeOf(dist, run, 3) == TooFast && TrackAfter(dist, run).speedRejects == 2
  {
    var fix := Attempt(100.0, 5, true, false, Some(Solution(near, 0.0)));
    var leap := Attempt(101.0, 5, true, false, Some(Solution(far, 0.0)));
    var run := [fix, leap, leap.(now := 102.0, solution := None), leap.(now := 103.0)];
    SpeedBound(dist(far, near), 1.0);
    SpeedBound(dist(far, near), 3.0);
    TrackNext(dist, run, 0);
    TrackNext(dist, run, 1);
    TrackNext(dist, run, 2);
    TrackNext(dist, run, 3);
    assert run[..0] == [] && run[..4] == run;
  }

  lemma TrackNext(dist: (Geodetic, Geodetic) -> real, attempts: seq<Attempt>, i: nat)
    requires i < |attempts|
    ensures TrackAfter(dist, attempts[..i + 1]) == Judged(dist, TrackAfter(dist, attempts[..i]), attempts[i])
  {
    assert attempts[..i + 1][..i] == attempts[..i];
  }

  // ---------------------------------------------------------------- aircraft are independent

  datatype Job = Job(icao: nat, attempt: Attempt)

  function TableAfter(dist: (Geodetic, Geodetic) -> real, jobs: seq<Job>): map<nat, Track> {
    if jobs == [] then map[]
    else
      var before, job := TableAfter(dist, jobs[..|jobs| - 1]), jobs[|jobs| - 1];
      before[job.icao := Judged(dist, if job.icao in before then before[job.icao] else NEW_TRACK, job.attempt)]
  }

  function Own(jobs: seq<Job>, icao: nat): seq<Attempt> {
    if jobs == [] then []
    else
      var job := jobs[|jobs| - 1];
      Own(jobs[..|jobs| - 1], icao) + if job.icao == icao then [job.attempt] else []
  }

  /** An aircraft's track depends on its own attempts only. */
  lemma {:induction false} TracksAreIndependent(dist: (Geodetic, Geodetic) -> real, jobs: seq<Job>, icao: nat)
    ensures var tracks := TableAfter(dist, jobs);
            (if icao in tracks then tracks[icao] else NEW_TRACK) == TrackAfter(dist, Own(jobs, icao))
    decreases |jobs|
  {
    if jobs != [] {
      var before, job := jobs[..|jobs| - 1], jobs[|jobs| - 1];
      TracksAreIndependent(dist, before, icao);
      hide Judged;
      if job.icao == icao {
        var own := Own(before, icao);
        assert (own + [job.attempt])[..|own|] == own;
      } else {
        assert Own(before, icao) + [] == Own(before, icao);
      }
    }
  }
}
