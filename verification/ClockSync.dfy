/** Pairwise clock model (crates/mlatd/src/clocksync.rs), with exact reals for the source's floats. */
module ClockSync {
  import opened Common

  /** One shared event: its time on the from-clock and on the to-clock. */
  datatype Observation = Observation(a: real, b: real)

  /** The model's fields. */
  datatype Fit = Fit(w: real, ma: real, mb: real, caa: real, cab: real, msq: real, rejects: nat, total: nat)

  const DEFAULT_FIT: Fit := Fit(0.0, 0.0, 0.0, 0.0, 0.0, 0.0, 0, 0)

  // ---------------------------------------------------------------- specification of one update

  function Max(x: real, y: real): real {
    if x >= y then x else y
  }

  /** At least 8 effective observations over an effective spread of 5/4 s. */
  predicate Usable(m: Fit) {
    m.w >= 8.0 && m.caa / Max(m.w, 1.0) >= 1.5625
  }

  function Slope(m: Fit): real {
    if m.caa > 0.0 then m.cab / m.caa else 1.0
  }

  function Predict(m: Fit, t: real): real {
    m.mb + Slope(m) * (t - m.ma)
  }

  function Residual(m: Fit, o: Observation): real {
    o.b - Predict(m, o.a)
  }

  /** |r| > max(4 sigma, 1e-6), with sigma^2 == msq, stated on squares. */
  predicate BeyondGate(r: real, msq: real) {
    r * r > 16.0 * msq && r * r > 0.000000000001
  }

  predicate OutOfGate(m: Fit, o: Observation) {
    Usable(m) && BeyondGate(Residual(m, o), m.msq)
  }

  /** The prediction error of the line through the means, its slope 1 until the readings spread. */
  function Miss(m: Fit, o: Observation): real {
    o.b - (m.mb + (if m.caa > 0.0 then m.cab / m.caa else 1.0) * (o.a - m.ma))
  }

  function SquareOf(r: real): real {
    r * r
  }

  /** Eight effective observations, spread over a variance of 25/16 s^2 or more. */
  predicate Ready(m: Fit) {
    m.w >= 8.0 && 16.0 * m.caa >= 25.0 * m.w
  }

  /** What a pair model takes in: anything while young, later what misses by 4 sigma or a microsecond at most. */
  predicate Accepts(m: Fit, o: Observation) {
    !Ready(m) || Miss(m, o) * Miss(m, o) <= 16.0 * m.msq || -0.000001 <= Miss(m, o) <= 0.000001
  }

  lemma Within(r: real)
    ensures r * r > 0.000000000001 <==> !(-0.000001 <= r <= 0.000001)
  {
    if r > 0.000001 {
      assert (r - 0.000001) * (r + 0.000001) > 0.0;
    } else if r < -0.000001 {
      assert (-r - 0.000001) * (-r + 0.000001) > 0.0;
    } else {
      assert (0.000001 - r) * (0.000001 + r) >= 0.0;
    }
  }

  lemma ReadyIff(m: Fit)
    ensures Usable(m) <==> Ready(m)
  {
    if m.w >= 8.0 {
      var v := m.caa / m.w;
      assert v * m.w == m.caa;
      assert Usable(m) <==> v >= 1.5625;
      AtLeast(v, 1.5625, m.w);
      assert v * m.w >= 1.5625 * m.w <==> 16.0 * m.caa >= 25.0 * m.w;
    }
  }

  lemma AtLeast(v: real, bound: real, w: real)
    requires w > 0.0
    ensures v >= bound <==> v * w >= bound * w
  {
    if v >= bound {
      assert (v - bound) * w >= 0.0;
    } else {
      assert (bound - v) * w > 0.0;
    }
  }

  /** The gate lets an observation pass if and only if the model accepts it. */
  lemma AcceptedIff(m: Fit, o: Observation)
    ensures OutOfGate(m, o) <==> !Accepts(m, o)
  {
    ReadyIff(m);
    assert Residual(m, o) == Miss(m, o);
    hide Usable, Ready, Residual, Miss, BeyondGate;
    GateIff(Miss(m, o), m.msq);
  }

  lemma GateIff(r: real, msq: real)
    ensures BeyondGate(r, msq) <==> !(r * r <= 16.0 * msq || -0.000001 <= r <= 0.000001)
  {
    Within(r);
  }

  /** The residual variance, moved towards the newest squared residual. */
  function Tracked(msq: real, r: real): real {
    msq + (1.0 - 0.9967) * (r * r - msq)
  }

  /** A mean moved by its share of the difference d. */
  function Moved(mean: real, d: real, w: real): real
    requires w > 0.0
  {
    mean + 1.0 / w * d
  }

  /** A central sum, decayed, with the cross term of the newest observation. */
  function Joined(sum: real, d: real, e: real): real {
    sum * 0.9967 + d * e
  }

  /** The Welford-with-decay update of the centred sums. */
  function Absorb(m: Fit, o: Observation): Fit
    requires m.w >= 0.0
  {
    var w := m.w * 0.9967 + 1.0;
    var da, db := o.a - m.ma, o.b - m.mb;
    var ma, mb := Moved(m.ma, da, w), Moved(m.mb, db, w);
    m.(w := w, ma := ma, mb := mb, caa := Joined(m.caa, da, o.a - ma), cab := Joined(m.cab, da, o.b - mb),
       total := m.total + 1)
  }

  function Pushed(m: Fit, o: Observation): Fit
    requires m.w >= 0.0
  {
    if OutOfGate(m, o) then
      if m.rejects + 1 >= 8 then DEFAULT_FIT else m.(rejects := m.rejects + 1)
    else if Usable(m) then
      Absorb(m.(rejects := 0, msq := Tracked(m.msq, Residual(m, o))), o)
    else Absorb(m, o)
  }

  /** The square of the prediction's sigma: it grows while the model is young and away from the mean reading. */
  function PredictionVariance(m: Fit, t: real): real
    requires m.w > 0.0
  {
    m.msq * (1.0 + 1.0 / m.w + (t - m.ma) * (t - m.ma) / Max(m.caa, 0.000000000001))
  }

  /** A from-clock reading on the to-clock, refused when its sigma would exceed 2e-6. */
  function Convert(m: Fit, t: real): Option<real> {
    if !Usable(m) then None
    else if PredictionVariance(m, t) > 0.000000000004 then None
    else Some(Predict(m, t))
  }

  // ---------------------------------------------------------------- the batch statistics

  function Pow(e: nat): real {
    if e == 0 then 1.0 else 0.9967 * Pow(e - 1)
  }

  /** Sum of g over the first k of h, the i-th observation weighted by 0.9967^(|h|-1-i). */
  function WeightedPrefix(g: Observation -> real, h: seq<Observation>, k: nat): real
    requires k <= |h|
  {
    if k == 0 then 0.0 else WeightedPrefix(g, h, k - 1) + Pow(|h| - k) * g(h[k - 1])
  }

  function Weighted(g: Observation -> real, h: seq<Observation>): real {
    WeightedPrefix(g, h, |h|)
  }

  function One(): Observation -> real {
    (o: Observation) => 1.0
  }

  function ReadingA(): Observation -> real {
    (o: Observation) => o.a
  }

  function ReadingB(): Observation -> real {
    (o: Observation) => o.b
  }

  function SquaredDeviation(ma: real): Observation -> real {
    (o: Observation) => (o.a - ma) * (o.a - ma)
  }

  function CrossDeviation(ma: real, mb: real): Observation -> real {
    (o: Observation) => (o.a - ma) * (o.b - mb)
  }

  function SquaredMiss(alpha: real, beta: real): Observation -> real {
    (o: Observation) => (o.b - alpha - beta * o.a) * (o.b - alpha - beta * o.a)
  }

  /** The fields are the weighted count, means and central sums of h. */
  predicate Summarises(m: Fit, h: seq<Observation>) {
    && m.w == Weighted(One(), h)
    && m.w * m.ma == Weighted(ReadingA(), h)
    && m.w * m.mb == Weighted(ReadingB(), h)
    && m.caa == Weighted(SquaredDeviation(m.ma), h)
    && m.cab == Weighted(CrossDeviation(m.ma, m.mb), h)
  }

  /** The weighted squared error of the line b == alpha + beta * a. */
  function SquaredError(h: seq<Observation>, alpha: real, beta: real): real {
    Weighted(SquaredMiss(alpha, beta), h)
  }

  // ---------------------------------------------------------------- the model

  class PairModel {
    var w: real
    var ma: real
    var mb: real
    var caa: real
    var cab: real
    var msq: real
    var rejects: nat
    var total: nat

    function Value(): Fit
      reads this
    {
      Fit(w, ma, mb, caa, cab, msq, rejects, total)
    }

    constructor ()
      ensures Value() == DEFAULT_FIT
    {
      w, ma, mb, caa, cab, msq := 0.0, 0.0, 0.0, 0.0, 0.0, 0.0;
      rejects, total := 0, 0;
    }

    method Push(tFrom: real, tTo: real) returns (accepted: bool)
      requires w >= 0.0
      modifies this
      ensures Value() == old(Pushed(Value(), Observation(tFrom, tTo)))
      ensures accepted == old(Accepts(Value(), Observation(tFrom, tTo)))
    {
      AcceptedIff(Value(), Observation(tFrom, tTo));
      hide Predict, Usable, BeyondGate, Tracked, Moved, Joined;
      if Usable(Value()) {
        var r := tTo - Predict(Value(), tFrom);
        if BeyondGate(r, msq) {
          rejects := rejects + 1;
          if rejects >= 8 {
            w, ma, mb, caa, cab, msq := 0.0, 0.0, 0.0, 0.0, 0.0, 0.0;
            rejects, total := 0, 0;
          }
          return false;
        }
        rejects := 0;
        msq := Tracked(msq, r);
      }
      w := w * 0.9967 + 1.0;
      var da := tFrom - ma;
      var db := tTo - mb;
      ma := Moved(ma, da, w);
      mb := Moved(mb, db, w);
      caa := Joined(caa, da, tFrom - ma);
      cab := Joined(cab, da, tTo - mb);
      total := total + 1;
      return true;
    }
  }
}

/** What the constant-size model guarantees about the observations it no longer stores. */
module ClockSyncTheorems {
  import opened Common
  import opened ClockSync

  // ---------------------------------------------------------------- weighted sums

  lemma {:induction false} PrefixDecays(g: Observation -> real, h: seq<Observation>, o: Observation, k: nat)
    requires k <= |h|
    ensures WeightedPrefix(g, h + [o], k) == 0.9967 * WeightedPrefix(g, h, k)
  {
    if k > 0 {
      PrefixDecays(g, h, o, k - 1);
      assert (h + [o])[k - 1] == h[k - 1];
      assert Pow(|h| + 1 - k) * g(h[k - 1]) == 0.9967 * (Pow(|h| - k) * g(h[k - 1]));
    }
  }

  /** One more observation decays the sum of the others and joins with weight 1. */
  lemma WeightedAppend(g: Observation -> real, h: seq<Observation>, o: Observation)
    ensures Weighted(g, h + [o]) == 0.9967 * Weighted(g, h) + g(o)
  {
    PrefixDecays(g, h, o, |h|);
    assert Pow(0) == 1.0;
  }

  lemma {:induction false} PowPositive(e: nat)
    ensures Pow(e) > 0.0
  {
    if e > 0 {
      PowPositive(e - 1);
    }
  }

  lemma {:induction false} PrefixNonnegative(g: Observation -> real, h: seq<Observation>, k: nat)
    requires k <= |h| && forall o :: g(o) >= 0.0
    ensures WeightedPrefix(g, h, k) >= 0.0
  {
    if k > 0 {
      PrefixNonnegative(g, h, k - 1);
      PowPositive(|h| - k);
    }
  }

  /** A quadratic in the two readings of an observation. */
  datatype Quadratic = Quadratic(one: real, a: real, b: real, aa: real, ab: real, bb: real) {
    function At(o: Observation): real {
      one + a * o.a + b * o.b + aa * (o.a * o.a) + ab * (o.a * o.b) + bb * (o.b * o.b)
    }
  }

  /** The six weighted moments of a history. */
  datatype Moments = Moments(one: real, a: real, b: real, aa: real, ab: real, bb: real) {
    function Apply(q: Quadratic): real {
      q.one * one + q.a * a + q.b * b + q.aa * aa + q.ab * ab + q.bb * bb
    }

    function Next(o: Observation): Moments {
      Moments(0.9967 * one + 1.0, 0.9967 * a + o.a, 0.9967 * b + o.b, 0.9967 * aa + o.a * o.a,
              0.9967 * ab + o.a * o.b, 0.9967 * bb + o.b * o.b)
    }
  }

  function MomentsOf(h: seq<Observation>): Moments {
    if h == [] then Moments(0.0, 0.0, 0.0, 0.0, 0.0, 0.0)
    else MomentsOf(h[..|h| - 1]).Next(h[|h| - 1])
  }

  lemma ApplyNext(s: Moments, o: Observation, q: Quadratic)
    ensures s.Next(o).Apply(q) == 0.9967 * s.Apply(q) + q.At(o)
  {
  }

  /** A weighted sum of a quadratic is the quadratic applied to the moments. */
  lemma {:induction false} WeightedIsMoments(g: Observation -> real, q: Quadratic, h: seq<Observation>)
    requires forall o :: g(o) == q.At(o)
    ensures Weighted(g, h) == MomentsOf(h).Apply(q)
    decreases |h|
  {
    if h != [] {
      var h0, o := h[..|h| - 1], h[|h| - 1];
      assert h == h0 + [o];
      WeightedIsMoments(g, q, h0);
      WeightedAppend(g, h0, o);
      ApplyNext(MomentsOf(h0), o, q);
    }
  }

  // ---------------------------------------------------------------- the fields are the batch statistics

  /** Summarises, restated through the moments: each statistic as a polynomial in them. */
  ghost predicate Tracks(m: Fit, s: Moments) {
    && m.w == s.one && m.w * m.ma == s.a && m.w * m.mb == s.b
    && m.caa == s.aa - m.ma * s.a && m.cab == s.ab - m.ma * s.b
  }

  lemma CentralSums(s: Moments, ma: real, mb: real)
    requires s.one * ma == s.a && s.one * mb == s.b
    ensures s.Apply(Quadratic(ma * ma, -2.0 * ma, 0.0, 1.0, 0.0, 0.0)) == s.aa - ma * s.a
    ensures s.Apply(Quadratic(ma * mb, -mb, -ma, 0.0, 1.0, 0.0)) == s.ab - ma * s.b
  {
    assert ma * ma * s.one == ma * s.a;
    assert ma * mb * s.one == mb * s.a;
  }

  lemma FirstMoments(h: seq<Observation>)
    ensures Weighted(One(), h) == MomentsOf(h).one
    ensures Weighted(ReadingA(), h) == MomentsOf(h).a && Weighted(ReadingB(), h) == MomentsOf(h).b
  {
    WeightedIsMoments(One(), Quadratic(1.0, 0.0, 0.0, 0.0, 0.0, 0.0), h);
    WeightedIsMoments(ReadingA(), Quadratic(0.0, 1.0, 0.0, 0.0, 0.0, 0.0), h);
    WeightedIsMoments(ReadingB(), Quadratic(0.0, 0.0, 1.0, 0.0, 0.0, 0.0), h);
  }

  lemma SecondMoments(ma: real, mb: real, h: seq<Observation>)
    ensures Weighted(SquaredDeviation(ma), h) == MomentsOf(h).Apply(Quadratic(ma * ma, -2.0 * ma, 0.0, 1.0, 0.0, 0.0))
    ensures Weighted(CrossDeviation(ma, mb), h) == MomentsOf(h).Apply(Quadratic(ma * mb, -mb, -ma, 0.0, 1.0, 0.0))
  {
    var square, cross := Quadratic(ma * ma, -2.0 * ma, 0.0, 1.0, 0.0, 0.0), Quadratic(ma * mb, -mb, -ma, 0.0, 1.0, 0.0);
    forall o
      ensures SquaredDeviation(ma)(o) == square.At(o) && CrossDeviation(ma, mb)(o) == cross.At(o)
    {
      DeviationsAreQuadratic(ma, mb, o);
    }
    hide *;
    WeightedIsMoments(SquaredDeviation(ma), square, h);
    WeightedIsMoments(CrossDeviation(ma, mb), cross, h);
  }

  lemma DeviationsAreQuadratic(ma: real, mb: real, o: Observation)
    ensures SquaredDeviation(ma)(o) == Quadratic(ma * ma, -2.0 * ma, 0.0, 1.0, 0.0, 0.0).At(o)
    ensures CrossDeviation(ma, mb)(o) == Quadratic(ma * mb, -mb, -ma, 0.0, 1.0, 0.0).At(o)
  {
  }

  lemma StatisticsAgree(m: Fit, s: Moments, square: real, cross: real)
    requires square == s.Apply(Quadratic(m.ma * m.ma, -2.0 * m.ma, 0.0, 1.0, 0.0, 0.0))
    requires cross == s.Apply(Quadratic(m.ma * m.mb, -m.mb, -m.ma, 0.0, 1.0, 0.0))
    ensures (m.w == s.one && m.w * m.ma == s.a && m.w * m.mb == s.b && m.caa == square && m.cab == cross)
       <==> Tracks(m, s)
  {
    if m.w == s.one && m.w * m.ma == s.a && m.w * m.mb == s.b {
      CentralSums(s, m.ma, m.mb);
    }
  }

  lemma SummarisesIsTracks(m: Fit, h: seq<Observation>)
    ensures Summarises(m, h) <==> Tracks(m, MomentsOf(h))
  {
    FirstMoments(h);
    SecondMoments(m.ma, m.mb, h);
    hide Weighted, MomentsOf, Tracks;
    StatisticsAgree(m, MomentsOf(h), Weighted(SquaredDeviation(m.ma), h), Weighted(CrossDeviation(m.ma, m.mb), h));
  }

  lemma SpreadNonnegative(m: Fit, h: seq<Observation>)
    requires Summarises(m, h)
    ensures m.caa >= 0.0
  {
    var g := SquaredDeviation(m.ma);
    forall o
      ensures g(o) >= 0.0
    {
      var s := Square(o.a - m.ma);
    }
    PrefixNonnegative(g, h, |h|);
  }

  lemma Square(x: real) returns (s: real)
    ensures s == x * x && s >= 0.0 && (s == 0.0 <==> x == 0.0)
  {
    if x < 0.0 {
      s := SquareOfPositive(-x);
      assert x * x == -x * -x;
    } else if x > 0.0 {
      s := SquareOfPositive(x);
    } else {
      s := 0.0;
      assert x * x == 0.0 * x;
    }
  }

  lemma SquareOfPositive(x: real) returns (s: real)
    requires x > 0.0
    ensures s == x * x && s > 0.0
  {
    s := PositiveProduct(x, x);
  }

  lemma MovedMean(mean: real, x: real, w: real, sum: real) returns (next: real)
    requires w > 0.0 && (w - 1.0) * mean == sum
    ensures next == Moved(mean, x - mean, w) && w * next == sum + x
    ensures w * (next - mean) == x - mean
  {
    var share := 1.0 / w * (x - mean);
    next := mean + share;
    assert w * share == x - mean;
  }

  /** The identity behind the Welford cross term, for either central sum. */
  lemma CrossTerm(w: real, ma: real, ma': real, a: real, mb': real, b: real, sumB: real, joined: real)
    requires w * (ma' - ma) == a - ma && w * mb' == sumB + b
    requires joined == (a - ma) * (b - mb')
    ensures joined - ma * sumB == a * b - ma' * (sumB + b)
  {
    var shift := ma' - ma;
    assert shift * (w * mb') == (w * shift) * mb';
    assert shift * (sumB + b) == (a - ma) * mb';
    assert ma' * (sumB + b) == ma * (sumB + b) + shift * (sumB + b);
    assert joined == a * b - ma * b - (a - ma) * mb';
    assert ma * (sumB + b) == ma * sumB + ma * b;
  }

  /** The mean after one more observation, from the decayed sum before it. */
  lemma NextMean(w0: real, mean: real, sum: real, x: real) returns (next: real)
    requires w0 >= 0.0 && w0 * mean == sum
    ensures var w := w0 * 0.9967 + 1.0;
            next == Moved(mean, x - mean, w) && w * next == 0.9967 * sum + x && w * (next - mean) == x - mean
  {
    var w := w0 * 0.9967 + 1.0;
    assert (w - 1.0) * mean == 0.9967 * sum;
    next := MovedMean(mean, x, w, 0.9967 * sum);
  }

  /** A central sum after one more observation. */
  lemma NextSum(w: real, ma: real, ma': real, a: real, mb': real, b: real, sb: real, sum: real, x: real)
    requires w * (ma' - ma) == a - ma && w * mb' == 0.9967 * sb + b && sum == x - ma * sb
    ensures Joined(sum, a - ma, b - mb') == (0.9967 * x + a * b) - ma' * (0.9967 * sb + b)
  {
    var joined := (a - ma) * (b - mb');
    CrossTerm(w, ma, ma', a, mb', b, 0.9967 * sb, joined);
    assert ma * (0.9967 * sb) == 0.9967 * (ma * sb);
    assert Joined(sum, a - ma, b - mb') == sum * 0.9967 + joined;
  }

  lemma AbsorbMeans(m: Fit, o: Observation, ma': real, mb': real)
    requires m.w >= 0.0
    requires var w := m.w * 0.9967 + 1.0; ma' == Moved(m.ma, o.a - m.ma, w) && mb' == Moved(m.mb, o.b - m.mb, w)
    ensures var n := Absorb(m, o);
            && n.w == m.w * 0.9967 + 1.0 && n.ma == ma' && n.mb == mb'
            && n.caa == Joined(m.caa, o.a - m.ma, o.a - ma') && n.cab == Joined(m.cab, o.a - m.ma, o.b - mb')
  {
    hide Moved, Joined;
  }

  lemma AbsorbTracksMeans(m: Fit, s: Moments, o: Observation)
    requires Tracks(m, s) && m.w >= 0.0
    ensures var n := Absorb(m, o);
            n.w == s.Next(o).one && n.w >= 1.0 && n.w * n.ma == s.Next(o).a && n.w * n.mb == s.Next(o).b
            && n.w * (n.ma - m.ma) == o.a - m.ma
  {
    hide Absorb, Moved;
    var ma' := NextMean(m.w, m.ma, s.a, o.a);
    var mb' := NextMean(m.w, m.mb, s.b, o.b);
    AbsorbMeans(m, o, ma', mb');
  }

  lemma AbsorbTracksSpread(m: Fit, s: Moments, o: Observation)
    requires Tracks(m, s) && m.w >= 0.0
    ensures Absorb(m, o).caa == s.Next(o).aa - Absorb(m, o).ma * s.Next(o).a
  {
    AbsorbTracksMeans(m, s, o);
    var n := Absorb(m, o);
    AbsorbMeans(m, o, n.ma, n.mb);
    hide Absorb, Joined;
    NextSum(n.w, m.ma, n.ma, o.a, n.ma, o.a, s.a, m.caa, s.aa);
  }

  lemma AbsorbTracksCross(m: Fit, s: Moments, o: Observation)
    requires Tracks(m, s) && m.w >= 0.0
    ensures Absorb(m, o).cab == s.Next(o).ab - Absorb(m, o).ma * s.Next(o).b
  {
    AbsorbTracksMeans(m, s, o);
    var n := Absorb(m, o);
    AbsorbMeans(m, o, n.ma, n.mb);
    hide Absorb, Joined;
    NextSum(n.w, m.ma, n.ma, o.a, n.mb, o.b, s.b, m.cab, s.ab);
  }

  /** Absorbing an observation into a fit that tracks the moments tracks the next moments. */
  lemma AbsorbTracks(m: Fit, s: Moments, o: Observation)
    requires Tracks(m, s) && m.w >= 0.0
    ensures Tracks(Absorb(m, o), s.Next(o)) && Absorb(m, o).w >= 1.0
  {
    AbsorbTracksMeans(m, s, o);
    AbsorbTracksSpread(m, s, o);
    AbsorbTracksCross(m, s, o);
    hide Absorb;
  }

  /** The update keeps the fields equal to the weighted statistics of everything absorbed. */
  lemma AbsorbSummarises(m: Fit, h: seq<Observation>, o: Observation)
    requires Summarises(m, h) && m.w >= 0.0
    ensures Summarises(Absorb(m, o), h + [o]) && Absorb(m, o).w >= 1.0
  {
    SummarisesIsTracks(m, h);
    AbsorbTracks(m, MomentsOf(h), o);
    assert (h + [o])[..|h|] == h;
    SummarisesIsTracks(Absorb(m, o), h + [o]);
    hide Absorb, Summarises, Tracks;
  }

  // ---------------------------------------------------------------- runs

  /** The observations a run keeps: those accepted since the last reset. */
  function Kept(m: Fit, h: seq<Observation>, o: Observation): seq<Observation>
    requires m.w >= 0.0
  {
    if Accepts(m, o) then h + [o] else if m.rejects + 1 >= 8 then [] else h
  }

  datatype Run = Run(fit: Fit, kept: seq<Observation>)

  function RunOf(os: seq<Observation>): (r: Run)
    ensures r.fit.w >= 0.0
  {
    if os == [] then Run(DEFAULT_FIT, [])
    else
      var before := RunOf(os[..|os| - 1]);
      var o := os[|os| - 1];
      Run(Pushed(before.fit, o), Kept(before.fit, before.kept, o))
  }

  /** The reject counter stays below 8 and is nonzero only on a usable model. */
  predicate CounterInvariant(m: Fit) {
    m.rejects < 8 && (m.rejects > 0 ==> Usable(m)) && m.msq >= 0.0
  }

  lemma PushedKeepsSummary(m: Fit, h: seq<Observation>, o: Observation)
    requires Summarises(m, h) && m.w >= 0.0 && CounterInvariant(m)
    ensures Summarises(Pushed(m, o), Kept(m, h, o)) && Pushed(m, o).w >= 0.0 && CounterInvariant(Pushed(m, o))
  {
    AcceptedIff(m, o);
    hide Accepts;
    if OutOfGate(m, o) {
      EmptySummary();
      SameSummary(m, m.(rejects := m.rejects + 1), h);
    } else {
      var ready := if Usable(m) then m.(rejects := 0, msq := Tracked(m.msq, Residual(m, o))) else m;
      TrackedNonnegative(m.msq, Residual(m, o));
      SameSummary(m, ready, h);
      AbsorbSummarises(ready, h, o);
      hide Summarises;
    }
  }

  lemma TrackedNonnegative(msq: real, r: real)
    requires msq >= 0.0
    ensures Tracked(msq, r) >= 0.0
  {
    var s := Square(r);
  }

  lemma EmptySummary()
    ensures Summarises(DEFAULT_FIT, [])
  {
  }

  lemma SameTracks(m: Fit, n: Fit, s: Moments)
    requires Tracks(m, s)
    requires n.w == m.w && n.ma == m.ma && n.mb == m.mb && n.caa == m.caa && n.cab == m.cab
    ensures Tracks(n, s)
  {
  }

  lemma SameSummary(m: Fit, n: Fit, h: seq<Observation>)
    requires Summarises(m, h)
    requires n.w == m.w && n.ma == m.ma && n.mb == m.mb && n.caa == m.caa && n.cab == m.cab
    ensures Summarises(n, h)
  {
    SummarisesIsTracks(m, h);
    SummarisesIsTracks(n, h);
    hide *;
    SameTracks(m, n, MomentsOf(h));
  }

  /**
   * After any observations whatever, the constant-size fields are the weighted count, means and central sums of
   * exactly the observations accepted since the last reset.
   */
  lemma {:induction false} RunKeepsBatchStatistics(os: seq<Observation>)
    ensures Summarises(RunOf(os).fit, RunOf(os).kept) && CounterInvariant(RunOf(os).fit)
    decreases |os|
  {
    if os == [] {
      EmptySummary();
    } else {
      RunKeepsBatchStatistics(os[..|os| - 1]);
      var before := RunOf(os[..|os| - 1]);
      PushedKeepsSummary(before.fit, before.kept, os[|os| - 1]);
      hide Summarises, Pushed, Kept;
    }
  }

  /** total counts the observations kept since the last reset. */
  lemma {:induction false} TotalCountsKept(os: seq<Observation>)
    ensures RunOf(os).fit.total == |RunOf(os).kept|
    decreases |os|
  {
    if os != [] {
      var before, o := os[..|os| - 1], os[|os| - 1];
      TotalCountsKept(before);
      RunKeepsBatchStatistics(before);
      AcceptedIff(RunOf(before).fit, o);
      hide Summarises, Accepts, OutOfGate, Usable, Tracked, Moved, Joined, Residual;
    }
  }

  // ---------------------------------------------------------------- rejections and noise

  /** How many observations in a row have been refused; the eighth resets the model and the count. */
  function RefusedInARow(os: seq<Observation>): nat {
    if os == [] then 0
    else
      var before, o := os[..|os| - 1], os[|os| - 1];
      if Accepts(RunOf(before).fit, o) then 0
      else if RefusedInARow(before) == 7 then 0
      else RefusedInARow(before) + 1
  }

  /**
   * The squared misses, each against the fit before it, of the observations accepted on a ready model since the last
   * reset.
   */
  function Noise(os: seq<Observation>): seq<real> {
    if os == [] then []
    else
      var before, o := os[..|os| - 1], os[|os| - 1];
      var m := RunOf(before).fit;
      if Accepts(m, o) then if Ready(m) then Noise(before) + [SquareOf(Miss(m, o))] else Noise(before)
      else if RefusedInARow(before) == 7 then []
      else Noise(before)
  }

  /** The sum of the first k, the i-th weighted by 0.9967^(|xs|-1-i). */
  function DecayedPrefix(xs: seq<real>, k: nat): real
    requires k <= |xs|
  {
    if k == 0 then 0.0 else DecayedPrefix(xs, k - 1) + Pow(|xs| - k) * xs[k - 1]
  }

  function DecayedSum(xs: seq<real>): real {
    DecayedPrefix(xs, |xs|)
  }

  lemma {:induction false} PrefixAges(xs: seq<real>, x: real, k: nat)
    requires k <= |xs|
    ensures DecayedPrefix(xs + [x], k) == 0.9967 * DecayedPrefix(xs, k)
    decreases k
  {
    if k > 0 {
      PrefixAges(xs, x, k - 1);
      assert (xs + [x])[k - 1] == xs[k - 1];
      assert Pow(|xs| + 1 - k) == 0.9967 * Pow(|xs| - k);
      assert 0.9967 * Pow(|xs| - k) * xs[k - 1] == 0.9967 * (Pow(|xs| - k) * xs[k - 1]);
    }
  }

  lemma SumAges(xs: seq<real>, x: real)
    ensures DecayedSum(xs + [x]) == 0.9967 * DecayedSum(xs) + x
  {
    PrefixAges(xs, x, |xs|);
    assert Pow(0) == 1.0;
  }

  lemma PushedNoise(m: Fit, o: Observation)
    requires m.w >= 0.0 && CounterInvariant(m)
    ensures var n := Pushed(m, o);
            && (Accepts(m, o) ==>
                  n.rejects == 0
                  && n.msq == if Ready(m) then 0.9967 * m.msq + 0.0033 * SquareOf(Miss(m, o)) else m.msq)
            && (!Accepts(m, o) ==>
                  if m.rejects == 7 then n.rejects == 0 && n.msq == 0.0
                  else n.rejects == m.rejects + 1 && n.msq == m.msq)
  {
    AcceptedIff(m, o);
    ReadyIff(m);
    assert Residual(m, o) == Miss(m, o);
    hide Accepts, OutOfGate, Usable, Ready, Residual, Miss, Moved, Joined, Tracked, SquareOf;
    TrackedIs(m.msq, Miss(m, o));
  }

  lemma TrackedIs(msq: real, r: real)
    ensures Tracked(msq, r) == 0.9967 * msq + 0.0033 * SquareOf(r)
  {
  }

  /**
   * After any observations the residual variance is 0.0033 times the decayed sum of the squared misses of the
   * observations accepted on a ready model since the last reset, and the reject counter is the current run of refusals.
   */
  lemma {:induction false} RunTracksNoise(os: seq<Observation>)
    ensures RunOf(os).fit.msq == 0.0033 * DecayedSum(Noise(os))
    ensures RunOf(os).fit.rejects == RefusedInARow(os) < 8
    decreases |os|
  {
    hide Accepts, Ready, Miss, Pushed, Summarises, DecayedSum, Kept, RunOf, SquareOf;
    RunEnds(os);
    if os == [] {
      NoNoise();
    } else {
      var before, o := os[..|os| - 1], os[|os| - 1];
      RunTracksNoise(before);
      RunKeepsBatchStatistics(before);
      var m := RunOf(before).fit;
      NoiseStep(m, o, Noise(before));
    }
  }

  lemma RunEnds(os: seq<Observation>)
    ensures RunOf(os).fit
         == if os == [] then DEFAULT_FIT else Pushed(RunOf(os[..|os| - 1]).fit, os[|os| - 1])
  {
  }

  lemma NoiseStep(m: Fit, o: Observation, noise: seq<real>)
    requires m.w >= 0.0 && CounterInvariant(m) && m.msq == 0.0033 * DecayedSum(noise)
    ensures var n := Pushed(m, o);
            && (Accepts(m, o) ==>
                  n.rejects == 0
                  && n.msq == 0.0033 * DecayedSum(if Ready(m) then noise + [SquareOf(Miss(m, o))] else noise))
            && (!Accepts(m, o) ==>
                  if m.rejects == 7 then n.rejects == 0 && n.msq == 0.0033 * DecayedSum([])
                  else n.rejects == m.rejects + 1 && n.msq == 0.0033 * DecayedSum(noise))
  {
    PushedNoise(m, o);
    SumAges(noise, SquareOf(Miss(m, o)));
    NoNoise();
    hide *;
  }

  lemma NoNoise()
    ensures DecayedSum([]) == 0.0
  {
  }

  /** The effective window: the weight never reaches 1/(1 - 0.9967), and the spread is never negative. */
  lemma {:induction false} RunBounds(os: seq<Observation>)
    ensures var m := RunOf(os).fit;
            0.0 <= m.caa && m.w * (1.0 - 0.9967) < 1.0
    decreases |os|
  {
    RunKeepsBatchStatistics(os);
    SpreadNonnegative(RunOf(os).fit, RunOf(os).kept);
    hide Summarises;
    if os != [] {
      RunBounds(os[..|os| - 1]);
      WeightStep(RunOf(os[..|os| - 1]).fit, os[|os| - 1]);
      hide Pushed;
    }
  }

  lemma WeightStep(m: Fit, o: Observation)
    requires m.w >= 0.0 && m.w * (1.0 - 0.9967) < 1.0
    ensures Pushed(m, o).w * (1.0 - 0.9967) < 1.0
  {
    hide Usable, BeyondGate, Tracked, Moved, Joined;
  }

  // ---------------------------------------------------------------- the prediction line

  function MissQuadratic(alpha: real, beta: real): Quadratic {
    Quadratic(alpha * alpha, 2.0 * alpha * beta, -2.0 * alpha, beta * beta, -2.0 * beta, 1.0)
  }

  lemma MissIsQuadratic(alpha: real, beta: real, o: Observation)
    ensures SquaredMiss(alpha, beta)(o) == MissQuadratic(alpha, beta).At(o)
  {
    Expand(o.a, o.b, alpha, beta);
  }

  lemma ErrorMoments(h: seq<Observation>, alpha: real, beta: real)
    ensures SquaredError(h, alpha, beta) == MomentsOf(h).Apply(MissQuadratic(alpha, beta))
  {
    hide SquaredMiss, MissQuadratic;
    forall o
      ensures SquaredMiss(alpha, beta)(o) == MissQuadratic(alpha, beta).At(o)
    {
      MissIsQuadratic(alpha, beta, o);
    }
    WeightedIsMoments(SquaredMiss(alpha, beta), MissQuadratic(alpha, beta), h);
  }

  lemma Expand(a: real, b: real, alpha: real, beta: real)
    ensures (b - alpha - beta * a) * (b - alpha - beta * a)
         == alpha * alpha + 2.0 * alpha * beta * a + -2.0 * alpha * b + beta * beta * (a * a) + -2.0 * beta * (a * b)
            + 1.0 * (b * b)
  {
    var r, p := b - alpha, beta * a;
    assert (r - p) * (r - p) == r * r - 2.0 * (r * p) + p * p;
    assert r * r == b * b - 2.0 * (alpha * b) + alpha * alpha;
    assert r * p == beta * (a * b) - alpha * beta * a;
    assert p * p == beta * beta * (a * a);
  }

  /** The part of the weighted error that depends on the line: its slope error and its offset at the centre. */
  function LineCost(m: Fit, alpha: real, beta: real): real {
    var offset := m.mb - alpha - beta * m.ma;
    m.caa * (beta * beta) - 2.0 * (m.cab * beta) + m.w * (offset * offset)
  }

  lemma MomentIdentity(m: Fit, s: Moments, alpha: real, beta: real)
    requires Tracks(m, s)
    ensures s.Apply(MissQuadratic(alpha, beta)) == s.bb - m.mb * s.b + LineCost(m, alpha, beta)
  {
    var w, ma, mb, k := m.w, m.ma, m.mb, m.mb - alpha;
    var p := beta * ma;
    assert (k - p) * (k - p) == k * k - 2.0 * (k * p) + p * p;
    assert k * k == mb * mb - 2.0 * (alpha * mb) + alpha * alpha;
    assert w * (mb * mb) == mb * s.b;
    assert w * (alpha * mb) == alpha * s.b;
    assert w * (k * p) == beta * (mb * s.a) - alpha * beta * s.a by {
      assert w * (k * p) == k * beta * (w * ma);
      assert k * beta * s.a == beta * (mb * s.a) - alpha * beta * s.a;
    }
    assert w * (p * p) == beta * beta * (ma * s.a) by {
      assert w * (p * p) == beta * beta * (ma * (w * ma));
    }
    assert beta * beta * s.aa == m.caa * (beta * beta) + beta * beta * (ma * s.a);
    assert mb * s.a == ma * s.b by {
      assert mb * (w * ma) == ma * (w * mb);
    }
    assert beta * s.ab == m.cab * beta + beta * (ma * s.b);
    ScaleSum(w, k * k, k * p, p * p);
  }

  lemma ScaleSum(w: real, x: real, y: real, z: real)
    ensures w * (x - 2.0 * y + z) == w * x - 2.0 * (w * y) + w * z
  {
  }

  /** Completing the square in the slope. */
  lemma SlopeSquare(caa: real, cab: real, beta: real, best: real)
    requires caa * best == cab
    ensures caa * (beta * beta) - 2.0 * (cab * beta)
         == caa * ((beta - best) * (beta - best)) + caa * (best * best) - 2.0 * (cab * best)
  {
    assert (beta - best) * (beta - best) == beta * beta - 2.0 * (best * beta) + best * best;
    assert caa * (best * beta) == cab * beta;
    assert caa * (best * best) == cab * best;
    ScaleSum(caa, beta * beta, best * beta, best * best);
  }

  /** The line the model predicts with. */
  function Intercept(m: Fit): real {
    m.mb - Slope(m) * m.ma
  }

  lemma ErrorIsCost(m: Fit, h: seq<Observation>, alpha: real, beta: real)
    requires Summarises(m, h)
    ensures SquaredError(h, alpha, beta)
         == MomentsOf(h).bb - m.mb * MomentsOf(h).b + LineCost(m, alpha, beta)
  {
    SummarisesIsTracks(m, h);
    ErrorMoments(h, alpha, beta);
    hide *;
    MomentIdentity(m, MomentsOf(h), alpha, beta);
  }

  /** How much worse any line is than the prediction line: a sum of two squares. */
  lemma ExcessError(m: Fit, h: seq<Observation>, alpha: real, beta: real) returns (excess: real)
    requires Summarises(m, h) && m.caa > 0.0 && m.w > 0.0
    ensures SquaredError(h, alpha, beta) == SquaredError(h, Intercept(m), Slope(m)) + excess
    ensures excess >= 0.0
    ensures excess == 0.0 <==> beta - Slope(m) == 0.0 && m.mb - alpha - beta * m.ma == 0.0
  {
    SlopeTimesSpread(m);
    hide *;
    ErrorIsCost(m, h, alpha, beta);
    ErrorIsCost(m, h, Intercept(m), Slope(m));
    excess := CostDifference(m, alpha, beta, Slope(m), Intercept(m));
  }

  lemma SlopeTimesSpread(m: Fit)
    requires m.caa > 0.0
    ensures m.caa * Slope(m) == m.cab
    ensures m.mb - Intercept(m) - Slope(m) * m.ma == 0.0
  {
  }

  lemma CostDifference(m: Fit, alpha: real, beta: real, best: real, intercept: real) returns (excess: real)
    requires m.caa > 0.0 && m.w > 0.0 && m.caa * best == m.cab && m.mb - intercept - best * m.ma == 0.0
    ensures LineCost(m, alpha, beta) == LineCost(m, intercept, best) + excess
    ensures excess >= 0.0
    ensures excess == 0.0 <==> beta - best == 0.0 && m.mb - alpha - beta * m.ma == 0.0
  {
    SlopeSquare(m.caa, m.cab, beta, best);
    var centre := m.mb - intercept - best * m.ma;
    assert m.w * (centre * centre) == 0.0;
    excess := TwoSquares(m.caa, m.w, beta - best, m.mb - alpha - beta * m.ma);
  }

  /** The prediction line minimises the weighted squared error over all lines, and is the only minimiser. */
  lemma PredictionMinimisesError(m: Fit, h: seq<Observation>, alpha: real, beta: real)
    requires Summarises(m, h) && m.caa > 0.0 && m.w > 0.0
    ensures SquaredError(h, Intercept(m), Slope(m)) <= SquaredError(h, alpha, beta)
    ensures SquaredError(h, Intercept(m), Slope(m)) == SquaredError(h, alpha, beta)
            <==> alpha == Intercept(m) && beta == Slope(m)
  {
    var excess := ExcessError(m, h, alpha, beta);
    SameLine(m, alpha, beta);
    hide *;
  }

  lemma SameLine(m: Fit, alpha: real, beta: real)
    ensures alpha == Intercept(m) && beta == Slope(m)
            <==> beta - Slope(m) == 0.0 && m.mb - alpha - beta * m.ma == 0.0
  {
    hide Slope;
    if beta == Slope(m) {
      SameProduct(beta, Slope(m), m.ma);
    }
  }

  lemma SameProduct(x: real, y: real, z: real)
    requires x == y
    ensures x * z == y * z
  {
  }

  lemma TwoSquares(c: real, w: real, x: real, y: real) returns (sum: real)
    requires c > 0.0 && w > 0.0
    ensures sum == c * (x * x) + w * (y * y) && sum >= 0.0
    ensures sum == 0.0 <==> x == 0.0 && y == 0.0
  {
    var p := ScaledSquare(c, x);
    var q := ScaledSquare(w, y);
    sum := p + q;
  }

  lemma ScaledSquare(c: real, x: real) returns (p: real)
    requires c > 0.0
    ensures p == c * (x * x) && p >= 0.0 && (p == 0.0 <==> x == 0.0)
  {
    var s := Square(x);
    if s == 0.0 {
      p := 0.0;
      assert c * s == c * 0.0;
    } else {
      p := PositiveProduct(c, s);
    }
  }

  lemma PositiveProduct(c: real, x: real) returns (p: real)
    requires c > 0.0 && x > 0.0
    ensures p == c * x && p > 0.0
  {
    p := c * x;
  }

  lemma PredictIsLine(m: Fit, t: real)
    ensures Predict(m, t) == Intercept(m) + Slope(m) * t
  {
  }

  lemma {:induction false} KeptHasWeight(os: seq<Observation>)
    ensures RunOf(os).kept != [] ==> RunOf(os).fit.w >= 1.0
    decreases |os|
  {
    if os != [] {
      KeptHasWeight(os[..|os| - 1]);
      var m, o := RunOf(os[..|os| - 1]).fit, os[|os| - 1];
      AcceptedIff(m, o);
      hide Usable, BeyondGate, Tracked, Moved, Joined, Accepts;
      assert !OutOfGate(m, o) ==> Pushed(m, o).w >= 1.0;
    }
  }

  lemma SpreadNeedsWeight(os: seq<Observation>)
    requires RunOf(os).fit.caa > 0.0
    ensures RunOf(os).fit.w > 0.0
  {
    RunKeepsBatchStatistics(os);
    KeptHasWeight(os);
    hide *;
    if RunOf(os).kept == [] {
      NoSpread(RunOf(os).fit);
    }
  }

  /** After any run, the model predicts with the least-squares line of the observations it kept. */
  lemma RunPredictsLeastSquares(os: seq<Observation>, alpha: real, beta: real, t: real)
    requires RunOf(os).fit.caa > 0.0
    ensures var m, h := RunOf(os).fit, RunOf(os).kept;
            && Predict(m, t) == Intercept(m) + Slope(m) * t
            && SquaredError(h, Intercept(m), Slope(m)) <= SquaredError(h, alpha, beta)
            && (SquaredError(h, Intercept(m), Slope(m)) == SquaredError(h, alpha, beta)
                <==> alpha == Intercept(m) && beta == Slope(m))
  {
    hide *;
    RunKeepsBatchStatistics(os);
    SpreadNeedsWeight(os);
    PredictIsLine(RunOf(os).fit, t);
    PredictionMinimisesError(RunOf(os).fit, RunOf(os).kept, alpha, beta);
  }

  lemma NoSpread(m: Fit)
    requires Summarises(m, [])
    ensures m.caa == 0.0
  {
  }

  // ---------------------------------------------------------------- the gate

  function PushAll(m: Fit, os: seq<Observation>): (n: Fit)
    requires m.w >= 0.0
    ensures n.w >= 0.0
    decreases |os|
  {
    if os == [] then m else PushAll(Pushed(m, os[0]), os[1..])
  }

  lemma GateIgnoresCounter(m: Fit, k: nat, o: Observation)
    ensures OutOfGate(m.(rejects := k), o) <==> OutOfGate(m, o)
  {
  }

  /**
   * Consecutive out-of-gate observations: up to the seventh they only count, the fit stays as it was; the eighth
   * resets the pair.
   */
  lemma {:induction false} RejectBurst(m: Fit, os: seq<Observation>)
    requires m.w >= 0.0 && CounterInvariant(m) && (forall o <- os :: OutOfGate(m, o))
    ensures m.rejects + |os| < 8 ==> PushAll(m, os) == m.(rejects := m.rejects + |os|)
    ensures m.rejects + |os| == 8 && os != [] ==> PushAll(m, os) == DEFAULT_FIT
    decreases |os|
  {
    if os != [] {
      var n := m.(rejects := m.rejects + 1);
      assert OutOfGate(m, os[0]);
      if m.rejects + 1 < 8 {
        forall o | o in os[1..]
          ensures OutOfGate(n, o)
        {
          GateIgnoresCounter(m, m.rejects + 1, o);
        }
        RejectBurst(n, os[1..]);
      }
    }
  }

  /** An observation inside the gate clears the counter. */
  lemma AcceptanceClearsCounter(m: Fit, o: Observation)
    requires m.w >= 0.0 && CounterInvariant(m) && !OutOfGate(m, o)
    ensures Pushed(m, o).rejects == 0
  {
  }

  // ---------------------------------------------------------------- an exact linear relation

  predicate OnLine(o: Observation, alpha: real, beta: real) {
    o.b == alpha + beta * o.a
  }

  /** The centred sums of observations that all lie on one line. */
  predicate FitsLine(m: Fit, alpha: real, beta: real) {
    && m.cab == beta * m.caa && m.msq == 0.0 && m.rejects == 0
    && (m.w > 0.0 ==> m.mb == alpha + beta * m.ma)
    && (m.w == 0.0 ==> m.caa == 0.0 && m.ma == 0.0 && m.mb == 0.0)
  }

  lemma LinePrediction(m: Fit, alpha: real, beta: real, t: real)
    requires FitsLine(m, alpha, beta) && m.caa > 0.0 && m.w > 0.0
    ensures Predict(m, t) == alpha + beta * t
  {
    assert Slope(m) == beta by {
      Proportional(m.cab, m.caa, beta);
    }
    assert beta * (t - m.ma) == beta * t - beta * m.ma;
  }

  lemma Proportional(x: real, c: real, beta: real)
    requires c > 0.0 && x == beta * c
    ensures x / c == beta
  {
  }

  lemma UsableHasSpread(m: Fit)
    requires Usable(m)
    ensures m.caa > 0.0 && m.w > 0.0
  {
    if m.caa <= 0.0 {
      Quotient(m.caa, m.w);
    }
  }

  lemma Quotient(x: real, w: real)
    requires x <= 0.0 && w > 0.0
    ensures x / w <= 0.0
  {
  }

  lemma SumsOnLine(da: real, ea: real, eb: real, beta: real, caa: real, cab: real)
    requires eb == beta * ea && cab == beta * caa
    ensures Joined(cab, da, eb) == beta * Joined(caa, da, ea)
  {
    var daa := da * ea;
    assert da * eb == beta * daa;
    assert beta * (caa * 0.9967 + daa) == beta * caa * 0.9967 + beta * daa;
  }

  lemma AbsorbOnLine(m: Fit, o: Observation, alpha: real, beta: real)
    requires FitsLine(m, alpha, beta) && OnLine(o, alpha, beta) && m.w >= 0.0
    ensures FitsLine(Absorb(m, o), alpha, beta) && Absorb(m, o).w > 0.0
  {
    var w := m.w * 0.9967 + 1.0;
    var ma' := MovedMean(m.ma, o.a, w, (w - 1.0) * m.ma);
    var mb' := MovedMean(m.mb, o.b, w, (w - 1.0) * m.mb);
    MeansOnLine(w, m.ma, m.mb, o.a, o.b, ma', mb', alpha, beta, m.w == 0.0);
    DifferenceOnLine(o, ma', mb', alpha, beta);
    SumsOnLine(o.a - m.ma, o.a - ma', o.b - mb', beta, m.caa, m.cab);
    hide Moved, Joined;
  }

  lemma DifferenceOnLine(o: Observation, ma: real, mb: real, alpha: real, beta: real)
    requires OnLine(o, alpha, beta) && mb == alpha + beta * ma
    ensures o.b - mb == beta * (o.a - ma)
  {
  }

  lemma MeansOnLine(w: real, ma: real, mb: real, a: real, b: real, ma': real, mb': real, alpha: real, beta: real,
                    first: bool)
    requires w > 0.0 && b == alpha + beta * a
    requires w * ma' == (w - 1.0) * ma + a && w * mb' == (w - 1.0) * mb + b
    requires if first then w == 1.0 else mb == alpha + beta * ma
    ensures mb' == alpha + beta * ma'
  {
    if first {
      assert ma' == a && mb' == b;
    } else {
      var v := w - 1.0;
      assert v * mb == v * alpha + beta * (v * ma);
      assert w * mb' == w * alpha + beta * (w * ma');
      assert w * (mb' - alpha - beta * ma') == 0.0;
    }
  }

  lemma RunAccepts(os: seq<Observation>, o: Observation)
    requires !OutOfGate(RunOf(os).fit, o)
    ensures RunOf(os + [o]) == Run(Pushed(RunOf(os).fit, o), RunOf(os).kept + [o])
  {
    AcceptedIff(RunOf(os).fit, o);
    assert (os + [o])[..|os|] == os;
  }

  lemma ExactLineStep(os: seq<Observation>, o: Observation, alpha: real, beta: real)
    requires FitsLine(RunOf(os).fit, alpha, beta) && RunOf(os).kept == os && OnLine(o, alpha, beta)
    ensures FitsLine(RunOf(os + [o]).fit, alpha, beta) && RunOf(os + [o]).kept == os + [o]
  {
    hide *;
    LineStep(RunOf(os).fit, o, alpha, beta);
    RunAccepts(os, o);
  }

  /** While every observation lies on one line, none is ever rejected and the sums fit that line. */
  lemma {:induction false} ExactLineFits(os: seq<Observation>, alpha: real, beta: real)
    requires forall i :: 0 <= i < |os| ==> OnLine(os[i], alpha, beta)
    ensures FitsLine(RunOf(os).fit, alpha, beta) && RunOf(os).kept == os
    decreases |os|
  {
    if os == [] {
      EmptyFitsLine(alpha, beta);
    } else {
      hide *;
      var os0, o := os[..|os| - 1], os[|os| - 1];
      assert os == os0 + [o];
      ExactLineFits(os0, alpha, beta);
      ExactLineStep(os0, o, alpha, beta);
    }
  }

  lemma EmptyFitsLine(alpha: real, beta: real)
    ensures FitsLine(RunOf([]).fit, alpha, beta) && RunOf([]).kept == []
  {
  }

  /** And once its readings spread at all, the model predicts the line exactly, everywhere. */
  lemma ExactLineIsLearned(os: seq<Observation>, alpha: real, beta: real, t: real)
    requires forall i :: 0 <= i < |os| ==> OnLine(os[i], alpha, beta)
    ensures RunOf(os).kept == os
    ensures RunOf(os).fit.caa > 0.0 ==> Predict(RunOf(os).fit, t) == alpha + beta * t
  {
    ExactLineFits(os, alpha, beta);
    hide RunOf;
    if RunOf(os).fit.caa > 0.0 {
      LinePrediction(RunOf(os).fit, alpha, beta, t);
    }
  }

  lemma LineStep(m: Fit, o: Observation, alpha: real, beta: real)
    requires FitsLine(m, alpha, beta) && OnLine(o, alpha, beta) && m.w >= 0.0
    ensures !OutOfGate(m, o) && FitsLine(Pushed(m, o), alpha, beta)
  {
    if Usable(m) {
      UsableHasSpread(m);
      LinePrediction(m, alpha, beta, o.a);
      assert Residual(m, o) == 0.0;
    }
    hide Residual, Usable, Absorb;
    assert 0.0 * 0.0 == 0.0;
    if Usable(m) {
      assert Tracked(m.msq, Residual(m, o)) == 0.0;
      assert m.(rejects := 0, msq := 0.0) == m;
    }
    AbsorbOnLine(m, o, alpha, beta);
  }

  // ---------------------------------------------------------------- conversion

  /**
   * A reading is converted if and only if the model is ready and its variance, widened for the model's age and for the
   * distance from the mean reading, is at most (2e-6)^2; stated without division.
   */
  lemma ConvertsIff(m: Fit, t: real)
    requires m.caa >= 0.0
    ensures Convert(m, t).Some? <==>
              Ready(m) && m.msq * (m.w * m.caa + m.caa + m.w * ((t - m.ma) * (t - m.ma)))
                          <= 0.000000000004 * (m.w * m.caa)
    ensures Convert(m, t).Some? ==> Convert(m, t).value == m.mb + m.cab / m.caa * (t - m.ma)
  {
    ReadyIff(m);
    hide Usable;
    if Ready(m) {
      assert Max(m.caa, 0.000000000001) == m.caa;
      var d := (t - m.ma) * (t - m.ma);
      CrossMultiplied(m.msq, m.w, m.caa, d);
      VarianceIs(m, t, d);
      hide PredictionVariance;
      assert Slope(m) == m.cab / m.caa;
    }
  }

  lemma VarianceIs(m: Fit, t: real, d: real)
    requires m.w > 0.0 && m.caa >= 0.000000000001 && d == (t - m.ma) * (t - m.ma)
    ensures PredictionVariance(m, t) == m.msq * (1.0 + 1.0 / m.w + d / m.caa)
  {
  }

  lemma CrossMultiplied(msq: real, w: real, c: real, d: real)
    requires w > 0.0 && c > 0.0
    ensures msq * (1.0 + 1.0 / w + d / c) > 0.000000000004
       <==> msq * (w * c + c + w * d) > 0.000000000004 * (w * c)
  {
    var factor := 1.0 + 1.0 / w + d / c;
    var scale := ProductOf(w, c);
    assert factor * (w * c) == w * c + c + w * d by {
      assert 1.0 / w * w == 1.0 && d / c * c == d;
      assert 1.0 / w * (w * c) == 1.0 / w * w * c;
      assert d / c * (w * c) == d / c * c * w;
    }
    assert msq * factor * scale == msq * (factor * scale);
    Scaled(msq * factor, 0.000000000004, scale);
  }

  lemma ProductOf(w: real, c: real) returns (scale: real)
    requires w > 0.0 && c > 0.0
    ensures scale == w * c && scale > 0.0
  {
    scale := w * c;
  }

  lemma Scaled(v: real, bound: real, scale: real)
    requires scale > 0.0
    ensures v > bound <==> v * scale > bound * scale
  {
    if v > bound {
      assert (v - bound) * scale > 0.0;
    } else {
      assert (bound - v) * scale >= 0.0;
    }
  }

  /** On an exact line every usable model converts every reading, exactly. */
  lemma ExactLineConverts(os: seq<Observation>, alpha: real, beta: real, t: real)
    requires forall i :: 0 <= i < |os| ==> OnLine(os[i], alpha, beta)
    ensures Usable(RunOf(os).fit) ==> Convert(RunOf(os).fit, t) == Some(alpha + beta * t)
  {
    hide *;
    ExactLineFits(os, alpha, beta);
    LineConverts(RunOf(os).fit, alpha, beta, t);
  }

  lemma LineConverts(m: Fit, alpha: real, beta: real, t: real)
    requires FitsLine(m, alpha, beta)
    ensures Usable(m) ==> Convert(m, t) == Some(alpha + beta * t)
  {
    if Usable(m) {
      UsableHasSpread(m);
      LinePrediction(m, alpha, beta, t);
      NoVariance(m, t);
      hide Usable, Predict, PredictionVariance;
    }
  }

  lemma NoVariance(m: Fit, t: real)
    requires m.w > 0.0 && m.msq == 0.0
    ensures PredictionVariance(m, t) == 0.0
  {
    var factor := 1.0 + 1.0 / m.w + (t - m.ma) * (t - m.ma) / Max(m.caa, 0.000000000001);
    assert 0.0 * factor == 0.0;
  }

  lemma Farther(near: real, far: real)
    requires -far <= near <= far
    ensures near * near <= far * far
  {
    assert (far - near) * (far + near) >= 0.0;
  }

  lemma FartherVariance(m: Fit, near: real, far: real)
    requires m.w > 0.0 && m.msq >= 0.0 && near * near <= far * far
    ensures m.msq * (1.0 + 1.0 / m.w + near * near / Max(m.caa, 0.000000000001))
         <= m.msq * (1.0 + 1.0 / m.w + far * far / Max(m.caa, 0.000000000001))
  {
    var c := Max(m.caa, 0.000000000001);
    ScaledDown(near * near, far * far, c);
    GrownFactor(m.msq, 1.0 + 1.0 / m.w + near * near / c, 1.0 + 1.0 / m.w + far * far / c);
  }

  lemma ScaledDown(x: real, y: real, c: real)
    requires x <= y && c > 0.0
    ensures x / c <= y / c
  {
  }

  lemma GrownFactor(k: real, x: real, y: real)
    requires k >= 0.0 && x <= y
    ensures k * x <= k * y
  {
    assert k * (y - x) >= 0.0;
  }

  /** What is refused lies farther from the mean reading than everything converted. */
  lemma RefusesOnlyFarReadings(os: seq<Observation>, t: real, nearer: real)
    requires var ma := RunOf(os).fit.ma;
             (if t >= ma then 2.0 * ma - t <= nearer <= t else t <= nearer <= 2.0 * ma - t)
    requires Convert(RunOf(os).fit, t).Some?
    ensures Convert(RunOf(os).fit, nearer).Some?
  {
    var m := RunOf(os).fit;
    RunKeepsBatchStatistics(os);
    UsableHasSpread(m);
    hide RunOf, Summarises, Predict, Usable, PredictionVariance;
    NearerIsSurer(m, t, nearer);
  }

  lemma NearerIsSurer(m: Fit, t: real, nearer: real)
    requires m.w > 0.0 && m.msq >= 0.0
    requires if t >= m.ma then 2.0 * m.ma - t <= nearer <= t else t <= nearer <= 2.0 * m.ma - t
    ensures PredictionVariance(m, nearer) <= PredictionVariance(m, t)
  {
    var near, far := nearer - m.ma, t - m.ma;
    if t >= m.ma {
      Farther(near, far);
    } else {
      Farther(near, -far);
      SameSquare(far);
    }
    FartherVariance(m, near, far);
  }

  lemma SameSquare(x: real)
    ensures (-x) * (-x) == x * x
  {
  }
}
