/** Compact Position Reporting, airborne format (crates/mb-modes/src/cpr.rs), over exact reals; 131072 is 2^17. */
module Cpr {
  import opened Common

  /** The number of longitude zones at a latitude; its closed form is trigonometric and stays abstract. */
  type ZoneCount = real -> int

  ghost predicate InZoneRange(nl: ZoneCount) {
    forall lat :: 1 <= nl(lat) <= 59
  }

  // ---------------------------------------------------------------- arithmetic of the source

  function Truncate(x: real): int {
    if x >= 0.0 then x.Floor else -(-x).Floor
  }

  /** The truncating remainder, made nonnegative. */
  function Modp(x: real, m: real): real
    requires m > 0.0
  {
    var r := x - m * (Truncate(x / m) as real);
    if r < 0.0 then r + m else r
  }

  function Max(a: int, b: int): int {
    if a > b then a else b
  }

  /** A position within its zone of width d, in 2^17ths, rounded; 2^17 itself is possible. */
  function Quantize(x: real, d: real): int
    requires d > 0.0
  {
    (131072.0 * Modp(x, d) / d + 0.5).Floor
  }

  function LatitudeZone(odd: bool): real {
    360.0 / (60.0 - (if odd then 1.0 else 0.0))
  }

  function LongitudeZones(zones: int, odd: bool): (n: int)
    ensures n >= 1
  {
    if odd then Max(zones - 1, 1) else Max(zones, 1)
  }

  /** The latitude at which the encoder evaluates the zone count. */
  function EncoderLatitude(lat: real, odd: bool): real {
    var d := LatitudeZone(odd);
    d * ((Quantize(lat, d) % 131072) as real / 131072.0 + (lat / d).Floor as real)
  }

  function EncodeAirborne(nl: ZoneCount, lat: real, lon: real, odd: bool): (int, int) {
    var yz := Quantize(lat, LatitudeZone(odd)) % 131072;
    var dlon := 360.0 / LongitudeZones(nl(EncoderLatitude(lat, odd)), odd) as real;
    (yz, Quantize(lon, dlon) % 131072)
  }

  /** Position of the newer message of a pair in zone units: n even zones, n - 1 odd ones. */
  function ZoneIndex(n: int, even: int, odd: int): int {
    ((((n - 1) as real) * (even as real) - (n as real) * (odd as real)) / 131072.0 + 0.5).Floor
  }

  function Place(zones: int, index: int, cell: int): real
    requires zones >= 1
  {
    360.0 / (zones as real) * (Modp(index as real, zones as real) + cell as real / 131072.0)
  }

  function GlobalDecodeAirborne(nl: ZoneCount, even: (int, int), odd: (int, int), recentOdd: bool)
    : Option<(real, real)>
  {
    var j := ZoneIndex(60, even.0, odd.0);
    var placeE, placeO := Place(60, j, even.0), Place(59, j, odd.0);
    var rlatE := if placeE >= 270.0 then placeE - 360.0 else placeE;
    var rlatO := if placeO >= 270.0 then placeO - 360.0 else placeO;
    if rlatE > 90.0 || rlatE < -90.0 || rlatO > 90.0 || rlatO < -90.0 then None
    else if nl(rlatE) != nl(rlatO) then None
    else
      var zones := nl(rlatE);
      var m := ZoneIndex(zones, even.1, odd.1);
      var lon := if recentOdd then Place(Max(zones - 1, 1), m, odd.1) else Place(Max(zones, 1), m, even.1);
      Some((if recentOdd then rlatO else rlatE, if lon >= 180.0 then lon - 360.0 else lon))
  }
}

/** CPR global decoding recovers the encoded position. */
module CprTheorems {
  import opened Common
  import opened Cpr

  // ---------------------------------------------------------------- real arithmetic

  lemma FloorIs(x: real, k: int)
    requires k as real <= x < (k + 1) as real
    ensures x.Floor == k
  {
  }

  lemma MulMono(m: real, a: real, b: real)
    requires m > 0.0 && a <= b
    ensures m * a <= m * b
  {
  }

  lemma MulMonoStrict(m: real, a: real, b: real)
    requires m > 0.0 && a < b
    ensures m * a < m * b
  {
  }

  lemma Distribute(d: real, u: real, e: real)
    ensures d * (u - e) == d * u - d * e && d * (u + e) == d * u + d * e
  {
  }

  lemma TruncateCases(q: real)
    ensures Truncate(q) == if q >= 0.0 || q == q.Floor as real then q.Floor else q.Floor + 1
  {
    if q < 0.0 {
      if q == q.Floor as real {
        FloorIs(-q, -q.Floor);
      } else {
        FloorIs(-q, -q.Floor - 1);
      }
    }
  }

  lemma Remains(x: real, m: real, q: real, k: real)
    requires m > 0.0 && m * q == x && k <= q < k + 1.0
    ensures 0.0 <= x - m * k < m
  {
    var f := q - k;
    assert x - m * k == m * f;
    assert 0.0 <= m * f;
    assert m * f < m * 1.0;
  }

  lemma FloorRemainderBounds(x: real, m: real, q: real)
    requires m > 0.0 && m * q == x
    ensures 0.0 <= x - m * (q.Floor as real) < m
    ensures m * ((q.Floor + 1) as real) == m * (q.Floor as real) + m
  {
    Distribute(m, q.Floor as real, 1.0);
    Remains(x, m, q, q.Floor as real);
  }

  lemma ModpCases(x: real, m: real, r: real)
    requires m > 0.0 && 0.0 <= r < m
    requires var t := m * (Truncate(x / m) as real); x - t == r || x - t == r - m
    ensures Modp(x, m) == r
  {
  }

  /** The corrected truncating remainder is the floor remainder. */
  lemma ModpIsFloorRemainder(x: real, m: real)
    requires m > 0.0
    ensures Modp(x, m) == x - m * ((x / m).Floor as real)
    ensures 0.0 <= Modp(x, m) < m
  {
    var q := x / m;
    Divided(x, m);
    TruncateCases(q);
    FloorRemainderBounds(x, m, q);
    hide Truncate;
    ModpCases(x, m, x - m * (q.Floor as real));
  }

  /** Division with remainder over the reals has one answer. */
  lemma QuotientFloor(x: real, m: real, q: int, r: real)
    requires m > 0.0 && m * x == m * (q as real) + r && 0.0 <= r < m
    ensures x.Floor == q
  {
    Distribute(m, q as real, 1.0);
    if x < q as real {
      MulMonoStrict(m, x, q as real);
    } else if x >= q as real + 1.0 {
      MulMono(m, q as real + 1.0, x);
    }
  }

  lemma EuclidAsReal(j: int, n: int)
    requires n >= 1
    ensures j as real == (n as real) * ((j / n) as real) + (j % n) as real
    ensures 0.0 <= (j % n) as real < n as real
  {
    MulCast(n, j / n);
    assert j == n * (j / n) + j % n;
  }

  lemma ModpIsRemainder(x: real, m: real, q: int, r: real)
    requires m > 0.0 && x == m * (q as real) + r && 0.0 <= r < m
    ensures Modp(x, m) == r
  {
    ModpIsFloorRemainder(x, m);
    Divided(x, m);
    hide Modp;
    QuotientFloor(x / m, m, q, r);
  }

  lemma ModpOfInteger(j: int, n: int)
    requires n >= 1
    ensures Modp(j as real, n as real) == (j % n) as real
  {
    EuclidAsReal(j, n);
    hide Modp;
    ModpIsRemainder(j as real, n as real, j / n, (j % n) as real);
  }

  lemma Divided(a: real, m: real)
    requires m > 0.0
    ensures m * (a / m) == a
  {
  }

  lemma MulCast(a: int, b: int)
    ensures (a * b) as real == (a as real) * (b as real)
  {
  }

  // ---------------------------------------------------------------- the grid behind the encoding

  /** The index of the grid line nearest to x, in 2^17ths of a zone, when n zones span the circle. */
  function Nearest(x: real, n: int): int
    requires n >= 1
  {
    (131072.0 * (x / (360.0 / (n as real))) + 0.5).Floor
  }

  /** The position of a grid line. */
  function GridPosition(index: int, n: int): real
    requires n >= 1
  {
    360.0 / (n as real) * (index as real / 131072.0)
  }

  lemma NearestBounds(x: real, n: int)
    requires n >= 1
    ensures var u, g := x / (360.0 / (n as real)), Nearest(x, n) as real / 131072.0;
            u - 1.0 / 262144.0 <= g <= u + 1.0 / 262144.0
  {
  }

  lemma ScaleBounds(d: real, u: real, g: real, e: real)
    requires d > 0.0 && u - e <= g <= u + e
    ensures d * u - d * e <= d * g <= d * u + d * e
  {
    MulMono(d, u - e, g);
    MulMono(d, g, u + e);
    Distribute(d, u, e);
  }

  lemma GridIsWithinHalfCell(x: real, n: int)
    requires n >= 1
    ensures var d := 360.0 / (n as real);
            x - d / 262144.0 <= GridPosition(Nearest(x, n), n) <= x + d / 262144.0
  {
    var d := 360.0 / (n as real);
    NearestBounds(x, n);
    Divided(x, d);
    ScaleBounds(d, x / d, Nearest(x, n) as real / 131072.0, 1.0 / 262144.0);
  }

  lemma ScaledQuotient(x: real, d: real, k: real)
    requires d > 0.0
    ensures 131072.0 * (x - d * k) / d == 131072.0 * (x / d) - 131072.0 * k
  {
    var u := x / d;
    assert x - d * k == d * (u - k);
    Cancel(d, u - k);
  }

  lemma Cancel(d: real, v: real)
    requires d > 0.0
    ensures 131072.0 * (d * v) / d == 131072.0 * v
  {
    assert 131072.0 * (d * v) == (131072.0 * v) * d;
  }

  /** The quantised offset together with the zone number is the nearest grid line. */
  lemma QuantizeIsNearest(x: real, n: int)
    requires n >= 1
    ensures var d := 360.0 / (n as real);
            Nearest(x, n) == Quantize(x, d) + 131072 * (x / d).Floor && 0 <= Quantize(x, d) <= 131072
  {
    var d := 360.0 / (n as real);
    var k := (x / d).Floor;
    ModpIsFloorRemainder(x, d);
    ScaledQuotient(x, d, k as real);
    var v := 131072.0 * (x / d) + 0.5;
    assert 131072.0 * Modp(x, d) / d + 0.5 == v - (131072 * k) as real;
    ShiftFloor(v, 131072 * k);
  }

  lemma ShiftFloor(v: real, k: int)
    ensures (v - k as real).Floor == v.Floor - k
  {
    FloorIs(v - k as real, v.Floor - k);
  }

  // ---------------------------------------------------------------- recovering the zone

  /**
   * Even index e and odd index o, up to t whole turns, lie on nearby positions: the difference the decoder
   * sees is less than half a zone unit away from an integer.
   */
  predicate NearbyIndices(n: int, e: int, o: int, t: int) {
    -65536 <= Spread(n, e, o, t) < 65536
  }

  function Spread(n: int, e: int, o: int, t: int): int {
    (n - 1) * e - n * o - 131072 * (n * (n - 1) * t)
  }

  lemma ZoneIndexIs(n: int, e: int, o: int, t: int)
    requires NearbyIndices(n, e, o, t)
    ensures ZoneIndex(n, e % 131072, o % 131072)
         == n * (o / 131072) - (n - 1) * (e / 131072) + n * (n - 1) * t
  {
    var ye, yo, ke, ko := e % 131072, o % 131072, e / 131072, o / 131072;
    var turns := n * (n - 1) * t;
    var index := n * ko - (n - 1) * ke + turns;
    var w := (n - 1) * e - n * o - 131072 * turns;
    SplitProduct(n - 1, e);
    SplitProduct(n, o);
    assert (n - 1) * ye - n * yo == w + 131072 * index;
    MulCast(n - 1, ye);
    MulCast(n, yo);
    var x := (((n - 1) as real) * (ye as real) - (n as real) * (yo as real)) / 131072.0 + 0.5;
    assert x == ((n - 1) * ye - n * yo) as real / 131072.0 + 0.5;
    assert x == w as real / 131072.0 + index as real + 0.5;
    FloorIs(x, index);
  }

  lemma SplitProduct(a: int, e: int)
    ensures a * e == a * (e % 131072) + 131072 * (a * (e / 131072))
  {
    var y, k := e % 131072, e / 131072;
    assert e == y + 131072 * k;
    calc {
      a * e;
      a * (y + 131072 * k);
      a * y + a * (131072 * k);
    }
  }

  lemma MultipleVanishes(k: int, m: int, n: int)
    requires n >= 1
    ensures (k + n * m) % n == k % n
  {
    var q, r := k / n, k % n;
    assert k + n * m == n * (q + m) + r;
    RemainderIsUnique(k + n * m, n, q + m, r);
  }

  lemma RemainderIsUnique(a: int, n: int, q: int, r: int)
    requires n >= 1 && a == n * q + r && 0 <= r < n
    ensures a % n == r
  {
    var q', r' := a / n, a % n;
    assert n * (q - q') == n * q - n * q' == r' - r;
    if q > q' {
      MulAtLeast(n, q - q');
    } else if q < q' {
      assert n * (q' - q) == n * q' - n * q == r - r';
      MulAtLeast(n, q' - q);
    }
  }

  lemma MulAtLeast(n: int, k: int)
    requires n >= 1 && k >= 1
    ensures n * k >= n
  {
  }

  /** Modulo the number of zones of either kind, the decoder's index is the zone of the encoded position. */
  lemma ZoneRecovered(n: int, e: int, o: int, t: int)
    requires n >= 2 && NearbyIndices(n, e, o, t)
    ensures var j := ZoneIndex(n, e % 131072, o % 131072);
            j % n == (e / 131072) % n && j % (n - 1) == (o / 131072) % (n - 1)
  {
    var ke, ko := e / 131072, o / 131072;
    ZoneIndexIs(n, e, o, t);
    var j := n * ko - (n - 1) * ke + n * (n - 1) * t;
    assert j == ke + n * (ko - ke + (n - 1) * t) by {
      assert n * (ko - ke + (n - 1) * t) == n * ko - n * ke + n * ((n - 1) * t);
    }
    assert j == ko + (n - 1) * (ko - ke + n * t) by {
      assert (n - 1) * (ko - ke + n * t) == (n - 1) * ko - (n - 1) * ke + (n - 1) * (n * t);
    }
    MultipleVanishes(ke, ko - ke + (n - 1) * t, n);
    MultipleVanishes(ko, ko - ke + n * t, n - 1);
  }

  /** A zone and a cell, in zone units, against the index they make up. */
  lemma IndexInZones(n: int, index: int)
    requires n >= 1
    ensures var k := index / 131072;
            index as real / 131072.0
            == (n as real) * ((k / n) as real) + (k % n) as real + (index % 131072) as real / 131072.0
    ensures 0.0 <= (index / 131072 % n) as real + (index % 131072) as real / 131072.0 < n as real
  {
    var k, y := index / 131072, index % 131072;
    MulCast(n, k / n);
    assert k == n * (k / n) + k % n;
    assert k as real == (n * (k / n)) as real + (k % n) as real;
    assert index as real == 131072.0 * (k as real) + y as real;
  }

  lemma ScaleIndex(n: int, index: int)
    requires n >= 1
    ensures var k, d := index / 131072, 360.0 / (n as real);
            GridPosition(index, n)
            == 360.0 * ((k / n) as real) + d * ((k % n) as real + (index % 131072) as real / 131072.0)
  {
    var k, d := index / 131072, 360.0 / (n as real);
    var whole, part := (n as real) * ((k / n) as real), (k % n) as real + (index % 131072) as real / 131072.0;
    IndexInZones(n, index);
    WholeTurns(n, k / n);
    Distribute(d, whole, part);
  }

  lemma OnCircle(d: real, m: real, part: real, circle: real)
    requires d > 0.0 && d * m == circle && 0.0 <= part < m
    ensures 0.0 <= d * part < circle
  {
    MulMonoStrict(d, part, m);
  }

  lemma PlaceIsScaled(n: int, j: int, index: int)
    requires n >= 1 && j % n == (index / 131072) % n
    ensures Place(n, j, index % 131072)
         == 360.0 / (n as real) * ((index / 131072 % n) as real + (index % 131072) as real / 131072.0)
  {
    ModpOfInteger(j, n);
  }

  lemma TurnsAndPart(n: int, j: int, index: int) returns (turns: int, scaled: real)
    requires n >= 1 && j % n == (index / 131072) % n
    ensures GridPosition(index, n) == 360.0 * (turns as real) + scaled
    ensures Place(n, j, index % 131072) == scaled
    ensures 0.0 <= scaled < 360.0
  {
    turns := index / 131072 / n;
    var part := (index / 131072 % n) as real + (index % 131072) as real / 131072.0;
    scaled := 360.0 / (n as real) * part;
    PlaceIsScaled(n, j, index);
    ScaleIndex(n, index);
    IndexInZones(n, index);
    hide *;
    Divided(360.0, n as real);
    OnCircle(360.0 / (n as real), n as real, part, 360.0);
  }

  /** A recovered zone and the transmitted cell give the grid position back, up to whole turns. */
  lemma PlaceIsGridPosition(n: int, j: int, index: int) returns (turns: int)
    requires n >= 1 && j % n == (index / 131072) % n
    ensures Place(n, j, index % 131072) == GridPosition(index, n) - 360.0 * (turns as real)
    ensures 0.0 <= Place(n, j, index % 131072) < 360.0
  {
    var scaled;
    turns, scaled := TurnsAndPart(n, j, index);
    hide *;
  }

  lemma WholeTurns(n: int, turns: int)
    requires n >= 1
    ensures 360.0 / (n as real) * ((n as real) * (turns as real)) == 360.0 * (turns as real)
  {
    var d, m, t := 360.0 / (n as real), n as real, turns as real;
    assert d * m == 360.0;
    assert d * (m * t) == (d * m) * t;
  }

  // ---------------------------------------------------------------- how far apart the pair may be

  /**
   * Positions xe and xo, up to t whole turns, are closer than 360 * (1/2 - (2n-1)/2^18) / (n(n-1)) degrees:
   * half a zone unit less the worst rounding of both messages.
   */
  predicate CloseEnough(n: int, xe: real, xo: real, t: int) {
    var slack := 360.0 * (0.5 - ((2 * n - 1) as real) / 262144.0);
    -slack < Separation(n, xe, xo, t) < slack
  }

  function Separation(n: int, xe: real, xo: real, t: int): real {
    ((n * (n - 1)) as real) * (xe - xo - 360.0 * (t as real))
  }

  lemma ZoneUnits(x: real, m: real)
    requires m > 0.0
    ensures x / (360.0 / m) == x * m / 360.0
  {
    var u, d := x / (360.0 / m), 360.0 / m;
    Divided(x, d);
    Divided(360.0, m);
    assert d * m * u == x * m;
  }

  lemma NearestError(x: real, n: int) returns (err: real)
    requires n >= 1
    ensures Nearest(x, n) as real == 131072.0 * (x * (n as real) / 360.0) + err && -0.5 <= err <= 0.5
  {
    ZoneUnits(x, n as real);
    var u := x / (360.0 / (n as real));
    err := RoundingOf(131072.0 * u);
    assert u == x * (n as real) / 360.0;
  }

  lemma RoundingOf(v: real) returns (err: real)
    ensures (v + 0.5).Floor as real == v + err && -0.5 <= err <= 0.5
  {
    err := (v + 0.5).Floor as real - v;
  }

  lemma RoundingError(m: real, ee: real, eo: real) returns (rounding: real)
    requires m >= 1.0 && -0.5 <= ee <= 0.5 && -0.5 <= eo <= 0.5
    ensures rounding == (m - 1.0) * ee - m * eo
    ensures -(2.0 * m - 1.0) / 2.0 <= rounding <= (2.0 * m - 1.0) / 2.0
  {
    var d := m - 1.0;
    var p := HalfBound(d, ee);
    var q := HalfBound(m, eo);
    rounding := p - q;
  }

  lemma HalfBound(d: real, e: real) returns (p: real)
    requires d >= 0.0 && -0.5 <= e <= 0.5
    ensures p == d * e && -d / 2.0 <= p <= d / 2.0
  {
    p := d * e;
    if d > 0.0 {
      MulMono(d, -0.5, e);
      MulMono(d, e, 0.5);
    } else {
      assert d * e == 0.0 * e;
    }
  }

  lemma ScaleOne(a: real, m: real, x: real, err: real, v: real)
    requires v == 131072.0 * (x * m / 360.0) + err
    ensures a * v == 131072.0 / 360.0 * ((a * m) * x) + a * err
  {
    Distribute(a, 131072.0 * (x * m / 360.0), err);
    assert a * (x * m) == (a * m) * x;
  }

  /** The difference of the scaled indices, as the decoder forms it, in terms of the two positions. */
  lemma ScaledDifference(m: real, xe: real, xo: real, turn: real, ee: real, eo: real, e: real, o: real)
    requires e == 131072.0 * (xe * m / 360.0) + ee
    requires o == 131072.0 * (xo * (m - 1.0) / 360.0) + eo
    ensures (m - 1.0) * e - m * o - 131072.0 * ((m * (m - 1.0)) * turn)
         == 131072.0 / 360.0 * ((m * (m - 1.0)) * (xe - xo - 360.0 * turn)) + ((m - 1.0) * ee - m * eo)
  {
    var c := m * (m - 1.0);
    ScaleOne(m - 1.0, m, xe, ee, e);
    ScaleOne(m, m - 1.0, xo, eo, o);
    assert c == (m - 1.0) * m;
    Distribute(c, xe, xo);
    Distribute(c, xe - xo, 360.0 * turn);
    assert c * (360.0 * turn) == 360.0 * (c * turn);
  }

  lemma SpreadAsReal(n: int, e: int, o: int, t: int)
    ensures Spread(n, e, o, t) as real
         == (n as real - 1.0) * (e as real) - n as real * (o as real)
            - 131072.0 * ((n as real * (n as real - 1.0)) * (t as real))
  {
    MulCast(n, n - 1);
    MulCast(n * (n - 1), t);
    MulCast(n - 1, e);
    MulCast(n, o);
  }

  lemma SpreadIsSeparation(n: int, xe: real, xo: real, t: int, ee: real, eo: real, e: int, o: int)
    requires e as real == 131072.0 * (xe * (n as real) / 360.0) + ee
    requires o as real == 131072.0 * (xo * (n as real - 1.0) / 360.0) + eo
    ensures Spread(n, e, o, t) as real
         == 131072.0 / 360.0 * Separation(n, xe, xo, t) + ((n as real - 1.0) * ee - n as real * eo)
  {
    SpreadAsReal(n, e, o, t);
    ScaledDifference(n as real, xe, xo, t as real, ee, eo, e as real, o as real);
    MulCast(n, n - 1);
    hide Spread;
  }

  /** Rounding moves the spread of the two indices off the scaled separation by at most (2n-1)/2. */
  lemma SpreadNearSeparation(n: int, xe: real, xo: real, t: int) returns (rounding: real)
    requires n >= 2
    ensures Spread(n, Nearest(xe, n), Nearest(xo, n - 1), t) as real
         == 131072.0 / 360.0 * Separation(n, xe, xo, t) + rounding
    ensures -(2.0 * (n as real) - 1.0) / 2.0 <= rounding <= (2.0 * (n as real) - 1.0) / 2.0
  {
    var ee := NearestError(xe, n);
    var eo := NearestError(xo, n - 1);
    hide Nearest;
    hide Spread;
    hide Separation;
    rounding := RoundingError(n as real, ee, eo);
    SpreadIsSeparation(n, xe, xo, t, ee, eo, Nearest(xe, n), Nearest(xo, n - 1));
  }

  lemma ClosePositionsHaveNearbyIndices(n: int, xe: real, xo: real, t: int)
    requires n >= 2 && CloseEnough(n, xe, xo, t)
    ensures NearbyIndices(n, Nearest(xe, n), Nearest(xo, n - 1), t)
  {
    var rounding := SpreadNearSeparation(n, xe, xo, t);
    hide Nearest;
    hide Spread;
    hide Separation;
    CombineErrors(n as real, Spread(n, Nearest(xe, n), Nearest(xo, n - 1), t), Separation(n, xe, xo, t), rounding);
  }

  lemma CombineErrors(m: real, w: int, difference: real, rounding: real)
    requires w as real == 131072.0 / 360.0 * difference + rounding
    requires -(2.0 * m - 1.0) / 2.0 <= rounding <= (2.0 * m - 1.0) / 2.0
    requires var slack := 360.0 * (0.5 - (2.0 * m - 1.0) / 262144.0); -slack < difference < slack
    ensures -65536 <= w < 65536
  {
  }

  // ---------------------------------------------------------------- the encoder and the decoder's latitude

  function Zones(odd: bool): int {
    if odd then 59 else 60
  }

  /** The grid latitude a message stands for: the latitude the decoder rebuilds from it. */
  function RebuiltLatitude(lat: real, odd: bool): real {
    GridPosition(Nearest(lat, Zones(odd)), Zones(odd))
  }

  /** The rounding carried into the next zone: the quantised offset was 2^17 before reduction. */
  predicate InSliver(lat: real, odd: bool) {
    Quantize(lat, LatitudeZone(odd)) == 131072
  }

  lemma EncodedLatitudeCell(nl: ZoneCount, lat: real, lon: real, odd: bool)
    ensures EncodeAirborne(nl, lat, lon, odd).0 == Nearest(lat, Zones(odd)) % 131072
  {
    QuantizeIsNearest(lat, Zones(odd));
    assert LatitudeZone(odd) == 360.0 / (Zones(odd) as real);
    MultipleVanishes(Quantize(lat, LatitudeZone(odd)), (lat / LatitudeZone(odd)).Floor, 131072);
  }

  /**
   * The encoder looks the zone count up at the latitude the decoder rebuilds, except when the rounding carries
   * into the next zone: then it looks exactly one zone width too low.
   */
  lemma EncoderLatitudeAgreesUnlessSliver(lat: real, odd: bool)
    ensures EncoderLatitude(lat, odd)
         == RebuiltLatitude(lat, odd) - if InSliver(lat, odd) then LatitudeZone(odd) else 0.0
    ensures EncoderLatitude(lat, odd) == RebuiltLatitude(lat, odd) <==> !InSliver(lat, odd)
  {
    var d, n := LatitudeZone(odd), Zones(odd);
    var q, k := Quantize(lat, d), (lat / d).Floor;
    assert d == 360.0 / (n as real) && d > 0.0;
    QuantizeIsNearest(lat, n);
    assert RebuiltLatitude(lat, odd) == d * ((q + 131072 * k) as real / 131072.0);
    assert EncoderLatitude(lat, odd) == d * ((q % 131072) as real / 131072.0 + k as real);
    hide RebuiltLatitude, EncoderLatitude, Quantize;
    CarriedLatitude(d, q, k);
  }

  lemma CarriedLatitude(d: real, q: int, k: int)
    requires 0 <= q <= 131072
    ensures d * ((q % 131072) as real / 131072.0 + k as real)
         == d * ((q + 131072 * k) as real / 131072.0) - if q == 131072 then d else 0.0
  {
    assert (q + 131072 * k) as real / 131072.0 == q as real / 131072.0 + k as real;
    if q == 131072 {
      assert q % 131072 == 0;
      assert d * (1.0 + k as real) == d + d * (k as real);
    } else {
      assert q % 131072 == q;
    }
  }

  lemma WithinPoles(lat: real, odd: bool)
    requires -90.0 <= lat <= 90.0
    ensures -90.0 <= RebuiltLatitude(lat, odd) <= 90.0
  {
    var g := Nearest(lat, Zones(odd));
    ZoneUnits(lat, Zones(odd) as real);
    if odd {
      assert -1933312 <= g <= 1933312;
    } else {
      assert -1966080 <= g <= 1966080;
    }
  }

  /** A place on the circle and the grid latitude it came from, once the southern half is unwrapped. */
  lemma UnwrapLatitude(place: real, lat: real, turns: int)
    requires place == lat - 360.0 * (turns as real) && 0.0 <= place < 360.0 && -90.0 <= lat <= 90.0
    ensures (if place >= 270.0 then place - 360.0 else place) == lat
  {
  }

  lemma DecodedLatitudes(latE: real, latO: real)
    requires -90.0 <= latE <= 90.0 && -90.0 <= latO <= 90.0 && CloseEnough(60, latE, latO, 0)
    ensures var e, o := Nearest(latE, 60), Nearest(latO, 59);
            var j := ZoneIndex(60, e % 131072, o % 131072);
            var placeE, placeO := Place(60, j, e % 131072), Place(59, j, o % 131072);
            && (if placeE >= 270.0 then placeE - 360.0 else placeE) == RebuiltLatitude(latE, false)
            && (if placeO >= 270.0 then placeO - 360.0 else placeO) == RebuiltLatitude(latO, true)
  {
    var e, o := Nearest(latE, 60), Nearest(latO, 59);
    var j := ZoneIndex(60, e % 131072, o % 131072);
    ClosePositionsHaveNearbyIndices(60, latE, latO, 0);
    ZoneRecovered(60, e, o, 0);
    var turnsE := PlaceIsGridPosition(60, j, e);
    var turnsO := PlaceIsGridPosition(59, j, o);
    WithinPoles(latE, false);
    WithinPoles(latO, true);
    UnwrapLatitude(Place(60, j, e % 131072), RebuiltLatitude(latE, false), turnsE);
    UnwrapLatitude(Place(59, j, o % 131072), RebuiltLatitude(latO, true), turnsO);
  }

  // ---------------------------------------------------------------- the main theorem

  predicate OffBy(decoded: real, x: real, turns: int, bound: real) {
    -bound <= decoded - x + 360.0 * (turns as real) <= bound
  }

  ghost predicate SameUpToTurns(decoded: real, x: real, bound: real) {
    exists turns: int :: OffBy(decoded, x, turns, bound)
  }

  /** decoded lies within half a cell of x when n zones span the circle, up to whole turns. */
  ghost predicate WithinHalfCell(decoded: real, x: real, n: int)
    requires n >= 1
  {
    SameUpToTurns(decoded, x, 360.0 / (n as real) / 262144.0)
  }

  lemma DecodedLongitude(n: int, m: int, lon: real) returns (decoded: real)
    requires n >= 1 && m % n == (Nearest(lon, n) / 131072) % n
    ensures var place := Place(n, m, Nearest(lon, n) % 131072);
            decoded == (if place >= 180.0 then place - 360.0 else place)
    ensures -180.0 <= decoded < 180.0 && WithinHalfCell(decoded, lon, n)
  {
    var index := Nearest(lon, n);
    var turns := PlaceIsGridPosition(n, m, index);
    GridIsWithinHalfCell(lon, n);
    var place := Place(n, m, index % 131072);
    decoded := if place >= 180.0 then place - 360.0 else place;
    assert OffBy(decoded, lon, if place >= 180.0 then turns + 1 else turns, 360.0 / (n as real) / 262144.0);
  }

  /** Encoder and decoder use the same number of longitude zones for this message. */
  predicate ZoneCountsAgree(nl: ZoneCount, lat: real, odd: bool) {
    nl(EncoderLatitude(lat, odd)) == nl(RebuiltLatitude(lat, odd))
  }

  lemma ZoneCountsAgreeOutsideSliver(nl: ZoneCount, lat: real, odd: bool)
    requires !InSliver(lat, odd)
    ensures ZoneCountsAgree(nl, lat, odd)
  {
    EncoderLatitudeAgreesUnlessSliver(lat, odd);
  }

  lemma EncodedLongitudeCell(nl: ZoneCount, lat: real, lon: real, odd: bool)
    requires ZoneCountsAgree(nl, lat, odd)
    ensures var n := LongitudeZones(nl(RebuiltLatitude(lat, odd)), odd);
            EncodeAirborne(nl, lat, lon, odd).1 == Nearest(lon, n) % 131072
  {
    var n := LongitudeZones(nl(RebuiltLatitude(lat, odd)), odd);
    var dlon := 360.0 / (n as real);
    QuantizeIsNearest(lon, n);
    MultipleVanishes(Quantize(lon, dlon), (lon / dlon).Floor, 131072);
  }

  /** The two longitudes are close enough for this zone count; a single zone needs no closeness. */
  predicate LongitudesClose(zones: int, lonE: real, lonO: real, t: int) {
    zones == 1 || CloseEnough(zones, lonE, lonO, t)
  }

  lemma LongitudeIndexRecovered(zones: int, lonE: real, lonO: real, t: int)
    requires zones >= 1 && LongitudesClose(zones, lonE, lonO, t)
    ensures var nE, nO := LongitudeZones(zones, false), LongitudeZones(zones, true);
            var e, o := Nearest(lonE, nE), Nearest(lonO, nO);
            var m := ZoneIndex(zones, e % 131072, o % 131072);
            m % nE == (e / 131072) % nE && m % nO == (o / 131072) % nO
  {
    if zones >= 2 {
      ClosePositionsHaveNearbyIndices(zones, lonE, lonO, t);
      ZoneRecovered(zones, Nearest(lonE, zones), Nearest(lonO, zones - 1), t);
    }
  }

  /**
   * Global decoding of a pair whose latitudes are close: refused exactly when the two latitudes have different zone
   * counts, otherwise the newer latitude comes back on its grid line; and when encoder and decoder count the same zones
   * and the longitudes are close, the newer longitude comes back within half a cell.
   */
  lemma GlobalDecodeRecovers(nl: ZoneCount, latE: real, lonE: real, latO: real, lonO: real, recentOdd: bool, t: int)
    requires InZoneRange(nl)
    requires -90.0 <= latE <= 90.0 && -90.0 <= latO <= 90.0 && CloseEnough(60, latE, latO, 0)
    ensures var zones := nl(RebuiltLatitude(latE, false));
            var r := GlobalDecodeAirborne(nl, EncodeAirborne(nl, latE, lonE, false),
                                          EncodeAirborne(nl, latO, lonO, true), recentOdd);
            && (r == None <==> zones != nl(RebuiltLatitude(latO, true)))
            && (r.Some? ==>
                  var (lat, lon) := r.value;
                  && lat == (if recentOdd then RebuiltLatitude(latO, true) else RebuiltLatitude(latE, false))
                  && (ZoneCountsAgree(nl, latE, false) && ZoneCountsAgree(nl, latO, true)
                      && LongitudesClose(zones, lonE, lonO, t) ==>
                        && -180.0 <= lon < 180.0
                        && WithinHalfCell(lon, if recentOdd then lonO else lonE, LongitudeZones(zones, recentOdd))))
  {
    var zones := nl(RebuiltLatitude(latE, false));
    DecodedLatitudes(latE, latO);
    WithinPoles(latE, false);
    WithinPoles(latO, true);
    EncodedLatitudeCell(nl, latE, lonE, false);
    EncodedLatitudeCell(nl, latO, lonO, true);
    if zones == nl(RebuiltLatitude(latO, true)) && ZoneCountsAgree(nl, latE, false) && ZoneCountsAgree(nl, latO, true)
       && LongitudesClose(zones, lonE, lonO, t) {
      EncodedLongitudeCell(nl, latE, lonE, false);
      EncodedLongitudeCell(nl, latO, lonO, true);
      LongitudeIndexRecovered(zones, lonE, lonO, t);
      var nE, nO := LongitudeZones(zones, false), LongitudeZones(zones, true);
      var m := ZoneIndex(zones, Nearest(lonE, nE) % 131072, Nearest(lonO, nO) % 131072);
      if recentOdd {
        var lon := DecodedLongitude(nO, m, lonO);
      } else {
        var lon := DecodedLongitude(nE, m, lonE);
      }
    }
    hide EncodeAirborne;
    hide RebuiltLatitude;
    hide ZoneIndex;
    hide Place;
    hide WithinHalfCell;
    hide Nearest;
  }

  /** The decoded latitude is within half a latitude cell: 180 / (60 * 2^17) degrees for even messages. */
  lemma RebuiltLatitudeIsClose(lat: real, odd: bool)
    ensures -LatitudeZone(odd) / 262144.0 <= RebuiltLatitude(lat, odd) - lat <= LatitudeZone(odd) / 262144.0
  {
    GridIsWithinHalfCell(lat, Zones(odd));
  }

  // ---------------------------------------------------------------- every pair, close or not

  predicate IsCell(c: int) {
    0 <= c < 131072
  }

  /** A position on the grid of a zone width has its own cell, in its own zone. */
  lemma GridCell(x: real, d: real, zone: int, cell: int)
    requires d > 0.0 && IsCell(cell) && x == d * (zone as real + cell as real / 131072.0)
    ensures Quantize(x, d) == cell && (x / d).Floor == zone
  {
    var part := cell as real / 131072.0;
    Distribute(d, zone as real, part);
    OnCircle(d, 1.0, part, d);
    ModpIsRemainder(x, d, zone, d * part);
    Cancel(d, part);
    CancelQuotient(x, d, zone as real + part);
    FloorIs(x / d, zone);
    FloorIs(131072.0 * part + 0.5, cell);
  }

  lemma CancelQuotient(x: real, d: real, u: real)
    requires d > 0.0 && x == d * u
    ensures x / d == u
  {
    Divided(x, d);
    if x / d < u {
      MulMonoStrict(d, x / d, u);
    } else if x / d > u {
      MulMonoStrict(d, u, x / d);
    }
  }

  /** The position of a cell in one of n zones. */
  function InZone(n: int, zone: int, cell: int): real
    requires n >= 1
  {
    360.0 / (n as real) * (zone as real + cell as real / 131072.0)
  }

  lemma PlaceIsInZone(n: int, j: int, cell: int)
    requires n >= 1 && IsCell(cell)
    ensures Place(n, j, cell) == InZone(n, j % n, cell) && 0.0 <= InZone(n, j % n, cell) < 360.0
  {
    ModpOfInteger(j, n);
    EuclidAsReal(j, n);
    Divided(360.0, n as real);
    var here := (j % n) as real + cell as real / 131072.0;
    assert 0.0 <= here < n as real;
    hide Modp;
    OnCircle(360.0 / (n as real), n as real, here, 360.0);
  }

  lemma TurnBack(n: int, zone: int, cell: int)
    requires n >= 1
    ensures InZone(n, zone, cell) - 360.0 == InZone(n, zone - n, cell)
  {
    var d, here := 360.0 / (n as real), zone as real + cell as real / 131072.0;
    Divided(360.0, n as real);
    Distribute(d, here, n as real);
    assert (zone - n) as real + cell as real / 131072.0 == here - n as real;
  }

  /** A place counted around the circle, and what unwrapping its upper part gives. */
  lemma UnwrappedPlace(n: int, j: int, cell: int, limit: real) returns (zone: int)
    requires n >= 1 && IsCell(cell)
    ensures var place := Place(n, j, cell);
            && place == InZone(n, j % n, cell) && 0.0 <= place < 360.0
            && (if place >= limit then place - 360.0 else place) == InZone(n, zone, cell)
  {
    hide Place, InZone;
    PlaceIsInZone(n, j, cell);
    TurnBack(n, j % n, cell);
    zone := if Place(n, j, cell) >= limit then j % n - n else j % n;
  }

  /** The latitude a pair gives one of its messages, from -90 up to 270 degrees. */
  function PairLatitude(even: int, odd: int, isOdd: bool): real {
    var n, cell := Zones(isOdd), if isOdd then odd else even;
    var place := InZone(n, ZoneIndex(60, even, odd) % n, cell);
    if place >= 270.0 then place - 360.0 else place
  }

  /** The longitude the newer message gets when there are that many zones at the even message's latitude. */
  function PairLongitude(even: int, odd: int, zones: int, recentOdd: bool): real {
    var n, cell := LongitudeZones(zones, recentOdd), if recentOdd then odd else even;
    var place := InZone(n, ZoneIndex(zones, even, odd) % n, cell);
    if place >= 180.0 then place - 360.0 else place
  }

  lemma PairLatitudeZone(even: int, odd: int, isOdd: bool) returns (zone: int)
    requires IsCell(even) && IsCell(odd)
    ensures var n, cell := Zones(isOdd), if isOdd then odd else even;
            var place := Place(n, ZoneIndex(60, even, odd), cell);
            && (if place >= 270.0 then place - 360.0 else place) == PairLatitude(even, odd, isOdd)
            && PairLatitude(even, odd, isOdd) == InZone(n, zone, cell)
  {
    hide Place, ZoneIndex, InZone;
    zone := UnwrappedPlace(Zones(isOdd), ZoneIndex(60, even, odd), if isOdd then odd else even, 270.0);
  }

  lemma PairLongitudeZone(even: int, odd: int, zones: int, recentOdd: bool) returns (zone: int)
    requires IsCell(even) && IsCell(odd)
    ensures var n, cell := LongitudeZones(zones, recentOdd), if recentOdd then odd else even;
            var place := Place(n, ZoneIndex(zones, even, odd), cell);
            && (if place >= 180.0 then place - 360.0 else place) == PairLongitude(even, odd, zones, recentOdd)
            && PairLongitude(even, odd, zones, recentOdd) == InZone(n, zone, cell)
            && -180.0 <= PairLongitude(even, odd, zones, recentOdd) < 180.0
  {
    hide Place, ZoneIndex, InZone;
    var n := LongitudeZones(zones, recentOdd);
    zone := UnwrappedPlace(n, ZoneIndex(zones, even, odd), if recentOdd then odd else even, 180.0);
  }

  /**
   * A pair is refused if and only if one of its latitudes is past a pole or their zone counts differ; otherwise the
   * newer message's latitude and longitude come out.
   */
  lemma DecodeRefusesIff(nl: ZoneCount, even: (int, int), odd: (int, int), recentOdd: bool)
    requires IsCell(even.0) && IsCell(even.1) && IsCell(odd.0) && IsCell(odd.1)
    ensures var latE, latO := PairLatitude(even.0, odd.0, false), PairLatitude(even.0, odd.0, true);
            var r := GlobalDecodeAirborne(nl, even, odd, recentOdd);
            && (r == None <==> !(-90.0 <= latE <= 90.0) || !(-90.0 <= latO <= 90.0) || nl(latE) != nl(latO))
            && (r.Some? ==>
                  r.value == (if recentOdd then latO else latE, PairLongitude(even.1, odd.1, nl(latE), recentOdd)))
  {
    hide Place, ZoneIndex, PairLatitude, PairLongitude, InZone;
    var zoneE := PairLatitudeZone(even.0, odd.0, false);
    var zoneO := PairLatitudeZone(even.0, odd.0, true);
    var zone := PairLongitudeZone(even.1, odd.1, nl(PairLatitude(even.0, odd.0, false)), recentOdd);
  }

  /**
   * Whatever pair is decoded, close or not, the position lies on the globe and its own encoding is the newer message
   * again, cell for cell.
   */
  lemma DecodedPositionReencodes(nl: ZoneCount, even: (int, int), odd: (int, int), recentOdd: bool)
    requires IsCell(even.0) && IsCell(even.1) && IsCell(odd.0) && IsCell(odd.1)
    ensures var r := GlobalDecodeAirborne(nl, even, odd, recentOdd);
            r.Some? ==>
              var (lat, lon) := r.value;
              && -90.0 <= lat <= 90.0 && -180.0 <= lon < 180.0
              && EncodeAirborne(nl, lat, lon, recentOdd) == (if recentOdd then odd else even)
  {
    hide GlobalDecodeAirborne, EncodeAirborne, Place, ZoneIndex, PairLatitude, PairLongitude, InZone;
    DecodeRefusesIff(nl, even, odd, recentOdd);
    var r := GlobalDecodeAirborne(nl, even, odd, recentOdd);
    if r.Some? {
      var (lat, lon) := r.value;
      var latZone := PairLatitudeZone(even.0, odd.0, recentOdd);
      var lonZone := PairLongitudeZone(even.1, odd.1, nl(lat), recentOdd);
      GridReencodes(nl, lat, lon, recentOdd, latZone, lonZone, if recentOdd then odd else even);
    }
  }

  lemma GridReencodes(nl: ZoneCount, lat: real, lon: real, odd: bool, latZone: int, lonZone: int, cells: (int, int))
    requires IsCell(cells.0) && IsCell(cells.1)
    requires lat == InZone(Zones(odd), latZone, cells.0)
    requires lon == InZone(LongitudeZones(nl(lat), odd), lonZone, cells.1)
    ensures EncodeAirborne(nl, lat, lon, odd) == cells
  {
    hide Quantize;
    GridCell(lat, LatitudeZone(odd), latZone, cells.0);
    assert EncoderLatitude(lat, odd) == lat;
    GridCell(lon, 360.0 / (LongitudeZones(nl(lat), odd) as real), lonZone, cells.1);
  }

  // ---------------------------------------------------------------- the rounding sliver

  /**
   * In the sliver the theorem can fail: at latitude 11.999999 the even message carries 59-zone longitudes (the
   * encoder looked at 6 degrees) while the decoder, at 12 degrees, reads 58 zones; longitude 100 decodes more
   * than 90 degrees away.
   */
  lemma SliverMisplacesLongitude(nl: ZoneCount)
    requires nl(6.0) == 59 && nl(12.0) == 58 && nl(RebuiltLatitude(11.999999, true)) == 58
    ensures InSliver(11.999999, false)
    ensures exists decoded: real ::
              && GlobalDecodeAirborne(nl, EncodeAirborne(nl, 11.999999, 100.0, false),
                                      EncodeAirborne(nl, 11.999999, 100.0, true), false) == Some((12.0, decoded))
              && !SameUpToTurns(decoded, 100.0, 90.0)
  {
    var lat, decoded := 11.999999, SliverLongitude();
    SliverLatitude();
    SliverCells(nl);
    SliverPlace();
    EncodedLatitudeCell(nl, lat, 100.0, false);
    EncodedLatitudeCell(nl, lat, 100.0, true);
    assert CloseEnough(60, lat, lat, 0);
    DecodedLatitudes(lat, lat);
    WithinPoles(lat, true);
    hide EncodeAirborne;
    hide ZoneIndex;
    hide Place;
    hide RebuiltLatitude;
    hide SameUpToTurns;
    hide SliverLongitude;
    assert GlobalDecodeAirborne(nl, EncodeAirborne(nl, lat, 100.0, false),
                                EncodeAirborne(nl, lat, 100.0, true), false) == Some((12.0, decoded));
  }

  function SliverLongitude(): real {
    360.0 / 58.0 * (32.0 + 50972.0 / 131072.0) - 360.0
  }

  lemma SliverCells(nl: ZoneCount)
    requires nl(6.0) == 59 && nl(RebuiltLatitude(11.999999, true)) == 58
    ensures EncodeAirborne(nl, 11.999999, 100.0, false).1 == 50972
    ensures EncodeAirborne(nl, 11.999999, 100.0, true).1 == 109227
  {
    SliverLatitude();
    ZoneCountsAgreeOutsideSliver(nl, 11.999999, true);
    EncodedLongitudeCell(nl, 11.999999, 100.0, true);
    SliverEvenLongitude();
    SliverOddLongitude();
    hide RebuiltLatitude;
    hide EncoderLatitude;
    hide Nearest;
  }

  lemma SliverPlace()
    ensures Place(58, ZoneIndex(58, 50972, 109227), 50972) == SliverLongitude() + 360.0
    ensures 180.0 <= SliverLongitude() + 360.0 && !SameUpToTurns(SliverLongitude(), 100.0, 90.0)
  {
    ModpOfInteger(-26, 58);
    assert ZoneIndex(58, 50972, 109227) == -26;
  }

  lemma SliverLatitude()
    ensures InSliver(11.999999, false) && EncoderLatitude(11.999999, false) == 6.0
    ensures RebuiltLatitude(11.999999, false) == 12.0 && !InSliver(11.999999, true)
  {
    ModpIsFloorRemainder(11.999999, 6.0);
    QuantizeIsNearest(11.999999, 60);
    QuantizeIsNearest(11.999999, 59);
    EncoderLatitudeAgreesUnlessSliver(11.999999, false);
  }

  lemma SliverEvenLongitude()
    ensures Quantize(100.0, 360.0 / 59.0) == 50972
  {
    QuantizeIsNearest(100.0, 59);
    ZoneUnits(100.0, 59.0);
  }

  lemma SliverOddLongitude()
    ensures Nearest(100.0, 57) % 131072 == 109227
  {
    ZoneUnits(100.0, 57.0);
  }
}
