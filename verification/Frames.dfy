/** Altitude fields (crates/mb-modes/src/alt.rs), the 25 ft encodings. */
module Altitude {
  import opened Common

  /** Division as the source's i32 does it: toward zero. */
  function TruncatedDiv(a: int, b: int): int
    requires b > 0
  {
    if a >= 0 then a / b else -(-a / b)
  }

  function Steps(altFt: int): int {
    TruncatedDiv(altFt + 1000, 25)
  }

  /** N[10:4], Q=1, N[3:0]; the source's ORs join disjoint bit groups, written here as sums. */
  function Ac12(altFt: int): Option<int> {
    var n := Steps(altFt);
    if 0 <= n <= 2047 then Some(n / 16 * 32 + 16 + n % 16) else None
  }

  /** N[10:5], M=0, N[4], Q=1, N[3:0]. */
  function Ac13(altFt: int): Option<int> {
    var n := Steps(altFt);
    if 0 <= n <= 2047 then Some(n / 32 * 128 + n / 16 % 2 * 32 + 16 + n % 16) else None
  }

  function Ac12Decode(field: int): Option<int> {
    if field / 16 % 2 == 0 then None
    else Some(25 * (field / 32 % 128 * 16 + field % 16) - 1000)
  }

  function Ac13Decode(field: int): Option<int> {
    if field / 64 % 2 != 0 || field / 16 % 2 == 0 then None
    else Some(25 * (field / 128 % 64 * 32 + field / 32 % 2 * 16 + field % 16) - 1000)
  }

  /** Altitudes -1024..50199 encode; the field decodes to the 25 ft step below (above, between -1024 and -1000). */
  lemma Ac12RoundTrip(altFt: int)
    ensures Ac12(altFt).Some? <==> -1025 < altFt < 50200
    ensures Ac12(altFt).Some? ==>
              0 <= Ac12(altFt).value < 4096 && Ac12Decode(Ac12(altFt).value) == Some(25 * Steps(altFt) - 1000)
    ensures Ac12(altFt).Some? ==> (Ac12Decode(Ac12(altFt).value) == Some(altFt) <==> altFt % 25 == 0)
  {
    var n := Steps(altFt);
    assert 25 * n - 1000 == altFt <==> altFt % 25 == 0;
    if 0 <= n <= 2047 {
      Ac12Bits(n / 16, n % 16);
    }
  }

  lemma Ac12Bits(high: int, low: int)
    requires 0 <= high < 128 && 0 <= low < 16
    ensures Ac12Decode(high * 32 + 16 + low) == Some(25 * (high * 16 + low) - 1000)
  {
    var field := high * 32 + 16 + low;
    assert field / 32 == high && field / 16 == 2 * high + 1 && field % 16 == low;
  }

  /** Every 12-bit field that decodes is the encoding of what it decodes to. */
  lemma Ac12FieldRoundTrip(field: int)
    requires 0 <= field < 4096 && Ac12Decode(field).Some?
    ensures Ac12(Ac12Decode(field).value) == Some(field)
  {
    hide Ac12, Steps;
    var high, low := field / 32, field % 16;
    assert field == 32 * high + 16 + low && 0 <= high < 128;
    Ac12OfGroups(high, low);
  }

  lemma Ac12OfGroups(high: int, low: int)
    requires 0 <= high < 128 && 0 <= low < 16
    ensures Ac12(25 * (high * 16 + low) - 1000) == Some(high * 32 + 16 + low)
  {
    var n := high * 16 + low;
    WholeSteps(n);
    hide Steps;
    assert n / 16 == high && n % 16 == low;
  }

  lemma WholeSteps(n: int)
    requires n >= 0
    ensures Steps(25 * n - 1000) == n
  {
  }

  lemma Ac13RoundTrip(altFt: int)
    ensures Ac13(altFt).Some? <==> Ac12(altFt).Some?
    ensures Ac13(altFt).Some? ==>
              0 <= Ac13(altFt).value < 8192 && Ac13Decode(Ac13(altFt).value) == Some(25 * Steps(altFt) - 1000)
  {
    hide Steps, Ac13Decode;
    var n := Steps(altFt);
    if 0 <= n <= 2047 {
      Ac13Bits(n / 32, n / 16 % 2, n % 16);
      assert n / 16 == 2 * (n / 32) + n / 16 % 2;
    }
  }

  /** Every 13-bit field that decodes is the encoding of what it decodes to. */
  lemma Ac13FieldRoundTrip(field: int)
    requires 0 <= field < 8192 && Ac13Decode(field).Some?
    ensures Ac13(Ac13Decode(field).value) == Some(field)
  {
    hide *;
    DecodedGroups(field);
    Ac13Groups(field);
    Ac13OfGroups(field / 128, field / 32 % 2, field % 16);
  }

  lemma DecodedGroups(field: int)
    requires 0 <= field < 8192 && Ac13Decode(field).Some?
    ensures field / 64 % 2 == 0 && field / 16 % 2 == 1
    ensures Ac13Decode(field).value == 25 * (field / 128 * 32 + field / 32 % 2 * 16 + field % 16) - 1000
  {
    assert field / 128 < 64;
  }

  lemma Ac13Groups(field: int)
    requires 0 <= field < 8192 && field / 64 % 2 == 0 && field / 16 % 2 == 1
    ensures field == field / 128 * 128 + field / 32 % 2 * 32 + 16 + field % 16 && 0 <= field / 128 < 64
  {
    var q16, q32, q64 := field / 16, field / 32, field / 64;
    assert field == 16 * q16 + field % 16;
    assert q16 == 2 * q32 + 1 by {
      assert q32 == q16 / 2;
    }
    assert q32 == 2 * q64 + q32 % 2 by {
      assert q64 == q32 / 2;
    }
    assert q64 == 2 * (field / 128) by {
      assert field / 128 == q64 / 2;
    }
  }

  lemma Ac13OfGroups(high: int, middle: int, low: int)
    requires 0 <= high < 64 && 0 <= middle < 2 && 0 <= low < 16
    ensures Ac13(25 * (high * 32 + middle * 16 + low) - 1000) == Some(high * 128 + middle * 32 + 16 + low)
  {
    var n := high * 32 + middle * 16 + low;
    WholeSteps(n);
    hide Steps;
    assert n / 32 == high && n / 16 == 2 * high + middle && n % 16 == low;
  }

  lemma Ac13Bits(high: int, middle: int, low: int)
    requires 0 <= high < 64 && 0 <= middle < 2 && 0 <= low < 16
    ensures Ac13Decode(high * 128 + middle * 32 + 16 + low) == Some(25 * (high * 32 + middle * 16 + low) - 1000)
  {
    var field := high * 128 + middle * 32 + 16 + low;
    assert field / 128 == high && field / 64 == 2 * high;
    assert field / 32 == 4 * high + middle && field / 16 == 8 * high + 2 * middle + 1;
    assert field % 16 == low;
  }

  /**
   * What the encoding loses is less than one 25 ft step. It floors, as the source's comment has it, if and only if the
   * altitude is at least -1000 ft; the 24 altitudes below that come back as -1000 ft, above themselves.
   */
  lemma EncodingFloorsIff(altFt: int)
    requires Ac12(altFt).Some?
    ensures Ac13(altFt).Some?
    ensures Ac12Decode(Ac12(altFt).value).Some? && Ac13Decode(Ac13(altFt).value).Some?
    ensures var back := Ac12Decode(Ac12(altFt).value).value;
            && Ac13Decode(Ac13(altFt).value).value == back
            && -25 < back - altFt < 25
            && (back <= altFt <==> altFt >= -1000)
            && (altFt < -1000 ==> back == -1000)
  {
    Ac12RoundTrip(altFt);
    Ac13RoundTrip(altFt);
    hide Ac12, Ac13, Ac12Decode, Ac13Decode;
  }
}

/** Downlink frames: builders (crates/mb-modes/src/frames.rs) and parsers (crates/mb-modes/src/decode.rs). */
module Frames {
  import opened Common
  import opened Crc24
  import opened CrcTheorems
  import opened Altitude
  import Cpr

  // ---------------------------------------------------------------- the 56-bit ME field

  function ByteOf(v: int): byte
    requires 0 <= v < 256
  {
    v as bv8
  }

  function ValueOf(b: byte): (v: int)
    ensures 0 <= v < 256
  {
    b as int
  }

  lemma SuccessorByte(b: byte)
    requires ValueOf(b) < 255
    ensures ValueOf(b + 1) == ValueOf(b) + 1
  {
  }

  lemma {:induction false} ByteWithValue(v: int) returns (b: byte)
    requires 0 <= v < 256
    ensures ValueOf(b) == v
    decreases v
  {
    if v == 0 {
      b := 0;
    } else {
      var previous := ByteWithValue(v - 1);
      SuccessorByte(previous);
      b := previous + 1;
    }
  }

  lemma ByteOfValue(b: byte)
    ensures ByteOf(ValueOf(b)) == b
  {
  }

  lemma ByteRoundTrip(v: int)
    requires 0 <= v < 256
    ensures ValueOf(ByteOf(v)) == v
  {
    var b := ByteWithValue(v);
    ByteOfValue(b);
    hide *;
  }

  /** TC(5) SS(2)=0 SAF(1)=0 ALT12 T(1)=0 F(1) LAT17 LON17. */
  function AirborneMe(tc: int, alt12: int, odd: bool, yz: int, xz: int): int {
    tc * 0x8_0000_0000_0000 + alt12 * 0x10_0000_0000 + (if odd then 0x4_0000_0000 else 0) + yz * 0x2_0000 + xz
  }

  predicate MeFieldsInRange(tc: int, alt12: int, yz: int, xz: int) {
    0 <= tc < 32 && 0 <= alt12 < 4096 && 0 <= yz < 131072 && 0 <= xz < 131072
  }

  function MeByte(me: int, i: nat): byte
    requires i < 7
  {
    ByteOf(me / Unit(i) % 256)
  }

  /** 2^(48 - 8i). */
  function Unit(i: nat): int
    requires i < 7
  {
    if i == 0 then 0x1_0000_0000_0000 else if i == 1 then 0x100_0000_0000 else if i == 2 then 0x1_0000_0000
    else if i == 3 then 0x100_0000 else if i == 4 then 0x1_0000 else if i == 5 then 0x100 else 1
  }

  function MeBytes(me: int): (f: seq<byte>)
    ensures |f| == 7
  {
    seq(7, i requires 0 <= i < 7 => MeByte(me, i))
  }

  function MeOf(f: seq<byte>): int
    requires |f| == 7
  {
    ValueOf(f[0]) * 0x1_0000_0000_0000 + ValueOf(f[1]) * 0x100_0000_0000 + ValueOf(f[2]) * 0x1_0000_0000
    + ValueOf(f[3]) * 0x100_0000 + ValueOf(f[4]) * 0x1_0000 + ValueOf(f[5]) * 0x100 + ValueOf(f[6])
  }

  lemma QuotientOf(hi: int, lo: int, unit: int)
    requires 0 <= lo < unit
    ensures (hi * unit + lo) / unit == hi && (hi * unit + lo) % unit == lo
  {
    var a := hi * unit + lo;
    assert unit * (a / unit - hi) == lo - a % unit;
    if a / unit > hi {
      AtLeastUnit(unit, a / unit - hi);
    } else if a / unit < hi {
      AtLeastUnit(unit, hi - a / unit);
    }
  }

  lemma AtLeastUnit(unit: int, k: int)
    requires unit > 0 && k >= 1
    ensures unit * k >= unit
  {
  }

  /** The digit of weight u, above the digit of weight w with u == 256 * w. */
  lemma NestedQuotient(me: int, u: int, w: int)
    requires w > 0 && u == 256 * w
    ensures me / u == me / w / 256
  {
    var q, r := me / w / 256, me / w % 256;
    var rest := r * w + me % w;
    assert me == me / w * w + me % w && me / w == 256 * q + r;
    assert me == q * u + rest by {
      assert me / w * w == (256 * q + r) * w == q * u + r * w;
    }
    assert rest < u by {
      if r < 255 {
        AtLeastUnit(w, 255 - r);
      }
      assert (255 - r) * w == 255 * w - r * w;
    }
    assert r * w >= 0;
    QuotientOf(q, rest, u);
  }

  lemma MeDigits(me: int)
    requires 0 <= me < 0x100_0000_0000_0000
    ensures me == me / Unit(0) % 256 * Unit(0) + me / Unit(1) % 256 * Unit(1) + me / Unit(2) % 256 * Unit(2)
                  + me / Unit(3) % 256 * Unit(3) + me / Unit(4) % 256 * Unit(4) + me / Unit(5) % 256 * Unit(5)
                  + me / Unit(6) % 256
  {
    NestedQuotient(me, Unit(0), Unit(1));
    NestedQuotient(me, Unit(1), Unit(2));
    NestedQuotient(me, Unit(2), Unit(3));
    NestedQuotient(me, Unit(3), Unit(4));
    NestedQuotient(me, Unit(4), Unit(5));
    NestedQuotient(me, Unit(5), Unit(6));
    assert me / Unit(0) < 256;
  }

  lemma MeRoundTrip(me: int)
    requires 0 <= me < 0x100_0000_0000_0000
    ensures MeOf(MeBytes(me)) == me
  {
    forall i | 0 <= i < 7
      ensures ValueOf(MeBytes(me)[i]) == me / Unit(i) % 256
    {
      ByteRoundTrip(me / Unit(i) % 256);
    }
    MeDigits(me);
  }

  lemma MeFields(tc: int, alt12: int, odd: bool, yz: int, xz: int)
    requires MeFieldsInRange(tc, alt12, yz, xz)
    ensures var me := AirborneMe(tc, alt12, odd, yz, xz);
            && 0 <= me < 0x100_0000_0000_0000
            && me / 0x8_0000_0000_0000 % 32 == tc && me / 0x10_0000_0000 % 4096 == alt12
            && (me / 0x4_0000_0000 % 2 == 1 <==> odd)
            && me / 0x2_0000 % 0x2_0000 == yz && me % 0x2_0000 == xz
  {
    var flag := if odd then 1 else 0;
    var position := yz * 0x2_0000 + xz;
    var head := tc * 0x8000 + alt12;
    QuotientOf(tc, alt12 * 0x10_0000_0000 + flag * 0x4_0000_0000 + position, 0x8_0000_0000_0000);
    QuotientOf(head, flag * 0x4_0000_0000 + position, 0x10_0000_0000);
    QuotientOf(tc * 8, alt12, 4096);
    QuotientOf(head * 4 + flag, position, 0x4_0000_0000);
    QuotientOf(head * 2, flag, 2);
    QuotientOf((head * 4 + flag) * 0x2_0000 + yz, xz, 0x2_0000);
    QuotientOf(head * 4 + flag, yz, 0x2_0000);
  }

  // ---------------------------------------------------------------- what the builders produce

  function Sealed(body: seq<byte>): seq<byte> {
    body + Bytes24(Crc(body))
  }

  /** An extended squitter: header byte, address, ME field and parity. */
  function Squitter(head: byte, icao: bv32, me: int): (f: seq<byte>)
    ensures |f| == 14
  {
    Sealed([head] + Bytes24(icao) + MeBytes(me))
  }

  function Df17Head(ca: byte): byte {
    0x88 | (ca & 0x7)
  }

  const DF18_HEAD: byte := 0x92

  function PositionMe(nl: Cpr.ZoneCount, tc: int, alt12: int, lat: real, lon: real, odd: bool): int {
    var (yz, xz) := Cpr.EncodeAirborne(nl, lat, lon, odd);
    AirborneMe(tc, alt12, odd, yz, xz)
  }

  function Df17Frame(nl: Cpr.ZoneCount, icao: bv32, ca: byte, tc: int, altFt: int, lat: real, lon: real, odd: bool)
    : Option<seq<byte>>
  {
    match Ac12(altFt)
    case None => None
    case Some(alt12) => Some(Squitter(Df17Head(ca), icao, PositionMe(nl, tc, alt12, lat, lon, odd)))
  }

  function Df18Pair(nl: Cpr.ZoneCount, icao: bv32, altFt: int, lat: real, lon: real)
    : Option<(seq<byte>, seq<byte>)>
  {
    match Ac12(altFt)
    case None => None
    case Some(alt12) => Some((Squitter(DF18_HEAD, icao, PositionMe(nl, 18, alt12, lat, lon, false)),
                              Squitter(DF18_HEAD, icao, PositionMe(nl, 18, alt12, lat, lon, true))))
  }

  function Df11Frame(icao: bv32, ca: byte): seq<byte> {
    Sealed([0x58 | (ca & 0x7)] + Bytes24(icao))
  }

  /** The 32-bit head of a DF4 reply: DF(5)=4 FS(3) DR(5)=0 UM(6)=0 AC(13). */
  function Df4Body(fs: byte, ac13: int): seq<byte>
    requires 0 <= ac13 < 8192
  {
    [0x20 | (fs & 0x7), 0, ByteOf(ac13 / 256), ByteOf(ac13 % 256)]
  }

  function Df4Frame(icao: bv32, fs: byte, altFt: int): Option<seq<byte>> {
    match Ac13(altFt)
    case None => None
    case Some(ac13) =>
      if 0 <= ac13 < 8192 then
        var body := Df4Body(fs, ac13);
        Some(body + Bytes24(Crc(body) ^ icao))
      else assert false by { Ac13RoundTrip(altFt); } None
  }

  // ---------------------------------------------------------------- the builders

  /** Fills a 14-byte squitter by index, as the two position builders do. */
  method FillSquitter(head: byte, icao: bv32, me: int) returns (f: seq<byte>)
    ensures f == Squitter(head, icao, me)
  {
    f := seq(14, _ => 0);
    f := f[0 := head];
    f := f[1 := ((icao >> 16) & 0xff) as bv8];
    f := f[2 := ((icao >> 8) & 0xff) as bv8];
    f := f[3 := (icao & 0xff) as bv8];
    for i := 0 to 7
      invariant |f| == 14 && f[..4] == [head] + Bytes24(icao)
      invariant forall k :: 0 <= k < i ==> f[4 + k] == MeByte(me, k)
    {
      f := f[4 + i := MeByte(me, i)];
    }
    ghost var body := [head] + Bytes24(icao) + MeBytes(me);
    assert f[..11] == body;
    hide *;
    var p := Crc24.Crc24(f[..11]);
    SetParity(f, p);
    f := f[11 := ((p >> 16) & 0xff) as bv8];
    f := f[12 := ((p >> 8) & 0xff) as bv8];
    f := f[13 := (p & 0xff) as bv8];
    SquitterIs(head, icao, me, p);
  }

  lemma SetParity(f: seq<byte>, p: bv32)
    requires |f| == 14
    ensures f[11 := ((p >> 16) & 0xff) as bv8][12 := ((p >> 8) & 0xff) as bv8][13 := (p & 0xff) as bv8]
         == f[..11] + Bytes24(p)
  {
  }

  lemma SquitterIs(head: byte, icao: bv32, me: int, p: bv32)
    requires var body := [head] + Bytes24(icao) + MeBytes(me); p == Crc(body)
    ensures Squitter(head, icao, me) == [head] + Bytes24(icao) + MeBytes(me) + Bytes24(p)
  {
  }

  method Df17AirbornePosition(nl: Cpr.ZoneCount, icao: bv32, ca: byte, tc: int, altFt: int,
                              lat: real, lon: real, odd: bool)
    returns (frame: Option<seq<byte>>)
    requires 9 <= tc <= 18
    ensures frame == Df17Frame(nl, icao, ca, tc, altFt, lat, lon, odd)
  {
    match Ac12(altFt) {
      case None => frame := None;
      case Some(alt12) =>
        var f := FillSquitter(0x88 | (ca & 0x7), icao, PositionMe(nl, tc, alt12, lat, lon, odd));
        frame := Some(f);
    }
  }

  method Df18PositionPair(nl: Cpr.ZoneCount, icao: bv32, altFt: int, lat: real, lon: real)
    returns (pair: Option<(seq<byte>, seq<byte>)>)
    ensures pair == Df18Pair(nl, icao, altFt, lat, lon)
  {
    match Ac12(altFt) {
      case None => pair := None;
      case Some(alt12) =>
        var even := FillSquitter(DF18_HEAD, icao, PositionMe(nl, 18, alt12, lat, lon, false));
        var odd := FillSquitter(DF18_HEAD, icao, PositionMe(nl, 18, alt12, lat, lon, true));
        pair := Some((even, odd));
    }
  }

  method Df11(icao: bv32, ca: byte) returns (f: seq<byte>)
    ensures f == Df11Frame(icao, ca)
  {
    f := seq(7, _ => 0);
    f := f[0 := 0x58 | (ca & 0x7)];
    f := f[1 := ((icao >> 16) & 0xff) as bv8];
    f := f[2 := ((icao >> 8) & 0xff) as bv8];
    f := f[3 := (icao & 0xff) as bv8];
    assert f[..4] == [0x58 | (ca & 0x7)] + Bytes24(icao);
    hide *;
    var p := Crc24.Crc24(f[..4]);
    f := WithTail(f, p);
    Df11Is(icao, ca);
  }

  method Df4(icao: bv32, fs: byte, altFt: int) returns (frame: Option<seq<byte>>)
    ensures frame == Df4Frame(icao, fs, altFt)
  {
    match Ac13(altFt) {
      case None => frame := None;
      case Some(ac13) =>
        Ac13RoundTrip(altFt);
        var f := seq(7, _ => 0);
        f := f[0 := 0x20 | (fs & 0x7)];
        f := f[2 := ByteOf(ac13 / 256)];
        f := f[3 := ByteOf(ac13 % 256)];
        assert f[..4] == Df4Body(fs, ac13);
        hide Df4Body, Ac13, Bytes24;
        var p := Crc24.Crc24(f[..4]);
        f := WithTail(f, p ^ icao);
        frame := Some(f);
    }
  }

  /** The last three bytes of a short frame, set from a word. */
  method WithTail(body: seq<byte>, p: bv32) returns (f: seq<byte>)
    requires |body| == 7
    ensures f == body[..4] + Bytes24(p)
  {
    f := body[4 := ((p >> 16) & 0xff) as bv8];
    f := f[5 := ((p >> 8) & 0xff) as bv8];
    f := f[6 := (p & 0xff) as bv8];
  }

  lemma Df11Is(icao: bv32, ca: byte)
    ensures var body := [0x58 | (ca & 0x7)] + Bytes24(icao);
            Df11Frame(icao, ca) == body + Bytes24(Crc(body))
  {
  }

  // ---------------------------------------------------------------- the parsers

  datatype Df17Airborne = Df17Airborne(icao: bv32, odd: bool, cprLat: int, cprLon: int, altFt: Option<int>)

  function DownlinkFormat(f: seq<byte>): Option<byte> {
    if |f| == 7 || |f| == 14 then Some(f[0] >> 3) else None
  }

  function ParseDf17Airborne(f: seq<byte>): Option<Df17Airborne> {
    if |f| != 14 || f[0] >> 3 != 17 || Crc(f) != 0 then None
    else
      var me := MeOf(f[4..11]);
      var tc := me / 0x8_0000_0000_0000 % 32;
      if !(9 <= tc <= 18) then None
      else Some(Df17Airborne(Be24(f[1..4]), me / 0x4_0000_0000 % 2 == 1, me / 0x2_0000 % 0x2_0000, me % 0x2_0000,
                             Ac12Decode(me / 0x10_0000_0000 % 4096)))
  }

  function ParseDf11(f: seq<byte>): Option<bv32> {
    if |f| != 7 || f[0] >> 3 != 11 then None else Some(Be24(f[1..4]))
  }

  /** The address overlaid on the parity of a reply, recovered from all but the last three bytes. */
  function OverlaidAddress(f: seq<byte>): bv32
    requires |f| >= 3
  {
    (Crc(f[..|f| - 3]) ^ Be24(f[|f| - 3..])) & 0xFF_FFFF
  }

  function ParseDf4(f: seq<byte>): Option<(bv32, Option<int>)> {
    if |f| != 7 || f[0] >> 3 != 4 then None
    else Some((OverlaidAddress(f), Ac13Decode((ValueOf(f[2]) * 256 + ValueOf(f[3])) % 8192)))
  }

  // ---------------------------------------------------------------- round trips

  lemma HeadBits(ca: byte)
    ensures (0x88 | (ca & 0x7)) >> 3 == 17 && (0x58 | (ca & 0x7)) >> 3 == 11 && (0x20 | (ca & 0x7)) >> 3 == 4
    ensures (0x92 as bv8) >> 3 == 18
  {
  }

  /** A built squitter checks to zero and carries its address and ME field. */
  lemma SquitterRoundTrip(head: byte, icao: bv32, me: int)
    requires 0 <= me < 0x100_0000_0000_0000
    ensures var f := Squitter(head, icao, me);
            f[0] == head && Crc(f) == 0 && Be24(f[1..4]) == icao & 0xFF_FFFF && MeOf(f[4..11]) == me
  {
    var f, body := Squitter(head, icao, me), [head] + Bytes24(icao) + MeBytes(me);
    AppendedParityChecks(body);
    assert f[1..4] == Bytes24(icao) && f[4..11] == MeBytes(me);
    Be24OfBytes24(icao);
    MeRoundTrip(me);
  }

  lemma EncodedCellsInRange(nl: Cpr.ZoneCount, lat: real, lon: real, odd: bool)
    ensures var (yz, xz) := Cpr.EncodeAirborne(nl, lat, lon, odd); 0 <= yz < 131072 && 0 <= xz < 131072
  {
  }

  lemma Df17RoundTrip(nl: Cpr.ZoneCount, icao: bv32, ca: byte, tc: int, altFt: int, lat: real, lon: real, odd: bool)
    requires 9 <= tc <= 18
    ensures var (yz, xz) := Cpr.EncodeAirborne(nl, lat, lon, odd);
            match Df17Frame(nl, icao, ca, tc, altFt, lat, lon, odd)
            case None => !(-1025 < altFt < 50200)
            case Some(f) =>
              -1025 < altFt < 50200 && f[0] == 0x88 | (ca & 0x7) && MeOf(f[4..11]) / 0x8_0000_0000_0000 == tc
              && ParseDf17Airborne(f)
                 == Some(Df17Airborne(icao & 0xFF_FFFF, odd, yz, xz, Some(25 * Steps(altFt) - 1000)))
  {
    Ac12RoundTrip(altFt);
    EncodedCellsInRange(nl, lat, lon, odd);
    if Ac12(altFt).Some? {
      var alt12 := Ac12(altFt).value;
      var (yz, xz) := Cpr.EncodeAirborne(nl, lat, lon, odd);
      MeFields(tc, alt12, odd, yz, xz);
      SquitterRoundTrip(Df17Head(ca), icao, PositionMe(nl, tc, alt12, lat, lon, odd));
      HeadBits(ca);
    }
  }

  lemma Df11RoundTrip(icao: bv32, ca: byte)
    ensures var f := Df11Frame(icao, ca);
            && f[0] == 0x58 | (ca & 0x7)
            && ParseDf11(f) == Some(icao & 0xFF_FFFF) && Crc(f) == 0 && Crc(f[..4]) == Be24(f[4..])
  {
    var body := [0x58 | (ca & 0x7)] + Bytes24(icao);
    var f := Df11Frame(icao, ca);
    assert f[1..4] == Bytes24(icao) && f[..4] == body && f[4..] == Bytes24(Crc(body));
    HeadBits(ca);
    Be24OfBytes24(icao);
    Be24OfBytes24(Crc(body));
    CrcRange(body);
    LowTwentyFour(Crc(body));
    AppendedParityChecks(body);
  }

  lemma LowTwentyFour(x: bv32)
    requires x <= 0xFF_FFFF
    ensures x & 0xFF_FFFF == x
  {
  }

  lemma OverlayCancels(c: bv32, icao: bv32)
    ensures (c ^ ((c ^ icao) & 0xFF_FFFF)) & 0xFF_FFFF == icao & 0xFF_FFFF
  {
  }

  lemma OverlaidAddressRecovered(body: seq<byte>, icao: bv32)
    ensures OverlaidAddress(body + Bytes24(Crc(body) ^ icao)) == icao & 0xFF_FFFF
  {
    var f := body + Bytes24(Crc(body) ^ icao);
    assert f[..|f| - 3] == body && f[|f| - 3..] == Bytes24(Crc(body) ^ icao);
    Be24OfBytes24(Crc(body) ^ icao);
    OverlayCancels(Crc(body), icao);
  }

  lemma Df4BodyRoundTrip(fs: byte, ac13: int)
    requires 0 <= ac13 < 8192
    ensures var body := Df4Body(fs, ac13);
            body[0] >> 3 == 4 && (ValueOf(body[2]) * 256 + ValueOf(body[3])) % 8192 == ac13
  {
    hide ByteOf, ValueOf;
    HeadBits(fs);
    ByteRoundTrip(ac13 / 256);
    ByteRoundTrip(ac13 % 256);
    TwoDigits(ac13);
  }

  lemma Df4BodyHead(fs: byte, ac13: int)
    requires 0 <= ac13 < 8192
    ensures |Df4Body(fs, ac13)| == 4 && Df4Body(fs, ac13)[0] == 0x20 | (fs & 0x7) && Df4Body(fs, ac13)[1] == 0
  {
  }

  lemma TwoDigits(ac13: int)
    requires 0 <= ac13 < 8192
    ensures (ac13 / 256 * 256 + ac13 % 256) % 8192 == ac13
  {
  }

  lemma Df4BodyFrame(icao: bv32, fs: byte, ac13: int)
    requires 0 <= ac13 < 8192
    ensures var body := Df4Body(fs, ac13);
            ParseDf4(body + Bytes24(Crc(body) ^ icao)) == Some((icao & 0xFF_FFFF, Ac13Decode(ac13)))
  {
    var body := Df4Body(fs, ac13);
    Df4BodyRoundTrip(fs, ac13);
    OverlaidAddressRecovered(body, icao);
    hide Df4Body;
    hide OverlaidAddress;
    hide Ac13Decode;
    hide Bytes24;
  }

  /** A DF4 reply hides the address in its parity; the parser recovers both address and altitude. */
  lemma Df4RoundTrip(icao: bv32, fs: byte, altFt: int)
    ensures match Df4Frame(icao, fs, altFt)
            case None => !(-1025 < altFt < 50200)
            case Some(f) =>
              -1025 < altFt < 50200 && f[0] == 0x20 | (fs & 0x7) && f[1] == 0
              && ParseDf4(f) == Some((icao & 0xFF_FFFF, Some(25 * Steps(altFt) - 1000)))
  {
    Ac12RoundTrip(altFt);
    Ac13RoundTrip(altFt);
    hide Ac13;
    hide Ac12;
    hide ParseDf4;
    if Ac13(altFt).Some? {
      Df4BodyFrame(icao, fs, Ac13(altFt).value);
      Df4BodyHead(fs, Ac13(altFt).value);
      hide Df4Body, Bytes24, Crc;
    }
  }

  // ---------------------------------------------------------------- what the parsers accept

  /** The 56 bits of an ME field, group by group: TC(5) SS and SAF(3) ALT(12) T(1) F(1) LAT(17) LON(17). */
  predicate Laid(me: int, tc: int, status: int, alt12: int, t: int, odd: bool, yz: int, xz: int) {
    && MeFieldsInRange(tc, alt12, yz, xz) && 0 <= status < 8 && 0 <= t < 2
    && me == tc * 0x8_0000_0000_0000 + status * 0x1_0000_0000_0000 + alt12 * 0x10_0000_0000 + t * 0x8_0000_0000
             + (if odd then 0x4_0000_0000 else 0) + yz * 0x2_0000 + xz
  }

  /** The digits of base k above weight u. */
  lemma SplitDigit(me: int, u: int, k: int)
    requires me >= 0 && u > 0 && k > 0
    ensures me / u == me / (u * k) * k + me / u % k
  {
    var q, rest := me / u, me % u;
    var a, b := q / k, q % k;
    DigitBelow(b, u, k);
    Regroup(a, k, b, u);
    assert q == a * k + b && me == q * u + rest;
    QuotientOf(a, b * u + rest, u * k);
  }

  lemma DigitBelow(b: int, u: int, k: int)
    requires 0 <= b < k && u > 0
    ensures 0 <= b * u <= u * k - u
  {
    AtLeastUnit(u, k - b);
    assert u * (k - b) == u * k - b * u;
    assert b * u >= 0;
  }

  lemma Regroup(a: int, k: int, b: int, u: int)
    ensures (a * k + b) * u == a * (u * k) + b * u
  {
    assert (a * k) * u == a * (u * k);
  }

  lemma EveryFieldIsLaid(me: int)
    requires 0 <= me < 0x100_0000_0000_0000
    ensures Laid(me, me / 0x8_0000_0000_0000 % 32, me / 0x1_0000_0000_0000 % 8, me / 0x10_0000_0000 % 4096,
                 me / 0x8_0000_0000 % 2, me / 0x4_0000_0000 % 2 == 1, me / 0x2_0000 % 0x2_0000, me % 0x2_0000)
  {
    SplitDigit(me, 0x2_0000, 0x2_0000);
    SplitDigit(me, 0x4_0000_0000, 2);
    SplitDigit(me, 0x8_0000_0000, 2);
    SplitDigit(me, 0x10_0000_0000, 4096);
    SplitDigit(me, 0x1_0000_0000_0000, 8);
    var q17, q34, q35, q36 := me / 0x2_0000, me / 0x4_0000_0000, me / 0x8_0000_0000, me / 0x10_0000_0000;
    var q48, q51 := me / 0x1_0000_0000_0000, me / 0x8_0000_0000_0000;
    assert me == q17 * 0x2_0000 + me % 0x2_0000 && q51 % 32 == q51;
    Layers(me, q17, q34, q35, q36, q48, q51);
  }

  /** Digits gathered layer by layer, from the low end. */
  lemma Layers(me: int, q17: int, q34: int, q35: int, q36: int, q48: int, q51: int)
    requires 0 <= q51 < 32 && me == q17 * 0x2_0000 + me % 0x2_0000
    requires q17 == q34 * 0x2_0000 + q17 % 0x2_0000 && q34 == q35 * 2 + q34 % 2 && q35 == q36 * 2 + q35 % 2
    requires q36 == q48 * 4096 + q36 % 4096 && q48 == q51 * 8 + q48 % 8
    ensures Laid(me, q51, q48 % 8, q36 % 4096, q35 % 2, q34 % 2 == 1, q17 % 0x2_0000, me % 0x2_0000)
  {
  }

  lemma LaidFields(me: int, tc: int, status: int, alt12: int, t: int, odd: bool, yz: int, xz: int)
    requires Laid(me, tc, status, alt12, t, odd, yz, xz)
    ensures me / 0x8_0000_0000_0000 % 32 == tc && me / 0x10_0000_0000 % 4096 == alt12
    ensures (me / 0x4_0000_0000 % 2 == 1 <==> odd) && me / 0x2_0000 % 0x2_0000 == yz && me % 0x2_0000 == xz
  {
    var flag := if odd then 1 else 0;
    var position := yz * 0x2_0000 + xz;
    var low := t * 0x8_0000_0000 + flag * 0x4_0000_0000 + position;
    var head := tc * 8 + status;
    QuotientOf(tc, status * 0x1_0000_0000_0000 + alt12 * 0x10_0000_0000 + low, 0x8_0000_0000_0000);
    QuotientOf(head * 4096 + alt12, low, 0x10_0000_0000);
    QuotientOf(head, alt12, 4096);
    QuotientOf(((head * 4096 + alt12) * 2 + t) * 2 + flag, position, 0x4_0000_0000);
    QuotientOf((head * 4096 + alt12) * 2 + t, flag, 2);
    QuotientOf((((head * 4096 + alt12) * 2 + t) * 2 + flag) * 0x2_0000 + yz, xz, 0x2_0000);
    QuotientOf(((head * 4096 + alt12) * 2 + t) * 2 + flag, yz, 0x2_0000);
  }

  /**
   * A frame parses as an airborne position if and only if it is 14 bytes of DF17 with clean parity whose ME field, bit
   * group by bit group, has a type code from 9 to 18 and the values returned; the altitude may still be undecodable.
   */
  lemma ParsesDf17Iff(f: seq<byte>, d: Df17Airborne)
    ensures ParseDf17Airborne(f) == Some(d) <==>
              && |f| == 14 && f[0] >> 3 == 17 && Crc(f) == 0 && d.icao == Be24(f[1..4])
              && exists tc, status, alt12, t ::
                   && Laid(MeOf(f[4..11]), tc, status, alt12, t, d.odd, d.cprLat, d.cprLon)
                   && 9 <= tc <= 18 && d.altFt == Ac12Decode(alt12)
  {
    if |f| == 14 {
      var me := MeOf(f[4..11]);
      EveryFieldIsLaid(me);
      forall tc, status, alt12, t, odd, yz, xz | Laid(me, tc, status, alt12, t, odd, yz, xz)
        ensures me / 0x8_0000_0000_0000 % 32 == tc && me / 0x10_0000_0000 % 4096 == alt12
        ensures (me / 0x4_0000_0000 % 2 == 1 <==> odd) && me / 0x2_0000 % 0x2_0000 == yz && me % 0x2_0000 == xz
      {
        LaidFields(me, tc, status, alt12, t, odd, yz, xz);
      }
      hide Laid, MeOf, Crc, Ac12Decode, Be24;
    }
  }

  lemma ShortHead(b: byte)
    ensures b >> 3 == 11 <==> b == 0x58 | (b & 0x7)
    ensures b >> 3 == 4 <==> b == 0x20 | (b & 0x7)
  {
  }

  lemma BytesOfJoin(x: byte, y: byte, z: byte)
    ensures Bytes24(Join24(x, y, z)) == [x, y, z] && Join24(x, y, z) <= 0xFF_FFFF
  {
  }

  /** A frame parses as an all-call if and only if it is 7 bytes of DF11 with that address, whatever its parity. */
  lemma ParsesDf11Iff(f: seq<byte>, a: bv32)
    ensures ParseDf11(f) == Some(a) <==>
              && a <= 0xFF_FFFF && |f| == 7
              && f[..4] == [0x58 | (f[0] & 0x7)] + Bytes24(a)
  {
    if |f| == 7 {
      ShortHead(f[0]);
      BytesOfJoin(f[1], f[2], f[3]);
      Be24OfBytes24(a);
      assert f[1..4] == [f[1], f[2], f[3]];
      assert f[..4] == [f[0]] + f[1..4];
      assert a <= 0xFF_FFFF ==> a & 0xFF_FFFF == a;
      hide Be24, Bytes24;
    }
  }

  /**
   * A frame parses as an altitude reply if and only if it is 7 bytes of DF4 whose parity, with the CRC taken off, is
   * the address; the altitude is that of the low 13 bits of bytes 2 and 3.
   */
  lemma ParsesDf4Iff(f: seq<byte>, a: bv32, alt: Option<int>)
    ensures ParseDf4(f) == Some((a, alt)) <==>
              && Is24(a) && |f| == 7 && f[0] == 0x20 | (f[0] & 0x7)
              && f[4..] == Bytes24(Overlay(Crc(f[..4]), a))
              && exists high, ac13 :: IsAc13(f, high, ac13) && alt == Ac13Decode(ac13)
  {
    if |f| == 7 {
      hide IsAc13, Ac13Decode, OverlaidAddress, Overlay, Bytes24, Is24, Crc, ValueOf;
      ShortHead(f[0]);
      var head := ValueOf(f[2]) * 256 + ValueOf(f[3]);
      LowBits(f);
      OverlaidIff(f, a);
    }
  }

  lemma LowBits(f: seq<byte>)
    requires |f| >= 4
    ensures var head := ValueOf(f[2]) * 256 + ValueOf(f[3]);
            IsAc13(f, head / 8192, head % 8192) && forall high, ac13 :: IsAc13(f, high, ac13) ==> ac13 == head % 8192
  {
    hide ValueOf;
    forall high, ac13 | IsAc13(f, high, ac13)
      ensures ac13 == (ValueOf(f[2]) * 256 + ValueOf(f[3])) % 8192
    {
      QuotientOf(high, ac13, 8192);
    }
  }

  predicate IsAc13(f: seq<byte>, high: int, ac13: int)
    requires |f| >= 4
  {
    0 <= ac13 < 8192 && ValueOf(f[2]) * 256 + ValueOf(f[3]) == high * 8192 + ac13
  }

  predicate Is24(w: bv32) {
    w <= 0xFF_FFFF
  }

  /** Address and parity, one laid over the other. */
  function Overlay(parity: bv32, a: bv32): bv32 {
    parity ^ a
  }

  function Uncovered(parity: bv32, tail: bv32): bv32 {
    (parity ^ tail) & 0xFF_FFFF
  }

  /** The recovered address is the one whose overlay gives this tail. */
  lemma OverlaidIff(f: seq<byte>, a: bv32)
    requires |f| == 7
    ensures OverlaidAddress(f) == a <==> Is24(a) && f[4..] == Bytes24(Overlay(Crc(f[..4]), a))
  {
    hide *;
    CrcIs24(f[..4]);
    OverlaidIs(f);
    TailIff(Crc(f[..4]), f[4], f[5], f[6], a);
    TailBytes(f);
  }

  lemma TailBytes(f: seq<byte>)
    requires |f| == 7
    ensures f[4..] == [f[4], f[5], f[6]]
  {
  }

  lemma TailIff(c: bv32, x: byte, y: byte, z: byte, a: bv32)
    requires Is24(c)
    ensures Uncovered(c, Join24(x, y, z)) == a <==> Is24(a) && [x, y, z] == Bytes24(Overlay(c, a))
  {
    hide *;
    JoinedIs24(x, y, z);
    OverlayIff(c, Join24(x, y, z), a);
    if Is24(a) {
      OverlayIs24(c, a);
      BytesIff(x, y, z, Overlay(c, a));
    }
  }

  lemma CrcIs24(data: seq<byte>)
    ensures Is24(Crc(data))
  {
    CrcRange(data);
    hide Crc;
  }

  lemma JoinedIs24(x: byte, y: byte, z: byte)
    ensures Is24(Join24(x, y, z))
  {
    BytesOfJoin(x, y, z);
    hide Join24;
  }

  lemma OverlayIff(c: bv32, p: bv32, a: bv32)
    requires Is24(c) && Is24(p)
    ensures Uncovered(c, p) == a <==> Is24(a) && p == Overlay(c, a)
  {
    OverlayBits(c, p, a);
  }

  lemma OverlayBits(c: bv32, p: bv32, a: bv32)
    requires p <= 0xFF_FFFF && c <= 0xFF_FFFF
    ensures (c ^ p) & 0xFF_FFFF == a <==> a <= 0xFF_FFFF && p == c ^ a
  {
  }

  lemma OverlayIs24(c: bv32, a: bv32)
    requires Is24(c) && Is24(a)
    ensures Is24(Overlay(c, a))
  {
  }

  lemma OverlaidIs(f: seq<byte>)
    requires |f| == 7
    ensures OverlaidAddress(f) == Uncovered(Crc(f[..4]), Join24(f[4], f[5], f[6]))
  {
    hide Crc, Join24;
    assert f[4..][0] == f[4] && f[4..][1] == f[5] && f[4..][2] == f[6];
  }

  lemma BytesIff(x: byte, y: byte, z: byte, w: bv32)
    requires Is24(w)
    ensures Bytes24(w) == [x, y, z] <==> Join24(x, y, z) == w
  {
    assert w & 0xFF_FFFF == w;
    BytesOfJoin(x, y, z);
    if Bytes24(w) == [x, y, z] {
      Be24OfBytes24(w);
      assert Be24([x, y, z]) == Join24(x, y, z);
    }
    hide Bytes24, Join24;
  }

  // ---------------------------------------------------------------- corruption

  /** No error confined to 24 consecutive bits turns one acceptable DF17 frame into another. */
  lemma BurstErrorRejected(f: seq<byte>, g: seq<byte>, k: nat)
    requires ParseDf17Airborne(f).Some? && DifferInBurst(f, g, k)
    ensures ParseDf17Airborne(g) == None
  {
    BurstChangesCrc(f, g, k);
  }
}
