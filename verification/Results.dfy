/** Returned MLAT positions on the Beast output (crates/mlatc/src/main.rs). */
module Results {
  import opened Common
  import opened Beast
  import opened BeastTheorems
  import Crc24
  import CrcTheorems
  import opened Altitude
  import opened Frames
  import Cpr
  import CprTheorems

  datatype ResultPos = ResultPos(addr: bv32, lat: real, lon: real, altFt: int)

  /** 0xFF then "\0MLAT": the counter that marks a synthetic frame. */
  const MLAT_COUNTS: bv64 := 0xFF00_4D4C_4154

  const HEADER: seq<byte> := [0x1a, 0x33, 0xFF, 0x00, 0x4D, 0x4C, 0x41, 0x54, 0x00]

  function MlatMessage(f: seq<byte>): Message {
    Message(MLAT_COUNTS, 0, f)
  }

  lemma HeaderStartsMessage(f: seq<byte>)
    requires |f| == 14
    ensures Encoded(MlatMessage(f)) == HEADER + Stuff(f)
  {
    var p := Payload(MlatMessage(f));
    var counts := [0xFF, 0x00, 0x4D, 0x4C, 0x41, 0x54, 0x00];
    assert CountBytes(MLAT_COUNTS) == counts[..6];
    assert p == counts + f;
    StuffPlainPrefix(counts, f);
  }

  lemma {:induction false} StuffPlainPrefix(plain: seq<byte>, f: seq<byte>)
    requires ESCAPE !in plain
    ensures Stuff(plain + f) == plain + Stuff(f)
    decreases |plain|
  {
    if plain == [] {
      assert plain + f == f;
    } else {
      StuffPlainPrefix(plain[1..], f);
      assert (plain + f)[1..] == plain[1..] + f;
    }
  }

  method BeastBytes(nl: Cpr.ZoneCount, pos: ResultPos) returns (bytes: Option<seq<byte>>)
    ensures bytes == match Df18Pair(nl, pos.addr, pos.altFt, pos.lat, pos.lon)
                     case None => None
                     case Some((even, odd)) => Some(Encoded(MlatMessage(even)) + Encoded(MlatMessage(odd)))
  {
    var pair := Df18PositionPair(nl, pos.addr, pos.altFt, pos.lat, pos.lon);
    match pair {
      case None => bytes := None;
      case Some((even, odd)) =>
        var out := AppendFrame([], even);
        out := AppendFrame(out, odd);
        assert [] + Encoded(MlatMessage(even)) == Encoded(MlatMessage(even));
        hide *;
        bytes := Some(out);
    }
  }

  method AppendFrame(before: seq<byte>, f: seq<byte>) returns (out: seq<byte>)
    requires |f| == 14
    ensures out == before + Encoded(MlatMessage(f))
  {
    out := before + HEADER;
    for i := 0 to |f|
      invariant out == before + HEADER + Stuff(f[..i])
    {
      StuffAppend(f[..i], f[i]);
      assert f[..i + 1] == f[..i] + [f[i]];
      out := out + [f[i]];
      if f[i] == 0x1A {
        out := out + [0x1A];
      }
    }
    assert f[..|f|] == f;
    HeaderStartsMessage(f);
  }

  // ---------------------------------------------------------------- end to end

  /** The two CPR cells carried by a position squitter. */
  function CprOf(f: seq<byte>): (int, int)
    requires |f| == 14
  {
    var me := MeOf(f[4..11]);
    (me / 0x2_0000 % 0x2_0000, me % 0x2_0000)
  }

  /** DF 18 with CF 2, type code 18, this F bit, and an altitude less than one 25 ft step away. */
  predicate IsTisB(f: seq<byte>, odd: bool, altFt: int)
    requires |f| == 14
  {
    var me := MeOf(f[4..11]);
    && f[0] == 0x92
    && me / 0x8_0000_0000_0000 % 32 == 18
    && (me / 0x4_0000_0000 % 2 == 1 <==> odd)
    && Ac12Decode(me / 0x10_0000_0000 % 4096).Some?
    && -25 < Ac12Decode(me / 0x10_0000_0000 % 4096).value - altFt < 25
  }

  lemma CarriedHead(f: seq<byte>, alt12: int, odd: bool, yz: int, xz: int, altFt: int)
    requires |f| == 14 && f[0] == 0x92 && MeFieldsInRange(18, alt12, yz, xz) && Ac12(altFt) == Some(alt12)
    requires MeOf(f[4..11]) == AirborneMe(18, alt12, odd, yz, xz)
    ensures IsTisB(f, odd, altFt)
  {
    hide MeOf, Ac12, Ac12Decode;
    MeFields(18, alt12, odd, yz, xz);
    EncodingFloorsIff(altFt);
  }

  lemma CarriedCells(f: seq<byte>, tc: int, alt12: int, odd: bool, yz: int, xz: int)
    requires |f| == 14 && MeFieldsInRange(tc, alt12, yz, xz) && MeOf(f[4..11]) == AirborneMe(tc, alt12, odd, yz, xz)
    ensures CprOf(f) == (yz, xz)
  {
    hide MeOf;
    MeFields(tc, alt12, odd, yz, xz);
  }

  lemma SquitterCarries(icao: bv32, alt12: int, odd: bool, yz: int, xz: int, altFt: int)
    requires MeFieldsInRange(18, alt12, yz, xz) && Ac12(altFt) == Some(alt12)
    ensures var f := Squitter(DF18_HEAD, icao, AirborneMe(18, alt12, odd, yz, xz));
            && Crc24.Crc(f) == 0 && Be24(f[1..4]) == icao & 0xFF_FFFF && CprOf(f) == (yz, xz)
            && IsTisB(f, odd, altFt)
  {
    var me := AirborneMe(18, alt12, odd, yz, xz);
    MeFields(18, alt12, odd, yz, xz);
    SquitterRoundTrip(DF18_HEAD, icao, me);
    CarriedHead(Squitter(DF18_HEAD, icao, me), alt12, odd, yz, xz, altFt);
    CarriedCells(Squitter(DF18_HEAD, icao, me), 18, alt12, odd, yz, xz);
    hide *;
  }

  lemma SyntheticFrame(nl: Cpr.ZoneCount, pos: ResultPos, alt12: int, odd: bool)
    requires Ac12(pos.altFt) == Some(alt12)
    ensures var f := Squitter(DF18_HEAD, pos.addr, PositionMe(nl, 18, alt12, pos.lat, pos.lon, odd));
            && Crc24.Crc(f) == 0 && Be24(f[1..4]) == pos.addr & 0xFF_FFFF
            && CprOf(f) == Cpr.EncodeAirborne(nl, pos.lat, pos.lon, odd) && IsTisB(f, odd, pos.altFt)
  {
    Ac12RoundTrip(pos.altFt);
    EncodedCellsInRange(nl, pos.lat, pos.lon, odd);
    hide Cpr.EncodeAirborne, Squitter, CprOf, Crc24.Crc, Be24, AirborneMe, Ac12, IsTisB;
    var cells := Cpr.EncodeAirborne(nl, pos.lat, pos.lon, odd);
    SquitterCarries(pos.addr, alt12, odd, cells.0, cells.1, pos.altFt);
  }

  /** Bytes sent for one position decode to its two frames and nothing else. */
  lemma ResultBytesDecode(even: seq<byte>, odd: seq<byte>)
    requires |even| == |odd| == 14
    ensures Decode(Encoded(MlatMessage(even)) + Encoded(MlatMessage(odd)))
         == Decoded([Reception(0xFF00_4D4C_4154, even), Reception(0xFF00_4D4C_4154, odd)], [])
  {
    var ms := [MlatMessage(even), MlatMessage(odd)];
    CleanStreamRoundTrip(ms);
    assert ms[1..] == [MlatMessage(odd)] && ms[1..][1..] == [];
    assert Stream(ms[1..]) == Encoded(MlatMessage(odd));
    assert Receptions(ms[1..]) == [MlatMessage(odd).Received()];
  }

  /** And they do so after anything at all of which the reader's decoder keeps nothing. */
  lemma ResultBytesFollow(g: seq<byte>, even: seq<byte>, odd: seq<byte>)
    requires |even| == |odd| == 14 && Decode(g).rest == []
    ensures Decode(g + (Encoded(MlatMessage(even)) + Encoded(MlatMessage(odd))))
         == Decoded(Decode(g).out + [Reception(0xFF00_4D4C_4154, even), Reception(0xFF00_4D4C_4154, odd)], [])
  {
    var bytes := Encoded(MlatMessage(even)) + Encoded(MlatMessage(odd));
    DecodeInTwo(g, bytes);
    ResultBytesDecode(even, odd);
    assert [] + bytes == bytes;
    hide Decode, Encoded;
  }

  /**
   * End to end: every encodable position leaves as two parity-correct TIS-B frames, even and odd, under the MLAT
   * counter, with the altitude to a 25 ft step, and their CPR pair, unless refused for straddling two zone counts,
   * decodes to the position within half a cell.
   */
  lemma ResultPositionSurvives(nl: Cpr.ZoneCount, pos: ResultPos, recentOdd: bool)
    requires Cpr.InZoneRange(nl) && -90.0 <= pos.lat <= 90.0
    ensures match Df18Pair(nl, pos.addr, pos.altFt, pos.lat, pos.lon)
            case None => !(-1025 < pos.altFt < 50200)
            case Some((even, odd)) =>
              && Crc24.Crc(even) == 0 && Crc24.Crc(odd) == 0
              && Be24(even[1..4]) == Be24(odd[1..4]) == pos.addr & 0xFF_FFFF
              && IsTisB(even, false, pos.altFt) && IsTisB(odd, true, pos.altFt)
              && Decode(Encoded(MlatMessage(even)) + Encoded(MlatMessage(odd)))
                 == Decoded([Reception(0xFF00_4D4C_4154, even), Reception(0xFF00_4D4C_4154, odd)], [])
              && PairDecodesTo(nl, CprOf(even), CprOf(odd), recentOdd, pos.lat, pos.lon)
  {
    Ac12RoundTrip(pos.altFt);
    if Ac12(pos.altFt).Some? {
      var alt12 := Ac12(pos.altFt).value;
      SyntheticFrame(nl, pos, alt12, false);
      SyntheticFrame(nl, pos, alt12, true);
      var even := Squitter(DF18_HEAD, pos.addr, PositionMe(nl, 18, alt12, pos.lat, pos.lon, false));
      var odd := Squitter(DF18_HEAD, pos.addr, PositionMe(nl, 18, alt12, pos.lat, pos.lon, true));
      ResultBytesDecode(even, odd);
      SamePositionDecodes(nl, pos.lat, pos.lon, recentOdd);
      hide PairDecodesTo;
      hide IsTisB;
      hide Squitter;
      hide CprOf;
      hide Encoded;
      hide Decode;
    }
  }

  /**
   * The pair is refused exactly for a zone-count straddle; otherwise the latitude decodes within half a cell, and the
   * longitude does when encoder and decoder count the same zones, as they do outside the rounding sliver.
   */
  ghost predicate PairDecodesTo(nl: Cpr.ZoneCount, even: (int, int), odd: (int, int), recentOdd: bool, lat: real,
                                lon: real)
    requires Cpr.InZoneRange(nl)
  {
    var zones := nl(CprTheorems.RebuiltLatitude(lat, false));
    var r := Cpr.GlobalDecodeAirborne(nl, even, odd, recentOdd);
    && (r == None <==> zones != nl(CprTheorems.RebuiltLatitude(lat, true)))
    && (r.Some? ==>
          && -Cpr.LatitudeZone(recentOdd) / 262144.0 <= r.value.0 - lat <= Cpr.LatitudeZone(recentOdd) / 262144.0
          && (CprTheorems.ZoneCountsAgree(nl, lat, false) && CprTheorems.ZoneCountsAgree(nl, lat, true) ==>
                && -180.0 <= r.value.1 < 180.0
                && CprTheorems.WithinHalfCell(r.value.1, lon, Cpr.LongitudeZones(zones, recentOdd))))
  }

  lemma SamePositionDecodes(nl: Cpr.ZoneCount, lat: real, lon: real, recentOdd: bool)
    requires Cpr.InZoneRange(nl) && -90.0 <= lat <= 90.0
    ensures PairDecodesTo(nl, Cpr.EncodeAirborne(nl, lat, lon, false), Cpr.EncodeAirborne(nl, lat, lon, true),
                          recentOdd, lat, lon)
  {
    var zones := nl(CprTheorems.RebuiltLatitude(lat, false));
    SamePositionIsClose(60, lat);
    if zones >= 2 {
      SamePositionIsClose(zones, lon);
    }
    CprTheorems.GlobalDecodeRecovers(nl, lat, lon, lat, lon, recentOdd, 0);
    CprTheorems.RebuiltLatitudeIsClose(lat, recentOdd);
  }

  lemma SamePositionIsClose(n: int, x: real)
    requires 2 <= n <= 60
    ensures CprTheorems.CloseEnough(n, x, x, 0)
  {
    assert x - x - 360.0 * (0 as real) == 0.0;
  }
}
