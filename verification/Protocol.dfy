/** What the engine's messages promise each server, over whole runs. */
module EngineProtocol {
  import opened Common
  import Cpr
  import opened Altitude
  import opened Crc24
  import opened Frames
  import opened Beast
  import opened Engine
  import EngineSimulation

  // ---------------------------------------------------------------- flags of one aircraft at one server

  function Flags(st: EngineState, x: Address, s: nat): Option<PerServer> {
    if x in st.aircraft && s < |st.aircraft[x].servers| then Some(st.aircraft[x].servers[s]) else None
  }

  predicate RequestedBy(st: EngineState, x: Address, s: nat) {
    Flags(st, x, s).Some? && Flags(st, x, s).value.requested
  }

  predicate AnnouncedTo(st: EngineState, x: Address, s: nat) {
    Flags(st, x, s).Some? && Flags(st, x, s).value.announced
  }

  /** Up to the sync time stamp, the flags are unchanged, or the aircraft is new and unflagged. */
  predicate SameFlags(before: Option<PerServer>, after: Option<PerServer>) {
    match (before, after)
    case (Some(p), Some(q)) => p.requested == q.requested && p.announced == q.announced
    case (None, Some(q)) => q == NEW_SERVER
    case (None, None) => true
    case (Some(_), None) => false
  }

  // ---------------------------------------------------------------- what counts as a clock reset and as a pair

  /** The counter fell by more than a second (12 MHz), and by less than 2^46, which a wrap at 2^48 exceeds. */
  predicate JumpsBack(last: Option<bv64>, counts: bv64) {
    last.Some? && 12_000_000 < last.value as int - counts as int < 0x4000_0000_0000
  }

  lemma JumpsBackIff(last: Option<bv64>, counts: bv64)
    ensures JumpsBack(last, counts) <==> last.Some? && WentBack(last.value, counts)
  {
  }

  /** At most four seconds (12 MHz) apart, in either order. */
  predicate FourSecondsApart(e: bv64, d: bv64) {
    -48_000_000 <= e as int - d as int <= 48_000_000
  }

  lemma PairableIff(e: bv64, d: bv64)
    ensures Pairable(e, d) <==> FourSecondsApart(e, d)
  {
    AbsDiffAtMost(e as int, d as int);
  }

  lemma AbsDiffAtMost(x: int, y: int)
    ensures AbsDiff(x, y) <= 48_000_000 <==> -48_000_000 <= x - y <= 48_000_000
  {
  }

  lemma DetectResetFlags(st: EngineState, counts: bv64, x: Address, s: nat)
    ensures Flags(DetectReset(st, counts).0, x, s) == Flags(st, x, s)
  {
  }

  lemma TouchFlags(st: EngineState, addr: Address, now: real, validated: bool, x: Address, s: nat)
    requires s < st.n
    ensures SameFlags(Flags(st, x, s), Flags(Touch(st, addr, now, validated), x, s))
  {
  }

  lemma PairSyncFlags(st: EngineState, addr: Address, odd: bool, r: Reception, now: real, x: Address, s: nat)
    ensures SameFlags(Flags(st, x, s), Flags(PairSync(st, addr, odd, r, now).0, x, s))
    ensures addr in st.aircraft ==> (x in PairSync(st, addr, odd, r, now).0.aircraft <==> x in st.aircraft)
  {
  }

  /** Receptions never request, announce or forget an aircraft. */
  lemma ReceptionFlags(st: EngineState, r: Reception, now: real, x: Address, s: nat)
    requires WellFormed(st) && s < st.n
    ensures SameFlags(Flags(st, x, s), Flags(OnReception(st, r, now).0, x, s))
  {
    var st1 := DetectReset(st, r.counts).0;
    DetectResetFlags(st, r.counts, x, s);
    DetectResetWellFormed(st, r.counts);
    hide DetectReset, Classify, PairSync, Touch;
    match Classify(r.frame)
    case Ignored =>
    case Squitter(addr, position) =>
      TouchFlags(st1, addr, now, true, x, s);
      if position.Some? {
        PairSyncFlags(Touch(st1, addr, now, true), addr, position.value, r, now, x, s);
      }
    case AllCall(addr) => TouchFlags(st1, addr, now, true, x, s);
    case Overlaid(addr) => TouchFlags(st1, addr, now, false, x, s);
  }

  lemma TickFlags(st: EngineState, now: real, x: Address, s: nat)
    ensures Flags(OnTick(st, now).0, x, s)
         == if Flags(st, x, s).Some? && !Expired(st.aircraft[x], now)
            then Some(Flags(st, x, s).value.(announced := true)) else None
  {
  }

  lemma ServerResetFlags(st: EngineState, t: nat, x: Address, s: nat)
    ensures Flags(ServerReset(st, t), x, s)
         == if t == s && Flags(st, x, s).Some? then Some(NEW_SERVER) else Flags(st, x, s)
  {
  }

  lemma {:induction false} SetRequestedFlags(st: EngineState, t: nat, addrs: seq<Option<Address>>, v: bool, x: Address,
                                             s: nat)
    requires WellFormed(st) && s < st.n
    ensures Flags(SetRequested(st, t, addrs, v), x, s)
         == if t == s && Some(x) in addrs && Flags(st, x, s).Some? then Some(Flags(st, x, s).value.(requested := v))
            else Flags(st, x, s)
    decreases |addrs|
  {
    if addrs != [] {
      assert addrs == [addrs[0]] + addrs[1..];
      if addrs[0].Some? && addrs[0].value in st.aircraft {
        var a := addrs[0].value;
        SetRequestedFlags(st.(aircraft := st.aircraft[a := Request(st.aircraft[a], t, v)]), t, addrs[1..], v, x, s);
      } else {
        SetRequestedFlags(st, t, addrs[1..], v, x, s);
      }
    }
  }

  // ---------------------------------------------------------------- traffic only on request

  lemma {:induction false} FanOutMembers(marked: seq<bool>, msg: ClientMsg, i: nat, o: Outbound)
    requires i <= |marked| && o in FanOut(marked, msg, i)
    ensures o.msg == msg && o.server < |marked| && marked[o.server]
    decreases |marked| - i
  {
    if i < |marked| && o !in (if marked[i] then [Outbound(i, msg)] else []) {
      FanOutMembers(marked, msg, i + 1, o);
    }
  }

  predicate Concerns(kind: Kind, x: Address) {
    !kind.Ignored? && kind.addr == x
  }

  lemma ForwardMembers(st: EngineState, addr: Address, r: Reception, o: Outbound)
    requires o in Forward(st, addr, r)
    ensures o.msg == Mlat(r.counts, r.frame) && RequestedBy(st, addr, o.server)
  {
    FanOutMembers(Requesters(st.aircraft[addr]), Mlat(r.counts, r.frame), 0, o);
  }

  lemma PairSyncMembers(st: EngineState, addr: Address, odd: bool, r: Reception, now: real, o: Outbound)
    requires o in PairSync(st, addr, odd, r, now).1
    ensures RequestedBy(st, addr, o.server)
    ensures var a := Slotted(st.aircraft[addr], odd, r);
            HasPair(a) && var e, d := a.even.value, a.odd.value; o.msg == Sync(e.counts, d.counts, e.frame, d.frame)
  {
    var a := Slotted(st.aircraft[addr], odd, r);
    var e, d := a.even.value, a.odd.value;
    FanOutMembers(SyncTargets(a, now), Sync(e.counts, d.counts, e.frame, d.frame), 0, o);
  }

  lemma ResetMembers(st: EngineState, counts: bv64, o: Outbound)
    requires o in DetectReset(st, counts).1
    ensures o.msg == ClockReset
  {
    FanOutMembers(seq(st.n, _ => true), ClockReset, 0, o);
  }

  lemma StillRequested(before: EngineState, after: EngineState, x: Address, s: nat)
    requires SameFlags(Flags(before, x, s), Flags(after, x, s)) && RequestedBy(after, x, s)
    ensures RequestedBy(before, x, s)
  {
  }

  /** Every mlat and sync message goes to a server that has requested the aircraft the frame belongs to. */
  lemma TrafficOnlyOnRequest(st: EngineState, r: Reception, now: real, o: Outbound)
    requires WellFormed(st) && o in OnReception(st, r, now).1 && o.server < st.n
    ensures o.msg == ClockReset
            || (!Classify(r.frame).Ignored? && RequestedBy(st, Classify(r.frame).addr, o.server)
                && (o.msg == Mlat(r.counts, r.frame) || o.msg.Sync?))
  {
    var (st1, resets) := DetectReset(st, r.counts);
    if o in resets {
      ResetMembers(st, r.counts, o);
    } else {
      DetectResetWellFormed(st, r.counts);
      var kind, s := Classify(r.frame), o.server;
      if !kind.Ignored? {
        DetectResetFlags(st, r.counts, kind.addr, s);
        TouchFlags(st1, kind.addr, now, !kind.Overlaid?, kind.addr, s);
        var st2 := Touch(st1, kind.addr, now, !kind.Overlaid?);
        hide DetectReset, Classify, Touch, Forward, PairSync;
        if kind.Squitter? {
          PairSyncMembers(st2, kind.addr, kind.position.value, r, now, o);
        } else {
          ForwardMembers(st2, kind.addr, r, o);
        }
        StillRequested(st1, st2, kind.addr, s);
      }
    }
  }

  lemma ReceptionServers(st: EngineState, r: Reception, now: real, o: Outbound)
    requires WellFormed(st) && o in OnReception(st, r, now).1
    ensures o.server < st.n
  {
    var (st1, resets) := DetectReset(st, r.counts);
    if o in resets {
      FanOutMembers(seq(st.n, _ => true), ClockReset, 0, o);
    } else {
      DetectResetWellFormed(st, r.counts);
      var kind := Classify(r.frame);
      var st2 := Touch(st1, kind.addr, now, !kind.Overlaid?);
      TouchWellFormed(st1, kind.addr, now, !kind.Overlaid?);
      hide DetectReset, Classify, Touch, WentBack, Pairable;
      if kind.Squitter? {
        PairSyncMembers(st2, kind.addr, kind.position.value, r, now, o);
      } else {
        ForwardMembers(st2, kind.addr, r, o);
      }
    }
  }

  lemma {:induction false} FanOutReaches(marked: seq<bool>, msg: ClientMsg, i: nat, s: nat)
    requires i <= s < |marked|
    ensures Outbound(s, msg) in FanOut(marked, msg, i) <==> marked[s]
    decreases |marked| - i
  {
    var o := Outbound(s, msg);
    if o in FanOut(marked, msg, i) {
      FanOutMembers(marked, msg, i, o);
    }
    if i < s {
      FanOutReaches(marked, msg, i + 1, s);
      assert o in FanOut(marked, msg, i) <==> o in FanOut(marked, msg, i + 1);
    }
  }

  lemma ForwardReaches(st: EngineState, x: Address, r: Reception, s: nat)
    requires WellFormed(st) && s < st.n
    ensures Outbound(s, Mlat(r.counts, r.frame)) in Forward(st, x, r) <==> RequestedBy(st, x, s)
  {
    if x in st.aircraft {
      FanOutReaches(Requesters(st.aircraft[x]), Mlat(r.counts, r.frame), 0, s);
    }
  }

  lemma SameRequests(before: EngineState, after: EngineState, x: Address, s: nat)
    requires SameFlags(Flags(before, x, s), Flags(after, x, s))
    ensures RequestedBy(after, x, s) == RequestedBy(before, x, s)
  {
  }

  /** A reply or all-call of an aircraft goes to every server that has requested it, and to no other. */
  lemma MlatGoesToTheRequesters(st: EngineState, r: Reception, now: real, x: Address, s: nat)
    requires WellFormed(st) && s < st.n && ReplyOf(r.frame, x)
    ensures Outbound(s, Mlat(r.counts, r.frame)) in OnReception(st, r, now).1 <==> RequestedBy(st, x, s)
  {
    ReplyIff(r.frame, x);
    hide ReplyOf;
    RepliesAreForwarded(st, r, now, s);
  }

  lemma RepliesAreForwarded(st: EngineState, r: Reception, now: real, s: nat)
    requires WellFormed(st) && s < st.n
    requires Classify(r.frame).AllCall? || Classify(r.frame).Overlaid?
    ensures Outbound(s, Mlat(r.counts, r.frame)) in OnReception(st, r, now).1
       <==> RequestedBy(st, Classify(r.frame).addr, s)
  {
    var (st1, resets) := DetectReset(st, r.counts);
    var kind, o := Classify(r.frame), Outbound(s, Mlat(r.counts, r.frame));
    var st2 := Touch(st1, kind.addr, now, kind.AllCall?);
    if o in resets {
      ResetMembers(st, r.counts, o);
    }
    DetectResetFlags(st, r.counts, kind.addr, s);
    DetectResetWellFormed(st, r.counts);
    TouchFlags(st1, kind.addr, now, kind.AllCall?, kind.addr, s);
    TouchWellFormed(st1, kind.addr, now, kind.AllCall?);
    hide DetectReset, Classify, Touch, WentBack, Forward;
    SameRequests(st1, st2, kind.addr, s);
    ForwardReaches(st2, kind.addr, r, s);
  }

  /** The slot a new position is paired with. */
  function Partner(st: EngineState, x: Address, odd: bool): Option<Reception> {
    if x !in st.aircraft then None else if odd then st.aircraft[x].even else st.aircraft[x].odd
  }

  /** The pairing limit, even position first. */
  predicate Completes(odd: bool, r: Reception, partner: Reception) {
    if odd then FourSecondsApart(partner.counts, r.counts) else FourSecondsApart(r.counts, partner.counts)
  }

  function SyncOf(odd: bool, r: Reception, partner: Reception): ClientMsg {
    if odd then Sync(partner.counts, r.counts, partner.frame, r.frame)
    else Sync(r.counts, partner.counts, r.frame, partner.frame)
  }

  lemma PairSyncReaches(st: EngineState, x: Address, odd: bool, r: Reception, now: real, s: nat)
    requires WellFormed(st) && s < st.n && x in st.aircraft
    requires Partner(st, x, odd).Some? && Completes(odd, r, Partner(st, x, odd).value)
    ensures Outbound(s, SyncOf(odd, r, Partner(st, x, odd).value)) in PairSync(st, x, odd, r, now).1
       <==> RequestedBy(st, x, s)
  {
    var a := Slotted(st.aircraft[x], odd, r);
    PairableIff(a.even.value.counts, a.odd.value.counts);
    hide Pairable, FourSecondsApart;
    FanOutReaches(SyncTargets(a, now), SyncOf(odd, r, Partner(st, x, odd).value), 0, s);
  }

  lemma TouchKeepsPartner(st: EngineState, x: Address, now: real, odd: bool)
    ensures Partner(Touch(st, x, now, true), x, odd) == Partner(st, x, odd) && x in Touch(st, x, now, true).aircraft
  {
  }

  /** A position that completes a pair within four seconds goes out as a sync to every requester, and to no other. */
  lemma SyncGoesToTheRequesters(st: EngineState, r: Reception, now: real, x: Address, odd: bool, s: nat)
    requires WellFormed(st) && s < st.n && PositionOf(r.frame, x, odd)
    ensures var partner := if JumpsBack(st.lastCounter, r.counts) then None else Partner(st, x, odd);
            partner.Some? && Completes(odd, r, partner.value) ==>
              (Outbound(s, SyncOf(odd, r, partner.value)) in OnReception(st, r, now).1 <==> RequestedBy(st, x, s))
  {
    PositionIff(r.frame, x, odd);
    PartnerAfterDetection(st, r.counts, x, odd);
    hide PositionOf, Completes, SyncOf, Partner, DetectReset, JumpsBack, Classify;
    PositionsArePaired(st, r, now, x, odd, s);
  }

  lemma PartnerAfterDetection(st: EngineState, counts: bv64, x: Address, odd: bool)
    ensures Partner(DetectReset(st, counts).0, x, odd)
         == if JumpsBack(st.lastCounter, counts) then None else Partner(st, x, odd)
  {
    JumpsBackIff(st.lastCounter, counts);
    hide JumpsBack, WentBack;
  }

  lemma PositionsArePaired(st: EngineState, r: Reception, now: real, x: Address, odd: bool, s: nat)
    requires WellFormed(st) && s < st.n && Classify(r.frame) == Squitter(x, Some(odd))
    ensures var partner := Partner(DetectReset(st, r.counts).0, x, odd);
            partner.Some? && Completes(odd, r, partner.value) ==>
              (Outbound(s, SyncOf(odd, r, partner.value)) in OnReception(st, r, now).1 <==> RequestedBy(st, x, s))
  {
    var (st1, resets) := DetectReset(st, r.counts);
    var st2, partner := Touch(st1, x, now, true), Partner(st1, x, odd);
    if partner.Some? && Completes(odd, r, partner.value) {
      var o := Outbound(s, SyncOf(odd, r, partner.value));
      if o in resets {
        ResetMembers(st, r.counts, o);
      }
      DetectResetFlags(st, r.counts, x, s);
      DetectResetWellFormed(st, r.counts);
      TouchFlags(st1, x, now, true, x, s);
      TouchWellFormed(st1, x, now, true);
      TouchKeepsPartner(st1, x, now, odd);
      hide DetectReset, Classify, Touch, WentBack, PairSync, Completes, Partner, SyncOf;
      SameRequests(st1, st2, x, s);
      PairSyncReaches(st2, x, odd, r, now, s);
    }
  }

  // ---------------------------------------------------------------- which frames make an aircraft known

  /** A frame whose address its own parity vouches for. */
  predicate Vouches(f: seq<byte>, x: Address) {
    && (|f| == 7 || |f| == 14) && x == Icao(Be24(f[1..4]))
    && ((f[0] >> 3 == 17 && Crc(f) == 0) || (f[0] >> 3 == 11 && Crc(f) < 80))
  }

  lemma ReceptionKnows(st: EngineState, r: Reception, now: real, x: Address)
    requires x !in st.aircraft
    ensures x in OnReception(st, r, now).0.aircraft <==> Vouches(r.frame, x)
  {
    var st1 := DetectReset(st, r.counts).0;
    var kind := Classify(r.frame);
    assert x !in st1.aircraft;
    assert Vouches(r.frame, x) <==> (kind.Squitter? || kind.AllCall?) && kind.addr == x;
    hide DetectReset, Classify, Vouches;
    if kind.Squitter? && kind.position.Some? {
      PairSyncFlags(Touch(st1, kind.addr, now, true), kind.addr, kind.position.value, r, now, x, 0);
      hide PairSync;
    }
  }

  /** Frames with an overlaid address, and corrupted ones, never make an aircraft known: only vouched-for ones do. */
  lemma OnlyVouchedFramesMakeKnown(st: EngineState, ev: Event, x: Address)
    requires WellFormed(st) && x !in st.aircraft
    ensures x in React(st, ev).0.aircraft <==> ev.Receive? && Vouches(ev.r.frame, x)
  {
    match ev
    case Receive(r, now) => ReceptionKnows(st, r, now, x); hide OnReception, Vouches;
    case Start(s, addrs) => SetRequestedWellFormed(st, s, addrs, true);
    case Stop(s, addrs) => SetRequestedWellFormed(st, s, addrs, false);
    case _ => hide Notices, Rate;
  }

  lemma ParsedPositionIsSquitter(f: seq<byte>)
    requires ParseDf17Airborne(f).Some?
    ensures var d := ParseDf17Airborne(f).value; Classify(f) == Kind.Squitter(Icao(d.icao), Some(d.odd))
  {
    hide Crc, MeOf, Ac12Decode, Be24, OverlaidAddress;
  }

  lemma ParsedAllCall(f: seq<byte>)
    requires ParseDf11(f).Some? && Crc(f) == 0
    ensures Classify(f) == AllCall(Icao(ParseDf11(f).value))
  {
    hide Crc, ParseDf17Airborne, Be24, OverlaidAddress;
  }

  lemma ParsedReply(f: seq<byte>)
    requires ParseDf4(f).Some?
    ensures Classify(f) == Overlaid(Icao(ParseDf4(f).value.0))
  {
    hide Crc, ParseDf17Airborne, Be24, OverlaidAddress, ValueOf, Ac13Decode;
  }

  /** A DF17 airborne position of x: 14 bytes, good parity, type code 9 to 18, its format bit 34 of the ME field. */
  predicate PositionOf(f: seq<byte>, x: Address, odd: bool) {
    && |f| == 14 && f[0] >> 3 == 17 && Crc(f) == 0 && x == Icao(Be24(f[1..4]))
    && 9 <= MeOf(f[4..11]) / 0x8_0000_0000_0000 % 32 <= 18
    && (odd <==> MeOf(f[4..11]) / 0x4_0000_0000 % 2 == 1)
  }

  /** A DF11 all-call of x with one of the 80 interrogator codes, or a reply with x overlaid on its parity. */
  predicate ReplyOf(f: seq<byte>, x: Address) {
    && (|f| == 7 || |f| == 14)
    && if f[0] >> 3 == 11 then Crc(f) < 80 && x == Icao(Be24(f[1..4]))
       else f[0] >> 3 in {0, 4, 5, 16, 20, 21} && x == Icao((Crc(f[..|f| - 3]) ^ Be24(f[|f| - 3..])) & 0xFF_FFFF)
  }

  lemma PositionIff(f: seq<byte>, x: Address, odd: bool)
    ensures Classify(f) == Kind.Squitter(x, Some(odd)) <==> PositionOf(f, x, odd)
  {
    hide Crc, MeOf, Ac12Decode, Be24, OverlaidAddress;
  }

  lemma ReplyIff(f: seq<byte>, x: Address)
    ensures (Classify(f) == AllCall(x) || Classify(f) == Overlaid(x)) <==> ReplyOf(f, x)
  {
    hide Crc, ParseDf17Airborne, Be24;
  }

  /** What the frame builders make, the engine takes for what it is. */
  lemma BuiltFramesAreRecognised(nl: Cpr.ZoneCount, icao: bv32, ca: byte, tc: int, altFt: int, lat: real, lon: real,
                                 odd: bool)
    requires 9 <= tc <= 18 && -1025 < altFt < 50200
    ensures var x := Icao(icao & 0xFF_FFFF);
            && Df17Frame(nl, icao, ca, tc, altFt, lat, lon, odd).Some? && Df4Frame(icao, ca, altFt).Some?
            && Classify(Df17Frame(nl, icao, ca, tc, altFt, lat, lon, odd).value) == Kind.Squitter(x, Some(odd))
            && Classify(Df11Frame(icao, ca)) == AllCall(x)
            && Classify(Df4Frame(icao, ca, altFt).value) == Overlaid(x)
  {
    hide *;
    Df17RoundTrip(nl, icao, ca, tc, altFt, lat, lon, odd);
    Df11RoundTrip(icao, ca);
    Df4RoundTrip(icao, ca, altFt);
    ParsedPositionIsSquitter(Df17Frame(nl, icao, ca, tc, altFt, lat, lon, odd).value);
    ParsedAllCall(Df11Frame(icao, ca));
    ParsedReply(Df4Frame(icao, ca, altFt).value);
  }

  // ---------------------------------------------------------------- seen and lost alternate

  function NoticeOf(msg: ClientMsg, x: Address): seq<bool> {
    if msg.Seen? && x in msg.found then [true] else if msg.Lost? && x in msg.gone then [false] else []
  }

  /** The announcements (true) and withdrawals (false) of x among the messages to server s. */
  function NoticesIn(out: seq<Outbound>, x: Address, s: nat): seq<bool> {
    if out == [] then []
    else (if out[0].server == s then NoticeOf(out[0].msg, x) else []) + NoticesIn(out[1..], x, s)
  }

  lemma {:induction false} NoticesConcat(a: seq<Outbound>, b: seq<Outbound>, x: Address, s: nat)
    ensures NoticesIn(a + b, x, s) == NoticesIn(a, x, s) + NoticesIn(b, x, s)
    decreases |a|
  {
    if a == [] {
      assert a + b == b;
    } else {
      assert (a + b)[1..] == a[1..] + b && (a + b)[0] == a[0];
      NoticesConcat(a[1..], b, x, s);
    }
  }

  lemma {:induction false} NoNotices(out: seq<Outbound>, x: Address, s: nat)
    requires forall o <- out :: !o.msg.Seen? && !o.msg.Lost?
    ensures NoticesIn(out, x, s) == []
    decreases |out|
  {
    if out != [] {
      assert out[0] in out;
      NoNotices(out[1..], x, s);
    }
  }

  lemma QuietFanOut(marked: seq<bool>, msg: ClientMsg, x: Address, s: nat)
    requires !msg.Seen? && !msg.Lost?
    ensures NoticesIn(FanOut(marked, msg, 0), x, s) == []
  {
    forall o | o in FanOut(marked, msg, 0)
      ensures o.msg == msg
    {
      FanOutMembers(marked, msg, 0, o);
    }
    NoNotices(FanOut(marked, msg, 0), x, s);
  }

  lemma QuietReception(st: EngineState, r: Reception, now: real, x: Address, s: nat)
    ensures NoticesIn(OnReception(st, r, now).1, x, s) == []
  {
    var (st1, resets) := DetectReset(st, r.counts);
    QuietFanOut(seq(st.n, _ => true), ClockReset, x, s);
    assert NoticesIn(resets, x, s) == [];
    var kind := Classify(r.frame);
    hide DetectReset, Classify;
    match kind
    case Ignored =>
    case Squitter(addr, position) =>
      if position.Some? {
        QuietPairSync(Touch(st1, addr, now, true), addr, position.value, r, now, x, s);
        NoticesConcat(resets, PairSync(Touch(st1, addr, now, true), addr, position.value, r, now).1, x, s);
      }
    case AllCall(addr) =>
      QuietForward(Touch(st1, addr, now, true), addr, r, x, s);
      NoticesConcat(resets, Forward(Touch(st1, addr, now, true), addr, r), x, s);
    case Overlaid(addr) =>
      QuietForward(Touch(st1, addr, now, false), addr, r, x, s);
      NoticesConcat(resets, Forward(Touch(st1, addr, now, false), addr, r), x, s);
  }

  lemma QuietForward(st: EngineState, addr: Address, r: Reception, x: Address, s: nat)
    ensures NoticesIn(Forward(st, addr, r), x, s) == []
  {
    if addr in st.aircraft {
      QuietFanOut(Requesters(st.aircraft[addr]), Mlat(r.counts, r.frame), x, s);
    }
  }

  lemma QuietPairSync(st: EngineState, addr: Address, odd: bool, r: Reception, now: real, x: Address, s: nat)
    ensures NoticesIn(PairSync(st, addr, odd, r, now).1, x, s) == []
  {
    if addr in st.aircraft && HasPair(Slotted(st.aircraft[addr], odd, r)) {
      var a := Slotted(st.aircraft[addr], odd, r);
      var e, d := a.even.value, a.odd.value;
      QuietFanOut(SyncTargets(a, now), Sync(e.counts, d.counts, e.frame, d.frame), x, s);
    }
  }

  lemma {:induction false} TaggedNotices(t: nat, msgs: seq<ClientMsg>, x: Address, s: nat)
    requires t != s
    ensures NoticesIn(Tagged(t, msgs), x, s) == []
    decreases |msgs|
  {
    if msgs != [] {
      assert Tagged(t, msgs)[1..] == Tagged(t, msgs[1..]);
      TaggedNotices(t, msgs[1..], x, s);
    }
  }

  /** What one tick tells server s about x. */
  function TickNotice(st: EngineState, now: real, x: Address, s: nat): seq<bool> {
    if x in NewlySeen(st, now, s) then [true] else if x in NewlyLost(st, now, s) then [false] else []
  }

  lemma OwnNotices(st: EngineState, now: real, x: Address, s: nat)
    ensures NoticesIn(Tagged(s, NoticesTo(st, now, s)), x, s) == TickNotice(st, now, x, s)
  {
    var found, gone := NewlySeen(st, now, s), NewlyLost(st, now, s);
    var msgs := NoticesTo(st, now, s);
    assert x in found ==> x !in gone;
    hide NewlySeen, NewlyLost;
    var out := Tagged(s, msgs);
    if |out| == 2 {
      assert out[1..] == [out[1]] && out[1..][1..] == [];
      assert NoticesIn(out[1..], x, s) == NoticeOf(msgs[1], x);
    } else if |out| == 1 {
      assert out[1..] == [];
      assert NoticesIn(out, x, s) == NoticeOf(msgs[0], x);
    }
  }

  lemma {:induction false} TickNoticesFrom(st: EngineState, now: real, i: nat, x: Address, s: nat)
    requires i <= st.n
    ensures NoticesIn(Notices(st, now, i), x, s) == if i <= s < st.n then TickNotice(st, now, x, s) else []
    decreases st.n - i
  {
    if i < st.n {
      TickNoticesFrom(st, now, i + 1, x, s);
      NoticesConcat(Tagged(i, NoticesTo(st, now, i)), Notices(st, now, i + 1), x, s);
      if i == s {
        OwnNotices(st, now, x, s);
      } else {
        TaggedNotices(i, NoticesTo(st, now, i), x, s);
      }
      hide NoticesTo, Tagged, NoticesIn, TickNotice;
    }
  }

  lemma TickNotices(st: EngineState, now: real, x: Address, s: nat)
    requires s < st.n
    ensures NoticesIn(OnTick(st, now).1, x, s) == TickNotice(st, now, x, s)
  {
    var (st2, reports) := ReportRates(Sweep(st, now), now);
    TickNoticesFrom(st, now, 0, x, s);
    NoticesConcat(Notices(st, now, 0), reports, x, s);
    var elapsed := Elapsed(now, st.lastRateReport);
    if elapsed >= 30.0 {
      QuietFanOut(seq(st.n, _ => true), RateReport(Rates(Sweep(st, now), elapsed)), x, s);
    }
    assert NoticesIn(reports, x, s) == [];
  }

  /** Not heard for over sixty seconds. */
  predicate SilentFor60(a: Aircraft, now: real) {
    now - a.lastSeen > 60.0
  }

  lemma ExpiredIff(a: Aircraft, now: real)
    ensures Expired(a, now) <==> SilentFor60(a, now)
  {
  }

  /**
   * A tick tells a server that an aircraft is seen if and only if it is known, not silent and not yet announced there,
   * and that it is lost if and only if it is known, silent and announced there; then it is forgotten.
   */
  lemma TickTellsIff(st: EngineState, now: real, x: Address, s: nat)
    requires WellFormed(st) && s < st.n
    ensures NoticesIn(OnTick(st, now).1, x, s)
         == if x !in st.aircraft then []
            else if !SilentFor60(st.aircraft[x], now) then if AnnouncedTo(st, x, s) then [] else [true]
            else if AnnouncedTo(st, x, s) then [false] else []
    ensures x in OnTick(st, now).0.aircraft <==> x in st.aircraft && !SilentFor60(st.aircraft[x], now)
  {
    TickNotices(st, now, x, s);
    if x in st.aircraft {
      ExpiredIff(st.aircraft[x], now);
    }
    hide Notices, NoticesIn, Rate, Expired, SilentFor60;
  }

  /** A reported rate is the count over the time, to two decimals, a half rounded up. */
  lemma RateIsRounded(heard: nat, elapsed: real)
    requires elapsed >= 30.0
    ensures -0.005 < Rate(heard, elapsed) - heard as real / elapsed <= 0.005
    ensures exists cents: int :: Rate(heard, elapsed) == Hundredths(cents)
  {
    var v := heard as real / elapsed * 100.0 + 0.5;
    assert v.Floor as real <= v < v.Floor as real + 1.0;
    assert Rate(heard, elapsed) == Hundredths(v.Floor);
  }

  function Hundredths(cents: int): real {
    cents as real / 100.0
  }

  /** After half a minute a tick reports every aircraft it keeps, with the messages counted since, and starts over. */
  lemma TickReportsRates(st: EngineState, now: real, s: nat)
    requires s < st.n && now - st.lastRateReport >= 30.0
    ensures var next := OnTick(st, now).0;
            && next.lastRateReport == now && (forall x :: x in next.aircraft ==> next.aircraft[x].heard == 0)
            && (next.aircraft != map[] ==>
                  Outbound(s, RateReport(map x | x in next.aircraft ::
                                           Rate(st.aircraft[x].heard, now - st.lastRateReport))) in OnTick(st, now).1)
  {
    var swept, elapsed := Sweep(st, now), now - st.lastRateReport;
    assert Elapsed(now, st.lastRateReport) == elapsed;
    var rates := Rates(swept, elapsed);
    var next := OnTick(st, now).0;
    assert next == RatesCleared(swept, now);
    assert rates == map x | x in next.aircraft :: Rate(st.aircraft[x].heard, elapsed);
    if next.aircraft != map[] {
      assert rates.Keys == next.aircraft.Keys;
      var x :| x in next.aircraft;
      assert x in rates;
      FanOutReaches(seq(st.n, _ => true), RateReport(rates), 0, s);
    }
    hide Notices, FanOut, Rate;
  }

  lemma DetectKeepsEntry(st: EngineState, counts: bv64, x: Address)
    requires x in st.aircraft
    ensures var a, after := st.aircraft[x], DetectReset(st, counts).0.aircraft;
            var broken := JumpsBack(st.lastCounter, counts);
            && x in after && after[x].lastSeen == a.lastSeen && after[x].heard == a.heard
            && after[x].even == (if broken then None else a.even)
            && after[x].odd == (if broken then None else a.odd)
  {
    JumpsBackIff(st.lastCounter, counts);
    hide WentBack, JumpsBack;
  }

  lemma TouchKeepsEntry(st: EngineState, addr: Address, now: real, validated: bool, x: Address)
    requires x in st.aircraft
    ensures var a, after := st.aircraft[x], Touch(st, addr, now, validated).aircraft;
            && x in after && after[x].even == a.even && after[x].odd == a.odd
            && after[x].lastSeen == (if addr == x then now else a.lastSeen)
            && after[x].heard == a.heard + if addr == x then 1 else 0
  {
  }

  lemma PairSyncKeepsEntry(st: EngineState, addr: Address, odd: bool, r: Reception, now: real, x: Address)
    requires x in st.aircraft
    ensures var a, after := st.aircraft[x], PairSync(st, addr, odd, r, now).0.aircraft;
            && x in after && after[x].lastSeen == a.lastSeen && after[x].heard == a.heard
            && after[x].even == (if addr == x && !odd then Some(r) else a.even)
            && after[x].odd == (if addr == x && odd then Some(r) else a.odd)
  {
    hide Pairable, FanOut;
  }

  /** A frame that concerns a known aircraft keeps it alive and is counted; others change neither time nor count. */
  lemma HearingKeepsAlive(st: EngineState, r: Reception, now: real, x: Address)
    requires x in st.aircraft
    ensures var a, b := st.aircraft[x], OnReception(st, r, now).0.aircraft;
            && x in b
            && (if Concerns(Classify(r.frame), x) then b[x].lastSeen == now && b[x].heard == a.heard + 1
                else b[x].lastSeen == a.lastSeen && b[x].heard == a.heard)
  {
    ReceptionEntry(st, r, now, x);
    hide Classify, OnReception, JumpsBack;
  }

  lemma ReceptionEntry(st: EngineState, r: Reception, now: real, x: Address)
    requires x in st.aircraft
    ensures var a, after, kind := st.aircraft[x], OnReception(st, r, now).0.aircraft, Classify(r.frame);
            var broken := JumpsBack(st.lastCounter, r.counts);
            && x in after
            && after[x].lastSeen == (if Concerns(kind, x) then now else a.lastSeen)
            && after[x].heard == a.heard + (if Concerns(kind, x) then 1 else 0)
            && after[x].even == (if kind == Squitter(x, Some(false)) then Some(r) else if broken then None else a.even)
            && after[x].odd == (if kind == Squitter(x, Some(true)) then Some(r) else if broken then None else a.odd)
  {
    hide Classify, DetectReset, Touch, PairSync, Forward, JumpsBack;
    DetectKeepsEntry(st, r.counts, x);
    var st1 := DetectReset(st, r.counts).0;
    match Classify(r.frame)
    case Ignored =>
    case Squitter(addr, position) =>
      TouchKeepsEntry(st1, addr, now, true, x);
      if position.Some? {
        PairSyncKeepsEntry(Touch(st1, addr, now, true), addr, position.value, r, now, x);
      }
    case AllCall(addr) => TouchKeepsEntry(st1, addr, now, true, x);
    case Overlaid(addr) =>
      if addr in st1.aircraft {
        TouchKeepsEntry(st1, addr, now, false, x);
      }
  }

  /** An aircraft that becomes known starts with this frame alone: heard once, asked for and announced nowhere. */
  lemma NewcomersStartClean(st: EngineState, r: Reception, now: real, x: Address)
    requires WellFormed(st) && x !in st.aircraft && x in OnReception(st, r, now).0.aircraft
    ensures var a := OnReception(st, r, now).0.aircraft[x];
            && a.lastSeen == now && a.heard == 1
            && a.even == (if PositionOf(r.frame, x, false) then Some(r) else None)
            && a.odd == (if PositionOf(r.frame, x, true) then Some(r) else None)
            && |a.servers| == st.n
            && forall s :: 0 <= s < st.n ==> a.servers[s] == PerServer(false, false, None)
  {
    PositionIff(r.frame, x, false);
    PositionIff(r.frame, x, true);
    hide Classify, PositionOf, DetectReset, Pairable, Forward, FanOut;
    assert DetectReset(st, r.counts).0.aircraft.Keys == st.aircraft.Keys && DetectReset(st, r.counts).0.n == st.n by {
      DetectKeepsKeys(st, r.counts);
    }
  }

  lemma DetectKeepsKeys(st: EngineState, counts: bv64)
    ensures DetectReset(st, counts).0.aircraft.Keys == st.aircraft.Keys && DetectReset(st, counts).0.n == st.n
  {
    hide WentBack, ToAll;
  }

  // ---------------------------------------------------------------- every message has its event

  lemma {:induction false} NoticesMembers(st: EngineState, now: real, i: nat, o: Outbound)
    requires i <= st.n && o in Notices(st, now, i)
    ensures o.msg.Seen? || o.msg.Lost?
    decreases st.n - i
  {
    if i < st.n && o !in Tagged(i, NoticesTo(st, now, i)) {
      NoticesMembers(st, now, i + 1, o);
    }
  }

  lemma ReportMembers(st: EngineState, now: real, o: Outbound)
    requires o in ReportRates(st, now).1
    ensures now - st.lastRateReport >= 30.0
    ensures o.server < st.n && o.msg == RateReport(Rates(st, now - st.lastRateReport))
    ensures Rates(st, now - st.lastRateReport) != map[]
  {
    var rates := Rates(st, Elapsed(now, st.lastRateReport));
    FanOutMembers(seq(st.n, _ => true), RateReport(rates), 0, o);
  }

  lemma TickMembers(st: EngineState, now: real, o: Outbound)
    requires o in OnTick(st, now).1
    ensures o.msg.Seen? || o.msg.Lost? || o.msg.RateReport?
    ensures o.msg.RateReport? ==> o in ReportRates(Sweep(st, now), now).1
  {
    hide Notices, ReportRates, Sweep;
    if o in Notices(st, now, 0) {
      NoticesMembers(st, now, 0, o);
    } else {
      ReportMembers(Sweep(st, now), now, o);
    }
  }

  /** Traffic and resets come from receptions, notices and rates from ticks, and the rest from the input itself. */
  lemma MessagesHaveTheirEvents(st: EngineState, ev: Event, o: Outbound)
    requires WellFormed(st) && o in React(st, ev).1 && o.server < st.n
    ensures ev.Receive? <==> o.msg.Mlat? || o.msg.Sync? || o.msg.ClockReset?
    ensures ev.Tick? <==> o.msg.Seen? || o.msg.Lost? || o.msg.RateReport?
    ensures (ev.InputUp? <==> o.msg.InputConnected?) && (ev.InputDown? <==> o.msg.InputDisconnected?)
  {
    hide OnReception, OnTick, Classify, RequestedBy;
    match ev
    case Receive(r, now) => TrafficOnlyOnRequest(st, r, now, o);
    case Tick(now) => TickMembers(st, now, o);
    case InputUp => FanOutMembers(seq(st.n, _ => true), InputConnected, 0, o);
    case InputDown => FanOutMembers(seq(st.n, _ => true), InputDisconnected, 0, o);
    case _ =>
  }

  /** A tick reports rates only after half a minute, and never an empty report. */
  lemma RateReportsAreDue(st: EngineState, now: real, o: Outbound)
    requires o in OnTick(st, now).1 && o.msg.RateReport?
    ensures now - st.lastRateReport >= 30.0 && OnTick(st, now).0.aircraft != map[] && o.server < st.n
    ensures o.msg.rates == map x | x in OnTick(st, now).0.aircraft ::
                             Rate(st.aircraft[x].heard, now - st.lastRateReport)
  {
    TickMembers(st, now, o);
    var swept, elapsed := Sweep(st, now), now - st.lastRateReport;
    ReportMembers(swept, now, o);
    var next := OnTick(st, now).0;
    assert next == RatesCleared(swept, now);
    hide Rate, Notices, FanOut, ReportRates;
    assert o.msg.rates == Rates(swept, elapsed);
    assert next.aircraft.Keys == Rates(swept, elapsed).Keys;
    var x :| x in Rates(swept, elapsed);
    assert x in next.aircraft;
  }

  /** Every server learns that the input came up, or went down, exactly when it does. */
  lemma InputIsTold(st: EngineState, ev: Event, s: nat)
    requires WellFormed(st) && s < st.n
    ensures Outbound(s, InputConnected) in React(st, ev).1 <==> ev.InputUp?
    ensures Outbound(s, InputDisconnected) in React(st, ev).1 <==> ev.InputDown?
  {
    FanOutReaches(seq(st.n, _ => true), InputConnected, 0, s);
    FanOutReaches(seq(st.n, _ => true), InputDisconnected, 0, s);
    if Outbound(s, InputConnected) in React(st, ev).1 {
      MessagesHaveTheirEvents(st, ev, Outbound(s, InputConnected));
    }
    if Outbound(s, InputDisconnected) in React(st, ev).1 {
      MessagesHaveTheirEvents(st, ev, Outbound(s, InputDisconnected));
    }
    hide OnReception, OnTick, FanOut, SetRequested, ServerReset;
  }

  /** A position that completes its pair stamps the time of this sync for its requesters, and for nobody else. */
  lemma SyncIsStamped(st: EngineState, r: Reception, now: real, x: Address, odd: bool, s: nat)
    requires WellFormed(st) && s < st.n && PositionOf(r.frame, x, odd)
    ensures var partner := if JumpsBack(st.lastCounter, r.counts) then None else Partner(st, x, odd);
            var before, after := Flags(st, x, s), Flags(OnReception(st, r, now).0, x, s);
            partner.Some? && Completes(odd, r, partner.value) ==>
              && before.Some? && after.Some?
              && after.value.lastSync == if before.value.requested then Some(now) else before.value.lastSync
  {
    PositionIff(r.frame, x, odd);
    PartnerAfterDetection(st, r.counts, x, odd);
    DetectResetFlags(st, r.counts, x, s);
    DetectResetWellFormed(st, r.counts);
    var st1 := DetectReset(st, r.counts).0;
    hide PositionOf, Completes, DetectReset, JumpsBack, Classify;
    var partner := Partner(st1, x, odd);
    if partner.Some? && Completes(odd, r, partner.value) {
      TouchKeepsFlags(st1, x, now, x, s);
      TouchKeepsPartner(st1, x, now, odd);
      StampedPair(Touch(st1, x, now, true), x, odd, r, now, s);
    }
  }

  lemma TouchKeepsFlags(st: EngineState, addr: Address, now: real, x: Address, s: nat)
    requires x in st.aircraft
    ensures Flags(Touch(st, addr, now, true), x, s) == Flags(st, x, s)
  {
  }

  lemma StampedPair(st: EngineState, x: Address, odd: bool, r: Reception, now: real, s: nat)
    requires Flags(st, x, s).Some?
    requires Partner(st, x, odd).Some? && Completes(odd, r, Partner(st, x, odd).value)
    ensures var before, after := Flags(st, x, s), Flags(PairSync(st, x, odd, r, now).0, x, s);
            after.Some? && after.value.lastSync == if before.value.requested then Some(now) else before.value.lastSync
  {
    var a := Slotted(st.aircraft[x], odd, r);
    PairableIff(a.even.value.counts, a.odd.value.counts);
    hide Pairable, FourSecondsApart, FanOut;
    assert HasPair(a);
  }

  /** A reception is forwarded only as a reply, and synced only as a position that completes its pair. */
  lemma TrafficHasItsFrame(st: EngineState, r: Reception, now: real, o: Outbound)
    requires WellFormed(st) && o in OnReception(st, r, now).1
    ensures o.msg.Mlat? ==> exists x :: ReplyOf(r.frame, x)
    ensures o.msg.Sync? ==> exists x, odd :: PositionOf(r.frame, x, odd)
  {
    var (st1, resets) := DetectReset(st, r.counts);
    var kind := Classify(r.frame);
    hide DetectReset, Classify, PairSync, Forward, PositionOf, ReplyOf;
    if o in resets {
      ResetMembers(st, r.counts, o);
    } else {
      var st2 := Touch(st1, kind.addr, now, !kind.Overlaid?);
      if kind.Squitter? {
        PositionIff(r.frame, kind.addr, kind.position.value);
        PairSyncMembers(st2, kind.addr, kind.position.value, r, now, o);
      } else {
        ReplyIff(r.frame, kind.addr);
        ForwardMembers(st2, kind.addr, r, o);
      }
    }
  }

  // ---------------------------------------------------------------- all that a reception says to a server

  function ResetSaid(st: EngineState, r: Reception): seq<Outbound> {
    if JumpsBack(st.lastCounter, r.counts) then [Outbound(0, ClockReset)] else []
  }

  /** A reply goes out as it is, a position with the partner it completes, and both to requesters only. */
  function TrafficSaid(st: EngineState, r: Reception, s: nat): seq<Outbound> {
    match Classify(r.frame)
    case AllCall(x) => if RequestedBy(st, x, s) then [Outbound(0, Mlat(r.counts, r.frame))] else []
    case Overlaid(x) => if RequestedBy(st, x, s) then [Outbound(0, Mlat(r.counts, r.frame))] else []
    case Squitter(x, Some(odd)) =>
      var partner := if JumpsBack(st.lastCounter, r.counts) then None else Partner(st, x, odd);
      if RequestedBy(st, x, s) && partner.Some? && Completes(odd, r, partner.value) then
        [Outbound(0, SyncOf(odd, r, partner.value))]
      else []
    case _ => []
  }

  lemma DetectResetSays(st: EngineState, r: Reception, s: nat)
    requires s < st.n
    ensures EngineSimulation.ViewOut(DetectReset(st, r.counts).1, s) == ResetSaid(st, r)
  {
    JumpsBackIff(st.lastCounter, r.counts);
    EngineSimulation.FanOutView(seq(st.n, _ => true), ClockReset, 0, s);
    hide JumpsBack, WentBack, FanOut;
  }

  lemma ForwardSays(st: EngineState, x: Address, r: Reception, s: nat)
    requires WellFormed(st) && s < st.n
    ensures EngineSimulation.ViewOut(Forward(st, x, r), s)
         == if RequestedBy(st, x, s) then [Outbound(0, Mlat(r.counts, r.frame))] else []
  {
    if x in st.aircraft {
      EngineSimulation.FanOutView(Requesters(st.aircraft[x]), Mlat(r.counts, r.frame), 0, s);
    }
  }

  lemma PairSyncSays(st: EngineState, x: Address, odd: bool, r: Reception, now: real, s: nat)
    requires WellFormed(st) && s < st.n && x in st.aircraft
    ensures var partner := Partner(st, x, odd);
            EngineSimulation.ViewOut(PairSync(st, x, odd, r, now).1, s)
            == if RequestedBy(st, x, s) && partner.Some? && Completes(odd, r, partner.value)
               then [Outbound(0, SyncOf(odd, r, partner.value))] else []
  {
    var a := Slotted(st.aircraft[x], odd, r);
    if a.even.Some? && a.odd.Some? {
      PairableIff(a.even.value.counts, a.odd.value.counts);
      hide Pairable, FourSecondsApart, FanOut;
      var partner := Partner(st, x, odd).value;
      assert HasPair(a) <==> Completes(odd, r, partner);
      EngineSimulation.FanOutView(SyncTargets(a, now), SyncOf(odd, r, partner), 0, s);
    }
  }

  /** In order: the reset notice, if the counter jumped back, and then the frame's traffic. */
  lemma ReceptionSays(st: EngineState, r: Reception, now: real, s: nat)
    requires WellFormed(st) && s < st.n
    ensures EngineSimulation.ViewOut(OnReception(st, r, now).1, s) == ResetSaid(st, r) + TrafficSaid(st, r, s)
  {
    var (st1, resets) := DetectReset(st, r.counts);
    DetectResetWellFormed(st, r.counts);
    DetectResetSays(st, r, s);
    hide Classify, DetectReset, PairSync, Forward, Touch, Completes, SyncOf, JumpsBack, RequestedBy, Partner, ResetSaid;
    match Classify(r.frame)
    case Ignored => assert ResetSaid(st, r) + [] == ResetSaid(st, r);
    case Squitter(x, position) =>
      TouchWellFormed(st1, x, now, true);
      if position.Some? {
        var odd := position.value;
        PartnerAfterDetection(st, r.counts, x, odd);
        TouchKeepsPartner(st1, x, now, odd);
        SameRequest(st, r, now, x, true, s);
        PairSyncSays(Touch(st1, x, now, true), x, odd, r, now, s);
        EngineSimulation.ViewOutConcat(resets, PairSync(Touch(st1, x, now, true), x, odd, r, now).1, s);
      } else {
        assert ResetSaid(st, r) + [] == ResetSaid(st, r);
      }
    case AllCall(x) =>
      TouchWellFormed(st1, x, now, true);
      SameRequest(st, r, now, x, true, s);
      ForwardSays(Touch(st1, x, now, true), x, r, s);
      EngineSimulation.ViewOutConcat(resets, Forward(Touch(st1, x, now, true), x, r), s);
    case Overlaid(x) =>
      SameRequest(st, r, now, x, false, s);
      if x in st1.aircraft {
        TouchWellFormed(st1, x, now, false);
        ForwardSays(Touch(st1, x, now, false), x, r, s);
        EngineSimulation.ViewOutConcat(resets, Forward(Touch(st1, x, now, false), x, r), s);
      } else {
        assert ResetSaid(st, r) + [] == ResetSaid(st, r);
      }
  }

  lemma SameRequest(st: EngineState, r: Reception, now: real, x: Address, validated: bool, s: nat)
    requires WellFormed(st) && s < st.n
    ensures var st1 := DetectReset(st, r.counts).0;
            && (RequestedBy(Touch(st1, x, now, validated), x, s) <==> RequestedBy(st, x, s))
            && (RequestedBy(st, x, s) ==> x in st1.aircraft)
  {
    DetectResetFlags(st, r.counts, x, s);
    DetectResetWellFormed(st, r.counts);
    TouchFlags(DetectReset(st, r.counts).0, x, now, validated, x, s);
    hide DetectReset, Touch;
  }

  // ---------------------------------------------------------------- what changes a request

  /**
   * A server's request for an aircraft is set by its start_sending for a known aircraft, and withdrawn by its
   * stop_sending, by the end of its connection, and with the aircraft after sixty seconds of silence; nothing else
   * changes it.
   */
  lemma RequestChangesIff(st: EngineState, ev: Event, x: Address, s: nat)
    requires WellFormed(st) && s < st.n
    ensures RequestedBy(React(st, ev).0, x, s) <==>
              match ev
              case Start(t, addrs) => RequestedBy(st, x, s) || (t == s && x in st.aircraft && Some(x) in addrs)
              case Stop(t, addrs) => RequestedBy(st, x, s) && !(t == s && Some(x) in addrs)
              case ResetServer(t) => RequestedBy(st, x, s) && t != s
              case Tick(now) => RequestedBy(st, x, s) && !SilentFor60(st.aircraft[x], now)
              case _ => RequestedBy(st, x, s)
  {
    match ev
    case Receive(r, now) => ReceptionFlags(st, r, now, x, s); hide OnReception;
    case Tick(now) =>
      TickFlags(st, now, x, s);
      if x in st.aircraft {
        ExpiredIff(st.aircraft[x], now);
      }
      hide OnTick, Expired, SilentFor60;
    case Start(t, addrs) => SetRequestedFlags(st, t, addrs, true, x, s); hide SetRequested;
    case Stop(t, addrs) => SetRequestedFlags(st, t, addrs, false, x, s); hide SetRequested;
    case ResetServer(t) => ServerResetFlags(st, t, x, s); hide ServerReset;
    case InputUp =>
    case InputDown =>
  }

  // ---------------------------------------------------------------- over runs

  /** The state after a run from an empty engine. */
  function After(n: nat, start: real, evs: seq<Event>): (st: EngineState)
    ensures st.n == n && WellFormed(st)
  {
    if evs == [] then EngineState(map[], n, None, start)
    else
      var before := After(n, start, evs[..|evs| - 1]);
      StepWellFormed(before, evs[|evs| - 1]);
      React(before, evs[|evs| - 1]).0
  }

  /** What server s has been told about x since its connection last restarted. */
  function SessionNotices(n: nat, start: real, evs: seq<Event>, x: Address, s: nat): seq<bool> {
    if evs == [] then []
    else
      var i := |evs| - 1;
      if evs[i] == ResetServer(s) then []
      else SessionNotices(n, start, evs[..i], x, s) + NoticesIn(React(After(n, start, evs[..i]), evs[i]).1, x, s)
  }

  predicate Alternates(ns: seq<bool>) {
    forall i :: 0 <= i < |ns| ==> ns[i] == (i % 2 == 0)
  }

  /** One step extends the notices by what the announced flag's change calls for. */
  lemma NoticesFollowFlag(st: EngineState, ev: Event, x: Address, s: nat)
    requires WellFormed(st) && s < st.n && Addressable(ev, st.n) && ev != ResetServer(s)
    ensures NoticesIn(React(st, ev).1, x, s)
         == if AnnouncedTo(React(st, ev).0, x, s) == AnnouncedTo(st, x, s) then []
            else [AnnouncedTo(React(st, ev).0, x, s)]
  {
    match ev
    case Receive(r, now) =>
      QuietReception(st, r, now, x, s);
      ReceptionFlags(st, r, now, x, s);
      hide OnReception;
    case Tick(now) =>
      TickNotices(st, now, x, s);
      TickFlags(st, now, x, s);
      hide OnTick;
    case Start(t, addrs) => SetRequestedFlags(st, t, addrs, true, x, s);
    case Stop(t, addrs) => SetRequestedFlags(st, t, addrs, false, x, s);
    case ResetServer(t) => ServerResetFlags(st, t, x, s);
    case InputUp => QuietFanOut(seq(st.n, _ => true), InputConnected, x, s);
    case InputDown => QuietFanOut(seq(st.n, _ => true), InputDisconnected, x, s);
  }

  lemma AlternationExtends(ns: seq<bool>, was: bool, now: bool)
    requires Alternates(ns) && (was <==> |ns| % 2 == 1)
    ensures var next := ns + if now == was then [] else [now];
            Alternates(next) && (now <==> |next| % 2 == 1)
  {
  }

  /**
   * Over every run, within every session, the seen and lost messages about each aircraft alternate, starting with
   * seen, and the announced flag tells which came last.
   */
  lemma {:induction false} SeenAndLostAlternate(n: nat, start: real, evs: seq<Event>, x: Address, s: nat)
    requires s < n && forall i :: 0 <= i < |evs| ==> Addressable(evs[i], n)
    ensures Alternates(SessionNotices(n, start, evs, x, s))
    ensures AnnouncedTo(After(n, start, evs), x, s) <==> |SessionNotices(n, start, evs, x, s)| % 2 == 1
    decreases |evs|
  {
    hide React, NoticesIn, AnnouncedTo;
    if evs == [] {
      NothingAnnounced(n, start, x, s);
    } else {
      var i := |evs| - 1;
      var st := After(n, start, evs[..i]);
      SeenAndLostAlternate(n, start, evs[..i], x, s);
      if evs[i] == ResetServer(s) {
        ResetWithdraws(st, x, s);
      } else {
        NoticesFollowFlag(st, evs[i], x, s);
        AlternationExtends(SessionNotices(n, start, evs[..i], x, s), AnnouncedTo(st, x, s),
                           AnnouncedTo(React(st, evs[i]).0, x, s));
      }
    }
  }

  lemma NothingAnnounced(n: nat, start: real, x: Address, s: nat)
    ensures !AnnouncedTo(After(n, start, []), x, s)
  {
  }

  lemma ResetWithdraws(st: EngineState, x: Address, s: nat)
    ensures !AnnouncedTo(React(st, ResetServer(s)).0, x, s)
  {
    ServerResetFlags(st, s, x, s);
  }

  // ---------------------------------------------------------------- syncs never span a clock reset

  /** The input came up or went down, or its counter jumped back: pairings are dropped. */
  predicate BreaksPairing(last: Option<bv64>, ev: Event) {
    match ev
    case Receive(r, _) => JumpsBack(last, r.counts)
    case InputUp => true
    case InputDown => true
    case _ => false
  }

  /** The counter of the latest reception since the input last came up or went down. */
  function LastCount(evs: seq<Event>): Option<bv64> {
    if evs == [] then None
    else
      var i := |evs| - 1;
      match evs[i]
      case Receive(r, _) => Some(r.counts)
      case InputUp => None
      case InputDown => None
      case _ => LastCount(evs[..i])
  }

  lemma {:induction false} RequestsKeepCounter(st: EngineState, s: nat, addrs: seq<Option<Address>>, v: bool)
    ensures SetRequested(st, s, addrs, v).lastCounter == st.lastCounter
    decreases |addrs|
  {
    if addrs != [] {
      if addrs[0].Some? && addrs[0].value in st.aircraft {
        var a := addrs[0].value;
        RequestsKeepCounter(st.(aircraft := st.aircraft[a := Request(st.aircraft[a], s, v)]), s, addrs[1..], v);
      } else {
        RequestsKeepCounter(st, s, addrs[1..], v);
      }
    }
  }

  lemma ReceptionCounter(st: EngineState, r: Reception, now: real)
    ensures OnReception(st, r, now).0.lastCounter == Some(r.counts)
  {
    hide Classify, WentBack;
  }

  /** The engine's counter is that of the latest reception. */
  lemma {:induction false} CounterIsLastHeard(n: nat, start: real, evs: seq<Event>)
    ensures After(n, start, evs).lastCounter == LastCount(evs)
    decreases |evs|
  {
    if evs != [] {
      var st, ev := After(n, start, evs[..|evs| - 1]), evs[|evs| - 1];
      CounterIsLastHeard(n, start, evs[..|evs| - 1]);
      match ev
      case Receive(r, now) => ReceptionCounter(st, r, now); hide OnReception;
      case Tick(now) =>
      case Start(s, addrs) => RequestsKeepCounter(st, s, addrs, true);
      case Stop(s, addrs) => RequestsKeepCounter(st, s, addrs, false);
      case _ =>
    }
  }

  /** The receptions heard since pairing was last broken. */
  function Unbroken(evs: seq<Event>): seq<Reception> {
    if evs == [] then []
    else
      var i := |evs| - 1;
      (if BreaksPairing(LastCount(evs[..i]), evs[i]) then [] else Unbroken(evs[..i]))
      + (if evs[i].Receive? then [evs[i].r] else [])
  }

  /** A position squitter of x in the stated format, heard since pairing was last broken. */
  predicate Holds(slot: Option<Reception>, x: Address, odd: bool, heard: seq<Reception>) {
    slot.Some? ==> slot.value in heard && Classify(slot.value.frame) == Squitter(x, Some(odd))
  }

  predicate SlotsFresh(st: EngineState, heard: seq<Reception>) {
    forall x :: x in st.aircraft ==>
      Holds(st.aircraft[x].even, x, false, heard) && Holds(st.aircraft[x].odd, x, true, heard)
  }

  lemma FreshWhenMoreHeard(st: EngineState, before: seq<Reception>, after: seq<Reception>)
    requires SlotsFresh(st, before) && forall r :: r in before ==> r in after
    ensures SlotsFresh(st, after)
  {
  }

  lemma TouchKeepsFresh(st: EngineState, addr: Address, now: real, validated: bool, heard: seq<Reception>)
    requires SlotsFresh(st, heard)
    ensures SlotsFresh(Touch(st, addr, now, validated), heard)
  {
  }

  lemma PairSyncKeepsFresh(st: EngineState, addr: Address, odd: bool, r: Reception, now: real, heard: seq<Reception>)
    requires SlotsFresh(st, heard) && r in heard && Classify(r.frame) == Squitter(addr, Some(odd))
    ensures SlotsFresh(PairSync(st, addr, odd, r, now).0, heard)
  {
    hide Classify, Pairable;
  }

  lemma DetectResetKeepsFresh(st: EngineState, r: Reception, before: seq<Reception>)
    requires SlotsFresh(st, before)
    ensures SlotsFresh(DetectReset(st, r.counts).0,
                       (if JumpsBack(st.lastCounter, r.counts) then [] else before) + [r])
  {
    JumpsBackIff(st.lastCounter, r.counts);
    hide Classify, WentBack, JumpsBack;
    if !JumpsBack(st.lastCounter, r.counts) {
      FreshWhenMoreHeard(st, before, before + [r]);
    }
  }

  lemma ReceptionKeepsFresh(st: EngineState, r: Reception, now: real, before: seq<Reception>)
    requires SlotsFresh(st, before)
    ensures SlotsFresh(OnReception(st, r, now).0,
                       (if BreaksPairing(st.lastCounter, Receive(r, now)) then [] else before) + [r])
  {
    var st1 := DetectReset(st, r.counts).0;
    var heard := (if BreaksPairing(st.lastCounter, Receive(r, now)) then [] else before) + [r];
    DetectResetKeepsFresh(st, r, before);
    hide DetectReset, Classify, PairSync, Touch, SlotsFresh;
    match Classify(r.frame)
    case Ignored =>
    case Squitter(addr, position) =>
      TouchKeepsFresh(st1, addr, now, true, heard);
      if position.Some? {
        PairSyncKeepsFresh(Touch(st1, addr, now, true), addr, position.value, r, now, heard);
      }
    case AllCall(addr) => TouchKeepsFresh(st1, addr, now, true, heard);
    case Overlaid(addr) => TouchKeepsFresh(st1, addr, now, false, heard);
  }

  lemma {:induction false} RequestsKeepFresh(st: EngineState, t: nat, addrs: seq<Option<Address>>, v: bool,
                                             heard: seq<Reception>)
    requires SlotsFresh(st, heard)
    ensures SlotsFresh(SetRequested(st, t, addrs, v), heard)
    decreases |addrs|
  {
    hide Classify;
    if addrs != [] {
      if addrs[0].Some? && addrs[0].value in st.aircraft {
        var a := addrs[0].value;
        RequestsKeepFresh(st.(aircraft := st.aircraft[a := Request(st.aircraft[a], t, v)]), t, addrs[1..], v, heard);
      } else {
        RequestsKeepFresh(st, t, addrs[1..], v, heard);
      }
    }
  }

  /** The pairing slots only ever hold squitters of their own aircraft and format, heard since the last break. */
  lemma {:induction false} SlotsStayFresh(n: nat, start: real, evs: seq<Event>)
    ensures SlotsFresh(After(n, start, evs), Unbroken(evs))
    decreases |evs|
  {
    if evs != [] {
      var i := |evs| - 1;
      var st := After(n, start, evs[..i]);
      var heard := Unbroken(evs[..i]);
      SlotsStayFresh(n, start, evs[..i]);
      CounterIsLastHeard(n, start, evs[..i]);
      match evs[i]
      case Receive(r, now) => ReceptionKeepsFresh(st, r, now, heard); hide OnReception, SlotsFresh, WentBack;
      case Tick(now) => TickKeepsFresh(st, now, heard); hide OnTick, SlotsFresh; assert heard + [] == heard;
      case Start(t, addrs) => RequestsKeepFresh(st, t, addrs, true, heard); hide SlotsFresh; assert heard + [] == heard;
      case Stop(t, addrs) => RequestsKeepFresh(st, t, addrs, false, heard); hide SlotsFresh; assert heard + [] == heard;
      case ResetServer(t) => hide Classify; assert heard + [] == heard;
      case InputUp => hide Classify;
      case InputDown => hide Classify;
    }
  }

  lemma TickKeepsFresh(st: EngineState, now: real, heard: seq<Reception>)
    requires SlotsFresh(st, heard)
    ensures SlotsFresh(OnTick(st, now).0, heard)
  {
    hide Classify, Notices, Rate;
  }

  /**
   * A clock reset goes to a server on a reception if and only if the counter has jumped back from the last one heard.
   */
  lemma ResetsAreAnnouncedIff(n: nat, start: real, evs: seq<Event>, r: Reception, now: real, s: nat)
    requires s < n
    ensures Outbound(s, ClockReset) in React(After(n, start, evs), Receive(r, now)).1 <==>
              JumpsBack(LastCount(evs), r.counts)
  {
    CounterIsLastHeard(n, start, evs);
    hide After;
    ResetMessagesIff(After(n, start, evs), r, now, s);
  }

  lemma ResetMessagesIff(st: EngineState, r: Reception, now: real, s: nat)
    requires WellFormed(st) && s < st.n
    ensures Outbound(s, ClockReset) in OnReception(st, r, now).1 <==> JumpsBack(st.lastCounter, r.counts)
  {
    var o := Outbound(s, ClockReset);
    var (st1, resets) := DetectReset(st, r.counts);
    JumpsBackIff(st.lastCounter, r.counts);
    FanOutReaches(seq(st.n, _ => true), ClockReset, 0, s);
    assert o in resets <==> JumpsBack(st.lastCounter, r.counts);
    var kind := Classify(r.frame);
    hide DetectReset, Classify, JumpsBack, WentBack, Forward, PairSync;
    if o in OnReception(st, r, now).1 && o !in resets {
      var st2 := Touch(st1, kind.addr, now, !kind.Overlaid?);
      if kind.Squitter? {
        PairSyncMembers(st2, kind.addr, kind.position.value, r, now, o);
      } else {
        ForwardMembers(st2, kind.addr, r, o);
      }
    }
  }

  /**
   * What a reception leaves in the pairing slots of every aircraft: its own frame in the slot of its format, and in the
   * others what was there, unless the counter jumped back.
   */
  lemma PairingSlotsAfter(st: EngineState, r: Reception, now: real, x: Address)
    requires x in st.aircraft
    ensures var after, broken := OnReception(st, r, now).0, JumpsBack(st.lastCounter, r.counts);
            && x in after.aircraft
            && after.aircraft[x].even == (if Classify(r.frame) == Squitter(x, Some(false)) then Some(r)
                                          else if broken then None else st.aircraft[x].even)
            && after.aircraft[x].odd == (if Classify(r.frame) == Squitter(x, Some(true)) then Some(r)
                                         else if broken then None else st.aircraft[x].odd)
  {
    ReceptionEntry(st, r, now, x);
    hide Classify, OnReception, JumpsBack;
  }

  predicate FairPair(e: Reception, d: Reception, x: Address, heard: seq<Reception>) {
    && e in heard && d in heard
    && PositionOf(e.frame, x, false) && PositionOf(d.frame, x, true)
    && FourSecondsApart(e.counts, d.counts)
  }

  lemma OnlyReceptionsSync(st: EngineState, ev: Event, o: Outbound)
    requires o in React(st, ev).1 && o.msg.Sync?
    ensures ev.Receive?
  {
    match ev
    case Receive(_, _) =>
    case Tick(now) => TickMembers(st, now, o);
    case Start(_, _) =>
    case Stop(_, _) =>
    case ResetServer(_) =>
    case InputUp => FanOutMembers(seq(st.n, _ => true), InputConnected, 0, o);
    case InputDown => FanOutMembers(seq(st.n, _ => true), InputDisconnected, 0, o);
  }

  lemma SyncOfReception(st: EngineState, r: Reception, now: real, before: seq<Reception>, o: Outbound)
    returns (e: Reception, d: Reception)
    requires SlotsFresh(st, before) && o in OnReception(st, r, now).1 && o.msg.Sync?
    ensures !Classify(r.frame).Ignored?
    ensures var heard := if BreaksPairing(st.lastCounter, Receive(r, now)) then [] else before;
            FairPair(e, d, Classify(r.frame).addr, heard + [r])
    ensures o.msg == Sync(e.counts, d.counts, e.frame, d.frame) && (r == e || r == d)
  {
    var (st1, resets) := DetectReset(st, r.counts);
    var heard := (if BreaksPairing(st.lastCounter, Receive(r, now)) then [] else before) + [r];
    if o in resets {
      ResetMembers(st, r.counts, o);
    }
    DetectResetKeepsFresh(st, r, before);
    var kind := Classify(r.frame);
    hide DetectReset, Classify, WentBack, Pairable, PairSync, Forward;
    if !kind.Squitter? {
      ForwardMembers(Touch(st1, kind.addr, now, !kind.Overlaid?), kind.addr, r, o);
    }
    TouchKeepsFresh(st1, kind.addr, now, true, heard);
    var st2 := Touch(st1, kind.addr, now, true);
    PairSyncMembers(st2, kind.addr, kind.position.value, r, now, o);
    var a := Slotted(st2.aircraft[kind.addr], kind.position.value, r);
    e, d := a.even.value, a.odd.value;
    PairableIff(e.counts, d.counts);
    PositionIff(e.frame, kind.addr, false);
    PositionIff(d.frame, kind.addr, true);
    hide PositionOf, FourSecondsApart;
  }

  lemma UnbrokenNext(evs: seq<Event>, ev: Event)
    ensures Unbroken(evs + [ev])
         == (if BreaksPairing(LastCount(evs), ev) then [] else Unbroken(evs))
            + (if ev.Receive? then [ev.r] else [])
  {
    assert (evs + [ev])[..|evs|] == evs;
  }

  /**
   * Over every run, each sync message joins an even and an odd position of one aircraft, at most four seconds apart,
   * both heard since the input was last seen to come up, go down or jump back, and it goes to a server that has
   * requested that aircraft.
   */
  lemma SyncsNeverSpanAReset(n: nat, start: real, evs: seq<Event>, ev: Event, o: Outbound)
    returns (e: Reception, d: Reception, x: Address)
    requires o.server < n && o in React(After(n, start, evs), ev).1 && o.msg.Sync?
    ensures FairPair(e, d, x, Unbroken(evs + [ev]))
    ensures o.msg == Sync(e.counts, d.counts, e.frame, d.frame)
    ensures ev.Receive? && (ev.r == e || ev.r == d)
    ensures RequestedBy(After(n, start, evs), x, o.server)
  {
    var st := After(n, start, evs);
    SlotsStayFresh(n, start, evs);
    CounterIsLastHeard(n, start, evs);
    UnbrokenNext(evs, ev);
    OnlyReceptionsSync(st, ev, o);
    hide After, Unbroken, LastCount, SlotsFresh, OnReception, Classify;
    hide WentBack, Pairable, FourSecondsApart, PositionOf;
    e, d := SyncOfReception(st, ev.r, ev.now, Unbroken(evs), o);
    x := Classify(ev.r.frame).addr;
    TrafficOnlyOnRequest(st, ev.r, ev.now, o);
  }
}
