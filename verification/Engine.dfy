/** The client's traffic engine (crates/mlatc/src/engine.rs): one aircraft table serving N servers. */
module Engine {
  import opened Common
  import opened Crc24
  import opened Frames
  import opened Beast

  /** An ICAO aircraft address, 24 bits. */
  datatype Address = Icao(word: bv32)

  datatype PerServer = PerServer(requested: bool, announced: bool, lastSync: Option<real>)

  const NEW_SERVER: PerServer := PerServer(false, false, None)

  datatype Aircraft = Aircraft(lastSeen: real, heard: nat, even: Option<Reception>, odd: Option<Reception>,
                               servers: seq<PerServer>)

  /** Announcement lists come from hash-map iteration and are kept as sets; hex text stands for its bytes. */
  datatype ClientMsg =
    | Mlat(t: bv64, m: seq<byte>)
    | Sync(et: bv64, ot: bv64, em: seq<byte>, om: seq<byte>)
    | ClockReset
    | Seen(found: set<Address>)
    | Lost(gone: set<Address>)
    | RateReport(rates: map<Address, real>)
    | InputConnected
    | InputDisconnected

  datatype Outbound = Outbound(server: nat, msg: ClientMsg)

  /** The engine's fields. */
  datatype EngineState = EngineState(aircraft: map<Address, Aircraft>, n: nat, lastCounter: Option<bv64>,
                                     lastRateReport: real)

  predicate WellFormed(st: EngineState) {
    forall a :: a in st.aircraft ==> |st.aircraft[a].servers| == st.n
  }

  // ---------------------------------------------------------------- small pieces

  function Elapsed(now: real, since: real): real {
    if now >= since then now - since else 0.0
  }

  function SaturatingSub(a: int, b: int): nat {
    if a >= b then a - b else 0
  }

  function AbsDiff(a: int, b: int): nat {
    if a >= b then a - b else b - a
  }

  /** More than a second backwards at 12 MHz, but not the near-2^48 step of a counter wrap. */
  predicate WentBack(last: bv64, counts: bv64) {
    var backward := SaturatingSub(last as int, counts as int);
    backward > 12_000_000 && backward < 0x4000_0000_0000
  }

  /** Within the 4 s pairing limit at 12 MHz. */
  predicate Pairable(e: bv64, o: bv64) {
    AbsDiff(e as int, o as int) <= 48_000_000
  }

  datatype Kind =
    | Ignored
    | Squitter(addr: Address, position: Option<bool>)  // CRC-valid DF17; Some(odd) for an airborne position
    | AllCall(addr: Address)                            // DF11 with an assigned interrogator code
    | Overlaid(addr: Address)                           // address recovered from AP parity

  function Classify(f: seq<byte>): Kind {
    match DownlinkFormat(f)
    case None => Ignored
    case Some(df) =>
      if df == 17 then
        if Crc(f) != 0 then Ignored
        else
          match ParseDf17Airborne(f)
          case None => Squitter(Icao(Be24(f[1..4])), None)
          case Some(d) => Squitter(Icao(Be24(f[1..4])), Some(d.odd))
      else if df == 11 then
        if Crc(f) >= 80 then Ignored else AllCall(Icao(Be24(f[1..4])))
      else if df == 0 || df == 4 || df == 5 || df == 16 || df == 20 || df == 21 then
        Overlaid(Icao(OverlaidAddress(f)))
      else Ignored
  }

  /** The message to every marked server, in server order. */
  function FanOut(marked: seq<bool>, msg: ClientMsg, i: nat): seq<Outbound>
    requires i <= |marked|
    decreases |marked| - i
  {
    if i == |marked| then []
    else (if marked[i] then [Outbound(i, msg)] else []) + FanOut(marked, msg, i + 1)
  }

  function ToAll(n: nat, msg: ClientMsg): seq<Outbound> {
    FanOut(seq(n, _ => true), msg, 0)
  }

  // ---------------------------------------------------------------- one event

  function WithoutPairing(a: Aircraft): Aircraft {
    a.(even := None, odd := None)
  }

  function InputReset(st: EngineState): EngineState {
    st.(lastCounter := None, aircraft := map a | a in st.aircraft :: WithoutPairing(st.aircraft[a]))
  }

  function WithServer(a: Aircraft, s: nat, ps: PerServer): Aircraft {
    if s < |a.servers| then a.(servers := a.servers[s := ps]) else a
  }

  function ServerReset(st: EngineState, s: nat): EngineState {
    st.(aircraft := map a | a in st.aircraft :: WithServer(st.aircraft[a], s, NEW_SERVER))
  }

  function Request(a: Aircraft, s: nat, v: bool): Aircraft {
    if s < |a.servers| then WithServer(a, s, a.servers[s].(requested := v)) else a
  }

  /** Addresses that do not parse, or are unknown, are skipped. */
  function SetRequested(st: EngineState, s: nat, addrs: seq<Option<Address>>, v: bool): EngineState
    decreases |addrs|
  {
    if addrs == [] then st
    else
      var next := match addrs[0]
                  case None => st
                  case Some(a) =>
                    if a in st.aircraft then st.(aircraft := st.aircraft[a := Request(st.aircraft[a], s, v)]) else st;
      SetRequested(next, s, addrs[1..], v)
  }

  function Touch(st: EngineState, addr: Address, now: real, validated: bool): EngineState {
    if addr in st.aircraft then
      var a := st.aircraft[addr];
      st.(aircraft := st.aircraft[addr := a.(lastSeen := now, heard := a.heard + 1)])
    else if validated then
      st.(aircraft := st.aircraft[addr := Aircraft(now, 1, None, None, seq(st.n, _ => NEW_SERVER))])
    else st
  }

  function Requesters(a: Aircraft): seq<bool> {
    seq(|a.servers|, i requires 0 <= i < |a.servers| => a.servers[i].requested)
  }

  /** A requested server whose last sync is at least SYNC_INTERVAL (zero seconds) old. */
  predicate SyncDue(ps: PerServer, now: real) {
    ps.requested && !(ps.lastSync.Some? && Elapsed(now, ps.lastSync.value) < 0.0)
  }

  function SyncTargets(a: Aircraft, now: real): seq<bool> {
    seq(|a.servers|, i requires 0 <= i < |a.servers| => SyncDue(a.servers[i], now))
  }

  function MarkSynced(a: Aircraft, now: real): Aircraft {
    a.(servers := seq(|a.servers|, i requires 0 <= i < |a.servers| =>
                    if SyncDue(a.servers[i], now) then a.servers[i].(lastSync := Some(now)) else a.servers[i]))
  }

  function Slotted(a: Aircraft, odd: bool, r: Reception): Aircraft {
    if odd then a.(odd := Some(r)) else a.(even := Some(r))
  }

  predicate HasPair(a: Aircraft) {
    a.even.Some? && a.odd.Some? && Pairable(a.even.value.counts, a.odd.value.counts)
  }

  function PairSync(st: EngineState, addr: Address, odd: bool, r: Reception, now: real)
    : (EngineState, seq<Outbound>)
  {
    if addr !in st.aircraft then (st, [])
    else
      var a := Slotted(st.aircraft[addr], odd, r);
      if !HasPair(a) then (st.(aircraft := st.aircraft[addr := a]), [])
      else
        var e, o := a.even.value, a.odd.value;
        (st.(aircraft := st.aircraft[addr := MarkSynced(a, now)]),
         FanOut(SyncTargets(a, now), Sync(e.counts, o.counts, e.frame, o.frame), 0))
  }

  function DetectReset(st: EngineState, counts: bv64): (EngineState, seq<Outbound>) {
    if st.lastCounter.Some? && WentBack(st.lastCounter.value, counts) then
      (InputReset(st).(lastCounter := Some(counts)), ToAll(st.n, ClockReset))
    else (st.(lastCounter := Some(counts)), [])
  }

  function Forward(st: EngineState, addr: Address, r: Reception): seq<Outbound> {
    if addr in st.aircraft then FanOut(Requesters(st.aircraft[addr]), Mlat(r.counts, r.frame), 0) else []
  }

  function OnReception(st: EngineState, r: Reception, now: real): (EngineState, seq<Outbound>) {
    var (st1, resets) := DetectReset(st, r.counts);
    match Classify(r.frame)
    case Ignored => (st1, resets)
    case Squitter(addr, position) =>
      var st2 := Touch(st1, addr, now, true);
      if position == None then (st2, resets)
      else
        var (st3, out) := PairSync(st2, addr, position.value, r, now);
        (st3, resets + out)
    case AllCall(addr) =>
      var st2 := Touch(st1, addr, now, true);
      (st2, resets + Forward(st2, addr, r))
    case Overlaid(addr) =>
      if addr !in st1.aircraft then (st1, resets)
      else
        var st2 := Touch(st1, addr, now, false);
        (st2, resets + Forward(st2, addr, r))
  }

  predicate Expired(a: Aircraft, now: real) {
    Elapsed(now, a.lastSeen) > 60.0
  }

  function Announced(a: Aircraft): Aircraft {
    a.(servers := seq(|a.servers|, i requires 0 <= i < |a.servers| => a.servers[i].(announced := true)))
  }

  predicate IsAnnounced(a: Aircraft, s: nat) {
    s < |a.servers| && a.servers[s].announced
  }

  function NewlySeen(st: EngineState, now: real, s: nat): set<Address> {
    set a | a in st.aircraft && !Expired(st.aircraft[a], now) && !IsAnnounced(st.aircraft[a], s)
  }

  function NewlyLost(st: EngineState, now: real, s: nat): set<Address> {
    set a | a in st.aircraft && Expired(st.aircraft[a], now) && IsAnnounced(st.aircraft[a], s)
  }

  function NoticesTo(st: EngineState, now: real, s: nat): seq<ClientMsg> {
    (if NewlySeen(st, now, s) != {} then [Seen(NewlySeen(st, now, s))] else [])
    + (if NewlyLost(st, now, s) != {} then [Lost(NewlyLost(st, now, s))] else [])
  }

  function Tagged(s: nat, msgs: seq<ClientMsg>): seq<Outbound> {
    seq(|msgs|, i requires 0 <= i < |msgs| => Outbound(s, msgs[i]))
  }

  function Notices(st: EngineState, now: real, s: nat): seq<Outbound>
    requires s <= st.n
    decreases st.n - s
  {
    if s == st.n then [] else Tagged(s, NoticesTo(st, now, s)) + Notices(st, now, s + 1)
  }

  function Sweep(st: EngineState, now: real): EngineState {
    st.(aircraft := map a | a in st.aircraft && !Expired(st.aircraft[a], now) :: Announced(st.aircraft[a]))
  }

  /** Messages per second, rounded to two decimals. */
  function Rate(heard: nat, elapsed: real): real
    requires elapsed >= 30.0
  {
    (heard as real / elapsed * 100.0 + 0.5).Floor as real / 100.0
  }

  function Rates(st: EngineState, elapsed: real): map<Address, real>
    requires elapsed >= 30.0
  {
    map a | a in st.aircraft :: Rate(st.aircraft[a].heard, elapsed)
  }

  function RatesCleared(st: EngineState, now: real): EngineState {
    st.(lastRateReport := now, aircraft := map a | a in st.aircraft :: st.aircraft[a].(heard := 0))
  }

  function ReportRates(st: EngineState, now: real): (EngineState, seq<Outbound>) {
    var elapsed := Elapsed(now, st.lastRateReport);
    if elapsed >= 30.0 then
      (RatesCleared(st, now),
       if Rates(st, elapsed) != map[] then ToAll(st.n, RateReport(Rates(st, elapsed))) else [])
    else (st, [])
  }

  function OnTick(st: EngineState, now: real): (EngineState, seq<Outbound>) {
    var (st2, reports) := ReportRates(Sweep(st, now), now);
    (st2, Notices(st, now, 0) + reports)
  }

  /** What the engine task reacts to (crates/mlatc/src/main.rs). */
  datatype Event =
    | Receive(r: Reception, now: real)
    | Tick(now: real)
    | Start(server: nat, addrs: seq<Option<Address>>)
    | Stop(server: nat, addrs: seq<Option<Address>>)
    | ResetServer(server: nat)
    | InputUp
    | InputDown

  function React(st: EngineState, ev: Event): (EngineState, seq<Outbound>) {
    match ev
    case Receive(r, now) => OnReception(st, r, now)
    case Tick(now) => OnTick(st, now)
    case Start(s, addrs) => (SetRequested(st, s, addrs, true), [])
    case Stop(s, addrs) => (SetRequested(st, s, addrs, false), [])
    case ResetServer(s) => (ServerReset(st, s), [])
    case InputUp => (InputReset(st), ToAll(st.n, InputConnected))
    case InputDown => (InputReset(st), ToAll(st.n, InputDisconnected))
  }

  predicate Addressable(ev: Event, n: nat) {
    (ev.Start? || ev.Stop? || ev.ResetServer?) ==> ev.server < n
  }

  lemma FanOutNext(out: seq<Outbound>, marked: seq<bool>, msg: ClientMsg, i: nat)
    requires i < |marked|
    ensures out + FanOut(marked, msg, i)
         == (if marked[i] then out + [Outbound(i, msg)] else out) + FanOut(marked, msg, i + 1)
  {
    var rest := FanOut(marked, msg, i + 1);
    assert [] + rest == rest;
    assert out + ([Outbound(i, msg)] + rest) == out + [Outbound(i, msg)] + rest;
  }

  lemma NoticesNext(out: seq<Outbound>, st: EngineState, now: real, s: nat)
    requires s < st.n
    ensures out + Notices(st, now, s) == out + Tagged(s, NoticesTo(st, now, s)) + Notices(st, now, s + 1)
  {
    var head, rest := Tagged(s, NoticesTo(st, now, s)), Notices(st, now, s + 1);
    assert out + (head + rest) == out + head + rest;
  }

  // ---------------------------------------------------------------- the engine

  class TrafficEngine {
    var aircraft: map<Address, Aircraft>
    const nServers: nat
    var lastCounter: Option<bv64>
    var lastRateReport: real

    function State(): EngineState
      reads this
    {
      EngineState(aircraft, nServers, lastCounter, lastRateReport)
    }

    constructor (now: real, n: nat)
      ensures State() == EngineState(map[], n, None, now)
    {
      aircraft := map[];
      nServers := n;
      lastCounter := None;
      lastRateReport := now;
    }

    method ForgetPairings()
      modifies this
      ensures State() == InputReset(old(State()))
    {
      lastCounter := None;
      ghost var before := aircraft;
      var todo := aircraft.Keys;
      while todo != {}
        invariant todo <= aircraft.Keys == before.Keys && lastCounter == None
        invariant lastRateReport == old(lastRateReport)
        invariant forall a :: a in before ==>
                    aircraft[a] == if a in todo then before[a] else WithoutPairing(before[a])
      {
        var a :| a in todo;
        aircraft := aircraft[a := aircraft[a].(even := None, odd := None)];
        todo := todo - {a};
      }
      assert aircraft == InputReset(old(State())).aircraft;
    }

    method ForgetServer(s: nat)
      requires WellFormed(State()) && s < nServers
      modifies this
      ensures State() == ServerReset(old(State()), s)
    {
      ghost var before := aircraft;
      var todo := aircraft.Keys;
      while todo != {}
        invariant todo <= aircraft.Keys == before.Keys
        invariant lastCounter == old(lastCounter) && lastRateReport == old(lastRateReport)
        invariant forall a :: a in before ==>
                    aircraft[a] == if a in todo then before[a] else WithServer(before[a], s, NEW_SERVER)
      {
        var a :| a in todo;
        assert |before[a].servers| == nServers;
        aircraft := aircraft[a := aircraft[a].(servers := aircraft[a].servers[s := NEW_SERVER])];
        todo := todo - {a};
      }
      assert aircraft == ServerReset(old(State()), s).aircraft;
    }

    method MarkRequested(s: nat, addrs: seq<Option<Address>>, v: bool)
      requires WellFormed(State()) && s < nServers
      modifies this
      ensures State() == SetRequested(old(State()), s, addrs, v)
    {
      var i := 0;
      assert addrs[0..] == addrs;
      while i < |addrs|
        invariant 0 <= i <= |addrs| && WellFormed(State())
        invariant SetRequested(State(), s, addrs[i..], v) == SetRequested(old(State()), s, addrs, v)
      {
        ghost var rest := addrs[i..];
        assert rest[0] == addrs[i] && rest[1..] == addrs[i + 1..];
        match addrs[i] {
          case None =>
          case Some(a) =>
            if a in aircraft {
              assert |aircraft[a].servers| == nServers;
              var flags := aircraft[a].servers;
              aircraft := aircraft[a := aircraft[a].(servers := flags[s := flags[s].(requested := v)])];
            }
        }
        i := i + 1;
      }
      assert addrs[|addrs|..] == [];
    }

    method Hear(r: Reception, now: real) returns (out: seq<Outbound>)
      requires WellFormed(State())
      modifies this
      ensures (State(), out) == OnReception(old(State()), r, now)
    {
      out := [];
      if lastCounter.Some? && WentBack(lastCounter.value, r.counts) {
        out := Broadcast(nServers, ClockReset);
        ForgetPairings();
      }
      lastCounter := Some(r.counts);
      ghost var st1 := State();
      assert (st1, out) == DetectReset(old(State()), r.counts);
      DetectResetWellFormed(old(State()), r.counts);
      var addr: Address;
      match Classify(r.frame) {
        case Ignored => return;
        case Squitter(a, position) =>
          NoteHeard(a, now, true);
          if position.Some? {
            TouchWellFormed(st1, a, now, true);
            var syncs := Pair(a, position.value, r, now);
            out := out + syncs;
          }
          return;
        case AllCall(a) =>
          NoteHeard(a, now, true);
          addr := a;
        case Overlaid(a) =>
          if a !in aircraft {
            return;
          }
          NoteHeard(a, now, false);
          addr := a;
      }
      var flags := Requesters(aircraft[addr]);
      var forwarded := SendMarked(flags, Mlat(r.counts, r.frame));
      out := out + forwarded;
    }

    method NoteHeard(addr: Address, now: real, validated: bool)
      modifies this
      ensures State() == Touch(old(State()), addr, now, validated)
    {
      if addr in aircraft {
        var a := aircraft[addr];
        aircraft := aircraft[addr := a.(lastSeen := now, heard := a.heard + 1)];
      } else if validated {
        aircraft := aircraft[addr := Aircraft(now, 1, None, None, seq(nServers, _ => NEW_SERVER))];
      }
    }

    method Pair(addr: Address, odd: bool, r: Reception, now: real) returns (out: seq<Outbound>)
      requires WellFormed(State())
      modifies this
      ensures (State(), out) == PairSync(old(State()), addr, odd, r, now)
    {
      out := [];
      if addr !in aircraft {
        return;
      }
      var a := if odd then aircraft[addr].(odd := Some(r)) else aircraft[addr].(even := Some(r));
      aircraft := aircraft[addr := a];
      if a.even == None || a.odd == None || !Pairable(a.even.value.counts, a.odd.value.counts) {
        return;
      }
      var msg := Sync(a.even.value.counts, a.odd.value.counts, a.even.value.frame, a.odd.value.frame);
      var servers := a.servers;
      ghost var targets := SyncTargets(a, now);
      assert out + FanOut(targets, msg, 0) == FanOut(targets, msg, 0);
      for i := 0 to |servers|
        invariant State() == old(State()).(aircraft := old(aircraft)[addr := a])
        invariant |servers| == |a.servers|
        invariant forall k :: i <= k < |servers| ==> servers[k] == a.servers[k]
        invariant forall k :: 0 <= k < i ==> servers[k] == MarkSynced(a, now).servers[k]
        invariant out + FanOut(targets, msg, i) == FanOut(targets, msg, 0)
      {
        FanOutNext(out, targets, msg, i);
        if SyncDue(servers[i], now) {
          servers := servers[i := servers[i].(lastSync := Some(now))];
          out := out + [Outbound(i, msg)];
        }
      }
      assert out + [] == out;
      assert servers == MarkSynced(a, now).servers;
      aircraft := aircraft[addr := a.(servers := servers)];
      assert aircraft == old(aircraft)[addr := MarkSynced(a, now)];
    }

    method Announce(now: real) returns (out: seq<Outbound>)
      requires WellFormed(State())
      modifies this
      ensures (State(), out) == OnTick(old(State()), now)
    {
      ghost var st := State();
      var notices := ListNotices(now);
      ghost var before := aircraft;
      var todo := aircraft.Keys;
      while todo != {}
        invariant todo <= aircraft.Keys <= before.Keys
        invariant lastCounter == old(lastCounter) && lastRateReport == old(lastRateReport)
        invariant forall a :: a in todo ==> aircraft[a] == before[a]
        invariant forall a :: a in before && a !in todo ==> (a in aircraft <==> !Expired(before[a], now))
        invariant forall a :: a in aircraft && a !in todo ==> aircraft[a] == Announced(before[a])
      {
        var a :| a in todo;
        if Expired(aircraft[a], now) {
          aircraft := aircraft - {a};
        } else {
          aircraft := aircraft[a := Announced(aircraft[a])];
        }
        todo := todo - {a};
      }
      assert aircraft == Sweep(st, now).aircraft;
      var reports := ReportRatesNow(now);
      out := notices + reports;
    }

    method ListNotices(now: real) returns (out: seq<Outbound>)
      ensures out == Notices(State(), now, 0)
    {
      out := [];
      ghost var st := State();
      assert out + Notices(st, now, 0) == Notices(st, now, 0);
      for s := 0 to nServers
        invariant out + Notices(st, now, s) == Notices(st, now, 0)
      {
        var found := NewlySeen(State(), now, s);
        var gone := NewlyLost(State(), now, s);
        var msgs := (if found != {} then [Seen(found)] else []) + (if gone != {} then [Lost(gone)] else []);
        NoticesNext(out, st, now, s);
        assert msgs == NoticesTo(st, now, s);
        hide NoticesTo, Tagged;
        out := out + Tagged(s, msgs);
      }
      assert out + [] == out;
    }

    method ReportRatesNow(now: real) returns (out: seq<Outbound>)
      modifies this
      ensures (State(), out) == ReportRates(old(State()), now)
    {
      out := [];
      var elapsed := Elapsed(now, lastRateReport);
      if elapsed >= 30.0 {
        var rates := Rates(State(), elapsed);
        lastRateReport := now;
        aircraft := map a | a in aircraft :: aircraft[a].(heard := 0);
        assert State() == RatesCleared(old(State()), now);
        if rates != map[] {
          out := Broadcast(nServers, RateReport(rates));
        }
      }
    }

    static method SendMarked(flags: seq<bool>, msg: ClientMsg) returns (out: seq<Outbound>)
      ensures out == FanOut(flags, msg, 0)
    {
      out := [];
      assert out + FanOut(flags, msg, 0) == FanOut(flags, msg, 0);
      for i := 0 to |flags|
        invariant out + FanOut(flags, msg, i) == FanOut(flags, msg, 0)
      {
        FanOutNext(out, flags, msg, i);
        if flags[i] {
          out := out + [Outbound(i, msg)];
        }
      }
      assert out + [] == out;
    }

    static method Broadcast(n: nat, msg: ClientMsg) returns (out: seq<Outbound>)
      ensures out == ToAll(n, msg)
    {
      out := SendMarked(seq(n, _ => true), msg);
    }
  }

  // ---------------------------------------------------------------- invariant

  lemma {:induction false} SetRequestedWellFormed(st: EngineState, s: nat, addrs: seq<Option<Address>>, v: bool)
    requires WellFormed(st)
    ensures WellFormed(SetRequested(st, s, addrs, v)) && SetRequested(st, s, addrs, v).n == st.n
    ensures SetRequested(st, s, addrs, v).aircraft.Keys == st.aircraft.Keys
    decreases |addrs|
  {
    if addrs != [] {
      if addrs[0].Some? && addrs[0].value in st.aircraft {
        var a := addrs[0].value;
        SetRequestedWellFormed(st.(aircraft := st.aircraft[a := Request(st.aircraft[a], s, v)]), s, addrs[1..], v);
      } else {
        SetRequestedWellFormed(st, s, addrs[1..], v);
      }
    }
  }

  lemma PairSyncWellFormed(st: EngineState, addr: Address, odd: bool, r: Reception, now: real)
    requires WellFormed(st)
    ensures WellFormed(PairSync(st, addr, odd, r, now).0) && PairSync(st, addr, odd, r, now).0.n == st.n
  {
    if addr in st.aircraft {
      assert |Slotted(st.aircraft[addr], odd, r).servers| == st.n;
    }
  }

  lemma DetectResetWellFormed(st: EngineState, counts: bv64)
    requires WellFormed(st)
    ensures WellFormed(DetectReset(st, counts).0) && DetectReset(st, counts).0.n == st.n
  {
    assert forall a :: a in st.aircraft ==> |WithoutPairing(st.aircraft[a]).servers| == st.n;
  }

  lemma TouchWellFormed(st: EngineState, addr: Address, now: real, validated: bool)
    requires WellFormed(st)
    ensures WellFormed(Touch(st, addr, now, validated)) && Touch(st, addr, now, validated).n == st.n
  {
  }

  lemma ReceptionWellFormed(st: EngineState, r: Reception, now: real)
    requires WellFormed(st)
    ensures WellFormed(OnReception(st, r, now).0) && OnReception(st, r, now).0.n == st.n
  {
    var st1 := DetectReset(st, r.counts).0;
    DetectResetWellFormed(st, r.counts);
    match Classify(r.frame)
    case Ignored =>
    case Squitter(addr, position) =>
      TouchWellFormed(st1, addr, now, true);
      if position.Some? {
        PairSyncWellFormed(Touch(st1, addr, now, true), addr, position.value, r, now);
      }
    case AllCall(addr) => TouchWellFormed(st1, addr, now, true);
    case Overlaid(addr) => TouchWellFormed(st1, addr, now, false);
  }

  lemma StepWellFormed(st: EngineState, ev: Event)
    requires WellFormed(st)
    ensures WellFormed(React(st, ev).0) && React(st, ev).0.n == st.n
  {
    match ev
    case Receive(r, now) => ReceptionWellFormed(st, r, now);
    case Start(s, addrs) => SetRequestedWellFormed(st, s, addrs, true);
    case Stop(s, addrs) => SetRequestedWellFormed(st, s, addrs, false);
    case _ =>
  }
}

/** One engine for N servers behaves as N engines, one for each server. */
module EngineSimulation {
  import opened Common
  import opened Frames
  import opened Beast
  import opened Engine

  // ---------------------------------------------------------------- the view of one server

  function ViewAircraft(a: Aircraft, s: nat): Aircraft {
    if s < |a.servers| then a.(servers := [a.servers[s]]) else a.(servers := [])
  }

  function View(st: EngineState, s: nat): EngineState {
    EngineState(map a | a in st.aircraft :: ViewAircraft(st.aircraft[a], s), 1, st.lastCounter, st.lastRateReport)
  }

  /** Commands of other servers do not exist in server s's world. */
  function ViewEvent(ev: Event, s: nat): Option<Event> {
    match ev
    case Start(t, addrs) => if t == s then Some(Start(0, addrs)) else None
    case Stop(t, addrs) => if t == s then Some(Stop(0, addrs)) else None
    case ResetServer(t) => if t == s then Some(ResetServer(0)) else None
    case _ => Some(ev)
  }

  function ViewOut(out: seq<Outbound>, s: nat): seq<Outbound> {
    if out == [] then []
    else (if out[0].server == s then [Outbound(0, out[0].msg)] else []) + ViewOut(out[1..], s)
  }

  lemma ViewOutHead(o: Outbound, rest: seq<Outbound>, s: nat)
    ensures ViewOut([o] + rest, s) == (if o.server == s then [Outbound(0, o.msg)] else []) + ViewOut(rest, s)
  {
    assert ([o] + rest)[1..] == rest;
  }

  lemma {:induction false} ViewOutConcat(x: seq<Outbound>, y: seq<Outbound>, s: nat)
    ensures ViewOut(x + y, s) == ViewOut(x, s) + ViewOut(y, s)
    decreases |x|
  {
    if x == [] {
      assert x + y == y && ViewOut(x, s) == [];
    } else {
      var o, rest := x[0], x[1..];
      assert x == [o] + rest && x + y == [o] + (rest + y);
      ViewOutHead(o, rest, s);
      ViewOutHead(o, rest + y, s);
      hide ViewOut;
      ViewOutConcat(rest, y, s);
    }
  }

  // ---------------------------------------------------------------- fan-out

  lemma FanOutUnfold(marked: seq<bool>, msg: ClientMsg, i: nat)
    requires i < |marked|
    ensures FanOut(marked, msg, i)
         == if marked[i] then [Outbound(i, msg)] + FanOut(marked, msg, i + 1) else FanOut(marked, msg, i + 1)
  {
    assert [] + FanOut(marked, msg, i + 1) == FanOut(marked, msg, i + 1);
  }

  lemma {:induction false} FanOutView(marked: seq<bool>, msg: ClientMsg, i: nat, s: nat)
    requires i <= |marked|
    ensures ViewOut(FanOut(marked, msg, i), s)
         == if i <= s < |marked| && marked[s] then [Outbound(0, msg)] else []
    decreases |marked| - i
  {
    hide FanOut, ViewOut;
    if i == |marked| {
      NothingToSend(marked, msg);
      NothingSeen(s);
    } else {
      FanOutUnfold(marked, msg, i);
      FanOutView(marked, msg, i + 1, s);
      if marked[i] {
        ViewOutHead(Outbound(i, msg), FanOut(marked, msg, i + 1), s);
        var rest := ViewOut(FanOut(marked, msg, i + 1), s);
        assert [] + rest == rest && (i == s ==> rest == []);
      }
    }
  }

  lemma NothingToSend(marked: seq<bool>, msg: ClientMsg)
    ensures FanOut(marked, msg, |marked|) == []
  {
  }

  lemma SingleFanOut(mark: bool, msg: ClientMsg)
    ensures FanOut([mark], msg, 0) == if mark then [Outbound(0, msg)] else []
  {
    assert FanOut([mark], msg, 1) == [];
  }

  lemma FanOutViews(marked: seq<bool>, msg: ClientMsg, s: nat)
    requires s < |marked|
    ensures ViewOut(FanOut(marked, msg, 0), s) == FanOut([marked[s]], msg, 0)
  {
    FanOutView(marked, msg, 0, s);
    SingleFanOut(marked[s], msg);
  }

  lemma ToAllViews(n: nat, msg: ClientMsg, s: nat)
    requires s < n
    ensures ViewOut(ToAll(n, msg), s) == ToAll(1, msg)
  {
    FanOutViews(seq(n, _ => true), msg, s);
    assert seq(1, _ => true) == [true];
  }

  // ---------------------------------------------------------------- state changes commute with the view

  lemma ViewOfUpdate(st: EngineState, addr: Address, a: Aircraft, s: nat)
    ensures View(st.(aircraft := st.aircraft[addr := a]), s).aircraft
         == View(st, s).aircraft[addr := ViewAircraft(a, s)]
  {
  }

  lemma InputResetViews(st: EngineState, s: nat)
    ensures View(InputReset(st), s) == InputReset(View(st, s))
  {
  }

  lemma DetectResetViews(st: EngineState, counts: bv64, s: nat)
    requires s < st.n
    ensures var (st1, out) := DetectReset(st, counts);
            DetectReset(View(st, s), counts) == (View(st1, s), ViewOut(out, s))
  {
    InputResetViews(st, s);
    ToAllViews(st.n, ClockReset, s);
    hide ToAll, InputReset;
  }

  lemma {:induction false} SetRequestedViews(st: EngineState, t: nat, addrs: seq<Option<Address>>, v: bool, s: nat)
    requires WellFormed(st) && s < st.n && t < st.n
    ensures View(SetRequested(st, t, addrs, v), s)
         == if t == s then SetRequested(View(st, s), 0, addrs, v) else View(st, s)
    decreases |addrs|
  {
    if addrs != [] {
      if addrs[0].Some? && addrs[0].value in st.aircraft {
        var addr := addrs[0].value;
        var a := Request(st.aircraft[addr], t, v);
        var next := st.(aircraft := st.aircraft[addr := a]);
        ViewOfUpdate(st, addr, a, s);
        if t == s {
          assert ViewAircraft(a, s) == Request(ViewAircraft(st.aircraft[addr], s), 0, v);
        } else {
          assert ViewAircraft(a, s) == ViewAircraft(st.aircraft[addr], s);
          assert View(next, s).aircraft == View(st, s).aircraft;
        }
        SetRequestedViews(next, t, addrs[1..], v, s);
      } else {
        SetRequestedViews(st, t, addrs[1..], v, s);
      }
    }
  }

  lemma WithServerViews(a: Aircraft, t: nat, s: nat)
    requires s < |a.servers| && t < |a.servers|
    ensures ViewAircraft(WithServer(a, t, NEW_SERVER), s)
         == if t == s then WithServer(ViewAircraft(a, s), 0, NEW_SERVER) else ViewAircraft(a, s)
  {
  }

  lemma ServerResetViews(st: EngineState, t: nat, s: nat)
    requires WellFormed(st) && s < st.n && t < st.n
    ensures View(ServerReset(st, t), s) == if t == s then ServerReset(View(st, s), 0) else View(st, s)
  {
    forall a | a in st.aircraft
      ensures ViewAircraft(WithServer(st.aircraft[a], t, NEW_SERVER), s)
           == if t == s then WithServer(ViewAircraft(st.aircraft[a], s), 0, NEW_SERVER)
              else ViewAircraft(st.aircraft[a], s)
    {
      WithServerViews(st.aircraft[a], t, s);
    }
    hide WithServer, ViewAircraft;
    if t == s {
      assert View(ServerReset(st, t), s).aircraft == ServerReset(View(st, s), 0).aircraft;
    } else {
      assert View(ServerReset(st, t), s).aircraft == View(st, s).aircraft;
    }
  }

  lemma TouchViews(st: EngineState, addr: Address, now: real, validated: bool, s: nat)
    requires WellFormed(st) && s < st.n
    ensures View(Touch(st, addr, now, validated), s) == Touch(View(st, s), addr, now, validated)
  {
    if addr in st.aircraft {
      var a := st.aircraft[addr];
      ViewOfUpdate(st, addr, a.(lastSeen := now, heard := a.heard + 1), s);
    } else {
      var a := Aircraft(now, 1, None, None, seq(st.n, _ => NEW_SERVER));
      ViewOfUpdate(st, addr, a, s);
      assert ViewAircraft(a, s) == Aircraft(now, 1, None, None, seq(1, _ => NEW_SERVER));
    }
  }

  lemma PairSyncViews(st: EngineState, addr: Address, odd: bool, r: Reception, now: real, s: nat)
    requires WellFormed(st) && s < st.n
    ensures var (st1, out) := PairSync(st, addr, odd, r, now);
            PairSync(View(st, s), addr, odd, r, now) == (View(st1, s), ViewOut(out, s))
  {
    if addr in st.aircraft {
      var a := Slotted(st.aircraft[addr], odd, r);
      var va := ViewAircraft(a, s);
      assert va == Slotted(View(st, s).aircraft[addr], odd, r);
      ViewOfUpdate(st, addr, a, s);
      if HasPair(a) {
        var e, o := a.even.value, a.odd.value;
        ViewOfUpdate(st, addr, MarkSynced(a, now), s);
        assert ViewAircraft(MarkSynced(a, now), s) == MarkSynced(va, now);
        assert SyncTargets(va, now) == [SyncTargets(a, now)[s]];
        FanOutViews(SyncTargets(a, now), Sync(e.counts, o.counts, e.frame, o.frame), s);
        hide FanOut, ViewOut;
      }
    }
  }

  lemma ForwardViews(st: EngineState, addr: Address, r: Reception, s: nat)
    requires WellFormed(st) && s < st.n
    ensures ViewOut(Forward(st, addr, r), s) == Forward(View(st, s), addr, r)
  {
    if addr in st.aircraft {
      var a := st.aircraft[addr];
      assert Requesters(ViewAircraft(a, s)) == [Requesters(a)[s]];
      FanOutViews(Requesters(a), Mlat(r.counts, r.frame), s);
    }
  }

  lemma ReceptionViews(st: EngineState, r: Reception, now: real, s: nat)
    requires WellFormed(st) && s < st.n
    ensures var (st1, out) := OnReception(st, r, now);
            OnReception(View(st, s), r, now) == (View(st1, s), ViewOut(out, s))
  {
    var (st1, resets) := DetectReset(st, r.counts);
    DetectResetViews(st, r.counts, s);
    DetectResetWellFormed(st, r.counts);
    hide DetectReset, Classify, PairSync, Forward, Touch;
    match Classify(r.frame)
    case Ignored =>
    case Squitter(addr, position) =>
      var st2 := Touch(st1, addr, now, true);
      TouchViews(st1, addr, now, true, s);
      TouchWellFormed(st1, addr, now, true);
      if position.Some? {
        PairSyncViews(st2, addr, position.value, r, now, s);
        ViewOutConcat(resets, PairSync(st2, addr, position.value, r, now).1, s);
      }
    case AllCall(addr) =>
      var st2 := Touch(st1, addr, now, true);
      TouchViews(st1, addr, now, true, s);
      TouchWellFormed(st1, addr, now, true);
      ForwardViews(st2, addr, r, s);
      ViewOutConcat(resets, Forward(st2, addr, r), s);
    case Overlaid(addr) =>
      var st2 := Touch(st1, addr, now, false);
      TouchViews(st1, addr, now, false, s);
      TouchWellFormed(st1, addr, now, false);
      ForwardViews(st2, addr, r, s);
      ViewOutConcat(resets, Forward(st2, addr, r), s);
  }

  // ---------------------------------------------------------------- ticks

  lemma {:induction false} TaggedView(t: nat, msgs: seq<ClientMsg>, s: nat)
    ensures ViewOut(Tagged(t, msgs), s) == if t == s then Tagged(0, msgs) else []
    decreases |msgs|
  {
    if msgs != [] {
      assert Tagged(t, msgs)[1..] == Tagged(t, msgs[1..]);
      TaggedView(t, msgs[1..], s);
    }
  }

  lemma {:induction false} NoticesView(st: EngineState, now: real, i: nat, s: nat)
    requires i <= st.n
    ensures ViewOut(Notices(st, now, i), s)
         == if i <= s < st.n then Tagged(0, NoticesTo(st, now, s)) else []
    decreases st.n - i
  {
    hide NoticesTo, Tagged, ViewOut;
    if i == st.n {
      NothingSeen(s);
    } else {
      NoticesView(st, now, i + 1, s);
      TaggedView(i, NoticesTo(st, now, i), s);
      ViewOutConcat(Tagged(i, NoticesTo(st, now, i)), Notices(st, now, i + 1), s);
      var own := Tagged(0, NoticesTo(st, now, s));
      assert own + [] == own && [] + own == own;
    }
  }

  lemma NoticesOfView(st: EngineState, now: real, s: nat)
    requires WellFormed(st) && s < st.n
    ensures Notices(View(st, s), now, 0) == Tagged(0, NoticesTo(st, now, s))
  {
    var v := View(st, s);
    assert NewlySeen(v, now, 0) == NewlySeen(st, now, s);
    assert NewlyLost(v, now, 0) == NewlyLost(st, now, s);
    assert Notices(v, now, 1) == [];
  }

  lemma AnnouncedViews(a: Aircraft, s: nat)
    requires s < |a.servers|
    ensures ViewAircraft(Announced(a), s) == Announced(ViewAircraft(a, s)) && |Announced(a).servers| == |a.servers|
  {
  }

  lemma SweepViews(st: EngineState, now: real, s: nat)
    requires WellFormed(st) && s < st.n
    ensures View(Sweep(st, now), s) == Sweep(View(st, s), now)
  {
    forall a | a in st.aircraft
      ensures ViewAircraft(Announced(st.aircraft[a]), s) == Announced(ViewAircraft(st.aircraft[a], s))
      ensures Expired(st.aircraft[a], now) == Expired(ViewAircraft(st.aircraft[a], s), now)
    {
      AnnouncedViews(st.aircraft[a], s);
    }
    hide Announced, Expired, ViewAircraft;
    assert View(Sweep(st, now), s).aircraft == Sweep(View(st, s), now).aircraft;
  }

  lemma RatesClearedViews(st: EngineState, now: real, s: nat)
    ensures View(RatesCleared(st, now), s) == RatesCleared(View(st, s), now)
  {
  }

  lemma ReportRatesViews(st: EngineState, now: real, s: nat)
    requires s < st.n
    ensures var (st1, out) := ReportRates(st, now);
            ReportRates(View(st, s), now) == (View(st1, s), ViewOut(out, s))
  {
    var elapsed := Elapsed(now, st.lastRateReport);
    if elapsed >= 30.0 {
      assert Rates(View(st, s), elapsed) == Rates(st, elapsed);
      RatesClearedViews(st, now, s);
      ToAllViews(st.n, RateReport(Rates(st, elapsed)), s);
      hide ToAll, Rates;
    }
  }

  lemma TickViews(st: EngineState, now: real, s: nat)
    requires WellFormed(st) && s < st.n
    ensures var (st1, out) := OnTick(st, now);
            OnTick(View(st, s), now) == (View(st1, s), ViewOut(out, s))
  {
    SweepViews(st, now, s);
    ReportRatesViews(Sweep(st, now), now, s);
    NoticesView(st, now, 0, s);
    NoticesOfView(st, now, s);
    ViewOutConcat(Notices(st, now, 0), ReportRates(Sweep(st, now), now).1, s);
    hide Notices, ReportRates, Sweep, View;
  }

  /** The aircraft heard within the last sixty seconds. */
  function Kept(st: EngineState, now: real): set<Address> {
    set x | x in st.aircraft && now - st.aircraft[x].lastSeen <= 60.0
  }

  function NewTo(st: EngineState, now: real, s: nat): set<Address>
    requires WellFormed(st) && s < st.n
  {
    set x | x in st.aircraft && x in Kept(st, now) && !st.aircraft[x].servers[s].announced
  }

  function GoneFor(st: EngineState, now: real, s: nat): set<Address>
    requires WellFormed(st) && s < st.n
  {
    set x | x in st.aircraft && x !in Kept(st, now) && st.aircraft[x].servers[s].announced
  }

  function KeptRates(st: EngineState, now: real): map<Address, real>
    requires now - st.lastRateReport >= 30.0
  {
    map x | x in st.aircraft && x in Kept(st, now) :: Rate(st.aircraft[x].heard, now - st.lastRateReport)
  }

  /** A report every half minute, of the aircraft kept, when there are any. */
  function ReportDue(st: EngineState, now: real): seq<ClientMsg> {
    if now - st.lastRateReport >= 30.0 && Kept(st, now) != {} then
      [RateReport(KeptRates(st, now))]
    else []
  }

  lemma NoticesSay(st: EngineState, now: real, s: nat)
    requires WellFormed(st) && s < st.n
    ensures NoticesTo(st, now, s)
         == (if NewTo(st, now, s) != {} then [Seen(NewTo(st, now, s))] else [])
            + (if GoneFor(st, now, s) != {} then [Lost(GoneFor(st, now, s))] else [])
  {
    assert NewlySeen(st, now, s) == NewTo(st, now, s);
    assert NewlyLost(st, now, s) == GoneFor(st, now, s);
    hide NewlySeen, NewlyLost, NewTo, GoneFor;
  }

  lemma ReportSays(st: EngineState, now: real, s: nat)
    requires s < st.n
    ensures ViewOut(ReportRates(Sweep(st, now), now).1, s) == Tagged(0, ReportDue(st, now))
  {
    hide FanOut, Sweep, Kept, KeptRates, Rate, Rates, ViewOut, RatesCleared;
    if now - st.lastRateReport >= 30.0 {
      var rates := KeptRates(st, now);
      SweptRates(st, now);
      FanOutView(seq(st.n, _ => true), RateReport(rates), 0, s);
      assert Tagged(0, [RateReport(rates)]) == [Outbound(0, RateReport(rates))];
    }
    NothingSeen(s);
    assert Tagged(0, []) == [];
    assert Sweep(st, now).lastRateReport == st.lastRateReport && Sweep(st, now).n == st.n by {
      SweepKeepsClock(st, now);
    }
  }

  lemma SweepKeepsClock(st: EngineState, now: real)
    ensures Sweep(st, now).lastRateReport == st.lastRateReport && Sweep(st, now).n == st.n
  {
  }

  lemma SweptRates(st: EngineState, now: real)
    requires now - st.lastRateReport >= 30.0
    ensures Rates(Sweep(st, now), now - st.lastRateReport) == KeptRates(st, now)
    ensures KeptRates(st, now) == map[] <==> Kept(st, now) == {}
  {
    hide Rate;
    var rates := KeptRates(st, now);
    assert rates.Keys == Kept(st, now);
    assert rates == map[] <==> rates.Keys == {};
    assert Sweep(st, now).aircraft.Keys == Kept(st, now);
  }

  /**
   * All that a tick says to a server, in order: what is new to it, what is gone for it, and every half minute the
   * rates.
   */
  lemma TickSays(st: EngineState, now: real, s: nat)
    requires WellFormed(st) && s < st.n
    ensures var found, gone := NewTo(st, now, s), GoneFor(st, now, s);
            ViewOut(OnTick(st, now).1, s)
            == Tagged(0, (if found != {} then [Seen(found)] else []) + (if gone != {} then [Lost(gone)] else []))
               + Tagged(0, ReportDue(st, now))
  {
    NoticesSay(st, now, s);
    NoticesView(st, now, 0, s);
    ReportSays(st, now, s);
    hide NewTo, GoneFor, Notices, NoticesTo, ReportRates, ReportDue, Sweep, ViewOut, Tagged;
    ViewOutConcat(Notices(st, now, 0), ReportRates(Sweep(st, now), now).1, s);
  }

  // ---------------------------------------------------------------- the simulation

  /** What server s sees of one step is one step of the engine that serves s alone, or nothing at all. */
  lemma StepViews(st: EngineState, ev: Event, s: nat)
    requires WellFormed(st) && s < st.n && Addressable(ev, st.n)
    ensures var (st1, out) := React(st, ev);
            match ViewEvent(ev, s)
            case Some(vev) => React(View(st, s), vev) == (View(st1, s), ViewOut(out, s))
            case None => View(st1, s) == View(st, s) && ViewOut(out, s) == []
  {
    assert View(st, s).n == 1;
    hide View, ViewOut, OnReception, OnTick, SetRequested, ServerReset, InputReset, ToAll;
    match ev
    case Receive(r, now) => ReceptionViews(st, r, now, s);
    case Tick(now) => TickViews(st, now, s);
    case Start(t, addrs) => SetRequestedViews(st, t, addrs, true, s); NothingSeen(s);
    case Stop(t, addrs) => SetRequestedViews(st, t, addrs, false, s); NothingSeen(s);
    case ResetServer(t) => ServerResetViews(st, t, s); NothingSeen(s);
    case InputUp => InputResetViews(st, s); ToAllViews(st.n, InputConnected, s);
    case InputDown => InputResetViews(st, s); ToAllViews(st.n, InputDisconnected, s);
  }

  lemma NothingSeen(s: nat)
    ensures ViewOut([], s) == []
  {
  }

  function Run(st: EngineState, evs: seq<Event>): (EngineState, seq<Outbound>)
    decreases |evs|
  {
    if evs == [] then (st, [])
    else
      var (st1, out) := React(st, evs[0]);
      var (st2, later) := Run(st1, evs[1..]);
      (st2, out + later)
  }

  function ViewEvents(evs: seq<Event>, s: nat): seq<Event> {
    if evs == [] then []
    else Elements(ViewEvent(evs[0], s)) + ViewEvents(evs[1..], s)
  }

  /**
   * Over every run, the messages addressed to server s, and s's part of the final state, are those of an engine
   * with s as its only server, given the run without the other servers' commands.
   */
  lemma {:induction false} OneEngineIsManyEngines(st: EngineState, evs: seq<Event>, s: nat)
    requires WellFormed(st) && s < st.n && forall i :: 0 <= i < |evs| ==> Addressable(evs[i], st.n)
    ensures Run(View(st, s), ViewEvents(evs, s)) == (View(Run(st, evs).0, s), ViewOut(Run(st, evs).1, s))
    decreases |evs|
  {
    if evs != [] {
      var (st1, out) := React(st, evs[0]);
      StepViews(st, evs[0], s);
      StepWellFormed(st, evs[0]);
      OneEngineIsManyEngines(st1, evs[1..], s);
      hide View, ViewOut, React, ViewEvent;
      ViewOutConcat(out, Run(st1, evs[1..]).1, s);
      var rest := ViewEvents(evs[1..], s);
      match ViewEvent(evs[0], s) {
        case Some(vev) => assert ([vev] + rest)[0] == vev && ([vev] + rest)[1..] == rest;
        case None =>
          assert [] + rest == rest;
          assert [] + ViewOut(Run(st1, evs[1..]).1, s) == ViewOut(Run(st1, evs[1..]).1, s);
      }
    }
  }
}
