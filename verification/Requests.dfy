/** Selective traffic: the server's request set (crates/mlatd/src/main.rs) against the client engine's flags. */
module Requests {
  import opened Common
  import opened Engine

  // ---------------------------------------------------------------- the server's half

  /** An uplink line as far as requests go; entries of its seen list that are not text are None. */
  datatype Line = Malformed | Line(seen: seq<Option<Address>>, rated: seq<Address>)

  function Named(seen: seq<Option<Address>>): seq<Address> {
    if seen == [] then [] else Elements(seen[0]) + Named(seen[1..])
  }

  function Offers(line: Line): seq<Address> {
    match line
    case Malformed => []
    case Line(seen, rated) => Named(seen) + rated
  }

  lemma {:induction false} NamedIff(seen: seq<Option<Address>>, a: Address)
    ensures a in Named(seen) <==> Some(a) in seen
    decreases |seen|
  {
    if seen != [] {
      NamedIff(seen[1..], a);
      assert seen == [seen[0]] + seen[1..];
    }
  }

  /** A line offers what its seen list names and what its rate report rates, and nothing else. */
  lemma OffersIff(line: Line, a: Address)
    ensures a in Offers(line) <==> line.Line? && (Some(a) in line.seen || a in line.rated)
  {
    if line.Line? {
      NamedIff(line.seen, a);
    }
  }

  function Members(offers: seq<Address>): set<Address> {
    set a | a in offers
  }

  /** The offers not requested before, each once, in the order of first mention. */
  function Fresh(requested: set<Address>, offers: seq<Address>): seq<Address>
    decreases |offers|
  {
    if offers == [] then []
    else if offers[0] in requested then Fresh(requested, offers[1..])
    else [offers[0]] + Fresh(requested + {offers[0]}, offers[1..])
  }

  lemma {:induction false} FreshIsWhatIsNew(requested: set<Address>, offers: seq<Address>)
    ensures Distinct(Fresh(requested, offers))
    ensures forall a :: a in Fresh(requested, offers) <==> a in offers && a !in requested
    decreases |offers|
  {
    if offers != [] {
      var a := offers[0];
      FreshIsWhatIsNew(if a in requested then requested else requested + {a}, offers[1..]);
    }
  }

  /** The request set and the list to ask for once the remaining offers are taken in as well. */
  function TakenIn(requested: set<Address>, unasked: seq<Address>, offers: seq<Address>): (set<Address>, seq<Address>) {
    (requested + Members(offers), unasked + Fresh(requested, offers))
  }

  lemma TakeNext(requested: set<Address>, unasked: seq<Address>, offers: seq<Address>)
    requires offers != []
    ensures TakenIn(requested, unasked, offers)
         == if offers[0] in requested then TakenIn(requested, unasked, offers[1..])
            else TakenIn(requested + {offers[0]}, unasked + [offers[0]], offers[1..])
  {
    var a, rest := offers[0], offers[1..];
    assert offers == [a] + rest;
    assert requested + Members(offers) == requested + {a} + Members(rest);
    if a in requested {
      assert requested + {a} == requested;
    }
    assert unasked + ([a] + Fresh(requested + {a}, rest)) == unasked + [a] + Fresh(requested + {a}, rest);
  }

  lemma NamedNext(seen: seq<Option<Address>>, rated: seq<Address>)
    requires seen != []
    ensures var offers := Named(seen) + rated;
            if seen[0].Some? then offers != [] && offers[0] == seen[0].value && offers[1..] == Named(seen[1..]) + rated
            else offers == Named(seen[1..]) + rated
  {
    var rest := Named(seen[1..]);
    match seen[0]
    case None => assert Named(seen) == rest;
    case Some(a) =>
      assert Named(seen) == [a] + rest;
      assert ([a] + rest + rated)[1..] == rest + rated;
  }

  lemma NothingLeft(requested: set<Address>, unasked: seq<Address>)
    ensures TakenIn(requested, unasked, []) == (requested, unasked)
  {
    assert requested + Members([]) == requested;
    assert unasked + [] == unasked;
  }

  /** The part of a connection's state that decides what it asks for. */
  class RequestLedger {
    var requested: set<Address>

    constructor ()
      ensures requested == {}
    {
      requested := {};
    }

    /** A line in; the start_sending to send, if any. */
    method ProcessLine(line: Line) returns (startSending: Option<seq<Address>>)
      modifies this
      ensures requested == old(requested) + Members(Offers(line))
      ensures var unasked := Fresh(old(requested), Offers(line));
              startSending == if unasked == [] then None else Some(unasked)
      ensures line.Line? ==> forall a :: Some(a) in line.seen || a in line.rated ==> a in requested
    {
      forall a | line.Line? && (Some(a) in line.seen || a in line.rated)
        ensures a in requested + Members(Offers(line))
      {
        OffersIff(line, a);
      }
      if line.Malformed? {
        return None;
      }
      var unasked := [];
      ghost var asked := requested;
      assert [] + Fresh(requested, Offers(line)) == Fresh(requested, Offers(line));
      assert TakenIn(requested, [], Offers(line))
          == (requested + Members(Offers(line)), Fresh(requested, Offers(line)));
      var seen, rated := line.seen, line.rated;
      hide TakenIn, Fresh, Members;
      for i := 0 to |seen|
        invariant TakenIn(requested, unasked, Named(seen[i..]) + rated) == TakenIn(asked, [], Offers(line))
      {
        NamedNext(seen[i..], rated);
        assert seen[i..][1..] == seen[i + 1..];
        match seen[i] {
          case None =>
          case Some(a) =>
            TakeNext(requested, unasked, Named(seen[i..]) + rated);
            if a !in requested {
              requested := requested + {a};
              unasked := unasked + [a];
            }
        }
      }
      assert Named(seen[|seen|..]) + rated == rated[0..];
      for i := 0 to |rated|
        invariant TakenIn(requested, unasked, rated[i..]) == TakenIn(asked, [], Offers(line))
      {
        var a := rated[i];
        assert rated[i..][1..] == rated[i + 1..];
        TakeNext(requested, unasked, rated[i..]);
        if a !in requested {
          requested := requested + {a};
          unasked := unasked + [a];
        }
      }
      assert rated[|rated|..] == [];
      NothingLeft(requested, unasked);
      startSending := if unasked == [] then None else Some(unasked);
    }
  }
}

/** One client and one server, with lossy queues between them, across connection restarts. */
module RequestSessions {
  import opened Common
  import opened Beast
  import opened Engine
  import opened EngineProtocol
  import opened Requests

  /** What the session task puts on the engine's event queue. */
  datatype Notice = StartSending(addrs: seq<Address>) | Restarted

  /**
   * The client's engine, its uplink queue, the start_sending lists on their way down, the engine's event queue and the
   * server's request set. sent logs what the present connection has put in start_sending lists.
   */
  datatype Session = Session(client: EngineState, uplink: seq<ClientMsg>, down: seq<seq<Address>>, inbox: seq<Notice>,
                             requested: set<Address>, sent: seq<Address>)

  datatype Step =
    | Act(ev: Event)                               // the engine hears, ticks, or its input comes up or down
    | LoseUplink(i: nat)                           // a full queue, or the drain between connections
    | ServerReads(order: seq<Address>, room: bool) // offers in line order; room for the reply in its queue
    | Deliver                                      // a start_sending reaches the client's session task
    | Process                                      // the engine takes its next queued event
    | Restart                                      // the connection ends; the next one starts from nothing

  function Initial(start: real): Session {
    Session(EngineState(map[], 1, None, start), [], [], [], {}, [])
  }

  predicate Spontaneous(ev: Event) {
    ev.Receive? || ev.Tick? || ev.InputUp? || ev.InputDown?
  }

  function Messages(out: seq<Outbound>): seq<ClientMsg> {
    seq(|out|, i requires 0 <= i < |out| => out[i].msg)
  }

  function OffersOf(msg: ClientMsg): set<Address> {
    match msg
    case Seen(found) => found
    case RateReport(rates) => rates.Keys
    case _ => {}
  }

  /** The line that carries a message, its addresses in this order. */
  function LineOf(msg: ClientMsg, order: seq<Address>): Line {
    match msg
    case Seen(_) => Line(seq(|order|, i requires 0 <= i < |order| => Some(order[i])), [])
    case RateReport(_) => Line([], order)
    case _ => Line([], [])
  }

  lemma {:induction false} NamedInOrder(order: seq<Address>)
    ensures Named(seq(|order|, i requires 0 <= i < |order| => Some(order[i]))) == order
    decreases |order|
  {
    if order != [] {
      var seen := seq(|order|, i requires 0 <= i < |order| => Some(order[i]));
      NamedInOrder(order[1..]);
      assert seen[1..] == seq(|order| - 1, i requires 0 <= i < |order| - 1 => Some(order[1..][i]));
    }
  }

  /** In whatever order its addresses are read, a line offers the aircraft its message reports seen or rated. */
  lemma LineCarriesOffers(msg: ClientMsg, order: seq<Address>)
    requires Members(order) == OffersOf(msg)
    ensures Offers(LineOf(msg, order)) == order
    ensures forall x :: x in order <==> (msg.Seen? && x in msg.found) || (msg.RateReport? && x in msg.rates)
  {
    NamedInOrder(order);
    assert forall x :: x in order <==> x in Members(order);
    assert order == [] || order[0] in Members(order);
  }

  function AsEvent(notice: Notice): Event {
    match notice
    case StartSending(addrs) => Start(0, seq(|addrs|, i requires 0 <= i < |addrs| => Some(addrs[i])))
    case Restarted => ResetServer(0)
  }

  predicate Readable(s: Session, order: seq<Address>) {
    s.uplink != [] && Members(order) == OffersOf(s.uplink[0])
  }

  function Next(s: Session, step: Step): Session {
    match step
    case Act(ev) =>
      if !Spontaneous(ev) then s
      else s.(client := React(s.client, ev).0, uplink := s.uplink + Messages(React(s.client, ev).1))
    case LoseUplink(i) =>
      if i < |s.uplink| then s.(uplink := s.uplink[..i] + s.uplink[i + 1..]) else s
    case ServerReads(order, room) =>
      if !Readable(s, order) then s
      else
        var unasked := Fresh(s.requested, order);
        var read := s.(uplink := s.uplink[1..], requested := s.requested + Members(order));
        if unasked != [] && room then read.(down := s.down + [unasked], sent := s.sent + unasked) else read
    case Deliver =>
      if s.down == [] then s else s.(down := s.down[1..], inbox := s.inbox + [StartSending(s.down[0])])
    case Process =>
      if s.inbox == [] then s else s.(inbox := s.inbox[1..], client := React(s.client, AsEvent(s.inbox[0])).0)
    case Restart =>
      s.(inbox := s.inbox + [Restarted], down := [], requested := {}, sent := [])
  }

  function RunOf(s: Session, steps: seq<Step>): Session
    decreases |steps|
  {
    if steps == [] then s else RunOf(Next(s, steps[0]), steps[1..])
  }

  // ---------------------------------------------------------------- what the queues still carry

  /** The engine has yet to learn that the connection restarted. */
  predicate Stale(inbox: seq<Notice>) {
    Restarted in inbox
  }

  /** The addresses of queued start_sending lists that belong to the present connection. */
  function Owed(inbox: seq<Notice>): seq<Address> {
    if inbox == [] then []
    else if inbox[0].Restarted? || Stale(inbox[1..]) then Owed(inbox[1..])
    else inbox[0].addrs + Owed(inbox[1..])
  }

  function InTransit(s: Session): seq<Address> {
    Owed(s.inbox) + Flatten(s.down)
  }

  /** The engine sends traffic about x on the present connection's request. */
  predicate Active(s: Session, x: Address) {
    !Stale(s.inbox) && RequestedBy(s.client, x, 0)
  }

  /** Requested in the server's books, yet the engine does not send, and no request is on its way. */
  predicate Starved(s: Session, x: Address) {
    x in s.requested && !Active(s, x) && x !in InTransit(s)
  }

  /** A line that is read has all its offers in the request set afterwards, asked for or not, and adds no others. */
  lemma ReadingTakesAllOffers(s: Session, order: seq<Address>, room: bool, x: Address)
    requires s.uplink != []
    ensures var t, msg := Next(s, ServerReads(order, room)), s.uplink[0];
            t == s
            || (t.uplink == s.uplink[1..]
                && (x in t.requested <==>
                      || x in s.requested
                      || (msg.Seen? && x in msg.found)
                      || (msg.RateReport? && x in msg.rates)))
  {
    if Readable(s, order) {
      LineCarriesOffers(s.uplink[0], order);
    }
  }

  /** With a new connection nothing counts as requested, nothing is owed, and no aircraft is starved any more. */
  lemma RestartStartsOver(s: Session, x: Address)
    ensures var t := Next(s, Restart);
            && t.requested == {} && t.sent == [] && InTransit(t) == [] && !Active(t, x) && !Starved(t, x)
            && t.client == s.client && t.uplink == s.uplink
  {
    OwedAppend(s.inbox, Restarted);
    assert Flatten<Address>([]) == [];
  }

  lemma {:induction false} OwedAppend(inbox: seq<Notice>, notice: Notice)
    ensures Owed(inbox + [notice]) == if notice.Restarted? then [] else Owed(inbox) + notice.addrs
    ensures Stale(inbox + [notice]) <==> Stale(inbox) || notice.Restarted?
    decreases |inbox|
  {
    if inbox == [] {
      assert inbox + [notice] == [notice];
      assert Owed([]) == [];
    } else {
      assert (inbox + [notice])[1..] == inbox[1..] + [notice];
      OwedAppend(inbox[1..], notice);
    }
  }

  lemma {:induction false} FlattenAppend(parts: seq<seq<Address>>, last: seq<Address>)
    ensures Flatten(parts + [last]) == Flatten(parts) + last
    decreases |parts|
  {
    if parts == [] {
      assert parts + [last] == [last];
      assert Flatten([last][1..]) == [];
    } else {
      assert (parts + [last])[1..] == parts[1..] + [last];
      FlattenAppend(parts[1..], last);
    }
  }

  // ---------------------------------------------------------------- the invariant

  function Delivered(s: Session): seq<Address> {
    if |InTransit(s)| <= |s.sent| then s.sent[..|s.sent| - |InTransit(s)|] else []
  }

  ghost predicate Sound(s: Session) {
    && WellFormed(s.client) && s.client.n == 1
    && Distinct(s.sent)
    && (forall a :: a in s.sent ==> a in s.requested)
    && EndsWith(s.sent, InTransit(s))
    && (forall x :: Active(s, x) ==> x in Delivered(s))
  }

  lemma SentSplits(s: Session)
    requires Sound(s)
    ensures s.sent == Delivered(s) + InTransit(s)
    ensures forall x :: x in Delivered(s) ==> x !in InTransit(s)
  {
    hide InTransit, Active;
    var k := |s.sent| - |InTransit(s)|;
    assert s.sent[..k] + s.sent[k..] == s.sent;
    forall i, j | 0 <= i < k && 0 <= j < |InTransit(s)|
      ensures Delivered(s)[i] != InTransit(s)[j]
    {
      assert s.sent[i] != s.sent[k + j];
    }
  }

  /** Spontaneous events never ask or un-ask; only an expiry ends a request. */
  lemma ActRequests(st: EngineState, ev: Event, x: Address)
    requires WellFormed(st) && st.n == 1 && Spontaneous(ev)
    ensures RequestedBy(React(st, ev).0, x, 0)
       <==> RequestedBy(st, x, 0) && !(ev.Tick? && SilentFor60(st.aircraft[x], ev.now))
  {
    match ev
    case Receive(r, now) => ReceptionFlags(st, r, now, x, 0); hide OnReception;
    case Tick(now) => TickFlags(st, now, x, 0); hide OnTick;
    case InputUp =>
    case InputDown =>
  }

  lemma ProcessRequests(st: EngineState, notice: Notice, x: Address)
    requires WellFormed(st) && st.n == 1
    ensures RequestedBy(React(st, AsEvent(notice)).0, x, 0)
       <==> notice.StartSending? && (RequestedBy(st, x, 0) || (x in st.aircraft && x in notice.addrs))
  {
    match notice
    case StartSending(addrs) =>
      var somes := seq(|addrs|, i requires 0 <= i < |addrs| => Some(addrs[i]));
      SetRequestedFlags(st, 0, somes, true, x, 0);
      if x in addrs {
        var i :| 0 <= i < |addrs| && addrs[i] == x;
        assert somes[i] == Some(x);
      }
      assert x in st.aircraft ==> |st.aircraft[x].servers| == 1;
    case Restarted => ServerResetFlags(st, 0, x, 0);
  }

  lemma UplinkIsFree(s: Session, uplink: seq<ClientMsg>)
    requires Sound(s)
    ensures Sound(s.(uplink := uplink))
  {
    var t := s.(uplink := uplink);
    assert InTransit(t) == InTransit(s);
    forall x | Active(t, x)
      ensures x in Delivered(t)
    {
      assert Active(s, x);
    }
  }

  lemma ActKeeps(s: Session, ev: Event)
    requires Sound(s)
    ensures Sound(Next(s, Act(ev)))
  {
    if Spontaneous(ev) {
      StepWellFormed(s.client, ev);
      var t := Next(s, Act(ev));
      forall x | Active(t, x)
        ensures x in Delivered(t)
      {
        ActRequests(s.client, ev, x);
        hide React, RequestedBy;
        assert Active(s, x);
      }
    }
  }

  lemma LogGrows(sent: seq<Address>, more: seq<Address>, carried: seq<Address>)
    requires Distinct(sent) && Distinct(more) && EndsWith(sent, carried) && forall a :: a in more ==> a !in sent
    ensures Distinct(sent + more) && EndsWith(sent + more, carried + more)
    ensures (sent + more)[..|sent + more| - |carried + more|] == sent[..|sent| - |carried|]
  {
    var k := |sent| - |carried|;
    assert (sent + more)[k..] == sent[k..] + more;
    forall i, j | 0 <= i < j < |sent + more|
      ensures (sent + more)[i] != (sent + more)[j]
    {
      if i < |sent| <= j {
        assert more[j - |sent|] in more && sent[i] in sent;
      }
    }
  }

  lemma ReadKeeps(s: Session, order: seq<Address>, room: bool)
    requires Sound(s)
    ensures Sound(Next(s, ServerReads(order, room)))
    ensures var t := Next(s, ServerReads(order, room));
            InTransit(t)
            == if Readable(s, order) && room then InTransit(s) + Fresh(s.requested, order) else InTransit(s)
  {
    var unasked := Fresh(s.requested, order);
    FreshIsWhatIsNew(s.requested, order);
    var t := Next(s, ServerReads(order, room));
    hide Fresh;
    if Readable(s, order) && unasked != [] && room {
      FlattenAppend(s.down, unasked);
      assert Owed(s.inbox) + (Flatten(s.down) + unasked) == InTransit(s) + unasked;
      assert InTransit(t) == InTransit(s) + unasked;
      LogGrows(s.sent, unasked, InTransit(s));
      assert Delivered(t) == Delivered(s);
      forall x | Active(t, x)
        ensures x in Delivered(t)
      {
        assert Active(s, x);
      }
    } else {
      assert InTransit(t) == InTransit(s) == InTransit(s) + [];
      forall x | Active(t, x)
        ensures x in Delivered(t)
      {
        assert Active(s, x);
      }
    }
  }

  /** Moving a list from the downlink to the inbox changes neither what is in transit nor whether the inbox is stale. */
  lemma ListMoves(inbox: seq<Notice>, down: seq<seq<Address>>)
    requires down != []
    ensures var next := inbox + [StartSending(down[0])];
            && Owed(next) + Flatten(down[1..]) == Owed(inbox) + Flatten(down)
            && (Stale(next) <==> Stale(inbox))
  {
    OwedAppend(inbox, StartSending(down[0]));
    hide Owed, Stale;
    assert Owed(inbox) + down[0] + Flatten(down[1..]) == Owed(inbox) + (down[0] + Flatten(down[1..]));
  }

  lemma SameStanding(s: Session, t: Session)
    requires Sound(s) && t.client == s.client && t.sent == s.sent && t.requested == s.requested
    requires InTransit(t) == InTransit(s) && (Stale(t.inbox) <==> Stale(s.inbox))
    ensures Sound(t) && forall x :: Active(t, x) == Active(s, x)
  {
    hide InTransit, RequestedBy, Stale, Distinct, EndsWith, WellFormed;
    assert forall x :: Active(t, x) == Active(s, x);
    assert Delivered(t) == Delivered(s);
  }

  lemma DeliverKeeps(s: Session)
    requires Sound(s)
    ensures Sound(Next(s, Deliver)) && InTransit(Next(s, Deliver)) == InTransit(s)
    ensures forall x :: Active(Next(s, Deliver), x) == Active(s, x)
  {
    hide Sound, Active, Owed, Stale;
    var t := Next(s, Deliver);
    if s.down != [] {
      ListMoves(s.inbox, s.down);
    }
    SameStanding(s, t);
  }

  function Arriving(s: Session): seq<Address> {
    if s.inbox != [] && s.inbox[0].StartSending? && !Stale(s.inbox[1..]) then s.inbox[0].addrs else []
  }

  lemma ProcessShifts(s: Session)
    requires s.inbox != []
    ensures InTransit(s) == Arriving(s) + InTransit(s.(inbox := s.inbox[1..]))
  {
    var rest := Owed(s.inbox[1..]);
    assert Owed(s.inbox) == Arriving(s) + rest;
    assert Arriving(s) + rest + Flatten(s.down) == Arriving(s) + (rest + Flatten(s.down));
  }

  lemma SuffixShrinks(sent: seq<Address>, arriving: seq<Address>, left: seq<Address>)
    requires EndsWith(sent, arriving + left)
    ensures EndsWith(sent, left)
    ensures sent[..|sent| - |left|] == sent[..|sent| - |arriving + left|] + arriving
  {
    var k := |sent| - |arriving + left|;
    assert sent[k..][|arriving|..] == left && sent[k..][..|arriving|] == arriving;
  }

  lemma ProcessKeeps(s: Session)
    requires Sound(s)
    ensures Sound(Next(s, Process))
    ensures InTransit(s) == Arriving(s) + InTransit(Next(s, Process))
  {
    if s.inbox == [] {
      assert [] + InTransit(s) == InTransit(s);
    } else {
      var t, notice := Next(s, Process), s.inbox[0];
      StepWellFormed(s.client, AsEvent(notice));
      ProcessShifts(s);
      assert InTransit(t) == InTransit(s.(inbox := s.inbox[1..]));
      SuffixShrinks(s.sent, Arriving(s), InTransit(t));
      hide React, RequestedBy, WellFormed, Distinct, InTransit, EndsWith;
      assert Delivered(t) == Delivered(s) + Arriving(s);
      forall x | Active(t, x)
        ensures x in Delivered(t)
      {
        ProcessRequests(s.client, notice, x);
        assert s.inbox == [notice] + t.inbox;
        assert x in Arriving(s) || Active(s, x);
      }
    }
  }

  lemma RestartKeeps(s: Session)
    requires Sound(s)
    ensures Sound(Next(s, Restart))
  {
    OwedAppend(s.inbox, Restarted);
  }

  /** The invariant holds at the start and survives every step. */
  lemma SessionsStaySound(s: Session, step: Step)
    requires Sound(s)
    ensures Sound(Next(s, step))
  {
    match step
    case Act(ev) => ActKeeps(s, ev);
    case LoseUplink(i) =>
      if i < |s.uplink| {
        UplinkIsFree(s, s.uplink[..i] + s.uplink[i + 1..]);
      }
    case ServerReads(order, room) => ReadKeeps(s, order, room);
    case Deliver => DeliverKeeps(s);
    case Process => ProcessKeeps(s);
    case Restart => RestartKeeps(s);
  }

  // ---------------------------------------------------------------- over runs

  lemma InitialSound(start: real)
    ensures Sound(Initial(start))
  {
  }

  /**
   * Over every run, losses, interleavings and restarts included: no address is asked for twice on one connection, and
   * what the engine sends traffic about is something this connection's server has asked for.
   */
  lemma {:induction false} ActiveImpliesRequested(s: Session, steps: seq<Step>, x: Address)
    requires Sound(s)
    ensures Sound(RunOf(s, steps)) && Distinct(RunOf(s, steps).sent)
    ensures Active(RunOf(s, steps), x) ==> x in RunOf(s, steps).sent && x in RunOf(s, steps).requested
    decreases |steps|
  {
    if steps == [] {
      if Active(s, x) {
        SentSplits(s);
      }
    } else {
      SessionsStaySound(s, steps[0]);
      ActiveImpliesRequested(Next(s, steps[0]), steps[1..], x);
    }
  }

  /** The next queued event brings the present connection's request for x. */
  predicate Arrives(s: Session, x: Address) {
    s.inbox != [] && s.inbox[0].StartSending? && !Stale(s.inbox) && x in s.inbox[0].addrs
  }

  lemma ProcessActive(s: Session, x: Address)
    requires WellFormed(s.client) && s.client.n == 1
    ensures Active(Next(s, Process), x) <==> Active(s, x) || (Arrives(s, x) && x in s.client.aircraft)
  {
    if s.inbox != [] {
      assert s.inbox == [s.inbox[0]] + s.inbox[1..];
      ProcessRequests(s.client, s.inbox[0], x);
      hide React, RequestedBy;
    }
  }

  lemma ProcessTransit(s: Session, x: Address)
    requires Sound(s)
    ensures var t := Next(s, Process);
            && (Arrives(s, x) ==> x in s.requested && x !in InTransit(t))
            && (!Arrives(s, x) ==> (x in InTransit(t) <==> x in InTransit(s)))
  {
    if s.inbox != [] {
      var t, notice := Next(s, Process), s.inbox[0];
      assert s.inbox == [notice] + t.inbox;
      ProcessKeeps(s);
      SentSplits(s);
      SentSplits(t);
      assert t.sent == s.sent;
      if Arrives(s, x) {
        assert Arriving(s) == notice.addrs;
        ArrivalLeavesTransit(notice.addrs, InTransit(t), Delivered(s), s.sent, x);
      }
    }
  }

  lemma ArrivalLeavesTransit(arrived: seq<Address>, left: seq<Address>, done: seq<Address>, sent: seq<Address>,
                             x: Address)
    requires Distinct(sent) && sent == done + (arrived + left) && x in arrived
    ensures x !in left && x in sent
  {
    var i :| 0 <= i < |arrived| && arrived[i] == x;
    assert sent[|done| + i] == x;
    forall j | 0 <= j < |left|
      ensures left[j] != x
    {
      assert sent[|done| + |arrived| + j] == left[j];
    }
  }

  /** A request takes effect when it reaches an engine that knows the aircraft, and both sides then agree. */
  lemma DeliveryAgrees(s: Session, x: Address)
    requires Sound(s) && Arrives(s, x)
    ensures x in s.requested
    ensures Active(Next(s, Process), x) <==> Active(s, x) || x in s.client.aircraft
  {
    ProcessActive(s, x);
    ProcessTransit(s, x);
  }

  predicate Expires(s: Session, step: Step, x: Address) {
    step.Act? && step.ev.Tick? && x in s.client.aircraft && SilentFor60(s.client.aircraft[x], step.ev.now)
  }

  /** Agreement ends only with the connection or with the aircraft. */
  lemma AgreementEndsOnlyByExpiry(s: Session, step: Step, x: Address)
    requires Sound(s) && Active(s, x) && step != Restart
    ensures Active(Next(s, step), x) <==> !Expires(s, step, x)
    ensures x in Next(s, step).requested
  {
    SentSplits(s);
    match step
    case Act(ev) =>
      if Spontaneous(ev) {
        ActRequests(s.client, ev, x);
      }
    case LoseUplink(_) =>
    case ServerReads(_, _) =>
    case Deliver => DeliverKeeps(s);
    case Process =>
      if s.inbox != [] {
        ProcessRequests(s.client, s.inbox[0], x);
        assert s.inbox == [s.inbox[0]] + s.inbox[1..];
      }
  }

  /** What leaves x requested in the server's books and unsent for good. */
  predicate Starves(s: Session, step: Step, x: Address) {
    match step
    case Act(ev) => Active(s, x) && Expires(s, step, x)
    case ServerReads(order, room) => Readable(s, order) && x in order && x !in s.requested && !room
    case Process => Arrives(s, x) && x !in s.client.aircraft && !Active(s, x)
    case _ => false
  }

  lemma ReadStarves(s: Session, order: seq<Address>, room: bool, x: Address)
    requires Sound(s)
    ensures var step := ServerReads(order, room);
            Starved(Next(s, step), x) <==> Starved(s, x) || Starves(s, step, x)
  {
    SentSplits(s);
    ReadKeeps(s, order, room);
    FreshIsWhatIsNew(s.requested, order);
    var t := Next(s, ServerReads(order, room));
    assert Active(t, x) == Active(s, x);
    assert x in t.requested <==> x in s.requested || (Readable(s, order) && x in order);
    hide Fresh, InTransit, Active, Sound, Next;
  }

  lemma ProcessStarves(s: Session, x: Address)
    requires Sound(s)
    ensures Starved(Next(s, Process), x) <==> Starved(s, x) || Starves(s, Process, x)
  {
    ProcessActive(s, x);
    ProcessTransit(s, x);
    assert Next(s, Process).requested == s.requested;
    assert x in InTransit(s) <== Arrives(s, x) by {
      if Arrives(s, x) {
        assert s.inbox == [s.inbox[0]] + s.inbox[1..];
      }
    }
    hide InTransit, Active, Sound, Next;
  }

  lemma ActStarves(s: Session, ev: Event, x: Address)
    requires Sound(s)
    ensures Starved(Next(s, Act(ev)), x) <==> Starved(s, x) || Starves(s, Act(ev), x)
  {
    SentSplits(s);
    if Spontaneous(ev) {
      ActRequests(s.client, ev, x);
      hide React;
    }
  }

  /**
   * Within a connection an aircraft comes to be starved exactly when it expires while it is sent, when the reply asking
   * for it finds its queue full, or when that reply arrives after the engine forgot it; and starved it stays.
   */
  lemma StarvationArises(s: Session, step: Step, x: Address)
    requires Sound(s) && step != Restart
    ensures Starved(Next(s, step), x) <==> Starved(s, x) || Starves(s, step, x)
  {
    match step
    case Act(ev) => ActStarves(s, ev, x);
    case LoseUplink(_) =>
    case ServerReads(order, room) => ReadStarves(s, order, room, x);
    case Deliver => DeliverKeeps(s);
    case Process => ProcessStarves(s, x);
  }

  /** What the step sends, if anything, is no mlat or sync message about x. */
  predicate SilentStep(s: Session, step: Step, x: Address) {
    step.Act? && step.ev.Receive? ==>
      forall o <- React(s.client, step.ev).1 :: o.msg == ClockReset || !Concerns(Classify(step.ev.r.frame), x)
  }

  /** No mlat or sync message about x goes out during the run. */
  predicate Silent(s: Session, steps: seq<Step>, x: Address)
    decreases |steps|
  {
    steps != [] ==> SilentStep(s, steps[0], x) && Silent(Next(s, steps[0]), steps[1..], x)
  }

  lemma StarvedIsSilent(s: Session, step: Step, x: Address)
    requires Sound(s) && Starved(s, x) && !Stale(s.inbox)
    ensures SilentStep(s, step, x)
  {
    if step.Act? && step.ev.Receive? {
      hide OnReception, Classify, InTransit;
      forall o | o in React(s.client, step.ev).1
        ensures o.msg == ClockReset || !Concerns(Classify(step.ev.r.frame), x)
      {
        ReceptionServers(s.client, step.ev.r, step.ev.now, o);
        TrafficOnlyOnRequest(s.client, step.ev.r, step.ev.now, o);
      }
    }
  }

  /**
   * Once starved, an aircraft is never asked for and never sent about again until the connection restarts, however
   * often the client announces it.
   */
  lemma {:induction false} StarvedUntilRestart(s: Session, steps: seq<Step>, x: Address)
    requires Sound(s) && Starved(s, x) && !Stale(s.inbox) && Restart !in steps
    ensures Starved(RunOf(s, steps), x) && Silent(s, steps, x)
    decreases |steps|
  {
    hide Sound, Starved, Next, Starves, Stale, SilentStep;
    if steps != [] {
      var step, t := steps[0], Next(s, steps[0]);
      assert step != Restart;
      StarvationArises(s, step, x);
      SessionsStaySound(s, step);
      StaysFresh(s, step);
      StarvedIsSilent(s, step, x);
      StarvedUntilRestart(t, steps[1..], x);
    }
  }

  lemma StaysFresh(s: Session, step: Step)
    requires !Stale(s.inbox) && step != Restart
    ensures !Stale(Next(s, step).inbox)
  {
  }

  // ---------------------------------------------------------------- an aircraft that comes back

  lemma HeardAgain(st: EngineState, r: Reception, x: Address, now: real)
    requires WellFormed(st) && st.n == 1 && x !in st.aircraft && Classify(r.frame) == AllCall(x)
    ensures var next := OnReception(st, r, now).0;
            x in next.aircraft && next.aircraft[x].lastSeen == now && next.aircraft[x].servers == [NEW_SERVER]
  {
    DetectResetFlags(st, r.counts, x, 0);
    hide Classify, WentBack;
    assert seq(1, _ => NEW_SERVER) == [NEW_SERVER];
  }

  lemma AnnouncedAgain(st: EngineState, r: Reception, x: Address, now: real)
    requires WellFormed(st) && st.n == 1 && x in st.aircraft && SilentFor60(st.aircraft[x], now)
    requires Classify(r.frame) == AllCall(x)
    ensures var gone := React(st, Tick(now)).0;
            var back := React(gone, Receive(r, now)).0;
            NoticesIn(React(back, Tick(now)).1, x, 0) == [true]
  {
    var gone := React(st, Tick(now)).0;
    var back := React(gone, Receive(r, now)).0;
    StepWellFormed(st, Tick(now));
    StepWellFormed(gone, Receive(r, now));
    TickFlags(st, now, x, 0);
    assert x !in gone.aircraft;
    HeardAgain(gone, r, x, now);
    TickNotices(back, now, x, 0);
    assert x in NewlySeen(back, now, 0);
  }

  /**
   * No message need be lost for this: an aircraft that goes silent for over a minute while it is sent, and then comes
   * back, is announced to the server again, and the server never asks for it again on that connection.
   */
  lemma AnnouncedAgainInVain(s: Session, r: Reception, x: Address, now: real, steps: seq<Step>)
    requires Sound(s) && Active(s, x) && SilentFor60(s.client.aircraft[x], now)
    requires Classify(r.frame) == AllCall(x) && Restart !in steps
    ensures var back := Next(Next(s, Act(Tick(now))), Act(Receive(r, now)));
            && NoticesIn(React(back.client, Tick(now)).1, x, 0) == [true]
            && Starved(RunOf(Next(back, Act(Tick(now))), steps), x)
  {
    AnnouncedAgain(s.client, r, x, now);
    var gone := Next(s, Act(Tick(now)));
    SessionsStaySound(s, Act(Tick(now)));
    ActStarves(s, Act(Tick(now)).ev, x);
    var rest := [Act(Tick(now))] + steps;
    var run := [Act(Receive(r, now))] + rest;
    assert run[1..] == rest && rest[1..] == steps;
    hide React, Classify, Sound, Starved, Active, SilentFor60;
    StarvedUntilRestart(gone, run, x);
    var back := Next(gone, run[0]);
    assert RunOf(gone, run) == RunOf(back, rest) == RunOf(Next(back, rest[0]), steps);
  }

  // ---------------------------------------------------------------- from the start

  /** The run theorem for sessions as they begin. */
  lemma SessionsFromTheStart(start: real, steps: seq<Step>, x: Address)
    ensures var s := RunOf(Initial(start), steps);
            && Sound(s) && Distinct(s.sent)
            && (Active(s, x) ==> x in s.sent && x in s.requested)
  {
    InitialSound(start);
    ActiveImpliesRequested(Initial(start), steps, x);
  }

  /** The engine knows one aircraft, which nobody has asked for, and has told no one. */
  predicate JustHeard(st: EngineState, x: Address) {
    st.n == 1 && st.aircraft.Keys == {x} && st.aircraft[x].servers == [NEW_SERVER]
  }

  lemma FirstHeard(start: real, r: Reception, x: Address)
    requires Classify(r.frame) == AllCall(x)
    ensures var (st, out) := React(Initial(start).client, Receive(r, start));
            JustHeard(st, x) && st.aircraft[x].lastSeen == start && st.lastRateReport == start && out == []
  {
    var st0 := Initial(start).client;
    HeardAgain(st0, r, x, start);
    var st1 := DetectReset(st0, r.counts).0;
    assert st1.aircraft.Keys == {};
    hide Classify, WentBack;
    var st := Touch(st1, x, start, true);
    assert Requesters(st.aircraft[x]) == [false];
    assert FanOut([false], Mlat(r.counts, r.frame), 0) == [];
  }

  lemma FirstTick(st: EngineState, x: Address, now: real)
    requires JustHeard(st, x) && st.aircraft[x].lastSeen == now && st.lastRateReport == now
    ensures var (next, out) := React(st, Tick(now));
            && out == [Outbound(0, Seen({x}))]
            && next.n == 1 && next.aircraft.Keys == {x} && next.aircraft[x].lastSeen == now
  {
    assert NewlySeen(st, now, 0) == {x} && NewlyLost(st, now, 0) == {};
    assert Notices(st, now, 1) == [];
    assert Tagged(0, [Seen({x})]) == [Outbound(0, Seen({x}))];
  }

  /** Heard, announced, asked for, and the request delivered to the engine. */
  function Introduction(r: Reception, x: Address, now: real): seq<Step> {
    [Act(Receive(r, now)), Act(Tick(now)), ServerReads([x], true), Deliver, Process]
  }

  lemma ReadFirstOffer(s: Session, x: Address)
    requires s.uplink == [Seen({x})] && s.requested == {} && s.down == [] && s.inbox == [] && s.sent == []
    ensures Next(s, ServerReads([x], true)) == s.(uplink := [], requested := {x}, down := [[x]], sent := [x])
  {
    assert Members([x]) == {x};
    assert [x][1..] == [] && Fresh({}, [x]) == [x];
    assert {} + Members([x]) == {x};
  }

  lemma IntroducedStep(start: real, r: Reception, x: Address)
    requires Classify(r.frame) == AllCall(x)
    ensures var t := Next(Next(Initial(start), Act(Receive(r, start))), Act(Tick(start)));
            && t.uplink == [Seen({x})] && t.down == [] && t.inbox == [] && t.requested == {} && t.sent == []
            && x in t.client.aircraft && t.client.aircraft[x].lastSeen == start
  {
    var s := Initial(start);
    var heard := React(s.client, Receive(r, start)).0;
    FirstHeard(start, r, x);
    FirstTick(heard, x, start);
    assert Messages([]) == [];
    assert Messages([Outbound(0, Seen({x}))]) == [Seen({x})];
    hide React, Classify, JustHeard;
    assert Next(s, Act(Receive(r, start))).client == heard;
  }

  /** On a run from the start an aircraft comes to be sent: heard, announced, asked for and delivered. */
  lemma IntroductionActivates(start: real, r: Reception, x: Address)
    requires Classify(r.frame) == AllCall(x)
    ensures var s := RunOf(Initial(start), Introduction(r, x, start));
            Sound(s) && Active(s, x) && x in s.client.aircraft && s.client.aircraft[x].lastSeen == start
  {
    hide React, Classify, Sound;
    var t := Next(Next(Initial(start), Act(Receive(r, start))), Act(Tick(start)));
    IntroducedStep(start, r, x);
    ReadFirstOffer(t, x);
    var u := Next(Next(t, ServerReads([x], true)), Deliver);
    assert u == t.(uplink := [], requested := {x}, down := [], inbox := [StartSending([x])], sent := [x]);
    SessionsFromTheStart(start, [Act(Receive(r, start)), Act(Tick(start)), ServerReads([x], true), Deliver], x);
    SessionsFromTheStart(start, Introduction(r, x, start), x);
    FiveSteps(Initial(start), Introduction(r, x, start));
    FourSteps(Initial(start), [Act(Receive(r, start)), Act(Tick(start)), ServerReads([x], true), Deliver]);
    assert RunOf(Initial(start), Introduction(r, x, start)) == Next(u, Process);
    hide Fresh, Members, Next, RunOf, Introduction;
    assert Arrives(u, x);
    DeliveryAgrees(u, x);
    ProcessKeepsLastSeen(u, x);
  }

  lemma FourSteps(s: Session, steps: seq<Step>)
    requires |steps| == 4
    ensures RunOf(s, steps) == Next(Next(Next(Next(s, steps[0]), steps[1]), steps[2]), steps[3])
  {
    hide Next;
    assert steps[1..][0] == steps[1] && steps[1..][1..] == steps[2..];
    assert steps[2..][0] == steps[2] && steps[2..][1..] == steps[3..];
    assert steps[3..][0] == steps[3] && steps[3..][1..] == [];
    var t := Next(Next(s, steps[0]), steps[1]);
    assert RunOf(s, steps) == RunOf(t, steps[2..]);
    assert RunOf(t, steps[2..]) == RunOf(Next(Next(t, steps[2]), steps[3]), []);
  }

  lemma FiveSteps(s: Session, steps: seq<Step>)
    requires |steps| == 5
    ensures RunOf(s, steps) == Next(Next(Next(Next(Next(s, steps[0]), steps[1]), steps[2]), steps[3]), steps[4])
  {
    hide Next;
    assert steps[1..][0] == steps[1];
    FourSteps(Next(s, steps[0]), steps[1..]);
  }

  lemma ProcessKeepsLastSeen(s: Session, x: Address)
    requires s.inbox == [StartSending([x])] && x in s.client.aircraft
    ensures var t := Next(s, Process);
            x in t.client.aircraft && t.client.aircraft[x].lastSeen == s.client.aircraft[x].lastSeen
  {
    var addrs := [Some(x)];
    assert AsEvent(StartSending([x])) == Start(0, addrs);
    var a := s.client.aircraft[x];
    var next := s.client.(aircraft := s.client.aircraft[x := Request(a, 0, true)]);
    assert addrs[1..] == [] && SetRequested(next, 0, [], true) == next;
    assert SetRequested(s.client, 0, addrs, true) == next;
  }

  /** And 61 seconds of silence later it is starved, for the rest of the connection, without a message lost. */
  lemma StarvationIsReached(start: real, r: Reception, x: Address, steps: seq<Step>)
    requires Classify(r.frame) == AllCall(x) && Restart !in steps
    ensures var s := RunOf(Initial(start), Introduction(r, x, start));
            Starved(RunOf(Next(s, Act(Tick(start + 61.0))), steps), x)
  {
    var s := RunOf(Initial(start), Introduction(r, x, start));
    IntroductionActivates(start, r, x);
    var gone := Next(s, Act(Tick(start + 61.0)));
    assert SilentFor60(s.client.aircraft[x], start + 61.0);
    ActStarves(s, Act(Tick(start + 61.0)).ev, x);
    SessionsStaySound(s, Act(Tick(start + 61.0)));
    hide React, Classify, Sound, Starved, Active, SilentFor60;
    StarvedUntilRestart(gone, steps, x);
  }
}
