/** What a shard's receiver slots, pair models and sync points keep over every run. */
module ShardTheorems {
  import opened Common
  import opened ClockSync
  import opened ClockSyncTheorems
  import opened Shard

  // ---------------------------------------------------------------- slots

  /** The free slots are the dead ones, each listed once. */
  predicate FreeAreDead(t: State) {
    && Distinct(t.free)
    && (forall i :: i in t.free ==> i < |t.alive| && !t.alive[i])
    && (forall i :: 0 <= i < |t.alive| && !t.alive[i] ==> i in t.free)
  }

  /** Users and live slots correspond one to one. */
  predicate UsersAreLive(t: State)
    requires Shaped(t)
  {
    && (forall u :: u in t.byUser ==> t.alive[t.byUser[u]] && t.users[t.byUser[u]] == u)
    && (forall i :: 0 <= i < |t.alive| && t.alive[i] ==> t.users[i] in t.byUser && t.byUser[t.users[i]] == i)
  }

  predicate SlotsSound(t: State) {
    Shaped(t) && FreeAreDead(t) && UsersAreLive(t)
  }

  lemma RemovedKeepsSlots(t: State, r: RxRef)
    requires SlotsSound(t)
    ensures SlotsSound(Removed(t, r))
  {
    hide WithoutSlot;
    if Live(t, r) {
      var s := Removed(t, r);
      assert r.idx !in t.free;
      assert s.free == t.free + [r.idx];
      assert s.free[|t.free|] == r.idx;
    }
  }

  lemma DisplacedFreesUser(t: State, user: string)
    requires SlotsSound(t)
    ensures SlotsSound(Displaced(t, user)) && user !in Displaced(t, user).byUser
    ensures forall i :: 0 <= i < |t.alive| && Displaced(t, user).alive[i] ==> t.users[i] != user
    ensures user in t.byUser ==> NextSlot(Displaced(t, user)) == t.byUser[user] && Displaced(t, user).gens == t.gens
    ensures |Displaced(t, user).alive| == |t.alive|
  {
    if user in t.byUser {
      RemovedKeepsSlots(t, RxRef(t.byUser[user], t.gens[t.byUser[user]]));
    }
    hide WithoutSlot;
  }

  lemma PlacedKeepsFree(t: State, user: string)
    requires Shaped(t) && FreeAreDead(t)
    ensures FreeAreDead(Placed(t, user))
  {
    var s, i := Placed(t, user), NextSlot(t);
    if t.free != [] {
      assert s.free == t.free[..|t.free| - 1] && i == t.free[|t.free| - 1];
      assert i !in s.free;
      forall j | 0 <= j < |s.alive| && !s.alive[j]
        ensures j in s.free
      {
        assert j in t.free && j != i;
        var k :| 0 <= k < |t.free| && t.free[k] == j;
        assert s.free[k] == j;
      }
    } else {
      assert s.free == [] && forall j :: 0 <= j < |t.alive| ==> t.alive[j];
    }
  }

  lemma PlacedKeepsUsers(t: State, user: string)
    requires SlotsSound(t) && user !in t.byUser
    ensures UsersAreLive(Placed(t, user))
  {
    assert t.free != [] ==> t.free[|t.free| - 1] in t.free;
  }

  lemma PlacedKeepsSlots(t: State, user: string)
    requires SlotsSound(t) && user !in t.byUser
    ensures SlotsSound(Placed(t, user))
  {
    PlacedKeepsFree(t, user);
    PlacedKeepsUsers(t, user);
  }

  lemma AddedKeepsSlots(t: State, user: string)
    requires SlotsSound(t)
    ensures SlotsSound(Added(t, user).0)
  {
    DisplacedFreesUser(t, user);
    PlacedKeepsSlots(Displaced(t, user), user);
  }

  /** A user who connects again takes its slot back with the next generation; nobody else's reference is affected. */
  lemma ReconnectTakesSlotBack(t: State, user: string, other: RxRef)
    requires SlotsSound(t) && user in t.byUser && other.idx != t.byUser[user]
    ensures var (s, r) := Added(t, user);
            && r == RxRef(t.byUser[user], NextGen(t.gens[t.byUser[user]])) && Live(s, r)
            && |s.alive| == |t.alive| && (Live(s, other) <==> Live(t, other))
  {
    DisplacedFreesUser(t, user);
    hide WithoutSlot;
  }

  /** The late teardown of a displaced connection changes nothing. */
  lemma ZombieTeardownIsHarmless(t: State, user: string)
    requires SlotsSound(t) && user in t.byUser
    ensures var was := RxRef(t.byUser[user], t.gens[t.byUser[user]]);
            Live(t, was) && Removed(Added(t, user).0, was) == Added(t, user).0
  {
    var slot := t.byUser[user];
    ReconnectTakesSlotBack(t, user, RxRef(slot + 1, 0));
    hide WithoutSlot, Added, FreeAreDead, Displaced, Placed;
    assert NextGen(t.gens[slot]) != t.gens[slot];
  }

  // ---------------------------------------------------------------- pairs

  function Mirror(os: seq<Observation>): seq<Observation> {
    seq(|os|, i requires 0 <= i < |os| => Observation(os[i].b, os[i].a))
  }

  /** The models of the two directions were trained by the same shared events, seen from either side. */
  ghost predicate TrainedBy(m: Fit, reverse: Fit, os: seq<Observation>) {
    m == RunOf(os).fit && reverse == RunOf(Mirror(os)).fit
  }

  ghost predicate Mirrored(pairs: map<Pair, Fit>, a: nat, b: nat) {
    (a, b) in pairs && (b, a) in pairs && exists os :: TrainedBy(pairs[(a, b)], pairs[(b, a)], os)
  }

  /** Keys are symmetric, irreflexive and over live slots only. */
  ghost predicate PairsSound(pairs: map<Pair, Fit>, alive: seq<bool>) {
    forall a, b :: (a, b) in pairs ==>
      && a != b && a < |alive| && b < |alive| && alive[a] && alive[b]
      && Mirrored(pairs, a, b)
  }

  lemma RunOfNext(os: seq<Observation>, o: Observation)
    ensures RunOf(os + [o]).fit == Pushed(RunOf(os).fit, o)
  {
    assert (os + [o])[..|os|] == os;
  }

  lemma TrainedNext(m: Fit, reverse: Fit, os: seq<Observation>, o: Observation)
    requires TrainedBy(m, reverse, os)
    ensures TrainedBy(Pushed(m, o), Pushed(reverse, Observation(o.b, o.a)), os + [o])
  {
    RunOfNext(os, o);
    RunOfNext(Mirror(os), Observation(o.b, o.a));
    assert Mirror(os + [o]) == Mirror(os) + [Observation(o.b, o.a)];
  }

  lemma MirrorTwice(os: seq<Observation>)
    ensures Mirror(Mirror(os)) == os
  {
  }

  lemma MirroredBack(pairs: map<Pair, Fit>, a: nat, b: nat)
    requires Mirrored(pairs, a, b)
    ensures Mirrored(pairs, b, a)
  {
    var os :| TrainedBy(pairs[(a, b)], pairs[(b, a)], os);
    MirrorTwice(os);
    assert TrainedBy(pairs[(b, a)], pairs[(a, b)], Mirror(os));
  }

  lemma SoundIsWeighable(pairs: map<Pair, Fit>, alive: seq<bool>)
    requires PairsSound(pairs, alive)
    ensures Weighable(pairs)
  {
    forall k | k in pairs
      ensures pairs[k].w >= 0.0
    {
      var (a, b) := k;
      assert Mirrored(pairs, a, b);
    }
  }

  lemma PairHistory(pairs: map<Pair, Fit>, alive: seq<bool>, a: nat, b: nat) returns (os: seq<Observation>)
    requires PairsSound(pairs, alive) && Weighable(pairs)
    ensures TrainedBy(Model(pairs, (a, b)), Model(pairs, (b, a)), os)
  {
    if (a, b) in pairs {
      assert Mirrored(pairs, a, b);
      os :| TrainedBy(pairs[(a, b)], pairs[(b, a)], os);
    } else {
      assert (b, a) in pairs ==> Mirrored(pairs, b, a);
      os := [];
      assert Mirror([]) == [];
    }
  }

  lemma ObserveTrains(pairs: map<Pair, Fit>, alive: seq<bool>, a: nat, b: nat, ta: real, tb: real)
    requires PairsSound(pairs, alive) && Weighable(pairs) && a != b
    ensures Mirrored(Observe(pairs, a, b, ta, tb), a, b)
  {
    var next := Observe(pairs, a, b, ta, tb);
    var os := PairHistory(pairs, alive, a, b);
    TrainedNext(Model(pairs, (a, b)), Model(pairs, (b, a)), os, Observation(ta, tb));
    hide RunOf, Pushed, TrainedBy, PairsSound;
    assert TrainedBy(next[(a, b)], next[(b, a)], os + [Observation(ta, tb)]);
  }

  lemma ObserveTouches(pairs: map<Pair, Fit>, a: nat, b: nat, ta: real, tb: real)
    requires Weighable(pairs)
    ensures var next := Observe(pairs, a, b, ta, tb);
            && (forall k :: k in next <==> k in pairs || k == (a, b) || k == (b, a))
            && (forall k :: k in pairs && k != (a, b) && k != (b, a) ==> next[k] == pairs[k])
  {
    hide Pushed;
  }

  lemma ObserveKeepsPairs(pairs: map<Pair, Fit>, alive: seq<bool>, a: nat, b: nat, ta: real, tb: real)
    requires PairsSound(pairs, alive) && a != b && a < |alive| && b < |alive| && alive[a] && alive[b]
    requires Weighable(pairs)
    ensures PairsSound(Observe(pairs, a, b, ta, tb), alive)
  {
    var next := Observe(pairs, a, b, ta, tb);
    ObserveTrains(pairs, alive, a, b, ta, tb);
    ObserveTouches(pairs, a, b, ta, tb);
    MirroredBack(next, a, b);
    hide Observe;
    forall c, d | (c, d) in next
      ensures c != d && c < |alive| && d < |alive| && alive[c] && alive[d] && Mirrored(next, c, d)
    {
      if (c, d) != (a, b) && (c, d) != (b, a) {
        assert Mirrored(pairs, c, d);
        var os :| TrainedBy(pairs[(c, d)], pairs[(d, c)], os);
        assert TrainedBy(next[(c, d)], next[(d, c)], os);
      }
    }
  }

  lemma {:induction false} TrainKeepsPairs(pairs: map<Pair, Fit>, alive: seq<bool>, r: Report, others: seq<Report>)
    requires PairsSound(pairs, alive) && Weighable(pairs) && r.rx < |alive| && alive[r.rx]
    ensures PairsSound(Train(pairs, alive, r, others), alive)
    decreases |others|
  {
    if others != [] {
      var other := others[0];
      if Counts(alive, r, other) {
        hide PairsSound, Observe, Weighable;
        var once := Observe(pairs, r.rx, other.rx, r.te, other.te);
        ObserveKeepsPairs(pairs, alive, r.rx, other.rx, r.te, other.te);
        ObserveKeepsPairs(once, alive, r.rx, other.rx, r.to, other.to);
        TrainKeepsPairs(ObserveBoth(pairs, r, other), alive, r, others[1..]);
      } else {
        TrainKeepsPairs(pairs, alive, r, others[1..]);
      }
    }
  }

  lemma WithoutKeepsPairs(pairs: map<Pair, Fit>, alive: seq<bool>, rx: nat)
    requires PairsSound(pairs, alive)
    ensures PairsSound(WithoutSlot(pairs, rx), alive)
    ensures rx < |alive| ==> PairsSound(WithoutSlot(pairs, rx), alive[rx := false])
  {
    var next := WithoutSlot(pairs, rx);
    forall c, d | (c, d) in next
      ensures c != d && c < |alive| && d < |alive| && alive[c] && alive[d] && c != rx && d != rx && Mirrored(next, c, d)
    {
      assert Mirrored(pairs, c, d);
      var os :| TrainedBy(pairs[(c, d)], pairs[(d, c)], os);
      assert TrainedBy(next[(c, d)], next[(d, c)], os);
    }
  }

  lemma MoreAliveKeepsPairs(pairs: map<Pair, Fit>, alive: seq<bool>, more: seq<bool>)
    requires PairsSound(pairs, alive) && |alive| <= |more| && forall i :: 0 <= i < |alive| && alive[i] ==> more[i]
    ensures PairsSound(pairs, more)
  {
  }

  // ---------------------------------------------------------------- the whole state

  predicate PointsSound(t: State) {
    forall k :: k in t.syncpoints ==> |t.syncpoints[k].reporters| <= 15
  }

  ghost predicate Sound(t: State) {
    SlotsSound(t) && PairsSound(t.pairs, t.alive) && PointsSound(t)
  }

  datatype Event =
    | Add(user: string)
    | Remove(r: RxRef)
    | Reset(r: RxRef)
    | Sync(r: RxRef, key: SyncKey, te: real, to: real, now: real)
    | SweepAt(now: real)

  ghost function Apply(t: State, e: Event): State
    requires Sound(t)
  {
    match e
    case Add(user) => Added(t, user).0
    case Remove(r) => Removed(t, r)
    case Reset(r) => ClockReset(t, r)
    case Sync(r, key, te, to, now) => SoundIsWeighable(t.pairs, t.alive); OnSync(t, r, key, te, to, now)
    case SweepAt(now) => Swept(t, now)
  }

  lemma AddKeeps(t: State, user: string)
    requires Sound(t)
    ensures Sound(Added(t, user).0)
  {
    AddedKeepsSlots(t, user);
    var gone := Displaced(t, user);
    if user in t.byUser {
      WithoutKeepsPairs(t.pairs, t.alive, t.byUser[user]);
    }
    assert PairsSound(gone.pairs, gone.alive);
    DisplacedFreesUser(t, user);
    hide PairsSound, SlotsSound, Displaced;
    MoreAliveKeepsPairs(gone.pairs, gone.alive, Placed(gone, user).alive);
  }

  lemma SyncKeeps(t: State, r: RxRef, key: SyncKey, te: real, to: real, now: real)
    requires Sound(t) && Weighable(t.pairs)
    ensures Sound(OnSync(t, r, key, te, to, now))
  {
    hide PairsSound, Train;
    if Live(t, r) {
      TrainKeepsPairs(t.pairs, t.alive, Report(r.idx, te, to), PointAt(t, key, now).reporters);
    }
  }

  lemma RemoveKeeps(t: State, r: RxRef)
    requires Sound(t)
    ensures Sound(Removed(t, r))
  {
    RemovedKeepsSlots(t, r);
    WithoutKeepsPairs(t.pairs, t.alive, r.idx);
    hide PairsSound, SlotsSound, WithoutSlot;
  }

  lemma SlotsIgnorePairs(t: State, pairs: map<Pair, Fit>)
    requires SlotsSound(t)
    ensures SlotsSound(t.(pairs := pairs))
  {
  }

  lemma ResetKeeps(t: State, r: RxRef)
    requires Sound(t)
    ensures Sound(ClockReset(t, r))
  {
    hide PairsSound, WithoutSlot, FreeAreDead, UsersAreLive;
    SlotsIgnorePairs(t, WithoutSlot(t.pairs, r.idx));
    WithoutKeepsPairs(t.pairs, t.alive, r.idx);
  }

  /** Every step keeps the slots, the pair table and the sync points sound. */
  lemma StepKeeps(t: State, e: Event)
    requires Sound(t)
    ensures Sound(Apply(t, e))
  {
    match e
    case Add(user) => AddKeeps(t, user); hide Sound, Added;
    case Remove(r) => RemoveKeeps(t, r); hide Sound, Removed;
    case Reset(r) => ResetKeeps(t, r); hide Sound, ClockReset;
    case Sync(r, key, te, to, now) =>
      SoundIsWeighable(t.pairs, t.alive);
      SyncKeeps(t, r, key, te, to, now);
      hide Sound, OnSync;
    case SweepAt(now) => hide PairsSound, SlotsSound;
  }

  // ---------------------------------------------------------------- runs

  ghost function After(es: seq<Event>): (t: State)
    ensures Sound(t)
  {
    if es == [] then EMPTY
    else
      var before := After(es[..|es| - 1]);
      StepKeeps(before, es[|es| - 1]);
      Apply(before, es[|es| - 1])
  }

  /** The references handed out, in order. */
  ghost function Issued(es: seq<Event>): seq<RxRef> {
    if es == [] then []
    else
      var e := es[|es| - 1];
      Issued(es[..|es| - 1]) + if e.Add? then [Added(After(es[..|es| - 1]), e.user).1] else []
  }

  /** How often a slot has been handed out. */
  function Issues(refs: seq<RxRef>, i: nat): nat {
    if refs == [] then 0 else Issues(refs[..|refs| - 1], i) + if refs[|refs| - 1].idx == i then 1 else 0
  }

  /** The generation of a slot counts its issues, modulo the width of the counter. */
  ghost predicate GensCount(gens: seq<nat>, refs: seq<RxRef>) {
    && (forall i :: 0 <= i < |gens| ==> Issues(refs, i) >= 1 && gens[i] == (Issues(refs, i) - 1) % 4294967296)
    && (forall i: nat :: i >= |gens| ==> Issues(refs, i) == 0)
  }

  lemma IssuesNext(refs: seq<RxRef>, r: RxRef, i: nat)
    ensures Issues(refs + [r], i) == Issues(refs, i) + if r.idx == i then 1 else 0
  {
    assert (refs + [r])[..|refs|] == refs;
  }

  lemma NextGenCounts(n: nat)
    requires n >= 1
    ensures NextGen((n - 1) % 4294967296) == n % 4294967296
  {
  }

  lemma AddedGens(t: State, user: string)
    requires SlotsSound(t)
    ensures var (s, r) := Added(t, user);
            && |s.gens| == |s.alive| && r.idx <= |t.gens|
            && s.gens == (if r.idx < |t.gens| then t.gens[r.idx := NextGen(t.gens[r.idx])] else t.gens + [0])
            && r.gen == s.gens[r.idx]
  {
    DisplacedFreesUser(t, user);
    assert Displaced(t, user).gens == t.gens;
    hide SlotsSound, WithoutSlot, Displaced, NextGen;
  }

  lemma NextGens(gens: seq<nat>, next: seq<nat>, refs: seq<RxRef>, r: RxRef)
    requires GensCount(gens, refs) && r.idx <= |gens|
    requires next == if r.idx < |gens| then gens[r.idx := NextGen(gens[r.idx])] else gens + [0]
    requires r.gen == next[r.idx]
    ensures GensCount(next, refs + [r]) && r.gen == Issues(refs, r.idx) % 4294967296
  {
    forall i: nat
      ensures Issues(refs + [r], i) == Issues(refs, i) + if r.idx == i then 1 else 0
    {
      IssuesNext(refs, r, i);
    }
    if r.idx < |gens| {
      NextGenCounts(Issues(refs, r.idx));
    }
    hide Issues, NextGen;
  }

  lemma AddCounts(t: State, user: string, refs: seq<RxRef>)
    requires SlotsSound(t) && GensCount(t.gens, refs)
    ensures var (s, r) := Added(t, user);
            GensCount(s.gens, refs + [r]) && r.gen == Issues(refs, r.idx) % 4294967296
  {
    var (s, r) := Added(t, user);
    AddedGens(t, user);
    hide SlotsSound, Added, NextGen, Issues;
    NextGens(t.gens, s.gens, refs, r);
  }

  lemma StepCounts(t: State, e: Event, refs: seq<RxRef>)
    requires Sound(t) && !e.Add? && GensCount(t.gens, refs)
    ensures GensCount(Apply(t, e).gens, refs)
  {
    hide Issues, Sound, WithoutSlot, Train;
  }

  lemma {:induction false} RunCounts(es: seq<Event>)
    ensures GensCount(After(es).gens, Issued(es))
    ensures forall j :: 0 <= j < |Issued(es)| ==>
              Issued(es)[j].gen == Issues(Issued(es)[..j], Issued(es)[j].idx) % 4294967296
    decreases |es|
  {
    if es != [] {
      var before, e := es[..|es| - 1], es[|es| - 1];
      RunCounts(before);
      var refs := Issued(before);
      if e.Add? {
        AddCounts(After(before), e.user, refs);
        var r := Added(After(before), e.user).1;
        hide GensCount, Issues, After;
        assert Issued(es) == refs + [r];
        forall j | 0 <= j < |Issued(es)|
          ensures Issued(es)[j].gen == Issues(Issued(es)[..j], Issued(es)[j].idx) % 4294967296
        {
          assert Issued(es)[..j] == refs[..j];
        }
      } else {
        StepCounts(After(before), e, refs);
        hide GensCount, Issues, Apply;
        assert Issued(es) == refs;
      }
    }
  }

  /**
   * At every reachable state a pair's key joins two different live slots and has its reverse beside it; the two models
   * summarise the same shared events seen from either side, each with its reject counter below 8.
   */
  lemma PairTableHolds(es: seq<Event>, a: nat, b: nat) returns (os: seq<Observation>)
    requires (a, b) in After(es).pairs
    ensures var t := After(es);
            && a != b && a < |t.alive| && b < |t.alive| && t.alive[a] && t.alive[b] && (b, a) in t.pairs
            && TrainedBy(t.pairs[(a, b)], t.pairs[(b, a)], os)
            && Summarises(t.pairs[(a, b)], RunOf(os).kept)
            && Summarises(t.pairs[(b, a)], RunOf(Mirror(os)).kept)
            && CounterInvariant(t.pairs[(a, b)])
  {
    var pairs := After(es).pairs;
    assert Mirrored(pairs, a, b);
    hide RunOf, Mirror, After, Summarises, CounterInvariant;
    os :| TrainedBy(pairs[(a, b)], pairs[(b, a)], os);
    RunKeepsBatchStatistics(os);
    RunKeepsBatchStatistics(Mirror(os));
  }

  lemma MirroredLine(os: seq<Observation>, alpha: real, beta: real)
    requires beta != 0.0 && forall i :: 0 <= i < |os| ==> OnLine(os[i], alpha, beta)
    ensures forall i :: 0 <= i < |os| ==> OnLine(Mirror(os)[i], -alpha / beta, 1.0 / beta)
  {
    forall i | 0 <= i < |os|
      ensures OnLine(Mirror(os)[i], -alpha / beta, 1.0 / beta)
    {
      Inverted(os[i].a, os[i].b, alpha, beta, -alpha / beta, 1.0 / beta);
    }
  }

  lemma Inverted(a: real, b: real, alpha: real, beta: real, offset: real, rate: real)
    requires beta != 0.0 && b == alpha + beta * a && offset == -alpha / beta && rate == 1.0 / beta
    ensures a == offset + rate * b
  {
    assert rate * beta == 1.0;
    assert offset == -alpha * rate;
    assert rate * (alpha + beta * a) == rate * alpha + rate * beta * a;
  }

  /** Between clocks in an exact linear relation, converting a reading to the other receiver and back returns it. */
  lemma ThereAndBack(m: Fit, reverse: Fit, os: seq<Observation>, alpha: real, beta: real, t: real)
    requires TrainedBy(m, reverse, os) && Usable(m) && Usable(reverse)
    requires beta != 0.0 && forall i :: 0 <= i < |os| ==> OnLine(os[i], alpha, beta)
    ensures Convert(m, t).Some? && Convert(reverse, Convert(m, t).value) == Some(t)
  {
    MirroredLine(os, alpha, beta);
    hide RunOf, Convert, Usable, OnLine;
    var u := alpha + beta * t;
    ExactLineConverts(os, alpha, beta, t);
    assert Convert(m, t) == Some(u);
    var offset, rate := -alpha / beta, 1.0 / beta;
    ExactLineConverts(Mirror(os), offset, rate, u);
    assert Convert(reverse, u) == Some(offset + rate * u);
    Inverted(t, u, alpha, beta, offset, rate);
  }

  // ---------------------------------------------------------------- which observations a pair has seen

  /** A live clock reset, and a live teardown, drop exactly the pairs of the slot; a stale one changes nothing. */
  lemma ResetForgetsPairs(t: State, r: RxRef, a: nat, b: nat)
    requires Sound(t)
    ensures var s, gone := ClockReset(t, r), Removed(t, r);
            if r.idx < |t.alive| && t.alive[r.idx] && t.gens[r.idx] == r.gen then
              && s.pairs == gone.pairs
              && ((a, b) in s.pairs <==> (a, b) in t.pairs && a != r.idx && b != r.idx)
              && ((a, b) in s.pairs ==> s.pairs[(a, b)] == t.pairs[(a, b)])
              && s.(pairs := t.pairs) == t
            else s == t && gone == t
  {
    hide PairsSound, SlotsSound;
  }

  /** A sync with these times shared with earlier reports of one slot: its even and its odd transmission, each time. */
  function SharedWith(reports: seq<Report>, rx: nat, te: real, to: real): seq<Observation> {
    if reports == [] then []
    else if reports[0].rx != rx then SharedWith(reports[1..], rx, te, to)
    else
      [Observation(te, reports[0].te), Observation(to, reports[0].to)] + SharedWith(reports[1..], rx, te, to)
  }

  /** What a report adds to the pair (a, b) when it meets these earlier reports: a's clock first. */
  function Met(alive: seq<bool>, r: Report, others: seq<Report>, a: nat, b: nat): seq<Observation> {
    if a == b || a >= |alive| || b >= |alive| || !alive[a] || !alive[b] then []
    else if r.rx == a then SharedWith(others, b, r.te, r.to)
    else if r.rx == b then Mirror(SharedWith(others, a, r.te, r.to))
    else []
  }

  /** How one event changes what the pair (a, b) has seen. */
  function SeenAfter(t: State, e: Event, a: nat, b: nat, seen: seq<Observation>): seq<Observation> {
    match e
    case Add(user) => if user in t.byUser && t.byUser[user] in {a, b} then [] else seen
    case Remove(r) => if Live(t, r) && r.idx in {a, b} then [] else seen
    case Reset(r) => if Live(t, r) && r.idx in {a, b} then [] else seen
    case Sync(r, key, te, to, now) =>
      var others := if key in t.syncpoints then t.syncpoints[key].reporters else [];
      if Live(t, r) && |others| < 15 then seen + Met(t.alive, Report(r.idx, te, to), others, a, b) else seen
    case SweepAt(_) => seen
  }

  /**
   * The shared observations of the pair (a, b) since either slot last changed hands or reset its clock: a sync of one
   * meets the reports of the other that came before it at the same sync point, as long as that has room.
   */
  ghost function PairLog(es: seq<Event>, a: nat, b: nat): seq<Observation> {
    if es == [] then []
    else
      var before := es[..|es| - 1];
      SeenAfter(After(before), es[|es| - 1], a, b, PairLog(before, a, b))
  }

  /** The pair is in the table if and only if it has seen something, and its model is trained by just that. */
  ghost predicate HasSeen(pairs: map<Pair, Fit>, a: nat, b: nat, os: seq<Observation>) {
    && ((a, b) in pairs <==> os != [])
    && ((a, b) in pairs ==> pairs[(a, b)] == RunOf(os).fit)
  }

  lemma PushingSees(pairs: map<Pair, Fit>, k: Pair, o: Observation, a: nat, b: nat, os: seq<Observation>)
    requires Weighable(pairs) && HasSeen(pairs, a, b, os)
    ensures k == (a, b) ==> HasSeen(Pushing(pairs, k, o), a, b, os + [o])
    ensures k != (a, b) ==> HasSeen(Pushing(pairs, k, o), a, b, os)
  {
    RunOfNext(os, o);
    assert RunOf([]).fit == DEFAULT_FIT;
    hide RunOf, Pushed;
  }

  lemma ObserveSees(pairs: map<Pair, Fit>, c: nat, d: nat, tc: real, td: real, a: nat, b: nat, os: seq<Observation>)
    requires Weighable(pairs) && HasSeen(pairs, a, b, os) && c != d
    ensures var next := Observe(pairs, c, d, tc, td);
            && ((c, d) == (a, b) ==> HasSeen(next, a, b, os + [Observation(tc, td)]))
            && ((d, c) == (a, b) ==> HasSeen(next, a, b, os + [Observation(td, tc)]))
            && ((c, d) != (a, b) && (d, c) != (a, b) ==> HasSeen(next, a, b, os))
  {
    hide HasSeen, Pushing, Weighable;
    PushingSees(pairs, (c, d), Observation(tc, td), a, b, os);
    var once := Pushing(pairs, (c, d), Observation(tc, td));
    if (c, d) == (a, b) {
      PushingSees(once, (d, c), Observation(td, tc), a, b, os + [Observation(tc, td)]);
    } else {
      PushingSees(once, (d, c), Observation(td, tc), a, b, os);
    }
  }

  lemma MetNext(alive: seq<bool>, r: Report, others: seq<Report>, a: nat, b: nat)
    requires others != [] && r.rx < |alive| && alive[r.rx]
    ensures var other := others[0];
            Met(alive, r, others, a, b)
            == (if !Counts(alive, r, other) then []
                else if (r.rx, other.rx) == (a, b) then [Observation(r.te, other.te), Observation(r.to, other.to)]
                else if (other.rx, r.rx) == (a, b) then [Observation(other.te, r.te), Observation(other.to, r.to)]
                else [])
               + Met(alive, r, others[1..], a, b)
  {
  }

  lemma {:induction false} TrainSees(pairs: map<Pair, Fit>, alive: seq<bool>, r: Report, others: seq<Report>,
                                     a: nat, b: nat, os: seq<Observation>)
    requires Weighable(pairs) && HasSeen(pairs, a, b, os) && r.rx < |alive| && alive[r.rx]
    ensures HasSeen(Train(pairs, alive, r, others), a, b, os + Met(alive, r, others, a, b))
    decreases |others|
  {
    hide HasSeen, Observe, Weighable;
    if others == [] {
      assert Met(alive, r, others, a, b) == [];
      assert os + [] == os;
    } else {
      MetNext(alive, r, others, a, b);
      var other, rest := others[0], Met(alive, r, others[1..], a, b);
      if Counts(alive, r, other) {
        var once := Observe(pairs, r.rx, other.rx, r.te, other.te);
        ObserveSees(pairs, r.rx, other.rx, r.te, other.te, a, b, os);
        if (r.rx, other.rx) == (a, b) {
          var o, p := Observation(r.te, other.te), Observation(r.to, other.to);
          ObserveSees(once, r.rx, other.rx, r.to, other.to, a, b, os + [o]);
          TrainSees(ObserveBoth(pairs, r, other), alive, r, others[1..], a, b, os + [o] + [p]);
          assert os + [o] + [p] + rest == os + ([o, p] + rest);
        } else if (other.rx, r.rx) == (a, b) {
          var o, p := Observation(other.te, r.te), Observation(other.to, r.to);
          ObserveSees(once, r.rx, other.rx, r.to, other.to, a, b, os + [o]);
          TrainSees(ObserveBoth(pairs, r, other), alive, r, others[1..], a, b, os + [o] + [p]);
          assert os + [o] + [p] + rest == os + ([o, p] + rest);
        } else {
          ObserveSees(once, r.rx, other.rx, r.to, other.to, a, b, os);
          TrainSees(ObserveBoth(pairs, r, other), alive, r, others[1..], a, b, os);
          assert [] + rest == rest;
        }
      } else {
        TrainSees(pairs, alive, r, others[1..], a, b, os);
        assert [] + rest == rest;
      }
    }
  }

  lemma WithoutSees(pairs: map<Pair, Fit>, rx: nat, a: nat, b: nat, os: seq<Observation>)
    requires HasSeen(pairs, a, b, os)
    ensures HasSeen(WithoutSlot(pairs, rx), a, b, if rx in {a, b} then [] else os)
  {
    hide RunOf;
  }

  lemma NothingSeen(a: nat, b: nat)
    ensures HasSeen(map[], a, b, [])
  {
  }

  lemma StepSees(t: State, e: Event, a: nat, b: nat, seen: seq<Observation>)
    requires Sound(t) && HasSeen(t.pairs, a, b, seen)
    ensures HasSeen(Apply(t, e).pairs, a, b, SeenAfter(t, e, a, b, seen))
  {
    hide HasSeen, Train, WithoutSlot, Met, PairsSound;
    match e
    case Add(user) =>
      if user in t.byUser {
        WithoutSees(t.pairs, t.byUser[user], a, b, seen);
        assert UsersAreLive(t);
      }
    case Remove(r) => WithoutSees(t.pairs, r.idx, a, b, seen);
    case Reset(r) => WithoutSees(t.pairs, r.idx, a, b, seen);
    case Sync(r, key, te, to, now) =>
      SoundIsWeighable(t.pairs, t.alive);
      if Live(t, r) {
        TrainSees(t.pairs, t.alive, Report(r.idx, te, to), PointAt(t, key, now).reporters, a, b, seen);
      }
    case SweepAt(_) =>
  }

  /**
   * Over every run each pair's model is trained by exactly the observations its two slots shared since one of them last
   * changed hands or reset its clock, in order; a pair that shared none is not in the table.
   */
  lemma {:induction false} PairsAreTheirLogs(es: seq<Event>, a: nat, b: nat)
    ensures HasSeen(After(es).pairs, a, b, PairLog(es, a, b))
    decreases |es|
  {
    hide HasSeen, Sound, RunOf;
    if es == [] {
      NothingSeen(a, b);
    } else {
      var before, e := es[..|es| - 1], es[|es| - 1];
      PairsAreTheirLogs(before, a, b);
      StepSees(After(before), e, a, b, PairLog(before, a, b));
      hide After, Apply;
    }
  }

  // ---------------------------------------------------------------- references

  lemma {:induction false} IssuesGrow(refs: seq<RxRef>, j: nat, k: nat, i: nat)
    requires j <= k <= |refs|
    ensures Issues(refs[..j], i) <= Issues(refs[..k], i)
    ensures j < k && refs[j].idx == i ==> Issues(refs[..j], i) < Issues(refs[..k], i)
    decreases k - j
  {
    if j < k {
      IssuesGrow(refs, j, k - 1, i);
      assert refs[..k] == refs[..k - 1] + [refs[k - 1]];
      IssuesNext(refs[..k - 1], refs[k - 1], i);
    }
  }

  lemma GenIsCount(es: seq<Event>, j: nat)
    requires j < |Issued(es)|
    ensures Issued(es)[j].gen == Issues(Issued(es)[..j], Issued(es)[j].idx) % 4294967296
  {
    RunCounts(es);
  }

  /** Two issues yield the same reference exactly when they are of one slot, a multiple of 2^32 issues apart. */
  lemma ReferencesRepeatIff(es: seq<Event>, j: nat, k: nat)
    requires j < k < |Issued(es)|
    ensures var refs := Issued(es);
            refs[j] == refs[k] <==>
              refs[j].idx == refs[k].idx
              && (Issues(refs[..k], refs[k].idx) - Issues(refs[..j], refs[k].idx)) % 4294967296 == 0
  {
    GenIsCount(es, j);
    GenIsCount(es, k);
    var refs := Issued(es);
    SameRemainder(Issues(refs[..j], refs[j].idx), Issues(refs[..k], refs[k].idx));
    hide *;
  }

  lemma SameRemainder(a: int, b: int)
    ensures a % 4294967296 == b % 4294967296 <==> (b - a) % 4294967296 == 0
  {
  }

  /** No reference is issued twice before its slot's counter wraps. */
  lemma NoReferenceTwice(es: seq<Event>, j: nat, k: nat)
    requires j < k < |Issued(es)| && Issues(Issued(es), Issued(es)[k].idx) <= 4294967296
    ensures Issued(es)[j] != Issued(es)[k]
  {
    hide *;
    var refs := Issued(es);
    var i := refs[k].idx;
    if refs[j].idx == i {
      GenIsCount(es, j);
      GenIsCount(es, k);
      assert refs[..|refs|] == refs;
      IssuesGrow(refs, j, k, i);
      IssuesGrow(refs, k, |refs|, i);
      NoWrapBelow(Issues(refs[..j], i), Issues(refs[..k], i));
    }
  }

  lemma NoWrapBelow(a: nat, b: nat)
    requires a < b < 4294967296
    ensures a % 4294967296 != b % 4294967296
  {
  }

  /** Only being issued again makes a dead reference live. */
  lemma OnlyIssueRevives(t: State, e: Event, r: RxRef)
    requires Sound(t) && !Live(t, r) && Live(Apply(t, e), r)
    ensures e.Add? && Added(t, e.user).1 == r
  {
    hide PairsSound, WithoutSlot, Train, PointsSound;
    if e.Add? {
      DisplacedFreesUser(t, e.user);
      hide SlotsSound;
    }
  }

  lemma DeadStep(es: seq<Event>, e: Event, r: RxRef)
    requires r in Issued(es) && !Live(After(es), r)
    requires Issues(Issued(es + [e]), r.idx) <= 4294967296
    ensures !Live(After(es + [e]), r) && r in Issued(es + [e])
  {
    assert (es + [e])[..|es|] == es;
    var refs := Issued(es);
    if Live(After(es + [e]), r) {
      OnlyIssueRevives(After(es), e, r);
      assert Issued(es + [e]) == refs + [r];
      var j :| 0 <= j < |refs| && refs[j] == r;
      NoReferenceTwice(es + [e], j, |refs|);
    }
  }

  lemma IssuesOnlyGrow(es: seq<Event>, e: Event, i: nat)
    ensures Issues(Issued(es), i) <= Issues(Issued(es + [e]), i)
  {
    assert (es + [e])[..|es|] == es;
    if e.Add? {
      IssuesNext(Issued(es), Added(After(es), e.user).1, i);
    } else {
      assert Issued(es) + [] == Issued(es);
    }
  }

  /** A reference once issued and dead stays dead through any later events, until its slot's counter wraps. */
  lemma {:induction false} DeadReferencesStayDead(es: seq<Event>, more: seq<Event>, r: RxRef)
    requires r in Issued(es) && !Live(After(es), r)
    requires Issues(Issued(es + more), r.idx) <= 4294967296
    ensures !Live(After(es + more), r) && r in Issued(es + more)
    decreases |more|
  {
    if more == [] {
      assert es + more == es;
    } else {
      var now, e := es + more[..|more| - 1], more[|more| - 1];
      assert es + more == now + [e];
      hide Issued, Issues, After, Live;
      IssuesOnlyGrow(now, e, r.idx);
      DeadReferencesStayDead(es, more[..|more| - 1], r);
      DeadStep(now, e, r);
    }
  }

  lemma OneReportTrained(t: State, ref: RxRef, key: SyncKey, other: Report, te: real, to: real, now: real)
    requires Weighable(t.pairs) && Live(t, ref) && Counts(t.alive, Report(ref.idx, te, to), other)
    requires key in t.syncpoints && t.syncpoints[key].reporters == [other]
    ensures OnSync(t, ref, key, te, to, now).pairs == ObserveBoth(t.pairs, Report(ref.idx, te, to), other)
  {
    hide ObserveBoth, Live, Weighable;
    var r := Report(ref.idx, te, to);
    assert [other][1..] == [];
    assert Train(t.pairs, t.alive, r, [other]) == Train(ObserveBoth(t.pairs, r, other), t.alive, r, []);
    assert PointAt(t, key, now).reporters == [other];
  }

  /**
   * Sync points hold slots without generations: a report outlives its receiver, and a receiver that takes the slot over
   * within the window is trained with the times its predecessor reported.
   */
  lemma ReusedSlotInheritsReports(t: State, a: RxRef, b: RxRef, user: string, key: SyncKey, x: real, y: real,
                                  te: real, to: real, now: real)
    requires Sound(t) && Live(t, a) && Live(t, b) && a.idx != b.idx
    requires user !in Removed(t, a).byUser
    requires key in t.syncpoints && t.syncpoints[key].reporters == [Report(a.idx, x, y)]
    ensures var (u, c) := Added(Removed(t, a), user);
            && c.idx == a.idx && Live(u, c) && Live(u, b) && Weighable(u.pairs)
            && OnSync(u, b, key, te, to, now).pairs == ObserveBoth(u.pairs, Report(b.idx, te, to), Report(c.idx, x, y))
            && (c.idx, b.idx) !in u.pairs
  {
    var s := Removed(t, a);
    RemovedKeepsSlots(t, a);
    var (u, c) := Added(s, user);
    assert Displaced(s, user) == s;
    assert s.free == t.free + [a.idx];
    SoundIsWeighable(t.pairs, t.alive);
    assert u.pairs == WithoutSlot(t.pairs, a.idx);
    hide PairsSound, SlotsSound, ObserveBoth, Removed, Added, OnSync;
    OneReportTrained(u, b, key, Report(c.idx, x, y), te, to, now);
  }

  // ---------------------------------------------------------------- whose times are trained

  /** The reference that made a report, and the number of the event that brought it. */
  datatype Made = Made(ref: RxRef, at: nat)

  function MadeAt(log: map<SyncKey, seq<Made>>, key: SyncKey): seq<Made> {
    if key in log then log[key] else []
  }

  /** Who made the reports of the sync points, in the order of their reporters. */
  ghost function Provenance(es: seq<Event>): map<SyncKey, seq<Made>> {
    if es == [] then map[]
    else
      var i := |es| - 1;
      var log := Provenance(es[..i]);
      match es[i]
      case Sync(r, key, _, _, _) =>
        if Live(After(es[..i]), r) then log[key := Logged(MadeAt(log, key), Made(r, i))] else log
      case SweepAt(_) => map k | k in log && k in After(es).syncpoints :: log[k]
      case _ => log
  }

  /** m tells the origin of a report: a sync event of a reference that was live, with its slot and times. */
  ghost predicate Explains(es: seq<Event>, key: SyncKey, m: Made, r: Report) {
    && m.at < |es| && es[m.at].Sync? && es[m.at].key == key && es[m.at].r == m.ref
    && Live(After(es[..m.at]), m.ref)
    && r == Report(m.ref.idx, es[m.at].te, es[m.at].to)
  }

  ghost predicate AllExplained(es: seq<Event>, key: SyncKey, log: seq<Made>, reporters: seq<Report>) {
    |log| == |reporters| && forall k :: 0 <= k < |log| ==> Explains(es, key, log[k], reporters[k])
  }

  ghost predicate LogMatches(es: seq<Event>, log: map<SyncKey, seq<Made>>, t: State) {
    log.Keys == t.syncpoints.Keys
    && forall key :: key in log ==> AllExplained(es, key, log[key], t.syncpoints[key].reporters)
  }

  lemma ExplainsLater(es: seq<Event>, e: Event, key: SyncKey, m: Made, r: Report)
    requires Explains(es, key, m, r)
    ensures Explains(es + [e], key, m, r)
  {
    assert (es + [e])[..m.at] == es[..m.at];
    hide After, Live;
  }

  lemma AllExplainedLater(es: seq<Event>, e: Event, key: SyncKey, log: seq<Made>, reporters: seq<Report>)
    requires AllExplained(es, key, log, reporters)
    ensures AllExplained(es + [e], key, log, reporters)
  {
    forall k | 0 <= k < |log|
      ensures Explains(es + [e], key, log[k], reporters[k])
    {
      ExplainsLater(es, e, key, log[k], reporters[k]);
    }
  }

  lemma QuietSteps(t: State, e: Event)
    requires Sound(t) && !e.Sync? && !e.SweepAt?
    ensures Apply(t, e).syncpoints == t.syncpoints
  {
    hide WithoutSlot;
  }

  lemma LogLater(es: seq<Event>, e: Event, log: map<SyncKey, seq<Made>>, t: State)
    requires LogMatches(es, log, t)
    ensures LogMatches(es + [e], log, t)
  {
    forall k | k in log
      ensures AllExplained(es + [e], k, log[k], t.syncpoints[k].reporters)
    {
      AllExplainedLater(es, e, k, log[k], t.syncpoints[k].reporters);
    }
    hide AllExplained;
  }

  lemma LogUpdate(es: seq<Event>, log: map<SyncKey, seq<Made>>, t: State, s: State, key: SyncKey, made: seq<Made>,
                  sp: SyncPoint)
    requires LogMatches(es, log, t) && AllExplained(es, key, made, sp.reporters)
    requires s.syncpoints == t.syncpoints[key := sp]
    ensures LogMatches(es, log[key := made], s)
  {
    hide AllExplained;
  }

  lemma ReportIsExplained(es: seq<Event>, e: Event)
    requires e.Sync? && Live(After(es), e.r)
    ensures Explains(es + [e], e.key, Made(e.r, |es|), Report(e.r.idx, e.te, e.to))
  {
    hide After, Live, Sound;
    assert (es + [e])[..|es|] == es;
    assert (es + [e])[|es|] == e;
  }

  /** The entry a live reference's sync leaves for its key. */
  function Logged(made: seq<Made>, m: Made): seq<Made> {
    if |made| >= 15 then made else made + [m]
  }

  function Joined15(sp: SyncPoint, r: Report): SyncPoint {
    if |sp.reporters| >= 15 then sp else sp.(reporters := sp.reporters + [r])
  }

  lemma LoggedIsExplained(es: seq<Event>, key: SyncKey, made: seq<Made>, sp: SyncPoint, m: Made, r: Report)
    requires AllExplained(es, key, made, sp.reporters) && Explains(es, key, m, r)
    ensures AllExplained(es, key, Logged(made, m), Joined15(sp, r).reporters)
  {
    hide Explains;
  }

  lemma PointAfterSync(t: State, e: Event)
    requires Sound(t) && e.Sync? && Live(t, e.r)
    ensures Apply(t, e).syncpoints
         == t.syncpoints[e.key := Joined15(PointAt(t, e.key, e.now), Report(e.r.idx, e.te, e.to))]
  {
    hide Train, Sound, Live;
  }

  lemma LogOfPoint(es: seq<Event>, log: map<SyncKey, seq<Made>>, t: State, key: SyncKey, now: real)
    requires LogMatches(es, log, t)
    ensures AllExplained(es, key, MadeAt(log, key), PointAt(t, key, now).reporters)
  {
    hide Explains;
  }

  lemma SyncLog(es: seq<Event>, e: Event, log: map<SyncKey, seq<Made>>)
    requires e.Sync? && LogMatches(es, log, After(es)) && Live(After(es), e.r)
    ensures LogMatches(es + [e], log[e.key := Logged(MadeAt(log, e.key), Made(e.r, |es|))], Apply(After(es), e))
  {
    hide *;
    var t := After(es);
    var made, sp := MadeAt(log, e.key), PointAt(t, e.key, e.now);
    var m, r := Made(e.r, |es|), Report(e.r.idx, e.te, e.to);
    LogLater(es, e, log, t);
    LogOfPoint(es + [e], log, t, e.key, e.now);
    PointAfterSync(t, e);
    ReportIsExplained(es, e);
    LoggedIsExplained(es + [e], e.key, made, sp, m, r);
    LogUpdate(es + [e], log, t, Apply(t, e), e.key, Logged(made, m), Joined15(sp, r));
  }

  lemma DeadSync(t: State, e: Event)
    requires Sound(t) && e.Sync? && !Live(t, e.r)
    ensures Apply(t, e) == t
  {
  }

  /** At every reachable state the log explains every report there is. */
  lemma {:induction false} ReportsAreExplained(es: seq<Event>)
    ensures LogMatches(es, Provenance(es), After(es))
    decreases |es|
  {
    if es != [] {
      var before, e := es[..|es| - 1], es[|es| - 1];
      assert es == before + [e];
      ReportsAreExplained(before);
      var log, t := Provenance(before), After(before);
      LogLater(before, e, log, t);
      match e
      case Sync(r, _, _, _, _) =>
        if Live(t, r) {
          SyncLog(before, e, log);
        } else {
          DeadSync(t, e);
        }
        hide LogMatches, Apply, Live;
      case SweepAt(_) => hide AllExplained;
      case _ => QuietSteps(t, e); hide AllExplained, Apply;
    }
  }

  /** No receiver was given the slot by an event numbered from a on. */
  ghost predicate NotIssuedSince(es: seq<Event>, a: nat, slot: nat) {
    forall j :: a <= j < |es| && es[j].Add? ==> Added(After(es[..j]), es[j].user).1.idx != slot
  }

  lemma NotIssuedNext(es: seq<Event>, e: Event, a: nat, slot: nat)
    requires a <= |es|
    ensures NotIssuedSince(es + [e], a, slot) <==>
              NotIssuedSince(es, a, slot) && (e.Add? ==> Added(After(es), e.user).1.idx != slot)
  {
    hide After, Sound, Added;
    var more := es + [e];
    assert more[..|es|] == es && more[|es|] == e;
    assert forall j :: 0 <= j < |es| ==> more[..j] == es[..j] && more[j] == es[j];
  }

  lemma IssuedNext(es: seq<Event>, e: Event)
    ensures Issued(es + [e]) == Issued(es) + if e.Add? then [Added(After(es), e.user).1] else []
  {
    assert (es + [e])[..|es|] == es;
  }

  lemma {:induction false} IssuesCountAdds(es: seq<Event>, a: nat, slot: nat)
    requires a <= |es|
    ensures Issues(Issued(es), slot) >= Issues(Issued(es[..a]), slot)
    ensures Issues(Issued(es), slot) == Issues(Issued(es[..a]), slot) <==> NotIssuedSince(es, a, slot)
    decreases |es|
  {
    if a == |es| {
      assert es[..a] == es;
    } else {
      hide NotIssuedSince, Issued, After, Sound, Added, Issues;
      var before, e := es[..|es| - 1], es[|es| - 1];
      assert es == before + [e] && es[..a] == before[..a];
      IssuesCountAdds(before, a, slot);
      NotIssuedNext(before, e, a, slot);
      IssuedNext(before, e);
      if e.Add? {
        IssuesNext(Issued(before), Added(After(before), e.user).1, slot);
      } else {
        assert Issued(before) + [] == Issued(before);
      }
    }
  }

  lemma SlotGen(es: seq<Event>, slot: nat)
    ensures var t := After(es);
            && |t.gens| == |t.alive| && (slot < |t.gens| <==> Issues(Issued(es), slot) >= 1)
            && (slot < |t.gens| ==> t.gens[slot] == (Issues(Issued(es), slot) - 1) % 4294967296)
  {
    RunCounts(es);
    hide Issued, Issues, After;
  }

  lemma SameGen(a: nat, b: nat)
    requires 1 <= a <= b
    ensures (a - 1) % 4294967296 == (b - 1) % 4294967296 <==> (b - a) % 4294967296 == 0
    ensures b <= 4294967296 ==> ((b - a) % 4294967296 == 0 <==> a == b)
  {
    SameRemainder(a - 1, b - 1);
  }

  /** A reference live at event a is live now if and only if its slot is, a multiple of 2^32 issues later. */
  lemma StillLiveIff(es: seq<Event>, a: nat, r: RxRef)
    requires a <= |es| && Live(After(es[..a]), r)
    ensures r.idx < |After(es).alive|
    ensures Live(After(es), r) <==>
              && After(es).alive[r.idx]
              && (Issues(Issued(es), r.idx) - Issues(Issued(es[..a]), r.idx)) % 4294967296 == 0
    ensures Issues(Issued(es), r.idx) <= 4294967296 ==>
              (Live(After(es), r) <==> After(es).alive[r.idx] && NotIssuedSince(es, a, r.idx))
  {
    hide After, Sound, Issued, Issues, NotIssuedSince;
    SlotGen(es, r.idx);
    SlotGen(es[..a], r.idx);
    IssuesCountAdds(es, a, r.idx);
    SameGen(Issues(Issued(es[..a]), r.idx), Issues(Issued(es), r.idx));
  }

  /**
   * Over every run, a report that a sync event trains against was made by the reference now live on its slot if and
   * only if no receiver was given that slot since the report (below 2^32 issues of the slot; beyond, if and only if the
   * number of issues since is a multiple of 2^32).
   */
  lemma ReportsAreTheHoldersIff(es: seq<Event>, e: Event, k: nat)
    requires e.Sync? && e.key in After(es).syncpoints && k < |After(es).syncpoints[e.key].reporters|
    requires Counts(After(es).alive, Report(e.r.idx, e.te, e.to), After(es).syncpoints[e.key].reporters[k])
    ensures e.key in Provenance(es) && k < |Provenance(es)[e.key]|
    ensures var m, r := Provenance(es)[e.key][k], After(es).syncpoints[e.key].reporters[k];
            && Explains(es, e.key, m, r)
            && (Live(After(es), m.ref) <==>
                  (Issues(Issued(es), r.rx) - Issues(Issued(es[..m.at]), r.rx)) % 4294967296 == 0)
            && (Issues(Issued(es), r.rx) <= 4294967296 ==>
                  (Live(After(es), m.ref) <==> NotIssuedSince(es, m.at, r.rx)))
  {
    hide After, Sound, Issued, Issues, NotIssuedSince, Live, Provenance;
    ReportsAreExplained(es);
    var m, r := Provenance(es)[e.key][k], After(es).syncpoints[e.key].reporters[k];
    assert Explains(es, e.key, m, r);
    StillLiveIff(es, m.at, m.ref);
  }

  // ---------------------------------------------------------------- a run that trains with a predecessor's times

  const OLD_HOLDER: RxRef := RxRef(0, 0)
  const NEW_HOLDER: RxRef := RxRef(0, 1)
  const NEIGHBOUR: RxRef := RxRef(1, 0)

  /** One receiver reports an event and leaves; another takes its slot before a third reports the same event. */
  function Takeover(key: SyncKey, x: real, y: real, now: real): seq<Event> {
    [Add("a"), Add("b"), Sync(OLD_HOLDER, key, x, y, now), Remove(OLD_HOLDER), Add("c")]
  }

  function TwoReceivers(): State {
    State(["a", "b"], [0, 0], [true, true], [], map["a" := 0, "b" := 1], map[], map[], 0)
  }

  function Reported(key: SyncKey, x: real, y: real, now: real): State {
    TwoReceivers().(syncpoints := map[key := SyncPoint(now, [Report(0, x, y)])])
  }

  function TakenOver(key: SyncKey, x: real, y: real, now: real): State {
    Reported(key, x, y, now).(users := ["c", "b"], gens := [1, 0], byUser := map["b" := 1, "c" := 0])
  }

  lemma AfterNext(es: seq<Event>, e: Event)
    ensures After(es + [e]) == Apply(After(es), e)
  {
    assert (es + [e])[..|es|] == es;
  }

  function OneReceiver(): State {
    State(["a"], [0], [true], [], map["a" := 0], map[], map[], 0)
  }

  lemma FirstAdds()
    ensures Shaped(OneReceiver())
    ensures Added(EMPTY, "a").0 == OneReceiver() && Added(OneReceiver(), "b").0 == TwoReceivers()
  {
  }

  lemma NothingYet()
    ensures After([]) == EMPTY
  {
    hide Sound;
  }

  lemma AfterAdd(es: seq<Event>, user: string)
    ensures After(es + [Add(user)]) == Added(After(es), user).0
  {
    hide Sound, After, Added;
    AfterNext(es, Add(user));
  }

  lemma FirstTwo()
    ensures After([Add("a"), Add("b")]) == TwoReceivers()
  {
    assert [] + [Add("a")] == [Add("a")] && [Add("a")] + [Add("b")] == [Add("a"), Add("b")];
    hide *;
    FirstAdds();
    NothingYet();
    AfterAdd([], "a");
    AfterAdd([Add("a")], "b");
  }

  lemma FirstReport(key: SyncKey, x: real, y: real, now: real)
    ensures OnSync(TwoReceivers(), OLD_HOLDER, key, x, y, now) == Reported(key, x, y, now)
  {
    var t, r := TwoReceivers(), Report(0, x, y);
    assert PointAt(t, key, now) == SyncPoint(now, []);
    assert Train(map[], t.alive, r, []) == map[] && Observations(t.alive, r, []) == 0;
    assert [] + [r] == [r];
    assert t.syncpoints[key := SyncPoint(now, [r])] == map[key := SyncPoint(now, [r])];
  }

  /** Between the two holders the slot is free. */
  function Vacated(key: SyncKey, x: real, y: real, now: real): State {
    Reported(key, x, y, now).(alive := [false, true], byUser := map["b" := 1], free := [0])
  }

  lemma HolderLeaves(key: SyncKey, x: real, y: real, now: real)
    ensures Shaped(Reported(key, x, y, now))
    ensures Removed(Reported(key, x, y, now), OLD_HOLDER) == Vacated(key, x, y, now)
  {
    var t := Reported(key, x, y, now);
    assert WithoutSlot(t.pairs, 0) == map[];
    assert t.byUser - {"a"} == map["b" := 1];
    hide WithoutSlot;
  }

  lemma NewHolderComes(key: SyncKey, x: real, y: real, now: real)
    ensures Shaped(Vacated(key, x, y, now))
    ensures Added(Vacated(key, x, y, now), "c") == (TakenOver(key, x, y, now), NEW_HOLDER)
  {
    var t := Vacated(key, x, y, now);
    assert Displaced(t, "c") == t && NextSlot(t) == 0;
    var s := Placed(t, "c");
    assert s.users == ["c", "b"] && s.gens == [1, 0] && s.alive == [true, true] && s.free == [];
    assert s.byUser == map["b" := 1, "c" := 0];
    hide Removed;
  }

  lemma AfterReport(key: SyncKey, x: real, y: real, now: real)
    ensures After([Add("a"), Add("b")] + [Sync(OLD_HOLDER, key, x, y, now)]) == Reported(key, x, y, now)
  {
    FirstTwo();
    FirstReport(key, x, y, now);
    AfterNext([Add("a"), Add("b")], Sync(OLD_HOLDER, key, x, y, now));
    hide After, Sound, OnSync, Reported, TwoReceivers;
  }

  lemma AfterLeaving(es: seq<Event>, key: SyncKey, x: real, y: real, now: real)
    requires After(es) == Reported(key, x, y, now)
    ensures After(es + [Remove(OLD_HOLDER)]) == Vacated(key, x, y, now)
  {
    HolderLeaves(key, x, y, now);
    AfterNext(es, Remove(OLD_HOLDER));
    hide After, Sound, Removed, Reported, Vacated;
  }

  lemma AfterComing(es: seq<Event>, key: SyncKey, x: real, y: real, now: real)
    requires After(es) == Vacated(key, x, y, now)
    ensures After(es + [Add("c")]) == TakenOver(key, x, y, now)
  {
    NewHolderComes(key, x, y, now);
    AfterNext(es, Add("c"));
    hide After, Sound, Added, TakenOver, Vacated;
  }

  lemma AfterTakeover(key: SyncKey, x: real, y: real, now: real)
    ensures var es := Takeover(key, x, y, now);
            && After(es) == TakenOver(key, x, y, now)
            && After(es[..4]) == Vacated(key, x, y, now) && Shaped(After(es[..4]))
  {
    var es := Takeover(key, x, y, now);
    var three := [Add("a"), Add("b")] + [Sync(OLD_HOLDER, key, x, y, now)];
    assert es[..4] == three + [Remove(OLD_HOLDER)] && es == es[..4] + [Add("c")];
    hide *;
    AfterReport(key, x, y, now);
    AfterLeaving(three, key, x, y, now);
    AfterComing(es[..4], key, x, y, now);
    NewHolderComes(key, x, y, now);
  }

  /**
   * The condition does fail on a run: the neighbour's pair with the new holder's slot is trained, from nothing, with
   * the times the old holder reported.
   */
  lemma TakeoverTrainsOldTimes(key: SyncKey, x: real, y: real, now: real, te: real, to: real, later: real)
    ensures var es, e := Takeover(key, x, y, now), Sync(NEIGHBOUR, key, te, to, later);
            && Live(After(es), NEW_HOLDER) && !Live(After(es), OLD_HOLDER) && Live(After(es), NEIGHBOUR)
            && key in Provenance(es) && Provenance(es)[key] == [Made(OLD_HOLDER, 2)] && !NotIssuedSince(es, 2, 0)
            && Weighable(map[])
            && After(es + [e]).pairs == ObserveBoth(map[], Report(1, te, to), Report(0, x, y))
  {
    var es, e := Takeover(key, x, y, now), Sync(NEIGHBOUR, key, te, to, later);
    AfterTakeover(key, x, y, now);
    hide *;
    TakenOverFacts(key, x, y, now);
    LastReport(es, key, x, y, te, to, later);
    TakeoverLog(key, x, y, now);
    TakeoverIssues(key, x, y, now);
  }

  lemma LastReport(es: seq<Event>, key: SyncKey, x: real, y: real, te: real, to: real, later: real)
    requires var t := After(es);
             && t.pairs == map[] && t.alive == [true, true] && Live(t, NEIGHBOUR)
             && key in t.syncpoints && t.syncpoints[key].reporters == [Report(0, x, y)]
    ensures Weighable(map[])
    ensures After(es + [Sync(NEIGHBOUR, key, te, to, later)]).pairs
         == ObserveBoth(map[], Report(1, te, to), Report(0, x, y))
  {
    hide After, Sound, Live, ObserveBoth, OnSync, Weighable;
    var e := Sync(NEIGHBOUR, key, te, to, later);
    ApplySync(After(es), e);
    LateReport(After(es), key, x, y, te, to, later);
    AfterNext(es, e);
    hide Apply;
  }

  lemma ApplySync(t: State, e: Event)
    requires Sound(t) && e.Sync?
    ensures Weighable(t.pairs) && Apply(t, e) == OnSync(t, e.r, e.key, e.te, e.to, e.now)
  {
    SoundIsWeighable(t.pairs, t.alive);
    hide Sound, OnSync;
  }

  lemma TakenOverFacts(key: SyncKey, x: real, y: real, now: real)
    ensures var t := TakenOver(key, x, y, now);
            && Live(t, NEW_HOLDER) && !Live(t, OLD_HOLDER) && Live(t, NEIGHBOUR)
            && t.pairs == map[] && t.alive == [true, true]
            && t.syncpoints == map[key := SyncPoint(now, [Report(0, x, y)])]
  {
  }

  lemma TakeoverLog(key: SyncKey, x: real, y: real, now: real)
    ensures key in Provenance(Takeover(key, x, y, now))
    ensures Provenance(Takeover(key, x, y, now))[key] == [Made(OLD_HOLDER, 2)]
  {
    var es := Takeover(key, x, y, now);
    AfterTakeover(key, x, y, now);
    TakenOverFacts(key, x, y, now);
    hide After, Sound, Provenance, Live, TakenOver;
    ReportsAreExplained(es);
    assert AllExplained(es, key, Provenance(es)[key], [Report(0, x, y)]);
    assert Explains(es, key, Provenance(es)[key][0], Report(0, x, y));
  }

  lemma TakeoverIssues(key: SyncKey, x: real, y: real, now: real)
    ensures !NotIssuedSince(Takeover(key, x, y, now), 2, 0)
  {
    var es := Takeover(key, x, y, now);
    AfterTakeover(key, x, y, now);
    NewHolderComes(key, x, y, now);
    hide After, Sound, Added, Vacated, TakenOver;
    assert es[4] == Add("c");
  }

  lemma LateReport(t: State, key: SyncKey, x: real, y: real, te: real, to: real, later: real)
    requires t.pairs == map[] && t.alive == [true, true] && Live(t, NEIGHBOUR)
    requires key in t.syncpoints && t.syncpoints[key].reporters == [Report(0, x, y)]
    ensures Weighable(map[])
    ensures OnSync(t, NEIGHBOUR, key, te, to, later).pairs == ObserveBoth(map[], Report(1, te, to), Report(0, x, y))
  {
    OneReportTrained(t, NEIGHBOUR, key, Report(0, x, y), te, to, later);
  }


  // ---------------------------------------------------------------- how many slots

  function LiveSlots(alive: seq<bool>): set<nat> {
    set i | 0 <= i < |alive| && alive[i]
  }

  /** The most receivers live at once so far. */
  ghost function Peak(es: seq<Event>): nat {
    var now := |LiveSlots(After(es).alive)|;
    if es == [] then now
    else
      var before := Peak(es[..|es| - 1]);
      if now > before then now else before
  }

  lemma StepSlots(t: State, e: Event)
    requires Sound(t)
    ensures var s := Apply(t, e);
            && |t.alive| <= |s.alive|
            && (|s.alive| > |t.alive| ==> forall i :: 0 <= i < |s.alive| ==> s.alive[i])
  {
    hide PairsSound, WithoutSlot, Train, PointsSound;
    if e.Add? {
      DisplacedFreesUser(t, e.user);
      hide Displaced;
    }
  }

  /** Slots are only ever added to hold more receivers at once than ever before. */
  lemma {:induction false} SlotsArePeak(es: seq<Event>)
    ensures |After(es).alive| == Peak(es)
    decreases |es|
  {
    var t := After(es);
    SubsetSize(LiveSlots(t.alive), Below(|t.alive|));
    if es == [] {
      assert LiveSlots(t.alive) == {};
    } else {
      var before := After(es[..|es| - 1]);
      SlotsArePeak(es[..|es| - 1]);
      StepSlots(before, es[|es| - 1]);
      hide Apply, Sound;
      if |t.alive| > |before.alive| {
        assert LiveSlots(t.alive) == Below(|t.alive|);
      }
    }
  }

  /** A sweep drops exactly the sync points created 4 s ago or longer, and changes nothing else. */
  lemma SweepDropsTheOld(t: State, now: real, key: SyncKey)
    ensures var s := Swept(t, now);
            && (key in s.syncpoints <==> key in t.syncpoints && now < t.syncpoints[key].created + 4.0)
            && (key in s.syncpoints ==> s.syncpoints[key] == t.syncpoints[key])
            && s.(syncpoints := t.syncpoints) == t
  {
  }

  // ---------------------------------------------------------------- how much one sync point trains

  /** The earlier reports, by position, of other receivers that are still there. */
  function Meetings(alive: seq<bool>, r: Report, others: seq<Report>): set<nat> {
    set k: nat | k < |others| && others[k].rx != r.rx && others[k].rx < |alive| && alive[others[k].rx]
  }

  /** Two observations are counted for each report met, one for the even and one for the odd transmission. */
  lemma {:induction false} TwoForEachMeeting(alive: seq<bool>, r: Report, others: seq<Report>)
    ensures Observations(alive, r, others) == 2 * |Meetings(alive, r, others)|
    decreases |others|
  {
    if others == [] {
      assert Meetings(alive, r, others) == {};
    } else {
      var last, front := |others| - 1, others[..|others| - 1];
      TwoForEachMeeting(alive, r, front);
      ObservationsAppend(alive, r, front, others[last]);
      assert front + [others[last]] == others;
      if others[last].rx != r.rx && others[last].rx < |alive| && alive[others[last].rx] {
        assert Meetings(alive, r, others) == Meetings(alive, r, front) + {last};
      } else {
        assert Meetings(alive, r, others) == Meetings(alive, r, front);
      }
    }
  }

  lemma {:induction false} ObservationsAppend(alive: seq<bool>, r: Report, others: seq<Report>, last: Report)
    ensures Observations(alive, r, others + [last])
         == Observations(alive, r, others) + if Counts(alive, r, last) then 2 else 0
    decreases |others|
  {
    if others == [] {
      assert [] + [last] == [last];
    } else {
      assert (others + [last])[1..] == others[1..] + [last];
      ObservationsAppend(alive, r, others[1..], last);
    }
  }

  lemma {:induction false} ObservationsBound(alive: seq<bool>, r: Report, others: seq<Report>)
    ensures Observations(alive, r, others) <= 2 * |others|
    decreases |others|
  {
    if others != [] {
      ObservationsBound(alive, r, others[1..]);
    }
  }

  function ReportersOf(t: State, key: SyncKey): nat {
    if key in t.syncpoints then |t.syncpoints[key].reporters| else 0
  }

  /** The observations counted for one key over a run. */
  ghost function CountedFor(t: State, es: seq<Event>, key: SyncKey): nat
    requires Sound(t)
    decreases |es|
  {
    if es == [] then 0
    else
      StepKeeps(t, es[0]);
      var s := Apply(t, es[0]);
      (if es[0].Sync? && es[0].key == key && s.observed >= t.observed then s.observed - t.observed else 0)
      + CountedFor(s, es[1..], key)
  }

  /** No sweep of the run drops the key's sync point. */
  ghost predicate Survives(t: State, es: seq<Event>, key: SyncKey)
    requires Sound(t)
    decreases |es|
  {
    if es == [] then true
    else
      StepKeeps(t, es[0]);
      (key in t.syncpoints ==> key in Apply(t, es[0]).syncpoints)
      && Survives(Apply(t, es[0]), es[1..], key)
  }

  lemma StepObserves(t: State, e: Event, key: SyncKey)
    requires Sound(t) && (key in t.syncpoints ==> key in Apply(t, e).syncpoints)
    ensures var s := Apply(t, e);
            && s.observed >= t.observed
            && ReportersOf(s, key) >= ReportersOf(t, key)
            && (e.Sync? && e.key == key && s.observed > t.observed ==>
                  s.observed <= t.observed + 2 * ReportersOf(t, key) && ReportersOf(s, key) == ReportersOf(t, key) + 1)
  {
    hide PairsSound, SlotsSound, Train, WithoutSlot;
    if e.Sync? {
      ObservationsBound(t.alive, Report(e.r.idx, e.te, e.to), PointAt(t, e.key, e.now).reporters);
    }
  }

  /** What n reporters can have counted: two observations for every two of them. */
  function Ordered(n: nat): int {
    n * (n - 1)
  }

  lemma OrderedGrows(n: nat, m: nat)
    requires n <= m
    ensures Ordered(n) <= Ordered(m)
    ensures m == n + 1 ==> Ordered(m) == Ordered(n) + 2 * n
  {
    assert m * (m - 1) - n * (n - 1) == (m - n) * (m + n - 1);
  }

  lemma {:induction false} OrderedBounds(t: State, es: seq<Event>, key: SyncKey)
    requires Sound(t) && Survives(t, es, key)
    ensures ReportersOf(t, key) <= 15
    ensures CountedFor(t, es, key) + Ordered(ReportersOf(t, key)) <= Ordered(15)
    decreases |es|
  {
    var n := ReportersOf(t, key);
    assert n <= 15;
    if es == [] {
      OrderedGrows(n, 15);
    } else {
      StepKeeps(t, es[0]);
      StepObserves(t, es[0], key);
      var s := Apply(t, es[0]);
      hide Apply, Sound, Ordered, ReportersOf;
      OrderedBounds(s, es[1..], key);
      OrderedGrows(n, ReportersOf(s, key));
    }
  }

  /** From its creation to its expiry a sync point has at most 15 reporters and counts at most 210 observations. */
  lemma SyncPointsTrainLittle(t: State, es: seq<Event>, key: SyncKey)
    requires Sound(t) && key !in t.syncpoints && Survives(t, es, key)
    ensures CountedFor(t, es, key) <= 210
  {
    OrderedBounds(t, es, key);
    assert ReportersOf(t, key) == 0;
    hide Sound, Survives, CountedFor;
  }
}
