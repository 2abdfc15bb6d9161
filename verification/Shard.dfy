/** One shard's receivers, pair models and sync points (crates/mlatd/src/state.rs). */
module Shard {
  import opened Common
  import opened ClockSync
  import opened ClockSyncTheorems

  /** A slot and the generation it was issued with. */
  datatype RxRef = RxRef(idx: nat, gen: nat)

  /** The frames of a sync message, in the text they arrive in. */
  datatype SyncKey = SyncKey(em: string, om: string)

  /** A slot and the two transmit times, corrected for propagation, on that receiver's clock. */
  datatype Report = Report(rx: nat, te: real, to: real)

  datatype SyncPoint = SyncPoint(created: real, reporters: seq<Report>)

  type Pair = (nat, nat)

  datatype State = State(users: seq<string>, gens: seq<nat>, alive: seq<bool>, free: seq<nat>, byUser: map<string, nat>,
                         pairs: map<Pair, Fit>, syncpoints: map<SyncKey, SyncPoint>, observed: nat)

  const EMPTY: State := State([], [], [], [], map[], map[], map[], 0)

  // ---------------------------------------------------------------- receivers

  predicate Shaped(t: State) {
    && |t.users| == |t.gens| == |t.alive|
    && (forall i :: 0 <= i < |t.free| ==> t.free[i] < |t.alive|)
    && (forall u :: u in t.byUser ==> t.byUser[u] < |t.alive|)
  }

  predicate Live(t: State, r: RxRef) {
    r.idx < |t.alive| == |t.gens| && t.alive[r.idx] && t.gens[r.idx] == r.gen
  }

  function WithoutSlot(pairs: map<Pair, Fit>, rx: nat): map<Pair, Fit> {
    map k | k in pairs && k.0 != rx && k.1 != rx :: pairs[k]
  }

  function Removed(t: State, r: RxRef): (s: State)
    requires Shaped(t)
    ensures Shaped(s) && |s.alive| == |t.alive|
  {
    if !Live(t, r) then t
    else
      var user := t.users[r.idx];
      t.(alive := t.alive[r.idx := false],
         pairs := WithoutSlot(t.pairs, r.idx),
         byUser := if user in t.byUser && t.byUser[user] == r.idx then t.byUser - {user} else t.byUser,
         free := t.free + [r.idx])
  }

  /** The generations are 32 bits wide and wrap. */
  function NextGen(g: nat): nat {
    (g + 1) % 4294967296
  }

  /** The table without the user's previous connection. */
  function Displaced(t: State, user: string): (s: State)
    requires Shaped(t)
    ensures Shaped(s)
  {
    if user in t.byUser then Removed(t, RxRef(t.byUser[user], t.gens[t.byUser[user]])) else t
  }

  /** The slot the next receiver gets. */
  function NextSlot(t: State): nat {
    if t.free != [] then t.free[|t.free| - 1] else |t.alive|
  }

  function Placed(t: State, user: string): (s: State)
    requires Shaped(t)
    ensures Shaped(s) && NextSlot(t) < |s.alive|
  {
    var i := NextSlot(t);
    var bound := t.byUser[user := i];
    if t.free != [] then
      t.(users := t.users[i := user], gens := t.gens[i := NextGen(t.gens[i])], alive := t.alive[i := true],
         free := t.free[..|t.free| - 1], byUser := bound)
    else t.(users := t.users + [user], gens := t.gens + [0], alive := t.alive + [true], byUser := bound)
  }

  function Added(t: State, user: string): (State, RxRef)
    requires Shaped(t)
  {
    var s := Placed(Displaced(t, user), user);
    var i := NextSlot(Displaced(t, user));
    (s, RxRef(i, s.gens[i]))
  }

  function ClockReset(t: State, r: RxRef): State {
    if Live(t, r) then t.(pairs := WithoutSlot(t.pairs, r.idx)) else t
  }

  // ---------------------------------------------------------------- sync observations

  predicate Weighable(pairs: map<Pair, Fit>) {
    forall k :: k in pairs ==> pairs[k].w >= 0.0
  }

  function Model(pairs: map<Pair, Fit>, k: Pair): (m: Fit)
    requires Weighable(pairs)
    ensures m.w >= 0.0
  {
    if k in pairs then pairs[k] else DEFAULT_FIT
  }

  function Pushing(pairs: map<Pair, Fit>, k: Pair, o: Observation): (next: map<Pair, Fit>)
    requires Weighable(pairs)
    ensures Weighable(next)
  {
    PushedWeight(Model(pairs, k), o);
    pairs[k := Pushed(Model(pairs, k), o)]
  }

  lemma PushedWeight(m: Fit, o: Observation)
    requires m.w >= 0.0
    ensures Pushed(m, o).w >= 0.0
  {
    hide OutOfGate, Usable, Tracked, Moved, Joined;
  }

  /** One shared event trains both directions of a pair. */
  function Observe(pairs: map<Pair, Fit>, a: nat, b: nat, ta: real, tb: real): (next: map<Pair, Fit>)
    requires Weighable(pairs)
    ensures Weighable(next)
  {
    Pushing(Pushing(pairs, (a, b), Observation(ta, tb)), (b, a), Observation(tb, ta))
  }

  /** The even and the odd transmission, against one earlier reporter. */
  function ObserveBoth(pairs: map<Pair, Fit>, r: Report, other: Report): (next: map<Pair, Fit>)
    requires Weighable(pairs)
    ensures Weighable(next)
  {
    Observe(Observe(pairs, r.rx, other.rx, r.te, other.te), r.rx, other.rx, r.to, other.to)
  }

  predicate Counts(alive: seq<bool>, r: Report, other: Report) {
    other.rx != r.rx && other.rx < |alive| && alive[other.rx]
  }

  function Train(pairs: map<Pair, Fit>, alive: seq<bool>, r: Report, others: seq<Report>): (next: map<Pair, Fit>)
    requires Weighable(pairs)
    ensures Weighable(next)
    decreases |others|
  {
    if others == [] then pairs
    else Train(if Counts(alive, r, others[0]) then ObserveBoth(pairs, r, others[0]) else pairs, alive, r, others[1..])
  }

  function Observations(alive: seq<bool>, r: Report, others: seq<Report>): nat
    decreases |others|
  {
    if others == [] then 0
    else (if Counts(alive, r, others[0]) then 2 else 0) + Observations(alive, r, others[1..])
  }

  function PointAt(t: State, key: SyncKey, now: real): SyncPoint {
    if key in t.syncpoints then t.syncpoints[key] else SyncPoint(now, [])
  }

  /** A sync message whose frames decode, from a receiver with its corrected times; at most 15 reporters train. */
  function OnSync(t: State, ref: RxRef, key: SyncKey, te: real, to: real, now: real): State
    requires Weighable(t.pairs)
  {
    if !Live(t, ref) then t
    else
      var sp := PointAt(t, key, now);
      if |sp.reporters| >= 15 then t.(syncpoints := t.syncpoints[key := sp])
      else
        var r := Report(ref.idx, te, to);
        t.(syncpoints := t.syncpoints[key := sp.(reporters := sp.reporters + [r])],
           pairs := Train(t.pairs, t.alive, r, sp.reporters),
           observed := t.observed + Observations(t.alive, r, sp.reporters))
  }

  function Swept(t: State, now: real): State {
    t.(syncpoints := map k | k in t.syncpoints && now - t.syncpoints[k].created < 4.0 :: t.syncpoints[k])
  }

  // ---------------------------------------------------------------- the shard

  class ShardState {
    var users: seq<string>
    var gens: seq<nat>
    var alive: seq<bool>
    var freeSlots: seq<nat>
    var byUser: map<string, nat>
    var pairs: map<Pair, Fit>
    var syncpoints: map<SyncKey, SyncPoint>
    var observed: nat

    function Value(): State
      reads this
    {
      State(users, gens, alive, freeSlots, byUser, pairs, syncpoints, observed)
    }

    constructor ()
      ensures Value() == EMPTY
    {
      users, gens, alive, freeSlots := [], [], [], [];
      byUser, pairs, syncpoints := map[], map[], map[];
      observed := 0;
    }

    method AddReceiver(user: string) returns (r: RxRef)
      requires Shaped(Value())
      modifies this
      ensures (Value(), r) == old(Added(Value(), user))
    {
      if user in byUser {
        var previous := byUser[user];
        RemoveReceiver(RxRef(previous, gens[previous]));
      }
      var idx: nat;
      if freeSlots != [] {
        idx := freeSlots[|freeSlots| - 1];
        freeSlots := freeSlots[..|freeSlots| - 1];
        users := users[idx := user];
        gens := gens[idx := NextGen(gens[idx])];
        alive := alive[idx := true];
      } else {
        idx := |alive|;
        users := users + [user];
        gens := gens + [0];
        alive := alive + [true];
      }
      byUser := byUser[user := idx];
      r := RxRef(idx, gens[idx]);
    }

    method RemoveReceiver(r: RxRef)
      requires Shaped(Value())
      modifies this
      ensures Value() == old(Removed(Value(), r))
    {
      if !Live(Value(), r) {
        return;
      }
      var rx := r.idx;
      alive := alive[rx := false];
      pairs := WithoutSlot(pairs, rx);
      if users[rx] in byUser && byUser[users[rx]] == rx {
        byUser := byUser - {users[rx]};
      }
      freeSlots := freeSlots + [rx];
    }

    method ResetClock(r: RxRef)
      modifies this
      ensures Value() == old(ClockReset(Value(), r))
    {
      if Live(Value(), r) {
        pairs := WithoutSlot(pairs, r.idx);
      }
    }

    method TakeSync(ref: RxRef, key: SyncKey, te: real, to: real, now: real)
      requires Weighable(pairs)
      modifies this
      ensures Value() == old(OnSync(Value(), ref, key, te, to, now))
    {
      if !Live(Value(), ref) {
        return;
      }
      var rx := ref.idx;
      if key !in syncpoints {
        syncpoints := syncpoints[key := SyncPoint(now, [])];
      }
      if |syncpoints[key].reporters| >= 15 {
        return;
      }
      var others := syncpoints[key].reporters;
      var r := Report(rx, te, to);
      syncpoints := syncpoints[key := syncpoints[key].(reporters := others + [r])];
      TrainPairs(r, others);
    }

    method TrainPairs(r: Report, others: seq<Report>)
      requires Weighable(pairs)
      modifies this`pairs, this`observed
      ensures pairs == old(Train(pairs, alive, r, others))
      ensures observed == old(observed) + Observations(alive, r, others)
    {
      hide Weighable, Pushing, Observe, Value;
      assert others[0..] == others;
      for i := 0 to |others|
        invariant Weighable(pairs)
        invariant Train(pairs, alive, r, others[i..]) == old(Train(pairs, alive, r, others))
        invariant observed + Observations(alive, r, others[i..]) == old(observed) + Observations(alive, r, others)
      {
        assert others[i..][0] == others[i] && others[i..][1..] == others[i + 1..];
        var other := others[i];
        if other.rx != r.rx && other.rx < |alive| && alive[other.rx] {
          pairs := Observe(pairs, r.rx, other.rx, r.te, other.te);
          observed := observed + 1;
          pairs := Observe(pairs, r.rx, other.rx, r.to, other.to);
          observed := observed + 1;
        }
      }
      assert others[|others|..] == [];
    }

    method Sweep(now: real)
      modifies this
      ensures Value() == old(Swept(Value(), now))
    {
      syncpoints := map k | k in syncpoints && now - syncpoints[k].created < 4.0 :: syncpoints[k];
    }
  }
}
