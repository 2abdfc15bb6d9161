/** The output task (crates/mlatd/src/main.rs): the territory gate and the bounded window against boundary twins. */
module Output {
  import opened Common
  import opened Router

  datatype Key = Key(icao: nat, bucket: int)

  datatype Row = Row(shard: nat, at: Point, icao: nat, stamp: real)

  const WINDOW: nat := 4096

  /** The conversion to 64 bits: towards zero, saturating. */
  function ToI64(x: real): int {
    var i := if x >= 0.0 then x.Floor else -((-x).Floor);
    if i < -0x8000_0000_0000_0000 then -0x8000_0000_0000_0000
    else if i > 0x7FFF_FFFF_FFFF_FFFF then 0x7FFF_FFFF_FFFF_FFFF
    else i
  }

  function Tenths(row: Row): real {
    row.stamp * 10.0
  }

  /** The aircraft and its 100 ms bucket. */
  function KeyOf(row: Row): Key {
    Key(row.icao, ToI64(Tenths(row)))
  }

  /** A fix at a mapped point passes only from the shard that owns the point. */
  predicate InTerritory(row: Row, owner: Option<nat>) {
    owner == None || owner == Some(row.shard)
  }

  // ---------------------------------------------------------------- specification

  /** A row, with the owner of its point when it is taken. */
  datatype Input = Input(row: Row, owner: Option<nat>)

  function LastOf(keys: seq<Key>, n: nat): seq<Key> {
    if |keys| <= n then keys else keys[|keys| - n..]
  }

  /** The keys published, in order, when each is checked against the last n published. */
  function PublishedWithin(n: nat, inputs: seq<Input>): seq<Key> {
    if inputs == [] then []
    else
      var before, i := PublishedWithin(n, inputs[..|inputs| - 1]), inputs[|inputs| - 1];
      if InTerritory(i.row, i.owner) && KeyOf(i.row) !in LastOf(before, n) then before + [KeyOf(i.row)] else before
  }

  /** The keys published when each is checked against everything published. */
  function PublishedOnce(inputs: seq<Input>): seq<Key> {
    if inputs == [] then []
    else
      var before, i := PublishedOnce(inputs[..|inputs| - 1]), inputs[|inputs| - 1];
      if InTerritory(i.row, i.owner) && KeyOf(i.row) !in before then before + [KeyOf(i.row)] else before
  }

  // ---------------------------------------------------------------- the task

  class OutputTask {
    const router: GeoRouter
    var recent: set<Key>
    var order: seq<Key>
    /** Everything taken so far, and what was published. */
    ghost var taken: seq<Input>
    ghost var published: seq<Key>

    ghost predicate Valid()
      reads this
    {
      && published == PublishedWithin(4096, taken)
      && order == LastOf(published, 4096)
      && Distinct(order)
      && (forall k :: k in recent <==> k in order)
    }

    constructor (router: GeoRouter)
      ensures Valid() && this.router == router && taken == []
    {
      this.router := router;
      recent, order := {}, [];
      taken, published := [], [];
      new;
      assert PublishedWithin(WINDOW, taken) == [];
    }

    method Take(row: Row) returns (publish: bool)
      requires Valid() && Sane(router.State())
      modifies this
      ensures Valid()
      ensures var input := Input(row, OwnerAt(router.State(), row.at));
              && taken == old(taken) + [input]
              && published == (if publish then old(published) + [KeyOf(row)] else old(published))
              && (input.owner.Some? && input.owner.value != row.shard ==> !publish)
              && (input.owner == None || input.owner == Some(row.shard) ==> (publish <==> KeyOf(row) !in old(order)))
    {
      hide OwnerAt, Sane, KeyOf;
      var owner := router.OwnerOf(row.at);
      TakenOnce(taken, Input(row, owner));
      taken := taken + [Input(row, owner)];
      hide PublishedWithin, LastOf, Distinct;
      if owner.Some? && owner.value != row.shard {
        return false;
      }
      var key := KeyOf(row);
      if key in recent {
        return false;
      }
      published := published + [key];
      Remember(key);
      publish := true;
    }

    /** A new key enters the window; the oldest leave it. */
    method Remember(key: Key)
      requires Distinct(order) && key !in order && (forall k :: k in recent <==> k in order)
      modifies this`recent, this`order
      ensures order == LastOf(old(order) + [key], WINDOW)
      ensures Distinct(order) && (forall k :: k in recent <==> k in order)
    {
      recent := recent + {key};
      order := order + [key];
      ghost var all := order;
      while |order| > WINDOW
        invariant |order| <= |all| && order == all[|all| - |order|..]
        invariant |order| >= WINDOW || order == all
        invariant Distinct(order)
        invariant forall k :: k in recent <==> k in order
        decreases |order|
      {
        var k := order[0];
        assert order == [k] + order[1..];
        order := order[1..];
        recent := recent - {k};
      }
    }
  }

  lemma PublishedNext(n: nat, inputs: seq<Input>, i: Input)
    ensures i.owner.Some? && i.owner.value != i.row.shard ==>
              PublishedWithin(n, inputs + [i]) == PublishedWithin(n, inputs)
    ensures var before := PublishedWithin(n, inputs);
            PublishedWithin(n, inputs + [i])
            == if InTerritory(i.row, i.owner) && KeyOf(i.row) !in LastOf(before, n) then before + [KeyOf(i.row)]
               else before
  {
    assert (inputs + [i])[..|inputs|] == inputs;
  }

  lemma TakenOnce(taken: seq<Input>, input: Input)
    ensures var before := PublishedWithin(WINDOW, taken);
            PublishedWithin(WINDOW, taken + [input])
            == if InTerritory(input.row, input.owner) && KeyOf(input.row) !in LastOf(before, WINDOW)
               then before + [KeyOf(input.row)] else before
    ensures var before := PublishedWithin(WINDOW, taken);
            forall k :: LastOf(before + [k], WINDOW) == LastOf(LastOf(before, WINDOW) + [k], WINDOW)
  {
    assert (taken + [input])[..|taken|] == taken;
  }

  // ---------------------------------------------------------------- what the window guarantees

  /** Any two equal published keys have at least n others published between them. */
  lemma {:induction false} RepeatsAreFarApart(n: nat, inputs: seq<Input>, i: nat, j: nat)
    requires i < j < |PublishedWithin(n, inputs)| && j - i <= n
    ensures PublishedWithin(n, inputs)[i] != PublishedWithin(n, inputs)[j]
    decreases |inputs|
  {
    hide KeyOf, InTerritory;
    var before := PublishedWithin(n, inputs[..|inputs| - 1]);
    if j < |before| {
      RepeatsAreFarApart(n, inputs[..|inputs| - 1], i, j);
    } else {
      assert before[i] in LastOf(before, n) by {
        if |before| > n {
          assert LastOf(before, n)[i - (|before| - n)] == before[i];
        }
      }
    }
  }

  /** A published key is that of a fix which reported in its own shard's territory, or at a point nobody owns. */
  lemma {:induction false} PublishedAtHome(n: nat, inputs: seq<Input>, k: Key)
    requires k in PublishedWithin(n, inputs)
    ensures exists i :: && 0 <= i < |inputs| && KeyOf(inputs[i].row) == k
                        && (inputs[i].owner == None || inputs[i].owner == Some(inputs[i].row.shard))
    decreases |inputs|
  {
    hide KeyOf, LastOf;
    var before, last := inputs[..|inputs| - 1], inputs[|inputs| - 1];
    if k in PublishedWithin(n, before) {
      PublishedAtHome(n, before, k);
      var i :| && 0 <= i < |before| && KeyOf(before[i].row) == k
               && (before[i].owner == None || before[i].owner == Some(before[i].row.shard));
      assert inputs[i] == before[i];
    } else {
      assert KeyOf(inputs[|inputs| - 1].row) == k;
    }
  }

  /** Fixes from shards that do not own their points change nothing, wherever they come in the stream. */
  lemma {:induction false} ForeignFixesChangeNothing(n: nat, before: seq<Input>, foreign: Input, after: seq<Input>)
    requires foreign.owner.Some? && foreign.owner.value != foreign.row.shard
    ensures PublishedWithin(n, before + [foreign] + after) == PublishedWithin(n, before + after)
    decreases |after|
  {
    hide *;
    if after == [] {
      PublishedNext(n, before, foreign);
      assert before + after == before && before + [foreign] + after == before + [foreign];
    } else {
      var rest, last := after[..|after| - 1], after[|after| - 1];
      var home, all := before + rest, before + [foreign] + rest;
      ForeignFixesChangeNothing(n, before, foreign, rest);
      PublishedNext(n, home, last);
      PublishedNext(n, all, last);
      assert after == rest + [last];
      assert before + after == home + [last];
      assert before + [foreign] + after == all + [last];
    }
  }

  /**
   * As long as no more keys are ever published than the window holds, it publishes exactly what a memory of everything
   * would.
   */
  lemma {:induction false} WindowRefinesFullHistory(n: nat, inputs: seq<Input>)
    requires |PublishedOnce(inputs)| <= n
    ensures PublishedWithin(n, inputs) == PublishedOnce(inputs)
    decreases |inputs|
  {
    hide KeyOf, InTerritory;
    if inputs != [] {
      WindowRefinesFullHistory(n, inputs[..|inputs| - 1]);
    }
  }

  /** The full history publishes the first fix of every key that passes the gate, and only that. */
  lemma {:induction false} OncePublishesEachKey(inputs: seq<Input>, k: Key)
    ensures Distinct(PublishedOnce(inputs))
    ensures k in PublishedOnce(inputs) <==>
              exists i :: && 0 <= i < |inputs| && KeyOf(inputs[i].row) == k
                          && (inputs[i].owner == None || inputs[i].owner == Some(inputs[i].row.shard))
    decreases |inputs|
  {
    hide KeyOf;
    if inputs != [] {
      var before, last := inputs[..|inputs| - 1], inputs[|inputs| - 1];
      OncePublishesEachKey(before, k);
      assert forall i :: 0 <= i < |before| ==> before[i] == inputs[i];
    }
  }

  // ---------------------------------------------------------------- when two fixes are twins

  const FIRST_BUCKET: int := -0x8000_0000_0000_0000
  const LAST_BUCKET: int := 0x7FFF_FFFF_FFFF_FFFF

  /** Tenths of a second that fall into bucket k: bucket 0 reaches both ways, the end buckets have no outer bound. */
  predicate InBucket(tenths: real, k: int) {
    if k == LAST_BUCKET then k as real <= tenths
    else if k == FIRST_BUCKET then tenths <= k as real
    else
      && FIRST_BUCKET < k < LAST_BUCKET
      && (if k > 0 then k as real <= tenths < (k + 1) as real
          else if k < 0 then (k - 1) as real < tenths <= k as real
          else -1.0 < tenths < 1.0)
  }

  ghost predicate InOneBucket(s: real, t: real) {
    exists k :: InBucket(s, k) && InBucket(t, k)
  }

  lemma BucketIs(tenths: real, k: int)
    ensures ToI64(tenths) == k <==> InBucket(tenths, k)
  {
    if tenths >= 0.0 {
      assert tenths.Floor as real <= tenths < (tenths.Floor + 1) as real;
    } else {
      assert (-tenths).Floor as real <= -tenths < ((-tenths).Floor + 1) as real;
    }
  }

  /** Two fixes share a key if and only if they are of one aircraft and their stamps fall into one 100 ms bucket. */
  lemma TwinsIff(a: Row, b: Row)
    ensures KeyOf(a) == KeyOf(b) <==>
              a.icao == b.icao && InOneBucket(a.stamp * 10.0, b.stamp * 10.0)
  {
    var k := KeyOf(a).bucket;
    BucketIs(Tenths(a), k);
    BucketIs(Tenths(b), k);
    forall j | InBucket(Tenths(a), j)
      ensures j == k
    {
      BucketIs(Tenths(a), j);
    }
    hide ToI64, InBucket;
  }

  /** However close two fixes of one aircraft are, both are published when a bucket ends between them. */
  lemma TwinsAcrossABoundary(a: Row, b: Row, k: int)
    requires a.icao == b.icao && 0 < k < LAST_BUCKET && 0.0 <= Tenths(a) < k as real <= Tenths(b)
    ensures PublishedWithin(WINDOW, [Input(a, Some(a.shard)), Input(b, Some(b.shard))]) == [KeyOf(a), KeyOf(b)]
  {
    var first, second := Input(a, Some(a.shard)), Input(b, Some(b.shard));
    assert Tenths(a).Floor < k <= Tenths(b).Floor;
    assert KeyOf(a) != KeyOf(b);
    hide ToI64, KeyOf;
    TakenOnce([], first);
    TakenOnce([first], second);
    assert [] + [first] == [first] && [first] + [second] == [first, second];
    assert PublishedWithin(WINDOW, []) == [];
  }

  /** From zero on, stamps a hundred milliseconds apart or more are never twins. */
  lemma FarFixesAreNoTwins(a: Row, b: Row)
    requires 0.0 <= a.stamp && a.stamp + 0.1 <= b.stamp && Tenths(b) < LAST_BUCKET as real
    ensures KeyOf(a) != KeyOf(b)
  {
    assert Tenths(a) + 1.0 <= Tenths(b);
    assert Tenths(a).Floor < Tenths(b).Floor;
  }
}
