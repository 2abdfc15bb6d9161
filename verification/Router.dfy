/** The adaptive geographic router (crates/mlatd/src/shard.rs): a splitting quadtree of cells owned by shards. */
module Router {
  import opened Common

  datatype Point = Point(lat: real, lon: real)

  datatype Cell = Cell(level: nat, y: int, x: int)

  const SPLIT_AT: nat := 64
  const CAP_RATE: nat := 50_000

  // ---------------------------------------------------------------- geometry

  function Pow2(l: nat): (r: nat)
    ensures r >= 1
  {
    if l == 0 then 1 else 2 * Pow2(l - 1)
  }

  function CellSize(base: real, l: nat): (r: real)
    requires base > 0.0
    ensures r > 0.0
  {
    base / Pow2(l) as real
  }

  /** The saturating conversion to 16 bits. */
  function ToI16(i: int): int {
    if i < -32768 then -32768 else if i > 32767 then 32767 else i
  }

  function CellAt(base: real, l: nat, p: Point): Cell
    requires base > 0.0
  {
    Cell(l, ToI16((p.lat / CellSize(base, l)).Floor), ToI16((p.lon / CellSize(base, l)).Floor))
  }

  /** Cells stop splitting at two degrees. */
  predicate Splittable(base: real, l: nat)
    requires base > 0.0
  {
    CellSize(base, l + 1) >= 2.0
  }

  /** The centre of the neighbouring cell dy rows up and dx columns right. */
  function NeighbourPoint(base: real, c: Cell, dy: int, dx: int): Point
    requires base > 0.0
  {
    var size := CellSize(base, c.level);
    Point((c.y as real + 0.5) * size + dy as real * size, (c.x as real + 0.5) * size + dx as real * size)
  }

  // ---------------------------------------------------------------- the router's state

  datatype Partition = Partition(base: real, cap: nat, owner: map<Cell, nat>, rxCount: map<Cell, nat>,
                                 split: set<Cell>, receivers: seq<nat>, rate: seq<nat>)

  /** What the lookups rely on; the bound on base is where the shift that halves it would run out of bits. */
  ghost predicate Sane(s: Partition) {
    && 0.0 < s.base < 4294967296.0
    && 0 < |s.receivers| == |s.rate|
    && (forall c :: c in s.owner ==> s.owner[c] < |s.receivers|)
    && (forall c :: c in s.split ==> Splittable(s.base, c.level))
  }

  lemma {:induction false} Pow2Grows(k: nat, l: nat)
    requires k <= l
    ensures Pow2(k) <= Pow2(l)
    decreases l - k
  {
    if k < l {
      Pow2Grows(k, l - 1);
    }
  }

  lemma {:induction false} Pow2Sum(k: nat, l: nat)
    ensures Pow2(k + l) == Pow2(k) * Pow2(l)
    decreases k
  {
    if k > 0 {
      Pow2Sum(k - 1, l);
    }
  }

  lemma SplittableLevels(base: real, l: nat)
    requires 0.0 < base < 4294967296.0 && Splittable(base, l)
    ensures l < 31
  {
    if l >= 31 {
      Pow2Grows(32, l + 1);
      assert Pow2(4) == 16;
      Pow2Sum(4, 4);
      Pow2Sum(8, 8);
      Pow2Sum(16, 16);
      SizeTimesCount(base, l + 1);
      AtLeastTwice(CellSize(base, l + 1), Pow2(l + 1) as real);
    }
  }

  lemma AtLeastTwice(size: real, count: real)
    requires size >= 2.0 && count >= 0.0
    ensures size * count >= 2.0 * count
  {
  }

  lemma SizeTimesCount(base: real, l: nat)
    requires base > 0.0
    ensures CellSize(base, l) * Pow2(l) as real == base
  {
  }

  /** The deepest unsplit cell around a point, looking from level l down. */
  ghost function LeafFrom(s: Partition, p: Point, l: nat): (leaf: Cell)
    requires Sane(s) && l <= 32
    decreases 32 - l
  {
    var key := CellAt(s.base, l, p);
    if key !in s.split then key
    else
      SplittableLevels(s.base, l);
      LeafFrom(s, p, l + 1)
  }

  ghost function Leaf(s: Partition, p: Point): Cell
    requires Sane(s)
  {
    LeafFrom(s, p, 0)
  }

  /** The owner of the nearest mapped cell from level l up to level 0. */
  function OwnerFrom(s: Partition, p: Point, l: nat): Option<nat>
    requires s.base > 0.0
  {
    var key := CellAt(s.base, l, p);
    if key in s.owner then Some(s.owner[key])
    else if l == 0 then None
    else OwnerFrom(s, p, l - 1)
  }

  lemma {:induction false} OwnersAreShards(s: Partition, p: Point, l: nat)
    requires Sane(s)
    ensures OwnerFrom(s, p, l).Some? ==> OwnerFrom(s, p, l).value < |s.receivers|
    decreases l
  {
    if l > 0 {
      OwnersAreShards(s, p, l - 1);
    }
  }

  ghost function OwnerAt(s: Partition, p: Point): (shard: Option<nat>)
    requires Sane(s)
    ensures shard.Some? ==> shard.value < |s.receivers|
  {
    OwnersAreShards(s, p, Leaf(s, p).level);
    OwnerFrom(s, p, Leaf(s, p).level)
  }

  predicate HasCapacity(s: Partition, shard: nat)
    requires shard < |s.receivers| == |s.rate|
  {
    s.receivers[shard] < s.cap && s.rate[shard] < CAP_RATE
  }

  /** Shard a carries less than shard b: a lower rate, or the same rate and fewer receivers. */
  predicate Lighter(s: Partition, a: nat, b: nat)
    requires a < |s.receivers| == |s.rate| && b < |s.receivers|
  {
    s.rate[a] < s.rate[b] || (s.rate[a] == s.rate[b] && s.receivers[a] < s.receivers[b])
  }

  /** The vote of the neighbour at position j of the three-by-three block: its owner, when that has capacity. */
  ghost function Vote(s: Partition, c: Cell, j: nat): (vote: Option<nat>)
    requires Sane(s)
    ensures vote.Some? ==> vote.value < |s.receivers| && HasCapacity(s, vote.value)
  {
    var dy, dx := j / 3 - 1, j % 3 - 1;
    if dy == 0 && dx == 0 then None
    else
      var p := NeighbourPoint(s.base, c, dy, dx);
      match OwnerAt(s, p)
      case Some(n) => if HasCapacity(s, n) then Some(n) else None
      case None => None
  }

  /** The votes of the first j positions of the block. */
  ghost function Tally(s: Partition, c: Cell, j: nat): (votes: map<nat, nat>)
    requires Sane(s)
    ensures forall n :: n in votes ==> n < |s.receivers|
  {
    if j == 0 then map[]
    else Counted(Tally(s, c, j - 1), Vote(s, c, j - 1))
  }

  function Counted(votes: map<nat, nat>, vote: Option<nat>): map<nat, nat> {
    match vote
    case None => votes
    case Some(n) => votes[n := (if n in votes then votes[n] else 0) + 1]
  }

  /**
   * No candidate has more votes; of those with as many none has a lower rate, nor the same rate and fewer receivers.
   * Equal candidates may come in any order.
   */
  predicate Wins(s: Partition, votes: map<nat, nat>, w: nat)
    requires |s.receivers| == |s.rate| && forall n :: n in votes ==> n < |s.receivers|
  {
    && w in votes
    && forall n :: n in votes ==>
         || votes[n] < votes[w]
         || (votes[n] == votes[w] && s.rate[n] > s.rate[w])
         || (votes[n] == votes[w] && s.rate[n] == s.rate[w] && s.receivers[n] >= s.receivers[w])
  }

  /** The first shard that has the lowest rate, and the fewest receivers among those. */
  predicate FirstLightest(s: Partition, w: nat)
    requires |s.receivers| == |s.rate|
  {
    && w < |s.receivers|
    && (forall n :: 0 <= n < |s.receivers| ==>
          s.rate[n] > s.rate[w] || (s.rate[n] == s.rate[w] && s.receivers[n] >= s.receivers[w]))
    && (forall n :: 0 <= n < w ==> s.rate[n] > s.rate[w] || s.receivers[n] > s.receivers[w])
  }

  lemma LightestIsShard(s: Partition, w: nat)
    requires |s.receivers| == |s.rate| && FirstLightest(s, w)
    ensures w < |s.receivers|
  {
  }

  /** The shard a new receiver at p may be given. */
  ghost predicate Chosen(s: Partition, p: Point, shard: nat)
    requires Sane(s)
  {
    var leaf := Leaf(s, p);
    if leaf in s.owner then shard == s.owner[leaf]
    else
      var votes := Tally(s, leaf, 9);
      if votes != map[] then Wins(s, votes, shard)
      else
        match OwnerAt(s, p)
        case Some(home) => shard == home
        case None => FirstLightest(s, shard)
  }

  function CountAt(s: Partition, c: Cell): nat {
    if c in s.rxCount then s.rxCount[c] else 0
  }

  /** The state once the receiver at p has been given to the shard. */
  ghost function Claimed(s: Partition, p: Point, shard: nat): Partition
    requires Sane(s) && shard < |s.receivers|
  {
    var leaf := Leaf(s, p);
    var count := CountAt(s, leaf) + 1;
    s.(owner := if leaf in s.owner then s.owner else s.owner[leaf := shard],
       rxCount := s.rxCount[leaf := count],
       split := if count > SPLIT_AT && Splittable(s.base, leaf.level) then s.split + {leaf} else s.split,
       receivers := s.receivers[shard := s.receivers[shard] + 1])
  }

  // ---------------------------------------------------------------- the router

  class GeoRouter {
    const baseDeg: real
    const cap: nat
    var owner: map<Cell, nat>
    var rxCount: map<Cell, nat>
    var split: set<Cell>
    var receivers: seq<nat>
    var rate: seq<nat>

    function State(): Partition
      reads this
    {
      Partition(baseDeg, cap, owner, rxCount, split, receivers, rate)
    }

    constructor (shards: nat, baseDeg: real, cap: nat)
      requires 0 < shards && 0.0 < baseDeg < 4294967296.0
      ensures Sane(State())
      ensures State() == Partition(baseDeg, cap, map[], map[], {}, seq(shards, _ => 0), seq(shards, _ => 0))
    {
      this.baseDeg := baseDeg;
      this.cap := cap;
      owner := map[];
      rxCount := map[];
      split := {};
      receivers := seq(shards, _ => 0);
      rate := seq(shards, _ => 0);
    }

    method LeafAt(p: Point) returns (leaf: Cell)
      requires Sane(State())
      ensures leaf == Leaf(State(), p)
    {
      var level := 0;
      leaf := CellAt(baseDeg, level, p);
      while leaf in split
        invariant level <= 32 && leaf == CellAt(baseDeg, level, p)
        invariant LeafFrom(State(), p, level) == Leaf(State(), p)
        decreases 32 - level
      {
        SplittableLevels(baseDeg, level);
        level := level + 1;
        leaf := CellAt(baseDeg, level, p);
      }
    }

    method OwnerOf(p: Point) returns (shard: Option<nat>)
      requires Sane(State())
      ensures shard == OwnerAt(State(), p)
    {
      var leaf := LeafAt(p);
      var level: nat := leaf.level;
      while true
        invariant OwnerFrom(State(), p, level) == OwnerFrom(State(), p, leaf.level)
        decreases level
      {
        var key := CellAt(baseDeg, level, p);
        if key in owner {
          return Some(owner[key]);
        }
        if level == 0 {
          return None;
        }
        level := level - 1;
      }
    }

    method VoteOf(key: Cell, dy: int, dx: int) returns (vote: Option<nat>)
      requires Sane(State()) && -1 <= dy <= 1 && -1 <= dx <= 1
      ensures vote == Vote(State(), key, (dy + 1) * 3 + dx + 1)
    {
      if dx == 0 && dy == 0 {
        return None;
      }
      vote := OwnerOf(NeighbourPoint(baseDeg, key, dy, dx));
      if vote.Some? && !HasCapacity(State(), vote.value) {
        vote := None;
      }
    }

    method CountVotes(key: Cell) returns (votes: map<nat, nat>)
      requires Sane(State())
      ensures votes == Tally(State(), key, 9)
    {
      hide Vote, Sane, Leaf, LeafFrom, OwnerAt, OwnerFrom, HasCapacity, State, Pow2, CellSize, CellAt;
      votes := map[];
      for dy := -1 to 2
        invariant votes == Tally(State(), key, (dy + 1) * 3)
      {
        for dx := -1 to 2
          invariant votes == Tally(State(), key, (dy + 1) * 3 + dx + 1)
        {
          var vote := VoteOf(key, dy, dx);
          if vote.Some? {
            votes := votes[vote.value := (if vote.value in votes then votes[vote.value] else 0) + 1];
          }
        }
      }
    }

    method PickWinner(votes: map<nat, nat>) returns (winner: Option<nat>)
      requires Sane(State()) && forall n :: n in votes ==> n < |receivers|
      ensures winner == None <==> votes == map[]
      ensures winner.Some? ==> Wins(State(), votes, winner.value)
    {
      winner := None;
      var todo := votes.Keys;
      while todo != {}
        invariant todo <= votes.Keys
        invariant winner == None <==> todo == votes.Keys
        invariant winner.Some? ==> winner.value in votes
        invariant winner.Some? ==>
                    forall n :: n in votes && n !in todo ==>
                      || votes[n] < votes[winner.value]
                      || (votes[n] == votes[winner.value] && rate[n] > rate[winner.value])
                      || (votes[n] == votes[winner.value] && rate[n] == rate[winner.value]
                          && receivers[n] >= receivers[winner.value])
      {
        var n :| n in todo;
        if winner == None || votes[n] > votes[winner.value]
           || (votes[n] == votes[winner.value] && !Lighter(State(), winner.value, n)) {
          winner := Some(n);
        }
        todo := todo - {n};
      }
      if votes != map[] {
        assert votes.Keys != {};
      }
    }

    method PickLightest() returns (shard: nat)
      requires Sane(State())
      ensures FirstLightest(State(), shard)
    {
      shard := 0;
      for n := 1 to |receivers|
        invariant shard < n
        invariant forall k :: 0 <= k < n ==>
                    rate[k] > rate[shard] || (rate[k] == rate[shard] && receivers[k] >= receivers[shard])
        invariant forall k :: 0 <= k < shard ==> rate[k] > rate[shard] || receivers[k] > receivers[shard]
      {
        if Lighter(State(), n, shard) {
          shard := n;
        }
      }
    }

    /** The shard for a cell nobody owns yet. */
    method PickShard(p: Point, key: Cell) returns (shard: nat)
      requires Sane(State()) && key == Leaf(State(), p) && key !in owner
      ensures shard < |receivers| && Chosen(State(), p, shard)
    {
      hide Leaf, LeafFrom, OwnerFrom, Tally, FirstLightest, Pow2, CellSize, CellAt, Splittable;
      var votes := CountVotes(key);
      var winner := PickWinner(votes);
      if winner.Some? {
        return winner.value;
      }
      var home := OwnerOf(p);
      if home.Some? {
        return home.value;
      }
      shard := PickLightest();
      assert shard < |receivers| by {
        LightestIsShard(State(), shard);
      }
    }

    /** A receiver's shard, remembered by its cell. */
    method ShardFor(p: Point) returns (shard: nat)
      requires Sane(State())
      modifies this
      ensures shard < |old(receivers)| && Chosen(old(State()), p, shard)
      ensures State() == Claimed(old(State()), p, shard)
    {
      hide Leaf, LeafFrom, OwnerFrom, OwnerAt, Tally, Wins, FirstLightest, Pow2, CellSize, CellAt, Splittable;
      var key := LeafAt(p);
      if key in owner {
        shard := owner[key];
      } else {
        shard := PickShard(p, key);
      }
      hide Chosen, Sane;
      if key !in owner {
        owner := owner[key := shard];
      }
      rxCount := rxCount[key := (if key in rxCount then rxCount[key] else 0) + 1];
      if rxCount[key] > SPLIT_AT && Splittable(baseDeg, key.level) {
        split := split + {key};
      }
      receivers := receivers[shard := receivers[shard] + 1];
    }

    /** A connection is torn down. */
    method Release(shard: nat)
      requires shard < |receivers| && receivers[shard] > 0
      modifies this`receivers
      ensures receivers == old(receivers)[shard := old(receivers)[shard] - 1]
    {
      receivers := receivers[shard := receivers[shard] - 1];
    }
  }
}
