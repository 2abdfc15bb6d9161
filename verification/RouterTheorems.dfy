/** What the router keeps over every run of connections, releases and rate measurements. */
module RouterTheorems {
  import opened Common
  import opened Router

  // ---------------------------------------------------------------- leaves

  predicate SplitAbove(s: Partition, p: Point, l: nat)
    requires s.base > 0.0
  {
    forall k :: 0 <= k < l ==> CellAt(s.base, k, p) in s.split
  }

  lemma {:induction false} LeafFromIs(s: Partition, p: Point, l: nat)
    requires Sane(s) && l <= 32 && SplitAbove(s, p, l)
    ensures var leaf := LeafFrom(s, p, l);
            && leaf == CellAt(s.base, leaf.level, p) && leaf !in s.split
            && SplitAbove(s, p, leaf.level) && l <= leaf.level <= 32
    decreases 32 - l
  {
    hide Pow2, CellSize, ToI16;
    if CellAt(s.base, l, p) in s.split {
      SplittableLevels(s.base, l);
      LeafFromIs(s, p, l + 1);
    }
  }

  /** The leaf of a point is the one unsplit cell around it whose coarser cells are all split. */
  lemma LeafIsUnique(s: Partition, p: Point, l: nat)
    requires Sane(s)
    ensures var leaf := Leaf(s, p);
            && leaf == CellAt(s.base, leaf.level, p) && leaf !in s.split && SplitAbove(s, p, leaf.level)
    ensures l == Leaf(s, p).level <==> CellAt(s.base, l, p) !in s.split && SplitAbove(s, p, l)
  {
    LeafFromIs(s, p, 0);
  }

  // ---------------------------------------------------------------- the tree

  /** c is where p was placed when the cells above it had all been split. */
  predicate LeadsTo(s: Partition, p: Point, c: Cell)
    requires s.base > 0.0
  {
    CellAt(s.base, c.level, p) == c && SplitAbove(s, p, c.level)
  }

  ghost predicate Reached(s: Partition, c: Cell)
    requires s.base > 0.0
  {
    exists p :: LeadsTo(s, p, c)
  }

  predicate CellCount(s: Partition, c: Cell)
    requires s.base > 0.0 && c in s.rxCount
  {
    && s.rxCount[c] >= 1
    && (c in s.split ==> s.rxCount[c] == SPLIT_AT + 1)
    && (c !in s.split && Splittable(s.base, c.level) ==> s.rxCount[c] <= SPLIT_AT)
  }

  /** Split cells are owned and splittable, owned cells lie below split cells only, and counts decide splits. */
  ghost predicate TreeSound(s: Partition) {
    && Sane(s)
    && s.split <= s.owner.Keys == s.rxCount.Keys
    && (forall c :: c in s.owner ==> Reached(s, c))
    && (forall c :: c in s.rxCount ==> CellCount(s, c))
  }

  lemma ChosenIsShard(s: Partition, p: Point, shard: nat)
    requires Sane(s) && Chosen(s, p, shard)
    ensures shard < |s.receivers|
  {
    hide CellAt, Leaf, Tally;
  }

  lemma ReachedStays(s: Partition, t: Partition, c: Cell)
    requires s.base == t.base > 0.0 && s.split <= t.split && Reached(s, c)
    ensures Reached(t, c)
  {
    hide CellAt;
    var p :| LeadsTo(s, p, c);
    assert LeadsTo(t, p, c);
  }

  lemma ClaimKeepsReached(s: Partition, p: Point, shard: nat)
    requires TreeSound(s) && shard < |s.receivers|
    ensures forall c :: c in Claimed(s, p, shard).owner ==> Reached(Claimed(s, p, shard), c)
  {
    var t, leaf := Claimed(s, p, shard), Leaf(s, p);
    LeafIsUnique(s, p, 0);
    hide CellAt, Leaf, CellSize, Splittable, CellCount;
    assert LeadsTo(s, p, leaf);
    forall c | c in t.owner
      ensures Reached(t, c)
    {
      ReachedStays(s, t, c);
    }
  }

  lemma ClaimKeepsCounts(s: Partition, p: Point, shard: nat)
    requires TreeSound(s) && shard < |s.receivers|
    ensures forall c :: c in Claimed(s, p, shard).rxCount ==> CellCount(Claimed(s, p, shard), c)
  {
    var t, leaf := Claimed(s, p, shard), Leaf(s, p);
    LeafIsUnique(s, p, 0);
    hide CellAt, Leaf, CellSize, Splittable, Reached, SplitAbove;
    forall c | c in t.rxCount
      ensures CellCount(t, c)
    {
      if c != leaf {
        assert CellCount(s, c);
      } else if leaf in s.rxCount {
        assert CellCount(s, leaf);
      }
    }
  }

  lemma ClaimKeepsTree(s: Partition, p: Point, shard: nat)
    requires TreeSound(s) && shard < |s.receivers|
    ensures TreeSound(Claimed(s, p, shard))
  {
    ClaimKeepsReached(s, p, shard);
    ClaimKeepsCounts(s, p, shard);
    hide CellAt, Leaf, CellSize, Splittable, Reached, CellCount;
  }

  // ---------------------------------------------------------------- who owns a point

  /** The level of the nearest mapped cell around p from level l up. */
  function MappedLevel(s: Partition, p: Point, l: nat): Option<nat>
    requires s.base > 0.0
  {
    if CellAt(s.base, l, p) in s.owner then Some(l) else if l == 0 then None else MappedLevel(s, p, l - 1)
  }

  ghost function OwnerLevel(s: Partition, p: Point): Option<nat>
    requires Sane(s)
  {
    MappedLevel(s, p, Leaf(s, p).level)
  }

  lemma {:induction false} OwnerFromLevel(s: Partition, p: Point, l: nat)
    requires s.base > 0.0
    ensures match MappedLevel(s, p, l)
            case None => OwnerFrom(s, p, l) == None
            case Some(k) =>
              k <= l && CellAt(s.base, k, p) in s.owner && OwnerFrom(s, p, l) == Some(s.owner[CellAt(s.base, k, p)])
    decreases l
  {
    hide CellAt;
    if l > 0 && CellAt(s.base, l, p) !in s.owner {
      OwnerFromLevel(s, p, l - 1);
    }
  }

  /** The ancestor fallback looks one level up at most: a leaf's parent is split, so it is owned. */
  lemma OwnerIsLeafOrParent(s: Partition, p: Point)
    requires TreeSound(s)
    ensures var leaf := Leaf(s, p);
            OwnerAt(s, p) == if leaf in s.owner then Some(s.owner[leaf])
                             else if leaf.level == 0 then None
                             else OwnerFrom(s, p, leaf.level - 1)
    ensures var leaf := Leaf(s, p);
            leaf.level > 0 ==> CellAt(s.base, leaf.level - 1, p) in s.owner
                               && OwnerFrom(s, p, leaf.level - 1) == Some(s.owner[CellAt(s.base, leaf.level - 1, p)])
  {
    LeafIsUnique(s, p, 0);
    hide CellAt, Leaf, CellSize, Splittable, Reached, CellCount;
  }

  /** A cell index that the 16-bit conversion has not pinned to its ends. */
  predicate Interior(c: Cell) {
    -32768 < c.y < 32767 && -32768 < c.x < 32767
  }

  lemma PinnedOnlyAtEnds(base: real, l: nat, p: Point)
    requires base > 0.0 && Interior(CellAt(base, l, p))
    ensures CellAt(base, l, p).y == (p.lat / CellSize(base, l)).Floor
    ensures CellAt(base, l, p).x == (p.lon / CellSize(base, l)).Floor
  {
  }

  lemma HalfSize(base: real, l: nat)
    requires base > 0.0
    ensures CellSize(base, l) == 2.0 * CellSize(base, l + 1)
  {
    SizeTimesCount(base, l);
    SizeTimesCount(base, l + 1);
    Cancel(CellSize(base, l), 2.0 * CellSize(base, l + 1), Pow2(l) as real);
  }

  lemma Cancel(a: real, b: real, n: real)
    requires n >= 1.0 && a * n == b * n
    ensures a == b
  {
  }

  lemma FloorOfHalf(x: real, size: real)
    requires size > 0.0
    ensures (x / (2.0 * size)).Floor == (x / size).Floor / 2
  {
    var q := x / size;
    assert x / (2.0 * size) == q / 2.0 by {
      assert q * size == x;
    }
    var f := q.Floor;
    assert (f / 2) as real <= q / 2.0 < (f / 2) as real + 1.0;
  }

  /** Away from the ends of the index range, cells nest: two points that share a cell share its parent. */
  lemma CellsNest(base: real, l: nat, p: Point)
    requires base > 0.0 && Interior(CellAt(base, l + 1, p))
    ensures var c := CellAt(base, l + 1, p);
            CellAt(base, l, p) == Cell(l, c.y / 2, c.x / 2)
  {
    PinnedOnlyAtEnds(base, l + 1, p);
    HalfSize(base, l);
    FloorOfHalf(p.lat, CellSize(base, l + 1));
    FloorOfHalf(p.lon, CellSize(base, l + 1));
  }

  /** Within 65,532 degrees, which every latitude and longitude is, indexes of cells from two degrees up stay inside. */
  predicate OnTheMap(p: Point) {
    -65532.0 <= p.lat < 65532.0 && -65532.0 <= p.lon < 65532.0
  }

  lemma IndexBound(x: real, size: real)
    requires size >= 2.0 && -65532.0 <= x < 65532.0
    ensures -32766 <= (x / size).Floor <= 32765
  {
    var q := x / size;
    assert q * size == x;
    if q >= 32766.0 {
      Larger(q, 32766.0, size);
    }
    if q < -32766.0 {
      Larger(-q, 32766.0, size);
    }
  }

  lemma Larger(q: real, bound: real, size: real)
    requires q >= bound >= 0.0 && size >= 2.0
    ensures q * size >= bound * 2.0
  {
    assert q * size >= q * 2.0;
  }

  lemma OnTheMapIsInterior(base: real, l: nat, p: Point)
    requires base > 0.0 && OnTheMap(p) && CellSize(base, l) >= 2.0
    ensures var c := CellAt(base, l, p);
            Interior(c) && -32766 <= c.y <= 32765 && -32766 <= c.x <= 32765
  {
    IndexBound(p.lat, CellSize(base, l));
    IndexBound(p.lon, CellSize(base, l));
  }

  lemma ChildIsUnclaimed(s: Partition, p: Point)
    requires TreeSound(s)
    requires var l := Leaf(s, p).level; Interior(CellAt(s.base, l + 1, p))
    ensures CellAt(s.base, Leaf(s, p).level + 1, p) !in s.owner
  {
    var leaf := Leaf(s, p);
    LeafIsUnique(s, p, 0);
    var child := CellAt(s.base, leaf.level + 1, p);
    if child in s.owner {
      assert Reached(s, child);
      var q :| LeadsTo(s, q, child);
      CellsNest(s.base, leaf.level, p);
      CellsNest(s.base, leaf.level, q);
      hide CellAt, Leaf, CellSize;
      assert false;
    }
  }

  lemma LeafAfterClaim(s: Partition, p: Point, shard: nat)
    requires TreeSound(s) && shard < |s.receivers| && OnTheMap(p)
    ensures var t, leaf := Claimed(s, p, shard), Leaf(s, p);
            && TreeSound(t) && leaf in t.owner
            && (leaf in t.split ==> Leaf(t, p) == CellAt(s.base, leaf.level + 1, p) && Leaf(t, p) !in t.owner)
            && (leaf !in t.split ==> Leaf(t, p) == leaf)
  {
    ClaimKeepsTree(s, p, shard);
    var t, leaf := Claimed(s, p, shard), Leaf(s, p);
    LeafIsUnique(s, p, 0);
    if leaf in t.split {
      OnTheMapIsInterior(s.base, leaf.level + 1, p);
      ChildIsUnclaimed(s, p);
      hide CellAt, Leaf, CellSize, Splittable, Reached, CellCount;
      LeafIsUnique(t, p, leaf.level + 1);
    } else {
      hide CellAt, Leaf, CellSize, Splittable, Reached, CellCount;
      LeafIsUnique(t, p, leaf.level);
    }
  }

  /** The territory gate agrees with the placement: right after a receiver is placed, its point is its shard's. */
  lemma PlacedPointIsOwned(s: Partition, p: Point, shard: nat)
    requires TreeSound(s) && Chosen(s, p, shard) && OnTheMap(p)
    ensures OwnerAt(Claimed(s, p, shard), p) == Some(shard)
  {
    ChosenIsShard(s, p, shard);
    LeafAfterClaim(s, p, shard);
    LeafIsUnique(s, p, 0);
    var t, leaf := Claimed(s, p, shard), Leaf(s, p);
    assert t.owner[leaf] == shard by {
      hide CellAt, Leaf, CellSize, Splittable, TreeSound, Tally;
    }
    LeafIsUnique(t, p, 0);
    hide CellAt, Leaf, CellSize, Splittable, TreeSound, Tally, Claimed, Chosen, Sane;
    assert OwnerFrom(t, p, leaf.level) == Some(shard);
  }

  /** Placing a receiver at p takes its cell over the limit. */
  ghost predicate Splits(s: Partition, p: Point)
    requires Sane(s)
  {
    CountAt(s, Leaf(s, p)) >= SPLIT_AT && Splittable(s.base, Leaf(s, p).level)
  }

  /** The owner the territory gate finds for p once p's leaf is split. */
  ghost function OwnerBelow(s: Partition, p: Point): Option<nat>
    requires Sane(s) && Splits(s, p)
  {
    SplittableLevels(s.base, Leaf(s, p).level);
    OwnerFrom(s, p, LeafFrom(s, p, Leaf(s, p).level + 1).level)
  }

  lemma {:induction false} SameLeafBelow(s: Partition, t: Partition, p: Point, l: nat, cut: Cell)
    requires Sane(s) && Sane(t) && s.base == t.base && t.split == s.split + {cut} && cut.level < l <= 32
    ensures LeafFrom(t, p, l) == LeafFrom(s, p, l)
    decreases 32 - l
  {
    hide Pow2, CellSize, ToI16;
    if CellAt(s.base, l, p) in s.split {
      SplittableLevels(s.base, l);
      SameLeafBelow(s, t, p, l + 1, cut);
    }
  }

  lemma {:induction false} LeafBelow(s: Partition, p: Point, l: nat)
    requires Sane(s) && l <= 32 && SplitAbove(s, p, l)
    ensures LeafFrom(s, p, l) == Leaf(s, p)
  {
    LeafFromIs(s, p, l);
    LeafIsUnique(s, p, LeafFrom(s, p, l).level);
    hide CellAt, LeafFrom;
  }

  lemma SplitClaim(s: Partition, p: Point, shard: nat)
    requires TreeSound(s) && shard < |s.receivers| && Splits(s, p)
    ensures var t := Claimed(s, p, shard);
            Sane(t) && SplitAbove(t, p, Leaf(s, p).level + 1) && t.owner == s.owner && t.base == s.base
    ensures Leaf(s, p).level < 31 && Claimed(s, p, shard).split == s.split + {Leaf(s, p)}
  {
    ClaimKeepsTree(s, p, shard);
    LeafIsUnique(s, p, 0);
    SplittableLevels(s.base, Leaf(s, p).level);
    hide CellAt, CellSize, Splittable, Reached, CellCount, LeafFrom, Leaf;
    assert Leaf(s, p) in s.rxCount;
  }

  lemma SplitClaimOwner(s: Partition, p: Point, shard: nat)
    requires TreeSound(s) && shard < |s.receivers| && Splits(s, p) && Sane(Claimed(s, p, shard))
    ensures OwnerAt(Claimed(s, p, shard), p) == OwnerBelow(s, p)
  {
    var t, leaf := Claimed(s, p, shard), Leaf(s, p);
    TreeIsSane(s);
    SplitClaim(s, p, shard);
    hide TreeSound, CellAt, CellSize, Splittable, LeafFrom, Claimed, Leaf, Splits, OwnerFrom, Sane;
    SameLeafBelow(s, t, p, leaf.level + 1, leaf);
    LeafBelow(t, p, leaf.level + 1);
    SameOwners(s, t, p, Leaf(t, p).level);
  }

  lemma UnsplitClaimOwner(s: Partition, p: Point, shard: nat)
    requires TreeSound(s) && Chosen(s, p, shard) && shard < |s.receivers| && !Splits(s, p)
    ensures Sane(Claimed(s, p, shard)) && OwnerAt(Claimed(s, p, shard), p) == Some(shard)
  {
    var t, leaf := Claimed(s, p, shard), Leaf(s, p);
    LeafIsUnique(s, p, 0);
    UnsplitClaimKeepsLeaf(s, p, shard);
    assert leaf in t.owner && t.owner[leaf] == shard by {
      hide CellAt, Leaf, CellSize, Splittable, TreeSound, Tally;
    }
    hide CellAt, CellSize, Splittable, LeafFrom, Tally, Leaf, TreeSound, Chosen, Claimed, Sane;
    assert OwnerFrom(t, p, leaf.level) == Some(shard);
  }

  /**
   * For every point whatever: after a placement the gate names the chosen shard unless the placement splits the cell
   * and a finer cell around the point belongs to another shard already.
   */
  lemma PlacedPointIsOwnedIff(s: Partition, p: Point, shard: nat)
    requires TreeSound(s) && Chosen(s, p, shard)
    ensures shard < |s.receivers|
    ensures TreeSound(Claimed(s, p, shard))
    ensures OwnerAt(Claimed(s, p, shard), p) == Some(shard) <==> !Splits(s, p) || OwnerBelow(s, p) == Some(shard)
  {
    ChosenIsShard(s, p, shard);
    ClaimKeepsTree(s, p, shard);
    TreeIsSane(Claimed(s, p, shard));
    hide TreeSound, Claimed, Chosen, OwnerAt, OwnerBelow, Splits, Sane, Leaf;
    if Splits(s, p) {
      SplitClaimOwner(s, p, shard);
    } else {
      UnsplitClaimOwner(s, p, shard);
    }
  }

  lemma UnsplitClaimKeepsLeaf(s: Partition, p: Point, shard: nat)
    requires TreeSound(s) && shard < |s.receivers| && !Splits(s, p)
    ensures Sane(Claimed(s, p, shard)) && Leaf(Claimed(s, p, shard), p) == Leaf(s, p)
  {
    var t, leaf := Claimed(s, p, shard), Leaf(s, p);
    ClaimKeepsTree(s, p, shard);
    LeafIsUnique(s, p, 0);
    hide CellAt, CellSize, Splittable, Reached, CellCount, LeafFrom, Leaf;
    assert t.split == s.split;
    LeafIsUnique(t, p, leaf.level);
  }

  lemma {:induction false} SameOwners(s: Partition, t: Partition, p: Point, l: nat)
    requires s.base == t.base > 0.0 && s.owner == t.owner
    ensures OwnerFrom(s, p, l) == OwnerFrom(t, p, l)
    decreases l
  {
    if l > 0 {
      SameOwners(s, t, p, l - 1);
    }
  }

  // ---------------------------------------------------------------- growth

  /** Owners are written once and splits are one-way. */
  predicate Grown(s: Partition, t: Partition) {
    && s.base == t.base && s.split <= t.split
    && (forall c :: c in s.owner ==> c in t.owner && t.owner[c] == s.owner[c])
  }

  lemma ClaimGrows(s: Partition, p: Point, shard: nat)
    requires Sane(s) && shard < |s.receivers|
    ensures Grown(s, Claimed(s, p, shard))
  {
  }

  lemma {:induction false} MappedAtLeast(s: Partition, p: Point, l: nat, k: nat)
    requires s.base > 0.0 && k <= l && CellAt(s.base, k, p) in s.owner
    ensures MappedLevel(s, p, l).Some? && k <= MappedLevel(s, p, l).value
    decreases l
  {
    hide CellAt;
    if k < l && CellAt(s.base, l, p) !in s.owner {
      MappedAtLeast(s, p, l - 1, k);
    }
  }

  /** As the partition grows, a point's owner is only ever replaced by that of a finer cell. */
  lemma OwnersOnlyRefine(s: Partition, t: Partition, p: Point)
    requires Sane(s) && Sane(t) && Grown(s, t) && OwnerAt(s, p).Some?
    ensures OwnerLevel(s, p).Some? && OwnerLevel(t, p).Some? && OwnerLevel(s, p).value <= OwnerLevel(t, p).value
    ensures OwnerLevel(s, p) == OwnerLevel(t, p) ==> OwnerAt(t, p) == OwnerAt(s, p)
  {
    LeafIsUnique(s, p, 0);
    LeafIsUnique(t, p, 0);
    var l, m := Leaf(s, p).level, Leaf(t, p).level;
    assert l <= m by {
      hide CellAt, Leaf;
      if m < l {
        assert false;
      }
    }
    OwnerFromLevel(s, p, l);
    OwnerFromLevel(t, p, m);
    hide CellAt, Leaf, CellSize, Sane;
    MappedAtLeast(t, p, m, MappedLevel(s, p, l).value);
  }

  /** Every owned cell, its index inside the range, lies below split cells only. */
  lemma {:induction false} AncestorsAreSplit(s: Partition, c: Cell, up: nat)
    requires TreeSound(s) && c in s.owner && Interior(c) && 0 < up <= c.level
    ensures Cell(c.level - up, c.y / Pow2(up), c.x / Pow2(up)) in s.split
  {
    assert Reached(s, c);
    var p :| LeadsTo(s, p, c);
    CellsNestDeep(s.base, c.level, p, up);
    hide CellAt, Reached, TreeSound;
    assert CellAt(s.base, c.level - up, p) in s.split;
  }

  lemma {:induction false} CellsNestDeep(base: real, l: nat, p: Point, up: nat)
    requires base > 0.0 && up <= l && Interior(CellAt(base, l, p))
    ensures var c := CellAt(base, l, p);
            CellAt(base, l - up, p) == Cell(l - up, c.y / Pow2(up), c.x / Pow2(up))
    decreases up
  {
    if up > 0 {
      CellsNest(base, l - 1, p);
      var c := CellAt(base, l, p);
      DivTwice(c.y, Pow2(up - 1));
      DivTwice(c.x, Pow2(up - 1));
      hide CellAt;
      CellsNestDeep(base, l - 1, p, up - 1);
    }
  }

  lemma DivTwice(y: int, n: nat)
    requires n >= 1
    ensures y / 2 / n == y / (2 * n)
  {
    var q := y / 2 / n;
    var r := y / 2 - q * n;
    assert 0 <= r < n;
    assert y == 2 * (q * n + r) + y % 2;
    QuotientIs(y, 2 * n, q, 2 * r + y % 2);
  }

  lemma QuotientIs(y: int, n: nat, q: int, r: int)
    requires n >= 1 && y == q * n + r && 0 <= r < n
    ensures y / n == q
  {
    var d := y / n - q;
    assert d * n == r - y % n;
    if d >= 1 {
      AtLeastOnce(d, n);
    }
    if -d >= 1 {
      AtLeastOnce(-d, n);
    }
  }

  lemma AtLeastOnce(d: int, n: nat)
    requires d >= 1
    ensures d * n >= n
  {
  }

  // ---------------------------------------------------------------- runs

  datatype Event =
    | Connect(p: Point, shard: nat)
    | Disconnect(shard: nat)          // a connection that reaches its teardown
    | Measure(shard: nat, rate: nat)  // the statistics task stores a shard's rate

  ghost predicate Enabled(s: Partition, e: Event)
    requires Sane(s)
  {
    match e
    case Connect(p, shard) => Chosen(s, p, shard)
    case Disconnect(shard) => shard < |s.receivers| && s.receivers[shard] > 0
    case Measure(shard, _) => shard < |s.receivers|
  }

  ghost function Apply(s: Partition, e: Event): Partition
    requires Sane(s) && Enabled(s, e)
  {
    match e
    case Connect(p, shard) => ChosenIsShard(s, p, shard); Claimed(s, p, shard)
    case Disconnect(shard) => s.(receivers := s.receivers[shard := s.receivers[shard] - 1])
    case Measure(shard, rate) => s.(rate := s.rate[shard := rate])
  }

  lemma ApplyKeepsTree(s: Partition, e: Event)
    requires TreeSound(s) && Enabled(s, e)
    ensures TreeSound(Apply(s, e)) && Grown(s, Apply(s, e)) && |Apply(s, e).receivers| == |s.receivers|
  {
    match e
    case Connect(p, shard) =>
      ChosenIsShard(s, p, shard);
      ClaimKeepsTree(s, p, shard);
      ClaimGrows(s, p, shard);
      hide Claimed, TreeSound, Chosen;
      assert |Claimed(s, p, shard).receivers| == |s.receivers| by {
        ClaimedShards(s, p, shard);
      }
    case Disconnect(shard) => OnlyLoadChanged(s, Apply(s, e));
    case Measure(shard, rate) => OnlyLoadChanged(s, Apply(s, e));
  }

  lemma ClaimedShards(s: Partition, p: Point, shard: nat)
    requires Sane(s) && shard < |s.receivers|
    ensures |Claimed(s, p, shard).receivers| == |s.receivers|
  {
  }

  lemma OnlyLoadChanged(s: Partition, t: Partition)
    requires TreeSound(s) && t == s.(receivers := t.receivers, rate := t.rate)
    requires |t.receivers| == |t.rate| == |s.receivers|
    ensures TreeSound(t)
  {
    hide CellAt, Splittable, CellSize;
    forall c | c in t.owner
      ensures Reached(t, c)
    {
      ReachedStays(s, t, c);
    }
    hide Reached;
    forall c | c in t.rxCount
      ensures CellCount(t, c)
    {
      assert CellCount(s, c);
    }
  }

  ghost predicate IsRun(s: Partition, es: seq<Event>)
    requires TreeSound(s)
    decreases |es|
  {
    es != [] ==>
      && Enabled(s, es[0])
      && (ApplyKeepsTree(s, es[0]); IsRun(Apply(s, es[0]), es[1..]))
  }

  ghost function After(s: Partition, es: seq<Event>): (t: Partition)
    requires TreeSound(s) && IsRun(s, es)
    ensures TreeSound(t)
    decreases |es|
  {
    if es == [] then s
    else
      ApplyKeepsTree(s, es[0]);
      After(Apply(s, es[0]), es[1..])
  }

  function Opening(shards: nat, base: real, cap: nat): Partition {
    Partition(base, cap, map[], map[], {}, seq(shards, _ => 0), seq(shards, _ => 0))
  }

  lemma OpeningIsSound(shards: nat, base: real, cap: nat)
    requires 0 < shards && 0.0 < base < 4294967296.0
    ensures TreeSound(Opening(shards, base, cap))
  {
  }

  lemma GrownTwice(s: Partition, t: Partition, u: Partition)
    requires Grown(s, t) && Grown(t, u)
    ensures Grown(s, u)
  {
  }

  /**
   * Over every run the tree stays sound, owners are write-once, splits are one-way, and a point once owned stays owned,
   * its owner replaced only by that of a strictly finer cell.
   */
  lemma {:induction false} RunsKeepTheTree(s: Partition, es: seq<Event>, p: Point)
    requires TreeSound(s) && IsRun(s, es)
    ensures TreeSound(After(s, es)) && Grown(s, After(s, es))
    ensures OwnerAt(s, p).Some? ==>
              && OwnerAt(After(s, es), p).Some?
              && OwnerLevel(s, p).Some? && OwnerLevel(After(s, es), p).Some?
              && OwnerLevel(s, p).value <= OwnerLevel(After(s, es), p).value
              && (OwnerLevel(s, p) == OwnerLevel(After(s, es), p) ==> OwnerAt(After(s, es), p) == OwnerAt(s, p))
  {
    RunsGrow(s, es);
    hide TreeSound, IsRun, After, Grown, Leaf, CellAt;
    if OwnerAt(s, p).Some? {
      var t := After(s, es);
      TreeIsSane(s);
      TreeIsSane(t);
      OwnersOnlyRefine(s, t, p);
      OwnerFromLevel(t, p, Leaf(t, p).level);
    }
  }

  lemma TreeIsSane(s: Partition)
    requires TreeSound(s)
    ensures Sane(s)
  {
  }

  lemma {:induction false} RunsGrow(s: Partition, es: seq<Event>)
    requires TreeSound(s) && IsRun(s, es)
    ensures Grown(s, After(s, es)) && |After(s, es).receivers| == |s.receivers|
    decreases |es|
  {
    if es != [] {
      ApplyKeepsTree(s, es[0]);
      var t := Apply(s, es[0]);
      hide Apply, Enabled;
      RunsGrow(t, es[1..]);
      GrownTwice(s, t, After(s, es));
    }
  }

  ghost predicate IsRunFromTheStart(shards: nat, base: real, cap: nat, es: seq<Event>)
    requires 0 < shards && 0.0 < base < 4294967296.0
  {
    OpeningIsSound(shards, base, cap);
    IsRun(Opening(shards, base, cap), es)
  }

  /** The run theorems for a router as it starts: empty, with at least one shard. */
  lemma RoutersFromTheStart(shards: nat, base: real, cap: nat, es: seq<Event>, shard: nat)
    requires 0 < shards && 0.0 < base < 4294967296.0 && shard < shards
    requires IsRunFromTheStart(shards, base, cap, es)
    ensures TreeSound(Opening(shards, base, cap))
    ensures var t := After(Opening(shards, base, cap), es);
            && TreeSound(t) && |t.receivers| == shards
            && Total(t.rxCount) == Connects(es) && t.receivers[shard] == Held(es, shard)
  {
    OpeningIsSound(shards, base, cap);
    RunsConserveCounts(Opening(shards, base, cap), es, shard);
    hide After, IsRun, TreeSound, Connects, Held;
  }

  // ---------------------------------------------------------------- counts

  ghost function Total(m: map<Cell, nat>): nat
    decreases |m|
  {
    if m == map[] then 0
    else
      var c :| c in m;
      m[c] + Total(m - {c})
  }

  lemma {:induction false} TotalWithout(m: map<Cell, nat>, c: Cell)
    requires c in m
    ensures Total(m) == m[c] + Total(m - {c})
    decreases |m|
  {
    var d :| d in m && Total(m) == m[d] + Total(m - {d});
    if d != c {
      assert (m - {d}) - {c} == (m - {c}) - {d};
      TotalWithout(m - {d}, c);
      TotalWithout(m - {c}, d);
    }
  }

  lemma TotalBump(m: map<Cell, nat>, c: Cell)
    ensures Total(m[c := (if c in m then m[c] else 0) + 1]) == Total(m) + 1
  {
    var n := m[c := (if c in m then m[c] else 0) + 1];
    TotalWithout(n, c);
    if c in m {
      TotalWithout(m, c);
      assert n - {c} == m - {c};
    } else {
      assert n - {c} == m;
    }
  }

  function Connects(es: seq<Event>): nat {
    if es == [] then 0 else (if es[0].Connect? then 1 else 0) + Connects(es[1..])
  }

  /** Connections to the shard less teardowns of such connections. */
  function Held(es: seq<Event>, shard: nat): int {
    if es == [] then 0
    else
      (if es[0].Connect? && es[0].shard == shard then 1
       else if es[0].Disconnect? && es[0].shard == shard then -1 else 0)
      + Held(es[1..], shard)
  }

  lemma ClaimCounts(s: Partition, p: Point, shard: nat)
    requires Sane(s) && shard < |s.receivers|
    ensures var t := Claimed(s, p, shard);
            && Total(t.rxCount) == Total(s.rxCount) + 1
            && t.receivers == s.receivers[shard := s.receivers[shard] + 1]
  {
    hide Leaf, Splittable, Total, CellAt;
    TotalBump(s.rxCount, Leaf(s, p));
  }

  lemma ApplyCounts(s: Partition, e: Event, shard: nat)
    requires Sane(s) && Enabled(s, e) && shard < |s.receivers|
    ensures var t := Apply(s, e);
            && Total(t.rxCount) == Total(s.rxCount) + Connects([e])
            && |t.receivers| == |s.receivers| && t.receivers[shard] == s.receivers[shard] + Held([e], shard)
  {
    if e.Connect? {
      ChosenIsShard(s, e.p, e.shard);
      ClaimCounts(s, e.p, e.shard);
    }
    hide Chosen, Total, Sane, Claimed;
  }

  /** Over every run the cell counts add up to the connections, and each shard's counter is what it still holds. */
  lemma {:induction false} RunsConserveCounts(s: Partition, es: seq<Event>, shard: nat)
    requires TreeSound(s) && IsRun(s, es) && shard < |s.receivers|
    ensures var t := After(s, es);
            && Total(t.rxCount) == Total(s.rxCount) + Connects(es)
            && |t.receivers| == |s.receivers| && t.receivers[shard] == s.receivers[shard] + Held(es, shard)
    decreases |es|
  {
    if es != [] {
      ApplyKeepsTree(s, es[0]);
      ApplyCounts(s, es[0], shard);
      hide Apply, Enabled, TreeSound;
      RunsConserveCounts(Apply(s, es[0]), es[1..], shard);
    }
  }

  /** At any time a split cell has counted 65 receivers, and a cell that may still split at most 64. */
  lemma CountsDecideSplits(s: Partition, es: seq<Event>, c: Cell)
    requires TreeSound(s) && IsRun(s, es) && c in After(s, es).owner
    ensures var t := After(s, es);
            && c in t.rxCount && t.rxCount[c] >= 1
            && (c in t.split ==> t.rxCount[c] == 65 && Splittable(t.base, c.level) && c.level < 31)
            && (c !in t.split && Splittable(t.base, c.level) ==> t.rxCount[c] <= 64)
  {
    var t := After(s, es);
    hide After, IsRun;
    assert CellCount(t, c);
    if c in t.split {
      SplittableLevels(t.base, c.level);
    }
  }

  // ---------------------------------------------------------------- the vote

  lemma {:induction false} TallyMembers(s: Partition, c: Cell, j: nat, n: nat)
    requires Sane(s)
    ensures n in Tally(s, c, j) <==> exists k :: 0 <= k < j && Vote(s, c, k) == Some(n)
    decreases j
  {
    hide Vote, Sane;
    if j > 0 {
      TallyMembers(s, c, j - 1, n);
      assert Vote(s, c, j - 1) == Vote(s, c, j - 1);
    }
  }

  lemma VotersHaveCapacity(s: Partition, c: Cell, j: nat, n: nat)
    requires Sane(s) && n in Tally(s, c, j)
    ensures n < |s.receivers| && HasCapacity(s, n)
  {
    TallyMembers(s, c, j, n);
    hide Sane;
    var k :| 0 <= k < j && Vote(s, c, k) == Some(n);
    assert Vote(s, c, k).Some?;
  }

  lemma NoVotes(s: Partition, c: Cell)
    requires Sane(s)
    ensures Tally(s, c, 9) == map[] <==> forall k :: 0 <= k < 9 ==> Vote(s, c, k) == None
  {
    var votes := Tally(s, c, 9);
    if n :| n in votes {
      TallyMembers(s, c, 9, n);
    }
    forall k | 0 <= k < 9 && Vote(s, c, k).Some?
      ensures votes != map[]
    {
      TallyMembers(s, c, 9, Vote(s, c, k).value);
    }
  }

  /** The owner of the point in the middle of the cell at position j of the three-by-three block around c. */
  ghost function Neighbour(s: Partition, c: Cell, j: nat): (owner: Option<nat>)
    requires Sane(s)
    ensures owner.Some? ==> owner.value < |s.receivers|
  {
    OwnerAt(s, NeighbourPoint(s.base, c, j / 3 - 1, j % 3 - 1))
  }

  /** The eight neighbours vote for their owners, each as long as that shard is below both limits. */
  lemma VoteIff(s: Partition, c: Cell, j: nat, n: nat)
    requires Sane(s) && j < 9
    ensures Vote(s, c, j) == Some(n) <==>
              j != 4 && Neighbour(s, c, j) == Some(n) && s.receivers[n] < s.cap && s.rate[n] < 50_000
  {
    hide OwnerAt, NeighbourPoint, Sane;
    assert (j / 3 - 1 == 0 && j % 3 - 1 == 0) <==> j == 4;
  }

  /** New ground goes to a shard at one of its limits only when every neighbour's owner is at one of its own. */
  lemma FullShardsGrowOnlyAlone(s: Partition, p: Point, shard: nat)
    requires Sane(s) && Leaf(s, p) !in s.owner && Chosen(s, p, shard) && shard < |s.receivers|
    requires s.receivers[shard] >= s.cap || s.rate[shard] >= 50_000
    ensures forall k, n :: 0 <= k < 9 && k != 4 && Neighbour(s, Leaf(s, p), k) == Some(n) ==>
              s.receivers[n] >= s.cap || s.rate[n] >= 50_000
  {
    var leaf := Leaf(s, p);
    NoVotes(s, leaf);
    hide Leaf, OwnerAt, Neighbour, Vote, Sane, FirstLightest;
    if Tally(s, leaf, 9) != map[] {
      VotersHaveCapacity(s, leaf, 9, shard);
      assert false;
    }
    forall k, n | 0 <= k < 9 && k != 4 && Neighbour(s, leaf, k) == Some(n)
      ensures s.receivers[n] >= s.cap || s.rate[n] >= 50_000
    {
      VoteIff(s, leaf, k, n);
    }
  }

  /** Voter m has more votes than n, or as many and less load. */
  predicate Beats(s: Partition, votes: map<nat, nat>, m: nat, n: nat)
    requires |s.receivers| == |s.rate| && (forall k :: k in votes ==> k < |s.receivers|)
    requires m in votes && n in votes
  {
    || votes[m] > votes[n]
    || (votes[m] == votes[n] && s.rate[m] < s.rate[n])
    || (votes[m] == votes[n] && s.rate[m] == s.rate[n] && s.receivers[m] < s.receivers[n])
  }

  lemma BeatsIsTransitive(s: Partition, votes: map<nat, nat>, l: nat, m: nat, n: nat)
    requires |s.receivers| == |s.rate| && (forall k :: k in votes ==> k < |s.receivers|)
    requires l in votes && m in votes && n in votes && !Beats(s, votes, m, l) && !Beats(s, votes, n, m)
    ensures !Beats(s, votes, n, l)
  {
  }

  /** Among any of the voters there is one that none of them beats. */
  lemma {:induction false} SomeoneLeads(s: Partition, votes: map<nat, nat>, among: set<nat>) returns (w: nat)
    requires |s.receivers| == |s.rate| && (forall k :: k in votes ==> k < |s.receivers|)
    requires among != {} && among <= votes.Keys
    ensures w in among && forall n :: n in among ==> !Beats(s, votes, n, w)
    decreases |among|
  {
    var m :| m in among;
    w := m;
    hide Beats;
    assert !Beats(s, votes, m, m) by {
      NeverBeatsItself(s, votes, m);
    }
    if among != {m} {
      assert among - {m} != {};
      var v := SomeoneLeads(s, votes, among - {m});
      if Beats(s, votes, v, m) {
        w := v;
        BeatsOneWay(s, votes, v, m);
      } else {
        forall n | n in among
          ensures !Beats(s, votes, n, m)
        {
          if n != m {
            BeatsIsTransitive(s, votes, m, v, n);
          }
        }
      }
    }
  }

  lemma NeverBeatsItself(s: Partition, votes: map<nat, nat>, m: nat)
    requires |s.receivers| == |s.rate| && (forall k :: k in votes ==> k < |s.receivers|) && m in votes
    ensures !Beats(s, votes, m, m)
  {
  }

  lemma BeatsOneWay(s: Partition, votes: map<nat, nat>, m: nat, n: nat)
    requires |s.receivers| == |s.rate| && (forall k :: k in votes ==> k < |s.receivers|)
    requires m in votes && n in votes && Beats(s, votes, m, n)
    ensures !Beats(s, votes, n, m)
  {
  }

  lemma WinsIsUnbeaten(s: Partition, votes: map<nat, nat>, w: nat)
    requires |s.receivers| == |s.rate| && (forall k :: k in votes ==> k < |s.receivers|)
    ensures Wins(s, votes, w) <==> w in votes && forall n :: n in votes ==> !Beats(s, votes, n, w)
  {
    if w in votes && (forall n :: n in votes ==> !Beats(s, votes, n, w)) {
      forall n | n in votes
        ensures || votes[n] < votes[w]
                || (votes[n] == votes[w] && s.rate[n] > s.rate[w])
                || (votes[n] == votes[w] && s.rate[n] == s.rate[w] && s.receivers[n] >= s.receivers[w])
      {
        assert !Beats(s, votes, n, w);
      }
    }
  }

  /** The home shard keeps every vote: it is among the voters and beats all the others. */
  predicate OutvotesAll(s: Partition, votes: map<nat, nat>, home: nat)
    requires |s.receivers| == |s.rate| && (forall k :: k in votes ==> k < |s.receivers|)
  {
    home in votes && forall n :: n in votes && n != home ==> Beats(s, votes, home, n)
  }

  lemma SomeoneElseWins(s: Partition, votes: map<nat, nat>, home: nat) returns (w: nat)
    requires |s.receivers| == |s.rate| && (forall k :: k in votes ==> k < |s.receivers|)
    requires votes != map[] && !OutvotesAll(s, votes, home)
    ensures Wins(s, votes, w) && w != home
  {
    if home !in votes {
      assert votes.Keys != {};
      w := SomeoneLeads(s, votes, votes.Keys);
    } else {
      var n :| n in votes && n != home && !Beats(s, votes, home, n);
      assert n in votes.Keys - {home};
      w := SomeoneLeads(s, votes, votes.Keys - {home});
      hide Beats, Wins;
      BeatsIsTransitive(s, votes, w, n, home);
      assert forall k :: k in votes ==> k == home || k in votes.Keys - {home};
    }
    WinsIsUnbeaten(s, votes, w);
  }

  lemma OnlyWinnerIff(s: Partition, votes: map<nat, nat>, home: nat)
    requires |s.receivers| == |s.rate| && (forall k :: k in votes ==> k < |s.receivers|) && votes != map[]
    ensures (forall w :: Wins(s, votes, w) ==> w == home) <==> OutvotesAll(s, votes, home)
  {
    hide Wins, Beats;
    if OutvotesAll(s, votes, home) {
      forall w | Wins(s, votes, w)
        ensures w == home
      {
        WinsIsUnbeaten(s, votes, w);
      }
    } else {
      var w := SomeoneElseWins(s, votes, home);
    }
  }

  /**
   * Children of a split cell do not always stay on its shard, whatever README.md line 214 says. With a cell nobody owns
   * yet and an ancestor's shard to go home to, every permitted choice is that home if and only if no neighbouring
   * cell's owner has capacity, or the home is among those voters and outvotes every other.
   */
  lemma ChildStaysHomeIff(s: Partition, p: Point, home: nat)
    requires Sane(s) && Leaf(s, p) !in s.owner && OwnerAt(s, p) == Some(home)
    ensures (forall shard :: Chosen(s, p, shard) ==> shard == home) <==>
              || (forall k :: 0 <= k < 9 ==> Vote(s, Leaf(s, p), k) == None)
              || OutvotesAll(s, Tally(s, Leaf(s, p), 9), home)
  {
    var leaf := Leaf(s, p);
    var votes := Tally(s, leaf, 9);
    NoVotes(s, leaf);
    hide Leaf, OwnerFrom, OwnerAt, CellAt, Vote, Tally, Sane;
    if votes != map[] {
      OnlyWinnerIff(s, votes, home);
      hide Wins, OutvotesAll;
      assert forall shard :: Chosen(s, p, shard) <==> Wins(s, votes, shard);
    } else {
      assert home !in votes;
    }
  }

  /** A full home has no vote, so it keeps a child exactly when no neighbouring cell's owner has capacity. */
  lemma FullHomeKeepsChildIff(s: Partition, p: Point, shard: nat, home: nat)
    requires Sane(s) && Chosen(s, p, shard) && Leaf(s, p) !in s.owner
    requires home < |s.receivers| && OwnerAt(s, p) == Some(home)
    requires s.receivers[home] >= s.cap || s.rate[home] >= 50_000
    ensures shard == home <==> forall k :: 0 <= k < 9 ==> Vote(s, Leaf(s, p), k) == None
  {
    var leaf := Leaf(s, p);
    NoVotes(s, leaf);
    hide Leaf, OwnerFrom, CellAt, Vote, Tally, Sane;
    if Tally(s, leaf, 9) != map[] {
      VotersHaveCapacity(s, leaf, 9, shard);
    }
  }

  // ---------------------------------------------------------------- what the siblings vote

  /** Position j of the three-by-three block around c: (row, column) offsets from -1 to 1. */
  function Offset(j: nat): (int, int) {
    (j / 3 - 1, j % 3 - 1)
  }

  function CellBeside(c: Cell, j: nat): Cell {
    Cell(c.level, c.y + Offset(j).0, c.x + Offset(j).1)
  }

  /** Another child of c's parent. */
  predicate Sibling(c: Cell, j: nat) {
    var d := CellBeside(c, j);
    d != c && d.y / 2 == c.y / 2 && d.x / 2 == c.x / 2
  }

  lemma CentreIndex(v: real, i: int, d: int, size: real)
    requires size > 0.0 && v == (i as real + 0.5) * size + d as real * size
    ensures (v / size).Floor == i + d
  {
    assert v == ((i + d) as real + 0.5) * size;
    var q := v / size;
    assert q * size == v;
    CancelFactor(q, (i + d) as real + 0.5, size);
  }

  lemma CancelFactor(a: real, b: real, n: real)
    requires n > 0.0 && a * n == b * n
    ensures a == b
  {
    assert (a - b) * n == 0.0;
  }

  lemma CentreOfBeside(base: real, c: Cell, j: nat)
    requires base > 0.0 && Interior(CellBeside(c, j))
    ensures CellAt(base, c.level, NeighbourPoint(base, c, Offset(j).0, Offset(j).1)) == CellBeside(c, j)
  {
    hide CellSize, Pow2, Offset;
    var (dy, dx) := Offset(j);
    CentreIs(base, c, dy, dx);
    hide NeighbourPoint;
  }

  lemma CentreIs(base: real, c: Cell, dy: int, dx: int)
    requires base > 0.0
    ensures var q := NeighbourPoint(base, c, dy, dx);
            && (q.lat / CellSize(base, c.level)).Floor == c.y + dy
            && (q.lon / CellSize(base, c.level)).Floor == c.x + dx
  {
    hide CellSize;
    var size := CellSize(base, c.level);
    var q := NeighbourPoint(base, c, dy, dx);
    CentreIndex(q.lat, c.y, dy, size);
    CentreIndex(q.lon, c.x, dx, size);
  }

  /** Two points whose cells are siblings lie in the same coarser cells. */
  lemma SiblingsShareAncestors(base: real, p: Point, q: Point, l: nat, k: nat)
    requires base > 0.0 && k <= l
    requires Interior(CellAt(base, l + 1, p)) && Interior(CellAt(base, l + 1, q))
    requires CellAt(base, l + 1, p).y / 2 == CellAt(base, l + 1, q).y / 2
    requires CellAt(base, l + 1, p).x / 2 == CellAt(base, l + 1, q).x / 2
    ensures CellAt(base, k, p) == CellAt(base, k, q)
  {
    CellsNest(base, l, p);
    CellsNest(base, l, q);
    CellsNestDeep(base, l, p, l - k);
    CellsNestDeep(base, l, q, l - k);
  }

  /** A point in a sibling that nobody owns is a leaf of its own and goes home to the same shard. */
  lemma SiblingGoesHome(s: Partition, p: Point, q: Point)
    requires TreeSound(s) && Leaf(s, p).level > 0 && Leaf(s, p) !in s.owner
    requires var c, d := Leaf(s, p), CellAt(s.base, Leaf(s, p).level, q);
             Interior(c) && Interior(d) && c.y / 2 == d.y / 2 && c.x / 2 == d.x / 2 && d !in s.owner
    ensures OwnerAt(s, q) == OwnerAt(s, p)
  {
    var c := Leaf(s, p);
    var l := c.level - 1;
    LeafIsUnique(s, p, 0);
    forall k | 0 <= k <= l
      ensures CellAt(s.base, k, p) == CellAt(s.base, k, q)
    {
      SiblingsShareAncestors(s.base, p, q, l, k);
    }
    OwnerIsLeafOrParent(s, p);
    hide CellAt, Leaf, CellSize, Splittable, Reached, CellCount;
    assert SplitAbove(s, q, l + 1);
    LeafIsUnique(s, q, l + 1);
    OwnerIsLeafOrParent(s, q);
  }

  /** Each sibling nobody owns yet votes for the home shard, as long as that has capacity. */
  lemma UnclaimedSiblingVotesHome(s: Partition, p: Point, j: nat, home: nat)
    requires TreeSound(s) && OnTheMap(p) && j < 9 && home < |s.receivers| && HasCapacity(s, home)
    requires Leaf(s, p).level > 0 && Leaf(s, p) !in s.owner && OwnerAt(s, p) == Some(home)
    requires Sibling(Leaf(s, p), j) && CellBeside(Leaf(s, p), j) !in s.owner
    ensures Vote(s, Leaf(s, p), j) == Some(home)
  {
    var c := Leaf(s, p);
    var q := NeighbourPoint(s.base, c, Offset(j).0, Offset(j).1);
    LeafIsUnique(s, p, 0);
    assert CellAt(s.base, c.level - 1, p) in s.split;
    OnTheMapIsInterior(s.base, c.level, p);
    CentreOfBeside(s.base, c, j);
    SiblingGoesHome(s, p, q);
    hide CellAt, Leaf, CellSize, OwnerAt, TreeSound, NeighbourPoint;
  }

  // ---------------------------------------------------------------- how many votes a child takes to lose

  /** The votes for a shard among the first j positions. */
  ghost function VotesFor(s: Partition, c: Cell, j: nat, n: nat): nat
    requires Sane(s)
  {
    if j == 0 then 0 else VotesFor(s, c, j - 1, n) + if Vote(s, c, j - 1) == Some(n) then 1 else 0
  }

  lemma {:induction false} TallyCounts(s: Partition, c: Cell, j: nat, n: nat)
    requires Sane(s)
    ensures VotesFor(s, c, j, n) == if n in Tally(s, c, j) then Tally(s, c, j)[n] else 0
    decreases j
  {
    hide Vote, Sane;
    if j > 0 {
      TallyCounts(s, c, j - 1, n);
    }
  }

  /** No shard has more votes; of those with as many none has a lower rate, nor the same rate and fewer receivers. */
  predicate Leads(s: Partition, votes: seq<nat>, w: nat)
    requires |votes| == |s.receivers| == |s.rate| && w < |votes|
  {
    && votes[w] > 0
    && forall n :: 0 <= n < |votes| ==>
         || votes[n] < votes[w]
         || (votes[n] == votes[w] && s.rate[n] > s.rate[w])
         || (votes[n] == votes[w] && s.rate[n] == s.rate[w] && s.receivers[n] >= s.receivers[w])
  }

  lemma WinsIsLeads(s: Partition, counted: map<nat, nat>, votes: seq<nat>, w: nat)
    requires |votes| == |s.receivers| == |s.rate| && w < |votes|
    requires forall n :: n in counted ==> n < |votes| && counted[n] > 0
    requires forall n :: 0 <= n < |votes| ==> votes[n] == if n in counted then counted[n] else 0
    ensures Wins(s, counted, w) <==> Leads(s, votes, w)
  {
    if Wins(s, counted, w) {
      forall n | 0 <= n < |votes|
        ensures || votes[n] < votes[w]
                || (votes[n] == votes[w] && s.rate[n] > s.rate[w])
                || (votes[n] == votes[w] && s.rate[n] == s.rate[w] && s.receivers[n] >= s.receivers[w])
      {
        assert n in counted || votes[n] == 0;
      }
    }
  }

  /** The votes of all shards. */
  ghost function Votes(s: Partition, c: Cell): (votes: seq<nat>)
    requires Sane(s)
    ensures |votes| == |s.receivers|
  {
    seq(|s.receivers|, n requires 0 <= n < |s.receivers| => VotesFor(s, c, 9, n))
  }

  /**
   * Where somebody votes, new ground may go to exactly the shards with the most votes that have the lowest rate, and
   * the fewest receivers at that rate.
   */
  lemma VotedChoiceIff(s: Partition, p: Point, shard: nat)
    requires Sane(s) && Leaf(s, p) !in s.owner && shard < |s.receivers|
    requires exists n :: 0 <= n < |s.receivers| && VotesFor(s, Leaf(s, p), 9, n) > 0
    ensures Chosen(s, p, shard) <==> Leads(s, Votes(s, Leaf(s, p)), shard)
  {
    hide *;
    var c := Leaf(s, p);
    CountedVotes(s, c);
    var n :| 0 <= n < |s.receivers| && VotesFor(s, c, 9, n) > 0;
    CountedVote(s, c, n);
    WinsIsLeads(s, Tally(s, c, 9), Votes(s, c), shard);
    ChosenByVote(s, p, shard);
  }

  lemma ChosenByVote(s: Partition, p: Point, shard: nat)
    requires Sane(s) && Leaf(s, p) !in s.owner && Tally(s, Leaf(s, p), 9) != map[]
    ensures Chosen(s, p, shard) <==> Wins(s, Tally(s, Leaf(s, p), 9), shard)
  {
    hide Leaf, OwnerAt, Tally, FirstLightest, Wins, Sane;
  }

  lemma CountedVote(s: Partition, c: Cell, n: nat)
    requires Sane(s) && n < |s.receivers|
    ensures VotesFor(s, c, 9, n) == (if n in Tally(s, c, 9) then Tally(s, c, 9)[n] else 0)
    ensures n in Tally(s, c, 9) <==> VotesFor(s, c, 9, n) > 0
  {
    TallyCounts(s, c, 9, n);
    TallyIsPositive(s, c, 9, n);
    hide *;
  }

  lemma CountedVotes(s: Partition, c: Cell)
    requires Sane(s)
    ensures |s.receivers| == |s.rate|
    ensures forall n :: 0 <= n < |s.receivers| ==>
              Votes(s, c)[n] == if n in Tally(s, c, 9) then Tally(s, c, 9)[n] else 0
    ensures forall n :: n in Tally(s, c, 9) ==> n < |s.receivers| && Tally(s, c, 9)[n] > 0
  {
    hide Tally, VotesFor;
    forall n: nat | n < |s.receivers|
      ensures VotesFor(s, c, 9, n) == if n in Tally(s, c, 9) then Tally(s, c, 9)[n] else 0
      ensures n in Tally(s, c, 9) ==> Tally(s, c, 9)[n] > 0
    {
      CountedVote(s, c, n);
    }
  }

  lemma {:induction false} TallyIsPositive(s: Partition, c: Cell, j: nat, n: nat)
    requires Sane(s)
    ensures n in Tally(s, c, j) ==> Tally(s, c, j)[n] > 0
    decreases j
  {
    hide Vote, Sane;
    if j > 0 {
      TallyIsPositive(s, c, j - 1, n);
    }
  }

  /**
   * With no vote and no ancestor's shard, a region starts on the first shard that has the lowest rate, and the fewest
   * receivers at that rate.
   */
  lemma LoneChoiceIff(s: Partition, p: Point, shard: nat)
    requires Sane(s) && Leaf(s, p) !in s.owner && OwnerAt(s, p) == None
    requires forall n :: 0 <= n < |s.receivers| ==> VotesFor(s, Leaf(s, p), 9, n) == 0
    ensures Chosen(s, p, shard) <==>
              && shard < |s.receivers|
              && (forall n :: 0 <= n < |s.receivers| ==>
                    s.rate[n] > s.rate[shard] || (s.rate[n] == s.rate[shard] && s.receivers[n] >= s.receivers[shard]))
              && (forall n :: 0 <= n < shard ==>
                    s.rate[n] > s.rate[shard] || (s.rate[n] == s.rate[shard] && s.receivers[n] > s.receivers[shard]))
  {
    var c := Leaf(s, p);
    var votes := Tally(s, c, 9);
    forall n | n in votes
      ensures false
    {
      CountedVote(s, c, n);
    }
    assert votes == map[];
    hide Leaf, OwnerAt, Tally, VotesFor, Sane, Wins;
  }

  /** The siblings nobody owns among the first j positions. */
  function UnclaimedSiblings(s: Partition, c: Cell, j: nat): nat {
    if j == 0 then 0
    else UnclaimedSiblings(s, c, j - 1) + if Sibling(c, j - 1) && CellBeside(c, j - 1) !in s.owner then 1 else 0
  }

  lemma {:induction false} HomeVotes(s: Partition, p: Point, j: nat, home: nat)
    requires TreeSound(s) && OnTheMap(p) && j <= 9 && home < |s.receivers| && HasCapacity(s, home)
    requires Leaf(s, p).level > 0 && Leaf(s, p) !in s.owner && OwnerAt(s, p) == Some(home)
    ensures VotesFor(s, Leaf(s, p), j, home) >= UnclaimedSiblings(s, Leaf(s, p), j)
    decreases j
  {
    hide Vote, OwnerAt, Leaf, Sibling, TreeSound;
    if j > 0 {
      TreeIsSane(s);
      HomeVotes(s, p, j - 1, home);
      if Sibling(Leaf(s, p), j - 1) && CellBeside(Leaf(s, p), j - 1) !in s.owner {
        UnclaimedSiblingVotesHome(s, p, j - 1, home);
      }
    }
  }

  /**
   * A home with capacity gets a vote from every sibling nobody owns yet, so a child is lost only to one shard that gets
   * as many votes: from three neighbours at least when no sibling has been claimed.
   */
  lemma LosingAChildTakesVotes(s: Partition, p: Point, shard: nat, home: nat)
    requires TreeSound(s) && OnTheMap(p) && home < |s.receivers|
    requires s.receivers[home] < s.cap && s.rate[home] < 50_000
    requires Leaf(s, p).level > 0 && Leaf(s, p) !in s.owner && OwnerAt(s, p) == Some(home)
    requires Chosen(s, p, shard) && shard != home
    ensures var c := Leaf(s, p);
            VotesFor(s, c, 9, shard) >= VotesFor(s, c, 9, home) >= UnclaimedSiblings(s, c, 9)
    ensures (forall j :: 0 <= j < 9 && Sibling(Leaf(s, p), j) ==> CellBeside(Leaf(s, p), j) !in s.owner) ==>
              VotesFor(s, Leaf(s, p), 9, shard) >= 3
  {
    var c := Leaf(s, p);
    HomeVotes(s, p, 9, home);
    TallyCounts(s, c, 9, shard);
    TallyCounts(s, c, 9, home);
    hide Leaf, OwnerAt, Tally, TreeSound, Sane, VotesFor, UnclaimedSiblings, Sibling;
    if forall j :: 0 <= j < 9 && Sibling(c, j) ==> CellBeside(c, j) !in s.owner {
      ThreeSiblings(s, c);
    }
  }

  lemma SiblingPositions(c: Cell, j: nat)
    requires j < 9
    ensures var up, right := if c.y % 2 == 0 then 1 else -1, if c.x % 2 == 0 then 1 else -1;
            var (dy, dx) := Offset(j);
            Sibling(c, j) <==> (dy == 0 || dy == up) && (dx == 0 || dx == right) && (dy, dx) != (0, 0)
  {
    HalfStep(c.y, Offset(j).0);
    HalfStep(c.x, Offset(j).1);
  }

  lemma HalfStep(y: int, d: int)
    requires -1 <= d <= 1
    ensures (y + d) / 2 == y / 2 <==> d == 0 || d == if y % 2 == 0 then 1 else -1
  {
  }

  lemma ThreeSiblings(s: Partition, c: Cell)
    requires forall j :: 0 <= j < 9 && Sibling(c, j) ==> CellBeside(c, j) !in s.owner
    ensures UnclaimedSiblings(s, c, 9) == 3
  {
    forall j | 0 <= j < 9
      ensures UnclaimedSiblings(s, c, j + 1) == UnclaimedSiblings(s, c, j) + if Sibling(c, j) then 1 else 0
    {
    }
    SiblingPositions(c, 0);
    SiblingPositions(c, 1);
    SiblingPositions(c, 2);
    SiblingPositions(c, 3);
    SiblingPositions(c, 4);
    SiblingPositions(c, 5);
    SiblingPositions(c, 6);
    SiblingPositions(c, 7);
    SiblingPositions(c, 8);
    hide Sibling;
    assert UnclaimedSiblings(s, c, 0) == 0;
    hide UnclaimedSiblings;
    assert UnclaimedSiblings(s, c, 2 + 1) == UnclaimedSiblings(s, c, 3);
  }

  // ---------------------------------------------------------------- a child that leaves home

  const HOME: Cell := Cell(0, 0, 0)
  const NEXT_DOOR: Cell := Cell(0, 0, 1)

  /** Five-degree cells, two shards capped at 64: one cell just split by its 65th receiver, the cell to its east new. */
  function Crowded(): Partition {
    Partition(5.0, 64, map[HOME := 0, NEXT_DOOR := 1], map[HOME := 65, NEXT_DOOR := 1], {HOME}, [65, 1], [0, 0])
  }

  lemma CellIs(base: real, l: nat, p: Point, n: nat, y: int, x: int)
    requires base > 0.0 && Pow2(l) == n && -32768 <= y <= 32767 && -32768 <= x <= 32767
    requires y as real * base <= p.lat * n as real < (y + 1) as real * base
    requires x as real * base <= p.lon * n as real < (x + 1) as real * base
    ensures CellAt(base, l, p) == Cell(l, y, x)
  {
    IndexIs(p.lat, base, n as real, y);
    IndexIs(p.lon, base, n as real, x);
  }

  lemma IndexIs(v: real, base: real, n: real, i: int)
    requires base > 0.0 && n >= 1.0 && i as real * base <= v * n < (i + 1) as real * base
    ensures (v / (base / n)).Floor == i
  {
    var size := base / n;
    var q := v / size;
    assert q * base == v * n by {
      assert size * n == base && q * size == v;
      assert q * (size * n) == q * size * n;
    }
    Between(q, i as real, base);
    Between(q, (i + 1) as real, base);
    FloorIs(q, i);
  }

  lemma FloorIs(q: real, i: int)
    requires i as real <= q < (i + 1) as real
    ensures q.Floor == i
  {
  }

  lemma Between(q: real, r: real, base: real)
    requires base > 0.0
    ensures q < r <==> q * base < r * base
  {
    if q < r {
      assert (r - q) * base > 0.0;
    } else {
      assert (q - r) * base >= 0.0;
    }
  }

  lemma CrowdedIsSound()
    ensures TreeSound(Crowded())
  {
    var s := Crowded();
    assert Pow2(1) == 2;
    CellIs(5.0, 0, Point(1.0, 1.0), 1, 0, 0);
    CellIs(5.0, 0, Point(1.0, 6.0), 1, 0, 1);
    assert LeadsTo(s, Point(1.0, 1.0), HOME);
    assert LeadsTo(s, Point(1.0, 6.0), NEXT_DOOR);
  }

  lemma CrowdedCells()
    ensures var s := Crowded();
            && CellAt(5.0, 0, Point(1.0, 4.0)) == HOME && CellAt(5.0, 1, Point(1.0, 4.0)) == Cell(1, 0, 1)
            && CellAt(5.0, 0, NeighbourPoint(5.0, Cell(1, 0, 1), 0, 1)) == NEXT_DOOR
  {
    assert Pow2(1) == 2;
    CellIs(5.0, 0, Point(1.0, 4.0), 1, 0, 0);
    CellIs(5.0, 1, Point(1.0, 4.0), 2, 0, 1);
    CellIs(5.0, 0, Point(1.25, 6.25), 1, 0, 1);
    assert NeighbourPoint(5.0, Cell(1, 0, 1), 0, 1) == Point(1.25, 6.25);
  }

  lemma CrowdedOwners()
    ensures var s, p, east := Crowded(), Point(1.0, 4.0), NeighbourPoint(5.0, Cell(1, 0, 1), 0, 1);
            Sane(s) && Leaf(s, p) == Cell(1, 0, 1) && OwnerAt(s, p) == Some(0) && OwnerAt(s, east) == Some(1)
  {
    var s, p, east := Crowded(), Point(1.0, 4.0), NeighbourPoint(5.0, Cell(1, 0, 1), 0, 1);
    CrowdedIsSound();
    CrowdedCells();
    hide CellAt, Pow2, CellSize, Splittable, Reached, NeighbourPoint;
    assert SplitAbove(s, p, 1);
    LeafIsUnique(s, p, 1);
    LeafIsUnique(s, east, 0);
  }

  /** A receiver in the split cell, next to its eastern neighbour, is sent to the neighbour's shard. */
  lemma ChildLeavesHome(shard: nat)
    requires Sane(Crowded()) && Chosen(Crowded(), Point(1.0, 4.0), shard)
    ensures TreeSound(Crowded()) && OwnerAt(Crowded(), Point(1.0, 4.0)) == Some(0) && shard != 0
  {
    CrowdedIsSound();
    CrowdedOwners();
    var s, p := Crowded(), Point(1.0, 4.0);
    hide Leaf, OwnerAt, OwnerFrom, CellAt, NeighbourPoint, Chosen, Tally, Reached, Splittable, TreeSound;
    assert Vote(s, Cell(1, 0, 1), 5) == Some(1);
    FullHomeKeepsChildIff(s, p, shard, 0);
  }

  // ---------------------------------------------------------------- a child outvoted while its home has room

  /** Eight-degree cells and two shards with room: a split cell between three cells of the other shard. */
  function Surrounded(): Partition {
    Partition(8.0, 1000, map[HOME := 0, Cell(0, -1, 0) := 1, Cell(0, -1, 1) := 1, NEXT_DOOR := 1],
              map[HOME := 65, Cell(0, -1, 0) := 1, Cell(0, -1, 1) := 1, NEXT_DOOR := 1], {HOME}, [65, 3], [0, 0])
  }

  const CHILD: Cell := Cell(1, 0, 1)

  lemma SurroundedIsSound()
    ensures TreeSound(Surrounded())
  {
    var s := Surrounded();
    CellIs(8.0, 0, Point(1.0, 1.0), 1, 0, 0);
    CellIs(8.0, 0, Point(-1.0, 1.0), 1, -1, 0);
    CellIs(8.0, 0, Point(-1.0, 9.0), 1, -1, 1);
    CellIs(8.0, 0, Point(1.0, 9.0), 1, 0, 1);
    assert LeadsTo(s, Point(1.0, 1.0), HOME);
    assert LeadsTo(s, Point(-1.0, 1.0), Cell(0, -1, 0));
    assert LeadsTo(s, Point(-1.0, 9.0), Cell(0, -1, 1));
    assert LeadsTo(s, Point(1.0, 9.0), NEXT_DOOR);
  }

  lemma CoarseOwner(s: Partition, q: Point, d: Cell)
    requires Sane(s) && CellAt(s.base, 0, q) == d && d in s.owner && d !in s.split
    ensures OwnerAt(s, q) == Some(s.owner[d])
  {
    LeafIsUnique(s, q, 0);
    hide CellAt, Leaf;
  }

  lemma BesideChild(dy: int, dx: int)
    ensures NeighbourPoint(8.0, CHILD, dy, dx) == Point(2.0 + dy as real * 4.0, 6.0 + dx as real * 4.0)
  {
    assert Pow2(1) == 2;
  }

  lemma OutsideOwner(dy: int, dx: int, y: int, x: int)
    requires -1 <= dy <= 1 && -1 <= dx <= 1 && y == (if dy < 0 then -1 else 0) && x == (if dx <= 0 then 0 else 1)
    requires (y, x) != (0, 0)
    ensures Sane(Surrounded()) && OwnerAt(Surrounded(), NeighbourPoint(8.0, CHILD, dy, dx)) == Some(1)
  {
    var s, q := Surrounded(), NeighbourPoint(8.0, CHILD, dy, dx);
    SurroundedIsSound();
    TreeIsSane(s);
    hide TreeSound, NeighbourPoint, Splittable, CellSize;
    BesideChild(dy, dx);
    CellIs(8.0, 0, q, 1, y, x);
    CoarseOwner(s, q, Cell(0, y, x));
  }

  lemma VoteIsOwner(s: Partition, c: Cell, j: nat, n: nat)
    requires Sane(s) && j < 9 && j != 4 && n < |s.receivers| && HasCapacity(s, n)
    requires OwnerAt(s, NeighbourPoint(s.base, c, Offset(j).0, Offset(j).1)) == Some(n)
    ensures Vote(s, c, j) == Some(n)
  {
    hide OwnerAt, NeighbourPoint, Sane;
  }

  lemma SurroundedChild()
    ensures var s, p := Surrounded(), Point(2.0, 6.0);
            TreeSound(s) && Leaf(s, p) == CHILD && OwnerAt(s, p) == Some(0)
  {
    var s, p := Surrounded(), Point(2.0, 6.0);
    SurroundedIsSound();
    assert Pow2(1) == 2;
    CellIs(8.0, 0, p, 1, 0, 0);
    CellIs(8.0, 1, p, 2, 0, 1);
    hide CellAt, Pow2, CellSize, Splittable, Reached;
    assert SplitAbove(s, p, 1);
    LeafIsUnique(s, p, 1);
    OwnerIsLeafOrParent(s, p);
  }

  lemma SiblingsOfChild(c: Cell)
    requires c == CHILD
    ensures Sibling(c, 3) && Sibling(c, 6) && Sibling(c, 7)
    ensures CellBeside(c, 3).level == CellBeside(c, 6).level == CellBeside(c, 7).level == 1
  {
    SiblingPositions(c, 3);
    SiblingPositions(c, 6);
    SiblingPositions(c, 7);
  }

  lemma InsideVote(s: Partition, p: Point, j: nat)
    requires TreeSound(s) && OnTheMap(p) && j < 9 && 0 < |s.receivers| && HasCapacity(s, 0)
    requires Leaf(s, p) == CHILD && CHILD !in s.owner && OwnerAt(s, p) == Some(0)
    requires Sibling(CHILD, j) && CellBeside(CHILD, j) !in s.owner
    ensures Sane(s) && Vote(s, CHILD, j) == Some(0)
  {
    TreeIsSane(s);
    hide TreeSound, Vote, OwnerAt, Sibling, Sane, HasCapacity, Leaf;
    UnclaimedSiblingVotesHome(s, p, j, 0);
  }

  lemma OutsideVotes()
    ensures var s := Surrounded();
            && Sane(s) && Vote(s, CHILD, 0) == Vote(s, CHILD, 1) == Vote(s, CHILD, 2) == Some(1)
            && Vote(s, CHILD, 5) == Vote(s, CHILD, 8) == Some(1)
  {
    var s := Surrounded();
    OutsideOwner(-1, -1, -1, 0);
    OutsideOwner(-1, 0, -1, 0);
    OutsideOwner(-1, 1, -1, 1);
    OutsideOwner(0, 1, 0, 1);
    OutsideOwner(1, 1, 0, 1);
    assert s.base == 8.0 && |s.receivers| == 2 && HasCapacity(s, 1);
    hide Surrounded, OwnerAt, NeighbourPoint, Sane, Vote, HasCapacity;
    VoteIsOwner(s, CHILD, 0, 1);
    VoteIsOwner(s, CHILD, 1, 1);
    VoteIsOwner(s, CHILD, 2, 1);
    VoteIsOwner(s, CHILD, 5, 1);
    VoteIsOwner(s, CHILD, 8, 1);
  }

  lemma InsideVotes()
    ensures var s := Surrounded();
            && Sane(s) && Vote(s, CHILD, 4) == None
            && Vote(s, CHILD, 3) == Vote(s, CHILD, 6) == Vote(s, CHILD, 7) == Some(0)
  {
    var s, p := Surrounded(), Point(2.0, 6.0);
    hide OwnerAt, TreeSound, Sibling, Leaf, CellBeside, Vote, Sane;
    SurroundedChild();
    SiblingsOfChild(CHILD);
    assert HasCapacity(s, 0) && OnTheMap(p);
    InsideVote(s, p, 3);
    InsideVote(s, p, 6);
    InsideVote(s, p, 7);
    CentreHasNoVote(s, CHILD);
  }

  lemma CentreHasNoVote(s: Partition, c: Cell)
    requires Sane(s)
    ensures Vote(s, c, 4) == None
  {
  }

  lemma VotesAddUp(s: Partition, c: Cell)
    requires Sane(s) && Vote(s, c, 4) == None
    requires Vote(s, c, 0) == Vote(s, c, 1) == Vote(s, c, 2) == Vote(s, c, 5) == Vote(s, c, 8) == Some(1)
    requires Vote(s, c, 3) == Vote(s, c, 6) == Vote(s, c, 7) == Some(0)
    ensures VotesFor(s, c, 9, 1) == 5 && VotesFor(s, c, 9, 0) == 3
  {
    hide Vote, Sane;
    assert VotesFor(s, c, 1, 1) == 1 && VotesFor(s, c, 1, 0) == 0;
    assert VotesFor(s, c, 2, 1) == 2 && VotesFor(s, c, 2, 0) == 0;
    assert VotesFor(s, c, 3, 1) == 3 && VotesFor(s, c, 3, 0) == 0;
    assert VotesFor(s, c, 4, 1) == 3 && VotesFor(s, c, 4, 0) == 1;
    assert VotesFor(s, c, 5, 1) == 3 && VotesFor(s, c, 5, 0) == 1;
    assert VotesFor(s, c, 6, 1) == 4 && VotesFor(s, c, 6, 0) == 1;
    assert VotesFor(s, c, 7, 1) == 4 && VotesFor(s, c, 7, 0) == 2;
    assert VotesFor(s, c, 8, 1) == 4 && VotesFor(s, c, 8, 0) == 3;
  }

  lemma MoreVotesWin(s: Partition, p: Point, shard: nat)
    requires Sane(s) && |s.receivers| == 2 && Leaf(s, p) !in s.owner
    requires VotesFor(s, Leaf(s, p), 9, 1) > VotesFor(s, Leaf(s, p), 9, 0) && Chosen(s, p, shard)
    ensures shard == 1
  {
    TallyCounts(s, Leaf(s, p), 9, 0);
    TallyCounts(s, Leaf(s, p), 9, 1);
    ChosenIsShard(s, p, shard);
    hide Leaf, OwnerAt, VotesFor, Tally, Sane, FirstLightest;
  }

  /** The home shard has room and the votes of all three siblings, and still every choice is the other shard. */
  lemma ChildIsOutvoted(shard: nat)
    requires Sane(Surrounded()) && Chosen(Surrounded(), Point(2.0, 6.0), shard)
    ensures TreeSound(Surrounded()) && HasCapacity(Surrounded(), 0)
    ensures OwnerAt(Surrounded(), Point(2.0, 6.0)) == Some(0) && shard == 1
  {
    var s, p := Surrounded(), Point(2.0, 6.0);
    SurroundedChild();
    OutsideVotes();
    InsideVotes();
    VotesAddUp(s, CHILD);
    assert |s.receivers| == 2 && CHILD !in s.owner && HasCapacity(s, 0);
    hide Surrounded, TreeSound, Leaf, VotesFor, OwnerAt, Chosen, Vote, Sane;
    MoreVotesWin(s, p, shard);
  }

  // ---------------------------------------------------------------- a placement the gate disowns

  const FAR_CELL: Cell := Cell(0, 20000, 0)
  const FARTHER_CELL: Cell := Cell(0, 30000, 0)
  const PINNED: Cell := Cell(1, 32767, 0)

  /** Two coarse cells a hundred thousand degrees out, whose finer cells are pinned to the same index. */
  function Beyond(): Partition {
    Partition(5.0, 1000, map[FAR_CELL := 0, FARTHER_CELL := 1, PINNED := 1],
              map[FAR_CELL := 64, FARTHER_CELL := 65, PINNED := 1], {FARTHER_CELL}, [64, 66], [0, 0])
  }

  lemma PinnedCells()
    ensures CellAt(5.0, 0, Point(100001.0, 1.0)) == FAR_CELL && CellAt(5.0, 0, Point(150001.0, 1.0)) == FARTHER_CELL
    ensures CellAt(5.0, 1, Point(100001.0, 1.0)) == PINNED && CellAt(5.0, 1, Point(150001.0, 1.0)) == PINNED
  {
    assert Pow2(1) == 2;
    CellIs(5.0, 0, Point(100001.0, 1.0), 1, 20000, 0);
    CellIs(5.0, 0, Point(150001.0, 1.0), 1, 30000, 0);
    IndexIs(100001.0, 5.0, 2.0, 40000);
    IndexIs(150001.0, 5.0, 2.0, 60000);
    IndexIs(1.0, 5.0, 2.0, 0);
  }

  lemma BeyondIsSound()
    ensures TreeSound(Beyond()) && Leaf(Beyond(), Point(100001.0, 1.0)) == FAR_CELL
    ensures Splittable(5.0, 0)
  {
    var s := Beyond();
    PinnedCells();
    assert Pow2(1) == 2 && Pow2(2) == 4;
    assert Splittable(5.0, 0) && !Splittable(5.0, 1);
    hide CellAt, Pow2, CellSize, Splittable;
    assert LeadsTo(s, Point(100001.0, 1.0), FAR_CELL);
    assert LeadsTo(s, Point(150001.0, 1.0), FARTHER_CELL);
    assert LeadsTo(s, Point(150001.0, 1.0), PINNED);
    LeafIsUnique(s, Point(100001.0, 1.0), 0);
  }

  /** There an owned cell's arithmetic parent is not split either. */
  lemma PinnedCellHasUnsplitParent()
    ensures TreeSound(Beyond()) && PINNED in Beyond().owner && !Interior(PINNED)
    ensures Cell(0, PINNED.y / 2, PINNED.x / 2) !in Beyond().split
  {
    BeyondIsSound();
  }

  /** There the gate names the other shard right after a placement. */
  lemma PinnedPlacementIsDisowned(shard: nat)
    requires Sane(Beyond()) && Chosen(Beyond(), Point(100001.0, 1.0), shard)
    ensures shard == 0 && TreeSound(Claimed(Beyond(), Point(100001.0, 1.0), shard))
    ensures OwnerAt(Claimed(Beyond(), Point(100001.0, 1.0), shard), Point(100001.0, 1.0)) == Some(1)
  {
    var s, p := Beyond(), Point(100001.0, 1.0);
    BeyondIsSound();
    PinnedCells();
    hide CellAt, CellSize, Pow2, Splittable, Reached, Tally;
    ClaimKeepsTree(s, p, 0);
    var t := Claimed(s, p, 0);
    assert t.split == {FAR_CELL, FARTHER_CELL} && t.owner == s.owner;
    assert SplitAbove(t, p, 1);
    LeafIsUnique(t, p, 1);
    hide Leaf;
  }
}
