/** A package travels along a path of tiles, crossing as many as its
    per-turn movement budget allows, and carries partial progress into a
    tile over to the next turn. */
module Packages {
  import opened Kinds
  import opened TileLocations
  import opened Parameters

  datatype Package = Package(
    packageType: PackageType,
    actionHandler: PackageAction,
    completePath: seq<TileLocation>,
    remainingPath: seq<TileLocation>,
    speed: int,
    leftoverMovement: int)

  /** The crossing cost of the tile at each location, as the map reports it
      while the package walks. */
  type CostOf = TileLocation -> int

  /** A new package starts on the first tile of its path, which it never
      needs to cross. */
  function NewPackage(packageType: PackageType, action: PackageAction, path: seq<TileLocation>): (p: Package)
    requires |path| >= 1
    ensures p.packageType == packageType && p.actionHandler == action
    ensures p.completePath == path
    ensures [path[0]] + p.remainingPath == path
    ensures p.leftoverMovement == 0 && p.speed == 1
  {
    Package(packageType, action, path, path[1..], 1, 0)
  }

  /** The movement a package may spend in one turn. */
  function TurnBudget(p: Package): int {
    p.speed * DefaultPackageSpeed
  }

  /** Total (undiscounted) crossing cost of a sequence of tiles. */
  function SumCost(tiles: seq<TileLocation>, cost: CostOf): int {
    if |tiles| == 0 then 0 else cost(tiles[0]) + SumCost(tiles[1..], cost)
  }

  /** The state a package is left in between turns: any carried-over
      movement is partial progress into the next tile, so it is less than
      that tile's cost. */
  predicate AtRest(path: seq<TileLocation>, leftover: int, cost: CostOf) {
    leftover >= 0 && (leftover > 0 ==> |path| > 0 && leftover < cost(path[0]))
  }

  /** One turn of walking: the tiles crossed, the path still ahead, and the
      movement carried into the next turn. */
  datatype Stride = Stride(crossed: seq<TileLocation>, rest: seq<TileLocation>, leftover: int)

  /** The walking loop, from a remaining budget and carried movement.  A tile
      is crossed when its cost, discounted by the carried movement, fits the
      budget; crossing charges the FULL cost and clears the carried
      movement.  Otherwise the unspent budget is carried over and the turn
      ends; it also ends once the budget is no longer positive. */
  function WalkFrom(path: seq<TileLocation>, budget: int, leftover: int, cost: CostOf): (s: Stride)
    decreases |path|
    ensures |s.crossed| + |s.rest| == |path|
    ensures |s.crossed| == 0 ==> s.rest == path
    ensures |s.crossed| > 0 ==> budget > 0 && s.crossed[0] == path[0]
  {
    if budget <= 0 || |path| == 0 then Stride([], path, leftover)
    else
      var c := cost(path[0]);
      if c - leftover <= budget then
        var s := WalkFrom(path[1..], budget - c, 0, cost);
        Stride([path[0]] + s.crossed, s.rest, s.leftover)
      else
        Stride([], path, leftover + budget)
  }

  /** Everything about a package except its progress along the path. */
  predicate SameCargo(p: Package, q: Package) {
    p.packageType == q.packageType && p.actionHandler == q.actionHandler &&
    p.completePath == q.completePath && p.speed == q.speed
  }

  /** One turn of walking: the tiles crossed and the package after it. */
  function Walk(p: Package, cost: CostOf): (r: (seq<TileLocation>, Package))
    ensures SameCargo(r.1, p)
  {
    var s := WalkFrom(p.remainingPath, TurnBudget(p), p.leftoverMovement, cost);
    (s.crossed, p.(remainingPath := s.rest, leftoverMovement := s.leftover))
  }

  /** The walk splits the path: the tiles crossed, then the tiles still
      ahead, are the path it started from. */
  lemma {:induction false} WalkFromSplitsPath(path: seq<TileLocation>, budget: int, leftover: int, cost: CostOf)
    ensures var s := WalkFrom(path, budget, leftover, cost);
      s.crossed + s.rest == path
    decreases |path|
  {
    if budget > 0 && |path| > 0 && cost(path[0]) - leftover <= budget {
      var s := WalkFrom(path[1..], budget - cost(path[0]), 0, cost);
      WalkFromSplitsPath(path[1..], budget - cost(path[0]), 0, cost);
      ConsSplit(path, s.crossed, s.rest);
    }
  }

  lemma ConsSplit(path: seq<TileLocation>, crossed: seq<TileLocation>, rest: seq<TileLocation>)
    requires |path| > 0 && crossed + rest == path[1..]
    ensures ([path[0]] + crossed) + rest == path
  {
    assert ([path[0]] + crossed) + rest == [path[0]] + (crossed + rest);
  }

  /** The tiles crossed in a turn are dequeued from the front of the
      remaining path, in order. */
  lemma WalkSplitsPath(p: Package, cost: CostOf)
    ensures Walk(p, cost).0 + Walk(p, cost).1.remainingPath == p.remainingPath
  {
    WalkFromSplitsPath(p.remainingPath, TurnBudget(p), p.leftoverMovement, cost);
  }

  lemma SumCostCons(x: TileLocation, ys: seq<TileLocation>, cost: CostOf)
    ensures SumCost([x] + ys, cost) == cost(x) + SumCost(ys, cost)
  {
    assert ([x] + ys)[1..] == ys;
  }

  lemma {:induction false} SumCostSnoc(xs: seq<TileLocation>, cost: CostOf)
    requires |xs| > 0
    ensures SumCost(xs, cost) == SumCost(xs[..|xs| - 1], cost) + cost(xs[|xs| - 1])
  {
    if |xs| > 1 {
      SumCostSnoc(xs[1..], cost);
      assert xs[1..][..|xs[1..]| - 1] == xs[..|xs| - 1][1..];
    }
  }

  /** The walk is greedy and exact.  It crosses a tile only when that fits
      (the first one discounted by the carried movement), it stops only when
      the budget is spent, the path is exhausted or the next tile does not
      fit, and the movement it carries over is the unspent budget in the
      last case and nothing otherwise once a tile was crossed. */
  lemma {:induction false} WalkFromIsGreedy(path: seq<TileLocation>, budget: int, leftover: int, cost: CostOf)
    ensures var s := WalkFrom(path, budget, leftover, cost);
      && (|s.crossed| > 0 ==> budget > 0 && cost(path[0]) - leftover <= budget)
      && (forall k :: 1 <= k < |s.crossed| ==>
            0 < budget - SumCost(s.crossed[..k], cost) &&
            cost(s.crossed[k]) <= budget - SumCost(s.crossed[..k], cost))
      && (|s.rest| > 0 && budget - SumCost(s.crossed, cost) > 0 ==>
            cost(s.rest[0]) - (if |s.crossed| == 0 then leftover else 0) > budget - SumCost(s.crossed, cost))
      && s.leftover == (if |s.crossed| == 0 then
                          (if budget > 0 && |path| > 0 then leftover + budget else leftover)
                        else if |s.rest| > 0 && budget - SumCost(s.crossed, cost) > 0 then
                          budget - SumCost(s.crossed, cost)
                        else 0)
  {
    var s := WalkFrom(path, budget, leftover, cost);
    if budget > 0 && |path| > 0 && cost(path[0]) - leftover <= budget {
      var x := path[0];
      var b1 := budget - cost(x);
      var t := WalkFrom(path[1..], b1, 0, cost);
      WalkFromIsGreedy(path[1..], b1, 0, cost);
      WalkFromSplitsPath(path[1..], b1, 0, cost);
      assert s.crossed == [x] + t.crossed;
      SumCostCons(x, t.crossed, cost);
      FitsAfterFirst(x, t.crossed, budget, cost);
    }
  }

  /** Every tile after the first of a turn fits what is left of the budget
      once the tiles before it are paid, given that this holds for the
      tiles after `x` with `x` already paid for. */
  lemma FitsAfterFirst(x: TileLocation, ts: seq<TileLocation>, budget: int, cost: CostOf)
    requires |ts| > 0 ==> 0 < budget - cost(x) && cost(ts[0]) <= budget - cost(x)
    requires forall k :: 1 <= k < |ts| ==>
               0 < budget - cost(x) - SumCost(ts[..k], cost) &&
               cost(ts[k]) <= budget - cost(x) - SumCost(ts[..k], cost)
    ensures var xs := [x] + ts;
      forall k :: 1 <= k < |xs| ==>
        0 < budget - SumCost(xs[..k], cost) && cost(xs[k]) <= budget - SumCost(xs[..k], cost)
  {
    var xs := [x] + ts;
    forall k | 1 <= k < |xs|
      ensures 0 < budget - SumCost(xs[..k], cost)
      ensures cost(xs[k]) <= budget - SumCost(xs[..k], cost)
    {
      assert xs[..k] == [x] + ts[..k - 1];
      SumCostCons(x, ts[..k - 1], cost);
      assert xs[k] == ts[k - 1];
      if k == 1 {
        assert ts[..0] == [];
      }
    }
  }

  /** The tiles crossed in one turn never cost more than the turn's budget
      plus the movement carried into it. */
  lemma WalkWithinBudget(p: Package, cost: CostOf)
    requires p.speed >= 1 && p.leftoverMovement >= 0
    ensures SumCost(Walk(p, cost).0, cost) <= TurnBudget(p) + p.leftoverMovement
  {
    var s := WalkFrom(p.remainingPath, TurnBudget(p), p.leftoverMovement, cost);
    WalkFromIsGreedy(p.remainingPath, TurnBudget(p), p.leftoverMovement, cost);
    assert Walk(p, cost).0 == s.crossed;
    var n := |s.crossed|;
    if n > 0 {
      SumCostSnoc(s.crossed, cost);
      assert SumCost(s.crossed, cost) == SumCost(s.crossed[..n - 1], cost) + cost(s.crossed[n - 1]);
      if n == 1 {
        assert s.crossed[..0] == [];
        assert s.crossed[0] == p.remainingPath[0];
      } else {
        assert cost(s.crossed[n - 1]) <= TurnBudget(p) - SumCost(s.crossed[..n - 1], cost);
      }
    }
  }

  /** Walking keeps a package at rest: movement carried over is always
      partial progress into the tile now at the front of the path. */
  lemma {:induction false} WalkFromKeepsAtRest(path: seq<TileLocation>, budget: int, leftover: int, cost: CostOf)
    requires AtRest(path, leftover, cost)
    ensures var s := WalkFrom(path, budget, leftover, cost);
      AtRest(s.rest, s.leftover, cost)
    decreases |path|
  {
    if budget > 0 && |path| > 0 && cost(path[0]) - leftover <= budget {
      WalkFromKeepsAtRest(path[1..], budget - cost(path[0]), 0, cost);
    }
  }

  lemma WalkKeepsAtRest(p: Package, cost: CostOf)
    requires AtRest(p.remainingPath, p.leftoverMovement, cost)
    ensures var q := Walk(p, cost).1;
      AtRest(q.remainingPath, q.leftoverMovement, cost)
  {
    WalkFromKeepsAtRest(p.remainingPath, TurnBudget(p), p.leftoverMovement, cost);
  }

  /** `n` successive turns of walking, with every tile crossed on the way. */
  function Walks(p: Package, cost: CostOf, n: nat): (r: (seq<TileLocation>, Package))
    ensures SameCargo(r.1, p)
    decreases n
  {
    if n == 0 then ([], p)
    else
      var w := Walk(p, cost);
      var ws := Walks(w.1, cost, n - 1);
      (w.0 + ws.0, ws.1)
  }

  /** A package of speed 1 whose next tile costs exactly one more turn of
      movement crosses it, and only it, this turn. */
  lemma WalkCrossesLastStep(p: Package, cost: CostOf)
    requires p.speed == 1 && |p.remainingPath| > 0 && p.leftoverMovement >= 0
    requires cost(p.remainingPath[0]) - p.leftoverMovement == DefaultPackageSpeed
    ensures Walk(p, cost) ==
              ([p.remainingPath[0]], p.(remainingPath := p.remainingPath[1..], leftoverMovement := 0))
  {
    var path := p.remainingPath;
    assert TurnBudget(p) == DefaultPackageSpeed;
    var budget := DefaultPackageSpeed - cost(path[0]);
    assert budget <= 0;
    assert WalkFrom(path[1..], budget, 0, cost) == Stride([], path[1..], 0);
    assert [path[0]] + [] == [path[0]];
  }

  /** A package of speed 1 whose next tile costs more than one more turn of
      movement banks the turn's budget and crosses nothing. */
  lemma WalkBanksStep(p: Package, cost: CostOf)
    requires p.speed == 1 && |p.remainingPath| > 0
    requires cost(p.remainingPath[0]) - p.leftoverMovement > DefaultPackageSpeed
    ensures Walk(p, cost) == ([], p.(leftoverMovement := p.leftoverMovement + DefaultPackageSpeed))
  {
    assert TurnBudget(p) == DefaultPackageSpeed;
  }

  /** One turn of walking, seen as a run of turns. */
  lemma WalksOfOne(p: Package, cost: CostOf)
    ensures Walks(p, cost, 1) == Walk(p, cost)
  {
    var r := Walk(p, cost);
    assert Walks(r.1, cost, 0) == ([], r.1);
    assert r.0 + [] == r.0;
  }

  /** A turn that crosses nothing only delays the turns after it. */
  lemma WalksAfterIdleTurn(p: Package, cost: CostOf, q: Package, n: nat)
    requires Walk(p, cost) == ([], q)
    ensures Walks(p, cost, n + 1) == Walks(q, cost, n)
  {
    var r := Walks(q, cost, n);
    assert [] + r.0 == r.0;
  }

  /** Turns of movement add up linearly. */
  lemma SpeedMultiples(k: int, i: int)
    ensures k * DefaultPackageSpeed - i * DefaultPackageSpeed == (k - i) * DefaultPackageSpeed
    ensures k * DefaultPackageSpeed - DefaultPackageSpeed == (k - 1) * DefaultPackageSpeed
    ensures k >= i ==> k * DefaultPackageSpeed >= i * DefaultPackageSpeed
  {
  }

  /** A package of speed 1 that still needs m full turns of movement to
      cross its next tile banks a turn's budget m - 1 times and crosses
      that tile alone on the m-th turn. */
  lemma {:induction false} WaitsThenCrosses(p: Package, cost: CostOf, m: nat)
    requires p.speed == 1 && |p.remainingPath| > 0 && p.leftoverMovement >= 0 && m >= 1
    requires cost(p.remainingPath[0]) - p.leftoverMovement == m * DefaultPackageSpeed
    ensures Walks(p, cost, m - 1) ==
              ([], p.(leftoverMovement := cost(p.remainingPath[0]) - DefaultPackageSpeed))
    ensures Walks(p, cost, m) ==
              ([p.remainingPath[0]], p.(remainingPath := p.remainingPath[1..], leftoverMovement := 0))
    decreases m
  {
    if m == 1 {
      WalkCrossesLastStep(p, cost);
      WalksOfOne(p, cost);
    } else {
      SpeedMultiples(m, 1);
      SpeedMultiples(m - 1, 1);
      WalkBanksStep(p, cost);
      var q := p.(leftoverMovement := p.leftoverMovement + DefaultPackageSpeed);
      WaitsThenCrosses(q, cost, m - 1);
      WalksAfterIdleTurn(p, cost, q, m - 2);
      WalksAfterIdleTurn(p, cost, q, m - 1);
    }
  }

  /** Over any number of turns, the tiles crossed followed by the tiles
      still ahead are the remaining path the package started with. */
  lemma {:induction false} WalksSplitsPath(p: Package, cost: CostOf, n: nat)
    ensures Walks(p, cost, n).0 + Walks(p, cost, n).1.remainingPath == p.remainingPath
    decreases n
  {
    if n > 0 {
      var w := Walk(p, cost);
      var ws := Walks(w.1, cost, n - 1);
      WalkSplitsPath(p, cost);
      WalksSplitsPath(w.1, cost, n - 1);
      assert w.0 + ws.0 + ws.1.remainingPath == w.0 + (ws.0 + ws.1.remainingPath);
    }
  }

  /** A package that has just reached a tile costing k turns of movement,
      having banked i of them, waits k - i - 1 more turns and crosses that
      tile alone on the next one. */
  lemma CrossesOnKthWalk(p: Package, cost: CostOf, k: nat, i: nat)
    requires p.speed == 1 && |p.remainingPath| > 0
    requires cost(p.remainingPath[0]) == k * DefaultPackageSpeed
    requires i < k && p.leftoverMovement == i * DefaultPackageSpeed
    ensures Walks(p, cost, k - i - 1) == ([], p.(leftoverMovement := (k - 1) * DefaultPackageSpeed))
    ensures Walks(p, cost, k - i) ==
              ([p.remainingPath[0]], p.(remainingPath := p.remainingPath[1..], leftoverMovement := 0))
  {
    SpeedMultiples(k, i);
    WaitsThenCrosses(p, cost, k - i);
  }

  /** Each turn of walking makes progress: it crosses a tile, or (budget
      permitting) banks the whole budget as movement into the next one. */
  lemma WalkProgresses(p: Package, cost: CostOf)
    requires TurnBudget(p) > 0 && |p.remainingPath| > 0
    ensures var q := Walk(p, cost).1;
      |q.remainingPath| < |p.remainingPath| ||
      (q.remainingPath == p.remainingPath && q.leftoverMovement == p.leftoverMovement + TurnBudget(p))
  {
    WalkFromIsGreedy(p.remainingPath, TurnBudget(p), p.leftoverMovement, cost);
    WalkSplitsPath(p, cost);
  }

  /** Every package with a positive speed arrives, whatever the tiles
      ahead cost (a tile costing -1, such as the base's, is crossed as soon
      as it is reached): this many turns of walking empty its remaining
      path. */
  function TurnsToArrive(p: Package, cost: CostOf): (n: nat)
    requires p.speed >= 1
    ensures Walks(p, cost, n).1.remainingPath == []
    decreases |p.remainingPath|,
              if |p.remainingPath| > 0 && cost(p.remainingPath[0]) - p.leftoverMovement > 0
              then cost(p.remainingPath[0]) - p.leftoverMovement else 0
  {
    if |p.remainingPath| == 0 then 0
    else
      var r := Walk(p, cost);
      WalkProgresses(p, cost);
      1 + TurnsToArrive(r.1, cost)
  }

  /** Walking loses no tile: once a fresh package has arrived, the tiles it
      crossed over all its turns are its whole path except the origin. */
  lemma ArrivalCrossesWholePath(packageType: PackageType, action: PackageAction,
                                path: seq<TileLocation>, cost: CostOf, n: nat)
    requires |path| >= 1
    requires Walks(NewPackage(packageType, action, path), cost, n).1.remainingPath == []
    ensures Walks(NewPackage(packageType, action, path), cost, n).0 == path[1..]
    ensures |Walks(NewPackage(packageType, action, path), cost, n).0| == |path| - 1
  {
    var p := NewPackage(packageType, action, path);
    assert p.remainingPath == path[1..];
    WalksSplitsPath(p, cost, n);
    var crossed := Walks(p, cost, n).0;
    assert crossed + [] == crossed;
  }
}
