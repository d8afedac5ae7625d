# Cidre-Doux simulation model in Dafny

This project models the simulation core of Cidre-Doux, a turn-based hex-map
logistics game. The modelled core covers:

- the world map of hexagonal tiles on an offset-row grid;
- buildings placed on tiles. Every building except the road has a package
  producer and resource consumers that must be fed periodically or the
  building is destroyed; a building may also carry a crossing-cost modifier;
- packages that walk along a path of tiles within a per-turn movement budget;
- the two package actions: deliver a resource, or put up a building.

Everything is stated with immutable datatypes and pure functions. Each C#
method that mutates an object becomes a function from the old state to the
new one. A method that also returns a value becomes a function returning a
pair. A `null` reference becomes `Option.None`.

Modules, in dependency order:

- `Basics`: `Option`, C#'s truncating remainder, and duplicate-free
  sequences.
- `TileLocations`: locations, the map's location comparer, row parity and
  hex adjacency.
- `Parameters`: the default package speed and terrain costs.
- `CrossingCosts`: the blocker, multiplier and replacer modifiers.
- `Kinds`: the enumerations and the two package actions.
- `Consumers`, `Packages`, `Producers`, `Buildings`, `Tiles`, `HexMaps` and
  `Actions`.

Modelling choices:

- A path is a sequence of tile locations.
- Walking reads tile crossing costs through a function `TileLocation -> int`
  that the caller supplies (the map's `Tiles.ComputeCrossingCost`).
- Map generation takes its terrain from a function `TileLocation ->
  BackgroundType` that stands in for the random generator.
- A tile's parent-map reference is modelled as the map's identity (`MapId`).
- The source's multiplier factors are floats. The ones in use (2 and 0.5)
  are modelled as exact rationals, rounded to the nearest integer.
- Turn-advance methods are named `EndTurn` throughout. The source calls them
  `EndTurn` or `ExecuteTurn`, inconsistently between its interface and its
  classes.
- `Building.cs` calls factory methods that `PackageProducer.cs` does not
  define. Their behaviour is modelled as `Producers.CreateResourceProducer`
  and `Producers.CreateBuildProducer`: a resource producer with a delivery
  action, and a build producer with no action. Their delay comes from the
  argument `Building.cs` passes.
- `Building.IsDestroyed` is documented as holding when all consumers are
  destroyed, but the code tests whether any one is. The model follows the
  code (`Buildings.IsDestroyed`).
- The building table produces and consumes `Stone`, so `Stone` is part of
  `ResourceType`, although the enumeration file omits it.

## Model

| member | source | states |
|---|---|---|
| TileLocations.Compare | scripts/model/tile/TileLocation.cs:44-71 | the comparer returns -1, 0 or 1; 0 exactly for equal locations; -1 exactly when the left one comes first by row, then by column |
| TileLocations.CompareTotalOrder | scripts/model/tile/TileLocation.cs:44-71 | the comparer is a total order: transitive (strictly and weakly) and total, so it can key a sorted dictionary |
| TileLocations.CompareAntisymmetric | scripts/model/tile/TileLocation.cs:44-71 | swapping the arguments negates the comparison |
| TileLocations.RowOffset | scripts/model/tile/HexMap.cs:117 | `Abs(row % 2)` with C#'s truncating remainder is the row's parity (0 or 1), negative rows included |
| TileLocations.NeighborLocationsShape | scripts/model/tile/HexMap.cs:117-126 | the six neighbour candidates of a location are pairwise distinct and never the location itself |
| TileLocations.AdjacentByParity | scripts/model/tile/HexMap.cs:117-126 | a neighbour is a same-row tile one column away, or a tile one row up or down in one of the two columns picked by the row parity |
| TileLocations.AdjacentSymmetric | scripts/model/tile/HexMap.cs:117-126 | the neighbour relation is symmetric, although the offsets differ between even and odd rows |
| Parameters.BackgroundCrossingCost | scripts/model/ModelParameters.cs:7-15 | only water has a negative cost (-1); every other terrain costs a positive multiple of the default speed, at most three turns' worth |
| Parameters.TerrainCostOrder | scripts/model/ModelParameters.cs:7-15 | grass costs one turn of default movement; forest costs twice that and mountain three times |
| CrossingCosts.BlockerAlwaysBlocks | scripts/model/building/crossing-cost/CrossingBlocker.cs:9-12 | the blocker gives -1 whatever the base cost |
| CrossingCosts.MultiplierRounds | scripts/model/building/crossing-cost/CrossingCostMultiplier.cs:24-27 | the multiplier's result is within one half of factor × base; it is exact when the product is integral; a zero base gives 0 |
| CrossingCosts.MultiplierMonotone | scripts/model/building/crossing-cost/CrossingCostMultiplier.cs:24-27 | with a non-negative factor, a costlier base never gives a cheaper result |
| CrossingCosts.ApplyModifier | scripts/model/building/crossing-cost/CrossingBlocker.cs:9-12 | the blocker gives -1, the replacer its own value, and the multiplier a result within one half of factor × base |
| CrossingCosts.ReplacerIsConstant | scripts/model/building/crossing-cost/CrossingCostOverride.cs:24-27 | the replacer ignores the base cost, so applying it twice equals applying it once; a replacer by -1 behaves as the blocker |
| Consumers.NewConsumer | scripts/model/building/ResourceConsumer.cs:67-76 | a new consumer keeps its requirement, is not destroyed, has consumed nothing, and has a full cycle of turns left |
| Consumers.Consume | scripts/model/building/ResourceConsumer.cs:79-96 | a unit is accepted exactly when the consumer is alive and the type matches; an accepted unit raises the count by one; otherwise nothing changes |
| Consumers.SurvivesExactlyWhenSatisfied | scripts/model/building/ResourceConsumer.cs:59 | a live consumer on the last turn of its cycle survives exactly when it is satisfied, that is when it has consumed at least the required amount |
| Consumers.EndTurn | scripts/model/building/ResourceConsumer.cs:99-131 | the requirement is kept and a destroyed consumer is frozen. The consumer ends up destroyed exactly when it already was, or its cycle ran out unsatisfied. A running cycle counts down; an expired cycle restarts with nothing consumed |
| Consumers.CycleInvariantPreserved | scripts/model/building/ResourceConsumer.cs:79-131 | the turns left stay between 1 and the delay, and the count stays non-negative, across both operations |
| Consumers.DestructionIsPermanent | scripts/model/building/ResourceConsumer.cs:101-105 | no number of turns revives a destroyed consumer |
| Consumers.DestroyedExactlyAtDelay | scripts/model/building/ResourceConsumer.cs:99-122 | left unfed, a fresh consumer that needs something survives delay - 1 turns and is destroyed from the delay-th turn on |
| Consumers.SatisfiedCycleRestarts | scripts/model/building/ResourceConsumer.cs:114-121 | a consumer satisfied by the last turn of its cycle survives and starts afresh |
| Packages.NewPackage | scripts/model/package/Package.cs:50-62 | a package keeps the whole path. Its remaining path is the path minus the starting tile. It starts at speed 1 with no carried movement |
| Packages.WalkFrom | scripts/model/package/Package.cs:74-93 | the tiles crossed and the tiles left add up to the path; crossing nothing leaves the path as it was; a crossing needs a positive budget and starts with the head of the path |
| Packages.WalkFromSplitsPath | scripts/model/package/Package.cs:74-92 | the crossed tiles followed by the rest are the original path |
| Packages.WalkFromKeepsAtRest | scripts/model/package/Package.cs:74-92 | carried movement stays below the cost of the tile now at the front of the path |
| Packages.WalkFromIsGreedy | scripts/model/package/Package.cs:71-92 | a tile is crossed only if its cost (the first one reduced by the carried movement) fits the budget left. The walk stops only when the budget is spent, the path is exhausted or the next tile does not fit. What it carries over is exactly the unspent budget in the last case |
| Packages.Walk | scripts/model/package/Package.cs:68-94 | walking leaves the cargo, the full path and the speed unchanged |
| Packages.WalkSplitsPath | scripts/model/package/Package.cs:68-94 | the crossed tiles are dequeued from the front of the remaining path, in order |
| Packages.WalksSplitsPath | scripts/model/package/Package.cs:68-94 | over any number of turns, the tiles crossed followed by those still ahead are the remaining path the package started with |
| Packages.WalkKeepsAtRest | scripts/model/package/Package.cs:68-94 | after a turn, the package's carried movement is partial progress into its next tile |
| Packages.WalkWithinBudget | scripts/model/package/Package.cs:71-86 | the tiles crossed in one turn never cost more than that turn's budget plus the carried movement |
| Packages.WalkCrossesLastStep | scripts/model/package/Package.cs:74-86 | a speed-1 package one turn short of its next tile crosses it and nothing else, clearing the carried movement |
| Packages.WalkBanksStep | scripts/model/package/Package.cs:87-91 | a speed-1 package more than one turn short of its next tile crosses nothing and banks the turn's budget |
| Packages.WaitsThenCrosses | scripts/model/package/Package.cs:74-92 | a speed-1 package m turns short of its next tile banks a turn m - 1 times, then crosses that tile alone |
| Packages.CrossesOnKthWalk | scripts/model/package/Package.cs:74-92 | before a tile costing k turns of movement, a speed-1 package banks one turn of movement k - 1 times, then crosses that tile alone |
| Packages.WalkProgresses | scripts/model/package/Package.cs:74-92 | every turn either crosses a tile or banks the whole budget |
| Packages.TurnsToArrive | scripts/model/package/Package.cs:68-94 | every package with a positive speed arrives: a finite number of turns empties its remaining path, whatever the tiles ahead cost, a tile costing -1 included |
| Packages.ArrivalCrossesWholePath | scripts/model/package/Package.cs:50-94 | once a fresh package has arrived, the tiles it crossed over all its turns are its whole path except the origin |
| Producers.CreateResourceProducer | scripts/model/building/PackageProducer.cs:62-68 | a resource producer carries a delivery action and no path, so it cannot produce yet |
| Producers.CreateBuildProducer | scripts/model/building/PackageProducer.cs:70-76 | a build producer has neither action nor path |
| Producers.CanProduceDecidesProduction | scripts/model/building/PackageProducer.cs:91-94 | a producer whose counter has run down produces exactly when it can produce, and it can produce exactly when both its path and its action are set |
| Producers.ProducePackage | scripts/model/building/PackageProducer.cs:97-116 | a package comes out exactly when the counter is 0 and both path and action are set; otherwise nothing changes. The package carries the producer's type, action and path; the counter restarts at the delay; only a build producer loses its action |
| Producers.AssignPath | scripts/model/building/PackageProducer.cs:122-126 | sets or clears the path and nothing else; the producer is then armed exactly when a path was given and it has an action |
| Producers.EndTurn | scripts/model/building/PackageProducer.cs:129-132 | the counter drops by exactly one when the producer is armed and the counter is positive; otherwise it stays put |
| Producers.AssignBuildAction | scripts/model/building/PackageProducer.cs:138-148 | only a build producer takes the order; any other producer is unchanged |
| Producers.BuildProducerIsSingleShot | scripts/model/building/PackageProducer.cs:106-113 | after one emission a build producer is disarmed and its counter frozen; re-armed, its first attempt still fails (the full wait is `Producers.ReArmedWaitsOutDelay`) |
| Producers.ReArmedCounts | scripts/model/building/PackageProducer.cs:97-132 | an armed build producer whose counter stands at its delay counts down one per turn of the turn loop |
| Producers.ReArmedWaitsOutDelay | scripts/model/building/PackageProducer.cs:97-148 | a build producer re-armed after an emission produces nothing for `delay` turns of the turn loop and produces on the next attempt |
| Producers.ResourceProducerCounter | scripts/model/building/PackageProducer.cs:97-132 | an armed resource producer's counter shows the turns still to wait in the current period |
| Producers.ResourceProducerPeriod | scripts/model/building/PackageProducer.cs:97-132 | an armed resource producer with delay D produces on exactly the turns that are multiples of D |
| Buildings.CreateBuilding | scripts/model/building/Building.cs:50-115 | every building starts alive, with fresh consumers. Only the road lacks a producer and consumers. Only the base produces build orders, and only the base blocks. Farm, mine and field have no modifier |
| Buildings.MarketRow | scripts/model/building/Building.cs:104-110 | the market produces gold every 8 turns, needs 2 food every 8 turns, and doubles the crossing cost |
| Buildings.CrossingCostByType | scripts/model/building/Building.cs:153-156 | the base costs -1, a road 6, and the sawmill, harbor and market 24, whatever the terrain; farm, mine and field keep the terrain cost |
| Buildings.ComputeCrossingCost | scripts/model/building/Building.cs:153-156 | without a modifier the building keeps the base cost; a blocker gives -1, a replacer its value, and a multiplier the rounded product of its factor and the default speed |
| Buildings.ModifierIgnoresTerrain | scripts/model/building/Building.cs:153-156 | a building with a modifier applies it to the default speed, so the terrain cost is irrelevant |
| Buildings.IsDestroyed | scripts/model/building/Building.cs:27 | a building is destroyed exactly when some consumer is destroyed, so a building without consumers never is |
| Buildings.ProducePackage | scripts/model/building/Building.cs:159-163 | a destroyed building, or one without a producer, produces nothing and does not change; otherwise the producer's result is passed on; only the producer part changes |
| Buildings.ConsumeFirstHitsFirst | scripts/model/building/Building.cs:166-173 | the offered unit is counted by the first consumer in list order that accepts it, and no other consumer changes |
| Buildings.ConsumeDelivers | scripts/model/building/Building.cs:166-173 | a delivery raises exactly the first accepting consumer's count by one; when no consumer accepts, the building is unchanged |
| Buildings.Consume | scripts/model/building/Building.cs:166-173 | a delivery changes only the consumers, and never whether the building is destroyed |
| Buildings.FirstAcceptorExists | scripts/model/building/Building.cs:169 | when some consumer accepts the resource, a first one does, at or before it |
| Buildings.AssignPath | scripts/model/building/Building.cs:179-182 | the path is handed to the producer, which takes it as its own `AssignPath` says; nothing else in the building changes |
| Buildings.EndTurn | scripts/model/building/Building.cs:185-193 | every consumer and the producer advance by one turn; nothing else changes; a destroyed building stays destroyed |
| Buildings.OtherDeliveriesKeepCycles | scripts/model/building/Building.cs:166-173 | on a building whose first consumer wants stone and whose second is alive, deliveries without stone leave the first consumer as it was and the second alive with its turns left unchanged |
| Buildings.BaseFallsWithoutStone | scripts/model/building/Building.cs:54-64 | a new base that receives any deliveries but stone before its first turn survives four turns, is destroyed on the fifth and stays destroyed |
| Buildings.RoadIsNeverDestroyed | scripts/model/building/Building.cs:84-90 | a road has no consumers, so it is never destroyed and deliveries do not change it |
| Tiles.NewTile | scripts/model/tile/Tile.cs:75-80 | a new tile has the given location, terrain and parent map, and no building |
| Tiles.OffsetTablesMatchNeighborLocations | scripts/model/tile/Tile.cs:45-66 | the tile's offset table for the row parity, added to the location, lists the map's six neighbour candidates in the same order |
| Tiles.IsNeighbor | scripts/model/tile/Tile.cs:109-121 | tiles without a map, or from different maps, are never neighbours |
| Tiles.IsNeighborMirrors | scripts/model/tile/Tile.cs:109-121 | the test as written holds exactly when both tiles are in one map and the other tile's mirror image through this tile is adjacent |
| Tiles.IsNeighborIrreflexive | scripts/model/tile/Tile.cs:109-121 | even as written, a tile is never its own neighbour |
| Tiles.IsNeighborMissesUpperLeft | scripts/model/tile/Tile.cs:119-120 | (0,0) and (-1,-1) of one map are adjacent, but the test as written rejects them while the corrected test accepts them |
| Tiles.IsNeighborCorrected | scripts/model/tile/Tile.cs:109-121 | holds exactly when both tiles are in one map and the other tile is adjacent |
| Tiles.NegatedTables | scripts/model/tile/Tile.cs:45-66 | each offset table holds exactly the negations of the other's offsets |
| Tiles.SwappedTablesRepairToo | scripts/model/tile/Tile.cs:119-120 | keeping the subtraction as written but letting each row parity select the other table gives exactly the corrected test |
| Tiles.IsNeighborCorrectedSymmetric | scripts/model/tile/Tile.cs:109-121 | the corrected test is symmetric and never holds for a tile and itself |
| Tiles.Build | scripts/model/tile/Tile.cs:127-139 | an empty tile gets the new building; a tile with a building is unchanged |
| Tiles.BuildKeepsFirstBuilding | scripts/model/tile/Tile.cs:130-134 | a second build order never replaces the first building |
| Tiles.Consume | scripts/model/tile/Tile.cs:145-155 | an empty tile ignores deliveries; otherwise the building consumes and nothing else changes |
| Tiles.AssignPath | scripts/model/tile/Tile.cs:158-161 | only the building's producer path changes |
| Tiles.EndTurn | scripts/model/tile/Tile.cs:176-179 | only the building advances by one turn |
| Tiles.ComputeCrossingCost | scripts/model/tile/Tile.cs:166-173 | an empty tile, or one whose building has no modifier, costs its terrain's cost; a building's modifier applied to the default speed decides the cost of any other tile, whatever its terrain |
| Tiles.CrossingCostAfterBuild | scripts/model/tile/Tile.cs:166-173 | a freshly built tile costs -1 under the base, 6 under a road, 24 under a sawmill, harbor or market, and its terrain cost otherwise; it is impassable exactly under the base, or on water under a farm, mine or field |
| HexMaps.SquareLocs | scripts/model/tile/HexMap.cs:175-188 | the creation loops visit every location of the square of the map's size exactly once |
| HexMaps.GrowLocs | scripts/model/tile/HexMap.cs:47-59 | for size s >= 0 the growth loops visit 8(s + 1) distinct locations: exactly those in the square of size s + 1 but not of size s |
| HexMaps.GrowLocsRepeatsCentre | scripts/model/tile/HexMap.cs:47-59 | at size -1 the growth loops visit the centre twice |
| HexMaps.PlaceTiles | scripts/model/tile/HexMap.cs:196-205 | adding tiles succeeds exactly when the locations are distinct and not yet taken. Then the keys are the old keys plus the new locations. Old tiles are untouched and every new tile is an empty tile of this map with the generated terrain |
| HexMaps.Create | scripts/model/tile/HexMap.cs:35-42 | a new map covers exactly the square of its size, every tile sits at its location with the generated terrain, and only the centre holds a building, the base |
| HexMaps.Grow | scripts/model/tile/HexMap.cs:45-63 | a successful growth adds one to the size, keeps every old tile, buildings included, and adds only empty tiles |
| HexMaps.GrowFailsAtMinusOne | scripts/model/tile/HexMap.cs:45-63 | growing a map of size -1 fails, because the same location is added twice |
| HexMaps.GrowKeepsShape | scripts/model/tile/HexMap.cs:45-63 | growing a well-shaped map of size s >= 0 succeeds; the result is well-shaped, of size s + 1, and its new tiles form the ring at distance s + 1 |
| HexMaps.ShapedKeyCount | scripts/model/tile/HexMap.cs:169-189 | a well-shaped map holds exactly one tile per location of its square |
| HexMaps.SquareCount | scripts/model/tile/HexMap.cs:175-188 | the creation loops visit (2s + 1)^2 locations for a map of size s >= 0 |
| HexMaps.GrowTileCount | scripts/model/tile/HexMap.cs:45-63 | growing a well-shaped map of size s >= 0 adds exactly 8(s + 1) tiles |
| HexMaps.GrowAddsOnePerLocation | scripts/model/tile/HexMap.cs:45-63 | a successful growth adds exactly one tile per location its loops generate |
| HexMaps.GetTile | scripts/model/tile/HexMap.cs:98-107 | a tile comes back exactly when the location is in the map, and it is the one stored there |
| HexMaps.GetNeighbors | scripts/model/tile/HexMap.cs:114-130 | at most six tiles, each stored in the map, adjacent to the location and distinct from it; every adjacent stored tile is listed |
| HexMaps.InteriorHasSixNeighbors | scripts/model/tile/HexMap.cs:114-130 | away from the border of a well-shaped map, every location has all six neighbours |
| HexMaps.GetNeighborsSymmetric | scripts/model/tile/HexMap.cs:114-130 | b is listed among a's neighbours exactly when a is listed among b's |
| HexMaps.IsNeighborCorrectedMatchesGetNeighbors | scripts/model/tile/Tile.cs:109-121 | on a map's own tiles the corrected neighbourhood test agrees with the map's neighbour list |
| Actions.PerformAction | scripts/model/package/action/DeliveryAction.cs:25-29 | a delivery keeps the building and its destruction state; a build order puts the new building on an empty tile and leaves a built tile alone; location, terrain and map are kept |
| Actions.UnwantedDeliveryIsLost | scripts/model/package/action/DeliveryAction.cs:25-29 | a delivery to an empty tile, or of a resource that no consumer accepts, changes nothing |
| Actions.PerformAt | scripts/model/package/action/BuildAction.cs:26-30 | performing an action at a location changes at most that tile; the map's keys, size and shape are kept |

## Left out

- A* path finding: it is not part of the model files. Paths are inputs.
- The whole-turn step: `HexMap.EndTurn` and `Tile.ProducePackage` are called by the game controller but not defined in the map and tile files. Turns are modelled per component: `Consumers.EndTurns`, `Producers.Cycles`, `Buildings.EndTurns` and `Packages.Walks`.
- Arrival actions are run by the view's animation callback, not by the model. The model offers `Actions.PerformAt` but does not tie it to a package's arrival.
- Random terrain: the generator is a parameter (`HexMaps.Terrain`).
- Logging (`GD.Print`/`GD.PrintErr`) and the string renderings (`ToString`, `ToStringMap`) are left out.
- `Tile.GetNeighbors` is left out: it only forwards to its parent map, which is modelled by `HexMaps.GetNeighbors`.
- Building parameters loaded as engine resources, and `PackageProducer.CreateProducer` with its parameter constructors, are left out. The delays and amounts are the constants `Building.cs` passes.
- The `default` branch of `Building.CreateBuilding` (an out-of-range enum value gives null) is left out: the Dafny enumeration is closed.
- 32-bit overflow of `int` counters and of `uint` turn counters is left out: all counters are unbounded.
- Buildings.ComputeCrossingCost, CrossingCosts.ApplyModifier: float arithmetic is replaced by exact rationals. `Mathf.RoundToInt` of a float product is modelled as rounding of the exact product to the nearest integer. A tie goes to the even neighbour, but no contract depends on the tie rule.
- Packages.NewPackage: an empty path is excluded by a precondition, because dequeuing its first tile throws.
- Producers.ProducePackage, Buildings.ProducePackage: a producer about to emit (counter at 0, with path and action set) must hold a non-empty path, for the same reason. A live building's producer must meet this too; a destroyed building produces nothing and is not constrained. The turn-loop functions `Producers.Cycle` and `Producers.Cycles` ask more: every assigned path is non-empty, because a later turn may emit.
- Buildings.EndTurn, Buildings.AssignPath, Tiles.EndTurn, Tiles.AssignPath: these require the producer (and the building) to be present, because the source dereferences them without checking and would throw.
- HexMaps.Grow, HexMaps.PlaceTiles: a dictionary `Add` on a taken key throws. This is modelled as `None`, leaving the partly grown map unmodelled.
- Packages.Walks, Packages.WaitsThenCrosses, Packages.CrossesOnKthWalk, Packages.TurnsToArrive: one cost function serves every turn, so these assume no tile's cost changes between turns. In the game a building put up between turns changes a tile's cost, which the walk reads afresh at each step.
- Packages.TurnsToArrive: it needs a speed of at least 1. Every package the source creates has speed 1, a read-only field (scripts/model/package/Package.cs:37 and 59); with speed 0 a package would never move.

## Findings

| source | as written | input that shows it | evidently intended | confidence | as-written member | corrected member |
|---|---|---|---|---|---|---|
| scripts/model/tile/Tile.cs:119-120 | the relative position is this tile's location minus the other's, looked up in the offset table of this tile's row parity; that tests whether the other tile's mirror image through this tile is a neighbour | this = (0,0) and other = (-1,-1) in the same map: (-1,-1) is the upper-left neighbour of (0,0) (row 0 uses offsets (-1,-1) and (0,-1) upward), but the code looks up (1,1), which is not in the table, and answers false | the relative position is the other's location minus this one's, which makes the test agree with `HexMap.GetNeighbors`. Keeping the subtraction but swapping which table each row parity selects is an equivalent repair: the table named `Odd` (scripts/model/tile/Tile.cs:45-53) holds the even-row offsets, and its negation is the `Even` table as a set (`Tiles.SwappedTablesRepairToo`) | high (proved in the model; not executed) | Tiles.IsNeighborMissesUpperLeft | Tiles.IsNeighborCorrected |
