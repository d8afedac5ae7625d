/** A tile of the hexagonal world: a fixed location and terrain, the map it
    belongs to, and at most one building, which can be added once and never
    replaced. */
module Tiles {
  import opened Basics
  import opened Kinds
  import opened TileLocations
  import opened Parameters
  import opened CrossingCosts
  import B = Buildings

  /** The identity of a map; a tile's parent reference is compared by it. */
  type MapId = nat

  datatype Tile = Tile(
    location: TileLocation,
    background: BackgroundType,
    parentMap: Option<MapId>,
    building: Option<B.Building>)

  /** A new tile carries no building. */
  function NewTile(location: TileLocation, background: BackgroundType, parent: Option<MapId>): (t: Tile)
    ensures t.location == location && t.background == background && t.parentMap == parent
    ensures t.building == None
  {
    Tile(location, background, parent, None)
  }

  /** Offsets from a tile on a row with offset 0 (an even row) to its six
      neighbours.  The source calls this table the "odd" one. */
  const OddNeighborsRelativeLocations: seq<TileLocation> := [
    TileLocation(-1, 0), TileLocation(-1, -1), TileLocation(0, -1),
    TileLocation(1, 0), TileLocation(0, 1), TileLocation(-1, 1)]

  /** Offsets from a tile on a row with offset 1 (an odd row). */
  const EvenNeighborsRelativeLocations: seq<TileLocation> := [
    TileLocation(-1, 0), TileLocation(0, -1), TileLocation(1, -1),
    TileLocation(1, 0), TileLocation(1, 1), TileLocation(0, 1)]

  /** The offset table the tile's row parity selects. */
  function OffsetTable(row: int): (table: seq<TileLocation>)
    ensures |table| == 6
  {
    if RowOffset(row) == 0 then OddNeighborsRelativeLocations else EvenNeighborsRelativeLocations
  }

  function Shift(loc: TileLocation, offset: TileLocation): TileLocation {
    TileLocation(loc.column + offset.column, loc.row + offset.row)
  }

  /** The tile's offset tables and the map's neighbour formula agree:
      adding the selected table to a location lists its neighbours, in the
      same order. */
  lemma OffsetTablesMatchNeighborLocations(loc: TileLocation)
    ensures forall k :: 0 <= k < 6 ==> Shift(loc, OffsetTable(loc.row)[k]) == NeighborLocations(loc)[k]
    ensures forall d :: d in OffsetTable(loc.row) <==> Adjacent(loc, Shift(loc, d))
  {
    var table := OffsetTable(loc.row);
    forall d ensures d in table <==> Adjacent(loc, Shift(loc, d)) {
      if Adjacent(loc, Shift(loc, d)) {
        var k :| 0 <= k < 6 && NeighborLocations(loc)[k] == Shift(loc, d);
        assert table[k] == d;
      }
    }
  }

  /** Same-map neighbourhood test, as written: the relative position is
      taken as this tile's location minus the other's, which mirrors the
      offsets of the tables (see `IsNeighborMirrors`). */
  function IsNeighbor(t: Tile, other: Tile): (r: bool)
    ensures t.parentMap.None? || other.parentMap != t.parentMap ==> !r
  {
    if t.parentMap.None? || other.parentMap.None? || other.parentMap != t.parentMap then false
    else
      var relPos := TileLocation(t.location.column - other.location.column,
                                 t.location.row - other.location.row);
      relPos in OffsetTable(t.location.row)
  }

  /** The location `b` mirrored through `a`. */
  function Mirror(a: TileLocation, b: TileLocation): (m: TileLocation)
    ensures m.column - a.column == a.column - b.column && m.row - a.row == a.row - b.row
  {
    TileLocation(2 * a.column - b.column, 2 * a.row - b.row)
  }

  /** What the code as written actually tests: whether the MIRROR image of
      the other tile is a neighbour. */
  lemma IsNeighborMirrors(t: Tile, other: Tile)
    ensures IsNeighbor(t, other) <==>
              t.parentMap.Some? && other.parentMap == t.parentMap &&
              Adjacent(t.location, Mirror(t.location, other.location))
  {
    OffsetTablesMatchNeighborLocations(t.location);
    var relPos := TileLocation(t.location.column - other.location.column,
                               t.location.row - other.location.row);
    assert Shift(t.location, relPos) == Mirror(t.location, other.location);
  }

  /** Even as written, a tile is never its own neighbour: the relative
      position (0, 0) is in neither offset table. */
  lemma IsNeighborIrreflexive(t: Tile)
    ensures !IsNeighbor(t, t)
  {
    IsNeighborMirrors(t, t);
    NeighborLocationsShape(t.location);
  }

  /** The neighbourhood test with the relative position taken the intended
      way round (other minus this). */
  function IsNeighborCorrected(t: Tile, other: Tile): (r: bool)
    ensures r <==> t.parentMap.Some? && other.parentMap == t.parentMap &&
                   Adjacent(t.location, other.location)
  {
    OffsetTablesMatchNeighborLocations(t.location);
    var relPos := TileLocation(other.location.column - t.location.column,
                               other.location.row - t.location.row);
    assert Shift(t.location, relPos) == other.location;
    t.parentMap.Some? && other.parentMap == t.parentMap && relPos in OffsetTable(t.location.row)
  }

  /** The corrected test is symmetric and never holds for a tile and itself. */
  lemma IsNeighborCorrectedSymmetric(t: Tile, other: Tile)
    ensures IsNeighborCorrected(t, other) <==> IsNeighborCorrected(other, t)
    ensures !IsNeighborCorrected(t, t)
  {
    AdjacentSymmetric(t.location, other.location);
    NeighborLocationsShape(t.location);
  }

  function Negate(d: TileLocation): TileLocation {
    TileLocation(-d.column, -d.row)
  }

  /** Each offset table is the other one negated. */
  lemma NegatedTables(d: TileLocation)
    ensures d in OddNeighborsRelativeLocations <==> Negate(d) in EvenNeighborsRelativeLocations
  {
  }

  /** The other repair of the test: keep the relative position as written
      (this minus other) but let each row parity select the other table. */
  predicate IsNeighborSwapped(t: Tile, other: Tile) {
    && t.parentMap.Some? && other.parentMap == t.parentMap
    && var relPos := TileLocation(t.location.column - other.location.column,
                                  t.location.row - other.location.row);
       relPos in SwappedTable(t.location.row)
  }

  /** The table the row parity does NOT select. */
  function SwappedTable(row: int): seq<TileLocation> {
    if RowOffset(row) == 0 then EvenNeighborsRelativeLocations else OddNeighborsRelativeLocations
  }

  /** The table a row parity does not select holds the negations of the
      one it does. */
  lemma SwappedTableLookup(row: int, rel: TileLocation)
    ensures rel in SwappedTable(row) <==> Negate(rel) in OffsetTable(row)
  {
    NegatedTables(rel);
    NegatedTables(Negate(rel));
    assert Negate(Negate(rel)) == rel;
  }

  /** Swapping the tables repairs the test just as well as reversing the
      subtraction: both decide adjacency within one map. */
  lemma SwappedTablesRepairToo(t: Tile, other: Tile)
    ensures IsNeighborSwapped(t, other) <==> IsNeighborCorrected(t, other)
  {
    SwappedByTable(t, other);
    CorrectedByTable(t, other);
  }

  /** The swapped test looks the negated difference up in the selected table. */
  lemma SwappedByTable(t: Tile, other: Tile)
    ensures IsNeighborSwapped(t, other) <==>
              && t.parentMap.Some? && other.parentMap == t.parentMap
              && TileLocation(other.location.column - t.location.column,
                              other.location.row - t.location.row) in OffsetTable(t.location.row)
  {
    var relPos := TileLocation(t.location.column - other.location.column,
                               t.location.row - other.location.row);
    SwappedTableLookup(t.location.row, relPos);
    assert Negate(relPos) == TileLocation(other.location.column - t.location.column,
                                          other.location.row - t.location.row);
  }

  /** The corrected test looks the reversed difference up in the table. */
  lemma CorrectedByTable(t: Tile, other: Tile)
    ensures IsNeighborCorrected(t, other) <==>
              && t.parentMap.Some? && other.parentMap == t.parentMap
              && TileLocation(other.location.column - t.location.column,
                              other.location.row - t.location.row) in OffsetTable(t.location.row)
  {
  }

  /** (-1, -1) is the upper-left neighbour of (0, 0). */
  lemma UpperLeftOfOrigin()
    ensures Adjacent(TileLocation(0, 0), TileLocation(-1, -1))
  {
    var n := NeighborLocations(TileLocation(0, 0));
    assert RowOffset(0) == 0;
    assert n[1] == TileLocation(-1, -1);
    assert n[1] in n;
  }

  /** Two tiles of one map, the second being the first's upper-left
      neighbour, that the test as written reports as NOT neighbours. */
  lemma IsNeighborMissesUpperLeft()
    ensures var t := NewTile(TileLocation(0, 0), Grass, Some(0));
            var other := NewTile(TileLocation(-1, -1), Grass, Some(0));
      && Adjacent(t.location, other.location)
      && !IsNeighbor(t, other)
      && IsNeighborCorrected(t, other)
  {
    UpperLeftOfOrigin();
    var odd := OddNeighborsRelativeLocations;
    assert RowOffset(0) == 0;
    assert OffsetTable(0) == odd;
    assert forall k :: 0 <= k < |odd| ==> odd[k] != TileLocation(1, 1);
  }

  /** Adds a building, unless one already stands here (then nothing
      changes). */
  function Build(t: Tile, buildingType: BuildingType): (r: Tile)
    ensures r == t.(building := r.building)
    ensures r.building.Some?
    ensures t.building.Some? ==> r == t
    ensures t.building.None? ==> r.building == Some(B.CreateBuilding(buildingType))
  {
    if t.building.Some? then t else t.(building := Some(B.CreateBuilding(buildingType)))
  }

  /** Building is first-come: a second order never replaces the building. */
  lemma BuildKeepsFirstBuilding(t: Tile, first: BuildingType, second: BuildingType)
    requires t.building.None?
    ensures Build(Build(t, first), second) == Build(t, first)
    ensures Build(Build(t, first), second).building.value.buildingType == first
  {
  }

  /** Delivers one unit of a resource to the building, if there is one. */
  function Consume(t: Tile, resource: ResourceType): (r: Tile)
    ensures r == t.(building := r.building)
    ensures t.building.None? ==> r == t
    ensures t.building.Some? ==> r.building.Some? && r.building.value == B.Consume(t.building.value, resource)
  {
    match t.building
    case None => t
    case Some(b) => t.(building := Some(B.Consume(b, resource)))
  }

  /** Gives the building's producer a destination path. */
  function AssignPath(t: Tile, path: Option<seq<TileLocation>>): (r: Tile)
    requires t.building.Some? && t.building.value.packageProducer.Some?
    ensures r == t.(building := r.building)
    ensures r.building == Some(B.AssignPath(t.building.value, path))
  {
    t.(building := Some(B.AssignPath(t.building.value, path)))
  }

  /** Ends the turn of the tile's building. */
  function EndTurn(t: Tile): (r: Tile)
    requires t.building.Some? && t.building.value.packageProducer.Some?
    ensures r == t.(building := r.building)
    ensures r.building == Some(B.EndTurn(t.building.value))
  {
    t.(building := Some(B.EndTurn(t.building.value)))
  }

  /** The cost for a package to cross the tile: the terrain cost, unless a
      building with a modifier overrides it. */
  function ComputeCrossingCost(t: Tile): (c: int)
    ensures t.building.None? || t.building.value.crossingCostComputer.None? ==>
              c == BackgroundCrossingCost(t.background)
    ensures t.building.Some? && t.building.value.crossingCostComputer.Some? ==>
              c == ApplyModifier(t.building.value.crossingCostComputer.value, DefaultPackageSpeed)
  {
    var baseCost := BackgroundCrossingCost(t.background);
    match t.building
    case None => baseCost
    case Some(b) => B.ComputeCrossingCost(b, baseCost)
  }

  /** The crossing cost of a tile just built on: the base blocks, roads
      halve and the sawmill, harbor and market double the default speed,
      whatever the terrain; the other buildings keep the terrain cost.  So
      the tile is impassable exactly when it holds the base, or water under
      a building without a modifier. */
  lemma CrossingCostAfterBuild(t: Tile, buildingType: BuildingType)
    requires t.building.None?
    ensures var c := ComputeCrossingCost(Build(t, buildingType));
      && (buildingType == Base ==> c == -1)
      && (buildingType == Road ==> c == DefaultPackageSpeed / 2)
      && (buildingType == Sawmill || buildingType == Harbor || buildingType == Market ==>
            c == 2 * DefaultPackageSpeed)
      && (buildingType == Farm || buildingType == Mine || buildingType == Field ==>
            c == BackgroundCrossingCost(t.background))
      && (c < 0 <==> buildingType == Base ||
                     (t.background == Water && (buildingType == Farm || buildingType == Mine || buildingType == Field)))
  {
    B.CrossingCostByType(buildingType, BackgroundCrossingCost(t.background));
  }
}
