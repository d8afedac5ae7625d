/** What a package does to the tile it arrives on: a delivery feeds the
    tile's building, a build order puts up a building on an empty tile. */
module Actions {
  import opened Basics
  import opened Kinds
  import opened TileLocations
  import opened Tiles
  import opened HexMaps
  import B = Buildings

  /** Runs the action on the target tile. */
  function PerformAction(action: PackageAction, target: Tile): (r: Tile)
    ensures r.location == target.location && r.background == target.background
    ensures r.parentMap == target.parentMap
    ensures action.DeliveryAction? ==> r.building.Some? == target.building.Some?
    ensures action.DeliveryAction? && target.building.Some? ==>
              r.building.value.buildingType == target.building.value.buildingType &&
              (B.IsDestroyed(r.building.value) <==> B.IsDestroyed(target.building.value))
    ensures action.BuildAction? ==> r.building.Some?
    ensures action.BuildAction? && target.building.None? ==>
              r.building == Some(B.CreateBuilding(action.buildingType))
    ensures action.BuildAction? && target.building.Some? ==> r == target
  {
    match action
    case DeliveryAction(resource) => Tiles.Consume(target, resource)
    case BuildAction(buildingType) => Tiles.Build(target, buildingType)
  }

  /** A delivery to an empty tile, or of a resource no consumer of the
      building accepts, is lost: the tile does not change. */
  lemma UnwantedDeliveryIsLost(target: Tile, resource: ResourceType)
    requires target.building.None? ||
             forall j :: 0 <= j < |target.building.value.consumers| ==>
               !B.Accepts(target.building.value.consumers[j], resource)
    ensures PerformAction(DeliveryAction(resource), target) == target
  {
    if target.building.Some? {
      B.ConsumeDelivers(target.building.value, resource);
    }
  }

  /** Runs the action on the map's tile at `loc`, if there is one; every
      other tile is left as it was. */
  function PerformAt(h: HexMap, loc: TileLocation, action: PackageAction): (r: HexMap)
    ensures r.id == h.id && r.size == h.size && r.tiles.Keys == h.tiles.Keys
    ensures forall l :: l in h.tiles && l != loc ==> r.tiles[l] == h.tiles[l]
    ensures loc in h.tiles ==> r.tiles[loc] == PerformAction(action, h.tiles[loc])
    ensures WellFormed(h) ==> WellFormed(r)
    ensures Shaped(h) ==> Shaped(r)
  {
    match GetTile(h, loc)
    case None => h
    case Some(t) => h.(tiles := h.tiles[loc := PerformAction(action, t)])
  }
}
