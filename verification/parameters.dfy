/** Fixed simulation parameters: the per-turn movement allowance of a
    package and the crossing cost of each terrain ("background") type. */
module Parameters {

  /** The movement budget of a speed-1 package for one turn; also the cost
      unit against which building modifiers are evaluated. */
  const DefaultPackageSpeed: int := 12

  datatype BackgroundType = Grass | Mountain | Forest | Water

  /** Terrain crossing cost; a negative cost means the tile cannot be
      crossed. */
  function BackgroundCrossingCost(background: BackgroundType): (cost: int)
    ensures cost < 0 <==> background == Water
    ensures cost < 0 ==> cost == -1
    ensures cost >= 0 ==> cost > 0 && cost % DefaultPackageSpeed == 0
    ensures cost >= 0 ==> cost <= 3 * DefaultPackageSpeed
  {
    match background
    case Water => -1
    case Grass => 1 * DefaultPackageSpeed
    case Forest => 2 * DefaultPackageSpeed
    case Mountain => 3 * DefaultPackageSpeed
  }

  /** The crossable terrains cost one, two and three turns of movement. */
  lemma TerrainCostOrder()
    ensures BackgroundCrossingCost(Grass) == DefaultPackageSpeed
    ensures BackgroundCrossingCost(Forest) == 2 * BackgroundCrossingCost(Grass)
    ensures BackgroundCrossingCost(Mountain) == 3 * BackgroundCrossingCost(Grass)
  {
  }
}
