/** The enumerations of the simulation and the two package actions. */
module Kinds {

  /** The resources a package can carry. `Stone` is consumed and produced by
      the building table although the resource enumeration omits it. */
  datatype ResourceType = Wood | Iron | Wheat | Food | Gold | Stone

  datatype BuildingType = Field | Farm | Mine | Sawmill | Harbor | Market | Road | Base

  /** A resource package delivers goods; a build package places a building. */
  datatype PackageType = Resource | Build

  /** What a package does on arrival at the last tile of its path. */
  datatype PackageAction =
    | DeliveryAction(resourceType: ResourceType)
    | BuildAction(buildingType: BuildingType)
}
