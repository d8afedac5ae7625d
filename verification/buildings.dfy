/** A building bundles an optional package producer, a list of resource
    consumers and an optional crossing-cost modifier, all fixed per building
    type by a factory table.  Only the counters inside the producer and the
    consumers change afterwards. */
module Buildings {
  import opened Basics
  import opened Kinds
  import opened Parameters
  import opened CrossingCosts
  import opened TileLocations
  import opened Packages
  import C = Consumers
  import P = Producers

  datatype Building = Building(
    buildingType: BuildingType,
    packageProducer: Option<P.Producer>,
    consumers: seq<C.Consumer>,
    crossingCostComputer: Option<CrossingModifier>)

  /** A building is destroyed as soon as ANY of its consumers is; one
      without consumers never is. */
  function IsDestroyed(b: Building): (r: bool)
    ensures r <==> exists c :: c in b.consumers && c.isDestroyed
    ensures |b.consumers| == 0 ==> !r
  {
    exists i :: 0 <= i < |b.consumers| && b.consumers[i].isDestroyed
  }

  /** The factory table: producer (resource, delay), consumers (resource,
      amount, delay) and crossing modifier of each building type. */
  function CreateBuilding(t: BuildingType): (b: Building)
    ensures b.buildingType == t
    ensures !IsDestroyed(b)
    ensures forall i :: 0 <= i < |b.consumers| ==>
              C.Fresh(b.consumers[i]) && C.CycleInvariant(b.consumers[i]) && b.consumers[i].requiredAmount >= 1
    ensures b.consumers == [] <==> t == Road
    ensures b.packageProducer.None? <==> t == Road
    ensures b.packageProducer.Some? ==>
              var p := b.packageProducer.value;
              && p.turnCounter == 0 && p.path == None && p.delay >= 1
              && (p.packageType == Build <==> t == Base)
              && (p.packageType == Build ==> p.packageAction == None)
              && (p.packageType == Resource ==> p.packageAction.Some? && p.packageAction.value.DeliveryAction?)
    ensures b.crossingCostComputer == Some(Blocker) <==> t == Base
    ensures b.crossingCostComputer.None? <==> t == Farm || t == Mine || t == Field
  {
    match t
    case Base =>
      Building(t, Some(P.CreateBuildProducer(1)),
               [C.NewConsumer(Stone, 1, 5), C.NewConsumer(Gold, 1, 20)],
               Some(Blocker))
    case Farm =>
      Building(t, Some(P.CreateResourceProducer(Food, 6)), [C.NewConsumer(Wood, 1, 5)], None)
    case Mine =>
      Building(t, Some(P.CreateResourceProducer(Stone, 10)), [C.NewConsumer(Wood, 1, 5)], None)
    case Sawmill =>
      Building(t, Some(P.CreateResourceProducer(Wood, 10)), [C.NewConsumer(Stone, 1, 5)],
               Some(Multiplier(2, 1)))
    case Road =>
      Building(t, None, [], Some(Multiplier(1, 2)))
    case Field =>
      Building(t, Some(P.CreateResourceProducer(Wheat, 5)), [C.NewConsumer(Wood, 1, 5)], None)
    case Harbor =>
      Building(t, Some(P.CreateResourceProducer(Food, 3)), [C.NewConsumer(Stone, 1, 3)],
               Some(Multiplier(2, 1)))
    case Market =>
      Building(t, Some(P.CreateResourceProducer(Gold, 8)), [C.NewConsumer(Food, 2, 8)],
               Some(Multiplier(2, 1)))
  }

  /** One row of the table, spelled out: a market produces gold every 8
      turns, needs 2 food every 8 turns and doubles the crossing cost. */
  lemma MarketRow()
    ensures var b := CreateBuilding(Market);
      && b.packageProducer == Some(P.Producer(Resource, Some(DeliveryAction(Gold)), 8, 0, None))
      && |b.consumers| == 1
      && b.consumers[0].requiredResourceType == Food
      && b.consumers[0].requiredAmount == 2
      && b.consumers[0].consumptionDelay == 8
      && b.crossingCostComputer == Some(Multiplier(2, 1))
  {
  }

  /** The cost of crossing the building's tile.  A modifier is evaluated
      against the default package speed, NOT against the terrain cost. */
  function ComputeCrossingCost(b: Building, baseCost: int): (c: int)
    ensures b.crossingCostComputer.None? ==> c == baseCost
    ensures b.crossingCostComputer == Some(Blocker) ==> c == -1
    ensures b.crossingCostComputer.Some? && b.crossingCostComputer.value.Replacer? ==>
              c == b.crossingCostComputer.value.value
    ensures b.crossingCostComputer.Some? && b.crossingCostComputer.value.Multiplier? ==>
              var m := b.crossingCostComputer.value;
              -(m.denominator as int) <= 2 * (c * m.denominator - m.numerator * DefaultPackageSpeed) <= m.denominator
  {
    match b.crossingCostComputer
    case Some(m) => ApplyModifier(m, DefaultPackageSpeed)
    case None => baseCost
  }

  /** A modifier makes the terrain irrelevant. */
  lemma ModifierIgnoresTerrain(b: Building, x: int, y: int)
    requires b.crossingCostComputer.Some?
    ensures ComputeCrossingCost(b, x) == ComputeCrossingCost(b, y)
  {
  }

  /** The crossing cost of each type of building: the base blocks, the
      sawmill, harbor and market cost two turns of movement, the road half a
      turn, and the remaining types leave the terrain cost alone. */
  lemma CrossingCostByType(t: BuildingType, baseCost: int)
    ensures var c := ComputeCrossingCost(CreateBuilding(t), baseCost);
      && (t == Base ==> c == -1)
      && (t == Sawmill || t == Harbor || t == Market ==> c == 2 * DefaultPackageSpeed)
      && (t == Road ==> c == DefaultPackageSpeed / 2)
      && (t == Farm || t == Mine || t == Field ==> c == baseCost)
  {
  }

  /** Every producer holds a path that a package can be built from. */
  predicate ProducerUsable(b: Building) {
    b.packageProducer.Some? ==> P.PathUsable(b.packageProducer.value)
  }

  /** A destroyed building, or one without a producer, produces nothing;
      otherwise the producer decides. */
  function ProducePackage(b: Building): (r: (Option<Package>, Building))
    requires !IsDestroyed(b) && b.packageProducer.Some? ==> P.EmitsSafely(b.packageProducer.value)
    ensures IsDestroyed(b) || b.packageProducer.None? ==> r == (None, b)
    ensures !IsDestroyed(b) && b.packageProducer.Some? ==>
              r.0 == P.ProducePackage(b.packageProducer.value).0 &&
              r.1.packageProducer == Some(P.ProducePackage(b.packageProducer.value).1)
    ensures r.1 == b.(packageProducer := r.1.packageProducer)
    ensures r.1.packageProducer.Some? <==> b.packageProducer.Some?
    ensures ProducerUsable(b) ==> ProducerUsable(r.1)
  {
    if IsDestroyed(b) then (None, b)
    else match b.packageProducer
      case None => (None, b)
      case Some(p) =>
        var (package, p') := P.ProducePackage(p);
        (package, b.(packageProducer := Some(p')))
  }

  /** A consumer takes a resource when it is alive and of the right type. */
  predicate Accepts(c: C.Consumer, resource: ResourceType) {
    !c.isDestroyed && c.requiredResourceType == resource
  }

  /** `i` is the first consumer in list order that takes `resource`. */
  predicate FirstAccepting(cs: seq<C.Consumer>, resource: ResourceType, i: int) {
    0 <= i < |cs| && Accepts(cs[i], resource) &&
    forall j :: 0 <= j < i ==> !Accepts(cs[j], resource)
  }

  /** Offers the resource to each consumer in turn, stopping at the first
      that takes it. */
  function ConsumeFirst(cs: seq<C.Consumer>, resource: ResourceType): (r: (bool, seq<C.Consumer>))
    ensures |r.1| == |cs|
    ensures !r.0 ==> r.1 == cs
    ensures forall j :: 0 <= j < |cs| ==> r.1[j].isDestroyed == cs[j].isDestroyed
  {
    if |cs| == 0 then (false, cs)
    else
      var (taken, c) := C.Consume(cs[0], resource);
      if taken then (true, [c] + cs[1..])
      else
        var (found, rest) := ConsumeFirst(cs[1..], resource);
        (found, [cs[0]] + rest)
  }

  /** The first accepting consumer takes the unit, and only it changes. */
  lemma {:induction false} ConsumeFirstHitsFirst(cs: seq<C.Consumer>, resource: ResourceType, i: int)
    requires FirstAccepting(cs, resource, i)
    ensures ConsumeFirst(cs, resource).0
    ensures ConsumeFirst(cs, resource).1 == cs[i := cs[i].(amountConsumed := cs[i].amountConsumed + 1)]
  {
    if i > 0 {
      assert !Accepts(cs[0], resource);
      assert FirstAccepting(cs[1..], resource, i - 1);
      ConsumeFirstHitsFirst(cs[1..], resource, i - 1);
      assert [cs[0]] + cs[1..][i - 1 := cs[i].(amountConsumed := cs[i].amountConsumed + 1)]
          == cs[i := cs[i].(amountConsumed := cs[i].amountConsumed + 1)];
    }
  }

  /** When no consumer accepts the resource, it is refused. */
  lemma {:induction false} ConsumeFirstRefuses(cs: seq<C.Consumer>, resource: ResourceType)
    requires forall j :: 0 <= j < |cs| ==> !Accepts(cs[j], resource)
    ensures !ConsumeFirst(cs, resource).0
  {
    if |cs| > 0 {
      assert !Accepts(cs[0], resource);
      ConsumeFirstRefuses(cs[1..], resource);
    }
  }

  /** Delivers one unit of a resource to the first consumer that takes it
      (see `ConsumeDelivers`); the building's destruction state is
      untouched. */
  function Consume(b: Building, resource: ResourceType): (r: Building)
    ensures r == b.(consumers := r.consumers)
    ensures |r.consumers| == |b.consumers|
    ensures IsDestroyed(r) == IsDestroyed(b)
  {
    var (_, cs) := ConsumeFirst(b.consumers, resource);
    b.(consumers := cs)
  }

  /** A delivery is counted by the first consumer, in list order, that
      accepts it, and by no other; when none accepts it, the building is
      unchanged. */
  lemma ConsumeDelivers(b: Building, resource: ResourceType)
    ensures forall i :: FirstAccepting(b.consumers, resource, i) ==>
              Consume(b, resource).consumers ==
              b.consumers[i := b.consumers[i].(amountConsumed := b.consumers[i].amountConsumed + 1)]
    ensures (forall j :: 0 <= j < |b.consumers| ==> !Accepts(b.consumers[j], resource)) ==>
              Consume(b, resource) == b
  {
    forall i | FirstAccepting(b.consumers, resource, i)
      ensures Consume(b, resource).consumers ==
              b.consumers[i := b.consumers[i].(amountConsumed := b.consumers[i].amountConsumed + 1)]
    {
      ConsumeFirstHitsFirst(b.consumers, resource, i);
    }
    if forall j :: 0 <= j < |b.consumers| ==> !Accepts(b.consumers[j], resource) {
      ConsumeFirstRefuses(b.consumers, resource);
    }
  }

  /** Some consumer at or before any accepting one is the first acceptor. */
  lemma {:induction false} FirstAcceptorExists(cs: seq<C.Consumer>, resource: ResourceType, i: int)
    requires 0 <= i < |cs| && Accepts(cs[i], resource)
    ensures exists k :: 0 <= k <= i && FirstAccepting(cs, resource, k)
  {
    if !FirstAccepting(cs, resource, i) {
      var j :| 0 <= j < i && Accepts(cs[j], resource);
      FirstAcceptorExists(cs, resource, j);
    }
  }

  /** A building without consumers, such as a road, is never destroyed:
      deliveries leave it without consumers. */
  lemma RoadIsNeverDestroyed(resource: ResourceType)
    ensures !IsDestroyed(CreateBuilding(Road))
    ensures Consume(CreateBuilding(Road), resource) == CreateBuilding(Road)
  {
  }

  /** Gives the building's producer a destination path. */
  function AssignPath(b: Building, path: Option<seq<TileLocation>>): (r: Building)
    requires b.packageProducer.Some?
    ensures r.packageProducer == Some(P.AssignPath(b.packageProducer.value, path))
    ensures r == b.(packageProducer := r.packageProducer)
  {
    b.(packageProducer := Some(P.AssignPath(b.packageProducer.value, path)))
  }

  /** Advances every consumer, destroyed or not, then the producer. */
  function EndTurn(b: Building): (r: Building)
    requires b.packageProducer.Some?
    ensures r == b.(consumers := r.consumers, packageProducer := r.packageProducer)
    ensures |r.consumers| == |b.consumers|
    ensures forall i :: 0 <= i < |b.consumers| ==> r.consumers[i] == C.EndTurn(b.consumers[i])
    ensures r.packageProducer == Some(P.EndTurn(b.packageProducer.value))
    ensures IsDestroyed(b) ==> IsDestroyed(r)
  {
    var cs := seq(|b.consumers|, i requires 0 <= i < |b.consumers| => C.EndTurn(b.consumers[i]));
    b.(consumers := cs, packageProducer := Some(P.EndTurn(b.packageProducer.value)))
  }

  /** `n` successive end-of-turn calls. */
  function EndTurns(b: Building, n: nat): (r: Building)
    requires b.packageProducer.Some?
    ensures r.packageProducer.Some? && r.buildingType == b.buildingType
    ensures |r.consumers| == |b.consumers|
    ensures forall i :: 0 <= i < |b.consumers| ==> r.consumers[i] == C.EndTurns(b.consumers[i], n)
  {
    if n == 0 then b else EndTurn(EndTurns(b, n - 1))
  }

  /** Delivers the resources one after the other. */
  function ConsumeAll(b: Building, resources: seq<ResourceType>): (r: Building)
    ensures r == b.(consumers := r.consumers)
    ensures |r.consumers| == |b.consumers|
    decreases |resources|
  {
    if |resources| == 0 then b else ConsumeAll(Consume(b, resources[0]), resources[1..])
  }

  /** On a building with a stone consumer first and a live consumer second,
      a delivery of anything but stone leaves the first consumer as it was
      and the second one alive with its turns left untouched. */
  lemma OtherDeliveryKeepsCycles(b: Building, resource: ResourceType)
    requires |b.consumers| == 2 && b.consumers[0].requiredResourceType == Stone
    requires !b.consumers[1].isDestroyed && resource != Stone
    ensures var r := Consume(b, resource);
      && r.consumers[0] == b.consumers[0]
      && !r.consumers[1].isDestroyed && r.consumers[1].turnsLeft == b.consumers[1].turnsLeft
  {
    ConsumeDelivers(b, resource);
    if Accepts(b.consumers[1], resource) {
      assert FirstAccepting(b.consumers, resource, 1);
    }
  }

  /** The same for a whole sequence of deliveries without stone. */
  lemma {:induction false} OtherDeliveriesKeepCycles(b: Building, resources: seq<ResourceType>)
    requires |b.consumers| == 2 && b.consumers[0].requiredResourceType == Stone
    requires !b.consumers[1].isDestroyed
    requires forall k :: 0 <= k < |resources| ==> resources[k] != Stone
    ensures var r := ConsumeAll(b, resources);
      && r.consumers[0] == b.consumers[0]
      && !r.consumers[1].isDestroyed && r.consumers[1].turnsLeft == b.consumers[1].turnsLeft
    decreases |resources|
  {
    if |resources| > 0 {
      OtherDeliveryKeepsCycles(b, resources[0]);
      OtherDeliveriesKeepCycles(Consume(b, resources[0]), resources[1..]);
    }
  }

  /** Whatever else it receives before its first turn, a base that gets no
      stone survives four turns and falls on the fifth (its stone consumer
      needs 1 unit every 5 turns), and it stays destroyed. */
  lemma BaseFallsWithoutStone(resources: seq<ResourceType>, j: nat)
    requires forall k :: 0 <= k < |resources| ==> resources[k] != Stone
    ensures var base := ConsumeAll(CreateBuilding(Base), resources);
      && (j < 5 ==> !IsDestroyed(EndTurns(base, j)))
      && (j >= 5 ==> IsDestroyed(EndTurns(base, j)))
  {
    var created := CreateBuilding(Base);
    var base := ConsumeAll(created, resources);
    OtherDeliveriesKeepCycles(created, resources);
    var b := EndTurns(base, j);
    C.DestroyedExactlyAtDelay(base.consumers[0], j);
    if j >= 5 {
      assert b.consumers[0].isDestroyed;
    } else {
      C.CountsDown(base.consumers[1], j);
      assert !b.consumers[0].isDestroyed && !b.consumers[1].isDestroyed;
    }
  }
}
