/** A package producer emits a package every `delay` turns once it has both
    a destination path and an action.  Resource producers keep their
    delivery action for good; the base's build producer is single-shot and
    must be re-armed with a new build action after every emission. */
module Producers {
  import opened Basics
  import opened Kinds
  import opened TileLocations
  import opened Packages

  datatype Producer = Producer(
    packageType: PackageType,
    packageAction: Option<PackageAction>,
    delay: nat,
    turnCounter: nat,
    path: Option<seq<TileLocation>>)

  /** A producer of deliveries of `resource`, without a path yet. */
  function CreateResourceProducer(resource: ResourceType, delay: nat): (p: Producer)
    ensures p.packageType == Resource && p.packageAction == Some(DeliveryAction(resource))
    ensures p.delay == delay && p.turnCounter == 0 && p.path == None
    ensures !CanProduce(p)
  {
    Producer(Resource, Some(DeliveryAction(resource)), delay, 0, None)
  }

  /** A producer of build orders, waiting for both an order and a path. */
  function CreateBuildProducer(delay: nat): (p: Producer)
    ensures p.packageType == Build && p.packageAction == None
    ensures p.delay == delay && p.turnCounter == 0 && p.path == None
    ensures !CanProduce(p)
  {
    Producer(Build, None, delay, 0, None)
  }

  predicate CanProduce(p: Producer) {
    p.path.Some? && p.packageAction.Some?
  }

  /** The readiness check decides production: once the counter has run
      down, a package comes out exactly when the producer has both a path
      and an action. */
  lemma CanProduceDecidesProduction(p: Producer)
    requires EmitsSafely(p) && p.turnCounter == 0
    ensures ProducePackage(p).0.Some? <==> CanProduce(p)
    ensures !CanProduce(p) <==> p.path.None? || p.packageAction.None?
  {
  }

  /** A package is built from the assigned path and immediately drops its
      first tile, so a producer about to emit must hold a non-empty path. */
  predicate EmitsSafely(p: Producer) {
    p.turnCounter == 0 && CanProduce(p) ==> |p.path.value| >= 1
  }

  /** Every assigned path is non-empty: the invariant that keeps every
      emission safe over any number of turns. */
  predicate PathUsable(p: Producer) {
    p.path.Some? ==> |p.path.value| >= 1
  }

  /** Emits a package when the counter has run down and the producer is
      armed, then restarts the counter; a build producer also forgets its
      order. */
  function ProducePackage(p: Producer): (r: (Option<Package>, Producer))
    requires EmitsSafely(p)
    ensures r.0.None? <==> p.turnCounter != 0 || !CanProduce(p)
    ensures r.0.None? ==> r.1 == p
    ensures r.0.Some? ==>
              && r.0.value.packageType == p.packageType
              && r.0.value.actionHandler == p.packageAction.value
              && r.0.value.completePath == p.path.value
              && r.0.value.leftoverMovement == 0
    ensures r.0.Some? ==>
              && r.1.turnCounter == p.delay
              && r.1 == p.(turnCounter := p.delay, packageAction := r.1.packageAction)
              && (r.1.packageAction.None? <==> p.packageType == Build)
              && (p.packageType == Resource ==> r.1.packageAction == p.packageAction)
  {
    if p.turnCounter != 0 || !CanProduce(p) then (None, p)
    else
      var package := NewPackage(p.packageType, p.packageAction.value, p.path.value);
      var next := p.(turnCounter := p.delay);
      if p.packageType == Build then (Some(package), next.(packageAction := None))
      else (Some(package), next)
  }

  /** Sets or (with `None`) clears the destination path. */
  function AssignPath(p: Producer, path: Option<seq<TileLocation>>): (r: Producer)
    ensures r.path == path
    ensures r == p.(path := r.path)
    ensures CanProduce(r) <==> path.Some? && p.packageAction.Some?
  {
    p.(path := path)
  }

  /** Counts down towards the next emission, but only while armed and never
      below zero. */
  function EndTurn(p: Producer): (r: Producer)
    ensures r == p.(turnCounter := r.turnCounter)
    ensures r.turnCounter <= p.turnCounter
    ensures r.turnCounter < p.turnCounter <==> CanProduce(p) && p.turnCounter > 0
    ensures r.turnCounter >= p.turnCounter - 1
  {
    if CanProduce(p) && p.turnCounter > 0 then p.(turnCounter := p.turnCounter - 1) else p
  }

  /** Hands a build order to a build producer; any other producer refuses it. */
  function AssignBuildAction(p: Producer, buildingType: BuildingType): (r: Producer)
    ensures p.packageType != Build ==> r == p
    ensures p.packageType == Build ==>
              r.packageAction == Some(BuildAction(buildingType)) &&
              r == p.(packageAction := r.packageAction)
  {
    if p.packageType != Build then p else p.(packageAction := Some(BuildAction(buildingType)))
  }

  /** After one emission a build producer is disarmed: it produces nothing
      and its counter stays frozen until a new order arrives, and once
      re-armed its first attempt still fails (the full wait is
      `ReArmedWaitsOutDelay`). */
  lemma BuildProducerIsSingleShot(p: Producer, order: BuildingType)
    requires p.packageType == Build && PathUsable(p) && p.delay >= 1
    requires ProducePackage(p).0.Some?
    ensures var q := ProducePackage(p).1;
      && !CanProduce(q)
      && ProducePackage(q).0.None?
      && EndTurn(q) == q
      && CanProduce(AssignBuildAction(q, order))
      && ProducePackage(AssignBuildAction(q, order)).0.None?
  {
  }

  /** One turn of a producer seen from the turn loop: try to produce, then
      end the turn. */
  function Cycle(p: Producer): (r: Producer)
    requires PathUsable(p)
    ensures PathUsable(r) && r.packageType == p.packageType && r.delay == p.delay && r.path == p.path
  {
    EndTurn(ProducePackage(p).1)
  }

  function Cycles(p: Producer, n: nat): (r: Producer)
    requires PathUsable(p)
    ensures PathUsable(r) && r.packageType == p.packageType && r.delay == p.delay && r.path == p.path
  {
    if n == 0 then p else Cycle(Cycles(p, n - 1))
  }

  /** A re-armed build producer counts down one step per turn, emitting
      nothing until its counter reaches zero. */
  lemma {:induction false} ReArmedCounts(q: Producer, n: nat)
    requires q.packageType == Build && CanProduce(q) && PathUsable(q)
    requires q.turnCounter == q.delay && n <= q.delay
    ensures Cycles(q, n) == q.(turnCounter := q.delay - n)
  {
    if n > 0 {
      ReArmedCounts(q, n - 1);
    }
  }

  /** A build producer re-armed after an emission stays silent for `delay`
      turns of the turn loop and emits on the next attempt. */
  lemma ReArmedWaitsOutDelay(p: Producer, order: BuildingType)
    requires p.packageType == Build && PathUsable(p) && p.delay >= 1
    requires ProducePackage(p).0.Some?
    ensures var q := AssignBuildAction(ProducePackage(p).1, order);
      && PathUsable(q)
      && (forall n: nat :: n < p.delay ==> ProducePackage(Cycles(q, n)).0.None?)
      && ProducePackage(Cycles(q, p.delay)).0.Some?
  {
    var q := AssignBuildAction(ProducePackage(p).1, order);
    forall n: nat | n < p.delay
      ensures ProducePackage(Cycles(q, n)).0.None?
    {
      ReArmedCounts(q, n);
    }
    ReArmedCounts(q, p.delay);
  }

  lemma ModSucc(n: nat, d: nat)
    requires d >= 1
    ensures (n + 1) % d == if n % d + 1 < d then n % d + 1 else 0
  {
    var q, r := n / d, n % d;
    assert n == q * d + r;
    if r + 1 < d {
      ModUnique(n + 1, d, q, r + 1);
    } else {
      assert n + 1 == (q + 1) * d + 0 by {
        assert (q + 1) * d == q * d + d;
      }
      ModUnique(n + 1, d, q + 1, 0);
    }
  }

  /** Euclidean division has a single quotient and remainder. */
  lemma ModUnique(n: int, d: int, q: int, r: int)
    requires d > 0 && n == q * d + r && 0 <= r < d
    ensures n % d == r
  {
    var q0, r0 := n / d, n % d;
    assert (q - q0) * d == r0 - r by {
      assert n == q0 * d + r0;
      assert (q - q0) * d == q * d - q0 * d;
    }
    if q - q0 >= 1 {
      MulAtLeast(d, q - q0, 1);
    } else if q - q0 <= -1 {
      MulAtLeast(d, q0 - q, 1);
    }
  }

  lemma MulAtLeast(d: nat, x: int, k: nat)
    requires x >= k
    ensures d * x >= d * k
  {
    assert d * x - d * k == d * (x - k);
  }

  /** Between emissions an armed resource producer's counter shows the turns
      still to wait in the current period. */
  lemma {:induction false} ResourceProducerCounter(p: Producer, n: nat)
    requires p.packageType == Resource && CanProduce(p) && PathUsable(p)
    requires p.delay >= 1 && p.turnCounter == 0
    ensures Cycles(p, n) == p.(turnCounter := if n % p.delay == 0 then 0 else p.delay - n % p.delay)
  {
    if n > 0 {
      var d := p.delay;
      var k := (n - 1) % d;
      ResourceProducerCounter(p, n - 1);
      ModSucc(n - 1, d);
      var before := Cycles(p, n - 1);
      if k == 0 {
        assert before == p;
        assert ProducePackage(before).1 == p.(turnCounter := d);
      } else {
        assert before == p.(turnCounter := d - k);
        assert ProducePackage(before).1 == before;
      }
    }
  }

  /** An armed resource producer with delay D, driven by the turn loop,
      produces on exactly the turns 0, D, 2D, ... */
  lemma ResourceProducerPeriod(p: Producer, n: nat)
    requires p.packageType == Resource && CanProduce(p) && PathUsable(p)
    requires p.delay >= 1 && p.turnCounter == 0
    ensures ProducePackage(Cycles(p, n)).0.Some? <==> n % p.delay == 0
  {
    ResourceProducerCounter(p, n);
  }
}
