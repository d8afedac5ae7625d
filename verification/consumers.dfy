/** A resource consumer is a timed requirement of a building: it must
    receive `requiredAmount` units of one resource every `consumptionDelay`
    turns, or it is destroyed for good (and with it its building). */
module Consumers {
  import opened Kinds

  datatype Consumer = Consumer(
    requiredResourceType: ResourceType,
    requiredAmount: int,
    consumptionDelay: int,
    turnsLeft: int,
    amountConsumed: int,
    isDestroyed: bool)

  /** A consumer at the start of a consumption cycle. */
  predicate Fresh(c: Consumer) {
    c.turnsLeft == c.consumptionDelay && c.amountConsumed == 0 && !c.isDestroyed
  }

  /** The counters stay within the cycle between calls. */
  predicate CycleInvariant(c: Consumer) {
    c.consumptionDelay >= 1 && 1 <= c.turnsLeft <= c.consumptionDelay && c.amountConsumed >= 0
  }

  /** The requirement (type, amount, delay) of a consumer survives every
      operation. */
  predicate SameRequirement(c: Consumer, d: Consumer) {
    c.requiredResourceType == d.requiredResourceType &&
    c.requiredAmount == d.requiredAmount &&
    c.consumptionDelay == d.consumptionDelay
  }

  function NewConsumer(resource: ResourceType, amount: int, delay: int): (c: Consumer)
    ensures c.requiredResourceType == resource && c.requiredAmount == amount
    ensures c.consumptionDelay == delay
    ensures Fresh(c)
    ensures delay >= 1 ==> CycleInvariant(c)
  {
    Consumer(resource, amount, delay, delay, 0, false)
  }

  predicate IsSatisfied(c: Consumer) {
    c.amountConsumed >= c.requiredAmount
  }

  /** Offers one unit of `resource`; the flag says whether it was taken. */
  function Consume(c: Consumer, resource: ResourceType): (r: (bool, Consumer))
    ensures r.0 <==> !c.isDestroyed && resource == c.requiredResourceType
    ensures !r.0 ==> r.1 == c
    ensures r.0 ==> r.1 == c.(amountConsumed := c.amountConsumed + 1)
  {
    if c.isDestroyed then (false, c)
    else if resource != c.requiredResourceType then (false, c)
    else (true, c.(amountConsumed := c.amountConsumed + 1))
  }

  /** Advances the consumer by one turn.  When the cycle runs out, the
      consumer is destroyed if it was not satisfied, and its counters are
      reset in both cases. */
  function EndTurn(c: Consumer): (r: Consumer)
    ensures SameRequirement(r, c)
    ensures c.isDestroyed ==> r == c
    ensures r.isDestroyed <==> c.isDestroyed || (c.turnsLeft <= 1 && !IsSatisfied(c))
    ensures !c.isDestroyed && c.turnsLeft > 1 ==>
              r.turnsLeft == c.turnsLeft - 1 && r.amountConsumed == c.amountConsumed
    ensures !c.isDestroyed && c.turnsLeft <= 1 ==>
              r.turnsLeft == c.consumptionDelay && r.amountConsumed == 0
  {
    if c.isDestroyed then c
    else
      var t := c.turnsLeft - 1;
      if t > 0 then c.(turnsLeft := t)
      else c.(isDestroyed := c.amountConsumed < c.requiredAmount,
              turnsLeft := c.consumptionDelay, amountConsumed := 0)
  }

  /** Satisfaction decides survival: a live consumer on the last turn of
      its cycle is destroyed by the end of the turn exactly when it has
      consumed less than it requires. */
  lemma SurvivesExactlyWhenSatisfied(c: Consumer)
    requires !c.isDestroyed && c.turnsLeft == 1
    ensures !EndTurn(c).isDestroyed <==> IsSatisfied(c)
    ensures IsSatisfied(c) <==> c.amountConsumed >= c.requiredAmount
  {
  }

  /** Neither operation breaks the cycle bounds. */
  lemma CycleInvariantPreserved(c: Consumer, resource: ResourceType)
    requires CycleInvariant(c)
    ensures CycleInvariant(Consume(c, resource).1)
    ensures CycleInvariant(EndTurn(c))
  {
  }

  /** `n` successive end-of-turn calls. */
  function EndTurns(c: Consumer, n: nat): (r: Consumer)
    ensures SameRequirement(r, c)
  {
    if n == 0 then c else EndTurn(EndTurns(c, n - 1))
  }

  /** A destroyed consumer is frozen: no number of turns revives it. */
  lemma {:induction false} DestructionIsPermanent(c: Consumer, n: nat)
    requires c.isDestroyed
    ensures EndTurns(c, n) == c
  {
    if n > 0 {
      DestructionIsPermanent(c, n - 1);
    }
  }

  /** Before its cycle runs out, a live consumer only counts down. */
  lemma {:induction false} CountsDown(c: Consumer, j: nat)
    requires !c.isDestroyed && j < c.turnsLeft
    ensures EndTurns(c, j) == c.(turnsLeft := c.turnsLeft - j)
  {
    if j > 0 {
      CountsDown(c, j - 1);
    }
  }

  /** Left without deliveries, a fresh consumer that needs something
      survives the first `consumptionDelay - 1` turns and is destroyed by
      exactly the `consumptionDelay`-th one. */
  lemma DestroyedExactlyAtDelay(c: Consumer, j: nat)
    requires Fresh(c) && c.consumptionDelay >= 1 && c.requiredAmount >= 1
    ensures j < c.consumptionDelay ==> !EndTurns(c, j).isDestroyed
    ensures j >= c.consumptionDelay ==> EndTurns(c, j).isDestroyed
  {
    if j < c.consumptionDelay {
      CountsDown(c, j);
    } else {
      var d := c.consumptionDelay;
      CountsDown(c, d - 1);
      assert EndTurns(c, d).isDestroyed;
      DestructionIsPermanent(EndTurns(c, d), j - d);
      EndTurnsAdd(c, d, j - d);
    }
  }

  lemma {:induction false} EndTurnsAdd(c: Consumer, m: nat, n: nat)
    ensures EndTurns(EndTurns(c, m), n) == EndTurns(c, m + n)
  {
    if n > 0 {
      EndTurnsAdd(c, m, n - 1);
    }
  }

  /** A consumer satisfied by the last turn of its cycle survives and starts
      a new cycle. */
  lemma SatisfiedCycleRestarts(c: Consumer)
    requires CycleInvariant(c) && !c.isDestroyed && c.turnsLeft == 1 && IsSatisfied(c)
    ensures !EndTurn(c).isDestroyed && Fresh(EndTurn(c))
  {
  }
}
