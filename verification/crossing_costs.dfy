/** The three crossing-cost modifiers a building can place on its tile.
    The source's polymorphic computers form a closed set, modelled here as
    one sum type evaluated by `ApplyModifier`. */
module CrossingCosts {

  type Positive = n: int | n > 0 witness 1

  /** Blocker makes the tile impassable; Multiplier scales the cost by the
      exact rational factor numerator/denominator and rounds; Replacer
      substitutes a fixed value. */
  datatype CrossingModifier =
    | Blocker
    | Multiplier(numerator: int, denominator: Positive)
    | Replacer(value: int)

  /** The integer nearest to n/d (a tie goes to the even neighbour, as
      C#'s default rounding does). */
  function RoundRatio(n: int, d: Positive): (r: int)
    ensures -(d as int) <= 2 * (r * d - n) <= d
    ensures n % d == 0 ==> r * d == n
  {
    var q := n / d;
    var rem := n % d;
    assert n == q * d + rem;
    if 2 * rem < d then q
    else if 2 * rem > d then q + 1
    else if q % 2 == 0 then q
    else q + 1
  }

  /** The cost of crossing a tile whose unmodified cost is `baseCost`. */
  function ApplyModifier(m: CrossingModifier, baseCost: int): (c: int)
    ensures m.Blocker? ==> c == -1
    ensures m.Replacer? ==> c == m.value
    ensures m.Multiplier? ==>
              -(m.denominator as int) <= 2 * (c * m.denominator - m.numerator * baseCost) <= m.denominator
  {
    match m
    case Blocker => -1
    case Multiplier(num, den) => RoundRatio(num * baseCost, den)
    case Replacer(v) => v
  }

  /** The blocker ignores its input and always blocks. */
  lemma BlockerAlwaysBlocks(a: int, b: int)
    ensures ApplyModifier(Blocker, a) == ApplyModifier(Blocker, b)
    ensures ApplyModifier(Blocker, a) == -1 < 0
  {
  }

  /** The multiplier yields the nearest integer to factor × base: exactly the
      product when that is integral, and never more than one half away. */
  lemma MultiplierRounds(num: int, den: Positive, baseCost: int)
    ensures var r := ApplyModifier(Multiplier(num, den), baseCost);
            -(den as int) <= 2 * (r * den - num * baseCost) <= den
    ensures (num * baseCost) % den == 0 ==>
              ApplyModifier(Multiplier(num, den), baseCost) * den == num * baseCost
    ensures ApplyModifier(Multiplier(num, den), 0) == 0
  {
  }

  lemma {:induction false} RoundRatioMonotone(n1: int, n2: int, d: Positive)
    requires n1 <= n2
    ensures RoundRatio(n1, d) <= RoundRatio(n2, d)
  {
    var r1, r2 := RoundRatio(n1, d), RoundRatio(n2, d);
    if n1 < n2 {
      // Each result lies within one half of its ratio, and n1/d < n2/d, so
      // r1 exceeds r2 by less than one whole unit.
      assert (r1 - r2) * d < d by {
        assert (r1 - r2) * d == r1 * d - r2 * d;
      }
      ProductBelowDivisor(r1 - r2, d);
    }
  }

  lemma ProductBelowDivisor(k: int, d: Positive)
    requires k * d < d
    ensures k < 1
  {
  }

  /** With a non-negative factor, a costlier base never gives a cheaper
      result. */
  lemma {:induction false} MultiplierMonotone(num: int, den: Positive, a: int, b: int)
    requires num >= 0 && a <= b
    ensures ApplyModifier(Multiplier(num, den), a) <= ApplyModifier(Multiplier(num, den), b)
  {
    assert num * a <= num * b by {
      assert num * b - num * a == num * (b - a);
    }
    RoundRatioMonotone(num * a, num * b, den);
  }

  /** The replacer returns its value whatever the input, so applying it
      twice is the same as applying it once, and a replacer by -1 cannot be
      told apart from the blocker. */
  lemma ReplacerIsConstant(v: int, a: int, b: int)
    ensures ApplyModifier(Replacer(v), a) == ApplyModifier(Replacer(v), b) == v
    ensures ApplyModifier(Replacer(v), ApplyModifier(Replacer(v), a)) == ApplyModifier(Replacer(v), a)
    ensures ApplyModifier(Replacer(-1), a) == ApplyModifier(Blocker, a)
  {
  }
}
