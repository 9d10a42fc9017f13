/** The exploration schedule: the probability of acting at random in a given episode
    decays geometrically from 1 down to a floor. */
module Schedule {

  const EpsilonMin: real := 0.01
  const EpsilonDecay: real := 0.8

  /** `b` raised to the natural power `n`. */
  function Pow(b: real, n: nat): real
  {
    if n == 0 then 1.0 else b * Pow(b, n - 1)
  }

  /** Powers of a base in (0, 1] stay in (0, 1]. */
  lemma {:induction false} PowInUnit(b: real, n: nat)
    requires 0.0 < b <= 1.0
    ensures 0.0 < Pow(b, n) <= 1.0
  {
    if n > 0 {
      PowInUnit(b, n - 1);
      var p := Pow(b, n - 1);
      assert b * p <= p by {
        assert (1.0 - b) * p >= 0.0;
      }
    }
  }

  /** Powers of a base in (0, 1] do not increase with the exponent. */
  lemma {:induction false} PowNonIncreasing(b: real, m: nat, n: nat)
    requires 0.0 < b <= 1.0
    requires m <= n
    ensures Pow(b, n) <= Pow(b, m)
  {
    if m < n {
      PowNonIncreasing(b, m, n - 1);
      PowInUnit(b, n - 1);
    }
  }

  /** Exponents add under multiplication. */
  lemma {:induction false} PowAdd(b: real, m: nat, n: nat)
    ensures Pow(b, m + n) == Pow(b, m) * Pow(b, n)
  {
    if n > 0 {
      PowAdd(b, m, n - 1);
    }
  }

  /** The exploration probability of a zero-based episode index: the larger of the floor
      and the decayed value, so it is at least both and equal to one of them. */
  function Epsilon(episode: nat): (eps: real)
    ensures EpsilonMin <= eps <= 1.0
    ensures Pow(EpsilonDecay, episode) <= eps
    ensures eps == EpsilonMin || eps == Pow(EpsilonDecay, episode)
    ensures episode == 0 ==> eps == 1.0
  {
    PowInUnit(EpsilonDecay, episode);
    var p := Pow(EpsilonDecay, episode);
    if EpsilonMin < p then p else EpsilonMin
  }

  /** The schedule never increases from one episode to a later one. */
  lemma EpsilonNonIncreasing(e1: nat, e2: nat)
    requires e1 <= e2
    ensures Epsilon(e2) <= Epsilon(e1)
  {
    PowNonIncreasing(EpsilonDecay, e1, e2);
  }

  /** The decay hits the floor at episode 21 (0.8^20 is about 0.0115 and 0.8^21 about
      0.0092): before that every episode explores more than the floor, from then on
      exactly at the floor. */
  lemma EpsilonReachesFloor(e: nat)
    ensures Epsilon(e) == EpsilonMin <==> e >= 21
  {
    var p5 := Pow(EpsilonDecay, 5);
    assert p5 == 0.32768 by {
      assert Pow(EpsilonDecay, 2) == 0.64;
      assert Pow(EpsilonDecay, 4) == 0.4096;
    }
    PowAdd(EpsilonDecay, 5, 5);
    PowAdd(EpsilonDecay, 10, 10);
    PowAdd(EpsilonDecay, 20, 1);
    assert Pow(EpsilonDecay, 20) == 0.011529215046068469760;
    assert Pow(EpsilonDecay, 21) == 0.0092233720368547758080;
    if e >= 21 {
      PowNonIncreasing(EpsilonDecay, 21, e);
    } else {
      PowNonIncreasing(EpsilonDecay, e, 20);
    }
  }
}
