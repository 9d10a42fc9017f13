/** The environment the agent acts in: the transition model and the progress-shaped
    reward. Both are pure; the reward noise is supplied by the caller. */
module Dynamics {
  import opened Domain

  /** The reward for any move that makes no progress. */
  const Penalty: real := -0.1

  /** What one action produces: the next state, its reward, and whether the episode ends. */
  datatype Outcome = Outcome(next: State, reward: real, done: bool)

  /** The canonical chain as a transition table: the action that moves a non-terminal
      state forward is the one whose position equals the state's rank. */
  predicate Productive(s: State, a: Action)
  {
    s != Tummy && Position(a) == Rank(s)
  }

  /** The reward for moving from `current` to `next`: the rank gained when it is
      positive, the penalty otherwise, in both cases shifted by `noise`. */
  function Reward(current: State, next: State, noise: real): (r: real)
    ensures r - noise > 0.0 <==> Rank(next) > Rank(current)
    ensures r - noise >= Penalty
    ensures Rank(next) > Rank(current) ==> r - noise == (Rank(next) - Rank(current)) as real
    ensures Rank(next) <= Rank(current) ==> r == Penalty + noise
  {
    var progress := Rank(next) as int - Rank(current) as int;
    if progress > 0 then progress as real + noise else Penalty + noise
  }

  /** Apply an action in a state. Exactly four pairs move forward; every other pair,
      including every action taken in the terminal state, leaves the state unchanged and
      does not end the episode. */
  function Perform(s: State, a: Action, noise: real): (o: Outcome)
    ensures o.next != s <==> Productive(s, a)
    ensures Productive(s, a) ==> Rank(o.next) == Rank(s) + 1
    ensures o.done <==> o.next == Tummy && s != Tummy
    ensures o.reward == Reward(s, o.next, noise)
  {
    if s == Back && a == LiftHead then Outcome(LiftedHead, Reward(s, LiftedHead, noise), false)
    else if s == LiftedHead && a == ReachArm then Outcome(ReachedArm, Reward(s, ReachedArm, noise), false)
    else if s == ReachedArm && a == BendLeg then Outcome(BentLeg, Reward(s, BentLeg, noise), false)
    else if s == BentLeg && a == KickLeg then Outcome(Tummy, Reward(s, Tummy, noise), true)
    else Outcome(s, Reward(s, s, noise), false)
  }

  /** The productive pairs are exactly the four links of the canonical chain, and the
      state reached is the next one in the state order. */
  lemma ProductivePairs(s: State, a: Action)
    ensures Productive(s, a) <==>
      (s, a) in {(Back, LiftHead), (LiftedHead, ReachArm), (ReachedArm, BendLeg), (BentLeg, KickLeg)}
    ensures Productive(s, a) ==> Rank(s) + 1 < |States| && Perform(s, a, 0.0).next == States[Rank(s) + 1]
  {
  }

  /** The rank never decreases and grows by at most one per action; the episode ends
      exactly on the `bent_leg` + `kick_leg` move. */
  lemma PerformIsMonotone(s: State, a: Action, noise: real)
    ensures Rank(s) <= Rank(Perform(s, a, noise).next) <= Rank(s) + 1
    ensures Perform(s, a, noise).done <==> s == BentLeg && a == KickLeg
  {
  }

  /** Without noise, every link of the canonical chain is rewarded exactly 1 and every
      other move gets the penalty. */
  lemma DeterministicReward(s: State, a: Action)
    ensures Perform(s, a, 0.0).reward == if Productive(s, a) then 1.0 else Penalty
    ensures Perform(s, a, 0.0).reward > 0.0 <==> Perform(s, a, 0.0).next != s
  {
  }
}
