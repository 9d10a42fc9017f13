/** The closed vocabulary of the rolling-over problem: the five postural states of the
    infant, the four actions it may try, their fixed enumeration orders, and the
    progress rank of each state. */
module Domain {

  /** The postural states, from lying on the back to lying on the stomach. */
  datatype State = Back | LiftedHead | ReachedArm | BentLeg | Tummy

  /** The actions. None is bound to a state; the transition model decides what each one does. */
  datatype Action = LiftHead | ReachArm | BendLeg | KickLeg

  /** The states in their declared order; the last one is the terminal state. */
  const States: seq<State> := [Back, LiftedHead, ReachedArm, BentLeg, Tummy]

  /** The actions in their declared order, which is also the iteration order of every
      row of the Q-table and hence the tie-break order of every argmax. */
  const Actions: seq<Action> := [LiftHead, ReachArm, BendLeg, KickLeg]

  const AllStates: set<State> := {Back, LiftedHead, ReachedArm, BentLeg, Tummy}
  const AllActions: set<Action> := {LiftHead, ReachArm, BendLeg, KickLeg}

  /** The states for which a policy is defined: every state but the terminal one. */
  const NonTerminal: set<State> := {Back, LiftedHead, ReachedArm, BentLeg}

  /** The progress rank of a state (the `state_values` table). */
  function Rank(s: State): nat
  {
    match s
    case Back => 0
    case LiftedHead => 1
    case ReachedArm => 2
    case BentLeg => 3
    case Tummy => 4
  }

  /** Where an action stands in the fixed action order. */
  function Position(a: Action): (k: nat)
    ensures k < |Actions| && Actions[k] == a
  {
    match a
    case LiftHead => 0
    case ReachArm => 1
    case BendLeg => 2
    case KickLeg => 3
  }

  /** The rank of a state is its position in the state order, so ranks strictly increase
      along that order, and only the terminal state has the top rank. */
  lemma RankIsPosition()
    ensures |States| == |AllStates| == 5 && |Actions| == |AllActions| == 4
    ensures forall i :: 0 <= i < |States| ==> Rank(States[i]) == i
    ensures forall s: State :: s in AllStates && States[Rank(s)] == s
    ensures forall a: Action :: a in AllActions
    ensures forall s: State :: Rank(s) == 4 <==> s == Tummy
    ensures forall s: State :: s in NonTerminal <==> s != Tummy
  {
    forall s: State
      ensures s in AllStates && States[Rank(s)] == s
    {
      match s
      case Back =>
      case LiftedHead =>
      case ReachedArm =>
      case BentLeg =>
      case Tummy =>
    }
    forall a: Action
      ensures a in AllActions
    {
      assert Actions[Position(a)] == a;
    }
  }
}
