/** The learner: epsilon-greedy action choice, one Q-learning step, an episode from
    `back` to `tummy`, a training run over several episodes, and the extraction of the
    greedy policy. Every random value is supplied by the caller as a `Draw`. */
module Agent {
  import opened Domain
  import opened Dynamics
  import opened Schedule
  import opened QTable

  /** The random values one step consumes: the uniform sample compared with epsilon, the
      action taken when exploring, and the noise added to the reward. */
  datatype Draw = Draw(u: real, pick: Action, noise: real)

  /** The effect of one step: the updated table, the action taken, where it led, the
      reward received, and whether the episode ended. */
  datatype StepResult = StepResult(table: Table, action: Action, next: State, reward: real, done: bool)

  /** The action that moves a non-terminal state one link along the canonical chain. */
  function CanonicalAction(s: State): (a: Action)
    requires s != Tummy
    ensures Productive(s, a)
  {
    RankIsPosition();
    Actions[Rank(s)]
  }

  /** The policy that rolls the infant over: back -> lift_head, lifted_head -> reach_arm,
      reached_arm -> bend_leg, bent_leg -> kick_leg. */
  function CanonicalPolicy(): (p: map<State, Action>)
    ensures p == map[Back := LiftHead, LiftedHead := ReachArm, ReachedArm := BendLeg, BentLeg := KickLeg]
  {
    RankIsPosition();
    map s | s in NonTerminal :: CanonicalAction(s)
  }

  /** Epsilon-greedy selection: explore with the supplied pick when the sample falls below
      epsilon, otherwise exploit the greedy action of the state's row. */
  function ChooseAction(q: Table, s: State, epsilon: real, u: real, pick: Action): (a: Action)
    requires WellFormed(q)
    ensures u < epsilon ==> a == pick
    ensures epsilon <= u ==> IsGreedy(q[s], a)
  {
    if u < epsilon then pick else Greedy(q[s])
  }

  /** One step of an episode: choose, act, and update the chosen entry. */
  function Step(q: Table, s: State, epsilon: real, d: Draw, lr: real, gamma: real): (r: StepResult)
    requires WellFormed(q)
    ensures WellFormed(r.table)
    ensures d.u < epsilon ==> r.action == d.pick
    ensures epsilon <= d.u ==> IsGreedy(q[s], r.action)
    ensures r.next != s <==> Productive(s, r.action)
    ensures Rank(s) <= Rank(r.next) <= Rank(s) + 1
    ensures r.done <==> r.next == Tummy && s != Tummy
    ensures r.reward == Reward(s, r.next, d.noise)
    ensures r.table == Update(q, s, r.action, r.reward, r.next, lr, gamma)
    ensures forall t, b :: t in r.table && b in r.table[t] && (t, b) != (s, r.action) ==> r.table[t][b] == q[t][b]
    ensures forall t :: t in r.table && t != s ==> r.table[t] == q[t]
    ensures 0.0 <= lr <= 1.0 ==> Between(r.table[s][r.action], q[s][r.action], Target(q, r.next, r.reward, gamma))
  {
    var a := ChooseAction(q, s, epsilon, d.u, d.pick);
    var o := Perform(s, a, d.noise);
    PerformIsMonotone(s, a, d.noise);
    StepResult(Update(q, s, a, o.reward, o.next, lr, gamma), a, o.next, o.reward, o.done)
  }

  /** Without reward noise, a step keeps every estimate inside [-m, m] whenever
      (1 - gamma) * m >= 1: the rewards lie in [-0.1, 1], so the table cannot blow up. */
  lemma NoiseFreeStepKeepsBound(q: Table, s: State, epsilon: real, d: Draw, lr: real, gamma: real, m: real)
    requires WellFormed(q) && Bounded(q, m)
    requires d.noise == 0.0
    requires Stable(lr, gamma, m)
    ensures Bounded(Step(q, s, epsilon, d, lr, gamma).table, m)
  {
    var r := Step(q, s, epsilon, d, lr, gamma);
    assert -0.1 <= r.reward <= 1.0;
    UpdateKeepsBound(q, s, r.action, r.reward, r.next, lr, gamma, m);
  }

  /** No draw perturbs the reward. */
  predicate NoiseFree(draws: seq<Draw>)
  {
    forall i :: 0 <= i < |draws| ==> draws[i].noise == 0.0
  }

  /** The hyperparameters and the bound m under which noise-free training keeps the table
      inside [-m, m]. */
  predicate Stable(lr: real, gamma: real, m: real)
  {
    0.0 <= lr <= 1.0 && 0.0 <= gamma <= 1.0 && 1.0 <= (1.0 - gamma) * m
  }

  /** Every sample of the draws is at least epsilon: the episode only exploits. */
  predicate Exploits(draws: seq<Draw>, epsilon: real)
  {
    forall i :: 0 <= i < |draws| ==> epsilon <= draws[i].u
  }

  /** The greedy action of every non-terminal state is its canonical action. */
  predicate PolicyIsCanonical(q: Table)
    requires WellFormed(q)
  {
    forall s :: s != Tummy ==> Greedy(q[s]) == CanonicalAction(s)
  }

  /** Where an episode left off: the table, the state reached, and the steps taken. */
  datatype EpisodeResult = EpisodeResult(table: Table, state: State, steps: nat)

  /** The episode loop as a recursion: from state `s`, take one `Step` per draw, in order,
      until `tummy` is reached or the draws run out. It never takes more steps than there
      are draws, stops early only in `tummy`, gains at most one rank per step, and never
      updates the `tummy` row when it does not start there. */
  function Episode(q: Table, s: State, epsilon: real, draws: seq<Draw>, lr: real, gamma: real): (r: EpisodeResult)
    requires WellFormed(q)
    ensures WellFormed(r.table)
    ensures r.steps <= |draws|
    ensures r.state == Tummy || r.steps == |draws|
    ensures Rank(r.state) <= Rank(s) + r.steps
    ensures s != Tummy ==> r.table[Tummy] == q[Tummy]
    decreases |draws|
  {
    if s == Tummy || |draws| == 0 then EpisodeResult(q, s, 0)
    else
      var st := Step(q, s, epsilon, draws[0], lr, gamma);
      var rest := Episode(st.table, st.next, epsilon, draws[1..], lr, gamma);
      EpisodeResult(rest.table, rest.state, rest.steps + 1)
  }

  /** At learning rate 0 an episode leaves the table as it found it. */
  lemma {:induction false} EpisodeAtZeroRate(q: Table, s: State, epsilon: real, draws: seq<Draw>, gamma: real)
    requires WellFormed(q)
    ensures Episode(q, s, epsilon, draws, 0.0, gamma).table == q
    decreases |draws|
  {
    if s != Tummy && |draws| > 0 {
      var st := Step(q, s, epsilon, draws[0], 0.0, gamma);
      EpisodeAtZeroRate(st.table, st.next, epsilon, draws[1..], gamma);
    }
  }

  /** Without noise, and with `Stable(lr, gamma, m)`, an episode keeps a table inside
      [-m, m] inside it. */
  lemma {:induction false} NoiseFreeEpisodeKeepsBound(q: Table, s: State, epsilon: real, draws: seq<Draw>, lr: real, gamma: real, m: real)
    requires WellFormed(q) && Bounded(q, m)
    requires NoiseFree(draws) && Stable(lr, gamma, m)
    ensures Bounded(Episode(q, s, epsilon, draws, lr, gamma).table, m)
    decreases |draws|
  {
    if s != Tummy && |draws| > 0 {
      var st := Step(q, s, epsilon, draws[0], lr, gamma);
      NoiseFreeStepKeepsBound(q, s, epsilon, draws[0], lr, gamma, m);
      assert NoiseFree(draws[1..]) by {
        assert forall i :: 0 <= i < |draws| - 1 ==> draws[1..][i] == draws[i + 1];
      }
      NoiseFreeEpisodeKeepsBound(st.table, st.next, epsilon, draws[1..], lr, gamma, m);
    }
  }

  /** The rows of `s` and of every later non-terminal state pick their canonical action. */
  predicate CanonicalFrom(q: Table, s: State)
    requires WellFormed(q)
  {
    forall t :: t != Tummy && Rank(s) <= Rank(t) ==> Greedy(q[t]) == CanonicalAction(t)
  }

  /** An episode that only exploits, from a state whose remaining rows already choose the
      canonical actions, walks the rest of the chain: it reaches `tummy` in exactly one step
      per remaining link. */
  lemma {:induction false} ExploitingCanonicalEpisode(q: Table, s: State, epsilon: real, draws: seq<Draw>, lr: real, gamma: real)
    requires WellFormed(q) && CanonicalFrom(q, s) && Exploits(draws, epsilon)
    requires 4 - Rank(s) <= |draws|
    ensures Episode(q, s, epsilon, draws, lr, gamma).state == Tummy
    ensures Episode(q, s, epsilon, draws, lr, gamma).steps == 4 - Rank(s)
    decreases |draws|
  {
    if s != Tummy {
      var st := Step(q, s, epsilon, draws[0], lr, gamma);
      ExploitingCanonicalStep(q, s, epsilon, draws[0], lr, gamma);
      ExploitsTail(draws, epsilon);
      ExploitingCanonicalEpisode(st.table, st.next, epsilon, draws[1..], lr, gamma);
    } else {
      RankIsPosition();
    }
  }

  /** An exploiting step from a state whose remaining rows choose the canonical actions
      moves one link along the chain, and the rows still ahead are untouched. Each update
      touches only the row just left, which the walk never revisits. */
  lemma ExploitingCanonicalStep(q: Table, s: State, epsilon: real, d: Draw, lr: real, gamma: real)
    requires WellFormed(q) && CanonicalFrom(q, s) && s != Tummy && epsilon <= d.u
    ensures Rank(Step(q, s, epsilon, d, lr, gamma).next) == Rank(s) + 1
    ensures CanonicalFrom(Step(q, s, epsilon, d, lr, gamma).table, Step(q, s, epsilon, d, lr, gamma).next)
  {
    var st := Step(q, s, epsilon, d, lr, gamma);
    GreedyIsUnique(q[s], st.action);
    assert st.action == CanonicalAction(s);
    forall t | t != Tummy && Rank(st.next) <= Rank(t)
      ensures Greedy(st.table[t]) == CanonicalAction(t)
    {
      assert st.table[t] == q[t];
    }
  }

  lemma ExploitsTail(draws: seq<Draw>, epsilon: real)
    requires |draws| > 0 && Exploits(draws, epsilon)
    ensures Exploits(draws[1..], epsilon)
  {
    assert forall i :: 0 <= i < |draws| - 1 ==> draws[1..][i] == draws[i + 1];
  }

  /** One episode, starting at `back` with the given table and consuming one draw per
      step: the loop of `learn`, computing exactly `Episode` with the epsilon of its index.
      It ends when `tummy` is reached or, failing that, when the draws run out.
      The state's rank never exceeds the number of steps taken, the terminal row is never
      updated, a zero learning rate leaves the table alone, and an episode that only
      exploits a table whose greedy policy is already canonical walks the chain in exactly
      four steps. Without noise, and with `Stable(lr, gamma, m)`, a table inside [-m, m]
      stays inside it. */
  method RunEpisode(q0: Table, episode: nat, draws: seq<Draw>, lr: real, gamma: real, ghost m: real)
    returns (q: Table, state: State, steps: nat, done: bool)
    requires WellFormed(q0)
    ensures EpisodeResult(q, state, steps) == Episode(q0, Back, Epsilon(episode), draws, lr, gamma)
    ensures WellFormed(q)
    ensures done <==> state == Tummy
    ensures steps <= |draws| && (!done ==> steps == |draws|)
    ensures Rank(state) <= steps
    ensures q[Tummy] == q0[Tummy]
    ensures lr == 0.0 ==> q == q0
    ensures Exploits(draws, Epsilon(episode)) && PolicyIsCanonical(q0) && 4 <= |draws| ==> done && steps == 4
    ensures NoiseFree(draws) && Stable(lr, gamma, m) && Bounded(q0, m) ==> Bounded(q, m)
  {
    var epsilon := Epsilon(episode);
    q, state, steps, done := q0, Back, 0, false;
    while !done && steps < |draws|
      invariant WellFormed(q)
      invariant steps <= |draws|
      invariant done <==> state == Tummy
      invariant var rest := Episode(q, state, epsilon, draws[steps..], lr, gamma);
        EpisodeResult(rest.table, rest.state, rest.steps + steps) == Episode(q0, Back, epsilon, draws, lr, gamma)
    {
      var r := Step(q, state, epsilon, draws[steps], lr, gamma);
      assert draws[steps..][0] == draws[steps] && draws[steps..][1..] == draws[steps + 1..];
      q, state, done := r.table, r.next, r.done;
      steps := steps + 1;
    }
    assert draws[steps..] == [] || state == Tummy;
    EpisodeAtZeroRate(q0, Back, epsilon, draws, gamma);
    if Exploits(draws, epsilon) && PolicyIsCanonical(q0) && 4 <= |draws| {
      ExploitingCanonicalEpisode(q0, Back, epsilon, draws, lr, gamma);
    }
    if NoiseFree(draws) && Stable(lr, gamma, m) && Bounded(q0, m) {
      NoiseFreeEpisodeKeepsBound(q0, Back, epsilon, draws, lr, gamma, m);
    }
  }

  /** What a training run produced: the final table and the number of episodes that
      reached `tummy`. */
  datatype TrainingResult = TrainingResult(table: Table, finished: nat)

  /** The training loop as a recursion: episode `first + i` runs `Episode` on `episodes[i]`
      from `back`, with the epsilon of its own index and the table the previous episode
      left; `finished` counts the episodes that end in `tummy`. */
  function Training(q: Table, episodes: seq<seq<Draw>>, first: nat, lr: real, gamma: real): (r: TrainingResult)
    requires WellFormed(q)
    ensures WellFormed(r.table)
    ensures r.finished <= |episodes|
    ensures r.table[Tummy] == q[Tummy]
    decreases |episodes|
  {
    if |episodes| == 0 then TrainingResult(q, 0)
    else
      var ep := Episode(q, Back, Epsilon(first), episodes[0], lr, gamma);
      var rest := Training(ep.table, episodes[1..], first + 1, lr, gamma);
      TrainingResult(rest.table, rest.finished + if ep.state == Tummy then 1 else 0)
  }

  /** At learning rate 0 a training run leaves the table as it found it. */
  lemma {:induction false} TrainingAtZeroRate(q: Table, episodes: seq<seq<Draw>>, first: nat, gamma: real)
    requires WellFormed(q)
    ensures Training(q, episodes, first, 0.0, gamma).table == q
    decreases |episodes|
  {
    if |episodes| > 0 {
      EpisodeAtZeroRate(q, Back, Epsilon(first), episodes[0], gamma);
      TrainingAtZeroRate(q, episodes[1..], first + 1, gamma);
    }
  }

  /** Without noise in any episode, and with `Stable(lr, gamma, m)`, a whole training run
      keeps a table inside [-m, m] inside it. */
  lemma {:induction false} NoiseFreeTrainingKeepsBound(q: Table, episodes: seq<seq<Draw>>, first: nat, lr: real, gamma: real, m: real)
    requires WellFormed(q) && Bounded(q, m) && Stable(lr, gamma, m)
    requires AllNoiseFree(episodes)
    ensures Bounded(Training(q, episodes, first, lr, gamma).table, m)
    decreases |episodes|
  {
    if |episodes| > 0 {
      var ep := Episode(q, Back, Epsilon(first), episodes[0], lr, gamma);
      NoiseFreeEpisodeKeepsBound(q, Back, Epsilon(first), episodes[0], lr, gamma, m);
      AllNoiseFreeTail(episodes);
      NoiseFreeTrainingKeepsBound(ep.table, episodes[1..], first + 1, lr, gamma, m);
    }
  }

  /** No draw of any episode perturbs the reward. */
  predicate AllNoiseFree(episodes: seq<seq<Draw>>)
  {
    forall e :: 0 <= e < |episodes| ==> NoiseFree(episodes[e])
  }

  lemma AllNoiseFreeTail(episodes: seq<seq<Draw>>)
    requires |episodes| > 0 && AllNoiseFree(episodes)
    ensures NoiseFree(episodes[0]) && AllNoiseFree(episodes[1..])
  {
    assert forall e :: 0 <= e < |episodes| - 1 ==> episodes[1..][e] == episodes[e + 1];
  }

  /** A training run: one episode per supplied draw sequence, in order, each starting at
      `back` with the table the previous one left, the episode index setting epsilon. It
      computes exactly `Training` from episode 0, so `finished` counts the episodes that
      reached `tummy`. The terminal row is never updated, a zero learning rate changes
      nothing, and without noise, with `Stable(lr, gamma, m)`, every estimate stays inside
      [-m, m] for the whole run. */
  method Learn(q0: Table, episodes: seq<seq<Draw>>, lr: real, gamma: real, ghost m: real) returns (q: Table, finished: nat)
    requires WellFormed(q0)
    ensures TrainingResult(q, finished) == Training(q0, episodes, 0, lr, gamma)
    ensures WellFormed(q)
    ensures finished <= |episodes|
    ensures q[Tummy] == q0[Tummy]
    ensures lr == 0.0 ==> q == q0
    ensures AllNoiseFree(episodes) && Stable(lr, gamma, m) && Bounded(q0, m) ==> Bounded(q, m)
  {
    q, finished := q0, 0;
    var e := 0;
    while e < |episodes|
      invariant 0 <= e <= |episodes|
      invariant WellFormed(q)
      invariant var rest := Training(q, episodes[e..], e, lr, gamma);
        TrainingResult(rest.table, rest.finished + finished) == Training(q0, episodes, 0, lr, gamma)
    {
      assert episodes[e..][0] == episodes[e] && episodes[e..][1..] == episodes[e + 1..];
      var state, steps, done;
      q, state, steps, done := RunEpisode(q, e, episodes[e], lr, gamma, m);
      if done {
        finished := finished + 1;
      }
      e := e + 1;
    }
    assert episodes[e..] == [];
    TrainingAtZeroRate(q0, episodes, 0, gamma);
    if AllNoiseFree(episodes) && Stable(lr, gamma, m) && Bounded(q0, m) {
      NoiseFreeTrainingKeepsBound(q0, episodes, 0, lr, gamma, m);
    }
  }

  /** The learned policy: for every non-terminal state, its greedy action. The terminal
      state has no entry. */
  function BestRollingStrategy(q: Table): (p: map<State, Action>)
    requires WellFormed(q)
    ensures p.Keys == NonTerminal
    ensures forall s :: s in p ==> IsGreedy(q[s], p[s])
  {
    map s | s in NonTerminal :: Greedy(q[s])
  }

  /** The learned policy is the only map over the non-terminal states whose every choice
      is greedy. */
  lemma BestRollingStrategyIsUnique(q: Table, p: map<State, Action>)
    requires WellFormed(q)
    ensures p == BestRollingStrategy(q) <==> p.Keys == NonTerminal && forall s :: s in p ==> IsGreedy(q[s], p[s])
  {
    if p.Keys == NonTerminal && forall s :: s in p ==> IsGreedy(q[s], p[s]) {
      GreedyChoicesAreBest(q, p);
    }
  }

  lemma GreedyChoicesAreBest(q: Table, p: map<State, Action>)
    requires WellFormed(q)
    requires p.Keys == NonTerminal
    requires forall s :: s in p ==> IsGreedy(q[s], p[s])
    ensures p == BestRollingStrategy(q)
  {
    var best := BestRollingStrategy(q);
    forall s | s in p
      ensures p[s] == best[s]
    {
      GreedyIsUnique(q[s], p[s]);
    }
    assert p.Keys == best.Keys;
  }

  /** Every other action of the row is strictly worse than `a`. */
  predicate StrictlyPrefers(row: Row, a: Action)
    requires Total(row)
  {
    forall b :: b != a ==> row[b] < row[a]
  }

  /** A table that strictly prefers the canonical action in every non-terminal state yields
      the canonical policy. */
  lemma StrictPreferenceGivesCanonicalPolicy(q: Table)
    requires WellFormed(q)
    requires forall s :: s != Tummy ==> StrictlyPrefers(q[s], CanonicalAction(s))
    ensures PolicyIsCanonical(q)
    ensures BestRollingStrategy(q) == CanonicalPolicy()
  {
    forall s | s != Tummy
      ensures Greedy(q[s]) == CanonicalAction(s)
    {
      GreedyIsUnique(q[s], CanonicalAction(s));
    }
    BestRollingStrategyIsUnique(q, CanonicalPolicy());
  }
}
