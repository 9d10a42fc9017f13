# Baby learns to roll: a Dafny model of the Q-learning engine

This project models the tabular Q-learning agent of `Baby.py`. An infant moves through
five postural states, `back`, `lifted_head`, `reached_arm`, `bent_leg` and `tummy`, using
four actions, `lift_head`, `reach_arm`, `bend_leg` and `kick_leg`. The agent learns a Q-table
that leads it from `back` to `tummy`.

The modules follow the components of the engine:

- `Domain` (`domain.dfy`): the `State` and `Action` datatypes, their fixed enumeration
  orders, and the progress rank of each state (`state_values`).
- `Dynamics` (`dynamics.dfy`): the transition model `Perform` (`_perform_action`) and
  the progress-shaped `Reward` (`_calculate_reward`). The reward noise is a parameter;
  0 gives the deterministic mode.
- `Schedule` (`schedule.dfy`): the epsilon decay `max(0.01, 0.8^episode)`
  (`_calculate_epsilon`).
- `QTable` (`qtable.dfy`): the table as a map from states to rows, each row a map from
  actions to reals, as in `Baby.py`'s nested `q_table` dict. It holds the two ways of
  building the table, the row maximum, the greedy argmax with the tie-break of Python's
  `max(..., key=...)` (the first maximum wins), and the
  Q-learning update of one entry.
- `Agent` (`agent.dfy`): epsilon-greedy choice, one learning step, an episode, a
  training run (`learn`), and the extraction of the greedy policy
  (`best_rolling_strategy`).

Every random value is an input. Each step consumes a `Draw(u, pick, noise)`:
- `u` stands for `random.uniform(0, 1)`.
- `pick` stands for `random.choice(actions)`.
- `noise` stands for `np.random.normal(0, 0.1)`.

The model leaves `u` unconstrained, where `random.uniform(0, 1)` only returns values in
[0, 1). This only enlarges the set of behaviours covered. For example, an exploiting step
in episode 0, where epsilon is 1, is admitted by the model but never happens in `learn`.

An episode is driven by a finite sequence of draws. A training run is driven by one such
sequence per episode. Numbers are exact `real`s.

The model follows `Baby.py` on these points:
- Every action taken in `tummy` is a self-loop with `done = False` (`Baby.py:105-106`).
  The terminal flag is therefore set only by the `bent_leg` + `kick_leg` move. The model
  states `done <==> next == tummy && state != tummy`. Within `learn` no step starts in
  `tummy`, so there `done` coincides with reaching `tummy`.
- The decay rate is the code's constant 0.8 and the floor is 0.01. They are not
  configuration parameters.
- `learn` does not validate its learning rate or discount factor. The model puts no
  precondition on them. Properties that need them in [0, 1] carry that as a hypothesis.
- The learned policy covers the four non-terminal states (`states[:-1]`).
- `learn` returns nothing. The `finished` output of `Learn`, the number of episodes that
  reached `tummy`, is an observation the model adds.
- `_choose_action` also returns the uniform sample it drew. `ChooseAction` returns only
  the action, because the sample is already the caller's input `u`.

## Model

| member | source | states |
|---|---|---|
| Domain.RankIsPosition | Baby.py:30-36 | The rank of the i-th declared state is i. So ranks strictly increase along the state order, every state is listed, and only `tummy` has the top rank 4. |
| Domain.Position | Baby.py:31 | Each action's position in the declared action order, so that `Actions[Position(a)] == a`. This order is the iteration order of every Q-table row. |
| QTable.NewTable | Baby.py:33-35 | The table built by the constructor has exactly 5 rows of 4 entries, one for every (state, action) pair, and every entry is 0. |
| QTable.InitializeQTable | Baby.py:39-44 | The reset path fills the table one state at a time. It ends with a well-formed all-zero table, identical to the constructor's table. |
| QTable.MaxOf | Baby.py:75 | A left-to-right scan over a list of actions returns a value that bounds every entry and is attained by one of them. |
| QTable.MaxQ | Baby.py:75 | `max(q_table[next].values())` bounds every entry of the row and equals one of them. |
| QTable.ArgMaxIndex | Baby.py:94 | The scan behind `max(row, key=row.get)` returns an index whose entry is maximal, and every earlier entry is strictly smaller. The first maximum wins. |
| QTable.Greedy | Baby.py:94 | The greedy action has the largest value of its row. Every action earlier in the order `lift_head, reach_arm, bend_leg, kick_leg` has a strictly smaller value. |
| QTable.GreedyIsUnique | Baby.py:94 | Exactly one action meets the greedy criterion, namely `Greedy(row)`, and its value is the row maximum `MaxQ`. |
| QTable.Update | Baby.py:74-77 | The update keeps all 20 keys and changes no entry other than `Q[s][a]`. For a learning rate in [0, 1] the new value lies between the old value and the target `reward + gamma * max Q[next]`. A learning rate of 0 leaves the table unchanged. |
| QTable.UpdateIncrementalForm | Baby.py:74-77 | The convex-combination form in the code equals the Bellman form `old + lr * (target - old)`. |
| QTable.ConvexCombination | Baby.py:76-77 | `x * (1 - w) + w * y` equals `x + w * (y - x)`, and for w in [0, 1] it lies between x and y. |
| QTable.UpdateKeepsBound | Baby.py:74-77 | Assume the learning rate and the discount are in [0, 1], and the reward is within `(1 - gamma) * m` of zero. Then an update keeps every entry of a table bounded by m inside [-m, m], so the estimates stay finite. |
| Dynamics.Reward | Baby.py:108-114 | With the noise removed, the reward is exactly the rank gained when the rank increases, and exactly the penalty -0.1 otherwise. It is positive exactly when the rank increases. |
| Dynamics.Perform | Baby.py:96-106 | The state changes exactly on the four canonical moves, and each of them raises the rank by one. `done` holds exactly when the move reaches `tummy` from another state. The reward is the progress reward of the move. |
| Dynamics.ProductivePairs | Baby.py:97-104 | The productive pairs are exactly `back+lift_head`, `lifted_head+reach_arm`, `reached_arm+bend_leg` and `bent_leg+kick_leg`. Each leads to the next state in the declared order. |
| Dynamics.PerformIsMonotone | Baby.py:96-106 | A move never lowers the rank and raises it by at most one. `done` is true only for `bent_leg+kick_leg`, so every action taken in `tummy` is a non-terminal self-loop. |
| Dynamics.DeterministicReward | Baby.py:96-114 | Without noise, each link of the canonical chain earns exactly 1 and every other move earns -0.1. The reward is positive exactly when the state changes. |
| Schedule.Epsilon | Baby.py:82-87 | Epsilon is at least both the floor 0.01 and `0.8^episode`, and equals one of them, so it is their maximum. It lies in [0.01, 1] and is 1 at episode 0. |
| Schedule.PowNonIncreasing | Baby.py:86 | Powers of a base in (0, 1] do not increase with the exponent. |
| Schedule.EpsilonNonIncreasing | Baby.py:82-87 | Epsilon never increases from one episode to a later one. |
| Schedule.EpsilonReachesFloor | Baby.py:84-86 | Epsilon equals the floor 0.01 exactly from episode 21 on, and is above it before. |
| Agent.CanonicalAction | Baby.py:97-104 | The action whose position equals a non-terminal state's rank is the productive action of that state. |
| Agent.CanonicalPolicy | Baby.py:97-104 | The canonical chain, read as a policy, is `{back: lift_head, lifted_head: reach_arm, reached_arm: bend_leg, bent_leg: kick_leg}`. |
| Agent.ChooseAction | Baby.py:89-94 | Below epsilon the supplied random pick is returned. Otherwise the returned action is maximal in the state's row, and ties go to the earliest action. |
| Agent.Step | Baby.py:66-79 | One iteration of the episode loop keeps the table well-formed and moves only the chosen entry, towards its target. The rank rises by at most one, and it rises exactly when the chosen action is productive. The step ends the episode exactly when it enters `tummy`. The new table is the Q-learning update of the chosen entry with the reward and next state of the move. |
| Agent.NoiseFreeStepKeepsBound | Baby.py:74-77 | Without noise and with `(1 - gamma) * m >= 1`, a step keeps every estimate inside [-m, m]. |
| Agent.Episode | Baby.py:56-79 | The episode loop as a recursion over the draws. It takes at most one step per draw and stops early only in `tummy`. The rank gains at most one per step, and the `tummy` row is never updated when the episode starts elsewhere. |
| Agent.EpisodeAtZeroRate | Baby.py:73-77 | At learning rate 0 an episode, from any state and with any draws, leaves the table unchanged. |
| Agent.NoiseFreeEpisodeKeepsBound | Baby.py:66-79 | Without noise and with `(1 - gamma) * m >= 1`, a whole episode keeps every estimate inside [-m, m]. |
| Agent.ExploitingCanonicalEpisode | Baby.py:66-79 | Suppose an episode only exploits, and the rows of its start state and every later state choose the canonical action. Then it reaches `tummy` in exactly `4 - rank` steps. |
| Agent.ExploitingCanonicalStep | Baby.py:67-79 | An exploiting step from such a state moves exactly one link along the chain, and the rows still ahead keep their canonical choice. |
| Agent.RunEpisode | Baby.py:56-79 | The loop computes exactly `Episode` from `back` with the epsilon of its episode index. It never takes more steps than there are draws, and its rank never exceeds the steps taken, so it needs at least four. It never updates the `tummy` row and leaves the table alone at learning rate 0. Without noise it stays within the bound. An exploit-only episode on a table whose greedy policy is canonical ends in exactly four steps. |
| Agent.Training | Baby.py:56-59 | The training loop as a recursion. Episode i runs `Episode` from `back` with epsilon of its own index, on the table the previous episode left. The count of finished episodes is at most the number of episodes, and the `tummy` row never changes. |
| Agent.TrainingAtZeroRate | Baby.py:56-77 | At learning rate 0 a whole training run leaves the table unchanged. |
| Agent.NoiseFreeTrainingKeepsBound | Baby.py:56-79 | Without noise in any episode and with `(1 - gamma) * m >= 1`, a whole training run keeps every estimate inside [-m, m]. |
| Agent.Learn | Baby.py:46-79 | The loop computes exactly `Training` from episode 0. Its final table is the fold of `Episode` over the episodes, and `finished` counts the episodes that reached `tummy`. It keeps the table's 20 keys, never updates the `tummy` row, changes nothing at learning rate 0, and without noise stays within the bound. |
| Agent.BestRollingStrategy | Baby.py:129-136 | The policy has exactly the four non-terminal states as keys, and each value is the greedy action of that state's row. |
| Agent.BestRollingStrategyIsUnique | Baby.py:136 | A map equals the extracted policy if and only if it covers exactly the non-terminal states and every choice in it is greedy. |
| Agent.StrictPreferenceGivesCanonicalPolicy | Baby.py:136 | A table that strictly prefers the canonical action in every non-terminal state yields the canonical policy. |

## Left out

- `plot_q_table`, `print_q_table` and the `print` and plot calls inside `learn`
  (`Baby.py:55`, `Baby.py:60-64`, `Baby.py:70`, `Baby.py:116-149`) are presentation
  side effects with no effect on the table.
- `animation.py`, `StreamlitBaby.py`, `main.py` and `streamlit_baby_main.py` are not
  part of this model. They are rendering, UI and entry-point code. The table reset in
  `StreamlitBaby.py:28` is `InitializeQTable`.
- The random sources are not modelled. `random.uniform`, `random.choice` and
  `np.random.normal` become the supplied `Draw` values. The noise distribution and any
  claim that depends on it are out of scope: convergence under exploration, and the
  expected length of an episode.
- IEEE floating point: all arithmetic is exact over the reals.
- Agent.RunEpisode: `learn` loops until `tummy` is reached, which happens only with
  probability 1. The model stops early when the supplied draws run out, and reports
  `done = false` in that case.
- Convergence is not proved. No member states that noise-free episodes whose draws all
  have `u >= Epsilon(e)` end, after enough episodes, with
  `BestRollingStrategy(q) == CanonicalPolicy()`. Such a claim would need the real-valued
  updates of many episodes evaluated symbolically. `StrictPreferenceGivesCanonicalPolicy`
  and the exploit-only clause of `RunEpisode` state the parts of it that hold for every
  table.
- Determinism and idempotence of `best_rolling_strategy` have no member of their own.
  Every operation here is a pure function of its inputs, including the supplied draws,
  so equal inputs give equal results.
