/** The Q-table: one real estimate per (state, action) pair, kept as a map from states
    to rows, each row a map from actions to values, as in `Baby.py`'s nested `q_table` dict.
    This module holds its construction, its row maximum and argmax, and the
    Q-learning update of one entry. */
module QTable {
  import opened Domain

  type Row = map<Action, real>
  type Table = map<State, Row>

  /** A row has exactly one entry per action. */
  predicate Total(row: Row)
  {
    forall a: Action :: a in row
  }

  /** A table has exactly one row per state and every row is total: 5 x 4 entries. */
  predicate WellFormed(q: Table)
  {
    forall s: State :: s in q && Total(q[s])
  }

  /** `x` lies on the segment between `a` and `b`, whichever is larger. */
  predicate Between(x: real, a: real, b: real)
  {
    (a <= x <= b) || (b <= x <= a)
  }

  /** A row of zeros, one per action. */
  function ZeroRow(): (row: Row)
    ensures Total(row) && |row| == 4
    ensures forall a :: a in row ==> row[a] == 0.0
  {
    RankIsPosition();
    var row := map a | a in AllActions :: 0.0;
    assert row.Keys == AllActions;
    row
  }

  /** The table a fresh agent starts with: every pair present, every estimate zero. */
  function NewTable(): (q: Table)
    ensures WellFormed(q) && |q| == 5
    ensures forall s: State, a: Action :: s in q && a in q[s] && q[s][a] == 0.0
  {
    RankIsPosition();
    var q := map s | s in AllStates :: ZeroRow();
    assert q.Keys == AllStates;
    q
  }

  /** The reset path: builds the table one state at a time in the state order, and ends
      with the same table as `NewTable`. */
  method InitializeQTable() returns (q: Table)
    ensures WellFormed(q)
    ensures forall s :: s in q ==> forall a :: a in q[s] ==> q[s][a] == 0.0
    ensures q == NewTable()
  {
    RankIsPosition();
    q := map[];
    var i := 0;
    while i < |States|
      invariant 0 <= i <= |States|
      invariant q.Keys == set j | 0 <= j < i :: States[j]
      invariant forall s :: s in q ==> q[s] == ZeroRow()
    {
      q := q[States[i] := ZeroRow()];
      i := i + 1;
    }
    assert q.Keys == AllStates;
  }

  /** The largest value among the entries of `acts`, scanned left to right. */
  function MaxOf(row: Row, acts: seq<Action>): (m: real)
    requires |acts| > 0
    requires forall i :: 0 <= i < |acts| ==> acts[i] in row
    ensures forall i :: 0 <= i < |acts| ==> row[acts[i]] <= m
    ensures exists i :: 0 <= i < |acts| && row[acts[i]] == m
    decreases |acts|
  {
    if |acts| == 1 then row[acts[0]]
    else
      var m := MaxOf(row, acts[..|acts| - 1]);
      var x := row[acts[|acts| - 1]];
      if x > m then x else m
  }

  /** The largest estimate in a row. */
  function MaxQ(row: Row): (m: real)
    requires Total(row)
    ensures forall a :: a in row ==> row[a] <= m
    ensures exists a :: a in row && row[a] == m
  {
    assert forall a :: a in row ==> Actions[Position(a)] == a;
    MaxOf(row, Actions)
  }

  /** The index of the first maximal entry of `acts`: the scan keeps its current best and
      replaces it only by a strictly larger value. */
  function ArgMaxIndex(row: Row, acts: seq<Action>): (k: nat)
    requires |acts| > 0
    requires forall i :: 0 <= i < |acts| ==> acts[i] in row
    ensures k < |acts|
    ensures forall i :: 0 <= i < |acts| ==> row[acts[i]] <= row[acts[k]]
    ensures forall i :: 0 <= i < k ==> row[acts[i]] < row[acts[k]]
    decreases |acts|
  {
    if |acts| == 1 then 0
    else
      var k := ArgMaxIndex(row, acts[..|acts| - 1]);
      if row[acts[|acts| - 1]] > row[acts[k]] then |acts| - 1 else k
  }

  /** `a` is a greedy choice in `row`: no entry beats it, and every action before it in
      the action order is strictly worse. */
  predicate IsGreedy(row: Row, a: Action)
    requires Total(row)
  {
    && (forall b :: b in row ==> row[b] <= row[a])
    && (forall b :: b in row && Position(b) < Position(a) ==> row[b] < row[a])
  }

  /** The greedy action of a row: a maximal entry, ties going to the earliest action. */
  function Greedy(row: Row): (a: Action)
    requires Total(row)
    ensures IsGreedy(row, a)
  {
    RankIsPosition();
    var k := ArgMaxIndex(row, Actions);
    assert forall b :: b in row ==> Actions[Position(b)] == b;
    Actions[k]
  }

  /** The greedy choice is the only action meeting the greedy criterion, and its value is
      the row maximum. */
  lemma GreedyIsUnique(row: Row, a: Action)
    requires Total(row)
    ensures a == Greedy(row) <==> IsGreedy(row, a)
    ensures row[Greedy(row)] == MaxQ(row)
  {
    var g := Greedy(row);
    if IsGreedy(row, a) && a != g {
      assert Actions[Position(a)] == a && Actions[Position(g)] == g;
    }
  }

  /** The Q-learning target: the reward plus the discounted best estimate of the next state. */
  function Target(q: Table, next: State, reward: real, gamma: real): real
    requires WellFormed(q)
  {
    reward + gamma * MaxQ(q[next])
  }

  /** One Q-learning update of the entry (s, a), written as the convex combination of the
      old estimate and the target. The table keeps its shape, no other entry moves, for a
      learning rate in [0, 1] the new value lies between the old value and the target, and
      a zero learning rate changes nothing. */
  function Update(q: Table, s: State, a: Action, reward: real, next: State, lr: real, gamma: real): (q': Table)
    requires WellFormed(q)
    ensures WellFormed(q')
    ensures forall t, b :: t in q' && b in q'[t] && (t, b) != (s, a) ==> q'[t][b] == q[t][b]
    ensures forall t :: t in q' && t != s ==> q'[t] == q[t]
    ensures 0.0 <= lr <= 1.0 ==> Between(q'[s][a], q[s][a], Target(q, next, reward, gamma))
    ensures lr == 0.0 ==> q' == q
  {
    RankIsPosition();
    var current := q[s][a];
    var target := Target(q, next, reward, gamma);
    var updated := current * (1.0 - lr) + lr * target;
    ConvexCombination(current, target, lr);
    assert lr == 0.0 ==> q[s][a := updated] == q[s];
    q[s := q[s][a := updated]]
  }

  /** The convex form of the update equals the incremental form old + lr * (target - old)
      of the Bellman rule, and the value moves towards the target by exactly the fraction lr. */
  lemma UpdateIncrementalForm(q: Table, s: State, a: Action, reward: real, next: State, lr: real, gamma: real)
    requires WellFormed(q)
    ensures Update(q, s, a, reward, next, lr, gamma)[s][a]
         == q[s][a] + lr * (Target(q, next, reward, gamma) - q[s][a])
  {
    var target := Target(q, next, reward, gamma);
    assert Update(q, s, a, reward, next, lr, gamma)[s][a] == q[s][a] * (1.0 - lr) + lr * target;
    ConvexCombination(q[s][a], target, lr);
  }

  /** The convex combination of two reals with a weight in [0, 1] lies between them. */
  lemma ConvexCombination(x: real, y: real, w: real)
    ensures x * (1.0 - w) + w * y == x + w * (y - x)
    ensures 0.0 <= w <= 1.0 ==> Between(x * (1.0 - w) + w * y, x, y)
  {
    var z := x * (1.0 - w) + w * y;
    assert z - x == w * (y - x);
    assert y - z == (1.0 - w) * (y - x);
    if 0.0 <= w <= 1.0 {
      if x <= y {
        ProductNonNegative(w, y - x);
        ProductNonNegative(1.0 - w, y - x);
      } else {
        ProductNonNegative(w, x - y);
        ProductNonNegative(1.0 - w, x - y);
      }
    }
  }

  lemma ProductNonNegative(u: real, v: real)
    requires 0.0 <= u && 0.0 <= v
    ensures 0.0 <= u * v
  {
  }

  /** A reward within (1 - gamma) * m of zero plus a discounted value in [-m, m] stays in [-m, m]. */
  lemma DiscountedTargetBound(reward: real, gamma: real, mx: real, m: real)
    requires 0.0 <= gamma <= 1.0 && -m <= mx <= m
    requires -(1.0 - gamma) * m <= reward <= (1.0 - gamma) * m
    ensures -m <= reward + gamma * mx <= m
  {
    ProductNonNegative(gamma, m - mx);
    ProductNonNegative(gamma, mx + m);
    assert (1.0 - gamma) * m == m - gamma * m;
    assert gamma * (m - mx) == gamma * m - gamma * mx;
    assert gamma * (mx + m) == gamma * mx + gamma * m;
  }

  lemma BetweenInBox(x: real, a: real, b: real, m: real)
    requires Between(x, a, b) && -m <= a <= m && -m <= b <= m
    ensures -m <= x <= m
  {
  }

  /** Every entry lies in [-m, m]. */
  predicate Bounded(q: Table, m: real)
    requires WellFormed(q)
  {
    forall s, a :: s in q && a in q[s] ==> -m <= q[s][a] <= m
  }

  /** With learning rate and discount in [0, 1], a table bounded by m stays bounded by m
      under any update whose reward is at most (1 - gamma) * m in absolute value: the
      estimates stay finite. Without noise the reward lies in [-0.1, 1], so m = 1 / (1 - gamma)
      works for any gamma < 1. */
  lemma UpdateKeepsBound(q: Table, s: State, a: Action, reward: real, next: State, lr: real, gamma: real, m: real)
    requires WellFormed(q) && Bounded(q, m)
    requires 0.0 <= lr <= 1.0 && 0.0 <= gamma <= 1.0
    requires -(1.0 - gamma) * m <= reward <= (1.0 - gamma) * m
    ensures Bounded(Update(q, s, a, reward, next, lr, gamma), m)
  {
    MaxQInBox(q, next, m);
    TargetInBox(q, next, reward, gamma, m);
    UpdateStaysInBox(q, s, a, reward, next, lr, gamma, m);
  }

  /** In a table bounded by m, a reward within (1 - gamma) * m of zero gives a target in [-m, m]. */
  lemma TargetInBox(q: Table, next: State, reward: real, gamma: real, m: real)
    requires WellFormed(q) && -m <= MaxQ(q[next]) <= m
    requires 0.0 <= gamma <= 1.0
    requires -(1.0 - gamma) * m <= reward <= (1.0 - gamma) * m
    ensures -m <= Target(q, next, reward, gamma) <= m
  {
    DiscountedTargetBound(reward, gamma, MaxQ(q[next]), m);
  }

  /** The row maximum of a table bounded by m lies in [-m, m]. */
  lemma MaxQInBox(q: Table, s: State, m: real)
    requires WellFormed(q) && Bounded(q, m)
    ensures -m <= MaxQ(q[s]) <= m
  {
    var b :| b in q[s] && q[s][b] == MaxQ(q[s]);
  }

  /** An update whose target lies in [-m, m] keeps a table bounded by m bounded by m. */
  lemma UpdateStaysInBox(q: Table, s: State, a: Action, reward: real, next: State, lr: real, gamma: real, m: real)
    requires WellFormed(q) && Bounded(q, m)
    requires 0.0 <= lr <= 1.0
    requires -m <= Target(q, next, reward, gamma) <= m
    ensures Bounded(Update(q, s, a, reward, next, lr, gamma), m)
  {
    var q' := Update(q, s, a, reward, next, lr, gamma);
    forall t, b | t in q' && b in q'[t]
      ensures -m <= q'[t][b] <= m
    {
      if (t, b) == (s, a) {
        BetweenInBox(q'[s][a], q[s][a], Target(q, next, reward, gamma), m);
      } else {
        assert q'[t][b] == q[t][b];
      }
    }
  }
}
