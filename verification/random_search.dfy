/**
 The random-search planner of algorithms/random_search/random_search.c. No tree is kept: each
 rollout draws a first action and then random actions from the initial state, for at most
 crtDepthLimit further transitions, stopping after the first terminal one. The discounted sum of
 a rollout feeds the table QValues of its first action, and the best entry of the table gives
 the action recommended. The depth limit grows with the logarithm of the number of evaluations.

 The random generator is an oracle: `rng(n)` is the action index drawn at the n-th call to the
 generative model since the reset (every call to the model is preceded by exactly one draw).
 */
module RandomSearch {
  import opened Trees
  import opened Discount

  /** RANDOM_SEARCH_MAX_DEPTH of the default build (builds with LIMITED_DEPTH use 512). */
  const MaxDepth: nat := 32768

  /** The unsigned int returned by random_search_getMaxDepth wraps modulo 2^32. */
  const UintRange: nat := 0x1_0000_0000

  /** The stream of draws of gsl_rng_uniform_int(rng, K), indexed by the number of evaluations. */
  type Rng = nat -> nat

  /** Every draw is an action index. */
  ghost predicate Draws(rng: Rng, k: nat) {
    forall n :: rng(n) < k
  }

  /**
   One rollout: the actions taken from the initial state, the discounted sum collected and the
   depth limit it used. The C list `trajectories` holds, newest first, the states and
   rewards of these rollouts; here they are kept oldest first.
   */
  datatype Rollout = Rollout(path: Path, value: real, limit: nat)

  /**
   The planner state: QValues, crtDepthLimit, crtNbEvaluations, crtMaxDepth, crtOptimalValue,
   crtOptimalAction and the rollouts made since the reset.
   */
  datatype Instance = Instance(
    q: seq<real>,
    limit: nat,
    evaluations: nat,
    maxDepth: nat,
    value: real,
    action: nat,
    trajectories: seq<Rollout>)

  /*---------------------------------------------------------------------------------------------
    Rollouts (lines 126-169)
  ---------------------------------------------------------------------------------------------*/

  /** The outcome of the i-th transition along p, the one entering the state at p[..i + 1]. */
  function After(sim: Simulator, p: Path, i: nat): Transition
    requires i < |p|
  {
    sim(p[..i + 1])
  }

  /** The rewards of the transitions along p. */
  function PathRewards(sim: Simulator, p: Path): (rs: seq<real>)
    ensures |rs| == |p|
    decreases |p|
  {
    if |p| == 0 then [] else PathRewards(sim, p[..|p| - 1]) + [sim(p).reward]
  }

  /** The i-th reward along p is the reward of the i-th transition. */
  lemma {:induction false} PathRewardsAt(sim: Simulator, p: Path, i: nat)
    requires i < |p|
    ensures PathRewards(sim, p)[i] == After(sim, p, i).reward
    decreases |p|
  {
    var n := |p| - 1;
    if i < n {
      PathRewardsAt(sim, p[..n], i);
      assert p[..n][..i + 1] == p[..i + 1];
    } else {
      assert p[..i + 1] == p;
    }
  }

  /** One more action leaves the earlier outcomes alone. */
  lemma AfterSnoc(sim: Simulator, p: Path, a: nat)
    ensures forall i :: 0 <= i < |p| ==> After(sim, p + [a], i) == After(sim, p, i)
    ensures After(sim, p + [a], |p|) == sim(p + [a])
  {
    var q := p + [a];
    forall i | 0 <= i < |p|
      ensures After(sim, q, i) == After(sim, p, i)
    {
      assert q[..i + 1] == p[..i + 1];
    }
    assert q[..|p| + 1] == q;
  }

  /** r0 + gamma r1 + gamma^2 r2 + ...: the discounted sum of the rewards along p. */
  function Value(sim: Simulator, p: Path, g: real): real
    decreases |p|
  {
    if |p| == 0 then 0.0 else Value(sim, p[..|p| - 1], g) + Pow(g, |p| - 1) * sim(p).reward
  }

  /** One more transition adds its reward discounted to the depth it is collected at. */
  lemma ValueSnoc(sim: Simulator, p: Path, a: nat, g: real)
    ensures Value(sim, p + [a], g) == Value(sim, p, g) + Pow(g, |p|) * sim(p + [a]).reward
  {
    assert (p + [a])[..|p|] == p;
  }

  /** The value of a path is the discounted return of its rewards. */
  lemma {:induction false} ValueIsDiscounted(sim: Simulator, p: Path, g: real)
    ensures Value(sim, p, g) == Discounted(PathRewards(sim, p), g, 0)
    decreases |p|
  {
    if |p| > 0 {
      var n := |p| - 1;
      ValueIsDiscounted(sim, p[..n], g);
      DiscountedAppend(PathRewards(sim, p[..n]), sim(p).reward, PathRewards(sim, p), g, n, Value(sim, p[..n], g));
    }
  }

  lemma DiscountedAppend(rs: seq<real>, r: real, ss: seq<real>, g: real, n: nat, s: real)
    requires ss == rs + [r] && |rs| == n && s == Discounted(rs, g, 0)
    ensures s + Pow(g, n) * r == Discounted(ss, g, 0)
  {
    DiscountedSnoc(rs, r, g, 0);
  }

  /**
   What a rollout started at the e-th evaluation is: its actions are the draws from e on; its
   value is r0 + gamma r1 + gamma^2 r2 + ...; the first transition's terminal flag is ignored,
   and the later ones stop the rollout right after the first terminal transition; otherwise it
   makes limit transitions after the first one.
   */
  predicate IsRollout(t: Rollout, sim: Simulator, rng: Rng, e: nat, g: real) {
    && 1 <= |t.path| <= t.limit + 1
    && (forall i :: 0 <= i < |t.path| ==> t.path[i] == rng(e + i))
    && t.value == Value(sim, t.path, g)
    && (forall i :: 1 <= i < |t.path| - 1 ==> !After(sim, t.path, i).terminal)
    && (|t.path| <= t.limit ==> |t.path| >= 2 && sim(t.path).terminal)
  }

  /**
   One rollout of random_search_planning from the e-th evaluation: draw the first action, make
   its transition, then make up to `limit` more, adding each reward discounted to its depth.
   */
  method Roll(sim: Simulator, rng: Rng, e: nat, limit: nat, g: real) returns (path: Path, sum: real)
    ensures IsRollout(Rollout(path, sum, limit), sim, rng, e, g)
  {
    path := [rng(e)];
    sum := sim(path).reward;
    assert path[..0] == [];
    var depth: nat := 1;
    while depth <= limit
      invariant 1 <= depth <= limit + 1 && |path| == depth
      invariant forall i :: 0 <= i < |path| ==> path[i] == rng(e + i)
      invariant sum == Value(sim, path, g)
      invariant forall i :: 1 <= i < |path| ==> !After(sim, path, i).terminal
      decreases limit + 1 - depth
    {
      var a := rng(e + depth);
      var o := sim(path + [a]);
      ValueSnoc(sim, path, a, g);
      AfterSnoc(sim, path, a);
      sum := sum + Pow(g, depth) * o.reward;
      path := path + [a];
      if o.terminal {
        assert path[..|path|] == path;
        break;
      }
      depth := depth + 1;
    }
  }

  /**
   The rollout is determined by the generative model, the draws, the evaluation it starts at
   and the depth limit: two rollouts made under the same conditions are the same.
   */
  lemma RolloutUnique(t: Rollout, u: Rollout, sim: Simulator, rng: Rng, e: nat, g: real)
    requires IsRollout(t, sim, rng, e, g) && IsRollout(u, sim, rng, e, g) && t.limit == u.limit
    ensures t == u
  {
    if |t.path| < |u.path| {
      ShorterRollout(t, u, sim, rng, e, g);
    } else if |u.path| < |t.path| {
      ShorterRollout(u, t, sim, rng, e, g);
    }
    assert t.path == u.path;
  }

  /** A rollout cannot stop before another one made under the same conditions. */
  lemma ShorterRollout(t: Rollout, u: Rollout, sim: Simulator, rng: Rng, e: nat, g: real)
    requires IsRollout(t, sim, rng, e, g) && IsRollout(u, sim, rng, e, g) && t.limit == u.limit
    ensures |t.path| >= |u.path|
  {
    if |t.path| < |u.path| {
      var n := |t.path|;
      assert t.path == u.path[..n];
      NoEarlyStop(u, sim, rng, e, g, n);
      assert false;
    }
  }

  /** No proper prefix of a rollout, past its first action, ends on a terminal transition. */
  lemma NoEarlyStop(u: Rollout, sim: Simulator, rng: Rng, e: nat, g: real, n: nat)
    requires IsRollout(u, sim, rng, e, g) && 2 <= n < |u.path|
    ensures !sim(u.path[..n]).terminal
  {
    assert !After(sim, u.path, n - 1).terminal;
  }

  /** A rollout's value lies between 0 and 1 / (1 - gamma). */
  lemma RolloutValueBounds(t: Rollout, sim: Simulator, rng: Rng, e: nat, g: real)
    requires IsRollout(t, sim, rng, e, g) && ValidSimulator(sim) && ValidGamma(g)
    ensures 0.0 <= t.value <= Tail(g, 0)
  {
    var rs := PathRewards(sim, t.path);
    ValueIsDiscounted(sim, t.path, g);
    assert UnitRewards(rs) by {
      forall j | 0 <= j < |rs|
        ensures 0.0 <= rs[j] <= 1.0
      {
        assert ValidTransition(After(sim, t.path, j));
        PathRewardsAt(sim, t.path, j);
      }
    }
    DiscountedNonNegative(rs, g, 0);
    TailBoundsEveryFuture(rs, g, 0);
  }

  /*---------------------------------------------------------------------------------------------
    The planner state
  ---------------------------------------------------------------------------------------------*/

  /** Number of evaluations used by a sequence of rollouts. */
  function TotalLength(ts: seq<Rollout>): nat {
    if |ts| == 0 then 0 else TotalLength(ts[..|ts| - 1]) + |ts[|ts| - 1].path|
  }

  lemma TotalLengthSnoc(ts: seq<Rollout>, t: Rollout)
    ensures TotalLength(ts + [t]) == TotalLength(ts) + |t.path|
  {
    assert (ts + [t])[..|ts|] == ts;
  }

  /** The rollout began with action a. */
  predicate StartsWith(t: Rollout, a: nat) {
    |t.path| > 0 && t.path[0] == a
  }

  /** QValues[a] is the largest of 0 and the values of the rollouts that started with action a. */
  predicate QIsBest(ts: seq<Rollout>, a: nat, v: real) {
    && v >= 0.0
    && (forall i :: 0 <= i < |ts| && StartsWith(ts[i], a) ==> ts[i].value <= v)
    && (v == 0.0 || exists i :: 0 <= i < |ts| && StartsWith(ts[i], a) && ts[i].value == v)
  }

  /**
   The action recorded is the first action of the earliest rollout that reached the optimal
   value, or 0 when no rollout had a positive value.
   */
  predicate FirstToReach(ts: seq<Rollout>, action: nat, v: real) {
    if v == 0.0 then action == 0
    else exists i :: 0 <= i < |ts| && StartsWith(ts[i], action) && ts[i].value == v
                  && forall j :: 0 <= j < i ==> ts[j].value < v
  }

  /** crtMaxDepth is the largest depth limit a rollout used, 0 before the first rollout. */
  predicate MaxLimit(ts: seq<Rollout>, m: nat) {
    && (forall i :: 0 <= i < |ts| ==> ts[i].limit <= m)
    && (if |ts| == 0 then m == 0 else exists i :: 0 <= i < |ts| && ts[i].limit == m)
  }

  /** A rollout began with an action index and used a limit in [1, MAX - 1]. */
  predicate WellShaped(t: Rollout, k: nat) {
    && 1 <= |t.path| <= t.limit + 1
    && t.path[0] < k
    && 1 <= t.limit <= MaxDepth - 1
  }

  /** The planner invariant, stated on the rollouts made since the reset. */
  predicate Inv(inst: Instance, k: nat) {
    && k >= 1
    && |inst.q| == k
    && 1 <= inst.limit <= MaxDepth - 1
    && inst.action < k
    && (forall i :: 0 <= i < |inst.trajectories| ==> WellShaped(inst.trajectories[i], k))
    && inst.evaluations == TotalLength(inst.trajectories)
    && (forall a :: 0 <= a < k ==> QIsBest(inst.trajectories, a, inst.q[a]))
    && (forall a :: 0 <= a < k ==> inst.q[a] <= inst.value)
    && inst.value == inst.q[inst.action]
    && FirstToReach(inst.trajectories, inst.action, inst.value)
    && MaxLimit(inst.trajectories, inst.maxDepth)
  }

  /** Where each rollout starts in the draws. */
  function Start(ts: seq<Rollout>, j: nat): nat
    requires j <= |ts|
  {
    TotalLength(ts[..j])
  }

  /** Every rollout of ts is the one the generative model and the draws produce from its start. */
  predicate AllRollouts(ts: seq<Rollout>, sim: Simulator, rng: Rng, g: real) {
    forall j :: 0 <= j < |ts| ==> IsRollout(ts[j], sim, rng, Start(ts, j), g)
  }

  /** Every rollout recorded is the one the generative model and the draws produce. */
  predicate Faithful(inst: Instance, sim: Simulator, rng: Rng, g: real) {
    AllRollouts(inst.trajectories, sim, rng, g)
  }

  /** random_search_resetInstance (lines 92-114): QValues all 0, depth limit 1, no rollout. */
  function Reset(k: nat): (r: Instance)
    ensures |r.q| == k && r.trajectories == []
  {
    Instance(seq(k, _ => 0.0), 1, 0, 0, 0.0, 0, [])
  }

  lemma ResetInv(k: nat, sim: Simulator, rng: Rng, g: real)
    requires k >= 1
    ensures Inv(Reset(k), k) && Faithful(Reset(k), sim, rng, g)
  {
  }

  /*---------------------------------------------------------------------------------------------
    After a rollout (lines 171-190)
  ---------------------------------------------------------------------------------------------*/

  /** The distance between two naturals. */
  function Gap(a: nat, b: nat): nat {
    if a <= b then b - a else a - b
  }

  /**
   The new depth limit, unless it has reached MAX - 1: the truncated ratio ln(n) / ln(1 / gamma),
   given as `ratio`, clamped into [1, MAX - 1]: the limit of that range closest to the ratio.
   */
  function NextLimit(limit: nat, n: nat, ratio: nat -> nat): (r: nat)
    ensures limit >= MaxDepth - 1 ==> r == limit
    ensures limit < MaxDepth - 1 ==> 1 <= r <= MaxDepth - 1
    ensures limit < MaxDepth - 1 ==> forall x :: 1 <= x <= MaxDepth - 1 ==> Gap(r, ratio(n)) <= Gap(x, ratio(n))
  {
    if limit < MaxDepth - 1 then
      if ratio(n) >= MaxDepth then MaxDepth - 1 else if ratio(n) < 1 then 1 else ratio(n)
    else limit
  }

  /**
   Book-keeping after a rollout of actions `path` and value `sum`: count its evaluations, raise
   crtMaxDepth to the limit used, raise QValues of the first action and the optimal value when
   strictly beaten, and update the depth limit.
   */
  function Record(inst: Instance, path: Path, sum: real, ratio: nat -> nat): (r: Instance)
    requires |path| >= 1 && path[0] < |inst.q|
    ensures r.evaluations == inst.evaluations + |path|
    ensures r.trajectories == inst.trajectories + [Rollout(path, sum, inst.limit)]
    ensures |r.q| == |inst.q| && forall a :: 0 <= a < |inst.q| ==> r.q[a] >= inst.q[a]
    ensures forall a :: 0 <= a < |inst.q| && a != path[0] ==> r.q[a] == inst.q[a]
    ensures r.value >= inst.value
  {
    var a := path[0];
    var e := inst.evaluations + |path|;
    var better := sum > inst.q[a];
    var best := better && sum > inst.value;
    Instance(
      if better then inst.q[a := sum] else inst.q,
      NextLimit(inst.limit, e, ratio),
      e,
      if inst.limit > inst.maxDepth then inst.limit else inst.maxDepth,
      if best then sum else inst.value,
      if best then a else inst.action,
      inst.trajectories + [Rollout(path, sum, inst.limit)])
  }

  /** Recording a rollout keeps the planner invariant. */
  lemma RecordKeepsInv(inst: Instance, k: nat, path: Path, sum: real, ratio: nat -> nat)
    requires Inv(inst, k) && 1 <= |path| <= inst.limit + 1 && path[0] < k
    ensures Inv(Record(inst, path, sum, ratio), k)
  {
    var r := Record(inst, path, sum, ratio);
    var ts, us := inst.trajectories, r.trajectories;
    var t := Rollout(path, sum, inst.limit);
    TotalLengthSnoc(ts, t);
    RecordKeepsShapes(ts, t, k);
    forall b | 0 <= b < k
      ensures QIsBest(us, b, r.q[b])
    {
      RecordKeepsQ(ts, t, b, inst.q[b], r.q[b]);
    }
    RecordKeepsOptimum(inst, k, path, sum, ratio);
    RecordKeepsMaxLimit(ts, t, inst.maxDepth);
  }

  /** Every recorded rollout, old or new, keeps the shape the invariant asks for. */
  lemma RecordKeepsShapes(ts: seq<Rollout>, t: Rollout, k: nat)
    requires forall i :: 0 <= i < |ts| ==> WellShaped(ts[i], k)
    requires WellShaped(t, k)
    ensures forall i :: 0 <= i < |ts + [t]| ==> WellShaped((ts + [t])[i], k)
  {
  }

  /** crtMaxDepth rises to the limit of the new rollout when that is larger. */
  lemma RecordKeepsMaxLimit(ts: seq<Rollout>, t: Rollout, m: nat)
    requires MaxLimit(ts, m) && t.limit >= 1
    ensures MaxLimit(ts + [t], if t.limit > m then t.limit else m)
  {
    var us := ts + [t];
    assert us[|ts|] == t;
    if t.limit <= m {
      var i :| 0 <= i < |ts| && ts[i].limit == m;
      assert us[i] == ts[i];
    }
  }

  /** Appending a rollout keeps QValues[b] the best value of the rollouts that start with b. */
  lemma RecordKeepsQ(ts: seq<Rollout>, t: Rollout, b: nat, v: real, w: real)
    requires |t.path| >= 1 && QIsBest(ts, b, v)
    requires w == if t.path[0] == b && t.value > v then t.value else v
    ensures QIsBest(ts + [t], b, w)
  {
    var us := ts + [t];
    assert us[|ts|] == t;
    if w == t.value && t.path[0] == b {
    } else if w != 0.0 {
      var i :| 0 <= i < |ts| && StartsWith(ts[i], b) && ts[i].value == v;
      assert us[i] == ts[i];
    }
  }

  /** Appending a rollout keeps the optimal value the best entry and its action the first to reach it. */
  lemma RecordKeepsOptimum(inst: Instance, k: nat, path: Path, sum: real, ratio: nat -> nat)
    requires Inv(inst, k) && 1 <= |path| && path[0] < k
    ensures var r := Record(inst, path, sum, ratio);
      && (forall a :: 0 <= a < k ==> r.q[a] <= r.value)
      && r.value == r.q[r.action]
      && r.action < k
      && FirstToReach(r.trajectories, r.action, r.value)
  {
    var r := Record(inst, path, sum, ratio);
    var ts, us := inst.trajectories, r.trajectories;
    var a, n := path[0], |ts|;
    assert us[n] == Rollout(path, sum, inst.limit);
    if sum > inst.q[a] && sum > inst.value {
      forall j | 0 <= j < n
        ensures us[j].value < sum
      {
        assert QIsBest(ts, ts[j].path[0], inst.q[ts[j].path[0]]);
      }
    } else if inst.value != 0.0 {
      var i :| 0 <= i < n && StartsWith(ts[i], inst.action) && ts[i].value == inst.value
        && forall j :: 0 <= j < i ==> ts[j].value < inst.value;
      assert us[i] == ts[i];
      assert forall j :: 0 <= j < i ==> us[j] == ts[j];
    }
  }

  /*---------------------------------------------------------------------------------------------
    random_search_planning (lines 117-195)
  ---------------------------------------------------------------------------------------------*/

  /**
   Rollouts while the evaluation counter is below the budget. The planner returns the action
   crtOptimalAction; the counter may pass the budget by at most the depth limit of the last
   rollout.
   */
  method Plan(inst: Instance, budget: nat, sim: Simulator, rng: Rng, g: real, ratio: nat -> nat, k: nat)
    returns (r: Instance)
    requires Inv(inst, k) && Faithful(inst, sim, rng, g) && Draws(rng, k)
    ensures Inv(r, k) && Faithful(r, sim, rng, g)
    ensures r.evaluations >= budget
    ensures inst.evaluations >= budget ==> r == inst
    ensures inst.evaluations < budget ==> Overshoot(r, budget)
  {
    r := inst;
    ghost var rounds := 0;
    while r.evaluations < budget
      invariant Inv(r, k) && Faithful(r, sim, rng, g)
      invariant rounds == 0 ==> r == inst
      invariant rounds > 0 ==> inst.evaluations < budget && Overshoot(r, budget)
      decreases budget - r.evaluations
    {
      var path, sum := Roll(sim, rng, r.evaluations, r.limit, g);
      RecordStep(r, budget, k, path, sum, ratio, sim, rng, g);
      r := Record(r, path, sum, ratio);
      rounds := rounds + 1;
    }
  }

  /** The last rollout started below the budget: the counter passes it by at most that rollout's limit. */
  predicate Overshoot(r: Instance, budget: nat) {
    |r.trajectories| > 0 && r.evaluations <= budget + r.trajectories[|r.trajectories| - 1].limit
  }

  /** One turn of the planning loop keeps the loop invariant. */
  lemma RecordStep(r: Instance, budget: nat, k: nat, path: Path, sum: real, ratio: nat -> nat,
                   sim: Simulator, rng: Rng, g: real)
    requires Inv(r, k) && Faithful(r, sim, rng, g) && Draws(rng, k)
    requires r.evaluations < budget && IsRollout(Rollout(path, sum, r.limit), sim, rng, r.evaluations, g)
    ensures var next := Record(r, path, sum, ratio);
      Inv(next, k) && Faithful(next, sim, rng, g) && Overshoot(next, budget)
  {
    assert path[0] == rng(r.evaluations);
    RecordKeepsInv(r, k, path, sum, ratio);
    RecordKeepsFaithful(r, path, sum, ratio, sim, rng, g);
  }

  lemma RecordKeepsFaithful(inst: Instance, path: Path, sum: real, ratio: nat -> nat, sim: Simulator, rng: Rng, g: real)
    requires Faithful(inst, sim, rng, g) && |path| >= 1 && path[0] < |inst.q|
    requires inst.evaluations == TotalLength(inst.trajectories)
    requires IsRollout(Rollout(path, sum, inst.limit), sim, rng, inst.evaluations, g)
    ensures Faithful(Record(inst, path, sum, ratio), sim, rng, g)
  {
    var ts := inst.trajectories;
    var us := Record(inst, path, sum, ratio).trajectories;
    forall j | 0 <= j < |us|
      ensures IsRollout(us[j], sim, rng, Start(us, j), g)
    {
      assert us[..j] == if j < |ts| then ts[..j] else ts;
    }
  }

  /** The action recommended: crtOptimalAction. */
  function Recommended(inst: Instance): nat {
    inst.action
  }

  /**
   The action recommended holds the largest entry of QValues, and no rollout made so far has a
   larger value.
   */
  lemma RecommendedIsBest(inst: Instance, k: nat)
    requires Inv(inst, k)
    ensures Recommended(inst) < k
    ensures forall a :: 0 <= a < k ==> inst.q[a] <= inst.q[Recommended(inst)]
    ensures forall i :: 0 <= i < |inst.trajectories| ==> inst.trajectories[i].value <= inst.value
  {
    forall i | 0 <= i < |inst.trajectories|
      ensures inst.trajectories[i].value <= inst.value
    {
      var a := inst.trajectories[i].path[0];
      assert QIsBest(inst.trajectories, a, inst.q[a]);
    }
  }

  /** With rewards in [0, 1], every entry of QValues lies between 0 and 1 / (1 - gamma). */
  lemma QValuesBounded(inst: Instance, k: nat, sim: Simulator, rng: Rng, g: real)
    requires Inv(inst, k) && Faithful(inst, sim, rng, g) && ValidSimulator(sim) && ValidGamma(g)
    ensures forall a :: 0 <= a < k ==> 0.0 <= inst.q[a] <= Tail(g, 0)
  {
    forall a | 0 <= a < k
      ensures 0.0 <= inst.q[a] <= Tail(g, 0)
    {
      QBounded(inst.trajectories, a, inst.q[a], sim, rng, g);
    }
  }

  lemma QBounded(ts: seq<Rollout>, a: nat, v: real, sim: Simulator, rng: Rng, g: real)
    requires QIsBest(ts, a, v) && AllRollouts(ts, sim, rng, g) && ValidSimulator(sim) && ValidGamma(g)
    ensures 0.0 <= v <= Tail(g, 0)
  {
    if v != 0.0 {
      var i :| 0 <= i < |ts| && StartsWith(ts[i], a) && ts[i].value == v;
      RolloutValueBounds(ts[i], sim, rng, Start(ts, i), g);
    } else {
      PowPositive(g, 0);
      assert Tail(g, 0) == 1.0 / (1.0 - g);
    }
  }

  /*---------------------------------------------------------------------------------------------
    random_search_getMaxDepth (lines 198-202)
  ---------------------------------------------------------------------------------------------*/

  /** crtMaxDepth - 1 as an unsigned int: it wraps to 2^32 - 1 before the first rollout. */
  function GetMaxDepth(inst: Instance): (d: nat)
    requires inst.maxDepth < UintRange
    ensures d < UintRange && (d + 1) % UintRange == inst.maxDepth
  {
    if inst.maxDepth == 0 then UintRange - 1 else inst.maxDepth - 1
  }

  /**
   Before the first rollout getMaxDepth returns 2^32 - 1; afterwards it is one less than the
   largest depth limit a rollout used.
   */
  lemma GetMaxDepthIsLimit(inst: Instance, k: nat)
    requires Inv(inst, k)
    ensures inst.maxDepth < UintRange
    ensures |inst.trajectories| == 0 ==> GetMaxDepth(inst) == UintRange - 1
    ensures |inst.trajectories| > 0 ==>
      && (forall i :: 0 <= i < |inst.trajectories| ==> inst.trajectories[i].limit <= GetMaxDepth(inst) + 1)
      && (exists i :: 0 <= i < |inst.trajectories| && inst.trajectories[i].limit == GetMaxDepth(inst) + 1)
  {
    if |inst.trajectories| > 0 {
      var i :| 0 <= i < |inst.trajectories| && inst.trajectories[i].limit == inst.maxDepth;
      assert inst.maxDepth >= 1;
    }
  }
}
