/**
 Discounting, bounds and the generative-model interface shared by all four planners.

 The planners only ever see the generative model through one call: applying an action to a
 state yields the next state, a reward in [0, 1] and a terminal flag (negative return code).
 Transitions are deterministic and the planners never look inside a state, so the state reached
 by an action sequence is fully described by that sequence: the model is a function from the
 action path (taken from the current root state) to the outcome of its last action.
 */
module Discount {
  import opened Trees

  /** Outcome of one transition: its reward and whether the generative model flagged it terminal. */
  datatype Transition = Transition(reward: real, terminal: bool)

  /** Rewards are clamped into [0, 1] by every generative model. */
  predicate ValidTransition(o: Transition) {
    0.0 <= o.reward <= 1.0
  }

  /** The generative model seen from the current root: outcome of the last action of a path. */
  type Simulator = Path -> Transition

  /** The simulator's rewards are in [0, 1] on every path. */
  ghost predicate ValidSimulator(sim: Simulator) {
    forall p :: ValidTransition(sim(p))
  }

  /** Discount factors the planners are meant for. */
  predicate ValidGamma(g: real) {
    0.0 < g < 1.0
  }

  /** gamma^n, the `gammaPowers` table, built by repeated multiplication. */
  function Pow(g: real, n: nat): real {
    if n == 0 then 1.0 else Pow(g, n - 1) * g
  }

  /** The `bounds` table: gamma^d / (1 - gamma), the most that rewards from depth d on can add. */
  function Tail(g: real, d: nat): real
    requires g < 1.0
  {
    Pow(g, d) / (1.0 - g)
  }

  lemma {:induction false} PowPositive(g: real, n: nat)
    requires g > 0.0
    ensures Pow(g, n) > 0.0
  {
    if n > 0 {
      PowPositive(g, n - 1);
    }
  }

  lemma {:induction false} PowAtMostOne(g: real, n: nat)
    requires 0.0 <= g <= 1.0
    ensures 0.0 <= Pow(g, n) <= 1.0
  {
    if n > 0 {
      PowAtMostOne(g, n - 1);
      ProductOfUnits(Pow(g, n - 1), g);
    }
  }

  lemma ProductOfUnits(a: real, b: real)
    requires 0.0 <= a <= 1.0 && 0.0 <= b <= 1.0
    ensures 0.0 <= a * b <= a
  {
  }

  lemma {:induction false} PowAdd(g: real, a: nat, b: nat)
    ensures Pow(g, a + b) == Pow(g, a) * Pow(g, b)
    decreases b
  {
    if b > 0 {
      PowAdd(g, a, b - 1);
      assert Pow(g, a + b) == Pow(g, a + (b - 1)) * g;
    }
  }

  /** Shifting the starting depth by a scales every bound by the same factor gamma^a. */
  lemma {:induction false} TailShift(g: real, a: nat, n: nat)
    requires g < 1.0
    ensures Tail(g, a + n) == Pow(g, a) * Tail(g, n)
  {
    var x, y, z := Pow(g, a), Pow(g, n), Pow(g, a + n);
    PowAdd(g, a, n);
    assert z == x * y;
    DivMul(x, y, 1.0 - g);
    assert Tail(g, a + n) == z / (1.0 - g);
    assert Tail(g, n) == y / (1.0 - g);
  }

  lemma DivMul(x: real, y: real, z: real)
    requires z != 0.0
    ensures (x * y) / z == x * (y / z)
  {
    var w := y / z;
    assert y == w * z;
  }

  /** x + x g / (1 - g) == x / (1 - g): one more level of the geometric series. */
  lemma Geometric(x: real, g: real)
    requires 0.0 < g < 1.0
    ensures x + x * g / (1.0 - g) == x / (1.0 - g)
  {
    var z := 1.0 - g;
    var w := x / z;
    assert x == w * z;
    DivMul(x, g, z);
    assert x * g / z == w * g;
  }

  /** Discounted return of the rewards rs collected from depth d on: sum of gamma^(d+j) * rs[j]. */
  function Discounted(rs: seq<real>, g: real, d: nat): real
    decreases |rs|
  {
    if |rs| == 0 then 0.0 else Pow(g, d) * rs[0] + Discounted(rs[1..], g, d + 1)
  }

  predicate UnitRewards(rs: seq<real>) {
    forall j :: 0 <= j < |rs| ==> 0.0 <= rs[j] <= 1.0
  }

  /** One more reward at the end is discounted by gamma to the depth it is collected at. */
  lemma {:induction false} DiscountedSnoc(rs: seq<real>, r: real, g: real, d: nat)
    ensures Discounted(rs + [r], g, d) == Discounted(rs, g, d) + Pow(g, d + |rs|) * r
    decreases |rs|
  {
    if |rs| == 0 {
      assert (rs + [r])[1..] == [];
    } else {
      assert (rs + [r])[1..] == rs[1..] + [r];
      DiscountedSnoc(rs[1..], r, g, d + 1);
    }
  }

  /** Starting a return d levels deeper multiplies it by gamma^d. */
  lemma {:induction false} DiscountedShift(rs: seq<real>, g: real, d: nat)
    ensures Discounted(rs, g, d) == Pow(g, d) * Discounted(rs, g, 0)
    decreases |rs|
  {
    if |rs| > 0 {
      DiscountedShift(rs[1..], g, d + 1);
      DiscountedShift(rs[1..], g, 1);
      PowAdd(g, d, 1);
      calc {
        Discounted(rs, g, d);
        Pow(g, d) * rs[0] + Pow(g, d + 1) * Discounted(rs[1..], g, 0);
        Pow(g, d) * rs[0] + Pow(g, d) * (g * Discounted(rs[1..], g, 0));
        Pow(g, d) * (rs[0] + Pow(g, 1) * Discounted(rs[1..], g, 0));
      }
    }
  }

  lemma {:induction false} DiscountedNonNegative(rs: seq<real>, g: real, d: nat)
    requires 0.0 <= g <= 1.0 && UnitRewards(rs)
    ensures Discounted(rs, g, d) >= 0.0
    decreases |rs|
  {
    if |rs| > 0 {
      PowAtMostOne(g, d);
      ProductOfUnits(rs[0], Pow(g, d));
      DiscountedNonNegative(rs[1..], g, d + 1);
    }
  }

  /**
   The optimistic bound is sound: whatever rewards in [0, 1] are collected from depth d on,
   however many, their discounted return stays below Tail(g, d).
   */
  lemma {:induction false} TailBoundsEveryFuture(rs: seq<real>, g: real, d: nat)
    requires ValidGamma(g) && UnitRewards(rs)
    ensures Discounted(rs, g, d) <= Tail(g, d)
    decreases |rs|
  {
    PowPositive(g, d);
    if |rs| > 0 {
      assert UnitRewards(rs[1..]) by {
        forall j | 0 <= j < |rs| - 1
          ensures 0.0 <= rs[1..][j] <= 1.0
        {
          assert rs[1..][j] == rs[j + 1];
        }
      }
      TailBoundsEveryFuture(rs[1..], g, d + 1);
      TailBoundsFirst(rs, g, d, Pow(g, d), Discounted(rs[1..], g, d + 1));
    } else {
      QuotientPositive(Pow(g, d), 1.0 - g);
    }
  }

  /** The step of TailBoundsEveryFuture: a first reward at weight x followed by a bounded rest. */
  lemma TailBoundsFirst(rs: seq<real>, g: real, d: nat, x: real, rest: real)
    requires ValidGamma(g) && |rs| > 0 && 0.0 <= rs[0] <= 1.0
    requires x == Pow(g, d) && x > 0.0
    requires rest == Discounted(rs[1..], g, d + 1) && rest <= Tail(g, d + 1)
    ensures Discounted(rs, g, d) <= Tail(g, d)
  {
    assert Tail(g, d + 1) == x * g / (1.0 - g);
    TailStep(x, g, rs[0], rest);
    assert Discounted(rs, g, d) == x * rs[0] + rest;
    assert Tail(g, d) == x / (1.0 - g);
  }

  /** A first reward r at weight x, then at most x g / (1 - g), stays within x / (1 - g). */
  lemma TailStep(x: real, g: real, r: real, rest: real)
    requires 0.0 < g < 1.0 && x > 0.0 && 0.0 <= r <= 1.0
    requires rest <= x * g / (1.0 - g)
    ensures x * r + rest <= x / (1.0 - g)
  {
    ProductOfUnits(r, 1.0);
    assert x * r <= x;
    Geometric(x, g);
  }

  /** A product of positive amounts is positive. */
  lemma PositiveProduct(a: real, b: real)
    requires a > 0.0 && b > 0.0
    ensures a * b > 0.0
  {
  }

  /** A product of non-negative amounts is non-negative. */
  lemma NonNegativeProduct(a: real, b: real)
    requires a >= 0.0 && b >= 0.0
    ensures a * b >= 0.0
  {
  }

  /** A positive amount divided by a positive amount stays positive. */
  lemma QuotientPositive(x: real, z: real)
    requires x > 0.0 && z > 0.0
    ensures x / z > 0.0
  {
    var w := x / z;
    assert x == w * z;
  }

  /** The outcomes of the K actions taken from the state at p. */
  function Outcomes(sim: Simulator, p: Path, k: nat): (outs: seq<Transition>)
    ensures |outs| == k
  {
    seq(k, i requires 0 <= i < k => sim(p + [i]))
  }

  /** The affine map x -> c + m * x relating a quantity measured from two different roots. */
  function Scale(c: real, m: real, x: real): real {
    c + m * x
  }

  lemma ScaleOrder(c: real, m: real, x: real, y: real)
    requires m > 0.0
    ensures Scale(c, m, x) <= Scale(c, m, y) <==> x <= y
    ensures Scale(c, m, x) < Scale(c, m, y) <==> x < y
  {
    if x <= y {
      assert m * x <= m * y;
    }
    if x < y {
      assert m * x < m * y;
    }
  }

  /** One more reward keeps the affine relation: c + m (sn + x r) == (c + m sn) + (m x) r. */
  lemma AffineStep(c: real, m: real, sn: real, x: real, r: real)
    ensures Scale(c, m, sn) + (m * x) * r == Scale(c, m, sn + x * r)
  {
  }

  /** crtOptimalValue, crtOptimalLeaf (a path from the root) and crtOptimalAction. */
  datatype Best = Best(value: real, leaf: Path, action: nat)

  /** Rewards of the nodes entered along p, read through the payload accessor `reward`. */
  function Rewards<P>(t: Tree<P>, p: Path, reward: P -> real): seq<real>
    requires ValidPath(t, p)
    decreases |p|
  {
    if |p| == 0 then [] else [reward(t.children[p[0]].info)] + Rewards(t.children[p[0]], p[1..], reward)
  }

  lemma {:induction false} RewardsLength<P>(t: Tree<P>, p: Path, reward: P -> real)
    requires ValidPath(t, p)
    ensures |Rewards(t, p, reward)| == |p|
    decreases |p|
  {
    if |p| > 0 {
      RewardsLength(t.children[p[0]], p[1..], reward);
    }
  }

  /** Going one step further along a path appends that child's reward. */
  lemma {:induction false} RewardsAppend<P>(t: Tree<P>, p: Path, i: nat, reward: P -> real)
    requires ValidPath(t, p) && i < |Get(t, p).children|
    ensures ValidPath(t, p + [i])
    ensures Rewards(t, p + [i], reward) == Rewards(t, p, reward) + [reward(Get(t, p).children[i].info)]
    decreases |p|
  {
    GetAppend(t, p, i);
    if |p| == 0 {
      assert p + [i] == [i];
      assert ([i])[1..] == [];
    } else {
      assert (p + [i])[1..] == p[1..] + [i];
      RewardsAppend(t.children[p[0]], p[1..], i, reward);
    }
  }
}
