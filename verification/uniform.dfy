/**
 The uniform planner of algorithms/uniform/uniform.c: the tree is grown breadth first, level
 by level and left to right, one node (K calls to the generative model) at a time. Terminal
 transitions are ignored, so no node is ever closed. Every node caches the leaf of largest sum
 of its subtree (crtOptimalLeaf) and the child it lies under (trajectoryId); the action
 recommended is the root's trajectoryId.
 */
module Uniform {
  import opened Trees
  import opened Discount

  /** UNIFORM_MAX_DEPTH of the default build (builds with LIMITED_DEPTH use 512). */
  const DepthCeiling: nat := 32768

  /**
   Per-node payload: the reward of the transition into the node, the discounted sum, the
   trajectoryId and the crtOptimalLeaf pointer, as a path relative to the node.
   */
  datatype Info = Info(reward: real, sum: real, tid: nat, opt: Path)

  type Node = Tree<Info>

  /**
   The planner state: the evaluation counter, crtDepth (the level being expanded, which also
   selects the discount of the rewards being collected) and nextOpennedNode, a path from the root.
   */
  datatype Instance = Instance(root: Node, evaluations: nat, depth: nat, next: Path)

  /*---------------------------------------------------------------------------------------------
    Breadth-first shapes
  ---------------------------------------------------------------------------------------------*/

  /** Every node above depth h has k children and every node at depth h is a leaf. */
  predicate Complete(t: Node, h: nat, k: nat)
    decreases t
  {
    if h == 0 then t.IsLeaf()
    else |t.children| == k && forall i :: 0 <= i < k ==> Complete(t.children[i], h - 1, k)
  }

  /**
   The tree of a breadth-first expansion that has reached p on level h = |p|: every level above
   h is full; on level h, the nodes left of p have been opened (their children are leaves) and
   p and the nodes right of it are still leaves.
   */
  predicate AtCut(t: Node, p: Path, k: nat)
    decreases t
  {
    if |p| == 0 then t.IsLeaf()
    else
      && |t.children| == k && p[0] < k
      && (forall i :: 0 <= i < p[0] ==> Complete(t.children[i], |p|, k))
      && AtCut(t.children[p[0]], p[1..], k)
      && (forall i :: p[0] < i < k ==> Complete(t.children[i], |p| - 1, k))
  }

  /** AtCut with the leaf at p opened: the same, with k leaves below p. */
  predicate OpenedAt(t: Node, p: Path, k: nat)
    decreases t
  {
    if |p| == 0 then Complete(t, 1, k)
    else
      && |t.children| == k && p[0] < k
      && (forall i :: 0 <= i < p[0] ==> Complete(t.children[i], |p|, k))
      && OpenedAt(t.children[p[0]], p[1..], k)
      && (forall i :: p[0] < i < k ==> Complete(t.children[i], |p| - 1, k))
  }

  /** The path of n zeros: the leftmost node n levels down. */
  function Zeros(n: nat): (z: Path)
    ensures |z| == n && forall i :: 0 <= i < n ==> z[i] == 0
  {
    if n == 0 then [] else [0] + Zeros(n - 1)
  }

  /** Following first children down to a leaf (the final loop of updateNextOpennedNode). */
  function Leftmost(t: Node): Path
    decreases t
  {
    if t.IsLeaf() then [] else [0] + Leftmost(t.children[0])
  }

  /**
   The climb of updateNextOpennedNode: leave p while it is the last child of its father; None
   when the climb passes the root (a level is finished), otherwise the next sibling of the node
   where it stopped.
   */
  function Climb(p: Path, k: nat): Option<Path>
    decreases |p|
  {
    if |p| == 0 then None
    else if p[|p| - 1] == k - 1 then Climb(p[..|p| - 1], k)
    else Some(p[..|p| - 1] + [p[|p| - 1] + 1])
  }

  /** The climb seen from the front: it stays in the first child's subtree when it can. */
  lemma {:induction false} ClimbCons(a: nat, p: Path, k: nat)
    ensures Climb([a] + p, k) == match Climb(p, k)
      case Some(q) => Some([a] + q)
      case None => if a == k - 1 then None else Some([a + 1])
    decreases |p|
  {
    var ap := [a] + p;
    if |p| == 0 {
      assert ap == [a];
      assert ap[..0] == [];
      assert Climb(ap[..0], k) == None;
      assert ap[..0] + [a + 1] == [a + 1];
    } else {
      var n := |p| - 1;
      assert ap[|ap| - 1] == p[n];
      assert ap[..|ap| - 1] == [a] + p[..n];
      if p[n] != k - 1 {
        assert ap[..|ap| - 1] + [p[n] + 1] == [a] + (p[..n] + [p[n] + 1]);
        assert Climb(p, k) == Some(p[..n] + [p[n] + 1]);
      } else {
        ClimbCons(a, p[..n], k);
        assert Climb(p, k) == Climb(p[..n], k);
        assert Climb(ap, k) == Climb([a] + p[..n], k);
      }
    }
  }

  /** In a complete tree the leftmost path goes straight down to level h. */
  lemma {:induction false} CompleteLeftmost(t: Node, h: nat, k: nat)
    requires Complete(t, h, k) && k >= 1
    ensures Leftmost(t) == Zeros(h) && IsLeafPath(t, Zeros(h))
    decreases h
  {
    if h > 0 {
      CompleteLeftmost(t.children[0], h - 1, k);
      assert Zeros(h)[1..] == Zeros(h - 1);
    }
  }

  /** A complete tree is the breadth-first tree at the leftmost node of its last level. */
  lemma {:induction false} CompleteIsCutAtZeros(t: Node, h: nat, k: nat)
    requires Complete(t, h, k) && k >= 1
    ensures AtCut(t, Zeros(h), k)
    decreases h
  {
    if h > 0 {
      assert Zeros(h)[1..] == Zeros(h - 1);
      CompleteIsCutAtZeros(t.children[0], h - 1, k);
    }
  }

  /** ... and conversely. */
  lemma {:induction false} CutAtZerosIsComplete(t: Node, h: nat, k: nat)
    requires AtCut(t, Zeros(h), k)
    ensures Complete(t, h, k)
    decreases h
  {
    if h > 0 {
      assert Zeros(h)[1..] == Zeros(h - 1);
      CutAtZerosIsComplete(t.children[0], h - 1, k);
    }
  }

  /** The breadth-first tree at p: p leads to a leaf. */
  lemma {:induction false} CutIsLeaf(t: Node, p: Path, k: nat)
    requires AtCut(t, p, k)
    ensures IsLeafPath(t, p)
    decreases |p|
  {
    if |p| > 0 {
      CutIsLeaf(t.children[p[0]], p[1..], k);
    }
  }

  /**
   After the node at p is opened, the climb and descent of updateNextOpennedNode find the next
   leaf of the level, left to right; when p was the last node of its level the climb passes the
   root and the tree is complete one level further down.
   */
  lemma {:induction false} AdvanceFromOpened(t: Node, p: Path, k: nat)
    requires OpenedAt(t, p, k) && k >= 1
    ensures Climb(p, k).None? ==> Complete(t, |p| + 1, k)
    ensures Climb(p, k).Some? ==>
      var q := Climb(p, k).value;
      && 0 < |q| <= |p| && ValidPath(t, q)
      && q + Leftmost(Get(t, q)) == q + Zeros(|p| - |q|)
      && AtCut(t, q + Zeros(|p| - |q|), k)
    decreases |p|
  {
    if |p| > 0 {
      var a, rest := p[0], p[1..];
      var c := t.children[a];
      assert p == [a] + rest;
      ClimbCons(a, rest, k);
      AdvanceFromOpened(c, rest, k);
      match Climb(rest, k)
      case Some(q') =>
        var q := [a] + q';
        assert q[1..] == q';
        var z := Zeros(|p| - |q|);
        assert (q + z)[0] == a && (q + z)[1..] == q' + z;
      case None =>
        if a < k - 1 {
          var q := [a + 1];
          var z := Zeros(|p| - 1);
          assert q[1..] == [];
          CompleteLeftmost(t.children[a + 1], |p| - 1, k);
          CompleteIsCutAtZeros(t.children[a + 1], |p| - 1, k);
          assert (q + z)[0] == a + 1 && (q + z)[1..] == z;
        }
    }
  }

  /*---------------------------------------------------------------------------------------------
    The caches: crtOptimalLeaf and trajectoryId
  ---------------------------------------------------------------------------------------------*/

  /** The sum of the node a child's crtOptimalLeaf designates. */
  function OptSum(c: Node): real {
    if ValidPath(c, c.info.opt) then Get(c, c.info.opt).info.sum else 0.0
  }

  /** j is the first child of largest optimal sum. */
  predicate IsFirstArgmax(cs: seq<Node>, j: nat) {
    && j < |cs|
    && (forall i :: 0 <= i < |cs| ==> OptSum(cs[i]) <= OptSum(cs[j]))
    && (forall i :: 0 <= i < j ==> OptSum(cs[i]) < OptSum(cs[j]))
  }

  /**
   The pointer structure of one node: a leaf designates itself with trajectoryId 0; an internal
   node's crtOptimalLeaf goes through the child trajectoryId names.
   */
  predicate NodeLinked(n: Node) {
    if n.IsLeaf() then n.info.tid == 0 && n.info.opt == []
    else n.info.tid < |n.children| && n.info.opt == [n.info.tid] + n.children[n.info.tid].info.opt
  }

  /** NodeLinked at every node of t. */
  predicate Linked(t: Node)
    decreases t
  {
    NodeLinked(t) && forall i :: 0 <= i < |t.children| ==> Linked(t.children[i])
  }

  /** Every internal node of t points through its first child of largest optimal sum. */
  predicate Ranked(t: Node)
    decreases t
  {
    && (!t.IsLeaf() ==> IsFirstArgmax(t.children, t.info.tid))
    && forall i :: 0 <= i < |t.children| ==> Ranked(t.children[i])
  }

  /**
   The sums along t agree with the rewards: t has sum s, and a child of a node of sum s at depth
   d has sum s + gamma^d * reward.
   */
  predicate SumsFrom(t: Node, g: real, s: real, d: nat)
    decreases t
  {
    && t.info.sum == s
    && forall i :: 0 <= i < |t.children| ==>
         SumsFrom(t.children[i], g, ChildSum(g, s, d, t.children[i]), d + 1)
  }

  /** The sum of a child c of a node of sum s at depth d. */
  function ChildSum(g: real, s: real, d: nat, c: Node): real {
    s + Pow(g, d) * c.info.reward
  }

  /**
   The scan of lines 188-195 (and, for a node just opened, of lines 160-177, whose children are
   leaves designating themselves): j is the best child of cs[..i] so far and moves only to a
   child of strictly larger optimal sum.
   */
  function ArgmaxFrom(cs: seq<Node>, i: nat, j: nat): (r: nat)
    requires j < i <= |cs| && IsFirstArgmax(cs[..i], j)
    ensures IsFirstArgmax(cs, r)
    decreases |cs| - i
  {
    if i == |cs| then
      assert cs[..i] == cs;
      j
    else
      var j' := if OptSum(cs[i]) > OptSum(cs[j]) then i else j;
      assert forall l :: 0 <= l < i ==> cs[..i + 1][l] == cs[..i][l];
      ArgmaxFrom(cs, i + 1, j')
  }

  /** A node's caches recomputed from its children (every child taken into account). */
  function Refresh(n: Node): (r: Node)
    requires !n.IsLeaf()
    ensures r.children == n.children && r.info == n.info.(tid := r.info.tid, opt := r.info.opt)
    ensures IsFirstArgmax(n.children, r.info.tid)
    ensures r.info.opt == [r.info.tid] + n.children[r.info.tid].info.opt
  {
    assert n.children[..1] == [n.children[0]];
    var j := ArgmaxFrom(n.children, 1, 0);
    Node(n.info.(tid := j, opt := [j] + n.children[j].info.opt), n.children)
  }

  /*---------------------------------------------------------------------------------------------
    Expansion (buildingTrajectory, lines 152-202)
  ---------------------------------------------------------------------------------------------*/

  /**
   A new leaf below a node of sum s, opened while the planner expands level d (line 172): its
   sum discounts the reward by gamma^d, and it designates itself with trajectoryId 0.
   */
  function NewLeaf(s: real, o: Transition, g: real, d: nat): Node {
    Node(Info(o.reward, s + Pow(g, d) * o.reward, 0, []), [])
  }

  function NewLeaves(s: real, outs: seq<Transition>, g: real, d: nat): (cs: seq<Node>)
    ensures |cs| == |outs|
  {
    seq(|outs|, i requires 0 <= i < |outs| => NewLeaf(s, outs[i], g, d))
  }

  /**
   Open the leaf at p with the outcomes of its K actions at discount level d, then refresh the
   opened node and each of its ancestors, bottom-up.
   */
  function ExpandAt(t: Node, p: Path, outs: seq<Transition>, g: real, d: nat): (r: Node)
    requires IsLeafPath(t, p) && |outs| > 0
    ensures r.info == t.info.(tid := r.info.tid, opt := r.info.opt)
    ensures |r.children| == if |p| == 0 then |outs| else |t.children|
    decreases |p|
  {
    if |p| == 0 then Refresh(Node(t.info, NewLeaves(t.info.sum, outs, g, d)))
    else
      var i := p[0];
      Refresh(Node(t.info, t.children[i := ExpandAt(t.children[i], p[1..], outs, g, d)]))
  }

  /** Opening the leaf at p of the breadth-first tree at p gives the tree opened at p. */
  lemma {:induction false} ExpandOpens(t: Node, p: Path, outs: seq<Transition>, g: real, d: nat, k: nat)
    requires AtCut(t, p, k) && |outs| == k && k >= 1
    ensures IsLeafPath(t, p) && OpenedAt(ExpandAt(t, p, outs, g, d), p, k)
    decreases |p|
  {
    CutIsLeaf(t, p, k);
    var r := ExpandAt(t, p, outs, g, d);
    if |p| > 0 {
      var i := p[0];
      ExpandOpens(t.children[i], p[1..], outs, g, d, k);
      assert forall j :: 0 <= j < k && j != i ==> r.children[j] == t.children[j];
    }
  }

  /** The opened leaf gets exactly the new leaves of the outcomes, and every path is kept. */
  lemma {:induction false} ExpandOpensLeaf(t: Node, p: Path, outs: seq<Transition>, g: real, d: nat)
    requires IsLeafPath(t, p) && |outs| > 0
    ensures var r := ExpandAt(t, p, outs, g, d);
      && ValidPath(r, p)
      && Get(r, p).info.sum == Get(t, p).info.sum
      && Get(r, p).children == NewLeaves(Get(t, p).info.sum, outs, g, d)
    decreases |p|
  {
    if |p| > 0 {
      ExpandOpensLeaf(t.children[p[0]], p[1..], outs, g, d);
    }
  }

  /** An expansion adds K nodes. */
  lemma {:induction false} ExpandSize(t: Node, p: Path, outs: seq<Transition>, g: real, d: nat)
    requires IsLeafPath(t, p) && |outs| > 0
    ensures Size(ExpandAt(t, p, outs, g, d)) == Size(t) + |outs|
    decreases |p|
  {
    var r := ExpandAt(t, p, outs, g, d);
    if |p| == 0 {
      var cs := NewLeaves(t.info.sum, outs, g, d);
      NewLeavesSize(t.info.sum, outs, g, d, |outs|);
      assert cs[..|outs|] == cs && r.children == cs;
    } else {
      var i := p[0];
      ExpandSize(t.children[i], p[1..], outs, g, d);
      SizeOfUpdate(t.children, i, r.children[i]);
    }
  }

  lemma {:induction false} NewLeavesSize(s: real, outs: seq<Transition>, g: real, d: nat, n: nat)
    requires n <= |outs|
    ensures SizeOf(NewLeaves(s, outs, g, d)[..n]) == n
    decreases n
  {
    if n > 0 {
      var cs := NewLeaves(s, outs, g, d);
      assert cs[..n][..n - 1] == cs[..n - 1];
      assert cs[..n][n - 1] == cs[n - 1] && Size(cs[n - 1]) == 1;
      NewLeavesSize(s, outs, g, d, n - 1);
    }
  }

  /** An expansion keeps the pointer structure. */
  lemma {:induction false} ExpandKeepsLinked(t: Node, p: Path, outs: seq<Transition>, g: real, d: nat)
    requires IsLeafPath(t, p) && |outs| > 0 && Linked(t)
    ensures Linked(ExpandAt(t, p, outs, g, d))
    decreases |p|
  {
    var r := ExpandAt(t, p, outs, g, d);
    if |p| > 0 {
      var i := p[0];
      ExpandKeepsLinked(t.children[i], p[1..], outs, g, d);
      assert forall j :: 0 <= j < |r.children| && j != i ==> r.children[j] == t.children[j];
    }
  }

  /** An expansion keeps every crtOptimalLeaf on the first child of largest optimal sum. */
  lemma {:induction false} ExpandKeepsRanked(t: Node, p: Path, outs: seq<Transition>, g: real, d: nat)
    requires IsLeafPath(t, p) && |outs| > 0 && Ranked(t)
    ensures Ranked(ExpandAt(t, p, outs, g, d))
    decreases |p|
  {
    var r := ExpandAt(t, p, outs, g, d);
    if |p| > 0 {
      var i := p[0];
      ExpandKeepsRanked(t.children[i], p[1..], outs, g, d);
      assert forall j :: 0 <= j < |r.children| && j != i ==> r.children[j] == t.children[j];
    }
  }

  /**
   An expansion at discount level d keeps the sums right exactly when d is the depth of the
   opened leaf: here t is entered at depth e with sum s, and the leaf is |p| levels further down.
   */
  lemma {:induction false} ExpandKeepsSums(t: Node, p: Path, outs: seq<Transition>, g: real, d: nat, s: real, e: nat)
    requires IsLeafPath(t, p) && |outs| > 0 && SumsFrom(t, g, s, e) && d == e + |p|
    ensures SumsFrom(ExpandAt(t, p, outs, g, d), g, s, e)
    decreases |p|
  {
    var r := ExpandAt(t, p, outs, g, d);
    if |p| == 0 {
      forall i | 0 <= i < |r.children|
        ensures SumsFrom(r.children[i], g, ChildSum(g, s, e, r.children[i]), e + 1)
      {
      }
    } else {
      var i := p[0];
      var c := t.children[i];
      ExpandKeepsSums(c, p[1..], outs, g, d, ChildSum(g, s, e, c), e + 1);
      assert forall j :: 0 <= j < |r.children| && j != i ==> r.children[j] == t.children[j];
      assert r.children[i].info.reward == c.info.reward;
    }
  }

  /*---------------------------------------------------------------------------------------------
    The next leaf to open (updateNextOpennedNode, lines 127-149)
  ---------------------------------------------------------------------------------------------*/

  /**
   From a node `from` whose leaf children are the last ones created, climb while the node is its
   father's last child, then step to the next sibling and follow first children down to a leaf;
   when the climb passes the root the walk starts again from the root, one level further down.
   The result is the breadth-first frontier: the next leaf on from's level, or the first leaf of
   the new level.
   */
  function NextLeaf(t: Node, from: Path, k: nat): (r: Path)
    requires OpenedAt(t, from, k) && k >= 1
    ensures AtCut(t, r, k)
    ensures Climb(from, k).None? ==> r == Zeros(|from| + 1) && Complete(t, |from| + 1, k)
    ensures Climb(from, k).Some? ==> |r| == |from|
  {
    AdvanceFromOpened(t, from, k);
    match Climb(from, k)
    case None =>
      CompleteLeftmost(t, |from| + 1, k);
      CompleteIsCutAtZeros(t, |from| + 1, k);
      Leftmost(t)
    case Some(q) =>
      q + Leftmost(Get(t, q))
  }

  /*---------------------------------------------------------------------------------------------
    The planner
  ---------------------------------------------------------------------------------------------*/

  /**
   The planner invariant: the tree is the breadth-first tree at nextOpennedNode; every
   crtOptimalLeaf designates a leaf through the child its trajectoryId names; the root keeps the
   sum 0; the counter counts the nodes below the root; and crtDepth is the level of
   nextOpennedNode, or one more after a re-rooting (line 251).
   */
  predicate Inv(inst: Instance, k: nat) {
    && k >= 1
    && AtCut(inst.root, inst.next, k)
    && Linked(inst.root)
    && inst.root.info.sum == 0.0
    && inst.evaluations + 1 == Size(inst.root)
    && |inst.next| <= inst.depth <= |inst.next| + 1
  }

  /**
   The sums are the discounted returns of the paths from the root, and crtDepth is the level of
   nextOpennedNode, so that the next opening discounts its rewards by gamma to their own depth.
   */
  predicate Consistent(inst: Instance, g: real) {
    SumsFrom(inst.root, g, 0.0, 0) && inst.depth == |inst.next|
  }

  /** uniform_resetInstance (lines 98-124): a lone root of reward and sum 0, designating itself. */
  function Reset(): (r: Instance)
    ensures r.root.IsLeaf() && r.next == [] && r.evaluations == 0 && r.depth == 0
  {
    Instance(Node(Info(0.0, 0.0, 0, []), []), 0, 0, [])
  }

  lemma ResetInv(k: nat, g: real)
    requires k >= 1
    ensures Inv(Reset(), k) && Ranked(Reset().root) && Consistent(Reset(), g)
  {
  }

  /**
   buildingTrajectory (lines 152-202): open nextOpennedNode with the K outcomes of the generative
   model, discounting their rewards by gamma^crtDepth, refresh the caches bottom-up, count K
   evaluations and move to the next leaf, one level down when the level is finished.
   */
  function Step(inst: Instance, g: real, k: nat, sim: Simulator): (r: Instance)
    requires k >= 1 && AtCut(inst.root, inst.next, k)
    ensures AtCut(r.root, r.next, k)
    ensures r.evaluations == inst.evaluations + k
    ensures |r.next| == |inst.next| || (|r.next| == |inst.next| + 1 && Complete(r.root, |r.next|, k))
    ensures r.depth - |r.next| == inst.depth - |inst.next|
  {
    var p := inst.next;
    CutIsLeaf(inst.root, p, k);
    var t := ExpandAt(inst.root, p, Outcomes(sim, p, k), g, inst.depth);
    ExpandOpens(inst.root, p, Outcomes(sim, p, k), g, inst.depth, k);
    Instance(t, inst.evaluations + k, if Climb(p, k).None? then inst.depth + 1 else inst.depth, NextLeaf(t, p, k))
  }

  /**
   A step keeps the planner invariant, adding K nodes and K evaluations; it keeps the caches
   ranked, and keeps the sums right when crtDepth is the level of nextOpennedNode.
   */
  lemma StepKeepsInv(inst: Instance, g: real, k: nat, sim: Simulator)
    requires Inv(inst, k)
    ensures Inv(Step(inst, g, k, sim), k)
    ensures Size(Step(inst, g, k, sim).root) == Size(inst.root) + k
    ensures Ranked(inst.root) ==> Ranked(Step(inst, g, k, sim).root)
    ensures Consistent(inst, g) ==> Consistent(Step(inst, g, k, sim), g)
  {
    var p := inst.next;
    var outs := Outcomes(sim, p, k);
    CutIsLeaf(inst.root, p, k);
    ExpandSize(inst.root, p, outs, g, inst.depth);
    ExpandKeepsLinked(inst.root, p, outs, g, inst.depth);
    if Ranked(inst.root) {
      ExpandKeepsRanked(inst.root, p, outs, g, inst.depth);
    }
    if Consistent(inst, g) {
      ExpandKeepsSums(inst.root, p, outs, g, inst.depth, 0.0, 0);
    }
  }

  /**
   uniform_planning (lines 205-214): steps until the evaluation budget is spent or the level
   below the depth ceiling is reached.
   */
  function Plan(inst: Instance, budget: nat, g: real, k: nat, sim: Simulator): (r: Instance)
    requires k >= 1 && AtCut(inst.root, inst.next, k)
    ensures AtCut(r.root, r.next, k)
    ensures r.evaluations >= budget || r.depth >= DepthCeiling - 1
    ensures r.evaluations >= inst.evaluations
    decreases budget - inst.evaluations
  {
    if inst.evaluations < budget && inst.depth < DepthCeiling - 1 then Plan(Step(inst, g, k, sim), budget, g, k, sim)
    else inst
  }

  lemma {:induction false} PlanKeepsInv(inst: Instance, budget: nat, g: real, k: nat, sim: Simulator)
    requires Inv(inst, k)
    ensures Inv(Plan(inst, budget, g, k, sim), k)
    ensures Ranked(inst.root) ==> Ranked(Plan(inst, budget, g, k, sim).root)
    ensures Consistent(inst, g) ==> Consistent(Plan(inst, budget, g, k, sim), g)
    decreases budget - inst.evaluations
  {
    if inst.evaluations < budget && inst.depth < DepthCeiling - 1 {
      StepKeepsInv(inst, g, k, sim);
      PlanKeepsInv(Step(inst, g, k, sim), budget, g, k, sim);
    }
  }

  /** The action uniform_planning returns: the root's trajectoryId. */
  function Recommended(inst: Instance): nat {
    inst.root.info.tid
  }

  /*---------------------------------------------------------------------------------------------
    What the caches promise
  ---------------------------------------------------------------------------------------------*/

  /** crtOptimalLeaf designates a leaf of the node's subtree. */
  lemma {:induction false} PointerIsLeaf(t: Node)
    requires Linked(t)
    ensures IsLeafPath(t, t.info.opt) && OptSum(t) == Get(t, t.info.opt).info.sum
    decreases t
  {
    if !t.IsLeaf() {
      var j := t.info.tid;
      PointerIsLeaf(t.children[j]);
      assert t.info.opt[1..] == t.children[j].info.opt;
    }
  }

  /** crtOptimalLeaf designates a leaf of largest sum of the node's subtree. */
  lemma {:induction false} OptIsBestLeaf(t: Node, q: Path)
    requires Linked(t) && Ranked(t) && IsLeafPath(t, q)
    ensures Get(t, q).info.sum <= OptSum(t)
    decreases t
  {
    PointerIsLeaf(t);
    if |q| > 0 {
      var c := t.children[q[0]];
      var j := t.info.tid;
      OptIsBestLeaf(c, q[1..]);
      PointerIsLeaf(c);
      PointerIsLeaf(t.children[j]);
      assert t.info.opt[1..] == t.children[j].info.opt;
      assert OptSum(t) == OptSum(t.children[j]);
    }
  }

  /**
   The action recommended leads to a leaf of largest discounted return among all the leaves of
   the tree (action 0 when the root is still a leaf).
   */
  lemma RecommendedIsBest(inst: Instance, k: nat, q: Path)
    requires Inv(inst, k) && Ranked(inst.root) && IsLeafPath(inst.root, q)
    ensures inst.root.IsLeaf() ==> Recommended(inst) == 0
    ensures !inst.root.IsLeaf() ==>
      var leaf := inst.root.info.opt;
      && IsLeafPath(inst.root, leaf) && |leaf| > 0 && leaf[0] == Recommended(inst)
      && Get(inst.root, q).info.sum <= Get(inst.root, leaf).info.sum
  {
    PointerIsLeaf(inst.root);
    OptIsBestLeaf(inst.root, q);
  }

  /*---------------------------------------------------------------------------------------------
    Level order on one level of the breadth-first tree
  ---------------------------------------------------------------------------------------------*/

  /** The path of n last children: the rightmost node n levels down. */
  function Lasts(n: nat, k: nat): (z: Path)
    requires k >= 1
    ensures |z| == n && forall i :: 0 <= i < n ==> z[i] == k - 1
  {
    if n == 0 then [] else [k - 1] + Lasts(n - 1, k)
  }

  predicate IsZeros(p: Path) {
    forall i :: 0 <= i < |p| ==> p[i] == 0
  }

  /** The node just before p on its level, left to right (p is not the leftmost one). */
  function Pred(p: Path, k: nat): (r: Path)
    requires !IsZeros(p) && k >= 1
    ensures |r| == |p|
    decreases |p|
  {
    if !IsZeros(p[1..]) then [p[0]] + Pred(p[1..], k)
    else
      assert p[0] != 0 by {
        assert forall i :: 1 <= i < |p| ==> p[i] == p[1..][i - 1];
      }
      [p[0] - 1] + Lasts(|p| - 1, k)
  }

  /** The climb from the rightmost node of a level passes the root. */
  lemma {:induction false} ClimbLasts(n: nat, k: nat)
    requires k >= 1
    ensures Climb(Lasts(n, k), k) == None
    decreases n
  {
    if n > 0 {
      ClimbLasts(n - 1, k);
      ClimbCons(k - 1, Lasts(n - 1, k), k);
    }
  }

  /** A complete tree of height h is the tree opened at the rightmost node of level h - 1. */
  lemma {:induction false} CompleteIsOpenedAtLasts(t: Node, h: nat, k: nat)
    requires Complete(t, h, k) && h >= 1 && k >= 1
    ensures OpenedAt(t, Lasts(h - 1, k), k)
    decreases h
  {
    if h > 1 {
      assert Lasts(h - 1, k)[1..] == Lasts(h - 2, k);
      CompleteIsOpenedAtLasts(t.children[k - 1], h - 1, k);
    }
  }

  /** The breadth-first tree at p is the tree opened at the node before p. */
  lemma {:induction false} CutIsOpenedAtPred(t: Node, p: Path, k: nat)
    requires AtCut(t, p, k) && !IsZeros(p) && k >= 1
    ensures OpenedAt(t, Pred(p, k), k)
    decreases |p|
  {
    var a, r := p[0], Pred(p, k);
    if !IsZeros(p[1..]) {
      assert r[1..] == Pred(p[1..], k);
      CutIsOpenedAtPred(t.children[a], p[1..], k);
    } else {
      assert r[0] == a - 1 && r[1..] == Lasts(|p| - 1, k);
      assert p[1..] == Zeros(|p| - 1);
      CutAtZerosIsComplete(t.children[a], |p| - 1, k);
      if |p| > 1 {
        CompleteIsOpenedAtLasts(t.children[a - 1], |p|, k);
      }
    }
  }

  /** From the node before p the climb stops below the root, at a node p goes down from by zeros. */
  lemma {:induction false} ClimbPred(t: Node, p: Path, k: nat)
    requires AtCut(t, p, k) && !IsZeros(p) && k >= 1
    ensures Climb(Pred(p, k), k).Some?
    ensures var q := Climb(Pred(p, k), k).value; |q| <= |p| && q + Zeros(|p| - |q|) == p
    decreases |p|
  {
    var a := p[0];
    if !IsZeros(p[1..]) {
      ClimbPred(t.children[a], p[1..], k);
      ClimbCons(a, Pred(p[1..], k), k);
      var q' := Climb(Pred(p[1..], k), k).value;
      assert [a] + q' + Zeros(|p| - 1 - |q'|) == [a] + p[1..];
    } else {
      ClimbPredFirst(p, k);
    }
  }

  /** When p goes down from its level's second node or later by zeros, the climb stops at p[..1]. */
  lemma ClimbPredFirst(p: Path, k: nat)
    requires |p| > 0 && 0 < p[0] < k && IsZeros(p[1..])
    ensures !IsZeros(p) && Climb(Pred(p, k), k) == Some([p[0]]) && [p[0]] + Zeros(|p| - 1) == p
  {
    var a := p[0];
    ClimbLasts(|p| - 1, k);
    ClimbCons(a - 1, Lasts(|p| - 1, k), k);
    assert p[1..] == Zeros(|p| - 1);
    assert [a] + p[1..] == p;
  }

  /** updateNextOpennedNode from the node before p finds p: the two walks are inverse. */
  lemma NextAfterPred(t: Node, p: Path, k: nat)
    requires AtCut(t, p, k) && !IsZeros(p) && k >= 1
    ensures OpenedAt(t, Pred(p, k), k) && Climb(Pred(p, k), k).Some? && NextLeaf(t, Pred(p, k), k) == p
  {
    CutIsOpenedAtPred(t, p, k);
    ClimbPred(t, p, k);
    AdvanceFromOpened(t, Pred(p, k), k);
  }

  /*---------------------------------------------------------------------------------------------
    The sweep of updateValues (lines 217-253)
  ---------------------------------------------------------------------------------------------*/

  /**
   What the depth-first sweep carries: the nodes counted (crtNbEvaluations), the largest leaf
   depth met (crtMaxDepth) and nextOpennedNode, the father of the last leaf met at that depth.
   */
  datatype Deepest = Deepest(count: nat, depth: nat, father: Path)

  /**
   The sweep at the node t reached by the path `at` from the root: t is counted; a leaf at least
   as deep as the deepest one so far (lines 235-238: the comparison is >=) records its depth and
   its father; an internal node hands on to its children in order.
   */
  function SweepNode(t: Node, at: Path, acc: Deepest): Deepest
    requires |at| > 0
    decreases t, 1
  {
    var a := acc.(count := acc.count + 1);
    if t.IsLeaf() then
      if |at| >= a.depth then a.(depth := |at|, father := at[..|at| - 1]) else a
    else SweepFrom(t.children, 0, at, a)
  }

  function SweepFrom(cs: seq<Node>, from: nat, at: Path, acc: Deepest): Deepest
    decreases cs, 0, |cs| - from
  {
    if from >= |cs| then acc else SweepFrom(cs, from + 1, at, SweepNode(cs[from], at + [from], acc))
  }

  /** The sweep counts every node once. */
  lemma {:induction false} SweepCount(t: Node, at: Path, acc: Deepest)
    requires |at| > 0
    ensures SweepNode(t, at, acc).count == acc.count + Size(t)
    decreases t, 1
  {
    if !t.IsLeaf() {
      SweepFromCount(t.children, 0, at, acc.(count := acc.count + 1));
      assert t.children[..0] == [];
    }
  }

  lemma {:induction false} SweepFromCount(cs: seq<Node>, from: nat, at: Path, acc: Deepest)
    requires from <= |cs|
    ensures SweepFrom(cs, from, at, acc).count + SizeOf(cs[..from]) == acc.count + SizeOf(cs)
    decreases cs, 0, |cs| - from
  {
    if from < |cs| {
      SweepCount(cs[from], at + [from], acc);
      SweepFromCount(cs, from + 1, at, SweepNode(cs[from], at + [from], acc));
      assert cs[..from + 1][..from] == cs[..from];
    } else {
      assert cs[..from] == cs;
    }
  }

  /** A complete tree whose leaves lie above the deepest level met leaves the record alone. */
  lemma {:induction false} SweepShallow(t: Node, h: nat, at: Path, acc: Deepest, k: nat)
    requires Complete(t, h, k) && |at| > 0 && |at| + h < acc.depth
    ensures SweepNode(t, at, acc).depth == acc.depth && SweepNode(t, at, acc).father == acc.father
    decreases t, 1
  {
    if h > 0 {
      SweepFromShallow(t.children, 0, at, acc.(count := acc.count + 1), h - 1, k);
    }
  }

  lemma {:induction false} SweepFromShallow(cs: seq<Node>, from: nat, at: Path, acc: Deepest, h: nat, k: nat)
    requires forall i :: from <= i < |cs| ==> Complete(cs[i], h, k)
    requires |at| + 1 + h < acc.depth
    ensures SweepFrom(cs, from, at, acc).depth == acc.depth && SweepFrom(cs, from, at, acc).father == acc.father
    decreases cs, 0, |cs| - from
  {
    if from < |cs| {
      SweepShallow(cs[from], h, at + [from], acc, k);
      SweepFromShallow(cs, from + 1, at, SweepNode(cs[from], at + [from], acc), h, k);
    }
  }

  /**
   In a complete tree of height h >= 1 every leaf is as deep as the deepest one met so far or
   deeper: the last leaf wins, and its father is the rightmost node of level h - 1.
   */
  lemma {:induction false} SweepComplete(t: Node, h: nat, at: Path, acc: Deepest, k: nat)
    requires Complete(t, h, k) && k >= 1 && h >= 1 && |at| > 0 && |at| + h >= acc.depth
    ensures SweepNode(t, at, acc).depth == |at| + h
    ensures SweepNode(t, at, acc).father == at + Lasts(h - 1, k)
    decreases t, 1
  {
    SweepCompleteFrom(t.children, 0, at, acc.(count := acc.count + 1), h - 1, k);
  }

  lemma {:induction false} SweepCompleteFrom(cs: seq<Node>, from: nat, at: Path, acc: Deepest, h: nat, k: nat)
    requires |cs| == k && from < k && forall i :: from <= i < k ==> Complete(cs[i], h, k)
    requires |at| + 1 + h >= acc.depth
    ensures SweepFrom(cs, from, at, acc).depth == |at| + 1 + h
    ensures SweepFrom(cs, from, at, acc).father == at + Lasts(h, k)
    decreases cs, 0, |cs| - from
  {
    var c := cs[from];
    var a := SweepNode(c, at + [from], acc);
    if h == 0 {
      assert (at + [from])[..|at|] == at;
    } else {
      SweepComplete(c, h, at + [from], acc, k);
      assert at + [from] + Lasts(h - 1, k) == at + ([from] + Lasts(h - 1, k));
    }
    if from + 1 < k {
      SweepCompleteFrom(cs, from + 1, at, a, h, k);
    }
  }

  /**
   In the breadth-first tree at p (p not the leftmost node of its level) the deepest leaves are
   the children of the nodes opened left of p; the last of them is a child of the node before p.
   */
  lemma {:induction false} SweepCut(t: Node, p: Path, at: Path, acc: Deepest, k: nat)
    requires AtCut(t, p, k) && !IsZeros(p) && k >= 1 && |at| > 0 && |at| + |p| + 1 >= acc.depth
    ensures SweepNode(t, at, acc).depth == |at| + |p| + 1
    ensures SweepNode(t, at, acc).father == at + Pred(p, k)
    decreases |p|, 1
  {
    SweepCutFrom(t, p, 0, at, acc.(count := acc.count + 1), k);
  }

  lemma {:induction false} SweepCutFrom(t: Node, p: Path, from: nat, at: Path, acc: Deepest, k: nat)
    requires AtCut(t, p, k) && !IsZeros(p) && k >= 1 && from <= p[0]
    requires from == 0 ==> |at| + 1 + |p| >= acc.depth
    requires from > 0 ==> acc.depth == |at| + 1 + |p| && acc.father == at + [from - 1] + Lasts(|p| - 1, k)
    ensures SweepFrom(t.children, from, at, acc).depth == |at| + 1 + |p|
    ensures SweepFrom(t.children, from, at, acc).father == at + Pred(p, k)
    decreases |p|, 0, p[0] - from
  {
    var cs, a := t.children, p[0];
    if from < a {
      SweepComplete(cs[from], |p|, at + [from], acc, k);
      SweepCutFrom(t, p, from + 1, at, SweepNode(cs[from], at + [from], acc), k);
    } else if !IsZeros(p[1..]) {
      SweepCut(cs[a], p[1..], at + [a], acc, k);
      var acc' := SweepNode(cs[a], at + [a], acc);
      assert at + [a] + Pred(p[1..], k) == at + Pred(p, k);
      SweepFromShallow(cs, a + 1, at, acc', |p| - 1, k);
    } else {
      assert p[1..] == Zeros(|p| - 1);
      CutAtZerosIsComplete(cs[a], |p| - 1, k);
      assert at + [from - 1] + Lasts(|p| - 1, k) == at + Pred(p, k);
      SweepFromShallow(cs, a, at, acc, |p| - 1, k);
    }
  }

  /**
   On the breadth-first tree at p, the sweep from the root records the node that updateNextOpennedNode
   takes as the last one opened: from there the walk finds p again, wrapping to a new level exactly
   when p is the leftmost node of its level, and the depth recorded is one more than that node's.
   */
  lemma SweepFindsCut(t: Node, p: Path, k: nat, acc: Deepest)
    requires AtCut(t, p, k) && !t.IsLeaf() && k >= 1 && acc.depth <= 1
    ensures var sw := SweepFrom(t.children, 0, [], acc);
      && OpenedAt(t, sw.father, k)
      && sw.depth == |sw.father| + 1
      && NextLeaf(t, sw.father, k) == p
      && (Climb(sw.father, k).None? <==> IsZeros(p))
      && |p| == |sw.father| + (if IsZeros(p) then 1 else 0)
  {
    var root: Path := [];
    if IsZeros(p) {
      assert p == Zeros(|p|);
      CutAtZerosIsComplete(t, |p|, k);
      SweepCompleteFrom(t.children, 0, root, acc, |p| - 1, k);
      assert root + Lasts(|p| - 1, k) == Lasts(|p| - 1, k);
      CompleteIsOpenedAtLasts(t, |p|, k);
      ClimbLasts(|p| - 1, k);
    } else {
      SweepCutFrom(t, p, 0, root, acc, k);
      assert root + Pred(p, k) == Pred(p, k);
      NextAfterPred(t, p, k);
    }
  }

  /*---------------------------------------------------------------------------------------------
    Re-rooting (uniform_keepSubtree, lines 256-289)
  ---------------------------------------------------------------------------------------------*/

  /**
   updateValues on one retained node t below the new root: t is a child of a node of new sum s
   at depth d, so its sum becomes ChildSum(g, s, d, t) (lines 226 and 233).
   */
  function Rebase(t: Node, g: real, s: real, d: nat): (r: Node)
    ensures |r.children| == |t.children|
    ensures r.info == t.info.(sum := ChildSum(g, s, d, t))
    ensures SumsFrom(r, g, ChildSum(g, s, d, t), d + 1)
    decreases t
  {
    var sum := ChildSum(g, s, d, t);
    var cs := seq(|t.children|, i requires 0 <= i < |t.children| => Rebase(t.children[i], g, sum, d + 1));
    assert forall i :: 0 <= i < |cs| ==> ChildSum(g, sum, d + 1, cs[i]) == ChildSum(g, sum, d + 1, t.children[i]);
    Node(t.info.(sum := sum), cs)
  }

  /** The kept child's children, rebased below the new root of sum s. */
  function RebaseAll(cs: seq<Node>, g: real, s: real): (rs: seq<Node>)
    ensures |rs| == |cs|
    ensures forall i :: 0 <= i < |cs| ==> rs[i] == Rebase(cs[i], g, s, 0)
  {
    seq(|cs|, i requires 0 <= i < |cs| => Rebase(cs[i], g, s, 0))
  }

  /**
   n is o measured from another root: same shape and pointers, the same rewards below the top,
   and every sum of o is c + m times the sum of the same node in n.
   */
  predicate Rescaled(o: Node, n: Node, c: real, m: real)
    decreases o
  {
    && |o.children| == |n.children|
    && o.info.tid == n.info.tid
    && o.info.opt == n.info.opt
    && o.info.sum == Scale(c, m, n.info.sum)
    && forall i :: 0 <= i < |o.children| ==>
         o.children[i].info.reward == n.children[i].info.reward && Rescaled(o.children[i], n.children[i], c, m)
  }

  /** Below a node of old depth d + 2, rebasing from depth d rescales every sum by gamma. */
  lemma {:induction false} RebaseRescales(o: Node, g: real, s: real, d: nat, c: real)
    requires SumsFrom(o, g, Scale(c, g, ChildSum(g, s, d, o)), d + 2)
    ensures Rescaled(o, Rebase(o, g, s, d), c, g)
    decreases o
  {
    var n := Rebase(o, g, s, d);
    var sn := ChildSum(g, s, d, o);
    var so := Scale(c, g, sn);
    forall i | 0 <= i < |o.children|
      ensures o.children[i].info.reward == n.children[i].info.reward
      ensures Rescaled(o.children[i], n.children[i], c, g)
    {
      var oc := o.children[i];
      assert SumsFrom(oc, g, ChildSum(g, so, d + 2, oc), d + 3);
      assert Pow(g, d + 2) == g * Pow(g, d + 1);
      AffineStep(c, g, sn, Pow(g, d + 1), oc.info.reward);
      assert ChildSum(g, so, d + 2, oc) == Scale(c, g, ChildSum(g, sn, d + 1, oc));
      RebaseRescales(oc, g, sn, d + 1, c);
    }
  }

  /** Rescaling keeps paths, and the node at the end of a path is rescaled too. */
  lemma {:induction false} RescaledPath(o: Node, n: Node, c: real, m: real, q: Path)
    requires Rescaled(o, n, c, m) && ValidPath(o, q)
    ensures ValidPath(n, q) && Rescaled(Get(o, q), Get(n, q), c, m)
    decreases |q|
  {
    if |q| > 0 {
      RescaledPath(o.children[q[0]], n.children[q[0]], c, m, q[1..]);
    }
  }

  /** The first child of largest optimal sum survives a positive rescaling. */
  lemma ArgmaxRescaled(os: seq<Node>, ns: seq<Node>, c: real, m: real, j: nat)
    requires m > 0.0 && |os| == |ns| && IsFirstArgmax(os, j)
    requires forall i :: 0 <= i < |os| ==> OptSum(os[i]) == Scale(c, m, OptSum(ns[i]))
    ensures IsFirstArgmax(ns, j)
  {
    forall i | 0 <= i < |ns|
      ensures OptSum(ns[i]) <= OptSum(ns[j])
      ensures i < j ==> OptSum(ns[i]) < OptSum(ns[j])
    {
      ScaleOrder(c, m, OptSum(ns[i]), OptSum(ns[j]));
    }
  }

  /** The caches depend on the sums only through their order, which a positive rescaling keeps. */
  lemma {:induction false} RescaledKeepsCaches(o: Node, n: Node, c: real, m: real)
    requires m > 0.0 && Rescaled(o, n, c, m) && Linked(o) && Ranked(o)
    ensures Linked(n) && Ranked(n)
    decreases o
  {
    forall i | 0 <= i < |o.children|
      ensures Linked(n.children[i]) && Ranked(n.children[i])
    {
      RescaledKeepsCaches(o.children[i], n.children[i], c, m);
    }
    if !o.IsLeaf() {
      var os, ns := o.children, n.children;
      forall i | 0 <= i < |os|
        ensures OptSum(os[i]) == Scale(c, m, OptSum(ns[i]))
      {
        PointerIsLeaf(os[i]);
        RescaledPath(os[i], ns[i], c, m, os[i].info.opt);
      }
      ArgmaxRescaled(os, ns, c, m, o.info.tid);
    }
  }

  /** a and b have the same shape and the same pointers. */
  predicate Resembles(a: Node, b: Node)
    decreases a
  {
    && |a.children| == |b.children|
    && a.info.tid == b.info.tid
    && a.info.opt == b.info.opt
    && forall i :: 0 <= i < |a.children| ==> Resembles(a.children[i], b.children[i])
  }

  lemma {:induction false} ResemblesLinked(a: Node, b: Node)
    requires Resembles(a, b) && Linked(a)
    ensures Linked(b)
    decreases a
  {
    forall i | 0 <= i < |a.children|
      ensures Linked(b.children[i])
    {
      ResemblesLinked(a.children[i], b.children[i]);
    }
  }

  lemma {:induction false} RebaseResembles(t: Node, g: real, s: real, d: nat)
    ensures Resembles(t, Rebase(t, g, s, d))
    decreases t
  {
    var r := Rebase(t, g, s, d);
    forall i | 0 <= i < |t.children|
      ensures Resembles(t.children[i], r.children[i])
    {
      RebaseResembles(t.children[i], g, ChildSum(g, s, d, t), d + 1);
    }
  }

  /** Trees of the same shape have the same size, and one is complete or breadth-first when the other is. */
  lemma {:induction false} ResemblesShape(a: Node, b: Node, p: Path, h: nat, k: nat)
    requires |a.children| == |b.children|
    requires forall i :: 0 <= i < |a.children| ==> Resembles(a.children[i], b.children[i])
    ensures Size(a) == Size(b)
    ensures Complete(a, h, k) ==> Complete(b, h, k)
    ensures AtCut(a, p, k) ==> AtCut(b, p, k)
    decreases a
  {
    forall i | 0 <= i < |a.children|
      ensures Size(a.children[i]) == Size(b.children[i])
      ensures h > 0 && Complete(a.children[i], h - 1, k) ==> Complete(b.children[i], h - 1, k)
      ensures |p| > 0 && Complete(a.children[i], |p|, k) ==> Complete(b.children[i], |p|, k)
      ensures |p| > 0 && Complete(a.children[i], |p| - 1, k) ==> Complete(b.children[i], |p| - 1, k)
      ensures |p| > 0 && AtCut(a.children[i], p[1..], k) ==> AtCut(b.children[i], p[1..], k)
    {
      ResemblesShape(a.children[i], b.children[i], [], if h > 0 then h - 1 else 0, k);
      if |p| > 0 {
        ResemblesShape(a.children[i], b.children[i], p[1..], |p|, k);
        ResemblesShape(a.children[i], b.children[i], p[1..], |p| - 1, k);
      }
    }
    SizeOfPointwise(a.children, b.children);
  }

  /** Where nextOpennedNode is, seen from the child j of the root, for the breadth-first tree at p. */
  function KeptCut(p: Path, j: nat): (r: Path)
    requires |p| > 0
  {
    if j < p[0] then Zeros(|p|) else if j == p[0] then p[1..] else Zeros(|p| - 1)
  }

  /** Each child of the breadth-first tree at p is the breadth-first tree at KeptCut(p, j). */
  lemma KeptChildCut(t: Node, p: Path, j: nat, k: nat)
    requires AtCut(t, p, k) && |p| > 0 && j < k && k >= 1
    ensures AtCut(t.children[j], KeptCut(p, j), k)
  {
    if j < p[0] {
      CompleteIsCutAtZeros(t.children[j], |p|, k);
    } else if j > p[0] {
      CompleteIsCutAtZeros(t.children[j], |p| - 1, k);
    }
  }

  /**
   The retained tree: the root keeps its own reward and sum, takes the kept child's trajectoryId
   and children, and keeps its crtOptimalLeaf pointer, which now designates the node at the rest
   of its path; the children are rebased below the root's sum.
   */
  function Retained(root: Node, kept: Node, g: real): (t: Node)
    requires |root.info.opt| > 0
    ensures |t.children| == |kept.children|
  {
    Node(root.info.(tid := kept.info.tid, opt := root.info.opt[1..]), RebaseAll(kept.children, g, root.info.sum))
  }

  /**
   uniform_keepSubtree: the root takes over the kept child's trajectoryId and children. A kept
   leaf leaves a lone root. Otherwise updateValues recomputes the sums below the root, counts the
   retained nodes and records the father of the last deepest leaf, setting crtDepth to the depth
   of that leaf; updateNextOpennedNode then moves on from that father as if it had just been
   opened at crtDepth.
   */
  function Keep(inst: Instance, g: real, k: nat): (r: Instance)
    requires k >= 1 && AtCut(inst.root, inst.next, k) && NodeLinked(inst.root)
    ensures inst.root.IsLeaf() ==> r == inst
    ensures r.root.info == inst.root.info.(tid := r.root.info.tid, opt := r.root.info.opt)
    ensures !inst.root.IsLeaf() ==>
      var kept := inst.root.children[inst.root.info.tid];
      && r.evaluations + 1 == Size(kept)
      && r.root.info.tid == kept.info.tid
      && AtCut(r.root, r.next, k)
      && (kept.IsLeaf() ==> r.next == [] && r.depth == 0 && r.root.info.opt == [])
      && (!kept.IsLeaf() ==> r.next == KeptCut(inst.next, inst.root.info.tid) && r.depth == |r.next| + 1)
  {
    if inst.root.IsLeaf() then inst
    else
      var j := inst.root.info.tid;
      var kept := inst.root.children[j];
      if kept.IsLeaf() then
        Instance(Node(inst.root.info.(tid := kept.info.tid, opt := []), []), 0, 0, [])
      else
        var t := Retained(inst.root, kept, g);
        var p := KeptCut(inst.next, j);
        var sw := SweepFrom(t.children, 0, [], Deepest(0, 1, inst.next));
        KeptChildCut(inst.root, inst.next, j, k);
        RetainedShape(inst.root, kept, g, p, k);
        SweepFindsCut(t, p, k, Deepest(0, 1, inst.next));
        SweepFromCount(t.children, 0, [], Deepest(0, 1, inst.next));
        assert t.children[..0] == [];
        Instance(t, sw.count, if Climb(sw.father, k).None? then sw.depth + 1 else sw.depth, NextLeaf(t, sw.father, k))
  }

  /** The retained tree has the kept child's shape and size. */
  lemma RetainedShape(root: Node, kept: Node, g: real, p: Path, k: nat)
    requires |root.info.opt| > 0 && AtCut(kept, p, k)
    ensures AtCut(Retained(root, kept, g), p, k) && Size(Retained(root, kept, g)) == Size(kept)
  {
    var t := Retained(root, kept, g);
    forall i | 0 <= i < |kept.children|
      ensures Resembles(kept.children[i], t.children[i])
    {
      RebaseResembles(kept.children[i], g, root.info.sum, 0);
    }
    ResemblesShape(kept, t, p, 0, k);
  }

  /**
   Re-rooting keeps the planner invariant: the kept subtree keeps its shape, its pointers and
   nextOpennedNode its place, and the root its sum 0.
   */
  lemma KeepKeepsInv(inst: Instance, g: real, k: nat)
    requires Inv(inst, k)
    ensures Inv(Keep(inst, g, k), k)
  {
    if !inst.root.IsLeaf() {
      var kept := inst.root.children[inst.root.info.tid];
      assert Linked(kept) && NodeLinked(kept);
      if !kept.IsLeaf() {
        var t := Retained(inst.root, kept, g);
        assert Keep(inst, g, k).root == t;
        RetainedLinked(inst.root, kept, g);
        KeptChildCut(inst.root, inst.next, inst.root.info.tid, k);
        RetainedShape(inst.root, kept, g, KeptCut(inst.next, inst.root.info.tid), k);
      }
    }
  }

  /** The retained root designates its best leaf through the kept child's pointers. */
  lemma RetainedLinked(root: Node, kept: Node, g: real)
    requires Linked(root) && !root.IsLeaf() && kept == root.children[root.info.tid] && !kept.IsLeaf()
    ensures Linked(Retained(root, kept, g))
  {
    var t := Retained(root, kept, g);
    assert Linked(kept);
    forall i | 0 <= i < |kept.children|
      ensures Linked(t.children[i]) && t.children[i].info.opt == kept.children[i].info.opt
    {
      RebaseResembles(kept.children[i], g, root.info.sum, 0);
      ResemblesLinked(kept.children[i], t.children[i]);
    }
    assert root.info.opt[1..] == kept.info.opt;
  }

  /**
   When the sums were the discounted returns from the old root, re-rooting keeps them the
   discounted returns from the new root and keeps every trajectoryId on a first child of largest
   optimal sum.
   */
  lemma KeepKeepsRanked(inst: Instance, g: real, k: nat)
    requires Inv(inst, k) && Ranked(inst.root) && SumsFrom(inst.root, g, 0.0, 0) && ValidGamma(g)
    ensures Ranked(Keep(inst, g, k).root) && SumsFrom(Keep(inst, g, k).root, g, 0.0, 0)
  {
    if !inst.root.IsLeaf() {
      var kept := inst.root.children[inst.root.info.tid];
      assert Linked(kept) && Ranked(kept);
      if !kept.IsLeaf() {
        var t := Retained(inst.root, kept, g);
        assert Keep(inst, g, k).root == t;
        KeptRescaled(inst, g, k);
        RescaledKeepsCaches(kept, t, kept.info.sum, g);
        RetainedSums(inst, g, k);
        RetainedLinked(inst.root, kept, g);
      }
    }
  }

  /** The retained tree measures the sums from the new root, whose sum is still 0. */
  lemma RetainedSums(inst: Instance, g: real, k: nat)
    requires Inv(inst, k) && !inst.root.IsLeaf()
    ensures var kept := inst.root.children[inst.root.info.tid];
      SumsFrom(Retained(inst.root, kept, g), g, 0.0, 0)
  {
    var kept := inst.root.children[inst.root.info.tid];
    var t := Retained(inst.root, kept, g);
    assert forall i :: 0 <= i < |t.children| ==> ChildSum(g, 0.0, 0, t.children[i]) == ChildSum(g, 0.0, 0, kept.children[i]);
  }

  /**
   The retained tree is the kept child measured from the new root: every sum of the kept child
   is its old sum c plus gamma times the new one.
   */
  lemma KeptRescaled(inst: Instance, g: real, k: nat)
    requires Inv(inst, k) && SumsFrom(inst.root, g, 0.0, 0) && !inst.root.IsLeaf()
    ensures var kept := inst.root.children[inst.root.info.tid];
      Rescaled(kept, Retained(inst.root, kept, g), kept.info.sum, g)
  {
    var kept := inst.root.children[inst.root.info.tid];
    var c := kept.info.sum;
    var t := Retained(inst.root, kept, g);
    assert Pow(g, 1) == g;
    assert SumsFrom(kept, g, ChildSum(g, 0.0, 0, kept), 1);
    assert inst.root.info.opt[1..] == kept.info.opt;
    forall i | 0 <= i < |kept.children|
      ensures kept.children[i].info.reward == t.children[i].info.reward
      ensures Rescaled(kept.children[i], t.children[i], c, g)
    {
      var kc := kept.children[i];
      assert SumsFrom(kc, g, ChildSum(g, c, 1, kc), 2);
      assert ChildSum(g, c, 1, kc) == Scale(c, g, ChildSum(g, 0.0, 0, kc));
      RebaseRescales(kc, g, 0.0, 0, c);
    }
  }

  /**
   Every retained node keeps its place: a path of the kept internal child leads to a node of
   the new root whose sum, measured from the old root, is the kept child's sum plus gamma times
   the new one.
   */
  lemma KeepRescalesSums(inst: Instance, g: real, k: nat, q: Path)
    requires Inv(inst, k) && SumsFrom(inst.root, g, 0.0, 0) && !inst.root.IsLeaf()
    requires var kept := inst.root.children[inst.root.info.tid]; !kept.IsLeaf() && ValidPath(kept, q)
    ensures var kept := inst.root.children[inst.root.info.tid];
      var t := Keep(inst, g, k).root;
      ValidPath(t, q) && Get(kept, q).info.sum == kept.info.sum + g * Get(t, q).info.sum
  {
    var kept := inst.root.children[inst.root.info.tid];
    KeptRescaled(inst, g, k);
    RescaledPath(kept, Retained(inst.root, kept, g), kept.info.sum, g, q);
  }

  /*---------------------------------------------------------------------------------------------
    The depth left by a re-rooting
  ---------------------------------------------------------------------------------------------*/

  /**
   Keeping an internal child leaves crtDepth one more than the level of nextOpennedNode, even
   when the sums were right: the next opening then discounts a positive first reward once too
   often, and the sums stop being the discounted returns from the root.
   */
  lemma KeepThenStepMisdiscounts(inst: Instance, g: real, k: nat, sim: Simulator)
    requires Inv(inst, k) && SumsFrom(inst.root, g, 0.0, 0) && ValidGamma(g) && !inst.root.IsLeaf()
    requires !inst.root.children[inst.root.info.tid].IsLeaf()
    requires sim(Keep(inst, g, k).next + [0]).reward > 0.0
    ensures var r := Keep(inst, g, k);
      && r.depth == |r.next| + 1
      && SumsFrom(r.root, g, 0.0, 0)
      && !SumsFrom(Step(r, g, k, sim).root, g, 0.0, 0)
  {
    var kept := inst.root.children[inst.root.info.tid];
    assert Linked(kept);
    RetainedSums(inst, g, k);
    LaggedStepMisdiscounts(Keep(inst, g, k), g, k, sim);
  }

  /**
   The re-rooting with crtDepth put back on the level of nextOpennedNode, as every later opening
   needs to discount its rewards to their own depth; the tree, the counter and nextOpennedNode are
   those of uniform_keepSubtree.
   */
  function KeepLevelled(inst: Instance, g: real, k: nat): (r: Instance)
    requires k >= 1 && AtCut(inst.root, inst.next, k) && NodeLinked(inst.root)
    ensures var w := Keep(inst, g, k);
      r.root == w.root && r.next == w.next && r.evaluations == w.evaluations
    ensures r.depth == |r.next|
  {
    var w := Keep(inst, g, k);
    w.(depth := |w.next|)
  }

  /**
   The corrected re-rooting keeps the invariant and the ranking, and turns right sums into right
   sums: they are the discounted returns from the new root and crtDepth is the frontier level.
   */
  lemma KeepLevelledConsistent(inst: Instance, g: real, k: nat)
    requires Inv(inst, k) && Ranked(inst.root) && SumsFrom(inst.root, g, 0.0, 0) && ValidGamma(g)
    ensures var r := KeepLevelled(inst, g, k);
      Inv(r, k) && Ranked(r.root) && Consistent(r, g)
  {
    KeepKeepsInv(inst, g, k);
    KeepKeepsRanked(inst, g, k);
  }

  /**
   After the corrected re-rooting, planning keeps the sums the discounted returns from the new
   root, so the recommended action again leads to a leaf of largest discounted return.
   */
  lemma KeepLevelledThenPlan(inst: Instance, g: real, k: nat, budget: nat, sim: Simulator)
    requires Inv(inst, k) && Ranked(inst.root) && SumsFrom(inst.root, g, 0.0, 0) && ValidGamma(g)
    ensures var r := Plan(KeepLevelled(inst, g, k), budget, g, k, sim);
      && Consistent(r, g)
      && (!r.root.IsLeaf() ==>
            var leaf := r.root.info.opt;
            && IsLeafPath(r.root, leaf) && leaf[0] == Recommended(r)
            && forall q :: IsLeafPath(r.root, q) ==> Get(r.root, q).info.sum <= Get(r.root, leaf).info.sum)
  {
    var w := KeepLevelled(inst, g, k);
    KeepLevelledConsistent(inst, g, k);
    PlanKeepsInv(w, budget, g, k, sim);
    var r := Plan(w, budget, g, k, sim);
    if !r.root.IsLeaf() {
      PointerIsLeaf(r.root);
      forall q | IsLeafPath(r.root, q)
        ensures Get(r.root, q).info.sum <= Get(r.root, r.root.info.opt).info.sum
      {
        RecommendedIsBest(r, k, q);
      }
    }
  }

  /**
   Opening a leaf while crtDepth is one more than its level discounts the new rewards once too
   often: as soon as the first new reward is positive, the sums are no longer discounted returns.
   */
  lemma LaggedStepMisdiscounts(inst: Instance, g: real, k: nat, sim: Simulator)
    requires k >= 1 && AtCut(inst.root, inst.next, k) && SumsFrom(inst.root, g, 0.0, 0)
    requires inst.depth == |inst.next| + 1 && ValidGamma(g) && sim(inst.next + [0]).reward > 0.0
    ensures !SumsFrom(Step(inst, g, k, sim).root, g, 0.0, 0)
  {
    var p := inst.next;
    var outs := Outcomes(sim, p, k);
    CutIsLeaf(inst.root, p, k);
    assert outs[0] == sim(p + [0]);
    LaggedExpansionMisdiscounts(inst.root, p, outs, g, inst.depth);
  }

  lemma LaggedExpansionMisdiscounts(t: Node, p: Path, outs: seq<Transition>, g: real, d: nat)
    requires IsLeafPath(t, p) && |outs| > 0 && d == |p| + 1 && ValidGamma(g) && outs[0].reward > 0.0
    ensures !SumsFrom(ExpandAt(t, p, outs, g, d), g, 0.0, 0)
  {
    ExpandOpensLeaf(t, p, outs, g, d);
    OpenedTooDeep(ExpandAt(t, p, outs, g, d), p, Get(t, p).info.sum, outs, g, d);
  }

  /** Leaves opened at p with the discount of depth |p| + 1 break the sums of the whole tree. */
  lemma OpenedTooDeep(e: Node, p: Path, s: real, outs: seq<Transition>, g: real, d: nat)
    requires ValidPath(e, p) && Get(e, p).info.sum == s && Get(e, p).children == NewLeaves(s, outs, g, d)
    requires |outs| > 0 && d == |p| + 1 && ValidGamma(g) && outs[0].reward > 0.0
    ensures !SumsFrom(e, g, 0.0, 0)
  {
    var n, r := Get(e, p), outs[0].reward;
    FirstNewLeaf(n, s, outs, g, d);
    DiscountsDiffer(g, |p|, r);
    if SumsFrom(e, g, 0.0, 0) {
      SumsAlong(e, g, 0.0, 0, p);
      FirstChildSum(n, g, |p|);
      assert false;
    }
  }

  lemma FirstNewLeaf(n: Node, s: real, outs: seq<Transition>, g: real, d: nat)
    requires n.children == NewLeaves(s, outs, g, d) && |outs| > 0
    ensures n.children[0].info.sum == s + Pow(g, d) * outs[0].reward
    ensures n.children[0].info.reward == outs[0].reward
  {
  }

  lemma FirstChildSum(n: Node, g: real, d: nat)
    requires SumsFrom(n, g, n.info.sum, d) && |n.children| > 0
    ensures n.children[0].info.sum == n.info.sum + Pow(g, d) * n.children[0].info.reward
  {
  }

  /** A positive reward discounted one level further is strictly smaller. */
  lemma DiscountsDiffer(g: real, n: nat, r: real)
    requires ValidGamma(g) && r > 0.0
    ensures Pow(g, n + 1) * r < Pow(g, n) * r
  {
    var a := Pow(g, n);
    PowPositive(g, n);
    assert Pow(g, n + 1) == a * g;
    var x := a * r;
    assert x > 0.0 by {
      PositiveProduct(a, r);
    }
    assert (a * g) * r == g * x;
    assert x - g * x == (1.0 - g) * x;
    PositiveProduct(1.0 - g, x);
  }

  /** Along a path, the sums follow the recurrence. */
  lemma {:induction false} SumsAlong(t: Node, g: real, s: real, d: nat, p: Path)
    requires SumsFrom(t, g, s, d) && ValidPath(t, p)
    ensures SumsFrom(Get(t, p), g, Get(t, p).info.sum, d + |p|)
    decreases |p|
  {
    if |p| > 0 {
      SumsAlong(t.children[p[0]], g, ChildSum(g, s, d, t.children[p[0]]), d + 1, p[1..]);
    }
  }

  /*---------------------------------------------------------------------------------------------
    Counting the nodes of the breadth-first tree
  ---------------------------------------------------------------------------------------------*/

  /** k^n. */
  function Power(k: nat, n: nat): nat {
    if n == 0 then 1 else k * Power(k, n - 1)
  }

  /** Number of nodes of the complete tree of height h: 1 + k + ... + k^h. */
  function Nodes(h: nat, k: nat): nat {
    if h == 0 then 1 else 1 + k * Nodes(h - 1, k)
  }

  /** Number of nodes on level |p| left of p: p read as a number in base k. */
  function Rank(p: Path, k: nat): nat
    decreases |p|
  {
    if |p| == 0 then 0 else p[0] * Power(k, |p| - 1) + Rank(p[1..], k)
  }

  /** Each level adds k^h nodes: Nodes(h, k) is the sum of k^i for i from 0 to h. */
  lemma {:induction false} NodesAddLevel(h: nat, k: nat)
    ensures Nodes(h + 1, k) == Nodes(h, k) + Power(k, h + 1)
    decreases h
  {
    if h > 0 {
      NodesAddLevel(h - 1, k);
      calc {
        Nodes(h + 1, k);
        1 + k * Nodes(h, k);
        1 + k * (Nodes(h - 1, k) + Power(k, h));
        { MulDistributes(k, Nodes(h - 1, k), Power(k, h)); }
        Nodes(h, k) + Power(k, h + 1);
      }
    }
  }

  lemma MulDistributes(k: nat, a: nat, b: nat)
    ensures k * (a + b) == k * a + k * b
  {
  }

  lemma {:induction false} CompleteSize(t: Node, h: nat, k: nat)
    requires Complete(t, h, k)
    ensures Size(t) == Nodes(h, k)
    decreases h
  {
    if h > 0 {
      forall i | 0 <= i < |t.children|
        ensures Size(t.children[i]) == Nodes(h - 1, k)
      {
        CompleteSize(t.children[i], h - 1, k);
      }
      SizeOfUniform(t.children, Nodes(h - 1, k));
    }
  }

  /**
   The breadth-first tree at p holds the complete tree of height |p| and the k children of each
   of the Rank(p, k) nodes opened left of p on level |p|.
   */
  lemma {:induction false} CutSize(t: Node, p: Path, k: nat)
    requires AtCut(t, p, k)
    ensures Size(t) == Nodes(|p|, k) + k * Rank(p, k)
    decreases |p|
  {
    if |p| > 0 {
      var a, n, cs := p[0], |p|, t.children;
      var below, above := Nodes(n, k), Nodes(n - 1, k);
      CutSize(cs[a], p[1..], k);
      forall i | 0 <= i < a
        ensures Size(cs[i]) == below
      {
        CompleteSize(cs[i], n, k);
      }
      forall i | a < i < k
        ensures Size(cs[i]) == above
      {
        CompleteSize(cs[i], n - 1, k);
      }
      SizeAround(cs, a, below, above);
      assert Size(t) == 1 + a * below + Size(cs[a]) + (k - a - 1) * above;
      NodesAddLevel(n - 1, k);
      assert Power(k, n) == k * Power(k, n - 1);
      CutSizeArithmetic(a, k, below, above, Power(k, n - 1), Rank(p[1..], k));
    }
  }

  /** 1 + a N + (M + k r) + (k - a - 1) M == N + k (a w + r), when N == 1 + k M == M + k w. */
  lemma CutSizeArithmetic(a: nat, k: nat, big: nat, small: nat, w: nat, r: nat)
    requires a < k && big == 1 + k * small && big == small + k * w
    ensures 1 + a * big + (small + k * r) + (k - a - 1) * small == big + k * (a * w + r)
  {
    assert a * big == a * small + a * (k * w);
    assert (k - a - 1) * small + a * small + small == k * small;
    assert a * (k * w) == k * (a * w);
    assert k * (a * w + r) == k * (a * w) + k * r;
  }

  /** Every index of p is below k. */
  predicate Digits(p: Path, k: nat) {
    forall i :: 0 <= i < |p| ==> p[i] < k
  }

  lemma {:induction false} CutDigits(t: Node, p: Path, k: nat)
    requires AtCut(t, p, k)
    ensures Digits(p, k)
    decreases |p|
  {
    if |p| > 0 {
      CutDigits(t.children[p[0]], p[1..], k);
    }
  }

  /** A rank is below the number of nodes of its level, and is 0 exactly at the leftmost node. */
  lemma {:induction false} RankBounds(p: Path, k: nat)
    requires Digits(p, k)
    ensures Rank(p, k) < Power(k, |p|)
    ensures Rank(p, k) == 0 <==> IsZeros(p)
    decreases |p|
  {
    if |p| > 0 {
      var a, n, r := p[0], |p|, Rank(p[1..], k);
      var w := Power(k, n - 1);
      RankBounds(p[1..], k);
      PowerPositive(k, n - 1);
      assert Power(k, n) == k * w;
      DigitStep(a, k, w, r);
      assert IsZeros(p) <==> a == 0 && IsZeros(p[1..]);
    }
  }

  /** One more digit in front: a w + r stays below k w, and is 0 only when a and r are. */
  lemma DigitStep(a: nat, k: nat, w: nat, r: nat)
    requires a < k && r < w
    ensures a * w + r < k * w
    ensures a * w + r == 0 <==> a == 0 && r == 0
  {
    assert a * w + r < a * w + w == (a + 1) * w;
    assert (a + 1) * w <= k * w;
    if a > 0 {
      assert a * w >= w;
    }
  }

  /** Multiplying by k >= 1 keeps order and zero. */
  lemma ScaleByK(k: nat, x: nat, y: nat)
    requires k >= 1
    ensures k * x >= 0
    ensures x < y ==> k * x < k * y
    ensures k * x == 0 ==> x == 0
  {
    if x < y {
      assert k * y == k * x + k * (y - x);
    }
  }

  lemma {:induction false} PowerPositive(k: nat, n: nat)
    requires k >= 1
    ensures Power(k, n) >= 1
    decreases n
  {
    if n > 0 {
      PowerPositive(k, n - 1);
    }
  }

  /** Levels only add nodes. */
  lemma {:induction false} NodesMonotone(h: nat, j: nat, k: nat)
    requires h <= j
    ensures Nodes(h, k) <= Nodes(j, k)
    decreases j - h
  {
    if h < j {
      NodesMonotone(h, j - 1, k);
      NodesAddLevel(j - 1, k);
    }
  }

  /**
   Once the counter reaches k + k^2 + ... + k^d with crtDepth on the level of nextOpennedNode,
   the tree is the complete tree of height d and the next node to open is the leftmost one of
   level d, which is crtDepth.
   */
  lemma FullLevels(inst: Instance, k: nat, d: nat)
    requires Inv(inst, k) && inst.depth == |inst.next| && inst.evaluations + 1 == Nodes(d, k)
    ensures Complete(inst.root, d, k) && inst.next == Zeros(d) && inst.depth == d
  {
    var p := inst.next;
    var n, r := |p|, Rank(inst.next, k);
    CutSize(inst.root, p, k);
    CutDigits(inst.root, p, k);
    RankBounds(p, k);
    ScaleByK(k, r, Power(k, n));
    assert Nodes(d, k) == Nodes(n, k) + k * r;
    if n > d {
      NodesMonotone(d, n - 1, k);
      NodesAddLevel(n - 1, k);
      assert false;
    } else if n < d {
      NodesMonotone(n + 1, d, k);
      NodesAddLevel(n, k);
      assert false;
    }
    assert IsZeros(p);
    assert p == Zeros(d);
    CutAtZerosIsComplete(inst.root, d, k);
  }

  /**
   Planning from a fresh root: whenever the counter stops at k + k^2 + ... + k^d, the tree is the
   complete tree of height d, with nothing deeper, and crtDepth is d.
   */
  lemma PlanFillsLevels(budget: nat, g: real, k: nat, sim: Simulator, d: nat)
    requires k >= 1 && Plan(Reset(), budget, g, k, sim).evaluations + 1 == Nodes(d, k)
    ensures var r := Plan(Reset(), budget, g, k, sim);
      Complete(r.root, d, k) && r.next == Zeros(d) && r.depth == d
  {
    ResetInv(k, g);
    PlanKeepsInv(Reset(), budget, g, k, sim);
    FullLevels(Plan(Reset(), budget, g, k, sim), k, d);
  }

  /*---------------------------------------------------------------------------------------------
    uniform_getMaxDepth (lines 292-304)
  ---------------------------------------------------------------------------------------------*/

  /** The depth of the leaf reached by following first children from the root. */
  function GetMaxDepth(inst: Instance): (d: nat)
    ensures IsLeafPath(inst.root, Zeros(d))
  {
    LeftmostIsZeros(inst.root);
    |Leftmost(inst.root)|
  }

  lemma {:induction false} LeftmostIsZeros(t: Node)
    ensures Leftmost(t) == Zeros(|Leftmost(t)|) && IsLeafPath(t, Leftmost(t))
    decreases t
  {
    if !t.IsLeaf() {
      LeftmostIsZeros(t.children[0]);
      assert Leftmost(t)[1..] == Leftmost(t.children[0]);
    }
  }

  /** In the breadth-first tree the leftmost leaf is a deepest one: getMaxDepth is the height. */
  lemma GetMaxDepthIsHeight(inst: Instance, k: nat)
    requires Inv(inst, k)
    ensures GetMaxDepth(inst) == Height(inst.root)
  {
    var t := inst.root;
    LeftmostIsZeros(t);
    LeafPathsWithinHeight(t, Leftmost(t));
    var q := DeepestLeafPath(t);
    CutLeaves(t, inst.next, k, q);
    CutLeftmost(t, inst.next, k);
  }

  /** The leaves of the breadth-first tree at p lie on level |p|, or |p| + 1 left of p. */
  lemma {:induction false} CutLeaves(t: Node, p: Path, k: nat, q: Path)
    requires AtCut(t, p, k) && k >= 1 && IsLeafPath(t, q)
    ensures |q| <= |p| + (if IsZeros(p) then 0 else 1)
    decreases |p|
  {
    if |p| > 0 {
      var a, c := p[0], t.children[q[0]];
      if q[0] < a {
        CompleteLeaves(c, |p|, k, q[1..]);
      } else if q[0] == a {
        CutLeaves(c, p[1..], k, q[1..]);
        assert IsZeros(p[1..]) ==> IsZeros(p) || a > 0;
      } else {
        CompleteLeaves(c, |p| - 1, k, q[1..]);
      }
    }
  }

  lemma {:induction false} CompleteLeaves(t: Node, h: nat, k: nat, q: Path)
    requires Complete(t, h, k) && k >= 1 && IsLeafPath(t, q)
    ensures |q| == h
    decreases h
  {
    if h > 0 {
      CompleteLeaves(t.children[q[0]], h - 1, k, q[1..]);
    }
  }

  /** The leftmost leaf of the breadth-first tree at p is one level below p unless p is leftmost. */
  lemma {:induction false} CutLeftmost(t: Node, p: Path, k: nat)
    requires AtCut(t, p, k) && k >= 1
    ensures |Leftmost(t)| == |p| + (if IsZeros(p) then 0 else 1)
    decreases |p|
  {
    if |p| > 0 {
      if p[0] == 0 {
        CutLeftmost(t.children[0], p[1..], k);
        assert IsZeros(p) <==> IsZeros(p[1..]) by {
          assert forall i :: 1 <= i < |p| ==> p[i] == p[1..][i - 1];
        }
      } else {
        CompleteLeftmost(t.children[0], |p|, k);
      }
    }
  }
}
