/**
 The optimistic planner of algorithms/optimistic/optimistic.c (OPD: optimistic planning for
 deterministic systems).

 Every leaf carries a record (discounted sum of the rewards leading to it, its depth, and the
 optimistic bound sum + gamma^depth / (1 - gamma)). Every open internal node caches a pointer
 to the open leaf of largest bound in its subtree, and the index of the child on the way to it;
 the root's pointer is the next leaf to open. One expansion opens that leaf (K calls to the
 generative model), then refreshes the caches of every ancestor, bottom-up.
 */
module Optimistic {
  import opened Trees
  import opened Discount

  /** OPTIMISTIC_MAX_DEPTH of the default build (builds with LIMITED_DEPTH use 512). */
  const DepthCeiling: nat := 32768

  /**
   The `values` field of a node. A leaf owns a record; an open internal node points to a leaf
   of its subtree (a path relative to the node); a node whose expansion closed it at once still
   names the record it handed to its first child, which is never read again.
   */
  datatype Values =
    | Record(bound: real, sum: real, depth: nat)
    | MaxLeaf(leaf: Path)
    | FirstChildRecord

  /** Per-node payload: reward of the transition into the node, closed flag, trajectoryId. */
  datatype Info = Info(reward: real, closed: bool, tid: nat, values: Values)

  type Node = Tree<Info>

  /** The planner state; `next` is nextOpennedNode, None when it designates no node. */
  datatype Instance = Instance(root: Node, evaluations: nat, best: Best, next: Option<Path>)

  /*---------------------------------------------------------------------------------------------
    Reading the cached pointers
  ---------------------------------------------------------------------------------------------*/

  /** The bound of the leaf record reached by q (0 when q reaches no record). */
  function LeafBound(t: Node, q: Path): real {
    if ValidPath(t, q) && Get(t, q).info.values.Record? then Get(t, q).info.values.bound else 0.0
  }

  /** The sum of a leaf's record (0 for a node without a record). */
  function SumOf(t: Node): real {
    if t.info.values.Record? then t.info.values.sum else 0.0
  }

  /** The leaf a child stands for in its parent's comparisons: itself, or the leaf it points to. */
  function Pointer(c: Node): Path {
    if c.IsLeaf() then []
    else match c.info.values
      case MaxLeaf(q) => q
      case _ => []
  }

  /** The bound a child competes with. */
  function CandidateBound(c: Node): real {
    LeafBound(c, Pointer(c))
  }

  /*---------------------------------------------------------------------------------------------
    The cache invariant
  ---------------------------------------------------------------------------------------------*/

  predicate AllClosed(cs: seq<Node>) {
    forall i :: 0 <= i < |cs| ==> cs[i].info.closed
  }

  /** j is the first open child of largest candidate bound. */
  predicate IsFirstArgmax(cs: seq<Node>, j: nat) {
    && j < |cs|
    && !cs[j].info.closed
    && (forall i :: 0 <= i < |cs| && !cs[i].info.closed ==> CandidateBound(cs[i]) <= CandidateBound(cs[j]))
    && (forall i :: 0 <= i < j && !cs[i].info.closed ==> CandidateBound(cs[i]) < CandidateBound(cs[j]))
  }

  /**
   The caches of an internal node agree with its children: it is closed exactly when all its
   children are, and an open one points through its first best child to that child's leaf.
   */
  predicate NodeCached(n: Node) {
    n.IsLeaf() ||
    (&& (n.info.closed <==> AllClosed(n.children))
     && (!n.info.closed ==>
           && IsFirstArgmax(n.children, n.info.tid)
           && n.info.values == MaxLeaf([n.info.tid] + Pointer(n.children[n.info.tid]))))
  }

  /** NodeCached at every node of t. */
  predicate Cached(t: Node)
    decreases t
  {
    NodeCached(t) && forall i :: 0 <= i < |t.children| ==> Cached(t.children[i])
  }

  /** Cached everywhere below the root (after a re-rooting the root's own cache is stale). */
  predicate CachedBelow(t: Node) {
    forall i :: 0 <= i < |t.children| ==> Cached(t.children[i])
  }

  /** Shape and payload facts every reachable tree has. */
  predicate WellFormed(t: Node, k: nat)
    decreases t
  {
    && (|t.children| == 0 || |t.children| == k)
    && t.info.tid < k
    && 0.0 <= t.info.reward <= 1.0
    && (t.IsLeaf() ==> t.info.values.Record? && t.info.values.sum >= 0.0)
    && forall i :: 0 <= i < |t.children| ==> WellFormed(t.children[i], k)
  }

  lemma {:induction false} WellFormedLeaf(t: Node, k: nat, q: Path)
    requires WellFormed(t, k) && IsLeafPath(t, q)
    ensures Get(t, q).info.values.Record? && Get(t, q).info.values.sum >= 0.0
    decreases |q|
  {
    if |q| > 0 {
      WellFormedLeaf(t.children[q[0]], k, q[1..]);
    }
  }

  /*---------------------------------------------------------------------------------------------
    Refreshing a node's cache (lines 179-188 and 208-233)
  ---------------------------------------------------------------------------------------------*/

  /** The running state of the child scan: closed flag, trajectoryId, values, bound pointed at. */
  datatype Scan = Scan(closed: bool, tid: nat, values: Values, best: real)

  /** The scan: the first open child is taken, a later one only if its bound is strictly larger. */
  function ScanChildren(cs: seq<Node>, from: nat, acc: Scan): Scan
    decreases |cs| - from
  {
    if from >= |cs| then acc
    else
      var c := cs[from];
      if c.info.closed then ScanChildren(cs, from + 1, acc)
      else if acc.closed || acc.best < CandidateBound(c) then
        ScanChildren(cs, from + 1, Scan(false, from, MaxLeaf([from] + Pointer(c)), CandidateBound(c)))
      else ScanChildren(cs, from + 1, acc)
  }

  /** The node is supposed closed, then its children are scanned; tid and values stay when all are closed. */
  function Refresh(n: Node): (r: Node)
    ensures r.children == n.children && r.info.reward == n.info.reward
    ensures !n.IsLeaf() ==> NodeCached(r)
    ensures r.info.closed ==> r.info.tid == n.info.tid && r.info.values == n.info.values
  {
    var s := ScanChildren(n.children, 0, Scan(true, n.info.tid, n.info.values, 0.0));
    ScanResult(n.children, n.info.tid, n.info.values);
    Node(n.info.(closed := s.closed, tid := s.tid, values := s.values), n.children)
  }

  /** What the scan has established once it has looked at cs[..from]. */
  predicate ScanInv(cs: seq<Node>, from: nat, acc: Scan, tid0: nat, v0: Values) {
    && from <= |cs|
    && (acc.closed ==> AllClosed(cs[..from]) && acc.tid == tid0 && acc.values == v0)
    && (!acc.closed ==>
          && IsFirstArgmax(cs[..from], acc.tid)
          && acc.best == CandidateBound(cs[acc.tid])
          && acc.values == MaxLeaf([acc.tid] + Pointer(cs[acc.tid])))
  }

  lemma {:induction false} ScanSteps(cs: seq<Node>, from: nat, acc: Scan, tid0: nat, v0: Values)
    requires ScanInv(cs, from, acc, tid0, v0)
    ensures ScanInv(cs, |cs|, ScanChildren(cs, from, acc), tid0, v0)
    decreases |cs| - from
  {
    if from < |cs| {
      var c := cs[from];
      var pre, post := cs[..from], cs[..from + 1];
      assert forall i :: 0 <= i < from ==> post[i] == pre[i];
      assert post[from] == c;
      if c.info.closed {
        ScanSteps(cs, from + 1, acc, tid0, v0);
      } else if acc.closed || acc.best < CandidateBound(c) {
        var next := Scan(false, from, MaxLeaf([from] + Pointer(c)), CandidateBound(c));
        assert ScanInv(cs, from + 1, next, tid0, v0);
        ScanSteps(cs, from + 1, next, tid0, v0);
      } else {
        assert ScanInv(cs, from + 1, acc, tid0, v0);
        ScanSteps(cs, from + 1, acc, tid0, v0);
      }
    } else {
      assert cs[..from] == cs;
    }
  }

  /** The scan of all children computes exactly the cache NodeCached asks for. */
  lemma ScanResult(cs: seq<Node>, tid0: nat, v0: Values)
    ensures var s := ScanChildren(cs, 0, Scan(true, tid0, v0, 0.0));
      && (s.closed <==> AllClosed(cs))
      && (s.closed ==> s.tid == tid0 && s.values == v0)
      && (!s.closed ==> IsFirstArgmax(cs, s.tid) && s.values == MaxLeaf([s.tid] + Pointer(cs[s.tid])))
  {
    assert ScanInv(cs, 0, Scan(true, tid0, v0, 0.0), tid0, v0);
    ScanSteps(cs, 0, Scan(true, tid0, v0, 0.0), tid0, v0);
    assert cs[..|cs|] == cs;
  }

  /*---------------------------------------------------------------------------------------------
    What the caches promise
  ---------------------------------------------------------------------------------------------*/

  /** A closed subtree has no open leaf. */
  lemma {:induction false} ClosedHasNoOpenLeaf(t: Node, q: Path)
    requires Cached(t) && t.info.closed && IsLeafPath(t, q)
    ensures Get(t, q).info.closed
    decreases |q|
  {
    if |q| > 0 {
      ClosedHasNoOpenLeaf(t.children[q[0]], q[1..]);
    }
  }

  /** An open internal node points to an open leaf of its subtree, through its first best child. */
  lemma {:induction false} PointerIsOpenLeaf(t: Node)
    requires Cached(t) && !t.IsLeaf() && !t.info.closed
    ensures t.info.values.MaxLeaf? && t.info.values.leaf == Pointer(t)
    ensures IsLeafPath(t, Pointer(t)) && !Get(t, Pointer(t)).info.closed
    ensures Get(t, Pointer(t)).info.values.Record? ==> LeafBound(t, Pointer(t)) == CandidateBound(t)
    decreases t
  {
    var j := t.info.tid;
    var c := t.children[j];
    var q := [j] + Pointer(c);
    assert q[1..] == Pointer(c);
    if !c.IsLeaf() {
      PointerIsOpenLeaf(c);
    }
  }

  /**
   The root's pointer is the open leaf of largest bound in the whole tree: every open leaf's
   bound is at most the bound of the leaf the node points to.
   */
  lemma {:induction false} PointerIsBestOpenLeaf(t: Node, q: Path)
    requires Cached(t) && !t.IsLeaf() && !t.info.closed
    requires IsLeafPath(t, q) && !Get(t, q).info.closed
    ensures LeafBound(t, q) <= LeafBound(t, Pointer(t))
    decreases t
  {
    PointerIsOpenLeaf(t);
    var j := q[0];
    var c := t.children[j];
    if c.info.closed {
      ClosedHasNoOpenLeaf(c, q[1..]);
      assert false;
    }
    var best := t.children[t.info.tid];
    var pt := [t.info.tid] + Pointer(best);
    assert pt[1..] == Pointer(best);
    assert LeafBound(t, pt) == CandidateBound(best);
    assert LeafBound(t, q) == LeafBound(c, q[1..]);
    if !c.IsLeaf() {
      PointerIsBestOpenLeaf(c, q[1..]);
    }
  }

  /*---------------------------------------------------------------------------------------------
    Expansion (buildingTrajectory, lines 145-241)
  ---------------------------------------------------------------------------------------------*/

  /** A new leaf below a leaf of record `parent` (lines 162-177, 196-199). */
  function NewLeaf(parent: Values, o: Transition, g: real): Node
    requires parent.Record? && g < 1.0
  {
    var sum := parent.sum + Pow(g, parent.depth) * o.reward;
    Node(Info(o.reward, o.terminal || parent.depth == DepthCeiling - 1, 0,
              Record(sum + Tail(g, parent.depth + 1), sum, parent.depth + 1)), [])
  }

  function NewLeaves(parent: Values, outs: seq<Transition>, g: real): seq<Node>
    requires parent.Record? && g < 1.0
  {
    seq(|outs|, i requires 0 <= i < |outs| => NewLeaf(parent, outs[i], g))
  }

  /**
   Open the leaf at p with the outcomes of its K actions, then refresh the caches of the opened
   node and of each of its ancestors, bottom-up.
   */
  function ExpandAt(t: Node, p: Path, outs: seq<Transition>, g: real): (r: Node)
    requires IsLeafPath(t, p) && Get(t, p).info.values.Record? && g < 1.0
    ensures r.info.reward == t.info.reward
    ensures |r.children| == if |p| == 0 then |outs| else |t.children|
    decreases |p|
  {
    if |p| == 0 then
      Refresh(Node(t.info.(values := FirstChildRecord), NewLeaves(t.info.values, outs, g)))
    else
      var i := p[0];
      Refresh(Node(t.info, t.children[i := ExpandAt(t.children[i], p[1..], outs, g)]))
  }

  /** The opened leaf gets exactly the new leaves as children, each rooted at the leaf's record. */
  lemma {:induction false} ExpandOpensLeaf(t: Node, p: Path, outs: seq<Transition>, g: real)
    requires IsLeafPath(t, p) && Get(t, p).info.values.Record? && g < 1.0
    ensures ValidPath(ExpandAt(t, p, outs, g), p)
    ensures Get(ExpandAt(t, p, outs, g), p).children == NewLeaves(Get(t, p).info.values, outs, g)
    decreases |p|
  {
    if |p| > 0 {
      ExpandOpensLeaf(t.children[p[0]], p[1..], outs, g);
    }
  }

  /** Every other leaf is left as it was. */
  lemma {:induction false} ExpandKeepsOtherLeaves(t: Node, p: Path, outs: seq<Transition>, g: real, q: Path)
    requires IsLeafPath(t, p) && Get(t, p).info.values.Record? && g < 1.0
    requires IsLeafPath(t, q) && q != p
    ensures IsLeafPath(ExpandAt(t, p, outs, g), q)
    ensures Get(ExpandAt(t, p, outs, g), q) == Get(t, q)
    decreases |p|
  {
    if |p| == 0 {
      assert false;
    } else if |q| == 0 {
      assert false;
    } else if q[0] != p[0] {
    } else {
      assert q[1..] != p[1..] by {
        assert q == [q[0]] + q[1..] && p == [p[0]] + p[1..];
      }
      ExpandKeepsOtherLeaves(t.children[p[0]], p[1..], outs, g, q[1..]);
    }
  }

  lemma {:induction false} ExpandKeepsCached(t: Node, p: Path, outs: seq<Transition>, g: real)
    requires IsLeafPath(t, p) && Get(t, p).info.values.Record? && g < 1.0
    requires CachedBelow(t)
    ensures Cached(ExpandAt(t, p, outs, g))
    decreases |p|
  {
    var r := ExpandAt(t, p, outs, g);
    if |p| > 0 {
      ExpandKeepsCached(t.children[p[0]], p[1..], outs, g);
      assert forall i :: 0 <= i < |r.children| ==> Cached(r.children[i]);
    } else {
      var cs := NewLeaves(t.info.values, outs, g);
      assert forall i :: 0 <= i < |cs| ==> Cached(cs[i]);
    }
  }

  lemma {:induction false} ExpandKeepsWellFormed(t: Node, p: Path, outs: seq<Transition>, g: real, k: nat)
    requires IsLeafPath(t, p) && WellFormed(t, k) && g < 1.0 && 0.0 <= g
    requires Get(t, p).info.values.Record?
    requires |outs| == k && forall i :: 0 <= i < |outs| ==> ValidTransition(outs[i])
    ensures WellFormed(ExpandAt(t, p, outs, g), k)
    decreases |p|
  {
    var r := ExpandAt(t, p, outs, g);
    if |p| > 0 {
      ExpandKeepsWellFormed(t.children[p[0]], p[1..], outs, g, k);
      assert forall i :: 0 <= i < |r.children| ==> WellFormed(r.children[i], k);
    } else {
      var v := t.info.values;
      var cs := NewLeaves(v, outs, g);
      forall i | 0 <= i < |cs|
        ensures WellFormed(cs[i], k)
      {
        PowAtMostOne(g, v.depth);
        ProductOfUnits(outs[i].reward, Pow(g, v.depth));
      }
      ScanResult(cs, t.info.tid, FirstChildRecord);
    }
  }

  /*---------------------------------------------------------------------------------------------
    Records agree with the rewards
  ---------------------------------------------------------------------------------------------*/

  /** The record a leaf reached with discounted sum s at depth d must hold. */
  function LeafRecord(g: real, s: real, d: nat): Values
    requires g < 1.0
  {
    Record(s + Tail(g, d), s, d)
  }

  /**
   t is reached with discounted sum s at depth d: each child adds gamma^d times its reward, and
   every leaf's record is the one its sum and depth call for.
   */
  predicate Consistent(t: Node, g: real, s: real, d: nat)
    requires g < 1.0
    decreases t, 1
  {
    && (t.IsLeaf() ==> t.info.values == LeafRecord(g, s, d))
    && ChildrenConsistent(t.children, g, s, d)
  }

  predicate ChildrenConsistent(cs: seq<Node>, g: real, s: real, d: nat)
    requires g < 1.0
    decreases cs, 0
  {
    forall i :: 0 <= i < |cs| ==> Consistent(cs[i], g, ChildSum(g, s, d, cs[i]), d + 1)
  }

  /** The discounted sum of a child of a node reached with sum s at depth d. */
  function ChildSum(g: real, s: real, d: nat, c: Node): real {
    s + Pow(g, d) * c.info.reward
  }

  /**
   The root's record is not held to its bound (the initial root record has bound 0); it fixes the
   sum and depth everything below is measured from.
   */
  predicate RootConsistent(t: Node, g: real, s: real, d: nat)
    requires g < 1.0
  {
    && (t.IsLeaf() ==> t.info.values.Record? && t.info.values.sum == s && t.info.values.depth == d)
    && ChildrenConsistent(t.children, g, s, d)
  }

  function RewardOf(i: Info): real { i.reward }

  /** In a consistent tree each leaf's sum is the discounted return of the rewards along its path. */
  lemma {:induction false} LeafSumIsReturn(t: Node, g: real, s: real, d: nat, q: Path)
    requires g < 1.0 && Consistent(t, g, s, d) && IsLeafPath(t, q)
    ensures Get(t, q).info.values == LeafRecord(g, s + Discounted(Rewards(t, q, RewardOf), g, d), d + |q|)
    decreases |q|
  {
    if |q| > 0 {
      var c := t.children[q[0]];
      assert ChildrenConsistent(t.children, g, s, d);
      LeafSumIsReturn(c, g, ChildSum(g, s, d, c), d + 1, q[1..]);
    }
  }

  /**
   The bound of a consistent leaf is optimistic: whatever rewards in [0, 1] the trajectory
   through it collects afterwards, its discounted return stays below the bound.
   */
  lemma BoundIsOptimistic(t: Node, g: real, s: real, d: nat, q: Path, future: seq<real>)
    requires ValidGamma(g) && Consistent(t, g, s, d) && IsLeafPath(t, q) && UnitRewards(future)
    ensures var v := Get(t, q).info.values;
      v.Record? && v.sum + Discounted(future, g, v.depth) <= v.bound
  {
    LeafSumIsReturn(t, g, s, d, q);
    var v := Get(t, q).info.values;
    TailBoundsEveryFuture(future, g, v.depth);
  }

  lemma NewLeafConsistent(v: Values, o: Transition, g: real)
    requires v.Record? && g < 1.0
    ensures Consistent(NewLeaf(v, o, g), g, v.sum + Pow(g, v.depth) * o.reward, v.depth + 1)
  {
    var c := NewLeaf(v, o, g);
    var sum := v.sum + Pow(g, v.depth) * o.reward;
    assert c.info.values == LeafRecord(g, sum, v.depth + 1);
    assert ChildrenConsistent(c.children, g, sum, v.depth + 1);
  }

  /** The new leaves hold the records their rewards call for, measured from the opened leaf's record. */
  lemma NewLeavesConsistent(v: Values, outs: seq<Transition>, g: real)
    requires v.Record? && g < 1.0
    ensures ChildrenConsistent(NewLeaves(v, outs, g), g, v.sum, v.depth)
  {
    var cs := NewLeaves(v, outs, g);
    var s, d := v.sum, v.depth;
    forall j | 0 <= j < |cs|
      ensures Consistent(cs[j], g, ChildSum(g, s, d, cs[j]), d + 1)
    {
      assert cs[j] == NewLeaf(v, outs[j], g);
      NewLeafConsistent(v, outs[j], g);
    }
    ChildrenConsistentIntro(cs, g, s, d);
  }

  lemma ChildrenConsistentIntro(cs: seq<Node>, g: real, s: real, d: nat)
    requires g < 1.0
    requires forall i :: 0 <= i < |cs| ==> Consistent(cs[i], g, ChildSum(g, s, d, cs[i]), d + 1)
    ensures ChildrenConsistent(cs, g, s, d)
  {
  }

  lemma ChildrenConsistentUpdate(cs: seq<Node>, i: nat, c: Node, g: real, s: real, d: nat)
    requires g < 1.0 && i < |cs| && ChildrenConsistent(cs, g, s, d)
    requires Consistent(c, g, ChildSum(g, s, d, c), d + 1)
    ensures ChildrenConsistent(cs[i := c], g, s, d)
  {
  }

  lemma {:induction false} ExpandKeepsConsistent(t: Node, p: Path, outs: seq<Transition>, g: real, s: real, d: nat)
    requires g < 1.0 && |outs| > 0 && IsLeafPath(t, p) && Get(t, p).info.values.Record?
    requires Consistent(t, g, s, d)
    ensures Consistent(ExpandAt(t, p, outs, g), g, s, d)
    decreases |p|
  {
    ExpandKeepsChildrenConsistent(t, p, outs, g, s, d);
  }

  lemma {:induction false} ExpandKeepsChildrenConsistent(t: Node, p: Path, outs: seq<Transition>, g: real, s: real, d: nat)
    requires g < 1.0 && |outs| > 0 && IsLeafPath(t, p) && Get(t, p).info.values.Record?
    requires ChildrenConsistent(t.children, g, s, d)
    requires |p| == 0 ==> t.info.values.sum == s && t.info.values.depth == d
    ensures ChildrenConsistent(ExpandAt(t, p, outs, g).children, g, s, d)
    decreases |p|
  {
    if |p| > 0 {
      var i := p[0];
      var c := t.children[i];
      var sc := ChildSum(g, s, d, c);
      assert Consistent(c, g, sc, d + 1);
      ExpandKeepsChildrenConsistent(c, p[1..], outs, g, sc, d + 1);
      var c' := ExpandAt(c, p[1..], outs, g);
      assert ChildSum(g, s, d, c') == sc;
      ChildrenConsistentUpdate(t.children, i, c', g, s, d);
    } else {
      NewLeavesConsistent(t.info.values, outs, g);
    }
  }

  lemma ExpandKeepsRootConsistent(t: Node, p: Path, outs: seq<Transition>, g: real, s: real, d: nat)
    requires g < 1.0 && |outs| > 0 && IsLeafPath(t, p) && Get(t, p).info.values.Record?
    requires RootConsistent(t, g, s, d)
    ensures RootConsistent(ExpandAt(t, p, outs, g), g, s, d)
  {
    ExpandKeepsChildrenConsistent(t, p, outs, g, s, d);
  }

  /** Every leaf of the expanded tree is a leaf of t other than p, unchanged, or one of p's new children. */
  lemma {:induction false} ExpandLeaves(t: Node, p: Path, outs: seq<Transition>, g: real, q: Path)
    requires IsLeafPath(t, p) && Get(t, p).info.values.Record? && g < 1.0 && |outs| > 0
    requires IsLeafPath(ExpandAt(t, p, outs, g), q)
    ensures || (IsLeafPath(t, q) && q != p && Get(ExpandAt(t, p, outs, g), q) == Get(t, q))
            || (|q| == |p| + 1 && q[..|p|] == p && q[|p|] < |outs|)
    decreases |p|
  {
    var r := ExpandAt(t, p, outs, g);
    if |p| == 0 {
      ExpandOpensLeaf(t, p, outs, g);
      assert |q| > 0;
      assert r.children[q[0]].children == [];
      assert ValidPath(r.children[q[0]], q[1..]);
      assert |q[1..]| == 0;
    } else if |q| > 0 && q[0] == p[0] {
      ExpandLeaves(t.children[p[0]], p[1..], outs, g, q[1..]);
      if IsLeafPath(t.children[p[0]], q[1..]) && q[1..] != p[1..] {
        assert q != p;
      } else {
        assert q == [q[0]] + q[1..] && p == [p[0]] + p[1..];
        assert q[..|p|] == [q[0]] + q[1..][..|p| - 1];
      }
    }
  }

  /*---------------------------------------------------------------------------------------------
    The best leaf (lines 156-157, 190-194)
  ---------------------------------------------------------------------------------------------*/

  /**
   The new leaves cs[from..] of the leaf at p are compared with the best so far: a strictly larger
   sum replaces it, and the action recorded is the first action on the path to the new best leaf.
   */
  function RecordFrom(b: Best, p: Path, cs: seq<Node>, from: nat): (r: Best)
    ensures r.value >= b.value
    ensures forall j :: from <= j < |cs| ==> SumOf(cs[j]) <= r.value
    ensures || r == b
            || exists j :: from <= j < |cs| && r == Best(SumOf(cs[j]), p + [j], (p + [j])[0]) && r.value > b.value
    decreases |cs| - from
  {
    if from >= |cs| then b
    else if SumOf(cs[from]) > b.value then
      RecordFrom(Best(SumOf(cs[from]), p + [from], (p + [from])[0]), p, cs, from + 1)
    else RecordFrom(b, p, cs, from + 1)
  }

  /** Opening the best leaf itself first resets the best value to -1, so one of its children takes over. */
  function RecordBest(b: Best, p: Path, cs: seq<Node>): (r: Best)
  {
    RecordFrom(if p == b.leaf then b.(value := -1.0) else b, p, cs, 0)
  }

  /**
   Lines 190-194 as written: the recorded action is the root's trajectoryId at that moment. While
   the root itself is being opened (p == []) that is the index of the best open child scanned so
   far, which is not the new best leaf's action when that leaf is closed.
   */
  function RecordFromAsWritten(b: Best, p: Path, cs: seq<Node>, from: nat, rootTid: nat): Best
    decreases |cs| - from
  {
    if from >= |cs| then b
    else if SumOf(cs[from]) > b.value then
      var action := if |p| == 0 then ScanChildren(cs[..from + 1], 0, Scan(true, rootTid, FirstChildRecord, 0.0)).tid
                    else rootTid;
      RecordFromAsWritten(Best(SumOf(cs[from]), p + [from], action), p, cs, from + 1, rootTid)
    else RecordFromAsWritten(b, p, cs, from + 1, rootTid)
  }

  function RecordBestAsWritten(b: Best, p: Path, cs: seq<Node>, rootTid: nat): Best {
    RecordFromAsWritten(if p == b.leaf then b.(value := -1.0) else b, p, cs, 0, rootTid)
  }

  /**
   Opening a fresh root whose first action yields 0.5 and whose second yields 0.9 on a terminal
   transition: the best leaf becomes the second child, yet the code as written records action 0;
   the corrected bookkeeping records action 1.
   */
  lemma RootExpansionMisreportsAction()
    ensures var cs := NewLeaves(Record(0.0, 0.0, 0), [Transition(0.5, false), Transition(0.9, true)], 0.5);
      && RecordBestAsWritten(Best(0.0, [], 0), [], cs, 0) == Best(0.9, [1], 0)
      && RecordBest(Best(0.0, [], 0), [], cs) == Best(0.9, [1], 1)
  {
    var cs := NewLeaves(Record(0.0, 0.0, 0), [Transition(0.5, false), Transition(0.9, true)], 0.5);
    assert cs[0].info.values.sum == 0.5 && !cs[0].info.closed;
    assert cs[1].info.values.sum == 0.9 && cs[1].info.closed;
    var init := Scan(true, 0, FirstChildRecord, 0.0);
    var first := Scan(false, 0, MaxLeaf([0] + Pointer(cs[0])), CandidateBound(cs[0]));
    assert cs[..2] == cs;
    assert ScanChildren(cs, 2, first) == first;
    assert ScanChildren(cs, 1, first) == first;
    assert ScanChildren(cs, 0, init) == first;
  }

  /*---------------------------------------------------------------------------------------------
    The planner
  ---------------------------------------------------------------------------------------------*/

  /** The best leaf has a sum at least that of every other leaf; the root leaf may lag (after a re-rooting). */
  ghost predicate BestIsMax(t: Node, b: Best)
    requires ValidPath(t, b.leaf)
  {
    && (forall q :: IsLeafPath(t, q) && q != b.leaf ==> SumOf(Get(t, q)) <= b.value)
    && (b.leaf != [] ==> b.value == SumOf(Get(t, b.leaf)))
  }

  /** What holds between any two calls of the planner. */
  ghost predicate Inv(inst: Instance, k: nat) {
    && k >= 1
    && WellFormed(inst.root, k)
    && CachedBelow(inst.root)
    && (!inst.root.info.closed ==> inst.next.Some? && IsLeafPath(inst.root, inst.next.value))
    && IsLeafPath(inst.root, inst.best.leaf)
    && inst.best.action < k
    && (inst.best.leaf != [] ==> inst.best.action == inst.best.leaf[0])
    && BestIsMax(inst.root, inst.best)
  }

  /** optimistic_resetInstance: a single open root leaf of sum 0 at depth 0. */
  function Reset(k: nat): (r: Instance)
    requires k >= 1
    ensures Inv(r, k) && r.root.IsLeaf() && !r.root.info.closed && r.evaluations == 0
  {
    Instance(Node(Info(0.0, false, 0, Record(0.0, 0.0, 0)), []), 0, Best(0.0, [], 0), Some([]))
  }

  lemma ResetConsistent(k: nat, g: real)
    requires k >= 1 && g < 1.0
    ensures RootConsistent(Reset(k).root, g, 0.0, 0)
  {
  }

  /** The pointer the root's values designate, if any. */
  function NextOf(t: Node): Option<Path> {
    if t.info.values.MaxLeaf? then Some(t.info.values.leaf) else None
  }

  /** One call of buildingTrajectory: open the next leaf, record the best leaf, move the pointer. */
  function Step(inst: Instance, g: real, k: nat, sim: Simulator): (r: Instance)
    requires Inv(inst, k) && !inst.root.info.closed && ValidGamma(g) && ValidSimulator(sim)
    ensures Inv(r, k) && Cached(r.root) && !r.root.IsLeaf()
    ensures r.evaluations == inst.evaluations + k
  {
    var p := inst.next.value;
    WellFormedLeaf(inst.root, k, p);
    var outs := Outcomes(sim, p, k);
    var t := ExpandAt(inst.root, p, outs, g);
    var b := RecordBest(inst.best, p, NewLeaves(Get(inst.root, p).info.values, outs, g));
    StepKeepsInv(inst, g, k, sim);
    Instance(t, inst.evaluations + k, b, NextOf(t))
  }

  lemma StepKeepsInv(inst: Instance, g: real, k: nat, sim: Simulator)
    requires Inv(inst, k) && !inst.root.info.closed && ValidGamma(g) && ValidSimulator(sim)
    ensures var p := inst.next.value;
      && IsLeafPath(inst.root, p) && Get(inst.root, p).info.values.Record?
      && var outs := Outcomes(sim, p, k);
         var t := ExpandAt(inst.root, p, outs, g);
         var b := RecordBest(inst.best, p, NewLeaves(Get(inst.root, p).info.values, outs, g));
         Inv(Instance(t, inst.evaluations + k, b, NextOf(t)), k) && Cached(t) && !t.IsLeaf()
  {
    var root := inst.root;
    var p := inst.next.value;
    WellFormedLeaf(root, k, p);
    var outs := Outcomes(sim, p, k);
    assert forall i :: 0 <= i < |outs| ==> ValidTransition(outs[i]);
    var t := ExpandAt(root, p, outs, g);
    ExpandKeepsWellFormed(root, p, outs, g, k);
    ExpandKeepsCached(root, p, outs, g);
    ExpandOpensLeaf(root, p, outs, g);
    assert !t.IsLeaf();
    if !t.info.closed {
      PointerIsOpenLeaf(t);
    }
    StepKeepsBest(root, p, outs, g, k, inst.best);
  }

  lemma NewLeafSum(v: Values, o: Transition, g: real)
    requires v.Record? && ValidGamma(g) && ValidTransition(o)
    ensures SumOf(NewLeaf(v, o, g)) >= v.sum
  {
    PowPositive(g, v.depth);
    NonNegativeProduct(Pow(g, v.depth), o.reward);
  }

  /** The new leaves are leaves of the expanded tree, none of smaller sum than the opened leaf. */
  lemma NewLeavesInTree(root: Node, p: Path, outs: seq<Transition>, g: real, k: nat)
    requires WellFormed(root, k) && IsLeafPath(root, p) && ValidGamma(g)
    requires |outs| == k && forall i :: 0 <= i < |outs| ==> ValidTransition(outs[i])
    ensures Get(root, p).info.values.Record?
    ensures var v := Get(root, p).info.values;
      var cs := NewLeaves(v, outs, g);
      var t := ExpandAt(root, p, outs, g);
      forall j :: 0 <= j < |cs| ==> IsLeafPath(t, p + [j]) && Get(t, p + [j]) == cs[j] && SumOf(cs[j]) >= v.sum
  {
    WellFormedLeaf(root, k, p);
    var v := Get(root, p).info.values;
    var cs := NewLeaves(v, outs, g);
    var t := ExpandAt(root, p, outs, g);
    ExpandOpensLeaf(root, p, outs, g);
    forall j | 0 <= j < |cs|
      ensures IsLeafPath(t, p + [j]) && Get(t, p + [j]) == cs[j] && SumOf(cs[j]) >= v.sum
    {
      GetAppend(t, p, j);
      NewLeafSum(v, outs[j], g);
    }
  }

  /** The best-leaf bookkeeping of an expansion keeps the best leaf a leaf of largest sum. */
  lemma StepKeepsBest(root: Node, p: Path, outs: seq<Transition>, g: real, k: nat, prev: Best)
    requires k >= 1 && WellFormed(root, k) && IsLeafPath(root, p) && ValidGamma(g)
    requires |outs| == k && forall i :: 0 <= i < |outs| ==> ValidTransition(outs[i])
    requires IsLeafPath(root, prev.leaf) && prev.action < k && (prev.leaf != [] ==> prev.action == prev.leaf[0])
    requires BestIsMax(root, prev)
    ensures Get(root, p).info.values.Record?
    ensures var t := ExpandAt(root, p, outs, g);
      var b := RecordBest(prev, p, NewLeaves(Get(root, p).info.values, outs, g));
      && IsLeafPath(t, b.leaf) && b.action < k && (b.leaf != [] ==> b.action == b.leaf[0])
      && BestIsMax(t, b)
  {
    NewLeavesInTree(root, p, outs, g, k);
    var v := Get(root, p).info.values;
    var cs := NewLeaves(v, outs, g);
    var t := ExpandAt(root, p, outs, g);
    forall q | IsLeafPath(root, q) && q != p
      ensures IsLeafPath(t, q) && Get(t, q) == Get(root, q)
    {
      ExpandKeepsOtherLeaves(root, p, outs, g, q);
    }
    forall q | IsLeafPath(t, q)
      ensures || (IsLeafPath(root, q) && q != p && Get(t, q) == Get(root, q))
              || (|q| == |p| + 1 && q[..|p|] == p && q[|p|] < |cs|)
    {
      ExpandLeaves(root, p, outs, g, q);
    }
    assert |p| > 0 ==> p[0] < k;
    WellFormedLeaf(root, k, p);
    BestAfterOpening(root, t, p, cs, k, prev);
  }

  /**
   The same, stated for any tree t in which the leaf p of root has been replaced by the leaves cs
   and every other leaf is left alone.
   */
  lemma BestAfterOpening(root: Node, t: Node, p: Path, cs: seq<Node>, k: nat, prev: Best)
    requires IsLeafPath(root, p) && SumOf(Get(root, p)) >= 0.0 && |cs| == k >= 1 && (|p| > 0 ==> p[0] < k)
    requires IsLeafPath(root, prev.leaf) && prev.action < k && (prev.leaf != [] ==> prev.action == prev.leaf[0])
    requires BestIsMax(root, prev)
    requires forall j :: 0 <= j < |cs| ==> IsLeafPath(t, p + [j]) && Get(t, p + [j]) == cs[j] && SumOf(cs[j]) >= SumOf(Get(root, p))
    requires forall q :: IsLeafPath(root, q) && q != p ==> IsLeafPath(t, q) && Get(t, q) == Get(root, q)
    requires forall q :: IsLeafPath(t, q) ==>
               || (IsLeafPath(root, q) && q != p && Get(t, q) == Get(root, q))
               || (|q| == |p| + 1 && q[..|p|] == p && q[|p|] < |cs|)
    ensures var b := RecordBest(prev, p, cs);
      && IsLeafPath(t, b.leaf) && b.action < k && (b.leaf != [] ==> b.action == b.leaf[0])
      && BestIsMax(t, b)
  {
    var b := RecordBest(prev, p, cs);
    BestLeafAfterOpening(root, t, p, cs, k, prev);
    MaxAfterOpening(root, t, p, cs, prev, b);
  }

  lemma MaxAfterOpening(root: Node, t: Node, p: Path, cs: seq<Node>, prev: Best, b: Best)
    requires IsLeafPath(root, p) && IsLeafPath(root, prev.leaf) && BestIsMax(root, prev)
    requires forall j :: 0 <= j < |cs| ==> IsLeafPath(t, p + [j]) && Get(t, p + [j]) == cs[j]
    requires forall q :: IsLeafPath(t, q) ==>
               || (IsLeafPath(root, q) && q != p && Get(t, q) == Get(root, q))
               || (|q| == |p| + 1 && q[..|p|] == p && q[|p|] < |cs|)
    requires IsLeafPath(t, b.leaf) && (b.leaf != [] ==> b.value == SumOf(Get(t, b.leaf)))
    requires b.value >= (if p == prev.leaf then -1.0 else prev.value) && b.value >= SumOf(Get(root, p))
    requires forall j :: 0 <= j < |cs| ==> SumOf(cs[j]) <= b.value
    ensures BestIsMax(t, b)
  {
    forall q | IsLeafPath(t, q) && q != b.leaf
      ensures SumOf(Get(t, q)) <= b.value
    {
      if IsLeafPath(root, q) && q != p && Get(t, q) == Get(root, q) {
        OldLeafBelowBest(root, p, prev, b, q);
      } else {
        NewLeafBelowBest(t, p, cs, b, q);
      }
    }
  }

  lemma NewLeafBelowBest(t: Node, p: Path, cs: seq<Node>, b: Best, q: Path)
    requires |q| == |p| + 1 && q[..|p|] == p && q[|p|] < |cs|
    requires forall j :: 0 <= j < |cs| ==> IsLeafPath(t, p + [j]) && Get(t, p + [j]) == cs[j]
    requires forall j :: 0 <= j < |cs| ==> SumOf(cs[j]) <= b.value
    ensures IsLeafPath(t, q) && SumOf(Get(t, q)) <= b.value
  {
    var j := q[|p|];
    assert q == p + [j];
  }

  lemma BestLeafAfterOpening(root: Node, t: Node, p: Path, cs: seq<Node>, k: nat, prev: Best)
    requires IsLeafPath(root, p) && SumOf(Get(root, p)) >= 0.0 && |cs| == k >= 1 && (|p| > 0 ==> p[0] < k)
    requires IsLeafPath(root, prev.leaf) && prev.action < k && (prev.leaf != [] ==> prev.action == prev.leaf[0])
    requires BestIsMax(root, prev)
    requires forall j :: 0 <= j < |cs| ==> IsLeafPath(t, p + [j]) && Get(t, p + [j]) == cs[j] && SumOf(cs[j]) >= SumOf(Get(root, p))
    requires forall q :: IsLeafPath(root, q) && q != p ==> IsLeafPath(t, q) && Get(t, q) == Get(root, q)
    ensures var b := RecordBest(prev, p, cs);
      && IsLeafPath(t, b.leaf) && b.action < k && (b.leaf != [] ==> b.action == b.leaf[0])
      && (b.leaf != [] ==> b.value == SumOf(Get(t, b.leaf)))
      && b.value >= (if p == prev.leaf then -1.0 else prev.value) && b.value >= SumOf(Get(root, p))
      && forall j :: 0 <= j < |cs| ==> SumOf(cs[j]) <= b.value
  {
    var b := RecordBest(prev, p, cs);
    var start := if p == prev.leaf then prev.(value := -1.0) else prev;
    assert b.value >= SumOf(cs[0]) >= SumOf(Get(root, p));
    if b == start {
      assert p != prev.leaf;
    } else {
      var j :| 0 <= j < |cs| && b == Best(SumOf(cs[j]), p + [j], (p + [j])[0]) && b.value > start.value;
    }
  }

  lemma OldLeafBelowBest(root: Node, p: Path, prev: Best, b: Best, q: Path)
    requires IsLeafPath(root, p) && IsLeafPath(root, q) && q != p && IsLeafPath(root, prev.leaf)
    requires BestIsMax(root, prev)
    requires b.value >= (if p == prev.leaf then -1.0 else prev.value) && b.value >= SumOf(Get(root, p))
    ensures SumOf(Get(root, q)) <= b.value
  {
    if p == prev.leaf && p != [] {
      assert SumOf(Get(root, p)) == prev.value;
    }
  }

  /**
   optimistic_planning: open leaves until the budget is reached or the root is closed. The
   returned action is `best.action`.
   */
  function Plan(inst: Instance, budget: nat, g: real, k: nat, sim: Simulator): (r: Instance)
    requires Inv(inst, k) && ValidGamma(g) && ValidSimulator(sim)
    ensures Inv(r, k)
    ensures r.evaluations >= budget || r.root.info.closed
    ensures inst.evaluations <= r.evaluations
    ensures inst.evaluations < budget ==> r.evaluations < budget + k
    ensures inst.evaluations >= budget || inst.root.info.closed ==> r == inst
    decreases budget - inst.evaluations
  {
    if inst.evaluations < budget && !inst.root.info.closed then Plan(Step(inst, g, k, sim), budget, g, k, sim)
    else inst
  }

  /** Planning keeps every leaf record in agreement with the rewards of its path. */
  lemma {:induction false} PlanKeepsConsistent(inst: Instance, budget: nat, g: real, k: nat, sim: Simulator, s: real, d: nat)
    requires Inv(inst, k) && ValidGamma(g) && ValidSimulator(sim)
    requires RootConsistent(inst.root, g, s, d)
    ensures RootConsistent(Plan(inst, budget, g, k, sim).root, g, s, d)
    decreases budget - inst.evaluations
  {
    if inst.evaluations < budget && !inst.root.info.closed {
      var p := inst.next.value;
      WellFormedLeaf(inst.root, k, p);
      ExpandKeepsRootConsistent(inst.root, p, Outcomes(sim, p, k), g, s, d);
      PlanKeepsConsistent(Step(inst, g, k, sim), budget, g, k, sim, s, d);
    }
  }

  /**
   After an expansion with the root still open, the next leaf to open is an open leaf of largest
   bound in the whole tree.
   */
  lemma NextIsBestOpenLeaf(inst: Instance, g: real, k: nat, sim: Simulator, q: Path)
    requires Inv(inst, k) && !inst.root.info.closed && ValidGamma(g) && ValidSimulator(sim)
    requires var r := Step(inst, g, k, sim); !r.root.info.closed && IsLeafPath(r.root, q) && !Get(r.root, q).info.closed
    ensures var r := Step(inst, g, k, sim);
      && r.next.Some? && IsLeafPath(r.root, r.next.value) && !Get(r.root, r.next.value).info.closed
      && LeafBound(r.root, q) <= LeafBound(r.root, r.next.value)
  {
    var r := Step(inst, g, k, sim);
    PointerIsOpenLeaf(r.root);
    PointerIsBestOpenLeaf(r.root, q);
  }

  /*---------------------------------------------------------------------------------------------
    Re-rooting (optimistic_keepSubtree, lines 263-365)
  ---------------------------------------------------------------------------------------------*/

  /**
   updateValues on one retained node, entered from a node of sum s at depth d (both measured from
   the new root): a leaf gets the record of its new sum and depth, an internal node is unchanged.
   */
  function Rebase(t: Node, g: real, s: real, d: nat): (r: Node)
    requires g < 1.0
    ensures Consistent(r, g, ChildSum(g, s, d, t), d + 1)
    ensures r.info.reward == t.info.reward && |r.children| == |t.children|
    decreases t
  {
    var sum := ChildSum(g, s, d, t);
    if t.IsLeaf() then Node(t.info.(values := LeafRecord(g, sum, d + 1)), [])
    else
      var cs := seq(|t.children|, i requires 0 <= i < |t.children| => Rebase(t.children[i], g, sum, d + 1));
      assert forall i :: 0 <= i < |cs| ==> Consistent(cs[i], g, ChildSum(g, sum, d + 1, cs[i]), d + 2) by {
        forall i | 0 <= i < |cs|
          ensures Consistent(cs[i], g, ChildSum(g, sum, d + 1, cs[i]), d + 2)
        {
          assert ChildSum(g, sum, d + 1, cs[i]) == ChildSum(g, sum, d + 1, t.children[i]);
        }
      }
      ChildrenConsistentIntro(cs, g, sum, d + 1);
      Node(t.info, cs)
  }

  /** The retained children re-measured from the new root (sum 0 at depth 0). */
  function RebaseAll(cs: seq<Node>, g: real): (r: seq<Node>)
    requires g < 1.0
    ensures |r| == |cs|
    ensures ChildrenConsistent(r, g, 0.0, 0)
  {
    var r := seq(|cs|, i requires 0 <= i < |cs| => Rebase(cs[i], g, 0.0, 0));
    assert forall i :: 0 <= i < |r| ==> Consistent(r[i], g, ChildSum(g, 0.0, 0, r[i]), 1) by {
      forall i | 0 <= i < |r|
        ensures Consistent(r[i], g, ChildSum(g, 0.0, 0, r[i]), 1)
      {
        assert ChildSum(g, 0.0, 0, r[i]) == ChildSum(g, 0.0, 0, cs[i]);
      }
    }
    ChildrenConsistentIntro(r, g, 0.0, 0);
    r
  }

  /**
   n has the shape, flags and pointers of o, and every leaf bound of o is c + m times the bound of
   the same leaf in n.
   */
  predicate Rescaled(o: Node, n: Node, c: real, m: real)
    decreases o
  {
    && |o.children| == |n.children|
    && o.info.closed == n.info.closed
    && o.info.reward == n.info.reward
    && o.info.tid == n.info.tid
    && (if o.IsLeaf()
        then o.info.values.Record? && n.info.values.Record? && o.info.values.bound == Scale(c, m, n.info.values.bound)
        else o.info.values == n.info.values)
    && forall i :: 0 <= i < |o.children| ==> Rescaled(o.children[i], n.children[i], c, m)
  }

  lemma {:induction false} RebaseRescales(o: Node, g: real, s: real, d: nat, e: nat, c: real, so: real, depth: nat)
    requires ValidGamma(g) && depth == d + 1 + e
    requires so == c + Pow(g, e) * ChildSum(g, s, d, o) && Consistent(o, g, so, depth)
    ensures Rescaled(o, Rebase(o, g, s, d), c, Pow(g, e))
    decreases o
  {
    var n := Rebase(o, g, s, d);
    var m := Pow(g, e);
    var sn := ChildSum(g, s, d, o);
    if o.IsLeaf() {
      RebaseLeafRescales(o, g, s, d, e, c, so, depth);
    } else {
      assert n.info == o.info && |n.children| == |o.children|;
      assert ChildrenConsistent(o.children, g, so, depth);
      forall i | 0 <= i < |o.children|
        ensures Rescaled(o.children[i], n.children[i], c, m)
      {
        var oc := o.children[i];
        assert Consistent(oc, g, ChildSum(g, so, depth, oc), depth + 1);
        RebasedChildSum(oc, g, sn, so, d, e, c, depth);
        RebaseRescales(oc, g, sn, d + 1, e, c, ChildSum(g, so, depth, oc), depth + 1);
      }
    }
  }

  /** The base case of RebaseRescales: a leaf's new bound is the old one read from the new root. */
  lemma RebaseLeafRescales(o: Node, g: real, s: real, d: nat, e: nat, c: real, so: real, depth: nat)
    requires ValidGamma(g) && depth == d + 1 + e && o.IsLeaf()
    requires so == c + Pow(g, e) * ChildSum(g, s, d, o) && Consistent(o, g, so, depth)
    ensures Rescaled(o, Rebase(o, g, s, d), c, Pow(g, e))
  {
    var n, m, sn := Rebase(o, g, s, d), Pow(g, e), ChildSum(g, s, d, o);
    TailShift(g, e, d + 1);
    assert e + (d + 1) == depth;
    var tl := Tail(g, d + 1);
    assert n.info.values.bound == sn + tl;
    AffineShift(so, sn, c, m, tl, Tail(g, depth));
  }

  lemma AffineShift(so: real, sn: real, c: real, m: real, tl: real, deep: real)
    requires so == c + m * sn && deep == m * tl
    ensures so + deep == Scale(c, m, sn + tl)
  {
  }

  /** A child's sum measured from the old root is the affine image of its sum from the new one. */
  lemma RebasedChildSum(oc: Node, g: real, sn: real, so: real, d: nat, e: nat, c: real, depth: nat)
    requires so == c + Pow(g, e) * sn && depth == d + 1 + e
    ensures ChildSum(g, so, depth, oc) == c + Pow(g, e) * ChildSum(g, sn, d + 1, oc)
  {
    PowAdd(g, e, d + 1);
    assert e + (d + 1) == depth;
    AffineStep(c, Pow(g, e), sn, Pow(g, d + 1), oc.info.reward);
  }


  lemma {:induction false} RescaledLeaf(o: Node, n: Node, c: real, m: real, q: Path)
    requires Rescaled(o, n, c, m) && IsLeafPath(o, q)
    ensures IsLeafPath(n, q) && Get(n, q).info.closed == Get(o, q).info.closed
    ensures LeafBound(o, q) == Scale(c, m, LeafBound(n, q))
    decreases |q|
  {
    if |q| > 0 {
      RescaledLeaf(o.children[q[0]], n.children[q[0]], c, m, q[1..]);
    }
  }

  lemma RescaledSameSize(o: Node, n: Node, c: real, m: real)
    requires Rescaled(o, n, c, m)
    ensures Size(n) == Size(o)
    decreases o
  {
    forall i | 0 <= i < |o.children|
      ensures Size(o.children[i]) == Size(n.children[i])
    {
      RescaledSameSize(o.children[i], n.children[i], c, m);
    }
    SizeOfPointwise(o.children, n.children);
  }

  /** A child's candidate bound is rescaled with its leaves. */
  lemma {:induction false} RescaledCandidate(o: Node, n: Node, c: real, m: real)
    requires Rescaled(o, n, c, m) && Cached(o)
    ensures Pointer(o) == Pointer(n)
    ensures !o.info.closed ==> CandidateBound(o) == Scale(c, m, CandidateBound(n))
  {
    assert o.IsLeaf() <==> n.IsLeaf();
    assert !o.IsLeaf() ==> o.info.values == n.info.values;
    assert Pointer(o) == Pointer(n);
    if !o.info.closed {
      if !o.IsLeaf() {
        PointerIsOpenLeaf(o);
      }
      RescaledLeaf(o, n, c, m, Pointer(o));
    }
  }

  /** The caches depend on the bounds only through their order, which a positive rescaling keeps. */
  lemma {:induction false} RescaledKeepsCached(o: Node, n: Node, c: real, m: real)
    requires m > 0.0 && Rescaled(o, n, c, m) && Cached(o)
    ensures Cached(n)
    decreases o
  {
    forall i | 0 <= i < |o.children|
      ensures Cached(n.children[i])
    {
      RescaledKeepsCached(o.children[i], n.children[i], c, m);
    }
    RescaledNodeCached(o, n, c, m);
  }

  lemma RescaledNodeCached(o: Node, n: Node, c: real, m: real)
    requires m > 0.0 && Rescaled(o, n, c, m) && Cached(o)
    ensures NodeCached(n)
  {
    if !o.IsLeaf() {
      var os, ns := o.children, n.children;
      forall i | 0 <= i < |os|
        ensures Pointer(os[i]) == Pointer(ns[i])
        ensures os[i].info.closed == ns[i].info.closed
        ensures !os[i].info.closed ==> CandidateBound(os[i]) == Scale(c, m, CandidateBound(ns[i]))
      {
        assert Rescaled(os[i], ns[i], c, m);
        RescaledCandidate(os[i], ns[i], c, m);
      }
      assert AllClosed(os) <==> AllClosed(ns);
      if !n.info.closed {
        ArgmaxRescaled(os, ns, c, m, o.info.tid);
      }
    }
  }

  /** The first open argmax of the candidate bounds survives a positive rescaling. */
  lemma ArgmaxRescaled(os: seq<Node>, ns: seq<Node>, c: real, m: real, j: nat)
    requires m > 0.0 && |os| == |ns| && IsFirstArgmax(os, j)
    requires forall i :: 0 <= i < |os| ==> os[i].info.closed == ns[i].info.closed
    requires forall i :: 0 <= i < |os| && !os[i].info.closed ==> CandidateBound(os[i]) == Scale(c, m, CandidateBound(ns[i]))
    ensures IsFirstArgmax(ns, j)
  {
    forall i | 0 <= i < |ns| && !ns[i].info.closed
      ensures CandidateBound(ns[i]) <= CandidateBound(ns[j])
      ensures i < j ==> CandidateBound(ns[i]) < CandidateBound(ns[j])
    {
      ScaleOrder(c, m, CandidateBound(ns[i]), CandidateBound(ns[j]));
    }
  }

  /** A choice of best leaf: its sum and its path from the root. */
  datatype Choice = Choice(value: real, leaf: Path)

  /**
   The best-leaf scan of updateValues, depth first: a leaf (found at path `at` from the root) is
   taken when its sum is strictly larger than the current choice.
   */
  function SweepBest(t: Node, at: Path, acc: Choice): Choice
    decreases t, 1
  {
    if t.IsLeaf() then (if SumOf(t) > acc.value then Choice(SumOf(t), at) else acc)
    else SweepBestFrom(t.children, 0, at, acc)
  }

  function SweepBestFrom(cs: seq<Node>, from: nat, at: Path, acc: Choice): Choice
    decreases cs, 0, |cs| - from
  {
    if from >= |cs| then acc
    else SweepBestFrom(cs, from + 1, at, SweepBest(cs[from], at + [from], acc))
  }

  /**
   The sweep ends on a leaf of largest sum: no leaf exceeds the value it ends with, which is the
   starting value or the sum of the leaf it ends on.
   */
  lemma {:induction false} SweepBestSpec(t: Node, at: Path, acc: Choice) returns (found: bool, q: Path)
    ensures var r := SweepBest(t, at, acc);
      && r.value >= acc.value
      && (forall q' :: IsLeafPath(t, q') ==> SumOf(Get(t, q')) <= r.value)
      && (found ==> IsLeafPath(t, q) && r == Choice(SumOf(Get(t, q)), at + q))
      && (!found ==> r == acc)
    decreases t, 1
  {
    if t.IsLeaf() {
      found, q := SumOf(t) > acc.value, [];
      assert at + [] == at;
    } else {
      var j;
      found, j, q := SweepBestFromSpec(t.children, 0, at, acc);
      forall q' | IsLeafPath(t, q')
        ensures SumOf(Get(t, q')) <= SweepBest(t, at, acc).value
      {
        assert IsLeafPath(t.children[q'[0]], q'[1..]);
      }
      if found {
        assert Get(t, [j] + q) == Get(t.children[j], q) by {
          assert ([j] + q)[1..] == q;
        }
        q := [j] + q;
      }
    }
  }

  lemma {:induction false} SweepBestFromSpec(cs: seq<Node>, from: nat, at: Path, acc: Choice) returns (found: bool, j: nat, q: Path)
    ensures var r := SweepBestFrom(cs, from, at, acc);
      && r.value >= acc.value
      && (forall i, q' :: from <= i < |cs| && IsLeafPath(cs[i], q') ==> SumOf(Get(cs[i], q')) <= r.value)
      && (found ==> from <= j < |cs| && IsLeafPath(cs[j], q) && r == Choice(SumOf(Get(cs[j], q)), at + [j] + q))
      && (!found ==> r == acc)
    decreases cs, 0, |cs| - from
  {
    if from >= |cs| {
      found, j, q := false, 0, [];
    } else {
      var a1 := SweepBest(cs[from], at + [from], acc);
      var f1, q1 := SweepBestSpec(cs[from], at + [from], acc);
      found, j, q := SweepBestFromSpec(cs, from + 1, at, a1);
      if !found && f1 {
        found, j, q := true, from, q1;
      }
    }
  }

  /** updateNextOpennedNode: follow the trajectoryIds from the root down to a leaf. */
  function TidWalk(t: Node): (p: Path)
    ensures ValidPath(t, p)
    decreases t
  {
    if t.IsLeaf() || t.info.tid >= |t.children| then []
    else [t.info.tid] + TidWalk(t.children[t.info.tid])
  }

  lemma {:induction false} TidWalkReachesLeaf(t: Node, k: nat)
    requires WellFormed(t, k)
    ensures IsLeafPath(t, TidWalk(t))
    decreases t
  {
    if !t.IsLeaf() {
      TidWalkReachesLeaf(t.children[t.info.tid], k);
    }
  }

  /** Below an open cached node, the trajectoryIds lead to the very leaf its values point to. */
  lemma {:induction false} TidWalkIsPointer(t: Node)
    requires Cached(t) && !t.IsLeaf() && !t.info.closed
    ensures TidWalk(t) == Pointer(t)
    decreases t
  {
    var c := t.children[t.info.tid];
    if !c.IsLeaf() {
      TidWalkIsPointer(c);
    }
  }

  lemma {:induction false} RebaseKeepsWellFormed(o: Node, g: real, s: real, d: nat, k: nat)
    requires ValidGamma(g) && WellFormed(o, k) && s >= 0.0
    ensures WellFormed(Rebase(o, g, s, d), k)
    decreases o
  {
    var sum := ChildSum(g, s, d, o);
    PowPositive(g, d);
    assert Pow(g, d) * o.info.reward >= 0.0;
    var n := Rebase(o, g, s, d);
    forall i | 0 <= i < |o.children|
      ensures WellFormed(n.children[i], k)
    {
      RebaseKeepsWellFormed(o.children[i], g, sum, d + 1, k);
    }
  }

  /**
   optimistic_keepSubtree: the child of the recommended action becomes the root. A retained
   leaf child becomes a root leaf that keeps its record; otherwise the retained leaves get records
   measured from the new root, the counter restarts at the number of retained nodes below the
   root, the best leaf is found again by a depth-first sweep, and the next leaf is found by
   following the trajectoryIds. The root keeps its own closed flag.
   */
  function KeepSubtree(inst: Instance, g: real, k: nat): (r: Instance)
    requires Inv(inst, k) && ValidGamma(g)
    ensures inst.root.IsLeaf() ==> r == inst
    ensures !inst.root.IsLeaf() ==>
      var kept := inst.root.children[inst.best.action];
      && r.root.info == Info(0.0, inst.root.info.closed, kept.info.tid, kept.info.values)
      && (kept.IsLeaf() ==> r == Instance(Node(r.root.info, []), 0, Best(0.0, [], 0), Some([])))
      && (!kept.IsLeaf() ==> r.evaluations + 1 == Size(kept) && r.next == Some(TidWalk(r.root)))
  {
    if inst.root.IsLeaf() then inst
    else
      var kept := inst.root.children[inst.best.action];
      var info := Info(0.0, inst.root.info.closed, kept.info.tid, kept.info.values);
      if kept.IsLeaf() then Instance(Node(info, []), 0, Best(0.0, [], 0), Some([]))
      else
        var t := Node(info, RebaseAll(kept.children, g));
        var leaf := SweepBest(t, [], Choice(0.0, inst.best.leaf[1..])).leaf;
        KeptBestLeaf(inst, g, k);
        RetainedSize(inst, g, k);
        Instance(t, Size(t) - 1, Best(SumOf(Get(t, leaf)), leaf, leaf[0]), Some(TidWalk(t)))
  }

  /** The retained children are the kept child's children, rescaled. */
  lemma RetainedRescaled(inst: Instance, g: real, k: nat, s: real, d: nat, i: nat)
    requires Inv(inst, k) && ValidGamma(g) && RootConsistent(inst.root, g, s, d)
    requires !inst.root.IsLeaf() && !inst.root.children[inst.best.action].IsLeaf()
    requires i < |inst.root.children[inst.best.action].children|
    ensures var kept := inst.root.children[inst.best.action];
      Rescaled(kept.children[i], RebaseAll(kept.children, g)[i], ChildSum(g, s, d, kept), Pow(g, d + 1))
  {
    var kept := inst.root.children[inst.best.action];
    var sa := ChildSum(g, s, d, kept);
    assert ChildrenConsistent(inst.root.children, g, s, d);
    assert Consistent(kept, g, sa, d + 1);
    assert ChildrenConsistent(kept.children, g, sa, d + 1);
    var kc := kept.children[i];
    assert Consistent(kc, g, ChildSum(g, sa, d + 1, kc), d + 2);
    assert ChildSum(g, 0.0, 0, kc) == kc.info.reward;
    assert ChildSum(g, sa, d + 1, kc) == sa + Pow(g, d + 1) * ChildSum(g, 0.0, 0, kc);
    RebaseRescales(kc, g, 0.0, 0, d + 1, sa, ChildSum(g, sa, d + 1, kc), d + 2);
  }

  /** Without any base, the shape facts: every retained node is well formed and the size is kept. */
  lemma RetainedSize(inst: Instance, g: real, k: nat)
    requires Inv(inst, k) && ValidGamma(g)
    requires !inst.root.IsLeaf() && !inst.root.children[inst.best.action].IsLeaf()
    ensures var kept := inst.root.children[inst.best.action];
      var t := Node(Info(0.0, inst.root.info.closed, kept.info.tid, kept.info.values), RebaseAll(kept.children, g));
      Size(t) == Size(kept) && WellFormed(t, k)
  {
    var kept := inst.root.children[inst.best.action];
    var cs := RebaseAll(kept.children, g);
    var t := Node(Info(0.0, inst.root.info.closed, kept.info.tid, kept.info.values), cs);
    assert WellFormed(kept, k);
    forall i | 0 <= i < |cs|
      ensures Size(cs[i]) == Size(kept.children[i]) && WellFormed(cs[i], k)
    {
      assert WellFormed(kept.children[i], k);
      RebaseKeepsWellFormed(kept.children[i], g, 0.0, 0, k);
      RebaseSameShape(kept.children[i], g, 0.0, 0);
    }
    SizeOfPointwise(kept.children, cs);
  }

  /** Rebasing changes leaf records only: the tree keeps its shape and size. */
  lemma {:induction false} RebaseSameShape(o: Node, g: real, s: real, d: nat)
    requires g < 1.0
    ensures Size(Rebase(o, g, s, d)) == Size(o)
    ensures forall q :: IsLeafPath(o, q) ==> IsLeafPath(Rebase(o, g, s, d), q)
    decreases o
  {
    var n := Rebase(o, g, s, d);
    var sum := ChildSum(g, s, d, o);
    forall i | 0 <= i < |o.children|
      ensures Size(n.children[i]) == Size(o.children[i])
      ensures forall q :: IsLeafPath(o.children[i], q) ==> IsLeafPath(n.children[i], q)
    {
      RebaseSameShape(o.children[i], g, sum, d + 1);
    }
    SizeOfPointwise(o.children, n.children);
    forall q | IsLeafPath(o, q)
      ensures IsLeafPath(n, q)
    {
      if |q| > 0 {
        assert IsLeafPath(o.children[q[0]], q[1..]);
      }
    }
  }

  /** The best leaf after re-rooting: the sweep's choice, or the old best leaf re-addressed. */
  lemma KeptBestLeaf(inst: Instance, g: real, k: nat)
    requires Inv(inst, k) && ValidGamma(g)
    requires !inst.root.IsLeaf() && !inst.root.children[inst.best.action].IsLeaf()
    ensures var kept := inst.root.children[inst.best.action];
      var t := Node(Info(0.0, inst.root.info.closed, kept.info.tid, kept.info.values), RebaseAll(kept.children, g));
      var leaf := SweepBest(t, [], Choice(0.0, inst.best.leaf[1..])).leaf;
      && IsLeafPath(t, leaf) && |leaf| > 0 && leaf[0] < k
      && BestIsMax(t, Best(SumOf(Get(t, leaf)), leaf, leaf[0]))
  {
    var kept := inst.root.children[inst.best.action];
    var t := Node(Info(0.0, inst.root.info.closed, kept.info.tid, kept.info.values), RebaseAll(kept.children, g));
    var prev := inst.best.leaf;
    var acc := Choice(0.0, prev[1..]);
    RetainedSize(inst, g, k);
    var found, q := SweepBestSpec(t, [], acc);
    var r := SweepBest(t, [], acc);
    var leaf := r.leaf;
    if !found {
      assert prev == [prev[0]] + prev[1..];
      assert IsLeafPath(kept, prev[1..]);
      assert prev[1..] != [];
      var i := prev[1..][0];
      RebaseSameShape(kept.children[i], g, 0.0, 0);
      assert IsLeafPath(kept.children[i], prev[1..][1..]);
      assert IsLeafPath(t, prev[1..]);
    } else {
      assert [] + q == q;
    }
    WellFormedLeaf(t, k, leaf);
  }

  /**
   Re-rooting keeps the planner invariant, given leaf records that agree with the rewards; the
   records of the new tree agree with the rewards measured from the new root (or, when a leaf was
   kept, from that leaf's own record).
   */
  lemma KeepKeepsInv(inst: Instance, g: real, k: nat, s: real, d: nat) returns (s': real, d': nat)
    requires Inv(inst, k) && ValidGamma(g) && RootConsistent(inst.root, g, s, d)
    ensures Inv(KeepSubtree(inst, g, k), k)
    ensures RootConsistent(KeepSubtree(inst, g, k).root, g, s', d')
    ensures !inst.root.IsLeaf() && !inst.root.children[inst.best.action].IsLeaf() ==> s' == 0.0 && d' == 0
  {
    if inst.root.IsLeaf() {
      s', d' := s, d;
    } else if inst.root.children[inst.best.action].IsLeaf() {
      s', d' := KeepLeafKeepsInv(inst, g, k, s, d);
    } else {
      s', d' := 0.0, 0;
      KeepInternalKeepsInv(inst, g, k, s, d);
    }
  }

  /** A retained leaf keeps its own record, measured from the old root. */
  lemma KeepLeafKeepsInv(inst: Instance, g: real, k: nat, s: real, d: nat) returns (s': real, d': nat)
    requires Inv(inst, k) && ValidGamma(g) && RootConsistent(inst.root, g, s, d)
    requires !inst.root.IsLeaf() && inst.root.children[inst.best.action].IsLeaf()
    ensures Inv(KeepSubtree(inst, g, k), k)
    ensures RootConsistent(KeepSubtree(inst, g, k).root, g, s', d')
  {
    var kept := inst.root.children[inst.best.action];
    s', d' := ChildSum(g, s, d, kept), d + 1;
    assert ChildrenConsistent(inst.root.children, g, s, d);
    assert Consistent(kept, g, s', d');
    assert WellFormed(kept, k);
  }

  /** Retained internal nodes: records measured from the new root, every cache still valid. */
  lemma KeepInternalKeepsInv(inst: Instance, g: real, k: nat, s: real, d: nat)
    requires Inv(inst, k) && ValidGamma(g) && RootConsistent(inst.root, g, s, d)
    requires !inst.root.IsLeaf() && !inst.root.children[inst.best.action].IsLeaf()
    ensures Inv(KeepSubtree(inst, g, k), k)
    ensures RootConsistent(KeepSubtree(inst, g, k).root, g, 0.0, 0)
  {
    var kept := inst.root.children[inst.best.action];
    var sa := ChildSum(g, s, d, kept);
    var r := KeepSubtree(inst, g, k);
    var t := r.root;
    KeptBestLeaf(inst, g, k);
    RetainedSize(inst, g, k);
    PowPositive(g, d + 1);
    forall i | 0 <= i < |t.children|
      ensures Cached(t.children[i])
    {
      RetainedRescaled(inst, g, k, s, d, i);
      assert Cached(kept.children[i]) by {
        assert Cached(kept);
      }
      RescaledKeepsCached(kept.children[i], t.children[i], sa, Pow(g, d + 1));
    }
    TidWalkReachesLeaf(t, k);
  }

  /**
   optimistic_getMaxDepth: 0 for a root leaf, otherwise the sweep from the root's children, minus
   one; that is one less than the length of the longest path to a leaf.
   */
  function GetMaxDepth(inst: Instance): (d: nat)
    ensures d == if inst.root.IsLeaf() then 0 else Height(inst.root) - 1
  {
    if inst.root.IsLeaf() then 0
    else
      SweepChildrenIsHeight(inst.root.children, 0, 1, 0);
      SweepChildren(inst.root.children, 0, 1, 0) - 1
  }
}
