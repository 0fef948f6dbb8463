/**
 The UCT planner of algorithms/uct/uct.c (upper confidence bounds applied to trees, on a
 deterministic generative model).

 Every node counts its visits n (the number of nodes of its subtree), carries the discounted sum
 of the rewards leading to it, and caches two pointers into its subtree: the open leaf of largest
 sum (crtOptimalLeaf) and the next leaf to open (crtNextOpennedLeaf), reached through the child
 of largest UCB score. One expansion opens the root's next leaf (K calls to the generative
 model), then refreshes the caches of every ancestor, bottom-up.
 */
module Uct {
  import opened Trees
  import opened Discount

  /** UCT_MAX_DEPTH of the default build (builds with LIMITED_DEPTH use 512). */
  const DepthCeiling: nat := 32768

  /** The C library's sqrt and log, left uninterpreted. */
  datatype Maths = Maths(sqrt: real -> real, ln: real -> real)

  /**
   Per-node payload. `opt` and `next` are the crtOptimalLeaf and crtNextOpennedLeaf pointers, as
   paths relative to the node ([] is the node itself, which also stands for the root's initial
   NULL next pointer, never read while the root is a leaf).
   */
  datatype Info = Info(reward: real, sum: real, depth: nat, visits: nat, opt: Path, next: Path,
                       tid: nat, closed: bool)

  type Node = Tree<Info>

  /** The planner state; `next` is nextOpennedNode, a path from the root. */
  datatype Instance = Instance(root: Node, evaluations: nat, best: Best, next: Path)

  /*---------------------------------------------------------------------------------------------
    Scores
  ---------------------------------------------------------------------------------------------*/

  /** The sum of the node a child's crtOptimalLeaf designates. */
  function OptSum(c: Node): real {
    if ValidPath(c, c.info.opt) then Get(c, c.info.opt).info.sum else 0.0
  }

  /**
   How a node ranks its open children: the node just opened by its children's own sums
   (lines 161-171), an ancestor by the UCB score of line 197, with `bound` the bounds-table entry
   of the ancestor's depth and `visits` its updated visit count.
   */
  datatype Rule = BySum | ByUcb(bound: real, m: Maths, visits: nat)

  /** log(n) / n_child of line 197; a child has at least one visit (the 0 case is never taken). */
  function Ratio(m: Maths, visits: nat, childVisits: nat): real {
    if childVisits == 0 then 0.0 else m.ln(visits as real) / (childVisits as real)
  }

  function Score(rule: Rule, c: Node): real {
    match rule
    case BySum => OptSum(c)
    case ByUcb(bound, m, visits) => OptSum(c) + bound * m.sqrt(Ratio(m, visits, c.info.visits))
  }

  /** The rule an ancestor n applies, once its visit count has been updated. */
  function UcbRule(n: Node, g: real, m: Maths): Rule
    requires g < 1.0
  {
    ByUcb(Tail(g, n.info.depth), m, n.info.visits)
  }

  /*---------------------------------------------------------------------------------------------
    The cache invariant
  ---------------------------------------------------------------------------------------------*/

  predicate AllClosed(cs: seq<Node>) {
    forall i :: 0 <= i < |cs| ==> cs[i].info.closed
  }

  /** j is the first open child of largest score. */
  predicate IsFirstArgmax(cs: seq<Node>, j: nat, rule: Rule) {
    && j < |cs|
    && !cs[j].info.closed
    && (forall i :: 0 <= i < |cs| && !cs[i].info.closed ==> Score(rule, cs[i]) <= Score(rule, cs[j]))
    && (forall i :: 0 <= i < j && !cs[i].info.closed ==> Score(rule, cs[i]) < Score(rule, cs[j]))
  }

  /**
   An open internal node's pointers: crtOptimalLeaf goes through the first open child of largest
   optimal sum, crtNextOpennedLeaf through the open child named by trajectoryId.
   */
  predicate OpenCached(n: Node) {
    && |n.info.opt| > 0
    && IsFirstArgmax(n.children, n.info.opt[0], BySum)
    && n.info.opt == [n.info.opt[0]] + n.children[n.info.opt[0]].info.opt
    && n.info.tid < |n.children|
    && !n.children[n.info.tid].info.closed
    && n.info.next == [n.info.tid] + n.children[n.info.tid].info.next
  }

  /**
   The caches of one node: a leaf designates itself; an internal node is closed exactly when all
   its children are, and an open one satisfies OpenCached. A closed node keeps pointers that are
   stale but still designate nodes of its subtree.
   */
  predicate NodeCached(n: Node) {
    && ValidPath(n, n.info.opt)
    && (n.IsLeaf() ==> n.info.opt == [] && n.info.next == [])
    && (!n.IsLeaf() ==> (n.info.closed <==> AllClosed(n.children)) && (!n.info.closed ==> OpenCached(n)))
  }

  /** NodeCached at every node of t. */
  predicate Cached(t: Node)
    decreases t
  {
    NodeCached(t) && forall i :: 0 <= i < |t.children| ==> Cached(t.children[i])
  }

  /** Every node of t counts the nodes of its subtree. */
  predicate VisitsAreSizes(t: Node)
    decreases t
  {
    t.info.visits == Size(t) && forall i :: 0 <= i < |t.children| ==> VisitsAreSizes(t.children[i])
  }

  /**
   The sums along t agree with the rewards: t (entered at depth d) has sum s, and a child of a
   node of sum s at depth d has sum s + gamma^d * reward.
   */
  predicate SumsFrom(t: Node, g: real, s: real, d: nat)
    decreases t
  {
    && t.info.sum == s
    && forall i :: 0 <= i < |t.children| ==>
         SumsFrom(t.children[i], g, ChildSum(g, s, d, t.children[i]), d + 1)
  }

  /** The sum of a child c of a node of sum s at depth d. */
  function ChildSum(g: real, s: real, d: nat, c: Node): real {
    s + Pow(g, d) * c.info.reward
  }

  /** Leaves record their depth (internal nodes may not: re-rooting leaves their depth stale). */
  predicate LeafDepths(t: Node, d: nat)
    decreases t
  {
    && (t.IsLeaf() ==> t.info.depth == d)
    && forall i :: 0 <= i < |t.children| ==> LeafDepths(t.children[i], d + 1)
  }

  /** Shape and payload facts every reachable tree has. */
  predicate WellFormed(t: Node, k: nat)
    decreases t
  {
    && (|t.children| == 0 || |t.children| == k)
    && 0.0 <= t.info.reward <= 1.0
    && forall i :: 0 <= i < |t.children| ==> WellFormed(t.children[i], k)
  }

  /*---------------------------------------------------------------------------------------------
    Refreshing a node's caches (lines 138-144, 161-171 and 190-214)
  ---------------------------------------------------------------------------------------------*/

  /** The running state of the child scan: closed flag, the two pointers and their scores. */
  datatype Scan = Scan(closed: bool, tid: nat, next: Path, opt: Path, bound: real, optSum: real)

  /**
   One child of the scan: the first open child is taken for both pointers; a later one moves the
   next pointer when its score is strictly larger, and the optimal pointer when its optimal sum is.
   */
  function Visit(c: Node, i: nat, rule: Rule, acc: Scan): Scan {
    if c.info.closed then acc
    else if acc.closed then Scan(false, i, [i] + c.info.next, [i] + c.info.opt, Score(rule, c), OptSum(c))
    else
      var a := if Score(rule, c) > acc.bound then acc.(tid := i, next := [i] + c.info.next, bound := Score(rule, c)) else acc;
      if OptSum(c) > a.optSum then a.(opt := [i] + c.info.opt, optSum := OptSum(c)) else a
  }

  function ScanChildren(cs: seq<Node>, from: nat, rule: Rule, acc: Scan): Scan
    decreases |cs| - from
  {
    if from >= |cs| then acc else ScanChildren(cs, from + 1, rule, Visit(cs[from], from, rule, acc))
  }

  /** The next pointer after a scan of cs: the first open child of largest score. */
  predicate NextScanned(cs: seq<Node>, rule: Rule, acc: Scan) {
    && IsFirstArgmax(cs, acc.tid, rule)
    && acc.bound == Score(rule, cs[acc.tid])
    && acc.next == [acc.tid] + cs[acc.tid].info.next
  }

  /** The optimal pointer after a scan of cs: the first open child of largest optimal sum. */
  predicate OptScanned(cs: seq<Node>, acc: Scan) {
    && |acc.opt| > 0
    && IsFirstArgmax(cs, acc.opt[0], BySum)
    && acc.optSum == OptSum(cs[acc.opt[0]])
    && acc.opt == [acc.opt[0]] + cs[acc.opt[0]].info.opt
  }

  /** What the scan has established once it has looked at cs[..from]. */
  predicate ScanInv(cs: seq<Node>, from: nat, rule: Rule, acc: Scan, n0: Info) {
    && from <= |cs|
    && (acc.closed ==> AllClosed(cs[..from]) && acc.tid == n0.tid && acc.next == n0.next && acc.opt == n0.opt)
    && (!acc.closed ==> NextScanned(cs[..from], rule, acc) && OptScanned(cs[..from], acc))
  }

  lemma VisitNext(pre: seq<Node>, c: Node, rule: Rule, acc: Scan)
    requires !c.info.closed && !acc.closed && NextScanned(pre, rule, acc)
    ensures NextScanned(pre + [c], rule, Visit(c, |pre|, rule, acc))
  {
    var post := pre + [c];
    assert forall i :: 0 <= i < |pre| ==> post[i] == pre[i];
  }

  lemma VisitOpt(pre: seq<Node>, c: Node, rule: Rule, acc: Scan)
    requires !c.info.closed && !acc.closed && OptScanned(pre, acc)
    ensures OptScanned(pre + [c], Visit(c, |pre|, rule, acc))
  {
    var post := pre + [c];
    assert forall i :: 0 <= i < |pre| ==> post[i] == pre[i];
    var a := if Score(rule, c) > acc.bound then acc.(tid := |pre|, next := [|pre|] + c.info.next, bound := Score(rule, c)) else acc;
    assert a.opt == acc.opt && a.optSum == acc.optSum;
  }

  lemma VisitKeepsScanInv(cs: seq<Node>, from: nat, rule: Rule, acc: Scan, n0: Info)
    requires ScanInv(cs, from, rule, acc, n0) && from < |cs|
    ensures ScanInv(cs, from + 1, rule, Visit(cs[from], from, rule, acc), n0)
  {
    var c := cs[from];
    var pre, post := cs[..from], cs[..from + 1];
    assert post == pre + [c];
    if !c.info.closed && !acc.closed {
      VisitNext(pre, c, rule, acc);
      VisitOpt(pre, c, rule, acc);
    } else if !c.info.closed {
      assert forall i :: 0 <= i < from ==> post[i] == pre[i];
      assert post[from] == c;
    }
  }

  lemma {:induction false} ScanSteps(cs: seq<Node>, from: nat, rule: Rule, acc: Scan, n0: Info)
    requires ScanInv(cs, from, rule, acc, n0)
    ensures ScanInv(cs, |cs|, rule, ScanChildren(cs, from, rule, acc), n0)
    decreases |cs| - from
  {
    if from < |cs| {
      VisitKeepsScanInv(cs, from, rule, acc, n0);
      ScanSteps(cs, from + 1, rule, Visit(cs[from], from, rule, acc), n0);
    } else {
      assert cs[..from] == cs;
    }
  }

  /**
   The node's caches recomputed from its children: n is marked closed, then the scan runs; when
   every child is closed, trajectoryId and both pointers are left as they were.
   */
  function Refresh(n: Node, rule: Rule): (r: Node)
    ensures r.children == n.children
    ensures r.info == n.info.(closed := r.info.closed, tid := r.info.tid, next := r.info.next, opt := r.info.opt)
    ensures r.info.closed <==> AllClosed(n.children)
    ensures r.info.closed ==> r.info.tid == n.info.tid && r.info.next == n.info.next && r.info.opt == n.info.opt
    ensures !r.info.closed ==>
      && IsFirstArgmax(n.children, r.info.tid, rule)
      && r.info.next == [r.info.tid] + n.children[r.info.tid].info.next
      && |r.info.opt| > 0
      && IsFirstArgmax(n.children, r.info.opt[0], BySum)
      && r.info.opt == [r.info.opt[0]] + n.children[r.info.opt[0]].info.opt
  {
    var init := Scan(true, n.info.tid, n.info.next, n.info.opt, 0.0, 0.0);
    var s := ScanChildren(n.children, 0, rule, init);
    assert ScanInv(n.children, 0, rule, init, n.info);
    ScanSteps(n.children, 0, rule, init, n.info);
    assert n.children[..|n.children|] == n.children;
    Node(n.info.(closed := s.closed, tid := s.tid, next := s.next, opt := s.opt), n.children)
  }

  /*---------------------------------------------------------------------------------------------
    What the caches promise
  ---------------------------------------------------------------------------------------------*/

  /** A closed subtree has no open leaf. */
  lemma {:induction false} ClosedHasNoOpenLeaf(t: Node, q: Path)
    requires Cached(t) && t.info.closed && IsLeafPath(t, q)
    ensures Get(t, q).info.closed
    decreases |q|
  {
    if |q| > 0 {
      ClosedHasNoOpenLeaf(t.children[q[0]], q[1..]);
    }
  }

  /** An open node's two pointers both designate open leaves of its subtree. */
  lemma {:induction false} PointersAreOpenLeaves(t: Node)
    requires Cached(t) && !t.info.closed
    ensures IsLeafPath(t, t.info.opt) && !Get(t, t.info.opt).info.closed
    ensures IsLeafPath(t, t.info.next) && !Get(t, t.info.next).info.closed
    ensures OptSum(t) == Get(t, t.info.opt).info.sum
    decreases t
  {
    if !t.IsLeaf() {
      var j, l := t.info.opt[0], t.info.tid;
      PointersAreOpenLeaves(t.children[j]);
      PointersAreOpenLeaves(t.children[l]);
      assert t.info.opt[1..] == t.children[j].info.opt;
      assert t.info.next[1..] == t.children[l].info.next;
    }
  }

  /** An open node's crtOptimalLeaf is an open leaf of largest sum in its subtree. */
  lemma {:induction false} OptIsBestOpenLeaf(t: Node, q: Path)
    requires Cached(t) && !t.info.closed && IsLeafPath(t, q) && !Get(t, q).info.closed
    ensures Get(t, q).info.sum <= OptSum(t)
    decreases t
  {
    PointersAreOpenLeaves(t);
    if |q| > 0 {
      var c := t.children[q[0]];
      if c.info.closed {
        ClosedHasNoOpenLeaf(c, q[1..]);
        assert false;
      }
      var j := t.info.opt[0];
      var best := t.children[j];
      OptIsBestOpenLeaf(c, q[1..]);
      PointersAreOpenLeaves(best);
      assert t.info.opt[1..] == best.info.opt;
      assert OptSum(t) == OptSum(best);
    }
  }

  /*---------------------------------------------------------------------------------------------
    Expansion (buildingTrajectory, lines 132-221)
  ---------------------------------------------------------------------------------------------*/

  /** A new leaf below the leaf `parent` (lines 147-159, 180-184); its trajectoryId is never read. */
  function NewLeaf(parent: Info, o: Transition, g: real): Node {
    Node(Info(o.reward, parent.sum + Pow(g, parent.depth) * o.reward, parent.depth + 1, 1, [], [], 0,
              o.terminal || parent.depth == DepthCeiling - 1), [])
  }

  function NewLeaves(parent: Info, outs: seq<Transition>, g: real): seq<Node> {
    seq(|outs|, i requires 0 <= i < |outs| => NewLeaf(parent, outs[i], g))
  }

  /**
   Open the leaf at p with the outcomes of its K actions, then refresh the opened node (ranking
   its children by sum) and each of its ancestors (ranking by UCB score), bottom-up; every node
   on the way gains K visits.
   */
  function ExpandAt(t: Node, p: Path, outs: seq<Transition>, g: real, m: Maths): (r: Node)
    requires IsLeafPath(t, p) && g < 1.0
    ensures r.info == t.info.(visits := r.info.visits, closed := r.info.closed, tid := r.info.tid,
                              next := r.info.next, opt := r.info.opt)
    ensures r.info.visits == t.info.visits + |outs|
    ensures |r.children| == if |p| == 0 then |outs| else |t.children|
    ensures !r.info.closed ==> IsFirstArgmax(r.children, r.info.tid, if |p| == 0 then BySum else UcbRule(r, g, m))
    decreases |p|
  {
    if |p| == 0 then
      Refresh(Node(t.info.(visits := t.info.visits + |outs|, tid := 0), NewLeaves(t.info, outs, g)), BySum)
    else
      var i := p[0];
      Ancestor(t, i, ExpandAt(t.children[i], p[1..], outs, g, m), |outs|, g, m)
  }

  /** An ancestor after the expansion below its child i (now c): K more visits, caches refreshed. */
  function Ancestor(t: Node, i: nat, c: Node, k: nat, g: real, m: Maths): (r: Node)
    requires i < |t.children| && g < 1.0
    ensures r.children == t.children[i := c]
  {
    var n := Node(t.info.(visits := t.info.visits + k), t.children[i := c]);
    Refresh(n, UcbRule(n, g, m))
  }

  /**
   The opened leaf gets K new leaf children: one visit each, one level deeper, the sum of the
   recurrence, and closed exactly when the transition was terminal or the depth ceiling is met.
   */
  lemma {:induction false} ExpandOpensLeaf(t: Node, p: Path, outs: seq<Transition>, g: real, m: Maths)
    requires IsLeafPath(t, p) && g < 1.0
    ensures var r := ExpandAt(t, p, outs, g, m);
      && ValidPath(r, p)
      && Get(r, p).children == NewLeaves(Get(t, p).info, outs, g)
      && forall j :: 0 <= j < |outs| ==>
           var c, v := Get(r, p).children[j], Get(t, p).info;
           && c.IsLeaf() && c.info.visits == 1 && c.info.depth == v.depth + 1
           && c.info.sum == v.sum + Pow(g, v.depth) * outs[j].reward
           && (c.info.closed <==> outs[j].terminal || v.depth == DepthCeiling - 1)
    decreases |p|
  {
    if |p| > 0 {
      ExpandOpensLeaf(t.children[p[0]], p[1..], outs, g, m);
    }
  }

  /** Every path of t still leads somewhere, to a node with the same reward, sum and depth. */
  lemma {:induction false} ExpandKeepsPaths(t: Node, p: Path, outs: seq<Transition>, g: real, m: Maths, q: Path)
    requires IsLeafPath(t, p) && g < 1.0 && ValidPath(t, q)
    ensures var r := ExpandAt(t, p, outs, g, m);
      && ValidPath(r, q)
      && Get(r, q).info.reward == Get(t, q).info.reward
      && Get(r, q).info.sum == Get(t, q).info.sum
      && Get(r, q).info.depth == Get(t, q).info.depth
    decreases |p|
  {
    if |q| > 0 && |p| > 0 && q[0] == p[0] {
      ExpandKeepsPaths(t.children[p[0]], p[1..], outs, g, m, q[1..]);
    }
  }

  /** Every other leaf is left as it was. */
  lemma {:induction false} ExpandKeepsOtherLeaves(t: Node, p: Path, outs: seq<Transition>, g: real, m: Maths, q: Path)
    requires IsLeafPath(t, p) && g < 1.0 && IsLeafPath(t, q) && q != p
    ensures IsLeafPath(ExpandAt(t, p, outs, g, m), q)
    ensures Get(ExpandAt(t, p, outs, g, m), q) == Get(t, q)
    decreases |p|
  {
    if |p| == 0 {
      assert false;
    } else if |q| == 0 {
      assert false;
    } else if q[0] != p[0] {
    } else {
      assert q[1..] != p[1..] by {
        assert q == [q[0]] + q[1..] && p == [p[0]] + p[1..];
      }
      ExpandKeepsOtherLeaves(t.children[p[0]], p[1..], outs, g, m, q[1..]);
    }
  }

  /** Every leaf of the expanded tree is an old leaf other than p, or one of the new leaves. */
  lemma {:induction false} ExpandLeaves(t: Node, p: Path, outs: seq<Transition>, g: real, m: Maths, q: Path)
    requires IsLeafPath(t, p) && g < 1.0 && |outs| > 0 && IsLeafPath(ExpandAt(t, p, outs, g, m), q)
    ensures || (IsLeafPath(t, q) && q != p)
            || (|q| == |p| + 1 && q[..|p|] == p && q[|p|] < |outs|)
    decreases |p|
  {
    if |p| == 0 {
      var r := ExpandAt(t, p, outs, g, m);
      assert r.children == NewLeaves(t.info, outs, g);
      assert |q| > 0;
      assert r.children[q[0]] == NewLeaf(t.info, outs[q[0]], g);
      assert ValidPath(r.children[q[0]], q[1..]);
    } else if |q| > 0 && q[0] == p[0] {
      ExpandLeaves(t.children[p[0]], p[1..], outs, g, m, q[1..]);
      if IsLeafPath(t.children[p[0]], q[1..]) && q[1..] != p[1..] {
        assert q != p;
      } else {
        assert q == [q[0]] + q[1..] && p == [p[0]] + p[1..];
        assert q[..|p|] == [q[0]] + q[1..][..|p| - 1];
      }
    }
  }

  /** An expansion adds exactly the K new nodes. */
  lemma {:induction false} ExpandSize(t: Node, p: Path, outs: seq<Transition>, g: real, m: Maths)
    requires IsLeafPath(t, p) && g < 1.0
    ensures Size(ExpandAt(t, p, outs, g, m)) == Size(t) + |outs|
    decreases |p|
  {
    var r := ExpandAt(t, p, outs, g, m);
    if |p| == 0 {
      NewLeavesSize(t.info, outs, g, |outs|);
      assert r.children == NewLeaves(t.info, outs, g)[..|outs|];
    } else {
      var i := p[0];
      ExpandSize(t.children[i], p[1..], outs, g, m);
      SizeOfUpdate(t.children, i, ExpandAt(t.children[i], p[1..], outs, g, m));
    }
  }

  lemma {:induction false} NewLeavesSize(v: Info, outs: seq<Transition>, g: real, n: nat)
    requires n <= |outs|
    ensures SizeOf(NewLeaves(v, outs, g)[..n]) == n
  {
    if n > 0 {
      var cs := NewLeaves(v, outs, g);
      assert cs[..n][..n - 1] == cs[..n - 1];
      assert cs[..n][n - 1] == cs[n - 1];
      assert Size(cs[n - 1]) == 1 + SizeOf(cs[n - 1].children);
      NewLeavesSize(v, outs, g, n - 1);
    }
  }

  /** Visit counts stay the subtree sizes: each node on the path gains K visits and K nodes. */
  lemma {:induction false} ExpandKeepsVisits(t: Node, p: Path, outs: seq<Transition>, g: real, m: Maths)
    requires IsLeafPath(t, p) && g < 1.0 && VisitsAreSizes(t)
    ensures VisitsAreSizes(ExpandAt(t, p, outs, g, m))
    decreases |p|
  {
    var r := ExpandAt(t, p, outs, g, m);
    ExpandSize(t, p, outs, g, m);
    if |p| > 0 {
      ExpandKeepsVisits(t.children[p[0]], p[1..], outs, g, m);
    }
    assert forall i :: 0 <= i < |r.children| ==> VisitsAreSizes(r.children[i]);
  }

  /** The sums keep the recurrence, and leaves their depth, when the opened leaf has its own depth. */
  lemma {:induction false} ExpandKeepsSums(t: Node, p: Path, outs: seq<Transition>, g: real, m: Maths, s: real, d: nat)
    requires IsLeafPath(t, p) && g < 1.0 && SumsFrom(t, g, s, d) && LeafDepths(t, d)
    ensures SumsFrom(ExpandAt(t, p, outs, g, m), g, s, d) && LeafDepths(ExpandAt(t, p, outs, g, m), d)
    decreases |p|
  {
    var r := ExpandAt(t, p, outs, g, m);
    if |p| > 0 {
      var i := p[0];
      var c := t.children[i];
      ExpandKeepsSums(c, p[1..], outs, g, m, ChildSum(g, s, d, c), d + 1);
      assert ChildSum(g, s, d, r.children[i]) == ChildSum(g, s, d, c);
      assert forall j :: 0 <= j < |r.children| && j != i ==> r.children[j] == t.children[j];
    } else {
      assert forall j :: 0 <= j < |r.children| ==> SumsFrom(r.children[j], g, ChildSum(g, s, d, r.children[j]), d + 1);
    }
  }

  lemma {:induction false} ExpandKeepsWellFormed(t: Node, p: Path, outs: seq<Transition>, g: real, m: Maths, k: nat)
    requires IsLeafPath(t, p) && g < 1.0 && WellFormed(t, k)
    requires |outs| == k && forall i :: 0 <= i < |outs| ==> ValidTransition(outs[i])
    ensures WellFormed(ExpandAt(t, p, outs, g, m), k)
    decreases |p|
  {
    var r := ExpandAt(t, p, outs, g, m);
    if |p| > 0 {
      ExpandKeepsWellFormed(t.children[p[0]], p[1..], outs, g, m, k);
    }
    assert forall i :: 0 <= i < |r.children| ==> WellFormed(r.children[i], k);
  }

  /** The refreshed caches are valid again along the path, and untouched elsewhere. */
  lemma {:induction false} ExpandKeepsCached(t: Node, p: Path, outs: seq<Transition>, g: real, m: Maths)
    requires IsLeafPath(t, p) && g < 1.0 && Cached(t) && |outs| > 0
    ensures Cached(ExpandAt(t, p, outs, g, m))
    decreases |p|
  {
    if |p| > 0 {
      var i := p[0];
      ExpandKeepsCached(t.children[i], p[1..], outs, g, m);
      var c := ExpandAt(t.children[i], p[1..], outs, g, m);
      ExpandKeepsPaths(t, p, outs, g, m, t.info.opt);
      AncestorCached(t, i, c, |outs|, g, m);
    } else {
      var cs := NewLeaves(t.info, outs, g);
      assert forall j :: 0 <= j < |cs| ==> Cached(cs[j]);
      assert t.info.opt == [];
      RefreshedNodeCached(Refresh(Node(t.info.(visits := t.info.visits + |outs|, tid := 0), cs), BySum));
    }
  }

  /** One ancestor: its refreshed caches are valid once its expanded child's are. */
  lemma AncestorCached(t: Node, i: nat, c: Node, k: nat, g: real, m: Maths)
    requires i < |t.children| && g < 1.0 && Cached(t) && Cached(c)
    requires ValidPath(Node(t.info, t.children[i := c]), t.info.opt)
    ensures Cached(Ancestor(t, i, c, k, g, m))
  {
    var n := Node(t.info.(visits := t.info.visits + k), t.children[i := c]);
    var r := Refresh(n, UcbRule(n, g, m));
    assert forall j :: 0 <= j < |r.children| ==> Cached(r.children[j]);
    RefreshedNodeCached(r);
  }

  /** A refreshed internal node over cached children is cached, once its old pointer still leads somewhere. */
  lemma RefreshedNodeCached(r: Node)
    requires !r.IsLeaf() && forall j :: 0 <= j < |r.children| ==> Cached(r.children[j])
    requires r.info.closed <==> AllClosed(r.children)
    requires r.info.closed ==> ValidPath(r, r.info.opt)
    requires !r.info.closed ==>
      && r.info.tid < |r.children| && !r.children[r.info.tid].info.closed
      && r.info.next == [r.info.tid] + r.children[r.info.tid].info.next
      && |r.info.opt| > 0
      && IsFirstArgmax(r.children, r.info.opt[0], BySum)
      && r.info.opt == [r.info.opt[0]] + r.children[r.info.opt[0]].info.opt
    ensures Cached(r)
  {
    if !r.info.closed {
      var c := r.children[r.info.opt[0]];
      assert Cached(c);
      assert r.info.opt[1..] == c.info.opt;
    }
  }

  /*---------------------------------------------------------------------------------------------
    The best leaf (lines 141-142, 174-178)
  ---------------------------------------------------------------------------------------------*/

  /**
   The new leaves cs[from..] of the node at p are compared with the best so far: a sum at least
   as large replaces it, so on ties the last one wins; the action recorded is the first action
   on the path to the new best leaf.
   */
  function RecordFrom(b: Best, p: Path, cs: seq<Node>, from: nat): (r: Best)
    ensures r.value >= b.value
    ensures forall j :: from <= j < |cs| ==> cs[j].info.sum <= r.value
    ensures || r == b
            || exists j :: && from <= j < |cs| && r == Best(cs[j].info.sum, p + [j], (p + [j])[0])
                           && forall l :: j < l < |cs| ==> cs[l].info.sum < r.value
    ensures r == b && (forall l :: from <= l < |cs| ==> b.leaf != p + [l]) ==>
              forall l :: from <= l < |cs| ==> cs[l].info.sum < b.value
    decreases |cs| - from
  {
    if from >= |cs| then b
    else if cs[from].info.sum >= b.value then
      var b' := Best(cs[from].info.sum, p + [from], (p + [from])[0]);
      var r := RecordFrom(b', p, cs, from + 1);
      assert forall l :: from < l < |cs| ==> b'.leaf != p + [l] by {
        forall l | from < l < |cs|
          ensures p + [l] != b'.leaf
        {
          assert (p + [l])[|p|] == l;
        }
      }
      r
    else RecordFrom(b, p, cs, from + 1)
  }

  /** Opening the best leaf itself first resets the best value to -1, so one of its children takes over. */
  function RecordBest(b: Best, p: Path, cs: seq<Node>): Best {
    RecordFrom(if p == b.leaf then b.(value := -1.0) else b, p, cs, 0)
  }

  /**
   Lines 174-178 as written: the recorded action is the root's trajectoryId at that moment. While
   the root itself is being opened (p == []) that is the index of the best open child scanned so
   far, which is not the new best leaf's action when that leaf is closed.
   */
  function RecordFromAsWritten(b: Best, p: Path, cs: seq<Node>, from: nat, rootTid: nat): Best
    decreases |cs| - from
  {
    if from >= |cs| then b
    else if cs[from].info.sum >= b.value then
      var action := if |p| == 0 then ScanChildren(cs[..from + 1], 0, BySum, Scan(true, 0, [], [], 0.0, 0.0)).tid
                    else rootTid;
      RecordFromAsWritten(Best(cs[from].info.sum, p + [from], action), p, cs, from + 1, rootTid)
    else RecordFromAsWritten(b, p, cs, from + 1, rootTid)
  }

  function RecordBestAsWritten(b: Best, p: Path, cs: seq<Node>, rootTid: nat): Best {
    RecordFromAsWritten(if p == b.leaf then b.(value := -1.0) else b, p, cs, 0, rootTid)
  }

  /**
   Opening a fresh root whose first action yields 0.5 and whose second yields 0.9 on a terminal
   transition: the best leaf becomes the second child, yet the code as written records action 0;
   the corrected bookkeeping records action 1.
   */
  lemma RootExpansionMisreportsAction()
    ensures var root := Info(0.0, 0.0, 0, 1, [], [], 0, false);
      var cs := NewLeaves(root, [Transition(0.5, false), Transition(0.9, true)], 0.5);
      && RecordBestAsWritten(Best(0.0, [], 0), [], cs, 0) == Best(0.9, [1], 0)
      && RecordBest(Best(0.0, [], 0), [], cs) == Best(0.9, [1], 1)
  {
    var root := Info(0.0, 0.0, 0, 1, [], [], 0, false);
    var cs := NewLeaves(root, [Transition(0.5, false), Transition(0.9, true)], 0.5);
    assert cs[0].info.sum == 0.5 && !cs[0].info.closed && cs[0].info.opt == [];
    assert cs[1].info.sum == 0.9 && cs[1].info.closed;
    var init := Scan(true, 0, [], [], 0.0, 0.0);
    var first := Scan(false, 0, [0], [0], 0.5, 0.5);
    assert OptSum(cs[0]) == 0.5;
    assert Visit(cs[0], 0, BySum, init) == first;
    assert Visit(cs[1], 1, BySum, first) == first;
    assert cs[..2] == cs;
    assert ScanChildren(cs, 2, BySum, first) == first;
    assert ScanChildren(cs, 1, BySum, first) == first;
    assert ScanChildren(cs, 0, BySum, init) == first;
  }

  /*---------------------------------------------------------------------------------------------
    The planner
  ---------------------------------------------------------------------------------------------*/

  /** No open leaf of t has a sum above v. */
  ghost predicate AboveOpenLeaves(t: Node, v: real) {
    forall q :: IsLeafPath(t, q) && !Get(t, q).info.closed ==> Get(t, q).info.sum <= v
  }

  /** What holds between any two calls of the planner. */
  ghost predicate Inv(inst: Instance, k: nat, g: real) {
    && k >= 1
    && WellFormed(inst.root, k)
    && Cached(inst.root)
    && VisitsAreSizes(inst.root)
    && SumsFrom(inst.root, g, 0.0, 0)
    && LeafDepths(inst.root, 0)
    && inst.next == inst.root.info.next
    && ValidPath(inst.root, inst.best.leaf)
    && inst.best.value == Get(inst.root, inst.best.leaf).info.sum
    && inst.best.action < k
    && (inst.best.leaf != [] ==> inst.best.action == inst.best.leaf[0])
    && AboveOpenLeaves(inst.root, inst.best.value)
  }

  /** uct_resetInstance: a single open root leaf, visited once, of sum 0 at depth 0. */
  function Reset(k: nat, g: real): (r: Instance)
    requires k >= 1
    ensures Inv(r, k, g) && r.root.IsLeaf() && !r.root.info.closed && r.evaluations == 0
  {
    Instance(Node(Info(0.0, 0.0, 0, 1, [], [], 0, false), []), 0, Best(0.0, [], 0), [])
  }

  /** Rewards in [0, 1] and a positive gamma make every sum non-negative. */
  lemma {:induction false} SumsNonNegative(t: Node, g: real, s: real, d: nat, k: nat, q: Path)
    requires SumsFrom(t, g, s, d) && WellFormed(t, k) && ValidGamma(g) && s >= 0.0 && ValidPath(t, q)
    ensures Get(t, q).info.sum >= 0.0
    decreases |q|
  {
    if |q| > 0 {
      var c := t.children[q[0]];
      PowPositive(g, d);
      assert Pow(g, d) * c.info.reward >= 0.0;
      SumsNonNegative(c, g, ChildSum(g, s, d, c), d + 1, k, q[1..]);
    }
  }

  /** One call of buildingTrajectory: open the next leaf, record the best leaf, move the pointer. */
  function Step(inst: Instance, g: real, m: Maths, k: nat, sim: Simulator): (r: Instance)
    requires Inv(inst, k, g) && !inst.root.info.closed && ValidGamma(g) && ValidSimulator(sim)
    ensures Inv(r, k, g) && !r.root.IsLeaf()
    ensures r.evaluations == inst.evaluations + k
    ensures Size(r.root) == Size(inst.root) + k
    ensures !inst.root.IsLeaf() && !r.root.info.closed ==>
      IsFirstArgmax(r.root.children, r.root.info.tid, UcbRule(r.root, g, m))
  {
    PointersAreOpenLeaves(inst.root);
    var p := inst.next;
    var outs := Outcomes(sim, p, k);
    var t := ExpandAt(inst.root, p, outs, g, m);
    var b := RecordBest(inst.best, p, NewLeaves(Get(inst.root, p).info, outs, g));
    StepKeepsInv(inst, g, m, k, sim);
    ExpandSize(inst.root, p, outs, g, m);
    Instance(t, inst.evaluations + k, b, t.info.next)
  }

  lemma StepKeepsInv(inst: Instance, g: real, m: Maths, k: nat, sim: Simulator)
    requires Inv(inst, k, g) && !inst.root.info.closed && ValidGamma(g) && ValidSimulator(sim)
    ensures IsLeafPath(inst.root, inst.next)
    ensures var p := inst.next;
      var outs := Outcomes(sim, p, k);
      var t := ExpandAt(inst.root, p, outs, g, m);
      var b := RecordBest(inst.best, p, NewLeaves(Get(inst.root, p).info, outs, g));
      Inv(Instance(t, inst.evaluations + k, b, t.info.next), k, g) && !t.IsLeaf()
  {
    var root := inst.root;
    PointersAreOpenLeaves(root);
    var p := inst.next;
    var outs := Outcomes(sim, p, k);
    assert forall i :: 0 <= i < |outs| ==> ValidTransition(outs[i]);
    var t := ExpandAt(root, p, outs, g, m);
    ExpandKeepsWellFormed(root, p, outs, g, m, k);
    ExpandKeepsCached(root, p, outs, g, m);
    ExpandKeepsVisits(root, p, outs, g, m);
    ExpandKeepsSums(root, p, outs, g, m, 0.0, 0);
    ExpandOpensLeaf(root, p, outs, g, m);
    StepKeepsBest(inst, g, m, k, outs);
  }

  /** The new leaves are leaves of the expanded tree, none of smaller sum than the opened leaf. */
  lemma NewLeavesInTree(root: Node, p: Path, outs: seq<Transition>, g: real, m: Maths)
    requires IsLeafPath(root, p) && ValidGamma(g)
    requires forall i :: 0 <= i < |outs| ==> ValidTransition(outs[i])
    ensures var cs := NewLeaves(Get(root, p).info, outs, g);
      var t := ExpandAt(root, p, outs, g, m);
      forall j :: 0 <= j < |cs| ==>
        IsLeafPath(t, p + [j]) && Get(t, p + [j]) == cs[j] && cs[j].info.sum >= Get(root, p).info.sum
  {
    var v := Get(root, p).info;
    var cs := NewLeaves(v, outs, g);
    var t := ExpandAt(root, p, outs, g, m);
    ExpandOpensLeaf(root, p, outs, g, m);
    forall j | 0 <= j < |cs|
      ensures IsLeafPath(t, p + [j]) && Get(t, p + [j]) == cs[j] && cs[j].info.sum >= v.sum
    {
      GetAppend(t, p, j);
      PowPositive(g, v.depth);
      assert Pow(g, v.depth) * outs[j].reward >= 0.0;
    }
  }

  /** The best-leaf bookkeeping of an expansion keeps the best leaf above every open leaf. */
  lemma StepKeepsBest(inst: Instance, g: real, m: Maths, k: nat, outs: seq<Transition>)
    requires Inv(inst, k, g) && ValidGamma(g) && IsLeafPath(inst.root, inst.next)
    requires !Get(inst.root, inst.next).info.closed
    requires |outs| == k && forall i :: 0 <= i < |outs| ==> ValidTransition(outs[i])
    ensures var root, p := inst.root, inst.next;
      var t := ExpandAt(root, p, outs, g, m);
      var b := RecordBest(inst.best, p, NewLeaves(Get(root, p).info, outs, g));
      && ValidPath(t, b.leaf) && b.value == Get(t, b.leaf).info.sum
      && b.action < k && (b.leaf != [] ==> b.action == b.leaf[0])
      && AboveOpenLeaves(t, b.value)
  {
    var root, p, prev := inst.root, inst.next, inst.best;
    var cs := NewLeaves(Get(root, p).info, outs, g);
    var t := ExpandAt(root, p, outs, g, m);
    NewLeavesInTree(root, p, outs, g, m);
    ExpandKeepsPaths(root, p, outs, g, m, prev.leaf);
    SumsNonNegative(root, g, 0.0, 0, k, p);
    forall q | IsLeafPath(t, q) && !Get(t, q).info.closed
      ensures || (IsLeafPath(root, q) && q != p && Get(t, q) == Get(root, q))
              || (|q| == |p| + 1 && q[..|p|] == p && q[|p|] < |cs|)
    {
      ExpandLeaves(root, p, outs, g, m, q);
      if IsLeafPath(root, q) && q != p {
        ExpandKeepsOtherLeaves(root, p, outs, g, m, q);
      }
    }
    assert |p| > 0 ==> p[0] < k;
    BestAfterOpening(root, t, p, cs, k, prev);
  }

  /**
   The same, stated for any tree t in which the open leaf p of root has been replaced by the
   leaves cs, every other open leaf being left alone.
   */
  lemma BestAfterOpening(root: Node, t: Node, p: Path, cs: seq<Node>, k: nat, prev: Best)
    requires IsLeafPath(root, p) && Get(root, p).info.sum >= 0.0 && |cs| == k >= 1 && (|p| > 0 ==> p[0] < k)
    requires ValidPath(root, prev.leaf) && prev.value == Get(root, prev.leaf).info.sum
    requires ValidPath(t, prev.leaf) && Get(t, prev.leaf).info.sum == prev.value
    requires prev.action < k && (prev.leaf != [] ==> prev.action == prev.leaf[0])
    requires AboveOpenLeaves(root, prev.value)
    requires forall j :: 0 <= j < |cs| ==>
      IsLeafPath(t, p + [j]) && Get(t, p + [j]) == cs[j] && cs[j].info.sum >= Get(root, p).info.sum
    requires forall q :: IsLeafPath(t, q) && !Get(t, q).info.closed ==>
      || (IsLeafPath(root, q) && q != p && Get(t, q) == Get(root, q))
      || (|q| == |p| + 1 && q[..|p|] == p && q[|p|] < |cs|)
    ensures var b := RecordBest(prev, p, cs);
      && ValidPath(t, b.leaf) && b.value == Get(t, b.leaf).info.sum
      && b.action < k && (b.leaf != [] ==> b.action == b.leaf[0])
      && AboveOpenLeaves(t, b.value)
  {
    var b := RecordBest(prev, p, cs);
    BestLeafAfterOpening(root, t, p, cs, k, prev);
    forall q | IsLeafPath(t, q) && !Get(t, q).info.closed
      ensures Get(t, q).info.sum <= b.value
    {
      OpenLeafBelow(root, t, p, cs, prev.value, b.value, q);
    }
  }

  /** One open leaf of the expanded tree: an old open leaf or one of the new children. */
  lemma OpenLeafBelow(root: Node, t: Node, p: Path, cs: seq<Node>, was: real, v: real, q: Path)
    requires v >= was && AboveOpenLeaves(root, was)
    requires forall j :: 0 <= j < |cs| ==> cs[j].info.sum <= v
    requires forall j :: 0 <= j < |cs| ==> ValidPath(t, p + [j]) && Get(t, p + [j]) == cs[j]
    requires ValidPath(t, q)
    requires || (IsLeafPath(root, q) && q != p && Get(t, q) == Get(root, q) && !Get(root, q).info.closed)
             || (|q| == |p| + 1 && q[..|p|] == p && q[|p|] < |cs|)
    ensures Get(t, q).info.sum <= v
  {
    if IsLeafPath(root, q) && q != p && Get(t, q) == Get(root, q) && !Get(root, q).info.closed {
    } else {
      var j := q[|p|];
      assert q == p + [j];
    }
  }

  lemma BestLeafAfterOpening(root: Node, t: Node, p: Path, cs: seq<Node>, k: nat, prev: Best)
    requires IsLeafPath(root, p) && Get(root, p).info.sum >= 0.0 && |cs| == k >= 1 && (|p| > 0 ==> p[0] < k)
    requires ValidPath(root, prev.leaf) && prev.value == Get(root, prev.leaf).info.sum
    requires ValidPath(t, prev.leaf) && Get(t, prev.leaf).info.sum == prev.value
    requires prev.action < k && (prev.leaf != [] ==> prev.action == prev.leaf[0])
    requires forall j :: 0 <= j < |cs| ==>
      IsLeafPath(t, p + [j]) && Get(t, p + [j]) == cs[j] && cs[j].info.sum >= Get(root, p).info.sum
    ensures var b := RecordBest(prev, p, cs);
      && ValidPath(t, b.leaf) && b.value == Get(t, b.leaf).info.sum
      && b.action < k && (b.leaf != [] ==> b.action == b.leaf[0])
      && b.value >= prev.value
      && forall j :: 0 <= j < |cs| ==> cs[j].info.sum <= b.value
  {
    var start := if p == prev.leaf then prev.(value := -1.0) else prev;
    var b := RecordBest(prev, p, cs);
    assert b.value >= cs[0].info.sum >= Get(root, p).info.sum;
    assert b.value >= prev.value by {
      if p == prev.leaf {
        assert prev.value == Get(root, p).info.sum;
      }
    }
    if b != start {
      var j :| 0 <= j < |cs| && b == Best(cs[j].info.sum, p + [j], (p + [j])[0]);
    }
  }

  /**
   uct_planning: open leaves until the budget is reached or the root is closed. The returned
   action is `best.action`.
   */
  function Plan(inst: Instance, budget: nat, g: real, m: Maths, k: nat, sim: Simulator): (r: Instance)
    requires Inv(inst, k, g) && ValidGamma(g) && ValidSimulator(sim)
    ensures Inv(r, k, g)
    ensures r.evaluations >= budget || r.root.info.closed
    ensures inst.evaluations <= r.evaluations
    ensures inst.evaluations < budget ==> r.evaluations < budget + k
    ensures inst.evaluations >= budget || inst.root.info.closed ==> r == inst
    ensures r.evaluations - inst.evaluations == Size(r.root) - Size(inst.root)
    decreases budget - inst.evaluations
  {
    if inst.evaluations < budget && !inst.root.info.closed then Plan(Step(inst, g, m, k, sim), budget, g, m, k, sim)
    else inst
  }

  /** Total visit count of a sequence of nodes. */
  function VisitsOf(cs: seq<Node>): nat {
    if |cs| == 0 then 0 else VisitsOf(cs[..|cs| - 1]) + cs[|cs| - 1].info.visits
  }

  /**
   The visit counts of lines 115, 140 and 189-193: every node of a reachable tree is visited once
   more than all its children together.
   */
  lemma VisitsCountChildren(t: Node)
    requires VisitsAreSizes(t)
    ensures t.info.visits == 1 + VisitsOf(t.children)
  {
    ChildVisitsAreSizes(t.children);
  }

  lemma {:induction false} ChildVisitsAreSizes(cs: seq<Node>)
    requires forall i :: 0 <= i < |cs| ==> VisitsAreSizes(cs[i])
    ensures VisitsOf(cs) == SizeOf(cs)
    decreases |cs|
  {
    if |cs| > 0 {
      ChildVisitsAreSizes(cs[..|cs| - 1]);
    }
  }

  /*---------------------------------------------------------------------------------------------
    Re-rooting (uct_keepSubtree, updateValues, updateCrtOptimalAction: lines 236-327)
  ---------------------------------------------------------------------------------------------*/

  /**
   updateValues on one retained node t below the new root: t is a child of a node of new sum s
   at depth d, so its sum becomes ChildSum(g, s, d, t). A leaf also gets its new depth d + 1; an
   internal node keeps its old, now stale, depth (only leaves are written, lines 243-252).
   */
  function Rebase(t: Node, g: real, s: real, d: nat): (r: Node)
    ensures |r.children| == |t.children|
    ensures r.info == t.info.(sum := r.info.sum, depth := r.info.depth)
    ensures r.IsLeaf() ==> r.info.depth == d + 1
    ensures !r.IsLeaf() ==> r.info.depth == t.info.depth
    ensures SumsFrom(r, g, ChildSum(g, s, d, t), d + 1) && LeafDepths(r, d + 1)
    decreases t
  {
    var sum := ChildSum(g, s, d, t);
    var cs := seq(|t.children|, i requires 0 <= i < |t.children| => Rebase(t.children[i], g, sum, d + 1));
    assert forall i :: 0 <= i < |cs| ==> ChildSum(g, sum, d + 1, cs[i]) == ChildSum(g, sum, d + 1, t.children[i]);
    Node(t.info.(sum := sum, depth := if t.IsLeaf() then d + 1 else t.info.depth), cs)
  }

  /** The kept child's children, rebased below a new root of sum 0 at depth 0. */
  function RebaseAll(cs: seq<Node>, g: real): (rs: seq<Node>)
    ensures |rs| == |cs|
    ensures forall i :: 0 <= i < |cs| ==> SumsFrom(rs[i], g, ChildSum(g, 0.0, 0, cs[i]), 1) && LeafDepths(rs[i], 1)
  {
    seq(|cs|, i requires 0 <= i < |cs| => Rebase(cs[i], g, 0.0, 0))
  }

  /**
   n is o measured from another root: same shape, visits, flags and pointers, the same rewards
   below the top, and every sum of o is c + m times the sum of the same node in n.
   */
  predicate Rescaled(o: Node, n: Node, c: real, m: real)
    decreases o
  {
    && |o.children| == |n.children|
    && o.info.visits == n.info.visits
    && o.info.opt == n.info.opt
    && o.info.next == n.info.next
    && o.info.tid == n.info.tid
    && o.info.closed == n.info.closed
    && o.info.sum == Scale(c, m, n.info.sum)
    && forall i :: 0 <= i < |o.children| ==>
         o.children[i].info.reward == n.children[i].info.reward && Rescaled(o.children[i], n.children[i], c, m)
  }

  /** Below a node of old depth d + 2, rebasing from depth d rescales every sum by gamma. */
  lemma {:induction false} RebaseRescales(o: Node, g: real, s: real, d: nat, c: real)
    requires SumsFrom(o, g, Scale(c, g, ChildSum(g, s, d, o)), d + 2)
    ensures Rescaled(o, Rebase(o, g, s, d), c, g)
    decreases o
  {
    var n := Rebase(o, g, s, d);
    var sn := ChildSum(g, s, d, o);
    var so := Scale(c, g, sn);
    forall i | 0 <= i < |o.children|
      ensures o.children[i].info.reward == n.children[i].info.reward
      ensures Rescaled(o.children[i], n.children[i], c, g)
    {
      var oc := o.children[i];
      assert SumsFrom(oc, g, ChildSum(g, so, d + 2, oc), d + 3);
      assert Pow(g, d + 2) == g * Pow(g, d + 1);
      AffineStep(c, g, sn, Pow(g, d + 1), oc.info.reward);
      assert ChildSum(g, so, d + 2, oc) == Scale(c, g, ChildSum(g, sn, d + 1, oc));
      assert n.children[i] == Rebase(oc, g, sn, d + 1);
      RebaseRescales(oc, g, sn, d + 1, c);
    }
  }

  /** Rescaling keeps paths, and the node at the end of a path is rescaled too. */
  lemma {:induction false} RescaledPath(o: Node, n: Node, c: real, m: real, q: Path)
    requires Rescaled(o, n, c, m) && ValidPath(o, q)
    ensures ValidPath(n, q) && Rescaled(Get(o, q), Get(n, q), c, m)
    ensures |Get(o, q).children| == |Get(n, q).children|
    decreases |q|
  {
    if |q| > 0 {
      RescaledPath(o.children[q[0]], n.children[q[0]], c, m, q[1..]);
    }
  }

  /** A node's optimal sum is rescaled with the leaf its crtOptimalLeaf designates. */
  lemma RescaledOptSum(o: Node, n: Node, c: real, m: real)
    requires Rescaled(o, n, c, m) && ValidPath(o, o.info.opt)
    ensures OptSum(o) == Scale(c, m, OptSum(n))
  {
    RescaledPath(o, n, c, m, o.info.opt);
  }

  /** The first open child of largest optimal sum survives a positive rescaling. */
  lemma ArgmaxRescaled(os: seq<Node>, ns: seq<Node>, c: real, m: real, j: nat)
    requires m > 0.0 && |os| == |ns| && IsFirstArgmax(os, j, BySum)
    requires forall i :: 0 <= i < |os| ==> os[i].info.closed == ns[i].info.closed
    requires forall i :: 0 <= i < |os| ==> OptSum(os[i]) == Scale(c, m, OptSum(ns[i]))
    ensures IsFirstArgmax(ns, j, BySum)
  {
    forall i | 0 <= i < |ns| && !ns[i].info.closed
      ensures OptSum(ns[i]) <= OptSum(ns[j])
      ensures i < j ==> OptSum(ns[i]) < OptSum(ns[j])
    {
      ScaleOrder(c, m, OptSum(ns[i]), OptSum(ns[j]));
    }
  }

  /** The caches depend on the sums only through their order, which a positive rescaling keeps. */
  lemma {:induction false} RescaledKeepsCached(o: Node, n: Node, c: real, m: real)
    requires m > 0.0 && Rescaled(o, n, c, m) && Cached(o)
    ensures Cached(n)
    decreases o
  {
    forall i | 0 <= i < |o.children|
      ensures Cached(n.children[i])
    {
      RescaledKeepsCached(o.children[i], n.children[i], c, m);
    }
    RescaledNodeCached(o, n, c, m);
  }

  lemma RescaledNodeCached(o: Node, n: Node, c: real, m: real)
    requires m > 0.0 && Rescaled(o, n, c, m) && Cached(o)
    ensures NodeCached(n)
  {
    RescaledPath(o, n, c, m, o.info.opt);
    if !o.IsLeaf() {
      var os, ns := o.children, n.children;
      forall i | 0 <= i < |os|
        ensures os[i].info.closed == ns[i].info.closed && os[i].info.opt == ns[i].info.opt
        ensures os[i].info.next == ns[i].info.next
        ensures OptSum(os[i]) == Scale(c, m, OptSum(ns[i]))
      {
        assert Rescaled(os[i], ns[i], c, m);
        assert NodeCached(os[i]);
        RescaledOptSum(os[i], ns[i], c, m);
      }
      assert AllClosed(os) <==> AllClosed(ns);
      if !n.info.closed {
        ArgmaxRescaled(os, ns, c, m, o.info.opt[0]);
      }
    }
  }

  /** Rescaling keeps sizes, visit counts and well-formedness. */
  lemma {:induction false} RescaledShape(o: Node, n: Node, c: real, m: real, k: nat)
    requires Rescaled(o, n, c, m)
    ensures Size(n) == Size(o)
    ensures VisitsAreSizes(o) ==> VisitsAreSizes(n)
    ensures WellFormed(o, k) && 0.0 <= n.info.reward <= 1.0 ==> WellFormed(n, k)
    decreases o
  {
    forall i | 0 <= i < |o.children|
      ensures Size(o.children[i]) == Size(n.children[i])
      ensures VisitsAreSizes(o.children[i]) ==> VisitsAreSizes(n.children[i])
      ensures WellFormed(o.children[i], k) && 0.0 <= n.children[i].info.reward <= 1.0 ==> WellFormed(n.children[i], k)
    {
      RescaledShape(o.children[i], n.children[i], c, m, k);
    }
    SizeOfPointwise(o.children, n.children);
    if WellFormed(o, k) && 0.0 <= n.info.reward <= 1.0 {
      forall i | 0 <= i < |n.children|
        ensures WellFormed(n.children[i], k)
      {
        assert WellFormed(o.children[i], k) && o.children[i].info.reward == n.children[i].info.reward;
      }
    }
  }

  /**
   updateCrtOptimalAction as written: the action is read from the child of the root on the way
   to crtOptimalLeaf, found by climbing while the father has a father.
   */
  function RecommendedAction(leaf: Path): (a: nat)
    ensures leaf != [] ==> a == leaf[0]
  {
    if leaf == [] then 0 else leaf[0]
  }

  /** The retained tree: the kept child with a zero reward, sum and depth over its rebased children. */
  function Retained(kept: Node, g: real): (t: Node)
    ensures t.info == kept.info.(reward := 0.0, sum := 0.0, depth := 0)
    ensures SumsFrom(t, g, 0.0, 0) && LeafDepths(t, 0)
  {
    var t := Node(kept.info.(reward := 0.0, sum := 0.0, depth := 0), RebaseAll(kept.children, g));
    assert forall i :: 0 <= i < |t.children| ==> ChildSum(g, 0.0, 0, t.children[i]) == ChildSum(g, 0.0, 0, kept.children[i]);
    t
  }

  /**
   uct_keepSubtree: the child of the recommended action becomes the root (reward, sum and depth 0,
   every other field inherited, the closed flag included), the siblings are dropped, the retained
   sums are measured from the new root, and the counter restarts at the number of retained nodes
   below the root. The best leaf is the new root's crtOptimalLeaf, and the next leaf its
   crtNextOpennedLeaf. A root leaf is left alone.
   */
  function KeepSubtree(inst: Instance, g: real, k: nat): (r: Instance)
    requires Inv(inst, k, g) && ValidGamma(g)
    ensures inst.root.IsLeaf() ==> r == inst
    ensures !inst.root.IsLeaf() ==>
      var kept := inst.root.children[inst.best.action];
      && r.root == Retained(kept, g)
      && r.evaluations + 1 == Size(kept)
      && Size(r.root) == Size(kept)
      && r.next == kept.info.next
      && r.best.leaf == kept.info.opt
      && (kept.IsLeaf() ==> r == Instance(Node(r.root.info, []), 0, Best(0.0, [], 0), []))
  {
    if inst.root.IsLeaf() then inst
    else
      var kept := inst.root.children[inst.best.action];
      var t := Retained(kept, g);
      RetainedRescaled(inst, g, k);
      var leaf := kept.info.opt;
      Instance(t, Size(t) - 1, Best(Get(t, leaf).info.sum, leaf, RecommendedAction(leaf)), t.info.next)
  }

  /**
   The retained tree is the kept child measured from a new root: same shape, and every sum of the
   kept child is its old sum c plus gamma times the new one.
   */
  lemma RetainedRescaled(inst: Instance, g: real, k: nat)
    requires Inv(inst, k, g) && ValidGamma(g) && !inst.root.IsLeaf()
    ensures var kept := inst.root.children[inst.best.action];
      && Rescaled(kept, Retained(kept, g), kept.info.sum, g)
      && Size(Retained(kept, g)) == Size(kept)
      && Cached(Retained(kept, g))
      && VisitsAreSizes(Retained(kept, g))
      && WellFormed(Retained(kept, g), k)
  {
    var kept := inst.root.children[inst.best.action];
    var c := kept.info.sum;
    var t := Retained(kept, g);
    assert SumsFrom(kept, g, ChildSum(g, 0.0, 0, kept), 1);
    RetainedRescales(kept, g);
    assert Cached(kept) && VisitsAreSizes(kept) && WellFormed(kept, k);
    RescaledShape(kept, t, c, g, k);
    RescaledKeepsCached(kept, t, c, g);
  }

  /** A node at depth 1 (any child of the root), re-rooted, is rescaled by its own sum and gamma. */
  lemma RetainedRescales(kept: Node, g: real)
    requires SumsFrom(kept, g, kept.info.sum, 1)
    ensures Rescaled(kept, Retained(kept, g), kept.info.sum, g)
  {
    var c := kept.info.sum;
    var t := Retained(kept, g);
    assert Pow(g, 1) == g;
    forall i | 0 <= i < |kept.children|
      ensures kept.children[i].info.reward == t.children[i].info.reward
      ensures Rescaled(kept.children[i], t.children[i], c, g)
    {
      var kc := kept.children[i];
      assert SumsFrom(kc, g, ChildSum(g, c, 1, kc), 2);
      assert ChildSum(g, c, 1, kc) == Scale(c, g, ChildSum(g, 0.0, 0, kc));
      RebaseRescales(kc, g, 0.0, 0, c);
    }
  }

  /** Re-rooting keeps the planner invariant. */
  lemma KeepKeepsInv(inst: Instance, g: real, k: nat)
    requires Inv(inst, k, g) && ValidGamma(g)
    ensures Inv(KeepSubtree(inst, g, k), k, g)
  {
    if !inst.root.IsLeaf() {
      var kept := inst.root.children[inst.best.action];
      var r := KeepSubtree(inst, g, k);
      var t := r.root;
      RetainedRescaled(inst, g, k);
      assert t == Retained(kept, g);
      if !t.info.closed {
        forall q | IsLeafPath(t, q) && !Get(t, q).info.closed
          ensures Get(t, q).info.sum <= r.best.value
        {
          OptIsBestOpenLeaf(t, q);
          PointersAreOpenLeaves(t);
        }
      } else {
        forall q | IsLeafPath(t, q)
          ensures Get(t, q).info.closed
        {
          ClosedHasNoOpenLeaf(t, q);
        }
      }
    }
  }

  /**
   Every retained node keeps its place: a path of the kept child (any child of the root, at depth
   1) leads to a node of the new root with the same visits, whose sum measured from the old root
   is the kept child's sum plus gamma times the new one; a retained leaf's depth is its distance
   from the new root.
   */
  lemma {:induction false} RetainedNode(kept: Node, g: real, q: Path)
    requires SumsFrom(kept, g, kept.info.sum, 1) && ValidPath(kept, q)
    ensures var t := Retained(kept, g);
      && ValidPath(t, q)
      && Get(kept, q).info.sum == kept.info.sum + g * Get(t, q).info.sum
      && Get(kept, q).info.visits == Get(t, q).info.visits
      && (Get(t, q).IsLeaf() ==> Get(t, q).info.depth == |q|)
  {
    var t := Retained(kept, g);
    RetainedRescales(kept, g);
    RescaledNodeAt(kept, t, kept.info.sum, g, q);
    RetainedLeafDepth(kept, g, q);
  }

  lemma RetainedLeafDepth(kept: Node, g: real, q: Path)
    requires ValidPath(Retained(kept, g), q)
    ensures Get(Retained(kept, g), q).IsLeaf() ==> Get(Retained(kept, g), q).info.depth == |q|
  {
    LeafDepthAlong(Retained(kept, g), 0, q);
  }

  lemma RescaledNodeAt(o: Node, n: Node, c: real, m: real, q: Path)
    requires Rescaled(o, n, c, m) && ValidPath(o, q)
    ensures ValidPath(n, q)
    ensures Get(o, q).info.sum == c + m * Get(n, q).info.sum
    ensures Get(o, q).info.visits == Get(n, q).info.visits
  {
    RescaledPath(o, n, c, m, q);
  }

  /** A leaf of a tree whose leaves record their depth from d sits at depth d + |q|. */
  lemma {:induction false} LeafDepthAlong(t: Node, d: nat, q: Path)
    requires LeafDepths(t, d) && ValidPath(t, q)
    ensures Get(t, q).IsLeaf() ==> Get(t, q).info.depth == d + |q|
    decreases |q|
  {
    if |q| > 0 {
      LeafDepthAlong(t.children[q[0]], d + 1, q[1..]);
    }
  }

  /**
   Lines 315-321 as written, for an internal kept child. When that child is closed and its
   crtOptimalLeaf is the child itself (every child it got was closed at once), the new root's
   crtOptimalLeaf is the child's old record, which is not a node of the new tree: the value
   recorded is the kept child's sum measured from the old root, and updateCrtOptimalAction stops
   at once on that record (its father, the root, has no father) and returns its index among the
   old root's children.
   */
  function KeptBestAsWritten(inst: Instance, g: real, k: nat): Best
    requires Inv(inst, k, g) && ValidGamma(g) && !inst.root.IsLeaf()
  {
    var kept := inst.root.children[inst.best.action];
    if kept.IsLeaf() then Best(0.0, [], 0)
    else if kept.info.opt == [] then Best(kept.info.sum, [], inst.best.action)
    else
      RetainedRescaled(inst, g, k);
      var t := Retained(kept, g);
      Best(Get(t, kept.info.opt).info.sum, kept.info.opt, kept.info.opt[0])
  }

  /** The generative model of the scenario below: both root actions open, every later one terminal. */
  function ClosingSim(): Simulator {
    p => if p == [0] then Transition(0.5, false)
         else if p == [1] then Transition(0.9, false)
         else Transition(0.1, true)
  }

  /** Any sqrt and log will do: the scenario below never compares two UCB scores. */
  function AnyMaths(): Maths {
    Maths(x => x, x => x)
  }

  /**
   K = 2, gamma = 0.5: the root is opened (sums 0.5 and 0.9), then its second child, whose two
   children are terminal. The second child is now the best action, closed, and its
   crtOptimalLeaf is itself. Re-rooting there, the code as written records the value 0.9 for a
   best leaf whose sum in the new tree is 0, and action 1; the corrected bookkeeping records the
   new root itself, value 0 and action 0, as the kept-leaf branch does.
   */
  lemma KeptClosedChildLosesBestLeaf()
    ensures var i2 := ScenarioTwoSteps();
      && !i2.root.IsLeaf() && i2.best.action == 1
      && i2.root.children[1].info.closed && i2.root.children[1].info.opt == []
      && KeptBestAsWritten(i2, 0.5, 2) == Best(0.9, [], 1)
      && Get(KeepSubtree(i2, 0.5, 2).root, []).info.sum == 0.0
      && KeepSubtree(i2, 0.5, 2).best == Best(0.0, [], 0)
  {
    var i2 := ScenarioTwoSteps();
    ScenarioKeep(i2);
  }

  /** The planner state after two expansions from a fresh root, under ClosingSim. */
  function ScenarioTwoSteps(): (i2: Instance)
    ensures Inv(i2, 2, 0.5) && !i2.root.IsLeaf() && i2.best.action == 1
    ensures i2.root.children[1].info.closed && i2.root.children[1].info.opt == []
    ensures !i2.root.children[1].IsLeaf() && i2.root.children[1].info.sum == 0.9
  {
    var i1 := Step(Reset(2, 0.5), 0.5, AnyMaths(), 2, ClosingSim());
    ScenarioFirstStep();
    ScenarioSecondStep(i1);
    Step(i1, 0.5, AnyMaths(), 2, ClosingSim())
  }

  /** Re-rooting at a closed child whose crtOptimalLeaf is itself. */
  lemma ScenarioKeep(i2: Instance)
    requires Inv(i2, 2, 0.5) && !i2.root.IsLeaf() && i2.best.action == 1
    requires i2.root.children[1].info.closed && i2.root.children[1].info.opt == []
    requires !i2.root.children[1].IsLeaf() && i2.root.children[1].info.sum == 0.9
    ensures KeptBestAsWritten(i2, 0.5, 2) == Best(0.9, [], 1)
    ensures Get(KeepSubtree(i2, 0.5, 2).root, []).info.sum == 0.0
    ensures KeepSubtree(i2, 0.5, 2).best == Best(0.0, [], 0)
  {
    var kept := i2.root.children[1];
    var t := Retained(kept, 0.5);
    assert Get(t, []) == t;
  }

  /** The first expansion opens the root: the second child (sum 0.9) is the best leaf and the next one. */
  lemma ScenarioFirstStep()
    ensures ValidSimulator(ClosingSim())
    ensures var i1 := Step(Reset(2, 0.5), 0.5, AnyMaths(), 2, ClosingSim());
      && Inv(i1, 2, 0.5) && !i1.root.info.closed
      && i1.best == Best(0.9, [1], 1) && i1.next == [1]
      && |i1.root.children| == 2 && i1.root.children[1].IsLeaf()
      && i1.root.children[1].info == Info(0.9, 0.9, 1, 1, [], [], 0, false)
  {
    var g, m, sim := 0.5, AnyMaths(), ClosingSim();
    var i0 := Reset(2, g);
    assert ValidSimulator(sim);
    var outs := Outcomes(sim, [], 2);
    var cs := ScenarioRootLeaves();
    var t := ExpandAt(i0.root, [], outs, g, m);
    var b := RecordBest(i0.best, [], cs);
    assert Get(i0.root, []) == i0.root && i0.next == [];
    var i1 := Step(i0, g, m, 2, sim);
    assert i1.root == t;
    assert i1.best == b;
    assert i1.next == t.info.next;
    ScenarioRootBest(cs);
    ScenarioRootScan(cs, i0.root.info, m);
  }

  lemma ScenarioRootLeaves() returns (cs: seq<Node>)
    ensures cs == NewLeaves(Reset(2, 0.5).root.info, Outcomes(ClosingSim(), [], 2), 0.5)
    ensures |cs| == 2 && cs[0].IsLeaf() && cs[1].IsLeaf()
    ensures cs[0].info == Info(0.5, 0.5, 1, 1, [], [], 0, false)
    ensures cs[1].info == Info(0.9, 0.9, 1, 1, [], [], 0, false)
  {
    var outs := Outcomes(ClosingSim(), [], 2);
    var root: Path := [];
    assert root + [0] == [0] && root + [1] == [1];
    assert outs == [Transition(0.5, false), Transition(0.9, false)];
    cs := NewLeaves(Reset(2, 0.5).root.info, outs, 0.5);
  }

  lemma ScenarioRootBest(cs: seq<Node>)
    requires |cs| == 2 && cs[0].info.sum == 0.5 && cs[1].info.sum == 0.9
    ensures RecordBest(Best(0.0, [], 0), [], cs) == Best(0.9, [1], 1)
  {
    assert RecordFrom(Best(-1.0, [], 0), [], cs, 0) == RecordFrom(Best(0.5, [0], 0), [], cs, 1);
    assert RecordFrom(Best(0.5, [0], 0), [], cs, 1) == RecordFrom(Best(0.9, [1], 1), [], cs, 2);
  }

  lemma ScenarioRootScan(cs: seq<Node>, v: Info, m: Maths)
    requires |cs| == 2 && cs[0].IsLeaf() && cs[1].IsLeaf()
    requires cs[0].info == Info(0.5, 0.5, 1, 1, [], [], 0, false)
    requires cs[1].info == Info(0.9, 0.9, 1, 1, [], [], 0, false)
    requires v.tid == 0 && v.next == [] && v.opt == []
    ensures var r := Refresh(Node(v.(visits := v.visits + 2, tid := 0), cs), BySum);
      !r.info.closed && r.info.next == [1] && r.children == cs
  {
    var init := Scan(true, 0, [], [], 0.0, 0.0);
    var first := Scan(false, 0, [0], [0], 0.5, 0.5);
    assert OptSum(cs[0]) == 0.5 && OptSum(cs[1]) == 0.9;
    assert [0] + cs[0].info.next == [0] && [0] + cs[0].info.opt == [0];
    assert [1] + cs[1].info.next == [1] && [1] + cs[1].info.opt == [1];
    assert Visit(cs[0], 0, BySum, init) == first;
    var last := Scan(false, 1, [1], [1], 0.9, 0.9);
    assert Visit(cs[1], 1, BySum, first) == last;
    assert ScanChildren(cs, 2, BySum, last) == last;
    assert ScanChildren(cs, 1, BySum, first) == last;
    assert ScanChildren(cs, 0, BySum, init) == last;
  }

  /** The second expansion opens that child, whose two children are terminal: it closes at once. */
  lemma ScenarioSecondStep(i1: Instance)
    requires Inv(i1, 2, 0.5) && !i1.root.info.closed
    requires i1.best == Best(0.9, [1], 1) && i1.next == [1]
    requires |i1.root.children| == 2 && i1.root.children[1].IsLeaf()
    requires i1.root.children[1].info == Info(0.9, 0.9, 1, 1, [], [], 0, false)
    requires ValidSimulator(ClosingSim())
    ensures var i2 := Step(i1, 0.5, AnyMaths(), 2, ClosingSim());
      && !i2.root.IsLeaf() && i2.best.action == 1
      && i2.root.children[1].info.closed && i2.root.children[1].info.opt == []
      && !i2.root.children[1].IsLeaf() && i2.root.children[1].info.sum == 0.9
  {
    var g, m, sim := 0.5, AnyMaths(), ClosingSim();
    assert ValidSimulator(sim);
    var c1 := i1.root.children[1];
    var outs := Outcomes(sim, [1], 2);
    assert [1] + [0] == [1, 0] && [1] + [1] == [1, 1];
    assert outs == [Transition(0.1, true), Transition(0.1, true)];
    assert Get(i1.root, [1]) == c1;
    var cs := NewLeaves(c1.info, outs, g);
    assert cs[0].info.closed && cs[1].info.closed && cs[0].info.sum == cs[1].info.sum;
    var i2 := Step(i1, g, m, 2, sim);
    assert i2.root == ExpandAt(i1.root, [1], outs, g, m);
    var one: Path := [1];
    assert one[1..] == [];
    var e := ExpandAt(c1, [], outs, g, m);
    assert i2.root.children[1] == e;
    assert e.children == cs;
    assert e.info.closed && e.info.opt == [];
    assert i2.best == RecordBest(i1.best, [1], cs);
    assert RecordFrom(Best(-1.0, [1], 1), [1], cs, 0) == RecordFrom(Best(cs[0].info.sum, [1, 0], 1), [1], cs, 1);
  }

  /*---------------------------------------------------------------------------------------------
    getMaxDepth (lines 341-375)
  ---------------------------------------------------------------------------------------------*/

  /**
   uct_getMaxDepth: 0 for a root leaf, otherwise the sweep from the root's children, minus one;
   that is one less than the length of the longest path to a leaf.
   */
  function GetMaxDepth(inst: Instance): (d: nat)
    ensures d == if inst.root.IsLeaf() then 0 else Height(inst.root) - 1
  {
    if inst.root.IsLeaf() then 0
    else
      SweepChildrenIsHeight(inst.root.children, 0, 1, 0);
      SweepChildren(inst.root.children, 0, 1, 0) - 1
  }
}
