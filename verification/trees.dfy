/**
 The simulated-trajectory tree shared by the three tree planners (optimistic, UCT, uniform).

 A node is a leaf (part of the search frontier) or owns exactly K children, created together
 by one expansion. The C sources link nodes through father pointers and raw child arrays; here a
 tree is an immutable value, a node is addressed by the index path that leads to it from the
 root, and every cached "pointer" of the planners (best leaf, next leaf to open) is such a path,
 relative to the node that holds it.
 */
module Trees {

  /** Child indices from a node down to one of its descendants; [] is the node itself. */
  type Path = seq<nat>

  /** A C pointer that may designate no node (NULL, or a field that is not a node). */
  datatype Option<T> = None | Some(value: T)

  datatype Tree<P> = Node(info: P, children: seq<Tree<P>>) {
    predicate IsLeaf() { |children| == 0 }
  }

  /** Every node is a leaf or has exactly k children. */
  predicate KAry<P>(t: Tree<P>, k: nat)
    decreases t
  {
    && (|t.children| == 0 || |t.children| == k)
    && forall i :: 0 <= i < |t.children| ==> KAry(t.children[i], k)
  }

  /** p leads from t to one of its nodes. */
  predicate ValidPath<P>(t: Tree<P>, p: Path)
    decreases |p|
  {
    |p| == 0 || (p[0] < |t.children| && ValidPath(t.children[p[0]], p[1..]))
  }

  /** The node at the end of p. */
  function Get<P>(t: Tree<P>, p: Path): Tree<P>
    requires ValidPath(t, p)
    decreases |p|
  {
    if |p| == 0 then t else Get(t.children[p[0]], p[1..])
  }

  /** p leads from t to a leaf. */
  predicate IsLeafPath<P>(t: Tree<P>, p: Path)
  {
    ValidPath(t, p) && Get(t, p).IsLeaf()
  }

  lemma {:induction false} GetAppend<P>(t: Tree<P>, p: Path, i: nat)
    requires ValidPath(t, p) && i < |Get(t, p).children|
    ensures ValidPath(t, p + [i])
    ensures Get(t, p + [i]) == Get(t, p).children[i]
    decreases |p|
  {
    if |p| == 0 {
      assert p + [i] == [i];
      assert ([i])[1..] == [];
    } else {
      assert (p + [i])[1..] == p[1..] + [i];
      GetAppend(t.children[p[0]], p[1..], i);
    }
  }

  lemma {:induction false} ValidPathPrefix<P>(t: Tree<P>, p: Path, j: nat)
    requires ValidPath(t, p) && j <= |p|
    ensures ValidPath(t, p[..j])
    decreases |p|
  {
    if j > 0 {
      assert p[..j][1..] == p[1..][..j - 1];
      ValidPathPrefix(t.children[p[0]], p[1..], j - 1);
    }
  }

  /** Number of nodes of t (t included). */
  function Size<P>(t: Tree<P>): nat
    decreases t, 1
  {
    1 + SizeOf(t.children)
  }

  /** Total number of nodes of a sequence of trees. */
  function SizeOf<P>(cs: seq<Tree<P>>): nat
    decreases cs, 0
  {
    if |cs| == 0 then 0 else SizeOf(cs[..|cs| - 1]) + Size(cs[|cs| - 1])
  }

  lemma SizeOfAppend<P>(cs: seq<Tree<P>>, c: Tree<P>)
    ensures SizeOf(cs + [c]) == SizeOf(cs) + Size(c)
  {
    assert (cs + [c])[..|cs|] == cs;
  }

  /** Replacing one tree of a sequence changes the total by the difference of the two sizes. */
  lemma {:induction false} SizeOfUpdate<P>(cs: seq<Tree<P>>, i: nat, c: Tree<P>)
    requires i < |cs|
    ensures SizeOf(cs[i := c]) + Size(cs[i]) == SizeOf(cs) + Size(c)
    decreases |cs|
  {
    var n := |cs| - 1;
    if i == n {
      assert cs[i := c][..n] == cs[..n];
    } else {
      assert cs[i := c][..n] == cs[..n][i := c];
      SizeOfUpdate(cs[..n], i, c);
    }
  }

  /** The total size of a concatenation is the sum of the totals. */
  lemma {:induction false} SizeOfConcat<P>(a: seq<Tree<P>>, b: seq<Tree<P>>)
    ensures SizeOf(a + b) == SizeOf(a) + SizeOf(b)
    decreases |b|
  {
    if |b| == 0 {
      assert a + b == a;
    } else {
      var n := |b| - 1;
      assert (a + b)[..|a + b| - 1] == a + b[..n];
      assert (a + b)[|a + b| - 1] == b[n];
      SizeOfConcat(a, b[..n]);
    }
  }

  /** n trees of size s total n * s nodes. */
  lemma {:induction false} SizeOfUniform<P>(cs: seq<Tree<P>>, s: nat)
    requires forall i :: 0 <= i < |cs| ==> Size(cs[i]) == s
    ensures SizeOf(cs) == |cs| * s
    decreases |cs|
  {
    if |cs| > 0 {
      SizeOfUniform(cs[..|cs| - 1], s);
    }
  }
  /** A sequence split around position a, uniform on either side, counts its parts. */
  lemma SizeAround<P>(cs: seq<Tree<P>>, a: nat, left: nat, right: nat)
    requires a < |cs|
    requires forall i :: 0 <= i < a ==> Size(cs[i]) == left
    requires forall i :: a < i < |cs| ==> Size(cs[i]) == right
    ensures SizeOf(cs) == a * left + Size(cs[a]) + (|cs| - a - 1) * right
  {
    var l, r := cs[..a], cs[a + 1..];
    forall i | 0 <= i < |l|
      ensures Size(l[i]) == left
    {
      assert l[i] == cs[i];
    }
    forall i | 0 <= i < |r|
      ensures Size(r[i]) == right
    {
      assert r[i] == cs[a + 1 + i];
    }
    SizeOfUniform(l, left);
    SizeOfUniform(r, right);
    assert cs == l + [cs[a]] + r;
    SizeOfConcat(l + [cs[a]], r);
    SizeOfAppend(l, cs[a]);
  }


  /** Two sequences of trees with pairwise equal sizes have the same total size. */
  lemma {:induction false} SizeOfPointwise<P>(cs: seq<Tree<P>>, ds: seq<Tree<P>>)
    requires |cs| == |ds| && forall i :: 0 <= i < |cs| ==> Size(cs[i]) == Size(ds[i])
    ensures SizeOf(cs) == SizeOf(ds)
    decreases |cs|
  {
    if |cs| > 0 {
      var n := |cs| - 1;
      SizeOfPointwise(cs[..n], ds[..n]);
    }
  }

  /** Length of the longest path from t to a leaf. */
  function Height<P>(t: Tree<P>): nat
    decreases t, 1
  {
    if t.IsLeaf() then 0 else 1 + HeightFrom(t.children, 0)
  }

  function Max(a: nat, b: nat): nat { if a > b then a else b }

  /** Largest height among cs[from..] (0 when that is empty). */
  function HeightFrom<P>(cs: seq<Tree<P>>, from: nat): nat
    decreases cs, 0, |cs| - from
  {
    if from >= |cs| then 0 else Max(Height(cs[from]), HeightFrom(cs, from + 1))
  }

  lemma {:induction false} HeightFromBounds<P>(cs: seq<Tree<P>>, from: nat, i: nat)
    requires from <= i < |cs|
    ensures Height(cs[i]) <= HeightFrom(cs, from)
    decreases |cs| - from
  {
    if from < i {
      HeightFromBounds(cs, from + 1, i);
    }
  }

  /** Some tree of a non-empty suffix has the largest height. */
  lemma {:induction false} HeightFromAttained<P>(cs: seq<Tree<P>>, from: nat) returns (i: nat)
    requires from < |cs|
    ensures from <= i < |cs| && Height(cs[i]) == HeightFrom(cs, from)
    decreases |cs| - from
  {
    if from + 1 == |cs| || Height(cs[from]) >= HeightFrom(cs, from + 1) {
      i := from;
    } else {
      i := HeightFromAttained(cs, from + 1);
    }
  }

  /** The height is the length of the longest leaf path: it bounds every leaf path ... */
  lemma {:induction false} LeafPathsWithinHeight<P>(t: Tree<P>, p: Path)
    requires IsLeafPath(t, p)
    ensures |p| <= Height(t)
    decreases |p|
  {
    if |p| > 0 {
      LeafPathsWithinHeight(t.children[p[0]], p[1..]);
      HeightFromBounds(t.children, 0, p[0]);
    }
  }

  /** ... and some leaf path has exactly that length. */
  lemma {:induction false} DeepestLeafPath<P>(t: Tree<P>) returns (p: Path)
    ensures IsLeafPath(t, p) && |p| == Height(t)
    decreases t
  {
    if t.IsLeaf() {
      p := [];
    } else {
      var i := HeightFromAttained(t.children, 0);
      var q := DeepestLeafPath(t.children[i]);
      p := [i] + q;
      assert p[1..] == q;
    }
  }

  /**
   The depth-first sweep `getMaxDepth` of optimistic.c and uct.c: it visits every leaf of t,
   which sits at depth `depth`, keeping the largest leaf depth seen in `acc`.
   */
  function SweepMaxLeafDepth<P>(t: Tree<P>, depth: nat, acc: nat): nat
    decreases t, 1
  {
    if t.IsLeaf() then Max(acc, depth)
    else SweepChildren(t.children, 0, depth + 1, acc)
  }

  function SweepChildren<P>(cs: seq<Tree<P>>, from: nat, depth: nat, acc: nat): nat
    decreases cs, 0, |cs| - from
  {
    if from >= |cs| then acc
    else SweepChildren(cs, from + 1, depth, SweepMaxLeafDepth(cs[from], depth, acc))
  }

  /** The sweep computes the height: it ends with max(acc, depth + Height(t)). */
  lemma {:induction false} SweepIsHeight<P>(t: Tree<P>, depth: nat, acc: nat)
    ensures SweepMaxLeafDepth(t, depth, acc) == Max(acc, depth + Height(t))
    decreases t, 1
  {
    if !t.IsLeaf() {
      SweepChildrenIsHeight(t.children, 0, depth + 1, acc);
    }
  }

  lemma {:induction false} SweepChildrenIsHeight<P>(cs: seq<Tree<P>>, from: nat, depth: nat, acc: nat)
    ensures SweepChildren(cs, from, depth, acc)
         == if from < |cs| then Max(acc, depth + HeightFrom(cs, from)) else acc
    decreases cs, 0, |cs| - from
  {
    if from < |cs| {
      SweepIsHeight(cs[from], depth, acc);
      SweepChildrenIsHeight(cs, from + 1, depth, SweepMaxLeafDepth(cs[from], depth, acc));
    }
  }
}
