# Online lookahead planners, modelled in Dafny

This project models the four planners under `algorithms/`. Each one plans the next action of a
deterministic system from its current state by simulating action sequences with a generative
model:

- **optimistic** (`optimistic.c`) always opens the open leaf whose bound is largest. The bound is
  the discounted sum plus gamma^depth / (1 - gamma).
- **UCT** (`uct.c`) opens the leaf its UCB scores lead to, and counts visits.
- **uniform** (`uniform.c`) opens the tree breadth-first, level by level.
- **random search** (`random_search.c`) runs random rollouts under a depth limit that grows with
  the logarithm of the number of evaluations.

The model makes the following choices:

- The tree is an immutable K-ary tree (`Trees.Tree`). Every C pointer becomes an index path:
  `father`, `crtOptimalLeaf`, `crtNextOpennedLeaf`, `nextOpennedNode` and the `values` pointer.
- The planners never look inside a state and transitions are deterministic. The generative model
  is therefore a function from the action path (taken from the current root) to the outcome of its
  last action: a reward in [0, 1] and a terminal flag (`Discount.Simulator`).
- gamma, rewards, sums and bounds are reals.
- UCT's sqrt and log, and random search's log ratio, are function-valued parameters. Nothing is
  assumed about their values.
- The random generator of random search is an oracle `nat -> nat`, indexed by evaluation number.

Files:

- `trees.dfy`: paths, sizes and heights of trees.
- `discount.dfy`: gamma powers, the `bounds` table, discounted returns and the affine rescaling
  used when re-rooting.
- `optimistic.dfy`, `uct.dfy`, `uniform.dfy`, `random_search.dfy`: one module per planner.

Every planner states an invariant (`Inv`), proves that reset establishes it, and proves that each
operation keeps it:

- optimistic: caches valid, best leaf of largest sum, next leaf a leaf of the tree; right after a
  step with the root still open, the next leaf is the open leaf of largest bound.
- UCT: caches valid, visit counts equal to subtree sizes, best leaf above every open leaf.
- uniform: the tree is the breadth-first tree at `nextOpennedNode`, and pointers designate leaves
  of largest sum.
- random search: the table `QValues` and the optimal value and action agree with the rollouts
  made so far.

Some behaviour of the code is reproduced as written rather than corrected:

- `optimistic_keepSubtree` never copies the kept child's closed flag to the root
  (optimistic.c:336-341). After keeping a closed child the root stays open, the trajectoryId walk
  can end on a closed leaf, and the next step opens that leaf again. `Optimistic.KeepSubtree` does
  the same, which is why `Optimistic.Inv` asks only that the next leaf be a leaf.
- `uniform_keepSubtree` leaves crtDepth one more than the level of nextOpennedNode (row 4 of the
  findings). `Uniform.Keep` does the same; `Uniform.KeepLevelled` is the corrected re-rooting.

Re-rooting (`keepSubtree`) is shown to rescale every retained sum by an increasing affine map.
The caches therefore stay valid even though the code reuses them without recomputing.

## Model

| member | source | states |
|---|---|---|
| Discount.TailBoundsEveryFuture | algorithms/optimistic/optimistic.c:55-61 | the `bounds` entry gamma^d/(1-gamma) is at least the discounted return, from depth d, of any finite sequence of rewards in [0, 1] |
| Discount.TailShift | algorithms/optimistic/optimistic.c:55-61 | a bound d levels deeper is gamma^d times the bound at the same relative depth, which is why a re-rooted bound is an affine image of the old one |
| Optimistic.Refresh | algorithms/optimistic/optimistic.c:179-237 | after the scan a node is closed exactly when all its children are; an open node gets the cache NodeCached asks for: its trajectoryId is the first open child of largest candidate bound and its values point through that child; a closed node keeps its old trajectoryId and values |
| Optimistic.ScanSteps | algorithms/optimistic/optimistic.c:208-234 | the child loop keeps its invariant: closedness of the children seen so far and the first strict maximum among the open ones |
| Optimistic.PointerIsOpenLeaf | algorithms/optimistic/optimistic.c:179-237 | an open cached node designates an open leaf of its own subtree, and the bound it carries is that leaf's bound |
| Optimistic.PointerIsBestOpenLeaf | algorithms/optimistic/optimistic.c:179-237 | no open leaf of an open cached subtree has a larger bound than the leaf the node designates |
| Optimistic.ClosedHasNoOpenLeaf | algorithms/optimistic/optimistic.c:179-237 | every leaf of a closed cached subtree is closed |
| Optimistic.ExpandOpensLeaf | algorithms/optimistic/optimistic.c:155-200 | the opened leaf gets exactly K new children, one per outcome, each with sum = parent sum + gamma^depth * reward, depth + 1, bound = sum + bounds[depth + 1], closed iff terminal or at the depth ceiling |
| Optimistic.ExpandKeepsOtherLeaves | algorithms/optimistic/optimistic.c:145-241 | an expansion leaves every other leaf of the tree unchanged |
| Optimistic.ExpandLeaves | algorithms/optimistic/optimistic.c:145-241 | every leaf after an expansion is an untouched old leaf or one of the K new children |
| Optimistic.ExpandKeepsCached | algorithms/optimistic/optimistic.c:179-237 | refreshing the opened node and its ancestors bottom-up makes every cache in the tree valid again |
| Optimistic.ExpandKeepsWellFormed | algorithms/optimistic/optimistic.c:155-177 | an expansion keeps every node with 0 or K children, rewards in [0, 1] and leaves carrying non-negative sums |
| Optimistic.LeafSumIsReturn | algorithms/optimistic/optimistic.c:175-177 | in a consistent tree every leaf record holds the discounted return of the rewards on its path, its depth and the matching bound |
| Optimistic.BoundIsOptimistic | algorithms/optimistic/optimistic.c:175-177 | a leaf's bound is at least its sum plus the discounted return of any future rewards in [0, 1] |
| Optimistic.ExpandKeepsConsistent | algorithms/optimistic/optimistic.c:162-177 | an expansion keeps every leaf record equal to the one that the rewards along its path call for |
| Optimistic.RecordFrom | algorithms/optimistic/optimistic.c:190-194 | the best value never decreases and ends at least every new child's sum; the best leaf changes only to a new child of strictly larger sum, with the action equal to the first step of its path |
| Optimistic.RootExpansionMisreportsAction | algorithms/optimistic/optimistic.c:190-194 | when the root is opened with a terminal second child of sum 0.9 above an open first child of 0.5, the code as written records action 0 for best leaf [1], while the corrected bookkeeping records action 1 |
| Optimistic.Reset | algorithms/optimistic/optimistic.c:111-142 | the fresh instance is an open root leaf with zero evaluations and satisfies the planner invariant |
| Optimistic.Step | algorithms/optimistic/optimistic.c:145-241 | buildingTrajectory opens the next leaf, records the best leaf and moves the next-leaf pointer: the result satisfies the invariant with every cache valid, the root is no longer a leaf, and exactly K evaluations are added |
| Optimistic.StepKeepsInv | algorithms/optimistic/optimistic.c:145-241 | one buildingTrajectory keeps the invariant (well formed, caches valid, best leaf of largest sum with its first action, next leaf a leaf) and adds exactly K evaluations |
| Optimistic.StepKeepsBest | algorithms/optimistic/optimistic.c:156-194 | after an expansion the recorded best leaf is a leaf of largest sum of the new tree, even when the opened leaf was the best leaf itself (its value reset to -1) |
| Optimistic.NextIsBestOpenLeaf | algorithms/optimistic/optimistic.c:202-239 | after a step with the root still open, the next leaf to open is an open leaf whose bound is at least that of every open leaf |
| Optimistic.Plan | algorithms/optimistic/optimistic.c:244-260 | planning stops with the budget reached or the root closed, keeps the invariant, overshoots the budget by less than K, and changes nothing when the budget is already met or the root is closed |
| Optimistic.PlanKeepsConsistent | algorithms/optimistic/optimistic.c:244-260 | planning keeps every leaf record in agreement with the rewards of its path |
| Optimistic.RebaseRescales | algorithms/optimistic/optimistic.c:263-301 | re-measuring a retained subtree from the new root keeps its shape and flags, and every old leaf bound is c + gamma^e times the new one |
| Optimistic.RescaledKeepsCached | algorithms/optimistic/optimistic.c:317-326 | the reused trajectoryIds and values pointers stay valid under an increasing affine rescaling of the bounds |
| Optimistic.ArgmaxRescaled | algorithms/optimistic/optimistic.c:208-233 | the first open child of largest candidate bound is the same after a positive affine rescaling |
| Optimistic.SweepBestSpec | algorithms/optimistic/optimistic.c:263-301 | the depth-first sweep ends on a value no leaf exceeds: the starting value or the sum of the leaf it ends on; it replaces only on a strictly larger sum |
| Optimistic.TidWalk | algorithms/optimistic/optimistic.c:317-326 | updateNextOpennedNode follows trajectoryIds from the root and always stays on a path of the tree |
| Optimistic.TidWalkIsPointer | algorithms/optimistic/optimistic.c:317-326 | following trajectoryIds from an open cached node leads to exactly the leaf its values point to |
| Optimistic.KeepSubtree | algorithms/optimistic/optimistic.c:329-365 | re-rooting keeps the root's closed flag and takes the kept child's trajectoryId; a kept leaf leaves a lone root; otherwise the counter is the number of retained nodes below the root and the next leaf is the trajectoryId walk |
| Optimistic.KeptBestLeaf | algorithms/optimistic/optimistic.c:304-314 | after re-rooting the best leaf is a leaf of largest sum of the new tree, and the action is the first step of its path |
| Optimistic.KeepKeepsInv | algorithms/optimistic/optimistic.c:329-365 | re-rooting keeps the planner invariant and leaves leaf records consistent, measured from the new root (sum 0, depth 0) when an internal child is kept |
| Trees.SweepIsHeight | algorithms/optimistic/optimistic.c:379-406 | the depth-first sweep of getMaxDepth, started at depth d with running maximum a, ends with max(a, d + height of the tree), so it finds the deepest leaf |
| Optimistic.GetMaxDepth | algorithms/optimistic/optimistic.c:379-411 | 0 for a root leaf, otherwise one less than the height of the tree |
| Uct.Refresh | algorithms/uct/uct.c:189-214 | a refreshed node is closed exactly when all its children are; an open node's trajectoryId is the first open child of largest rule score, crtNextOpennedLeaf follows it, crtOptimalLeaf follows the first open child of largest optimal sum; a closed node keeps all three |
| Uct.ScanSteps | algorithms/uct/uct.c:195-214 | the child loop keeps its invariant for both pointers: the first strict maximum of score and of optimal sum among the open children seen |
| Uct.PointersAreOpenLeaves | algorithms/uct/uct.c:189-214 | both pointers of an open cached node designate open leaves of its subtree |
| Uct.OptIsBestOpenLeaf | algorithms/uct/uct.c:189-214 | crtOptimalLeaf of an open node is an open leaf of largest sum; closed children's leaves are not considered |
| Uct.ClosedHasNoOpenLeaf | algorithms/uct/uct.c:189-214 | every leaf of a closed cached subtree is closed |
| Uct.ExpandOpensLeaf | algorithms/uct/uct.c:146-185 | the opened leaf gets K children, each visited once, one level deeper, with sum = parent sum + gamma^depth * reward, closed iff terminal or at the depth ceiling |
| Uct.ExpandKeepsVisits | algorithms/uct/uct.c:140-193 | visit counts stay the subtree sizes: each node on the path gains K visits as the tree gains K nodes |
| Uct.VisitsCountChildren | algorithms/uct/uct.c:140-193 | in a reachable tree every node's visit count is 1 + the sum of its children's counts |
| Uct.ExpandSize | algorithms/uct/uct.c:146-185 | an expansion adds exactly K nodes |
| Uct.ExpandKeepsSums | algorithms/uct/uct.c:146-185 | an expansion keeps the sum recurrence and leaf depths |
| Uct.ExpandKeepsCached | algorithms/uct/uct.c:161-214 | ranking the opened node's children by sum and its ancestors by UCB score leaves every cache valid |
| Uct.ExpandLeaves | algorithms/uct/uct.c:132-221 | every leaf after an expansion is an untouched old leaf or one of the new ones |
| Uct.RecordFrom | algorithms/uct/uct.c:174-178 | the best value never decreases and ends at least every new child's sum; a replacement is a new child with no later sibling of equal or larger sum (so the later child wins ties), its action the first step of its path; when nothing is replaced every new child lies strictly below the best value |
| Uct.RootExpansionMisreportsAction | algorithms/uct/uct.c:174-178 | opening a fresh root whose terminal second child has sum 0.9 records action 0 as written, action 1 when corrected |
| Uct.Reset | algorithms/uct/uct.c:102-129 | the fresh instance is an open root leaf visited once, with zero evaluations, satisfying the invariant |
| Uct.Step | algorithms/uct/uct.c:132-221 | one buildingTrajectory keeps the invariant, adds K evaluations and K nodes, and at an open root the next leaf follows the UCB argmax |
| Uct.StepKeepsBest | algorithms/uct/uct.c:141-178 | after an expansion the recorded best value is at least the sum of every open leaf |
| Uct.Plan | algorithms/uct/uct.c:224-233 | planning stops with the budget reached or the root closed, overshoots by less than K, changes nothing when already done, and the evaluations added equal the nodes added |
| Uct.Rebase | algorithms/uct/uct.c:236-265 | updateValues writes the rebased sum on every retained node and the new depth on leaves only; internal nodes keep their old depth |
| Uct.RebaseRescales | algorithms/uct/uct.c:243-252 | every retained sum measured from the old root is c + gamma times the one measured from the new root |
| Uct.RescaledKeepsCached | algorithms/uct/uct.c:317-321 | the reused crtOptimalLeaf and crtNextOpennedLeaf pointers stay valid under the rescaling |
| Uct.KeepSubtree | algorithms/uct/uct.c:280-327 | the new root is the kept child re-measured from itself, with as many nodes as the kept subtree; the counter is the number of retained nodes below the root; the next leaf and the best leaf are the kept child's pointers; a kept leaf leaves a lone root with best leaf the root and action 0 |
| Uct.KeepKeepsInv | algorithms/uct/uct.c:280-327 | re-rooting keeps the planner invariant (caches valid, visits equal sizes, sums follow the recurrence from the new root) |
| Uct.RetainedNode | algorithms/uct/uct.c:243-252 | each retained node keeps its visits, its sum seen from the old root is the kept child's sum + gamma times the new one, and a retained leaf's depth is its distance from the new root |
| Uct.KeptClosedChildLosesBestLeaf | algorithms/uct/uct.c:313-321 | in a two-step scenario the kept child is closed and designates itself; as written the new best value is 0.9 on a record no longer in the tree, while the corrected re-rooting records the new root, value 0 |
| Uct.GetMaxDepth | algorithms/uct/uct.c:341-375 | 0 for a root leaf, otherwise one less than the height of the tree |
| Uniform.Refresh | algorithms/uniform/uniform.c:160-198 | the refreshed node's trajectoryId is the first child of largest optimal sum and its crtOptimalLeaf goes through that child |
| Uniform.ArgmaxFrom | algorithms/uniform/uniform.c:188-195 | the loop ends on the first child of largest optimal sum (ties keep the lower index) |
| Uniform.ExpandOpens | algorithms/uniform/uniform.c:163-183 | opening the leaf at p of the breadth-first tree at p gives the tree opened at p |
| Uniform.ExpandSize | algorithms/uniform/uniform.c:163-183 | an expansion adds exactly K nodes |
| Uniform.ExpandKeepsSums | algorithms/uniform/uniform.c:172 | the sums stay discounted returns from the root when crtDepth is the level of the opened leaf |
| Uniform.ExpandKeepsRanked | algorithms/uniform/uniform.c:174-198 | every trajectoryId stays on the first child of largest optimal sum |
| Uniform.AdvanceFromOpened | algorithms/uniform/uniform.c:127-149 | the climb-and-descend finds the next node of the level left to right; a climb past the root means the tree is complete one level further down |
| Uniform.NextLeaf | algorithms/uniform/uniform.c:127-149 | the next node is the breadth-first frontier: on the same level, or the leftmost node one level deeper once the tree is complete |
| Uniform.NextAfterPred | algorithms/uniform/uniform.c:127-149 | updateNextOpennedNode from the node just before p finds p: the frontier walk and its predecessor are inverse |
| Uniform.Reset | algorithms/uniform/uniform.c:98-124 | the fresh instance is a lone root leaf, frontier at the root, zero evaluations, crtDepth 0 |
| Uniform.ResetInv | algorithms/uniform/uniform.c:98-124 | reset establishes the invariant, the ranking of the caches and the sum consistency |
| Uniform.Step | algorithms/uniform/uniform.c:152-202 | a step keeps the tree breadth-first at the frontier and adds K evaluations; the frontier stays on its level, or moves one level down when the tree has become complete; crtDepth moves with the frontier |
| Uniform.StepKeepsInv | algorithms/uniform/uniform.c:152-202 | a step keeps the invariant and adds K nodes; it keeps the caches ranked, and the sums right when crtDepth is the frontier level |
| Uniform.Plan | algorithms/uniform/uniform.c:205-214 | planning stops with the budget reached or crtDepth at the ceiling, keeping the breadth-first shape |
| Uniform.PlanKeepsInv | algorithms/uniform/uniform.c:205-214 | planning keeps the invariant, the ranking and the sum consistency |
| Uniform.RecommendedIsBest | algorithms/uniform/uniform.c:205-214 | the returned action leads to a leaf of largest discounted return among all leaves, and is 0 while the root is a leaf |
| Uniform.OptIsBestLeaf | algorithms/uniform/uniform.c:185-198 | crtOptimalLeaf designates a leaf of largest sum of the node's subtree |
| Uniform.CutSize | algorithms/uniform/uniform.c:127-149 | the breadth-first tree at p has 1 + K + ... + K^|p| nodes plus K for each node opened left of p (p read in base K) |
| Uniform.FullLevels | algorithms/uniform/uniform.c:127-149 | once the counter reaches K + K^2 + ... + K^d, the tree is complete to depth d, the frontier is the leftmost node of level d and crtDepth is d |
| Uniform.PlanFillsLevels | algorithms/uniform/uniform.c:205-214 | planning from a fresh root that stops at K + ... + K^d evaluations leaves the complete tree of height d and crtDepth d |
| Uniform.SweepFindsCut | algorithms/uniform/uniform.c:235-251 | the sweep of updateValues records the father of the last deepest leaf, from which updateNextOpennedNode finds the frontier again; the depth it records is one more than that father's |
| Uniform.SweepCount | algorithms/uniform/uniform.c:217-253 | the sweep counts every node once |
| Uniform.Keep | algorithms/uniform/uniform.c:256-289 | the root keeps its own record apart from its caches and takes the kept child's trajectoryId; the counter is the number of retained nodes below the root and the tree stays breadth-first; a kept leaf gives a lone root with frontier at the root and crtDepth 0; otherwise the frontier is the kept child's frontier one level up and crtDepth is one more than its level |
| Uniform.KeepKeepsInv | algorithms/uniform/uniform.c:256-289 | re-rooting keeps the tree breadth-first at the frontier, the caches linked, the root sum 0, the counter equal to the nodes below the root and crtDepth within one of the frontier level |
| Uniform.KeepKeepsRanked | algorithms/uniform/uniform.c:217-253 | when the sums were discounted returns from the old root, after re-rooting they are discounted returns from the new root and the caches stay ranked |
| Uniform.KeepRescalesSums | algorithms/uniform/uniform.c:226-233 | every retained sum seen from the old root is the kept child's sum plus gamma times the new one |
| Uniform.KeepThenStepMisdiscounts | algorithms/uniform/uniform.c:235-251 | after keeping an internal child, crtDepth is one more than the frontier level; if the next expansion's first reward is positive, the sums stop being discounted returns |
| Uniform.KeepLevelled | algorithms/uniform/uniform.c:256-289 | the corrected re-rooting: the same tree, counter and frontier as uniform_keepSubtree, with crtDepth equal to the frontier level |
| Uniform.KeepLevelledConsistent | algorithms/uniform/uniform.c:256-289 | the corrected re-rooting keeps the invariant and the ranking, and keeps the sums the discounted returns from the new root with crtDepth on the frontier level |
| Uniform.KeepLevelledThenPlan | algorithms/uniform/uniform.c:205-214 | after the corrected re-rooting, planning keeps the sums the discounted returns, and the returned action leads to a leaf of largest discounted return |
| Uniform.GetMaxDepth | algorithms/uniform/uniform.c:292-304 | the depth returned is the length of a path of first children that ends on a leaf |
| Uniform.GetMaxDepthIsHeight | algorithms/uniform/uniform.c:292-304 | the length of the leftmost path is the height of the breadth-first tree |
| RandomSearch.Reset | algorithms/random_search/random_search.c:92-114 | the fresh instance has K entries in QValues and no rollout |
| RandomSearch.ResetInv | algorithms/random_search/random_search.c:92-114 | the all-zero table, limit 1 and zero counters satisfy the invariant with an empty history |
| RandomSearch.Roll | algorithms/random_search/random_search.c:126-169 | a rollout takes its actions from the draws, ignores the first transition's terminal flag, then makes at most crtDepthLimit more transitions, stopping right after the first terminal one; its value is r0 + gamma r1 + gamma^2 r2 + ... |
| RandomSearch.RolloutUnique | algorithms/random_search/random_search.c:126-169 | the generative model, the draws, the start and the limit determine the rollout |
| RandomSearch.ValueIsDiscounted | algorithms/random_search/random_search.c:138-153 | a rollout's value is the discounted return of the rewards along its path |
| RandomSearch.RolloutValueBounds | algorithms/random_search/random_search.c:138-153 | with rewards in [0, 1] a rollout's value lies between 0 and 1/(1 - gamma) |
| RandomSearch.NextLimit | algorithms/random_search/random_search.c:184-190 | the new limit lies in [1, MAX - 1] and is the point of that range closest to the ratio; it stays frozen once it has reached MAX - 1 |
| RandomSearch.Record | algorithms/random_search/random_search.c:171-190 | a rollout adds its length to the counter and is appended to the history; QValues only rise, only at the first action, and the optimal value only rises |
| RandomSearch.RecordKeepsInv | algorithms/random_search/random_search.c:171-190 | each QValues[a] stays the maximum of 0 and the values of rollouts starting with a; the optimal value stays the largest entry; its action stays the first to reach it; crtMaxDepth stays the largest limit used |
| RandomSearch.Plan | algorithms/random_search/random_search.c:117-195 | rollouts run while the counter is below the budget; they keep the invariant and record exactly the rollouts the model and the draws produce; the counter passes the budget by at most the last rollout's limit; nothing changes when the budget is met |
| RandomSearch.RecommendedIsBest | algorithms/random_search/random_search.c:176-193 | the returned action holds the largest entry of QValues and no recorded rollout has a larger value |
| RandomSearch.QValuesBounded | algorithms/random_search/random_search.c:176-177 | every QValues entry lies between 0 and 1/(1 - gamma) |
| RandomSearch.GetMaxDepth | algorithms/random_search/random_search.c:198-202 | crtMaxDepth - 1 taken modulo 2^32 |
| RandomSearch.GetMaxDepthIsLimit | algorithms/random_search/random_search.c:173-202 | before any rollout getMaxDepth is 2^32 - 1; afterwards it is one less than the largest depth limit a rollout used |

## Left out

- Memory management is not modelled: `deleteTree`, `malloc`/`free`, `copyState`/`freeState`.
  Dropping a subtree is dropping it from the datatype.
- States are not modelled. The generative model is a function of the action path from the current
  root. After re-rooting, the caller shifts that function to the new root.
- Floating-point rounding is not modelled; everything is on reals. The `gammaPowers` and `bounds`
  tables are the exact values gamma^d and gamma^d / (1 - gamma).
- Counters are unbounded naturals, so 32-bit wrap-around is not modelled. The one exception is
  `random_search_getMaxDepth`, whose wrap below 0 is modelled explicitly.
- RandomSearch.NextLimit: the `(unsigned int)` cast of a ratio beyond 2^32 is not modelled. The
  truncated ratio is given as the parameter `ratio`, and its values are unconstrained.
- The depth ceilings are the default build's 32768. Builds with LIMITED_DEPTH use 512.
- `realNbEvaluations` and `totalNbEvaluations` are statistics only, so they are left out.
- The progress `printf` of `optimistic_planning` is left out.
- `random_search_keepSubtree` is declared in `random_search.h` but never defined, so there is
  nothing to model.
- The random-search `trajectories` list stores copied states and rewards and is never read. It is
  modelled as the list of rollouts (action path, value, limit), kept oldest first; the C list is
  newest first. `gsl_rng_set(rng, time(NULL))` is replaced by the oracle.
- RandomSearch.Plan: it does not state that the history only grows by appending. That property
  follows from `Record` call by call but is not carried through the loop.
- Optimistic.Step, Optimistic.Plan, Uct.Step, Uct.Plan: they run the corrected crtOptimalAction
  bookkeeping (`RecordBest`, the first action of the best leaf's path), not the code at
  optimistic.c:193 and uct.c:177. So their invariant `best.action == best.leaf[0]` describes the
  corrected buildingTrajectory (rows 1 and 2 of the findings). The as-written bookkeeping is
  `RecordBestAsWritten`.
- UCT's sqrt and log are uninterpreted parameters (`Maths`). A child's visit count is at least 1
  in every reachable tree, so the division-by-zero branch is never taken.
- Uct.Step: the trajectoryIds below the root are not claimed to stay UCB argmaxes after a
  re-rooting. Internal nodes keep stale depths, which change the exploration term. The claim is
  stated for the root right after a step.
- The terminal flag is ignored by the uniform planner, so the uniform model has no closed flags.
- Uniform.Keep: the root's crtOptimalLeaf is reused for the kept child's tail of that path, as the
  code does, rather than recomputed.
- Drawing code (`*_drawing.c`), viewers, the problem integrators under `problems/` and the tool
  drivers (including `main_uct.c`) are left out. The integrators' only role is to supply
  transitions with rewards in [0, 1].

## Findings

| source | as written | input that shows it | evidently intended | confidence | as-written member | corrected member |
|---|---|---|---|---|---|---|
| algorithms/optimistic/optimistic.c:190-194 | when a new child beats the best value, the action recorded is `root->trajectoryId` at that moment; while the root itself is being opened, that is the best open child scanned so far | K = 2, gamma = 0.5, a fresh root; action 0 gives 0.5 (open) and action 1 gives 0.9 (terminal): the best leaf is [1] but action 0 is recorded | the first action on the path to the new best leaf | not executed | Optimistic.RootExpansionMisreportsAction | Optimistic.RecordFrom |
| algorithms/uct/uct.c:174-178 | as in optimistic.c, the action recorded for a new best child is `root->trajectoryId` at that moment; while the root itself is being opened, that is the best open child scanned so far | K = 2, gamma = 0.5, a fresh root; action 0 gives 0.5 (open) and action 1 gives 0.9 (terminal): the best leaf is [1] but action 0 is recorded | the first action on the path to the new best leaf | not executed | Uct.RootExpansionMisreportsAction | Uct.RecordFrom |
| algorithms/uct/uct.c:313-321 | re-rooting at an internal child copies its crtOptimalLeaf; when that child is closed and designates itself, the pointer is the old child record, freed right after, and the recorded value is its old sum | K = 2, gamma = 0.5; open the root (0.5, 0.9), then child 1, whose two children are terminal; keep child 1: value 0.9 is recorded for a best leaf whose sum in the new tree is 0 | designate the new root itself, value 0 and action 0, as the kept-leaf branch does | not executed | Uct.KeptClosedChildLosesBestLeaf | Uct.KeepSubtree |
| algorithms/uniform/uniform.c:235-251 | after re-rooting at an internal child, updateValues sets crtDepth to the level of the deepest leaf, and updateNextOpennedNode then puts the frontier one level up; every later opening discounts by gammaPowers[level + 1] (line 172) | K = 2, gamma = 0.5, every reward 1; two steps from a fresh root, then keep child 0: the next opening of [0] gives its children 1.25 instead of 1.5 | crtDepth equal to the level of nextOpennedNode | not executed | Uniform.KeepThenStepMisdiscounts | Uniform.KeepLevelledConsistent |
