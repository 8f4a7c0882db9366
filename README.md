# Branch-and-bound for single-machine total weighted tardiness

`branchandbound.c` solves the scheduling problem 1||ΣwⱼTⱼ exactly. Jobs have a
processing length, a due date and a weight. They run one after another on one machine,
starting at time 0. A job that completes at time C costs `weight * max(0, C - due)`.
The program looks for an order of all jobs that minimises the sum of these costs (`target`).

It works in three steps:

- **Initial incumbent.** `generate_initial` draws n² random orders and keeps the first
  cheapest one.
- **Depth-first search.** `permute` builds orders job by job. It tracks which jobs are
  placed with a `used` flag array, and stores the indices of the placed jobs in a `fill`
  buffer.
- **Pruning.** At each proper prefix the node is dropped in three cases:
  - its objective is already strictly worse than the incumbent's;
  - `swap_skip` finds a strictly cheaper arrangement by moving the last job leftwards
    one position at a time, accumulating the swaps;
  - `length_skip` finds a strictly cheaper arrangement by swapping the job in the last
    position with each job longer than the original last job, in index order,
    accumulating the swaps.

  A complete order replaces the incumbent only when it is strictly cheaper.

The model has three modules:

- **`Schedule`** (`schedule.dfy`): the job record and the objective.
  - `Target` is a specification function defined position by position.
  - `TargetOf` is the loop of `target`, proved equal to `Target`.
  - Lemmas about the objective:
    - with non-negative weights it is non-negative;
    - a prefix costs no more than any extension of it (with non-negative weights);
    - reordering the jobs keeps the total length;
    - exchanging a prefix for another one of equal length shifts the objective of
      every extension by the same amount.
- **`Dominance`** (`dominance.dfy`): `swap_skip` and `length_skip`.
  - Each is a method that loops over a private copy, which is an `array`.
  - Each is proved equal to a predicate over the caller's prefix (`SwapDominated`,
    `LengthDominated`).
  - Lemmas show that whenever a test fires, the arrangement that triggered it holds the
    same jobs, ends at the same time and is strictly cheaper.
- **`Search`** (`search.dfy`): the rest of the search.
  - The incumbent shared by reference is a class `Incumbent`. Its invariant `Valid`
    says that the value kept is the objective of the order kept, and that the order is
    a schedule of the jobs.
  - `GenerateInitial` is the keep-the-best selection.
  - `Permute` is split into its natural pieces, all methods:
    - `Place` writes `fill` and rebuilds the partial array;
    - `KeepNode` decides on pruning from that array and the incumbent value;
    - `Explore` handles a proper prefix: it prunes the node or descends below it;
    - `Descend` sets and clears a `used` flag around the recursive call;
    - `Complete` offers a complete order to the incumbent;
    - `Branch` is one step of the loop.
  - `Compute` ties the pieces together.

The central property is `CoversExtensions(prefix, tasks, bound)`. It says that every
schedule extending the node's prefix either costs at least the incumbent value or is
beaten by some other schedule. A finished `Permute` guarantees it for its node:

- Bound pruning keeps it because of `TargetExtensionBound`.
- Dominance pruning keeps it because of `TargetExchangePrefix`.
- A node inherits it from its children, because every extension continues with some job
  whose flag is clear.

At the root, `CoveredIsOptimal` turns coverage into optimality. It uses well-founded
induction on the objective, which is non-negative when the weights are.

The bound check prunes only when a prefix's objective is strictly greater than the
incumbent value (`>` at line 234), so ties are explored. The model follows the code.

A schedule of `tasks` is any sequence with the same multiset of jobs. The code never
compares jobs, so equal records are interchangeable.

## Model

| member | source | states |
|---|---|---|
| Schedule.TargetOf | branchandbound.c:73-84 | the accumulated sum of `target` over the first n entries equals `Target`, the sum over positions of weight·max(0, completion − due), with completion the running sum of lengths; the empty sequence scores 0 |
| Schedule.TargetNonNegative | branchandbound.c:76-81 | with non-negative weights every order has a non-negative objective |
| Schedule.TargetExtensionBound | branchandbound.c:231-234 | with non-negative weights the objective of a prefix is at most the objective of any extension of it, which is what makes the bound check sound |
| Schedule.CostMonotone | branchandbound.c:76-81 | with non-negative weights the running sum of `target` never decreases from one position to a later one |
| Schedule.TotalPermutation | branchandbound.c:103-107 | two orders of the same jobs finish at the same time |
| Schedule.TargetExchangePrefix | branchandbound.c:236-241 | replacing a prefix by one of equal total length changes the objective of every extension by exactly the change in the prefix's objective |
| Schedule.CompletionAppend | branchandbound.c:76-77 | jobs placed after a prefix complete exactly the prefix's total length later than they would alone |
| Dominance.Copy | branchandbound.c:98-100 | the defensive copy is a fresh array whose contents are the first n jobs of the caller's array |
| Dominance.AdjacentSwap | branchandbound.c:105-107 | each adjacent swap moves the original last job one position further left, the jobs in between shifting right |
| Dominance.InsertLastPermutes | branchandbound.c:103-108 | the cumulative swaps of `swap_skip` keep the same multiset of jobs |
| Dominance.SwapSkip | branchandbound.c:93-117 | the answer is 1 exactly when moving the last job to some earlier position gives an objective strictly below `original`; the caller's array is outside every frame, so it is unchanged |
| Dominance.SwapWitness | branchandbound.c:103-113 | when `swap_skip` fires, there is an order of the same jobs with the same total length whose objective is strictly below `original` |
| Dominance.LastSwap | branchandbound.c:137-140 | a swap at a selected position produces the next cumulative arrangement of `length_skip` |
| Dominance.LengthSwappedShape | branchandbound.c:135-141 | `length_skip` moves only positions whose original job is strictly longer than the original last job, and the job it leaves last is never shorter than the original last job |
| Dominance.LengthSwappedPermutes | branchandbound.c:136-141 | the cumulative swaps of `length_skip` keep the same multiset of jobs |
| Dominance.LengthSkip | branchandbound.c:126-151 | the answer is 1 exactly when, for some position whose original job is strictly longer than the original last job, the arrangement right after its swap has an objective strictly below `original`; the caller's array is unchanged |
| Dominance.LengthWitness | branchandbound.c:136-146 | when `length_skip` fires, there is an order of the same jobs with the same total length whose objective is strictly below `original` |
| Dominance.SingleJobNotDominated | branchandbound.c:103 | for a single job neither test can fire |
| Search.Incumbent.constructor | branchandbound.c:281-282 | the incumbent holds the given order and value |
| Search.GenerateInitial | branchandbound.c:187-192 | the order kept is one of the candidates; every earlier candidate costs strictly more and no later one costs less; there is no order (null) exactly when there are no candidates |
| Search.Assemble | branchandbound.c:222-224 | the rebuilt partial sequence holds `tasks[fill[j]]` at each position j below index + 1 |
| Search.Place | branchandbound.c:220-224 | after `fill[index] = i` the buffer indexes the child's prefix and the rebuilt array is exactly that prefix |
| Search.UnscheduledMark | branchandbound.c:244 | setting `used[i]` removes job i, and only job i, from the unscheduled jobs |
| Search.UnscheduledMember | branchandbound.c:218-219 | every unscheduled job is the job of an index whose flag is clear |
| Search.UnscheduledNone | branchandbound.c:276-277 | with all flags clear every job is unscheduled |
| Search.ChildBalance | branchandbound.c:244-245 | placed and unscheduled jobs together are all the jobs, in the child too; at the last level the child is a complete schedule |
| Search.PrunedByBound | branchandbound.c:234 | with non-negative weights, when a prefix's objective is strictly above the incumbent value, every schedule extending it costs strictly more than the incumbent value, so the prefix is covered |
| Search.PrunedByDominance | branchandbound.c:237-241 | when some order of the prefix's jobs with the same total length is strictly cheaper, every schedule extending the prefix is strictly beaten by another schedule, so the branch holds no optimum and the prefix is covered |
| Search.KeepNode | branchandbound.c:226-241 | for any weights, the node is kept exactly when its objective is at most the incumbent value and neither dominance test fires; with non-negative weights a dropped node has every extension covered by the incumbent |
| Search.CoversMonotone | branchandbound.c:256 | lowering the incumbent value keeps every node covered |
| Search.LeafCovered | branchandbound.c:248-257 | a complete order is its own only extension, so it is covered when the incumbent value is at most its objective |
| Search.Complete | branchandbound.c:248-257 | a complete order replaces the incumbent exactly when its objective is strictly smaller; the value kept is recomputed and the incumbent stays valid |
| Search.Explore | branchandbound.c:226-247 | at a proper prefix, the node is either pruned or searched; either way the flags and the prefix of `fill` are as on entry, the incumbent stays valid and does not increase, and every extension of the node is covered |
| Search.Descend | branchandbound.c:243-247 | `used[i]` is set for the recursive call and cleared afterwards, so the flags are as on entry; the child's extensions are covered |
| Search.NextJob | branchandbound.c:218-219 | a schedule that extends the prefix continues with a job whose flag is clear |
| Search.ChildrenCover | branchandbound.c:218-261 | covering the extensions of every unused child covers those of the node |
| Search.Branch | branchandbound.c:219-259 | one loop step keeps the flags and the prefix of `fill`, keeps the incumbent valid and non-increasing, and covers every extension of the child |
| Search.Permute | branchandbound.c:212-262 | on return the flags are restored, `fill` still indexes the prefix, the incumbent is valid and its value has not increased, and every schedule extending the prefix is covered by the incumbent |
| Search.CoveredIsOptimal | branchandbound.c:285 | if every schedule is covered, the incumbent value is at most the objective of every schedule |
| Search.RootCoverIsOptimal | branchandbound.c:285 | coverage at the empty prefix means the incumbent value is a lower bound over all schedules |
| Search.Compute | branchandbound.c:270-292 | with non-negative weights and n² candidate schedules, the order returned is a schedule of the jobs and no schedule has a smaller objective |

## Left out

- `read_tasks`, `print_tasks` and `main` (branchandbound.c:27-65, 294-306): stdin and
  stdout plumbing. The jobs are a parameter.
- The random part of `generate_initial` (`srand(time(NULL))` and the rejection sampling
  with `rand() % n`): it depends on the clock and the C library's generator.
  - `Search.GenerateInitial` and `Search.Compute` take the n² drawn orders as a
    parameter, `samples`.
  - `Compute` requires each of them to be a schedule of the jobs.
- `malloc`, `memcpy` and `free`: each allocation is a fresh Dafny array. The pointer
  swaps of `best` become assignments of array references. Allocation failure is not
  handled by the code and is not modelled.
- 32-bit `int` arithmetic: lengths, due dates, weights and sums are unbounded integers.
  Overflow of the accumulators in `target` is not modelled.
- Search.Compute: optimality is proved only for non-negative weights.
  - The code does not check weights.
  - With a negative weight the bound check of line 234 is unsound, and the model claims
    nothing then.
  - Lengths may be any integers; the proofs do not need them to be non-negative.
- Search.Compute: for n = 0 `compute` returns the NULL that `generate_initial` gives. The model returns an
  empty array instead, since an empty order is the same answer.
- Search.Compute: when several schedules are optimal, the model does not say which one
  is returned.
