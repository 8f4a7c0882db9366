/** The branch-and-bound search (`generate_initial`'s selection, `permute`, `compute`)
    and the proof that it returns an optimal order of the jobs. */
module Search {
  import opened Schedule
  import opened Dominance

  /** The incumbent that `compute` shares with every level of `permute` through
      `task_t **best` and `int *best_result`. */
  class Incumbent {
    var best: array<Task>
    var bestResult: int

    constructor (best: array<Task>, bestResult: int)
      ensures this.best == best && this.bestResult == bestResult
    {
      this.best := best;
      this.bestResult := bestResult;
    }

    /** The value kept is the objective of the order kept, and that order is a
        schedule of `tasks`. */
    ghost predicate Valid(tasks: seq<Task>)
      reads this, best
    {
      bestResult == Target(best[..]) && IsSchedule(best[..], tasks)
    }
  }

  /** The first |prefix| entries of `fill` index the jobs of `prefix`, in order: the
      partial sequence `array[j] = tasks[fill[j]]` that `permute` rebuilds at a node. */
  predicate FillsPrefix(tasks: seq<Task>, fill: seq<int>, prefix: seq<Task>) {
    |prefix| <= |fill| && forall j :: 0 <= j < |prefix| ==> 0 <= fill[j] < |tasks| && tasks[fill[j]] == prefix[j]
  }

  /** The jobs whose `used` flag is clear, in index order. */
  function Unscheduled(tasks: seq<Task>, used: seq<bool>): seq<Task>
    requires |used| == |tasks|
  {
    if tasks == [] then []
    else (if used[0] then [] else [tasks[0]]) + Unscheduled(tasks[1..], used[1..])
  }

  /** Some schedule of `tasks` is strictly cheaper than `s`. */
  ghost predicate Improvable(s: seq<Task>, tasks: seq<Task>) {
    exists better :: IsSchedule(better, tasks) && Target(better) < Target(s)
  }

  /** The incumbent value `bound` is no worse than `s`, or `s` is not optimal anyway. */
  ghost predicate Covered(s: seq<Task>, tasks: seq<Task>, bound: int) {
    bound <= Target(s) || Improvable(s, tasks)
  }

  /** `s` starts with `prefix`. */
  ghost predicate Extends(s: seq<Task>, prefix: seq<Task>) {
    |prefix| <= |s| && s[..|prefix|] == prefix
  }

  /** Every schedule of `tasks` that starts with `prefix` is covered by `bound`: what a
      finished call of `permute` at that node guarantees. */
  ghost predicate CoversExtensions(prefix: seq<Task>, tasks: seq<Task>, bound: int) {
    forall s {:trigger Extends(s, prefix)} :: Extends(s, prefix) && IsSchedule(s, tasks) ==> Covered(s, tasks, bound)
  }

  /** `samples[k]` is the first sample of least objective, as the strict `>` of
      `generate_initial` keeps it. */
  predicate FirstMinimum(samples: seq<seq<Task>>, k: nat, upTo: nat)
    requires k < upTo <= |samples|
  {
    && (forall j :: 0 <= j < k ==> Target(samples[k]) < Target(samples[j]))
    && (forall j :: k < j < upTo ==> Target(samples[k]) <= Target(samples[j]))
  }

  /** Marking one more job as used removes exactly that job from the unscheduled ones. */
  lemma {:induction false} UnscheduledMark(tasks: seq<Task>, used: seq<bool>, i: nat)
    requires |used| == |tasks| && i < |tasks| && !used[i]
    ensures multiset(Unscheduled(tasks, used[i := true])) + multiset{tasks[i]} == multiset(Unscheduled(tasks, used))
  {
    if i == 0 {
      assert used[i := true][1..] == used[1..];
    } else {
      assert used[i := true][1..] == used[1..][i - 1 := true];
      UnscheduledMark(tasks[1..], used[1..], i - 1);
    }
  }

  /** An unscheduled job is the job of some index whose flag is clear. */
  lemma {:induction false} UnscheduledMember(tasks: seq<Task>, used: seq<bool>, x: Task) returns (i: nat)
    requires |used| == |tasks| && x in multiset(Unscheduled(tasks, used))
    ensures i < |tasks| && !used[i] && tasks[i] == x
  {
    if !used[0] && tasks[0] == x {
      i := 0;
    } else {
      assert x in multiset(Unscheduled(tasks[1..], used[1..]));
      var i' := UnscheduledMember(tasks[1..], used[1..], x);
      i := i' + 1;
    }
  }

  /** With no flag set every job is unscheduled. */
  lemma {:induction false} UnscheduledNone(tasks: seq<Task>, used: seq<bool>)
    requires |used| == |tasks| && forall i :: 0 <= i < |used| ==> !used[i]
    ensures Unscheduled(tasks, used) == tasks
  {
    if tasks != [] {
      UnscheduledNone(tasks[1..], used[1..]);
    }
  }

  /** A smaller incumbent value covers whatever a larger one covered. */
  lemma CoversMonotone(prefix: seq<Task>, tasks: seq<Task>, bound: int, smaller: int)
    requires CoversExtensions(prefix, tasks, bound) && smaller <= bound
    ensures CoversExtensions(prefix, tasks, smaller)
  {
  }

  /** Bound pruning is sound: with non-negative weights, a prefix already worse than
      the incumbent has no extension better than the incumbent. */
  lemma PrunedByBound(prefix: seq<Task>, tasks: seq<Task>, bound: int)
    requires NonNegativeWeights(tasks) && Target(prefix) > bound
    ensures forall s {:trigger Extends(s, prefix)} :: Extends(s, prefix) && IsSchedule(s, tasks) ==> bound < Target(s)
    ensures CoversExtensions(prefix, tasks, bound)
  {
    forall s | Extends(s, prefix) && IsSchedule(s, tasks)
      ensures bound < Target(s)
    {
      var rest := s[|prefix|..];
      assert s == prefix + rest;
      ScheduleWeights(s, tasks);
      assert NonNegativeWeights(rest) by {
        forall t | t in rest ensures t.weight >= 0 {
          assert t in s;
        }
      }
      TargetExtensionBound(prefix, rest);
    }
  }

  /** Dominance pruning is sound: if a rearrangement of the prefix is strictly cheaper,
      then every extension of the prefix is strictly beaten by the same extension of
      the rearrangement, which is again a schedule of the jobs. */
  lemma PrunedByDominance(prefix: seq<Task>, better: seq<Task>, tasks: seq<Task>, bound: int)
    requires multiset(better) == multiset(prefix) && TotalLength(better) == TotalLength(prefix)
    requires Target(better) < Target(prefix)
    ensures forall s {:trigger Extends(s, prefix)} :: Extends(s, prefix) && IsSchedule(s, tasks) ==> Improvable(s, tasks)
    ensures CoversExtensions(prefix, tasks, bound)
  {
    forall s | Extends(s, prefix) && IsSchedule(s, tasks)
      ensures Improvable(s, tasks)
    {
      var rest := s[|prefix|..];
      assert s == prefix + rest;
      TargetExchangePrefix(better, prefix, rest);
      assert IsSchedule(better + rest, tasks);
    }
  }

  /** A complete sequence has no other extension than itself. */
  lemma LeafCovered(prefix: seq<Task>, tasks: seq<Task>, bound: int)
    requires |prefix| == |tasks| && bound <= Target(prefix)
    ensures CoversExtensions(prefix, tasks, bound)
  {
    forall s | Extends(s, prefix) && IsSchedule(s, tasks)
      ensures Covered(s, tasks, bound)
    {
      assert |s| == |multiset(s)| == |multiset(tasks)| == |tasks|;
      assert s == s[..|prefix|];
    }
  }

  /** Multiset union cancels on the left. */
  lemma CancelPrefix(p: multiset<Task>, a: multiset<Task>, b: multiset<Task>)
    requires p + a == p + b
    ensures a == b
  {
    forall y ensures a[y] == b[y] {
      assert (p + a)[y] == (p + b)[y];
    }
  }

  /** The job that follows `prefix` in a schedule extending it is an unscheduled one. */
  lemma NextJob(prefix: seq<Task>, tasks: seq<Task>, used: seq<bool>, s: seq<Task>) returns (k: nat)
    requires |used| == |tasks| && |prefix| < |tasks|
    requires multiset(prefix) + multiset(Unscheduled(tasks, used)) == multiset(tasks)
    requires IsSchedule(s, tasks) && Extends(s, prefix)
    ensures k < |tasks| && !used[k] && Extends(s, prefix + [tasks[k]])
  {
    var rest := s[|prefix|..];
    assert s == prefix + rest;
    assert |s| == |multiset(s)| == |multiset(tasks)| == |tasks|;
    CancelPrefix(multiset(prefix), multiset(rest), multiset(Unscheduled(tasks, used)));
    assert rest[0] in multiset(rest);
    k := UnscheduledMember(tasks, used, rest[0]);
  }

  /** Every extension of `prefix` continues with some job whose flag is clear, so
      covering the extensions of each child covers those of the node. */
  lemma ChildrenCover(prefix: seq<Task>, tasks: seq<Task>, used: seq<bool>, bound: int)
    requires |used| == |tasks| && |prefix| < |tasks|
    requires multiset(prefix) + multiset(Unscheduled(tasks, used)) == multiset(tasks)
    requires forall k :: 0 <= k < |tasks| && !used[k] ==> CoversExtensions(prefix + [tasks[k]], tasks, bound)
    ensures CoversExtensions(prefix, tasks, bound)
  {
    forall s | Extends(s, prefix) && IsSchedule(s, tasks)
      ensures Covered(s, tasks, bound)
    {
      var k := NextJob(prefix, tasks, used, s);
      var child := prefix + [tasks[k]];
      assert CoversExtensions(child, tasks, bound);
      assert Extends(s, child);
    }
  }

  /** If every schedule is covered by `bound`, then `bound` is a lower bound on every
      schedule: by well-founded induction on the (non-negative) objective, a schedule
      that is not optimal is beaten by a cheaper one, which is covered in turn. */
  lemma {:induction false} CoveredIsOptimal(tasks: seq<Task>, bound: int, s: seq<Task>)
    requires NonNegativeWeights(tasks)
    requires forall t :: IsSchedule(t, tasks) ==> Covered(t, tasks, bound)
    requires IsSchedule(s, tasks)
    ensures bound <= Target(s)
    decreases Target(s)
  {
    if Target(s) < bound {
      assert Improvable(s, tasks);
      var better :| IsSchedule(better, tasks) && Target(better) < Target(s);
      ScheduleWeights(better, tasks);
      TargetNonNegative(better);
      CoveredIsOptimal(tasks, bound, better);
    }
  }

  /** Rebuilds the partial sequence of a node: `array[j] = tasks[fill[j]]` for j < k. */
  method Assemble(tasks: seq<Task>, fill: array<int>, k: nat) returns (partial: array<Task>)
    requires k <= fill.Length && forall j :: 0 <= j < k ==> 0 <= fill[j] < |tasks|
    ensures partial.Length == k && forall j :: 0 <= j < k ==> partial[j] == tasks[fill[j]]
  {
    partial := new Task[k];
    var j := 0;
    while j < k
      invariant 0 <= j <= k
      invariant forall m :: 0 <= m < j ==> partial[m] == tasks[fill[m]]
    {
      partial[j] := tasks[fill[j]];
      j := j + 1;
    }
  }

  /** The keep-the-best part of `generate_initial`: the random orders it draws are
      given as `samples`, and the first one of least objective is kept. With no
      sample at all (n = 0) the result is null, as `generate_initial` returns NULL. */
  method GenerateInitial(tasks: seq<Task>, samples: seq<seq<Task>>) returns (best: array?<Task>)
    requires forall k :: 0 <= k < |samples| ==> |samples[k]| == |tasks|
    ensures best == null <==> samples == []
    ensures best != null ==> exists k :: 0 <= k < |samples| && best[..] == samples[k] && FirstMinimum(samples, k, |samples|)
  {
    var n := |tasks|;
    best := null;
    var bestResult := 0;
    ghost var chosen := 0;
    var it := 0;
    while it < |samples|
      invariant 0 <= it <= |samples|
      invariant best == null <==> it == 0
      invariant best != null ==> chosen < it && best[..] == samples[chosen] && bestResult == Target(samples[chosen]) && FirstMinimum(samples, chosen, it)
    {
      var initial := new Task[n](i requires 0 <= i < n => samples[it][i]);
      assert initial[..] == samples[it];
      var value := TargetOf(initial, n);
      assert initial[..n] == initial[..];
      if best == null || bestResult > value {
        best := initial;
        bestResult := TargetOf(best, n);
        chosen := it;
      }
      it := it + 1;
    }
  }

  /** The pruning decision of `permute` at a proper prefix (`index < n - 1`): the
      node is kept unless its objective exceeds the incumbent value (strictly, so
      equal values are explored), or `swap_skip` or `length_skip` fires. A node that is
      dropped has no extension that the incumbent does not already cover. */
  method KeepNode(tasks: seq<Task>, partial: array<Task>, bestResult: int) returns (cont: bool)
    ensures cont == (Target(partial[..]) <= bestResult
                     && !SwapDominated(partial[..], Target(partial[..]))
                     && !LengthDominated(partial[..], Target(partial[..])))
    ensures !cont && NonNegativeWeights(tasks) ==> CoversExtensions(partial[..], tasks, bestResult)
  {
    ghost var child := partial[..];
    var n := partial.Length;
    assert partial[..n] == child;
    cont := true;
    var partialResult := TargetOf(partial, n);
    if partialResult > bestResult {
      cont := false;
      if NonNegativeWeights(tasks) {
        PrunedByBound(child, tasks, bestResult);
      }
    }
    if cont {
      var dominated := SwapSkip(partial, n, partialResult);
      if dominated {
        cont := false;
        ghost var better := SwapWitness(child, partialResult);
        PrunedByDominance(child, better, tasks, bestResult);
      }
    }
    if cont {
      var dominated := LengthSkip(partial, n, partialResult);
      if dominated {
        cont := false;
        ghost var better := LengthWitness(child, partialResult);
        PrunedByDominance(child, better, tasks, bestResult);
      }
    }
  }

  /** The indices of a partial sequence also index each of its prefixes. */
  lemma FillsShorter(tasks: seq<Task>, fill: seq<int>, child: seq<Task>, prefix: seq<Task>)
    requires FillsPrefix(tasks, fill, child) && |prefix| <= |child| && child[..|prefix|] == prefix
    ensures FillsPrefix(tasks, fill, prefix)
  {
    forall j | 0 <= j < |prefix| ensures tasks[fill[j]] == prefix[j] {
      assert prefix[j] == child[j];
    }
  }

  /** `fill[index] = i` followed by the rebuilding of the node's partial sequence. */
  method Place(tasks: seq<Task>, fill: array<int>, index: nat, i: nat, ghost prefix: seq<Task>) returns (partial: array<Task>)
    requires index == |prefix| < fill.Length && i < |tasks|
    requires FillsPrefix(tasks, fill[..], prefix)
    modifies fill
    ensures FillsPrefix(tasks, fill[..], prefix + [tasks[i]])
    ensures partial[..] == prefix + [tasks[i]]
  {
    fill[index] := i;
    partial := Assemble(tasks, fill, index + 1);
    assert partial[..] == prefix + [tasks[i]];
  }

  /** The leaf of `permute` (`index == n - 1`): a complete order replaces the
      incumbent only if it is strictly cheaper, and the value kept is recomputed
      from the new order. */
  method Complete(tasks: seq<Task>, partial: array<Task>, inc: Incumbent)
    requires partial.Length == |tasks| && IsSchedule(partial[..], tasks)
    requires inc.Valid(tasks)
    modifies inc
    ensures inc.Valid(tasks)
    ensures inc.bestResult == if Target(partial[..]) < old(inc.bestResult) then Target(partial[..]) else old(inc.bestResult)
    ensures inc.best == if Target(partial[..]) < old(inc.bestResult) then partial else old(inc.best)
  {
    var n := |tasks|;
    assert partial[..n] == partial[..];
    var value := TargetOf(partial, n);
    if value < inc.bestResult {
      inc.best := partial;
      inc.bestResult := TargetOf(inc.best, n);
    }
  }

  /** Marking job `i` as used moves it from the unscheduled jobs to the end of the prefix. */
  lemma ChildBalance(tasks: seq<Task>, used: seq<bool>, prefix: seq<Task>, i: nat)
    requires |used| == |tasks| && i < |tasks| && !used[i]
    requires multiset(prefix) + multiset(Unscheduled(tasks, used)) == multiset(tasks)
    ensures multiset(prefix + [tasks[i]]) + multiset(Unscheduled(tasks, used[i := true])) == multiset(tasks)
    ensures |prefix| + 1 == |tasks| ==> IsSchedule(prefix + [tasks[i]], tasks)
  {
    UnscheduledMark(tasks, used, i);
    var rest := multiset(Unscheduled(tasks, used[i := true]));
    assert multiset(prefix + [tasks[i]]) == multiset(prefix) + multiset{tasks[i]};
    assert multiset(prefix + [tasks[i]]) + rest == multiset(tasks);
    if |prefix| + 1 == |tasks| {
      assert |multiset(tasks)| == |tasks| == |multiset(prefix + [tasks[i]])|;
      assert rest == multiset{};
    }
  }

  /** `used[i] = 1; permute(..., index + 1, ...); used[i] = 0;`: search below the
      node extended by job `i` and restore its flag. */
  method Descend(tasks: seq<Task>, fill: array<int>, depth: nat, used: array<bool>, inc: Incumbent, i: nat, ghost child: seq<Task>)
    requires fill.Length == |tasks| && used.Length == |tasks|
    requires 0 < depth == |child| < |tasks| && i < |tasks| && !used[i]
    requires FillsPrefix(tasks, fill[..], child)
    requires multiset(child) + multiset(Unscheduled(tasks, used[..][i := true])) == multiset(tasks)
    requires NonNegativeWeights(tasks)
    requires inc.Valid(tasks)
    modifies fill, used, inc
    decreases |tasks| - depth + 1, 0
    ensures used[..] == old(used[..]) && FillsPrefix(tasks, fill[..], child)
    ensures inc.Valid(tasks) && inc.bestResult <= old(inc.bestResult)
    ensures CoversExtensions(child, tasks, inc.bestResult)
  {
    ghost var usedBefore := used[..];
    used[i] := true;
    assert used[..] == usedBefore[i := true];
    Permute(tasks, fill, depth, used, inc, child);
    used[i] := false;
    assert used[..] == usedBefore;
  }

  /** The inner node of one loop step (`index < n - 1`): the pruning decision, then,
      if the node is kept, the search below it. */
  method Explore(tasks: seq<Task>, fill: array<int>, used: array<bool>, inc: Incumbent, i: nat, partial: array<Task>, ghost child: seq<Task>)
    requires fill.Length == |tasks| && used.Length == |tasks|
    requires 0 < |child| < |tasks| && i < |tasks| && !used[i] && partial[..] == child
    requires FillsPrefix(tasks, fill[..], child)
    requires multiset(child) + multiset(Unscheduled(tasks, used[..][i := true])) == multiset(tasks)
    requires NonNegativeWeights(tasks)
    requires inc.Valid(tasks)
    modifies fill, used, inc
    decreases |tasks| - |child| + 1, 1
    ensures used[..] == old(used[..]) && FillsPrefix(tasks, fill[..], child)
    ensures inc.Valid(tasks) && inc.bestResult <= old(inc.bestResult)
    ensures CoversExtensions(child, tasks, inc.bestResult)
  {
    var cont := KeepNode(tasks, partial, inc.bestResult);
    if cont {
      Descend(tasks, fill, partial.Length, used, inc, i, child);
    }
  }

  /** One iteration of the loop of `permute` for an unused job `i`: place it at
      `fill[index]`, then either prune, descend with `used[i]` set and clear it again,
      or, at a complete order, offer it to the incumbent. */
  method Branch(tasks: seq<Task>, fill: array<int>, index: nat, used: array<bool>, inc: Incumbent, i: nat, ghost prefix: seq<Task>)
    requires fill.Length == |tasks| && used.Length == |tasks|
    requires index == |prefix| < |tasks| && i < |tasks| && !used[i]
    requires FillsPrefix(tasks, fill[..], prefix)
    requires multiset(prefix) + multiset(Unscheduled(tasks, used[..])) == multiset(tasks)
    requires NonNegativeWeights(tasks)
    requires inc.Valid(tasks)
    modifies fill, used, inc
    decreases |tasks| - index, 2
    ensures used[..] == old(used[..]) && FillsPrefix(tasks, fill[..], prefix)
    ensures inc.Valid(tasks) && inc.bestResult <= old(inc.bestResult)
    ensures CoversExtensions(prefix + [tasks[i]], tasks, inc.bestResult)
  {
    var n := |tasks|;
    ghost var child := prefix + [tasks[i]];
    var partial := Place(tasks, fill, index, i, prefix);
    ChildBalance(tasks, used[..], prefix, i);
    if index < n - 1 {
      Explore(tasks, fill, used, inc, i, partial, child);
    } else {
      Complete(tasks, partial, inc);
      LeafCovered(child, tasks, inc.bestResult);
    }
    FillsShorter(tasks, fill[..], child, prefix);
  }

  /** `permute`: depth-first search below the node whose partial sequence is
      `prefix` = `tasks[fill[0]], ..., tasks[fill[index - 1]]`, over the jobs whose
      `used` flag is clear, in increasing index order. On return the flags and the
      prefix are as they were, the incumbent has not got worse, and every schedule
      extending the prefix is covered by it. */
  method Permute(tasks: seq<Task>, fill: array<int>, index: nat, used: array<bool>, inc: Incumbent, ghost prefix: seq<Task>)
    requires fill.Length == |tasks| && used.Length == |tasks|
    requires index == |prefix| && (index < |tasks| || index == 0)
    requires FillsPrefix(tasks, fill[..], prefix)
    requires multiset(prefix) + multiset(Unscheduled(tasks, used[..])) == multiset(tasks)
    requires NonNegativeWeights(tasks)
    requires inc.Valid(tasks)
    modifies fill, used, inc
    decreases |tasks| - index, 3
    ensures used[..] == old(used[..]) && FillsPrefix(tasks, fill[..], prefix)
    ensures inc.Valid(tasks) && inc.bestResult <= old(inc.bestResult)
    ensures CoversExtensions(prefix, tasks, inc.bestResult)
  {
    var n := |tasks|;
    var i := 0;
    while i < n
      invariant 0 <= i <= n
      invariant used[..] == old(used[..]) && FillsPrefix(tasks, fill[..], prefix)
      invariant inc.Valid(tasks) && inc.bestResult <= old(inc.bestResult)
      invariant forall k :: 0 <= k < i && !used[k] ==> CoversExtensions(prefix + [tasks[k]], tasks, inc.bestResult)
    {
      if !used[i] {
        ghost var before := inc.bestResult;
        Branch(tasks, fill, index, used, inc, i, prefix);
        forall k | 0 <= k < i && !used[k]
          ensures CoversExtensions(prefix + [tasks[k]], tasks, inc.bestResult)
        {
          CoversMonotone(prefix + [tasks[k]], tasks, before, inc.bestResult);
        }
      }
      i := i + 1;
    }
    if n == 0 {
      assert inc.best[..] == [] by {
        assert |inc.best[..]| == |multiset(inc.best[..])| == 0;
      }
      LeafCovered(prefix, tasks, inc.bestResult);
    } else {
      ChildrenCover(prefix, tasks, used[..], inc.bestResult);
    }
  }

  /** Covering every schedule from the root means being optimal. */
  lemma RootCoverIsOptimal(tasks: seq<Task>, bound: int)
    requires NonNegativeWeights(tasks) && CoversExtensions([], tasks, bound)
    ensures forall s :: IsSchedule(s, tasks) ==> bound <= Target(s)
  {
    forall t | IsSchedule(t, tasks) ensures Covered(t, tasks, bound) {
      assert Extends(t, []);
    }
    forall s | IsSchedule(s, tasks) ensures bound <= Target(s) {
      CoveredIsOptimal(tasks, bound, s);
    }
  }

  /** `compute`: seeds the incumbent with the best of the given random orders and runs
      the search from the empty prefix. The order returned is a schedule of the jobs
      and no schedule of them has a smaller objective. */
  method Compute(tasks: seq<Task>, samples: seq<seq<Task>>) returns (best: array<Task>)
    requires NonNegativeWeights(tasks)
    requires |samples| == |tasks| * |tasks|
    requires forall k :: 0 <= k < |samples| ==> IsSchedule(samples[k], tasks)
    ensures IsSchedule(best[..], tasks)
    ensures forall s :: IsSchedule(s, tasks) ==> Target(best[..]) <= Target(s)
  {
    var n := |tasks|;
    var used := new bool[n](i => false);
    var fill := new int[n];
    forall k | 0 <= k < |samples| ensures |samples[k]| == n {
      assert |samples[k]| == |multiset(samples[k])| == |multiset(tasks)|;
    }
    var initial := GenerateInitial(tasks, samples);
    if initial == null {
      // n = 0: `compute` returns the NULL of `generate_initial`, which stands for the empty order
      initial := new Task[0];
    }
    var bestResult := TargetOf(initial, n);
    assert initial[..n] == initial[..];
    var inc := new Incumbent(initial, bestResult);
    UnscheduledNone(tasks, used[..]);
    Permute(tasks, fill, 0, used, inc, []);
    best := inc.best;
    RootCoverIsOptimal(tasks, inc.bestResult);
  }
}
