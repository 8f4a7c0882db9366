/** Jobs, sequences of jobs, and the total weighted tardiness objective
    (`target` in branchandbound.c). */
module Schedule {

  /** One job: `task_t`. The id is the job's 1-based position in the input. */
  datatype Task = Task(id: int, length: int, due: int, weight: int)

  /** The `MAX` macro. */
  function Max(a: int, b: int): int {
    if a > b then a else b
  }

  /** Weighted tardiness of a job that completes at time `completion`. */
  function Tardiness(t: Task, completion: int): int {
    t.weight * Max(0, completion - t.due)
  }

  /** Completion time of the k-th job of `s` (the sum of the lengths of its first k jobs). */
  function Completion(s: seq<Task>, k: nat): int
    requires k <= |s|
  {
    if k == 0 then 0 else Completion(s, k - 1) + s[k - 1].length
  }

  /** Total weighted tardiness of the first k jobs of `s`. */
  function Cost(s: seq<Task>, k: nat): int
    requires k <= |s|
  {
    if k == 0 then 0 else Cost(s, k - 1) + Tardiness(s[k - 1], Completion(s, k))
  }

  /** Sum of all processing lengths: the time at which `s` is finished. */
  function TotalLength(s: seq<Task>): int {
    Completion(s, |s|)
  }

  /** The objective: the sum over positions i of weight_i * max(0, C_i - due_i), where
      C_i is the completion time of the i-th job; the empty sequence scores 0. */
  function Target(s: seq<Task>): int {
    Cost(s, |s|)
  }

  predicate NonNegativeWeights(s: seq<Task>) {
    forall t :: t in s ==> t.weight >= 0
  }

  /** `s` is an order of exactly the jobs of `tasks`. */
  ghost predicate IsSchedule(s: seq<Task>, tasks: seq<Task>) {
    multiset(s) == multiset(tasks)
  }

  /** `target(solution, n)`: one pass that accumulates the completion time and the sum. */
  method TargetOf(solution: array<Task>, n: nat) returns (sum: int)
    requires n <= solution.Length
    ensures sum == Target(solution[..n])
  {
    ghost var s := solution[..n];
    var i, time := 0, 0;
    sum := 0;
    while i < n
      invariant 0 <= i <= n
      invariant time == Completion(s, i)
      invariant sum == Cost(s, i)
    {
      time := time + solution[i].length;
      var tmp := time - solution[i].due;
      sum := sum + solution[i].weight * Max(0, tmp);
      i := i + 1;
    }
  }

  /** Completion times and costs depend only on the jobs they cover. */
  lemma {:induction false} PrefixAgree(s: seq<Task>, t: seq<Task>, k: nat)
    requires k <= |s| && k <= |t|
    requires forall j :: 0 <= j < k ==> s[j] == t[j]
    ensures Completion(s, k) == Completion(t, k) && Cost(s, k) == Cost(t, k)
  {
    if k > 0 {
      PrefixAgree(s, t, k - 1);
    }
  }

  /** Jobs placed after `p` complete `TotalLength(p)` later than they would alone. */
  lemma {:induction false} CompletionAppend(p: seq<Task>, r: seq<Task>, m: nat)
    requires m <= |r|
    ensures Completion(p + r, |p| + m) == TotalLength(p) + Completion(r, m)
  {
    if m == 0 {
      PrefixAgree(p + r, p, |p|);
    } else {
      CompletionAppend(p, r, m - 1);
      assert (p + r)[|p| + m - 1] == r[m - 1];
    }
  }

  /** Splitting a sequence splits its total length. */
  lemma TotalAppend(p: seq<Task>, q: seq<Task>)
    ensures TotalLength(p + q) == TotalLength(p) + TotalLength(q)
  {
    CompletionAppend(p, q, |q|);
  }

  /** Removing one occurrence of `x` from both sides keeps two equal multisets equal. */
  lemma RemoveOne(a: seq<Task>, x: Task, b: seq<Task>, j: nat)
    requires multiset(a + [x]) == multiset(b) && j < |b| && b[j] == x
    ensures multiset(a) == multiset(b[..j] + b[j + 1..])
  {
    var rest := b[..j] + b[j + 1..];
    assert b == b[..j] + [x] + b[j + 1..];
    assert multiset(a) + multiset{x} == multiset(rest) + multiset{x};
    forall y ensures multiset(a)[y] == multiset(rest)[y] {
      assert (multiset(a) + multiset{x})[y] == (multiset(rest) + multiset{x})[y];
    }
  }

  /** Taking the job at position j out of `b` shortens it by that job's length. */
  lemma TotalRemove(b: seq<Task>, j: nat)
    requires j < |b|
    ensures TotalLength(b) == TotalLength(b[..j] + b[j + 1..]) + b[j].length
  {
    assert b == b[..j] + [b[j]] + b[j + 1..];
    assert TotalLength([b[j]]) == Completion([b[j]], 0) + b[j].length == b[j].length;
    TotalAppend(b[..j] + [b[j]], b[j + 1..]);
    TotalAppend(b[..j], [b[j]]);
    TotalAppend(b[..j], b[j + 1..]);
  }

  /** Reordering the jobs does not change when the last of them completes. */
  lemma {:induction false} TotalPermutation(a: seq<Task>, b: seq<Task>)
    requires multiset(a) == multiset(b)
    ensures TotalLength(a) == TotalLength(b)
    decreases |a|
  {
    if a == [] {
      assert |b| == |multiset(b)| == 0;
      assert b == [];
    } else {
      var a', x := a[..|a| - 1], a[|a| - 1];
      assert a == a' + [x];
      assert x in multiset(b);
      var j :| 0 <= j < |b| && b[j] == x;
      RemoveOne(a', x, b, j);
      TotalPermutation(a', b[..j] + b[j + 1..]);
      TotalAppend(a', [x]);
      assert TotalLength([x]) == Completion([x], 0) + x.length == x.length;
      TotalRemove(b, j);
    }
  }

  /** With non-negative weights every job contributes a non-negative amount. */
  lemma {:induction false} CostNonNegative(s: seq<Task>, k: nat)
    requires k <= |s| && NonNegativeWeights(s)
    ensures Cost(s, k) >= 0
  {
    if k > 0 {
      CostNonNegative(s, k - 1);
      assert s[k - 1] in s;
    }
  }

  lemma TargetNonNegative(s: seq<Task>)
    requires NonNegativeWeights(s)
    ensures Target(s) >= 0
  {
    CostNonNegative(s, |s|);
  }

  /** With non-negative weights the cost of the first k jobs never decreases with k. */
  lemma {:induction false} CostMonotone(s: seq<Task>, k: nat, m: nat)
    requires k <= m <= |s|
    requires forall j :: k <= j < m ==> s[j].weight >= 0
    ensures Cost(s, k) <= Cost(s, m)
    decreases m
  {
    if k < m {
      CostMonotone(s, k, m - 1);
    }
  }

  /** With non-negative weights the objective of a prefix is a lower bound on the
      objective of every extension of it: this licenses the bound check of `permute`. */
  lemma TargetExtensionBound(p: seq<Task>, r: seq<Task>)
    requires NonNegativeWeights(r)
    ensures Target(p) <= Target(p + r)
  {
    PrefixAgree(p + r, p, |p|);
    forall j | |p| <= j < |p + r| ensures (p + r)[j].weight >= 0 {
      assert (p + r)[j] in r;
    }
    CostMonotone(p + r, |p|, |p + r|);
  }

  /** Replacing a prefix by another one with the same total length changes the
      objective of the whole sequence by exactly the change in the prefix's objective:
      the jobs after it complete at the same times. */
  lemma {:induction false} CostExchangePrefix(a: seq<Task>, p: seq<Task>, r: seq<Task>, m: nat)
    requires TotalLength(a) == TotalLength(p) && m <= |r|
    ensures Cost(a + r, |a| + m) - Target(a) == Cost(p + r, |p| + m) - Target(p)
  {
    if m == 0 {
      PrefixAgree(a + r, a, |a|);
      PrefixAgree(p + r, p, |p|);
    } else {
      CostExchangePrefix(a, p, r, m - 1);
      CompletionAppend(a, r, m);
      CompletionAppend(p, r, m);
      assert (a + r)[|a| + m - 1] == r[m - 1] == (p + r)[|p| + m - 1];
    }
  }

  lemma TargetExchangePrefix(a: seq<Task>, p: seq<Task>, r: seq<Task>)
    requires TotalLength(a) == TotalLength(p)
    ensures Target(a + r) - Target(a) == Target(p + r) - Target(p)
  {
    CostExchangePrefix(a, p, r, |r|);
  }

  /** Every schedule of jobs with non-negative weights has non-negative weights. */
  lemma ScheduleWeights(s: seq<Task>, tasks: seq<Task>)
    requires IsSchedule(s, tasks) && NonNegativeWeights(tasks)
    ensures NonNegativeWeights(s)
  {
    forall t | t in s ensures t.weight >= 0 {
      assert t in multiset(s);
    }
  }
}
