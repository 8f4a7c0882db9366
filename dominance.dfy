/** The two dominance tests of the search (`swap_skip` and `length_skip`). Each works
    on a private copy of the partial sequence, rearranges it by cumulative swaps and
    reports whether some intermediate arrangement is strictly cheaper than `original`. */
module Dominance {
  import opened Schedule

  /** `s` with its last element moved to position `j`; the elements from `j` on shift
      right by one. This is what the cumulative adjacent swaps of `swap_skip` leave
      in the copy once they have reached position `j + 1`. */
  function InsertLastAt<T>(s: seq<T>, j: nat): (r: seq<T>)
    requires j < |s|
    ensures |r| == |s|
  {
    s[..j] + [s[|s| - 1]] + s[j..|s| - 1]
  }

  /** `s` with the elements at `i` and `j` exchanged. */
  function Swap<T>(s: seq<T>, i: nat, j: nat): (r: seq<T>)
    requires i < |s| && j < |s|
    ensures |r| == |s|
  {
    s[i := s[j]][j := s[i]]
  }

  /** Position `i` is one that `length_skip` swaps with the last position: its job is
      strictly longer than the job originally last. */
  predicate Longer(s: seq<Task>, i: nat)
    requires i < |s|
  {
    s[i].length > s[|s| - 1].length
  }

  /** The copy of `length_skip` after the positions below `i` have been visited:
      each selected position, in increasing order, is swapped with the last one. */
  function LengthSwapped(s: seq<Task>, i: nat): (r: seq<Task>)
    requires i <= |s|
    ensures |r| == |s|
  {
    if i == 0 then s
    else
      var c := LengthSwapped(s, i - 1);
      if Longer(s, i - 1) then Swap(c, i - 1, |s| - 1) else c
  }

  /** Moving the last job to position `j` is strictly cheaper than `original`. */
  predicate InsertCheaper(s: seq<Task>, j: nat, original: int)
    requires j < |s|
  {
    Target(InsertLastAt(s, j)) < original
  }

  /** `swap_skip` answers 1: moving the last job to some earlier position yields a
      strictly smaller objective than `original`. */
  predicate SwapDominated(s: seq<Task>, original: int) {
    exists j :: 0 <= j < |s| - 1 && InsertCheaper(s, j, original)
  }

  /** Position `k` is swapped by `length_skip` and the copy right after that swap is
      strictly cheaper than `original`. */
  predicate LengthSwapCheaper(s: seq<Task>, k: nat, original: int)
    requires k < |s|
  {
    Longer(s, k) && Target(LengthSwapped(s, k + 1)) < original
  }

  /** `length_skip` answers 1: after some swap with a strictly longer job the
      accumulated copy has a strictly smaller objective than `original`. */
  predicate LengthDominated(s: seq<Task>, original: int) {
    exists k :: 0 <= k < |s| && LengthSwapCheaper(s, k, original)
  }

  /** One more adjacent swap moves the inserted last job one position further left. */
  lemma InsertLastStep<T>(s: seq<T>, i: nat)
    requires 0 < i < |s|
    ensures Swap(InsertLastAt(s, i), i, i - 1) == InsertLastAt(s, i - 1)
  {
    var a, b := Swap(InsertLastAt(s, i), i, i - 1), InsertLastAt(s, i - 1);
    forall k | 0 <= k < |s| ensures a[k] == b[k] {
      if k > i {
        assert a[k] == s[k - 1];
      }
    }
  }

  /** Moving the last job keeps the same jobs. */
  lemma InsertLastPermutes<T>(s: seq<T>, j: nat)
    requires j < |s|
    ensures multiset(InsertLastAt(s, j)) == multiset(s)
  {
    assert s == s[..j] + s[j..|s| - 1] + [s[|s| - 1]];
  }

  lemma SwapPermutes<T>(s: seq<T>, i: nat, j: nat)
    requires i < |s| && j < |s|
    ensures multiset(Swap(s, i, j)) == multiset(s)
  {
    var t := s[i := s[j]];
    assert multiset(t) == multiset(s) - multiset{s[i]} + multiset{s[j]};
    if i != j {
      assert multiset(t[j := s[i]]) == multiset(t) - multiset{s[j]} + multiset{s[i]};
    }
  }

  /** The swaps of `length_skip` keep the same jobs. */
  lemma {:induction false} LengthSwappedPermutes(s: seq<Task>, i: nat)
    requires i <= |s|
    ensures multiset(LengthSwapped(s, i)) == multiset(s)
  {
    if i > 0 {
      var c := LengthSwapped(s, i - 1);
      LengthSwappedPermutes(s, i - 1);
      if Longer(s, i - 1) {
        assert LengthSwapped(s, i) == Swap(c, i - 1, |s| - 1);
        SwapPermutes(c, i - 1, |s| - 1);
      } else {
        assert LengthSwapped(s, i) == c;
      }
    }
  }

  /** `length_skip` only moves jobs out of positions whose original job is strictly
      longer than the original last job, and the job it leaves in the last position
      is never shorter than the original last job. */
  lemma {:induction false} LengthSwappedShape(s: seq<Task>, i: nat)
    requires 0 < |s| && i <= |s|
    ensures forall j :: 0 <= j < |s| - 1 && (i <= j || !Longer(s, j)) ==> LengthSwapped(s, i)[j] == s[j]
    ensures LengthSwapped(s, i)[|s| - 1].length >= s[|s| - 1].length
  {
    if i > 0 {
      LengthSwappedShape(s, i - 1);
      if Longer(s, i - 1) && i - 1 < |s| - 1 {
        assert LengthSwapped(s, i - 1)[i - 1] == s[i - 1];
      }
    }
  }

  /** The defensive copy of both tests: `copy = malloc(...); memcpy(copy, array, ...)`. */
  method Copy(partial: array<Task>, n: nat) returns (copy: array<Task>)
    requires n <= partial.Length
    ensures fresh(copy) && copy[..] == partial[..n]
  {
    copy := new Task[n];
    var k := 0;
    while k < n
      invariant 0 <= k <= n
      invariant forall m :: 0 <= m < k ==> copy[m] == partial[m]
    {
      copy[k] := partial[k];
      k := k + 1;
    }
  }

  /** One step of `swap_skip`: exchanges copy[i] and copy[i - 1]. */
  method AdjacentSwap(copy: array<Task>, i: nat, ghost s: seq<Task>)
    requires 0 < i < |s| && copy[..] == InsertLastAt(s, i)
    modifies copy
    ensures copy[..] == InsertLastAt(s, i - 1)
  {
    ghost var before := copy[..];
    copy[i], copy[i - 1] := copy[i - 1], copy[i];
    assert copy[..] == Swap(before, i, i - 1);
    InsertLastStep(s, i);
  }

  /** One step of `length_skip` at a selected position: exchanges copy[i] and the
      last element. */
  method LastSwap(copy: array<Task>, i: nat, ghost s: seq<Task>)
    requires i < |s| && copy[..] == LengthSwapped(s, i) && Longer(s, i)
    modifies copy
    ensures copy[..] == LengthSwapped(s, i + 1)
  {
    ghost var before := copy[..];
    var last := copy.Length - 1;
    copy[i], copy[last] := copy[last], copy[i];
    assert copy[..] == Swap(before, i, last);
  }

  /** `swap_skip(array, n, original)` on `partial`: swaps copy[i] and copy[i - 1] for i = n - 1 down
      to 1 without undoing them, and stops at the first arrangement cheaper than
      `original`. The caller's array is not in any frame, so it is left untouched. */
  method SwapSkip(partial: array<Task>, n: nat, original: int) returns (dominated: bool)
    requires n <= partial.Length
    ensures dominated == SwapDominated(partial[..n], original)
  {
    ghost var s := partial[..n];
    var copy := Copy(partial, n);
    assert n > 0 ==> InsertLastAt(s, n - 1) == s;
    dominated := false;
    var i: int := n - 1;
    while i > 0
      invariant n == 0 ==> i == -1
      invariant n > 0 ==> 0 <= i < n && copy[..] == InsertLastAt(s, i)
      invariant !dominated
      invariant forall j :: i <= j < n - 1 ==> !InsertCheaper(s, j, original)
    {
      AdjacentSwap(copy, i, s);
      var value := TargetOf(copy, n);
      assert copy[..n] == copy[..];
      assert value < original <==> InsertCheaper(s, i - 1, original);
      if value < original {
        dominated := true;
        break;
      }
      i := i - 1;
    }
    assert !dominated ==> i <= 0;
  }

  /** `length_skip(array, n, original)` on `partial`: for each i whose job in the caller's array is
      strictly longer than the caller's last job, swaps copy[i] with copy[n - 1]
      without undoing earlier swaps, and stops at the first arrangement cheaper than
      `original`. */
  method LengthSkip(partial: array<Task>, n: nat, original: int) returns (dominated: bool)
    requires n <= partial.Length
    ensures dominated == LengthDominated(partial[..n], original)
  {
    ghost var s := partial[..n];
    var copy := Copy(partial, n);
    dominated := false;
    var i := 0;
    while i < n
      invariant 0 <= i <= n
      invariant copy[..] == LengthSwapped(s, i)
      invariant !dominated
      invariant forall k :: 0 <= k < i ==> !LengthSwapCheaper(s, k, original)
    {
      assert s[i] == partial[i] && s[n - 1] == partial[n - 1];
      if partial[i].length > partial[n - 1].length {
        LastSwap(copy, i, s);
        var value := TargetOf(copy, n);
        assert copy[..n] == copy[..];
        assert value < original <==> LengthSwapCheaper(s, i, original);
        if value < original {
          dominated := true;
          break;
        }
      } else {
        assert LengthSwapped(s, i + 1) == LengthSwapped(s, i);
        assert !LengthSwapCheaper(s, i, original);
      }
      i := i + 1;
    }
  }

  /** When `swap_skip` answers 1, the arrangement that triggered it holds the same jobs,
      finishes at the same time and is strictly cheaper than `original`. */
  lemma SwapWitness(s: seq<Task>, original: int) returns (better: seq<Task>)
    requires SwapDominated(s, original)
    ensures multiset(better) == multiset(s) && TotalLength(better) == TotalLength(s)
    ensures Target(better) < original
  {
    var j :| 0 <= j < |s| - 1 && InsertCheaper(s, j, original);
    better := InsertLastAt(s, j);
    InsertLastPermutes(s, j);
    TotalPermutation(better, s);
  }

  /** When `length_skip` answers 1, the arrangement that triggered it holds the same
      jobs, finishes at the same time and is strictly cheaper than `original`. */
  lemma LengthWitness(s: seq<Task>, original: int) returns (better: seq<Task>)
    requires LengthDominated(s, original)
    ensures multiset(better) == multiset(s) && TotalLength(better) == TotalLength(s)
    ensures Target(better) < original
  {
    var k :| 0 <= k < |s| && LengthSwapCheaper(s, k, original);
    better := LengthSwapped(s, k + 1);
    LengthSwappedPermutes(s, k + 1);
    TotalPermutation(better, s);
  }

  /** A single job is never dominated by either test. */
  lemma SingleJobNotDominated(s: seq<Task>, original: int)
    requires |s| == 1
    ensures !SwapDominated(s, original) && !LengthDominated(s, original)
  {
  }
}
