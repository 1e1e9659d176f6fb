/** Sorting a file list, and the permutation that the receiver needs (flist/sort.rs, flist/recv.rs). */
module FileSort {
  import opened Bytes
  import opened FileTypes
  import opened FileOrder

  /** Entry i goes before entry j in a stable sort. */
  predicate Before(files: seq<FileInfo>, i: nat, j: nat)
    requires i < |files| && j < |files|
  {
    match Compare(files[i], files[j])
    case Less => true
    case Equal => i < j
    case Greater => false
  }

  /** `order` lists all positions of `files` in stable sorted order. */
  ghost predicate IsStableOrder(files: seq<FileInfo>, order: seq<nat>) {
    && |order| == |files|
    && (forall k :: 0 <= k < |order| ==> order[k] < |files|)
    && (forall k, l :: 0 <= k < l < |order| ==> Before(files, order[k], order[l]))
  }

  function Permuted(files: seq<FileInfo>, order: seq<nat>): (r: seq<FileInfo>)
    requires forall k :: 0 <= k < |order| ==> order[k] < |files|
    ensures |r| == |order| && forall k :: 0 <= k < |order| ==> r[k] == files[order[k]]
  {
    seq(|order|, k requires 0 <= k < |order| => files[order[k]])
  }

  lemma BeforeOrder(files: seq<FileInfo>, i: nat, j: nat, k: nat)
    requires i < |files| && j < |files| && k < |files|
    ensures i != j ==> Before(files, i, j) != Before(files, j, i)
    ensures !Before(files, i, i)
    ensures Before(files, i, j) && Before(files, j, k) ==> Before(files, i, k)
  {
    hide Compare;
    CompareIsTotalPreorder(files[i], files[j], files[k]);
    CompareIsTotalPreorder(files[k], files[i], files[j]);
    CompareIsTotalPreorder(files[j], files[k], files[i]);
  }

  /** The library's stable sort, keeping track of where entries came from. */
  method SortIndexed(files: seq<FileInfo>) returns (order: seq<nat>)
    ensures IsStableOrder(files, order)
  {
    order := [];
    for n := 0 to |files|
      invariant |order| == n
      invariant forall k :: 0 <= k < n ==> order[k] < n
      invariant forall k, l :: 0 <= k < l < n ==> Before(files, order[k], order[l])
    {
      order := Insert(files, order, n);
    }
  }

  method Insert(files: seq<FileInfo>, order: seq<nat>, n: nat) returns (r: seq<nat>)
    requires n < |files| && |order| == n
    requires forall k :: 0 <= k < n ==> order[k] < n
    requires forall k, l :: 0 <= k < l < n ==> Before(files, order[k], order[l])
    ensures |r| == n + 1
    ensures forall k :: 0 <= k < n + 1 ==> r[k] < n + 1
    ensures forall k, l :: 0 <= k < l < n + 1 ==> Before(files, r[k], r[l])
  {
    hide Compare;
    var pos := n;
    var c := Less;
    while pos > 0
      invariant 0 <= pos <= n
      invariant forall k :: pos <= k < n ==> Before(files, n, order[k])
    {
      c := FileCompare(files[order[pos - 1]], files[n]);
      BeforeOrder(files, order[pos - 1], n, n);
      if c != Greater {
        break;
      }
      pos := pos - 1;
    }
    forall k | 0 <= k < pos
      ensures Before(files, order[k], n)
    {
      BeforeOrder(files, order[k], order[pos - 1], n);
    }
    r := order[..pos] + [n] + order[pos..];
  }

  /** Sort the list in place of itself. */
  method FlistSort(files: seq<FileInfo>) returns (sorted: seq<FileInfo>, order: seq<nat>)
    ensures IsStableOrder(files, order) && sorted == Permuted(files, order) && Sorted(sorted)
    ensures forall i, j :: 0 <= i < j < |sorted| ==> !Precedes(sorted[j], sorted[i])
  {
    order := SortIndexed(files);
    sorted := Permuted(files, order);
    StableOrderSorts(files, order);
    SortedByText(sorted);
  }

  /** Nothing in a sorted list comes before what stands before it. */
  lemma SortedByText(sorted: seq<FileInfo>)
    requires Sorted(sorted)
    ensures forall i, j :: 0 <= i < j < |sorted| ==> !Precedes(sorted[j], sorted[i])
  {
    hide Compare, Precedes;
    forall i, j | 0 <= i < j < |sorted|
      ensures !Precedes(sorted[j], sorted[i])
    {
      CompareByText(sorted[j], sorted[i]);
      CompareIsTotalPreorder(sorted[i], sorted[j], sorted[i]);
    }
  }

  lemma StableOrderSorts(files: seq<FileInfo>, order: seq<nat>)
    requires IsStableOrder(files, order)
    ensures Sorted(Permuted(files, order))
  {
    hide Compare;
    var sorted := Permuted(files, order);
    forall i, j | 0 <= i < j < |sorted|
      ensures Compare(sorted[i], sorted[j]) != Greater
    {
      assert Before(files, order[i], order[j]);
    }
  }

  lemma {:induction false} IncreasingAtLeast(order: seq<nat>, k: nat)
    requires k < |order| && forall i, j :: 0 <= i < j < |order| ==> order[i] < order[j]
    ensures order[k] >= k
  {
    if k > 0 {
      IncreasingAtLeast(order, k - 1);
    }
  }

  lemma {:induction false} IncreasingAtMost(order: seq<nat>, k: nat, bound: nat)
    requires k < |order| && forall i, j :: 0 <= i < j < |order| ==> order[i] < order[j]
    requires forall i :: 0 <= i < |order| ==> order[i] < bound
    ensures order[k] <= bound - (|order| - k)
    decreases |order| - k
  {
    if k + 1 < |order| {
      IncreasingAtMost(order, k + 1, bound);
    }
  }

  /** A list that is already sorted is left exactly as it is, equal entries included. */
  lemma SortedIsFixed(files: seq<FileInfo>, order: seq<nat>)
    requires Sorted(files) && IsStableOrder(files, order)
    ensures forall k :: 0 <= k < |order| ==> order[k] == k
    ensures Permuted(files, order) == files
  {
    hide Compare;
    forall k, l | 0 <= k < l < |order|
      ensures order[k] < order[l]
    {
      var i, j := order[k], order[l];
      assert Before(files, i, j);
      if j < i {
        assert Compare(files[j], files[i]) != Greater;
        BeforeOrder(files, i, j, i);
      } else if i == j {
        BeforeOrder(files, i, i, i);
      }
    }
    forall k | 0 <= k < |order|
      ensures order[k] == k
    {
      IncreasingAtLeast(order, k);
      IncreasingAtMost(order, k, |files|);
    }
  }

  /** A stable order hits every position: it has as many distinct values as there are positions. */
  lemma OrderHitsAll(files: seq<FileInfo>, order: seq<nat>, p: nat)
    requires IsStableOrder(files, order) && p < |files|
    ensures p in order
  {
    hide Compare;
    forall k, l | 0 <= k < l < |order|
      ensures order[k] != order[l]
    {
      assert Before(files, order[k], order[l]);
      BeforeOrder(files, order[k], order[k], order[k]);
    }
    Pigeonhole(order, |files|, p);
  }

  lemma {:induction false} Pigeonhole(order: seq<nat>, n: nat, p: nat)
    requires |order| == n && p < n
    requires forall k :: 0 <= k < n ==> order[k] < n
    requires forall k, l :: 0 <= k < l < n ==> order[k] != order[l]
    ensures p in order
  {
    var hit := set k | 0 <= k < n :: order[k];
    DistinctCount(order, n);
    if p !in hit {
      assert hit <= Range(n) - {p};
      SubsetCount(hit, Range(n) - {p});
    }
  }

  function Range(n: nat): (r: set<nat>)
    ensures |r| == n && forall k: nat :: k in r <==> k < n
  {
    if n == 0 then {} else Range(n - 1) + {n - 1}
  }

  lemma {:induction false} DistinctCount(order: seq<nat>, n: nat)
    requires n <= |order| && forall k, l :: 0 <= k < l < n ==> order[k] != order[l]
    ensures |set k | 0 <= k < n :: order[k]| == n
  {
    if n > 0 {
      DistinctCount(order, n - 1);
      OneMore(order, n);
    }
  }

  lemma OneMore(order: seq<nat>, n: nat)
    requires 0 < n <= |order|
    ensures (set k | 0 <= k < n :: order[k]) == (set k | 0 <= k < n - 1 :: order[k]) + {order[n - 1]}
  {
    var before, after := set k | 0 <= k < n - 1 :: order[k], set k | 0 <= k < n :: order[k];
    forall x | x in after
      ensures x in before + {order[n - 1]}
    {
      var k :| 0 <= k < n && order[k] == x;
      assert k < n - 1 ==> order[k] in before;
    }
  }

  lemma {:induction false} SubsetCount(a: set<nat>, b: set<nat>)
    requires a <= b
    ensures |a| <= |b|
    decreases b
  {
    if x: nat :| x in a {
      SubsetCount(a - {x}, b - {x});
    }
  }
}
