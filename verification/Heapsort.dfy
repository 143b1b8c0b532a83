/** The in-place heapsort of the page allocator. */
module Heapsort {

  ghost predicate Ascending(s: seq<nat>) {
    forall i, j :: 0 <= i < j < |s| ==> s[i] <= s[j]
  }

  // Every node from `lo` on dominates its children, up to index `end`.
  ghost predicate HeapFrom(s: seq<nat>, lo: nat, end: nat)
    requires end < |s|
  {
    forall i :: lo <= i <= end ==> Dominates(s, i, end)
  }

  ghost predicate Dominates(s: seq<nat>, i: nat, end: nat)
    requires end < |s|
  {
    && (2 * i + 1 <= end ==> i <= end && s[i] >= s[2 * i + 1])
    && (2 * i + 2 <= end ==> i <= end && s[i] >= s[2 * i + 2])
  }

  function Swapped(s: seq<nat>, i: nat, j: nat): (r: seq<nat>)
    requires i < |s| && j < |s|
    ensures |r| == |s|
  {
    s[i := s[j]][j := s[i]]
  }

  lemma SwapKeeps(s: seq<nat>, i: nat, j: nat)
    requires i < |s| && j < |s|
    ensures multiset(Swapped(s, i, j)) == multiset(s)
  {
  }

  /** The root of a heap is its largest element. */
  lemma {:induction false} RootIsLargest(s: seq<nat>, end: nat, i: nat)
    requires end < |s| && HeapFrom(s, 0, end) && i <= end
    ensures s[i] <= s[0]
    decreases i
  {
    if i > 0 {
      var p := (i - 1) / 2;
      assert Dominates(s, p, end);
      RootIsLargest(s, end, p);
    }
  }

  // All elements up to `end` are at most b.
  ghost predicate Below(s: seq<nat>, end: nat, b: nat)
    requires end < |s|
  {
    forall i :: 0 <= i <= end ==> s[i] <= b
  }

  method Swap(a: array<nat>, i: nat, j: nat)
    requires i < a.Length && j < a.Length
    modifies a
    ensures a[..] == Swapped(old(a[..]), i, j)
  {
    a[i], a[j] := a[j], a[i];
  }

  // While sifting, only the node `root` may be out of order with its children, and whatever
  // stands above it already dominates them.
  ghost predicate Sifting(s: seq<nat>, start: nat, root: nat, end: nat)
    requires end < |s|
  {
    && start <= root <= end
    && (forall i :: start <= i <= end && i != root ==> Dominates(s, i, end))
    && (forall i :: start <= i <= end && (2 * i + 1 == root || 2 * i + 2 == root) ==>
          (2 * root + 1 <= end ==> s[i] >= s[2 * root + 1]) && (2 * root + 2 <= end ==> s[i] >= s[2 * root + 2]))
  }

  lemma SiftStep(s: seq<nat>, start: nat, root: nat, end: nat, child: nat)
    requires end < |s| && Sifting(s, start, root, end)
    requires (child == 2 * root + 1 || child == 2 * root + 2) && child <= end
    requires s[child] > s[root] && (2 * root + 1 <= end ==> s[child] >= s[2 * root + 1])
      && (2 * root + 2 <= end ==> s[child] >= s[2 * root + 2])
    ensures Sifting(Swapped(s, root, child), start, child, end)
  {
    var t := Swapped(s, root, child);
    forall i | start <= i <= end && i != child
      ensures Dominates(t, i, end)
    {
      assert i != root ==> Dominates(s, i, end);
    }
    assert Dominates(s, child, end);
  }

  lemma SiftStart(s: seq<nat>, start: nat, end: nat)
    requires start <= end < |s| && HeapFrom(s, start + 1, end)
    ensures Sifting(s, start, start, end)
  {
  }

  lemma NoLargerChild(s: seq<nat>, root: nat, end: nat)
    requires root <= end < |s|
    requires 2 * root + 1 <= end ==> s[root] >= s[2 * root + 1]
    requires 2 * root + 2 <= end ==> s[root] >= s[2 * root + 2]
    ensures Dominates(s, root, end)
  {
  }

  lemma SiftDone(s: seq<nat>, start: nat, root: nat, end: nat)
    requires end < |s| && Sifting(s, start, root, end) && Dominates(s, root, end)
    ensures HeapFrom(s, start, end)
  {
  }

  lemma SwapTouches(s: seq<nat>, i: nat, j: nat, end: nat)
    requires end < |s| && i <= end && j <= end
    ensures forall k :: end < k < |s| ==> Swapped(s, i, j)[k] == s[k]
  {
  }

  lemma SwapBelow(s: seq<nat>, i: nat, j: nat, end: nat, b: nat)
    requires end < |s| && i <= end && j <= end && Below(s, end, b)
    ensures Below(Swapped(s, i, j), end, b)
  {
  }

  /** `sift_down`: restores the heap from `start` on; b bounds the elements throughout. */
  method SiftDown(a: array<nat>, start: nat, end: nat, ghost b: nat)
    requires start <= end < a.Length && Below(a[..], end, b)
    requires HeapFrom(a[..], start + 1, end)
    modifies a
    ensures HeapFrom(a[..], start, end) && Below(a[..], end, b)
    ensures multiset(a[..]) == old(multiset(a[..]))
    ensures forall i :: end < i < a.Length ==> a[i] == old(a[i])
  {
    hide Sifting, HeapFrom, Below, Dominates, Swapped;
    SiftStart(a[..], start, end);
    var root := start;
    while true
      invariant start <= root <= end < a.Length
      invariant Sifting(a[..], start, root, end) && Below(a[..], end, b)
      invariant multiset(a[..]) == old(multiset(a[..]))
      invariant forall i :: end < i < a.Length ==> a[i] == old(a[i])
      decreases end - root
    {
      var child := root * 2 + 1;
      if child > end {
        NoLargerChild(a[..], root, end);
        SiftDone(a[..], start, root, end);
        return;
      }
      var swap := root;
      if a[swap] < a[child] {
        swap := child;
      }
      if child + 1 <= end && a[swap] < a[child + 1] {
        swap := child + 1;
      }
      if swap == root {
        NoLargerChild(a[..], root, end);
        SiftDone(a[..], start, root, end);
        return;
      }
      SiftStep(a[..], start, root, end, swap);
      SwapKeeps(a[..], root, swap);
      SwapBelow(a[..], root, swap, end, b);
      SwapTouches(a[..], root, swap, end);
      Swap(a, root, swap);
      root := swap;
    }
  }

  // The tail from `end + 1` on is sorted and holds nothing smaller than the rest.
  ghost predicate TailSorted(s: seq<nat>, end: nat, n: nat)
    requires end < n <= |s|
  {
    && (forall i, j :: end < i < j < n ==> s[i] <= s[j])
    && (forall i, j :: 0 <= i <= end < j < n ==> s[i] <= s[j])
  }

  lemma MaxOf(s: seq<nat>, end: nat) returns (b: nat)
    requires end < |s|
    ensures Below(s, end, b) && exists i :: 0 <= i <= end && s[i] == b
  {
    b := s[0];
    var k := 0;
    while k < end
      invariant 0 <= k <= end && (forall i :: 0 <= i <= k ==> s[i] <= b) && exists i :: 0 <= i <= k && s[i] == b
    {
      k := k + 1;
      if s[k] > b {
        b := s[k];
      }
    }
  }

  // The first loop of `heap_sort_u64`: a heap of the elements up to `last`.
  method Heapify(a: array<nat>, last: nat)
    requires 0 < last < a.Length
    modifies a
    ensures HeapFrom(a[..], 0, last) && multiset(a[..]) == old(multiset(a[..]))
    ensures forall i :: last < i < a.Length ==> a[i] == old(a[i])
  {
    ghost var b := MaxOf(a[..], last);
    var start: nat := (last - 1) / 2 + 1;
    while start > 0
      invariant start <= (last - 1) / 2 + 1
      invariant HeapFrom(a[..], start, last) && Below(a[..], last, b)
      invariant multiset(a[..]) == old(multiset(a[..]))
      invariant forall i :: last < i < a.Length ==> a[i] == old(a[i])
    {
      SiftDown(a, start - 1, last, b);
      start := start - 1;
    }
  }

  /** `heap_sort_u64`: the first n elements, in ascending order; nothing else moves. */
  method HeapSort(a: array<nat>, n: nat)
    requires n <= a.Length
    modifies a
    ensures Ascending(a[..n]) && multiset(a[..]) == old(multiset(a[..]))
    ensures forall i :: n <= i < a.Length ==> a[i] == old(a[i])
  {
    hide HeapFrom, Below;
    if n < 2 {
      return;
    }
    Heapify(a, n - 1);
    var end: nat := n - 1;
    while end > 0
      invariant end < n && HeapFrom(a[..], 0, end) && TailSorted(a[..], end, n)
      invariant multiset(a[..]) == old(multiset(a[..]))
      invariant forall i :: n <= i < a.Length ==> a[i] == old(a[i])
    {
      ExtractMax(a, end, n);
      end := end - 1;
    }
  }

  // The body of the second loop: the largest element goes behind the heap.
  method ExtractMax(a: array<nat>, end: nat, n: nat)
    requires 0 < end < n <= a.Length && HeapFrom(a[..], 0, end) && TailSorted(a[..], end, n)
    modifies a
    ensures HeapFrom(a[..], 0, end - 1) && TailSorted(a[..], end - 1, n)
    ensures multiset(a[..]) == old(multiset(a[..]))
    ensures forall i :: n <= i < a.Length ==> a[i] == old(a[i])
  {
    hide HeapFrom, Below, TailSorted, Dominates;
    ghost var s := a[..];
    RootOut(s, end, n);
    SwapKeeps(s, end, 0);
    Swap(a, end, 0);
    ghost var t := a[..];
    SiftDown(a, 0, end - 1, s[0]);
    assert forall i :: end <= i < n ==> a[..][i] == t[i];
    TailKept(s, a[..], end, n);
  }

  // Moving the root behind the shrinking heap.
  lemma RootOut(s: seq<nat>, end: nat, n: nat)
    requires 0 < end < n <= |s| && HeapFrom(s, 0, end)
    ensures Below(Swapped(s, end, 0), end - 1, s[0]) && HeapFrom(Swapped(s, end, 0), 1, end - 1)
    ensures forall i :: 0 <= i <= end ==> s[i] <= s[0]
  {
    var t, last := Swapped(s, end, 0), end - 1;
    forall i | 0 <= i <= end
      ensures s[i] <= s[0]
    {
      RootIsLargest(s, end, i);
    }
    forall i | 1 <= i <= last
      ensures Dominates(t, i, last)
    {
      assert Dominates(s, i, end);
    }
  }

  lemma TailKept(s: seq<nat>, t: seq<nat>, end: nat, n: nat)
    requires 0 < end < n <= |s| == |t| && TailSorted(s, end, n) && forall i :: 0 <= i <= end ==> s[i] <= s[0]
    requires Below(t, end - 1, s[0]) && t[end] == s[0] && forall i :: end < i < n ==> t[i] == s[i]
    ensures TailSorted(t, end - 1, n)
  {
  }

  lemma PrefixMultiset(s: seq<nat>, t: seq<nat>, n: nat)
    requires n <= |s| == |t| && multiset(s) == multiset(t) && s[n..] == t[n..]
    ensures multiset(s[..n]) == multiset(t[..n])
  {
    assert s == s[..n] + s[n..] && t == t[..n] + t[n..];
    Cancel(multiset(s[..n]), multiset(t[..n]), multiset(s[n..]));
  }

  lemma Cancel(a: multiset<nat>, b: multiset<nat>, c: multiset<nat>)
    requires a + c == b + c
    ensures a == b
  {
    forall x: nat
      ensures a[x] == b[x]
    {
      assert (a + c)[x] == a[x] + c[x] && (b + c)[x] == b[x] + c[x];
    }
  }
}
