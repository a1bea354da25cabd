/** Order properties of a binary max-heap laid out in a sequence of priorities:
    slot k > 0 has its parent at (k - 1) / 2, and a parent must be at least
    as large as each of its children. */
module HeapOrder {

  /** Go's integer division, which truncates toward zero (Dafny's `/` is Euclidean). */
  function GoQuo(a: int, b: int): (q: int)
    requires b > 0
    ensures a >= 0 ==> 0 <= a - q * b < b
    ensures a < 0 ==> 0 <= q * b - a < b
  {
    if a >= 0 then a / b else -((-a) / b)
  }

  function Parent(k: nat): nat
    requires k > 0
  {
    (k - 1) / 2
  }

  /** The sequence with the elements at i and j exchanged. */
  function Swapped<T>(s: seq<T>, i: nat, j: nat): (r: seq<T>)
    requires i < |s| && j < |s|
    ensures |r| == |s| && r[i] == s[j] && r[j] == s[i]
    ensures forall k :: 0 <= k < |s| && k != i && k != j ==> r[k] == s[k]
    ensures multiset(r) == multiset(s)
  {
    s[i := s[j]][j := s[i]]
  }

  /** Every link inside the first n slots whose parent sits at lo or later is ordered. */
  ghost predicate HeapFrom(a: seq<int>, n: nat, lo: nat)
    requires n <= |a|
  {
    forall k {:trigger Parent(k)} :: 0 < k < n && lo <= Parent(k) ==> a[Parent(k)] >= a[k]
  }

  ghost predicate IsMaxHeap(a: seq<int>)
  {
    HeapFrom(a, |a|, 0)
  }

  /** The state of a sift-down that started at lo and now stands at i: every link
      of the subtree below lo is ordered except those leaving i, and once i has
      moved below lo, the parent of i dominates the children of i. */
  ghost predicate SiftingDown(a: seq<int>, n: nat, lo: nat, i: nat)
    requires n <= |a|
  {
    (forall k {:trigger Parent(k)} :: 0 < k < n && lo <= Parent(k) && Parent(k) != i ==> a[Parent(k)] >= a[k]) &&
    (lo < i ==> forall k {:trigger Parent(k)} :: 0 < k < n && Parent(k) == i ==> a[Parent(i)] >= a[k])
  }

  /** The state of a sift-up standing at j: every link except the one entering j
      is ordered, and the parent of j dominates the children of j. */
  ghost predicate SiftingUp(a: seq<int>, j: nat)
    requires j < |a|
  {
    (forall k {:trigger Parent(k)} :: 0 < k < |a| && k != j ==> a[Parent(k)] >= a[k]) &&
    (0 < j ==> forall k {:trigger Parent(k)} :: 0 < k < |a| && Parent(k) == j ==> a[Parent(j)] >= a[k])
  }

  /** A heap whose slot i has just been given a new priority: every link not
      touching i is ordered, and the parent of i dominates the children of i. */
  ghost predicate HeapExcept(a: seq<int>, i: nat)
    requires i < |a|
  {
    (forall k {:trigger Parent(k)} :: 0 < k < |a| && k != i && Parent(k) != i ==> a[Parent(k)] >= a[k]) &&
    (0 < i ==> forall k {:trigger Parent(k)} :: 0 < k < |a| && Parent(k) == i ==> a[Parent(i)] >= a[k])
  }

  lemma ParentOfChild(i: nat, k: nat)
    requires k > 0
    ensures Parent(k) == i <==> k == 2 * i + 1 || k == 2 * i + 2
  {
  }

  /** The root of a max-heap holds its largest priority. */
  lemma {:induction false} RootIsMax(a: seq<int>, k: nat)
    requires IsMaxHeap(a) && k < |a|
    ensures a[0] >= a[k]
    decreases k
  {
    if k > 0 {
      RootIsMax(a, Parent(k));
    }
  }

  lemma RootBoundsAll(a: seq<int>)
    requires IsMaxHeap(a) && |a| > 0
    ensures forall k :: 0 <= k < |a| ==> a[k] <= a[0]
  {
    forall k | 0 <= k < |a|
      ensures a[k] <= a[0]
    {
      RootIsMax(a, k);
    }
  }

  /** A bound on every element carries over to any rearrangement. */
  lemma BoundOfPermutation(a: seq<int>, b: seq<int>, m: int)
    requires multiset(a) == multiset(b)
    requires forall k :: 0 <= k < |a| ==> a[k] <= m
    ensures forall k :: 0 <= k < |b| ==> b[k] <= m
  {
    forall k | 0 <= k < |b|
      ensures b[k] <= m
    {
      assert b[k] in multiset(a);
    }
  }

  /** Nothing has to be checked below the last parent: the second half of the
      slots are leaves. */
  lemma LeavesAreHeaps(a: seq<int>, n: nat)
    requires n <= |a|
    ensures HeapFrom(a, n, n / 2)
  {
  }

  /** One step of sift-down: exchanging i with its larger child j, when that
      child is larger than i, moves the hole down to j. */
  lemma DownStep(a: seq<int>, n: nat, lo: nat, i: nat, j: nat)
    requires n <= |a| && lo <= i && j < n
    requires j == 2 * i + 1 || j == 2 * i + 2
    requires SiftingDown(a, n, lo, i)
    requires a[j] > a[i]
    requires forall k :: 0 < k < n && Parent(k) == i ==> a[j] >= a[k]
    ensures SiftingDown(Swapped(a, i, j), n, lo, j)
  {
  }

  /** The child of i that sift-down compares i with: the left one, unless the
      right one is in range and strictly larger. */
  function LargerChild(a: seq<int>, n: nat, i: nat): nat
    requires n <= |a| && 2 * i + 1 < n
  {
    var j1 := 2 * i + 1;
    if j1 + 1 < n && a[j1 + 1] > a[j1] then j1 + 1 else j1
  }

  /** The child Go's down picks: the right one j1 + 1 only when it is in range
      and strictly larger than the left one j1. */
  lemma ChildChoice(a: seq<int>, n: nat, i: nat, j1: nat, j: nat, right: bool)
    requires n <= |a| && j1 == 2 * i + 1 && j1 < n
    requires right == (j1 + 1 < n && a[j1 + 1] > a[j1])
    requires j == if right then j1 + 1 else j1
    ensures j == LargerChild(a, n, i)
  {
  }

  /** Every slot that is neither i0 nor has its parent at i0 or later, and every
      slot from n on, holds what it held in s0. */
  ghost predicate SameOutside<T>(s0: seq<T>, s: seq<T>, n: nat, i0: nat)
    requires |s0| == |s|
  {
    forall k :: 0 <= k < |s| && (n <= k || (k != i0 && (k == 0 || Parent(k) < i0))) ==> s[k] == s0[k]
  }

  /** The loop state of a sift-down from i0 over the first n slots, now at i:
      s is a rearrangement of s0 and a of a0 (the priorities of s and s0),
      the heap order holds as SiftingDown says, nothing outside the subtree of
      i0 has moved, and once something moved, slot i0 holds the former child c
      of i0. */
  ghost predicate DownLoop<T>(s0: seq<T>, s: seq<T>, a0: seq<int>, a: seq<int>, n: nat, i0: nat, i: nat, c: nat)
  {
    |s0| == |s| == |a0| == |a| && n <= |a| &&
    multiset(s) == multiset(s0) && multiset(a) == multiset(a0) &&
    i0 <= i && (i == i0 || (i < n && i0 <= Parent(i))) &&
    SiftingDown(a, n, i0, i) &&
    SameOutside(s0, s, n, i0) && SameOutside(a0, a, n, i0) &&
    (i == i0 ==> s == s0 && a == a0) &&
    (i0 < i ==> 0 < c < n && Parent(c) == i0 && s[i0] == s0[c] && a[i0] == a0[c])
  }

  /** Exchanging two slots of the subtree of i0 below n leaves every slot
      outside it where it was. */
  lemma SwapInsideKeepsOutside<T>(s0: seq<T>, s: seq<T>, n: nat, i0: nat, i: nat, j: nat)
    requires |s0| == |s| && n <= |s| && i < n && j < n
    requires i == i0 || (i > 0 && i0 <= Parent(i))
    requires j > 0 && i0 <= Parent(j)
    requires SameOutside(s0, s, n, i0)
    ensures SameOutside(s0, Swapped(s, i, j), n, i0)
  {
  }

  /** Exchanging i with the larger child, when that child is larger than i,
      keeps the sift-down loop state with the hole moved to the child. */
  lemma DownLoopStep<T>(s0: seq<T>, s: seq<T>, a0: seq<int>, a: seq<int>, n: nat, i0: nat, i: nat, c: nat)
    requires DownLoop(s0, s, a0, a, n, i0, i, c)
    requires 2 * i + 1 < n && a[LargerChild(a, n, i)] > a[i]
    ensures var j := LargerChild(a, n, i);
      DownLoop(s0, Swapped(s, i, j), a0, Swapped(a, i, j), n, i0, j, if i == i0 then j else c)
  {
    var j := LargerChild(a, n, i);
    forall k | 0 < k < n && Parent(k) == i
      ensures a[j] >= a[k]
    {
      ParentOfChild(i, k);
    }
    DownStep(a, n, i0, i, j);
    ParentOfChild(i, j);
    SwapInsideKeepsOutside(s0, s, n, i0, i, j);
    SwapInsideKeepsOutside(a0, a, n, i0, i, j);
  }

  /** Sift-down stops when i has no child in range or its larger child is not
      larger than i; the subtree of i0 is then a heap. */
  lemma DownLoopDone<T>(s0: seq<T>, s: seq<T>, a0: seq<int>, a: seq<int>, n: nat, i0: nat, i: nat, c: nat)
    requires DownLoop(s0, s, a0, a, n, i0, i, c)
    requires 2 * i + 1 >= n || a[LargerChild(a, n, i)] <= a[i]
    ensures HeapFrom(a, n, i0)
  {
  }

  /** One step of sift-up: a slot larger than its parent changes place with it. */
  lemma UpStep(a: seq<int>, j: nat)
    requires 0 < j < |a|
    requires SiftingUp(a, j)
    requires a[j] > a[Parent(j)]
    ensures SiftingUp(Swapped(a, Parent(j), j), Parent(j))
  {
  }

  /** Sift-up stops at the root or below a parent at least as large. */
  lemma UpDone(a: seq<int>, j: nat)
    requires j < |a|
    requires SiftingUp(a, j)
    requires j == 0 || a[j] <= a[Parent(j)]
    ensures IsMaxHeap(a)
  {
  }

  /** Giving one slot of a max-heap a new priority breaks at most the links
      touching that slot. */
  lemma SetBreaksOnlyAt(a: seq<int>, i: nat, p: int)
    requires IsMaxHeap(a) && i < |a|
    ensures HeapExcept(a[i := p], i)
  {
  }

  /** A slot whose links are broken only downwards can start a sift-down. */
  lemma ExceptStartsDown(a: seq<int>, i: nat)
    requires i < |a| && HeapExcept(a, i)
    ensures SiftingDown(a, |a|, i, i)
  {
  }

  /** After a sift-down that did not move anything, the only link that can still
      be broken is the one entering i: a sift-up starts there. */
  lemma NoMoveStartsUp(a: seq<int>, i: nat)
    requires i < |a|
    requires HeapExcept(a, i) && HeapFrom(a, |a|, i)
    ensures SiftingUp(a, i)
  {
  }

  /** After a sift-down from i that moved the child c of i into slot i and left
      every slot outside the subtree of i alone, the whole sequence is a heap. */
  lemma MovedIsHeap(a: seq<int>, b: seq<int>, i: nat, c: nat)
    requires |a| == |b| && 0 < c < |a| && Parent(c) == i
    requires HeapExcept(a, i) && HeapFrom(b, |b|, i)
    requires b[i] == a[c]
    requires SameOutside(a, b, |a|, i)
    ensures IsMaxHeap(b)
  {
  }

  /** Exchanging the root with the last slot n and leaving n out of range keeps
      every link below the root ordered. */
  lemma RootSwapKeepsBelow(a: seq<int>, n: nat)
    requires IsMaxHeap(a) && n < |a|
    ensures HeapFrom(Swapped(a, 0, n), n, 1)
  {
  }

  /** A prefix of slots ordered as a heap is a max-heap on its own. */
  lemma PrefixIsHeap(a: seq<int>, n: nat)
    requires n <= |a| && HeapFrom(a, n, 0)
    ensures IsMaxHeap(a[..n])
  {
  }
}
