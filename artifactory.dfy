/** The index-tracking max-priority queue of top_downloads/src/pkg/artifactory/artifactrepo.go,
    together with the binary-heap routines of Go's container/heap package
    (Init, Pop, Fix and their helpers up and down) that drive it through its
    Len, Less and Swap methods. */
module Artifactory {
  import opened HeapOrder

  /** Something managed in the priority queue: an artifact name with its
      download count, and the slot it currently occupies. */
  class Item {
    var value: string
    var priority: int
    var index: int

    constructor (value: string, priority: int, index: int)
      ensures this.value == value && this.priority == priority && this.index == index
    {
      this.value := value;
      this.priority := priority;
      this.index := index;
    }
  }

  ghost function PrioritiesOf(s: seq<Item>): (a: seq<int>)
    reads s`priority
    ensures |a| == |s|
    ensures forall k :: 0 <= k < |s| ==> a[k] == s[k].priority
  {
    if s == [] then [] else PrioritiesOf(s[..|s| - 1]) + [s[|s| - 1].priority]
  }

  /** A slice of item pointers, kept in heap order by container/heap. */
  class PriorityQueue {
    var items: seq<Item>
    /** The items this queue has held: the objects whose index field its
        operations may write. */
    ghost var Repr: set<Item>

    constructor ()
      ensures items == [] && Repr == {}
    {
      items := [];
      Repr := {};
    }

    /** The index bookkeeping: every item records the slot it occupies. It also
        makes the items pairwise distinct. */
    ghost predicate Valid()
      reads this`items, this`Repr, items`index
    {
      (forall k :: 0 <= k < |items| ==> items[k].index == k) &&
      (forall k :: 0 <= k < |items| ==> items[k] in Repr)
    }

    /** The priorities, slot by slot. */
    ghost function Prios(): (a: seq<int>)
      reads this`items, items`priority
      ensures |a| == |items|
      ensures forall k :: 0 <= k < |items| ==> a[k] == items[k].priority
    {
      PrioritiesOf(items)
    }

    function Len(): (n: nat)
      reads this
      ensures n == |items|
    {
      |items|
    }

    function Last(): Item
      reads this
      requires |items| > 0
    {
      items[|items| - 1]
    }

    /** Greater-than, so that the heap's minimum under Less is the largest priority. */
    function Less(i: nat, j: nat): (b: bool)
      reads this`items, items`priority
      requires i < |items| && j < |items|
      ensures b <==> Prios()[i] > Prios()[j]
    {
      items[i].priority > items[j].priority
    }

    method Swap(i: nat, j: nat)
      requires Valid() && i < |items| && j < |items|
      modifies this`items, Repr`index
      ensures Valid()
      ensures items == Swapped(old(items), i, j)
      ensures Prios() == Swapped(old(Prios()), i, j)
      ensures forall k :: 0 <= k < |items| && k != i && k != j ==>
                items[k] == old(items[k]) && items[k].index == old(items[k].index)
    {
      ghost var a := Prios();
      items := items[i := items[j]][j := items[i]];
      items[i].index := i;
      items[j].index := j;
      assert Prios() == Swapped(a, i, j);
    }

    /** Appends an item that is not yet in the queue and records its slot. */
    method Push(item: Item)
      requires Valid() && item !in items
      modifies this`items, this`Repr, item`index
      ensures Valid() && Repr == old(Repr) + {item}
      ensures items == old(items) + [item] && item.index == old(|items|)
      ensures Prios() == old(Prios()) + [item.priority]
    {
      var n := |items|;
      item.index := n;
      items := items + [item];
      Repr := Repr + {item};
    }

    /** Removes and returns the last item, marking it as no longer in the queue. */
    method Pop() returns (item: Item)
      requires Valid() && |items| > 0
      modifies this`items, this`Repr, Last()`index
      ensures Valid() && Repr == old(Repr) - {item}
      ensures item == old(items[|items| - 1]) && item.index == -1
      ensures items == old(items[..|items| - 1]) && old(items) == items + [item]
      ensures Prios() == old(Prios())[..|items|]
    {
      var n := |items|;
      item := items[n - 1];
      item.index := -1;
      items := items[..n - 1];
      Repr := Repr - {item};
    }

    /** Gives an item a new value and priority and restores the heap order at
        its slot. An item already popped has index -1, and Fix at -1 moves nothing. */
    method Update(item: Item, value: string, priority: int)
      requires Valid() && IsMaxHeap(Prios()) && (item in items || item.index == -1)
      modifies item`value, item`priority, this`items, Repr`index
      ensures Valid() && IsMaxHeap(Prios())
      ensures item.value == value && item.priority == priority
      ensures multiset(items) == multiset(old(items))
      ensures old(item !in items) ==> items == old(items)
      ensures forall it :: it in old(items) && it != item ==>
                it.value == old(it.value) && it.priority == old(it.priority)
    {
      ghost var a := Prios();
      var i := item.index;
      item.value := value;
      item.priority := priority;
      if 0 <= i {
        assert Prios() == a[i := priority];
        SetBreaksOnlyAt(a, i, priority);
      } else {
        assert Prios() == a;
      }
      Fix(this, i);
    }
  }

  /** container/heap's down(h, i0, n): sift the item at i0 down within the
      first n slots. Reports whether it moved. */
  method SiftDown(pq: PriorityQueue, i0: nat, n: nat) returns (moved: bool)
    requires pq.Valid() && n <= |pq.items|
    requires SiftingDown(pq.Prios(), n, i0, i0)
    modifies pq`items, pq.Repr`index
    ensures pq.Valid() && |pq.items| == old(|pq.items|)
    ensures multiset(pq.items) == multiset(old(pq.items))
    ensures multiset(pq.Prios()) == multiset(old(pq.Prios()))
    ensures HeapFrom(pq.Prios(), n, i0)
    ensures SameOutside(old(pq.items), pq.items, n, i0)
    ensures SameOutside(old(pq.Prios()), pq.Prios(), n, i0)
    ensures !moved ==> pq.items == old(pq.items)
    ensures moved ==>
              exists c :: 0 < c < n && Parent(c) == i0 && pq.items[i0] == old(pq.items[c]) && pq.Prios()[i0] == old(pq.Prios())[c]
  {
    var i := i0;
    ghost var c: nat := 0;
    while true
      invariant pq.Valid()
      invariant DownLoop(old(pq.items), pq.items, old(pq.Prios()), pq.Prios(), n, i0, i, c)
      decreases n - i
    {
      var j1 := 2 * i + 1;
      if j1 >= n {
        DownLoopDone(old(pq.items), pq.items, old(pq.Prios()), pq.Prios(), n, i0, i, c);
        break;
      }
      ghost var a := pq.Prios();
      var j := j1;
      if j1 + 1 < n && pq.Less(j1 + 1, j1) {
        j := j1 + 1;
      }
      ChildChoice(a, n, i, j1, j, j1 + 1 < n && a[j1 + 1] > a[j1]);
      if !pq.Less(j, i) {
        DownLoopDone(old(pq.items), pq.items, old(pq.Prios()), a, n, i0, i, c);
        break;
      }
      c := DownSwap(pq, old(pq.items), old(pq.Prios()), n, i0, i, j, c);
      i := j;
    }
    moved := i > i0;
  }

  /** One step of down: swap the item at i with its larger child j. */
  method DownSwap(pq: PriorityQueue, ghost s0: seq<Item>, ghost a0: seq<int>, n: nat,
                  i0: nat, i: nat, j: nat, ghost c: nat) returns (ghost c': nat)
    requires pq.Valid() && DownLoop(s0, pq.items, a0, pq.Prios(), n, i0, i, c)
    requires 2 * i + 1 < n && j == LargerChild(pq.Prios(), n, i) && pq.Prios()[j] > pq.Prios()[i]
    modifies pq`items, pq.Repr`index
    ensures pq.Valid() && c' == (if i == i0 then j else c)
    ensures DownLoop(s0, pq.items, a0, pq.Prios(), n, i0, j, c')
  {
    DownLoopStep(s0, pq.items, a0, pq.Prios(), n, i0, i, c);
    pq.Swap(i, j);
    c' := if i == i0 then j else c;
  }

  /** container/heap's up(h, j): sift the item at j up towards the root. */
  method SiftUp(pq: PriorityQueue, j0: nat)
    requires pq.Valid() && j0 < |pq.items|
    requires SiftingUp(pq.Prios(), j0)
    modifies pq`items, pq.Repr`index
    ensures pq.Valid() && IsMaxHeap(pq.Prios())
    ensures multiset(pq.items) == multiset(old(pq.items))
  {
    var j: nat := j0;
    while true
      invariant pq.Valid() && |pq.items| == old(|pq.items|)
      invariant multiset(pq.items) == multiset(old(pq.items))
      invariant j < |pq.items| && SiftingUp(pq.Prios(), j)
      decreases j
    {
      var i := GoQuo(j - 1, 2);
      if i == j || !pq.Less(j, i) {
        UpDone(pq.Prios(), j);
        break;
      }
      UpStep(pq.Prios(), j);
      pq.Swap(i, j);
      j := i;
    }
  }

  /** container/heap's Init: establish the heap order by sifting down every parent,
      last parent first. */
  method Init(pq: PriorityQueue)
    requires pq.Valid()
    modifies pq`items, pq.Repr`index
    ensures pq.Valid() && IsMaxHeap(pq.Prios())
    ensures multiset(pq.items) == multiset(old(pq.items))
  {
    var n: int := pq.Len();
    var i := n / 2 - 1;
    LeavesAreHeaps(pq.Prios(), n);
    while i >= 0
      invariant -1 <= i <= n / 2 - 1
      invariant pq.Valid() && |pq.items| == n
      invariant multiset(pq.items) == multiset(old(pq.items))
      invariant HeapFrom(pq.Prios(), n, i + 1)
      decreases i
    {
      var _ := SiftDown(pq, i, n);
      i := i - 1;
    }
  }

  /** The first half of container/heap's Pop: swap the root with the last
      slot n and sift the new root down within the first n slots. */
  method RootToEnd(pq: PriorityQueue) returns (n: nat)
    requires pq.Valid() && |pq.items| > 0 && IsMaxHeap(pq.Prios())
    modifies pq`items, pq.Repr`index
    ensures pq.Valid() && n + 1 == |pq.items| == old(|pq.items|)
    ensures multiset(pq.items) == multiset(old(pq.items))
    ensures pq.items[n] == old(pq.items[0]) && HeapFrom(pq.Prios(), n, 0)
    ensures forall k :: 0 <= k < |pq.items| ==> pq.Prios()[k] <= pq.Prios()[n]
  {
    ghost var a := pq.Prios();
    n := pq.Len() - 1;
    RootSwapKeepsBelow(a, n);
    RootBoundsAll(a);
    pq.Swap(0, n);
    var _ := SiftDown(pq, 0, n);
    BoundOfPermutation(a, pq.Prios(), a[0]);
  }

  /** container/heap's Pop: move the root to the end, restore the order of the
      rest and remove the former root through the queue's own Pop. */
  method HeapPop(pq: PriorityQueue) returns (item: Item)
    requires pq.Valid() && |pq.items| > 0 && IsMaxHeap(pq.Prios())
    modifies pq`items, pq`Repr, pq.Repr`index
    ensures pq.Valid() && IsMaxHeap(pq.Prios()) && pq.Repr == old(pq.Repr) - {item}
    ensures item == old(pq.items[0]) && item.index == -1
    ensures |pq.items| == old(|pq.items|) - 1
    ensures multiset(pq.items) + multiset{item} == multiset(old(pq.items))
    ensures forall k :: 0 <= k < |pq.items| ==> pq.items[k].priority <= item.priority
  {
    var n := RootToEnd(pq);
    ghost var b := pq.Prios();
    item := pq.Pop();
    PrefixIsHeap(b, n);
  }

  /** container/heap's Fix: after the item at i has changed its priority, sift it
      down, and up if it did not move down. At slot -1, and at slot 0 of an empty
      queue, both down and up stop before their first comparison, so nothing changes. */
  method Fix(pq: PriorityQueue, i: int)
    requires pq.Valid()
    requires i == -1 || (i == 0 && |pq.items| == 0) || (0 <= i < |pq.items| && HeapExcept(pq.Prios(), i))
    modifies pq`items, pq.Repr`index
    ensures pq.Valid() && multiset(pq.items) == multiset(old(pq.items))
    ensures 0 <= i < old(|pq.items|) ==> IsMaxHeap(pq.Prios())
    ensures !(0 <= i < old(|pq.items|)) ==> pq.items == old(pq.items)
  {
    if !(0 <= i < pq.Len()) {
      // down's first child 2 * i + 1 is negative or past the end, and up's
      // truncated parent (i - 1) / 2 is i itself.
      assert 2 * i + 1 < 0 || 2 * i + 1 >= pq.Len();
      assert GoQuo(i - 1, 2) == i;
      return;
    }
    ghost var a := pq.Prios();
    ExceptStartsDown(a, i);
    var moved := SiftDown(pq, i, pq.Len());
    if !moved {
      NoMoveStartsUp(a, i);
      SiftUp(pq, i);
    } else {
      ghost var c :| 0 < c < |a| && Parent(c) == i && pq.items[i] == old(pq.items[c]) && pq.Prios()[i] == a[c];
      MovedIsHeap(a, pq.Prios(), i, c);
    }
  }
}
