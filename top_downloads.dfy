/** The selection done by the program's main function: keep the download count
    of every artifact whose name contains ".jar" (a later entry with the same
    name overwrites an earlier one), put one item per name into the priority
    queue, heapify it and take out at most two items, largest count first. */
module TopDownloads {
  import opened HeapOrder
  import opened Artifactory

  /** An artifact found by the repository search, together with the download
      count its storage statistics report. */
  datatype ArtifactCount = ArtifactCount(name: string, downloads: int)

  const JarMarker: string := ".jar"

  /** How many items main prints at most. */
  const TopCount: nat := 2

  /** sub occurs in s starting at position i. */
  ghost predicate OccursAt(s: string, sub: string, i: nat)
  {
    i + |sub| <= |s| && s[i..i + |sub|] == sub
  }

  /** Occurrences in s[1..] are the occurrences in s shifted by one. */
  lemma OccursShift(s: string, sub: string)
    requires |s| > 0
    ensures forall j: nat :: OccursAt(s[1..], sub, j) == OccursAt(s, sub, j + 1)
    ensures forall i: nat :: 1 <= i ==> OccursAt(s, sub, i) == OccursAt(s[1..], sub, i - 1)
  {
  }

  /** Go's strings.Contains: sub occurs somewhere in s. */
  function Contains(s: string, sub: string): (b: bool)
    ensures b <==> exists i: nat :: OccursAt(s, sub, i)
    decreases |s|
  {
    if |s| < |sub| then false
    else if s[..|sub|] == sub then (assert OccursAt(s, sub, 0); true)
    else (OccursShift(s, sub); Contains(s[1..], sub))
  }

  /** The count map main builds: the last count seen for every jar name. */
  ghost function CountMapOf(stats: seq<ArtifactCount>): map<string, int>
  {
    if stats == [] then map[]
    else
      var m := CountMapOf(stats[..|stats| - 1]);
      var e := stats[|stats| - 1];
      if Contains(e.name, JarMarker) then m[e.name := e.downloads] else m
  }

  /** The names in the count map are exactly the jar names of the input. */
  lemma {:induction false} CountMapKeys(stats: seq<ArtifactCount>, name: string)
    ensures name in CountMapOf(stats) <==>
              Contains(name, JarMarker) && exists i :: 0 <= i < |stats| && stats[i].name == name
  {
    if stats != [] {
      var init := stats[..|stats| - 1];
      CountMapKeys(init, name);
      if name in CountMapOf(stats) && name != stats[|stats| - 1].name {
        var i :| 0 <= i < |init| && init[i].name == name;
        assert stats[i].name == name;
      }
      if (exists i :: 0 <= i < |stats| && stats[i].name == name) && name != stats[|stats| - 1].name {
        var i :| 0 <= i < |stats| && stats[i].name == name;
        assert init[i].name == name;
      }
    }
  }

  /** Last write wins: the count of a name is the one of its last occurrence. */
  lemma {:induction false} CountMapLastWins(stats: seq<ArtifactCount>, i: nat)
    requires i < |stats| && Contains(stats[i].name, JarMarker)
    requires forall j :: i < j < |stats| ==> stats[j].name != stats[i].name
    ensures stats[i].name in CountMapOf(stats)
    ensures CountMapOf(stats)[stats[i].name] == stats[i].downloads
  {
    if i < |stats| - 1 {
      var init := stats[..|stats| - 1];
      assert forall j :: i < j < |init| ==> init[j] == stats[j];
      CountMapLastWins(init, i);
    }
  }

  /** main's first loop over the search results. */
  method BuildCountMap(stats: seq<ArtifactCount>) returns (countMap: map<string, int>)
    ensures countMap == CountMapOf(stats)
  {
    countMap := map[];
    var i := 0;
    while i < |stats|
      invariant 0 <= i <= |stats|
      invariant countMap == CountMapOf(stats[..i])
    {
      assert stats[..i + 1][..i] == stats[..i];
      if Contains(stats[i].name, JarMarker) {
        countMap := countMap[stats[i].name := stats[i].downloads];
      }
      i := i + 1;
    }
    assert stats[..i] == stats;
  }

  /** The items hold the entries of a map: one item per key, with that key's value. */
  ghost predicate Represents(items: seq<Item>, m: map<string, int>)
    reads items`value, items`priority
  {
    |items| == |m| &&
    (forall k :: 0 <= k < |items| ==> items[k].value in m && m[items[k].value] == items[k].priority) &&
    (forall k, l :: 0 <= k < l < |items| ==> items[k].value != items[l].value)
  }

  /** Pigeonhole: as many items as keys, each carrying a different key, so every
      key is carried by one of them. */
  lemma {:induction false} Covers(items: seq<Item>, keys: set<string>, v: string)
    requires |items| == |keys| && v in keys
    requires forall k :: 0 <= k < |items| ==> items[k].value in keys
    requires forall k, l :: 0 <= k < l < |items| ==> items[k].value != items[l].value
    ensures exists k :: 0 <= k < |items| && items[k].value == v
  {
    var n := |items| - 1;
    if items[n].value != v {
      var init := items[..n];
      var rest := keys - {items[n].value};
      forall k | 0 <= k < |init|
        ensures init[k].value in rest
      {
        assert items[k].value != items[n].value;
      }
      Covers(init, rest, v);
      var k :| 0 <= k < |init| && init[k].value == v;
      assert items[k].value == v;
    }
  }

  /** main's second loop: one fresh item per map entry, in the map's iteration order,
      each recording its slot. */
  method BuildQueue(countMap: map<string, int>) returns (pq: PriorityQueue)
    ensures fresh(pq) && fresh(pq.Repr) && pq.Valid()
    ensures Represents(pq.items, countMap)
  {
    pq := new PriorityQueue();
    var remaining := countMap.Keys;
    var i := 0;
    while remaining != {}
      invariant remaining <= countMap.Keys && i + |remaining| == |countMap|
      invariant fresh(pq) && fresh(pq.Repr) && pq.Valid() && |pq.items| == i
      invariant forall k :: 0 <= k < i ==>
                  pq.items[k].value in countMap && pq.items[k].value !in remaining &&
                  countMap[pq.items[k].value] == pq.items[k].priority
      invariant forall k, l :: 0 <= k < l < i ==> pq.items[k].value != pq.items[l].value
      decreases |remaining|
    {
      var value :| value in remaining;
      var item := new Item(value, countMap[value], i);
      pq.items := pq.items + [item];
      pq.Repr := pq.Repr + {item};
      remaining := remaining - {value};
      i := i + 1;
    }
  }

  /** One round of the output loop keeps its bookkeeping: the popped items and
      the remaining ones still make up the initial queue, the popped ones are
      distinct and come out largest first, and each dominates what remains. */
  lemma PopStep(all: multiset<Item>, before: seq<Item>, after: seq<Item>, item: Item,
                popped: seq<Item>, out: seq<(int, string)>)
    requires multiset(popped) + multiset(before) == all
    requires multiset(after) + multiset{item} == multiset(before) && item !in after
    requires forall k :: 0 <= k < |after| ==> after[k].priority <= item.priority
    requires |out| == |popped|
    requires forall t :: 0 <= t < |out| ==> out[t] == (popped[t].priority, popped[t].value)
    requires forall t :: 0 <= t < |popped| ==> popped[t] !in before
    requires forall t, u :: 0 <= t < u < |popped| ==> popped[t] != popped[u]
    requires forall t, u :: 0 <= t < u < |out| ==> out[t].0 >= out[u].0
    requires forall t, k :: 0 <= t < |popped| && 0 <= k < |before| ==> popped[t].priority >= before[k].priority
    ensures var popped', out' := popped + [item], out + [(item.priority, item.value)];
            |out'| == |popped'| &&
            (forall t :: 0 <= t < |out'| ==> out'[t] == (popped'[t].priority, popped'[t].value)) &&
            multiset(popped') + multiset(after) == all &&
            (forall t :: 0 <= t < |popped'| ==> popped'[t] !in after) &&
            (forall t, u :: 0 <= t < u < |popped'| ==> popped'[t] != popped'[u]) &&
            (forall t, u :: 0 <= t < u < |out'| ==> out'[t].0 >= out'[u].0) &&
            (forall t, k :: 0 <= t < |popped'| && 0 <= k < |after| ==> popped'[t].priority >= after[k].priority)
  {
    assert item in multiset(before);
    var j :| 0 <= j < |before| && before[j] == item;
    assert multiset(after) <= multiset(before);
    forall it | it in after
      ensures it in before
    {
      assert it in multiset(after);
    }
  }

  /** main's output loop: pop while the queue is not empty and fewer than two
      items have been taken; each pop yields the (priority, value) it prints. */
  method PopTop(pq: PriorityQueue) returns (out: seq<(int, string)>, ghost popped: seq<Item>)
    requires pq.Valid() && IsMaxHeap(pq.Prios())
    modifies pq`items, pq`Repr, pq.Repr`index
    ensures |out| == |popped| == if old(|pq.items|) < TopCount then old(|pq.items|) else TopCount
    ensures forall t :: 0 <= t < |out| ==> out[t] == (popped[t].priority, popped[t].value)
    ensures multiset(popped) + multiset(pq.items) == multiset(old(pq.items))
    ensures forall t, u :: 0 <= t < u < |popped| ==> popped[t] != popped[u]
    ensures forall t, u :: 0 <= t < u < |out| ==> out[t].0 >= out[u].0
    ensures forall t, k :: 0 <= t < |popped| && 0 <= k < |pq.items| ==> popped[t].priority >= pq.items[k].priority
    ensures forall t :: 0 <= t < |popped| ==> popped[t].index == -1
  {
    out := [];
    popped := [];
    var count := 0;
    while pq.Len() > 0 && count < TopCount
      invariant pq.Valid() && IsMaxHeap(pq.Prios()) && pq.Repr <= old(pq.Repr)
      invariant forall t :: 0 <= t < |popped| ==> popped[t] !in pq.Repr && popped[t].index == -1
      invariant count == |out| == |popped| <= TopCount
      invariant count + |pq.items| == old(|pq.items|)
      invariant forall t :: 0 <= t < |out| ==> out[t] == (popped[t].priority, popped[t].value)
      invariant multiset(popped) + multiset(pq.items) == multiset(old(pq.items))
      invariant forall t :: 0 <= t < |popped| ==> popped[t] !in pq.items
      invariant forall t, u :: 0 <= t < u < |popped| ==> popped[t] != popped[u]
      invariant forall t, u :: 0 <= t < u < |out| ==> out[t].0 >= out[u].0
      invariant forall t, k :: 0 <= t < |popped| && 0 <= k < |pq.items| ==> popped[t].priority >= pq.items[k].priority
      decreases |pq.items|
    {
      ghost var before := pq.items;
      var item := HeapPop(pq);
      PopStep(multiset(old(pq.items)), before, pq.items, item, popped, out);
      out := out + [(item.priority, item.value)];
      popped := popped + [item];
      count := count + 1;
    }
  }

  /** out lists min(k, |m|) distinct entries of m as (count, name), largest count
      first, and no entry of m left out has a larger count than one listed. */
  ghost predicate IsTop(out: seq<(int, string)>, m: map<string, int>, k: nat)
  {
    |out| == (if |m| < k then |m| else k) &&
    (forall t :: 0 <= t < |out| ==> out[t].1 in m && m[out[t].1] == out[t].0) &&
    (forall t, u :: 0 <= t < u < |out| ==> out[t].1 != out[u].1 && out[t].0 >= out[u].0) &&
    (forall v, t :: v in m && 0 <= t < |out| && (forall u :: 0 <= u < |out| ==> out[u].1 != v) ==>
                      m[v] <= out[t].0)
  }

  /** What the output loop achieves on a queue that represents m: out lists
      distinct entries of m, largest first, and no entry left behind is larger. */
  lemma SelectionSound(built: seq<Item>, popped: seq<Item>, rest: seq<Item>,
                        out: seq<(int, string)>, m: map<string, int>)
    requires Represents(built, m)
    requires multiset(popped) + multiset(rest) == multiset(built)
    requires |out| == |popped|
    requires forall t :: 0 <= t < |out| ==> out[t] == (popped[t].priority, popped[t].value)
    requires forall t, u :: 0 <= t < u < |popped| ==> popped[t] != popped[u]
    requires forall t, u :: 0 <= t < u < |out| ==> out[t].0 >= out[u].0
    requires forall t, k :: 0 <= t < |popped| && 0 <= k < |rest| ==> popped[t].priority >= rest[k].priority
    ensures forall t :: 0 <= t < |out| ==> out[t].1 in m && m[out[t].1] == out[t].0
    ensures forall t, u :: 0 <= t < u < |out| ==> out[t].1 != out[u].1 && out[t].0 >= out[u].0
    ensures forall v, t :: v in m && 0 <= t < |out| && (forall u :: 0 <= u < |out| ==> out[u].1 != v) ==>
                             m[v] <= out[t].0
  {
    forall t | 0 <= t < |popped|
      ensures popped[t] in built
    {
      assert popped[t] in multiset(built);
    }
    forall t, u | 0 <= t < u < |out|
      ensures out[t].1 != out[u].1
    {
      var k :| 0 <= k < |built| && built[k] == popped[t];
      var l :| 0 <= l < |built| && built[l] == popped[u];
      assert k != l;
    }
    forall v, t | v in m && 0 <= t < |out| && (forall u :: 0 <= u < |out| ==> out[u].1 != v)
      ensures m[v] <= out[t].0
    {
      Covers(built, m.Keys, v);
      var k :| 0 <= k < |built| && built[k].value == v;
      assert built[k] in multiset(built);
      assert forall u :: 0 <= u < |popped| ==> popped[u].value == out[u].1 != v;
      assert built[k] in rest;
      var j :| 0 <= j < |rest| && rest[j] == built[k];
    }
  }

  /** Heapify a queue that holds the entries of a map and take out its two
      largest entries. */
  method SelectTop(pq: PriorityQueue, ghost m: map<string, int>) returns (out: seq<(int, string)>)
    requires pq.Valid() && Represents(pq.items, m)
    modifies pq`items, pq`Repr, pq.Repr`index
    ensures IsTop(out, m, TopCount)
  {
    ghost var built := pq.items;
    Init(pq);
    assert |pq.items| == |multiset(pq.items)| == |multiset(built)| == |m|;
    ghost var popped;
    out, popped := PopTop(pq);
    SelectionSound(built, popped, pq.items, out, m);
  }

  /** The whole selection: build the count map, fill the queue and take out
      the two largest entries. */
  method TopTwo(stats: seq<ArtifactCount>) returns (out: seq<(int, string)>)
    ensures IsTop(out, CountMapOf(stats), TopCount)
  {
    var countMap := BuildCountMap(stats);
    var pq := BuildQueue(countMap);
    out := SelectTop(pq, countMap);
  }

  /** A one-letter name followed by ".jar" contains the marker. */
  lemma JarName(name: string)
    requires |name| == 5 && name[1..] == JarMarker
    ensures Contains(name, JarMarker)
  {
  }

  lemma ThreeJarsCounts()
    ensures CountMapOf([ArtifactCount("a.jar", 5), ArtifactCount("b.jar", 9), ArtifactCount("c.jar", 1)])
            == map["a.jar" := 5, "b.jar" := 9, "c.jar" := 1]
  {
    var stats := [ArtifactCount("a.jar", 5), ArtifactCount("b.jar", 9), ArtifactCount("c.jar", 1)];
    JarName("a.jar");
    JarName("b.jar");
    JarName("c.jar");
    assert stats[..2][..1][..0] == [];
    assert CountMapOf(stats[..1]) == map["a.jar" := 5];
    assert CountMapOf(stats[..2]) == map["a.jar" := 5, "b.jar" := 9];
  }

  /** The only top-two selection of these three counts. */
  lemma ThreeJarsTop(out: seq<(int, string)>)
    requires IsTop(out, map["a.jar" := 5, "b.jar" := 9, "c.jar" := 1], 2)
    ensures out == [(9, "b.jar"), (5, "a.jar")]
  {
    var m := map["a.jar" := 5, "b.jar" := 9, "c.jar" := 1];
    assert |m| == 3;
    assert out[0] == (9, "b.jar") by {
      assert "b.jar" in m && m["b.jar"] == 9;
      assert out[0].1 in m && out[0].0 == m[out[0].1];
      assert out[1].1 in m && out[1].0 == m[out[1].1];
    }
    assert out[1].1 == "a.jar" by {
      assert "a.jar" in m && m["a.jar"] == 5;
      assert out[1].1 in m && out[1].0 == m[out[1].1];
    }
  }

  /** Three jars with distinct names: the two largest counts come out, largest first. */
  method ExampleThreeJars() returns (out: seq<(int, string)>)
    ensures out == [(9, "b.jar"), (5, "a.jar")]
  {
    var stats := [ArtifactCount("a.jar", 5), ArtifactCount("b.jar", 9), ArtifactCount("c.jar", 1)];
    ThreeJarsCounts();
    out := TopTwo(stats);
    ThreeJarsTop(out);
  }

  /** A repeated name keeps its last count, and a name without ".jar" is dropped. */
  method ExampleOverwrite() returns (out: seq<(int, string)>)
    ensures out == [(9, "a.jar")]
  {
    var stats := [ArtifactCount("a.jar", 5), ArtifactCount("a.pom", 20), ArtifactCount("a.jar", 9)];
    JarName("a.jar");
    assert !Contains("a.pom", JarMarker) by {
      assert !Contains(".pom", JarMarker) by {
        assert ".pom"[..4][1] != JarMarker[1];
        assert |".pom"[1..]| < |JarMarker|;
      }
      assert "a.pom"[..4][0] != JarMarker[0];
      assert "a.pom"[1..] == ".pom";
    }
    assert stats[..2][..1][..0] == [];
    assert CountMapOf(stats[..1]) == map["a.jar" := 5];
    assert CountMapOf(stats[..2]) == map["a.jar" := 5];
    assert CountMapOf(stats) == map["a.jar" := 9];
    out := TopTwo(stats);
  }

  /** No jar at all: nothing is printed. */
  method ExampleNoJar() returns (out: seq<(int, string)>)
    ensures out == []
  {
    var stats := [ArtifactCount("a.pom", 3)];
    assert !Contains("a.pom", JarMarker) by {
      assert !Contains(".pom", JarMarker) by {
        assert ".pom"[..4][1] != JarMarker[1];
        assert |".pom"[1..]| < |JarMarker|;
      }
      assert "a.pom"[..4][0] != JarMarker[0];
      assert "a.pom"[1..] == ".pom";
    }
    assert stats[..0] == [];
    assert CountMapOf(stats) == map[];
    out := TopTwo(stats);
  }
}
