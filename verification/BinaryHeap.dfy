/** Go's container/heap as functions of the array: sift-up, sift-down, push, pop and remove, exactly as they
    move the slots, and what they keep. A slot is what the comparison of two heap entries looks at. */
module BinaryHeap {
  import opened Market

  datatype Slot = Slot(id: string, price: real, at: int)

  predicate Less(side: Side, x: Slot, y: Slot) {
    Sooner(side, x.price, x.at, y.price, y.at)
  }

  lemma NotLessTransitive(side: Side, x: Slot, y: Slot, z: Slot)
    requires !Less(side, y, x) && !Less(side, z, y)
    ensures !Less(side, z, x)
  {
  }

  function Parent(j: int): int { if j == 0 then 0 else (j - 1) / 2 }

  /** Entry `j` does not precede its parent. */
  ghost predicate InOrder(side: Side, a: seq<Slot>, j: int)
    requires 0 <= j < |a|
  {
    !Less(side, a[j], a[Parent(j)])
  }

  ghost predicate HeapOrdered(side: Side, a: seq<Slot>, n: int)
    requires n <= |a|
  {
    forall j :: 0 <= j < n ==> InOrder(side, a, j)
  }

  /** Heap order except that entry `j` may precede its parent. */
  ghost predicate OrderedBut(side: Side, a: seq<Slot>, n: int, j: int)
    requires 0 <= j < |a| && n <= |a|
  {
    && (forall k :: 0 <= k < n && k != j ==> InOrder(side, a, k))
    && (forall k :: 0 < j < k < n && Parent(k) == j ==> !Less(side, a[k], a[Parent(j)]))
  }

  /** Heap order except around entry `i`: its children may precede it, and unless it was
      reached from above it may precede its parent. */
  ghost predicate OrderedAround(side: Side, a: seq<Slot>, n: int, i: int, fromAbove: bool)
    requires 0 <= i < |a| && n <= |a|
  {
    && (forall k :: 0 <= k < n && k != i && Parent(k) != i ==> InOrder(side, a, k))
    && (forall k :: 0 < i < k < n && Parent(k) == i ==> !Less(side, a[k], a[Parent(i)]))
    && (fromAbove ==> InOrder(side, a, i))
  }

  function Swapped<T>(a: seq<T>, i: int, j: int): (r: seq<T>)
    requires 0 <= i < |a| && 0 <= j < |a|
    ensures |r| == |a|
  {
    a[i := a[j]][j := a[i]]
  }

  /** Heap order of the first `n` entries depends on those entries alone. */
  lemma SamePrefix(side: Side, a: seq<Slot>, b: seq<Slot>, n: int)
    requires 0 <= n <= |a| && n <= |b| && a[..n] == b[..n]
    requires HeapOrdered(side, a, n)
    ensures HeapOrdered(side, b, n)
  {
    forall k | 0 <= k < n
      ensures InOrder(side, b, k)
    {
      assert InOrder(side, a, k);
      assert a[..n][k] == b[..n][k] && a[..n][Parent(k)] == b[..n][Parent(k)];
    }
  }

  lemma UpStep(side: Side, a: seq<Slot>, n: int, j: int)
    requires 0 < j < n <= |a| && OrderedBut(side, a, n, j) && Less(side, a[j], a[Parent(j)])
    ensures OrderedBut(side, Swapped(a, Parent(j), j), n, Parent(j))
  {
    var i := Parent(j);
    var a' := Swapped(a, i, j);
    assert InOrder(side, a, i);
    forall k | 0 <= k < n && k != i
      ensures InOrder(side, a', k)
    {
      assert k != j ==> InOrder(side, a, k);
    }
    forall k | 0 < i < k < n && Parent(k) == i
      ensures !Less(side, a'[k], a'[Parent(i)])
    {
      assert k != j ==> InOrder(side, a, k);
    }
  }

  /** Entry `c` is the child of `i` that the other does not precede. */
  ghost predicate BestChild(side: Side, a: seq<Slot>, n: int, i: int, c: int)
    requires 0 <= i && n <= |a|
  {
    && (c == 2 * i + 1 || c == 2 * i + 2) && c < n
    && !Less(side, a[2 * i + 1], a[c])
    && (2 * i + 2 < n ==> !Less(side, a[2 * i + 2], a[c]))
  }

  function PickChild(side: Side, a: seq<Slot>, n: int, i: int): (c: int)
    requires 0 <= i && 2 * i + 1 < n <= |a|
    ensures BestChild(side, a, n, i, c)
  {
    if 2 * i + 2 < n && Less(side, a[2 * i + 2], a[2 * i + 1]) then 2 * i + 2 else 2 * i + 1
  }

  /** The better child of `i` precedes it. */
  predicate Sinks(side: Side, a: seq<Slot>, n: int, i: int)
    requires 0 <= i < |a| && n <= |a|
  {
    2 * i + 1 < n && Less(side, a[PickChild(side, a, n, i)], a[i])
  }

  lemma ChildInOrder(side: Side, a: seq<Slot>, n: int, i: int, c: int, k: int)
    requires 0 <= i < k < n <= |a| && Parent(k) == i
    requires BestChild(side, a, n, i, c) && !Less(side, a[c], a[i])
    ensures InOrder(side, a, k)
  {
    if k == 2 * i + 1 {
      NotLessTransitive(side, a[i], a[c], a[k]);
    } else {
      assert k == 2 * i + 2;
      NotLessTransitive(side, a[i], a[c], a[k]);
    }
  }

  lemma DownStep(side: Side, a: seq<Slot>, n: int, i: int, c: int, fromAbove: bool)
    requires 0 <= i < n <= |a| && OrderedAround(side, a, n, i, fromAbove)
    requires BestChild(side, a, n, i, c) && Less(side, a[c], a[i])
    ensures OrderedAround(side, Swapped(a, i, c), n, c, true)
  {
    var a' := Swapped(a, i, c);
    assert Parent(c) == i;
    forall k | 0 <= k < n && k != c && Parent(k) != c
      ensures InOrder(side, a', k)
    {
      assert k != i && Parent(k) != i ==> InOrder(side, a, k);
    }
    forall k | c < k < n && Parent(k) == c
      ensures !Less(side, a'[k], a'[Parent(c)])
    {
      assert InOrder(side, a, k);
    }
  }

  lemma DownStop(side: Side, a: seq<Slot>, n: int, i: int, c: int, fromAbove: bool)
    requires 0 <= i < |a| && n <= |a| && OrderedAround(side, a, n, i, fromAbove)
    requires 2 * i + 1 < n ==> BestChild(side, a, n, i, c) && !Less(side, a[c], a[i])
    ensures OrderedBut(side, a, n, i)
    ensures fromAbove ==> HeapOrdered(side, a, n)
  {
    forall k | 0 <= k < n && k != i && Parent(k) == i
      ensures InOrder(side, a, k)
    {
      ChildInOrder(side, a, n, i, c, k);
    }
  }

  /** Overwriting one entry of a heap with its last one disturbs the order only around it. */
  lemma RemoveStart(side: Side, a: seq<Slot>, i: int)
    requires 0 <= i < |a| && HeapOrdered(side, a, |a|)
    ensures OrderedAround(side, Swapped(a, i, |a| - 1), |a| - 1, i, false)
  {
    var n := |a| - 1;
    var a' := Swapped(a, i, n);
    forall k | 0 <= k < n && k != i && Parent(k) != i
      ensures InOrder(side, a', k)
    {
      assert InOrder(side, a, k);
    }
    forall k | 0 < i < k < n && Parent(k) == i
      ensures !Less(side, a'[k], a'[Parent(i)])
    {
      assert InOrder(side, a, k) && InOrder(side, a, i);
      NotLessTransitive(side, a[Parent(i)], a[i], a[k]);
    }
  }

  /** No entry of a heap precedes its root. */
  lemma {:induction false} RootIsBest(side: Side, a: seq<Slot>, k: int)
    requires 0 <= k < |a| && HeapOrdered(side, a, |a|)
    ensures !Less(side, a[k], a[0])
    decreases k
  {
    if k > 0 {
      RootIsBest(side, a, Parent(k));
      assert InOrder(side, a, k);
    }
  }

  // ---------- container/heap ----------

  /** Move slot `j` up while it precedes its parent. */
  function Up(side: Side, a: seq<Slot>, j: int): (r: seq<Slot>)
    requires 0 <= j < |a|
    ensures |r| == |a|
    decreases j
  {
    if j == 0 || !Less(side, a[j], a[Parent(j)]) then a
    else Up(side, Swapped(a, Parent(j), j), Parent(j))
  }

  lemma UpUnfolds(side: Side, a: seq<Slot>, j: int)
    requires 0 <= j < |a|
    ensures if j == 0 || !Less(side, a[j], a[Parent(j)]) then Up(side, a, j) == a
            else Up(side, a, j) == Up(side, Swapped(a, Parent(j), j), Parent(j))
  {
  }

  /** Move slot `i` down, among the first `n`, while its better child precedes it. */
  function Down(side: Side, a: seq<Slot>, n: int, i: int): (r: seq<Slot>)
    requires 0 <= i < |a| && n <= |a|
    ensures |r| == |a|
    decreases n - i
  {
    if !Sinks(side, a, n, i) then a
    else
      var c := PickChild(side, a, n, i);
      Down(side, Swapped(a, i, c), n, c)
  }

  lemma MayPick(side: Side, a: seq<Slot>, n: int, i: int)
    requires 0 <= i < |a| && n <= |a| && Sinks(side, a, n, i)
    ensures 2 * i + 1 < n
  {
  }

  lemma DownUnfolds(side: Side, a: seq<Slot>, n: int, i: int)
    requires 0 <= i < |a| && n <= |a|
    ensures if !Sinks(side, a, n, i) then Down(side, a, n, i) == a
            else var c := PickChild(side, a, n, i);
              i < c < n && Down(side, a, n, i) == Down(side, Swapped(a, i, c), n, c)
  {
  }

  function Push(side: Side, a: seq<Slot>, x: Slot): (r: seq<Slot>)
    ensures |r| == |a| + 1
  {
    Up(side, a + [x], |a|)
  }

  function Pop(side: Side, a: seq<Slot>): (r: seq<Slot>)
    requires a != []
    ensures |r| == |a| - 1
  {
    var n := |a| - 1;
    Down(side, Swapped(a, 0, n), n, 0)[..n]
  }

  /** Swap with the last, restore the order around the gap, downwards or else upwards, and cut. */
  function Remove(side: Side, a: seq<Slot>, i: int): (r: seq<Slot>)
    requires 0 <= i < |a|
    ensures |r| == |a| - 1
  {
    var n := |a| - 1;
    if i == n then a[..n]
    else
      Sifted(side, a, i)[..n]
  }

  /** The array that Remove cuts. */
  function Sifted(side: Side, a: seq<Slot>, i: int): (r: seq<Slot>)
    requires 0 <= i < |a| - 1
    ensures |r| == |a|
  {
    var n := |a| - 1;
    var b := Swapped(a, i, n);
    if Sinks(side, b, n, i) then Down(side, b, n, i) else Up(side, b, i)
  }

  // ---------- the order is kept ----------

  lemma {:induction false} UpOrdered(side: Side, a: seq<Slot>, n: int, j: int)
    requires 0 <= j < n <= |a| && OrderedBut(side, a, n, j)
    ensures HeapOrdered(side, Up(side, a, j), n)
    decreases j
  {
    if j > 0 && Less(side, a[j], a[Parent(j)]) {
      UpStep(side, a, n, j);
      UpOrdered(side, Swapped(a, Parent(j), j), n, Parent(j));
    }
  }

  lemma {:induction false} DownOrdered(side: Side, a: seq<Slot>, n: int, i: int, fromAbove: bool)
    requires 0 <= i < |a| && n <= |a| && OrderedAround(side, a, n, i, fromAbove)
    ensures fromAbove || Sinks(side, a, n, i) ==> HeapOrdered(side, Down(side, a, n, i), n)
    ensures !Sinks(side, a, n, i) ==> OrderedBut(side, a, n, i)
    decreases n - i
  {
    hide OrderedAround, OrderedBut, HeapOrdered, BestChild;
    if Sinks(side, a, n, i) {
      var c := PickChild(side, a, n, i);
      Picked(side, a, n, i);
      DownStep(side, a, n, i, c, fromAbove);
      DownOrdered(side, Swapped(a, i, c), n, c, true);
    } else {
      if 2 * i + 1 < n {
        Picked(side, a, n, i);
      }
      DownStop(side, a, n, i, if 2 * i + 1 < n then PickChild(side, a, n, i) else i, fromAbove);
    }
  }

  lemma Picked(side: Side, a: seq<Slot>, n: int, i: int)
    requires 0 <= i && 2 * i + 1 < n <= |a|
    ensures BestChild(side, a, n, i, PickChild(side, a, n, i)) && i < PickChild(side, a, n, i) < n
  {
  }

  lemma CutOrdered(side: Side, a: seq<Slot>, n: int)
    requires 0 <= n <= |a| && HeapOrdered(side, a, n)
    ensures HeapOrdered(side, a[..n], n)
  {
    SamePrefix(side, a, a[..n], n);
  }

  lemma PushOrdered(side: Side, a: seq<Slot>, x: Slot)
    requires HeapOrdered(side, a, |a|)
    ensures HeapOrdered(side, Push(side, a, x), |a| + 1)
  {
    SamePrefix(side, a, a + [x], |a|);
    UpOrdered(side, a + [x], |a| + 1, |a|);
  }

  lemma PopOrdered(side: Side, a: seq<Slot>)
    requires a != [] && HeapOrdered(side, a, |a|)
    ensures HeapOrdered(side, Pop(side, a), |a| - 1)
  {
    var n := |a| - 1;
    var b := Swapped(a, 0, n);
    RemoveStart(side, a, 0);
    DownOrdered(side, b, n, 0, false);
    if !Sinks(side, b, n, 0) {
      AtTheRoot(side, b, n);
    }
    CutOrdered(side, Down(side, b, n, 0), n);
  }

  lemma AtTheRoot(side: Side, a: seq<Slot>, n: int)
    requires 0 < |a| && n <= |a| && OrderedBut(side, a, n, 0)
    ensures HeapOrdered(side, a, n)
  {
    assert 0 < n ==> InOrder(side, a, 0);
  }

  lemma RemoveOrdered(side: Side, a: seq<Slot>, i: int)
    requires 0 <= i < |a| && HeapOrdered(side, a, |a|)
    ensures HeapOrdered(side, Remove(side, a, i), |a| - 1)
  {
    hide OrderedAround, OrderedBut;
    var n := |a| - 1;
    if i == n {
      LessOrdered(side, a, n);
      CutOrdered(side, a, n);
    } else {
      var b := Swapped(a, i, n);
      RemoveStart(side, a, i);
      DownOrdered(side, b, n, i, false);
      if Sinks(side, b, n, i) {
        CutOrdered(side, Down(side, b, n, i), n);
      } else {
        UpOrdered(side, b, n, i);
        CutOrdered(side, Up(side, b, i), n);
      }
    }
  }

  lemma LessOrdered(side: Side, a: seq<Slot>, n: int)
    requires n <= |a| && HeapOrdered(side, a, |a|)
    ensures HeapOrdered(side, a, n)
  {
  }

  ghost predicate IsHeap(side: Side, a: seq<Slot>) { HeapOrdered(side, a, |a|) }

  /** Every operation of container/heap keeps a heap a heap. */
  lemma OperationsKeepHeaps(side: Side, a: seq<Slot>)
    requires IsHeap(side, a)
    ensures forall x :: IsHeap(side, Push(side, a, x))
    ensures a != [] ==> IsHeap(side, Pop(side, a))
    ensures forall i :: 0 <= i < |a| ==> IsHeap(side, Remove(side, a, i))
  {
    hide HeapOrdered, Push, Pop, Remove;
    forall x ensures IsHeap(side, Push(side, a, x)) {
      PushOrdered(side, a, x);
    }
    if a != [] {
      PopOrdered(side, a);
    }
    forall i | 0 <= i < |a| ensures IsHeap(side, Remove(side, a, i)) {
      RemoveOrdered(side, a, i);
    }
  }

  // ---------- the slots are kept ----------

  lemma {:induction false} UpKeeps(side: Side, a: seq<Slot>, j: int)
    requires 0 <= j < |a|
    ensures multiset(Up(side, a, j)) == multiset(a)
    ensures forall k :: j < k < |a| ==> Up(side, a, j)[k] == a[k]
    decreases j
  {
    if j > 0 && Less(side, a[j], a[Parent(j)]) {
      UpKeeps(side, Swapped(a, Parent(j), j), Parent(j));
    }
  }

  lemma {:induction false} DownKeeps(side: Side, a: seq<Slot>, n: int, i: int)
    requires 0 <= i < |a| && 0 <= n <= |a|
    ensures multiset(Down(side, a, n, i)) == multiset(a)
    ensures forall k :: n <= k < |a| && k != i ==> Down(side, a, n, i)[k] == a[k]
    decreases n - i
  {
    if Sinks(side, a, n, i) {
      var c := PickChild(side, a, n, i);
      DownKeeps(side, Swapped(a, i, c), n, c);
    }
  }

  lemma CutKeeps(a: seq<Slot>, n: nat)
    requires n + 1 == |a|
    ensures multiset(a[..n]) == multiset(a) - multiset{a[n]}
  {
    assert a == a[..n] + [a[n]];
  }

  lemma PushKeeps(side: Side, a: seq<Slot>, x: Slot)
    ensures multiset(Push(side, a, x)) == multiset(a) + multiset{x}
  {
    UpKeeps(side, a + [x], |a|);
  }

  lemma SwapKeeps(a: seq<Slot>, i: int, j: int)
    requires 0 <= i < |a| && 0 <= j < |a|
    ensures multiset(Swapped(a, i, j)) == multiset(a) && Swapped(a, i, j)[j] == a[i]
  {
  }

  lemma PopKeeps(side: Side, a: seq<Slot>)
    requires a != []
    ensures multiset(Pop(side, a)) == multiset(a) - multiset{a[0]}
  {
    hide Swapped, Down;
    var n := |a| - 1;
    var b := Swapped(a, 0, n);
    SwapKeeps(a, 0, n);
    DownKeeps(side, b, n, 0);
    DownUnfolds(side, b, n, 0);
    CutKeeps(Down(side, b, n, 0), n);
  }

  lemma SiftedKeeps(side: Side, a: seq<Slot>, i: int)
    requires 0 <= i < |a| - 1
    ensures multiset(Sifted(side, a, i)) == multiset(a) && Sifted(side, a, i)[|a| - 1] == a[i]
  {
    hide Swapped, Up, Down, Sinks;
    var n := |a| - 1;
    var b := Swapped(a, i, n);
    SwapKeeps(a, i, n);
    if Sinks(side, b, n, i) {
      DownKeeps(side, b, n, i);
    } else {
      UpKeeps(side, b, i);
    }
  }

  lemma RemoveKeeps(side: Side, a: seq<Slot>, i: int)
    requires 0 <= i < |a|
    ensures multiset(Remove(side, a, i)) == multiset(a) - multiset{a[i]}
  {
    var n := |a| - 1;
    if i == n {
      CutKeeps(a, n);
    } else {
      assert Remove(side, a, i) == Sifted(side, a, i)[..n];
      hide Sifted, Remove;
      SiftedKeeps(side, a, i);
      CutKeeps(Sifted(side, a, i), n);
    }
  }
}
